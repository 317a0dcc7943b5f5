/** The tiny-URL service of server.go: deriving candidate aliases from the
    MD5 digest of a long URL, the collision resolver GenerateHashAndInsert,
    the writer StoreTinyURL and the cache-then-store lookup of
    GetLongHandler. The Postgres table `urls` and the Redis hash "urls" are
    two maps from tiny URL to long URL. */
module Shortener {
  import opened Encoding

  /** What `md5.Sum` returns: 16 bytes. */
  type Digest = d: seq<Byte> | |d| == 16 witness seq(16, i => 0)

  datatype Option<T> = None | Some(value: T)

  const AliasWidth: nat := 6
  const EncodedLength: nat := 44
  const UnableMessage: string := "Unable to generate tiny URL"
  const InvalidParameter: string := "invalid parameter"

  /** The value Go sees for a key: the stored one, or the empty string when
      there is none (Redis HGet's Val() on a missing field, a gorm row left
      at its zero value when no row matched). */
  function Get(m: map<string, string>, k: string): string {
    if k in m then m[k] else ""
  }

  // ---------------------------------------------------------------------
  // Candidate aliases
  // ---------------------------------------------------------------------

  /** The string aliases are cut from: the base64 URL encoding of the 32
      lowercase hex digits of the digest, with '/' and '+' replaced by '_'.
      It is 44 characters long and only its last one is padding. */
  function Encoded(d: Digest): (e: string)
    ensures |e| == EncodedLength
    ensures e[EncodedLength - 1] == Pad
    ensures forall i :: 0 <= i < EncodedLength - 1 ==> InUrlAlphabet(e[i])
  {
    var b := Base64Url(AsciiBytes(Hex(d)));
    NormaliseSafe(b);
    Normalise(b)
  }

  /** No character of the base64 URL alphabet is '/' or '+', so the
      replacement step changes nothing. */
  lemma ReplacementIsNoOp(d: Digest)
    ensures Encoded(d) == Base64Url(AsciiBytes(Hex(d)))
  {
    NormaliseSafe(Base64Url(AsciiBytes(Hex(d))));
  }

  /** Decoding the encoded string gives the hex digits back. */
  lemma DecodeEncoded(d: Digest)
    ensures WellPadded(Encoded(d))
    ensures AsciiString(Base64UrlDecode(Encoded(d))) == Hex(d)
  {
    var hex := Hex(d);
    ReplacementIsNoOp(d);
    Base64UrlWellPadded(AsciiBytes(hex));
    Base64UrlRoundTrip(AsciiBytes(hex));
    AsciiStringBytes(hex);
  }

  /** Two digests never share an encoded string. */
  lemma EncodedInjective(d1: Digest, d2: Digest)
    requires Encoded(d1) == Encoded(d2)
    ensures d1 == d2
  {
    DecodeEncoded(d1);
    DecodeEncoded(d2);
    UnhexHex(d1);
    UnhexHex(d2);
  }

  /** The window of `AliasWidth` characters at `start`, or None when it
      runs past the end of `e`. */
  function Slice(e: string, start: nat): Option<string> {
    if |e| < start + AliasWidth then None else Some(e[start..start + AliasWidth])
  }

  /** A well-formed tiny URL: 6 characters, none of them '/' or '+'. */
  predicate IsAlias(a: string) {
    |a| == AliasWidth && forall i :: 0 <= i < |a| ==> !IsUnsafe(a[i])
  }

  /** Exactly the offsets up to 38 give a candidate; it is the 6 characters
      at the offset, a well-formed alias, drawn from the URL-safe alphabet
      except for the padding '=' that ends the candidate at the last offset. */
  lemma CandidateShape(d: Digest, start: nat)
    ensures Slice(Encoded(d), start).Some? <==> start + AliasWidth <= EncodedLength
    ensures Slice(Encoded(d), start).Some? ==>
      var a := Slice(Encoded(d), start).value;
      && a == Encoded(d)[start..start + AliasWidth]
      && IsAlias(a)
      && (forall i :: 0 <= i < AliasWidth - 1 ==> InUrlAlphabet(a[i]))
      && (InUrlAlphabet(a[AliasWidth - 1]) <==> start + AliasWidth < EncodedLength)
      && (a[AliasWidth - 1] == Pad <==> start + AliasWidth == EncodedLength)
  {
  }

  // ---------------------------------------------------------------------
  // The collision resolver, as a function of the store
  // ---------------------------------------------------------------------

  /** Where a probe of the store stops: a free candidate (to be inserted),
      a candidate already bound to the same long URL, or no candidate left. */
  datatype Probe = Free(offset: nat, alias: string) | Taken(offset: nat, alias: string) | Exhausted

  /** The decisions GenerateHashAndInsert takes from offset `start` on,
      against the store `db`, for the long URL `u` whose encoded digest is
      `e`. */
  function ProbeFrom(db: map<string, string>, u: string, e: string, start: nat): Probe
    decreases |e| - start
  {
    match Slice(e, start)
    case None => Exhausted
    case Some(tiny) =>
      if tiny !in db then Free(start, tiny)
      else if db[tiny] == u then Taken(start, tiny)
      else ProbeFrom(db, u, e, start + 1)
  }

  /** The string GenerateHashAndInsert returns for a probe. */
  function Reply(p: Probe): string {
    if p.Exhausted? then UnableMessage else p.alias
  }

  /** The map after a probe: the free alias bound to `u`, nothing else. */
  function Inserted(m: map<string, string>, u: string, p: Probe): map<string, string> {
    if p.Free? then m[p.alias := u] else m
  }

  /** Offset k gives a candidate that the store binds to a different URL. */
  predicate Collides(db: map<string, string>, u: string, e: string, k: nat) {
    && k + AliasWidth <= |e|
    && e[k..k + AliasWidth] in db
    && db[e[k..k + AliasWidth]] != u
  }

  predicate AllCollide(db: map<string, string>, u: string, e: string, lo: nat, hi: int) {
    forall k: nat :: lo <= k < hi ==> Collides(db, u, e, k)
  }

  /** The declarative description of a probe's outcome: the first offset
      from `start` on whose candidate is absent from the store or bound to
      `u`; Exhausted when every offset that fits collides. */
  predicate FirstFit(db: map<string, string>, u: string, e: string, start: nat, p: Probe) {
    match p
    case Free(k, a) =>
      start <= k && k + AliasWidth <= |e| && a == e[k..k + AliasWidth]
      && a !in db && AllCollide(db, u, e, start, k)
    case Taken(k, a) =>
      start <= k && k + AliasWidth <= |e| && a == e[k..k + AliasWidth]
      && a in db && db[a] == u && AllCollide(db, u, e, start, k)
    case Exhausted =>
      AllCollide(db, u, e, start, |e| - AliasWidth + 1)
  }

  /** At most one outcome fits that description. */
  lemma FirstFitUnique(db: map<string, string>, u: string, e: string, start: nat, p: Probe, q: Probe)
    requires FirstFit(db, u, e, start, p) && FirstFit(db, u, e, start, q)
    ensures p == q
  {
    if !p.Exhausted? {
      assert !Collides(db, u, e, p.offset);
    }
    if !q.Exhausted? {
      assert !Collides(db, u, e, q.offset);
    }
  }

  /** ProbeFrom stops exactly at the first fit. */
  lemma {:induction false} ProbeIsFirstFit(db: map<string, string>, u: string, e: string, start: nat)
    ensures FirstFit(db, u, e, start, ProbeFrom(db, u, e, start))
    decreases |e| - start
  {
    if start + AliasWidth <= |e| {
      var tiny := e[start..start + AliasWidth];
      if tiny in db && db[tiny] != u {
        ProbeIsFirstFit(db, u, e, start + 1);
        assert Collides(db, u, e, start);
      }
    }
  }

  /** Generation fails exactly when every candidate from `start` on is
      bound to a different long URL. */
  lemma ProbeExhaustedIff(db: map<string, string>, u: string, e: string, start: nat)
    ensures ProbeFrom(db, u, e, start) == Exhausted
            <==> AllCollide(db, u, e, start, |e| - AliasWidth + 1)
  {
    ProbeIsFirstFit(db, u, e, start);
    var p := ProbeFrom(db, u, e, start);
    if !p.Exhausted? {
      assert !Collides(db, u, e, p.offset);
    }
  }

  /** A successful reply is never an alias the store binds to another URL,
      and a collision at `start` pushes the reply past `start`. */
  lemma ReplyNeverRebinds(db: map<string, string>, u: string, e: string, start: nat)
    ensures var p := ProbeFrom(db, u, e, start);
      && (!p.Exhausted? ==> p.alias !in db || db[p.alias] == u)
      && (Collides(db, u, e, start) && !p.Exhausted? ==> start < p.offset)
  {
    ProbeIsFirstFit(db, u, e, start);
  }

  /** Asking again after a successful generation finds the same alias,
      now bound to `u`, and so changes nothing the second time. */
  lemma ProbeAgain(db: map<string, string>, u: string, e: string, start: nat)
    ensures var p := ProbeFrom(db, u, e, start);
      ProbeFrom(Inserted(db, u, p), u, e, start)
      == if p.Exhausted? then Exhausted else Taken(p.offset, p.alias)
  {
    var p := ProbeFrom(db, u, e, start);
    var db' := Inserted(db, u, p);
    ProbeIsFirstFit(db, u, e, start);
    ProbeIsFirstFit(db', u, e, start);
    var expected := if p.Exhausted? then Exhausted else Taken(p.offset, p.alias);
    assert FirstFit(db', u, e, start, expected) by {
      if !p.Exhausted? {
        forall k: nat | start <= k < p.offset ensures Collides(db', u, e, k) {
          assert Collides(db, u, e, k);
        }
      }
    }
    FirstFitUnique(db', u, e, start, ProbeFrom(db', u, e, start), expected);
  }

  /** A successful reply is a well-formed alias: the 6 characters of the
      encoded digest at the offset the probe stopped at, none '/' or '+'. */
  lemma ReplyIsAlias(db: map<string, string>, u: string, d: Digest, start: nat)
    ensures var p := ProbeFrom(db, u, Encoded(d), start);
      !p.Exhausted? ==>
        && p.offset + AliasWidth <= EncodedLength
        && p.alias == Encoded(d)[p.offset..p.offset + AliasWidth]
        && IsAlias(p.alias)
        && Reply(p) == p.alias
  {
    var p := ProbeFrom(db, u, Encoded(d), start);
    ProbeIsFirstFit(db, u, Encoded(d), start);
    if !p.Exhausted? {
      CandidateShape(d, p.offset);
    }
  }

  /** With an empty store the first candidate is taken. */
  lemma FreshStoreTakesFirstCandidate(u: string, d: Digest)
    ensures ProbeFrom(map[], u, Encoded(d), 0) == Free(0, Encoded(d)[..AliasWidth])
  {
  }

  // ---------------------------------------------------------------------
  // Store and cache invariants
  // ---------------------------------------------------------------------

  /** Every cache entry holds the value the store has for that alias. */
  predicate CacheAgrees(db: map<string, string>, cache: map<string, string>) {
    forall t :: t in cache ==> t in db && cache[t] == db[t]
  }

  /** gorm's Create on the `urls` table: the unique constraint on Tinyurl
      rejects a second row for an alias, so an existing binding stays. */
  function Created(db: map<string, string>, tiny: string, long: string): (db': map<string, string>)
    ensures db'.Keys == db.Keys + {tiny}
    ensures forall t :: t in db ==> db'[t] == db[t]
    ensures tiny !in db ==> db'[tiny] == long
  {
    if tiny in db then db else db[tiny := long]
  }

  /** Generation only ever adds the one alias it returns, never rebinds a
      stored alias, and keeps the cache in agreement with the store. */
  lemma GenerationExtends(db: map<string, string>, cache: map<string, string>, u: string, e: string, start: nat)
    ensures var p := ProbeFrom(db, u, e, start);
      && Inserted(db, u, p) == (if p.Free? then Created(db, p.alias, u) else db)
      && (forall t :: t in db ==> t in Inserted(db, u, p) && Inserted(db, u, p)[t] == db[t])
      && (CacheAgrees(db, cache) ==> CacheAgrees(Inserted(db, u, p), Inserted(cache, u, p)))
  {
    ProbeIsFirstFit(db, u, e, start);
  }

  // ---------------------------------------------------------------------
  // The lookup of GetLongHandler
  // ---------------------------------------------------------------------

  /** What GetLongHandler answers: the HTTP status, and the Code and Msg of
      the JSON body. */
  datatype Response = Response(status: int, code: int, msg: string)

  /** The answer for `tiny`: a non-empty cache value (status 200), else a
      non-empty store value (status 201), else 404 with body code 400. */
  function LongResponse(db: map<string, string>, cache: map<string, string>, tiny: string): Response {
    if Get(cache, tiny) != "" then Response(200, 200, Get(cache, tiny))
    else if Get(db, tiny) != "" then Response(201, 201, Get(db, tiny))
    else Response(404, 400, InvalidParameter)
  }

  /** The cache after the lookup: the store value copied in on a cache miss
      that the store answers (read repair). */
  function RepairedCache(db: map<string, string>, cache: map<string, string>, tiny: string): map<string, string> {
    if Get(cache, tiny) == "" && Get(db, tiny) != "" then cache[tiny := db[tiny]] else cache
  }

  /** A cache that agrees with the store is invisible apart from the
      status: the message is the stored long URL, or "invalid parameter"
      when the store has none; repair keeps the agreement. */
  lemma LookupMatchesStore(db: map<string, string>, cache: map<string, string>, tiny: string)
    requires CacheAgrees(db, cache)
    ensures var r := LongResponse(db, cache, tiny);
      && (Get(db, tiny) != "" ==> r.msg == db[tiny] && r.code == r.status && r.status in {200, 201})
      && (Get(db, tiny) == "" ==> r == Response(404, 400, InvalidParameter))
      && CacheAgrees(db, RepairedCache(db, cache, tiny))
  {
  }

  /** After a lookup answered by the store, the next one is a cache hit
      with the same long URL. */
  lemma ReadRepairMakesCacheHit(db: map<string, string>, cache: map<string, string>, tiny: string)
    requires LongResponse(db, cache, tiny).status == 201
    ensures LongResponse(db, RepairedCache(db, cache, tiny), tiny)
            == Response(200, 200, LongResponse(db, cache, tiny).msg)
  {
  }

  /** A non-empty long URL that generation gave an alias to is what the
      lookup of that alias answers. */
  lemma GenerateThenLookup(db: map<string, string>, cache: map<string, string>, u: string, e: string, start: nat)
    requires CacheAgrees(db, cache)
    requires u != ""  // GetTinyHandler refuses an empty longUrl (server.go:96)
    ensures var p := ProbeFrom(db, u, e, start);
      !p.Exhausted? ==>
        var r := LongResponse(Inserted(db, u, p), Inserted(cache, u, p), p.alias);
        r.msg == u && r.status in {200, 201}
  {
    var p := ProbeFrom(db, u, e, start);
    GenerationExtends(db, cache, u, e, start);
    ProbeIsFirstFit(db, u, e, start);
    if !p.Exhausted? {
      LookupMatchesStore(Inserted(db, u, p), Inserted(cache, u, p), p.alias);
    }
  }

  // ---------------------------------------------------------------------
  // The service state
  // ---------------------------------------------------------------------

  /** Every stored key is a well-formed alias. */
  predicate KeysAreAliases(db: map<string, string>) {
    forall t :: t in db ==> IsAlias(t)
  }

  /** The process-wide Postgres and Redis handles of server.go. */
  class TinyUrlService {
    /** The `urls` table, Tinyurl -> Longurl (Tinyurl is unique). */
    var db: map<string, string>
    /** The Redis hash "urls", tiny URL -> long URL. */
    var cache: map<string, string>
    /** `md5.Sum([]byte(longURL))`, left uninterpreted. */
    const md5: string -> Digest

    ghost predicate Valid()
      reads this
    {
      CacheAgrees(db, cache) && KeysAreAliases(db)
    }

    constructor (md5: string -> Digest)
      ensures this.md5 == md5 && db == map[] && cache == map[] && Valid()
    {
      this.md5 := md5;
      db, cache := map[], map[];
    }

    /** StoreTinyURL: create the row, then set the cache field. */
    method StoreTinyURL(longUrl: string, tinyUrl: string)
      modifies this
      ensures db == Created(old(db), tinyUrl, longUrl)
      ensures cache == old(cache)[tinyUrl := longUrl]
      ensures old(CacheAgrees(db, cache)) && (tinyUrl !in old(db) || old(db)[tinyUrl] == longUrl)
              ==> CacheAgrees(db, cache)
      ensures old(Valid()) && IsAlias(tinyUrl) && (tinyUrl !in old(db) || old(db)[tinyUrl] == longUrl)
              ==> Valid()
    {
      db := Created(db, tinyUrl, longUrl);
      cache := cache[tinyUrl := longUrl];
    }

    /** GenerateHashAndInsert: the candidate at `startIndex`; stored and
        returned if free, returned if already bound to `longUrl`, otherwise
        the next offset is tried. */
    method GenerateHashAndInsert(longUrl: string, startIndex: nat) returns (r: string)
      modifies this
      decreases EncodedLength - startIndex
      ensures var p := ProbeFrom(old(db), longUrl, Encoded(md5(longUrl)), startIndex);
        && r == Reply(p)
        && db == Inserted(old(db), longUrl, p)
        && cache == Inserted(old(cache), longUrl, p)
      ensures old(Valid()) ==> Valid()
    {
      var e := Encoded(md5(longUrl));
      if |e| < startIndex + AliasWidth {
        return UnableMessage;
      }
      var tinyUrl := e[startIndex..startIndex + AliasWidth];
      if tinyUrl !in db {
        CandidateShape(md5(longUrl), startIndex);
        StoreTinyURL(longUrl, tinyUrl);
        return tinyUrl;
      } else if db[tinyUrl] == longUrl {
        return tinyUrl;
      } else {
        r := GenerateHashAndInsert(longUrl, startIndex + 1);
      }
    }

    /** The lookup branch of GetLongHandler. An empty tinyUrl parameter
        gets the handler's 400 answer instead, which is not modelled. */
    method GetLongUrl(tinyUrl: string) returns (resp: Response)
      modifies this`cache
      ensures resp == LongResponse(db, old(cache), tinyUrl)
      ensures cache == RepairedCache(db, old(cache), tinyUrl)
      ensures old(Valid()) ==> Valid()
    {
      var cached := Get(cache, tinyUrl);
      if cached != "" {
        return Response(200, 200, cached);
      }
      var stored := Get(db, tinyUrl);
      if stored != "" {
        cache := cache[tinyUrl := stored];
        return Response(201, 201, stored);
      }
      return Response(404, 400, InvalidParameter);
    }
  }
}
