# Tiny URL service: alias generation and two-tier lookup

This project models the core of a Go URL shortener (`server.go`) in Dafny and
proves properties of the model.

- **Alias derivation.** The long URL's MD5 digest is printed as 32 lowercase
  hex digits (`%x`). Those 32 ASCII bytes are base64 URL encoded with padding
  (the "URL and Filename Safe" alphabet of section 5 of RFC 4648). `/` and `+`
  are replaced by `_`. A 6-character window is cut at an offset.
- **Collision resolver** (`GenerateHashAndInsert`). The window is looked up in
  the Postgres table `urls`:
  - free: it is stored and returned;
  - already bound to the same long URL: it is returned;
  - bound to another URL: the next offset is tried.
  Once the window runs past the 44-character string, the reply is
  "Unable to generate tiny URL".
- **Writer** (`StoreTinyURL`). It creates the row, then sets the field in the
  Redis hash `urls`.
- **Reader** (the lookup branch of `GetLongHandler`):
  - a non-empty cache value answers with status 200;
  - otherwise a non-empty store value is copied into the cache and answers 201;
  - otherwise the answer is status 404 with body `{400, "invalid parameter"}`.

Files:
- `encoding.dfy` (module `Encoding`) holds hex, ASCII bytes, base64 URL and
  the `[/+]` replacement. The first three each come with a decoder and a
  round-trip lemma. The replacement cannot be inverted. It comes with a
  position-by-position description (`NormaliseAt`) and the fact that it
  leaves a string without `/` or `+` unchanged (`NormaliseSafe`).
- `shortener.dfy` (module `Shortener`) holds the following:
  - the candidate aliases;
  - `ProbeFrom`, which gives the resolver's decisions as a function of the
    store, with `FirstFit`, its declarative description;
  - the lookup functions `LongResponse` and `RepairedCache`;
  - the class `TinyUrlService`. Its fields `db` and `cache` are the table and
    the Redis hash, and its methods are `StoreTinyURL`,
    `GenerateHashAndInsert` and `GetLongUrl`.

MD5 is the constant `md5: string -> Digest` of the class, left uninterpreted.
It stands for `md5.Sum([]byte(longURL))`, UTF-8 conversion included. The
Postgres table and the Redis hash become the two map fields. `Get` models the
empty string that Go reads for a missing Redis field or an unmatched row.

Facts about the code that the proofs bring out:
- **Aliases may contain `=`.** The encoded string ends in one `=`, because 32
  bytes leave a 2-byte final group. So the candidate at offset 38, the last
  one, ends in `=` (`CandidateShape`).
- **The replacement does nothing.** The URL-safe alphabet has no `/` or `+`,
  so the `[/+]` replacement never changes anything (`ReplacementIsNoOp`).
- **There are 39 offsets, 0 to 38.** So at most 38 retries follow the first
  candidate.
- **One goroutine writes both stores.** The row and the cache field are
  written in the same goroutine, `StoreTinyURL`.
- **Duplicate aliases.** Two concurrent requests can both find an alias free.
  The second `Create` then fails on the unique constraint, and `StoreTinyURL`
  drops the error. The
  model keeps the first row (`Created`), while the cache field is still
  overwritten.

## Model

| member | source | states |
|---|---|---|
| `Encoding.Hex` | server.go:64 | `%x` gives two lowercase hex digits per byte (32 for a digest) |
| `Encoding.UnhexHex` | server.go:64 | reading the hex digits back gives the bytes: the hex text loses nothing |
| `Encoding.AsciiStringBytes` | server.go:69 | `[]byte` of an ASCII string, read back as characters, is the string |
| `Encoding.Base64Url` | server.go:69 | the base64 URL encoding of n bytes has 4·⌈n/3⌉ characters; exactly the last (3 − n mod 3) mod 3 are `=`, the rest are from the URL-safe alphabet |
| `Encoding.Base64UrlRoundTrip` | server.go:69 | decoding the base64 URL encoding gives the bytes back |
| `Encoding.Normalise` | server.go:65-69 | the replacement keeps the length and leaves no `/` or `+` |
| `Encoding.NormaliseAt` | server.go:65-69 | the replacement turns exactly the `/` and `+` characters into `_` and keeps every other character |
| `Encoding.NormaliseSafe` | server.go:69 | a string without `/` or `+` is left unchanged |
| `Shortener.Encoded` | server.go:63-69 | the string aliases are cut from is 44 characters; only its last one is `=`, the others are from the URL-safe alphabet |
| `Shortener.ReplacementIsNoOp` | server.go:65-69 | the `[/+]` replacement leaves the base64 URL encoding unchanged |
| `Shortener.DecodeEncoded` | server.go:63-69 | the encoded string is well padded and decodes back to the hex digits of the digest |
| `Shortener.EncodedInjective` | server.go:63-69 | different digests give different encoded strings |
| `Shortener.CandidateShape` | server.go:69-73 | there is a candidate exactly when start + 6 is at most 44, i.e. for offsets 0 to 38; it is the 6 encoded characters at start, with no `/` or `+`; its last character is `=` exactly at offset 38 |
| `Shortener.ReplyIsAlias` | server.go:69-85 | a successful reply is the 6 encoded characters at the offset the resolver stopped at, a well-formed alias with no `/` or `+` |
| `Shortener.ProbeIsFirstFit` | server.go:70-85 | the resolver stops at the first offset whose candidate is absent or bound to the same URL; every earlier offset collides; it fails only when every fitting offset collides |
| `Shortener.FirstFitUnique` | server.go:75-85 | that description picks out a single outcome |
| `Shortener.ProbeExhaustedIff` | server.go:70-85 | "Unable to generate tiny URL" comes back exactly when every candidate from the start offset on is bound to another long URL |
| `Shortener.ReplyNeverRebinds` | server.go:80-85 | a returned alias is absent from the store or already bound to the same URL; a collision at the start offset moves the result past it |
| `Shortener.ProbeAgain` | server.go:76-82 | after a successful generation, generating again for the same URL finds the same alias bound to it and changes nothing |
| `Shortener.FreshStoreTakesFirstCandidate` | server.go:73-79 | with an empty store the alias is the first 6 encoded characters |
| `Shortener.Created` | server.go:57 | creating the row adds the alias; a row already stored for it keeps its long URL (unique constraint) |
| `Shortener.GenerationExtends` | server.go:75-85 | generation adds at most the returned alias, never rebinds a stored one, and keeps an agreeing cache in agreement with the store |
| `Shortener.LookupMatchesStore` | server.go:116-130 | with a cache that agrees with the store, the lookup answers the stored long URL (200 or 201), or 404 with code 400 and "invalid parameter"; read repair keeps the agreement |
| `Shortener.ReadRepairMakesCacheHit` | server.go:119-126 | after a 201 answer, the next lookup is a 200 cache hit with the same long URL |
| `Shortener.GenerateThenLookup` | server.go:115-126 | the alias generated for a non-empty long URL looks up to that URL with status 200 or 201 |
| `Shortener.TinyUrlService.constructor` | server.go:137-148 | a new service has an empty table and an empty cache, which agree |
| `Shortener.TinyUrlService.StoreTinyURL` | server.go:56-59 | the table gets the row unless the alias is stored already; the cache field is set to the long URL; agreement, and the whole invariant for a well-formed alias, are kept when the alias was free or bound to the same URL |
| `Shortener.TinyUrlService.GenerateHashAndInsert` | server.go:62-86 | the reply is the probe's alias or the failure message; table and cache gain the alias bound to the long URL only when it was free; the invariant (cache agrees, keys are aliases) is kept |
| `Shortener.TinyUrlService.GetLongUrl` | server.go:115-131 | the answer is `LongResponse` of the old state; only the cache changes, by read repair; the invariant is kept |

## Left out

- HTTP routing, query-parameter extraction, the missing-parameter 400 answers,
  `WriteHeader` and JSON encoding (server.go:89-113, 151-166) are framework
  plumbing. The answer is modelled as a `Response` value.
  `GetTinyHandler` answers 201 even when the reply is "Unable to generate tiny
  URL".
- The Postgres and Redis client construction, ping, `AutoMigrate` and `main`
  (server.go:35-53, 135-167) are I/O and configuration. The model's
  constructor starts from an empty table and cache. That is a modelling
  choice: the Postgres table persists across restarts. Every lemma and
  method contract holds for any starting maps.
- The goroutine of `go StoreTinyURL(...)` (server.go:78) is run synchronously.
  So the window in which a returned alias is not yet stored, and the race
  between two requests that pick the same free alias, are not modelled.
- Store or cache errors (a failed connection) are not modelled.
- Postgres refusing a row is not modelled. A long URL with a NUL character
  (`longUrl=a%00b`) or one that is not valid UTF-8 (`%FF`) passes the guard at
  server.go:96. Postgres then refuses the row, and `StoreTinyURL` drops the
  error (server.go:57). `HSet` still sets the cache field (server.go:58), so
  in Go the cache then holds an alias the table lacks. The model's
  `StoreTinyURL` and `Created` always add a free alias to the table, so
  `Valid()` is kept for such URLs too. Dafny strings cannot hold invalid
  UTF-8 at all.
- The unique constraint on `Tinyurl` is met only in the race described
  above. Sequential code calls `StoreTinyURL` only after `Find` found no row
  (server.go:75-78). `Created` models what the constraint does if it is met:
  the first row stays.
- MD5 internals and the UTF-8 conversion of the long URL are left out. They
  are folded into the uninterpreted `md5` constant.
- The `regexp.Compile` error branch (server.go:66-68) is unreachable, because
  the pattern is constant.
- The logging calls `fmt.Println(dbURLData, "in not found")` and
  `fmt.Println(dbURLData, "in found and equal")` (server.go:77, 81) print to
  standard output only, so they are left out.
- gorm's bookkeeping fields (ID, timestamps, soft delete) are left out.
