/** The text encodings that turn a digest into the string tiny URLs are cut
    from: Go's `%x` verb on a byte array (lowercase hexadecimal), the
    conversion of an ASCII string to its bytes, Go's
    `base64.URLEncoding.EncodeToString` (the "URL and Filename Safe"
    alphabet of section 5 of RFC 4648, with `=` padding, as laid out in
    section 4 of RFC 4648), and the `[/+]` -> `_` replacement done with
    `regexp.ReplaceAllString`. Hex, ASCII bytes and base64 come with a
    decoder and a round-trip lemma; the replacement, which cannot be
    inverted, with a position-by-position description and the fact that it
    leaves strings without '/' or '+' unchanged. */
module Encoding {

  type Byte = b: int | 0 <= b < 256

  // ---------------------------------------------------------------------
  // Lowercase hexadecimal, as printed by fmt's `%x` on a byte array
  // ---------------------------------------------------------------------

  predicate IsHexDigit(c: char) {
    '0' <= c <= '9' || 'a' <= c <= 'f'
  }

  /** The lowercase hex digit of a nibble. */
  function HexDigit(n: int): (c: char)
    requires 0 <= n < 16
    ensures IsHexDigit(c)
  {
    if n < 10 then ('0' as int + n) as char else ('a' as int + (n - 10)) as char
  }

  /** The nibble a hex digit stands for; it inverts HexDigit. */
  function HexValue(c: char): (n: int)
    requires IsHexDigit(c)
    ensures 0 <= n < 16
    ensures HexDigit(n) == c
  {
    if c <= '9' then c as int - '0' as int else c as int - 'a' as int + 10
  }

  /** `fmt.Sprintf("%x", d)`: two lowercase digits per byte, high nibble first. */
  function Hex(d: seq<Byte>): (s: string)
    ensures |s| == 2 * |d|
    ensures forall i :: 0 <= i < |s| ==> IsHexDigit(s[i])
  {
    if d == [] then "" else [HexDigit(d[0] / 16), HexDigit(d[0] % 16)] + Hex(d[1..])
  }

  /** Reads an even-length string of lowercase hex digits back into bytes. */
  function Unhex(s: string): (d: seq<Byte>)
    requires |s| % 2 == 0
    requires forall i :: 0 <= i < |s| ==> IsHexDigit(s[i])
    ensures 2 * |d| == |s|
  {
    if s == [] then [] else [HexValue(s[0]) * 16 + HexValue(s[1])] + Unhex(s[2..])
  }

  lemma {:induction false} UnhexHex(d: seq<Byte>)
    ensures Unhex(Hex(d)) == d
  {
    if d != [] {
      var s := Hex(d);
      assert s[2..] == Hex(d[1..]);
      assert HexValue(s[0]) == d[0] / 16 && HexValue(s[1]) == d[0] % 16;
      UnhexHex(d[1..]);
    }
  }

  // ---------------------------------------------------------------------
  // Go's `[]byte(s)` on a string made of ASCII characters
  // ---------------------------------------------------------------------

  predicate IsAscii(s: string) {
    forall i :: 0 <= i < |s| ==> s[i] as int < 128
  }

  /** The UTF-8 bytes of an ASCII string: one byte per character, its code. */
  function AsciiBytes(s: string): (b: seq<Byte>)
    requires IsAscii(s)
    ensures |b| == |s|
  {
    if s == [] then [] else [s[0] as int] + AsciiBytes(s[1..])
  }

  /** The string whose characters have the given codes (inverse of AsciiBytes). */
  function AsciiString(b: seq<Byte>): (s: string)
    ensures |s| == |b|
  {
    if b == [] then "" else [b[0] as char] + AsciiString(b[1..])
  }

  lemma {:induction false} AsciiStringBytes(s: string)
    requires IsAscii(s)
    ensures AsciiString(AsciiBytes(s)) == s
  {
    if s != [] {
      assert IsAscii(s[1..]) by {
        forall i | 0 <= i < |s[1..]| ensures s[1..][i] as int < 128 {
          assert s[1..][i] == s[i + 1];
        }
      }
      AsciiStringBytes(s[1..]);
    }
  }

  // ---------------------------------------------------------------------
  // base64.URLEncoding: RFC 4648 section 5 alphabet, padded with '='
  // ---------------------------------------------------------------------

  const Pad: char := '='

  /** The 64 characters of the URL and Filename Safe alphabet. */
  predicate InUrlAlphabet(c: char) {
    'A' <= c <= 'Z' || 'a' <= c <= 'z' || '0' <= c <= '9' || c == '-' || c == '_'
  }

  /** The character that encodes a 6-bit value: A-Z, a-z, 0-9, '-', '_'. */
  function Sextet(n: int): (c: char)
    requires 0 <= n < 64
    ensures InUrlAlphabet(c)
  {
    if n < 26 then ('A' as int + n) as char
    else if n < 52 then ('a' as int + (n - 26)) as char
    else if n < 62 then ('0' as int + (n - 52)) as char
    else if n == 62 then '-'
    else '_'
  }

  /** The 6-bit value an alphabet character encodes; it inverts Sextet. */
  function SextetValue(c: char): (n: int)
    requires InUrlAlphabet(c)
    ensures 0 <= n < 64
    ensures Sextet(n) == c
  {
    if 'A' <= c <= 'Z' then c as int - 'A' as int
    else if 'a' <= c <= 'z' then c as int - 'a' as int + 26
    else if '0' <= c <= '9' then c as int - '0' as int + 52
    else if c == '-' then 62
    else 63
  }

  lemma SextetValueOfSextet(n: int)
    requires 0 <= n < 64
    ensures SextetValue(Sextet(n)) == n
  {
  }

  /** How many '=' close the encoding of n bytes. */
  function PadCount(n: nat): (k: nat)
    ensures k < 3 && (n + k) % 3 == 0
  {
    (3 - n % 3) % 3
  }

  /** One group of 1 to 3 bytes as 4 characters: the bytes' 24 bits (zero
      filled) cut into 6-bit values, then '=' for each missing byte. */
  function EncodeGroup(g: seq<Byte>): (s: string)
    requires 1 <= |g| <= 3
    ensures |s| == 4
    ensures forall i :: 0 <= i < 4 ==> if |g| < i then s[i] == Pad else InUrlAlphabet(s[i])
  {
    var b1 := if |g| > 1 then g[1] else 0;
    var b2 := if |g| > 2 then g[2] else 0;
    [Sextet(g[0] / 4),
     Sextet(g[0] % 4 * 16 + b1 / 16),
     if |g| > 1 then Sextet(b1 % 16 * 4 + b2 / 64) else Pad,
     if |g| > 2 then Sextet(b2 % 64) else Pad]
  }

  /** `base64.URLEncoding.EncodeToString(b)`: every 3 bytes become 4
      characters; a final group of 1 or 2 bytes becomes 2 or 3 characters
      followed by "==" or "=". */
  function Base64Url(b: seq<Byte>): (s: string)
    ensures |s| == 4 * ((|b| + 2) / 3)
    ensures forall i :: 0 <= i < |s| ==>
              if |s| - PadCount(|b|) <= i then s[i] == Pad else InUrlAlphabet(s[i])
    decreases |b|
  {
    if |b| == 0 then ""
    else if |b| <= 3 then
      assert PadCount(|b|) == 3 - |b|;
      EncodeGroup(b)
    else
      var g, t := EncodeGroup(b[..3]), Base64Url(b[3..]);
      assert (|b| + 2) / 3 == (|b| - 1) / 3 + 1;
      assert PadCount(|b|) == PadCount(|b| - 3);
      assert |t| == |g + t| - 4;
      assert forall i :: 0 <= i < 4 ==> (g + t)[i] == g[i] && InUrlAlphabet(g[i]);
      assert forall i :: 4 <= i < |g + t| ==> (g + t)[i] == t[i - 4];
      g + t
  }

  /** The shape of a padded encoding: a multiple of 4 characters from the
      alphabet, except that the last one or two may be '=' (two only if both
      are). */
  predicate WellPadded(s: string) {
    && |s| % 4 == 0
    && (forall i :: 0 <= i < |s| ==>
          InUrlAlphabet(s[i]) || (s[i] == Pad && |s| - 2 <= i))
    && (|s| >= 2 && s[|s| - 2] == Pad ==> s[|s| - 1] == Pad)
  }

  /** Reads 4 characters back into 1, 2 or 3 bytes, according to the padding. */
  function DecodeGroup(s: string): (g: seq<Byte>)
    requires |s| == 4
    requires InUrlAlphabet(s[0]) && InUrlAlphabet(s[1])
    requires InUrlAlphabet(s[2]) || (s[2] == Pad && s[3] == Pad)
    requires InUrlAlphabet(s[3]) || s[3] == Pad
    ensures 1 <= |g| <= 3
  {
    var c0, c1 := SextetValue(s[0]), SextetValue(s[1]);
    var c2 := if s[2] == Pad then 0 else SextetValue(s[2]);
    var c3 := if s[3] == Pad then 0 else SextetValue(s[3]);
    var all := [c0 * 4 + c1 / 16, c1 % 16 * 16 + c2 / 4, c2 % 4 * 64 + c3];
    if s[2] == Pad then all[..1] else if s[3] == Pad then all[..2] else all
  }

  /** Decodes a well-padded string, four characters at a time. */
  function Base64UrlDecode(s: string): (b: seq<Byte>)
    requires WellPadded(s)
    decreases |s|
  {
    if |s| == 0 then []
    else DecodeGroup(s[..4]) + Base64UrlDecode(s[4..])
  }

  /** The bit arithmetic of one group: the 6-bit values give the bytes back. */
  lemma GroupArithmetic(b0: Byte, b1: Byte, b2: Byte)
    ensures (b0 / 4) * 4 + (b0 % 4 * 16 + b1 / 16) / 16 == b0
    ensures (b0 % 4 * 16 + b1 / 16) % 16 * 16 + (b1 % 16 * 4 + b2 / 64) / 4 == b1
    ensures (b1 % 16 * 4 + b2 / 64) % 4 * 64 + b2 % 64 == b2
  {
  }

  lemma DecodeEncodeGroup(g: seq<Byte>)
    requires 1 <= |g| <= 3
    ensures DecodeGroup(EncodeGroup(g)) == g
  {
    var b1 := if |g| > 1 then g[1] else 0;
    var b2 := if |g| > 2 then g[2] else 0;
    GroupArithmetic(g[0], b1, b2);
    var s := EncodeGroup(g);
    SextetValueOfSextet(g[0] / 4);
    SextetValueOfSextet(g[0] % 4 * 16 + b1 / 16);
    if |g| > 1 { SextetValueOfSextet(b1 % 16 * 4 + b2 / 64); }
    if |g| > 2 { SextetValueOfSextet(b2 % 64); }
    assert SextetValue(s[0]) == g[0] / 4;
    assert SextetValue(s[1]) == g[0] % 4 * 16 + b1 / 16;
    assert |g| > 1 ==> SextetValue(s[2]) == b1 % 16 * 4 + b2 / 64;
    assert |g| > 2 ==> SextetValue(s[3]) == b2 % 64;
  }

  lemma Base64UrlWellPadded(b: seq<Byte>)
    ensures WellPadded(Base64Url(b))
  {
  }

  lemma {:induction false} Base64UrlRoundTrip(b: seq<Byte>)
    ensures Base64UrlDecode(Base64Url(b)) == b
    decreases |b|
  {
    var s := Base64Url(b);
    Base64UrlWellPadded(b);
    if 0 < |b| <= 3 {
      DecodeEncodeGroup(b);
      assert s[..4] == s && s[4..] == [];
    } else if |b| > 3 {
      assert s[..4] == EncodeGroup(b[..3]);
      assert s[4..] == Base64Url(b[3..]);
      DecodeEncodeGroup(b[..3]);
      Base64UrlRoundTrip(b[3..]);
      assert b == b[..3] + b[3..];
    }
  }

  // ---------------------------------------------------------------------
  // regexp "[/+]" replaced by "_"
  // ---------------------------------------------------------------------

  predicate IsUnsafe(c: char) {
    c == '/' || c == '+'
  }

  /** `regexp.MustCompile("[/+]").ReplaceAllString(s, "_")`: the pattern
      matches a single character, so the replacement is character by
      character. */
  function Normalise(s: string): (r: string)
    ensures |r| == |s|
    ensures forall i :: 0 <= i < |r| ==> !IsUnsafe(r[i])
  {
    if s == [] then "" else [if IsUnsafe(s[0]) then '_' else s[0]] + Normalise(s[1..])
  }

  /** Position by position, Normalise rewrites exactly the unsafe characters. */
  lemma {:induction false} NormaliseAt(s: string, i: int)
    requires 0 <= i < |s|
    ensures Normalise(s)[i] == if IsUnsafe(s[i]) then '_' else s[i]
  {
    if i > 0 {
      NormaliseAt(s[1..], i - 1);
    }
  }

  /** A string without '/' or '+' is left as it is. */
  lemma {:induction false} NormaliseSafe(s: string)
    requires forall i :: 0 <= i < |s| ==> !IsUnsafe(s[i])
    ensures Normalise(s) == s
  {
    forall i | 0 <= i < |s| ensures Normalise(s)[i] == s[i] {
      NormaliseAt(s, i);
    }
  }
}
