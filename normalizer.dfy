/** The normalizer: `%XX` decoding in the style of section 2.1 of RFC 3986,
    `+` to space as in form encoding, then ASCII lower-casing. */
module Normalizer {
  import opened Wrappers

  /** What `std::istringstream >> std::hex` makes of the two characters after
      a '%' in the cases that depend on `std::num_get` (leading whitespace, a
      sign, or one hex digit followed by a non-hex character). Supplied by the
      platform: the model does not fix these corner cases. */
  type HexScanner = (char, char) -> Option<bv8>

  predicate IsHexDigit(c: char) {
    '0' <= c <= '9' || 'a' <= c <= 'f' || 'A' <= c <= 'F'
  }

  function HexValue(c: char): (v: bv8)
    requires IsHexDigit(c)
    ensures v < 16
  {
    if '0' <= c <= '9' then (c as int - '0' as int) as bv8
    else if 'a' <= c <= 'f' then (c as int - 'a' as int + 10) as bv8
    else (c as int - 'A' as int + 10) as bv8
  }

  /** The upper-case hexadecimal digit for a value below 16. */
  function HexDigit(v: bv8): (c: char)
    requires v < 16
    ensures IsHexDigit(c) && HexValue(c) == v
  {
    if v < 10 then ('0' as int + v as int) as char else ('A' as int + v as int - 10) as char
  }

  /** Characters the stream skips before a number (`isspace` in the C locale). */
  predicate IsStreamSpace(c: char) {
    c == ' ' || '\t' <= c <= '\r'
  }

  /** The value extracted from the two characters after a '%': two hex digits
      give their value; a first character that is neither a hex digit, nor
      whitespace, nor a sign makes the extraction fail; every other pair is
      left to `scan`. */
  function ExtractHex(c1: char, c2: char, scan: HexScanner): Option<bv8> {
    if IsHexDigit(c1) && IsHexDigit(c2) then Some(HexValue(c1) * 16 + HexValue(c2))
    else if IsHexDigit(c1) || IsStreamSpace(c1) || c1 == '+' || c1 == '-' then scan(c1, c2)
    else None
  }

  /** The input has nothing for the decoder to rewrite. */
  predicate NoEscapes(s: string) {
    '%' !in s && '+' !in s
  }

  /** One step of the decoder on a non-empty input: the character it emits
      and the number of input characters it consumes. A '%' with at least two
      characters after it whose extraction succeeds consumes three, a '+'
      becomes a space, and every other character, including a '%' whose
      extraction fails, is copied. */
  function DecodeStep(t: string, scan: HexScanner): (step: (char, nat))
    requires |t| > 0
    ensures 1 <= step.1 <= |t|
    ensures t[0] != '%' && t[0] != '+' ==> step == (t[0], 1)
  {
    if t[0] == '%' && 2 < |t| then
      match ExtractHex(t[1], t[2], scan)
      case Some(v) => (v as char, 3)
      case None => (t[0], 1)
    else if t[0] == '+' then (' ', 1)
    else (t[0], 1)
  }

  /** The decoded string: one character per decoder step. */
  function Decoded(s: string, scan: HexScanner): (r: string)
    ensures |r| <= |s|
    ensures NoEscapes(s) ==> r == s
    decreases |s|
  {
    if s == [] then []
    else
      var step := DecodeStep(s, scan);
      [step.0] + Decoded(s[step.1..], scan)
  }

  /** Decoding from index `i` is the step at `i` followed by decoding from
      where that step stops. */
  lemma DecodedFrom(s: string, i: nat, scan: HexScanner)
    requires i < |s|
    ensures var step := DecodeStep(s[i..], scan);
      i + step.1 <= |s| && Decoded(s[i..], scan) == [step.0] + Decoded(s[i + step.1..], scan)
  {
    var t := s[i..];
    var step := DecodeStep(t, scan);
    assert t[step.1..] == s[i + step.1..];
  }

  /** One more decoder step at index `i` extends a decoded prefix. */
  lemma DecodedAdvance(s: string, i: nat, r: string, whole: string, scan: HexScanner)
    requires i < |s| && r + Decoded(s[i..], scan) == whole
    ensures var step := DecodeStep(s[i..], scan);
      i + step.1 <= |s| && (r + [step.0]) + Decoded(s[i + step.1..], scan) == whole
  {
    var step := DecodeStep(s[i..], scan);
    var tail := Decoded(s[i + step.1..], scan);
    DecodedFrom(s, i, scan);
    assert (r + [step.0]) + tail == r + ([step.0] + tail);
  }

  /** The decoder step at index `i`, read off the characters of `s`. */
  lemma DecodeStepAt(s: string, i: nat, scan: HexScanner)
    requires i < |s|
    ensures var step := DecodeStep(s[i..], scan);
      if s[i] == '%' && i + 2 < |s| && ExtractHex(s[i + 1], s[i + 2], scan).Some? then
        step == (ExtractHex(s[i + 1], s[i + 2], scan).value as char, 3)
      else if s[i] == '+' then step == (' ', 1)
      else step == (s[i], 1)
  {
    assert s[i..][0] == s[i];
    if i + 2 < |s| {
      assert s[i..][1] == s[i + 1] && s[i..][2] == s[i + 2];
    }
  }

  /** `percentDecode`: builds the result one character per loop iteration,
      skipping the two hex digits of an escape that was decoded. */
  method PercentDecode(s: string, scan: HexScanner) returns (r: string)
    ensures r == Decoded(s, scan)
  {
    r := [];
    var i := 0;
    while i < |s|
      invariant 0 <= i <= |s|
      invariant r + Decoded(s[i..], scan) == Decoded(s, scan)
    {
      DecodedAdvance(s, i, r, Decoded(s, scan), scan);
      DecodeStepAt(s, i, scan);
      if s[i] == '%' && i + 2 < |s| {
        var v := ExtractHex(s[i + 1], s[i + 2], scan);
        if v.Some? {
          r := r + [v.value as char];
          i := i + 2;
        } else {
          r := r + [s[i]];
        }
      } else if s[i] == '+' {
        r := r + [' '];
      } else {
        r := r + [s[i]];
      }
      i := i + 1;
    }
  }

  /** A byte's two hexadecimal digits recombine to the byte. */
  lemma HexDigitsRecombine(b: bv8)
    ensures (b / 16) * 16 + b % 16 == b
  {
  }

  /** An escape of two hexadecimal digits, in either case, is decoded in a
      single step, and decoding goes on after it. */
  lemma EscapeDecodes(c1: char, c2: char, t: string, scan: HexScanner)
    requires IsHexDigit(c1) && IsHexDigit(c2)
    ensures Decoded(['%', c1, c2] + t, scan) ==
      [(HexValue(c1) * 16 + HexValue(c2)) as char] + Decoded(t, scan)
  {
    var e := ['%', c1, c2] + t;
    assert DecodeStep(e, scan) == ((HexValue(c1) * 16 + HexValue(c2)) as char, 3);
    assert e[3..] == t;
  }

  /** Text with nothing to rewrite is copied and decoding goes on after it. */
  lemma {:induction false} DecodedPlainPrefix(a: string, t: string, scan: HexScanner)
    requires NoEscapes(a)
    ensures Decoded(a + t, scan) == a + Decoded(t, scan)
    decreases |a|
  {
    if a != [] {
      var s := a + t;
      assert DecodeStep(s, scan) == (a[0], 1);
      assert s[1..] == a[1..] + t;
      DecodedPlainPrefix(a[1..], t, scan);
      assert a == [a[0]] + a[1..];
    } else {
      assert a + t == t;
    }
  }

  /** An escape between two stretches of plain text is the only thing the
      decoder rewrites. */
  lemma EscapeBetweenPlain(pre: string, c1: char, c2: char, post: string, scan: HexScanner)
    requires NoEscapes(pre) && NoEscapes(post) && IsHexDigit(c1) && IsHexDigit(c2)
    ensures Decoded(pre + ['%', c1, c2] + post, scan) ==
      pre + [(HexValue(c1) * 16 + HexValue(c2)) as char] + post
  {
    assert pre + ['%', c1, c2] + post == pre + (['%', c1, c2] + post);
    DecodedPlainPrefix(pre, ['%', c1, c2] + post, scan);
    EscapeDecodes(c1, c2, post, scan);
  }

  /** The lower-case form of a hexadecimal digit reads as the same value. */
  lemma LowerHexDigit(v: bv8)
    requires v < 16
    ensures IsHexDigit(LowerChar(HexDigit(v))) && HexValue(LowerChar(HexDigit(v))) == v
  {
  }

  /** A lone escape whose digits read as `hi` and `lo` decodes to the
      character `hi * 16 + lo`. */
  lemma EscapeValueDecodes(c1: char, c2: char, hi: bv8, lo: bv8, scan: HexScanner)
    requires IsHexDigit(c1) && IsHexDigit(c2) && HexValue(c1) == hi && HexValue(c2) == lo
    ensures Decoded(['%', c1, c2], scan) == [(hi * 16 + lo) as char]
  {
    EscapeDecodes(c1, c2, [], scan);
    assert ['%', c1, c2] + [] == ['%', c1, c2];
  }

  /** A byte written as a `%XX` escape, with upper- or lower-case digits,
      decodes back to that byte. */
  lemma EscapeRoundTrip(b: bv8, scan: HexScanner)
    ensures Decoded(['%', HexDigit(b / 16), HexDigit(b % 16)], scan) == [b as char]
    ensures Decoded(['%', LowerChar(HexDigit(b / 16)), LowerChar(HexDigit(b % 16))], scan) == [b as char]
  {
    var hi, lo := b / 16, b % 16;
    HexDigitsRecombine(b);
    EscapeValueDecodes(HexDigit(hi), HexDigit(lo), hi, lo, scan);
    LowerHexDigit(hi);
    LowerHexDigit(lo);
    EscapeValueDecodes(LowerChar(HexDigit(hi)), LowerChar(HexDigit(lo)), hi, lo, scan);
  }

  predicate IsUpper(c: char) {
    'A' <= c <= 'Z'
  }

  /** `::tolower` restricted to ASCII. */
  function LowerChar(c: char): (d: char)
    ensures !IsUpper(d)
    ensures IsUpper(c) ==> d as int == c as int + 32
    ensures !IsUpper(c) ==> d == c
  {
    if IsUpper(c) then (c as int + 32) as char else c
  }

  predicate NoUpper(s: string) {
    forall i :: 0 <= i < |s| ==> !IsUpper(s[i])
  }

  /** The ASCII lower-case form of `s`. */
  function Lowered(s: string): (r: string)
    ensures |r| == |s| && NoUpper(r)
    ensures forall i :: 0 <= i < |s| && !IsUpper(s[i]) ==> r[i] == s[i]
  {
    seq(|s|, i requires 0 <= i < |s| => LowerChar(s[i]))
  }

  /** Lower-casing a string that has no upper-case letter changes nothing;
      in particular lower-casing twice is lower-casing once. */
  lemma LoweredIdentity(s: string)
    requires NoUpper(s)
    ensures Lowered(s) == s
  {
  }

  /** `std::transform(..., ::tolower)` over the characters of a buffer. */
  method LowerInPlace(a: array<char>)
    modifies a
    ensures a[..] == Lowered(old(a[..]))
  {
    for i := 0 to a.Length
      invariant forall k :: 0 <= k < i ==> a[k] == LowerChar(old(a[k]))
      invariant forall k :: i <= k < a.Length ==> a[k] == old(a[k])
    {
      a[i] := LowerChar(a[i]);
    }
  }

  /** The normalized URL: decoded, then lower-cased. */
  function Normalized(url: string, scan: HexScanner): (r: string)
    ensures |r| <= |url| && NoUpper(r)
    ensures NoEscapes(url) ==> r == Lowered(url)
  {
    Lowered(Decoded(url, scan))
  }

  /** `normalizeUrl`: decodes into a fresh buffer and lower-cases it in place. */
  method NormalizeUrl(url: string, scan: HexScanner) returns (r: string)
    ensures r == Normalized(url, scan)
  {
    var decoded := PercentDecode(url, scan);
    var buffer := new char[|decoded|](i requires 0 <= i < |decoded| => decoded[i]);
    LowerInPlace(buffer);
    r := buffer[..];
  }

  /** One pass over a doubly escaped byte removes one level of escaping. */
  lemma DoubleEscapeDecodedOnce(scan: HexScanner)
    ensures Normalized("%2541", scan) == "%41"
  {
    assert ExtractHex('2', '5', scan) == Some(0x25);
    assert "%2541"[3..] == "41";
    assert Decoded("41", scan) == "41";
    assert Decoded("%2541", scan) == "%41";
  }

  /** `%41` decodes to 'A', which lower-cases to 'a'. */
  lemma SingleEscapeDecoded(scan: HexScanner)
    ensures Normalized("%41", scan) == "a"
  {
    assert ExtractHex('4', '1', scan) == Some(0x41);
    assert "%41"[3..] == "";
    assert Decoded("%41", scan) == "A";
  }

  /** Normalization is not idempotent: a doubly escaped byte is decoded once
      per pass, so "%2541" normalizes to "%41", which normalizes to "a". */
  lemma NormalizationNotIdempotent(scan: HexScanner)
    ensures Normalized(Normalized("%2541", scan), scan) != Normalized("%2541", scan)
  {
    DoubleEscapeDecodedOnce(scan);
    SingleEscapeDecoded(scan);
  }
}
