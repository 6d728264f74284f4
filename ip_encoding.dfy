/** Detection of numeric obfuscations of an IP literal: hexadecimal
    prefixes, octal segments (a leading zero followed by a digit), a bare
    decimal number, and a leftover '%'. */
module IpEncoding {
  import opened Wrappers
  import opened Strings
  import opened SsrfConstants

  /** `isdigit` in the C locale. */
  predicate IsDigit(c: char) {
    '0' <= c <= '9'
  }

  /** Index `i` begins a dot-separated segment. */
  predicate SegmentStart(h: string, i: nat)
    requires i < |h|
  {
    i == 0 || h[i - 1] == '.'
  }

  /** A '0' followed by a digit at index `i`. */
  predicate OctalLeadAt(h: string, i: nat) {
    i + 1 < |h| && h[i] == '0' && IsDigit(h[i + 1])
  }

  /** Some segment begins with a '0' followed by a digit. */
  predicate HasOctalSegment(h: string) {
    exists i: nat :: i < |h| && SegmentStart(h, i) && OctalLeadAt(h, i)
  }

  /** The host is a non-empty run of digits. */
  predicate IsDecimalNumber(h: string) {
    |h| > 0 && forall i :: 0 <= i < |h| ==> IsDigit(h[i])
  }

  /** The host looks like a numerically obfuscated address. */
  predicate SuspiciousEncoding(h: string) {
    || Contains(h, HexPrefixLower) || Contains(h, HexPrefixUpper)
    || HasOctalSegment(h)
    || IsDecimalNumber(h)
    || Contains(h, PercentChar)
  }

  /** `hasSuspiciousIPEncoding`: the hex check, then the segment scan that
      jumps from dot to dot, then the all-digits loop for a host with no '.'
      and no ':', then the '%' check. */
  method HasSuspiciousIpEncoding(host: string) returns (r: bool)
    ensures r == SuspiciousEncoding(host)
  {
    if Contains(host, HexPrefixLower) || Contains(host, HexPrefixUpper) {
      return true;
    }

    var pos: nat := 0;
    while pos < |host|
      invariant pos <= |host|
      invariant pos < |host| ==> SegmentStart(host, pos)
      invariant forall i: nat :: i < pos && SegmentStart(host, i) ==> !OctalLeadAt(host, i)
      decreases |host| - pos
    {
      if host[pos] == '0' && pos + 1 < |host| && IsDigit(host[pos + 1]) {
        return true;
      }
      var dot := FindFirstOf(host, Dot, pos);
      if dot.None? {
        // no segment begins after this one
        assert forall i: nat :: pos < i < |host| ==> !SegmentStart(host, i);
        break;
      }
      pos := dot.value + 1;
    }
    assert !HasOctalSegment(host);

    ContainsChar(host, '.');
    ContainsChar(host, ':');
    if !Contains(host, Dot) && !Contains(host, [':']) {
      var allDigits := |host| > 0;
      for i := 0 to |host|
        invariant allDigits == (|host| > 0 && forall k :: 0 <= k < i ==> IsDigit(host[k]))
      {
        if !IsDigit(host[i]) {
          allDigits := false;
          break;
        }
      }
      if allDigits {
        return true;
      }
    } else {
      assert !IsDecimalNumber(host);
    }

    r := Contains(host, PercentChar);
  }

  /** The octal spelling of 127.0.0.1 is suspicious. */
  lemma OctalLoopbackSuspicious()
    ensures SuspiciousEncoding("0177.0.0.1")
  {
    assert SegmentStart("0177.0.0.1", 0) && OctalLeadAt("0177.0.0.1", 0);
  }

  /** The decimal spelling of 127.0.0.1 is suspicious. */
  lemma DecimalLoopbackSuspicious()
    ensures SuspiciousEncoding("2130706433")
  {
  }

  /** The hexadecimal spelling of 127.0.0.1 is suspicious. */
  lemma HexLoopbackSuspicious()
    ensures SuspiciousEncoding("0x7f.0.0.1")
  {
    OccursAtIff("0x7f.0.0.1", HexPrefixLower, 0);
    ContainsAt("0x7f.0.0.1", HexPrefixLower, 0);
  }

  /** A dotted quad whose segments have no leading zero is not suspicious. */
  lemma LoopbackDottedQuadNotSuspicious()
    ensures !SuspiciousEncoding("127.0.0.1")
  {
    var h := "127.0.0.1";
    forall i: nat | i < |h| && SegmentStart(h, i) ensures !OctalLeadAt(h, i) {
      assert i == 0 || i == 4 || i == 6 || i == 8;
    }
    MissingCharNotContained(h, PercentChar, 0);
    MissingCharNotContained(h, HexPrefixLower, 1);
    MissingCharNotContained(h, HexPrefixUpper, 1);
  }

  /** Nor is a dotted quad of single digits. */
  lemma PublicDottedQuadNotSuspicious()
    ensures !SuspiciousEncoding("8.8.8.8")
  {
    var h := "8.8.8.8";
    MissingCharNotContained(h, PercentChar, 0);
    MissingCharNotContained(h, HexPrefixLower, 1);
    MissingCharNotContained(h, HexPrefixUpper, 1);
  }
}
