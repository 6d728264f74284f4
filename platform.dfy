/** What the guard obtains from the C library: address parsing
    (`inet_pton`), name resolution (`getaddrinfo`) and the corner cases of
    hexadecimal stream extraction. The model fixes none of them; every
    operation that depends on them takes a `Platform` value. */
module Environment {
  import opened Wrappers
  import opened Normalizer
  import opened Ipv6Ranges

  /** One `addrinfo` entry: an IPv4 address in host byte order (after
      `ntohl`), an IPv6 address, or an entry of another family. */
  datatype Addr = Inet(ip: bv32) | Inet6(addr: Ip6Addr) | OtherFamily

  /** `parseV4` and `parseV6` answer `inet_pton` for `AF_INET` and
      `AF_INET6` (`None` when it does not return 1); `resolve` answers
      `getaddrinfo` (`None` when the status is not 0, otherwise the entries
      of the result list in order); `scanHex` is the hexadecimal scanner of
      the decoder. The first three receive C strings (see `CStr`). */
  datatype Platform = Platform(
    parseV4: string -> Option<bv32>,
    parseV6: string -> Option<Ip6Addr>,
    resolve: string -> Option<seq<Addr>>,
    scanHex: HexScanner)

  /** The index of the first NUL at or after `i`, or `|s|` when there is none. */
  function NulIndex(s: string, i: nat): (r: nat)
    requires i <= |s|
    ensures i <= r <= |s| && (r < |s| ==> s[r] == '\0')
    ensures forall k :: i <= k < r ==> s[k] != '\0'
    decreases |s| - i
  {
    if i == |s| || s[i] == '\0' then i else NulIndex(s, i + 1)
  }

  /** The text a C function reads from `s.c_str()`: everything before the
      first NUL character. Each call into the platform receives this view of
      the host, while the guard's own checks see the whole `std::string`. */
  function CStr(s: string): (r: string)
    ensures |r| <= |s| && r == s[..|r|] && '\0' !in r
    ensures |r| < |s| ==> s[|r|] == '\0'
    ensures '\0' !in s ==> r == s
  {
    s[..NulIndex(s, 0)]
  }

  /** Whatever follows the first NUL is invisible to the C library. */
  lemma CStrStopsAtNul(a: string, b: string)
    requires '\0' !in a
    ensures CStr(a + ['\0'] + b) == a
  {
    var s := a + ['\0'] + b;
    var r := CStr(s);
    assert s[|a|] == '\0' && s[..|a|] == a;
  }

  const V4Chars := "0123456789."
  const V6Chars := "0123456789abcdefABCDEF:."

  /** A platform whose parsers, given a C string, accept only text made of
      address characters, as every `inet_pton` does. The text after a NUL
      is never given to them and so is not constrained. */
  ghost predicate ParsersRejectNames(p: Platform) {
    && (forall s {:trigger p.parseV4(s)} :: '\0' !in s && p.parseV4(s).Some? ==> forall i :: 0 <= i < |s| ==> s[i] in V4Chars)
    && (forall s {:trigger p.parseV6(s)} :: '\0' !in s && p.parseV6(s).Some? ==> forall i :: 0 <= i < |s| ==> s[i] in V6Chars)
  }
}
