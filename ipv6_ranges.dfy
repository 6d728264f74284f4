/** The IPv6 range classifier over the sixteen bytes of an address in
    network byte order, with the address-class tests of RFC 4291 written out. */
module Ipv6Ranges {
  import opened SsrfConstants
  import opened Ipv4Ranges

  /** The sixteen bytes of an `in6_addr`. */
  type Ip6Addr = a: seq<bv8> | |a| == 16 witness seq(16, _ => 0)

  /** `IN6_IS_ADDR_UNSPECIFIED`: `::` (section 2.5.2 of RFC 4291). */
  predicate IsUnspecified(a: Ip6Addr) {
    forall i :: 0 <= i < 16 ==> a[i] == 0
  }

  /** `IN6_IS_ADDR_LOOPBACK`: `::1` (section 2.5.3 of RFC 4291). */
  predicate IsLoopback(a: Ip6Addr) {
    (forall i :: 0 <= i < 15 ==> a[i] == 0) && a[15] == 1
  }

  /** `IN6_IS_ADDR_LINKLOCAL`: `fe80::/10` (section 2.5.6 of RFC 4291). */
  predicate IsLinkLocal(a: Ip6Addr) {
    a[0] == 0xfe && a[1] & 0xc0 == 0x80
  }

  /** `IN6_IS_ADDR_SITELOCAL`: `fec0::/10` (section 2.5.7 of RFC 4291). */
  predicate IsSiteLocal(a: Ip6Addr) {
    a[0] == 0xfe && a[1] & 0xc0 == 0xc0
  }

  /** `IN6_IS_ADDR_MULTICAST`: `ff00::/8` (section 2.7 of RFC 4291). */
  predicate IsMulticast(a: Ip6Addr) {
    a[0] == 0xff
  }

  /** `IN6_IS_ADDR_V4MAPPED`: `::ffff:0:0/96` (section 2.5.5.2 of RFC 4291). */
  predicate IsV4Mapped(a: Ip6Addr) {
    (forall i :: 0 <= i < 10 ==> a[i] == 0) && a[10] == 0xff && a[11] == 0xff
  }

  /** The IPv4 address held in the last four bytes, read in network byte
      order as `memcpy` followed by `ntohl` reads it. */
  function EmbeddedV4(a: Ip6Addr): bv32 {
    FromOctets(a[Ipv4MappedOffset], a[Ipv4MappedOffset + 1], a[Ipv4MappedOffset + 2], a[Ipv4MappedOffset + 3])
  }

  /** `isPrivateOrReservedIPv6`, test by test in the order of the source. */
  predicate IsPrivateOrReservedIPv6(a: Ip6Addr) {
    if IsLoopback(a) then true
    else if IsLinkLocal(a) then true
    else if IsSiteLocal(a) then true
    else if IsMulticast(a) then true
    else if IsUnspecified(a) then true
    else if a[0] & Ipv6UlaMask == Ipv6UlaPrefix then true
    else if a[..4] == Ipv6DocPrefix then true
    else if a[..2] == Ipv6SixToFourPrefix then true
    else a[..4] == Ipv6TeredoPrefix
  }

  /** The mask of the first `bits` bits of a byte. */
  function ByteMaskOf(bits: nat): bv8
    requires bits <= 8
  {
    if bits == 0 then 0 else 0xff << (8 - bits)
  }

  /** The address `p` padded with zero bytes to sixteen. */
  function Padded(p: seq<bv8>): Ip6Addr
    requires |p| <= 16
  {
    p + seq(16 - |p|, _ => 0)
  }

  /** `a` lies in the block `p/bits`. */
  predicate InPrefix(a: Ip6Addr, p: Ip6Addr, bits: nat)
    requires bits <= 128
  {
    && (forall k :: 0 <= k < bits / 8 ==> a[k] == p[k])
    && (bits % 8 != 0 ==> a[bits / 8] & ByteMaskOf(bits % 8) == p[bits / 8] & ByteMaskOf(bits % 8))
  }

  /** The blocks the classifier's comments name: ::1/128, fe80::/10,
      fec0::/10, ff00::/8, ::/128, fc00::/7, 2001:db8::/32, 2002::/16 and
      2001::/32. */
  predicate InNamedBlock6(a: Ip6Addr) {
    || InPrefix(a, Padded(seq(15, _ => 0) + [1]), 128)
    || InPrefix(a, Padded([0xfe, 0x80]), 10)
    || InPrefix(a, Padded([0xfe, 0xc0]), 10)
    || InPrefix(a, Padded([0xff]), 8)
    || InPrefix(a, Padded([]), 128)
    || InPrefix(a, Padded([0xfc]), 7)
    || InPrefix(a, Padded([0x20, 0x01, 0x0d, 0xb8]), 32)
    || InPrefix(a, Padded([0x20, 0x02]), 16)
    || InPrefix(a, Padded([0x20, 0x01, 0x00, 0x00]), 32)
  }

  /** The byte tests of the classifier select exactly the nine named blocks. */
  lemma ClassifierMatchesNamedBlocks6(a: Ip6Addr)
    ensures IsPrivateOrReservedIPv6(a) <==> InNamedBlock6(a)
  {
  }

  /** A public address next to the Teredo and documentation prefixes,
      `2001:4860::`, is not blocked, while `fd00:ec2::254` is unique-local. */
  lemma PublicAndUniqueLocalExamples()
    ensures !IsPrivateOrReservedIPv6(Padded([0x20, 0x01, 0x48, 0x60]))
    ensures IsPrivateOrReservedIPv6(Padded([0xfd, 0x00, 0x0e, 0xc2]) [15 := 0x54] [14 := 0x02])
  {
    var a := Padded([0x20, 0x01, 0x48, 0x60]);
    assert a[..4] != Ipv6DocPrefix by { assert a[2] != Ipv6DocPrefix[2]; }
    assert a[..4] != Ipv6TeredoPrefix by { assert a[2] != Ipv6TeredoPrefix[2]; }
    assert a[..2] != Ipv6SixToFourPrefix by { assert a[1] != Ipv6SixToFourPrefix[1]; }
    assert !IsUnspecified(a) by { assert a[0] != 0; }
    assert !IsLoopback(a) by { assert a[0] != 0; }
  }
}
