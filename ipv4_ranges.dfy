/** The IPv4 range classifier. An address is a 32-bit value in host byte
    order, as `ntohl` leaves it; its octets a.b.c.d are read with the shift
    and mask constants. */
module Ipv4Ranges {
  import opened SsrfConstants

  /** The octet that `(ip >> shift) & BYTE_MASK` yields. */
  function Octet(ip: bv32, shift: nat): bv8
    requires shift <= 24
  {
    ((ip >> shift) & ByteMask) as bv8
  }

  /** The address a.b.c.d in host byte order. */
  function FromOctets(a: bv8, b: bv8, c: bv8, d: bv8): bv32 {
    (a as bv32 << 24) | (b as bv32 << 16) | (c as bv32 << 8) | d as bv32
  }

  /** Shifting by 24 and masking recovers the first octet. */
  lemma OctetA(a: bv8, b: bv8, c: bv8, d: bv8)
    ensures Octet(FromOctets(a, b, c, d), Shift24) == a
  {
  }

  /** Shifting by 16 and masking recovers the second octet. */
  lemma OctetB(a: bv8, b: bv8, c: bv8, d: bv8)
    ensures Octet(FromOctets(a, b, c, d), Shift16) == b
  {
  }

  /** Shifting by 8 and masking recovers the third octet. */
  lemma OctetC(a: bv8, b: bv8, c: bv8, d: bv8)
    ensures Octet(FromOctets(a, b, c, d), Shift8) == c
  {
  }

  /** `isPrivateOrReservedIPv4`, test by test in the order of the source. */
  predicate IsPrivateOrReservedIPv4(ip: bv32) {
    var a := Octet(ip, Shift24);
    var b := Octet(ip, Shift16);
    var c := Octet(ip, Shift8);
    if a == Ipv4Loopback then true
    else if a == Ipv4ClassAPrivate then true
    else if a == Ipv4ClassBPrivateA && b >= Ipv4ClassBPrivateBMin && b <= Ipv4ClassBPrivateBMax then true
    else if a == Ipv4ClassCPrivateA && b == Ipv4ClassCPrivateB then true
    else if a == Ipv4LinkLocalA && b == Ipv4LinkLocalB then true
    else if a == Ipv4CgnatA && b >= Ipv4CgnatBMin && b <= Ipv4CgnatBMax then true
    else if a == Ipv4Broadcast255 && b == Ipv4Broadcast255 && c == Ipv4Broadcast255 then true
    else if a == Ipv4ZeroOctet then true
    else if a >= Ipv4MulticastStart && a <= Ipv4MulticastEnd then true
    else a >= Ipv4ReservedStart
  }

  /** The network mask of a prefix of `len` bits. */
  function PrefixMask(len: nat): bv32
    requires len <= 32
  {
    if len == 0 then 0 else 0xffff_ffff << (32 - len)
  }

  /** `ip` lies in the CIDR block `base/len`. */
  predicate InCidr(ip: bv32, base: bv32, len: nat)
    requires len <= 32
  {
    ip & PrefixMask(len) == base & PrefixMask(len)
  }

  /** The blocks the classifier's comments name, written as CIDR blocks:
      127/8, 10/8, 172.16/12, 192.168/16, 169.254/16, 100.64/10,
      255.255.255.255/32, 0/8, 224/4 and 240/4. */
  predicate InNamedBlock(ip: bv32) {
    || InCidr(ip, FromOctets(127, 0, 0, 0), 8)
    || InCidr(ip, FromOctets(10, 0, 0, 0), 8)
    || InCidr(ip, FromOctets(172, 16, 0, 0), 12)
    || InCidr(ip, FromOctets(192, 168, 0, 0), 16)
    || InCidr(ip, FromOctets(169, 254, 0, 0), 16)
    || InCidr(ip, FromOctets(100, 64, 0, 0), 10)
    || InCidr(ip, FromOctets(255, 255, 255, 255), 32)
    || InCidr(ip, FromOctets(0, 0, 0, 0), 8)
    || InCidr(ip, FromOctets(224, 0, 0, 0), 4)
    || InCidr(ip, FromOctets(240, 0, 0, 0), 4)
  }

  /** A /8 block is a comparison of the first octet. */
  lemma Slash8(ip: bv32, a: bv8)
    ensures InCidr(ip, FromOctets(a, 0, 0, 0), 8) <==> Octet(ip, Shift24) == a
  {
  }

  /** 192.168.0.0/16 is the first octets 192 and 168. */
  lemma ClassCBlock(ip: bv32)
    ensures InCidr(ip, FromOctets(192, 168, 0, 0), 16) <==>
      Octet(ip, Shift24) == Ipv4ClassCPrivateA && Octet(ip, Shift16) == Ipv4ClassCPrivateB
  {
  }

  /** 169.254.0.0/16 is the first octets 169 and 254. */
  lemma LinkLocalBlock(ip: bv32)
    ensures InCidr(ip, FromOctets(169, 254, 0, 0), 16) <==>
      Octet(ip, Shift24) == Ipv4LinkLocalA && Octet(ip, Shift16) == Ipv4LinkLocalB
  {
  }

  /** A /4 block is a comparison of the first nibble. */
  lemma Slash4(ip: bv32, a: bv8)
    ensures InCidr(ip, FromOctets(a, 0, 0, 0), 4) <==> Octet(ip, Shift24) & 0xf0 == a & 0xf0
  {
  }

  /** 172.16.0.0/12 is the first octet 172 with a second octet from 16 to 31. */
  lemma ClassBBlock(ip: bv32)
    ensures InCidr(ip, FromOctets(172, 16, 0, 0), 12) <==>
      Octet(ip, Shift24) == Ipv4ClassBPrivateA &&
      Ipv4ClassBPrivateBMin <= Octet(ip, Shift16) <= Ipv4ClassBPrivateBMax
  {
    assert InCidr(ip, FromOctets(172, 16, 0, 0), 12) <==>
      Octet(ip, Shift24) == 172 && Octet(ip, Shift16) & 0xf0 == 0x10;
    ClassBBoundsAreSlash12(Octet(ip, Shift16));
  }

  /** 100.64.0.0/10 is the first octet 100 with a second octet from 64 to 127. */
  lemma CgnatBlock(ip: bv32)
    ensures InCidr(ip, FromOctets(100, 64, 0, 0), 10) <==>
      Octet(ip, Shift24) == Ipv4CgnatA &&
      Ipv4CgnatBMin <= Octet(ip, Shift16) <= Ipv4CgnatBMax
  {
    assert InCidr(ip, FromOctets(100, 64, 0, 0), 10) <==>
      Octet(ip, Shift24) == 100 && Octet(ip, Shift16) & 0xc0 == 0x40;
    CgnatBoundsAreSlash10(Octet(ip, Shift16));
  }

  /** The limited-broadcast address is the one with every octet 255. */
  lemma BroadcastBlock(ip: bv32)
    ensures InCidr(ip, FromOctets(255, 255, 255, 255), 32) ==> Octet(ip, Shift24) == 255
  {
  }

  /** The octet comparisons of the classifier select exactly the ten named
      CIDR blocks. */
  lemma {:induction false} ClassifierMatchesNamedBlocks(ip: bv32)
    ensures IsPrivateOrReservedIPv4(ip) <==> InNamedBlock(ip)
  {
    var a := Octet(ip, Shift24);
    Slash8(ip, 127);
    Slash8(ip, 10);
    ClassBBlock(ip);
    ClassCBlock(ip);
    LinkLocalBlock(ip);
    CgnatBlock(ip);
    BroadcastBlock(ip);
    Slash8(ip, 0);
    Slash4(ip, 224);
    Slash4(ip, 240);
    MulticastAndReservedNibbles(a);
  }

  /** The classifier never reads the last octet: changing it never changes
      the verdict. */
  lemma LastOctetIgnored(a: bv8, b: bv8, c: bv8, d: bv8, d': bv8)
    ensures IsPrivateOrReservedIPv4(FromOctets(a, b, c, d)) == IsPrivateOrReservedIPv4(FromOctets(a, b, c, d'))
  {
    OctetA(a, b, c, d);
    OctetB(a, b, c, d);
    OctetC(a, b, c, d);
    OctetA(a, b, c, d');
    OctetB(a, b, c, d');
    OctetC(a, b, c, d');
  }

  /** The broadcast test reads three octets, so it covers 255.255.255.0/24
      rather than the one address its comment names; either way every such
      address already has a first octet of at least 240, and the classifier
      is the same without that test. */
  lemma BroadcastTestSubsumed(ip: bv32)
    ensures IsPrivateOrReservedIPv4(ip) <==>
      var a := Octet(ip, Shift24);
      var b := Octet(ip, Shift16);
      || a == Ipv4Loopback || a == Ipv4ClassAPrivate
      || (a == Ipv4ClassBPrivateA && Ipv4ClassBPrivateBMin <= b <= Ipv4ClassBPrivateBMax)
      || (a == Ipv4ClassCPrivateA && b == Ipv4ClassCPrivateB)
      || (a == Ipv4LinkLocalA && b == Ipv4LinkLocalB)
      || (a == Ipv4CgnatA && Ipv4CgnatBMin <= b <= Ipv4CgnatBMax)
      || a == Ipv4ZeroOctet || a >= Ipv4MulticastStart
  {
  }

  /** The edges of the loopback and 172.16.0.0/12 blocks. */
  lemma BoundaryAddresses()
    ensures IsPrivateOrReservedIPv4(FromOctets(127, 0, 0, 0))
    ensures IsPrivateOrReservedIPv4(FromOctets(172, 16, 0, 0))
    ensures IsPrivateOrReservedIPv4(FromOctets(172, 31, 255, 255))
    ensures !IsPrivateOrReservedIPv4(FromOctets(126, 255, 255, 255))
    ensures !IsPrivateOrReservedIPv4(FromOctets(172, 15, 255, 255))
    ensures !IsPrivateOrReservedIPv4(FromOctets(172, 32, 0, 0))
  {
    OctetA(127, 0, 0, 0);
    OctetA(172, 16, 0, 0);
    OctetB(172, 16, 0, 0);
    OctetA(172, 31, 255, 255);
    OctetB(172, 31, 255, 255);
    OctetA(126, 255, 255, 255);
    OctetA(172, 15, 255, 255);
    OctetB(172, 15, 255, 255);
    OctetA(172, 32, 0, 0);
    OctetB(172, 32, 0, 0);
  }
}
