/** The configuration tables of the guard: bit-manipulation constants, the
    octet bounds of the IPv4 special-purpose ranges, the IPv6 prefix bytes and
    the host-name blocklist strings, together with the facts about them that
    the classifiers rely on. All of it is immutable. */
module SsrfConstants {
  import opened Strings

  // Bit manipulation
  const ByteMask: bv32 := 0xff
  const Shift24: nat := 24
  const Shift16: nat := 16
  const Shift8: nat := 8

  // IPv4 special octets
  const Ipv4ZeroOctet: bv8 := 0
  const Ipv4Broadcast255: bv8 := 255

  // Where the IPv4 address sits inside an IPv4-mapped IPv6 address
  const Ipv4MappedOffset: nat := 12
  const Ipv4AddrSize: nat := 4

  // Loopback and unspecified names and literals
  const LocalhostIpv4 := "127.0.0.1"
  const LocalhostIpv6 := "::1"
  const LocalhostName := "localhost"
  const LocalhostDomain := "localhost.localdomain"
  const UnspecifiedIpv4 := "0.0.0.0"
  const UnspecifiedIpv6 := "::"

  // Cloud instance-metadata endpoints
  const AwsMetadataIpv4 := "169.254.169.254"
  const AwsMetadataIpv4Alt := "169.254.170.2"
  const AwsMetadataIpv6 := "fd00:ec2::254"
  const GcpMetadataHost := "metadata.google.internal"
  const GcpMetadataShort := "metadata"
  const AzureMetadataHost := "metadata.azure.com"
  const AlibabaMetadataIpv4 := "100.100.100.200"

  // Kubernetes and Docker internal names
  const K8sDefault := "kubernetes.default"
  const K8sDefaultSvc := "kubernetes.default.svc"
  const K8sDefaultFull := "kubernetes.default.svc.cluster.local"
  const DockerInternal := "docker.internal"
  const DockerHostInternal := "host.docker.internal"

  // URL components
  const SchemeHttp := "http"
  const SchemeHttps := "https"
  const UrlSchemeSep := "://"
  const UrlDelimChars := ":/?#"
  const BracketOpen: char := '['
  const BracketClose := "]"
  const AtSymbol: char := '@'

  // Numeric-encoding and IDN patterns
  const HexPrefixLower := "0x"
  const HexPrefixUpper := "0X"
  const IdnPrefix := "xn--"
  const PercentChar := "%"

  // Special host names
  const Ip6Localhost := "ip6-localhost"
  const Ip6Loopback := "ip6-loopback"

  // Degenerate hosts
  const Dot := "."
  const DoubleDot := ".."
  const Dash := "-"

  // Reserved and internal suffixes, matched as substrings
  const TldLocal := ".local"
  const TldLocalhost := ".localhost"
  const TldTest := ".test"
  const TldExample := ".example"
  const TldInvalid := ".invalid"
  const TldInternal := ".internal"
  const GcpMetadataGoog := "metadata.goog"

  // IPv4 range bounds, compared against the octets a and b
  const Ipv4ClassAPrivate: bv8 := 10
  const Ipv4Loopback: bv8 := 127
  const Ipv4LinkLocalA: bv8 := 169
  const Ipv4LinkLocalB: bv8 := 254
  const Ipv4MulticastStart: bv8 := 224
  const Ipv4MulticastEnd: bv8 := 239
  const Ipv4ReservedStart: bv8 := 240
  const Ipv4ClassCPrivateA: bv8 := 192
  const Ipv4ClassCPrivateB: bv8 := 168
  const Ipv4ClassBPrivateA: bv8 := 172
  const Ipv4ClassBPrivateBMin: bv8 := 16
  const Ipv4ClassBPrivateBMax: bv8 := 31
  const Ipv4CgnatA: bv8 := 100
  const Ipv4CgnatBMin: bv8 := 64
  const Ipv4CgnatBMax: bv8 := 127

  // IPv6 prefix bytes
  const Ipv6UlaPrefix: bv8 := 0xfc
  const Ipv6UlaMask: bv8 := 0xfe
  const Ipv6DocPrefix: seq<bv8> := [0x20, 0x01, 0x0d, 0xb8]
  const Ipv6SixToFourPrefix: seq<bv8> := [0x20, 0x02]
  const Ipv6TeredoPrefix: seq<bv8> := [0x20, 0x01, 0x00, 0x00]

  /** The second-octet bounds 16..31 select exactly the addresses whose second
      octet starts with the bits 0001, i.e. 172.16.0.0/12. */
  lemma ClassBBoundsAreSlash12(b: bv8)
    ensures Ipv4ClassBPrivateBMin <= b <= Ipv4ClassBPrivateBMax <==> b & 0xf0 == 0x10
  {
  }

  /** The second-octet bounds 64..127 select exactly 100.64.0.0/10. */
  lemma CgnatBoundsAreSlash10(b: bv8)
    ensures Ipv4CgnatBMin <= b <= Ipv4CgnatBMax <==> b & 0xc0 == 0x40
  {
  }

  /** Multicast is the first-octet nibble 1110, reserved the nibble 1111;
      together they are exactly the first octets from 224 up. */
  lemma MulticastAndReservedNibbles(a: bv8)
    ensures Ipv4MulticastStart <= a <= Ipv4MulticastEnd <==> a & 0xf0 == 0xe0
    ensures a >= Ipv4ReservedStart <==> a & 0xf0 == 0xf0
    ensures (Ipv4MulticastStart <= a <= Ipv4MulticastEnd || a >= Ipv4ReservedStart) <==> a >= 224
  {
  }

  /** The unique-local mask and prefix match exactly the first bytes 0xfc and 0xfd. */
  lemma UlaMaskMatchesFcFd(x: bv8)
    ensures x & Ipv6UlaMask == Ipv6UlaPrefix <==> x == 0xfc || x == 0xfd
  {
  }

  /** The documentation, Teredo and 6to4 prefixes differ within their common
      length, so no address lies in two of them. */
  lemma SpecialIpv6PrefixesDisjoint()
    ensures Ipv6DocPrefix[..2] != Ipv6SixToFourPrefix
    ensures Ipv6TeredoPrefix[..2] != Ipv6SixToFourPrefix
    ensures Ipv6DocPrefix != Ipv6TeredoPrefix
  {
    assert Ipv6DocPrefix[1] != Ipv6SixToFourPrefix[1];
    assert Ipv6TeredoPrefix[1] != Ipv6SixToFourPrefix[1];
    assert Ipv6DocPrefix[2] != Ipv6TeredoPrefix[2];
  }

  /** The embedded IPv4 address of a mapped IPv6 address ends at its last byte. */
  lemma MappedOffsetEndsAtSixteen()
    ensures Ipv4MappedOffset + Ipv4AddrSize == 16
  {
  }

  /** The exact-match names `localhost.localdomain` and
      `kubernetes.default.svc.cluster.local` already contain `.local`, and so
      does the suffix `.localhost`. */
  lemma {:induction false} LocalNamesContainLocal()
    ensures Contains(LocalhostDomain, TldLocal)
    ensures Contains(K8sDefaultFull, TldLocal)
    ensures Contains(TldLocalhost, TldLocal)
  {
    assert LocalhostDomain == "localhost" + TldLocal + "domain";
    ContainsInConcat("localhost", TldLocal, "domain");
    assert K8sDefaultFull == "kubernetes.default.svc.cluster" + TldLocal + "";
    ContainsInConcat("kubernetes.default.svc.cluster", TldLocal, "");
    assert TldLocalhost == "" + TldLocal + "host";
    ContainsInConcat("", TldLocal, "host");
  }

  /** The exact-match name of the GCP metadata host already contains `.internal`. */
  lemma {:induction false} GcpNameContainsInternal()
    ensures Contains(GcpMetadataHost, TldInternal)
  {
    assert GcpMetadataHost == "metadata.google" + TldInternal + "";
    ContainsInConcat("metadata.google", TldInternal, "");
  }

  /** The exact-match names of Docker's internal hosts already contain `.internal`. */
  lemma {:induction false} DockerNamesContainInternal()
    ensures Contains(DockerInternal, TldInternal)
    ensures Contains(DockerHostInternal, TldInternal)
  {
    assert DockerInternal == "docker" + TldInternal + "";
    ContainsInConcat("docker", TldInternal, "");
    assert DockerHostInternal == "host.docker" + TldInternal + "";
    ContainsInConcat("host.docker", TldInternal, "");
  }

  /** Any host containing `.localhost` contains `.local`. */
  lemma {:induction false} LocalhostSuffixCoveredByLocal(h: string)
    ensures Contains(h, TldLocalhost) ==> Contains(h, TldLocal)
  {
    if Contains(h, TldLocalhost) {
      ContainsIff(h, TldLocalhost);
      var i: nat :| OccursAt(h, TldLocalhost, i);
      OccursAtIff(h, TldLocalhost, i);
      OccursAtIff(h, TldLocal, i);
      assert forall k :: 0 <= k < |TldLocal| ==> TldLocal[k] == TldLocalhost[k];
      ContainsAt(h, TldLocal, i);
    }
  }
}
