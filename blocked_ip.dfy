/** The IP-literal checks: whether the host parses as an address at all,
    and whether the address it parses to, or its spelling, is blocked. */
module IpLiteral {
  import opened Wrappers
  import opened Strings
  import opened Ipv4Ranges
  import opened Ipv6Ranges
  import opened Environment
  import opened IpEncoding

  /** `isIpLiteralHost`: `inet_pton` accepts the host, read as a C string,
      as IPv4 or as IPv6. */
  predicate IsIpLiteralHost(host: string, p: Platform) {
    p.parseV4(CStr(host)).Some? || p.parseV6(CStr(host)).Some?
  }

  /** `isBlockedIP`: a suspicious spelling is blocked before any parse; an
      IPv4 literal is classified by the IPv4 table; an IPv4-mapped IPv6
      literal by the IPv4 table on its last four bytes; any other IPv6
      literal by the IPv6 table; a host neither parser accepts is not
      blocked here. The spelling check reads the whole host; the parsers
      read it as a C string. */
  predicate IsBlockedIp(host: string, p: Platform) {
    if SuspiciousEncoding(host) then true
    else match p.parseV4(CStr(host))
      case Some(v4) => IsPrivateOrReservedIPv4(v4)
      case None =>
        match p.parseV6(CStr(host))
        case Some(a6) =>
          if IsV4Mapped(a6) then IsPrivateOrReservedIPv4(EmbeddedV4(a6))
          else IsPrivateOrReservedIPv6(a6)
        case None => false
  }

  /** `isBlockedIP` as the guard runs it, with the loop-based encoding scan. */
  method CheckBlockedIp(host: string, p: Platform) returns (blocked: bool)
    ensures blocked == IsBlockedIp(host, p)
  {
    var suspicious := HasSuspiciousIpEncoding(host);
    if suspicious {
      return true;
    }
    var text := CStr(host);
    var v4 := p.parseV4(text);
    if v4.Some? {
      return IsPrivateOrReservedIPv4(v4.value);
    }
    var v6 := p.parseV6(text);
    if v6.Some? {
      if IsV4Mapped(v6.value) {
        return IsPrivateOrReservedIPv4(EmbeddedV4(v6.value));
      }
      return IsPrivateOrReservedIPv6(v6.value);
    }
    return false;
  }

  /** The address the literal denotes, IPv4 first, with an IPv4-mapped IPv6
      address unwrapped to its IPv4 address. */
  function LiteralAddress(host: string, p: Platform): Option<Addr> {
    match p.parseV4(CStr(host))
    case Some(v4) => Some(Inet(v4))
    case None =>
      match p.parseV6(CStr(host))
      case Some(a6) => if IsV4Mapped(a6) then Some(Inet(EmbeddedV4(a6))) else Some(Inet6(a6))
      case None => None
  }

  /** The address lies in one of the blocks the classifiers' comments name. */
  predicate InNamedBlockAddr(x: Addr) {
    match x
    case Inet(ip) => InNamedBlock(ip)
    case Inet6(a6) => InNamedBlock6(a6)
    case OtherFamily => false
  }

  /** `isBlockedIP` stated against the CIDR tables: a host is blocked
      exactly when its spelling is suspicious or the address it denotes lies
      in a named block. */
  lemma {:induction false} BlockedIpMeansSuspiciousOrNamedBlock(host: string, p: Platform)
    ensures IsBlockedIp(host, p) <==>
      SuspiciousEncoding(host) ||
      (LiteralAddress(host, p).Some? && InNamedBlockAddr(LiteralAddress(host, p).value))
  {
    var text := CStr(host);
    match p.parseV4(text)
    case Some(v4) => ClassifierMatchesNamedBlocks(v4);
    case None =>
      match p.parseV6(text)
      case Some(a6) =>
        ClassifierMatchesNamedBlocks(EmbeddedV4(a6));
        ClassifierMatchesNamedBlocks6(a6);
      case None =>
  }

  /** A host that neither parser accepts and that is spelled plainly is not
      blocked by this check. */
  lemma UnparsedHostNotBlocked(host: string, p: Platform)
    requires !IsIpLiteralHost(host, p) && !SuspiciousEncoding(host)
    ensures !IsBlockedIp(host, p)
  {
  }

  /** `::ffff:127.0.0.1` as `inet_pton` reads it. */
  const MappedLoopback: Ip6Addr := seq(10, _ => 0) + [0xff, 0xff, 127, 0, 0, 1]

  /** Any spelling of `::ffff:127.0.0.1` that only the IPv6 parser accepts
      is unwrapped and blocked by the IPv4 table, though the IPv6 table alone
      would let the address through. */
  lemma MappedLoopbackBlocked(host: string, p: Platform)
    requires p.parseV4(CStr(host)) == None && p.parseV6(CStr(host)) == Some(MappedLoopback)
    ensures IsBlockedIp(host, p)
    ensures !IsPrivateOrReservedIPv6(MappedLoopback)
  {
    var a := MappedLoopback;
    assert a[0] == 0 && a[1] == 0 && a[10] == 0xff;
    assert IsV4Mapped(a);
    assert EmbeddedV4(a) == FromOctets(127, 0, 0, 1);
    OctetA(127, 0, 0, 1);
  }
}
