/** The resolution check: the host is looked up and blocked if the lookup
    fails or if any address in the answer is private or reserved. */
module DnsGuard {
  import opened Wrappers
  import opened Ipv4Ranges
  import opened Ipv6Ranges
  import opened Environment
  import opened IpLiteral

  /** One resolved entry is private or reserved. IPv6 entries are classified
      by the IPv6 table as they are: an IPv4-mapped entry is not unwrapped. */
  predicate EntryIsPrivate(x: Addr) {
    match x
    case Inet(ip) => IsPrivateOrReservedIPv4(ip)
    case Inet6(a6) => IsPrivateOrReservedIPv6(a6)
    case OtherFamily => false
  }

  /** Every entry of the answer checked, with no early exit. */
  predicate AnyEntryPrivate(entries: seq<Addr>) {
    if entries == [] then false
    else EntryIsPrivate(entries[0]) || AnyEntryPrivate(entries[1..])
  }

  /** A failed lookup blocks (fail closed); otherwise some entry must be
      private or reserved. */
  predicate ResolvesToBlocked(answer: Option<seq<Addr>>) {
    match answer
    case None => true
    case Some(entries) => exists i :: 0 <= i < |entries| && EntryIsPrivate(entries[i])
  }

  /** `dnsResolvesToBlockedIP`: looks up the host, read as a C string, then
      walks the answer, sets the flag at the first private or reserved entry
      and stops there. */
  method DnsResolvesToBlockedIp(host: string, p: Platform) returns (blocked: bool)
    ensures blocked == ResolvesToBlocked(p.resolve(CStr(host)))
  {
    var answer := p.resolve(CStr(host));
    if answer.None? {
      return true;
    }
    var entries := answer.value;
    blocked := false;
    var i := 0;
    while i < |entries|
      invariant 0 <= i <= |entries|
      invariant !blocked
      invariant forall k :: 0 <= k < i ==> !EntryIsPrivate(entries[k])
    {
      var entry := entries[i];
      if entry.Inet? {
        if IsPrivateOrReservedIPv4(entry.ip) {
          blocked := true;
          break;
        }
      } else if entry.Inet6? {
        if IsPrivateOrReservedIPv6(entry.addr) {
          blocked := true;
          break;
        }
      }
      i := i + 1;
    }
  }

  /** Stopping at the first private entry gives the same answer as checking
      every entry. */
  lemma {:induction false} FullScanAgrees(entries: seq<Addr>)
    ensures AnyEntryPrivate(entries) <==> exists i :: 0 <= i < |entries| && EntryIsPrivate(entries[i])
    decreases |entries|
  {
    if entries != [] {
      FullScanAgrees(entries[1..]);
      if exists i :: 0 <= i < |entries[1..]| && EntryIsPrivate(entries[1..][i]) {
        var i :| 0 <= i < |entries[1..]| && EntryIsPrivate(entries[1..][i]);
        assert EntryIsPrivate(entries[i + 1]);
      }
      if exists i :: 0 <= i < |entries| && EntryIsPrivate(entries[i]) {
        var i :| 0 <= i < |entries| && EntryIsPrivate(entries[i]);
        if i > 0 {
          assert entries[1..][i - 1] == entries[i];
        }
      }
    }
  }

  /** An entry is private or reserved exactly when it lies in one of the
      named IPv4 or IPv6 blocks, read without unwrapping. */
  lemma EntryIsPrivateMeansNamedBlock(x: Addr)
    ensures EntryIsPrivate(x) <==> InNamedBlockAddr(x)
  {
    match x
    case Inet(ip) => ClassifierMatchesNamedBlocks(ip);
    case Inet6(a6) => ClassifierMatchesNamedBlocks6(a6);
    case OtherFamily =>
  }

  /** A failed lookup blocks; an empty successful answer does not. */
  lemma FailureBlocksEmptyAnswerDoesNot()
    ensures ResolvesToBlocked(None)
    ensures !ResolvesToBlocked(Some([]))
  {
  }

  /** One private entry among public ones blocks the host. */
  lemma OnePrivateEntryBlocks()
    ensures ResolvesToBlocked(Some([Inet(FromOctets(8, 8, 8, 8)), Inet(FromOctets(10, 0, 0, 1))]))
    ensures !ResolvesToBlocked(Some([Inet(FromOctets(8, 8, 8, 8)), Inet(FromOctets(1, 1, 1, 1))]))
  {
    var mixed := [Inet(FromOctets(8, 8, 8, 8)), Inet(FromOctets(10, 0, 0, 1))];
    assert EntryIsPrivate(mixed[1]) by { OctetA(10, 0, 0, 1); }
    var public := [Inet(FromOctets(8, 8, 8, 8)), Inet(FromOctets(1, 1, 1, 1))];
    assert !EntryIsPrivate(public[0]) by { OctetA(8, 8, 8, 8); OctetB(8, 8, 8, 8); }
    assert !EntryIsPrivate(public[1]) by { OctetA(1, 1, 1, 1); OctetB(1, 1, 1, 1); }
  }

  /** An IPv4-mapped loopback entry in the answer is not unwrapped, so the
      resolution check lets it through, while the same address written as a
      literal is blocked. */
  lemma MappedLoopbackNotUnwrappedOverDns()
    ensures !ResolvesToBlocked(Some([Inet6(MappedLoopback)]))
  {
    var a := MappedLoopback;
    assert a[0] == 0 && a[1] == 0 && a[10] == 0xff;
  }
}
