/** Whole-pipeline examples on concrete URLs, each under the platform
    behaviour it needs. */
module ValidatorExamples {
  import opened Wrappers
  import opened Strings
  import opened SsrfConstants
  import opened Normalizer
  import opened UrlParser
  import opened HostnameClassifier
  import opened IpEncoding
  import opened Ipv4Ranges
  import opened Environment
  import opened IpLiteral
  import opened DnsGuard
  import opened Validator

  /** A URL with no escapes and no upper-case letters is its own
      normalization. */
  lemma PlainUrlNormalized(url: string, scan: HexScanner)
    requires NoEscapes(url) && NoUpper(url)
    ensures Normalized(url, scan) == url
  {
    LoweredIdentity(url);
  }

  /** Text the normalizer leaves alone. */
  predicate PlainText(s: string) {
    NoEscapes(s) && NoUpper(s)
  }

  /** Plain pieces make a plain whole. */
  lemma PlainConcat(a: string, b: string)
    requires PlainText(a) && PlainText(b)
    ensures PlainText(a + b)
  {
    assert forall c :: c in a + b ==> c in a || c in b;
  }

  /** A URL built from a scheme, a plain host and the rest is classified
      by its scheme and then by the checks on that host. */
  lemma ClassifyBuiltUrl(scheme: string, host: string, rest: string, p: Platform)
    requires ':' !in scheme
    requires |host| > 0 && host[0] != BracketOpen && AtSymbol !in host
    requires forall k :: 0 <= k < |host| ==> host[k] !in UrlDelimChars
    requires rest == [] || rest[0] in UrlDelimChars
    requires PlainText(scheme) && PlainText(host) && PlainText(rest)
    ensures Classify(scheme + UrlSchemeSep + host + rest, p) ==
      if IsAllowedScheme(scheme) then HostVerdict(host, p) else SchemeNotAllowed
  {
    var url := scheme + UrlSchemeSep + host + rest;
    assert PlainText(UrlSchemeSep);
    PlainConcat(scheme, UrlSchemeSep);
    PlainConcat(scheme + UrlSchemeSep, host);
    PlainConcat(scheme + UrlSchemeSep + host, rest);
    PlainUrlNormalized(url, p.scanHex);
    UrlRoundTrip(scheme, host, rest);
    LoweredIdentity(host);
  }

  /** A URL built from a scheme and a plain bracketed literal is classified
      by its scheme and then by the checks on the literal without brackets. */
  lemma ClassifyBracketedUrl(scheme: string, lit: string, rest: string, p: Platform)
    requires ':' !in scheme && |lit| > 0
    requires BracketClose[0] !in lit && AtSymbol !in lit && AtSymbol !in rest
    requires PlainText(scheme) && PlainText(lit) && PlainText(rest)
    ensures Classify(scheme + UrlSchemeSep + [BracketOpen] + lit + BracketClose + rest, p) ==
      if IsAllowedScheme(scheme) then HostVerdict(lit, p) else SchemeNotAllowed
  {
    var url := scheme + UrlSchemeSep + [BracketOpen] + lit + BracketClose + rest;
    assert PlainText(UrlSchemeSep) && PlainText([BracketOpen]) && PlainText(BracketClose);
    PlainConcat(scheme, UrlSchemeSep);
    PlainConcat(scheme + UrlSchemeSep, [BracketOpen]);
    PlainConcat(scheme + UrlSchemeSep + [BracketOpen], lit);
    PlainConcat(scheme + UrlSchemeSep + [BracketOpen] + lit, BracketClose);
    PlainConcat(scheme + UrlSchemeSep + [BracketOpen] + lit + BracketClose, rest);
    PlainUrlNormalized(url, p.scanHex);
    BracketedRoundTrip(scheme, lit, rest);
    LoweredIdentity(lit);
  }

  /** An `http` URL whose plain host neither parser accepts is rejected at
      the literal check, whatever the host resolves to. */
  lemma NonLiteralHostRejected(host: string, rest: string, p: Platform)
    requires |host| > 0 && host[0] != BracketOpen && AtSymbol !in host
    requires forall k :: 0 <= k < |host| ==> host[k] !in UrlDelimChars
    requires rest == [] || rest[0] in UrlDelimChars
    requires PlainText(host) && PlainText(rest)
    requires !IsIpLiteralHost(host, p)
    ensures Classify(SchemeHttp + UrlSchemeSep + host + rest, p) == HostNotIpLiteral
  {
    ClassifyBuiltUrl(SchemeHttp, host, rest, p);
  }

  /** A host that `ClassifyBuiltUrl` reads back unchanged, with a character
      no address uses at index `i` and no NUL up to it. */
  predicate PlainNameHost(host: string, i: nat) {
    && i < |host| && host[i] !in V6Chars
    && (forall k :: 0 <= k <= i ==> host[k] != '\0')
    && host[0] != BracketOpen && AtSymbol !in host
    && (forall k :: 0 <= k < |host| ==> host[k] !in UrlDelimChars)
    && PlainText(host)
  }

  /** "example.com" is such a host: its 'x' is no address character. */
  lemma DomainNameIsPlain()
    ensures PlainNameHost("example.com", 1)
  {
  }

  /** So is "user": its 'u' is no address character. */
  lemma UserNameIsPlain()
    ensures PlainNameHost("user", 0)
  {
  }

  /** On a platform whose parsers accept only address characters, an
      `http` URL whose plain host has a character no address uses is
      rejected at the literal check. */
  lemma NameHostRejected(host: string, i: nat, rest: string, p: Platform)
    requires ParsersRejectNames(p)
    requires PlainNameHost(host, i)
    requires rest == [] || rest[0] in UrlDelimChars
    requires PlainText(rest)
    ensures Classify(SchemeHttp + UrlSchemeSep + host + rest, p) == HostNotIpLiteral
  {
    NameHostNotLiteral(host, i, p);
    NonLiteralHostRejected(host, rest, p);
  }

  /** A public IPv4 host that resolves to itself passes every host check. */
  lemma PublicHostPasses(p: Platform)
    requires p.parseV4("8.8.8.8") == Some(FromOctets(8, 8, 8, 8))
    requires p.resolve("8.8.8.8") == Some([Inet(FromOctets(8, 8, 8, 8))])
    ensures HostVerdict("8.8.8.8", p) == Allowed
  {
    PublicIpv4NotBlocked();
    PublicDottedQuadNotSuspicious();
    PublicAddressNotPrivate();
    PublicTextIsCString();
    assert !EntryIsPrivate(p.resolve("8.8.8.8").value[0]);
  }

  /** 8.8.8.8 is in none of the private or reserved IPv4 blocks. */
  lemma PublicAddressNotPrivate()
    ensures !IsPrivateOrReservedIPv4(FromOctets(8, 8, 8, 8))
  {
    OctetA(8, 8, 8, 8);
    OctetB(8, 8, 8, 8);
  }

  /** "8.8.8.8" holds no NUL, so the platform reads all of it. */
  lemma PublicTextIsCString()
    ensures CStr("8.8.8.8") == "8.8.8.8"
  {
    assert '\0' !in "8.8.8.8";
  }

  /** A public IPv4 literal that resolves to itself is allowed. */
  lemma PublicLiteralAllowed(p: Platform)
    requires p.parseV4("8.8.8.8") == Some(FromOctets(8, 8, 8, 8))
    requires p.resolve("8.8.8.8") == Some([Inet(FromOctets(8, 8, 8, 8))])
    ensures Classify(SchemeHttp + UrlSchemeSep + "8.8.8.8" + "/", p) == Allowed
  {
    ClassifyBuiltUrl(SchemeHttp, "8.8.8.8", "/", p);
    PublicHostPasses(p);
  }

  /** The AWS metadata address never passes the host checks. */
  lemma MetadataHostFails(p: Platform)
    ensures HostVerdict(AwsMetadataIpv4, p) != Allowed
  {
    assert IsBlockedHostname(AwsMetadataIpv4);
  }

  /** The decimal spelling of the loopback address never passes the host checks. */
  lemma DecimalHostFails(p: Platform)
    ensures HostVerdict("2130706433", p) != Allowed
  {
    DecimalLoopbackSuspicious();
  }

  /** A host with a character no address has, before any NUL, is accepted
      by neither parser. */
  lemma NameHostNotLiteral(host: string, i: nat, p: Platform)
    requires ParsersRejectNames(p)
    requires i < |host| && host[i] !in V6Chars
    requires forall k :: 0 <= k <= i ==> host[k] != '\0'
    ensures !IsIpLiteralHost(host, p)
  {
    var text := CStr(host);
    assert text[i] == host[i];
    assert text[i] !in V4Chars;
  }

  /** The AWS metadata endpoint is rejected on every platform: it is either
      not an address or on the host-name list. */
  lemma MetadataEndpointRejected(p: Platform)
    ensures Classify(SchemeHttp + UrlSchemeSep + AwsMetadataIpv4 + "/", p) != Allowed
  {
    ClassifyBuiltUrl(SchemeHttp, AwsMetadataIpv4, "/", p);
    MetadataHostFails(p);
  }

  /** The decimal spelling of the loopback address is rejected on every
      platform: it is either not an address or suspicious. */
  lemma DecimalLoopbackRejected(p: Platform)
    ensures Classify(SchemeHttp + UrlSchemeSep + "2130706433" + "/", p) != Allowed
  {
    ClassifyBuiltUrl(SchemeHttp, "2130706433", "/", p);
    DecimalHostFails(p);
  }

  /** A domain name is rejected as not an IP literal, whatever it resolves
      to, on a platform whose parsers accept only address characters: its
      'x' is no such character. */
  lemma DomainNameRejected(p: Platform)
    requires ParsersRejectNames(p)
    ensures Classify(SchemeHttp + UrlSchemeSep + "example.com" + "/", p) == HostNotIpLiteral
  {
    DomainNameIsPlain();
    NameHostRejected("example.com", 1, "/", p);
  }

  /** Credentials with a password are not stripped: ':' is the first
      delimiter, so the host is the user name. */
  lemma PasswordCredentialsNotStripped()
    ensures GetHost(SchemeHttp + UrlSchemeSep + "user" + ":pass@8.8.8.8/") == "user"
  {
    UrlRoundTrip(SchemeHttp, "user", ":pass@8.8.8.8/");
  }

  /** The user name then gets the URL rejected wherever the parsers accept
      only address characters, although the URL names a public address. */
  lemma PasswordCredentialsRejected(p: Platform)
    requires ParsersRejectNames(p)
    ensures Classify(SchemeHttp + UrlSchemeSep + "user" + ":pass@8.8.8.8/", p) == HostNotIpLiteral
  {
    assert PlainText(":pass@8.8.8.8/");
    UserNameIsPlain();
    NameHostRejected("user", 0, ":pass@8.8.8.8/", p);
  }

  /** A scheme other than `http` and `https` is rejected first. */
  lemma FileSchemeRejected(p: Platform)
    ensures Classify("file" + UrlSchemeSep + "8.8.8.8" + "/", p) == SchemeNotAllowed
  {
    ClassifyBuiltUrl("file", "8.8.8.8", "/", p);
  }

  /** The bracketed IPv6 loopback is rejected on every platform: it is either
      not an address or on the host-name list. */
  lemma BracketedLoopbackRejected(p: Platform)
    ensures Classify(SchemeHttp + UrlSchemeSep + [BracketOpen] + LocalhostIpv6 + BracketClose + "/", p) != Allowed
  {
    ClassifyBracketedUrl(SchemeHttp, LocalhostIpv6, "/", p);
    assert IsBlockedHostname(LocalhostIpv6);
  }

  /** A bracketed IPv4-mapped loopback is rejected: any plain spelling
      that the IPv6 parser alone reads as `::ffff:127.0.0.1` (such as
      "::ffff:127.0.0.1" or "::ffff:7f00:1") is unwrapped and blocked by the
      IPv4 table. */
  lemma BracketedMappedLoopbackRejected(lit: string, p: Platform)
    requires |lit| > 0 && BracketClose[0] !in lit && AtSymbol !in lit && PlainText(lit)
    requires p.parseV4(CStr(lit)) == None && p.parseV6(CStr(lit)) == Some(MappedLoopback)
    ensures Classify(SchemeHttp + UrlSchemeSep + [BracketOpen] + lit + BracketClose + "/", p) != Allowed
  {
    ClassifyBracketedUrl(SchemeHttp, lit, "/", p);
    MappedLoopbackBlocked(lit, p);
  }

  /** The host that `8.8.8.8%00zz` decodes to: a NUL sits between the
      address and the trailing name. */
  const NulSuffixedHost: string := "8.8.8.8" + ['\0'] + "zz"

  /** No blocked fragment and no exact name is found in `NulSuffixedHost`. */
  lemma NulSuffixedHostNotListed()
    ensures NulSuffixedHost !in ExactBlockedNames && !ContainsBlockedFragment(NulSuffixedHost)
  {
    var h := NulSuffixedHost;
    assert h !in ExactBlockedNames;
    MissingCharNotContained(h, TldInternal, 1);
    MissingCharNotContained(h, GcpMetadataGoog, 0);
    MissingCharNotContained(h, TldLocal, 1);
    MissingCharNotContained(h, TldTest, 1);
    MissingCharNotContained(h, TldExample, 1);
    MissingCharNotContained(h, TldInvalid, 1);
  }

  /** `NulSuffixedHost` is not made of address characters alone. */
  lemma NulSuffixedHostNotAddressText()
    ensures exists i :: 0 <= i < |NulSuffixedHost| && NulSuffixedHost[i] !in V6Chars
  {
    assert NulSuffixedHost[8] == 'z' && 'z' !in V6Chars;
  }

  /** The host-name tests read the whole host and find nothing in
      `NulSuffixedHost`. */
  lemma NulSuffixedHostNotBlocked()
    ensures !IsBlockedHostname(NulSuffixedHost)
  {
    var h := NulSuffixedHost;
    NulSuffixedHostNotListed();
    assert h !in DegenerateHosts;
    MissingCharNotContained(h, IdnPrefix, 0);
    BlockedHostnameCharacterization(h);
  }

  /** Nor do the spelling tests: no hexadecimal prefix, no '0' at all, a
      '.' and no '%'. */
  lemma NulSuffixedHostNotSuspicious()
    ensures !SuspiciousEncoding(NulSuffixedHost)
  {
    var h := NulSuffixedHost;
    MissingCharNotContained(h, PercentChar, 0);
    MissingCharNotContained(h, HexPrefixLower, 1);
    MissingCharNotContained(h, HexPrefixUpper, 1);
    assert forall i :: 0 <= i < |h| ==> h[i] != '0';
    assert !IsDigit(h[1]);
  }

  /** Text after a NUL is seen by the host-name and spelling tests only:
      if those pass on the whole host, the host passes exactly when the text
      before the NUL does. */
  lemma NulSuffixInvisibleToPlatform(addr: string, tail: string, p: Platform)
    requires '\0' !in addr
    requires !IsBlockedHostname(addr + ['\0'] + tail) && !SuspiciousEncoding(addr + ['\0'] + tail)
    requires !IsBlockedHostname(addr) && !SuspiciousEncoding(addr)
    ensures HostVerdict(addr + ['\0'] + tail, p) == HostVerdict(addr, p)
  {
    CStrStopsAtNul(addr, tail);
  }

  /** The parsers and the resolver see only the text before the NUL, so
      `NulSuffixedHost` passes every host check wherever "8.8.8.8" parses
      and resolves to itself, although "zz" is no part of an address. */
  lemma NulSuffixedHostPasses(p: Platform)
    requires p.parseV4("8.8.8.8") == Some(FromOctets(8, 8, 8, 8))
    requires p.resolve("8.8.8.8") == Some([Inet(FromOctets(8, 8, 8, 8))])
    ensures HostVerdict(NulSuffixedHost, p) == Allowed
  {
    PublicHostPasses(p);
    PublicIpv4NotBlocked();
    PublicDottedQuadNotSuspicious();
    NulSuffixedHostNotBlocked();
    NulSuffixedHostNotSuspicious();
    NulSuffixInvisibleToPlatform("8.8.8.8", "zz", p);
  }

  /** `%00` in a plain host decodes to a NUL and nothing else changes. */
  lemma NulEscapeNormalized(addr: string, tail: string, scan: HexScanner)
    requires PlainText(addr) && PlainText(tail)
    ensures Normalized(SchemeHttp + UrlSchemeSep + addr + "%00" + tail + "/", scan) ==
      SchemeHttp + UrlSchemeSep + (addr + ['\0'] + tail) + "/"
  {
    var pre := SchemeHttp + UrlSchemeSep + addr;
    var post := tail + "/";
    var built := SchemeHttp + UrlSchemeSep + (addr + ['\0'] + tail) + "/";
    assert SchemeHttp + UrlSchemeSep + addr + "%00" + tail + "/" == pre + ['%', '0', '0'] + post;
    assert PlainText(SchemeHttp + UrlSchemeSep) && PlainText("/") && PlainText(['\0']);
    PlainConcat(SchemeHttp + UrlSchemeSep, addr);
    PlainConcat(tail, "/");
    EscapeBetweenPlain(pre, '0', '0', post, scan);
    assert built == pre + [0 as char] + post;
    PlainConcat(pre, ['\0']);
    PlainConcat(pre + ['\0'], post);
    LoweredIdentity(built);
  }

  /** `%00` in a plain host decodes to a NUL: the host the guard checks is
      the text before the escape, a NUL and the text after it, and the URL
      is decided by the host checks on that. */
  lemma NulEscapeUrlClassified(addr: string, tail: string, p: Platform)
    requires |addr| > 0 && addr[0] != BracketOpen && AtSymbol !in addr && AtSymbol !in tail
    requires forall k :: 0 <= k < |addr| ==> addr[k] !in UrlDelimChars
    requires forall k :: 0 <= k < |tail| ==> tail[k] !in UrlDelimChars
    requires PlainText(addr) && PlainText(tail)
    ensures GetHost(Normalized(SchemeHttp + UrlSchemeSep + addr + "%00" + tail + "/", p.scanHex)) ==
      addr + ['\0'] + tail
    ensures Classify(SchemeHttp + UrlSchemeSep + addr + "%00" + tail + "/", p) ==
      HostVerdict(addr + ['\0'] + tail, p)
  {
    var host := addr + ['\0'] + tail;
    var url := SchemeHttp + UrlSchemeSep + addr + "%00" + tail + "/";
    var built := SchemeHttp + UrlSchemeSep + host + "/";
    NulEscapeNormalized(addr, tail, p.scanHex);
    assert PlainText(['\0']);
    PlainConcat(addr, ['\0']);
    PlainConcat(addr + ['\0'], tail);
    forall k | 0 <= k < |host| ensures host[k] !in UrlDelimChars && host[k] != AtSymbol {
      if k > |addr| {
        assert host[k] == tail[k - |addr| - 1];
      }
    }
    assert host[0] == addr[0];
    ClassifyBuiltUrl(SchemeHttp, host, "/", p);
    UrlRoundTrip(SchemeHttp, host, "/");
    PlainUrlNormalized(built, p.scanHex);
    assert Normalized(url, p.scanHex) == Normalized(built, p.scanHex);
  }

  /** `http://8.8.8.8%00zz/` is allowed wherever "8.8.8.8" parses and
      resolves to itself: its host is `NulSuffixedHost`, which holds a
      character no address uses. This is why `Validator.OnlyAddressTextPasses`
      can speak only of the text before the first NUL. */
  lemma NulEscapeUrlAllowed(p: Platform)
    requires p.parseV4("8.8.8.8") == Some(FromOctets(8, 8, 8, 8))
    requires p.resolve("8.8.8.8") == Some([Inet(FromOctets(8, 8, 8, 8))])
    ensures GetHost(Normalized(SchemeHttp + UrlSchemeSep + "8.8.8.8" + "%00" + "zz" + "/", p.scanHex)) ==
      NulSuffixedHost
    ensures Classify(SchemeHttp + UrlSchemeSep + "8.8.8.8" + "%00" + "zz" + "/", p) == Allowed
    ensures exists i :: 0 <= i < |NulSuffixedHost| && NulSuffixedHost[i] !in V6Chars
  {
    NulEscapeUrlClassified("8.8.8.8", "zz", p);
    NulSuffixedHostPasses(p);
    NulSuffixedHostNotAddressText();
  }
}
