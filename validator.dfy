/** `ssrf::validateUrl`: the pipeline that normalizes the URL, checks its
    scheme, extracts and lower-cases its host, and then rejects it at the
    first check that fails. */
module Validator {
  import opened Wrappers
  import opened Strings
  import opened SsrfConstants
  import opened Normalizer
  import opened UrlParser
  import opened HostnameClassifier
  import opened IpEncoding
  import opened Ipv4Ranges
  import opened Ipv6Ranges
  import opened Environment
  import opened IpLiteral
  import opened DnsGuard

  /** Which step decided the outcome. */
  datatype Verdict =
    | Allowed
    | SchemeNotAllowed
    | EmptyHost
    | HostNotIpLiteral
    | HostnameBlocked
    | IpBlocked
    | ResolutionBlocked

  /** The checks on the extracted, lower-cased host, in order. */
  function HostVerdict(host: string, p: Platform): Verdict {
    if !IsIpLiteralHost(host, p) then HostNotIpLiteral
    else if IsBlockedHostname(host) then HostnameBlocked
    else if IsBlockedIp(host, p) then IpBlocked
    else if ResolvesToBlocked(p.resolve(CStr(host))) then ResolutionBlocked
    else Allowed
  }

  /** The steps of `validateUrl` in order; the first failing one decides. */
  function Classify(url: string, p: Platform): Verdict {
    var normalized := Normalized(url, p.scanHex);
    if !IsAllowedScheme(GetScheme(normalized)) then SchemeNotAllowed
    else if GetHost(normalized) == [] then EmptyHost
    else HostVerdict(Lowered(GetHost(normalized)), p)
  }

  /** Steps 3 to 6 of `validateUrl` on the lower-cased host. */
  method CheckHost(host: string, p: Platform) returns (v: Verdict)
    ensures v == HostVerdict(host, p)
  {
    if !IsIpLiteralHost(host, p) {
      return HostNotIpLiteral;
    }
    if IsBlockedHostname(host) {
      return HostnameBlocked;
    }
    var blockedIp := CheckBlockedIp(host, p);
    if blockedIp {
      return IpBlocked;
    }
    var blockedDns := DnsResolvesToBlockedIp(host, p);
    if blockedDns {
      return ResolutionBlocked;
    }
    return Allowed;
  }

  /** `ssrf::validateUrl`: true exactly when every step passes. */
  method ValidateUrl(url: string, p: Platform) returns (ok: bool)
    ensures ok <==> Classify(url, p) == Allowed
  {
    var normalized := NormalizeUrl(url, p.scanHex);
    var scheme := GetScheme(normalized);
    if !IsAllowedScheme(scheme) {
      return false;
    }
    var extracted := GetHost(normalized);
    if |extracted| == 0 {
      return false;
    }
    var buffer := new char[|extracted|](i requires 0 <= i < |extracted| => extracted[i]);
    LowerInPlace(buffer);
    var host := buffer[..];
    assert host == Lowered(extracted);
    var verdict := CheckHost(host, p);
    assert Classify(url, p) == verdict;
    return verdict == Allowed;
  }

  /** Every character of an extracted host comes from the URL, so the host
      of a URL without upper-case letters has none either. */
  lemma HostOfLowercaseUrl(url: string)
    requires NoUpper(url)
    ensures NoUpper(GetHost(url))
  {
    var r := GetHost(url);
    match HostStart(url)
    case None =>
    case Some(start) =>
      if start < |url| && url[start] == BracketOpen {
        if r != [] {
          forall k | 0 <= k < |r| ensures !IsUpper(r[k]) {
            assert r[k] == url[start + 1 + k];
          }
        }
      } else {
        forall k | 0 <= k < |r| ensures !IsUpper(r[k]) {
          assert r[k] == url[start + k];
        }
      }
  }

  /** The second lower-casing in `validateUrl` changes nothing: the host
      comes from a URL that is already lower-case. */
  lemma HostAlreadyLowercase(url: string, scan: HexScanner)
    ensures Lowered(GetHost(Normalized(url, scan))) == GetHost(Normalized(url, scan))
  {
    HostOfLowercaseUrl(Normalized(url, scan));
    LoweredIdentity(GetHost(Normalized(url, scan)));
  }

  /** A URL is allowed exactly when its normalized scheme is `http` or
      `https`, its host is a non-empty IP literal that is on none of the
      host-name lists and not spelled suspiciously, the address it denotes
      lies in none of the named IPv4 and IPv6 blocks, and the host resolves
      to addresses none of which lies in a named block. */
  lemma {:induction false} AllowedExactly(url: string, p: Platform)
    ensures Classify(url, p) == Allowed <==>
      var normalized := Normalized(url, p.scanHex);
      var host := GetHost(normalized);
      && IsAllowedScheme(GetScheme(normalized))
      && host != []
      && IsIpLiteralHost(host, p)
      && host !in ExactBlockedNames && !ContainsBlockedFragment(host)
      && host !in DegenerateHosts && !IsUnicodeOrIdn(host)
      && !SuspiciousEncoding(host)
      && !InNamedBlockAddr(LiteralAddress(host, p).value)
      && p.resolve(CStr(host)).Some?
      && forall i :: 0 <= i < |p.resolve(CStr(host)).value| ==> !InNamedBlockAddr(p.resolve(CStr(host)).value[i])
  {
    var normalized := Normalized(url, p.scanHex);
    var host := GetHost(normalized);
    HostAlreadyLowercase(url, p.scanHex);
    BlockedHostnameCharacterization(host);
    BlockedIpMeansSuspiciousOrNamedBlock(host, p);
    if p.resolve(CStr(host)).Some? {
      var entries := p.resolve(CStr(host)).value;
      forall i | 0 <= i < |entries| ensures EntryIsPrivate(entries[i]) <==> InNamedBlockAddr(entries[i]) {
        EntryIsPrivateMeansNamedBlock(entries[i]);
      }
    }
  }

  /** Only an `http` or `https` URL is allowed: the normalized URL starts
      with its scheme, `http` or `https`, followed by "://". */
  lemma SchemeGate(url: string, p: Platform)
    requires Classify(url, p) == Allowed
    ensures var normalized := Normalized(url, p.scanHex);
      var scheme := GetScheme(normalized);
      (scheme == SchemeHttp || scheme == SchemeHttps) &&
      |scheme| + 3 <= |normalized| && normalized[..|scheme| + 3] == scheme + UrlSchemeSep
  {
    var normalized := Normalized(url, p.scanHex);
    SchemePrefix(normalized);
  }

  /** On a platform whose parsers accept only address characters, the part
      of an allowed URL's host that the C library reads, up to the first
      NUL, is made of hexadecimal digits, ':' and '.'; so is the whole host
      when it has no NUL. Text after a NUL, which `%00` in the URL decodes
      to, is checked only by the host-name and spelling tests. */
  lemma OnlyAddressTextPasses(url: string, p: Platform)
    requires ParsersRejectNames(p) && Classify(url, p) == Allowed
    ensures var text := CStr(GetHost(Normalized(url, p.scanHex)));
      forall i :: 0 <= i < |text| ==> text[i] in V6Chars
    ensures var host := GetHost(Normalized(url, p.scanHex));
      '\0' !in host ==> forall i :: 0 <= i < |host| ==> host[i] in V6Chars
  {
    var text := CStr(GetHost(Normalized(url, p.scanHex)));
    AllowedExactly(url, p);
    if p.parseV4(text).Some? {
      forall i | 0 <= i < |text| ensures text[i] in V6Chars {
        assert text[i] in V4Chars;
      }
    }
  }
}
