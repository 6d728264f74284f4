/** The host-name blocklist: exact names of loopback aliases, metadata
    endpoints and cluster-internal services; reserved suffixes matched as
    substrings; degenerate hosts; and non-ASCII or punycode (IDN) hosts. */
module HostnameClassifier {
  import opened Strings
  import opened SsrfConstants

  /** The host has a byte above 127 or contains the punycode prefix "xn--". */
  predicate IsUnicodeOrIdn(host: string) {
    (exists i :: 0 <= i < |host| && host[i] as int > 127) || Contains(host, IdnPrefix)
  }

  /** `hasUnicodeOrIDN`: scans the bytes, then looks for "xn--". */
  method HasUnicodeOrIdn(host: string) returns (r: bool)
    ensures r == IsUnicodeOrIdn(host)
  {
    for i := 0 to |host|
      invariant forall k :: 0 <= k < i ==> host[k] as int <= 127
    {
      if host[i] as int > 127 {
        return true;
      }
    }
    r := Contains(host, IdnPrefix);
  }

  /** `isBlockedHostname`, check by check in the order of the source. */
  predicate IsBlockedHostname(host: string) {
    // localhost aliases
    if host == LocalhostName || host == LocalhostDomain || host == LocalhostIpv4 ||
       host == LocalhostIpv6 || host == UnspecifiedIpv4 ||
       host == Ip6Localhost || host == Ip6Loopback then true
    // AWS metadata
    else if host == AwsMetadataIpv4 || host == AwsMetadataIpv4Alt || host == AwsMetadataIpv6 then true
    // GCP metadata
    else if host == GcpMetadataHost || host == GcpMetadataShort || Contains(host, GcpMetadataGoog) then true
    // Azure and Alibaba metadata
    else if host == AzureMetadataHost || host == AlibabaMetadataIpv4 then true
    // Kubernetes
    else if host == K8sDefault || host == K8sDefaultSvc || host == K8sDefaultFull ||
            Contains(host, TldInternal) then true
    // Docker
    else if host == DockerInternal || host == DockerHostInternal then true
    // internal TLDs
    else if Contains(host, TldLocal) || Contains(host, TldLocalhost) || Contains(host, TldTest) ||
            Contains(host, TldExample) || Contains(host, TldInvalid) then true
    // degenerate hosts
    else if host == "" || host == Dot || host == DoubleDot || host == Dash then true
    else IsUnicodeOrIdn(host)
  }

  /** The exact names that no substring check already covers. */
  const ExactBlockedNames: set<string> := {
    LocalhostName, LocalhostIpv4, LocalhostIpv6, UnspecifiedIpv4, Ip6Localhost, Ip6Loopback,
    AwsMetadataIpv4, AwsMetadataIpv4Alt, AwsMetadataIpv6, GcpMetadataShort,
    AzureMetadataHost, AlibabaMetadataIpv4, K8sDefault, K8sDefaultSvc
  }

  /** The substrings that block a host wherever they occur. */
  const BlockedFragments: seq<string> := [TldInternal, GcpMetadataGoog, TldLocal, TldTest, TldExample, TldInvalid]

  const DegenerateHosts: set<string> := {"", Dot, DoubleDot, Dash}

  predicate ContainsBlockedFragment(host: string) {
    exists k :: 0 <= k < |BlockedFragments| && Contains(host, BlockedFragments[k])
  }

  /** Every blocked host falls in one of the four groups: the exact names
      left out of `ExactBlockedNames` and the `.localhost` suffix are already
      caught by the `.local` and `.internal` substring checks. */
  lemma {:induction false} BlockedHostnameInGroups(host: string)
    requires IsBlockedHostname(host)
    ensures host in ExactBlockedNames || ContainsBlockedFragment(host) ||
            host in DegenerateHosts || IsUnicodeOrIdn(host)
  {
    LocalNamesContainLocal();
    GcpNameContainsInternal();
    DockerNamesContainInternal();
    LocalhostSuffixCoveredByLocal(host);
    if Contains(host, TldInternal) { assert BlockedFragments[0] == TldInternal; }
    if Contains(host, GcpMetadataGoog) { assert BlockedFragments[1] == GcpMetadataGoog; }
    if Contains(host, TldLocal) { assert BlockedFragments[2] == TldLocal; }
    if Contains(host, TldTest) { assert BlockedFragments[3] == TldTest; }
    if Contains(host, TldExample) { assert BlockedFragments[4] == TldExample; }
    if Contains(host, TldInvalid) { assert BlockedFragments[5] == TldInvalid; }
  }

  /** Every host containing one of the six fragments is blocked. */
  lemma FragmentsAreBlocked(host: string)
    requires ContainsBlockedFragment(host)
    ensures IsBlockedHostname(host)
  {
    var k :| 0 <= k < |BlockedFragments| && Contains(host, BlockedFragments[k]);
    assert k == 0 || k == 1 || k == 2 || k == 3 || k == 4 || k == 5;
  }

  /** Every irredundant exact name is blocked. */
  lemma ExactNamesAreBlocked(host: string)
    requires host in ExactBlockedNames
    ensures IsBlockedHostname(host)
  {
  }

  /** Every host in one of the four groups is blocked. */
  lemma GroupsAreBlocked(host: string)
    requires host in ExactBlockedNames || ContainsBlockedFragment(host) ||
             host in DegenerateHosts || IsUnicodeOrIdn(host)
    ensures IsBlockedHostname(host)
  {
    if host in ExactBlockedNames {
      ExactNamesAreBlocked(host);
    } else if ContainsBlockedFragment(host) {
      FragmentsAreBlocked(host);
    }
  }

  /** A host is blocked exactly when it is one of the irredundant exact names,
      contains one of six fragments, is degenerate, or is non-ASCII or IDN. */
  lemma BlockedHostnameCharacterization(host: string)
    ensures IsBlockedHostname(host) <==>
      host in ExactBlockedNames || ContainsBlockedFragment(host) ||
      host in DegenerateHosts || IsUnicodeOrIdn(host)
  {
    if IsBlockedHostname(host) {
      BlockedHostnameInGroups(host);
    } else if host in ExactBlockedNames || ContainsBlockedFragment(host) ||
              host in DegenerateHosts || IsUnicodeOrIdn(host) {
      GroupsAreBlocked(host);
    }
  }

  /** A public IPv4 literal is not on the list. */
  lemma PublicIpv4NotBlocked()
    ensures !IsBlockedHostname("8.8.8.8")
  {
    var h := "8.8.8.8";
    assert h !in ExactBlockedNames;
    assert !ContainsBlockedFragment(h);
    assert h !in DegenerateHosts;
    assert !IsUnicodeOrIdn(h);
    BlockedHostnameCharacterization(h);
  }

  /** An ordinary domain name is not on the list: the `.example` check needs
      the leading dot. */
  lemma OrdinaryDomainNotBlocked()
    ensures !IsBlockedHostname("example.com")
  {
    var h := "example.com";
    assert h !in ExactBlockedNames;
    assert !ContainsBlockedFragment(h);
    assert h !in DegenerateHosts;
    assert !IsUnicodeOrIdn(h);
    BlockedHostnameCharacterization(h);
  }
}
