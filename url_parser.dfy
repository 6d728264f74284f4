/** Extraction of the two URL fields the guard needs: the scheme and the host. */
module UrlParser {
  import opened Wrappers
  import opened Strings
  import opened SsrfConstants

  /** `isAllowedScheme`: only `http` and `https` are accepted. */
  predicate IsAllowedScheme(s: string) {
    s == SchemeHttp || s == SchemeHttps
  }

  /** `getScheme`: the text before the first "://", or "" when there is none. */
  function GetScheme(url: string): (r: string)
    ensures !Contains(url, UrlSchemeSep) ==> r == ""
    ensures Contains(url, UrlSchemeSep) ==>
      OccursAt(url, UrlSchemeSep, |r|) && r == url[..|r|] &&
      forall i: nat :: i < |r| ==> !OccursAt(url, UrlSchemeSep, i)
  {
    match Find(url, UrlSchemeSep, 0)
    case None => ""
    case Some(p) => url[..p]
  }

  /** No URL delimiter (one of ":/?#") at an index in `[from, to)`. */
  predicate NoDelimBetween(url: string, from: nat, to: nat)
    requires to <= |url|
  {
    forall k :: from <= k < to ==> url[k] !in UrlDelimChars
  }

  /** Where the authority begins: just after the first "://". */
  function AuthorityStart(url: string): (r: Option<nat>)
    ensures r.None? <==> !Contains(url, UrlSchemeSep)
    ensures r.Some? ==> 3 <= r.value <= |url| && OccursAt(url, UrlSchemeSep, r.value - 3)
    ensures r.Some? ==> forall i: nat :: i + 3 < r.value ==> !OccursAt(url, UrlSchemeSep, i)
  {
    match Find(url, UrlSchemeSep, 0)
    case None => None
    case Some(p) => Some(p + 3)
  }

  /** Where the host begins once credentials are stripped: after the last '@'
      that lies strictly after the authority start and before the first
      delimiter that follows the authority start. */
  function HostStart(url: string): (r: Option<nat>)
    ensures r.None? <==> !Contains(url, UrlSchemeSep)
    ensures r.Some? ==> var a := AuthorityStart(url).value;
      && a <= r.value <= |url|
      // a '@' was stripped only if it came before every delimiter
      && (r.value > a ==> r.value - 1 > a && url[r.value - 1] == AtSymbol && NoDelimBetween(url, a, r.value - 1))
      // and it was the last such '@'
      && (forall j :: r.value <= j < |url| && j > a && url[j] == AtSymbol ==> !NoDelimBetween(url, a, j))
  {
    match AuthorityStart(url)
    case None => None
    case Some(a) =>
      var delim := FindFirstOf(url, UrlDelimChars, a);
      var at := FindLastOf(url, AtSymbol, delim);
      if at.Some? && at.value > a then Some(at.value + 1) else Some(a)
  }

  /** A bracketed literal starting at `st`: the text up to the first ']',
      which it does not contain, or "" when there is no ']'. */
  function BracketedHost(url: string, st: nat): (r: string)
    requires st < |url| && url[st] == BracketOpen
    ensures BracketClose[0] !in url[st..] ==> r == ""
    ensures BracketClose[0] in url[st..] ==>
      st + 1 + |r| < |url| && r == url[st + 1..st + 1 + |r|] && url[st + 1 + |r|] == BracketClose[0] &&
      BracketClose[0] !in r
  {
    match FindFirstOf(url, BracketClose, st)
    case None => ""
    case Some(end) => url[st + 1..end]
  }

  /** A plain host starting at `st`: the text up to the next delimiter or the
      end, which contains no delimiter. */
  function DelimitedHost(url: string, st: nat): (r: string)
    requires st <= |url|
    ensures st + |r| <= |url| && r == url[st..st + |r|]
    ensures NoDelimBetween(url, st, st + |r|)
    ensures st + |r| == |url| || url[st + |r|] in UrlDelimChars
  {
    match FindFirstOf(url, UrlDelimChars, st)
    case None => url[st..]
    case Some(end) => url[st..end]
  }

  /** `getHost`: the host of the URL, or "" when it has none. A host starting
      with '[' is a bracketed literal; any other host runs to the next delimiter. */
  function GetHost(url: string): (r: string)
    ensures !Contains(url, UrlSchemeSep) ==> r == ""
  {
    match HostStart(url)
    case None => ""
    case Some(start) =>
      if start >= |url| then ""
      else if url[start] == BracketOpen then BracketedHost(url, start)
      else DelimitedHost(url, start)
  }

  /** A URL whose scheme is allowed starts with that scheme and "://". */
  lemma SchemePrefix(url: string)
    requires IsAllowedScheme(GetScheme(url))
    ensures var scheme := GetScheme(url);
      |scheme| + 3 <= |url| && url[..|scheme| + 3] == scheme + UrlSchemeSep
  {
    var scheme := GetScheme(url);
    OccursAtIff(url, UrlSchemeSep, |scheme|);
  }

  /** The first "://" of a URL whose scheme has no ':' ends the scheme. */
  lemma SchemeSepAfterScheme(scheme: string, tail: string)
    requires ':' !in scheme
    ensures Find(scheme + UrlSchemeSep + tail, UrlSchemeSep, 0) == Some(|scheme|)
  {
    var url := scheme + UrlSchemeSep + tail;
    ContainsInConcat(scheme, UrlSchemeSep, tail);
    forall i: nat | i < |scheme| ensures !OccursAt(url, UrlSchemeSep, i) {
      assert url[i] == scheme[i];
    }
  }

  /** A host with no delimiter, starting at `a`, is followed by the first
      delimiter at or after `a`, if any. */
  lemma DelimAfterHost(url: string, a: nat, host: string, rest: string)
    requires a <= |url| && url[a..] == host + rest
    requires forall k :: 0 <= k < |host| ==> host[k] !in UrlDelimChars
    requires rest == [] || rest[0] in UrlDelimChars
    ensures FindFirstOf(url, UrlDelimChars, a) == if rest == [] then None else Some(a + |host|)
  {
    forall i | a <= i < a + |host| ensures url[i] !in UrlDelimChars {
      assert url[i] == url[a..][i - a] == host[i - a];
    }
    if rest != [] {
      assert url[a + |host|] == url[a..][|host|] == rest[0];
    }
  }

  /** No '@' strictly after `a` and at or before the delimiter ending the host. */
  lemma NoAtInHost(url: string, a: nat, host: string, rest: string)
    requires a <= |url| && url[a..] == host + rest && AtSymbol !in host
    requires rest == [] || rest[0] in UrlDelimChars
    ensures var at := FindLastOf(url, AtSymbol, if rest == [] then None else Some(a + |host|));
      !(at.Some? && at.value > a)
  {
    forall i | a < i < a + |host| ensures url[i] != AtSymbol {
      assert url[i] == url[a..][i - a] == host[i - a];
    }
  }

  /** The scheme and host a URL was built from are the ones extracted from
      it, when the scheme has no ':', the host is non-empty, does not start
      with '[', and holds no delimiter and no '@', and what follows the host
      is empty or starts with a delimiter. */
  lemma {:induction false} UrlRoundTrip(scheme: string, host: string, rest: string)
    requires ':' !in scheme
    requires |host| > 0 && host[0] != BracketOpen && AtSymbol !in host
    requires forall k :: 0 <= k < |host| ==> host[k] !in UrlDelimChars
    requires rest == [] || rest[0] in UrlDelimChars
    ensures GetScheme(scheme + UrlSchemeSep + host + rest) == scheme
    ensures GetHost(scheme + UrlSchemeSep + host + rest) == host
  {
    var url := scheme + UrlSchemeSep + host + rest;
    var a := |scheme| + 3;
    assert url == scheme + UrlSchemeSep + (host + rest);
    SchemeSepAfterScheme(scheme, host + rest);
    assert url[a..] == host + rest;
    DelimAfterHost(url, a, host, rest);
    NoAtInHost(url, a, host, rest);
    assert HostStart(url) == Some(a);
    assert url[a] == host[0];
    assert url[a..a + |host|] == host;
  }

  /** With no '@' after the authority start, no credentials are stripped. */
  lemma NoAtAfterAuthority(url: string, a: nat)
    requires AuthorityStart(url) == Some(a)
    requires forall i :: a < i < |url| ==> url[i] != AtSymbol
    ensures HostStart(url) == Some(a)
  {
  }

  /** A '@' at the authority start `a`, with no other '@' after it up to
      the delimiter ending the host, is not stripped. */
  lemma LoneAtNotStripped(url: string, a: nat, host: string, rest: string)
    requires AuthorityStart(url) == Some(a)
    requires a <= |url| && url[a..] == [AtSymbol] + host + rest && AtSymbol !in host
    requires forall k :: 0 <= k < |host| ==> host[k] !in UrlDelimChars
    requires rest == [] || rest[0] in UrlDelimChars
    ensures HostStart(url) == Some(a)
  {
    var tail := url[a..];
    forall i | a < i < a + 1 + |host| ensures url[i] !in UrlDelimChars && url[i] != AtSymbol {
      assert url[i] == tail[i - a] == host[i - a - 1];
    }
    assert url[a] == tail[0] == AtSymbol;
    if rest != [] {
      assert url[a + 1 + |host|] == tail[1 + |host|] == rest[0];
    }
  }

  /** A host with no delimiter at `a`, followed by a delimiter or the end,
      is the delimited host there. */
  lemma DelimitedHostIs(url: string, a: nat, host: string, rest: string)
    requires a <= |url| && url[a..] == host + rest
    requires forall k :: 0 <= k < |host| ==> host[k] !in UrlDelimChars
    requires rest == [] || rest[0] in UrlDelimChars
    ensures DelimitedHost(url, a) == host
  {
    DelimAfterHost(url, a, host, rest);
    assert url[a..a + |host|] == url[a..][..|host|] == host;
  }

  /** Once the host start `a` is known, a host that does not start with '['
      is the text up to the delimiter that follows it. */
  lemma PlainHostAt(url: string, a: nat, host: string, rest: string)
    requires HostStart(url) == Some(a)
    requires a <= |url| && url[a..] == host + rest
    requires |host| > 0 && host[0] != BracketOpen
    requires forall k :: 0 <= k < |host| ==> host[k] !in UrlDelimChars
    requires rest == [] || rest[0] in UrlDelimChars
    ensures GetHost(url) == host
  {
    assert url[a] == url[a..][0] == host[0];
    DelimitedHostIs(url, a, host, rest);
  }

  /** With the authority starting at a '@' that no other '@' follows before
      the delimiter ending the host, that '@' begins the host. */
  lemma LeadingAtHost(url: string, a: nat, host: string, rest: string)
    requires AuthorityStart(url) == Some(a)
    requires a <= |url| && url[a..] == [AtSymbol] + host + rest && AtSymbol !in host
    requires forall k :: 0 <= k < |host| ==> host[k] !in UrlDelimChars
    requires rest == [] || rest[0] in UrlDelimChars
    ensures GetHost(url) == [AtSymbol] + host
  {
    var name := [AtSymbol] + host;
    LoneAtNotStripped(url, a, host, rest);
    forall k | 0 <= k < |name| ensures name[k] !in UrlDelimChars {
      if k > 0 { assert name[k] == host[k - 1]; }
    }
    PlainHostAt(url, a, name, rest);
  }

  /** A '@' right after "://" is not stripped: it is kept as the first
      character of the host, when no other '@' follows before the delimiter
      that ends the host. */
  lemma {:induction false} LeadingAtKept(scheme: string, host: string, rest: string)
    requires ':' !in scheme
    requires AtSymbol !in host
    requires forall k :: 0 <= k < |host| ==> host[k] !in UrlDelimChars
    requires rest == [] || rest[0] in UrlDelimChars
    ensures GetHost(scheme + UrlSchemeSep + [AtSymbol] + host + rest) == [AtSymbol] + host
  {
    var tail := [AtSymbol] + host + rest;
    var url := scheme + UrlSchemeSep + tail;
    assert url == scheme + UrlSchemeSep + [AtSymbol] + host + rest;
    SchemeSepAfterScheme(scheme, tail);
    assert url[|scheme| + 3..] == tail;
    LeadingAtHost(url, |scheme| + 3, host, rest);
  }

  /** `http://@8.8.8.8/` has the host `@8.8.8.8`. */
  lemma LeadingAtExample()
    ensures GetHost(SchemeHttp + UrlSchemeSep + [AtSymbol] + "8.8.8.8" + "/") == [AtSymbol] + "8.8.8.8"
  {
    LeadingAtKept(SchemeHttp, "8.8.8.8", "/");
  }

  /** A bracketed literal at `st` is the text between the brackets. */
  lemma BracketedHostIs(url: string, st: nat, lit: string, rest: string)
    requires st <= |url| && url[st..] == [BracketOpen] + lit + BracketClose + rest
    requires BracketClose[0] !in lit
    ensures st < |url| && url[st] == BracketOpen && BracketedHost(url, st) == lit
  {
    var tail := url[st..];
    assert url[st] == tail[0];
    forall i | st <= i < st + 1 + |lit| ensures url[i] != BracketClose[0] {
      assert url[i] == tail[i - st];
    }
    assert url[st + 1 + |lit|] == tail[1 + |lit|];
    assert url[st + 1..st + 1 + |lit|] == tail[1..1 + |lit|] == lit;
  }

  /** A bracketed literal is extracted without its brackets, when the scheme
      has no ':', the literal has no ']' and no '@' follows the "://". */
  lemma {:induction false} BracketedRoundTrip(scheme: string, lit: string, rest: string)
    requires ':' !in scheme
    requires BracketClose[0] !in lit && AtSymbol !in lit && AtSymbol !in rest
    ensures GetScheme(scheme + UrlSchemeSep + [BracketOpen] + lit + BracketClose + rest) == scheme
    ensures GetHost(scheme + UrlSchemeSep + [BracketOpen] + lit + BracketClose + rest) == lit
  {
    var tail := [BracketOpen] + lit + BracketClose + rest;
    var url := scheme + UrlSchemeSep + tail;
    var a := |scheme| + 3;
    assert url == scheme + UrlSchemeSep + [BracketOpen] + lit + BracketClose + rest;
    SchemeSepAfterScheme(scheme, tail);
    assert url[a..] == tail;
    forall i | a < i < |url| ensures url[i] != AtSymbol {
      assert url[i] == tail[i - a];
    }
    assert url[..|scheme|] == scheme;
    NoAtAfterAuthority(url, a);
    BracketedHostIs(url, a, lit, rest);
  }
}
