/**
  The URL host gate (`validateUrlHost`): parse the URL, insist that its host
  resolves, and only then consult the denylist.  The gate fails closed: a host
  that resolves to nothing is reported as unresolvable, never allowed.
 */
module UrlGate {
  import opened Wrappers
  import opened HostNames
  import opened Urls
  import opened Denylist

  datatype Verdict =
    | Allowed
    | Denied        // IllegalArgumentException "Host of url is denied ..."
    | Unresolvable  // UnknownHostException from the resolution check
    | BadUrl        // MalformedURLException from the URL constructor

  function ValidateUrlHost(parse: UrlParser, resolve: Resolver, url: string, entries: seq<DenyEntry>)
    : (d: Verdict)
    ensures d == BadUrl <==> parse(url).None?
    ensures d == Unresolvable <==> parse(url).Some? && |resolve(parse(url).value.host)| == 0
    ensures d == Denied
        <==> parse(url).Some?
             && var host := parse(url).value.host;
                |resolve(host)| > 0 && SomeEntryDenies(host, resolve(host), entries)
    ensures d == Allowed
        <==> parse(url).Some?
             && var host := parse(url).value.host;
                |resolve(host)| > 0 && !SomeEntryDenies(host, resolve(host), entries)
  {
    match parse(url)
    case None => BadUrl
    case Some(u) =>
      if |resolve(u.host)| == 0 then Unresolvable
      else if IsHostInDenylist(parse, resolve, url, entries) == Success(true) then Denied
      else Allowed
  }

  /** Fail closed: an allowed URL parsed, resolved, and matched no entry. */
  lemma AllowedMeansResolvedAndUnmatched(parse: UrlParser, resolve: Resolver, url: string, entries: seq<DenyEntry>)
    requires ValidateUrlHost(parse, resolve, url, entries) == Allowed
    ensures parse(url).Some?
    ensures |resolve(parse(url).value.host)| > 0
    ensures forall k :: 0 <= k < |entries| ==>
      !SameHost(entries[k].text, parse(url).value.host)
      && !AddressDenied(resolve(parse(url).value.host), entries[k])
  {
  }

  /**
    The resolution check comes first: a host that resolves to nothing is
    unresolvable even when the denylist names it.
   */
  lemma UnresolvableBeforeDenylist(parse: UrlParser, resolve: Resolver, url: string, entries: seq<DenyEntry>, k: nat)
    requires parse(url).Some? && |resolve(parse(url).value.host)| == 0
    requires k < |entries| && SameHost(entries[k].text, parse(url).value.host)
    ensures ValidateUrlHost(parse, resolve, url, entries) == Unresolvable
  {
  }

  /** With an empty denylist every parsed, resolvable URL is allowed. */
  lemma EmptyDenylistAllowsResolvable(parse: UrlParser, resolve: Resolver, url: string)
    requires parse(url).Some? && |resolve(parse(url).value.host)| > 0
    ensures ValidateUrlHost(parse, resolve, url, []) == Allowed
  {
  }

  /** Adding entries never turns a denial into an allow. */
  lemma MoreEntriesNeverAllow(parse: UrlParser, resolve: Resolver, url: string, small: seq<DenyEntry>, large: seq<DenyEntry>)
    requires forall e :: e in small ==> e in large
    requires ValidateUrlHost(parse, resolve, url, small) == Denied
    ensures ValidateUrlHost(parse, resolve, url, large) == Denied
  {
    var host := parse(url).value.host;
    assert HostDenied(host, resolve(host), small);
    MoreEntriesStillDeny(host, resolve(host), small, large);
  }

  /** Reordering the denylist never changes the verdict. */
  lemma VerdictIgnoresOrder(parse: UrlParser, resolve: Resolver, url: string, xs: seq<DenyEntry>, ys: seq<DenyEntry>)
    requires multiset(xs) == multiset(ys)
    ensures ValidateUrlHost(parse, resolve, url, xs) == ValidateUrlHost(parse, resolve, url, ys)
  {
    if parse(url).Some? {
      var host := parse(url).value.host;
      OrderIrrelevant(host, resolve(host), xs, ys);
    }
  }
}
