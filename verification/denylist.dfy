/**
  The host denylist matcher (`isHostInDenylist`).

  Each configured denylist string is read two ways: as an address or CIDR
  network (`network`, `None` when the string is not an address literal) and as
  a host name (`text`).  The URL's host is denied when some entry names the
  same host, or when some address the host resolved to lies inside some
  entry's network.  Matching is existential: the first entry that matches
  ends the scan, but which one it is never changes the answer.
 */
module Denylist {
  import opened Wrappers
  import opened Addresses
  import opened HostNames
  import opened Urls

  /** One denylist string, already parsed both ways. */
  datatype DenyEntry = DenyEntry(text: string, network: Option<Network>)

  /** The resolver: host name to addresses; failure is the empty sequence. */
  type Resolver = string -> seq<Address>

  // ---------------------------------------------------------------------------
  // Specification
  // ---------------------------------------------------------------------------

  /** Some resolved address lies inside the entry's network. */
  ghost predicate AddressDenied(addrs: seq<Address>, e: DenyEntry) {
    e.network.Some? && exists i :: 0 <= i < |addrs| && Contains(e.network.value, addrs[i])
  }

  /** Entry `e` denies `host`, which resolved to `addrs`. */
  ghost predicate EntryDenies(host: string, addrs: seq<Address>, e: DenyEntry) {
    SameHost(e.text, host) || AddressDenied(addrs, e)
  }

  ghost predicate SomeEntryDenies(host: string, addrs: seq<Address>, entries: seq<DenyEntry>) {
    exists k :: 0 <= k < |entries| && EntryDenies(host, addrs, entries[k])
  }

  // ---------------------------------------------------------------------------
  // The matcher, loop by loop
  // ---------------------------------------------------------------------------

  /** The inner loop: scan the resolved addresses, stopping at the first hit. */
  function AnyResolvedInNetwork(network: Option<Network>, addrs: seq<Address>): (r: bool)
    ensures r <==> network.Some? && exists i :: 0 <= i < |addrs| && Contains(network.value, addrs[i])
    decreases |addrs|
  {
    if |addrs| == 0 then false
    else if network.Some? && Contains(network.value, addrs[0]) then true
    else
      var rest := AnyResolvedInNetwork(network, addrs[1..]);
      assert forall i :: 1 <= i < |addrs| ==> addrs[i] == addrs[1..][i - 1];
      rest
  }

  /** One pass of the outer loop body: the host-name test or the address test. */
  function EntryMatches(host: string, addrs: seq<Address>, e: DenyEntry): (r: bool)
    ensures r <==> EntryDenies(host, addrs, e)
  {
    var hostInDenyList := SameHost(e.text, host);
    var ipInDenyList := AnyResolvedInNetwork(e.network, addrs);
    hostInDenyList || ipInDenyList
  }

  /** The outer loop from entry `from` on: the index of the first matching entry. */
  function FirstMatchFrom(host: string, addrs: seq<Address>, entries: seq<DenyEntry>, from: nat): (r: Option<nat>)
    requires from <= |entries|
    ensures r.Some? ==> from <= r.value < |entries| && EntryDenies(host, addrs, entries[r.value])
    ensures r.Some? ==> forall k :: from <= k < r.value ==> !EntryDenies(host, addrs, entries[k])
    ensures r.None? ==> forall k :: from <= k < |entries| ==> !EntryDenies(host, addrs, entries[k])
    decreases |entries| - from
  {
    if from == |entries| then None
    else if EntryMatches(host, addrs, entries[from]) then Some(from)
    else FirstMatchFrom(host, addrs, entries, from + 1)
  }

  /** The index of the first entry that denies the host, if any. */
  function FirstMatch(host: string, addrs: seq<Address>, entries: seq<DenyEntry>): (r: Option<nat>)
    ensures r.Some? ==> r.value < |entries| && EntryDenies(host, addrs, entries[r.value])
    ensures r.Some? ==> forall k :: 0 <= k < r.value ==> !EntryDenies(host, addrs, entries[k])
    ensures r.None? <==> !SomeEntryDenies(host, addrs, entries)
  {
    FirstMatchFrom(host, addrs, entries, 0)
  }

  /** The decision of lines 56-73: denied iff some entry matches. */
  function HostDenied(host: string, addrs: seq<Address>, entries: seq<DenyEntry>): (denied: bool)
    ensures denied <==> SomeEntryDenies(host, addrs, entries)
  {
    FirstMatch(host, addrs, entries).Some?
  }

  /**
    `isHostInDenylist` as a whole.  A malformed URL escapes as an error (the
    constructor runs outside the `try`); a host that does not resolve is
    reported as not denied (the `UnknownHostException` branch), before any
    entry is looked at.
   */
  function IsHostInDenylist(parse: UrlParser, resolve: Resolver, url: string, entries: seq<DenyEntry>)
    : (r: Result<bool, UrlError>)
    ensures r.Failure? <==> parse(url).None?
    ensures r.Failure? ==> r.error == MalformedUrl
    ensures r == Success(true)
        <==> parse(url).Some?
             && var host := parse(url).value.host;
                |resolve(host)| > 0 && SomeEntryDenies(host, resolve(host), entries)
  {
    match parse(url)
    case None => Failure(MalformedUrl)
    case Some(u) =>
      var resolved := resolve(u.host);
      if |resolved| == 0 then Success(false)
      else Success(HostDenied(u.host, resolved, entries))
  }

  // ---------------------------------------------------------------------------
  // Properties
  // ---------------------------------------------------------------------------

  /** An empty denylist denies nothing. */
  lemma EmptyDenylistAllows(host: string, addrs: seq<Address>)
    ensures !HostDenied(host, addrs, [])
  {
  }

  /** A deny entry naming the host denies it whatever the host resolved to. */
  lemma NamedHostDenied(host: string, addrs: seq<Address>, entries: seq<DenyEntry>, k: nat)
    requires k < |entries| && SameHost(entries[k].text, host)
    ensures HostDenied(host, addrs, entries)
  {
  }

  /** A resolved address inside some entry's network denies the host. */
  lemma ResolvedAddressDenied(host: string, addrs: seq<Address>, entries: seq<DenyEntry>, k: nat, i: nat)
    requires k < |entries| && i < |addrs|
    requires entries[k].network.Some? && Contains(entries[k].network.value, addrs[i])
    ensures HostDenied(host, addrs, entries)
  {
  }

  /**
    A bare-address entry denies by address exactly when the host resolved to
    that very address.
   */
  lemma BareAddressEntryExact(addrs: seq<Address>, text: string, b: Address)
    requires ValidAddress(b) && forall i :: 0 <= i < |addrs| ==> ValidAddress(addrs[i])
    ensures AddressDenied(addrs, DenyEntry(text, Some(SingleAddress(b)))) <==> b in addrs
  {
    if b in addrs {
      var i :| 0 <= i < |addrs| && addrs[i] == b;
      SingleAddressExact(b, addrs[i]);
    }
    if AddressDenied(addrs, DenyEntry(text, Some(SingleAddress(b)))) {
      var i :| 0 <= i < |addrs| && Contains(SingleAddress(b), addrs[i]);
      SingleAddressExact(b, addrs[i]);
    }
  }

  /** An address is never denied through a network of the other family. */
  lemma FamiliesNeverCross(addrs: seq<Address>, text: string, n: Network)
    requires forall i :: 0 <= i < |addrs| ==> addrs[i].family != n.family
    ensures !AddressDenied(addrs, DenyEntry(text, Some(n)))
  {
  }

  /**
    Monotonicity in the denylist: an entry set that includes every entry of
    another denies everything the other denies.
   */
  lemma {:induction false} MoreEntriesStillDeny(host: string, addrs: seq<Address>, small: seq<DenyEntry>, large: seq<DenyEntry>)
    requires forall e :: e in small ==> e in large
    requires HostDenied(host, addrs, small)
    ensures HostDenied(host, addrs, large)
  {
    var k :| 0 <= k < |small| && EntryDenies(host, addrs, small[k]);
    assert small[k] in large;
    var j :| 0 <= j < |large| && large[j] == small[k];
    assert EntryDenies(host, addrs, large[j]);
  }

  /** The decision depends only on which entries are present, not on their order. */
  lemma {:induction false} OrderIrrelevant(host: string, addrs: seq<Address>, xs: seq<DenyEntry>, ys: seq<DenyEntry>)
    requires multiset(xs) == multiset(ys)
    ensures HostDenied(host, addrs, xs) == HostDenied(host, addrs, ys)
  {
    forall e | e in xs ensures e in ys {
      assert e in multiset(xs);
    }
    forall e | e in ys ensures e in xs {
      assert e in multiset(ys);
    }
    if HostDenied(host, addrs, xs) {
      MoreEntriesStillDeny(host, addrs, xs, ys);
    }
    if HostDenied(host, addrs, ys) {
      MoreEntriesStillDeny(host, addrs, ys, xs);
    }
  }

  /** Joining two denylists denies exactly what either one denies. */
  lemma {:induction false} ConcatDenies(host: string, addrs: seq<Address>, xs: seq<DenyEntry>, ys: seq<DenyEntry>)
    ensures HostDenied(host, addrs, xs + ys) <==> HostDenied(host, addrs, xs) || HostDenied(host, addrs, ys)
  {
    if HostDenied(host, addrs, xs + ys) {
      var k :| 0 <= k < |xs + ys| && EntryDenies(host, addrs, (xs + ys)[k]);
      if k < |xs| {
        assert EntryDenies(host, addrs, xs[k]);
      } else {
        assert EntryDenies(host, addrs, ys[k - |xs|]);
      }
    }
    if HostDenied(host, addrs, xs) {
      MoreEntriesStillDeny(host, addrs, xs, xs + ys);
    }
    if HostDenied(host, addrs, ys) {
      MoreEntriesStillDeny(host, addrs, ys, xs + ys);
    }
  }

  /** Monotonicity in the resolution: more resolved addresses never un-deny. */
  lemma {:induction false} MoreAddressesStillDeny(host: string, small: seq<Address>, large: seq<Address>, entries: seq<DenyEntry>)
    requires forall a :: a in small ==> a in large
    requires HostDenied(host, small, entries)
    ensures HostDenied(host, large, entries)
  {
    var k :| 0 <= k < |entries| && EntryDenies(host, small, entries[k]);
    if !SameHost(entries[k].text, host) {
      var n := entries[k].network.value;
      var i :| 0 <= i < |small| && Contains(n, small[i]);
      assert small[i] in large;
      var j :| 0 <= j < |large| && large[j] == small[i];
    }
    assert EntryDenies(host, large, entries[k]);
  }

  /** The first match is the earliest entry that denies: no earlier one does. */
  lemma FirstMatchIsEarliest(host: string, addrs: seq<Address>, entries: seq<DenyEntry>, k: nat)
    requires k < |entries| && EntryDenies(host, addrs, entries[k])
    ensures FirstMatch(host, addrs, entries).Some?
    ensures FirstMatch(host, addrs, entries).value <= k
  {
  }

  /** The legacy fail-open path: an unresolvable host is never denied, even when named. */
  lemma UnresolvedHostNotDenied(parse: UrlParser, resolve: Resolver, url: string, entries: seq<DenyEntry>)
    requires parse(url).Some? && |resolve(parse(url).value.host)| == 0
    ensures IsHostInDenylist(parse, resolve, url, entries) == Success(false)
  {
  }
}
