/**
  Worked decisions of the gate on concrete URLs, resolvers and denylists.
 */
module GateExamples {
  import opened Wrappers
  import opened Addresses
  import opened HostNames
  import opened Urls
  import opened Denylist
  import opened UrlGate

  /** A dotted-quad IPv4 address. */
  function IPv4Address(a: nat, b: nat, c: nat, d: nat): (r: Address)
    requires a < 256 && b < 256 && c < 256 && d < 256
    ensures ValidAddress(r)
    ensures Value(r.bits[..8]) == a
  {
    var r := Address(IPv4, ToBits(a, 8) + ToBits(b, 8) + ToBits(c, 8) + ToBits(d, 8));
    assert r.bits[..8] == ToBits(a, 8);
    ValueToBits(a, 8);
    r
  }

  /** The cloud metadata address is denied through its bare-address entry. */
  lemma MetadataAddressDenied()
    ensures
      var meta := IPv4Address(169, 254, 169, 254);
      var url := "http://169.254.169.254/latest/meta-data";
      var parse := (s: string) => if s == url then Some(Url("http", "169.254.169.254")) else None;
      var resolve := (h: string) => [meta];
      var entries := [DenyEntry("169.254.169.254", Some(SingleAddress(meta))),
                      DenyEntry("10.0.0.0/8", Some(Network(IPv4, IPv4Address(10, 0, 0, 0).bits, 8)))];
      ValidateUrlHost(parse, resolve, url, entries) == Denied
  {
  }

  /** Host-name entries ignore letter case and the trailing root dot. */
  lemma InternalHostDenied(somewhere: Address)
    ensures
      var url := "http://INTERNAL.CORP./";
      var parse := (s: string) => if s == url then Some(Url("http", "INTERNAL.CORP.")) else None;
      var resolve := (h: string) => [somewhere];
      ValidateUrlHost(parse, resolve, url, [DenyEntry("internal.corp", None)]) == Denied
  {
    assert Canonical("INTERNAL.CORP.") == "internal.corp";
    assert Canonical("internal.corp") == "internal.corp";
    NamedHostDenied("INTERNAL.CORP.", [somewhere], [DenyEntry("internal.corp", None)], 0);
  }

  /** A public address outside the denied network is allowed. */
  lemma PublicAddressAllowed()
    ensures
      var url := "http://example.com";
      var parse := (s: string) => if s == url then Some(Url("http", "example.com")) else None;
      var resolve := (h: string) => [IPv4Address(93, 184, 216, 34)];
      var entries := [DenyEntry("10.0.0.0/8", Some(Network(IPv4, IPv4Address(10, 0, 0, 0).bits, 8)))];
      ValidateUrlHost(parse, resolve, url, entries) == Allowed
  {
  }

  /** A host that resolves to nothing is unresolvable, never allowed. */
  lemma NonexistentHostUnresolvable(entries: seq<DenyEntry>)
    ensures
      var url := "http://nonexistent.invalid";
      var parse := (s: string) => if s == url then Some(Url("http", "nonexistent.invalid")) else None;
      var resolve := (h: string) => [];
      ValidateUrlHost(parse, resolve, url, entries) == Unresolvable
  {
  }

  /** `::ffff:10.0.0.1` is an IPv6 address and is not inside `10.0.0.0/8`. */
  lemma MappedAddressNotInIPv4Network(bits: BitString)
    ensures !Contains(Network(IPv4, IPv4Address(10, 0, 0, 0).bits, 8), Address(IPv6, bits))
  {
  }
}
