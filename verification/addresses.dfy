/**
  IP addresses and CIDR networks as already-parsed values.

  An address is a family tag and its bits, most significant first (32 for
  IPv4, 128 for IPv6).  A network is a base address of one family and a
  prefix length; it contains an address of the same family whose `prefix`
  high-order bits equal those of the base (section 3.1 of RFC 4632 for IPv4,
  section 2.3 of RFC 4291 for IPv6).  A bare address is the network whose
  prefix length is the full width.
 */
module Addresses {

  datatype Family = IPv4 | IPv6

  /** Number of bits in an address of family `f`. */
  function Width(f: Family): nat {
    match f
    case IPv4 => 32
    case IPv6 => 128
  }

  /** Address bits, most significant first. */
  type BitString = seq<bool>

  datatype Address = Address(family: Family, bits: BitString)

  /** The bit string has exactly the family's width. */
  predicate ValidAddress(a: Address) {
    |a.bits| == Width(a.family)
  }

  datatype Network = Network(family: Family, base: BitString, prefix: nat)

  predicate ValidNetwork(n: Network) {
    |n.base| == Width(n.family) && n.prefix <= Width(n.family)
  }

  /** A bare address read as a network: the full-length prefix. */
  function SingleAddress(a: Address): Network {
    Network(a.family, a.bits, Width(a.family))
  }

  /**
    Network containment.  Families never cross-match: an IPv4-mapped IPv6
    address is not inside an IPv4 network.  A prefix longer than the width is
    not a network at all and contains nothing.
   */
  predicate Contains(n: Network, a: Address)
    ensures n.family != a.family ==> !Contains(n, a)
    ensures n.prefix > Width(n.family) ==> !Contains(n, a)
    ensures ValidNetwork(n) && ValidAddress(a) && n.family == a.family
            ==> (Contains(n, a) <==> a.bits[..n.prefix] == n.base[..n.prefix])
  {
    && n.family == a.family
    && n.prefix <= Width(n.family)
    && n.prefix <= |n.base|
    && n.prefix <= |a.bits|
    && a.bits[..n.prefix] == n.base[..n.prefix]
  }

  // ---------------------------------------------------------------------------
  // Numeric reading of a bit string (big-endian), as in dotted-quad notation.
  // ---------------------------------------------------------------------------

  function Pow2(n: nat): (r: nat)
    ensures r >= 1
  {
    if n == 0 then 1 else 2 * Pow2(n - 1)
  }

  /** The unsigned big-endian value of `s`. */
  function Value(s: BitString): (v: nat)
    ensures v < Pow2(|s|)
  {
    if |s| == 0 then 0
    else 2 * Value(s[..|s| - 1]) + (if s[|s| - 1] then 1 else 0)
  }

  /** The `w`-bit big-endian representation of `v` (low bits kept). */
  function ToBits(v: nat, w: nat): (r: BitString)
    ensures |r| == w
  {
    if w == 0 then [] else ToBits(v / 2, w - 1) + [v % 2 == 1]
  }

  /** Decoding then encoding restores the value when it fits. */
  lemma {:induction false} ValueToBits(v: nat, w: nat)
    requires v < Pow2(w)
    ensures Value(ToBits(v, w)) == v
    decreases w
  {
    if w > 0 {
      var r := ToBits(v, w);
      assert r[..w - 1] == ToBits(v / 2, w - 1);
      ValueToBits(v / 2, w - 1);
    }
  }

  /** Encoding then decoding restores the bit string. */
  lemma {:induction false} ToBitsValue(s: BitString)
    ensures ToBits(Value(s), |s|) == s
    decreases |s|
  {
    if |s| > 0 {
      var init := s[..|s| - 1];
      ToBitsValue(init);
      assert Value(s) / 2 == Value(init);
      assert s == init + [s[|s| - 1]];
    }
  }

  /** Bit strings of equal length with equal values are equal. */
  lemma {:induction false} ValueInjective(s: BitString, t: BitString)
    requires |s| == |t| && Value(s) == Value(t)
    ensures s == t
  {
    ToBitsValue(s);
    ToBitsValue(t);
  }

  lemma MulMonotone(a: nat, b: nat, d: nat)
    requires a <= b
    ensures a * d <= b * d
  {
  }

  /** Euclidean division is determined by the quotient and remainder bounds. */
  lemma DivUnique(x: nat, d: nat, q: nat, r: nat)
    requires d > 0 && x == q * d + r && r < d
    ensures x / d == q
  {
    var e := x / d;
    assert x == e * d + x % d;
    if e > q {
      MulMonotone(q + 1, e, d);
    } else if e < q {
      MulMonotone(e + 1, q, d);
    }
  }

  /** Dropping the last bit halves both the value and the divisor. */
  lemma HalveDivisor(v: nat, m: nat, b: nat)
    requires m > 0 && b < 2
    ensures (2 * v + b) / (2 * m) == v / m
  {
    var q, r := v / m, v % m;
    assert v == q * m + r;
    assert 2 * v + b == q * (2 * m) + (2 * r + b);
    DivUnique(2 * v + b, 2 * m, q, 2 * r + b);
  }

  /** The value of the first `p` bits is the whole value shifted right by the rest. */
  lemma {:induction false} PrefixValue(s: BitString, p: nat)
    requires p <= |s|
    ensures Value(s[..p]) == Value(s) / Pow2(|s| - p)
    decreases |s| - p
  {
    if p == |s| {
      assert s[..p] == s;
    } else {
      var init := s[..|s| - 1];
      var b: nat := if s[|s| - 1] then 1 else 0;
      var m := Pow2(|init| - p);
      assert init[..p] == s[..p];
      PrefixValue(init, p);
      assert Value(s) == 2 * Value(init) + b;
      assert Pow2(|s| - p) == 2 * m;
      HalveDivisor(Value(init), m, b);
    }
  }

  /**
    Containment read numerically: the address and the base agree on the
    value of their first `prefix` bits.
   */
  lemma ContainsIffPrefixValue(n: Network, a: Address)
    requires ValidNetwork(n) && ValidAddress(a) && n.family == a.family
    ensures Contains(n, a) <==> Value(a.bits[..n.prefix]) == Value(n.base[..n.prefix])
  {
    if Value(a.bits[..n.prefix]) == Value(n.base[..n.prefix]) {
      ValueInjective(a.bits[..n.prefix], n.base[..n.prefix]);
    }
  }

  /**
    Containment in the numeric form of section 3.1 of RFC 4632: the address
    and the base are equal once shifted right past the host bits.
   */
  lemma ContainsIffShiftedValue(n: Network, a: Address)
    requires ValidNetwork(n) && ValidAddress(a) && n.family == a.family
    ensures var hostBits := Width(n.family) - n.prefix;
            Contains(n, a) <==> Value(a.bits) / Pow2(hostBits) == Value(n.base) / Pow2(hostBits)
  {
    ContainsIffPrefixValue(n, a);
    PrefixValue(a.bits, n.prefix);
    PrefixValue(n.base, n.prefix);
  }

  /** A full-length prefix (a bare address) contains exactly its own address. */
  lemma SingleAddressExact(b: Address, a: Address)
    requires ValidAddress(b) && ValidAddress(a)
    ensures Contains(SingleAddress(b), a) <==> a == b
  {
  }

  /** A zero-length prefix contains every valid address of its family. */
  lemma ZeroPrefixContainsFamily(n: Network, a: Address)
    requires ValidNetwork(n) && ValidAddress(a) && n.prefix == 0
    ensures Contains(n, a) <==> a.family == n.family
  {
  }

  /**
    Nesting: if the base of a longer-prefix network lies in a shorter-prefix
    network, every address of the first lies in the second.
   */
  lemma ContainsNested(outer: Network, inner: Network, a: Address)
    requires outer.family == inner.family
    requires outer.prefix <= inner.prefix
    requires Contains(outer, Address(inner.family, inner.base))
    requires Contains(inner, a)
    ensures Contains(outer, a)
  {
  }
}
