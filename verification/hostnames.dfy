/**
  DNS host-name equality: ASCII letters compare case-insensitively (section 3
  of RFC 4343) and one trailing root dot is ignored, so `example.com.` and
  `Example.COM` name the same host.
 */
module HostNames {

  /** ASCII lower-casing; every other character is left as it is. */
  function LowerAscii(c: char): char {
    if 'A' <= c <= 'Z' then (c as int + 32) as char else c
  }

  function LowerAll(s: string): string {
    seq(|s|, i requires 0 <= i < |s| => LowerAscii(s[i]))
  }

  /** The name without its root label: at most one trailing dot removed. */
  function StripRootDot(s: string): (r: string)
    ensures s == r || s == r + "."
  {
    if |s| > 0 && s[|s| - 1] == '.' then s[..|s| - 1] else s
  }

  /** The comparison key of a host name. */
  function Canonical(s: string): string {
    LowerAll(StripRootDot(s))
  }

  /** Two strings name the same DNS host. */
  predicate SameHost(a: string, b: string)
    ensures StripRootDot(a) == StripRootDot(b) ==> SameHost(a, b)
    ensures SameHost(a, b) ==> |StripRootDot(a)| == |StripRootDot(b)|
  {
    Canonical(a) == Canonical(b)
  }

  // ---------------------------------------------------------------------------
  // Reference reading, character by character.
  // ---------------------------------------------------------------------------

  /** Equal, or the same ASCII letter in the other case. */
  predicate SameCharIgnoringCase(x: char, y: char) {
    || x == y
    || ('A' <= x <= 'Z' && y as int == x as int + 32)
    || ('A' <= y <= 'Z' && x as int == y as int + 32)
  }

  ghost predicate EqualIgnoringCase(s: string, t: string) {
    |s| == |t| && forall i :: 0 <= i < |s| ==> SameCharIgnoringCase(s[i], t[i])
  }

  lemma LowerAsciiSame(x: char, y: char)
    ensures LowerAscii(x) == LowerAscii(y) <==> SameCharIgnoringCase(x, y)
  {
  }

  /** Host equality is the character-wise case-insensitive comparison. */
  lemma SameHostIff(a: string, b: string)
    ensures SameHost(a, b) <==> EqualIgnoringCase(StripRootDot(a), StripRootDot(b))
  {
    var s, t := StripRootDot(a), StripRootDot(b);
    if SameHost(a, b) {
      forall i | 0 <= i < |s|
        ensures SameCharIgnoringCase(s[i], t[i])
      {
        assert LowerAll(s)[i] == LowerAll(t)[i];
        LowerAsciiSame(s[i], t[i]);
      }
    }
    if EqualIgnoringCase(s, t) {
      forall i | 0 <= i < |s|
        ensures LowerAll(s)[i] == LowerAll(t)[i]
      {
        LowerAsciiSame(s[i], t[i]);
      }
    }
  }

  /** A single trailing dot does not change the host. */
  lemma TrailingDotIgnored(s: string)
    requires |s| == 0 || s[|s| - 1] != '.'
    ensures SameHost(s + ".", s)
  {
  }

  /** Upper-casing an ASCII letter does not change the host. */
  lemma CaseIgnored(s: string, i: nat, c: char)
    requires i < |s| && 'a' <= s[i] <= 'z' && c as int == s[i] as int - 32
    ensures SameHost(s[i := c], s)
  {
  }
}
