/**
  The HTTP method check (`validateMethod`).  The source accepts a method
  when Kotlin's `findAnyOf` finds `POST`, `PUT` or `PATCH` anywhere in it: a
  case-sensitive substring search, not an equality test.
 */
module Methods {
  import opened Wrappers

  datatype MethodError =
    | EmptyMethod    // "Method is null or empty"
    | InvalidMethod  // "Invalid method supplied. Only POST, PUT and PATCH are allowed"

  /** `t` occurs in `s` starting at index `i` (Kotlin's `regionMatches`). */
  predicate OccursAt(t: string, s: string, i: nat) {
    i + |t| <= |s| && s[i..i + |t|] == t
  }

  ghost predicate OccursIn(t: string, s: string) {
    exists i: nat :: OccursAt(t, s, i)
  }

  /** `strings.firstOrNull { it.regionMatches(0, s, i, it.length) }`. */
  function FirstMatchingAt(s: string, strings: seq<string>, i: nat): (r: Option<string>)
    ensures r.Some? ==> r.value in strings && OccursAt(r.value, s, i)
    ensures r.Some? ==> exists j :: 0 <= j < |strings| && strings[j] == r.value
                                    && forall k :: 0 <= k < j ==> !OccursAt(strings[k], s, i)
    ensures r.None? ==> forall t :: t in strings ==> !OccursAt(t, s, i)
    decreases |strings|
  {
    if |strings| == 0 then None
    else if OccursAt(strings[0], s, i) then Some(strings[0])
    else
      var r := FirstMatchingAt(s, strings[1..], i);
      assert forall k :: 1 <= k < |strings| ==> strings[k] == strings[1..][k - 1];
      r
  }

  /**
    `findAnyOf` scanning indices `i` to `|s|`: the first index at which some
    string occurs, paired with the first such string in list order.
   */
  function FindAnyOfFrom(s: string, strings: seq<string>, i: nat): (r: Option<(nat, string)>)
    requires i <= |s| + 1
    ensures r.Some? ==> i <= r.value.0 <= |s| && r.value.1 in strings && OccursAt(r.value.1, s, r.value.0)
    ensures r.Some? ==> FirstMatchingAt(s, strings, r.value.0) == Some(r.value.1)
    ensures r.Some? ==> forall k: nat, t :: i <= k < r.value.0 && t in strings ==> !OccursAt(t, s, k)
    ensures r.None? ==> forall k: nat, t :: i <= k && t in strings ==> !OccursAt(t, s, k)
    decreases |s| + 1 - i
  {
    if i == |s| + 1 then None
    else match FirstMatchingAt(s, strings, i)
      case Some(t) => Some((i, t))
      case None => FindAnyOfFrom(s, strings, i + 1)
  }

  function FindAnyOf(s: string, strings: seq<string>): (r: Option<(nat, string)>)
    ensures r.None? <==> forall t :: t in strings ==> !OccursIn(t, s)
    ensures r.Some? ==> r.value.1 in strings && OccursAt(r.value.1, s, r.value.0)
    ensures r.Some? ==> forall k: nat, t :: k < r.value.0 && t in strings ==> !OccursAt(t, s, k)
    ensures r.Some? ==> FirstMatchingAt(s, strings, r.value.0) == Some(r.value.1)
  {
    FindAnyOfFrom(s, strings, 0)
  }

  /** `HttpPost.METHOD_NAME`, `HttpPut.METHOD_NAME`, `HttpPatch.METHOD_NAME`. */
  const ValidMethods: seq<string> := ["POST", "PUT", "PATCH"]

  /** The three names are distinct, and no other string is one of them. */
  lemma ValidMethodNames(t: string)
    ensures |ValidMethods| == 3
    ensures t in ValidMethods <==> t == "POST" || t == "PUT" || t == "PATCH"
    ensures forall j, k :: 0 <= j < k < |ValidMethods| ==> ValidMethods[j] != ValidMethods[k]
  {
  }

  /** `validateMethod` as written: a substring search for the three names. */
  function ValidateMethod(m: string): (r: Outcome<MethodError>)
    ensures r == Fail(EmptyMethod) <==> |m| == 0
    ensures r == Pass <==> |m| > 0 && (OccursIn("POST", m) || OccursIn("PUT", m) || OccursIn("PATCH", m))
    ensures r == Fail(InvalidMethod)
        <==> |m| > 0 && !OccursIn("POST", m) && !OccursIn("PUT", m) && !OccursIn("PATCH", m)
  {
    if |m| == 0 then Fail(EmptyMethod)
    else if FindAnyOf(m, ValidMethods) == None then Fail(InvalidMethod)
    else Pass
  }

  /** Any string carrying one of the names somewhere passes, whatever surrounds it. */
  lemma SurroundedNameAccepted(prefix: string, suffix: string, k: nat)
    requires k < |ValidMethods|
    ensures ValidateMethod(prefix + ValidMethods[k] + suffix) == Pass
  {
    var m := prefix + ValidMethods[k] + suffix;
    assert m[|prefix|..|prefix| + |ValidMethods[k]|] == ValidMethods[k];
    assert OccursAt(ValidMethods[k], m, |prefix|);
  }

  /** The search is case-sensitive: a lower-case name is rejected. */
  lemma LowerCaseRejected()
    ensures ValidateMethod("post") == Fail(InvalidMethod)
    ensures ValidateMethod("GET") == Fail(InvalidMethod)
  {
    assert !OccursIn("POST", "post") by {
      forall i: nat ensures !OccursAt("POST", "post", i) {
        if i + 4 <= 4 { assert "post"[0] != "POST"[0]; }
      }
    }
    assert !OccursIn("PUT", "post") by {
      forall i: nat ensures !OccursAt("PUT", "post", i) {
        if i + 3 <= 4 { assert "post"[i] != 'P'; }
      }
    }
    assert !OccursIn("PATCH", "post");
    assert !OccursIn("POST", "GET");
    assert !OccursIn("PUT", "GET") by {
      forall i: nat ensures !OccursAt("PUT", "GET", i) {
        if i + 3 <= 3 { assert "GET"[0] != 'P'; }
      }
    }
    assert !OccursIn("PATCH", "GET");
  }

  // ---------------------------------------------------------------------------
  // Finding: the error message promises "Only POST, PUT and PATCH are allowed",
  // but the substring search also passes names such as "OUTPUT".
  // ---------------------------------------------------------------------------

  /** The as-written check accepts `OUTPUT`, which is not an allowed method. */
  lemma OutputAcceptedAsWritten()
    ensures ValidateMethod("OUTPUT") == Pass
    ensures "OUTPUT" !in ValidMethods
  {
    assert "OUTPUT"[3..6] == "PUT";
    assert OccursAt("PUT", "OUTPUT", 3);
  }

  /** The evidently intended check: the method is exactly one of the three names. */
  function ValidateMethodExact(m: string): (r: Outcome<MethodError>)
    ensures r == Pass <==> m == "POST" || m == "PUT" || m == "PATCH"
    ensures r == Fail(EmptyMethod) <==> |m| == 0
  {
    if |m| == 0 then Fail(EmptyMethod)
    else if m in ValidMethods then Pass
    else Fail(InvalidMethod)
  }

  /** The intended check is strictly narrower than the written one. */
  lemma ExactNarrowsWritten(m: string)
    ensures ValidateMethodExact(m) == Pass ==> ValidateMethod(m) == Pass
    ensures ValidateMethodExact("OUTPUT") != Pass
  {
  }
}
