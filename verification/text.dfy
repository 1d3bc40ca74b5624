/** The handful of `java.lang.String` operations the publisher relies on,
    stated over `seq<char>`. */
module Text {
  import opened Wrappers

  /** `w` occurs in `s` starting at index `k`: Java's `s.startsWith(w, k)`. */
  predicate OccursAt(s: string, w: string, k: int) {
    0 <= k && k + |w| <= |s| && s[k..k + |w|] == w
  }

  /** `r` is a suffix of `s`. */
  predicate IsSuffix(r: string, s: string) {
    |r| <= |s| && s[|s| - |r|..] == r
  }

  /** Downward search for an occurrence of `w` starting at index `k` or below. */
  function LastIndexAtOrBelow(s: string, w: string, k: nat): (r: Option<nat>)
    ensures r.Some? ==> r.value <= k && OccursAt(s, w, r.value)
    ensures r.Some? ==> forall j :: r.value < j <= k ==> !OccursAt(s, w, j)
    ensures r.None? ==> forall j :: 0 <= j <= k ==> !OccursAt(s, w, j)
    decreases k
  {
    if OccursAt(s, w, k) then Some(k)
    else if k == 0 then None
    else LastIndexAtOrBelow(s, w, k - 1)
  }

  /** Java's `s.lastIndexOf(w)`: the greatest index at which `w` occurs, or
      `None` where Java answers -1. An empty `w` occurs at `|s|`. */
  function LastIndexOf(s: string, w: string): (r: Option<nat>)
    ensures r.Some? ==> OccursAt(s, w, r.value)
    ensures r.Some? ==> forall j :: r.value < j ==> !OccursAt(s, w, j)
    ensures r.None? <==> forall j :: !OccursAt(s, w, j)
  {
    if |w| > |s| then None else LastIndexAtOrBelow(s, w, |s| - |w|)
  }

  /** An empty needle is found at the very end of the haystack. */
  lemma LastIndexOfEmpty(s: string)
    ensures LastIndexOf(s, "") == Some(|s|)
  {
    assert OccursAt(s, "", |s|);
  }

  /** An occurrence in a suffix is an occurrence in the whole, shifted by
      where the suffix starts. */
  lemma OccursInSuffix(s: string, w: string, a: nat, j: int)
    requires a <= |s|
    requires OccursAt(s[a..], w, j)
    ensures OccursAt(s, w, a + j)
  {
    assert s[a..][j..j + |w|] == s[a + j..a + j + |w|];
  }
}
