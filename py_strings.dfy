/**
 * The string primitives the inline rewriter is built from, as Python defines
 * them: str.find (with and without a start offset), str.rfind and str.count.
 * Indices are ints; -1 means "not found", exactly as the Python methods return.
 */
module PyStrings {

  /** pat occurs in s starting at index i. */
  predicate OccursAt(s: string, pat: string, i: int)
  {
    0 <= i && i + |pat| <= |s| && MatchesAt(s, pat, i)
  }

  /** The characters of s from index i on agree with pat, one by one. */
  predicate MatchesAt(s: string, pat: string, i: nat)
    requires i + |pat| <= |s|
    decreases |pat|
  {
    |pat| == 0 || (s[i] == pat[0] && MatchesAt(s, pat[1..], i + 1))
  }

  /** OccursAt says that the slice of s starting at i is pat. */
  lemma {:induction false} OccursAtSlice(s: string, pat: string, i: int)
    requires 0 <= i && i + |pat| <= |s|
    ensures OccursAt(s, pat, i) <==> s[i..i + |pat|] == pat
    decreases |pat|
  {
    if |pat| > 0 {
      OccursAtSlice(s, pat[1..], i + 1);
      assert s[i..i + |pat|] == [s[i]] + s[i + 1..i + |pat|];
      assert pat == [pat[0]] + pat[1..];
    }
  }

  /** A string occurs in itself at index 0. */
  lemma OccursAtSelf(s: string)
    ensures OccursAt(s, s, 0)
  {
    OccursAtSlice(s, s, 0);
    assert s[0..|s|] == s;
  }

  /** An occurrence in a stays an occurrence, at the same index, in a + b. */
  lemma OccursInConcatLeft(a: string, b: string, pat: string, i: int)
    requires OccursAt(a, pat, i)
    ensures OccursAt(a + b, pat, i)
  {
    OccursAtSlice(a, pat, i);
    OccursAtSlice(a + b, pat, i);
    assert (a + b)[i..i + |pat|] == a[i..i + |pat|];
  }

  /** An occurrence in b is an occurrence in a + b, shifted by |a|. */
  lemma OccursInConcatRight(a: string, b: string, pat: string, i: int)
    requires OccursAt(b, pat, i)
    ensures OccursAt(a + b, pat, |a| + i)
  {
    OccursAtSlice(b, pat, i);
    OccursAtSlice(a + b, pat, |a| + i);
    assert (a + b)[|a| + i..|a| + i + |pat|] == b[i..i + |pat|];
  }

  /** An occurrence that lies wholly inside s[lo..hi] is an occurrence of that slice. */
  lemma OccursInSlice(s: string, pat: string, i: int, lo: int, hi: int)
    requires OccursAt(s, pat, i) && 0 <= lo <= i && i + |pat| <= hi <= |s|
    ensures OccursAt(s[lo..hi], pat, i - lo)
  {
    OccursAtSlice(s, pat, i);
    OccursAtSlice(s[lo..hi], pat, i - lo);
    var inner, outer := s[lo..hi][i - lo..i - lo + |pat|], s[i..i + |pat|];
    assert |inner| == |outer|;
    forall k | 0 <= k < |pat| ensures inner[k] == outer[k] {
      assert inner[k] == s[lo..hi][i - lo + k] == s[i + k];
    }
    assert inner == outer;
  }

  /** s.find(pat, from): the lowest index at or after from where pat occurs, or -1. */
  function FindFrom(s: string, pat: string, from: nat): (r: int)
    ensures r == -1 || (from <= r && OccursAt(s, pat, r))
    ensures forall p :: from <= p && (r == -1 || p < r) ==> !OccursAt(s, pat, p)
    ensures |pat| == 0 && from <= |s| ==> r == from
    decreases |s| - from
  {
    if from > |s| then -1
    else if OccursAt(s, pat, from) then from
    else if from == |s| then -1
    else FindFrom(s, pat, from + 1)
  }

  /** s.find(pat): the first occurrence of pat in s, or -1. */
  function Find(s: string, pat: string): (r: int)
    ensures r == -1 || OccursAt(s, pat, r)
    ensures forall p :: 0 <= p && (r == -1 || p < r) ==> !OccursAt(s, pat, p)
    ensures |pat| == 0 ==> r == 0
  {
    FindFrom(s, pat, 0)
  }

  /** find returns the occurrence that no other occurrence at or after from precedes. */
  lemma FindFromIsNext(s: string, pat: string, from: nat, j: int)
    requires from <= j && OccursAt(s, pat, j)
    requires forall p :: from <= p < j ==> !OccursAt(s, pat, p)
    ensures FindFrom(s, pat, from) == j
  {
    var r := FindFrom(s, pat, from);
    assert r != -1 ==> !(r < j) && !(j < r);
  }

  /** find returns the occurrence that no other occurrence precedes. */
  lemma FindIsFirst(s: string, pat: string, i: int)
    requires OccursAt(s, pat, i)
    requires forall p :: 0 <= p < i ==> !OccursAt(s, pat, p)
    ensures Find(s, pat) == i
  {
    FindFromIsNext(s, pat, 0, i);
  }

  /** The last occurrence of pat in s that starts at or before hi, or -1. */
  function RFindUpTo(s: string, pat: string, hi: nat): (r: int)
    ensures r == -1 || (r <= hi && OccursAt(s, pat, r))
    ensures forall p :: r < p <= hi ==> !OccursAt(s, pat, p)
    decreases hi
  {
    if OccursAt(s, pat, hi) then hi
    else if hi == 0 then -1
    else RFindUpTo(s, pat, hi - 1)
  }

  /** s.rfind(pat): the last occurrence of pat in s, or -1. */
  function RFind(s: string, pat: string): (r: int)
    ensures r == -1 || OccursAt(s, pat, r)
    ensures forall p :: r < p ==> !OccursAt(s, pat, p)
    ensures |pat| == 0 ==> r == |s|
  {
    RFindUpTo(s, pat, |s|)
  }

  /**
   * s.count(pat, from): the number of non-overlapping occurrences of pat,
   * scanning left to right from index from. An empty pat is counted once
   * per position, |s| - from + 1 times, as Python does.
   */
  function CountFrom(s: string, pat: string, from: nat): (r: nat)
    ensures |pat| > 0 ==> (r == 0 <==> FindFrom(s, pat, from) == -1)
    ensures |pat| > 0 && from <= |s| ==> r <= |s| - from
    decreases |s| - from
  {
    if |pat| == 0 then (if from <= |s| then |s| - from + 1 else 0)
    else
      var i := FindFrom(s, pat, from);
      if i == -1 then 0 else 1 + CountFrom(s, pat, i + |pat|)
  }

  /** s.count(pat). */
  function Count(s: string, pat: string): nat
  {
    CountFrom(s, pat, 0)
  }

  /**
   * Two non-overlapping occurrences exist exactly when the first occurrence
   * is followed by another one starting at or after its end.
   */
  lemma CountAtLeastTwo(s: string, pat: string)
    requires |pat| > 0
    ensures Count(s, pat) >= 2 <==>
      Find(s, pat) != -1 && FindFrom(s, pat, Find(s, pat) + |pat|) != -1
  {
    var i := Find(s, pat);
    if i != -1 {
      assert Count(s, pat) == 1 + CountFrom(s, pat, i + |pat|);
    }
  }

  /** With two non-overlapping occurrences, the last one starts after the first one ends. */
  lemma LastAfterFirst(s: string, pat: string)
    requires |pat| > 0 && Count(s, pat) >= 2
    ensures Find(s, pat) != -1 && RFind(s, pat) != -1
    ensures Find(s, pat) + |pat| <= RFind(s, pat)
  {
    CountAtLeastTwo(s, pat);
    var next := FindFrom(s, pat, Find(s, pat) + |pat|);
    assert OccursAt(s, pat, next);
  }

  /** str.count does not count overlapping occurrences. */
  lemma CountIsNonOverlapping()
    ensures Count("****", "**") == 2
    ensures Count("***", "**") == 1
  {
    assert OccursAt("****", "**", 0) && OccursAt("****", "**", 2);
    assert OccursAt("***", "**", 0) && !OccursAt("***", "**", 2);
  }
}
