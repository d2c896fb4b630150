/** Order-preserving sequence helpers shared by the SQL filters and the client lists. */
module Seqs {

  /** The elements of `s` satisfying `p`, in their original order
      (a `WHERE` clause over a table, or JavaScript's `Array.prototype.filter`). */
  function Filter<T(!new)>(s: seq<T>, p: T -> bool): (r: seq<T>)
    ensures |r| <= |s|
    ensures forall x :: x in r <==> x in s && p(x)
  {
    if |s| == 0 then []
    else if p(s[0]) then [s[0]] + Filter(s[1..], p)
    else Filter(s[1..], p)
  }

  /** Filtering distributes over concatenation: the relative order of kept elements is the original order. */
  lemma {:induction false} FilterConcat<T(!new)>(a: seq<T>, b: seq<T>, p: T -> bool)
    ensures Filter(a + b, p) == Filter(a, p) + Filter(b, p)
  {
    if |a| > 0 {
      assert (a + b)[1..] == a[1..] + b;
      FilterConcat(a[1..], b, p);
    } else {
      assert a + b == b;
    }
  }

  /** When every element passes, filtering changes nothing. */
  lemma {:induction false} FilterKeepsAll<T(!new)>(s: seq<T>, p: T -> bool)
    requires forall i :: 0 <= i < |s| ==> p(s[i])
    ensures Filter(s, p) == s
  {
    if |s| > 0 {
      FilterKeepsAll(s[1..], p);
    }
  }

  /** `R` holds between every element of `s` and every later one. */
  ghost predicate Pairwise<T>(s: seq<T>, R: (T, T) -> bool) {
    forall i, j :: 0 <= i < j < |s| ==> R(s[i], s[j])
  }

  /** A relation that holds between every earlier and later element still holds after filtering. */
  lemma {:induction false} FilterKeepsPairwise<T(!new)>(s: seq<T>, p: T -> bool, R: (T, T) -> bool)
    requires Pairwise(s, R)
    ensures Pairwise(Filter(s, p), R)
  {
    if |s| > 0 {
      var tail := s[1..];
      FilterKeepsPairwise(tail, p, R);
      var ft := Filter(tail, p);
      forall x | x in ft
        ensures R(s[0], x)
      {
        var k :| 0 <= k < |tail| && tail[k] == x;
        assert s[k + 1] == x;
      }
      if p(s[0]) {
        var r := [s[0]] + ft;
        assert Filter(s, p) == r;
        forall i, j | 0 <= i < j < |r|
          ensures R(r[i], r[j])
        {
          if i == 0 {
            assert r[j] == ft[j - 1] && ft[j - 1] in ft;
          } else {
            assert r[i] == ft[i - 1] && r[j] == ft[j - 1];
            assert R(ft[i - 1], ft[j - 1]);
          }
        }
      }
    }
  }

  /** The element at a valid index is a member (a way to name that member in a proof). */
  lemma ElementIn<T>(s: seq<T>, i: nat)
    requires i < |s|
    ensures s[i] in s
  {
  }

  /** The distinct elements of `s` in order of first occurrence
      (what spreading a JavaScript `Set` built from `s` yields). */
  function Distinct<T(==,!new)>(s: seq<T>): (r: seq<T>)
    ensures forall x :: x in r <==> x in s
    ensures forall i, j :: 0 <= i < j < |r| ==> r[i] != r[j]
    ensures forall i, j, k :: 0 <= i < j < |r| && 0 <= k < |s| && s[k] == r[j] ==> r[i] in s[..k]
  {
    if |s| == 0 then []
    else
      var init := s[..|s| - 1];
      var d := Distinct(init);
      var x := s[|s| - 1];
      assert forall k :: 0 <= k < |s| - 1 ==> s[..k] == init[..k];
      if x in d then d else d + [x]
  }

  // ---------------------------------------------------------------- stripping

  /** Every element of `s` satisfies `p` (true of the empty sequence). */
  predicate All<T>(s: seq<T>, p: T -> bool) {
    forall i :: 0 <= i < |s| ==> p(s[i])
  }

  /** How many leading elements of `s` satisfy `p`: the prefix a left-to-right scan skips. */
  function LeadLength<T>(s: seq<T>, p: T -> bool): (n: nat)
    ensures n <= |s|
    ensures forall i :: 0 <= i < n ==> p(s[i])
    ensures n < |s| ==> !p(s[n])
  {
    if |s| > 0 && p(s[0]) then
      var m := LeadLength(s[1..], p);
      assert forall i :: 1 <= i < m + 1 ==> s[i] == s[1..][i - 1];
      m + 1
    else 0
  }

  /** How many trailing elements of `s` satisfy `p`: the suffix a right-to-left scan skips. */
  function TrailLength<T>(s: seq<T>, p: T -> bool): (n: nat)
    ensures n <= |s|
    ensures forall i :: |s| - n <= i < |s| ==> p(s[i])
    ensures n < |s| ==> !p(s[|s| - 1 - n])
  {
    if |s| > 0 && p(s[|s| - 1]) then
      var init := s[..|s| - 1];
      var m := TrailLength(init, p);
      assert forall i :: |s| - 1 - m <= i < |s| - 1 ==> s[i] == init[i];
      m + 1
    else 0
  }

  /** `s` without its leading and trailing elements satisfying `p`: the middle slice between an
      all-`p` prefix and an all-`p` suffix, starting and ending with an element failing `p`. */
  function Strip<T>(s: seq<T>, p: T -> bool): (r: seq<T>)
    ensures LeadLength(s, p) + |r| <= |s| && r == s[LeadLength(s, p)..LeadLength(s, p) + |r|]
    ensures All(s[..LeadLength(s, p)], p) && All(s[LeadLength(s, p) + |r|..], p)
    ensures r == [] || (!p(r[0]) && !p(r[|r| - 1]))
  {
    var lead := LeadLength(s, p);
    var trail := TrailLength(s, p);
    if lead == |s| then []
    else
      assert !p(s[lead]);
      s[lead..|s| - trail]
  }

  /** Stripping leaves nothing exactly when every element satisfies `p`. */
  lemma StripEmptyIffAll<T>(s: seq<T>, p: T -> bool)
    ensures Strip(s, p) == [] <==> All(s, p)
  {
    if Strip(s, p) == [] {
      assert s == s[..LeadLength(s, p)] + s[LeadLength(s, p)..];
    }
  }
}
