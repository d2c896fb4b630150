/** `SELECT * FROM greetings ORDER BY text ASC` (`server/src/routes.ts`): the greeting rows, rearranged
    so that their texts ascend under SQLite's BINARY collation. */
module Ordering {
  import opened Tables
  import Strings

  /** Every text sorts at or before every later one. */
  ghost predicate SortedByText(xs: seq<Row<string>>) {
    forall i, j :: 0 <= i < j < |xs| ==> Strings.Leq(xs[i].data, xs[j].data)
  }

  /** Prepending a row that sorts at or before the head of a sorted sequence keeps it sorted. */
  lemma PrependSorted(x: Row<string>, xs: seq<Row<string>>)
    requires SortedByText(xs)
    requires forall k :: 0 <= k < |xs| ==> Strings.Leq(x.data, xs[k].data)
    ensures SortedByText([x] + xs)
  {
    var r := [x] + xs;
    forall i, j | 0 <= i < j < |r|
      ensures Strings.Leq(r[i].data, r[j].data)
    {
      if i > 0 {
        assert r[i] == xs[i - 1] && r[j] == xs[j - 1];
      } else {
        assert r[j] == xs[j - 1];
      }
    }
  }

  /** The head of a sorted sequence sorts at or before every later row. */
  lemma HeadFirst(xs: seq<Row<string>>)
    requires |xs| >= 1 && SortedByText(xs)
    ensures forall k :: 0 <= k < |xs| ==> Strings.Leq(xs[0].data, xs[k].data)
  {
    forall k | 0 <= k < |xs|
      ensures Strings.Leq(xs[0].data, xs[k].data)
    {
      if k == 0 {
        Strings.LeqReflexive(xs[0].data);
      }
    }
  }

  /** Inserts `x` into a sorted sequence ahead of the first row it sorts at or before. */
  function InsertByText(x: Row<string>, xs: seq<Row<string>>): (r: seq<Row<string>>)
    requires SortedByText(xs)
    ensures multiset(r) == multiset(xs) + multiset{x}
    ensures forall k :: 0 <= k < |r| ==> r[k] == x || r[k] in xs
    ensures SortedByText(r)
  {
    if |xs| == 0 then [x]
    else if Strings.Leq(x.data, xs[0].data) then
      assert forall k :: 0 <= k < |xs| ==> Strings.Leq(x.data, xs[k].data) by {
        HeadFirst(xs);
        forall k | 0 <= k < |xs|
          ensures Strings.Leq(x.data, xs[k].data)
        {
          Strings.LeqTransitive(x.data, xs[0].data, xs[k].data);
        }
      }
      PrependSorted(x, xs);
      [x] + xs
    else
      assert xs == [xs[0]] + xs[1..];
      var rest := InsertByText(x, xs[1..]);
      assert forall k :: 0 <= k < |rest| ==> Strings.Leq(xs[0].data, rest[k].data) by {
        HeadFirst(xs);
        Strings.LeqTotal(x.data, xs[0].data);
        forall k | 0 <= k < |rest|
          ensures Strings.Leq(xs[0].data, rest[k].data)
        {
          if rest[k] != x {
            var m :| 0 <= m < |xs[1..]| && xs[1..][m] == rest[k];
            assert xs[m + 1] == rest[k];
          }
        }
      }
      PrependSorted(xs[0], rest);
      [xs[0]] + rest
  }

  /** Insertion sort by text: a sorted rearrangement of the rows. */
  function SortByText(xs: seq<Row<string>>): (r: seq<Row<string>>)
    ensures multiset(r) == multiset(xs)
    ensures SortedByText(r)
  {
    if |xs| == 0 then []
    else
      assert xs == [xs[0]] + xs[1..];
      InsertByText(xs[0], SortByText(xs[1..]))
  }

  /** No two rows share a text. */
  ghost predicate DistinctText(xs: seq<Row<string>>) {
    forall i, j :: 0 <= i < j < |xs| ==> xs[i].data != xs[j].data
  }

  /** In a sequence with distinct texts, rows with the same text are the same row. */
  lemma SameTextSameRow(xs: seq<Row<string>>, x: Row<string>, y: Row<string>)
    requires DistinctText(xs) && x in xs && y in xs
    ensures x.data == y.data ==> x == y
  {
    var i :| 0 <= i < |xs| && xs[i] == x;
    var j :| 0 <= j < |xs| && xs[j] == y;
  }

  /** In a sequence with distinct texts every row occurs once. */
  lemma OccursOnce(xs: seq<Row<string>>, k: nat)
    requires DistinctText(xs) && k < |xs|
    ensures multiset(xs)[xs[k]] == 1
  {
    assert xs == xs[..k] + [xs[k]] + xs[k + 1..];
    forall m | 0 <= m < |xs| && m != k
      ensures xs[m] != xs[k]
    {
    }
    assert xs[k] !in xs[..k] && xs[k] !in xs[k + 1..];
  }

  /** A row that occurs once is not repeated at a later position. */
  lemma OnceNotRepeated(xs: seq<Row<string>>, i: nat, j: nat)
    requires i < j < |xs| && multiset(xs)[xs[i]] == 1
    ensures xs[i] != xs[j]
  {
    assert xs == xs[..j] + [xs[j]] + xs[j + 1..];
    assert xs[..j][i] == xs[i];
    assert multiset(xs)[xs[j]] >= multiset(xs[..j])[xs[j]] + 1;
  }

  /** Distinct texts stay distinct in any rearrangement. */
  lemma DistinctTextPermuted(a: seq<Row<string>>, b: seq<Row<string>>)
    requires multiset(a) == multiset(b) && DistinctText(a)
    ensures DistinctText(b)
  {
    forall i, j | 0 <= i < j < |b|
      ensures b[i].data != b[j].data
    {
      assert b[i] in multiset(a) && b[j] in multiset(a);
      var k :| 0 <= k < |a| && a[k] == b[i];
      OccursOnce(a, k);
      OnceNotRepeated(b, i, j);
      SameTextSameRow(a, b[i], b[j]);
    }
  }

  /** Two sorted rearrangements of rows with distinct texts start with the same row. */
  lemma SameHead(a: seq<Row<string>>, b: seq<Row<string>>)
    requires multiset(a) == multiset(b) && |a| >= 1
    requires SortedByText(a) && SortedByText(b) && DistinctText(a)
    ensures |b| >= 1 && a[0] == b[0]
  {
    assert a[0] in multiset(b);
    var i :| 0 <= i < |b| && b[i] == a[0];
    assert b[0] in multiset(a);
    var j :| 0 <= j < |a| && a[j] == b[0];
    HeadFirst(a);
    HeadFirst(b);
    assert Strings.Leq(a[0].data, a[j].data) && Strings.Leq(b[0].data, b[i].data);
    Strings.LeqAntisymmetric(a[0].data, b[0].data);
    assert a[0] in a;
    SameTextSameRow(a, a[0], b[0]);
  }

  /** Removing the same first row from two rearrangements leaves rearrangements. */
  lemma TailsPermuted<T>(a: seq<T>, b: seq<T>)
    requires multiset(a) == multiset(b) && |a| >= 1 && |b| >= 1 && a[0] == b[0]
    ensures multiset(a[1..]) == multiset(b[1..])
  {
    assert a == [a[0]] + a[1..] && b == [b[0]] + b[1..];
    assert multiset(a[1..]) == multiset(a) - multiset{a[0]};
    assert multiset(b[1..]) == multiset(b) - multiset{b[0]};
  }

  /** Dropping the first row keeps a sequence sorted and its texts distinct. */
  lemma TailSorted(a: seq<Row<string>>)
    requires |a| >= 1 && SortedByText(a) && DistinctText(a)
    ensures SortedByText(a[1..]) && DistinctText(a[1..])
  {
    forall i, j | 0 <= i < j < |a| - 1
      ensures Strings.Leq(a[1..][i].data, a[1..][j].data) && a[1..][i].data != a[1..][j].data
    {
      assert a[1..][i] == a[i + 1] && a[1..][j] == a[j + 1];
    }
  }

  /** When texts are distinct, the sorted order is unique: any two sorted rearrangements of the same
      rows are equal, so the listing does not depend on how it was sorted. */
  lemma {:induction false} SortedUnique(a: seq<Row<string>>, b: seq<Row<string>>)
    requires multiset(a) == multiset(b)
    requires SortedByText(a) && SortedByText(b) && DistinctText(a)
    ensures a == b
    decreases |a|
  {
    assert |a| == |multiset(a)| == |multiset(b)| == |b|;
    if |a| > 0 {
      DistinctTextPermuted(a, b);
      SameHead(a, b);
      TailsPermuted(a, b);
      TailSorted(a);
      TailSorted(b);
      SortedUnique(a[1..], b[1..]);
      assert a == [a[0]] + a[1..] && b == [b[0]] + b[1..];
    }
  }
}
