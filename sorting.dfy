/**
 * Descending sort of a column of marks, standing in for the dataframe sort
 * `sort_values(by='marks', ascending=False)`. The thresholds depend only on the
 * sorted values, and a descending permutation of a multiset is unique
 * (`SortedUnique`), so the model does not depend on which sort is used.
 */
module Sorting {

  /** Non-increasing from left to right. */
  predicate SortedDesc(s: seq<real>)
  {
    forall i, j :: 0 <= i < j < |s| ==> s[i] >= s[j]
  }

  /** Inserts `x` into a descending sequence, keeping it descending. */
  function InsertDesc(x: real, s: seq<real>): (r: seq<real>)
    requires SortedDesc(s)
    ensures SortedDesc(r)
    ensures multiset(r) == multiset(s) + multiset{x}
    ensures r[0] == x || (s != [] && r[0] == s[0])
  {
    if s == [] || x >= s[0] then
      ConsSorted(x, s);
      [x] + s
    else
      assert s == [s[0]] + s[1..];
      var rest := InsertDesc(x, s[1..]);
      assert rest[0] <= s[0];
      ConsSorted(s[0], rest);
      [s[0]] + rest
  }

  /** A head no smaller than the first element keeps a descending sequence descending. */
  lemma ConsSorted(y: real, s: seq<real>)
    requires SortedDesc(s) && (s == [] || y >= s[0])
    ensures SortedDesc([y] + s)
  {
    var r := [y] + s;
    forall i, j | 0 <= i < j < |r|
      ensures r[i] >= r[j]
    {
      if i == 0 {
        assert r[j] == s[j - 1] <= s[0];
      } else {
        assert r[i] == s[i - 1] && r[j] == s[j - 1];
      }
    }
  }

  /** The marks in descending order. */
  function SortDesc(s: seq<real>): (r: seq<real>)
    ensures SortedDesc(r)
    ensures multiset(r) == multiset(s)
    ensures |r| == |s|
  {
    if s == [] then []
    else
      assert s == [s[0]] + s[1..];
      InsertDesc(s[0], SortDesc(s[1..]))
  }

  /** Two descending sequences holding the same values are equal. */
  lemma {:induction false} SortedUnique(a: seq<real>, b: seq<real>)
    requires SortedDesc(a) && SortedDesc(b)
    requires multiset(a) == multiset(b)
    ensures a == b
  {
    if a != [] {
      assert |b| == |a| by { assert |multiset(b)| == |multiset(a)|; }
      HeadIsMaximum(a, b[0]);
      HeadIsMaximum(b, a[0]);
      var h := a[0];
      assert b[0] == h;
      var ta, tb := a[1..], b[1..];
      assert a == [h] + ta;
      assert b == [h] + tb;
      assert multiset(ta) == multiset(tb) by {
        assert multiset(a) == multiset{h} + multiset(ta);
        assert multiset(b) == multiset{h} + multiset(tb);
        assert multiset(ta) == multiset(a) - multiset{h};
        assert multiset(tb) == multiset(b) - multiset{h};
      }
      TailSorted(a);
      TailSorted(b);
      SortedUnique(ta, tb);
    }
  }

  /** Dropping the head keeps a sequence descending. */
  lemma TailSorted(a: seq<real>)
    requires SortedDesc(a) && a != []
    ensures SortedDesc(a[1..])
  {
    forall i, j | 0 <= i < j < |a| - 1
      ensures a[1..][i] >= a[1..][j]
    {
      assert a[1..][i] == a[i + 1] && a[1..][j] == a[j + 1];
    }
  }

  /** The head of a descending sequence is at least every value it holds. */
  lemma HeadIsMaximum(a: seq<real>, v: real)
    requires SortedDesc(a) && v in multiset(a)
    ensures a[0] >= v
  {
    var i :| 0 <= i < |a| && a[i] == v;
    if i > 0 {
      assert a[0] >= a[i];
    }
  }

  /** Sorting depends only on the values, not on the order of the rows. */
  lemma SortDescOrderFree(s: seq<real>, t: seq<real>)
    requires multiset(s) == multiset(t)
    ensures SortDesc(s) == SortDesc(t)
  {
    SortedUnique(SortDesc(s), SortDesc(t));
  }
}
