/**
 * The tent-shaped weight profile and the per-grade target counts of the
 * automatic branch of `compute_grade_boundaries` (utils.py, lines 13-18).
 * Counts are the exact integer floor of `w[i] * N / sum(w)`; the leftover of
 * rounding goes to the last grade.
 */
module Shares {

  function Min(a: int, b: int): int
  {
    if a <= b then a else b
  }

  /** Sum of a sequence, peeled from the back so that prefix sums unfold. */
  function Sum(s: seq<int>): int
  {
    if s == [] then 0 else Sum(s[..|s| - 1]) + s[|s| - 1]
  }

  /** The largest element, as `np.max`. */
  function MaxOf(s: seq<int>): (m: int)
    requires |s| > 0
    ensures forall i :: 0 <= i < |s| ==> s[i] <= m
    ensures exists i :: 0 <= i < |s| && s[i] == m
  {
    if |s| == 1 then s[0]
    else
      var m' := MaxOf(s[..|s| - 1]);
      if s[|s| - 1] > m' then s[|s| - 1] else m'
  }

  /** `abs(i - center_idx)` for each label index `i`. */
  function Distances(n: nat, c: nat): (d: seq<int>)
    ensures |d| == n
    ensures forall i :: 0 <= i < n ==> d[i] >= 0 && (d[i] == i - c || d[i] == c - i)
  {
    seq(n, i => if i < c then c - i else i - c)
  }

  /** The farthest any label lies from the centric one: its first or its last label. */
  function MaxDist(n: nat, c: nat): nat
  {
    if c >= n - 1 - c then c else n - 1 - c
  }

  predicate Positive(w: seq<int>)
  {
    forall i :: 0 <= i < |w| ==> w[i] >= 1
  }

  /** `max(d) - d + 1`: a tent peaking at the centric label. */
  function Weights(n: nat, c: nat): (w: seq<int>)
    requires c < n
    ensures |w| == n
    ensures Positive(w)
    ensures forall i :: 0 <= i < n ==> w[i] == MaxDist(n, c) + 1 - (if i < c then c - i else i - c)
  {
    var d := Distances(n, c);
    var m := MaxOf(d);
    MaxOfDistances(n, c);
    seq(n, i requires 0 <= i < n => m - d[i] + 1)
  }

  /**
   * The shape of the tent: the centric label has the largest weight,
   * `maxdist + 1`; weights drop by exactly one per step away from it; the
   * farthest label has weight 1.
   */
  lemma WeightProfile(n: nat, c: nat)
    requires c < n
    ensures var w := Weights(n, c);
      && w[c] == MaxDist(n, c) + 1
      && (forall i :: 0 <= i < n ==> 1 <= w[i] <= w[c])
      && (forall i :: c <= i < n - 1 ==> w[i + 1] == w[i] - 1)
      && (forall i :: 0 < i <= c ==> w[i - 1] == w[i] - 1)
      && (w[0] == 1 || w[n - 1] == 1)
  {
  }

  /** The maximum of the distances is the distance of the farther end. */
  lemma MaxOfDistances(n: nat, c: nat)
    requires c < n
    ensures MaxOf(Distances(n, c)) == MaxDist(n, c)
  {
    var d := Distances(n, c);
    assert d[0] == c && d[n - 1] == n - 1 - c;
    assert forall i :: 0 <= i < n ==> d[i] <= MaxDist(n, c);
    var m := MaxOf(d);
    assert d[0] <= m && d[n - 1] <= m;
  }

  /** One grade's share of the roster, `floor(weight * total / sum)`. */
  function Share(weight: int, total: nat, sum: int): (q: nat)
    requires weight >= 1 && sum >= 1
  {
    ProductNonNegative(weight, total);
    weight * total / sum
  }

  lemma ProductNonNegative(a: nat, b: nat)
    ensures a * b >= 0
  {
  }

  /** `(distribution * total_students).astype(int)`, computed exactly. */
  function FloorShares(w: seq<int>, total: nat): (f: seq<int>)
    requires |w| >= 1 && Positive(w)
    ensures |f| == |w|
    ensures forall i :: 0 <= i < |w| ==> f[i] >= 0
  {
    SumPositive(w);
    var s := Sum(w);
    seq(|w|, i requires 0 <= i < |w| => Share(w[i], total, s))
  }

  /** Each share is the floor of the exact proportion `w[i] * total / sum(w)`. */
  lemma FloorShareIsFloor(w: seq<int>, total: nat, i: nat)
    requires |w| >= 1 && Positive(w) && i < |w|
    ensures var f, s := FloorShares(w, total)[i], Sum(w);
      f * s <= w[i] * total < (f + 1) * s
  {
    SumPositive(w);
    var s := Sum(w);
    var a := w[i] * total;
    var f := FloorShares(w, total)[i];
    assert f == Share(w[i], total, s) == a / s;
    assert a == f * s + a % s;
    Distribute(f, 1, s);
  }

  /** The target counts after the rounding leftover is added to the last grade. */
  function GradeCounts(w: seq<int>, total: nat): (counts: seq<int>)
    requires |w| >= 1 && Positive(w)
    ensures |counts| == |w|
    ensures forall i :: 0 <= i < |w| ==> counts[i] >= 0
    ensures Sum(counts) == total
    ensures total >= 1 ==> counts[|w| - 1] >= 1
    ensures total >= 1 ==> Sum(counts[..|w| - 1]) < total
  {
    var f := FloorShares(w, total);
    var n := |f|;
    var counts := f[n - 1 := f[n - 1] + (total - Sum(f))];
    FloorTotals(w, total);
    SumSplitLast(f);
    SumSplitLast(counts);
    assert counts[..n - 1] == f[..n - 1];
    counts
  }

  /**
   * The drift correction: the leftover `total - sum(floors)` is never
   * negative and all of it lands on the last grade; the other counts are the
   * floored shares.
   */
  lemma DriftToLast(w: seq<int>, total: nat)
    requires |w| >= 1 && Positive(w)
    ensures var f, counts := FloorShares(w, total), GradeCounts(w, total);
      && total - Sum(f) >= 0
      && counts[..|w| - 1] == f[..|w| - 1]
      && counts[|w| - 1] == f[|w| - 1] + (total - Sum(f))
  {
    FloorTotals(w, total);
  }

  lemma SumSplitLast(s: seq<int>)
    requires |s| >= 1
    ensures Sum(s) == Sum(s[..|s| - 1]) + s[|s| - 1]
  {
  }

  lemma {:induction false} SumPositive(w: seq<int>)
    requires Positive(w)
    ensures Sum(w) >= |w|
  {
    if w != [] {
      SumPositive(w[..|w| - 1]);
    }
  }

  /** Sum of floors times the divisor never exceeds the scaled sum of weights. */
  lemma {:induction false} FloorSumBound(w: seq<int>, total: nat, k: nat)
    requires |w| >= 1 && Positive(w)
    requires k <= |w|
    ensures Sum(FloorShares(w, total)[..k]) * Sum(w) <= total * Sum(w[..k])
  {
    var f := FloorShares(w, total);
    if k > 0 {
      FloorSumBound(w, total, k - 1);
      assert f[..k][..k - 1] == f[..k - 1];
      assert w[..k][..k - 1] == w[..k - 1];
      var s, a, b := Sum(w), Sum(f[..k - 1]), f[k - 1];
      var u, v := Sum(w[..k - 1]), w[k - 1];
      assert Sum(f[..k]) == a + b && Sum(w[..k]) == u + v;
      assert a * s <= total * u;
      FloorShareIsFloor(w, total, k - 1);
      assert b * s <= v * total;
      Distribute(a, b, s);
      Distribute(u, v, total);
    }
  }

  /**
   * The floored shares never add up to more than `total`, and with at least
   * one student those of all grades but the last add up to less.
   */
  lemma FloorTotals(w: seq<int>, total: nat)
    requires |w| >= 1 && Positive(w)
    ensures Sum(FloorShares(w, total)) <= total
    ensures total >= 1 ==> Sum(FloorShares(w, total)[..|w| - 1]) < total
  {
    var f, n := FloorShares(w, total), |w|;
    SumPositive(w);
    FloorSumBound(w, total, n);
    assert f[..n] == f && w[..n] == w;
    CancelPositive(Sum(f), total, Sum(w));
    if total >= 1 {
      FloorSumBound(w, total, n - 1);
      SumSplitLast(w);
      BelowByScale(Sum(f[..n - 1]), Sum(w[..n - 1]), Sum(w), total);
    }
  }

  /** `a * s <= t * u` with `u < s` forces `a < t`. */
  lemma BelowByScale(a: int, u: int, s: int, t: int)
    requires s > 0 && t >= 1 && u < s && a * s <= t * u
    ensures a < t
  {
    Distribute(u, s - u, t);
    assert t * u < t * s;
    CancelPositiveStrict(a, t, s);
  }

  lemma CancelPositive(a: int, b: int, s: int)
    requires s > 0 && a * s <= b * s
    ensures a <= b
  {
    if a > b {
      Distribute(a - b, b, s);
    }
  }

  lemma CancelPositiveStrict(a: int, b: int, s: int)
    requires s > 0 && a * s < b * s
    ensures a < b
  {
    if a >= b {
      Distribute(a - b, b, s);
    }
  }

  lemma Distribute(a: int, b: int, s: int)
    ensures (a + b) * s == a * s + b * s && s * (a + b) == a * s + b * s
  {
  }

  /** Prefix sums of non-negative counts grow with the prefix. */
  lemma {:induction false} PrefixSumMono(s: seq<int>, i: nat, j: nat)
    requires forall k :: 0 <= k < |s| ==> s[k] >= 0
    requires i <= j <= |s|
    ensures Sum(s[..i]) <= Sum(s[..j])
  {
    if i < j {
      PrefixSumMono(s, i, j - 1);
      assert s[..j][..j - 1] == s[..j - 1];
    }
  }

}
