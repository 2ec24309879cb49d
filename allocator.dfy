/**
 * `compute_grade_boundaries` (utils.py, lines 5-35): the automatic boundary
 * allocator, the manual override, and the grading of every row.
 */
module Allocator {
  import opened Sorting
  import opened Shares
  import opened BoundaryMap
  import opened Windows

  /**
   * What callers guarantee: at least two labels (the caller refuses fewer),
   * the centric grade is one of them (it is picked from the labels); and, a
   * condition of this model the application does not enforce, no label
   * repeats. The best grade is then never the catch-all one.
   */
  predicate ValidLabels(labels: seq<Label>, centric: Label)
    ensures ValidLabels(labels, centric) ==> |labels| >= 2 && labels[0] != Last(labels)
  {
    |labels| >= 2 && centric in labels && Distinct(labels)
  }

  /** `grade_labels.index(grade_centric)`: the first position of `x`. */
  function IndexOf(labels: seq<Label>, x: Label): (r: nat)
    requires x in labels
    ensures r < |labels| && labels[r] == x
    ensures forall j :: 0 <= j < r ==> labels[j] != x
  {
    if labels[0] == x then 0 else 1 + IndexOf(labels[1..], x)
  }

  /** The per-grade target counts for these labels and this roster size. */
  function Counts(labels: seq<Label>, centric: Label, total: nat): (counts: seq<int>)
    requires ValidLabels(labels, centric)
    ensures |counts| == |labels|
    ensures FitsRoster(counts, total)
  {
    GradeCounts(Weights(|labels|, IndexOf(labels, centric)), total)
  }

  /**
   * The boundary map of the automatic branch: label `i` (all but the last)
   * gets the mark at position `End(i) - 1` of the descending sort, and the
   * last label gets 0. An empty roster writes no threshold but the floor.
   */
  function AutoBoundaries(marks: seq<real>, labels: seq<Label>, centric: Label): (r: Boundaries)
    requires ValidLabels(labels, centric)
    ensures |r| == if |marks| == 0 then 1 else |labels|
  {
    Thresholds(labels, Counts(labels, centric, |marks|), SortDesc(marks))
  }

  /**
   * `(distribution * total_students).astype(int)` followed by the in-place
   * `grade_counts[-1] += total_students - grade_counts.sum()`.
   */
  method RoundedCounts(weights: seq<int>, total: nat) returns (counts: array<int>)
    requires |weights| >= 1 && Positive(weights)
    ensures fresh(counts)
    ensures counts[..] == GradeCounts(weights, total)
  {
    var floors := FloorShares(weights, total);
    var n := |weights|;
    counts := new int[n](i requires 0 <= i < n => floors[i]);
    assert counts[..] == floors;
    counts[n - 1] := counts[n - 1] + (total - Sum(counts[..]));
  }

  /**
   * The loop of the automatic branch: label `i` consumes the next `counts[i]`
   * marks of the descending sort (clamped to the roster) and, while marks
   * remain, gets the last mark its window consumed.
   */
  method WalkWindows(labels: seq<Label>, counts: array<int>, sorted: seq<real>) returns (boundaries: Boundaries)
    requires counts.Length == |labels| && Distinct(labels)
    requires FitsRoster(counts[..], |sorted|)
    ensures |sorted| == 0 ==> boundaries == []
    ensures |sorted| >= 1 ==> boundaries == Walk(labels, counts[..], sorted)
  {
    var total, n := |sorted|, |labels|;
    ghost var cs := counts[..];
    boundaries := [];
    var start := 0;
    for i := 0 to n - 1
      invariant 0 <= start <= total
      invariant start == Min(total, Sum(cs[..i]))
      invariant total == 0 ==> boundaries == []
      invariant total > 0 ==> boundaries == Walk(labels, cs, sorted)[..i]
    {
      WalkStep(labels, cs, sorted, i, start);
      var end := start + counts[i];
      if end > total {
        end := total;
      }
      if start < total {
        boundaries := Put(boundaries, labels[i], ILoc(sorted, end - 1));
      }
      start := end;
    }
    if total > 0 {
      assert Walk(labels, cs, sorted)[..n - 1] == Walk(labels, cs, sorted);
    }
  }

  /**
   * One round of the walk: the clamped end is the end of window `i`, and on a
   * non-empty roster the start is inside it and writing label `i`'s mark
   * extends the first `i` thresholds of the walk by one.
   */
  lemma WalkStep(labels: seq<Label>, counts: seq<int>, sorted: seq<real>, i: nat, start: int)
    requires |counts| == |labels| && Distinct(labels) && FitsRoster(counts, |sorted|)
    requires i < |labels| - 1 && start == Min(|sorted|, Sum(counts[..i]))
    ensures Min(|sorted|, start + counts[i]) == End(counts, |sorted|, i)
    ensures |sorted| >= 1 ==> start < |sorted|
    ensures |sorted| >= 1 ==>
      Put(Walk(labels, counts, sorted)[..i], labels[i], WindowMark(counts, sorted, i))
        == Walk(labels, counts, sorted)[..i + 1]
  {
    assert counts[..i + 1][..i] == counts[..i];
    if |sorted| >= 1 {
      NoClamp(counts, |sorted|, i);
      var w := Walk(labels, counts, sorted);
      assert labels[i] !in Keys(w[..i]) by {
        assert forall k :: 0 <= k < i ==> Keys(w[..i])[k] == labels[k] != labels[i];
      }
      assert w[..i + 1] == w[..i] + [w[i]];
    }
  }

  /**
   * The automatic branch: the counts are computed, the last one absorbs the
   * rounding leftover, the walk over the descending marks writes one
   * threshold per label, and the last label is set to 0.
   */
  method AutoBranch(marks: seq<real>, labels: seq<Label>, centric: Label) returns (boundaries: Boundaries)
    requires ValidLabels(labels, centric)
    ensures boundaries == AutoBoundaries(marks, labels, centric)
  {
    var n := |labels|;
    var weights := Weights(n, IndexOf(labels, centric));
    var counts := RoundedCounts(weights, |marks|);
    ghost var cs := Counts(labels, centric, |marks|);
    assert counts[..] == cs;
    var sorted := SortDesc(marks);
    assert |sorted| == |marks|;
    var walked := WalkWindows(labels, counts, sorted);
    FloorWrite(labels, cs, sorted);
    boundaries := Put(walked, labels[n - 1], 0.0);
  }

  /** `grade_boundaries[grade_labels[-1]] = 0` after the walk appends the floor pair. */
  lemma FloorWrite(labels: seq<Label>, counts: seq<int>, sorted: seq<real>)
    requires |counts| == |labels| && Distinct(labels) && FitsRoster(counts, |sorted|)
    ensures var walked := if |sorted| == 0 then [] else Walk(labels, counts, sorted);
      Put(walked, Last(labels), 0.0) == Thresholds(labels, counts, sorted)
  {
    var walked := if |sorted| == 0 then [] else Walk(labels, counts, sorted);
    assert Last(labels) !in Keys(walked) by {
      assert forall k :: 0 <= k < |walked| ==> Keys(walked)[k] == labels[k] != Last(labels);
    }
  }

  /**
   * Both branches of `compute_grade_boundaries`. A non-empty `manual` map is
   * used unchanged (an absent and an empty override are both falsy);
   * otherwise the automatic map is built. Every row is then graded against
   * the resulting map.
   */
  method ComputeGradeBoundaries(marks: seq<real>, labels: seq<Label>, centric: Label, manual: Boundaries)
    returns (grades: seq<Label>, boundaries: Boundaries)
    requires ValidLabels(labels, centric)
    ensures |manual| > 0 ==> boundaries == manual
    ensures |manual| == 0 ==> boundaries == AutoBoundaries(marks, labels, centric)
    ensures grades == GradeColumn(marks, boundaries, Last(labels))
  {
    if |manual| > 0 {
      boundaries := manual;
    } else {
      boundaries := AutoBranch(marks, labels, centric);
    }
    grades := GradeColumn(marks, boundaries, Last(labels));
  }

  /**
   * The automatic map depends on the marks only as a multiset: reordering the
   * rows changes no threshold.
   */
  lemma AutoOrderFree(m1: seq<real>, m2: seq<real>, labels: seq<Label>, centric: Label)
    requires ValidLabels(labels, centric) && multiset(m1) == multiset(m2)
    ensures AutoBoundaries(m1, labels, centric) == AutoBoundaries(m2, labels, centric)
  {
    assert |m1| == |multiset(m1)| == |multiset(m2)| == |m2|;
    SortDescOrderFree(m1, m2);
  }

  /**
   * Label `i`'s automatic threshold is the mark at position `end_i - 1` of
   * the descending sort, `end_i` being the cumulative target count of
   * labels 0..i (`counts` names the target counts).
   */
  lemma AutoThresholdAt(marks: seq<real>, labels: seq<Label>, centric: Label, counts: seq<int>, i: nat)
    requires ValidLabels(labels, centric) && counts == Counts(labels, centric, |marks|)
    requires |marks| >= 1 && i < |labels| - 1
    ensures 0 <= Sum(counts[..i + 1]) < |marks|
    ensures AutoBoundaries(marks, labels, centric)[i] == (labels[i], ILoc(SortDesc(marks), Sum(counts[..i + 1]) - 1))
  {
    var sorted := SortDesc(marks);
    assert |sorted| == |marks|;
    ThresholdAt(labels, counts, sorted, i);
  }

  /** Every row the automatic branch grades gets one of the labels. */
  lemma AutoGradesAreLabels(marks: seq<real>, labels: seq<Label>, centric: Label)
    requires ValidLabels(labels, centric)
    ensures forall j :: 0 <= j < |marks| ==>
      GradeColumn(marks, AutoBoundaries(marks, labels, centric), Last(labels))[j] in labels
  {
    ThresholdGradesAreLabels(marks, labels, Counts(labels, centric, |marks|), SortDesc(marks));
  }

  const ExampleLabels: seq<Label> := ["A", "B", "F"]

  /** Ten marks 100, 90, ..., 10. */
  const ExampleMarks: seq<real> := [100.0, 90.0, 80.0, 70.0, 60.0, 50.0, 40.0, 30.0, 20.0, 10.0]

  lemma Sum3(a: int, b: int, c: int)
    ensures Sum([a, b, c]) == a + b + c
  {
    assert Sum([a]) == Sum([a][..0]) + a == a;
    assert Sum([a, b]) == Sum([a, b][..1]) + b == a + b;
    assert [a, b, c][..2] == [a, b];
    assert Sum([a, b, c]) == Sum([a, b, c][..2]) + c;
  }

  /** Weights 1, 2, 1 give ten students the counts 2, 5, 3 (2 + 5 + 2, plus the leftover 1). */
  lemma ExampleCounts()
    ensures ValidLabels(ExampleLabels, "B")
    ensures Counts(ExampleLabels, "B", 10) == [2, 5, 3]
  {
    assert ValidLabels(ExampleLabels, "B");
    assert IndexOf(ExampleLabels, "B") == 1;
    var w := Weights(3, 1);
    assert w == [1, 2, 1];
    Sum3(1, 2, 1);
    var f := FloorShares(w, 10);
    assert f == [2, 5, 2];
    Sum3(2, 5, 2);
  }

  /** The example marks are already in descending order. */
  lemma ExampleSorted()
    ensures SortDesc(ExampleMarks) == ExampleMarks
  {
    assert SortedDesc(ExampleMarks);
    SortedUnique(SortDesc(ExampleMarks), ExampleMarks);
  }

  /** The walk over the example's counts and marks. */
  lemma ExampleThresholds()
    ensures FitsRoster([2, 5, 3], 10)
    ensures Thresholds(ExampleLabels, [2, 5, 3], ExampleMarks) == [("A", 90.0), ("B", 40.0), ("F", 0.0)]
  {
    var counts: seq<int> := [2, 5, 3];
    Sum3(2, 5, 3);
    assert counts[..1] == [2] && counts[..2] == [2, 5];
    assert Sum([2]) == Sum([2][..0]) + 2;
    assert Sum([2, 5]) == Sum([2, 5][..1]) + 5;
    ThresholdAt(ExampleLabels, counts, ExampleMarks, 0);
    ThresholdAt(ExampleLabels, counts, ExampleMarks, 1);
  }

  /** Against the example's map a 95 is an A, a 50 a B and a 5 an F. */
  lemma ExampleGrades()
    ensures GradeColumn([95.0, 50.0, 5.0], [("A", 90.0), ("B", 40.0), ("F", 0.0)], "F") == ["A", "B", "F"]
  {
    var b: Boundaries := [("A", 90.0), ("B", 40.0), ("F", 0.0)];
    AssignFirstMatch(95.0, b, "F", 0);
    AssignFirstMatch(50.0, b, "F", 1);
    AssignFirstMatch(5.0, b, "F", 2);
  }

  /**
   * Ten students over A, B, F centred on B: thresholds A 90, B 40, F 0.
   */
  lemma WorkedExample()
    ensures AutoBoundaries(ExampleMarks, ExampleLabels, "B") == [("A", 90.0), ("B", 40.0), ("F", 0.0)]
  {
    ExampleCounts();
    ExampleSorted();
    ExampleThresholds();
  }

  /** Three marks 30, 20, 10. */
  const WrapMarks: seq<real> := [30.0, 20.0, 10.0]

  /** Three students over A, B, F centred on B: floors 0, 1, 0, so counts 0, 1, 2. */
  lemma WrapCounts()
    ensures Counts(ExampleLabels, "B", 3) == [0, 1, 2]
  {
    assert IndexOf(ExampleLabels, "B") == 1;
    var w := Weights(3, 1);
    assert w == [1, 2, 1];
    Sum3(1, 2, 1);
    var f := FloorShares(w, 3);
    assert f == [0, 1, 0];
    Sum3(0, 1, 0);
  }

  /**
   * A's window is empty, so its threshold is read at position -1: the lowest
   * mark, 10. B's window ends at 1 and gets the top mark, 30.
   */
  lemma WrapExample()
    ensures AutoBoundaries(WrapMarks, ExampleLabels, "B") == [("A", 10.0), ("B", 30.0), ("F", 0.0)]
  {
    WrapCounts();
    assert SortedDesc(WrapMarks);
    SortedUnique(SortDesc(WrapMarks), WrapMarks);
    WrapThresholds();
  }

  /** The walk over the wrap example's counts and marks. */
  lemma WrapThresholds()
    ensures FitsRoster([0, 1, 2], 3)
    ensures Thresholds(ExampleLabels, [0, 1, 2], WrapMarks) == [("A", 10.0), ("B", 30.0), ("F", 0.0)]
  {
    var counts: seq<int> := [0, 1, 2];
    assert counts[..1] == [0] && counts[..2] == [0, 1];
    assert Sum([0]) == Sum([0][..0]) + 0;
    assert Sum([0, 1]) == Sum([0, 1][..1]) + 1;
    Sum3(0, 1, 2);
    ThresholdAt(ExampleLabels, counts, WrapMarks, 0);
    ThresholdAt(ExampleLabels, counts, WrapMarks, 1);
  }

  /** Against that map every one of the three students, 10 included, is an A. */
  lemma WrapGrades()
    ensures GradeColumn(WrapMarks, [("A", 10.0), ("B", 30.0), ("F", 0.0)], "F") == ["A", "A", "A"]
  {
    var b: Boundaries := [("A", 10.0), ("B", 30.0), ("F", 0.0)];
    AssignFirstMatch(30.0, b, "F", 0);
    AssignFirstMatch(20.0, b, "F", 0);
    AssignFirstMatch(10.0, b, "F", 0);
  }
}
