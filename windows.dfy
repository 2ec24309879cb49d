/**
 * The windows of the threshold walk in `compute_grade_boundaries` (utils.py,
 * lines 22-30), over counts that fit the roster the way the drift-corrected
 * counts do: label `i` consumes the next `counts[i]` marks, the window end is
 * clamped to the roster, and the label's threshold is the mark at `end - 1`,
 * read the way `iloc` reads it. For such counts every window of a label but
 * the last starts inside a non-empty roster (`NoClamp`), so the guard
 * `start_idx < total_students` holds at every write and needs no branch here.
 */
module Windows {
  import opened Sorting
  import opened Shares
  import opened BoundaryMap

  predicate NonNegative(counts: seq<int>)
  {
    forall k :: 0 <= k < |counts| ==> counts[k] >= 0
  }

  /**
   * Counts that fit the roster the way the drift-corrected counts do: they
   * add up to `total`, and with one student or more all but the last add
   * up to less.
   */
  predicate FitsRoster(counts: seq<int>, total: nat)
  {
    && |counts| >= 1
    && NonNegative(counts)
    && Sum(counts) == total
    && (total >= 1 ==> Sum(counts[..|counts| - 1]) < total)
  }

  /** `grade_labels[-1]`, the catch-all lowest grade. */
  function Last(labels: seq<Label>): Label
    requires |labels| >= 1
  {
    labels[|labels| - 1]
  }

  /** `iloc[k]`: a negative position counts from the end, as in Python. */
  function ILoc(s: seq<real>, k: int): (r: real)
    requires -|s| <= k < |s|
    ensures r == s[(k + |s|) % |s|]
    ensures r in s
  {
    if k >= 0 then s[k] else s[|s| + k]
  }

  /** Where the window of grade `i` ends: the cumulative count, clamped to the roster. */
  function End(counts: seq<int>, total: nat, i: nat): (e: nat)
    requires i < |counts| && NonNegative(counts)
    ensures e <= total
  {
    SumNonNegative(counts, i + 1);
    Min(total, Sum(counts[..i + 1]))
  }

  /** The mark at position `end - 1` of the descending column, for the window of grade `i`. */
  function WindowMark(counts: seq<int>, sorted: seq<real>, i: nat): (m: real)
    requires |sorted| >= 1 && i < |counts| && NonNegative(counts)
    ensures m in sorted
  {
    ILoc(sorted, End(counts, |sorted|, i) - 1)
  }

  /** The thresholds the walk writes for all labels but the last, on a non-empty roster. */
  function Walk(labels: seq<Label>, counts: seq<int>, sorted: seq<real>): (r: Boundaries)
    requires |sorted| >= 1 && |counts| == |labels| && FitsRoster(counts, |sorted|)
    ensures |r| == |labels| - 1
    ensures forall i :: 0 <= i < |r| ==> r[i] == (labels[i], WindowMark(counts, sorted, i))
  {
    seq(|labels| - 1, i requires 0 <= i < |labels| - 1 =>
          (labels[i], WindowMark(counts, sorted, i)))
  }

  /**
   * The map the automatic branch leaves behind: the walk's thresholds (none
   * on an empty roster), then the last label with threshold 0.
   */
  function Thresholds(labels: seq<Label>, counts: seq<int>, sorted: seq<real>): (r: Boundaries)
    requires |counts| == |labels| && FitsRoster(counts, |sorted|)
    ensures |r| == if |sorted| == 0 then 1 else |labels|
    ensures r[|r| - 1] == (Last(labels), 0.0)
  {
    if |sorted| == 0 then [(Last(labels), 0.0)]
    else Walk(labels, counts, sorted) + [(Last(labels), 0.0)]
  }

  lemma SumNonNegative(s: seq<int>, i: nat)
    requires NonNegative(s) && i <= |s|
    ensures Sum(s[..i]) >= 0
  {
    PrefixSumMono(s, 0, i);
    assert s[..0] == [];
  }

  /**
   * With at least one student, the window of every label but the last starts
   * and ends inside the roster: the clamp never fires and every start is
   * below the roster size.
   */
  lemma NoClamp(counts: seq<int>, total: nat, i: nat)
    requires FitsRoster(counts, total) && total >= 1 && i < |counts| - 1
    ensures 0 <= Sum(counts[..i]) <= Sum(counts[..i + 1]) < total
    ensures End(counts, total, i) == Sum(counts[..i + 1])
  {
    var n := |counts|;
    PrefixSumMono(counts, i + 1, n - 1);
    PrefixSumMono(counts, i, i + 1);
    SumNonNegative(counts, i);
  }

  /** Without a clamp, label `i`'s mark sits at the cumulative count minus one. */
  lemma WindowMarkAt(counts: seq<int>, sorted: seq<real>, i: nat)
    requires FitsRoster(counts, |sorted|) && |sorted| >= 1 && i < |counts| - 1
    ensures 0 <= Sum(counts[..i + 1]) < |sorted|
    ensures WindowMark(counts, sorted, i) == ILoc(sorted, Sum(counts[..i + 1]) - 1)
  {
    NoClamp(counts, |sorted|, i);
  }

  /**
   * A non-empty window inside the roster: its mark is the last one it
   * consumed and no mark it consumed is lower.
   */
  lemma WindowMinimum(counts: seq<int>, sorted: seq<real>, i: nat)
    requires SortedDesc(sorted) && |sorted| >= 1 && i < |counts| && NonNegative(counts)
    requires counts[i] >= 1 && Sum(counts[..i + 1]) <= |sorted|
    ensures 0 <= Sum(counts[..i]) < Sum(counts[..i + 1])
    ensures WindowMark(counts, sorted, i) == sorted[Sum(counts[..i + 1]) - 1]
    ensures forall k :: Sum(counts[..i]) <= k < Sum(counts[..i + 1]) ==> sorted[k] >= WindowMark(counts, sorted, i)
  {
    SumNonNegative(counts, i);
    assert counts[..i + 1][..i] == counts[..i];
  }

  /**
   * When the first window is non-empty every window ends at position 1 or
   * later, the ends grow with the label index, and so the marks at those
   * ends do not increase.
   */
  lemma WindowMonotone(counts: seq<int>, sorted: seq<real>, i: nat, j: nat)
    requires SortedDesc(sorted) && |sorted| >= 1 && NonNegative(counts)
    requires i <= j < |counts| && counts[0] >= 1
    ensures WindowMark(counts, sorted, i) >= WindowMark(counts, sorted, j)
  {
    PrefixSumMono(counts, 1, i + 1);
    PrefixSumMono(counts, i + 1, j + 1);
    assert counts[..1] == [counts[0]];
    assert Sum(counts[..1]) == counts[0];
  }

  /**
   * When the first window is empty, `iloc[-1]` gives the first label the
   * lowest mark of the column.
   */
  lemma EmptyFirstWindow(counts: seq<int>, sorted: seq<real>)
    requires |sorted| >= 1 && |counts| >= 1 && NonNegative(counts) && counts[0] == 0
    ensures WindowMark(counts, sorted, 0) == sorted[|sorted| - 1]
  {
    assert counts[..1] == [counts[0]];
    assert Sum(counts[..1]) == 0;
  }

  /**
   * One key per label, in label order, as soon as there is one student; an
   * empty roster leaves the floor of the last label alone.
   */
  lemma ThresholdKeys(labels: seq<Label>, counts: seq<int>, sorted: seq<real>)
    requires |counts| == |labels| && FitsRoster(counts, |sorted|)
    ensures Keys(Thresholds(labels, counts, sorted)) == if |sorted| == 0 then [Last(labels)] else labels
  {
    var r := Thresholds(labels, counts, sorted);
    if |sorted| > 0 {
      assert forall i :: 0 <= i < |labels| ==> Keys(r)[i] == labels[i];
    }
  }

  /**
   * Label `i`'s threshold is the mark at position `end_i - 1` of the
   * descending column, `end_i` being the cumulative count of labels 0..i;
   * when `end_i` is 0 that position is -1, which selects the lowest mark.
   */
  lemma ThresholdAt(labels: seq<Label>, counts: seq<int>, sorted: seq<real>, i: nat)
    requires |counts| == |labels| && FitsRoster(counts, |sorted|)
    requires |sorted| >= 1 && i < |labels| - 1
    ensures 0 <= Sum(counts[..i + 1]) < |sorted|
    ensures Thresholds(labels, counts, sorted)[i] == (labels[i], ILoc(sorted, Sum(counts[..i + 1]) - 1))
  {
    WindowMarkAt(counts, sorted, i);
    assert Thresholds(labels, counts, sorted)[i] == Walk(labels, counts, sorted)[i];
  }

  /**
   * A non-empty window: its threshold is the last mark it consumed, and
   * every mark it consumed is at least that threshold.
   */
  lemma ThresholdWindowMinimum(labels: seq<Label>, counts: seq<int>, sorted: seq<real>, i: nat)
    requires |counts| == |labels| && FitsRoster(counts, |sorted|) && SortedDesc(sorted)
    requires |sorted| >= 1 && i < |labels| - 1 && counts[i] >= 1
    ensures 0 <= Sum(counts[..i]) < Sum(counts[..i + 1]) < |sorted|
    ensures Thresholds(labels, counts, sorted)[i] == (labels[i], sorted[Sum(counts[..i + 1]) - 1])
    ensures forall k :: Sum(counts[..i]) <= k < Sum(counts[..i + 1]) ==>
      sorted[k] >= Thresholds(labels, counts, sorted)[i].1
  {
    NoClamp(counts, |sorted|, i);
    WindowMinimum(counts, sorted, i);
    assert Thresholds(labels, counts, sorted)[i] == Walk(labels, counts, sorted)[i];
  }

  /**
   * When the first label's window is non-empty, the thresholds of the labels
   * before the last never increase along the label order.
   */
  lemma ThresholdsDescending(labels: seq<Label>, counts: seq<int>, sorted: seq<real>, i: nat, j: nat)
    requires |counts| == |labels| && FitsRoster(counts, |sorted|) && SortedDesc(sorted)
    requires |sorted| >= 1 && counts[0] >= 1 && i <= j < |labels| - 1
    ensures Thresholds(labels, counts, sorted)[i].1 >= Thresholds(labels, counts, sorted)[j].1
  {
    WindowMonotone(counts, sorted, i, j);
    var w := Walk(labels, counts, sorted);
    assert Thresholds(labels, counts, sorted)[i] == w[i];
    assert Thresholds(labels, counts, sorted)[j] == w[j];
  }

  /**
   * The marks in the first label's window, the `counts[0]` best, are graded
   * with the first label.
   */
  lemma TopMarksGetFirstLabel(labels: seq<Label>, counts: seq<int>, sorted: seq<real>, k: nat)
    requires |counts| == |labels| >= 2 && FitsRoster(counts, |sorted|) && SortedDesc(sorted)
    requires k < counts[0]
    ensures k < |sorted|
    ensures Assign(sorted[k], Thresholds(labels, counts, sorted), Last(labels)) == labels[0]
  {
    assert counts[..0] == [];
    assert counts[..1] == [counts[0]];
    assert counts[..|counts|] == counts;
    PrefixSumMono(counts, 1, |counts|);
    ThresholdWindowMinimum(labels, counts, sorted, 0);
    AssignFirstMatch(sorted[k], Thresholds(labels, counts, sorted), Last(labels), 0);
  }

  /**
   * When the first label's window is empty, `iloc[-1]` gives it the lowest
   * mark of the column as threshold, and every student gets the first label.
   */
  lemma EmptyFirstWindowGradesAllFirst(labels: seq<Label>, counts: seq<int>, sorted: seq<real>, x: real)
    requires |counts| == |labels| >= 2 && FitsRoster(counts, |sorted|) && SortedDesc(sorted)
    requires |sorted| >= 1 && counts[0] == 0 && x in sorted
    ensures Thresholds(labels, counts, sorted)[0] == (labels[0], sorted[|sorted| - 1])
    ensures Assign(x, Thresholds(labels, counts, sorted), Last(labels)) == labels[0]
  {
    var b := Thresholds(labels, counts, sorted);
    EmptyFirstWindow(counts, sorted);
    assert b[0] == Walk(labels, counts, sorted)[0];
    var m :| 0 <= m < |sorted| && sorted[m] == x;
    assert b[0].1 <= x by {
      if m < |sorted| - 1 {
        assert sorted[m] >= sorted[|sorted| - 1];
      }
    }
    AssignFirstMatch(x, b, Last(labels), 0);
  }

  /** Every grade the automatic map hands out is one of the labels. */
  lemma ThresholdGradesAreLabels(marks: seq<real>, labels: seq<Label>, counts: seq<int>, sorted: seq<real>)
    requires |counts| == |labels| && FitsRoster(counts, |sorted|)
    ensures forall j :: 0 <= j < |marks| ==>
      GradeColumn(marks, Thresholds(labels, counts, sorted), Last(labels))[j] in labels
  {
    var b := Thresholds(labels, counts, sorted);
    ThresholdKeys(labels, counts, sorted);
    assert forall i :: 0 <= i < |b| ==> b[i].0 == Keys(b)[i] && Keys(b)[i] in labels;
    GradesWithin(marks, b, Last(labels), labels);
  }
}
