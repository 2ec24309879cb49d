/**
 * `validate_boundaries` (utils.py, lines 37-40): the thresholds of every
 * label but the last, read from the map in label order, must fall strictly
 * from one label to the next.
 */
module Validator {
  import opened Wrappers
  import opened BoundaryMap
  import opened Windows

  /** `grade_labels[:-1]`: every label but the last (none of an empty list). */
  function Init(labels: seq<Label>): (r: seq<Label>)
    ensures |labels| >= 1 ==> r + [labels[|labels| - 1]] == labels
    ensures |labels| == 0 ==> r == []
  {
    if |labels| == 0 then [] else labels[..|labels| - 1]
  }

  /**
   * `[boundaries[grade] for grade in grades]`: the thresholds in the order of
   * `grades`, or the first grade missing from the map, where the comprehension
   * raises KeyError.
   */
  function BoundaryValues(grades: seq<Label>, b: Boundaries): (r: Result<seq<real>, Label>)
    ensures r.Ok? <==> forall i :: 0 <= i < |grades| ==> grades[i] in Keys(b)
    ensures r.Ok? ==> |r.value| == |grades|
    ensures r.Ok? ==> forall i :: 0 <= i < |grades| ==> Lookup(b, grades[i]) == Some(r.value[i])
    ensures r.Err? ==> r.error in grades && r.error !in Keys(b)
  {
    if grades == [] then Ok([])
    else match Lookup(b, grades[0])
      case None => Err(grades[0])
      case Some(v) =>
        match BoundaryValues(grades[1..], b)
        case Err(e) =>
          assert forall i :: 1 <= i < |grades| ==> grades[i] == grades[1..][i - 1];
          Err(e)
        case Ok(vs) =>
          assert forall i :: 1 <= i < |grades| ==> grades[i] == grades[1..][i - 1];
          Ok([v] + vs)
  }

  /** The comprehension raises at the first grade missing from the map. */
  lemma {:induction false} FirstMissing(grades: seq<Label>, b: Boundaries, i: nat)
    requires i < |grades| && grades[i] !in Keys(b)
    requires forall j :: 0 <= j < i ==> grades[j] in Keys(b)
    ensures BoundaryValues(grades, b) == Err(grades[i])
  {
    if i > 0 {
      assert grades[0] in Keys(b);
      assert forall j :: 0 <= j < i - 1 ==> grades[1..][j] == grades[j + 1];
      FirstMissing(grades[1..], b, i - 1);
    }
  }

  /** `boundaries[grade]` for a grade known to be in the map. */
  function Threshold(b: Boundaries, key: Label): real
    requires key in Keys(b)
  {
    Lookup(b, key).value
  }

  /** `all(v[i] > v[i+1] for i in range(len(v) - 1))`, scanned left to right. */
  function Descending(v: seq<real>): (ok: bool)
    ensures ok <==> forall i :: 0 <= i < |v| - 1 ==> v[i] > v[i + 1]
  {
    if |v| < 2 then true
    else
      assert forall i :: 1 <= i < |v| - 1 ==> v[i] == v[1..][i - 1] && v[i + 1] == v[1..][i];
      v[0] > v[1] && Descending(v[1..])
  }

  /**
   * `validate_boundaries(grade_labels, boundaries)`: Ok(true) when the
   * thresholds of all labels but the last fall strictly, Ok(false) when two
   * neighbours do not, Err with the first label missing from the map.
   */
  function ValidateBoundaries(labels: seq<Label>, b: Boundaries): (r: Result<bool, Label>)
    ensures r.Ok? <==> forall i :: 0 <= i < |Init(labels)| ==> Init(labels)[i] in Keys(b)
    ensures r.Err? ==> r.error in Init(labels) && r.error !in Keys(b)
  {
    match BoundaryValues(Init(labels), b)
    case Err(e) => Err(e)
    case Ok(vs) => Ok(Descending(vs))
  }

  /** `KeyError` names the first label but the last that the map lacks. */
  lemma ValidateFirstMissing(labels: seq<Label>, b: Boundaries, i: nat)
    requires i + 1 < |labels| && labels[i] !in Keys(b)
    requires forall j :: 0 <= j < i ==> labels[j] in Keys(b)
    ensures ValidateBoundaries(labels, b) == Err(labels[i])
  {
    var init := Init(labels);
    assert forall j :: 0 <= j <= i ==> init[j] == labels[j];
    FirstMissing(init, b, i);
  }

  /**
   * The verdict in terms of the map itself: with every label but the last
   * present, the validator says true exactly when each such label's
   * threshold is above the next one's.
   */
  lemma ValidateMeans(labels: seq<Label>, b: Boundaries)
    requires forall i :: 0 <= i < |labels| - 1 ==> labels[i] in Keys(b)
    ensures ValidateBoundaries(labels, b).Ok?
    ensures ValidateBoundaries(labels, b).value <==>
      forall i :: 0 <= i < |labels| - 2 ==> Threshold(b, labels[i]) > Threshold(b, labels[i + 1])
  {
    var init := Init(labels);
    assert forall i :: 0 <= i < |init| ==> init[i] == labels[i];
    var vs := BoundaryValues(init, b).value;
    assert forall i :: 0 <= i < |init| ==> vs[i] == Threshold(b, labels[i]);
  }

  /** Strict fall between neighbours is strict fall between any two positions. */
  lemma {:induction false} DescendingTransitive(v: seq<real>, i: nat, j: nat)
    requires Descending(v) && i < j < |v|
    ensures v[i] > v[j]
  {
    if j > i + 1 {
      DescendingTransitive(v, i, j - 1);
    }
  }

  /** With two labels only the first one's threshold is read, and one value is always in order. */
  lemma TwoLabelsValid(labels: seq<Label>, b: Boundaries)
    requires |labels| == 2 && labels[0] in Keys(b)
    ensures ValidateBoundaries(labels, b) == Ok(true)
  {
    assert Init(labels) == [labels[0]];
  }

  /** The last label's threshold is never read: setting it changes no verdict. */
  lemma LastLabelIgnored(labels: seq<Label>, b: Boundaries, v: real)
    requires |labels| >= 1 && Distinct(labels)
    ensures ValidateBoundaries(labels, Put(b, Last(labels), v)) == ValidateBoundaries(labels, b)
  {
    var init := Init(labels);
    var b' := Put(b, Last(labels), v);
    forall i | 0 <= i < |init|
      ensures Lookup(b', init[i]) == Lookup(b, init[i])
    {
      assert init[i] != Last(labels);
      PutLookup(b, Last(labels), v, init[i]);
    }
    BoundaryValuesAgree(init, b, b');
  }

  /** Maps that agree on the looked-up labels give the same values. */
  lemma {:induction false} BoundaryValuesAgree(grades: seq<Label>, b: Boundaries, b': Boundaries)
    requires forall i :: 0 <= i < |grades| ==> Lookup(b, grades[i]) == Lookup(b', grades[i])
    ensures BoundaryValues(grades, b) == BoundaryValues(grades, b')
  {
    if grades != [] {
      assert forall i :: 1 <= i < |grades| ==> grades[1..][i - 1] == grades[i];
      BoundaryValuesAgree(grades[1..], b, b');
    }
  }

  /**
   * A map of the shape the application builds (one entry per label, in
   * label order) that passes validation: its thresholds before the last
   * label fall strictly along the map.
   */
  lemma ValidatedFalls(labels: seq<Label>, b: Boundaries, i: nat, j: nat)
    requires Distinct(labels) && Keys(b) == labels
    requires ValidateBoundaries(labels, b) == Ok(true)
    requires i < j < |labels| - 1
    ensures b[i].1 > b[j].1
  {
    var init := Init(labels);
    var vs := BoundaryValues(init, b).value;
    LookupAt(b, i);
    LookupAt(b, j);
    assert init[i] == labels[i] && init[j] == labels[j];
    DescendingTransitive(vs, i, j);
  }

  /** A mark below one of those thresholds is below every earlier one too. */
  lemma BelowEarlier(labels: seq<Label>, b: Boundaries, x: real, p: nat)
    requires Distinct(labels) && Keys(b) == labels
    requires ValidateBoundaries(labels, b) == Ok(true)
    requires p < |labels| - 1 && x < b[p].1
    ensures forall j :: 0 <= j <= p ==> x < b[j].1
  {
    forall j | 0 <= j < p
      ensures x < b[j].1
    {
      ValidatedFalls(labels, b, j, p);
    }
  }

  /**
   * In a map of that shape a grade names the position where the scan
   * stopped; the last label is also the fallback past the end.
   */
  lemma AssignIsLabelAt(labels: seq<Label>, b: Boundaries, x: real, k: nat)
    requires Distinct(labels) && Keys(b) == labels && k < |labels|
    ensures Assign(x, b, Last(labels)) == labels[k] <==>
      MatchIndex(x, b) == k || (k == |labels| - 1 && MatchIndex(x, b) == |labels|)
  {
    var m := MatchIndex(x, b);
    AssignAtMatch(x, b, Last(labels));
    if m < |b| {
      assert b[m].0 == Keys(b)[m] == labels[m];
    }
  }

  /**
   * In a map of that shape, validated or not, the first label goes exactly
   * to the marks from its threshold up.
   */
  lemma FirstLabelInterval(labels: seq<Label>, b: Boundaries, x: real)
    requires |labels| >= 2 && Distinct(labels) && Keys(b) == labels
    ensures Assign(x, b, Last(labels)) == labels[0] <==> b[0].1 <= x
  {
    AssignIsLabelAt(labels, b, x, 0);
  }

  /**
   * Against a validated map of that shape a middle label `k + 1` (neither
   * the first nor the last) goes exactly to the marks in `[b[k+1], b[k])`.
   */
  lemma ValidatedInterval(labels: seq<Label>, b: Boundaries, x: real, k: nat)
    requires Distinct(labels) && Keys(b) == labels
    requires ValidateBoundaries(labels, b) == Ok(true)
    requires k + 1 < |labels| - 1
    ensures Assign(x, b, Last(labels)) == labels[k + 1] <==> b[k + 1].1 <= x < b[k].1
  {
    if x < b[k].1 {
      BelowEarlier(labels, b, x, k);
    }
    IntervalBetween(labels, b, x, k);
  }

  /**
   * The interval of a middle label `k + 1` in a map in label order, given
   * that a mark below `b[k]` is below every earlier threshold too.
   */
  lemma IntervalBetween(labels: seq<Label>, b: Boundaries, x: real, k: nat)
    requires Distinct(labels) && Keys(b) == labels && k + 1 < |labels| - 1
    requires x < b[k].1 ==> forall j :: 0 <= j <= k ==> x < b[j].1
    ensures Assign(x, b, Last(labels)) == labels[k + 1] <==> b[k + 1].1 <= x < b[k].1
  {
    AssignIsLabelAt(labels, b, x, k + 1);
    var m := MatchIndex(x, b);
    if b[k + 1].1 <= x < b[k].1 {
      assert m < |b| ==> b[m].1 <= x;
    }
  }

  /**
   * Against a validated map of that shape the last label goes exactly to
   * the marks below the threshold of the label before it, whatever the last
   * label's own threshold.
   */
  lemma ValidatedLastInterval(labels: seq<Label>, b: Boundaries, x: real)
    requires |labels| >= 2 && Distinct(labels) && Keys(b) == labels
    requires ValidateBoundaries(labels, b) == Ok(true)
    ensures Assign(x, b, Last(labels)) == Last(labels) <==> x < b[|labels| - 2].1
  {
    LastIntervalAt(labels, b, x, |labels| - 2);
  }

  /** `ValidatedLastInterval` with the position of the label before the last named `p`. */
  lemma LastIntervalAt(labels: seq<Label>, b: Boundaries, x: real, p: nat)
    requires p + 2 == |labels| && Distinct(labels) && Keys(b) == labels
    requires ValidateBoundaries(labels, b) == Ok(true)
    ensures Assign(x, b, labels[p + 1]) == labels[p + 1] <==> x < b[p].1
  {
    AssignIsLabelAt(labels, b, x, p + 1);
    if x < b[p].1 {
      BelowEarlier(labels, b, x, p);
      var m := MatchIndex(x, b);
      assert m < |b| ==> b[m].1 <= x;
    }
  }

  /**
   * Why the check exists: in a map of that shape where a label's threshold
   * is not above the next one's, the next label (when it is not the last)
   * is never handed out.
   */
  lemma NonDescendingUnreachable(labels: seq<Label>, b: Boundaries, k: nat, x: real)
    requires Distinct(labels) && Keys(b) == labels
    requires k + 1 < |labels| - 1 && b[k].1 <= b[k + 1].1
    ensures Assign(x, b, Last(labels)) != labels[k + 1]
  {
    AssignIsLabelAt(labels, b, x, k + 1);
  }

  /** The thresholds 90, 30, 0 over A, B, F fall strictly. */
  lemma ValidExample()
    ensures ValidateBoundaries(["A", "B", "F"], [("A", 90.0), ("B", 30.0), ("F", 0.0)]) == Ok(true)
  {
    var b: Boundaries := [("A", 90.0), ("B", 30.0), ("F", 0.0)];
    LookupFirst(b, "A", 0);
    LookupFirst(b, "B", 1);
  }

  /** A tie between A and B at 30 is rejected. */
  lemma TieExample()
    ensures ValidateBoundaries(["A", "B", "F"], [("A", 30.0), ("B", 30.0), ("F", 0.0)]) == Ok(false)
  {
    var b: Boundaries := [("A", 30.0), ("B", 30.0), ("F", 0.0)];
    LookupFirst(b, "A", 0);
    LookupFirst(b, "B", 1);
  }

  /** A map holding only A's threshold raises KeyError for B. */
  lemma MissingKeyExample()
    ensures ValidateBoundaries(["A", "B", "F"], [("A", 90.0)]) == Err("B")
  {
    var b: Boundaries := [("A", 90.0)];
    LookupFirst(b, "A", 0);
    assert Keys(b) == ["A"];
    assert "B" !in Keys(b);
  }
}
