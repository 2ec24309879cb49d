/**
 * The boundary map as an insertion-ordered dictionary from grade labels to
 * minimum marks, and the first-match grade assigner of utils.py line 34.
 */
module BoundaryMap {
  import opened Wrappers

  type Label = string

  /** (label, threshold) pairs in dictionary insertion order. */
  type Boundaries = seq<(Label, real)>

  function Keys(b: Boundaries): (ks: seq<Label>)
    ensures |ks| == |b|
    ensures forall i :: 0 <= i < |b| ==> ks[i] == b[i].0
  {
    seq(|b|, i requires 0 <= i < |b| => b[i].0)
  }

  /** No label occurs twice, as in a dictionary. */
  predicate Distinct(ks: seq<Label>)
  {
    forall i, j :: 0 <= i < j < |ks| ==> ks[i] != ks[j]
  }

  /** Where `key` sits in the map: the position of its first pair. */
  function KeyIndex(b: Boundaries, key: Label): (i: nat)
    requires key in Keys(b)
    ensures i < |b| && b[i].0 == key
    ensures forall j :: 0 <= j < i ==> b[j].0 != key
  {
    if b[0].0 == key then 0
    else
      assert Keys(b)[1..] == Keys(b[1..]);
      1 + KeyIndex(b[1..], key)
  }

  /** `b[key]`, or None where indexing the dictionary raises KeyError. */
  function Lookup(b: Boundaries, key: Label): (r: Option<real>)
    ensures r.None? <==> key !in Keys(b)
  {
    if key in Keys(b) then Some(b[KeyIndex(b, key)].1) else None
  }

  /** The first pair carrying the key decides the value. */
  lemma LookupFirst(b: Boundaries, key: Label, i: nat)
    requires i < |b| && b[i].0 == key
    requires forall j :: 0 <= j < i ==> b[j].0 != key
    ensures Lookup(b, key) == Some(b[i].1)
  {
    assert Keys(b)[i] == key;
    var k := KeyIndex(b, key);
    assert !(k < i) && !(i < k);
  }

  /** With distinct keys every pair is found by its own key. */
  lemma LookupAt(b: Boundaries, i: nat)
    requires Distinct(Keys(b)) && i < |b|
    ensures Lookup(b, b[i].0) == Some(b[i].1)
  {
    var ks := Keys(b);
    assert forall j :: 0 <= j < i ==> ks[j] != ks[i];
    LookupFirst(b, b[i].0, i);
  }

  /**
   * `b[key] = value`: a key already present keeps its place and takes the new
   * value; a new key goes to the end.
   */
  function Put(b: Boundaries, key: Label, value: real): (r: Boundaries)
    ensures key !in Keys(b) ==> r == b + [(key, value)]
    ensures key in Keys(b) ==> |r| == |b| && forall i :: 0 <= i < |b| ==> r[i].0 == b[i].0
  {
    if key in Keys(b) then b[KeyIndex(b, key) := (key, value)] else b + [(key, value)]
  }

  /** After `b[key] = value`, `b[key]` is `value` and every other key reads as before. */
  lemma PutLookup(b: Boundaries, key: Label, value: real, k: Label)
    ensures Lookup(Put(b, key, value), key) == Some(value)
    ensures k != key ==> Lookup(Put(b, key, value), k) == Lookup(b, k)
  {
    var r := Put(b, key, value);
    if key in Keys(b) {
      var i := KeyIndex(b, key);
      LookupFirst(r, key, i);
      assert Keys(r) == Keys(b);
      if k != key && k in Keys(b) {
        LookupFirst(r, k, KeyIndex(b, k));
      }
    } else {
      LookupFirst(r, key, |b|);
      if k != key && k in Keys(b) {
        LookupFirst(r, k, KeyIndex(b, k));
      }
      assert k != key ==> (k in Keys(r) <==> k in Keys(b)) by {
        assert Keys(r) == Keys(b) + [key];
      }
    }
  }

  /**
   * The grade of mark `x`: the first label in map order whose threshold is at
   * most `x`, or `fallback` (the last grade label) when none is.
   */
  function Assign(x: real, b: Boundaries, fallback: Label): (g: Label)
    ensures g in Keys(b) || g == fallback
  {
    if b == [] then fallback
    else if x >= b[0].1 then b[0].0
    else
      assert Keys(b) == [b[0].0] + Keys(b[1..]);
      Assign(x, b[1..], fallback)
  }

  /** The `grade` column: each row graded on its own against the same map. */
  function GradeColumn(marks: seq<real>, b: Boundaries, fallback: Label): (grades: seq<Label>)
    ensures |grades| == |marks|
    ensures forall i :: 0 <= i < |marks| ==> grades[i] == Assign(marks[i], b, fallback)
  {
    seq(|marks|, i requires 0 <= i < |marks| => Assign(marks[i], b, fallback))
  }

  /** When every key and the fallback lie in `labels`, so does every grade. */
  lemma GradesWithin(marks: seq<real>, b: Boundaries, fallback: Label, labels: seq<Label>)
    requires forall i :: 0 <= i < |b| ==> b[i].0 in labels
    requires fallback in labels
    ensures forall j :: 0 <= j < |marks| ==> GradeColumn(marks, b, fallback)[j] in labels
  {
    forall j | 0 <= j < |marks|
      ensures Assign(marks[j], b, fallback) in labels
    {
    }
  }

  /**
   * Index of the first threshold at most `x`, or `|b|` when there is none:
   * the position in the map at which the scan of `Assign` stops.
   */
  function MatchIndex(x: real, b: Boundaries): (k: nat)
    ensures k <= |b|
    ensures forall j :: 0 <= j < k ==> x < b[j].1
    ensures k < |b| ==> b[k].1 <= x
  {
    if b == [] || x >= b[0].1 then 0 else 1 + MatchIndex(x, b[1..])
  }

  /** The scan stops at `MatchIndex`: that label, or the fallback past the end. */
  lemma {:induction false} AssignAtMatch(x: real, b: Boundaries, fallback: Label)
    ensures Assign(x, b, fallback) == if MatchIndex(x, b) < |b| then b[MatchIndex(x, b)].0 else fallback
  {
    if b != [] && x < b[0].1 {
      AssignAtMatch(x, b[1..], fallback);
    }
  }

  /**
   * The first threshold at most `x` decides the grade: the label at that
   * position wins even when later thresholds are lower still.
   */
  lemma AssignFirstMatch(x: real, b: Boundaries, fallback: Label, k: nat)
    requires k < |b| && b[k].1 <= x
    requires forall j :: 0 <= j < k ==> x < b[j].1
    ensures Assign(x, b, fallback) == b[k].0
  {
    var m := MatchIndex(x, b);
    assert !(x < b[k].1);
    assert m < |b| ==> b[m].1 <= x;
    AssignAtMatch(x, b, fallback);
  }

  /** A mark below every threshold falls through to the fallback. */
  lemma AssignNoMatch(x: real, b: Boundaries, fallback: Label)
    requires forall k :: 0 <= k < |b| ==> x < b[k].1
    ensures Assign(x, b, fallback) == fallback
  {
    AssignAtMatch(x, b, fallback);
  }

  /**
   * A higher mark never stops later in the scan, whatever the thresholds:
   * grades are monotone in the marks.
   */
  lemma {:induction false} MatchIndexMonotone(x: real, y: real, b: Boundaries)
    requires x <= y
    ensures MatchIndex(y, b) <= MatchIndex(x, b)
  {
    if b != [] && y < b[0].1 {
      MatchIndexMonotone(x, y, b[1..]);
    }
  }
}
