/**
 * `clean_data` (utils.py, lines 52-59): marks that did not parse as numbers
 * are reported and their rows dropped; the other rows keep their order.
 * Each row arrives as the outcome of the numeric conversion: `Some(mark)`,
 * or `None` where the conversion produced NaN.
 */
module Cleaner {
  import opened Wrappers

  /** The rows that survive `dropna`, in their original order. */
  function Valid(raw: seq<Option<real>>): (kept: seq<real>)
    ensures |kept| <= |raw|
    ensures forall x :: x in kept <==> Some(x) in raw
  {
    if raw == [] then []
    else
      assert raw == [raw[0]] + raw[1..];
      (if raw[0].Some? then [raw[0].value] else []) + Valid(raw[1..])
  }

  /** `len(invalid_rows)`: the count the warning reports. */
  function InvalidCount(raw: seq<Option<real>>): (n: nat)
    ensures n + |Valid(raw)| == |raw|
    ensures n == 0 <==> forall i :: 0 <= i < |raw| ==> raw[i].Some?
  {
    if raw == [] then 0
    else
      assert forall i :: 1 <= i < |raw| ==> raw[i] == raw[1..][i - 1];
      (if raw[0].None? then 1 else 0) + InvalidCount(raw[1..])
  }

  datatype Cleaned = Cleaned(marks: seq<real>, invalid: nat)

  /**
   * The cleaned marks and the number of rows removed; a roster without
   * invalid rows comes back as it was.
   */
  function CleanData(raw: seq<Option<real>>): (r: Cleaned)
    ensures |r.marks| + r.invalid == |raw|
    ensures r.invalid == 0 <==> forall i :: 0 <= i < |raw| ==> raw[i].Some?
    ensures forall x :: x in r.marks <==> Some(x) in raw
  {
    Cleaned(Valid(raw), InvalidCount(raw))
  }

  /** Wrapping each mark as a parsed value, the inverse of the conversion outcome. */
  function Parsed(marks: seq<real>): (raw: seq<Option<real>>)
    ensures |raw| == |marks|
    ensures forall i :: 0 <= i < |marks| ==> raw[i] == Some(marks[i])
  {
    seq(|marks|, i requires 0 <= i < |marks| => Some(marks[i]))
  }

  /** Cleaning keeps the relative order: the rows of a concatenation are cleaned part by part. */
  lemma {:induction false} CleanAppend(a: seq<Option<real>>, b: seq<Option<real>>)
    ensures Valid(a + b) == Valid(a) + Valid(b)
  {
    if a != [] {
      assert (a + b)[0] == a[0];
      assert (a + b)[1..] == a[1..] + b;
      CleanAppend(a[1..], b);
    } else {
      assert a + b == b;
    }
  }

  /** A roster whose marks all parsed loses nothing. */
  lemma {:induction false} CleanParsed(marks: seq<real>)
    ensures CleanData(Parsed(marks)) == Cleaned(marks, 0)
  {
    if marks != [] {
      assert Parsed(marks)[1..] == Parsed(marks[1..]);
      CleanParsed(marks[1..]);
    }
  }

  /** Cleaning twice changes nothing more: the cleaned roster has no invalid rows left. */
  lemma CleanIdempotent(raw: seq<Option<real>>)
    ensures CleanData(Parsed(CleanData(raw).marks)) == Cleaned(CleanData(raw).marks, 0)
  {
    CleanParsed(CleanData(raw).marks);
  }

  /** Marks 55, "abc", 70, "" come out as 55, 70 with two rows reported. */
  lemma CleanExample()
    ensures CleanData([Some(55.0), None, Some(70.0), None]) == Cleaned([55.0, 70.0], 2)
  {
    var raw: seq<Option<real>> := [Some(55.0), None, Some(70.0), None];
    assert raw[1..] == [None, Some(70.0), None];
    assert raw[1..][1..] == [Some(70.0), None];
    assert raw[1..][1..][1..] == [None];
    assert Valid([None]) == [] && InvalidCount([None]) == 1;
  }
}
