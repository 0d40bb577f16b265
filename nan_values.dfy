/**
 * Floating-point cells as the measure code sees them: a number or NaN.
 * Rounding is not modelled; a cell is `Some(r)` for the real number r and
 * `None` for NaN.  `NanMean` is numpy's `nanmean`: the mean of the present
 * entries, NaN when there are none.
 */
module NanValues {

  datatype Option<+T> = None | Some(value: T)

  /** A float cell: `Some(r)` is the number r, `None` is NaN. */
  type Value = Option<real>

  /** Float addition: NaN in either operand makes the sum NaN. */
  function Add(a: Value, b: Value): Value
  {
    if a.Some? && b.Some? then Some(a.value + b.value) else None
  }

  /** Unary minus; the negation of NaN is NaN. */
  function Neg(a: Value): Value
  {
    if a.Some? then Some(-a.value) else None
  }

  /** Element-wise negation of an array (`-y`). */
  function Negated(xs: seq<Value>): (r: seq<Value>)
    ensures |r| == |xs|
    ensures forall j :: 0 <= j < |xs| ==> r[j] == Neg(xs[j])
  {
    seq(|xs|, j requires 0 <= j < |xs| => Neg(xs[j]))
  }

  /** Number of non-NaN entries. */
  function PresentCount(xs: seq<Value>): nat
  {
    if xs == [] then 0 else (if xs[0].Some? then 1 else 0) + PresentCount(xs[1..])
  }

  /** Sum of the non-NaN entries. */
  function PresentSum(xs: seq<Value>): real
  {
    if xs == [] then 0.0 else (if xs[0].Some? then xs[0].value else 0.0) + PresentSum(xs[1..])
  }

  /** `np.nanmean`: NaN entries are skipped; no present entry at all gives NaN. */
  function NanMean(xs: seq<Value>): Value
  {
    var c := PresentCount(xs);
    if c == 0 then None else Some(PresentSum(xs) / c as real)
  }

  /** The mean is NaN exactly when every entry is NaN (in particular for an empty array): never 0. */
  lemma {:induction false} NanMeanMissingIff(xs: seq<Value>)
    ensures NanMean(xs) == None <==> forall j :: 0 <= j < |xs| ==> xs[j] == None
  {
    PresentCountZeroIff(xs);
  }

  lemma {:induction false} PresentCountZeroIff(xs: seq<Value>)
    ensures PresentCount(xs) == 0 <==> forall j :: 0 <= j < |xs| ==> xs[j] == None
  {
    if xs != [] {
      PresentCountZeroIff(xs[1..]);
      assert forall j :: 1 <= j < |xs| ==> xs[j] == xs[1..][j - 1];
    }
  }

  lemma {:induction false} NegatedSums(xs: seq<Value>)
    ensures PresentCount(Negated(xs)) == PresentCount(xs)
    ensures PresentSum(Negated(xs)) == -PresentSum(xs)
  {
    if xs != [] {
      NegatedSums(xs[1..]);
      assert Negated(xs)[1..] == Negated(xs[1..]);
    }
  }

  /** Negating every entry negates the mean (NaN stays NaN). */
  lemma NanMeanNegated(xs: seq<Value>)
    ensures NanMean(Negated(xs)) == Neg(NanMean(xs))
  {
    NegatedSums(xs);
    if PresentCount(xs) != 0 {
      DivNegate(PresentSum(xs), PresentCount(xs) as real);
    }
  }

  lemma DivNegate(s: real, c: real)
    requires c != 0.0
    ensures (-s) / c == -(s / c)
  {
    var q, q' := s / c, (-s) / c;
    assert q * c == s;
    assert q' * c == -s;
    assert (q' + q) * c == 0.0;
  }

  lemma {:induction false} PresentSumBounds(xs: seq<Value>, lo: real, hi: real)
    requires forall j :: 0 <= j < |xs| && xs[j].Some? ==> lo <= xs[j].value <= hi
    ensures lo * PresentCount(xs) as real <= PresentSum(xs) <= hi * PresentCount(xs) as real
  {
    if xs != [] {
      assert forall j :: 0 <= j < |xs[1..]| ==> xs[1..][j] == xs[j + 1];
      PresentSumBounds(xs[1..], lo, hi);
    }
  }

  /** A defined mean lies between any lower and upper bound of the non-NaN entries. */
  lemma NanMeanWithin(xs: seq<Value>, lo: real, hi: real)
    requires forall j :: 0 <= j < |xs| && xs[j].Some? ==> lo <= xs[j].value <= hi
    requires NanMean(xs).Some?
    ensures lo <= NanMean(xs).value <= hi
  {
    PresentSumBounds(xs, lo, hi);
    DivWithin(PresentSum(xs), PresentCount(xs) as real, lo, hi);
  }

  lemma DivWithin(s: real, c: real, lo: real, hi: real)
    requires c > 0.0
    requires lo * c <= s <= hi * c
    ensures lo <= s / c <= hi
  {
    var q := s / c;
    assert q * c == s;
    if q < lo {
      MulStrict(q, lo, c);
    }
    if hi < q {
      MulStrict(hi, q, c);
    }
  }

  lemma MulStrict(a: real, b: real, c: real)
    requires a < b
    requires c > 0.0
    ensures a * c < b * c
  {
  }
}
