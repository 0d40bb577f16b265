/**
 * The measure aggregators (`msd_one`, `msd_two`, `msd_three`) and the
 * placeholder filler (`inh_str`).  Both checkpoint copies of the helper
 * module hold the same text for these four functions; they are modelled
 * once here.
 *
 * The bootstrap index dict `boots` maps each inner-replicate key to a
 * record of three index arrays (`all`, `id0`, `id1`).  A Python dict
 * iterates in insertion order, so it is modelled as the key order
 * together with the map.  A measure table is a sequence of rows
 * `(boot, value, measure)`.
 */
module CiHelpers {
  import opened NanValues
  import opened ArrayOps

  /** The index-subset names a measure may be taken over. */
  datatype Subset = All | Id0 | Id1

  /** One inner replicate: `{"all": ..., "id0": ..., "id1": ...}`. */
  datatype Replicate = Replicate(all: seq<int>, id0: seq<int>, id1: seq<int>)
  {
    /** `boots[b][t]`. */
    function Get(t: Subset): seq<int>
    {
      match t
      case All => all
      case Id0 => id0
      case Id1 => id1
    }
  }

  /** An insertion-ordered dict from replicate keys to replicates. */
  datatype BootDict = BootDict(keys: seq<int>, entries: map<int, Replicate>)
  {
    /** The keys are listed once each, and exactly the keys of the map are listed. */
    ghost predicate Valid()
    {
      && (forall i, j :: 0 <= i < j < |keys| ==> keys[i] != keys[j])
      && (forall i :: 0 <= i < |keys| ==> keys[i] in entries)
      && (forall k :: k in entries ==> k in keys)
    }

    /** The replicate met at step i of `for b in boots`. */
    function At(i: int): Replicate
      requires 0 <= i < |keys| && keys[i] in entries
    {
      entries[keys[i]]
    }
  }

  /** Every replicate's subset t indexes an array of length n. */
  ghost predicate Indexes(boots: BootDict, t: Subset, n: int)
  {
    forall i :: 0 <= i < |boots.keys| ==>
      boots.keys[i] in boots.entries && InBounds(boots.entries[boots.keys[i]].Get(t), n)
  }

  /** One row of a measure table. */
  datatype Row = Row(boot: int, value: Value, measure: string)

  type Table = seq<Row>

  /** `np.nanmean(x[boots[b][t]])` for replicate r. */
  function Term(x: seq<Value>, t: Subset, r: Replicate): Value
    requires InBounds(r.Get(t), |x|)
  {
    NanMean(Take(x, r.Get(t)))
  }

  /** The value `msd_two` computes for one replicate. */
  function TwoTerms(x1: seq<Value>, t1: Subset, x2: seq<Value>, t2: Subset, r: Replicate): Value
    requires InBounds(r.Get(t1), |x1|) && InBounds(r.Get(t2), |x2|)
  {
    Add(Term(x1, t1, r), Term(x2, t2, r))
  }

  /** The value `msd_three` computes for one replicate (sums are taken left to right). */
  function ThreeTerms(x1: seq<Value>, t1: Subset, x2: seq<Value>, t2: Subset,
                      x3: seq<Value>, t3: Subset, r: Replicate): Value
    requires InBounds(r.Get(t1), |x1|) && InBounds(r.Get(t2), |x2|) && InBounds(r.Get(t3), |x3|)
  {
    Add(Add(Term(x1, t1, r), Term(x2, t2, r)), Term(x3, t3, r))
  }

  /**
   * `msd_one`: one row per key of `boots`, in iteration order; row i carries
   * boot id i, the NaN-skipping mean of x1 over the replicate's subset t1,
   * and the measure name.
   */
  method MsdOne(x1: seq<Value>, t1: Subset, meas: string, boots: BootDict) returns (table: Table)
    requires boots.Valid()
    requires Indexes(boots, t1, |x1|)
    ensures |table| == |boots.keys|
    ensures forall i :: 0 <= i < |table| ==> table[i] == Row(i, Term(x1, t1, boots.At(i)), meas)
  {
    var measResult: seq<Value> := [];
    var i := 0;
    while i < |boots.keys|
      invariant 0 <= i <= |boots.keys|
      invariant |measResult| == i
      invariant forall j :: 0 <= j < i ==> measResult[j] == Term(x1, t1, boots.At(j))
    {
      var b := boots.keys[i];
      var bootData1 := Take(x1, boots.entries[b].Get(t1));
      measResult := measResult + [NanMean(bootData1)];
      i := i + 1;
    }
    // DataFrame({'value': ..., 'measure': meas}).reset_index(): the boot column is 0..k-1
    table := seq(|measResult|, j requires 0 <= j < |measResult| => Row(j, measResult[j], meas));
  }

  /** `msd_two`: as `msd_one`, with the sum of two means per row. */
  method MsdTwo(x1: seq<Value>, t1: Subset, x2: seq<Value>, t2: Subset, meas: string, boots: BootDict)
    returns (table: Table)
    requires boots.Valid()
    requires Indexes(boots, t1, |x1|) && Indexes(boots, t2, |x2|)
    ensures |table| == |boots.keys|
    ensures forall i :: 0 <= i < |table| ==>
      table[i] == Row(i, TwoTerms(x1, t1, x2, t2, boots.At(i)), meas)
  {
    var measResult: seq<Value> := [];
    var i := 0;
    while i < |boots.keys|
      invariant 0 <= i <= |boots.keys|
      invariant |measResult| == i
      invariant forall j :: 0 <= j < i ==> measResult[j] == TwoTerms(x1, t1, x2, t2, boots.At(j))
    {
      var b := boots.keys[i];
      var bootData1 := Take(x1, boots.entries[b].Get(t1));
      var bootData2 := Take(x2, boots.entries[b].Get(t2));
      measResult := measResult + [Add(NanMean(bootData1), NanMean(bootData2))];
      i := i + 1;
    }
    table := seq(|measResult|, j requires 0 <= j < |measResult| => Row(j, measResult[j], meas));
  }

  /** `msd_three`: as `msd_one`, with the sum of three means per row. */
  method MsdThree(x1: seq<Value>, t1: Subset, x2: seq<Value>, t2: Subset,
                  x3: seq<Value>, t3: Subset, meas: string, boots: BootDict)
    returns (table: Table)
    requires boots.Valid()
    requires Indexes(boots, t1, |x1|) && Indexes(boots, t2, |x2|) && Indexes(boots, t3, |x3|)
    ensures |table| == |boots.keys|
    ensures forall i :: 0 <= i < |table| ==>
      table[i] == Row(i, ThreeTerms(x1, t1, x2, t2, x3, t3, boots.At(i)), meas)
  {
    var measResult: seq<Value> := [];
    var i := 0;
    while i < |boots.keys|
      invariant 0 <= i <= |boots.keys|
      invariant |measResult| == i
      invariant forall j :: 0 <= j < i ==>
        measResult[j] == ThreeTerms(x1, t1, x2, t2, x3, t3, boots.At(j))
    {
      var b := boots.keys[i];
      var bootData1 := Take(x1, boots.entries[b].Get(t1));
      var bootData2 := Take(x2, boots.entries[b].Get(t2));
      var bootData3 := Take(x3, boots.entries[b].Get(t3));
      measResult := measResult + [Add(Add(NanMean(bootData1), NanMean(bootData2)), NanMean(bootData3))];
      i := i + 1;
    }
    table := seq(|measResult|, j requires 0 <= j < |measResult| => Row(j, measResult[j], meas));
  }

  /** A replicate's term is NaN exactly when every selected entry is NaN (or none is selected). */
  lemma TermUndefinedIff(x: seq<Value>, t: Subset, r: Replicate)
    requires InBounds(r.Get(t), |x|)
    ensures Term(x, t, r) == None <==>
      forall j :: 0 <= j < |r.Get(t)| ==> x[r.Get(t)[j]] == None
  {
    NanMeanMissingIff(Take(x, r.Get(t)));
  }

  /** A NaN term makes the two-term sum NaN, whichever side it is on. */
  lemma TwoTermsUndefined(x1: seq<Value>, t1: Subset, x2: seq<Value>, t2: Subset, r: Replicate)
    requires InBounds(r.Get(t1), |x1|) && InBounds(r.Get(t2), |x2|)
    ensures TwoTerms(x1, t1, x2, t2, r) == None <==> Term(x1, t1, r) == None || Term(x2, t2, r) == None
  {
  }

  /** Negating the input array negates its term. */
  lemma TermNegated(x: seq<Value>, t: Subset, r: Replicate)
    requires InBounds(r.Get(t), |x|)
    ensures Term(Negated(x), t, r) == Neg(Term(x, t, r))
  {
    assert Take(Negated(x), r.Get(t)) == Negated(Take(x, r.Get(t)));
    NanMeanNegated(Take(x, r.Get(t)));
  }

  /**
   * `msd_two(y, "id1", -y, "id0")` is the mean of y over id1 minus its mean
   * over id0 when both are defined, and NaN otherwise.
   */
  lemma DifferenceOfMeans(y: seq<Value>, r: Replicate)
    requires InBounds(r.id0, |y|) && InBounds(r.id1, |y|)
    ensures var m1, m0 := Term(y, Id1, r), Term(y, Id0, r);
      TwoTerms(y, Id1, Negated(y), Id0, r) ==
        if m1.Some? && m0.Some? then Some(m1.value - m0.value) else None
  {
    TermNegated(y, Id0, r);
  }

  /** Swapping the two (array, subset) pairs of `msd_two` gives the same value. */
  lemma TwoTermsSymmetric(x1: seq<Value>, t1: Subset, x2: seq<Value>, t2: Subset, r: Replicate)
    requires InBounds(r.Get(t1), |x1|) && InBounds(r.Get(t2), |x2|)
    ensures TwoTerms(x1, t1, x2, t2, r) == TwoTerms(x2, t2, x1, t1, r)
  {
  }

  /** `msd_three`'s value is `msd_two`'s value on the first two pairs plus `msd_one`'s on the third. */
  lemma ThreeIsTwoPlusOne(x1: seq<Value>, t1: Subset, x2: seq<Value>, t2: Subset,
                          x3: seq<Value>, t3: Subset, r: Replicate)
    requires InBounds(r.Get(t1), |x1|) && InBounds(r.Get(t2), |x2|) && InBounds(r.Get(t3), |x3|)
    ensures ThreeTerms(x1, t1, x2, t2, x3, t3, r) == Add(TwoTerms(x1, t1, x2, t2, r), Term(x3, t3, r))
  {
  }

  // ---------------------------------------------------------------------------
  // inh_str

  /** Reference definition of `inh_str(x, meas, set0, setna)`, row by row. */
  function Placeholder(x: Table, meas: string, set0: bool, setna: bool): Table
  {
    seq(|x|, i requires 0 <= i < |x| =>
      Row(x[i].boot, if setna then None else if set0 then Some(0.0) else x[i].value, meas))
  }

  /** `t['measure'] = meas`: the whole column is overwritten. */
  function AssignMeasure(t: Table, meas: string): (r: Table)
    ensures |r| == |t|
    ensures forall i :: 0 <= i < |t| ==> r[i] == t[i].(measure := meas)
  {
    seq(|t|, i requires 0 <= i < |t| => t[i].(measure := meas))
  }

  /** `t['value'] = v`: the whole column is overwritten. */
  function AssignValue(t: Table, v: Value): (r: Table)
    ensures |r| == |t|
    ensures forall i :: 0 <= i < |t| ==> r[i] == t[i].(value := v)
  {
    seq(|t|, i requires 0 <= i < |t| => t[i].(value := v))
  }

  /**
   * `inh_str`: works on a copy of x; keeps the row count and the boot column,
   * renames every row to meas, and forces the values to 0 (`set0`) or to NaN
   * (`setna`); NaN wins when both flags are set because it is applied last.
   */
  method InhStr(x: Table, meas: string, set0: bool, setna: bool) returns (y: Table)
    ensures |y| == |x|
    ensures forall i :: 0 <= i < |y| ==> y[i].boot == x[i].boot && y[i].measure == meas
    ensures forall i :: 0 <= i < |y| ==>
      y[i].value == if setna then None else if set0 then Some(0.0) else x[i].value
    ensures y == Placeholder(x, meas, set0, setna)
  {
    y := x;
    y := AssignMeasure(y, meas);
    if set0 {
      y := AssignValue(y, Some(0.0));
    }
    if setna {
      y := AssignValue(y, None);
    }
  }

  /** With neither flag, `inh_str` only renames: every value is untouched. */
  lemma PlaceholderRenameOnly(x: Table, meas: string)
    ensures |Placeholder(x, meas, false, false)| == |x|
    ensures forall i :: 0 <= i < |x| ==> Placeholder(x, meas, false, false)[i] == x[i].(measure := meas)
  {
  }

  /**
   * Applying `inh_str` twice: the second name always wins; the second call's
   * flags win when it sets one, otherwise the first call's flags still show.
   */
  lemma PlaceholderTwice(x: Table, m1: string, a1: bool, b1: bool, m2: string, a2: bool, b2: bool)
    ensures Placeholder(Placeholder(x, m1, a1, b1), m2, a2, b2) ==
      if a2 || b2 then Placeholder(x, m2, a2, b2) else Placeholder(x, m2, a1, b1)
  {
    var once := Placeholder(x, m1, a1, b1);
    var twice := Placeholder(once, m2, a2, b2);
    var expected := if a2 || b2 then Placeholder(x, m2, a2, b2) else Placeholder(x, m2, a1, b1);
    assert |twice| == |expected|;
    forall i | 0 <= i < |twice|
      ensures twice[i] == expected[i]
    {
    }
  }
}
