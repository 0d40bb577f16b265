/**
 * The index bookkeeping at the start of `ci_crf`: the outer (refit)
 * bootstrap sample, the dict of inner bootstrap replicates with each
 * replicate's draw split by protected-attribute level, and the total
 * variation `tv`.  The random draws are parameters: `outerDraw` stands for
 * `np.random.randint(0, n, n)` and `innerDraws[k]` for the draw made for
 * inner replicate k.
 */
module CausalForest {
  import opened NanValues
  import opened ArrayOps
  import opened CiHelpers

  /** The two columns of a data row the modelled code reads: X and Y (as float). */
  datatype Observation = Observation(x: string, y: Value)

  /** `data[X]`. */
  function XColumn(data: seq<Observation>): (r: seq<string>)
    ensures |r| == |data|
    ensures forall j :: 0 <= j < |data| ==> r[j] == data[j].x
  {
    seq(|data|, j requires 0 <= j < |data| => data[j].x)
  }

  /** `data[Y].astype(float)`. */
  function YColumn(data: seq<Observation>): (r: seq<Value>)
    ensures |r| == |data|
    ensures forall j :: 0 <= j < |data| ==> r[j] == data[j].y
  {
    seq(|data|, j requires 0 <= j < |data| => data[j].y)
  }

  /** A draw of n indices from [0, n), as `np.random.randint(0, n, n)` makes. */
  ghost predicate IsDraw(d: seq<int>, n: int)
  {
    |d| == n && InBounds(d, n)
  }

  /**
   * A replicate whose `id0` and `id1` are the order-preserving partition of
   * `all` into the rows at level x0 and the rows at any other level.
   */
  ghost predicate WellSplit(r: Replicate, xs: seq<string>, x0: string)
  {
    && InBounds(r.all, |xs|)
    && InBounds(r.id0, |xs|)
    && InBounds(r.id1, |xs|)
    && Interleaves(r.all, r.id0, r.id1)
    && (forall j :: 0 <= j < |r.id0| ==> xs[r.id0[j]] == x0)
    && (forall j :: 0 <= j < |r.id1| ==> xs[r.id1[j]] != x0)
  }

  /** The mask `boot_data[X][ind] == x0`. */
  function LevelMask(xs: seq<string>, ind: seq<int>, x0: string): (m: seq<bool>)
    requires InBounds(ind, |xs|)
    ensures |m| == |ind|
    ensures forall j :: 0 <= j < |ind| ==> m[j] == (xs[ind[j]] == x0)
  {
    var picked := Take(xs, ind);
    seq(|picked|, j requires 0 <= j < |picked| => picked[j] == x0)
  }

  /** Splitting a draw with the level mask and its negation gives a well-split replicate. */
  lemma LevelSplit(ind: seq<int>, xs: seq<string>, x0: string)
    requires InBounds(ind, |xs|)
    ensures var m := LevelMask(xs, ind, x0);
      WellSplit(Replicate(ind, Compress(ind, m), Compress(ind, Not(m))), xs, x0)
  {
    var m := LevelMask(xs, ind, x0);
    var id0, id1 := Compress(ind, m), Compress(ind, Not(m));
    CompressInterleaves(ind, m);
    forall j | 0 <= j < |id0|
      ensures 0 <= id0[j] < |xs| && xs[id0[j]] == x0
    {
      CompressMember(ind, m, id0[j]);
    }
    forall j | 0 <= j < |id1|
      ensures 0 <= id1[j] < |xs| && xs[id1[j]] != x0
    {
      CompressMember(ind, Not(m), id1[j]);
    }
  }

  /** A well-split replicate keeps every drawn index exactly once. */
  lemma WellSplitCounts(r: Replicate, xs: seq<string>, x0: string)
    requires WellSplit(r, xs, x0)
    ensures |r.id0| + |r.id1| == |r.all|
    ensures multiset(r.id0) + multiset(r.id1) == multiset(r.all)
  {
    InterleavesCounts(r.all, r.id0, r.id1);
  }

  /** The split is determined by the draw: two well-split replicates with the same `all` are equal. */
  lemma {:induction false} WellSplitUnique(r: Replicate, r': Replicate, xs: seq<string>, x0: string)
    requires WellSplit(r, xs, x0) && WellSplit(r', xs, x0)
    requires r.all == r'.all
    ensures r == r'
    decreases |r.all|
  {
    if r.all != [] {
      var s := r.all;
      var t0, t1 := TailSplit(r, xs, x0), TailSplit(r', xs, x0);
      WellSplitUnique(t0, t1, xs, x0);
      if xs[s[0]] == x0 {
        assert r.id0 == [s[0]] + t0.id0 && r'.id0 == [s[0]] + t1.id0;
      } else {
        assert r.id1 == [s[0]] + t0.id1 && r'.id1 == [s[0]] + t1.id1;
      }
    }
  }

  /** Removing the first drawn index from a well-split replicate (and from the part it belongs to). */
  ghost function TailSplit(r: Replicate, xs: seq<string>, x0: string): (t: Replicate)
    requires WellSplit(r, xs, x0) && r.all != []
    ensures WellSplit(t, xs, x0) && t.all == r.all[1..]
    ensures xs[r.all[0]] == x0 ==> r.id0 != [] && r.id0[0] == r.all[0] && t == Replicate(r.all[1..], r.id0[1..], r.id1)
    ensures xs[r.all[0]] != x0 ==> r.id1 != [] && r.id1[0] == r.all[0] && t == Replicate(r.all[1..], r.id0, r.id1[1..])
  {
    if r.id0 != [] && r.id0[0] == r.all[0] && Interleaves(r.all[1..], r.id0[1..], r.id1)
    then Replicate(r.all[1..], r.id0[1..], r.id1)
    else Replicate(r.all[1..], r.id0, r.id1[1..])
  }

  /** The level gap of y on one replicate: mean over id1 minus mean over id0, NaN if either is NaN. */
  function MeanGap(y: seq<Value>, r: Replicate): Value
    requires InBounds(r.id0, |y|) && InBounds(r.id1, |y|)
  {
    var m1, m0 := Term(y, Id1, r), Term(y, Id0, r);
    if m1.Some? && m0.Some? then Some(m1.value - m0.value) else None
  }

  /** Row i of `tv` is the level gap of y on inner replicate i. */
  ghost predicate GapTable(tv: Table, y: seq<Value>, boots: BootDict)
  {
    forall i :: 0 <= i < |tv| ==>
      && i in boots.entries
      && InBounds(boots.entries[i].id0, |y|) && InBounds(boots.entries[i].id1, |y|)
      && tv[i] == Row(i, MeanGap(y, boots.entries[i]), "tv")
  }

  /**
   * The inner-bootstrap dict of `ci_crf` (lines 36-47): keys 0..nboot-1 in
   * order; replicate k holds its draw as `all`, split by the level mask into
   * `id0` (rows at level x0) and `id1` (all other rows).
   */
  method InnerBoots(xs: seq<string>, x0: string, nboot: int, innerDraws: seq<seq<int>>)
    returns (boots: BootDict)
    requires |innerDraws| == Clamp(nboot)
    requires forall k :: 0 <= k < |innerDraws| ==> IsDraw(innerDraws[k], |xs|)
    ensures boots.Valid()
    ensures boots.keys == Arange(nboot)
    ensures forall k :: k in boots.entries <==> 0 <= k < |innerDraws|
    ensures forall k :: k in boots.entries ==>
      boots.entries[k].all == innerDraws[k] && WellSplit(boots.entries[k], xs, x0)
  {
    var keys := Arange(nboot);
    var entries: map<int, Replicate> := map[];
    var i := 0;
    while i < |keys|
      invariant 0 <= i <= |keys|
      invariant forall k :: k in entries <==> 0 <= k < i
      invariant forall k :: k in entries ==>
        entries[k].all == innerDraws[k] && WellSplit(entries[k], xs, x0)
    {
      var key := keys[i];
      var ind := innerDraws[key];
      var idx0 := LevelMask(xs, ind, x0);
      var ind0 := Compress(ind, idx0);
      var ind1 := Compress(ind, Not(idx0));
      LevelSplit(ind, xs, x0);
      entries := entries[key := Replicate(ind, ind0, ind1)];
      i := i + 1;
    }
    boots := BootDict(keys, entries);
    assert forall k :: k in entries ==> keys[k] == k;
  }

  /**
   * `ci_crf`, lines 30-50: the outer sample (identity order when rep <= 1,
   * the drawn indices otherwise), the dict of `nboot` inner replicates, and
   * the total variation `tv`.
   */
  method CiCrf(data: seq<Observation>, x0: string, rep: int, nboot: int,
               outerDraw: seq<int>, innerDraws: seq<seq<int>>)
    returns (bootData: seq<Observation>, boots: BootDict, tv: Table)
    requires rep > 1 ==> IsDraw(outerDraw, |data|)
    requires |innerDraws| == Clamp(nboot)
    requires forall k :: 0 <= k < |innerDraws| ==> IsDraw(innerDraws[k], |data|)
    ensures |bootData| == |data|
    ensures rep <= 1 ==> bootData == data
    ensures rep > 1 ==> forall j :: 0 <= j < |data| ==> bootData[j] == data[outerDraw[j]]
    ensures boots.Valid()
    ensures boots.keys == Arange(nboot)
    ensures forall k :: k in boots.entries <==> 0 <= k < |innerDraws|
    ensures forall k :: k in boots.entries ==>
      boots.entries[k].all == innerDraws[k] && WellSplit(boots.entries[k], XColumn(bootData), x0)
    ensures |tv| == |innerDraws|
    ensures GapTable(tv, YColumn(bootData), boots)
  {
    // load data by using the outer bootstrap index
    var nrowDf := |data|;
    var bootSamp := if rep > 1 then outerDraw else Arange(nrowDf);
    bootData := Take(data, bootSamp);
    if rep <= 1 {
      TakeArange(data);
    }

    // create the index of this inner bootstrap
    boots := InnerBoots(XColumn(bootData), x0, nboot, innerDraws);

    var y := YColumn(bootData);
    assert Indexes(boots, Id1, |y|) && Indexes(boots, Id0, |y|) by {
      forall j | 0 <= j < |boots.keys|
        ensures boots.keys[j] in boots.entries
        ensures InBounds(boots.entries[boots.keys[j]].id0, |y|)
        ensures InBounds(boots.entries[boots.keys[j]].id1, |y|)
      {
        assert boots.keys[j] == j;
      }
    }
    tv := MsdTwo(y, Id1, Negated(y), Id0, "tv", boots);
    forall j | 0 <= j < |tv|
      ensures j in boots.entries && InBounds(boots.entries[j].id0, |y|) && InBounds(boots.entries[j].id1, |y|)
      ensures tv[j] == Row(j, MeanGap(y, boots.entries[j]), "tv")
    {
      assert boots.keys[j] == j;
      DifferenceOfMeans(y, boots.At(j));
    }
  }
}
