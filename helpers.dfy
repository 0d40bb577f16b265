/**
 * The column bookkeeping of `auto_dummy`: which members of `col` are
 * categorical, the adjusted column list (dummy columns first, then the
 * non-categorical members of `col` in `col` order), and the layout of the
 * adjusted frame (those columns, then every column outside `col`
 * unchanged).  `pd.get_dummies` is a parameter `dummies` giving the
 * indicator columns that replace one categorical column; whether a column
 * is categorical (`object`, `string` or `category` dtype) is a flag on it.
 * Frames are values here, so the input frame is never changed (the source
 * works on `data.copy()`).
 */
module Helpers {
  import opened ArrayOps

  datatype Cell = Number(r: real) | Text(s: string) | Missing

  /** A column: its label, whether its dtype is object/string/category, and its cells. */
  datatype Column = Column(name: string, categorical: bool, cells: seq<Cell>)

  /** A data frame: the row count and the columns in order. */
  datatype Frame = Frame(nrows: nat, cols: seq<Column>)

  /**
   * Selecting labels a frame does not have raises `KeyError` naming them;
   * `pd.get_dummies` on a frame without columns raises `ValueError` (it has
   * no objects to concatenate).
   */
  datatype Result<T> = Ok(value: T) | KeyError(missing: seq<string>) | ValueError

  /** `frame.columns`. */
  function Names(cols: seq<Column>): (r: seq<string>)
    ensures |r| == |cols|
    ensures forall j :: 0 <= j < |cols| ==> r[j] == cols[j].name
  {
    seq(|cols|, j requires 0 <= j < |cols| => cols[j].name)
  }

  /** `np.isin(frame.dtypes, ["object", "string", "category"])`. */
  function CategoricalFlags(cols: seq<Column>): (r: seq<bool>)
    ensures |r| == |cols|
    ensures forall j :: 0 <= j < |cols| ==> r[j] == cols[j].categorical
  {
    seq(|cols|, j requires 0 <= j < |cols| => cols[j].categorical)
  }

  /** Every column has one cell per row. */
  ghost predicate Rectangular(f: Frame)
  {
    forall j :: 0 <= j < |f.cols| ==> |f.cols[j].cells| == f.nrows
  }

  /** The indicator columns of a column have as many cells as it has. */
  ghost predicate KeepsRows(dummies: Column -> seq<Column>)
  {
    forall c: Column, j :: 0 <= j < |dummies(c)| ==> |dummies(c)[j].cells| == |c.cells|
  }

  /** Some column of the frame is named n and is categorical. */
  ghost predicate IsCategorical(data: Frame, n: string)
  {
    exists c :: c in data.cols && c.name == n && c.categorical
  }

  /** `data_adj[data_adj.columns[np.isin(data_adj.columns, col)]]` (line 118). */
  function ColumnsIn(data: Frame, col: seq<string>): seq<Column>
  {
    Compress(data.cols, IsIn(Names(data.cols), col))
  }

  /** `data_adj[data_adj.columns[~np.isin(data_adj.columns, col)]]` (line 119). */
  function ColumnsOutside(data: Frame, col: seq<string>): seq<Column>
  {
    Compress(data.cols, Not(IsIn(Names(data.cols), col)))
  }

  /** `col_cat`: the categorical columns among those in `col`, in frame order (line 121). */
  function CategoricalNames(data: Frame, col: seq<string>): seq<string>
  {
    var inCol := ColumnsIn(data, col);
    Compress(Names(inCol), CategoricalFlags(inCol))
  }

  /** `col_other`: the members of `col` that are not in `col_cat`, in `col` order (line 122). */
  function NonCategorical(data: Frame, col: seq<string>): seq<string>
  {
    Compress(col, Not(IsIn(col, CategoricalNames(data, col))))
  }

  /** `data_adj_col[col_cat]` (line 124). */
  function CategoricalColumns(data: Frame, col: seq<string>): seq<Column>
  {
    var inCol := ColumnsIn(data, col);
    Compress(inCol, CategoricalFlags(inCol))
  }

  /** The first column named n. */
  function FirstNamed(cols: seq<Column>, n: string): (c: Column)
    requires n in Names(cols)
    ensures c in cols && c.name == n
    decreases |cols|
  {
    if cols[0].name == n then cols[0]
    else
      assert Names(cols) == [cols[0].name] + Names(cols[1..]);
      FirstNamed(cols[1..], n)
  }

  /** `frame[names]`: the columns with those labels in that order, or `KeyError` for the absent ones. */
  function Select(cols: seq<Column>, names: seq<string>): (r: Result<seq<Column>>)
    ensures r.Ok? <==> forall i :: 0 <= i < |names| ==> names[i] in Names(cols)
    ensures r.KeyError? <==> exists i :: 0 <= i < |names| && names[i] !in Names(cols)
  {
    if forall i :: 0 <= i < |names| ==> names[i] in Names(cols) then
      Ok(seq(|names|, i requires 0 <= i < |names| => FirstNamed(cols, names[i])))
    else
      KeyError(Compress(names, Not(IsIn(names, Names(cols)))))
  }

  /** `pd.get_dummies(data=frame, columns=<all its columns>)`: each column replaced by its indicator columns. */
  function GetDummies(cols: seq<Column>, dummies: Column -> seq<Column>): seq<Column>
    decreases |cols|
  {
    if cols == [] then [] else dummies(cols[0]) + GetDummies(cols[1..], dummies)
  }

  /**
   * `auto_dummy(data, col)`: the adjusted frame (indicator columns, then the
   * non-categorical members of `col`, then every column outside `col`) and
   * the adjusted column list `col_adj`.  Line 126 raises `KeyError` first;
   * line 128 then raises `ValueError` when `col_cat` is empty.
   */
  function AutoDummy(data: Frame, col: seq<string>, dummies: Column -> seq<Column>)
    : (r: Result<(Frame, seq<string>)>)
    ensures r.ValueError? ==> CategoricalNames(data, col) == []
    ensures r.Ok? ==> CategoricalNames(data, col) != []
    ensures r.Ok? ==> r.value.0.nrows == data.nrows
    ensures r.Ok? ==> |r.value.0.cols| == |r.value.1| + |ColumnsOutside(data, col)|
  {
    var colOther := NonCategorical(data, col);
    var sel := Select(ColumnsIn(data, col), colOther);
    if sel.KeyError? then KeyError(sel.missing)
    else if CategoricalNames(data, col) == [] then ValueError
    else
      var catCols := GetDummies(CategoricalColumns(data, col), dummies);
      var colAdj := Names(catCols) + colOther;
      Ok((Frame(data.nrows, catCols + sel.value + ColumnsOutside(data, col)), colAdj))
  }

  // ---------------------------------------------------------------------------
  // Properties

  /** A column is kept by `ColumnsIn` / `ColumnsOutside` exactly when its label is / is not in `col`. */
  lemma ColumnsInMember(data: Frame, col: seq<string>, c: Column)
    ensures c in ColumnsIn(data, col) <==> c in data.cols && c.name in col
    ensures c in ColumnsOutside(data, col) <==> c in data.cols && c.name !in col
  {
    var m := IsIn(Names(data.cols), col);
    CompressMember(data.cols, m, c);
    CompressMember(data.cols, Not(m), c);
  }

  /** The two column selections are an order-preserving partition of the frame's columns. */
  lemma SplitByCol(data: Frame, col: seq<string>)
    ensures Interleaves(data.cols, ColumnsIn(data, col), ColumnsOutside(data, col))
    ensures |ColumnsIn(data, col)| + |ColumnsOutside(data, col)| == |data.cols|
  {
    CompressInterleaves(data.cols, IsIn(Names(data.cols), col));
    InterleavesCounts(data.cols, ColumnsIn(data, col), ColumnsOutside(data, col));
  }

  lemma NamesMember(cols: seq<Column>, n: string)
    ensures n in Names(cols) <==> exists c :: c in cols && c.name == n
  {
    if n in Names(cols) {
      var j :| 0 <= j < |cols| && Names(cols)[j] == n;
      assert cols[j] in cols;
    }
  }

  /** `col_cat` lists exactly the members of `col` that name a categorical column. */
  lemma CategoricalNamesMember(data: Frame, col: seq<string>, n: string)
    ensures n in CategoricalNames(data, col) <==> n in col && IsCategorical(data, n)
  {
    var inCol := ColumnsIn(data, col);
    CompressMember(Names(inCol), CategoricalFlags(inCol), n);
    if n in CategoricalNames(data, col) {
      var j :| 0 <= j < |inCol| && Names(inCol)[j] == n && CategoricalFlags(inCol)[j];
      ColumnsInMember(data, col, inCol[j]);
    }
    if n in col && IsCategorical(data, n) {
      var c :| c in data.cols && c.name == n && c.categorical;
      ColumnsInMember(data, col, c);
      var j :| 0 <= j < |inCol| && inCol[j] == c;
      assert Names(inCol)[j] == n && CategoricalFlags(inCol)[j];
    }
  }

  /**
   * `col_other` keeps exactly the members of `col` that do not name a
   * categorical column, in `col` order (together with the dropped members
   * it interleaves back into `col`).
   */
  lemma NonCategoricalMember(data: Frame, col: seq<string>, n: string)
    ensures n in NonCategorical(data, col) <==> n in col && !IsCategorical(data, n)
    ensures Interleaves(col, Compress(col, IsIn(col, CategoricalNames(data, col))), NonCategorical(data, col))
  {
    var m := IsIn(col, CategoricalNames(data, col));
    CompressMember(col, Not(m), n);
    CategoricalNamesMember(data, col, n);
    CompressInterleaves(col, m);
  }

  lemma SelectNames(cols: seq<Column>, names: seq<string>)
    requires Select(cols, names).Ok?
    ensures Names(Select(cols, names).value) == names
    ensures forall c :: c in Select(cols, names).value ==> c in cols
  {
  }

  /** `auto_dummy` fails with `KeyError` exactly when some member of `col` is not a column of the frame. */
  lemma AutoDummyFails(data: Frame, col: seq<string>, dummies: Column -> seq<Column>)
    ensures AutoDummy(data, col, dummies).KeyError? <==>
      exists i :: 0 <= i < |col| && col[i] !in Names(data.cols)
  {
    var inCol := ColumnsIn(data, col);
    var colOther := NonCategorical(data, col);
    if exists i :: 0 <= i < |col| && col[i] !in Names(data.cols) {
      var i :| 0 <= i < |col| && col[i] !in Names(data.cols);
      var n := col[i];
      NamesMember(data.cols, n);
      NamesMember(inCol, n);
      forall c | c in inCol ensures c.name != n {
        ColumnsInMember(data, col, c);
      }
      NonCategoricalMember(data, col, n);
      var k :| 0 <= k < |colOther| && colOther[k] == n;
      assert colOther[k] !in Names(inCol);
    } else {
      forall k | 0 <= k < |colOther|
        ensures colOther[k] in Names(inCol)
      {
        var n := colOther[k];
        NonCategoricalMember(data, col, n);
        var i :| 0 <= i < |col| && col[i] == n;
        NamesMember(data.cols, n);
        var c :| c in data.cols && c.name == n;
        ColumnsInMember(data, col, c);
        NamesMember(inCol, n);
      }
    }
  }

  /** The labels of the columns a mask keeps are the labels the mask keeps. */
  lemma {:induction false} NamesCompress(cols: seq<Column>, m: seq<bool>)
    requires |m| == |cols|
    ensures Names(Compress(cols, m)) == Compress(Names(cols), m)
    decreases |cols|
  {
    if cols != [] {
      NamesCompress(cols[1..], m[1..]);
      assert Names(cols)[1..] == Names(cols[1..]);
      NamesConcat(if m[0] then [cols[0]] else [], Compress(cols[1..], m[1..]));
    }
  }

  /** `data_adj_col[col_cat]` (line 124) holds the columns labelled by `col_cat`, one per label, in order. */
  lemma CategoricalColumnsNames(data: Frame, col: seq<string>)
    ensures Names(CategoricalColumns(data, col)) == CategoricalNames(data, col)
  {
    var inCol := ColumnsIn(data, col);
    NamesCompress(inCol, CategoricalFlags(inCol));
  }

  /** The `KeyError` of line 126 names only members of `col` the frame does not have, and at least one. */
  lemma AutoDummyMissing(data: Frame, col: seq<string>, dummies: Column -> seq<Column>)
    requires AutoDummy(data, col, dummies).KeyError?
    ensures AutoDummy(data, col, dummies).missing != []
    ensures forall n :: n in AutoDummy(data, col, dummies).missing ==> n in col && n !in Names(data.cols)
  {
    var inCol := ColumnsIn(data, col);
    var colOther := NonCategorical(data, col);
    var m := Not(IsIn(colOther, Names(inCol)));
    var missing := Compress(colOther, m);
    assert AutoDummy(data, col, dummies).missing == missing;
    var k :| 0 <= k < |colOther| && colOther[k] !in Names(inCol);
    CompressMember(colOther, m, colOther[k]);
    forall n | n in missing ensures n in col && n !in Names(data.cols) {
      CompressMember(colOther, m, n);
      NonCategoricalMember(data, col, n);
      if n in Names(data.cols) {
        NamesMember(data.cols, n);
        var c :| c in data.cols && c.name == n;
        ColumnsInMember(data, col, c);
        NamesMember(inCol, n);
        assert false;
      }
    }
  }

  /**
   * `auto_dummy` raises `ValueError` exactly when every member of `col` is a
   * column of the frame but none of them is categorical (`col = []` included).
   */
  lemma AutoDummyNoCategorical(data: Frame, col: seq<string>, dummies: Column -> seq<Column>)
    ensures AutoDummy(data, col, dummies).ValueError? <==>
      && (forall i :: 0 <= i < |col| ==> col[i] in Names(data.cols))
      && (forall i :: 0 <= i < |col| ==> !IsCategorical(data, col[i]))
  {
    AutoDummyFails(data, col, dummies);
    var cat := CategoricalNames(data, col);
    if cat != [] {
      CategoricalNamesMember(data, col, cat[0]);
      var i :| 0 <= i < |col| && col[i] == cat[0];
    }
    forall i | 0 <= i < |col| && IsCategorical(data, col[i]) ensures cat != [] {
      CategoricalNamesMember(data, col, col[i]);
    }
  }

  /**
   * On success: `col_adj` is the indicator names followed by `col_other`;
   * the frame's labels are `col_adj` followed by the labels outside `col`;
   * the columns outside `col` come last, unchanged and in their original
   * order; the columns kept for `col_other` are the frame's own columns.
   */
  lemma AutoDummyLayout(data: Frame, col: seq<string>, dummies: Column -> seq<Column>)
    requires AutoDummy(data, col, dummies).Ok?
    ensures var (f, colAdj) := AutoDummy(data, col, dummies).value;
      && f.nrows == data.nrows
      && colAdj == Names(GetDummies(CategoricalColumns(data, col), dummies)) + NonCategorical(data, col)
      && Names(f.cols) == colAdj + Names(ColumnsOutside(data, col))
      && |colAdj| <= |f.cols|
      && f.cols[|colAdj|..] == ColumnsOutside(data, col)
      && forall j :: |colAdj| - |NonCategorical(data, col)| <= j < |colAdj| ==> f.cols[j] in data.cols
  {
    var inCol := ColumnsIn(data, col);
    var colOther := NonCategorical(data, col);
    var otherCols := Select(inCol, colOther).value;
    SelectNames(inCol, colOther);
    var catCols := GetDummies(CategoricalColumns(data, col), dummies);
    var outside := ColumnsOutside(data, col);
    var colAdj := Names(catCols) + colOther;
    var f := Frame(data.nrows, catCols + otherCols + outside);
    assert AutoDummy(data, col, dummies).value == (f, colAdj);
    NamesConcat(catCols + otherCols, outside);
    NamesConcat(catCols, otherCols);
    assert f.cols[|colAdj|..] == outside;
    forall j | |colAdj| - |colOther| <= j < |colAdj|
      ensures f.cols[j] in data.cols
    {
      assert f.cols[j] == otherCols[j - |catCols|];
      ColumnsInMember(data, col, f.cols[j]);
    }
  }

  lemma NamesConcat(a: seq<Column>, b: seq<Column>)
    ensures Names(a + b) == Names(a) + Names(b)
  {
  }

  lemma {:induction false} GetDummiesRows(cols: seq<Column>, dummies: Column -> seq<Column>, n: nat)
    requires KeepsRows(dummies)
    requires forall j :: 0 <= j < |cols| ==> |cols[j].cells| == n
    ensures forall j :: 0 <= j < |GetDummies(cols, dummies)| ==> |GetDummies(cols, dummies)[j].cells| == n
    decreases |cols|
  {
    if cols != [] {
      GetDummiesRows(cols[1..], dummies, n);
    }
  }

  /** When `get_dummies` keeps the row count, so does `auto_dummy`: every adjusted column has one cell per row. */
  lemma AutoDummyRows(data: Frame, col: seq<string>, dummies: Column -> seq<Column>)
    requires Rectangular(data) && KeepsRows(dummies)
    requires AutoDummy(data, col, dummies).Ok?
    ensures AutoDummy(data, col, dummies).value.0.nrows == data.nrows
    ensures Rectangular(AutoDummy(data, col, dummies).value.0)
  {
    var inCol := ColumnsIn(data, col);
    var colOther := NonCategorical(data, col);
    var otherCols := Select(inCol, colOther).value;
    SelectNames(inCol, colOther);
    var catIn := CategoricalColumns(data, col);
    forall j | 0 <= j < |catIn| ensures |catIn[j].cells| == data.nrows {
      CompressMember(inCol, CategoricalFlags(inCol), catIn[j]);
      ColumnsInMember(data, col, catIn[j]);
    }
    GetDummiesRows(catIn, dummies, data.nrows);
    forall j | 0 <= j < |otherCols| ensures |otherCols[j].cells| == data.nrows {
      ColumnsInMember(data, col, otherCols[j]);
    }
    var outside := ColumnsOutside(data, col);
    forall j | 0 <= j < |outside| ensures |outside[j].cells| == data.nrows {
      ColumnsInMember(data, col, outside[j]);
    }
  }
}
