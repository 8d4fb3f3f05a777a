/** A pandas DataFrame as a value: an ordered list of typed columns and a list
    of rows, each row holding one cell per column in column order. A missing
    cell (NaN, NaT, None) is `None`. */
module Tables {
  import opened Outcomes
  import opened Calendar

  /** Numbers are exact: int64 and float64 columns both hold `Num`. */
  datatype Value = Num(x: real) | Bool(b: bool) | Str(s: string) | Stamp(date: Date)

  type Cell = Option<Value>

  /** A column's dtype as `select_dtypes` sees it: int64 and float64 are
      `Numeric`, bool is `Boolean`, datetime64 is `DateTime`, anything else
      (strings, mixed values) is `Object`. */
  datatype DType = Numeric | Boolean | Object | DateTime

  datatype Column = Column(name: string, dtype: DType)

  type Row = seq<Cell>

  datatype Table = Table(columns: seq<Column>, rows: seq<Row>)

  /** Which cells a column of each dtype can hold: a bool column has no
      missing values (pandas would make it `object`), a numeric column holds
      numbers or NaN, a datetime column timestamps or NaT. */
  predicate Conforms(c: Cell, t: DType) {
    match t
    case Numeric => c.None? || c.value.Num?
    case Boolean => c.Some? && c.value.Bool?
    case DateTime => c.None? || (c.value.Stamp? && ValidDate(c.value.date))
    case Object => true
  }

  function Names(cols: seq<Column>): (ns: seq<string>)
    ensures |ns| == |cols|
    ensures forall j :: 0 <= j < |cols| ==> ns[j] == cols[j].name
  {
    seq(|cols|, j requires 0 <= j < |cols| => cols[j].name)
  }

  predicate Distinct<T(==)>(xs: seq<T>) {
    forall i, j {:trigger Slot(xs, i), Slot(xs, j)} :: 0 <= i < j < |xs| ==> Slot(xs, i) != Slot(xs, j)
  }

  /** `xs[i]`, named so that distinctness is used only where a proof asks
      for it. */
  function Slot<T>(xs: seq<T>, i: nat): T
    requires i < |xs|
  {
    xs[i]
  }

  /** Appending a value keeps the values distinct exactly when it is new. */
  lemma DistinctSnoc<T>(init: seq<T>, x: T)
    ensures Distinct(init + [x]) <==> Distinct(init) && x !in init
  {
    var xs := init + [x];
    if Distinct(init) && x !in init {
      forall a, b | 0 <= a < b < |xs| ensures Slot(xs, a) != Slot(xs, b) {
        if b < |init| {
          DistinctAt(init, a, b);
        }
      }
    }
    if Distinct(xs) {
      forall a, b | 0 <= a < b < |init| ensures Slot(init, a) != Slot(init, b) {
        DistinctAt(xs, a, b);
      }
      if x in init {
        var a :| 0 <= a < |init| && init[a] == x;
        DistinctAt(xs, a, |init|);
      }
    }
  }

  /** Two lists of distinct values with no value in common concatenate to
      a list of distinct values. */
  lemma DistinctConcat<T>(xs: seq<T>, ys: seq<T>)
    requires Distinct(xs) && Distinct(ys)
    requires forall y :: y in ys ==> y !in xs
    ensures Distinct(xs + ys)
  {
    var zs := xs + ys;
    forall a, b | 0 <= a < b < |zs| ensures Slot(zs, a) != Slot(zs, b) {
      if b < |xs| {
        DistinctAt(xs, a, b);
      } else if a >= |xs| {
        DistinctAt(ys, a - |xs|, b - |xs|);
      } else {
        assert zs[b] == ys[b - |xs|] && zs[b] in ys;
      }
    }
  }

  lemma DistinctAt<T>(xs: seq<T>, i: nat, j: nat)
    requires Distinct(xs) && i < |xs| && j < |xs| && i != j
    ensures xs[i] != xs[j]
  {
    if i < j {
      assert Slot(xs, i) != Slot(xs, j);
    } else {
      assert Slot(xs, j) != Slot(xs, i);
    }
  }

  /** Every row has one cell per column, each cell fits its column's dtype,
      and column names are unique (as `read_csv` makes them). */
  predicate WellFormed(t: Table) {
    && Distinct(Names(t.columns))
    && RowsFit(t)
    && (forall i, j :: 0 <= i < |t.rows| && 0 <= j < |t.columns| ==>
          Conforms(t.rows[i][j], t.columns[j].dtype))
  }

  /** Every row has one cell per column. */
  predicate RowsFit(t: Table) {
    forall i :: 0 <= i < |t.rows| ==> |t.rows[i]| == |t.columns|
  }

  /** `row` has one cell per column, each of the column's dtype. */
  predicate RowConforms(row: Row, cols: seq<Column>) {
    |row| == |cols| && forall j :: 0 <= j < |cols| ==> Conforms(row[j], cols[j].dtype)
  }

  lemma ConcatConforms(a: Row, ca: seq<Column>, b: Row, cb: seq<Column>)
    requires RowConforms(a, ca) && RowConforms(b, cb)
    ensures RowConforms(a + b, ca + cb)
  {
    forall j | |ca| <= j < |ca| + |cb| ensures Conforms((a + b)[j], (ca + cb)[j].dtype) {
      assert (a + b)[j] == b[j - |a|];
    }
  }

  predicate HasColumn(t: Table, name: string) {
    name in Names(t.columns)
  }

  /** Position of the first occurrence of `x`. */
  function IndexOf<T(==)>(xs: seq<T>, x: T): (k: nat)
    requires x in xs
    ensures k < |xs| && xs[k] == x
    ensures forall j :: 0 <= j < k ==> xs[j] != x
  {
    if xs[0] == x then 0 else 1 + IndexOf(xs[1..], x)
  }

  lemma IndexOfDistinct<T>(xs: seq<T>, k: nat)
    requires Distinct(xs) && k < |xs|
    ensures IndexOf(xs, xs[k]) == k
  {
    var p := IndexOf(xs, xs[k]);
    if p != k {
      DistinctAt(xs, p, k);
    }
  }

  /** The cells of column `j`, top to bottom. */
  function ColumnCells(rows: seq<Row>, j: nat): (cs: seq<Cell>)
    requires forall i :: 0 <= i < |rows| ==> j < |rows[i]|
    ensures |cs| == |rows|
    ensures forall i :: 0 <= i < |rows| ==> cs[i] == rows[i][j]
  {
    seq(|rows|, i requires 0 <= i < |rows| => rows[i][j])
  }

  /** `df[name]`: the column's cells, or a KeyError when there is no such column. */
  function Series(t: Table, name: string): (r: Result<seq<Cell>>)
    requires RowsFit(t)
    ensures r.Err? <==> !HasColumn(t, name)
    ensures r.Err? ==> r.error == KeyError(name)
    ensures r.Ok? ==> |r.value| == |t.rows|
    ensures r.Ok? ==> forall i :: 0 <= i < |t.rows| ==>
      r.value[i] == t.rows[i][IndexOf(Names(t.columns), name)]
  {
    if !HasColumn(t, name) then Err(KeyError(name))
    else Ok(ColumnCells(t.rows, IndexOf(Names(t.columns), name)))
  }

  /** All cells of `name` fit `d`: what a column of dtype `d` holds. */
  lemma SeriesConforms(t: Table, name: string)
    requires WellFormed(t) && HasColumn(t, name)
    ensures var k := IndexOf(Names(t.columns), name);
      forall i :: 0 <= i < |t.rows| ==> Conforms(Series(t, name).value[i], t.columns[k].dtype)
  {
  }

  // ---------------------------------------------------------------------------
  // Boolean masks: `df[mask]`.

  predicate StrictlyIncreasing(ks: seq<nat>) {
    forall a, b :: 0 <= a < b < |ks| ==> ks[a] < ks[b]
  }

  /** The positions where `mask` is true, in increasing order. */
  function KeptIndices(mask: seq<bool>): (ks: seq<nat>)
    ensures |ks| <= |mask|
    ensures forall k :: 0 <= k < |ks| ==> ks[k] < |mask| && mask[ks[k]]
    ensures StrictlyIncreasing(ks)
  {
    if mask == [] then []
    else
      var rest := KeptIndices(mask[..|mask| - 1]);
      if mask[|mask| - 1] then rest + [|mask| - 1] else rest
  }

  /** Extending the mask by one position keeps that position when it holds. */
  lemma KeptIndicesSnoc(mask: seq<bool>, k: nat)
    requires k < |mask|
    ensures KeptIndices(mask[..k + 1]) == KeptIndices(mask[..k]) + (if mask[k] then [k] else [])
  {
    assert mask[..k + 1][..k] == mask[..k];
  }

  /** Every position where the mask is true is kept. */
  lemma {:induction false} KeptIndicesComplete(mask: seq<bool>, i: nat)
    requires i < |mask| && mask[i]
    ensures i in KeptIndices(mask)
  {
    var n := |mask| - 1;
    if i < n {
      KeptIndicesComplete(mask[..n], i);
    }
  }

  /** A position is kept exactly when the mask holds there. */
  lemma KeptIndicesIff(mask: seq<bool>)
    ensures forall i :: 0 <= i < |mask| ==> (i in KeptIndices(mask) <==> mask[i])
  {
    forall i | 0 <= i < |mask| && mask[i] ensures i in KeptIndices(mask) {
      KeptIndicesComplete(mask, i);
    }
  }

  /** Two complementary masks keep disjoint sets of positions that together
      cover every row. */
  lemma {:induction false} ComplementaryMasks(m1: seq<bool>, m2: seq<bool>)
    requires |m1| == |m2|
    requires forall i :: 0 <= i < |m1| ==> m1[i] != m2[i]
    ensures |KeptIndices(m1)| + |KeptIndices(m2)| == |m1|
  {
    if m1 != [] {
      var n := |m1| - 1;
      ComplementaryMasks(m1[..n], m2[..n]);
    }
  }

  /** `df[mask]`: the rows where the mask is true, in their original order, with
      the columns unchanged. */
  function Where(t: Table, mask: seq<bool>): (r: Table)
    requires |mask| == |t.rows|
    ensures r.columns == t.columns
    ensures |r.rows| == |KeptIndices(mask)|
    ensures forall k :: 0 <= k < |r.rows| ==> r.rows[k] == t.rows[KeptIndices(mask)[k]]
  {
    var ks := KeptIndices(mask);
    Table(t.columns, seq(|ks|, k requires 0 <= k < |ks| => t.rows[ks[k]]))
  }

  lemma WhereWellFormed(t: Table, mask: seq<bool>)
    requires WellFormed(t) && |mask| == |t.rows|
    ensures WellFormed(Where(t, mask))
  {
    var r := Where(t, mask);
    var ks := KeptIndices(mask);
    forall k, j | 0 <= k < |r.rows| && 0 <= j < |r.columns|
      ensures Conforms(r.rows[k][j], r.columns[j].dtype)
    {
      assert r.rows[k] == t.rows[ks[k]];
    }
  }

  /** Reading a column after `df = df[mask]`: row `k` is the row at the k-th
      kept position. */
  lemma SeriesOfWhere(t: Table, mask: seq<bool>, c: string)
    requires RowsFit(t) && |mask| == |t.rows| && HasColumn(t, c)
    ensures Series(Where(t, mask), c).Ok?
    ensures var ks := KeptIndices(mask);
      forall k :: 0 <= k < |ks| ==> Series(Where(t, mask), c).value[k] == Series(t, c).value[ks[k]]
  {
  }

  // ---------------------------------------------------------------------------
  // Column selection: `df[cols]`, `drop(columns=...)`, `select_dtypes`.

  /** The columns at positions `js`, in that order. */
  function Project(t: Table, js: seq<nat>): (r: Table)
    requires forall k :: 0 <= k < |js| ==> js[k] < |t.columns|
    requires forall i :: 0 <= i < |t.rows| ==> |t.rows[i]| == |t.columns|
    ensures |r.columns| == |js| && |r.rows| == |t.rows|
    ensures forall k :: 0 <= k < |js| ==> r.columns[k] == t.columns[js[k]]
    ensures forall i :: 0 <= i < |t.rows| ==> |r.rows[i]| == |js|
    ensures forall i, k :: 0 <= i < |t.rows| && 0 <= k < |js| ==> r.rows[i][k] == t.rows[i][js[k]]
  {
    Table(
      seq(|js|, k requires 0 <= k < |js| => t.columns[js[k]]),
      seq(|t.rows|, i requires 0 <= i < |t.rows| =>
        seq(|js|, k requires 0 <= k < |js| => t.rows[i][js[k]])))
  }

  lemma ProjectWellFormed(t: Table, js: seq<nat>)
    requires WellFormed(t)
    requires forall k :: 0 <= k < |js| ==> js[k] < |t.columns|
    requires StrictlyIncreasing(js)
    ensures WellFormed(Project(t, js))
  {
    var r := Project(t, js);
    forall a, b | 0 <= a < b < |js| ensures Slot(Names(r.columns), a) != Slot(Names(r.columns), b) {
      DistinctAt(Names(t.columns), js[a], js[b]);
    }
  }

  /** Every column of `r` is a column of `t`, of the same dtype and carrying
      the same cells, and the columns of `r` come in the order they have in
      `t`: what selecting some of a frame's columns without reordering them
      gives. */
  predicate SubFrame(r: Table, t: Table)
    requires RowsFit(r) && RowsFit(t)
  {
    && (forall k :: 0 <= k < |r.columns| ==>
          && HasColumn(t, r.columns[k].name)
          && t.columns[IndexOf(Names(t.columns), r.columns[k].name)] == r.columns[k]
          && Series(r, r.columns[k].name) == Series(t, r.columns[k].name))
    && (forall a, b :: 0 <= a < b < |r.columns| ==>
          HasColumn(t, r.columns[a].name) && HasColumn(t, r.columns[b].name)
          && IndexOf(Names(t.columns), r.columns[a].name) < IndexOf(Names(t.columns), r.columns[b].name))
  }

  /** Projecting onto increasing positions gives a sub-frame. */
  lemma ProjectSubFrame(t: Table, js: seq<nat>)
    requires WellFormed(t)
    requires forall k :: 0 <= k < |js| ==> js[k] < |t.columns|
    requires StrictlyIncreasing(js)
    ensures WellFormed(Project(t, js)) && SubFrame(Project(t, js), t)
  {
    ProjectWellFormed(t, js);
    var r := Project(t, js);
    forall k | 0 <= k < |js|
      ensures IndexOf(Names(t.columns), r.columns[k].name) == js[k]
      ensures Series(r, r.columns[k].name) == Series(t, r.columns[k].name)
    {
      IndexOfDistinct(Names(t.columns), js[k]);
      IndexOfDistinct(Names(r.columns), k);
      assert Series(r, r.columns[k].name).value == Series(t, r.columns[k].name).value;
    }
  }

  /** A sub-frame of a sub-frame is a sub-frame. */
  lemma SubFrameTransitive(x: Table, d: Table, t: Table)
    requires WellFormed(x) && WellFormed(d) && WellFormed(t)
    requires SubFrame(x, d) && SubFrame(d, t)
    ensures SubFrame(x, t)
  {
    forall k | 0 <= k < |x.columns|
      ensures HasColumn(t, x.columns[k].name)
      ensures t.columns[IndexOf(Names(t.columns), x.columns[k].name)] == x.columns[k]
      ensures Series(x, x.columns[k].name) == Series(t, x.columns[k].name)
    {
      var j := IndexOf(Names(d.columns), x.columns[k].name);
      assert d.columns[j].name == x.columns[k].name;
    }
    forall a, b | 0 <= a < b < |x.columns|
      ensures IndexOf(Names(t.columns), x.columns[a].name) < IndexOf(Names(t.columns), x.columns[b].name)
    {
      var ja := IndexOf(Names(d.columns), x.columns[a].name);
      var jb := IndexOf(Names(d.columns), x.columns[b].name);
      assert d.columns[ja].name == x.columns[a].name && d.columns[jb].name == x.columns[b].name;
      assert ja < jb;
    }
  }

  /** `df[names]`: the named columns in the order given, or a KeyError for
      the first name the frame does not have. */
  function Select(t: Table, names: seq<string>): (r: Result<Table>)
    requires WellFormed(t)
    ensures r.Err? <==> exists c :: c in names && !HasColumn(t, c)
    ensures r.Err? ==> r.error.KeyError? && r.error.column in names && !HasColumn(t, r.error.column)
    ensures r.Ok? ==> Names(r.value.columns) == names && |r.value.rows| == |t.rows| && RowsFit(r.value)
    ensures r.Ok? ==> forall k :: 0 <= k < |names| ==> HasColumn(t, names[k])
    ensures r.Ok? ==> forall k :: 0 <= k < |names| ==> r.value.columns[k] == t.columns[IndexOf(Names(t.columns), names[k])]
    ensures r.Ok? ==> forall i, k :: 0 <= i < |t.rows| && 0 <= k < |names| ==>
      r.value.rows[i][k] == t.rows[i][IndexOf(Names(t.columns), names[k])]
  {
    if FirstAbsent(t, names).Some? then Err(KeyError(FirstAbsent(t, names).value))
    else
      assert forall k :: 0 <= k < |names| ==> names[k] in Names(t.columns) by {
        forall k | 0 <= k < |names| ensures names[k] in Names(t.columns) {
          assert names[k] in names;
        }
      }
      var js := seq(|names|, k requires 0 <= k < |names| => IndexOf(Names(t.columns), names[k]));
      var r := Project(t, js);
      assert Names(r.columns) == names;
      Ok(r)
  }

  /** Selecting all of a frame's columns in their own order is the frame. */
  lemma SelectAll(t: Table, names: seq<string>)
    requires WellFormed(t) && Names(t.columns) == names
    ensures Select(t, names) == Ok(t)
  {
    assert Select(t, names).Ok?;
    var r := Select(t, names).value;
    forall k | 0 <= k < |names| ensures IndexOf(Names(t.columns), names[k]) == k {
      IndexOfDistinct(names, k);
    }
    assert r.columns == t.columns;
    forall i | 0 <= i < |t.rows| ensures r.rows[i] == t.rows[i] {
      assert |r.rows[i]| == |t.rows[i]| == |names|;
    }
    assert r.rows == t.rows;
  }

  /** `df.drop(columns=cols)`: every column not named in `cols`, in order. With
      `errors='raise'` (pandas' default) a name in `cols` that the frame does
      not have is a KeyError; with `errors='ignore'` it is skipped. */
  function Drop(t: Table, cols: seq<string>, ignoreMissing: bool): (r: Result<Table>)
    requires WellFormed(t)
    ensures r.Err? <==> !ignoreMissing && exists c :: c in cols && !HasColumn(t, c)
    ensures r.Ok? ==> WellFormed(r.value) && r.value == Project(t, KeptIndices(DropMask(t, cols)))
  {
    if !ignoreMissing && FirstAbsent(t, cols).Some? then
      Err(KeyError(FirstAbsent(t, cols).value))
    else
      ProjectWellFormed(t, KeptIndices(DropMask(t, cols)));
      Ok(Project(t, KeptIndices(DropMask(t, cols))))
  }

  /** The first name in `cols` that is not a column of `t`. */
  function FirstAbsent(t: Table, cols: seq<string>): (r: Option<string>)
    ensures r.None? <==> forall c :: c in cols ==> HasColumn(t, c)
    ensures r.Some? ==> r.value in cols && !HasColumn(t, r.value)
  {
    if cols == [] then None
    else if !HasColumn(t, cols[0]) then Some(cols[0])
    else FirstAbsent(t, cols[1..])
  }

  function DropMask(t: Table, cols: seq<string>): (m: seq<bool>)
    ensures |m| == |t.columns|
    ensures forall j :: 0 <= j < |t.columns| ==> m[j] == (t.columns[j].name !in cols)
  {
    seq(|t.columns|, j requires 0 <= j < |t.columns| => t.columns[j].name !in cols)
  }

  /** `drop` keeps exactly the columns not named, in their order, and every
      row's cells for them. */
  lemma DropKeeps(t: Table, cols: seq<string>, ignoreMissing: bool)
    requires WellFormed(t) && Drop(t, cols, ignoreMissing).Ok?
    ensures var r := Drop(t, cols, ignoreMissing).value;
      && |r.rows| == |t.rows|
      && (forall c :: c in cols ==> !HasColumn(r, c))
      && (forall j :: 0 <= j < |t.columns| && t.columns[j].name !in cols ==> t.columns[j] in r.columns)
  {
    var r := Drop(t, cols, ignoreMissing).value;
    var ks := KeptIndices(DropMask(t, cols));
    assert forall k :: 0 <= k < |r.columns| ==> r.columns[k] == t.columns[ks[k]];
    assert forall k :: 0 <= k < |r.columns| ==> Names(r.columns)[k] !in cols;
    forall j | 0 <= j < |t.columns| && t.columns[j].name !in cols ensures t.columns[j] in r.columns {
      KeptIndicesComplete(DropMask(t, cols), j);
      var k :| 0 <= k < |ks| && ks[k] == j;
      assert r.columns[k] == t.columns[j];
    }
  }

  function NumericMask(t: Table): (m: seq<bool>)
    ensures |m| == |t.columns|
    ensures forall j :: 0 <= j < |t.columns| ==> m[j] == (t.columns[j].dtype == Numeric)
  {
    seq(|t.columns|, j requires 0 <= j < |t.columns| => t.columns[j].dtype == Numeric)
  }

  /** `df.select_dtypes(include=['number'])`: the numeric columns, in the
      frame's order, with their cells. A bool column is not a number to pandas. */
  function SelectNumeric(t: Table): (r: Table)
    requires WellFormed(t)
    ensures WellFormed(r) && |r.rows| == |t.rows|
    ensures forall k :: 0 <= k < |r.columns| ==> r.columns[k].dtype == Numeric
    ensures forall j :: 0 <= j < |t.columns| && t.columns[j].dtype == Numeric ==> t.columns[j] in r.columns
    ensures forall c :: c in r.columns ==> c in t.columns
    ensures SubFrame(r, t)
  {
    ProjectSubFrame(t, KeptIndices(NumericMask(t)));
    NumericKept(t);
    Project(t, KeptIndices(NumericMask(t)))
  }

  /** Every numeric column survives the projection onto the numeric positions. */
  lemma NumericKept(t: Table)
    requires RowsFit(t)
    ensures var r := Project(t, KeptIndices(NumericMask(t)));
      forall j :: 0 <= j < |t.columns| && t.columns[j].dtype == Numeric ==> t.columns[j] in r.columns
  {
    var ks := KeptIndices(NumericMask(t));
    var r := Project(t, ks);
    forall j | 0 <= j < |t.columns| && t.columns[j].dtype == Numeric ensures t.columns[j] in r.columns {
      KeptIndicesComplete(NumericMask(t), j);
      var k :| 0 <= k < |ks| && ks[k] == j;
      assert r.columns[k] == t.columns[j];
    }
  }

  // ---------------------------------------------------------------------------
  // Column assignment: `df[name] = values`.

  /** `df[name] = cells`: overwrites the column in place when it exists, or
      appends it as the last column. Reading the column back gives `cells`;
      every other column keeps its cells. */
  function WithColumn(t: Table, name: string, dtype: DType, cells: seq<Cell>): (r: Table)
    requires WellFormed(t) && |cells| == |t.rows|
    requires forall i :: 0 <= i < |cells| ==> Conforms(cells[i], dtype)
    ensures WellFormed(r) && |r.rows| == |t.rows|
    ensures HasColumn(r, name) && Series(r, name) == Ok(cells)
    ensures r.columns[IndexOf(Names(r.columns), name)].dtype == dtype
    ensures forall c :: HasColumn(t, c) ==> HasColumn(r, c)
    ensures forall c :: c != name && HasColumn(t, c) ==> Series(r, c) == Series(t, c)
    ensures forall c :: c != name && HasColumn(r, c) ==> HasColumn(t, c)
  {
    if HasColumn(t, name) then ReplaceColumn(t, name, dtype, cells)
    else AppendColumn(t, name, dtype, cells)
  }

  function ReplaceColumn(t: Table, name: string, dtype: DType, cells: seq<Cell>): (r: Table)
    requires WellFormed(t) && |cells| == |t.rows| && HasColumn(t, name)
    requires forall i :: 0 <= i < |cells| ==> Conforms(cells[i], dtype)
    ensures WellFormed(r) && |r.rows| == |t.rows|
    ensures Names(r.columns) == Names(t.columns)
    ensures Series(r, name) == Ok(cells)
    ensures r.columns[IndexOf(Names(r.columns), name)].dtype == dtype
    ensures forall c :: c != name && HasColumn(t, c) ==> Series(r, c) == Series(t, c)
  {
    var ns := Names(t.columns);
    var k := IndexOf(ns, name);
    var r := Table(t.columns[k := Column(name, dtype)],
                   seq(|t.rows|, i requires 0 <= i < |t.rows| => t.rows[i][k := cells[i]]));
    assert Names(r.columns) == ns;
    assert ColumnCells(r.rows, k) == cells;
    forall c | c != name && HasColumn(t, c) ensures Series(r, c) == Series(t, c) {
      var j := IndexOf(ns, c);
      assert ColumnCells(r.rows, j) == ColumnCells(t.rows, j);
    }
    r
  }

  function AppendColumn(t: Table, name: string, dtype: DType, cells: seq<Cell>): (r: Table)
    requires WellFormed(t) && |cells| == |t.rows| && !HasColumn(t, name)
    requires forall i :: 0 <= i < |cells| ==> Conforms(cells[i], dtype)
    ensures WellFormed(r) && |r.rows| == |t.rows|
    ensures Names(r.columns) == Names(t.columns) + [name]
    ensures Series(r, name) == Ok(cells)
    ensures r.columns[IndexOf(Names(r.columns), name)].dtype == dtype
    ensures forall c :: HasColumn(t, c) ==> Series(r, c) == Series(t, c)
  {
    var ns := Names(t.columns);
    var r := Table(t.columns + [Column(name, dtype)],
                   seq(|t.rows|, i requires 0 <= i < |t.rows| => t.rows[i] + [cells[i]]));
    assert Names(r.columns) == ns + [name];
    DistinctSnoc(ns, name);
    IndexOfDistinct(Names(r.columns), |ns|);
    assert ColumnCells(r.rows, |ns|) == cells;
    forall c | HasColumn(t, c) ensures Series(r, c) == Series(t, c) {
      var j := IndexOf(ns, c);
      IndexOfDistinct(Names(r.columns), j);
      assert ColumnCells(r.rows, j) == ColumnCells(t.rows, j);
    }
    r
  }

  // ---------------------------------------------------------------------------
  // Filling missing values: `df[cols] = df[cols].fillna(v)`.

  /** Column `j` has a missing cell. */
  predicate HasMissing(rows: seq<Row>, j: nat) {
    exists i :: 0 <= i < |rows| && j < |rows[i]| && rows[i][j].None?
  }

  /** The dtype of a column after `fillna(v)`: pandas keeps it when nothing was
      missing or when `v` fits it, and otherwise falls back to `object`. */
  function FilledType(d: DType, v: Value, missing: bool): (r: DType)
    ensures r == d || r == Object
    ensures Conforms(Some(v), d) ==> r == d
  {
    if !missing || Conforms(Some(v), d) then d else Object
  }

  /** `df[cols] = df[cols].fillna(v)`: every missing cell of the columns named
      in `cols` becomes `v`. */
  function FillNa(t: Table, cols: seq<string>, v: Value): (r: Table)
    requires RowsFit(t)
    ensures Names(r.columns) == Names(t.columns) && |r.rows| == |t.rows| && RowsFit(r)
  {
    Table(
      seq(|t.columns|, j requires 0 <= j < |t.columns| =>
        var c := t.columns[j];
        if c.name in cols then Column(c.name, FilledType(c.dtype, v, HasMissing(t.rows, j))) else c),
      seq(|t.rows|, i requires 0 <= i < |t.rows| =>
        seq(|t.columns|, j requires 0 <= j < |t.columns| =>
          if t.columns[j].name in cols && t.rows[i][j].None? then Some(v) else t.rows[i][j])))
  }

  lemma FillNaWellFormed(t: Table, cols: seq<string>, v: Value)
    requires WellFormed(t)
    ensures WellFormed(FillNa(t, cols, v))
  {
    var r := FillNa(t, cols, v);
    forall i, j | 0 <= i < |r.rows| && 0 <= j < |r.columns| ensures Conforms(r.rows[i][j], r.columns[j].dtype) {
      if t.columns[j].name in cols && t.rows[i][j].None? {
        assert HasMissing(t.rows, j);
      }
    }
  }

  /** In a filled column, a missing cell now holds `v` and a present cell is
      unchanged, so nothing in it is missing any more. */
  lemma FillNaFills(t: Table, cols: seq<string>, v: Value, c: string)
    requires RowsFit(t) && c in cols && HasColumn(t, c)
    ensures var before := Series(t, c).value;
      var after := Series(FillNa(t, cols, v), c).value;
      && (forall i :: 0 <= i < |t.rows| ==> after[i] == if before[i].None? then Some(v) else before[i])
      && CountMissing(after) == 0
  {
  }

  /** A column not named in `cols` keeps every cell. */
  lemma FillNaKeepsOthers(t: Table, cols: seq<string>, v: Value, c: string)
    requires RowsFit(t) && c !in cols
    ensures Series(FillNa(t, cols, v), c) == Series(t, c)
  {
    if HasColumn(t, c) {
      var r := FillNa(t, cols, v);
      var j := IndexOf(Names(t.columns), c);
      assert ColumnCells(r.rows, j) == ColumnCells(t.rows, j);
    }
  }

  // ---------------------------------------------------------------------------
  // Reductions over a column.

  /** `series.isnull().sum()`. */
  function CountMissing(cells: seq<Cell>): (n: nat)
    ensures n <= |cells|
    ensures n == 0 <==> forall i :: 0 <= i < |cells| ==> cells[i].Some?
    ensures n == |cells| <==> forall i :: 0 <= i < |cells| ==> cells[i].None?
  {
    if cells == [] then 0
    else CountMissing(cells[..|cells| - 1]) + (if cells[|cells| - 1].None? then 1 else 0)
  }

  /** `df.isnull().sum()`: one count per column, in column order. */
  function MissingCounts(t: Table): (counts: seq<(string, nat)>)
    requires WellFormed(t)
    ensures |counts| == |t.columns|
    ensures forall j :: 0 <= j < |t.columns| ==>
      counts[j].0 == t.columns[j].name && counts[j].1 <= |t.rows|
      && (counts[j].1 == 0 <==> forall i :: 0 <= i < |t.rows| ==> t.rows[i][j].Some?)
  {
    seq(|t.columns|, j requires 0 <= j < |t.columns| =>
      (t.columns[j].name, CountMissing(ColumnCells(t.rows, j))))
  }

  /** `series.is_unique`: no value occurs twice; two missing values count as
      the same value. */
  function IsUnique<T(==)>(xs: seq<T>): (b: bool)
    ensures b <==> Distinct(xs)
  {
    if xs == [] then true
    else
      var init := xs[..|xs| - 1];
      assert xs == init + [xs[|xs| - 1]];
      DistinctSnoc(init, xs[|xs| - 1]);
      IsUnique(init) && xs[|xs| - 1] !in init
  }

  /** A cell arithmetic accepts: a number, a flag (bool is a numeric dtype in
      pandas, and `True + 1 == 2` in Python) or NaN. */
  predicate Countable(c: Cell) {
    c.None? || c.value.Num? || c.value.Bool?
  }

  /** What a cell adds to a sum: its number, 1 or 0 for a flag, and 0 for
      NaN, which `sum` skips. */
  function Amount(c: Cell): real
    requires Countable(c)
  {
    if c.None? then 0.0 else if c.value.Num? then c.value.x else if c.value.b then 1.0 else 0.0
  }

  predicate AllNumeric(cells: seq<Cell>) {
    forall i :: 0 <= i < |cells| ==> Countable(cells[i])
  }

  /** `series.sum()`: missing values are skipped, an empty sum is 0, and a
      column with no negative amount has a non-negative sum. */
  function Sum(cells: seq<Cell>): (r: real)
    requires AllNumeric(cells)
    ensures (forall i :: 0 <= i < |cells| ==> Amount(cells[i]) >= 0.0) ==> r >= 0.0
  {
    if cells == [] then 0.0
    else Sum(cells[..|cells| - 1]) + Amount(cells[|cells| - 1])
  }

  lemma {:induction false} SumAppend(a: seq<Cell>, b: seq<Cell>)
    requires AllNumeric(a) && AllNumeric(b)
    ensures AllNumeric(a + b) && Sum(a + b) == Sum(a) + Sum(b)
  {
    if b != [] {
      var n := |b| - 1;
      assert (a + b)[..|a + b| - 1] == a + b[..n];
      assert (a + b)[|a + b| - 1] == b[n];
      SumAppend(a, b[..n]);
    } else {
      assert a + b == a;
    }
  }

  /** `series.mean()`: the sum of the present values over their number, or
      NaN (`None`) when no value is present. */
  function Mean(cells: seq<Cell>): (m: Option<real>)
    requires AllNumeric(cells)
    ensures m.None? <==> CountMissing(cells) == |cells|
    ensures CountMissing(cells) == 0 && cells != [] ==> m == Some(Sum(cells) / (|cells| as real))
  {
    var present := |cells| - CountMissing(cells);
    if present == 0 then None else Some(Sum(cells) / (present as real))
  }

  /** The sum of a column of integers is the integers' sum. */
  lemma {:induction false} SumOfInts(xs: seq<int>)
    ensures AllNumeric(IntCells(xs)) && Sum(IntCells(xs)) == IntSum(xs) as real
  {
    if xs != [] {
      var n := |xs| - 1;
      assert IntCells(xs)[..n] == IntCells(xs[..n]);
      SumOfInts(xs[..n]);
    }
  }

  function IntSum(xs: seq<int>): int {
    if xs == [] then 0 else IntSum(xs[..|xs| - 1]) + xs[|xs| - 1]
  }

  // ---------------------------------------------------------------------------
  // Building a frame from Python lists: `pd.DataFrame({name: list, ...})`.

  const SameLength := "All arrays must be of the same length"

  /** A list of ints as an int64 column. */
  function IntCells(xs: seq<int>): (cs: seq<Cell>)
    ensures |cs| == |xs| && forall i :: 0 <= i < |xs| ==> cs[i] == Some(Num(xs[i] as real))
  {
    seq(|xs|, i requires 0 <= i < |xs| => Some(Num(xs[i] as real)))
  }

  /** A list of strings as an object column. */
  function StrCells(xs: seq<string>): (cs: seq<Cell>)
    ensures |cs| == |xs| && forall i :: 0 <= i < |xs| ==> cs[i] == Some(Str(xs[i]))
  {
    seq(|xs|, i requires 0 <= i < |xs| => Some(Str(xs[i])))
  }

  /** `pd.DataFrame(dict)`: one column per key, in key order; the lists must
      all have the same length, or the constructor raises a ValueError. */
  function FromColumns(cols: seq<Column>, data: seq<seq<Cell>>): (r: Result<Table>)
    requires |data| == |cols| && Distinct(Names(cols))
    requires forall j, i :: 0 <= j < |data| && 0 <= i < |data[j]| ==> Conforms(data[j][i], cols[j].dtype)
    ensures r.Ok? <==> forall j :: 0 < j < |data| ==> |data[j]| == |data[0]|
    ensures r.Err? ==> r.error == ValueError(SameLength)
    ensures r.Ok? ==> WellFormed(r.value) && r.value.columns == cols
    ensures r.Ok? && data != [] ==> |r.value.rows| == |data[0]|
    ensures r.Ok? ==> forall i, j :: 0 <= i < |r.value.rows| && 0 <= j < |cols| ==> r.value.rows[i][j] == data[j][i]
    ensures r.Ok? ==> forall j :: 0 <= j < |cols| ==> Series(r.value, cols[j].name) == Ok(data[j])
  {
    if exists j :: 0 < j < |data| && |data[j]| != |data[0]| then Err(ValueError(SameLength))
    else
      var n := if data == [] then 0 else |data[0]|;
      var t := Table(cols, seq(n, i requires 0 <= i < n => seq(|cols|, j requires 0 <= j < |cols| => data[j][i])));
      forall j | 0 <= j < |cols| ensures Series(t, cols[j].name) == Ok(data[j]) {
        IndexOfDistinct(Names(cols), j);
        assert Series(t, cols[j].name).value == data[j];
      }
      Ok(t)
  }
}
