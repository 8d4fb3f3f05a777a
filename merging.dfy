/** Loading and merging the three raw sources: the train records, the stores
    table and the features table (04_Capstone_Walmart_Sales/01_data_loading_and_merging.py).
    Every step builds a new table from its inputs. */
module Merging {
  import opened Outcomes
  import opened Tables

  // ---------------------------------------------------------------------------
  // Keys and the columns of a joined table.

  /** Positions of the key columns `on` (past the last column for a name
      the table lacks). */
  function KeyPositions(t: Table, on: seq<string>): (ps: seq<nat>)
    ensures |ps| == |on|
    ensures forall k :: 0 <= k < |on| && HasColumn(t, on[k]) ==> ps[k] < |t.columns| && t.columns[ps[k]].name == on[k]
  {
    seq(|on|, k requires 0 <= k < |on| =>
      if on[k] in Names(t.columns) then IndexOf(Names(t.columns), on[k]) else |t.columns|)
  }

  /** The cells of `row` at positions `ps`, in that order. */
  function Pick(row: Row, ps: seq<nat>): (cs: seq<Cell>)
    ensures |cs| == |ps|
    ensures forall k :: 0 <= k < |ps| && ps[k] < |row| ==> cs[k] == row[ps[k]]
  {
    seq(|ps|, k requires 0 <= k < |ps| => if ps[k] < |row| then row[ps[k]] else None)
  }

  /** The key of every row, top to bottom. */
  function Keys(t: Table, ps: seq<nat>): (ks: seq<seq<Cell>>)
    ensures |ks| == |t.rows| && forall i :: 0 <= i < |t.rows| ==> ks[i] == Pick(t.rows[i], ps)
  {
    seq(|t.rows|, i requires 0 <= i < |t.rows| => Pick(t.rows[i], ps))
  }

  /** Positions of the right table's columns that are not keys: the columns a
      join adds to the left table. */
  function RestPositions(right: Table, on: seq<string>): (js: seq<nat>)
    ensures forall k :: 0 <= k < |js| ==> js[k] < |right.columns| && right.columns[js[k]].name !in on
    ensures StrictlyIncreasing(js)
  {
    KeptIndices(DropMask(right, on))
  }

  /** Every non-key column of the right table is among them. */
  lemma RestPositionsComplete(right: Table, on: seq<string>, j: nat)
    requires j < |right.columns| && right.columns[j].name !in on
    ensures j in RestPositions(right, on)
  {
    KeptIndicesComplete(DropMask(right, on), j);
  }

  /** pandas' default suffixes: a non-key column present on both sides is
      renamed `<name>_x` on the left and `<name>_y` on the right. */
  function LeftLabel(c: string, on: seq<string>, right: Table): string {
    if c !in on && HasColumn(right, c) then c + "_x" else c
  }

  function RightLabel(c: string, left: Table): string {
    if HasColumn(left, c) then c + "_y" else c
  }

  /** A column that receives missing values: a bool column becomes `object`,
      the others keep their dtype (int64 widens to float64, still numeric). */
  function Widened(d: DType): (w: DType)
    ensures Conforms(None, w)
    ensures forall c :: Conforms(c, d) ==> Conforms(c, w)
  {
    if d == Boolean then Object else d
  }

  /** The columns of `left` joined with `right` on `on`: the left columns in
      order, then the right's non-key columns in order, suffixed where the
      names overlap; `widen` when some left row finds no partner. */
  function JoinedColumns(left: Table, right: Table, on: seq<string>, widen: bool): (cs: seq<Column>)
    ensures |cs| == |left.columns| + |RestPositions(right, on)|
    ensures forall j :: 0 <= j < |left.columns| ==>
      cs[j] == Column(LeftLabel(left.columns[j].name, on, right), left.columns[j].dtype)
    ensures forall k :: 0 <= k < |RestPositions(right, on)| ==>
      var c := right.columns[RestPositions(right, on)[k]];
      cs[|left.columns| + k] == Column(RightLabel(c.name, left), if widen then Widened(c.dtype) else c.dtype)
  {
    var rest := RestPositions(right, on);
    seq(|left.columns|, j requires 0 <= j < |left.columns| =>
      Column(LeftLabel(left.columns[j].name, on, right), left.columns[j].dtype))
    + seq(|rest|, k requires 0 <= k < |rest| =>
      var c := right.columns[rest[k]];
      Column(RightLabel(c.name, left), if widen then Widened(c.dtype) else c.dtype))
  }

  function MissingCells(n: nat): (cs: seq<Cell>)
    ensures |cs| == n && forall k :: 0 <= k < n ==> cs[k].None?
  {
    seq(n, _ => None)
  }

  /** The keys exist on both sides; otherwise pandas raises a KeyError. */
  function CheckKeys(left: Table, right: Table, on: seq<string>): (r: Option<Error>)
    ensures r.None? <==> (forall c :: c in on ==> HasColumn(left, c)) && (forall c :: c in on ==> HasColumn(right, c))
    ensures r.Some? ==> r.value.KeyError?
  {
    if FirstAbsent(left, on).Some? then Some(KeyError(FirstAbsent(left, on).value))
    else if FirstAbsent(right, on).Some? then Some(KeyError(FirstAbsent(right, on).value))
    else None
  }

  /** The dtype of column `c`. */
  function DTypeOf(t: Table, c: string): DType
    requires HasColumn(t, c)
  {
    t.columns[IndexOf(Names(t.columns), c)].dtype
  }

  /** An object column that pandas infers as strings: it holds a string, and
      nothing but strings and missing values. */
  predicate StringCells(cells: seq<Cell>) {
    && (exists k :: 0 <= k < |cells| && cells[k].Some? && cells[k].value.Str?)
    && (forall k :: 0 <= k < |cells| && cells[k].Some? ==> cells[k].value.Str?)
  }

  /** Two key columns pandas refuses to merge before it looks at their values:
      a datetime key against one that is not, or a number key against a key
      of strings. When exactly one side has no rows the key is not checked. */
  predicate KeysClash(ld: DType, lcells: seq<Cell>, rd: DType, rcells: seq<Cell>) {
    && (|lcells| == 0 <==> |rcells| == 0)
    && (|| (ld == DateTime) != (rd == DateTime)
        || (ld == Numeric && rd == Object && StringCells(rcells))
        || (ld == Object && rd == Numeric && StringCells(lcells)))
  }

  predicate ClashAt(left: Table, right: Table, c: string)
    requires RowsFit(left) && RowsFit(right) && HasColumn(left, c) && HasColumn(right, c)
  {
    KeysClash(DTypeOf(left, c), Series(left, c).value, DTypeOf(right, c), Series(right, c).value)
  }

  /** The ValueError pandas raises for the first key whose columns clash. */
  function KeyClash(left: Table, right: Table, on: seq<string>): (r: Option<Error>)
    requires RowsFit(left) && RowsFit(right)
    requires forall c :: c in on ==> HasColumn(left, c) && HasColumn(right, c)
    ensures r.Some? <==> exists c :: c in on && ClashAt(left, right, c)
    ensures r.Some? ==> r.value.ValueError?
  {
    if on == [] then None
    else if ClashAt(left, right, on[0]) then Some(ValueError(IncompatibleKeys(on[0])))
    else
      assert forall c :: c in on ==> c == on[0] || c in on[1..];
      KeyClash(left, right, on[1..])
  }

  function IncompatibleKeys(c: string): string {
    "You are trying to merge on columns of incompatible dtypes for key '" + c + "'. If you wish to proceed you should use pd.concat"
  }

  const NotManyToOne := "Merge keys are not unique in right dataset; not a many-to-one merge"
  const DuplicateColumns := "Passing 'suffixes' which cause duplicate columns is not allowed"

  // ---------------------------------------------------------------------------
  // Left join with validate='m:1'.

  /** The row a left join produces for `l`: `l` followed by the non-key
      cells of the right row with the same key, or by missing cells. */
  function LeftJoinRow(l: Row, lps: seq<nat>, right: Table, rps: seq<nat>, rest: seq<nat>): Row {
    var keys := Keys(right, rps);
    var key := Pick(l, lps);
    if key in keys then l + Pick(right.rows[IndexOf(keys, key)], rest)
    else l + MissingCells(|rest|)
  }

  /** One joined row per left row, in order. */
  function LeftJoinRows(left: Table, lps: seq<nat>, right: Table, rps: seq<nat>, rest: seq<nat>): (rows: seq<Row>)
    ensures |rows| == |left.rows|
    ensures forall i :: 0 <= i < |left.rows| ==> rows[i] == LeftJoinRow(left.rows[i], lps, right, rps, rest)
  {
    seq(|left.rows|, i requires 0 <= i < |left.rows| => LeftJoinRow(left.rows[i], lps, right, rps, rest))
  }

  /** What pandas needs before it joins: the keys exist on both sides, their
      dtypes are compatible, and the suffixed column names are unique. */
  predicate Mergeable(left: Table, right: Table, on: seq<string>)
    requires RowsFit(left) && RowsFit(right)
  {
    && CheckKeys(left, right, on).None?
    && KeyClash(left, right, on).None?
    && Distinct(Names(JoinedColumns(left, right, on, false)))
  }

  /** Some left row finds no right row with its key, so the right-hand
      columns receive missing values. */
  predicate Unmatched(left: Table, right: Table, on: seq<string>) {
    exists i :: 0 <= i < |left.rows| && Pick(left.rows[i], KeyPositions(left, on)) !in Keys(right, KeyPositions(right, on))
  }

  /** Widening changes dtypes, never names. */
  lemma JoinedNames(left: Table, right: Table, on: seq<string>, widen: bool)
    ensures Names(JoinedColumns(left, right, on, widen)) == Names(JoinedColumns(left, right, on, false))
  {
  }

  /** `pd.merge(left, right, on=on, how='left', validate='m:1')`: it goes
      ahead exactly when the keys are mergeable and unique on the right. */
  function LeftJoinManyToOne(left: Table, right: Table, on: seq<string>): (r: Result<Table>)
    requires WellFormed(left) && WellFormed(right)
    ensures r.Ok? <==> Mergeable(left, right, on) && IsUnique(Keys(right, KeyPositions(right, on)))
    ensures r.Ok? ==> r.value.columns == JoinedColumns(left, right, on, Unmatched(left, right, on))
    ensures r.Ok? ==> WellFormed(r.value) && |r.value.rows| == |left.rows|
    ensures r.Ok? ==> forall c :: c in on ==> HasColumn(left, c) && HasColumn(right, c)
    ensures r.Ok? ==> KeyClash(left, right, on).None? && IsUnique(Keys(right, KeyPositions(right, on)))
    ensures CheckKeys(left, right, on).None? ==> (KeyClash(left, right, on).Some? <==> r.Err? && r.error.ValueError?)
    ensures r.Ok? ==> |r.value.columns| == |left.columns| + |RestPositions(right, on)|
    ensures r.Ok? ==>
      r.value.rows == LeftJoinRows(left, KeyPositions(left, on), right, KeyPositions(right, on), RestPositions(right, on))
  {
    if CheckKeys(left, right, on).Some? then Err(CheckKeys(left, right, on).value)
    else if KeyClash(left, right, on).Some? then Err(KeyClash(left, right, on).value)
    else
      var lps := KeyPositions(left, on);
      var rps := KeyPositions(right, on);
      var rest := RestPositions(right, on);
      var keys := Keys(right, rps);
      if !IsUnique(keys) then Err(MergeError(NotManyToOne))
      else
        var widen := Unmatched(left, right, on);
        var cols := JoinedColumns(left, right, on, widen);
        JoinedNames(left, right, on, widen);
        if !IsUnique(Names(cols)) then Err(MergeError(DuplicateColumns))
        else
          var rows := LeftJoinRows(left, lps, right, rps, rest);
          LeftJoinWellFormed(left, right, on, widen, rows);
          Ok(Table(cols, rows))
  }

  lemma LeftJoinWellFormed(left: Table, right: Table, on: seq<string>, widen: bool, rows: seq<Row>)
    requires WellFormed(left) && WellFormed(right)
    requires forall c :: c in on ==> HasColumn(left, c) && HasColumn(right, c)
    requires Distinct(Names(JoinedColumns(left, right, on, widen)))
    requires widen == (exists i :: 0 <= i < |left.rows| && Pick(left.rows[i], KeyPositions(left, on)) !in Keys(right, KeyPositions(right, on)))
    requires |rows| == |left.rows|
    requires forall i :: 0 <= i < |left.rows| ==>
      rows[i] == LeftJoinRow(left.rows[i], KeyPositions(left, on), right, KeyPositions(right, on), RestPositions(right, on))
    ensures WellFormed(Table(JoinedColumns(left, right, on, widen), rows))
  {
    var cols := JoinedColumns(left, right, on, widen);
    var lps, rps, rest := KeyPositions(left, on), KeyPositions(right, on), RestPositions(right, on);
    forall i | 0 <= i < |rows|
      ensures |rows[i]| == |cols| && forall j :: 0 <= j < |cols| ==> Conforms(rows[i][j], cols[j].dtype)
    {
      var keys := Keys(right, rps);
      if Pick(left.rows[i], lps) !in keys {
        assert widen;
      }
      LeftJoinRowConforms(left, right, on, widen, left.rows[i], lps, rps, rest, cols);
    }
  }

  /** One joined row fits the joined columns. */
  lemma LeftJoinRowConforms(left: Table, right: Table, on: seq<string>, widen: bool,
                            l: Row, lps: seq<nat>, rps: seq<nat>, rest: seq<nat>, cols: seq<Column>)
    requires WellFormed(right) && |l| == |left.columns|
    requires forall j :: 0 <= j < |l| ==> Conforms(l[j], left.columns[j].dtype)
    requires forall c :: c in on ==> HasColumn(right, c)
    requires rps == KeyPositions(right, on) && rest == RestPositions(right, on)
    requires cols == JoinedColumns(left, right, on, widen)
    requires Pick(l, lps) !in Keys(right, rps) ==> widen
    ensures RowConforms(LeftJoinRow(l, lps, right, rps, rest), cols)
  {
    var row := LeftJoinRow(l, lps, right, rps, rest);
    var keys := Keys(right, rps);
    var n := |l|;
    var lc, rc := cols[..n], cols[n..];
    assert cols == lc + rc;
    assert RowConforms(l, lc);
    var tail: seq<Cell>;
    if Pick(l, lps) in keys {
      var m := IndexOf(keys, Pick(l, lps));
      tail := Pick(right.rows[m], rest);
      forall k | 0 <= k < |rest| ensures Conforms(tail[k], rc[k].dtype) {
        assert Conforms(right.rows[m][rest[k]], right.columns[rest[k]].dtype);
      }
    } else {
      tail := MissingCells(|rest|);
    }
    assert RowConforms(tail, rc);
    assert row == l + tail;
    ConcatConforms(l, lc, tail, rc);
  }

  /** A joined row starts with the left row, unchanged; it continues with
      the non-key cells of the right row holding the same key when the
      right keys are unique, and with missing cells when no right row holds
      that key. */
  lemma LeftJoinRowShape(l: Row, lps: seq<nat>, right: Table, rps: seq<nat>, rest: seq<nat>)
    ensures var row, keys, n := LeftJoinRow(l, lps, right, rps, rest), Keys(right, rps), |l|;
      && |row| == n + |rest|
      && row[..n] == l
      && (forall m :: 0 <= m < |right.rows| && IsUnique(keys) && keys[m] == Pick(l, lps) ==>
            row[n..] == Pick(right.rows[m], rest))
      && (Pick(l, lps) !in keys ==> row[n..] == MissingCells(|rest|))
  {
    var keys := Keys(right, rps);
    forall m | 0 <= m < |right.rows| && IsUnique(keys) && keys[m] == Pick(l, lps)
      ensures LeftJoinRow(l, lps, right, rps, rest)[|l|..] == Pick(right.rows[m], rest)
    {
      IndexOfDistinct(keys, m);
    }
  }

  /** The m:1 left join fails with a MergeError exactly when the right
      table's keys repeat (given that the keys exist on both sides and their
      dtypes are compatible). */
  lemma LeftJoinRefusesRepeatedKeys(left: Table, right: Table, on: seq<string>)
    requires WellFormed(left) && WellFormed(right)
    requires forall c :: c in on ==> HasColumn(left, c) && HasColumn(right, c)
    requires KeyClash(left, right, on).None?
    ensures !IsUnique(Keys(right, KeyPositions(right, on))) <==>
      LeftJoinManyToOne(left, right, on) == Err(MergeError(NotManyToOne))
  {
    assert CheckKeys(left, right, on).None?;
    assert NotManyToOne != DuplicateColumns;
  }

  /** The m:1 left join keeps every left row, in order and unchanged, at
      the head of its joined row. */
  lemma LeftJoinKeepsLeftRows(left: Table, right: Table, on: seq<string>)
    requires WellFormed(left) && WellFormed(right)
    requires LeftJoinManyToOne(left, right, on).Ok?
    ensures var r := LeftJoinManyToOne(left, right, on).value;
      && |r.rows| == |left.rows|
      && |r.columns| == |left.columns| + |RestPositions(right, on)|
      && forall i :: 0 <= i < |left.rows| ==> r.rows[i][..|left.columns|] == left.rows[i]
  {
    var lps, rps, rest := KeyPositions(left, on), KeyPositions(right, on), RestPositions(right, on);
    forall i | 0 <= i < |left.rows| {
      LeftJoinRowShape(left.rows[i], lps, right, rps, rest);
    }
  }

  /** A left row whose key some right row holds is followed by that right
      row's non-key cells. */
  lemma LeftJoinMatchedRows(left: Table, right: Table, on: seq<string>)
    requires WellFormed(left) && WellFormed(right)
    requires LeftJoinManyToOne(left, right, on).Ok?
    ensures forall c :: c in on ==> HasColumn(left, c) && HasColumn(right, c)
    ensures var r := LeftJoinManyToOne(left, right, on).value;
      var lps, rps, n := KeyPositions(left, on), KeyPositions(right, on), |left.columns|;
      forall i, m ::
        (0 <= i < |left.rows| && 0 <= m < |right.rows| && Pick(left.rows[i], lps) == Pick(right.rows[m], rps))
        ==> r.rows[i][n..] == Pick(right.rows[m], RestPositions(right, on))
  {
    var lps, rps, rest := KeyPositions(left, on), KeyPositions(right, on), RestPositions(right, on);
    forall i | 0 <= i < |left.rows| {
      LeftJoinRowShape(left.rows[i], lps, right, rps, rest);
    }
  }

  /** A left row whose key no right row holds is followed by missing cells. */
  lemma LeftJoinUnmatchedRows(left: Table, right: Table, on: seq<string>)
    requires WellFormed(left) && WellFormed(right)
    requires LeftJoinManyToOne(left, right, on).Ok?
    ensures forall c :: c in on ==> HasColumn(left, c) && HasColumn(right, c)
    ensures var r := LeftJoinManyToOne(left, right, on).value;
      var lps, rps, n := KeyPositions(left, on), KeyPositions(right, on), |left.columns|;
      forall i ::
        (0 <= i < |left.rows| && forall m :: 0 <= m < |right.rows| ==> Pick(left.rows[i], lps) != Pick(right.rows[m], rps))
        ==> r.rows[i][n..] == MissingCells(|RestPositions(right, on)|)
  {
    var lps, rps, rest := KeyPositions(left, on), KeyPositions(right, on), RestPositions(right, on);
    forall i | 0 <= i < |left.rows| {
      LeftJoinRowShape(left.rows[i], lps, right, rps, rest);
    }
  }

  // ---------------------------------------------------------------------------
  // Inner join (no cardinality check), used for the holiday-flag validation.

  /** The rows joining `l` with each right row that has its key, in the
      right table's order. */
  function MatchRows(l: Row, lps: seq<nat>, rrows: seq<Row>, rps: seq<nat>, rest: seq<nat>): (out: seq<Row>)
    ensures forall x :: x in out ==> |x| == |l| + |rest|
  {
    if rrows == [] then []
    else
      var tail := MatchRows(l, lps, rrows[1..], rps, rest);
      if Pick(rrows[0], rps) == Pick(l, lps) then [l + Pick(rrows[0], rest)] + tail else tail
  }

  lemma {:induction false} MatchRowsSound(l: Row, lps: seq<nat>, rrows: seq<Row>, rps: seq<nat>, rest: seq<nat>, x: Row)
    requires x in MatchRows(l, lps, rrows, rps, rest)
    ensures exists m :: 0 <= m < |rrows| && Pick(rrows[m], rps) == Pick(l, lps) && x == l + Pick(rrows[m], rest)
  {
    if rrows != [] {
      if Pick(rrows[0], rps) == Pick(l, lps) && x == l + Pick(rrows[0], rest) {
      } else {
        MatchRowsSound(l, lps, rrows[1..], rps, rest, x);
        var m :| 0 <= m < |rrows[1..]| && Pick(rrows[1..][m], rps) == Pick(l, lps) && x == l + Pick(rrows[1..][m], rest);
        assert rrows[1..][m] == rrows[m + 1];
      }
    }
  }

  lemma {:induction false} MatchRowsComplete(l: Row, lps: seq<nat>, rrows: seq<Row>, rps: seq<nat>, rest: seq<nat>, m: nat)
    requires m < |rrows| && Pick(rrows[m], rps) == Pick(l, lps)
    ensures l + Pick(rrows[m], rest) in MatchRows(l, lps, rrows, rps, rest)
  {
    if m > 0 {
      assert rrows[1..][m - 1] == rrows[m];
      MatchRowsComplete(l, lps, rrows[1..], rps, rest, m - 1);
    }
  }

  /** For each left row in order, its matches in the right table. */
  function InnerRows(lrows: seq<Row>, lps: seq<nat>, rrows: seq<Row>, rps: seq<nat>, rest: seq<nat>): (out: seq<Row>)
  {
    if lrows == [] then []
    else
      MatchRows(lrows[0], lps, rrows, rps, rest) + InnerRows(lrows[1..], lps, rrows, rps, rest)
  }

  /** Joining rows of width `w` gives rows of width `w` plus the added cells. */
  lemma {:induction false} InnerRowsWidth(lrows: seq<Row>, w: nat, lps: seq<nat>, rrows: seq<Row>, rps: seq<nat>, rest: seq<nat>)
    requires forall i :: 0 <= i < |lrows| ==> |lrows[i]| == w
    ensures forall x :: x in InnerRows(lrows, lps, rrows, rps, rest) ==> |x| == w + |rest|
  {
    if lrows != [] {
      InnerRowsWidth(lrows[1..], w, lps, rrows, rps, rest);
    }
  }

  lemma {:induction false} InnerRowsSound(lrows: seq<Row>, lps: seq<nat>, rrows: seq<Row>, rps: seq<nat>, rest: seq<nat>, x: Row)
    requires x in InnerRows(lrows, lps, rrows, rps, rest)
    ensures exists i, m ::
              0 <= i < |lrows| && 0 <= m < |rrows| &&
              Pick(rrows[m], rps) == Pick(lrows[i], lps) && x == lrows[i] + Pick(rrows[m], rest)
  {
    if x in MatchRows(lrows[0], lps, rrows, rps, rest) {
      MatchRowsSound(lrows[0], lps, rrows, rps, rest, x);
      var m :| 0 <= m < |rrows| && Pick(rrows[m], rps) == Pick(lrows[0], lps) && x == lrows[0] + Pick(rrows[m], rest);
      assert 0 < |lrows|;
    } else {
      InnerRowsSound(lrows[1..], lps, rrows, rps, rest, x);
      var i, m :| 0 <= i < |lrows[1..]| && 0 <= m < |rrows| &&
        Pick(rrows[m], rps) == Pick(lrows[1..][i], lps) && x == lrows[1..][i] + Pick(rrows[m], rest);
      assert lrows[1..][i] == lrows[i + 1];
    }
  }

  lemma {:induction false} InnerRowsComplete(lrows: seq<Row>, lps: seq<nat>, rrows: seq<Row>, rps: seq<nat>, rest: seq<nat>, i: nat, m: nat)
    requires i < |lrows| && m < |rrows| && Pick(rrows[m], rps) == Pick(lrows[i], lps)
    ensures lrows[i] + Pick(rrows[m], rest) in InnerRows(lrows, lps, rrows, rps, rest)
  {
    if i == 0 {
      MatchRowsComplete(lrows[0], lps, rrows, rps, rest, m);
    } else {
      assert lrows[1..][i - 1] == lrows[i];
      InnerRowsComplete(lrows[1..], lps, rrows, rps, rest, i - 1, m);
    }
  }

  /** `pd.merge(left, right, on=on, how='inner')`. Missing keys match each
      other, as in pandas. */
  function InnerJoin(left: Table, right: Table, on: seq<string>): (r: Result<Table>)
    requires RowsFit(left) && RowsFit(right)
    ensures r.Ok? <==> Mergeable(left, right, on)
    ensures r.Ok? ==> r.value.columns == JoinedColumns(left, right, on, false)
    ensures r.Ok? ==> Distinct(Names(r.value.columns)) && RowsFit(r.value)
    ensures r.Ok? ==> forall c :: c in on ==> HasColumn(left, c) && HasColumn(right, c)
    ensures r.Ok? ==> KeyClash(left, right, on).None?
    ensures CheckKeys(left, right, on).None? ==> (KeyClash(left, right, on).Some? <==> r.Err? && r.error.ValueError?)
    ensures r.Ok? ==>
      r.value.rows == InnerRows(left.rows, KeyPositions(left, on), right.rows, KeyPositions(right, on), RestPositions(right, on))
  {
    if CheckKeys(left, right, on).Some? then Err(CheckKeys(left, right, on).value)
    else if KeyClash(left, right, on).Some? then Err(KeyClash(left, right, on).value)
    else
      var cols := JoinedColumns(left, right, on, false);
      if !IsUnique(Names(cols)) then Err(MergeError(DuplicateColumns))
      else
        var lps, rps, rest := KeyPositions(left, on), KeyPositions(right, on), RestPositions(right, on);
        InnerRowsWidth(left.rows, |left.columns|, lps, right.rows, rps, rest);
        Ok(Table(cols, InnerRows(left.rows, lps, right.rows, rps, rest)))
  }

  /** Every row of the inner join pairs a left row with a right row of the
      same key: the left row followed by the right row's non-key cells. */
  lemma InnerJoinSound(left: Table, right: Table, on: seq<string>, x: Row)
    requires RowsFit(left) && RowsFit(right)
    requires InnerJoin(left, right, on).Ok? && x in InnerJoin(left, right, on).value.rows
    ensures forall c :: c in on ==> HasColumn(left, c) && HasColumn(right, c)
    ensures var lps, rps, rest := KeyPositions(left, on), KeyPositions(right, on), RestPositions(right, on);
      exists i, m ::
        0 <= i < |left.rows| && 0 <= m < |right.rows| &&
        Pick(right.rows[m], rps) == Pick(left.rows[i], lps) && x == left.rows[i] + Pick(right.rows[m], rest)
  {
    InnerRowsSound(left.rows, KeyPositions(left, on), right.rows, KeyPositions(right, on), RestPositions(right, on), x);
  }

  /** Every pair of rows with equal keys appears in the inner join. */
  lemma InnerJoinComplete(left: Table, right: Table, on: seq<string>, i: nat, m: nat)
    requires RowsFit(left) && RowsFit(right)
    requires InnerJoin(left, right, on).Ok?
    requires i < |left.rows| && m < |right.rows|
    requires Pick(right.rows[m], KeyPositions(right, on)) == Pick(left.rows[i], KeyPositions(left, on))
    ensures left.rows[i] + Pick(right.rows[m], RestPositions(right, on)) in InnerJoin(left, right, on).value.rows
  {
    InnerRowsComplete(left.rows, KeyPositions(left, on), right.rows, KeyPositions(right, on), RestPositions(right, on), i, m);
  }

  // ---------------------------------------------------------------------------
  // The holiday-flag validation.

  /** `(a == b)` for one pair of flags: a missing flag equals nothing. */
  predicate FlagsAgree(a: Cell, b: Cell) {
    a.Some? && b.Some? && PythonEquals(a.value, b.value)
  }

  /** Python's `==` on two present values, which pandas applies element by
      element: `True == 1` and `False == 0` hold, as do `1 == 1.0` and equal
      strings or timestamps; values of unrelated kinds are unequal. */
  predicate PythonEquals(a: Value, b: Value) {
    match (a, b)
    case (Bool(p), Num(x)) => x == (if p then 1.0 else 0.0)
    case (Num(x), Bool(p)) => x == (if p then 1.0 else 0.0)
    case _ => a == b
  }

  /** `(x == y).all()`: every position agrees (true when there is none). */
  function AllAgree(xs: seq<Cell>, ys: seq<Cell>): bool
    requires |xs| == |ys|
  {
    forall k :: 0 <= k < |xs| ==> FlagsAgree(xs[k], ys[k])
  }

  const StoreDateKey: seq<string> := ["Store", "Date"]
  const Holiday := "IsHoliday"

  /** Inner-join train and features on (Store, Date) and compare the two
      `IsHoliday` columns, which the join names `IsHoliday_x` and
      `IsHoliday_y`. */
  function HolidayFlagsConsistent(train: Table, features: Table): Result<bool>
    requires RowsFit(train) && RowsFit(features)
  {
    var joined :- InnerJoin(train, features, StoreDateKey);
    var x :- Series(joined, Holiday + "_x");
    var y :- Series(joined, Holiday + "_y");
    Ok(AllAgree(x, y))
  }

  /** What the validation is meant to establish: on every (Store, Date) pair
      present in both tables, the two flags are present and equal. */
  ghost predicate FlagsAgreeOnSharedKeys(train: Table, features: Table)
    requires RowsFit(train) && RowsFit(features)
    requires HasColumn(train, Holiday) && HasColumn(features, Holiday)
  {
    var hx := IndexOf(Names(train.columns), Holiday);
    var hy := IndexOf(Names(features.columns), Holiday);
    var lps, rps := KeyPositions(train, StoreDateKey), KeyPositions(features, StoreDateKey);
    forall i, m ::
      (0 <= i < |train.rows| && 0 <= m < |features.rows| && Pick(features.rows[m], rps) == Pick(train.rows[i], lps))
      ==> FlagsAgree(train.rows[i][hx], features.rows[m][hy])
  }

  /** A non-key column `c` present on both sides sits, as `c_x`, where it
      sat in the left table. */
  lemma SuffixedLeftPosition(left: Table, right: Table, on: seq<string>, widen: bool, cols: seq<Column>, c: string)
    requires c !in on && HasColumn(left, c) && HasColumn(right, c)
    requires cols == JoinedColumns(left, right, on, widen)
    requires Distinct(Names(cols))
    ensures c + "_x" in Names(cols) && IndexOf(Names(cols), c + "_x") == IndexOf(Names(left.columns), c)
  {
    var names := Names(cols);
    var j := IndexOf(Names(left.columns), c);
    assert LeftLabel(c, on, right) == c + "_x";
    assert names[j] == c + "_x";
    IndexOfDistinct(names, j);
  }

  /** ... and, as `c_y`, at the place of the right table's `c` among the
      right columns that follow the left ones. */
  lemma SuffixedRightPosition(left: Table, right: Table, on: seq<string>, widen: bool, cols: seq<Column>, c: string, ky: nat)
    requires HasColumn(left, c) && HasColumn(right, c)
    requires cols == JoinedColumns(left, right, on, widen)
    requires Distinct(Names(cols))
    requires ky < |RestPositions(right, on)| && RestPositions(right, on)[ky] == IndexOf(Names(right.columns), c)
    ensures c + "_y" in Names(cols) && IndexOf(Names(cols), c + "_y") == |left.columns| + ky
  {
    var p := |left.columns| + ky;
    var rest := RestPositions(right, on);
    assert right.columns[rest[ky]].name == c;
    assert cols[p].name == RightLabel(c, left) == c + "_y";
    IndexOfDistinct(Names(cols), p);
  }

  /** A joined row holds the left row's cells first, then the right row's
      non-key cells. */
  lemma JoinedCells(row: Row, l: Row, r: Row, rest: seq<nat>, j: nat, k: nat)
    requires row == l + Pick(r, rest)
    requires j < |l| && k < |rest| && rest[k] < |r|
    ensures row[j] == l[j] && row[|l| + k] == r[rest[k]]
  {
  }

  /** In the joined table, `IsHoliday_x` holds the train row's flag and
      `IsHoliday_y` the features row's flag. */
  lemma HolidayColumnsOfJoin(train: Table, features: Table)
    requires RowsFit(train) && RowsFit(features)
    requires HasColumn(train, Holiday) && HasColumn(features, Holiday)
    requires InnerJoin(train, features, StoreDateKey).Ok?
    ensures var joined := InnerJoin(train, features, StoreDateKey).value;
      var x, y := Series(joined, Holiday + "_x"), Series(joined, Holiday + "_y");
      var hx, hy := IndexOf(Names(train.columns), Holiday), IndexOf(Names(features.columns), Holiday);
      var rest := RestPositions(features, StoreDateKey);
      && x.Ok? && y.Ok?
      && forall k, i, m ::
           (0 <= k < |joined.rows| && 0 <= i < |train.rows| && 0 <= m < |features.rows| &&
            joined.rows[k] == train.rows[i] + Pick(features.rows[m], rest))
           ==> x.value[k] == train.rows[i][hx] && y.value[k] == features.rows[m][hy]
  {
    var joined := InnerJoin(train, features, StoreDateKey).value;
    var rest := RestPositions(features, StoreDateKey);
    var hx, hy := IndexOf(Names(train.columns), Holiday), IndexOf(Names(features.columns), Holiday);
    var ky := HolidayPositions(train, features);
    var x, y := Series(joined, Holiday + "_x").value, Series(joined, Holiday + "_y").value;
    forall k, i, m |
        0 <= k < |joined.rows| && 0 <= i < |train.rows| && 0 <= m < |features.rows| &&
        joined.rows[k] == train.rows[i] + Pick(features.rows[m], rest)
      ensures x[k] == train.rows[i][hx] && y[k] == features.rows[m][hy]
    {
      FlagCells(joined, train.rows[i], features.rows[m], rest, k, hx, ky);
    }
  }

  /** Where the join puts the two flags: `IsHoliday_x` at the train column's
      position, `IsHoliday_y` after the train columns, at the place `ky` of
      the features flag among the features' non-key columns. */
  lemma HolidayPositions(train: Table, features: Table) returns (ky: nat)
    requires RowsFit(train) && RowsFit(features)
    requires HasColumn(train, Holiday) && HasColumn(features, Holiday)
    requires InnerJoin(train, features, StoreDateKey).Ok?
    ensures var joined := InnerJoin(train, features, StoreDateKey).value;
      var rest := RestPositions(features, StoreDateKey);
      && ky < |rest| && rest[ky] == IndexOf(Names(features.columns), Holiday)
      && HasColumn(joined, Holiday + "_x") && HasColumn(joined, Holiday + "_y")
      && IndexOf(Names(joined.columns), Holiday + "_x") == IndexOf(Names(train.columns), Holiday)
      && IndexOf(Names(joined.columns), Holiday + "_y") == |train.columns| + ky
  {
    var joined := InnerJoin(train, features, StoreDateKey).value;
    var rest := RestPositions(features, StoreDateKey);
    var hy := IndexOf(Names(features.columns), Holiday);
    assert Holiday !in StoreDateKey;
    SuffixedLeftPosition(train, features, StoreDateKey, false, joined.columns, Holiday);
    RestPositionsComplete(features, StoreDateKey, hy);
    ky :| 0 <= ky < |rest| && rest[ky] == hy;
    SuffixedRightPosition(train, features, StoreDateKey, false, joined.columns, Holiday, ky);
  }

  /** The two flag cells of joined row `k`, when that row joins `l` with `r`. */
  lemma FlagCells(joined: Table, l: Row, r: Row, rest: seq<nat>, k: nat, hx: nat, ky: nat)
    requires RowsFit(joined) && k < |joined.rows| && joined.rows[k] == l + Pick(r, rest)
    requires hx < |l| && ky < |rest| && rest[ky] < |r|
    requires HasColumn(joined, Holiday + "_x") && IndexOf(Names(joined.columns), Holiday + "_x") == hx
    requires HasColumn(joined, Holiday + "_y") && IndexOf(Names(joined.columns), Holiday + "_y") == |l| + ky
    ensures Series(joined, Holiday + "_x").value[k] == l[hx]
    ensures Series(joined, Holiday + "_y").value[k] == r[rest[ky]]
  {
    JoinedCells(joined.rows[k], l, r, rest, hx, ky);
  }

  /** Flags that agree on every joined row agree on every shared key. */
  lemma AgreeingJoinRows(train: Table, features: Table)
    requires RowsFit(train) && RowsFit(features)
    requires HasColumn(train, Holiday) && HasColumn(features, Holiday)
    requires InnerJoin(train, features, StoreDateKey).Ok?
    requires var joined := InnerJoin(train, features, StoreDateKey).value;
      var x, y := Series(joined, Holiday + "_x"), Series(joined, Holiday + "_y");
      x.Ok? && y.Ok? && AllAgree(x.value, y.value)
    ensures FlagsAgreeOnSharedKeys(train, features)
  {
    var joined := InnerJoin(train, features, StoreDateKey).value;
    var lps, rps := KeyPositions(train, StoreDateKey), KeyPositions(features, StoreDateKey);
    var rest := RestPositions(features, StoreDateKey);
    var hx, hy := IndexOf(Names(train.columns), Holiday), IndexOf(Names(features.columns), Holiday);
    HolidayColumnsOfJoin(train, features);
    var x := Series(joined, Holiday + "_x").value;
    var y := Series(joined, Holiday + "_y").value;
    forall i, m | 0 <= i < |train.rows| && 0 <= m < |features.rows| && Pick(features.rows[m], rps) == Pick(train.rows[i], lps)
      ensures FlagsAgree(train.rows[i][hx], features.rows[m][hy])
    {
      InnerJoinComplete(train, features, StoreDateKey, i, m);
      var k :| 0 <= k < |joined.rows| && joined.rows[k] == train.rows[i] + Pick(features.rows[m], rest);
      assert FlagsAgree(x[k], y[k]);
    }
  }

  /** A joined row whose flags disagree is a shared key whose flags disagree. */
  lemma DisagreeingJoinRow(train: Table, features: Table)
    requires RowsFit(train) && RowsFit(features)
    requires HasColumn(train, Holiday) && HasColumn(features, Holiday)
    requires InnerJoin(train, features, StoreDateKey).Ok?
    requires var joined := InnerJoin(train, features, StoreDateKey).value;
      var x, y := Series(joined, Holiday + "_x"), Series(joined, Holiday + "_y");
      x.Ok? && y.Ok? && !AllAgree(x.value, y.value)
    ensures !FlagsAgreeOnSharedKeys(train, features)
  {
    var i, m := DisagreeingPair(train, features);
  }

  /** The train row and the features row behind a disagreeing joined row. */
  lemma DisagreeingPair(train: Table, features: Table) returns (i: nat, m: nat)
    requires RowsFit(train) && RowsFit(features)
    requires HasColumn(train, Holiday) && HasColumn(features, Holiday)
    requires InnerJoin(train, features, StoreDateKey).Ok?
    requires var joined := InnerJoin(train, features, StoreDateKey).value;
      var x, y := Series(joined, Holiday + "_x"), Series(joined, Holiday + "_y");
      x.Ok? && y.Ok? && !AllAgree(x.value, y.value)
    ensures i < |train.rows| && m < |features.rows|
    ensures Pick(features.rows[m], KeyPositions(features, StoreDateKey)) == Pick(train.rows[i], KeyPositions(train, StoreDateKey))
    ensures !FlagsAgree(train.rows[i][IndexOf(Names(train.columns), Holiday)], features.rows[m][IndexOf(Names(features.columns), Holiday)])
  {
    var joined := InnerJoin(train, features, StoreDateKey).value;
    var lps, rps := KeyPositions(train, StoreDateKey), KeyPositions(features, StoreDateKey);
    var rest := RestPositions(features, StoreDateKey);
    HolidayColumnsOfJoin(train, features);
    var x := Series(joined, Holiday + "_x").value;
    var y := Series(joined, Holiday + "_y").value;
    var k :| 0 <= k < |joined.rows| && !FlagsAgree(x[k], y[k]);
    InnerJoinSound(train, features, StoreDateKey, joined.rows[k]);
    i, m :| 0 <= i < |train.rows| && 0 <= m < |features.rows| &&
      Pick(features.rows[m], rps) == Pick(train.rows[i], lps) && joined.rows[k] == train.rows[i] + Pick(features.rows[m], rest);
  }

  /** The validation's verdict is true exactly when the flags agree on every
      shared (Store, Date) pair (so it is true when no pair is shared). */
  lemma HolidayVerdict(train: Table, features: Table)
    requires RowsFit(train) && RowsFit(features)
    requires HasColumn(train, Holiday) && HasColumn(features, Holiday)
    requires HolidayFlagsConsistent(train, features).Ok?
    ensures HolidayFlagsConsistent(train, features).value <==> FlagsAgreeOnSharedKeys(train, features)
  {
    var joined := InnerJoin(train, features, StoreDateKey).value;
    var x := Series(joined, Holiday + "_x").value;
    var y := Series(joined, Holiday + "_y").value;
    assert HolidayFlagsConsistent(train, features).value == AllAgree(x, y);
    if AllAgree(x, y) {
      AgreeingJoinRows(train, features);
    } else {
      DisagreeingJoinRow(train, features);
    }
  }

  // ---------------------------------------------------------------------------
  // The loading script.

  /** What the script reports besides the merged table: the holiday-flag
      verdict, the missing-value count of every merged column, and whether
      `Store` is unique in each source. */
  datatype MergeReport = MergeReport(
    holidayFlagsConsistent: bool,
    merged: Table,
    missingValues: seq<(string, nat)>,
    storeUniqueInFeatures: bool,
    storeUniqueInTrain: bool,
    storeUniqueInStores: bool)

  const StoreKey: seq<string> := ["Store"]

  /** Lines 20-27: the features without their flag, then the two left
      merges. Every merged row begins with its train row, unchanged and in
      train's order: both merges only append columns. */
  function Merged(train: Table, stores: Table, features: Table): (r: Result<Table>)
    requires WellFormed(train) && WellFormed(stores) && WellFormed(features)
    ensures r.Ok? ==> WellFormed(r.value) && |r.value.rows| == |train.rows|
    ensures r.Ok? ==> |r.value.columns| >= |train.columns|
    ensures r.Ok? ==> HasColumn(train, "Store") && HasColumn(stores, "Store")
    ensures r.Ok? ==> forall i :: 0 <= i < |train.rows| ==>
      r.value.rows[i][..|train.columns|] == train.rows[i]
    ensures MergeInputsFit(train, stores, features) ==> r.Ok?
  {
    MergeStepsGoAhead(train, stores, features);
    var featuresClean :- Drop(features, [Holiday], false);
    var trainStores :- LeftJoinManyToOne(train, stores, StoreKey);
    var merged :- LeftJoinManyToOne(trainStores, featuresClean, StoreDateKey);
    TwoMergesKeepTrainRows(train, stores, featuresClean);
    assert "Store" in StoreKey;
    Ok(merged)
  }
  /** The merge goes ahead exactly when the drop and both left merges do, and
      it is then the second merge's result. */
  lemma MergedExactly(train: Table, stores: Table, features: Table)
    requires WellFormed(train) && WellFormed(stores) && WellFormed(features)
    ensures Merged(train, stores, features).Ok? <==>
      && Drop(features, [Holiday], false).Ok?
      && LeftJoinManyToOne(train, stores, StoreKey).Ok?
      && LeftJoinManyToOne(LeftJoinManyToOne(train, stores, StoreKey).value,
                           Drop(features, [Holiday], false).value, StoreDateKey).Ok?
    ensures Merged(train, stores, features).Ok? ==>
      Merged(train, stores, features)
      == LeftJoinManyToOne(LeftJoinManyToOne(train, stores, StoreKey).value,
                           Drop(features, [Holiday], false).value, StoreDateKey)
  {
  }


  // ---------------------------------------------------------------------------
  // When the two merges go ahead.

  /** The right table's non-key columns are not columns of the left table,
      so no column needs a suffix. */
  predicate NoSharedColumns(left: Table, right: Table, on: seq<string>) {
    forall c :: c in Names(right.columns) && c !in on ==> !HasColumn(left, c)
  }

  /** Without shared non-key names, the joined columns are the left columns,
      unchanged, then right columns under their own names, all distinct. */
  lemma NoSuffixColumns(left: Table, right: Table, on: seq<string>, widen: bool)
    requires Distinct(Names(left.columns)) && Distinct(Names(right.columns))
    requires NoSharedColumns(left, right, on)
    ensures var cs := JoinedColumns(left, right, on, widen);
      && Distinct(Names(cs))
      && cs[..|left.columns|] == left.columns
      && forall c :: c in Names(cs) ==> HasColumn(left, c) || HasColumn(right, c)
  {
    var cs := JoinedColumns(left, right, on, widen);
    NoSuffixLabels(left, right, on, widen);
    NoSuffixDistinct(left, right, on, widen);
    assert cs[..|left.columns|] == left.columns;
    NoSuffixNames(left, right, on, widen);
    AddedNamesFromRight(right, on);
  }

  /** Every added name is a column of the right table. */
  lemma AddedNamesFromRight(right: Table, on: seq<string>)
    ensures forall c :: c in AddedNames(right, on) ==> HasColumn(right, c)
  {
    var added, rest := AddedNames(right, on), RestPositions(right, on);
    forall c | c in added ensures HasColumn(right, c) {
      var k :| 0 <= k < |added| && added[k] == c;
      assert right.columns[rest[k]].name in Names(right.columns);
    }
  }

  /** Without shared non-key names every column keeps its own name. */
  lemma NoSuffixLabels(left: Table, right: Table, on: seq<string>, widen: bool)
    requires NoSharedColumns(left, right, on)
    ensures var cs, rest, n := JoinedColumns(left, right, on, widen), RestPositions(right, on), |left.columns|;
      && (forall j :: 0 <= j < n ==> cs[j] == left.columns[j])
      && (forall j :: 0 <= j < n ==> Names(cs)[j] == Names(left.columns)[j])
      && forall k :: 0 <= k < |rest| ==> Names(cs)[n + k] == AddedNames(right, on)[k]
  {
    var cs, rest, n := JoinedColumns(left, right, on, widen), RestPositions(right, on), |left.columns|;
    forall j | 0 <= j < n ensures cs[j] == left.columns[j] {
      assert left.columns[j].name in Names(left.columns);
    }
    forall k | 0 <= k < |rest| ensures Names(cs)[n + k] == AddedNames(right, on)[k] {
      assert right.columns[rest[k]].name in Names(right.columns);
    }
  }

  lemma NoSuffixDistinct(left: Table, right: Table, on: seq<string>, widen: bool)
    requires Distinct(Names(left.columns)) && Distinct(Names(right.columns))
    requires NoSharedColumns(left, right, on)
    ensures Distinct(Names(JoinedColumns(left, right, on, widen)))
  {
    AddedNamesFit(left, right, on);
    NoSuffixNames(left, right, on, widen);
    DistinctConcat(Names(left.columns), AddedNames(right, on));
  }

  /** The names of the right table's non-key columns, in order. */
  function AddedNames(right: Table, on: seq<string>): (ns: seq<string>)
    ensures |ns| == |RestPositions(right, on)|
    ensures forall k :: 0 <= k < |ns| ==> ns[k] == right.columns[RestPositions(right, on)[k]].name
  {
    var rest := RestPositions(right, on);
    seq(|rest|, k requires 0 <= k < |rest| => right.columns[rest[k]].name)
  }

  lemma AddedNamesFit(left: Table, right: Table, on: seq<string>)
    requires Distinct(Names(right.columns)) && NoSharedColumns(left, right, on)
    ensures Distinct(AddedNames(right, on))
    ensures forall y :: y in AddedNames(right, on) ==> y !in Names(left.columns)
  {
    var added, rest := AddedNames(right, on), RestPositions(right, on);
    forall a, b | 0 <= a < b < |added| ensures Slot(added, a) != Slot(added, b) {
      DistinctAt(Names(right.columns), rest[a], rest[b]);
    }
    forall y | y in added ensures y !in Names(left.columns) {
      var k :| 0 <= k < |added| && added[k] == y;
      assert right.columns[rest[k]].name in Names(right.columns);
    }
  }

  lemma NoSuffixNames(left: Table, right: Table, on: seq<string>, widen: bool)
    requires NoSharedColumns(left, right, on)
    ensures Names(JoinedColumns(left, right, on, widen)) == Names(left.columns) + AddedNames(right, on)
  {
    NoSuffixLabels(left, right, on, widen);
    ConcatByIndex(Names(JoinedColumns(left, right, on, widen)), Names(left.columns), AddedNames(right, on));
  }

  /** A list that agrees with `xs` and then with `ys`, index by index, is
      their concatenation. */
  lemma ConcatByIndex<T>(zs: seq<T>, xs: seq<T>, ys: seq<T>)
    requires |zs| == |xs| + |ys|
    requires forall j :: 0 <= j < |xs| ==> zs[j] == xs[j]
    requires forall k :: 0 <= k < |ys| ==> zs[|xs| + k] == ys[k]
    ensures zs == xs + ys
  {
    forall p | |xs| <= p < |zs| ensures zs[p] == (xs + ys)[p] {
      assert zs[|xs| + (p - |xs|)] == ys[p - |xs|];
    }
  }

  /** A table whose columns and rows begin with those of `left` has `left`
      as a sub-frame. */
  lemma PrefixSubFrame(left: Table, r: Table)
    requires WellFormed(left) && WellFormed(r)
    requires |r.columns| >= |left.columns| && r.columns[..|left.columns|] == left.columns
    requires |r.rows| == |left.rows|
    requires forall i :: 0 <= i < |left.rows| ==> r.rows[i][..|left.columns|] == left.rows[i]
    ensures SubFrame(left, r)
  {
    var n := |left.columns|;
    forall k | 0 <= k < n
      ensures IndexOf(Names(r.columns), left.columns[k].name) == k
      ensures Series(left, left.columns[k].name) == Series(r, left.columns[k].name)
    {
      assert r.columns[k] == r.columns[..n][k];
      IndexOfDistinct(Names(r.columns), k);
      IndexOfDistinct(Names(left.columns), k);
      forall i | 0 <= i < |left.rows| ensures r.rows[i][k] == left.rows[i][k] {
        assert r.rows[i][k] == r.rows[i][..n][k];
      }
      assert Series(left, left.columns[k].name).value == Series(r, left.columns[k].name).value;
    }
  }

  /** An m:1 left join on present, compatible keys that are unique on the
      right, with no shared non-key column, goes ahead. The left table is a
      sub-frame of the result, whose other columns come from the right. */
  lemma LeftJoinGoesAhead(left: Table, right: Table, on: seq<string>)
    requires WellFormed(left) && WellFormed(right)
    requires CheckKeys(left, right, on).None? && KeyClash(left, right, on).None?
    requires IsUnique(Keys(right, KeyPositions(right, on)))
    requires NoSharedColumns(left, right, on)
    ensures LeftJoinManyToOne(left, right, on).Ok?
    ensures var r := LeftJoinManyToOne(left, right, on).value;
      && SubFrame(left, r)
      && forall c :: HasColumn(r, c) ==> HasColumn(left, c) || HasColumn(right, c)
  {
    NoSuffixColumns(left, right, on, false);
    var r := LeftJoinManyToOne(left, right, on).value;
    NoSuffixColumns(left, right, on, Unmatched(left, right, on));
    LeftJoinKeepsLeftRows(left, right, on);
    PrefixSubFrame(left, r);
  }

  /** A column of a sub-frame has the same dtype and cells in the frame. */
  lemma SubFrameColumn(x: Table, t: Table, c: string)
    requires WellFormed(x) && WellFormed(t) && SubFrame(x, t) && HasColumn(x, c)
    ensures HasColumn(t, c) && DTypeOf(x, c) == DTypeOf(t, c) && Series(x, c) == Series(t, c)
  {
    var k := IndexOf(Names(x.columns), c);
    assert x.columns[k].name == c;
  }

  /** Dropping the features' flag keeps every other column, unchanged. */
  lemma DropHolidayKeeps(features: Table)
    requires WellFormed(features) && HasColumn(features, Holiday)
    ensures Drop(features, [Holiday], false).Ok?
    ensures var fc := Drop(features, [Holiday], false).value;
      && SubFrame(fc, features) && |fc.rows| == |features.rows|
      && forall c :: HasColumn(fc, c) <==> HasColumn(features, c) && c != Holiday
  {
    assert forall c :: c in [Holiday] ==> HasColumn(features, c);
    var fc := Drop(features, [Holiday], false).value;
    ProjectSubFrame(features, KeptIndices(DropMask(features, [Holiday])));
    DropKeeps(features, [Holiday], false);
    forall c | HasColumn(fc, c) ensures HasColumn(features, c) && c != Holiday {
      var k := IndexOf(Names(fc.columns), c);
      assert fc.columns[k].name == c;
    }
    forall c | HasColumn(features, c) && c != Holiday ensures HasColumn(fc, c) {
      var j := IndexOf(Names(features.columns), c);
      assert features.columns[j] in fc.columns;
      var k :| 0 <= k < |fc.columns| && fc.columns[k] == features.columns[j];
      assert Names(fc.columns)[k] == c;
    }
  }

  /** Two tables whose key columns carry the same cells have the same keys. */
  lemma SameKeys(a: Table, b: Table, on: seq<string>)
    requires RowsFit(a) && RowsFit(b) && |a.rows| == |b.rows|
    requires forall c :: c in on ==> HasColumn(a, c) && HasColumn(b, c) && Series(a, c) == Series(b, c)
    ensures Keys(a, KeyPositions(a, on)) == Keys(b, KeyPositions(b, on))
  {
    forall i | 0 <= i < |a.rows| ensures Pick(a.rows[i], KeyPositions(a, on)) == Pick(b.rows[i], KeyPositions(b, on)) {
      forall k | 0 <= k < |on|
        ensures Pick(a.rows[i], KeyPositions(a, on))[k] == Pick(b.rows[i], KeyPositions(b, on))[k]
      {
        assert on[k] in on;
        assert Series(a, on[k]).value[i] == Series(b, on[k]).value[i];
      }
    }
  }

  /** The three tables as the script needs them: the keys are present with
      compatible dtypes, Store is unique in stores and (Store, Date) in
      features, and apart from the keys and the features' own IsHoliday no
      two tables share a column name, so no suffix is needed. */
  predicate MergeInputsFit(train: Table, stores: Table, features: Table)
    requires RowsFit(train) && RowsFit(stores) && RowsFit(features)
  {
    && HasColumn(train, "Store") && HasColumn(train, "Date") && HasColumn(stores, "Store")
    && HasColumn(features, "Store") && HasColumn(features, "Date") && HasColumn(features, Holiday)
    && !ClashAt(train, stores, "Store") && !ClashAt(train, features, "Store") && !ClashAt(train, features, "Date")
    && IsUnique(Keys(stores, KeyPositions(stores, StoreKey)))
    && IsUnique(Keys(features, KeyPositions(features, StoreDateKey)))
    && NoSharedColumns(train, stores, StoreKey)
    && (forall c :: c in Names(features.columns) && c !in StoreDateKey && c != Holiday ==>
          !HasColumn(train, c) && !HasColumn(stores, c))
  }

  /** With fitting inputs the drop and both merges go ahead. */
  lemma MergeStepsGoAhead(train: Table, stores: Table, features: Table)
    requires WellFormed(train) && WellFormed(stores) && WellFormed(features)
    ensures MergeInputsFit(train, stores, features) ==>
      && Drop(features, [Holiday], false).Ok?
      && LeftJoinManyToOne(train, stores, StoreKey).Ok?
      && LeftJoinManyToOne(LeftJoinManyToOne(train, stores, StoreKey).value,
                           Drop(features, [Holiday], false).value, StoreDateKey).Ok?
  {
    if MergeInputsFit(train, stores, features) {
      assert forall c :: c in StoreKey ==> c == "Store";
      assert CheckKeys(train, stores, StoreKey).None?;
      assert KeyClash(train, stores, StoreKey).None?;
      LeftJoinGoesAhead(train, stores, StoreKey);
      DropHolidayKeeps(features);
      var ts, fc := LeftJoinManyToOne(train, stores, StoreKey).value, Drop(features, [Holiday], false).value;
      SecondJoinNoShared(train, stores, features, ts, fc);
      SecondJoinGoesAhead(train, features, ts, fc);
    }
  }

  /** The (Store, Date) merge of train-with-stores and the features without
      their flag goes ahead: its keys are train's and features' own. */
  lemma SecondJoinGoesAhead(train: Table, features: Table, ts: Table, fc: Table)
    requires WellFormed(train) && WellFormed(features) && WellFormed(ts) && WellFormed(fc)
    requires HasColumn(train, "Store") && HasColumn(train, "Date")
    requires HasColumn(fc, "Store") && HasColumn(fc, "Date") && HasColumn(features, "Store") && HasColumn(features, "Date")
    requires !ClashAt(train, features, "Store") && !ClashAt(train, features, "Date")
    requires IsUnique(Keys(features, KeyPositions(features, StoreDateKey)))
    requires SubFrame(train, ts) && SubFrame(fc, features) && |fc.rows| == |features.rows|
    requires NoSharedColumns(ts, fc, StoreDateKey)
    ensures LeftJoinManyToOne(ts, fc, StoreDateKey).Ok?
  {
    KeyCarried(train, features, ts, fc, "Store");
    KeyCarried(train, features, ts, fc, "Date");
    StoreDateKeysFit(ts, fc);
    StoreDateKeysSame(fc, features);
    LeftJoinGoesAhead(ts, fc, StoreDateKey);
  }

  /** Store and Date present on both sides without a clash pass the key checks. */
  lemma StoreDateKeysFit(left: Table, right: Table)
    requires RowsFit(left) && RowsFit(right)
    requires HasColumn(left, "Store") && HasColumn(left, "Date") && HasColumn(right, "Store") && HasColumn(right, "Date")
    requires !ClashAt(left, right, "Store") && !ClashAt(left, right, "Date")
    ensures CheckKeys(left, right, StoreDateKey).None? && KeyClash(left, right, StoreDateKey).None?
  {
    assert forall c :: c in StoreDateKey ==> c == "Store" || c == "Date";
  }

  /** The features keep their (Store, Date) keys when the flag is dropped. */
  lemma StoreDateKeysSame(fc: Table, features: Table)
    requires RowsFit(fc) && RowsFit(features) && |fc.rows| == |features.rows|
    requires HasColumn(fc, "Store") && HasColumn(fc, "Date") && HasColumn(features, "Store") && HasColumn(features, "Date")
    requires Series(fc, "Store") == Series(features, "Store") && Series(fc, "Date") == Series(features, "Date")
    ensures Keys(fc, KeyPositions(fc, StoreDateKey)) == Keys(features, KeyPositions(features, StoreDateKey))
  {
    assert forall c :: c in StoreDateKey ==> c == "Store" || c == "Date";
    SameKeys(fc, features, StoreDateKey);
  }

  /** A key column of train and features is, with the same dtype and cells,
      a key column of train-with-stores and of the features without their
      flag, so the second merge sees no clash where the inputs have none. */
  lemma KeyCarried(train: Table, features: Table, ts: Table, fc: Table, c: string)
    requires WellFormed(train) && WellFormed(features) && WellFormed(ts) && WellFormed(fc)
    requires SubFrame(train, ts) && SubFrame(fc, features)
    requires HasColumn(train, c) && HasColumn(fc, c) && HasColumn(features, c)
    requires !ClashAt(train, features, c)
    ensures HasColumn(ts, c) && !ClashAt(ts, fc, c) && Series(fc, c) == Series(features, c)
  {
    SubFrameColumn(train, ts, c);
    SubFrameColumn(fc, features, c);
  }

  /** Features' own columns are new to train-with-stores. */
  lemma SecondJoinNoShared(train: Table, stores: Table, features: Table, ts: Table, fc: Table)
    requires forall c :: c in Names(features.columns) && c !in StoreDateKey && c != Holiday ==>
      !HasColumn(train, c) && !HasColumn(stores, c)
    requires forall c :: HasColumn(ts, c) ==> HasColumn(train, c) || HasColumn(stores, c)
    requires forall c :: HasColumn(fc, c) ==> HasColumn(features, c) && c != Holiday
    ensures NoSharedColumns(ts, fc, StoreDateKey)
  {
    forall c | c in Names(fc.columns) && c !in StoreDateKey ensures !HasColumn(ts, c) {
      assert HasColumn(fc, c);
    }
  }

  /** Both left merges keep each train row at the head of its merged row. */
  lemma TwoMergesKeepTrainRows(train: Table, stores: Table, featuresClean: Table)
    requires WellFormed(train) && WellFormed(stores) && WellFormed(featuresClean)
    requires LeftJoinManyToOne(train, stores, StoreKey).Ok?
    requires LeftJoinManyToOne(LeftJoinManyToOne(train, stores, StoreKey).value, featuresClean, StoreDateKey).Ok?
    ensures var merged := LeftJoinManyToOne(LeftJoinManyToOne(train, stores, StoreKey).value, featuresClean, StoreDateKey).value;
      && |merged.rows| == |train.rows| && |merged.columns| >= |train.columns|
      && forall i :: 0 <= i < |train.rows| ==> merged.rows[i][..|train.columns|] == train.rows[i]
  {
    var trainStores := LeftJoinManyToOne(train, stores, StoreKey).value;
    var merged := LeftJoinManyToOne(trainStores, featuresClean, StoreDateKey).value;
    LeftJoinKeepsLeftRows(train, stores, StoreKey);
    LeftJoinKeepsLeftRows(trainStores, featuresClean, StoreDateKey);
    PrefixOfPrefix(train.rows, trainStores.rows, merged.rows, |train.columns|, |trainStores.columns|);
  }

  /** A validation that ran found the (Store, Date) key in both tables. */
  lemma ValidationFoundKeys(train: Table, features: Table)
    requires RowsFit(train) && RowsFit(features)
    requires HolidayFlagsConsistent(train, features).Ok?
    ensures HasColumn(train, "Store") && HasColumn(features, "Store")
  {
    assert InnerJoin(train, features, StoreDateKey).Ok?;
    assert "Store" in StoreDateKey;
  }

  /** The whole script, from the three loaded tables to the report. Each
      step can raise, which ends the script. */
  function LoadAndMerge(train: Table, stores: Table, features: Table): (r: Result<MergeReport>)
    requires WellFormed(train) && WellFormed(stores) && WellFormed(features)
    ensures r.Ok? <==> HolidayFlagsConsistent(train, features).Ok? && Merged(train, stores, features).Ok?
    ensures r.Ok? ==> r.value.holidayFlagsConsistent == HolidayFlagsConsistent(train, features).value
    ensures r.Ok? ==> Merged(train, stores, features) == Ok(r.value.merged)
    ensures r.Ok? ==> WellFormed(r.value.merged) && |r.value.merged.rows| == |train.rows|
    ensures r.Ok? ==> |r.value.merged.columns| >= |train.columns|
    ensures r.Ok? ==> forall i :: 0 <= i < |train.rows| ==>
      r.value.merged.rows[i][..|train.columns|] == train.rows[i]
    ensures r.Ok? ==> r.value.missingValues == MissingCounts(r.value.merged)
    ensures r.Ok? ==> |r.value.missingValues| == |r.value.merged.columns|
    ensures r.Ok? ==> forall j :: 0 <= j < |r.value.missingValues| ==> r.value.missingValues[j].1 <= |train.rows|
    ensures r.Ok? ==> HasColumn(train, "Store") && HasColumn(stores, "Store") && HasColumn(features, "Store")
    ensures r.Ok? ==>
      && r.value.storeUniqueInFeatures == IsUnique(Series(features, "Store").value)
      && r.value.storeUniqueInTrain == IsUnique(Series(train, "Store").value)
      && r.value.storeUniqueInStores == IsUnique(Series(stores, "Store").value)
  {
    var consistent :- HolidayFlagsConsistent(train, features);
    var merged :- Merged(train, stores, features);
    ValidationFoundKeys(train, features);
    var featuresStore := Series(features, "Store").value;
    var trainStore := Series(train, "Store").value;
    var storesStore := Series(stores, "Store").value;
    Ok(MergeReport(consistent, merged, MissingCounts(merged),
                   IsUnique(featuresStore), IsUnique(trainStore), IsUnique(storesStore)))
  }

  /** Rows that begin with rows that begin with `a`'s rows begin with them. */
  lemma PrefixOfPrefix(a: seq<Row>, b: seq<Row>, c: seq<Row>, n: nat, m: nat)
    requires |a| == |b| == |c| && n <= m
    requires forall i :: 0 <= i < |a| ==> |a[i]| == n && |b[i]| >= m && b[i][..n] == a[i]
    requires forall i :: 0 <= i < |b| ==> |c[i]| >= m && c[i][..m] == b[i]
    ensures forall i :: 0 <= i < |a| ==> c[i][..n] == a[i]
  {
    forall i | 0 <= i < |a| ensures c[i][..n] == a[i] {
      assert c[i][..n] == c[i][..m][..n];
    }
  }

  /** With a repeated `Store` in the stores table the script stops at the
      first merge with pandas' many-to-one MergeError. */
  lemma LoadAndMergeRejectsRepeatedStores(train: Table, stores: Table, features: Table)
    requires WellFormed(train) && WellFormed(stores) && WellFormed(features)
    requires HolidayFlagsConsistent(train, features).Ok? && HasColumn(features, Holiday)
    requires HasColumn(train, "Store") && HasColumn(stores, "Store") && !ClashAt(train, stores, "Store")
    requires !IsUnique(Keys(stores, KeyPositions(stores, StoreKey)))
    ensures LoadAndMerge(train, stores, features) == Err(MergeError(NotManyToOne))
  {
    MergedRejectsRepeatedStores(train, stores, features);
  }

  lemma MergedRejectsRepeatedStores(train: Table, stores: Table, features: Table)
    requires WellFormed(train) && WellFormed(stores) && WellFormed(features)
    requires HasColumn(features, Holiday)
    requires HasColumn(train, "Store") && HasColumn(stores, "Store") && !ClashAt(train, stores, "Store")
    requires !IsUnique(Keys(stores, KeyPositions(stores, StoreKey)))
    ensures Merged(train, stores, features) == Err(MergeError(NotManyToOne))
  {
    assert forall c :: c in StoreKey ==> c == "Store";
    assert Drop(features, [Holiday], false).Ok?;
    assert KeyClash(train, stores, StoreKey).None?;
    LeftJoinRefusesRepeatedKeys(train, stores, StoreKey);
  }

  /** A `Store` key of strings in the stores table against a numeric one in
      train stops the script at the first merge with pandas' ValueError. */
  lemma MergedRejectsClashingStores(train: Table, stores: Table, features: Table)
    requires WellFormed(train) && WellFormed(stores) && WellFormed(features)
    requires HasColumn(features, Holiday)
    requires HasColumn(train, "Store") && HasColumn(stores, "Store") && ClashAt(train, stores, "Store")
    ensures Merged(train, stores, features).Err? && Merged(train, stores, features).error.ValueError?
  {
    assert "Store" in StoreKey;
    assert Drop(features, [Holiday], false).Ok?;
    assert CheckKeys(train, stores, StoreKey).None?;
  }
}
