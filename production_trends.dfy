/** The production log analysed over time: a conditional sum, the three
    records with the most defects, the cost of all defects, daily totals after
    the Date column is converted in place, and a weekday column added in place. */
module ProductionTrends {
  import opened Outcomes
  import opened Calendar
  import opened Tables
  import opened Frames
  import Cleaning

  const DateColumn := "Date"
  const ShiftColumn := "Shift"
  const UnitsColumn := "UnitsProduced"
  const DefectsColumn := "DefectCount"
  const DayNameColumn := "DayName"
  const DayShift := "Day"
  const CostPerDefect: real := 50.0
  const TopCount: nat := 3

  const NotNumeric := "unsupported operand type(s) for +: 'float' and 'str'"
  const NotOrderable := "'<' not supported between instances of 'str' and 'float'"
  const NotDatetime := "Can only use .dt accessor with datetimelike values"

  // ---------------------------------------------------------------------------
  // Sums over part of a column.

  /** The cells at positions `ks`, in that order. */
  function Gather(cells: seq<Cell>, ks: seq<nat>): (r: seq<Cell>)
    requires forall k :: 0 <= k < |ks| ==> ks[k] < |cells|
    ensures |r| == |ks| && forall k :: 0 <= k < |ks| ==> r[k] == cells[ks[k]]
  {
    seq(|ks|, k requires 0 <= k < |ks| => cells[ks[k]])
  }

  /** The present values at the positions where `mask` holds, added up. */
  function SumWhere(cells: seq<Cell>, mask: seq<bool>): real
    requires |cells| == |mask| && AllNumeric(cells)
  {
    if cells == [] then 0.0
    else
      var n := |cells| - 1;
      SumWhere(cells[..n], mask[..n]) + (if mask[n] then Amount(cells[n]) else 0.0)
  }

  /** Summing the rows a mask keeps is summing under the mask. */
  lemma {:induction false} SumOfKept(cells: seq<Cell>, mask: seq<bool>)
    requires |cells| == |mask| && AllNumeric(cells)
    ensures AllNumeric(Gather(cells, KeptIndices(mask)))
    ensures Sum(Gather(cells, KeptIndices(mask))) == SumWhere(cells, mask)
  {
    if cells != [] {
      var n := |cells| - 1;
      var rest := KeptIndices(mask[..n]);
      SumOfKept(cells[..n], mask[..n]);
      GatherPrefix(cells, n, rest);
      if mask[n] {
        GatherSnoc(cells, rest, n);
        SumSnoc(Gather(cells, rest), cells[n]);
      }
    }
  }

  lemma GatherPrefix(cells: seq<Cell>, n: nat, ks: seq<nat>)
    requires n <= |cells| && forall k :: 0 <= k < |ks| ==> ks[k] < n
    ensures Gather(cells, ks) == Gather(cells[..n], ks)
  {
  }

  lemma GatherSnoc(cells: seq<Cell>, ks: seq<nat>, n: nat)
    requires n < |cells| && forall k :: 0 <= k < |ks| ==> ks[k] < |cells|
    ensures Gather(cells, ks + [n]) == Gather(cells, ks) + [cells[n]]
  {
  }

  lemma SumSnoc(cells: seq<Cell>, c: Cell)
    requires AllNumeric(cells) && Countable(c)
    ensures AllNumeric(cells + [c])
    ensures Sum(cells + [c]) == Sum(cells) + Amount(c)
  {
    assert (cells + [c])[..|cells|] == cells;
  }

  /** Under a mask that holds everywhere the sum is the column's sum. */
  lemma {:induction false} SumWhereEverywhere(cells: seq<Cell>, mask: seq<bool>)
    requires |cells| == |mask| && AllNumeric(cells)
    requires forall i :: 0 <= i < |mask| ==> mask[i]
    ensures SumWhere(cells, mask) == Sum(cells)
  {
    if cells != [] {
      var n := |cells| - 1;
      SumWhereEverywhere(cells[..n], mask[..n]);
    }
  }

  // ---------------------------------------------------------------------------
  // Line 19: `df[df['Shift'] == "Day"]['UnitsProduced'].sum()`.

  /** `==` never raises: a missing or non-string shift is simply not "Day". */
  function DayShiftMask(shifts: seq<Cell>): (m: seq<bool>)
    ensures |m| == |shifts| && forall i :: 0 <= i < |shifts| ==> (m[i] <==> shifts[i] == Some(Str(DayShift)))
  {
    seq(|shifts|, i requires 0 <= i < |shifts| => shifts[i] == Some(Str(DayShift)))
  }

  /** The step raises a KeyError for a missing column and the TypeError of
      `sum` for a non-numeric Day-shift cell; a numeric units column always
      adds up. */
  function DayShiftProduction(t: Table): (r: Result<real>)
    requires RowsFit(t)
    ensures !HasColumn(t, ShiftColumn) ==> r == Err(KeyError(ShiftColumn))
    ensures HasColumn(t, ShiftColumn) && !HasColumn(t, UnitsColumn) ==> r == Err(KeyError(UnitsColumn))
    ensures r.Err? ==> r.error in {KeyError(ShiftColumn), KeyError(UnitsColumn), TypeError(NotNumeric)}
    ensures HasColumn(t, ShiftColumn) && HasColumn(t, UnitsColumn) && AllNumeric(Series(t, UnitsColumn).value) ==> r.Ok?
  {
    var shifts :- Series(t, ShiftColumn);
    var units :- Series(Where(t, DayShiftMask(shifts)), UnitsColumn);
    if AllNumeric(units) then Ok(Sum(units)) else Err(TypeError(NotNumeric))
  }

  /** The Day-shift production is the units of exactly the rows whose shift
      is "Day", added up; with no such row it is 0. */
  lemma DayShiftTotal(t: Table)
    requires RowsFit(t) && HasColumn(t, ShiftColumn) && HasColumn(t, UnitsColumn)
    requires AllNumeric(Series(t, UnitsColumn).value)
    ensures var shifts := Series(t, ShiftColumn).value;
      var units := Series(t, UnitsColumn).value;
      && DayShiftProduction(t) == Ok(SumWhere(units, DayShiftMask(shifts)))
      && ((forall i :: 0 <= i < |t.rows| ==> shifts[i] != Some(Str(DayShift))) ==> DayShiftProduction(t) == Ok(0.0))
  {
    var shifts := Series(t, ShiftColumn).value;
    var units := Series(t, UnitsColumn).value;
    var mask := DayShiftMask(shifts);
    SeriesOfWhere(t, mask, UnitsColumn);
    assert Series(Where(t, mask), UnitsColumn).value == Gather(units, KeptIndices(mask));
    SumOfKept(units, mask);
    if forall i :: 0 <= i < |t.rows| ==> shifts[i] != Some(Str(DayShift)) {
      assert KeptIndices(mask) == [];
    }
  }

  // ---------------------------------------------------------------------------
  // Line 26: `sort_values(['DefectCount'], ascending=False).head(3)`.

  /** In descending order with NaN last, `a` is placed before `b`. */
  predicate Outranks(a: Cell, b: Cell) {
    a.Some? && Countable(a) && (b.None? || (Countable(b) && Amount(a) > Amount(b)))
  }

  predicate Positions(keys: seq<Cell>, order: seq<nat>) {
    forall k :: 0 <= k < |order| ==> order[k] < |keys|
  }

  /** No position in `order` is placed after a position it outranks. */
  predicate Descending(keys: seq<Cell>, order: seq<nat>)
    requires Positions(keys, order)
  {
    forall a, b :: 0 <= a < b < |order| ==> !Outranks(keys[order[b]], keys[order[a]])
  }

  /** No position in `order` outranks the key `c`. */
  predicate NoneOutranks(keys: seq<Cell>, order: seq<nat>, c: Cell)
    requires Positions(keys, order)
  {
    forall k :: 0 <= k < |order| ==> !Outranks(keys[order[k]], c)
  }

  /** Position `i` inserted into a ranking, after every position it does not
      outrank. */
  function Insert(keys: seq<Cell>, i: nat, order: seq<nat>): (r: seq<nat>)
    requires i < |keys| && Positions(keys, order)
    ensures |r| == |order| + 1 && Positions(keys, r) && multiset(r) == multiset(order) + multiset{i}
  {
    if order == [] then [i]
    else if Outranks(keys[i], keys[order[0]]) then
      assert order == [order[0]] + order[1..];
      [i] + order
    else
      assert order == [order[0]] + order[1..];
      [order[0]] + Insert(keys, i, order[1..])
  }

  /** Inserting into a descending ranking keeps it descending, and a key
      that neither the ranking nor `i` outranks is outranked by nothing in
      the result. */
  lemma {:induction false} InsertKeepsOrder(keys: seq<Cell>, i: nat, order: seq<nat>)
    requires i < |keys| && Positions(keys, order)
    ensures forall c :: NoneOutranks(keys, order, c) && !Outranks(keys[i], c) ==> NoneOutranks(keys, Insert(keys, i, order), c)
    ensures Descending(keys, order) ==> Descending(keys, Insert(keys, i, order))
  {
    if order != [] && !Outranks(keys[i], keys[order[0]]) {
      var rest := Insert(keys, i, order[1..]);
      InsertKeepsOrder(keys, i, order[1..]);
      assert Insert(keys, i, order) == [order[0]] + rest;
      assert Descending(keys, order) ==> NoneOutranks(keys, order[1..], keys[order[0]]);
      assert forall c :: NoneOutranks(keys, order, c) ==> NoneOutranks(keys, order[1..], c);
    }
  }

  /** The positions 0 .. n-1. */
  function Range(n: nat): (r: seq<nat>)
    ensures |r| == n && forall k :: 0 <= k < n ==> r[k] == k
  {
    seq(n, k => k)
  }

  /** The first `n` positions ranked by descending key, ties in their
      original order. */
  function Ranking(keys: seq<Cell>, n: nat): (r: seq<nat>)
    requires n <= |keys|
    ensures |r| == n && Positions(keys, r) && Descending(keys, r)
    ensures multiset(r) == multiset(Range(n))
  {
    if n == 0 then []
    else
      assert Range(n) == Range(n - 1) + [n - 1];
      InsertKeepsOrder(keys, n - 1, Ranking(keys, n - 1));
      Insert(keys, n - 1, Ranking(keys, n - 1))
  }

  function Min(a: nat, b: nat): nat {
    if a < b then a else b
  }

  /** The positions of the three highest keys. */
  function TopPositions(keys: seq<Cell>): (top: seq<nat>)
    ensures Positions(keys, top)
  {
    var order := Ranking(keys, |keys|);
    order[..Min(TopCount, |order|)]
  }

  /** The top-3 frame exists exactly when `DefectCount` is present and
      orderable; it keeps the columns and has min(3, n) rows. */
  function TopDefects(t: Table): (r: Result<Table>)
    requires RowsFit(t)
    ensures r.Ok? <==> HasColumn(t, DefectsColumn) && AllNumeric(Series(t, DefectsColumn).value)
    ensures r.Err? ==> r.error in {KeyError(DefectsColumn), TypeError(NotOrderable)}
    ensures r.Ok? ==> r.value.columns == t.columns && |r.value.rows| == Min(TopCount, |t.rows|)
  {
    var keys :- Series(t, DefectsColumn);
    if !AllNumeric(keys) then Err(TypeError(NotOrderable))
    else
      var top := TopPositions(keys);
      Ok(Table(t.columns, seq(|top|, k requires 0 <= k < |top| => t.rows[top[k]])))
  }

  /** The ranking is a permutation of the rows: every row appears in it. */
  lemma RankingCovers(keys: seq<Cell>, i: nat)
    requires i < |keys|
    ensures i in Ranking(keys, |keys|)
  {
    assert Range(|keys|)[i] == i;
    assert i in multiset(Range(|keys|));
  }

  /** No position appears twice in a ranking. */
  lemma RankingDistinct(keys: seq<Cell>, n: nat)
    requires n <= |keys|
    ensures var r := Ranking(keys, n);
      forall a, b :: 0 <= a < b < |r| ==> r[a] != r[b]
  {
    var r := Ranking(keys, n);
    forall a, b | 0 <= a < b < |r| ensures r[a] != r[b] {
      if r[a] == r[b] {
        RepeatCountsTwice(r, a, b);
        RangeCountsOnce(n, r[a]);
        assert false;
      }
    }
  }

  lemma {:induction false} RangeCountsOnce(n: nat, x: nat)
    ensures multiset(Range(n))[x] <= 1
  {
    if n > 0 {
      assert Range(n) == Range(n - 1) + [n - 1];
      RangeCountsOnce(n - 1, x);
      if x == n - 1 {
        assert x !in Range(n - 1);
      }
    }
  }

  lemma RepeatCountsTwice(s: seq<nat>, a: nat, b: nat)
    requires a < b < |s| && s[a] == s[b]
    ensures multiset(s)[s[a]] >= 2
  {
    assert s == s[..b] + [s[b]] + s[b + 1..];
    assert s[a] in s[..b];
  }

  /** The three top positions are different rows, in non-increasing key
      order, NaN last, and no position left out outranks one kept. */
  lemma TopPositionsRanked(keys: seq<Cell>)
    ensures var top := TopPositions(keys);
      && |top| == Min(TopCount, |keys|)
      && (forall a, b :: 0 <= a < b < |top| ==> top[a] != top[b])
      && (forall a, b :: 0 <= a < b < |top| ==> !Outranks(keys[top[b]], keys[top[a]]))
      && (forall i, k :: 0 <= i < |keys| && i !in top && 0 <= k < |top| ==> !Outranks(keys[i], keys[top[k]]))
  {
    var order := Ranking(keys, |keys|);
    var top := TopPositions(keys);
    RankingDistinct(keys, |keys|);
    forall i, k | 0 <= i < |keys| && i !in top && 0 <= k < |top|
      ensures !Outranks(keys[i], keys[top[k]])
    {
      RankingCovers(keys, i);
      var p :| 0 <= p < |order| && order[p] == i;
      assert p >= |top|;
      assert top[k] == order[k];
    }
  }

  /** `top_3_defects` has min(3, n) different rows, taken from the frame, in
      non-increasing DefectCount with NaN last, and no row left out has more
      defects than a row kept. */
  lemma TopDefectsRanked(t: Table)
    requires RowsFit(t) && TopDefects(t).Ok?
    ensures var keys := Series(t, DefectsColumn).value;
      var top := TopPositions(keys);
      var r := TopDefects(t).value;
      && r.columns == t.columns
      && |r.rows| == |top| == Min(TopCount, |t.rows|)
      && (forall a, b :: 0 <= a < b < |top| ==> top[a] != top[b])
      && (forall k :: 0 <= k < |top| ==> r.rows[k] == t.rows[top[k]])
      && Series(r, DefectsColumn).Ok?
      && (forall k :: 0 <= k < |top| ==> Series(r, DefectsColumn).value[k] == keys[top[k]])
      && (forall a, b :: 0 <= a < b < |top| ==> !Outranks(keys[top[b]], keys[top[a]]))
      && (forall i, k :: 0 <= i < |t.rows| && i !in top && 0 <= k < |top| ==> !Outranks(keys[i], keys[top[k]]))
  {
    TopPositionsRanked(Series(t, DefectsColumn).value);
  }

  // ---------------------------------------------------------------------------
  // Line 35: `df['DefectCount'].sum() * COST_PER_DEFECT`.

  /** The loss exists exactly when `DefectCount` is present and numeric, and
      it is never negative when no defect count is. */
  function TotalLoss(t: Table): (r: Result<real>)
    requires RowsFit(t)
    ensures r.Ok? <==> HasColumn(t, DefectsColumn) && AllNumeric(Series(t, DefectsColumn).value)
    ensures r.Err? ==> r.error in {KeyError(DefectsColumn), TypeError(NotNumeric)}
    ensures r.Ok? && (forall i :: 0 <= i < |t.rows| ==> Amount(Series(t, DefectsColumn).value[i]) >= 0.0) ==> r.value >= 0.0
  {
    var defects :- Series(t, DefectsColumn);
    if AllNumeric(defects) then Ok(Sum(defects) * CostPerDefect) else Err(TypeError(NotNumeric))
  }

  /** Each record's defects times the cost per defect. */
  function Costs(cells: seq<Cell>): (r: seq<Cell>)
    requires AllNumeric(cells)
    ensures |r| == |cells| && AllNumeric(r)
    ensures forall i :: 0 <= i < |cells| ==> r[i] == if cells[i].Some? then Some(Num(Amount(cells[i]) * CostPerDefect)) else None
  {
    seq(|cells|, i requires 0 <= i < |cells| =>
      if cells[i].Some? then Some(Num(Amount(cells[i]) * CostPerDefect)) else None)
  }

  lemma {:induction false} SumOfCosts(cells: seq<Cell>)
    requires AllNumeric(cells)
    ensures Sum(Costs(cells)) == Sum(cells) * CostPerDefect
  {
    if cells != [] {
      var n := |cells| - 1;
      assert Costs(cells)[..n] == Costs(cells[..n]);
      SumOfCosts(cells[..n]);
    }
  }

  /** The total loss is the sum of every record's own defect cost. */
  lemma LossIsSumOfCosts(t: Table)
    requires RowsFit(t) && TotalLoss(t).Ok?
    ensures TotalLoss(t) == Ok(Sum(Costs(Series(t, DefectsColumn).value)))
  {
    SumOfCosts(Series(t, DefectsColumn).value);
  }

  // ---------------------------------------------------------------------------
  // Line 42: `df['Date'] = pd.to_datetime(df['Date'])`.

  /** Each date string is parsed, and the Date column becomes a datetime
      column; any unparseable value is an error. */
  function WithParsedDates(t: Table): (r: Result<Table>)
    requires WellFormed(t)
    ensures r.Ok? <==> HasColumn(t, DateColumn) && Cleaning.ParseDates(Series(t, DateColumn).value).Ok?
    ensures r.Ok? ==> WellFormed(r.value) && DatesParsed(r.value) && |r.value.rows| == |t.rows|
    ensures r.Ok? ==> r.value.columns[IndexOf(Names(r.value.columns), DateColumn)].dtype == DateTime
    ensures r.Ok? ==> forall i :: 0 <= i < |t.rows| ==>
      Cleaning.ToDateTime(Series(t, DateColumn).value[i], i) == Ok(Series(r.value, DateColumn).value[i])
    ensures r.Ok? ==> forall c :: c != DateColumn && HasColumn(t, c) ==> Series(r.value, c) == Series(t, c)
  {
    var cells :- Series(t, DateColumn);
    var dates :- Cleaning.ParseDates(cells);
    Ok(WithColumn(t, DateColumn, DateTime, dates))
  }

  /** The Date column holds only timestamps and NaT, as line 42 leaves it. */
  predicate DatesParsed(t: Table)
    requires RowsFit(t)
  {
    HasColumn(t, DateColumn)
    && forall i :: 0 <= i < |t.rows| ==> Series(t, DateColumn).value[i].None? || Series(t, DateColumn).value[i].value.Stamp?
  }

  /** Line 42 in place: Date is replaced by its timestamps, every other
      column stays; on a parse error the frame is left as it was. */
  method ConvertDates(df: DataFrame) returns (r: Result<()>)
    requires df.Valid()
    modifies df
    ensures df.Valid()
    ensures r.Ok? <==> WithParsedDates(old(df.Value())).Ok?
    ensures r.Err? ==> r.error == WithParsedDates(old(df.Value())).error && df.Value() == old(df.Value())
    ensures r.Ok? ==> df.Value() == WithParsedDates(old(df.Value())).value && DatesParsed(df.Value())
  {
    var cells := Series(df.Value(), DateColumn);
    if cells.Err? {
      return Err(cells.error);
    }
    var dates := Cleaning.ParseDates(cells.value);
    if dates.Err? {
      return Err(dates.error);
    }
    df.Assign(DateColumn, DateTime, dates.value);
    return Ok(());
  }

  // ---------------------------------------------------------------------------
  // Line 45: `df.groupby('Date')['UnitsProduced'].sum()`.

  function Dates(g: seq<(Date, real)>): (ds: seq<Date>)
    ensures |ds| == |g| && forall k :: 0 <= k < |g| ==> ds[k] == g[k].0
  {
    seq(|g|, k requires 0 <= k < |g| => g[k].0)
  }

  predicate Chronological(g: seq<(Date, real)>) {
    forall a, b :: 0 <= a < b < |g| ==> Before(g[a].0, g[b].0)
  }

  /** All the totals added up. */
  function Total(g: seq<(Date, real)>): real {
    if g == [] then 0.0 else g[0].1 + Total(g[1..])
  }

  /** The totals filed under `d`, added up. */
  function TotalFor(g: seq<(Date, real)>, d: Date): real {
    if g == [] then 0.0 else (if g[0].0 == d then g[0].1 else 0.0) + TotalFor(g[1..], d)
  }

  /** Adds `x` to the total for `d`, opening a new entry in date order when
      `d` has none. */
  function AddTo(g: seq<(Date, real)>, d: Date, x: real): seq<(Date, real)> {
    if g == [] then [(d, x)]
    else if g[0].0 == d then [(d, g[0].1 + x)] + g[1..]
    else if Before(d, g[0].0) then [(d, x)] + g
    else [g[0]] + AddTo(g[1..], d, x)
  }

  /** The dates of the new entries are the old ones and `d`. */
  lemma {:induction false} AddToDates(g: seq<(Date, real)>, d: Date, x: real)
    ensures forall e :: e in Dates(AddTo(g, d, x)) <==> e == d || e in Dates(g)
  {
    var r := AddTo(g, d, x);
    if g == [] {
      assert Dates(r) == [d];
    } else {
      var head := g[0].0;
      assert g == [g[0]] + g[1..];
      DatesCons(g[0], g[1..]);
      if head == d {
        assert r == [(d, g[0].1 + x)] + g[1..];
        DatesCons((d, g[0].1 + x), g[1..]);
        assert Dates(r) == Dates(g);
      } else if Before(d, head) {
        assert r == [(d, x)] + g;
        DatesCons((d, x), g);
      } else {
        var rest := AddTo(g[1..], d, x);
        assert r == [g[0]] + rest;
        AddToDates(g[1..], d, x);
        DatesCons(g[0], rest);
        forall e ensures e in Dates(r) <==> e == d || e in Dates(g) {
          assert e in Dates(r) <==> e == head || e in Dates(rest);
          assert e in Dates(g) <==> e == head || e in Dates(g[1..]);
        }
      }
    }
  }

  lemma DatesCons(p: (Date, real), g: seq<(Date, real)>)
    ensures Dates([p] + g) == [p.0] + Dates(g)
  {
    assert |Dates([p] + g)| == |[p.0] + Dates(g)|;
  }

  /** Adding keeps the entries in increasing date order. */
  lemma {:induction false} AddToChronological(g: seq<(Date, real)>, d: Date, x: real)
    requires Chronological(g)
    ensures Chronological(AddTo(g, d, x))
  {
    if g != [] && g[0].0 != d && !Before(d, g[0].0) {
      var rest := AddTo(g[1..], d, x);
      AddToChronological(g[1..], d, x);
      AddToDates(g[1..], d, x);
      assert forall k :: 0 <= k < |rest| ==> rest[k].0 in Dates(rest);
      assert forall e :: e in Dates(g[1..]) ==> Before(g[0].0, e);
    }
  }

  /** Adding raises the grand total, and the total for `d` alone, by `x`. */
  lemma {:induction false} AddToTotals(g: seq<(Date, real)>, d: Date, x: real)
    ensures Total(AddTo(g, d, x)) == Total(g) + x
    ensures forall e :: TotalFor(AddTo(g, d, x), e) == TotalFor(g, e) + (if e == d then x else 0.0)
  {
    var r := AddTo(g, d, x);
    if g == [] {
      assert r[1..] == [];
    } else if g[0].0 == d {
      assert r[1..] == g[1..];
    } else if Before(d, g[0].0) {
      assert r[1..] == g;
    } else {
      AddToTotals(g[1..], d, x);
      assert r[1..] == AddTo(g[1..], d, x);
    }
  }

  /** The rows dated `d`. */
  function DateMask(dates: seq<Cell>, d: Date): (m: seq<bool>)
    ensures |m| == |dates| && forall i :: 0 <= i < |dates| ==> (m[i] <==> dates[i] == Some(Stamp(d)))
  {
    seq(|dates|, i requires 0 <= i < |dates| => dates[i] == Some(Stamp(d)))
  }

  /** The rows with a date at all (groupby drops NaT keys). */
  function DatedMask(dates: seq<Cell>): (m: seq<bool>)
    ensures |m| == |dates| && forall i :: 0 <= i < |dates| ==> (m[i] <==> dates[i].Some? && dates[i].value.Stamp?)
  {
    seq(|dates|, i requires 0 <= i < |dates| => dates[i].Some? && dates[i].value.Stamp?)
  }

  /** The per-date totals of the first rows, entry by entry. */
  function Daily(dates: seq<Cell>, units: seq<Cell>): (g: seq<(Date, real)>)
    requires |dates| == |units| && AllNumeric(units)
    ensures Chronological(g)
    ensures forall e :: e in Dates(g) <==> Some(Stamp(e)) in dates
    ensures Total(g) == SumWhere(units, DatedMask(dates))
    ensures forall e :: TotalFor(g, e) == SumWhere(units, DateMask(dates, e))
  {
    if dates == [] then []
    else
      var n := |dates| - 1;
      var prev := Daily(dates[..n], units[..n]);
      StepDates(dates, prev, units[n]);
      StepTotal(dates, units, prev);
      StepTotalFor(dates, units, prev);
      assert Chronological(Step(prev, dates[n], units[n])) by {
        if dates[n].Some? && dates[n].value.Stamp? {
          AddToChronological(prev, dates[n].value.date, Amount(units[n]));
        }
      }
      Step(prev, dates[n], units[n])
  }

  /** One more row: its units go to the entry for its date, if it has one. */
  function Step(g: seq<(Date, real)>, date: Cell, units: Cell): seq<(Date, real)>
    requires Countable(units)
  {
    if date.Some? && date.value.Stamp? then AddTo(g, date.value.date, Amount(units)) else g
  }

  lemma StepDates(dates: seq<Cell>, g: seq<(Date, real)>, u: Cell)
    requires |dates| > 0 && Countable(u)
    requires forall e :: e in Dates(g) <==> Some(Stamp(e)) in dates[..|dates| - 1]
    ensures forall e :: e in Dates(Step(g, dates[|dates| - 1], u)) <==> Some(Stamp(e)) in dates
  {
    var n := |dates| - 1;
    assert dates == dates[..n] + [dates[n]];
    if dates[n].Some? && dates[n].value.Stamp? {
      AddToDates(g, dates[n].value.date, Amount(u));
    }
  }

  lemma StepTotal(dates: seq<Cell>, units: seq<Cell>, g: seq<(Date, real)>)
    requires |dates| == |units| > 0 && AllNumeric(units)
    requires var n := |dates| - 1; Total(g) == SumWhere(units[..n], DatedMask(dates[..n]))
    ensures Total(Step(g, dates[|dates| - 1], units[|dates| - 1])) == SumWhere(units, DatedMask(dates))
  {
    var n := |dates| - 1;
    assert DatedMask(dates)[..n] == DatedMask(dates[..n]);
    if dates[n].Some? && dates[n].value.Stamp? {
      AddToTotals(g, dates[n].value.date, Amount(units[n]));
    }
  }

  lemma StepTotalFor(dates: seq<Cell>, units: seq<Cell>, g: seq<(Date, real)>)
    requires |dates| == |units| > 0 && AllNumeric(units)
    requires var n := |dates| - 1; forall e :: TotalFor(g, e) == SumWhere(units[..n], DateMask(dates[..n], e))
    ensures forall e :: TotalFor(Step(g, dates[|dates| - 1], units[|dates| - 1]), e) == SumWhere(units, DateMask(dates, e))
  {
    var n := |dates| - 1;
    forall e ensures TotalFor(Step(g, dates[n], units[n]), e) == SumWhere(units, DateMask(dates, e)) {
      assert DateMask(dates, e)[..n] == DateMask(dates[..n], e);
      if dates[n].Some? && dates[n].value.Stamp? {
        AddToTotals(g, dates[n].value.date, Amount(units[n]));
      }
    }
  }

  function DailyProduction(t: Table): (r: Result<seq<(Date, real)>>)
    requires RowsFit(t) && DatesParsed(t)
    ensures r.Ok? <==> HasColumn(t, UnitsColumn) && AllNumeric(Series(t, UnitsColumn).value)
    ensures r.Err? ==> r.error in {KeyError(UnitsColumn), TypeError(NotNumeric)}
  {
    var units :- Series(t, UnitsColumn);
    if AllNumeric(units) then Ok(Daily(Series(t, DateColumn).value, units)) else Err(TypeError(NotNumeric))
  }

  /** With distinct dates the total filed under an entry's date is that
      entry's total. */
  lemma {:induction false} EntryIsTotalFor(g: seq<(Date, real)>, k: nat)
    requires Chronological(g) && k < |g|
    ensures TotalFor(g, g[k].0) == g[k].1
  {
    if k == 0 {
      NotFiled(g[1..], g[0].0);
    } else {
      assert g[0].0 != g[k].0;
      EntryIsTotalFor(g[1..], k - 1);
    }
  }

  lemma {:induction false} NotFiled(g: seq<(Date, real)>, d: Date)
    requires d !in Dates(g)
    ensures TotalFor(g, d) == 0.0
  {
    if g != [] {
      assert Dates(g[1..]) == Dates(g)[1..];
      NotFiled(g[1..], d);
    }
  }

  /** `daily_production` has one entry per distinct date, in increasing date
      order; each entry is the units of the rows with that date, added up;
      and the entries add up to the units of all dated rows, which is every
      row when no date is missing. */
  lemma DailyTotals(t: Table)
    requires RowsFit(t) && DatesParsed(t) && DailyProduction(t).Ok?
    ensures var dates := Series(t, DateColumn).value;
      var units := Series(t, UnitsColumn).value;
      var g := DailyProduction(t).value;
      && AllNumeric(units)
      && (forall a, b :: 0 <= a < b < |g| ==> Before(g[a].0, g[b].0))
      && (forall e :: e in Dates(g) <==> Some(Stamp(e)) in dates)
      && (forall k :: 0 <= k < |g| ==> g[k].1 == SumWhere(units, DateMask(dates, g[k].0)))
      && Total(g) == SumWhere(units, DatedMask(dates))
      && (CountMissing(dates) == 0 ==> Total(g) == Sum(units))
  {
    var dates := Series(t, DateColumn).value;
    var units := Series(t, UnitsColumn).value;
    var g := DailyProduction(t).value;
    forall k | 0 <= k < |g| ensures g[k].1 == SumWhere(units, DateMask(dates, g[k].0)) {
      EntryIsTotalFor(g, k);
    }
    if CountMissing(dates) == 0 {
      SumWhereEverywhere(units, DatedMask(dates));
    }
  }

  // ---------------------------------------------------------------------------
  // Line 53: `df['DayName'] = df['Date'].dt.day_name()`.

  function NameOfDay(c: Cell): (r: Cell)
    ensures r.Some? <==> c.Some? && c.value.Stamp? && ValidDate(c.value.date)
  {
    if c.Some? && c.value.Stamp? && ValidDate(c.value.date) then Some(Str(DayName(c.value.date))) else None
  }

  /** `.dt` exists only on a datetime column; the result adds DayName and
      keeps the rows. */
  function WithDayNames(t: Table): (r: Result<Table>)
    requires WellFormed(t)
    ensures r.Ok? <==> HasColumn(t, DateColumn) && t.columns[IndexOf(Names(t.columns), DateColumn)].dtype == DateTime
    ensures r.Err? ==> r.error in {KeyError(DateColumn), AttributeError(NotDatetime)}
    ensures r.Ok? ==> WellFormed(r.value) && |r.value.rows| == |t.rows| && HasColumn(r.value, DayNameColumn)
  {
    var dates :- Series(t, DateColumn);
    if t.columns[IndexOf(Names(t.columns), DateColumn)].dtype != DateTime then Err(AttributeError(NotDatetime))
    else Ok(WithColumn(t, DayNameColumn, Object, seq(|dates|, i requires 0 <= i < |dates| => NameOfDay(dates[i]))))
  }

  /** Line 53 in place: DayName is added, every other column stays. */
  method AddDayNames(df: DataFrame) returns (r: Result<()>)
    requires df.Valid()
    modifies df
    ensures df.Valid()
    ensures r.Ok? <==> WithDayNames(old(df.Value())).Ok?
    ensures r.Err? ==> r.error == WithDayNames(old(df.Value())).error && df.Value() == old(df.Value())
    ensures r.Ok? ==> df.Value() == WithDayNames(old(df.Value())).value
  {
    var dates := Series(df.Value(), DateColumn);
    if dates.Err? {
      return Err(dates.error);
    }
    if df.columns[IndexOf(Names(df.columns), DateColumn)].dtype != DateTime {
      return Err(AttributeError(NotDatetime));
    }
    var names := seq(|dates.value|, i requires 0 <= i < |dates.value| => NameOfDay(dates.value[i]));
    df.Assign(DayNameColumn, Object, names);
    return Ok(());
  }

  /** Each row's DayName is the English name of its date's weekday, NaT
      gives a missing name, and the other columns are unchanged; the names
      follow the calendar (1 February 2012 was a Wednesday, and each next day
      has the next name). */
  lemma DayNamesOfDates(t: Table)
    requires WellFormed(t) && WithDayNames(t).Ok?
    ensures var dates := Series(t, DateColumn).value;
      var u := WithDayNames(t).value;
      && Series(u, DayNameColumn).Ok?
      && (forall c :: c != DayNameColumn && HasColumn(t, c) ==> Series(u, c) == Series(t, c))
      && forall i :: 0 <= i < |t.rows| ==>
        Series(u, DayNameColumn).value[i]
          == if dates[i].Some? then Some(Str(DayNames[Weekday(dates[i].value.date)])) else None
  {
    var dates := Series(t, DateColumn).value;
    SeriesConforms(t, DateColumn);
  }

  lemma DayNamesFollowCalendar(d: Date)
    requires ValidDate(d)
    ensures DayName(Date(2012, 2, 1)) == "Wednesday"
    ensures DayName(NextDay(d)) == DayNames[(Weekday(d) + 1) % 7]
  {
    NextDayNumber(d);
  }

  // ---------------------------------------------------------------------------
  // The script as written.

  /** What the script prints: the Day-shift total, the top three records,
      the total loss and the daily totals. */
  datatype Trends = Trends(dayShift: real, topDefects: Table, totalLoss: real, daily: seq<(Date, real)>)

  /** Lines 19-53 as values: the first failing step's error, or the results. */
  function TrendsOf(t: Table): Result<Trends>
    requires WellFormed(t)
  {
    var dayShift :- DayShiftProduction(t);
    var top :- TopDefects(t);
    var loss :- TotalLoss(t);
    var parsed :- WithParsedDates(t);
    var daily :- DailyProduction(parsed);
    Ok(Trends(dayShift, top, loss, daily))
  }

  /** The frame the script is left holding: Date converted and DayName added
      when every step succeeds, Date converted alone when the grouping fails
      after it, and the frame as read otherwise. */
  function FinalFrame(t: Table): (u: Table)
    requires WellFormed(t)
    ensures WellFormed(u)
  {
    if DayShiftProduction(t).Err? || TopDefects(t).Err? || TotalLoss(t).Err? then t
    else
      match WithParsedDates(t)
      case Err(_) => t
      case Ok(parsed) =>
        if DailyProduction(parsed).Err? then parsed
        else
          var named := WithDayNames(parsed);
          assert named.Ok?;
          named.value
  }

  /** The script: three read-only analyses, Date converted in place, the
      daily totals, then DayName added in place. */
  method TimeSeriesTrends(df: DataFrame) returns (r: Result<Trends>)
    requires df.Valid()
    modifies df
    ensures df.Valid()
    ensures r == TrendsOf(old(df.Value()))
    ensures df.Value() == FinalFrame(old(df.Value()))
  {
    var dayShift :- DayShiftProduction(df.Value());
    var top :- TopDefects(df.Value());
    // `DefectCount` was sorted on line 26, so its sum cannot fail.
    var loss := TotalLoss(df.Value()).value;
    var converted :- ConvertDates(df);
    var daily :- DailyProduction(df.Value());
    var named := AddDayNames(df);
    return Ok(Trends(dayShift, top, loss, daily));
  }
}
