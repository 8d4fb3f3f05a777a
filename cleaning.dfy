/** The cleaning stage of the sales pipeline: one frame is changed step by
    step. Missing markdowns become 0, rows with negative sales are dropped,
    the Date strings are parsed and Year, Month and ISO Week are derived. */
module Cleaning {
  import opened Outcomes
  import opened Calendar
  import opened Tables
  import opened Frames

  const Markdowns: seq<string> := ["MarkDown1", "MarkDown2", "MarkDown3", "MarkDown4", "MarkDown5"]
  const Sales := "Weekly_Sales"
  const DateName := "Date"
  const YearName := "Year"
  const MonthName := "Month"
  const WeekName := "Week"

  const NotComparableStr := "'>=' not supported between instances of 'str' and 'int'"
  const NotComparableStamp := "Invalid comparison between dtype=datetime64[ns] and int"

  // ---------------------------------------------------------------------------
  // `df['Weekly_Sales'] >= 0`

  /** A sales cell that passes the filter: a number at least 0, or a flag
      (True and False compare as 1 and 0). */
  predicate NonNegative(c: Cell) {
    c.Some? && ((c.value.Num? && c.value.x >= 0.0) || c.value.Bool?)
  }

  /** One cell of `series >= 0`: NaN compares false, and a string or a
      timestamp cannot be compared with a number. */
  function AtLeastZero(c: Cell): (r: Result<bool>)
    ensures r.Ok? <==> c.None? || c.value.Num? || c.value.Bool?
    ensures r.Ok? ==> (r.value <==> NonNegative(c))
  {
    match c
    case None => Ok(false)
    case Some(Num(x)) => Ok(x >= 0.0)
    case Some(Bool(_)) => Ok(true)
    case Some(Str(_)) => Err(TypeError(NotComparableStr))
    case Some(Stamp(_)) => Err(TypeError(NotComparableStamp))
  }

  /** `series >= 0` for a whole column: the comparison fails at its first
      incomparable cell. */
  function NonNegativeMask(cells: seq<Cell>): (r: Result<seq<bool>>)
    ensures r.Ok? <==> forall i :: 0 <= i < |cells| ==> AtLeastZero(cells[i]).Ok?
    ensures r.Ok? ==> |r.value| == |cells|
    ensures r.Ok? ==> forall i :: 0 <= i < |cells| ==> (r.value[i] <==> NonNegative(cells[i]))
  {
    MapAll(cells, (c, i) => AtLeastZero(c))
  }

  // ---------------------------------------------------------------------------
  // `pd.to_datetime(df['Date'], format='%Y-%m-%d')`

  /** The cell in row `i`: NaN stays NaT, a timestamp is kept, a string must
      be a `%Y-%m-%d` date (month and day of one or two digits) and anything else is refused at its position. */
  function ToDateTime(c: Cell, i: nat): (r: Result<Cell>)
    ensures r.Ok? ==> Conforms(r.value, DateTime)
    ensures r.Err? ==> r.error == ParseError(i)
  {
    match c
    case None => Ok(None)
    case Some(Stamp(d)) => if ValidDate(d) then Ok(c) else Err(ParseError(i))
    case Some(Str(s)) =>
      (match ParseIsoDate(s)
       case Some(d) => Ok(Some(Stamp(d)))
       case None => Err(ParseError(i)))
    case Some(_) => Err(ParseError(i))
  }

  /** A string is accepted exactly when it spells a real calendar date within
      the timestamp range as `YYYY-MM-DD`, with one-digit month and day
      allowed, and it becomes that date. */
  lemma ToDateTimeOfString(s: string, i: nat)
    ensures ToDateTime(Some(Str(s)), i).Ok? <==> exists d, wm: nat, wd: nat :: Spells(s, d, wm, wd)
    ensures forall d, wm: nat, wd: nat :: Spells(s, d, wm, wd) ==> ToDateTime(Some(Str(s)), i) == Ok(Some(Stamp(d)))
  {
    var r := ParseIsoDate(s);
    if r.Some? {
      FormatParsed(s);
    }
    forall d, wm: nat, wd: nat | Spells(s, d, wm, wd) ensures r == Some(d) {
      ParseSpelled(d, wm, wd);
    }
  }

  /** The whole column: the first malformed row, counted from 0, is the
      position of the ParseError. */
  function ParseDates(cells: seq<Cell>): (r: Result<seq<Cell>>)
    ensures r.Ok? <==> forall i :: 0 <= i < |cells| ==> ToDateTime(cells[i], i).Ok?
    ensures r.Ok? ==> |r.value| == |cells|
    ensures r.Ok? ==> forall i :: 0 <= i < |cells| ==> Conforms(r.value[i], DateTime)
    ensures r.Ok? ==> forall i :: 0 <= i < |cells| ==> ToDateTime(cells[i], i) == Ok(r.value[i])
    ensures r.Err? ==> exists i :: 0 <= i < |cells| && r.error == ParseError(i) && forall k :: 0 <= k < i ==> ToDateTime(cells[k], k).Ok?
  {
    MapAll(cells, ToDateTime)
  }

  // ---------------------------------------------------------------------------
  // `.dt.year`, `.dt.month`, `.dt.isocalendar().week`: NaT gives a missing value.

  function YearOf(c: Cell): Cell {
    if c.Some? && c.value.Stamp? then Some(Num(c.value.date.year as real)) else None
  }

  function MonthOf(c: Cell): Cell {
    if c.Some? && c.value.Stamp? then Some(Num(c.value.date.month as real)) else None
  }

  function WeekOf(c: Cell): Cell {
    if c.Some? && c.value.Stamp? && ValidDate(c.value.date) then Some(Num(IsoWeek(c.value.date) as real)) else None
  }

  /** A date part per row, as a numeric column. */
  function Years(dates: seq<Cell>): (ys: seq<Cell>)
    ensures |ys| == |dates| && forall i :: 0 <= i < |dates| ==> ys[i] == YearOf(dates[i])
  {
    seq(|dates|, i requires 0 <= i < |dates| => YearOf(dates[i]))
  }

  function Months(dates: seq<Cell>): (ms: seq<Cell>)
    ensures |ms| == |dates| && forall i :: 0 <= i < |dates| ==> ms[i] == MonthOf(dates[i])
  {
    seq(|dates|, i requires 0 <= i < |dates| => MonthOf(dates[i]))
  }

  function Weeks(dates: seq<Cell>): (ws: seq<Cell>)
    ensures |ws| == |dates| && forall i :: 0 <= i < |dates| ==> ws[i] == WeekOf(dates[i])
  {
    seq(|dates|, i requires 0 <= i < |dates| => WeekOf(dates[i]))
  }

  // ---------------------------------------------------------------------------
  // The whole stage.

  datatype Cleaning = Cleaning(table: Table, dropped: nat)

  /** The frame's three stages: fill, filter, parse and derive. */
  function Filled(t: Table): (r: Table)
    requires WellFormed(t)
    ensures WellFormed(r) && r == FillNa(t, Markdowns, Num(0.0))
  {
    FillNaWellFormed(t, Markdowns, Num(0.0));
    FillNa(t, Markdowns, Num(0.0))
  }

  function WithDates(kept: Table, dates: seq<Cell>): (r: Table)
    requires WellFormed(kept) && |dates| == |kept.rows|
    requires forall i :: 0 <= i < |dates| ==> Conforms(dates[i], DateTime)
    ensures WellFormed(r) && |r.rows| == |kept.rows|
  {
    var withDate := WithColumn(kept, DateName, DateTime, dates);
    var withYear := WithColumn(withDate, YearName, Numeric, Years(dates));
    var withMonth := WithColumn(withYear, MonthName, Numeric, Months(dates));
    WithColumn(withMonth, WeekName, Numeric, Weeks(dates))
  }

  /** `df['Weekly_Sales'] >= 0`. */
  function SalesFilter(t: Table): (r: Result<seq<bool>>)
    requires RowsFit(t)
    ensures r.Ok? ==> |r.value| == |t.rows|
  {
    var sales :- Series(t, Sales);
    NonNegativeMask(sales)
  }

  /** The sales filter on the filled frame. */
  function SalesMask(t: Table): (r: Result<seq<bool>>)
    requires WellFormed(t)
    ensures r.Ok? ==> |r.value| == |t.rows|
  {
    SalesFilter(Filled(t))
  }

  /** `df = df[df['Weekly_Sales'] >= 0]` on the filled frame. */
  function Kept(t: Table): (r: Table)
    requires WellFormed(t) && SalesMask(t).Ok?
    ensures WellFormed(r) && r == Where(Filled(t), SalesMask(t).value)
  {
    WhereWellFormed(Filled(t), SalesMask(t).value);
    Where(Filled(t), SalesMask(t).value)
  }

  /** `pd.to_datetime(df['Date'], format='%Y-%m-%d')`. */
  function DateColumn(k: Table): (r: Result<seq<Cell>>)
    requires RowsFit(k)
    ensures r.Ok? ==> |r.value| == |k.rows|
    ensures r.Ok? ==> forall i :: 0 <= i < |r.value| ==> Conforms(r.value[i], DateTime)
  {
    var raw :- Series(k, DateName);
    ParseDates(raw)
  }

  /** The parsed dates of the kept rows. */
  function ParsedDates(t: Table): (r: Result<seq<Cell>>)
    requires WellFormed(t) && SalesMask(t).Ok?
    ensures r.Ok? ==> |r.value| == |Kept(t).rows|
    ensures r.Ok? ==> forall i :: 0 <= i < |r.value| ==> Conforms(r.value[i], DateTime)
  {
    DateColumn(Kept(t))
  }

  /** What the cleaning script leaves in `df`, and `dropped_rows`. A missing
      markdown column is a KeyError before anything changes. */
  function Cleaned(t: Table): (r: Result<Cleaning>)
    requires WellFormed(t)
    ensures r.Ok? <==> FirstAbsent(t, Markdowns).None? && SalesMask(t).Ok? && ParsedDates(t).Ok?
    ensures r.Err? ==>
      r.error == (if FirstAbsent(t, Markdowns).Some? then KeyError(FirstAbsent(t, Markdowns).value)
                  else if SalesMask(t).Err? then SalesMask(t).error
                  else ParsedDates(t).error)
    ensures r.Ok? ==> r.value.table == WithDates(Kept(t), ParsedDates(t).value)
    ensures r.Ok? ==> WellFormed(r.value.table)
    ensures r.Ok? ==> |r.value.table.rows| + r.value.dropped == |t.rows|
  {
    if FirstAbsent(t, Markdowns).Some? then Err(KeyError(FirstAbsent(t, Markdowns).value))
    else
      var mask :- SalesMask(t);
      var dates :- ParsedDates(t);
      Ok(Cleaning(WithDates(Kept(t), dates), |t.rows| - |Kept(t).rows|))
  }

  /** `df = df[df['Weekly_Sales'] >= 0]`; the result is the number of rows
      dropped. A failed comparison leaves `df` as it was. */
  method DropNegativeSales(df: DataFrame) returns (r: Result<nat>)
    requires df.Valid()
    modifies df
    ensures df.Valid()
    ensures r.Ok? <==> SalesFilter(old(df.Value())).Ok?
    ensures r.Err? ==> r.error == SalesFilter(old(df.Value())).error && df.Value() == old(df.Value())
    ensures r.Ok? ==> df.Value() == Where(old(df.Value()), SalesFilter(old(df.Value())).value)
    ensures r.Ok? ==> r.value == old(|df.rows|) - |df.rows|
  {
    var initialRowCount := |df.rows|;
    var sales :- Series(df.Value(), Sales);
    var mask :- NonNegativeMask(sales);
    df.KeepRows(mask);
    return Ok(initialRowCount - |df.rows|);
  }

  /** `df['Date'] = pd.to_datetime(...)`, then Year, Month and Week. A
      malformed date leaves `df` as it was. */
  method ConvertDates(df: DataFrame) returns (r: Result<()>)
    requires df.Valid()
    modifies df
    ensures df.Valid()
    ensures r.Ok? <==> DateColumn(old(df.Value())).Ok?
    ensures r.Err? ==> r.error == DateColumn(old(df.Value())).error && df.Value() == old(df.Value())
    ensures r.Ok? ==> df.Value() == WithDates(old(df.Value()), DateColumn(old(df.Value())).value)
  {
    var raw :- Series(df.Value(), DateName);
    var dates :- ParseDates(raw);
    df.Assign(DateName, DateTime, dates);
    df.Assign(YearName, Numeric, Years(dates));
    df.Assign(MonthName, Numeric, Months(dates));
    df.Assign(WeekName, Numeric, Weeks(dates));
    return Ok(());
  }

  /** Runs the script's steps on `df`; on success `df` holds the cleaned
      frame and the result is `dropped_rows`. A failure leaves `df` as the
      steps before it made it: untouched, filled, or filled and filtered. */
  method Clean(df: DataFrame) returns (r: Result<nat>)
    requires df.Valid()
    modifies df
    ensures df.Valid()
    ensures Cleaned(old(df.Value())).Ok? <==> r.Ok?
    ensures r.Ok? ==> df.Value() == Cleaned(old(df.Value())).value.table
    ensures r.Ok? ==> r.value == Cleaned(old(df.Value())).value.dropped
    ensures r.Err? ==> r.error == Cleaned(old(df.Value())).error
    ensures r.Err? ==>
      (df.Value() == if FirstAbsent(old(df.Value()), Markdowns).Some? then old(df.Value())
                     else if SalesMask(old(df.Value())).Err? then Filled(old(df.Value()))
                     else Kept(old(df.Value())))
  {
    ghost var t := df.Value();
    var absent := FirstAbsent(df.Value(), Markdowns);
    if absent.Some? {
      assert Cleaned(t) == Err(KeyError(absent.value));
      return Err(KeyError(absent.value));
    }
    df.FillNa(Markdowns, Num(0.0));
    assert df.Value() == Filled(t);
    var droppedRows :- DropNegativeSales(df);
    assert SalesMask(t).Ok? && df.Value() == Kept(t);
    assert droppedRows == |t.rows| - |Kept(t).rows|;
    var converted :- ConvertDates(df);
    assert ParsedDates(t) == DateColumn(Kept(t));
    return Ok(droppedRows);
  }

  // ---------------------------------------------------------------------------
  // What the cleaned frame satisfies.

  /** The columns the stage writes after the filter. */
  predicate Derived(c: string) {
    c == DateName || c == YearName || c == MonthName || c == WeekName
  }

  /** The rows of the input that survive the filter, in order. */
  function Survivors(t: Table): (ks: seq<nat>)
    requires WellFormed(t) && SalesMask(t).Ok?
    ensures forall k :: 0 <= k < |ks| ==> ks[k] < |t.rows|
  {
    KeptIndices(SalesMask(t).value)
  }

  /** No markdown column is written after the fill; proving this once, away
      from the cleaning context, keeps `CleanedMarkdownsComplete` cheap. */
  lemma MarkdownsNotWritten(c: string)
    requires c in Markdowns
    ensures !Derived(c) && c != Sales
  {
  }

  /** Reading a column through the four assignments: the written columns hold
      the parsed dates and their parts, every other column is untouched. */
  lemma SeriesOfWithDates(kept: Table, dates: seq<Cell>, c: string)
    requires WellFormed(kept) && |dates| == |kept.rows|
    requires forall i :: 0 <= i < |dates| ==> Conforms(dates[i], DateTime)
    ensures var r := WithDates(kept, dates);
      && (!Derived(c) ==> Series(r, c) == Series(kept, c))
      && Series(r, DateName) == Ok(dates) && Series(r, YearName) == Ok(Years(dates))
      && Series(r, MonthName) == Ok(Months(dates)) && Series(r, WeekName) == Ok(Weeks(dates))
  {
    var d := WithColumn(kept, DateName, DateTime, dates);
    var y := WithColumn(d, YearName, Numeric, Years(dates));
    var m := WithColumn(y, MonthName, Numeric, Months(dates));
    var w := WithColumn(m, WeekName, Numeric, Weeks(dates));
    assert WithDates(kept, dates) == w;
    if !Derived(c) {
      if HasColumn(kept, c) {
        assert Series(w, c) == Series(m, c) == Series(y, c) == Series(d, c) == Series(kept, c);
      } else {
        assert !HasColumn(d, c) && !HasColumn(y, c) && !HasColumn(m, c) && !HasColumn(w, c);
      }
    }
    assert Series(w, DateName) == Series(m, DateName) == Series(y, DateName) == Series(d, DateName);
    assert Series(w, YearName) == Series(m, YearName) == Series(y, YearName);
    assert Series(w, MonthName) == Series(m, MonthName);
  }

  /** The filled frame: markdown columns have no missing cell; every other
      column is as in the input. */
  lemma FilledSeries(t: Table, c: string)
    requires WellFormed(t) && HasColumn(t, c)
    ensures c in Markdowns ==> forall i :: 0 <= i < |t.rows| ==> Series(Filled(t), c).value[i].Some?
    ensures c !in Markdowns ==> Series(Filled(t), c) == Series(t, c)
  {
    if c in Markdowns {
      FillNaFills(t, Markdowns, Num(0.0), c);
    } else {
      FillNaKeepsOthers(t, Markdowns, Num(0.0), c);
    }
  }

  /** The kept frame: row `k` comes from input row `Survivors(t)[k]`. */
  lemma KeptSeries(t: Table, c: string)
    requires WellFormed(t) && SalesMask(t).Ok? && HasColumn(t, c)
    ensures HasColumn(Kept(t), c) && |Survivors(t)| == |Kept(t).rows|
    ensures c in Markdowns ==> forall k :: 0 <= k < |Kept(t).rows| ==> Series(Kept(t), c).value[k].Some?
    ensures c !in Markdowns ==> forall k :: 0 <= k < |Kept(t).rows| ==>
      Series(Kept(t), c).value[k] == Series(t, c).value[Survivors(t)[k]]
  {
    FilledSeries(t, c);
    SeriesOfWhere(Filled(t), SalesMask(t).value, c);
  }

  /** The survivors are exactly the rows whose sales are not negative. */
  lemma SurvivorsAreNonNegative(t: Table)
    requires WellFormed(t) && SalesMask(t).Ok?
    ensures HasColumn(t, Sales)
    ensures forall i :: 0 <= i < |t.rows| ==> (i in Survivors(t) <==> NonNegative(Series(t, Sales).value[i]))
  {
    FilledSeries(t, Sales);
    KeptIndicesIff(SalesMask(t).value);
  }

  /** The cleaned frame: a column the stage does not write reads as in the
      kept frame. */
  lemma CleanedSeries(t: Table, c: string)
    requires WellFormed(t) && Cleaned(t).Ok? && !Derived(c)
    ensures Series(Cleaned(t).value.table, c) == Series(Kept(t), c)
  {
    SeriesOfWithDates(Kept(t), ParsedDates(t).value, c);
  }

  /** A missing markdown column is a KeyError naming a missing markdown. */
  lemma CleanedNeedsMarkdowns(t: Table, c: string)
    requires WellFormed(t) && c in Markdowns && !HasColumn(t, c)
    ensures Cleaned(t).Err? && Cleaned(t).error.KeyError?
    ensures Cleaned(t).error.column in Markdowns && !HasColumn(t, Cleaned(t).error.column)
  {
  }

  /** Every markdown column is still there with no missing cell, so the
      verification counts printed after the fill are all zero. */
  lemma CleanedMarkdownsComplete(t: Table)
    requires WellFormed(t) && Cleaned(t).Ok?
    ensures var r := Cleaned(t).value.table;
      forall c :: c in Markdowns ==> HasColumn(r, c) && CountMissing(Series(r, c).value) == 0
  {
    forall c | c in Markdowns
      ensures HasColumn(Cleaned(t).value.table, c) && CountMissing(Series(Cleaned(t).value.table, c).value) == 0
    {
      MarkdownsNotWritten(c);
      KeptSeries(t, c);
      CleanedSeries(t, c);
    }
  }

  /** Every kept row has `Weekly_Sales >= 0`. */
  lemma KeptSalesNonNegative(t: Table)
    requires WellFormed(t) && SalesMask(t).Ok?
    ensures HasColumn(Kept(t), Sales)
    ensures var sales := Series(Kept(t), Sales).value;
      forall k :: 0 <= k < |sales| ==> NonNegative(sales[k])
  {
    SurvivorsAreNonNegative(t);
    KeptSeries(t, Sales);
    var ks := Survivors(t);
    forall k | 0 <= k < |ks| ensures NonNegative(Series(Kept(t), Sales).value[k]) {
      assert ks[k] in ks;
    }
  }

  /** Every remaining row has `Weekly_Sales >= 0`. */
  lemma CleanedSalesNonNegative(t: Table)
    requires WellFormed(t) && Cleaned(t).Ok?
    ensures HasColumn(Cleaned(t).value.table, Sales)
    ensures var sales := Series(Cleaned(t).value.table, Sales).value;
      forall k :: 0 <= k < |sales| ==> NonNegative(sales[k])
  {
    KeptSalesNonNegative(t);
    CleanedSeries(t, Sales);
  }

  /** The survivors are exactly the input rows whose sales are not negative,
      in their original order, and `dropped_rows` counts all the others. */
  lemma CleanedKeepsNonNegativeRows(t: Table)
    requires WellFormed(t) && Cleaned(t).Ok?
    ensures HasColumn(t, Sales) && SalesMask(t).Ok?
    ensures StrictlyIncreasing(Survivors(t))
    ensures forall i :: 0 <= i < |t.rows| ==> (i in Survivors(t) <==> NonNegative(Series(t, Sales).value[i]))
    ensures |Survivors(t)| == |Cleaned(t).value.table.rows|
    ensures Cleaned(t).value.dropped == |t.rows| - |Survivors(t)|
  {
    SurvivorsAreNonNegative(t);
  }

  /** A column the stage neither fills nor writes keeps, in each remaining
      row, the value of the input row it came from. */
  lemma CleanedKeepsOtherColumns(t: Table, c: string)
    requires WellFormed(t) && Cleaned(t).Ok?
    requires c !in Markdowns && !Derived(c) && HasColumn(t, c)
    ensures var r := Cleaned(t).value.table;
      HasColumn(r, c) && |Survivors(t)| == |r.rows|
    ensures var r := Cleaned(t).value.table; var ks := Survivors(t);
      var source := Series(t, c).value; var cleaned := Series(r, c).value;
      forall k :: 0 <= k < |ks| ==> cleaned[k] == source[ks[k]]
  {
    KeptSeries(t, c);
    CleanedSeries(t, c);
  }

  /** Each Date cell is `to_datetime` of the Date cell of the input row it
      came from (a string becomes the date it spells, NaN stays NaT). */
  lemma CleanedDates(t: Table, k: nat)
    requires WellFormed(t) && Cleaned(t).Ok? && k < |Cleaned(t).value.table.rows|
    ensures HasColumn(t, DateName) && HasColumn(Cleaned(t).value.table, DateName)
    ensures k < |Survivors(t)|
    ensures ToDateTime(Series(t, DateName).value[Survivors(t)[k]], k)
         == Ok(Series(Cleaned(t).value.table, DateName).value[k])
  {
    KeptDates(t, k);
    SeriesOfWithDates(Kept(t), ParsedDates(t).value, DateName);
  }

  /** The parsed date of kept row `k` is `to_datetime` of its input cell. */
  lemma KeptDates(t: Table, k: nat)
    requires WellFormed(t) && SalesMask(t).Ok? && ParsedDates(t).Ok? && k < |Kept(t).rows|
    ensures HasColumn(t, DateName) && k < |Survivors(t)|
    ensures ToDateTime(Series(t, DateName).value[Survivors(t)[k]], k) == Ok(ParsedDates(t).value[k])
  {
    var kept := Kept(t);
    assert HasColumn(kept, DateName);
    var raw := Series(kept, DateName).value;
    assert ParsedDates(t) == ParseDates(raw);
    KeptSeries(t, DateName);
  }

  /** Year and Month are the calendar year and month of the row's date, and
      Week is its ISO 8601 week number, in 1..53, counted in the ISO year that
      holds the week's Thursday (which may be the year before or after). A
      row without a date has none of the three. */
  lemma CleanedDateParts(t: Table, k: nat)
    requires WellFormed(t) && Cleaned(t).Ok? && k < |Cleaned(t).value.table.rows|
    ensures var r := Cleaned(t).value.table;
      HasColumn(r, DateName) && HasColumn(r, YearName) && HasColumn(r, MonthName) && HasColumn(r, WeekName)
    ensures var r := Cleaned(t).value.table;
      var c := Series(r, DateName).value[k];
      var y := Series(r, YearName).value[k];
      var m := Series(r, MonthName).value[k];
      var w := Series(r, WeekName).value[k];
      && (c.None? ==> y.None? && m.None? && w.None?)
      && (c.Some? ==>
            && c.value.Stamp? && ValidDate(c.value.date)
            && y == Some(Num(c.value.date.year as real))
            && m == Some(Num(c.value.date.month as real))
            && w == Some(Num(IsoWeek(c.value.date) as real))
            && 1 <= IsoWeek(c.value.date) <= 53
            && IsIsoWeekOf(c.value.date, IsoYear(c.value.date), IsoWeek(c.value.date)))
  {
    var dates := ParsedDates(t).value;
    SeriesOfWithDates(Kept(t), dates, DateName);
    CellParts(dates[k]);
  }

  /** The three parts derived from one parsed cell. */
  lemma CellParts(c: Cell)
    requires Conforms(c, DateTime)
    ensures c.None? ==> YearOf(c).None? && MonthOf(c).None? && WeekOf(c).None?
    ensures c.Some? ==>
      && c.value.Stamp? && ValidDate(c.value.date)
      && YearOf(c) == Some(Num(c.value.date.year as real))
      && MonthOf(c) == Some(Num(c.value.date.month as real))
      && WeekOf(c) == Some(Num(IsoWeek(c.value.date) as real))
      && 1 <= IsoWeek(c.value.date) <= 53
      && IsIsoWeekOf(c.value.date, IsoYear(c.value.date), IsoWeek(c.value.date))
  {
    if c.Some? {
      IsoWeekIsThursdayWeek(c.value.date);
    }
  }

  /** A surviving row whose Date is a string that is not a `%Y-%m-%d` date
      makes the whole stage fail with a ParseError. */
  lemma CleanedRejectsMalformedDate(t: Table, i: nat, s: string)
    requires WellFormed(t) && FirstAbsent(t, Markdowns).None? && SalesMask(t).Ok?
    requires HasColumn(t, DateName) && i < |Survivors(t)|
    requires Series(t, DateName).value[Survivors(t)[i]] == Some(Str(s)) && ParseIsoDate(s).None?
    ensures Cleaned(t).Err? && Cleaned(t).error.ParseError?
  {
    ParsedDatesRejects(t, i, s);
  }

  lemma ParsedDatesRejects(t: Table, i: nat, s: string)
    requires WellFormed(t) && SalesMask(t).Ok?
    requires HasColumn(t, DateName) && i < |Survivors(t)|
    requires Series(t, DateName).value[Survivors(t)[i]] == Some(Str(s)) && ParseIsoDate(s).None?
    ensures ParsedDates(t).Err? && ParsedDates(t).error.ParseError?
  {
    KeptSeries(t, DateName);
    var raw := Series(Kept(t), DateName).value;
    assert raw[i] == Some(Str(s));
    assert ToDateTime(raw[i], i).Err?;
  }
}
