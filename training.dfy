/** The data preparation of the training script: the holiday flag becomes an
    integer in place, the rows are split at a date into a training part and a
    test part, and each part is cut into numeric features and the sales target. */
module Training {
  import opened Outcomes
  import opened Calendar
  import opened Tables
  import opened Frames

  const Holiday := "IsHoliday"
  const DateName := "Date"
  const Sales := "Weekly_Sales"
  /** Target, date and store type are never features. */
  const DropColumns: seq<string> := ["Weekly_Sales", "Date", "Type"]
  /** `split_date = '2012-02-01'`, as a date and as the string it is written as. */
  const SplitDate := Date(2012, 2, 1)
  const SplitText := "2012-02-01"

  // ---------------------------------------------------------------------------
  // `df['IsHoliday'] = df['IsHoliday'].astype(int)`

  /** Conversion of a float to int: the fraction is cut off towards zero. */
  function Truncate(x: real): (n: int)
    ensures x >= 0.0 ==> 0 <= n && n as real <= x < n as real + 1.0
    ensures x < 0.0 ==> n <= 0 && n as real - 1.0 < x <= n as real
  {
    if x >= 0.0 then x.Floor else -((-x).Floor)
  }

  /** `astype(int)` for the cell in row `i`: True is 1, False is 0, a number
      loses its fraction, and NaN or a non-number cannot be converted. */
  function ToInt(c: Cell, i: nat): (r: Result<Cell>)
    ensures r.Ok? <==> c.Some? && (c.value.Bool? || c.value.Num?)
    ensures r.Ok? ==> r.value.Some? && r.value.value.Num?
    ensures r.Err? ==> r.error == CastError(i)
  {
    match c
    case Some(Bool(b)) => Ok(Some(Num(if b then 1.0 else 0.0)))
    case Some(Num(x)) => Ok(Some(Num(Truncate(x) as real)))
    case _ => Err(CastError(i))
  }

  function AsInt(cells: seq<Cell>): (r: Result<seq<Cell>>)
    ensures r.Ok? <==> forall i :: 0 <= i < |cells| ==> ToInt(cells[i], i).Ok?
    ensures r.Ok? ==> |r.value| == |cells|
    ensures r.Ok? ==> forall i :: 0 <= i < |cells| ==> Conforms(r.value[i], Numeric)
    ensures r.Ok? ==> forall i :: 0 <= i < |cells| ==> ToInt(cells[i], i) == Ok(r.value[i])
  {
    MapAll(cells, ToInt)
  }

  /** The frame after the conversion: unchanged when there is no holiday
      column, otherwise with that column replaced by its integers. */
  function HolidayAsInt(t: Table): (r: Result<Table>)
    requires WellFormed(t)
    ensures r.Ok? ==> WellFormed(r.value) && |r.value.rows| == |t.rows|
    ensures !HasColumn(t, Holiday) ==> r == Ok(t)
  {
    if !HasColumn(t, Holiday) then Ok(t)
    else
      var bits :- AsInt(Series(t, Holiday).value);
      Ok(WithColumn(t, Holiday, Numeric, bits))
  }

  /** `if 'IsHoliday' in df.columns: df['IsHoliday'] = ...astype(int)`. A
      failed conversion leaves `df` as it was. */
  method HolidayToInt(df: DataFrame) returns (r: Result<()>)
    requires df.Valid()
    modifies df
    ensures df.Valid()
    ensures r.Ok? <==> HolidayAsInt(old(df.Value())).Ok?
    ensures r.Ok? ==> df.Value() == HolidayAsInt(old(df.Value())).value
    ensures r.Err? ==> r.error == HolidayAsInt(old(df.Value())).error && df.Value() == old(df.Value())
  {
    if Holiday in Names(df.columns) {
      var bits :- AsInt(Series(df.Value(), Holiday).value);
      df.Assign(Holiday, Numeric, bits);
    }
    return Ok(());
  }

  /** A bool holiday column becomes 1 for True and 0 for False, now a numeric
      column; every other column keeps its cells. */
  lemma HolidayFlagsBecomeBits(t: Table)
    requires WellFormed(t) && HasColumn(t, Holiday)
    requires t.columns[IndexOf(Names(t.columns), Holiday)].dtype == Boolean
    ensures HolidayAsInt(t).Ok?
    ensures var h := HolidayAsInt(t).value;
      && HasColumn(h, Holiday) && h.columns[IndexOf(Names(h.columns), Holiday)].dtype == Numeric
      && (forall i :: 0 <= i < |t.rows| ==>
            Series(t, Holiday).value[i].Some? && Series(t, Holiday).value[i].value.Bool?
            && Series(h, Holiday).value[i] == Some(Num(if Series(t, Holiday).value[i].value.b then 1.0 else 0.0)))
      && (forall c :: c != Holiday && HasColumn(t, c) ==> Series(h, c) == Series(t, c))
  {
    SeriesConforms(t, Holiday);
  }

  // ---------------------------------------------------------------------------
  // `df['Date'] < split_date` and `df['Date'] >= split_date`

  /** Python's string order: code point by code point, a proper prefix first. */
  predicate LexLess(a: string, b: string) {
    if b == [] then false
    else if a == [] then true
    else if a[0] != b[0] then a[0] < b[0]
    else LexLess(a[1..], b[1..])
  }

  function KindName(v: Value): string {
    match v
    case Num(_) => "float"
    case Bool(_) => "bool"
    case Str(_) => "str"
    case Stamp(_) => "Timestamp"
  }

  /** A number or a flag, which cannot be compared with the split string. */
  predicate Incomparable(c: Cell) {
    c.Some? && (c.value.Num? || c.value.Bool?)
  }

  /** One cell of `dates < split_date`: a timestamp compares as a date, a
      string as a string, NaT is never earlier, and a number or a flag cannot
      be compared with a string. */
  function EarlierThanSplit(c: Cell): (r: Result<bool>)
    ensures r.Err? <==> c.Some? && (c.value.Num? || c.value.Bool?)
  {
    match c
    case None => Ok(false)
    case Some(Stamp(d)) => Ok(Before(d, SplitDate))
    case Some(Str(s)) => Ok(LexLess(s, SplitText))
    case Some(v) => Err(TypeError("'<' not supported between instances of '" + KindName(v) + "' and 'str'"))
  }

  /** One cell of `dates >= split_date`: NaT is never at or after either. */
  function NotEarlierThanSplit(c: Cell): (r: Result<bool>)
    ensures r.Err? <==> c.Some? && (c.value.Num? || c.value.Bool?)
  {
    match c
    case None => Ok(false)
    case Some(Stamp(d)) => Ok(!Before(d, SplitDate))
    case Some(Str(s)) => Ok(!LexLess(s, SplitText))
    case Some(v) => Err(TypeError("'>=' not supported between instances of '" + KindName(v) + "' and 'str'"))
  }

  /** Every dated row goes to exactly one side; a row without a date goes to
      neither. */
  lemma CellGoesToOneSide(c: Cell)
    requires EarlierThanSplit(c).Ok?
    ensures NotEarlierThanSplit(c).Ok?
    ensures c.None? ==> !EarlierThanSplit(c).value && !NotEarlierThanSplit(c).value
    ensures c.Some? ==> EarlierThanSplit(c).value != NotEarlierThanSplit(c).value
  {
  }

  /** Where `dates < split_date` can be evaluated, so can `dates >= split_date`. */
  lemma TestMaskOk(t: Table)
    requires RowsFit(t) && TrainMask(t).Ok?
    ensures TestMask(t).Ok?
  {
    var dates := Series(t, DateName).value;
    forall i | 0 <= i < |dates| ensures NotEarlierThanSplit(dates[i]).Ok? {
      CellGoesToOneSide(dates[i]);
    }
  }

  /** A numeric or flag column is compared with a string as a whole array,
      and pandas refuses that before looking at any cell. */
  function DatesArray(t: Table): (r: Result<seq<Cell>>)
    requires RowsFit(t)
    ensures r.Ok? <==> HasColumn(t, DateName) && t.columns[IndexOf(Names(t.columns), DateName)].dtype !in {Numeric, Boolean}
    ensures r.Ok? ==> r == Series(t, DateName)
  {
    var dates :- Series(t, DateName);
    match t.columns[IndexOf(Names(t.columns), DateName)].dtype
    case Numeric => Err(TypeError("Invalid comparison between dtype=float64 and str"))
    case Boolean => Err(TypeError("Invalid comparison between dtype=bool and str"))
    case _ => Ok(dates)
  }

  /** `dates < split_date` fails with KeyError when there is no Date column,
      with TypeError for a numeric or flag column, and otherwise exactly when
      some cell is a number or a flag. */
  function TrainMask(t: Table): (r: Result<seq<bool>>)
    requires RowsFit(t)
    ensures r.Ok? ==> |r.value| == |t.rows|
    ensures !HasColumn(t, DateName) ==> r == Err(KeyError(DateName))
    ensures r.Ok? <==>
      && HasColumn(t, DateName)
      && t.columns[IndexOf(Names(t.columns), DateName)].dtype !in {Numeric, Boolean}
      && forall i :: 0 <= i < |t.rows| ==> !Incomparable(Series(t, DateName).value[i])
    ensures r.Err? ==> r.error.KeyError? || r.error.TypeError?
  {
    var dates :- DatesArray(t);
    MapAll(dates, (c, i) => EarlierThanSplit(c))
  }

  function TestMask(t: Table): (r: Result<seq<bool>>)
    requires RowsFit(t)
    ensures r.Ok? ==> |r.value| == |t.rows|
  {
    var dates :- DatesArray(t);
    MapAll(dates, (c, i) => NotEarlierThanSplit(c))
  }

  // ---------------------------------------------------------------------------
  // Features and target.

  /** `part.drop(columns=drop_cols, errors='ignore').select_dtypes(include=['number'])`:
      no excluded column, only numeric columns, and every numeric column that
      is not excluded. A drop column the frame lacks is skipped. */
  function Features(part: Table): (x: Table)
    requires WellFormed(part)
    ensures WellFormed(x) && |x.rows| == |part.rows|
    ensures forall c :: c in DropColumns ==> !HasColumn(x, c)
    ensures forall k :: 0 <= k < |x.columns| ==> x.columns[k].dtype == Numeric
    ensures forall j :: 0 <= j < |part.columns| && part.columns[j].dtype == Numeric && part.columns[j].name !in DropColumns ==>
      part.columns[j] in x.columns
    ensures forall c :: c in x.columns ==> c in part.columns
    ensures SubFrame(x, part)
  {
    var kept := Drop(part, DropColumns, true);
    DropKeeps(part, DropColumns, true);
    ProjectSubFrame(part, KeptIndices(DropMask(part, DropColumns)));
    var x := SelectNumeric(kept.value);
    SubFrameTransitive(x, kept.value, part);
    x
  }

  /** The feature columns depend on the column list alone, not on the rows. */
  lemma FeaturesColumnsOnly(a: Table, b: Table)
    requires WellFormed(a) && WellFormed(b) && a.columns == b.columns
    ensures Features(a).columns == Features(b).columns
  {
    var ks := KeptIndices(DropMask(a, DropColumns));
    assert DropMask(a, DropColumns) == DropMask(b, DropColumns);
    var da := Drop(a, DropColumns, true).value;
    var db := Drop(b, DropColumns, true).value;
    assert da.columns == db.columns;
    assert NumericMask(da) == NumericMask(db);
  }

  datatype Split = Split(xTrain: Table, yTrain: seq<Cell>, xTest: Table, yTest: seq<Cell>)

  /** The rows before the split date. */
  function TrainPart(t: Table): (r: Table)
    requires WellFormed(t) && TrainMask(t).Ok?
    ensures WellFormed(r) && r == Where(t, TrainMask(t).value)
  {
    WhereWellFormed(t, TrainMask(t).value);
    Where(t, TrainMask(t).value)
  }

  /** The rows on or after the split date. */
  function TestPart(t: Table): (r: Table)
    requires WellFormed(t) && TestMask(t).Ok?
    ensures WellFormed(r) && r == Where(t, TestMask(t).value)
  {
    WhereWellFormed(t, TestMask(t).value);
    Where(t, TestMask(t).value)
  }

  /** Lines 20-31 of the script: the two parts and their features and targets.
      It fails where the Date comparison fails, and otherwise with KeyError
      when there is no Weekly_Sales column. */
  function TrainTestSplit(t: Table): (r: Result<Split>)
    requires WellFormed(t)
    ensures r.Ok? <==> TrainMask(t).Ok? && HasColumn(t, Sales)
    ensures r.Err? ==> r.error == (if TrainMask(t).Err? then TrainMask(t).error else KeyError(Sales))
    ensures r.Ok? ==> TrainMask(t).Ok? && TestMask(t).Ok?
    ensures r.Ok? ==> r.value.xTrain == Features(TrainPart(t)) && r.value.xTest == Features(TestPart(t))
    ensures r.Ok? ==> Series(TrainPart(t), Sales) == Ok(r.value.yTrain)
    ensures r.Ok? ==> Series(TestPart(t), Sales) == Ok(r.value.yTest)
  {
    var trainMask :- TrainMask(t);
    TestMaskOk(t);
    var yTrain :- Series(TrainPart(t), Sales);
    assert TestPart(t).columns == TrainPart(t).columns;
    Ok(Split(Features(TrainPart(t)), yTrain, Features(TestPart(t)), Series(TestPart(t), Sales).value))
  }

  /** The whole preparation: the conversion, then the split. */
  function Prepared(t: Table): (r: Result<Split>)
    requires WellFormed(t)
  {
    var h :- HolidayAsInt(t);
    TrainTestSplit(h)
  }

  /** Runs the preparation on `df`, which keeps the converted holiday column. */
  method Prepare(df: DataFrame) returns (r: Result<Split>)
    requires df.Valid()
    modifies df
    ensures df.Valid()
    ensures r == Prepared(old(df.Value()))
    ensures HolidayAsInt(old(df.Value())).Ok? ==> df.Value() == HolidayAsInt(old(df.Value())).value
    ensures HolidayAsInt(old(df.Value())).Err? ==> df.Value() == old(df.Value())
  {
    var converted :- HolidayToInt(df);
    r := TrainTestSplit(df.Value());
  }

  // ---------------------------------------------------------------------------
  // What the split satisfies.

  /** The Date column was parsed, as `parse_dates=['Date']` does when every
      value is a date. */
  predicate DatesParsed(t: Table) {
    HasColumn(t, DateName) && t.columns[IndexOf(Names(t.columns), DateName)].dtype == DateTime
  }

  /** The masks of a parsed Date column never fail. */
  lemma ParsedDatesCompare(t: Table)
    requires WellFormed(t) && DatesParsed(t)
    ensures TrainMask(t).Ok? && TestMask(t).Ok?
  {
    SeriesConforms(t, DateName);
  }

  /** The training rows are exactly the rows dated before 2012-02-01 and the
      test rows exactly those dated on or after it, each in their order. */
  lemma SplitSelectsByDate(t: Table)
    requires WellFormed(t) && DatesParsed(t)
    ensures TrainMask(t).Ok? && TestMask(t).Ok?
    ensures var dates := Series(t, DateName).value;
      forall i :: 0 <= i < |t.rows| ==>
        && (i in KeptIndices(TrainMask(t).value) <==> dates[i].Some? && Before(dates[i].value.date, SplitDate))
        && (i in KeptIndices(TestMask(t).value) <==> dates[i].Some? && !Before(dates[i].value.date, SplitDate))
  {
    ParsedDatesCompare(t);
    SeriesConforms(t, DateName);
    KeptIndicesIff(TrainMask(t).value);
    KeptIndicesIff(TestMask(t).value);
  }

  /** No row is in both parts, and the parts hold every row that has a date:
      train size + test size + undated rows = total. */
  lemma SplitIsPartition(t: Table)
    requires WellFormed(t) && TrainMask(t).Ok?
    ensures TestMask(t).Ok?
    ensures forall i :: i in KeptIndices(TrainMask(t).value) ==> i !in KeptIndices(TestMask(t).value)
    ensures |TrainPart(t).rows| + |TestPart(t).rows| + CountMissing(Series(t, DateName).value) == |t.rows|
  {
    SplitSides(t);
    PartSizes(t);
    var dates, m1, m2 := Series(t, DateName).value, TrainMask(t).value, TestMask(t).value;
    KeptIndicesIff(m1);
    KeptIndicesIff(m2);
    SidesCount(m1, m2, dates);
  }

  lemma PartSizes(t: Table)
    requires WellFormed(t) && TrainMask(t).Ok? && TestMask(t).Ok?
    ensures |TrainPart(t).rows| == |KeptIndices(TrainMask(t).value)|
    ensures |TestPart(t).rows| == |KeptIndices(TestMask(t).value)|
  {
  }

  /** Row by row, a dated row is on exactly one side and an undated row on
      neither. */
  lemma SplitSides(t: Table)
    requires WellFormed(t) && TrainMask(t).Ok?
    ensures TestMask(t).Ok? && HasColumn(t, DateName)
    ensures var dates, m1, m2 := Series(t, DateName).value, TrainMask(t).value, TestMask(t).value;
      && |m1| == |m2| == |dates|
      && forall i :: 0 <= i < |dates| ==>
        (dates[i].None? ==> !m1[i] && !m2[i]) && (dates[i].Some? ==> m1[i] != m2[i])
  {
    var dates := Series(t, DateName).value;
    var m1 := TrainMask(t).value;
    TestMaskOk(t);
    var m2 := TestMask(t).value;
    forall i | 0 <= i < |dates|
      ensures (dates[i].None? ==> !m1[i] && !m2[i]) && (dates[i].Some? ==> m1[i] != m2[i])
    {
      CellGoesToOneSide(dates[i]);
    }
  }

  /** Counting the two sides of a split in which missing cells go to neither. */
  lemma {:induction false} SidesCount(m1: seq<bool>, m2: seq<bool>, cells: seq<Cell>)
    requires |m1| == |m2| == |cells|
    requires forall i :: 0 <= i < |cells| ==>
      (cells[i].None? ==> !m1[i] && !m2[i]) && (cells[i].Some? ==> m1[i] != m2[i])
    ensures |KeptIndices(m1)| + |KeptIndices(m2)| + CountMissing(cells) == |cells|
  {
    if cells != [] {
      var n := |cells| - 1;
      assert forall i :: 0 <= i < n ==> cells[..n][i] == cells[i] && m1[..n][i] == m1[i] && m2[..n][i] == m2[i];
      SidesCount(m1[..n], m2[..n], cells[..n]);
      assert |KeptIndices(m1)| == |KeptIndices(m1[..n])| + (if m1[n] then 1 else 0);
      assert |KeptIndices(m2)| == |KeptIndices(m2[..n])| + (if m2[n] then 1 else 0);
      assert CountMissing(cells) == CountMissing(cells[..n]) + (if cells[n].None? then 1 else 0);
    }
  }

  /** Every training date is strictly earlier than every test date. */
  lemma TrainBeforeTest(t: Table)
    requires WellFormed(t) && DatesParsed(t)
    ensures TrainMask(t).Ok? && TestMask(t).Ok?
    ensures var dates := Series(t, DateName).value;
      forall a, b :: a in KeptIndices(TrainMask(t).value) && b in KeptIndices(TestMask(t).value) ==>
        dates[a].Some? && dates[b].Some? && ValidDate(dates[a].value.date) && ValidDate(dates[b].value.date)
        && DayNumber(dates[a].value.date) < DayNumber(dates[b].value.date)
  {
    SplitSelectsByDate(t);
    SeriesConforms(t, DateName);
    var dates := Series(t, DateName).value;
    forall a, b | a in KeptIndices(TrainMask(t).value) && b in KeptIndices(TestMask(t).value)
      ensures DayNumber(dates[a].value.date) < DayNumber(dates[b].value.date)
    {
      AcrossSplit(dates[a].value.date, dates[b].value.date);
    }
  }

  /** A date before the split day comes strictly earlier than one on or after it. */
  lemma AcrossSplit(da: Date, db: Date)
    requires ValidDate(da) && ValidDate(db)
    requires Before(da, SplitDate) && !Before(db, SplitDate)
    ensures DayNumber(da) < DayNumber(db)
  {
    assert Before(da, db);
    BeforeIsChronological(da, db);
  }

  /** Both feature tables have the same columns in the same order, numeric
      and none of the excluded ones, and each has one row per target value. */
  lemma SplitShapes(t: Table)
    requires WellFormed(t) && TrainTestSplit(t).Ok?
    ensures var s := TrainTestSplit(t).value;
      && s.xTrain.columns == s.xTest.columns
      && |s.xTrain.rows| == |s.yTrain| && |s.xTest.rows| == |s.yTest|
      && |s.xTrain.rows| + |s.xTest.rows| <= |t.rows|
  {
    FeaturesColumnsOnly(TrainPart(t), TestPart(t));
    SplitIsPartition(t);
  }

  /** Once converted, a bool holiday column is one of the features of both
      parts (as a bool column it would not be a number to `select_dtypes`). */
  lemma HolidayBecomesFeature(t: Table)
    requires WellFormed(t) && HasColumn(t, Holiday)
    requires t.columns[IndexOf(Names(t.columns), Holiday)].dtype == Boolean
    requires Prepared(t).Ok?
    ensures Column(Holiday, Numeric) in Prepared(t).value.xTrain.columns
    ensures Column(Holiday, Numeric) in Prepared(t).value.xTest.columns
  {
    HolidayFlagsBecomeBits(t);
    var h := HolidayAsInt(t).value;
    var j := IndexOf(Names(h.columns), Holiday);
    assert h.columns[j] == Column(Holiday, Numeric);
    assert Holiday !in DropColumns;
  }
}
