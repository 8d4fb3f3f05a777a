/** The weekly production sheet: a Deviation column is added to the frame
    in place, the days below the target are filtered out, and each bar gets
    a colour. */
module ProductionMetrics {
  import opened Outcomes
  import opened Tables
  import opened Frames

  const TargetValue: real := 110.0

  const DayColumn := "Day"
  const ProductionColumn := "Production"
  const DeviationColumn := "Deviation"

  const WeekDays: seq<string> := ["Monday", "Tuesday", "Wednesday", "Thursday", "Friday", "Saturday", "Sunday"]
  const WeekProduction: seq<int> := [120, 130, 90, 105, 140, 85, 115]

  /** Lines 13-17: the hand-written week as a frame. */
  function Week(): (t: Table)
    ensures WellFormed(t) && |t.rows| == 7 && Names(t.columns) == [DayColumn, ProductionColumn]
    ensures Series(t, DayColumn) == Ok(StrCells(WeekDays))
    ensures Series(t, ProductionColumn) == Ok(IntCells(WeekProduction))
  {
    var cols := [Column(DayColumn, Object), Column(ProductionColumn, Numeric)];
    assert Slot(Names(cols), 0) != Slot(Names(cols), 1);
    var r := FromColumns(cols, [StrCells(WeekDays), IntCells(WeekProduction)]);
    assert cols[0].name == DayColumn && cols[1].name == ProductionColumn;
    r.value
  }

  /** A production figure below the target; NaN is below nothing, and a
      boolean counts as 0 or 1. */
  predicate IsBelow(c: Cell) {
    c.Some? && ((c.value.Num? && c.value.x < TargetValue) || c.value.Bool?)
  }

  // ---------------------------------------------------------------------------
  // Line 24: `df['Deviation'] = df['Production'] - TARGET_VALUE`.

  /** One cell of `df['Production'] - TARGET_VALUE`. */
  function Deviate(c: Cell, i: nat): (r: Result<Cell>)
    ensures r.Ok? ==> Conforms(r.value, Numeric)
    ensures r.Ok? <==> c.None? || c.value.Num? || c.value.Bool?
    ensures r.Ok? && c.Some? && c.value.Num? ==> r.value == Some(Num(c.value.x - TargetValue))
    ensures r.Ok? ==> (IsBelow(c) <==> r.value.Some? && r.value.value.x < 0.0)
  {
    match c
    case None => Ok(None)
    case Some(Num(x)) => Ok(Some(Num(x - TargetValue)))
    case Some(Bool(b)) => Ok(Some(Num((if b then 1.0 else 0.0) - TargetValue)))
    case Some(_) => Err(TypeError("unsupported operand type(s) for -: 'str' and 'int'"))
  }

  function Deviations(t: Table): (r: Result<seq<Cell>>)
    requires RowsFit(t)
    ensures r.Ok? ==> |r.value| == |t.rows|
  {
    var cells :- Series(t, ProductionColumn);
    MapAll(cells, Deviate)
  }

  /** The frame after line 24, or the error the subtraction raises. */
  function WithDeviation(t: Table): (r: Result<Table>)
    requires WellFormed(t)
  {
    var d :- Deviations(t);
    Ok(WithColumn(t, DeviationColumn, Numeric, d))
  }

  /** Line 24 in place: the frame gains (or has overwritten) its Deviation
      column and keeps every other column and its row count; on an error it
      is left as it was. */
  method AddDeviation(df: DataFrame) returns (r: Result<()>)
    requires df.Valid()
    modifies df
    ensures df.Valid()
    ensures r.Ok? <==> WithDeviation(old(df.Value())).Ok?
    ensures r.Err? ==> r.error == WithDeviation(old(df.Value())).error && df.Value() == old(df.Value())
    ensures r.Ok? ==> df.Value() == WithDeviation(old(df.Value())).value
    ensures r.Ok? ==> |df.rows| == old(|df.rows|) && forall c :: c != DeviationColumn && HasColumn(old(df.Value()), c) ==>
      Series(df.Value(), c) == Series(old(df.Value()), c)
  {
    var cells := Series(df.Value(), ProductionColumn);
    if cells.Err? {
      return Err(cells.error);
    }
    var d := MapAll(cells.value, Deviate);
    if d.Err? {
      return Err(d.error);
    }
    df.Assign(DeviationColumn, Numeric, d.value);
    return Ok(());
  }

  /** Each row's Deviation is its Production minus 110, and the other
      columns and the row count are those of the frame before. */
  lemma DeviationIsShortfall(t: Table)
    requires WellFormed(t) && WithDeviation(t).Ok?
    ensures var u := WithDeviation(t).value;
      && |u.rows| == |t.rows| && HasColumn(t, ProductionColumn) && Series(u, DeviationColumn).Ok?
      && (forall c :: c != DeviationColumn && HasColumn(t, c) ==> Series(u, c) == Series(t, c))
      && forall i :: 0 <= i < |t.rows| && Series(t, ProductionColumn).value[i].Some? && Series(t, ProductionColumn).value[i].value.Num? ==>
        Series(u, DeviationColumn).value[i] == Some(Num(Series(t, ProductionColumn).value[i].value.x - TargetValue))
  {
  }

  // ---------------------------------------------------------------------------
  // Lines 28 and 34: the below-target filter and the bar colours.

  /** `x < TARGET_VALUE` for one value; comparing a string with an int raises. */
  function LessThanTarget(c: Cell, i: nat): (r: Result<bool>)
    ensures r.Ok? <==> c.None? || c.value.Num? || c.value.Bool?
    ensures r.Ok? ==> (r.value <==> IsBelow(c))
  {
    match c
    case None => Ok(false)
    case Some(Num(x)) => Ok(x < TargetValue)
    case Some(Bool(_)) => Ok(true)
    case Some(_) => Err(TypeError("'<' not supported between instances of 'str' and 'int'"))
  }

  function BelowMask(t: Table): (r: Result<seq<bool>>)
    requires RowsFit(t)
    ensures r.Ok? ==> |r.value| == |t.rows|
  {
    var cells :- Series(t, ProductionColumn);
    MapAll(cells, LessThanTarget)
  }

  /** Line 28: `df[df['Production'] < TARGET_VALUE]`. */
  function DaysBelowTarget(t: Table): (r: Result<Table>)
    requires RowsFit(t)
    ensures r.Ok? <==> BelowMask(t).Ok?
    ensures r.Ok? ==> r.value.columns == t.columns && |r.value.rows| <= |t.rows|
  {
    var mask :- BelowMask(t);
    Ok(Where(t, mask))
  }

  function Colour(c: Cell, i: nat): Result<string> {
    var below :- LessThanTarget(c, i);
    Ok(if below then "red" else "skyblue")
  }

  /** Line 34: one colour per Production value. */
  function Colours(t: Table): (r: Result<seq<string>>)
    requires RowsFit(t)
    ensures r.Ok? ==> |r.value| == |t.rows|
  {
    var cells :- Series(t, ProductionColumn);
    MapAll(cells, Colour)
  }

  /** A Production value can be compared with the target exactly when it
      can be subtracted from it: the mask, the colours and Deviation fail
      together. */
  predicate Comparable(cells: seq<Cell>) {
    forall i :: 0 <= i < |cells| ==> cells[i].None? || cells[i].value.Num? || cells[i].value.Bool?
  }

  lemma FailTogether(t: Table)
    requires RowsFit(t)
    ensures BelowMask(t).Ok? <==> HasColumn(t, ProductionColumn) && Comparable(Series(t, ProductionColumn).value)
    ensures Colours(t).Ok? <==> BelowMask(t).Ok?
    ensures Deviations(t).Ok? <==> BelowMask(t).Ok?
  {
    var cells := Series(t, ProductionColumn);
    if cells.Ok? {
      var xs := cells.value;
      assert (forall i :: 0 <= i < |xs| ==> LessThanTarget(xs[i], i).Ok?) <==> Comparable(xs);
      assert (forall i :: 0 <= i < |xs| ==> Deviate(xs[i], i).Ok?) <==> Comparable(xs);
      assert (forall i :: 0 <= i < |xs| ==> Colour(xs[i], i).Ok?) <==> Comparable(xs);
    }
  }

  /** The filter keeps exactly the rows below the target, in their order. */
  lemma FilterKeepsBelow(t: Table)
    requires RowsFit(t) && BelowMask(t).Ok?
    ensures DaysBelowTarget(t) == Ok(Where(t, BelowMask(t).value))
    ensures forall i :: 0 <= i < |t.rows| ==> (BelowMask(t).value[i] <==> IsBelow(Series(t, ProductionColumn).value[i]))
    ensures forall i :: 0 <= i < |t.rows| ==>
      (i in KeptIndices(BelowMask(t).value) <==> IsBelow(Series(t, ProductionColumn).value[i]))
  {
    var production := Series(t, ProductionColumn).value;
    var mask := BelowMask(t).value;
    KeptIndicesIff(mask);
    forall i | 0 <= i < |t.rows| ensures mask[i] <==> IsBelow(production[i]) {
      assert LessThanTarget(production[i], i) == Ok(mask[i]);
    }
  }

  /** A bar is red exactly when its day is below the target, and sky blue
      otherwise. */
  lemma RedIffBelow(t: Table)
    requires RowsFit(t) && Colours(t).Ok?
    ensures forall i :: 0 <= i < |t.rows| ==>
      Colours(t).value[i] == if IsBelow(Series(t, ProductionColumn).value[i]) then "red" else "skyblue"
  {
    var production := Series(t, ProductionColumn).value;
    forall i | 0 <= i < |t.rows|
      ensures Colours(t).value[i] == if IsBelow(production[i]) then "red" else "skyblue"
    {
      assert Colour(production[i], i) == Ok(Colours(t).value[i]);
    }
  }

  /** A day is below the target exactly when its Deviation is negative. */
  lemma NegativeIffBelow(t: Table)
    requires WellFormed(t) && WithDeviation(t).Ok?
    ensures HasColumn(t, ProductionColumn) && Series(WithDeviation(t).value, DeviationColumn).Ok?
    ensures var production := Series(t, ProductionColumn).value;
      var deviation := Series(WithDeviation(t).value, DeviationColumn).value;
      forall i :: 0 <= i < |t.rows| ==> (IsBelow(production[i]) <==> deviation[i].Some? && deviation[i].value.x < 0.0)
  {
    var production := Series(t, ProductionColumn).value;
    var deviation := Deviations(t).value;
    forall i | 0 <= i < |t.rows| ensures IsBelow(production[i]) <==> deviation[i].Some? && deviation[i].value.x < 0.0 {
      assert Deviate(production[i], i) == Ok(deviation[i]);
    }
  }

  // ---------------------------------------------------------------------------
  // The script as written.

  const WeekDeviation: seq<int> := [10, 20, -20, -5, 30, -25, 5]
  const WeekMask: seq<bool> := [false, false, true, true, false, true, false]
  const WeekColours: seq<string> := ["skyblue", "skyblue", "red", "red", "skyblue", "red", "skyblue"]

  /** For the hand-written week: Deviation is 10, 20, -20, -5, 30, -25, 5,
      and Wednesday, Thursday and Saturday are below the target and red. */
  lemma WeekFigures()
    ensures Deviations(Week()) == Ok(IntCells(WeekDeviation))
    ensures BelowMask(Week()) == Ok(WeekMask)
    ensures Colours(Week()) == Ok(WeekColours)
    ensures KeptIndices(WeekMask) == [2, 3, 5]
  {
    var production := IntCells(WeekProduction);
    forall i | 0 <= i < 7
      ensures Deviate(production[i], i) == Ok(IntCells(WeekDeviation)[i])
      ensures LessThanTarget(production[i], i) == Ok(WeekMask[i])
      ensures Colour(production[i], i) == Ok(WeekColours[i])
    {
      WeekDay(i);
    }
    assert MapAll(production, Deviate).value == IntCells(WeekDeviation);
    assert MapAll(production, LessThanTarget).value == WeekMask;
    assert MapAll(production, Colour).value == WeekColours;
    WeekKept();
  }

  lemma WeekDay(i: nat)
    requires i < 7
    ensures Deviate(IntCells(WeekProduction)[i], i) == Ok(IntCells(WeekDeviation)[i])
    ensures LessThanTarget(IntCells(WeekProduction)[i], i) == Ok(WeekMask[i])
    ensures Colour(IntCells(WeekProduction)[i], i) == Ok(WeekColours[i])
  {
  }

  lemma WeekKept()
    ensures KeptIndices(WeekMask) == [2, 3, 5]
  {
    KeptOfPattern(WeekMask);
  }

  /** Any seven-day mask true on Wednesday, Thursday and Saturday only keeps
      positions 2, 3 and 5. */
  lemma KeptOfPattern(m: seq<bool>)
    requires |m| == 7 && !m[0] && !m[1] && m[2] && m[3] && !m[4] && m[5] && !m[6]
    ensures KeptIndices(m) == [2, 3, 5]
  {
    assert KeptIndices(m[..0]) == [];
    KeptIndicesSnoc(m, 0);
    KeptIndicesSnoc(m, 1);
    KeptIndicesSnoc(m, 2);
    KeptIndicesSnoc(m, 3);
    KeptIndicesSnoc(m, 4);
    KeptIndicesSnoc(m, 5);
    KeptIndicesSnoc(m, 6);
    assert m[..7] == m;
  }

  /** The filter and the colours see only the Production column, so after
      Deviation is added they give the week's answers. */
  lemma WeekOutputs(u: Table)
    requires WellFormed(u)
    requires Series(u, ProductionColumn) == Ok(IntCells(WeekProduction))
    requires Series(u, DayColumn) == Ok(StrCells(WeekDays))
    ensures Colours(u) == Ok(WeekColours)
    ensures DaysBelowTarget(u) == Ok(Where(u, WeekMask)) && WellFormed(Where(u, WeekMask))
    ensures Series(Where(u, WeekMask), DayColumn) == Ok(StrCells(["Wednesday", "Thursday", "Saturday"]))
  {
    WeekMasks(u);
    WeekKept();
    WhereWellFormed(u, WeekMask);
    SeriesOfWhere(u, WeekMask, DayColumn);
    assert Series(Where(u, WeekMask), DayColumn).value == StrCells(["Wednesday", "Thursday", "Saturday"]);
  }

  /** The mask and the colours depend on the Production column alone. */
  lemma WeekMasks(u: Table)
    requires RowsFit(u)
    requires Series(u, ProductionColumn) == Ok(IntCells(WeekProduction))
    ensures BelowMask(u) == Ok(WeekMask) && Colours(u) == Ok(WeekColours)
  {
    WeekFigures();
    assert BelowMask(u) == BelowMask(Week());
    assert Colours(u) == Colours(Week());
  }

  /** Lines 13-34 in order: build the week, add Deviation in place, filter
      and colour. */
  method BasicProductionMetrics() returns (df: DataFrame, daysBelow: Table, colours: seq<string>)
    ensures df.Valid() && Series(df.Value(), DayColumn) == Ok(StrCells(WeekDays))
    ensures Series(df.Value(), ProductionColumn) == Ok(IntCells(WeekProduction))
    ensures Series(df.Value(), DeviationColumn) == Ok(IntCells(WeekDeviation))
    ensures WellFormed(daysBelow) && Series(daysBelow, DayColumn) == Ok(StrCells(["Wednesday", "Thursday", "Saturday"]))
    ensures colours == WeekColours
  {
    WeekFigures();
    df := new DataFrame(Week());
    var added := AddDeviation(df);
    WeekOutputs(df.Value());
    daysBelow := DaysBelowTarget(df.Value()).value;
    colours := Colours(df.Value()).value;
  }
}
