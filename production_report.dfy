/** `analyze_production`: a week of daily production figures is put in a
    frame beside the day names, and the week's average is compared with the
    target. */
module ProductionReport {
  import opened Outcomes
  import opened Tables

  const WeekDays: seq<string> := ["Mon", "Tue", "Wed", "Thu", "Fri", "Sat", "Sun"]

  const DayColumn := "Day"
  const ProductionColumn := "Production"

  /** The decision the report prints, with the average it printed: ALERT
      when the average is below the target, SUCCESS otherwise. A NaN
      average (`None`) is not below anything. */
  datatype Verdict = Alert(average: Option<real>) | Success(average: Option<real>)

  /** Lines 21-23: the Day column paired position by position with the list. */
  function WeekFrame(productionList: seq<int>): (r: Result<Table>)
    ensures r.Err? <==> |productionList| != 7
    ensures r.Err? ==> r.error == ValueError(SameLength)
    ensures r.Ok? ==> WellFormed(r.value) && Names(r.value.columns) == [DayColumn, ProductionColumn]
    ensures r.Ok? ==> |r.value.rows| == 7 && forall i :: 0 <= i < 7 ==>
      r.value.rows[i] == [Some(Str(WeekDays[i])), Some(Num(productionList[i] as real))]
    ensures r.Ok? ==> Series(r.value, ProductionColumn) == Ok(IntCells(productionList))
  {
    var cols := [Column(DayColumn, Object), Column(ProductionColumn, Numeric)];
    assert Slot(Names(cols), 0) != Slot(Names(cols), 1);
    var data := [StrCells(WeekDays), IntCells(productionList)];
    var r := FromColumns(cols, data);
    assert r.Ok? ==> Series(r.value, ProductionColumn) == Ok(IntCells(productionList)) && forall i :: 0 <= i < 7 ==>
        r.value.rows[i] == [Some(Str(WeekDays[i])), Some(Num(productionList[i] as real))] by {
      if r.Ok? {
        forall i | 0 <= i < 7
          ensures r.value.rows[i] == [Some(Str(WeekDays[i])), Some(Num(productionList[i] as real))]
        {
          assert r.value.rows[i][0] == data[0][i];
          assert r.value.rows[i][1] == data[1][i];
        }
        assert Series(r.value, cols[1].name) == Ok(data[1]);
      }
    }
    r
  }

  /** Lines 30-33: the branch on the average. */
  function Decide(average: Option<real>, targetValue: int): (v: Verdict)
    ensures v.average == average
    ensures v.Alert? <==> average.Some? && average.value < targetValue as real
  {
    if average.Some? && average.value < targetValue as real then Alert(average)
    else Success(average)
  }

  /** Lines 21-33: the verdict of one call, or the constructor's error. */
  function AnalyzeProduction(productionList: seq<int>, targetValue: int): (r: Result<Verdict>)
    ensures r.Err? <==> |productionList| != 7
    ensures r.Ok? ==> r.value == Decide(Mean(IntCells(productionList)), targetValue)
  {
    var df :- WeekFrame(productionList);
    var average := Mean(Series(df, ProductionColumn).value);
    Ok(Decide(average, targetValue))
  }

  /** The list must hold exactly seven figures; any other length is the
      constructor's error. */
  lemma NeedsSevenDays(productionList: seq<int>, targetValue: int)
    ensures AnalyzeProduction(productionList, targetValue).Err? <==> |productionList| != 7
    ensures |productionList| != 7 ==> AnalyzeProduction(productionList, targetValue) == Err(ValueError(SameLength))
  {
  }

  /** The average is the week's total over seven, and the report alerts
      exactly when the total is below seven times the target; an average equal
      to the target is a success, and every call gives exactly one verdict. */
  lemma AlertIffBelowTarget(productionList: seq<int>, targetValue: int)
    requires |productionList| == 7
    ensures var r := AnalyzeProduction(productionList, targetValue);
      && r.Ok?
      && r.value.average == Some(IntSum(productionList) as real / 7.0)
      && (r.value.Alert? <==> IntSum(productionList) < 7 * targetValue)
      && (r.value.Success? <==> IntSum(productionList) >= 7 * targetValue)
  {
    var s := IntSum(productionList);
    WeekAverage(productionList);
    SevenfoldAverage(s, targetValue);
  }

  lemma WeekAverage(productionList: seq<int>)
    requires |productionList| == 7
    ensures Mean(IntCells(productionList)) == Some(IntSum(productionList) as real / 7.0)
  {
    SumOfInts(productionList);
    assert CountMissing(IntCells(productionList)) == 0;
  }

  /** An average over seven days is below the target exactly when the total
      is below seven times the target. */
  lemma SevenfoldAverage(s: int, targetValue: int)
    ensures s as real / 7.0 < targetValue as real <==> s < 7 * targetValue
  {
    assert s as real == 7.0 * (s as real / 7.0);
  }

  const FactoryA: seq<int> := [120, 130, 110, 105, 140, 115, 125]
  const FactoryB: seq<int> := [90, 80, 95, 100, 105, 75, 90]

  /** Factory A (total 845, target 115) meets its target; factory B (total
      635, target 100) raises an alert. */
  lemma FactoryVerdicts()
    ensures AnalyzeProduction(FactoryA, 115) == Ok(Success(Some(845.0 / 7.0)))
    ensures AnalyzeProduction(FactoryB, 100) == Ok(Alert(Some(635.0 / 7.0)))
  {
    WeekTotal(FactoryA);
    assert IntSum(FactoryA) == 845;
    AlertIffBelowTarget(FactoryA, 115);
    WeekTotal(FactoryB);
    assert IntSum(FactoryB) == 635;
    AlertIffBelowTarget(FactoryB, 100);
  }

  /** The total of a seven-day list, written out. */
  lemma WeekTotal(xs: seq<int>)
    requires |xs| == 7
    ensures IntSum(xs) == xs[0] + xs[1] + xs[2] + xs[3] + xs[4] + xs[5] + xs[6]
  {
    assert xs[..7] == xs;
    forall k | 1 <= k <= 7 ensures IntSum(xs[..k]) == IntSum(xs[..k - 1]) + xs[k - 1] {
      assert xs[..k][..k - 1] == xs[..k - 1];
    }
  }
}
