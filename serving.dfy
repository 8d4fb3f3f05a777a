/** The prediction endpoint: the server holds the forest it loaded (or
    nothing), turns a JSON record into a one-row frame, aligns that frame to
    the forest's training features and answers with the prediction or an error. */
module Serving {
  import opened Outcomes
  import opened Tables
  import opened Frames

  const NotLoaded := "Model could not be loaded."
  const Currency := "USD"

  /** A fitted random forest as the endpoint uses it: the feature names it
      was trained on (`feature_names_in_`), how many trees it has and its
      prediction for one aligned row, which can fail like any sklearn call. */
  datatype Forest = Forest(featureNames: seq<string>, trees: nat, predict: seq<Cell> -> Result<real>)

  /** `not model` is false only for a loaded forest with at least one tree:
      `None` is falsy, and a forest's truth value is its number of trees. */
  predicate Loaded(model: Option<Forest>) {
    model.Some? && model.value.trees > 0
  }

  /** The body of a request: a JSON object as a list of (field, value) pairs
      in their order; any other JSON value (null, a number, a string, a list);
      or a body that `request.get_json()` could not read, with the message of
      the exception it raised. */
  datatype Payload = Record(fields: seq<(string, Cell)>) | NotAnObject | Unreadable(message: string)

  /** The named columns `pd.DataFrame([data])` makes. For a JSON value that is
      not an object the columns are labelled by position (0, 1, ...), never
      by a feature name, so the alignment drops them all: the model gives
      such a body no fields. */
  function FieldsOf(payload: Payload): (fields: seq<(string, Cell)>)
    requires !payload.Unreadable?
    ensures payload.Record? ==> fields == payload.fields
    ensures payload.NotAnObject? ==> fields == []
  {
    if payload.Record? then payload.fields else []
  }

  datatype Response = Success(predictedSales: real, currency: string) | Failure(message: string)

  /** The `status` field of the JSON answer. */
  function Status(r: Response): string {
    if r.Success? then "success" else "error"
  }

  /** `str(e)` for an exception raised while answering. */
  function Describe(e: Error): string {
    match e
    case KeyError(c) => "'" + c + "'"
    case MergeError(m) => m
    case TypeError(m) => m
    case ValueError(m) => m
    case AttributeError(m) => m
    case ParseError(_) => "time data does not match format '%Y-%m-%d'"
    case CastError(_) => "cannot convert to integer"
  }

  function Keys(fields: seq<(string, Cell)>): (ks: seq<string>)
    ensures |ks| == |fields| && forall i :: 0 <= i < |fields| ==> ks[i] == fields[i].0
  {
    seq(|fields|, i requires 0 <= i < |fields| => fields[i].0)
  }

  /** The value of the field called `name`. */
  function Lookup(fields: seq<(string, Cell)>, name: string): Cell
    requires name in Keys(fields)
  {
    fields[IndexOf(Keys(fields), name)].1
  }

  /** The dtype pandas gives a column holding one JSON value. */
  function DTypeOf(c: Cell): (d: DType)
    ensures Conforms(c, d)
  {
    match c
    case Some(Num(_)) => Numeric
    case Some(Bool(_)) => Boolean
    case _ => Object
  }

  /** `pd.DataFrame([data])`: one row, one column per field, in field order. */
  function FrameOf(fields: seq<(string, Cell)>): (t: Table)
    requires Distinct(Keys(fields))
    ensures WellFormed(t) && |t.rows| == 1 && Names(t.columns) == Keys(fields)
    ensures forall c :: c in Keys(fields) ==> Series(t, c) == Ok([Lookup(fields, c)])
  {
    var t := Table(seq(|fields|, i requires 0 <= i < |fields| => Column(fields[i].0, DTypeOf(fields[i].1))),
                   [seq(|fields|, i requires 0 <= i < |fields| => fields[i].1)]);
    assert Names(t.columns) == Keys(fields);
    forall c | c in Keys(fields) ensures Series(t, c) == Ok([Lookup(fields, c)]) {
      assert Series(t, c).value[0] == Lookup(fields, c);
      assert Series(t, c).value == [Lookup(fields, c)];
    }
    t
  }

  // ---------------------------------------------------------------------------
  // Feature alignment.

  function Zeros(n: nat): (zs: seq<Cell>)
    ensures |zs| == n && forall i :: 0 <= i < n ==> zs[i] == Some(Num(0.0))
  {
    seq(n, i => Some(Num(0.0)))
  }

  /** The frame after the loop has visited `cols`: every name in `cols` the
      frame lacked is now a column of zeros; nothing else changed. */
  function AddMissing(t: Table, cols: seq<string>): (r: Table)
    requires WellFormed(t)
    ensures WellFormed(r) && |r.rows| == |t.rows|
    ensures forall c :: c in cols ==> HasColumn(r, c)
    ensures forall c :: HasColumn(t, c) ==> Series(r, c) == Series(t, c)
    ensures forall c :: c in cols && !HasColumn(t, c) ==> Series(r, c) == Ok(Zeros(|t.rows|))
    ensures forall c :: HasColumn(r, c) ==> HasColumn(t, c) || c in cols
  {
    if cols == [] then t
    else
      var n := |cols| - 1;
      var prev := AddMissing(t, cols[..n]);
      assert forall c :: c in cols ==> c in cols[..n] || c == cols[n];
      if HasColumn(prev, cols[n]) then prev
      else WithColumn(prev, cols[n], Numeric, Zeros(|prev.rows|))
  }

  /** One more turn of the loop: the next name is added as zeros if absent. */
  lemma AddMissingStep(t: Table, cols: seq<string>, k: nat)
    requires WellFormed(t) && k < |cols|
    ensures var prev := AddMissing(t, cols[..k]);
      AddMissing(t, cols[..k + 1])
        == if HasColumn(prev, cols[k]) then prev else WithColumn(prev, cols[k], Numeric, Zeros(|prev.rows|))
  {
    assert cols[..k + 1][..k] == cols[..k];
  }

  /** Lines 51-56: add the missing expected columns, then `input_df[expected_cols]`. */
  function Align(t: Table, expected: seq<string>): (r: Table)
    requires WellFormed(t)
    ensures Names(r.columns) == expected && |r.rows| == |t.rows| && RowsFit(r)
  {
    var m := AddMissing(t, expected);
    Select(m, expected).value
  }

  /** Each aligned cell is the input's value for that feature, or 0 when the
      input has no such field. */
  lemma AlignedCells(t: Table, expected: seq<string>)
    requires WellFormed(t)
    ensures forall i, k :: 0 <= i < |t.rows| && 0 <= k < |expected| ==>
      Align(t, expected).rows[i][k]
        == if HasColumn(t, expected[k]) then Series(t, expected[k]).value[i] else Some(Num(0.0))
  {
    var m := AddMissing(t, expected);
    forall i, k | 0 <= i < |t.rows| && 0 <= k < |expected|
      ensures Align(t, expected).rows[i][k]
        == if HasColumn(t, expected[k]) then Series(t, expected[k]).value[i] else Some(Num(0.0))
    {
      assert expected[k] in expected;
      assert Align(t, expected).rows[i][k] == Series(m, expected[k]).value[i];
    }
  }

  /** An aligned frame with distinct feature names is well formed. */
  lemma AlignWellFormed(t: Table, expected: seq<string>)
    requires WellFormed(t) && Distinct(expected)
    ensures WellFormed(Align(t, expected))
  {
    var m := AddMissing(t, expected);
    var r := Align(t, expected);
    forall i, k | 0 <= i < |r.rows| && 0 <= k < |r.columns| ensures Conforms(r.rows[i][k], r.columns[k].dtype) {
      assert expected[k] in expected;
    }
  }

  /** When every name is already a column, the loop adds nothing. */
  lemma {:induction false} AddMissingNoop(t: Table, cols: seq<string>)
    requires WellFormed(t) && forall c :: c in cols ==> HasColumn(t, c)
    ensures AddMissing(t, cols) == t
  {
    if cols != [] {
      var n := |cols| - 1;
      assert forall c :: c in cols[..n] ==> c in cols;
      AddMissingNoop(t, cols[..n]);
      assert HasColumn(t, cols[n]) by {
        assert cols[n] in cols;
      }
      AddMissingStep(t, cols, n);
      assert cols[..n + 1] == cols;
    }
  }

  /** Aligning an aligned frame again changes nothing. */
  lemma AlignIdempotent(t: Table, expected: seq<string>)
    requires WellFormed(t) && Distinct(expected)
    ensures WellFormed(Align(t, expected))
    ensures Align(Align(t, expected), expected) == Align(t, expected)
  {
    AlignWellFormed(t, expected);
    var a := Align(t, expected);
    AddMissingNoop(a, expected);
    SelectAll(a, expected);
  }

  /** In record terms: the aligned row holds exactly the expected features,
      in the forest's order; a feature the request sent keeps its value, one
      it did not send is 0, and a field that is not a feature is gone. */
  lemma AlignedRecord(fields: seq<(string, Cell)>, expected: seq<string>)
    requires Distinct(Keys(fields))
    ensures var a := Align(FrameOf(fields), expected);
      && Names(a.columns) == expected && |a.rows| == 1 && |a.rows[0]| == |expected|
      && (forall k :: 0 <= k < |expected| && expected[k] in Keys(fields) ==> a.rows[0][k] == Lookup(fields, expected[k]))
      && (forall k :: 0 <= k < |expected| && expected[k] !in Keys(fields) ==> a.rows[0][k] == Some(Num(0.0)))
      && (forall c :: c in Keys(fields) && c !in expected ==> !HasColumn(a, c))
  {
    AlignedCells(FrameOf(fields), expected);
  }

  // ---------------------------------------------------------------------------
  // The endpoint.

  /** What `predict()` answers for `payload` when the server holds `model`. */
  function Respond(model: Option<Forest>, payload: Payload): (r: Response)
    requires payload.Record? ==> Distinct(Keys(payload.fields))
  {
    if !Loaded(model) then Failure(NotLoaded)
    else
      if payload.Unreadable? then Failure(payload.message)
      else
        var aligned := Align(FrameOf(FieldsOf(payload)), model.value.featureNames);
        match model.value.predict(aligned.rows[0])
        case Ok(y) => Success(y, Currency)
        case Err(e) => Failure(Describe(e))
  }

  /** Without a usable forest every request is answered with the load error. */
  lemma NotLoadedAnswer(model: Option<Forest>, payload: Payload)
    requires payload.Record? ==> Distinct(Keys(payload.fields))
    requires !Loaded(model)
    ensures Respond(model, payload) == Failure(NotLoaded)
    ensures Status(Respond(model, payload)) == "error"
  {
  }

  /** A success carries status 'success', currency 'USD' and the forest's
      prediction for the aligned row; every other answer is an error whose
      message is that of the exception raised. */
  lemma AnswerShape(model: Option<Forest>, payload: Payload)
    requires payload.Record? ==> Distinct(Keys(payload.fields))
    ensures var r := Respond(model, payload);
      && (Status(r) == "success" <==> r.Success?)
      && (r.Success? ==>
            Loaded(model) && !payload.Unreadable? && r.currency == "USD"
            && model.value.predict(Align(FrameOf(FieldsOf(payload)), model.value.featureNames).rows[0]) == Ok(r.predictedSales))
      && (Loaded(model) && !payload.Unreadable? ==>
            var p := model.value.predict(Align(FrameOf(FieldsOf(payload)), model.value.featureNames).rows[0]);
            p.Err? ==> r == Failure(Describe(p.error)))
      && (Loaded(model) && payload.Unreadable? ==> r == Failure(payload.message))
  {
  }

  /** A loaded forest answers a body that is not a JSON object with its
      prediction for every feature set to 0. */
  lemma NonObjectPredictsZeros(model: Option<Forest>)
    requires Loaded(model)
    ensures var p := model.value.predict(Zeros(|model.value.featureNames|));
      var r := Respond(model, NotAnObject);
      && (r.Success? <==> p.Ok?)
      && (p.Ok? ==> r == Success(p.value, Currency))
      && (p.Err? ==> r == Failure(Describe(p.error)))
  {
    var names := model.value.featureNames;
    var a := Align(FrameOf([]), names);
    AlignedRecord([], names);
    assert a.rows[0] == Zeros(|names|);
  }

  /** Lines 51-54: every expected column the frame lacks is set to 0, in
      place, one name at a time. */
  method AddMissingColumns(df: DataFrame, expected: seq<string>)
    requires df.Valid()
    modifies df
    ensures df.Valid() && df.Value() == AddMissing(old(df.Value()), expected)
  {
    ghost var t := df.Value();
    var k := 0;
    while k < |expected|
      invariant 0 <= k <= |expected|
      invariant df.Valid() && df.Value() == AddMissing(t, expected[..k])
    {
      AddMissingStep(t, expected, k);
      if expected[k] !in Names(df.columns) {
        df.Assign(expected[k], Numeric, Zeros(|df.rows|));
      }
      k := k + 1;
    }
    assert expected[..k] == expected;
  }

  /** The module-level state of the app: the forest `joblib.load` returned,
      or `None` when loading raised. */
  class Server {
    var model: Option<Forest>

    /** Lines 25-30: keep the loaded forest, or `None` if loading failed. */
    constructor (load: Result<Forest>)
      ensures model == if load.Ok? then Some(load.value) else None
    {
      model := if load.Ok? then Some(load.value) else None;
    }

    /** `predict()`: the guard, the one-row frame, the alignment loop, the
        reorder and the answer. */
    method Predict(payload: Payload) returns (r: Response)
      requires payload.Record? ==> Distinct(Keys(payload.fields))
      ensures r == Respond(model, payload)
    {
      if !(model.Some? && model.value.trees > 0) {
        return Failure(NotLoaded);
      }
      if payload.Unreadable? {
        return Failure(payload.message);
      }
      var inputDf := new DataFrame(FrameOf(FieldsOf(payload)));
      var expected := model.value.featureNames;
      AddMissingColumns(inputDf, expected);
      var aligned := Select(inputDf.Value(), expected).value;
      match model.value.predict(aligned.rows[0]) {
        case Ok(y) => return Success(y, Currency);
        case Err(e) => return Failure(Describe(e));
      }
    }
  }
}
