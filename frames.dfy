/** The DataFrame that a script holds in a variable and changes step by step
    (`df[name] = ...`, `df = df[mask]`). */
module Frames {
  import opened Outcomes
  import opened Tables

  class DataFrame {
    var columns: seq<Column>
    var rows: seq<Row>

    /** The table the frame holds now. */
    function Value(): Table
      reads this
    {
      Table(columns, rows)
    }

    ghost predicate Valid()
      reads this
    {
      WellFormed(Value())
    }

    constructor (t: Table)
      requires WellFormed(t)
      ensures Valid() && Value() == t
    {
      columns := t.columns;
      rows := t.rows;
    }

    /** `df[name] = cells`: the column is overwritten in place or appended;
        every other column and the row count stay as they were. */
    method Assign(name: string, dtype: DType, cells: seq<Cell>)
      requires Valid() && |cells| == |rows|
      requires forall i :: 0 <= i < |cells| ==> Conforms(cells[i], dtype)
      modifies this
      ensures Valid() && Value() == WithColumn(old(Value()), name, dtype, cells)
      ensures |rows| == old(|rows|) && Series(Value(), name) == Ok(cells)
      ensures forall c :: c != name && HasColumn(old(Value()), c) ==> Series(Value(), c) == Series(old(Value()), c)
    {
      var r := WithColumn(Value(), name, dtype, cells);
      columns, rows := r.columns, r.rows;
    }

    /** `df[cols] = df[cols].fillna(v)`: the missing cells of those columns
        are filled in place. */
    method FillNa(cols: seq<string>, v: Value)
      requires Valid()
      modifies this
      ensures Valid() && Value() == Tables.FillNa(old(Value()), cols, v)
    {
      FillNaWellFormed(Value(), cols, v);
      var r := Tables.FillNa(Value(), cols, v);
      columns, rows := r.columns, r.rows;
    }

    /** `df = df[mask]`: only the rows where the mask holds remain, in order. */
    method KeepRows(mask: seq<bool>)
      requires Valid() && |mask| == |rows|
      modifies this
      ensures Valid() && Value() == Where(old(Value()), mask)
      ensures columns == old(columns)
      ensures |rows| == |KeptIndices(mask)|
      ensures forall k :: 0 <= k < |rows| ==> mask[KeptIndices(mask)[k]]
    {
      WhereWellFormed(Value(), mask);
      rows := Where(Value(), mask).rows;
    }
  }
}
