/**
 * A data frame as the cleaning functions see it: an object whose labels and
 * rows are changed in place. Each method performs one pandas operation and is
 * specified by the function on tables that states its effect.
 */
module Frames {
  import opened Wrappers
  import opened Tables

  class Frame {
    var columns: seq<string>
    var rows: seq<Row>

    /** The table the frame holds. */
    function Value(): Table
      reads this
    {
      Table(columns, rows)
    }

    predicate Valid()
      reads this
    {
      WellFormed(Value())
    }

    constructor (t: Table)
      requires WellFormed(t)
      ensures Valid() && Value() == t
    {
      columns := t.columns;
      rows := t.rows;
    }

    /** `df.rename(columns=m, inplace=True)` */
    method Rename(m: map<string, string>)
      requires Valid()
      modifies this
      ensures Valid() && Value() == Tables.Rename(old(Value()), m)
    {
      var t := Tables.Rename(Value(), m);
      columns := t.columns;
    }

    /** `df[c] = f(df[c])`; a missing column raises `KeyError` and leaves the frame as it was. */
    method SetColumn(c: string, f: Value -> Value) returns (r: Outcome<Error>)
      requires Valid()
      modifies this
      ensures Valid()
      ensures r == MapColumn(old(Value()), c, f).ToOutcome()
      ensures r.Pass? ==> Value() == MapColumn(old(Value()), c, f).value
      ensures r.Fail? ==> Value() == old(Value())
    {
      var result := MapColumn(Value(), c, f);
      match result
      case Failure(e) =>
        r := Fail(e);
      case Success(t) =>
        rows := t.rows;
        r := Pass;
    }

    /**
     * `for c in cols: df[c] = f(df[c])`. The first absent label raises
     * `KeyError`; the labels before it have been rewritten by then.
     */
    method SetEach(cols: seq<string>, f: Value -> Value) returns (r: Outcome<Error>)
      requires Valid()
      modifies this
      ensures Valid()
      ensures r == MapColumns(old(Value()), cols, f).ToOutcome()
      ensures r.Pass? ==> Value() == MapColumns(old(Value()), cols, f).value
    {
      ghost var t := Value();
      r := Pass;
      for j := 0 to |cols|
        invariant Valid() && r.Pass?
        invariant MapColumns(t, cols, f) == MapColumns(Value(), cols[j..], f)
      {
        assert cols[j..][0] == cols[j];
        r := SetColumn(cols[j], f);
        if r.Fail? {
          return;
        }
        assert cols[j..][1..] == cols[j + 1..];
      }
      assert cols[|cols|..] == [];
    }

    /** `df[cols] = df[cols].apply(f)`; an absent label raises `KeyError` before anything changes. */
    method SetColumns(cols: seq<string>, f: Value -> Value) returns (r: Outcome<Error>)
      requires Valid()
      modifies this
      ensures Valid()
      ensures r == AssignColumns(old(Value()), cols, f).ToOutcome()
      ensures r.Pass? ==> Value() == AssignColumns(old(Value()), cols, f).value
      ensures r.Fail? ==> Value() == old(Value())
    {
      var result := AssignColumns(Value(), cols, f);
      match result
      case Failure(e) =>
        r := Fail(e);
      case Success(t) =>
        rows := t.rows;
        r := Pass;
    }

    /** `df.drop(columns=labels, inplace=True)`; an absent label raises `KeyError` and nothing is dropped. */
    method Drop(labels: seq<string>) returns (r: Outcome<Error>)
      requires Valid()
      modifies this
      ensures Valid()
      ensures r == Tables.Drop(old(Value()), labels).ToOutcome()
      ensures r.Pass? ==> Value() == Tables.Drop(old(Value()), labels).value
      ensures r.Fail? ==> Value() == old(Value())
    {
      var result := Tables.Drop(Value(), labels);
      match result
      case Failure(e) =>
        r := Fail(e);
      case Success(t) =>
        columns := t.columns;
        rows := t.rows;
        r := Pass;
    }

    /** `df.columns = df.columns.str.lower()` */
    method LowerColumnNames()
      requires Valid()
      modifies this
      ensures Valid() && Value() == Tables.LowerColumnNames(old(Value()))
    {
      var t := Tables.LowerColumnNames(Value());
      columns := t.columns;
    }
  }
}
