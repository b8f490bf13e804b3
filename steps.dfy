/**
 * The cell rewrites of a cleaning function, taken as the list of statements
 * that perform them. Each statement rewrites some columns by one cell rule;
 * a label that is not a column raises `KeyError`. The lemmas here say once,
 * for every list of statements, what the list does to each cell.
 */
module Steps {
  import opened Wrappers
  import opened Tables

  /**
   * `df[c] = f(df[c])` for each label of `cols` in turn (a loop over the labels,
   * or one such statement when `cols` has a single label), or
   * `df[cols] = df[cols].apply(f)`, which looks every label up at once.
   */
  datatype Step = Each(cols: seq<string>, f: Value -> Value) | AtOnce(cols: seq<string>, f: Value -> Value)

  /** One statement on a table. */
  function Perform(t: Table, s: Step): (r: Result<Table, Error>)
    requires WellFormed(t)
    ensures r.Success? <==> forall c :: c in s.cols ==> c in t.columns
    ensures r.Failure? ==> r.error.labels != [] && forall c :: c in r.error.labels ==> c in s.cols && c !in t.columns
    ensures r.Success? ==> WellFormed(r.value) && r.value.columns == t.columns && |r.value.rows| == |t.rows|
    ensures r.Success? && Distinct(s.cols) ==> forall i, c :: 0 <= i < |t.rows| && c in t.columns ==>
      Cell(r.value, i, c) == (if c in s.cols then s.f(Cell(t, i, c)) else Cell(t, i, c))
  {
    match s
    case Each(cols, f) => MapColumns(t, cols, f)
    case AtOnce(cols, f) => AssignColumns(t, cols, f)
  }

  /** Every label the statements look up, in statement order. */
  function StepLabels(steps: seq<Step>): seq<string> {
    if steps == [] then [] else steps[0].cols + StepLabels(steps[1..])
  }

  /** No statement names a label twice. */
  predicate DistinctSteps(steps: seq<Step>) {
    forall k :: 0 <= k < |steps| ==> Distinct(steps[k].cols)
  }

  /** What the statements do to one cell of column `c`: the rules of those naming `c`, in order. */
  function After(steps: seq<Step>, c: string, v: Value): Value {
    if steps == [] then v
    else After(steps[1..], c, if c in steps[0].cols then steps[0].f(v) else v)
  }

  /**
   * The statements one after another: the first that looks up an absent
   * label raises `KeyError`, naming only labels it looks up that are absent.
   * Labels and row count never change, and when no statement names a label
   * twice, every cell ends up as `After` says.
   */
  function Apply(t: Table, steps: seq<Step>): (r: Result<Table, Error>)
    requires WellFormed(t)
    ensures r.Success? <==> forall c :: c in StepLabels(steps) ==> c in t.columns
    ensures r.Failure? ==> r.error.labels != [] && forall c :: c in r.error.labels ==> c in StepLabels(steps) && c !in t.columns
    ensures r.Success? ==> WellFormed(r.value) && r.value.columns == t.columns && |r.value.rows| == |t.rows|
    ensures r.Success? && DistinctSteps(steps) ==> forall i, c :: 0 <= i < |t.rows| && c in t.columns ==>
      Cell(r.value, i, c) == After(steps, c, Cell(t, i, c))
    decreases |steps|
  {
    if steps == [] then Success(t)
    else
      var next :- Perform(t, steps[0]);
      assert DistinctSteps(steps) ==> DistinctSteps(steps[1..]) && Distinct(steps[0].cols) by {
        if DistinctSteps(steps) {
          assert forall k :: 0 <= k < |steps| - 1 ==> steps[1..][k] == steps[k + 1];
        }
      }
      Apply(next, steps[1..])
  }

  /** A statement over one label is the single assignment `df[c] = f(df[c])`. */
  lemma EachSingle(t: Table, c: string, f: Value -> Value)
    requires WellFormed(t)
    ensures MapColumns(t, [c], f) == MapColumn(t, c, f)
  {
    assert [c][1..] == [];
  }

  /** A label that is in `steps[0]`'s labels or in the later statements' labels is in `StepLabels(steps)`, and conversely. */
  lemma StepLabelsMember(steps: seq<Step>, c: string)
    ensures c in StepLabels(steps) <==> exists k :: 0 <= k < |steps| && c in steps[k].cols
    decreases |steps|
  {
    if steps != [] {
      StepLabelsMember(steps[1..], c);
      if exists k :: 0 <= k < |steps| - 1 && c in steps[1..][k].cols {
        var k :| 0 <= k < |steps| - 1 && c in steps[1..][k].cols;
        assert c in steps[k + 1].cols;
      }
      if exists k :: 0 <= k < |steps| && c in steps[k].cols {
        var k :| 0 <= k < |steps| && c in steps[k].cols;
        assert k == 0 || c in steps[1..][k - 1].cols;
      }
    }
  }

  /** A column no statement names keeps its cells. */
  lemma {:induction false} AfterUnnamed(steps: seq<Step>, c: string, v: Value)
    requires c !in StepLabels(steps)
    ensures After(steps, c, v) == v
    decreases |steps|
  {
    if steps != [] {
      AfterUnnamed(steps[1..], c, v);
    }
  }

  /** A column only statement `j` names ends up rewritten by that statement's rule alone. */
  lemma {:induction false} AfterOnly(steps: seq<Step>, j: nat, c: string, v: Value)
    requires j < |steps| && c in steps[j].cols
    requires forall k :: 0 <= k < |steps| && k != j ==> c !in steps[k].cols
    ensures After(steps, c, v) == steps[j].f(v)
    decreases |steps|
  {
    if j == 0 {
      forall k | 0 <= k < |steps| - 1 ensures c !in steps[1..][k].cols {
        assert steps[1..][k] == steps[k + 1];
      }
      StepLabelsMember(steps[1..], c);
      AfterUnnamed(steps[1..], c, steps[0].f(v));
    } else {
      forall k | 0 <= k < |steps| - 1 && k != j - 1 ensures c !in steps[1..][k].cols {
        assert steps[1..][k] == steps[k + 1];
      }
      assert c !in steps[0].cols;
      AfterOnly(steps[1..], j - 1, c, v);
    }
  }

  /** Statements over one label each never name a label twice. */
  lemma SingleLabelSteps(steps: seq<Step>)
    requires forall k :: 0 <= k < |steps| ==> |steps[k].cols| == 1
    ensures DistinctSteps(steps)
  {
  }

  /**
   * The statements of `steps` from position `k` on. A cleaning function runs
   * its statements one at a time; this names what is left of the list after
   * the first `k` of them.
   */
  function ApplyFrom(t: Table, steps: seq<Step>, k: nat): (r: Result<Table, Error>)
    requires WellFormed(t) && k <= |steps|
    ensures r.Success? ==> WellFormed(r.value)
    decreases |steps| - k
  {
    if k == |steps| then Success(t)
    else
      var next :- Perform(t, steps[k]);
      ApplyFrom(next, steps, k + 1)
  }

  /** Running the statements from position `k` on is running the suffix `steps[k..]`. */
  lemma {:induction false} ApplyFromSuffix(t: Table, steps: seq<Step>, k: nat)
    requires WellFormed(t) && k <= |steps|
    ensures ApplyFrom(t, steps, k) == Apply(t, steps[k..])
    decreases |steps| - k
  {
    if k < |steps| {
      assert steps[k..][0] == steps[k];
      assert steps[k..][1..] == steps[k + 1..];
      match Perform(t, steps[k])
      case Failure(_) =>
      case Success(next) => ApplyFromSuffix(next, steps, k + 1);
    }
  }

  /** Running the statements from position 0 on is running them all. */
  lemma ApplyFromStart(t: Table, steps: seq<Step>)
    requires WellFormed(t)
    ensures ApplyFrom(t, steps, 0) == Apply(t, steps)
  {
    ApplyFromSuffix(t, steps, 0);
    assert steps[0..] == steps;
  }

  /**
   * After statement `k`, a rewrite of the labels `cols` one at a time, took
   * `t` to `next`, what is left to run is the rest of the list; when it
   * raised, the whole run raises the same error.
   */
  lemma ContinueEach(t: Table, steps: seq<Step>, k: nat, cols: seq<string>, f: Value -> Value, r: Outcome<Error>, next: Table)
    requires WellFormed(t) && k < |steps| && steps[k] == Each(cols, f)
    requires r == MapColumns(t, cols, f).ToOutcome() && (r.Pass? ==> next == MapColumns(t, cols, f).value)
    ensures r.Pass? ==> WellFormed(next) && ApplyFrom(t, steps, k) == ApplyFrom(next, steps, k + 1)
    ensures r.Fail? ==> ApplyFrom(t, steps, k) == Failure(r.error)
  {
  }

  /** The same for statement `k` when it rewrites the labels `cols` at once. */
  lemma ContinueAtOnce(t: Table, steps: seq<Step>, k: nat, cols: seq<string>, f: Value -> Value, r: Outcome<Error>, next: Table)
    requires WellFormed(t) && k < |steps| && steps[k] == AtOnce(cols, f)
    requires r == AssignColumns(t, cols, f).ToOutcome() && (r.Pass? ==> next == AssignColumns(t, cols, f).value)
    ensures r.Pass? ==> WellFormed(next) && ApplyFrom(t, steps, k) == ApplyFrom(next, steps, k + 1)
    ensures r.Fail? ==> ApplyFrom(t, steps, k) == Failure(r.error)
  {
  }
}
