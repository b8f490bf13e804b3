/**
 * The merge step of the pipeline (`merge_and_insert_data` in
 * `Century_Health.py`): the cleaned tables, pulled from the task store, are
 * merged into one master table. The patients are joined with their gender
 * first; then symptoms, encounters, conditions and medications are left-merged
 * in, in that order, each on its own key columns.
 */
module CenturyHealth {
  import opened Wrappers
  import opened Tables
  import opened Join
  import opened Frames
  import opened Transformation

  /** The datasets the chain merges into the patients. */
  datatype Dataset = Symptoms | Encounters | Conditions | Medications

  /** The cleaned tables the merge step pulls from the task store. */
  datatype Pulled = Pulled(patients: Table, gender: Table, symptoms: Table, encounters: Table, conditions: Table, medications: Table)

  predicate PulledWellFormed(p: Pulled) {
    WellFormed(p.patients) && WellFormed(p.gender) && WellFormed(p.symptoms) &&
    WellFormed(p.encounters) && WellFormed(p.conditions) && WellFormed(p.medications)
  }

  /** `datasets_to_merge[dataset]` */
  function Pick(p: Pulled, d: Dataset): (t: Table)
    ensures PulledWellFormed(p) ==> WellFormed(t)
  {
    match d
    case Symptoms => p.symptoms
    case Encounters => p.encounters
    case Conditions => p.conditions
    case Medications => p.medications
  }

  /** A merge of the chain: the dataset and the key columns it is merged on. */
  type PlannedMerge = (Dataset, seq<string>)

  /** The merges of the loop, in order; a single key label is a one-label key list. */
  const MergePlan: seq<PlannedMerge> := [
    (Symptoms, ["patient_id"]),
    (Encounters, ["patient_id"]),
    (Conditions, ["encounter_id", "patient_id"]),
    (Medications, ["encounter_id", "patient_id", "payer_id"])
  ]

  /** Left-merging the datasets of `plan` into `merged`, one after another. */
  function Chain(merged: Table, p: Pulled, plan: seq<PlannedMerge>): (r: Result<Table, Error>)
    requires WellFormed(merged) && PulledWellFormed(p)
    ensures r.Success? ==> WellFormed(r.value)
    ensures r.Success? ==> |merged.columns| <= |r.value.columns| && r.value.columns[..|merged.columns|] == merged.columns
    decreases |plan|
  {
    if plan == [] then Success(merged)
    else
      var next :- MergeDatasets(merged, Pick(p, plan[0].0), plan[0].1, Left);
      var r := Chain(next, p, plan[1..]);
      assert r.Success? ==> r.value.columns[..|merged.columns|] == r.value.columns[..|next.columns|][..|merged.columns|];
      r
  }

  /** The master table the merge step saves. */
  function MasterTable(p: Pulled): (r: Result<Table, Error>)
    requires PulledWellFormed(p)
  {
    var patients :- PatientsWithGender(p.patients, p.gender);
    Chain(patients, p, MergePlan)
  }

  /**
   * `merge_and_insert_data`: the patients are merged with their gender, then
   * the datasets of the plan are merged in. An error of any merge is raised
   * again.
   */
  method MergeAndInsertData(p: Pulled) returns (r: Result<Table, Error>)
    requires PulledWellFormed(p)
    ensures r == MasterTable(p)
  {
    var patientsFrame := new Frame(p.patients);
    var genderFrame := new Frame(p.gender);
    var patients := MergePatientsAndGender(patientsFrame, genderFrame);
    if patients.Failure? {
      return Failure(patients.error);
    }
    r := MergeEach(patients.value.Value(), p, MergePlan);
  }

  /** The loop of `merge_and_insert_data`: `merged_df` is reassigned once per merge of the plan. */
  method MergeEach(start: Table, p: Pulled, plan: seq<PlannedMerge>) returns (r: Result<Table, Error>)
    requires WellFormed(start) && PulledWellFormed(p)
    ensures r == Chain(start, p, plan)
  {
    var merged := start;
    for n := 0 to |plan|
      invariant WellFormed(merged)
      invariant Chain(start, p, plan) == Chain(merged, p, plan[n..])
    {
      var (dataset, key) := plan[n];
      assert plan[n..][0] == plan[n];
      var next := MergeDatasets(merged, Pick(p, dataset), key, Left);
      if next.Failure? {
        return Failure(next.error);
      }
      assert plan[n..][1..] == plan[n + 1..];
      merged := next.value;
    }
    assert plan[|plan|..] == [];
    return Success(merged);
  }

  // What the chain keeps.

  /** A chain of left merges loses no row of the table it starts from. */
  lemma {:induction false} ChainKeepsRowCount(merged: Table, p: Pulled, plan: seq<PlannedMerge>)
    requires WellFormed(merged) && PulledWellFormed(p) && Chain(merged, p, plan).Success?
    ensures |Chain(merged, p, plan).value.rows| >= |merged.rows|
    decreases |plan|
  {
    if plan != [] {
      var d, keys := Pick(p, plan[0].0), plan[0].1;
      var next := MergeDatasets(merged, d, keys, Left).value;
      MergeRowCount(merged, d, keys, keys, Left);
      ChainKeepsRowCount(next, p, plan[1..]);
    }
  }

  /** Every row of the starting table begins some row of the chain's result. */
  lemma {:induction false} ChainKeepsRows(merged: Table, p: Pulled, plan: seq<PlannedMerge>, i: nat) returns (j: nat)
    requires WellFormed(merged) && PulledWellFormed(p) && Chain(merged, p, plan).Success? && i < |merged.rows|
    ensures var out := Chain(merged, p, plan).value;
      j < |out.rows| && out.rows[j][..|merged.columns|] == merged.rows[i]
    decreases |plan|
  {
    if plan == [] {
      j := i;
      assert merged.rows[i][..|merged.columns|] == merged.rows[i];
    } else {
      var d, keys := Pick(p, plan[0].0), plan[0].1;
      var next := MergeDatasets(merged, d, keys, Left).value;
      var out := Chain(merged, p, plan).value;
      LeftMergeKeepsLeftRows(merged, d, keys, keys);
      var j' :| 0 <= j' < |next.rows| && next.rows[j'][..|merged.columns|] == merged.rows[i];
      j := ChainKeepsRows(next, p, plan[1..], j');
      assert out.rows[j][..|merged.columns|] == out.rows[j][..|next.columns|][..|merged.columns|];
    }
  }

  /** `c` is a label of one of the datasets `plan` merges in. */
  predicate PlannedLabel(p: Pulled, plan: seq<PlannedMerge>, c: string)
    decreases |plan|
  {
    plan != [] && (c in Pick(p, plan[0].0).columns || PlannedLabel(p, plan[1..], c))
  }

  /** A label of the result is a label of the starting table or of a merged dataset, and every such label is one. */
  lemma {:induction false} ChainLabels(merged: Table, p: Pulled, plan: seq<PlannedMerge>, c: string)
    requires WellFormed(merged) && PulledWellFormed(p) && Chain(merged, p, plan).Success?
    ensures c in Chain(merged, p, plan).value.columns <==> c in merged.columns || PlannedLabel(p, plan, c)
    decreases |plan|
  {
    if plan != [] {
      var d, keys := Pick(p, plan[0].0), plan[0].1;
      var next := MergeDatasets(merged, d, keys, Left).value;
      MergeDatasetsLabels(merged, d, keys, Left);
      ChainLabels(next, p, plan[1..], c);
    }
  }

  /** The master table has at least as many rows as the patients merged with their gender. */
  lemma MasterTableRowCount(p: Pulled)
    requires PulledWellFormed(p) && MasterTable(p).Success?
    ensures PatientsWithGender(p.patients, p.gender).Success?
    ensures |MasterTable(p).value.rows| >= |PatientsWithGender(p.patients, p.gender).value.rows|
  {
    ChainKeepsRowCount(PatientsWithGender(p.patients, p.gender).value, p, MergePlan);
  }

  /**
   * Every row of the patients merged with their gender is the start of some
   * row of the master table, whose labels start with theirs.
   */
  lemma MasterTableKeepsPatients(p: Pulled, i: nat) returns (j: nat)
    requires PulledWellFormed(p) && MasterTable(p).Success?
    requires PatientsWithGender(p.patients, p.gender).Success? && i < |PatientsWithGender(p.patients, p.gender).value.rows|
    ensures var patients := PatientsWithGender(p.patients, p.gender).value;
      var master := MasterTable(p).value;
      master.columns[..|patients.columns|] == patients.columns &&
      j < |master.rows| && master.rows[j][..|patients.columns|] == patients.rows[i]
  {
    j := ChainKeepsRows(PatientsWithGender(p.patients, p.gender).value, p, MergePlan, i);
  }

  /** The labels of the master table are those of the six tables, without the gender table's `Id`. */
  lemma MasterTableLabels(p: Pulled)
    requires PulledWellFormed(p) && MasterTable(p).Success?
    ensures PatientsWithGender(p.patients, p.gender).Success?
    ensures forall c :: c in MasterTable(p).value.columns <==>
      ((c in p.patients.columns || c in p.gender.columns) && c != "Id") ||
      c in p.symptoms.columns || c in p.encounters.columns || c in p.conditions.columns || c in p.medications.columns
  {
    var patients := PatientsWithGender(p.patients, p.gender).value;
    PatientsWithGenderOutcome(p.patients, p.gender);
    forall c ensures c in MasterTable(p).value.columns <==>
      ((c in p.patients.columns || c in p.gender.columns) && c != "Id") ||
      c in p.symptoms.columns || c in p.encounters.columns || c in p.conditions.columns || c in p.medications.columns
    {
      ChainLabels(patients, p, MergePlan, c);
      PlanLabels(p, c);
    }
  }

  /** The datasets of the plan are the four pulled tables other than patients and gender. */
  lemma PlanLabels(p: Pulled, c: string)
    ensures PlannedLabel(p, MergePlan, c) <==>
      c in p.symptoms.columns || c in p.encounters.columns || c in p.conditions.columns || c in p.medications.columns
  {
    var plan := MergePlan;
    assert plan[1..][1..][1..][1..] == [];
  }

  /**
   * An error is raised again, not swallowed: a failed gender merge is the
   * result, and so is a symptoms table without the patient column.
   */
  lemma MasterTableErrors(p: Pulled)
    requires PulledWellFormed(p)
    ensures PatientsWithGender(p.patients, p.gender).Failure? ==>
      MasterTable(p) == Failure(PatientsWithGender(p.patients, p.gender).error)
    ensures PatientsWithGender(p.patients, p.gender).Success? && "patient_id" !in p.symptoms.columns ==>
      MasterTable(p) == Failure(KeyError(["patient_id"]))
  {
    var patients := PatientsWithGender(p.patients, p.gender);
    if patients.Success? && "patient_id" !in p.symptoms.columns {
      var plan := MergePlan;
      assert plan[0] == (Symptoms, ["patient_id"]);
      var first := MergeDatasets(patients.value, p.symptoms, ["patient_id"], Left);
      assert first.Failure? && first.error == KeyError(["patient_id"]);
      assert Chain(patients.value, p, plan) == Failure(first.error);
    }
  }

  // A fan-out: one patient with two encounters and three conditions, the
  // encounter and condition tables holding only the key columns.

  function OnePatient(pid: string, p: Value): Table {
    Table([pid], [[p]])
  }

  function TwoEncounters(pid: string, eid: string, p: Value, e1: Value, e2: Value): Table {
    Table([pid, eid], [[p, e1], [p, e2]])
  }

  function ThreeConditions(pid: string, eid: string, p: Value, e1: Value, e2: Value): Table {
    Table([pid, eid], [[p, e1], [p, e2], [p, e1]])
  }

  /** The key and kept positions of the encounter merge. */
  lemma EncounterPositions(pid: string, eid: string, p: Value, e1: Value, e2: Value)
    requires pid != eid
    ensures KeyPositions(OnePatient(pid, p), [pid]) == [0]
    ensures KeyPositions(TwoEncounters(pid, eid, p, e1, e2), [pid]) == [0]
    ensures RightKept(TwoEncounters(pid, eid, p, e1, e2), [pid], [pid]) == [1]
  {
    var r := TwoEncounters(pid, eid, p, e1, e2);
    SharedKeysSame([pid]);
    assert KeptFrom(r.columns, [pid], 2) == [];
    assert KeptFrom(r.columns, [pid], 1) == [1];
  }

  /** Joining the encounters to the patient on the patient column gives the encounters themselves. */
  lemma EncounterFanOut(pid: string, eid: string, p: Value, e1: Value, e2: Value)
    requires pid != eid
    ensures MergeDatasets(OnePatient(pid, p), TwoEncounters(pid, eid, p, e1, e2), [pid], Left)
      == Success(TwoEncounters(pid, eid, p, e1, e2))
  {
    var l, r := OnePatient(pid, p), TwoEncounters(pid, eid, p, e1, e2);
    EncounterPositions(pid, eid, p, e1, e2);
    var li, ri, keep := [0], [0], [1];
    assert Project(l.rows[0], li) == [p];
    assert MatchesFrom([p], r, ri, 2) == [];
    assert MatchesFrom([p], r, ri, 1) == [1];
    assert MatchesFrom([p], r, ri, 0) == [0, 1];
    assert l.rows[0] + Project(r.rows[0], keep) == r.rows[0];
    assert l.rows[0] + Project(r.rows[1], keep) == r.rows[1];
    assert JoinRow(l.rows[0], li, r, ri, keep, Left) == r.rows;
    assert JoinFrom(l, li, r, ri, keep, Left, 1) == [];
    assert JoinFrom(l, li, r, ri, keep, Left, 0) == r.rows;
    assert l.columns + Project(r.columns, keep) == r.columns;
  }

  /** The key and kept positions of the condition merge. */
  lemma ConditionPositions(pid: string, eid: string, p: Value, e1: Value, e2: Value)
    requires pid != eid
    ensures KeyPositions(TwoEncounters(pid, eid, p, e1, e2), [eid, pid]) == [1, 0]
    ensures KeyPositions(ThreeConditions(pid, eid, p, e1, e2), [eid, pid]) == [1, 0]
    ensures RightKept(ThreeConditions(pid, eid, p, e1, e2), [eid, pid], [eid, pid]) == []
  {
    var r := ThreeConditions(pid, eid, p, e1, e2);
    SharedKeysSame([eid, pid]);
    assert KeptFrom(r.columns, [eid, pid], 2) == [];
    assert KeptFrom(r.columns, [eid, pid], 1) == [];
  }

  /** The first encounter's key matches two conditions. */
  lemma FirstEncounterMatches(pid: string, eid: string, p: Value, e1: Value, e2: Value)
    requires e1 != e2
    ensures |MatchesFrom([e1, p], ThreeConditions(pid, eid, p, e1, e2), [1, 0], 0)| == 2
  {
    var r, ri, key := ThreeConditions(pid, eid, p, e1, e2), [1, 0], [e1, p];
    assert Project(r.rows[0], ri) == key && Project(r.rows[2], ri) == key;
    assert Project(r.rows[1], ri)[0] == e2;
    MatchesStep(key, r, ri, 0);
    MatchesStep(key, r, ri, 1);
    MatchesStep(key, r, ri, 2);
    assert MatchesFrom(key, r, ri, 3) == [];
  }

  /** The second encounter's key matches one condition. */
  lemma SecondEncounterMatches(pid: string, eid: string, p: Value, e1: Value, e2: Value)
    requires e1 != e2
    ensures |MatchesFrom([e2, p], ThreeConditions(pid, eid, p, e1, e2), [1, 0], 0)| == 1
  {
    var r, ri, key := ThreeConditions(pid, eid, p, e1, e2), [1, 0], [e2, p];
    assert Project(r.rows[1], ri) == key;
    assert Project(r.rows[0], ri)[0] == e1 && Project(r.rows[2], ri)[0] == e1;
    MatchesStep(key, r, ri, 0);
    MatchesStep(key, r, ri, 1);
    MatchesStep(key, r, ri, 2);
    assert MatchesFrom(key, r, ri, 3) == [];
  }

  /** Joining the conditions on encounter and patient then gives one row per condition. */
  lemma ConditionFanOut(pid: string, eid: string, p: Value, e1: Value, e2: Value)
    requires pid != eid && e1 != e2
    ensures MergeDatasets(TwoEncounters(pid, eid, p, e1, e2), ThreeConditions(pid, eid, p, e1, e2), [eid, pid], Left).Success?
    ensures |MergeDatasets(TwoEncounters(pid, eid, p, e1, e2), ThreeConditions(pid, eid, p, e1, e2), [eid, pid], Left).value.rows| == 3
  {
    ConditionPositions(pid, eid, p, e1, e2);
    ConditionJoinSize(pid, eid, p, e1, e2);
  }

  /** The join proper: each encounter row gives one output row per condition that matches it. */
  lemma ConditionJoinSize(pid: string, eid: string, p: Value, e1: Value, e2: Value)
    requires e1 != e2
    ensures |JoinFrom(TwoEncounters(pid, eid, p, e1, e2), [1, 0], ThreeConditions(pid, eid, p, e1, e2), [1, 0], [], Left, 0)| == 3
  {
    var l, r := TwoEncounters(pid, eid, p, e1, e2), ThreeConditions(pid, eid, p, e1, e2);
    FirstEncounterMatches(pid, eid, p, e1, e2);
    SecondEncounterMatches(pid, eid, p, e1, e2);
    var li, ri, keep: seq<nat> := [1, 0], [1, 0], [];
    assert Project(l.rows[0], li) == [e1, p] && Project(l.rows[1], li) == [e2, p];
    JoinRowSize(l.rows[0], li, r, ri, keep, Left);
    JoinRowSize(l.rows[1], li, r, ri, keep, Left);
    JoinFromStep(l, li, r, ri, keep, Left, 0);
    JoinFromStep(l, li, r, ri, keep, Left, 1);
    assert JoinFrom(l, li, r, ri, keep, Left, 2) == [];
  }

  /**
   * One patient with two encounters and three conditions split across them:
   * two rows after the encounter merge and three after the condition merge,
   * on the key columns of the merge plan.
   */
  lemma FanOutExample(p: Value, e1: Value, e2: Value)
    requires e1 != e2
    ensures MergePlan[1] == (Encounters, ["patient_id"]) && MergePlan[2] == (Conditions, ["encounter_id", "patient_id"])
    ensures var e := MergeDatasets(OnePatient("patient_id", p), TwoEncounters("patient_id", "encounter_id", p, e1, e2), ["patient_id"], Left);
      e.Success? && |e.value.rows| == 2 &&
      var c := MergeDatasets(e.value, ThreeConditions("patient_id", "encounter_id", p, e1, e2), ["encounter_id", "patient_id"], Left);
      c.Success? && |c.value.rows| == 3
  {
    assert |"patient_id"| != |"encounter_id"|;
    EncounterFanOut("patient_id", "encounter_id", p, e1, e2);
    ConditionFanOut("patient_id", "encounter_id", p, e1, e2);
  }
}
