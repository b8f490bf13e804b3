/**
 * The functions of `utils/transformation.py`. Each cleaning function changes
 * the frame it is given, statement by statement, and is proved to leave it
 * holding the table its specification in module `Cleaning` describes, or to
 * raise the error that specification names. The two merge functions build
 * new tables.
 */
module Transformation {
  import opened Wrappers
  import opened Tables
  import opened Cells
  import opened Steps
  import opened Cleaning
  import opened Frames
  import opened Join

  // One statement of a cleaning function, run on the frame. `steps[k]` is the
  // statement, `t` the table the frame holds before it and `next` the table
  // after it; what remains of the run is then `steps` from `k + 1` on.

  /** `df[c] = f(df[c])` as statement `k`. */
  method RunColumn(df: Frame, c: string, f: Value -> Value, ghost steps: seq<Step>, ghost k: nat, ghost t: Table)
    returns (r: Outcome<Error>, ghost next: Table)
    requires df.Valid() && df.Value() == t && k < |steps| && steps[k] == Each([c], f)
    modifies df
    ensures df.Valid() && df.Value() == next
    ensures r.Pass? ==> ApplyFrom(t, steps, k) == ApplyFrom(next, steps, k + 1)
    ensures r.Fail? ==> ApplyFrom(t, steps, k) == Failure(r.error)
  {
    r := df.SetColumn(c, f);
    next := df.Value();
    EachSingle(t, c, f);
    ContinueEach(t, steps, k, [c], f, r, next);
  }

  /** `for c in cols: df[c] = f(df[c])` as statement `k`. */
  method RunEach(df: Frame, cols: seq<string>, f: Value -> Value, ghost steps: seq<Step>, ghost k: nat, ghost t: Table)
    returns (r: Outcome<Error>, ghost next: Table)
    requires df.Valid() && df.Value() == t && k < |steps| && steps[k] == Each(cols, f)
    modifies df
    ensures df.Valid() && df.Value() == next
    ensures r.Pass? ==> ApplyFrom(t, steps, k) == ApplyFrom(next, steps, k + 1)
    ensures r.Fail? ==> ApplyFrom(t, steps, k) == Failure(r.error)
  {
    r := df.SetEach(cols, f);
    next := df.Value();
    ContinueEach(t, steps, k, cols, f, r, next);
  }

  /** `df[cols] = df[cols].apply(f)` as statement `k`. */
  method RunAtOnce(df: Frame, cols: seq<string>, f: Value -> Value, ghost steps: seq<Step>, ghost k: nat, ghost t: Table)
    returns (r: Outcome<Error>, ghost next: Table)
    requires df.Valid() && df.Value() == t && k < |steps| && steps[k] == AtOnce(cols, f)
    modifies df
    ensures df.Valid() && df.Value() == next
    ensures r.Pass? ==> ApplyFrom(t, steps, k) == ApplyFrom(next, steps, k + 1)
    ensures r.Fail? ==> ApplyFrom(t, steps, k) == Failure(r.error)
  {
    r := df.SetColumns(cols, f);
    next := df.Value();
    ContinueAtOnce(t, steps, k, cols, f, r, next);
  }

  // The cell rewrites of each cleaning function, in the source's order, as
  // statements `k` on of `S`.

  /** Lines 19-20 of `clean_conditions_data`. */
  method RewriteConditionCells(df: Frame, ghost S: seq<Step>, ghost k: nat) returns (r: Outcome<Error>)
    requires df.Valid()
    requires k + 2 <= |S| && S[k] == Each(["conditional_description"], TitleCell) && S[k + 1] == Each(["patient_id"], LowerCell)
    modifies df
    ensures df.Valid()
    ensures r.Fail? ==> ApplyFrom(old(df.Value()), S, k) == Failure(r.error)
    ensures r.Pass? ==> ApplyFrom(old(df.Value()), S, k) == ApplyFrom(df.Value(), S, k + 2)
  {
    ghost var t := df.Value();
    r, t := RunColumn(df, "conditional_description", TitleCell, S, k, t);
    if r.Fail? { return; }
    r, t := RunColumn(df, "patient_id", LowerCell, S, k + 1, t);
  }

  /** `clean_conditions_data(df)` */
  method CleanConditionsData(df: Frame) returns (r: Outcome<Error>)
    requires df.Valid()
    modifies df
    ensures df.Valid()
    ensures r == CleanConditions(old(df.Value())).ToOutcome()
    ensures r.Pass? ==> df.Value() == CleanConditions(old(df.Value())).value
  {
    df.Rename(ConditionRenames);
    ghost var u := df.Value();
    r := RewriteConditionCells(df, ConditionSteps, 0);
    ApplyFromStart(u, ConditionSteps);
    if r.Fail? {
      return;
    }
    r := df.Drop(ConditionDrops);
  }

  /** Lines 51-66 of `clean_medications_data`. */
  method RewriteMedicationCells(df: Frame, ghost S: seq<Step>, ghost k: nat) returns (r: Outcome<Error>)
    requires df.Valid()
    requires k + 6 <= |S| && S[k] == Each(LowercaseColumns, LowerCell) && S[k + 1] == Each(["drug_description"], TitleCell)
    requires S[k + 2] == AtOnce(IntColumns, CoerceIntCell) && S[k + 3] == AtOnce(FloatColumns, ToNumber)
    requires S[k + 4] == Each(["start_date"], ToDate) && S[k + 5] == Each(["end_date"], ToDate)
    modifies df
    ensures df.Valid()
    ensures r.Fail? ==> ApplyFrom(old(df.Value()), S, k) == Failure(r.error)
    ensures r.Pass? ==> ApplyFrom(old(df.Value()), S, k) == ApplyFrom(df.Value(), S, k + 6)
  {
    ghost var t := df.Value();
    r, t := RunEach(df, LowercaseColumns, LowerCell, S, k, t);
    if r.Fail? { return; }
    r, t := RunColumn(df, "drug_description", TitleCell, S, k + 1, t);
    if r.Fail? { return; }
    r, t := RunAtOnce(df, IntColumns, CoerceIntCell, S, k + 2, t);
    if r.Fail? { return; }
    r, t := RunAtOnce(df, FloatColumns, ToNumber, S, k + 3, t);
    if r.Fail? { return; }
    r, t := RunColumn(df, "start_date", ToDate, S, k + 4, t);
    if r.Fail? { return; }
    r, t := RunColumn(df, "end_date", ToDate, S, k + 5, t);
  }

  /** `clean_medications_data(df)` */
  method CleanMedicationsData(df: Frame) returns (r: Outcome<Error>)
    requires df.Valid()
    modifies df
    ensures df.Valid()
    ensures r == CleanMedications(old(df.Value())).ToOutcome()
    ensures r.Pass? ==> df.Value() == CleanMedications(old(df.Value())).value
  {
    df.Rename(MedicationRenames);
    ghost var u := df.Value();
    r := RewriteMedicationCells(df, MedicationSteps, 0);
    ApplyFromStart(u, MedicationSteps);
    if r.Fail? {
      return;
    }
    r := df.Drop(MedicationDrops);
  }

  /** Lines 97-105 of `clean_patients_data`: the identifier, the dates and the names. */
  method RewritePatientNames(df: Frame, ghost S: seq<Step>, ghost k: nat) returns (r: Outcome<Error>)
    requires df.Valid()
    requires k + 5 <= |S| && S[k] == Each(["patient_id"], LowerCell)
    requires S[k + 1] == Each(["birth_date"], ToDate) && S[k + 2] == Each(["death_date"], ToDate)
    requires S[k + 3] == Each(["first_name"], NameCell) && S[k + 4] == Each(["last_name"], NameCell)
    modifies df
    ensures df.Valid()
    ensures r.Fail? ==> ApplyFrom(old(df.Value()), S, k) == Failure(r.error)
    ensures r.Pass? ==> ApplyFrom(old(df.Value()), S, k) == ApplyFrom(df.Value(), S, k + 5)
  {
    ghost var t := df.Value();
    r, t := RunColumn(df, "patient_id", LowerCell, S, k, t);
    if r.Fail? { return; }
    r, t := RunColumn(df, "birth_date", ToDate, S, k + 1, t);
    if r.Fail? { return; }
    r, t := RunColumn(df, "death_date", ToDate, S, k + 2, t);
    if r.Fail? { return; }
    r, t := RunColumn(df, "first_name", NameCell, S, k + 3, t);
    if r.Fail? { return; }
    r, t := RunColumn(df, "last_name", NameCell, S, k + 4, t);
  }

  /** Lines 108-116 of `clean_patients_data`: the places, the coordinates and the income. */
  method RewritePatientPlaces(df: Frame, ghost S: seq<Step>, ghost k: nat) returns (r: Outcome<Error>)
    requires df.Valid()
    requires k + 5 <= |S| && S[k] == Each(["birth_place"], PlaceCell) && S[k + 1] == Each(["county"], CountyCell)
    requires S[k + 2] == Each(["latitude"], LatitudeCell) && S[k + 3] == Each(["longitude"], ToNumber)
    requires S[k + 4] == Each(["income"], ToNumber)
    modifies df
    ensures df.Valid()
    ensures r.Fail? ==> ApplyFrom(old(df.Value()), S, k) == Failure(r.error)
    ensures r.Pass? ==> ApplyFrom(old(df.Value()), S, k) == ApplyFrom(df.Value(), S, k + 5)
  {
    ghost var t := df.Value();
    r, t := RunColumn(df, "birth_place", PlaceCell, S, k, t);
    if r.Fail? { return; }
    r, t := RunColumn(df, "county", CountyCell, S, k + 1, t);
    if r.Fail? { return; }
    r, t := RunColumn(df, "latitude", LatitudeCell, S, k + 2, t);
    if r.Fail? { return; }
    r, t := RunColumn(df, "longitude", ToNumber, S, k + 3, t);
    if r.Fail? { return; }
    r, t := RunColumn(df, "income", ToNumber, S, k + 4, t);
  }

  /** Lines 97-116 of `clean_patients_data`. */
  method RewritePatientCells(df: Frame, ghost S: seq<Step>, ghost k: nat) returns (r: Outcome<Error>)
    requires df.Valid()
    requires k + 10 <= |S| && S[k] == Each(["patient_id"], LowerCell)
    requires S[k + 1] == Each(["birth_date"], ToDate) && S[k + 2] == Each(["death_date"], ToDate)
    requires S[k + 3] == Each(["first_name"], NameCell) && S[k + 4] == Each(["last_name"], NameCell)
    requires S[k + 5] == Each(["birth_place"], PlaceCell) && S[k + 6] == Each(["county"], CountyCell)
    requires S[k + 7] == Each(["latitude"], LatitudeCell) && S[k + 8] == Each(["longitude"], ToNumber)
    requires S[k + 9] == Each(["income"], ToNumber)
    modifies df
    ensures df.Valid()
    ensures r.Fail? ==> ApplyFrom(old(df.Value()), S, k) == Failure(r.error)
    ensures r.Pass? ==> ApplyFrom(old(df.Value()), S, k) == ApplyFrom(df.Value(), S, k + 10)
  {
    r := RewritePatientNames(df, S, k);
    if r.Fail? { return; }
    r := RewritePatientPlaces(df, S, k + 5);
  }

  /** The statements of `PatientSteps`, one by one. */
  lemma PatientStepsListed()
    ensures |PatientSteps| == 10 && PatientSteps[0] == Each(["patient_id"], LowerCell)
    ensures PatientSteps[1] == Each(["birth_date"], ToDate) && PatientSteps[2] == Each(["death_date"], ToDate)
    ensures PatientSteps[3] == Each(["first_name"], NameCell) && PatientSteps[4] == Each(["last_name"], NameCell)
    ensures PatientSteps[5] == Each(["birth_place"], PlaceCell) && PatientSteps[6] == Each(["county"], CountyCell)
    ensures PatientSteps[7] == Each(["latitude"], LatitudeCell) && PatientSteps[8] == Each(["longitude"], ToNumber)
    ensures PatientSteps[9] == Each(["income"], ToNumber)
  {
  }

  /** `clean_patients_data(df)` */
  method CleanPatientsData(df: Frame) returns (r: Outcome<Error>)
    requires df.Valid()
    modifies df
    ensures df.Valid()
    ensures r == CleanPatients(old(df.Value())).ToOutcome()
    ensures r.Pass? ==> df.Value() == CleanPatients(old(df.Value())).value
  {
    df.Rename(PatientRenames);
    r := df.Drop(PatientDrops);
    if r.Fail? {
      return;
    }
    ghost var u := df.Value();
    PatientStepsListed();
    r := RewritePatientCells(df, PatientSteps, 0);
    ApplyFromStart(u, PatientSteps);
    if r.Fail? {
      return;
    }
    df.LowerColumnNames();
  }

  /** Lines 142-143 of `clean_symptoms_data`. */
  method RewriteSymptomCells(df: Frame, ghost S: seq<Step>, ghost k: nat) returns (r: Outcome<Error>)
    requires df.Valid()
    requires k + 2 <= |S| && S[k] == Each(["pathology"], TitleCell) && S[k + 1] == Each(["patient_id"], LowerCell)
    modifies df
    ensures df.Valid()
    ensures r.Fail? ==> ApplyFrom(old(df.Value()), S, k) == Failure(r.error)
    ensures r.Pass? ==> ApplyFrom(old(df.Value()), S, k) == ApplyFrom(df.Value(), S, k + 2)
  {
    ghost var t := df.Value();
    r, t := RunColumn(df, "pathology", TitleCell, S, k, t);
    if r.Fail? { return; }
    r, t := RunColumn(df, "patient_id", LowerCell, S, k + 1, t);
  }

  /** `clean_symptoms_data(df)` */
  method CleanSymptomsData(df: Frame) returns (r: Outcome<Error>)
    requires df.Valid()
    modifies df
    ensures df.Valid()
    ensures r == CleanSymptoms(old(df.Value())).ToOutcome()
    ensures r.Pass? ==> df.Value() == CleanSymptoms(old(df.Value())).value
  {
    df.Rename(SymptomRenames);
    ghost var u := df.Value();
    r := RewriteSymptomCells(df, SymptomSteps, 0);
    ApplyFromStart(u, SymptomSteps);
    if r.Fail? {
      return;
    }
    r := df.Drop(SymptomDrops);
    if r.Fail? {
      return;
    }
    df.LowerColumnNames();
  }

  /** `clean_encounter_data(df)` */
  method CleanEncounterData(df: Frame) returns (r: Outcome<Error>)
    requires df.Valid()
    modifies df
    ensures df.Valid()
    ensures r == CleanEncounters(old(df.Value())).ToOutcome()
    ensures r.Pass? ==> df.Value() == CleanEncounters(old(df.Value())).value
  {
    df.Rename(EncounterRenames);
    ghost var u := df.Value();
    ghost var w;
    r, w := RunColumn(df, "patient_id", LowerCell, EncounterSteps, 0, u);
    ApplyFromStart(u, EncounterSteps);
    if r.Fail? {
      return;
    }
    df.LowerColumnNames();
    r := df.Drop(EncounterDrops);
  }

  // `merge_patients_and_gender`

  /**
   * `merge_patients_and_gender` on tables: the inner join of the patients'
   * `patient_id` with the gender table's `Id`, less the `Id` column.
   */
  function PatientsWithGender(patients: Table, gender: Table): (r: Result<Table, Error>)
    requires WellFormed(patients) && WellFormed(gender)
    ensures r.Success? ==> WellFormed(r.value) && "Id" !in r.value.columns
  {
    var merged :- Merge(patients, gender, ["patient_id"], ["Id"], Inner);
    Drop(merged, ["Id"])
  }

  /**
   * The merge succeeds exactly when the patients have a `patient_id` column
   * and the gender table an `Id` column; the gender table's key is checked
   * first. The labels are those of both tables other than `Id`.
   */
  lemma PatientsWithGenderOutcome(patients: Table, gender: Table)
    requires WellFormed(patients) && WellFormed(gender)
    ensures var r := PatientsWithGender(patients, gender);
      r.Success? <==> "patient_id" in patients.columns && "Id" in gender.columns
    ensures var r := PatientsWithGender(patients, gender);
      "Id" !in gender.columns ==> r == Failure(KeyError(["Id"]))
    ensures var r := PatientsWithGender(patients, gender);
      "Id" in gender.columns && "patient_id" !in patients.columns ==> r == Failure(KeyError(["patient_id"]))
    ensures var r := PatientsWithGender(patients, gender);
      r.Success? ==> forall c :: c in r.value.columns <==> (c in patients.columns || c in gender.columns) && c != "Id"
  {
    var m := Merge(patients, gender, ["patient_id"], ["Id"], Inner);
    assert SharedKeys(["patient_id"], ["Id"]) == [];
    if m.Success? {
      MergeLabels(patients, gender, ["patient_id"], ["Id"], Inner);
      assert "Id" in m.value.columns;
    }
  }

  /**
   * Merged row `j` comes from a patient row `i` and a gender row `k` whose
   * `patient_id` and `Id` are equal: it has the patient's cells in the
   * patient columns and the gender row's cells in the gender columns the
   * patients do not have.
   */
  lemma PatientsWithGenderRows(patients: Table, gender: Table, j: nat) returns (i: nat, k: nat)
    requires WellFormed(patients) && WellFormed(gender)
    requires PatientsWithGender(patients, gender).Success? && j < |PatientsWithGender(patients, gender).value.rows|
    ensures "patient_id" in patients.columns && "Id" in gender.columns
    ensures i < |patients.rows| && k < |gender.rows| && Cell(patients, i, "patient_id") == Cell(gender, k, "Id")
    ensures var out := PatientsWithGender(patients, gender).value;
      forall c :: c in patients.columns && c != "Id" ==> c in out.columns && Cell(out, j, c) == Cell(patients, i, c)
    ensures var out := PatientsWithGender(patients, gender).value;
      forall d :: d in gender.columns && d != "Id" && d !in patients.columns ==> d in out.columns && Cell(out, j, d) == Cell(gender, k, d)
  {
    PatientsWithGenderOutcome(patients, gender);
    var m := Merge(patients, gender, ["patient_id"], ["Id"], Inner).value;
    var out := PatientsWithGender(patients, gender).value;
    i, k := PatientGenderJoinRow(patients, gender, j);
    forall c | c in patients.columns && c != "Id" ensures c in out.columns && Cell(out, j, c) == Cell(patients, i, c) {
      assert c !in ["Id"];
    }
    forall d | d in gender.columns && d != "Id" && d !in patients.columns
      ensures d in out.columns && Cell(out, j, d) == Cell(gender, k, d)
    {
      assert d !in ["Id"];
    }
  }

  /** The same for the joined table before `Id` is dropped. */
  lemma PatientGenderJoinRow(patients: Table, gender: Table, j: nat) returns (i: nat, k: nat)
    requires WellFormed(patients) && WellFormed(gender)
    requires "patient_id" in patients.columns && "Id" in gender.columns
    requires j < |Merge(patients, gender, ["patient_id"], ["Id"], Inner).value.rows|
    ensures var m := Merge(patients, gender, ["patient_id"], ["Id"], Inner).value;
      i < |patients.rows| && k < |gender.rows| && Cell(patients, i, "patient_id") == Cell(gender, k, "Id") &&
      (forall c :: c in patients.columns ==> c in m.columns && Cell(m, j, c) == Cell(patients, i, c)) &&
      (forall d :: d in gender.columns && d !in patients.columns ==> d in m.columns && Cell(m, j, d) == Cell(gender, k, d))
  {
    var lo, ro := ["patient_id"], ["Id"];
    var m := Merge(patients, gender, lo, ro, Inner).value;
    assert SharedKeys(lo, ro) == [];
    MergeRowsOrigin(patients, gender, lo, ro, Inner);
    i := OriginsFrom(patients, gender, lo, ro, Inner, 0)[j];
    assert JoinedFrom(patients, gender, lo, ro, Inner, i, m.rows[j]);
    k :| 0 <= k < |gender.rows| && KeysAgree(patients, i, gender, k, lo, ro) &&
      m.rows[j][|patients.columns|..] == Project(gender.rows[k], RightKept(gender, lo, ro));
    assert Cell(patients, i, lo[0]) == Cell(gender, k, ro[0]);
    MergeLeftCells(patients, gender, lo, ro, Inner, i, j);
    MergeRightCells(patients, gender, lo, ro, Inner, k, j);
  }

  /** When every patient agrees with exactly one gender row, the merge has one row per patient. */
  lemma PatientsWithGenderRowCount(patients: Table, gender: Table)
    requires WellFormed(patients) && WellFormed(gender)
    requires "patient_id" in patients.columns && "Id" in gender.columns
    requires forall i :: 0 <= i < |patients.rows| ==> MatchCount(patients, i, gender, ["patient_id"], ["Id"], 0) == 1
    ensures PatientsWithGender(patients, gender).Success?
    ensures |PatientsWithGender(patients, gender).value.rows| == |patients.rows|
  {
    PatientsWithGenderOutcome(patients, gender);
    MergeRowCount(patients, gender, ["patient_id"], ["Id"], Inner);
    JoinSizeUnique(patients, gender, ["patient_id"], ["Id"], 0);
  }

  /** `merge_patients_and_gender(df_patients, df_gender)`: the merge builds a new frame, then `Id` is dropped from it in place. */
  method MergePatientsAndGender(patients: Frame, gender: Frame) returns (r: Result<Frame, Error>)
    requires patients.Valid() && gender.Valid()
    ensures r.Success? <==> PatientsWithGender(patients.Value(), gender.Value()).Success?
    ensures r.Failure? ==> r.error == PatientsWithGender(patients.Value(), gender.Value()).error
    ensures r.Success? ==> fresh(r.value) && r.value.Valid() && r.value.Value() == PatientsWithGender(patients.Value(), gender.Value()).value
  {
    var merged := Merge(patients.Value(), gender.Value(), ["patient_id"], ["Id"], Inner);
    if merged.Failure? {
      return Failure(merged.error);
    }
    var df := new Frame(merged.value);
    var dropped := df.Drop(["Id"]);
    if dropped.Fail? {
      return Failure(dropped.error);
    }
    return Success(df);
  }

  // `merge_datasets`

  /** `merge_datasets(dataset1, dataset2, key_columns, how)`: `dataset1.merge(dataset2, on=key_columns, how=how)`. */
  function MergeDatasets(d1: Table, d2: Table, keys: seq<string>, how: How): (r: Result<Table, Error>)
    requires WellFormed(d1) && WellFormed(d2)
    ensures r.Success? <==> HasKeys(d1, keys) && HasKeys(d2, keys)
    ensures r.Failure? ==> exists k :: k in keys && (k !in d1.columns || k !in d2.columns) && r.error == KeyError([k])
    ensures r.Success? ==> WellFormed(r.value) && |d1.columns| <= |r.value.columns| && r.value.columns[..|d1.columns|] == d1.columns
  {
    Merge(d1, d2, keys, keys, how)
  }

  /** The merged labels are the labels of either dataset: the keys appear once, from the first. */
  lemma MergeDatasetsLabels(d1: Table, d2: Table, keys: seq<string>, how: How)
    requires WellFormed(d1) && WellFormed(d2) && MergeDatasets(d1, d2, keys, how).Success?
    ensures forall c :: c in MergeDatasets(d1, d2, keys, how).value.columns <==> c in d1.columns || c in d2.columns
  {
    MergeLabels(d1, d2, keys, keys, how);
    SharedKeysSame(keys);
  }
}
