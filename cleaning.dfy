/**
 * The effect of each cleaning function on a raw table, stated as a function on
 * tables that takes the same steps in the same order: a rename, the cell
 * rewrites (as a list of `Step`s), and the drops and label lower-casing, each
 * where the source has it. A step that looks up an absent column raises
 * `KeyError`, and the error is the result.
 */
module Cleaning {
  import opened Wrappers
  import opened Text
  import opened Tables
  import opened Cells
  import opened Steps

  // Conditions.

  const ConditionRenames: map<string, string> := map[
    "PATIENT" := "patient_id",
    "ENCOUNTER" := "encounter_id",
    "CODE" := "conditional_code",
    "DESCRIPTION" := "conditional_description"
  ]

  const ConditionSteps: seq<Step> := [Each(["conditional_description"], TitleCell), Each(["patient_id"], LowerCell)]

  const ConditionDrops: seq<string> := ["START", "STOP", "conditional_code", "conditional_description"]

  /** `clean_conditions_data` */
  function CleanConditions(t: Table): (r: Result<Table, Error>)
    requires WellFormed(t)
    ensures r.Success? ==> WellFormed(r.value) && |r.value.rows| == |t.rows|
  {
    var u := Rename(t, ConditionRenames);
    var w :- Apply(u, ConditionSteps);
    Drop(w, ConditionDrops)
  }

  /**
   * The conditions cleaning succeeds exactly when, after renaming, every label
   * it looks up is a column, and a failure names only such labels that are
   * absent. On success the columns are the renamed ones less the dropped ones
   * and each cell is the renamed cell rewritten by the statements naming its
   * column.
   */
  lemma CleanConditionsContract(t: Table)
    requires WellFormed(t)
    ensures var u := Rename(t, ConditionRenames);
      CleanConditions(t).Success? <==> forall c :: c in StepLabels(ConditionSteps) + ConditionDrops ==> c in u.columns
    ensures var u := Rename(t, ConditionRenames);
      CleanConditions(t).Failure? ==> (CleanConditions(t).error.labels != [] &&
        forall c :: c in CleanConditions(t).error.labels ==> c in StepLabels(ConditionSteps) + ConditionDrops && c !in u.columns)
    ensures var u := Rename(t, ConditionRenames);
      CleanConditions(t).Success? ==> forall c :: c in CleanConditions(t).value.columns <==> c in u.columns && c !in ConditionDrops
    ensures var u := Rename(t, ConditionRenames);
      CleanConditions(t).Success? ==> forall i, c :: 0 <= i < |t.rows| && c in CleanConditions(t).value.columns ==>
        Cell(CleanConditions(t).value, i, c) == After(ConditionSteps, c, Cell(u, i, c))
  {
    assert DistinctSteps(ConditionSteps);
  }

  /** Of the surviving conditions columns, the patient column is lower-cased and every other is kept. */
  lemma ConditionRules(v: Value, c: string)
    ensures After(ConditionSteps, "patient_id", v) == LowerCell(v)
    ensures c !in StepLabels(ConditionSteps) ==> After(ConditionSteps, c, v) == v
  {
    AfterOnly(ConditionSteps, 1, "patient_id", v);
    if c !in StepLabels(ConditionSteps) {
      AfterUnnamed(ConditionSteps, c, v);
    }
  }

  /** The renamed conditions layout. */
  lemma ConditionsRenamedLayout(t: Table)
    requires t.columns == ["START", "STOP", "PATIENT", "ENCOUNTER", "CODE", "DESCRIPTION"]
    ensures Rename(t, ConditionRenames).columns ==
      ["START", "STOP", "patient_id", "encounter_id", "conditional_code", "conditional_description"]
  {
    var m := ConditionRenames;
    assert RenameLabel(m, "START") == "START" && RenameLabel(m, "STOP") == "STOP";
    assert RenameLabel(m, "PATIENT") == "patient_id" && RenameLabel(m, "ENCOUNTER") == "encounter_id";
    assert RenameLabel(m, "CODE") == "conditional_code" && RenameLabel(m, "DESCRIPTION") == "conditional_description";
  }

  /** Of the renamed conditions layout, the drop keeps the third and fourth columns. */
  lemma ConditionsKeptPositions(c: seq<string>)
    requires c == ["START", "STOP", "patient_id", "encounter_id", "conditional_code", "conditional_description"]
    ensures KeptFrom(c, ConditionDrops, 0) == [2, 3]
  {
    var d := ConditionDrops;
    assert KeptFrom(c, d, 6) == [];
    assert c[5] in d && c[4] in d;
    assert KeptFrom(c, d, 4) == [];
    assert c[3] !in d && c[2] !in d;
    assert KeptFrom(c, d, 2) == [2, 3];
    assert c[1] in d && c[0] in d;
  }

  /** On the renamed conditions layout, the final drop keeps the patient and encounter columns. */
  lemma ConditionsDropped(w: Table)
    requires WellFormed(w)
    requires w.columns == ["START", "STOP", "patient_id", "encounter_id", "conditional_code", "conditional_description"]
    ensures Drop(w, ConditionDrops) == Success(Select(w, [2, 3]))
    ensures Select(w, [2, 3]).columns == ["patient_id", "encounter_id"]
  {
    ConditionsKeptPositions(w.columns);
  }

  /**
   * On the conditions layout START, STOP, PATIENT, ENCOUNTER, CODE, DESCRIPTION
   * the cleaning succeeds and leaves exactly the columns `patient_id` and
   * `encounter_id`, in that order, one row per input row.
   */
  lemma CleanConditionsLayout(t: Table)
    requires WellFormed(t) && t.columns == ["START", "STOP", "PATIENT", "ENCOUNTER", "CODE", "DESCRIPTION"]
    ensures CleanConditions(t).Success?
    ensures CleanConditions(t).value.columns == ["patient_id", "encounter_id"]
    ensures |CleanConditions(t).value.rows| == |t.rows|
  {
    var u := Rename(t, ConditionRenames);
    ConditionsRenamedLayout(t);
    assert StepLabels(ConditionSteps) == ["conditional_description", "patient_id"] by {
      var s := ConditionSteps;
      assert StepLabels(s[1..][1..]) == [] by { assert s[1..][1..] == []; }
      assert StepLabels(s[1..]) == ["patient_id"];
    }
    assert u.columns[5] == "conditional_description" && u.columns[2] == "patient_id";
    var w := Apply(u, ConditionSteps).value;
    ConditionsDropped(w);
  }

  // Medications.

  const MedicationRenames: map<string, string> := map[
    "START" := "start_date",
    "STOP" := "end_date",
    "PATIENT" := "patient_id",
    "PAYER" := "payer_id",
    "ENCOUNTER" := "encounter_id",
    "CODE" := "drug_code",
    "DESCRIPTION" := "drug_description",
    "BASE_COST" := "base_cost",
    "PAYER_COVERAGE" := "payer_coverage",
    "DISPENSES" := "dispensed_quantity",
    "TOTALCOST" := "total_cost",
    "REASONCODE" := "reason_code",
    "REASONDESCRIPTION" := "reason_description"
  ]

  const LowercaseColumns: seq<string> := ["patient_id", "payer_id", "encounter_id", "drug_description"]
  const IntColumns: seq<string> := ["drug_code", "dispensed_quantity", "reason_code"]
  const FloatColumns: seq<string> := ["base_cost", "total_cost"]

  const MedicationSteps: seq<Step> := [
    Each(LowercaseColumns, LowerCell),
    Each(["drug_description"], TitleCell),
    AtOnce(IntColumns, CoerceIntCell),
    AtOnce(FloatColumns, ToNumber),
    Each(["start_date"], ToDate),
    Each(["end_date"], ToDate)
  ]

  const MedicationDrops: seq<string> := ["reason_description", "reason_code", "payer_coverage", "start_date", "end_date"]

  /** `clean_medications_data` */
  function CleanMedications(t: Table): (r: Result<Table, Error>)
    requires WellFormed(t)
    ensures r.Success? ==> WellFormed(r.value) && |r.value.rows| == |t.rows|
  {
    var u := Rename(t, MedicationRenames);
    var w :- Apply(u, MedicationSteps);
    Drop(w, MedicationDrops)
  }

  /**
   * The medications cleaning succeeds exactly when, after renaming, every
   * label it looks up is a column, and a failure names only such labels that
   * are absent. On success the columns are the renamed ones less the dropped
   * ones and each cell is the renamed cell rewritten by the statements naming
   * its column.
   */
  lemma CleanMedicationsContract(t: Table)
    requires WellFormed(t)
    ensures var u := Rename(t, MedicationRenames);
      CleanMedications(t).Success? <==> forall c :: c in StepLabels(MedicationSteps) + MedicationDrops ==> c in u.columns
    ensures var u := Rename(t, MedicationRenames);
      CleanMedications(t).Failure? ==> (CleanMedications(t).error.labels != [] &&
        forall c :: c in CleanMedications(t).error.labels ==> c in StepLabels(MedicationSteps) + MedicationDrops && c !in u.columns)
    ensures var u := Rename(t, MedicationRenames);
      CleanMedications(t).Success? ==> forall c :: c in CleanMedications(t).value.columns <==> c in u.columns && c !in MedicationDrops
    ensures var u := Rename(t, MedicationRenames);
      CleanMedications(t).Success? ==> forall i, c :: 0 <= i < |t.rows| && c in CleanMedications(t).value.columns ==>
        Cell(CleanMedications(t).value, i, c) == After(MedicationSteps, c, Cell(u, i, c))
  {
    assert DistinctSteps(MedicationSteps);
  }

  /** The three identifier columns are lower-cased. */
  lemma MedicationIdRule(v: Value, c: string)
    requires c in ["patient_id", "payer_id", "encounter_id"]
    ensures After(MedicationSteps, c, v) == LowerCell(v)
  {
    AfterOnly(MedicationSteps, 0, c, v);
  }

  /** The drug description is lower-cased and then title-cased, which is title-casing it. */
  lemma MedicationDescriptionRule(v: Value)
    ensures After(MedicationSteps, "drug_description", v) == TitleCell(v)
  {
    var s := MedicationSteps;
    assert After(s, "drug_description", v) == After(s[1..], "drug_description", LowerCell(v));
    AfterOnly(s[1..], 0, "drug_description", LowerCell(v));
    TitleCellOfLower();
  }

  /** The code, the dispensed quantity and the reason code are coerced to integers. */
  lemma MedicationIntRule(v: Value, c: string)
    requires c in IntColumns
    ensures After(MedicationSteps, c, v) == CoerceIntCell(v)
  {
    AfterOnly(MedicationSteps, 2, c, v);
  }

  /** The cost columns go through the numeric coercion. */
  lemma MedicationFloatRule(v: Value, c: string)
    requires c in FloatColumns
    ensures After(MedicationSteps, c, v) == ToNumber(v)
  {
    AfterOnly(MedicationSteps, 3, c, v);
  }

  /** Every column no statement names is kept as it is. */
  lemma MedicationKeptRule(v: Value, c: string)
    requires c !in StepLabels(MedicationSteps)
    ensures After(MedicationSteps, c, v) == v
  {
    AfterUnnamed(MedicationSteps, c, v);
  }

  /** None of the dropped medication labels is left. */
  lemma CleanMedicationsDrops(t: Table)
    requires WellFormed(t) && CleanMedications(t).Success?
    ensures forall x :: x in MedicationDrops ==> x !in CleanMedications(t).value.columns
  {
    CleanMedicationsContract(t);
  }

  /**
   * A surviving integer column holds, in every row, the coercion of the
   * renamed cell: never a string, whatever the input held.
   */
  lemma MedicationIntCells(t: Table, i: nat, c: string)
    requires WellFormed(t) && CleanMedications(t).Success? && i < |t.rows|
    requires c in IntColumns && c in CleanMedications(t).value.columns
    ensures c in Rename(t, MedicationRenames).columns
    ensures Cell(CleanMedications(t).value, i, c) == CoerceIntCell(Cell(Rename(t, MedicationRenames), i, c))
    ensures !Cell(CleanMedications(t).value, i, c).Str?
  {
    CleanMedicationsContract(t);
    var u := Rename(t, MedicationRenames);
    assert c in u.columns;
    MedicationIntRule(Cell(u, i, c), c);
  }

  /**
   * A surviving cost column holds, in every row, the numeric coercion of the
   * renamed cell: never a string, and missing where the input was missing.
   */
  lemma MedicationFloatCells(t: Table, i: nat, c: string)
    requires WellFormed(t) && CleanMedications(t).Success? && i < |t.rows|
    requires c in FloatColumns && c in CleanMedications(t).value.columns
    ensures c in Rename(t, MedicationRenames).columns
    ensures Cell(CleanMedications(t).value, i, c) == ToNumber(Cell(Rename(t, MedicationRenames), i, c))
    ensures !Cell(CleanMedications(t).value, i, c).Str?
    ensures Cell(Rename(t, MedicationRenames), i, c) == Missing ==> Cell(CleanMedications(t).value, i, c) == Missing
  {
    CleanMedicationsContract(t);
    var u := Rename(t, MedicationRenames);
    assert c in u.columns;
    MedicationFloatRule(Cell(u, i, c), c);
  }

  /**
   * A surviving identifier column holds, in every row, the lower-casing of the
   * renamed cell: a lower-case string or a missing value.
   */
  lemma MedicationIdCells(t: Table, i: nat, c: string)
    requires WellFormed(t) && CleanMedications(t).Success? && i < |t.rows|
    requires c in ["patient_id", "payer_id", "encounter_id"] && c in CleanMedications(t).value.columns
    ensures c in Rename(t, MedicationRenames).columns
    ensures Cell(CleanMedications(t).value, i, c) == LowerCell(Cell(Rename(t, MedicationRenames), i, c))
    ensures IsLowerCell(Cell(CleanMedications(t).value, i, c))
  {
    CleanMedicationsContract(t);
    var u := Rename(t, MedicationRenames);
    assert c in u.columns;
    MedicationIdRule(Cell(u, i, c), c);
  }

  // Patients.

  const PatientRenames: map<string, string> := map[
    "PATIENT_ID" := "patient_id",
    "BIRTHDATE" := "birth_date",
    "DEATHDATE" := "death_date",
    "FIRST" := "first_name",
    "LAST" := "last_name",
    "BIRTHPLACE" := "birth_place",
    "COUNTY" := "county",
    "LAT" := "latitude",
    "LON" := "longitude",
    "INCOME" := "income"
  ]

  const PatientDrops: seq<string> := ["GENDER"]

  /** Dates go through `ToDate`, and longitude and income through `ToNumber`. */
  const PatientSteps: seq<Step> := [
    Each(["patient_id"], LowerCell),
    Each(["birth_date"], ToDate),
    Each(["death_date"], ToDate),
    Each(["first_name"], NameCell),
    Each(["last_name"], NameCell),
    Each(["birth_place"], PlaceCell),
    Each(["county"], CountyCell),
    Each(["latitude"], LatitudeCell),
    Each(["longitude"], ToNumber),
    Each(["income"], ToNumber)
  ]

  /** `clean_patients_data` */
  function CleanPatients(t: Table): (r: Result<Table, Error>)
    requires WellFormed(t)
    ensures r.Success? ==> WellFormed(r.value) && |r.value.rows| == |t.rows|
    ensures r.Success? ==> forall c :: c in r.value.columns ==> NoUpper(c)
  {
    var u := Rename(t, PatientRenames);
    var kept :- Drop(u, PatientDrops);
    var w :- Apply(kept, PatientSteps);
    Success(LowerColumnNames(w))
  }

  /**
   * The patients cleaning succeeds exactly when, after renaming, `GENDER` and
   * every label a statement looks up are columns, and a failure names only
   * such labels that are absent. On success the labels are the lower-cased
   * renamed labels other than `GENDER`.
   */
  lemma CleanPatientsOutcome(t: Table)
    requires WellFormed(t)
    ensures var u := Rename(t, PatientRenames);
      CleanPatients(t).Success? <==> forall c :: c in PatientDrops + StepLabels(PatientSteps) ==> c in u.columns
    ensures var u := Rename(t, PatientRenames);
      CleanPatients(t).Failure? ==> (CleanPatients(t).error.labels != [] &&
        forall c :: c in CleanPatients(t).error.labels ==> c in PatientDrops + StepLabels(PatientSteps) && c !in u.columns)
    ensures var u := Rename(t, PatientRenames);
      CleanPatients(t).Success? ==> forall c :: c in CleanPatients(t).value.columns <==>
        exists d :: d in u.columns && d !in PatientDrops && Lower(d) == c
  {
    var u := Rename(t, PatientRenames);
    StepLabelsMember(PatientSteps, "GENDER");
    assert forall k :: 0 <= k < |PatientSteps| ==> "GENDER" !in PatientSteps[k].cols;
    var kept := Drop(u, PatientDrops);
    if kept.Success? {
      var w := Apply(kept.value, PatientSteps);
      if w.Success? {
        forall c ensures c in CleanPatients(t).value.columns <==> exists d :: d in u.columns && d !in PatientDrops && Lower(d) == c {
          LowerColumnNamesLabels(w.value, c);
        }
      }
    }
  }

  lemma PatientStepsDistinct()
    ensures DistinctSteps(PatientSteps)
  {
    SingleLabelSteps(PatientSteps);
  }

  /** The table the patients cleaning lower-cases the labels of. */
  lemma PatientsRewritten(t: Table) returns (w: Table)
    requires WellFormed(t) && CleanPatients(t).Success? && CaseDistinct(Rename(t, PatientRenames).columns)
    ensures CleanPatients(t) == Success(LowerColumnNames(w))
    ensures WellFormed(w) && |w.rows| == |t.rows| && CaseDistinct(w.columns)
    ensures var u := Rename(t, PatientRenames);
      forall d :: d in u.columns && d !in PatientDrops ==> d in w.columns
    ensures var u := Rename(t, PatientRenames);
      forall i, d :: 0 <= i < |t.rows| && d in u.columns && d !in PatientDrops ==>
        Cell(w, i, d) == After(PatientSteps, d, Cell(u, i, d))
  {
    var u := Rename(t, PatientRenames);
    var kept := Drop(u, PatientDrops).value;
    w := Apply(kept, PatientSteps).value;
    PatientStepsDistinct();
  }

  /**
   * When the renamed labels are apart up to case, each column of the cleaned
   * patients is the renamed column of the same name up to case, rewritten by
   * the statements naming it.
   */
  lemma CleanPatientsCells(t: Table)
    requires WellFormed(t) && CleanPatients(t).Success? && CaseDistinct(Rename(t, PatientRenames).columns)
    ensures var u := Rename(t, PatientRenames);
      forall i, d :: 0 <= i < |t.rows| && d in u.columns && d !in PatientDrops ==>
        Lower(d) in CleanPatients(t).value.columns &&
        Cell(CleanPatients(t).value, i, Lower(d)) == After(PatientSteps, d, Cell(u, i, d))
  {
    var w := PatientsRewritten(t);
    forall i, d | 0 <= i < |t.rows| && d in Rename(t, PatientRenames).columns && d !in PatientDrops
      ensures Lower(d) in CleanPatients(t).value.columns &&
              Cell(CleanPatients(t).value, i, Lower(d)) == After(PatientSteps, d, Cell(Rename(t, PatientRenames), i, d))
    {
      LowerColumnNamesCell(w, i, d);
    }
  }

  /** When the renamed labels are apart up to case, no label of the cleaned patients lower-cases a dropped label. */
  lemma CleanPatientsDropsGender(t: Table)
    requires WellFormed(t) && CleanPatients(t).Success? && CaseDistinct(Rename(t, PatientRenames).columns)
    ensures forall x :: x in PatientDrops ==> Lower(x) !in CleanPatients(t).value.columns
  {
    var u := Rename(t, PatientRenames);
    CleanPatientsOutcome(t);
    forall x, d | x in PatientDrops && d in u.columns && d !in PatientDrops ensures Lower(d) != Lower(x) {
      CaseDistinctLower(u.columns, d, x);
    }
  }

  /** The patient identifier is lower-cased, and every column no statement names is kept. */
  lemma PatientIdRule(v: Value, c: string)
    ensures After(PatientSteps, "patient_id", v) == LowerCell(v)
    ensures c !in StepLabels(PatientSteps) ==> After(PatientSteps, c, v) == v
  {
    AfterOnly(PatientSteps, 0, "patient_id", v);
    if c !in StepLabels(PatientSteps) {
      AfterUnnamed(PatientSteps, c, v);
    }
  }

  /** The first name loses its trailing digits and is capitalized. */
  lemma PatientFirstNameRule(v: Value)
    ensures After(PatientSteps, "first_name", v) == NameCell(v)
  {
    AfterOnly(PatientSteps, 3, "first_name", v);
  }

  /** So does the last name. */
  lemma PatientLastNameRule(v: Value)
    ensures After(PatientSteps, "last_name", v) == NameCell(v)
  {
    AfterOnly(PatientSteps, 4, "last_name", v);
  }

  /** The birth place is stripped and title-cased. */
  lemma PatientBirthPlaceRule(v: Value)
    ensures After(PatientSteps, "birth_place", v) == PlaceCell(v)
  {
    AfterOnly(PatientSteps, 5, "birth_place", v);
  }

  /** The county loses its `County` suffix. */
  lemma PatientCountyRule(v: Value)
    ensures After(PatientSteps, "county", v) == CountyCell(v)
  {
    AfterOnly(PatientSteps, 6, "county", v);
  }

  /** The latitude loses its leading apostrophes. */
  lemma PatientLatitudeRule(v: Value)
    ensures After(PatientSteps, "latitude", v) == LatitudeCell(v)
  {
    AfterOnly(PatientSteps, 7, "latitude", v);
  }

  /** The birth and death dates go through the date conversion. */
  lemma PatientDateRules(v: Value)
    ensures After(PatientSteps, "birth_date", v) == ToDate(v)
    ensures After(PatientSteps, "death_date", v) == ToDate(v)
  {
    AfterOnly(PatientSteps, 1, "birth_date", v);
    AfterOnly(PatientSteps, 2, "death_date", v);
  }

  /** Longitude and income go through the numeric coercion. */
  lemma PatientNumberRules(v: Value)
    ensures After(PatientSteps, "longitude", v) == ToNumber(v)
    ensures After(PatientSteps, "income", v) == ToNumber(v)
  {
    AfterOnly(PatientSteps, 8, "longitude", v);
    AfterOnly(PatientSteps, 9, "income", v);
  }

  /**
   * A converted patient column (the two dates, longitude and income) holds, in
   * every row, the conversion of the renamed cell: never a string, and missing
   * where the input was missing.
   */
  lemma PatientConvertedCells(t: Table, i: nat, c: string)
    requires WellFormed(t) && CleanPatients(t).Success? && CaseDistinct(Rename(t, PatientRenames).columns)
    requires i < |t.rows| && c in ["birth_date", "death_date", "longitude", "income"] && c in Rename(t, PatientRenames).columns
    ensures c in CleanPatients(t).value.columns
    ensures var v := Cell(Rename(t, PatientRenames), i, c);
      Cell(CleanPatients(t).value, i, c) == if c in ["birth_date", "death_date"] then ToDate(v) else ToNumber(v)
    ensures !Cell(CleanPatients(t).value, i, c).Str?
    ensures Cell(Rename(t, PatientRenames), i, c) == Missing ==> Cell(CleanPatients(t).value, i, c) == Missing
  {
    var v := Cell(Rename(t, PatientRenames), i, c);
    ConvertedLabelsLower(c);
    PatientCellAt(t, i, c);
    PatientDateRules(v);
    PatientNumberRules(v);
  }

  lemma ConvertedLabelsLower(c: string)
    requires c in ["birth_date", "death_date", "longitude", "income"]
    ensures Lower(c) == c
  {
    if c == "birth_date" {
      assert NoUpper("birth_date");
    } else if c == "death_date" {
      assert NoUpper("death_date");
    } else if c == "longitude" {
      assert NoUpper("longitude");
    } else {
      assert NoUpper("income");
    }
  }

  /** `CleanPatientsCells` for one row and one surviving label. */
  lemma PatientCellAt(t: Table, i: nat, d: string)
    requires WellFormed(t) && CleanPatients(t).Success? && CaseDistinct(Rename(t, PatientRenames).columns)
    requires i < |t.rows| && d in Rename(t, PatientRenames).columns && d !in PatientDrops
    ensures Lower(d) in CleanPatients(t).value.columns
    ensures Cell(CleanPatients(t).value, i, Lower(d)) == After(PatientSteps, d, Cell(Rename(t, PatientRenames), i, d))
  {
    CleanPatientsCells(t);
  }

  // Symptoms.

  const SymptomRenames: map<string, string> := map[
    "PATIENT" := "patient_id",
    "RACE" := "race",
    "ETHNICITY" := "symptoms_ethnicity",
    "AGE_BEGIN" := "start_age",
    "AGE_END" := "end_age",
    "PATHOLOGY" := "pathology",
    "NUM_SYMPTOMS" := "num_symptoms",
    "SYMPTOMS" := "symptoms"
  ]

  const SymptomSteps: seq<Step> := [Each(["pathology"], TitleCell), Each(["patient_id"], LowerCell)]

  const SymptomDrops: seq<string> := ["GENDER", "race", "symptoms_ethnicity"]

  /** `clean_symptoms_data` */
  function CleanSymptoms(t: Table): (r: Result<Table, Error>)
    requires WellFormed(t)
    ensures r.Success? ==> WellFormed(r.value) && |r.value.rows| == |t.rows|
    ensures r.Success? ==> forall c :: c in r.value.columns ==> NoUpper(c)
  {
    var u := Rename(t, SymptomRenames);
    var w :- Apply(u, SymptomSteps);
    var kept :- Drop(w, SymptomDrops);
    Success(LowerColumnNames(kept))
  }

  /**
   * The symptoms cleaning succeeds exactly when, after renaming, every label
   * it looks up is a column, and a failure names only such labels that are
   * absent. On success the labels are the lower-cased renamed labels that
   * are not dropped.
   */
  lemma CleanSymptomsOutcome(t: Table)
    requires WellFormed(t)
    ensures var u := Rename(t, SymptomRenames);
      CleanSymptoms(t).Success? <==> forall c :: c in StepLabels(SymptomSteps) + SymptomDrops ==> c in u.columns
    ensures var u := Rename(t, SymptomRenames);
      CleanSymptoms(t).Failure? ==> (CleanSymptoms(t).error.labels != [] &&
        forall c :: c in CleanSymptoms(t).error.labels ==> c in StepLabels(SymptomSteps) + SymptomDrops && c !in u.columns)
    ensures var u := Rename(t, SymptomRenames);
      CleanSymptoms(t).Success? ==> forall c :: c in CleanSymptoms(t).value.columns <==>
        exists d :: d in u.columns && d !in SymptomDrops && Lower(d) == c
  {
    var u := Rename(t, SymptomRenames);
    var w := Apply(u, SymptomSteps);
    if w.Success? {
      var kept := Drop(w.value, SymptomDrops);
      if kept.Success? {
        forall c ensures c in CleanSymptoms(t).value.columns <==> exists d :: d in u.columns && d !in SymptomDrops && Lower(d) == c {
          LowerColumnNamesLabels(kept.value, c);
        }
      }
    }
  }

  /** The table the symptoms cleaning lower-cases the labels of. */
  lemma SymptomsKept(t: Table) returns (kept: Table)
    requires WellFormed(t) && CleanSymptoms(t).Success? && CaseDistinct(Rename(t, SymptomRenames).columns)
    ensures CleanSymptoms(t) == Success(LowerColumnNames(kept))
    ensures WellFormed(kept) && |kept.rows| == |t.rows| && CaseDistinct(kept.columns)
    ensures var u := Rename(t, SymptomRenames);
      forall d :: d in u.columns && d !in SymptomDrops ==> d in kept.columns
    ensures var u := Rename(t, SymptomRenames);
      forall i, d :: 0 <= i < |t.rows| && d in u.columns && d !in SymptomDrops ==>
        Cell(kept, i, d) == After(SymptomSteps, d, Cell(u, i, d))
  {
    var u := Rename(t, SymptomRenames);
    var w := Apply(u, SymptomSteps).value;
    kept := Drop(w, SymptomDrops).value;
    assert DistinctSteps(SymptomSteps);
  }

  /**
   * When the renamed labels are apart up to case, each column of the cleaned
   * symptoms is the renamed column of the same name up to case, rewritten by
   * the statements naming it.
   */
  lemma CleanSymptomsCells(t: Table)
    requires WellFormed(t) && CleanSymptoms(t).Success? && CaseDistinct(Rename(t, SymptomRenames).columns)
    ensures var u := Rename(t, SymptomRenames);
      forall i, d :: 0 <= i < |t.rows| && d in u.columns && d !in SymptomDrops ==>
        Lower(d) in CleanSymptoms(t).value.columns &&
        Cell(CleanSymptoms(t).value, i, Lower(d)) == After(SymptomSteps, d, Cell(u, i, d))
  {
    var kept := SymptomsKept(t);
    forall i, d | 0 <= i < |t.rows| && d in Rename(t, SymptomRenames).columns && d !in SymptomDrops
      ensures Lower(d) in CleanSymptoms(t).value.columns &&
              Cell(CleanSymptoms(t).value, i, Lower(d)) == After(SymptomSteps, d, Cell(Rename(t, SymptomRenames), i, d))
    {
      LowerColumnNamesCell(kept, i, d);
    }
  }

  /** When the renamed labels are apart up to case, no label of the cleaned symptoms lower-cases a dropped label. */
  lemma CleanSymptomsDropsDemographics(t: Table)
    requires WellFormed(t) && CleanSymptoms(t).Success? && CaseDistinct(Rename(t, SymptomRenames).columns)
    ensures forall x :: x in SymptomDrops ==> Lower(x) !in CleanSymptoms(t).value.columns
  {
    var u := Rename(t, SymptomRenames);
    CleanSymptomsOutcome(t);
    forall x, d | x in SymptomDrops && d in u.columns && d !in SymptomDrops ensures Lower(d) != Lower(x) {
      CaseDistinctLower(u.columns, d, x);
    }
  }

  /** The pathology is title-cased, the patient identifier lower-cased, and every column no statement names is kept. */
  lemma SymptomRules(v: Value, c: string)
    ensures After(SymptomSteps, "pathology", v) == TitleCell(v)
    ensures After(SymptomSteps, "patient_id", v) == LowerCell(v)
    ensures c !in StepLabels(SymptomSteps) ==> After(SymptomSteps, c, v) == v
  {
    AfterOnly(SymptomSteps, 0, "pathology", v);
    AfterOnly(SymptomSteps, 1, "patient_id", v);
    if c !in StepLabels(SymptomSteps) {
      AfterUnnamed(SymptomSteps, c, v);
    }
  }

  // Encounters.

  const EncounterRenames: map<string, string> := map[
    "Id" := "encounter_id",
    "START" := "start_date",
    "STOP" := "stop_date",
    "PATIENT" := "patient_id",
    "ORGANIZATION" := "organization",
    "REASONDESCRIPTION" := "encounter_description",
    "REASONCODE" := "reason_code",
    "DESCRIPTION" := "description",
    "ENCOUNTERCLASS" := "encounter_class",
    "PAYER" := "payer_id",
    "PROVIDER" := "provider_id",
    "CODE" := "code",
    "BASE_ENCOUNTER_COST" := "base_encounter_cost",
    "TOTAL_CLAIM_COST" := "total_claim_cost",
    "PAYER_COVERAGE" := "payer_coverage"
  ]

  const EncounterSteps: seq<Step> := [Each(["patient_id"], LowerCell)]

  /** Dropped after the labels are lower-cased. */
  const EncounterDrops: seq<string> := ["encounter_description"]

  /** `clean_encounter_data` */
  function CleanEncounters(t: Table): (r: Result<Table, Error>)
    requires WellFormed(t)
    ensures r.Success? ==> WellFormed(r.value) && |r.value.rows| == |t.rows|
  {
    var u := Rename(t, EncounterRenames);
    var w :- Apply(u, EncounterSteps);
    Drop(LowerColumnNames(w), EncounterDrops)
  }

  /**
   * The encounters cleaning succeeds exactly when, after renaming, the
   * patient column is there and some label lower-cases to
   * `encounter_description`; a failure names the one of them that is not.
   */
  lemma CleanEncountersOutcome(t: Table)
    requires WellFormed(t)
    ensures var u := Rename(t, EncounterRenames);
      CleanEncounters(t).Success? <==> "patient_id" in u.columns && exists d :: d in u.columns && Lower(d) == "encounter_description"
    ensures var u := Rename(t, EncounterRenames);
      CleanEncounters(t).Failure? ==>
        (CleanEncounters(t).error == KeyError(["patient_id"]) && "patient_id" !in u.columns) ||
        (CleanEncounters(t).error == KeyError(["encounter_description"]) && "patient_id" in u.columns &&
         forall d :: d in u.columns ==> Lower(d) != "encounter_description")
  {
    var u := Rename(t, EncounterRenames);
    EncounterStepLabels();
    var w := Apply(u, EncounterSteps);
    if w.Success? {
      var l := LowerColumnNames(w.value);
      LowerColumnNamesLabels(w.value, "encounter_description");
      if "encounter_description" !in l.columns {
        assert EncounterDrops[1..] == [];
        assert Absent(l.columns, EncounterDrops) == ["encounter_description"];
      }
    } else {
      EachSingle(u, "patient_id", LowerCell);
      assert w == MapColumns(u, ["patient_id"], LowerCell);
    }
  }

  lemma EncounterStepLabels()
    ensures StepLabels(EncounterSteps) == ["patient_id"]
  {
    assert EncounterSteps[1..] == [];
  }

  /**
   * On success every label of the cleaned encounters is lower-case, none is
   * `encounter_description`, and the labels are the other lower-cased renamed
   * labels.
   */
  lemma CleanEncountersColumns(t: Table)
    requires WellFormed(t) && CleanEncounters(t).Success?
    ensures var u := Rename(t, EncounterRenames);
      forall c :: c in CleanEncounters(t).value.columns <==> c != "encounter_description" && exists d :: d in u.columns && Lower(d) == c
    ensures forall c :: c in CleanEncounters(t).value.columns ==> NoUpper(c)
  {
    var u := Rename(t, EncounterRenames);
    var w := Apply(u, EncounterSteps).value;
    forall c ensures c in LowerColumnNames(w).columns <==> exists d :: d in u.columns && Lower(d) == c {
      LowerColumnNamesLabels(w, c);
    }
  }

  /**
   * When the renamed labels are apart up to case, each column of the cleaned
   * encounters other than the dropped description is the renamed column of
   * the same name up to case, rewritten by the statements naming it.
   */
  lemma CleanEncountersCells(t: Table)
    requires WellFormed(t) && CleanEncounters(t).Success? && CaseDistinct(Rename(t, EncounterRenames).columns)
    ensures var u := Rename(t, EncounterRenames);
      forall i, d :: 0 <= i < |t.rows| && d in u.columns && Lower(d) != "encounter_description" ==>
        Lower(d) in CleanEncounters(t).value.columns &&
        Cell(CleanEncounters(t).value, i, Lower(d)) == After(EncounterSteps, d, Cell(u, i, d))
  {
    var u := Rename(t, EncounterRenames);
    forall i, d | 0 <= i < |t.rows| && d in u.columns && Lower(d) != "encounter_description"
      ensures Lower(d) in CleanEncounters(t).value.columns &&
              Cell(CleanEncounters(t).value, i, Lower(d)) == After(EncounterSteps, d, Cell(u, i, d))
    {
      EncounterCell(t, i, d);
    }
  }

  lemma EncounterCell(t: Table, i: nat, d: string)
    requires WellFormed(t) && CleanEncounters(t).Success? && CaseDistinct(Rename(t, EncounterRenames).columns)
    requires i < |t.rows| && d in Rename(t, EncounterRenames).columns && Lower(d) != "encounter_description"
    ensures Lower(d) in CleanEncounters(t).value.columns
    ensures Cell(CleanEncounters(t).value, i, Lower(d)) == After(EncounterSteps, d, Cell(Rename(t, EncounterRenames), i, d))
  {
    var u := Rename(t, EncounterRenames);
    var w := Apply(u, EncounterSteps).value;
    assert DistinctSteps(EncounterSteps);
    LowerThenDropCell(w, EncounterDrops, i, d);
  }

  /** The patient identifier is lower-cased, and every column no statement names is kept. */
  lemma EncounterRules(v: Value, c: string)
    ensures After(EncounterSteps, "patient_id", v) == LowerCell(v)
    ensures c != "patient_id" ==> After(EncounterSteps, c, v) == v
  {
    assert EncounterSteps[1..] == [];
  }

  lemma EncounterIdLower()
    ensures Lower("encounter_id") == "encounter_id"
  {
    assert NoUpper("encounter_id");
  }

  /** `Id` is the only raw encounters label renamed to `encounter_id`. */
  lemma EncounterIdRenamedOnce(t: Table, i: nat)
    requires WellFormed(t) && i < |t.rows| && "Id" in t.columns && "encounter_id" !in t.columns
    ensures "encounter_id" in Rename(t, EncounterRenames).columns
    ensures Cell(Rename(t, EncounterRenames), i, "encounter_id") == Cell(t, i, "Id")
  {
    var m := EncounterRenames;
    assert forall x :: x in m && m[x] == "encounter_id" ==> x == "Id";
    assert RenameLabel(m, "Id") == "encounter_id";
    RenameCell(t, m, "Id", "encounter_id", i);
  }

  /**
   * When the raw encounters have an `Id` column and no `encounter_id`
   * column, and the renamed labels are apart up to case, the cleaned
   * encounters hold the `Id` cells in `encounter_id`: the key the merges
   * join conditions and medications on.
   */
  lemma CleanEncountersIdentity(t: Table, i: nat)
    requires WellFormed(t) && CleanEncounters(t).Success? && CaseDistinct(Rename(t, EncounterRenames).columns)
    requires i < |t.rows| && "Id" in t.columns && "encounter_id" !in t.columns
    ensures "encounter_id" in CleanEncounters(t).value.columns
    ensures Cell(CleanEncounters(t).value, i, "encounter_id") == Cell(t, i, "Id")
  {
    EncounterIdRenamedOnce(t, i);
    var v := Cell(Rename(t, EncounterRenames), i, "encounter_id");
    EncounterIdLower();
    CleanEncountersCells(t);
    EncounterRules(v, "encounter_id");
  }
}
