# Century Health pipeline: cleaning and merging, modelled in Dafny

The Century Health pipeline takes five raw healthcare tables: conditions,
medications, patients, symptoms and encounters. It cleans each one into a
canonical schema, then merges them into one master table. This project models
the two parts of the pipeline that carry its logic and proves properties of
that model:

- the five cleaning functions and the two merge functions of
  `utils/transformation.py`;
- the merge chain of `merge_and_insert_data` in `Century_Health.py`.

**Tables.** A data frame is a `Table`: a sequence of column labels and a
sequence of rows, each a sequence of cells. A cell is a `Value`: a string, an
integer, `Missing` (NaN, NaT, None) or `Other` (any other Python object).

- Labels may repeat. Looking a column up by label uses the first column with
  that label. pandas instead selects every column with the label, which the
  model does not follow (see "## Left out").
- A lookup of an absent column is the error `KeyError(labels)`, which a
  function returns as its `Failure` result.

**Cleaning.** A cleaning function changes the frame it is given in place, so
it is a method on a `Frame` object (module `Frames`). The frame's `columns`
and `rows` fields are updated by one method per pandas operation:

- `rename(inplace=True)`;
- `df[c] = …`;
- the loop `for c in cols: df[c] = …`;
- `df[cols] = df[cols].apply(…)`;
- `drop(inplace=True)`;
- `df.columns = df.columns.str.lower()`.

Each method is proved to leave in the frame the table that a function in
module `Tables` gives for the old table, or to return the `KeyError` that
function returns.

Each cleaning method in module `Transformation` runs the source's statements in
the source's order. It is proved equal to a specification function in module
`Cleaning`. That function applies, in the same order:

- the rename map;
- a list of cell statements (`Steps.Step`), each naming its columns and its
  per-cell rule;
- the drops;
- the lower-casing of labels.

The lemmas about these specification functions state:

- when each cleaning succeeds, and which labels a failure names;
- which labels the cleaned table has;
- that every surviving cell is its renamed cell rewritten by the rules of the
  statements that name its column.

The per-cell rules are proved separately in modules `Cells`, `Text` and
`Numeric`:

- lower-casing;
- title-casing;
- the name rule (trailing digits removed, then capitalized);
- the birth-place rule;
- the `County` suffix rule;
- the latitude apostrophes;
- integer coercion.

**Merges.** Module `Join` models `pd.merge` on key columns with the inner and
the left strategy. For each left row, in order, the output has one row per
right row whose key cells equal the left row's, in right order. A left join
gives an unmatched left row one row whose right-hand cells are missing. A
right key column is not repeated when it has the same label as its left key.
The merge is proved against reference definitions stated on cells:

- the row count, as a sum of per-row match counts, with at least one row per
  left row in a left join;
- the left-hand parts of the output, in order;
- the origin of every output row;
- the completeness of the join;
- the cells of each output column;
- the output labels.

`merge_patients_and_gender` is the inner join of `patient_id` with the gender
table's `Id`, followed by an in-place drop of `Id`. `merge_datasets` is a
merge on equal key lists.

**Master table.** `CenturyHealth.MergeAndInsertData` merges the patients with
their gender. It then runs the loop that left-merges symptoms, encounters,
conditions and medications, in that order and on their fixed key lists. It is
proved to compute `MasterTable`, and any merge error is its result. The
lemmas state three things:

- every patient row begins some row of the master table, so the master table
  has at least as many rows;
- the master table's labels are those of the six tables, without the gender
  table's `Id`;
- a concrete fan-out: one patient, two encounters and three conditions give
  two rows, then three.

**Two conventions in the source.**

- The name pattern `\d+$` is compiled by Python's `re`, whose `$` also matches
  just before a final newline. The name rule models this: `Text.EndsInDigits`
  and `Text.RemoveTrailingDigits`. Cleaning a name twice gives back the same
  name only for names without a newline (`Text.CleanNameIdempotent`).
  `Text.CleanNameNewlineCounterexample` shows a name for which it does not:
  `"a1\n2"` becomes `"A1\n"`, then `"A\n"`.
- Identifier values are not lower-cased uniformly before the joins.
  `clean_medications_data` lower-cases `patient_id`, `payer_id` and
  `encounter_id`, but `clean_encounter_data` and `clean_conditions_data`
  lower-case only `patient_id`. The last merge of the chain therefore compares
  lower-cased medication encounter and payer ids with the raw ids carried by
  the encounters. The model keeps this: `Cleaning.EncounterRules` names only
  `patient_id`, and `Cleaning.CleanEncountersIdentity` states that the cleaned
  encounter ids are the raw `Id` cells (`Cleaning.MedicationIdCells` states
  that the medication ids are lower-case). A raw id with an upper-case letter
  can never equal a lower-cased one. The gender merge has the same mismatch:
  it compares the lower-cased patient `patient_id` with the gender table's
  `Id`, which is pulled raw and never cleaned (`Century_Health.py:101-104`).
- `clean_encounter_data` lower-cases the labels before it drops
  `encounter_description`. The drop therefore succeeds for any raw label that
  lower-cases to it, and the model follows that order.

## Model

| member | source | states |
|---|---|---|
| Tables.Rename | utils/transformation.py:11-16 | each label that is a key of the map becomes its image and every other label is kept, position by position; no cell changes and the shape is kept |
| Tables.MapColumn | utils/transformation.py:19-20 | succeeds exactly when the column exists, else `KeyError([c])`; every cell of that column becomes `f` of the old cell; every other cell and every label is unchanged |
| Tables.MapColumns | utils/transformation.py:51-53 | the loop succeeds exactly when every listed label is a column; a failure names one absent listed label; unlisted columns are unchanged; when the labels are distinct, every listed cell becomes `f` of the old cell |
| Tables.AssignColumns | utils/transformation.py:58-59 | selecting several columns fails with a `KeyError` naming exactly the absent labels, before any change; otherwise each selected cell is rewritten and the others are kept |
| Tables.Drop | utils/transformation.py:23 | succeeds exactly when every label is a column, else `KeyError` naming exactly the absent ones; the surviving labels are the others, in order, with their cells; row count and case-distinctness are kept |
| Tables.LowerColumnNames | utils/transformation.py:119 | every label is lower-cased, no label has an upper-case letter afterwards, and no cell changes |
| Frames.Frame.Rename | utils/transformation.py:11-16 | the frame afterwards holds `Tables.Rename` of the table it held |
| Frames.Frame.SetColumn | utils/transformation.py:20 | reports `MapColumn`'s outcome; on success the frame holds its table; on `KeyError` the frame is unchanged |
| Frames.Frame.SetEach | utils/transformation.py:51-53 | the loop over the labels reports `MapColumns`' outcome, and on success the frame holds its table |
| Frames.Frame.SetColumns | utils/transformation.py:58-59 | reports `AssignColumns`' outcome; on success the frame holds its table; on `KeyError` the frame is unchanged |
| Frames.Frame.Drop | utils/transformation.py:23 | reports `Tables.Drop`'s outcome; on success the frame holds its table; on `KeyError` the frame is unchanged |
| Frames.Frame.LowerColumnNames | utils/transformation.py:119 | the frame afterwards holds `Tables.LowerColumnNames` of the table it held |
| Text.Lower | utils/transformation.py:20 | `str.lower` maps every character to its lower-case form, position by position: it keeps the length, leaves no upper-case letter, and changes nothing in a string that has none |
| Text.Title | utils/transformation.py:19 | `str.title`: a letter is upper-cased after a character without case and lower-cased after one with case; other characters are kept |
| Text.Capitalize | utils/transformation.py:104 | `str.capitalize`: the first character is not lower-case, no later one is upper-case, and each character changes only in case |
| Text.Strip | utils/transformation.py:108 | `str.strip` leaves no white space at either end and changes nothing in a string that has none there |
| Text.StripSlice | utils/transformation.py:108 | stripping keeps one contiguous slice of the string; everything removed before and after it is white space |
| Text.TrimStart | utils/transformation.py:112 | `lstrip` removes the longest prefix of characters in the set: the result is a suffix, everything removed is in the set, and its first character is not |
| Text.RemoveTrailingDigits | utils/transformation.py:104 | with `\d` read as the ASCII digits, the string is unchanged exactly when `\d+$` finds no match; otherwise the whole digit run that `$` ends is removed; without a newline, no trailing digit is left |
| Text.StripCountySuffix | utils/transformation.py:109 | a string ending in `County` loses those six characters and is then stripped; any other string is unchanged |
| Text.CountySuffixSlice | utils/transformation.py:109 | on a string ending in `County`, the result is one slice of what precedes the suffix, and only white space is cut on either side of it |
| Text.CleanName | utils/transformation.py:104-105 | the name rule keeps the length of the name with its trailing digits removed, differs from it only in case, makes the first character not lower-case and every other one not upper-case, and leaves no trailing digit in a name without a newline |
| Text.CapitalizeKeepsTrailingDigits | utils/transformation.py:104 | capitalizing does not change whether a string ends in digits |
| Text.CapitalizeIdempotent | utils/transformation.py:104 | capitalizing twice is capitalizing once |
| Text.CleanNameIdempotent | utils/transformation.py:104-105 | cleaning a name without a newline a second time changes nothing |
| Text.CleanNameExample | utils/transformation.py:104 | `"John123"` becomes `"John"` |
| Text.CleanNameNewlineCounterexample | utils/transformation.py:104 | because `$` also matches before a final newline, `"a1\n2"` becomes `"A1\n"` and a second cleaning gives `"A\n"` |
| Text.CountyExamples | utils/transformation.py:109 | `"Jefferson County"` becomes `"Jefferson"`, `"Dade"` is unchanged, and `"County"` becomes empty |
| Text.TitleOfLower | utils/transformation.py:51-55 | title-casing a lower-cased string is title-casing the string |
| Numeric.ParseInt | utils/transformation.py:59 | a parse succeeds only on an optional sign followed by decimal digits, and a digit string parses to its value |
| Numeric.ParseIntRoundTrip | utils/transformation.py:59 | the decimal notation of every integer parses back to that integer |
| Numeric.ParseIntExamples | utils/transformation.py:59 | `"123"` and `"-7"` parse; `"12a"`, `""` and `"-"` do not |
| Cells.LowerCell | utils/transformation.py:20 | `.str.lower()` turns a string cell into `Text.Lower` of it and any other cell into a missing value; the result is a lower-case string or missing, and a cell already lower-case is unchanged |
| Cells.TitleCell | utils/transformation.py:19 | `.str.title()` turns a string cell into `Text.Title` of it, of the same length, and any other cell into a missing value |
| Cells.NameCell | utils/transformation.py:104-105 | the name cell rule turns a string cell into `Text.CleanName` of it and any other cell into a missing value, and leaves no trailing digit in a name without a newline |
| Cells.PlaceCell | utils/transformation.py:108 | the birth-place cell rule turns a string cell into the title-casing of its stripped value and any other cell into a missing value |
| Cells.CountyCell | utils/transformation.py:109 | a non-string is unchanged; a string ending in `County` loses the suffix and is stripped; any other string is unchanged |
| Cells.LatitudeCell | utils/transformation.py:112 | a non-string is unchanged; a string loses exactly its leading apostrophes |
| Cells.CoerceIntCell | utils/transformation.py:58-59 | the result is never a string; a number (an integer, or a float held as `Other`) and a missing value are kept; a string becomes an integer exactly when it parses to a value in the int64 or uint64 range, and then becomes that value; a literal outside that range becomes a float; any other string becomes missing |
| Cells.TitleCellOfLower | utils/transformation.py:51-55 | lower-casing a cell before title-casing it changes nothing |
| Cells.CoerceIntExamples | utils/transformation.py:59 | `"30"` becomes 30; `"n/a"` becomes missing; a missing value and a float stay as they are |
| Cells.CoerceIntOutOfRange | utils/transformation.py:59 | the literals of 2^64 and of -2^63-1 become floats, as pandas gives for integers outside the int64/uint64 range |
| Steps.Perform | utils/transformation.py:19-20 | one cell statement succeeds exactly when its columns exist; a failure names only absent ones; it keeps the labels and the row count |
| Steps.Apply | utils/transformation.py:51-66 | a list of cell statements succeeds exactly when each label they look up exists, and a failure names only absent ones; when no statement names a label twice, each cell becomes `After`, the composition of the rules of the statements naming its column, in order |
| Steps.AfterUnnamed | utils/transformation.py:51-66 | a column no statement names keeps its cells |
| Steps.AfterOnly | utils/transformation.py:51-66 | a column that one statement alone names is rewritten by that statement's rule alone |
| Cleaning.CleanConditions | utils/transformation.py:5-25 | the conditions cleaning keeps the row count |
| Cleaning.CleanConditionsContract | utils/transformation.py:11-23 | succeeds exactly when every looked-up label exists after renaming; a failure names only absent ones; the labels are the renamed ones less the dropped ones; every cell is its renamed cell under the rules naming its column |
| Cleaning.ConditionRules | utils/transformation.py:19-20 | only `patient_id` is lower-cased among the surviving columns; a column no statement names, such as `encounter_id`, passes through unchanged |
| Cleaning.ConditionsDropped | utils/transformation.py:23 | on the renamed conditions layout, the drop keeps exactly `patient_id` and `encounter_id` |
| Cleaning.CleanConditionsLayout | utils/transformation.py:11-23 | raw columns START, STOP, PATIENT, ENCOUNTER, CODE, DESCRIPTION give exactly the columns `patient_id`, `encounter_id`, with the same row count |
| Cleaning.CleanMedications | utils/transformation.py:28-71 | the medications cleaning keeps the row count |
| Cleaning.CleanMedicationsContract | utils/transformation.py:34-69 | succeeds exactly when every looked-up label exists after renaming; a failure names only absent ones; the labels are the renamed ones less the dropped ones; every cell is its renamed cell under the rules naming its column |
| Cleaning.MedicationIdRule | utils/transformation.py:51-53 | the patient, payer and encounter identifiers are lower-cased |
| Cleaning.MedicationDescriptionRule | utils/transformation.py:51-55 | the drug description, lower-cased and then title-cased, is title-cased |
| Cleaning.MedicationIntRule | utils/transformation.py:58-59 | the code, dispensed-quantity and reason-code columns are coerced to integers |
| Cleaning.MedicationKeptRule | utils/transformation.py:51-66 | a column no statement names keeps its cell |
| Cleaning.CleanMedicationsDrops | utils/transformation.py:69 | none of `reason_description`, `reason_code`, `payer_coverage`, `start_date`, `end_date` is left |
| Cleaning.MedicationIntCells | utils/transformation.py:58-59 | every surviving integer column holds, in every row, the integer coercion of its renamed cell, so never a string, whatever the input held |
| Cleaning.MedicationFloatRule | utils/transformation.py:61-62 | the base-cost and total-cost columns go through the numeric coercion `Cells.ToNumber` |
| Cleaning.MedicationFloatCells | utils/transformation.py:61-62 | every surviving cost column holds, in every row, the numeric coercion of its renamed cell: never a string, and missing where the input was missing |
| Cleaning.MedicationIdCells | utils/transformation.py:51-53 | every surviving `patient_id`, `payer_id` and `encounter_id` column holds, in every row, the lower-casing of its renamed cell: a lower-case string or a missing value |
| Cleaning.CleanPatients | utils/transformation.py:74-121 | the patients cleaning keeps the row count, and every output label is lower-case |
| Cleaning.CleanPatientsOutcome | utils/transformation.py:80-119 | succeeds exactly when `GENDER` and every looked-up label exist after renaming; a failure names only absent ones; the labels are the lower-cased renamed labels other than `GENDER` |
| Cleaning.CleanPatientsCells | utils/transformation.py:80-119 | with renamed labels that are distinct up to case, each output column holds its renamed column's cells under the rules naming that column |
| Cleaning.CleanPatientsDropsGender | utils/transformation.py:94 | with renamed labels distinct up to case, neither `GENDER` nor `gender` is left |
| Cleaning.PatientIdRule | utils/transformation.py:97 | the patient identifier is lower-cased, and a column no statement names keeps its cell |
| Cleaning.PatientFirstNameRule | utils/transformation.py:104 | the first name gets the name rule |
| Cleaning.PatientLastNameRule | utils/transformation.py:105 | the last name gets the name rule |
| Cleaning.PatientBirthPlaceRule | utils/transformation.py:108 | the birth place is stripped and title-cased |
| Cleaning.PatientCountyRule | utils/transformation.py:109 | the county gets the `County` suffix rule |
| Cleaning.PatientLatitudeRule | utils/transformation.py:112 | the latitude loses its leading apostrophes |
| Cleaning.PatientDateRules | utils/transformation.py:100-101 | the birth and death dates go through the date conversion `Cells.ToDate` |
| Cleaning.PatientNumberRules | utils/transformation.py:113-116 | longitude and income go through the numeric coercion `Cells.ToNumber` |
| Cleaning.PatientConvertedCells | utils/transformation.py:100-116 | with renamed labels distinct up to case, every converted patient column holds, in every row, the conversion of its renamed cell: never a string, and missing where the input was missing |
| Cleaning.CleanSymptoms | utils/transformation.py:124-151 | the symptoms cleaning keeps the row count, and every output label is lower-case |
| Cleaning.CleanSymptomsOutcome | utils/transformation.py:130-149 | succeeds exactly when every looked-up and every dropped label exists after renaming; a failure names only absent ones; the labels are the lower-cased renamed labels that are not dropped |
| Cleaning.CleanSymptomsCells | utils/transformation.py:130-149 | with renamed labels distinct up to case, each output column holds its renamed column's cells under the rules naming that column |
| Cleaning.CleanSymptomsDropsDemographics | utils/transformation.py:146 | with renamed labels distinct up to case, no lower-cased `GENDER`, `race` or `symptoms_ethnicity` is left |
| Cleaning.SymptomRules | utils/transformation.py:142-143 | the pathology is title-cased, the patient identifier lower-cased, and every other column kept |
| Cleaning.CleanEncounters | utils/transformation.py:154-187 | the encounters cleaning keeps the row count |
| Cleaning.CleanEncountersOutcome | utils/transformation.py:160-185 | succeeds exactly when `patient_id` exists after renaming and some label lower-cases to `encounter_description`; otherwise the `KeyError` names the first of the two that is missing |
| Cleaning.CleanEncountersColumns | utils/transformation.py:182-185 | the labels are the lower-cased renamed labels other than `encounter_description`, and all are lower-case |
| Cleaning.CleanEncountersCells | utils/transformation.py:160-185 | with renamed labels distinct up to case, each surviving column holds its renamed column's cells under the rules naming that column |
| Cleaning.EncounterRules | utils/transformation.py:179 | only `patient_id` is lower-cased; every other column is kept |
| Cleaning.EncounterIdRenamedOnce | utils/transformation.py:161 | with an `Id` column and no `encounter_id` column, the renamed `encounter_id` column holds the `Id` cells |
| Cleaning.CleanEncountersIdentity | utils/transformation.py:160-185 | the cleaned `encounter_id` column holds the raw `Id` cells unchanged |
| Transformation.CleanConditionsData | utils/transformation.py:5-25 | run on the frame statement by statement, it leaves the table `CleanConditions` gives, or reports its `KeyError` |
| Transformation.CleanMedicationsData | utils/transformation.py:28-71 | run on the frame statement by statement, including the loop over the identifier columns, it leaves the table `CleanMedications` gives, or reports its `KeyError` |
| Transformation.CleanPatientsData | utils/transformation.py:74-121 | run on the frame statement by statement, it leaves the table `CleanPatients` gives, or reports its `KeyError` |
| Transformation.CleanSymptomsData | utils/transformation.py:124-151 | run on the frame statement by statement, it leaves the table `CleanSymptoms` gives, or reports its `KeyError` |
| Transformation.CleanEncounterData | utils/transformation.py:154-187 | run on the frame statement by statement, it leaves the table `CleanEncounters` gives, or reports its `KeyError` |
| Transformation.PatientsWithGender | utils/transformation.py:196-199 | the merged patients have no `Id` column |
| Transformation.PatientsWithGenderOutcome | utils/transformation.py:196-199 | succeeds exactly when `patient_id` and `Id` exist; the gender table's `Id` is checked first; the labels are those of both tables other than `Id` |
| Transformation.PatientsWithGenderRows | utils/transformation.py:196-199 | every merged row comes from a patient row and a gender row whose `patient_id` and `Id` are equal, and carries their cells |
| Transformation.PatientsWithGenderRowCount | utils/transformation.py:196 | when each patient matches exactly one gender row, there is one merged row per patient |
| Transformation.MergePatientsAndGender | utils/transformation.py:190-203 | builds a new frame holding `PatientsWithGender`, or returns its error |
| Transformation.MergeDatasets | utils/transformation.py:206-211 | succeeds exactly when both datasets have every key; a failure names one absent key; the first dataset's labels come first |
| Transformation.MergeDatasetsLabels | utils/transformation.py:211 | the merged labels are exactly those of either dataset |
| Join.Merge | utils/transformation.py:211 | succeeds exactly when every key is a column on its side; a failure names one absent key; the labels are the left ones followed by the kept right ones |
| Join.KeysEqualIffAgree | utils/transformation.py:211 | comparing the key positions is comparing the key cells by label |
| Join.MatchesCount | utils/transformation.py:211 | the merge finds, for a left row, exactly as many right rows as agree with it on the keys |
| Join.MatchesFromSound | utils/transformation.py:211 | every right row the merge picks for a key has exactly that key |
| Join.MatchesFromComplete | utils/transformation.py:211 | every right row with the key, from the starting row on, is picked |
| Join.MergeRowCount | utils/transformation.py:211 | the output has the sum over left rows of their match counts, each raised to at least one in a left join; a left join has at least as many rows as its left table |
| Join.MergeLeftParts | utils/transformation.py:211 | read down the output, its left-hand cells are the left rows in order, each repeated as often as the join emits it |
| Join.LeftMergeKeepsLeftRows | utils/transformation.py:211 | every left row begins some output row of a left join, key cells included |
| Join.MergeRowsOrigin | utils/transformation.py:211 | every output row is a left row followed by the kept cells of an agreeing right row or, in a left join of an unmatched left row, by missing cells |
| Join.MergeComplete | utils/transformation.py:211 | every pair of agreeing left and right rows appears, joined, in the output |
| Join.MergeLeftCells | utils/transformation.py:211 | in every left column, an output row has the cells of the left row it comes from |
| Join.MergeRightCells | utils/transformation.py:211 | in every right-only column, an output row joined with a right row has that row's cells |
| Join.MergeUnmatchedCells | utils/transformation.py:211 | in every right-only column, a left join's row for an unmatched left row holds missing values |
| Join.MergeLabels | utils/transformation.py:211 | an output label is a left label, or a right label other than a shared key, and every such label is an output label |
| Join.JoinSizeUnique | utils/transformation.py:196 | when every left row matches exactly one right row, an inner join has one row per left row |
| CenturyHealth.MergeAndInsertData | Century_Health.py:99-120 | the merge step computes `MasterTable`: the gender merge, then the four planned left merges; the first error is its result |
| CenturyHealth.MergeEach | Century_Health.py:113-120 | the loop that reassigns `merged_df` computes `Chain` of the plan |
| CenturyHealth.Chain | Century_Health.py:114-120 | a chain of left merges keeps the starting table's labels as the prefix of its labels |
| CenturyHealth.ChainKeepsRowCount | Century_Health.py:114-120 | a chain of left merges never has fewer rows than the table it starts from |
| CenturyHealth.ChainKeepsRows | Century_Health.py:114-120 | every starting row begins some row of the chain's result |
| CenturyHealth.ChainLabels | Century_Health.py:114-120 | a label of the result is a label of the start or of a merged dataset, and conversely |
| CenturyHealth.PlanLabels | Century_Health.py:107-119 | the datasets of the plan are the symptoms, encounters, conditions and medications |
| CenturyHealth.MasterTableRowCount | Century_Health.py:104-120 | the master table has at least as many rows as the patients merged with their gender |
| CenturyHealth.MasterTableKeepsPatients | Century_Health.py:104-120 | every row of the patients merged with their gender begins some master row, and the master labels begin with theirs |
| CenturyHealth.MasterTableLabels | Century_Health.py:104-120 | the master labels are those of the six tables, without the gender table's `Id` |
| CenturyHealth.MasterTableErrors | Century_Health.py:104-120 | a failed gender merge is the result; a symptoms table without `patient_id` gives `KeyError(["patient_id"])` |
| CenturyHealth.EncounterFanOut | Century_Health.py:118 | one patient left-merged with two of their encounters gives just those two rows |
| CenturyHealth.ConditionFanOut | Century_Health.py:118 | those two rows left-merged on encounter and patient with three conditions give three rows |
| CenturyHealth.FanOutExample | Century_Health.py:114-120 | on the plan's keys, one patient, two encounters and three conditions give two rows, then three |

## Left out

- Airflow tasks and scheduling, the XCom pulls, and file reading and writing are not modelled. The pulled tables are the parameters of `MergeAndInsertData`. The CSV export, the database connection probe, the commented-out SQL insert, logging and `print` are left out too. All of these are I/O or scheduler plumbing.
- Date parsing (`pd.to_datetime`, `tz_localize`) and the float and numeric coercions (`base_cost`, `total_cost`, `longitude`, `income`) are the constants `Cells.ToDate` and `Cells.ToNumber` of type `Cells.Conversion`. The model knows only that such a conversion never leaves a string and keeps a missing value missing; which timestamp or number a string becomes, and which strings become NaT or NaN, is library-defined date and floating-point behaviour that is not modelled.
- Cleaning.CleanPatients: the `birth_date`, `death_date`, `longitude` and `income` cells are stated only up to `Cells.ToDate` and `Cells.ToNumber` (`Cleaning.PatientConvertedCells`), not as the timestamps and numbers pandas computes.
- Cleaning.CleanMedications: the `base_cost` and `total_cost` cells are stated only up to `Cells.ToNumber` (`Cleaning.MedicationFloatCells`), and the dropped `start_date` and `end_date` go through `Cells.ToDate`.
- The `downcast` dtype choices are not modelled. They pick a storage width, not a value.
- `Numeric.ParseInt`: accepts a narrower syntax than `pd.to_numeric`: an optional sign and ASCII digits, with no surrounding white space, no underscores, no `"30.0"` and no exponent. An integer-valued float is not modelled.
- Cells.CoerceIntCell: `pd.to_numeric` with `downcast='integer'` works on the whole column; the model works cell by cell. A string such as `"30.5"` becomes missing rather than a float, an integer is not widened to a float when the column also holds floats, and a cell of any other kind is kept rather than coerced. The float a literal outside the int64/uint64 range becomes is not modelled beyond being `Other`.
- Cleaning.MedicationIntCells: states the coercion cell by cell, with the coercion limits of `Cells.CoerceIntCell`; it does not state a column dtype.
- Text.Strip: white space is `Text.IsSpace`, the characters `str.isspace` accepts (ASCII white space, the separators `\x1c` to `\x1f`, and the Unicode space and line separators), listed out rather than taken from the Unicode database.
- Text.RemoveTrailingDigits: `\d` is read as the ASCII digits 0-9 (`Text.IsDigit`). Python's `re` matches every Unicode decimal digit for a `str` pattern, so a name ending in, say, an Arabic-Indic digit loses it in the source but keeps it in `Text.CleanName` and `Cells.NameCell`.
- Label lookup: a label held by several columns is looked up as its first column (`Tables.Cell`, `Tables.MapColumn` and the functions built on them). pandas selects all of them as a data frame: `.str` on it raises `AttributeError`, `df[c] = …` assigns every such column, and `merge` raises `ValueError` on a non-unique key label. None of these errors is modelled; for example, a raw patients table holding both `PATIENT_ID` and `patient_id` fails in the source at the `patient_id` lower-casing and succeeds in the model.
- Case rules (`Text.Lower`, `Text.Title`, `Text.Capitalize`) cover ASCII letters only. There is no Unicode case mapping.
- `.str` operations give a missing value for every non-string cell. The `AttributeError` pandas raises for `.str` on a column with no strings at all is not modelled.
- Frames.Frame.SetEach: when the loop stops at an absent label, the contract does not state what the frame then holds: the labels before it have already been rewritten.
- Join.Merge: the `_x`/`_y` suffixes pandas gives overlapping non-key labels are not modelled. Such a label appears twice, and a lookup finds the left one.
- Join.Merge: every `Other` cell (a float, a timestamp, a boolean or any other non-string, non-integer object) is the same value, so two such key cells always agree, where pandas compares them by value. The merge chain's keys are string identifiers and are not affected; `merge_datasets` on other key columns is.
- Join.Merge: merge errors from mismatched key dtypes are not modelled. Only the missing-key `KeyError` is.
- Join.Merge: when both sides lack a key, the model names the first absent key, taken pair by pair and the right side first. pandas may report a different one.
- A single key label in the merge loop is modelled as a one-label key list. pandas joins the same way on both.
- Cleaning.CleanPatientsCells, Cleaning.CleanSymptomsCells, Cleaning.CleanEncountersCells: require renamed labels that are distinct up to case. Otherwise lower-casing the labels makes two columns share a label, and a lookup finds only the first.
- Cleaning.CleanConditionsLayout: states the exact columns and the row count on the raw conditions layout but not the cells. The cells follow from `Cleaning.CleanConditionsContract`.
- Text.CleanNameIdempotent: holds only for names without a newline, because `$` also matches before a final newline; `Text.CleanNameNewlineCounterexample` shows the exception.
- `Century_Health.py` outside the merge chain, and all of `utils/database.py`, are not part of this model.
