# Hospital billing estimator: the one-hot feature encoder

The application is a form that collects a patient's profile and asks a
pre-trained regression model for an estimated billing amount. Its only
original logic is the feature encoder run when the estimate button is
pressed (`app.py`). The encoder takes the model's ordered column schema and
one form submission: an age, a stay duration and six categorical selections.
It builds a one-row table as follows:

1. Every schema column starts at 0.
2. `Age` and `Duration_Days` are then assigned the two numbers. This
   assignment is not guarded. A table that lacks the column gains it at the
   end, as a pandas column assignment does.
3. Each selection becomes a candidate column name: the field's label, `_`,
   then the value (`Blood Type_O+`).
4. A candidate is set to 1 only when the schema lists it. Otherwise it is
   skipped.

The project has three modules:

- `Form` (Form.dfy) holds the submission record and the widgets' option lists
  and bounds. It also holds the field labels, the candidate names and their
  inverse, a split at the first underscore.
- `Frames` (Frames.dfy) treats the table as a value: column names with one
  integer cell each. It gives the meaning of a column assignment (`Set`), of
  the guarded write (`SetIfListed`) and of the candidate loop
  (`SetAllListed`).
- `Encoder` (Encoder.dfy) has the `FeatureRow` class, which holds
  `cols: seq<string>` and `vals: array<int>` and is filled in place. Its
  method `SetListed` holds the loop over the candidates. The `Encode` method
  creates the row, assigns the two numbers and runs that loop. `Encode` is proved
  against the function `EncodeFrame`. The properties are proved about
  `EncodeFrame`, against the reference function `Expected`: age for `Age`,
  duration for `Duration_Days`, 1 for a candidate column, 0 for anything
  else.

The lemmas hold for every submission, not only for what the widgets allow.
The widget bounds (`ValidInput`) are a precondition only of the two methods
that run the encoder, `Encode` and `EncodeTwice`. `ExampleScenario` proves
that its submission meets them.

## Column list

The row is built "with the model's columns" (the comment at app.py:55) and
then goes to the scaler and the model as their input (app.py:70). The code
does not make sure the row keeps exactly those columns, though. The numeric
assignments at app.py:59-60 have no membership guard. When the schema lacks
`Age` or `Duration_Days`, pandas appends that column at the end, so the row
then has more columns than the schema. The one-hot writes never add a
column, because they are guarded. `EncodeColumns` states the resulting
column list in both cases.

## Model

| member | source | states |
|---|---|---|
| Form.ValidInput | app.py:42-51 | age is in 0..120, duration is at least 1, and each selection is one of its select box's options |
| Form.Selections | app.py:64-65 | one selected value per field label, as many as there are labels; the order, the loop's at app.py:64-65, is what `CandidateNames` states |
| Form.CandidateName | app.py:64-65 | the f-string of one field: the label, then `_`, then the selected value (its parts are stated by `CandidateNameParts`) |
| Form.CandidateNameParts | app.py:64-65 | a candidate name is the label, then `_` just after it, then the value, and its length is the sum of the three |
| Form.CandidateNames | app.py:64-65 | the six candidate names, in loop order, are exactly `Gender_`, `Blood Type_`, `Medical Condition_`, `Admission Type_`, `Medication_` and `Test Results_`, each followed by its field's selected value |
| Form.SplitName | app.py:64-65 | inverse of name building: it splits at the first underscore, returns None exactly when there is no underscore, and gives a label without `_` that rebuilds the name |
| Form.SplitCandidate | app.py:64-65 | round trip: splitting `label_value` gives back `(label, value)` whenever the label has no underscore |
| Form.LabelsHaveNoUnderscore | app.py:64-65 | none of the six fixed field labels contains `_` |
| Form.CandidateNameInjective | app.py:64-65 | two fields' candidate names are equal only when the fields and the selected values are equal |
| Form.CandidateNotNumeric | app.py:59-65 | no candidate name, whatever the value, is `Age` or `Duration_Days`, so the one-hot writes never overwrite a number |
| Form.CandidateNamesDistinct | app.py:64-65 | the six candidate names of one submission are pairwise distinct, and none is a numeric column |
| Frames.Zero | app.py:56 | the zero-filled table has exactly the schema's columns, in order, with every cell 0 |
| Frames.Set | app.py:59-60 | column assignment: every column of that name gets the value and the others keep theirs; an absent name is appended as the last column, holding the value |
| Frames.SetIfListed | app.py:66-67 | the guarded write leaves the row unchanged when the schema does not list the name; otherwise it puts 1 into every column of that name, appending the column when the row lacks it, and keeps every other cell |
| Frames.SetAllListed | app.py:64-67 | the candidate loop never removes or reorders columns: the old column list is a prefix of the new one |
| Frames.SetAllListedCells | app.py:64-67 | when every schema name is already a column, the loop keeps the column list and puts 1 into exactly the columns that are both candidates and listed in the schema; every other cell keeps its value |
| Frames.SetAllListedDropUnlisted | app.py:66 | a candidate the schema does not list contributes nothing: the loop gives the same row without it |
| Frames.DropKeepsOthers | app.py:64-66 | removing one candidate from the list does not affect whether any other name is in the list |
| Encoder.FeatureRow.constructor | app.py:56 | the new row has exactly the schema's columns, in order, in a fresh buffer of zeros |
| Encoder.FeatureRow.Assign | app.py:59-60 | the row's new contents are the old contents with the column assigned, or with the column appended when absent; the row stays well formed |
| Encoder.FeatureRow.SetListed | app.py:64-67 | the candidate loop on the row in place: the new contents are the guarded writes of the names, in order, applied to the old contents |
| Encoder.NumericFrame | app.py:56-60 | after zero fill and the two numeric assignments, the columns are the schema followed by the missing numeric columns, and each cell holds the age, the duration or 0, depending on its column's name |
| Encoder.EncodeFrame | app.py:55-67 | the encoder's result as a value: the numeric row followed by the guarded writes of the six candidates; the schema is always a prefix of its column list (fully described by `EncodeColumns` and `EncodeCells`) |
| Encoder.Appended | app.py:59-60 | the columns the numeric assignments append: `Age` exactly when the schema lacks it, and likewise `Duration_Days` |
| Encoder.Expected | app.py:56-67 | the reference value of a column: the age for `Age`, the duration for `Duration_Days`, otherwise 1 exactly when the name is a candidate and 0 exactly when it is not |
| Encoder.Encode | app.py:55-67 | builds a fresh row whose contents are `EncodeFrame(schema, p)`: zero fill, the two numeric assignments, then the candidate loop in field order |
| Encoder.EncodeTwice | app.py:55-67 | two runs on the same input give two separate rows with identical contents, so no state is kept between runs |
| Encoder.EncodeColumns | app.py:56-67 | the encoded columns are the schema in order, followed by whichever of `Age` and `Duration_Days` the schema lacks, in that order; when the schema has both, the columns are exactly the schema |
| Encoder.EncodeCells | app.py:56-67 | every cell holds its column's expected value: the age, the duration, 1 for a candidate column, 0 otherwise |
| Encoder.EncodeMatchesExpected | app.py:56-67 | over a schema with both numeric columns, the encoded row equals the schema paired with the expected value of each column |
| Encoder.EncodeNumerics | app.py:59-60 | `Age` and `Duration_Days` are present after encoding, and every column of those names holds the submitted age and duration |
| Encoder.EncodeListedCandidate | app.py:64-67 | a candidate the schema lists is in the row, and every column of that name holds 1 |
| Encoder.EncodeUnlistedCandidate | app.py:66 | a candidate the schema does not list is not added, and the row equals the one built from the other five candidates alone |
| Encoder.EncodeOneHotPerField | app.py:64-67 | within each field, the column of the selected value holds 1 and the column of any other value of that field holds 0 |
| Encoder.OtherValueExpected | app.py:64-67 | the column of any value of a field other than the selected one is expected to hold 0 |
| Encoder.EncodeOthersZero | app.py:56-67 | every column that is neither numeric nor a candidate stays 0 |
| Encoder.ExampleScenario | app.py:42-67 | the worked example: age 30, Male, 5 days, Diabetes, O+, Elective, Aspirin, Normal, over a 12-column schema, encodes to `[30, 5, 0, 1, 0, 1, 1, 0, 1, 0, 1, 1]` |

## Left out

- Loading the model, scaler and column list from pickle files, and the
  process-wide cache (app.py:7-17). This is file I/O and deserialisation of
  opaque objects. The schema is a parameter instead.
- The Streamlit page and widgets (app.py:20-54). Only their bounds and
  option lists are kept, as `Form.ValidInput`.
- `scaler.transform` and `model.predict` (app.py:70, app.py:73). These are
  floating-point computations inside library objects whose internals are not
  available.
- The currency formatting of the prediction (app.py:75). This is float
  formatting of an opaque result.
- Cell values are unbounded integers. The 64-bit integer type of the pandas
  columns is not modelled, because the ages and durations the widgets produce
  fit in it.
- The schema is taken as an immutable sequence. That the encoder only reads
  `model_columns` is therefore a property of the types rather than a proved
  statement.
