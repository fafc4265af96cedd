/** The feature encoder run by the estimate button: a zero-filled row over the
    model's column schema, the two numeric cells, then one guarded one-hot
    write per categorical field. */
module Encoder {
  import opened Form
  import opened Frames

  /** The single-row table the encoder fills in place: its column names and
      a buffer with one cell per column. */
  class FeatureRow {
    var cols: seq<string>
    var vals: array<int>

    ghost predicate Valid()
      reads this
    {
      |cols| == vals.Length
    }

    /** The row as a value. */
    ghost function Contents(): (f: Frame)
      reads this, vals
      requires Valid()
      ensures f.Valid()
    {
      Frame(cols, vals[..])
    }

    /** A row with exactly the schema's columns, in the schema's order, every
        cell 0. */
    constructor (schema: seq<string>)
      ensures Valid() && fresh(vals)
      ensures cols == schema
      ensures forall i :: 0 <= i < vals.Length ==> vals[i] == 0
      ensures Contents() == Zero(schema)
    {
      cols := schema;
      vals := new int[|schema|](_ => 0);
    }

    /** Assigns v to the column called name, appending the column at the end
        when the row does not have it. */
    method Assign(name: string, v: int)
      requires Valid()
      modifies this, vals
      ensures Valid() && (vals == old(vals) || fresh(vals))
      ensures Contents() == Set(old(Contents()), name, v)
    {
      if name in cols {
        forall i | 0 <= i < vals.Length && cols[i] == name {
          vals[i] := v;
        }
      } else {
        var grown := new int[vals.Length + 1];
        forall i | 0 <= i < vals.Length {
          grown[i] := vals[i];
        }
        grown[vals.Length] := v;
        cols, vals := cols + [name], grown;
      }
    }

    /** The one-hot loop: for each name in order, sets that column to 1 when
        the schema lists the name, and skips it otherwise. */
    method SetListed(schema: seq<string>, names: seq<string>)
      requires Valid()
      modifies this, vals
      ensures Valid() && (vals == old(vals) || fresh(vals))
      ensures Contents() == SetAllListed(old(Contents()), schema, names)
    {
      ghost var start := Contents();
      for i := 0 to |names|
        invariant Valid() && (vals == old(vals) || fresh(vals))
        invariant Contents() == SetAllListed(start, schema, names[..i])
      {
        if names[i] in schema {
          Assign(names[i], 1);
        }
        assert names[..i + 1][..i] == names[..i];
      }
      assert names[..|names|] == names;
    }
  }

  /** The row after the two numeric assignments. */
  function NumericFrame(schema: seq<string>, p: PatientInput): (f: Frame)
    ensures f.Valid()
    ensures f.cols == schema + Appended(schema)
    ensures forall i :: 0 <= i < |f.cols| ==>
      f.vals[i] == if f.cols[i] == "Age" then p.age else if f.cols[i] == "Duration_Days" then p.duration else 0
  {
    Set(Set(Zero(schema), "Age", p.age), "Duration_Days", p.duration)
  }

  /** The row the encoder produces for a schema and a submission. */
  function EncodeFrame(schema: seq<string>, p: PatientInput): (f: Frame)
    ensures f.Valid()
    ensures |schema| <= |f.cols| && forall i :: 0 <= i < |schema| ==> f.cols[i] == schema[i]
  {
    SetAllListed(NumericFrame(schema, p), schema, CandidateNames(p))
  }

  /** The numeric columns the schema lacks, in the order the encoder appends them. */
  function Appended(schema: seq<string>): (r: seq<string>)
    ensures "Age" in r <==> "Age" !in schema
    ensures "Duration_Days" in r <==> "Duration_Days" !in schema
  {
    (if "Age" in schema then [] else ["Age"]) +
    (if "Duration_Days" in schema then [] else ["Duration_Days"])
  }

  /** What a column called c holds after encoding, independent of position. */
  function Expected(c: string, p: PatientInput): (r: int)
    ensures c == "Age" ==> r == p.age
    ensures c == "Duration_Days" ==> r == p.duration
    ensures c != "Age" && c != "Duration_Days" ==> (r == 1 <==> c in CandidateNames(p)) && (r == 0 <==> c !in CandidateNames(p))
  {
    if c == "Age" then p.age
    else if c == "Duration_Days" then p.duration
    else if c in CandidateNames(p) then 1
    else 0
  }

  /** The expected value of every schema column, in schema order. */
  function ExpectedRow(schema: seq<string>, p: PatientInput): (r: seq<int>)
    ensures |r| == |schema|
  {
    seq(|schema|, i requires 0 <= i < |schema| => Expected(schema[i], p))
  }

  /** Builds the row for one submission: zero-fill over the schema, the two
      numeric assignments, then the guarded one-hot writes in field order. */
  method Encode(schema: seq<string>, p: PatientInput) returns (row: FeatureRow)
    requires ValidInput(p)
    ensures fresh(row) && fresh(row.vals) && row.Valid()
    ensures row.Contents() == EncodeFrame(schema, p)
  {
    row := new FeatureRow(schema);
    row.Assign("Age", p.age);
    row.Assign("Duration_Days", p.duration);
    row.SetListed(schema, CandidateNames(p));
  }

  /** Two runs on the same schema and submission build two separate rows
      with the same contents: the encoder keeps no state between runs. */
  method EncodeTwice(schema: seq<string>, p: PatientInput) returns (first: FeatureRow, second: FeatureRow)
    requires ValidInput(p)
    ensures fresh(first) && fresh(second) && first != second
    ensures first.Valid() && second.Valid() && first.vals != second.vals
    ensures first.Contents() == second.Contents() == EncodeFrame(schema, p)
  {
    first := Encode(schema, p);
    second := Encode(schema, p);
  }

  /** The encoded row's columns are the schema, in order, followed by any
      numeric column the schema lacks; when the schema has both numeric
      columns the encoded row has exactly the schema's columns. */
  lemma EncodeColumns(schema: seq<string>, p: PatientInput)
    ensures EncodeFrame(schema, p).cols == schema + Appended(schema)
    ensures "Age" in schema && "Duration_Days" in schema ==> EncodeFrame(schema, p).cols == schema
  {
    var numeric := NumericFrame(schema, p);
    assert numeric.cols == schema + Appended(schema);
    SetAllListedCells(numeric, schema, CandidateNames(p));
  }

  /** Every cell of the encoded row holds what its column name calls for:
      the age, the duration, 1 for a candidate column, 0 for the rest. */
  lemma EncodeCells(schema: seq<string>, p: PatientInput)
    ensures var f := EncodeFrame(schema, p);
      forall i :: 0 <= i < |f.cols| ==> f.vals[i] == Expected(f.cols[i], p)
  {
    var numeric, names := NumericFrame(schema, p), CandidateNames(p);
    SetAllListedCells(numeric, schema, names);
    CandidateNamesDistinct(p);
    forall i | 0 <= i < |numeric.cols|
      ensures SetAllListed(numeric, schema, names).vals[i] == Expected(numeric.cols[i], p)
    {
      CellExpected(schema, p, numeric.cols[i]);
    }
  }

  /** One column's encoded value, from its numeric value and whether it is a
      listed candidate. */
  lemma CellExpected(schema: seq<string>, p: PatientInput, c: string)
    requires c in schema + Appended(schema)
    requires "Age" !in CandidateNames(p) && "Duration_Days" !in CandidateNames(p)
    ensures Expected(c, p) ==
      if c in CandidateNames(p) && c in schema then 1
      else if c == "Age" then p.age else if c == "Duration_Days" then p.duration else 0
  {
    if c in CandidateNames(p) {
      // A candidate is never numeric, so it is not one of the appended columns.
      assert c !in Appended(schema);
    }
  }

  /** Over a schema that has both numeric columns, the encoded row is
      exactly the schema with each column's expected value. */
  lemma EncodeMatchesExpected(schema: seq<string>, p: PatientInput)
    requires "Age" in schema && "Duration_Days" in schema
    ensures EncodeFrame(schema, p) == Frame(schema, ExpectedRow(schema, p))
  {
    EncodeColumns(schema, p);
    EncodeCells(schema, p);
    var f := EncodeFrame(schema, p);
    assert f.vals == ExpectedRow(schema, p);
  }

  /** Age and Duration_Days are present after encoding and every column of
      those names holds the submitted number. */
  lemma EncodeNumerics(schema: seq<string>, p: PatientInput)
    ensures var f := EncodeFrame(schema, p);
      "Age" in f.cols && "Duration_Days" in f.cols &&
      (forall i :: 0 <= i < |f.cols| && f.cols[i] == "Age" ==> f.vals[i] == p.age) &&
      (forall i :: 0 <= i < |f.cols| && f.cols[i] == "Duration_Days" ==> f.vals[i] == p.duration)
  {
    EncodeColumns(schema, p);
    EncodeCells(schema, p);
  }

  /** A candidate column the schema lists holds 1 after encoding. */
  lemma EncodeListedCandidate(schema: seq<string>, p: PatientInput, k: nat)
    requires k < |Labels| && CandidateNames(p)[k] in schema
    ensures var f := EncodeFrame(schema, p);
      CandidateNames(p)[k] in f.cols &&
      forall i :: 0 <= i < |f.cols| && f.cols[i] == CandidateNames(p)[k] ==> f.vals[i] == 1
  {
    EncodeColumns(schema, p);
    EncodeCells(schema, p);
    CandidateNamesDistinct(p);
  }

  /** A candidate column the schema does not list is skipped: it is not added
      to the row, and the row is the one the other five writes alone give. */
  lemma EncodeUnlistedCandidate(schema: seq<string>, p: PatientInput, k: nat)
    requires k < |Labels| && CandidateNames(p)[k] !in schema
    ensures CandidateNames(p)[k] !in EncodeFrame(schema, p).cols
    ensures var names := CandidateNames(p);
      EncodeFrame(schema, p) == SetAllListed(NumericFrame(schema, p), schema, names[..k] + names[k + 1..])
  {
    EncodeColumns(schema, p);
    CandidateNamesDistinct(p);
    var numeric, names := NumericFrame(schema, p), CandidateNames(p);
    assert names[k] !in Appended(schema);
    assert numeric.cols == schema + Appended(schema);
    SetAllListedDropUnlisted(numeric, schema, names, k);
  }

  /** Per categorical field, the column of the selected value holds 1 and the
      column of any other value of that field holds 0. */
  lemma EncodeOneHotPerField(schema: seq<string>, p: PatientInput, k: nat, value: string)
    requires k < |Labels|
    ensures var f := EncodeFrame(schema, p);
      forall i :: 0 <= i < |f.cols| && f.cols[i] == CandidateName(Labels[k], value) ==>
        f.vals[i] == if value == Selections(p)[k] then 1 else 0
  {
    EncodeCells(schema, p);
    if value == Selections(p)[k] {
      CandidateNotNumeric(k, value);
      assert CandidateNames(p)[k] == CandidateName(Labels[k], value);
    } else {
      OtherValueExpected(p, k, value);
    }
  }

  /** Every column that is neither numeric nor a candidate stays 0. */
  lemma EncodeOthersZero(schema: seq<string>, p: PatientInput)
    ensures var f := EncodeFrame(schema, p);
      forall i :: 0 <= i < |f.cols| && f.cols[i] !in ["Age", "Duration_Days"] + CandidateNames(p) ==>
        f.vals[i] == 0
  {
    EncodeCells(schema, p);
  }

  // The worked-example lemmas take the schema and the submission as
  // parameters pinned to the two constants below, so that the constants'
  // literal values are not unfolded while the general lemmas are applied,
  // which keeps these proofs cheap.

  /** The worked scenario: a 30-year-old male, five days, diabetes, O+,
      elective admission, aspirin, normal test, over a schema that has both
      numeric columns and a few one-hot columns of each field. */
  lemma ExampleScenario(schema: seq<string>, p: PatientInput)
    requires p == ExamplePatient && schema == ExampleSchema
    ensures ValidInput(p)
    ensures EncodeFrame(schema, p) == Frame(schema, [30, 5, 0, 1, 0, 1, 1, 0, 1, 0, 1, 1])
  {
    EncodeMatchesExpected(schema, p);
    ExampleRow(schema, p);
  }

  /** The expected values of the worked scenario's columns. */
  lemma ExampleRow(schema: seq<string>, p: PatientInput)
    requires p == ExamplePatient && schema == ExampleSchema
    ensures ExpectedRow(schema, p) == [30, 5, 0, 1, 0, 1, 1, 0, 1, 0, 1, 1]
  {
    ExampleCandidates(schema, p);
    ExampleOthers(schema, p);
    assert Expected(schema[0], p) == 30 && Expected(schema[1], p) == 5;
  }

  const ExamplePatient := PatientInput(30, "Male", 5, "Diabetes", "O+", "Elective", "Aspirin", "Normal")

  const ExampleSchema: seq<string> :=
    ["Age", "Duration_Days", "Gender_Female", "Gender_Male", "Blood Type_A-",
     "Blood Type_O+", "Medical Condition_Diabetes", "Medical Condition_Obesity",
     "Admission Type_Elective", "Admission Type_Urgent", "Medication_Aspirin",
     "Test Results_Normal"]

  /** In the worked scenario, the six candidate columns sit at schema
      positions 3, 5, 6, 8, 10 and 11, and so are expected to hold 1. */
  lemma ExampleCandidates(schema: seq<string>, p: PatientInput)
    requires p == ExamplePatient && schema == ExampleSchema
    ensures Expected(schema[3], p) == 1 && Expected(schema[5], p) == 1 && Expected(schema[6], p) == 1
    ensures Expected(schema[8], p) == 1 && Expected(schema[10], p) == 1 && Expected(schema[11], p) == 1
  {
    CandidateNamesDistinct(p);
    assert "Gender_" + "Male" == "Gender_Male" && "Blood Type_" + "O+" == "Blood Type_O+";
    assert "Medical Condition_" + "Diabetes" == "Medical Condition_Diabetes";
    assert "Admission Type_" + "Elective" == "Admission Type_Elective";
    assert "Medication_" + "Aspirin" == "Medication_Aspirin" && "Test Results_" + "Normal" == "Test Results_Normal";
  }

  /** In the worked scenario, the columns at positions 2, 4, 7 and 9 are
      other values of a field than the selected one, so they are expected 0. */
  lemma ExampleOthers(schema: seq<string>, p: PatientInput)
    requires p == ExamplePatient && schema == ExampleSchema
    ensures Expected(schema[2], p) == 0 && Expected(schema[4], p) == 0
    ensures Expected(schema[7], p) == 0 && Expected(schema[9], p) == 0
  {
    var sel := Selections(p);
    assert schema[2] == CandidateName(Labels[0], "Female") && sel[0] != "Female";
    OtherValueExpected(p, 0, "Female");
    assert schema[4] == CandidateName(Labels[1], "A-") && sel[1] != "A-";
    OtherValueExpected(p, 1, "A-");
    assert schema[7] == CandidateName(Labels[2], "Obesity") && sel[2] != "Obesity";
    OtherValueExpected(p, 2, "Obesity");
    assert schema[9] == CandidateName(Labels[3], "Urgent") && sel[3] != "Urgent";
    OtherValueExpected(p, 3, "Urgent");
  }

  /** The column of a value other than the selected one of its field is
      expected to hold 0. */
  lemma OtherValueExpected(p: PatientInput, k: nat, v: string)
    requires k < |Labels| && v != Selections(p)[k]
    ensures Expected(CandidateName(Labels[k], v), p) == 0
  {
    CandidateNotNumeric(k, v);
    if CandidateName(Labels[k], v) in CandidateNames(p) {
      var j :| 0 <= j < |Labels| && CandidateNames(p)[j] == CandidateName(Labels[k], v);
      CandidateNameInjective(j, Selections(p)[j], k, v);
    }
  }
}
