/** The prediction form: what the patient widgets can produce, and the names
    of the one-hot columns that the selections are turned into. */
module Form {

  datatype Option<T> = None | Some(value: T)

  /** One submission of the form, one field per widget. */
  datatype PatientInput = PatientInput(
    age: int,
    gender: string,
    duration: int,
    condition: string,
    blood: string,
    admission: string,
    medication: string,
    testResult: string)

  // The choices each select box offers, in the order it shows them.
  const Genders: seq<string> := ["Male", "Female"]
  const Conditions: seq<string> := ["Cancer", "Obesity", "Diabetes", "Asthma", "Hypertension", "Arthritis"]
  const BloodTypes: seq<string> := ["A+", "A-", "B+", "B-", "AB+", "AB-", "O+", "O-"]
  const Admissions: seq<string> := ["Urgent", "Emergency", "Elective"]
  const Medications: seq<string> := ["Paracetamol", "Ibuprofen", "Aspirin", "Penicillin", "Lipitor"]
  const TestResults: seq<string> := ["Normal", "Abnormal", "Inconclusive"]

  /** What the widgets let through: the two number inputs' bounds and one
      choice from each select box. The duration input has no upper bound. */
  predicate ValidInput(p: PatientInput)
  {
    0 <= p.age <= 120 && 1 <= p.duration &&
    p.gender in Genders && p.condition in Conditions && p.blood in BloodTypes &&
    p.admission in Admissions && p.medication in Medications && p.testResult in TestResults
  }

  /** The column-name prefix of each categorical field, in the order the
      encoder visits the fields. */
  const Labels: seq<string> := ["Gender", "Blood Type", "Medical Condition", "Admission Type", "Medication", "Test Results"]

  /** The selected values, in the same order as Labels. */
  function Selections(p: PatientInput): (s: seq<string>)
    ensures |s| == |Labels|
  {
    [p.gender, p.blood, p.condition, p.admission, p.medication, p.testResult]
  }

  /** The one-hot column a field label and a selected value stand for. */
  function CandidateName(prefix: string, value: string): (r: string)
  {
    prefix + "_" + value
  }

  /** A candidate name is its label, an underscore just after it, then the value. */
  lemma CandidateNameParts(prefix: string, value: string)
    ensures var r := CandidateName(prefix, value);
      |r| == |prefix| + 1 + |value| && r[|prefix|] == '_' &&
      r[..|prefix|] == prefix && r[|prefix| + 1..] == value
  {
  }

  /** The six candidate columns of one submission, one per categorical field. */
  function CandidateNames(p: PatientInput): (r: seq<string>)
    ensures |r| == |Labels|
    ensures r == ["Gender_" + p.gender, "Blood Type_" + p.blood, "Medical Condition_" + p.condition,
                  "Admission Type_" + p.admission, "Medication_" + p.medication, "Test Results_" + p.testResult]
  {
    var sel := Selections(p);
    var r := seq(|Labels|, k requires 0 <= k < |Labels| => CandidateName(Labels[k], sel[k]));
    assert r[0] == "Gender_" + p.gender && r[1] == "Blood Type_" + p.blood;
    assert r[2] == "Medical Condition_" + p.condition && r[3] == "Admission Type_" + p.admission;
    assert r[4] == "Medication_" + p.medication && r[5] == "Test Results_" + p.testResult;
    r
  }

  /** Splits a column name at its first underscore into label and value;
      None when there is no underscore. */
  function SplitName(s: string): (r: Option<(string, string)>)
    ensures r.None? <==> '_' !in s
    ensures r.Some? ==> '_' !in r.value.0 && s == CandidateName(r.value.0, r.value.1)
  {
    if s == [] then None
    else if s[0] == '_' then Some(([], s[1..]))
    else match SplitName(s[1..])
      case None => None
      case Some(lv) => Some(([s[0]] + lv.0, lv.1))
  }

  /** Splitting a candidate name gives back its prefix and its value, as long
      as the prefix has no underscore (no field label has one). */
  lemma {:induction false} SplitCandidate(prefix: string, value: string)
    requires '_' !in prefix
    ensures SplitName(CandidateName(prefix, value)) == Some((prefix, value))
  {
    if prefix != [] {
      var rest := CandidateName(prefix[1..], value);
      assert CandidateName(prefix, value) == [prefix[0]] + rest;
      assert CandidateName(prefix, value)[1..] == rest;
      SplitCandidate(prefix[1..], value);
      assert [prefix[0]] + prefix[1..] == prefix;
    } else {
      assert CandidateName(prefix, value)[1..] == value;
    }
  }

  lemma LabelsHaveNoUnderscore(k: nat)
    requires k < |Labels|
    ensures '_' !in Labels[k]
  {
  }

  /** Two fields' candidate names coincide only when the fields and the
      selected values do. */
  lemma CandidateNameInjective(j: nat, v: string, k: nat, w: string)
    requires j < |Labels| && k < |Labels|
    requires CandidateName(Labels[j], v) == CandidateName(Labels[k], w)
    ensures j == k && v == w
  {
    LabelsHaveNoUnderscore(j);
    LabelsHaveNoUnderscore(k);
    SplitCandidate(Labels[j], v);
    SplitCandidate(Labels[k], w);
    assert Labels[j] == Labels[k];
  }

  /** No candidate name is one of the two numeric columns, whatever value is
      selected, so the one-hot writes never touch Age or Duration_Days. */
  lemma CandidateNotNumeric(k: nat, v: string)
    requires k < |Labels|
    ensures CandidateName(Labels[k], v) != "Age"
    ensures CandidateName(Labels[k], v) != "Duration_Days"
  {
    // The underscore of a candidate name sits just after its label, but
    // none of the numeric names has one at such a position.
    var name, n := CandidateName(Labels[k], v), |Labels[k]|;
    CandidateNameParts(Labels[k], v);
    assert '_' !in "Age";
    assert n == 6 || n == 10 || n == 12 || n >= 13 by {
      assert |Labels[0]| == 6 && |Labels[1]| == 10 && |Labels[2]| == 17;
      assert |Labels[3]| == 14 && |Labels[4]| == 10 && |Labels[5]| == 12;
    }
    assert "Duration_Days"[6] != '_' && "Duration_Days"[10] != '_' && "Duration_Days"[12] != '_';
  }

  /** The six candidate names of one submission are distinct and none of
      them is a numeric column. */
  lemma CandidateNamesDistinct(p: PatientInput)
    ensures forall j, k :: 0 <= j < k < |Labels| ==> CandidateNames(p)[j] != CandidateNames(p)[k]
    ensures "Age" !in CandidateNames(p) && "Duration_Days" !in CandidateNames(p)
  {
    var names, sel := CandidateNames(p), Selections(p);
    forall j, k | 0 <= j < k < |Labels| ensures names[j] != names[k] {
      if names[j] == names[k] {
        CandidateNameInjective(j, sel[j], k, sel[k]);
      }
    }
    forall k | 0 <= k < |Labels| ensures names[k] != "Age" && names[k] != "Duration_Days" {
      CandidateNotNumeric(k, sel[k]);
    }
  }
}
