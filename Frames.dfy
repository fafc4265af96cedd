/** A one-row table as the encoder uses it: an ordered list of column names
    and one integer cell per column. This is the value the FeatureRow class
    holds; the functions here give the meaning of its operations. */
module Frames {

  datatype Frame = Frame(cols: seq<string>, vals: seq<int>) {
    ghost predicate Valid() { |cols| == |vals| }
  }

  /** The row built from the schema with every cell set to 0. */
  function Zero(schema: seq<string>): (f: Frame)
    ensures f.Valid() && f.cols == schema
    ensures forall i :: 0 <= i < |f.vals| ==> f.vals[i] == 0
  {
    Frame(schema, seq(|schema|, _ => 0))
  }

  /** Assigning a scalar to a column by name: every column of that name gets
      the value; a name the row does not have is appended as a new last
      column holding the value. */
  function Set(f: Frame, name: string, v: int): (r: Frame)
    requires f.Valid()
    ensures r.Valid()
    ensures r.cols == if name in f.cols then f.cols else f.cols + [name]
    ensures forall i :: 0 <= i < |f.cols| && f.cols[i] != name ==> r.vals[i] == f.vals[i]
    ensures forall i :: 0 <= i < |r.cols| && r.cols[i] == name ==> r.vals[i] == v
  {
    if name in f.cols then
      Frame(f.cols, seq(|f.vals|, i requires 0 <= i < |f.vals| => if f.cols[i] == name then v else f.vals[i]))
    else
      Frame(f.cols + [name], f.vals + [v])
  }

  /** The guarded one-hot write: the column is set to 1 only when its name is
      listed in the schema; otherwise the row is left as it is. */
  function SetIfListed(f: Frame, schema: seq<string>, name: string): (r: Frame)
    requires f.Valid()
    ensures r.Valid()
    ensures name !in schema ==> r == f
    ensures r.cols == if name in schema && name !in f.cols then f.cols + [name] else f.cols
    ensures forall i :: 0 <= i < |f.cols| ==>
      r.vals[i] == if f.cols[i] == name && name in schema then 1 else f.vals[i]
    ensures name in schema ==> forall i :: 0 <= i < |r.cols| && r.cols[i] == name ==> r.vals[i] == 1
  {
    if name in schema then Set(f, name, 1) else f
  }

  /** The guarded writes for a list of names, in list order. */
  function SetAllListed(f: Frame, schema: seq<string>, names: seq<string>): (r: Frame)
    requires f.Valid()
    ensures r.Valid()
    ensures |f.cols| <= |r.cols| && r.cols[..|f.cols|] == f.cols
    decreases |names|
  {
    if names == [] then f
    else SetIfListed(SetAllListed(f, schema, names[..|names| - 1]), schema, names[|names| - 1])
  }

  /** When every schema name is already a column, the guarded writes keep the
      column list and put 1 exactly into the columns that are both listed in
      the schema and among the names; every other cell keeps its value. */
  lemma {:induction false} SetAllListedCells(f: Frame, schema: seq<string>, names: seq<string>)
    requires f.Valid()
    requires forall s :: s in schema ==> s in f.cols
    ensures SetAllListed(f, schema, names).cols == f.cols
    ensures forall i :: 0 <= i < |f.cols| ==>
      SetAllListed(f, schema, names).vals[i] == if f.cols[i] in names && f.cols[i] in schema then 1 else f.vals[i]
    decreases |names|
  {
    if names != [] {
      var init, last := names[..|names| - 1], names[|names| - 1];
      SetAllListedCells(f, schema, init);
      assert names == init + [last];
      forall i | 0 <= i < |f.cols|
        ensures f.cols[i] in names <==> f.cols[i] in init || f.cols[i] == last
      {
      }
    }
  }

  /** A name the schema does not list contributes nothing: the guarded
      writes give the same row without it. */
  lemma SetAllListedDropUnlisted(f: Frame, schema: seq<string>, names: seq<string>, k: nat)
    requires f.Valid()
    requires forall s :: s in schema ==> s in f.cols
    requires k < |names| && names[k] !in schema
    ensures SetAllListed(f, schema, names) == SetAllListed(f, schema, names[..k] + names[k + 1..])
  {
    var others := names[..k] + names[k + 1..];
    SetAllListedCells(f, schema, names);
    SetAllListedCells(f, schema, others);
    var r, q := SetAllListed(f, schema, names), SetAllListed(f, schema, others);
    forall i | 0 <= i < |f.cols| ensures r.vals[i] == q.vals[i] {
      var d := f.cols[i];
      if d in schema {
        DropKeepsOthers(names, k, d);
      }
    }
    assert r.vals == q.vals;
    assert r.cols == q.cols;
    assert r == Frame(q.cols, q.vals) == q;
  }

  /** Removing the k-th name keeps every other name's membership. */
  lemma DropKeepsOthers(names: seq<string>, k: nat, d: string)
    requires k < |names| && d != names[k]
    ensures d in names <==> d in names[..k] + names[k + 1..]
  {
  }
}
