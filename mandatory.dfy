/** `modify_mandatory_data` (metadata_and_group_creation/utils/data.py): the
    fixed columns of the table. Each record gets the six display fields
    derived from its raw fields, loses seven of the raw fields, and then has
    its keys lower-cased.

    The derivation and the deletions rewrite the records of the response in
    place (the list is copied, its records are not), so the records are the
    slots of an array. The lower-casing builds fresh dicts.
 */
module Mandatory {
  import opened Wrappers
  import opened PyDict
  import opened Records
  import opened Columns
  import PyStr

  /** Python `+` on two field values: numbers add, strings concatenate, and
      any other pair raises a TypeError. */
  function Add(a: Value, b: Value): (r: Result<Value>)
    ensures r.Success? <==> (a.Num? && b.Num?) || (a.Str? && b.Str?)
    ensures a.Num? && b.Num? ==> r == Success(Num(a.n + b.n))
    ensures a.Str? && b.Str? ==> r == Success(Str(a.s + b.s))
    ensures r.Failure? ==> r.error.TypeError?
  {
    match (a, b)
    case (Num(x), Num(y)) => Success(Num(x + y))
    case (Str(x), Str(y)) => Success(Str(x + y))
    case _ => Failure(TypeError("unsupported operand type(s) for +"))
  }

  /** The raw fields the derivation reads and then deletes, in deletion order. */
  function RawFields(): seq<string> {
    ["fastqValidationStatus", "size", "r1FastqTotalReads", "r2FastqTotalReads",
     "r1FastqLength", "created", "lotId"]
  }

  /** The display fields the derivation adds, in insertion order. */
  function DerivedFields(): seq<string> {
    ["FASTQ Validation Status", "Size", "Total Number of Reads", "Read Length",
     "Upload Date", "Bioskryb Product Lot ID"]
  }

  predicate RawPresent(d: Row) {
    forall k :: k in RawFields() ==> k in Keys(d)
  }

  lemma GetPresenceAll(d: Row)
    ensures forall k :: k in RawFields() ==> (Get(d, k).Some? <==> k in Keys(d))
  {
    forall k | k in RawFields() ensures Get(d, k).Some? <==> k in Keys(d) {
      GetPresence(d, k);
    }
  }

  /** The value of the `i`-th raw field of a record holding every raw field. */
  function Raw(d: Row, i: int): (v: Value)
    requires RawPresent(d) && 0 <= i < |RawFields()|
    ensures Lookup(d, RawFields()[i]) == Success(v)
  {
    Lookup(d, RawFields()[i]).value
  }

  /** The sum of the two read counts of a record holding every raw field. */
  function TotalReads(d: Row): Result<Value>
    requires RawPresent(d)
  {
    Add(Raw(d, 2), Raw(d, 3))
  }

  /** The right-hand side of one assignment: a field, or the sum of two. */
  datatype Source = Field(key: string) | SumOf(left: string, right: string)

  /** The fields a right-hand side reads. */
  function Reads(src: Source): seq<string> {
    match src
    case Field(k) => [k]
    case SumOf(a, b) => [a, b]
  }

  /** Evaluating a right-hand side on the record as it stands. */
  function Eval(d: Row, src: Source): Result<Value> {
    match src
    case Field(k) => Lookup(d, k)
    case SumOf(a, b) =>
      var x :- Lookup(d, a);
      var y :- Lookup(d, b);
      Add(x, y)
  }

  /** The six assignments of the loop body, in order, as (target, right-hand
      side) pairs. */
  function Assignments(): seq<(string, Source)> {
    [ ("FASTQ Validation Status", Field("fastqValidationStatus")),
      ("Size", Field("size")),
      ("Total Number of Reads", SumOf("r1FastqTotalReads", "r2FastqTotalReads")),
      ("Read Length", Field("r1FastqLength")),
      ("Upload Date", Field("created")),
      ("Bioskryb Product Lot ID", Field("lotId")) ]
  }

  /** Running assignments in order: the record as they leave it and the
      exception that stops them, if any. Each one reads the record as the
      previous ones left it. */
  function AssignAll(d: Row, asg: seq<(string, Source)>): (Row, Option<Error>)
    decreases |asg|
  {
    if asg == [] then (d, None)
    else match Eval(d, asg[0].1)
      case Failure(e) => (d, Some(e))
      case Success(v) => AssignAll(Set(d, asg[0].0, v), asg[1..])
  }

  /** The `del` statements of the loop body, one per key of `ks`. */
  function DeletePhase(d: Row, ks: seq<string>): (Row, Option<Error>)
    decreases |ks|
  {
    if ks == [] then (d, None)
    else match Del(d, ks[0])
      case Failure(e) => (d, Some(e))
      case Success(rest) => DeletePhase(rest, ks[1..])
  }

  /** The whole loop body on one record. */
  function RenameMandatory(d: Row): (Row, Option<Error>) {
    var copied := AssignAll(d, Assignments());
    if copied.1.Some? then copied else DeletePhase(copied.0, RawFields())
  }

  /** `{k.lower(): v for k, v in x.items()}` */
  function LowerKeys(d: Row): Row {
    FromEntries(LoweredEntries(d))
  }

  function LoweredEntries(d: Row): Row {
    seq(|d|, i requires 0 <= i < |d| => (PyStr.Lower(d[i].0), d[i].1))
  }

  /** `d` without the entries whose key is in `ks`. */
  function Without(d: Row, ks: seq<string>): (r: Row)
    ensures |r| <= |d|
  {
    if d == [] then []
    else (if d[0].0 in ks then [] else [d[0]]) + Without(d[1..], ks)
  }

  // ---------------------------------------------------------------------------
  // Assignments

  /** Setting a key a right-hand side does not read leaves its value alone. */
  lemma EvalSet(d: Row, k: string, v: Value, src: Source)
    requires k !in Reads(src)
    ensures Eval(Set(d, k, v), src) == Eval(d, src)
  {
    match src
    case Field(a) =>
      GetSet(d, k, v, a);
    case SumOf(a, b) =>
      GetSet(d, k, v, a);
      GetSet(d, k, v, b);
  }

  /** The values the assignments store: each right-hand side evaluated on the
      original record. */
  function Assigned(d: Row, asg: seq<(string, Source)>): Row
    requires forall i :: 0 <= i < |asg| ==> Eval(d, asg[i].1).Success?
  {
    seq(|asg|, i requires 0 <= i < |asg| => (asg[i].0, Eval(d, asg[i].1).value))
  }

  /** What running the assignments amounts to, when they target fresh,
      distinct keys that no right-hand side reads. */
  predicate AssignsOnOriginal(d: Row, asg: seq<(string, Source)>) {
    (AssignAll(d, asg).1.None? <==> forall i :: 0 <= i < |asg| ==> Eval(d, asg[i].1).Success?) &&
    (AssignAll(d, asg).1.None? ==> AssignAll(d, asg).0 == d + Assigned(d, asg))
  }

  /** Assignments to fresh, distinct keys that no right-hand side reads get
      through exactly when every right-hand side evaluates on the original
      record, and then append their targets with those values. */
  lemma {:induction false} AssignAllSpec(d: Row, asg: seq<(string, Source)>)
    requires forall i :: 0 <= i < |asg| ==> asg[i].0 !in Keys(d)
    requires forall i, j :: 0 <= i < j < |asg| ==> asg[i].0 != asg[j].0
    requires forall i, j :: 0 <= i < |asg| && 0 <= j < |asg| ==> asg[i].0 !in Reads(asg[j].1)
    ensures AssignsOnOriginal(d, asg)
    decreases |asg|
  {
    if asg == [] {
      assert Assigned(d, asg) == [];
      assert d + [] == d;
    } else if Eval(d, asg[0].1).Failure? {
    } else {
      var (t, v) := (asg[0].0, Eval(d, asg[0].1).value);
      var d' := Set(d, t, v);
      SetAbsent(d, t, v);
      KeysAppend(d, [(t, v)]);
      EvalsSet(d, t, v, asg[1..]);
      AssignAllSpec(d', asg[1..]);
      AssignAllStep(d, d', asg);
    }
  }

  /** Setting a key no right-hand side of `asg` reads leaves every one of them
      evaluating as before. */
  lemma EvalsSet(d: Row, k: string, v: Value, asg: seq<(string, Source)>)
    requires forall j :: 0 <= j < |asg| ==> k !in Reads(asg[j].1)
    ensures forall j :: 0 <= j < |asg| ==> Eval(Set(d, k, v), asg[j].1) == Eval(d, asg[j].1)
  {
    forall j | 0 <= j < |asg| ensures Eval(Set(d, k, v), asg[j].1) == Eval(d, asg[j].1) {
      EvalSet(d, k, v, asg[j].1);
    }
  }

  /** The step of `AssignAllSpec`: the first assignment gets through to `d'`,
      which agrees with `d` on the later right-hand sides, and the claim holds
      of the rest on `d'`. */
  lemma AssignAllStep(d: Row, d': Row, asg: seq<(string, Source)>)
    requires asg != [] && Eval(d, asg[0].1).Success?
    requires d' == d + [(asg[0].0, Eval(d, asg[0].1).value)]
    requires AssignAll(d, asg) == AssignAll(d', asg[1..])
    requires forall j :: 0 <= j < |asg[1..]| ==> Eval(d', asg[1..][j].1) == Eval(d, asg[1..][j].1)
    requires AssignsOnOriginal(d', asg[1..])
    ensures AssignsOnOriginal(d, asg)
  {
    if AssignAll(d', asg[1..]).1.None? {
      AssignAllStepGoesOn(d, d', asg);
    } else {
      var j :| 0 <= j < |asg[1..]| && Eval(d', asg[1..][j].1).Failure?;
      assert asg[1..][j] == asg[j + 1];
    }
  }

  /** `AssignAllStep` when the later assignments get through as well. */
  lemma AssignAllStepGoesOn(d: Row, d': Row, asg: seq<(string, Source)>)
    requires asg != [] && Eval(d, asg[0].1).Success?
    requires d' == d + [(asg[0].0, Eval(d, asg[0].1).value)]
    requires forall j :: 0 <= j < |asg[1..]| ==> Eval(d', asg[1..][j].1) == Eval(d, asg[1..][j].1)
    requires forall j :: 0 <= j < |asg[1..]| ==> Eval(d', asg[1..][j].1).Success?
    ensures forall i :: 0 <= i < |asg| ==> Eval(d, asg[i].1).Success?
    ensures d + Assigned(d, asg) == d' + Assigned(d', asg[1..])
  {
    forall i | 0 <= i < |asg| ensures Eval(d, asg[i].1).Success? {
      if i > 0 {
        assert asg[i] == asg[1..][i - 1];
      }
    }
    AssignedCons(d, d', asg);
  }

  /** `Assigned` on a record that agrees with `d` on every later right-hand
      side: the first target and value, then the rest. */
  lemma AssignedCons(d: Row, d': Row, asg: seq<(string, Source)>)
    requires asg != []
    requires forall i :: 0 <= i < |asg| ==> Eval(d, asg[i].1).Success?
    requires forall j :: 0 <= j < |asg| - 1 ==> Eval(d', asg[1..][j].1) == Eval(d, asg[1..][j].1)
    ensures Assigned(d, asg) == [(asg[0].0, Eval(d, asg[0].1).value)] + Assigned(d', asg[1..])
  {
    var rest := asg[1..];
    var a := Assigned(d, asg);
    var b := [(asg[0].0, Eval(d, asg[0].1).value)] + Assigned(d', rest);
    assert |a| == |b|;
    forall i | 0 <= i < |a| ensures a[i] == b[i] {
      if i > 0 {
        assert rest[i - 1] == asg[i];
      }
    }
  }

  /** The six assignments read only raw fields and write only derived ones. */
  lemma AssignmentsShape()
    ensures forall i :: 0 <= i < |Assignments()| ==> Assignments()[i].0 == DerivedFields()[i]
    ensures forall i, j :: 0 <= i < j < |Assignments()| ==> Assignments()[i].0 != Assignments()[j].0
    ensures forall i, j :: 0 <= i < |Assignments()| && 0 <= j < |Assignments()| ==>
      Assignments()[i].0 !in Reads(Assignments()[j].1)
  {
  }

  /** The assignments' right-hand sides all evaluate exactly when the record
      holds every raw field and its two read counts can be added. */
  lemma AssignmentsEvaluate(d: Row)
    ensures (forall i :: 0 <= i < |Assignments()| ==> Eval(d, Assignments()[i].1).Success?) <==>
      RawPresent(d) && TotalReads(d).Success?
  {
    var a := Assignments();
    var evaluates := forall i :: 0 <= i < |a| ==> Eval(d, a[i].1).Success?;
    if evaluates {
      assert Eval(d, a[0].1).Success? && Eval(d, a[1].1).Success? && Eval(d, a[2].1).Success?;
      assert Eval(d, a[3].1).Success? && Eval(d, a[4].1).Success? && Eval(d, a[5].1).Success?;
      assert Lookup(d, "r1FastqTotalReads").Success? && Lookup(d, "r2FastqTotalReads").Success?;
      assert RawPresent(d);
    }
    if RawPresent(d) && TotalReads(d).Success? {
      forall i | 0 <= i < |a| ensures Eval(d, a[i].1).Success? {
        assert i in {0, 1, 2, 3, 4, 5};
      }
    }
  }

  /** The six derived entries, each with the value its assignment stores. */
  function DerivedEntries(d: Row): (r: Row)
    requires RawPresent(d) && TotalReads(d).Success?
    ensures Keys(r) == DerivedFields()
  {
    [ ("FASTQ Validation Status", Raw(d, 0)),
      ("Size", Raw(d, 1)),
      ("Total Number of Reads", TotalReads(d).value),
      ("Read Length", Raw(d, 4)),
      ("Upload Date", Raw(d, 5)),
      ("Bioskryb Product Lot ID", Raw(d, 6)) ]
  }

  lemma AssignedDerived(d: Row)
    requires RawPresent(d) && TotalReads(d).Success?
    ensures forall i :: 0 <= i < |Assignments()| ==> Eval(d, Assignments()[i].1).Success?
    ensures Assigned(d, Assignments()) == DerivedEntries(d)
  {
    AssignmentsEvaluate(d);
    GetPresenceAll(d);
  }

  // ---------------------------------------------------------------------------
  // Deletions

  lemma {:induction false} WithoutIgnores(d: Row, k: string, ks: seq<string>)
    requires k !in Keys(d)
    ensures Without(d, [k] + ks) == Without(d, ks)
  {
    if d != [] {
      KeysCons(d);
      WithoutIgnores(d[1..], k, ks);
    }
  }

  lemma {:induction false} WithoutRemove(d: Row, k: string, ks: seq<string>)
    requires Distinct(d)
    ensures Without(Remove(d, k), ks) == Without(d, [k] + ks)
  {
    if d != [] {
      assert Distinct(d[1..]) by {
        forall i, j | 0 <= i < j < |d[1..]| ensures d[1..][i].0 != d[1..][j].0 {
          assert d[1..][i] == d[i + 1] && d[1..][j] == d[j + 1];
        }
      }
      if d[0].0 == k {
        assert k !in Keys(d[1..]) by {
          forall i | 0 <= i < |d[1..]| ensures d[1..][i].0 != k {
            assert d[1..][i] == d[i + 1];
          }
        }
        WithoutIgnores(d[1..], k, ks);
      } else {
        var r := Remove(d[1..], k);
        WithoutRemove(d[1..], k, ks);
        assert ([d[0]] + r)[0] == d[0] && ([d[0]] + r)[1..] == r;
      }
    }
  }

  lemma {:induction false} WithoutNothing(d: Row)
    ensures Without(d, []) == d
  {
    if d != [] {
      WithoutNothing(d[1..]);
    }
  }

  /** Deleting present, distinct keys from a dict one after the other never
      fails and leaves the other entries in order. */
  lemma {:induction false} DeletePhaseSpec(d: Row, ks: seq<string>)
    requires Distinct(d)
    requires forall i, j :: 0 <= i < j < |ks| ==> ks[i] != ks[j]
    requires forall k :: k in ks ==> k in Keys(d)
    ensures DeletePhase(d, ks) == (Without(d, ks), None)
    decreases |ks|
  {
    if ks == [] {
      WithoutNothing(d);
    } else {
      var k := ks[0];
      var r := Remove(d, k);
      assert Del(d, k) == Success(r);
      DelDistinct(d, k);
      forall j | j in ks[1..] ensures j in Keys(r) {
        DelGet(d, k, j);
        GetPresence(d, j);
        GetPresence(r, j);
      }
      DeletePhaseSpec(r, ks[1..]);
      WithoutRemove(d, k, ks[1..]);
      assert [k] + ks[1..] == ks;
    }
  }

  lemma {:induction false} WithoutAppend(a: Row, b: Row, ks: seq<string>)
    ensures Without(a + b, ks) == Without(a, ks) + Without(b, ks)
  {
    if a == [] {
      assert a + b == b;
    } else {
      var head := if a[0].0 in ks then [] else [a[0]];
      assert (a + b)[0] == a[0] && (a + b)[1..] == a[1..] + b;
      assert Without(a + b, ks) == head + Without(a[1..] + b, ks);
      WithoutAppend(a[1..], b, ks);
      assert Without(a, ks) == head + Without(a[1..], ks);
    }
  }

  lemma {:induction false} WithoutDisjoint(d: Row, ks: seq<string>)
    requires forall i :: 0 <= i < |d| ==> d[i].0 !in ks
    ensures Without(d, ks) == d
  {
    if d != [] {
      WithoutDisjoint(d[1..], ks);
    }
  }

  /** A key survives `Without(d, ks)` exactly when `d` holds it and `ks` does not. */
  lemma {:induction false} WithoutKeys(d: Row, ks: seq<string>)
    ensures forall k :: k in Keys(Without(d, ks)) <==> k in Keys(d) && k !in ks
  {
    if d != [] {
      WithoutKeys(d[1..], ks);
      var head: Row := if d[0].0 in ks then [] else [d[0]];
      var rest := Without(d[1..], ks);
      assert Without(d, ks) == head + rest;
      KeysAppend(head, rest);
      assert Keys(d) == [d[0].0] + Keys(d[1..]);
      forall k ensures k in Keys(Without(d, ks)) <==> k in Keys(d) && k !in ks {
        if d[0].0 in ks {
          assert Keys(head) == [];
        } else {
          assert Keys(head) == [d[0].0];
        }
      }
    } else {
      assert Keys(d) == [];
    }
  }

  // ---------------------------------------------------------------------------
  // One record

  /** The raw fields are distinct, and none of them is a derived field. */
  lemma FieldsShape()
    ensures forall i, j :: 0 <= i < j < |RawFields()| ==> RawFields()[i] != RawFields()[j]
    ensures forall i, j :: 0 <= i < j < |DerivedFields()| ==> DerivedFields()[i] != DerivedFields()[j]
    ensures forall k :: k in DerivedFields() ==> k !in RawFields()
  {
  }

  /** The assignments on a record that does not hold a derived field. */
  lemma AssignmentsSpec(d: Row)
    requires forall k :: k in DerivedFields() ==> k !in Keys(d)
    ensures AssignAll(d, Assignments()).1.None? <==> RawPresent(d) && TotalReads(d).Success?
    ensures AssignAll(d, Assignments()).1.None? ==> AssignAll(d, Assignments()).0 == d + DerivedEntries(d)
  {
    AssignmentsShape();
    AssignAllSpec(d, Assignments());
    AssignmentsEvaluate(d);
    if RawPresent(d) && TotalReads(d).Success? {
      AssignedDerived(d);
    }
  }

  /** Appending the derived entries keeps a record's keys distinct. */
  lemma DerivedDistinct(d: Row)
    requires Distinct(d) && RawPresent(d) && TotalReads(d).Success?
    requires forall k :: k in DerivedFields() ==> k !in Keys(d)
    ensures Distinct(d + DerivedEntries(d))
    ensures forall k :: k in RawFields() ==> k in Keys(d + DerivedEntries(d))
  {
    var e := DerivedEntries(d);
    var c := d + e;
    KeysAppend(d, e);
    FieldsShape();
    forall i, j | 0 <= i < j < |c| ensures c[i].0 != c[j].0 {
      if j >= |d| {
        assert c[j] == e[j - |d|];
        assert e[j - |d|].0 == Keys(e)[j - |d|];
        if i >= |d| {
          assert c[i] == e[i - |d|];
          assert e[i - |d|].0 == Keys(e)[i - |d|];
        } else {
          assert c[i] == d[i];
          assert d[i].0 == Keys(d)[i];
          assert DerivedFields()[j - |d|] in DerivedFields();
        }
      } else {
        assert c[i] == d[i] && c[j] == d[j];
      }
    }
  }

  /** The loop body gets through a record that does not hold a derived field
      exactly when the record holds every raw field and its two read counts
      can be added. It then leaves the record's other entries in order and
      appends the six derived ones. */
  lemma RenameMandatorySpec(d: Row)
    requires Distinct(d)
    requires forall k :: k in DerivedFields() ==> k !in Keys(d)
    ensures RenameMandatory(d).1.None? <==> RawPresent(d) && TotalReads(d).Success?
    ensures RenameMandatory(d).1.None? ==>
      RenameMandatory(d).0 == Without(d, RawFields()) + DerivedEntries(d)
  {
    AssignmentsSpec(d);
    if RawPresent(d) && TotalReads(d).Success? {
      var e := DerivedEntries(d);
      assert DeletePhase(d + e, RawFields()) == (Without(d, RawFields()) + e, None) by {
        DeletedDerived(d);
      }
    }
  }

  /** Once the loop body gets through a record, none of the raw fields is
      left in it, and every other key of the record still is. */
  lemma RenameDropsRaw(d: Row)
    requires Distinct(d)
    requires forall k :: k in DerivedFields() ==> k !in Keys(d)
    ensures RenameMandatory(d).1.None? ==>
      forall k :: k in RawFields() ==> k !in Keys(RenameMandatory(d).0)
    ensures RenameMandatory(d).1.None? ==>
      forall k :: k in Keys(d) && k !in RawFields() ==> k in Keys(RenameMandatory(d).0)
  {
    RenameMandatorySpec(d);
    if RenameMandatory(d).1.None? {
      var w := Without(d, RawFields());
      var e := DerivedEntries(d);
      WithoutKeys(d, RawFields());
      KeysAppend(w, e);
      FieldsShape();
      assert Keys(RenameMandatory(d).0) == Keys(w) + DerivedFields();
    }
  }

  lemma DeletedDerived(d: Row)
    requires Distinct(d) && RawPresent(d) && TotalReads(d).Success?
    requires forall k :: k in DerivedFields() ==> k !in Keys(d)
    ensures DeletePhase(d + DerivedEntries(d), RawFields()) == (Without(d, RawFields()) + DerivedEntries(d), None)
  {
    DerivedDistinct(d);
    DeleteRawFields(d, DerivedEntries(d));
  }

  /** The deletions on a record followed by derived entries remove the raw
      fields of the record and keep the derived entries. */
  lemma DeleteRawFields(d: Row, e: Row)
    requires Distinct(d + e) && Keys(e) == DerivedFields()
    requires forall k :: k in RawFields() ==> k in Keys(d + e)
    ensures DeletePhase(d + e, RawFields()) == (Without(d, RawFields()) + e, None)
  {
    FieldsShape();
    var ks := RawFields();
    forall i | 0 <= i < |e| ensures e[i].0 !in ks {
      assert e[i].0 == Keys(e)[i];
    }
    DeleteKeysBefore(d, e, ks);
  }

  /** Deleting distinct keys, all present and none among the keys of `e`,
      from `d + e`: `d` loses them and `e` is kept. */
  lemma DeleteKeysBefore(d: Row, e: Row, ks: seq<string>)
    requires Distinct(d + e)
    requires forall i, j :: 0 <= i < j < |ks| ==> ks[i] != ks[j]
    requires forall k :: k in ks ==> k in Keys(d + e)
    requires forall i :: 0 <= i < |e| ==> e[i].0 !in ks
    ensures DeletePhase(d + e, ks) == (Without(d, ks) + e, None)
  {
    DeletePhaseSpec(d + e, ks);
    WithoutAppend(d, e, ks);
    WithoutDisjoint(e, ks);
  }

  // ---------------------------------------------------------------------------
  // Lower-casing

  /** The lower-cased labels are the fields of the fixed columns. */
  lemma LabelsLowered()
    ensures PyStr.Lower("biosampleName") == MandatoryColumns()[0]
    ensures PyStr.Lower(DerivedFields()[0]) == MandatoryColumns()[1]
    ensures PyStr.Lower(DerivedFields()[1]) == MandatoryColumns()[2]
    ensures PyStr.Lower(DerivedFields()[2]) == MandatoryColumns()[3]
    ensures PyStr.Lower(DerivedFields()[3]) == MandatoryColumns()[4]
    ensures PyStr.Lower(DerivedFields()[4]) == MandatoryColumns()[5]
    ensures PyStr.Lower(DerivedFields()[5]) == MandatoryColumns()[6]
  {
    LowerBiosample();
    LowerStatus();
    LowerSize();
    LowerTotal();
    LowerLength();
    LowerUpload();
    LowerLot();
  }

  lemma LowerBiosample()
    ensures PyStr.Lower("biosampleName") == "biosamplename"
  {
    PyStr.LowerPointwise("biosampleName", "biosamplename");
  }

  lemma LowerStatus()
    ensures PyStr.Lower("FASTQ Validation Status") == "fastq validation status"
  {
    PyStr.LowerPointwise("FASTQ Validation Status", "fastq validation status");
  }

  lemma LowerSize()
    ensures PyStr.Lower("Size") == "size"
  {
    PyStr.LowerPointwise("Size", "size");
  }

  lemma LowerTotal()
    ensures PyStr.Lower("Total Number of Reads") == "total number of reads"
  {
    PyStr.LowerPointwise("Total Number of Reads", "total number of reads");
  }

  lemma LowerLength()
    ensures PyStr.Lower("Read Length") == "read length"
  {
    PyStr.LowerPointwise("Read Length", "read length");
  }

  lemma LowerUpload()
    ensures PyStr.Lower("Upload Date") == "upload date"
  {
    PyStr.LowerPointwise("Upload Date", "upload date");
  }

  lemma LowerLot()
    ensures PyStr.Lower("Bioskryb Product Lot ID") == "bioskryb product lot id"
  {
    PyStr.LowerPointwise("Bioskryb Product Lot ID", "bioskryb product lot id");
  }

  /** The keys of a lower-cased record are the lower-cased keys of the record,
      none holding a capital letter; when no two of them coincide, the
      entries keep their order and values. */
  lemma LowerKeysSpec(d: Row)
    ensures forall k :: k in Keys(LowerKeys(d)) <==> k in Keys(LoweredEntries(d))
    ensures forall k :: k in Keys(LowerKeys(d)) ==> PyStr.IsLower(k)
    ensures Distinct(LowerKeys(d))
    ensures Distinct(LoweredEntries(d)) ==> LowerKeys(d) == LoweredEntries(d)
  {
    var es := LoweredEntries(d);
    MergeKeys([], es);
    FromEntriesDistinct(es);
    forall k ensures k in Keys(LowerKeys(d)) <==> k in Keys(es) {
      FreshMembers(Keys(es), [], k);
    }
    forall k | k in Keys(es) ensures PyStr.IsLower(k) {
      var i :| 0 <= i < |es| && Keys(es)[i] == k;
      PyStr.LowerIsLower(d[i].0);
    }
    if Distinct(es) {
      MergeDisjoint([], es);
      assert [] + es == es;
    }
  }

  // ---------------------------------------------------------------------------
  // The loop over the records, and the column entries

  /** A loop over the records that applies `body` to each in place and stops
      at the first exception it reports: the records as the loop leaves them
      from record `i` on, and that exception, if any. */
  function EachFrom(rows: seq<Row>, i: nat, body: Row -> (Row, Option<Error>)): (seq<Row>, Option<Error>)
    requires i <= |rows|
    decreases |rows| - i
  {
    if i == |rows| then (rows, None)
    else
      var r := body(rows[i]);
      if r.1.Some? then (rows[i := r.0], r.1) else EachFrom(rows[i := r.0], i + 1, body)
  }

  /** The loop of `modify_mandatory_data` over its records. */
  function RenameRows(rows: seq<Row>): (seq<Row>, Option<Error>) {
    EachFrom(rows, 0, RenameMandatory)
  }

  /** A record the loop body gets through. */
  predicate Passes(d: Row, body: Row -> (Row, Option<Error>)) {
    body(d).1.None?
  }

  predicate Renames(d: Row) {
    Passes(d, RenameMandatory)
  }

  function AppliedAll(rows: seq<Row>, body: Row -> (Row, Option<Error>)): seq<Row> {
    seq(|rows|, p requires 0 <= p < |rows| => body(rows[p]).0)
  }

  /** `list(map(lambda x: {k.lower(): v ...}, rows))` */
  function LowerAll(rows: seq<Row>): seq<Row> {
    seq(|rows|, p requires 0 <= p < |rows| => LowerKeys(rows[p]))
  }

  /** The column entries as the function writes them down. */
  function MandatoryColumnEntries(): seq<ColumnSpec> {
    [ ColumnSpec("FASTQ Validation Status", "Text"),
      ColumnSpec("Size", "Number"),
      ColumnSpec("Total Number of Reads", "Number"),
      ColumnSpec("Read Length", "Number"),
      ColumnSpec("Upload Date", "Date"),
      ColumnSpec("Bioskryb Product Lot ID", "Text") ]
  }

  /** The column entries with their names lower-cased. */
  function MandatoryColumnData(): seq<ColumnSpec> {
    var entries := MandatoryColumnEntries();
    seq(|entries|, i requires 0 <= i < |entries| => ColumnSpec(PyStr.Lower(entries[i].name), entries[i].dtype))
  }

  /** The six column entries are, in order, the fixed columns after
      biosamplename, with types Text, Number, Number, Number, Date, Text. */
  lemma MandatoryColumnDataSpec()
    ensures |MandatoryColumnData()| == 6
    ensures forall i :: 0 <= i < 6 ==> MandatoryColumnData()[i].name == MandatoryColumns()[i + 1]
    ensures forall i :: 0 <= i < 6 ==>
      MandatoryColumnData()[i].dtype == ["Text", "Number", "Number", "Number", "Date", "Text"][i]
  {
    LabelsLowered();
    assert forall i :: 0 <= i < 6 ==> MandatoryColumnEntries()[i].name == DerivedFields()[i];
  }

  /** How many records at the front of `rows` the loop body gets through. */
  function PassingRun(rows: seq<Row>, body: Row -> (Row, Option<Error>)): (n: nat)
    ensures n <= |rows|
  {
    if rows == [] || !Passes(rows[0], body) then 0 else 1 + PassingRun(rows[1..], body)
  }

  lemma {:induction false} PassingRunSpec(rows: seq<Row>, body: Row -> (Row, Option<Error>))
    ensures forall p :: 0 <= p < PassingRun(rows, body) ==> Passes(rows[p], body)
    ensures PassingRun(rows, body) < |rows| ==> !Passes(rows[PassingRun(rows, body)], body)
  {
    if rows != [] && Passes(rows[0], body) {
      PassingRunSpec(rows[1..], body);
      forall p | 1 <= p < PassingRun(rows, body) ensures Passes(rows[p], body) {
        assert rows[p] == rows[1..][p - 1];
      }
    }
  }

  lemma AppliedAllShift(rows: seq<Row>, i: nat, m: nat, body: Row -> (Row, Option<Error>))
    requires i < m <= |rows|
    ensures var rows' := rows[i := body(rows[i]).0];
      rows'[..i + 1] + AppliedAll(rows'[i + 1..m], body) == rows[..i] + AppliedAll(rows[i..m], body)
  {
    var rows' := rows[i := body(rows[i]).0];
    assert rows'[i + 1..m] == rows[i + 1..m];
    assert rows'[..i + 1] == rows[..i] + [body(rows[i]).0];
    assert AppliedAll(rows[i..m], body) == [body(rows[i]).0] + AppliedAll(rows[i + 1..m], body);
  }

  /** From record `i` on, the loop applies the body to the records up to the
      first one it does not get through, leaves that one as the body left
      it, and stops there with the body's exception. */
  predicate EachesFrom(rows: seq<Row>, i: nat, body: Row -> (Row, Option<Error>))
    requires i <= |rows|
  {
    var m := i + PassingRun(rows[i..], body);
    EachFrom(rows, i, body) ==
      if m == |rows| then (rows[..i] + AppliedAll(rows[i..], body), None)
      else (rows[..i] + AppliedAll(rows[i..m], body) + [body(rows[m]).0] + rows[m + 1..], body(rows[m]).1)
  }

  lemma {:induction false} EachFromSpec(rows: seq<Row>, i: nat, body: Row -> (Row, Option<Error>))
    requires i <= |rows|
    ensures EachesFrom(rows, i, body)
    decreases |rows| - i
  {
    if i == |rows| {
      assert rows[..i] + AppliedAll(rows[i..], body) == rows;
    } else if !Passes(rows[i], body) {
      EachFromBlocked(rows, i, body);
    } else {
      EachFromSpec(rows[i := body(rows[i]).0], i + 1, body);
      EachFromGoesOn(rows, i, body);
    }
  }

  /** The loop at a record the body does not get through. */
  lemma EachFromBlocked(rows: seq<Row>, i: nat, body: Row -> (Row, Option<Error>))
    requires i < |rows| && !Passes(rows[i], body)
    ensures EachesFrom(rows, i, body)
  {
    var r := body(rows[i]);
    assert rows[i..][0] == rows[i];
    assert PassingRun(rows[i..], body) == 0;
    assert AppliedAll(rows[i..i], body) == [];
    assert rows[..i] + [] + [r.0] + rows[i + 1..] == rows[i := r.0];
  }

  /** The loop past a record the body gets through, given what it does from
      the next record on. */
  lemma EachFromGoesOn(rows: seq<Row>, i: nat, body: Row -> (Row, Option<Error>))
    requires i < |rows| && Passes(rows[i], body)
    requires EachesFrom(rows[i := body(rows[i]).0], i + 1, body)
    ensures EachesFrom(rows, i, body)
  {
    var rows' := rows[i := body(rows[i]).0];
    var m := i + PassingRun(rows[i..], body);
    assert rows[i..][1..] == rows[i + 1..] == rows'[i + 1..];
    assert m == i + 1 + PassingRun(rows'[i + 1..], body);
    assert EachFrom(rows, i, body) == EachFrom(rows', i + 1, body);
    AppliedAllShift(rows, i, m, body);
    if m == |rows| {
      assert rows[i..m] == rows[i..] && rows'[i + 1..m] == rows'[i + 1..];
    } else {
      assert rows'[m] == rows[m] && rows'[m + 1..] == rows[m + 1..];
    }
  }

  /** The whole loop succeeds exactly when its body gets through every
      record, and then has applied the body to every record; otherwise it
      raises the exception of the first record the body does not get
      through, which it leaves as the body left it, the records before it
      done and the records after it untouched. */
  lemma EachSpec(rows: seq<Row>, body: Row -> (Row, Option<Error>))
    ensures EachFrom(rows, 0, body).1.None? <==> forall p :: 0 <= p < |rows| ==> Passes(rows[p], body)
    ensures EachFrom(rows, 0, body).1.None? ==> EachFrom(rows, 0, body).0 == AppliedAll(rows, body)
    ensures EachFrom(rows, 0, body).1.Some? ==>
      var m := PassingRun(rows, body);
      && m < |rows|
      && (forall p :: 0 <= p < m ==> Passes(rows[p], body))
      && !Passes(rows[m], body)
      && EachFrom(rows, 0, body) ==
           (AppliedAll(rows[..m], body) + [body(rows[m]).0] + rows[m + 1..], body(rows[m]).1)
  {
    EachFromSpec(rows, 0, body);
    PassingRunSpec(rows, body);
    assert rows[..0] == [] && rows[0..] == rows;
    var m := PassingRun(rows, body);
    assert EachesFrom(rows, 0, body);
    if m < |rows| {
      assert rows[0..m] == rows[..m];
      assert [] + AppliedAll(rows[..m], body) == AppliedAll(rows[..m], body);
    } else {
      assert [] + AppliedAll(rows, body) == AppliedAll(rows, body);
    }
  }

  /** `modify_mandatory_data`'s loop succeeds exactly when every record holds
      the raw fields with reads counts that add up, and then renames every
      record; otherwise it raises the exception of the first record that
      does not. */
  lemma RenameRowsSpec(rows: seq<Row>)
    ensures RenameRows(rows).1.None? <==> forall p :: 0 <= p < |rows| ==> Renames(rows[p])
    ensures RenameRows(rows).1.None? ==> RenameRows(rows).0 == AppliedAll(rows, RenameMandatory)
    ensures RenameRows(rows).1.Some? ==>
      var m := PassingRun(rows, RenameMandatory);
      && m < |rows|
      && (forall p :: 0 <= p < m ==> Renames(rows[p]))
      && RenameRows(rows) ==
           (AppliedAll(rows[..m], RenameMandatory) + [RenameMandatory(rows[m]).0] + rows[m + 1..],
            RenameMandatory(rows[m]).1)
  {
    EachSpec(rows, RenameMandatory);
  }

  /** `modify_mandatory_data(items)`: renames the records in place, then
      returns the six column entries and the records with lower-cased keys;
      an exception from a record leaves the records before it renamed and
      that record as the loop body left it. */
  method ModifyMandatoryData(items: array<Row>) returns (r: Result<(seq<ColumnSpec>, seq<Row>)>)
    modifies items
    ensures items[..] == RenameRows(old(items[..])).0
    ensures r == match RenameRows(old(items[..])).1
      case Some(e) => Failure(e)
      case None => Success((MandatoryColumnData(), LowerAll(items[..])))
  {
    var i := 0;
    while i < items.Length
      invariant 0 <= i <= items.Length
      invariant EachFrom(items[..], i, RenameMandatory) == RenameRows(old(items[..]))
    {
      var renamed := RenameMandatory(items[i]);
      items[i] := renamed.0;
      if renamed.1.Some? {
        return Failure(renamed.1.value);
      }
      i := i + 1;
    }
    return Success((MandatoryColumnData(), LowerAll(items[..])));
  }
}
