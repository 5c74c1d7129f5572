/** The biosample records of the remote response and the substitution of a
    default for each `None` field (metadata_and_group_creation/utils/data.py,
    `appsync_data_types`, `get_alternative_value` and
    `clean_null_values_from_appsync_response`).

    A record is an ordered dict from field name to a decoded JSON value. The
    cleaning rewrites the records of the response in place, so the records
    are the slots of an array; a slot assignment is an update of that dict.
 */
module Records {
  import opened Wrappers
  import opened PyDict

  /** A field value: a JSON number, a JSON string, or `null` (`None`). */
  datatype Value = Num(n: int) | Str(s: string) | Null

  type Row = Dict<Value>

  /** The fields the remote query selects, in query order, and their types. */
  function AppsyncDataTypes(): Dict<string> {
    [ ("biosampleName", "Text"),
      ("fastqValidationStatus", "Text"),
      ("size", "Number"),
      ("r1FastqTotalReads", "Number"),
      ("r2FastqTotalReads", "Number"),
      ("r1FastqLength", "Number"),
      ("created", "Date"),
      ("lotId", "Text"),
      ("metadata", "Metadata") ]
  }

  /** A field whose type the cleaning knows. */
  predicate Known(k: string) {
    k in Keys(AppsyncDataTypes())
  }

  function TypeOf(k: string): string
    requires Known(k)
  {
    Lookup(AppsyncDataTypes(), k).value
  }

  /** `get_alternative_value`: the empty string for the four table types,
      the empty JSON object for the metadata blob, `None` for anything else. */
  function GetAlternativeValue(dtype: string): (r: Value)
    ensures r == Str("") <==> dtype == "True/False" || dtype == "Number" || dtype == "Date" || dtype == "Text"
    ensures r == Str("{}") <==> dtype == "Metadata"
    ensures r == Null <==> !(dtype in ["True/False", "Number", "Date", "Text", "Metadata"])
  {
    if dtype == "True/False" then Str("")
    else if dtype == "Number" then Str("")
    else if dtype == "Date" then Str("")
    else if dtype == "Text" then Str("")
    else if dtype == "Metadata" then Str("{}")
    else Null
  }

  /** Every known field has a default other than `None`. */
  lemma KnownDefaults(k: string)
    requires Known(k)
    ensures GetAlternativeValue(TypeOf(k)) != Null
  {
    assert Lookup(AppsyncDataTypes(), k).Success?;
    FoundTypes(k);
  }

  /** A type found in the table is one of the four that have a default. */
  lemma FoundTypes(k: string)
    requires Get(AppsyncDataTypes(), k).Some?
    ensures Get(AppsyncDataTypes(), k).value in {"Text", "Number", "Date", "Metadata"}
  {
    TableTypes();
    GetAmong(AppsyncDataTypes(), k, {"Text", "Number", "Date", "Metadata"});
  }

  /** The table holds only the four types that have a default. */
  lemma TableTypes()
    ensures forall i :: 0 <= i < |AppsyncDataTypes()| ==>
      AppsyncDataTypes()[i].1 in {"Text", "Number", "Date", "Metadata"}
  {
    var types := ["Text", "Text", "Number", "Number", "Number", "Number", "Date", "Text", "Metadata"];
    assert forall i :: 0 <= i < |types| ==> AppsyncDataTypes()[i].1 == types[i];
  }

  // ---------------------------------------------------------------------------
  // The reference meaning of the cleaning

  /** An entry the cleaning gets past: not `None`, or `None` under a known key. */
  predicate Cleanable(e: (string, Value)) {
    e.1 != Null || Known(e.0)
  }

  /** What the cleaning makes of one entry. */
  function CleanEntry(e: (string, Value)): (string, Value) {
    if e.1 == Null && Known(e.0) then (e.0, GetAlternativeValue(TypeOf(e.0))) else e
  }

  /** The record with every entry cleaned. */
  function Cleaned(d: Row): Row {
    seq(|d|, t requires 0 <= t < |d| => CleanEntry(d[t]))
  }

  /** `Cleaned` keeps every key and every value that is not `None`, and when
      every entry is cleanable it leaves no `None` behind. */
  lemma CleanedSpec(d: Row)
    ensures Keys(Cleaned(d)) == Keys(d)
    ensures forall t :: 0 <= t < |d| && d[t].1 != Null ==> Cleaned(d)[t] == d[t]
    ensures forall t :: 0 <= t < |d| && d[t].1 == Null && Known(d[t].0) ==>
      Cleaned(d)[t].1 == GetAlternativeValue(TypeOf(d[t].0))
    ensures (forall t :: 0 <= t < |d| ==> Cleanable(d[t])) ==>
      forall t :: 0 <= t < |d| ==> Cleaned(d)[t].1 != Null
  {
    forall t | 0 <= t < |d| && d[t].1 == Null && Known(d[t].0)
      ensures Cleaned(d)[t].1 != Null
    {
      KnownDefaults(d[t].0);
    }
  }

  // ---------------------------------------------------------------------------
  // clean_null_values_from_appsync_response, step by step

  /** The inner loop from entry `j` on: the record as the loop leaves it and
      the KeyError that stops it, if any. */
  function CleanFrom(d: Row, j: nat): (Row, Option<Error>)
    requires j <= |d|
    decreases |d| - j
  {
    if j == |d| then (d, None)
    else if d[j].1 != Null then CleanFrom(d, j + 1)
    else match Lookup(AppsyncDataTypes(), d[j].0)
      case Failure(e) => (d, Some(e))
      case Success(dtype) => CleanFrom(d[j := (d[j].0, GetAlternativeValue(dtype))], j + 1)
  }

  /** The outer loop from record `i` on. */
  function CleanRowsFrom(rows: seq<Row>, i: nat): (seq<Row>, Option<Error>)
    requires i <= |rows|
    decreases |rows| - i
  {
    if i == |rows| then (rows, None)
    else
      var (r, e) := CleanFrom(rows[i], 0);
      if e.Some? then (rows[i := r], e) else CleanRowsFrom(rows[i := r], i + 1)
  }

  /** The records after `clean_null_values_from_appsync_response`, and the
      KeyError it raises, if any. */
  function CleanRows(rows: seq<Row>): (seq<Row>, Option<Error>) {
    CleanRowsFrom(rows, 0)
  }

  /** How many entries at the front of `d` the cleaning gets past. */
  function CleanableRun(d: Row): (n: nat)
    ensures n <= |d|
  {
    if d == [] || !Cleanable(d[0]) then 0 else 1 + CleanableRun(d[1..])
  }

  /** A record the cleaning gets through. */
  predicate RowCleanable(d: Row) {
    CleanableRun(d) == |d|
  }

  /** How many records at the front of `rows` the cleaning gets through. */
  function CleanableRows(rows: seq<Row>): (n: nat)
    ensures n <= |rows|
    ensures n < |rows| ==> CleanableRun(rows[n]) < |rows[n]|
  {
    if rows == [] || !RowCleanable(rows[0]) then 0 else 1 + CleanableRows(rows[1..])
  }

  /** The run ends at the first entry the cleaning cannot get past. */
  lemma {:induction false} CleanableRunSpec(d: Row)
    ensures forall t :: 0 <= t < CleanableRun(d) ==> Cleanable(d[t])
    ensures CleanableRun(d) < |d| ==> !Cleanable(d[CleanableRun(d)])
  {
    if d != [] && Cleanable(d[0]) {
      CleanableRunSpec(d[1..]);
      forall t | 1 <= t < CleanableRun(d) ensures Cleanable(d[t]) {
        assert d[t] == d[1..][t - 1];
      }
    }
  }

  /** A record is got through exactly when all its entries are cleanable. */
  lemma RowCleanableSpec(d: Row)
    ensures RowCleanable(d) <==> forall t :: 0 <= t < |d| ==> Cleanable(d[t])
  {
    CleanableRunSpec(d);
  }

  /** The leading records are the ones got through, up to the first that is not. */
  lemma {:induction false} CleanableRowsSpec(rows: seq<Row>)
    ensures forall p :: 0 <= p < CleanableRows(rows) ==> RowCleanable(rows[p])
  {
    if rows != [] && RowCleanable(rows[0]) {
      CleanableRowsSpec(rows[1..]);
      forall p | 1 <= p < CleanableRows(rows) ensures RowCleanable(rows[p]) {
        assert rows[p] == rows[1..][p - 1];
      }
    }
  }

  function CleanedAll(rows: seq<Row>): seq<Row> {
    seq(|rows|, p requires 0 <= p < |rows| => Cleaned(rows[p]))
  }

  lemma CleanedCons(d: Row, j: int, m: int)
    requires 0 <= j < m <= |d|
    ensures Cleaned(d[j..m]) == [CleanEntry(d[j])] + Cleaned(d[j + 1..m])
  {
    var a := Cleaned(d[j..m]);
    var b := [CleanEntry(d[j])] + Cleaned(d[j + 1..m]);
    assert |a| == |b|;
    forall t | 0 <= t < |a| ensures a[t] == b[t] {
      if t > 0 {
        assert d[j..m][t] == d[j + 1..m][t - 1];
      }
    }
  }

  /** One step of the inner loop past a cleanable entry. */
  lemma CleanFromStep(d: Row, j: nat)
    requires j < |d| && Cleanable(d[j])
    ensures CleanFrom(d, j) == CleanFrom(d[j := CleanEntry(d[j])], j + 1)
  {
    if d[j].1 != Null {
      assert d[j := CleanEntry(d[j])] == d;
    }
  }

  /** Cleaning entry `j` first, then the entries `j + 1 .. m`, is cleaning
      the entries `j .. m`. */
  lemma CleanedShift(d: Row, j: nat, m: nat)
    requires j < m <= |d|
    ensures var d' := d[j := CleanEntry(d[j])];
      d'[..j + 1] + Cleaned(d'[j + 1..m]) + d'[m..] == d[..j] + Cleaned(d[j..m]) + d[m..]
  {
    var d' := d[j := CleanEntry(d[j])];
    CleanedCons(d, j, m);
    assert d'[j + 1..m] == d[j + 1..m];
    assert d'[m..] == d[m..];
    assert d'[..j + 1] == d[..j] + [CleanEntry(d[j])];
  }

  /** From entry `j` on, the inner loop cleans the entries up to the first
      one it cannot get past, and stops there with a KeyError naming it. */
  lemma {:induction false} CleanFromSpec(d: Row, j: nat)
    requires j <= |d|
    ensures var m := j + CleanableRun(d[j..]);
      CleanFrom(d, j) ==
        (d[..j] + Cleaned(d[j..m]) + d[m..], if m < |d| then Some(KeyError(d[m].0)) else None)
    decreases |d| - j
  {
    if j == |d| || !Cleanable(d[j]) {
      CleanFromStops(d, j);
    } else {
      var d' := d[j := CleanEntry(d[j])];
      CleanFromSpec(d', j + 1);
      CleanFromGoesOn(d, j);
    }
  }

  /** The inner loop at the end of the record, or at an entry it cannot get
      past. */
  lemma CleanFromStops(d: Row, j: nat)
    requires j == |d| || (j < |d| && !Cleanable(d[j]))
    ensures CleanableRun(d[j..]) == 0
    ensures CleanFrom(d, j) == (d[..j] + Cleaned(d[j..j]) + d[j..], if j < |d| then Some(KeyError(d[j].0)) else None)
  {
    assert Cleaned(d[j..j]) == [];
    assert d[..j] + [] + d[j..] == d;
    if j < |d| {
      CleanFromBlocked(d, j);
    }
  }

  /** The inner loop at an entry it cannot get past: a `None` under a field
      the table does not know. */
  lemma CleanFromBlocked(d: Row, j: nat)
    requires j < |d| && !Cleanable(d[j])
    ensures CleanableRun(d[j..]) == 0
    ensures CleanFrom(d, j) == (d, Some(KeyError(d[j].0)))
  {
    assert d[j..][0] == d[j];
    assert Lookup(AppsyncDataTypes(), d[j].0) == Failure(KeyError(d[j].0));
  }

  /** The inner loop past a cleanable entry, given what it does from the
      next entry on. */
  lemma CleanFromGoesOn(d: Row, j: nat)
    requires j < |d| && Cleanable(d[j])
    requires var d' := d[j := CleanEntry(d[j])];
      var m := j + 1 + CleanableRun(d'[j + 1..]);
      CleanFrom(d', j + 1) ==
        (d'[..j + 1] + Cleaned(d'[j + 1..m]) + d'[m..], if m < |d'| then Some(KeyError(d'[m].0)) else None)
    ensures var m := j + CleanableRun(d[j..]);
      CleanFrom(d, j) ==
        (d[..j] + Cleaned(d[j..m]) + d[m..], if m < |d| then Some(KeyError(d[m].0)) else None)
  {
    var d' := d[j := CleanEntry(d[j])];
    assert d[j..][1..] == d[j + 1..] == d'[j + 1..];
    var m := j + CleanableRun(d[j..]);
    assert m == j + 1 + CleanableRun(d'[j + 1..]);
    CleanFromStep(d, j);
    CleanedShift(d, j, m);
    if m < |d| {
      assert d'[m] == d[m];
    }
  }

  /** The inner loop over a whole record. */
  lemma CleanRowSpec(d: Row)
    ensures var t := CleanableRun(d);
      CleanFrom(d, 0) == (Cleaned(d[..t]) + d[t..], if t < |d| then Some(KeyError(d[t].0)) else None)
  {
    CleanFromSpec(d, 0);
    var t := CleanableRun(d);
    assert d[0..] == d && d[0..t] == d[..t];
    assert d[..0] + Cleaned(d[..t]) == Cleaned(d[..t]);
  }

  /** One step of the outer loop past a record it gets through. */
  lemma CleanRowsFromStep(rows: seq<Row>, i: nat)
    requires i < |rows| && RowCleanable(rows[i])
    ensures CleanRowsFrom(rows, i) == CleanRowsFrom(rows[i := Cleaned(rows[i])], i + 1)
  {
    var d := rows[i];
    CleanRowSpec(d);
    var t := CleanableRun(d);
    assert t == |d|;
    assert d[..t] == d && d[t..] == [];
    assert Cleaned(d[..t]) + d[t..] == Cleaned(d);
  }

  /** `CleanedAll` of a non-empty list: the first record cleaned, then the rest. */
  lemma CleanedAllCons(s: seq<Row>)
    requires s != []
    ensures CleanedAll(s) == [Cleaned(s[0])] + CleanedAll(s[1..])
  {
    var a := CleanedAll(s);
    var b := [Cleaned(s[0])] + CleanedAll(s[1..]);
    assert |a| == |b|;
    forall p | 0 <= p < |a| ensures a[p] == b[p] {
      if p > 0 {
        assert s[p] == s[1..][p - 1];
      }
    }
  }

  /** What the outer loop makes of the records `s` it has still to do: it
      cleans whole records up to the first one holding an entry it cannot get
      past, cleans that record up to that entry, and stops there with a
      KeyError naming it. */
  function RowsCleaned(s: seq<Row>): (seq<Row>, Option<Error>) {
    var m := CleanableRows(s);
    if m == |s| then (CleanedAll(s), None)
    else
      var t := CleanableRun(s[m]);
      (CleanedAll(s[..m]) + [Cleaned(s[m][..t]) + s[m][t..]] + s[m + 1..], Some(KeyError(s[m][t].0)))
  }

  /** `RowsCleaned` past a first record that is got through. */
  lemma RowsCleanedCons(s: seq<Row>)
    requires s != [] && RowCleanable(s[0])
    ensures RowsCleaned(s) == ([Cleaned(s[0])] + RowsCleaned(s[1..]).0, RowsCleaned(s[1..]).1)
  {
    var c := Cleaned(s[0]);
    var m := CleanableRows(s);
    var s' := s[1..];
    assert m == 1 + CleanableRows(s');
    if m == |s| {
      CleanedAllCons(s);
    } else {
      var t := CleanableRun(s[m]);
      var r := [Cleaned(s[m][..t]) + s[m][t..]];
      assert s[..m][1..] == s'[..m - 1];
      CleanedAllCons(s[..m]);
      assert s[m] == s'[m - 1] && s[m + 1..] == s'[m..];
      assert CleanedAll(s[..m]) + r + s[m + 1..] == [c] + (CleanedAll(s'[..m - 1]) + r + s'[m..]);
    }
  }

  /** From record `i` on, the outer loop leaves the records before `i` alone
      and does `RowsCleaned` to the rest. */
  predicate CleansRowsFrom(rows: seq<Row>, i: nat)
    requires i <= |rows|
  {
    var r := RowsCleaned(rows[i..]);
    CleanRowsFrom(rows, i) == (rows[..i] + r.0, r.1)
  }

  lemma {:induction false} CleanRowsFromSpec(rows: seq<Row>, i: nat)
    requires i <= |rows|
    ensures CleansRowsFrom(rows, i)
    decreases |rows| - i
  {
    if i == |rows| {
      assert rows[i..] == [] && rows[..i] == rows;
      assert CleanedAll([]) == [];
      assert RowsCleaned(rows[i..]) == ([], None);
      assert rows[..i] + [] == rows;
    } else if !RowCleanable(rows[i]) {
      CleanRowsFromStops(rows, i);
    } else {
      CleanRowsFromSpec(rows[i := Cleaned(rows[i])], i + 1);
      CleanRowsFromGoesOn(rows, i);
    }
  }

  /** The outer loop at a record it does not get through. */
  lemma CleanRowsFromStops(rows: seq<Row>, i: nat)
    requires i < |rows| && !RowCleanable(rows[i])
    ensures CleansRowsFrom(rows, i)
  {
    var s := rows[i..];
    assert s[0] == rows[i];
    assert CleanableRows(s) == 0;
    CleanRowSpec(rows[i]);
    var t := CleanableRun(rows[i]);
    var r := Cleaned(rows[i][..t]) + rows[i][t..];
    assert s[..0] == [] && CleanedAll(s[..0]) == [];
    assert s[1..] == rows[i + 1..];
    assert RowsCleaned(s).0 == [r] + rows[i + 1..];
    assert rows[..i] + ([r] + rows[i + 1..]) == rows[i := r];
  }

  /** The outer loop past a record it gets through, given what it does from
      the next record on. */
  lemma CleanRowsFromGoesOn(rows: seq<Row>, i: nat)
    requires i < |rows| && RowCleanable(rows[i])
    requires CleansRowsFrom(rows[i := Cleaned(rows[i])], i + 1)
    ensures CleansRowsFrom(rows, i)
  {
    var c := Cleaned(rows[i]);
    var rows' := rows[i := c];
    var s := rows[i..];
    assert s[0] == rows[i];
    assert s[1..] == rows[i + 1..] == rows'[i + 1..];
    RowsCleanedCons(s);
    CleanRowsFromStep(rows, i);
    var r := RowsCleaned(rows'[i + 1..]);
    assert rows'[..i + 1] == rows[..i] + [c];
    assert (rows[..i] + [c]) + r.0 == rows[..i] + ([c] + r.0);
  }

  /** The cleaning gets through every record exactly when the records are
      all got through one by one. */
  lemma CleanRowsOutcome(rows: seq<Row>)
    ensures CleanRows(rows).1.None? <==> CleanableRows(rows) == |rows|
    ensures CleanRows(rows).1.None? ==> CleanRows(rows).0 == CleanedAll(rows)
    ensures CleanRows(rows).1.Some? ==>
      var m := CleanableRows(rows);
      && m < |rows|
      && var t := CleanableRun(rows[m]);
      && CleanRows(rows).1.value == KeyError(rows[m][t].0)
      && CleanRows(rows).0 == CleanedAll(rows[..m]) + [Cleaned(rows[m][..t]) + rows[m][t..]] + rows[m + 1..]
  {
    CleanRowsSpec(rows);
    RowsCleanedOutcome(rows);
  }

  lemma RowsCleanedOutcome(s: seq<Row>)
    ensures RowsCleaned(s).1.None? <==> CleanableRows(s) == |s|
    ensures RowsCleaned(s).1.None? ==> RowsCleaned(s).0 == CleanedAll(s)
    ensures RowsCleaned(s).1.Some? ==>
      var m := CleanableRows(s);
      && m < |s|
      && var t := CleanableRun(s[m]);
      && RowsCleaned(s).1.value == KeyError(s[m][t].0)
      && RowsCleaned(s).0 == CleanedAll(s[..m]) + [Cleaned(s[m][..t]) + s[m][t..]] + s[m + 1..]
  {
  }

  /** The outer loop over all the records does `RowsCleaned` to them. */
  lemma CleanRowsSpec(rows: seq<Row>)
    ensures CleanRows(rows) == RowsCleaned(rows)
  {
    var r := RowsCleaned(rows);
    CleanRowsFromSpec(rows, 0);
    assert CleansRowsFrom(rows, 0);
    assert rows[0..] == rows && rows[..0] == [];
    assert RowsCleaned(rows[0..]) == r;
    assert [] + r.0 == r.0;
  }

  /** `clean_null_values_from_appsync_response` succeeds exactly when every
      `None` sits under a known key. */
  lemma CleanRowsSucceeds(rows: seq<Row>)
    ensures CleanRows(rows).1.None? <==>
      forall p, q :: 0 <= p < |rows| && 0 <= q < |rows[p]| ==> Cleanable(rows[p][q])
  {
    CleanRowsOutcome(rows);
    CleanableRowsSpec(rows);
    var m := CleanableRows(rows);
    if m == |rows| {
      forall p, q | 0 <= p < |rows| && 0 <= q < |rows[p]| ensures Cleanable(rows[p][q]) {
        RowCleanableSpec(rows[p]);
      }
    } else {
      CleanableRunSpec(rows[m]);
    }
  }

  /** When the cleaning succeeds, every record keeps its keys and its values
      that are not `None`, gets its type default for each `None`, and holds
      no `None` any more. */
  lemma CleanRowsSuccess(rows: seq<Row>)
    requires CleanRows(rows).1.None?
    ensures var r := CleanRows(rows).0;
      && r == CleanedAll(rows)
      && forall p :: 0 <= p < |rows| ==>
           Keys(r[p]) == Keys(rows[p]) && forall q :: 0 <= q < |r[p]| ==> r[p][q].1 != Null
  {
    CleanRowsOutcome(rows);
    CleanRowsSucceeds(rows);
    forall p | 0 <= p < |rows|
      ensures Keys(CleanedAll(rows)[p]) == Keys(rows[p])
      ensures forall q :: 0 <= q < |rows[p]| ==> CleanedAll(rows)[p][q].1 != Null
    {
      CleanedSpec(rows[p]);
    }
  }

  /** When the cleaning fails, the KeyError names the first key holding
      `None` that has no known type: the records before it are cleaned, its
      own record up to that key, and the rest is untouched. */
  lemma CleanRowsFailure(rows: seq<Row>)
    requires CleanRows(rows).1.Some?
    ensures var m := CleanableRows(rows);
      && m < |rows|
      && var t := CleanableRun(rows[m]);
      && t < |rows[m]|
      && !Cleanable(rows[m][t])
      && (forall p, q :: 0 <= p < m && 0 <= q < |rows[p]| ==> Cleanable(rows[p][q]))
      && (forall q :: 0 <= q < t ==> Cleanable(rows[m][q]))
      && CleanRows(rows).1.value == KeyError(rows[m][t].0)
      && CleanRows(rows).0 == CleanedAll(rows[..m]) + [Cleaned(rows[m][..t]) + rows[m][t..]] + rows[m + 1..]
  {
    CleanRowsOutcome(rows);
    CleanableRowsSpec(rows);
    var m := CleanableRows(rows);
    CleanableRunSpec(rows[m]);
    forall p, q | 0 <= p < m && 0 <= q < |rows[p]| ensures Cleanable(rows[p][q]) {
      RowCleanableSpec(rows[p]);
    }
  }

  /** `clean_null_values_from_appsync_response(items)`: rewrites the `None`
      fields of the records in place and reports the KeyError that stops it. */
  method CleanNullValues(items: array<Row>) returns (err: Option<Error>)
    modifies items
    ensures (items[..], err) == CleanRows(old(items[..]))
  {
    var i := 0;
    while i < items.Length
      invariant 0 <= i <= items.Length
      invariant CleanRowsFrom(items[..], i) == CleanRows(old(items[..]))
    {
      var row := items[i];
      var j := 0;
      while j < |row|
        invariant 0 <= j <= |row| == |items[i]|
        invariant CleanFrom(row, j) == CleanFrom(items[i], 0)
      {
        if row[j].1 == Null {
          var dtype := Lookup(AppsyncDataTypes(), row[j].0);
          if dtype.Failure? {
            items[i] := row;
            return Some(dtype.error);
          }
          row := row[j := (row[j].0, GetAlternativeValue(dtype.value))];
        }
        j := j + 1;
      }
      items[i] := row;
      i := i + 1;
    }
    return None;
  }
}
