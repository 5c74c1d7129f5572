/** `modify_metadata` and `create_column_defs_and_row_data`
    (metadata_and_group_creation/utils/data.py): the column definitions and
    the rows of the biosample table, built from the records and the metadata
    schema of a project.

    `json.loads` of a record's metadata text is the parameter `decode`: it
    gives the decoded document, or nothing when the text is malformed. The
    schema arrives already decoded, as its `{"name", "type"}` entries.
 */
module Shaping {
  import opened Wrappers
  import opened PyDict
  import opened Records
  import opened Columns
  import opened Mandatory
  import PyStr

  /** What `json.loads` makes of a metadata text: an object, whose entries a
      dict takes over, or any other JSON value. */
  datatype Decoded = Object(entries: seq<(string, Value)>) | NotObject

  type Decoder = string -> Option<Decoded>

  // ---------------------------------------------------------------------------
  // The column definitions

  /** The definition of a schema column (`create_column_def(x["name"], x["type"])`). */
  function SchemaDef(s: ColumnSpec): ColumnDef {
    CreateColumnDef(s.name, s.dtype, [])
  }

  function MetadataDefs(schema: seq<ColumnSpec>): seq<ColumnDef> {
    seq(|schema|, i requires 0 <= i < |schema| => SchemaDef(schema[i]))
  }

  /** The fixed columns: biosampleName, then the six of `modify_mandatory_data`. */
  function MandatorySpecs(): seq<ColumnSpec> {
    [ColumnSpec("biosampleName", "Text")] + MandatoryColumnData()
  }

  function MandatoryDefs(): seq<ColumnDef> {
    var specs := MandatorySpecs();
    seq(|specs|, i requires 0 <= i < |specs| => SchemaDef(specs[i]))
  }

  /** The definitions of the table: the fixed ones, then the schema's. */
  function ColumnDefs(schema: seq<ColumnSpec>): seq<ColumnDef> {
    MandatoryDefs() + MetadataDefs(schema)
  }

  /** A column that falls through to the minimal rule of `create_column_def`,
      which gives it no `filter`. */
  predicate Minimal(s: ColumnSpec) {
    var col := PyStr.Lower(s.name);
    col != "biosamplename" && col != "size" && !HasFilter(s.dtype)
  }

  predicate AllFiltered(schema: seq<ColumnSpec>) {
    forall i :: 0 <= i < |schema| ==> !Minimal(schema[i])
  }

  /** The lower-cased names of the Date columns, in schema order. */
  function DateNames(schema: seq<ColumnSpec>): seq<DefValue> {
    if schema == [] then []
    else (if schema[0].dtype == "Date" then [DStr(PyStr.Lower(schema[0].name))] else []) + DateNames(schema[1..])
  }

  /** The lower-cased names of the schema columns that are not fixed ones, in
      schema order. */
  function ExportedNames(schema: seq<ColumnSpec>): seq<DefValue> {
    if schema == [] then []
    else
      var col := PyStr.Lower(schema[0].name);
      (if col in MandatoryColumns() then [] else [DStr(col)]) + ExportedNames(schema[1..])
  }

  /** What the definition of a column holds under the keys the pipeline reads:
      its lower-cased name as `field` and `headerName`, and a `filter` from
      its type unless it is minimal; the filter is the date filter exactly
      for a Date column. */
  lemma SchemaDefSpec(s: ColumnSpec)
    ensures var d := SchemaDef(s);
      && Get(d, "field") == Some(DStr(PyStr.Lower(s.name)))
      && Get(d, "headerName") == Some(DStr(PyStr.Lower(s.name)))
      && Get(d, "filter") == (if Minimal(s) then None else Some(DStr(ColumnFilterType(s.dtype).0)))
      && (Get(d, "filter") == Some(DStr("agDateColumnFilter")) <==> s.dtype == "Date")
  {
    CreateColumnDefIdentity(s.name, s.dtype, []);
    CreateColumnDefPrecedence(s.name, s.dtype, []);
  }

  /** Each schema definition carries its column's lower-cased name. */
  lemma MetadataFields(schema: seq<ColumnSpec>)
    ensures |MetadataDefs(schema)| == |schema|
    ensures forall i :: 0 <= i < |schema| ==>
      && Get(MetadataDefs(schema)[i], "field") == Some(DStr(PyStr.Lower(schema[i].name)))
      && Get(MetadataDefs(schema)[i], "headerName") == Some(DStr(PyStr.Lower(schema[i].name)))
  {
    forall i | 0 <= i < |schema|
      ensures Get(MetadataDefs(schema)[i], "field") == Some(DStr(PyStr.Lower(schema[i].name)))
      ensures Get(MetadataDefs(schema)[i], "headerName") == Some(DStr(PyStr.Lower(schema[i].name)))
    {
      SchemaDefSpec(schema[i]);
    }
  }

  /** The seven fixed definitions have, in order, the fixed fields as their
      `field` and `headerName`; the first is the pinned biosamplename column. */
  lemma MandatoryDefsSpec()
    ensures |MandatoryDefs()| == 7
    ensures forall i :: 0 <= i < 7 ==>
      && Get(MandatoryDefs()[i], "field") == Some(DStr(MandatoryColumns()[i]))
      && Get(MandatoryDefs()[i], "headerName") == Some(DStr(MandatoryColumns()[i]))
    ensures Get(MandatoryDefs()[0], "pinned") == Some(DStr("left"))
  {
    var specs := MandatorySpecs();
    MandatoryColumnDataSpec();
    LowerBiosample();
    forall i | 0 <= i < 7
      ensures PyStr.Lower(specs[i].name) == MandatoryColumns()[i]
    {
      if i > 0 {
        assert specs[i] == MandatoryColumnData()[i - 1];
        PyStr.LowerIdempotent(MandatoryColumnEntries()[i - 1].name);
      }
    }
    forall i | 0 <= i < 7
      ensures Get(MandatoryDefs()[i], "field") == Some(DStr(MandatoryColumns()[i]))
      ensures Get(MandatoryDefs()[i], "headerName") == Some(DStr(MandatoryColumns()[i]))
    {
      SchemaDefSpec(specs[i]);
    }
    CreateColumnDefPrecedence("biosampleName", "Text", []);
  }

  // ---------------------------------------------------------------------------
  // modify_metadata

  /** The `field`s of the definitions whose `filter` is the date filter, read
      lazily as `list(map(..., filter(...)))` does: a definition without
      `filter`, or a date one without `field`, raises a KeyError. */
  function DateFields(defs: seq<ColumnDef>): Result<seq<DefValue>> {
    if defs == [] then Success([])
    else
      var filter :- Lookup(defs[0], "filter");
      if filter == DStr("agDateColumnFilter") then
        var field :- Lookup(defs[0], "field");
        var rest :- DateFields(defs[1..]);
        Success([field] + rest)
      else DateFields(defs[1..])
  }

  /** Over the definitions of a schema, the date fields are the names of its
      Date columns, unless some column is minimal: its missing `filter`
      raises the KeyError. */
  lemma {:induction false} DateFieldsSpec(schema: seq<ColumnSpec>)
    ensures DateFields(MetadataDefs(schema)) ==
      if AllFiltered(schema) then Success(DateNames(schema)) else Failure(KeyError("filter"))
  {
    if schema != [] {
      var defs := MetadataDefs(schema);
      var d := defs[0];
      var col := PyStr.Lower(schema[0].name);
      assert defs[1..] == MetadataDefs(schema[1..]);
      assert d == SchemaDef(schema[0]);
      SchemaDefSpec(schema[0]);
      GetPresence(d, "filter");
      GetPresence(d, "field");
      DateFieldsSpec(schema[1..]);
      assert AllFiltered(schema) <==> !Minimal(schema[0]) && AllFiltered(schema[1..]) by {
        if !Minimal(schema[0]) && AllFiltered(schema[1..]) {
          forall i | 0 <= i < |schema| ensures !Minimal(schema[i]) {
            if i > 0 { assert schema[i] == schema[1..][i - 1]; }
          }
        }
      }
      if Minimal(schema[0]) {
        assert Lookup(d, "filter") == Failure(KeyError("filter"));
      } else if schema[0].dtype == "Date" {
        assert Lookup(d, "filter") == Success(DStr("agDateColumnFilter"));
        assert Lookup(d, "field") == Success(DStr(col));
        assert DateNames(schema) == [DStr(col)] + DateNames(schema[1..]);
      } else {
        assert Lookup(d, "filter").Success? && Lookup(d, "filter").value != DStr("agDateColumnFilter");
        assert DateNames(schema) == DateNames(schema[1..]);
      }
    }
  }

  /** The schema has no Date column exactly when it names no date field. */
  lemma {:induction false} DateNamesEmpty(schema: seq<ColumnSpec>)
    ensures DateNames(schema) == [] <==> forall i :: 0 <= i < |schema| ==> schema[i].dtype != "Date"
  {
    if schema != [] {
      DateNamesEmpty(schema[1..]);
      assert forall i :: 1 <= i < |schema| ==> schema[i] == schema[1..][i - 1];
    }
  }

  /** The metadata text of a record, if it has one. */
  function MetadataText(row: Row): Option<string> {
    var v := Get(row, "metadata");
    if v.Some? && v.value.Str? then Some(v.value.s) else None
  }

  /** `modify_metadata(row, defs)`: decodes the record's metadata. Looking up
      `metadata` can raise a KeyError, `json.loads` a TypeError on a value
      that is not a string and a decoding error on malformed text; then the
      date fields are collected, and any date field raises a NameError, as
      `parse_date` is not defined. */
  function ModifyMetadata(row: Row, defs: seq<ColumnDef>, decode: Decoder): (r: Result<Decoded>)
    ensures r.Success? <==>
      MetadataText(row).Some? && decode(MetadataText(row).value).Some? && DateFields(defs) == Success([])
    ensures r.Success? ==> decode(MetadataText(row).value) == Some(r.value)
    ensures "metadata" !in Keys(row) ==> r == Failure(KeyError("metadata"))
    ensures MetadataText(row).Some? && decode(MetadataText(row).value).Some? && DateFields(defs).Failure? ==>
      r == Failure(DateFields(defs).error)
    ensures (MetadataText(row).Some? && decode(MetadataText(row).value).Some? && DateFields(defs).Success? &&
             DateFields(defs).value != []) ==> r == Failure(NameError("parse_date"))
  {
    var raw :- Lookup(row, "metadata");
    var text :- if raw.Str? then Success(raw.s) else Failure(TypeError("the JSON object must be str"));
    var metadata :- if decode(text).Some? then Success(decode(text).value) else Failure(DecodeError);
    var dateFields :- DateFields(defs);
    if dateFields != [] then Failure(NameError("parse_date")) else Success(metadata)
  }

  /** `list(map(lambda x: modify_metadata(x, ...), rows))`: stops at the
      first exception. */
  function ModifyAll(rows: seq<Row>, defs: seq<ColumnDef>, decode: Decoder): (r: Result<seq<Decoded>>)
    ensures r.Success? ==> |r.value| == |rows|
  {
    if rows == [] then Success([])
    else
      var first :- ModifyMetadata(rows[0], defs, decode);
      var rest :- ModifyAll(rows[1..], defs, decode);
      Success([first] + rest)
  }

  lemma {:induction false} ModifyAllSpec(rows: seq<Row>, defs: seq<ColumnDef>, decode: Decoder)
    ensures ModifyAll(rows, defs, decode).Success? <==>
      forall p :: 0 <= p < |rows| ==> ModifyMetadata(rows[p], defs, decode).Success?
    ensures ModifyAll(rows, defs, decode).Success? ==>
      && |ModifyAll(rows, defs, decode).value| == |rows|
      && forall p :: 0 <= p < |rows| ==>
           ModifyMetadata(rows[p], defs, decode) == Success(ModifyAll(rows, defs, decode).value[p])
    ensures rows != [] && ModifyMetadata(rows[0], defs, decode).Failure? ==>
      ModifyAll(rows, defs, decode) == Failure(ModifyMetadata(rows[0], defs, decode).error)
  {
    if rows != [] {
      ModifyAllSpec(rows[1..], defs, decode);
      assert forall p :: 1 <= p < |rows| ==> rows[p] == rows[1..][p - 1];
    }
  }

  // ---------------------------------------------------------------------------
  // The merge of a record with its metadata

  /** `{**{"biosamplename": row["biosamplename"]}, **row, **metadata}`: the
      lookup can raise a KeyError and spreading a decoded value that is not
      an object a TypeError. */
  function MergeRow(row: Row, metadata: Decoded): Result<Row> {
    var name :- Lookup(row, "biosamplename");
    if metadata.NotObject? then Failure(TypeError("argument after ** must be a mapping"))
    else Success(Merge(Merge([("biosamplename", name)], row), FromEntries(metadata.entries)))
  }

  /** The keys of a record with its metadata. */
  predicate MergedKey(row: Row, metadata: Decoded, k: string) {
    k in Keys(row) || (metadata.Object? && k in Keys(metadata.entries))
  }

  /** A merged row starts with `biosamplename` and repeats no key; it holds
      the keys of the record and of the metadata, and under each key the
      metadata's value (its last one) if the metadata has the key, and the
      record's otherwise. */
  lemma MergeRowSpec(row: Row, metadata: Decoded)
    requires Distinct(row)
    ensures MergeRow(row, metadata).Success? <==> "biosamplename" in Keys(row) && metadata.Object?
    ensures MergeRow(row, metadata).Success? ==>
      var r := MergeRow(row, metadata).value;
      var m := FromEntries(metadata.entries);
      && |r| > 0 && r[0].0 == "biosamplename"
      && Distinct(r)
      && (forall k :: k in Keys(r) <==> MergedKey(row, metadata, k))
      && (forall k :: Get(r, k) == if k in Keys(m) then Get(m, k) else Get(row, k))
  {
    if "biosamplename" in Keys(row) && metadata.Object? {
      var name := Lookup(row, "biosamplename").value;
      var head: Row := [("biosamplename", name)];
      var m := FromEntries(metadata.entries);
      var a := Merge(head, row);
      var r := Merge(a, m);
      MergePrefixKeys(head, row);
      MergePrefixKeys(a, m);
      assert Keys(r)[0] == Keys(r)[..|a|][0] == Keys(a)[0] == Keys(a)[..1][0] == "biosamplename";
      FromEntriesDistinct(metadata.entries);
      MergeDistinct(head, row);
      MergeDistinct(a, m);
      MergeKeys(head, row);
      MergeKeys(a, m);
      MergeKeys([], metadata.entries);
      forall k ensures k in Keys(r) <==> MergedKey(row, metadata, k) {
        FreshMembers(Keys(row), Keys(head), k);
        FreshMembers(Keys(m), Keys(a), k);
        FreshMembers(Keys(metadata.entries), [], k);
      }
      forall k ensures Get(r, k) == if k in Keys(m) then Get(m, k) else Get(row, k) {
        MergeGet(a, m, k);
        MergeGet(head, row, k);
        GetPresence(row, k);
      }
    }
  }

  /** `map(lambda x: {...}, zip(rows, metadata))`, listed: stops at the first
      exception. */
  function MergeAll(rows: seq<Row>, metadata: seq<Decoded>): (r: Result<seq<Row>>)
    requires |rows| == |metadata|
    ensures r.Success? ==> |r.value| == |rows|
  {
    if rows == [] then Success([])
    else
      var first :- MergeRow(rows[0], metadata[0]);
      var rest :- MergeAll(rows[1..], metadata[1..]);
      Success([first] + rest)
  }

  lemma {:induction false} MergeAllSpec(rows: seq<Row>, metadata: seq<Decoded>)
    requires |rows| == |metadata|
    ensures MergeAll(rows, metadata).Success? <==>
      forall p :: 0 <= p < |rows| ==> MergeRow(rows[p], metadata[p]).Success?
    ensures MergeAll(rows, metadata).Success? ==>
      && |MergeAll(rows, metadata).value| == |rows|
      && forall p :: 0 <= p < |rows| ==> MergeRow(rows[p], metadata[p]) == Success(MergeAll(rows, metadata).value[p])
  {
    if rows != [] {
      MergeAllSpec(rows[1..], metadata[1..]);
      assert forall p :: 1 <= p < |rows| ==> rows[p] == rows[1..][p - 1] && metadata[p] == metadata[1..][p - 1];
    }
  }

  // ---------------------------------------------------------------------------
  // create_column_defs_and_row_data

  /** The records after the call: cleaned, then renamed in place as far as
      each step gets. */
  function ItemsAfter(items: seq<Row>): seq<Row> {
    var cleaned := CleanRows(items);
    if cleaned.1.Some? then cleaned.0 else RenameRows(cleaned.0).0
  }

  /** The records as `modify_mandatory_data` returns them, after the
      cleaning: renamed and lower-cased, or the exception of either step. */
  function Prepared(items: seq<Row>): Result<seq<Row>> {
    var cleaned := CleanRows(items);
    if cleaned.1.Some? then Failure(cleaned.1.value)
    else
      var renamed := RenameRows(cleaned.0);
      if renamed.1.Some? then Failure(renamed.1.value) else Success(LowerAll(renamed.0))
  }

  /** The records are prepared exactly when every `None` sits under a known
      key and every cleaned record renames; then each prepared record is its
      record cleaned, renamed and lower-cased, and repeats no key. */
  lemma PreparedSpec(items: seq<Row>)
    ensures Prepared(items).Success? <==>
      && (forall p, q :: 0 <= p < |items| && 0 <= q < |items[p]| ==> Cleanable(items[p][q]))
      && forall p :: 0 <= p < |items| ==> Renames(Cleaned(items[p]))
    ensures Prepared(items).Success? ==>
      && |Prepared(items).value| == |items|
      && forall p :: 0 <= p < |items| ==>
           && Prepared(items).value[p] == LowerKeys(RenameMandatory(Cleaned(items[p])).0)
           && Distinct(Prepared(items).value[p])
  {
    CleanRowsSucceeds(items);
    if CleanRows(items).1.None? {
      CleanRowsSuccess(items);
      var cleaned := CleanedAll(items);
      EachSpec(cleaned, RenameMandatory);
      assert forall p :: 0 <= p < |items| ==> cleaned[p] == Cleaned(items[p]);
      if RenameRows(cleaned).1.None? {
        forall p | 0 <= p < |items| ensures Distinct(LowerKeys(RenameMandatory(Cleaned(items[p])).0)) {
          LowerKeysSpec(RenameMandatory(Cleaned(items[p])).0);
        }
      }
    }
  }

  /** `create_column_defs_and_row_data`: the column definitions and the rows
      of the table, or the exception raised on the way. */
  function Table(items: seq<Row>, schema: seq<ColumnSpec>, decode: Decoder): Result<(seq<ColumnDef>, seq<Row>)> {
    var rows :- Prepared(items);
    var defs := MetadataDefs(schema);
    var metadata :- ModifyAll(rows, defs, decode);
    var merged :- MergeAll(rows, metadata);
    Success((ColumnDefs(schema), merged))
  }

  /** A prepared record the merge gets through: a string metadata that
      decodes to an object, and a `biosamplename`. */
  predicate RowShapes(row: Row, decode: Decoder) {
    && MetadataText(row).Some?
    && decode(MetadataText(row).value).Some?
    && decode(MetadataText(row).value).value.Object?
    && "biosamplename" in Keys(row)
  }

  /** With no date field to collect, decoding and merging get through the
      records exactly when each of them shapes. */
  lemma RowsShape(rows: seq<Row>, defs: seq<ColumnDef>, decode: Decoder)
    requires forall p :: 0 <= p < |rows| ==> Distinct(rows[p])
    requires DateFields(defs) == Success([])
    ensures (ModifyAll(rows, defs, decode).Success? && MergeAll(rows, ModifyAll(rows, defs, decode).value).Success?)
      <==> forall p :: 0 <= p < |rows| ==> RowShapes(rows[p], decode)
  {
    ModifyAllSpec(rows, defs, decode);
    if ModifyAll(rows, defs, decode).Success? {
      var metadata := ModifyAll(rows, defs, decode).value;
      MergeAllSpec(rows, metadata);
      forall p | 0 <= p < |rows|
        ensures MergeRow(rows[p], metadata[p]).Success? <==> RowShapes(rows[p], decode)
      {
        MergeRowSpec(rows[p], metadata[p]);
      }
    } else {
      forall p | 0 <= p < |rows| && !ModifyMetadata(rows[p], defs, decode).Success?
        ensures !RowShapes(rows[p], decode)
      {
      }
    }
  }

  /** The table is built exactly when the records are prepared and, unless
      there are none, the schema has no Date column and no minimal column and
      every prepared record has a `biosamplename` and metadata text that
      decodes to an object. */
  lemma TableSucceeds(items: seq<Row>, schema: seq<ColumnSpec>, decode: Decoder)
    ensures Table(items, schema, decode).Success? <==>
      && Prepared(items).Success?
      && (items == [] ||
          (&& AllFiltered(schema)
           && (forall i :: 0 <= i < |schema| ==> schema[i].dtype != "Date")
           && forall p :: 0 <= p < |Prepared(items).value| ==> RowShapes(Prepared(items).value[p], decode)))
  {
    PreparedSpec(items);
    DateFieldsSpec(schema);
    DateNamesEmpty(schema);
    if Prepared(items).Success? {
      var rows := Prepared(items).value;
      var defs := MetadataDefs(schema);
      ModifyAllSpec(rows, defs, decode);
      if DateFields(defs) == Success([]) {
        RowsShape(rows, defs, decode);
      }
    }
  }

  /** With at least one record, a Date column in the schema makes the call
      fail: with a NameError, or with a KeyError when a minimal column comes
      too, unless the first record fails earlier. */
  lemma DateColumnFails(items: seq<Row>, schema: seq<ColumnSpec>, decode: Decoder, i: int)
    requires items != [] && 0 <= i < |schema| && schema[i].dtype == "Date"
    ensures Table(items, schema, decode).Failure?
    ensures (&& Prepared(items).Success?
             && MetadataText(Prepared(items).value[0]).Some?
             && decode(MetadataText(Prepared(items).value[0]).value).Some?) ==>
      Table(items, schema, decode) == Failure(if AllFiltered(schema) then NameError("parse_date") else KeyError("filter"))
  {
    TableSucceeds(items, schema, decode);
    PreparedSpec(items);
    DateFieldsSpec(schema);
    DateNamesEmpty(schema);
    if Prepared(items).Success? {
      ModifyAllSpec(Prepared(items).value, MetadataDefs(schema), decode);
    }
  }

  /** The definitions are the seven fixed ones and then one per schema
      column, in schema order, with its lower-cased name as `field`. */
  lemma ColumnDefsSpec(schema: seq<ColumnSpec>)
    ensures var defs := ColumnDefs(schema);
      && |defs| == 7 + |schema|
      && (forall i :: 0 <= i < 7 ==> Get(defs[i], "field") == Some(DStr(MandatoryColumns()[i])))
      && (forall i :: 0 <= i < |schema| ==> Get(defs[7 + i], "field") == Some(DStr(PyStr.Lower(schema[i].name))))
  {
    MandatoryDefsSpec();
    MetadataFields(schema);
    FieldsAppended(MandatoryDefs(), MetadataDefs(schema), MandatoryColumns(), seq(|schema|, i requires 0 <= i < |schema| => PyStr.Lower(schema[i].name)));
  }

  /** The `field`s of two runs of definitions, one after the other. */
  lemma FieldsAppended(m: seq<ColumnDef>, s: seq<ColumnDef>, mf: seq<string>, sf: seq<string>)
    requires |m| == |mf| && |s| == |sf|
    requires forall i :: 0 <= i < |m| ==> Get(m[i], "field") == Some(DStr(mf[i]))
    requires forall i :: 0 <= i < |s| ==> Get(s[i], "field") == Some(DStr(sf[i]))
    ensures |m + s| == |m| + |s|
    ensures forall i :: 0 <= i < |m| ==> Get((m + s)[i], "field") == Some(DStr(mf[i]))
    ensures forall i :: 0 <= i < |s| ==> Get((m + s)[|m| + i], "field") == Some(DStr(sf[i]))
  {
    assert forall i :: 0 <= i < |s| ==> (m + s)[|m| + i] == s[i];
  }

  /** A table that is built is made of the prepared records, their decoded
      metadata and their merges. */
  lemma TableParts(items: seq<Row>, schema: seq<ColumnSpec>, decode: Decoder)
    requires Table(items, schema, decode).Success?
    ensures Prepared(items).Success?
    ensures var rows := Prepared(items).value;
      var meta := ModifyAll(rows, MetadataDefs(schema), decode);
      && meta.Success?
      && MergeAll(rows, meta.value).Success?
      && Table(items, schema, decode).value.1 == MergeAll(rows, meta.value).value
  {
  }

  /** A record that gets through decoding and merging: its row starts with
      `biosamplename`, keeps the `metadata` text key, holds the keys of the
      record and of its decoded metadata, and under each key the metadata's
      value where the metadata has the key and the record's otherwise. */
  lemma RowMerged(rows: seq<Row>, defs: seq<ColumnDef>, decode: Decoder, p: int)
    requires 0 <= p < |rows| && Distinct(rows[p])
    requires ModifyAll(rows, defs, decode).Success?
    requires MergeAll(rows, ModifyAll(rows, defs, decode).value).Success?
    ensures var merged := MergeAll(rows, ModifyAll(rows, defs, decode).value).value;
      && |merged| == |rows|
      && MetadataText(rows[p]).Some?
      && decode(MetadataText(rows[p]).value).Some?
      && var meta := decode(MetadataText(rows[p]).value).value;
      && meta.Object?
      && |merged[p]| > 0
      && merged[p][0].0 == "biosamplename"
      && "metadata" in Keys(merged[p])
      && Distinct(merged[p])
      && (forall k :: k in Keys(merged[p]) <==> MergedKey(rows[p], meta, k))
      && (forall k :: Get(merged[p], k) ==
            if k in Keys(FromEntries(meta.entries)) then Get(FromEntries(meta.entries), k)
            else Get(rows[p], k))
  {
    ModifyAllSpec(rows, defs, decode);
    var metadata := ModifyAll(rows, defs, decode).value;
    MergeAllSpec(rows, metadata);
    GetPresence(rows[p], "metadata");
    MergeRowSpec(rows[p], metadata[p]);
  }

  /** On success, there is one row per record, in order, and each is the
      merge of its prepared record with its decoded metadata. */
  lemma TableRows(items: seq<Row>, schema: seq<ColumnSpec>, decode: Decoder, p: int)
    requires Table(items, schema, decode).Success?
    requires 0 <= p < |items|
    ensures var rows := Table(items, schema, decode).value.1;
      var prepared := Prepared(items).value;
      && |rows| == |items| == |prepared|
      && MetadataText(prepared[p]).Some?
      && decode(MetadataText(prepared[p]).value).Some?
      && var meta := decode(MetadataText(prepared[p]).value).value;
      && meta.Object?
      && |rows[p]| > 0
      && rows[p][0].0 == "biosamplename"
      && "metadata" in Keys(rows[p])
      && Distinct(rows[p])
      && (forall k :: k in Keys(rows[p]) <==> MergedKey(prepared[p], meta, k))
      && (forall k :: Get(rows[p], k) ==
            if k in Keys(FromEntries(meta.entries)) then Get(FromEntries(meta.entries), k)
            else Get(prepared[p], k))
  {
    TableParts(items, schema, decode);
    PreparedSpec(items);
    RowMerged(Prepared(items).value, MetadataDefs(schema), decode, p);
  }

  /** With no records, the table is the definitions alone. */
  lemma NoItems(schema: seq<ColumnSpec>, decode: Decoder)
    ensures Table([], schema, decode) == Success((ColumnDefs(schema), []))
  {
    assert CleanRows([]) == ([], None);
    assert RenameRows([]) == ([], None);
  }

  // ---------------------------------------------------------------------------
  // The export header of the table's columns

  /** `filter` skips definitions whose `field` is a fixed column. */
  lemma {:induction false} NonMandatorySkip(a: seq<ColumnDef>, b: seq<ColumnDef>)
    requires forall i :: 0 <= i < |a| ==> Get(a[i], "field").Some? && IsMandatoryField(Get(a[i], "field").value)
    ensures NonMandatory(a + b) == NonMandatory(b)
  {
    if a != [] {
      GetPresence(a[0], "field");
      assert Lookup(a[0], "field") == Success(Get(a[0], "field").value);
      assert (a + b)[0] == a[0] && (a + b)[1..] == a[1..] + b;
      assert forall i :: 0 <= i < |a| - 1 ==> a[1..][i] == a[i + 1];
      NonMandatorySkip(a[1..], b);
    } else {
      assert a + b == b;
    }
  }

  /** Over definitions that carry the lower-cased names of schema columns as
      `field` and `headerName`, the headers of the kept ones are the exported
      names. */
  lemma {:induction false} KeptHeaders(defs: seq<ColumnDef>, schema: seq<ColumnSpec>)
    requires |defs| == |schema|
    requires forall i :: 0 <= i < |defs| ==>
      && Get(defs[i], "field") == Some(DStr(PyStr.Lower(schema[i].name)))
      && Get(defs[i], "headerName") == Some(DStr(PyStr.Lower(schema[i].name)))
    ensures NonMandatory(defs).Success?
    ensures HeaderNames(NonMandatory(defs).value) == Success(ExportedNames(schema))
  {
    if defs != [] {
      var d := defs[0];
      var col := PyStr.Lower(schema[0].name);
      GetPresence(d, "field");
      GetPresence(d, "headerName");
      assert forall i :: 0 <= i < |defs| - 1 ==> defs[1..][i] == defs[i + 1] && schema[1..][i] == schema[i + 1];
      KeptHeaders(defs[1..], schema[1..]);
      var rest := NonMandatory(defs[1..]).value;
      assert Lookup(d, "field") == Success(DStr(col));
      if col in MandatoryColumns() {
        assert NonMandatory(defs) == Success(rest);
        assert ExportedNames(schema) == ExportedNames(schema[1..]);
      } else {
        assert ExportedNames(schema) == [DStr(col)] + ExportedNames(schema[1..]);
        assert NonMandatory(defs) == Success([d] + rest);
        assert ([d] + rest)[0] == d && ([d] + rest)[1..] == rest;
        assert Lookup(d, "headerName") == Success(DStr(col));
      }
    }
  }

  /** The headers of the kept schema definitions are the exported names. */
  lemma ExportedSchema(schema: seq<ColumnSpec>)
    ensures NonMandatory(MetadataDefs(schema)).Success?
    ensures HeaderNames(NonMandatory(MetadataDefs(schema)).value) == Success(ExportedNames(schema))
  {
    MetadataFields(schema);
    KeptHeaders(MetadataDefs(schema), schema);
  }

  /** The CSV header of the table's columns: the seven fixed labels, then the
      lower-cased name of each schema column that is not a fixed one. */
  lemma ExportHeader(schema: seq<ColumnSpec>)
    ensures ConvertColumnsForExport(ColumnDefs(schema)) ==
      Success(Labels(MandatoryColumnsExport()) + ExportedNames(schema))
  {
    MandatoryDefsSpec();
    NonMandatorySkip(MandatoryDefs(), MetadataDefs(schema));
    ExportedSchema(schema);
  }

  // ---------------------------------------------------------------------------
  // The call, with the records in place

  /** `create_column_defs_and_row_data(response)`: cleans and renames the
      records of the response in place, and returns the table. */
  method CreateColumnDefsAndRowData(items: array<Row>, schema: seq<ColumnSpec>, decode: Decoder)
    returns (r: Result<(seq<ColumnDef>, seq<Row>)>)
    modifies items
    ensures items[..] == ItemsAfter(old(items[..]))
    ensures r == Table(old(items[..]), schema, decode)
  {
    var err := CleanNullValues(items);
    if err.Some? {
      return Failure(err.value);
    }
    var mandatory := ModifyMandatoryData(items);
    if mandatory.Failure? {
      return Failure(mandatory.error);
    }
    var (columnData, rows) := mandatory.value;
    var specs := [ColumnSpec("biosampleName", "Text")] + columnData;
    var mandatoryDefs := seq(|specs|, i requires 0 <= i < |specs| => SchemaDef(specs[i]));
    var metadataDefs := MetadataDefs(schema);
    var metadata :- ModifyAll(rows, metadataDefs, decode);
    var merged :- MergeAll(rows, metadata);
    return Success((mandatoryDefs + metadataDefs, merged));
  }
}
