/** The AG Grid column definitions of the biosample table: the filter chosen
    for each semantic column type, the precedence chain that builds one
    definition, and the header row of the CSV export
    (metadata_and_group_creation/utils/data.py).

    The JavaScript formatter functions are kept opaque: each is named by what
    it renders, which happens in the browser.
 */
module Columns {
  import opened Wrappers
  import opened PyDict
  import PyStr

  /** The JavaScript source of a formatter function, named by what it
      renders: the size in megabytes with thousands separators, the size in
      megabytes as the filter sees it, a number column with thousands
      separators, an ISO date as a US date. */
  datatype Script = SizeInMegabytes | SizeFilterValue | Thousands(col: string) | UsDate

  /** A value inside a column definition. */
  datatype DefValue =
    | DStr(s: string)
    | DBool(b: bool)
    | DList(items: seq<string>)
    | DObj(entries: seq<(string, DefValue)>)
    | DScript(script: Script)

  type ColumnDef = Dict<DefValue>

  /** A `{"name": ..., "type": ...}` entry: a fixed column, or a column of the
      project's metadata schema. */
  datatype ColumnSpec = ColumnSpec(name: string, dtype: string)

  /** The semantic column types that have a filter. */
  predicate HasFilter(dtype: string) {
    dtype == "True/False" || dtype == "Number" || dtype == "Date" || dtype == "Text"
  }

  /** The filter type and the filter operators of a column of type `dtype`. */
  function ColumnFilterType(dtype: string): (r: (string, seq<string>))
    ensures r.0 == "" <==> !HasFilter(dtype)
    ensures r.1 == [] <==> !HasFilter(dtype)
    ensures HasFilter(dtype) ==> |r.1| >= 2 && r.1[..2] == ["equals", "notEqual"]
    ensures dtype == "Number" ==> r.0 == "agNumberColumnFilter" && |r.1| == 7
    ensures dtype == "Date" ==> r.0 == "agDateColumnFilter" && |r.1| == 5
    ensures dtype == "Text" ==> r.0 == "agTextColumnFilter" && |r.1| == 6
    ensures dtype == "True/False" ==> r == ("agTextColumnFilter", ["equals", "notEqual"])
  {
    if dtype == "True/False" then
      ("agTextColumnFilter", ["equals", "notEqual"])
    else if dtype == "Number" then
      ("agNumberColumnFilter",
       ["equals", "notEqual", "lessThanOrEqual", "greaterThan", "greaterThanOrEqual", "lessThan", "inRange"])
    else if dtype == "Date" then
      ("agDateColumnFilter", ["equals", "notEqual", "greaterThan", "lessThan", "inRange"])
    else if dtype == "Text" then
      ("agTextColumnFilter", ["equals", "notEqual", "contains", "notContains", "startsWith", "endsWith"])
    else
      ("", [])
  }

  function DefaultDef(col: string, dtype: string): ColumnDef {
    var (filterType, filterOptions) := ColumnFilterType(dtype);
    [ ("headerName", DStr(col)),
      ("field", DStr(col)),
      ("filter", DStr(filterType)),
      ("filterParams", DObj([("filterOptions", DList(filterOptions)),
                             ("buttons", DList(["apply", "clear", "reset", "cancel"]))])),
      ("menuTabs", DList(["filterMenuTab", "columnsMenuTab", "generalMenuTab"])) ]
  }

  function PinnedExtra(): ColumnDef {
    [ ("headerCheckboxSelection", DBool(true)),
      ("headerCheckboxSelectionFilteredOnly", DBool(true)),
      ("pinned", DStr("left")) ]
  }

  function SizeExtra(): ColumnDef {
    [ ("valueFormatter", DObj([("function", DScript(SizeInMegabytes))])),
      ("filterValueGetter", DObj([("function", DScript(SizeFilterValue))])) ]
  }

  function NumberExtra(col: string): ColumnDef {
    [ ("valueFormatter", DObj([("function", DScript(Thousands(col)))])) ]
  }

  function DateExtra(): ColumnDef {
    [ ("filterParams", DObj([("browserDatePicker", DBool(true))])),
      ("valueFormatter", DObj([("function", DScript(UsDate))])) ]
  }

  function MinimalDef(col: string): ColumnDef {
    [ ("headerName", DStr(col)),
      ("field", DStr(col)),
      ("menuTabs", DList(["filterMenuTab", "generalMenuTab", "columnsMenuTab"])) ]
  }

  /** The definition the precedence chain of `create_column_def` picks for the
      lower-cased name `col`, before the caller's additions: the first rule of
      biosamplename, size, Number, Date and "has a filter" that applies. */
  function BaseDef(col: string, dtype: string): ColumnDef {
    var default := DefaultDef(col, dtype);
    if col == "biosamplename" then Merge(default, PinnedExtra())
    else if col == "size" then Merge(default, SizeExtra())
    else if dtype == "Number" then Merge(default, NumberExtra(col))
    else if dtype == "Date" then Merge(default, DateExtra())
    else if ColumnFilterType(dtype).0 != "" then default
    else MinimalDef(col)
  }

  /** `create_column_def(name, dtype, addition)`: every key of `addition`
      overrides the one of the chosen rule. */
  function CreateColumnDef(name: string, dtype: string, addition: ColumnDef): ColumnDef {
    Merge(BaseDef(PyStr.Lower(name), dtype), addition)
  }

  /** The export labels of the fixed columns. */
  function MandatoryColumnsExport(): seq<string> {
    [ "Biosample Name",
      "FASTQ Validation Status",
      "Size",
      "Total Number of Reads",
      "Read Length",
      "Upload Date",
      "Bioskryb Product Lot ID" ]
  }

  /** The `field`s of the fixed columns. */
  function MandatoryColumns(): seq<string> {
    [ "biosamplename",
      "fastq validation status",
      "size",
      "total number of reads",
      "read length",
      "upload date",
      "bioskryb product lot id" ]
  }

  predicate IsMandatoryField(v: DefValue) {
    v.DStr? && v.s in MandatoryColumns()
  }

  /** A definition whose `field` is not a fixed column. */
  predicate KeptForExport(d: ColumnDef) {
    match Get(d, "field")
    case Some(v) => !IsMandatoryField(v)
    case None => false
  }

  /** `filter(lambda x: x["field"] not in mandatory_columns(), defs)` */
  function NonMandatory(defs: seq<ColumnDef>): Result<seq<ColumnDef>> {
    if defs == [] then Success([])
    else
      var field :- Lookup(defs[0], "field");
      var rest :- NonMandatory(defs[1..]);
      Success(if IsMandatoryField(field) then rest else [defs[0]] + rest)
  }

  /** `map(lambda x: x["headerName"], defs)` */
  function HeaderNames(defs: seq<ColumnDef>): Result<seq<DefValue>> {
    if defs == [] then Success([])
    else
      var header :- Lookup(defs[0], "headerName");
      var rest :- HeaderNames(defs[1..]);
      Success([header] + rest)
  }

  function Labels(ss: seq<string>): seq<DefValue> {
    seq(|ss|, i requires 0 <= i < |ss| => DStr(ss[i]))
  }

  /** `convert_columns_for_export`: the seven fixed labels, then the header of
      every column that is not a fixed one, in order. Fails exactly when some
      definition has no `field`, or some non-fixed one has no `headerName`. */
  function ConvertColumnsForExport(defs: seq<ColumnDef>): Result<seq<DefValue>> {
    var nonMandatory :- NonMandatory(defs);
    var headers :- HeaderNames(nonMandatory);
    Success(Labels(MandatoryColumnsExport()) + headers)
  }

  // ---------------------------------------------------------------------------
  // Export

  /** The export header fails exactly on a definition without `field`, or on a
      kept one without `headerName`; otherwise it is the seven fixed labels
      followed by the header of every kept definition, in order. */
  lemma ConvertColumnsForExportSpec(defs: seq<ColumnDef>)
    ensures ConvertColumnsForExport(defs).Success? <==>
      (forall i :: 0 <= i < |defs| ==> "field" in Keys(defs[i])) &&
      (forall i :: 0 <= i < |defs| && KeptForExport(defs[i]) ==> "headerName" in Keys(defs[i]))
    ensures ConvertColumnsForExport(defs).Success? ==>
      var r := ConvertColumnsForExport(defs).value;
      var kept := NonMandatory(defs).value;
      && |r| == 7 + |kept|
      && r[..7] == Labels(MandatoryColumnsExport())
      && (forall d :: d in kept <==> d in defs && KeptForExport(d))
      && (forall i :: 0 <= i < |kept| ==> Get(kept[i], "headerName") == Some(r[7 + i]))
  {
    NonMandatorySpec(defs);
    if NonMandatory(defs).Success? {
      var kept := NonMandatory(defs).value;
      HeaderNamesSpec(kept);
      if forall i :: 0 <= i < |defs| && KeptForExport(defs[i]) ==> "headerName" in Keys(defs[i]) {
        forall i | 0 <= i < |kept| ensures "headerName" in Keys(kept[i]) {
          assert kept[i] in kept;
        }
      }
    }
  }

  lemma {:induction false} NonMandatorySpec(defs: seq<ColumnDef>)
    ensures NonMandatory(defs).Success? <==> forall i :: 0 <= i < |defs| ==> "field" in Keys(defs[i])
    ensures NonMandatory(defs).Success? ==>
      (forall d :: d in NonMandatory(defs).value <==> d in defs && KeptForExport(d))
  {
    if defs != [] {
      NonMandatorySpec(defs[1..]);
      GetPresence(defs[0], "field");
      assert forall i :: 1 <= i < |defs| ==> defs[i] == defs[1..][i - 1];
    }
  }

  /** The filter keeps the definitions in order: filtering a concatenation
      is concatenating the filtered parts. */
  lemma {:induction false} NonMandatoryAppend(a: seq<ColumnDef>, b: seq<ColumnDef>)
    requires NonMandatory(a).Success? && NonMandatory(b).Success?
    ensures NonMandatory(a + b) == Success(NonMandatory(a).value + NonMandatory(b).value)
  {
    if a == [] {
      assert a + b == b;
      assert NonMandatory(a).value == [];
      assert [] + NonMandatory(b).value == NonMandatory(b).value;
    } else {
      var d := a[0];
      assert a == [d] + a[1..];
      assert a + b == [d] + (a[1..] + b);
      assert Lookup(d, "field").Success? && NonMandatory(a[1..]).Success?;
      NonMandatoryAppend(a[1..], b);
      NonMandatoryCons(d, a[1..]);
      NonMandatoryCons(d, a[1..] + b);
      var k := if KeptForExport(d) then [d] else [];
      var rest := NonMandatory(a[1..]).value;
      var tail := NonMandatory(b).value;
      assert k + (rest + tail) == (k + rest) + tail;
    }
  }

  /** The filter on a definition followed by others: the definition when it
      is kept, then the filtered others. */
  lemma NonMandatoryCons(d: ColumnDef, s: seq<ColumnDef>)
    requires "field" in Keys(d) && NonMandatory(s).Success?
    ensures NonMandatory([d] + s) == Success((if KeptForExport(d) then [d] else []) + NonMandatory(s).value)
  {
    GetPresence(d, "field");
    assert ([d] + s)[0] == d && ([d] + s)[1..] == s;
    assert Lookup(d, "field") == Success(Get(d, "field").value);
    assert [] + NonMandatory(s).value == NonMandatory(s).value;
  }

  /** The filter on one definition: kept exactly when its `field` is not a
      fixed column. */
  lemma NonMandatoryOne(d: ColumnDef)
    requires "field" in Keys(d)
    ensures NonMandatory([d]) == Success(if KeptForExport(d) then [d] else [])
  {
    GetPresence(d, "field");
    assert [d][0] == d && [d][1..] == [];
    assert Lookup(d, "field") == Success(Get(d, "field").value);
    assert NonMandatory([]) == Success([]);
    assert [d] + [] == [d];
  }

  lemma {:induction false} HeaderNamesSpec(defs: seq<ColumnDef>)
    ensures HeaderNames(defs).Success? <==> forall i :: 0 <= i < |defs| ==> "headerName" in Keys(defs[i])
    ensures HeaderNames(defs).Success? ==>
      |HeaderNames(defs).value| == |defs| &&
      forall i :: 0 <= i < |defs| ==> Get(defs[i], "headerName") == Some(HeaderNames(defs).value[i])
  {
    if defs != [] {
      HeaderNamesSpec(defs[1..]);
      GetPresence(defs[0], "headerName");
      assert forall i :: 1 <= i < |defs| ==> defs[i] == defs[1..][i - 1];
    }
  }

  // ---------------------------------------------------------------------------
  // The precedence chain of create_column_def

  /** The filter parameters of the default definition. */
  function FilterParams(dtype: string): DefValue {
    DObj([("filterOptions", DList(ColumnFilterType(dtype).1)),
          ("buttons", DList(["apply", "clear", "reset", "cancel"]))])
  }

  lemma PieceKeys(col: string, dtype: string)
    ensures Keys(DefaultDef(col, dtype)) == ["headerName", "field", "filter", "filterParams", "menuTabs"]
    ensures Keys(PinnedExtra()) == ["headerCheckboxSelection", "headerCheckboxSelectionFilteredOnly", "pinned"]
    ensures Keys(SizeExtra()) == ["valueFormatter", "filterValueGetter"]
    ensures Keys(NumberExtra(col)) == ["valueFormatter"]
    ensures Keys(DateExtra()) == ["filterParams", "valueFormatter"]
    ensures Keys(MinimalDef(col)) == ["headerName", "field", "menuTabs"]
    ensures Distinct(DefaultDef(col, dtype)) && Distinct(PinnedExtra()) && Distinct(SizeExtra())
    ensures Distinct(NumberExtra(col)) && Distinct(DateExtra()) && Distinct(MinimalDef(col))
  {
  }

  /** What the chosen rule stores under `k`: the rule's extra entries win over
      the default ones. */
  lemma BaseDefGet(col: string, dtype: string, k: string)
    ensures Get(BaseDef(col, dtype), k) ==
      var default := DefaultDef(col, dtype);
      if col == "biosamplename" then (if k in Keys(PinnedExtra()) then Get(PinnedExtra(), k) else Get(default, k))
      else if col == "size" then (if k in Keys(SizeExtra()) then Get(SizeExtra(), k) else Get(default, k))
      else if dtype == "Number" then (if k in Keys(NumberExtra(col)) then Get(NumberExtra(col), k) else Get(default, k))
      else if dtype == "Date" then (if k in Keys(DateExtra()) then Get(DateExtra(), k) else Get(default, k))
      else if HasFilter(dtype) then Get(default, k)
      else Get(MinimalDef(col), k)
  {
    PieceKeys(col, dtype);
    var default := DefaultDef(col, dtype);
    if col == "biosamplename" {
      MergeGet(default, PinnedExtra(), k);
    } else if col == "size" {
      MergeGet(default, SizeExtra(), k);
    } else if dtype == "Number" {
      MergeGet(default, NumberExtra(col), k);
    } else if dtype == "Date" {
      MergeGet(default, DateExtra(), k);
    }
  }

  lemma BaseDefPrefix(col: string, dtype: string)
    ensures |BaseDef(col, dtype)| >= 2 && Keys(BaseDef(col, dtype))[..2] == ["headerName", "field"]
  {
    PieceKeys(col, dtype);
    var default := DefaultDef(col, dtype);
    if col == "biosamplename" {
      MergePrefixKeys(default, PinnedExtra());
    } else if col == "size" {
      MergePrefixKeys(default, SizeExtra());
    } else if dtype == "Number" {
      MergePrefixKeys(default, NumberExtra(col));
    } else if dtype == "Date" {
      MergePrefixKeys(default, DateExtra());
    }
  }

  lemma BaseDefName(col: string, dtype: string)
    ensures Get(BaseDef(col, dtype), "headerName") == Some(DStr(col))
    ensures Get(BaseDef(col, dtype), "field") == Some(DStr(col))
  {
    PieceKeys(col, dtype);
    BaseDefGet(col, dtype, "headerName");
    BaseDefGet(col, dtype, "field");
    GetAt(DefaultDef(col, dtype), 0);
    GetAt(DefaultDef(col, dtype), 1);
    GetAt(MinimalDef(col), 0);
    GetAt(MinimalDef(col), 1);
  }

  lemma BaseDefPinned(col: string, dtype: string)
    ensures Get(BaseDef(col, dtype), "pinned") == if col == "biosamplename" then Some(DStr("left")) else None
  {
    PieceKeys(col, dtype);
    BaseDefGet(col, dtype, "pinned");
    GetAt(PinnedExtra(), 2);
    GetPresence(DefaultDef(col, dtype), "pinned");
    GetPresence(MinimalDef(col), "pinned");
  }

  lemma BaseDefFilterValueGetter(col: string, dtype: string)
    ensures Get(BaseDef(col, dtype), "filterValueGetter").Some? <==> col == "size"
  {
    PieceKeys(col, dtype);
    BaseDefGet(col, dtype, "filterValueGetter");
    GetPresence(SizeExtra(), "filterValueGetter");
    GetPresence(DefaultDef(col, dtype), "filterValueGetter");
    GetPresence(MinimalDef(col), "filterValueGetter");
  }

  lemma BaseDefValueFormatter(col: string, dtype: string)
    ensures Get(BaseDef(col, dtype), "valueFormatter").Some? <==>
      col != "biosamplename" && (col == "size" || dtype == "Number" || dtype == "Date")
  {
    PieceKeys(col, dtype);
    BaseDefGet(col, dtype, "valueFormatter");
    GetPresence(SizeExtra(), "valueFormatter");
    GetPresence(NumberExtra(col), "valueFormatter");
    GetPresence(DateExtra(), "valueFormatter");
    GetPresence(DefaultDef(col, dtype), "valueFormatter");
    GetPresence(MinimalDef(col), "valueFormatter");
  }

  lemma BaseDefFilter(col: string, dtype: string)
    ensures Get(BaseDef(col, dtype), "filter") ==
      if col == "biosamplename" || col == "size" || HasFilter(dtype) then Some(DStr(ColumnFilterType(dtype).0)) else None
  {
    PieceKeys(col, dtype);
    BaseDefGet(col, dtype, "filter");
    GetAt(DefaultDef(col, dtype), 2);
    GetPresence(MinimalDef(col), "filter");
  }

  lemma BaseDefFilterParams(col: string, dtype: string)
    ensures Get(BaseDef(col, dtype), "filterParams") ==
      if col != "biosamplename" && col != "size" && dtype == "Date" then Some(DObj([("browserDatePicker", DBool(true))]))
      else if col == "biosamplename" || col == "size" || HasFilter(dtype) then Some(FilterParams(dtype))
      else None
  {
    PieceKeys(col, dtype);
    BaseDefGet(col, dtype, "filterParams");
    GetAt(DefaultDef(col, dtype), 3);
    GetAt(DateExtra(), 0);
    GetPresence(MinimalDef(col), "filterParams");
  }

  /** Every definition starts with `headerName` then `field`; each key of
      `addition` holds the value given there, and unless overridden both
      `headerName` and `field` hold the lower-cased name. */
  lemma CreateColumnDefIdentity(name: string, dtype: string, addition: ColumnDef)
    requires Distinct(addition)
    ensures var r := CreateColumnDef(name, dtype, addition);
      && |r| >= 2 && r[0].0 == "headerName" && r[1].0 == "field"
      && (forall k :: k in Keys(addition) ==> Get(r, k) == Get(addition, k))
      && ("headerName" !in Keys(addition) ==> Get(r, "headerName") == Some(DStr(PyStr.Lower(name))))
      && ("field" !in Keys(addition) ==> Get(r, "field") == Some(DStr(PyStr.Lower(name))))
  {
    var col := PyStr.Lower(name);
    var base := BaseDef(col, dtype);
    var r := CreateColumnDef(name, dtype, addition);
    BaseDefPrefix(col, dtype);
    MergePrefixKeys(base, addition);
    assert Keys(r)[..|base|][..2] == ["headerName", "field"];
    assert Keys(r)[0] == r[0].0 && Keys(r)[1] == r[1].0;
    forall k | k in Keys(addition) ensures Get(r, k) == Get(addition, k) {
      MergeGet(base, addition, k);
    }
    MergeGet(base, addition, "headerName");
    MergeGet(base, addition, "field");
    BaseDefName(col, dtype);
  }

  /** The keys the rules differ on, when `addition` leaves them alone: the
      biosamplename column alone is pinned left; the size column alone has a
      filter value getter; size, Number and Date columns get a value
      formatter; every column but a minimal one has `filter` (from its type)
      and `filterParams`, which for a Date column is only the date picker. */
  lemma CreateColumnDefPrecedence(name: string, dtype: string, addition: ColumnDef)
    requires Distinct(addition)
    requires forall k :: k in Keys(addition) ==>
      k != "pinned" && k != "filterValueGetter" && k != "valueFormatter" && k != "filter" && k != "filterParams"
    ensures var r := CreateColumnDef(name, dtype, addition);
      var col := PyStr.Lower(name);
      var special := col == "biosamplename" || col == "size";
      && Get(r, "pinned") == (if col == "biosamplename" then Some(DStr("left")) else None)
      && (Get(r, "filterValueGetter").Some? <==> col == "size")
      && (Get(r, "valueFormatter").Some? <==>
            col != "biosamplename" && (col == "size" || dtype == "Number" || dtype == "Date"))
      && Get(r, "filter") == (if special || HasFilter(dtype) then Some(DStr(ColumnFilterType(dtype).0)) else None)
      && Get(r, "filterParams") ==
           (if !special && dtype == "Date" then Some(DObj([("browserDatePicker", DBool(true))]))
            else if special || HasFilter(dtype) then Some(FilterParams(dtype))
            else None)
  {
    var col := PyStr.Lower(name);
    var base := BaseDef(col, dtype);
    MergeGet(base, addition, "pinned");
    MergeGet(base, addition, "filterValueGetter");
    MergeGet(base, addition, "valueFormatter");
    MergeGet(base, addition, "filter");
    MergeGet(base, addition, "filterParams");
    BaseDefPinned(col, dtype);
    BaseDefFilterValueGetter(col, dtype);
    BaseDefValueFormatter(col, dtype);
    BaseDefFilter(col, dtype);
    BaseDefFilterParams(col, dtype);
  }
}
