# Biosample metadata and group creation, modelled in Dafny

This project models the core of the metadata-and-group-creation Dash app of
bioskryb-dash-utils. It has two parts.

**The biosample table pipeline** (`utils/data.py`). The remote response holds
the biosample records and the project's metadata-column schema. The pipeline
makes the AG Grid column definitions and the flat table rows from it:

- **Defaults for `None`**: each `None` field is replaced by the default of its
  type (`clean_null_values_from_appsync_response`, `get_alternative_value`).
- **Display fields**: each record gets its six display fields derived in
  place, loses its raw fields, and has its keys lower-cased
  (`modify_mandatory_data`).
- **Metadata**: the record's metadata text is decoded (`modify_metadata`).
- **Definitions**: one column definition per column is built by a precedence
  chain (`column_filter_type`, `create_column_def`).
- **Merge**: each record is merged with its metadata
  (`create_column_defs_and_row_data`).
- **Export header**: the CSV export header is built
  (`convert_columns_for_export`).

**The group store and the two modals** (`layout/metadata_and_group_creation.py`,
`layout/group_selection.py`). The store maps a group name to the
`biosamplename`s of its members. It covers:

- the default store;
- adding or overwriting a group;
- the alert that reports on it;
- checking groups and the table rows that get selected;
- showing and hiding table columns;
- the open/close toggles of the creation modal and the group selection modal.

## Modules

- **Shared Python semantics**:
  - `Wrappers`: `Option`; `Result`, with Python's exceptions as `Error`; and
    `Update`, which is Dash's `no_update`.
  - `PyStr`: `str.lower`, `str.isspace`, `str.strip`.
  - `PyDict`: an ordered dict as a sequence of pairs. It has `d[k] = v`,
    `del`, `{**a, **b}` and dict comprehensions, keeping Python's insertion
    order.
- **`Records`**: field values, the type table, the defaults, and the cleaning.
  The cleaning is a method over an `array` of records, specified by a
  function of the records.
- **`Mandatory`**: `modify_mandatory_data`, also as an in-place method, with
  its per-record body and its loop specified separately.
- **`Columns`**: filter types, the definition precedence chain, and the export
  header.
- **`Shaping`**: `modify_metadata` and `create_column_defs_and_row_data`.
- **`GroupSelection`**: the selection table and the selection modal's
  callbacks.
- **`GroupCreation`**: the group store callbacks, `checkbox_handler` as an
  in-place method, and `open_close_modal`.

## How the source maps to the model

- **Callbacks**: each Dash callback is a function of its inputs and states.
  `ctx.triggered` is an explicit argument (a `bool`, or an enumeration of the
  inputs). A `no_update` output is `NoUpdate`.
- **Exceptions**: a Python exception is a `Failure` carrying a KeyError,
  TypeError, NameError or DecodeError. Each operation fails at the point
  where the source raises, and with the same exception.
- **Field values**: these are numbers, strings or `None`.

## Model

| member | source | states |
|---|---|---|
| Records.GetAlternativeValue | metadata_and_group_creation/utils/data.py:72-87 | `""` exactly for the four table types, `"{}"` exactly for Metadata, `None` for every other type |
| Records.KnownDefaults | metadata_and_group_creation/utils/data.py:15-29 | every field of the type table has a default other than `None` |
| Records.TableTypes | metadata_and_group_creation/utils/data.py:15-29 | the type table gives every field one of Text, Number, Date or Metadata |
| Records.CleanedSpec | metadata_and_group_creation/utils/data.py:339-341 | cleaning a record keeps its keys and every non-`None` value, gives each `None` under a known key its type default, and leaves no `None` when every entry is cleanable |
| Records.CleanFromSpec | metadata_and_group_creation/utils/data.py:339-341 | the inner loop cleans the entries up to the first `None` under an unknown key and stops there with a KeyError naming it |
| Records.RowsCleanedCons | metadata_and_group_creation/utils/data.py:338-341 | past a record the cleaning gets through, the outcome is that record cleaned followed by the outcome on the rest |
| Records.CleanRowsFromSpec | metadata_and_group_creation/utils/data.py:338-341 | from record `i` on, the outer loop leaves the earlier records alone and cleans whole records up to the first that fails, that one up to its failing key, and leaves the rest untouched |
| Records.CleanRowsSpec | metadata_and_group_creation/utils/data.py:338-341 | the nested loop over all records ends with exactly that outcome and that KeyError |
| Records.CleanRowsOutcome | metadata_and_group_creation/utils/data.py:338-343 | the cleaning raises nothing exactly when every record is got through, and then every record is cleaned |
| Records.CleanRowsSucceeds | metadata_and_group_creation/utils/data.py:338-343 | the cleaning raises nothing exactly when every `None` sits under a key of the type table |
| Records.CleanRowsSuccess | metadata_and_group_creation/utils/data.py:338-343 | after a successful cleaning every record keeps its keys and holds no `None` |
| Records.CleanRowsFailure | metadata_and_group_creation/utils/data.py:338-343 | a failed cleaning raises KeyError on the first unknown key holding `None`: earlier records cleaned, its record cleaned up to it, later ones untouched |
| Records.CleanNullValues | metadata_and_group_creation/utils/data.py:329-343 | the nested loop rewrites the array of records in place into exactly the cleaned records, and returns the KeyError that stops it |
| Columns.ColumnFilterType | metadata_and_group_creation/utils/data.py:175-230 | Number, Date and Text filters with 7, 5 and 6 operators; True/False a text filter with `equals`, `notEqual`; any other type `("", [])`; every filter starts with `equals`, `notEqual` |
| Columns.PieceKeys | metadata_and_group_creation/utils/data.py:248-326 | the keys, in order, of the default definition and of each rule's extra entries, none repeated |
| Columns.BaseDefGet | metadata_and_group_creation/utils/data.py:259-326 | under every key the chosen rule's extra entry wins over the default definition's |
| Columns.BaseDefPrefix | metadata_and_group_creation/utils/data.py:248-250 | every definition starts with `headerName`, then `field` |
| Columns.BaseDefName | metadata_and_group_creation/utils/data.py:245-250 | `headerName` and `field` both hold the lower-cased name |
| Columns.BaseDefPinned | metadata_and_group_creation/utils/data.py:259-268 | only the biosamplename column is pinned left |
| Columns.BaseDefFilterValueGetter | metadata_and_group_creation/utils/data.py:270-282 | only the size column has a filter value getter |
| Columns.BaseDefValueFormatter | metadata_and_group_creation/utils/data.py:270-314 | a value formatter exactly for size (unless it is biosamplename), Number and Date columns |
| Columns.BaseDefFilter | metadata_and_group_creation/utils/data.py:315-326 | `filter` is the type's filter for every rule but the minimal one, which has none |
| Columns.BaseDefFilterParams | metadata_and_group_creation/utils/data.py:252-303 | `filterParams` holds the type's operators and the four buttons, only the date picker for a Date column, and is absent for a minimal column |
| Columns.CreateColumnDefIdentity | metadata_and_group_creation/utils/data.py:233-326 | every key of `def_addition` holds the value given there; otherwise `headerName` and `field` hold the lower-cased name; `headerName`, `field` come first |
| Columns.CreateColumnDefPrecedence | metadata_and_group_creation/utils/data.py:259-326 | with `def_addition` silent on a key, the precedence biosamplename > size > Number > Date > has a filter > minimal decides pinned, filter value getter, value formatter, filter and filter parameters |
| Columns.NonMandatorySpec | metadata_and_group_creation/utils/data.py:64-66 | the filter fails exactly on a definition without `field`, and keeps exactly the definitions whose `field` is not a fixed column |
| Columns.NonMandatoryAppend | metadata_and_group_creation/utils/data.py:64-66 | filtering a concatenation gives the two filtered parts one after the other, so the kept definitions stay in input order |
| Columns.NonMandatoryOne | metadata_and_group_creation/utils/data.py:64-66 | a single definition with a `field` is kept, once, exactly when that `field` is not a fixed column |
| Columns.HeaderNamesSpec | metadata_and_group_creation/utils/data.py:67-69 | the map fails exactly on a definition without `headerName`, else lists the headers in order |
| Columns.ConvertColumnsForExportSpec | metadata_and_group_creation/utils/data.py:62-69 | the export header is the seven fixed labels followed by the header of each kept definition, in the order the filter keeps them (input order, by `NonMandatoryAppend` and `NonMandatoryOne`); it fails exactly on a missing `field` or a missing kept `headerName` |
| Mandatory.Add | metadata_and_group_creation/utils/data.py:118-120 | Python `+` succeeds exactly on two numbers or two strings, giving their sum or their concatenation, and otherwise raises a TypeError |
| Mandatory.AssignmentsShape | metadata_and_group_creation/utils/data.py:116-124 | the six assignments write the six display fields in order, each once, and read only raw fields |
| Mandatory.AssignmentsEvaluate | metadata_and_group_creation/utils/data.py:116-124 | the right-hand sides all evaluate exactly when the record holds every raw field and its read counts can be added |
| Mandatory.AssignAllSpec | metadata_and_group_creation/utils/data.py:116-124 | assignments to fresh keys that no right-hand side reads succeed exactly when each right-hand side evaluates, and then append their targets with those values |
| Mandatory.DerivedEntries | metadata_and_group_creation/utils/data.py:116-124 | the derived entries are the six display fields, in insertion order |
| Mandatory.AssignedDerived | metadata_and_group_creation/utils/data.py:116-124 | with every raw field present and addable, the assigned values are the derived entries: total reads is the sum of the two counts, read length, upload date and lot id are copied |
| Mandatory.AssignmentsSpec | metadata_and_group_creation/utils/data.py:116-124 | on a record without display fields the assignments succeed exactly when the raw fields are present and the counts add, and then append the derived entries |
| Mandatory.DerivedDistinct | metadata_and_group_creation/utils/data.py:116-124 | appending the derived entries keeps a record's keys distinct and every raw field present |
| Mandatory.FieldsShape | metadata_and_group_creation/utils/data.py:116-132 | the raw fields are distinct, the display fields are distinct, and none is both |
| Mandatory.DeletePhaseSpec | metadata_and_group_creation/utils/data.py:126-132 | deleting present, distinct keys one after another never fails and leaves the other entries in order |
| Mandatory.DeleteRawFields | metadata_and_group_creation/utils/data.py:126-132 | the deletions on a record followed by new entries remove the raw fields of the record and keep the new entries |
| Mandatory.DeletedDerived | metadata_and_group_creation/utils/data.py:126-132 | the deletions after the assignments remove exactly the raw fields, keep every other entry of the record (`metadata` among them) in order, then the six display fields |
| Mandatory.RenameMandatorySpec | metadata_and_group_creation/utils/data.py:114-132 | the loop body gets through a record exactly when it holds every raw field with addable read counts, and then leaves its other entries in order followed by the display fields |
| Mandatory.WithoutKeys | metadata_and_group_creation/utils/data.py:126-132 | after the deletions a key is left exactly when the record held it and it is not one of the deleted fields |
| Mandatory.RenameDropsRaw | metadata_and_group_creation/utils/data.py:114-132 | once the loop body gets through a record, no raw field is left in it and every other key of the record still is |
| Mandatory.LabelsLowered | metadata_and_group_creation/utils/data.py:134-141 | the lower-cased names of biosampleName and the six display fields are the seven fixed column fields |
| Mandatory.LowerKeysSpec | metadata_and_group_creation/utils/data.py:139-141 | the lower-cased record's keys are the lower-cased keys, none has a capital letter, none repeats, and without collisions the entries keep order and values |
| Mandatory.MandatoryColumnDataSpec | metadata_and_group_creation/utils/data.py:106-137 | exactly six column entries, named as the fixed columns after biosamplename, typed Text, Number, Number, Number, Date, Text |
| Mandatory.EachSpec | metadata_and_group_creation/utils/data.py:114-132 | a loop that rewrites each record in place succeeds exactly when every record passes, and otherwise stops at the first that fails: earlier ones done, that one as the body left it, later ones untouched |
| Mandatory.RenameRowsSpec | metadata_and_group_creation/utils/data.py:114-132 | the loop of `modify_mandatory_data` succeeds exactly when every record renames, and then renames every record |
| Mandatory.ModifyMandatoryData | metadata_and_group_creation/utils/data.py:90-142 | the records are renamed in place as far as the loop gets; the result is the six column entries and the lower-cased records, or the loop's exception |
| Shaping.SchemaDefSpec | metadata_and_group_creation/utils/data.py:373-378 | a schema column's definition has its lower-cased name as `field` and `headerName`, a `filter` unless minimal, the date filter exactly for Date |
| Shaping.MetadataFields | metadata_and_group_creation/utils/data.py:373-378 | one definition per schema column, in schema order, carrying its lower-cased name |
| Shaping.MandatoryDefsSpec | metadata_and_group_creation/utils/data.py:369-372 | seven fixed definitions whose `field`s are the fixed columns in order, the first pinned left |
| Shaping.ColumnDefsSpec | metadata_and_group_creation/utils/data.py:369-395 | the definitions are the seven fixed ones, then one per schema column in schema order |
| Shaping.DateFieldsSpec | metadata_and_group_creation/utils/data.py:160-165 | the date fields are the names of the Date columns, unless some column is minimal, whose missing `filter` raises a KeyError |
| Shaping.DateNamesEmpty | metadata_and_group_creation/utils/data.py:160-165 | no date field exactly when the schema has no Date column |
| Shaping.ModifyMetadata | metadata_and_group_creation/utils/data.py:145-172 | decoding succeeds exactly on string metadata that decodes, with no date field; errors in order: KeyError `metadata`, TypeError, DecodeError, the date fields' KeyError, NameError for any date field |
| Shaping.ModifyAllSpec | metadata_and_group_creation/utils/data.py:379-384 | the metadata of all records is decoded exactly when each decodes, one per record, in order; otherwise the first record's exception |
| Shaping.MergeRowSpec | metadata_and_group_creation/utils/data.py:386-393 | a merged row starts with `biosamplename`, repeats no key, holds the keys of the record and the metadata, with the metadata's value winning a clash; it fails exactly without `biosamplename` or on non-object metadata |
| Shaping.MergeAllSpec | metadata_and_group_creation/utils/data.py:386-397 | the merge gets through exactly when each pair merges, one row per record, each the merge of its pair |
| Shaping.PreparedSpec | metadata_and_group_creation/utils/data.py:361-368 | the records are prepared exactly when the cleaning and the renaming succeed, each cleaned, renamed, lower-cased, without repeated keys |
| Shaping.RowsShape | metadata_and_group_creation/utils/data.py:379-397 | with no date field, decoding and merging succeed exactly when every record has a `biosamplename` and string metadata decoding to an object |
| Shaping.TableSucceeds | metadata_and_group_creation/utils/data.py:346-398 | the table is built exactly when the records are prepared and, if there are any, the schema has no Date and no minimal column and every record shapes |
| Shaping.DateColumnFails | metadata_and_group_creation/utils/data.py:160-168 | with records, a Date column makes the call fail: a NameError, or the KeyError of a minimal column |
| Shaping.TableParts | metadata_and_group_creation/utils/data.py:361-398 | a built table consists of the definitions, and of the prepared records merged with their decoded metadata |
| Shaping.RowMerged | metadata_and_group_creation/utils/data.py:386-393 | each row starts with `biosamplename`, keeps the `metadata` text key, and holds the metadata's value where it has the key and the record's otherwise |
| Shaping.TableRows | metadata_and_group_creation/utils/data.py:379-398 | one row per record, in order, each starting with `biosamplename` and the merge of its record and metadata |
| Shaping.NoItems | metadata_and_group_creation/utils/data.py:346-398 | with no records the table is the definitions alone |
| Shaping.NonMandatorySkip | metadata_and_group_creation/utils/data.py:64-66 | the export filter drops the fixed definitions |
| Shaping.KeptHeaders | metadata_and_group_creation/utils/data.py:64-69 | over definitions carrying schema names, the kept headers are the non-fixed lower-cased names |
| Shaping.ExportedSchema | metadata_and_group_creation/utils/data.py:64-69 | the kept headers of the schema's definitions are its non-fixed lower-cased names, in schema order |
| Shaping.ExportHeader | metadata_and_group_creation/utils/data.py:62-69 | the export header of the table is the seven fixed labels followed by every non-fixed schema name, in order |
| Shaping.CreateColumnDefsAndRowData | metadata_and_group_creation/utils/data.py:346-398 | the response's records are cleaned and renamed in place, and the result is the table or its exception |
| PyStr.LowerIsLower | metadata_and_group_creation/utils/data.py:139-141 | a lower-cased key has no capital letter |
| PyStr.StripSpec | metadata_and_group_creation/layout/metadata_and_group_creation.py:600-603 | `strip()` gives the name with white space removed at both ends: a slice of it whose dropped prefix and suffix are white space, empty exactly for an empty or all-white-space name, and otherwise with no white space at either end |
| PyDict.SetKeys | metadata_and_group_creation/layout/metadata_and_group_creation.py:608 | `{**store, name: v}` keeps the keys in order, appending a new name and keeping a re-used name in its place |
| PyDict.GetSet | metadata_and_group_creation/layout/metadata_and_group_creation.py:608 | `{**store, name: v}` maps the name to `v` and every other key as before |
| PyDict.MergeGet | metadata_and_group_creation/utils/data.py:386-391 | in `{**a, **b}`, with `b`'s keys distinct, a key of `b` takes `b`'s value, any other `a`'s |
| GroupSelection.GetBiosampleIdColumn | metadata_and_group_creation/layout/group_selection.py:17-21 | the selection table's column, a non-empty name |
| GroupSelection.MetadataAndGroupCreationModalOpen | metadata_and_group_creation/layout/group_selection.py:136-142 | Back with a true click count opens the creation modal and closes the selection modal; otherwise both are left alone |
| GroupSelection.GroupSelectionModalOpen | metadata_and_group_creation/layout/group_selection.py:155-165 | the selection modal flips exactly when its button's or Continue's click count is true |
| GroupCreation.MembersSpec | metadata_and_group_creation/layout/metadata_and_group_creation.py:605-607 | the members are read exactly when every row has a `biosamplename`, one per row in row order; else a KeyError |
| GroupCreation.SelectionRowsSpec | metadata_and_group_creation/layout/metadata_and_group_creation.py:611-614 | one selection row per group, in store order, naming it under the selection table's one column (`GroupSelection.SelectionTableFields`), so each row's keys are exactly that column |
| GroupCreation.CreateDefaultGroupsSpec | metadata_and_group_creation/layout/metadata_and_group_creation.py:381-395 | the default store has the one key "ALL BIOSAMPLES" holding every row's `biosamplename` in order, and one selection row for it |
| GroupCreation.AddGroupInitial | metadata_and_group_creation/layout/metadata_and_group_creation.py:594-598 | before any trigger, the callback returns the default groups (or their KeyError) |
| GroupCreation.AddGroupRefuses | metadata_and_group_creation/layout/metadata_and_group_creation.py:600-601 | once triggered, both outputs are left alone exactly when the name is missing, empty or white space, or no row is selected |
| GroupCreation.AddGroupSpec | metadata_and_group_creation/layout/metadata_and_group_creation.py:603-614 | the stripped name maps to the selected names in selection order; other groups unchanged; keys in order with a re-used name in place; no key repeats; one selection row per key in order |
| GroupCreation.Alert | metadata_and_group_creation/layout/metadata_and_group_creation.py:633-663 | the alert is never hidden |
| GroupCreation.AlertPrecedence | metadata_and_group_creation/layout/metadata_and_group_creation.py:637-663 | red "Group name not provided" for a blank name, then red "No biosamples selected", then yellow "Group overwritten" for a name in the store as typed, otherwise blue "Group created"; both messages quote the name as typed |
| GroupCreation.AlertMisreportsOverwrite | metadata_and_group_creation/layout/metadata_and_group_creation.py:651-657 | a name typed " A" for an existing group "A" is reported as created (blue) while the group is overwritten |
| GroupCreation.AlertOnStrippedName | metadata_and_group_creation/layout/metadata_and_group_creation.py:633-663 | the alert, testing the stripped name, is never hidden |
| GroupCreation.AlertOnStrippedNameAgrees | metadata_and_group_creation/layout/metadata_and_group_creation.py:651-657 | the corrected alert reports an overwrite exactly when adding the group leaves the store's keys unchanged |
| GroupCreation.FlattenSpec | metadata_and_group_creation/layout/metadata_and_group_creation.py:518-522 | the checked groups flatten exactly when each is named and in the store, into exactly the members of those groups |
| GroupCreation.FlattenAll | metadata_and_group_creation/layout/metadata_and_group_creation.py:518-522 | flattening every group of the store gives exactly all its members |
| GroupCreation.SelectRowsSpec | metadata_and_group_creation/layout/metadata_and_group_creation.py:523-525 | the filter succeeds exactly when every row has a `biosamplename`, keeps no more rows than given, and keeps exactly the rows whose name is chosen |
| GroupCreation.SelectRowsAppend | metadata_and_group_creation/layout/metadata_and_group_creation.py:523-525 | the filter keeps rows in order: filtering a concatenation concatenates the filtered parts |
| GroupCreation.SelectOne | metadata_and_group_creation/layout/metadata_and_group_creation.py:523-525 | a single row is kept exactly when its name is chosen |
| GroupCreation.SelectNone | metadata_and_group_creation/layout/metadata_and_group_creation.py:523-525 | with no names chosen no row is kept |
| GroupCreation.SelectAllGroups | metadata_and_group_creation/layout/metadata_and_group_creation.py:482-488 | select-all checked checks every group and selects exactly the rows of all members; unchecked checks none and selects no row; the labels are left alone |
| GroupCreation.NoneIsNoGroup | metadata_and_group_creation/layout/metadata_and_group_creation.py:513-516 | a checked value of `[None]` becomes no group checked and selects no row |
| GroupCreation.CheckedGroupsSelect | metadata_and_group_creation/layout/metadata_and_group_creation.py:500-512 | a hand-checked change fails exactly on an empty store; otherwise lists the keys, keeps the checked groups, and selects exactly the rows of their members |
| GroupCreation.StoreDataChecksTypedName | metadata_and_group_creation/layout/metadata_and_group_creation.py:490-498 | a new store checks the name as typed: success exactly when it is a key (else a KeyError), selecting exactly that group's rows |
| GroupCreation.CheckboxGroupMissesTypedName | metadata_and_group_creation/layout/metadata_and_group_creation.py:498 | after adding " A" (stored as "A"), the store change raises a KeyError on " A" |
| GroupCreation.CheckboxGroupOnStrippedName | metadata_and_group_creation/layout/metadata_and_group_creation.py:490-498 | the callback looking up the stripped name; on every other trigger it is the callback as written |
| GroupCreation.AddThenCheckStripped | metadata_and_group_creation/layout/metadata_and_group_creation.py:490-498 | after adding a group, the corrected callback checks it and selects exactly the rows named among the selected rows |
| GroupCreation.RehiddenSpec | metadata_and_group_creation/layout/metadata_and_group_creation.py:571-576 | each column state keeps its column and other fields, hidden exactly when its column is among all columns and not viewed |
| GroupCreation.SelectAllColumns | metadata_and_group_creation/layout/metadata_and_group_creation.py:560-569 | select-all checked shows every column; unchecked hides exactly the listed columns |
| GroupCreation.CheckboxHandler | metadata_and_group_creation/layout/metadata_and_group_creation.py:541-578 | the loop rewrites `hide` on every column state in place to exactly the recomputed states, and returns the checkbox values decided |
| GroupCreation.OpenCloseModal | metadata_and_group_creation/layout/metadata_and_group_creation.py:436-444 | the creation modal flips exactly when its button's or Continue's click count is true |
| GroupCreation.ContinueThenBack | metadata_and_group_creation/layout/metadata_and_group_creation.py:436-444 | Continue swaps the creation modal for the selection modal, and Back then reopens the creation modal and closes the selection one |

## Left out

- Network access, authentication and the GraphQL query (`utils/appsync.py`)
  are not part of this model. The response arrives as the records and the
  decoded schema.
- `json.loads` is the parameter `decode` of `Shaping`. It returns the decoded
  document, or nothing on malformed text (a DecodeError). The schema string
  is taken as already decoded into its `name`/`type` entries.
- `parse_date_from_iso`, `parse_date_to_iso` and dateutil are left out.
  `modify_metadata` calls the undefined `parse_date`, so any date column
  raises NameError and no date is ever reformatted.
- The JavaScript formatter functions of the column definitions are named
  by what they render (`Columns.Script`: size in megabytes, the size
  filter value, thousands separators, US dates), not kept as their source
  text. Their rendering happens in the browser.
- Field values are numbers, strings and `None` only. Booleans, floats as distinct from integers, and nested JSON in
  records are not modelled.
- Shaping.MergeRowSpec: decoded metadata values are modelled as flat field
  values (`Value`), not arbitrary JSON.
- Dash component construction is left out: menus, headers, grids, modals and
  the alert widget. So are `restart_filters` (which returns `{}`),
  `export_table_as_csv`'s `", ".join` and export parameters, `pprint` and
  `print`.
- GroupCreation.AddGroup: `selected_rows` of `None` is modelled as the empty
  selection `[]`. Python treats both as false at line 600.
- GroupCreation.UpdateGroupsCheckboxGroup:
  - the checkbox components are modelled by their labels (the store keys);
  - a `checked_groups` of `None` (the value of the groups checkbox group
    before any box is set) is not modelled, only lists;
  - with an empty store and a hand-checked trigger the source iterates
    `no_update`, modelled as a TypeError.
- GroupCreation.CheckboxHandler: each child's `props.value` is given as the
  list of values. The triggering value is a `bool` argument.
- GroupCreation.ColumnState: only `colId` and `hide` are named. The other
  fields of a column state are kept as they are.
- Python `str.lower` is modelled on ASCII letters only: capitals outside ASCII are left unchanged, a simplification.

## Findings

| source | as written | input that shows it | evidently intended | confidence | as-written member | corrected member |
|---|---|---|---|---|---|---|
| metadata_and_group_creation/layout/metadata_and_group_creation.py:651 | `alert` tests the name as typed against the store, while `add_group` stores the name stripped of white space | store `{"A": []}`, name `" A"`, one selected row | report "Group overwritten" when the stripped name is already a group | not executed | GroupCreation.AlertMisreportsOverwrite | GroupCreation.AlertOnStrippedName |
| metadata_and_group_creation/layout/metadata_and_group_creation.py:498 | after a group is added, `update_groups_checkbox_group` checks `[group_name_input]` as typed and looks it up in the store, which holds the stripped name | name `" A"`, one selected row: the store becomes `{"A": [...]}` and `group_store[" A"]` raises KeyError | check and select the group just added, under its stripped name | not executed | GroupCreation.CheckboxGroupMissesTypedName | GroupCreation.CheckboxGroupOnStrippedName |
