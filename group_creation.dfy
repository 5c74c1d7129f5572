/** The group store of the creation modal and the callbacks around it
    (metadata_and_group_creation/layout/metadata_and_group_creation.py).

    The store maps a group name to the `biosamplename`s of its members, in
    the order they were selected. Each callback is a function of its inputs
    and states; `ctx.triggered` becomes an explicit parameter and `no_update`
    an `Update.NoUpdate` result.
 */
module GroupCreation {
  import opened Wrappers
  import opened PyDict
  import opened Records
  import opened GroupSelection
  import PyStr

  /** The group store: group name to member `biosamplename`s. */
  type GroupStore = Dict<seq<Value>>

  /** A row of the selection table: `{get_group_id_column(): name}`. */
  type SelectionRow = Dict<string>

  /** The group every store starts with. */
  function AllBiosamples(): string {
    "ALL BIOSAMPLES"
  }

  // ---------------------------------------------------------------------------
  // Members and the selection table

  /** `list(map(lambda x: x["biosamplename"], rows))` */
  function Members(rows: seq<Row>): Result<seq<Value>> {
    if rows == [] then Success([])
    else
      var name :- Lookup(rows[0], "biosamplename");
      var rest :- Members(rows[1..]);
      Success([name] + rest)
  }

  /** The members are read exactly when every row has a `biosamplename`, and
      are then those names, one per row, in row order. */
  lemma {:induction false} MembersSpec(rows: seq<Row>)
    ensures Members(rows).Success? <==> forall i :: 0 <= i < |rows| ==> "biosamplename" in Keys(rows[i])
    ensures Members(rows).Success? ==>
      && |Members(rows).value| == |rows|
      && forall i :: 0 <= i < |rows| ==> Get(rows[i], "biosamplename") == Some(Members(rows).value[i])
    ensures Members(rows).Failure? ==> Members(rows).error == KeyError("biosamplename")
  {
    if rows != [] {
      MembersSpec(rows[1..]);
      assert forall i :: 1 <= i < |rows| ==> rows[i] == rows[1..][i - 1];
    }
  }

  /** `[{get_group_id_column(): k} for k in store.keys()]` */
  function SelectionRows(store: GroupStore): seq<SelectionRow> {
    seq(|store|, i requires 0 <= i < |store| => [(GetBiosampleIdColumn(), store[i].0)])
  }

  /** One selection row per group, in store order, naming the group under the
      selection table's one column. */
  lemma SelectionRowsSpec(store: GroupStore)
    ensures |SelectionRows(store)| == |store|
    ensures forall i :: 0 <= i < |store| ==>
      && Keys(SelectionRows(store)[i]) == SelectionTableFields()
      && Get(SelectionRows(store)[i], GetBiosampleIdColumn()) == Some(Keys(store)[i])
  {
  }

  // ---------------------------------------------------------------------------
  // create_default_groups

  /** `create_default_groups(all_row_data)` */
  function CreateDefaultGroups(allRowData: seq<Row>): Result<(GroupStore, seq<SelectionRow>)> {
    var members :- Members(allRowData);
    var store := [(AllBiosamples(), members)];
    Success((store, SelectionRows(store)))
  }

  /** The default store holds the one group "ALL BIOSAMPLES" with every row's
      `biosamplename`, in row order, and the selection table lists it alone. */
  lemma CreateDefaultGroupsSpec(allRowData: seq<Row>)
    ensures CreateDefaultGroups(allRowData).Success? <==>
      forall i :: 0 <= i < |allRowData| ==> "biosamplename" in Keys(allRowData[i])
    ensures CreateDefaultGroups(allRowData).Success? ==>
      var (store, rows) := CreateDefaultGroups(allRowData).value;
      && Keys(store) == [AllBiosamples()]
      && |store[0].1| == |allRowData|
      && (forall i :: 0 <= i < |allRowData| ==> Get(allRowData[i], "biosamplename") == Some(store[0].1[i]))
      && rows == [[(GetBiosampleIdColumn(), AllBiosamples())]]
  {
    MembersSpec(allRowData);
  }

  // ---------------------------------------------------------------------------
  // add_group

  /** A group name the callbacks refuse: missing, empty or only white space. */
  predicate Blank(name: Option<string>) {
    name.None? || name.value == "" || PyStr.IsSpace(name.value)
  }

  /** `add_group`: on the first load (nothing triggered) the default groups;
      with a blank name or no selected rows, no update; otherwise the store
      with the stripped name mapped to the selected rows' names, and its
      selection rows. `selected` is `[]` when no row is selected. */
  function AddGroup(triggered: bool, name: Option<string>, selected: seq<Row>, store: GroupStore, allRowData: seq<Row>)
    : (r: Result<Update<(GroupStore, seq<SelectionRow>)>>)
  {
    if !triggered then
      var defaults :- CreateDefaultGroups(allRowData);
      Success(Changed(defaults))
    else if Blank(name) || selected == [] then Success(NoUpdate)
    else
      var groupName := PyStr.Strip(name.value);
      var members :- Members(selected);
      var newStore := Set(store, groupName, members);   // {**group_store, group_name: members}
      Success(Changed((newStore, SelectionRows(newStore))))
  }

  /** Before anything is triggered, the callback gives the default groups. */
  lemma AddGroupInitial(name: Option<string>, selected: seq<Row>, store: GroupStore, allRowData: seq<Row>)
    ensures CreateDefaultGroups(allRowData).Success? ==>
      AddGroup(false, name, selected, store, allRowData) == Success(Changed(CreateDefaultGroups(allRowData).value))
    ensures CreateDefaultGroups(allRowData).Failure? ==>
      AddGroup(false, name, selected, store, allRowData) == Failure(CreateDefaultGroups(allRowData).error)
  {
  }

  /** Once triggered, the callback leaves both outputs alone exactly when the
      name is blank or no row is selected. */
  lemma AddGroupRefuses(name: Option<string>, selected: seq<Row>, store: GroupStore, allRowData: seq<Row>)
    ensures AddGroup(true, name, selected, store, allRowData) == Success(NoUpdate) <==> Blank(name) || selected == []
  {
  }

  /** A group that is added is stored under its stripped name, which is not
      empty and has no white space at either end, with the selected rows'
      names in selection order; every other group keeps its members, the
      keys keep their order (a new name goes last, a re-used one keeps its
      place), no key repeats, and the selection table lists the keys in
      order. */
  lemma AddGroupSpec(name: Option<string>, selected: seq<Row>, store: GroupStore, allRowData: seq<Row>)
    requires Distinct(store)
    requires !Blank(name) && selected != []
    ensures AddGroup(true, name, selected, store, allRowData).Success? <==>
      forall i :: 0 <= i < |selected| ==> "biosamplename" in Keys(selected[i])
    ensures AddGroup(true, name, selected, store, allRowData).Success? ==>
      var groupName := PyStr.Strip(name.value);
      var (newStore, rows) := AddGroup(true, name, selected, store, allRowData).value.value;
      && groupName != []
      && !PyStr.IsSpaceChar(groupName[0]) && !PyStr.IsSpaceChar(groupName[|groupName| - 1])
      && Get(newStore, groupName).Some?
      && |Get(newStore, groupName).value| == |selected|
      && (forall i :: 0 <= i < |selected| ==>
            Get(selected[i], "biosamplename") == Some(Get(newStore, groupName).value[i]))
      && (forall k :: k != groupName ==> Get(newStore, k) == Get(store, k))
      && Keys(newStore) == (if groupName in Keys(store) then Keys(store) else Keys(store) + [groupName])
      && Distinct(newStore)
      && |rows| == |newStore|
      && forall i :: 0 <= i < |rows| ==> Get(rows[i], GetBiosampleIdColumn()) == Some(Keys(newStore)[i])
  {
    MembersSpec(selected);
    PyStr.StripEnds(name.value);
    var groupName := PyStr.Strip(name.value);
    if Members(selected).Success? {
      var members := Members(selected).value;
      var newStore := Set(store, groupName, members);
      SetKeys(store, groupName, members);
      SetDistinct(store, groupName, members);
      forall k ensures Get(newStore, k) == if k == groupName then Some(members) else Get(store, k) {
        GetSet(store, groupName, members, k);
      }
      SelectionRowsSpec(newStore);
    }
  }

  // ---------------------------------------------------------------------------
  // alert

  /** The four outputs of the alert: hide, title, message, colour. */
  datatype AlertOut = AlertOut(hide: bool, title: string, message: string, color: string)

  /** `alert`, as written: its overwrite test looks up the name as typed. */
  function Alert(name: Option<string>, existing: GroupStore, selected: seq<Row>): (r: AlertOut)
    ensures !r.hide
  {
    if Blank(name) then AlertOut(false, "Group name not provided", "Please provide a name for your group", "red")
    else if selected == [] then AlertOut(false, "No biosamples selected", "Please select biosamples to add to your group", "red")
    else if name.value in Keys(existing) then
      AlertOut(false, "Group overwritten", "Group '" + name.value + "' has been overwritten", "yellow")
    else AlertOut(false, "Group created", "Group '" + name.value + "' has been created", "blue")
  }

  /** The alert's precedence: a blank name first, then an empty selection,
      then a name already in the store; red, red, yellow, otherwise blue.
      The last two are titled by what happened to the group and quote its
      name as typed. */
  lemma AlertPrecedence(name: Option<string>, existing: GroupStore, selected: seq<Row>)
    ensures var a := Alert(name, existing, selected);
      && (a.color == "red" <==> Blank(name) || selected == [])
      && (a.title == "Group name not provided" <==> Blank(name))
      && (a.title == "No biosamples selected" <==> !Blank(name) && selected == [])
      && (a.color == "yellow" <==> !Blank(name) && selected != [] && name.value in Keys(existing))
      && (a.color == "blue" <==> !Blank(name) && selected != [] && name.value !in Keys(existing))
      && (a.color == "yellow" ==> a.title == "Group overwritten" && a.message == "Group '" + name.value + "' has been overwritten")
      && (a.color == "blue" ==> a.title == "Group created" && a.message == "Group '" + name.value + "' has been created")
  {
  }

  /** The alert tells of an overwrite exactly when adding the group leaves the
      store's keys as they were. */
  predicate AlertAgrees(name: Option<string>, store: GroupStore, selected: seq<Row>, alert: AlertOut) {
    var added := AddGroup(true, name, selected, store, []);
    added.Success? && added.value.Changed? ==>
      (alert.color == "yellow" <==> Keys(added.value.value.0) == Keys(store))
  }

  /** A name typed with a leading space, for a group that exists, is reported
      as created while `add_group` overwrites that group. */
  lemma AlertMisreportsOverwrite()
    ensures var store: GroupStore := [("A", [])];
      var selected: seq<Row> := [[("biosamplename", Str("s1"))]];
      && Alert(Some(" A"), store, selected).color == "blue"
      && AddGroup(true, Some(" A"), selected, store, []) == Success(Changed(([("A", [Str("s1")])], [[(GetBiosampleIdColumn(), "A")]])))
      && !AlertAgrees(Some(" A"), store, selected, Alert(Some(" A"), store, selected))
  {
    var store: GroupStore := [("A", [])];
    var selected: seq<Row> := [[("biosamplename", Str("s1"))]];
    assert PyStr.IsSpaceChar(' ');
    assert PyStr.LStrip(" A") == "A" by {
      assert " A"[1..] == "A";
    }
    assert PyStr.Strip(" A") == "A";
    assert selected[1..] == [];
    assert Lookup(selected[0], "biosamplename") == Success(Str("s1"));
    var m := Members(selected);
    assert m.Success? && m.value == [Str("s1")] + [];
    assert m.value == [Str("s1")];
    assert " A" !in Keys(store);
    assert !Blank(Some(" A")) by {
      assert !PyStr.IsSpaceChar('A') && " A"[1] == 'A';
    }
    var newStore := Set(store, "A", [Str("s1")]);
    assert store[1..] == [];
    assert newStore == [("A", [Str("s1")])] by {
      assert [("A", [Str("s1")])] + store[1..] == [("A", [Str("s1")])];
    }
    assert SelectionRows(newStore) == [[(GetBiosampleIdColumn(), "A")]];
    assert Keys(newStore) == Keys(store);
  }

  /** `alert` with the overwrite test on the stripped name, the name the
      group is stored under. */
  function AlertOnStrippedName(name: Option<string>, existing: GroupStore, selected: seq<Row>): (r: AlertOut)
    ensures !r.hide
  {
    if Blank(name) then AlertOut(false, "Group name not provided", "Please provide a name for your group", "red")
    else if selected == [] then AlertOut(false, "No biosamples selected", "Please select biosamples to add to your group", "red")
    else
      var groupName := PyStr.Strip(name.value);
      if groupName in Keys(existing) then
        AlertOut(false, "Group overwritten", "Group '" + groupName + "' has been overwritten", "yellow")
      else AlertOut(false, "Group created", "Group '" + groupName + "' has been created", "blue")
  }

  /** The corrected alert always agrees with what `add_group` does. */
  lemma AlertOnStrippedNameAgrees(name: Option<string>, store: GroupStore, selected: seq<Row>)
    ensures AlertAgrees(name, store, selected, AlertOnStrippedName(name, store, selected))
  {
    if !Blank(name) && selected != [] {
      var groupName := PyStr.Strip(name.value);
      if Members(selected).Success? {
        SetKeys(store, groupName, Members(selected).value);
      }
    }
  }

  // ---------------------------------------------------------------------------
  // update_groups_checkbox_group

  /** The input that fired `update_groups_checkbox_group`. */
  datatype GroupTrigger = AllGroupsCheckbox | GroupStoreData | GroupsCheckboxGroup

  /** The three outputs: the checkbox labels, the checked groups and the
      selected table rows. */
  datatype GroupsOut = GroupsOut(children: Update<seq<string>>, checked: seq<Option<string>>, rows: seq<Row>)

  /** `[group_store[g] for g in groups]`, concatenated by the `reduce`. A
      missing group, or `None`, raises a KeyError. */
  function Flatten(store: GroupStore, groups: seq<Option<string>>): Result<seq<Value>> {
    if groups == [] then Success([])
    else
      var first :- if groups[0].Some? then Lookup(store, groups[0].value) else Failure(KeyError("None"));
      var rest :- Flatten(store, groups[1..]);
      Success(first + rest)
  }

  /** `filter(lambda x: x["biosamplename"] in names, rows)` */
  function SelectRows(rows: seq<Row>, names: seq<Value>): Result<seq<Row>> {
    if rows == [] then Success([])
    else
      var name :- Lookup(rows[0], "biosamplename");
      var rest :- SelectRows(rows[1..], names);
      Success(if name in names then [rows[0]] + rest else rest)
  }

  /** A row the filter keeps. */
  predicate Chosen(row: Row, names: seq<Value>) {
    Get(row, "biosamplename").Some? && Get(row, "biosamplename").value in names
  }

  /** The filter keeps the rows in order: filtering a concatenation is
      concatenating the filtered parts. */
  lemma {:induction false} SelectRowsAppend(a: seq<Row>, b: seq<Row>, names: seq<Value>)
    requires SelectRows(a, names).Success? && SelectRows(b, names).Success?
    ensures SelectRows(a + b, names) == Success(SelectRows(a, names).value + SelectRows(b, names).value)
  {
    if a == [] {
      assert a + b == b;
      assert SelectRows(a, names).value == [];
      assert [] + SelectRows(b, names).value == SelectRows(b, names).value;
    } else {
      assert (a + b)[0] == a[0] && (a + b)[1..] == a[1..] + b;
      var name := Lookup(a[0], "biosamplename");
      assert name.Success?;
      assert SelectRows(a[1..], names).Success?;
      SelectRowsAppend(a[1..], b, names);
      var rest := SelectRows(a[1..], names).value;
      var tail := SelectRows(b, names).value;
      assert SelectRows(a + b, names) ==
        Success(if name.value in names then [a[0]] + (rest + tail) else rest + tail);
      assert [a[0]] + (rest + tail) == ([a[0]] + rest) + tail;
      assert SelectRows(a, names).value == if name.value in names then [a[0]] + rest else rest;
    }
  }

  /** The filter gets through exactly when every row has a `biosamplename`;
      it then keeps a single row exactly when its name is chosen, and keeps
      only rows of the table. */
  lemma {:induction false} SelectRowsSpec(rows: seq<Row>, names: seq<Value>)
    ensures SelectRows(rows, names).Success? <==> forall i :: 0 <= i < |rows| ==> "biosamplename" in Keys(rows[i])
    ensures SelectRows(rows, names).Success? ==>
      && |SelectRows(rows, names).value| <= |rows|
      && forall x :: x in SelectRows(rows, names).value <==> x in rows && Chosen(x, names)
  {
    if rows != [] {
      SelectRowsSpec(rows[1..], names);
      GetPresence(rows[0], "biosamplename");
      assert forall i :: 1 <= i < |rows| ==> rows[i] == rows[1..][i - 1];
      if SelectRows(rows, names).Success? {
        forall x ensures x in rows <==> x == rows[0] || x in rows[1..] {
          assert rows == [rows[0]] + rows[1..];
        }
        forall x | x in rows && Chosen(x, names) && x == rows[0] ensures Chosen(rows[0], names) {}
      }
    }
  }

  /** With no names to choose, the filter keeps no row. */
  lemma {:induction false} SelectNone(rows: seq<Row>)
    requires forall i :: 0 <= i < |rows| ==> "biosamplename" in Keys(rows[i])
    ensures SelectRows(rows, []) == Success([])
  {
    if rows != [] {
      assert forall i :: 1 <= i < |rows| ==> rows[i] == rows[1..][i - 1];
      SelectNone(rows[1..]);
      GetPresence(rows[0], "biosamplename");
    }
  }

  /** The filter on one row: kept exactly when its name is chosen. */
  lemma SelectOne(row: Row, names: seq<Value>)
    requires "biosamplename" in Keys(row)
    ensures SelectRows([row], names) == Success(if Chosen(row, names) then [row] else [])
  {
    GetPresence(row, "biosamplename");
    assert [row][0] == row && [row][1..] == [];
    assert Lookup(row, "biosamplename") == Success(Get(row, "biosamplename").value);
    assert SelectRows([], names) == Success([]);
    assert [row] + [] == [row];
  }

  /** `update_groups_checkbox_group`. `checkedGroups` is the value of the
      group checkboxes, `nameInput` the group name as typed. */
  function UpdateGroupsCheckboxGroup(trigger: GroupTrigger, allChecked: bool, checkedGroups: seq<Option<string>>,
                                     store: GroupStore, rowData: seq<Row>, nameInput: Option<string>)
    : (r: Result<GroupsOut>)
  {
    var branch: Result<(Update<seq<string>>, seq<Option<string>>)> :=
      match trigger
      case AllGroupsCheckbox =>
        Success((NoUpdate, if allChecked then SomeAll(Keys(store)) else []))
      case GroupStoreData =>
        Success((Changed(Keys(store)), [nameInput]))
      case GroupsCheckboxGroup =>
        // with an empty store, `no_update` itself is iterated below
        if store == [] then Failure(TypeError("'NoUpdate' object is not iterable"))
        else Success((Changed(Keys(store)), checkedGroups));
    var chosen :- branch;
    var selectedGroups := if chosen.1 == [None] then [] else chosen.1;
    var names :- Flatten(store, selectedGroups);
    var rows :- SelectRows(rowData, names);
    Success(GroupsOut(chosen.0, selectedGroups, rows))
  }

  function SomeAll(ks: seq<string>): (r: seq<Option<string>>)
    ensures |r| == |ks| && forall i :: 0 <= i < |ks| ==> r[i] == Some(ks[i])
  {
    seq(|ks|, i requires 0 <= i < |ks| => Some(ks[i]))
  }

  /** The groups of the store, flattened in store order, are all its
      members. */
  lemma {:induction false} FlattenAll(store: GroupStore)
    requires Distinct(store)
    ensures Flatten(store, SomeAll(Keys(store))).Success?
    ensures forall v :: v in Flatten(store, SomeAll(Keys(store))).value <==>
      exists i :: 0 <= i < |store| && v in store[i].1
  {
    if store != [] {
      var rest := store[1..];
      assert SomeAll(Keys(store))[1..] == SomeAll(Keys(rest));
      GetAt(store, 0);
      assert Distinct(rest);
      FlattenAll(rest);
      // Flatten on `rest`'s keys reads the same groups in `store`
      FlattenSkip(store, SomeAll(Keys(rest)));
      forall v ensures (exists i :: 0 <= i < |store| && v in store[i].1) <==>
        v in store[0].1 || exists i :: 0 <= i < |rest| && v in rest[i].1
      {
        if exists i :: 0 <= i < |store| && v in store[i].1 {
          var i :| 0 <= i < |store| && v in store[i].1;
          if i > 0 { assert store[i] == rest[i - 1]; }
        }
        if exists i :: 0 <= i < |rest| && v in rest[i].1 {
          var i :| 0 <= i < |rest| && v in rest[i].1;
          assert store[i + 1] == rest[i];
        }
      }
    }
  }

  /** Groups whose names are not the first key read the same in the store
      and in the store without its first group. */
  lemma {:induction false} FlattenSkip(store: GroupStore, groups: seq<Option<string>>)
    requires store != [] && Distinct(store)
    requires forall i :: 0 <= i < |groups| ==> groups[i].Some? && groups[i].value in Keys(store[1..])
    ensures Flatten(store, groups) == Flatten(store[1..], groups)
  {
    if groups != [] {
      var k := groups[0].value;
      assert k != store[0].0 by {
        var j := IndexOf(store[1..], k);
        assert store[j + 1] == store[1..][j];
      }
      assert Lookup(store, k) == Lookup(store[1..], k);
      assert forall i :: 0 <= i < |groups| - 1 ==> groups[1..][i] == groups[i + 1];
      FlattenSkip(store, groups[1..]);
    }
  }

  /** The select-all checkbox, checked, checks every group and selects the
      rows of every member; unchecked, it checks none and selects no row. */
  lemma SelectAllGroups(allChecked: bool, checkedGroups: seq<Option<string>>, store: GroupStore,
                        rowData: seq<Row>, nameInput: Option<string>)
    requires Distinct(store)
    requires forall i :: 0 <= i < |rowData| ==> "biosamplename" in Keys(rowData[i])
    ensures var r := UpdateGroupsCheckboxGroup(AllGroupsCheckbox, allChecked, checkedGroups, store, rowData, nameInput);
      && r.Success?
      && r.value.children == NoUpdate
      && (allChecked ==> r.value.checked == SomeAll(Keys(store)))
      && (!allChecked ==> r.value.checked == [] && r.value.rows == [])
      && (allChecked ==> forall x :: x in r.value.rows <==>
            x in rowData && Get(x, "biosamplename").Some? &&
            exists i :: 0 <= i < |store| && Get(x, "biosamplename").value in store[i].1)
  {
    var groups := if allChecked then SomeAll(Keys(store)) else [];
    if allChecked {
      FlattenAll(store);
      if |store| == 1 {
        assert SomeAll(Keys(store)) != [None];
      }
    }
    var names := Flatten(store, if groups == [None] then [] else groups).value;
    SelectRowsSpec(rowData, names);
    if !allChecked {
      SelectNone(rowData);
    }
  }

  /** A checked value of `[None]` (the name input was empty when the store
      changed) is taken as no group checked, and selects no row. */
  lemma NoneIsNoGroup(trigger: GroupTrigger, allChecked: bool, store: GroupStore, rowData: seq<Row>)
    requires store != []
    requires forall i :: 0 <= i < |rowData| ==> "biosamplename" in Keys(rowData[i])
    ensures trigger != AllGroupsCheckbox ==>
      var r := UpdateGroupsCheckboxGroup(trigger, allChecked, [None], store, rowData, None);
      && r.Success?
      && r.value.checked == []
      && r.value.rows == []
      && r.value.children == Changed(Keys(store))
  {
    SelectNone(rowData);
  }

  /** A member `v` of the group named by `g`. */
  predicate InGroup(store: GroupStore, g: Option<string>, v: Value) {
    g.Some? && Get(store, g.value).Some? && v in Get(store, g.value).value
  }

  /** The groups flatten exactly when each is named and in the store, and
      then hold exactly the members of the named groups. */
  lemma {:induction false} FlattenSpec(store: GroupStore, groups: seq<Option<string>>)
    ensures Flatten(store, groups).Success? <==>
      forall i :: 0 <= i < |groups| ==> groups[i].Some? && groups[i].value in Keys(store)
    ensures Flatten(store, groups).Success? ==> forall v :: v in Flatten(store, groups).value <==>
      exists i :: 0 <= i < |groups| && InGroup(store, groups[i], v)
  {
    if groups != [] {
      var rest := groups[1..];
      FlattenSpec(store, rest);
      assert forall i :: 1 <= i < |groups| ==> groups[i] == rest[i - 1];
      if groups[0].Some? {
        GetPresence(store, groups[0].value);
      }
      if Flatten(store, groups).Success? {
        var first := Lookup(store, groups[0].value).value;
        forall v ensures v in Flatten(store, groups).value <==> exists i :: 0 <= i < |groups| && InGroup(store, groups[i], v) {
          if v in first {
            assert InGroup(store, groups[0], v);
          }
          if exists i :: 0 <= i < |rest| && InGroup(store, rest[i], v) {
            var i :| 0 <= i < |rest| && InGroup(store, rest[i], v);
            assert InGroup(store, groups[i + 1], v);
          }
          if exists i :: 0 <= i < |groups| && InGroup(store, groups[i], v) {
            var i :| 0 <= i < |groups| && InGroup(store, groups[i], v);
            if i > 0 {
              assert InGroup(store, rest[i - 1], v);
            }
          }
        }
      }
    }
  }

  /** A checked group changed by hand: with an empty store the callback
      fails; otherwise it lists the store's keys, keeps the checked groups,
      and selects exactly the rows whose `biosamplename` is a member of one of
      them. */
  lemma CheckedGroupsSelect(allChecked: bool, checkedGroups: seq<Option<string>>, store: GroupStore,
                            rowData: seq<Row>, nameInput: Option<string>)
    requires checkedGroups != [None]
    requires forall i :: 0 <= i < |checkedGroups| ==> checkedGroups[i].Some? && checkedGroups[i].value in Keys(store)
    requires forall i :: 0 <= i < |rowData| ==> "biosamplename" in Keys(rowData[i])
    ensures var r := UpdateGroupsCheckboxGroup(GroupsCheckboxGroup, allChecked, checkedGroups, store, rowData, nameInput);
      && (store == [] <==> r.Failure?)
      && (r.Failure? ==> r.error.TypeError?)
      && (r.Success? ==>
            && r.value.children == Changed(Keys(store))
            && r.value.checked == checkedGroups
            && forall x :: x in r.value.rows <==>
                 x in rowData && Get(x, "biosamplename").Some? &&
                 exists i :: 0 <= i < |checkedGroups| && InGroup(store, checkedGroups[i], Get(x, "biosamplename").value))
  {
    FlattenSpec(store, checkedGroups);
    if store != [] {
      SelectRowsSpec(rowData, Flatten(store, checkedGroups).value);
    }
  }

  /** A new store checks the group named in the input, as typed: the callback
      gets through exactly when that name is a key of the store (otherwise a
      KeyError), and then selects exactly the rows of that group's members. */
  lemma StoreDataChecksTypedName(allChecked: bool, checkedGroups: seq<Option<string>>, store: GroupStore,
                                 rowData: seq<Row>, name: string)
    requires forall i :: 0 <= i < |rowData| ==> "biosamplename" in Keys(rowData[i])
    ensures var r := UpdateGroupsCheckboxGroup(GroupStoreData, allChecked, checkedGroups, store, rowData, Some(name));
      && (r.Success? <==> name in Keys(store))
      && (r.Failure? ==> r.error == KeyError(name))
      && (r.Success? ==>
            && r.value.children == Changed(Keys(store))
            && r.value.checked == [Some(name)]
            && forall x :: x in r.value.rows <==> x in rowData && Chosen(x, Get(store, name).value))
  {
    FlattenSpec(store, [Some(name)]);
    GetPresence(store, name);
    if name in Keys(store) {
      var names := Flatten(store, [Some(name)]).value;
      SelectRowsSpec(rowData, names);
      assert forall v :: v in names <==> v in Get(store, name).value by {
        assert forall v :: InGroup(store, [Some(name)][0], v) <==> v in Get(store, name).value;
      }
    }
  }

  /** A group name typed with a leading space: `add_group` stores it as "A",
      and the store change then makes this callback look up " A", which
      raises a KeyError. */
  lemma CheckboxGroupMissesTypedName()
    ensures var selected: seq<Row> := [[("biosamplename", Str("s1"))]];
      var added := AddGroup(true, Some(" A"), selected, [], []);
      && added == Success(Changed(([("A", [Str("s1")])], [[(GetBiosampleIdColumn(), "A")]])))
      && UpdateGroupsCheckboxGroup(GroupStoreData, false, [], added.value.value.0, [], Some(" A")) == Failure(KeyError(" A"))
  {
    var selected: seq<Row> := [[("biosamplename", Str("s1"))]];
    assert PyStr.IsSpaceChar(' ');
    assert PyStr.LStrip(" A") == "A" by {
      assert " A"[1..] == "A";
    }
    assert PyStr.Strip(" A") == "A";
    assert !Blank(Some(" A")) by {
      assert !PyStr.IsSpaceChar('A') && " A"[1] == 'A';
    }
    assert selected[1..] == [];
    assert Lookup(selected[0], "biosamplename") == Success(Str("s1"));
    var m := Members(selected);
    assert m.Success? && m.value == [Str("s1")] + [];
    assert m.value == [Str("s1")];
    var store: GroupStore := [("A", [Str("s1")])];
    assert SelectionRows(store) == [[(GetBiosampleIdColumn(), "A")]];
    assert Lookup(store, " A") == Failure(KeyError(" A"));
  }

  /** `update_groups_checkbox_group` checking the group under the name
      `add_group` stored it under: the input stripped of white space. */
  function CheckboxGroupOnStrippedName(trigger: GroupTrigger, allChecked: bool, checkedGroups: seq<Option<string>>,
                                       store: GroupStore, rowData: seq<Row>, nameInput: Option<string>)
    : (r: Result<GroupsOut>)
    ensures trigger != GroupStoreData ==>
      r == UpdateGroupsCheckboxGroup(trigger, allChecked, checkedGroups, store, rowData, nameInput)
  {
    var stripped := if nameInput.Some? then Some(PyStr.Strip(nameInput.value)) else None;
    UpdateGroupsCheckboxGroup(trigger, allChecked, checkedGroups, store, rowData, stripped)
  }

  /** Adding a group and then reacting to the new store: with the stripped
      name the new group is checked, and the rows selected are exactly those
      whose `biosamplename` was among the rows selected for the group. */
  lemma AddThenCheckStripped(name: Option<string>, selected: seq<Row>, store: GroupStore, rowData: seq<Row>)
    requires Distinct(store)
    requires !Blank(name) && selected != []
    requires forall i :: 0 <= i < |selected| ==> "biosamplename" in Keys(selected[i])
    requires forall i :: 0 <= i < |rowData| ==> "biosamplename" in Keys(rowData[i])
    ensures var added := AddGroup(true, name, selected, store, []);
      && added.Success? && added.value.Changed?
      && var r := CheckboxGroupOnStrippedName(GroupStoreData, false, [], added.value.value.0, rowData, name);
      && r.Success?
      && r.value.checked == [Some(PyStr.Strip(name.value))]
      && forall x :: x in r.value.rows <==>
           x in rowData && Get(x, "biosamplename").Some? &&
           exists i :: 0 <= i < |selected| && Get(selected[i], "biosamplename") == Get(x, "biosamplename")
  {
    AddGroupSpec(name, selected, store, []);
    MembersSpec(selected);
    var groupName := PyStr.Strip(name.value);
    var newStore := AddGroup(true, name, selected, store, []).value.value.0;
    StoreDataChecksTypedName(false, [], newStore, rowData, groupName);
    var members := Get(newStore, groupName).value;
    forall v ensures v in members <==> exists i :: 0 <= i < |selected| && Get(selected[i], "biosamplename") == Some(v) {
      if v in members {
        var j :| 0 <= j < |members| && members[j] == v;
        assert Get(selected[j], "biosamplename") == Some(v);
      }
    }
  }

  // ---------------------------------------------------------------------------
  // checkbox_handler

  /** An entry of the grid's column state; `hide` is the one field the
      handler writes, the others are kept in `rest`. */
  datatype ColumnState = ColumnState(colId: string, hide: bool, rest: Dict<Value>)

  /** The input that fired `checkbox_handler`. */
  datatype ColumnTrigger = AllColumnsCheckbox | BasejumperColumns | CustomColumns

  /** The checked fixed and custom columns: the select-all checkbox checks
      all or none, any other input keeps the checked values. */
  function ViewColumns(trigger: ColumnTrigger, clickedValue: bool, basejumper: seq<string>, custom: seq<string>,
                       bjValues: seq<string>, cValues: seq<string>): (seq<string>, seq<string>)
  {
    if trigger == AllColumnsCheckbox then (if clickedValue then (bjValues, cValues) else ([], []))
    else (basejumper, custom)
  }

  /** A column hidden: one of all the columns that is not viewed. */
  predicate Hidden(colId: string, all: seq<string>, view: seq<string>) {
    colId in all && colId !in view
  }

  function Rehidden(states: seq<ColumnState>, all: seq<string>, view: seq<string>): (r: seq<ColumnState>)
    ensures |r| == |states|
  {
    seq(|states|, i requires 0 <= i < |states| => states[i].(hide := Hidden(states[i].colId, all, view)))
  }

  /** After the handler, each entry keeps its column and other fields, and is
      hidden exactly when its column is among all the columns but not among
      the viewed ones. */
  lemma RehiddenSpec(states: seq<ColumnState>, all: seq<string>, view: seq<string>)
    ensures forall i :: 0 <= i < |states| ==>
      && Rehidden(states, all, view)[i].colId == states[i].colId
      && Rehidden(states, all, view)[i].rest == states[i].rest
      && (Rehidden(states, all, view)[i].hide <==> states[i].colId in all && states[i].colId !in view)
  {
  }

  /** Select-all checked shows every column; unchecked hides every column
      listed in the checkbox groups. */
  lemma SelectAllColumns(clickedValue: bool, basejumper: seq<string>, custom: seq<string>,
                         bjValues: seq<string>, cValues: seq<string>, states: seq<ColumnState>)
    ensures var (bj, c) := ViewColumns(AllColumnsCheckbox, clickedValue, basejumper, custom, bjValues, cValues);
      var r := Rehidden(states, bjValues + cValues, bj + c);
      forall i :: 0 <= i < |states| ==>
        (r[i].hide <==> !clickedValue && states[i].colId in bjValues + cValues)
  {
  }

  /** `checkbox_handler`: recomputes `hide` on every column state entry in
      place, and returns the checkbox values it decided on. */
  method CheckboxHandler(trigger: ColumnTrigger, clickedValue: bool, allChecked: bool,
                         basejumper: seq<string>, custom: seq<string>,
                         bjValues: seq<string>, cValues: seq<string>, states: array<ColumnState>)
    returns (checked: bool, bj: seq<string>, c: seq<string>)
    modifies states
    ensures checked == allChecked
    ensures (bj, c) == ViewColumns(trigger, clickedValue, basejumper, custom, bjValues, cValues)
    ensures states[..] == Rehidden(old(states[..]), bjValues + cValues, bj + c)
  {
    var all := bjValues + cValues;
    bj, c := basejumper, custom;
    if trigger == AllColumnsCheckbox {
      if clickedValue {
        bj, c := bjValues, cValues;
      } else {
        bj, c := [], [];
      }
    }
    var view := bj + c;
    var i := 0;
    while i < states.Length
      invariant 0 <= i <= states.Length
      invariant states[..i] == Rehidden(old(states[..]), all, view)[..i]
      invariant states[i..] == old(states[..])[i..]
    {
      var state := states[i];
      if state.colId in all && state.colId !in view {
        states[i] := state.(hide := true);
      } else {
        states[i] := state.(hide := false);
      }
      i := i + 1;
    }
    return allChecked, bj, c;
  }

  // ---------------------------------------------------------------------------
  // open_close_modal

  /** `open_close_modal`: the creation modal flips exactly when its button or
      the Continue button has a click count that is true. */
  function OpenCloseModal(button: Clicks, continueClicks: Clicks, isOpen: bool): (r: bool)
    ensures r != isOpen <==> Clicked(button) || Clicked(continueClicks)
  {
    if Clicked(button) then !isOpen
    else if Clicked(continueClicks) then !isOpen
    else isOpen
  }

  /** The two modals as one workflow: with the creation modal open and the
      selection modal closed, Continue (which both toggles listen to) swaps
      them, and Back then restores the creation modal alone. */
  lemma ContinueThenBack(creationButton: Clicks, selectionButton: Clicks, continueClicks: Clicks, back: Clicks)
    requires !Clicked(creationButton) && !Clicked(selectionButton)
    requires Clicked(continueClicks) && Clicked(back)
    ensures var creationOpen := OpenCloseModal(creationButton, continueClicks, true);
      var selectionOpen := GroupSelectionModalOpen(selectionButton, continueClicks, false);
      && !creationOpen && selectionOpen
      && MetadataAndGroupCreationModalOpen(back) == (Changed(true), Changed(false))
  {
  }
}
