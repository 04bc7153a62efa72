/** The selection bookkeeping of release 1.2.9 of the Checkboxes extension for
    DataTables (1.2.9/js/dataTables.checkboxes.js). The per-column maps are
    the same as in 1.2.12; the rules differ for the "select all" tri-state,
    for `selected()`, for state loading and for the reset after an ajax
    reload, and the API bodies test that the extension exists on the table
    rather than on the column, so on a column without checkboxes they fail
    with a TypeError. */
module Checkboxes129 {
  import opened TableData

  /** The `checkboxes` options of a column once merged with the defaults
      (the callbacks and the "select all" markup are not part of the model). */
  datatype Options = Options(selectRow: bool, selectAll: bool, selectAllPages: bool)

  /** The options a user wrote for a column; `None` is an option left out. */
  datatype UserOptions = UserOptions(selectRow: Option<bool>, selectAll: Option<bool>, selectAllPages: Option<bool>)

  /** A column's `checkboxes` property as configured: falsy, truthy but not a
      plain object (such as `true`), or a plain object of options. */
  datatype ColumnSetting = Off | On | Custom(user: UserOptions)

  /** `Checkboxes.defaults`: this release has no `stateSave` option. */
  const Defaults := Options(selectRow := false, selectAll := true, selectAllPages := true)

  const NoUserOptions := UserOptions(None, None, None)

  /** The user options that give every option of `o` explicitly. */
  function Given(o: Options): UserOptions
  {
    UserOptions(Some(o.selectRow), Some(o.selectAll), Some(o.selectAllPages))
  }

  /** `$.extend({}, Checkboxes.defaults, user)`: an option the user gave wins,
      every other option takes its default. */
  function Extend(user: UserOptions): (o: Options)
    ensures user.selectRow.Some? ==> o.selectRow == user.selectRow.value
    ensures user.selectRow.None? ==> o.selectRow == Defaults.selectRow
    ensures user.selectAll.Some? ==> o.selectAll == user.selectAll.value
    ensures user.selectAll.None? ==> o.selectAll == Defaults.selectAll
    ensures user.selectAllPages.Some? ==> o.selectAllPages == user.selectAllPages.value
    ensures user.selectAllPages.None? ==> o.selectAllPages == Defaults.selectAllPages
  {
    Options(Pick(user.selectRow, Defaults.selectRow), Pick(user.selectAll, Defaults.selectAll),
            Pick(user.selectAllPages, Defaults.selectAllPages))
  }

  /** Extending with nothing gives the defaults; extending with a complete set
      of options gives those options; extending is idempotent. */
  lemma ExtendLaws(user: UserOptions, o: Options)
    ensures Extend(NoUserOptions) == Defaults
    ensures Extend(Given(o)) == o
    ensures Extend(Given(Extend(user))) == Extend(user)
  {
  }

  /** The options `_constructor` leaves on a column: none for a column without
      checkboxes, the defaults for a truthy non-object, the merged options for
      an object; row selection is switched off when the Select extension is
      absent. */
  function ColumnOptions(setting: ColumnSetting, hasSelect: bool): (o: Option<Options>)
    ensures o.None? <==> setting.Off?
    ensures setting.On? ==> o == Some(Defaults)
    ensures setting.Custom? ==>
      o == Some(Extend(setting.user).(selectRow := hasSelect && Extend(setting.user).selectRow))
  {
    match setting
    case Off => None
    case On => Some(Defaults)
    case Custom(user) =>
      var merged := Extend(user);
      if merged.selectRow && !hasSelect then Some(merged.(selectRow := false)) else Some(merged)
  }

  predicate SelectsRow(opts: seq<Option<Options>>, c: nat)
  {
    c < |opts| && opts[c].Some? && opts[c].value.selectRow
  }

  /** The lowest column with row selection enabled. */
  predicate IsFirstSelectRow(opts: seq<Option<Options>>, c: nat)
  {
    SelectsRow(opts, c) && forall j :: 0 <= j < c ==> !SelectsRow(opts, j)
  }

  /** The loop of `_constructor` over the table's columns: the options each
      column is left with, the checkbox columns in ascending order, and an
      empty key set for each of them. */
  method InitColumns(settings: seq<ColumnSetting>, hasSelect: bool)
      returns (opts: seq<Option<Options>>, columns: seq<nat>, empty: map<nat, set<Key>>)
    ensures |opts| == |settings|
    ensures forall i :: 0 <= i < |settings| ==> opts[i] == ColumnOptions(settings[i], hasSelect)
    ensures ListsColumns(opts, columns)
    ensures empty == EmptyColumns(opts)
  {
    opts, columns, empty := [], [], map[];
    var i := 0;
    while i < |settings|
      invariant 0 <= i <= |settings| && |opts| == i
      invariant forall j :: 0 <= j < i ==> opts[j] == ColumnOptions(settings[j], hasSelect)
      invariant ListsColumns(opts, columns)
      invariant forall k :: 0 <= k < |columns| ==> columns[k] < i
      invariant empty == EmptyColumns(opts)
    {
      var co := ColumnOptions(settings[i], hasSelect);
      var opts' := opts + [co];
      assert forall c: nat :: c < i ==> (IsCheckboxColumn(opts', c) <==> IsCheckboxColumn(opts, c));
      if co.Some? {
        empty := empty[i := {}];
        columns := columns + [i];
      }
      opts := opts';
      i := i + 1;
    }
  }

  /** How an API body ends: normally, or with a TypeError thrown before it
      changed anything (which also ends the iteration over the remaining
      items). */
  datatype Outcome = Done | TypeError

  /** Every cell lies in a checkbox column. */
  ghost predicate InCheckboxColumns(opts: seq<Option<Options>>, cells: seq<Cell>)
  {
    forall i :: 0 <= i < |cells| ==> IsCheckboxColumn(opts, cells[i].col)
  }

  /** Every item names a checkbox column. */
  ghost predicate ItemsInCheckboxColumns(opts: seq<Option<Options>>, items: seq<ColumnRows>)
  {
    forall i :: 0 <= i < |items| ==> IsCheckboxColumn(opts, items[i].col)
  }

  /** The iteration over `cells` reaches item `n`: every earlier cell is in a
      checkbox column, and item `n`, if there is one, is not. */
  ghost predicate CellsRunTo(opts: seq<Option<Options>>, cells: seq<Cell>, n: nat)
  {
    n <= |cells| && InCheckboxColumns(opts, cells[..n]) && (n < |cells| ==> !IsCheckboxColumn(opts, cells[n].col))
  }

  /** The iteration over `items` reaches item `n`, in the same sense. */
  ghost predicate ItemsRunTo(opts: seq<Option<Options>>, items: seq<ColumnRows>, n: nat)
  {
    n <= |items| && ItemsInCheckboxColumns(opts, items[..n]) &&
    (n < |items| ==> !IsCheckboxColumn(opts, items[n].col))
  }

  lemma InCheckboxColumnsStep(opts: seq<Option<Options>>, cells: seq<Cell>, i: nat)
    requires i < |cells| && InCheckboxColumns(opts, cells[..i]) && IsCheckboxColumn(opts, cells[i].col)
    ensures InCheckboxColumns(opts, cells[..i + 1])
  {
    assert cells[..i + 1] == cells[..i] + [cells[i]];
  }

  lemma ItemsInCheckboxColumnsStep(opts: seq<Option<Options>>, items: seq<ColumnRows>, i: nat)
    requires i < |items| && ItemsInCheckboxColumns(opts, items[..i]) && IsCheckboxColumn(opts, items[i].col)
    ensures ItemsInCheckboxColumns(opts, items[..i + 1])
  {
    assert items[..i + 1] == items[..i] + [items[i]];
  }

  /* ---------------------------------------------------------------------
     State saving: `state.checkboxes` is the whole `data` map.
     --------------------------------------------------------------------- */

  type SavedState = map<nat, set<Key>>

  /** What the loading loops leave: a column takes the stored selection
      whenever the stored state has an entry for it. */
  function Loaded(data: map<nat, set<Key>>, loaded: Option<SavedState>): map<nat, set<Key>>
  {
    map c | c in data :: if loaded.Some? && c in loaded.value then loaded.value[c] else data[c]
  }

  /** Saving and then loading into any map over the same columns restores
      every column; loading nothing changes nothing. */
  lemma SaveThenLoad(saved: map<nat, set<Key>>, now: map<nat, set<Key>>)
    requires saved.Keys == now.Keys
    ensures Loaded(now, Some(saved)) == saved
    ensures Loaded(now, None) == now
  {
  }

  /** The ajax reload reads the loaded state object again after clearing the
      selection. When that object's entries are still the very objects the
      selection holds (`live` agrees with `data` on them), every column with an
      entry gets its current selection back and only the other columns end
      empty. */
  lemma ReloadFromLiveState(opts: seq<Option<Options>>, data: map<nat, set<Key>>, live: SavedState)
    requires forall c :: c in data <==> IsCheckboxColumn(opts, c)
    requires forall c :: c in live && c in data ==> live[c] == data[c]
    ensures Loaded(EmptyColumns(opts), Some(live)).Keys == data.Keys
    ensures forall c :: c in data ==>
      Loaded(EmptyColumns(opts), Some(live))[c] == if c in live then data[c] else {}
  {
  }

  /* ---------------------------------------------------------------------
     "Select all" tri-state
     --------------------------------------------------------------------- */

  /** `countChecked`: the rows whose key is selected, disabled or not. */
  function CountSelected(keys: seq<Key>, sel: set<Key>): (n: nat)
    ensures n <= |keys|
  {
    if keys == [] then 0
    else CountSelected(keys[..|keys| - 1], sel) + (if keys[|keys| - 1] in sel then 1 else 0)
  }

  /** The decision of `updateSelectAll`: none checked, all checked, or some.
      The `checked` property is written as `isSelected` itself. */
  function TriState(countChecked: nat, n: nat): (s: SelectAll)
    ensures s.isIndeterminate ==> s.isSelected
  {
    if countChecked == 0 then SelectAll(false, false)
    else if countChecked == n then SelectAll(true, false)
    else SelectAll(true, true)
  }

  function SelectAllOf(keys: seq<Key>, sel: set<Key>): SelectAll
  {
    TriState(CountSelected(keys, sel), |keys|)
  }

  /** The `checked` property written to the control: the selected flag,
      indeterminate or not. */
  function CheckedProperty(s: SelectAll): bool
  {
    s.isSelected
  }

  /** Unlike release 1.2.12, an indeterminate control is always rendered
      checked as well. */
  lemma IndeterminateIsRenderedChecked(keys: seq<Key>, sel: set<Key>)
    ensures SelectAllOf(keys, sel).isIndeterminate ==> CheckedProperty(SelectAllOf(keys, sel))
  {
  }

  lemma {:induction false} SelectedZeroIff(keys: seq<Key>, sel: set<Key>)
    ensures CountSelected(keys, sel) == 0 <==> forall i :: 0 <= i < |keys| ==> keys[i] !in sel
  {
    if keys != [] {
      var front := keys[..|keys| - 1];
      SelectedZeroIff(front, sel);
      assert forall i :: 0 <= i < |front| ==> front[i] == keys[i];
    }
  }

  lemma {:induction false} AllSelectedIff(keys: seq<Key>, sel: set<Key>)
    ensures CountSelected(keys, sel) == |keys| <==> forall i :: 0 <= i < |keys| ==> keys[i] in sel
  {
    if keys != [] {
      var front := keys[..|keys| - 1];
      AllSelectedIff(front, sel);
      assert forall i :: 0 <= i < |front| ==> front[i] == keys[i];
    }
  }

  /** What the tri-state means in terms of the rows: unselected exactly when
      no row is selected, selected and determinate exactly when there are rows
      and every one is selected. */
  lemma SelectAllMeaning(keys: seq<Key>, sel: set<Key>)
    ensures !SelectAllOf(keys, sel).isSelected <==> forall i :: 0 <= i < |keys| ==> keys[i] !in sel
    ensures SelectAllOf(keys, sel) == SelectAll(true, false) <==>
      |keys| > 0 && forall i :: 0 <= i < |keys| ==> keys[i] in sel
    ensures SelectAllOf(keys, sel).isIndeterminate <==>
      (exists i :: 0 <= i < |keys| && keys[i] in sel) && (exists i :: 0 <= i < |keys| && keys[i] !in sel)
  {
    SelectedZeroIff(keys, sel);
    AllSelectedIff(keys, sel);
  }

  /** Clicking "select all" over rows one of which is disabled and not
      selected leaves the control indeterminate, and since `checked` is
      written as `isSelected` it is rendered checked and indeterminate at
      once. */
  lemma DisabledRowKeepsSelectAllIndeterminate()
    ensures var keys := ["a", "b"];
      var dis := {"b"};
      var s := SelectAllOf(keys, Updated({}, SetOf(keys) - dis, true));
      CheckedProperty(s) && s.isIndeterminate
  {
    var keys := ["a", "b"];
    var sel := Updated({}, SetOf(keys) - {"b"}, true);
    assert "a" in keys;
    assert sel == {"a"};
    assert keys[..1] == ["a"];
    assert CountSelected(["a"], sel) == 1 by {
      assert ["a"][..0] == [];
    }
    assert CountSelected(keys, sel) == 1;
  }

  /* ---------------------------------------------------------------------
     The plugin instance
     --------------------------------------------------------------------- */

  /** The loop that loads `state.checkboxes`: every checkbox column takes its
      stored selection, if there is one. */
  method LoadColumns(opts: seq<Option<Options>>, columns: seq<nat>, data: map<nat, set<Key>>,
                     loaded: Option<SavedState>) returns (d: map<nat, set<Key>>)
    requires ListsColumns(opts, columns)
    requires forall c :: c in data <==> IsCheckboxColumn(opts, c)
    ensures d == Loaded(data, loaded)
  {
    d := data;
    ghost var done: set<nat> := {};
    var k := 0;
    while k < |columns|
      invariant 0 <= k <= |columns|
      invariant d.Keys == data.Keys
      invariant forall j :: 0 <= j < k ==> columns[j] in done
      invariant forall c :: c in d ==>
        d[c] == (if c in done && loaded.Some? && c in loaded.value then loaded.value[c] else data[c])
    {
      var c := columns[k];
      if loaded.Some? && c in loaded.value {
        d := d[c := loaded.value[c]];
      }
      done := done + {c};
      k := k + 1;
    }
    forall c | c in d
      ensures c in done
    {
      assert c in columns;
    }
  }

  /** An instance of the extension attached to one table. */
  class Checkboxes {
    /** `ctx.aoColumns[i].checkboxes` for every column of the table. */
    const opts: seq<Option<Options>>
    /** `this.s.columns`. */
    const columns: seq<nat>
    /** `ctx.oFeatures.bStateSave`. */
    const stateSaveEnabled: bool
    /** `this.s.data`: the selected keys of each checkbox column. */
    var data: map<nat, set<Key>>
    /** `this.s.dataDisabled`: the disabled keys of each checkbox column. */
    var dataDisabled: map<nat, set<Key>>

    ghost predicate Valid()
      reads this
    {
      && ListsColumns(opts, columns)
      && data.Keys == dataDisabled.Keys
      && (forall c :: c in data <==> IsCheckboxColumn(opts, c))
    }

    /** `new Checkboxes(settings)` and `_constructor`, for a table whose
        columns are configured by `settings`; `loaded` is `dt.state.loaded()`
        (with its `checkboxes` entry), which the host gives only when state
        saving is enabled, and `hasSelect` tells whether the Select extension
        is present. Every checkbox column starts empty and then takes the
        stored selection when there is one, whatever its options; the
        loading step is the same loop as in the `xhr.dt` handler. */
    constructor (settings: seq<ColumnSetting>, hasSelect: bool, stateSaveEnabled: bool, loaded: Option<SavedState>)
      ensures Valid()
      ensures |opts| == |settings|
      ensures forall i :: 0 <= i < |settings| ==> opts[i] == ColumnOptions(settings[i], hasSelect)
      ensures this.stateSaveEnabled == stateSaveEnabled
      ensures dataDisabled == EmptyColumns(opts)
      ensures data == Loaded(EmptyColumns(opts), loaded)
    {
      var o, cols, empty := InitColumns(settings, hasSelect);
      this.opts := o;
      this.columns := cols;
      this.stateSaveEnabled := stateSaveEnabled;
      data := empty;
      dataDisabled := empty;
      new;
      LoadStoredState(loaded);
    }

    /** `isCellSelectable`: a cell can be checked exactly when its key is not
        among the column's disabled keys. */
    function IsCellSelectable(col: nat, cellData: Key): (selectable: bool)
      reads this
      requires col in dataDisabled
    {
      cellData !in dataDisabled[col]
    }

    /** `updateData`: every key of `cellsData` enters (`isSelected`) or leaves
        the column's selection; `save` tells whether `dt.state.save()` is
        called, which here depends on state saving alone. */
    method UpdateData(cellsData: seq<Key>, col: nat, isSelected: bool) returns (save: bool)
      requires Valid() && col < |opts|
      modifies this
      ensures Valid() && dataDisabled == old(dataDisabled)
      ensures data == if IsCheckboxColumn(opts, col)
        then old(data)[col := Updated(old(data)[col], SetOf(cellsData), isSelected)]
        else old(data)
      ensures save <==> IsCheckboxColumn(opts, col) && stateSaveEnabled
    {
      save := false;
      if opts[col].Some? {
        var sel := data[col];
        var i := 0;
        while i < |cellsData|
          invariant 0 <= i <= |cellsData|
          invariant sel == Updated(data[col], SetOf(cellsData[..i]), isSelected)
        {
          if isSelected {
            sel := sel + {cellsData[i]};
          } else {
            sel := sel - {cellsData[i]};
          }
          assert SetOf(cellsData[..i + 1]) == SetOf(cellsData[..i]) + {cellsData[i]} by {
            assert cellsData[..i + 1] == cellsData[..i] + [cellsData[i]];
          }
          i := i + 1;
        }
        assert cellsData[..|cellsData|] == cellsData;
        data := data[col := sel];
        save := stateSaveEnabled;
      }
    }

    /** The body of `cells().checkboxes.select(state)` for one cell. On a
        column without checkboxes `dataDisabled[col]` is undefined and the
        selectability test throws; otherwise the key enters or leaves the
        selection only when the cell is selectable. */
    method SelectCell(table: Table, cell: Cell, state: bool) returns (outcome: Outcome)
      requires Valid() && |table| == |opts| && HasCell(table, cell)
      modifies this
      ensures Valid() && dataDisabled == old(dataDisabled) && data.Keys == old(data).Keys
      ensures outcome == TypeError <==> !IsCheckboxColumn(opts, cell.col)
      ensures data ==
        if IsCheckboxColumn(opts, cell.col) && IsCellSelectable(cell.col, table[cell.col][cell.row])
        then old(data)[cell.col := Updated(old(data)[cell.col], {table[cell.col][cell.row]}, state)]
        else old(data)
    {
      if cell.col !in dataDisabled {
        return TypeError;
      }
      outcome := Done;
      var cellData := table[cell.col][cell.row];
      if IsCellSelectable(cell.col, cellData) {
        var _ := UpdateData([cellData], cell.col, state);
        assert SetOf([cellData]) == {cellData};
      }
    }

    /** `cells().checkboxes.select(state)`: the cells are visited in order
        until the first one outside a checkbox column throws; every
        selectable key of the cells visited before it enters or leaves its
        column's selection. */
    method SelectCells(table: Table, cells: seq<Cell>, state: bool) returns (outcome: Outcome)
      requires Valid() && |table| == |opts| && HasCells(table, cells)
      modifies this
      ensures Valid() && dataDisabled == old(dataDisabled) && data.Keys == old(data).Keys
      ensures outcome == Done <==> InCheckboxColumns(opts, cells)
      ensures exists n: nat ::
        CellsRunTo(opts, cells, n) && CellsSelected(table, cells[..n], old(data), data, dataDisabled, state)
      ensures forall c, k :: c in data && k in dataDisabled[c] ==> (k in data[c] <==> k in old(data)[c])
    {
      outcome := Done;
      var i := 0;
      while i < |cells|
        invariant 0 <= i <= |cells|
        invariant Valid() && dataDisabled == old(dataDisabled) && data.Keys == old(data).Keys
        invariant InCheckboxColumns(opts, cells[..i])
        invariant CellsSelected(table, cells[..i], old(data), data, dataDisabled, state)
      {
        ghost var before := data;
        var o := SelectCell(table, cells[i], state);
        if o == TypeError {
          outcome := TypeError;
          break;
        }
        InCheckboxColumnsStep(opts, cells, i);
        CellsLoopStep(table, cells, i, old(data), before, data, dataDisabled, state);
        i := i + 1;
      }
      assert cells[..|cells|] == cells;
      assert CellsRunTo(opts, cells, i) && CellsSelected(table, cells[..i], old(data), data, dataDisabled, state);
      CellsSelectedKeepsDisabled(table, cells[..i], old(data), data, dataDisabled, state);
    }

    /** `cells().checkboxes.deselect(state)` is `select(!state)`. */
    method DeselectCells(table: Table, cells: seq<Cell>, state: bool) returns (outcome: Outcome)
      requires Valid() && |table| == |opts| && HasCells(table, cells)
      modifies this
      ensures Valid() && dataDisabled == old(dataDisabled) && data.Keys == old(data).Keys
      ensures outcome == Done <==> InCheckboxColumns(opts, cells)
      ensures exists n: nat ::
        CellsRunTo(opts, cells, n) && CellsSelected(table, cells[..n], old(data), data, dataDisabled, !state)
    {
      outcome := SelectCells(table, cells, !state);
    }

    /** The body of `columns().checkboxes.select(state)` for one column. On a
        column without checkboxes it throws: at the selectability test of its
        first row, or, without rows, when it reads `selectRow` from the
        column's missing options. Otherwise the rows are filtered down to
        selectable keys before `updateData`. */
    method SelectColumn(table: Table, item: ColumnRows, state: bool) returns (outcome: Outcome)
      requires Valid() && |table| == |opts| && HasRows(table, item.col, item.rows)
      modifies this
      ensures Valid() && dataDisabled == old(dataDisabled) && data.Keys == old(data).Keys
      ensures outcome == TypeError <==> !IsCheckboxColumn(opts, item.col)
      ensures data == if IsCheckboxColumn(opts, item.col)
        then old(data)[item.col :=
          Updated(old(data)[item.col], SetOf(CellsData(table, item.col, item.rows)) - dataDisabled[item.col], state)]
        else old(data)
    {
      var col := item.col;
      if col !in dataDisabled {
        return TypeError;
      }
      outcome := Done;
      var cellsData := CellsData(table, col, item.rows);
      var selectable: seq<Key> := [];
      var i := 0;
      while i < |cellsData|
        invariant 0 <= i <= |cellsData|
        invariant forall k :: k in selectable <==> k in cellsData[..i] && k !in dataDisabled[col]
      {
        assert cellsData[..i + 1] == cellsData[..i] + [cellsData[i]];
        if IsCellSelectable(col, cellsData[i]) {
          selectable := selectable + [cellsData[i]];
        }
        i := i + 1;
      }
      assert cellsData[..|cellsData|] == cellsData;
      var _ := UpdateData(selectable, col, state);
      assert SetOf(selectable) == SetOf(cellsData) - dataDisabled[col];
    }

    /** `columns().checkboxes.select(state)`: the columns are visited in
        order until the first one without checkboxes throws. */
    method SelectColumns(table: Table, items: seq<ColumnRows>, state: bool) returns (outcome: Outcome)
      requires Valid() && |table| == |opts| && HasColumnRows(table, items)
      modifies this
      ensures Valid() && dataDisabled == old(dataDisabled) && data.Keys == old(data).Keys
      ensures outcome == Done <==> ItemsInCheckboxColumns(opts, items)
      ensures exists n: nat ::
        ItemsRunTo(opts, items, n) && ColumnsSelected(table, items[..n], old(data), data, dataDisabled, state)
      ensures forall c, k :: c in data && k in dataDisabled[c] ==> (k in data[c] <==> k in old(data)[c])
    {
      outcome := Done;
      var i := 0;
      while i < |items|
        invariant 0 <= i <= |items|
        invariant Valid() && dataDisabled == old(dataDisabled) && data.Keys == old(data).Keys
        invariant ItemsInCheckboxColumns(opts, items[..i])
        invariant ColumnsSelected(table, items[..i], old(data), data, dataDisabled, state)
      {
        ghost var before := data;
        var o := SelectColumn(table, items[i], state);
        if o == TypeError {
          outcome := TypeError;
          break;
        }
        ItemsInCheckboxColumnsStep(opts, items, i);
        ColumnRowsLoopStep(table, items, i, old(data), before, data, dataDisabled, state);
        i := i + 1;
      }
      assert items[..|items|] == items;
      assert ItemsRunTo(opts, items, i) && ColumnsSelected(table, items[..i], old(data), data, dataDisabled, state);
      ColumnsSelectedKeepsDisabled(table, items[..i], old(data), data, dataDisabled, state);
    }

    /** `columns().checkboxes.deselect(state)` is `select(!state)`. */
    method DeselectColumns(table: Table, items: seq<ColumnRows>, state: bool) returns (outcome: Outcome)
      requires Valid() && |table| == |opts| && HasColumnRows(table, items)
      modifies this
      ensures Valid() && dataDisabled == old(dataDisabled) && data.Keys == old(data).Keys
      ensures outcome == Done <==> ItemsInCheckboxColumns(opts, items)
      ensures exists n: nat ::
        ItemsRunTo(opts, items, n) && ColumnsSelected(table, items[..n], old(data), data, dataDisabled, !state)
    {
      outcome := SelectColumns(table, items, !state);
    }

    /** The body of `cells().checkboxes.enable(state)` for one cell. On a
        column without checkboxes the update of `dataDisabled[col]` throws;
        otherwise the key leaves (`state`) or enters the column's disabled
        keys and the selection is untouched. */
    method EnableCell(table: Table, cell: Cell, state: bool) returns (outcome: Outcome)
      requires Valid() && |table| == |opts| && HasCell(table, cell)
      modifies this
      ensures Valid() && data == old(data) && dataDisabled.Keys == old(dataDisabled).Keys
      ensures outcome == TypeError <==> !IsCheckboxColumn(opts, cell.col)
      ensures dataDisabled == if IsCheckboxColumn(opts, cell.col)
        then old(dataDisabled)[cell.col := Updated(old(dataDisabled)[cell.col], {table[cell.col][cell.row]}, !state)]
        else old(dataDisabled)
    {
      if cell.col !in dataDisabled {
        return TypeError;
      }
      outcome := Done;
      var cellData := table[cell.col][cell.row];
      if state {
        dataDisabled := dataDisabled[cell.col := dataDisabled[cell.col] - {cellData}];
      } else {
        dataDisabled := dataDisabled[cell.col := dataDisabled[cell.col] + {cellData}];
      }
    }

    /** `cells().checkboxes.enable(state)`: the cells are visited in order
        until the first one outside a checkbox column throws. */
    method EnableCells(table: Table, cells: seq<Cell>, state: bool) returns (outcome: Outcome)
      requires Valid() && |table| == |opts| && HasCells(table, cells)
      modifies this
      ensures Valid() && data == old(data) && dataDisabled.Keys == old(dataDisabled).Keys
      ensures outcome == Done <==> InCheckboxColumns(opts, cells)
      ensures exists n: nat ::
        CellsRunTo(opts, cells, n) && CellsToggled(table, cells[..n], old(dataDisabled), dataDisabled, !state)
    {
      outcome := Done;
      var i := 0;
      while i < |cells|
        invariant 0 <= i <= |cells|
        invariant Valid() && data == old(data) && dataDisabled.Keys == old(dataDisabled).Keys
        invariant InCheckboxColumns(opts, cells[..i])
        invariant CellsToggled(table, cells[..i], old(dataDisabled), dataDisabled, !state)
      {
        ghost var before := dataDisabled;
        var o := EnableCell(table, cells[i], state);
        if o == TypeError {
          outcome := TypeError;
          break;
        }
        InCheckboxColumnsStep(opts, cells, i);
        CellsLoopStepAll(table, cells, i, old(dataDisabled), before, dataDisabled, !state);
        i := i + 1;
      }
      assert cells[..|cells|] == cells;
      assert CellsRunTo(opts, cells, i) && CellsToggled(table, cells[..i], old(dataDisabled), dataDisabled, !state);
    }

    /** `cells().checkboxes.disable(state)` is `enable(!state)`. */
    method DisableCells(table: Table, cells: seq<Cell>, state: bool) returns (outcome: Outcome)
      requires Valid() && |table| == |opts| && HasCells(table, cells)
      modifies this
      ensures Valid() && data == old(data) && dataDisabled.Keys == old(dataDisabled).Keys
      ensures outcome == Done <==> InCheckboxColumns(opts, cells)
      ensures exists n: nat ::
        CellsRunTo(opts, cells, n) && CellsToggled(table, cells[..n], old(dataDisabled), dataDisabled, state)
    {
      outcome := EnableCells(table, cells, !state);
    }

    /** The body of `columns().checkboxes.deselectAll()` for one column (this
        one tests the column itself): the selection is replaced by an empty
        one, disabled keys included, and then every row of the column is
        deselected. */
    method DeselectAllColumn(table: Table, col: nat)
      requires Valid() && |table| == |opts| && col < |opts|
      modifies this
      ensures Valid() && dataDisabled == old(dataDisabled)
      ensures data == if IsCheckboxColumn(opts, col) then old(data)[col := {}] else old(data)
    {
      if opts[col].Some? {
        data := data[col := {}];
        var _ := SelectColumn(table, ColumnRows(col, AllRows(table, col)), false);
        assert data[col] == {};
        assert data == old(data)[col := {}];
      }
    }

    /** `columns().checkboxes.deselectAll()`: every iterated checkbox column
        ends with an empty selection; the other columns keep theirs. */
    method DeselectAll(table: Table, cols: seq<nat>)
      requires Valid() && |table| == |opts| && forall i :: 0 <= i < |cols| ==> cols[i] < |opts|
      modifies this
      ensures Valid() && dataDisabled == old(dataDisabled) && data.Keys == old(data).Keys
      ensures forall c :: c in data ==> data[c] == if c in cols then {} else old(data)[c]
    {
      var i := 0;
      while i < |cols|
        invariant 0 <= i <= |cols|
        invariant Valid() && dataDisabled == old(dataDisabled) && data.Keys == old(data).Keys
        invariant forall c :: c in data ==> data[c] == if c in cols[..i] then {} else old(data)[c]
      {
        DeselectAllColumn(table, cols[i]);
        assert cols[..i + 1] == cols[..i] + [cols[i]];
        i := i + 1;
      }
      assert cols[..|cols|] == cols;
    }

    /** The body of `columns().checkboxes.selected()` for one column: every
        selected key that is not disabled, once each, whatever rows the table
        shows. */
    method SelectedColumn(col: nat) returns (r: seq<Key>)
      requires Valid()
      ensures !IsCheckboxColumn(opts, col) ==> r == []
      ensures IsCheckboxColumn(opts, col) ==>
        NoDuplicates(r) && forall k :: k in r <==> k in data[col] && k !in dataDisabled[col]
    {
      r := [];
      if col < |opts| && opts[col].Some? {
        var rest := data[col];
        while rest != {}
          invariant rest <= data[col]
          invariant NoDuplicates(r)
          invariant forall k :: k in r ==> k !in rest
          invariant forall k :: k in r <==> k in data[col] && k !in rest && k !in dataDisabled[col]
          decreases |rest|
        {
          var k :| k in rest;
          if IsCellSelectable(col, k) {
            r := r + [k];
          }
          rest := rest - {k};
        }
      }
    }

    /** `columns().checkboxes.selected()`: one result per iterated column. */
    method Selected(cols: seq<nat>) returns (rs: seq<seq<Key>>)
      requires Valid()
      ensures |rs| == |cols|
      ensures forall i :: 0 <= i < |cols| && !IsCheckboxColumn(opts, cols[i]) ==> rs[i] == []
      ensures forall i, k :: 0 <= i < |cols| && IsCheckboxColumn(opts, cols[i]) ==>
        (k in rs[i] <==> k in data[cols[i]] && k !in dataDisabled[cols[i]])
      ensures forall i :: 0 <= i < |cols| && IsCheckboxColumn(opts, cols[i]) ==> NoDuplicates(rs[i])
    {
      rs := [];
      var i := 0;
      while i < |cols|
        invariant 0 <= i <= |cols| && |rs| == i
        invariant forall j :: 0 <= j < i && !IsCheckboxColumn(opts, cols[j]) ==> rs[j] == []
        invariant forall j, k :: 0 <= j < i && IsCheckboxColumn(opts, cols[j]) ==>
          (k in rs[j] <==> k in data[cols[j]] && k !in dataDisabled[cols[j]])
        invariant forall j :: 0 <= j < i && IsCheckboxColumn(opts, cols[j]) ==> NoDuplicates(rs[j])
      {
        var r := SelectedColumn(cols[i]);
        rs := rs + [r];
        i := i + 1;
      }
    }

    /** `updateSelectAll` without its DOM writes: no control for a column
        without checkboxes or without the "select all" option; otherwise the
        tri-state counted over the rows the control covers. */
    method UpdateSelectAll(table: Table, item: ColumnRows) returns (r: Option<SelectAll>)
      requires Valid() && HasRows(table, item.col, item.rows)
      ensures r.Some? <==> item.col < |opts| && opts[item.col].Some? && opts[item.col].value.selectAll
      ensures r.Some? ==> r.value == SelectAllOf(CellsData(table, item.col, item.rows), data[item.col])
      ensures r.Some? ==> (!r.value.isSelected <==>
        forall i :: 0 <= i < |item.rows| ==> table[item.col][item.rows[i]] !in data[item.col])
      ensures r.Some? ==> (r.value == SelectAll(true, false) <==>
        |item.rows| > 0 && forall i :: 0 <= i < |item.rows| ==> table[item.col][item.rows[i]] in data[item.col])
    {
      var col := item.col;
      r := None;
      if col < |opts| && opts[col].Some? && opts[col].value.selectAll {
        var cellsData := CellsData(table, col, item.rows);
        var countChecked := 0;
        var i := 0;
        while i < |cellsData|
          invariant 0 <= i <= |cellsData|
          invariant countChecked == CountSelected(cellsData[..i], data[col])
        {
          assert cellsData[..i + 1][..i] == cellsData[..i];
          if cellsData[i] in data[col] {
            countChecked := countChecked + 1;
          }
          i := i + 1;
        }
        assert cellsData[..|cellsData|] == cellsData;
        var isSelected, isIndeterminate;
        if countChecked == 0 {
          isSelected, isIndeterminate := false, false;
        } else if countChecked == |cellsData| {
          isSelected, isIndeterminate := true, false;
        } else {
          isSelected, isIndeterminate := true, true;
        }
        r := Some(SelectAll(isSelected, isIndeterminate));
        SelectAllMeaning(cellsData, data[col]);
        assert |cellsData| == |item.rows|;
        assert forall i :: 0 <= i < |item.rows| ==> cellsData[i] == table[col][item.rows[i]];
      }
    }

    /** `getSelectRowColIndex`: the lowest column with row selection enabled. */
    method GetSelectRowColIndex() returns (col: Option<nat>)
      ensures col.Some? ==> IsFirstSelectRow(opts, col.value)
      ensures col.None? ==> forall c :: 0 <= c < |opts| ==> !SelectsRow(opts, c)
    {
      col := None;
      var i := 0;
      while i < |opts|
        invariant 0 <= i <= |opts|
        invariant forall c :: 0 <= c < i ==> !SelectsRow(opts, c)
      {
        if opts[i].Some? && opts[i].value.selectRow {
          col := Some(i);
          break;
        }
        i := i + 1;
      }
    }

    /** The `user-select` handler: the Select extension may not select a row
        whose key in the row-selection column is disabled. The handler is
        installed only when some column selects rows. */
    method OnUserSelect(table: Table, row: nat) returns (prevent: bool)
      requires Valid() && |table| == |opts|
      requires exists c: nat :: SelectsRow(opts, c)
      requires forall c: nat :: SelectsRow(opts, c) ==> row < |table[c]|
      ensures exists c: nat :: IsFirstSelectRow(opts, c) && (prevent <==> table[c][row] in dataDisabled[c])
    {
      var col := GetSelectRowColIndex();
      prevent := !IsCellSelectable(col.value, table[col.value][row]);
    }

    /** `onSelect`: for rows the Select extension selected or deselected,
        their keys in the row-selection column enter or leave the selection,
        disabled or not; events for cells or columns change nothing. */
    method OnSelect(table: Table, isRowEvent: bool, rows: seq<nat>, isSelect: bool)
      requires Valid() && |table| == |opts|
      requires forall c: nat :: SelectsRow(opts, c) ==> HasRows(table, c, rows)
      modifies this
      ensures Valid() && dataDisabled == old(dataDisabled)
      ensures (!isRowEvent || forall c :: 0 <= c < |opts| ==> !SelectsRow(opts, c)) ==> data == old(data)
      ensures isRowEvent ==> forall c: nat :: IsFirstSelectRow(opts, c) ==>
        data == old(data)[c := Updated(old(data)[c], SetOf(CellsData(table, c, rows)), isSelect)]
    {
      if !isRowEvent {
        return;
      }
      var col := GetSelectRowColIndex();
      if col.Some? {
        var _ := UpdateData(CellsData(table, col.value, rows), col.value, isSelect);
      }
    }

    /** The `stateSaveParams` handler: the stored state is the whole
        selection map, disabled keys and columns included. */
    method StateSaveParams() returns (saved: SavedState)
      requires Valid()
      ensures saved.Keys == data.Keys
      ensures Loaded(EmptyColumns(opts), Some(saved)) == data
    {
      saved := data;
      assert EmptyColumns(opts).Keys == data.Keys;
      SaveThenLoad(saved, EmptyColumns(opts));
    }

    /** The loading loop of `_constructor` and of the `xhr.dt` handler: see
        `Loaded`. */
    method LoadStoredState(loaded: Option<SavedState>)
      requires Valid()
      modifies this
      ensures Valid() && dataDisabled == old(dataDisabled)
      ensures data == Loaded(old(data), loaded)
    {
      data := LoadColumns(opts, columns, data, loaded);
    }

    /** The `xhr.dt` handler: after an ajax reload the selection of every
        checkbox column is cleared, the disabled keys are kept, and, when
        state saving is on, the stored state is loaded again. */
    method OnXhr(loaded: Option<SavedState>)
      requires Valid()
      modifies this
      ensures Valid() && dataDisabled == old(dataDisabled)
      ensures data == if stateSaveEnabled then Loaded(EmptyColumns(opts), loaded) else EmptyColumns(opts)
    {
      data := ClearColumns(opts, columns, data);
      if stateSaveEnabled {
        LoadStoredState(loaded);
      }
    }
  }
}
