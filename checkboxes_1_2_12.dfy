/** The selection bookkeeping of release 1.2.12 of the Checkboxes extension for
    DataTables (js/dataTables.checkboxes.js): per checkbox column, the set of
    selected keys (`data`) and the set of disabled keys (`dataDisabled`), and
    the registered API functions that read and change them. */
module Checkboxes1212 {
  import opened TableData

  /** The `checkboxes` options of a column once merged with the defaults
      (the callbacks and the "select all" markup are not part of the model). */
  datatype Options = Options(stateSave: bool, selectRow: bool, selectAll: bool, selectAllPages: bool)

  /** The options a user wrote for a column; `None` is an option left out. */
  datatype UserOptions = UserOptions(
    stateSave: Option<bool>, selectRow: Option<bool>, selectAll: Option<bool>, selectAllPages: Option<bool>)

  /** A column's `checkboxes` property as configured: falsy, truthy but not a
      plain object (such as `true`), or a plain object of options. */
  datatype ColumnSetting = Off | On | Custom(user: UserOptions)

  /** `Checkboxes.defaults`. */
  const Defaults := Options(stateSave := true, selectRow := false, selectAll := true, selectAllPages := true)

  const NoUserOptions := UserOptions(None, None, None, None)

  /** The user options that give every option of `o` explicitly. */
  function Given(o: Options): UserOptions
  {
    UserOptions(Some(o.stateSave), Some(o.selectRow), Some(o.selectAll), Some(o.selectAllPages))
  }

  /** `$.extend({}, Checkboxes.defaults, user)`: an option the user gave wins,
      every other option takes its default. */
  function Extend(user: UserOptions): (o: Options)
    ensures user.stateSave.Some? ==> o.stateSave == user.stateSave.value
    ensures user.stateSave.None? ==> o.stateSave == Defaults.stateSave
    ensures user.selectRow.Some? ==> o.selectRow == user.selectRow.value
    ensures user.selectRow.None? ==> o.selectRow == Defaults.selectRow
    ensures user.selectAll.Some? ==> o.selectAll == user.selectAll.value
    ensures user.selectAll.None? ==> o.selectAll == Defaults.selectAll
    ensures user.selectAllPages.Some? ==> o.selectAllPages == user.selectAllPages.value
    ensures user.selectAllPages.None? ==> o.selectAllPages == Defaults.selectAllPages
  {
    Options(
      Pick(user.stateSave, Defaults.stateSave), Pick(user.selectRow, Defaults.selectRow),
      Pick(user.selectAll, Defaults.selectAll), Pick(user.selectAllPages, Defaults.selectAllPages))
  }

  /** Extending with nothing gives the defaults; extending with a complete set
      of options gives those options; extending is idempotent. */
  lemma ExtendLaws(user: UserOptions, o: Options)
    ensures Extend(NoUserOptions) == Defaults
    ensures Extend(Given(o)) == o
    ensures Extend(Given(Extend(user))) == Extend(user)
  {
  }

  /** The options `_constructor` leaves on a column: none for a column without
      checkboxes, the defaults for a truthy non-object, the merged options for
      an object; row selection is switched off when the Select extension is
      absent. */
  function ColumnOptions(setting: ColumnSetting, hasSelect: bool): (o: Option<Options>)
    ensures o.None? <==> setting.Off?
    ensures setting.On? ==> o == Some(Defaults)
    ensures setting.Custom? ==>
      o == Some(Extend(setting.user).(selectRow := hasSelect && Extend(setting.user).selectRow))
  {
    match setting
    case Off => None
    case On => Some(Defaults)
    case Custom(user) =>
      var merged := Extend(user);
      if merged.selectRow && !hasSelect then Some(merged.(selectRow := false)) else Some(merged)
  }

  predicate SelectsRow(opts: seq<Option<Options>>, c: nat)
  {
    c < |opts| && opts[c].Some? && opts[c].value.selectRow
  }

  predicate SavesState(opts: seq<Option<Options>>, c: nat)
  {
    c < |opts| && opts[c].Some? && opts[c].value.stateSave
  }

  /** The lowest column with row selection enabled. */
  predicate IsFirstSelectRow(opts: seq<Option<Options>>, c: nat)
  {
    SelectsRow(opts, c) && forall j :: 0 <= j < c ==> !SelectsRow(opts, j)
  }

  /** The loop of `_constructor` over the table's columns: the options each
      column is left with, the checkbox columns in ascending order, and an
      empty key set for each of them. */
  method InitColumns(settings: seq<ColumnSetting>, hasSelect: bool)
      returns (opts: seq<Option<Options>>, columns: seq<nat>, empty: map<nat, set<Key>>)
    ensures |opts| == |settings|
    ensures forall i :: 0 <= i < |settings| ==> opts[i] == ColumnOptions(settings[i], hasSelect)
    ensures ListsColumns(opts, columns)
    ensures empty == EmptyColumns(opts)
  {
    opts, columns, empty := [], [], map[];
    var i := 0;
    while i < |settings|
      invariant 0 <= i <= |settings| && |opts| == i
      invariant forall j :: 0 <= j < i ==> opts[j] == ColumnOptions(settings[j], hasSelect)
      invariant ListsColumns(opts, columns)
      invariant forall k :: 0 <= k < |columns| ==> columns[k] < i
      invariant empty == EmptyColumns(opts)
    {
      var co := ColumnOptions(settings[i], hasSelect);
      var opts' := opts + [co];
      assert forall c: nat :: c < i ==> (IsCheckboxColumn(opts', c) <==> IsCheckboxColumn(opts, c));
      if co.Some? {
        empty := empty[i := {}];
        columns := columns + [i];
      }
      opts := opts';
      i := i + 1;
    }
  }

  /* ---------------------------------------------------------------------
     State saving: `state.checkboxes`, column index to selected keys.
     --------------------------------------------------------------------- */

  type SavedState = map<nat, set<Key>>

  /** What `onDataTablesStateSave` stores: the selection of every column whose
      `stateSave` option is set. */
  function Saved(data: map<nat, set<Key>>, opts: seq<Option<Options>>): SavedState
  {
    map c | c in data && SavesState(opts, c) :: data[c]
  }

  /** What `loadState` leaves: a column takes the stored selection when state
      saving is on, the stored state has an entry for it and its own
      `stateSave` option is set; every other column keeps its selection. */
  function Restored(data: map<nat, set<Key>>, opts: seq<Option<Options>>, stateSaveEnabled: bool,
                    loaded: Option<SavedState>): map<nat, set<Key>>
  {
    map c | c in data ::
      if stateSaveEnabled && loaded.Some? && c in loaded.value && SavesState(opts, c) then loaded.value[c]
      else data[c]
  }

  /** Saving and then loading restores the columns that save their state and
      leaves every other column as it is now. */
  lemma SaveThenLoad(opts: seq<Option<Options>>, saved: map<nat, set<Key>>, now: map<nat, set<Key>>)
    requires saved.Keys == now.Keys
    ensures Restored(now, opts, true, Some(Saved(saved, opts))) ==
      map c | c in now :: if SavesState(opts, c) then saved[c] else now[c]
    ensures Restored(saved, opts, true, Some(Saved(saved, opts))) == saved
  {
  }

  /** The ajax reload reads the loaded state object again after clearing the
      selection. When that object's entries are still the very objects the
      selection holds (`live` agrees with `data` on them), every column that
      saves its state and has an entry gets its current selection back; only
      the other columns end empty. */
  lemma ReloadFromLiveState(opts: seq<Option<Options>>, data: map<nat, set<Key>>, live: SavedState)
    requires forall c :: c in data <==> IsCheckboxColumn(opts, c)
    requires forall c :: c in live && c in data ==> live[c] == data[c]
    ensures Restored(EmptyColumns(opts), opts, true, Some(live)).Keys == data.Keys
    ensures forall c :: c in data ==>
      Restored(EmptyColumns(opts), opts, true, Some(live))[c] ==
        if c in live && SavesState(opts, c) then data[c] else {}
  {
  }

  /** Without state saving, loading changes nothing. */
  lemma LoadWithoutStateSaving(data: map<nat, set<Key>>, opts: seq<Option<Options>>, loaded: Option<SavedState>)
    ensures Restored(data, opts, false, loaded) == data
  {
  }

  /* ---------------------------------------------------------------------
     "Select all" tri-state
     --------------------------------------------------------------------- */

  /** A row counts as checked when its key is selected and not disabled. */
  predicate IsChecked(k: Key, sel: set<Key>, dis: set<Key>)
  {
    k in sel && k !in dis
  }

  /** `countChecked`: the rows whose checkbox is selectable and selected. */
  function CountChecked(keys: seq<Key>, sel: set<Key>, dis: set<Key>): (n: nat)
    ensures n <= |keys|
  {
    if keys == [] then 0
    else CountChecked(keys[..|keys| - 1], sel, dis) + (if IsChecked(keys[|keys| - 1], sel, dis) then 1 else 0)
  }

  /** `countDisabled`: the rows whose checkbox is not selectable. */
  function CountDisabled(keys: seq<Key>, dis: set<Key>): (n: nat)
    ensures n <= |keys|
  {
    if keys == [] then 0
    else CountDisabled(keys[..|keys| - 1], dis) + (if keys[|keys| - 1] in dis then 1 else 0)
  }

  /** The decision of `updateSelectAll` from its two counters and the number
      of rows: none checked, all accounted for, or some. */
  function TriState(countChecked: nat, countDisabled: nat, n: nat): (s: SelectAll)
    ensures s.isIndeterminate ==> s.isSelected
  {
    if countChecked == 0 then SelectAll(false, false)
    else if countChecked + countDisabled == n then SelectAll(true, false)
    else SelectAll(true, true)
  }

  function SelectAllOf(keys: seq<Key>, sel: set<Key>, dis: set<Key>): SelectAll
  {
    TriState(CountChecked(keys, sel, dis), CountDisabled(keys, dis), |keys|)
  }

  /** The `checked` property written to the control: false whenever the state
      is indeterminate. */
  function CheckedProperty(s: SelectAll): (checked: bool)
    ensures checked <==> s.isSelected && !s.isIndeterminate
  {
    if s.isIndeterminate then false else s.isSelected
  }

  /** The rendered pair (checked, indeterminate) is never (true, true), and the
      computed pair is never (false, true). */
  lemma RenderedNeverCheckedAndIndeterminate(keys: seq<Key>, sel: set<Key>, dis: set<Key>)
    ensures var s := SelectAllOf(keys, sel, dis);
      !(CheckedProperty(s) && s.isIndeterminate) && !(!s.isSelected && s.isIndeterminate)
  {
  }

  lemma {:induction false} CheckedZeroIff(keys: seq<Key>, sel: set<Key>, dis: set<Key>)
    ensures CountChecked(keys, sel, dis) == 0 <==> forall i :: 0 <= i < |keys| ==> !IsChecked(keys[i], sel, dis)
  {
    if keys != [] {
      var front := keys[..|keys| - 1];
      CheckedZeroIff(front, sel, dis);
      assert forall i :: 0 <= i < |front| ==> front[i] == keys[i];
    }
  }

  lemma {:induction false} AllAccountedIff(keys: seq<Key>, sel: set<Key>, dis: set<Key>)
    ensures CountChecked(keys, sel, dis) + CountDisabled(keys, dis) <= |keys|
    ensures CountChecked(keys, sel, dis) + CountDisabled(keys, dis) == |keys| <==>
      forall i :: 0 <= i < |keys| ==> keys[i] in sel || keys[i] in dis
  {
    if keys != [] {
      var front := keys[..|keys| - 1];
      AllAccountedIff(front, sel, dis);
      assert forall i :: 0 <= i < |front| ==> front[i] == keys[i];
    }
  }

  /** What the tri-state means in terms of the rows: unselected exactly when
      no row is checked; selected and determinate exactly when some row is
      checked and every row is selected or disabled. */
  lemma SelectAllMeaning(keys: seq<Key>, sel: set<Key>, dis: set<Key>)
    ensures !SelectAllOf(keys, sel, dis).isSelected <==>
      forall i :: 0 <= i < |keys| ==> !IsChecked(keys[i], sel, dis)
    ensures SelectAllOf(keys, sel, dis) == SelectAll(true, false) <==>
      (exists i :: 0 <= i < |keys| && IsChecked(keys[i], sel, dis)) &&
      (forall i :: 0 <= i < |keys| ==> keys[i] in sel || keys[i] in dis)
    ensures SelectAllOf(keys, sel, dis).isIndeterminate <==>
      (exists i :: 0 <= i < |keys| && IsChecked(keys[i], sel, dis)) &&
      (exists i :: 0 <= i < |keys| && keys[i] !in sel && keys[i] !in dis)
  {
    CheckedZeroIff(keys, sel, dis);
    AllAccountedIff(keys, sel, dis);
  }

  /** After `column().checkboxes.select()` on some rows, the "select all"
      control over the same rows is never indeterminate; after
      `column().checkboxes.deselect()` it is cleared. */
  lemma SelectAllAfterColumnSelect(keys: seq<Key>, sel: set<Key>, dis: set<Key>)
    ensures !SelectAllOf(keys, Updated(sel, SetOf(keys) - dis, true), dis).isIndeterminate
    ensures SelectAllOf(keys, Updated(sel, SetOf(keys) - dis, false), dis) == SelectAll(false, false)
  {
    SelectAllMeaning(keys, Updated(sel, SetOf(keys) - dis, true), dis);
    SelectAllMeaning(keys, Updated(sel, SetOf(keys) - dis, false), dis);
    assert forall i :: 0 <= i < |keys| ==> keys[i] in SetOf(keys);
  }

  /* ---------------------------------------------------------------------
     `column().checkboxes.selected()` in client-side mode
     --------------------------------------------------------------------- */

  /** The keys of the rows, in row order, that are selected and selectable. */
  function SelectedKeys(keys: seq<Key>, sel: set<Key>, dis: set<Key>): (r: seq<Key>)
    ensures |r| <= |keys|
  {
    if keys == [] then []
    else
      var last := keys[|keys| - 1];
      SelectedKeys(keys[..|keys| - 1], sel, dis) + (if IsChecked(last, sel, dis) then [last] else [])
  }

  lemma {:induction false} SelectedKeysMembers(keys: seq<Key>, sel: set<Key>, dis: set<Key>)
    ensures forall k :: k in SelectedKeys(keys, sel, dis) <==> k in keys && IsChecked(k, sel, dis)
  {
    if keys != [] {
      var front := keys[..|keys| - 1];
      SelectedKeysMembers(front, sel, dis);
      assert keys == front + [keys[|keys| - 1]];
    }
  }

  /** After `column().checkboxes.select()` on some rows, `selected()` over the
      same rows reports exactly their keys that are not disabled. */
  lemma SelectedAfterColumnSelect(keys: seq<Key>, sel: set<Key>, dis: set<Key>)
    ensures forall k :: k in SelectedKeys(keys, Updated(sel, SetOf(keys) - dis, true), dis) <==>
      k in keys && k !in dis
  {
    SelectedKeysMembers(keys, Updated(sel, SetOf(keys) - dis, true), dis);
  }

  /* ---------------------------------------------------------------------
     The plugin instance
     --------------------------------------------------------------------- */

  /** The loop of `loadState` when state saving is on: every checkbox column
      that saves its state takes its stored selection, if there is one. */
  method LoadColumns(opts: seq<Option<Options>>, columns: seq<nat>, data: map<nat, set<Key>>,
                     loaded: Option<SavedState>) returns (d: map<nat, set<Key>>)
    requires ListsColumns(opts, columns)
    requires forall c :: c in data <==> IsCheckboxColumn(opts, c)
    ensures d == Restored(data, opts, true, loaded)
  {
    d := data;
    ghost var done: set<nat> := {};
    var k := 0;
    while k < |columns|
      invariant 0 <= k <= |columns|
      invariant d.Keys == data.Keys
      invariant forall j :: 0 <= j < k ==> columns[j] in done
      invariant forall c :: c in d ==>
        d[c] == (if c in done && loaded.Some? && c in loaded.value && SavesState(opts, c)
          then loaded.value[c] else data[c])
    {
      var c := columns[k];
      if loaded.Some? && c in loaded.value && opts[c].value.stateSave {
        d := d[c := loaded.value[c]];
      }
      done := done + {c};
      k := k + 1;
    }
    forall c | c in d
      ensures c in done
    {
      assert c in columns;
    }
  }

  /** An instance of the extension attached to one table. */
  class Checkboxes {
    /** `ctx.aoColumns[i].checkboxes` for every column of the table. */
    const opts: seq<Option<Options>>
    /** `this.s.columns`. */
    const columns: seq<nat>
    /** `ctx.oFeatures.bStateSave`. */
    const stateSaveEnabled: bool
    /** `ctx.oFeatures.bServerSide`. */
    const serverSide: bool
    /** `this.s.data`: the selected keys of each checkbox column. */
    var data: map<nat, set<Key>>
    /** `this.s.dataDisabled`: the disabled keys of each checkbox column. */
    var dataDisabled: map<nat, set<Key>>

    ghost predicate Valid()
      reads this
    {
      && ListsColumns(opts, columns)
      && data.Keys == dataDisabled.Keys
      && (forall c :: c in data <==> IsCheckboxColumn(opts, c))
    }

    /** `new Checkboxes(settings)` and `_constructor`, for a table whose
        columns are configured by `settings`; `loaded` is `dt.state.loaded()`
        (with its `checkboxes` entry) and `hasSelect` tells whether the Select
        extension is present. */
    constructor (settings: seq<ColumnSetting>, hasSelect: bool, stateSaveEnabled: bool, serverSide: bool,
                 loaded: Option<SavedState>)
      ensures Valid()
      ensures |opts| == |settings|
      ensures forall i :: 0 <= i < |settings| ==> opts[i] == ColumnOptions(settings[i], hasSelect)
      ensures this.stateSaveEnabled == stateSaveEnabled && this.serverSide == serverSide
      ensures dataDisabled == EmptyColumns(opts)
      ensures data == Restored(EmptyColumns(opts), opts, stateSaveEnabled, loaded)
    {
      var o, cols, empty := InitColumns(settings, hasSelect);
      this.opts := o;
      this.columns := cols;
      this.stateSaveEnabled := stateSaveEnabled;
      this.serverSide := serverSide;
      data := empty;
      dataDisabled := empty;
      new;
      if |columns| > 0 {
        LoadState(loaded);
      }
    }

    /** `isCellSelectable`: a cell can be checked exactly when its key is not
        among the column's disabled keys. */
    function IsCellSelectable(col: nat, cellData: Key): (selectable: bool)
      reads this
      requires col in dataDisabled
    {
      cellData !in dataDisabled[col]
    }

    /** `updateData`: every key of `cellsData` enters (`isSelected`) or leaves
        the column's selection; `save` tells whether `dt.state.save()` is
        called. */
    method UpdateData(cellsData: seq<Key>, col: nat, isSelected: bool) returns (save: bool)
      requires Valid() && col < |opts|
      modifies this
      ensures Valid() && dataDisabled == old(dataDisabled)
      ensures data == if IsCheckboxColumn(opts, col)
        then old(data)[col := Updated(old(data)[col], SetOf(cellsData), isSelected)]
        else old(data)
      ensures save <==> IsCheckboxColumn(opts, col) && stateSaveEnabled && opts[col].value.stateSave
    {
      save := false;
      if opts[col].Some? {
        var sel := data[col];
        var i := 0;
        while i < |cellsData|
          invariant 0 <= i <= |cellsData|
          invariant sel == Updated(data[col], SetOf(cellsData[..i]), isSelected)
        {
          if isSelected {
            sel := sel + {cellsData[i]};
          } else {
            sel := sel - {cellsData[i]};
          }
          assert SetOf(cellsData[..i + 1]) == SetOf(cellsData[..i]) + {cellsData[i]} by {
            assert cellsData[..i + 1] == cellsData[..i] + [cellsData[i]];
          }
          i := i + 1;
        }
        assert cellsData[..|cellsData|] == cellsData;
        data := data[col := sel];
        save := stateSaveEnabled && opts[col].value.stateSave;
      }
    }

    /** The body of `cells().checkboxes.select(state)` for one cell: the key
        enters or leaves the selection only when the cell is selectable. */
    method SelectCell(table: Table, cell: Cell, state: bool)
      requires Valid() && |table| == |opts| && HasCell(table, cell)
      modifies this
      ensures Valid() && dataDisabled == old(dataDisabled)
      ensures data ==
        if IsCheckboxColumn(opts, cell.col) && IsCellSelectable(cell.col, table[cell.col][cell.row])
        then old(data)[cell.col := Updated(old(data)[cell.col], {table[cell.col][cell.row]}, state)]
        else old(data)
    {
      if opts[cell.col].Some? {
        var cellData := table[cell.col][cell.row];
        if IsCellSelectable(cell.col, cellData) {
          var _ := UpdateData([cellData], cell.col, state);
          assert SetOf([cellData]) == {cellData};
        }
      }
    }

    /** `cells().checkboxes.select(state)`: every selectable key of the cells
        enters or leaves its column's selection; disabled keys keep their
        membership. */
    method SelectCells(table: Table, cells: seq<Cell>, state: bool)
      requires Valid() && |table| == |opts| && HasCells(table, cells)
      modifies this
      ensures Valid() && dataDisabled == old(dataDisabled) && data.Keys == old(data).Keys
      ensures forall c :: c in data ==>
        data[c] == Updated(old(data)[c], CellKeys(table, cells, c) - dataDisabled[c], state)
      ensures forall c, k :: c in data && k in dataDisabled[c] ==> (k in data[c] <==> k in old(data)[c])
    {
      var i := 0;
      while i < |cells|
        invariant 0 <= i <= |cells|
        invariant Valid() && dataDisabled == old(dataDisabled) && data.Keys == old(data).Keys
        invariant CellsSelected(table, cells[..i], old(data), data, dataDisabled, state)
      {
        ghost var before := data;
        SelectCell(table, cells[i], state);
        CellsLoopStep(table, cells, i, old(data), before, data, dataDisabled, state);
        i := i + 1;
      }
      assert cells[..|cells|] == cells;
    }

    /** `cells().checkboxes.deselect(state)` is `select(!state)`. */
    method DeselectCells(table: Table, cells: seq<Cell>, state: bool)
      requires Valid() && |table| == |opts| && HasCells(table, cells)
      modifies this
      ensures Valid() && dataDisabled == old(dataDisabled) && data.Keys == old(data).Keys
      ensures forall c :: c in data ==>
        data[c] == Updated(old(data)[c], CellKeys(table, cells, c) - dataDisabled[c], !state)
    {
      SelectCells(table, cells, !state);
    }

    /** The body of `columns().checkboxes.select(state)` for one column: the
        rows are filtered down to selectable keys before `updateData`. */
    method SelectColumn(table: Table, item: ColumnRows, state: bool)
      requires Valid() && |table| == |opts| && HasRows(table, item.col, item.rows)
      modifies this
      ensures Valid() && dataDisabled == old(dataDisabled)
      ensures data == if IsCheckboxColumn(opts, item.col)
        then old(data)[item.col :=
          Updated(old(data)[item.col], SetOf(CellsData(table, item.col, item.rows)) - dataDisabled[item.col], state)]
        else old(data)
    {
      var col := item.col;
      if opts[col].Some? {
        var cellsData := CellsData(table, col, item.rows);
        var selectable: seq<Key> := [];
        var i := 0;
        while i < |cellsData|
          invariant 0 <= i <= |cellsData|
          invariant forall k :: k in selectable <==> k in cellsData[..i] && k !in dataDisabled[col]
        {
          assert cellsData[..i + 1] == cellsData[..i] + [cellsData[i]];
          if IsCellSelectable(col, cellsData[i]) {
            selectable := selectable + [cellsData[i]];
          }
          i := i + 1;
        }
        assert cellsData[..|cellsData|] == cellsData;
        var _ := UpdateData(selectable, col, state);
        assert SetOf(selectable) == SetOf(cellsData) - dataDisabled[col];
      }
    }

    /** `columns().checkboxes.select(state)`: every selectable key of the
        iterated rows enters or leaves its column's selection. */
    method SelectColumns(table: Table, items: seq<ColumnRows>, state: bool)
      requires Valid() && |table| == |opts| && HasColumnRows(table, items)
      modifies this
      ensures Valid() && dataDisabled == old(dataDisabled) && data.Keys == old(data).Keys
      ensures forall c :: c in data ==>
        data[c] == Updated(old(data)[c], ColumnKeys(table, items, c) - dataDisabled[c], state)
      ensures forall c, k :: c in data && k in dataDisabled[c] ==> (k in data[c] <==> k in old(data)[c])
    {
      var i := 0;
      while i < |items|
        invariant 0 <= i <= |items|
        invariant Valid() && dataDisabled == old(dataDisabled) && data.Keys == old(data).Keys
        invariant ColumnsSelected(table, items[..i], old(data), data, dataDisabled, state)
      {
        ghost var before := data;
        SelectColumn(table, items[i], state);
        ColumnRowsLoopStep(table, items, i, old(data), before, data, dataDisabled, state);
        i := i + 1;
      }
      assert items[..|items|] == items;
    }

    /** `columns().checkboxes.deselect(state)` is `select(!state)`. */
    method DeselectColumns(table: Table, items: seq<ColumnRows>, state: bool)
      requires Valid() && |table| == |opts| && HasColumnRows(table, items)
      modifies this
      ensures Valid() && dataDisabled == old(dataDisabled) && data.Keys == old(data).Keys
      ensures forall c :: c in data ==>
        data[c] == Updated(old(data)[c], ColumnKeys(table, items, c) - dataDisabled[c], !state)
    {
      SelectColumns(table, items, !state);
    }

    /** The body of `cells().checkboxes.enable(state)` for one cell: the key
        leaves (`state`) or enters the column's disabled keys; the selection
        is untouched. */
    method EnableCell(table: Table, cell: Cell, state: bool)
      requires Valid() && |table| == |opts| && HasCell(table, cell)
      modifies this
      ensures Valid() && data == old(data)
      ensures dataDisabled == if IsCheckboxColumn(opts, cell.col)
        then old(dataDisabled)[cell.col := Updated(old(dataDisabled)[cell.col], {table[cell.col][cell.row]}, !state)]
        else old(dataDisabled)
    {
      if opts[cell.col].Some? {
        var cellData := table[cell.col][cell.row];
        if state {
          dataDisabled := dataDisabled[cell.col := dataDisabled[cell.col] - {cellData}];
        } else {
          dataDisabled := dataDisabled[cell.col := dataDisabled[cell.col] + {cellData}];
        }
      }
    }

    /** `cells().checkboxes.enable(state)`. */
    method EnableCells(table: Table, cells: seq<Cell>, state: bool)
      requires Valid() && |table| == |opts| && HasCells(table, cells)
      modifies this
      ensures Valid() && data == old(data) && dataDisabled.Keys == old(dataDisabled).Keys
      ensures forall c :: c in dataDisabled ==>
        dataDisabled[c] == Updated(old(dataDisabled)[c], CellKeys(table, cells, c), !state)
    {
      var i := 0;
      while i < |cells|
        invariant 0 <= i <= |cells|
        invariant Valid() && data == old(data) && dataDisabled.Keys == old(dataDisabled).Keys
        invariant CellsToggled(table, cells[..i], old(dataDisabled), dataDisabled, !state)
      {
        ghost var before := dataDisabled;
        EnableCell(table, cells[i], state);
        CellsLoopStepAll(table, cells, i, old(dataDisabled), before, dataDisabled, !state);
        i := i + 1;
      }
      assert cells[..|cells|] == cells;
    }

    /** `cells().checkboxes.disable(state)` is `enable(!state)`. */
    method DisableCells(table: Table, cells: seq<Cell>, state: bool)
      requires Valid() && |table| == |opts| && HasCells(table, cells)
      modifies this
      ensures Valid() && data == old(data) && dataDisabled.Keys == old(dataDisabled).Keys
      ensures forall c :: c in dataDisabled ==>
        dataDisabled[c] == Updated(old(dataDisabled)[c], CellKeys(table, cells, c), state)
    {
      EnableCells(table, cells, !state);
    }

    /** The body of `columns().checkboxes.deselectAll()` for one column: the
        selection is replaced by an empty one, disabled keys included, and
        then every row of the column is deselected. */
    method DeselectAllColumn(table: Table, col: nat)
      requires Valid() && |table| == |opts| && col < |opts|
      modifies this
      ensures Valid() && dataDisabled == old(dataDisabled)
      ensures data == if IsCheckboxColumn(opts, col) then old(data)[col := {}] else old(data)
    {
      if opts[col].Some? {
        data := data[col := {}];
        SelectColumn(table, ColumnRows(col, AllRows(table, col)), false);
        assert data[col] == {};
        assert data == old(data)[col := {}];
      }
    }

    /** `columns().checkboxes.deselectAll()`: every iterated checkbox column
        ends with an empty selection; the other columns keep theirs. */
    method DeselectAll(table: Table, cols: seq<nat>)
      requires Valid() && |table| == |opts| && forall i :: 0 <= i < |cols| ==> cols[i] < |opts|
      modifies this
      ensures Valid() && dataDisabled == old(dataDisabled) && data.Keys == old(data).Keys
      ensures forall c :: c in data ==> data[c] == if c in cols then {} else old(data)[c]
    {
      var i := 0;
      while i < |cols|
        invariant 0 <= i <= |cols|
        invariant Valid() && dataDisabled == old(dataDisabled) && data.Keys == old(data).Keys
        invariant forall c :: c in data ==> data[c] == if c in cols[..i] then {} else old(data)[c]
      {
        DeselectAllColumn(table, cols[i]);
        assert cols[..i + 1] == cols[..i] + [cols[i]];
        i := i + 1;
      }
      assert cols[..|cols|] == cols;
    }

    /** What `column().checkboxes.selected()` returns for one column. */
    ghost predicate IsSelectedResult(table: Table, item: ColumnRows, r: seq<Key>)
      reads this
      requires Valid() && HasRows(table, item.col, item.rows)
    {
      if !IsCheckboxColumn(opts, item.col) then r == []
      else if serverSide then
        NoDuplicates(r) && forall k :: k in r <==> k in data[item.col] && k !in dataDisabled[item.col]
      else r == SelectedKeys(CellsData(table, item.col, item.rows), data[item.col], dataDisabled[item.col])
    }

    /** The body of `columns().checkboxes.selected()` for one column:
        server-side, the selected keys that are not disabled; client-side,
        the keys of the iterated rows, in row order, that are selected and
        not disabled. A disabled key is never reported. */
    method SelectedColumn(table: Table, item: ColumnRows) returns (r: seq<Key>)
      requires Valid() && HasRows(table, item.col, item.rows)
      ensures IsSelectedResult(table, item, r)
      ensures IsCheckboxColumn(opts, item.col) ==>
        forall k :: k in r ==> k in data[item.col] && k !in dataDisabled[item.col]
    {
      var col := item.col;
      r := [];
      if col < |opts| && opts[col].Some? {
        if serverSide {
          var rest := data[col];
          while rest != {}
            invariant rest <= data[col]
            invariant NoDuplicates(r)
            invariant forall k :: k in r ==> k !in rest
            invariant forall k :: k in r <==> k in data[col] && k !in rest && k !in dataDisabled[col]
            decreases |rest|
          {
            var k :| k in rest;
            if IsCellSelectable(col, k) {
              r := r + [k];
            }
            rest := rest - {k};
          }
        } else {
          var cellsData := CellsData(table, col, item.rows);
          var i := 0;
          while i < |cellsData|
            invariant 0 <= i <= |cellsData|
            invariant r == SelectedKeys(cellsData[..i], data[col], dataDisabled[col])
          {
            assert cellsData[..i + 1][..i] == cellsData[..i];
            if data[col] >= {cellsData[i]} && IsCellSelectable(col, cellsData[i]) {
              r := r + [cellsData[i]];
            }
            i := i + 1;
          }
          assert cellsData[..|cellsData|] == cellsData;
          SelectedKeysMembers(cellsData, data[col], dataDisabled[col]);
        }
      }
    }

    /** `columns().checkboxes.selected()`: one result per iterated column. */
    method Selected(table: Table, items: seq<ColumnRows>) returns (rs: seq<seq<Key>>)
      requires Valid() && HasColumnRows(table, items)
      ensures |rs| == |items|
      ensures forall i :: 0 <= i < |items| ==> IsSelectedResult(table, items[i], rs[i])
    {
      rs := [];
      var i := 0;
      while i < |items|
        invariant 0 <= i <= |items| && |rs| == i
        invariant forall j :: 0 <= j < i ==> IsSelectedResult(table, items[j], rs[j])
      {
        var r := SelectedColumn(table, items[i]);
        rs := rs + [r];
        i := i + 1;
      }
    }

    /** `updateSelectAll` without its DOM writes: no control for a column
        without checkboxes or without the "select all" option; otherwise the
        tri-state counted over the rows the control covers. */
    method UpdateSelectAll(table: Table, item: ColumnRows) returns (r: Option<SelectAll>)
      requires Valid() && HasRows(table, item.col, item.rows)
      ensures r.Some? <==> item.col < |opts| && opts[item.col].Some? && opts[item.col].value.selectAll
      ensures r.Some? ==>
        r.value == SelectAllOf(CellsData(table, item.col, item.rows), data[item.col], dataDisabled[item.col])
      ensures r.Some? ==> (!r.value.isSelected <==> forall i :: 0 <= i < |item.rows| ==>
        !IsChecked(table[item.col][item.rows[i]], data[item.col], dataDisabled[item.col]))
      ensures r.Some? ==> (r.value == SelectAll(true, false) <==>
        (exists i :: 0 <= i < |item.rows| && IsChecked(table[item.col][item.rows[i]], data[item.col], dataDisabled[item.col])) &&
        (forall i :: 0 <= i < |item.rows| ==>
          table[item.col][item.rows[i]] in data[item.col] || table[item.col][item.rows[i]] in dataDisabled[item.col]))
      ensures r.Some? ==> !(CheckedProperty(r.value) && r.value.isIndeterminate)
    {
      var col := item.col;
      r := None;
      if col < |opts| && opts[col].Some? && opts[col].value.selectAll {
        var cellsData := CellsData(table, col, item.rows);
        var countChecked := 0;
        var countDisabled := 0;
        var i := 0;
        while i < |cellsData|
          invariant 0 <= i <= |cellsData|
          invariant countChecked == CountChecked(cellsData[..i], data[col], dataDisabled[col])
          invariant countDisabled == CountDisabled(cellsData[..i], dataDisabled[col])
        {
          assert cellsData[..i + 1][..i] == cellsData[..i];
          if IsCellSelectable(col, cellsData[i]) {
            if cellsData[i] in data[col] {
              countChecked := countChecked + 1;
            }
          } else {
            countDisabled := countDisabled + 1;
          }
          i := i + 1;
        }
        assert cellsData[..|cellsData|] == cellsData;
        var isSelected, isIndeterminate;
        if countChecked == 0 {
          isSelected, isIndeterminate := false, false;
        } else if countChecked + countDisabled == |cellsData| {
          isSelected, isIndeterminate := true, false;
        } else {
          isSelected, isIndeterminate := true, true;
        }
        r := Some(SelectAll(isSelected, isIndeterminate));
        SelectAllMeaning(cellsData, data[col], dataDisabled[col]);
        assert |cellsData| == |item.rows|;
        assert forall i :: 0 <= i < |item.rows| ==> cellsData[i] == table[col][item.rows[i]];
      }
    }

    /** `getSelectRowColIndex`: the lowest column with row selection enabled. */
    method GetSelectRowColIndex() returns (col: Option<nat>)
      ensures col.Some? ==> IsFirstSelectRow(opts, col.value)
      ensures col.None? ==> forall c :: 0 <= c < |opts| ==> !SelectsRow(opts, c)
    {
      col := None;
      var i := 0;
      while i < |opts|
        invariant 0 <= i <= |opts|
        invariant forall c :: 0 <= c < i ==> !SelectsRow(opts, c)
      {
        if opts[i].Some? && opts[i].value.selectRow {
          col := Some(i);
          break;
        }
        i := i + 1;
      }
    }

    /** `onDataTablesUserSelect`: the Select extension may not select a row
        whose key in the row-selection column is disabled. The handler is
        installed only when some column selects rows. */
    method OnUserSelect(table: Table, row: nat) returns (prevent: bool)
      requires Valid() && |table| == |opts|
      requires exists c: nat :: SelectsRow(opts, c)
      requires forall c: nat :: SelectsRow(opts, c) ==> row < |table[c]|
      ensures exists c: nat :: IsFirstSelectRow(opts, c) && (prevent <==> table[c][row] in dataDisabled[c])
    {
      var col := GetSelectRowColIndex();
      prevent := !IsCellSelectable(col.value, table[col.value][row]);
    }

    /** `onDataTablesSelectDeselect`: for rows the Select extension selected
        or deselected, their keys in the row-selection column enter or leave
        the selection, disabled or not; events for cells or columns change
        nothing. */
    method OnRowSelect(table: Table, isRowEvent: bool, rows: seq<nat>, isSelect: bool)
      requires Valid() && |table| == |opts|
      requires forall c: nat :: SelectsRow(opts, c) ==> HasRows(table, c, rows)
      modifies this
      ensures Valid() && dataDisabled == old(dataDisabled)
      ensures (!isRowEvent || forall c :: 0 <= c < |opts| ==> !SelectsRow(opts, c)) ==> data == old(data)
      ensures isRowEvent ==> forall c: nat :: IsFirstSelectRow(opts, c) ==>
        data == old(data)[c := Updated(old(data)[c], SetOf(CellsData(table, c, rows)), isSelect)]
    {
      if !isRowEvent {
        return;
      }
      var col := GetSelectRowColIndex();
      if col.Some? {
        var _ := UpdateData(CellsData(table, col.value, rows), col.value, isSelect);
      }
    }

    /** `onDataTablesStateSave`: the selection of every column whose
        `stateSave` option is set. */
    method StateSave() returns (saved: SavedState)
      requires Valid()
      ensures saved == Saved(data, opts)
    {
      saved := map[];
      var k := 0;
      while k < |columns|
        invariant 0 <= k <= |columns|
        invariant forall c :: c in saved <==> c in columns[..k] && SavesState(opts, c)
        invariant forall c :: c in saved ==> saved[c] == data[c]
      {
        assert columns[..k + 1] == columns[..k] + [columns[k]];
        var c := columns[k];
        if opts[c].value.stateSave {
          saved := saved[c := data[c]];
        }
        k := k + 1;
      }
      assert columns[..|columns|] == columns;
    }

    /** `loadState`: see `Restored`. */
    method LoadState(loaded: Option<SavedState>)
      requires Valid()
      modifies this
      ensures Valid() && dataDisabled == old(dataDisabled)
      ensures data == Restored(old(data), opts, stateSaveEnabled, loaded)
    {
      if stateSaveEnabled {
        data := LoadColumns(opts, columns, data, loaded);
      }
    }

    /** `onDataTablesXhr`: after an ajax reload both maps are empty for every
        checkbox column, and then the stored state is loaded again. */
    method OnXhr(loaded: Option<SavedState>)
      requires Valid()
      modifies this
      ensures Valid()
      ensures dataDisabled == EmptyColumns(opts)
      ensures data == Restored(EmptyColumns(opts), opts, stateSaveEnabled, loaded)
    {
      // One loop over the columns clears both maps; they are independent.
      data := ClearColumns(opts, columns, data);
      dataDisabled := ClearColumns(opts, columns, dataDisabled);
      if stateSaveEnabled {
        LoadState(loaded);
      }
    }
  }
}
