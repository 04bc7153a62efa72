# Checkboxes for DataTables: selection bookkeeping, releases 1.2.12 and 1.2.9

The Checkboxes extension for DataTables adds a checkbox to each cell of
chosen table columns, plus an optional "select all" control in the column
header. For every checkbox column the extension keeps two objects keyed by
cell data:

- `this.s.data[col]` holds the selected keys;
- `this.s.dataDisabled[col]` holds the keys whose checkbox is disabled.

A key is the cell's data used as a property name. Rows whose cells hold
equal data therefore share one key.

This project models that bookkeeping for two releases of the extension.
The two are kept as separate modules, because the rules differ between
them:

- `Checkboxes1212` models `js/dataTables.checkboxes.js` (release 1.2.12).
- `Checkboxes129` models `1.2.9/js/dataTables.checkboxes.js` (release 1.2.9).
- `TableData` holds what both share:
  - the host table, as columns of row keys;
  - cell indexes and column/row iterator items;
  - the insert/delete effect of the selection updates;
  - the per-column key sets of cell and column iterations;
  - the lemmas that carry the iteration loops.

Each release has a class `Checkboxes`:

- The constant fields hold the merged column options, `this.s.columns`, and
  the table's `bStateSave` (and, in 1.2.12, `bServerSide`) features.
- The mutable fields are the maps `data` and `dataDisabled`.
- Every registered API function (`cells().checkboxes.select()`,
  `columns().checkboxes.enable()`, ...) is a method:
  - it loops over the iterated items;
  - it calls a per-item method that models the iterator callback.

The host library comes in as parameters:

- the table's cell data;
- the rows a selector yields;
- `dt.state.loaded()`;
- whether the Select extension is present.

Release 1.2.9 guards its cell select, column select and enable bodies with
`ctx.checkboxes`, which is always set, instead of testing the column. On a
column without checkboxes `dataDisabled[col]` is then `undefined`, and the
body throws a TypeError before changing anything. The model returns
`Outcome.TypeError`, and the plural API stops at the first such item.

## Model

| member | source | states |
|---|---|---|
| TableData.Updated | js/dataTables.checkboxes.js:514-523 | a key is in the result exactly when it is one of the updated keys and the update selects, or it is not one of them and was already there |
| TableData.ClearColumns | js/dataTables.checkboxes.js:486-491 | the loop over `this.s.columns` leaves every checkbox column of the map empty: the result is the all-empty map over the checkbox columns |
| TableData.EmptyByColumns | js/dataTables.checkboxes.js:174-179 | a map over exactly the checkbox columns whose every registered column is empty is the all-empty map |
| TableData.AllRows | js/dataTables.checkboxes.js:1169 | `column(col)` without modifiers iterates every row of the column, once each; the model fixes index order, whereas the source iterates in the current display order |
| TableData.CellKeys | js/dataTables.checkboxes.js:1082-1086 | a key belongs to column `col`'s cell keys exactly when some iterated cell lies in that column and holds that key |
| TableData.ColumnKeys | js/dataTables.checkboxes.js:1039-1049 | a key belongs to column `col`'s keys exactly when some iterated item names that column and one of its rows holds that key |
| TableData.CellsLoopStep | js/dataTables.checkboxes.js:1082-1103 | one cell step of a select iteration extends "each column is its start set updated with the selectable keys of the cells visited so far" by one cell |
| TableData.CellsLoopStepAll | js/dataTables.checkboxes.js:1109-1124 | one cell step of an enable iteration extends "each column's disabled set is its start set updated with the keys of the cells visited so far" by one cell |
| TableData.ColumnRowsLoopStep | js/dataTables.checkboxes.js:1039-1076 | one column step of a select iteration extends "each column is its start set updated with the selectable keys of the items visited so far" by one item |
| TableData.CellsSelectedKeepsDisabled | js/dataTables.checkboxes.js:1088-1090 | after a cell select iteration every disabled key has the membership it started with |
| TableData.ColumnsSelectedKeepsDisabled | js/dataTables.checkboxes.js:1052-1064 | after a column select iteration every disabled key has the membership it started with |
| Checkboxes1212.Extend | js/dataTables.checkboxes.js:121-123 | each option the user gave wins; every other option takes its value from `Checkboxes.defaults` |
| Checkboxes1212.ExtendLaws | js/dataTables.checkboxes.js:967-1023 | merging nothing gives the defaults (`stateSave`, `selectAll` and `selectAllPages` on, `selectRow` off); merging a full option set gives that set; merging is idempotent |
| Checkboxes1212.ColumnOptions | js/dataTables.checkboxes.js:108-198 | a falsy `checkboxes` setting gives no options; a non-object truthy one gives the defaults; an object gives the merged options, with `selectRow` forced off when the Select extension is absent |
| Checkboxes1212.InitColumns | js/dataTables.checkboxes.js:107-179 | every column gets `ColumnOptions` of its setting; `this.s.columns` lists exactly the checkbox columns in ascending order; each gets an empty key set |
| Checkboxes1212.Checkboxes.constructor | js/dataTables.checkboxes.js:99-231 | the options come from `InitColumns`; `dataDisabled` is empty on every checkbox column; `data` is the empty map as `loadState` restores it, and `loadState` runs only when the table has a checkbox column |
| Checkboxes1212.LoadColumns | js/dataTables.checkboxes.js:726-741 | every checkbox column whose own `stateSave` option is set takes the stored selection when there is one; every other column keeps its keys |
| Checkboxes1212.Checkboxes.LoadState | js/dataTables.checkboxes.js:720-742 | `data` becomes `Restored(old data)`: restored only when `bStateSave` is on; `dataDisabled` is untouched |
| Checkboxes1212.Checkboxes.StateSave | js/dataTables.checkboxes.js:410-425 | the saved state holds the selection of exactly the checkbox columns whose `stateSave` option is set |
| Checkboxes1212.SaveThenLoad | js/dataTables.checkboxes.js:415-423 | loading what was saved restores every column that saves its state, leaves every other column as it is now, and reproduces the saved selection |
| Checkboxes1212.LoadWithoutStateSaving | js/dataTables.checkboxes.js:726 | with `bStateSave` off, loading changes nothing |
| Checkboxes1212.Checkboxes.OnXhr | js/dataTables.checkboxes.js:478-503 | after an ajax reload both maps are empty on every checkbox column, and then the stored state is loaded again as by `loadState` |
| Checkboxes1212.ReloadFromLiveState | js/dataTables.checkboxes.js:478-503 | when the loaded state's entries are the selection's own objects, the reload gives every column that saves its state and has an entry its current selection back, and leaves the others empty |
| Checkboxes1212.Checkboxes.UpdateData | js/dataTables.checkboxes.js:506-534 | on a checkbox column every given key enters (`isSelected`) or leaves the selection, and nothing else changes; on another column nothing changes; a state save is requested exactly when `bStateSave` and the column's `stateSave` are both set |
| Checkboxes1212.Checkboxes.SelectCell | js/dataTables.checkboxes.js:1082-1103 | the cell's key enters or leaves its column's selection exactly when the column has checkboxes and the cell is selectable; otherwise nothing changes |
| Checkboxes1212.Checkboxes.SelectCells | js/dataTables.checkboxes.js:1079-1104 | every column's selection is its old one updated with the cells' keys in that column minus its disabled keys; disabled keys keep their membership; `dataDisabled` is untouched |
| Checkboxes1212.Checkboxes.DeselectCells | js/dataTables.checkboxes.js:1158-1161 | the same update with the opposite direction |
| Checkboxes1212.Checkboxes.SelectColumn | js/dataTables.checkboxes.js:1039-1076 | on a checkbox column the keys of the iterated rows, minus the disabled ones, enter or leave the selection; on another column nothing changes |
| Checkboxes1212.Checkboxes.SelectColumns | js/dataTables.checkboxes.js:1036-1077 | every column's selection is its old one updated with the row keys of the items of that column minus its disabled keys; disabled keys keep their membership |
| Checkboxes1212.Checkboxes.DeselectColumns | js/dataTables.checkboxes.js:1153-1156 | the same update with the opposite direction |
| Checkboxes1212.Checkboxes.EnableCell | js/dataTables.checkboxes.js:1109-1145 | on a checkbox column the cell's key leaves (`state`) or enters the disabled keys; the selection is untouched |
| Checkboxes1212.Checkboxes.EnableCells | js/dataTables.checkboxes.js:1106-1146 | every column's disabled set is its old one updated with the cells' keys in that column; the selection is untouched |
| Checkboxes1212.Checkboxes.DisableCells | js/dataTables.checkboxes.js:1148-1151 | the same update with the opposite direction |
| Checkboxes1212.Checkboxes.DeselectAllColumn | js/dataTables.checkboxes.js:1164-1171 | a checkbox column ends with an empty selection, disabled keys included; every other column, and every column's disabled set, is unchanged |
| Checkboxes1212.Checkboxes.DeselectAll | js/dataTables.checkboxes.js:1163-1172 | every iterated checkbox column ends empty; every other column keeps its selection |
| Checkboxes1212.Checkboxes.SelectedColumn | js/dataTables.checkboxes.js:1175-1219 | server-side: each selected, non-disabled key once; client-side: the iterated rows' keys, in row order, that are selected and not disabled; `[]` for a non-checkbox column; never a disabled key |
| Checkboxes1212.Checkboxes.Selected | js/dataTables.checkboxes.js:1174-1220 | one such result per iterated column |
| Checkboxes1212.SelectedKeys | js/dataTables.checkboxes.js:1198-1211 | the reported keys are at most one per row; what they are is stated by `SelectedKeysMembers` and by `Checkboxes.SelectedColumn` |
| Checkboxes1212.SelectedKeysMembers | js/dataTables.checkboxes.js:1203-1211 | a key is reported client-side exactly when some row holds it and it is selected and not disabled |
| Checkboxes1212.SelectedAfterColumnSelect | js/dataTables.checkboxes.js:1198-1211 | after selecting a column's rows, `selected()` over the same rows reports exactly their keys that are not disabled |
| Checkboxes1212.CountChecked | js/dataTables.checkboxes.js:765-777 | `countChecked` never exceeds the number of rows; what it counts is stated by `CheckedZeroIff`, `AllAccountedIff` and `SelectAllMeaning` |
| Checkboxes1212.CountDisabled | js/dataTables.checkboxes.js:765-777 | `countDisabled` never exceeds the number of rows; what it counts is stated by `AllAccountedIff` and `SelectAllMeaning` |
| Checkboxes1212.TriState | js/dataTables.checkboxes.js:790-804 | the computed state is never (unselected, indeterminate) |
| Checkboxes1212.CheckedProperty | js/dataTables.checkboxes.js:815-819 | the `checked` property written is true exactly when the state is selected and not indeterminate |
| Checkboxes1212.RenderedNeverCheckedAndIndeterminate | js/dataTables.checkboxes.js:790-819 | the control is never rendered checked and indeterminate at once, and never computed as (unselected, indeterminate) |
| Checkboxes1212.CheckedZeroIff | js/dataTables.checkboxes.js:765-793 | `countChecked` is zero exactly when no row is selected and selectable |
| Checkboxes1212.AllAccountedIff | js/dataTables.checkboxes.js:765-798 | `countChecked + countDisabled` is at most the row count, and equals it exactly when every row is selected or disabled |
| Checkboxes1212.SelectAllMeaning | js/dataTables.checkboxes.js:765-804 | unselected iff no row is checked; (selected, determinate) iff some row is checked and every row is selected or disabled; indeterminate iff some row is checked and some row is neither selected nor disabled |
| Checkboxes1212.SelectAllAfterColumnSelect | js/dataTables.checkboxes.js:1052-1072 | after selecting a column's rows the control over those rows is never indeterminate; after deselecting them it is cleared |
| Checkboxes1212.Checkboxes.UpdateSelectAll | js/dataTables.checkboxes.js:745-828 | no control unless the column has checkboxes and `selectAll`; otherwise the tri-state of its rows, with both row-level iffs of `SelectAllMeaning`, and never rendered checked and indeterminate |
| Checkboxes1212.Checkboxes.GetSelectRowColIndex | js/dataTables.checkboxes.js:912-928 | the lowest column with checkboxes and `selectRow`, or none when no column has both |
| Checkboxes1212.Checkboxes.OnUserSelect | js/dataTables.checkboxes.js:374-387 | row selection is prevented exactly when the row's key in the first row-selection column is disabled |
| Checkboxes1212.Checkboxes.OnRowSelect | js/dataTables.checkboxes.js:390-407 | for a row event, the rows' keys in the first row-selection column enter or leave its selection, disabled or not; for any other event type, or with no such column, nothing changes |
| Checkboxes129.Extend | 1.2.9/js/dataTables.checkboxes.js:129-131 | each option the user gave wins; every other option takes its value from `Checkboxes.defaults` |
| Checkboxes129.ExtendLaws | 1.2.9/js/dataTables.checkboxes.js:857-905 | merging nothing gives the defaults (`selectAll` and `selectAllPages` on, `selectRow` off, no `stateSave` option); merging a full option set gives that set; merging is idempotent |
| Checkboxes129.ColumnOptions | 1.2.9/js/dataTables.checkboxes.js:116-213 | a falsy setting gives no options; a non-object truthy one gives the defaults; an object gives the merged options, with `selectRow` forced off without the Select extension |
| Checkboxes129.InitColumns | 1.2.9/js/dataTables.checkboxes.js:115-194 | every column gets `ColumnOptions` of its setting; `this.s.columns` lists exactly the checkbox columns in ascending order; each gets an empty key set |
| Checkboxes129.Checkboxes.constructor | 1.2.9/js/dataTables.checkboxes.js:104-239 | `dataDisabled` is empty on every checkbox column; every checkbox column's selection is the stored one when the loaded state has an entry for it, whatever its options, and empty otherwise |
| Checkboxes129.LoadColumns | 1.2.9/js/dataTables.checkboxes.js:371-377 | every checkbox column takes the stored selection when there is one; every other column keeps its keys |
| Checkboxes129.Checkboxes.LoadStoredState | 1.2.9/js/dataTables.checkboxes.js:366-377 | `data` becomes `Loaded(old data)`; `dataDisabled` is untouched |
| Checkboxes129.Checkboxes.StateSaveParams | 1.2.9/js/dataTables.checkboxes.js:388-394 | the saved state covers exactly the checkbox columns, and loading it into a freshly cleared selection gives back the current selection of every column |
| Checkboxes129.SaveThenLoad | 1.2.9/js/dataTables.checkboxes.js:390-393 | loading what was saved into a map over the same columns reproduces the saved selection in every column; loading no state changes nothing |
| Checkboxes129.Checkboxes.OnXhr | 1.2.9/js/dataTables.checkboxes.js:358-384 | after an ajax reload every checkbox column's selection is empty, or the stored one when state saving is on and there is one; `dataDisabled` is kept |
| Checkboxes129.ReloadFromLiveState | 1.2.9/js/dataTables.checkboxes.js:358-384 | when the loaded state's entries are the selection's own objects, the reload gives every column with an entry its current selection back, and leaves the others empty |
| Checkboxes129.Checkboxes.UpdateData | 1.2.9/js/dataTables.checkboxes.js:422-447 | on a checkbox column every given key enters or leaves the selection, and nothing else changes; a state save is requested exactly when `bStateSave` is on |
| Checkboxes129.Checkboxes.SelectCell | 1.2.9/js/dataTables.checkboxes.js:971-999 | a TypeError exactly when the column has no checkboxes, with nothing changed; otherwise the key enters or leaves the selection exactly when the cell is selectable |
| Checkboxes129.Checkboxes.SelectCells | 1.2.9/js/dataTables.checkboxes.js:968-1000 | done exactly when every cell is in a checkbox column; the cells before the first TypeError update their columns with their selectable keys; disabled keys keep their membership |
| Checkboxes129.Checkboxes.DeselectCells | 1.2.9/js/dataTables.checkboxes.js:1053-1056 | the same as `SelectCells` with the opposite direction |
| Checkboxes129.Checkboxes.SelectColumn | 1.2.9/js/dataTables.checkboxes.js:921-965 | a TypeError exactly when the column has no checkboxes, with nothing changed; otherwise the iterated rows' selectable keys enter or leave the selection |
| Checkboxes129.Checkboxes.SelectColumns | 1.2.9/js/dataTables.checkboxes.js:918-966 | done exactly when every item is a checkbox column; the items before the first TypeError update their columns with their selectable row keys; disabled keys keep their membership |
| Checkboxes129.Checkboxes.DeselectColumns | 1.2.9/js/dataTables.checkboxes.js:1048-1051 | the same as `SelectColumns` with the opposite direction |
| Checkboxes129.Checkboxes.EnableCell | 1.2.9/js/dataTables.checkboxes.js:1005-1040 | a TypeError exactly when the column has no checkboxes, with nothing changed; otherwise the key leaves (`state`) or enters the disabled keys; the selection is untouched |
| Checkboxes129.Checkboxes.EnableCells | 1.2.9/js/dataTables.checkboxes.js:1002-1041 | done exactly when every cell is in a checkbox column; the cells before the first TypeError toggle their keys in `dataDisabled`; the selection is untouched |
| Checkboxes129.Checkboxes.DisableCells | 1.2.9/js/dataTables.checkboxes.js:1043-1046 | the same as `EnableCells` with the opposite direction |
| Checkboxes129.Checkboxes.DeselectAllColumn | 1.2.9/js/dataTables.checkboxes.js:1059-1066 | a checkbox column ends with an empty selection; every other column and every disabled set is unchanged |
| Checkboxes129.Checkboxes.DeselectAll | 1.2.9/js/dataTables.checkboxes.js:1058-1067 | every iterated checkbox column ends empty; every other column keeps its selection |
| Checkboxes129.Checkboxes.SelectedColumn | 1.2.9/js/dataTables.checkboxes.js:1070-1085 | each selected, non-disabled key of the column once, whatever the rows; `[]` for a non-checkbox column |
| Checkboxes129.Checkboxes.Selected | 1.2.9/js/dataTables.checkboxes.js:1069-1086 | one such result per iterated column: each checkbox column's selected, non-disabled keys, once each; `[]` for every other column |
| Checkboxes129.CountSelected | 1.2.9/js/dataTables.checkboxes.js:684-688 | `countChecked` never exceeds the number of rows; what it counts is stated by `SelectedZeroIff`, `AllSelectedIff` and `SelectAllMeaning` |
| Checkboxes129.TriState | 1.2.9/js/dataTables.checkboxes.js:702-715 | the computed state is never (unselected, indeterminate) |
| Checkboxes129.SelectedZeroIff | 1.2.9/js/dataTables.checkboxes.js:684-704 | `countChecked` is zero exactly when no row is selected, disabled or not |
| Checkboxes129.AllSelectedIff | 1.2.9/js/dataTables.checkboxes.js:684-709 | `countChecked` equals the row count exactly when every row is selected |
| Checkboxes129.SelectAllMeaning | 1.2.9/js/dataTables.checkboxes.js:684-715 | unselected iff no row is selected; (selected, determinate) iff there are rows and all are selected; indeterminate iff some row is selected and some is not |
| Checkboxes129.DisabledRowKeepsSelectAllIndeterminate | 1.2.9/js/dataTables.checkboxes.js:684-720 | selecting rows "a" and "b" with "b" disabled leaves the control indeterminate with its `checked` property true, so it is rendered checked and indeterminate at once |
| Checkboxes129.IndeterminateIsRenderedChecked | 1.2.9/js/dataTables.checkboxes.js:702-720 | whenever the control is indeterminate, its `checked` property is written true as well |
| Checkboxes129.Checkboxes.UpdateSelectAll | 1.2.9/js/dataTables.checkboxes.js:664-727 | no control unless the column has checkboxes and `selectAll`; otherwise the tri-state of its rows, with both row-level iffs of `SelectAllMeaning` |
| Checkboxes129.Checkboxes.GetSelectRowColIndex | 1.2.9/js/dataTables.checkboxes.js:812-829 | the lowest column with checkboxes and `selectRow`, or none when no column has both |
| Checkboxes129.Checkboxes.OnUserSelect | 1.2.9/js/dataTables.checkboxes.js:257-268 | row selection is prevented exactly when the row's key in the first row-selection column is disabled |
| Checkboxes129.Checkboxes.OnSelect | 1.2.9/js/dataTables.checkboxes.js:592-610 | for a row event, the rows' keys in the first row-selection column enter or leave its selection, disabled or not; for any other event type, or with no such column, nothing changes |

## Left out

- DOM work is not modelled; the model only computes the values written to the DOM. This covers:
  - the checkbox `checked`, `disabled` and `indeterminate` writes;
  - `updateCheckbox` and `updateStateCheckboxes`;
  - header markup, class names and cell node lookups.
- Event wiring, the `setTimeout` deferrals and the `draw`-time `updateState`: they schedule callbacks and carry no bookkeeping.
- `ignoreSelect` and `updateSelect`: they only drive the Select extension's own row selection. The `updateSelect` calls in the API bodies are left out with them.
- The click handlers `onClick` and `onClickSelectAll`: they call the select APIs modelled here.
- FixedColumns and FixedHeader integration, and `getCellIndex`: these are calls into extensions that are not part of this model.
- `showInfoSelected`: it builds text for the DOM; the count it shows is the number of keys of `data[col]`.
- The user callbacks `selectCallback` and `selectAllCallback`, and the `selectAllRender` markup: they are opaque functions and HTML.
- The destroy handlers: they detach handlers and restore markup. Both releases also reset `data` (js/dataTables.checkboxes.js:447, 1.2.9/js/dataTables.checkboxes.js:409), and 1.2.12 also resets `dataDisabled` (js/dataTables.checkboxes.js:448). The model has no destroyed state.
- The UMD loader and the version check are module glue; `types/types.d.ts` and `Gruntfile.js` are not part of this model.
- Checkboxes1212.Checkboxes.UpdateSelectAll: does not model the test that writes the control only when its state changed (js/dataTables.checkboxes.js:806-811), because that test reads DOM properties.
- Checkboxes1212.Checkboxes.SelectedColumn: server-side, the order of the keys is JavaScript property order, which the model does not fix. It states membership and no duplicates only.
- Checkboxes129.Checkboxes.SelectedColumn: the order of the keys is JavaScript property order, which the model does not fix. It states membership and no duplicates only.
- Stored state is modelled by value. The source assigns the loaded objects themselves, so they become aliases of `data[col]` (js/dataTables.checkboxes.js:737, 1.2.9/js/dataTables.checkboxes.js:184-191), and later selections change the loaded state object too.
- Checkboxes1212.Checkboxes.OnXhr and Checkboxes129.Checkboxes.OnXhr: the `loaded` argument is the loaded state object as it is at the time of the reload, not as it was at page load. For a column whose selection object is still that state's entry, this is the current selection, so the reload keeps it (`ReloadFromLiveState`). This relies on the host returning the same object from `state.loaded()` on every call.
- The saved array's holes for columns without saved state are modelled as missing map entries.
- `String(cellData)` coercion of non-string cell data: keys are modelled as strings from the start.
- Keys that are special property names are modelled as ordinary keys. Storing `__proto__` adds no own property, and storing `hasOwnProperty` shadows the method, so the next lookup throws.
- The `state` argument of the select, deselect, enable and disable APIs defaults to true when it is `undefined` (for example js/dataTables.checkboxes.js:1037, 1080, 1107 and 1.2.9/js/dataTables.checkboxes.js:919, 969, 1003). The model takes an explicit boolean.
- The `xhr` handlers are installed only when server-side processing is off (js/dataTables.checkboxes.js:357, 1.2.9/js/dataTables.checkboxes.js:348). The model offers `OnXhr` without that condition.
- The typo `e. settings` at js/dataTables.checkboxes.js:368 passes `e.settings` where the event was meant. The handler ignores its arguments, so it is not modelled.
- Release 1.2.9 on a column without checkboxes:
  - The model assumes the column's `checkboxes` property is absent.
  - For `columns().checkboxes.select()` with no rows and a property that is present but falsy (`checkboxes: false`), the source throws no TypeError. The model reports one.
  - Nothing changes in either case.

## Findings

| source | as written | input that shows it | evidently intended | confidence | as-written member | corrected member |
|---|---|---|---|---|---|---|
| 1.2.9/js/dataTables.checkboxes.js:684-720 | `countChecked` counts every selected row, "all" means `countChecked == n`, and `checked` is written as `isSelected` | `column().checkboxes.select()` over rows "a" and "b", with "b" disabled: only "a" is selected, so the control becomes selected and indeterminate, and is rendered checked and indeterminate at once | the control over rows where every selectable row is selected is determinate, and an indeterminate control is never rendered checked; release 1.2.12 counts disabled rows separately and writes `checked` as false when indeterminate | high (the later release makes this change); not executed | Checkboxes129.DisabledRowKeepsSelectAllIndeterminate | Checkboxes1212.SelectAllAfterColumnSelect |
| 1.2.9/js/dataTables.checkboxes.js:971-977 | the cell and column select bodies and the enable body test `ctx.checkboxes`, which is always set, instead of the column | `cells().checkboxes.select()` over all cells of a table whose first column has no checkboxes: `dataDisabled[0]` is undefined and the first cell throws a TypeError | a column without checkboxes is skipped, as release 1.2.12 does by testing `ctx.aoColumns[colIdx].checkboxes` | medium; not executed | Checkboxes129.Checkboxes.SelectCells | Checkboxes1212.Checkboxes.SelectCells |
