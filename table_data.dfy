/** The host table as the Checkboxes plugin sees it, and the set operations both
    releases of the plugin perform on their per-column key sets. */
module TableData {

  datatype Option<T> = None | Some(value: T)

  /** A checkbox key: the data of a cell, used as a property name of a plain
      object, so two cells with equal data share one key. */
  type Key = string

  /** The data of the host table, column by column: `table[col][row]` is the
      data of the cell in that row and column. */
  type Table = seq<seq<Key>>

  /** The value of one option after `$.extend`: the user's when given. */
  function Pick(given: Option<bool>, default: bool): bool
  {
    if given.Some? then given.value else default
  }

  /** `opts[c]` is the merged `checkboxes` option object of column `c`, or
      `None` for a column without checkboxes. */
  predicate IsCheckboxColumn<O>(opts: seq<Option<O>>, c: nat)
  {
    c < |opts| && opts[c].Some?
  }

  /** `this.s.columns`: the checkbox columns, in ascending order. */
  ghost predicate ListsColumns<O>(opts: seq<Option<O>>, columns: seq<nat>)
  {
    && (forall k :: 0 <= k < |columns| ==> IsCheckboxColumn(opts, columns[k]))
    && (forall c :: IsCheckboxColumn(opts, c) ==> c in columns)
    && (forall j, k :: 0 <= j < k < |columns| ==> columns[j] < columns[k])
  }

  /** An empty key set for every checkbox column. */
  function EmptyColumns<O>(opts: seq<Option<O>>): map<nat, set<Key>>
  {
    map c: nat | c < |opts| && opts[c].Some? :: {}
  }

  /** A map over the checkbox columns whose every listed column is empty is
      the all-empty map. */
  lemma EmptyByColumns<O>(opts: seq<Option<O>>, columns: seq<nat>, m: map<nat, set<Key>>)
    requires ListsColumns(opts, columns)
    requires forall c :: c in m <==> IsCheckboxColumn(opts, c)
    requires forall j :: 0 <= j < |columns| ==> m[columns[j]] == {}
    ensures m == EmptyColumns(opts)
  {
    forall c | c in m
      ensures m[c] == {}
    {
      var j :| 0 <= j < |columns| && columns[j] == c;
    }
  }

  /** The loops that set every checkbox column's entry of a map back to `{}`. */
  method ClearColumns<O>(opts: seq<Option<O>>, columns: seq<nat>, m: map<nat, set<Key>>)
    returns (d: map<nat, set<Key>>)
    requires ListsColumns(opts, columns)
    requires forall c :: c in m <==> IsCheckboxColumn(opts, c)
    ensures d == EmptyColumns(opts)
  {
    d := m;
    var k := 0;
    while k < |columns|
      invariant 0 <= k <= |columns|
      invariant d.Keys == m.Keys
      invariant forall j :: 0 <= j < k ==> d[columns[j]] == {}
    {
      d := d[columns[k] := {}];
      k := k + 1;
    }
    EmptyByColumns(opts, columns, d);
  }

  /** The state computed for a "select all" control. */
  datatype SelectAll = SelectAll(isSelected: bool, isIndeterminate: bool)

  /** A cell index as the host library gives it. */
  datatype Cell = Cell(row: nat, col: nat)

  /** One step of a `column-rows` iterator: a column and the rows its
      selector modifiers select. */
  datatype ColumnRows = ColumnRows(col: nat, rows: seq<nat>)

  predicate HasCell(table: Table, cell: Cell)
  {
    cell.col < |table| && cell.row < |table[cell.col]|
  }

  predicate HasCells(table: Table, cells: seq<Cell>)
  {
    forall i :: 0 <= i < |cells| ==> HasCell(table, cells[i])
  }

  predicate HasRows(table: Table, col: nat, rows: seq<nat>)
  {
    col < |table| && forall i :: 0 <= i < |rows| ==> rows[i] < |table[col]|
  }

  predicate HasColumnRows(table: Table, items: seq<ColumnRows>)
  {
    forall i :: 0 <= i < |items| ==> HasRows(table, items[i].col, items[i].rows)
  }

  /** `cells.data()`: the data of the cells of `rows` in column `col`, in row order. */
  function CellsData(table: Table, col: nat, rows: seq<nat>): seq<Key>
    requires HasRows(table, col, rows)
  {
    seq(|rows|, i requires 0 <= i < |rows| => table[col][rows[i]])
  }

  /** Every row of column `col`: what `column(col)` selects without modifiers. */
  function AllRows(table: Table, col: nat): (rows: seq<nat>)
    requires col < |table|
    ensures HasRows(table, col, rows)
    ensures |rows| == |table[col]|
    ensures forall i :: 0 <= i < |rows| ==> rows[i] == i
  {
    seq(|table[col]|, i => i)
  }

  function SetOf(keys: seq<Key>): set<Key>
  {
    set k | k in keys
  }

  /** A key set after the keys `ks` were all inserted (`isSelected`) or all
      deleted: the effect of `obj[key] = 1` / `delete obj[key]` for each key. */
  function Updated(s: set<Key>, ks: set<Key>, isSelected: bool): (r: set<Key>)
    ensures forall k :: k in r <==> (if k in ks then isSelected else k in s)
  {
    if isSelected then s + ks else s - ks
  }

  /** Applying two updates in the same direction is one update with both key sets. */
  lemma UpdatedTwice(s: set<Key>, a: set<Key>, b: set<Key>, isSelected: bool)
    ensures Updated(Updated(s, a, isSelected), b, isSelected) == Updated(s, a + b, isSelected)
  {
  }

  /** Two updates in the same direction, each leaving the keys of `d` alone,
      are one update with the union of their keys. */
  lemma UpdatedStep(s0: set<Key>, s1: set<Key>, s2: set<Key>, a: set<Key>, b: set<Key>, d: set<Key>,
                    isSelected: bool)
    requires s1 == Updated(s0, a - d, isSelected)
    requires s2 == Updated(s1, b - d, isSelected)
    ensures s2 == Updated(s0, (a + b) - d, isSelected)
  {
  }

  lemma HasCellsPrefix(table: Table, cells: seq<Cell>, i: nat)
    requires HasCells(table, cells) && i <= |cells|
    ensures HasCells(table, cells[..i])
  {
    assert forall j :: 0 <= j < i ==> cells[..i][j] == cells[j];
  }

  lemma HasColumnRowsPrefix(table: Table, items: seq<ColumnRows>, i: nat)
    requires HasColumnRows(table, items) && i <= |items|
    ensures HasColumnRows(table, items[..i])
  {
    assert forall j :: 0 <= j < i ==> items[..i][j] == items[j];
  }

  /** Every column of `now` holds its key set in `start` updated with the keys
      of `cells` in that column that are not in `dis`. */
  ghost predicate CellsSelected(table: Table, cells: seq<Cell>, start: map<nat, set<Key>>,
                                now: map<nat, set<Key>>, dis: map<nat, set<Key>>, isSelected: bool)
  {
    HasCells(table, cells) && now.Keys == start.Keys && start.Keys <= dis.Keys &&
    forall c :: c in now ==> now[c] == Updated(start[c], CellKeys(table, cells, c) - dis[c], isSelected)
  }

  /** Every column of `now` holds its key set in `start` updated with the keys
      of `cells` in that column. */
  ghost predicate CellsToggled(table: Table, cells: seq<Cell>, start: map<nat, set<Key>>,
                               now: map<nat, set<Key>>, isSelected: bool)
  {
    HasCells(table, cells) && now.Keys == start.Keys &&
    forall c :: c in now ==> now[c] == Updated(start[c], CellKeys(table, cells, c), isSelected)
  }

  /** Every column of `now` holds its key set in `start` updated with the keys
      of the rows of the items of that column that are not in `dis`. */
  ghost predicate ColumnsSelected(table: Table, items: seq<ColumnRows>, start: map<nat, set<Key>>,
                                  now: map<nat, set<Key>>, dis: map<nat, set<Key>>, isSelected: bool)
  {
    HasColumnRows(table, items) && now.Keys == start.Keys && start.Keys <= dis.Keys &&
    forall c :: c in now ==> now[c] == Updated(start[c], ColumnKeys(table, items, c) - dis[c], isSelected)
  }

  /** A selection reached by `CellsSelected` has left every disabled key as it was. */
  lemma CellsSelectedKeepsDisabled(table: Table, cells: seq<Cell>, start: map<nat, set<Key>>,
                                   now: map<nat, set<Key>>, dis: map<nat, set<Key>>, isSelected: bool)
    requires CellsSelected(table, cells, start, now, dis, isSelected)
    ensures forall c, k :: c in now && k in dis[c] ==> (k in now[c] <==> k in start[c])
  {
  }

  /** A selection reached by `ColumnsSelected` has left every disabled key as it was. */
  lemma ColumnsSelectedKeepsDisabled(table: Table, items: seq<ColumnRows>, start: map<nat, set<Key>>,
                                     now: map<nat, set<Key>>, dis: map<nat, set<Key>>, isSelected: bool)
    requires ColumnsSelected(table, items, start, now, dis, isSelected)
    ensures forall c, k :: c in now && k in dis[c] ==> (k in now[c] <==> k in start[c])
  {
  }

  /** One step of a loop over `items`, seen from column `c`: an item of
      column `c` updates its key set with the keys of its rows outside `d`. */
  lemma ColumnRowsStepAt(table: Table, items: seq<ColumnRows>, i: nat, c: nat, s0: set<Key>, s1: set<Key>,
                         s2: set<Key>, d: set<Key>, isSelected: bool)
    requires HasColumnRows(table, items) && i < |items|
    requires HasColumnRows(table, items[..i]) && HasColumnRows(table, items[..i + 1])
    requires s1 == Updated(s0, ColumnKeys(table, items[..i], c) - d, isSelected)
    requires s2 == if items[i].col == c then Updated(s1, SetOf(CellsData(table, c, items[i].rows)) - d, isSelected) else s1
    ensures s2 == Updated(s0, ColumnKeys(table, items[..i + 1], c) - d, isSelected)
  {
    ColumnKeysStep(table, items, i, c);
    var b := if items[i].col == c then SetOf(CellsData(table, c, items[i].rows)) else {};
    UpdatedStep(s0, s1, s2, ColumnKeys(table, items[..i], c), b, d, isSelected);
  }

  /** One step of a loop over `items` that updates, for each item, the key set
      of its column with the keys of its rows, leaving the keys of `dis` alone:
      after the step every column holds the update by all items so far. */
  lemma ColumnRowsLoopStep(table: Table, items: seq<ColumnRows>, i: nat, start: map<nat, set<Key>>,
                           before: map<nat, set<Key>>, after: map<nat, set<Key>>, dis: map<nat, set<Key>>,
                           isSelected: bool)
    requires HasColumnRows(table, items) && i < |items|
    requires ColumnsSelected(table, items[..i], start, before, dis, isSelected)
    requires after == if items[i].col in before
      then before[items[i].col := Updated(before[items[i].col],
        SetOf(CellsData(table, items[i].col, items[i].rows)) - dis[items[i].col], isSelected)]
      else before
    ensures ColumnsSelected(table, items[..i + 1], start, after, dis, isSelected)
  {
    HasColumnRowsPrefix(table, items, i + 1);
    forall c | c in after
      ensures after[c] == Updated(start[c], ColumnKeys(table, items[..i + 1], c) - dis[c], isSelected)
    {
      ColumnRowsStepAt(table, items, i, c, start[c], before[c], after[c], dis[c], isSelected);
    }
  }

  /** One step of a loop over `cells`, seen from column `c`: a cell of column
      `c` whose key is outside `d` updates its key set with that key. */
  lemma CellsStepAt(table: Table, cells: seq<Cell>, i: nat, c: nat, s0: set<Key>, s1: set<Key>, s2: set<Key>,
                    d: set<Key>, isSelected: bool)
    requires HasCells(table, cells) && i < |cells|
    requires HasCells(table, cells[..i]) && HasCells(table, cells[..i + 1])
    requires s1 == Updated(s0, CellKeys(table, cells[..i], c) - d, isSelected)
    requires s2 == if cells[i].col == c && table[c][cells[i].row] !in d
      then Updated(s1, {table[c][cells[i].row]}, isSelected) else s1
    ensures s2 == Updated(s0, CellKeys(table, cells[..i + 1], c) - d, isSelected)
  {
    CellKeysStep(table, cells, i, c);
    var b := if cells[i].col == c then {table[c][cells[i].row]} else {};
    UpdatedStep(s0, s1, s2, CellKeys(table, cells[..i], c), b, d, isSelected);
  }

  /** One step of a loop over `cells` that updates the key set of the cell's
      column with the cell's key, unless that key is in `dis`. */
  lemma CellsLoopStep(table: Table, cells: seq<Cell>, i: nat, start: map<nat, set<Key>>,
                      before: map<nat, set<Key>>, after: map<nat, set<Key>>, dis: map<nat, set<Key>>,
                      isSelected: bool)
    requires HasCells(table, cells) && i < |cells|
    requires CellsSelected(table, cells[..i], start, before, dis, isSelected)
    requires after == if cells[i].col in before && table[cells[i].col][cells[i].row] !in dis[cells[i].col]
      then before[cells[i].col := Updated(before[cells[i].col], {table[cells[i].col][cells[i].row]}, isSelected)]
      else before
    ensures CellsSelected(table, cells[..i + 1], start, after, dis, isSelected)
  {
    HasCellsPrefix(table, cells, i + 1);
    forall c | c in after
      ensures after[c] == Updated(start[c], CellKeys(table, cells[..i + 1], c) - dis[c], isSelected)
    {
      CellsStepAt(table, cells, i, c, start[c], before[c], after[c], dis[c], isSelected);
    }
  }

  /** One step of a loop over `cells` that updates the key set of the cell's
      column with the cell's key. */
  lemma CellsLoopStepAll(table: Table, cells: seq<Cell>, i: nat, start: map<nat, set<Key>>,
                         before: map<nat, set<Key>>, after: map<nat, set<Key>>, isSelected: bool)
    requires HasCells(table, cells) && i < |cells|
    requires CellsToggled(table, cells[..i], start, before, isSelected)
    requires after == if cells[i].col in before
      then before[cells[i].col := Updated(before[cells[i].col], {table[cells[i].col][cells[i].row]}, isSelected)]
      else before
    ensures CellsToggled(table, cells[..i + 1], start, after, isSelected)
  {
    HasCellsPrefix(table, cells, i + 1);
    forall c | c in after
      ensures after[c] == Updated(start[c], CellKeys(table, cells[..i + 1], c), isSelected)
    {
      CellKeysStep(table, cells, i, c);
      UpdatedTwice(start[c], CellKeys(table, cells[..i], c), if cells[i].col == c then {table[c][cells[i].row]} else {},
                   isSelected);
    }
  }

  predicate NoDuplicates(s: seq<Key>)
  {
    forall i, j :: 0 <= i < j < |s| ==> s[i] != s[j]
  }

  /** The keys of `cells` that lie in column `col`. */
  function CellKeys(table: Table, cells: seq<Cell>, col: nat): (ks: set<Key>)
    requires HasCells(table, cells)
    ensures forall k :: k in ks <==>
      exists i :: 0 <= i < |cells| && cells[i].col == col && table[col][cells[i].row] == k
  {
    if cells == [] then {}
    else
      var last := cells[|cells| - 1];
      var front := cells[..|cells| - 1];
      assert forall i :: 0 <= i < |front| ==> front[i] == cells[i];
      CellKeys(table, front, col) + (if last.col == col then {table[col][last.row]} else {})
  }

  /** The keys of the rows of every item of `items` that names column `col`. */
  function ColumnKeys(table: Table, items: seq<ColumnRows>, col: nat): (ks: set<Key>)
    requires HasColumnRows(table, items)
    ensures forall k :: k in ks <==>
      exists i :: 0 <= i < |items| && items[i].col == col && k in CellsData(table, col, items[i].rows)
  {
    if items == [] then {}
    else
      var last := items[|items| - 1];
      var front := items[..|items| - 1];
      assert forall i :: 0 <= i < |front| ==> front[i] == items[i];
      ColumnKeys(table, front, col) + (if last.col == col then SetOf(CellsData(table, col, last.rows)) else {})
  }

  /** Extending a prefix of `cells` by one cell adds that cell's key (if in `col`). */
  lemma CellKeysStep(table: Table, cells: seq<Cell>, i: nat, col: nat)
    requires HasCells(table, cells) && i < |cells|
    ensures CellKeys(table, cells[..i + 1], col) ==
      CellKeys(table, cells[..i], col) + (if cells[i].col == col then {table[col][cells[i].row]} else {})
  {
    assert cells[..i + 1][..i] == cells[..i];
  }

  lemma ColumnKeysStep(table: Table, items: seq<ColumnRows>, i: nat, col: nat)
    requires HasColumnRows(table, items) && i < |items|
    ensures ColumnKeys(table, items[..i + 1], col) ==
      ColumnKeys(table, items[..i], col) + (if items[i].col == col then SetOf(CellsData(table, col, items[i].rows)) else {})
  {
    assert items[..i + 1][..i] == items[..i];
  }
}
