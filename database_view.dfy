/** The table state engine (src/components/DatabaseView.tsx): every operation
  * builds a new `Database` from the old one. The caller stores the result;
  * fresh row and column ids are passed in rather than read from the clock. */
module DatabaseView {
  import opened Types
  import opened Seqs

  function ColumnIds(columns: seq<Column>): seq<string> { Keys(columns, ColumnKey) }
  function RowIds(rows: seq<Row>): seq<string> { Keys(rows, RowKey) }
  function CellColumnIds(cells: seq<Cell>): seq<string> { Keys(cells, CellKey) }

  /** A default cell value can be read from the column: a status column that
    * has its options field must have a first option (an empty list would make
    * `statusOptions[0].id` throw). */
  predicate HasDefault(col: Column) {
    col.fieldType == Status && col.statusOptions.Some? ==> |col.statusOptions.value| > 0
  }

  predicate AllHaveDefaults(columns: seq<Column>) {
    forall i :: 0 <= i < |columns| ==> HasDefault(columns[i])
  }

  /** The row holds exactly one cell per column and no other cell, in any order. */
  predicate RowFits(row: Row, columns: seq<Column>) {
    multiset(CellColumnIds(row.cells)) == multiset(ColumnIds(columns))
  }

  /** The shape of a table: distinct column and row ids, and every row fits the columns. */
  predicate Shaped(db: Database) {
    && Distinct(ColumnIds(db.columns))
    && Distinct(RowIds(db.rows))
    && forall i :: 0 <= i < |db.rows| ==> RowFits(db.rows[i], db.columns)
  }

  /** The invariant of a table: its shape, and a usable default for every column. */
  predicate WellFormed(db: Database) {
    Shaped(db) && AllHaveDefaults(db.columns)
  }

  /** The value a new cell of `col` starts with. */
  function DefaultValue(col: Column): (v: CellValue)
    requires HasDefault(col)
    ensures col.fieldType == Status && col.statusOptions.Some? ==> v.Str? && v.s in Keys(col.statusOptions.value, OptionKey)
    ensures col.fieldType != Status || col.statusOptions.None? ==> v == Str("")
  {
    if col.fieldType == Status && col.statusOptions.Some? then Str(col.statusOptions.value[0].id) else Str("")
  }

  /** The row `addRow` creates: one default cell per column, in column order. */
  function NewRow(columns: seq<Column>, rowId: string): (row: Row)
    requires AllHaveDefaults(columns)
    ensures row.id == rowId
    ensures CellColumnIds(row.cells) == ColumnIds(columns)
    ensures forall i :: 0 <= i < |columns| ==> row.cells[i].value == DefaultValue(columns[i])
  {
    Row(rowId, seq(|columns|, i requires 0 <= i < |columns| => Cell(columns[i].id, DefaultValue(columns[i]))))
  }

  function AddRow(db: Database, rowId: string): (r: Database)
    requires AllHaveDefaults(db.columns)
    ensures r.columns == db.columns
    ensures |r.rows| == |db.rows| + 1 && r.rows[..|db.rows|] == db.rows
    ensures r.rows[|db.rows|] == NewRow(db.columns, rowId)
  {
    db.(rows := db.rows + [NewRow(db.columns, rowId)])
  }

  function DeleteRow(db: Database, rowId: string): (r: Database)
    ensures r.columns == db.columns
    ensures forall row :: row in r.rows <==> row in db.rows && row.id != rowId
  {
    db.(rows := RemoveKey(db.rows, RowKey, rowId))
  }

  /** The row with the value of every cell of column `columnId` replaced. */
  function SetCellValue(row: Row, columnId: string, value: CellValue): (r: Row)
    ensures r.id == row.id
    ensures CellColumnIds(r.cells) == CellColumnIds(row.cells)
    ensures forall j :: 0 <= j < |row.cells| && row.cells[j].columnId != columnId ==> r.cells[j] == row.cells[j]
    ensures forall j :: 0 <= j < |row.cells| && row.cells[j].columnId == columnId ==> r.cells[j].value == value
  {
    row.(cells := seq(|row.cells|, j requires 0 <= j < |row.cells| =>
      if row.cells[j].columnId == columnId then row.cells[j].(value := value) else row.cells[j]))
  }

  function UpdateCell(db: Database, rowId: string, columnId: string, value: CellValue): (r: Database)
    ensures r.columns == db.columns
    ensures RowIds(r.rows) == RowIds(db.rows)
    ensures forall i :: 0 <= i < |db.rows| ==> CellColumnIds(r.rows[i].cells) == CellColumnIds(db.rows[i].cells)
    ensures forall i :: 0 <= i < |db.rows| && db.rows[i].id != rowId ==> r.rows[i] == db.rows[i]
  {
    db.(rows := seq(|db.rows|, i requires 0 <= i < |db.rows| =>
      if db.rows[i].id == rowId then SetCellValue(db.rows[i], columnId, value) else db.rows[i]))
  }

  /** The default is read only while filling in existing rows, so a table with
    * no rows accepts any column. */
  function AddColumn(db: Database, column: Column, columnId: string): (r: Database)
    requires |db.rows| > 0 ==> HasDefault(column)
    ensures r.columns == db.columns + [column.(id := columnId)]
    ensures RowIds(r.rows) == RowIds(db.rows)
    ensures forall i :: 0 <= i < |db.rows| ==> r.rows[i].cells == db.rows[i].cells + [Cell(columnId, DefaultValue(column))]
  {
    var newColumn := column.(id := columnId);
    Database(db.columns + [newColumn],
             seq(|db.rows|, i requires 0 <= i < |db.rows| =>
               db.rows[i].(cells := db.rows[i].cells + [Cell(columnId, DefaultValue(newColumn))])))
  }

  function UpdateColumn(db: Database, updated: Column): (r: Database)
    ensures r.rows == db.rows
    ensures ColumnIds(r.columns) == ColumnIds(db.columns)
    ensures forall i :: 0 <= i < |db.columns| && db.columns[i].id != updated.id ==> r.columns[i] == db.columns[i]
    ensures forall i :: 0 <= i < |db.columns| && db.columns[i].id == updated.id ==> r.columns[i] == updated
  {
    db.(columns := seq(|db.columns|, i requires 0 <= i < |db.columns| =>
      if db.columns[i].id == updated.id then updated else db.columns[i]))
  }

  function DeleteColumn(db: Database, columnId: string): (r: Database)
    ensures forall col :: col in r.columns <==> col in db.columns && col.id != columnId
    ensures RowIds(r.rows) == RowIds(db.rows)
    ensures forall i :: 0 <= i < |db.rows| ==>
              forall c :: c in r.rows[i].cells <==> c in db.rows[i].cells && c.columnId != columnId
  {
    Database(RemoveKey(db.columns, ColumnKey, columnId),
             seq(|db.rows|, i requires 0 <= i < |db.rows| =>
               db.rows[i].(cells := RemoveKey(db.rows[i].cells, CellKey, columnId))))
  }

  /** The position of the first cell of column `columnId` (the `find` of the source). */
  function FindCell(cells: seq<Cell>, columnId: string): (r: Option<nat>)
    ensures r.Some? ==> r.value < |cells| && cells[r.value].columnId == columnId
    ensures r.Some? ==> forall j :: 0 <= j < r.value ==> cells[j].columnId != columnId
    ensures r.None? ==> forall j :: 0 <= j < |cells| ==> cells[j].columnId != columnId
  {
    if cells == [] then None
    else if cells[0].columnId == columnId then Some(0)
    else match FindCell(cells[1..], columnId)
         case None => None
         case Some(j) => Some(j + 1)
  }

  /** The value of the first cell of column `columnId`, or null when there is none. */
  function GetCellValue(row: Row, columnId: string): (v: CellValue)
    ensures columnId !in CellColumnIds(row.cells) ==> v == Null
  {
    match FindCell(row.cells, columnId)
    case None => Null
    case Some(j) => row.cells[j].value
  }

  // ---------------------------------------------------------------------------
  // Looking cells up

  /** The first cell of a column is the one the lookup finds. */
  lemma FindCellFirst(cells: seq<Cell>, columnId: string, i: nat)
    requires i < |cells| && cells[i].columnId == columnId
    requires forall j :: 0 <= j < i ==> cells[j].columnId != columnId
    ensures FindCell(cells, columnId) == Some(i)
  {
  }

  /** With distinct column ids among the cells, each cell is the one found for its column. */
  lemma FindCellDistinct(cells: seq<Cell>, j: nat)
    requires Distinct(CellColumnIds(cells)) && j < |cells|
    ensures FindCell(cells, cells[j].columnId) == Some(j)
  {
    var ids := CellColumnIds(cells);
    assert forall k :: 0 <= k < j ==> cells[k].columnId == ids[k] != ids[j];
    FindCellFirst(cells, cells[j].columnId, j);
  }

  /** The lookup depends only on the columns of the cells, not on their values. */
  lemma FindCellSameKeys(a: seq<Cell>, b: seq<Cell>, columnId: string)
    requires CellColumnIds(a) == CellColumnIds(b)
    ensures FindCell(a, columnId) == FindCell(b, columnId)
  {
    assert forall j :: 0 <= j < |a| ==> a[j].columnId == CellColumnIds(a)[j] == b[j].columnId;
    match FindCell(a, columnId)
    case Some(i) => FindCellFirst(b, columnId, i);
    case None => assert forall j :: 0 <= j < |b| ==> b[j].columnId != columnId;
  }

  /** Looking up in a row with one more cell at the end. */
  lemma FindCellAppend(cells: seq<Cell>, x: Cell, columnId: string)
    ensures FindCell(cells + [x], columnId) ==
            if columnId in CellColumnIds(cells) then FindCell(cells, columnId)
            else if x.columnId == columnId then Some(|cells|) else None
  {
    var s := cells + [x];
    var ids := CellColumnIds(cells);
    assert forall j :: 0 <= j < |cells| ==> s[j] == cells[j] && cells[j].columnId == ids[j];
    if columnId in ids {
      var k :| 0 <= k < |ids| && ids[k] == columnId;
      assert cells[k].columnId == columnId;
      var g := FindCell(cells, columnId);
      FindCellFirst(s, columnId, g.value);
    } else if x.columnId == columnId {
      FindCellFirst(s, columnId, |cells|);
    } else {
      assert forall j :: 0 <= j < |s| ==> s[j].columnId != columnId;
    }
  }

  /** Dropping the cells of another column does not change what a lookup finds. */
  lemma {:induction false} GetCellValueRemoveKey(row: Row, k: string, columnId: string)
    requires columnId != k
    ensures GetCellValue(row.(cells := RemoveKey(row.cells, CellKey, k)), columnId) == GetCellValue(row, columnId)
    decreases |row.cells|
  {
    var cells := row.cells;
    if cells != [] {
      var tail := row.(cells := cells[1..]);
      GetCellValueRemoveKey(tail, k, columnId);
      var rest := RemoveKey(cells[1..], CellKey, k);
      if cells[0].columnId != columnId {
        if CellKey(cells[0]) != k {
          assert RemoveKey(cells, CellKey, k) == [cells[0]] + rest;
          assert ([cells[0]] + rest)[1..] == rest;
        }
      } else {
        assert RemoveKey(cells, CellKey, k) == [cells[0]] + rest;
      }
    }
  }

  // ---------------------------------------------------------------------------
  // The invariant

  /** In a well-formed table every row has exactly one cell for each column and
    * only cells of columns, and `getCellValue` reads that one cell. */
  lemma WellFormedLookup(db: Database, i: nat, k: nat)
    requires WellFormed(db) && i < |db.rows| && k < |db.columns|
    ensures multiset(CellColumnIds(db.rows[i].cells))[db.columns[k].id] == 1
    ensures forall c :: c in db.rows[i].cells ==> c.columnId in ColumnIds(db.columns)
    ensures exists j :: 0 <= j < |db.rows[i].cells| && db.rows[i].cells[j].columnId == db.columns[k].id
                     && GetCellValue(db.rows[i], db.columns[k].id) == db.rows[i].cells[j].value
  {
    var ids, cellIds := ColumnIds(db.columns), CellColumnIds(db.rows[i].cells);
    var id := db.columns[k].id;
    assert RowFits(db.rows[i], db.columns);
    DistinctCount(ids, k);
    forall c | c in db.rows[i].cells ensures c.columnId in ids {
      var j :| 0 <= j < |db.rows[i].cells| && db.rows[i].cells[j] == c;
      assert cellIds[j] == c.columnId;
      assert c.columnId in multiset(cellIds);
    }
    assert id in multiset(cellIds);
    var j :| 0 <= j < |cellIds| && cellIds[j] == id;
    assert db.rows[i].cells[j].columnId == id;
    var f := FindCell(db.rows[i].cells, id);
    assert f.Some?;
    assert db.rows[i].cells[f.value].columnId == id;
  }

  lemma DistinctCount(s: seq<string>, k: nat)
    requires Distinct(s) && k < |s|
    ensures multiset(s)[s[k]] == 1
  {
    assert s == s[..k] + [s[k]] + s[k + 1..];
    assert s[k] !in s[..k];
    assert s[k] !in s[k + 1..];
    assert multiset(s) == multiset(s[..k]) + multiset{s[k]} + multiset(s[k + 1..]);
  }

  lemma {:induction false} AddRowPreservesWellFormed(db: Database, rowId: string)
    requires WellFormed(db) && rowId !in RowIds(db.rows)
    ensures WellFormed(AddRow(db, rowId))
  {
    var r := AddRow(db, rowId);
    KeysAppend(db.rows, [NewRow(db.columns, rowId)], RowKey);
    assert RowIds(r.rows) == RowIds(db.rows) + [rowId];
    forall i | 0 <= i < |r.rows| ensures RowFits(r.rows[i], r.columns) {
      if i < |db.rows| { assert r.rows[i] == db.rows[i]; }
    }
  }

  lemma {:induction false} DeleteRowPreservesWellFormed(db: Database, rowId: string)
    requires WellFormed(db)
    ensures WellFormed(DeleteRow(db, rowId))
  {
    var r := DeleteRow(db, rowId);
    RemoveKeyDistinct(db.rows, RowKey, rowId);
    forall i | 0 <= i < |r.rows| ensures RowFits(r.rows[i], r.columns) {
      assert r.rows[i] in r.rows;
      var j :| 0 <= j < |db.rows| && db.rows[j] == r.rows[i];
    }
  }

  lemma UpdateCellPreservesWellFormed(db: Database, rowId: string, columnId: string, value: CellValue)
    requires WellFormed(db)
    ensures WellFormed(UpdateCell(db, rowId, columnId, value))
  {
  }

  /** Adding a column under a fresh id keeps the table's shape, whatever the
    * column's options; a table without rows accepts even a column with none. */
  lemma {:induction false} AddColumnKeepsShape(db: Database, column: Column, columnId: string)
    requires Shaped(db) && (|db.rows| > 0 ==> HasDefault(column)) && columnId !in ColumnIds(db.columns)
    ensures Shaped(AddColumn(db, column, columnId))
  {
    var r := AddColumn(db, column, columnId);
    var newColumn := column.(id := columnId);
    KeysAppend(db.columns, [newColumn], ColumnKey);
    assert ColumnIds(r.columns) == ColumnIds(db.columns) + [columnId];
    forall i | 0 <= i < |r.rows| ensures RowFits(r.rows[i], r.columns) {
      var cell := Cell(columnId, DefaultValue(column));
      KeysAppend(db.rows[i].cells, [cell], CellKey);
      assert RowFits(db.rows[i], db.columns);
    }
  }

  lemma AddColumnPreservesWellFormed(db: Database, column: Column, columnId: string)
    requires WellFormed(db) && HasDefault(column) && columnId !in ColumnIds(db.columns)
    ensures WellFormed(AddColumn(db, column, columnId))
  {
    AddColumnKeepsShape(db, column, columnId);
    var r := AddColumn(db, column, columnId);
    assert forall i :: 0 <= i < |db.columns| ==> r.columns[i] == db.columns[i];
  }

  /** Replacing a column never changes the table's shape, whatever its options. */
  lemma UpdateColumnKeepsShape(db: Database, updated: Column)
    requires Shaped(db)
    ensures Shaped(UpdateColumn(db, updated))
  {
  }

  lemma UpdateColumnPreservesWellFormed(db: Database, updated: Column)
    requires WellFormed(db) && HasDefault(updated)
    ensures WellFormed(UpdateColumn(db, updated))
  {
  }

  lemma {:induction false} DeleteColumnPreservesWellFormed(db: Database, columnId: string)
    requires WellFormed(db)
    ensures WellFormed(DeleteColumn(db, columnId))
  {
    var r := DeleteColumn(db, columnId);
    RemoveKeyDistinct(db.columns, ColumnKey, columnId);
    RemoveKeyKeys(db.columns, ColumnKey, columnId);
    forall i | 0 <= i < |r.rows| ensures RowFits(r.rows[i], r.columns) {
      RemoveKeyKeys(db.rows[i].cells, CellKey, columnId);
      assert RowFits(db.rows[i], db.columns);
    }
    forall i | 0 <= i < |r.columns| ensures HasDefault(r.columns[i]) {
      assert r.columns[i] in r.columns;
      var j :| 0 <= j < |db.columns| && db.columns[j] == r.columns[i];
    }
  }

  // ---------------------------------------------------------------------------
  // Rows

  /** The row `addRow` appends takes, in each column, the id of the column's
    * first status option for a status column that has options, else ''. */
  lemma AddRowDefaults(db: Database, rowId: string, k: nat)
    requires AllHaveDefaults(db.columns) && Distinct(ColumnIds(db.columns)) && k < |db.columns|
    ensures var col := db.columns[k];
            GetCellValue(AddRow(db, rowId).rows[|db.rows|], col.id) ==
            if col.fieldType == Status && col.statusOptions.Some? then Str(col.statusOptions.value[0].id) else Str("")
  {
    var row := NewRow(db.columns, rowId);
    assert row.cells[k].columnId == ColumnIds(db.columns)[k];
    FindCellDistinct(row.cells, k);
  }

  lemma DeleteRowIdempotent(db: Database, rowId: string)
    ensures DeleteRow(DeleteRow(db, rowId), rowId) == DeleteRow(db, rowId)
  {
    RemoveKeyIdempotent(db.rows, RowKey, rowId);
  }

  /** Deleting a row id that is not there changes nothing. */
  lemma DeleteRowAbsent(db: Database, rowId: string)
    requires rowId !in RowIds(db.rows)
    ensures DeleteRow(db, rowId) == db
  {
    RemoveKeyAbsent(db.rows, RowKey, rowId);
  }

  /** With distinct row ids, deleting a present row removes exactly one row. */
  lemma DeleteRowRemovesOne(db: Database, rowId: string)
    requires Distinct(RowIds(db.rows)) && rowId in RowIds(db.rows)
    ensures |DeleteRow(db, rowId).rows| == |db.rows| - 1
  {
    RemoveKeyOne(db.rows, RowKey, rowId);
  }

  /** Deleting a freshly added row gives back the table it was added to. */
  lemma AddRowThenDeleteRow(db: Database, rowId: string)
    requires AllHaveDefaults(db.columns) && rowId !in RowIds(db.rows)
    ensures DeleteRow(AddRow(db, rowId), rowId) == db
  {
    var row := NewRow(db.columns, rowId);
    RemoveKeyAppend(db.rows, [row], RowKey, rowId);
    RemoveKeyAbsent(db.rows, RowKey, rowId);
    assert RemoveKey([row], RowKey, rowId) == [];
  }

  // ---------------------------------------------------------------------------
  // Cells

  /** Reading a cell after a write to it gives the written value; every other
    * read is unchanged. */
  lemma SetCellValueReadBack(row: Row, columnId: string, value: CellValue, c: string)
    ensures GetCellValue(SetCellValue(row, columnId, value), c) ==
            if c == columnId && columnId in CellColumnIds(row.cells) then value else GetCellValue(row, c)
  {
    var r := SetCellValue(row, columnId, value);
    FindCellSameKeys(row.cells, r.cells, c);
  }

  lemma UpdateCellReadBack(db: Database, rowId: string, columnId: string, value: CellValue, i: nat, c: string)
    requires i < |db.rows|
    ensures GetCellValue(UpdateCell(db, rowId, columnId, value).rows[i], c) ==
            if db.rows[i].id == rowId && c == columnId && columnId in CellColumnIds(db.rows[i].cells) then value
            else GetCellValue(db.rows[i], c)
  {
    if db.rows[i].id == rowId {
      SetCellValueReadBack(db.rows[i], columnId, value, c);
    }
  }

  /** An unknown row, or a column the row has no cell for, leaves the table as it was. */
  lemma UpdateCellUnknown(db: Database, rowId: string, columnId: string, value: CellValue)
    requires forall i :: 0 <= i < |db.rows| && db.rows[i].id == rowId ==> columnId !in CellColumnIds(db.rows[i].cells)
    ensures UpdateCell(db, rowId, columnId, value) == db
  {
    var r := UpdateCell(db, rowId, columnId, value);
    forall i | 0 <= i < |db.rows| ensures r.rows[i] == db.rows[i] {
      if db.rows[i].id == rowId {
        var row := db.rows[i];
        forall j | 0 <= j < |row.cells| ensures r.rows[i].cells[j] == row.cells[j] {
          assert CellColumnIds(row.cells)[j] == row.cells[j].columnId;
        }
      }
    }
  }

  /** Of two writes to the same cell the second one wins. */
  lemma UpdateCellLastWins(db: Database, rowId: string, columnId: string, v1: CellValue, v2: CellValue)
    ensures UpdateCell(UpdateCell(db, rowId, columnId, v1), rowId, columnId, v2) == UpdateCell(db, rowId, columnId, v2)
  {
    var a, b := UpdateCell(UpdateCell(db, rowId, columnId, v1), rowId, columnId, v2), UpdateCell(db, rowId, columnId, v2);
    forall i | 0 <= i < |db.rows| ensures a.rows[i] == b.rows[i] {
      if db.rows[i].id == rowId {
        assert a.rows[i].cells == b.rows[i].cells;
      }
    }
  }

  /** Writing to a cell of a freshly added row: that cell reads back the value
    * and the earlier rows are untouched. */
  lemma AddRowThenUpdateCell(db: Database, rowId: string, k: nat, value: CellValue)
    requires WellFormed(db) && rowId !in RowIds(db.rows) && k < |db.columns|
    ensures var r := UpdateCell(AddRow(db, rowId), rowId, db.columns[k].id, value);
            && |r.rows| == |db.rows| + 1
            && r.rows[..|db.rows|] == db.rows
            && GetCellValue(r.rows[|db.rows|], db.columns[k].id) == value
  {
    var added := AddRow(db, rowId);
    var n := |db.rows|;
    var r := UpdateCell(added, rowId, db.columns[k].id, value);
    forall i | 0 <= i < n ensures r.rows[i] == db.rows[i] {
      assert RowIds(db.rows)[i] == db.rows[i].id;
      assert added.rows[i] == db.rows[i];
    }
    assert r.rows[..n] == db.rows;
    assert CellColumnIds(added.rows[n].cells)[k] == db.columns[k].id;
    UpdateCellReadBack(added, rowId, db.columns[k].id, value, n, db.columns[k].id);
  }

  // ---------------------------------------------------------------------------
  // Columns

  /** After `addColumn` every row reads the default value in the new column and
    * the same value as before in every other column. */
  lemma AddColumnReadBack(db: Database, column: Column, columnId: string, i: nat, c: string)
    requires WellFormed(db) && HasDefault(column) && columnId !in ColumnIds(db.columns) && i < |db.rows|
    ensures GetCellValue(AddColumn(db, column, columnId).rows[i], c) ==
            if c == columnId then DefaultValue(column) else GetCellValue(db.rows[i], c)
  {
    var cells := db.rows[i].cells;
    assert RowFits(db.rows[i], db.columns);
    assert columnId !in multiset(ColumnIds(db.columns));
    assert columnId !in CellColumnIds(cells);
    FindCellAppend(cells, Cell(columnId, DefaultValue(column)), c);
  }

  /** Deleting a freshly added column gives back the table it was added to. */
  lemma AddColumnThenDeleteColumn(db: Database, column: Column, columnId: string)
    requires WellFormed(db) && HasDefault(column) && columnId !in ColumnIds(db.columns)
    ensures DeleteColumn(AddColumn(db, column, columnId), columnId) == db
  {
    var added := AddColumn(db, column, columnId);
    var r := DeleteColumn(added, columnId);
    RemoveKeyAppend(db.columns, [column.(id := columnId)], ColumnKey, columnId);
    RemoveKeyAbsent(db.columns, ColumnKey, columnId);
    assert RemoveKey([column.(id := columnId)], ColumnKey, columnId) == [];
    forall i | 0 <= i < |db.rows| ensures r.rows[i] == db.rows[i] {
      var cells := db.rows[i].cells;
      var cell := Cell(columnId, DefaultValue(column));
      assert RowFits(db.rows[i], db.columns);
      assert columnId !in multiset(ColumnIds(db.columns));
      RemoveKeyAppend(cells, [cell], CellKey, columnId);
      RemoveKeyAbsent(cells, CellKey, columnId);
      assert RemoveKey([cell], CellKey, columnId) == [];
    }
  }

  /** Updating a column whose id is not in the table changes nothing. */
  lemma UpdateColumnAbsent(db: Database, updated: Column)
    requires updated.id !in ColumnIds(db.columns)
    ensures UpdateColumn(db, updated) == db
  {
    var r := UpdateColumn(db, updated);
    forall i | 0 <= i < |db.columns| ensures r.columns[i] == db.columns[i] {
      assert ColumnIds(db.columns)[i] == db.columns[i].id;
    }
  }

  lemma DeleteColumnIdempotent(db: Database, columnId: string)
    ensures DeleteColumn(DeleteColumn(db, columnId), columnId) == DeleteColumn(db, columnId)
  {
    var once := DeleteColumn(db, columnId);
    RemoveKeyIdempotent(db.columns, ColumnKey, columnId);
    forall i | 0 <= i < |db.rows| ensures DeleteColumn(once, columnId).rows[i] == once.rows[i] {
      RemoveKeyIdempotent(db.rows[i].cells, CellKey, columnId);
    }
  }

  /** In a well-formed table, deleting a column id that is not there changes nothing. */
  lemma DeleteColumnAbsent(db: Database, columnId: string)
    requires WellFormed(db) && columnId !in ColumnIds(db.columns)
    ensures DeleteColumn(db, columnId) == db
  {
    var r := DeleteColumn(db, columnId);
    RemoveKeyAbsent(db.columns, ColumnKey, columnId);
    forall i | 0 <= i < |db.rows| ensures r.rows[i] == db.rows[i] {
      assert RowFits(db.rows[i], db.columns);
      assert columnId !in multiset(ColumnIds(db.columns));
      RemoveKeyAbsent(db.rows[i].cells, CellKey, columnId);
    }
  }

  /** After `deleteColumn` the deleted column reads null in every row and every
    * other column reads what it read before. */
  lemma DeleteColumnReadBack(db: Database, columnId: string, i: nat, c: string)
    requires i < |db.rows|
    ensures GetCellValue(DeleteColumn(db, columnId).rows[i], c) ==
            if c == columnId then Null else GetCellValue(db.rows[i], c)
  {
    var r := DeleteColumn(db, columnId);
    if c == columnId {
      forall j | 0 <= j < |r.rows[i].cells| ensures r.rows[i].cells[j].columnId != c {
        assert r.rows[i].cells[j] in r.rows[i].cells;
      }
    } else {
      GetCellValueRemoveKey(db.rows[i], columnId, c);
    }
  }

  // ---------------------------------------------------------------------------
  // Sequences of operations

  /** One user action on the table, with the fresh id its `Date.now()` would give. */
  datatype Action =
    | AddRowAction(rowId: string)
    | DeleteRowAction(rowId: string)
    | UpdateCellAction(rowId: string, columnId: string, value: CellValue)
    | AddColumnAction(column: Column, columnId: string)
    | UpdateColumnAction(updated: Column)
    | DeleteColumnAction(columnId: string)

  /** The action keeps the table invariant: the ids it adds are fresh, and every
    * column it adds or stores has a usable default. For `addRow` and for
    * `addColumn` on a table with rows this is also what keeps the source from
    * throwing; `updateColumn` never throws, and the condition only keeps
    * `AllHaveDefaults`. */
  predicate Allowed(db: Database, a: Action) {
    match a
    case AddRowAction(rowId) => AllHaveDefaults(db.columns) && rowId !in RowIds(db.rows)
    case AddColumnAction(column, columnId) => HasDefault(column) && columnId !in ColumnIds(db.columns)
    case UpdateColumnAction(updated) => HasDefault(updated)
    case _ => true
  }

  function Step(db: Database, a: Action): Database
    requires Allowed(db, a)
  {
    match a
    case AddRowAction(rowId) => AddRow(db, rowId)
    case DeleteRowAction(rowId) => DeleteRow(db, rowId)
    case UpdateCellAction(rowId, columnId, value) => UpdateCell(db, rowId, columnId, value)
    case AddColumnAction(column, columnId) => AddColumn(db, column, columnId)
    case UpdateColumnAction(updated) => UpdateColumn(db, updated)
    case DeleteColumnAction(columnId) => DeleteColumn(db, columnId)
  }

  predicate AllowedRun(db: Database, actions: seq<Action>)
    decreases |actions|
  {
    actions == [] || (Allowed(db, actions[0]) && AllowedRun(Step(db, actions[0]), actions[1..]))
  }

  function Run(db: Database, actions: seq<Action>): Database
    requires AllowedRun(db, actions)
    decreases |actions|
  {
    if actions == [] then db else Run(Step(db, actions[0]), actions[1..])
  }

  lemma StepPreservesWellFormed(db: Database, a: Action)
    requires WellFormed(db) && Allowed(db, a)
    ensures WellFormed(Step(db, a))
  {
    match a
    case AddRowAction(rowId) => AddRowPreservesWellFormed(db, rowId);
    case DeleteRowAction(rowId) => DeleteRowPreservesWellFormed(db, rowId);
    case UpdateCellAction(rowId, columnId, value) => UpdateCellPreservesWellFormed(db, rowId, columnId, value);
    case AddColumnAction(column, columnId) => AddColumnPreservesWellFormed(db, column, columnId);
    case UpdateColumnAction(updated) => UpdateColumnPreservesWellFormed(db, updated);
    case DeleteColumnAction(columnId) => DeleteColumnPreservesWellFormed(db, columnId);
  }

  /** Every table reachable from the empty one is well formed. */
  lemma {:induction false} ReachableWellFormed(actions: seq<Action>)
    requires AllowedRun(Database([], []), actions)
    ensures WellFormed(Run(Database([], []), actions))
  {
    RunPreservesWellFormed(Database([], []), actions);
  }

  lemma {:induction false} RunPreservesWellFormed(db: Database, actions: seq<Action>)
    requires WellFormed(db) && AllowedRun(db, actions)
    ensures WellFormed(Run(db, actions))
    decreases |actions|
  {
    if actions != [] {
      StepPreservesWellFormed(db, actions[0]);
      RunPreservesWellFormed(Step(db, actions[0]), actions[1..]);
    }
  }
}
