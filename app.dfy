/** The table the application starts with (src/App.tsx), and worked
  * scenarios of the table operations on small concrete tables. */
module App {
  import opened Types
  import opened DatabaseView

  const StatusOptions: seq<StatusOption> := [
    StatusOption("opt1", "Not Started", "#e9e9e7"),
    StatusOption("opt2", "In Progress", "#f7dd72"),
    StatusOption("opt3", "Done", "#4caf50")
  ]

  const PriorityOptions: seq<StatusOption> := [
    StatusOption("p1", "Low", "#90caf9"),
    StatusOption("p2", "Medium", "#ffb74d"),
    StatusOption("p3", "High", "#f06292")
  ]

  const InitialDatabase: Database := Database(
    [ Column("col1", "Task", Text, None),
      Column("col2", "Status", Status, Some(StatusOptions)),
      Column("col3", "Priority", Status, Some(PriorityOptions)),
      Column("col4", "Assignee", Text, None) ],
    [ Row("row1", [Cell("col1", Str("Setup project")), Cell("col2", Str("opt3")),
                   Cell("col3", Str("p2")), Cell("col4", Str(""))]),
      Row("row2", [Cell("col1", Str("Design database")), Cell("col2", Str("opt2")),
                   Cell("col3", Str("p3")), Cell("col4", Str(""))]) ])

  /** The starting table satisfies the table invariant. */
  lemma InitialDatabaseWellFormed()
    ensures WellFormed(InitialDatabase)
  {
    InitialDatabaseShaped();
    assert AllHaveDefaults(InitialDatabase.columns);
  }

  lemma InitialDatabaseShaped()
    ensures Shaped(InitialDatabase)
  {
    var ids := ColumnIds(InitialDatabase.columns);
    assert ids == ["col1", "col2", "col3", "col4"];
    assert RowIds(InitialDatabase.rows) == ["row1", "row2"];
    assert CellColumnIds(InitialDatabase.rows[0].cells) == ids;
    assert CellColumnIds(InitialDatabase.rows[1].cells) == ids;
  }

  /** A row added to the starting table is blank in the text columns and takes
    * the first option of each status column. */
  lemma AddRowToInitialDatabase()
    ensures var r := AddRow(InitialDatabase, "row3");
            && |r.rows| == 3
            && GetCellValue(r.rows[2], "col1") == Str("")
            && GetCellValue(r.rows[2], "col2") == Str("opt1")
            && GetCellValue(r.rows[2], "col3") == Str("p1")
            && GetCellValue(r.rows[2], "col4") == Str("")
  {
    InitialDatabaseWellFormed();
    AddRowDefaults(InitialDatabase, "row3", 0);
    AddRowDefaults(InitialDatabase, "row3", 1);
    AddRowDefaults(InitialDatabase, "row3", 2);
    AddRowDefaults(InitialDatabase, "row3", 3);
  }

  const TaskColumn := Column("c-task", "Task", Text, None)
  const StatusColumn := Column("c-status", "Status", Status, Some(StatusOptions))
  const PriorityColumn := Column("", "Priority", Status, Some(PriorityOptions))

  const SmallTable: Database := Database(
    [TaskColumn, StatusColumn],
    [Row("r1", [Cell("c-task", Str("A")), Cell("c-status", Str("opt1"))])])

  /** Adding a status column gives every row a third cell holding the new
    * column's first option; deleting the old status column then leaves the
    * task and priority cells, in that order. */
  lemma AddThenDeleteColumnScenario()
    ensures var added := AddColumn(SmallTable, PriorityColumn, "c-priority");
            var removed := DeleteColumn(added, "c-status");
            && |added.rows[0].cells| == 3
            && added.rows[0].cells[2] == Cell("c-priority", Str("p1"))
            && removed.rows[0].cells == [Cell("c-task", Str("A")), Cell("c-priority", Str("p1"))]
            && removed.columns == [TaskColumn, PriorityColumn.(id := "c-priority")]
  {
    var added := AddColumn(SmallTable, PriorityColumn, "c-priority");
    var task, status, priority := Cell("c-task", Str("A")), Cell("c-status", Str("opt1")), Cell("c-priority", Str("p1"));
    assert added.rows[0].cells == [task, status, priority];
    assert [task, status, priority][1..] == [status, priority];
    assert [status, priority][1..] == [priority];
    assert Seqs.RemoveKey([priority], CellKey, "c-status") == [priority];
    assert Seqs.RemoveKey([task, status, priority], CellKey, "c-status") == [task, priority];
    var cols := added.columns;
    assert cols[1..] == [StatusColumn, PriorityColumn.(id := "c-priority")];
    assert cols[1..][1..] == [PriorityColumn.(id := "c-priority")];
    assert Seqs.RemoveKey(cols[1..][1..], ColumnKey, "c-status") == cols[1..][1..];
    assert Seqs.RemoveKey(cols, ColumnKey, "c-status") == [TaskColumn, PriorityColumn.(id := "c-priority")];
    var removed := DeleteColumn(added, "c-status");
    assert removed.rows[0].cells == [task, priority];
  }

  /** Writing to a row that does not exist returns the table unchanged. */
  lemma UpdateMissingRowScenario()
    ensures UpdateCell(SmallTable, "row-404", "c-task", Str("x")) == SmallTable
  {
    UpdateCellUnknown(SmallTable, "row-404", "c-task", Str("x"));
  }
}
