# Task database: table state engine and column editor, in Dafny

This project models the logic of a small browser "database view". A user
defines typed columns (text, status, number, date) and fills in rows of
cells. Two pieces are modelled:

- **The table state engine** (`src/components/DatabaseView.tsx`). A
  `Database` is an ordered list of columns and an ordered list of rows. Each
  row holds cells keyed by column id. `addRow`, `deleteRow`, `updateCell`,
  `addColumn`, `updateColumn` and `deleteColumn` each build a new `Database`
  from the old one. `getCellValue` reads a cell. Here each is a function
  from a database and its arguments to a database, defined on every input
  where the source does not throw (`AddRow` and `AddColumn` carry the
  preconditions listed under "## Left out")
  (module `DatabaseView`, file `database_view.dfy`).
- **The column editor** (`src/components/AddColumnModal.tsx`). It keeps a
  draft of a column's name, type and status options. Options can be added
  (auto-numbered label, colour cycled from a 12-entry palette), patched and
  deleted (never below one option). On submit the draft becomes a `Column`
  (module `AddColumnModal`, file `add_column_modal.dfy`).

The records of `src/types.ts` are datatypes in `types.dfy`. `seqs.dfy` holds
the two list idioms the code is built from. One is `xs.map(x => x.key)`
(`Keys`). The other is `xs.filter(x => x.key !== k)` (`RemoveKey`), with its
laws. `app.dfy` holds the starting table of `src/App.tsx` and a few worked
scenarios.

The central invariant is `DatabaseView.WellFormed`. Its shape part
(`DatabaseView.Shaped`) is:

- column ids are distinct;
- row ids are distinct;
- every row holds exactly one cell per column and no other cell. This is
  stated as equal multisets of column ids, so cell order is free.

Its defaults part (`AllHaveDefaults`) is that every status column that has an
options list has at least one option, so that `addRow` can read
`statusOptions[0].id`.

Every operation keeps the shape, given fresh ids for the two adds. The
defaults part is kept given, in addition, a usable default (`HasDefault`) for
every column that `addColumn` or `updateColumn` stores. The column editor
supplies such columns when option ids are fresh. For a new column this is
`NewColumnCanBeAdded`. For an edited column it is `EditedColumnCanBeUpdated`,
which also needs the column's own options list, when present, to be
non-empty with distinct ids. The table invariant does not require option ids
to be distinct within a column.
`ReachableWellFormed` lifts this to any sequence of operations starting from
the empty table.

Fresh ids come from `Date.now()` in the source. Here they are parameters
(`rowId`, `columnId`, `optionId`). Freshness is a precondition only of the
lemmas that need it.

Points where the code's behaviour is easy to misread; the model follows the code:

- A default cell value is the string `''`, not null.
- A row created by `addRow` holds its cells in column order. `addColumn`
  appends the new cell last in every row, so an existing row is in column
  order afterwards only if it was before. The invariant does not require
  this order.
- `deleteColumn` with an unknown id is a no-op in a well-formed table. More
  exactly, it is a no-op whenever no row holds a cell with that id; stray
  cells carrying that id would still be filtered out.
- The "at least one option" guard of `deleteStatusOption` tests the length
  before filtering. Options that share an id can therefore all be deleted at
  once. `DeleteStatusOptionEmpties` says exactly when the list becomes empty.
- An edited column keeps its id only when that id is not the empty string
  (`column?.id || ...`).

## Model

| member | source | states |
|---|---|---|
| `Seqs.RemoveKey` | src/components/DatabaseView.tsx:35 | filtering by key keeps exactly the elements whose key differs, and never lengthens the list |
| `Seqs.RemoveKeyIdempotent` | src/components/DatabaseView.tsx:90 | filtering out the same key twice equals filtering it once |
| `Seqs.RemoveKeyAppend` | src/components/DatabaseView.tsx:93 | the filter keeps the original order (it distributes over concatenation) |
| `Seqs.RemoveKeyKeys` | src/components/DatabaseView.tsx:90-94 | the keys left are the old keys with every occurrence of the removed key taken out (as multisets) |
| `Seqs.RemoveKeyOne` | src/components/DatabaseView.tsx:35 | with distinct keys, removing a present key shortens the list by exactly one |
| `Seqs.RemoveKeyDistinct` | src/components/DatabaseView.tsx:90 | filtering keeps keys distinct |
| `DatabaseView.DefaultValue` | src/components/DatabaseView.tsx:23 | a status column with options starts new cells at the id of one of its own options; any other column starts them at `''` |
| `DatabaseView.NewRow` | src/components/DatabaseView.tsx:19-25 | the new row carries the given id and one cell per column, in column order, each holding that column's default |
| `DatabaseView.AddRow` | src/components/DatabaseView.tsx:18-30 | exactly one row is appended at the end; earlier rows and all columns are unchanged |
| `DatabaseView.DeleteRow` | src/components/DatabaseView.tsx:32-37 | a row survives iff it was there and its id differs; columns are unchanged |
| `DatabaseView.SetCellValue` | src/components/DatabaseView.tsx:44-49 | only cells of the given column get the new value; the row id and the cells' columns are unchanged |
| `DatabaseView.UpdateCell` | src/components/DatabaseView.tsx:39-54 | columns, row ids and each row's cell columns are unchanged (no cell is created); rows with another id are untouched |
| `DatabaseView.AddColumn` | src/components/DatabaseView.tsx:56-73 | the column is appended last under the new id; every row gets exactly one more cell, for the new id, holding the default; row ids are unchanged; the default is needed only when the table has rows |
| `DatabaseView.UpdateColumn` | src/components/DatabaseView.tsx:77-85 | the column with the matching id is replaced in place; ids, positions and all rows are unchanged (no coercion of cell values) |
| `DatabaseView.DeleteColumn` | src/components/DatabaseView.tsx:87-96 | the column and every cell of that column go; everything else stays; row ids are unchanged |
| `DatabaseView.FindCell` | src/components/DatabaseView.tsx:99 | the result is the position of the first cell of the column, or none when no cell has it |
| `DatabaseView.GetCellValue` | src/components/DatabaseView.tsx:98-101 | a column with no cell in the row reads as null |
| `DatabaseView.FindCellDistinct` | src/components/DatabaseView.tsx:99 | when a row's cell columns are distinct, each cell is the one found for its column |
| `DatabaseView.FindCellSameKeys` | src/components/DatabaseView.tsx:99 | the lookup depends only on the cells' columns, not on their values |
| `DatabaseView.FindCellAppend` | src/components/DatabaseView.tsx:99 | the lookup in a row with one more cell at the end: the earlier cell wins; otherwise the new cell or none |
| `DatabaseView.GetCellValueRemoveKey` | src/components/DatabaseView.tsx:93 | dropping the cells of one column does not change what any other column reads |
| `DatabaseView.WellFormedLookup` | src/components/DatabaseView.tsx:98-101 | in a well-formed table each row has exactly one cell per column and only cells of columns, and `getCellValue` reads that cell |
| `DatabaseView.AddRowPreservesWellFormed` | src/components/DatabaseView.tsx:18-30 | adding a row with a fresh id keeps the table invariant |
| `DatabaseView.DeleteRowPreservesWellFormed` | src/components/DatabaseView.tsx:32-37 | deleting a row keeps the table invariant |
| `DatabaseView.UpdateCellPreservesWellFormed` | src/components/DatabaseView.tsx:39-54 | updating a cell keeps the table invariant |
| `DatabaseView.AddColumnKeepsShape` | src/components/DatabaseView.tsx:56-73 | adding a column with a fresh id keeps distinct ids and one cell per column in every row; a table without rows accepts a column without a default |
| `DatabaseView.UpdateColumnKeepsShape` | src/components/DatabaseView.tsx:77-85 | replacing a column, whatever its options, keeps distinct ids and one cell per column in every row |
| `DatabaseView.AddColumnPreservesWellFormed` | src/components/DatabaseView.tsx:56-73 | adding a column with a fresh id and a usable default keeps the table invariant |
| `DatabaseView.UpdateColumnPreservesWellFormed` | src/components/DatabaseView.tsx:77-85 | replacing a column by one with a usable default keeps the table invariant |
| `DatabaseView.DeleteColumnPreservesWellFormed` | src/components/DatabaseView.tsx:87-96 | deleting a column (and its cells) keeps the table invariant |
| `DatabaseView.AddRowDefaults` | src/components/DatabaseView.tsx:21-24 | in the new row, each column reads the id of its first status option for a status column with options, and `''` otherwise |
| `DatabaseView.DeleteRowIdempotent` | src/components/DatabaseView.tsx:32-37 | deleting a row twice equals deleting it once |
| `DatabaseView.DeleteRowAbsent` | src/components/DatabaseView.tsx:32-37 | deleting an absent row id changes nothing |
| `DatabaseView.DeleteRowRemovesOne` | src/components/DatabaseView.tsx:32-37 | with distinct row ids, deleting a present row removes exactly one row |
| `DatabaseView.AddRowThenDeleteRow` | src/components/DatabaseView.tsx:18-37 | deleting a freshly added row gives back the original table |
| `DatabaseView.SetCellValueReadBack` | src/components/DatabaseView.tsx:44-49 | after the write, the written column reads the new value if the row has a cell for it; every other read is unchanged |
| `DatabaseView.UpdateCellReadBack` | src/components/DatabaseView.tsx:39-54 | after `updateCell` the target cell reads the new value; every other cell of every row reads as before |
| `DatabaseView.UpdateCellUnknown` | src/components/DatabaseView.tsx:42-52 | an unknown row, or a column the row has no cell for, gives an equal table |
| `DatabaseView.UpdateCellLastWins` | src/components/DatabaseView.tsx:39-54 | of two writes to the same cell, the second wins |
| `DatabaseView.AddRowThenUpdateCell` | src/components/DatabaseView.tsx:18-54 | writing to a cell of a freshly added row reads back the value, and the earlier rows are unchanged |
| `DatabaseView.AddColumnReadBack` | src/components/DatabaseView.tsx:61-72 | after `addColumn` every row reads the default in the new column and its old value in every other column |
| `DatabaseView.AddColumnThenDeleteColumn` | src/components/DatabaseView.tsx:56-96 | deleting a freshly added column gives back the original table |
| `DatabaseView.UpdateColumnAbsent` | src/components/DatabaseView.tsx:80-82 | updating with an id no column has changes nothing |
| `DatabaseView.DeleteColumnIdempotent` | src/components/DatabaseView.tsx:87-96 | deleting a column twice equals deleting it once |
| `DatabaseView.DeleteColumnAbsent` | src/components/DatabaseView.tsx:87-96 | in a well-formed table, deleting an absent column id changes nothing |
| `DatabaseView.DeleteColumnReadBack` | src/components/DatabaseView.tsx:91-94 | after `deleteColumn` the deleted column reads null in every row, and every other column reads as before |
| `DatabaseView.StepPreservesWellFormed` | src/components/DatabaseView.tsx:18-96 | each of the six operations keeps the invariant, given fresh ids for the adds and a usable default for each column that addColumn or updateColumn stores |
| `DatabaseView.RunPreservesWellFormed` | src/components/DatabaseView.tsx:18-96 | any sequence of operations keeps the invariant, given fresh ids and usable defaults for added and updated columns |
| `DatabaseView.ReachableWellFormed` | src/components/DatabaseView.tsx:18-96 | every table reachable from the empty one is well formed, under the same assumptions on ids and on added or updated columns |
| `AddColumnModal.DigitChar` | src/components/AddColumnModal.tsx:52 | the character is a decimal digit denoting the given value |
| `AddColumnModal.DecimalString` | src/components/AddColumnModal.tsx:52 | the printed number is a non-empty run of decimal digits with no leading zero, and starts with `0` iff the number is zero |
| `AddColumnModal.DecimalRoundTrip` | src/components/AddColumnModal.tsx:52 | reading the printed number back gives the number |
| `AddColumnModal.DecimalInjective` | src/components/AddColumnModal.tsx:52 | different numbers print differently |
| `AddColumnModal.PaletteColor` | src/components/AddColumnModal.tsx:53 | the index `n % 12` is in bounds and the colour is a palette colour |
| `AddColumnModal.PaletteCycles` | src/components/AddColumnModal.tsx:18-21 | the colour choice repeats every twelve options |
| `AddColumnModal.PaletteDistinct` | src/components/AddColumnModal.tsx:18-21 | the twelve palette colours are all different |
| `AddColumnModal.PaletteColorsDiffer` | src/components/AddColumnModal.tsx:53 | twelve options created one after another get twelve different colours |
| `AddColumnModal.OptionLabelsDiffer` | src/components/AddColumnModal.tsx:52 | options created at different list lengths get different labels |
| `AddColumnModal.OpenDraft` | src/components/AddColumnModal.tsx:24-28 | a new column's draft is an empty-named text column with the single option `{opt-1, Option 1, #e9e9e7}`; an edited column's draft copies its name, type and options (or that single option if it has none) |
| `AddColumnModal.AddStatusOption` | src/components/AddColumnModal.tsx:49-56 | exactly one option is appended; earlier options are unchanged; the new option has the given id, label `Option n+1` and colour `defaultColors[n % 12]` |
| `AddColumnModal.UpdateStatusOption` | src/components/AddColumnModal.tsx:58-62 | length, order and ids are kept; only options with the matching id take the patched label or colour |
| `AddColumnModal.DeleteStatusOption` | src/components/AddColumnModal.tsx:64-68 | with at most one option nothing changes; otherwise an option survives iff its id differs |
| `AddColumnModal.UpdateStatusOptionIdempotent` | src/components/AddColumnModal.tsx:58-62 | applying the same patch twice equals applying it once |
| `AddColumnModal.UpdateStatusOptionUnknown` | src/components/AddColumnModal.tsx:58-62 | a patch for an unknown id changes nothing |
| `AddColumnModal.DeleteStatusOptionEmpties` | src/components/AddColumnModal.tsx:64-68 | the list becomes empty iff it was empty, or it had two or more options all carrying the deleted id |
| `AddColumnModal.DeleteStatusOptionKeepsOne` | src/components/AddColumnModal.tsx:64-68 | with distinct ids, a non-empty list never becomes empty |
| `AddColumnModal.DeleteStatusOptionRemovesOne` | src/components/AddColumnModal.tsx:64-68 | with distinct ids and two or more options, deleting a present id removes exactly one option |
| `AddColumnModal.LeadingSpace` | src/components/AddColumnModal.tsx:72 | the count covers exactly the leading white space |
| `AddColumnModal.TrailingStart` | src/components/AddColumnModal.tsx:72 | the cut point leaves exactly the trailing white space after it |
| `AddColumnModal.Trim` | src/components/AddColumnModal.tsx:76 | the trimmed name is empty iff the name is all white space; otherwise it neither starts nor ends with white space |
| `AddColumnModal.TrimPadded` | src/components/AddColumnModal.tsx:76 | trimming strips exactly the white-space padding around a text |
| `AddColumnModal.LeadingSpaceOf` | src/components/AddColumnModal.tsx:76 | the leading white space of padding + text is the padding |
| `AddColumnModal.TrailingStartOf` | src/components/AddColumnModal.tsx:76 | the trailing white space of text + padding is the padding |
| `AddColumnModal.TrimIdempotent` | src/components/AddColumnModal.tsx:76 | trimming twice equals trimming once |
| `AddColumnModal.Submit` | src/components/AddColumnModal.tsx:70-81 | no column iff the name is blank after trimming; otherwise the column carries the trimmed name and the type, the edited column's id when it has a non-empty one and the fresh id otherwise, and status options iff the type is status |
| `AddColumnModal.SubmitHasDefault` | src/components/AddColumnModal.tsx:74-79 | a column submitted from a draft with an option can be given to `addColumn`/`addRow` without the empty-options failure |
| `AddColumnModal.ApplyEditKeepsDraftOk` | src/components/AddColumnModal.tsx:49-68 | each edit keeps the draft non-empty with distinct option ids (fresh id for an added option) |
| `AddColumnModal.ApplyEditsKeepsDraftOk` | src/components/AddColumnModal.tsx:49-68 | any sequence of such edits keeps the draft non-empty with distinct option ids |
| `AddColumnModal.NewColumnCanBeAdded` | src/components/AddColumnModal.tsx:23-81 | a new column's editor, after any edits with fresh option ids, submits a column the table can add |
| `AddColumnModal.EditedColumnCanBeUpdated` | src/components/AddColumnModal.tsx:23-81 | an existing column's editor, after any edits with fresh option ids, submits a column with a usable default for `updateColumn`, provided the column's own options are non-empty with distinct ids |
| `AddColumnModal.LabelRepeatsAfterDelete` | src/components/AddColumnModal.tsx:52 | labels count the options present: after deleting "Option 2" of three, the next option is labelled "Option 3" a second time |
| `App.InitialDatabaseWellFormed` | src/App.tsx:5-34 | the starting table satisfies the table invariant |
| `App.AddRowToInitialDatabase` | src/components/DatabaseView.tsx:21-24 | a row added to the starting table reads `''` in the text columns, `opt1` in Status and `p1` in Priority |
| `App.AddThenDeleteColumnScenario` | src/components/DatabaseView.tsx:56-96 | adding a status column gives the row a third cell holding its first option id; then deleting the old status column leaves the task and priority cells, in order |
| `App.UpdateMissingRowScenario` | src/components/DatabaseView.tsx:39-54 | writing to a missing row returns an equal table |

## Left out

- Rendering, styling, table markup and the `fieldTypeColors` map
  (src/components/AddColumnModal.tsx:11-16) are presentation only.
- The click-outside listener (src/components/AddColumnModal.tsx:39-47) is
  DOM event wiring.
- src/components/TableCell.tsx, src/components/ColumnHeader.tsx,
  src/components/AddRowButton.tsx and the layout of src/App.tsx are UI
  wiring. TableCell's rule that an empty edit is sent as null is the caller's
  normalisation of the value passed to `updateCell`. `UpdateCell` accepts any
  value, null included.
- `Date.now()` id generation is replaced by id parameters. The clock
  cannot be modelled. The source can produce equal ids on quick successive
  calls; the lemmas assume fresh ids instead.
- React state setters, `e.preventDefault()` and the modal flags
  (`showAddColumn`, `editingColumn`) are left out. The caller stores each
  returned value. `Submit` returns the column that the editor passes to
  `onAdd` (`addColumn` or `updateColumn`).
- The editor's re-initialisation when its `column` prop changes
  (src/components/AddColumnModal.tsx:31-37) computes the same draft as
  `OpenDraft`. It is not modelled as a separate effect.
- DatabaseView.AddRow requires `AllHaveDefaults`, and DatabaseView.AddColumn
  requires `HasDefault` when the table has a row. In the source, a status
  column whose options list is present but empty makes `statusOptions[0].id`
  throw a TypeError there; `addColumn` throws only when the table has a row.
  The model states this as a precondition, not as an error result.
- DatabaseView.StepPreservesWellFormed and DatabaseView.RunPreservesWellFormed
  assume that every column added or updated has a usable default. The column
  editor guarantees this when option ids are fresh: for new columns by
  `NewColumnCanBeAdded`, and for edited columns by `EditedColumnCanBeUpdated`,
  which also needs the edited column's options to be non-empty with distinct
  ids. An edited status column whose options list is present but empty is
  submitted with an empty list.
  `updateColumn` itself never throws; without that assumption it still keeps
  the table's shape (`UpdateColumnKeepsShape`), but a later `addRow` would
  throw.
- Numbers in cells are Dafny `real`s. Floating point is not modelled, and no
  arithmetic is done on cell values.
- `StatusOption.label` is named `caption`, because `label` is a reserved
  word in Dafny.
- The patch given to `updateStatusOption` carries only a label and a colour,
  which is all the editor ever sends. A patch that changes an option's id is
  not modelled.
