/** The records of the table model (src/types.ts). */
module Types {

  datatype Option<+T> = None | Some(value: T) {
    /** The value, or `default` when there is none (the `?? default` of the source). */
    function GetOr(default: T): T {
      match this
      case Some(v) => v
      case None => default
    }
  }

  /** The four kinds of column. */
  datatype FieldType = Text | Status | Number | Date

  /** One choice of a status column (`caption` is the source's `label`, a reserved word here). */
  datatype StatusOption = StatusOption(id: string, caption: string, color: string)

  /** A column definition; `statusOptions` is an optional field of the source record. */
  datatype Column = Column(id: string, name: string, fieldType: FieldType, statusOptions: Option<seq<StatusOption>>)

  /** A cell holds a string, a number or null. */
  datatype CellValue = Str(s: string) | Num(n: real) | Null

  datatype Cell = Cell(columnId: string, value: CellValue)

  datatype Row = Row(id: string, cells: seq<Cell>)

  /** The whole table: columns and rows, each in display order. */
  datatype Database = Database(columns: seq<Column>, rows: seq<Row>)

  // The keys the source compares with `===` when it filters or searches a list.
  function ColumnKey(col: Column): string { col.id }
  function RowKey(row: Row): string { row.id }
  function CellKey(cell: Cell): string { cell.columnId }
  function OptionKey(opt: StatusOption): string { opt.id }
}
