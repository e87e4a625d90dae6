/** A query's result: its columns, and its rows of values that may be NULL. */
module Results {
  import opened Basics

  datatype ValueKind =
    | Integer | Decimal | Float | Text | Bool | Date | Time | Timestamp | Json | Binary | Other
  {
    predicate IsNumeric() {
      Integer? || Decimal? || Float?
    }
  }

  datatype ColumnMeta = ColumnMeta(name: string, kind: ValueKind)

  /** A value, or NULL. */
  type Cell = Option<string>

  type Row = seq<Cell>

  datatype QueryResult = QueryResult(columns: seq<ColumnMeta>, rows: seq<Row>)

  /** The value at `i`; a row too short to have one is NULL there. */
  function CellAt(row: Row, i: nat): Cell {
    if i < |row| then row[i] else None
  }
}
