/**
 Copying cells as CSV or TSV (copy.rs): lines joined by line breaks, with none after the last.
 NULL is copied as nothing.
 */
module Copy {
  import opened Basics
  import opened Results
  import opened TextExport
  import opened Delimited

  datatype CopyFormat = AsCsv | AsTsv

  /** What is copied: these rows and columns as listed, under a line of names if `header`. */
  datatype Selection = Selection(rows: seq<nat>, cols: seq<nat>, header: bool)

  function CellOf(result: QueryResult, row: nat, col: nat): Cell {
    if row < |result.rows| then CellAt(result.rows[row], col) else None
  }

  function NameOf(result: QueryResult, col: nat): string {
    if col < |result.columns| then result.columns[col].name else ""
  }

  function CopySeparator(format: CopyFormat): char {
    if format.AsCsv? then ',' else '\t'
  }

  function TextField(format: CopyFormat, text: string): string {
    if format.AsCsv? then CsvField(text, ',') else TsvField(text)
  }

  function CellField(format: CopyFormat, cell: Cell): string {
    if cell.None? then "" else TextField(format, cell.value)
  }

  function LineFields(format: CopyFormat, cells: seq<Cell>): (r: seq<string>)
    ensures |r| == |cells|
  {
    seq(|cells|, i requires 0 <= i < |cells| => CellField(format, cells[i]))
  }

  function LineOf(format: CopyFormat, cells: seq<Cell>): string {
    Join(LineFields(format, cells), [CopySeparator(format)])
  }

  function LinesOf(format: CopyFormat, cells: seq<seq<Cell>>): (r: seq<string>)
    ensures |r| == |cells|
  {
    if cells == [] then [] else [LineOf(format, cells[0])] + LinesOf(format, cells[1..])
  }

  lemma {:induction false} OneMoreLine(format: CopyFormat, cells: seq<seq<Cell>>, last: seq<Cell>)
    ensures LinesOf(format, cells + [last]) == LinesOf(format, cells) + [LineOf(format, last)]
  {
    hide LineOf;
    if cells == [] {
      assert [last][1..] == [];
    } else {
      OneMoreLine(format, cells[1..], last);
      assert (cells + [last])[1..] == cells[1..] + [last];
    }
  }

  /** The names of the columns copied. */
  function NamesOf(result: QueryResult, sel: Selection): seq<Cell> {
    seq(|sel.cols|, i requires 0 <= i < |sel.cols| => Some(NameOf(result, sel.cols[i])))
  }

  function CellsOf(result: QueryResult, sel: Selection, row: nat): seq<Cell> {
    seq(|sel.cols|, i requires 0 <= i < |sel.cols| => CellOf(result, row, sel.cols[i]))
  }

  /** The cells copied, the names first if they are asked for. */
  function Copied(result: QueryResult, sel: Selection): seq<seq<Cell>> {
    (if sel.header then [NamesOf(result, sel)] else []) + RowsOf(result, sel, sel.rows)
  }

  function RowsOf(result: QueryResult, sel: Selection, rows: seq<nat>): seq<seq<Cell>>
    decreases |rows|
  {
    if rows == [] then [] else RowsOf(result, sel, rows[..|rows| - 1]) + [CellsOf(result, sel, rows[|rows| - 1])]
  }

  /** What is copied, cell by cell: the names of the columns chosen, if they are asked for, and then for each row
      chosen its cell in each of those columns, or NULL where there is none. */
  lemma {:induction false} CopiedIs(result: QueryResult, sel: Selection)
    ensures var all, head := Copied(result, sel), if sel.header then 1 else 0;
            && |all| == head + |sel.rows|
            && (sel.header ==> |all[0]| == |sel.cols| && forall k | 0 <= k < |sel.cols| ::
                  all[0][k] == Some(if sel.cols[k] < |result.columns| then result.columns[sel.cols[k]].name else ""))
            && forall i | 0 <= i < |sel.rows| ::
                 && |all[head + i]| == |sel.cols|
                 && forall k | 0 <= k < |sel.cols| ::
                      all[head + i][k]
                      == (if sel.rows[i] < |result.rows| && sel.cols[k] < |result.rows[sel.rows[i]]|
                          then result.rows[sel.rows[i]][sel.cols[k]] else None)
  {
    RowsOfAre(result, sel, sel.rows);
  }

  lemma {:induction false} RowsOfAre(result: QueryResult, sel: Selection, rows: seq<nat>)
    ensures |RowsOf(result, sel, rows)| == |rows|
    ensures forall i | 0 <= i < |rows| :: RowsOf(result, sel, rows)[i] == CellsOf(result, sel, rows[i])
    decreases |rows|
  {
    hide CellsOf;
    if rows != [] {
      RowsOfAre(result, sel, rows[..|rows| - 1]);
    }
  }

  /** The CSV and TSV branches of `render`. */
  method Render(result: QueryResult, sel: Selection, format: CopyFormat) returns (text: string)
    ensures text == Join(LinesOf(format, Copied(result, sel)), "\n")
  {
    hide LineOf;
    ghost var cells: seq<seq<Cell>> := if sel.header then [NamesOf(result, sel)] else [];
    ghost var head := cells;
    var lines: seq<string> := [];
    if sel.header {
      lines := [LineOf(format, NamesOf(result, sel))];
      assert cells[1..] == [];
    }
    for r := 0 to |sel.rows|
      invariant cells == head + RowsOf(result, sel, sel.rows[..r])
      invariant lines == LinesOf(format, cells)
    {
      var row := CellsOf(result, sel, sel.rows[r]);
      assert sel.rows[..r + 1][..r] == sel.rows[..r];
      Assoc(head, RowsOf(result, sel, sel.rows[..r]), [row]);
      OneMoreLine(format, cells, row);
      lines := lines + [LineOf(format, row)];
      cells := cells + [row];
    }
    assert sel.rows[..|sel.rows|] == sel.rows;
    text := Join(lines, "\n");
  }

  // What a reader finds.

  /** A cell as a reader finds it. */
  function FoundCell(format: CopyFormat, cell: Cell): Read {
    if cell.None? then Read(false, "")
    else if format.AsCsv? then Read(HasSpecial(cell.value, ','), cell.value)
    else Read(false, TsvField(cell.value))
  }

  function FoundCells(format: CopyFormat, cells: seq<Cell>): (r: seq<Read>)
    ensures |r| == |cells|
  {
    seq(|cells|, i requires 0 <= i < |cells| => FoundCell(format, cells[i]))
  }

  function FoundAll(format: CopyFormat, cells: seq<seq<Cell>>): (r: seq<seq<Read>>)
    ensures |r| == |cells|
  {
    if cells == [] then [] else [FoundCells(format, cells[0])] + FoundAll(format, cells[1..])
  }

  lemma CellWrites(format: CopyFormat, cell: Cell)
    ensures Writes(CellField(format, cell), FoundCell(format, cell), CopySeparator(format), format.AsCsv?)
  {
    match cell {
      case None => NothingWritten(CopySeparator(format), format.AsCsv?);
      case Some(text) =>
        if format.AsCsv? {
          CsvFieldWrites(text, ',');
        } else {
          ReplacementsAreOneEscape(text);
          EscapeReadsBack(text);
        }
    }
  }

  lemma CellsWritten(format: CopyFormat, cells: seq<Cell>)
    ensures AllWritten(LineFields(format, cells), FoundCells(format, cells), CopySeparator(format), format.AsCsv?)
  {
    hide Writes, CellField, FoundCell;
    forall i | 0 <= i < |cells|
      ensures Writes(CellField(format, cells[i]), FoundCell(format, cells[i]), CopySeparator(format), format.AsCsv?)
    {
      CellWrites(format, cells[i]);
    }
  }

  /** The last line has something on it. */
  predicate EndsInText(format: CopyFormat, cells: seq<seq<Cell>>) {
    cells == [] || LineOf(format, cells[|cells| - 1]) != ""
  }

  /** What a reader finds of joined lines: an empty last one is lost. */
  function FoundLines(format: CopyFormat, cells: seq<seq<Cell>>): seq<seq<Read>> {
    if cells == [] || (|cells| == 1 && LineOf(format, cells[0]) == "") then []
    else [Padded(FoundCells(format, cells[0]))] + FoundLines(format, cells[1..])
  }

  lemma {:induction false} JoinedLinesRead(format: CopyFormat, cells: seq<seq<Cell>>)
    ensures ReadFile(Join(LinesOf(format, cells), "\n"), CopySeparator(format), format.AsCsv?)
            == Some(FoundLines(format, cells))
  {
    hide ReadRecord, AllWritten, LineFields, FoundCells, Padded;
    if cells != [] {
      var sep, quotes := CopySeparator(format), format.AsCsv?;
      var fields, found := LineFields(format, cells[0]), FoundCells(format, cells[0]);
      CellsWritten(format, cells[0]);
      if |cells| == 1 {
        RecordReadsBack(fields, found, "", "", sep, quotes);
        assert LineOf(format, cells[0]) + ("" + "") == LineOf(format, cells[0]);
      } else {
        JoinedLinesRead(format, cells[1..]);
        var more := Join(LinesOf(format, cells[1..]), "\n");
        RecordReadsBack(fields, found, "\n", more, sep, quotes);
        Assoc(LineOf(format, cells[0]), "\n", more);
        assert LinesOf(format, cells)[1..] == LinesOf(format, cells[1..]);
      }
    }
  }

  lemma {:induction false} LinesFound(format: CopyFormat, cells: seq<seq<Cell>>)
    ensures |FoundLines(format, cells)| == if EndsInText(format, cells) then |cells| else |cells| - 1
    ensures EndsInText(format, cells) ==> FoundLines(format, cells) == Each(FoundAll(format, cells))
  {
    hide LineOf, FoundCells, Padded;
    if |cells| > 1 {
      LinesFound(format, cells[1..]);
      assert FoundAll(format, cells)[1..] == FoundAll(format, cells[1..]);
    } else if cells != [] {
      assert FoundAll(format, cells)[1..] == [];
    }
  }

  /**
   A reader finds every line of what was copied, each cell with its text, exactly when the last
   line is not empty: an empty one it takes for the end of the line before.
   */
  lemma CopyReadsBack(format: CopyFormat, cells: seq<seq<Cell>>)
    ensures ReadFile(Join(LinesOf(format, cells), "\n"), if format.AsCsv? then ',' else '\t', format.AsCsv?)
            == Some(Each(FoundAll(format, cells)))
            <==> EndsInText(format, cells)
  {
    hide ReadFile, LinesOf, FoundAll, FoundLines;
    JoinedLinesRead(format, cells);
    LinesFound(format, cells);
  }

  /** The last line is empty exactly when it is of no cell, or of one that is NULL or empty. */
  lemma EmptyLine(format: CopyFormat, cells: seq<Cell>)
    ensures LineOf(format, cells) == "" <==> cells == [] || (|cells| == 1 && TextOf(cells[0]) == "")
  {
    if |cells| == 1 {
      FieldsTellTexts(format, cells[0], None);
    }
  }

  function TextOf(cell: Cell): string {
    if cell.None? then "" else cell.value
  }

  /** Two cells are copied alike exactly when their texts are the same: NULL as the empty text. */
  lemma FieldsTellTexts(format: CopyFormat, a: Cell, b: Cell)
    ensures CellField(format, a) == CellField(format, b) <==> TextOf(a) == TextOf(b)
  {
    FieldOfText(format, a);
    FieldOfText(format, b);
    if format.AsCsv? {
      CsvTellsTexts(TextOf(a), TextOf(b));
    } else {
      TsvTellsTexts(TextOf(a), TextOf(b));
    }
  }

  lemma FieldOfText(format: CopyFormat, cell: Cell)
    ensures CellField(format, cell) == TextField(format, TextOf(cell))
  {
  }

  lemma CsvTellsTexts(a: string, b: string)
    ensures CsvField(a, ',') == CsvField(b, ',') <==> a == b
  {
    CsvFieldWrites(a, ',');
    CsvFieldWrites(b, ',');
    FieldReadsBack(CsvField(a, ','), Read(HasSpecial(a, ','), a), "", ',', true);
    FieldReadsBack(CsvField(b, ','), Read(HasSpecial(b, ','), b), "", ',', true);
    hide CsvField, ReadField, HasSpecial;
    assert CsvField(a, ',') + "" == CsvField(a, ',') && CsvField(b, ',') + "" == CsvField(b, ',');
  }

  lemma TsvTellsTexts(a: string, b: string)
    ensures TsvField(a) == TsvField(b) <==> a == b
  {
    hide TsvField;
    ReplacementsAreOneEscape(a);
    ReplacementsAreOneEscape(b);
    EscapeReadsBack(a);
    EscapeReadsBack(b);
  }
}
