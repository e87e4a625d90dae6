/** Markdown exports against a reader of tables: cells stand between bars, and a bar after a backslash is text. */
module MarkdownExport {
  import opened Basics
  import opened Results
  import opened TextExport
  import Delimited
  import JsonExport

  // The reader.

  /** How far it is to the next bar that is no text. */
  function CellEnd(s: string): (n: nat)
    ensures n <= |s|
  {
    if s == "" || s[0] == '|' then 0
    else if s[0] == '\\' && |s| > 1 && s[1] == '|' then 2 + CellEnd(s[2..])
    else 1 + CellEnd(s[1..])
  }

  /** The cells of a line from after its first bar on, each without the space on either side of it. */
  function ReadCells(s: string): Option<seq<string>>
    decreases |s|
  {
    if s == "" then Some([])
    else
      var n := CellEnd(s);
      if n == |s| || n < 2 || s[0] != ' ' || s[n - 1] != ' ' then None
      else
        match ReadCells(s[n + 1..])
        case None => None
        case Some(more) => Some([s[1..n - 1]] + more)
  }

  function TableCells(line: string): Option<seq<string>> {
    if line != "" && line[0] == '|' then ReadCells(line[1..]) else None
  }

  // What the export writes.

  function MarkdownChar(c: char): string {
    if c == '|' then "\\|" else if c == '\n' then "<br>" else [c]
  }

  /** One pass puts both escapes in. */
  function MarkdownText(text: string): string {
    if text == "" then "" else MarkdownChar(text[0]) + MarkdownText(text[1..])
  }

  lemma {:induction false} FieldIsOnePass(text: string)
    ensures MarkdownField(text) == MarkdownText(text)
  {
    if text != "" {
      FieldIsOnePass(text[1..]);
      var one := if text[0] == '|' then "\\|" else [text[0]];
      assert Replace(text, '|', "\\|") == one + Replace(text[1..], '|', "\\|");
      Delimited.ReplaceOf(one, Replace(text[1..], '|', "\\|"), '\n', "<br>");
      OneChar(text[0]);
    }
  }

  lemma OneChar(c: char)
    ensures Replace(if c == '|' then "\\|" else [c], '\n', "<br>") == MarkdownChar(c)
  {
    Delimited.ReplaceOne(c, '\n', "<br>");
    Delimited.ReplaceTwo('\\', '|', '\n', "<br>");
  }

  lemma TextStartsOtherwise(text: string)
    ensures MarkdownText(text) != "" ==> MarkdownText(text)[0] != '|'
  {
  }

  /** No bar in a cell ends it. */
  lemma {:induction false} CellEndOf(text: string, rest: string)
    ensures CellEnd(MarkdownText(text) + (" |" + rest)) == |MarkdownText(text)| + 1
  {
    var end := " |" + rest;
    if text == "" {
      assert "" + end == end && end[1..] == "|" + rest;
    } else {
      var one, more := MarkdownChar(text[0]), MarkdownText(text[1..]) + end;
      CellEndOf(text[1..], rest);
      TextStartsOtherwise(text[1..]);
      Assoc(one, MarkdownText(text[1..]), end);
      assert more[0] == if MarkdownText(text[1..]) == "" then ' ' else MarkdownText(text[1..])[0];
      CharPassed(text[0], more);
      hide CellEnd, MarkdownChar;
    }
  }

  lemma CharPassed(c: char, more: string)
    requires more != "" && more[0] != '|'
    ensures CellEnd(MarkdownChar(c) + more) == |MarkdownChar(c)| + CellEnd(more)
  {
    var s := MarkdownChar(c) + more;
    if c == '|' {
      assert s[2..] == more;
    } else if c == '\n' {
      assert s == ['<'] + (['b'] + (['r'] + (['>'] + more)));
      hide CellEnd;
      LetterPassed('<', ['b'] + (['r'] + (['>'] + more)));
      LetterPassed('b', ['r'] + (['>'] + more));
      LetterPassed('r', ['>'] + more);
      LetterPassed('>', more);
    } else {
      assert s[1..] == more;
    }
  }

  lemma LetterPassed(c: char, more: string)
    requires c != '|' && c != '\\'
    ensures CellEnd([c] + more) == 1 + CellEnd(more)
  {
    assert ([c] + more)[1..] == more;
  }

  lemma {:induction false} NoBreakInText(text: string)
    ensures '\n' !in MarkdownText(text)
  {
    if text != "" {
      NoBreakInText(text[1..]);
    }
  }

  predicate AllFields(fields: seq<string>, texts: seq<string>) {
    |fields| == |texts| && forall i | 0 <= i < |fields| :: fields[i] == MarkdownText(texts[i])
  }

  lemma OneCellReads(text: string, rest: string)
    ensures ReadCells(" " + (MarkdownText(text) + (" |" + rest)))
         == match ReadCells(rest)
            case None => None
            case Some(more) => Some([MarkdownText(text)] + more)
  {
    var field := MarkdownText(text);
    var s := " " + (field + (" |" + rest));
    CellEndOf(text, rest);
    var n := |field| + 2;
    assert s[1..] == field + (" |" + rest);
    assert CellEnd(s) == n;
    assert s[1..n - 1] == field && s[n + 1..] == rest && s[n - 1] == ' ';
  }

  lemma {:induction false} CellsRead(fields: seq<string>, texts: seq<string>)
    requires AllFields(fields, texts) && fields != []
    ensures ReadCells(" " + (Join(fields, " | ") + " |")) == Some(fields)
    decreases |fields|
  {
    hide ReadCells;
    if |fields| == 1 {
      OneCellReads(texts[0], "");
      assert " |" + "" == " |" && [fields[0]] + [] == fields;
      assert ReadCells("") == Some([]) by { NothingRead(); }
    } else {
      var more := " " + (Join(fields[1..], " | ") + " |");
      OneCellReads(texts[0], more);
      CellsRead(fields[1..], texts[1..]);
      assert (fields[0] + " | " + Join(fields[1..], " | ")) + " |" == fields[0] + (" |" + more);
      assert [fields[0]] + fields[1..] == fields;
    }
  }

  lemma NothingRead()
    ensures ReadCells("") == Some([])
  {
  }

  /** A line without fields is read as one empty cell. */
  function Shown(fields: seq<string>): seq<string> {
    if fields == [] then [""] else fields
  }

  function TableLine(fields: seq<string>): string {
    "| " + Join(fields, " | ") + " |"
  }

  lemma LineReads(fields: seq<string>, texts: seq<string>)
    requires AllFields(fields, texts)
    ensures TableCells(TableLine(fields)) == Some(Shown(fields))
  {
    if fields == [] {
      CellsRead([""], [""]);
      assert TableLine(fields)[1..] == " " + ("" + " |");
    } else {
      CellsRead(fields, texts);
      assert TableLine(fields)[1..] == " " + (Join(fields, " | ") + " |");
    }
  }

  /** The texts of a row: of NULL, what it is written as. */
  function TextsOf(f: Format, row: Row): (texts: seq<string>)
    ensures |texts| == Max(|f.columns|, |row|)
  {
    seq(Max(|f.columns|, |row|), i requires 0 <= i =>
      if CellAt(row, i).None? then f.opts.nullAs else CellAt(row, i).value)
  }

  function HeadTexts(f: Format): (texts: seq<string>)
    ensures |texts| == |f.columns|
  {
    seq(|f.columns|, i requires 0 <= i < |f.columns| => if f.opts.header then f.columns[i].name else "")
  }

  lemma FieldsAreTexts(f: Format, row: Row)
    requires f.etype.Markdown?
    ensures AllFields(Fields(f, row), TextsOf(f, row)) && AllFields(MarkdownNames(f), HeadTexts(f))
  {
    forall i | 0 <= i < Max(|f.columns|, |row|)
      ensures Fields(f, row)[i] == MarkdownText(TextsOf(f, row)[i])
    {
      FieldIsOnePass(TextsOf(f, row)[i]);
    }
    forall i | 0 <= i < |f.columns|
      ensures MarkdownNames(f)[i] == MarkdownText(HeadTexts(f)[i])
    {
      FieldIsOnePass(HeadTexts(f)[i]);
    }
  }

  // The file.

  function RowLines(f: Format, rows: seq<Row>): (lines: seq<string>)
    ensures |lines| == |rows|
    ensures forall i | 0 <= i < |rows| :: lines[i] == TableLine(Fields(f, rows[i])) + JsonExport.Cr(f)
  {
    seq(|rows|, i requires 0 <= i < |rows| => TableLine(Fields(f, rows[i])) + JsonExport.Cr(f))
  }

  lemma {:induction false} JoinHolds(pieces: seq<string>, separator: string)
    requires '\n' !in separator && forall p | p in pieces :: '\n' !in p
    ensures '\n' !in Join(pieces, separator)
  {
    if |pieces| > 1 {
      JoinHolds(pieces[1..], separator);
    }
  }

  lemma LineHolds(fields: seq<string>, texts: seq<string>)
    requires AllFields(fields, texts)
    ensures '\n' !in TableLine(fields)
  {
    forall p | p in fields
      ensures '\n' !in p
    {
      var i :| 0 <= i < |fields| && fields[i] == p;
      NoBreakInText(texts[i]);
    }
    JoinHolds(fields, " | ");
  }

  /** A line, and what comes after its end. */
  lemma OneLine(f: Format, line: string, rest: string)
    requires '\n' !in line
    ensures SplitAt(line + Eol(f) + rest, '\n') == [line + JsonExport.Cr(f)] + SplitAt(rest, '\n')
  {
    assert line + Eol(f) + rest == (line + JsonExport.Cr(f)) + ['\n'] + rest;
    SplitBetween(line + JsonExport.Cr(f), '\n', rest);
    SplitNowhere(line + JsonExport.Cr(f), '\n');
    hide SplitAt;
  }

  lemma {:induction false} RowLinesSplit(f: Format, before: nat, rows: seq<Row>)
    requires f.etype.Markdown?
    ensures SplitAt(RowsText(f, before, rows), '\n') == RowLines(f, rows) + [""]
    decreases rows
  {
    hide SplitAt, Fields, TableLine, AllFields;
    if rows == [] {
      SplitNowhere("", '\n');
    } else {
      var line, rest := TableLine(Fields(f, rows[0])), RowsText(f, before + 1, rows[1..]);
      FieldsAreTexts(f, rows[0]);
      LineHolds(Fields(f, rows[0]), TextsOf(f, rows[0]));
      RowLinesSplit(f, before + 1, rows[1..]);
      assert RowText(f, before, rows[0]) == line + Eol(f) by { LineIs(f, before, rows[0]); }
      OneLine(f, line, rest);
      assert RowLines(f, rows) == [line + JsonExport.Cr(f)] + RowLines(f, rows[1..]);
      Assoc([line + JsonExport.Cr(f)], RowLines(f, rows[1..]), [""]);
    }
  }

  lemma LineIs(f: Format, before: nat, row: Row)
    requires f.etype.Markdown?
    ensures RowText(f, before, row) == TableLine(Fields(f, row)) + Eol(f)
  {
  }

  /** The line under the head: as many rules as there are columns. */
  function RuleLine(f: Format): string {
    "|" + Join(Rules(|f.columns|), "|") + "|"
  }

  lemma RuleHolds(f: Format)
    ensures '\n' !in RuleLine(f)
  {
    JoinHolds(Rules(|f.columns|), "|");
  }

  /**
   A Markdown export, after the mark if there is one, is the line of the head, the line of
   rules and a line for each row, and nothing after; and a reader of tables finds in each
   line of the head and the rows every field, in order.
   */
  lemma MarkdownReadsBack(f: Format, rows: seq<Row>)
    requires f.etype.Markdown?
    ensures var file := Delimited.AfterMark(f, Complete(f, rows));
            var lines := JsonExport.FileLines(file);
            && |lines| == 2 + |rows| && JsonExport.Unended(file) == ""
            && TableCells(lines[0]) == Some(Shown(MarkdownNames(f))) && lines[1] == RuleLine(f)
            && forall i | 0 <= i < |rows| :: TableCells(lines[2 + i]) == Some(Shown(Fields(f, rows[i])))
  {
    hide SplitAt, TableCells, TableLine, RuleLine, Complete, Fields, AllFields, Shown, Delimited.AfterMark,
         JsonExport.WithoutCr, JsonExport.FileLines, JsonExport.Unended, MarkdownNames, Pieces;
    var file := Delimited.AfterMark(f, Complete(f, rows));
    MarkdownSplits(f, rows);
    PiecesAre(f, rows);
    LinesAre(file, Pieces(f, rows));
    FieldsAreTexts(f, []);
    LineReads(MarkdownNames(f), HeadTexts(f));
    EndsInBar(f);
    forall i | 0 <= i < |rows|
      ensures TableCells(JsonExport.FileLines(file)[2 + i]) == Some(Shown(Fields(f, rows[i])))
    {
      RowReads(f, rows[i]);
    }
  }

  lemma LinesAre(file: string, pieces: seq<string>)
    requires SplitAt(file, '\n') == pieces
    ensures |JsonExport.FileLines(file)| == |pieces| - 1 && JsonExport.Unended(file) == pieces[|pieces| - 1]
    ensures forall i | 0 <= i < |pieces| - 1 :: JsonExport.FileLines(file)[i] == JsonExport.WithoutCr(pieces[i])
  {
    hide JsonExport.WithoutCr;
  }

  lemma RowReads(f: Format, row: Row)
    requires f.etype.Markdown?
    ensures TableCells(JsonExport.WithoutCr(TableLine(Fields(f, row)) + JsonExport.Cr(f)))
         == Some(Shown(Fields(f, row)))
  {
    hide TableCells, TableLine, Fields, Shown, AllFields;
    FieldsAreTexts(f, row);
    LineReads(Fields(f, row), TextsOf(f, row));
    BarBeforeCr(Fields(f, row), JsonExport.Cr(f));
  }

  /** The lines as they split at LF, and nothing after the last. */
  function Pieces(f: Format, rows: seq<Row>): seq<string> {
    [TableLine(MarkdownNames(f)) + JsonExport.Cr(f)]
    + ([RuleLine(f) + JsonExport.Cr(f)] + (RowLines(f, rows) + [""]))
  }

  lemma PiecesAre(f: Format, rows: seq<Row>)
    ensures var all, cr := Pieces(f, rows), JsonExport.Cr(f);
            && |all| == 3 + |rows| && all[2 + |rows|] == ""
            && all[0] == TableLine(MarkdownNames(f)) + cr && all[1] == RuleLine(f) + cr
            && forall i | 0 <= i < |rows| :: all[2 + i] == TableLine(Fields(f, rows[i])) + cr
  {
    hide TableLine, RuleLine;
  }

  lemma MarkdownSplits(f: Format, rows: seq<Row>)
    requires f.etype.Markdown?
    ensures SplitAt(Delimited.AfterMark(f, Complete(f, rows)), '\n') == Pieces(f, rows)
  {
    FileIs(f, rows);
    hide SplitAt, TableLine, RuleLine, Complete, RowsText, Fields, AllFields, Delimited.AfterMark, MarkdownNames;
    FieldsAreTexts(f, []);
    LineHolds(MarkdownNames(f), HeadTexts(f));
    RuleHolds(f);
    RowLinesSplit(f, 0, rows);
    OneLine(f, RuleLine(f), RowsText(f, 0, rows));
    OneLine(f, TableLine(MarkdownNames(f)), RuleLine(f) + Eol(f) + RowsText(f, 0, rows));
  }

  lemma BarBeforeCr(fields: seq<string>, cr: string)
    requires cr == "" || cr == "\r"
    ensures JsonExport.WithoutCr(TableLine(fields) + cr) == TableLine(fields)
  {
    var line := TableLine(fields);
    assert line[|line| - 1] == '|';
    assert cr == "" ==> line + cr == line;
    assert cr != "" ==> (line + cr)[..|line + cr| - 1] == line;
  }

  lemma EndsInBar(f: Format)
    ensures JsonExport.WithoutCr(TableLine(MarkdownNames(f)) + JsonExport.Cr(f)) == TableLine(MarkdownNames(f))
    ensures JsonExport.WithoutCr(RuleLine(f) + JsonExport.Cr(f)) == RuleLine(f)
  {
    BarBeforeCr(MarkdownNames(f), JsonExport.Cr(f));
    var line, cr := RuleLine(f), JsonExport.Cr(f);
    assert line[|line| - 1] == '|';
    assert cr == "" ==> line + cr == line;
    assert cr != "" ==> (line + cr)[..|line + cr| - 1] == line;
  }

  lemma FileIs(f: Format, rows: seq<Row>)
    requires f.etype.Markdown?
    ensures Delimited.AfterMark(f, Complete(f, rows))
         == TableLine(MarkdownNames(f)) + Eol(f) + (RuleLine(f) + Eol(f) + RowsText(f, 0, rows))
  {
    var head, rule, text := TableLine(MarkdownNames(f)) + Eol(f), RuleLine(f) + Eol(f), RowsText(f, 0, rows);
    HeadIs(f);
    assert Complete(f, rows) == Mark(f) + (Head(f) + (text + ""));
    hide Head, TableLine, RuleLine, RowsText, Complete;
    assert text + "" == text;
    Assoc(head, rule, text);
    Delimited.NoMark(f, Head(f) + text);
  }

  lemma HeadIs(f: Format)
    requires f.etype.Markdown?
    ensures Head(f) == (TableLine(MarkdownNames(f)) + Eol(f)) + (RuleLine(f) + Eol(f))
  {
  }
}
