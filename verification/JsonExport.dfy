/** What the JSON exports write reads back: by the inspector's own parser, to the same cells. */
module JsonExport {
  import opened Basics
  import opened JsonGrammar
  import opened JsonParser
  import opened JsonTheorems
  import opened JsonWriter
  import opened Results
  import opened TextExport

  /** The members of a row's object from column `i` on. */
  function ColumnTrees(columns: seq<ColumnMeta>, row: Row, i: nat): (r: seq<MemberTree>)
    requires i <= |columns|
    ensures |r| == |columns| - i
    decreases |columns| - i
  {
    if i == |columns| then []
    else
      [MemberTree(if i == 0 then "" else " ", JsonString(columns[i].name), "", " ",
                  Leaf(JsonCell(CellAt(row, i), columns[i].kind)), "")]
      + ColumnTrees(columns, row, i + 1)
  }

  function RowTree(f: Format, row: Row): Tree {
    ObjectTree("", ColumnTrees(f.columns, row, 0))
  }

  function RowTrees(f: Format, rows: seq<Row>): (r: seq<ItemTree>)
    ensures |r| == |rows|
  {
    if rows == [] then []
    else
      [ItemTree(Eol(f) + "  ", RowTree(f, rows[0]), if |rows| == 1 then Eol(f) else "")]
      + RowTrees(f, rows[1..])
  }

  function ExportTree(f: Format, rows: seq<Row>): Tree {
    ArrayTree(Eol(f), RowTrees(f, rows))
  }

  // The derivations are ones of the grammar.

  lemma ColumnTreeDerives(columns: seq<ColumnMeta>, row: Row, i: nat)
    requires i < |columns|
    ensures var m := ColumnTrees(columns, row, i)[0];
            MemberDerivation(m) && Height(Value(m.value)) == 0
  {
    JsonStringReadsBack(columns[i].name);
    JsonCellReadsBack(CellAt(row, i), columns[i].kind);
    hide JsonString, JsonCell, IsString, IsScalarText;
  }

  lemma {:induction false} ColumnTreesDerive(columns: seq<ColumnMeta>, row: Row, i: nat)
    requires i <= |columns|
    ensures forall m | m in ColumnTrees(columns, row, i) :: MemberDerivation(m)
    ensures MembersHeight(MembersValue(ColumnTrees(columns, row, i))) <= 1
    decreases |columns| - i
  {
    hide JsonString, JsonCell, MemberDerivation, Height, Value;
    if i < |columns| {
      ColumnTreeDerives(columns, row, i);
      ColumnTreesDerive(columns, row, i + 1);
      var trees := ColumnTrees(columns, row, i);
      assert trees[1..] == ColumnTrees(columns, row, i + 1);
    }
  }

  lemma {:induction false} RowTreesDerive(f: Format, rows: seq<Row>)
    ensures forall t | t in RowTrees(f, rows) :: ItemDerivation(t)
    ensures ItemsHeight(ItemsValue(RowTrees(f, rows))) <= 2
  {
    hide ColumnTrees;
    if rows != [] {
      ColumnTreesDerive(f.columns, rows[0], 0);
      RowTreesDerive(f, rows[1..]);
      var trees := RowTrees(f, rows);
      assert trees[1..] == RowTrees(f, rows[1..]);
      assert ItemDerivation(trees[0]);
    }
  }

  // They put down the exporter's text.

  lemma {:induction false} ColumnTreesText(columns: seq<ColumnMeta>, row: Row, i: nat, tail: string)
    requires i < |columns|
    ensures PutMembers(ColumnTrees(columns, row, i), tail)
         == (if i == 0 then "" else " ") + (Join(JsonMembers(columns, row)[i..], ", ") + ("}" + tail))
    decreases |columns| - i
  {
    hide JsonString, JsonValue, JsonCell;
    var trees := ColumnTrees(columns, row, i);
    var texts := JsonMembers(columns, row);
    var key, value := JsonString(columns[i].name), JsonValue(CellAt(row, i), columns[i].kind);
    JsonCellReadsBack(CellAt(row, i), columns[i].kind);
    assert texts[i] == key + ": " + value;
    assert trees[1..] == ColumnTrees(columns, row, i + 1);
    assert texts[i..][1..] == texts[i + 1..] && texts[i..][0] == texts[i];
    var next: string;
    if i + 1 == |columns| {
      next := "}" + tail;
      assert Join(texts[i..], ", ") == texts[i];
      assert PutMembers(trees, tail) == trees[0].before + (key + ("" + (":" + (" " + (value + ("" + next))))));
      Spread(trees[0].before, key, value, next);
    } else {
      ColumnTreesText(columns, row, i + 1, tail);
      var more := Join(texts[i + 1..], ", ") + ("}" + tail);
      next := "," + (" " + more);
      assert PutMembers(trees, tail) == trees[0].before + (key + ("" + (":" + (" " + (value + ("" + next))))));
      Spread(trees[0].before, key, value, next);
      assert Join(texts[i..], ", ") == texts[i] + ", " + Join(texts[i + 1..], ", ");
      Together(texts[i], Join(texts[i + 1..], ", "), "}" + tail);
    }
  }

  lemma Spread(before: string, key: string, value: string, next: string)
    ensures before + (key + ("" + (":" + (" " + (value + ("" + next)))))) == before + ((key + ": " + value) + next)
  {
  }

  lemma Together(first: string, more: string, end: string)
    ensures first + ("," + (" " + (more + end))) == (first + ", " + more) + end
  {
  }

  lemma RowTreeText(f: Format, row: Row, tail: string)
    ensures Put(RowTree(f, row), tail) == ObjectText(f, row) + tail
  {
    hide JsonMembers, Join;
    if f.columns == [] {
      assert JsonMembers(f.columns, row) == [];
      NoMembers(tail);
    } else {
      ColumnTreesText(f.columns, row, 0, tail);
      assert JsonMembers(f.columns, row)[0..] == JsonMembers(f.columns, row);
      Braces(Join(JsonMembers(f.columns, row), ", "), tail);
    }
  }

  lemma NoMembers(tail: string)
    ensures "{" + ("" + ("}" + tail)) == "{" + Join([], ", ") + "}" + tail
  {
  }

  lemma Braces(inside: string, tail: string)
    ensures "{" + ("" + (inside + ("}" + tail))) == "{" + inside + "}" + tail
  {
  }

  lemma {:induction false} RowTreesText(f: Format, before: nat, rows: seq<Row>, tail: string)
    requires f.etype.Json? && rows != []
    ensures (if before == 0 then "" else ",") + PutItems(RowTrees(f, rows), tail)
         == (if before == 0 then Eol(f) else "") + (RowsText(f, before, rows) + (Eol(f) + ("]" + tail)))
    decreases rows
  {
    hide ObjectText, RowTree, Eol;
    var trees := RowTrees(f, rows);
    var end := Eol(f) + ("]" + tail);
    var rest := RowsText(f, before + 1, rows[1..]);
    assert trees[1..] == RowTrees(f, rows[1..]);
    var next := if |rows| == 1 then "]" + tail else "," + PutItems(trees[1..], tail);
    assert trees[0].after + next == rest + end by {
      if |rows| > 1 {
        RowTreesText(f, before + 1, rows[1..], tail);
      }
    }
    RowTreeText(f, rows[0], rest + end);
    assert PutItems(trees, tail) == (Eol(f) + "  ") + (ObjectText(f, rows[0]) + (rest + end));
    FirstRow(Eol(f), ObjectText(f, rows[0]), rest + end);
    NextRow(Eol(f), ObjectText(f, rows[0]), rest + end);
    Assoc(RowText(f, before, rows[0]), rest, end);
  }

  lemma FirstRow(eol: string, written: string, rest: string)
    ensures "" + ((eol + "  ") + (written + rest)) == eol + (("" + ("  " + written)) + rest)
  {
  }

  lemma NextRow(eol: string, written: string, rest: string)
    ensures "," + ((eol + "  ") + (written + rest)) == "" + ((("," + eol) + ("  " + written)) + rest)
  {
  }

  lemma ExportTreeText(f: Format, rows: seq<Row>)
    requires f.etype.Json? && !f.opts.bom
    ensures Complete(f, rows) == "" + Put(ExportTree(f, rows), Eol(f))
  {
    hide RowText, RowTree;
    var eol := Eol(f);
    if rows == [] {
      assert "" + (("[" + eol) + ("" + ("" + ("]" + eol)))) == "" + ("[" + (eol + ("]" + eol)));
    } else {
      RowTreesText(f, 0, rows, eol);
      var text := RowsText(f, 0, rows);
      assert "" + PutItems(RowTrees(f, rows), eol) == PutItems(RowTrees(f, rows), eol);
      assert "" + (("[" + eol) + (text + (eol + ("]" + eol)))) == "" + ("[" + (eol + (text + (eol + ("]" + eol)))));
    }
  }

  // What a reader finds.

  /** A row's object: every column in order, each name and value reading back. */
  ghost predicate ReadsAs(j: JsonGrammar.Json, columns: seq<ColumnMeta>, row: Row) {
    && j.Object? && |j.members| == |columns|
    && forall i | 0 <= i < |columns| ::
         && Decoded(j.members[i].key) == Some(columns[i].name)
         && ScalarCell(j.members[i].value) == CellAt(row, i)
         && j.members[i].value == JsonCell(CellAt(row, i), columns[i].kind)
  }

  lemma {:induction false} ColumnTreesRead(columns: seq<ColumnMeta>, row: Row, i: nat)
    requires i <= |columns|
    ensures forall k | i <= k < |columns| ::
              MembersValue(ColumnTrees(columns, row, i))[k - i]
              == JsonGrammar.Member(JsonString(columns[k].name), JsonCell(CellAt(row, k), columns[k].kind))
    decreases |columns| - i
  {
    hide JsonString, JsonCell, CellAt, ColumnTrees, JsonGrammar.Value;
    if i < |columns| {
      ColumnTreesRead(columns, row, i + 1);
      var trees := ColumnTrees(columns, row, i);
      FirstColumn(columns, row, i);
      forall k | i <= k < |columns|
        ensures MembersValue(trees)[k - i]
             == JsonGrammar.Member(JsonString(columns[k].name), JsonCell(CellAt(row, k), columns[k].kind))
      {
        if k > i {
          assert MembersValue(trees)[k - i] == MembersValue(trees[1..])[k - (i + 1)];
        }
      }
    }
  }

  lemma FirstColumn(columns: seq<ColumnMeta>, row: Row, i: nat)
    requires i < |columns|
    ensures var trees := ColumnTrees(columns, row, i);
            && trees[1..] == ColumnTrees(columns, row, i + 1)
            && MembersValue(trees)[0]
               == JsonGrammar.Member(JsonString(columns[i].name), JsonCell(CellAt(row, i), columns[i].kind))
  {
    hide JsonString, JsonCell;
  }

  lemma RowTreeReads(f: Format, row: Row)
    ensures ReadsAs(Value(RowTree(f, row)), f.columns, row)
  {
    ColumnTreesRead(f.columns, row, 0);
    forall i | 0 <= i < |f.columns|
      ensures Decoded(JsonString(f.columns[i].name)) == Some(f.columns[i].name)
      ensures ScalarCell(JsonCell(CellAt(row, i), f.columns[i].kind)) == CellAt(row, i)
    {
      JsonStringReadsBack(f.columns[i].name);
      JsonCellReadsBack(CellAt(row, i), f.columns[i].kind);
    }
    var members := MembersValue(ColumnTrees(f.columns, row, 0));
    assert forall i | 0 <= i < |f.columns| :: members[i] == members[i - 0];
  }

  lemma {:induction false} RowTreesRead(f: Format, rows: seq<Row>)
    ensures forall i | 0 <= i < |rows| :: ReadsAs(ItemsValue(RowTrees(f, rows))[i], f.columns, rows[i])
  {
    hide ReadsAs, RowTree;
    if rows != [] {
      RowTreeReads(f, rows[0]);
      RowTreesRead(f, rows[1..]);
      var trees := RowTrees(f, rows);
      assert trees[1..] == RowTrees(f, rows[1..]);
      assert forall i | 0 < i < |rows| :: ItemsValue(trees)[i] == ItemsValue(trees[1..])[i - 1];
    }
  }

  /** A JSON export is one array of one object per row, and every value reads back as its cell. */
  lemma JsonExportReadsBack(f: Format, rows: seq<Row>)
    requires f.etype.Json? && !f.opts.bom
    ensures var r := Parse(Complete(f, rows));
            && r.Some? && r.value.Array? && |r.value.items| == |rows|
            && forall i | 0 <= i < |rows| :: ReadsAs(r.value.items[i], f.columns, rows[i])
  {
    hide ReadsAs, Complete;
    var tree := ExportTree(f, rows);
    ExportTreeText(f, rows);
    RowTreesDerive(f, rows);
    RowTreesRead(f, rows);
    assert DerivesBy(Complete(f, rows), "", tree, Eol(f));
    ParseIsTheGrammar(Complete(f, rows), Value(tree));
  }

  lemma MarkIsNoJson(s: string)
    requires s != "" && s[0] == 0xFEFF as char
    ensures Parse(s).None?
  {
    assert ParseNumber(s).Fail? by {
      assert s[0..] == s;
      assert WholeEnd(s) == None;
    }
    hide ParseNumber;
    assert SkipWs(s) == s;
    assert ParseScalar(s).Fail?;
  }

  /** With a byte-order mark in front the parser takes nothing: it knows only JSON's own whitespace. */
  lemma JsonExportParsesWithoutMark(f: Format, rows: seq<Row>)
    requires f.etype.Json?
    ensures Parse(Complete(f, rows)).Some? <==> !f.opts.bom
  {
    if f.opts.bom {
      MarkIsNoJson(Complete(f, rows));
    } else {
      JsonExportReadsBack(f, rows);
    }
  }

  /** Each line of a JSON Lines export is a row's object, ended by the line ending alone. */
  lemma JsonLineReadsBack(f: Format, before: nat, row: Row)
    requires f.etype.JsonLines?
    ensures RowText(f, before, row) == ObjectText(f, row) + Eol(f)
    ensures Parse(ObjectText(f, row)).Some? && ReadsAs(Parse(ObjectText(f, row)).value, f.columns, row)
    ensures forall i | 0 <= i < |ObjectText(f, row)| :: ObjectText(f, row)[i] != '\n' && ObjectText(f, row)[i] != '\r'
  {
    hide ReadsAs, ObjectText, ColumnTrees;
    var tree := RowTree(f, row);
    RowTreeText(f, row, "");
    RowTreeReads(f, row);
    ColumnTreesDerive(f.columns, row, 0);
    assert DerivesBy(ObjectText(f, row), "", tree, "") by {
      assert ObjectText(f, row) + "" == ObjectText(f, row) && "" + ObjectText(f, row) == ObjectText(f, row);
    }
    ParseIsTheGrammar(ObjectText(f, row), Value(tree));
    ObjectOnOneLine(f, row);
  }

  // JSON Lines, the file.

  /** The lines of a file, each without the line ending, CR LF or LF alone, that ends it. */
  function FileLines(file: string): (lines: seq<string>)
    ensures |lines| == |SplitAt(file, '\n')| - 1
  {
    var pieces := SplitAt(file, '\n');
    seq(|pieces| - 1, i requires 0 <= i < |pieces| - 1 => WithoutCr(pieces[i]))
  }

  /** What follows the last line ending. */
  function Unended(file: string): string {
    var pieces := SplitAt(file, '\n');
    pieces[|pieces| - 1]
  }

  function WithoutCr(line: string): string {
    if line != "" && line[|line| - 1] == '\r' then line[..|line| - 1] else line
  }

  function Cr(f: Format): string {
    if f.opts.crlf then "\r" else ""
  }

  /** The rows' lines without their last character. */
  function RowLines(f: Format, rows: seq<Row>): (lines: seq<string>)
    ensures |lines| == |rows| && forall i | 0 <= i < |rows| :: lines[i] == ObjectText(f, rows[i]) + Cr(f)
  {
    seq(|rows|, i requires 0 <= i < |rows| => ObjectText(f, rows[i]) + Cr(f))
  }

  lemma {:induction false} RowLinesSplit(f: Format, before: nat, rows: seq<Row>)
    requires f.etype.JsonLines?
    ensures SplitAt(RowsText(f, before, rows), '\n') == RowLines(f, rows) + [""]
    decreases rows
  {
    hide ObjectText, SplitAt, NoBreak;
    if rows == [] {
      SplitNowhere("", '\n');
    } else {
      var line, rest := ObjectText(f, rows[0]) + Cr(f), RowsText(f, before + 1, rows[1..]);
      ObjectOnOneLine(f, rows[0]);
      OnOneLine(ObjectText(f, rows[0]));
      RowLinesSplit(f, before + 1, rows[1..]);
      LineFirst(f, rows[0], before, rest);
      SplitNowhere(line, '\n');
      SplitBetween(line, '\n', rest);
      assert RowLines(f, rows) == [line] + RowLines(f, rows[1..]);
      Assoc([line], RowLines(f, rows[1..]), [""]);
    }
  }

  lemma LineFirst(f: Format, row: Row, before: nat, rest: string)
    requires f.etype.JsonLines?
    ensures RowText(f, before, row) + rest == ObjectText(f, row) + Cr(f) + ['\n'] + rest
  {
    hide ObjectText;
    assert ObjectText(f, row) + "\r\n" == ObjectText(f, row) + "\r" + "\n";
    assert ObjectText(f, row) + "\n" == ObjectText(f, row) + "" + "\n";
  }

  lemma OnOneLine(s: string)
    requires NoBreak(s)
    ensures '\n' !in s && '\r' !in s
  {
  }

  lemma NoBreakInMark(f: Format)
    ensures '\n' !in Mark(f)
  {
  }

  /** A JSON Lines export has a line for each row and nothing after the last; the mark, if one was
      asked for, is on the first. */
  lemma JsonLinesFile(f: Format, rows: seq<Row>)
    requires f.etype.JsonLines?
    ensures var lines := FileLines(Complete(f, rows));
            && |lines| == |rows|
            && forall i | 0 <= i < |rows| :: lines[i] == (if i == 0 then Mark(f) else "") + ObjectText(f, rows[i])
    ensures Unended(Complete(f, rows)) == if rows == [] then Mark(f) else ""
  {
    hide ObjectText, SplitAt, NoBreak, Complete, RowsText, WithoutCr, Mark;
    var text := RowsText(f, 0, rows);
    assert Complete(f, rows) == Mark(f) + text by { NothingElse(f, rows); }
    assert '\n' !in Mark(f) by { NoBreakInMark(f); }
    RowLinesSplit(f, 0, rows);
    SplitFront(Mark(f), text, '\n');
    forall i | 0 <= i < |rows|
      ensures FileLines(Complete(f, rows))[i] == (if i == 0 then Mark(f) else "") + ObjectText(f, rows[i])
    {
      var front := if i == 0 then Mark(f) else "";
      ObjectOnOneLine(f, rows[i]);
      OnOneLine(ObjectText(f, rows[i]));
      assert ObjectText(f, rows[i]) != "" by { NotEmpty(f, rows[i]); }
      EndsWithout(front, ObjectText(f, rows[i]), Cr(f));
      Assoc(front, ObjectText(f, rows[i]), Cr(f));
      assert i > 0 ==> front + (ObjectText(f, rows[i]) + Cr(f)) == ObjectText(f, rows[i]) + Cr(f);
    }
  }

  lemma NothingElse(f: Format, rows: seq<Row>)
    requires f.etype.JsonLines?
    ensures Complete(f, rows) == Mark(f) + RowsText(f, 0, rows)
  {
    var text := RowsText(f, 0, rows);
    assert text + "" == text && "" + (text + "") == text + "";
  }

  lemma NotEmpty(f: Format, row: Row)
    ensures ObjectText(f, row) != ""
  {
  }

  lemma EndsWithout(front: string, text: string, cr: string)
    requires '\r' !in text && text != "" && (cr == "" || cr == "\r")
    ensures WithoutCr(front + text + cr) == front + text
  {
    var s := front + text;
    assert s[|s| - 1] == text[|text| - 1];
    assert cr == "" ==> s + cr == s;
    assert cr != "" ==> (s + cr)[..|s + cr| - 1] == s;
  }

  /** Whether line `i` of the file is read as the row it was written for. */
  ghost predicate LineReads(f: Format, rows: seq<Row>, i: nat)
    requires i < |rows| && i < |FileLines(Complete(f, rows))|
  {
    var r := Parse(FileLines(Complete(f, rows))[i]);
    r.Some? && ReadsAs(r.value, f.columns, rows[i])
  }

  /** Each line of a JSON Lines export is read as its row, but for the first when it has the mark on it. */
  lemma JsonLinesReadBack(f: Format, rows: seq<Row>)
    requires f.etype.JsonLines?
    ensures |FileLines(Complete(f, rows))| == |rows| && (!f.opts.bom || rows != [] ==> Unended(Complete(f, rows)) == "")
    ensures forall i | 0 <= i < |rows| :: LineReads(f, rows, i) <==> i > 0 || !f.opts.bom
    ensures (forall i | 0 <= i < |rows| :: LineReads(f, rows, i)) <==> rows == [] || !f.opts.bom
  {
    hide ReadsAs, ObjectText, FileLines, Complete, Parse, Unended;
    JsonLinesFile(f, rows);
    forall i | 0 <= i < |rows|
      ensures LineReads(f, rows, i) <==> i > 0 || !f.opts.bom
    {
      var line := FileLines(Complete(f, rows))[i];
      if i == 0 && f.opts.bom {
        MarkIsNoJson(line);
      } else {
        assert line == ObjectText(f, rows[i]) by { assert "" + ObjectText(f, rows[i]) == ObjectText(f, rows[i]); }
        JsonLineReadsBack(f, i, rows[i]);
      }
    }
    assert rows != [] && f.opts.bom ==> !LineReads(f, rows, 0);
  }

  lemma {:induction false} EscapedOnOneLine(text: string)
    ensures NoBreak(EscapedText(text))
  {
    if text != "" {
      EscapedOnOneLine(text[1..]);
      assert NoBreak(Escaped(text[0]));
    }
  }

  lemma ValueOnOneLine(value: Cell, kind: ValueKind)
    ensures NoBreak(JsonValue(value, kind))
  {
    match value {
      case None =>
      case Some(v) =>
        EscapedOnOneLine(v);
        if IsJsonNumber(v) {
          RecogniserIsTheGrammar(v);
          NumberOnOneLine(v);
        }
    }
  }

  lemma {:induction false} JoinOnOneLine(pieces: seq<string>, separator: string)
    requires NoBreak(separator) && forall p | p in pieces :: NoBreak(p)
    ensures NoBreak(Join(pieces, separator))
  {
    if |pieces| > 1 {
      JoinOnOneLine(pieces[1..], separator);
      assert NoBreak(pieces[0]);
    } else if |pieces| == 1 {
      assert NoBreak(pieces[0]);
    }
  }

  lemma ObjectOnOneLine(f: Format, row: Row)
    ensures NoBreak(ObjectText(f, row))
  {
    var members := JsonMembers(f.columns, row);
    forall i | 0 <= i < |members|
      ensures NoBreak(members[i])
    {
      EscapedOnOneLine(f.columns[i].name);
      ValueOnOneLine(CellAt(row, i), f.columns[i].kind);
      assert members[i] == JsonString(f.columns[i].name) + ": " + JsonValue(CellAt(row, i), f.columns[i].kind);
    }
    JoinOnOneLine(members, ", ");
  }
}
