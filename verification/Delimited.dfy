/**
 CSV and TSV against readers written apart from them: a reader of section 2 of RFC 4180, and
 one that splits at tabs and line breaks and then takes the escapes back.
 */
module Delimited {
  import opened Basics
  import opened Results
  import opened TextExport

  /** A field as a reader finds it: NULLs and empty strings may differ in the quotes alone. */
  datatype Read = Read(quoted: bool, text: string)

  datatype ReadText<+T> = Broken | Got(value: T, rest: string)

  /** `parse_separator`. */
  function ParseSeparator(text: string): Option<char> {
    if |text| != 1 || text[0] == '"' || text[0] == '\n' || text[0] == '\r' then None else Some(text[0])
  }

  predicate Allowed(separator: char) {
    separator != '"' && separator != '\n' && separator != '\r'
  }

  /** A text is taken for a separator exactly when it is that one character and the character is allowed. */
  lemma SeparatorsParsed(text: string, c: char)
    ensures ParseSeparator(text) == Some(c) <==> text == [c] && Allowed(c)
    ensures ParseSeparator(text) == None <==> !exists d :: text == [d] && Allowed(d)
  {
    if |text| == 1 {
      assert text == [text[0]];
    }
  }

  // The reader.

  predicate Ends(c: char, separator: char) {
    c == separator || c == '\n' || c == '\r'
  }

  /** How long an unquoted field is. */
  function PlainEnd(s: string, separator: char): (n: nat)
    ensures n <= |s|
  {
    if s == "" || Ends(s[0], separator) then 0 else 1 + PlainEnd(s[1..], separator)
  }

  /** A quoted field, from after its opening quote: a doubled quote stands for one. */
  function ReadQuoted(s: string): (r: ReadText<string>)
    ensures r.Got? ==> |r.rest| < |s|
  {
    if s == "" then Broken
    else if s[0] != '"' then OneMore(s[0], ReadQuoted(s[1..]))
    else if |s| > 1 && s[1] == '"' then OneMore('"', ReadQuoted(s[2..]))
    else Got("", s[1..])
  }

  function OneMore(c: char, r: ReadText<string>): ReadText<string> {
    match r
    case Broken => Broken
    case Got(text, rest) => Got([c] + text, rest)
  }

  function ReadField(s: string, separator: char, quotes: bool): (r: ReadText<Read>)
    ensures r.Got? ==> |r.rest| <= |s|
  {
    if quotes && s != "" && s[0] == '"' then
      match ReadQuoted(s[1..])
      case Broken => Broken
      case Got(text, rest) => Got(Read(true, text), rest)
    else
      var n := PlainEnd(s, separator);
      Got(Read(false, s[..n]), s[n..])
  }

  /** A record, and the text after its line break. */
  function ReadRecord(s: string, separator: char, quotes: bool): (r: ReadText<seq<Read>>)
    ensures r.Got? ==> |r.rest| <= |s| && (s != "" ==> |r.rest| < |s|)
    decreases |s|
  {
    match ReadField(s, separator, quotes)
    case Broken => Broken
    case Got(field, rest) =>
      if rest == "" then Got([field], "")
      else if rest[0] == separator then
        match ReadRecord(rest[1..], separator, quotes)
        case Broken => Broken
        case Got(more, end) => Got([field] + more, end)
      else if rest[0] == '\n' then Got([field], rest[1..])
      else if |rest| > 1 && rest[0] == '\r' && rest[1] == '\n' then Got([field], rest[2..])
      else Broken
  }

  function ReadFile(s: string, separator: char, quotes: bool): Option<seq<seq<Read>>>
    decreases |s|
  {
    if s == "" then Some([])
    else
      match ReadRecord(s, separator, quotes)
      case Broken => None
      case Got(record, rest) =>
        match ReadFile(rest, separator, quotes)
        case None => None
        case Some(more) => Some([record] + more)
  }

  // What a written field found as.

  predicate Plain(text: string, separator: char, quotes: bool) {
    forall i | 0 <= i < |text| :: !Ends(text[i], separator) && (quotes ==> text[i] != '"')
  }

  /** `text` is written so that the reader finds `read`. */
  predicate Writes(text: string, read: Read, separator: char, quotes: bool) {
    if read.quoted then quotes && text == "\"" + Replace(read.text, '"', "\"\"") + "\""
    else text == read.text && Plain(text, separator, quotes)
  }

  lemma {:induction false} PlainEndOf(text: string, rest: string, separator: char, quotes: bool)
    requires Plain(text, separator, quotes) && (rest == "" || Ends(rest[0], separator))
    ensures PlainEnd(text + rest, separator) == |text|
  {
    if text == "" {
      assert text + rest == rest;
    } else {
      assert (text + rest)[1..] == text[1..] + rest;
      PlainEndOf(text[1..], rest, separator, quotes);
    }
  }

  lemma QuotedOnce(c: char, more: string)
    ensures ReadQuoted((if c == '"' then "\"\"" else [c]) + more) == OneMore(c, ReadQuoted(more))
  {
    var one := if c == '"' then "\"\"" else [c];
    assert (one + more)[|one|..] == more;
  }

  lemma {:induction false} QuotedReadsBack(text: string, rest: string)
    requires rest == "" || rest[0] != '"'
    ensures ReadQuoted(Replace(text, '"', "\"\"") + ("\"" + rest)) == Got(text, rest)
  {
    if text == "" {
      assert "" + ("\"" + rest) == "\"" + rest;
      assert ("\"" + rest)[1..] == rest;
    } else {
      hide ReadQuoted;
      var one := if text[0] == '"' then "\"\"" else [text[0]];
      QuotedReadsBack(text[1..], rest);
      QuotedOnce(text[0], Replace(text[1..], '"', "\"\"") + ("\"" + rest));
      Assoc(one, Replace(text[1..], '"', "\"\""), "\"" + rest);
      assert text == [text[0]] + text[1..];
    }
  }

  lemma FieldReadsBack(text: string, read: Read, rest: string, separator: char, quotes: bool)
    requires Allowed(separator) && Writes(text, read, separator, quotes)
    requires rest == "" || Ends(rest[0], separator)
    ensures ReadField(text + rest, separator, quotes) == Got(read, rest)
  {
    var s := text + rest;
    if read.quoted {
      var inside := Replace(read.text, '"', "\"\"");
      QuotedReadsBack(read.text, rest);
      assert s[1..] == inside + ("\"" + rest);
    } else {
      PlainEndOf(text, rest, separator, quotes);
      DropOf(text, rest);
      assert s != "" ==> s[0] == if text == "" then rest[0] else text[0];
    }
  }

  predicate AllWritten(texts: seq<string>, found: seq<Read>, separator: char, quotes: bool) {
    |texts| == |found| && forall i | 0 <= i < |texts| :: Writes(texts[i], found[i], separator, quotes)
  }

  predicate LineBreak(eol: string) {
    eol == "\n" || eol == "\r\n"
  }

  /** A record's fields; a line with none found as one empty field. */
  function Padded(found: seq<Read>): seq<Read> {
    if found == [] then [Read(false, "")] else found
  }

  lemma {:induction false} RecordReadsBack(texts: seq<string>, found: seq<Read>, eol: string, rest: string,
          separator: char, quotes: bool)
    requires Allowed(separator) && AllWritten(texts, found, separator, quotes)
    requires LineBreak(eol) || (eol == "" && rest == "")
    ensures ReadRecord(Join(texts, [separator]) + (eol + rest), separator, quotes) == Got(Padded(found), rest)
    decreases |texts|
  {
    hide Writes, ReadField, ReadRecord, Join;
    var s := Join(texts, [separator]) + (eol + rest);
    if |texts| <= 1 {
      var text := if texts == [] then "" else texts[0];
      assert Join(texts, [separator]) == text by { JoinOfOne(texts, [separator]); }
      assert Writes(text, Padded(found)[0], separator, quotes) by {
        NothingWritten(separator, quotes);
      }
      FieldReadsBack(text, Padded(found)[0], eol + rest, separator, quotes);
      LastField(s, Padded(found)[0], eol, rest, separator, quotes);
      assert Padded(found) == [Padded(found)[0]];
    } else {
      var more := Join(texts[1..], [separator]) + (eol + rest);
      FieldReadsBack(texts[0], found[0], [separator] + more, separator, quotes);
      RecordReadsBack(texts[1..], found[1..], eol, rest, separator, quotes);
      NextField(texts[0] + ([separator] + more), found[0], more, separator, quotes);
      JoinFirst(texts, [separator], eol + rest);
      assert [found[0]] + found[1..] == found;
    }
  }

  lemma JoinOfOne(texts: seq<string>, separator: string)
    requires |texts| <= 1
    ensures Join(texts, separator) == if texts == [] then "" else texts[0]
  {
  }

  lemma JoinFirst(texts: seq<string>, separator: string, end: string)
    requires |texts| > 1
    ensures Join(texts, separator) + end == texts[0] + (separator + (Join(texts[1..], separator) + end))
  {
    Assoc(texts[0] + separator, Join(texts[1..], separator), end);
    Assoc(texts[0], separator, Join(texts[1..], separator) + end);
  }

  /** The last field of a line, and its end. */
  lemma LastField(s: string, read: Read, eol: string, rest: string, separator: char, quotes: bool)
    requires Allowed(separator) && (LineBreak(eol) || (eol == "" && rest == ""))
    requires ReadField(s, separator, quotes) == Got(read, eol + rest)
    ensures ReadRecord(s, separator, quotes) == Got([read], rest)
  {
    hide ReadField;
    assert (eol + rest)[|eol|..] == rest;
    assert eol != "" ==> (eol + rest)[0] != separator;
  }

  /** A field with another after it. */
  lemma NextField(s: string, read: Read, more: string, separator: char, quotes: bool)
    requires Allowed(separator) && ReadField(s, separator, quotes) == Got(read, [separator] + more)
    ensures ReadRecord(s, separator, quotes)
         == match ReadRecord(more, separator, quotes)
            case Broken => Broken
            case Got(found, rest) => Got([read] + found, rest)
  {
    hide ReadField;
    assert ([separator] + more)[1..] == more;
  }

  lemma NothingWritten(separator: char, quotes: bool)
    ensures Writes("", Read(false, ""), separator, quotes)
  {
  }

  /** Lines of records, each ended by `eol`. */
  function Lines(records: seq<seq<string>>, separator: char, eol: string): string {
    if records == [] then "" else (Join(records[0], [separator]) + eol) + Lines(records[1..], separator, eol)
  }

  lemma {:induction false} LinesReadBack(records: seq<seq<string>>, found: seq<seq<Read>>, separator: char,
          eol: string, quotes: bool)
    requires Allowed(separator) && LineBreak(eol) && |records| == |found|
    requires forall i | 0 <= i < |records| :: AllWritten(records[i], found[i], separator, quotes)
    ensures ReadFile(Lines(records, separator, eol), separator, quotes) == Some(Each(found))
  {
    hide AllWritten, ReadRecord, Padded;
    if records != [] {
      var rest := Lines(records[1..], separator, eol);
      LinesReadBack(records[1..], found[1..], separator, eol, quotes);
      RecordReadsBack(records[0], found[0], eol, rest, separator, quotes);
      Assoc(Join(records[0], [separator]), eol, rest);
    }
  }

  function Each(found: seq<seq<Read>>): (r: seq<seq<Read>>)
    ensures |r| == |found|
    ensures forall i | 0 <= i < |found| :: r[i] == Padded(found[i])
  {
    if found == [] then [] else [Padded(found[0])] + Each(found[1..])
  }

  // CSV.

  predicate HasSpecial(text: string, separator: char) {
    exists i | 0 <= i < |text| :: Special(text[i], separator)
  }

  /** What a CSV export's cell found as. */
  function CsvRead(f: Format, value: Cell): Read {
    match value
    case None => Read(HasSpecial(f.opts.nullAs, f.opts.separator), f.opts.nullAs)
    case Some(v) => Read(v == "" || HasSpecial(v, f.opts.separator), v)
  }

  lemma CsvFieldWrites(text: string, separator: char)
    ensures Writes(CsvField(text, separator), Read(HasSpecial(text, separator), text), separator, true)
  {
    if !HasSpecial(text, separator) {
      forall i | 0 <= i < |text|
        ensures !Ends(text[i], separator) && text[i] != '"'
      {
        assert !Special(text[i], separator);
      }
    }
  }

  lemma CsvCellWrites(f: Format, value: Cell)
    requires f.etype == Csv
    ensures Writes(Field(f, value), CsvRead(f, value), f.opts.separator, true)
  {
    match value {
      case None => CsvFieldWrites(f.opts.nullAs, f.opts.separator);
      case Some(v) =>
        CsvFieldWrites(v, f.opts.separator);
        assert v == "" ==> "\"\"" == "\"" + Replace("", '"', "\"\"") + "\"";
    }
  }

  /** The cells of a row as a reader finds them: as many as there are columns, or more. */
  function CsvReads(f: Format, row: Row): (r: seq<Read>)
    ensures |r| == Width(f, row)
  {
    seq(Width(f, row), i requires i >= 0 => CsvRead(f, CellAt(row, i)))
  }

  function HeaderRow(f: Format): (r: Row)
    ensures |r| == |f.columns|
  {
    seq(|f.columns|, i requires 0 <= i < |f.columns| => Some(f.columns[i].name))
  }

  /** The header, if there is one, and the rows. */
  function AllRows(f: Format, rows: seq<Row>): seq<Row> {
    (if f.opts.header then [HeaderRow(f)] else []) + rows
  }

  function RecordsOf(f: Format, rows: seq<Row>): (r: seq<seq<string>>)
    ensures |r| == |rows|
  {
    if rows == [] then [] else [Fields(f, rows[0])] + RecordsOf(f, rows[1..])
  }

  predicate IsDelimited(f: Format) {
    f.etype == Csv || f.etype == Tsv || f.etype == ExportType.Text
  }

  lemma {:induction false} RowsTextIsLines(f: Format, before: nat, rows: seq<Row>)
    requires IsDelimited(f)
    ensures RowsText(f, before, rows) == Lines(RecordsOf(f, rows), Separator(f)[0], Eol(f))
    decreases rows
  {
    if rows != [] {
      RowsTextIsLines(f, before + 1, rows[1..]);
    }
  }

  /** The file without the byte-order mark it was asked for. */
  function AfterMark(f: Format, file: string): string {
    if f.opts.bom && BOM <= file then file[|BOM|..] else file
  }

  /** A delimited export is its header and rows, a line each, after the mark if there is one. */
  lemma DelimitedIsLines(f: Format, rows: seq<Row>)
    requires IsDelimited(f)
    ensures AfterMark(f, Complete(f, rows)) == Lines(RecordsOf(f, AllRows(f, rows)), Separator(f)[0], Eol(f))
  {
    hide Field, RowsText, Width, Eol, AfterMark, Mark;
    var text := RowsText(f, 0, rows);
    RowsTextIsLines(f, 0, rows);
    assert Head(f) + (text + "") == Head(f) + text;
    NoMark(f, Head(f) + text);
    if f.opts.header {
      assert HeaderFields(f) == Fields(f, HeaderRow(f)) by { HeaderIsRow(f); }
      assert AllRows(f, rows)[1..] == rows;
      assert RecordsOf(f, AllRows(f, rows))[1..] == RecordsOf(f, rows);
    } else {
      assert AllRows(f, rows) == rows && "" + text == text;
    }
  }

  lemma HeaderIsRow(f: Format)
    ensures HeaderFields(f) == Fields(f, HeaderRow(f))
  {
    hide Field;
  }

  lemma NoMark(f: Format, text: string)
    ensures AfterMark(f, Mark(f) + text) == text
  {
    DropOf(Mark(f), text);
    assert "" + text == text;
  }

  lemma {:induction false} CsvRecordsWritten(f: Format, rows: seq<Row>)
    requires f.etype == Csv
    ensures forall i | 0 <= i < |rows| ::
              AllWritten(RecordsOf(f, rows)[i], CsvReads(f, rows[i]), f.opts.separator, true)
  {
    hide Field, Writes, CsvRead;
    if rows != [] {
      CsvRecordsWritten(f, rows[1..]);
      forall k | 0 <= k < Width(f, rows[0])
        ensures Writes(Fields(f, rows[0])[k], CsvReads(f, rows[0])[k], f.opts.separator, true)
      {
        CsvCellWrites(f, CellAt(rows[0], k));
      }
      assert forall i | 0 < i < |rows| :: RecordsOf(f, rows)[i] == RecordsOf(f, rows[1..])[i - 1];
    }
  }

  function CsvFile(f: Format, rows: seq<Row>): (r: seq<seq<Read>>)
    ensures |r| == |rows|
    ensures forall i | 0 <= i < |rows| :: r[i] == CsvReads(f, rows[i])
  {
    if rows == [] then [] else [CsvReads(f, rows[0])] + CsvFile(f, rows[1..])
  }

  /**
   A reader of RFC 4180 section 2 finds every name and cell of a CSV export, for any allowed
   separator, either line ending, and with or without a byte-order mark in front; a line
   without fields it takes for one empty field.
   */
  lemma CsvReadsBack(f: Format, rows: seq<Row>)
    requires f.etype == Csv && Allowed(f.opts.separator)
    ensures ReadFile(AfterMark(f, Complete(f, rows)), f.opts.separator, true)
            == Some(Each(CsvFile(f, AllRows(f, rows))))
  {
    hide Complete, AfterMark, AllRows, CsvReads, AllWritten;
    DelimitedIsLines(f, rows);
    CsvRecordsWritten(f, AllRows(f, rows));
    LinesReadBack(RecordsOf(f, AllRows(f, rows)), CsvFile(f, AllRows(f, rows)), f.opts.separator, Eol(f), true);
  }

  /** The cell a field stands for when NULL is written as nothing. */
  function CellOf(read: Read): Cell {
    if !read.quoted && read.text == "" then None else Some(read.text)
  }

  /** With an empty `null_as`, and only then, every cell can be told from every other. */
  lemma CellsToldApart(f: Format)
    requires f.etype == Csv
    ensures f.opts.nullAs == "" <==> forall a, b :: Field(f, a) == Field(f, b) ==> a == b
    ensures f.opts.nullAs == "" ==> forall a :: CellOf(CsvRead(f, a)) == a
  {
    if f.opts.nullAs == "" {
      forall a, b | Field(f, a) == Field(f, b)
        ensures a == b
      {
        FieldTellsCell(f, a, b);
      }
    } else {
      assert Field(f, None) == Field(f, Some(f.opts.nullAs));
    }
  }

  lemma FieldTellsCell(f: Format, a: Cell, b: Cell)
    requires f.etype == Csv && f.opts.nullAs == "" && Field(f, a) == Field(f, b)
    ensures a == b
  {
    match (a, b) {
      case (Some(v), Some(w)) =>
        CsvCellWrites(f, a);
        CsvCellWrites(f, b);
        SameWriting(Field(f, a), CsvRead(f, a), CsvRead(f, b), f.opts.separator);
      case _ =>
        CsvCellWrites(f, a);
        CsvCellWrites(f, b);
    }
  }

  /** One text is written for one field only. */
  lemma SameWriting(text: string, a: Read, b: Read, separator: char)
    requires Writes(text, a, separator, true) && Writes(text, b, separator, true)
    ensures a == b
  {
    if a.quoted {
      QuotedReadsBack(a.text, "");
      assert text[1..] == Replace(a.text, '"', "\"\"") + ("\"" + "");
      assert text[0] == '"';
    }
    if b.quoted {
      QuotedReadsBack(b.text, "");
      assert text[1..] == Replace(b.text, '"', "\"\"") + ("\"" + "");
      assert text[0] == '"';
    }
  }

  // Whole files told apart.

  /** The row's cell at `k` in what a reader finds of a file. */
  lemma FoundAt(f: Format, row: Row, k: nat)
    requires f.etype == Csv && f.opts.nullAs == ""
    ensures var found := Padded(CsvReads(f, row));
            CellAt(row, k) == if k < |found| then CellOf(found[k]) else None
  {
    CellsToldApart(f);
  }

  /** With an empty `null_as`, a file tells how many rows there were and every cell of them. */
  lemma FileTellsCells(f: Format, a: seq<Row>, b: seq<Row>)
    requires f.etype == Csv && Allowed(f.opts.separator) && f.opts.nullAs == "" && Complete(f, a) == Complete(f, b)
    ensures |a| == |b| && forall i, k: nat | 0 <= i < |a| :: CellAt(a[i], k) == CellAt(b[i], k)
  {
    hide Complete, AfterMark, CellAt, CellOf, CsvReads, CsvFile, Padded, Each, ReadFile, HeaderRow, Width;
    CsvReadsBack(f, a);
    CsvReadsBack(f, b);
    var inA, inB := Each(CsvFile(f, AllRows(f, a))), Each(CsvFile(f, AllRows(f, b)));
    assert |inA| == |AllRows(f, a)| && |inB| == |AllRows(f, b)|;
    var before := if f.opts.header then 1 else 0;
    forall i, k: nat | 0 <= i < |a|
      ensures CellAt(a[i], k) == CellAt(b[i], k)
    {
      assert AllRows(f, a)[before + i] == a[i] && AllRows(f, b)[before + i] == b[i];
      assert inA[before + i] == Padded(CsvReads(f, a[i])) && inB[before + i] == Padded(CsvReads(f, b[i]));
      FoundAt(f, a[i], k);
      FoundAt(f, b[i], k);
    }
  }

  predicate AllWide(rows: seq<Row>, n: nat) {
    forall i | 0 <= i < |rows| :: |rows[i]| == n
  }

  /** Two lists of rows as wide as each other are told apart by their files, whatever they hold, if and only if
      NULL is written as nothing. */
  lemma FilesToldApart(f: Format, n: nat)
    requires f.etype == Csv && Allowed(f.opts.separator) && n > 0
    ensures f.opts.nullAs == ""
            <==> forall a, b | AllWide(a, n) && AllWide(b, n) && Complete(f, a) == Complete(f, b) :: a == b
  {
    hide Complete;
    if f.opts.nullAs == "" {
      forall a, b | AllWide(a, n) && AllWide(b, n) && Complete(f, a) == Complete(f, b)
        ensures a == b
      {
        FileTellsCells(f, a, b);
        SameCells(a, b, n);
      }
    } else {
      var row, other := seq(n, _ => None), seq(n, _ => Some(f.opts.nullAs));
      NullsLookAlike(f, row, other);
      assert [row] != [other] by { assert [row][0][0] != [other][0][0]; }
    }
  }

  lemma SameCells(a: seq<Row>, b: seq<Row>, n: nat)
    requires AllWide(a, n) && AllWide(b, n) && |a| == |b|
    requires forall i, k: nat | 0 <= i < |a| :: CellAt(a[i], k) == CellAt(b[i], k)
    ensures a == b
  {
    forall i | 0 <= i < |a|
      ensures a[i] == b[i]
    {
      forall k | 0 <= k < n
        ensures a[i][k] == b[i][k]
      {
        assert CellAt(a[i], k) == CellAt(b[i], k);
      }
    }
  }

  lemma NullsLookAlike(f: Format, row: Row, other: Row)
    requires f.etype == Csv && |row| == |other|
    requires forall i | 0 <= i < |row| :: row[i] == None && other[i] == Some(f.opts.nullAs)
    requires f.opts.nullAs != ""
    ensures Complete(f, [row]) == Complete(f, [other])
  {
    assert Fields(f, row) == Fields(f, other);
    assert RowText(f, 0, row) == RowText(f, 0, other);
    assert [row][1..] == [] && [other][1..] == [];
    hide RowText;
    assert RowsText(f, 0, [row]) == RowsText(f, 0, [other]);
  }

  // TSV.

  /** One pass that puts every escape in at once. */
  function TsvEscaped(c: char): string {
    if c == '\\' then "\\\\"
    else if c == '\t' then "\\t"
    else if c == '\n' then "\\n"
    else if c == '\r' then "\\r"
    else [c]
  }

  function Unescaped(text: string): Option<string> {
    if text == "" then Some("")
    else if text[0] != '\\' then Also(text[0], Unescaped(text[1..]))
    else if |text| < 2 then None
    else if text[1] == '\\' then Also('\\', Unescaped(text[2..]))
    else if text[1] == 't' then Also('\t', Unescaped(text[2..]))
    else if text[1] == 'n' then Also('\n', Unescaped(text[2..]))
    else if text[1] == 'r' then Also('\r', Unescaped(text[2..]))
    else None
  }

  function Also(c: char, rest: Option<string>): Option<string> {
    match rest
    case None => None
    case Some(text) => Some([c] + text)
  }

  function AllEscaped(text: string): string {
    if text == "" then "" else TsvEscaped(text[0]) + AllEscaped(text[1..])
  }

  lemma {:induction false} ReplaceOf(a: string, b: string, c: char, written: string)
    ensures Replace(a + b, c, written) == Replace(a, c, written) + Replace(b, c, written)
  {
    if a == "" {
      assert a + b == b;
    } else {
      assert (a + b)[1..] == a[1..] + b;
      ReplaceOf(a[1..], b, c, written);
      assert Replace(a, c, written) == (if a[0] == c then written else [a[0]]) + Replace(a[1..], c, written);
    }
  }

  lemma ReplaceOne(d: char, c: char, written: string)
    ensures Replace([d], c, written) == if d == c then written else [d]
  {
    var one := if d == c then written else [d];
    assert Replace([d], c, written) == one + Replace([d][1..], c, written);
    assert one + "" == one;
  }

  lemma ReplaceTwo(d: char, e: char, c: char, written: string)
    requires d != c && e != c
    ensures Replace([d, e], c, written) == [d, e]
  {
    ReplaceOf([d], [e], c, written);
    ReplaceOne(d, c, written);
    ReplaceOne(e, c, written);
    assert [d] + [e] == [d, e];
  }

  lemma TsvFieldOfOne(d: char)
    ensures TsvField([d]) == TsvEscaped(d)
  {
    ReplaceOne(d, '\\', "\\\\");
    ReplaceOne(d, '\t', "\\t");
    ReplaceOne(d, '\n', "\\n");
    ReplaceOne(d, '\r', "\\r");
    ReplaceTwo('\\', '\\', '\t', "\\t");
    ReplaceTwo('\\', '\\', '\n', "\\n");
    ReplaceTwo('\\', '\\', '\r', "\\r");
    ReplaceTwo('\\', 't', '\n', "\\n");
    ReplaceTwo('\\', 't', '\r', "\\r");
    ReplaceTwo('\\', 'n', '\r', "\\r");
  }

  lemma TsvFieldOf(a: string, b: string)
    ensures TsvField(a + b) == TsvField(a) + TsvField(b)
  {
    var a1, b1 := Replace(a, '\\', "\\\\"), Replace(b, '\\', "\\\\");
    var a2, b2 := Replace(a1, '\t', "\\t"), Replace(b1, '\t', "\\t");
    var a3, b3 := Replace(a2, '\n', "\\n"), Replace(b2, '\n', "\\n");
    hide Replace;
    ReplaceOf(a, b, '\\', "\\\\");
    ReplaceOf(a1, b1, '\t', "\\t");
    ReplaceOf(a2, b2, '\n', "\\n");
    ReplaceOf(a3, b3, '\r', "\\r");
  }

  /** The four replacements, one after another, are one simultaneous escape. */
  lemma {:induction false} ReplacementsAreOneEscape(text: string)
    ensures TsvField(text) == AllEscaped(text)
  {
    if text != "" {
      assert text == [text[0]] + text[1..];
      TsvFieldOf([text[0]], text[1..]);
      TsvFieldOfOne(text[0]);
      ReplacementsAreOneEscape(text[1..]);
    }
  }

  lemma EscapedReadsBack(c: char, rest: string)
    ensures Unescaped(TsvEscaped(c) + rest) == Also(c, Unescaped(rest))
    ensures Plain(TsvEscaped(c), '\t', false)
  {
    var s := TsvEscaped(c) + rest;
    assert s[|TsvEscaped(c)|..] == rest;
  }

  lemma PlainBoth(a: string, b: string)
    requires Plain(a, '\t', false) && Plain(b, '\t', false)
    ensures Plain(a + b, '\t', false)
  {
  }

  lemma {:induction false} EscapeReadsBack(text: string)
    ensures Unescaped(AllEscaped(text)) == Some(text)
    ensures Plain(AllEscaped(text), '\t', false)
  {
    hide TsvEscaped, Plain;
    if text == "" {
      assert Plain("", '\t', false) by {
        NothingPlain();
      }
    } else {
      EscapeReadsBack(text[1..]);
      EscapedReadsBack(text[0], AllEscaped(text[1..]));
      PlainBoth(TsvEscaped(text[0]), AllEscaped(text[1..]));
      assert text == [text[0]] + text[1..];
    }
  }

  lemma NothingPlain()
    ensures Plain("", '\t', false)
  {
  }

  /** The text of a cell as TSV has it: a NULL is `null_as`. */
  function TsvText(f: Format, value: Cell): string {
    match value
    case None => f.opts.nullAs
    case Some(v) => v
  }

  /** A TSV field keeps out of tabs and line breaks, and unescapes to its cell's text. */
  lemma TsvCellReadsBack(f: Format, value: Cell)
    requires f.etype == Tsv
    ensures Unescaped(Field(f, value)) == Some(TsvText(f, value))
    ensures Writes(Field(f, value), Read(false, Field(f, value)), '\t', false)
  {
    ReplacementsAreOneEscape(TsvText(f, value));
    EscapeReadsBack(TsvText(f, value));
  }

  function TsvReads(f: Format, row: Row): (r: seq<Read>)
    ensures |r| == Width(f, row)
  {
    seq(Width(f, row), i requires i >= 0 => Read(false, Field(f, CellAt(row, i))))
  }

  function TsvFile(f: Format, rows: seq<Row>): (r: seq<seq<Read>>)
    ensures |r| == |rows|
    ensures forall i | 0 <= i < |rows| :: r[i] == TsvReads(f, rows[i])
  {
    if rows == [] then [] else [TsvReads(f, rows[0])] + TsvFile(f, rows[1..])
  }

  lemma {:induction false} TsvRecordsWritten(f: Format, rows: seq<Row>)
    requires f.etype == Tsv
    ensures forall i | 0 <= i < |rows| :: AllWritten(RecordsOf(f, rows)[i], TsvReads(f, rows[i]), '\t', false)
  {
    hide Field, Writes;
    if rows != [] {
      TsvRecordsWritten(f, rows[1..]);
      forall k | 0 <= k < Width(f, rows[0])
        ensures Writes(Fields(f, rows[0])[k], TsvReads(f, rows[0])[k], '\t', false)
      {
        TsvCellReadsBack(f, CellAt(rows[0], k));
      }
      assert forall i | 0 < i < |rows| :: RecordsOf(f, rows)[i] == RecordsOf(f, rows[1..])[i - 1];
    }
  }

  /** Splitting a TSV export at its line breaks and tabs finds every field, each of which
      unescapes to its cell's text. */
  lemma TsvReadsBack(f: Format, rows: seq<Row>)
    requires f.etype == Tsv
    ensures ReadFile(AfterMark(f, Complete(f, rows)), '\t', false) == Some(Each(TsvFile(f, AllRows(f, rows))))
    ensures forall i, k | 0 <= i < |AllRows(f, rows)| && 0 <= k < Width(f, AllRows(f, rows)[i]) ::
              Unescaped(TsvFile(f, AllRows(f, rows))[i][k].text) == Some(TsvText(f, CellAt(AllRows(f, rows)[i], k)))
  {
    hide Complete, AfterMark, AllRows, AllWritten, Field;
    var all := AllRows(f, rows);
    DelimitedIsLines(f, rows);
    TsvRecordsWritten(f, all);
    LinesReadBack(RecordsOf(f, all), TsvFile(f, all), '\t', Eol(f), false);
    forall i, k | 0 <= i < |all| && 0 <= k < Width(f, all[i])
      ensures Unescaped(TsvFile(f, all)[i][k].text) == Some(TsvText(f, CellAt(all[i], k)))
    {
      TsvCellReadsBack(f, CellAt(all[i], k));
    }
  }

  // Plain text.

  function TextReads(f: Format, row: Row): (r: seq<Read>)
    ensures |r| == Width(f, row)
  {
    seq(Width(f, row), i requires i >= 0 => Read(false, Field(f, CellAt(row, i))))
  }

  function TextFile(f: Format, rows: seq<Row>): (r: seq<seq<Read>>)
    ensures |r| == |rows| && forall i | 0 <= i < |rows| :: r[i] == TextReads(f, rows[i])
  {
    if rows == [] then [] else [TextReads(f, rows[0])] + TextFile(f, rows[1..])
  }

  /** A value is written as it is, but for a space where it has a tab or a line break. */
  lemma {:induction false} TextValue(text: string)
    ensures |OneLine(text)| == |text|
    ensures forall i | 0 <= i < |text| ::
              OneLine(text)[i] == if text[i] == '\t' || text[i] == '\n' || text[i] == '\r' then ' ' else text[i]
  {
    if text != "" {
      TextValue(text[1..]);
      var one := if text[0] == '\t' || text[0] == '\n' || text[0] == '\r' then " " else [text[0]];
      assert OneLine(text) == one + OneLine(text[1..]);
    }
  }

  /** Between tabs every value is by itself. */
  lemma TextValueIsPlain(f: Format, text: string)
    requires f.etype == ExportType.Text
    ensures Plain(Field(f, Some(text)), '\t', false)
  {
    TextValue(text);
  }

  lemma {:induction false} TextRecordsWritten(f: Format, rows: seq<Row>)
    requires f.etype == ExportType.Text
    requires forall row, k: nat | row in rows :: Plain(Field(f, CellAt(row, k)), f.opts.separator, false)
    ensures forall i | 0 <= i < |rows| ::
              AllWritten(RecordsOf(f, rows)[i], TextReads(f, rows[i]), f.opts.separator, false)
  {
    hide Field, Plain;
    if rows != [] {
      assert forall row | row in rows[1..] :: row in rows;
      TextRecordsWritten(f, rows[1..]);
      assert rows[0] in rows;
      assert AllWritten(Fields(f, rows[0]), TextReads(f, rows[0]), f.opts.separator, false);
      assert forall i | 0 < i < |rows| :: RecordsOf(f, rows)[i] == RecordsOf(f, rows[1..])[i - 1];
    }
  }

  /** Splitting a plain-text export at line breaks and the separator finds every field as it is written, if the
      separator and line breaks are in none; with a tab between them they are in no value. */
  lemma TextReadsBack(f: Format, rows: seq<Row>)
    requires f.etype == ExportType.Text && Allowed(f.opts.separator)
    requires forall row, k: nat | row in AllRows(f, rows) :: Plain(Field(f, CellAt(row, k)), f.opts.separator, false)
    ensures ReadFile(AfterMark(f, Complete(f, rows)), f.opts.separator, false)
         == Some(Each(TextFile(f, AllRows(f, rows))))
  {
    hide Complete, AfterMark, AllRows, TextReads, AllWritten;
    DelimitedIsLines(f, rows);
    TextRecordsWritten(f, AllRows(f, rows));
    LinesReadBack(RecordsOf(f, AllRows(f, rows)), TextFile(f, AllRows(f, rows)), f.opts.separator, Eol(f), false);
  }
}
