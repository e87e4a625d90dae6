/**
 The text formats of exporter.rs: `TextSink` is told the columns, handed rows a few at a
 time, and finished. What the file holds at the end is a function of the columns and of the
 rows one after another, so how they were handed over does not matter.
 */
module TextExport {
  import opened Basics
  import opened Batching
  import opened JsonWriter
  import opened Results
  import opened SqlText

  datatype ExportType = Csv | Tsv | Json | JsonLines | Excel | Markdown | SqlInsert | Text

  datatype ExportOptions = ExportOptions(
    separator: char,
    header: bool,
    nullAs: string,
    crlf: bool,
    table: Option<string>,
    dialect: Dialect,
    batch: nat,
    bom: bool
  )

  /** All a sink goes by, once it has been told the columns. */
  datatype Format = Format(etype: ExportType, opts: ExportOptions, quoting: Quoting, columns: seq<ColumnMeta>)

  const BOM: string := [0xFEFF as char]

  // Fields.

  predicate Special(c: char, separator: char) {
    c == separator || c == '"' || c == '\n' || c == '\r'
  }

  function CsvField(text: string, separator: char): string {
    if exists i | 0 <= i < |text| :: Special(text[i], separator)
    then "\"" + Replace(text, '"', "\"\"") + "\""
    else text
  }

  function TsvField(text: string): string {
    Replace(Replace(Replace(Replace(text, '\\', "\\\\"), '\t', "\\t"), '\n', "\\n"), '\r', "\\r")
  }

  function MarkdownField(text: string): string {
    Replace(Replace(text, '|', "\\|"), '\n', "<br>")
  }

  function OneLine(text: string): string {
    Mapped(text, c => if c == '\t' || c == '\r' || c == '\n' then " " else [c])
  }

  function Eol(f: Format): string {
    if f.opts.crlf then "\r\n" else "\n"
  }

  function Separator(f: Format): string {
    if f.etype == Tsv then "\t" else [f.opts.separator]
  }

  /** How CSV, TSV and plain text write a value. */
  function Field(f: Format, value: Cell): string {
    match value
    case None => (
      match f.etype
      case Csv => CsvField(f.opts.nullAs, f.opts.separator)
      case Tsv => TsvField(f.opts.nullAs)
      case Markdown => MarkdownField(f.opts.nullAs)
      case _ => f.opts.nullAs
    )
    case Some(v) => (
      match f.etype
      case Csv => if v == "" then "\"\"" else CsvField(v, f.opts.separator)
      case Tsv => TsvField(v)
      case Markdown => MarkdownField(v)
      case _ => OneLine(v)
    )
  }

  // Rows.

  function Width(f: Format, row: Row): nat {
    Max(|f.columns|, |row|)
  }

  function Fields(f: Format, row: Row): (r: seq<string>)
    ensures |r| == Width(f, row)
  {
    seq(Width(f, row), i requires i >= 0 => Field(f, CellAt(row, i)))
  }

  function JsonMember(column: ColumnMeta, value: Cell): string {
    JsonString(column.name) + ": " + JsonValue(value, column.kind)
  }

  function JsonMembers(columns: seq<ColumnMeta>, row: Row): (r: seq<string>)
    ensures |r| == |columns|
  {
    seq(|columns|, i requires 0 <= i < |columns| => JsonMember(columns[i], CellAt(row, i)))
  }

  /** The object a row becomes: one member a column. */
  function ObjectText(f: Format, row: Row): string {
    "{" + Join(JsonMembers(f.columns, row), ", ") + "}"
  }

  function Literals(f: Format, row: Row): (r: seq<string>)
    ensures |r| == Width(f, row)
  {
    seq(Width(f, row), i requires i >= 0 =>
      Literal(f.quoting, f.opts.dialect, CellAt(row, i), i < |f.columns| && f.columns[i].kind.IsNumeric()))
  }

  function Tuple(f: Format, row: Row): string {
    "(" + Join(Literals(f, row), ", ") + ")"
  }

  function Tuples(f: Format, rows: seq<Row>): (r: seq<string>)
    ensures |r| == |rows|
  {
    seq(|rows|, i requires 0 <= i < |rows| => Tuple(f, rows[i]))
  }

  /** What a row adds to the file when `before` rows were written already. SQL only keeps it. */
  function RowText(f: Format, before: nat, row: Row): string {
    match f.etype
    case Json => (if before == 0 then "" else "," + Eol(f)) + ("  " + ObjectText(f, row))
    case JsonLines => ObjectText(f, row) + Eol(f)
    case Markdown => "| " + Join(Fields(f, row), " | ") + " |" + Eol(f)
    case SqlInsert => ""
    case _ => Join(Fields(f, row), Separator(f)) + Eol(f)
  }

  function RowsText(f: Format, before: nat, rows: seq<Row>): string
    decreases rows
  {
    if rows == [] then "" else RowText(f, before, rows[0]) + RowsText(f, before + 1, rows[1..])
  }

  // SQL.

  function Idents(f: Format, names: seq<string>): (r: seq<string>)
    ensures |r| == |names|
  {
    seq(|names|, i requires 0 <= i < |names| => Ident(f.quoting, f.opts.dialect, names[i]))
  }

  function Names(columns: seq<ColumnMeta>): (r: seq<string>)
    ensures |r| == |columns|
  {
    seq(|columns|, i requires 0 <= i < |columns| => columns[i].name)
  }

  function Table(f: Format): string {
    Join(Idents(f, SplitAt(if f.opts.table.Some? then f.opts.table.value else "result", '.')), ".")
  }

  function InsertColumns(f: Format): string {
    if f.opts.header then " (" + Join(Idents(f, Names(f.columns)), ", ") + ")" else ""
  }

  function Intos(f: Format, tuples: seq<string>): (r: seq<string>)
    ensures |r| == |tuples|
  {
    seq(|tuples|, i requires 0 <= i < |tuples| => "  INTO " + Table(f) + InsertColumns(f) + " VALUES " + tuples[i])
  }

  /** One INSERT of all the `tuples`; Oracle takes an INTO for each. */
  function Insert(f: Format, tuples: seq<string>): string {
    if f.opts.dialect.Oracle? then
      "INSERT ALL" + Eol(f) + Join(Intos(f, tuples), Eol(f)) + Eol(f) + "SELECT 1 FROM DUAL;" + Eol(f)
    else
      "INSERT INTO " + Table(f) + InsertColumns(f) + " VALUES" + Eol(f) + "  "
      + Join(tuples, "," + Eol(f) + "  ") + ";" + Eol(f)
  }

  function Inserts(f: Format, batches: seq<seq<string>>): string {
    if batches == [] then "" else Insert(f, batches[0]) + Inserts(f, batches[1..])
  }

  function BatchSize(f: Format): nat {
    Max(f.opts.batch, 1)
  }

  // Whole files.

  function Rules(n: nat): (r: seq<string>)
    ensures |r| == n
  {
    seq(n, _ => "---")
  }

  function HeaderFields(f: Format): (r: seq<string>)
    ensures |r| == |f.columns|
  {
    seq(|f.columns|, i requires 0 <= i < |f.columns| => Field(f, Some(f.columns[i].name)))
  }

  function MarkdownNames(f: Format): (r: seq<string>)
    ensures |r| == |f.columns|
  {
    seq(|f.columns|, i requires 0 <= i < |f.columns| => if f.opts.header then MarkdownField(f.columns[i].name) else "")
  }

  /** What comes before any row. */
  function Head(f: Format): string {
    match f.etype
    case Markdown =>
      ("| " + Join(MarkdownNames(f), " | ") + " |" + Eol(f)) + ("|" + Join(Rules(|f.columns|), "|") + "|" + Eol(f))
    case Json => "[" + Eol(f)
    case JsonLines => ""
    case SqlInsert => ""
    case Excel => ""
    case _ => if f.opts.header then Join(HeaderFields(f), Separator(f)) + Eol(f) else ""
  }

  function Mark(f: Format): string {
    if f.opts.bom then BOM else ""
  }

  /** What comes after the last row, but for SQL's waiting rows. */
  function Tail(f: Format, rows: nat): string {
    if !f.etype.Json? then "" else (if rows == 0 then "" else Eol(f)) + ("]" + Eol(f))
  }

  /** The file after `rows`, unfinished. */
  function Started(f: Format, rows: seq<Row>): string {
    Mark(f) + (Head(f) + (RowsText(f, 0, rows) + Written(f, rows)))
  }

  /** The INSERTs written by the time `rows` have been taken. */
  function Written(f: Format, rows: seq<Row>): string {
    if f.etype == SqlInsert then Inserts(f, Full(Tuples(f, rows), BatchSize(f))) else ""
  }

  function Waiting(f: Format, rows: seq<Row>): seq<string> {
    if f.etype == SqlInsert then Rest(Tuples(f, rows), BatchSize(f)) else []
  }

  /** The whole file: the columns' part, every row in order, and the end. */
  function Complete(f: Format, rows: seq<Row>): string {
    Mark(f) + (Head(f) + (RowsText(f, 0, rows) + (
      if f.etype == SqlInsert then Inserts(f, Chunks(Tuples(f, rows), BatchSize(f))) else Tail(f, |rows|))))
  }

  lemma {:induction false} RowsTextSplit(f: Format, before: nat, a: seq<Row>, b: seq<Row>)
    ensures RowsText(f, before, a + b) == RowsText(f, before, a) + RowsText(f, before + |a|, b)
    decreases a
  {
    hide RowText;
    if a == [] {
      assert a + b == b;
    } else {
      assert (a + b)[1..] == a[1..] + b;
      RowsTextSplit(f, before + 1, a[1..], b);
      Assoc(RowText(f, before, a[0]), RowsText(f, before + 1, a[1..]), RowsText(f, before + |a|, b));
    }
  }

  lemma {:induction false} InsertsAppend(f: Format, batches: seq<seq<string>>, last: seq<string>)
    ensures Inserts(f, batches + [last]) == Inserts(f, batches) + Insert(f, last)
  {
    hide Insert;
    if batches == [] {
      assert [last][1..] == [] && Insert(f, last) + "" == Insert(f, last);
    } else {
      assert (batches + [last])[1..] == batches[1..] + [last];
      InsertsAppend(f, batches[1..], last);
      Assoc(Insert(f, batches[0]), Inserts(f, batches[1..]), Insert(f, last));
    }
  }

  /** In SQL every row lands in exactly one INSERT, in order; each INSERT but the last holds
      exactly `max(batch, 1)` rows, and none is empty. */
  lemma EveryRowInOneInsert(f: Format, rows: seq<Row>)
    requires f.etype == SqlInsert
    ensures var batches := Chunks(Tuples(f, rows), BatchSize(f));
            && Complete(f, rows) == Mark(f) + Inserts(f, batches)
            && Flatten(batches) == Tuples(f, rows)
            && (forall i | 0 <= i < |batches| :: 0 < |batches[i]| <= BatchSize(f))
            && (forall i | 0 <= i < |batches| - 1 :: |batches[i]| == BatchSize(f))
  {
    hide Insert, Tuple;
    ChunksKeepAll(Tuples(f, rows), BatchSize(f));
    ChunkSizes(Tuples(f, rows), BatchSize(f));
    NoRowText(f, 0, rows);
  }

  lemma {:induction false} NoRowText(f: Format, before: nat, rows: seq<Row>)
    requires f.etype == SqlInsert
    ensures RowsText(f, before, rows) == ""
    decreases rows
  {
    if rows != [] {
      NoRowText(f, before + 1, rows[1..]);
    }
  }

  // The sink.

  class TextSink {
    const etype: ExportType
    const opts: ExportOptions
    const quoting: Quoting
    /** What has been written to the temporary file. */
    var file: string
    var columns: seq<ColumnMeta>
    var rows: nat
    /** Tuples that still wait for their INSERT. */
    var pending: seq<string>
    /** Every row taken. */
    ghost var taken: seq<Row>

    ghost function Shape(): Format
      reads this
    {
      Format(etype, opts, quoting, columns)
    }

    ghost predicate Valid()
      reads this
    {
      && rows == |taken|
      && file == Started(Shape(), taken)
      && pending == Waiting(Shape(), taken)
    }

    constructor (etype: ExportType, opts: ExportOptions, quoting: Quoting)
      ensures file == "" && columns == [] && pending == [] && rows == 0 && taken == []
      ensures this.etype == etype && this.opts == opts && this.quoting == quoting
    {
      this.etype, this.opts, this.quoting := etype, opts, quoting;
      file, columns, rows, pending, taken := "", [], 0, [], [];
    }

    method Line(text: string)
      modifies this`file
      ensures file == old(file) + (text + Eol(Shape()))
    {
      file := file + text;
      file := file + (if opts.crlf then "\r\n" else "\n");
    }

    /** Comes first of all calls. */
    method Begin(columns: seq<ColumnMeta>)
      requires file == "" && pending == [] && rows == 0 && taken == []
      modifies this
      ensures Valid() && taken == [] && this.columns == columns
    {
      hide Started, Waiting, Head;
      this.columns := columns;
      if opts.bom {
        file := BOM;
      }
      WriteHead();
      NothingTaken(Format(etype, opts, quoting, columns));
    }

    method WriteHead()
      modifies this`file
      ensures file == old(file) + Head(Shape())
    {
      hide HeaderFields, MarkdownNames, Rules, Join;
      var f := Format(etype, opts, quoting, columns);
      match etype {
        case Csv => if opts.header { Line(Join(HeaderFields(f), Separator(f))); }
        case Tsv => if opts.header { Line(Join(HeaderFields(f), Separator(f))); }
        case Text => if opts.header { Line(Join(HeaderFields(f), Separator(f))); }
        case Markdown =>
          Line("| " + Join(MarkdownNames(f), " | ") + " |");
          Line("|" + Join(Rules(|columns|), "|") + "|");
          Assoc(old(file), "| " + Join(MarkdownNames(f), " | ") + " |" + Eol(f),
                "|" + Join(Rules(|columns|), "|") + "|" + Eol(f));
        case Json => Line("[");
        case _ =>
      }
    }

    /** Takes some more rows. */
    method Rows(batch: seq<Row>)
      requires Valid()
      modifies this`file, this`rows, this`pending, this`taken
      ensures Valid() && taken == old(taken) + batch
    {
      hide Valid;
      assert old(taken) + batch[..0] == old(taken);
      for i := 0 to |batch|
        invariant Valid() && taken == old(taken) + batch[..i]
      {
        OneRow(batch[i]);
        Assoc(old(taken), batch[..i], [batch[i]]);
        assert batch[..i + 1] == batch[..i] + [batch[i]];
      }
      assert batch[..|batch|] == batch;
    }

    method OneRow(row: Row)
      requires Valid()
      modifies this`file, this`rows, this`pending, this`taken
      ensures Valid() && taken == old(taken) + [row]
    {
      hide RowText, Insert, Tuple, Started, Waiting;
      WriteRow(row);
      RowTaken(Format(etype, opts, quoting, columns), taken, row);
      rows := rows + 1;
      taken := taken + [row];
    }

    method WriteRow(row: Row)
      modifies this`file, this`pending
      ensures etype != SqlInsert ==> file == old(file) + RowText(Shape(), rows, row) && pending == old(pending)
      ensures etype == SqlInsert ==>
                var tuples := old(pending) + [Tuple(Shape(), row)];
                if |tuples| >= BatchSize(Shape()) then file == old(file) + Insert(Shape(), tuples) && pending == []
                else file == old(file) && pending == tuples
    {
      hide ObjectText, Fields, Insert, Tuple, Join, Separator, Eol;
      var f := Format(etype, opts, quoting, columns);
      match etype {
        case Json =>
          if rows != 0 {
            Line(",");
          }
          file := file + ("  " + ObjectText(f, row));
          Assoc(old(file), "," + Eol(f), "  " + ObjectText(f, row));
          assert "" + ("  " + ObjectText(f, row)) == "  " + ObjectText(f, row);
        case JsonLines =>
          Line(ObjectText(f, row));
        case Markdown =>
          Line("| " + Join(Fields(f, row), " | ") + " |");
        case SqlInsert =>
          pending := pending + [Tuple(f, row)];
          if |pending| >= Max(opts.batch, 1) {
            FlushInsert();
          }
        case _ =>
          Line(Join(Fields(f, row), Separator(f)));
      }
    }

    /** Makes an INSERT of the tuples that wait. */
    method FlushInsert()
      modifies this`file, this`pending
      ensures pending == []
      ensures file == old(file) + (if old(pending) == [] then "" else Insert(Shape(), old(pending)))
    {
      if pending == [] {
        return;
      }
      var f := Format(etype, opts, quoting, columns);
      var tuples := pending;
      pending := [];
      if opts.dialect.Oracle? {
        Line("INSERT ALL" + Eol(f) + Join(Intos(f, tuples), Eol(f)) + Eol(f) + "SELECT 1 FROM DUAL;");
      } else {
        Line("INSERT INTO " + Table(f) + InsertColumns(f) + " VALUES" + Eol(f) + "  "
             + Join(tuples, "," + Eol(f) + "  ") + ";");
      }
    }

    /** Writes what is left: the file is then complete, whatever the calls that led here. */
    method Finish() returns (count: nat)
      requires Valid()
      modifies this`file, this`pending
      ensures file == Complete(Shape(), taken) && count == |taken|
    {
      hide Insert, Started, Complete, Waiting;
      var f := Format(etype, opts, quoting, columns);
      match etype {
        case Json =>
          if rows > 0 {
            Line("");
            Line("]");
            assert file == old(file) + (("" + Eol(f)) + ("]" + Eol(f)));
          } else {
            Line("]");
          }
        case SqlInsert =>
          FlushInsert();
        case _ =>
      }
      Finished(f, taken);
      assert Waiting(f, taken) == old(pending);
      count := rows;
    }
  }

  lemma NothingTaken(f: Format)
    ensures Started(f, []) == Mark(f) + Head(f) && Waiting(f, []) == []
  {
    assert Tuples(f, []) == [];
    assert Head(f) + ("" + "") == Head(f);
  }

  /** An export from first to last: the file does not depend on how its rows were split. */
  method Export(f: Format, batches: seq<seq<Row>>) returns (file: string, count: nat)
    ensures file == Complete(f, Flatten(batches)) && count == |Flatten(batches)|
  {
    hide Complete, Started, Waiting;
    var sink := new TextSink(f.etype, f.opts, f.quoting);
    sink.Begin(f.columns);
    for i := 0 to |batches|
      invariant sink.Valid() && sink.Shape() == f && sink.taken == Flatten(batches[..i])
    {
      sink.Rows(batches[i]);
      assert batches[..i + 1] == batches[..i] + [batches[i]];
      FlattenAppend(batches[..i], [batches[i]]);
      assert Flatten([batches[i]]) == batches[i] + Flatten([batches[i]][1..]);
    }
    assert batches[..|batches|] == batches;
    count := sink.Finish();
    file := sink.file;
  }

  /** One more row: the text it adds, or the INSERT it fills. */
  lemma RowTaken(f: Format, rows: seq<Row>, row: Row)
    ensures f.etype != SqlInsert ==>
              && Started(f, rows + [row]) == Started(f, rows) + RowText(f, |rows|, row)
              && Waiting(f, rows + [row]) == Waiting(f, rows) == []
    ensures f.etype == SqlInsert ==>
              var tuples := Waiting(f, rows) + [Tuple(f, row)];
              if |tuples| >= BatchSize(f)
              then Started(f, rows + [row]) == Started(f, rows) + Insert(f, tuples) && Waiting(f, rows + [row]) == []
              else Started(f, rows + [row]) == Started(f, rows) && Waiting(f, rows + [row]) == tuples
  {
    hide RowText, Tuple, Insert, Head;
    RowsTextSplit(f, 0, rows, [row]);
    assert [row][1..] == [] && RowsText(f, |rows|, [row]) == RowText(f, |rows|, row) + "";
    if f.etype == SqlInsert {
      NoRowText(f, 0, rows);
      NoRowText(f, 0, rows + [row]);
      assert Tuples(f, rows + [row]) == Tuples(f, rows) + [Tuple(f, row)];
      OneMore(Tuples(f, rows), Tuple(f, row), BatchSize(f));
      InsertsAppend(f, Full(Tuples(f, rows), BatchSize(f)), Waiting(f, rows) + [Tuple(f, row)]);
      assert forall s: string :: "" + s == s;
      Assoc(Head(f), Written(f, rows), Insert(f, Waiting(f, rows) + [Tuple(f, row)]));
      Assoc(Mark(f), Head(f) + Written(f, rows), Insert(f, Waiting(f, rows) + [Tuple(f, row)]));
    } else {
      var text := RowText(f, |rows|, row);
      assert forall s: string :: s + "" == s;
      Assoc(Head(f), RowsText(f, 0, rows), text);
      Assoc(Mark(f), Head(f) + RowsText(f, 0, rows), text);
    }
  }

  lemma Finished(f: Format, rows: seq<Row>)
    ensures f.etype == SqlInsert ==>
              Complete(f, rows) == Started(f, rows)
                + (if Waiting(f, rows) == [] then "" else Insert(f, Waiting(f, rows)))
    ensures f.etype != SqlInsert ==> Complete(f, rows) == Started(f, rows) + Tail(f, |rows|)
  {
    hide RowText, Tuple, Insert, Head;
    var text := RowsText(f, 0, rows);
    if f.etype == SqlInsert {
      var full := Full(Tuples(f, rows), BatchSize(f));
      var last := Waiting(f, rows);
      if last == [] {
        assert full + [] == full;
        assert Started(f, rows) + "" == Started(f, rows);
      } else {
        InsertsAppend(f, full, last);
        Assoc(text, Inserts(f, full), Insert(f, last));
        Assoc(Head(f), text + Inserts(f, full), Insert(f, last));
        Assoc(Mark(f), Head(f) + (text + Inserts(f, full)), Insert(f, last));
      }
    } else {
      assert text + "" == text;
      Assoc(Head(f), text, Tail(f, |rows|));
      Assoc(Mark(f), Head(f) + text, Tail(f, |rows|));
    }
  }
}
