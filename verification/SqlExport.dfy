/**
 SQL exports against a reader of INSERT statements written apart from them: it takes a text for
 tokens with white space between, and finds each row that is inserted.
 */
module SqlExport {
  import opened Basics
  import opened Batching
  import opened Results
  import opened SqlText
  import opened TextExport
  import opened Whitespace
  import Delimited

  // The reader.

  /** In quotes, or not. */
  datatype Token = Quoted(text: string) | Bare(text: string)

  /** One row: the table it goes into by the names of its path, the columns if they are named, and the values. */
  datatype Inserted = Inserted(table: seq<string>, columns: Option<seq<string>>, values: seq<Token>)

  datatype Into = Into(table: seq<string>, columns: Option<seq<string>>)

  datatype Scan<+T> = Fail | Got(value: T, rest: string)

  predicate Blank(c: char) {
    c == ' ' || c == '\n' || c == '\r' || c == '\t'
  }

  function Skip(s: string): (r: string)
    ensures |r| <= |s|
  {
    if s != "" && Blank(s[0]) then Skip(s[1..]) else s
  }

  /** `word` comes next, whatever white space is before it. */
  function Expect(word: string, s: string): (r: Option<string>)
    ensures r.Some? ==> |r.value| + |word| <= |s|
  {
    var t := Skip(s);
    if word <= t then Some(t[|word|..]) else None
  }

  /** Up to the closing quote: two quotes stand for one, and, where escapes are known, two backslashes for one. */
  function ReadQuoted(s: string, quote: char, escapes: bool): (r: Scan<string>)
    ensures r.Got? ==> |r.rest| < |s|
  {
    if s == "" then Fail
    else if escapes && s[0] == '\\' then
      if |s| > 1 && s[1] == '\\' then WithFirst('\\', ReadQuoted(s[2..], quote, escapes)) else Fail
    else if s[0] != quote then WithFirst(s[0], ReadQuoted(s[1..], quote, escapes))
    else if |s| > 1 && s[1] == quote then WithFirst(quote, ReadQuoted(s[2..], quote, escapes))
    else Got("", s[1..])
  }

  function WithFirst(c: char, r: Scan<string>): Scan<string> {
    match r
    case Fail => Fail
    case Got(text, rest) => Got([c] + text, rest)
  }

  /** What a name without quotes is made of, or else a value. */
  predicate BareChar(names: bool, c: char) {
    if names then NameChar(c) else NumberChar(c)
  }

  function BareRun(names: bool, s: string): (n: nat)
    ensures n <= |s|
  {
    if s == "" || !BareChar(names, s[0]) then 0 else 1 + BareRun(names, s[1..])
  }

  function QuoteFor(d: Dialect, names: bool): char {
    if names then QuoteOf(d) else '\''
  }

  function ReadToken(d: Dialect, names: bool, s: string): (r: Scan<Token>)
    ensures r.Got? ==> |r.rest| < |s|
  {
    var t := Skip(s);
    if t != "" && t[0] == QuoteFor(d, names) then
      match ReadQuoted(t[1..], t[0], !names && d.MySql?)
      case Fail => Fail
      case Got(text, rest) => Got(Quoted(text), rest)
    else
      var n := BareRun(names, t);
      if n == 0 then Fail else Got(Bare(t[..n]), t[n..])
  }

  /** Tokens with commas between, up to a bracket that closes. */
  function ReadList(d: Dialect, names: bool, s: string): (r: Scan<seq<Token>>)
    ensures r.Got? ==> |r.rest| < |s|
    decreases |s|
  {
    match ReadToken(d, names, s)
    case Fail => Fail
    case Got(first, after) =>
      var t := Skip(after);
      if t != "" && t[0] == ')' then Got([first], t[1..])
      else if t != "" && t[0] == ',' then
        match ReadList(d, names, t[1..])
        case Fail => Fail
        case Got(more, rest) => Got([first] + more, rest)
      else Fail
  }

  function ReadBrackets(d: Dialect, names: bool, s: string): (r: Scan<seq<Token>>)
    ensures r.Got? ==> |r.rest| < |s|
  {
    match Expect("(", s)
    case None => Fail
    case Some(inside) =>
      match Expect(")", inside)
      case Some(rest) => Got([], rest)
      case None => ReadList(d, names, inside)
  }

  function TextsOf(tokens: seq<Token>): (texts: seq<string>)
    ensures |texts| == |tokens|
  {
    seq(|tokens|, i requires 0 <= i < |tokens| => tokens[i].text)
  }

  /** Names with dots between. */
  function ReadPath(d: Dialect, s: string): (r: Scan<seq<Token>>)
    ensures r.Got? ==> |r.rest| < |s|
    decreases |s|
  {
    match ReadToken(d, true, s)
    case Fail => Fail
    case Got(first, rest) =>
      if rest != "" && rest[0] == '.' then
        match ReadPath(d, rest[1..])
        case Fail => Fail
        case Got(more, end) => Got([first] + more, end)
      else Got([first], rest)
  }

  /** A table, the columns if they are named, and VALUES. */
  function ReadInto(d: Dialect, s: string): (r: Scan<Into>)
    ensures r.Got? ==> |r.rest| < |s|
  {
    match ReadPath(d, s)
    case Fail => Fail
    case Got(table, rest) =>
      if Expect("(", rest).None? then
        match Expect("VALUES", rest)
        case None => Fail
        case Some(end) => Got(Into(TextsOf(table), None), end)
      else
        match ReadBrackets(d, true, rest)
        case Fail => Fail
        case Got(columns, after) =>
          match Expect("VALUES", after)
          case None => Fail
          case Some(end) => Got(Into(TextsOf(table), Some(TextsOf(columns))), end)
  }

  /** Rows with commas between, up to a semicolon. */
  function ReadRows(d: Dialect, into: Into, s: string): (r: Scan<seq<Inserted>>)
    ensures r.Got? ==> |r.rest| < |s|
    decreases |s|
  {
    match ReadBrackets(d, false, s)
    case Fail => Fail
    case Got(values, after) =>
      var first := Inserted(into.table, into.columns, values);
      var t := Skip(after);
      if t != "" && t[0] == ';' then Got([first], t[1..])
      else if t != "" && t[0] == ',' then
        match ReadRows(d, into, t[1..])
        case Fail => Fail
        case Got(more, rest) => Got([first] + more, rest)
      else Fail
  }

  /** INTO for each row, and a SELECT to end with. */
  function ReadIntos(d: Dialect, s: string): (r: Scan<seq<Inserted>>)
    ensures r.Got? ==> |r.rest| < |s|
    decreases |s|
  {
    match Expect("INTO", s)
    case None => (
      match Expect("SELECT 1 FROM DUAL;", s)
      case None => Fail
      case Some(rest) => Got([], rest)
    )
    case Some(target) =>
      match ReadInto(d, target)
      case Fail => Fail
      case Got(into, row) =>
        match ReadBrackets(d, false, row)
        case Fail => Fail
        case Got(values, after) =>
          match ReadIntos(d, after)
          case Fail => Fail
          case Got(more, rest) => Got([Inserted(into.table, into.columns, values)] + more, rest)
  }

  function ReadStatement(d: Dialect, s: string): (r: Scan<seq<Inserted>>)
    ensures r.Got? ==> |r.rest| < |s|
  {
    match Expect("INSERT", s)
    case None => Fail
    case Some(what) =>
      if Expect("ALL", what).Some? then ReadIntos(d, Expect("ALL", what).value)
      else
        match Expect("INTO", what)
        case None => Fail
        case Some(target) =>
          match ReadInto(d, target)
          case Fail => Fail
          case Got(into, row) => ReadRows(d, into, row)
  }

  /** The rows of each statement of a text. */
  function ReadSql(d: Dialect, s: string): Option<seq<seq<Inserted>>>
    decreases |s|
  {
    if Skip(s) == "" then Some([])
    else
      match ReadStatement(d, s)
      case Fail => None
      case Got(rows, rest) =>
        match ReadSql(d, rest)
        case None => None
        case Some(more) => Some([rows] + more)
  }

  // White space.

  predicate Blanks(s: string) {
    forall i | 0 <= i < |s| :: Blank(s[i])
  }

  lemma {:induction false} SkipBlanks(blanks: string, s: string)
    requires Blanks(blanks) && (s == "" || !Blank(s[0]))
    ensures Skip(blanks + s) == s
  {
    if blanks == "" {
      assert blanks + s == s;
    } else {
      SkipBlanks(blanks[1..], s);
      assert (blanks + s)[1..] == blanks[1..] + s;
    }
  }

  lemma Expected(blanks: string, word: string, rest: string)
    requires Blanks(blanks) && word != "" && !Blank(word[0])
    ensures Expect(word, blanks + (word + rest)) == Some(rest)
  {
    SkipBlanks(blanks, word + rest);
    DropOf(word, rest);
  }

  lemma NotExpected(blanks: string, word: string, s: string)
    requires Blanks(blanks) && s != "" && !Blank(s[0]) && word != "" && word[0] != s[0]
    ensures Expect(word, blanks + s) == None
  {
    SkipBlanks(blanks, s);
  }

  // Tokens.

  /** A character in quotes. */
  function QuotedChar(c: char, quote: char, escapes: bool): string {
    if c == quote then [quote, quote] else if escapes && c == '\\' then "\\\\" else [c]
  }

  function QuotedText(text: string, quote: char, escapes: bool): string {
    if text == "" then "" else QuotedChar(text[0], quote, escapes) + QuotedText(text[1..], quote, escapes)
  }

  lemma {:induction false} QuotedReadsBack(text: string, quote: char, escapes: bool, rest: string)
    requires quote != '\\' && (rest == "" || rest[0] != quote)
    ensures ReadQuoted(QuotedText(text, quote, escapes) + ([quote] + rest), quote, escapes) == Got(text, rest)
  {
    if text == "" {
      assert "" + ([quote] + rest) == [quote] + rest && ([quote] + rest)[1..] == rest;
    } else {
      QuotedReadsBack(text[1..], quote, escapes, rest);
      var more := QuotedText(text[1..], quote, escapes) + ([quote] + rest);
      OneQuoted(text[0], quote, escapes, more);
      Assoc(QuotedChar(text[0], quote, escapes), QuotedText(text[1..], quote, escapes), [quote] + rest);
      assert text == [text[0]] + text[1..];
      hide ReadQuoted;
    }
  }

  lemma OneQuoted(c: char, quote: char, escapes: bool, more: string)
    requires quote != '\\'
    ensures ReadQuoted(QuotedChar(c, quote, escapes) + more, quote, escapes)
         == WithFirst(c, ReadQuoted(more, quote, escapes))
  {
    var one := QuotedChar(c, quote, escapes);
    assert (one + more)[|one|..] == more;
  }

  /** Doubling the quote, and then the backslash, is doubling both at once. */
  lemma {:induction false} DoubledIsQuoted(text: string, quote: char)
    requires quote != '\\'
    ensures Replace(text, quote, [quote, quote]) == QuotedText(text, quote, false)
    ensures Replace(Replace(text, quote, [quote, quote]), '\\', "\\\\") == QuotedText(text, quote, true)
  {
    if text != "" {
      DoubledIsQuoted(text[1..], quote);
      var one := if text[0] == quote then [quote, quote] else [text[0]];
      assert Replace(text, quote, [quote, quote]) == one + Replace(text[1..], quote, [quote, quote]);
      Delimited.ReplaceOf(one, Replace(text[1..], quote, [quote, quote]), '\\', "\\\\");
      OneDoubled(text[0], quote);
    }
  }

  lemma OneDoubled(c: char, quote: char)
    requires quote != '\\'
    ensures Replace(if c == quote then [quote, quote] else [c], '\\', "\\\\") == QuotedChar(c, quote, true)
  {
    Delimited.ReplaceOne(c, '\\', "\\\\");
    Delimited.ReplaceTwo(quote, quote, '\\', "\\\\");
  }

  lemma {:induction false} BareRunOf(names: bool, text: string, rest: string)
    requires forall i | 0 <= i < |text| :: BareChar(names, text[i])
    requires rest == "" || !BareChar(names, rest[0])
    ensures BareRun(names, text + rest) == |text|
  {
    if text == "" {
      assert text + rest == rest;
    } else {
      BareRunOf(names, text[1..], rest);
      assert (text + rest)[1..] == text[1..] + rest;
    }
  }

  /** A token ends there. */
  predicate Stops(d: Dialect, names: bool, rest: string) {
    rest != "" && !BareChar(names, rest[0]) && rest[0] != QuoteFor(d, names)
  }

  /** `text` is read as `token` wherever it stands. */
  ghost predicate ReadsTo(d: Dialect, names: bool, text: string, token: Token) {
    && text != "" && !Blank(text[0]) && text[0] != ')' && text[0] != '('
    && forall rest | Stops(d, names, rest) :: ReadToken(d, names, text + rest) == Got(token, rest)
  }

  lemma QuotedReadsTo(d: Dialect, names: bool, text: string)
    ensures var quote := QuoteFor(d, names);
            ReadsTo(d, names, [quote] + QuotedText(text, quote, !names && d.MySql?) + [quote], Quoted(text))
  {
    var quote := QuoteFor(d, names);
    var inside := QuotedText(text, quote, !names && d.MySql?);
    var written := [quote] + inside + [quote];
    forall rest | Stops(d, names, rest)
      ensures ReadToken(d, names, written + rest) == Got(Quoted(text), rest)
    {
      hide QuotedText, ReadQuoted;
      QuotedReadsBack(text, quote, !names && d.MySql?, rest);
      AfterQuote(quote, inside, rest);
      assert Skip(written + rest) == written + rest;
    }
  }

  lemma AfterQuote(quote: char, inside: string, rest: string)
    ensures var s := [quote] + inside + [quote] + rest; s[0] == quote && s[1..] == inside + ([quote] + rest)
  {
  }

  lemma BareReadsTo(d: Dialect, names: bool, text: string)
    requires text != "" && forall i | 0 <= i < |text| :: BareChar(names, text[i])
    ensures ReadsTo(d, names, text, Bare(text))
  {
    forall rest | Stops(d, names, rest)
      ensures ReadToken(d, names, text + rest) == Got(Bare(text), rest)
    {
      BareRunOf(names, text, rest);
      DropOf(text, rest);
      assert (text + rest)[0] == text[0];
    }
  }

  // Names and values.

  lemma IdentReadsTo(q: Quoting, d: Dialect, name: string)
    ensures ReadsTo(d, true, Ident(q, d, name), if Plain(q, name) then Bare(name) else Quoted(name))
  {
    if Plain(q, name) {
      BareReadsTo(d, true, name);
    } else {
      QuotedReadsTo(d, true, name);
      DoubledIsQuoted(name, QuoteOf(d));
    }
  }

  /** What a cell's value is read as: NULL and numbers are bare, and everything else is in quotes. */
  function ValueOf(q: Quoting, value: Cell, numeric: bool): Token {
    match value
    case None => Bare("NULL")
    case Some(v) => if numeric && q.number(Trim(v)) then Bare(Trim(v)) else Quoted(v)
  }

  lemma LiteralReadsTo(q: Quoting, d: Dialect, value: Cell, numeric: bool)
    requires NumbersAreBare(q)
    ensures ReadsTo(d, false, Literal(q, d, value, numeric), ValueOf(q, value, numeric))
  {
    match value {
      case None =>
        BareReadsTo(d, false, "NULL");
      case Some(v) =>
        if numeric && q.number(Trim(v)) {
          BareReadsTo(d, false, Trim(v));
        } else {
          QuotedReadsTo(d, false, v);
          DoubledIsQuoted(v, '\'');
          hide QuotedText, ReadsTo;
        }
    }
  }

  /** The cell that a value stands for. */
  function CellOf(token: Token): Cell {
    if token == Bare("NULL") then None else Some(token.text)
  }

  /** Each value tells its cell, but for the white space around a number: NULL from every text, even the text NULL. */
  lemma ValuesTellCells(q: Quoting, value: Cell, numeric: bool)
    requires NumbersAreBare(q)
    ensures var read := CellOf(ValueOf(q, value, numeric));
            if value.Some? && numeric && q.number(Trim(value.value)) then read == Some(Trim(value.value))
            else read == value
  {
  }

  // Lists.

  ghost predicate AllReadTo(d: Dialect, names: bool, texts: seq<string>, tokens: seq<Token>) {
    |texts| == |tokens| && forall i | 0 <= i < |texts| :: ReadsTo(d, names, texts[i], tokens[i])
  }

  lemma PunctuationStops(d: Dialect, names: bool, c: char, rest: string)
    requires c == ',' || c == ')' || c == ' ' || (names && c == '.')
    ensures Stops(d, names, [c] + rest)
  {
  }

  lemma OneReadTo(d: Dialect, names: bool, blanks: string, text: string, token: Token, rest: string)
    requires Blanks(blanks) && ReadsTo(d, names, text, token) && Stops(d, names, rest)
    ensures ReadToken(d, names, blanks + (text + rest)) == Got(token, rest)
  {
    SkipBlanks(blanks, text + rest);
    SkipBlanks("", text + rest);
    assert "" + (text + rest) == text + rest;
    assert ReadToken(d, names, text + rest) == Got(token, rest);
  }

  lemma {:induction false} ListReads(d: Dialect, names: bool, blanks: string, texts: seq<string>, tokens: seq<Token>,
                                     rest: string)
    requires Blanks(blanks) && texts != [] && AllReadTo(d, names, texts, tokens)
    ensures ReadList(d, names, blanks + (Join(texts, ", ") + (")" + rest))) == Got(tokens, rest)
    decreases |texts|
  {
    hide ReadToken, ReadsTo, Stops;
    if |texts| == 1 {
      PunctuationStops(d, names, ')', rest);
      OneReadTo(d, names, blanks, texts[0], tokens[0], ")" + rest);
      SkipBlanks("", ")" + rest);
      assert "" + (")" + rest) == ")" + rest && (")" + rest)[1..] == rest && tokens == [tokens[0]];
    } else {
      var more := " " + (Join(texts[1..], ", ") + (")" + rest));
      PunctuationStops(d, names, ',', more);
      OneReadTo(d, names, blanks, texts[0], tokens[0], "," + more);
      SkipBlanks("", "," + more);
      assert "" + ("," + more) == "," + more && ("," + more)[1..] == more;
      ListReads(d, names, " ", texts[1..], tokens[1..], rest);
      NextInList(texts[0], Join(texts[1..], ", "), ")" + rest);
      assert tokens == [tokens[0]] + tokens[1..];
    }
  }

  lemma NextInList(first: string, more: string, end: string)
    ensures (first + ", " + more) + end == first + ("," + (" " + (more + end)))
  {
  }

  lemma BracketsRead(d: Dialect, names: bool, blanks: string, texts: seq<string>, tokens: seq<Token>, rest: string)
    requires Blanks(blanks) && AllReadTo(d, names, texts, tokens)
    ensures ReadBrackets(d, names, blanks + ("(" + (Join(texts, ", ") + (")" + rest)))) == Got(tokens, rest)
  {
    hide ReadList;
    var inside := Join(texts, ", ") + (")" + rest);
    Expected(blanks, "(", inside);
    if texts == [] {
      Expected("", ")", rest);
      assert inside == "" + (")" + rest);
    } else {
      assert "" + inside == inside;
      FirstOfJoin(texts);
      assert ReadsTo(d, names, texts[0], tokens[0]);
      assert inside[0] == texts[0][0];
      NotExpected("", ")", inside);
      ListReads(d, names, "", texts, tokens, rest);
    }
  }

  lemma FirstOfJoin(texts: seq<string>)
    requires texts != [] && texts[0] != ""
    ensures Join(texts, ", ") != "" && Join(texts, ", ")[0] == texts[0][0]
  {
  }

  lemma NextInPath(first: string, more: string, end: string)
    ensures (first + "." + more) + end == first + ("." + (more + end))
  {
  }

  lemma {:induction false} PathReads(d: Dialect, blanks: string, texts: seq<string>, tokens: seq<Token>, rest: string)
    requires Blanks(blanks) && texts != [] && AllReadTo(d, true, texts, tokens)
    ensures ReadPath(d, blanks + (Join(texts, ".") + (" " + rest))) == Got(tokens, " " + rest)
    decreases |texts|
  {
    hide ReadToken, ReadsTo, Stops;
    if |texts| == 1 {
      PunctuationStops(d, true, ' ', rest);
      OneReadTo(d, true, blanks, texts[0], tokens[0], " " + rest);
      assert tokens == [tokens[0]];
    } else {
      var more := Join(texts[1..], ".") + (" " + rest);
      PunctuationStops(d, true, '.', more);
      OneReadTo(d, true, blanks, texts[0], tokens[0], "." + more);
      PathReads(d, "", texts[1..], tokens[1..], rest);
      assert "" + more == more && ("." + more)[1..] == more;
      NextInPath(texts[0], Join(texts[1..], "."), " " + rest);
      assert tokens == [tokens[0]] + tokens[1..];
    }
  }

  // Statements.

  function NamesRead(q: Quoting, names: seq<string>): (tokens: seq<Token>)
    ensures |tokens| == |names|
  {
    seq(|names|, i requires 0 <= i < |names| => if Plain(q, names[i]) then Bare(names[i]) else Quoted(names[i]))
  }

  lemma IdentsReadTo(f: Format, names: seq<string>)
    ensures AllReadTo(f.opts.dialect, true, Idents(f, names), NamesRead(f.quoting, names))
    ensures TextsOf(NamesRead(f.quoting, names)) == names
  {
    hide ReadsTo;
    forall i | 0 <= i < |names|
      ensures ReadsTo(f.opts.dialect, true, Idents(f, names)[i], NamesRead(f.quoting, names)[i])
    {
      IdentReadsTo(f.quoting, f.opts.dialect, names[i]);
    }
  }

  /** The values of a row: as many as there are columns, or cells if those are more. */
  function ValuesOf(f: Format, row: Row): (tokens: seq<Token>)
    ensures |tokens| == Max(|f.columns|, |row|)
  {
    seq(Max(|f.columns|, |row|), i requires 0 <= i =>
      ValueOf(f.quoting, CellAt(row, i), i < |f.columns| && f.columns[i].kind.IsNumeric()))
  }

  lemma LiteralsReadTo(f: Format, row: Row)
    requires NumbersAreBare(f.quoting)
    ensures AllReadTo(f.opts.dialect, false, Literals(f, row), ValuesOf(f, row))
  {
    hide ReadsTo, NumbersAreBare;
    forall i | 0 <= i < |Literals(f, row)|
      ensures ReadsTo(f.opts.dialect, false, Literals(f, row)[i], ValuesOf(f, row)[i])
    {
      LiteralReadsTo(f.quoting, f.opts.dialect, CellAt(row, i), i < |f.columns| && f.columns[i].kind.IsNumeric());
    }
  }

  /** The path of the table that was asked for, or `result`. */
  function TablePath(f: Format): seq<string> {
    SplitAt(if f.opts.table.Some? then f.opts.table.value else "result", '.')
  }

  /** The table, and the names of the columns exactly when a header was asked for. */
  function IntoOf(f: Format): Into {
    Into(TablePath(f), if f.opts.header then Some(Names(f.columns)) else None)
  }

  lemma IntoReads(f: Format, rest: string)
    ensures ReadInto(f.opts.dialect, " " + (Table(f) + (InsertColumns(f) + (" VALUES" + rest)))) == Got(IntoOf(f), rest)
  {
    hide ReadPath, ReadBrackets, AllReadTo, TextsOf;
    var d, path := f.opts.dialect, TablePath(f);
    var values := " VALUES" + rest;
    IdentsReadTo(f, path);
    Expected(" ", "VALUES", rest);
    assert values == " " + ("VALUES" + rest);
    if f.opts.header {
      var names := Join(Idents(f, Names(f.columns)), ", ");
      var columns := "(" + (names + (")" + values));
      IdentsReadTo(f, Names(f.columns));
      PathReads(d, " ", Idents(f, path), NamesRead(f.quoting, path), columns);
      BracketsRead(d, true, " ", Idents(f, Names(f.columns)), NamesRead(f.quoting, Names(f.columns)), values);
      Expected(" ", "(", names + (")" + values));
      ColumnsInBrackets(names, values);
    } else {
      PathReads(d, " ", Idents(f, path), NamesRead(f.quoting, path), "VALUES" + rest);
      NotExpected(" ", "(", "VALUES" + rest);
      assert InsertColumns(f) + values == " " + ("VALUES" + rest);
    }
  }

  lemma ColumnsInBrackets(names: string, values: string)
    ensures (" (" + names + ")") + values == " " + ("(" + (names + (")" + values)))
  {
  }

  /** A row that was inserted. */
  function RowOf(f: Format, row: Row): Inserted {
    Inserted(IntoOf(f).table, IntoOf(f).columns, ValuesOf(f, row))
  }

  function RowsRead(f: Format, rows: seq<Row>): (r: seq<Inserted>)
    ensures |r| == |rows|
  {
    seq(|rows|, i requires 0 <= i < |rows| => RowOf(f, rows[i]))
  }

  lemma TupleReads(f: Format, blanks: string, row: Row, rest: string)
    requires Blanks(blanks) && NumbersAreBare(f.quoting)
    ensures ReadBrackets(f.opts.dialect, false, blanks + (Tuple(f, row) + rest)) == Got(ValuesOf(f, row), rest)
  {
    hide ReadBrackets, AllReadTo, NumbersAreBare;
    var values := Join(Literals(f, row), ", ");
    LiteralsReadTo(f, row);
    BracketsRead(f.opts.dialect, false, blanks, Literals(f, row), ValuesOf(f, row), rest);
    assert ("(" + values + ")") + rest == "(" + (values + (")" + rest));
  }

  lemma {:induction false} TuplesRead(f: Format, blanks: string, rows: seq<Row>, rest: string)
    requires Blanks(blanks) && NumbersAreBare(f.quoting) && rows != []
    ensures ReadRows(f.opts.dialect, IntoOf(f), blanks + (Join(Tuples(f, rows), "," + Eol(f) + "  ") + (";" + rest)))
         == Got(RowsRead(f, rows), rest)
    decreases |rows|
  {
    hide ReadBrackets, NumbersAreBare, Tuple, IntoOf, ValuesOf;
    var texts, sep := Tuples(f, rows), "," + Eol(f) + "  ";
    if |rows| == 1 {
      TupleReads(f, blanks, rows[0], ";" + rest);
      SkipBlanks("", ";" + rest);
      assert "" + (";" + rest) == ";" + rest && (";" + rest)[1..] == rest;
      assert RowsRead(f, rows) == [RowOf(f, rows[0])];
    } else {
      var next, end := Join(texts[1..], sep), ";" + rest;
      var more := (Eol(f) + "  ") + (next + end);
      TupleReads(f, blanks, rows[0], "," + more);
      SkipBlanks("", "," + more);
      assert "" + ("," + more) == "," + more && ("," + more)[1..] == more;
      TuplesRead(f, Eol(f) + "  ", rows[1..], rest);
      assert texts[1..] == Tuples(f, rows[1..]);
      NextTuple(texts[0], Eol(f) + "  ", next, end);
      assert sep == "," + (Eol(f) + "  ");
      assert RowsRead(f, rows) == [RowOf(f, rows[0])] + RowsRead(f, rows[1..]);
    }
  }

  lemma NextTuple(first: string, blanks: string, more: string, end: string)
    ensures (first + ("," + blanks) + more) + end == first + ("," + (blanks + (more + end)))
  {
  }

  /** Oracle's: an INTO for each row. */
  lemma {:induction false} IntosRead(f: Format, rows: seq<Row>, rest: string)
    requires NumbersAreBare(f.quoting) && rows != []
    ensures ReadIntos(f.opts.dialect,
                      Eol(f) + (Join(Intos(f, Tuples(f, rows)), Eol(f)) + (Eol(f) + ("SELECT 1 FROM DUAL;" + rest))))
         == Got(RowsRead(f, rows), rest)
    decreases |rows|
  {
    hide ReadBrackets, ReadInto, NumbersAreBare, Tuple, IntoOf, ValuesOf, Expect, Eol, Table, InsertColumns;
    var texts := Intos(f, Tuples(f, rows));
    var end := Eol(f) + ("SELECT 1 FROM DUAL;" + rest);
    assert texts[1..] == Intos(f, Tuples(f, rows[1..])) by {
      assert Tuples(f, rows)[1..] == Tuples(f, rows[1..]);
    }
    assert RowsRead(f, rows) == [RowOf(f, rows[0])] + RowsRead(f, rows[1..]);
    var after := if |rows| == 1 then end else Eol(f) + (Join(texts[1..], Eol(f)) + end);
    assert ReadIntos(f.opts.dialect, after) == Got(RowsRead(f, rows[1..]), rest) by {
      if |rows| == 1 {
        assert RowsRead(f, rows[1..]) == [];
        EndOfIntos(f, rest);
      } else {
        IntosRead(f, rows[1..], rest);
      }
    }
    var tuple := Tuple(f, rows[0]);
    var target := " " + (Table(f) + (InsertColumns(f) + (" VALUES" + (" " + (tuple + after)))));
    assert Expect("INTO", Eol(f) + ("  " + ("INTO" + target))) == Some(target) by { IntoNext(f, target); }
    IntoReads(f, " " + (tuple + after));
    TupleReads(f, " ", rows[0], after);
    FirstInto(texts[0], Join(texts[1..], Eol(f)), Eol(f), end, |rows| == 1);
    IntoSpread(Table(f), InsertColumns(f), tuple, after);
  }

  lemma EndOfIntos(f: Format, rest: string)
    ensures ReadIntos(f.opts.dialect, Eol(f) + ("SELECT 1 FROM DUAL;" + rest)) == Got([], rest)
  {
    NotExpected(Eol(f), "INTO", "SELECT 1 FROM DUAL;" + rest);
    Expected(Eol(f), "SELECT 1 FROM DUAL;", rest);
  }

  lemma IntoNext(f: Format, target: string)
    ensures Expect("INTO", Eol(f) + ("  " + ("INTO" + target))) == Some(target)
  {
    Expected(Eol(f) + "  ", "INTO", target);
    Assoc(Eol(f), "  ", "INTO" + target);
  }

  lemma FirstInto(first: string, more: string, eol: string, end: string, one: bool)
    ensures (first + eol + more) + end == first + (eol + (more + end))
  {
  }

  lemma IntoSpread(table: string, columns: string, tuple: string, after: string)
    ensures ("  INTO " + table + columns + " VALUES " + tuple) + after
         == "  " + ("INTO" + (" " + (table + (columns + (" VALUES" + (" " + (tuple + after)))))))
  {
  }

  /** One INSERT is read as its rows, for any dialect. */
  lemma InsertReads(f: Format, blanks: string, rows: seq<Row>, rest: string)
    requires Blanks(blanks) && NumbersAreBare(f.quoting) && rows != []
    ensures ReadStatement(f.opts.dialect, blanks + (Insert(f, Tuples(f, rows)) + rest))
         == Got(RowsRead(f, rows), Eol(f) + rest)
  {
    hide ReadInto, ReadRows, ReadIntos, NumbersAreBare, Tuple, IntoOf, ValuesOf, Expect, Table, InsertColumns;
    var d, eol := f.opts.dialect, Eol(f);
    if d.Oracle? {
      var intos := Join(Intos(f, Tuples(f, rows)), eol);
      var more := eol + (intos + (eol + ("SELECT 1 FROM DUAL;" + (eol + rest))));
      Expected(blanks, "INSERT", " " + ("ALL" + more));
      Expected(" ", "ALL", more);
      IntosRead(f, rows, eol + rest);
      OracleSpread(eol, intos, rest);
    } else {
      var tuples := Join(Tuples(f, rows), "," + eol + "  ");
      var values := (eol + "  ") + (tuples + (";" + (eol + rest)));
      var target := " " + (Table(f) + (InsertColumns(f) + (" VALUES" + values)));
      Expected(blanks, "INSERT", " " + ("INTO" + target));
      NotExpected(" ", "ALL", "INTO" + target);
      Expected(" ", "INTO", target);
      IntoReads(f, values);
      TuplesRead(f, eol + "  ", rows, eol + rest);
      PlainSpread(Table(f), InsertColumns(f), eol, tuples, rest);
    }
  }

  lemma OracleSpread(eol: string, intos: string, rest: string)
    ensures ("INSERT ALL" + eol + intos + eol + "SELECT 1 FROM DUAL;" + eol) + rest
         == "INSERT" + (" " + ("ALL" + (eol + (intos + (eol + ("SELECT 1 FROM DUAL;" + (eol + rest)))))))
  {
  }

  lemma PlainSpread(table: string, columns: string, eol: string, tuples: string, rest: string)
    ensures ("INSERT INTO " + table + columns + " VALUES" + eol + "  " + tuples + ";" + eol) + rest
         == "INSERT" + (" " + ("INTO" + (" " + (table + (columns
              + (" VALUES" + ((eol + "  ") + (tuples + (";" + (eol + rest))))))))))
  {
  }

  // Whole files.

  function EachTuples(f: Format, batches: seq<seq<Row>>): (r: seq<seq<string>>)
    ensures |r| == |batches|
  {
    if batches == [] then [] else [Tuples(f, batches[0])] + EachTuples(f, batches[1..])
  }

  function EachRead(f: Format, batches: seq<seq<Row>>): (r: seq<seq<Inserted>>)
    ensures |r| == |batches| && forall i | 0 <= i < |batches| :: r[i] == RowsRead(f, batches[i])
  {
    if batches == [] then [] else [RowsRead(f, batches[0])] + EachRead(f, batches[1..])
  }

  /** Batches of tuples are the tuples of batches. */
  lemma {:induction false} TuplesOfChunks(f: Format, rows: seq<Row>, size: nat)
    requires size > 0
    ensures Chunks(Tuples(f, rows), size) == EachTuples(f, Chunks(rows, size))
    decreases |rows|
  {
    hide Tuple;
    var tuples := Tuples(f, rows);
    if |rows| < size {
      assert rows != [] ==> [rows][1..] == [];
    } else {
      TuplesOfChunks(f, rows[size..], size);
      assert tuples[..size] == Tuples(f, rows[..size]) && tuples[size..] == Tuples(f, rows[size..]);
      ChunksFirst(tuples, size);
      ChunksFirst(rows, size);
    }
  }

  lemma ChunksFirst<T>(s: seq<T>, size: nat)
    requires 0 < size <= |s|
    ensures Chunks(s, size) == [s[..size]] + Chunks(s[size..], size)
  {
  }

  lemma {:induction false} InsertsRead(f: Format, blanks: string, batches: seq<seq<Row>>)
    requires Blanks(blanks) && NumbersAreBare(f.quoting) && forall b | b in batches :: b != []
    ensures ReadSql(f.opts.dialect, blanks + Inserts(f, EachTuples(f, batches))) == Some(EachRead(f, batches))
    decreases |batches|
  {
    hide ReadStatement, NumbersAreBare, Insert, RowsRead;
    if batches == [] {
      SkipBlanks(blanks, "");
    } else {
      var rest := Inserts(f, EachTuples(f, batches[1..]));
      assert EachTuples(f, batches)[1..] == EachTuples(f, batches[1..]);
      assert batches[0] in batches && forall b | b in batches[1..] :: b in batches;
      InsertReads(f, blanks, batches[0], rest);
      InsertIsThere(f, blanks, batches[0], rest);
      assert Blanks(Eol(f));
      InsertsRead(f, Eol(f), batches[1..]);
    }
  }

  lemma InsertIsThere(f: Format, blanks: string, rows: seq<Row>, rest: string)
    requires Blanks(blanks)
    ensures Skip(blanks + (Insert(f, Tuples(f, rows)) + rest)) != ""
  {
    assert Insert(f, Tuples(f, rows))[0] == 'I';
    hide Insert;
    SkipBlanks(blanks, Insert(f, Tuples(f, rows)) + rest);
  }

  /**
   A reader of INSERT statements finds in a SQL export, after the mark if there is one, one
   statement for each batch of rows, and in it one row for each of the batch, in order: with
   the table, the columns exactly when a header was asked for, and the value of every cell.
   */
  lemma SqlReadsBack(f: Format, rows: seq<Row>)
    requires f.etype == SqlInsert && NumbersAreBare(f.quoting)
    ensures ReadSql(f.opts.dialect, Delimited.AfterMark(f, Complete(f, rows)))
         == Some(EachRead(f, Chunks(rows, Max(f.opts.batch, 1))))
  {
    hide ReadSql, NumbersAreBare, EachRead, Chunks;
    var batches := Chunks(rows, Max(f.opts.batch, 1));
    TuplesOfChunks(f, rows, Max(f.opts.batch, 1));
    ChunkSizes(rows, Max(f.opts.batch, 1));
    InsertsRead(f, "", batches);
    OnlyInserts(f, rows);
    assert "" + Inserts(f, EachTuples(f, batches)) == Inserts(f, EachTuples(f, batches));
  }

  lemma OnlyInserts(f: Format, rows: seq<Row>)
    requires f.etype == SqlInsert
    ensures Delimited.AfterMark(f, Complete(f, rows)) == Inserts(f, Chunks(Tuples(f, rows), BatchSize(f)))
  {
    hide Chunks, Inserts;
    NoRowText(f, 0, rows);
    var text := Inserts(f, Chunks(Tuples(f, rows), BatchSize(f)));
    assert "" + ("" + text) == text && "" + text == text;
    DropOf(Mark(f), text);
    NoMarkInside(f, text);
  }

  lemma NoMarkInside(f: Format, text: string)
    ensures !f.opts.bom ==> Delimited.AfterMark(f, text) == text
  {
  }

  lemma {:induction false} EachReadFlat(f: Format, batches: seq<seq<Row>>)
    ensures Flatten(EachRead(f, batches)) == RowsRead(f, Flatten(batches))
  {
    hide RowOf;
    if batches != [] {
      EachReadFlat(f, batches[1..]);
      assert RowsRead(f, batches[0]) + RowsRead(f, Flatten(batches[1..])) == RowsRead(f, Flatten(batches));
    }
  }

  /** So the file inserts one row for each row of the result, in order, and no others. */
  lemma EveryRowIsInserted(f: Format, rows: seq<Row>)
    requires f.etype == SqlInsert && NumbersAreBare(f.quoting)
    ensures var read := ReadSql(f.opts.dialect, Delimited.AfterMark(f, Complete(f, rows)));
            && read.Some? && |Flatten(read.value)| == |rows|
            && forall i | 0 <= i < |rows| ::
                 Flatten(read.value)[i]
                 == Inserted(TablePath(f), if f.opts.header then Some(Names(f.columns)) else None, ValuesOf(f, rows[i]))
  {
    hide ReadSql, Complete, EachRead, Chunks, ValuesOf;
    var size := Max(f.opts.batch, 1);
    SqlReadsBack(f, rows);
    EachReadFlat(f, Chunks(rows, size));
    ChunksKeepAll(rows, size);
  }
}
