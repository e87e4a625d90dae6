/** Where the lines of pretty-printed JSON start and end: as the brackets are nested (inspect.rs). */
module JsonLayout {
  import opened Basics
  import opened JsonGrammar
  import opened JsonPretty
  import opened JsonRoundTrip

  predicate Opens(p: Piece) {
    p == Piece(Punct, "{") || p == Piece(Punct, "[")
  }

  predicate Closes(p: Piece) {
    p == Piece(Punct, "}") || p == Piece(Punct, "]")
  }

  /** How many more brackets some pieces open than close. */
  function Net(line: Line): int {
    if line == [] then 0 else (if Opens(line[0]) then 1 else if Closes(line[0]) then -1 else 0) + Net(line[1..])
  }

  function NetAll(lines: seq<Line>): int {
    if lines == [] then 0 else Net(lines[0]) + NetAll(lines[1..])
  }

  /** Begins with something other than a space. */
  predicate Starts(line: Line) {
    line != [] && line[0].text != "" && line[0].text[0] != ' '
  }

  /** Begins with exactly `n` spaces. */
  predicate StandsAt(line: Line, n: nat) {
    if n == 0 then Starts(line)
    else line != [] && |line[0].text| == n && (forall i | 0 <= i < n :: line[0].text[i] == ' ') && Starts(line[1..])
  }

  function Body(line: Line, n: nat): Line {
    if n == 0 || line == [] then line else line[1..]
  }

  /** A bracket that opens or a comma ends its line; one that closes, or a key, starts it. */
  predicate Ordered(body: Line) {
    forall i | 0 <= i < |body| ::
      && (Opens(body[i]) || body[i] == Piece(Punct, ",") ==> i == |body| - 1)
      && (Closes(body[i]) || body[i].tok.KeyTok? ==> i == 0)
  }

  /** A line with `level` brackets open before it: two spaces for each of them, less one if the line closes one. */
  predicate GoodLine(line: Line, level: int) {
    || (level >= 0 && StandsAt(line, 2 * level) && Ordered(Body(line, 2 * level)) && !Closes(Body(line, 2 * level)[0]))
    || (level >= 1 && StandsAt(line, 2 * level - 2) && Ordered(Body(line, 2 * level - 2))
        && Closes(Body(line, 2 * level - 2)[0]))
  }

  /** So is every line after the first, with `level` brackets open before that. */
  predicate GoodFrom(lines: seq<Line>, level: int) {
    forall k | 0 < k < |lines| :: GoodLine(lines[k], level + NetAll(lines[..k]))
  }

  /** More can be put on the line. */
  predicate Flows(line: Line) {
    line != [] && !Opens(line[|line| - 1]) && line[|line| - 1] != Piece(Punct, ",")
  }

  /** Can be put on a line that something is on. */
  predicate Follows(line: Line) {
    Ordered(line) && forall p | p in line :: !Closes(p) && !p.tok.KeyTok?
  }

  predicate EndsWell(lines: seq<Line>) {
    lines != [] && Flows(lines[|lines| - 1])
  }

  lemma {:induction false} NetOf(a: Line, b: Line)
    ensures Net(a + b) == Net(a) + Net(b)
  {
    if a == [] {
      assert a + b == b;
    } else {
      NetOf(a[1..], b);
      assert (a + b)[1..] == a[1..] + b;
    }
  }

  lemma {:induction false} NetAllOf(a: seq<Line>, b: seq<Line>)
    ensures NetAll(a + b) == NetAll(a) + NetAll(b)
  {
    hide Net;
    if a == [] {
      assert a + b == b;
    } else {
      NetAllOf(a[1..], b);
      assert (a + b)[1..] == a[1..] + b;
    }
  }

  lemma {:induction false} GlueIs(a: seq<Line>, b: seq<Line>)
    requires a != [] && b != []
    ensures Glue(a, b) == a[..|a| - 1] + [a[|a| - 1] + b[0]] + b[1..]
  {
    if |a| > 1 {
      GlueIs(a[1..], b);
    }
  }

  lemma LineFlows(line: Line, more: Line, level: int)
    requires GoodLine(line, level) && Flows(line) && Follows(more)
    ensures GoodLine(line + more, level)
  {
    var n := if level >= 0 && StandsAt(line, 2 * level) && Ordered(Body(line, 2 * level))
                && !Closes(Body(line, 2 * level)[0]) then 2 * level else 2 * level - 2;
    assert Body(line + more, n) == Body(line, n) + more;
    BodyFlows(Body(line, n), more);
    assert n > 0 ==> (line + more)[1..] == line[1..] + more;
  }

  lemma BodyFlows(body: Line, more: Line)
    requires Ordered(body) && Flows(body) && Follows(more)
    ensures Ordered(body + more)
  {
    assert forall i | |body| <= i < |body + more| :: (body + more)[i] == more[i - |body|];
  }

  lemma NetTaken(a: seq<Line>, b: seq<Line>, k: nat)
    requires a != [] && b != [] && k <= |Glue(a, b)|
    ensures k < |a| ==> Glue(a, b)[..k] == a[..k]
    ensures k >= |a| ==> NetAll(Glue(a, b)[..k]) == NetAll(a) + NetAll(b[..k - |a| + 1])
  {
    GlueIs(a, b);
    var n := |a| - 1;
    if k >= |a| {
      var line := a[n] + b[0];
      assert Glue(a, b)[..k] == a[..n] + ([line] + b[1..k - n]);
      NetAllOf(a[..n], [line] + b[1..k - n]);
      NetAllOf(a[..n], [a[n]]);
      assert a == a[..n] + [a[n]];
      NetOf(a[n], b[0]);
      assert ([line] + b[1..k - n])[1..] == b[1..k - n];
      assert b[..k - n][1..] == b[1..k - n] && [a[n]][1..] == [];
      hide Net, Glue;
    }
  }

  lemma NetGlued(a: seq<Line>, b: seq<Line>)
    requires a != [] && b != []
    ensures NetAll(Glue(a, b)) == NetAll(a) + NetAll(b)
  {
    NetTaken(a, b, |Glue(a, b)|);
    assert Glue(a, b)[..|Glue(a, b)|] == Glue(a, b) && b[..|b|] == b;
  }

  /** Lines put at the end of lines, where the last of those can go on. */
  lemma GlueGood(a: seq<Line>, b: seq<Line>, level: int)
    requires a != [] && b != [] && GoodFrom(a, level) && GoodFrom(b, level + NetAll(a))
    requires |a| > 1 && b[0] != [] ==> Flows(a[|a| - 1]) && Follows(b[0])
    ensures GoodFrom(Glue(a, b), level)
  {
    hide GoodLine, NetAll, Glue, Flows, Follows;
    forall k | 0 < k < |Glue(a, b)|
      ensures GoodLine(Glue(a, b)[k], level + NetAll(Glue(a, b)[..k]))
    {
      GlueGoodAt(a, b, level, k);
    }
  }

  lemma GlueGoodAt(a: seq<Line>, b: seq<Line>, level: int, k: nat)
    requires a != [] && b != [] && GoodFrom(a, level) && GoodFrom(b, level + NetAll(a))
    requires |a| > 1 && b[0] != [] ==> Flows(a[|a| - 1]) && Follows(b[0])
    requires 0 < k < |Glue(a, b)|
    ensures GoodLine(Glue(a, b)[k], level + NetAll(Glue(a, b)[..k]))
  {
    hide GoodLine, NetAll, Glue, Flows, Follows;
    GlueIs(a, b);
    NetTaken(a, b, k);
    if k == |a| - 1 {
      LineGoesOn(a[k], b[0], level + NetAll(a[..k]));
    } else if k >= |a| {
      assert Glue(a, b)[k] == b[k - |a| + 1];
    }
  }

  lemma LineGoesOn(line: Line, more: Line, level: int)
    requires GoodLine(line, level) && (more != [] ==> Flows(line) && Follows(more))
    ensures GoodLine(line + more, level)
  {
    if more == [] {
      assert line + more == line;
    } else {
      LineFlows(line, more, level);
    }
  }

  lemma GlueEndsWell(a: seq<Line>, b: seq<Line>)
    requires a != [] && EndsWell(b)
    ensures EndsWell(Glue(a, b))
  {
    GlueIs(a, b);
  }

  lemma NetMark(text: string)
    ensures NetAll(Mark(text)) == Net([Piece(Punct, text)])
    ensures Net([Piece(Punct, text)])
            == if Opens(Piece(Punct, text)) then 1 else if Closes(Piece(Punct, text)) then -1 else 0
  {
    assert [Piece(Punct, text)][1..] == [] && Mark(text)[1..] == [];
  }

  /** The line of a bracket that closes. */
  lemma CloseGood(depth: nat, text: string)
    requires text == "}" || text == "]"
    ensures var t := NewLine(depth, [Piece(Punct, text)]);
            t[0] == [] && GoodFrom(t, depth + 1) && NetAll(t) == -1 && EndsWell(t)
  {
    var t, p := NewLine(depth, [Piece(Punct, text)]), Piece(Punct, text);
    var indent := if depth == 0 then [] else [Piece(Punct, Spaces(2 * depth))];
    IndentIs(depth);
    NetOf(indent, [p]);
    NetMark(text);
    var none: seq<Line> := [[]];
    assert t[1..] == [indent + [p]] && t[1..][1..] == [] && t[..1] == none && none[1..] == [];
    assert Body(t[1], 2 * depth) == [p];
    assert depth > 0 ==> t[1][1..] == [p];
  }

  lemma IndentIs(depth: nat)
    ensures var indent := if depth == 0 then [] else [Piece(Punct, Spaces(2 * depth))]; Net(indent) == 0
    ensures depth > 0 ==> forall i | 0 <= i < 2 * depth :: Spaces(2 * depth)[i] == ' '
  {
    if depth > 0 {
      assert Spaces(2 * depth)[0] == ' ';
      assert [Piece(Punct, Spaces(2 * depth))][1..] == [];
    }
  }

  // Every value.

  /** What the lines of a value are: the first can go on a line, the others stand as they should, and more can
      follow. */
  predicate GoodBlock(lines: seq<Line>, depth: nat) {
    && lines != [] && Starts(lines[0]) && Follows(lines[0]) && GoodFrom(lines, depth) && NetAll(lines) == 0
    && EndsWell(lines)
  }

  /** What follows a bracket that opens, up to the one that closes it. */
  predicate GoodTail(lines: seq<Line>, depth: nat) {
    && lines != [] && lines[0] == [] && GoodFrom(lines, depth + 1) && NetAll(lines) == -1 && EndsWell(lines)
  }

  lemma {:induction false} BlockGood(j: Json, depth: nat)
    requires Clean(j)
    ensures GoodBlock(Block(j, depth), depth)
    decreases j, 1
  {
    match j {
      case Object(members) =>
        if members == [] {
          OneLineGood(Piece(Punct, "{}"), depth);
        } else {
          MembersGood(members, depth);
          BracketGood("{", MembersBlock(members, depth), depth);
        }
      case Array(items) =>
        if items == [] {
          OneLineGood(Piece(Punct, "[]"), depth);
        } else {
          ItemsGood(items, depth);
          BracketGood("[", ItemsBlock(items, depth), depth);
        }
      case _ =>
        ScalarStart(j);
        ScalarIsNoSpace(j);
        OneLineGood(ScalarPiece(j), depth);
    }
  }

  lemma ScalarIsNoSpace(j: Json)
    requires IsScalarText(j)
    ensures j.text != "" && j.text[0] != ' '
  {
    ScalarStart(j);
  }

  lemma OneLineGood(p: Piece, depth: nat)
    requires p.text != "" && p.text[0] != ' ' && !Opens(p) && !Closes(p) && p != Piece(Punct, ",") && !p.tok.KeyTok?
    ensures GoodBlock([[p]], depth)
  {
    var line: Line := [p];
    var lines: seq<Line> := [line];
    assert line[1..] == [] && lines[1..] == [] && Net(line) == 0;
    assert forall q | q in line :: q == p;
  }

  lemma BracketGood(text: string, tail: seq<Line>, depth: nat)
    requires (text == "{" || text == "[") && GoodTail(tail, depth)
    ensures GoodBlock(Glue(Mark(text), tail), depth)
  {
    hide GoodFrom, NetAll, EndsWell;
    NetMark(text);
    assert GoodFrom(Mark(text), depth) by { OneIsGood(Mark(text), depth); }
    GlueGood(Mark(text), tail, depth);
    NetGlued(Mark(text), tail);
    GlueEndsWell(Mark(text), tail);
    GlueIs(Mark(text), tail);
    assert Mark(text)[0] + tail[0] == [Piece(Punct, text)];
  }

  lemma OneIsGood(lines: seq<Line>, level: int)
    requires |lines| <= 1
    ensures GoodFrom(lines, level)
  {
  }

  /** A value, and what comes after it: a comma or nothing, and the rest. */
  lemma ThenGood(block: seq<Line>, more: bool, tail: seq<Line>, depth: nat)
    requires GoodBlock(block, depth + 1) && GoodTail(tail, depth)
    ensures var all := Glue(block, Glue(if more then Mark(",") else [[]], tail));
            && all != [] && Starts(all[0]) && Follows(all[0]) && GoodFrom(all, depth + 1) && NetAll(all) == -1
            && EndsWell(all)
  {
    hide GoodFrom, NetAll, EndsWell;
    var comma := if more then Mark(",") else [[]];
    var rest := Glue(comma, tail);
    CommaIs(more);
    GlueIs(comma, tail);
    assert comma[0] + tail[0] == comma[0];
    GlueGood(comma, tail, depth + 1);
    NetGlued(comma, tail);
    GlueEndsWell(comma, tail);
    LastFlows(block);
    GlueGood(block, rest, depth + 1);
    NetGlued(block, rest);
    GlueEndsWell(block, rest);
    GlueIs(block, rest);
    if |block| == 1 {
      FollowsOn(block[0], comma[0]);
    } else {
      assert Glue(block, rest)[0] == block[0];
    }
  }

  lemma LastFlows(lines: seq<Line>)
    requires EndsWell(lines)
    ensures lines != [] && Flows(lines[|lines| - 1])
  {
  }

  lemma CommaIs(more: bool)
    ensures var comma := if more then Mark(",") else [[]];
            NetAll(comma) == 0 && Follows(comma[0]) && forall level :: GoodFrom(comma, level)
  {
    NetMark(",");
    var none: seq<Line> := [[]];
    assert none[1..] == [];
  }

  lemma FollowsOn(a: Line, b: Line)
    requires Starts(a) && Flows(a) && Follows(a) && Follows(b)
    ensures Starts(a + b) && Follows(a + b)
  {
    BodyFlows(a, b);
  }

  lemma {:induction false} MembersGood(members: seq<Member>, depth: nat)
    requires forall m | m in members :: CleanMember(m)
    ensures GoodTail(MembersBlock(members, depth), depth)
    decreases members, 0
  {
    if members == [] {
      CloseGood(depth, "}");
    } else {
      assert CleanMember(members[0]);
      BlockGood(members[0].value, depth + 1);
      MembersGood(members[1..], depth);
      var block, tail := Block(members[0].value, depth + 1), MembersBlock(members[1..], depth);
      hide GoodFrom, NetAll, EndsWell, GoodBlock, GoodTail, Follows, Starts;
      ThenGood(block, |members| > 1, tail, depth);
      KeyGood(depth, members[0].key, Glue(block, Glue(if |members| > 1 then Mark(",") else [[]], tail)));
    }
  }

  lemma KeyGood(depth: nat, key: string, rest: seq<Line>)
    requires IsString(key)
    requires rest != [] && Follows(rest[0]) && GoodFrom(rest, depth + 1) && NetAll(rest) == -1 && EndsWell(rest)
    ensures GoodTail(Glue(NewLine(depth + 1, [Piece(KeyTok, key), Piece(Punct, ": ")]), rest), depth)
  {
    hide EndsWell, GoodFrom, NetAll, Follows, Flows, IsString, NewLine;
    var start := NewLine(depth + 1, [Piece(KeyTok, key), Piece(Punct, ": ")]);
    KeyLineGood(depth, key);
    GlueGood(start, rest, depth + 1);
    NetGlued(start, rest);
    GlueEndsWell(start, rest);
    GlueIs(start, rest);
  }

  lemma KeyLineGood(depth: nat, key: string)
    requires IsString(key)
    ensures var start := NewLine(depth + 1, [Piece(KeyTok, key), Piece(Punct, ": ")]);
            GoodFrom(start, depth + 1) && NetAll(start) == 0 && Flows(start[1]) && |start| == 2 && start[0] == []
  {
    var indent, body := [Piece(Punct, Spaces(2 * depth + 2))], [Piece(KeyTok, key), Piece(Punct, ": ")];
    var start := NewLine(depth + 1, body);
    IndentIs(depth + 1);
    NetOf(indent, body);
    var none: seq<Line> := [[]];
    assert start[1] == indent + body && start[1][1..] == body && Body(start[1], 2 * depth + 2) == body;
    assert body[1..] == [Piece(Punct, ": ")] && body[1..][1..] == [];
    assert Net(body) == 0;
    assert start[1..] == [start[1]] && start[1..][1..] == [] && start[..1] == none && none[1..] == [];
  }

  lemma {:induction false} ItemsGood(items: seq<Json>, depth: nat)
    requires forall i | i in items :: Clean(i)
    ensures GoodTail(ItemsBlock(items, depth), depth)
    decreases items, 0
  {
    if items == [] {
      CloseGood(depth, "]");
    } else {
      assert Clean(items[0]);
      BlockGood(items[0], depth + 1);
      ItemsGood(items[1..], depth);
      var block, tail := Block(items[0], depth + 1), ItemsBlock(items[1..], depth);
      hide GoodFrom, NetAll, EndsWell, GoodBlock, GoodTail, Follows, Starts;
      ThenGood(block, |items| > 1, tail, depth);
      ItemGood(depth, Glue(block, Glue(if |items| > 1 then Mark(",") else [[]], tail)));
    }
  }

  /** The item's first line goes after the indentation. */
  lemma ItemGood(depth: nat, rest: seq<Line>)
    requires rest != [] && Starts(rest[0]) && Follows(rest[0])
    requires GoodFrom(rest, depth + 1) && NetAll(rest) == -1 && EndsWell(rest)
    ensures GoodTail(Glue(NewLine(depth + 1, []), rest), depth)
  {
    hide EndsWell, GoodFrom, NetAll, Follows, Starts, GoodLine;
    var indent := [Piece(Punct, Spaces(2 * depth + 2))];
    var start, line := NewLine(depth + 1, []), [[], indent + rest[0]];
    assert start == [[], indent] by { assert indent + [] == indent; }
    GlueIs(start, rest);
    GlueEndsWell(start, rest);
    ItemLineGood(depth, rest[0]);
    NetGlued(start, rest);
    var all := Glue(start, rest);
    assert all[1] == indent + rest[0];
    assert GoodFrom(all, depth + 1) by {
      forall k | 0 < k < |all|
        ensures GoodLine(all[k], depth + 1 + NetAll(all[..k]))
      {
        NetTaken(start, rest, k);
        if k >= 2 {
          assert all[k] == rest[k - 1];
          GoodAt(rest, depth + 1, k - 1);
        }
      }
      GoodFromAll(all, depth + 1);
    }
  }

  lemma GoodAt(lines: seq<Line>, level: int, k: nat)
    requires GoodFrom(lines, level) && 0 < k < |lines|
    ensures GoodLine(lines[k], level + NetAll(lines[..k]))
  {
  }

  lemma GoodFromAll(lines: seq<Line>, level: int)
    requires forall k | 0 < k < |lines| :: GoodLine(lines[k], level + NetAll(lines[..k]))
    ensures GoodFrom(lines, level)
  {
  }

  lemma ItemLineGood(depth: nat, line: Line)
    requires Starts(line) && Follows(line)
    ensures var indent := [Piece(Punct, Spaces(2 * depth + 2))];
            && GoodLine(indent + line, depth + 1)
            && NetAll([[], indent]) == 0 && NetAll([[], indent][..1]) == 0
  {
    var indent := [Piece(Punct, Spaces(2 * depth + 2))];
    IndentIs(depth + 1);
    var none: seq<Line> := [[]];
    assert (indent + line)[1..] == line && Body(indent + line, 2 * depth + 2) == line;
    assert [[], indent][1..] == [indent] && [indent][1..] == [];
    assert [[], indent][..1] == none && none[1..] == [] && NetAll(none) == 0;
  }

  // What that says of the text.

  predicate Indented(s: string, n: nat) {
    |s| > n && (forall i | 0 <= i < n :: s[i] == ' ') && s[n] != ' '
  }

  predicate ClosesOne(line: Line) {
    exists p | p in line :: Closes(p)
  }

  lemma {:induction false} TextStandsAt(line: Line, n: nat)
    requires StandsAt(line, n)
    ensures Indented(LineText(line), n)
  {
    if n > 0 {
      assert LineText(line) == line[0].text + LineText(line[1..]);
      assert LineText(line[1..]) == line[1].text + LineText(line[1..][1..]);
    }
  }

  /** The text of a line begins with two spaces for each bracket open before it, less one if it closes one. */
  lemma GoodLineText(line: Line, level: int)
    requires GoodLine(line, level)
    ensures if ClosesOne(line) then level >= 1 && Indented(LineText(line), 2 * level - 2)
            else level >= 0 && Indented(LineText(line), 2 * level)
  {
    hide LineText, Indented;
    if level >= 0 && StandsAt(line, 2 * level) && Ordered(Body(line, 2 * level)) && !Closes(Body(line, 2 * level)[0]) {
      TextStandsAt(line, 2 * level);
      var body := Body(line, 2 * level);
      forall p | p in line
        ensures !Closes(p)
      {
        if level > 0 {
          assert line == [line[0]] + body;
          assert line[0].text[0] == ' ';
        }
        assert p in body ==> exists i :: 0 <= i < |body| && body[i] == p;
      }
    } else {
      var body := Body(line, 2 * level - 2);
      TextStandsAt(line, 2 * level - 2);
      assert body[0] in line;
    }
  }

  /**
   The lines of a clean value: each but the first begins with exactly two spaces for every
   bracket opened and not closed before it, less one if it closes one itself; a bracket that
   opens and a comma end their line, and one that closes, and a key, begin theirs.
   */
  lemma LinesStandAsNested(j: Json)
    requires Clean(j)
    ensures var lines := Block(j, 0);
            && lines == Glue([[]], lines) && NetAll(lines) == 0
            && (forall k | 0 < k < |lines| ::
                  var level := NetAll(lines[..k]);
                  if ClosesOne(lines[k]) then level >= 1 && Indented(LineText(lines[k]), 2 * level - 2)
                  else level >= 0 && Indented(LineText(lines[k]), 2 * level))
            && Ordered(lines[0])
            && forall k | 0 < k < |lines| :: GoodLine(lines[k], NetAll(lines[..k]))
  {
    hide GoodLine, NetAll, LineText, Indented, ClosesOne, Block;
    var lines := Block(j, 0);
    BlockGood(j, 0);
    GlueIs([[]], lines);
    assert [] + lines[0] == lines[0] && [lines[0]] + lines[1..] == lines;
    forall k | 0 < k < |lines|
      ensures GoodLine(lines[k], NetAll(lines[..k]))
    {
      GoodAt(lines, 0, k);
    }
    forall k | 0 < k < |lines|
      ensures var level := NetAll(lines[..k]);
              if ClosesOne(lines[k]) then level >= 1 && Indented(LineText(lines[k]), 2 * level - 2)
              else level >= 0 && Indented(LineText(lines[k]), 2 * level)
    {
      GoodLineText(lines[k], NetAll(lines[..k]));
    }
  }

  // Nothing else breaks a line.

  predicate OnOneLine(line: Line) {
    forall p | p in line :: NoBreak(p.text)
  }

  predicate OnTheirLines(lines: seq<Line>) {
    forall line | line in lines :: OnOneLine(line)
  }

  lemma GlueOnTheirLines(a: seq<Line>, b: seq<Line>)
    requires a != [] && b != [] && OnTheirLines(a) && OnTheirLines(b)
    ensures OnTheirLines(Glue(a, b))
  {
    GlueIs(a, b);
    assert a[|a| - 1] in a && b[0] in b;
    forall line | line in Glue(a, b)
      ensures OnOneLine(line)
    {
      if line != a[|a| - 1] + b[0] {
        assert line in a || line in b;
      }
    }
  }

  lemma {:induction false} BodyOnOneLine(s: string)
    requires IsStringBody(s)
    ensures NoBreak(s)
  {
    if s != "" {
      var n := if Unescaped(s[0]) && IsStringBody(s[1..]) then 1
               else if SimpleEscape(s[1]) && IsStringBody(s[2..]) then 2
               else 6;
      BodyOnOneLine(s[n..]);
      assert s == s[..n] + s[n..];
      if n == 6 {
        assert forall i | 2 <= i < 6 :: s[..6][i] == s[2..6][i - 2];
      }
      assert NoBreak(s[..n]);
    }
  }

  lemma TextOnOneLine(text: string)
    requires IsString(text)
    ensures NoBreak(text)
  {
    BodyOnOneLine(text[1..|text| - 1]);
    var n := |text| - 1;
    forall i | 0 <= i < |text|
      ensures text[i] != '\n' && text[i] != '\r'
    {
      if 0 < i < n {
        assert text[i] == text[1..n][i - 1] && text[i] in text[1..n];
      }
    }
  }

  /** No piece of a clean value holds a line break: the lines are those there are, and no more. */
  lemma {:induction false} PiecesOnTheirLines(j: Json, depth: nat)
    requires Clean(j)
    ensures OnTheirLines(Block(j, depth))
    decreases j, 1
  {
    hide OnTheirLines;
    match j {
      case Object(members) =>
        MarkOnItsLine("{}");
        MarkOnItsLine("{");
        if members != [] {
          MembersOnTheirLines(members, depth);
          GlueOnTheirLines(Mark("{"), MembersBlock(members, depth));
        }
      case Array(items) =>
        MarkOnItsLine("[]");
        MarkOnItsLine("[");
        if items != [] {
          ItemsOnTheirLines(items, depth);
          GlueOnTheirLines(Mark("["), ItemsBlock(items, depth));
        }
      case String(text) =>
        TextOnOneLine(text);
        PieceOnItsLine(ScalarPiece(j));
      case Number(text) =>
        NumberOnOneLine(text);
        PieceOnItsLine(ScalarPiece(j));
      case Literal(text) =>
        PieceOnItsLine(ScalarPiece(j));
    }
  }

  lemma PieceOnItsLine(p: Piece)
    requires NoBreak(p.text)
    ensures OnTheirLines([[p]])
  {
  }

  lemma MarkOnItsLine(text: string)
    requires NoBreak(text)
    ensures OnTheirLines(Mark(text))
  {
  }

  lemma NewLineOnItsLine(depth: nat, line: Line)
    requires OnOneLine(line)
    ensures OnTheirLines(NewLine(depth, line))
  {
    assert depth > 0 ==> NoBreak(Spaces(2 * depth));
  }

  lemma {:induction false} MembersOnTheirLines(members: seq<Member>, depth: nat)
    requires forall m | m in members :: CleanMember(m)
    ensures OnTheirLines(MembersBlock(members, depth))
    decreases members, 0
  {
    hide OnTheirLines;
    if members == [] {
      NewLineOnItsLine(depth, [Piece(Punct, "}")]);
    } else {
      assert CleanMember(members[0]);
      var key := [Piece(KeyTok, members[0].key), Piece(Punct, ": ")];
      TextOnOneLine(members[0].key);
      NewLineOnItsLine(depth + 1, key);
      PiecesOnTheirLines(members[0].value, depth + 1);
      MembersOnTheirLines(members[1..], depth);
      FourOnTheirLines(NewLine(depth + 1, key), Block(members[0].value, depth + 1), |members| > 1,
                       MembersBlock(members[1..], depth));
    }
  }

  lemma {:induction false} ItemsOnTheirLines(items: seq<Json>, depth: nat)
    requires forall i | i in items :: Clean(i)
    ensures OnTheirLines(ItemsBlock(items, depth))
    decreases items, 0
  {
    hide OnTheirLines;
    if items == [] {
      NewLineOnItsLine(depth, [Piece(Punct, "]")]);
    } else {
      assert Clean(items[0]);
      NewLineOnItsLine(depth + 1, []);
      PiecesOnTheirLines(items[0], depth + 1);
      ItemsOnTheirLines(items[1..], depth);
      FourOnTheirLines(NewLine(depth + 1, []), Block(items[0], depth + 1), |items| > 1, ItemsBlock(items[1..], depth));
    }
  }

  lemma FourOnTheirLines(a: seq<Line>, b: seq<Line>, more: bool, d: seq<Line>)
    requires a != [] && b != [] && d != [] && OnTheirLines(a) && OnTheirLines(b) && OnTheirLines(d)
    ensures OnTheirLines(Glue(a, Glue(b, Glue(if more then Mark(",") else [[]], d))))
  {
    var comma := if more then Mark(",") else [[]];
    assert OnTheirLines(comma);
    hide OnTheirLines;
    GlueOnTheirLines(comma, d);
    GlueOnTheirLines(b, Glue(comma, d));
    GlueOnTheirLines(a, Glue(b, Glue(comma, d)));
  }

  // How many lines there are.

  /** A scalar or an empty bracket takes one line; any other bracket one to open, one to close, and its members' or
      items'. */
  function LineCount(j: Json): nat
    decreases j, 1
  {
    match j
    case Object(members) => if members == [] then 1 else 2 + MembersCount(members)
    case Array(items) => if items == [] then 1 else 2 + ItemsCount(items)
    case _ => 1
  }

  function MembersCount(members: seq<Member>): nat
    decreases members, 0
  {
    if members == [] then 0 else LineCount(members[0].value) + MembersCount(members[1..])
  }

  function ItemsCount(items: seq<Json>): nat
    decreases items, 0
  {
    if items == [] then 0 else LineCount(items[0]) + ItemsCount(items[1..])
  }

  /** Each member and item takes the lines of its value, and no line is shared. */
  lemma {:induction false} LinesAreCounted(j: Json, depth: nat)
    ensures |Block(j, depth)| == LineCount(j)
    decreases j, 1
  {
    match j {
      case Object(members) => MembersAreCounted(members, depth);
      case Array(items) => ItemsAreCounted(items, depth);
      case _ =>
    }
  }

  lemma {:induction false} MembersAreCounted(members: seq<Member>, depth: nat)
    ensures |MembersBlock(members, depth)| == 2 + MembersCount(members)
    decreases members, 0
  {
    if members != [] {
      LinesAreCounted(members[0].value, depth + 1);
      MembersAreCounted(members[1..], depth);
    }
  }

  lemma {:induction false} ItemsAreCounted(items: seq<Json>, depth: nat)
    ensures |ItemsBlock(items, depth)| == 2 + ItemsCount(items)
    decreases items, 0
  {
    if items != [] {
      LinesAreCounted(items[0], depth + 1);
      ItemsAreCounted(items[1..], depth);
    }
  }
}
