/** Printing and parsing undo each other, and the printer's colours are the value's own parts. */
module JsonRoundTrip {
  import opened Basics
  import opened JsonGrammar
  import opened JsonParser
  import opened JsonTheorems
  import opened JsonPretty

  function LineText(line: Line): string {
    if line == [] then "" else line[0].text + LineText(line[1..])
  }

  /** The lines joined with newlines. */
  function LinesText(lines: seq<Line>): string {
    if lines == [] then ""
    else if |lines| == 1 then LineText(lines[0])
    else LineText(lines[0]) + ("\n" + LinesText(lines[1..]))
  }

  /** What `render_value` shows for JSON, as one text. */
  function Shown(j: Json): string {
    LinesText(Glue([[]], Block(j, 0)))
  }

  /** Every scalar and key is written as the grammar says. */
  ghost predicate Clean(j: Json)
    decreases j
  {
    match j
    case Object(members) => forall m | m in members :: CleanMember(m)
    case Array(items) => forall i | i in items :: Clean(i)
    case _ => IsScalarText(j)
  }

  ghost predicate CleanMember(m: Member)
    decreases m
  {
    IsString(m.key) && Clean(m.value)
  }

  /** The derivation the printer writes out. */
  function PrettyTree(j: Json, depth: nat): Tree
    decreases j, 1
  {
    match j
    case Object(members) => ObjectTree("", MemberTrees(members, depth))
    case Array(items) => ArrayTree("", ItemTrees(items, depth))
    case _ => Leaf(j)
  }

  function Fold(depth: nat): (s: string)
    ensures Blank(s)
  {
    "\n" + Spaces(2 * depth)
  }

  function MemberTrees(members: seq<Member>, depth: nat): (r: seq<MemberTree>)
    ensures |r| == |members|
    decreases members, 0
  {
    if members == [] then []
    else
      var after := if |members| == 1 then Fold(depth) else "";
      [MemberTree(Fold(depth + 1), members[0].key, "", " ", PrettyTree(members[0].value, depth + 1), after)]
      + MemberTrees(members[1..], depth)
  }

  function ItemTrees(items: seq<Json>, depth: nat): (r: seq<ItemTree>)
    ensures |r| == |items|
    decreases items, 0
  {
    if items == [] then []
    else
      var after := if |items| == 1 then Fold(depth) else "";
      [ItemTree(Fold(depth + 1), PrettyTree(items[0], depth + 1), after)] + ItemTrees(items[1..], depth)
  }

  lemma {:induction false} PrettyTreeDerives(j: Json, depth: nat)
    ensures Value(PrettyTree(j, depth)) == j
    ensures Clean(j) ==> Derivation(PrettyTree(j, depth))
    decreases j, 1
  {
    match j {
      case Object(members) => MemberTreesDerive(members, depth);
      case Array(items) => ItemTreesDerive(items, depth);
      case _ =>
    }
  }

  lemma {:induction false} MemberTreesDerive(members: seq<Member>, depth: nat)
    ensures MembersValue(MemberTrees(members, depth)) == members
    ensures (forall m | m in members :: CleanMember(m))
        ==> forall t | t in MemberTrees(members, depth) :: MemberDerivation(t)
    decreases members, 0
  {
    if members != [] {
      PrettyTreeDerives(members[0].value, depth + 1);
      MemberTreesDerive(members[1..], depth);
      var trees := MemberTrees(members, depth);
      assert trees == [trees[0]] + MemberTrees(members[1..], depth);
      if forall m | m in members :: CleanMember(m) {
        assert CleanMember(members[0]);
        assert MemberDerivation(trees[0]);
      }
    }
  }

  lemma {:induction false} ItemTreesDerive(items: seq<Json>, depth: nat)
    ensures ItemsValue(ItemTrees(items, depth)) == items
    ensures (forall i | i in items :: Clean(i))
        ==> forall t | t in ItemTrees(items, depth) :: ItemDerivation(t)
    decreases items, 0
  {
    if items != [] {
      PrettyTreeDerives(items[0], depth + 1);
      ItemTreesDerive(items[1..], depth);
      var trees := ItemTrees(items, depth);
      assert trees == [trees[0]] + ItemTrees(items[1..], depth);
      if forall i | i in items :: Clean(i) {
        assert Clean(items[0]);
        assert ItemDerivation(trees[0]);
      }
    }
  }

  /** What a derivation stands for is clean. */
  lemma {:induction false} DerivedIsClean(t: Tree)
    requires Derivation(t)
    ensures Clean(Value(t))
    decreases t, 1
  {
    match t {
      case ObjectTree(_, members) => MembersClean(members);
      case ArrayTree(_, items) => ItemsClean(items);
      case Leaf(_) =>
    }
  }

  lemma {:induction false} MembersClean(members: seq<MemberTree>)
    requires forall m | m in members :: MemberDerivation(m)
    ensures forall m | m in MembersValue(members) :: CleanMember(m)
    decreases members, 0
  {
    if members != [] {
      assert MemberDerivation(members[0]);
      DerivedIsClean(members[0].value);
      MembersClean(members[1..]);
    }
  }

  lemma {:induction false} ItemsClean(items: seq<ItemTree>)
    requires forall i | i in items :: ItemDerivation(i)
    ensures forall i | i in ItemsValue(items) :: Clean(i)
    decreases items, 0
  {
    if items != [] {
      assert ItemDerivation(items[0]);
      DerivedIsClean(items[0].value);
      ItemsClean(items[1..]);
    }
  }

  // The lines' text is the derivation's.

  lemma {:induction false} LineTextOf(a: Line, b: Line)
    ensures LineText(a + b) == LineText(a) + LineText(b)
  {
    if a == [] {
      assert a + b == b;
    } else {
      assert (a + b)[1..] == a[1..] + b;
      LineTextOf(a[1..], b);
    }
  }

  lemma {:induction false} GlueText(lines: seq<Line>, block: seq<Line>)
    requires lines != [] && block != []
    ensures LinesText(Glue(lines, block)) == LinesText(lines) + LinesText(block)
  {
    if |lines| == 1 {
      LineTextOf(lines[0], block[0]);
      if |block| > 1 {
        Assoc(LineText(lines[0]), LineText(block[0]), "\n" + LinesText(block[1..]));
      }
    } else {
      GlueText(lines[1..], block);
      Assoc("\n", LinesText(lines[1..]), LinesText(block));
      Assoc(LineText(lines[0]), "\n" + LinesText(lines[1..]), LinesText(block));
    }
  }

  lemma NewLineText(depth: nat, line: Line)
    ensures LinesText(NewLine(depth, line)) == Fold(depth) + LineText(line)
  {
    var indent := if depth == 0 then [] else [Piece(Punct, Spaces(2 * depth))];
    LineTextOf(indent, line);
    if depth == 0 {
      assert indent == [] && Spaces(0) == "" && "\n" + Spaces(0) == "\n";
    } else {
      assert LineText(indent) == Spaces(2 * depth) + LineText(indent[1..]);
    }
    assert LinesText(NewLine(depth, line)) == "" + ("\n" + (Spaces(2 * depth) + LineText(line)));
  }

  /** `tail` may be put on later. */
  lemma {:induction false} PutTail(t: Tree, tail: string)
    requires Derivation(t)
    ensures Put(t, tail) == Put(t, "") + tail
    decreases t, 1
  {
    match t {
      case Leaf(j) =>
      case ObjectTree(pad, members) =>
        if members == [] {
          assert "{" + (pad + ("}" + tail)) == "{" + (pad + ("}" + "")) + tail;
        } else {
          PutMembersTail(members, tail);
        }
      case ArrayTree(pad, items) =>
        if items == [] {
          assert "[" + (pad + ("]" + tail)) == "[" + (pad + ("]" + "")) + tail;
        } else {
          PutItemsTail(items, tail);
        }
    }
  }

  lemma {:induction false} PutMembersTail(members: seq<MemberTree>, tail: string)
    requires members != [] && forall m | m in members :: MemberDerivation(m)
    ensures PutMembers(members, tail) == PutMembers(members, "") + tail
    decreases members, 0
  {
    var m := members[0];
    assert MemberDerivation(m);
    var bare := if |members| == 1 then "}" + "" else "," + PutMembers(members[1..], "");
    var next := if |members| == 1 then "}" + tail else "," + PutMembers(members[1..], tail);
    assert next == bare + tail by {
      if |members| > 1 {
        PutMembersTail(members[1..], tail);
      }
    }
    PutTail(m.value, m.after + next);
    PutTail(m.value, m.after + bare);
    Assoc(m.after, bare, tail);
    Assoc(Put(m.value, ""), m.after + bare, tail);
    Assoc(m.gap, Put(m.value, m.after + bare), tail);
    Assoc(":", m.gap + Put(m.value, m.after + bare), tail);
    Assoc(m.colon, ":" + (m.gap + Put(m.value, m.after + bare)), tail);
    Assoc(m.key, m.colon + (":" + (m.gap + Put(m.value, m.after + bare))), tail);
    Assoc(m.before, m.key + (m.colon + (":" + (m.gap + Put(m.value, m.after + bare)))), tail);
  }

  lemma {:induction false} PutItemsTail(items: seq<ItemTree>, tail: string)
    requires items != [] && forall i | i in items :: ItemDerivation(i)
    ensures PutItems(items, tail) == PutItems(items, "") + tail
    decreases items, 0
  {
    var i := items[0];
    assert ItemDerivation(i);
    var bare := if |items| == 1 then "]" + "" else "," + PutItems(items[1..], "");
    var next := if |items| == 1 then "]" + tail else "," + PutItems(items[1..], tail);
    assert next == bare + tail by {
      if |items| > 1 {
        PutItemsTail(items[1..], tail);
      }
    }
    PutTail(i.value, i.after + next);
    PutTail(i.value, i.after + bare);
    Assoc(i.after, bare, tail);
    Assoc(Put(i.value, ""), i.after + bare, tail);
    Assoc(i.before, Put(i.value, i.after + bare), tail);
  }

  lemma {:induction false} BlockText(j: Json, depth: nat)
    requires Clean(j)
    ensures LinesText(Block(j, depth)) == Put(PrettyTree(j, depth), "")
    decreases j, 1
  {
    match j {
      case Object(members) =>
        if members == [] {
          NoneText(j, depth);
        } else {
          hide Glue, LinesText, MembersBlock, PutMembers, Mark;
          GlueText(Mark("{"), MembersBlock(members, depth));
          MembersText(members, depth);
          MarkText("{");
        }
      case Array(items) =>
        if items == [] {
          NoneText(j, depth);
        } else {
          hide Glue, LinesText, ItemsBlock, PutItems, Mark;
          GlueText(Mark("["), ItemsBlock(items, depth));
          ItemsText(items, depth);
          MarkText("[");
        }
      case _ =>
        ScalarText(j, depth);
    }
  }

  lemma NoneText(j: Json, depth: nat)
    requires j == Object([]) || j == Array([])
    ensures LinesText(Block(j, depth)) == Put(PrettyTree(j, depth), "")
  {
    assert "{}" + "" == "{" + ("" + ("}" + ""));
    assert "[]" + "" == "[" + ("" + ("]" + ""));
  }

  lemma ScalarText(j: Json, depth: nat)
    requires Clean(j) && !j.Object? && !j.Array?
    ensures LinesText(Block(j, depth)) == Put(PrettyTree(j, depth), "")
  {
    var p := ScalarPiece(j);
    assert LineText([p]) == p.text + LineText([p][1..]);
  }

  lemma MarkText(text: string)
    ensures LinesText(Mark(text)) == text
  {
    assert LineText([Piece(Punct, text)]) == text + LineText([Piece(Punct, text)][1..]);
  }

  lemma LastLineText(text: string)
    ensures LineText([Piece(Punct, text)]) == text
  {
    assert LineText([Piece(Punct, text)]) == text + LineText([Piece(Punct, text)][1..]);
  }

  lemma NoText()
    ensures LinesText([[]]) == "" && LineText([]) == ""
  {
  }

  lemma KeyText(key: string)
    ensures LineText([Piece(KeyTok, key), Piece(Punct, ": ")]) == key + ": "
  {
    var line := [Piece(KeyTok, key), Piece(Punct, ": ")];
    assert line[1..][1..] == [];
    assert LineText(line[1..]) == ": " + LineText(line[1..][1..]);
  }

  lemma {:induction false} FourTexts(a: seq<Line>, b: seq<Line>, c: seq<Line>, d: seq<Line>)
    requires a != [] && b != [] && c != [] && d != []
    ensures Glue(c, d) != [] && Glue(b, Glue(c, d)) != []
    ensures LinesText(Glue(a, Glue(b, Glue(c, d))))
         == LinesText(a) + (LinesText(b) + (LinesText(c) + LinesText(d)))
  {
    hide LinesText, Glue;
    GlueText(c, d);
    GlueText(b, Glue(c, d));
    GlueText(a, Glue(b, Glue(c, d)));
  }

  /** What a member's or item's comma, or the closing bracket instead, adds. */
  lemma NextText(more: bool, depth: nat, close: string, rest: seq<Line>)
    requires rest != [] && (!more ==> rest == NewLine(depth, [Piece(Punct, close)]))
    ensures LinesText(if more then Mark(",") else [[]]) + LinesText(rest)
         == if more then "," + LinesText(rest) else Fold(depth) + close
  {
    if more {
      MarkText(",");
    } else {
      NewLineText(depth, [Piece(Punct, close)]);
      LastLineText(close);
      NoText();
    }
  }

  lemma {:induction false} MembersText(members: seq<Member>, depth: nat)
    requires members != [] && forall m | m in members :: CleanMember(m)
    ensures LinesText(MembersBlock(members, depth)) == PutMembers(MemberTrees(members, depth), "")
    decreases members, 0
  {
    hide Glue, LinesText, NewLine, LineText, Fold;
    var m := members[0];
    assert CleanMember(m);
    var trees := MemberTrees(members, depth);
    assert trees[1..] == MemberTrees(members[1..], depth);
    var value := PrettyTree(m.value, depth + 1);
    var keyLine := [Piece(KeyTok, m.key), Piece(Punct, ": ")];
    var comma := if |members| > 1 then Mark(",") else [[]];
    var more := MembersBlock(members[1..], depth);
    var next := trees[0].after + (if |members| == 1 then "}" + "" else "," + PutMembers(trees[1..], ""));
    FourTexts(NewLine(depth + 1, keyLine), Block(m.value, depth + 1), comma, more);
    BlockText(m.value, depth + 1);
    assert LinesText(NewLine(depth + 1, keyLine)) == Fold(depth + 1) + (m.key + ": ") by {
      NewLineText(depth + 1, keyLine);
      KeyText(m.key);
    }
    assert LinesText(comma) + LinesText(more) == next by {
      NextText(|members| > 1, depth, "}", more);
      if |members| > 1 {
        MembersText(members[1..], depth);
      }
    }
    assert Put(value, next) == Put(value, "") + next by {
      PrettyTreeDerives(m.value, depth + 1);
      PutTail(value, next);
    }
    SpreadOut(Fold(depth + 1), m.key, Put(value, "") + next);
  }

  lemma SpreadOut(before: string, key: string, rest: string)
    ensures (before + (key + ": ")) + rest == before + (key + ("" + (":" + (" " + rest))))
  {
  }

  lemma {:induction false} ItemsText(items: seq<Json>, depth: nat)
    requires items != [] && forall i | i in items :: Clean(i)
    ensures LinesText(ItemsBlock(items, depth)) == PutItems(ItemTrees(items, depth), "")
    decreases items, 0
  {
    hide Glue, LinesText, NewLine, LineText, Fold;
    var trees := ItemTrees(items, depth);
    assert trees[1..] == ItemTrees(items[1..], depth);
    var value := PrettyTree(items[0], depth + 1);
    var comma := if |items| > 1 then Mark(",") else [[]];
    var more := ItemsBlock(items[1..], depth);
    var next := trees[0].after + (if |items| == 1 then "]" + "" else "," + PutItems(trees[1..], ""));
    FourTexts(NewLine(depth + 1, []), Block(items[0], depth + 1), comma, more);
    BlockText(items[0], depth + 1);
    assert LinesText(NewLine(depth + 1, [])) == Fold(depth + 1) by {
      NewLineText(depth + 1, []);
      assert LineText([]) == "" by { NoText(); }
      assert Fold(depth + 1) + "" == Fold(depth + 1);
    }
    assert LinesText(comma) + LinesText(more) == next by {
      NextText(|items| > 1, depth, "]", more);
      if |items| > 1 {
        ItemsText(items[1..], depth);
      }
    }
    assert Put(value, next) == Put(value, "") + next by {
      PrettyTreeDerives(items[0], depth + 1);
      PutTail(value, next);
    }
  }

  /** The values `parse_json` can give are the clean ones under at most 256 brackets. */
  lemma ParsedValues(j: Json)
    ensures (exists text :: Parse(text) == Some(j)) <==> Clean(j) && Height(j) <= MAX_JSON_DEPTH
  {
    if text :| Parse(text) == Some(j) {
      ParseIsTheGrammar(text, j);
      var before, t, after :| DerivesBy(text, before, t, after) && Value(t) == j;
      DerivedIsClean(t);
    }
    if Clean(j) && Height(j) <= MAX_JSON_DEPTH {
      PrintThenParse(j);
    }
  }

  /** Parsing the printed lines gives back the value, keys in order and scalars as written. */
  lemma PrintThenParse(j: Json)
    requires Clean(j) && Height(j) <= MAX_JSON_DEPTH
    ensures Parse(Shown(j)) == Some(j)
  {
    var t := PrettyTree(j, 0);
    PrettyTreeDerives(j, 0);
    BlockText(j, 0);
    GlueText([[]], Block(j, 0));
    assert LinesText([[]]) == "";
    assert DerivesBy(Shown(j), "", t, "");
    ParseIsTheGrammar(Shown(j), j);
  }

  /** Pretty-printing is idempotent on every text the parser accepts. */
  lemma PrettyIsIdempotent(text: string)
    requires Parse(text).Some?
    ensures Parse(Shown(Parse(text).value)) == Parse(text)
    ensures Shown(Parse(Shown(Parse(text).value)).value) == Shown(Parse(text).value)
  {
    ParsedValues(Parse(text).value);
    PrintThenParse(Parse(text).value);
  }

  // The colours.

  /** The pieces that are not punctuation. */
  function Coloured(line: Line): Line {
    if line == [] then []
    else (if line[0].tok == Punct then [] else [line[0]]) + Coloured(line[1..])
  }

  function AllColoured(lines: seq<Line>): Line {
    Coloured(Flatten(lines))
  }

  /** The keys and scalars of `j`, in order. */
  function Parts(j: Json): Line
    decreases j, 1
  {
    match j
    case Object(members) => MemberParts(members)
    case Array(items) => ItemParts(items)
    case String(text) => [Piece(StringTok, text)]
    case Number(text) => [Piece(NumberTok, text)]
    case Literal(text) => [Piece(LiteralTok, text)]
  }

  function MemberParts(members: seq<Member>): Line
    decreases members, 0
  {
    if members == [] then []
    else [Piece(KeyTok, members[0].key)] + Parts(members[0].value) + MemberParts(members[1..])
  }

  function ItemParts(items: seq<Json>): Line
    decreases items, 0
  {
    if items == [] then [] else Parts(items[0]) + ItemParts(items[1..])
  }

  lemma {:induction false} ColouredOf(a: Line, b: Line)
    ensures Coloured(a + b) == Coloured(a) + Coloured(b)
  {
    if a == [] {
      assert a + b == b;
    } else {
      assert (a + b)[1..] == a[1..] + b;
      ColouredOf(a[1..], b);
    }
  }

  lemma {:induction false} GlueFlat(lines: seq<Line>, block: seq<Line>)
    requires lines != [] && block != []
    ensures Flatten(Glue(lines, block)) == Flatten(lines) + Flatten(block)
  {
    if |lines| == 1 {
      Assoc(lines[0], block[0], Flatten(block[1..]));
      assert lines[0] + Flatten(lines[1..]) == lines[0];
    } else {
      GlueFlat(lines[1..], block);
      Assoc(lines[0], Flatten(lines[1..]), Flatten(block));
    }
  }

  lemma GlueColoured(lines: seq<Line>, block: seq<Line>)
    requires lines != [] && block != []
    ensures AllColoured(Glue(lines, block)) == AllColoured(lines) + AllColoured(block)
  {
    hide Glue, Flatten, Coloured;
    GlueFlat(lines, block);
    ColouredOf(Flatten(lines), Flatten(block));
  }

  lemma OneLineColoured(line: Line)
    ensures AllColoured([line]) == Coloured(line)
  {
    assert Flatten([line]) == line + Flatten([line][1..]);
    assert line + [] == line;
  }

  lemma PieceColoured(p: Piece)
    ensures Coloured([p]) == if p.tok == Punct then [] else [p]
  {
    assert Coloured([p][1..]) == [];
  }

  lemma KeyColoured(key: string)
    ensures Coloured([Piece(KeyTok, key), Piece(Punct, ": ")]) == [Piece(KeyTok, key)]
  {
    var line := [Piece(KeyTok, key), Piece(Punct, ": ")];
    assert line[1..] == [Piece(Punct, ": ")];
    PieceColoured(Piece(Punct, ": "));
  }

  lemma NewLineColoured(depth: nat, line: Line)
    ensures AllColoured(NewLine(depth, line)) == Coloured(line)
  {
    var indent := if depth == 0 then [] else [Piece(Punct, Spaces(2 * depth))];
    ColouredOf(indent, line);
    if depth > 0 {
      PieceColoured(indent[0]);
    }
    assert NewLine(depth, line)[1..] == [indent + line];
    OneLineColoured(indent + line);
    assert [] + Flatten([indent + line]) == Flatten([indent + line]);
  }

  lemma {:induction false} BlockColoured(j: Json, depth: nat)
    ensures AllColoured(Block(j, depth)) == Parts(j)
    decreases j, 1
  {
    match j {
      case Object(members) =>
        OneLineColoured([Piece(Punct, "{}")]);
        OneLineColoured([Piece(Punct, "{")]);
        GlueColoured(Mark("{"), MembersBlock(members, depth));
        MembersColoured(members, depth);
      case Array(items) =>
        OneLineColoured([Piece(Punct, "[]")]);
        OneLineColoured([Piece(Punct, "[")]);
        GlueColoured(Mark("["), ItemsBlock(items, depth));
        ItemsColoured(items, depth);
      case _ =>
        OneLineColoured([ScalarPiece(j)]);
        PieceColoured(ScalarPiece(j));
    }
  }

  lemma {:induction false} FourColoured(a: seq<Line>, b: seq<Line>, c: seq<Line>, d: seq<Line>)
    requires a != [] && b != [] && c != [] && d != []
    ensures Glue(c, d) != [] && Glue(b, Glue(c, d)) != []
    ensures AllColoured(Glue(a, Glue(b, Glue(c, d))))
         == AllColoured(a) + (AllColoured(b) + (AllColoured(c) + AllColoured(d)))
  {
    hide AllColoured, Glue;
    GlueColoured(c, d);
    GlueColoured(b, Glue(c, d));
    GlueColoured(a, Glue(b, Glue(c, d)));
  }

  lemma CommaColoured(more: bool)
    ensures AllColoured(if more then Mark(",") else [[]]) == []
  {
    OneLineColoured(if more then [Piece(Punct, ",")] else []);
    PieceColoured(Piece(Punct, ","));
  }

  lemma CloseColoured(depth: nat, close: string)
    ensures AllColoured(NewLine(depth, [Piece(Punct, close)])) == []
  {
    NewLineColoured(depth, [Piece(Punct, close)]);
    PieceColoured(Piece(Punct, close));
  }

  lemma {:induction false} MembersColoured(members: seq<Member>, depth: nat)
    ensures AllColoured(MembersBlock(members, depth)) == MemberParts(members)
    decreases members, 0
  {
    hide Glue, AllColoured, NewLine, Coloured;
    if members == [] {
      CloseColoured(depth, "}");
    } else {
      var m := members[0];
      var keyLine := [Piece(KeyTok, m.key), Piece(Punct, ": ")];
      var comma := if |members| > 1 then Mark(",") else [[]];
      FourColoured(NewLine(depth + 1, keyLine), Block(m.value, depth + 1), comma, MembersBlock(members[1..], depth));
      NewLineColoured(depth + 1, keyLine);
      KeyColoured(m.key);
      CommaColoured(|members| > 1);
      BlockColoured(m.value, depth + 1);
      MembersColoured(members[1..], depth);
      assert [] + MemberParts(members[1..]) == MemberParts(members[1..]);
      Assoc([Piece(KeyTok, m.key)], Parts(m.value), MemberParts(members[1..]));
    }
  }

  lemma {:induction false} ItemsColoured(items: seq<Json>, depth: nat)
    ensures AllColoured(ItemsBlock(items, depth)) == ItemParts(items)
    decreases items, 0
  {
    hide Glue, AllColoured, NewLine;
    if items == [] {
      CloseColoured(depth, "]");
    } else {
      var comma := if |items| > 1 then Mark(",") else [[]];
      FourColoured(NewLine(depth + 1, []), Block(items[0], depth + 1), comma, ItemsBlock(items[1..], depth));
      NewLineColoured(depth + 1, []);
      CommaColoured(|items| > 1);
      BlockColoured(items[0], depth + 1);
      ItemsColoured(items[1..], depth);
      assert [] + ItemParts(items[1..]) == ItemParts(items[1..]);
    }
  }

  /** What is coloured as a key or a scalar is each key and scalar once, in order. */
  lemma ColoursAreTheParts(j: Json)
    ensures AllColoured(Glue([[]], Block(j, 0))) == Parts(j)
  {
    GlueColoured([[]], Block(j, 0));
    BlockColoured(j, 0);
    OneLineColoured([]);
  }
}
