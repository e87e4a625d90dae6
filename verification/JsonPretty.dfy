/**
 The pretty printer of inspect.rs, which appends coloured pieces to the last of its lines.
 Its lines joined by newlines are a JSON text for the value it was given.
 */
module JsonPretty {
  import opened Basics
  import opened JsonGrammar

  /** The colours of the printed text's pieces go by these. */
  datatype JsonTok = KeyTok | StringTok | NumberTok | LiteralTok | Punct

  datatype Piece = Piece(tok: JsonTok, text: string)

  type Line = seq<Piece>

  function Spaces(n: nat): (s: string)
    ensures |s| == n && Blank(s)
  {
    seq(n, _ => ' ')
  }

  /** `block` written at the end of `lines`: its first line goes on the last one there is. */
  function Glue(lines: seq<Line>, block: seq<Line>): (r: seq<Line>)
    requires block != []
    ensures |r| + 1 == |lines| + |block|
  {
    if lines == [] then block[1..]
    else if |lines| == 1 then [lines[0] + block[0]] + block[1..]
    else [lines[0]] + Glue(lines[1..], block)
  }

  function Mark(text: string): (b: seq<Line>)
    ensures b != []
  {
    [[Piece(Punct, text)]]
  }

  /** A new line indented two spaces a level, then `line`. */
  function NewLine(depth: nat, line: Line): (b: seq<Line>)
    ensures b != []
  {
    [[], (if depth == 0 then [] else [Piece(Punct, Spaces(2 * depth))]) + line]
  }

  function ScalarPiece(j: Json): Piece
    requires !j.Object? && !j.Array?
  {
    match j
    case String(text) => Piece(StringTok, text)
    case Number(text) => Piece(NumberTok, text)
    case Literal(text) => Piece(LiteralTok, text)
  }

  /** The lines of `j`, the first going on the line it starts on. */
  function Block(j: Json, depth: nat): (b: seq<Line>)
    ensures b != []
    decreases j, 1
  {
    match j
    case Object(members) => if members == [] then Mark("{}") else Glue(Mark("{"), MembersBlock(members, depth))
    case Array(items) => if items == [] then Mark("[]") else Glue(Mark("["), ItemsBlock(items, depth))
    case _ => [[ScalarPiece(j)]]
  }

  function MembersBlock(members: seq<Member>, depth: nat): (b: seq<Line>)
    ensures b != []
    decreases members, 0
  {
    if members == [] then NewLine(depth, [Piece(Punct, "}")])
    else
      var key := NewLine(depth + 1, [Piece(KeyTok, members[0].key), Piece(Punct, ": ")]);
      var comma := if |members| > 1 then Mark(",") else [[]];
      Glue(key, Glue(Block(members[0].value, depth + 1), Glue(comma, MembersBlock(members[1..], depth))))
  }

  function ItemsBlock(items: seq<Json>, depth: nat): (b: seq<Line>)
    ensures b != []
    decreases items, 0
  {
    if items == [] then NewLine(depth, [Piece(Punct, "]")])
    else
      var comma := if |items| > 1 then Mark(",") else [[]];
      Glue(NewLine(depth + 1, []), Glue(Block(items[0], depth + 1), Glue(comma, ItemsBlock(items[1..], depth))))
  }

  lemma {:induction false} GlueAssoc(a: seq<Line>, b: seq<Line>, c: seq<Line>)
    requires b != [] && c != []
    ensures Glue(b, c) != [] && Glue(Glue(a, b), c) == Glue(a, Glue(b, c))
  {
    if |a| >= 2 {
      GlueAssoc(a[1..], b, c);
    } else if |a| == 1 {
      Assoc(a[0], b[0], c[0]);
    }
  }

  lemma {:induction false} GlueNothing(a: seq<Line>)
    ensures Glue(a, [[]]) == a
  {
    if |a| >= 2 {
      GlueNothing(a[1..]);
    } else if |a| == 1 {
      assert a[0] + [] == a[0];
    }
  }

  lemma {:induction false} GluePiece(a: seq<Line>, p: Piece)
    requires a != []
    ensures Glue(a, [[p]]) == a[|a| - 1 := a[|a| - 1] + [p]]
  {
    if |a| >= 2 {
      GluePiece(a[1..], p);
    }
  }

  lemma {:induction false} GlueLine(a: seq<Line>, line: Line)
    ensures Glue(a, [[], line]) == a + [line]
  {
    if |a| >= 2 {
      GlueLine(a[1..], line);
    } else if |a| == 1 {
      assert a[0] + [] == a[0];
    }
  }

  /** Where `pretty_json` writes. */
  class Layout {
    var lines: seq<Line>

    constructor ()
      ensures lines == [[]]
    {
      lines := [[]];
    }

    method Push(tok: JsonTok, text: string)
      modifies this
      ensures lines == Glue(old(lines), [[Piece(tok, text)]])
    {
      if lines != [] {
        GluePiece(lines, Piece(tok, text));
        lines := lines[|lines| - 1 := lines[|lines| - 1] + [Piece(tok, text)]];
      }
    }

    method Newline(depth: nat)
      modifies this
      ensures lines == Glue(old(lines), NewLine(depth, []))
    {
      var indent := if depth == 0 then [] else [Piece(Punct, Spaces(2 * depth))];
      assert indent + [] == indent;
      GlueLine(lines, indent);
      lines := lines + [indent];
    }

    method Pretty(j: Json, depth: nat)
      modifies this
      ensures lines == Glue(old(lines), Block(j, depth))
      decreases j, 1
    {
      match j {
        case Object(members) =>
          if members == [] {
            Push(Punct, "{}");
          } else {
            PrettyMembers(members, depth);
          }
        case Array(items) =>
          if items == [] {
            Push(Punct, "[]");
          } else {
            PrettyItems(items, depth);
          }
        case String(text) => Push(StringTok, text);
        case Number(text) => Push(NumberTok, text);
        case Literal(text) => Push(LiteralTok, text);
      }
    }

    method PrettyMembers(members: seq<Member>, depth: nat)
      modifies this
      ensures lines == Glue(old(lines), Glue(Mark("{"), MembersBlock(members, depth)))
      decreases members, 0
    {
      hide Glue;
      Push(Punct, "{");
      GlueAssoc(old(lines), Mark("{"), MembersBlock(members, depth));
      for i := 0 to |members|
        invariant Glue(lines, MembersBlock(members[i..], depth))
               == Glue(old(lines), Glue(Mark("{"), MembersBlock(members, depth)))
      {
        ghost var before := lines;
        var key, value := members[i].key, members[i].value;
        Newline(depth + 1);
        Push(KeyTok, key);
        Push(Punct, ": ");
        assert lines == Glue(before, NewLine(depth + 1, [Piece(KeyTok, key), Piece(Punct, ": ")])) by {
          ThreePieces(before, depth + 1, Piece(KeyTok, key), Piece(Punct, ": "));
        }
        Pretty(value, depth + 1);
        GlueNothing(lines);
        if i + 1 < |members| {
          Push(Punct, ",");
        }
        StepGlues(before, NewLine(depth + 1, [Piece(KeyTok, key), Piece(Punct, ": ")]), Block(value, depth + 1),
                  if i + 1 < |members| then Mark(",") else [[]], MembersBlock(members[i..][1..], depth));
        assert members[i..][1..] == members[i + 1..];
      }
      ghost var inside := lines;
      Newline(depth);
      Push(Punct, "}");
      TwoPieces(inside, depth, Piece(Punct, "}"));
    }

    method PrettyItems(items: seq<Json>, depth: nat)
      modifies this
      ensures lines == Glue(old(lines), Glue(Mark("["), ItemsBlock(items, depth)))
      decreases items, 0
    {
      hide Glue;
      Push(Punct, "[");
      GlueAssoc(old(lines), Mark("["), ItemsBlock(items, depth));
      for i := 0 to |items|
        invariant Glue(lines, ItemsBlock(items[i..], depth))
               == Glue(old(lines), Glue(Mark("["), ItemsBlock(items, depth)))
      {
        ghost var before := lines;
        Newline(depth + 1);
        Pretty(items[i], depth + 1);
        GlueNothing(lines);
        if i + 1 < |items| {
          Push(Punct, ",");
        }
        StepGlues(before, NewLine(depth + 1, []), Block(items[i], depth + 1),
                  if i + 1 < |items| then Mark(",") else [[]], ItemsBlock(items[i..][1..], depth));
        assert items[i..][1..] == items[i + 1..];
      }
      ghost var inside := lines;
      Newline(depth);
      Push(Punct, "]");
      TwoPieces(inside, depth, Piece(Punct, "]"));
    }
  }

  lemma Widened(depth: nat, line: Line, p: Piece)
    ensures Glue(NewLine(depth, line), [[p]]) == NewLine(depth, line + [p])
  {
    var indent := if depth == 0 then [] else [Piece(Punct, Spaces(2 * depth))];
    assert indent + line + [p] == indent + (line + [p]);
  }

  lemma TwoPieces(lines: seq<Line>, depth: nat, p: Piece)
    ensures Glue(Glue(lines, NewLine(depth, [])), [[p]]) == Glue(lines, NewLine(depth, [p]))
  {
    GlueAssoc(lines, NewLine(depth, []), [[p]]);
    Widened(depth, [], p);
    assert [] + [p] == [p];
  }

  lemma ThreePieces(lines: seq<Line>, depth: nat, p: Piece, q: Piece)
    ensures Glue(Glue(Glue(lines, NewLine(depth, [])), [[p]]), [[q]]) == Glue(lines, NewLine(depth, [p, q]))
  {
    TwoPieces(lines, depth, p);
    GlueAssoc(lines, NewLine(depth, [p]), [[q]]);
    Widened(depth, [p], q);
    assert [p] + [q] == [p, q];
  }

  lemma StepGlues(lines: seq<Line>, a: seq<Line>, b: seq<Line>, c: seq<Line>, d: seq<Line>)
    requires a != [] && b != [] && c != [] && d != []
    ensures Glue(b, Glue(c, d)) != []
    ensures Glue(Glue(Glue(Glue(lines, a), b), c), d) == Glue(lines, Glue(a, Glue(b, Glue(c, d))))
  {
    hide Glue;
    GlueAssoc(c, d, d);
    GlueAssoc(Glue(Glue(lines, a), b), c, d);
    GlueAssoc(b, c, d);
    GlueAssoc(Glue(lines, a), b, Glue(c, d));
    GlueAssoc(a, b, Glue(c, d));
    GlueAssoc(lines, a, Glue(b, Glue(c, d)));
  }
}
