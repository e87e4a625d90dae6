/**
 The parser accepts exactly the JSON texts of RFC 8259 that are not nested too deep, and
 gives the value each stands for.
 */
module JsonTheorems {
  import opened Basics
  import opened JsonGrammar
  import opened JsonParser

  /** What may follow a number for the parser to stop there. */
  predicate Ends(rest: string) {
    rest == "" || !(IsDigit(rest[0]) || rest[0] == '.' || rest[0] == 'e' || rest[0] == 'E')
  }

  // Numbers, section 6.

  lemma WholeEndOf(whole: string, rest: string)
    requires IntPart(whole) && (rest == "" || !IsDigit(rest[0]))
    ensures WholeEnd(whole + rest) == Some(|whole|)
  {
    if whole != "0" {
      DigitRunOf(whole, rest);
    }
  }

  lemma FracEndOf(frac: string, rest: string)
    requires FracPart(frac) && (rest == "" || (!IsDigit(rest[0]) && rest[0] != '.'))
    ensures FracEnd(frac + rest) == Some(|frac|)
  {
    if frac == "" {
      assert frac + rest == rest;
    } else {
      assert (frac + rest)[1..] == frac[1..] + rest;
      DigitRunOf(frac[1..], rest);
    }
  }

  lemma ExpEndOf(exp: string, rest: string)
    requires ExpPart(exp) && Ends(rest)
    ensures ExpEnd(exp + rest) == Some(|exp|)
  {
    if exp == "" {
      assert exp + rest == rest;
    } else {
      var sign := if |exp| > 1 && (exp[1] == '+' || exp[1] == '-') then 2 else 1;
      assert (exp + rest)[sign..] == exp[sign..] + rest;
      DigitRunOf(exp[sign..], rest);
    }
  }

  lemma FracExpEndOf(frac: string, exp: string, rest: string)
    requires FracPart(frac) && ExpPart(exp) && Ends(rest)
    ensures FracExpEnd(frac + (exp + rest)) == Some(|frac| + |exp|)
    ensures var s := frac + (exp + rest); s == "" || !IsDigit(s[0])
  {
    assert exp == "" ==> exp + rest == rest;
    assert frac == "" ==> frac + (exp + rest) == exp + rest;
    ExpEndOf(exp, rest);
    FracEndOf(frac, exp + rest);
    DropOf(frac, exp + rest);
  }

  lemma UnsignedEndOf(whole: string, fraction: string, n: nat)
    requires IntPart(whole) && FracExpEnd(fraction) == Some(n)
    requires fraction == "" || !IsDigit(fraction[0])
    ensures UnsignedEnd(whole + fraction) == Some(|whole| + n)
    ensures whole + fraction != "" && (whole + fraction)[0] != '-'
  {
    WholeEndOf(whole, fraction);
    DropOf(whole, fraction);
  }

  lemma NumberEndOf(t: string, rest: string)
    requires IsNumber(t) && Ends(rest)
    ensures NumberEnd(t + rest) == Some(|t|)
  {
    hide NumberEnd, FracExpEnd;
    var minus, whole, frac, exp :| NumberParts(t, minus, whole, frac, exp);
    FracExpEndOf(frac, exp, rest);
    SignedEndOf(minus, whole, frac + (exp + rest), |frac| + |exp|);
    Assoc(minus, whole + (frac + exp), rest);
    Assoc(whole, frac + exp, rest);
    Assoc(frac, exp, rest);
  }

  /** A number of the grammar is read whole, up to something that cannot go on with it. */
  lemma NumberComplete(t: string, rest: string)
    requires IsNumber(t) && Ends(rest)
    ensures ParseNumber(t + rest) == Got(t, rest)
    ensures t != "" && (t[0] == '-' || IsDigit(t[0]))
  {
    hide NumberEnd;
    NumberEndOf(t, rest);
    NumberStart(t);
    DropOf(t, rest);
  }

  lemma SignedEndOf(minus: string, whole: string, fraction: string, n: nat)
    requires (minus == "" || minus == "-") && IntPart(whole)
    requires FracExpEnd(fraction) == Some(n) && (fraction == "" || !IsDigit(fraction[0]))
    ensures NumberEnd(minus + (whole + fraction)) == Some(|minus| + |whole| + n)
  {
    hide UnsignedEnd, FracExpEnd, IntPart;
    var unsigned := whole + fraction;
    UnsignedEndOf(whole, fraction, n);
    DropOf(minus, unsigned);
    assert (minus + unsigned)[0] == if minus == "-" then '-' else unsigned[0];
  }

  lemma ExpSound(s: string)
    requires ExpEnd(s).Some?
    ensures ExpPart(s[..ExpEnd(s).value])
  {
    var e := ExpEnd(s).value;
    if e > 0 {
      var sign := if |s| > 1 && (s[1] == '+' || s[1] == '-') then 2 else 1;
      DigitRunStops(s[sign..]);
      assert s[..e][sign..] == s[sign..][..e - sign];
    }
  }

  lemma FracSound(s: string)
    requires FracEnd(s).Some?
    ensures FracPart(s[..FracEnd(s).value])
  {
    var f := FracEnd(s).value;
    if f > 0 {
      DigitRunStops(s[1..]);
      assert s[..f][1..] == s[1..][..f - 1];
    }
  }

  lemma FracExpSound(s: string) returns (frac: string, exp: string)
    requires FracExpEnd(s).Some?
    ensures FracPart(frac) && ExpPart(exp) && s[..FracExpEnd(s).value] == frac + exp
  {
    var f := FracEnd(s).value;
    var e := ExpEnd(s[f..]).value;
    FracSound(s);
    ExpSound(s[f..]);
    TakeSplits(s, f, e);
    frac, exp := s[..f], s[f..][..e];
  }

  lemma WholeSound(s: string)
    requires WholeEnd(s).Some?
    ensures IntPart(s[..WholeEnd(s).value])
  {
    DigitRunStops(s);
  }

  lemma UnsignedSound(s: string) returns (whole: string, frac: string, exp: string)
    requires UnsignedEnd(s).Some?
    ensures IntPart(whole) && FracPart(frac) && ExpPart(exp)
    ensures s[..UnsignedEnd(s).value] == whole + (frac + exp)
  {
    var w := WholeEnd(s).value;
    WholeSound(s);
    whole := s[..w];
    frac, exp := FracExpSound(s[w..]);
    TakeSplits(s, w, FracExpEnd(s[w..]).value);
  }

  /** What the parser reads as a number is one. */
  lemma NumberSound(s: string)
    requires NumberEnd(s).Some?
    ensures IsNumber(s[..NumberEnd(s).value])
  {
    var n := NumberEnd(s).value;
    var m := if s[0] == '-' then 1 else 0;
    var u := s[m..];
    var whole, frac, exp := UnsignedSound(u);
    TakeSplits(s, m, n - m);
    assert NumberParts(s[..n], s[..m], whole, frac, exp);
  }

  // Strings, section 7.

  lemma {:induction false} StringEndOf(body: string, rest: string)
    requires IsStringBody(body)
    ensures StringEnd(body + ("\"" + rest)) == Some(|body| + 1)
  {
    var s := body + ("\"" + rest);
    if body != "" {
      var n := if Unescaped(body[0]) then 1 else if SimpleEscape(body[1]) then 2 else 6;
      assert s[n..] == body[n..] + ("\"" + rest);
      assert n == 6 ==> s[2..6] == body[2..6];
      StringEndOf(body[n..], rest);
    }
  }

  lemma {:induction false} StringEndSound(s: string)
    requires StringEnd(s).Some?
    ensures s[StringEnd(s).value - 1] == '"' && IsStringBody(s[..StringEnd(s).value - 1])
  {
    if s[0] != '"' {
      var n := CharEnd(s).value;
      StringEndSound(s[n..]);
      var m := StringEnd(s).value - 1;
      assert m == n + StringEnd(s[n..]).value - 1;
      TakeThenDrop(s, n, m);
      if n == 6 {
        TakeThenDrop(s[..m], 2, 6);
        TakeThenDrop(s, 2, 6);
        assert s[..m][..6] == s[..6];
      }
    }
  }

  lemma StringComplete(t: string, rest: string)
    requires IsString(t)
    ensures ParseString(t + rest) == Got(t, rest)
    ensures t != "" && t[0] == '"'
  {
    var body := t[1..|t| - 1];
    assert (t + rest)[1..] == body + ("\"" + rest);
    StringEndOf(body, rest);
    assert (t + rest)[..|t|] == t && (t + rest)[|t|..] == rest;
  }

  lemma StringSound(s: string)
    requires ParseString(s).Got?
    ensures IsString(ParseString(s).value) && s == ParseString(s).value + ParseString(s).rest
  {
    var n := StringEnd(s[1..]).value;
    StringEndSound(s[1..]);
    assert s[..n + 1][1..n] == s[1..][..n - 1];
  }

  lemma LiteralComplete(t: string, rest: string)
    requires IsLiteral(t)
    ensures ParseLiteral(t + rest) == Got(t, rest)
    ensures t != "" && (t[0] == 't' || t[0] == 'f' || t[0] == 'n')
  {
    var s := t + rest;
    assert t <= s && s[|t|..] == rest;
    assert s[0] == t[0];
  }

  // Values, sections 2 to 5.

  lemma {:induction false} SkipBlank(before: string, rest: string)
    requires Blank(before) && (rest == "" || !IsWs(rest[0]))
    ensures SkipWs(before + rest) == rest
  {
    if before == "" {
      assert before + rest == rest;
    } else {
      assert (before + rest)[1..] == before[1..] + rest;
      SkipBlank(before[1..], rest);
    }
  }

  /** The whitespace `SkipWs` passes over. */
  function Skipped(s: string): (w: string)
    ensures |SkipWs(s)| <= |s| && w == s[..|s| - |SkipWs(s)|]
  {
    s[..|s| - |SkipWs(s)|]
  }

  lemma {:induction false} SkipWsSplits(s: string)
    ensures Blank(Skipped(s)) && s == Skipped(s) + SkipWs(s)
    ensures SkipWs(s) == "" || !IsWs(SkipWs(s)[0])
  {
    if s != "" && IsWs(s[0]) {
      SkipWsSplits(s[1..]);
      assert Skipped(s) == [s[0]] + Skipped(s[1..]);
    } else {
      assert Skipped(s) == "";
    }
  }

  lemma TokenAfter(before: string, c: char, rest: string)
    requires Blank(before) && !IsWs(c)
    ensures AfterToken(before + ([c] + rest), c) == Got(c, rest)
    ensures forall d | d != c :: AfterToken(before + ([c] + rest), d).Fail?
  {
    SkipBlank(before, [c] + rest);
  }

  lemma NumberScalar(t: string, rest: string)
    requires IsNumber(t) && Ends(rest)
    ensures t != "" && ParseScalar(t + rest) == Got(Number(t), rest)
    ensures !IsWs(t[0]) && t[0] != '{' && t[0] != '['
  {
    hide IsNumber, ParseNumber, Ends;
    NumberComplete(t, rest);
    assert (t + rest)[0] == t[0];
  }

  lemma StringScalar(t: string, rest: string)
    requires IsString(t)
    ensures t != "" && ParseScalar(t + rest) == Got(String(t), rest)
    ensures t[0] == '"'
  {
    hide IsString, ParseString;
    StringComplete(t, rest);
    assert (t + rest)[0] == t[0];
  }

  lemma LiteralScalar(t: string, rest: string)
    requires IsLiteral(t)
    ensures t != "" && ParseScalar(t + rest) == Got(Literal(t), rest)
    ensures t[0] == 't' || t[0] == 'f' || t[0] == 'n'
  {
    hide IsLiteral, ParseLiteral;
    LiteralComplete(t, rest);
    assert (t + rest)[0] == t[0];
  }

  lemma ScalarComplete(j: Json, rest: string)
    requires IsScalarText(j) && Ends(rest)
    ensures j.text != "" && ParseScalar(j.text + rest) == Got(j, rest)
    ensures !IsWs(j.text[0]) && j.text[0] != '{' && j.text[0] != '['
  {
    hide ParseScalar, IsString, IsNumber, IsLiteral, Ends;
    match j {
      case String(t) => StringScalar(t, rest);
      case Literal(t) => LiteralScalar(t, rest);
      case Number(t) => NumberScalar(t, rest);
    }
  }

  /** Every derivation that is not too deep is read as the value it stands for. */
  lemma {:induction false} ValueComplete(before: string, t: Tree, rest: string, depth: nat)
    requires Blank(before) && Derivation(t) && Ends(rest)
    requires depth + Height(Value(t)) <= MAX_JSON_DEPTH
    ensures ParseValue(before + Put(t, rest), depth) == Got(Value(t), rest)
    decreases t, 1
  {
    var s := Put(t, rest);
    SkipBlank(before, s);
    match t {
      case Leaf(j) =>
        ScalarComplete(j, rest);
      case ObjectTree(pad, members) =>
        if members == [] {
          assert s[1..] == pad + ("}" + rest);
          TokenAfter(pad, '}', rest);
        } else {
          assert s[1..] == PutMembers(members, rest);
          MembersComplete(members, rest, depth);
        }
      case ArrayTree(pad, items) =>
        if items == [] {
          assert s[1..] == pad + ("]" + rest);
          TokenAfter(pad, ']', rest);
        } else {
          assert s[1..] == PutItems(items, rest);
          ItemsComplete(items, rest, depth);
        }
    }
  }

  lemma {:induction false} MembersComplete(members: seq<MemberTree>, rest: string, depth: nat)
    requires members != [] && depth <= MAX_JSON_DEPTH
    requires forall m | m in members :: MemberDerivation(m)
    requires depth + MembersHeight(MembersValue(members)) <= MAX_JSON_DEPTH
    ensures ParseMembers(PutMembers(members, rest), depth) == Got(MembersValue(members), rest)
    ensures AfterToken(PutMembers(members, rest), '}').Fail?
    decreases members, 0
  {
    hide ParseString;
    var m := members[0];
    assert MemberDerivation(m);
    var last := |members| == 1;
    var next := if last then "}" + rest else "," + PutMembers(members[1..], rest);
    var value := Put(m.value, m.after + next);
    var fromColon := m.colon + (":" + (m.gap + value));
    SkipBlank(m.before, m.key + fromColon);
    StringComplete(m.key, fromColon);
    TokenAfter(m.colon, ':', m.gap + value);
    ValueComplete(m.gap, m.value, m.after + next, depth + 1);
    assert ParseMember(PutMembers(members, rest), depth)
        == Got(Member(m.key, Value(m.value)), m.after + next);
    if last {
      TokenAfter(m.after, '}', rest);
      assert MembersValue(members) == [Member(m.key, Value(m.value))];
    } else {
      TokenAfter(m.after, ',', PutMembers(members[1..], rest));
      MembersComplete(members[1..], rest, depth);
    }
  }

  lemma {:induction false} ItemsComplete(items: seq<ItemTree>, rest: string, depth: nat)
    requires items != [] && depth <= MAX_JSON_DEPTH
    requires forall i | i in items :: ItemDerivation(i)
    requires depth + ItemsHeight(ItemsValue(items)) <= MAX_JSON_DEPTH
    ensures ParseItems(PutItems(items, rest), depth) == Got(ItemsValue(items), rest)
    ensures AfterToken(PutItems(items, rest), ']').Fail?
    decreases items, 0
  {
    var i := items[0];
    assert ItemDerivation(i);
    var last := |items| == 1;
    var next := if last then "]" + rest else "," + PutItems(items[1..], rest);
    ValueComplete(i.before, i.value, i.after + next, depth + 1);
    NotABracket(i.value, i.after + next);
    SkipBlank(i.before, Put(i.value, i.after + next));
    if last {
      TokenAfter(i.after, ']', rest);
      assert ItemsValue(items) == [Value(i.value)];
    } else {
      TokenAfter(i.after, ',', PutItems(items[1..], rest));
      ItemsComplete(items[1..], rest, depth);
    }
  }

  lemma NotABracket(t: Tree, rest: string)
    requires Derivation(t)
    ensures Put(t, rest)[0] != ']'
  {
    if t.Leaf? && t.scalar.Number? {
      NumberStart(t.scalar.text);
    }
  }

  /** What the parser reads comes from a derivation that is not too deep. */
  lemma {:induction false} ValueSound(s: string, depth: nat) returns (t: Tree)
    requires ParseValue(s, depth).Got?
    ensures Derivation(t) && Value(t) == ParseValue(s, depth).value
    ensures s == Skipped(s) + Put(t, ParseValue(s, depth).rest)
    ensures depth + Height(Value(t)) <= MAX_JSON_DEPTH
    decreases |s|, 0
  {
    SkipWsSplits(s);
    var x := SkipWs(s);
    if x[0] == '{' {
      t := BraceSound(x[1..], depth);
    } else if x[0] == '[' {
      t := BracketSound(x[1..], depth);
    } else {
      ScalarSound(x);
      t := Leaf(ParseScalar(x).value);
    }
    assert x == Put(t, ParseValue(s, depth).rest);
  }

  lemma ScalarSound(s: string)
    requires s != "" && ParseScalar(s).Got?
    ensures var r := ParseScalar(s); IsScalarText(r.value) && s == r.value.text + r.rest
  {
    if s[0] == '"' {
      StringSound(s);
    } else if s[0] == 't' || s[0] == 'f' || s[0] == 'n' {
      assert s == s[..4] + s[4..] && (|s| > 4 ==> s == s[..5] + s[5..]);
    } else {
      NumberSound(s);
      assert s == s[..NumberEnd(s).value] + s[NumberEnd(s).value..];
    }
  }

  lemma {:induction false} BraceSound(s: string, depth: nat) returns (t: Tree)
    requires depth <= MAX_JSON_DEPTH && AfterBrace(s, depth).Got?
    ensures Derivation(t) && Value(t) == AfterBrace(s, depth).value
    ensures "{" + s == Put(t, AfterBrace(s, depth).rest)
    ensures depth + Height(Value(t)) <= MAX_JSON_DEPTH
    decreases |s|, 3
  {
    if AfterToken(s, '}').Got? {
      SkipWsSplits(s);
      t := ObjectTree(Skipped(s), []);
    } else {
      var members := MembersSound(s, depth);
      t := ObjectTree("", members);
    }
  }

  lemma {:induction false} BracketSound(s: string, depth: nat) returns (t: Tree)
    requires depth <= MAX_JSON_DEPTH && AfterBracket(s, depth).Got?
    ensures Derivation(t) && Value(t) == AfterBracket(s, depth).value
    ensures "[" + s == Put(t, AfterBracket(s, depth).rest)
    ensures depth + Height(Value(t)) <= MAX_JSON_DEPTH
    decreases |s|, 3
  {
    if AfterToken(s, ']').Got? {
      SkipWsSplits(s);
      t := ArrayTree(Skipped(s), []);
    } else {
      var items := ItemsSound(s, depth);
      t := ArrayTree("", items);
    }
  }

  /** One member: everything up to its value's end, with `tail` whatever follows. */
  lemma {:induction false} MemberSound(s: string, depth: nat) returns (m: MemberTree)
    requires depth <= MAX_JSON_DEPTH && ParseMember(s, depth).Got?
    ensures m.after == Skipped(ParseMember(s, depth).rest) && MemberDerivation(m)
    ensures ParseMember(s, depth).value == Member(m.key, Value(m.value))
    ensures s == m.before + (m.key + (m.colon + (":" + (m.gap + Put(m.value, ParseMember(s, depth).rest)))))
    ensures depth + 1 + Height(Value(m.value)) <= MAX_JSON_DEPTH
    decreases |s|, 1
  {
    var start := SkipWs(s);
    var key := ParseString(start);
    var colon := AfterToken(key.rest, ':');
    var rest := ParseMember(s, depth).rest;
    StringSound(start);
    TokenSplits(key.rest, ':');
    var value := ValueSound(colon.rest, depth + 1);
    SkipWsSplits(s);
    SkipWsSplits(colon.rest);
    SkipWsSplits(rest);
    m := MemberTree(Skipped(s), key.value, Skipped(key.rest), Skipped(colon.rest), value, Skipped(rest));
  }

  lemma TokenSplits(s: string, c: char)
    requires AfterToken(s, c).Got?
    ensures Blank(Skipped(s)) && s == Skipped(s) + ([c] + AfterToken(s, c).rest)
  {
    SkipWsSplits(s);
  }

  lemma {:induction false} MembersSound(s: string, depth: nat) returns (members: seq<MemberTree>)
    requires depth <= MAX_JSON_DEPTH && ParseMembers(s, depth).Got?
    ensures members != [] && forall m | m in members :: MemberDerivation(m)
    ensures MembersValue(members) == ParseMembers(s, depth).value
    ensures s == PutMembers(members, ParseMembers(s, depth).rest)
    ensures depth + MembersHeight(MembersValue(members)) <= MAX_JSON_DEPTH
    decreases |s|, 2
  {
    hide ParseMember, Blank, IsString;
    var rest := ParseMembers(s, depth).rest;
    var m := MemberSound(s, depth);
    var after := ParseMember(s, depth).rest;
    var comma := AfterToken(after, ',');
    if comma.Got? {
      TokenSplits(after, ',');
      var more := MembersSound(comma.rest, depth);
      members := [m] + more;
      assert members[1..] == more;
    } else {
      TokenSplits(after, '}');
      members := [m];
      assert MembersValue(members) == [Member(m.key, Value(m.value))];
    }
  }

  lemma {:induction false} ItemsSound(s: string, depth: nat) returns (items: seq<ItemTree>)
    requires depth <= MAX_JSON_DEPTH && ParseItems(s, depth).Got?
    ensures items != [] && forall i | i in items :: ItemDerivation(i)
    ensures ItemsValue(items) == ParseItems(s, depth).value
    ensures s == PutItems(items, ParseItems(s, depth).rest)
    ensures depth + ItemsHeight(ItemsValue(items)) <= MAX_JSON_DEPTH
    decreases |s|, 1
  {
    var rest := ParseItems(s, depth).rest;
    var v := ParseValue(s, depth + 1);
    var value := ValueSound(s, depth + 1);
    SkipWsSplits(s);
    SkipWsSplits(v.rest);
    var i := ItemTree(Skipped(s), value, Skipped(v.rest));
    assert ItemDerivation(i);
    var comma := AfterToken(v.rest, ',');
    if comma.Got? {
      TokenSplits(v.rest, ',');
      var more := ItemsSound(comma.rest, depth);
      items := [i] + more;
      assert items[1..] == more;
    } else {
      TokenSplits(v.rest, ']');
      items := [i];
      assert ItemsValue(items) == [Value(i.value)];
    }
  }

  /**
   `parse_json` gives `j` exactly when the text derives it in the grammar of RFC 8259 and no
   part of it is under more than 256 brackets.
   */
  lemma ParseIsTheGrammar(text: string, j: Json)
    ensures Parse(text) == Some(j) <==> Derives(text, j) && Height(j) <= MAX_JSON_DEPTH
  {
    if Parse(text) == Some(j) {
      var t := ValueSound(text, 0);
      SkipWsSplits(text);
      SkipWsSplits(ParseValue(text, 0).rest);
      assert DerivesBy(text, Skipped(text), t, ParseValue(text, 0).rest);
    }
    if Derives(text, j) && Height(j) <= MAX_JSON_DEPTH {
      var before, t, after :| DerivesBy(text, before, t, after) && Value(t) == j;
      ValueComplete(before, t, after, 0);
      SkipBlank(after, "");
      assert after + "" == after;
    }
  }

  /** `Parser::number` takes a whole text exactly when section 6 calls it a number. */
  lemma NumberIsTheGrammar(text: string)
    ensures ParseNumber(text) == Got(text, "") <==> IsNumber(text)
  {
    if ParseNumber(text) == Got(text, "") {
      NumberSound(text);
      assert text[..NumberEnd(text).value] == text;
    }
    if IsNumber(text) {
      NumberComplete(text, "");
      assert text + "" == text;
    }
  }

  /** `Parser::string` takes a whole text exactly when section 7 calls it a string. */
  lemma StringIsTheGrammar(text: string)
    ensures ParseString(text) == Got(text, "") <==> IsString(text)
  {
    if ParseString(text) == Got(text, "") {
      StringSound(text);
    }
    if IsString(text) {
      StringComplete(text, "");
      assert text + "" == text;
    }
  }
}
