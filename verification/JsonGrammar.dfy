/**
 JSON as RFC 8259 writes it, apart from any parser: which texts are numbers (section 6)
 and strings (section 7), and derivation trees for whole values (sections 2 to 5), which
 spell out every piece of insignificant whitespace.
 */
module JsonGrammar {
  import opened Basics

  /** A value, its members as ordered and its scalars as written. */
  datatype Json =
    | Object(members: seq<Member>)
    | Array(items: seq<Json>)
    | String(text: string)
    | Number(text: string)
    | Literal(text: string)

  datatype Member = Member(key: string, value: Json)

  predicate IsWs(c: char) {
    c == ' ' || c == '\t' || c == '\n' || c == '\r'
  }

  predicate Blank(s: string) {
    forall i | 0 <= i < |s| :: IsWs(s[i])
  }

  // Section 6.

  predicate IntPart(s: string) {
    s == "0" || (s != "" && AllDigits(s) && s[0] != '0')
  }

  predicate FracPart(s: string) {
    s == "" || (s[0] == '.' && |s| > 1 && AllDigits(s[1..]))
  }

  predicate ExpPart(s: string) {
    || s == ""
    || ((s[0] == 'e' || s[0] == 'E')
        && var digits := if |s| > 1 && (s[1] == '+' || s[1] == '-') then s[2..] else s[1..];
           digits != "" && AllDigits(digits))
  }

  predicate NumberParts(t: string, minus: string, whole: string, frac: string, exp: string) {
    && t == minus + (whole + (frac + exp))
    && (minus == "" || minus == "-")
    && IntPart(whole) && FracPart(frac) && ExpPart(exp)
  }

  /** `[ minus ] int [ frac ] [ exp ]`. */
  ghost predicate IsNumber(t: string) {
    exists minus, whole, frac, exp :: NumberParts(t, minus, whole, frac, exp)
  }

  // Section 7.

  predicate SimpleEscape(c: char) {
    || c == '"' || c == '\\' || c == '/' || c == 'b'
    || c == 'f' || c == 'n' || c == 'r' || c == 't'
  }

  predicate Unescaped(c: char) {
    c >= ' ' && c != '"' && c != '\\'
  }

  /** `*char`: what may stand between the quotes. */
  predicate IsStringBody(s: string) {
    || s == ""
    || (Unescaped(s[0]) && IsStringBody(s[1..]))
    || (&& s[0] == '\\' && |s| >= 2
        && (|| (SimpleEscape(s[1]) && IsStringBody(s[2..]))
            || (s[1] == 'u' && |s| >= 6 && AllHex(s[2..6]) && IsStringBody(s[6..]))))
  }

  predicate IsString(t: string) {
    |t| >= 2 && t[0] == '"' && t[|t| - 1] == '"' && IsStringBody(t[1..|t| - 1])
  }

  predicate IsLiteral(t: string) {
    t == "true" || t == "false" || t == "null"
  }

  // Sections 2 to 5.

  /** One derivation of a value. `pad` is what stands inside an empty pair of brackets. */
  datatype Tree =
    | ObjectTree(pad: string, members: seq<MemberTree>)
    | ArrayTree(pad: string, items: seq<ItemTree>)
    | Leaf(scalar: Json)

  /** A key and value: the space before the key, around the colon, and after the value. */
  datatype MemberTree =
    MemberTree(before: string, key: string, colon: string, gap: string, value: Tree, after: string)

  datatype ItemTree = ItemTree(before: string, value: Tree, after: string)

  ghost predicate Derivation(t: Tree)
    decreases t
  {
    match t
    case ObjectTree(pad, members) => Blank(pad) && forall m | m in members :: MemberDerivation(m)
    case ArrayTree(pad, items) => Blank(pad) && forall i | i in items :: ItemDerivation(i)
    case Leaf(j) => IsScalarText(j)
  }

  ghost predicate IsScalarText(j: Json) {
    match j
    case String(text) => IsString(text)
    case Number(text) => IsNumber(text)
    case Literal(text) => IsLiteral(text)
    case _ => false
  }

  ghost predicate MemberDerivation(m: MemberTree)
    decreases m
  {
    && Blank(m.before) && IsString(m.key) && Blank(m.colon) && Blank(m.gap)
    && Derivation(m.value) && Blank(m.after)
  }

  ghost predicate ItemDerivation(i: ItemTree)
    decreases i
  {
    Blank(i.before) && Derivation(i.value) && Blank(i.after)
  }

  /** The text `t` derives, followed by `tail`. */
  function Put(t: Tree, tail: string): (s: string)
    ensures Derivation(t) ==> s != "" && !IsWs(s[0])
    decreases t, 1
  {
    match t
    case ObjectTree(pad, members) =>
      "{" + (if members == [] then pad + ("}" + tail) else PutMembers(members, tail))
    case ArrayTree(pad, items) =>
      "[" + (if items == [] then pad + ("]" + tail) else PutItems(items, tail))
    case Leaf(j) =>
      if j.Object? || j.Array? then tail else ScalarStart(j); j.text + tail
  }

  lemma NumberStart(t: string)
    requires IsNumber(t)
    ensures t != "" && (t[0] == '-' || IsDigit(t[0]))
  {
    var minus, whole, frac, exp :| NumberParts(t, minus, whole, frac, exp);
    assert t[0] == if minus == "-" then '-' else whole[0];
  }

  lemma ScalarStart(j: Json)
    requires !j.Object? && !j.Array?
    ensures IsScalarText(j) ==> j.text != "" && !IsWs(j.text[0])
  {
    if j.Number? && IsNumber(j.text) {
      NumberStart(j.text);
    }
  }

  function PutMembers(members: seq<MemberTree>, tail: string): string
    requires members != []
    decreases members, 0
  {
    var m := members[0];
    var next := if |members| == 1 then "}" + tail else "," + PutMembers(members[1..], tail);
    m.before + (m.key + (m.colon + (":" + (m.gap + Put(m.value, m.after + next)))))
  }

  function PutItems(items: seq<ItemTree>, tail: string): string
    requires items != []
    decreases items, 0
  {
    var i := items[0];
    var next := if |items| == 1 then "]" + tail else "," + PutItems(items[1..], tail);
    i.before + Put(i.value, i.after + next)
  }

  /** The value a derivation stands for: the whitespace is gone. */
  function Value(t: Tree): Json
    decreases t, 1
  {
    match t
    case ObjectTree(_, members) => Object(MembersValue(members))
    case ArrayTree(_, items) => Array(ItemsValue(items))
    case Leaf(j) => j
  }

  function MembersValue(members: seq<MemberTree>): (r: seq<Member>)
    ensures |r| == |members|
    decreases members, 0
  {
    if members == [] then []
    else [Member(members[0].key, Value(members[0].value))] + MembersValue(members[1..])
  }

  function ItemsValue(items: seq<ItemTree>): (r: seq<Json>)
    ensures |r| == |items|
    decreases items, 0
  {
    if items == [] then [] else [Value(items[0].value)] + ItemsValue(items[1..])
  }

  /** How many non-empty brackets enclose the deepest part of `j`. */
  function Height(j: Json): nat
    decreases j, 1
  {
    match j
    case Object(members) => MembersHeight(members)
    case Array(items) => ItemsHeight(items)
    case _ => 0
  }

  function MembersHeight(members: seq<Member>): nat
    decreases members, 0
  {
    if members == [] then 0 else Max(1 + Height(members[0].value), MembersHeight(members[1..]))
  }

  function ItemsHeight(items: seq<Json>): nat
    decreases items, 0
  {
    if items == [] then 0 else Max(1 + Height(items[0]), ItemsHeight(items[1..]))
  }

  /** `text` is a JSON text for `j`: RFC 8259's `ws value ws`. */
  ghost predicate Derives(text: string, j: Json) {
    exists before, t, after ::
      DerivesBy(text, before, t, after) && Value(t) == j
  }

  ghost predicate DerivesBy(text: string, before: string, t: Tree, after: string) {
    Blank(before) && Derivation(t) && Blank(after) && text == before + Put(t, after)
  }

  // On one line.

  predicate NoBreak(s: string) {
    forall i | 0 <= i < |s| :: s[i] != '\n' && s[i] != '\r'
  }

  lemma NumberOnOneLine(t: string)
    requires IsNumber(t)
    ensures NoBreak(t)
  {
    var minus, whole, frac, exp :| NumberParts(t, minus, whole, frac, exp);
    hide NoBreak, IntPart, FracPart, ExpPart;
    SignAndWholeOnOneLine(minus, whole);
    FractionOnOneLine(frac);
    ExponentOnOneLine(exp);
    BothOnOneLine(frac, exp);
    BothOnOneLine(whole, frac + exp);
    BothOnOneLine(minus, whole + (frac + exp));
  }

  lemma BothOnOneLine(a: string, b: string)
    requires NoBreak(a) && NoBreak(b)
    ensures NoBreak(a + b)
  {
  }

  lemma SignAndWholeOnOneLine(minus: string, whole: string)
    requires (minus == "" || minus == "-") && IntPart(whole)
    ensures NoBreak(minus) && NoBreak(whole)
  {
  }

  lemma FractionOnOneLine(frac: string)
    requires FracPart(frac)
    ensures NoBreak(frac)
  {
    if frac != "" {
      assert frac == [frac[0]] + frac[1..];
    }
  }

  lemma ExponentOnOneLine(exp: string)
    requires ExpPart(exp)
    ensures NoBreak(exp)
  {
    if exp != "" {
      var sign := if |exp| > 1 && (exp[1] == '+' || exp[1] == '-') then 2 else 1;
      assert exp == exp[..sign] + exp[sign..];
      assert NoBreak(exp[..sign]) && NoBreak(exp[sign..]);
    }
  }
}
