/**
 The hand-written JSON parser of inspect.rs. `Parser` is the parser itself, with its cursor;
 the functions above it say what each of its methods leaves behind, on the text that was
 still to read. JsonTheorems.dfy compares these with the grammar.
 */
module JsonParser {
  import opened Basics
  import opened JsonGrammar

  /** How deep a value may be nested. */
  const MAX_JSON_DEPTH := 256

  /** What a parser makes of a text: a value and the text after it, or nothing. */
  datatype Parsed<+T> = Fail | Got(value: T, rest: string)

  function SkipWs(s: string): (r: string)
    ensures |r| <= |s|
  {
    if s != "" && IsWs(s[0]) then SkipWs(s[1..]) else s
  }

  /** How long the escape at the start of `s` is, its backslash included. */
  function EscapeEnd(s: string): (r: Option<nat>)
    requires s != ""
    ensures r.Some? ==> 2 <= r.value <= |s|
  {
    if |s| < 2 then None
    else if SimpleEscape(s[1]) then Some(2)
    else if s[1] == 'u' && |s| >= 6 && AllHex(s[2..6]) then Some(6)
    else None
  }

  /** How long the character of a string at the start of `s` is. */
  function CharEnd(s: string): (r: Option<nat>)
    requires s != ""
    ensures r.Some? ==> 1 <= r.value <= |s|
  {
    if s[0] == '\\' then EscapeEnd(s) else if s[0] < ' ' then None else Some(1)
  }

  /** How far the closing quote is, itself included, when `s` follows the opening one. */
  function StringEnd(s: string): (r: Option<nat>)
    ensures r.Some? ==> 0 < r.value <= |s|
  {
    if s == "" then None
    else if s[0] == '"' then Some(1)
    else match CharEnd(s)
      case None => None
      case Some(n) => Further(n, StringEnd(s[n..]))
  }

  function Further(n: nat, more: Option<nat>): Option<nat> {
    match more
    case None => None
    case Some(m) => Some(n + m)
  }

  /** The string that `s` starts with, its quotes included. */
  function ParseString(s: string): (r: Parsed<string>)
    ensures r.Got? ==> |r.rest| < |s|
  {
    if s == "" || s[0] != '"' then Fail
    else match StringEnd(s[1..])
      case None => Fail
      case Some(n) => Got(s[..n + 1], s[n + 1..])
  }

  function WholeEnd(s: string): (r: Option<nat>)
    ensures r.Some? ==> 0 < r.value <= |s|
  {
    if s != "" && s[0] == '0' then Some(1)
    else if DigitRun(s) == 0 then None else Some(DigitRun(s))
  }

  function FracEnd(s: string): (r: Option<nat>)
    ensures r.Some? ==> r.value <= |s|
  {
    if s == "" || s[0] != '.' then Some(0)
    else if DigitRun(s[1..]) == 0 then None else Some(1 + DigitRun(s[1..]))
  }

  function ExpEnd(s: string): (r: Option<nat>)
    ensures r.Some? ==> r.value <= |s|
  {
    if s == "" || (s[0] != 'e' && s[0] != 'E') then Some(0)
    else
      var sign := if |s| > 1 && (s[1] == '+' || s[1] == '-') then 2 else 1;
      if DigitRun(s[sign..]) == 0 then None else Some(sign + DigitRun(s[sign..]))
  }

  function FracExpEnd(s: string): (r: Option<nat>)
    ensures r.Some? ==> r.value <= |s|
  {
    match FracEnd(s)
    case None => None
    case Some(frac) => Further(frac, ExpEnd(s[frac..]))
  }

  function UnsignedEnd(s: string): (r: Option<nat>)
    ensures r.Some? ==> 0 < r.value <= |s|
  {
    match WholeEnd(s)
    case None => None
    case Some(whole) => Further(whole, FracExpEnd(s[whole..]))
  }

  /** Where the number at the start of `s` ends. */
  function NumberEnd(s: string): (r: Option<nat>)
    ensures r.Some? ==> 0 < r.value <= |s|
  {
    var minus := if s != "" && s[0] == '-' then 1 else 0;
    Further(minus, UnsignedEnd(s[minus..]))
  }

  /** A number at the start of `s`. */
  function ParseNumber(s: string): (r: Parsed<string>)
    ensures r.Got? ==> |r.rest| < |s|
  {
    match NumberEnd(s)
    case None => Fail
    case Some(n) => Got(s[..n], s[n..])
  }

  function ParseLiteral(s: string): (r: Parsed<string>)
    ensures r.Got? ==> |r.rest| < |s|
  {
    if "true" <= s then Got("true", s[4..])
    else if "false" <= s then Got("false", s[5..])
    else if "null" <= s then Got("null", s[4..])
    else Fail
  }

  /** The text after `c`, the next thing but whitespace. */
  function AfterToken(s: string, c: char): (r: Parsed<char>)
    ensures r.Got? ==> |r.rest| < |s|
  {
    var t := SkipWs(s);
    if t != "" && t[0] == c then Got(c, t[1..]) else Fail
  }

  function ParseScalar(s: string): (r: Parsed<Json>)
    requires s != ""
    ensures r.Got? ==> |r.rest| < |s|
  {
    if s[0] == '"' then
      match ParseString(s)
      case Fail => Fail
      case Got(text, rest) => Got(String(text), rest)
    else if s[0] == 't' || s[0] == 'f' || s[0] == 'n' then
      match ParseLiteral(s)
      case Fail => Fail
      case Got(text, rest) => Got(Literal(text), rest)
    else
      match ParseNumber(s)
      case Fail => Fail
      case Got(text, rest) => Got(Number(text), rest)
  }

  /** A value `depth` brackets down, at the start of `s` but for whitespace. */
  function ParseValue(s: string, depth: nat): (r: Parsed<Json>)
    ensures r.Got? ==> |r.rest| < |s|
    decreases |s|, 0
  {
    if depth > MAX_JSON_DEPTH then Fail
    else
      var t := SkipWs(s);
      if t == "" then Fail
      else if t[0] == '{' then AfterBrace(t[1..], depth)
      else if t[0] == '[' then AfterBracket(t[1..], depth)
      else ParseScalar(t)
  }

  /** The object whose opening brace comes before `s`. */
  function AfterBrace(s: string, depth: nat): (r: Parsed<Json>)
    requires depth <= MAX_JSON_DEPTH
    ensures r.Got? ==> |r.rest| < |s|
    decreases |s|, 3
  {
    var close := AfterToken(s, '}');
    if close.Got? then Got(Object([]), close.rest)
    else match ParseMembers(s, depth)
      case Fail => Fail
      case Got(members, rest) => Got(Object(members), rest)
  }

  /** The array whose opening bracket comes before `s`. */
  function AfterBracket(s: string, depth: nat): (r: Parsed<Json>)
    requires depth <= MAX_JSON_DEPTH
    ensures r.Got? ==> |r.rest| < |s|
    decreases |s|, 3
  {
    var close := AfterToken(s, ']');
    if close.Got? then Got(Array([]), close.rest)
    else match ParseItems(s, depth)
      case Fail => Fail
      case Got(items, rest) => Got(Array(items), rest)
  }

  function ParseMember(s: string, depth: nat): (r: Parsed<Member>)
    requires depth <= MAX_JSON_DEPTH
    ensures r.Got? ==> |r.rest| < |s|
    decreases |s|, 1
  {
    var key := ParseString(SkipWs(s));
    if key.Fail? then Fail else
    var colon := AfterToken(key.rest, ':');
    if colon.Fail? then Fail else
    var v := ParseValue(colon.rest, depth + 1);
    if v.Fail? then Fail else Got(Member(key.value, v.value), v.rest)
  }

  /** The members up to the closing brace, at least one. */
  function ParseMembers(s: string, depth: nat): (r: Parsed<seq<Member>>)
    requires depth <= MAX_JSON_DEPTH
    ensures r.Got? ==> |r.rest| < |s|
    decreases |s|, 2
  {
    var m := ParseMember(s, depth);
    if m.Fail? then Fail else
    var comma := AfterToken(m.rest, ',');
    if comma.Got? then Prepend([m.value], ParseMembers(comma.rest, depth))
    else
      var close := AfterToken(m.rest, '}');
      if close.Fail? then Fail else Got([m.value], close.rest)
  }

  /** The items up to the closing bracket, at least one. */
  function ParseItems(s: string, depth: nat): (r: Parsed<seq<Json>>)
    requires depth <= MAX_JSON_DEPTH
    ensures r.Got? ==> |r.rest| < |s|
    decreases |s|, 1
  {
    var v := ParseValue(s, depth + 1);
    if v.Fail? then Fail else
    var comma := AfterToken(v.rest, ',');
    if comma.Got? then Prepend([v.value], ParseItems(comma.rest, depth))
    else
      var close := AfterToken(v.rest, ']');
      if close.Fail? then Fail else Got([v.value], close.rest)
  }

  function Prepend<T>(first: seq<T>, r: Parsed<seq<T>>): Parsed<seq<T>> {
    match r
    case Fail => Fail
    case Got(more, rest) => Got(first + more, rest)
  }

  /** A whole text read as a single value, whitespace before and after it allowed. */
  function Parse(text: string): Option<Json> {
    match ParseValue(text, 0)
    case Fail => None
    case Got(v, rest) => if SkipWs(rest) == "" then Some(v) else None
  }

  method ParseJson(text: string) returns (r: Option<Json>)
    ensures r == Parse(text)
  {
    var parser := new Parser(text);
    var v := parser.Value(0);
    if v.None? {
      return None;
    }
    parser.Space();
    r := if parser.at == |text| then v else None;
  }

  class Parser {
    const text: string
    var at: nat

    ghost predicate Valid()
      reads this
    {
      at <= |text|
    }

    /** What is still to read. */
    ghost function Rest(): string
      reads this
      requires Valid()
    {
      text[at..]
    }

    /** Whether the cursor has moved past `was` as `outcome` says, and answered `r`. */
    ghost predicate Took<T>(outcome: Parsed<T>, r: Option<T>)
      reads this
    {
      && Valid()
      && (outcome.Got? <==> r.Some?)
      && (r.Some? ==> r.value == outcome.value && Rest() == outcome.rest)
    }

    constructor (text: string)
      ensures Valid() && this.text == text && Rest() == text
    {
      this.text := text;
      at := 0;
    }

    function Peek(): Option<char>
      reads this
    {
      if at < |text| then Some(text[at]) else None
    }

    method Space()
      requires Valid()
      modifies this
      ensures Valid() && Rest() == SkipWs(old(Rest()))
    {
      while at < |text| && IsWs(text[at])
        invariant Valid()
        invariant SkipWs(Rest()) == SkipWs(old(Rest()))
      {
        assert Rest()[1..] == text[at + 1..];
        at := at + 1;
      }
    }

    method Eat(c: char) returns (ate: bool)
      requires Valid()
      modifies this
      ensures Valid()
      ensures ate <==> AfterToken(old(Rest()), c).Got?
      ensures Rest() == if ate then AfterToken(old(Rest()), c).rest else SkipWs(old(Rest()))
    {
      Space();
      ate := Peek() == Some(c);
      if ate {
        at := at + 1;
      }
    }

    method Digits() returns (some: bool)
      requires Valid()
      modifies this
      ensures Valid() && some == (DigitRun(old(Rest())) > 0)
      ensures at == old(at) + DigitRun(old(Rest()))
    {
      var from := at;
      while at < |text| && IsDigit(text[at])
        invariant from <= at <= |text|
        invariant DigitRun(text[from..]) == at - from + DigitRun(text[at..])
      {
        assert text[at..][1..] == text[at + 1..];
        at := at + 1;
      }
      some := at > from;
    }

    /** Moves past what a part of a token takes, if it is well formed. */
    ghost predicate Passed(start: nat, part: Option<nat>, ok: bool)
      reads this
    {
      Valid() && (ok <==> part.Some?) && (ok ==> at == start + part.value)
    }

    /** An escape, from its backslash on. */
    method Escape() returns (ok: bool)
      requires Valid() && at < |text|
      modifies this
      ensures Passed(old(at), EscapeEnd(old(Rest())), ok)
    {
      ghost var s := Rest();
      at := at + 1;
      match Peek() {
        case None =>
          return false;
        case Some(c) =>
          if SimpleEscape(c) {
            at := at + 1;
            return true;
          }
          if c != 'u' || at + 5 > |text| {
            return false;
          }
          assert s[2..6] == text[at + 1..at + 5];
          ok := AllHex(text[at + 1..at + 5]);
          if ok {
            at := at + 5;
          }
      }
    }

    /** One character of a string, escaped or not. */
    method StringChar() returns (ok: bool)
      requires Valid() && at < |text|
      modifies this
      ensures Passed(old(at), CharEnd(old(Rest())), ok)
    {
      if text[at] == '\\' {
        ok := Escape();
      } else {
        ok := text[at] >= ' ';
        if ok {
          at := at + 1;
        }
      }
    }

    /** The rest of a string, from after its opening quote to past its closing one. */
    method StringTail() returns (ok: bool)
      requires Valid()
      modifies this
      ensures Passed(old(at), StringEnd(old(Rest())), ok)
    {
      hide CharEnd;
      var start := at;
      while at < |text| && text[at] != '"'
        invariant start <= at <= |text|
        invariant StringEnd(old(Rest())) == Further(at - start, StringEnd(Rest()))
        decreases |text| - at
      {
        ghost var from := at;
        var read := StringChar();
        if !read {
          return false;
        }
        DropTwice(text, from, at - from);
      }
      ok := at < |text|;
      if ok {
        at := at + 1;
      }
    }

    method String() returns (r: Option<string>)
      requires Valid()
      modifies this
      ensures Took(ParseString(old(Rest())), r)
    {
      var start := at;
      hide StringEnd;
      if Peek() != Some('"') {
        return None;
      }
      at := at + 1;
      DropTwice(text, start, 1);
      var ok := StringTail();
      if !ok {
        return None;
      }
      DropTwice(text, start, at - start);
      TakeThenDrop(text, start, at);
      r := Some(text[start..at]);
    }

    method Whole() returns (ok: bool)
      requires Valid()
      modifies this
      ensures Passed(old(at), WholeEnd(old(Rest())), ok)
    {
      if Peek() == Some('0') {
        at := at + 1;
        return true;
      }
      ok := Digits();
    }

    method Fraction() returns (ok: bool)
      requires Valid()
      modifies this
      ensures Passed(old(at), FracEnd(old(Rest())), ok)
    {
      if Peek() != Some('.') {
        return true;
      }
      at := at + 1;
      DropTwice(text, at - 1, 1);
      ok := Digits();
    }

    method Exponent() returns (ok: bool)
      requires Valid()
      modifies this
      ensures Passed(old(at), ExpEnd(old(Rest())), ok)
    {
      ghost var start := at;
      if Peek() != Some('e') && Peek() != Some('E') {
        return true;
      }
      at := at + 1;
      if Peek() == Some('+') || Peek() == Some('-') {
        at := at + 1;
      }
      DropTwice(text, start, at - start);
      ok := Digits();
    }

    method Unsigned() returns (ok: bool)
      requires Valid()
      modifies this
      ensures Passed(old(at), UnsignedEnd(old(Rest())), ok)
    {
      hide WholeEnd, FracEnd, ExpEnd;
      ghost var start := at;
      ok := Whole();
      if ok {
        DropTwice(text, start, at - start);
        ghost var fraction := at;
        ok := Fraction();
        if ok {
          DropTwice(text, fraction, at - fraction);
          ok := Exponent();
        }
      }
    }

    method Number() returns (r: Option<string>)
      requires Valid()
      modifies this
      ensures Took(ParseNumber(old(Rest())), r)
    {
      hide UnsignedEnd;
      var start := at;
      if Peek() == Some('-') {
        at := at + 1;
      }
      DropTwice(text, start, at - start);
      var ok := Unsigned();
      if !ok {
        return None;
      }
      DropTwice(text, start, at - start);
      TakeThenDrop(text, start, at);
      r := Some(text[start..at]);
    }

    /** A value at the cursor, `depth` brackets down. */
    method Value(depth: nat) returns (r: Option<Json>)
      requires Valid()
      modifies this
      ensures Took(ParseValue(old(Rest()), depth), r)
      decreases MAX_JSON_DEPTH - depth + 1, 1
    {
      if depth > MAX_JSON_DEPTH {
        return None;
      }
      Space();
      ghost var s := Rest();
      if at == |text| {
        return None;
      }
      if text[at] == '{' {
        at := at + 1;
        assert Rest() == s[1..];
        r := Members(depth);
      } else if text[at] == '[' {
        at := at + 1;
        assert Rest() == s[1..];
        r := Items(depth);
      } else {
        r := Scalar();
      }
    }

    method Scalar() returns (r: Option<Json>)
      requires Valid() && at < |text|
      modifies this
      ensures Took(ParseScalar(old(Rest())), r)
    {
      if text[at] == '"' {
        var token := String();
        r := if token.Some? then Some(Json.String(token.value)) else None;
      } else if text[at] == 't' || text[at] == 'f' || text[at] == 'n' {
        var token := Word();
        r := if token.Some? then Some(Json.Literal(token.value)) else None;
      } else {
        var token := Number();
        r := if token.Some? then Some(Json.Number(token.value)) else None;
      }
    }

    method Word() returns (r: Option<string>)
      requires Valid()
      modifies this
      ensures Took(ParseLiteral(old(Rest())), r)
    {
      var rest := text[at..];
      var word := if "true" <= rest then "true"
                  else if "false" <= rest then "false"
                  else if "null" <= rest then "null" else "";
      if word == "" {
        return None;
      }
      at := at + |word|;
      r := Some(word);
    }

    /** What follows an opening brace. */
    method Members(depth: nat) returns (r: Option<Json>)
      requires Valid() && depth <= MAX_JSON_DEPTH
      modifies this
      ensures Took(AfterBrace(old(Rest()), depth), r)
      decreases MAX_JSON_DEPTH - depth + 1, 0
    {
      ghost var inside := Rest();
      var closed := Eat('}');
      if closed {
        return Some(Object([]));
      }
      var members: seq<Member> := [];
      MembersSkipWs(inside, depth);
      PrependNothing(ParseMembers(inside, depth));
      while true
        invariant Valid()
        invariant ParseMembers(inside, depth) == Prepend(members, ParseMembers(Rest(), depth))
        decreases |text| - at
      {
        var member := OneMember(depth);
        if member.None? {
          return None;
        }
        ghost var after := Rest();
        var comma := Eat(',');
        PrependTwice(members, [member.value], ParseMembers(Rest(), depth));
        members := members + [member.value];
        if !comma {
          SkipWsTwice(after);
          closed := Eat('}');
          r := if closed then Some(Object(members)) else None;
          return;
        }
      }
    }

    method OneMember(depth: nat) returns (r: Option<Member>)
      requires Valid() && depth <= MAX_JSON_DEPTH
      modifies this
      ensures Took(ParseMember(old(Rest()), depth), r)
      decreases MAX_JSON_DEPTH - depth, 2
    {
      Space();
      var key := String();
      if key.None? {
        return None;
      }
      var colon := Eat(':');
      if !colon {
        return None;
      }
      var v := Value(depth + 1);
      r := if v.None? then None else Some(Member(key.value, v.value));
    }

    /** What follows an opening bracket. */
    method Items(depth: nat) returns (r: Option<Json>)
      requires Valid() && depth <= MAX_JSON_DEPTH
      modifies this
      ensures Took(AfterBracket(old(Rest()), depth), r)
      decreases MAX_JSON_DEPTH - depth + 1, 0
    {
      ghost var inside := Rest();
      var closed := Eat(']');
      if closed {
        return Some(Array([]));
      }
      var items: seq<Json> := [];
      ItemsSkipWs(inside, depth);
      PrependNothing(ParseItems(inside, depth));
      while true
        invariant Valid()
        invariant ParseItems(inside, depth) == Prepend(items, ParseItems(Rest(), depth))
        decreases |text| - at
      {
        var v := Value(depth + 1);
        if v.None? {
          return None;
        }
        ghost var after := Rest();
        var comma := Eat(',');
        PrependTwice(items, [v.value], ParseItems(Rest(), depth));
        items := items + [v.value];
        if !comma {
          SkipWsTwice(after);
          closed := Eat(']');
          r := if closed then Some(Array(items)) else None;
          return;
        }
      }
    }
  }

  lemma SkipWsTwice(s: string)
    ensures SkipWs(SkipWs(s)) == SkipWs(s)
  {
  }

  lemma MembersSkipWs(s: string, depth: nat)
    requires depth <= MAX_JSON_DEPTH
    ensures ParseMembers(SkipWs(s), depth) == ParseMembers(s, depth)
  {
    SkipWsTwice(s);
    assert ParseMember(SkipWs(s), depth) == ParseMember(s, depth);
  }

  lemma ItemsSkipWs(s: string, depth: nat)
    requires depth <= MAX_JSON_DEPTH
    ensures ParseItems(SkipWs(s), depth) == ParseItems(s, depth)
  {
    SkipWsTwice(s);
    assert ParseValue(SkipWs(s), depth + 1) == ParseValue(s, depth + 1);
  }

  lemma PrependTwice<T>(a: seq<T>, b: seq<T>, r: Parsed<seq<T>>)
    ensures Prepend(a, Prepend(b, r)) == Prepend(a + b, r)
  {
    if r.Got? {
      assert a + (b + r.value) == a + b + r.value;
    }
  }

  lemma PrependNothing<T>(r: Parsed<seq<T>>)
    ensures Prepend([], r) == r
  {
    if r.Got? {
      assert [] + r.value == r.value;
    }
  }
}
