/**
 How copy.rs and exporter.rs write JSON, against what RFC 8259 says it means: the escaper
 and its reading back (section 7), and the number recogniser (section 6), which is written
 apart from the parser's and agrees with it.
 */
module JsonWriter {
  import opened Basics
  import opened JsonGrammar
  import opened JsonParser
  import opened JsonTheorems
  import opened Results

  function HexDigit(n: nat): (c: char)
    requires n < 16
    ensures IsHexDigit(c)
  {
    if n < 10 then '0' + n as char else 'a' + (n - 10) as char
  }

  /** `n` in four lower-case hexadecimal digits. */
  function Hex4(n: nat): (s: string)
    requires n < 0x10000
    ensures |s| == 4 && AllHex(s)
  {
    [HexDigit(n / 4096), HexDigit(n / 256 % 16), HexDigit(n / 16 % 16), HexDigit(n % 16)]
  }

  function Escaped(c: char): (s: string)
    ensures s != ""
  {
    if c == '"' then "\\\""
    else if c == '\\' then "\\\\"
    else if c == '\n' then "\\n"
    else if c == '\r' then "\\r"
    else if c == '\t' then "\\t"
    else if c < ' ' then "\\u" + Hex4(c as int)
    else [c]
  }

  function EscapedText(text: string): string {
    if text == "" then "" else Escaped(text[0]) + EscapedText(text[1..])
  }

  /** `text` as a JSON string. */
  function JsonString(text: string): string {
    "\"" + EscapedText(text) + "\""
  }

  method WriteJsonString(text: string) returns (out: string)
    ensures out == JsonString(text)
  {
    out := "\"";
    for i := 0 to |text|
      invariant out + EscapedText(text[i..]) == "\"" + EscapedText(text)
    {
      var c := text[i];
      assert text[i..][1..] == text[i + 1..];
      Assoc(out, Escaped(c), EscapedText(text[i + 1..]));
      if c == '"' {
        out := out + "\\\"";
      } else if c == '\\' {
        out := out + "\\\\";
      } else if c == '\n' {
        out := out + "\\n";
      } else if c == '\r' {
        out := out + "\\r";
      } else if c == '\t' {
        out := out + "\\t";
      } else if c < ' ' {
        out := out + ("\\u" + Hex4(c as int));
      } else {
        out := out + [c];
      }
    }
    assert text[|text|..] == "";
    out := out + "\"";
  }

  // What a string means, by section 7.

  function HexValue(c: char): (n: nat)
    requires IsHexDigit(c)
    ensures n < 16
  {
    if IsDigit(c) then c as int - '0' as int
    else if 'a' <= c <= 'f' then c as int - 'a' as int + 10
    else c as int - 'A' as int + 10
  }

  function Hex4Value(s: string): (n: nat)
    requires |s| == 4 && AllHex(s)
    ensures n < 0x10000
  {
    HexValue(s[0]) * 4096 + HexValue(s[1]) * 256 + HexValue(s[2]) * 16 + HexValue(s[3])
  }

  function SimpleMeaning(c: char): char
    requires SimpleEscape(c)
  {
    match c
    case 'b' => 8 as char
    case 'f' => 12 as char
    case 'n' => '\n'
    case 'r' => '\r'
    case 't' => '\t'
    case _ => c
  }

  function IsHighSurrogate(unit: nat): bool {
    0xD800 <= unit < 0xDC00
  }

  function IsLowSurrogate(unit: nat): bool {
    0xDC00 <= unit < 0xE000
  }

  /** Whether `s` starts with `\u` and four hexadecimal digits. */
  predicate IsUnitEscape(s: string) {
    |s| >= 6 && s[0] == '\\' && s[1] == 'u' && AllHex(s[2..6])
  }

  /**
   The characters between a string's quotes. A character outside the basic plane may be a pair
   of escapes; half a pair stands for no character.
   */
  function Meaning(body: string): Option<string> {
    if body == "" then Some("")
    else if IsUnitEscape(body) then
      var unit := Hex4Value(body[2..6]);
      var rest := body[6..];
      if IsHighSurrogate(unit) then
        if IsUnitEscape(rest) && IsLowSurrogate(Hex4Value(rest[2..6])) then
          var low := Hex4Value(rest[2..6]);
          After((0x10000 + (unit - 0xD800) * 0x400 + (low - 0xDC00)) as char, Meaning(rest[6..]))
        else None
      else if IsLowSurrogate(unit) then None
      else After(unit as char, Meaning(rest))
    else if body[0] == '\\' then
      if |body| >= 2 && SimpleEscape(body[1]) then After(SimpleMeaning(body[1]), Meaning(body[2..])) else None
    else if Unescaped(body[0]) then After(body[0], Meaning(body[1..]))
    else None
  }

  function After(c: char, rest: Option<string>): Option<string> {
    match rest
    case None => None
    case Some(text) => Some([c] + text)
  }

  /** What a whole string, quotes and all, means. */
  function Decoded(token: string): Option<string> {
    if |token| < 2 then None else Meaning(token[1..|token| - 1])
  }

  lemma HexRoundTrip(n: nat)
    requires n < 0x10000
    ensures Hex4Value(Hex4(n)) == n
  {
    Base16(n);
    DigitRoundTrip(n / 4096);
    DigitRoundTrip(n / 256 % 16);
    DigitRoundTrip(n / 16 % 16);
    DigitRoundTrip(n % 16);
  }

  lemma Base16(n: nat)
    ensures n == n / 4096 * 4096 + n / 256 % 16 * 256 + n / 16 % 16 * 16 + n % 16
  {
    assert n / 256 == n / 16 / 16 && n / 4096 == n / 256 / 16;
  }

  lemma DigitRoundTrip(n: nat)
    requires n < 16
    ensures HexValue(HexDigit(n)) == n
  {
  }

  /** One escaped character reads back, whatever follows. */
  lemma EscapedMeans(c: char, rest: string)
    ensures Meaning(Escaped(c) + rest) == After(c, Meaning(rest))
    ensures IsStringBody(rest) ==> IsStringBody(Escaped(c) + rest)
  {
    var s := Escaped(c) + rest;
    if c < ' ' && c != '\n' && c != '\r' && c != '\t' {
      var n := c as int;
      HexRoundTrip(n);
      assert s[2..6] == Hex4(n);
      assert s[6..] == rest;
    } else {
      assert s[|Escaped(c)|..] == rest;
    }
  }

  lemma {:induction false} EscapedTextMeans(text: string)
    ensures IsStringBody(EscapedText(text))
    ensures Meaning(EscapedText(text)) == Some(text)
  {
    if text != "" {
      hide IsStringBody, Meaning, Escaped;
      EscapedTextMeans(text[1..]);
      EscapedMeans(text[0], EscapedText(text[1..]));
      assert text == [text[0]] + text[1..];
    }
  }

  /** What `json_string` writes is a string of the grammar, and means the text it was given. */
  lemma JsonStringReadsBack(text: string)
    ensures IsString(JsonString(text)) && Decoded(JsonString(text)) == Some(text)
  {
    EscapedTextMeans(text);
    var s := JsonString(text);
    assert s[1..|s| - 1] == EscapedText(text);
  }

  // Numbers.

  /** Where the first `e`, `E` or (when `dot`) `.` of `s` is; its end if there is none. */
  function MarkAt(s: string, dot: bool): (n: nat)
    ensures n <= |s|
  {
    if s == "" || IsMark(s[0], dot) then 0 else 1 + MarkAt(s[1..], dot)
  }

  predicate IsMark(c: char, dot: bool) {
    c == 'e' || c == 'E' || (dot && c == '.')
  }

  /** `is_json_number`: cut at the marks, then look at each piece. */
  predicate IsJsonNumber(text: string) {
    var digits := if text != "" && text[0] == '-' then text[1..] else text;
    var cut := MarkAt(digits, true);
    var whole, rest := digits[..cut], digits[cut..];
    && (whole == "0" || (whole != "" && whole[0] != '0' && AllDigits(whole)))
    && IsJsonFraction(rest)
  }

  predicate IsJsonFraction(rest: string) {
    if rest != "" && rest[0] == '.' then
      var after := rest[1..];
      var cut := MarkAt(after, false);
      after[..cut] != "" && AllDigits(after[..cut]) && IsJsonExponent(after[cut..])
    else IsJsonExponent(rest)
  }

  predicate IsJsonExponent(exp: string) {
    if exp != "" && (exp[0] == 'e' || exp[0] == 'E') then
      var e := exp[1..];
      var digits := if e != "" && (e[0] == '+' || e[0] == '-') then e[1..] else e;
      digits != "" && AllDigits(digits)
    else exp == ""
  }

  lemma {:induction false} MarkAtOf(digits: string, rest: string, dot: bool)
    requires AllDigits(digits) && (rest == "" || IsMark(rest[0], dot))
    ensures MarkAt(digits + rest, dot) == |digits|
  {
    if digits == "" {
      assert digits + rest == rest;
    } else {
      assert (digits + rest)[1..] == digits[1..] + rest;
      MarkAtOf(digits[1..], rest, dot);
    }
  }

  lemma ExponentAgrees(exp: string)
    ensures IsJsonExponent(exp) <==> ExpPart(exp)
  {
    if exp != "" && |exp| > 1 {
      assert exp[1..][1..] == exp[2..];
    }
  }

  lemma FractionComplete(frac: string, exp: string)
    requires FracPart(frac) && ExpPart(exp)
    ensures IsJsonFraction(frac + exp)
    ensures frac + exp == "" || IsMark((frac + exp)[0], true)
  {
    ExponentAgrees(exp);
    if frac == "" {
      assert frac + exp == exp;
    } else {
      assert (frac + exp)[1..] == frac[1..] + exp;
      MarkAtOf(frac[1..], exp, false);
      DropOf(frac[1..], exp);
    }
  }

  lemma FractionSound(rest: string) returns (frac: string, exp: string)
    requires IsJsonFraction(rest)
    ensures FracPart(frac) && ExpPart(exp) && rest == frac + exp
  {
    if rest != "" && rest[0] == '.' {
      var after := rest[1..];
      var cut := MarkAt(after, false);
      frac, exp := "." + after[..cut], after[cut..];
      ExponentAgrees(exp);
      hide IsJsonExponent, ExpPart, MarkAt;
      assert frac[1..] == after[..cut];
      assert after == after[..cut] + after[cut..];
      assert rest == "." + after;
      Assoc(".", after[..cut], after[cut..]);
    } else {
      ExponentAgrees(rest);
      frac, exp := "", rest;
    }
  }

  /** The exporter's recogniser knows exactly the numbers of section 6. */
  lemma RecogniserIsTheGrammar(text: string)
    ensures IsJsonNumber(text) <==> IsNumber(text)
  {
    if IsNumber(text) {
      RecogniserComplete(text);
    }
    if IsJsonNumber(text) {
      RecogniserSound(text);
    }
  }

  lemma RecogniserComplete(text: string)
    requires IsNumber(text)
    ensures IsJsonNumber(text)
  {
    hide IsJsonFraction, FracPart, ExpPart;
    var minus, whole, frac, exp :| NumberParts(text, minus, whole, frac, exp);
    FractionComplete(frac, exp);
    MarkAtOf(whole, frac + exp, true);
    DropOf(whole, frac + exp);
    DropOf(minus, whole + (frac + exp));
    assert text[0] == if minus == "-" then '-' else whole[0];
  }

  lemma RecogniserSound(text: string)
    requires IsJsonNumber(text)
    ensures IsNumber(text)
  {
    hide IsJsonFraction, FracPart, ExpPart;
    var m := if text[0] == '-' then 1 else 0;
    var digits := text[m..];
    assert m == 0 ==> digits == text;
    var cut := MarkAt(digits, true);
    var frac, exp := FractionSound(digits[cut..]);
    assert text == text[..m] + (digits[..cut] + digits[cut..]);
    assert NumberParts(text, text[..m], digits[..cut], frac, exp);
  }

  /** `Parser::number` takes a whole text exactly when `is_json_number` accepts it. */
  lemma RecognisersAgree(text: string)
    ensures ParseNumber(text) == Got(text, "") <==> IsJsonNumber(text)
  {
    RecogniserIsTheGrammar(text);
    NumberIsTheGrammar(text);
  }

  // Values.

  /** A value in JSON: bare when the column holds numbers or booleans and the text is one. */
  function JsonValue(value: Cell, kind: ValueKind): string {
    match value
    case None => "null"
    case Some(v) =>
      if kind.IsNumeric() && IsJsonNumber(v) then v
      else if (v == "true" || v == "false") && kind == ValueKind.Bool then v
      else JsonString(v)
  }

  /** What `JsonValue` writes, as a value. */
  function JsonCell(value: Cell, kind: ValueKind): JsonGrammar.Json {
    match value
    case None => Literal("null")
    case Some(v) =>
      if kind.IsNumeric() && IsJsonNumber(v) then Number(v)
      else if (v == "true" || v == "false") && kind == ValueKind.Bool then Literal(v)
      else String(JsonString(v))
  }

  /** The text of a scalar, or `None` for `null`. */
  function ScalarCell(j: JsonGrammar.Json): Cell {
    match j
    case Literal(text) => if text == "null" then None else Some(text)
    case Number(text) => Some(text)
    case String(text) => Decoded(text)
    case _ => None
  }

  /** A cell is a number as it is exactly when its column holds numbers and RFC 8259 section 6 derives it, true or
      false as it is exactly when its column holds booleans, null when it is NULL, and a string otherwise. */
  lemma JsonKinds(value: Cell, kind: ValueKind)
    ensures var j := JsonCell(value, kind);
            && (j.Number? <==> value.Some? && (kind.Integer? || kind.Decimal? || kind.Float?) && IsNumber(value.value))
            && (j == Literal("null") <==> value.None?)
            && (j.Literal? && value.Some? <==>
                  kind.Bool? && (value == Some("true") || value == Some("false")))
            && (j.Number? || (j.Literal? && value.Some?) ==> j.text == value.value)
            && (j.Number? || j.Literal? || j.String?)
  {
    match value {
      case None =>
      case Some(v) => RecogniserIsTheGrammar(v);
    }
  }

  /** A cell's value is a scalar of the grammar that reads back as the cell. */
  lemma JsonCellReadsBack(value: Cell, kind: ValueKind)
    ensures IsScalarText(JsonCell(value, kind))
    ensures JsonCell(value, kind).text == JsonValue(value, kind) && Height(JsonCell(value, kind)) == 0
    ensures ScalarCell(JsonCell(value, kind)) == value
    ensures JsonCell(value, kind) == Literal("null") <==> value.None?
  {
    match value {
      case None =>
      case Some(v) =>
        RecogniserIsTheGrammar(v);
        JsonStringReadsBack(v);
    }
  }
}
