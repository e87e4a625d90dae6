/**
 Key chords (keymap.rs): how a key is compared, how a sequence of them is written, and how one
 is read. A terminal's key event carries a kind and a state as well, which a key of the keymap
 does not.
 */
module Keymap {
  import opened Basics
  import opened Decimal
  import opened Whitespace

  datatype KeyCode =
    | Char(c: char)
    | Enter | Esc | Tab | BackTab | Backspace | Delete | Insert
    | Left | Right | Up | Down | Home | End | PageUp | PageDown
    | F(n: nat)
    /** A key with no name of its own, written as its type's Debug form. */
    | Other(name: TypeName)

  datatype Modifiers = Modifiers(ctrl: bool, alt: bool, shift: bool, more: nat)

  datatype EventKind = Press | Repeat | Release

  datatype KeyEvent = KeyEvent(code: KeyCode, mods: Modifiers, kind: EventKind, state: nat)

  datatype Result<T> = Ok(value: T) | Err(message: string)

  const NONE := Modifiers(false, false, false, 0)

  /** A key press without lock states. */
  function Key(code: KeyCode, mods: Modifiers): KeyEvent {
    KeyEvent(code, mods, Press, 0)
  }

  function Lower(c: char): char {
    if IsUpper(c) then c + 32 as char else c
  }

  function Upper(c: char): char {
    if IsLower(c) then c - 32 as char else c
  }

  function LowerText(s: string): (lower: string)
    ensures |lower| == |s|
  {
    seq(|s|, i requires 0 <= i < |s| => Lower(s[i]))
  }

  const KEY_NAMES := {
    "esc", "escape", "enter", "return", "left", "right", "up", "down", "home", "end", "pageup", "pgup", "pagedown",
    "pgdn", "backtab", "tab", "backspace", "delete", "del", "insert", "ins", "space", "hyphen", "minus", "lt", "gt"
  }

  /** The Debug form of a key's type: a word without hyphens from a capital letter on, not F, that names no key. */
  predicate IsTypeName(name: string) {
    && |name| > 1 && IsUpper(name[0]) && name[0] != 'F' && '-' !in name && IsWord(name)
    && LowerText(name) !in KEY_NAMES
  }

  type TypeName = name: string | IsTypeName(name) witness ANullKey()

  function ANullKey(): (name: string)
    ensures IsTypeName(name)
  {
    NoKeyNameBegins("Null");
    "Null"
  }

  /** No key's name begins with these letters. */
  lemma NoKeyNameBegins(name: string)
    requires name != "" && (name[0] == 'C' || name[0] == 'K' || name[0] == 'N')
    ensures LowerText(name) !in KEY_NAMES
  {
    assert LowerText(name)[0] == Lower(name[0]);
    forall key | key in KEY_NAMES
      ensures key[0] != 'c' && key[0] != 'k' && key[0] != 'n'
    {
      NameBegins(key);
    }
  }

  lemma NameBegins(key: string)
    requires key in KEY_NAMES
    ensures key != "" && key[0] != 'c' && key[0] != 'k' && key[0] != 'n'
  {
  }

  /** What keys are compared by: the same press in each of the ways a terminal reports it. */
  function Normalise(key: KeyEvent): KeyEvent {
    var mods := key.mods.(more := 0);
    match key.code
    case Char(c) =>
      var kept := if mods.ctrl && mods.alt && !IsAlphanumeric(c) then mods.(ctrl := false, alt := false) else mods;
      if kept.ctrl then Key(Char(Lower(c)), kept) else Key(Char(c), kept.(shift := false))
    case BackTab => Key(BackTab, mods.(shift := true))
    case Tab => Key(if mods.shift then BackTab else Tab, mods)
    case other => Key(other, mods)
  }

  // Writing.

  function If(here: bool, text: string): string {
    if here then text else ""
  }

  function Prefix(mods: Modifiers): string {
    If(mods.ctrl, "ctrl-") + If(mods.alt, "alt-") + If(mods.shift, "shift-")
  }

  function NameOf(code: KeyCode): string {
    match code
    case Char(c) => if c == ' ' then "Space" else [c]
    case Enter => "Enter"
    case Esc => "Esc"
    case Tab => "Tab"
    case BackTab => "Tab"
    case Backspace => "Backspace"
    case Delete => "Del"
    case Insert => "Ins"
    case Left => "\U{2190}"
    case Right => "\U{2192}"
    case Up => "\U{2191}"
    case Down => "\U{2193}"
    case Home => "Home"
    case End => "End"
    case PageUp => "PgUp"
    case PageDown => "PgDn"
    case F(n) => "F" + Digits(n)
    case Other(name) => name
  }

  function KeyText(key: KeyEvent): string {
    var k := Normalise(key);
    Prefix(k.mods) + NameOf(k.code)
  }

  function ChordToString(chord: seq<KeyEvent>): string {
    Join(seq(|chord|, i requires 0 <= i < |chord| => KeyText(chord[i])), " ")
  }

  // Reading.

  /** What follows the modifiers `raw` starts with, and `mods` with those added. */
  function SplitModifiers(raw: string, mods: Modifiers): (string, Modifiers)
    decreases |raw|
  {
    var lower := LowerText(raw);
    if "ctrl-" <= lower && |raw| > 5 then SplitModifiers(raw[5..], mods.(ctrl := true))
    else if "alt-" <= lower && |raw| > 4 then SplitModifiers(raw[4..], mods.(alt := true))
    else if "shift-" <= lower && |raw| > 6 then SplitModifiers(raw[6..], mods.(shift := true))
    else (raw, mods)
  }

  method SplitOff(raw: string) returns (rest: string, mods: Modifiers)
    ensures (rest, mods) == SplitModifiers(raw, NONE)
  {
    rest, mods := raw, NONE;
    while true
      invariant SplitModifiers(rest, mods) == SplitModifiers(raw, NONE)
      decreases |rest|
    {
      var lower := LowerText(rest);
      if "ctrl-" <= lower && |rest| > 5 {
        mods, rest := mods.(ctrl := true), rest[5..];
      } else if "alt-" <= lower && |rest| > 4 {
        mods, rest := mods.(alt := true), rest[4..];
      } else if "shift-" <= lower && |rest| > 6 {
        mods, rest := mods.(shift := true), rest[6..];
      } else {
        return;
      }
    }
  }

  /** A number of at most eight bits, as the standard library reads one: a plus sign and leading zeros are allowed. */
  function ByteOf(s: string): Option<nat> {
    var digits := if s != "" && s[0] == '+' then s[1..] else s;
    if digits != "" && AllDigits(digits) && NumberOf(digits) <= 255 then Some(NumberOf(digits)) else None
  }

  /** The key named `lower`, which is in lower case. */
  function Named(lower: string, shift: bool): Option<KeyCode> {
    if lower == "esc" || lower == "escape" then Some(Esc)
    else if lower == "enter" || lower == "return" then Some(Enter)
    else if lower == "left" || lower == "\U{2190}" then Some(Left)
    else if lower == "right" || lower == "\U{2192}" then Some(Right)
    else if lower == "up" || lower == "\U{2191}" then Some(Up)
    else if lower == "down" || lower == "\U{2193}" then Some(Down)
    else if lower == "home" then Some(Home)
    else if lower == "end" then Some(End)
    else if lower == "pageup" || lower == "pgup" then Some(PageUp)
    else if lower == "pagedown" || lower == "pgdn" then Some(PageDown)
    else if lower == "backtab" then Some(BackTab)
    else if lower == "tab" then Some(if shift then BackTab else Tab)
    else if lower == "backspace" then Some(Backspace)
    else if lower == "delete" || lower == "del" then Some(Delete)
    else if lower == "insert" || lower == "ins" then Some(Insert)
    else if lower == "space" then Some(Char(' '))
    else if lower == "hyphen" || lower == "minus" then Some(Char('-'))
    else if lower == "lt" then Some(Char('<'))
    else if lower == "gt" then Some(Char('>'))
    else None
  }

  function ParseCode(raw: string, shift: bool): Option<KeyCode> {
    var lower := LowerText(raw);
    if Named(lower, shift).Some? then Named(lower, shift)
    else if |lower| > 1 && lower[0] == 'f' then
      match ByteOf(lower[1..])
      case None => None
      case Some(n) => if 1 <= n <= 12 then Some(F(n)) else None
    else if |raw| == 1 then Some(Char(if shift then Upper(raw[0]) else raw[0]))
    else None
  }

  predicate InBrackets(raw: string) {
    |raw| > 2 && raw[0] == '<' && raw[|raw| - 1] == '>'
  }

  function ParseKeyEvent(raw: string): Result<KeyEvent> {
    var bare := if InBrackets(raw) then raw[1..|raw| - 1] else raw;
    var (rest, mods) := SplitModifiers(bare, NONE);
    match ParseCode(rest, mods.shift)
    case None => Err("unknown key `" + bare + "`")
    case Some(code) => Ok(Normalise(Key(code, mods)))
  }

  predicate NoWhitespace(s: string) {
    forall i | 0 <= i < |s| :: !IsWhitespace(s[i])
  }

  /** The parts of `s` between the places where it says `><`. */
  function SplitAtBrackets(s: string): (parts: seq<string>)
    ensures parts != []
  {
    if |s| < 2 then [s]
    else if s[0] == '>' && s[1] == '<' then [""] + SplitAtBrackets(s[2..])
    else
      var parts := SplitAtBrackets(s[1..]);
      [[s[0]] + parts[0]] + parts[1..]
  }

  /** The keys as written, one by one. */
  function KeysOf(trimmed: string): seq<string> {
    if InBrackets(trimmed) && NoWhitespace(trimmed) then SplitAtBrackets(trimmed[1..|trimmed| - 1]) else Words(trimmed)
  }

  function ParseKeys(keys: seq<string>, raw: string): Result<seq<KeyEvent>> {
    if keys == [] then Ok([])
    else
      match ParseKeyEvent(keys[0])
      case Err(e) => Err("`" + raw + "`: " + e)
      case Ok(key) =>
        match ParseKeys(keys[1..], raw)
        case Err(e) => Err(e)
        case Ok(more) => Ok([key] + more)
  }

  function ParseKeySequence(raw: string): Result<seq<KeyEvent>> {
    if Trim(raw) == "" then Err("empty key") else ParseKeys(KeysOf(Trim(raw)), raw)
  }

  // What is proved.

  lemma NormaliseIsIdempotent(key: KeyEvent)
    ensures Normalise(Normalise(key)) == Normalise(key)
  {
  }

  // Which presses are the same.

  /** A character typed with AltGr, which is reported as Ctrl and Alt: none with a letter or a digit. */
  predicate ByAltGr(key: KeyEvent) {
    key.code.Char? && key.mods.ctrl && key.mods.alt && !IsAlphanumeric(key.code.c)
  }

  /** Alt is held, and Ctrl, apart from AltGr. */
  predicate Alt(key: KeyEvent) {
    key.mods.alt && !ByAltGr(key)
  }

  predicate Ctrl(key: KeyEvent) {
    key.mods.ctrl && !ByAltGr(key)
  }

  predicate TabKey(key: KeyEvent) {
    key.code.Tab? || key.code.BackTab?
  }

  /** Tab backwards: with Shift, or by a key of its own. */
  predicate Backwards(key: KeyEvent) {
    key.code.BackTab? || key.mods.shift
  }

  /**
   Two events are the same press when Ctrl and Alt are the same, but for AltGr, and the key is:
   - two characters without Ctrl are the same character, whether Shift is said or not;
   - two with Ctrl are the same letter in either case, or the same other character, and Shift
     is the same;
   - Tab with Shift and BackTab are one key;
   - any other two keys are the same key, and Shift is the same.
   What else there is of an event does not matter.
   */
  predicate SamePress(a: KeyEvent, b: KeyEvent) {
    && Ctrl(a) == Ctrl(b) && Alt(a) == Alt(b)
    && if a.code.Char? && b.code.Char? then
         if Ctrl(a) then Lower(a.code.c) == Lower(b.code.c) && a.mods.shift == b.mods.shift else a.code == b.code
       else if TabKey(a) && TabKey(b) then Backwards(a) == Backwards(b)
       else a.code == b.code && a.mods.shift == b.mods.shift
  }

  /** The form a press is compared in: lower case under Ctrl, Shift never said of a character without it nor left
      out of BackTab, and nothing else that events carry. */
  predicate Normal(key: KeyEvent) {
    && key.kind == Press && key.state == 0 && key.mods.more == 0 && !ByAltGr(key)
    && (key.code.Char? ==> if key.mods.ctrl then !IsUpper(key.code.c) else !key.mods.shift)
    && (TabKey(key) ==> (key.code.BackTab? <==> key.mods.shift))
  }

  /** Two events are normalised alike exactly when they are the same press. */
  lemma NormalisedAlike(a: KeyEvent, b: KeyEvent)
    ensures Normalise(a) == Normalise(b) <==> SamePress(a, b)
  {
    NormalisedIsThePress(a);
    NormalisedIsThePress(b);
    if SamePress(a, b) {
      PressesChain(Normalise(a), a, b);
      PressesChain(Normalise(a), b, Normalise(b));
      OneNormalForm(Normalise(a), Normalise(b));
    } else if Normalise(a) == Normalise(b) {
      PressesChain(a, Normalise(a), b);
    }
  }

  /** What normalising gives is the same press, in the one form. */
  lemma NormalisedIsThePress(key: KeyEvent)
    ensures SamePress(key, Normalise(key)) && SamePress(Normalise(key), key) && Normal(Normalise(key))
  {
  }

  /** A press has one such form. */
  lemma OneNormalForm(a: KeyEvent, b: KeyEvent)
    requires SamePress(a, b) && Normal(a) && Normal(b)
    ensures a == b
  {
    assert a.code.Char? && b.code.Char? && a.mods.ctrl ==> Lower(a.code.c) == a.code.c && Lower(b.code.c) == b.code.c;
  }

  lemma PressesChain(a: KeyEvent, b: KeyEvent, c: KeyEvent)
    requires SamePress(a, b) && SamePress(b, c)
    ensures SamePress(a, c)
  {
  }

  /** A key written so that it reads back. */
  predicate Writable(code: KeyCode) {
    ReadsAlone(code) && Solid(code)
  }

  predicate ReadsAlone(code: KeyCode) {
    match code
    case Char(c) => !IsArrow(c)
    case F(n) => 1 <= n <= 12
    case Other(_) => false
    case _ => true
  }

  /** The characters that the arrow keys are written as. */
  predicate IsArrow(c: char) {
    '\U{2190}' <= c <= '\U{2193}'
  }

  /** Written without white space. */
  predicate Solid(code: KeyCode) {
    code.Char? ==> code.c == ' ' || !IsWhitespace(code.c)
  }

  /** A name with no modifier at its start: a single character, or no hyphen in it. */
  predicate PlainName(name: string) {
    |name| == 1 || (name != "" && '-' !in name)
  }

  lemma SplitsNothing(name: string, mods: Modifiers)
    requires PlainName(name)
    ensures SplitModifiers(name, mods) == (name, mods)
  {
    var lower := LowerText(name);
    assert |name| > 5 ==> name[4] != '-' && lower[4] != '-';
    assert |name| > 4 ==> name[3] != '-' && lower[3] != '-';
    assert |name| > 6 ==> name[5] != '-' && lower[5] != '-';
    assert "ctrl-"[4] == "alt-"[3] == "shift-"[5] == '-';
  }

  lemma LowerConcat(a: string, b: string)
    ensures LowerText(a + b) == LowerText(a) + LowerText(b)
  {
  }

  lemma StartsWith(prefix: string, rest: string)
    requires LowerText(prefix) == prefix
    ensures prefix <= LowerText(prefix + rest)
  {
    LowerConcat(prefix, rest);
  }

  lemma NotCtrl(raw: string)
    requires raw != "" && raw[0] != 'c' && raw[0] != 'C'
    ensures !("ctrl-" <= LowerText(raw))
  {
    assert LowerText(raw)[0] != "ctrl-"[0];
  }

  lemma NotAlt(raw: string)
    requires raw != "" && raw[0] != 'a' && raw[0] != 'A'
    ensures !("alt-" <= LowerText(raw))
  {
    assert LowerText(raw)[0] != "alt-"[0];
  }

  lemma SplitsOne(rest: string, mods: Modifiers)
    requires rest != ""
    ensures SplitModifiers("ctrl-" + rest, mods) == SplitModifiers(rest, mods.(ctrl := true))
    ensures SplitModifiers("alt-" + rest, mods) == SplitModifiers(rest, mods.(alt := true))
    ensures SplitModifiers("shift-" + rest, mods) == SplitModifiers(rest, mods.(shift := true))
  {
    assert LowerText("ctrl-") == "ctrl-" && LowerText("alt-") == "alt-" && LowerText("shift-") == "shift-";
    StartsWith("ctrl-", rest);
    StartsWith("alt-", rest);
    StartsWith("shift-", rest);
    NotCtrl("alt-" + rest);
    NotCtrl("shift-" + rest);
    NotAlt("shift-" + rest);
    hide LowerText;
    assert ("ctrl-" + rest)[5..] == rest && ("alt-" + rest)[4..] == rest && ("shift-" + rest)[6..] == rest;
  }

  /** No modifier is taken off `name`. */
  ghost predicate Unsplit(name: string) {
    name != "" && forall mods :: SplitModifiers(name, mods) == (name, mods)
  }

  lemma PlainIsUnsplit(name: string)
    requires PlainName(name)
    ensures Unsplit(name)
  {
    forall mods
      ensures SplitModifiers(name, mods) == (name, mods)
    {
      SplitsNothing(name, mods);
    }
  }

  lemma SplitsMaybe(here: bool, rest: string, mods: Modifiers)
    requires rest != ""
    ensures SplitModifiers(If(here, "ctrl-") + rest, mods)
            == SplitModifiers(rest, if here then mods.(ctrl := true) else mods)
    ensures SplitModifiers(If(here, "alt-") + rest, mods)
            == SplitModifiers(rest, if here then mods.(alt := true) else mods)
    ensures SplitModifiers(If(here, "shift-") + rest, mods)
            == SplitModifiers(rest, if here then mods.(shift := true) else mods)
  {
    hide SplitModifiers;
    SplitsOne(rest, mods);
    assert "" + rest == rest;
  }

  /** Written modifiers are read back. */
  lemma SplitsPrefix(mods: Modifiers, name: string)
    requires mods.more == 0 && Unsplit(name)
    ensures SplitModifiers(Prefix(mods) + name, NONE) == (name, mods)
  {
    hide SplitModifiers;
    var ctrl, alt, shift := If(mods.ctrl, "ctrl-"), If(mods.alt, "alt-"), If(mods.shift, "shift-");
    assert Prefix(mods) + name == ctrl + (alt + (shift + name)) by {
      Assoc(ctrl + alt, shift, name);
      Assoc(ctrl, alt, shift + name);
    }
    hide If;
    SplitsMaybe(mods.ctrl, alt + (shift + name), NONE);
    SplitsMaybe(mods.alt, shift + name, NONE.(ctrl := mods.ctrl));
    SplitsMaybe(mods.shift, name, NONE.(ctrl := mods.ctrl, alt := mods.alt));
  }

  // Names.

  lemma FunctionKeyReads(n: nat, shift: bool)
    ensures ParseCode("F" + Digits(n), shift) == if 1 <= n <= 12 then Some(F(n)) else None
  {
    hide LowerText, Named, Digits, NumberOf, AllDigits;
    DigitsRead(n);
    var lower := LowerText("F" + Digits(n));
    LowerOfF(Digits(n));
    NamesStartOtherwise(lower, shift);
    assert IsDigit(lower[1..][0]);
  }

  lemma LowerOfF(digits: string)
    requires AllDigits(digits) && digits != ""
    ensures var lower := LowerText("F" + digits);
            |lower| > 1 && lower[0] == 'f' && lower[1..] == digits && IsDigit(digits[0])
  {
    var lower := LowerText("F" + digits);
    assert forall i | 0 <= i < |digits| :: IsDigit(digits[i]) && lower[1..][i] == Lower(digits[i]);
  }

  lemma NamesStartOtherwise(lower: string, shift: bool)
    requires lower != "" && lower[0] == 'f'
    ensures Named(lower, shift) == None
  {
  }

  lemma OneCharacterReads(c: char, shift: bool)
    ensures ParseCode([c], shift) == if IsArrow(c) then Named([c], shift) else Some(Char(if shift then Upper(c) else c))
    ensures IsArrow(c) ==> Named([c], shift).Some? && !Named([c], shift).value.Char?
  {
    assert LowerText([c]) == [Lower(c)];
    hide LowerText;
    assert Named([Lower(c)], shift).Some? <==> IsArrow(c) by { OnlyArrowsAreNamed(Lower(c), shift); }
    OnlyArrowsAreNamed(c, shift);
  }

  lemma OnlyArrowsAreNamed(c: char, shift: bool)
    ensures Named([c], shift).Some? <==> IsArrow(c)
    ensures IsArrow(c) ==> !Named([c], shift).value.Char?
  {
    assert IsArrow(c) ==> c == '\U{2190}' || c == '\U{2191}' || c == '\U{2192}' || c == '\U{2193}';
  }

  /** The keys written by a name of their own, and by no number. */
  predicate HasName(code: KeyCode) {
    !code.F? && !code.Other? && (code.Char? ==> code.c == ' ')
  }

  lemma NamedKeyReads(code: KeyCode, shift: bool)
    requires HasName(code)
    ensures ParseCode(NameOf(code), shift)
            == Some(if code.Tab? || code.BackTab? then if shift then BackTab else Tab else code)
  {
    NameLower(code);
    hide LowerText, NameOf;
  }

  /** What the name of a key is in lower case. */
  lemma NameLower(code: KeyCode)
    requires HasName(code)
    ensures LowerText(NameOf(code)) == match code
                                       case Enter => "enter"
                                       case Esc => "esc"
                                       case Tab => "tab"
                                       case BackTab => "tab"
                                       case Backspace => "backspace"
                                       case Delete => "del"
                                       case Insert => "ins"
                                       case Left => "\U{2190}"
                                       case Right => "\U{2192}"
                                       case Up => "\U{2191}"
                                       case Down => "\U{2193}"
                                       case Home => "home"
                                       case End => "end"
                                       case PageUp => "pgup"
                                       case PageDown => "pgdn"
                                       case _ => "space"
  {
  }

  lemma NameIsPlain(code: KeyCode)
    ensures PlainName(NameOf(code))
  {
    match code {
      case F(n) =>
        DigitsRead(n);
        assert forall i | 0 <= i < |Digits(n)| :: IsDigit(Digits(n)[i]);
      case _ =>
    }
  }

  /** The names of types are not read as keys, and no letter of theirs begins a bracket. */
  lemma TypeNameReads(name: TypeName, shift: bool)
    ensures ParseCode(name, shift) == None
  {
    var lower := LowerText(name);
    assert lower[0] == Lower(name[0]) && lower[0] != 'f';
    hide LowerText;
    NamedIsKeyName(lower, shift);
    hide Named;
  }

  lemma NamedIsKeyName(lower: string, shift: bool)
    requires |lower| > 1
    ensures Named(lower, shift).Some? ==> lower in KEY_NAMES
  {
  }

  /** Such names are those of the keys a terminal may report besides. */
  lemma TypeNamesThereAre()
    ensures IsTypeName("CapsLock") && IsTypeName("Media(Play)")
  {
    NoKeyNameBegins("CapsLock");
    NoKeyNameHasBrackets("Media(Play)", 5);
    hide LowerText;
  }

  lemma NoKeyNameHasBrackets(name: string, i: nat)
    requires i < |name| && name[i] == '(' && i > 4
    ensures LowerText(name) !in KEY_NAMES
  {
    assert LowerText(name)[i] == '(';
    hide LowerText;
    forall key | key in KEY_NAMES && i < |key|
      ensures key[i] != '('
    {
      NameIsLetters(key, i);
    }
  }

  lemma NameIsLetters(key: string, i: nat)
    requires key in KEY_NAMES && 4 < i < |key|
    ensures key[i] != '('
  {
  }

  /** A key's text is not taken for one in brackets. */
  lemma NotInBrackets(key: KeyEvent)
    ensures !InBrackets(Prefix(key.mods) + NameOf(key.code))
  {
    var prefix := Prefix(key.mods);
    if prefix == "" {
      assert prefix + NameOf(key.code) == NameOf(key.code);
    } else {
      assert prefix[0] == 'c' || prefix[0] == 'a' || prefix[0] == 's';
    }
  }

  /** One key, written and read: it comes back exactly when it is one of those that can be written. */
  lemma KeyReadsBack(key: KeyEvent)
    requires key == Normalise(key)
    ensures ParseKeyEvent(KeyText(key)) == Ok(key) <==> ReadsAlone(key.code)
  {
    NotInBrackets(key);
    NameIsPlain(key.code);
    PlainIsUnsplit(NameOf(key.code));
    SplitsPrefix(key.mods, NameOf(key.code));
    CodeReads(key);
    hide Prefix, NameOf, SplitModifiers, ParseCode, Normalise;
  }

  lemma CodeReads(key: KeyEvent)
    requires key == Normalise(key)
    ensures var read := ParseCode(NameOf(key.code), key.mods.shift);
            (read.Some? && Normalise(Key(read.value, key.mods)) == key) <==> ReadsAlone(key.code)
  {
    match key.code {
      case F(n) => FunctionKeyReads(n, key.mods.shift);
      case Other(name) =>
        TypeNameReads(name, key.mods.shift);
        hide ParseCode, Named;
      case Char(c) =>
        if c == ' ' {
          NamedKeyReads(key.code, key.mods.shift);
        } else {
          OneCharacterReads(c, key.mods.shift);
          hide ParseCode, Named;
        }
      case _ =>
        NamedKeyReads(key.code, key.mods.shift);
        hide ParseCode, Named;
    }
  }

  // What is read of a text, and what is written of a key, name by name.

  /** The name is read as the key, with Shift or without. */
  predicate ReadsAs(name: string, code: KeyCode) {
    ParseCode(name, false) == Some(code) && ParseCode(name, true) == Some(code)
  }

  lemma EscapeReads()
    ensures ReadsAs("esc", Esc) && ReadsAs("escape", Esc)
  {
    assert LowerText("esc") == "esc" && "esc"[0] == 'e' && "esc"[1] == 's' && "esc"[2] == 'c';
    assert LowerText("escape") == "escape" && "escape"[0] == 'e' && "escape"[1] == 's' && "escape"[2] == 'c';
    hide LowerText;
  }

  lemma EnterReads()
    ensures ReadsAs("enter", Enter) && ReadsAs("return", Enter)
  {
    assert LowerText("enter") == "enter" && "enter"[0] == 'e' && "enter"[1] == 'n' && "enter"[2] == 't';
    assert LowerText("return") == "return" && "return"[0] == 'r' && "return"[1] == 'e' && "return"[2] == 't';
    hide LowerText;
  }

  lemma LeftReads()
    ensures ReadsAs("left", Left) && ReadsAs("\U{2190}", Left)
  {
    assert LowerText("left") == "left" && "left"[0] == 'l' && "left"[1] == 'e' && "left"[2] == 'f';
    assert LowerText("\U{2190}") == "\U{2190}";
    hide LowerText;
  }

  lemma RightReads()
    ensures ReadsAs("right", Right) && ReadsAs("\U{2192}", Right)
  {
    assert LowerText("right") == "right" && "right"[0] == 'r' && "right"[1] == 'i' && "right"[2] == 'g';
    assert LowerText("\U{2192}") == "\U{2192}";
    hide LowerText;
  }

  lemma UpReads()
    ensures ReadsAs("up", Up) && ReadsAs("\U{2191}", Up)
  {
    assert LowerText("up") == "up" && "up"[0] == 'u' && "up"[1] == 'p';
    assert LowerText("\U{2191}") == "\U{2191}";
    hide LowerText;
  }

  lemma DownReads()
    ensures ReadsAs("down", Down) && ReadsAs("\U{2193}", Down)
  {
    assert LowerText("down") == "down" && "down"[0] == 'd' && "down"[1] == 'o' && "down"[2] == 'w';
    assert LowerText("\U{2193}") == "\U{2193}";
    hide LowerText;
  }

  lemma EndsRead()
    ensures ReadsAs("home", Home) && ReadsAs("end", End)
  {
    assert LowerText("home") == "home" && "home"[0] == 'h' && "home"[1] == 'o' && "home"[2] == 'm';
    assert LowerText("end") == "end" && "end"[0] == 'e' && "end"[1] == 'n' && "end"[2] == 'd';
    hide LowerText;
  }

  lemma PageUpReads()
    ensures ReadsAs("pageup", PageUp) && ReadsAs("pgup", PageUp)
  {
    assert LowerText("pageup") == "pageup" && "pageup"[0] == 'p' && "pageup"[1] == 'a' && "pageup"[2] == 'g';
    assert LowerText("pgup") == "pgup" && "pgup"[0] == 'p' && "pgup"[1] == 'g' && "pgup"[2] == 'u';
    hide LowerText;
  }

  lemma PageDownReads()
    ensures ReadsAs("pagedown", PageDown) && ReadsAs("pgdn", PageDown)
  {
    assert LowerText("pagedown") == "pagedown" && "pagedown"[0] == 'p' && "pagedown"[1] == 'a' && "pagedown"[2] == 'g';
    assert LowerText("pgdn") == "pgdn" && "pgdn"[0] == 'p' && "pgdn"[1] == 'g' && "pgdn"[2] == 'd';
    hide LowerText;
  }

  lemma BacksRead()
    ensures ReadsAs("backtab", BackTab) && ReadsAs("backspace", Backspace)
  {
    assert LowerText("backtab") == "backtab" && "backtab"[0] == 'b' && "backtab"[1] == 'a' && "backtab"[2] == 'c';
    assert LowerText("backspace") == "backspace";
    assert "backspace"[0] == 'b' && "backspace"[1] == 'a' && "backspace"[2] == 'c';
    hide LowerText;
  }

  lemma DeleteReads()
    ensures ReadsAs("delete", Delete) && ReadsAs("del", Delete)
  {
    assert LowerText("delete") == "delete" && "delete"[0] == 'd' && "delete"[1] == 'e' && "delete"[2] == 'l';
    assert LowerText("del") == "del" && "del"[0] == 'd' && "del"[1] == 'e' && "del"[2] == 'l';
    hide LowerText;
  }

  lemma InsertReads()
    ensures ReadsAs("insert", Insert) && ReadsAs("ins", Insert)
  {
    assert LowerText("insert") == "insert" && "insert"[0] == 'i' && "insert"[1] == 'n' && "insert"[2] == 's';
    assert LowerText("ins") == "ins" && "ins"[0] == 'i' && "ins"[1] == 'n' && "ins"[2] == 's';
    hide LowerText;
  }

  lemma HyphenReads()
    ensures ReadsAs("hyphen", Char('-')) && ReadsAs("minus", Char('-'))
  {
    assert LowerText("hyphen") == "hyphen" && "hyphen"[0] == 'h' && "hyphen"[1] == 'y' && "hyphen"[2] == 'p';
    assert LowerText("minus") == "minus" && "minus"[0] == 'm' && "minus"[1] == 'i' && "minus"[2] == 'n';
    hide LowerText;
  }

  lemma AnglesRead()
    ensures ReadsAs("lt", Char('<')) && ReadsAs("gt", Char('>'))
  {
    assert LowerText("lt") == "lt" && "lt"[0] == 'l' && "lt"[1] == 't';
    assert LowerText("gt") == "gt" && "gt"[0] == 'g' && "gt"[1] == 't';
    hide LowerText;
  }

  lemma SpaceReads()
    ensures ReadsAs("space", Char(' '))
  {
    assert LowerText("space") == "space" && "space"[0] == 's' && "space"[1] == 'p' && "space"[2] == 'a';
    hide LowerText;
  }

  lemma TabReads()
    ensures ParseCode("tab", false) == Some(Tab) && ParseCode("tab", true) == Some(BackTab)
  {
    assert LowerText("tab") == "tab" && "tab"[0] == 't';
    hide LowerText;
  }

  /** Every name that is read, and the key it is read as; `tab` after `shift-` is the key for Tab backwards. */
  lemma NamesRead()
    ensures ReadsAs("esc", Esc) && ReadsAs("escape", Esc)
    ensures ReadsAs("enter", Enter) && ReadsAs("return", Enter)
    ensures ReadsAs("left", Left) && ReadsAs("\U{2190}", Left)
    ensures ReadsAs("right", Right) && ReadsAs("\U{2192}", Right)
    ensures ReadsAs("up", Up) && ReadsAs("\U{2191}", Up)
    ensures ReadsAs("down", Down) && ReadsAs("\U{2193}", Down)
    ensures ReadsAs("home", Home) && ReadsAs("end", End)
    ensures ReadsAs("pageup", PageUp) && ReadsAs("pgup", PageUp)
    ensures ReadsAs("pagedown", PageDown) && ReadsAs("pgdn", PageDown)
    ensures ReadsAs("backtab", BackTab) && ReadsAs("backspace", Backspace)
    ensures ReadsAs("delete", Delete) && ReadsAs("del", Delete)
    ensures ReadsAs("insert", Insert) && ReadsAs("ins", Insert)
    ensures ReadsAs("hyphen", Char('-')) && ReadsAs("minus", Char('-'))
    ensures ReadsAs("lt", Char('<')) && ReadsAs("gt", Char('>'))
    ensures ReadsAs("space", Char(' '))
    ensures ParseCode("tab", false) == Some(Tab) && ParseCode("tab", true) == Some(BackTab)
  {
    hide ReadsAs, ParseCode;
    EscapeReads();
    EnterReads();
    LeftReads();
    RightReads();
    UpReads();
    DownReads();
    EndsRead();
    PageUpReads();
    PageDownReads();
    BacksRead();
    DeleteReads();
    InsertReads();
    HyphenReads();
    AnglesRead();
    SpaceReads();
    TabReads();
  }

  /** Names are read in any case. */
  lemma CaseOfANameIsNothing(raw: string, other: string, shift: bool)
    requires |raw| > 1 && LowerText(raw) == LowerText(other)
    ensures ParseCode(raw, shift) == ParseCode(other, shift)
  {
    assert |raw| == |LowerText(raw)| == |other|;
    hide LowerText, Named, ByteOf;
  }

  /** The names that are written. */
  lemma NamesWritten()
    ensures NameOf(Enter) == "Enter" && NameOf(Esc) == "Esc" && NameOf(Tab) == "Tab" && NameOf(BackTab) == "Tab"
    ensures NameOf(Backspace) == "Backspace" && NameOf(Delete) == "Del" && NameOf(Insert) == "Ins"
    ensures forall c :: NameOf(Char(c)) == if c == ' ' then "Space" else [c]
  {
  }

  lemma DirectionsWritten()
    ensures NameOf(Left) == "\U{2190}" && NameOf(Right) == "\U{2192}"
    ensures NameOf(Up) == "\U{2191}" && NameOf(Down) == "\U{2193}"
    ensures NameOf(Home) == "Home" && NameOf(End) == "End" && NameOf(PageUp) == "PgUp" && NameOf(PageDown) == "PgDn"
  {
  }

  /** Modifiers before a name are read as exactly those, whatever key it names; `Normalise` says what press that is. */
  lemma ModifiersAreRead(ctrl: bool, alt: bool, shift: bool, name: string, code: KeyCode)
    requires PlainName(name) && ParseCode(name, shift) == Some(code) && name[0] != '<'
    ensures var text := (if ctrl then "ctrl-" else "") + (if alt then "alt-" else "")
                        + (if shift then "shift-" else "");
            ParseKeyEvent(text + name) == Ok(Normalise(Key(code, Modifiers(ctrl, alt, shift, 0))))
  {
    hide SplitModifiers, Unsplit, ParseCode, Normalise;
    var mods := Modifiers(ctrl, alt, shift, 0);
    PlainIsUnsplit(name);
    SplitsPrefix(mods, name);
    assert Unsplit(name) ==> name != "" by { UnsplitIsThere(name); }
    if Prefix(mods) == "" {
      assert Prefix(mods) + name == name;
    }
    assert (Prefix(mods) + name)[0] != '<';
  }

  lemma UnsplitIsThere(name: string)
    ensures Unsplit(name) ==> name != ""
  {
  }

  /** So a character after `alt-` is that character with Alt, and after nothing the character alone. */
  lemma CharactersAreRead(c: char)
    requires !IsArrow(c) && c != '<'
    ensures ParseKeyEvent([c]) == Ok(KeyEvent(Char(c), NONE, Press, 0))
    ensures ParseKeyEvent("alt-" + [c]) == Ok(KeyEvent(Char(c), NONE.(alt := true), Press, 0))
    ensures ParseKeyEvent("ctrl-" + [c]) == Ok(KeyEvent(Char(Lower(c)), NONE.(ctrl := true), Press, 0))
    ensures ParseKeyEvent("shift-" + [c]) == Ok(KeyEvent(Char(Upper(c)), NONE, Press, 0))
  {
    OneCharacterReads(c, false);
    OneCharacterReads(c, true);
    hide ParseKeyEvent, ParseCode, IsArrow;
    ModifiersAreRead(false, false, false, [c], Char(c));
    ModifiersAreRead(false, true, false, [c], Char(c));
    ModifiersAreRead(true, false, false, [c], Char(c));
    ModifiersAreRead(false, false, true, [c], Char(Upper(c)));
    assert "" + "" + "" + [c] == [c] && "" + "alt-" + "" + [c] == "alt-" + [c];
    assert "ctrl-" + "" + "" + [c] == "ctrl-" + [c] && "" + "" + "shift-" + [c] == "shift-" + [c];
  }

  /** Letters go in pairs, an upper-case one and a lower-case one as far from their alphabet's start; other characters
      have no case. */
  lemma LettersPair(c: char)
    ensures if IsLower(c) then IsUpper(Upper(c)) && Upper(c) as int - 'A' as int == c as int - 'a' as int
            else Upper(c) == c
    ensures if IsUpper(c) then IsLower(Lower(c)) && Lower(c) as int - 'a' as int == c as int - 'A' as int
            else Lower(c) == c
  {
  }

  // The two spellings of a sequence.

  /** A key as either spelling may have it. */
  predicate KeyWord(key: string) {
    IsWord(key) && '<' !in key && '>' !in key
  }

  lemma {:induction false} BracketsSplit(key: string, rest: string)
    requires '<' !in key && '>' !in key
    ensures SplitAtBrackets(key + "><" + rest) == [key] + SplitAtBrackets(rest)
    ensures SplitAtBrackets(key) == [key]
    decreases |key|
  {
    var s := key + "><" + rest;
    if key == "" {
      assert s[2..] == rest;
    } else {
      BracketsSplit(key[1..], rest);
      assert s[0] == key[0] && s[1..] == key[1..] + "><" + rest;
      assert key == [key[0]] + key[1..];
    }
  }

  lemma {:induction false} BracketedKeys(keys: seq<string>)
    requires keys != [] && forall key | key in keys :: KeyWord(key)
    ensures SplitAtBrackets(Join(keys, "><")) == keys
  {
    assert KeyWord(keys[0]);
    if |keys| == 1 {
      BracketsSplit(keys[0], "");
      assert [keys[0]] == keys;
    } else {
      BracketedKeys(keys[1..]);
      BracketsSplit(keys[0], Join(keys[1..], "><"));
      assert [keys[0]] + keys[1..] == keys;
    }
  }

  lemma {:induction false} JoinIsSolid(keys: seq<string>)
    requires forall key | key in keys :: KeyWord(key)
    ensures NoWhitespace(Join(keys, "><"))
  {
    if |keys| > 0 {
      assert KeyWord(keys[0]);
      if |keys| > 1 {
        JoinIsSolid(keys[1..]);
      }
    }
  }

  lemma {:induction false} SpacedKeys(keys: seq<string>)
    requires forall key | key in keys :: KeyWord(key)
    ensures Words(Join(keys, " ")) == keys
  {
    hide Words, IsWord;
    if |keys| == 0 {
      NoWords();
    } else {
      assert IsWord(keys[0]) by { assert KeyWord(keys[0]); }
      WordsOfWord(keys[0]);
      if |keys| > 1 {
        SpacedKeys(keys[1..]);
        WordsApart(keys[0], ' ', Join(keys[1..], " "));
        assert keys[0] + " " + Join(keys[1..], " ") == keys[0] + [' '] + Join(keys[1..], " ");
      }
    }
  }

  /** Keys each in angle brackets, or with spaces between, are read as the same keys. */
  lemma TwoSpellings(keys: seq<string>)
    requires keys != [] && forall key | key in keys :: KeyWord(key)
    ensures var bracketed, spaced := "<" + Join(keys, "><") + ">", Join(keys, " ");
            && ParseKeySequence(bracketed) == ParseKeys(keys, bracketed)
            && ParseKeySequence(spaced) == ParseKeys(keys, spaced)
  {
    var inside := Join(keys, "><");
    var bracketed, spaced := "<" + inside + ">", Join(keys, " ");
    JoinIsSolid(keys);
    assert KeyWord(keys[0]);
    assert inside != "" by { JoinIsThere(keys); }
    assert bracketed[1..|bracketed| - 1] == inside;
    assert Trim(bracketed) == bracketed;
    BracketedKeys(keys);
    SpacedKeys(keys);
    TrimKeepsWords(spaced);
    SpacedIsTrim(keys);
    hide Words, Trim, ParseKeys;
  }

  lemma JoinIsThere(keys: seq<string>)
    requires keys != [] && KeyWord(keys[0])
    ensures Join(keys, "><") != "" && Join(keys, " ") != "" && Join(keys, " ")[0] == keys[0][0]
  {
  }

  lemma SpacedIsTrim(keys: seq<string>)
    requires keys != [] && forall key | key in keys :: KeyWord(key)
    ensures var text := Trim(Join(keys, " "));
            text != "" && Words(text) == keys && KeysOf(text) == keys
  {
    var text := Trim(Join(keys, " "));
    SpacedKeys(keys);
    TrimKeepsWords(Join(keys, " "));
    assert Words(text) == keys;
    hide Trim;
    forall word | word in Words(text)
      ensures !InBrackets(word)
    {
      assert KeyWord(word);
    }
    NotInBracketsWhole(text);
  }

  // The words of a written chord.

  lemma PrefixIsSolid(mods: Modifiers)
    ensures NoWhitespace(Prefix(mods))
    ensures Prefix(mods) != "" ==> Prefix(mods)[0] != '<'
  {
  }

  lemma NameIsSolid(code: KeyCode)
    requires Solid(code)
    ensures IsWord(NameOf(code))
  {
    match code {
      case F(n) =>
        DigitsRead(n);
        assert forall i | 0 <= i < |Digits(n)| :: IsDigit(Digits(n)[i]);
      case _ =>
    }
  }

  lemma TextWords(key: KeyEvent)
    requires key == Normalise(key)
    ensures var prefix := Prefix(key.mods);
            Words(KeyText(key)) == if Solid(key.code) then [KeyText(key)] else if prefix == "" then [] else [prefix]
  {
    hide Prefix, Normalise, NameOf, Words;
    var prefix := Prefix(key.mods);
    PrefixIsSolid(key.mods);
    if Solid(key.code) {
      NameIsSolid(key.code);
      WordsOfWord(prefix + NameOf(key.code));
    } else {
      var c := key.code.c;
      assert NameOf(key.code) == [c] by { NameOfCharacter(c); }
      WordsApart(prefix, c, "");
      assert prefix + [c] + "" == prefix + [c];
      assert Words("") == [] by { NoWords(); }
      if prefix != "" {
        WordsOfWord(prefix);
      } else {
        assert prefix == "";
      }
    }
  }

  lemma NameOfCharacter(c: char)
    requires c != ' '
    ensures NameOf(Char(c)) == [c]
  {
  }

  lemma NoWords()
    ensures Words("") == []
  {
  }

  /** Modifiers with nothing after them are no key. */
  lemma PrefixIsNoKey(mods: Modifiers)
    requires mods.more == 0 && Prefix(mods) != ""
    ensures ParseKeyEvent(Prefix(mods)).Err?
  {
    PrefixIsSolid(mods);
    var last := if mods.shift then "shift-" else if mods.alt then "alt-" else "ctrl-";
    var before := if mods.shift then mods.(shift := false)
                  else if mods.alt then mods.(alt := false)
                  else mods.(ctrl := false);
    assert Prefix(mods) == Prefix(before) + last;
    LastPrefix(last);
    SplitsPrefix(before, last);
    hide Prefix, SplitModifiers, ParseCode;
  }

  lemma LastPrefix(last: string)
    requires last == "ctrl-" || last == "alt-" || last == "shift-"
    ensures Unsplit(last)
    ensures forall shift :: ParseCode(last, shift) == None
  {
    hide ParseCode;
    assert LowerText(last) == last;
    assert !("alt-" <= "ctrl-") by { assert "alt-"[0] != "ctrl-"[0]; }
    assert !("ctrl-" <= "shift-") by { assert "ctrl-"[0] != "shift-"[0]; }
    assert !("alt-" <= "shift-") by { assert "alt-"[0] != "shift-"[0]; }
    forall shift
      ensures ParseCode(last, shift) == None
    {
      HyphenIsNoKey(last, shift);
    }
  }

  lemma HyphenIsNoKey(text: string, shift: bool)
    requires |text| > 1 && text[|text| - 1] == '-' && text[0] != 'f' && text[0] != 'F'
    ensures ParseCode(text, shift) == None
  {
    var lower := LowerText(text);
    assert lower[|lower| - 1] == '-' && lower[0] != 'f' && |lower| > 1;
    hide LowerText;
    NoNameEndsInHyphen(lower, shift);
    hide Named;
  }

  lemma NoNameEndsInHyphen(lower: string, shift: bool)
    requires |lower| > 1 && lower[|lower| - 1] == '-'
    ensures Named(lower, shift) == None
  {
  }

  // Whole sequences.

  lemma {:induction false} ParseKeysEach(keys: seq<string>, raw: string)
    ensures var parsed := ParseKeys(keys, raw);
            if parsed.Ok?
            then |parsed.value| == |keys| && forall i | 0 <= i < |keys| :: ParseKeyEvent(keys[i]) == Ok(parsed.value[i])
            else exists i :: 0 <= i < |keys| && ParseKeyEvent(keys[i]).Err?
  {
    hide ParseKeyEvent;
    if keys != [] && ParseKeyEvent(keys[0]).Ok? {
      ParseKeysEach(keys[1..], raw);
      var parsed := ParseKeys(keys[1..], raw);
      if parsed.Err? {
        var i :| 0 <= i < |keys[1..]| && ParseKeyEvent(keys[1..][i]).Err?;
        assert ParseKeyEvent(keys[i + 1]).Err?;
      }
    }
  }

  function AllNormalised(chord: seq<KeyEvent>): (keys: seq<KeyEvent>)
    ensures |keys| == |chord|
  {
    seq(|chord|, i requires 0 <= i < |chord| => Normalise(chord[i]))
  }

  function Texts(chord: seq<KeyEvent>): (texts: seq<string>)
    ensures |texts| == |chord|
  {
    seq(|chord|, i requires 0 <= i < |chord| => KeyText(chord[i]))
  }

  predicate AllWritable(chord: seq<KeyEvent>) {
    forall i | 0 <= i < |chord| :: Writable(Normalise(chord[i]).code)
  }

  lemma TextOfNormalised(key: KeyEvent)
    ensures KeyText(Normalise(key)) == KeyText(key)
    ensures Normalise(Normalise(key)) == Normalise(key)
  {
    NormaliseIsIdempotent(key);
  }

  /** The words a key is written as: one that reads back, or none, or one that does not. */
  lemma WordOfText(key: KeyEvent)
    ensures var words := Words(KeyText(key));
            && (forall word | word in words :: !InBrackets(word))
            && if Writable(Normalise(key).code)
               then words == [KeyText(key)] && ParseKeyEvent(KeyText(key)) == Ok(Normalise(key))
               else words == [] || (|words| == 1 && ParseKeyEvent(words[0]) != Ok(Normalise(key)))
  {
    TextOfNormalised(key);
    var k := Normalise(key);
    TextWords(k);
    KeyReadsBack(k);
    NotInBrackets(k);
    PrefixIsSolid(k.mods);
    assert KeyText(k) == Prefix(k.mods) + NameOf(k.code);
    assert k.mods.more == 0 by { NoMore(key); }
    if Prefix(k.mods) != "" {
      PrefixIsNoKey(k.mods);
    }
    if !Solid(k.code) {
      assert NameOf(k.code) == [k.code.c];
      assert KeyText(k) != Prefix(k.mods);
    }
    hide Prefix, NameOf, Normalise, ParseKeyEvent, Words, KeyText, ReadsAlone, Solid;
  }

  lemma NoMore(key: KeyEvent)
    ensures Normalise(key).mods.more == 0
  {
  }

  lemma {:induction false} AtMostOneEach<T>(pieces: seq<seq<T>>)
    requires forall i | 0 <= i < |pieces| :: |pieces[i]| <= 1
    ensures |Flatten(pieces)| <= |pieces|
    ensures |Flatten(pieces)| == |pieces| ==>
              forall i | 0 <= i < |pieces| :: |pieces[i]| == 1 && pieces[i][0] == Flatten(pieces)[i]
    ensures forall x | x in Flatten(pieces) :: exists i :: 0 <= i < |pieces| && x in pieces[i]
  {
    if pieces != [] {
      var rest := pieces[1..];
      AtMostOneEach(rest);
      forall x | x in Flatten(pieces)
        ensures exists i :: 0 <= i < |pieces| && x in pieces[i]
      {
        if x !in pieces[0] {
          assert x in Flatten(rest);
          var i :| 0 <= i < |rest| && x in rest[i];
          assert x in pieces[i + 1];
        }
      }
    }
  }

  function WordsOf(chord: seq<KeyEvent>): (pieces: seq<seq<string>>)
    ensures |pieces| == |chord|
  {
    seq(|chord|, i requires 0 <= i < |chord| => Words(KeyText(chord[i])))
  }

  /** A written chord, not all of it white space, is read word by word. */
  lemma ChordIsWords(chord: seq<KeyEvent>)
    ensures var text := Trim(ChordToString(chord));
            && Words(text) == Flatten(WordsOf(chord))
            && (text == "" <==> Words(text) == [])
            && KeysOf(text) == Words(text)
  {
    hide Words, KeyText, Trim;
    var text := Trim(ChordToString(chord));
    var pieces := WordsOf(chord);
    WordsOfJoin(Texts(chord));
    assert seq(|chord|, i requires 0 <= i < |chord| => Words(Texts(chord)[i])) == pieces;
    TrimKeepsWords(ChordToString(chord));
    forall i | 0 <= i < |chord|
      ensures |pieces[i]| <= 1 && forall word | word in pieces[i] :: !InBrackets(word)
    {
      WordOfText(chord[i]);
    }
    AtMostOneEach(pieces);
    NotInBracketsWhole(text);
  }

  lemma NotInBracketsWhole(text: string)
    ensures (forall word | word in Words(text) :: !InBrackets(word)) ==> !(InBrackets(text) && NoWhitespace(text))
  {
    if InBrackets(text) && NoWhitespace(text) {
      WordsOfWord(text);
      assert text in Words(text);
    }
  }

  /**
   A chord that is written and read again comes back, normalised, exactly when there is a key
   in it and every key is one of those that can be written: no white space but the space, none
   of the characters that the arrows are written as, a function key from 1 to 12, and none of
   the keys that are written by the name of their type.
   */
  lemma ChordReadsBack(chord: seq<KeyEvent>)
    ensures ParseKeySequence(ChordToString(chord)) == Ok(AllNormalised(chord)) <==> chord != [] && AllWritable(chord)
  {
    var raw := ChordToString(chord);
    var pieces := WordsOf(chord);
    hide ChordToString, KeyText, Words, KeysOf, Trim, ParseKeys;
    ChordIsWords(chord);
    forall i | 0 <= i < |chord|
      ensures |pieces[i]| <= 1
    {
      WordOfText(chord[i]);
    }
    AtMostOneEach(pieces);
    ParseKeysEach(Flatten(pieces), raw);
    if AllWritable(chord) {
      AllWritableReadsBack(chord, raw);
    }
    if ParseKeys(Flatten(pieces), raw) == Ok(AllNormalised(chord)) {
      forall i | 0 <= i < |chord|
        ensures Writable(Normalise(chord[i]).code)
      {
        WordOfText(chord[i]);
        assert ParseKeyEvent(Flatten(pieces)[i]) == Ok(AllNormalised(chord)[i]);
        assert pieces[i][0] == Flatten(pieces)[i];
      }
    }
  }

  lemma AllWritableReadsBack(chord: seq<KeyEvent>, raw: string)
    requires AllWritable(chord)
    ensures Flatten(WordsOf(chord)) == Texts(chord)
    ensures ParseKeys(Texts(chord), raw) == Ok(AllNormalised(chord))
  {
    hide KeyText, Words, ParseKeys, ParseKeyEvent, Writable, Normalise;
    var pieces := WordsOf(chord);
    forall i | 0 <= i < |chord|
      ensures pieces[i] == [Texts(chord)[i]] && ParseKeyEvent(Texts(chord)[i]) == Ok(AllNormalised(chord)[i])
    {
      WordOfText(chord[i]);
    }
    FlattenOfOnes(Texts(chord), pieces);
    ParseKeysEach(Texts(chord), raw);
    var parsed := ParseKeys(Texts(chord), raw);
    assert parsed.Ok?;
    assert forall i | 0 <= i < |chord| :: Ok(parsed.value[i]) == Ok(AllNormalised(chord)[i]);
    assert parsed.value == AllNormalised(chord);
  }

  lemma {:induction false} FlattenOfOnes<T>(xs: seq<T>, pieces: seq<seq<T>>)
    requires |pieces| == |xs| && forall i | 0 <= i < |xs| :: pieces[i] == [xs[i]]
    ensures Flatten(pieces) == xs
  {
    if xs != [] {
      FlattenOfOnes(xs[1..], pieces[1..]);
    }
  }

  // What reading gives.

  lemma {:induction false} SplitIsPart(raw: string, mods: Modifiers)
    requires NoWhitespace(raw)
    ensures NoWhitespace(SplitModifiers(raw, mods).0)
    decreases |raw|
  {
    var lower := LowerText(raw);
    if "ctrl-" <= lower && |raw| > 5 {
      SplitIsPart(raw[5..], mods.(ctrl := true));
    } else if "alt-" <= lower && |raw| > 4 {
      SplitIsPart(raw[4..], mods.(alt := true));
    } else if "shift-" <= lower && |raw| > 6 {
      SplitIsPart(raw[6..], mods.(shift := true));
    }
  }

  lemma CodeIsWritable(raw: string, shift: bool)
    requires NoWhitespace(raw) && ParseCode(raw, shift).Some?
    ensures Writable(ParseCode(raw, shift).value)
  {
    var lower := LowerText(raw);
    if Named(lower, shift).Some? {
      NamedIsWritable(lower, shift);
    } else if |raw| == 1 {
      assert raw == [raw[0]];
      OneCharacterReads(raw[0], shift);
    }
    hide Named, LowerText, ByteOf;
  }

  lemma NamedIsWritable(lower: string, shift: bool)
    requires Named(lower, shift).Some?
    ensures Writable(Named(lower, shift).value)
  {
  }

  lemma NormalisedIsWritable(key: KeyEvent)
    requires Writable(key.code)
    ensures Writable(Normalise(key).code)
  {
  }

  lemma ParsedKeyIsWritable(raw: string)
    requires NoWhitespace(raw) && ParseKeyEvent(raw).Ok?
    ensures var key := ParseKeyEvent(raw).value;
            key == Normalise(key) && Writable(Normalise(key).code)
  {
    hide SplitModifiers, ParseCode, Normalise, Writable;
    var bare := if InBrackets(raw) then raw[1..|raw| - 1] else raw;
    SplitIsPart(bare, NONE);
    var (rest, mods) := SplitModifiers(bare, NONE);
    CodeIsWritable(rest, mods.shift);
    var read := Key(ParseCode(rest, mods.shift).value, mods);
    NormalisedIsWritable(read);
    NormaliseIsIdempotent(read);
  }

  lemma {:induction false} PartsAreSolid(s: string)
    requires NoWhitespace(s)
    ensures forall part | part in SplitAtBrackets(s) :: NoWhitespace(part)
    decreases |s|
  {
    if |s| < 2 {
    } else if s[0] == '>' && s[1] == '<' {
      PartsAreSolid(s[2..]);
    } else {
      PartsAreSolid(s[1..]);
      var parts := SplitAtBrackets(s[1..]);
      assert NoWhitespace(parts[0]);
      assert forall part | part in parts[1..] :: part in parts;
    }
  }

  lemma KeysAreSolid(trimmed: string)
    ensures forall key | key in KeysOf(trimmed) :: NoWhitespace(key)
  {
    if InBrackets(trimmed) && NoWhitespace(trimmed) {
      PartsAreSolid(trimmed[1..|trimmed| - 1]);
    }
  }

  lemma ParsedIsWritable(raw: string)
    requires ParseKeySequence(raw).Ok?
    ensures var keys := ParseKeySequence(raw).value;
            keys != [] && keys == AllNormalised(keys) && AllWritable(keys)
  {
    hide ParseKeyEvent, Normalise, Writable, Words, Trim;
    var trimmed := Trim(raw);
    TrimKeepsWords(raw);
    TrimKeepsWords(trimmed);
    assert Trim(trimmed) == "" ==> Words(raw) == [];
    KeysAreSolid(trimmed);
    var written := KeysOf(trimmed);
    assert written != [];
    ParseKeysEach(written, raw);
    var keys := ParseKeys(written, raw).value;
    forall i | 0 <= i < |keys|
      ensures keys[i] == Normalise(keys[i]) && Writable(Normalise(keys[i]).code)
    {
      assert written[i] in written;
      ParsedKeyIsWritable(written[i]);
    }
  }

  /** Any sequence that reads at all, written again and read again, is the same keys. */
  lemma ParsedReadsBack(raw: string)
    requires ParseKeySequence(raw).Ok?
    ensures ParseKeySequence(ChordToString(ParseKeySequence(raw).value)) == ParseKeySequence(raw)
  {
    hide ChordToString, ParseKeySequence;
    ParsedIsWritable(raw);
    ChordReadsBack(ParseKeySequence(raw).value);
  }

  /** Two sequences that read as different keys are written differently. */
  lemma WritingTellsApart(one: string, other: string)
    requires ParseKeySequence(one).Ok? && ParseKeySequence(other).Ok?
    requires ChordToString(ParseKeySequence(one).value) == ChordToString(ParseKeySequence(other).value)
    ensures ParseKeySequence(one) == ParseKeySequence(other)
  {
    hide ChordToString, ParseKeySequence;
    ParsedReadsBack(one);
    ParsedReadsBack(other);
  }
}
