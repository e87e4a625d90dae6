/** Shared vocabulary: options, orderings, and the few facts about text that several modules need. */
module Basics {

  datatype Option<+T> = None | Some(value: T)

  predicate IsDigit(c: char) {
    '0' <= c <= '9'
  }

  predicate IsUpper(c: char) {
    'A' <= c <= 'Z'
  }

  predicate IsLower(c: char) {
    'a' <= c <= 'z'
  }

  predicate IsAlphanumeric(c: char) {
    IsUpper(c) || IsLower(c) || IsDigit(c)
  }

  predicate AllDigits(s: string) {
    forall i | 0 <= i < |s| :: IsDigit(s[i])
  }

  predicate IsHexDigit(c: char) {
    IsDigit(c) || 'a' <= c <= 'f' || 'A' <= c <= 'F'
  }

  predicate AllHex(s: string) {
    forall i | 0 <= i < |s| :: IsHexDigit(s[i])
  }

  /** How many digits `s` starts with. */
  function DigitRun(s: string): (n: nat)
    ensures n <= |s|
  {
    if s != "" && IsDigit(s[0]) then 1 + DigitRun(s[1..]) else 0
  }

  lemma {:induction false} DigitRunStops(s: string)
    ensures AllDigits(s[..DigitRun(s)])
    ensures DigitRun(s) < |s| ==> !IsDigit(s[DigitRun(s)])
  {
    if s != "" && IsDigit(s[0]) {
      DigitRunStops(s[1..]);
      assert forall i | 0 < i < DigitRun(s) :: s[i] == s[1..][..DigitRun(s) - 1][i - 1];
    }
  }

  /** Digits followed by something that is not one are a run on their own. */
  lemma {:induction false} DigitRunOf(digits: string, rest: string)
    requires AllDigits(digits)
    requires rest == "" || !IsDigit(rest[0])
    ensures DigitRun(digits + rest) == |digits|
  {
    if digits == "" {
      assert digits + rest == rest;
    } else {
      assert (digits + rest)[1..] == digits[1..] + rest;
      DigitRunOf(digits[1..], rest);
    }
  }

  /** The number some digits write. */
  function NumberOf(s: string): nat
    requires AllDigits(s)
  {
    if s == "" then 0 else 10 * NumberOf(s[..|s| - 1]) + (s[|s| - 1] as int - '0' as int)
  }

  function Power10(n: nat): nat {
    if n == 0 then 1 else 10 * Power10(n - 1)
  }

  // Facts about slices, by name where proving them in place would cost more.

  lemma Assoc<T>(a: seq<T>, b: seq<T>, c: seq<T>)
    ensures (a + b) + c == a + (b + c)
  {
  }

  lemma TakeSplits<T>(s: seq<T>, a: nat, b: nat)
    requires a + b <= |s|
    ensures s[..a + b] == s[..a] + s[a..][..b]
  {
  }

  lemma DropTwice<T>(s: seq<T>, a: nat, b: nat)
    requires a + b <= |s|
    ensures s[a..][b..] == s[a + b..]
  {
  }

  lemma TakeThenDrop<T>(s: seq<T>, a: nat, b: nat)
    requires a <= b <= |s|
    ensures s[..b][a..] == s[a..][..b - a]
  {
  }

  lemma DropOf<T>(a: seq<T>, b: seq<T>)
    ensures (a + b)[|a|..] == b && (a + b)[..|a|] == a
  {
  }

  function Max(a: int, b: int): int {
    if a < b then b else a
  }

  function Min(a: int, b: int): int {
    if a < b then a else b
  }

  /** The pieces with `separator` between each two. */
  function Join(pieces: seq<string>, separator: string): string {
    if pieces == [] then ""
    else if |pieces| == 1 then pieces[0]
    else pieces[0] + separator + Join(pieces[1..], separator)
  }

  function Mapped(text: string, f: char -> string): string {
    if text == "" then "" else f(text[0]) + Mapped(text[1..], f)
  }

  /** `str::replace` of one character. */
  function Replace(text: string, c: char, written: string): string {
    Mapped(text, d => if d == c then written else [d])
  }

  /** The pieces of `text` between characters `c`. */
  function SplitAt(text: string, c: char): (pieces: seq<string>)
    ensures pieces != []
  {
    if text == "" then [""]
    else
      var more := SplitAt(text[1..], c);
      if text[0] == c then [""] + more else [[text[0]] + more[0]] + more[1..]
  }

  lemma {:induction false} SplitBetween(a: string, c: char, b: string)
    ensures SplitAt(a + [c] + b, c) == SplitAt(a, c) + SplitAt(b, c)
  {
    if a == "" {
      assert a + [c] + b == [c] + b && ([c] + b)[1..] == b;
    } else {
      SplitBetween(a[1..], c, b);
      assert (a + [c] + b)[1..] == a[1..] + [c] + b && (a + [c] + b)[0] == a[0];
      FirstPiece(a[0], c, SplitAt(a[1..], c), SplitAt(b, c));
    }
  }

  lemma FirstPiece(d: char, c: char, pieces: seq<string>, more: seq<string>)
    requires pieces != []
    ensures var all := pieces + more;
            && [""] + all == [""] + pieces + more
            && [[d] + all[0]] + all[1..] == [[d] + pieces[0]] + pieces[1..] + more
  {
  }

  /** Text without `c` in front goes on the first piece. */
  lemma {:induction false} SplitFront(front: string, text: string, c: char)
    requires c !in front
    ensures SplitAt(front + text, c) == [front + SplitAt(text, c)[0]] + SplitAt(text, c)[1..]
  {
    if front == "" {
      assert front + text == text && front + SplitAt(text, c)[0] == SplitAt(text, c)[0];
    } else {
      SplitFront(front[1..], text, c);
      assert (front + text)[1..] == front[1..] + text && (front + text)[0] == front[0];
      Assoc([front[0]], front[1..], SplitAt(text, c)[0]);
      assert front == [front[0]] + front[1..];
    }
  }

  lemma {:induction false} SplitNowhere(a: string, c: char)
    requires c !in a
    ensures SplitAt(a, c) == [a]
  {
    if a != "" {
      SplitNowhere(a[1..], c);
      assert a == [a[0]] + a[1..];
    }
  }

  /** The sequences one after another. */
  function Flatten<T>(pieces: seq<seq<T>>): seq<T> {
    if pieces == [] then [] else pieces[0] + Flatten(pieces[1..])
  }

  lemma {:induction false} FlattenAppend<T>(a: seq<seq<T>>, b: seq<seq<T>>)
    ensures Flatten(a + b) == Flatten(a) + Flatten(b)
  {
    if a == [] {
      assert a + b == b;
    } else {
      assert (a + b)[1..] == a[1..] + b;
      FlattenAppend(a[1..], b);
    }
  }
}
