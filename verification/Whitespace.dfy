/** Unicode white space, and the words between it, as the standard library of the program takes them. */
module Whitespace {
  import opened Basics

  /** The characters with the property White_Space. */
  predicate IsWhitespace(c: char) {
    || '\U{9}' <= c <= '\U{D}' || c == ' ' || c == '\U{85}' || c == '\U{A0}' || c == '\U{1680}'
    || '\U{2000}' <= c <= '\U{200A}' || c == '\U{2028}' || c == '\U{2029}' || c == '\U{202F}'
    || c == '\U{205F}' || c == '\U{3000}'
  }

  predicate IsWord(s: string) {
    s != "" && forall i | 0 <= i < |s| :: !IsWhitespace(s[i])
  }

  /** How many characters `s` starts with that are not white space. */
  function WordRun(s: string): (n: nat)
    ensures n <= |s|
    ensures forall i | 0 <= i < n :: !IsWhitespace(s[i])
    ensures n < |s| ==> IsWhitespace(s[n])
  {
    if s == "" || IsWhitespace(s[0]) then 0 else 1 + WordRun(s[1..])
  }

  /** The words of `s`. */
  function Words(s: string): (words: seq<string>)
    ensures forall word | word in words :: IsWord(word)
  {
    if s == "" then []
    else if IsWhitespace(s[0]) then Words(s[1..])
    else [s[..WordRun(s)]] + Words(s[WordRun(s)..])
  }

  /** `s` without its white space. */
  function Visible(s: string): string {
    if s == "" then "" else (if IsWhitespace(s[0]) then "" else [s[0]]) + Visible(s[1..])
  }

  lemma {:induction false} VisibleConcat(a: string, b: string)
    ensures Visible(a + b) == Visible(a) + Visible(b)
  {
    if a == "" {
      assert a + b == b;
    } else {
      VisibleConcat(a[1..], b);
      assert (a + b)[0] == a[0] && (a + b)[1..] == a[1..] + b;
      Assoc(if IsWhitespace(a[0]) then "" else [a[0]], Visible(a[1..]), Visible(b));
      hide IsWhitespace;
    }
  }

  lemma {:induction false} VisibleWord(word: string)
    requires forall i | 0 <= i < |word| :: !IsWhitespace(word[i])
    ensures Visible(word) == word
  {
    if word != "" {
      VisibleWord(word[1..]);
    }
  }

  /** The words hold all of a text but its white space. */
  lemma {:induction false} WordsAreVisible(s: string)
    ensures Flatten(Words(s)) == Visible(s)
    decreases |s|
  {
    if s == "" {
    } else if IsWhitespace(s[0]) {
      WordsAreVisible(s[1..]);
    } else {
      var n := WordRun(s);
      WordsAreVisible(s[n..]);
      VisibleConcat(s[..n], s[n..]);
      VisibleWord(s[..n]);
      assert s[..n] + s[n..] == s;
    }
  }

  lemma WordRunStops(a: string, c: char, b: string)
    requires IsWhitespace(c)
    ensures WordRun(a + [c] + b) == WordRun(a)
  {
    var s := a + [c] + b;
    assert forall i | 0 <= i < |a| :: s[i] == a[i];
    assert s[|a|] == c;
  }

  lemma DropFront(a: string, c: char, b: string, n: nat)
    requires n <= |a|
    ensures (a + [c] + b)[n..] == a[n..] + [c] + b && (a + [c] + b)[..n] == a[..n]
  {
  }

  /** White space between two texts keeps their words apart. */
  lemma {:induction false} WordsApart(a: string, c: char, b: string)
    requires IsWhitespace(c)
    ensures Words(a + [c] + b) == Words(a) + Words(b)
    decreases |a|
  {
    var s := a + [c] + b;
    if a == "" {
      assert s[1..] == b;
    } else {
      assert s[0] == a[0];
      if IsWhitespace(a[0]) {
        WordsApart(a[1..], c, b);
        DropFront(a, c, b, 1);
      } else {
        var n := WordRun(a);
        WordRunStops(a, c, b);
        WordsApart(a[n..], c, b);
        DropFront(a, c, b, n);
        Assoc([a[..n]], Words(a[n..]), Words(b));
        hide IsWhitespace;
      }
    }
  }

  lemma WordsOfWord(word: string)
    requires IsWord(word)
    ensures Words(word) == [word]
  {
    assert WordRun(word) == |word|;
    assert word[..|word|] == word && word[|word|..] == "";
  }

  lemma {:induction false} WordsOfJoin(texts: seq<string>)
    ensures Words(Join(texts, " ")) == Flatten(seq(|texts|, i requires 0 <= i < |texts| => Words(texts[i])))
  {
    var each := seq(|texts|, i requires 0 <= i < |texts| => Words(texts[i]));
    if |texts| > 0 {
      var rest := texts[1..];
      var more := seq(|rest|, i requires 0 <= i < |rest| => Words(rest[i]));
      assert each[1..] == more;
      WordsOfJoin(rest);
      if |texts| > 1 {
        WordsApart(texts[0], ' ', Join(rest, " "));
      } else {
        assert Words(texts[0]) + [] == Words(texts[0]);
      }
    }
  }

  function Trim(s: string): string
    decreases |s|
  {
    if s == "" then ""
    else if IsWhitespace(s[0]) then Trim(s[1..])
    else if IsWhitespace(s[|s| - 1]) then Trim(s[..|s| - 1])
    else s
  }

  lemma {:induction false} TrimKeepsWords(s: string)
    ensures Words(Trim(s)) == Words(s)
    ensures Trim(s) == "" <==> Words(s) == []
    decreases |s|
  {
    if s == "" {
    } else if IsWhitespace(s[0]) {
      TrimKeepsWords(s[1..]);
    } else if IsWhitespace(s[|s| - 1]) {
      var front := s[..|s| - 1];
      TrimKeepsWords(front);
      WordsApart(front, s[|s| - 1], "");
      assert front + [s[|s| - 1]] + "" == s;
      assert Words(front) + [] == Words(front);
    }
  }
}
