/**
 Wrapping a text to a width (inspect.rs). How many cells a character takes is a parameter, and
 a text takes the sum of its characters.
 */
module WordWrap {
  import opened Basics
  import opened Whitespace

  function Width(s: string, cells: char -> nat): nat {
    if s == "" then 0 else Width(s[..|s| - 1], cells) + cells(s[|s| - 1])
  }

  lemma {:induction false} WidthConcat(a: string, b: string, cells: char -> nat)
    ensures Width(a + b, cells) == Width(a, cells) + Width(b, cells)
    decreases |b|
  {
    if b == "" {
      assert a + b == a;
    } else {
      WidthConcat(a, b[..|b| - 1], cells);
      assert (a + b)[..|a + b| - 1] == a + b[..|b| - 1];
    }
  }

  lemma WidthOne(c: char, cells: char -> nat)
    ensures Width([c], cells) == cells(c)
  {
    assert [c][..0] == "";
  }

  /** Within `width` cells, but for a last character wider than that with nothing visible before it. */
  predicate Fits(line: string, width: nat, cells: char -> nat) {
    Width(line, cells) <= width || (line != "" && Width(line[..|line| - 1], cells) == 0)
  }

  /** A line over the width ends in a character wider than that, and nothing else on it shows. */
  lemma OverWideIsOneCharacter(line: string, width: nat, cells: char -> nat)
    requires Fits(line, width, cells) && width < Width(line, cells)
    ensures width < cells(line[|line| - 1])
    ensures forall i | 0 <= i < |line| - 1 :: cells(line[i]) == 0
  {
    NothingShows(line[..|line| - 1], cells);
    assert forall i | 0 <= i < |line| - 1 :: line[i] == line[..|line| - 1][i];
  }

  lemma {:induction false} NothingShows(line: string, cells: char -> nat)
    requires Width(line, cells) == 0
    ensures forall i | 0 <= i < |line| :: cells(line[i]) == 0
  {
    if line != "" {
      NothingShows(line[..|line| - 1], cells);
      assert forall i | 0 <= i < |line| - 1 :: line[i] == line[..|line| - 1][i];
    }
  }

  /**
   The lines put back together, with `last` after them: a space where a line ends between
   words, nothing where it ends inside one.
   */
  function Glued(lines: seq<string>, inside: seq<bool>, last: string): string
    requires |inside| == |lines|
    decreases |lines|
  {
    if lines == [] then last
    else
      var n := |lines| - 1;
      Glued(lines[..n], inside[..n], lines[n] + (if inside[n] then "" else " ") + last)
  }

  lemma {:induction false} GluedAppend(lines: seq<string>, inside: seq<bool>, last: string, more: string)
    requires |inside| == |lines|
    ensures Glued(lines, inside, last + more) == Glued(lines, inside, last) + more
    decreases |lines|
  {
    if lines != [] {
      var n := |lines| - 1;
      var ended := lines[n] + (if inside[n] then "" else " ");
      Assoc(ended, last, more);
      GluedAppend(lines[..n], inside[..n], ended + last, more);
    }
  }

  lemma GluedBreak(lines: seq<string>, inside: seq<bool>, line: string, within: bool, next: string)
    requires |inside| == |lines|
    ensures Glued(lines + [line], inside + [within], next)
            == Glued(lines, inside, line) + (if within then "" else " ") + next
  {
    var sep := if within then "" else " ";
    assert (lines + [line])[..|lines|] == lines && (inside + [within])[..|lines|] == inside;
    GluedAppend(lines, inside, line, sep);
    GluedAppend(lines, inside, line + sep, next);
  }

  lemma {:induction false} JoinOneMore(words: seq<string>, word: string, separator: string)
    ensures Join(words + [word], separator) == Join(words, separator) + (if words == [] then "" else separator) + word
  {
    if |words| <= 1 {
      assert |words| == 1 ==> words + [word] == [words[0], word] && [words[0], word][1..] == [word];
      assert words == [] ==> "" + "" + word == word;
    } else {
      JoinOneMore(words[1..], word, separator);
      assert (words + [word])[1..] == words[1..] + [word];
      var head := words[0] + separator;
      Assoc(head, Join(words[1..], separator) + separator, word);
      Assoc(head, Join(words[1..], separator), separator);
    }
  }

  // How few lines do.

  /** The lines greedy filling takes for words of these widths, `used` cells of the first one taken. */
  function Greedy(widths: seq<nat>, used: nat, width: nat): nat {
    if widths == [] then 1
    else if used + 1 + widths[0] <= width then Greedy(widths[1..], used + 1 + widths[0], width)
    else 1 + Greedy(widths[1..], widths[0], width)
  }

  /** The cells a line of words takes, with a space between each two. */
  function LineWidth(widths: seq<nat>): nat {
    if widths == [] then 0
    else if |widths| == 1 then widths[0]
    else LineWidth(widths[..|widths| - 1]) + 1 + widths[|widths| - 1]
  }

  /** A way to lay words of these widths out in lines that fit, each word whole and in order. */
  predicate IsLayout(layout: seq<seq<nat>>, widths: seq<nat>, width: nat) {
    && Flatten(layout) == widths
    && forall line | line in layout :: LineWidth(line) <= width
  }

  lemma {:induction false} MoreRoomHelps(widths: seq<nat>, used: nat, more: nat, width: nat)
    requires used <= more
    ensures Greedy(widths, used, width) <= Greedy(widths, more, width)
    ensures Greedy(widths, more, width) <= 1 + Greedy(widths, used, width)
  {
    if widths != [] {
      MoreRoomHelps(widths[1..], used + 1 + widths[0], more + 1 + widths[0], width);
      MoreRoomHelps(widths[1..], widths[0], used + 1 + widths[0], width);
      MoreRoomHelps(widths[1..], widths[0], more + 1 + widths[0], width);
    }
  }

  /** Part of a line is laid, taking at least what greedy filling has used; `line` is the rest of it. */
  lemma {:induction false} GreedyIsNoWorse(placed: seq<nat>, line: seq<nat>, layout: seq<seq<nat>>, used: nat,
          width: nat)
    requires placed != [] && used <= LineWidth(placed)
    requires LineWidth(placed + line) <= width
    requires forall other | other in layout :: LineWidth(other) <= width
    ensures Greedy(line + Flatten(layout), used, width) <= 1 + |layout|
    decreases |layout|, |line|, 1
  {
    if line != [] {
      var w := line[0];
      var now := placed + [w];
      assert now[..|now| - 1] == placed;
      PrefixIsNarrower(now, line[1..]);
      assert now + line[1..] == placed + line;
      GreedyIsNoWorse(now, line[1..], layout, used + 1 + w, width);
      assert (line + Flatten(layout))[1..] == line[1..] + Flatten(layout);
    } else if layout != [] {
      assert line + Flatten(layout) == layout[0] + Flatten(layout[1..]);
      if layout[0] == [] {
        assert layout[0] + Flatten(layout[1..]) == [] + Flatten(layout[1..]);
        GreedyIsNoWorse(placed, [], layout[1..], used, width);
      } else {
        OnANewLine(layout, used, width);
      }
    }
  }

  lemma {:induction false} PrefixIsNarrower(a: seq<nat>, b: seq<nat>)
    ensures LineWidth(a) <= LineWidth(a + b)
    decreases |b|
  {
    if b == [] {
      assert a + b == a;
    } else {
      PrefixIsNarrower(a, b[..|b| - 1]);
      assert (a + b)[..|a + b| - 1] == a + b[..|b| - 1];
    }
  }

  lemma {:induction false} OnANewLine(layout: seq<seq<nat>>, used: nat, width: nat)
    requires layout != [] && layout[0] != []
    requires forall other | other in layout :: LineWidth(other) <= width
    ensures Greedy(Flatten(layout), used, width) <= 1 + |layout|
    decreases |layout|, 0, 0
  {
    var first := layout[0];
    assert [first[0]] + first[1..] == first;
    GreedyIsNoWorse([first[0]], first[1..], layout[1..], first[0], width);
    assert Flatten(layout)[1..] == first[1..] + Flatten(layout[1..]);
    MoreRoomHelps(first[1..] + Flatten(layout[1..]), first[0], used + 1 + first[0], width);
  }

  function FewestLines(widths: seq<nat>, width: nat): nat {
    if widths == [] then 1 else Greedy(widths[1..], widths[0], width)
  }

  /** No layout that keeps the words whole takes fewer lines than filling each as far as it goes. */
  lemma {:induction false} GreedyIsFewest(layout: seq<seq<nat>>, widths: seq<nat>, width: nat)
    requires IsLayout(layout, widths, width) && widths != []
    ensures FewestLines(widths, width) <= |layout|
    decreases |layout|
  {
    if layout[0] == [] {
      assert [] + Flatten(layout[1..]) == Flatten(layout[1..]);
      GreedyIsFewest(layout[1..], widths, width);
    } else {
      var first := layout[0];
      assert [first[0]] + first[1..] == first;
      GreedyIsNoWorse([first[0]], first[1..], layout[1..], first[0], width);
      assert widths[1..] == first[1..] + Flatten(layout[1..]);
    }
  }

  // The wrapping itself.

  /** Every character takes a cell at least. */
  predicate Shows(word: string, cells: char -> nat) {
    forall i | 0 <= i < |word| :: 1 <= cells(word[i])
  }

  lemma ShownIsWide(word: string, cells: char -> nat)
    requires IsWord(word) && Shows(word, cells)
    ensures 1 <= Width(word, cells)
  {
  }

  /** The cells used of a line on which the end of `word` stands, once it has been
      broken over lines from a new one on. */
  function BrokenEnd(word: string, width: nat, cells: char -> nat): nat
    decreases |word|
  {
    if word == "" then 0
    else
      var used, c := BrokenEnd(word[..|word| - 1], width, cells), cells(word[|word| - 1]);
      if 0 < used && width < used + c then c else used + c
  }

  /** The cells used of the line being filled once the words are placed. */
  function UsedAfter(words: seq<string>, width: nat, cells: char -> nat): nat
    decreases |words|
  {
    if words == [] then 0
    else UsedWith(UsedAfter(words[..|words| - 1], width, cells), words[|words| - 1], width, cells)
  }

  /** The cells used once one more word is placed. */
  function UsedWith(used: nat, word: string, width: nat, cells: char -> nat): nat {
    var w := Width(word, cells);
    if 0 < used && used + 1 + w <= width then used + 1 + w
    else if w <= width then w
    else BrokenEnd(word, width, cells)
  }

  /** The words one after another, a space after each that leaves some of its line used. */
  function Spaced(words: seq<string>, width: nat, cells: char -> nat): string
    decreases |words|
  {
    if words == [] then ""
    else
      var before := words[..|words| - 1];
      Spaced(before, width, cells) + (if 0 < UsedAfter(before, width, cells) then " " else "") + words[|words| - 1]
  }

  /** Every word but the last leaves some of its line used. */
  predicate Apart(words: seq<string>, width: nat, cells: char -> nat) {
    forall k | 0 < k < |words| :: 0 < UsedAfter(words[..k], width, cells)
  }

  lemma UsedAfterOneMore(words: seq<string>, k: nat, width: nat, cells: char -> nat)
    requires k < |words|
    ensures UsedAfter(words[..k + 1], width, cells)
            == UsedWith(UsedAfter(words[..k], width, cells), words[k], width, cells)
    ensures Spaced(words[..k + 1], width, cells)
            == Spaced(words[..k], width, cells) + (if 0 < UsedAfter(words[..k], width, cells) then " " else "")
              + words[k]
  {
    assert words[..k + 1][..k] == words[..k];
  }

  lemma ApartBefore(words: seq<string>, width: nat, cells: char -> nat)
    requires words != []
    ensures var n := |words| - 1;
            Apart(words, width, cells) <==>
              Apart(words[..n], width, cells) && (n == 0 || 0 < UsedAfter(words[..n], width, cells))
  {
    hide UsedAfter;
    var n := |words| - 1;
    assert forall k | 0 < k < n :: words[..n][..k] == words[..k];
    if Apart(words, width, cells) {
      forall k | 0 < k < n
        ensures 0 < UsedAfter(words[..n][..k], width, cells)
      {
        assert words[..n][..k] == words[..k];
      }
    }
  }

  lemma {:induction false} SpacedLength(words: seq<string>, width: nat, cells: char -> nat)
    ensures |Spaced(words, width, cells)| <= |Join(words, " ")|
    ensures Apart(words, width, cells) ==> Spaced(words, width, cells) == Join(words, " ")
    ensures !Apart(words, width, cells) ==> |Spaced(words, width, cells)| < |Join(words, " ")|
    decreases |words|
  {
    hide UsedAfter, Apart;
    if words == [] {
      assert Apart(words, width, cells) by { NoneToPart(width, cells); }
    } else {
      var n := |words| - 1;
      SpacedLength(words[..n], width, cells);
      ApartBefore(words, width, cells);
      JoinOneMore(words[..n], words[n], " ");
      assert words == words[..n] + [words[n]];
      assert UsedAfter([], width, cells) == 0 by { NoneUsed(width, cells); }
    }
  }

  lemma NoneToPart(width: nat, cells: char -> nat)
    ensures Apart([], width, cells)
  {
  }

  lemma NoneUsed(width: nat, cells: char -> nat)
    ensures UsedAfter([], width, cells) == 0
  {
  }

  /** The words stay apart exactly when every word but the last leaves some of its line used. */
  lemma ApartExactly(words: seq<string>, width: nat, cells: char -> nat)
    ensures Spaced(words, width, cells) == Join(words, " ") <==> Apart(words, width, cells)
  {
    SpacedLength(words, width, cells);
  }

  /** They do when every word takes a cell and fits on a line, whatever its characters take. */
  lemma {:induction false} FittingWordsStayApart(words: seq<string>, width: nat, cells: char -> nat)
    requires forall word | word in words :: 1 <= Width(word, cells) <= width
    ensures Apart(words, width, cells)
  {
    forall k | 0 < k < |words|
      ensures 0 < UsedAfter(words[..k], width, cells)
    {
      UsedAfterOneMore(words, k - 1, width, cells);
    }
  }

  /** And when every character takes a cell, however wide the words. */
  lemma {:induction false} ShownWordsStayApart(words: seq<string>, width: nat, cells: char -> nat)
    requires forall word | word in words :: IsWord(word) && Shows(word, cells)
    ensures Apart(words, width, cells)
  {
    forall k | 0 < k < |words|
      ensures 0 < UsedAfter(words[..k], width, cells)
    {
      UsedAfterOneMore(words, k - 1, width, cells);
      ShownIsWide(words[k - 1], cells);
      ShownEndIsUsed(words[k - 1], width, cells);
    }
  }

  lemma {:induction false} ShownEndIsUsed(word: string, width: nat, cells: char -> nat)
    requires Shows(word, cells)
    ensures word != "" ==> 0 < BrokenEnd(word, width, cells)
    decreases |word|
  {
    if word != "" {
      var n := |word| - 1;
      assert forall i | 0 <= i < n :: word[..n][i] == word[i];
      ShownEndIsUsed(word[..n], width, cells);
    }
  }

  const MARK := '\U{301}'
  const WIDE := '\U{6F22}'

  /** A word that takes no cells, such as a mark on its own, is joined to the next. */
  lemma MarkAloneIsJoined(width: nat, cells: char -> nat)
    requires 1 <= width && cells(MARK) == 0
    ensures Words([MARK, ' ', 'a']) == [[MARK], ['a']]
    ensures !Apart([[MARK], ['a']], width, cells) && Spaced([[MARK], ['a']], width, cells) == [MARK, 'a']
  {
    WordsOfTwo([MARK], ['a']);
    WidthOne(MARK, cells);
    TwoWords([MARK], ['a'], width, cells);
    hide Words;
    assert [MARK] + [' '] + ['a'] == [MARK, ' ', 'a'] && [MARK] + "" + ['a'] == [MARK, 'a'];
  }

  /** So is one that takes two cells, broken after its wide character where the width is one: its
      mark is alone on a line. */
  lemma MarkBrokenOffIsJoined(cells: char -> nat)
    requires cells(MARK) == 0 && cells(WIDE) == 2
    ensures Words([WIDE, MARK, ' ', 'a']) == [[WIDE, MARK], ['a']] && Width([WIDE, MARK], cells) == 2
    ensures !Apart([[WIDE, MARK], ['a']], 1, cells)
    ensures Spaced([[WIDE, MARK], ['a']], 1, cells) == [WIDE, MARK, 'a']
  {
    hide Words, UsedAfter, Spaced, Apart;
    var word := [WIDE, MARK];
    WordsOfTwo(word, ['a']);
    WidthConcat([WIDE], [MARK], cells);
    WidthOne(WIDE, cells);
    WidthOne(MARK, cells);
    assert word == [WIDE] + [MARK];
    MarkOnANewLine(cells);
    TwoWords(word, ['a'], 1, cells);
    assert word + [' '] + ['a'] == [WIDE, MARK, ' ', 'a'] && word + "" + ['a'] == [WIDE, MARK, 'a'];
  }

  lemma MarkOnANewLine(cells: char -> nat)
    requires cells(MARK) == 0 && cells(WIDE) == 2
    ensures BrokenEnd([WIDE, MARK], 1, cells) == 0
  {
    var word := [WIDE, MARK];
    assert word[..1] == [WIDE] && [WIDE][..0] == "";
    assert BrokenEnd([WIDE], 1, cells) == 2;
  }

  lemma WordsOfTwo(one: string, other: string)
    requires IsWord(one) && IsWord(other)
    ensures Words(one + [' '] + other) == [one, other]
  {
    WordsApart(one, ' ', other);
    WordsOfWord(one);
    WordsOfWord(other);
  }

  lemma TwoWords(one: string, other: string, width: nat, cells: char -> nat)
    requires UsedWith(0, one, width, cells) == 0
    ensures !Apart([one, other], width, cells) && Spaced([one, other], width, cells) == one + "" + other
  {
    var words := [one, other];
    assert words[..1] == [one] && [one][..0] == [];
    assert UsedAfter([one], width, cells) == 0;
    assert Spaced([one], width, cells) == "" + "" + one == one;
    assert UsedAfter(words[..1], width, cells) == 0;
  }

  predicate AllFit(words: seq<string>, width: nat, cells: char -> nat) {
    forall word | word in words :: Width(word, cells) <= width
  }

  function Widths(words: seq<string>, cells: char -> nat): seq<nat> {
    seq(|words|, i requires 0 <= i < |words| => Width(words[i], cells))
  }

  /** A line that ends inside a word holds a part of that word only, and the next character does not fit on it. */
  predicate BrokenWhereItMust(lines: seq<string>, inside: seq<bool>, width: nat, cells: char -> nat)
    requires |lines| == |inside| + 1
  {
    forall i | 0 <= i < |inside| && inside[i] ::
      ' ' !in lines[i] && lines[i + 1] != "" && width < Width(lines[i], cells) + cells(lines[i + 1][0])
  }

  /** The full lines and the one being filled, `used` cells of it. */
  ghost predicate Sound(lines: seq<string>, inside: seq<bool>, line: string, used: nat, width: nat,
                        cells: char -> nat) {
    && |inside| == |lines| && used == Width(line, cells)
    && (forall full | full in lines :: Fits(full, width, cells)) && Fits(line, width, cells)
    && BrokenWhereItMust(lines + [line], inside, width, cells)
  }

  lemma {:induction false} Longer(lines: seq<string>, inside: seq<bool>, line: string, used: nat, more: string,
                                  width: nat, cells: char -> nat)
    requires Sound(lines, inside, line, used, width, cells)
    requires Fits(line + more, width, cells)
    ensures Sound(lines, inside, line + more, used + Width(more, cells), width, cells)
  {
    WidthConcat(line, more, cells);
    hide Fits, Width;
    var n := |lines|;
    forall i | 0 <= i < n && inside[i]
      ensures (lines + [line + more])[i + 1] != "" && (lines + [line + more])[i + 1][0] == (lines + [line])[i + 1][0]
    {
      assert (lines + [line])[i] == lines[i] && (lines + [line])[i + 1] == if i + 1 < n then lines[i + 1] else line;
    }
  }

  lemma Broken(lines: seq<string>, inside: seq<bool>, line: string, used: nat, within: bool, next: string,
               width: nat, cells: char -> nat)
    requires Sound(lines, inside, line, used, width, cells)
    requires Fits(next, width, cells)
    requires within ==> ' ' !in line && next != "" && width < used + cells(next[0])
    ensures Sound(lines + [line], inside + [within], next, Width(next, cells), width, cells)
  {
    hide Fits, Width;
    var all := lines + [line];
    assert forall i | 0 <= i <= |lines| :: (all + [next])[i] == all[i];
  }

  lemma FitsWith(line: string, c: char, width: nat, cells: char -> nat)
    requires Width(line, cells) == 0 || Width(line, cells) + cells(c) <= width
    ensures Fits(line + [c], width, cells)
  {
    WidthConcat(line, [c], cells);
    WidthOne(c, cells);
    assert (line + [c])[..|line + [c]| - 1] == line;
  }

  lemma {:induction false} SpaceShows(line: string, cells: char -> nat)
    requires cells(' ') == 1 && Width(line, cells) == 0
    ensures ' ' !in line
    decreases |line|
  {
    if line != "" {
      SpaceShows(line[..|line| - 1], cells);
      assert line == line[..|line| - 1] + [line[|line| - 1]];
    }
  }

  lemma {:induction false} BreakInside(lines: seq<string>, inside: seq<bool>, line: string, used: nat, c: char,
                                       width: nat, cells: char -> nat)
    requires Sound(lines, inside, line, used, width, cells) && |inside| == |lines|
    requires ' ' !in line && width < used + cells(c)
    ensures Sound(lines + [line], inside + [true], [c], cells(c), width, cells)
    ensures Glued(lines + [line], inside + [true], [c]) == Glued(lines, inside, line) + [c]
  {
    hide Sound, Glued;
    FitsWith("", c, width, cells);
    assert "" + [c] == [c];
    WidthOne(c, cells);
    Broken(lines, inside, line, used, true, [c], width, cells);
    GluedBreak(lines, inside, line, true, [c]);
  }

  lemma StayOnLine(lines: seq<string>, inside: seq<bool>, line: string, used: nat, c: char, width: nat,
                   cells: char -> nat)
    requires Sound(lines, inside, line, used, width, cells) && |inside| == |lines|
    requires used == 0 || used + cells(c) <= width
    ensures Sound(lines, inside, line + [c], used + cells(c), width, cells)
    ensures Glued(lines, inside, line + [c]) == Glued(lines, inside, line) + [c]
  {
    hide Sound, Glued, Fits;
    SoundMeans(lines, inside, line, used, width, cells);
    FitsWith(line, c, width, cells);
    WidthOne(c, cells);
    Longer(lines, inside, line, used, [c], width, cells);
    GluedAppend(lines, inside, line, [c]);
  }

  lemma WordNotEmpty(word: string)
    requires IsWord(word)
    ensures word != ""
  {
  }

  /** Puts `word`, too wide for a line, on a new line and as many more as it needs. */
  method BreakWord(word: string, before: seq<string>, ghost insideBefore: seq<bool>, start: string, width: nat,
                   cells: char -> nat)
    returns (lines: seq<string>, ghost inside: seq<bool>, line: string, used: nat)
    requires cells(' ') == 1 && IsWord(word)
    requires Sound(before, insideBefore, start, 0, width, cells)
    ensures Sound(lines, inside, line, used, width, cells) && line != ""
    ensures Glued(lines, inside, line) == Glued(before, insideBefore, start) + word
    ensures used == BrokenEnd(word, width, cells)
  {
    lines, inside, line, used := before, insideBefore, start, 0;
    SpaceShows(line, cells);
    hide Sound, Fits, Glued, IsWord;
    assert word != "" by { WordNotEmpty(word); }
    var k := 0;
    assert word[..0] == "" && Glued(before, insideBefore, start) + "" == Glued(before, insideBefore, start);
    while k < |word|
      invariant k <= |word|
      invariant Sound(lines, inside, line, used, width, cells)
      invariant |inside| == |lines|
      invariant ' ' !in line && (0 < k ==> line != "")
      invariant Glued(lines, inside, line) == Glued(before, insideBefore, start) + word[..k]
      invariant used == BrokenEnd(word[..k], width, cells)
    {
      var c := word[k];
      NextTaken(word, k, Glued(before, insideBefore, start));
      if 0 < used && width < used + cells(c) {
        BreakInside(lines, inside, line, used, c, width, cells);
        lines, inside := lines + [line], inside + [true];
        line, used := [c], cells(c);
      } else {
        StayOnLine(lines, inside, line, used, c, width, cells);
        line, used := line + [c], used + cells(c);
      }
      k := k + 1;
    }
    assert word[..k] == word;
  }

  lemma NextTaken(word: string, k: nat, before: string)
    requires k < |word|
    ensures before + word[..k + 1] == before + word[..k] + [word[k]]
    ensures word[..k + 1][..k] == word[..k]
  {
    assert word[..k + 1] == word[..k] + [word[k]];
  }

  lemma SoundMeans(lines: seq<string>, inside: seq<bool>, line: string, used: nat, width: nat, cells: char -> nat)
    requires Sound(lines, inside, line, used, width, cells)
    ensures |inside| == |lines| && used == Width(line, cells)
  {
  }

  /** All that is visible of the words is in what is put between the breaks. */
  lemma {:induction false} SpacedIsVisible(words: seq<string>, width: nat, cells: char -> nat)
    requires forall word | word in words :: IsWord(word)
    ensures Visible(Spaced(words, width, cells)) == Flatten(words)
    decreases |words|
  {
    hide Visible, UsedAfter;
    if words == [] {
      assert Visible("") == "" by { VisibleSpace(); }
    } else {
      var n := |words| - 1;
      var before, word := words[..n], words[n];
      var space := if 0 < UsedAfter(before, width, cells) then " " else "";
      SpacedIsVisible(before, width, cells);
      VisibleConcat(Spaced(before, width, cells) + space, word);
      VisibleConcat(Spaced(before, width, cells), space);
      assert IsWord(word);
      VisibleWord(word);
      assert Visible(space) == "" by { VisibleSpace(); }
      assert words == before + [word];
      FlattenAppend(before, [word]);
      assert Flatten([word]) == word + Flatten([]) == word;
    }
  }

  lemma VisibleSpace()
    ensures Visible(" ") == "" && Visible("") == ""
  {
  }

  /** How many lines are full once the first `k` words are laid, `used` cells of the next one taken. */
  ghost predicate Filled(words: seq<string>, k: nat, full: nat, used: nat, width: nat, cells: char -> nat)
    requires k <= |words|
  {
    if k == 0 then full == 0
    else full + Greedy(Widths(words, cells)[k..], used, width) == FewestLines(Widths(words, cells), width)
  }

  lemma FilledMore(words: seq<string>, k: nat, full: nat, used: nat, width: nat, cells: char -> nat)
    requires k < |words| && Filled(words, k, full, used, width, cells)
    ensures var w := Width(words[k], cells);
            if k == 0 then Filled(words, 1, full, w, width, cells)
            else if used + 1 + w <= width then Filled(words, k + 1, full, used + 1 + w, width, cells)
            else Filled(words, k + 1, full + 1, w, width, cells)
  {
    hide Width;
    var widths := Widths(words, cells);
    assert widths[k..][1..] == widths[k + 1..];
  }

  /** When the words fit on a line and stay apart, none is broken and the lines are as full as they go. */
  ghost predicate Whole(words: seq<string>, k: nat, lines: seq<string>, inside: seq<bool>, used: nat, width: nat,
                        cells: char -> nat)
    requires k <= |words|
  {
    Apart(words, width, cells) && AllFit(words, width, cells) ==>
      true !in inside && Filled(words, k, |lines|, used, width, cells)
  }

  lemma WholeMore(words: seq<string>, k: nat, lines: seq<string>, inside: seq<bool>, line: string, used: nat,
                  width: nat, cells: char -> nat)
    requires k < |words| && Whole(words, k, lines, inside, used, width, cells)
    requires used == UsedAfter(words[..k], width, cells)
    ensures var w := Width(words[k], cells);
            if 0 < used && used + 1 + w <= width
            then Whole(words, k + 1, lines, inside, used + 1 + w, width, cells)
            else Whole(words, k + 1, lines + (if 0 < used then [line] else []),
                       inside + (if 0 < used then [false] else []), w, width, cells)
  {
    hide Filled;
    if Apart(words, width, cells) && AllFit(words, width, cells) {
      assert 0 < k ==> 0 < UsedAfter(words[..k], width, cells);
      FilledMore(words, k, |lines|, used, width, cells);
    }
  }

  lemma StartIsSound(width: nat, words: seq<string>, cells: char -> nat)
    ensures Sound([], [], "", 0, width, cells) && Glued([], [], "") == Spaced(words[..0], width, cells)
    ensures UsedAfter(words[..0], width, cells) == 0
    ensures Whole(words, 0, [], [], 0, width, cells)
  {
  }

  /** What fits goes on the line being filled. */
  lemma Append(lines: seq<string>, inside: seq<bool>, line: string, used: nat, more: string, width: nat,
               cells: char -> nat)
    requires Sound(lines, inside, line, used, width, cells) && |inside| == |lines|
    requires used + Width(more, cells) <= width
    ensures Sound(lines, inside, line + more, used + Width(more, cells), width, cells)
    ensures Glued(lines, inside, line + more) == Glued(lines, inside, line) + more
  {
    hide Glued, Sound, Width;
    WidthConcat(line, more, cells);
    SoundMeans(lines, inside, line, used, width, cells);
    Longer(lines, inside, line, used, more, width, cells);
    GluedAppend(lines, inside, line, more);
  }

  lemma {:induction false} BreakBetween(lines: seq<string>, inside: seq<bool>, line: string, used: nat, width: nat,
                                        cells: char -> nat)
    requires Sound(lines, inside, line, used, width, cells) && |inside| == |lines|
    ensures Sound(lines + [line], inside + [false], "", 0, width, cells)
    ensures Glued(lines + [line], inside + [false], "") == Glued(lines, inside, line) + " "
  {
    hide Glued, Sound;
    Broken(lines, inside, line, used, false, "", width, cells);
    GluedBreak(lines, inside, line, false, "");
  }

  /** A word too wide for a line is not among words that all fit. */
  lemma NotWhole(words: seq<string>, k: nat, lines: seq<string>, inside: seq<bool>, used: nat, width: nat,
                 cells: char -> nat)
    requires k < |words| && width < Width(words[k], cells)
    ensures Whole(words, k + 1, lines, inside, used, width, cells)
  {
  }

  /** A word of `w` cells that fits on a line is on one, not broken. */
  predicate PutWhole(before: seq<string>, insideBefore: seq<bool>, start: string, startUsed: nat, lines: seq<string>,
                     inside: seq<bool>, used: nat, w: nat, width: nat)
  {
    w <= width ==>
      if 0 < startUsed && startUsed + 1 + w <= width
      then lines == before && inside == insideBefore && used == startUsed + 1 + w
      else && used == w
           && lines == before + (if 0 < startUsed then [start] else [])
           && inside == insideBefore + (if 0 < startUsed then [false] else [])
  }

  /** One round of the wrapping: the next word goes on the line, or on a new one. */
  method PlaceWord(word: string, before: seq<string>, ghost insideBefore: seq<bool>, start: string, startUsed: nat,
                   width: nat, cells: char -> nat)
    returns (lines: seq<string>, ghost inside: seq<bool>, line: string, used: nat)
    requires cells(' ') == 1 && IsWord(word)
    requires Sound(before, insideBefore, start, startUsed, width, cells) && |insideBefore| == |before|
    ensures Sound(lines, inside, line, used, width, cells) && |inside| == |lines| && line != ""
    ensures var glued := Glued(before, insideBefore, start);
            Glued(lines, inside, line) == (if 0 < startUsed then glued + " " else glued) + word
    ensures used == UsedWith(startUsed, word, width, cells)
    ensures PutWhole(before, insideBefore, start, startUsed, lines, inside, used, Width(word, cells), width)
  {
    hide Sound, Glued, Fits, Width, IsWord, BrokenEnd;
    lines, inside, line, used := before, insideBefore, start, startUsed;
    var w := Width(word, cells);
    WidthOne(' ', cells);
    if 0 < used && used + 1 + w <= width {
      Append(lines, inside, line, used, " ", width, cells);
      line, used := line + " ", used + 1;
      Append(lines, inside, line, used, word, width, cells);
      line, used := line + word, used + w;
      return;
    }
    if 0 < used {
      BreakBetween(lines, inside, line, used, width, cells);
      lines, inside := lines + [line], inside + [false];
      line, used := "", 0;
    }
    if w <= width {
      Append(lines, inside, line, used, word, width, cells);
      line, used := line + word, w;
      assert word != "" by { WordNotEmpty(word); }
      return;
    }
    lines, inside, line, used := BreakWord(word, lines, inside, line, width, cells);
    SoundMeans(lines, inside, line, used, width, cells);
  }

  /** What the lines are once all the words are on them. */
  lemma {:induction false} Finished(text: string, lines: seq<string>, inside: seq<bool>, line: string, used: nat,
                                    width: nat, cells: char -> nat)
    requires Placed(Words(text), |Words(text)|, lines, inside, line, used, width, cells)
    ensures |inside| == |lines| && (line == "" ==> lines == [])
    ensures Glued(lines, inside, line) == Spaced(Words(text), width, cells)
    ensures var all := lines + [line];
            && (forall full | full in all :: Fits(full, width, cells))
            && BrokenWhereItMust(all, inside, width, cells)
            && all[..|inside|] == lines && all[|inside|] == line
    ensures Visible(Glued(lines, inside, line)) == Visible(text)
    ensures Apart(Words(text), width, cells) && AllFit(Words(text), width, cells) ==>
              true !in inside && |lines| + 1 == FewestLines(Widths(Words(text), cells), width)
  {
    var words := Words(text);
    WordsAreVisible(text);
    SpacedIsVisible(words, width, cells);
    assert words[..|words|] == words;
    assert Widths(words, cells)[|words|..] == [];
  }

  /** The first `k` words are placed. */
  ghost predicate Placed(words: seq<string>, k: nat, lines: seq<string>, inside: seq<bool>, line: string, used: nat,
                         width: nat, cells: char -> nat)
  {
    && k <= |words| && |inside| == |lines| && (line == "" ==> lines == [])
    && Sound(lines, inside, line, used, width, cells)
    && used == UsedAfter(words[..k], width, cells)
    && Glued(lines, inside, line) == Spaced(words[..k], width, cells)
    && Whole(words, k, lines, inside, used, width, cells)
  }

  lemma NonePlaced(words: seq<string>, width: nat, cells: char -> nat)
    ensures Placed(words, 0, [], [], "", 0, width, cells)
  {
    hide Whole, Spaced, UsedAfter, Glued, Sound;
    StartIsSound(width, words, cells);
  }

  lemma OnePlaced(words: seq<string>, k: nat, before: seq<string>, insideBefore: seq<bool>, start: string,
                  startUsed: nat, lines: seq<string>, inside: seq<bool>, line: string, used: nat, width: nat,
                  cells: char -> nat)
    requires Placed(words, k, before, insideBefore, start, startUsed, width, cells) && k < |words|
    requires Sound(lines, inside, line, used, width, cells) && |inside| == |lines| && line != ""
    requires var glued := Glued(before, insideBefore, start);
             Glued(lines, inside, line) == (if 0 < startUsed then glued + " " else glued) + words[k]
    requires used == UsedWith(startUsed, words[k], width, cells)
    requires PutWhole(before, insideBefore, start, startUsed, lines, inside, used, Width(words[k], cells), width)
    ensures Placed(words, k + 1, lines, inside, line, used, width, cells)
  {
    hide Sound, Glued, Spaced, Whole, UsedAfter, UsedWith, Width;
    UsedAfterOneMore(words, k, width, cells);
    assert Spaced(words[..k], width, cells) + "" == Spaced(words[..k], width, cells);
    WholeMore(words, k, before, insideBefore, start, startUsed, width, cells);
    if width < Width(words[k], cells) {
      NotWhole(words, k, lines, inside, used, width, cells);
    }
  }

  lemma PlacedMeans(words: seq<string>, k: nat, lines: seq<string>, inside: seq<bool>, line: string, used: nat,
                    width: nat, cells: char -> nat)
    requires Placed(words, k, lines, inside, line, used, width, cells)
    ensures Sound(lines, inside, line, used, width, cells) && |inside| == |lines|
  {
  }

  /** All the words of `text` but the end of the last line put in its place. */
  method PlaceWords(text: string, width: nat, cells: char -> nat)
    returns (lines: seq<string>, ghost inside: seq<bool>, line: string, used: nat)
    requires cells(' ') == 1
    ensures Placed(Words(text), |Words(text)|, lines, inside, line, used, width, cells)
  {
    hide Placed, Sound, Words, Glued, UsedWith, PutWhole, Width;
    var words := Words(text);
    lines, inside, line, used := [], [], "", 0;
    var k := 0;
    NonePlaced(words, width, cells);
    while k < |words|
      invariant k <= |words|
      invariant Placed(words, k, lines, inside, line, used, width, cells)
    {
      ghost var before, insideBefore, start, startUsed := lines, inside, line, used;
      PlacedMeans(words, k, lines, inside, line, used, width, cells);
      lines, inside, line, used := PlaceWord(words[k], lines, inside, line, used, width, cells);
      OnePlaced(words, k, before, insideBefore, start, startUsed, lines, inside, line, used, width, cells);
      k := k + 1;
    }
  }

  /**
   `text` in lines at most `columns` cells wide, broken between words.
   - A line is within the width, but for one with a single visible character wider than that.
   - A word is broken only where the next character does not fit.
   - All visible text is kept, in order, with a space or a line's end after each word that leaves
     some of its line used: so the words stay apart exactly when all but the last do.
   - When they do and no word is wider than a line, none is broken and no layout takes fewer lines.
   */
  method WrapWords(text: string, columns: nat, cells: char -> nat) returns (lines: seq<string>, ghost inside: seq<bool>)
    requires cells(' ') == 1
    ensures |lines| == |inside| + 1
    ensures forall line | line in lines :: Fits(line, Max(columns, 1), cells)
    ensures BrokenWhereItMust(lines, inside, Max(columns, 1), cells)
    ensures Visible(Glued(lines[..|inside|], inside, lines[|inside|])) == Visible(text)
    ensures Glued(lines[..|inside|], inside, lines[|inside|]) == Spaced(Words(text), Max(columns, 1), cells)
    ensures Glued(lines[..|inside|], inside, lines[|inside|]) == Join(Words(text), " ")
            <==> Apart(Words(text), Max(columns, 1), cells)
    ensures Apart(Words(text), Max(columns, 1), cells) && AllFit(Words(text), Max(columns, 1), cells) ==>
              true !in inside && |lines| == FewestLines(Widths(Words(text), cells), Max(columns, 1))
  {
    hide Sound, Spaced, Whole, BrokenWhereItMust, Fits, Apart, AllFit, Glued, Join, Visible, FewestLines, Widths;
    var width := Max(columns, 1);
    var line, used;
    lines, inside, line, used := PlaceWords(text, width, cells);
    Finished(text, lines, inside, line, used, width, cells);
    ApartExactly(Words(text), width, cells);
    if line != "" || lines == [] {
      lines := lines + [line];
    }
  }
}
