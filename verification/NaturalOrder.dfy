/**
 Natural order on text, as the grid sorts by it: by number where both texts have digits, and
 elsewhere by lower case first and the character itself second.

 Lower-casing is Unicode's and is left open as `lower`. What is asked of it: an ASCII digit is
 its own lower case, and no other character's lower case is empty or starts with one.
 */
module NaturalOrder {
  import opened Basics
  import opened Orders

  ghost predicate LowersLetters(lower: char -> string) {
    && (forall c | IsDigit(c) :: lower(c) == [c])
    && (forall c | !IsDigit(c) :: lower(c) != "" && !IsDigit(lower(c)[0]))
  }

  function CompareChars(lower: char -> string, x: char, y: char): Ordering {
    Then(CompareTexts(lower(x), lower(y)), CompareInts(x as int, y as int))
  }

  function StripZeros(digits: string): (r: string)
    ensures |r| <= |digits| && (r == "" || r[0] != '0')
    ensures AllDigits(digits) ==> AllDigits(r)
  {
    if digits != "" && digits[0] == '0' then StripZeros(digits[1..]) else digits
  }

  /** Two runs without their leading zeros: the longer is greater. */
  function CompareRuns(m: string, n: string): Ordering {
    Then(CompareInts(|m|, |n|), CompareTexts(m, n))
  }

  function NaturalCmp(lower: char -> string, a: string, b: string): Ordering
    decreases |a| + |b|
  {
    if a == "" && b == "" then Equal
    else if a == "" then Less
    else if b == "" then Greater
    else if IsDigit(a[0]) && IsDigit(b[0]) then
      var i, j := DigitRun(a), DigitRun(b);
      Then(CompareRuns(StripZeros(a[..i]), StripZeros(b[..j])), NaturalCmp(lower, a[i..], b[j..]))
    else Then(CompareChars(lower, a[0], b[0]), NaturalCmp(lower, a[1..], b[1..]))
  }

  /** `natural_cmp`, with a cursor in each text. */
  method NaturalCompare(lower: char -> string, a: string, b: string) returns (r: Ordering)
    ensures r == NaturalCmp(lower, a, b)
  {
    hide CompareChars, CompareRuns, StripZeros;
    var i, j := 0, 0;
    while i < |a| && j < |b|
      invariant i <= |a| && j <= |b|
      invariant NaturalCmp(lower, a, b) == NaturalCmp(lower, a[i..], b[j..])
      decreases |a| - i + |b| - j
    {
      var x, y := a[i], b[j];
      if IsDigit(x) && IsDigit(y) {
        var m, i' := Take(a, i);
        var n, j' := Take(b, j);
        var ord := CompareRuns(StripZeros(m), StripZeros(n));
        if ord != Equal {
          return ord;
        }
        DropTwice(a, i, i' - i);
        DropTwice(b, j, j' - j);
        i, j := i', j';
      } else {
        var ord := CompareChars(lower, x, y);
        if ord != Equal {
          return ord;
        }
        DropTwice(a, i, 1);
        DropTwice(b, j, 1);
        i, j := i + 1, j + 1;
      }
    }
    r := if i < |a| then Greater else if j < |b| then Less else Equal;
  }

  /** The run of digits at `from`, and where it ends. */
  method Take(s: string, from: nat) returns (run: string, at: nat)
    requires from < |s| && IsDigit(s[from])
    ensures run == s[from..][..DigitRun(s[from..])] && at == from + DigitRun(s[from..]) && from < at <= |s|
  {
    run, at := "", from;
    while at < |s| && IsDigit(s[at])
      invariant from <= at <= |s| && run == s[from..at]
      invariant DigitRun(s[from..]) == at - from + DigitRun(s[at..])
    {
      DropTwice(s, at, 1);
      run := run + [s[at]];
      at := at + 1;
    }
  }

  // The text as numbers and characters.

  datatype Part = Run(digits: string) | Letter(c: char)

  function Parts(s: string): seq<Part>
    decreases |s|
  {
    if s == "" then []
    else if IsDigit(s[0]) then [Run(StripZeros(s[..DigitRun(s)]))] + Parts(s[DigitRun(s)..])
    else [Letter(s[0])] + Parts(s[1..])
  }

  predicate IsPart(p: Part) {
    match p
    case Run(digits) => AllDigits(digits) && (digits == "" || digits[0] != '0')
    case Letter(c) => !IsDigit(c)
  }

  /** The character a part is placed by: every run stands where the digits do. */
  function Place(p: Part): char {
    if p.Run? then '0' else p.c
  }

  function RunOf(p: Part): string {
    if p.Run? then p.digits else ""
  }

  function CompareParts(lower: char -> string, p: Part, q: Part): Ordering {
    Then(CompareChars(lower, Place(p), Place(q)), CompareRuns(RunOf(p), RunOf(q)))
  }

  function CompareLists(lower: char -> string, a: seq<Part>, b: seq<Part>): Ordering {
    if a == [] && b == [] then Equal
    else if a == [] then Less
    else if b == [] then Greater
    else Then(CompareParts(lower, a[0], b[0]), CompareLists(lower, a[1..], b[1..]))
  }

  lemma {:induction false} PartsArePlain(s: string)
    ensures forall p | p in Parts(s) :: IsPart(p)
    decreases |s|
  {
    if s != "" {
      if IsDigit(s[0]) {
        DigitRunStops(s);
        PartsArePlain(s[DigitRun(s)..]);
        assert IsPart(Run(StripZeros(s[..DigitRun(s)])));
      } else {
        PartsArePlain(s[1..]);
      }
    }
  }

  lemma CharsFlip(lower: char -> string, x: char, y: char)
    ensures CompareChars(lower, y, x) == Reverse(CompareChars(lower, x, y))
    ensures CompareChars(lower, x, y) == Equal <==> x == y
  {
    TextsFlip(lower(x), lower(y));
  }

  lemma CharsChain(lower: char -> string, x: char, y: char, z: char)
    ensures Chain(CompareChars(lower, x, y), CompareChars(lower, y, z), CompareChars(lower, x, z))
  {
    TextsChain(lower(x), lower(y), lower(z));
  }

  lemma RunsFlip(m: string, n: string)
    ensures CompareRuns(n, m) == Reverse(CompareRuns(m, n))
    ensures CompareRuns(m, n) == Equal <==> m == n
  {
    TextsFlip(m, n);
  }

  lemma RunsChain(l: string, m: string, n: string)
    ensures Chain(CompareRuns(l, m), CompareRuns(m, n), CompareRuns(l, n))
  {
    TextsChain(l, m, n);
  }

  /** Any digit stands on the same side of a character that is not one. */
  lemma DigitsTogether(lower: char -> string, d: char, c: char)
    requires LowersLetters(lower) && IsDigit(d) && !IsDigit(c)
    ensures CompareChars(lower, d, c) == CompareChars(lower, '0', c) != Equal
    ensures CompareChars(lower, c, d) == CompareChars(lower, c, '0') != Equal
  {
    CharsFlip(lower, d, c);
    CharsFlip(lower, '0', c);
    var l := lower(c)[0];
    assert CompareTexts(lower(d), lower(c)) == CompareInts(d as int, l as int);
    assert CompareTexts(lower('0'), lower(c)) == CompareInts('0' as int, l as int);
  }

  /** `natural_cmp` is the order of the parts, one after another. */
  lemma {:induction false} NaturalIsByParts(lower: char -> string, a: string, b: string)
    requires LowersLetters(lower)
    ensures NaturalCmp(lower, a, b) == CompareLists(lower, Parts(a), Parts(b))
    decreases |a| + |b|
  {
    hide LowersLetters, CompareRuns, CompareChars;
    if a != "" && b != "" {
      var i := if IsDigit(a[0]) then DigitRun(a) else 1;
      var j := if IsDigit(b[0]) then DigitRun(b) else 1;
      var p, q := Parts(a)[0], Parts(b)[0];
      assert Parts(a)[1..] == Parts(a[i..]) && Parts(b)[1..] == Parts(b[j..]);
      NothingDiffers(lower);
      if IsDigit(a[0]) == IsDigit(b[0]) {
        NaturalIsByParts(lower, a[i..], b[j..]);
      } else if IsDigit(a[0]) {
        DigitsTogether(lower, a[0], b[0]);
      } else {
        DigitsTogether(lower, b[0], a[0]);
      }
    }
  }

  lemma NothingDiffers(lower: char -> string)
    ensures CompareRuns("", "") == Equal && CompareChars(lower, '0', '0') == Equal
  {
    CharsFlip(lower, '0', '0');
  }

  lemma {:induction false} ListsFlip(lower: char -> string, a: seq<Part>, b: seq<Part>)
    ensures CompareLists(lower, b, a) == Reverse(CompareLists(lower, a, b))
  {
    hide CompareRuns, CompareChars;
    if a != [] && b != [] {
      CharsFlip(lower, Place(a[0]), Place(b[0]));
      RunsFlip(RunOf(a[0]), RunOf(b[0]));
      ListsFlip(lower, a[1..], b[1..]);
    }
  }

  lemma {:induction false} ListsChain(lower: char -> string, a: seq<Part>, b: seq<Part>, c: seq<Part>)
    ensures Chain(CompareLists(lower, a, b), CompareLists(lower, b, c), CompareLists(lower, a, c))
  {
    hide CompareRuns, CompareChars;
    if a != [] && b != [] && c != [] {
      CharsChain(lower, Place(a[0]), Place(b[0]), Place(c[0]));
      RunsChain(RunOf(a[0]), RunOf(b[0]), RunOf(c[0]));
      ListsChain(lower, a[1..], b[1..], c[1..]);
    }
  }

  lemma {:induction false} ListsEqual(lower: char -> string, a: seq<Part>, b: seq<Part>)
    requires forall p | p in a :: IsPart(p)
    requires forall p | p in b :: IsPart(p)
    ensures CompareLists(lower, a, b) == Equal <==> a == b
  {
    hide CompareRuns, CompareChars;
    if a != [] && b != [] {
      CharsFlip(lower, Place(a[0]), Place(b[0]));
      RunsFlip(RunOf(a[0]), RunOf(b[0]));
      ListsEqual(lower, a[1..], b[1..]);
      assert IsPart(a[0]) && IsPart(b[0]);
      assert a == [a[0]] + a[1..] && b == [b[0]] + b[1..];
    }
  }

  /** `natural_cmp` is a total preorder. */
  lemma NaturalIsPreorder(lower: char -> string)
    requires LowersLetters(lower)
    ensures TotalPreorder((a: string, b: string) => NaturalCmp(lower, a, b))
  {
    forall a: string, b: string
      ensures NaturalCmp(lower, b, a) == Reverse(NaturalCmp(lower, a, b))
    {
      NaturalFlips(lower, a, b);
    }
    forall a: string, b: string, c: string
      ensures Chain(NaturalCmp(lower, a, b), NaturalCmp(lower, b, c), NaturalCmp(lower, a, c))
    {
      NaturalChains(lower, a, b, c);
    }
  }

  lemma {:induction false} NaturalFlips(lower: char -> string, a: string, b: string)
    requires LowersLetters(lower)
    ensures NaturalCmp(lower, b, a) == Reverse(NaturalCmp(lower, a, b))
  {
    NaturalIsByParts(lower, a, b);
    NaturalIsByParts(lower, b, a);
    ListsFlip(lower, Parts(a), Parts(b));
  }

  lemma NaturalChains(lower: char -> string, a: string, b: string, c: string)
    requires LowersLetters(lower)
    ensures Chain(NaturalCmp(lower, a, b), NaturalCmp(lower, b, c), NaturalCmp(lower, a, c))
  {
    NaturalIsByParts(lower, a, b);
    NaturalIsByParts(lower, b, c);
    NaturalIsByParts(lower, a, c);
    ListsChain(lower, Parts(a), Parts(b), Parts(c));
  }

  // Equal texts.

  /** `s` with the leading zeros of each run of digits left out; a run of zeros keeps one. */
  function DropZeros(s: string): string
    decreases |s|
  {
    if s == "" then ""
    else if IsDigit(s[0]) then Shown(StripZeros(s[..DigitRun(s)])) + DropZeros(s[DigitRun(s)..])
    else [s[0]] + DropZeros(s[1..])
  }

  function Shown(run: string): string {
    if run == "" then "0" else run
  }

  function Spelled(parts: seq<Part>): string {
    if parts == [] then ""
    else (if parts[0].Run? then Shown(parts[0].digits) else [parts[0].c]) + Spelled(parts[1..])
  }

  lemma {:induction false} DropZerosIsSpelled(s: string)
    ensures DropZeros(s) == Spelled(Parts(s))
    decreases |s|
  {
    if s != "" {
      var n := if IsDigit(s[0]) then DigitRun(s) else 1;
      DropZerosIsSpelled(s[n..]);
      assert Parts(s)[1..] == Parts(s[n..]);
    }
  }

  lemma {:induction false} PartsOfDropZeros(s: string)
    ensures Parts(DropZeros(s)) == Parts(s)
    ensures DropZeros(s) != "" ==> s != "" && (IsDigit(DropZeros(s)[0]) <==> IsDigit(s[0]))
    decreases |s|
  {
    if s != "" {
      if IsDigit(s[0]) {
        var n := DigitRun(s);
        DigitRunStops(s);
        var run := Shown(StripZeros(s[..n]));
        var rest := DropZeros(s[n..]);
        PartsOfDropZeros(s[n..]);
        assert rest == "" || !IsDigit(rest[0]);
        DigitRunOf(run, rest);
        DropOf(run, rest);
        StripTwice(s[..n]);
        assert (run + rest)[0] == run[0];
      } else {
        PartsOfDropZeros(s[1..]);
        DropOf([s[0]], DropZeros(s[1..]));
      }
    }
  }

  lemma StripTwice(digits: string)
    ensures StripZeros(Shown(StripZeros(digits))) == StripZeros(digits)
    ensures AllDigits(digits) ==> AllDigits(Shown(StripZeros(digits)))
  {
    var r := StripZeros(digits);
    if r == "" {
      assert "0"[1..] == "";
    }
  }

  /** Two texts compare equal exactly when they differ in leading zeros of runs of digits alone. */
  lemma EqualUpToZeros(lower: char -> string, a: string, b: string)
    requires LowersLetters(lower)
    ensures NaturalCmp(lower, a, b) == Equal <==> DropZeros(a) == DropZeros(b)
  {
    NaturalIsByParts(lower, a, b);
    PartsArePlain(a);
    PartsArePlain(b);
    ListsEqual(lower, Parts(a), Parts(b));
    DropZerosIsSpelled(a);
    DropZerosIsSpelled(b);
    PartsOfDropZeros(a);
    PartsOfDropZeros(b);
  }

  // Runs are numbers.

  lemma {:induction false} FirstDigit(digits: string)
    requires digits != "" && AllDigits(digits)
    ensures NumberOf(digits) == (digits[0] as int - '0' as int) * Power10(|digits| - 1) + NumberOf(digits[1..])
  {
    var n := |digits|;
    if n == 1 {
      assert digits[..0] == "" && digits[1..] == "";
    } else {
      FirstDigit(digits[..n - 1]);
      TakeThenDrop(digits, 1, n - 1);
      TenTimes(digits[0] as int - '0' as int, Power10(n - 2));
    }
  }

  lemma TenTimes(d: int, p: int)
    ensures 10 * (d * p) == d * (10 * p)
  {
  }

  lemma {:induction false} NumberBounds(digits: string)
    requires AllDigits(digits)
    ensures 0 <= NumberOf(digits) < Power10(|digits|)
  {
    if digits != "" {
      NumberBounds(digits[..|digits| - 1]);
    }
  }

  lemma {:induction false} StripKeepsNumber(digits: string)
    requires AllDigits(digits)
    ensures NumberOf(StripZeros(digits)) == NumberOf(digits)
  {
    if digits != "" && digits[0] == '0' {
      FirstDigit(digits);
      StripKeepsNumber(digits[1..]);
    }
  }

  lemma PowerGrows(m: nat, n: nat)
    requires m <= n
    ensures 1 <= Power10(m) <= Power10(n)
    decreases n
  {
    if m < n {
      PowerGrows(m, n - 1);
    } else if m > 0 {
      PowerGrows(m - 1, n - 1);
    }
  }

  /** Of two runs without leading zeros the shorter is the smaller number. */
  lemma ShorterIsLess(m: string, n: string)
    requires AllDigits(m) && AllDigits(n) && |m| < |n| && n[0] != '0'
    ensures NumberOf(m) < NumberOf(n)
  {
    NumberBounds(m);
    NumberBounds(n[1..]);
    FirstDigit(n);
    PowerGrows(|m|, |n| - 1);
    TimesGrows(1, n[0] as int - '0' as int, Power10(|n| - 1));
  }

  lemma TimesGrows(a: int, b: int, p: int)
    requires a <= b && p >= 0
    ensures a * p <= b * p
  {
    assert (b - a) * p >= 0;
    assert b * p == a * p + (b - a) * p;
  }

  lemma {:induction false} SameLength(m: string, n: string)
    requires AllDigits(m) && AllDigits(n) && |m| == |n|
    ensures CompareTexts(m, n) == CompareInts(NumberOf(m), NumberOf(n))
  {
    if m != "" {
      SameLength(m[1..], n[1..]);
      FirstDigit(m);
      FirstDigit(n);
      NumberBounds(m[1..]);
      NumberBounds(n[1..]);
      FirstDigitDecides(m[0] as int - '0' as int, n[0] as int - '0' as int, Power10(|m| - 1),
                        NumberOf(m[1..]), NumberOf(n[1..]));
    }
  }

  lemma FirstDigitDecides(d: int, e: int, p: int, x: int, y: int)
    requires 0 <= x < p && 0 <= y < p
    ensures CompareInts(d * p + x, e * p + y) == Then(CompareInts(d, e), CompareInts(x, y))
  {
    if d < e {
      TimesGrows(d + 1, e, p);
      assert (d + 1) * p == d * p + p;
    } else if d > e {
      TimesGrows(e + 1, d, p);
      assert (e + 1) * p == e * p + p;
    }
  }

  /** Runs of digits compare as the numbers they write, whatever their zeros. */
  lemma {:induction false} RunsAreNumbers(m: string, n: string)
    requires AllDigits(m) && AllDigits(n)
    ensures CompareRuns(StripZeros(m), StripZeros(n)) == CompareInts(NumberOf(m), NumberOf(n))
  {
    var s, t := StripZeros(m), StripZeros(n);
    StripKeepsNumber(m);
    StripKeepsNumber(n);
    if |s| < |t| {
      ShorterIsLess(s, t);
    } else if |s| > |t| {
      ShorterIsLess(t, s);
    } else {
      SameLength(s, t);
    }
  }

  // Upper and lower case.

  /** The order its description promises: characters by their lower case alone. */
  function FoldedLists(lower: char -> string, a: seq<Part>, b: seq<Part>): Ordering {
    if a == [] && b == [] then Equal
    else if a == [] then Less
    else if b == [] then Greater
    else Then(Then(CompareTexts(lower(Place(a[0])), lower(Place(b[0]))), CompareRuns(RunOf(a[0]), RunOf(b[0]))),
              FoldedLists(lower, a[1..], b[1..]))
  }

  /** Where the parts of two texts first differ, or where the shorter ends. */
  function FirstDifference(a: seq<Part>, b: seq<Part>): (i: nat)
    ensures i <= |a| && i <= |b|
  {
    if a == [] || b == [] || a[0] != b[0] then 0 else 1 + FirstDifference(a[1..], b[1..])
  }

  /** The texts first differ in a character that is the same in lower case. */
  predicate CaseComesFirst(lower: char -> string, a: seq<Part>, b: seq<Part>) {
    var i := FirstDifference(a, b);
    i < |a| && i < |b| && Place(a[i]) != Place(b[i]) && lower(Place(a[i])) == lower(Place(b[i]))
  }

  lemma {:induction false} ListsByCase(lower: char -> string, a: seq<Part>, b: seq<Part>)
    requires forall p | p in a :: IsPart(p)
    requires forall p | p in b :: IsPart(p)
    ensures var i := FirstDifference(a, b);
            CompareLists(lower, a, b) ==
            if CaseComesFirst(lower, a, b) then CompareInts(Place(a[i]) as int, Place(b[i]) as int)
            else FoldedLists(lower, a, b)
  {
    hide CompareRuns;
    if a != [] && b != [] {
      TextsFlip(lower(Place(a[0])), lower(Place(b[0])));
      RunsFlip(RunOf(a[0]), RunOf(b[0]));
      assert IsPart(a[0]) && IsPart(b[0]);
      if a[0] == b[0] {
        ListsByCase(lower, a[1..], b[1..]);
      }
    }
  }

  /**
   `natural_cmp` is the case-insensitive order except on texts that first differ in the case of
   a character: there it goes by the character's code, whatever follows.
   */
  lemma CaseDecidesWhereItComesFirst(lower: char -> string, a: string, b: string)
    requires LowersLetters(lower)
    ensures var p, q := Parts(a), Parts(b);
            var i := FirstDifference(p, q);
            NaturalCmp(lower, a, b) ==
            if CaseComesFirst(lower, p, q) then CompareInts(Place(p[i]) as int, Place(q[i]) as int)
            else FoldedLists(lower, p, q)
  {
    NaturalIsByParts(lower, a, b);
    PartsArePlain(a);
    PartsArePlain(b);
    ListsByCase(lower, Parts(a), Parts(b));
  }

  /** So it is not case-insensitive: `A2` comes before `a1`. */
  lemma UpperCaseComesFirst(lower: char -> string)
    requires LowersLetters(lower) && lower('A') == lower('a') == "a"
    ensures NaturalCmp(lower, "A2", "a1") == Less
    ensures FoldedLists(lower, Parts("A2"), Parts("a1")) == Greater
  {
    TextsFlip("a", "a");
    TextsFlip(lower('0'), lower('0'));
    assert Parts("2") == [Run("2")] && Parts("1") == [Run("1")] by {
      assert DigitRun("2") == 1 && DigitRun("1") == 1 by { assert "2"[1..] == "" && "1"[1..] == ""; }
      assert "2"[..1] == "2" && "1"[..1] == "1" && "2"[1..] == "" && "1"[1..] == "";
    }
    assert "A2"[1..] == "2" && "a1"[1..] == "1";
    assert Parts("A2") == [Letter('A'), Run("2")] && Parts("a1") == [Letter('a'), Run("1")];
    assert [Letter('A'), Run("2")][1..] == [Run("2")] && [Letter('a'), Run("1")][1..] == [Run("1")];
    assert CompareRuns("2", "1") == Greater;
    assert FoldedLists(lower, [Run("2")], [Run("1")]) == Greater;
  }
}
