/** Comparisons: what makes one a total preorder, and how orders are put together. */
module Orders {

  datatype Ordering = Less | Equal | Greater

  function Reverse(o: Ordering): Ordering {
    match o
    case Less => Greater
    case Equal => Equal
    case Greater => Less
  }

  /** The first comparison, or the second where it sees no difference. */
  function Then(first: Ordering, second: Ordering): Ordering {
    if first != Equal then first else second
  }

  /**
   How a comparison of x with z must follow from x with y and y with z: what is equal to one
   side compares as that side does, and two comparisons the same way give a third.
   */
  predicate Chain(xy: Ordering, yz: Ordering, xz: Ordering) {
    && (xy == Equal ==> xz == yz)
    && (yz == Equal ==> xz == xy)
    && (xy == yz ==> xz == xy)
  }

  /** Compared either way round the answers agree, and comparisons chain. */
  ghost predicate TotalPreorder<T(!new)>(compare: (T, T) -> Ordering) {
    && (forall x, y :: compare(y, x) == Reverse(compare(x, y)))
    && (forall x, y, z :: Chain(compare(x, y), compare(y, z), compare(x, z)))
  }

  function CompareInts(a: int, b: int): Ordering {
    if a < b then Less else if a > b then Greater else Equal
  }

  function CompareReals(a: real, b: real): Ordering {
    if a < b then Less else if a > b then Greater else Equal
  }

  /** Text by its characters' codes, a beginning before what goes on. */
  function CompareTexts(a: string, b: string): Ordering {
    if a == "" && b == "" then Equal
    else if a == "" then Less
    else if b == "" then Greater
    else Then(CompareInts(a[0] as int, b[0] as int), CompareTexts(a[1..], b[1..]))
  }

  lemma {:induction false} TextsFlip(a: string, b: string)
    ensures CompareTexts(b, a) == Reverse(CompareTexts(a, b))
    ensures CompareTexts(a, b) == Equal <==> a == b
  {
    if a != "" && b != "" {
      TextsFlip(a[1..], b[1..]);
      assert a == [a[0]] + a[1..] && b == [b[0]] + b[1..];
    }
  }

  lemma {:induction false} TextsChain(a: string, b: string, c: string)
    ensures Chain(CompareTexts(a, b), CompareTexts(b, c), CompareTexts(a, c))
  {
    if a != "" && b != "" && c != "" {
      TextsChain(a[1..], b[1..], c[1..]);
    }
  }

  /** Which of two texts is less: the one the other goes on from, or the one whose character is less where they
      first differ. */
  lemma {:induction false} TextsCompare(a: string, b: string)
    ensures CompareTexts(a, b) == Less <==>
            a < b || exists i :: 0 <= i < |a| && i < |b| && a[..i] == b[..i] && a[i] < b[i]
  {
    if a != "" && b != "" {
      TextsCompare(a[1..], b[1..]);
      if a[0] == b[0] {
        assert a[..1] == b[..1];
        assert a < b <==> a[1..] < b[1..] by { PrefixOfRest(a, b); }
        forall i | 0 <= i < |a[1..]| && i < |b[1..]|
          ensures a[1..][..i] == b[1..][..i] && a[1..][i] < b[1..][i]
                  <==> a[..i + 1] == b[..i + 1] && a[i + 1] < b[i + 1]
        {
          assert a[..i + 1] == [a[0]] + a[1..][..i] && b[..i + 1] == [b[0]] + b[1..][..i];
          assert a[..i + 1][1..] == a[1..][..i] && b[..i + 1][1..] == b[1..][..i];
        }
        FirstDifference(a, b);
      } else {
        assert a[..0] == b[..0];
        forall i | 0 < i < |a| && i < |b|
          ensures a[..i] != b[..i]
        {
          assert a[..i][0] == a[0] && b[..i][0] == b[0];
        }
      }
    }
  }

  lemma PrefixOfRest(a: string, b: string)
    requires a != "" && b != "" && a[0] == b[0]
    ensures a < b <==> a[1..] < b[1..]
  {
    assert a == [a[0]] + a[1..] && b == [b[0]] + b[1..];
    if a[1..] < b[1..] {
      assert b[1..] == a[1..] + b[1..][|a| - 1..];
      assert b == a + b[1..][|a| - 1..];
    }
    if a < b {
      assert b == a + b[|a|..];
      assert b[1..] == a[1..] + b[|a|..];
    }
  }

  lemma FirstDifference(a: string, b: string)
    requires a != "" && b != "" && a[0] == b[0]
    requires forall i | 0 <= i < |a[1..]| && i < |b[1..]| ::
               (a[1..][..i] == b[1..][..i] && a[1..][i] < b[1..][i]
                <==> a[..i + 1] == b[..i + 1] && a[i + 1] < b[i + 1])
    ensures (exists i :: 0 <= i < |a[1..]| && i < |b[1..]| && a[1..][..i] == b[1..][..i] && a[1..][i] < b[1..][i])
            <==> exists i :: 0 <= i < |a| && i < |b| && a[..i] == b[..i] && a[i] < b[i]
  {
    if i :| 0 <= i < |a| && i < |b| && a[..i] == b[..i] && a[i] < b[i] {
      assert i > 0;
      assert a[1..][..i - 1] == b[1..][..i - 1] && a[1..][i - 1] < b[1..][i - 1];
    }
    if i :| 0 <= i < |a[1..]| && i < |b[1..]| && a[1..][..i] == b[1..][..i] && a[1..][i] < b[1..][i] {
      assert a[..i + 1] == b[..i + 1] && a[i + 1] < b[i + 1];
    }
  }

  // Sorting.

  /** `x` put after all in `s` that may come before it. */
  function Put<T>(leq: (T, T) -> bool, x: T, s: seq<T>): seq<T> {
    if s == [] || !leq(s[0], x) then [x] + s else [s[0]] + Put(leq, x, s[1..])
  }

  /** A stable sort. */
  function SortedBy<T>(leq: (T, T) -> bool, s: seq<T>): seq<T>
    decreases |s|
  {
    if s == [] then [] else Put(leq, s[|s| - 1], SortedBy(leq, s[..|s| - 1]))
  }

  ghost predicate IsOrder<T(!new)>(leq: (T, T) -> bool) {
    && (forall x, y :: leq(x, y) || leq(y, x))
    && forall x, y, z :: leq(x, y) && leq(y, z) ==> leq(x, z)
  }

  predicate Ordered<T>(leq: (T, T) -> bool, s: seq<T>) {
    forall i, j | 0 <= i < j < |s| :: leq(s[i], s[j])
  }

  lemma {:induction false} PutKeeps<T>(leq: (T, T) -> bool, x: T, s: seq<T>)
    ensures multiset(Put(leq, x, s)) == multiset(s) + multiset{x}
  {
    if s != [] {
      PutKeeps(leq, x, s[1..]);
      assert s == [s[0]] + s[1..];
    }
  }

  lemma {:induction false} PutIsOrdered<T(!new)>(leq: (T, T) -> bool, x: T, s: seq<T>)
    requires IsOrder(leq) && Ordered(leq, s)
    ensures Ordered(leq, Put(leq, x, s))
  {
    if s != [] && leq(s[0], x) {
      assert Ordered(leq, s[1..]);
      PutIsOrdered(leq, x, s[1..]);
      PutKeeps(leq, x, s[1..]);
      var more := Put(leq, x, s[1..]);
      forall i | 0 <= i < |more|
        ensures leq(s[0], more[i])
      {
        assert more[i] in multiset(more);
        assert more[i] == x || more[i] in s[1..];
      }
    }
  }

  lemma {:induction false} SortedKeeps<T>(leq: (T, T) -> bool, s: seq<T>)
    ensures multiset(SortedBy(leq, s)) == multiset(s)
    decreases |s|
  {
    if s != [] {
      var n := |s| - 1;
      SortedKeeps(leq, s[..n]);
      PutKeeps(leq, s[n], SortedBy(leq, s[..n]));
      assert s == s[..n] + [s[n]];
    }
  }

  lemma {:induction false} SortedIsOrdered<T(!new)>(leq: (T, T) -> bool, s: seq<T>)
    requires IsOrder(leq)
    ensures Ordered(leq, SortedBy(leq, s))
    decreases |s|
  {
    if s != [] {
      SortedIsOrdered(leq, s[..|s| - 1]);
      PutIsOrdered(leq, s[|s| - 1], SortedBy(leq, s[..|s| - 1]));
    }
  }

  lemma SameMembers<T>(a: seq<T>, b: seq<T>)
    requires multiset(a) == multiset(b)
    ensures forall x :: x in a <==> x in b
  {
    assert forall x :: x in a <==> x in multiset(a);
    assert forall x :: x in b <==> x in multiset(b);
  }
}
