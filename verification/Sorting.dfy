/**
 Sorting the grid through a permutation: the multi-key comparison of rows is a total
 preorder, and the stable order it gives is the only one there is.

 Reading a number off a text is left open as `number`: the place of the text's number among
 all numbers that are not NaN, or nothing. Infinities have a place like any other.
 */
module Sorting {
  import opened Basics
  import opened Orders
  import opened NaturalOrder
  import opened Results

  datatype Order = Asc | Desc

  datatype Key = Key(column: nat, order: Order)

  /** How text is lowered and numbers are read. */
  datatype Reading = Reading(lower: char -> string, number: string -> Option<real>)

  /** In a numeric column by value, with what is no number last; otherwise in natural order. */
  function CompareValues(how: Reading, kind: ValueKind, a: string, b: string): Ordering {
    if kind.IsNumeric() then
      var x, y := how.number(a), how.number(b);
      if x.Some? && y.Some? then CompareReals(x.value, y.value)
      else if x.Some? then Less
      else if y.Some? then Greater
      else NaturalCmp(how.lower, a, b)
    else NaturalCmp(how.lower, a, b)
  }

  /** No value is greater than NULL. */
  function CompareCells(how: Reading, kind: ValueKind, a: Cell, b: Cell): Ordering {
    if a.None? && b.None? then Equal
    else if a.None? then Greater
    else if b.None? then Less
    else CompareValues(how, kind, a.value, b.value)
  }

  function Directed(o: Ordering, order: Order): Ordering {
    if order == Desc then Reverse(o) else o
  }

  function KindOf(columns: seq<ColumnMeta>, column: nat): ValueKind {
    if column < |columns| then columns[column].kind else Other
  }

  function CompareRows(how: Reading, columns: seq<ColumnMeta>, keys: seq<Key>, a: Row, b: Row): Ordering {
    if keys == [] then Equal
    else
      var k := keys[0];
      Then(Directed(CompareCells(how, KindOf(columns, k.column), CellAt(a, k.column), CellAt(b, k.column)), k.order),
           CompareRows(how, columns, keys[1..], a, b))
  }

  lemma ValuesFlip(how: Reading, kind: ValueKind, a: string, b: string)
    requires LowersLetters(how.lower)
    ensures CompareValues(how, kind, b, a) == Reverse(CompareValues(how, kind, a, b))
  {
    hide NaturalCmp, LowersLetters;
    NaturalFlips(how.lower, a, b);
  }

  lemma ValuesChain(how: Reading, kind: ValueKind, a: string, b: string, c: string)
    requires LowersLetters(how.lower)
    ensures Chain(CompareValues(how, kind, a, b), CompareValues(how, kind, b, c), CompareValues(how, kind, a, c))
  {
    hide NaturalCmp, LowersLetters;
    NaturalChains(how.lower, a, b, c);
  }

  lemma ValuesArePreordered(how: Reading, kind: ValueKind)
    requires LowersLetters(how.lower)
    ensures TotalPreorder((a: string, b: string) => CompareValues(how, kind, a, b))
  {
    hide CompareValues, LowersLetters;
    forall a: string, b: string
      ensures CompareValues(how, kind, b, a) == Reverse(CompareValues(how, kind, a, b))
    {
      ValuesFlip(how, kind, a, b);
    }
    forall a: string, b: string, c: string
      ensures Chain(CompareValues(how, kind, a, b), CompareValues(how, kind, b, c), CompareValues(how, kind, a, c))
    {
      ValuesChain(how, kind, a, b, c);
    }
  }

  lemma {:induction false} RowsFlip(how: Reading, columns: seq<ColumnMeta>, keys: seq<Key>, a: Row, b: Row)
    requires LowersLetters(how.lower)
    ensures CompareRows(how, columns, keys, b, a) == Reverse(CompareRows(how, columns, keys, a, b))
  {
    hide CompareValues, LowersLetters;
    if keys != [] {
      var c := keys[0].column;
      RowsFlip(how, columns, keys[1..], a, b);
      if CellAt(a, c).Some? && CellAt(b, c).Some? {
        ValuesFlip(how, KindOf(columns, c), CellAt(a, c).value, CellAt(b, c).value);
      }
    }
  }

  lemma CellsChain(how: Reading, kind: ValueKind, a: Cell, b: Cell, c: Cell)
    requires LowersLetters(how.lower)
    ensures Chain(CompareCells(how, kind, a, b), CompareCells(how, kind, b, c), CompareCells(how, kind, a, c))
  {
    hide CompareValues, LowersLetters;
    if a.Some? && b.Some? && c.Some? {
      ValuesChain(how, kind, a.value, b.value, c.value);
    }
  }

  lemma {:induction false} RowsChain(how: Reading, columns: seq<ColumnMeta>, keys: seq<Key>, a: Row, b: Row, c: Row)
    requires LowersLetters(how.lower)
    ensures Chain(CompareRows(how, columns, keys, a, b), CompareRows(how, columns, keys, b, c),
                  CompareRows(how, columns, keys, a, c))
  {
    hide CompareCells, LowersLetters;
    if keys != [] {
      var k := keys[0];
      CellsChain(how, KindOf(columns, k.column), CellAt(a, k.column), CellAt(b, k.column), CellAt(c, k.column));
      RowsChain(how, columns, keys[1..], a, b, c);
    }
  }

  /** The comparison of rows under any keys, either direction each, is a total preorder. */
  lemma RowsArePreordered(how: Reading, columns: seq<ColumnMeta>, keys: seq<Key>)
    requires LowersLetters(how.lower)
    ensures TotalPreorder((a: Row, b: Row) => CompareRows(how, columns, keys, a, b))
  {
    hide CompareRows, LowersLetters;
    forall a: Row, b: Row
      ensures CompareRows(how, columns, keys, b, a) == Reverse(CompareRows(how, columns, keys, a, b))
    {
      RowsFlip(how, columns, keys, a, b);
    }
    forall a: Row, b: Row, c: Row
      ensures Chain(CompareRows(how, columns, keys, a, b), CompareRows(how, columns, keys, b, c),
                    CompareRows(how, columns, keys, a, c))
    {
      RowsChain(how, columns, keys, a, b, c);
    }
  }

  // The permutation.

  /** How many rows are sorted: their numbers have 32 bits. */
  function Count(result: QueryResult): nat {
    Min(|result.rows|, 0xFFFF_FFFF)
  }

  function CompareAt(how: Reading, result: QueryResult, keys: seq<Key>, i: nat, j: nat): Ordering
    requires i < |result.rows| && j < |result.rows|
  {
    CompareRows(how, result.columns, keys, result.rows[i], result.rows[j])
  }

  /** Row `i` comes before row `j`: it compares less, or the same and was there first. */
  predicate Precedes(how: Reading, result: QueryResult, keys: seq<Key>, i: nat, j: nat)
    requires i < |result.rows| && j < |result.rows|
  {
    var o := CompareAt(how, result, keys, i, j);
    o == Less || (o == Equal && i < j)
  }

  lemma PrecedesChains(how: Reading, result: QueryResult, keys: seq<Key>, i: nat, j: nat, k: nat)
    requires LowersLetters(how.lower)
    requires i < |result.rows| && j < |result.rows| && k < |result.rows|
    ensures !Precedes(how, result, keys, i, i)
    ensures Precedes(how, result, keys, i, j) && Precedes(how, result, keys, j, k) ==> Precedes(how, result, keys, i, k)
    ensures i != j ==> (Precedes(how, result, keys, i, j) <==> !Precedes(how, result, keys, j, i))
  {
    hide CompareRows, LowersLetters;
    RowsFlip(how, result.columns, keys, result.rows[i], result.rows[i]);
    RowsFlip(how, result.columns, keys, result.rows[i], result.rows[j]);
    RowsChain(how, result.columns, keys, result.rows[i], result.rows[j], result.rows[k]);
  }

  predicate AllBelow(order: seq<nat>, n: nat) {
    forall p | 0 <= p < |order| :: order[p] < n
  }

  /** Sorted, and rows that compare equal keep their order. */
  ghost predicate Sorted(how: Reading, result: QueryResult, keys: seq<Key>, order: seq<nat>)
    requires AllBelow(order, |result.rows|)
  {
    forall p, q | 0 <= p < q < |order| :: Precedes(how, result, keys, order[p], order[q])
  }

  /** Each of the first `n` rows once, in order. */
  ghost predicate SortsRows(how: Reading, result: QueryResult, keys: seq<Key>, order: seq<nat>, n: nat)
    requires n <= |result.rows|
  {
    && AllBelow(order, n) && |order| == n && (forall i: nat | i < n :: i in order)
    && AllBelow(order, |result.rows|) && Sorted(how, result, keys, order)
  }

  // What the order means for the cells.

  /**
   `x` may stand above `y` in a column sorted upwards: a value before no value; a number before
   a greater one, and before what is no number, in a column of numbers; else in natural order.
   */
  predicate Rises(how: Reading, kind: ValueKind, x: Cell, y: Cell) {
    match (x, y)
    case (_, None) => true
    case (None, Some(_)) => false
    case (Some(a), Some(b)) =>
      var m, n := how.number(a), how.number(b);
      if kind.IsNumeric() && (m.Some? || n.Some?) then m.Some? && (n.Some? ==> m.value <= n.value)
      else NaturalCmp(how.lower, a, b) != Greater
  }

  /** Neither need stand above the other. */
  predicate Ties(how: Reading, kind: ValueKind, x: Cell, y: Cell) {
    match (x, y)
    case (None, None) => true
    case (Some(a), Some(b)) =>
      var m, n := how.number(a), how.number(b);
      if kind.IsNumeric() && (m.Some? || n.Some?) then m == n else NaturalCmp(how.lower, a, b) == Equal
    case _ => false
  }

  /** The cells of row `a` stand above those of `b` as the keys ask: the first key whose cells do not tie
      decides, upwards or downwards; where all tie, `first` says. */
  predicate AsKeysAsk(how: Reading, columns: seq<ColumnMeta>, keys: seq<Key>, a: Row, b: Row, first: bool) {
    if keys == [] then first
    else
      var c := keys[0].column;
      var kind := if c < |columns| then columns[c].kind else Other;
      && (match keys[0].order
          case Asc => Rises(how, kind, CellAt(a, c), CellAt(b, c))
          case Desc => Rises(how, kind, CellAt(b, c), CellAt(a, c)))
      && (Ties(how, kind, CellAt(a, c), CellAt(b, c)) ==> AsKeysAsk(how, columns, keys[1..], a, b, first))
  }

  lemma CellsMean(how: Reading, kind: ValueKind, x: Cell, y: Cell)
    requires LowersLetters(how.lower)
    ensures Rises(how, kind, x, y) <==> CompareCells(how, kind, x, y) != Greater
    ensures Rises(how, kind, y, x) <==> CompareCells(how, kind, x, y) != Less
    ensures Ties(how, kind, x, y) <==> CompareCells(how, kind, x, y) == Equal
  {
    hide NaturalCmp, LowersLetters;
    if x.Some? && y.Some? {
      NaturalFlips(how.lower, x.value, y.value);
    }
  }

  /** A row precedes another exactly when the cells stand as the keys ask. */
  lemma {:induction false} RowsMean(how: Reading, columns: seq<ColumnMeta>, keys: seq<Key>, a: Row, b: Row, first: bool)
    requires LowersLetters(how.lower)
    ensures var o := CompareRows(how, columns, keys, a, b);
            o == Less || (o == Equal && first) <==> AsKeysAsk(how, columns, keys, a, b, first)
  {
    hide CompareCells, Rises, Ties, LowersLetters;
    if keys != [] {
      var c := keys[0].column;
      CellsMean(how, KindOf(columns, c), CellAt(a, c), CellAt(b, c));
      RowsMean(how, columns, keys[1..], a, b, first);
    }
  }

  /** Every row of the order stands above every later one as the keys ask; rows whose cells all tie, as they stood. */
  lemma OrderIsAsAsked(how: Reading, result: QueryResult, keys: seq<Key>, order: seq<nat>, n: nat)
    requires LowersLetters(how.lower) && n <= |result.rows| && SortsRows(how, result, keys, order, n)
    ensures forall p, q | 0 <= p < q < |order| ::
              AsKeysAsk(how, result.columns, keys, result.rows[order[p]], result.rows[order[q]], order[p] < order[q])
  {
    hide CompareRows, LowersLetters, AsKeysAsk;
    forall p, q | 0 <= p < q < |order|
      ensures AsKeysAsk(how, result.columns, keys, result.rows[order[p]], result.rows[order[q]], order[p] < order[q])
    {
      assert Precedes(how, result, keys, order[p], order[q]);
      RowsMean(how, result.columns, keys, result.rows[order[p]], result.rows[order[q]], order[p] < order[q]);
    }
  }

  /** Upwards by one column no NULL stands above a value, downwards no value above a NULL. */
  lemma NullsGoLast(how: Reading, result: QueryResult, column: nat, order: Order, rows: seq<nat>, p: nat, q: nat)
    requires LowersLetters(how.lower) && SortsRows(how, result, [Key(column, order)], rows, Count(result))
    requires p < q < |rows|
    ensures var x, y := CellAt(result.rows[rows[p]], column), CellAt(result.rows[rows[q]], column);
            match order
            case Asc => x.None? ==> y.None?
            case Desc => y.None? ==> x.None?
  {
    OrderIsAsAsked(how, result, [Key(column, order)], rows, Count(result));
    hide NaturalCmp, LowersLetters, SortsRows;
    assert AsKeysAsk(how, result.columns, [Key(column, order)], result.rows[rows[p]], result.rows[rows[q]],
                     rows[p] < rows[q]);
  }

  /**
   `sort_permutation`. The library's sort is any stable one; this puts each row in turn after
   those that do not compare greater.
   */
  method SortPermutation(how: Reading, result: QueryResult, keys: seq<Key>) returns (order: seq<nat>)
    requires LowersLetters(how.lower)
    ensures SortsRows(how, result, keys, order, Count(result))
    ensures forall p, q | 0 <= p < q < |order| ::
              AsKeysAsk(how, result.columns, keys, result.rows[order[p]], result.rows[order[q]], order[p] < order[q])
  {
    hide CompareRows, LowersLetters, AsKeysAsk;
    order := [];
    for row := 0 to Count(result)
      invariant SortsRows(how, result, keys, order, row)
    {
      var at := |order|;
      while at > 0 && CompareAt(how, result, keys, order[at - 1], row) == Greater
        invariant 0 <= at <= |order|
        invariant forall p | at <= p < |order| :: Precedes(how, result, keys, row, order[p])
      {
        RowsFlip(how, result.columns, keys, result.rows[order[at - 1]], result.rows[row]);
        at := at - 1;
      }
      InsertKeepsSorted(how, result, keys, order, row, at);
      order := order[..at] + [row] + order[at..];
    }
    OrderIsAsAsked(how, result, keys, order, Count(result));
  }

  /** A row put between those before it and those after it. */
  lemma InsertKeepsSorted(how: Reading, result: QueryResult, keys: seq<Key>, order: seq<nat>, row: nat, at: nat)
    requires LowersLetters(how.lower)
    requires row < |result.rows| && SortsRows(how, result, keys, order, row) && at <= |order|
    requires forall p | at <= p < |order| :: Precedes(how, result, keys, row, order[p])
    requires at > 0 ==> CompareAt(how, result, keys, order[at - 1], row) != Greater
    ensures SortsRows(how, result, keys, order[..at] + [row] + order[at..], row + 1)
  {
    hide CompareRows, LowersLetters;
    forall p | 0 <= p < at
      ensures Precedes(how, result, keys, order[p], row)
    {
      if p < at - 1 {
        PrecedesChains(how, result, keys, order[p], order[at - 1], row);
      }
    }
    BetweenIsSorted(how, result, keys, order, row, at);
  }

  lemma BetweenIsSorted(how: Reading, result: QueryResult, keys: seq<Key>, order: seq<nat>, row: nat, at: nat)
    requires row < |result.rows| && SortsRows(how, result, keys, order, row) && at <= |order|
    requires forall p | at <= p < |order| :: Precedes(how, result, keys, row, order[p])
    requires forall p | 0 <= p < at :: Precedes(how, result, keys, order[p], row)
    ensures SortsRows(how, result, keys, order[..at] + [row] + order[at..], row + 1)
  {
    hide Precedes;
    var more := order[..at] + [row] + order[at..];
    forall i: nat | i < row + 1
      ensures i in more
    {
      if i < row {
        assert i in order;
        var p :| 0 <= p < |order| && order[p] == i;
        assert more[if p < at then p else p + 1] == i;
      } else {
        assert more[at] == row;
      }
    }
    forall p, q | 0 <= p < q < |more|
      ensures Precedes(how, result, keys, more[p], more[q])
    {
      var p' := if p < at then p else p - 1;
      var q' := if q < at then q else q - 1;
      if p != at && q != at {
        assert more[p] == order[p'] && more[q] == order[q'];
      }
    }
  }

  /** Two sorted orders of the same rows start with the same one. */
  lemma SameFirst(how: Reading, result: QueryResult, keys: seq<Key>, a: seq<nat>, b: seq<nat>)
    requires LowersLetters(how.lower)
    requires AllBelow(a, |result.rows|) && Sorted(how, result, keys, a)
    requires AllBelow(b, |result.rows|) && Sorted(how, result, keys, b)
    requires a != [] && b != [] && a[0] in b && b[0] in a
    ensures a[0] == b[0]
  {
    hide CompareRows, LowersLetters;
    if a[0] != b[0] {
      var p :| 0 <= p < |a| && a[p] == b[0];
      var q :| 0 <= q < |b| && b[q] == a[0];
      assert Precedes(how, result, keys, a[0], a[p]);
      assert Precedes(how, result, keys, b[0], b[q]);
      PrecedesChains(how, result, keys, a[0], b[0], a[0]);
    }
  }

  lemma {:induction false} SameOrder(how: Reading, result: QueryResult, keys: seq<Key>, a: seq<nat>, b: seq<nat>)
    requires LowersLetters(how.lower)
    requires AllBelow(a, |result.rows|) && Sorted(how, result, keys, a)
    requires AllBelow(b, |result.rows|) && Sorted(how, result, keys, b)
    requires |a| == |b| && forall i: nat :: i in a <==> i in b
    ensures a == b
  {
    hide Precedes, LowersLetters;
    if a != [] {
      assert a[0] in b;
      assert b[0] in a;
      SameFirst(how, result, keys, a, b);
      FirstOnce(how, result, keys, a);
      FirstOnce(how, result, keys, b);
      forall i: nat
        ensures i in a[1..] <==> i in b[1..]
      {
        assert a == [a[0]] + a[1..] && b == [b[0]] + b[1..];
        assert i in a <==> i == a[0] || i in a[1..];
        assert i in b <==> i == b[0] || i in b[1..];
      }
      SameOrder(how, result, keys, a[1..], b[1..]);
    }
  }

  lemma FirstOnce(how: Reading, result: QueryResult, keys: seq<Key>, a: seq<nat>)
    requires LowersLetters(how.lower)
    requires AllBelow(a, |result.rows|) && Sorted(how, result, keys, a) && a != []
    ensures a[0] !in a[1..]
  {
    hide CompareRows, LowersLetters;
    if a[0] in a[1..] {
      var p :| 0 < p < |a| && a[p] == a[0];
      PrecedesChains(how, result, keys, a[0], a[0], a[0]);
    }
  }

  /** There is one permutation that is sorted and keeps equal rows in order. */
  lemma OnlyOneOrder(how: Reading, result: QueryResult, keys: seq<Key>, a: seq<nat>, b: seq<nat>)
    requires LowersLetters(how.lower)
    requires SortsRows(how, result, keys, a, Count(result)) && SortsRows(how, result, keys, b, Count(result))
    ensures a == b
  {
    hide Precedes, LowersLetters;
    forall i: nat
      ensures i in a <==> i in b
    {
    }
    SameOrder(how, result, keys, a, b);
  }
}
