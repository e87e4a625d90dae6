/**
 What of a grid is on screen, and finding a text in it (grid.rs). Which cells match is left
 open as `hit`; each step of the search looks at so many rows and no more.
 */
module GridView {
  import opened Basics
  import opened Results

  const COLUMN_SPACING := 1

  // Columns.

  datatype Shown = Shown(column: nat, width: nat)

  /** The columns to show, in order: the first one if it is frozen, then from `offset` on. */
  function Candidates(count: nat, offset: nat, frozen: bool): seq<nat> {
    var from := Max(offset, if frozen then 1 else 0);
    (if frozen && count > 0 then [0] else [])
    + (if from < count then seq(count - from, i requires 0 <= i => from + i) else [])
  }

  /** Whether a column is one to show: it is not scrolled past, or it is the first and frozen. */
  predicate Wanted(count: nat, offset: nat, frozen: bool, c: nat) {
    c < count && (offset <= c || (frozen && c == 0))
  }

  /** The candidates are exactly the columns to show, from left to right. */
  lemma CandidatesAreWanted(count: nat, offset: nat, frozen: bool)
    ensures forall c: nat :: c in Candidates(count, offset, frozen) <==> Wanted(count, offset, frozen, c)
    ensures var all := Candidates(count, offset, frozen); forall i, j | 0 <= i < j < |all| :: all[i] < all[j]
  {
    var all := Candidates(count, offset, frozen);
    var from, first := Max(offset, if frozen then 1 else 0), if frozen && count > 0 then 1 else 0;
    forall c: nat | Wanted(count, offset, frozen, c)
      ensures c in all
    {
      if frozen && c == 0 {
        assert all[0] == 0;
      } else {
        assert all[first + (c - from)] == c;
      }
    }
  }

  ghost predicate IsShown(shown: seq<Shown>, c: nat) {
    exists k :: 0 <= k < |shown| && shown[k].column == c
  }

  /** What is shown of the columns: some of those wanted, from left to right, and none wanted left out among them. */
  ghost predicate ShowsWanted(shown: seq<Shown>, count: nat, offset: nat, frozen: bool) {
    && (forall i, j | 0 <= i < j < |shown| :: shown[i].column < shown[j].column)
    && (forall i | 0 <= i < |shown| :: Wanted(count, offset, frozen, shown[i].column))
    && forall c: nat | shown != [] && c <= shown[|shown| - 1].column && Wanted(count, offset, frozen, c) ::
         IsShown(shown, c)
  }

  lemma FillsShowsWanted(shown: seq<Shown>, widths: seq<nat>, offset: nat, frozen: bool, available: nat)
    requires FillsSoFar(shown, widths, Candidates(|widths|, offset, frozen), available)
    ensures ShowsWanted(shown, |widths|, offset, frozen)
    ensures |shown| == |Candidates(|widths|, offset, frozen)| ==>
              forall c: nat | Wanted(|widths|, offset, frozen, c) :: IsShown(shown, c)
  {
    var all := Candidates(|widths|, offset, frozen);
    forall i | 0 <= i < |shown|
      ensures i < |all| && shown[i].column == all[i] && Wanted(|widths|, offset, frozen, shown[i].column)
    {
      ColumnsInOrder(shown, widths, all, available, i);
      CandidatesAreWanted(|widths|, offset, frozen);
      assert all[i] in all;
    }
    assert forall i, j | 0 <= i < j < |shown| :: all[i] < all[j] by {
      CandidatesAreWanted(|widths|, offset, frozen);
    }
    hide Candidates, FillsSoFar, Wanted, IsShown;
    forall c: nat | Wanted(|widths|, offset, frozen, c)
      ensures |shown| == |all| || (shown != [] && c <= shown[|shown| - 1].column) ==> IsShown(shown, c)
    {
      CandidatesAreWanted(|widths|, offset, frozen);
      IsAmong(shown, all, c);
    }
  }

  lemma IsAmong(shown: seq<Shown>, all: seq<nat>, c: nat)
    requires |shown| <= |all| && (forall i | 0 <= i < |shown| :: shown[i].column == all[i]) && c in all
    requires forall i, j | 0 <= i < j < |all| :: all[i] < all[j]
    ensures |shown| == |all| || (shown != [] && c <= shown[|shown| - 1].column) ==> IsShown(shown, c)
  {
    var k :| 0 <= k < |all| && all[k] == c;
    if k < |shown| {
      assert shown[k].column == c;
    } else if shown != [] {
      assert all[|shown| - 1] < all[k];
    }
  }

  /** The cells that some columns take, with the spacing between them. */
  function Taken(shown: seq<Shown>): nat {
    if shown == [] then 0
    else Taken(shown[..|shown| - 1]) + shown[|shown| - 1].width + if |shown| > 1 then COLUMN_SPACING else 0
  }

  /** The room left for one more column. */
  function Room(shown: seq<Shown>, available: nat): nat {
    Max(available - Taken(shown) - if shown == [] then 0 else COLUMN_SPACING, 0)
  }

  /**
   The first of the candidates, as many as there is room for: each but the last in full, the
   last narrowed to what space is left, and none left out that a cell could be shown of.
   */
  predicate Fills(shown: seq<Shown>, widths: seq<nat>, candidates: seq<nat>, available: nat) {
    && FillsSoFar(shown, widths, candidates, available)
    && (|shown| == |candidates| || Room(shown, available) == 0)
  }

  method VisibleColumns(widths: seq<nat>, offset: nat, frozen: bool, available: nat) returns (visible: seq<Shown>)
    ensures Fills(visible, widths, Candidates(|widths|, offset, frozen), available)
    ensures Taken(visible) <= available
    // They are the first of the columns to show, and all of them unless the space is full.
    ensures ShowsWanted(visible, |widths|, offset, frozen)
    ensures Room(visible, available) > 0 ==>
              forall c: nat | Wanted(|widths|, offset, frozen, c) :: IsShown(visible, c)
  {
    visible := [];
    var used := 0;
    var order := Candidates(|widths|, offset, frozen);
    var k := 0;
    while k < |order|
      invariant k == |visible| <= |order| && used == Taken(visible) <= available
      invariant FillsSoFar(visible, widths, order, available)
    {
      assert order[k] < |widths|;
      var gap := if visible == [] then 0 else COLUMN_SPACING;
      var room := Max(available - (used + gap), 0);
      if room == 0 {
        break;
      }
      var next := Shown(order[k], Min(widths[order[k]], room));
      OneMoreShown(visible, next, widths, order, available);
      visible := visible + [next];
      used := used + gap + next.width;
      k := k + 1;
    }
    FillsShowsWanted(visible, widths, offset, frozen, available);
  }

  /** The first of the candidates, each as wide as there was room for. */
  predicate FillsSoFar(shown: seq<Shown>, widths: seq<nat>, candidates: seq<nat>, available: nat)
    decreases |shown|
  {
    shown == [] ||
    var n := |shown| - 1;
    && FillsSoFar(shown[..n], widths, candidates, available)
    && n < |candidates| && shown[n].column == candidates[n] && 0 < Room(shown[..n], available)
    && (shown[n].column < |widths| ==> shown[n].width == Min(widths[shown[n].column], Room(shown[..n], available)))
  }

  lemma OneMoreShown(shown: seq<Shown>, next: Shown, widths: seq<nat>, candidates: seq<nat>, available: nat)
    requires FillsSoFar(shown, widths, candidates, available) && |shown| < |candidates|
    requires next.column == candidates[|shown|] < |widths|
    requires next.width == Min(widths[next.column], Room(shown, available)) && 0 < Room(shown, available)
    ensures FillsSoFar(shown + [next], widths, candidates, available)
    ensures Taken(shown + [next]) == Taken(shown) + next.width + if shown == [] then 0 else COLUMN_SPACING
  {
    assert (shown + [next])[..|shown|] == shown;
  }

  /** Only the last column is ever cut short, and then the space is full. */
  lemma {:induction false} OnlyTheLastIsCut(shown: seq<Shown>, widths: seq<nat>, candidates: seq<nat>,
                                            available: nat, i: nat)
    requires FillsSoFar(shown, widths, candidates, available)
    requires i < |shown| && shown[i].column < |widths| && shown[i].width < widths[shown[i].column]
    ensures i == |shown| - 1 && Taken(shown) == available
    decreases |shown|
  {
    var n := |shown| - 1;
    if i < n {
      OnlyTheLastIsCut(shown[..n], widths, candidates, available, i);
    }
  }

  /** The columns shown are the first of the candidates. */
  lemma {:induction false} ColumnsInOrder(shown: seq<Shown>, widths: seq<nat>, candidates: seq<nat>, available: nat,
                                          i: nat)
    requires FillsSoFar(shown, widths, candidates, available) && i < |shown|
    ensures |shown| <= |candidates| && shown[i].column == candidates[i]
    decreases |shown|
  {
    var n := |shown| - 1;
    if i < n {
      ColumnsInOrder(shown[..n], widths, candidates, available, i);
    }
  }

  // Searching.

  datatype At = At(row: nat, column: nat)

  predicate Precedes(a: At, b: At) {
    a.row < b.row || (a.row == b.row && a.column < b.column)
  }

  /** The matches in one row from `column` on. */
  function RowMatches(hit: Cell -> bool, row: Row, r: nat, column: nat): seq<At>
    decreases |row| - column
  {
    if column >= |row| then []
    else (if hit(row[column]) then [At(r, column)] else []) + RowMatches(hit, row, r, column + 1)
  }

  /** Every match in the rows, row by row. */
  function AllMatches(hit: Cell -> bool, rows: seq<Row>): seq<At>
    decreases |rows|
  {
    if rows == [] then []
    else
      var r := |rows| - 1;
      AllMatches(hit, rows[..r]) + RowMatches(hit, rows[r], r, 0)
  }

  predicate IsMatch(hit: Cell -> bool, rows: seq<Row>, at: At) {
    at.row < |rows| && at.column < |rows[at.row]| && hit(rows[at.row][at.column])
  }

  predicate InOrder(matches: seq<At>) {
    forall i, j | 0 <= i < j < |matches| :: Precedes(matches[i], matches[j])
  }

  lemma {:induction false} RowMatchesAre(hit: Cell -> bool, row: Row, r: nat, column: nat)
    ensures forall at :: at in RowMatches(hit, row, r, column) <==>
                           at.row == r && column <= at.column < |row| && hit(row[at.column])
    ensures InOrder(RowMatches(hit, row, r, column))
    decreases |row| - column
  {
    if column < |row| {
      RowMatchesAre(hit, row, r, column + 1);
    }
  }

  /** The matches are exactly the cells that match, each once, in row order. */
  lemma {:induction false} AllMatchesAre(hit: Cell -> bool, rows: seq<Row>)
    ensures forall at :: at in AllMatches(hit, rows) <==> IsMatch(hit, rows, at)
    ensures InOrder(AllMatches(hit, rows))
    decreases |rows|
  {
    if rows != [] {
      var r := |rows| - 1;
      AllMatchesAre(hit, rows[..r]);
      RowMatchesAre(hit, rows[r], r, 0);
      forall at
        ensures at in AllMatches(hit, rows) <==> IsMatch(hit, rows, at)
      {
        assert at in AllMatches(hit, rows) <==>
            at in AllMatches(hit, rows[..r]) || at in RowMatches(hit, rows[r], r, 0);
      }
      var before := AllMatches(hit, rows[..r]);
      assert forall i | 0 <= i < |before| :: before[i] in before && before[i].row < r;
      var after := RowMatches(hit, rows[r], r, 0);
      assert forall i | 0 <= i < |after| :: after[i] in after && after[i].row == r;
    }
  }

  /** The matches in the rows from `from` on and before `end`. */
  function MatchesBetween(hit: Cell -> bool, rows: seq<Row>, from: nat, end: nat): seq<At>
    requires end <= |rows| || end <= from
    decreases end
  {
    if end <= from then []
    else MatchesBetween(hit, rows, from, end - 1) + RowMatches(hit, rows[end - 1], end - 1, 0)
  }

  lemma {:induction false} MatchesGoOn(hit: Cell -> bool, rows: seq<Row>, from: nat, end: nat)
    requires from <= end <= |rows|
    ensures AllMatches(hit, rows[..from]) + MatchesBetween(hit, rows, from, end) == AllMatches(hit, rows[..end])
    decreases end
  {
    if from < end {
      MatchesGoOn(hit, rows, from, end - 1);
      assert rows[..end][..end - 1] == rows[..end - 1];
      Assoc(AllMatches(hit, rows[..from]), MatchesBetween(hit, rows, from, end - 1),
            RowMatches(hit, rows[end - 1], end - 1, 0));
    }
  }

  class Search {
    const hit: Cell -> bool
    /** Whether there is anything to look for: an empty text matches nothing. */
    const any: bool
    var next: nat
    var matches: seq<At>

    constructor (hit: Cell -> bool, any: bool)
      ensures this.hit == hit && this.any == any && next == 0 && matches == []
    {
      this.hit, this.any, next, matches := hit, any, 0, [];
    }

    /**
     The next `budget` rows are looked at, or what is left of them. While the rows looked at
     before are still there, the matches are those of all the rows so far, however they were
     split up; with fewer rows than that nothing is looked at.
     */
    method Step(rows: seq<Row>, budget: nat) returns (done: bool)
      modifies this
      ensures next == (if any then Min(old(next) + budget, |rows|) else |rows|)
      ensures matches == old(matches) + (if any then MatchesBetween(hit, rows, old(next), next) else [])
      ensures any && old(next) <= |rows| && old(matches) == AllMatches(hit, rows[..old(next)]) ==>
                matches == AllMatches(hit, rows[..next])
      ensures done == (next == |rows|)
    {
      if !any {
        next := |rows|;
        return true;
      }
      var end := Min(next + budget, |rows|);
      var r := next;
      assert matches + [] == matches;
      while r < end
        invariant next == old(next) <= r && (r <= end || r == next)
        invariant matches == old(matches) + MatchesBetween(hit, rows, next, r)
        decreases end - r
      {
        ghost var before := matches;
        var row := rows[r];
        var c := 0;
        while c < |row|
          invariant next == old(next) && c <= |row|
          invariant matches + RowMatches(hit, row, r, c) == before + RowMatches(hit, row, r, 0)
        {
          if hit(row[c]) {
            Assoc(matches, [At(r, c)], RowMatches(hit, row, r, c + 1));
            matches := matches + [At(r, c)];
          } else {
            assert [] + RowMatches(hit, row, r, c + 1) == RowMatches(hit, row, r, c + 1);
          }
          c := c + 1;
        }
        assert matches + [] == matches;
        Assoc(old(matches), MatchesBetween(hit, rows, next, r), RowMatches(hit, row, r, 0));
        r := r + 1;
      }
      if next <= |rows| {
        MatchesGoOn(hit, rows, next, end);
      }
      next := end;
      done := next >= |rows|;
    }

    /** The match after `at`, or before it, round and round. */
    method NextFrom(at: At, forwards: bool) returns (found: Option<At>)
      ensures found == if forwards then After(matches, at) else BeforeOf(matches, at)
    {
      if forwards {
        var i: nat := 0;
        while i < |matches| && !Precedes(at, matches[i])
          invariant i <= |matches| && forall k | 0 <= k < i :: !Precedes(at, matches[k])
        {
          i := i + 1;
        }
        FirstIs(matches, at, i);
        found := if i < |matches| then Some(matches[i]) else if matches != [] then Some(matches[0]) else None;
      } else {
        var i: nat := |matches|;
        while 0 < i && !Precedes(matches[i - 1], at)
          invariant i <= |matches| && forall k | i <= k < |matches| :: !Precedes(matches[k], at)
        {
          i := i - 1;
        }
        LastIs(matches, at, i);
        found := if 0 < i then Some(matches[i - 1]) else if matches != [] then Some(matches[|matches| - 1]) else None;
      }
    }
  }

  /** The first match after `at`, or the first of all. */
  function After(matches: seq<At>, at: At): Option<At> {
    if matches == [] then None
    else
      var i := FirstAfter(matches, at);
      Some(if i < |matches| then matches[i] else matches[0])
  }

  function FirstAfter(matches: seq<At>, at: At): (i: nat)
    ensures i <= |matches|
    ensures i < |matches| ==> Precedes(at, matches[i])
    ensures forall k | 0 <= k < i :: !Precedes(at, matches[k])
  {
    if matches == [] || Precedes(at, matches[0]) then 0 else 1 + FirstAfter(matches[1..], at)
  }

  /** The last match before `at`, or the last of all. */
  function BeforeOf(matches: seq<At>, at: At): Option<At> {
    if matches == [] then None
    else
      var i := LastBefore(matches, at);
      Some(if 0 < i then matches[i - 1] else matches[|matches| - 1])
  }

  /** One past the last match before `at`. */
  function LastBefore(matches: seq<At>, at: At): (i: nat)
    ensures i <= |matches|
    ensures 0 < i ==> Precedes(matches[i - 1], at)
    ensures forall k | i <= k < |matches| :: !Precedes(matches[k], at)
    decreases |matches|
  {
    if matches == [] then 0
    else
      var n := |matches| - 1;
      if Precedes(matches[n], at) then n + 1
      else
        var i := LastBefore(matches[..n], at);
        assert forall k | i <= k < n :: matches[..n][k] == matches[k];
        i
  }

  lemma FirstIs(matches: seq<At>, at: At, i: nat)
    requires i <= |matches| && forall k | 0 <= k < i :: !Precedes(at, matches[k])
    requires i < |matches| ==> Precedes(at, matches[i])
    ensures FirstAfter(matches, at) == i
  {
  }

  lemma LastIs(matches: seq<At>, at: At, i: nat)
    requires i <= |matches| && forall k | i <= k < |matches| :: !Precedes(matches[k], at)
    requires 0 < i ==> Precedes(matches[i - 1], at)
    ensures LastBefore(matches, at) == i
  {
    var j := LastBefore(matches, at);
    assert forall k | j <= k < |matches| :: !Precedes(matches[k], at);
  }

  /** From a match, going on visits the next one round the list, and going back comes back to it. */
  lemma ThereAndBack(matches: seq<At>, i: nat)
    requires InOrder(matches) && i < |matches|
    ensures var n := if i + 1 < |matches| then i + 1 else 0;
            After(matches, matches[i]) == Some(matches[n]) && BeforeOf(matches, matches[n]) == Some(matches[i])
  {
    var n := if i + 1 < |matches| then i + 1 else 0;
    FirstIs(matches, matches[i], i + 1);
    LastIs(matches, matches[n], n);
    hide FirstAfter, LastBefore;
  }
}
