/**
 Counting one column in steps of so many rows (inspect.rs). What it comes to does not depend on
 how the rows were split up.
 */
module Profiler {
  import opened Basics
  import opened Orders
  import opened Results

  const TOP_VALUES := 5

  /** A value and how often it was seen. */
  datatype Tally = Tally(value: string, count: nat)

  datatype ColumnProfile = ColumnProfile(nulls: nat, distinct: nat, top: seq<Tally>, sampled: nat, complete: bool)

  function Nulls(rows: seq<Row>, col: nat): nat
    decreases |rows|
  {
    if rows == [] then 0
    else Nulls(rows[..|rows| - 1], col) + if CellAt(rows[|rows| - 1], col).None? then 1 else 0
  }

  /** How often each value is in the column. */
  function Counts(rows: seq<Row>, col: nat): map<string, nat>
    decreases |rows|
  {
    if rows == [] then map[]
    else
      var before := Counts(rows[..|rows| - 1], col);
      match CellAt(rows[|rows| - 1], col)
      case None => before
      case Some(value) => before[value := 1 + if value in before then before[value] else 0]
  }

  /** More often seen, or as often and earlier as text. */
  predicate Before(a: Tally, b: Tally) {
    b.count < a.count || (a.count == b.count && CompareTexts(a.value, b.value) == Less)
  }

  predicate Ranked(tallies: seq<Tally>) {
    forall i, j | 0 <= i < j < |tallies| :: Before(tallies[i], tallies[j])
  }

  /** The values seen most often, at most five, the most often first and ties in the order of text. */
  predicate IsTop(top: seq<Tally>, counts: map<string, nat>) {
    && Ranked(top) && |top| == Min(|counts|, TOP_VALUES)
    && (forall t | t in top :: t.value in counts && counts[t.value] == t.count)
    && forall value, t | value in counts && Tally(value, counts[value]) !in top
      && t in top :: Before(t, Tally(value, counts[value]))
  }

  /** No value left out is more frequent than one that is kept; those kept fall in frequency, and those as frequent
      as each other rise as text. */
  lemma TopAreMostFrequent(top: seq<Tally>, counts: map<string, nat>)
    requires IsTop(top, counts)
    ensures forall value, t | value in counts && t in top && (forall u | u in top :: u.value != value) ::
              counts[value] <= t.count
    ensures forall i, j | 0 <= i < j < |top| ::
              top[i].count > top[j].count
              || (top[i].count == top[j].count && CompareTexts(top[i].value, top[j].value) == Less)
  {
    hide CompareTexts;
    forall value, t | value in counts && t in top && (forall u | u in top :: u.value != value)
      ensures counts[value] <= t.count
    {
      assert Tally(value, counts[value]) !in top;
      assert Before(t, Tally(value, counts[value]));
    }
    assert forall i, j | 0 <= i < j < |top| :: Before(top[i], top[j]);
  }

  lemma BeforeIsTotal(a: Tally, b: Tally)
    ensures Before(a, b) || Before(b, a) || a == b
    ensures !(Before(a, b) && Before(b, a)) && !Before(a, a)
  {
    TextsFlip(a.value, b.value);
    TextsFlip(a.value, a.value);
  }

  lemma BeforeChains(a: Tally, b: Tally, c: Tally)
    requires Before(a, b) && Before(b, c)
    ensures Before(a, c)
  {
    TextsChain(a.value, b.value, c.value);
  }

  /** There is only one such list. */
  lemma {:induction false} OnlyOneTop(one: seq<Tally>, other: seq<Tally>, counts: map<string, nat>)
    requires IsTop(one, counts) && IsTop(other, counts)
    ensures one == other
  {
    hide Before;
    var i := 0;
    while i < |one|
      invariant i <= |one| && one[..i] == other[..i]
    {
      NextIsTheSame(one, other, counts, i);
      assert one[..i + 1] == one[..i] + [one[i]] && other[..i + 1] == other[..i] + [other[i]];
      i := i + 1;
    }
    assert one[..i] == one && other[..i] == other;
  }

  lemma NextIsTheSame(one: seq<Tally>, other: seq<Tally>, counts: map<string, nat>, i: nat)
    requires IsTop(one, counts) && IsTop(other, counts) && i < |one| && one[..i] == other[..i]
    ensures one[i] == other[i]
  {
    hide Before;
    BeforeIsTotal(one[i], other[i]);
    NotBefore(one, other, counts, i);
    NotBefore(other, one, counts, i);
  }

  /** What stands at a place in one list is not before what stands there in the other. */
  lemma NotBefore(one: seq<Tally>, other: seq<Tally>, counts: map<string, nat>, i: nat)
    requires IsTop(one, counts) && IsTop(other, counts) && i < |one| == |other| && one[..i] == other[..i]
    ensures !Before(one[i], other[i])
  {
    hide Before;
    var a, b := one[i], other[i];
    assert a == Tally(a.value, counts[a.value]) && a in one && b in other;
    BeforeIsTotal(a, b);
    BeforeIsTotal(a, a);
    forall k | 0 <= k < i
      ensures other[k] != a
    {
      assert one[..i][k] == other[..i][k];
      assert Before(one[k], a);
    }
    assert a !in other ==> Before(b, a);
    assert forall k | i < k < |other| :: Before(b, other[k]);
  }

  // The counts.

  lemma {:induction false} CountsConcat(rows: seq<Row>, row: Row, col: nat)
    ensures Nulls(rows + [row], col) == Nulls(rows, col) + if CellAt(row, col).None? then 1 else 0
    ensures Counts(rows + [row], col)
            == match CellAt(row, col)
               case None => Counts(rows, col)
               case Some(value) =>
                 var before := Counts(rows, col);
                 before[value := 1 + if value in before then before[value] else 0]
  {
    var all := rows + [row];
    assert all[..|all| - 1] == rows && all[|all| - 1] == row;
  }

  /** How many of the rows hold `value` in the column. */
  function Occurrences(rows: seq<Row>, col: nat, value: string): nat
    decreases |rows|
  {
    if rows == [] then 0
    else Occurrences(rows[..|rows| - 1], col, value) + if CellAt(rows[|rows| - 1], col) == Some(value) then 1 else 0
  }

  /** The counts hold exactly the values that occur, each with how often it does. */
  lemma {:induction false} CountsAreOccurrences(rows: seq<Row>, col: nat, value: string)
    ensures value in Counts(rows, col) <==> 0 < Occurrences(rows, col, value)
    ensures value in Counts(rows, col) ==> Counts(rows, col)[value] == Occurrences(rows, col, value)
    decreases |rows|
  {
    if rows != [] {
      CountsAreOccurrences(rows[..|rows| - 1], col, value);
    }
  }

  class Profiler {
    const col: nat
    const cap: nat
    var next: nat
    var steps: nat
    var counts: map<string, nat>
    var profile: ColumnProfile
    /** Every row counted so far. */
    ghost var seen: seq<Row>

    ghost predicate Valid()
      reads this
    {
      && profile.sampled == next
      && profile.nulls == Nulls(seen, col)
      && profile.distinct == |Counts(seen, col)|
      && (if profile.complete then IsTop(profile.top, Counts(seen, col))
          else counts == Counts(seen, col) && profile.top == [])
    }

    constructor (col: nat, cap: nat)
      ensures Valid() && this.col == col && this.cap == cap && next == 0 && seen == [] && !profile.complete
              && steps == 0
    {
      this.col, this.cap, next, steps, counts := col, cap, 0, 0, map[];
      profile, seen := ColumnProfile(0, 0, [], 0, false), [];
    }

    /**
     The next rows are counted, `budget` of them and never none, and the profile is given once
     all are that the cap allows. After that nothing changes it. As long as the rows counted
     before are still where they were, the profile is that of the first rows of the result,
     however they were split up.
     */
    method Step(rows: seq<Row>, budget: nat) returns (done: Option<ColumnProfile>)
      requires Valid()
      modifies this
      ensures Valid() && done == if profile.complete then Some(profile) else None
      ensures old(profile.complete) ==>
              profile == old(profile) && seen == old(seen) && next == old(next) && steps == old(steps)
      ensures !old(profile.complete) ==>
                var last := Min(|rows|, cap);
                && steps == old(steps) + 1
                && next == Max(old(next), Min(last, old(next) + Max(budget, 1)))
                && seen == old(seen) + (if old(next) <= next <= |rows| then rows[old(next)..next] else [])
                && (profile.complete <==> last <= next)
      ensures old(next) <= |rows| && old(seen) == rows[..old(next)] && !old(profile.complete) ==>
                seen == rows[..next]
    {
      hide Counts, Nulls, IsTop;
      if !profile.complete {
        var last := Min(|rows|, cap);
        var end := Min(last, next + Max(budget, 1));
        if next <= end {
          CountRows(rows, end);
        }
        ghost var was := next;
        assert was <= end ==> rows[..end] == rows[..was] + rows[was..end];
        assert end < was <= |rows| ==> rows[was..was] == [];
        next := Max(end, next);
        steps := steps + 1;
        profile := profile.(sampled := next, distinct := |counts|);
        if last <= next {
          var top := TopValues(counts);
          profile := profile.(complete := true, top := top);
          counts := map[];
        }
      }
      done := if profile.complete then Some(profile) else None;
    }

    /** Counts the rows from the next one up to `end`. */
    method CountRows(rows: seq<Row>, end: nat)
      requires next <= end <= |rows| && counts == Counts(seen, col) && profile.nulls == Nulls(seen, col)
      modifies this`counts, this`profile, this`seen
      ensures seen == old(seen) + rows[next..end]
      ensures counts == Counts(seen, col) && profile == old(profile).(nulls := Nulls(seen, col))
    {
      hide Counts, Nulls;
      var k := next;
      ghost var before := seen;
      assert before + rows[next..next] == before;
      while k < end
        invariant next <= k <= end && seen == before + rows[next..k]
        invariant counts == Counts(seen, col) && profile == old(profile).(nulls := Nulls(seen, col))
      {
        CountRow(rows[k]);
        Assoc(before, rows[next..k], [rows[k]]);
        assert rows[next..k + 1] == rows[next..k] + [rows[k]];
        k := k + 1;
      }
    }

    method CountRow(row: Row)
      requires counts == Counts(seen, col) && profile.nulls == Nulls(seen, col)
      modifies this`counts, this`profile, this`seen
      ensures seen == old(seen) + [row]
      ensures counts == Counts(seen, col) && profile == old(profile).(nulls := Nulls(seen, col))
    {
      CountsConcat(seen, row, col);
      match CellAt(row, col) {
        case None =>
          profile := profile.(nulls := profile.nulls + 1);
        case Some(value) =>
          counts := counts[value := if value in counts then counts[value] + 1 else 1];
      }
      seen := seen + [row];
    }
  }

  /** The values seen most often. */
  method TopValues(counts: map<string, nat>) returns (top: seq<Tally>)
    ensures IsTop(top, counts)
    ensures forall value, t | value in counts && t in top && (forall u | u in top :: u.value != value) ::
              counts[value] <= t.count
  {
    var all := Sorted(counts);
    top := all[..Min(|all|, TOP_VALUES)];
    FirstAreTop(all, counts);
    TopAreMostFrequent(top, counts);
  }

  /** Of every value ranked, the first five are the top. */
  lemma FirstAreTop(all: seq<Tally>, counts: map<string, nat>)
    requires Ranked(all) && |all| == |counts|
    requires forall t :: t in all <==> t.value in counts && counts[t.value] == t.count
    ensures IsTop(all[..Min(|all|, TOP_VALUES)], counts)
  {
    hide Before;
    var top := all[..Min(|all|, TOP_VALUES)];
    forall m | 0 <= m < |top|
      ensures all[m] in top
    {
      assert top[m] == all[m];
    }
    forall value, t | value in counts && Tally(value, counts[value]) !in top && t in top
      ensures Before(t, Tally(value, counts[value]))
    {
      var i :| 0 <= i < |top| && top[i] == t;
      assert Tally(value, counts[value]) in all;
      var k :| 0 <= k < |all| && all[k] == Tally(value, counts[value]);
      assert top[i] == all[i];
    }
  }

  /** Every value with its count, ranked: each is put in its place among those before it. */
  method Sorted(counts: map<string, nat>) returns (all: seq<Tally>)
    ensures Ranked(all) && |all| == |counts|
    ensures forall t :: t in all <==> t.value in counts && counts[t.value] == t.count
  {
    all := [];
    var todo := counts.Keys;
    while todo != {}
      invariant todo <= counts.Keys && |all| + |todo| == |counts|
      invariant Ranked(all)
      invariant forall t :: t in all <==> t.value in counts && t.value !in todo && counts[t.value] == t.count
      decreases todo
    {
      var value :| value in todo;
      all := Insert(all, Tally(value, counts[value]));
      todo := todo - {value};
    }
  }

  method Insert(tallies: seq<Tally>, t: Tally) returns (r: seq<Tally>)
    requires Ranked(tallies) && t !in tallies
    ensures Ranked(r) && |r| == |tallies| + 1
    ensures forall other :: other in r <==> other == t || other in tallies
  {
    var i := 0;
    hide CompareTexts;
    while i < |tallies| && Before(tallies[i], t)
      invariant i <= |tallies|
      invariant forall k | 0 <= k < i :: Before(tallies[k], t)
    {
      i := i + 1;
    }
    r := tallies[..i] + [t] + tallies[i..];
    hide Before;
    if i < |tallies| {
      BeforeIsTotal(tallies[i], t);
      forall k | i <= k < |tallies|
        ensures Before(t, tallies[k])
      {
        if i < k {
          BeforeChains(t, tallies[i], tallies[k]);
        }
      }
    }
  }
}
