/**
 Rows on their way from a driver: gathered into batches (shared.rs), sent down a channel, and
 read off it up to a limit at a time by a cursor that keeps what it read too far (db.rs).
 */
module Stream {
  import opened Basics
  import opened Batching
  import opened Results

  datatype StreamItem = Columns(columns: seq<ColumnMeta>) | Rows(rows: seq<Row>)

  // shared.rs.

  class Batches {
    const size: nat
    var rows: seq<Row>
    var sent: nat
    /** Every batch handed back, and every row added. */
    ghost var handed: seq<seq<Row>>
    ghost var added: seq<Row>

    /** No more than one batch is held, and no row is lost or moved. */
    ghost predicate Valid()
      reads this
    {
      && size > 0 && |rows| < size
      && Flatten(handed) + rows == added
      && sent == |Flatten(handed)|
    }

    constructor (fetchSize: nat)
      ensures Valid() && size == Max(fetchSize, 1) && added == [] && handed == []
    {
      size := Max(fetchSize, 1);
      rows, sent, handed, added := [], 0, [], [];
    }

    /** One more row; if it makes a batch full, the batch is returned. */
    method Push(row: Row) returns (batch: Option<seq<Row>>)
      requires Valid()
      modifies this
      ensures Valid() && added == old(added) + [row]
      ensures batch == if |old(rows)| + 1 == size then Some(old(rows) + [row]) else None
      ensures rows == if batch.Some? then [] else old(rows) + [row]
      ensures handed == old(handed) + (if batch.Some? then [batch.value] else [])
    {
      rows := rows + [row];
      added := added + [row];
      if |rows| == size {
        var full := Take();
        batch := Some(full);
      } else {
        batch := None;
      }
    }

    /** Returns what is left at the end as a batch. */
    method Rest() returns (batch: Option<seq<Row>>)
      requires Valid()
      modifies this
      ensures Valid() && added == old(added) && rows == []
      ensures batch == if old(rows) == [] then None else Some(old(rows))
      ensures handed == old(handed) + (if batch.Some? then [batch.value] else [])
      ensures sent == |added|
    {
      if rows == [] {
        batch := None;
      } else {
        var last := Take();
        batch := Some(last);
      }
    }

    method Take() returns (batch: seq<Row>)
      requires Flatten(handed) + rows == added && sent == |Flatten(handed)|
      modifies this`rows, this`sent, this`handed
      ensures batch == old(rows) && rows == [] && handed == old(handed) + [batch]
      ensures Flatten(handed) + rows == added && sent == |Flatten(handed)|
    {
      batch := rows;
      sent := sent + |rows|;
      FlattenAppend(handed, [batch]);
      assert Flatten([batch]) == batch + Flatten([batch][1..]);
      handed := handed + [batch];
      rows := [];
    }
  }

  /** A driver that is handed a row at a time: its batches are the rows cut up, in order. */
  method DriverSends(columns: seq<ColumnMeta>, rows: seq<Row>, fetchSize: nat) returns (items: seq<StreamItem>)
    ensures items == [Columns(columns)] + AsItems(Chunks(rows, Max(fetchSize, 1)))
  {
    var size := Max(fetchSize, 1);
    var batches := new Batches(fetchSize);
    items := [Columns(columns)];
    for i := 0 to |rows|
      invariant batches.Valid() && batches.size == size && batches.rows == Batching.Rest(rows[..i], size)
      invariant items == [Columns(columns)] + AsItems(Full(rows[..i], size))
    {
      OneMore(rows[..i], rows[i], size);
      assert rows[..i + 1] == rows[..i] + [rows[i]];
      var full := batches.Push(rows[i]);
      if full.Some? {
        AsItemsAppend(Full(rows[..i], size), full.value);
        items := items + [Rows(full.value)];
      }
    }
    assert rows[..|rows|] == rows;
    var last := batches.Rest();
    if last.Some? {
      AsItemsAppend(Full(rows, size), last.value);
      items := items + [Rows(last.value)];
    } else {
      assert Full(rows, size) + [] == Full(rows, size);
    }
  }

  /** A whole result sent as a stream: the same items, cut off the front instead. */
  method SendResult(columns: seq<ColumnMeta>, rows: seq<Row>, fetchSize: nat) returns (items: seq<StreamItem>,
                    total: nat)
    ensures items == [Columns(columns)] + AsItems(Chunks(rows, Max(fetchSize, 1))) && total == |rows|
  {
    var size := Max(fetchSize, 1);
    total := |rows|;
    items := [Columns(columns)];
    var left := rows;
    while left != []
      invariant items + AsItems(Chunks(left, size)) == [Columns(columns)] + AsItems(Chunks(rows, size))
      decreases |left|
    {
      var n := Min(size, |left|);
      ChunksFront(left, size);
      items := items + [Rows(left[..n])];
      left := left[n..];
    }
    assert items + [] == items;
  }

  lemma ChunksFront<T>(s: seq<T>, size: nat)
    requires size > 0 && s != []
    ensures var n := Min(size, |s|); Chunks(s, size) == [s[..n]] + Chunks(s[n..], size)
  {
    if |s| < size {
      assert s[..|s|] == s && s[|s|..] == [];
    }
  }

  function AsItems(batches: seq<seq<Row>>): (r: seq<StreamItem>)
    ensures |r| == |batches|
  {
    if batches == [] then [] else [Rows(batches[0])] + AsItems(batches[1..])
  }

  lemma {:induction false} AsItemsAppend(batches: seq<seq<Row>>, last: seq<Row>)
    ensures AsItems(batches + [last]) == AsItems(batches) + [Rows(last)]
  {
    if batches == [] {
      assert [last][1..] == [];
    } else {
      assert (batches + [last])[1..] == batches[1..] + [last];
      AsItemsAppend(batches[1..], last);
    }
  }

  /** The rows of a stream, whatever their batches. */
  function RowsOf(items: seq<StreamItem>): seq<Row> {
    if items == [] then []
    else (if items[0].Rows? then items[0].rows else []) + RowsOf(items[1..])
  }

  lemma {:induction false} RowsOfBatches(batches: seq<seq<Row>>)
    ensures RowsOf(AsItems(batches)) == Flatten(batches)
  {
    if batches != [] {
      RowsOfBatches(batches[1..]);
    }
  }

  /** Whatever the fetch size, a driver's items carry exactly its rows, in order, in batches no
      larger than that. */
  lemma ItemsCarryRows(columns: seq<ColumnMeta>, rows: seq<Row>, size: nat)
    requires size > 0
    ensures RowsOf([Columns(columns)] + AsItems(Chunks(rows, size))) == rows
    ensures Within([Columns(columns)] + AsItems(Chunks(rows, size)), size)
  {
    var batches := Chunks(rows, size);
    RowsOfBatches(batches);
    ChunksKeepAll(rows, size);
    ChunkSizes(rows, size);
    ItemsWithin(batches, size);
    var items := [Columns(columns)] + AsItems(batches);
    assert items[1..] == AsItems(batches);
    assert [] + RowsOf(items[1..]) == rows;
  }

  predicate Within(items: seq<StreamItem>, size: nat) {
    forall i | 0 <= i < |items| :: items[i].Rows? ==> |items[i].rows| <= size
  }

  lemma {:induction false} ItemsWithin(batches: seq<seq<Row>>, size: nat)
    requires forall i | 0 <= i < |batches| :: |batches[i]| <= size
    ensures Within(AsItems(batches), size)
  {
    if batches != [] {
      ItemsWithin(batches[1..], size);
      assert forall i | 0 < i < |batches| :: AsItems(batches)[i] == AsItems(batches[1..])[i - 1];
    }
  }

  // db.rs.

  /** The result of one read. */
  datatype Answer = ReadOf(columns: Option<seq<ColumnMeta>>, rows: seq<Row>, more: bool, error: Option<string>)

  /** The columns the last of `items` to have any gave. */
  function ColumnsOf(items: seq<StreamItem>): Option<seq<ColumnMeta>> {
    if items == [] then None
    else
      var last := items[|items| - 1];
      if last.Columns? then Some(last.columns) else ColumnsOf(items[..|items| - 1])
  }

  /**
   A read off `all` the rows: exactly the next ones, as many as the limit allows, with `left`
   the others; more wait exactly when some are left.
   */
  predicate Takes(all: seq<Row>, limit: nat, read: Answer, left: seq<Row>) {
    && read.rows == (if limit == 0 || |all| <= limit then all else all[..limit])
    && read.rows + left == all
    && (read.more <==> left != [])
    && (read.more ==> |read.rows| == limit)
  }

  /** What was received is a beginning of what there was to receive, and gave these columns. */
  predicate ColumnsSeen(before: seq<StreamItem>, after: seq<StreamItem>, columns: Option<seq<ColumnMeta>>) {
    && |after| <= |before|
    && after == before[|before| - |after|..]
    && columns == ColumnsOf(before[..|before| - |after|])
  }

  lemma NoRows()
    ensures RowsOf([]) == [] && forall s: seq<Row> :: s + [] == s
  {
  }

  lemma TakesAll(all: seq<Row>, limit: nat, read: Answer)
    requires read.rows == all && !read.more && (limit == 0 || |all| < limit)
    ensures Takes(all, limit, read, [])
  {
  }

  lemma TakesSome(all: seq<Row>, limit: nat, rows: seq<Row>, rest: seq<Row>, read: Answer)
    requires rows + rest == all && 0 < limit < |rows| && read.rows == rows[..limit] && read.more
    ensures Takes(all, limit, read, rows[limit..] + rest)
  {
    assert all[..limit] == rows[..limit];
    assert rows == rows[..limit] + rows[limit..];
  }

  class Cursor {
    /** What the channel will still deliver before it ends, and how the stream's task ends. */
    var incoming: seq<StreamItem>
    const outcome: Option<string>
    /** Whether the task's end has been waited for: doing so twice is an error. */
    var awaited: bool
    /** Rows received already but kept for the next answer. */
    var carry: seq<Row>

    constructor (items: seq<StreamItem>, outcome: Option<string>)
      ensures incoming == items && this.outcome == outcome && !awaited && carry == []
    {
      incoming, this.outcome, awaited, carry := items, outcome, false, [];
    }

    /** Every row not yet answered with. */
    ghost function Left(): seq<Row>
      reads this
    {
      carry + RowsOf(incoming)
    }

    method Receive() returns (item: Option<StreamItem>)
      modifies this`incoming
      ensures item.None? <==> old(incoming) == []
      ensures item.None? ==> incoming == []
      ensures item.Some? ==> old(incoming) == [item.value] + incoming
    {
      if incoming == [] {
        return None;
      }
      item := Some(incoming[0]);
      incoming := incoming[1..];
    }

    /** Waits for the task's end: an error, or none. */
    method Finish() returns (error: Option<string>)
      requires !awaited && incoming == []
      modifies this`awaited
      ensures awaited && error == outcome
    {
      awaited := true;
      error := outcome;
    }

    /**
     The next `limit` rows, or all the rest where that is 0. Whether others follow is found
     out by receiving once more.
     */
    method Read(limit: nat) returns (read: Answer)
      requires !awaited
      modifies this
      ensures Takes(old(Left()), limit, read, Left())
      ensures read.more ==> carry != []
      ensures awaited <==> !read.more
      ensures read.error == if read.more then None else outcome
      ensures !read.more ==> incoming == []
      ensures ColumnsSeen(old(incoming), incoming, read.columns)
      // The carry is never more than one batch.
      ensures forall size: nat :: |old(carry)| <= size && Within(old(incoming), size) ==>
              |carry| <= size && Within(incoming, size)
    {
      hide RowsOf, ColumnsOf;
      ghost var all, start := Left(), incoming;
      var columns, rows, ended, error, seen := ReadUpTo(limit);
      ghost var gathered, rest := rows, RowsOf(incoming);
      if limit > 0 && |rows| > limit {
        carry := rows[limit..];
        rows := rows[..limit];
      }
      if ended {
        NoRows();
        TakesAll(all, limit, ReadOf(columns, rows, false, error));
        return ReadOf(columns, rows, false, error);
      }
      if carry != [] {
        TakesSome(all, limit, gathered, rest, ReadOf(columns, rows, true, None));
        return ReadOf(columns, rows, true, None);
      }
      var more;
      columns, more, error, seen := LookFurther(start, columns, seen);
      read := ReadOf(columns, rows, more, error);
      if !more {
        NoRows();
      }
      assert Left() == rest;
    }

    /** The carry and as many batches as it takes to reach the limit, if the stream has them. */
    method ReadUpTo(limit: nat)
      returns (columns: Option<seq<ColumnMeta>>, rows: seq<Row>, ended: bool, error: Option<string>, ghost seen: nat)
      requires !awaited
      modifies this
      ensures carry == [] && rows + RowsOf(incoming) == old(Left()) && awaited == ended
      ensures if ended then incoming == [] && error == outcome && (limit == 0 || |rows| < limit)
              else error == None && 0 < limit <= |rows|
      ensures seen <= |old(incoming)| && incoming == old(incoming)[seen..]
      ensures columns == ColumnsOf(old(incoming)[..seen])
      ensures if seen == 0 then rows == old(carry)
              else ended || |rows| == limit ||
                   (old(incoming)[seen - 1].Rows? && |rows| < limit + |old(incoming)[seen - 1].rows|)
    {
      ghost var all, start := Left(), incoming;
      columns, rows, error, ended, seen := None, carry, None, false, 0;
      carry := [];
      while !ended && (limit == 0 || |rows| < limit)
        invariant carry == [] && rows + RowsOf(incoming) == all && awaited == ended
        invariant if ended then incoming == [] && error == outcome && (limit == 0 || |rows| < limit) else error == None
        invariant seen <= |start| && incoming == start[seen..]
        invariant columns == ColumnsOf(start[..seen])
        invariant if seen == 0 then rows == old(carry)
                  else ended || limit == 0 || |rows| <= limit ||
                       (start[seen - 1].Rows? && |rows| < limit + |start[seen - 1].rows|)
        decreases |incoming|, !ended
      {
        var item := Receive();
        if item.None? {
          ended := true;
          error := Finish();
        } else {
          Advances(start, seen, item.value, incoming);
          if item.value.Columns? {
            columns := Some(item.value.columns);
            assert [] + RowsOf(incoming) == RowsOf(incoming);
          } else {
            Assoc(rows, item.value.rows, RowsOf(incoming));
            rows := rows + item.value.rows;
          }
          seen := seen + 1;
        }
      }
    }

    /** Looks for a batch that is not empty, and carries it. */
    method LookFurther(ghost start: seq<StreamItem>, columns: Option<seq<ColumnMeta>>, ghost before: nat)
      returns (found: Option<seq<ColumnMeta>>, more: bool, error: Option<string>, ghost seen: nat)
      requires !awaited && carry == []
      requires before <= |start| && incoming == start[before..] && columns == ColumnsOf(start[..before])
      modifies this
      ensures Left() == RowsOf(old(incoming))
      ensures if more then carry != [] && !awaited && error == None
              else awaited && carry == [] && incoming == [] && error == outcome
      ensures before <= seen <= |start| && incoming == start[seen..] && found == ColumnsOf(start[..seen])
      ensures more ==> seen > 0 && start[seen - 1] == Rows(carry)
    {
      hide RowsOf, ColumnsOf;
      found, seen := columns, before;
      ghost var all := RowsOf(incoming);
      NoRows();
      while true
        invariant carry == [] && RowsOf(incoming) == all && !awaited
        invariant before <= seen <= |start| && incoming == start[seen..]
        invariant found == ColumnsOf(start[..seen])
        decreases |incoming|
      {
        var item := Receive();
        if item.None? {
          more := false;
          error := Finish();
          return;
        }
        Advances(start, seen, item.value, incoming);
        FirstOfRows(item.value, incoming);
        seen := seen + 1;
        if item.value.Columns? {
          found := Some(item.value.columns);
        } else if item.value.rows != [] {
          carry := item.value.rows;
          more, error := true, None;
          return;
        }
      }
    }
  }

  lemma FirstOfRows(item: StreamItem, incoming: seq<StreamItem>)
    ensures RowsOf([item] + incoming) == (if item.Rows? then item.rows else []) + RowsOf(incoming)
    ensures item.Columns? || item.rows == [] ==> RowsOf([item] + incoming) == RowsOf(incoming)
  {
    assert ([item] + incoming)[1..] == incoming;
    assert [] + RowsOf(incoming) == RowsOf(incoming);
  }

  lemma Advances(start: seq<StreamItem>, seen: nat, item: StreamItem, incoming: seq<StreamItem>)
    requires seen <= |start| && start[seen..] == [item] + incoming
    ensures seen < |start| && start[seen] == item && incoming == start[seen + 1..]
    ensures ColumnsOf(start[..seen + 1]) == if item.Columns? then Some(item.columns) else ColumnsOf(start[..seen])
  {
    assert start[seen] == start[seen..][0];
    assert start[seen + 1..] == start[seen..][1..];
    assert start[..seen + 1][..seen] == start[..seen];
  }

  // Any sequence of reads.

  /** What reads with these limits answer, one after another, while rows are left. */
  function Answers(rows: seq<Row>, limits: seq<nat>): (r: seq<seq<Row>>)
    ensures |r| <= |limits|
  {
    if limits == [] then []
    else if limits[0] == 0 || |rows| <= limits[0] then [rows]
    else [rows[..limits[0]]] + Answers(rows[limits[0]..], limits[1..])
  }

  /** Whatever the limits, the answers are the rows from the first on, each full but perhaps the
      last, and all of them once a read says that no more wait. */
  lemma {:induction false} AnswersAreTheRows(rows: seq<Row>, limits: seq<nat>)
    ensures Flatten(Answers(rows, limits)) <= rows
    ensures forall i | 0 <= i < |Answers(rows, limits)| - 1 :: |Answers(rows, limits)[i]| == limits[i]
    ensures limits != [] && limits[|limits| - 1] == 0 ==> Flatten(Answers(rows, limits)) == rows
  {
    if limits != [] {
      var n := limits[0];
      if n == 0 || |rows| <= n {
        assert Flatten([rows]) == rows + Flatten([rows][1..]);
        assert [rows][1..] == [];
      } else {
        AnswersAreTheRows(rows[n..], limits[1..]);
        var more := Answers(rows[n..], limits[1..]);
        assert Answers(rows, limits)[1..] == more;
        assert rows == rows[..n] + rows[n..];
      }
    }
  }

  /** From the driver's rows to the answers of a cursor read with any limits until none wait. */
  method Pipeline(columns: seq<ColumnMeta>, rows: seq<Row>, fetchSize: nat, outcome: Option<string>, limits: seq<nat>)
    returns (answers: seq<seq<Row>>, waits: bool)
    ensures answers == Answers(rows, limits)
    ensures limits != [] ==> (waits <==> Flatten(answers) != rows)
  {
    hide Answers, Chunks, Takes;
    var items := DriverSends(columns, rows, fetchSize);
    ItemsCarryRows(columns, rows, Max(fetchSize, 1));
    var cursor := new Cursor(items, outcome);
    answers, waits := [], true;
    var i := 0;
    Begun(rows, limits);
    while i < |limits| && waits
      invariant i <= |limits|
      invariant Answering(rows, limits, i, answers, cursor.Left(), waits)
      invariant waits ==> !cursor.awaited
      decreases |limits| - i
    {
      ghost var before := cursor.Left();
      var read := cursor.Read(limits[i]);
      Answered(rows, limits, i, answers, before, read, cursor.Left());
      answers := answers + [read.rows];
      waits := read.more;
      i := i + 1;
    }
    if waits {
      NoLimits(cursor.Left());
      assert limits[i..] == [] && answers + [] == answers;
    }
  }

  /** Some answers given, the rest of the rows left, and the answers still to give. */
  ghost predicate Answering(rows: seq<Row>, limits: seq<nat>, i: nat, answers: seq<seq<Row>>, left: seq<Row>,
                            waits: bool)
    requires i <= |limits|
  {
    && Flatten(answers) + left == rows
    && (waits ==> answers + Answers(left, limits[i..]) == Answers(rows, limits) && (i > 0 ==> left != []))
    && (!waits ==> left == [] && answers == Answers(rows, limits))
  }

  lemma Begun(rows: seq<Row>, limits: seq<nat>)
    ensures Answering(rows, limits, 0, [], rows, true)
  {
    assert limits[0..] == limits && [] + rows == rows && [] + Answers(rows, limits) == Answers(rows, limits);
  }

  lemma Answered(rows: seq<Row>, limits: seq<nat>, i: nat, answers: seq<seq<Row>>, before: seq<Row>, read: Answer,
                 left: seq<Row>)
    requires i < |limits| && Answering(rows, limits, i, answers, before, true)
    requires Takes(before, limits[i], read, left)
    ensures Answering(rows, limits, i + 1, answers + [read.rows], left, read.more)
  {
    hide Answers;
    AnswersStep(before, limits, i);
    FlattenAppend(answers, [read.rows]);
    assert Flatten([read.rows]) == read.rows + Flatten([read.rows][1..]);
    Assoc(Flatten(answers), read.rows, left);
    if read.more {
      assert left == before[limits[i]..];
      Assoc(answers, [read.rows], Answers(left, limits[i + 1..]));
    }
  }

  lemma NoLimits(rows: seq<Row>)
    ensures Answers(rows, []) == []
  {
  }

  lemma AnswersStep(rows: seq<Row>, limits: seq<nat>, i: nat)
    requires i < |limits|
    ensures var n := limits[i];
            if n == 0 || |rows| <= n then Answers(rows, limits[i..]) == [rows]
            else Answers(rows, limits[i..]) == [rows[..n]] + Answers(rows[n..], limits[i + 1..])
  {
    assert limits[i..][1..] == limits[i + 1..];
  }
}
