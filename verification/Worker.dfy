/**
 The worker of a session's connection (db.rs): a query whose rows exceed the limit leaves its
 stream open until something else is to run. What a command meets on the connection is part of
 the command here.
 */
module Worker {
  import opened Basics
  import opened Results
  import opened Stream
  import opened Transactions

  /** What stays as it is while a worker runs. */
  datatype Setup = Setup(
    /** The limit on a query's rows; none where it is 0. */
    maxRows: nat,
    /** Whether ending a transaction begins the next: Postgres and SQLite. */
    beginsAgain: bool,
    /** How text is lower-cased. */
    lower: string -> string
  )

  /**
   A statement, and what running it comes to: whether it is streamed, the items it gives,
   whether they were cut off at the limit by the driver, how it ends, and whether the next
   transaction then begins if one is to.
   */
  datatype Statement = Statement(
    sql: string,
    streams: bool,
    nextBegins: bool,
    items: seq<StreamItem>,
    cutOff: bool,
    outcome: Option<string>
  )

  /** A password is asked for, or the connection opens or fails to. */
  datatype Opening = Asks | Opens | Fails

  datatype Command =
    | Connect(opening: Opening)
    | PasswordEntered(opens: bool)
    | Query(statement: Statement)
    | QueryAll(statement: Statement)
    | FetchMore
    | SetAutocommit(on: bool, succeeds: bool)
    | ExportFetched
    /** A query run for its file, if that is not there already. */
    | ExportRerun(there: bool)
    | LoadSchema

  datatype DbAnswer =
    | CursorClosed
    | CursorKept
    | QueryDone(rows: seq<Row>, truncated: bool)
    | QueryStopped(rows: seq<Row>)
    | QueryFailed
    | MoreRows(rows: seq<Row>, more: bool, error: Option<string>)
    | Notice

  /** A use of the connection, and whether a stream was kept open on it at the time. */
  datatype Use = Use(command: Command, held: bool)

  /** What the answers so far say of the stream: whether it can still be read on. */
  function Told(holds: bool, answers: seq<DbAnswer>): bool
    decreases |answers|
  {
    if answers == [] then holds
    else
      var last := answers[|answers| - 1];
      match last
      case CursorKept => true
      case CursorClosed => false
      case MoreRows(_, more, _) => more
      case _ => Told(holds, answers[..|answers| - 1])
  }

  lemma {:induction false} ToldOn(holds: bool, a: seq<DbAnswer>, b: seq<DbAnswer>)
    ensures Told(holds, a + b) == Told(Told(holds, a), b)
    decreases |b|
  {
    if b == [] {
      assert a + b == a;
    } else {
      assert (a + b)[..|a + b| - 1] == a + b[..|b| - 1];
      ToldOn(holds, a, b[..|b| - 1]);
    }
  }

  lemma ToldLast(holds: bool, answers: seq<DbAnswer>, last: DbAnswer)
    ensures Told(holds, answers + [last]) == match last
                                             case CursorKept => true
                                             case CursorClosed => false
                                             case MoreRows(_, more, _) => more
                                             case _ => Told(holds, answers)
  {
    assert (answers + [last])[..|answers|] == answers;
  }

  /** What the statement's answers hold of its rows. */
  function RowsIn(answers: seq<DbAnswer>): seq<Row> {
    if answers == [] then [] else RowsInOne(answers[0]) + RowsIn(answers[1..])
  }

  /** Whether the command needs the connection: opening one counts. */
  predicate Touches(command: Command, asked: bool) {
    match command
    case Connect(opening) => !opening.Asks?
    case PasswordEntered(_) => asked
    case ExportRerun(there) => !there
    case _ => !Keeps(command)
  }

  /** Whether the command leaves a kept stream open. */
  predicate Keeps(command: Command) {
    command.FetchMore? || command.ExportFetched?
  }

  predicate IsQuery(command: Command) {
    command.Query? || command.QueryAll?
  }

  // What a worker does, command by command.

  predicate MoreWait(rows: seq<Row>, limit: nat) {
    0 < limit < |rows|
  }

  /** As many of `rows` as the limit lets through, and the others. */
  function FirstOf(rows: seq<Row>, limit: nat): seq<Row> {
    if MoreWait(rows, limit) then rows[..limit] else rows
  }

  function RestOf(rows: seq<Row>, limit: nat): seq<Row> {
    if MoreWait(rows, limit) then rows[limit..] else []
  }

  function LimitOf(c: Setup, command: Command): nat {
    if command.QueryAll? then 0 else c.maxRows
  }

  /** Whether a query's stream is kept once it is answered. */
  predicate KeepsOpen(c: Setup, command: Command)
    requires IsQuery(command)
  {
    command.statement.streams && MoreWait(RowsOf(command.statement.items), LimitOf(c, command))
  }

  /** A query that ends in an error before it gave a row; unless it is streamed, whatever it gave. */
  predicate FailsOutright(statement: Statement) {
    statement.outcome.Some? && (statement.streams ==> RowsOf(statement.items) == [])
  }

  /** Whether the next transaction is begun after a query. */
  predicate BeginsNext(c: Setup, manual: bool, statement: Statement) {
    manual && c.beginsAgain && TxChange(statement.sql, c.lower) == Some(false) && !FailsOutright(statement)
  }

  /** Where a worker stands: whether autocommit is off, whether a connection waits for a password,
      and the rows that wait in the kept stream. */
  datatype Now = Now(manual: bool, asked: bool, left: seq<Row>)

  const START := Now(false, false, [])

  function Opened(now: Now, opens: bool): Now {
    now.(manual := now.manual && !opens, left := [])
  }

  function Next(c: Setup, now: Now, command: Command): Now {
    match command
    case Connect(opening) =>
      if opening.Asks? then now.(asked := true, left := []) else Opened(now, opening.Opens?)
    case PasswordEntered(opens) =>
      if now.asked then Opened(now, opens).(asked := false) else now.(left := [])
    case SetAutocommit(on, succeeds) => now.(manual := if succeeds then !on else now.manual, left := [])
    case FetchMore => now.(left := RestOf(now.left, c.maxRows))
    case ExportFetched => now
    case Query(statement) =>
      now.(left := if statement.streams then RestOf(RowsOf(statement.items), c.maxRows) else [])
    case _ => now.(left := [])
  }

  /** The rows a command is answered with. */
  function Given(c: Setup, now: Now, command: Command): seq<Row> {
    if command.FetchMore? then FirstOf(now.left, c.maxRows)
    else if !IsQuery(command) then []
    else if command.statement.streams then FirstOf(RowsOf(command.statement.items), LimitOf(c, command))
    else if command.statement.outcome.None? then RowsOf(command.statement.items)
    else []
  }

  /**
   How a command uses the connection: not at all, or once with no stream kept. A query after
   which the next transaction is begun uses it again, and by then its own stream may be kept.
   */
  function UsesOf(c: Setup, now: Now, command: Command): seq<Use> {
    if !Touches(command, now.asked) then []
    else if IsQuery(command) && BeginsNext(c, now.manual, command.statement)
    then [Use(command, false), Use(command, KeepsOpen(c, command))]
    else [Use(command, false)]
  }

  /** Where a new worker stands after some commands, and what it answered and used till then. */
  function After(c: Setup, commands: seq<Command>): Now
    decreases |commands|
  {
    if commands == [] then START
    else Next(c, After(c, commands[..|commands| - 1]), commands[|commands| - 1])
  }

  function AllGiven(c: Setup, commands: seq<Command>): seq<Row>
    decreases |commands|
  {
    if commands == [] then []
    else
      var before, last := commands[..|commands| - 1], commands[|commands| - 1];
      AllGiven(c, before) + Given(c, After(c, before), last)
  }

  function AllUses(c: Setup, commands: seq<Command>): seq<Use>
    decreases |commands|
  {
    if commands == [] then []
    else
      var before, last := commands[..|commands| - 1], commands[|commands| - 1];
      AllUses(c, before) + UsesOf(c, After(c, before), last)
  }

  // The worker.

  class DbWorker {
    const setup: Setup
    var cursor: Cursor?
    /** Whether autocommit is off. */
    var manual: bool
    /** Whether a password was asked for and not entered yet. */
    var asked: bool
    ghost var uses: seq<Use>

    /** A kept stream has rows left and was not waited for. */
    ghost predicate Valid()
      reads this, cursor
    {
      cursor != null ==> !cursor.awaited && cursor.carry != []
    }

    ghost function Stands(): Now
      reads this, cursor
    {
      Now(manual, asked, if cursor == null then [] else cursor.Left())
    }

    constructor (setup: Setup)
      ensures Valid() && cursor == null && uses == [] && Stands() == START && this.setup == setup
    {
      this.setup := setup;
      cursor, manual, asked, uses := null, false, false, [];
    }

    /** One command. The stream is closed first, unless the command reads it or leaves it be. */
    method Run(command: Command) returns (answers: seq<DbAnswer>)
      requires Valid()
      modifies this, cursor
      ensures Valid() && (cursor == old(cursor) || cursor == null || fresh(cursor))
      // What the answers say of the stream is so.
      ensures Told(old(cursor) != null, answers) == (cursor != null)
      ensures Stands() == Next(setup, old(Stands()), command)
      ensures uses == old(uses) + UsesOf(setup, old(Stands()), command)
      ensures RowsIn(answers) == Given(setup, old(Stands()), command)
      ensures IsQuery(command) ==> (cursor != null <==> KeepsOpen(setup, command))
      ensures QueryFailed in answers <==> IsQuery(command) && FailsOutright(command.statement)
    {
      hide Next, UsesOf, Given;
      answers := [];
      var held := cursor != null;
      if !Keeps(command) {
        ClosedFirst(setup, Stands(), command);
      }
      if !Keeps(command) && cursor != null {
        cursor := null;
        answers := [CursorClosed];
      }
      ghost var closed := answers;
      var more := RunCommand(command);
      answers := answers + more;
      ToldOn(held, closed, more);
      assert Told(held, closed) == (if Keeps(command) then held else false);
      if closed == [] {
        assert answers == more;
      } else {
        assert answers[1..] == more && [] + RowsIn(more) == RowsIn(more);
      }
    }

    method RunCommand(command: Command) returns (answers: seq<DbAnswer>)
      requires Valid() && (cursor != null ==> Keeps(command))
      modifies this, cursor
      ensures Valid() && (cursor == old(cursor) || cursor == null || fresh(cursor))
      ensures Told(old(cursor) != null, answers) == (cursor != null)
      ensures Stands() == Next(setup, old(Stands()), command)
      ensures uses == old(uses) + UsesOf(setup, old(Stands()), command)
      ensures RowsIn(answers) == Given(setup, old(Stands()), command)
      ensures IsQuery(command) ==> (cursor != null <==> KeepsOpen(setup, command))
      ensures QueryFailed in answers <==> IsQuery(command) && FailsOutright(command.statement)
    {
      match command {
        case Query(statement) =>
          answers := RunQuery(command, statement, setup.maxRows);
        case QueryAll(statement) =>
          answers := RunQuery(command, statement, 0);
        case FetchMore =>
          answers := FetchNext();
        case SetAutocommit(on, succeeds) =>
          uses := uses + [Use(command, cursor != null)];
          if succeeds {
            manual := !on;
          }
          answers := [Notice];
        case Connect(opening) =>
          if opening.Asks? {
            asked := true;
            answers := [Notice];
          } else {
            answers := Open(command, opening.Opens?);
          }
        case PasswordEntered(opens) =>
          if asked {
            asked := false;
            answers := Open(command, opens);
          } else {
            answers := [];
          }
        case ExportFetched =>
          answers := [Notice];
        case ExportRerun(there) =>
          if !there {
            uses := uses + [Use(command, cursor != null)];
          }
          answers := [Notice];
        case LoadSchema =>
          uses := uses + [Use(command, cursor != null)];
          answers := [Notice];
      }
    }

    method Open(command: Command, opens: bool) returns (answers: seq<DbAnswer>)
      requires cursor == null
      modifies this`manual, this`uses
      ensures uses == old(uses) + [Use(command, false)] && answers == [Notice]
      ensures manual == (if opens then false else old(manual))
    {
      uses := uses + [Use(command, cursor != null)];
      if opens {
        manual := false;
      }
      answers := [Notice];
    }

    method RunQuery(command: Command, statement: Statement, limit: nat) returns (answers: seq<DbAnswer>)
      requires cursor == null
      requires IsQuery(command) && command.statement == statement && limit == LimitOf(setup, command)
      modifies this`cursor, this`uses
      ensures Valid() && (cursor == null || fresh(cursor))
      ensures Told(false, answers) == (cursor != null)
      ensures Stands() == Next(setup, old(Stands()), command)
      ensures uses == old(uses) + UsesOf(setup, old(Stands()), command)
      ensures RowsIn(answers) == Given(setup, old(Stands()), command)
      ensures cursor != null <==> KeepsOpen(setup, command)
      ensures QueryFailed in answers <==> FailsOutright(statement)
    {
      hide TxChange, RowsIn, Told, FirstOf, Cursor.Left;
      uses := uses + [Use(command, false)];
      if statement.streams {
        answers := StreamQuery(statement, limit);
      } else {
        var first := if statement.outcome.None? then QueryDone(RowsOf(statement.items), statement.cutOff)
          else QueryFailed;
        AnswerAndNotice(first);
        answers := [first, Notice];
      }
      if QueryFailed !in answers && manual && setup.beginsAgain && TxChange(statement.sql, setup.lower) == Some(false) {
        uses := uses + [Use(command, cursor != null)];
        if !statement.nextBegins {
          ToldLast(false, answers, Notice);
          NoticeHasNoRows(answers);
          answers := answers + [Notice];
        }
      }
    }

    /** Streams the statement, and keeps the stream if more rows wait than the answer holds. */
    method StreamQuery(statement: Statement, limit: nat) returns (answers: seq<DbAnswer>)
      requires cursor == null && statement.streams
      modifies this`cursor
      ensures Valid() && (cursor == null || fresh(cursor))
      ensures Told(false, answers) == (cursor != null)
      ensures cursor != null <==> 0 < limit < |RowsOf(statement.items)|
      ensures cursor != null ==> cursor.Left() == RowsOf(statement.items)[limit..]
      ensures RowsIn(answers) == FirstOf(RowsOf(statement.items), limit)
      ensures QueryFailed in answers <==> FailsOutright(statement)
    {
      hide RowsOf, Takes, RowsIn, Told, FirstOf, ColumnsSeen;
      var c := new Cursor(statement.items, statement.outcome);
      assert c.Left() == RowsOf(statement.items);
      var read := c.Read(limit);
      TakesExactly(RowsOf(statement.items), limit, read, c.Left());
      if read.error.Some? {
        var first := if read.rows != [] then QueryStopped(read.rows) else QueryFailed;
        AnswerAndNotice(first);
        answers := [first, Notice];
      } else if read.more {
        cursor := c;
        KeptAnswers(QueryDone(read.rows, true));
        answers := [CursorKept, QueryDone(read.rows, true), Notice];
      } else {
        AnswerAndNotice(QueryDone(read.rows, false));
        answers := [QueryDone(read.rows, false), Notice];
      }
    }

    /** Reads on in the kept stream. */
    method FetchNext() returns (answers: seq<DbAnswer>)
      requires Valid()
      modifies this`cursor, cursor
      ensures Valid() && (cursor == old(cursor) || cursor == null)
      ensures |answers| == 1 && answers[0].MoreRows? && answers[0].more == (cursor != null)
      ensures Told(old(cursor) != null, answers) == (cursor != null)
      ensures old(cursor) == null ==> answers[0].rows == [] && answers[0].error.Some?
      ensures old(cursor) != null ==>
                var left := old(Stands()).left;
                && answers[0].rows == FirstOf(left, setup.maxRows)
                && (answers[0].more <==> 0 < setup.maxRows < |left|)
                && answers[0].error == if answers[0].more then None else old(cursor).outcome
      ensures Stands().left == RestOf(old(Stands()).left, setup.maxRows)
      ensures RowsIn(answers) == answers[0].rows
    {
      if cursor == null {
        answers := [MoreRows([], false, Some("the cursor is closed"))];
        return;
      }
      var c := cursor;
      cursor := null;
      ghost var before := c.Left();
      var read := c.Read(setup.maxRows);
      TakesExactly(before, setup.maxRows, read, c.Left());
      var more := read.more && read.error.None?;
      if more {
        cursor := c;
      }
      answers := [MoreRows(read.rows, more, read.error)];
      assert answers[1..] == [] && read.rows + [] == read.rows;
    }
  }

  /** What waited in the stream makes no difference to a command that closes it. */
  lemma ClosedFirst(c: Setup, now: Now, command: Command)
    requires !Keeps(command)
    ensures var closed := now.(left := []);
            && Next(c, closed, command) == Next(c, now, command)
            && UsesOf(c, closed, command) == UsesOf(c, now, command)
            && Given(c, closed, command) == Given(c, now, command)
  {
  }

  lemma TakesExactly(all: seq<Row>, limit: nat, read: Answer, left: seq<Row>)
    requires Takes(all, limit, read, left)
    ensures read.rows == FirstOf(all, limit) && left == RestOf(all, limit)
    ensures read.more <==> MoreWait(all, limit)
    ensures read.rows == [] <==> all == []
  {
    if MoreWait(all, limit) {
      assert left == all[limit..] by { DropOf(read.rows, left); }
    } else {
      assert all + left == all;
    }
  }

  lemma NoticeHasNoRows(answers: seq<DbAnswer>)
    ensures RowsIn(answers + [Notice]) == RowsIn(answers)
  {
    if answers == [] {
      assert RowsIn([Notice]) == [] + RowsIn([Notice][1..]);
    } else {
      NoticeHasNoRows(answers[1..]);
      assert (answers + [Notice])[1..] == answers[1..] + [Notice];
    }
  }

  function RowsInOne(answer: DbAnswer): seq<Row> {
    match answer
    case QueryDone(rows, _) => rows
    case QueryStopped(rows) => rows
    case MoreRows(rows, _, _) => rows
    case _ => []
  }

  /** What an answer and the notice after it tell and hold. */
  lemma AnswerAndNotice(answer: DbAnswer)
    requires !answer.MoreRows?
    ensures Told(false, [answer, Notice]) == answer.CursorKept?
    ensures RowsIn([answer, Notice]) == RowsInOne(answer)
  {
    assert [] + [answer] == [answer] && [answer] + [Notice] == [answer, Notice];
    ToldLast(false, [], answer);
    ToldLast(false, [answer], Notice);
    NoticeHasNoRows([answer]);
    assert [answer][1..] == [] && RowsIn([answer]) == RowsInOne(answer) + RowsIn([answer][1..]);
  }

  lemma KeptAnswers(done: DbAnswer)
    requires done.QueryDone?
    ensures Told(false, [CursorKept, done, Notice])
    ensures RowsIn([CursorKept, done, Notice]) == done.rows
  {
    assert [] + [CursorKept] == [CursorKept] && [CursorKept] + [done, Notice] == [CursorKept, done, Notice];
    ToldLast(false, [], CursorKept);
    ToldOn(false, [CursorKept], [done, Notice]);
    assert [] + [done] == [done] && [done] + [Notice] == [done, Notice];
    ToldLast(true, [], done);
    ToldLast(true, [done], Notice);
    AnswerAndNotice(done);
    assert [CursorKept, done, Notice][1..] == [done, Notice];
  }

  /** Any commands, one after another, to a new worker. */
  method RunAll(worker: DbWorker, commands: seq<Command>) returns (answers: seq<DbAnswer>)
    requires worker.Valid() && worker.cursor == null && worker.uses == [] && worker.Stands() == START
    modifies worker
    ensures worker.Valid() && Told(false, answers) == (worker.cursor != null)
    ensures worker.Stands() == After(worker.setup, commands)
    ensures worker.uses == AllUses(worker.setup, commands)
    ensures RowsIn(answers) == AllGiven(worker.setup, commands)
  {
    hide Next, UsesOf, Given;
    answers := [];
    for i := 0 to |commands|
      invariant worker.Valid() && Told(false, answers) == (worker.cursor != null)
      invariant worker.cursor == null || fresh(worker.cursor)
      invariant worker.Stands() == After(worker.setup, commands[..i])
      invariant worker.uses == AllUses(worker.setup, commands[..i])
      invariant RowsIn(answers) == AllGiven(worker.setup, commands[..i])
    {
      assert commands[..i + 1][..i] == commands[..i];
      var more := worker.Run(commands[i]);
      ToldOn(false, answers, more);
      RowsInOn(answers, more);
      answers := answers + more;
    }
    assert commands[..|commands|] == commands;
  }

  lemma {:induction false} RowsInOn(a: seq<DbAnswer>, b: seq<DbAnswer>)
    ensures RowsIn(a + b) == RowsIn(a) + RowsIn(b)
  {
    hide RowsInOne;
    if a == [] {
      assert a + b == b;
    } else {
      RowsInOn(a[1..], b);
      assert (a + b)[1..] == a[1..] + b;
      Assoc(RowsInOne(a[0]), RowsIn(a[1..]), RowsIn(b));
    }
  }

  /** While only commands that leave the stream be follow a streamed query, its rows are all given
      or still waiting, in order and none twice. */
  lemma {:induction false} ReadOn(c: Setup, commands: seq<Command>, query: Command, more: seq<Command>)
    requires IsQuery(query) && query.statement.streams
    requires forall command | command in more :: Keeps(command)
    ensures var all := commands + [query] + more;
            AllGiven(c, all) + After(c, all).left == AllGiven(c, commands) + RowsOf(query.statement.items)
    decreases |more|
  {
    hide Given, Next;
    var all := commands + [query] + more;
    var n := |all| - 1;
    if more == [] {
      assert all[..n] == commands && all[n] == query;
      NoneLost(c, After(c, commands), query);
      Assoc(AllGiven(c, commands), Given(c, After(c, commands), query), Next(c, After(c, commands), query).left);
    } else {
      var before, last := commands + [query] + more[..|more| - 1], more[|more| - 1];
      var now := After(c, before);
      ReadOn(c, commands, query, more[..|more| - 1]);
      assert all[..n] == before && all[n] == last;
      NoneLost(c, now, last);
      Assoc(AllGiven(c, before), Given(c, now, last), Next(c, now, last).left);
    }
  }

  /** What one command gives of the rows, and what waits of them after it. */
  lemma NoneLost(c: Setup, now: Now, command: Command)
    requires Keeps(command) || (IsQuery(command) && command.statement.streams)
    ensures Given(c, now, command) + Next(c, now, command).left
            == if IsQuery(command) then RowsOf(command.statement.items) else now.left
  {
  }

  // What a worker knows of its session.

  /** The `k`th command opened a connection. */
  predicate OpensAt(c: Setup, commands: seq<Command>, k: nat)
    requires k < |commands|
  {
    || commands[k] == Connect(Opens)
    || (commands[k] == PasswordEntered(true) && After(c, commands[..k]).asked)
  }

  /** The `k`th command put autocommit off, and nothing has put it on since: no other setting of it, and no opening of
      a connection. */
  ghost predicate PutOff(c: Setup, commands: seq<Command>, k: nat) {
    && k < |commands| && commands[k] == SetAutocommit(false, true)
    && forall m | k < m < |commands| :: commands[m] != SetAutocommit(true, true) && !OpensAt(c, commands, m)
  }

  /** Over any commands, autocommit is off exactly when it was put off and not on again. */
  lemma {:induction false} ManualExactly(c: Setup, commands: seq<Command>)
    ensures After(c, commands).manual <==> exists k :: PutOff(c, commands, k)
    decreases |commands|
  {
    if commands != [] {
      var n := |commands| - 1;
      var before := commands[..n];
      ManualExactly(c, before);
      LastManual(c, commands);
      hide After;
      forall k: nat | k < n
        ensures PutOff(c, commands, k) <==>
                PutOff(c, before, k) && commands[n] != SetAutocommit(true, true) && !OpensAt(c, commands, n)
      {
        PutOffBefore(c, commands, k);
      }
      if commands[n] == SetAutocommit(false, true) {
        assert PutOff(c, commands, n);
      }
    }
  }

  lemma LastManual(c: Setup, commands: seq<Command>)
    requires commands != []
    ensures var n := |commands| - 1;
            After(c, commands).manual <==>
              commands[n] == SetAutocommit(false, true)
              || (After(c, commands[..n]).manual && commands[n] != SetAutocommit(true, true)
                  && !OpensAt(c, commands, n))
  {
  }

  lemma PutOffBefore(c: Setup, commands: seq<Command>, k: nat)
    requires k < |commands| - 1
    ensures var n := |commands| - 1;
            PutOff(c, commands, k) <==>
            PutOff(c, commands[..n], k) && commands[n] != SetAutocommit(true, true) && !OpensAt(c, commands, n)
  {
    hide After;
    var n := |commands| - 1;
    forall m: nat | m < n
      ensures OpensAt(c, commands[..n], m) == OpensAt(c, commands, m)
    {
      assert commands[..n][..m] == commands[..m];
    }
  }

  /** The `k`th command led to a password being asked for, and none was entered since. */
  predicate AskedAt(commands: seq<Command>, k: nat) {
    && k < |commands| && commands[k] == Connect(Asks)
    && forall m | k < m < |commands| :: !commands[m].PasswordEntered?
  }

  /** And a connection waits for a password exactly when one was asked for and none entered since. */
  lemma {:induction false} AskedExactly(c: Setup, commands: seq<Command>)
    ensures After(c, commands).asked <==> exists k :: AskedAt(commands, k)
    decreases |commands|
  {
    if commands != [] {
      var n := |commands| - 1;
      var before := commands[..n];
      AskedExactly(c, before);
      assert After(c, commands) == Next(c, After(c, before), commands[n]);
      forall k: nat | k < n
        ensures AskedAt(commands, k) <==> AskedAt(before, k) && !commands[n].PasswordEntered?
      {
      }
      if commands[n] == Connect(Asks) {
        assert AskedAt(commands, n);
      }
      hide After;
    }
  }

  // The one use of the connection while a stream is kept.

  /** A query of a worker with autocommit off whose text is taken for the end of a transaction
      and that is streamed and has more rows than the limit, on a backend that begins again. */
  predicate BeginsOverStream(c: Setup, manual: bool, command: Command) {
    && command.Query? && manual && c.beginsAgain
    && TxChange(command.statement.sql, c.lower) == Some(false)
    && command.statement.streams && 0 < c.maxRows < |RowsOf(command.statement.items)|
  }

  /** The commands that used the connection while a stream was kept on it, once for each use. */
  function HeldBy(uses: seq<Use>): seq<Command> {
    if uses == [] then [] else (if uses[0].held then [uses[0].command] else []) + HeldBy(uses[1..])
  }

  function Exceptions(c: Setup, commands: seq<Command>): seq<Command>
    decreases |commands|
  {
    if commands == [] then []
    else
      var before, last := commands[..|commands| - 1], commands[|commands| - 1];
      Exceptions(c, before) + (if BeginsOverStream(c, After(c, before).manual, last) then [last] else [])
  }

  lemma {:induction false} HeldByOn(a: seq<Use>, b: seq<Use>)
    ensures HeldBy(a + b) == HeldBy(a) + HeldBy(b)
  {
    if a == [] {
      assert a + b == b;
    } else {
      HeldByOn(a[1..], b);
      assert (a + b)[1..] == a[1..] + b;
      Assoc(if a[0].held then [a[0].command] else [], HeldBy(a[1..]), HeldBy(b));
    }
  }

  lemma HeldByOne(c: Setup, now: Now, command: Command)
    ensures HeldBy(UsesOf(c, now, command)) == if BeginsOverStream(c, now.manual, command) then [command] else []
  {
    hide TxChange;
    HeldOf(command, false);
    if IsQuery(command) && BeginsNext(c, now.manual, command.statement) {
      HeldOf(command, KeepsOpen(c, command));
      HeldByOn([Use(command, false)], [Use(command, KeepsOpen(c, command))]);
      assert UsesOf(c, now, command) == [Use(command, false)] + [Use(command, KeepsOpen(c, command))];
    }
  }

  lemma HeldOf(command: Command, held: bool)
    ensures HeldBy([Use(command, held)]) == if held then [command] else []
  {
    assert [Use(command, held)][1..] == [];
  }

  /** Over any commands, the uses of the connection while a stream is kept are exactly these. */
  lemma {:induction false} HeldExactly(c: Setup, commands: seq<Command>)
    ensures HeldBy(AllUses(c, commands)) == Exceptions(c, commands)
    decreases |commands|
  {
    hide UsesOf, BeginsOverStream, After;
    if commands != [] {
      var before, last := commands[..|commands| - 1], commands[|commands| - 1];
      HeldExactly(c, before);
      HeldByOn(AllUses(c, before), UsesOf(c, After(c, before), last));
      HeldByOne(c, After(c, before), last);
    }
  }

  /** So there is none if and only if no command is such a query. */
  lemma {:induction false} NoneHeldExactly(c: Setup, commands: seq<Command>)
    ensures HeldBy(AllUses(c, commands)) == []
            <==> forall k | 0 <= k < |commands| :: !BeginsOverStream(c, After(c, commands[..k]).manual, commands[k])
    decreases |commands|
  {
    hide UsesOf, BeginsOverStream, After, AllUses;
    HeldExactly(c, commands);
    if commands != [] {
      var n := |commands| - 1;
      var before := commands[..n];
      NoneHeldExactly(c, before);
      HeldExactly(c, before);
      assert forall k | 0 <= k < n :: before[..k] == commands[..k] && before[k] == commands[k];
    }
  }

  /** There can be one: autocommit is put off, and a query is run with such a comment at its end. */
  lemma HeldInARun(c: Setup, items: seq<StreamItem>)
    requires c.beginsAgain && 0 < c.maxRows < |RowsOf(items)| && c.lower("commit */") == "commit */"
    ensures var query := Query(Statement(COMMIT_IN_A_COMMENT, true, true, items, false, None));
            HeldBy(AllUses(c, [SetAutocommit(false, true), query])) == [query]
  {
    hide TxChange, UsesOf, AllUses;
    var query := Query(Statement(COMMIT_IN_A_COMMENT, true, true, items, false, None));
    var commands := [SetAutocommit(false, true), query];
    CommentIsJudged(c.lower);
    HeldExactly(c, commands);
    assert commands[..1] == [SetAutocommit(false, true)] && [SetAutocommit(false, true)][..0] == [];
    assert Exceptions(c, [SetAutocommit(false, true)]) == [];
  }
}
