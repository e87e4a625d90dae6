/**
 What the writer of an export makes of the items it receives (exporter.rs), in the text formats,
 and so what is in the file when one has run its course.
 */
module ExportRun {
  import opened Basics
  import opened Batching
  import opened Results
  import opened SqlText
  import opened Stream
  import opened TextExport
  import ExportProtocol

  /** What is exported to: all of the format but the columns, which the items bring. */
  datatype Target = Target(etype: ExportType, opts: ExportOptions, quoting: Quoting)

  /** The columns come first, if anything does, and only once. */
  predicate FromDriver(items: seq<StreamItem>) {
    items != [] ==> items[0].Columns? && forall i | 0 < i < |items| :: items[i].Rows?
  }

  function FormatOf(t: Target, items: seq<StreamItem>): Format {
    Format(t.etype, t.opts, t.quoting, if items != [] && items[0].Columns? then items[0].columns else [])
  }

  /** The complete file of some items. */
  function FileOf(t: Target, items: seq<StreamItem>): string {
    Complete(FormatOf(t, items), RowsOf(items))
  }

  lemma {:induction false} RowsOfOneMore(items: seq<StreamItem>, item: StreamItem)
    ensures RowsOf(items + [item]) == RowsOf(items) + (if item.Rows? then item.rows else [])
  {
    if items == [] {
      assert [item][1..] == [] && [] + [item] == [item];
    } else {
      assert (items + [item])[1..] == items[1..] + [item];
      RowsOfOneMore(items[1..], item);
      Assoc(if items[0].Rows? then items[0].rows else [], RowsOf(items[1..]), if item.Rows? then item.rows else []);
    }
  }

  /** The writer's loop, once it has been told that the query succeeded. */
  method WriteItems(t: Target, items: seq<StreamItem>) returns (file: string, rows: nat)
    requires FromDriver(items)
    ensures file == FileOf(t, items) && rows == |RowsOf(items)|
  {
    hide Complete, RowsOf, TextSink.Valid;
    var sink := new TextSink(t.etype, t.opts, t.quoting);
    var begun := false;
    assert RowsOf(items[..0]) == [] by { NoRows(); }
    for i := 0 to |items|
      invariant begun <==> i > 0
      invariant if begun then sink.Valid() && sink.Shape() == FormatOf(t, items)
                else sink.file == "" && sink.pending == [] && sink.rows == 0
                     && sink.etype == t.etype && sink.opts == t.opts && sink.quoting == t.quoting
      invariant sink.taken == RowsOf(items[..i])
    {
      assert items[..i + 1] == items[..i] + [items[i]];
      RowsOfOneMore(items[..i], items[i]);
      match items[i] {
        case Columns(columns) =>
          sink.Begin(columns);
          begun := true;
        case Rows(batch) =>
          sink.Rows(batch);
      }
    }
    assert items[..|items|] == items;
    if !begun {
      sink.Begin([]);
    }
    rows := sink.Finish();
    file := sink.file;
  }

  /** A driver's items make the same file whatever the fetch size: that of its rows. */
  lemma DriverFile(t: Target, columns: seq<ColumnMeta>, rows: seq<Row>, fetchSize: nat)
    ensures var items := [Columns(columns)] + AsItems(Chunks(rows, Max(fetchSize, 1)));
            && FromDriver(items)
            && FileOf(t, items) == Complete(Format(t.etype, t.opts, t.quoting, columns), rows)
  {
    hide Complete, Chunks, RowsOf;
    ItemsCarryRows(columns, rows, Max(fetchSize, 1));
    AreRows(Chunks(rows, Max(fetchSize, 1)));
  }

  lemma {:induction false} AreRows(batches: seq<seq<Row>>)
    ensures forall i | 0 <= i < |batches| :: AsItems(batches)[i].Rows?
  {
    if batches != [] {
      AreRows(batches[1..]);
      assert forall i | 0 < i < |batches| :: AsItems(batches)[i] == AsItems(batches[1..])[i - 1];
    }
  }

  /**
   Over every interleaving, an export of a query that sent a driver's items leaves the target
   unchanged, or holding the complete file of the driver's rows, whatever the fetch size.
   */
  lemma TargetHoldsTheRows(c: ExportProtocol.Setup, t: Target, columns: seq<ColumnMeta>, rows: seq<Row>, fetchSize: nat,
                           steps: seq<ExportProtocol.Step>)
    requires ExportProtocol.ValidSetup(c) && ExportProtocol.Run(c, steps).Some?
    requires forall items :: c.output(items) == FileOf(t, items)
    requires ExportProtocol.Run(c, steps).value.query == ExportProtocol.Finished(true) ==>
               ExportProtocol.Run(c, steps).value.sent
               == [Columns(columns)] + AsItems(Chunks(rows, Max(fetchSize, 1)))
    ensures var s := ExportProtocol.Run(c, steps).value;
            || ExportProtocol.Untouched(c, s)
            || (c.target in s.files
                && s.files[c.target] == Complete(Format(t.etype, t.opts, t.quoting, columns), rows))
    ensures ExportProtocol.AnswerOf(ExportProtocol.Run(c, steps).value) == Some(ExportProtocol.Fine) ==>
              var s := ExportProtocol.Run(c, steps).value;
              c.target in s.files
              && s.files[c.target] == Complete(Format(t.etype, t.opts, t.quoting, columns), rows)
  {
    hide ExportProtocol.Run, Complete, FileOf, ExportProtocol.Untouched;
    ExportProtocol.TargetIsOldOrComplete(c, steps);
    DriverFile(t, columns, rows, fetchSize);
    var s := ExportProtocol.Run(c, steps).value;
    if ExportProtocol.AnswerOf(s) == Some(ExportProtocol.Fine) {
      ExportProtocol.AnswersAreSo(c, steps);
    }
  }
}
