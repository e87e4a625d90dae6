# Verified model of qry

`qry` is a terminal client for SQL databases. This project models the parts of it that hold its
logic without a terminal, a network or a clock, and proves what they promise, in Dafny 4.11:
`dafny verify dfyconfig.toml`.

## What is modelled

- **JSON** (`JsonGrammar`, `JsonParser`, `JsonTheorems`, `JsonPretty`, `JsonLayout`,
  `JsonRoundTrip`, `JsonWriter`, `JsonExport`). The grammar of RFC 8259 is written down on its own, as trees that
  derive texts; the recursive-descent parser is a class with a cursor, proved against functions
  on the rest of the text, and those against the grammar in both directions. The printer, the
  string escaper, the second number recogniser and the streaming writer are then proved to agree
  with it.
- **Text exports and copies** (`TextExport`, `SqlText`, `Delimited`, `SqlExport`, `MarkdownExport`,
  `Copy`, `CopyJson`, `Batching`). The sink with its buffer and its waiting INSERT rows, copying as
  CSV, TSV and JSON, and independent readers of all these (RFC 4180, section 2, for CSV).
- **Files** (`AtomicFile`, `ExportProtocol`, `ExportRun`). The file next to its target, over a map
  of paths to contents in which any call may fail; and the export as a state machine in which the
  query, the writer's thread, cancellation and the pieces of a dropped future take steps in any
  order.
- **Calendar and timestamps** (`Calendar`, `Timestamps`). The closed formulas over all integers
  against the calendar's own rules, and the printer and parser of RFC 3339 section 5.6 on them.
- **Streaming** (`Stream`, `Transactions`, `Worker`). Batches, the cursor with its carry, the
  worker that keeps or closes it, and what a statement is taken to do to the transaction.
- **The grid** (`NaturalOrder`, `Orders`, `Sorting`, `GridView`, `Profiler`). Orders, the stable
  sort through a permutation, the columns on screen, and search and profile in steps.
- **State machines** (`SchemaCache`, `Jobs`, `JobRegistry`, `Toasts`). Classes with the fields of
  the program, each method proved against a function on a simpler state, and theorems over all
  runs of those functions.
- **Keys, words and layers** (`Keymap`, `WordWrap`, `Whitespace`, `Layering`). `Basics` and
  `Decimal` hold what several of these share.

Text is a sequence of characters. The parser only ever tests ASCII characters, so its byte cursor
is a cursor over characters here.

## Where the program and its description differ

The model follows the program.

- The natural order is described as case-insensitive. It is only where the texts do not first
  differ in the case of a character; `A2` comes before `a1`
  (`NaturalOrder.CaseDecidesWhereItComesFirst`, `NaturalOrder.UpperCaseComesFirst`).
- A JSON export with a byte-order mark is not taken by the program's own parser, and neither is
  the first line of a JSON Lines export (`JsonExport.JsonExportParsesWithoutMark`,
  `JsonExport.JsonLinesReadBack`).
- A dropped export is described as leaving the target as it was. It does if it is dropped before
  the query's success was signalled; after that the writer may still replace it, under an exact
  condition (`ExportProtocol.DroppedMayStillReplace`, `ExportProtocol.DroppedBeforeTheSignal`,
  `ExportProtocol.DroppedAfterTheSignal`). The writer looks at the flag and writes in two steps,
  so one item may be written after the flag was set, and never a second
  (`ExportProtocol.AbandonedWritesOneMoreAtMost`, `ExportProtocol.OneIsWrittenAfter`).
- A copy as CSV or TSV ends its last line with no line break and writes NULL as nothing, so an
  empty last line is not found by a reader, and NULL and the empty text are the same
  (`Copy.CopyReadsBack`, `Copy.FieldsTellTexts`). A CSV export with an
  empty `null_as` tells them apart (`Delimited.FilesToldApart`).
- A timestamp may name a day its month does not have, or second 60; it then runs on into the
  next month or minute. It may have `t` or a space for the `T`, `z` or an offset for the `Z`, and
  a fraction. All of these are read, and written back otherwise than they were; exactly the others
  come back (`Timestamps.WrittenBackExactly`, `Timestamps.OtherFormsAreAccepted`,
  `Timestamps.SixtyIsTheNextMinute`, `Timestamps.TwoTextsOneTime`).
- A written chord is described as one that reads back. It does exactly for the keys of
  `Keymap.ChordReadsBack`; a typed arrow character, for one, is read as the arrow key.
- A kept stream is described as closed before anything else uses the connection. There is one
  exception: the BEGIN that follows a query whose own stream is kept. It is met exactly by a query
  run with autocommit off, on a backend that begins again, that is streamed, is taken for the end
  of a transaction and has more rows than the limit (`Worker.HeldExactly`). One text can be both:
  `SELECT * FROM t /* ; commit */` starts as a query does, and is cut at the semicolon in its comment
  (`Transactions.CommentIsJudged`, `Worker.HeldInARun`).
- The limit of 256 is on what stands inside brackets: an empty pair of brackets inside 256 others
  is still taken (`JsonGrammar.Height`, `JsonTheorems.ParseIsTheGrammar`).
- The finished jobs dropped are the oldest in the queue, not those that finished first
  (`Jobs.TrimmedKeeps`). Cancelling a queued job removes it; closing its session keeps it as
  cancelled (`JobRegistry.Registry.Cancel`, `JobRegistry.Registry.CloseSession`).
- Runs of white space are described as becoming one space. Between two words nothing is put where
  the first leaves no cell of its line used: a word that takes no cells, or one whose end was
  broken off and takes none (`WordWrap.ApartExactly`, `WordWrap.MarkAloneIsJoined`,
  `WordWrap.MarkBrokenOffIsJoined`).

## What is assumed

- `NaturalOrder.LowersLetters`: an ASCII digit is its own lower case, and the lower case of any
  other character is not empty and does not start with one.
- `Sorting.Reading`: reading a number gives it a place among the numbers that are not NaN.
- `SqlText.NumbersAreBare`: what the float parser takes for a number is letters, digits, signs and
  points, and not NULL.
- `Transactions`: how text is lower-cased is left open, but that `commit */` is lower case.
- The width of a text is the sum of its characters' widths, and a space is one cell wide.
- The library's stable sort, maps and white-space splitting do what their documentation says;
  where an algorithm is needed the model has a plain one.

## Model

| member | source | states |
|---|---|---|
| `JsonTheorems.ParseIsTheGrammar` | crates/qry-core/src/inspect.rs:298-443 | parsing gives a value exactly when RFC 8259 (sections 2 to 7) derives the text as that value and the value is nested at most 256 deep |
| `JsonTheorems.NumberIsTheGrammar` | crates/qry-core/src/inspect.rs:410-442 | the number reader takes a whole text exactly when it is a number of RFC 8259 section 6 |
| `JsonTheorems.StringIsTheGrammar` | crates/qry-core/src/inspect.rs:377-406 | the string reader takes a whole text exactly when it is a string of RFC 8259 section 7 |
| `JsonTheorems.ValueComplete` | crates/qry-core/src/inspect.rs:326-375 | every derivation that is not too deep is read from any text that goes on after it, as the value it stands for, leaving what follows |
| `JsonTheorems.ValueSound` | crates/qry-core/src/inspect.rs:326-375 | whatever is read has a derivation that is not too deep, and the text is white space, that derivation and the rest |
| `JsonParser.ParseJson` | crates/qry-core/src/inspect.rs:298-303 | the parser with its cursor computes the parse of the whole text |
| `JsonParser.Parser.Space` | crates/qry-core/src/inspect.rs:315-319 | the cursor skips exactly the white space of RFC 8259 and stays in bounds |
| `JsonParser.Parser.Value` | crates/qry-core/src/inspect.rs:326-375 | reading a value moves the cursor by just what the grammar takes, ends, and never leaves the text |
| `JsonParser.Parser.String` | crates/qry-core/src/inspect.rs:377-406 | the same for a string |
| `JsonParser.Parser.Number` | crates/qry-core/src/inspect.rs:410-442 | the same for a number |
| `JsonParser.Parser.Members` | crates/qry-core/src/inspect.rs:332-348 | the same for the members of an object |
| `JsonParser.Parser.Items` | crates/qry-core/src/inspect.rs:349-362 | the same for the items of an array |
| `JsonPretty.Layout.Push` | crates/qry-core/src/inspect.rs:449-453 | a piece goes on the last line; no other line changes |
| `JsonPretty.Layout.Newline` | crates/qry-core/src/inspect.rs:454-461 | a new line is begun, indented two spaces a level |
| `JsonPretty.Layout.Pretty` | crates/qry-core/src/inspect.rs:448-495 | the lines grow by the layout of the value, whatever was on them before |
| `JsonLayout.LinesStandAsNested` | crates/qry-core/src/inspect.rs:448-495 | each printed line but the first begins with exactly two spaces for every bracket opened and not closed before it, less one if it closes one; a bracket that opens and a comma end their line, and one that closes, and a key, begin theirs |
| `JsonLayout.PiecesOnTheirLines` | crates/qry-core/src/inspect.rs:448-495 | no piece of what is printed holds a line break |
| `JsonLayout.LinesAreCounted` | crates/qry-core/src/inspect.rs:448-495 | a scalar or an empty bracket takes one line; any other takes one to open, one to close and those of each member or item, and no line is shared |
| `JsonRoundTrip.PrintThenParse` | crates/qry-core/src/inspect.rs:298-495 | the printed lines joined by newlines parse back to the value: keys in order, scalars as written |
| `JsonRoundTrip.ParsedValues` | crates/qry-core/src/inspect.rs:298-443 | the values the parser can give are exactly those whose strings, numbers and literals are of the grammar, nested at most 256 deep |
| `JsonRoundTrip.PrettyIsIdempotent` | crates/qry-core/src/inspect.rs:298-495 | pretty-printing what was pretty-printed changes nothing, for every text the parser takes |
| `JsonRoundTrip.ColoursAreTheParts` | crates/qry-core/src/inspect.rs:448-495 | what is coloured as a key, string, number or literal is each key and scalar of the value once, in order |
| `JsonWriter.WriteJsonString` | crates/qry-core/src/copy.rs:100-115 | the escaping loop writes the JSON string of the text |
| `JsonWriter.JsonStringReadsBack` | crates/qry-core/src/copy.rs:100-115 | what it writes is a string of RFC 8259 section 7 and decodes to the text |
| `JsonWriter.RecogniserIsTheGrammar` | crates/qry-core/src/exporter.rs:494-520 | the exporter takes a text for a number exactly when RFC 8259 section 6 does |
| `JsonWriter.RecognisersAgree` | crates/qry-core/src/exporter.rs:494-520 | the two separately written number recognisers accept the same texts |
| `JsonWriter.JsonCellReadsBack` | crates/qry-core/src/exporter.rs:483-490 | the value written for a cell is a scalar of the grammar that decodes to the cell: null for NULL alone, a number or boolean as it is, or a string |
| `JsonWriter.JsonKinds` | crates/qry-core/src/exporter.rs:483-490 | it is a number exactly when the column holds numbers and RFC 8259 section 6 derives the text, true or false exactly when the column holds booleans and the text is one, null for NULL alone, and a string otherwise |
| `JsonExport.JsonExportReadsBack` | crates/qry-core/src/exporter.rs:420-435 | a JSON export parses as an array of one object per row, its columns in order and every value reading back as its cell, for any columns, rows, kinds and line ending |
| `JsonExport.JsonExportParsesWithoutMark` | crates/qry-core/src/exporter.rs:522-612 | a JSON export is taken by the parser if and only if no byte-order mark was asked for |
| `JsonExport.JsonLineReadsBack` | crates/qry-core/src/exporter.rs:566-569 | a row of a JSON Lines export is written as one object without a line break that parses and reads back as the row |
| `JsonExport.JsonLinesFile` | crates/qry-core/src/exporter.rs:522-612 | splitting a JSON Lines export at its line ends, LF or CR LF, gives one line for each row, in order, and nothing after the last; a mark that was asked for is on the first line |
| `JsonExport.JsonLinesReadBack` | crates/qry-core/src/exporter.rs:522-612 | each of those lines parses and reads back as its row if and only if it is not the first or no mark was asked for; so all do if and only if there are no rows or no mark |
| `TextExport.TextSink.Begin` | crates/qry-core/src/exporter.rs:523-548 | the columns are noted and the head of the file is written |
| `TextExport.TextSink.Rows` | crates/qry-core/src/exporter.rs:550-593 | after any rows the file and the waiting tuples are those of all the rows taken so far |
| `TextExport.TextSink.FlushInsert` | crates/qry-core/src/exporter.rs:447-478 | the waiting tuples become one INSERT, which holds all of them (`SqlExport.SqlReadsBack`), and none if there are none |
| `TextExport.TextSink.Finish` | crates/qry-core/src/exporter.rs:595-610 | the file is complete for the rows taken, whatever the calls that led there, and their number is given |
| `TextExport.Export` | crates/qry-core/src/exporter.rs:522-612 | the file depends on the rows one after another, not on how they were split over calls |
| `TextExport.RowsTextSplit` | crates/qry-core/src/exporter.rs:550-593 | the text of two runs of rows is the text of the first and, counted on, of the second |
| `TextExport.EveryRowInOneInsert` | crates/qry-core/src/exporter.rs:571-584 | for SQL every row is in exactly one INSERT, in order; every INSERT but the last holds exactly max(batch, 1), and none is empty |
| `SqlExport.SqlReadsBack` | crates/qry-core/src/exporter.rs:437-478 | a reader of INSERT statements finds in a SQL export, for any dialect, one statement for each batch and in it one row for each of the batch, in order |
| `SqlExport.EveryRowIsInserted` | crates/qry-core/src/exporter.rs:437-478 | so the file inserts one row for each row of the result, in order, and no others: into the table asked for, with the columns named exactly when a header was asked for, and with the value of every cell |
| `SqlExport.ValuesTellCells` | crates/qry-core/src/copy.rs:145-157 | each value tells its cell: NULL from every text, even the text NULL, and a number up to the white space around it |
| `SqlExport.IdentReadsTo` | crates/qry-core/src/copy.rs:121-142 | a name, quoted or not, is read back as it was from wherever it stands |
| `SqlExport.LiteralReadsTo` | crates/qry-core/src/copy.rs:145-157 | so is a value |
| `MarkdownExport.MarkdownReadsBack` | crates/qry-core/src/exporter.rs:532-570 | a Markdown export is its head, a line of rules and a line for each row, and a reader of tables finds every field of each |
| `MarkdownExport.FieldIsOnePass` | crates/qry-core/src/copy.rs:116-119 | the two replacements of a Markdown field are one pass that puts both in |
| `MarkdownExport.FieldsAreTexts` | crates/qry-core/src/exporter.rs:400-416 | the fields are those of the cells, NULL as it was asked to be written, and of the names exactly when a header was asked for |
| `Delimited.TextReadsBack` | crates/qry-core/src/exporter.rs:550-593 | splitting a plain-text export finds every field, if the separator and line breaks are in none as written |
| `Delimited.TextValue` | crates/qry-core/src/exporter.rs:410-413 | a plain-text value is as long as the cell and differs from it in a space for each tab and line break |
| `Delimited.TextValueIsPlain` | crates/qry-core/src/exporter.rs:410-413 | so with a tab between them the separator is in no value |
| `Delimited.CsvReadsBack` | crates/qry-core/src/exporter.rs:396-416 | an RFC 4180 section 2 reader finds every name and cell of a CSV export, for any allowed separator, either line ending, with or without a mark |
| `Delimited.CellsToldApart` | crates/qry-core/src/exporter.rs:396-416 | every cell, NULL included, is told from every other if and only if NULL is written as nothing |
| `Delimited.FileTellsCells` | crates/qry-core/src/exporter.rs:522-612 | if it is, two exports with the same file are of as many rows, with the same cells |
| `Delimited.FilesToldApart` | crates/qry-core/src/exporter.rs:522-612 | lists of rows of one width that is not zero always have different files when they differ, if and only if NULL is written as nothing |
| `Delimited.ReplacementsAreOneEscape` | crates/qry-core/src/copy.rs:93-98 | the four replacements one after another are one simultaneous escape |
| `Delimited.EscapeReadsBack` | crates/qry-core/src/copy.rs:93-98 | unescaping gives the text back, and an escaped text holds no tab or line break |
| `Delimited.TsvCellReadsBack` | crates/qry-core/src/exporter.rs:396-416 | a TSV field stays within its line and column and unescapes to its cell |
| `Delimited.TsvReadsBack` | crates/qry-core/src/exporter.rs:550-593 | splitting a TSV export at line breaks and tabs finds every field, and each unescapes to its cell |
| `Delimited.SeparatorsParsed` | crates/qry-core/src/exporter.rs:94-104 | a text is taken for a separator exactly when it is one allowed character, and it is then that one |
| `Copy.Render` | crates/qry-core/src/copy.rs:159-198 | what is copied as CSV or TSV is the names, if asked for, and the cells of the rows and columns chosen, a line each, with no line break after the last |
| `Copy.CopiedIs` | crates/qry-core/src/copy.rs:158-198 | cell by cell: the names of the columns chosen if asked for, and then for each row chosen its cell in each of those columns, or NULL where there is none |
| `Copy.CopyReadsBack` | crates/qry-core/src/copy.rs:173-198 | a reader finds every line copied, each cell with its text, exactly when the last line is not empty |
| `Copy.EmptyLine` | crates/qry-core/src/copy.rs:173-198 | a line is empty exactly when it is of no cell, or of one that is NULL or empty |
| `Copy.FieldsTellTexts` | crates/qry-core/src/copy.rs:85-98 | two cells are copied alike exactly when their texts are the same, NULL counting as the empty text |
| `CopyJson.CopiedJsonReadsBack` | crates/qry-core/src/copy.rs:202-219 | what is copied as JSON parses as one object for each row chosen, in order, with a member for each column chosen, and every value reads back as its cell |
| `CopyJson.CopiedValuesAreStrings` | crates/qry-core/src/copy.rs:202-219 | each value is null for NULL and otherwise a string, whatever the kind of its column |
| `AtomicFile.AtomicFile.Create` | crates/qry-core/src/exporter.rs:291-324 | a temporary file is made that was not there before and is not the target, however many names are taken; each refusal has its cause and leaves the disk as it was |
| `AtomicFile.AtomicFile.WriteAll` | crates/qry-core/src/exporter.rs:326-331 | writing adds to the content and touches no file but the temporary one; once closed it is refused |
| `AtomicFile.AtomicFile.Commit` | crates/qry-core/src/exporter.rs:334-346 | the target holds all that was written and the temporary file is gone, or the target is untouched and the temporary file is removed |
| `AtomicFile.AtomicFile.Drop` | crates/qry-core/src/exporter.rs:349-356 | dropped before it was renamed, the file removes itself and nothing else |
| `AtomicFile.WriteFile` | crates/qry-core/src/exporter.rs:141-160 | from first to last: the target holds every piece and nothing else changed, or nothing changed at all; and it is written when every call works |
| `AtomicFile.TempPathsDiffer` | crates/qry-core/src/exporter.rs:309-312 | two temporary names of one process differ when their numbers do, so the search for a free one ends |
| `ExportProtocol.TargetIsOldOrComplete` | crates/qry-core/src/exporter.rs:172-244 | over every interleaving the target is as it was or holds the complete output, replaced only if the query succeeded and every item it sent was written; every other file is as it was |
| `ExportProtocol.NoTemporaryFileRemains` | crates/qry-core/src/exporter.rs:349-356 | once the writer has ended no temporary file remains, unless removing it failed, and then the target is untouched |
| `ExportProtocol.RunKeepsInv` | crates/qry-core/src/exporter.rs:190-223 | every item sent is written, in hand or on its way, in order, and the signals mean what they say, after every run |
| `ExportProtocol.AbandonedWritesOneMoreAtMost` | crates/qry-core/src/exporter.rs:195-211 | once the flag of a dropped future is set, the writer writes at most one item more, over any continuation, and only one it had looked at before |
| `ExportProtocol.OneIsWrittenAfter` | crates/qry-core/src/exporter.rs:195-211 | one item may be: where the writer has looked at it before the flag is set |
| `ExportProtocol.WritingWhenDropped` | crates/qry-core/src/exporter.rs:195-211 | and a run comes to that state |
| `ExportProtocol.DroppedMayStillReplace` | crates/qry-core/src/exporter.rs:170-234 | once the future is being dropped, some continuation replaces the target if and only if the writer had been told of success, has not given up and has no item left to look at |
| `ExportProtocol.DroppedBeforeTheSignal` | crates/qry-core/src/exporter.rs:170-234 | a future dropped before the signal was sent never changes the target, over any continuation |
| `ExportProtocol.DroppedAfterTheSignal` | crates/qry-core/src/exporter.rs:221-234 | one dropped after it may be followed by the target being replaced |
| `ExportProtocol.AnswersAreSo` | crates/qry-core/src/exporter.rs:221-234 | the caller is told that all went well exactly when the target was replaced by the complete output of a query that succeeded; any other answer leaves it untouched, the failure of the writer where it failed itself and of the query where it gave up; and the answer that the export stopped before its end is never given |
| `ExportProtocol.NeverStuck` | crates/qry-core/src/exporter.rs:190-232 | until the writer has ended some side can always go on |
| `ExportProtocol.WriterEnds` | crates/qry-core/src/exporter.rs:190-223 | once the query is over the writer ends within ten of its own steps, not counting those in which a full buffer is written out, which take it no further away |
| `ExportRun.WriteItems` | crates/qry-core/src/exporter.rs:193-220 | the writer makes of the items of a driver the complete file of their columns and rows, and counts the rows; of none, the file of no columns and no rows |
| `ExportRun.DriverFile` | crates/qry-core/src/exporter.rs:193-220 | that file is the one of the rows of the driver, whatever the fetch size |
| `ExportRun.TargetHoldsTheRows` | crates/qry-core/src/exporter.rs:172-244 | over every interleaving the target is as it was or holds the complete file of the rows of the driver, and it holds that when the caller is told that all went well |
| `Calendar.DateOfDays` | crates/qry-core/src/history.rs:326-348 | a valid date of the proleptic Gregorian calendar, in any year, comes back from its day number |
| `Calendar.DaysOfDate` | crates/qry-core/src/history.rs:326-348 | every integer is the day number of the valid date it is given |
| `Calendar.Epoch` | crates/qry-core/src/history.rs:326-348 | 1970-01-01 is day 0 |
| `Calendar.NextDayIsNext` | crates/qry-core/src/history.rs:326-348 | the next day of the calendar has the next number, over month ends, leap days and year ends |
| `Calendar.CountIsMonotone` | crates/qry-core/src/history.rs:326-348 | dates are in the order of their day numbers |
| `Calendar.DaysRunOn` | crates/qry-core/src/history.rs:326-334 | a day past the end of its month counts on into the next |
| `Timestamps.ParseTs` | crates/qry-core/src/history.rs:364-406 | the parser with its cursor computes the time of the text |
| `Timestamps.FormatReadsBack` | crates/qry-core/src/history.rs:351-406 | a time written reads back exactly when its UTC year is 0 to 9999; what reads back at all is the time |
| `Timestamps.OffsetIsTakenOff` | crates/qry-core/src/history.rs:383-406 | a time with a fraction and an offset of RFC 3339 section 5.6 is the same fields with Z, less the offset |
| `Timestamps.AcceptedTimes` | crates/qry-core/src/history.rs:364-406 | exactly these texts are taken: a date and a time of day of digits, with a month to 12, a day to 31, an hour to 23, a minute to 59 and a second to 60, with `T`, `t` or a space between them, perhaps a fraction, and `Z`, `z` or an offset |
| `Timestamps.DayWrittenIsDayMeant` | crates/qry-core/src/history.rs:364-406 | the day written is the day meant exactly when its month has it |
| `Timestamps.WrittenBackExactly` | crates/qry-core/src/history.rs:351-406 | any text that is taken is written back from its time as it was if and only if it has `T`, `Z` and no fraction, its month has its day, and its second is not 60 |
| `Timestamps.OneTextIsWrittenBack` | crates/qry-core/src/history.rs:351-406 | so of all the texts of a time with a four-digit year one is written back as it was, the one written for it, and it is the only one with that form, a day of its month and a second of its minute |
| `Timestamps.OtherFormsAreAccepted` | crates/qry-core/src/history.rs:364-406 | a text with `t` or a space for the `T`, or with `z`, `+00:00` or `-00:00` for the `Z`, is of the same time and is not written back as it was |
| `Timestamps.SixtyIsTheNextMinute` | crates/qry-core/src/history.rs:364-406 | second 60 is read as one second after second 59, and so as second 0 of the next minute where the hour has one |
| `Timestamps.TwoTextsOneTime` | crates/qry-core/src/history.rs:364-406 | and February 31 is read as March 3 in any year that is not a leap year |
| `Stream.Batches.Push` | crates/qry-core/src/shared.rs:135-138 | a row is added, and the batch it fills is handed back; none is lost or moved and less than one batch is held |
| `Stream.Batches.Rest` | crates/qry-core/src/shared.rs:141-143 | the rows not yet handed back come back once, and then every row added has been counted as sent |
| `Stream.DriverSends` | crates/qry-core/src/shared.rs:118-154 | a driver that hands over a row at a time sends its columns and then its rows in batches of the fetch size, the last one smaller |
| `Stream.SendResult` | crates/qry-core/src/shared.rs:87-97 | a whole result is sent as the same items |
| `Stream.ItemsCarryRows` | crates/qry-core/src/shared.rs:76-97 | whatever the fetch size the items carry exactly the rows, in order, in batches no larger |
| `Stream.Cursor.Read` | crates/qry/src/db.rs:191-236 | a read gives exactly the next rows up to its limit; more is said exactly when rows are left; the carry is at most one batch; the task is waited for once, at the end |
| `Stream.Cursor.Finish` | crates/qry/src/db.rs:239-245 | the end of the task is waited for at most once and gives its outcome |
| `Stream.AnswersAreTheRows` | crates/qry/src/db.rs:191-236 | whatever the limits, the answers put together are the rows from the first on, each full but the last |
| `Stream.Pipeline` | crates/qry/src/db.rs:175-246 | from the rows of the driver through batches, channel and cursor to the answers, nothing is lost, added or moved |
| `Batching.ChunksKeepAll` | crates/qry-core/src/shared.rs:118-154 | cutting into batches loses, adds and moves nothing |
| `Batching.ChunkSizes` | crates/qry-core/src/shared.rs:118-154 | every batch but the last is full and none is empty |
| `Worker.DbWorker.Run` | crates/qry/src/db.rs:342-356 | any command leaves the worker as the specification of one step says: a stream is kept exactly when the answers say so, after a query exactly when it is streamed and has more rows than a limit that is not 0; the answers hold exactly the rows due; and the connection is used as the command needs |
| `Worker.DbWorker.RunQuery` | crates/qry/src/db.rs:383-410 | the same for a query: its rows up to the limit, an error exactly when it fails before giving any, and a second use of the connection exactly when the next transaction is begun |
| `Worker.DbWorker.StreamQuery` | crates/qry/src/db.rs:413-452 | the stream is kept if and only if 0 < limit < the number of rows; the answers hold the first of them, as many as the limit, and the stream those after them |
| `Worker.DbWorker.FetchNext` | crates/qry/src/db.rs:455-475 | the next rows of the kept stream are given, as many as the limit; more is said if and only if others are left, and an error only with the last; without a stream an error is given and no row |
| `Worker.RunAll` | crates/qry/src/db.rs:326-381 | over any commands the client knows whether a stream is kept, and the rows given, the rows that wait and the uses of the connection are those of the specification |
| `Worker.ReadOn` | crates/qry/src/db.rs:342-475 | from a streamed query on, as long as only commands follow that leave the stream be, the rows given and the rows that wait are together the rows of the query, in order and none twice |
| `Worker.ManualExactly` | crates/qry/src/db.rs:478-562 | over any commands autocommit is off exactly when it was put off and not put on again since, by a setting of it or by opening a connection |
| `Worker.AskedExactly` | crates/qry/src/db.rs:357-366 | and a connection waits for a password exactly when one was asked for and none entered since |
| `Worker.HeldExactly` | crates/qry/src/db.rs:342-410 | over any commands, the connection is used while a stream is kept for exactly these, once each: queries run with autocommit off on a backend that begins again, streamed, taken for the end of a transaction, and of more rows than the limit |
| `Worker.NoneHeldExactly` | crates/qry/src/db.rs:342-410 | so it never is if and only if no command is such a query |
| `Worker.HeldInARun` | crates/qry/src/db.rs:342-410 | it can be: autocommit is put off, and then `SELECT * FROM t /* ; commit */` is run, which has more rows than the limit |
| `Transactions.TxChangeExactly` | crates/qry/src/app/reducer/mod.rs:218-234 | of any text, by the first words of its last statement: BEGIN or START TRANSACTION begins a transaction, COMMIT, END, ABORT or ROLLBACK ends one, ROLLBACK TO does neither, and otherwise setting autocommit does |
| `Transactions.JudgedByTheLast` | crates/qry/src/app/reducer/mod.rs:218-234 | what a text does to the transaction is judged by what follows its last semicolon, wherever that stands |
| `Transactions.BlankEndIsNothing` | crates/qry/src/app/reducer/mod.rs:218-234 | white space after a semicolon makes no difference |
| `Transactions.CommentIsJudged` | crates/qry/src/app/reducer/mod.rs:218-234 | so `SELECT * FROM t /* ; commit */` is taken for the end of a transaction |
| `NaturalOrder.NaturalCompare` | crates/qry-core/src/grid.rs:117-153 | the loop over both texts computes the natural order |
| `NaturalOrder.NaturalIsPreorder` | crates/qry-core/src/grid.rs:117-153 | the natural order is a total preorder, given how lower-casing treats digits |
| `NaturalOrder.EqualUpToZeros` | crates/qry-core/src/grid.rs:117-153 | two texts are equal in it exactly when they differ in leading zeros of digit runs alone |
| `NaturalOrder.RunsAreNumbers` | crates/qry-core/src/grid.rs:124-140 | digit runs compare as the numbers they write, of any length |
| `NaturalOrder.CaseDecidesWhereItComesFirst` | crates/qry-core/src/grid.rs:115-153 | it is the case-insensitive order except where the texts first differ in the case of a character: there the character decides, whatever follows |
| `NaturalOrder.UpperCaseComesFirst` | crates/qry-core/src/grid.rs:115-153 | so it is not case-insensitive: A2 comes before a1 |
| `Sorting.ValuesArePreordered` | crates/qry-core/src/grid.rs:157-173 | the comparison of two values of a column is a total preorder: numbers, then text that is not one |
| `Sorting.RowsArePreordered` | crates/qry-core/src/grid.rs:176-206 | the comparison of rows under several keys, either direction each and NULL the greatest, is a total preorder |
| `Sorting.SortPermutation` | crates/qry-core/src/grid.rs:176-206 | the result is a permutation that sorts the rows and keeps equal ones in order: of any two rows the cells of the upper one stand above as the keys ask, the first key whose cells do not tie deciding, upwards or downwards |
| `Sorting.OrderIsAsAsked` | crates/qry-core/src/grid.rs:176-206 | said of the cells: upwards a value stands above NULL, a number above a greater one and above what is no number, and other text in natural order; downwards the other way round |
| `Sorting.RowsMean` | crates/qry-core/src/grid.rs:176-206 | the comparison of rows puts one before another exactly when their cells stand so |
| `Sorting.NullsGoLast` | crates/qry-core/src/grid.rs:176-178 | upwards by one column no NULL stands above a value, downwards no value above a NULL |
| `Sorting.OnlyOneOrder` | crates/qry-core/src/grid.rs:176-206 | there is one such permutation |
| `GridView.VisibleColumns` | crates/qry-core/src/grid.rs:76-106 | the columns shown are the first of those from the offset on, and of the first one if it is frozen, from left to right, each as wide as there is room for; none is left out that a cell could be shown of, and all fit |
| `GridView.CandidatesAreWanted` | crates/qry-core/src/grid.rs:83-91 | the candidates are exactly the columns from the offset on, and the first one if it is frozen, in rising order |
| `GridView.ColumnsInOrder` | crates/qry-core/src/grid.rs:76-106 | the columns shown are the first of the candidates, in order |
| `GridView.OnlyTheLastIsCut` | crates/qry-core/src/grid.rs:76-106 | only the last column is ever cut short, and then the space is full |
| `GridView.Search.Step` | crates/qry-core/src/grid.rs:238-254 | the matches in the rows looked at are added, whatever the result has become; while the rows looked at before are still there, the matches are those of all rows so far, however they were split into steps |
| `GridView.AllMatchesAre` | crates/qry-core/src/grid.rs:238-254 | they are exactly the cells that match, each once, in row order |
| `GridView.Search.NextFrom` | crates/qry-core/src/grid.rs:258-273 | the first match after, or the last before, round the ends |
| `GridView.ThereAndBack` | crates/qry-core/src/grid.rs:258-273 | going on from a match visits the next one round, and going back comes back to it |
| `Profiler.Profiler.Step` | crates/qry-core/src/inspect.rs:73-96 | the profile is that of the rows counted so far, however they were split; it is complete exactly at the cap or the end, and never changes after |
| `Profiler.CountsAreOccurrences` | crates/qry-core/src/inspect.rs:73-96 | the counts hold exactly the values that occur, each with how often it does |
| `Profiler.TopValues` | crates/qry-core/src/inspect.rs:100-105 | the values kept are the most frequent, in order, ties as text: none left out is more frequent than one kept |
| `Profiler.TopAreMostFrequent` | crates/qry-core/src/inspect.rs:100-105 | those kept fall in frequency, and those as frequent as each other rise as text |
| `Orders.TextsCompare` | crates/qry-core/src/inspect.rs:103 | one text is less than another when the other goes on from it, or its character is less where they first differ |
| `Profiler.OnlyOneTop` | crates/qry-core/src/inspect.rs:100-105 | there is one such list, whatever the order the counts were taken in |
| `WordWrap.WrapWords` | crates/qry-core/src/inspect.rs:248-284 | all visible text is kept in order; a line over the width is one character; a word is broken only where the next character does not fit; the words are kept apart if and only if each but the last leaves some of its line used; and if they are and every word fits, none is broken and the fewest lines are used |
| `WordWrap.ApartExactly` | crates/qry-core/src/inspect.rs:248-284 | what lies between the breaks is the words with one space between each two if and only if every word but the last leaves some of its line used |
| `WordWrap.FittingWordsStayApart` | crates/qry-core/src/inspect.rs:248-284 | that is so when every word takes at least one cell and fits on a line, whatever its characters take |
| `WordWrap.ShownWordsStayApart` | crates/qry-core/src/inspect.rs:248-284 | and when every character takes a cell, however wide the words |
| `WordWrap.MarkAloneIsJoined` | crates/qry-core/src/inspect.rs:248-284 | it is not so where a combining mark is a word on its own: the next word is joined to it, at any width |
| `WordWrap.MarkBrokenOffIsJoined` | crates/qry-core/src/inspect.rs:248-284 | nor where a mark is broken off the two-cell character before it, at width 1, although that word takes two cells |
| `WordWrap.OverWideIsOneCharacter` | crates/qry-core/src/inspect.rs:244-247 | a line over the width ends in a character wider than that and shows nothing else |
| `WordWrap.GreedyIsFewest` | crates/qry-core/src/inspect.rs:248-284 | no layout that keeps the words whole and within the width takes fewer lines |
| `SchemaCache.SchemaCache.Begin` | crates/qry-core/src/schema.rs:194-220 | on the flat map: the path is loading under a new number, its value kept and its error cleared |
| `SchemaCache.SchemaCache.Finish` | crates/qry-core/src/schema.rs:225-281 | on the flat map: an answer is applied exactly when it fits and is awaited; a success drops exactly what lies under the path |
| `SchemaCache.SchemaCache.Invalidate` | crates/qry-core/src/schema.rs:287-300 | on the flat map: exactly the paths within the one given are forgotten |
| `SchemaCache.SchemaCache.Clear` | crates/qry-core/src/schema.rs:303-307 | on the flat map: everything is forgotten, and the numbers go on |
| `SchemaCache.WithinGoesOn` | crates/qry-core/src/schema.rs:127-148 | a path is within another exactly when its names go on from the other one |
| `SchemaCache.AppliedExactlyWhenLive` | crates/qry-core/src/schema.rs:190-320 | over any run an answer is applied exactly when it has the right shape and the number of a load of its path that nothing has cut off since: no later load, answer, invalidation, clearing or successful reload above it |
| `SchemaCache.LoadingIsLive` | crates/qry-core/src/schema.rs:190-320 | over any run what is awaited at a path is its latest load that nothing has cut off |
| `SchemaCache.HeldIsLastLoaded` | crates/qry-core/src/schema.rs:190-320 | over any run what is held at a path is what the last answer applied there loaded, unless it was dropped since |
| `SchemaCache.ErrorIsTheLast` | crates/qry-core/src/schema.rs:190-320 | over any run a path has an error exactly when the last answer applied there was that failure and nothing was asked or dropped there since |
| `JobRegistry.RunIsValid` | crates/qry-core/src/jobs.rs:87-241 | in every reachable registry numbers strictly increase, a session runs at most one job, every job has the times of its state, and at most 50 finished ones are kept |
| `JobRegistry.FinishedNeverChange` | crates/qry-core/src/jobs.rs:34-39 | a finished job later is the same job or gone |
| `JobRegistry.GoneForGood` | crates/qry-core/src/jobs.rs:89-102 | a job that is gone never comes back and its number is not given out again |
| `JobRegistry.LaterJobsGoOn` | crates/qry-core/src/jobs.rs:87-241 | every job of a later registry goes on from one of an earlier, keeping its session, statement and start, or was made since |
| `JobRegistry.OneMoreThenTrimmed` | crates/qry-core/src/jobs.rs:219-229 | cancelling one job more and trimming each time is cancelling them all and trimming once |
| `JobRegistry.Registry.CloseSession` | crates/qry-core/src/jobs.rs:219-229 | the loop that ends and trims job by job leaves what cancelling all open jobs of the session at once and trimming once does: each of them is cancelled now, and every other job is as it was |
| `JobRegistry.Registry.Trim` | crates/qry-core/src/jobs.rs:232-240 | the loop drops what is finished and has fifty finished ones after it |
| `Jobs.TrimmedKeeps` | crates/qry-core/src/jobs.rs:231-240 | trimming keeps every unfinished job and the last fifty finished ones of the queue |
| `Jobs.TrimOnceAfterwards` | crates/qry-core/src/jobs.rs:188-198 | trimming before a job ends changes nothing that trimming after it does not |
| `JobRegistry.Registry.Enqueue` | crates/qry-core/src/jobs.rs:89-102 | the new job is the last, queued, under a number greater than any before |
| `JobRegistry.Registry.NextFor` | crates/qry-core/src/jobs.rs:142-150 | the job to send is the oldest queued one of a session that runs nothing |
| `JobRegistry.Registry.Start` | crates/qry-core/src/jobs.rs:154-167 | a queued job whose session runs nothing runs from now on with no rows yet; anything else is as it was |
| `JobRegistry.Registry.Progress` | crates/qry-core/src/jobs.rs:170-176 | a running job has the rows given; anything else is as it was |
| `JobRegistry.Registry.Finish` | crates/qry-core/src/jobs.rs:179-181 | a job that has not ended is done now with the rows given, having started when it did or now; every other job still listed is as it was, and no open one goes |
| `JobRegistry.Registry.Fail` | crates/qry-core/src/jobs.rs:184-186 | a job that has not ended has failed now with the message given, having started when it did or now; every other job still listed is as it was, and no open one goes |
| `JobRegistry.Registry.Cancel` | crates/qry-core/src/jobs.rs:201-216 | a queued job is removed, a running one is cancelled now, every other is as it was, and the answer says which |
| `JobRegistry.NextIs` | crates/qry-core/src/jobs.rs:87-241 | after any operation every job listed is one from before as that operation makes it, or the one added, queued |
| `JobRegistry.OpenStays` | crates/qry-core/src/jobs.rs:87-241 | and no job that has not ended goes but a queued one that is cancelled |
| `JobRegistry.FirstEndCounts` | crates/qry-core/src/jobs.rs:188-198 | over any run the state and the end of a job are those of the first event that ended it |
| `JobRegistry.RowsAreTheLast` | crates/qry-core/src/jobs.rs:170-176 | over any run a running job has the rows of its last progress, or none since it started |
| `Toasts.ToastQueue.Push` | crates/qry/src/notice.rs:148-160 | at most 20 toasts are kept and the one on screen stays; the notice is the last of them, unless it is no error and all that wait are; a timer is started exactly when the toast comes on screen or starts again, with the next number and for its lifetime; so the last timer started is always that of the toast on screen |
| `Toasts.ToastQueue.Expire` | crates/qry/src/notice.rs:189-195 | a timer that is not the current one changes nothing; the current one takes exactly the toast on screen away, and a timer is started exactly when another follows, with the next number and for its lifetime |
| `Toasts.OnlyTheLastTimerCounts` | crates/qry/src/notice.rs:135-200 | over any run only the last timer started can take the toast on screen away, and it runs for its lifetime; any other changes nothing |
| `Toasts.PushKeepsWhatMatters` | crates/qry/src/notice.rs:148-173 | at most 20 are kept, the toast on screen stays, and an error is dropped only when all that wait are errors |
| `Toasts.EveryNoticeIsCounted` | crates/qry/src/notice.rs:135-200 | over any run every notice pushed is counted in the queue, among those shown or among those dropped |
| `Keymap.NormaliseIsIdempotent` | crates/qry/src/keymap.rs:178-202 | normalising a key twice is normalising it once |
| `Keymap.NormalisedAlike` | crates/qry/src/keymap.rs:170-202 | two events are normalised alike exactly when they are the same press: without Ctrl the same character, Shift said or not; under Ctrl the same letter in either case and the same Shift; an AltGr character the plain one; Shift+Tab the same as BackTab; else the same key with the same Ctrl, Alt and Shift |
| `Keymap.NormalisedIsThePress` | crates/qry/src/keymap.rs:170-202 | what normalising gives is the same press, in lower case under Ctrl, with Shift not said of a character without it and always of BackTab |
| `Keymap.OneNormalForm` | crates/qry/src/keymap.rs:170-202 | and a press has only one such form |
| `Keymap.NamesRead` | crates/qry/src/keymap.rs:332-366 | every name of a key that is read, and the key it is read as |
| `Keymap.CaseOfANameIsNothing` | crates/qry/src/keymap.rs:332-333 | names are read in any case |
| `Keymap.NamesWritten` | crates/qry/src/keymap.rs:221-242 | the names that are written |
| `Keymap.DirectionsWritten` | crates/qry/src/keymap.rs:229-238 | and those of the keys that move |
| `Keymap.ModifiersAreRead` | crates/qry/src/keymap.rs:296-329 | modifiers before a name are read as exactly those |
| `Keymap.CharactersAreRead` | crates/qry/src/keymap.rs:296-374 | a character alone is that character; after alt- with Alt, after ctrl- its lower case with Ctrl, after shift- its upper case |
| `Keymap.LettersPair` | crates/qry/src/keymap.rs:189-370 | lower and upper case pair the letters as they stand in their alphabets, and leave other characters be |
| `Keymap.TwoSpellings` | crates/qry/src/keymap.rs:279-294 | keys each in angle brackets and keys with spaces between are read as the same keys |
| `Keymap.SplitOff` | crates/qry/src/keymap.rs:312-329 | the loop takes off every modifier at the start that has something after it |
| `Keymap.ParsedReadsBack` | crates/qry/src/keymap.rs:208-374 | every sequence the parser takes, written again and read again, is the same keys |
| `Keymap.ChordReadsBack` | crates/qry/src/keymap.rs:205-248 | any chord comes back, normalised, exactly when it has a key and every key can be written: no white space but the space, no arrow character, F1 to F12, and no key that is written by the name of its type |
| `Keymap.TypeNamesThereAre` | crates/qry/src/keymap.rs:205-248 | keys with no name of their own, such as CapsLock and Media(Play), are written as names of that last kind |
| `Keymap.ParsedIsWritable` | crates/qry/src/keymap.rs:279-374 | what the parser gives is never empty, is normalised and can be written |
| `Keymap.WritingTellsApart` | crates/qry/src/keymap.rs:208-248 | sequences that read as different keys are written differently |
| `Layering.ShortestPaths` | scripts/check-layering.py:82-93 | the search ends on any graph and gives exactly the packages reachable from the root, each with a shortest chain of real dependencies |
| `Layering.NormalGraph` | scripts/check-layering.py:68-79 | the loops fill the graph from the nodes, a later entry replacing an earlier one, each list sorted |
| `Layering.EdgesAreSorted` | scripts/check-layering.py:68-79 | the dependencies of a node are in the order of their names and then ids, and are the normal ones of its last entry, each as often as listed |
| `Layering.EdgesAreNeeds` | scripts/check-layering.py:68-79 | the graph holds exactly the normal dependencies of each node: those with no kind, or with the normal kind among theirs |
| `Layering.Check` | scripts/check-layering.py:96-124 | a violation is reported exactly when a workspace crate reaches a package its rule forbids, with a shortest chain, once and in order; and exactly the crates with no rule, in the order of their names, and then those that declare the binary, in the order listed, are complained of |
| `Layering.MembersInOrder` | scripts/check-layering.py:101-107 | the workspace crates are checked in the order of their names, and all of them |

## Left out

- Worker.DbWorker.Run: the stream and the driver are a command's own given items, so how far a real driver gets before it is dropped is not part of it; opening a connection counts as a use of it. Whether a text is streamed is given too, because the SQL lexer says so.
- GridView.Search.Step: takes whether a cell matches as given; lower-casing whole texts is not part of it.
- Keymap.ChordReadsBack: the names that types give keys are not listed, being another library's; what is asked of them is `Keymap.IsTypeName`.
- Layering.Check: which of several shortest chains is named is not said; every id used is taken to be that of a package.
- TextExport.TextSink.Rows: a write that fails is not part of it; `ExportProtocol` and `AtomicFile` have those.
- SqlExport.SqlReadsBack: which names are keywords and which texts are numbers is left open as `SqlText.Quoting`, because the SQL lexer and the float parser say so; how a server folds names is not part of it.
- Delimited.CsvReadsBack: cells are read as fields; that a quoted field may stand for NULL when `null_as` is not empty is said by `Delimited.CellsToldApart`.
- JobRegistry.Registry.Start: times are numbers the caller gives, and nothing is asked of their order.
- Toasts.ToastQueue.Push: counts and generations are unbounded where the program has 32 and 64 bits.
- Calendar.DaysOfDate: years and days are unbounded where the program has 64 bits.
- MarkdownExport.MarkdownReadsBack: the fields are found as written; that a line break and the text of one look alike in them is not undone.
- The Markdown and INSERT forms of copying, which only add easy members.
- Excel export, database drivers, catalog queries, TLS, the keychain, the terminal and its views.
- The SQL lexer and splitter, what is read-only, and the redaction of passwords, which are built on it.
- Progress reports and their throttle, the history's list and file, and the lock on it.
- The keymap's own table of bindings, fuzzy matching, the help, the configuration and the command line.
- Hex dumps, the choice of how a value is rendered, and the widths of columns.
