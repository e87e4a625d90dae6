/** Copying cells as JSON (copy.rs): one object a row, every value a string or null whatever its column's kind. */
module CopyJson {
  import opened Basics
  import opened JsonExport
  import opened JsonGrammar
  import opened JsonParser
  import opened JsonTheorems
  import opened JsonWriter
  import opened Results
  import opened SqlText
  import opened TextExport
  import Copy

  function CopiedMember(name: string, value: Cell): string {
    JsonString(name) + ": " + (if value.None? then "null" else JsonString(value.value))
  }

  /** The members of a row copied: one for each column chosen, in order. */
  function CopiedMembers(result: QueryResult, cols: seq<nat>, row: nat): (texts: seq<string>)
    ensures |texts| == |cols|
  {
    seq(|cols|, i requires 0 <= i < |cols| =>
      CopiedMember(Copy.NameOf(result, cols[i]), Copy.CellOf(result, row, cols[i])))
  }

  function CopiedObject(result: QueryResult, cols: seq<nat>, row: nat): string {
    "{" + Join(CopiedMembers(result, cols, row), ", ") + "}"
  }

  function CopiedObjects(result: QueryResult, sel: Copy.Selection): (texts: seq<string>)
    ensures |texts| == |sel.rows|
  {
    seq(|sel.rows|, i requires 0 <= i < |sel.rows| => CopiedObject(result, sel.cols, sel.rows[i]))
  }

  /** The JSON branch of `render`. */
  function CopiedJson(result: QueryResult, sel: Copy.Selection): string {
    "[" + Join(CopiedObjects(result, sel), ",\n ") + "]"
  }

  /** The columns chosen, as columns of text. */
  function TextColumns(result: QueryResult, cols: seq<nat>): (columns: seq<ColumnMeta>)
    ensures |columns| == |cols|
  {
    seq(|cols|, i requires 0 <= i < |cols| => ColumnMeta(Copy.NameOf(result, cols[i]), ValueKind.Text))
  }

  /** An export's form of rows with these columns; nothing else of it matters to an object. */
  function FormOf(columns: seq<ColumnMeta>): Format {
    Format(ExportType.Json, ExportOptions(',', false, "", false, None, Sqlite, 0, false),
           Quoting(_ => false, _ => false), columns)
  }

  /** What is copied of a row is the object an export writes for columns of text. */
  lemma ObjectIsExported(result: QueryResult, sel: Copy.Selection, row: nat)
    ensures CopiedObject(result, sel.cols, row)
         == ObjectText(FormOf(TextColumns(result, sel.cols)), Copy.CellsOf(result, sel, row))
  {
    hide JsonString;
    var columns, cells := TextColumns(result, sel.cols), Copy.CellsOf(result, sel, row);
    forall i | 0 <= i < |sel.cols|
      ensures CopiedMembers(result, sel.cols, row)[i] == JsonMembers(columns, cells)[i]
    {
      assert CellAt(cells, i) == Copy.CellOf(result, row, sel.cols[i]);
    }
    assert CopiedMembers(result, sel.cols, row) == JsonMembers(columns, cells);
  }

  function ItemTrees(f: Format, rows: seq<Row>, first: bool): (trees: seq<ItemTree>)
    ensures |trees| == |rows|
  {
    if rows == [] then []
    else [ItemTree(if first then "" else "\n ", RowTree(f, rows[0]), "")] + ItemTrees(f, rows[1..], false)
  }

  function Objects(f: Format, rows: seq<Row>): (texts: seq<string>)
    ensures |texts| == |rows|
  {
    seq(|rows|, i requires 0 <= i < |rows| => ObjectText(f, rows[i]))
  }

  lemma {:induction false} ItemTreesDerive(f: Format, rows: seq<Row>, first: bool)
    ensures forall t | t in ItemTrees(f, rows, first) :: ItemDerivation(t)
    ensures ItemsHeight(ItemsValue(ItemTrees(f, rows, first))) <= 2
    ensures forall i | 0 <= i < |rows| :: ReadsAs(ItemsValue(ItemTrees(f, rows, first))[i], f.columns, rows[i])
  {
    hide ColumnTrees, ReadsAs;
    if rows != [] {
      ColumnTreesDerive(f.columns, rows[0], 0);
      RowTreeReads(f, rows[0]);
      ItemTreesDerive(f, rows[1..], false);
      var trees := ItemTrees(f, rows, first);
      assert trees[1..] == ItemTrees(f, rows[1..], false);
      assert ItemDerivation(trees[0]);
      assert forall i | 0 < i < |rows| :: ItemsValue(trees)[i] == ItemsValue(trees[1..])[i - 1];
    }
  }

  lemma {:induction false} ItemTreesText(f: Format, rows: seq<Row>, first: bool, tail: string)
    requires rows != []
    ensures PutItems(ItemTrees(f, rows, first), tail)
         == (if first then "" else "\n ") + (Join(Objects(f, rows), ",\n ") + ("]" + tail))
    decreases |rows|
  {
    hide ObjectText, RowTree;
    var trees, texts := ItemTrees(f, rows, first), Objects(f, rows);
    assert trees[1..] == ItemTrees(f, rows[1..], false) && texts[1..] == Objects(f, rows[1..]);
    if |rows| == 1 {
      RowTreeText(f, rows[0], "" + ("]" + tail));
    } else {
      var end := "]" + tail;
      var more := Join(texts[1..], ",\n ");
      ItemTreesText(f, rows[1..], false, tail);
      RowTreeText(f, rows[0], "" + ("," + ("\n " + (more + end))));
      NextObject(texts[0], more, end);
    }
  }

  lemma NextObject(text: string, more: string, end: string)
    ensures text + ("" + ("," + ("\n " + (more + end)))) == (text + ",\n " + more) + end
  {
  }

  lemma ArrayText(f: Format, rows: seq<Row>)
    ensures Put(ArrayTree("", ItemTrees(f, rows, true)), "") == "[" + Join(Objects(f, rows), ",\n ") + "]"
  {
    hide ItemTrees, PutItems, Join, Objects;
    var inside := Join(Objects(f, rows), ",\n ");
    if rows == [] {
      assert inside == "" by { NothingJoined(f, rows); }
      assert "" + ("]" + "") == inside + "]";
    } else {
      ItemTreesText(f, rows, true, "");
      assert "" + (inside + ("]" + "")) == inside + "]";
    }
    Assoc("[", inside, "]");
  }

  lemma NothingJoined(f: Format, rows: seq<Row>)
    requires rows == []
    ensures Join(Objects(f, rows), ",\n ") == ""
  {
  }

  /** The rows chosen, the cells of the columns chosen in each. */
  function ChosenRows(result: QueryResult, sel: Copy.Selection): (rows: seq<Row>)
    ensures |rows| == |sel.rows|
  {
    seq(|sel.rows|, i requires 0 <= i < |sel.rows| => Copy.CellsOf(result, sel, sel.rows[i]))
  }

  /** What is copied parses as one object for each row chosen, in order, and every value of it reads back as
      its cell: null for NULL alone, and a string for anything else. */
  lemma CopiedJsonReadsBack(result: QueryResult, sel: Copy.Selection)
    ensures var r := Parse(CopiedJson(result, sel));
            && r.Some? && r.value.Array? && |r.value.items| == |sel.rows|
            && forall i | 0 <= i < |sel.rows| ::
                 ReadsAs(r.value.items[i], TextColumns(result, sel.cols), Copy.CellsOf(result, sel, sel.rows[i]))
  {
    hide ReadsAs, CopiedObject, ObjectText, ItemTrees;
    var f, rows := FormOf(TextColumns(result, sel.cols)), ChosenRows(result, sel);
    forall i | 0 <= i < |rows|
      ensures CopiedObjects(result, sel)[i] == Objects(f, rows)[i]
    {
      ObjectIsExported(result, sel, sel.rows[i]);
    }
    assert CopiedObjects(result, sel) == Objects(f, rows);
    var tree := ArrayTree("", ItemTrees(f, rows, true));
    ArrayText(f, rows);
    ItemTreesDerive(f, rows, true);
    assert "" + Put(tree, "") == Put(tree, "");
    assert DerivesBy(CopiedJson(result, sel), "", tree, "");
    ParseIsTheGrammar(CopiedJson(result, sel), Value(tree));
  }

  /** And whatever the kinds of the columns, a value is never bare: a number is copied as a string. */
  lemma CopiedValuesAreStrings(result: QueryResult, sel: Copy.Selection, i: nat, k: nat)
    requires i < |sel.rows| && k < |sel.cols|
    ensures var r := Parse(CopiedJson(result, sel));
            && r.Some? && r.value.Array? && i < |r.value.items| && r.value.items[i].Object?
            && k < |r.value.items[i].members|
            && (var j := r.value.items[i].members[k].value;
                if Copy.CellOf(result, sel.rows[i], sel.cols[k]).None? then j == Literal("null") else j.String?)
  {
    hide Parse, CopiedJson, JsonString;
    CopiedJsonReadsBack(result, sel);
    var r := Parse(CopiedJson(result, sel)).value;
    assert ReadsAs(r.items[i], TextColumns(result, sel.cols), Copy.CellsOf(result, sel, sel.rows[i]));
    assert CellAt(Copy.CellsOf(result, sel, sel.rows[i]), k) == Copy.CellOf(result, sel.rows[i], sel.cols[k]);
  }
}
