/**
 What a statement is taken to do to the transaction (reducer/mod.rs), judged by its text alone.
 How text is lower-cased is a parameter.
 */
module Transactions {
  import opened Basics
  import opened Whitespace

  /** The last piece with something on it, without the white space around it. */
  function LastStatement(pieces: seq<string>): Option<string>
    decreases |pieces|
  {
    if pieces == [] then None
    else
      var last := Trim(pieces[|pieces| - 1]);
      if last != "" then Some(last) else LastStatement(pieces[..|pieces| - 1])
  }

  /** Whether a lower-cased statement begins a transaction (true) or ends one (false). */
  function Judged(last: string): Option<bool> {
    var words := Words(last);
    var first, second := if |words| > 0 then words[0] else "", if |words| > 1 then words[1] else "";
    if first == "begin" || (first == "start" && second == "transaction") then Some(true)
    // To a savepoint only: the transaction goes on.
    else if first == "rollback" && second == "to" then None
    else if first == "commit" || first == "rollback" || first == "end" || first == "abort" then Some(false)
    else if "setautocommit=0" <= Replace(last, ' ', "") then Some(true)
    else if "setautocommit=1" <= Replace(last, ' ', "") then Some(false)
    else None
  }

  /** `tx_change`: the text is cut at every `;`, wherever it stands. */
  function TxChange(sql: string, lower: string -> string): Option<bool> {
    match LastStatement(SplitAt(sql, ';'))
    case None => None
    case Some(last) => Judged(lower(last))
  }

  // Which texts begin a transaction, and which end one.

  /** BEGIN or START TRANSACTION. */
  predicate Begin(words: seq<string>) {
    ["begin"] <= words || ["start", "transaction"] <= words
  }

  /** To a savepoint, which is none of both. */
  predicate RollBackTo(words: seq<string>) {
    ["rollback", "to"] <= words
  }

  /** COMMIT, END, ABORT, or ROLLBACK of the whole. */
  predicate End(words: seq<string>) {
    ["commit"] <= words || ["end"] <= words || ["abort"] <= words || (["rollback"] <= words && !RollBackTo(words))
  }

  /** SET AUTOCOMMIT to this digit, with spaces wherever they stand. */
  predicate SetAutocommit(text: string, digit: char) {
    "setautocommit=" + [digit] <= Replace(text, ' ', "")
  }

  /** Of any text it is the last statement's first words that say, or that it sets autocommit. */
  lemma TxChangeExactly(sql: string, lower: string -> string)
    ensures var last := LastStatement(SplitAt(sql, ';'));
            if last.None? then TxChange(sql, lower) == None
            else
              var text, change := lower(last.value), TxChange(sql, lower);
              var words := Words(text);
              && (change == Some(true) <==>
                    Begin(words) || (SetAutocommit(text, '0') && !End(words) && !RollBackTo(words)))
              && (change == Some(false) <==>
                    End(words) || (SetAutocommit(text, '1') && !SetAutocommit(text, '0')
                                   && !Begin(words) && !RollBackTo(words)))
              && (RollBackTo(words) ==> change == None)
  {
    var last := LastStatement(SplitAt(sql, ';'));
    if last.Some? {
      FirstWords(Words(lower(last.value)));
      hide Words, Begin, End, RollBackTo;
      assert "setautocommit=" + ['0'] == "setautocommit=0" && "setautocommit=" + ['1'] == "setautocommit=1";
    }
  }

  /** What the rule looks at of the words: the first two. */
  lemma FirstWords(words: seq<string>)
    ensures var first, second := if |words| > 0 then words[0] else "", if |words| > 1 then words[1] else "";
            && (Begin(words) <==> first == "begin" || (first == "start" && second == "transaction"))
            && (RollBackTo(words) <==> first == "rollback" && second == "to")
            && (End(words) <==> first == "commit" || first == "end" || first == "abort"
                                || (first == "rollback" && second != "to"))
            && !(Begin(words) && RollBackTo(words)) && !(Begin(words) && End(words))
  {
    assert "begin"[0] == 'b' && "start"[0] == 's' && "rollback"[0] == 'r' && "commit"[0] == 'c';
    assert "end"[0] == 'e' && "abort"[0] == 'a' && "to" != "" && "transaction" != "";
  }

  /** Only what follows the last `;` is judged, whatever came before, in a comment or not. */
  lemma JudgedByTheLast(before: string, last: string, lower: string -> string)
    requires ';' !in last && Words(last) != []
    ensures TxChange(before + [';'] + last, lower) == Judged(lower(Trim(last)))
  {
    SplitBetween(before, ';', last);
    SplitNowhere(last, ';');
    TrimKeepsWords(last);
    var pieces := SplitAt(before, ';') + [last];
    assert pieces[|pieces| - 1] == last;
    hide Judged, Trim, Words;
  }

  /** And white space after a `;` changes nothing. */
  lemma BlankEndIsNothing(before: string, blank: string, lower: string -> string)
    requires ';' !in blank && Words(blank) == []
    ensures TxChange(before + [';'] + blank, lower) == TxChange(before, lower)
  {
    SplitBetween(before, ';', blank);
    SplitNowhere(blank, ';');
    TrimKeepsWords(blank);
    var pieces := SplitAt(before, ';') + [blank];
    assert pieces[|pieces| - 1] == blank && pieces[..|pieces| - 1] == SplitAt(before, ';');
    hide Judged, Trim, Words;
  }

  const COMMIT_IN_A_COMMENT := "SELECT * FROM t /* ; commit */"

  /** So a query with these words in a comment at its end is taken for the end of a transaction. */
  lemma CommentIsJudged(lower: string -> string)
    requires lower("commit */") == "commit */"
    ensures TxChange(COMMIT_IN_A_COMMENT, lower) == Some(false)
  {
    hide Judged, TxChange, Words, Trim, IsWord;
    JudgedByTheLast("SELECT * FROM t /* ", " commit */", lower) by { CommitIsThere(); }
    CommitIsThere();
    assert COMMIT_IN_A_COMMENT == "SELECT * FROM t /* " + [';'] + " commit */";
    JudgedByFirstWord("commit */");
  }

  lemma CommitIsThere()
    ensures Words("commit */") == ["commit", "*/"] && Words(" commit */") == ["commit", "*/"]
    ensures Trim(" commit */") == "commit */"
  {
    hide Words, IsWord, Trim;
    assert IsWord("commit") && IsWord("*/") by { BothAreWords(); }
    WordsOfWord("commit");
    WordsOfWord("*/");
    WordsApart("", ' ', "commit */");
    WordsApart("commit", ' ', "*/");
    assert "" + [' '] + "commit */" == " commit */" && "commit" + [' '] + "*/" == "commit */";
    assert Words("") == [] && Trim(" commit */") == "commit */" by { NoWordsBefore(); }
  }

  lemma BothAreWords()
    ensures IsWord("commit") && IsWord("*/")
  {
  }

  lemma NoWordsBefore()
    ensures Words("") == [] && Trim(" commit */") == "commit */"
  {
    assert " commit */"[1..] == "commit */";
  }

  lemma JudgedByFirstWord(last: string)
    requires Words(last) == ["commit", "*/"]
    ensures Judged(last) == Some(false)
  {
    assert "commit"[0] == 'c' && "begin"[0] == 'b' && "start"[0] == 's' && "rollback"[0] == 'r';
  }
}
