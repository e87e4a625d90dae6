/** Names and values as SQL writes them (copy.rs). */
module SqlText {
  import opened Basics
  import opened Results
  import opened Whitespace

  datatype Dialect = Postgres | MySql | Sqlite | Oracle

  /** What is asked of a name, whether the dialect has it for a keyword, and of a text, whether it is a number. */
  datatype Quoting = Quoting(keyword: string -> bool, number: string -> bool)

  predicate NameChar(c: char) {
    IsAlphanumeric(c) || c == '_'
  }

  /** A name that needs no quotes: it starts with a letter or an underscore and is no keyword. */
  predicate Plain(q: Quoting, name: string) {
    name != "" && !IsDigit(name[0]) && (forall i | 0 <= i < |name| :: NameChar(name[i])) && !q.keyword(name)
  }

  function QuoteOf(dialect: Dialect): char {
    if dialect.MySql? then '`' else '"'
  }

  /** `quote_ident`. */
  function Ident(q: Quoting, dialect: Dialect, name: string): string {
    if Plain(q, name) then name
    else if dialect.MySql? then "`" + Replace(name, '`', "``") + "`"
    else "\"" + Replace(name, '"', "\"\"") + "\""
  }

  /** `literal`. */
  function Literal(q: Quoting, dialect: Dialect, value: Cell, numeric: bool): string {
    match value
    case None => "NULL"
    case Some(v) =>
      if numeric && q.number(Trim(v)) then Trim(v)
      else
        var doubled := Replace(v, '\'', "''");
        "'" + (if dialect.MySql? then Replace(doubled, '\\', "\\\\") else doubled) + "'"
  }

  /** What a number may be made of, whichever way it is written; NULL is none. */
  ghost predicate NumbersAreBare(q: Quoting) {
    forall text | q.number(text) :: text != "" && text != "NULL" && forall i | 0 <= i < |text| :: NumberChar(text[i])
  }

  predicate NumberChar(c: char) {
    IsAlphanumeric(c) || c == '+' || c == '-' || c == '.'
  }
}
