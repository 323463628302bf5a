/**
 * The question-answering pipeline of app.py around the sanitizer: the column
 * names read from the table's catalog (lines 40-45), the schema text handed
 * to the language model (line 48), and, for each question, the completion,
 * the sanitizer's verdict, the execution of an allowed query and the result
 * table labelled from 1 (lines 83-113).
 *
 * The language model and the SQLite engine are parameters: `complete` maps
 * the schema text and the question to the model's completion, `execute` maps
 * an SQL string to the engine's answer or its error message.
 */
module Pipeline {
  import opened Wrappers
  import opened PyText
  import opened Sanitizer

  /** The one table the uploaded sheet is stored in (app.py line 34). */
  const TableName: string := "user_data"

  /** The text in front of the column list in the schema description: the
      table's name between "Table " and " has columns: ". */
  const SchemaIntro: string := "Table user_data has columns: "

  /** The separator between column names in the schema description. */
  const ColumnSeparator: string := ", "

  // --------------------------------------------------------------- schema

  /** One row of `PRAGMA table_info(user_data)`: column id, name, declared
      type, not-null flag, default value and primary-key position. */
  datatype ColumnInfo = ColumnInfo(
    cid: int, name: string, declType: string, notNull: bool,
    defaultValue: Option<string>, primaryKey: int)

  /** The name of every record, in order: the projection both column lists
      of the script are built with. */
  function Names<T>(records: seq<T>, name: T -> string): (names: seq<string>)
    ensures |names| == |records|
    ensures forall k :: 0 <= k < |records| ==> names[k] == name(records[k])
  {
    if records == [] then [] else [name(records[0])] + Names(records[1..], name)
  }

  /** `[row[1] for row in cur.fetchall()]`: the names, in catalog order. */
  function ColumnNames(info: seq<ColumnInfo>): (names: seq<string>)
    ensures |names| == |info|
    ensures forall k :: 0 <= k < |info| ==> names[k] == info[k].name
  {
    Names(info, (c: ColumnInfo) => c.name)
  }

  /** `f"Table {TABLE_NAME} has columns: {', '.join(columns_only)}"`. */
  function SchemaText(columns: seq<string>): string
  {
    SchemaIntro + Join(ColumnSeparator, columns)
  }

  /** The introduction is the table's name between "Table " and " has columns: ". */
  lemma SchemaIntroNamesTable()
    ensures SchemaIntro == "Table " + TableName + " has columns: "
  {
  }

  /** With no columns (the table is absent), the schema text is the bare
      introduction, and it reads back as one empty name rather than none. */
  lemma EmptySchemaText(columns: seq<string>)
    requires columns == []
    ensures SchemaText(columns) == SchemaIntro
    ensures ReadSchemaText(SchemaText(columns)) == Some([""])
  {
    assert Join(ColumnSeparator, columns) == [];
    assert SchemaIntro + [] == SchemaIntro;
    assert SchemaIntro[|SchemaIntro|..] == [];
    assert Split([], ColumnSeparator) == [[]];
  }

  /** Reading a schema description back into its column names. */
  function ReadSchemaText(text: string): Option<seq<string>>
  {
    if SchemaIntro <= text then Some(Split(text[|SchemaIntro|..], ColumnSeparator)) else None
  }

  /** The schema text names the table, then lists every column in the given
      order: when no name holds a comma, reading it back gives the columns. */
  lemma SchemaTextRoundTrip(columns: seq<string>)
    requires |columns| > 0
    requires forall k :: 0 <= k < |columns| ==> ',' !in columns[k]
    ensures ReadSchemaText(SchemaText(columns)) == Some(columns)
  {
    var text := SchemaText(columns);
    assert text[|SchemaIntro|..] == Join(ColumnSeparator, columns);
    SplitJoin(columns, ColumnSeparator);
  }

  /** A column name holding the separator ", " makes the schema text
      ambiguous: one such column reads exactly like two columns. */
  lemma SeparatorInNameIsAmbiguous(a: string, b: string)
    ensures SchemaText([a + ColumnSeparator + b]) == SchemaText([a, b])
  {
    assert [a, b][1..] == [b];
    assert Join(ColumnSeparator, [a, b]) == a + ColumnSeparator + b;
  }

  /** The schema text of the columns read from the catalog lists the catalog's
      names, in catalog order. */
  lemma CatalogSchemaRoundTrip(info: seq<ColumnInfo>)
    requires |info| > 0
    requires forall k :: 0 <= k < |info| ==> ',' !in info[k].name
    ensures ReadSchemaText(SchemaText(ColumnNames(info))) == Some(ColumnNames(info))
    ensures forall k :: 0 <= k < |info| ==> ReadSchemaText(SchemaText(ColumnNames(info))).value[k] == info[k].name
  {
    SchemaTextRoundTrip(ColumnNames(info));
  }

  /** The columns of the example sheet, joined. */
  lemma ExampleColumnList(columns: seq<string>)
    requires columns == ["id", "name", "score"]
    ensures Join(ColumnSeparator, columns) == "id, name, score"
  {
    assert columns[1..] == ["name", "score"] && columns[2..] == ["score"];
    assert Join(ColumnSeparator, columns[1..]) == "name" + ColumnSeparator + "score";
  }

  /** The columns of the example sheet render as one line. */
  lemma SchemaTextExample(columns: seq<string>)
    requires columns == ["id", "name", "score"]
    ensures SchemaText(columns) == "Table user_data has columns: id, name, score"
  {
    var list := "id, name, score";
    ExampleColumnList(columns);
    assert SchemaIntro + list == "Table user_data has columns: id, name, score";
  }

  // --------------------------------------------------------------- result

  /** One entry of `cur.description`: SQLite fills only the column name. */
  datatype ColumnDescription = ColumnDescription(name: string)

  /** `[d[0] for d in cur.description] if cur.description else []`: no
      description (a statement that returns no rows) gives no columns. */
  function ResultColumns(description: Option<seq<ColumnDescription>>): (columns: seq<string>)
    ensures description.None? ==> columns == []
    ensures description.Some? ==> |columns| == |description.value|
    ensures description.Some? ==>
      forall k :: 0 <= k < |columns| ==> columns[k] == description.value[k].name
  {
    match description
    case None => []
    case Some(d) => Names(d, (c: ColumnDescription) => c.name)
  }

  /** What the engine hands back for a statement: its description and its rows. */
  datatype Fetched<V> = Fetched(description: Option<seq<ColumnDescription>>, rows: seq<seq<V>>)

  /** The result table shown to the user: column labels, the row labels and the rows. */
  datatype Frame<V> = Frame(columns: seq<string>, index: seq<int>, rows: seq<seq<V>>)

  /** Every row has one value per column. */
  predicate Rectangular<V>(columns: seq<string>, rows: seq<seq<V>>) {
    forall k :: 0 <= k < |rows| ==> |rows[k]| == |columns|
  }

  /** What sqlite3 hands back: every fetched row has one value per described
      column. */
  predicate SqliteShaped<V>(f: Fetched<V>) {
    Rectangular(ResultColumns(f.description), f.rows)
  }

  /** `pd.DataFrame(rows, columns=cols)` followed by `index = range(1, len + 1)`:
      the engine's columns and rows, with the rows labelled from 1. */
  function Display<V>(columns: seq<string>, rows: seq<seq<V>>): (frame: Frame<V>)
    ensures frame.columns == columns && frame.rows == rows
    ensures |frame.index| == |rows|
    ensures forall k :: 0 <= k < |rows| ==> frame.index[k] == k + 1
  {
    Frame(columns, Range(1, |rows| + 1), rows)
  }

  // ------------------------------------------------------------- question

  /** What one question leads to. */
  datatype Outcome<V> =
    | Waiting                                  // no question asked yet
    | Rejected(sql: string)                    // the denylist matched; shown, not run
    | Failed(sql: string, detail: string)      // the engine raised
    | Answered(sql: string, frame: Frame<V>)   // the result table

  /** Lines 98-113: run an allowed query and build the result table; an
      exception is reported with its message. */
  function Run<V>(query: string, execute: string -> Result<Fetched<V>, string>): Outcome<V>
  {
    match execute(query)
    case Failure(e) => Failed(query, e)
    case Success(f) => Answered(query, Display(ResultColumns(f.description), f.rows))
  }

  /** An engine error is reported with its message, next to the query. */
  lemma EngineErrorIsReported<V>(query: string, execute: string -> Result<Fetched<V>, string>)
    requires execute(query).Failure?
    ensures Run(query, execute) == Failed(query, execute(query).error)
  {
  }

  /** Every answer of the engine is shown; an answer shaped as sqlite3 shapes
      it gives a table with one value per column in every row. */
  lemma EngineAnswerIsShown<V>(query: string, execute: string -> Result<Fetched<V>, string>)
    requires execute(query).Success?
    ensures Run(query, execute).Answered?
    ensures SqliteShaped(execute(query).value) ==>
      Rectangular(Run(query, execute).frame.columns, Run(query, execute).frame.rows)
  {
  }

  /** Lines 83-113: for a non-empty question, ask the model with the schema
      text, sanitize its completion, and run the query only if it is allowed. */
  function Ask<V>(columns: seq<string>, question: string,
                  complete: (string, string) -> string,
                  execute: string -> Result<Fetched<V>, string>): Outcome<V>
  {
    if question == "" then Waiting
    else
      match Sanitize(Completion(columns, question, complete))
      case Blocked(q) => Rejected(q)
      case Allowed(q) => Run(q, execute)
  }

  /** The completion the model gives for this schema and question. */
  function Completion(columns: seq<string>, question: string,
                      complete: (string, string) -> string): string
  {
    complete(SchemaText(columns), question)
  }

  /** A blocked query never reaches the engine: the outcome is the rejection
      of the cleaned query, whatever the engine would have done. */
  lemma BlockedNeverExecuted<V>(columns: seq<string>, question: string,
                                complete: (string, string) -> string,
                                execute: string -> Result<Fetched<V>, string>,
                                other: string -> Result<Fetched<V>, string>)
    requires question != ""
    requires IsDestructive(Clean(Completion(columns, question, complete)))
    ensures Ask(columns, question, complete, execute) == Rejected(Clean(Completion(columns, question, complete)))
    ensures Ask(columns, question, complete, execute) == Ask(columns, question, complete, other)
  {
    var c := Completion(columns, question, complete);
    assert Sanitize(c) == Blocked(Clean(c));
  }

  /** An allowed query is executed exactly as cleaned: the outcome reports
      that query and depends on the engine only through its answer to it. */
  lemma AllowedExecutedAsCleaned<V>(columns: seq<string>, question: string,
                                    complete: (string, string) -> string,
                                    execute: string -> Result<Fetched<V>, string>,
                                    other: string -> Result<Fetched<V>, string>)
    requires question != ""
    requires !IsDestructive(Clean(Completion(columns, question, complete)))
    requires execute(Clean(Completion(columns, question, complete)))
          == other(Clean(Completion(columns, question, complete)))
    ensures Ask(columns, question, complete, execute) == Run(Clean(Completion(columns, question, complete)), execute)
    ensures Ask(columns, question, complete, execute) == Ask(columns, question, complete, other)
  {
    var c := Completion(columns, question, complete);
    var q := Clean(c);
    assert Sanitize(c) == Allowed(q);
    assert Run(q, execute) == Run(q, other);
  }

  /** The model is consulted once, with the schema text and the question:
      two models that give the same completion for them lead to the same outcome. */
  lemma ModelSeesSchemaAndQuestion<V>(columns: seq<string>, question: string,
                                      complete: (string, string) -> string,
                                      other: (string, string) -> string,
                                      execute: string -> Result<Fetched<V>, string>)
    requires complete(SchemaText(columns), question) == other(SchemaText(columns), question)
    ensures Ask(columns, question, complete, execute) == Ask(columns, question, other, execute)
  {
  }

  /** Every outcome of a question carries the cleaned completion as its SQL
      text, trimmed and without a code fence. */
  lemma OutcomeShowsCleanedQuery<V>(columns: seq<string>, question: string,
                                    complete: (string, string) -> string,
                                    execute: string -> Result<Fetched<V>, string>)
    requires question != ""
    ensures !Ask(columns, question, complete, execute).Waiting?
    ensures Ask(columns, question, complete, execute).sql == Clean(Completion(columns, question, complete))
    ensures IsTrimmed(Ask(columns, question, complete, execute).sql)
    ensures !Contains(Ask(columns, question, complete, execute).sql, Fence)
  {
    var c := Completion(columns, question, complete);
    var o := Ask(columns, question, complete, execute);
    assert o.sql == Sanitize(c).query;
    CleanIsTrimmed(c);
    CleanHasNoFence(c);
  }

  /** An answered question shows the engine's rows, in order, labelled
      1, 2, ..., n, under the engine's column names. */
  lemma AnsweredTableIsIndexedFromOne<V>(query: string, execute: string -> Result<Fetched<V>, string>)
    requires Run(query, execute).Answered?
    ensures execute(query).Success?
    ensures var frame := Run(query, execute).frame;
      && frame.rows == execute(query).value.rows
      && frame.columns == ResultColumns(execute(query).value.description)
      && frame.index == Range(1, |frame.rows| + 1)
      && forall k :: 0 <= k < |frame.rows| ==> frame.index[k] == k + 1
  {
  }
}
