# Text-to-SQL query pipeline, modelled in Dafny

The application (a single Streamlit script, `app.py`) loads an uploaded
spreadsheet into the SQLite table `user_data`. It describes the table's
columns to a language model and asks the model to turn a natural-language
question into SQL. Before the SQL is run it goes through a small sanitizer:

1. the completion is stripped of surrounding whitespace;
2. every "```sql" and then every remaining "```" is removed;
3. the result is stripped again;
4. the lower-cased query is blocked when it contains `"drop "`, `"delete "`,
   `"update "` or `"insert "` (each with its trailing space) as a substring.

A blocked query is shown and never run. An allowed query is handed to the
engine exactly as cleaned, and its rows are shown with row labels 1..n.

The model is four modules, all functions and lemmas, because the modelled
part of the script is a chain of string expressions with nothing updated in
place:

- `Wrappers` (`wrappers.dfy`): `Option` and `Result`.
- `PyText` (`pytext.dfy`): the Python primitives the script uses. These are
  `str.strip`, `str.replace` (leftmost, non-overlapping, left to right), the
  substring test `p in s`, `str.lower`, `sep.join` and `range`. It also has
  `str.split`, which is not called by the script. It is here as the inverse of
  `join`, to state what the schema text says.
- `Sanitizer` (`sanitizer.dfy`): the cleaning chain `Clean`, the denylist test
  `IsDestructive` and the gate `Sanitize`, which returns `Blocked(query)` or
  `Allowed(query)`.
- `Pipeline` (`pipeline.dfy`): the column names from `PRAGMA table_info`, the
  schema text, and the outcome of one question (`Ask`, `Run`, `Display`).
  The language model is a parameter `complete: (schema, question) -> text`.
  The SQLite engine is a parameter `execute: sql -> Result<rows, message>`.

"Never reaches execution" is stated as independence from the engine. When
the query is blocked, the outcome is the same for every `execute` function.
When it is allowed, the outcome depends on `execute` only through its answer
to the cleaned query itself.

Behaviour the proofs make explicit:

- The denylist is a substring test. It is not a token test, and the model
  keeps it that weak. A keyword followed by a tab, a newline or a parenthesis
  passes (`NoSpaceQueryAllowed`, `KeywordWithoutSpaceIsAllowed`). A query with
  no space character is never blocked (`WithoutSpaceNeverDestructive`).
- The denylist tests the cleaned query, not the completion. A keyword at the
  very end of the completion loses its trailing space to `strip()`, so
  "SELECT\t1;\tDROP " is allowed as "SELECT\t1;\tDROP", although its
  lower-cased form contains "drop " (`StrippedKeywordSpaceAllowed`,
  `TrailingDropIsAllowed`).
- Fence removal is case-sensitive. For "```SQL\nSELECT 1\n```" the `SQL` tag
  stays in front of the statement (`UpperCaseFenceTagRemains`).
- Removing "```" never leaves a "```" behind (`RemoveFenceComplete`): the scan
  takes the leftmost three backticks of every run, so a run keeps fewer than
  three. Backticks can meet across a removed "```sql", though: "``" + "```sql"
  + "`" becomes "```" after the first replacement, and the second one removes
  it (`BackticksMeetAcrossSqlFence`).
- The schema text can be read back into its columns when the list is not
  empty and no column name contains a comma (`SchemaTextRoundTrip`). A name
  holding ", " makes the text ambiguous: one column "a, b" reads exactly like
  the two columns "a" and "b" (`SeparatorInNameIsAmbiguous`). With no columns
  the text is the bare introduction, which reads back as one empty name
  (`EmptySchemaText`). Column names are stored verbatim.
- When the table is absent, `PRAGMA table_info` returns no rows. The column
  list is then empty; no error is raised (`ColumnNames` of `[]`). The code is
  followed here: it does not fail at schema reflection.

## Model

| member | source | states |
|---|---|---|
| `PyText.StripLeftSpec` | app.py:85 | the left half of `strip()`: the result is the longest suffix that does not start with whitespace, and everything removed is whitespace |
| `PyText.StripRightSpec` | app.py:85 | the right half of `strip()`: the result is the longest prefix that does not end with whitespace, and everything removed is whitespace |
| `PyText.StripIsSlice` | app.py:88 | `strip()` returns a contiguous slice of its input and removes only whitespace on either side |
| `PyText.StripIsTrimmed` | app.py:88 | what `strip()` returns has no whitespace at either end |
| `PyText.StripTrimmed` | app.py:88 | stripping a string without leading or trailing whitespace returns it unchanged |
| `PyText.StripAround` | app.py:85-88 | stripping whitespace + text + whitespace, where the text is trimmed, returns exactly the text |
| `PyText.StripContained` | app.py:88 | stripping creates no new occurrence: whatever occurs in `s.strip()` occurs in `s` |
| `PyText.ContainsIff` | app.py:94 | the scanning substring test `p in s` holds exactly when `p` occurs in `s` at some index |
| `PyText.ContainedCharsOccur` | app.py:94 | every character of a pattern found in `s` is a character of `s` |
| `PyText.ReplaceAbsent` | app.py:88 | `s.replace(pat, repl)` with a non-empty pattern that does not occur returns `s` unchanged |
| `PyText.ReplaceBySelf` | app.py:88 | replacing a pattern by itself returns the string unchanged, for every pattern including the empty one |
| `PyText.ReplaceSkip` | app.py:88 | a stretch lacking the pattern's first character is copied through unchanged, and the scan goes on after it |
| `PyText.Lower` | app.py:94 | `lower()` keeps the length and maps each character by ASCII case folding |
| `PyText.LowerIgnoresCase` | app.py:94 | two strings that differ only in ASCII letter case have the same lower-case form |
| `PyText.LowerIdempotent` | app.py:94 | lower-casing twice is lower-casing once |
| `PyText.SplitJoin` | app.py:48 | splitting `sep.join(parts)` on `sep` gives back every part, in order, for a non-empty list in which no part contains the separator's first character |
| `PyText.Range` | app.py:106 | `range(lo, hi)` has `hi - lo` elements (none when `lo >= hi`), the k-th being `lo + k` |
| `Sanitizer.RemoveFenceComplete` | app.py:88 | after `replace("```", "")` the text holds no "```" |
| `Sanitizer.CleanHasNoFence` | app.py:85-88 | the cleaned query holds no code fence |
| `Sanitizer.CleanIsTrimmed` | app.py:85-88 | the cleaned query has no leading or trailing whitespace |
| `Sanitizer.CleanFixesTrimmedUnfenced` | app.py:85-88 | a query that is trimmed and holds no fence is its own cleaned form |
| `Sanitizer.CleanIdempotent` | app.py:85-88 | cleaning an already cleaned query returns it unchanged |
| `Sanitizer.BackticksMeetAcrossSqlFence` | app.py:88 | "``" + "```sql" + "`" becomes "```" after the first replacement and nothing after the second |
| `Sanitizer.NoSqlFenceWithoutFence` | app.py:88 | a query holding no "```" holds no "```sql" either |
| `Sanitizer.ClosingFenceRemoved` | app.py:88 | removing "```" from a backtick-free body followed by a closing fence gives the body |
| `Sanitizer.OpeningSqlFenceRemoved` | app.py:88 | removing "```sql" from a block "```sql" + body + "```" leaves the body and the closing fence |
| `Sanitizer.BothFencesRemoved` | app.py:88 | removing "```" from "```" + body + "```" gives the body, when it has no backtick |
| `Sanitizer.CleanSqlBlock` | app.py:85-88 | a completion of the form "```sql" + body + "```", with no backtick in the body, cleans to the stripped body |
| `Sanitizer.PlainBlockHasNoSqlFence` | app.py:88 | a block opened by a bare fence whose body has no backtick and does not begin with "sql" holds no "```sql" |
| `Sanitizer.CleanPlainBlock` | app.py:88 | a completion "```" + body + "```", whose body has no backtick and does not begin with "sql", cleans to the stripped body, tag included |
| `Sanitizer.AnyInIff` | app.py:94 | `any(p in text for p in pats)` holds exactly when some listed pattern occurs in the text |
| `Sanitizer.DestructiveIff` | app.py:93-94 | a query is blocked exactly when one of "drop ", "delete ", "update ", "insert " occurs at some index of its lower-cased form (both directions) |
| `Sanitizer.DecisionIgnoresCase` | app.py:94 | queries that differ only in ASCII letter case get the same block decision |
| `Sanitizer.WithoutSpaceNeverDestructive` | app.py:93-94 | every keyword ends with a space, so a query without a space character is never blocked |
| `Sanitizer.WithoutKeywordLettersNotDestructive` | app.py:93-94 | a query without the letters d, u and i, in either case, is not blocked |
| `Sanitizer.PlainQueryIsClean` | app.py:85-88 | a trimmed query without a backtick is its own cleaned form |
| `Sanitizer.PlainQueryVerdict` | app.py:85-96 | a trimmed completion without a backtick reaches the denylist test unchanged, and the verdict carries it as it is |
| `Sanitizer.SanitizeSpec` | app.py:85-96 | the verdict carries the cleaned completion, which is trimmed and fence-free, and it is `Blocked` exactly when a denylisted keyword occurs in the lower-cased query |
| `Sanitizer.LeadingKeywordBlocked` | app.py:93-96 | a trimmed, backtick-free query whose lower-cased form starts with a denylisted keyword is blocked as it is |
| `Sanitizer.NoSpaceQueryAllowed` | app.py:93-96 | a trimmed query with neither a backtick nor a space is allowed unchanged, whatever keywords it holds |
| `Sanitizer.CleanSqlLine` | app.py:85-88 | "```sql", a line break, a trimmed backtick-free statement, a line break and "```" clean to the statement |
| `Sanitizer.CleanTaggedLine` | app.py:85-88 | "```" + text + a line break + "```", where the text is trimmed, backtick-free and does not start with "sql", cleans to the text |
| `Sanitizer.FencedSelectIsCleaned` | app.py:85-88 | "```sql\nSELECT 1\n```" cleans to "SELECT 1" |
| `Sanitizer.SelectOneNotDestructive` | app.py:93-94 | "SELECT 1" holds no denylisted keyword |
| `Sanitizer.FencedSelectIsAllowed` | app.py:85-96 | that completion is allowed, as "SELECT 1" |
| `Sanitizer.DropTableIsBlocked` | app.py:93-96 | "DROP TABLE user_data" is blocked |
| `Sanitizer.KeywordWithoutSpaceIsAllowed` | app.py:93-96 | "DROP\tTABLE\tuser_data", "delete\nFROM\nuser_data" and "insert(1)" are allowed unchanged: the rule is a substring test, not a token test |
| `Sanitizer.StrippedKeywordSpaceAllowed` | app.py:85-96 | a trimmed, backtick-free query without a space, followed by trailing whitespace, is allowed as the query: the test sees the text after `strip()` |
| `Sanitizer.TrailingDropIsAllowed` | app.py:85-96 | "SELECT\t1;\tDROP " contains "drop " once lower-cased, and is still allowed, as "SELECT\t1;\tDROP" |
| `Sanitizer.UpperCaseFenceTagRemains` | app.py:88 | "```SQL\nSELECT 1\n```" cleans to "SQL\nSELECT 1": fence removal is case-sensitive |
| `Pipeline.Names` | app.py:44 | the projection keeps one name per record, the k-th being record k's name (line 102 uses it as well) |
| `Pipeline.ColumnNames` | app.py:40-45 | the column list has one name per catalog row, the k-th being row k's name field |
| `Pipeline.SchemaTextRoundTrip` | app.py:44-48 | the schema text is "Table user_data has columns: " followed by the columns joined with ", ", and reading it back gives every column in order, for a non-empty list whose names hold no comma |
| `Pipeline.SeparatorInNameIsAmbiguous` | app.py:48 | a column named a + ", " + b gives the same schema text as the two columns a and b |
| `Pipeline.SchemaIntroNamesTable` | app.py:48 | the text in front of the columns is "Table ", the table name `user_data` and " has columns: " |
| `Pipeline.EmptySchemaText` | app.py:44-48 | with no columns the schema text is the bare introduction, and it reads back as one empty name |
| `Pipeline.CatalogSchemaRoundTrip` | app.py:40-48 | for a non-empty catalog whose names hold no comma, the schema text built from it reads back as the catalog's names, in catalog order |
| `Pipeline.SchemaTextExample` | app.py:34-48 | the columns `id, name, score` render as "Table user_data has columns: id, name, score" |
| `Pipeline.ResultColumns` | app.py:102 | no description gives no columns; otherwise one name per described column, in order |
| `Pipeline.Display` | app.py:105-106 | the data frame keeps the engine's columns and rows and labels the rows 1..n |
| `Pipeline.EngineErrorIsReported` | app.py:98-113 | an exception from the engine ends in `Failed`, carrying the query and the engine's message |
| `Pipeline.EngineAnswerIsShown` | app.py:98-109 | every answer of the engine is shown as a table; when its rows are as wide as its description, as sqlite3 returns them, every row of the table has one value per column |
| `Pipeline.BlockedNeverExecuted` | app.py:93-101 | a blocked query ends in the rejection of the cleaned query, and the outcome is the same whatever the engine would do |
| `Pipeline.AllowedExecutedAsCleaned` | app.py:93-103 | an allowed query is run exactly as cleaned: the outcome depends on the engine only through its answer to that query |
| `Pipeline.ModelSeesSchemaAndQuestion` | app.py:48-85 | the model is consulted once, with the schema text and the question; two models that agree there lead to the same outcome |
| `Pipeline.OutcomeShowsCleanedQuery` | app.py:83-101 | every outcome of a non-empty question carries the cleaned completion, trimmed and fence-free |
| `Pipeline.AnsweredTableIsIndexedFromOne` | app.py:98-109 | an answered question shows the engine's rows in order under its column names, labelled 1, 2, ..., n |

## Left out

- The Streamlit page, upload widget, sidebar, `st.stop` and all rendering (app.py lines 12-30, 75-77, 84-90, 108-118). They are user interface. `Waiting` stands for the script doing nothing until a question is typed.
- Reading the spreadsheet and writing it to SQLite with `if_exists="replace"`, and the temporary database path (lines 27, 33-37). This is file and database I/O through libraries the model cannot see.
- Running `PRAGMA table_info`, `cur.execute` and `fetchall` (lines 41-44, 99-103). These are calls into the SQLite engine. The catalog rows are an input of `ColumnNames`, and execution is the parameter `execute`.
- The LangChain/OpenAI chain and its prompt template (lines 17, 51-72). This is a network service; its completion is the parameter `complete`. The prompt wording is a constant with no behaviour to verify.
- Pipeline.Ask: an exception raised by `chain.invoke` (line 85, outside the `try`) ends the script run; `complete` is a total function, so the model has no outcome for it.
- The exception messages of the engine. They are carried as an uninterpreted string.
- Pipeline.Display: pandas pads rows shorter than the widest one and raises when the widest row's width differs from the column count. This is not modelled, so the data frame never fails in the model. sqlite3 returns every row as wide as its description (`SqliteShaped`), so the script cannot reach that case.
- Concurrent sessions sharing the one database file. The script has no concurrency to model.
- PyText.IsSpace: only the ASCII whitespace set (space, tab, newline, carriage return, 0x0B, 0x0C) is stripped. Python's `strip()` also removes the ASCII separators 0x1C-0x1F and other Unicode whitespace.
- PyText.Lower: only ASCII `A`-`Z` is folded. Python's `lower()` also folds other Unicode letters.
