# Trials event import: a Dafny model of the rider-roster builder

The trials backend creates an event from an uploaded spreadsheet. The upload
route `create_event` parses the form and checks it. It checks the NUMBER, NAME
and CLASS columns and writes the event row and one row per section. It then
walks the rows of the sheet. Rows with a null cell are skipped, and the first
repeated rider number rejects the upload. The route maps each class code
through a fixed table. It builds the `VALUES` list of a bulk rider insert, one
`(event_id, number, 'name', class)` tuple per accepted row. The stand-alone
script `read_names.py` runs the same loop for event 1. On a repeated number it
stops and keeps what it has, and it ends the statement with `;`. The route's
password check is a single equality.

Layout, one module per file:

- `wrappers.dfy`: `Wrappers`, the `Option` type used for null cells, absent
  columns and an unset password.
- `decimal.dfy`: `Decimal`, the decimal text Python's f-strings give an
  integer, and a parser that inverts it.
- `classes.dfy`: `Classes`, the class-code table `getClass` shared by both
  copies of the loop, and how its result is written into the SQL text.
- `roster.dfy`: `RosterImport`, the shared roster logic. It holds the rows,
  the null filter (`EntriesUpTo`), the position of the first repeated number
  (`DupIndex`) and the tuple rendering. It also holds `Roster`, the functional
  specification of the route's loop, with its lemmas.
- `app.dfy`: `App`. `BuildRiderValues` is the route's loop as a method. A
  `Store` class records the statements the route hands to the database.
  `CreateSections` is the section loop. `CreateEvent` is the route, proved
  equal to the outcome function `CreateEventSpec`; `ImportRiders` is its
  part after the column check, proved equal to `ImportOutcome`. `ValidatePassword` is the
  password check.
- `read_names.dfy`: `ReadNames`, the script. `BuildInsertQuery` is its loop,
  with `continue` and `break`. `RunScript` is the whole script over a
  workbook. `ScriptQuery` is the specification.

Both loops are imperative methods. Each keeps a seen-set and an accumulating
string, as the source does, and each is proved equal to a specification
function of the rows. The properties the source promises are proved as lemmas
about those functions.

## Model

| member | source | states |
|---|---|---|
| Classes.GetClass | src/app.py:122-125 | the result is a known id exactly when the code is one of M, E, I, C; a known id lies in 1..4 and is the code's position in that table; every other code gives Unknown and nothing fails |
| Classes.GetClassOfCode | read_names.py:12-14 | the script's table: id k in 1..4 is given for the k-th code of M, E, I, C and for no other code |
| Classes.ClassLiteral | src/app.py:153 | the class field of a tuple: ids 1..4 are written as the digits "1".."4", any known id as integer text that parses back to it, and Unknown as the bare word `Unknown` |
| Decimal.NatToString | src/app.py:153 | decimal text of a natural number: all digits, never empty, a leading zero only for 0, one digit exactly below 10 |
| Decimal.IntToString | src/app.py:153 | decimal text of an integer: a minus sign exactly for negative values, followed by digits |
| Decimal.ParseNatToString | src/app.py:153 | parsing the digits of a natural number gives the number back |
| Decimal.IntToStringRoundTrip | read_names.py:32 | the rendered rider number is well-formed integer text that parses back to the number |
| Decimal.IntToStringInjective | src/app.py:153 | different rider numbers render as different text |
| RosterImport.Zip | src/app.py:140 | `zip` stops at the shortest column; row k holds the k-th cell of each column |
| RosterImport.EntriesUpTo | src/app.py:140-142 | the riders of the non-null rows among the first n rows, at most one per row |
| RosterImport.IndicesPickEntries | src/app.py:140-142 | the a-th accepted rider is the rider of the a-th non-null row, whose cells are all present |
| RosterImport.IndicesIncreasing | src/app.py:140 | accepted rows are taken in input order: positions increase exactly as their ranks do |
| RosterImport.IndicesCover | src/app.py:141-142 | every non-null row is accepted |
| RosterImport.EntriesPrefix | src/app.py:140-142 | the riders of a shorter prefix of rows are a prefix of the riders |
| RosterImport.EntriesBefore | src/app.py:140-142 | the rows before the a-th non-null row hold exactly the first a riders |
| RosterImport.EntriesAppend | src/app.py:140-142 | the filter distributes over concatenation of row sequences |
| RosterImport.NullRowSkipped | src/app.py:141-142 | a row with a null cell (`IsNull`: the `pd.isnull` test on any of NUMBER, NAME, CLASS), wherever it stands, contributes no rider |
| RosterImport.EntriesAllNull | src/app.py:141-142 | with every row null no rider is accepted |
| RosterImport.DupIndex | src/app.py:143-151 | the position of the first rider whose number an earlier rider has; the riders before it have pairwise distinct numbers |
| RosterImport.DupIndexUnique | src/app.py:143-151 | that position is the only one with those two properties |
| RosterImport.NumberSeen | src/app.py:151 | the number of every non-null row read so far is in the seen set |
| RosterImport.RepeatIffNotDistinct | src/app.py:127-151 | two non-null rows share a number exactly when the accepted riders' numbers are not pairwise distinct |
| RosterImport.FirstDuplicateAt | src/app.py:143-149 | when row i repeats a number for the first time, its rider is the first repeat and the riders before it are those of the earlier rows |
| RosterImport.DupIndexStable | read_names.py:27-29 | rows appended after the first repeat change neither its position nor the riders up to it |
| RosterImport.DupIndexExtended | read_names.py:27-29 | riders appended after the first repeat change neither its position nor the riders up to it |
| RosterImport.Render | src/app.py:153 | one tuple `({event_id}, {number}, '{name}', {class})` is text that opens with `(` and closes with `)` |
| RosterImport.Join | src/app.py:153-154 | the tuples joined by commas: their combined length plus exactly one comma between neighbours |
| RosterImport.DropLast | src/app.py:154 | Python's `[:-1]`: the text without its last character, which is the text again once that character is put back; the empty text stays empty |
| RosterImport.TerminatedIsJoinComma | src/app.py:153-154 | tuples each followed by a comma are the comma-joined tuples plus one comma |
| RosterImport.DropLastAfterPrefix | read_names.py:33 | dropping the last character of a prefix and comma-terminated tuples leaves the prefix and the comma-joined tuples |
| RosterImport.DropLastTerminated | src/app.py:154 | `[:-1]` of the accumulated text is the comma-joined tuples, with no trailing comma, and empty when nothing was accumulated |
| RosterImport.AcceptRow | src/app.py:141-153 | one pass of the loop body on a non-null row with a new number: the rider joins the accepted ones, its number the seen ones, and its tuple and a comma the text, with the numbers still distinct |
| RosterImport.AcceptStep | src/app.py:151-153 | accepting a rider adds its number to the seen set and its tuple and a comma to the text, and keeps the numbers distinct when it was unseen |
| RosterImport.Roster | src/app.py:127-154 | the roster loop's result as a function of the rows: it holds the values text exactly when the non-null rows' numbers are pairwise distinct |
| RosterImport.RosterAtDuplicate | src/app.py:143-149 | the roster rejects with the number, name and class of the first row that repeats a number |
| RosterImport.RosterOfDistinct | src/app.py:140-154 | with distinct numbers the roster is the accumulated text without its last character |
| RosterImport.RosterRejectsIffRepeat | src/app.py:143-149 | the roster is rejected exactly when two non-null rows share a number |
| RosterImport.FirstRepeatRow | src/app.py:140-149 | the rejected rider comes from a non-null row that an earlier non-null row repeats, with no repeat before it |
| RosterImport.RosterNamesFirstRepeat | src/app.py:143-149 | the rejection names the later row of the first repeated pair: an earlier non-null row has its number and no two rows before it share one |
| RosterImport.RosterAcceptsAllRows | src/app.py:140-154 | on success the text joins one tuple per non-null row (`TupleOf`: the event id, the number, the name and `getClass` of the class code, lines 152-153), in input order, all with the same event id and pairwise distinct numbers |
| RosterImport.RosterAllNull | src/app.py:138-154 | with every row skipped the values text is empty |
| RosterImport.RosterIgnoresNullRow | src/app.py:141-142 | inserting a null row anywhere leaves the roster unchanged: it is not recorded as seen |
| RosterImport.ValuesEndWithParen | src/app.py:153-154 | a non-empty values text ends with the last tuple's closing parenthesis, never with a comma |
| App.ValidatePassword | src/app.py:14-17 | the password is accepted exactly when PASSWORD is set and equal to it |
| App.Store.InsertEvent | src/app.py:113-116 | appends the event row and yields a fresh id, advancing the counter |
| App.Store.InsertSection | src/app.py:119-120 | appends one section row and nothing else |
| App.Store.InsertRiders | src/app.py:157 | appends the bulk rider insert with the given values text |
| App.SectionNumbers | src/app.py:119 | `range(1, sections + 1)`: the numbers 1..sections in ascending order, none when sections is below 1 |
| App.CreateSections | src/app.py:118-120 | the section loop appends exactly the section rows 1..sections for the event, in order |
| App.BuildRiderValues | src/app.py:127-154 | the route's loop returns exactly `Roster` of the rows: the first repeat, or the values text |
| App.CreateEventSpec | src/app.py:84-161 | nothing is written unless both counts are integers and the NUMBER, NAME and CLASS columns exist; otherwise the first statement is the event row with the form's fields |
| App.ImportOutcome | src/app.py:134-161 | after the column check the answer is never 500; a 400 adds nothing to the event and section rows; 200 exactly when the columns have equal lengths (`EqualLengths`, the test at line 135) and no non-null rows share a number |
| App.CreateEvent | src/app.py:84-161 | the route's answer and the statements it issues are those of `CreateEventSpec` for the id the store hands out; the id counter advances by one exactly when the event row is written |
| App.ImportRiders | src/app.py:134-157 | the length check, the roster loop and the rider insert give the answer and the statements of `ImportOutcome` |
| App.NonIntegerFieldsRejected | src/app.py:94-98 | nothing is written when a count is not an integer; the answer is 400 exactly when `sections` is text `int()` rejects, or `sections` is an integer and `lap_count` is text `int()` rejects; every other case (an absent field reached first) is 500 |
| App.MissingColumnRejected | src/app.py:106-112 | a missing NUMBER, NAME or CLASS column gives 400 before the event row is written |
| App.UnequalColumnsRejected | src/app.py:134-136 | columns of unequal lengths give 400 after the event and its sections are written and before any rider |
| App.SectionsOnlyAfterColumnCheck | src/app.py:106-120 | a section row is issued only after the counts parse and the columns are present, and the row at position k is section k of the new event |
| App.SectionRowsNumbered | src/app.py:118-120 | after the event row, the k-th statement of the section block is section k |
| App.RidersInsertedIffCreated | src/app.py:156-161 | the rider insert is issued exactly when the route succeeds, as the last statement after the event and its sections, with the roster's values |
| App.DuplicateRejected | src/app.py:143-149 | a repeated number gives 400 naming the later row of the first repeat; the event and sections stay written and no rider insert is issued |
| ReadNames.Kept | read_names.py:24-30 | the riders the script keeps are a prefix of the non-null rows' riders with pairwise distinct numbers; when a rider is left out, the first one left out repeats a kept number |
| ReadNames.ScriptQuery | read_names.py:17-33 | the statement the script prints is at least as long as the `INSERT INTO Riders ... VALUES ` header it starts from and ends with `;` |
| ReadNames.BuildInsertQuery | read_names.py:17-33 | the script's loop returns exactly `ScriptQuery` of the rows |
| ReadNames.RunScript | read_names.py:24-34 | output exists exactly when the three columns exist, and it is the statement for event 1 |
| ReadNames.EmptyStatementText | read_names.py:33 | with no tuple, `[:-1]` removes the header's trailing space, giving `...VALUES;` |
| ReadNames.ScriptQueryShape | read_names.py:17-33 | the kept numbers are pairwise distinct; the output is the header, the comma-joined tuples and `;`, or `...VALUES;` when nothing is kept |
| ReadNames.ScriptIgnoresNullRow | read_names.py:25-26 | inserting a null row anywhere leaves the output unchanged |
| ReadNames.ScriptStopsAtFirstDuplicate | read_names.py:27-29 | once the rows hold a repeated number, rows appended later never change the output |
| ReadNames.ScriptKeepsRowsBeforeRepeat | read_names.py:24-30 | on a repeat the script keeps exactly the non-null rows before the row the upload route would reject |
| ReadNames.ScriptAgreesWithRoute | read_names.py:24-33 | without a repeat the script's tuples are the route's tuples, between the header and `;` |

## Left out

- The database (`src/db.py`, `src/config/db.py`) is not modelled. `Store` only records the statements the route hands over, and its counter stands in for the event row's auto-increment id.
- App.Store.InsertEvent: database calls never fail here. In the source a failing call raises, the route answers 500, and the rows already written stay (src/app.py:158-159).
- Flask routing, `jsonify` and request parsing are not modelled. Answers are the `Response` values 200 (`Created`), 400 with an `ApiError`, and 500.
- The texts of the error messages are not modelled. The duplicate error carries the number, name and class of the row. The source formats the number as pandas gives it, as a float.
- `pd.read_excel` (src/app.py:103-104, read_names.py:4-9) is not modelled. The upload is a `Sheet` of optional columns with optional cells, or `None` when the file is absent or unreadable. Both of those end in a 500.
- Rider numbers are integers. pandas gives floats, which the source compares as they are and writes with `int()`. The two agree for whole-number cells, and fractional numbers are not modelled. A NUMBER cell holding text (such as `12A`) cannot be written as a `Row`. On such a cell `int(Number)` raises `ValueError`. The route's `except Exception` (src/app.py:158-159) then answers 500 after the event and its sections are written. The script stops with that error at read_names.py:32 before it prints anything. `ImportOutcome`'s "never 500" covers only sheets whose numbers are integers.
- Names go into the SQL text between quotes without escaping, as in the source. The model does not capture what the database makes of a name that contains a quote.
- The script's `print` calls (read_names.py:28, 34) are not modelled. Its output is the statement `RunScript` returns. The message printed on a duplicate is not modelled.
- ReadNames.BuildInsertQuery: it takes the event id as a parameter, where the script hard-codes 1. `RunScript` passes `ScriptEventId` (1), and every lemma holds for any id.
- A missing `sections` or `lap_count` field answers 500, not 400. `int(None)` raises a `TypeError`, which the `except ValueError` at src/app.py:97 does not catch. The model follows the code here.
- An unknown class code writes the bare word `Unknown` into the tuple, which is not a valid class id. The model follows the code, not a "default class". The database would reject such an insert, so the source's route then answers 500 with the event and its sections already written, where the model answers `Created`.
- App.ValidatePassword compares against the process-wide PASSWORD environment variable, as the code does. It does not use a per-event stored password.
- An empty values list is handed to the database unchanged: `VALUES ` in the route, `...VALUES;` in the script. That statement is not valid SQL, so the source's route then answers 500 with the event and its sections already written, where the model answers `Created`; the database's answer is not modelled.
- App.UnequalColumnsRejected: the columns of one pandas DataFrame always have the same length, so the length check at src/app.py:134-136 never fires on a sheet pandas reads. `Sheet` admits unequal columns, and this lemma states what the check would do on them.
- The other routes of `src/app.py` (listing, scores, results, template download) and `wsgi.py` are outside this model.
