# PGWire-Mock, modelled and proved in Dafny

PGWire-Mock is a mock PostgreSQL server: it speaks protocol 3.0 to clients and answers from rules, from built-in
replies and from a small in-memory table store. This project models its five stateful cores and proves what holds of
them over every input, every run and every interleaving.

* **The table store.** `Relational` is a pure store from table name to columns and rows; `StateStores` is the store as
  the server keeps it, a map of table objects whose row slices are written in place; `Values` holds its text scanners.
  The heap store refines the pure one statement by statement, and `Clauses` says what statements do from their text, in
  the spellings a client may use. `Interleavings` runs the critical sections of many clients in any order and shows that
  SELECT, which takes the lock twice, still answers as if it were one instant. `StatementTexts` gives the whole answer and
  effect of each statement from its text, and `StoredValues` follows what was stored back to the client.
* **The session and the wire.** `Wire`, `Frontend` and `Backend` are the message formats in both directions, `Reader`
  and `Writer` the code that takes them apart and puts them together. `Sessions` is the session as steps on a state,
  `Handlers` the connection handler refining it. `Replies`, `Conversations`, `Histories`, `ResultRows`, `ClientAnswers`,
  `Legibility` and `EndToEnd` prove what a client can rely on: which replies answer which requests, what each request asks
  the rules for, and what every message of the answer says.
* **The rule engine.** `Matcher` normalises and compares queries, `RuleEngine` is the registry as a slice over a backing
  array shared with running searches, `Engines` the match with its stages, hit counters and log, `MatchInterleavings`
  the matches of many clients at once, `FailAfter` the check that rules with a failure threshold share between clients.
* **Life cycle and events.** `Lifecycle` interleaves accept loop, handlers and Stop; `Broker` interleaves subscribers,
  broadcasts and receivers.
* **Values.** `Template` renders the tags in rule cells, `Binary` and `Calendar` encode values in the binary format.

Go strings and byte slices are both `Text`, a sequence of 8-bit units; integers are unbounded and every width, wrap or
saturation of the source is written out. Loops and field updates of the source are methods with invariants, proved
against functions; the lemmas are about those functions. Steps that the source makes atomic, by a lock or an atomic
operation, are single steps of a state machine. Random map order is an arbitrary choice in the loop.

Where the code does not do what its callers may hope, a result says when exactly, and names an input:

* a search during which a rule is deleted can miss a rule that stays (`RuleEngine.DeletionSkips`, `SearchMissesMatch`);
* Stop waits for a connection that was accepted before the listener was closed and registered after the sweep, for as
  long as that client likes (`Lifecycle.StopReturnsIff`, `LateConnectionStaysOpen`);
* normalising is not idempotent on `a;;` (`Matcher.IdempotentIff`, `TwoSemicolons`);
* an INSERT is cut at the word RETURNING inside a value (`Clauses.InsertedRowsComeBackIff`, `NobodyReturnsHome`), a SET
  list at a comma inside one (`SetListReadsBackIff`, `CommaEndsValue`), and a comma inside a column definition or a
  constraint leaves a column behind (`CreateByTextIff`, `CommaLeavesColumn`);
* a count of a column answers with the rows themselves, and a count in mixed case with NULLs
  (`StatementTexts.OtherCountsSelectAll`, `MixedCaseCountIsColumn`);
* a SELECT * sent while somebody updates can show a table that never was (`StateStores.StateStore.SelectAndSend`,
  `Clauses.SentRowsAreTorn`);
* a stored value is rendered as a template when it is selected (`StoredValues.StoredRowsShownIff`,
  `SequenceComesBackCounted`, `RandomPanicsIff`).

Where code and expectation part, the model follows the code: INSERT into an existing table is positional; CREATE TABLE
replaces the table; a WHERE that is no equality, or names no column, accepts every row; INSERT RETURNING returns the
rows as parsed; Describe counts as a match and may run a statement; Execute sends a row description; nothing is skipped
after an error; closing a statement leaves its portals; one trailing semicolon is dropped, though the comment on
NormalizeSQL speaks of semicolons; a date column is announced as variable in size although binary dates take four bytes.

## Model

| member | source | states |
|---|---|---|
| Values.FindColIndex | internal/mock/state_store.go:390-398 | The index found names a column equal up to case and no earlier column is; -1 means no column is. |
| Values.SanitizeName | internal/mock/state_store.go:380-388 | Names come out in lower case whatever quotes, blanks or schema they had, so two spellings meet in one map key. |
| Values.BoundPlaceholder | internal/mock/state_store.go:408-423 | `$k` with k in range yields the bound bytes verbatim whatever they contain, and NULL the text NULL. |
| Values.UnboundPlaceholder | internal/mock/state_store.go:408-471 | A placeholder for which there is no parameter stays its own text, in a tuple, in a SET list and as what a WHERE compares with. |
| Values.CellRead | internal/mock/state_store.go:400-486 | A value with blanks around it, in quotes of either kind or in none, or as `$k`, means the same in a tuple, a SET list and a WHERE: its text, or the bound bytes. |
| Values.TuplesHead | internal/mock/state_store.go:402-403 | The tuple pattern takes the contents up to the first closing parenthesis and goes on behind it. |
| Values.ParseValuesTuples | internal/mock/state_store.go:400-428 | The loop returns one row per tuple match, in order, with every value trimmed, bound or unquoted. |
| Values.PrintedRowsReadBack | internal/mock/state_store.go:400-428 | Rows of values so spelled, without comma or closing parenthesis in a literal, with any gap between the tuples, read back as the values the client meant. |
| Values.QuotedRowsReadBackIff | internal/mock/state_store.go:400-428 | Quoted rows survive printing and parsing exactly when every row is non-empty and no value has a comma, a closing parenthesis or a quote at an end. |
| Values.ScannedValueIsClean | internal/mock/state_store.go:400-428 | No literal the parser returns has a comma, a closing parenthesis or a quote at an end, whatever text it is given. |
| Values.ParseSetAssignments | internal/mock/state_store.go:430-453 | The loop builds the assignment map: pairs without '=' are skipped, a later assignment to the same lower-cased name wins. |
| Clauses.NameSpellings | internal/mock/state_store.go:380-388 | A name with blanks and quotes around it, behind any schema or none, means the name in lower case. |
| Clauses.EachQuoted | internal/mock/state_store.go:380-388 | When schema and name are quoted each on its own, the quote before the name stays and it is another name. |
| Clauses.WhereFilters | internal/mock/state_store.go:455-486 | `name = value`, in any of these spellings of both, accepts exactly the rows whose first column of that name equals the value up to case, and every row when no column has the name. |
| Clauses.WithoutEqualityAllRows | internal/mock/state_store.go:194-486 | A WHERE that is no equality is none: SELECT returns the whole table, DELETE empties it, UPDATE assigns to every row and counts them all. |
| Clauses.SetListReadsBack | internal/mock/state_store.go:430-453 | A SET list, spelled in any of these ways and without a comma in a value, reads back as the assignments meant, a later one for a column winning. |
| Clauses.SetListReadsBackIff | internal/mock/state_store.go:430-453 | Quoted assignments to different columns read back exactly when no value has a comma in it or a quote at an end. |
| Clauses.CommaEndsValue | internal/mock/state_store.go:430-453 | A comma in a quoted value ends it, and what follows is read as further assignments: `name='Doe, John'` assigns `Doe`. |
| Clauses.SelectAndDeleteByText | internal/mock/state_store.go:194-375 | From the statement's text, in any of these spellings: SELECT * returns the rows with the value, DELETE leaves the others, both in order. |
| StatementTexts.SelectAllByText | internal/mock/state_store.go:194-284 | SELECT * with no WHERE or an equality: the table's columns, text types, exactly the chosen rows in table order, and a tag that counts them. |
| StatementTexts.SelectColumnsByText | internal/mock/state_store.go:194-284 | SELECT of a column list: exactly the chosen rows in table order, each with the cell of the first column of every name or NULL where there is none, under the names in lower case, and a tag that counts the rows. |
| StatementTexts.CountByText | internal/mock/state_store.go:265-273 | The four spellings of a count answer the number of chosen rows in one int8 column. |
| StatementTexts.OtherCountsSelectAll | internal/mock/state_store.go:236-284 | Any other text with `count(` or `COUNT(` in it, such as `count(id)`, answers as the star does. |
| StatementTexts.MixedCaseCountIsColumn | internal/mock/state_store.go:236-264 | `Count(*)` is taken for a column of that name and answers one NULL for each chosen row. |
| StatementTexts.MissingByText | internal/mock/state_store.go:203-355 | SELECT, UPDATE and DELETE of a table that is not there answer error 42P01 naming it, and change nothing. |
| StatementTexts.DeleteByText | internal/mock/state_store.go:333-375 | DELETE leaves the table's other rows and every other table, and its tag counts the chosen rows. |
| StatementTexts.UpdateTagByText | internal/mock/state_store.go:286-331 | The tag of an UPDATE counts the chosen rows, whatever its SET list. |
| StatementTexts.TruncateByText | internal/mock/state_store.go:105-119 | TRUNCATE leaves a table its columns and no rows, every other table as it was, and a missing table missing. |
| StatementTexts.DropByText | internal/mock/state_store.go:91-103 | After DROP TABLE the name has no table and a SELECT of it is an error; every other name keeps its table. |
| StatementTexts.CreateTagByText | internal/mock/state_store.go:84-88 | CREATE TABLE answers with its tag and nothing else. |
| Clauses.UpdateByText | internal/mock/state_store.go:286-331 | From the statement's text, for a SET list without a comma in a value: exactly the rows with the value change, and in them exactly the first column of each name set. |
| Clauses.InsertedRowsComeBackIff | internal/mock/state_store.go:121-284 | Rows inserted from their text into an existing table come back behind the rows it had, padded or cut, whatever the column list says, and the tag counts them, exactly when RETURNING between blanks is nowhere in the text. |
| Clauses.ReturningInValue | internal/mock/state_store.go:128-136 | A row with that word inside a quoted value is cut there, and nothing is inserted. |
| Clauses.NobodyReturnsHome | internal/mock/state_store.go:128-136 | `('he is returning home')` is such a row. |
| StatementTexts.InsertCreatesByText | internal/mock/state_store.go:121-192 | INSERT into a table that is not there makes one with exactly the listed names in lower case, in order, and the values meant, padded or cut to that width; every other table stays. |
| StatementTexts.InsertNumbersColumns | internal/mock/state_store.go:147-151 | Without a column list the columns of such a table are col_1 to col_n for a first row of n values. |
| StatementTexts.ReturningByText | internal/mock/state_store.go:128-189 | INSERT RETURNING, in any letter case, stores what the INSERT without it stores, and answers the table's columns and the rows as written. |
| Clauses.CreateByTextIff | internal/mock/state_store.go:54-89 | From the statement's text an empty table with the columns meant, in order, takes the name, exactly when no column is named by one of the four constraint words, every constraint starts with one, and every piece behind a comma inside a definition is blank or starts with one. |
| Clauses.CommaLeavesColumn | internal/mock/state_store.go:58-73 | A comma inside a definition leaves a column named by the word behind it: `b)` for `PRIMARY KEY (a, b)`, `2)` for `numeric(10,2)`. |
| Clauses.SentRowsAreTorn | internal/mock/state_store.go:223-324 | Two rows of which the second is sent after an UPDATE of both: the client sees a table that never was. |
| StateStores.AssignInPlace | internal/mock/state_store.go:316-321 | Writing the assigned columns of a row in place, names taken in any order, leaves the row the assignment function gives. |
| Relational.UpdateOrderIrrelevant | internal/mock/state_store.go:311-324 | For every row and every order of visiting the assignment map the in-place writes give the same row. |
| StateStores.InMemTable.Append | internal/mock/state_store.go:165-176 | Parsed rows are appended in new memory, padded with NULL or cut to the table's width; stored rows keep their objects. |
| StateStores.InMemTable.UpdateWhere | internal/mock/state_store.go:311-324 | In place, exactly the rows the WHERE accepts are assigned and counted; the row objects stay the same. |
| StateStores.InMemTable.DeleteWhere | internal/mock/state_store.go:357-368 | The rows the WHERE rejects remain in order, as the same objects, and the accepted ones are counted. |
| StateStores.InMemTable.Scan | internal/mock/state_store.go:219-283 | The second critical section answers as the pure SELECT; `SELECT *` hands out the stored slices, a projection or count new ones. |
| StateStores.InMemTable.Project | internal/mock/state_store.go:246-257 | Projection copies: new slices holding the chosen columns, NULL where a column is unknown. |
| StateStores.StateStore.OneNameChanged | internal/mock/state_store.go:51-378 | Because rows are not shared, writing one table object changes the relational store at one name only. |
| StateStores.StateStore.Create | internal/mock/state_store.go:75-82 | A new empty table takes the name, replacing whatever had it. |
| StateStores.StateStore.Reset | internal/mock/state_store.go:33-37 | The store becomes empty; no table object is touched. |
| StateStores.StateStore.Store | internal/mock/state_store.go:138-177 | The critical section of INSERT: finds or makes the table and fills it; no other table and no row owner changes. |
| StateStores.StateStore.Insert | internal/mock/state_store.go:121-192 | INSERT answers and changes the store as the pure statement does, RETURNING included. |
| StateStores.StateStore.Modify | internal/mock/state_store.go:105-375 | TRUNCATE, UPDATE and DELETE answer and change the store as the pure statements do; an UPDATE keeps the row objects. |
| StateStores.StateStore.MatchAndExecute | internal/mock/state_store.go:51-378 | Every statement refines the pure store: state, answer, and no row shared between tables; tables taken out are left as they were. |
| StateStores.StateStore.SameTable | internal/mock/state_store.go:194-284 | A table object nobody wrote means the same after it has left the store. |
| StateStores.StateStore.Interrupt | internal/mock/state_store.go:75-103 | A statement never writes a table object that is out of the store, nor brings it back. |
| StateStores.StateStore.Hold | internal/mock/state_store.go:203-219 | After any run of other statements a held table object carries what its name had at one of the instants since it was found. |
| StateStores.StateStore.SelectAmong | internal/mock/state_store.go:194-284 | SELECT with any statements run between its two critical sections answers as an atomic SELECT at one instant in between. |
| StateStores.StateStore.RunBeforeSending | internal/mock/state_store.go:223-331 | A statement run after a SELECT answered and before its rows are sent changes only the slices an UPDATE finds in its table, each as the UPDATE changes that row. |
| StateStores.StateStore.SelectAndSend | internal/mock/state_store.go:223-331 | SELECT * whose rows are sent one by one with an UPDATE before any of them: what is sent is the answer up to there and the updated rows from there on, and it is the answer exactly when the UPDATE leaves every row still to be sent. |
| StateStores.StateStore.RunAllBeforeSending | internal/mock/state_store.go:219-284 | A projection or a count is sent as it was answered whatever runs in between; so is any answer when nobody updates. |
| Relational.RunsStayWellFormed | internal/mock/state_store.go:51-378 | After any run of statements every table has one type per column and every row the table's width. |
| Relational.FilterSplits | internal/mock/state_store.go:357-368 | The rows a DELETE removes and keeps are together the table's rows, none lost or doubled. |
| Relational.FilterAppend | internal/mock/state_store.go:223-228 | Filtering keeps row order: two lists filtered apart and joined are the joined list filtered. |
| Relational.NothingSelectedTwice | internal/mock/state_store.go:357-368 | Among the rows a DELETE kept the same WHERE accepts none. |
| Relational.OneWhereOneCount | internal/mock/state_store.go:265-374 | For one WHERE, COUNT(*), the UPDATE tag and the DELETE tag report one number, and a DELETE shortens the table by it. |
| Relational.DeletedRowsAreGone | internal/mock/state_store.go:333-375 | After a DELETE the same WHERE selects nothing and a second DELETE changes nothing. |
| Relational.SelectsOnlyLook | internal/mock/state_store.go:194-284 | Leaving every SELECT out of a run changes neither the store at its end nor any later answer. |
| Interleavings.WriteRefinesExec | internal/mock/state_store.go:51-378 | The step on table objects shows as the step on the relational store. |
| Interleavings.DetachedStaysFrozen | internal/mock/state_store.go:75-103 | An object no name leads to is never written and never named again. |
| Interleavings.HeldTable | internal/mock/state_store.go:194-284 | Among any threads, the object a pending SELECT holds carries what its name had at some state since the lookup. |
| Interleavings.StillMissing | internal/mock/state_store.go:203-217 | A SELECT that found no table stays without one, whatever the others create meanwhile. |
| Interleavings.SelectLinearizes | internal/mock/state_store.go:194-284 | In every interleaving of many threads a SELECT returns what an atomic SELECT gives at some state between its lookup and its return. |
| Wire.NullStringBack | internal/protocol/reader.go:264-277 | A NUL-terminated string reads back, and the read stops right behind it. |
| Wire.ParametersBack | internal/protocol/reader.go:172-187 | A parameter list reads back with NULL parameters kept apart from empty ones. |
| Wire.FrameBack | internal/protocol/reader.go:79-96 | A written frame is taken off the front of a stream whole and leaves what follows untouched. |
| Wire.FrameCut | internal/server/conn_handler.go:79-100 | A frame cut off anywhere yields nothing. |
| Wire.FrameOpens | internal/protocol/reader.go:79-96 | A length below 4 ends the loop, one whose payload a signed 32-bit number cannot count panics, and otherwise the frame is taken when all of it has come. |
| Reader.ByteReader.ReadNullString | internal/protocol/reader.go:264-277 | The cursor loop finds the first NUL, returns what precedes it and stops behind it, or reports the end. |
| Reader.ByteReader.ReadParameters | internal/protocol/reader.go:172-187 | The loop that fills the parameter slice reads what the format says, errors and all. |
| Reader.ParseParse | internal/protocol/reader.go:108-142 | Accepts a missing parameter count, refuses half a count. |
| Reader.ParseBind | internal/protocol/reader.go:145-207 | Reads names, formats, parameters and optional result formats; a negative count panics. |
| Reader.ParseDescribe | internal/protocol/reader.go:210-224 | Target and name, or the error for an empty payload. |
| Reader.ParseExecute | internal/protocol/reader.go:227-245 | Portal and row limit; a missing limit is zero. |
| Reader.ParseClose | internal/protocol/reader.go:248-262 | Target and name, or the error for an empty payload. |
| Reader.ParseStartupParams | internal/protocol/reader.go:48-70 | The loop fills the map up to the first empty key or unfinished string; a later value for a key wins. |
| Reader.ReadStartupOrSSL | internal/protocol/reader.go:20-75 | Size limits, the SSL code, the version check and the parameter map, in the source's order. |
| Reader.ReadFrame | internal/protocol/reader.go:79-96 | One turn of the loop takes one frame and leaves fewer bytes. |
| Frontend.PayloadBack | internal/protocol/reader.go:99-262 | Every well-formed frontend message reads back from its payload. |
| Frontend.OnlyBindPanics | internal/protocol/reader.go:99-262 | However its payload is written, no Parse, Describe, Execute or Close panics: the readers return an error instead. |
| Frontend.BindPanicsIff | internal/protocol/reader.go:145-207 | Reading a Bind panics exactly when the sign bit of one of its two counts is set, told from the bytes alone. |
| Frontend.UnterminatedQuery | internal/protocol/reader.go:99-105 | A query without its terminator is the whole payload. |
| Frontend.ShortParse | internal/protocol/reader.go:108-142 | A Parse may end behind its query, and a count that is not positive is none; half a count, or fewer types than counted, is an error. |
| Frontend.ShortExecute | internal/protocol/reader.go:227-245 | An Execute without a limit has the limit 0; half a limit is an error. |
| Frontend.ShortResultFormats | internal/protocol/reader.go:189-198 | Result formats that are missing, cut in half or not positive in number are none; fewer than counted is an error. |
| Frontend.ParameterLength | internal/protocol/reader.go:172-187 | A parameter of any negative length is NULL; one longer than what is left is an error. |
| Frontend.ShortDescribe | internal/protocol/reader.go:210-262 | A Describe or Close of nothing, or of a name that does not end, is an error. |
| Frontend.UnfinishedNames | internal/protocol/reader.go:108-245 | A Parse, Bind or Execute whose names do not end is an error. |
| Frontend.CutStream | internal/server/conn_handler.go:79-100 | On a stream cut off anywhere exactly the complete leading frames are processed, and then the loop ends without a panic. |
| Frontend.StreamBack | internal/server/conn_handler.go:79-100 | A list of messages written end to end reads back as that list. |
| Frontend.StartupBack | internal/protocol/reader.go:20-75 | A start-up packet of at most 10000 bytes reads back as the map it lists and leaves the messages behind it untouched. |
| Frontend.StartupOpens | internal/protocol/reader.go:20-47 | From length, code and what follows: an SSL request, a session for version 3.0 when the packet is all there, or which refusal. |
| Frontend.PairsEnd | internal/protocol/reader.go:48-70 | The parameter list ends at the first empty key, whatever follows it, and at a key or value that does not end. |
| Frontend.MapOfListing | internal/protocol/reader.go:48-70 | Any listing of a map, in any order, rebuilds that map. |
| Frontend.SessionInputBack | internal/protocol/reader.go:20-207 | A whole input, start-up map and then messages, reads back as that map and those messages. |
| Backend.PayloadBack | internal/protocol/writer.go:16-270 | Every backend message that fits its format decodes to its fields. |
| Backend.KnownBytes | internal/protocol/writer.go:16-270 | The messages without a body to fill are these bytes on the wire. |
| Backend.KnownLetters | internal/protocol/writer.go:16-270 | Every other message opens with the letter the protocol gives it. |
| Backend.TraceBackIff | internal/protocol/writer.go:90-147 | A client reading the bytes of a reply trace sees exactly that trace if and only if every message fits its format; a NUL in a string or a count too big is always read as something else. |
| Writer.Conn.WriteFrame | internal/protocol/writer.go:108-118 | Header and body extend the output by exactly one message, or nothing once the connection is closed. |
| Writer.WriteRowDescription | internal/protocol/writer.go:90-118 | The body filled field by field is the RowDescription of those fields. |
| Writer.WriteDataRow | internal/protocol/writer.go:121-147 | The body filled value by value is the DataRow of those values, NULL as length -1. |
| Writer.WriteErrorResponse | internal/protocol/writer.go:170-222 | Severity twice, code and message always, with their defaults; detail and hint only when present. |
| Writer.WriteParameterDescription | internal/protocol/writer.go:253-270 | The body is the ParameterDescription of those type numbers. |
| Writer.WriteParameterStatus | internal/protocol/writer.go:26-45 | Name and value, each terminated, in one message. |
| Writer.WriteCommandComplete | internal/protocol/writer.go:150-160 | The tag, terminated, in one message. |
| Handlers.ConnHandler.ExecuteRuleResponse | internal/server/conn_handler.go:433-543 | Drop, error, or description, rows and completion: the loops over columns and rows send what the pure response sends. |
| Handlers.ConnHandler.RowValues | internal/server/conn_handler.go:491-520 | The inner loop fills one row as wide as the columns, NULL for missing and NULL cells. |
| Handlers.ConnHandler.HandleSimpleQuery | internal/server/conn_handler.go:220-254 | Refines the pure step of a simple query: counter, empty query, status, match, response, ReadyForQuery. |
| Handlers.ConnHandler.HandleParse | internal/server/conn_handler.go:256-268 | Refines the pure step of a Parse. |
| Handlers.ConnHandler.HandleBind | internal/server/conn_handler.go:270-296 | Refines the pure step of a Bind, missing statements included. |
| Handlers.ConnHandler.HandleDescribe | internal/server/conn_handler.go:298-378 | Refines the pure step of a Describe of statement, portal or neither. |
| Handlers.ConnHandler.HandleExecute | internal/server/conn_handler.go:380-416 | Refines the pure step of an Execute. |
| Handlers.ConnHandler.HandleClose | internal/server/conn_handler.go:418-431 | Refines the pure step of a Close; an unreadable one is answered like any other. |
| Handlers.ConnHandler.ProcessMessage | internal/server/conn_handler.go:171-218 | Each frame takes the session one pure step. |
| Handlers.ConnHandler.WriteParameterStatuses | internal/protocol/writer.go:62-69 | One message for each standard parameter, in whatever order the map is walked. |
| Handlers.ConnHandler.HandleHandshake | internal/server/conn_handler.go:103-169 | One refusal byte at most; a greeting exactly when the opening ends in a readable start-up packet; SSL twice is refused. |
| Handlers.ConnHandler.Loop | internal/server/conn_handler.go:78-100 | The loop terminates and leaves the session where the run over the arrived frames ends; a length beyond the signed range panics. |
| Handlers.ConnHandler.Handle | internal/server/conn_handler.go:59-101 | The bytes sent are the refusal, if any, and the encoded trace; the trace is the greeting followed by the run over the frames, panics included; the connection ends closed. |
| Replies.PrefixFree | internal/server/conn_handler.go:171-543 | No reply to a request of a kind is a proper prefix of another reply to that kind. |
| Replies.SplitIsUnique | internal/server/conn_handler.go:171-543 | The requests alone determine how a flat trace divides into replies. |
| Replies.ReadiesOfSplit | internal/server/conn_handler.go:171-253 | However the replies turn out, the requests fix the number of ReadyForQuery messages. |
| Conversations.RespondReply | internal/server/conn_handler.go:433-543 | A response is an error, a bare completion or a row set as wide as its description; a drop sends nothing, a panic at most the beginning of a row set. |
| Conversations.RespondCrashesIff | internal/server/conn_handler.go:491-520 | A response panics exactly when it neither drops nor fails and some cell under a column does not render. |
| Conversations.StepReply | internal/server/conn_handler.go:171-218 | One frame gets one reply in the language of its kind, carrying the current status; nothing when the step drops the connection, at most the beginning of a row set when it panics. |
| Conversations.RunReplies | internal/server/conn_handler.go:78-100 | The trace of any run is one whole reply per request in order; on a dropped connection the replies stop short, and a panic may leave the beginning of one more. |
| Conversations.RunLastsIff | internal/server/conn_handler.go:78-100 | A run is neither dropped nor panics exactly when no Bind it serves has a negative count and no answer it sends drops or has a cell that does not render; which answers those are is told from the frames. Then it ends only with a Terminate. |
| Conversations.RepliesAreDetermined | internal/server/conn_handler.go:171-543 | Such a run answers every request it served, in the one way the requests allow, with one ReadyForQuery per Query, Sync or unknown message. |
| Conversations.ClosedStaysSilent | internal/server/conn_handler.go:433-441 | After a drop nothing more is sent, whatever frames are still processed. |
| Histories.StateIsHistory | internal/server/conn_handler.go:256-431 | Statements, portals and status after any run are what the requests say read backwards: last Parse or Close, last successful Bind or Close, last transaction command. |
| Histories.ExecuteUsesLastBind | internal/server/conn_handler.go:380-416 | Execute asks for the query and parameters the last successful Bind of its portal captured, and answers in its formats; with no such Bind, the error or the empty query. |
| Histories.PortalOutlives | internal/server/conn_handler.go:284-296 | Nothing but a Bind or Close of the portal itself changes it: not a Parse of the same statement, not its Close. |
| Histories.BindAnswer | internal/server/conn_handler.go:270-296 | BindComplete exactly when the Bind reads and its statement is unnamed or was parsed and not closed; otherwise which error. |
| Histories.DescribeAgreesWithExecute | internal/server/conn_handler.go:298-543 | Describe, which asks without parameters, finds the rule that Execute finds exactly when that rule asks for none; then the client is sent the same description twice. |
| Histories.StatusesAreHistory | internal/server/conn_handler.go:238-253 | In every run every ReadyForQuery carries the status the last transaction command sent as a simple query settles. |
| Histories.TransactionCommands | internal/server/conn_handler.go:239-246 | BEGIN and START TRANSACTION set T, COMMIT and ROLLBACK set I, in any letter case and layout, with or without a semicolon; a query of any other words leaves the status as it is. |
| Histories.QueriesCounted | internal/server/conn_handler.go:220-223 | The query counter is the number of Query and Execute messages served, readable or not, up to the one that panics if one does. |
| ClientAnswers.AnswerIsTold | internal/server/conn_handler.go:433-543 | What every answer that neither drops nor panics becomes: the rule's error alone; a tag alone; or a description with name, type, size, number and format of each column, one row for each rule row value by value, and a tag. |
| ClientAnswers.LastIsTag | internal/server/conn_handler.go:530-542 | The last message of an answer that succeeds is the rule's own tag when it has one, else SELECT and the number of rows, or OK for a rule without columns, which sends nothing else. |
| ClientAnswers.SimpleQueryIsTold | internal/server/conn_handler.go:220-254 | A simple query asks for exactly its trimmed text without parameters and is told the answer in the text format and then one ReadyForQuery; an empty one, or a lone semicolon, asks nothing. |
| ClientAnswers.ExecuteIsTold | internal/server/conn_handler.go:380-416 | An Execute asks for the query and parameters of its portal's last Bind and is told the answer in the formats of that Bind. |
| ClientAnswers.DescribeIsTold | internal/server/conn_handler.go:298-378 | A Describe of a statement tells the parameter types of its Parse; then, like that of a portal, it asks for the query without parameters and tells the columns, or that there are none. |
| ClientAnswers.MissingNamesRead | internal/server/conn_handler.go:280-404 | What a client reads that names a statement or cursor which is not there: severity, code and text. |
| ResultRows.FormatsAgree | internal/server/conn_handler.go:478-483 | With proper format codes the announced format is that of section 55.7 (Bind) of the PostgreSQL 16 documentation: none, one for all, one each. |
| ResultRows.RowsMatchDescription | internal/server/conn_handler.go:470-528 | For ragged rows and up to 32767 columns: numbered fields, one row per rule row as wide as the description, each value in the announced type and format. |
| ResultRows.AnnouncedSizeIff | internal/protocol/messages.go:76-91 | The size announced for a boolean column is the number of bytes its binary values have; for an integer column it is exactly when the text is a number in range or happens to be as long. |
| ResultRows.ReportReads | internal/protocol/writer.go:170-222 | A client finds both severities, code and message in every error, with their defaults, and detail and hint exactly when given. |
| ResultRows.FailingRuleTellsClient | internal/server/conn_handler.go:452-467 | A failing rule sends one error and nothing else, with the rule's own code, message, severity, detail and hint. |
| ResultRows.ErrorExactlyWhen | internal/server/conn_handler.go:256-416 | A Parse, Bind, Describe or Execute gets an error of the protocol exactly when it does not read (42601, for Bind 42P02) or names a statement (26000) or cursor (34000) that was never made or was closed; otherwise no error, or for Execute the rules are asked. |
| ResultRows.ParamTagRenders | internal/mock/template.go:71-84 | A cell that is one parameter tag renders to the parameter and is not looked at again. |
| ResultRows.BoundParameterComesBack | internal/server/conn_handler.go:499-518 | Such a cell sends the bound parameter back byte for byte in the text format. |
| StoredValues.AlwaysKeptIff | internal/mock/template.go:50-129 | A stored text renders to itself, whatever the parameters, the counter and the libraries, exactly when it has no tag with an operation in it. |
| StoredValues.SequenceComesBackCounted | internal/mock/template.go:104-105 | A stored `{{seq}}` or `{{sequence}}`, in any letter case, comes back as the next number. |
| StoredValues.ParameterComesBack | internal/mock/template.go:71-84 | A parameter tag, its number plain or behind a dollar sign, comes back as the parameter, or as NULL when there is none or it is null; without a number it comes back empty. |
| StoredValues.LibraryTagComesBack | internal/mock/template.go:86-125 | uuid, now, today and email tags, in any letter case, come back as what the library delivers next. |
| StoredValues.LibraryTagsTakeTurns | internal/mock/template.go:29-136 | Two tags of the value library in one cell show two values, drawn one after the other. |
| StoredValues.OtherTagComesBack | internal/mock/template.go:127-129 | A tag that begins with any other word comes back as it is. |
| StoredValues.RandomComesBackInRange | internal/mock/template.go:107-119 | A random tag whose range fits comes back as the number drawn, counted from the lower bound and never above the upper; with its bounds in the wrong order it is 0. |
| StoredValues.RandomPanicsIff | internal/mock/template.go:107-119 | A stored random tag panics when it is selected exactly when its range is too wide, as that of `{{random 0 9223372036854775807}}` is. |
| StoredValues.StoredRowsShownIff | internal/server/conn_handler.go:490-528 | SELECT * sends the rows of a table value by value as they are stored, and completes, exactly when no value is the text NULL and each renders to itself. |
| StoredValues.InsertedRowsShownIff | internal/server/conn_handler.go:433-543 | Rows inserted from their text and then selected reach the client as they were meant exactly when RETURNING between blanks is nowhere in the text, no value is the text NULL and each renders to itself. |
| EndToEnd.GreetingIsReadyOnce | internal/server/conn_handler.go:153-169 | The greeting ends in its only ReadyForQuery, idle. |
| EndToEnd.GreetingSays | internal/server/conn_handler.go:153-176 | A greeting opens with AuthenticationOk, closes with the key data and ReadyForQuery, and names server version, encoding and standard strings with their values. |
| EndToEnd.EncryptionIsRefusedOnce | internal/server/conn_handler.go:103-148 | A client that asks for encryption is refused once and can go on in the clear; one that asks again gets no session. |
| Legibility.LegibleSessionFits | internal/protocol/writer.go:16-270 | If no rule has a NUL in a name, tag or error, more than 65535 columns, a type beyond 32 bits or a cell too long to count, every message of every session fits its format, as long as its length can be counted. |
| EndToEnd.ClientSeesReplies | internal/server/conn_handler.go:59-543 | From start-up map and message list to the client's decoder, for answers that neither drop nor panic: greeting, one reply per message in the only possible split, one ReadyForQuery per turn plus one, decoded as sent if and only if all messages fit, as they do when the rules are so. |
| RuleEngine.Registry.AddRule | internal/mock/engine.go:61-65 | Appends in place or in a bigger array; no element an older header covers changes. |
| RuleEngine.Registry.PrependRule | internal/mock/engine.go:68-72 | A new array with the rule in front; the old array is untouched. |
| RuleEngine.Registry.DeleteRule | internal/mock/engine.go:75-85 | Removes the first rule of that id by shifting the shared array; says exactly what an older header of the old length reads afterwards. |
| RuleEngine.Registry.GetRules | internal/mock/engine.go:95-101 | A copy in memory of its own with the same rules. |
| RuleEngine.SameRuleIff | internal/mock/engine.go:155-166 | A call without parameters finds the same first rule as the call with them exactly when that rule asks for none, and otherwise a later one. |
| RuleEngine.Registry.RunOps | internal/mock/engine.go:60-102 | Any run of operations, with any growth of the arrays, denotes what the list operations give; what a header taken before reads is determined by the operations, never nil, and unchanged when no deletion intervenes. |
| RuleEngine.Registry.Search | internal/mock/engine.go:155-166 | With other clients changing the registry between any two looks the search answers the first match of what its looks come upon, which is the list as it was unless somebody deletes; what it returns always matches. |
| RuleEngine.DeleteKeepsHeaderIff | internal/mock/engine.go:78-81 | A header taken before a deletion keeps its meaning exactly when the rule was absent or only copies of it followed. |
| RuleEngine.DeletionSkips | internal/mock/engine.go:75-166 | With one deletion before a given look the search answers as if one rule, the deleted one or that of the look, were not there; that is the old first match exactly when that rule was not it or a copy of it comes next. |
| RuleEngine.SearchMissesMatch | internal/mock/engine.go:75-166 | Whenever one rule alone accepts a call, is next to be looked at and is not the last, and a rule before it is deleted, the search finds nothing, although that rule is in the registry from beginning to end. |
| RuleEngine.ThreeRules | internal/mock/engine.go:75-166 | Three rules and one deletion with which that happens. |
| Engines.Engine.LogQuery | internal/mock/engine.go:104-129 | One entry with the parameters as text, NULL for nil. |
| Engines.LoggedCallMatchesIff | internal/mock/matcher.go:34-56 | A rule whose parameters are those of a log entry accepts the same call exactly when no parameter was the text NULL. |
| Engines.AcceptedCallLogs | internal/mock/matcher.go:34-56 | A call accepted by a rule with parameters has as many, and the log shows them as the rule spells them, wildcards aside. |
| Engines.Engine.EnableStateful | internal/mock/engine.go:41-51 | Switching the store off and on again empties it. |
| Engines.Engine.Otherwise | internal/mock/engine.go:168-201 | Without a custom rule: one log entry on every path; system before store before catalog before fallback; a statement runs exactly when the system stage passes and the store is enabled, and does and answers as the pure store. |
| Engines.Engine.Match | internal/mock/engine.go:155-202 | The first matching rule answers, takes the only hit and leaves the store untouched; otherwise the later stages answer as said above and the store runs the statement, if there is one; one log entry on every path. |
| Engines.Engine.Serve | internal/mock/engine.go:60-202 | Conservation over any run of matches and registry changes, with any growth of the arrays: the log grows by the matches, the sum of hits by exactly those for which a custom rule came first, and the store has run exactly the statements that neither a rule nor the system stage took. |
| MatchInterleavings.HitsAreLogged | internal/mock/engine.go:104-202 | With lookup, looks, hit and log entry of many clients interleaved with registry changes, the hits of each rule are its log entries and those still due; when nobody is at work they are equal, and every match begun has its entry. |
| MatchInterleavings.CalmMatchIsAtomic | internal/mock/engine.go:155-166 | In every such interleaving a logged rule accepts its call, and a match during whose search nothing was deleted answers as if it were made in one step, on the registry as it was at an instant of the run, when the client came. |
| FailAfter.AtMostN | internal/server/conn_handler.go:452-467 | In every interleaving of clients at most n executions succeed and once one has failed every later check fails. |
| FailAfter.FirstNSucceed | internal/mock/rules.go:43-51 | One at a time with no Describe, exactly the first n executions succeed. |
| FailAfter.CheckOutcome | internal/mock/engine.go:160-165 | An execution succeeds exactly when no more than n matches, Describes included, were counted before its check. |
| Matcher.NormalForm | internal/mock/matcher.go:16-21 | Normalised text has nothing to trim and only single inner spaces. |
| Matcher.IdempotentIff | internal/mock/matcher.go:16-21 | Normalising twice is normalising once exactly when the text ends in at most one semicolon, white space aside. |
| Matcher.TwoSemicolons | internal/mock/matcher.go:16-21 | `a;;` is an input on which it is not. |
| Matcher.SpellingNormalizes | internal/mock/matcher.go:16-21 | Words laid out with any white space and an optional semicolon normalise to the words joined by single spaces. |
| Matcher.LayoutDoesNotMatter | internal/mock/matcher.go:32-91 | Two layouts of the same words are accepted by the same rules that have no pattern. |
| Matcher.CaseDoesNotMatter | internal/mock/matcher.go:68-91 | Queries that differ only in letter case are accepted by the same rules that have no pattern. |
| Matcher.WildcardIff | internal/mock/matcher.go:68-88 | A rule query ending in `...` or `%` accepts exactly the queries that begin, normalised and up to letter case, with what precedes it. |
| Matcher.ExactIffSameWords | internal/mock/matcher.go:16-74 | A rule without wildcard accepts, of all queries in all layouts, exactly those that have its words up to letter case. |
| Matcher.ParametersIff | internal/mock/matcher.go:34-91 | Of the calls with its own words a rule accepts exactly those with as many parameters as it has, each left open by `*` or `ANY`, or null where it says NULL, or having just its bytes; one without parameters accepts them all. |
| Matcher.OnlyWildcards | internal/mock/matcher.go:34-41 | A rule of n wildcards accepts exactly the calls with n parameters. |
| Matcher.PatternIff | internal/mock/matcher.go:58-66 | A pattern is asked about the query as sent, and accepts it or leaves it to the rule's text; a rule without one asks none. |
| Template.ScanKeepsSource | internal/mock/template.go:50-55 | Tags and the text between them are together the template, byte for byte. |
| Template.NoOpeningNoTag | internal/mock/template.go:51-53 | Text without two opening braces in a row renders to itself and uses up nothing. |
| Template.UnknownTagsAreKept | internal/mock/template.go:50-129 | A template whose tags are all unknown, or that has none, renders to itself byte for byte and uses nothing up. |
| Template.ParamIsNotRescanned | internal/mock/template.go:55-84 | Whatever precedes a parameter tag renders as on its own, the parameter comes out verbatim whatever braces it holds, and rendering goes on behind the tag. |
| Template.SequenceTagsCount | internal/mock/template.go:104-105 | In one uninterrupted render the i-th sequence tag gets the counter plus i. |
| Template.SequenceTextsDiffer | internal/mock/template.go:28-105 | In every interleaving of renders two sequence tags with no reset between put different texts into their cells, except exactly when the numbers drawn from one to the other are a multiple of 2^64. |
| Template.AloneIsRender | internal/mock/template.go:50-129 | A render nobody interrupts writes, piece by piece, what one pass over its template gives. |
| Template.RandomInRange | internal/mock/template.go:107-119 | A random tag delivers a number between its bounds exactly when max - min + 1 fits a signed 64-bit integer; otherwise it panics. |
| Template.Sequencer.RenderTemplate | internal/mock/template.go:50-129 | One left-to-right pass equal to rendering each piece on its own with the shared counter. |
| Binary.EncodeBinaryValue | internal/protocol/binary.go:17-124 | The buffers filled byte by byte hold the encoding of the value for its type. |
| Binary.IntegerText | internal/protocol/binary.go:26-51 | Text of an integer in range becomes its two's complement; anything else falls back to the raw bytes. |
| Text.PaddedValue | internal/protocol/binary.go:26-51 | A plus sign and leading zeros do not change the number a text is read as. |
| Binary.IntegerBack | internal/protocol/binary.go:26-51 | Decimal text of any in-range int2, int4 or int8 becomes 2, 4 or 8 bytes that decode to the same number; out of range stays text. |
| Binary.TruthBack | internal/protocol/binary.go:19-24 | True, t, 1 and yes in any letter case and with any white space around become the byte 1, every other text the byte 0. |
| Binary.BytesIff | internal/protocol/binary.go:73-81 | A text beginning with `\x` becomes exactly the bytes whose hexadecimal form, in any letter case, follows; one of another form stays as it is. |
| Binary.OtherTextStays | internal/protocol/binary.go:17-124 | Types that are no number, boolean, bytes, date or timestamp, and bytes without the prefix, keep their text. |
| Binary.OnlyDatesEncode | internal/protocol/binary.go:83-92 | Only the printed form of a calendar date is encoded as a date; every other text stays. |
| Binary.DateEncodes | internal/protocol/binary.go:83-92 | A calendar date encodes its exact day difference from 2000-01-01 exactly when that is within 106751 days. |
| Calendar.DayNumberCounts | internal/protocol/binary.go:15-15 | Day numbers count calendar days: the epoch is 0 and each next day is one more. |
| Calendar.DaysThroughDuration | internal/protocol/binary.go:87-87 | A difference that goes through a saturating 64-bit nanosecond duration survives exactly up to 106751 days and is cut to that beyond. |
| Lifecycle.WaitGroupCounts | internal/server/server.go:60-115 | In every interleaving the wait group equals the live accept loop plus the handlers that have not ended, never negative, and the active counter the handlers at work. |
| Lifecycle.NothingAfterStop | internal/server/server.go:100-115 | When Stop returns there is no accept loop, no handler, no registered connection and no active one. |
| Lifecycle.SweepClosesAllButOne | internal/server/server.go:107-111 | Every connection registered before the sweep is closed by it and at most one is registered after. |
| Lifecycle.LateConnectionStaysOpen | internal/server/server.go:78-86 | A run in which a connection is accepted after Stop began, registered after the sweep, stays open and keeps Stop waiting. |
| Lifecycle.StopReturnsIff | internal/server/server.go:60-115 | After the sweep Stop can return without any client doing anything exactly when the accept loop is not about to register one more connection and no late connection is open. |
| Lifecycle.StopReturns | internal/server/server.go:60-115 | And then it does, in every order of steps: a run without clients has at most a known number of steps, can always be finished, and has returned exactly when none is left. |
| Broker.EventBroker.Unsubscribe | internal/admin/events.go:33-40 | A channel is closed once, when it leaves the map; a second call does nothing. |
| Broker.EventBroker.Broadcast | internal/admin/events.go:43-60 | Every subscriber is offered the message once, in any map order, and misses it exactly when its queue is full. |
| Broker.DeliveryIsSound | internal/admin/events.go:24-96 | In every interleaving no closed channel is sent to or closed again, queues hold at most 64, and received plus queued is the in-order selection of the broadcasts made while subscribed that were not missed. |
| Broker.LeavingIsFinal | internal/admin/events.go:33-60 | Once a subscriber has left, its channel stays closed and gets nothing more; what was queued can still be received in order. |
| Broker.PromptReaderMissesNothing | internal/admin/events.go:52-59 | In every interleaving a subscriber never 64 behind gets exactly the broadcasts made while it was there, but for one on its way to it. |

## Left out

- Sockets, TLS and certificates, buffer pooling, logging and sleeping: a connection is a byte sequence in, a trace out and
  a closed flag; with TLS configured the answer to an SSL request is not modelled.
- After a drop, how many buffered frames are still processed is up to the buffer: the input stands for the bytes that
  the reads deliver.
- The regular-expression engine, rule patterns and the statement patterns of the store: a pattern is any predicate on the
  query, and statements reach the store as a syntax tree. The tuple and tag patterns are scanners.
- Letter case and white space outside ASCII.
- Binary floats and timestamps, `%q` quoting, uuid, time and e-mail tags: library results, taken as parameters.
- The built-in system replies and the catalog replies: tables, taken as opaque stages of a match.
- Between the matches of one session other clients may change anything: each match gets an arbitrary rule, hit count and
  cell renderings, so no theorem about a session depends on what the engine holds.
- Engines.Engine.Serve: matches and registry changes run one after another there; the interleaved ones are
  `RuleEngine.Registry.Search`, `MatchInterleavings` and, for hits that a check looks at, `FailAfter`. There the later
  stages of a match are one answer whose content is left open.
- RuleEngine.RuleObject.IncrementHits: the 64-bit counter is unbounded, so its wrap after 2^63 matches is not modelled.
- Reader.ParseBind: a negative count is a run-time panic and ends the run as crashed; in the server it ends every other
  connection too.
- Backend.TraceBackIff: messages of 2^31 bytes and more, whose length does not fit its field.
- Lifecycle: the server's map, wait group and counters are fields of a state that steps change, not of an object; a second
  Stop, and Stop before Start, are not modelled.
- Broker.EventBroker.Broadcast: marshalling the payload to JSON; a payload that does not marshal is never broadcast.
- HTTP administration, assertions, dashboard, recorder, configuration files, SDKs and example clients other than the
  DataRow decoder.
