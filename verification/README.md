# Verified model of the Turso server's hard parts

The repository is a small database service around the Turso engine: an HTTP front end, a sync hub
that ships the write-ahead log (WAL) to clients, webhooks for writes, a rate limiter and query
analytics.  This project models the parts whose correctness is not obvious from one function body
and proves what they promise, for every input, every run and every engine behaviour.

`dafny verify dfyconfig.toml` checks everything.

## What is modelled

**Pulling the log** (`Wal`, `LengthDelimited`, `PullUpdates`).  The hub scans the WAL from the newest
frame to the oldest with a set of pages already seen, reverses what it took and writes a
length-delimited body.  The reference is much simpler: replay the frames in order, or, with commits
and truncation, replay whole transactions.  `Wal` relates these to the reader algorithm of SQLite's
"Database File Format", section 4.5.  `PullUpdates` proves that the scan refines replay, that pulls
compose, and, through the bytes of the body, that any chain of pulls from a growing log leaves a
client, which knows only what it received, with exactly the database of the last commit.

**Conditional batches** (`Batch`).  The step interpreter with its recursive conditions, over any
transactional engine that may also refuse BEGIN or COMMIT and may abort a transaction when a statement
fails.  The result lists of any batch explain its run, and two usual transaction batches, one chaining
its writes and one that commits if all of them succeeded, are all or nothing.

**SQL text** (`SqlText`, `Pieces`, `SplitSql`, `Comments`, `TopLevel`, `ValuesClause`, `RowCells`, `MixedRows`,
`SetClause`, `SetBrackets`, `SetScan`, `SetWhere`).
The seven-mode statement splitter, the leading-comment stripper, the quote- and bracket-aware
searches and the VALUES and SET readers.  Splitting loses nothing and cuts exactly at the semicolons
the scanner meets in Normal mode; what a split returns can be written out and split again; written
VALUES rows and SET assignments read back as they were; and the two comment scanners, written
separately, agree.  The VALUES reader and the comma splitter, which count brackets differently, are
shown to agree exactly where their counts do, and the WHERE after a SET clause is found whatever the
values contain.

**Framed write batches** (`FrameAndApply`).  Every write is snapshotted, tried with RETURNING and run
plainly when that fails.  The framed batch stands where the plain one does, after every prefix,
exactly when each RETURNING attempt that is reached is harmless; a batch with a BEGIN and COMMIT of its
own is not wrapped and ends the same way.

**Services** (`Webhooks`, `DeliveryRuns`, `RateLimit`, `Analytics`).  The delivery queue on disk as a
state machine over dispatches, bursts, passes, purges, failing writes and crashes, in which every
delivery is followed from its dispatch; the fixed-window limiter; the per-minute buckets.  They carry
invariants and bounds over whole runs.

Code that updates objects or runs loops is modelled by classes and methods with loops, each proved
equal to a specification function; the properties are lemmas about those functions.  Text is a
sequence of characters, page contents and databases are arbitrary values, and clocks, the network,
the disk and the engine are parameters.

## What differs from the documentation

The model follows the code in each case.

- Removing one webhook purges the wrong deliveries: `src/webhooks.rs:409` keeps those of the removed
  webhook and deletes those of its neighbours, the reverse of the comment at lines 397-398.
  `Webhooks.PurgeKeepsExact` says when the two agree, `DeliveryRuns.RemovalExact` which files go, and
  `DeliveryRuns.NoSilentLoss` has to list "another webhook of the database was removed" among the
  reasons for a loss.
- The test for transaction control (`src/db.rs:662-667`) does not look behind a leading comment, which
  the splitter keeps.  `FrameAndApply.ControlTestExact` says exactly when it is right;
  `FrameAndApply.CommitEscapes` and `FrameAndApply.RollbackEscapes` say what becomes of a batch when it
  is not: reported as failed, with the writes before a COMMIT kept, or those before a ROLLBACK lost,
  and the writes after either kept.
- The `max_attempts` of a retry policy is described as the number of tries in a burst
  (`src/webhooks.rs:25-29`); with too few delays listed the burst is shorter
  (`Webhooks.BurstIsMaxAttempts`).
- `WEBHOOK_PENDING_MAX_ATTEMPTS` is described as a number of retry ticks (`src/webhooks.rs:622`), but
  the counter starts at the length of the first burst.  `Webhooks.QueueDrains` gives the real number
  of passes, from both sides; `Webhooks.DocumentedPasses` says when it is the documented one.
- The size in a pull header is that of the newest frame, not of the requested revision
  (`src/bin/sync_hub.rs:556-562`).  `PullUpdates.HeaderSizeExact` says exactly when cutting to it is
  right.
- A limit of 0 still admits the first call on a stale window (`RateLimit.ZeroLimitAdmits`), and what
  `peek` reports is exact only for a limit that can be in force (`RateLimit.PeekExact`).
- Framing is said not to mutate when it fails (`src/db.rs:700-704`).  A RETURNING variant that takes
  effect and then fails while its rows are read is followed by the plain statement
  (`FrameAndApply.FailedReturningRunsTwice`), and one that ends the transaction loses the writes before
  it (`FrameAndApply.AbortEscapes`); `FrameAndApply.AgreesExact` says exactly when framing makes no
  difference.  A refused COMMIT leaves the transaction open
  (`FrameAndApply.FramingIsInvisible`).
- A statement that ends in a line comment swallows the RETURNING clause appended to it
  (`SplitSql.CommentSwallowsReturning`), so it takes effect but counts and frames no rows
  (`FrameAndApply.SwallowedCountsNothing`).
- A batch that commits if all its writes succeeded is not all or nothing when its writes ask only
  whether BEGIN did and a failure ends the transaction (`Batch.UnguardedExact`); asking also for the
  open transaction makes it so (`Batch.GroupIsAtomic`).
- A write that fails inside a transaction the caller opened in the batch leaves that transaction open,
  since only the batch's own wrapper is rolled back (`FrameAndApply.OwnTransaction`).
- An expression that starts and ends with a quote, such as `'a' || 'b'`, is taken for one string
  (`ValuesClause.ExpressionExact`).
- A row written as `()` reads back as one empty value (`ValuesClause.RowsRoundTripExact`), and the
  VALUES tokenizer, said to handle bracketed identifiers (`src/webhooks.rs:1127-1129`), cuts them at
  commas (`RowCells.BracketsCutRows`; `RowCells.CellsAreParts` says exactly when it matters).
- A bracketed column of a SET clause reads back exactly when the scanner passes the bracketed name from
  the top level to the top level without meeting ',' or '=' there (`SetBrackets.BracketedExact`):
  closed quotes do no harm (`SetBrackets.ClosedQuotesReadBack`), an open quote can give the column a
  wrong value (`SetBrackets.WrongValueIsRead`), and a comma the nesting exposes loses the assignment
  (`SetBrackets.CommaIsCut`).
- A name written with its closing mark doubled is passed over whole by the statement splitter, but the
  identifier reader (`src/webhooks.rs:811-829`) stops at the first mark (`SetScan.MarkedNameExact`).

## Model

| member | source | states |
|---|---|---|
| `Wal.ReplayIsLookup` | src/bin/sync_hub.rs:519-548 | Replaying frames in order gives each page the contents of its newest frame in the range, and leaves pages without a frame alone. |
| `Wal.TransactionsAreReads` | src/bin/sync_hub.rs:519-562 | Transaction replay with a truncation at every commit equals plain replay cut once at the end, and equals the reader algorithm on every page, shrink-then-grow histories included, when each growing commit writes the pages it adds. |
| `Wal.ReplayOfPrefix` | src/bin/sync_hub.rs:519-523 | Appending to the log changes no earlier replay: revisions are stable while the log grows. |
| `LengthDelimited.Output.EncodeLengthDelimited` | src/bin/sync_hub.rs:684-692 | Appends the base-128 varint of the length and the data, and changes nothing before them. |
| `LengthDelimited.VarintRoundTrip` | src/bin/sync_hub.rs:684-690 | A little-endian base-128 decoder reads back every length and stops exactly at its end, whatever follows. |
| `LengthDelimited.BodyRoundTrip` | src/bin/sync_hub.rs:575-587 | A body determines its messages: decoding the concatenation returns the same messages, whatever their number and lengths. |
| `LengthDelimited.TruncationIsDetected` | src/bin/sync_hub.rs:684-692 | Any prefix of a body decodes to an error or to a prefix of the messages, never to other contents. |
| `PullUpdates.SentMembers` | src/bin/sync_hub.rs:519-548 | A frame is sent if and only if it is in the range, its page is selected and it is that page's newest frame in the range. |
| `PullUpdates.SentFramesMeaning` | src/bin/sync_hub.rs:519-554 | Frames are sent in ascending order, no page twice, and exactly those `SentMembers` describes. |
| `PullUpdates.ScanFrames` | src/bin/sync_hub.rs:505-554 | The newest-to-oldest loop with the seen-set, followed by the reversal, produces the pages of the sent frames in order; a revision past the log fails on its first missing frame. |
| `PullUpdates.HandlePullUpdates` | src/bin/sync_hub.rs:461-599 | The whole request: the zstd and selector errors, the defaults for missing or unparsable revisions, the missing frame, and otherwise the header with the newest frame's size and the sent pages, each length-delimited. |
| `PullUpdates.DecodeEncodedPages` | src/bin/sync_hub.rs:580-587 | Decoding the page messages returns the pages, for any faithful message encoding. |
| `PullUpdates.ReceiveIsApply` | src/bin/sync_hub.rs:575-587 | A receiver that decodes the body and writes the pages ends with the header and the pages written, as if there had been no bytes in between. |
| `PullUpdates.UpdateIsLookup` | src/bin/sync_hub.rs:519-554 | Writing the sent pages over any client changes exactly the selected pages with a frame in the range, each to its newest contents. |
| `PullUpdates.PullReachesRevision` | src/bin/sync_hub.rs:482-554 | A client at the revision it names, or at any later one up to the target, ends at the target on every selected page and is unchanged elsewhere. |
| `PullUpdates.RefusalExact` | src/bin/sync_hub.rs:461-554 | A request fails if and only if it asks for zstd, its selector is malformed, or, with a client revision below it, the revision asked for is past the log; the first of these in this order is the error, and the missing frame is the revision itself. |
| `PullUpdates.RequestReachesRevision` | src/bin/sync_hub.rs:482-599 | For every request that is answered, with a number, nothing or no number in either revision and with any selector, through the bytes of the body: the header names the revision asked for, by default the newest frame, and carries the newest frame's size; a client at the revision named, by default 0, or at a later one, reaches it on the selected pages and is unchanged elsewhere. |
| `PullUpdates.NothingNewer` | src/bin/sync_hub.rs:519-523 | A client that names the revision asked for, or a later one, is sent no page, and the header still names the revision asked for. |
| `PullUpdates.PullsCompose` | src/bin/sync_hub.rs:482-548 | Pulling `c..m` and then `m..s` does to any client what pulling `c..s` does. |
| `PullUpdates.GrowthSinceCommit` | src/bin/sync_hub.rs:556-562 | A page within the size at a later commit was within the size at the earlier one or has a frame in between, however the database shrank and grew. |
| `PullUpdates.UpdatedAtCommit` | src/bin/sync_hub.rs:519-554 | From one commit to another, every page within the new size has the contents of the database at the new commit. |
| `PullUpdates.HeaderSizeExact` | src/bin/sync_hub.rs:556-562 | Between commits, cutting the updated client to the header's size gives the database at the target if and only if that size is not below the target's and no page the client holds or is sent lies between the two. |
| `PullUpdates.HeaderSizeCanBeWrong` | src/bin/sync_hub.rs:556-562 | A log in which every growing commit writes its pages, and whose pull of an earlier commit is cut too short. |
| `PullUpdates.PullNewest` | src/bin/sync_hub.rs:461-599 | One pull of everything newer, through the response bytes, takes a client that keeps its pages and the revision it last received from one commit to the newest one exactly: the pages, cut to the header's size, and the revision in the header. |
| `PullUpdates.ChainOfPulls` | src/bin/sync_hub.rs:461-599 | Any chain of pulls from a growing log, each request naming the revision the last answer carried, ends with exactly the database of transaction replay at the last commit, and its number. |
| `Batch.OnlyCommitsChange` | src/bin/sync_hub.rs:401-459 | One step changes the database only if it succeeds, and then by the COMMIT of the open transaction or by a write outside one. |
| `Batch.Connection.ExecuteBatch` | src/bin/sync_hub.rs:328-370 | The loop with its two lists leaves the lists and the connection of the step-by-step specification. |
| `Batch.ListsOnlyGrow` | src/bin/sync_hub.rs:333-359 | After every step the lists of the run so far are prefixes of the final ones, and no slot is both a result and an error. |
| `Batch.ChangeHasStep` | src/bin/sync_hub.rs:333-370 | If a batch has changed the database, one of its steps succeeded that is a COMMIT or a write outside a transaction. |
| `Batch.ConditionOnPrefix` | src/bin/sync_hub.rs:372-399 | A condition that asks only about earlier steps, and not about the connection, has the same value over any longer lists. |
| `Batch.FinalListsExplainRun` | src/bin/sync_hub.rs:333-399 | For a step whose condition, if any, asks only about earlier steps: it has a result or an error if and only if the condition holds over the final lists. Ok and Error of the current or a later step are false when read. |
| `Batch.ListConditions` | src/bin/sync_hub.rs:389-396 | From the slots of the response alone: a step under And of Ok and Error conditions on earlier steps ran if and only if every slot named is filled so, under Or if and only if some is. |
| `Batch.PlainConditions` | src/bin/sync_hub.rs:336-399 | Without a condition, or under Always, a step runs; under one Ok or Error condition, or its negation, as the slot says; under IsAutocommit, or its negation, as no transaction, or one, is open there. |
| `Batch.SlotContents` | src/bin/sync_hub.rs:344-359 | A result holds the rows read on the connection as that step left it; an error holds the engine's message for that step. |
| `Batch.ChainRuns` | src/bin/sync_hub.rs:333-384 | In a chain of steps each conditioned on the one before, step `i` ran and succeeded, ran and failed, or was skipped, as the writes applied one by one say. |
| `Batch.TransactionBatchIsAtomic` | src/bin/sync_hub.rs:328-399 | BEGIN, chained writes, COMMIT, ROLLBACK: on any engine no transaction stays open, the database has all writes if COMMIT succeeded and is unchanged otherwise, and the steps that ran are the longest succeeding run plus at most one failure. |
| `Batch.AutocommitRuns` | src/bin/sync_hub.rs:328-370 | Unconditioned writes outside a transaction stand alone, on any engine: each that succeeds stays and has a result, each that fails changes nothing and has an error, and the others run all the same. |
| `Batch.GroupIsAtomic` | src/bin/sync_hub.rs:328-399 | BEGIN; writes that all ask only whether BEGIN succeeded, and, when guarded, whether its transaction is open; COMMIT if all of them succeeded; ROLLBACK if a transaction is open: all writes or none and nothing left open, guarded on every engine, unguarded on every engine in which no failure before the last write's ends the transaction. |
| `Batch.UnguardedExact` | src/bin/sync_hub.rs:328-399 | Without the guard that batch of `n` writes is all or nothing, on every engine with given aborting failures, if and only if no failure but the last write's aborts: otherwise later writes run outside the transaction and stay. |
| `Batch.OpenTransactionIsLost` | src/bin/sync_hub.rs:328-399 | The same batch while a transaction is open on the shared connection: BEGIN fails, nothing else runs, and the closing ROLLBACK ends that transaction and loses its writes. |
| `SplitSql.SplitStatements` | src/db.rs:61-184 | The one-pass loop with mode, current text and lookahead returns the trimmed non-empty segments in order. |
| `SplitSql.RejoinIsInput` | src/db.rs:73-183 | The raw segments joined with ';' are the input: splitting loses nothing but separators and trimmed whitespace. |
| `SplitSql.CutsAreNormalSemicolons` | src/db.rs:97-175 | A position is a cut if and only if a ';' stands there and the scanner comes to it in Normal mode. |
| `SplitSql.SplitIsWellSplit` | src/db.rs:73-183 | Every statement is tight, non-empty and without a separator of its own, and every one but the last ends where a newline brings the scanner back to Normal. |
| `SplitSql.ResplitStatement` | src/db.rs:61-184 | Such a statement, split again, is itself. |
| `SplitSql.ScriptRoundTrip` | src/db.rs:61-184 | Statements written out with a newline and ';' between them split back into the same list. |
| `SplitSql.SplitRoundTrip` | src/db.rs:61-184 | For every text, writing out its split and splitting again changes nothing, and each statement re-splits to just itself. |
| `SplitSql.BareSemicolonIsNotEnough` | src/db.rs:162-183 | The newline is needed: a concrete split whose statements joined with a bare ';' come back as one. |
| `SplitSql.QuotedRunPasses` | src/db.rs:109-161 | Text quoted in any of the four ways, its closing marks doubled, is passed over whatever it contains. |
| `SplitSql.ReturningIsRead` | src/db.rs:755-757 | The RETURNING clause appended to a statement is read in the mode the statement ends in, so as a clause exactly when that is Normal; and nothing is cut. |
| `SplitSql.CommentSwallowsReturning` | src/db.rs:755-757 | It need not be Normal: a statement the splitter returns can end in an open line comment, which swallows the clause. |
| `Comments.StripComments` | src/webhooks.rs:765-782 | The loop equals the recursive stripper. |
| `Comments.Decompose` | src/webhooks.rs:765-782 | Every text is whitespace and terminated comments, possibly an open comment, and then exactly what stripping returns. |
| `Comments.EmptyIffBlank` | src/webhooks.rs:765-782 | Stripping leaves nothing if and only if the text is only whitespace and comments, the last one terminated or not. |
| `Comments.StripTwice` | src/webhooks.rs:765-782 | Stripping is idempotent. |
| `Comments.ScannersAgree` | src/webhooks.rs:765-782 | When something is left, the splitter of src/db.rs runs over the removed prefix from Normal to Normal without cutting, so both texts split alike but for that prefix. |
| `TopLevel.SplitTopLevel` | src/webhooks.rs:1071-1099 | The loop with depth and quote flags equals the recursive split. |
| `TopLevel.SplitTopCuts` | src/webhooks.rs:1071-1099 | A position is a cut if and only if the separator stands there at depth 0 outside quotes. |
| `TopLevel.SplitTopRejoins` | src/webhooks.rs:1071-1099 | The parts joined with the separator are the input. |
| `TopLevel.FindTopLevel` | src/webhooks.rs:1048-1068 | The loop equals the recursive search. |
| `TopLevel.FindTopIsLeast` | src/webhooks.rs:1048-1068 | The search returns the least position of the target at depth 0 outside quotes, and nothing only when there is none. |
| `TopLevel.FindTopLevelWord` | src/webhooks.rs:988-1021 | Returns the least top-level occurrence of the keyword, letter case ignored and bounded on both sides, and nothing only when there is none. |
| `ValuesClause.ScanRow` | src/webhooks.rs:1150-1195 | The inner loop reads one row from its '(' to its ')' or to the end of the text. |
| `ValuesClause.ParseValueRows` | src/webhooks.rs:1130-1203 | The tokenizer loop equals the recursive row parser. |
| `ValuesClause.NormalizeQuoted` | src/webhooks.rs:1205-1212 | A value written in quotes with its inner quotes doubled, after any whitespace, normalizes to itself. |
| `ValuesClause.UndoubleExact` | src/webhooks.rs:1207-1208 | Undoing doubled quotes leaves a text as it is if and only if no quote in it follows another. |
| `ValuesClause.ExpressionExact` | src/webhooks.rs:1205-1212 | A tight expression normalizes to itself if and only if it does not both start and end with a quote. |
| `ValuesClause.RowsRoundTrip` | src/webhooks.rs:1130-1212 | Written rows read back whatever their values contain, whatever whitespace follows the commas and whatever stands after the clause; an empty row reads as one empty value. |
| `ValuesClause.RowsRoundTripExact` | src/webhooks.rs:1130-1212 | The clause reads back as written if and only if no row is empty. |
| `MixedRows.MixedRoundTrip` | src/webhooks.rs:1130-1212 | Rows of strings and expressions mixed, with whitespace on both sides of every comma and parenthesis, read back: each string as its value, each expression, if tight, closed and without an outer comma, as its text; the rest of the text is read as if it stood alone. |
| `MixedRows.TailIsNoRow` | src/webhooks.rs:1138-1149 | And it adds no row when, after whitespace, it starts with neither a comma nor a '('. |
| `RowCells.RowIsCells` | src/webhooks.rs:1150-1200 | For every text: a row is read if and only if text with its quotes and parentheses closed, and then ')', stands there; its cells are that text cut at the commas outside quotes and parentheses, each normalized. |
| `RowCells.CellsAreParts` | src/webhooks.rs:1071-1099 | The cells and the parts of the top-level splitter are the same for a text if and only if parenthesis depth and parenthesis-and-bracket depth agree, as to being 0, at each of its commas outside quotes. |
| `RowCells.SameWithoutBrackets` | src/webhooks.rs:1071-1099 | In particular the depths agree on text with no bracket outside quotes. |
| `RowCells.RowIsSplit` | src/webhooks.rs:1130-1203 | Where they agree, the row reader returns the normalized parts of the splitter. |
| `RowCells.BracketsCutRows` | src/webhooks.rs:1150-1195 | They do not agree everywhere: a comma in brackets cuts a row, but not a SET clause. |
| `ValuesClause.RowsNeverSplit` | src/db.rs:97-175 | The statement splitter passes over a written VALUES clause without cutting and comes out in Normal mode, whatever ';', quotes and comment marks the values contain. |
| `SetClause.ParseSetAssignments` | src/webhooks.rs:1027-1043 | The loop over the comma parts builds the map of the recursive reader. |
| `SetClause.AssignmentStaysTop` | src/webhooks.rs:1071-1099 | A written assignment is one part for the comma split and leaves the scanner at the top level, whatever its value, its marks and its whitespace. |
| `SetClause.TakePlain` | src/webhooks.rs:830-836 | After any whitespace a plain identifier is taken up to the first character that cannot continue it, and the text from there is returned. |
| `SetClause.TakeMarked` | src/webhooks.rs:811-829 | An identifier in backticks, brackets or double quotes is taken without its marks, up to the closing one or, when there is none, to the end. |
| `SetBrackets.OwnSignIsFound` | src/webhooks.rs:1033-1037 | Within one part, whatever text is written for a column, the '=' the reader finds is the assignment's own if and only if the scanner passes that text without meeting one. |
| `SetBrackets.ShortPartAddsNothing` | src/webhooks.rs:1029-1040 | A part adds no column whose name is longer than what stands before the part's first ']'. |
| `SetBrackets.BracketedExact` | src/webhooks.rs:1027-1043 | An assignment to a bracketed column reads back for every value, and likewise for the empty one, if and only if the scanner passes the bracketed name from the top level to the top level, meeting neither ',' nor '=' there. |
| `SetBrackets.WrongValueIsRead` | src/webhooks.rs:1027-1043 | For the name `'` and the value `]=x` an assignment is found, with the value `x'`. |
| `SetBrackets.CommaIsCut` | src/webhooks.rs:1027-1043 | A name the '=' search passes and the comma split does not: its assignment is lost. |
| `SetBrackets.ClosedQuotesReadBack` | src/webhooks.rs:1027-1043 | A bracketed name with closed quotes reads back, whatever the value. |
| `SetClause.SetRoundTrip` | src/webhooks.rs:1027-1099 | Reading written assignments, plain or marked columns, strings or expressions and any whitespace, updates the map as assigning them in order would, the last value winning. |
| `SetClause.SetClauseRoundTrip` | src/webhooks.rs:1027-1099 | With distinct columns the map has exactly the written columns, each with its value. |
| `SetClause.CallPasses` | src/webhooks.rs:1048-1099 | A call whose arguments close what they open is passed by the scanner from the top level to the top level, whatever commas and '=' stand inside it. |
| `SetClause.CallReadsBack` | src/webhooks.rs:1027-1099 | So an assignment of a call is one part and reads back whole, under its own column. |
| `SetWhere.FreeConcat` | src/webhooks.rs:988-1021 | A keyword stands in two texts put together if and only if it stands in one of them, when no word crosses the seam and the first ends at the top level. |
| `SetWhere.ClauseIsFree` | src/webhooks.rs:988-1021 | A written SET clause holds a keyword at the top level if and only if one of its columns or expressions does, whatever its strings contain. |
| `SetWhere.WhereIsFound` | src/webhooks.rs:976-980 | After a written SET clause the least occurrence of the keyword is the WHERE that follows it, whatever the strings and whatever comes after, if and only if no column or expression holds the word itself. |
| `SetWhere.BareFreeExact` | src/webhooks.rs:1007-1014 | A plain column without dots holds the keyword if and only if it is the keyword in some letter case; a longer name that contains it does not. |
| `SetWhere.MarkedIsFree` | src/webhooks.rs:996-1006 | A column in double quotes or backticks never holds it. |
| `SetScan.SetNeverSplits` | src/db.rs:97-175 | The statement splitter passes over a written SET clause without cutting and comes out in Normal mode, whatever ';', quotes and comment marks the strings and the marked columns contain, if each expression alone leaves it so. |
| `SetScan.StopsAtMark` | src/webhooks.rs:811-829 | A name written with its closing mark doubled is taken only up to its first such mark. |
| `SetScan.MarkedNameExact` | src/webhooks.rs:811-829 | It is taken whole if and only if it holds no such mark. |
| `FrameAndApply.ReadFrame` | src/db.rs:672-698 | Reads at most 100 rows, a prefix of the query's; nothing for no rows; an error only when one comes before the cap. |
| `FrameAndApply.Connection.FrameOne` | src/db.rs:726-779 | One statement: snapshot for UPDATE and DELETE, then RETURNING, then the plain statement if that failed, with the count and the frame of each path. |
| `FrameAndApply.Connection.FrameAndApply` | src/db.rs:705-792 | The whole batch: wrapped unless a statement is transaction control, stopping at the first failure, rolled back or committed, with the report or the error. |
| `FrameAndApply.FailureStops` | src/db.rs:725-782 | Nothing is executed after the first statement that fails. |
| `FrameAndApply.HarmlessExact` | src/db.rs:755-778 | In a transaction one framed write ends as the plain one does if and only if its RETURNING attempt is harmless there: a success has acted as the plain statement; a failure has left a database in which the plain statement does what it would have done, or has ended the transaction where the plain statement fails with and without it. |
| `FrameAndApply.TrustedIsHarmless` | src/db.rs:700-704 | In particular an attempt that fails without effect, or acts as the plain statement, is harmless. |
| `FrameAndApply.AgreesExact` | src/db.rs:725-782 | After every prefix of a batch the framed run stands where the plain one does if and only if every statement the plain run reaches is harmless where it is reached. |
| `FrameAndApply.FramesFollowPlain` | src/db.rs:725-782 | After every prefix of the batch the framed run sees the plain run's database, with one frame per statement read in the state just before it, or both have failed. |
| `FrameAndApply.BeforeExact` | src/db.rs:733-750 | A frame carries a snapshot if and only if its statement is an UPDATE or DELETE whose query could be built and started, matched a row and did not fail before the cap; it holds the first rows of that query, at most 100. |
| `FrameAndApply.FramingIsInvisible` | src/db.rs:705-792 | When the reached statements are harmless, the batch ends with all plain writes or with the initial database; frames align with statements, hold at most 100 rows and count as reported; a refused COMMIT is reported and leaves the transaction open. |
| `FrameAndApply.FailedReturningRunsTwice` | src/db.rs:759-776 | Not every attempt is harmless: a RETURNING that takes effect and then errors makes the write happen twice. |
| `FrameAndApply.SwallowedCountsNothing` | src/db.rs:755-771 | Where a swallowed clause is no clause, the statement takes effect, has no frame and counts no row, whatever the engine would count. |
| `FrameAndApply.ControlTestMeaning` | src/db.rs:662-667 | A statement passes the control test if and only if it is whitespace, then begin, commit, rollback, end, savepoint or release in any letter case, then anything. |
| `FrameAndApply.WrapExact` | src/db.rs:718-791 | A batch is wrapped if and only if no statement starts with one of those words; wrapped, it ends in its COMMIT with the report or in its ROLLBACK without one; any other batch runs statement by statement on the connection as it is. |
| `FrameAndApply.ControlTestExact` | src/db.rs:662-667 | The control test finds the statements that start with one of the six words once comments are stripped, if and only if there is no leading comment or no such word behind it. |
| `FrameAndApply.OwnTransaction` | src/db.rs:718-791 | Statements between a caller's own BEGIN, in any letter case after any whitespace, and a COMMIT or ROLLBACK, on any engine: nothing is wrapped around them; if all succeed and the last is not refused it ends the transaction and every statement has its frame; otherwise the batch is reported as failed and left as the failing statement left it. |
| `FrameAndApply.OwnTransactionIsPlain` | src/db.rs:705-792 | With writes that are harmless to frame it ends in the database, the row count and the frames of the plain writes, as under the wrapper; only a failing write is not rolled back. |
| `FrameAndApply.OwnTransactionLeft` | src/db.rs:773-791 | Then the transaction is left open with the writes before the one that failed, unless the engine has ended it. |
| `FrameAndApply.CommitEscapes` | src/db.rs:718-791 | In any wrapped batch on any engine, a reached statement the engine takes as COMMIT ends the transaction: what came before stays, the statements after it, if no other is control, run one by one outside any transaction, and the batch is reported as failed. |
| `FrameAndApply.RollbackEscapes` | src/db.rs:718-791 | Likewise for ROLLBACK: what came before is lost and the statements after it stay, although the batch is reported as failed. |
| `FrameAndApply.AbortEscapes` | src/db.rs:755-778 | When a failing RETURNING attempt ends the transaction, the writes before it are lost, its own plain statement and those after it stay, and the batch is reported as failed. |
| `FrameAndApply.CommentedCommitEscapes` | src/db.rs:662-667 | For instance any write that is framed with the transaction still open, followed by a commented COMMIT, stays although the batch is reported as failed. |
| `Webhooks.ValidateRetry` | src/webhooks.rs:670-693 | Accepts exactly the policies with 1 to 100 attempts and at most 20 delays, each positive and at most ten minutes. |
| `Webhooks.RetryLimits` | src/webhooks.rs:670-693 | A policy of `n` attempts with one delay repeated `k` times is valid if and only if `n` is 1 to 100, `k` at most 20 and the delay between one millisecond and ten minutes; so are the default policy and none. |
| `Webhooks.BurstBound` | src/webhooks.rs:73-89 | A validated policy gives between 1 and 21 tries a burst and never more than its attempts; 21 is reached, and no policy gives 5. |
| `Webhooks.BurstIsMaxAttempts` | src/webhooks.rs:25-29 | The burst makes the documented number of tries if and only if at least one delay fewer is listed; otherwise one try more than there are delays; and always one. |
| `Webhooks.DeliverWithBackoff` | src/webhooks.rs:552-570 | Succeeds if and only if one of the tries is accepted, stops at the first accepted one, and otherwise makes them all. |
| `Webhooks.PurgeKeepsExact` | src/webhooks.rs:397-416 | The purge does what its comment says for a delivery if and only if it is of another database or the whole database is purged. |
| `Webhooks.FirstPass` | src/webhooks.rs:458-531 | A newly queued delivery survives the first pass if and only if its burst left attempts, it is young enough and no try is accepted; all other deliveries fare as without it. |
| `Webhooks.PendingQueue.PurgePendingFor` | src/webhooks.rs:399-416 | Leaves exactly the files the predicate keeps, unchanged, in whatever order the directory lists them. |
| `Webhooks.PendingQueue.RetryOne` | src/webhooks.rs:500-531 | One queued delivery is dropped, delivered and removed, or written back with one attempt more. |
| `Webhooks.PendingQueue.RetryPendingOnce` | src/webhooks.rs:484-532 | One pass does this to every file at once, whatever the listing order. |
| `Webhooks.StillQueued` | src/webhooks.rs:500-531 | A delivery still queued after some passes differs only in its counter, which is within the limit. |
| `Webhooks.QueueDrains` | src/webhooks.rs:464-531 | A delivery queued after a burst of `b` is gone after `max(0, M - b) + 1` passes in any world, and still there before when nothing is accepted and it is young enough. |
| `Webhooks.DocumentedPasses` | src/webhooks.rs:619-622 | That number of passes is the configured limit if and only if the limit is at least 1 and the burst is a single try or the limit is 1. |
| `DeliveryRuns.RunConsistent` | src/webhooks.rs:419-532 | In every run the copies of a pass are of different files and agree with their files as long as these exist. |
| `DeliveryRuns.DispatchExact` | src/webhooks.rs:419-455 | A dispatch launches one delivery for each registered hook that names the event or '*', as often as it is registered, each for its own database and event and with a number of its own, and none for any other hook. |
| `DeliveryRuns.RunNumbered` | src/webhooks.rs:444-455 | In every run the deliveries under way have different numbers. |
| `DeliveryRuns.BurstLands` | src/webhooks.rs:447-473 | Whatever the receiver does, its burst can end: that delivery and no other leaves the air, and, if no try is accepted and the disk works, exactly it is added to the files, with the burst's tries counted. |
| `DeliveryRuns.HooksOfRun` | src/webhooks.rs:300-396 | In every run a hook is registered for a database if and only if it was added and neither it nor all hooks of the database were removed since. |
| `DeliveryRuns.LandingExact` | src/webhooks.rs:447-473 | What ends a delivery's burst: a restart, an accepted try, or a failed last try; and then, unless the write fails, exactly that database, event and hook with the burst's tries and the time is in a file of its own. |
| `DeliveryRuns.FlightIsFollowed` | src/webhooks.rs:419-532 | Over every interleaving a launched delivery is still under way, was lost to a restart or a failed write, was accepted, or was queued; and then it is on disk with its own database, event and hook and at least the burst's tries, or gone for a reason `DeliveryRuns.NoSilentLoss` lists. |
| `DeliveryRuns.ReceiverIsFollowed` | src/webhooks.rs:419-532 | So for every hook registered when its event is dispatched, in any run whatever happens next. |
| `DeliveryRuns.StepRemoves` | src/webhooks.rs:382-531 | A step that removes a file expires it, purges it, or finishes a visit that delivered it. |
| `DeliveryRuns.OutcomeWasAccepted` | src/webhooks.rs:510-523 | A pass removes a file as delivered only after its receiver accepted a try, over every interleaving. |
| `DeliveryRuns.NoSilentLoss` | src/webhooks.rs:382-531 | Over every interleaving with failing writes and restarts, the very event that takes a queued delivery off the disk comes after an accepted try, finds it past a limit, removes its database, or removes another webhook of its database. |
| `DeliveryRuns.RemovalExact` | src/webhooks.rs:367-416 | Removing a database takes exactly its deliveries off the disk, if it has hooks; removing one webhook, if it is registered, takes exactly those of its neighbours; no other file changes. |
| `DeliveryRuns.RemovalIsFinal` | src/webhooks.rs:382-416 | When a database is removed with none of its deliveries under way, none is launched, retried or on disk in any run from there, until a hook is added to it again. |
| `DeliveryRuns.EffortAccounted` | src/webhooks.rs:458-531 | In every orderly run the counter of every copy, on disk or in a pass, accounts for all tries made. |
| `DeliveryRuns.BoundedEffort` | src/webhooks.rs:458-531 | Over the whole life of a delivery at most `b * (1 + max(0, M - b))` tries are made, purges and rewrites of purged files included. |
| `DeliveryRuns.PassCanStart` | src/webhooks.rs:484-499 | A pass over all files, or any of them, can start whenever none is running. |
| `DeliveryRuns.UninterruptedPass` | src/webhooks.rs:484-532 | The steps of a pass that nothing interrupts come to `Webhooks.PendingQueue.RetryPendingOnce`. |
| `RateLimit.RateLimiter.CheckWithLimit` | src/ratelimit.rs:40-60 | The map and the answer after one call; no other key changes. |
| `RateLimit.RateLimiter.Check` | src/ratelimit.rs:36-38 | The same with the default limit. |
| `RateLimit.RateLimiter.Peek` | src/ratelimit.rs:67-92 | The snapshot, without changing the map. |
| `RateLimit.StaleAfterPeriod` | src/ratelimit.rs:48-49 | Whole-second truncation makes a window last exactly one second more than configured. |
| `RateLimit.SpanBound` | src/ratelimit.rs:40-60 | With a constant limit of at least 1, any span of `L` seconds admits at most `max * (L / (W + 1) + 2)` calls for a key. |
| `RateLimit.SpanOfRunBound` | src/ratelimit.rs:40-60 | The bound holds of every stretch of every run from a fresh limiter. |
| `RateLimit.SpanKeptExact` | src/ratelimit.rs:40-60 | The bound is kept in every stretch of every run if and only if the limit is at least 1. |
| `RateLimit.ZeroLimitAdmits` | src/ratelimit.rs:49-53 | With limit 0 a run of two calls, the second on a stale window, has one admitted. |
| `RateLimit.BurstAdmitsRoom` | src/ratelimit.rs:40-60 | Of `k` calls at one instant exactly the smaller of `k` and the room left are admitted. |
| `RateLimit.AnswerIsRoom` | src/ratelimit.rs:51-59 | The number in every answer, admitted or refused, is what a burst at that instant would still be admitted, and what `peek` reports as remaining under the limit in force. |
| `RateLimit.PeekExact` | src/ratelimit.rs:67-92 | A burst admits exactly what `peek` said remained, for every length, if and only if the limit given is one that can be in force. |
| `RateLimit.WaitingRestores` | src/ratelimit.rs:67-92 | One second more than `peek` reports restores the full budget; the reported time alone does not; for a window already over it reports 0 and the full budget, for a new key the whole window, and always the limit asked for. |
| `Analytics.PrunePoints` | src/analytics.rs:31-38 | The guarded filter and the removal loop, as a function of the points. |
| `Analytics.PruneIsFilterThenCap` | src/analytics.rs:31-38 | On increasing points the guard does not matter: pruning is an unconditional filter and then the last 20160, and removes a prefix. |
| `Analytics.GuardExact` | src/analytics.rs:31-38 | On points in any order, within the cap, pruning is the filter if and only if the first point is old or none is. |
| `Analytics.MinuteExact` | src/analytics.rs:103 | From the epoch on two times share a bucket if and only if they lie in the same 60 seconds, and the bucket is named by its first second; before it the buckets are mirrored, so that the minutes on either side of it share one. |
| `Analytics.QueryTracker.TrackQuery` | src/analytics.rs:102-120 | The buckets, totals and dirty set after a query; other users are unchanged. |
| `Analytics.QueryTracker.FlushDirty` | src/analytics.rs:122-167 | The three maps after a flush that has nothing to do, has no store, fails or succeeds; and the number of rows. |
| `Analytics.CountThenPrune` | src/analytics.rs:102-118 | Counting a query in the pruned buckets or in the whole history is the same once both are pruned at a later cutoff, even when the current bucket has been pruned away. |
| `Analytics.BucketsAreRecentHistory` | src/analytics.rs:31-120 | Under a clock that never goes back a user's buckets are increasing, are what one filter and cap leave of the full history, and with the pruned counts add up to the number of queries. |
| `Analytics.UserOpsSteady` | src/analytics.rs:102-141 | A clock that never goes back makes every user's minutes and cutoffs non-decreasing, whatever the other users do. |
| `Analytics.UserRun` | src/analytics.rs:102-167 | In every interleaving of calls a user's buckets and total are those of the calls that concern the user. |
| `Analytics.TrackerKeepsRecentHistory` | src/analytics.rs:102-167 | After any run, each user's buckets are the recent history, and buckets and pruned counts add up to the user's total. |
| `Analytics.DirtyExact` | src/analytics.rs:119-166 | In any run a user is dirty if and only if a query of the user has been followed by no successful flush, or, without a store, by no flush. |
| `Analytics.SameGrandTotal` | src/analytics.rs:184-194 | A list with one point per minute, each with that minute's sum, keeps the grand total. |
| `Analytics.QueryTracker.GetVolumeAll` | src/analytics.rs:184-194 | The merged volume is strictly sorted, has exactly the users' minutes, sums each over the users and keeps the grand total. |

## Left out

- The engine, HTTP, sockets, Supabase, the file system, HMAC, tokens and passwords are foreign code: the engine is any value of `Batch.Engine` or `FrameAndApply.Engine`, files are a map, a delivery attempt is a yes or no.
- `src/routes.rs`, `src/main.rs`, `src/config.rs`, `src/models.rs`, `src/auth.rs`, `src/plans.rs`, `src/google.rs`, `src/supabase.rs`, `src/users.rs`, `src/libsql.rs` and the scripts: plumbing that would only add easy members.
- Protocol Buffers message contents, the RoaringBitmap selector and the decimal revisions: a `Codec` with the inverse law, a set of page ids or "malformed", and a number or "unparsable" stand for them.
- Machine widths: lengths, frame numbers, counters, times and nesting depths are unbounded, so 64-bit overflow, the cast of the age limit to a signed number and the page number 0 are not modelled.
- Non-ASCII text in the scanners that mix character and byte positions (`src/webhooks.rs:988-1099`): the model works on characters, and its letters and digits are the ASCII ones.
- `classify_write`, `where_text_for`, `after_keyword`, `keyword_pos` and the naming of snapshot tables (`src/webhooks.rs:700-985`, `src/db.rs:709-714`): best effort by design, parameters of `FrameAndApply.Engine`.
- Column names and the conversion of values to text in frames (`src/db.rs:674-689`), savepoints, and the filtering of queries before a batch (`src/db.rs:636-660`).
- SetClause.SetRoundTrip: a bracketed name must be one the scanner passes, which `SetBrackets.BracketedExact` shows to be exact; names that hold their own closing mark are covered by `SetScan.MarkedNameExact` only.
- SplitSql.ReturningIsRead: the rows the engine returns for the clause are still a parameter of `FrameAndApply.Engine`.
- Batch.TransactionBatchIsAtomic: a rollback of an open transaction is taken to succeed, and statement arguments and row contents are part of the engine.
- Batch.Connection.ExecuteBatch: the code and the position of errors in the response are not modelled, only whether a slot has one and its message.
- DeliveryRuns.NoSilentLoss: a write to disk either happens or does not; half-written files and edits of stored hooks are not modelled, and every stored delivery can be read back.
- DeliveryRuns.BoundedEffort: a crash between the tries of a visit and its file update, or a file update that fails, repeats tries; such runs are excluded.
- Webhooks.FirstPass: file names are given by the caller and never reused, as random identifiers are; headers, payloads and signatures are not part of a delivery here, and ages are whole seconds.
- Validation of hook URLs, events and headers, and the mirroring of hooks to Supabase (`src/webhooks.rs:606-668`).
- Analytics.TrackerKeepsRecentHistory: starts without rows loaded from Supabase, and calls are atomic; the order in which the concurrent maps list users is a parameter.
- RateLimit.SpanBound: calls for one key are atomic and the clock never goes back, as the monotonic clock of the program promises; the per-plan choice of limits is not modelled.
- `spawn_sync_loop` and `persist_db` (`src/db.rs:309-344`, `src/db.rs:612-634`): scheduling and calls into foreign code.
