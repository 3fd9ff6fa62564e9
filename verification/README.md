# A verified model of the DuckDB storage engine for MariaDB

The engine embeds DuckDB in MariaDB. This project models, in Dafny, the algorithms and protocols
beneath the glue, and proves what they promise over all inputs, all runs and all interleavings.
`dafny verify dfyconfig.toml` checks the whole project.

## What is modelled

**Batched row changes** (`Tables`, `DeltaLog`, `PendingLogs`, `BatchSession`, `BatchInvariant`,
`BatchRefinement`, `WriteSets`, `Transactions`, `ThdContext`). A DuckDB table is a bag of rows with a key projection,
because DuckDB tables carry no primary key constraint. A pending appender is a list of rows, or a
log of row versions and delete markers; a flush is the two SQL statements, read as operations on
bags (`IN` never matches a NULL key). A session also carries the write set of each open table,
which unbatched updates narrow. What DuckDB answers is part of every step, so creating an appender,
appending, running a statement and flushing may all fail; a call that fails has no effect of its
own. The reference is one statement per row, and an operation reported as failed does not happen.

The link between the batch state and the kinds of cached appenders is kept by every step, whatever
keys it meets and whatever fails (`StepKeepsInv`). `StepRefines` gives, for every step from every
session, the exact condition (`Sound`) under which the visible tables stay those of the reference,
and `RunRefines` does so for whole runs: they agree at every point if and only if every step is
sound. `BatchedRunRefinesRowByRow` is the case without faults: then a run is one statement per row
if and only if the columns of its unbatched statements are in order; batched rows need nothing.
`TransactionsAreAllOrNothing` extends this to histories of transactions, in which any operation,
BEGIN, flush, COMMIT or ROLLBACK may fail, and `FineHistoriesPublishFolds` says what they publish
when only transaction ends fail. The end of a statement inside a transaction, rolled back or not,
does nothing (`ha_duckdb.cc:156-157`), so what a transaction publishes is a fold of operations and
not of statements. The classes of `ThdContext` update fields in place and are proved against those
functions, failures included; the tables inside DuckDB are specification state there.

That operations respect the primary key is an assumption (`Legal`): DuckDB tables have no key
constraint and the handler no index, so nothing refuses a second row of a key.

**The AUTO_INCREMENT block cache** (`AutoIncrement`). A transition system with any number of
threads and outside writers, one atomic step at a time: load, compare-and-swap (which may fail
spuriously), lock, recheck, one sequence draw per step, accept or retry, store, unlock. The sequence
is only assumed to hand out increasing positive 63-bit values. Unsigned 64-bit arithmetic is
written out.

**SQL regions** (`SqlRegions`, `QuoteSafety`, `BacktickRewrite`, `SequenceName`). The scanner, the
check that MariaDB and DuckDB split a statement alike, the backtick rewrite seen as requoting of
tokens, and identifiers nested in a string literal. The loops run by index and are proved against
functions on text.

**Calendar and weeks** (`Calendar`, `WeekNumber`). Day numbers by counting against the closed form,
and WEEK/YEARWEEK in all modes against a definition by the first day of week 1.

**Streaming, KILL, decimals, rows, defaults** (`FiberScan`, `KillWindow`, `DecimalPacking`,
`RowDifference`, `VcolDefs`).

Two places where the code and its documentation differ, and the model follows the code:
`docs/architecture.md:355` says a flush deletes the target rows of every logged key, but the code
runs the DELETE only when the log has a delete marker (`MixedFlushLastWriterWins` says when that
matters); and the comment at `runtime/duckdb_query.cc:168` mentions backslash escapes, but the
rewrite scans without them.

Properties that turned out false of the code are stated with the exact condition under which they
hold:

- batched updates of missing rows or to taken keys (`UpdateAgrees`, `InsertAgrees`);
- statements that run under pending logs after a failed append, also when the update's own marker is
  left behind (`PendingLogs`, and `Sound` for whole sessions);
- flushing again after a failed flush (`RetryAfterFailedFlush`), and `delete_all_rows` whose
  statement fails after the pending rows are gone (`DeleteAllRefines`);
- rows that follow a narrowed write set (`NextRowLosesColumns`, `NextReplicatedRowIsRefused`), and
  column changes hidden by the NULL sentinel (`FlaggedCovers`);
- temporary tables of different tables that share a name (`BufNamesClash`);
- committing a transaction whose rollback has failed (`SoundEvent` in `NextRefines`);
- the rewrite of touching identifiers (`RescanGivesRequotedTokens`);
- the direct scan that takes any error for the end of a table (`DrainDirect`), and the fiber scan
  that takes a failed initialisation for it (`DrainFiber`).

In `QuoteSafety` the reader called `DuckDb` is the engine's own scanner with backslash escapes off,
which the source uses for DuckDB's view of a text; it is not DuckDB's lexer.

Inputs from outside are parameters: what DuckDB, the server variables and the handlers answer, which
calls fail, which columns the server marks, and the rows a SELECT yields.

## Model

| member | source | states |
|---|---|---|
| Tables.DeleteKeys | runtime/delta_appender.cc:512-516 | the DELETE statement removes exactly the rows whose non-NULL key is listed, and keeps every other copy |
| Tables.SameKey | runtime/delta_appender.cc:258-265 | two rows have the same key if and only if they agree on every primary key column |
| Tables.NullKey | runtime/delta_appender.cc:258-265 | a key has a NULL part if and only if some primary key column is NULL |
| Tables.DeleteByColumns | runtime/delta_appender.cc:512-516 | a DELETE by key removes a row if and only if it agrees on every primary key column and none of them is NULL |
| Tables.UpdateByColumns | convertor/dml_convertor.cc:261-271 | an UPDATE by key rewrites those rows, and every other row keeps its copies |
| Tables.UpdateRowsReplacesOne | convertor/dml_convertor.cc:309-331 | an UPDATE by key of the only row of its key sets the columns of the write set and touches nothing else, and gives the new row if and only if the write set covers the change |
| DeltaLog.MarkerKeepsKey | runtime/delta_appender.cc:172-197 | a delete marker still has the key of the deleted row, and NULL in every other column |
| DeltaLog.LatestRowsAreLive | runtime/delta_appender.cc:486-496 | the window query returns the last row version of each key exactly once, and nothing for keys whose last entry is a marker |
| DeltaLog.FlushedAt | runtime/delta_appender.cc:520-552 | how many copies of each row a flush leaves, for any delta and whatever flags failed appends raised: the target's, unless the DELETE touched the key, plus those the delta holds |
| DeltaLog.MixedFlushLastWriterWins | runtime/delta_appender.cc:498-552 | a mixed flush is last-writer-wins per key, for any log and target, if and only if the DELETE runs or none of its keys is in the target |
| DeltaLog.MixedFlushKeepsUniqueKeys | runtime/delta_appender.cc:498-552 | a flush that runs the DELETE keeps the keys of the target unique, even if the log repeats keys |
| DeltaLog.VisibleAt | runtime/delta_appender.cc:498-552 | when the visible keys are unique every flush is last-writer-wins |
| DeltaLog.AppendsKeepValid | runtime/delta_appender.cc:107-215 | appends keep row numbers increasing and raise the flag of every kind of row the log holds |
| DeltaLog.FailedAppendsKeepValid | runtime/delta_appender.cc:107-215 | so do failing appends, which count the row and raise the flag but log nothing, or leave the marker of an update |
| DeltaLog.InsertAgrees | runtime/delta_appender.cc:107-141 | logging a row equals inserting it row by row if and only if its key is not visible, or the DELETE will not run and the log does not hold that key |
| DeltaLog.DeleteAgrees | runtime/delta_appender.cc:153-215 | logging a marker always equals the row-by-row DELETE |
| DeltaLog.UpdateAgrees | docs/architecture.md:289-295 | a batched update equals the row-by-row UPDATE if and only if the old key is visible and the new one free (or nothing changes): the documented divergences and no others |
| PendingLogs.RaisedInsertFlag | runtime/delta_appender.cc:110-111 | a flag raised by a failed insert changes no flush |
| PendingLogs.RaisedDeleteFlag | runtime/delta_appender.cc:163-164 | a flag raised by a failed delete changes no flush while the visible keys are unique |
| PendingLogs.InsertUnderPendingLog | ha_duckdb.cc:545-554 | an INSERT under any pending delta survives the flush if and only if it sends that row and the DELETE will not touch its key |
| PendingLogs.DeleteUnderPendingLog | ha_duckdb.cc:784-791 | a DELETE under any pending delta takes effect if and only if the delta holds no live version of its key |
| PendingLogs.UpdateUnderPendingLog | ha_duckdb.cc:743-750 | an UPDATE under any pending delta takes effect if and only if it changes nothing, or its write set covers the change and the log touches neither its old nor its new key |
| PendingLogs.UpdateAfterMarker | runtime/delta_appender.cc:143-151 | when the update's own marker is already logged, what a flush leaves, and that this is the update if and only if the one row that escapes the log is the new one |
| PendingLogs.WhatEscapesTheMarker | ha_duckdb.cc:743-750 | with unique keys that means: the key changes to one not logged, and the table holds a row of the old key that the write set turns into the new row; an update that keeps its key is always lost |
| PendingLogs.MarkerAloneDeletes | ha_duckdb.cc:743-750 | when the statement fails too, the marker still deletes the row of the update reported as failed |
| PendingLogs.RetryAfterFailedFlush | runtime/delta_appender.cc:520-552 | flushing again after a flush that stopped at any point gives what one flush would, if and only if it is not the DROP that failed on a non-empty log without DELETE |
| PendingLogs.FlushIsNoOp | ha_duckdb.cc:1032-1047 | dropping a pending delta changes nothing visible if and only if every logged key already ends in the table as it ends in the log |
| BatchInvariant.EnterBatchInv | ha_duckdb.cc:436-466 | settling the batch state, failing flush included, keeps the link between state and appender kinds, and in a batch an update or delete never meets a direct appender |
| BatchInvariant.StepKeepsInv | runtime/duckdb_context.cc:191-223 | every operation keeps that link, whatever keys it meets and whatever fails |
| BatchInvariant.RunKeepsInv | runtime/duckdb_context.cc:191-223 | so it holds along every run |
| BatchInvariant.RunKeepsClean | ha_duckdb.cc:436-854 | without faults nothing is ever pending outside a batch, along every run |
| BatchInvariant.OffMeansStatements | ha_duckdb.cc:455-463 | along every run with `dml_in_batch` off, whatever fails, no row is ever logged |
| BatchInvariant.FirstRowIsLogged | ha_duckdb.cc:455-463 | with it on, the first row operation is logged and no table touched: an insert directly, an update or delete through a temporary table |
| BatchRefinement.FlushAllRefines | runtime/duckdb_context.h:139-148 | flushing all appenders changes nothing visible |
| BatchRefinement.AbortedFlushRefines | runtime/delta_appender.cc:589-611 | a flush that stops at a table changes nothing visible on any table, if and only if flushing that table again is safe |
| BatchRefinement.EnterBatchRefines | ha_duckdb.cc:436-466 | settling the batch state changes nothing visible, if and only if its flush succeeds or stops where flushing again is safe |
| BatchRefinement.InsertRefines | ha_duckdb.cc:490-559 | an insert, appended, sent as a statement or after a failed append, refines the reference if and only if it is sound |
| BatchRefinement.UpdateRefines | ha_duckdb.cc:691-754 | the same for updates, with the write set as earlier rows left it and the marker a failed append left |
| BatchRefinement.DeleteRefines | ha_duckdb.cc:756-795 | the same for deletes |
| BatchRefinement.DeleteAllRefines | ha_duckdb.cc:1020-1048 | emptying a table empties what is visible of it; when the statement fails nothing changes if and only if no delta was pending or the log was ineffective, key by key |
| BatchRefinement.DirectRefines | ha_duckdb.cc:1062-1111 | a pushed-down statement sees the flushed table |
| BatchRefinement.StepRefines | ha_duckdb.cc:436-1111 | from any session that shows the reference over tables with unique keys, whatever is pending and whatever DuckDB answers, a key-respecting operation shows the new reference if and only if it is sound |
| BatchRefinement.LegalKeepsKeys | ha_duckdb.cc:490-754 | the assumption `Legal` is no more than it must be: of inserts, and of updates of a row that is there, exactly the legal ones leave unique keys |
| BatchRefinement.InsertShows | ha_duckdb.cc:490-559 | a sound insert that succeeds adds its row to what the table shows |
| BatchRefinement.DeleteShows | ha_duckdb.cc:756-795 | a sound delete that succeeds takes away exactly the rows that agree with its row on every primary key column |
| BatchRefinement.UpdateShows | ha_duckdb.cc:691-754 | a sound update that succeeds replaces exactly those by the new row |
| BatchRefinement.WholeTableShows | ha_duckdb.cc:1020-1111 | emptying a table shows it empty, and a pushed-down statement shows its effect |
| BatchRefinement.OtherTablesShow | ha_duckdb.cc:490-1111 | no operation changes what another table shows |
| BatchRefinement.RunRefines | ha_duckdb.cc:436-1111 | over every run, settings changing and any calls failing, the visible tables are the reference's at every point if and only if every step is sound; then the keys of the tables under the logs stay unique too |
| BatchRefinement.StepKeepsWork | ha_duckdb.cc:436-1111 | a sound step keeps the keys of every table unique, also where a pending log hides them |
| WriteSets.StillMarkedIsCurrent | ha_duckdb.cc:723-730 | a table's write set is what the last statement start or scan set, unless an unbatched update that flagged columns came since |
| WriteSets.FineStep | ha_duckdb.cc:490-795 | without faults an operation succeeds and is sound if and only if it is batched or its columns are in order, and it is no row event with an incomplete write set |
| WriteSets.BatchedRunRefinesRowByRow | ha_duckdb.cc:436-872 | without faults every operation of a run succeeds and the visible tables are the fold of the operations at every point, one statement per row, if and only if that holds of every step |
| WriteSets.BatchedRunsAreFine | ha_duckdb.cc:534-540 | with `dml_in_batch` on nothing is asked of columns, settings or sentinels, only that no row event meets an incomplete write set |
| WriteSets.ReplicatedEventIsFine | ha_duckdb.cc:704-741 | under the default settings a replicated UPDATE event with complete images goes through, however many rows it has |
| WriteSets.NextRowLosesColumns | ha_duckdb.cc:723-733 | when the variable is turned off after an unbatched update, the next row of the table is updated as it should if and only if the columns changed before cover its change |
| WriteSets.SecondRowStays | ha_duckdb.cc:723-733 | a two-row statement in which both updates succeed and the second row keeps its old values |
| WriteSets.NextReplicatedRowIsRefused | ha_duckdb.cc:704-730 | after an unbatched replicated update, the next row of the event is refused if and only if the first left some column unchanged |
| WriteSets.DeletedRowComesBack | ha_duckdb.cc:784-791 | from an insert-only and from a mixed batch: a run in which a deleted row returns with the next flush |
| Transactions.NextRefines | ha_duckdb.cc:86-170 | every operation, statement end, prepare, commit and rollback, failing or not, also after a failed rollback, moves the connection and the all-or-nothing reference alike if and only if the event is sound |
| Transactions.OnlyCommitPublishes | ha_duckdb.cc:117-148 | a COMMIT whose flush and statement succeed publishes what each table shows; nothing else changes the committed tables |
| Transactions.RollbackShowsCommitted | runtime/duckdb_context.h:98-120 | after a rollback, asked for or forced by a failed commit, the connection shows the committed tables with nothing pending |
| Transactions.TransactionsAreAllOrNothing | runtime/duckdb_context.h:63-120 | at every point of every history the committed tables are the fold of the successful operations of exactly those transactions whose flush and COMMIT succeeded, if and only if every event was sound; nothing buffered before a rollback appears later |
| Transactions.FineHistoriesPublishFolds | runtime/duckdb_context.h:63-120 | when row operations meet no fault and due rollbacks are retried, each successful COMMIT publishes the plain fold of its operations, whatever flushes, COMMITs and ROLLBACKs failed before |
| ThdContext.BufNamesClash | runtime/delta_appender.h:38-41 | tables of two schemas can share a temporary table if and only if the longer schema name followed by `_rds_buf_` begins with the shorter one followed by it |
| ThdContext.BufNamesOfOneSchema | runtime/delta_appender.h:38-41 | tables of one schema never do |
| ThdContext.DuckdbThdContext.OneSchemaIsApart | runtime/delta_appender.h:38-41 | so a connection whose appenders are all in one schema never meets a clash |
| ThdContext.BufNamesDoClash | runtime/delta_appender.h:38-41 | such a pair |
| ThdContext.DeltaAppender.AppendRowInsert | runtime/delta_appender.cc:107-141 | logs the row under the next row number; a failing append counts the row and raises the flag but logs nothing |
| ThdContext.DeltaAppender.AppendRowDelete | runtime/delta_appender.cc:153-215 | refuses a direct appender untouched; otherwise logs a marker, or counts it and raises the flag only |
| ThdContext.DeltaAppender.AppendRowUpdate | runtime/delta_appender.cc:143-151 | marker, then row; a failure in between leaves the marker and both flags |
| ThdContext.DeltaAppender.Flush | runtime/delta_appender.cc:520-552 | leaves the target as `Flushed` of the pending delta, or as `FailedFlush` where it stopped; without its temporary table it fails and changes nothing |
| ThdContext.DuckdbThdContext.FlushTables | runtime/delta_appender.cc:589-611 | flushes every table, or stops at one with exactly those before it flushed |
| ThdContext.DuckdbThdContext.FlushAppenders | runtime/duckdb_context.h:139-148 | the new session is `FlushTo` of the old one; it fails while a temporary table is lost, and a failed flush has lost those of the mixed tables it got past |
| ThdContext.DuckdbThdContext.GetBatchState | ha_duckdb.cc:436-466 | the new session is `EnterBatch` of the old one, and its flush succeeds when nothing stops it |
| ThdContext.DuckdbThdContext.GetAppender | runtime/delta_appender.cc:613-636 | the cached appender, or a fresh one of the kind the batch calls for; one that cannot be made drops the temporary table of its name |
| ThdContext.DuckdbThdContext.WriteRow | ha_duckdb.cc:490-559 | the new connection is `Next` of the old one and the error that of a failed BEGIN or of `Apply`, whatever fails; every answer is good when nothing is set to fail, no temporary table is lost and no name clashes |
| ThdContext.DuckdbThdContext.UpdateRow | ha_duckdb.cc:691-754 | the same for updates, refused row events and the narrowed write set included |
| ThdContext.DuckdbThdContext.DeleteRow | ha_duckdb.cc:756-795 | the same for deletes |
| ThdContext.DuckdbThdContext.DeleteAllRows | ha_duckdb.cc:1020-1048 | the same for emptying a table |
| ThdContext.DuckdbThdContext.DirectStatement | ha_duckdb.cc:1062-1111 | the same for pushed-down statements: flush first, then the statement |
| ThdContext.DuckdbThdContext.RndInit | ha_duckdb.cc:832-872 | the same for opening a scan: flush, SELECT, then a full write set |
| ThdContext.DuckdbThdContext.TransRollback | runtime/duckdb_context.h:98-120 | appenders are gone whatever DuckDB answers; on success so is the transaction |
| ThdContext.DuckdbThdContext.Prepare | ha_duckdb.cc:86-103 | the prepare step of `Transactions.Next`; it succeeds when nothing stops the flush |
| ThdContext.DuckdbThdContext.Commit | ha_duckdb.cc:117-148 | the commit step of `Transactions.Next`, with its rollback on failure; it publishes what each table shows, or nothing; it succeeds when nothing stops the flush or COMMIT, and fails while a temporary table is lost |
| AutoIncrement.OverflowTestIsExact | ha_duckdb.cc:629-635 | the division test detects exactly the products that do not fit 64 bits |
| AutoIncrement.BlockIsInside | ha_duckdb.cc:599-611 | a block whose span equals its size is exactly the ids drawn for it |
| AutoIncrement.NextKeepsInv | ha_duckdb.cc:637-688 | every step of every thread keeps the cache invariant |
| AutoIncrement.RunsKeepInv | ha_duckdb.cc:615-689 | the invariant holds at every point of every interleaving |
| AutoIncrement.NothingWraps | ha_duckdb.cc:641-682 | in every reachable state the unsigned subtractions and additions of the code equal the exact ones |
| AutoIncrement.CallIsExact | ha_duckdb.cc:629-637 | a call fails at once if and only if its ids do not fit 64 bits, and otherwise loads the range |
| AutoIncrement.LoadedMoves | ha_duckdb.cc:640-653 | a loaded range is claimed from if and only if it holds enough ids |
| AutoIncrement.ClaimIsExact | ha_duckdb.cc:640-651 | a claim takes exactly its ids from the front of the range, if that is still the one loaded, and otherwise nothing |
| AutoIncrement.RecheckIsExact | ha_duckdb.cc:653-662 | a refill happens if and only if the range is still too short, of the needed or the cache size, whichever is more |
| AutoIncrement.DecideIsExact | ha_duckdb.cc:596-612 | a drawn block is accepted if and only if its ids are consecutive; the third that is not fails the call |
| AutoIncrement.StoreIsExact | ha_duckdb.cc:672-686 | an accepted block is the caller's ids and then the cached rest, none lost |
| AutoIncrement.EveryCallIsAnsweredOnce | ha_duckdb.cc:615-689 | at every point of every interleaving each call has one claim, one failure, or is under way |
| AutoIncrement.UndisturbedCallClaims | ha_duckdb.cc:615-689 | from every reachable state a call that nothing disturbs gets its ids, from the cache or from the front of a fresh block whose rest is cached |
| AutoIncrement.ServerRoundsUp | ha_duckdb.cc:622-628 | the first id used is the least one of the claim on the grid, and the others follow in steps |
| AutoIncrement.ServerIdsStayInside | ha_duckdb.cc:622-628 | every id the server derives by rounding up to its grid and stepping lies in the claimed interval and on the grid |
| AutoIncrement.NoIdIsGivenOutTwice | ha_duckdb.cc:573-689 | no two calls, and no call and outside writer, ever get the same id, and claims come in increasing order |
| AutoIncrement.StaleClaimFails | ha_duckdb.h:54-62 | a range loaded before a refill never equals the shared range again |
| SqlRegions.ScanSqlRegion | runtime/duckdb_query.cc:38-91 | the index loops compute the kind and end of the region at `start` |
| SqlRegions.ClosingLenIsFirst | runtime/duckdb_query.cc:46-56 | a block comment ends at its first closing mark and is unterminated if there is none |
| SqlRegions.LineLenIsFirst | runtime/duckdb_query.cc:58-66 | a line comment ends at its first newline or at the end of the text |
| SqlRegions.DashesOpen | runtime/duckdb_query.cc:58-61 | two dashes open a comment if and only if the text ends there or one of the six white space characters follows |
| SqlRegions.SlashOpens | runtime/duckdb_query.cc:46-49 | a slash opens a comment if and only if a star follows, and one dash opens nothing |
| SqlRegions.OneCharacterOpens | runtime/duckdb_query.cc:58-75 | a hash opens a comment, each of the three quotes quoted text, and no other character anything |
| SqlRegions.RegionEnds | runtime/duckdb_query.cc:46-91 | how far each region goes, by what follows its opening |
| SqlRegions.BodyOfEscaped | runtime/duckdb_query.cc:73-88 | with escapes on, a content written with backslashes is scanned to the quote after it, whatever it is |
| QuoteSafety.HasUnsafeQuoteEscape | runtime/duckdb_query.cc:93-132 | with backslash escapes on, text is accepted if and only if MariaDB's and DuckDB's splits have the same kinds and ends throughout and the text does not stop inside a comment or identifier |
| QuoteSafety.NoBackslashReadsAlike | runtime/duckdb_query.cc:93-132 | text without a backslash is split alike by both |
| QuoteSafety.QuotesByMode | runtime/duckdb_query.cc:111-119 | which quotes are read with escapes: single ones always, double ones unless ANSI_QUOTES is on, backticks never |
| QuoteSafety.ReadAlikeWithoutStrings | runtime/duckdb_query.cc:93-132 | text without a quote that opens a string in its mode is split alike, backslashes or not |
| QuoteSafety.EscapedQuoteIsRefused | runtime/duckdb_query.cc:111-119 | a string with an escaped quote is refused in every mode that reads it as a string, whatever follows |
| QuoteSafety.UnsafeAfterWord | runtime/duckdb_query.cc:104-131 | ordinary text before changes nothing |
| QuoteSafety.AnsiIdentifierIsRead | runtime/duckdb_query.cc:121-127 | under ANSI_QUOTES double-quoted text is an identifier, backslashes or not, and only what follows decides |
| QuoteSafety.OpenTextIsRefused | runtime/duckdb_query.cc:121-131 | text that ends inside an identifier is refused, inside a string not |
| BacktickRewrite.PrintLex | runtime/duckdb_query.cc:38-91 | splitting into tokens loses nothing |
| BacktickRewrite.HeadOfName | runtime/duckdb_query.cc:71-87 | a quoted name scans as one token decoding to that name if and only if the same quote does not follow |
| BacktickRewrite.RewriteIsRequote | runtime/duckdb_query.cc:147-211 | the rewrite prints the tokens with backtick names requoted |
| BacktickRewrite.RescanGivesRequotedTokens | runtime/duckdb_query.cc:147-211 | re-scanning the output gives the same tokens, backtick names now double-quoted with the same content, if and only if no backtick name touches double-quoted text |
| BacktickRewrite.RewriteIdempotent | runtime/duckdb_query.cc:147-211 | on every text, rewriting twice is rewriting once |
| BacktickRewrite.NoBackticksLeft | runtime/duckdb_query.cc:147-211 | whatever the text, the rewritten one is read without any name in backticks |
| BacktickRewrite.RequoteBody | runtime/duckdb_query.cc:184-204 | the inner loop undoubles backticks and doubles double quotes |
| BacktickRewrite.BackticksToDoubleQuotes | runtime/duckdb_query.cc:147-211 | the loop computes `Rewrite` |
| SequenceName.QuoteDuckdbIdentifier | common/duckdb_types.cc:95-108 | the quoted identifier scans as one name that decodes to the input |
| SequenceName.AutoincNextvalExpr | convertor/ddl_convertor.cc:235-256 | builds the nested expression |
| SequenceName.QualifiedDecodes | convertor/ddl_convertor.cc:219-256 | the literal's content is two identifiers decoding to the schema and the sequence name |
| SequenceName.NextvalReadsBack | convertor/ddl_convertor.cc:235-256 | for all names the expression has one string literal with that content, and the backtick rewrite leaves it unchanged |
| SequenceName.NextvalIsInjective | convertor/ddl_convertor.cc:219-256 | different tables draw from different sequences |
| Calendar.CalcDaynr | runtime/duckdb_mysql_compat.cc:1086-1101 | the closed form equals the count of days for every valid date |
| Calendar.NextDateIsNextDay | runtime/duckdb_mysql_compat.cc:1086-1101 | the next calendar date has the next day number |
| Calendar.DayNumberIsMonotone | runtime/duckdb_mysql_compat.cc:1086-1101 | day numbers order dates as the calendar does |
| Calendar.DayNumberOrders | runtime/duckdb_mysql_compat.cc:1086-1101 | one date is earlier than another if and only if its number is smaller, and a number has one date |
| Calendar.UnixEpoch | runtime/duckdb_mysql_compat.cc:1224-1230 | 1970-01-01 is day 719528 |
| Calendar.TimestampIsMonotone | runtime/delta_appender.cc:395-407 | the appender's DATETIME value is strictly increasing in calendar order |
| Calendar.TimestampOrders | runtime/delta_appender.cc:395-407 | the values order and tell apart all date-times, both ways |
| Calendar.TimestampCountsMicroseconds | runtime/delta_appender.cc:395-407 | it is 0 at the epoch and grows by one with every microsecond of the clock, over midnights and leap days |
| Calendar.MonthTable | runtime/duckdb_mysql_compat.cc:1086-1101 | the lengths of the months |
| WeekNumber.CalcDaysInYear | runtime/duckdb_mysql_compat.cc:1079-1084 | consecutive New Years differ by the year length |
| WeekNumber.WeekMode | runtime/duckdb_mysql_compat.cc:1071-1077 | the eight modes have the documented first day, range and week-one rule |
| WeekNumber.WeekOneRule | runtime/duckdb_mysql_compat.cc:1133-1137 | week 1 is the first week beginning in the year, or the first with four days in it |
| WeekNumber.CalcWeek | runtime/duckdb_mysql_compat.cc:1108-1150 | for every date from year 1 and every format the week and its year are those of the reference definition, week 0 included |
| WeekNumber.CountWeeks | runtime/duckdb_mysql_compat.cc:1133-1149 | the unsigned day difference never wraps, and late December days roll into week 1 exactly when they should |
| WeekNumber.YearWeek | runtime/duckdb_mysql_compat.cc:1187-1202 | the number encodes the week-year and the week |
| WeekNumber.YearWeekFollowsWeeks | runtime/duckdb_mysql_compat.cc:1187-1202 | YEARWEEK never decreases with the date, and is equal exactly within one seven-day week |
| WeekNumber.YearWeeks | runtime/duckdb_mysql_compat.cc:1187-1202 | of two calls: an earlier date has no greater YEARWEEK, and the results are equal if and only if the dates share a week |
| WeekNumber.EpochIsThursday | runtime/duckdb_mysql_compat.cc:1103-1106 | weekdays are anchored at 1970-01-01 |
| WeekNumber.ModeThreeIsIso | runtime/duckdb_mysql_compat.cc:1108-1150 | mode 3 is the calendar week number of section 2.2.10 of ISO 8601:2004, both ways |
| FiberScan.StreamIsExact | runtime/fiber_scan.h:86-98 | the chunks concatenate to the rows in order, none is empty or too long, and only the last may be short |
| FiberScan.Fiber.Resume | runtime/fiber_scan.cc:308-394 | one resumption sends the next full chunk, or the rest and the end, or reports the error |
| FiberScan.Fiber.SendData | runtime/fiber_scan.cc:102-136 | a row goes to the next slot; the fiber yields exactly when the chunk is full |
| FiberScan.FiberReader.NextChunk | runtime/cross_engine_scan.cc:391-475 | one call returns the next rows, an exception, or the end, and the end at once when the fiber cannot be initialised |
| FiberScan.DrainFiber | runtime/cross_engine_scan.cc:371-475 | the consumer gets exactly the stream of the rows, or whole chunks and an exception, or, when the fiber cannot be initialised, nothing at all; rows or an exception if and only if it is initialised or there are no rows |
| FiberScan.DirectReader.NextChunk | runtime/cross_engine_scan.cc:482-531 | one call fills the next chunk, and any handler error, in opening or reading, ends the scan |
| FiberScan.DrainDirect | runtime/cross_engine_scan.cc:477-535 | the stream of the rows before the first error; all rows if and only if no error comes before the end |
| KillWindow.KillIsNeverLost | runtime/duckdb_context.cc:77-103 | in every interleaving no interrupt is pending outside the window or without a kill, and after re-delivery a set kill flag means one is pending or on its way |
| KillWindow.StateIsHistory | runtime/duckdb_context.cc:77-103 | along every run the killers on their way, the kill flag, the window and the progress of the query are what the actions so far say |
| KillWindow.NextFetchStops | runtime/duckdb_query.cc:306-323 | once as many killers have called interrupt() as set the flag, the next fetch stops if and only if the flag was set since its last reset |
| KillWindow.KillDuringFetchStops | runtime/duckdb_context.cc:98-103 | an interrupt that arrives while the query fetches stops the next fetch |
| KillWindow.StoppedMeansKilled | runtime/duckdb_context.cc:77-103 | only a killed query is stopped, and a closed window leaves no interrupt to the next query |
| KillWindow.QueryRunsThrough | runtime/duckdb_query.cc:306-323 | from every quiet state a query runs through its window and leaves the state as it was |
| KillWindow.SubmitAloneLosesTheKill | runtime/duckdb_context.h:171-175 | a run in which submitting the query drops the kill, so re-delivery is needed |
| DecimalPacking.GetDuckdbDecimal | runtime/delta_appender.cc:68-105 | the result is exactly the value times 10^dec, and every intermediate value fits the chosen integer type |
| DecimalPacking.ActualIntg | runtime/delta_appender.cc:46-66 | the number of significant integer digits, bounding the integer part from both sides |
| DecimalPacking.IntPartBound | runtime/delta_appender.cc:344-363 | a decimal of `intg` digits has an integer part below 10^intg |
| DecimalPacking.AppendDecimal | runtime/delta_appender.cc:335-384 | a value is rejected exactly when it is out of range and stored exactly otherwise |
| DecimalPacking.SignIsKept | runtime/delta_appender.cc:73-82 | the result has the sign of the decimal |
| DecimalPacking.FoldWeights | runtime/delta_appender.cc:84-94 | the groups are base-10^9 digits, the first the most significant |
| DecimalPacking.BitsIsNarrowest | runtime/delta_appender.cc:351-363 | the type picked is the narrowest that holds every number of that precision |
| DecimalPacking.TypesHold | runtime/delta_appender.cc:351-363 | what the four types hold |
| DecimalPacking.TwelveAndAHalf | runtime/delta_appender.cc:68-105 | one value, digit by digit |
| RowDifference.ReadLittleEndian | common/row_helpers.h:45-68 | the backward loop reads the little-endian number |
| RowDifference.LittleEndianWeights | common/row_helpers.h:45-68 | byte i weighs 256^i |
| RowDifference.VarcharReadsBack | common/row_helpers.h:70-89 | a VARCHAR stored as length and content is read back |
| RowDifference.BlobReadsBack | common/row_helpers.h:91-107 | a BLOB stored as length and address is read back |
| RowDifference.FixedReadsBack | ha_duckdb.cc:354-396 | a column is NULL if and only if its null bit says so, and any other field is its bytes |
| RowDifference.FieldDiffers | ha_duckdb.cc:354-396 | reports exactly the changes of content or NULL status, except between columns that look NULL |
| RowDifference.RowDiffers | ha_duckdb.cc:399-415 | the loop flags exactly the columns that differ and do not both look NULL |
| RowDifference.FlaggedCovers | ha_duckdb.cc:354-415 | writing only the flagged columns gives the new row if and only if no column falls into the NULL sentinel |
| RowDifference.SentinelIsHuge | ha_duckdb.cc:383-392 | only a column of 4294967295 bytes falls into the sentinel |
| VcolDefs.GetDefaultExpr | convertor/ddl_convertor.cc:130-153 | on every serialised entry list the parser stays inside the bytes and returns the expression of the first DEFAULT entry of the field, or empty text |
| VcolDefs.Layout | convertor/ddl_convertor.cc:130-153 | where the parts of a serialised entry are, byte by byte |
| VcolDefs.FirstDefaultIsFirst | convertor/ddl_convertor.cc:130-153 | the field gets the expression of the first entry of type 2 for it, or nothing |

## Left out

- The SQL text of the statements: a statement is modelled by its effect on a bag of rows; DuckDB's
  parser, window functions, MVCC and appender auto-flush are not modelled.
- Other connections committing between a connection's transactions: one connection is modelled, and
  DuckDB's BEGIN takes a snapshot of the committed tables.
- Tables without a primary key: row-by-row changes of such tables are documented as unreliable.
- The 32-bit type of the temporary row number column: row numbers are unbounded.
- What DuckDB itself keeps of a failed call: it is taken to have no effect, also on the rows an
  appender buffers; whether DuckDB then refuses the rest of a transaction is part of its answers.
- An INSERT or UPDATE with an empty write set, whose text is not SQL.
- An appender that has lost its temporary table while another table of the same buffer name makes
  one: the first would then flush the second's log.
- Pushed-down SELECTs do not flush appenders and are not part of the run theorem.
- A share that is dropped and re-created while ids are being claimed.
- Dates before year 1, and years above 5881580, where the day count leaves 32 bits.
- Character sets: text is a sequence of characters, and white space is that of the C locale.
- The teardown of an unfinished fiber, fiber stacks, and thread-local state.
- DecimalPacking.AppendDecimal: decimals above 38 digits sent as doubles are floating point and not
  modelled. A value comes from a column of its own type, as the handler supplies it: its scale is at
  most nine below the column's (the table of powers ends there) and, scaled to the column, it has no
  more digits than the column.
- BIT columns that keep bits among the null bits.
- The pushdown text rewrites (CONVERT, JOIN, ROLLUP, LIMIT), which are heuristics on raw text.
- DDL convertors, type mapping, time zones, collations, plug-in variables, logging: look-ups and glue.
