# SqlMigrator: the SQL Server back end

This project models the core of `MssqlDatabase`, the SQL Server implementation of SqlMigrator's database interface. It covers four parts:

- **The batch splitter.** `Execute` cuts a migration script into batches with the regular expression `^\s*GO\s*$`, run multi-line and ignoring case, and drops the pieces that hold only white space. Module `BatchSplitter` (file `batch_splitter.dfy`) models this, and module `Text` (file `text.dfy`) supplies .NET's white-space set and line structure. The regular-expression match is modelled exactly:
  - the match starts at a line start;
  - the leading `\s*` takes the whole white-space run, which may span blank lines;
  - then comes `G`/`g` followed by `O`/`o`;
  - the trailing `\s*` gives characters back until `$` holds, at the end of the text or before a line feed;
  - the search resumes where the match ended.
- **All-or-nothing execution.** `Execute` runs the batches in order inside one transaction. It commits when all succeed; at the first failure it rolls back and rethrows. Module `Execution` (file `execution.dfy`) models this:
  - the server's behaviour on a single statement is a function parameter;
  - class `Server` holds the committed state and the state inside the transaction;
  - `Execute` is proved against the reference fold `RunInOrder`.
- **The migrations ledger.** This covers the `Migrations` table, the statements that build it, insert into it and delete from it, `IsMigrationPending` and `GetApplyedMigrations`. Module `Ledger` (file `ledger.dfy`) models it. The table's content is a sequence of rows, read back in sequence order; the model appends inserted rows at the end, an order the server does not promise (see "## Left out"). The server's handling of the insert and the delete is modelled as well: the primary key rejects an id that is already present, and a delete removes the rows with the given id.
- **The statement delimiter.** `GetStatementDelimiter` is modelled in module `Ledger`.

## Model

| member | source | states |
|---|---|---|
| BatchSplitter.LastLineFeed | src/SqlMigrator/MssqlDatabase.cs:101 | the last line feed in a range, with none after it: how far the greedy trailing `\s*` gives back for `$` to hold |
| BatchSplitter.MatchAt | src/SqlMigrator/MssqlDatabase.cs:101 | a match of `^\s*GO\s*$` ends after its start, at the end of the script or just before a line feed |
| BatchSplitter.NextMatch | src/SqlMigrator/MssqlDatabase.cs:101 | the leftmost match at or after the search position: no match starts before it, and none at all when it reports none |
| BatchSplitter.Pieces | src/SqlMigrator/MssqlDatabase.cs:101 | Regex.Split from a search position: the text up to the leftmost match, then the pieces after the match's end; there is always at least one piece |
| BatchSplitter.RegexSplit | src/SqlMigrator/MssqlDatabase.cs:101 | Regex.Split of the whole script by `^\s*GO\s*$` (multi-line, ignoring case); even a script with no match gives one piece |
| BatchSplitter.DropBlank | src/SqlMigrator/MssqlDatabase.cs:101 | the `Where(!IsNullOrWhiteSpace)` filter: a piece is in the result exactly when it is in the input and not white space only |
| BatchSplitter.DropBlankAppend | src/SqlMigrator/MssqlDatabase.cs:101 | the filter works piece by piece and keeps order: filtering a concatenation gives the filtered parts, concatenated in order |
| BatchSplitter.DropBlankSingle | src/SqlMigrator/MssqlDatabase.cs:101 | a single piece is kept exactly when it is not white space only |
| BatchSplitter.Batches | src/SqlMigrator/MssqlDatabase.cs:101 | the batches Execute sends: a text is a batch exactly when it is a piece of the split and not white space only |
| BatchSplitter.DelimiterLineIsMatched | src/SqlMigrator/MssqlDatabase.cs:101 | every line that, trimmed, is GO in any case is matched by the regular expression at its start |
| BatchSplitter.MatchIsDelimiterLine | src/SqlMigrator/MssqlDatabase.cs:101 | every match lies on a delimiter line and covers that GO |
| BatchSplitter.BatchesHaveNoDelimiterLine | src/SqlMigrator/MssqlDatabase.cs:101 | no batch sent to the server contains a GO delimiter line |
| BatchSplitter.BatchesAreNotBlank | src/SqlMigrator/MssqlDatabase.cs:101 | every batch sent holds a character that is not white space |
| BatchSplitter.BatchesKeepContent | src/SqlMigrator/MssqlDatabase.cs:101-104 | the batches, in execution order, carry exactly the script's non-white-space text outside delimiter lines, in order (content and order preserved, nothing duplicated or lost) |
| BatchSplitter.SingleBatch | src/SqlMigrator/MssqlDatabase.cs:101 | a script with no delimiter line and some text is sent as one batch, unchanged and untrimmed |
| BatchSplitter.BlankScriptHasNoBatch | src/SqlMigrator/MssqlDatabase.cs:101 | a white-space-only script sends no batch |
| BatchSplitter.BlankLineBeforeDelimiterIsSwallowed | src/SqlMigrator/MssqlDatabase.cs:101 | `A\n\nGO\nB` splits into `A\n` and `\nB`: the blank line before GO belongs to the match |
| BatchSplitter.BlankLineAfterDelimiterIsSwallowed | src/SqlMigrator/MssqlDatabase.cs:101 | `A\nGO\n\nB` splits into `A\n` and `\nB`: the trailing white space gives back only the last line feed it covered |
| BatchSplitter.CarriageReturnLineEnds | src/SqlMigrator/MssqlDatabase.cs:101 | `A\r\nGO\r\nB` splits into `A\r\n` and `\nB`: the carriage return after GO goes with the match |
| BatchSplitter.GotoIsNotDelimiter | src/SqlMigrator/MssqlDatabase.cs:101 | a line `GOTO x` is not a delimiter, and a GO at the very end leaves no empty batch |
| Execution.RunInOrder | src/SqlMigrator/MssqlDatabase.cs:101-104 | reference semantics of running the batches in order; a reported failure index is the index of a batch |
| Execution.RunInOrderAppend | src/SqlMigrator/MssqlDatabase.cs:101-104 | running two batch lists one after the other equals running their concatenation, with failure indices shifted |
| Execution.AbortedAtFirstFailure | src/SqlMigrator/MssqlDatabase.cs:101-111 | an aborted run completed every batch before the failing one, and the failing batch raised exactly the error that is passed on |
| Execution.CompletedRunsEveryPrefix | src/SqlMigrator/MssqlDatabase.cs:101-105 | a completed run succeeded on every prefix of its batches |
| Execution.RunOneMore | src/SqlMigrator/MssqlDatabase.cs:101-104 | a batch that succeeds after a completed prefix extends the completed run by exactly its new state |
| Execution.RunStopsAt | src/SqlMigrator/MssqlDatabase.cs:101-111 | a batch that fails after a completed prefix aborts the whole run at that batch, with its error |
| Execution.Server.BeginTransaction | src/SqlMigrator/MssqlDatabase.cs:98 | the transaction starts from the committed state |
| Execution.Server.ExecuteNonQuery | src/SqlMigrator/MssqlDatabase.cs:103 | the statement reaches the server; the transaction state advances, or the error is reported and the state is unchanged |
| Execution.Server.Commit | src/SqlMigrator/MssqlDatabase.cs:105 | the transaction's state becomes the committed state |
| Execution.Server.Rollback | src/SqlMigrator/MssqlDatabase.cs:109 | the transaction's changes are discarded |
| Execution.RunBatches | src/SqlMigrator/MssqlDatabase.cs:98-111 | the transaction over a list of batches: all sent in order and committed, or, at the first failure, rolled back to the old committed state, with nothing sent after the failing batch and its error passed on |
| Execution.Execute | src/SqlMigrator/MssqlDatabase.cs:94-113 | on success every batch ran in order and the result is committed; on failure the committed state is unchanged, no batch after the failing one reached the server, and the same error is passed on |
| Ledger.FormatInt64 | src/SqlMigrator/MssqlDatabase.cs:81-86 | the `{0}` rendering of a `long` id: decimal digits, led by a minus sign exactly when the id is negative |
| Ledger.FormatRoundTrip | src/SqlMigrator/MssqlDatabase.cs:81-86 | the decimal text of a `long` written into a statement reads back as the same number |
| Ledger.FormatInjective | src/SqlMigrator/MssqlDatabase.cs:81-86 | distinct ids render as distinct text |
| Ledger.BuildInsertScript | src/SqlMigrator/MssqlDatabase.cs:84-87 | the insert into `Migrations(Id)`, whose value the server reads back as the migration's own id |
| Ledger.BuildDeleteScript | src/SqlMigrator/MssqlDatabase.cs:79-82 | the delete from `Migrations` by Id, whose key the server reads back as the migration's own id |
| Ledger.CountQuery | src/SqlMigrator/MssqlDatabase.cs:56 | the count query on `Migrations` by Id, whose key the server reads back as the migration's own id |
| Ledger.BuildCreateScript | src/SqlMigrator/MssqlDatabase.cs:89-92 | the fixed statement creating table `Migrations`, whose first column is `[Id] BIGINT PRIMARY KEY NOT NULL` |
| Ledger.InsertScriptsDistinguishIds | src/SqlMigrator/MssqlDatabase.cs:84-87 | equal insert statements come from equal ids |
| Ledger.InsertScriptIsOneBatch | src/SqlMigrator/MssqlDatabase.cs:84-87 | executing the insert statement sends exactly it, as one batch |
| Ledger.DeleteScriptIsOneBatch | src/SqlMigrator/MssqlDatabase.cs:79-82 | executing the delete statement sends exactly it, as one batch |
| Ledger.GetStatementDelimiter | src/SqlMigrator/MssqlDatabase.cs:123-126 | the delimiter is a line break followed by a line that is exactly a delimiter line (GO) |
| Ledger.DelimiterMakesDelimiterLine | src/SqlMigrator/MssqlDatabase.cs:123-126 | the delimiter followed by a line break, or by nothing, forms a line that the splitter removes |
| Ledger.Ids | src/SqlMigrator/MssqlDatabase.cs:66-75 | one id per ledger row, in row order |
| Ledger.GetAppliedMigrations | src/SqlMigrator/MssqlDatabase.cs:61-77 | the reader loop returns exactly the ids of the rows, one per row, in read order |
| Ledger.CountRowsWithId | src/SqlMigrator/MssqlDatabase.cs:56-57 | the number of ledger rows whose Id is the given id, the value the COUNT query returns; never more than the number of rows |
| Ledger.CountAtMostOne | src/SqlMigrator/MssqlDatabase.cs:91 | with Id as primary key the count is 0 or 1 |
| Ledger.CountIsMultiplicity | src/SqlMigrator/MssqlDatabase.cs:56 | the COUNT query returns the number of times the id occurs among the applied ids |
| Ledger.IsMigrationPending | src/SqlMigrator/MssqlDatabase.cs:51-59 | pending when the count of ledger rows with the migration's id is below 1 (its meaning is stated by PendingIffNotApplied) |
| Ledger.PendingIffNotApplied | src/SqlMigrator/MssqlDatabase.cs:51-59 | a migration is pending exactly when its id is not among the applied ids |
| Ledger.WithoutId | src/SqlMigrator/MssqlDatabase.cs:79-82 | after a delete, an id remains exactly when it was present and is not the deleted id |
| Ledger.WithoutIdKeepsOtherRows | src/SqlMigrator/MssqlDatabase.cs:79-82 | a DELETE by Id keeps exactly the rows whose id is another one |
| Ledger.WithoutIdKeepsKeyUnique | src/SqlMigrator/MssqlDatabase.cs:91 | deleting rows keeps the primary key on Id unique |
| Ledger.RunLedgerStatement | src/SqlMigrator/MssqlDatabase.cs:79-92 | not source code: a model of how SQL Server runs the ledger insert and delete on the table that BuildCreateScript declares (duplicate or out-of-range id rejected, new row gets the session's defaults, delete removes the rows with the id) |
| Ledger.RunLedgerStatementKeepsKey | src/SqlMigrator/MssqlDatabase.cs:91 | whatever statement the server runs on the ledger, the primary key on Id stays unique |
| Ledger.InsertRecordsMigration | src/SqlMigrator/MssqlDatabase.cs:84-92 | the insert succeeds exactly when the migration is pending; then the ledger's ids gain exactly one occurrence of its id (as multisets), the key stays unique and the migration is no longer pending; where the model places the new row is its own choice (see "## Left out") |
| Ledger.DeleteForgetsMigration | src/SqlMigrator/MssqlDatabase.cs:79-92 | the delete succeeds, makes the migration pending again, keeps every other id and keeps the key unique |

## Left out

- Connections, `OpenConnectionAndChangeDb`, `CreateDatabase`, `DropDatabase` and `MigrationsTableExists` are left out. They are driver I/O against the server catalog.
- The command timeout is not modelled separately. A statement that times out is one more way for a statement to fail (`Failed`).
- An exception raised by opening the connection, by `Commit` or by `Rollback` itself is not modelled. In the model these always succeed.
- Server.ExecuteNonQuery: a failing batch leaves the transaction's state as it was. On SQL Server a batch that fails part-way can keep the effects of its earlier statements inside the open transaction. No proved property depends on this, because the rollback that follows discards them.
- Server.ExecuteNonQuery: a batch that itself runs `COMMIT` or `ROLLBACK TRANSACTION` changes the committed state outside the modelled transaction. This is not modelled; the committed state changes only through `Commit`.
- Culture-dependent formatting of ids is assumed to use the invariant culture: an ASCII minus sign, then decimal digits. Culture-specific rules for ignoring case beyond ASCII G/O are not modelled.
- IsMigrationPending: the `(int)` cast of the COUNT result is not modelled. The count is an unbounded natural.
- The runner that joins a migration's script, the delimiter and the ledger insert into one `Execute` call is not part of this model. So atomic pairing of a script with its ledger row is proved only for `Execute` on a given text, not end to end.
- RunLedgerStatement: the model appends an inserted row after the existing ones, so `GetAppliedMigrations` reads ids in insertion order. `SELECT Id FROM Migrations` has no ORDER BY, so SQL Server promises no order, and a scan of the clustered primary key usually returns rows in Id order. Only the multiset of ids returned is a server promise; the sequence order is the model's choice.
- Concurrent sessions and isolation levels are not modelled. The committed state changes only through the modelled transaction.
- BuildCreateScript: the statement text is modelled, and its meaning is modelled by the server's treatment of the ledger (`RunLedgerStatement`: primary key on Id, defaulted Date/User/Host). There is no lemma that it is sent as a single batch.
- The defaults `GETDATE()`, `SUSER_NAME()` and `HOST_NAME()` come from a `Session` parameter, since they are the server's clock and identity.
- SQL statements other than the ledger insert and delete are not interpreted. The server's effect on the database is an abstract function parameter.
- A simpler description of the splitter would say that batches are trimmed and that only the GO line itself is removed. The model follows the code instead:
  - a script without a delimiter is sent untrimmed;
  - blank lines just before a GO line are consumed by the match;
  - the blank lines after it are consumed too, except that the last line feed stays with the next batch.
