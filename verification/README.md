# KumDB in Dafny

KumDB is an embedded database: tables of records in files, hash indexes over byte offsets, constraints and
foreign keys, transactions with savepoints and crash recovery, and an SQL layer on top. This project models the
algorithms that work on state and proves what they promise.

| file | what it models |
|---|---|
| Transactions.dfy | begin, writes, savepoints, commit, rollback and recovery over a directory of files |
| ForeignKeys.dfy | RESTRICT, CASCADE and SET NULL as a depth-capped mutual recursion over many tables; integrity without cycles |
| ForeignKeyActions.dfy | which rows the actions reach, and what exactly becomes of them |
| ForeignKeyCycles.dfy | DELETE on schemas with cycles |
| ForeignKeyFailures.dfy | where references are left dangling by INSERT, UPDATE and DELETE, and exactly when they can be |
| ForeignKeySuccess.dfy | when INSERT, UPDATE and DELETE go through |
| RecordCodec.dfy | the on-disk form of a record, and frames of records in a file |
| Formats.dfy | that form and the hash, byte by byte |
| Storage.dfy | table files, hash chains of offsets, query plans: the index against the scan |
| Constraints.dfy | NOT NULL, UNIQUE, CHECK and DEFAULT on top of a stored table |
| Queries.dfy | what filters, DELETE, UPDATE and CHECK mean, in terms of numbers and strings |
| Values.dfy | values and their comparison |
| SqlRows.dfy | rows of a SELECT, their equality, the order of columns |
| SetOperators.dfy | DISTINCT, UNION, INTERSECT and EXCEPT, in place |
| RecursiveCte.dfy | WITH RECURSIVE by semi-naive iteration |
| WindowFunctions.dfy | what window functions mean, and when their sort keys are ordered |
| WindowPass.dfy | the one pass that computes them over a permutation, ordered keys or not |
| GroupingSets.dfy | GROUP BY, ROLLUP, CUBE |
| Conditions.dfy | WHERE: parser, flattening to filter strings, three evaluations |
| Arithmetic.dfy | arithmetic expressions collapsed in place |
| Lexer.dfy | the lexer, and the re-printing of correlated subqueries |
| Like.dfy, Regex.dfy | LIKE, ILIKE and REGEXP |

How it is put together:

- Files are steps. A data directory is a map from paths to contents. `Transactions.Database` records every
  directory it passes through, and separately those met inside a file copy, so a statement about all recorded
  directories is a statement about a crash at any point, inside recovery too.
- What the source updates in place is a class or an array here, proved against specification functions, and the
  theorems are about those functions.
- Where the code does not do what one would hope, the code is kept. There is a lemma with the input that shows it,
  and one that says exactly when the hope holds: torn backups (`Transactions.TornBackupLosesTable`,
  `RecoveryOfUncommitted`), backups that cannot be deleted (`UndeletedBackupUndoesCommit`), cascades that escape a
  rollback (`RestoreAfterCascades`), long savepoint names (`NewSavepointFound`), DEFAULTs filled in behind the foreign
  key check (`ForeignKeyFailures.InsertKeepsExactly`, `ForeignKeys.AddIntactExactly`), imports that check no key
  (`ImportIntactExactly`), refused ON UPDATE CASCADE (`ForeignKeyFailures.AlwaysKeepsExactly`), cascaded
  pseudo-columns (`SuccessKeepsExactly`; `PassingExactly` says which patches come that far), a SET NULL key to the
  table's own id (`SelfLinkExactly`), RESTRICT (`ForeignKeySuccess.UpdateAllowedExactly`, `DeleteAllowedExactly`,
  with `OrderDecides` for what lies between), oversized records (`RecordCodec.FramesReadBackExactly`), equal values with
  different hashes (`Storage.HashFollowsEquality`, `AnswerAgreesWithScan`), stored NULLs in sort keys
  (`WindowFunctions.OrderedExactly`, `NullsStillSort`), under RANK (`WindowPass.RankExactly`) and under NTILE
  (`TileUndefinedExactly`), stored NULLs in group keys (`GroupingSets.RollupExactly`), missing columns in set
  operators (`SetOperators.ChainRunsExactly`, `ChainCountsExactly`, `UnionCountsExactly`), "OR:" prefixes
  (`Conditions.FlatReadsBack`), long strings and floats with an exponent in re-printed subqueries
  (`Lexer.LiteralReadsBack`, `SubstitutionReadsBack`), and '%' in the text of a LIKE (`Like.RightForEveryPattern`).
- Two conditions are sufficient only: that clearing columns cannot make a DELETE's filter select a row, on schemas with
  cycles other than one SET NULL key to the own id (`ForeignKeyCycles.DeleteKeepsAnySchema`), and that nothing RESTRICTs
  a row a DELETE comes to (`ForeignKeySuccess.DeleteGoesThrough`), where the order of columns decides the rest.
- Numbers compare as doubles: integers are rounded to 53 bits, to nearest and ties to even, and binary64 patterns
  stand for the number they denote. Sums and averages of them are exact.

Row equality is not reflexive (blobs, arrays and objects differ even from themselves, `SqlRows.RowEqualReflexive`);
the statements about set operators and WITH RECURSIVE are about that equality and hold for such rows too.

## Model

| member | source | states |
|---|---|---|
| Transactions.Run | src/kumdb.c:424-872 | For any client (begin, any writes, savepoint calls, then commit, rollback or neither) and any disk: each call ends, and the committed tables are, as for a stack of snapshots of the tables; it commits exactly when no call failed it and a marker it needs can be written. Every directory met on the way recovers to all tables as at begin or to exactly the committed ones; inside a backup copy, to the begin contents exactly when no backup is torn; rollback gives back the begin directory |
| Transactions.WriteTakenExactly | src/kumdb.c:579-633 | A table can be written exactly when the transaction and each savepoint has noted it, or notes fewer than 32 and can copy it if it exists; the write is refused as full exactly when the first level that cannot take it is full |
| Transactions.FewTablesAlwaysFit | src/kumdb.c:579-690 | Over any calls that write at most 32 different tables on a healthy disk, every write ends as the operation itself does or finds the transaction failed before |
| Transactions.Transaction.Do | src/kumdb.c:646-872 | Any one call ends, and leaves what the client sees, as the stack of snapshots says |
| Transactions.Transaction.RollbackToSavepoint | src/kumdb.c:792-843 | After success every table, including which tables exist, is as it was when that savepoint was created; it succeeds exactly when the transaction is open and the name is an active savepoint; deeper savepoints are gone and the failed flag is cleared |
| Transactions.Transaction.Rollback | src/kumdb.c:742-757 | The directory is exactly the one at begin, and every directory on the way recovers to it |
| Transactions.Transaction.Commit | src/kumdb.c:712-740 | It commits exactly when the transaction is open and not failed and the marker can be written or no backup needs one; then only the tables are left, with their final contents, and each directory passed through recovers to the begin or to the committed contents; a marker that cannot be written leaves the transaction open with all tables as they were |
| Transactions.Transaction.FinishCleanup | src/kumdb.c:730-736 | From the marker's write on, every directory on the way recovers to the committed tables, and in the end only those tables are left |
| Transactions.Transaction.Touch | src/kumdb.c:579-633 | Afterwards the transaction and every active savepoint can undo what comes next on the table; no table changes. It ends as the first level that refuses says, and the levels before it track the table |
| Transactions.Transaction.TouchWhole | src/kumdb.c:579-602 | The transaction's own part of that |
| Transactions.Transaction.TouchSavepoint | src/kumdb.c:604-630 | One savepoint level starts tracking the table or says why not, the other levels keep what they know |
| Transactions.Track | src/kumdb.c:580-602 | A level remembers a table once, with a backup if the table exists; it refuses exactly when it is full or the copy fails; only that backup's path changes, also in directories met inside the copy |
| Transactions.Transaction.Mutate | src/kumdb.c:646-690 | Once the table is taken by all levels the operation's writes and status are its own; only the named table changes; any failure marks the transaction failed, and nothing is written once it has failed |
| Transactions.Transaction.CreateSavepoint | src/kumdb.c:767-790 | Writes nothing; each way to be refused has its status (closed or no name, failed, the name taken, the cap reached); the new level carries the name cut to its buffer, and its snapshot is the present directory |
| Transactions.Transaction.ReleaseSavepoint | src/kumdb.c:845-872 | The savepoint and all nested inside it are gone and no table changes |
| Transactions.Transaction.PopSavepoints | src/kumdb.c:698-710 | Only savepoint backups at that depth or deeper disappear; the shallower levels stay as they are |
| Transactions.Transaction.FindSavepoint | src/kumdb.c:760-765 | The first active savepoint of that name, -1 exactly when there is none |
| Transactions.NewSavepointFound | src/kumdb.c:760-790 | A savepoint just created is found under its name exactly when the name fits the buffer it was cut to |
| Transactions.Transaction.Begin | src/kumdb.c:635-644 | From a clean directory: the invariant of all levels holds with nothing tracked |
| Transactions.Transaction.BackedUp | src/kumdb.c:721-728 | The names written to the marker are exactly those with a whole-transaction backup |
| Transactions.RestoreLevel | src/kumdb.c:792-843 | Every table the level tracks is as in its snapshot, its backup gone, all else untouched; every directory on the way has some of them restored |
| Transactions.DropLevel | src/kumdb.c:698-710 | The backups at that depth are gone and nothing else has changed, now or on the way |
| Transactions.Database.Recover | src/kumdb.c:520-569 | Leaves exactly what the directory stood for, with no marker and no backup that fits the name buffer, and every directory on the way, so also after another crash, stands for the same |
| Transactions.Database.FinishCommit | src/kumdb.c:525-534 | With a marker: listed backups and the marker go, and no directory on the way stands for anything else |
| Transactions.Database.RecoverEntry | src/kumdb.c:540-567 | One directory entry: a stray backup is put back or deleted without changing what the directory stands for |
| Transactions.Database.CopyTable | src/kumdb.c:424-451 | A backup is an exact copy, made exactly when the table exists and the disk is healthy, and gone on failure; a crash inside leaves a prefix of it |
| Transactions.Database.Rename | src/kumdb.c:463-474 | One step that moves a file over another, refused exactly when the source is missing |
| Transactions.RecoveryOfUncommitted | src/kumdb.c:536-568 | Before the marker, recovery gives back the begin contents exactly when no backup is torn |
| Transactions.WholeLevelRecovers | src/kumdb.c:579-602 | While the whole-transaction level can undo everything, a crash now recovers the begin contents |
| Transactions.CommittingRecovers | src/kumdb.c:730-736 | Behind the marker recovery gives exactly the committed tables, whichever backups are already gone |
| Transactions.DroppingCommittedBackup | src/kumdb.c:525-534 | Deleting a listed backup changes neither the committed names nor what the directory stands for |
| Transactions.DroppingMarker | src/kumdb.c:505-509 | Deleting the marker once its backups are gone changes nothing either |
| Transactions.DroppingSavepointBackup | src/kumdb.c:410-414 | Savepoint backups never matter to recovery |
| Transactions.PuttingBack | src/kumdb.c:555-567 | Restoring one stray backup keeps what the directory stands for |
| Transactions.RestoringWholeRecovers | src/kumdb.c:742-757 | A crash at any point of a rollback recovers the begin contents |
| Transactions.AfterTableWrite | src/kumdb.c:646-690 | A write to a table every level tracks keeps the invariant of all levels |
| Transactions.AfterRestore | src/kumdb.c:792-843 | Restoring the innermost savepoint keeps the invariant of the outer levels |
| Transactions.MarkerRoundTrip | src/kumdb.c:488-532 | The names read back from the marker are those written exactly when each fits 127 characters, has no newline and does not end in a carriage return |
| Transactions.TornBackupLosesTable | src/kumdb.c:428-443 | The input: a crash right after a backup file is created makes recovery empty the table |
| Transactions.UndeletedBackupUndoesCommit | src/kumdb.c:730-736 | A backup that commit failed to delete makes the next open undo the committed table, harmless exactly if the transaction left that table as it was |
| Transactions.RestoreAfterCascades | src/kumdb.c:579-633 | What a rollback does when a foreign-key cascade has written tables no level noted: it puts the snapshot back exactly when every such table is as it was, and leaves each of them as it is |
| Transactions.CascadeEscapesRecovery | src/kumdb.c:492-569 | The input: a cascade from a backed-up parent to a child table without a backup; recovery restores the parent and keeps the cascaded child |
| ForeignKeys.Database.Delete | src/kumdb.c:2645-2679 | On any schema, and however the engine fetches the affected rows, the new state and status are those of the specified DELETE; on a schema without cycles, when a fetch gives the rows a scan would, references are intact whatever the status |
| ForeignKeys.Database.Update | src/kumdb.c:2595-2643 | On any schema and for any fetch the new state and status are those of the specified UPDATE; without cycles, when a fetch gives the rows a scan would, success keeps references intact when each cascaded value can be matched, failure does when there is no value to cascade, and otherwise nothing dangles but references to the new values |
| ForeignKeys.Database.Add | src/kumdb.c:1562-1603 | The row as given is checked, then completed with its DEFAULTs and stored; references that were intact stay so exactly when every DEFAULT filled into an omitted foreign key has a parent afterwards |
| ForeignKeys.Database.ApplyDefaults | src/table.c:893-907 | The loop fills exactly the missing columns that have a DEFAULT and leaves every other field as given |
| ForeignKeys.Database.Enforce | src/kumdb.c:1124-1237 | On any schema, cycles included, it ends by the depth cap with the status and the tables the specification gives: columns, then affected rows, then referencers, stopping at the first failure |
| ForeignKeys.Database.EnforceColumn | src/kumdb.c:1138-1235 | The loop over the affected rows of one column |
| ForeignKeys.Database.EnforceValue | src/kumdb.c:1166-1234 | The loop over the referencers of one value |
| ForeignKeys.Database.EnforceOne | src/kumdb.c:1177-1233 | One referencer: RESTRICT succeeds exactly without children and changes nothing; SET NULL, ON UPDATE CASCADE and ON DELETE CASCADE recurse one level deeper and then write |
| ForeignKeys.Database.CascadeSetOneField | src/kumdb.c:1077-1106 | Rows that reference the column are dealt with first, then every row with the old value gets the new one |
| ForeignKeys.Database.CheckFkChild | src/kumdb.c:940-1013 | It passes exactly when each non-NULL foreign key value written has a parent row |
| ForeignKeys.Database.FindReferencers | src/kumdb.c:1028-1051 | The referencing columns in schema order, cut off at the cap |
| ForeignKeys.Database.FindInTable | src/kumdb.c:1039-1048 | One table's part of that search |
| ForeignKeys.DeleteKeepsIntegrity | src/kumdb.c:2645-2679 | A DELETE on a schema without cycles keeps references intact whatever its status, also when a cascade fails partway down; the table loses exactly the selected rows or none |
| ForeignKeys.UpdateKeepsIntegrity | src/kumdb.c:2595-2643 | The same for UPDATE, although children carry the new value before the parent does: success with values that can be matched, any status without a value to cascade; a refused one dangles only at the new values |
| ForeignKeys.AppendedIntactExactly | src/kumdb.c:940-973 | Rows appended to intact tables leave references intact exactly when each non-NULL key among them has a parent afterwards, possibly another one of them |
| ForeignKeys.AddIntactExactly | src/kumdb.c:1562-1603 | An INSERT keeps references intact exactly when the DEFAULTs of the foreign keys it omits, filled in behind the check, have parents |
| ForeignKeys.ImportIntactExactly | src/kumdb.c:1605-1661 | A batch import, which checks no foreign key, keeps references intact exactly when every key it stores has a parent in the result |
| ForeignKeys.EnforcedKeeps | src/kumdb.c:1124-1237 | Before the parent is written: no child depends on the values about to go, and references are intact given the values the parent is about to have; only tables below change, and only by NULL, the new value or removal |
| ForeignKeys.OneKeeps | src/kumdb.c:1177-1233 | One action keeps references intact given the promised values and leaves no child with the old one |
| ForeignKeys.SetOneKeeps | src/kumdb.c:1077-1106 | So does the write of one column, which runs before the parent has the value |
| ForeignKeys.AfterDelete | src/kumdb.c:2645-2679 | Deleting parents no child depends on keeps integrity |
| ForeignKeys.AfterPatch | src/kumdb.c:2595-2643 | Patching parents fulfils the promises made to the children, so integrity holds without them |
| ForeignKeys.SetStep | src/kumdb.c:1077-1106 | Writing one referencing column only touches what a step below the parent may touch |
| ForeignKeys.SetReleases | src/kumdb.c:1077-1106 | After the write no child value depends on the old parent value, unless the new one supports it |
| ForeignKeys.ReleasedStays | src/kumdb.c:1166-1234 | A released value stays released through later steps of the recursion |
| ForeignKeyActions.DeleteSparesUnreached | src/kumdb.c:1124-1237 | On any schema and whatever the status, each row that is not selected and references no value the actions can come to is still there, unchanged and in its place |
| ForeignKeyActions.UpdateSparesUnreached | src/kumdb.c:1124-1237 | The same for UPDATE |
| ForeignKeyActions.EnforcedSpares | src/kumdb.c:1124-1237 | Enforcement that starts from values of a closed set leaves alone every row that references none of them |
| ForeignKeyActions.DeleteMeaning | src/kumdb.c:2645-2679 | Without cycles and with keys that are no foreign keys themselves, a successful DELETE removes exactly the selected rows and, transitively, those that reference one by CASCADE, and clears exactly the SET NULL references to such rows; one that fails partway has done part of that and nothing else |
| ForeignKeyActions.UpdateMeaning | src/kumdb.c:2595-2643 | A successful UPDATE patches exactly the selected rows and gives exactly the references to them, by a column it names, the new value or NULL; a refused one has changed some of those references and nothing else |
| ForeignKeyActions.EnforcedMarks | src/kumdb.c:1124-1237 | The invariant behind both: the tables are always the original ones with some of the due changes made, and on success nothing due is left |
| ForeignKeyCycles.DeleteKeepsAnySchema | src/kumdb.c:2645-2679 | On any schema, cyclic or self-referencing, and whatever the status, a DELETE keeps references intact when clearing columns cannot make its filter select a row; it only removes rows and clears columns |
| ForeignKeyCycles.EnforcedFades | src/kumdb.c:1124-1237 | On any schema enforcing a DELETE only removes rows and clears columns, keeps references intact at every point and frees the affected rows |
| ForeignKeyCycles.ColumnIsSteady | src/kumdb.c:175-244 | A filter that wants a value in a column is such a filter |
| ForeignKeyFailures.AlwaysKeepsExactly | src/kumdb.c:2595-2643 | For every schema without cycles and every patch: all UPDATEs keep references intact, refused ones too, exactly when no ON UPDATE CASCADE has a non-NULL value to hand down or no database lets the patch past the child check |
| ForeignKeyFailures.SuccessKeepsExactly | src/kumdb.c:2595-2643 | All successful ones do exactly when no cascaded value is for a pseudo-column or a blob, or no database lets the patch past the child check |
| ForeignKeyFailures.RefusedUpdateDangles | src/kumdb.c:1177-1233 | The input, for each link with a value to cascade: a parent and its child, where the table then refuses the patch; the child keeps the new value |
| ForeignKeyFailures.UnsafeUpdateDangles | src/kumdb.c:1166-1210 | The input, for each link that cascades the value of a pseudo-column or a blob: the UPDATE succeeds and no parent has the value |
| ForeignKeyFailures.CaseRun | src/kumdb.c:1124-1237 | What the modelled UPDATE does on that input: the cascade reaches the one child and nothing else happens before the parent is written |
| ForeignKeyFailures.SelfReferenceDangles | src/kumdb.c:2645-2679 | The input: ON DELETE SET NULL on the table itself changes rows before the filter is evaluated again; the modelled DELETE leaves one row that references a removed one |
| ForeignKeyFailures.SelfLinkExactly | src/kumdb.c:2645-2679 | For one SET NULL key that refers to its own table's id: a DELETE that goes through leaves references intact exactly when no row that keeps its key has a parent that is cleared by it and that the filter selects once cleared |
| ForeignKeyFailures.InsertKeepsExactly | src/kumdb.c:1562-1603 | For every schema: all INSERTs into all intact databases keep references exactly when each foreign key column has no DEFAULT, the DEFAULT NULL, or one by which the inserted row is its own parent |
| ForeignKeyFailures.DefaultDangles | src/kumdb.c:1596-1600 | The input, for each foreign key column with any other DEFAULT: a row that omits the column passes the check and is stored with a value no parent has |
| ForeignKeyFailures.PassingExactly | src/kumdb.c:2595-2643 | Which patches some intact database lets past the child check: exactly those whose every foreign key value written can be some row's value of the column referred to |
| ForeignKeyFailures.UnfetchedDelete | src/kumdb.c:2645-2679 | When the query that finds the affected rows gives none, DELETE removes the selected rows and deals with no child |
| ForeignKeyFailures.MissedRowDangles | src/kumdb.c:2666-2679 | The input, for each link between two tables whose key is not itself a foreign key: a query that misses a row the scan selects lets a successful DELETE leave a child behind |
| ForeignKeySuccess.DeleteGoesThrough | src/kumdb.c:2645-2679 | On any schema, cycles included: a DELETE goes through when no row it comes to by any chain of actions has a child that RESTRICTs it, no chain is as long as the cap, and the tables' own constraints let rows go and the references it clears be cleared |
| ForeignKeySuccess.DeleteAllowedExactly | src/kumdb.c:1124-1237 | Without cycles, at most as deep as the cap, with keys that are no foreign keys themselves: a DELETE goes through when nothing RESTRICTs a row that is to go, and when it goes through, whatever does is to go itself |
| ForeignKeySuccess.OrderDecides | src/kumdb.c:1135-1235 | The input: a child with one key that CASCADEs and one that RESTRICTs; the DELETE takes both rows or is refused, as the order of the two columns has it |
| ForeignKeySuccess.UpdateGoesThrough | src/kumdb.c:2595-2643 | On any schema: an UPDATE goes through when the values it writes have parents and no row RESTRICTs a changed key directly or at the end of a chain within the cap; when it does go through, the first two hold |
| ForeignKeySuccess.UpdateAllowedExactly | src/kumdb.c:2595-2643 | With keys that are no foreign keys themselves, cycles or not: an UPDATE the constraints accept goes through exactly when the values it writes have parents and no row RESTRICTs the change of an affected row's key |
| ForeignKeySuccess.InsertAllowedExactly | src/kumdb.c:1562-1603 | An INSERT goes through exactly when each foreign key given has a parent and the table accepts the row; then the row is there with every field as given and every omitted one as its DEFAULT says |
| RecordCodec.RoundTrip | src/record.c:338-631 | Decoding an encoded record gives it back, taking all its bytes, exactly when it is within the limits |
| RecordCodec.RecordReadsBack | src/record.c:571-631 | Also in front of anything else: it takes exactly its own bytes |
| RecordCodec.TruncatedRecord | src/record.c:571-631 | Every proper prefix of an encoded record is rejected |
| RecordCodec.DecodedRecordFits | src/record.c:468-631 | Whatever bytes are decoded, the result is within the limits |
| RecordCodec.EncodeHasSize | src/record.c:338-373 | The encoding has exactly the announced size |
| RecordCodec.Serialize | src/record.c:438-459 | Writes exactly the encoding at the start of the buffer and nothing else, or nothing at all when the buffer is too small |
| RecordCodec.PutPayload | src/record.c:388-436 | Writes a value's payload at the cursor, nested values included, and nothing else |
| RecordCodec.Deserialize | src/record.c:571-631 | The cursor-driven reader decodes, with every limit check, what the grammar of the format says |
| RecordCodec.GetValue | src/record.c:468-569 | The same for one value at its nesting level |
| RecordCodec.GetItems | src/record.c:520-538 | The loop over array elements reads them one after the other and stops at the first bad one |
| RecordCodec.GetFields | src/record.c:539-561 | The same for the members of an object and the fields of a record |
| RecordCodec.PayloadReadsBack | src/record.c:388-569 | A value within the limits at its nesting level is read back from its own payload |
| RecordCodec.TruncatedPayload | src/record.c:468-569 | A cut payload is rejected at every cut |
| RecordCodec.FramesReadBack | src/record.c:634-689 | Reading a concatenation of frames gives back the records and goes on with what follows |
| RecordCodec.FrameReadsBack | src/record.c:634-689 | One frame in front of anything |
| RecordCodec.FramesReadBackExactly | src/record.c:634-689 | A file of frames below 4 GB each gives back its records exactly when every record is within the limits and the size cap |
| RecordCodec.OversizedHidesTheRest | src/record.c:634-689 | A record over the cap is written but never read again, nor is anything behind it |
| Formats.RecordLayout | src/record.c:438-459 | Where the parts of a record are: the header's fields at their offsets, then names, types and payloads at theirs |
| Formats.LittleEndian | src/record.c:438-459 | Byte i of a number is its digit to the base 256 |
| Formats.TypeCodes | include/internal.h:75-83 | The codes of the types |
| Formats.PublishedHashes | src/index.c:15-58 | The hash gives the published FNV-1a values of "" and "a" |
| Storage.IndexRefinesScan | src/query.c:373-456 | A query through an index returns the same multiset of rows as the scan, given real columns, chains within the lookup's reach, and each stored value either the filter value itself or of its type where the filter value shares its equality with no other value of that type |
| Storage.AnswerAgreesWithScan | src/query.c:373-456 | When exactly it does: no index is used, or the bucket is empty, or every match is in the bucket and among the entries looked at |
| Storage.IndexAgreesWithScan | src/index.c:219-245 | Looking at the first n entries of a bucket finds what the scan finds exactly when every match hashes there and none lies behind |
| Storage.ChainReadsBack | src/index.c:110-146 | Every entry of a chain is the start of its record's frame |
| Storage.EqualKindHashesEqually | src/index.c:15-51 | Two equal values hash the same bytes when they are one value, or of one type and the second is no integer that shares its double with another one and no zero of type FLOAT |
| Storage.HashFollowsEquality | src/index.c:15-51 | That condition on the filter value is exact: all equal values of its type hash the same bytes if and only if it holds |
| Storage.PairThroughIndex | src/query.c:373-456 | Of two rows a filter accepts, the index finds both exactly when their values share a bucket |
| Storage.EqualIntsMissed | src/types.c:408-414 | The inputs: two integers that become the same double and differ in the lowest byte alone; the scan returns both rows, the index one |
| Storage.BigIntMissed | src/types.c:408-414 | The first of them: 2^53 + 1 stored, filter = 2^53 |
| Storage.LowByteSeparates | src/index.c:15-58 | Integers that differ in the lowest byte alone are never in the same bucket, because every hash step is a bijection modulo the number of buckets |
| Storage.EqualValuesHashDifferently | src/index.c:15-51 | The input: 1 and TRUE compare equal; for the filter = TRUE the scan returns both rows, the index one |
| Storage.MatchInBucket | src/query.c:398-426 | Under those conditions every matching record is in the bucket looked up |
| Storage.Table.Execute | src/query.c:373-456 | The rows it returns, through an index or by scan, are those the plan stands for |
| Storage.Table.ScanSelect | src/storage.c:267-291 | The scan meets every record of the file once, in order, and keeps the matching ones |
| Storage.Table.ReadMatching | src/query.c:413-425 | Reads the frames at the offsets and keeps the matching records |
| Storage.Table.Append | src/storage.c:226-255 | The record gets the next id and its frame goes to the end of the file, or nothing happens when the table is full |
| Storage.Table.Insert | src/table.c:1136-1181 | Every index entry still is the start of its record's frame, with the new record last in the file |
| Storage.Table.Rewrite | src/storage.c:304-426 | The new file holds exactly the transformed records that are not deleted, and the next id stays above all ids |
| Storage.Table.Apply | src/table.c:1255-1351 | After update, delete and compact no deleted record is on disk and every index describes the new file |
| Storage.Table.RebuildAll | src/table.c:1279-1283 | Every index describes the file again |
| Storage.Index.Insert | src/index.c:110-146 | The chains become those of the file with one record more |
| Storage.Index.Rebuild | src/index.c:180-216 | From any state the chains become those of the file, by a running offset |
| Storage.Index.Lookup | src/index.c:219-245 | The offsets at the head of the bucket's chain, as many as fit |
| Storage.HashMulti | src/index.c:53-58 | The loop computes the bucket of the values |
| Storage.ChoosePlan | src/query.c:384-451 | An index is used exactly for one group of at most four equality filters that some index covers, with the values in the index's own order |
| Storage.LocateIndex | src/index.c:306-337 | The first index over exactly as many columns that has each filter's column |
| Storage.ReorderValues | src/query.c:400-412 | The first value given for each index column, in index order, if there is one for each |
| Storage.TestQuery | src/query.c:162-194 | A live record matches if some group's filters all hold |
| Queries.ReturnedExactly | src/types.c:582-660 | A query returns exactly the live records of which every filter of some group holds, where >, >=, <, <=, =, <> and BETWEEN are said of the numbers denoted and of strings in dictionary order, with NULL below everything |
| Queries.HoldsExactly | src/types.c:582-660 | One filter on a NULL, number or string |
| Queries.IntegersCompared | src/types.c:582-660 | For integers up to 2^53 those are the comparisons of the integers themselves |
| Queries.SelectInOrder | src/storage.c:267-291 | Records are returned in file order, each as often as it is there |
| Queries.DeletedExactly | src/table.c:1305-1332 | DELETE removes exactly the records of which every filter of some group holds and keeps the others in order |
| Queries.UpdatedExactly | src/table.c:1255-1287 | UPDATE gives exactly those the patch's values and the time and leaves the others as they are |
| Constraints.RunKeeps | src/table.c:1136-1332 | Over every run of insert, batch insert, update, delete and compact, successful or not, a table that satisfies NOT NULL, UNIQUE and all CHECKs still does |
| Constraints.UpdateAllowedExactly | src/table.c:1033-1134 | The check refuses an UPDATE exactly when the patched table would break a constraint, although it only looks at matched rows |
| Constraints.InsertAllowedExactly | src/table.c:958-1014 | The check refuses an INSERT exactly when the table with the row would break a constraint |
| Constraints.ConstrainedTable.Insert | src/table.c:1136-1181 | On the stored table: succeeds exactly when the completed row fits and there is room; constraints and indexes hold afterwards in any case |
| Constraints.ConstrainedTable.InsertBatch | src/table.c:1183-1227 | Stops at the first refused row, keeps the rows before it, constraints hold |
| Constraints.ConstrainedTable.UpdateRows | src/table.c:1255-1287 | Succeeds exactly when the result satisfies the constraints, and is all or nothing |
| Constraints.ConstrainedTable.DeleteRows | src/table.c:1305-1332 | Removes exactly the matched rows; constraints hold |
| Constraints.ConstrainedTable.CheckInsert | src/table.c:958-1014 | The column loop with its count queries decides exactly that |
| Constraints.ConstrainedTable.CheckUpdate | src/table.c:1033-1134 | The loops over columns, matched rows and all rows decide exactly that |
| Constraints.ConstrainedTable.CheckColumn | src/table.c:1048-1099 | One column: NOT NULL on the matched rows, UNIQUE of their effective values against all rows |
| Constraints.ConstrainedTable.CheckRows | src/table.c:1101-1128 | One CHECK on the effective values of the matched rows, NULL passing |
| Constraints.ConstrainedTable.ApplyDefaults | src/table.c:893-907 | DEFAULT fills missing fields only, before any check |
| Constraints.EffectiveIsNew | src/table.c:1056-1064 | The effective value the check compares is the value the row has after the patch |
| Constraints.EqualToFinds | src/table.c:976-991 | The count query finds exactly the rows that clash |
| Constraints.RemovalKeeps | src/table.c:1295-1332 | Dropping rows breaks no constraint |
| Constraints.DefaultsMean | src/table.c:893-907 | A field that is there stays; a missing one gets the DEFAULT of the first column of its name that has one |
| Queries.CheckMeans | src/table.c:1101-1128 | A CHECK holds of a row without a value and of one whose number or string is as it demands |
| Values.EqTransitive | src/types.c:395-427 | Comparing equal is transitive, through nested arrays and objects, on numbers as the doubles they become |
| Values.EqSymmetric | src/types.c:395-427 | Comparing equal is symmetric |
| Values.EqReflexive | src/types.c:395-427 | A value equals itself exactly when there is no blob in it |
| Values.LoneExactly | src/types.c:352-357 | An integer shares its double with no other 64-bit integer exactly below 2^53 in magnitude and, up to 2^54, when it is 2 modulo 4 |
| Values.SameFloat | src/types.c:352-357 | Two binary64 patterns denote the same number exactly when they are the same or the two zeros |
| Values.DoubleIsNearest | src/types.c:352-357 | An integer is compared as the nearest double, of two equally near ones the even one; up to 2^53 as itself |
| Values.FloatPatterns | src/types.c:352-357 | The sign bit negates the number a pattern denotes, a step of the exponent doubles it, and the pattern of 1.0 denotes one |
| Values.Fraction | src/types.c:352-357 | The fraction counts in units of 2^-52 |
| Values.StringsCompare | src/types.c:416-417 | Strings compare in dictionary order: a proper prefix, or the smaller character at the first difference, is less |
| Values.EqExactly | src/types.c:395-427 | Which values compare equal, type by type, arrays and objects element by element |
| Values.FirstUnequalDecides | src/types.c:365-376 | The first elements that are not equal decide between two arrays, and when there are none, the lengths |
| SqlRows.RowEqualReflexive | src/sql.c:4885-4900 | A row equals itself exactly when it holds only NULLs, numbers and strings |
| SqlRows.RowEqualTransitive | src/sql.c:4885-4900 | Row equality is transitive |
| SqlRows.RowEqualSymmetric | src/sql.c:4885-4900 | Row equality is symmetric |
| SqlRows.FieldCmpTransitive | src/sql.c:3661-3671 | On numbers alone and on strings alone the field comparison is an order |
| SqlRows.FieldCmpExactly | src/sql.c:3661-3671 | One field is less than another exactly when both are strings in dictionary order or both numbers and it denotes the smaller |
| SqlRows.FieldEqualExactly | src/sql.c:3650-3657 | Two fields are equal exactly when they are the same string or numbers of one value |
| SqlRows.RowEqualExactly | src/sql.c:4885-4900 | On rows of NULLs, strings, and numbers that share their double with no other, row equality is identity |
| SqlRows.GetExactly | src/kumdb.c:3201-3208 | A column of a row is the first field of its name |
| SetOperators.IntersectionCount | src/sql.c:4930-4957 | INTERSECT ALL keeps min(n, m) of equal rows; without ALL each row in both operands is left once |
| SetOperators.DifferenceCount | src/sql.c:4964-4987 | EXCEPT ALL keeps max(0, n - m) of equal rows; without ALL each row of the first operand only, once |
| SetOperators.SurvivorCount | src/sql.c:4905-4987 | The multiplicity each rule leaves, up to the equality the code has |
| SetOperators.SurvivorsKeepOrder | src/sql.c:4905-4987 | The rows left are exactly the surviving positions, in their original order |
| SetOperators.UnequalRowsSurvive | src/sql.c:4885-4987 | A row with a blob, array or object is in no intersection and is never removed by EXCEPT or DISTINCT |
| SetOperators.RowSet.Intersect | src/sql.c:4930-4957 | The in-place compaction with used flags leaves exactly the intersection |
| SetOperators.RowSet.Except | src/sql.c:4964-4987 | The in-place compaction with used flags leaves exactly the difference |
| SetOperators.RowSet.Dedupe | src/sql.c:4905-4921 | In-place deduplication leaves the first of equal rows |
| SetOperators.RowSet.Compact | src/sql.c:4939-4955 | The loop both share keeps exactly the rows their rule keeps |
| SetOperators.RowSet.Append | src/sql.c:6913-6922 | Concatenation |
| SetOperators.FoundIffSurvives | src/sql.c:4940-4945 | A row finds an unused equal partner exactly when fewer equal rows came before it than the other operand has |
| SetOperators.SelectChain | src/sql.c:6946-7020 | A whole chain of arms of any shape under any operator: it runs through exactly when the first rows agree in width and no arm has a row wider than the first one left before it; then every tuple of values is in the result as often as the operator says exactly under the condition on the names of each |
| SetOperators.ExactChain | src/sql.c:6946-7020 | On such rows, of the same columns, a chain of any length always runs through, and each row is in the result as often as the operators on multisets or sets say |
| SetOperators.ExactSetOperators | src/sql.c:4905-4987 | On such rows INTERSECT ALL and EXCEPT ALL are those of multisets; UNION, INTERSECT and EXCEPT are those of sets and leave no row twice |
| SetOperators.OperatorKeepsApart | src/sql.c:4885-4987 | Each operator takes no two such rows for one that differ anywhere |
| SetOperators.ChainRunsExactly | src/sql.c:6979-6994 | When exactly a chain runs through to the end |
| SetOperators.ChainCountsExactly | src/sql.c:6946-7020 | A chain of any length counts every tuple right exactly when, of the names under which the arms have it: one arm's are contained in each other's (INTERSECT ALL), all arms have exactly one list in common (INTERSECT), and the operator's condition on two arms holds of the first and the later ones together (UNION, EXCEPT) |
| SetOperators.ChainNames | src/sql.c:6946-7020 | On rows told apart by names the chain is the multiset operator, or the one of sets, in closed form |
| SetOperators.ChainCounts | src/sql.c:6946-7020 | In particular every tuple is counted right when the first arm's rows lack only trailing columns, arms of mixed width included |
| SetOperators.UnionAllCounts | src/sql.c:6946-7020 | A UNION ALL that runs through counts every tuple right, whatever the rows lack |
| SetOperators.UnionIsDistinct | src/sql.c:6946-7020 | A UNION deduplicated arm by arm is the UNION ALL of its arms, deduplicated once |
| SetOperators.UnionCountsExactly | src/sql.c:6946-7020 | A UNION counts every tuple right exactly when, in the UNION ALL of the arms, rows of equal values bear equal names |
| SetOperators.OperatorCounts | src/sql.c:4885-4987 | Each operator, ALL or not, counts every tuple right exactly when the names under which either operand has the tuple meet the operator's condition |
| SetOperators.PairExactly | src/sql.c:6946-7020 | Two arms under any operator: when exactly they run through, in terms of the arms, and when exactly every tuple is counted right |
| SetOperators.UnionRuns | src/sql.c:6979-6994 | A UNION runs through exactly when the arms' first rows agree in width and no later row is wider than them |
| SetOperators.ChainRuns | src/sql.c:6979-6994 | For INTERSECT and EXCEPT that is a matter of the arms alone when the first arm's rows are of one width |
| SetOperators.RectangularRuns | src/sql.c:6979-6994 | Arms without missing columns run through exactly when their widths agree |
| SetOperators.WiderRowOverruns | src/sql.c:6896-6907 | The input: a first row that lacks a column and a later row that has it; there is no name to copy for that column |
| SetOperators.MixedNamesMiscount | src/sql.c:4882-4900 | The input: rows of the first arm that lack different columns; equal values stay apart under different names |
| SetOperators.ChainMeaning | src/sql.c:6955-7020 | How often: UNION adds up, INTERSECT ALL takes the least, EXCEPT ALL subtracts the later arms from the first, without ALL once or not at all |
| SetOperators.RenameLike | src/sql.c:6896-6907 | Renames each row's columns after the template's first ones and keeps every value |
| RecursiveCte.LeastFixpoint | src/sql.c:1532-1567 | On convergence of UNION with a union-preserving term, the rows are, as a set, the least one that holds the base and is closed under the term |
| RecursiveCte.AddedRowsDistinct | src/sql.c:1546-1557 | Rows added after the base are pairwise distinct and new to the base |
| RecursiveCte.ConvergesInTime | src/sql.c:1532-1567 | If the closure adds k rows and k + 1 <= 10000, the statement converges |
| RecursiveCte.UnionAllConcatenates | src/sql.c:1532-1567 | UNION ALL returns the base and all rounds up to the first empty one, in order |
| RecursiveCte.UnionAllConverges | src/sql.c:1532-1567 | UNION ALL converges exactly when one of the first 10000 rounds is empty |
| RecursiveCte.Evaluate | src/sql.c:1507-1581 | The loop with its working table and accumulator runs the rounds, with the shape check and the iteration cap as errors |
| WindowPass.Compute | src/sql.c:5213-5457 | Over any permutation of any rows, one pass gives every row what the permutation says it should get, and divides by zero exactly when some NTILE does; on keys the comparison orders that is what the window function means, in terms of sets of rows: ROW_NUMBER, RANK as 1 + rows strictly before, DENSE_RANK as distinct keys up to the row, NTILE's bucket, LAG, LEAD, FIRST_VALUE and LAST_VALUE inside the partition, aggregates over exactly the partition or frame |
| WindowPass.PassCorrect | src/sql.c:5213-5457 | On ordered keys the cell of the pass is what the window function means |
| WindowPass.RunIsBlock | src/sql.c:5285-5313 | On ordered keys the run the pass is in and the end it looks ahead for are the row's partition |
| WindowFunctions.RowNumberAt | src/sql.c:5315-5328 | A row's number is its position in its block of the permutation, and that block is its partition |
| WindowFunctions.RankAt | src/sql.c:5315-5328 | RANK is where the row's group of ties starts |
| WindowFunctions.DenseRankAt | src/sql.c:5315-5328 | DENSE_RANK counts the key changes so far, which are the distinct keys |
| WindowFunctions.NeighbourAt | src/sql.c:5329-5363 | LAG and LEAD never leave the partition and give the default outside |
| WindowFunctions.FrameAt | src/sql.c:5383-5401 | The clipped bounds delimit exactly the rows of the frame, peers included for RANGE |
| WindowPass.FrameAggregate | src/sql.c:5375-5440 | The moving aggregate is the aggregate over exactly the frame's rows, whatever the order |
| WindowPass.TileCorrect | src/sql.c:5364-5372 | Within a partition NTILE's formula gives the bucket that holds the row and never divides by zero |
| WindowPass.TileUndefinedExactly | src/sql.c:5364-5372 | It divides by zero exactly when there are more buckets than rows and the position is past the rows |
| WindowFunctions.TilesCover | src/sql.c:5364-5372 | NTILE's buckets are consecutive, cover the partition and differ by at most one row, the larger ones first |
| WindowPass.FillPartition | src/sql.c:5243-5277 | Backfilling gives every row of the run of equal partition keys the aggregate over that run |
| WindowFunctions.BlockExact | src/sql.c:5173-5195 | In the sorted permutation two rows share a partition exactly when they are in one block |
| WindowFunctions.PeersExact | src/sql.c:5153-5195 | Before a group of ties the order key is strictly less, behind it strictly greater |
| WindowFunctions.ColumnsOrder | src/sql.c:5173-5195 | The multi-column comparison with directions is an order when each column is; for one column nothing less will do |
| WindowFunctions.OrderedExactly | src/sql.c:3661-3671 | The comparison orders a column exactly when it holds only numbers, only strings, or nothing that differs from anything; missing values apart |
| WindowFunctions.SortsExactly | src/sql.c:5173-5195 | There is a permutation to sort into exactly when the comparison, ties broken by position, runs into no cycle |
| WindowFunctions.SortableSorts | src/sql.c:5173-5195 | On keys the comparison orders there always is one |
| WindowFunctions.NullsStillSort | src/sql.c:5173-5195 | With one order column, stored NULLs or not, there is one exactly when no row that ties with both stands between two rows that are the wrong way round |
| WindowFunctions.SortedMeans | src/sql.c:5173-5195 | Of two rows in a sorted permutation the first key to tell them apart has the earlier one's value sooner, or later when descending; when none does, they are in their original order |
| WindowFunctions.WinCmpExactly | src/sql.c:5137-5142 | Sooner is: missing, then strings in dictionary order and numbers by value |
| WindowFunctions.KeyDecides | src/sql.c:5173-5195 | Keys decide in turn, each in its direction |
| WindowFunctions.ExtremeExactly | src/sql.c:5403-5421 | MIN is an argument no other comes sooner than, MAX one that comes sooner than no other |
| WindowFunctions.AccumulatedTallies | src/sql.c:5403-5421 | The accumulators hold count, sum, least and greatest of the rows so far |
| WindowFunctions.NullsBreakTheOrder | src/sql.c:3661-3671 | The input: 2, NULL, 1; no permutation is sorted |
| WindowPass.NullsBreakRank | src/sql.c:5315-5328 | The input: 1, NULL, 2; it is sorted, the pass ranks all three 1, and yet the last has a row strictly before it |
| WindowPass.RankExactly | src/sql.c:5315-5328 | On one order column, ascending or descending, sorted: the pass gives every row 1 + the number of rows strictly before it exactly when the column holds only numbers, only strings, or nothing that differs from anything |
| WindowPass.MixedMisranks | src/sql.c:5315-5328 | In any sorted permutation of a column that does not, some row is misranked |
| WindowPass.NullsBreakTile | src/sql.c:5364-5372 | The input: partition keys 1, NULL, 2 and NTILE(3); the run goes on past the end it was looked ahead for, and the third row divides by zero |
| GroupingSets.RollupConserves | src/sql.c:4592-4658 | A coarser ROLLUP row whose own key holds no stored NULL, blob, array or object is the total of the finer rows it covers, in COUNT and in SUM, whatever the other columns and rows hold |
| GroupingSets.RollupExactly | src/sql.c:4592-4658 | For COUNT(*) that condition on the row's own key is exact |
| GroupingSets.CountConserved | src/sql.c:4592-4658 | For every grouping set COUNT(*) over the groups totals the number of rows |
| GroupingSets.GroupsAddUp | src/sql.c:4592-4658 | Adding up any choice of groups adds up their rows, each once |
| GroupingSets.GroupsAreDistinct | src/sql.c:4592-4619 | Groups have different keys and none is empty |
| GroupingSets.OnlyGroup | src/sql.c:4592-4619 | A row lands in exactly the group with an equal key |
| GroupingSets.NullKeysStandAlone | src/sql.c:3650-3657 | Rows with a stored NULL (or blob, array, object) in the key do not group: each is alone |
| GroupingSets.CubeHasEachSubsetOnce | src/sql.c:6656-6665 | CUBE has each choice of columns exactly once |
| GroupingSets.PicksDiffer | src/sql.c:6656-6665 | Different choices of distinct columns are different sets |
| GroupingSets.GroupingSetsOf | src/sql.c:6633-6672 | The mask loop and the prefix loop produce the sets of CUBE and of ROLLUP, prefixes longest first; too many columns are refused |
| GroupingSets.ComputeAggregates | src/sql.c:4585-4658 | One pass over the group table gives each group its key and tallies, in order of first appearance, one summary row without columns, and an error beyond 512 groups |
| GroupingSets.TallyMeans | src/sql.c:4585-4658 | A group's COUNT is the number of its rows that pass the FILTER and have the argument, its SUM the sum of the numbers these have there |
| GroupingSets.AggregateSets | src/sql.c:6829-6847 | The results of all sets one after the other, or the error if one set has too many groups |
| Conditions.FlatteningPreservesMeaning | src/sql.c:1052-1091 | A condition read without parentheses is an OR of ANDs that means what the tree means, for any leaf test; the flat filters stand for it exactly when no condition but the very first starts with "OR:", the query of the storage engine exactly when none does |
| Conditions.WhereClause | src/sql.c:6794-6806 | The three evaluations as they run agree under those two conditions; the flat one wants every leaf well formed, the query also at most four groups |
| Conditions.ParenFreeShape | src/sql.c:972-1004 | Without parentheses the parser yields an OR-spine of AND-spines written exactly like its input |
| Conditions.SpineReadsBack | src/sql.c:888-1004 | Every such spine of at most 32 conditions is what parsing its text yields |
| Conditions.TreeReadsBack | src/sql.c:888-1004 | A condition of any shape, written with parentheses where it needs them, parses back to itself within the caps on conditions and depth |
| Conditions.Parser.ParseOr | src/sql.c:989-1004 | The cursor-driven parser follows the grammar: OR of ANDs of primaries, with the depth and leaf caps |
| Conditions.Parser.ParseAnd | src/sql.c:972-987 | AND chains, left associative |
| Conditions.Parser.ParsePrimary | src/sql.c:888-969 | A condition, EXISTS, or a parenthesised expression, with the flag that forces tree evaluation |
| Conditions.FilterBuffer.FlattenOr | src/sql.c:1066-1080 | Fills the buffer with the flat form, refused exactly beyond 32 conditions |
| Conditions.CondsMatch | src/sql.c:4246-4260 | True exactly when all filters are well formed and some group holds throughout |
| Conditions.BuildQuery | src/kumdb.c:175-244 | Builds exactly the groups the filters spell, refused exactly when one is malformed or a cap is hit |
| Conditions.QueryMatches | src/query.c:162-194 | Some group holds throughout |
| Conditions.FlatReadsBack | src/sql.c:1052-1080 | The flat evaluation gets the groups of stripped conditions back exactly when no text but the first starts with "OR:"; the query does exactly when none does |
| Conditions.PlainReadsBack | src/sql.c:4246-4260 | When no text inside a group starts with "OR:" the flat evaluation reads the groups with only the very first text stripped, and the query reads them as they are unless that text is prefixed |
| Conditions.FlatMarks | src/sql.c:1052-1080 | Each prefix the flat form puts in opens a group, and so does each that was in a text not opening a group |
| Conditions.GroupsMeaning | src/sql.c:4192-4202 | The tree, whose leaves strip a leading "OR:" of their own, holds exactly when some group of the stripped conditions does |
| Conditions.LeadingOrMatchesAll | src/kumdb.c:184-192 | The input: "OR:" on the first filter makes the query match everything, the flat evaluation ignores it |
| Conditions.PrefixedConditionSplits | src/sql.c:4246-4260 | The input: a condition whose own text starts with "OR:" tears its group apart |
| Conditions.OpeningPrefixStays | src/sql.c:4196-4199 | The input: a prefixed condition after OR gets a second prefix, of which both flat readers take off one and the tree tests the text without any |
| Arithmetic.EvalExpr | src/sql.c:3616-3648 | Collapsing * / % in place and folding + and - gives the value of the chain's precedence tree, for any operators |
| Arithmetic.Precedence | src/sql.c:3616-3648 | Of two operators the first is carried out first, unless it is + or - and the second is *, / or % |
| Arithmetic.UndefinedExactly | src/sql.c:3616-3648 | Undefined exactly when an operand is, or some divisor in the tree comes to zero |
| Arithmetic.ChainOfTree | src/sql.c:3406-3423 | Every chain of terms is the chain of a left-associative precedence tree |
| Arithmetic.TreeOfChain | src/sql.c:3406-3423 | and of no other |
| Arithmetic.CollapseFirst | src/sql.c:3625-3641 | The first tight operator can be carried out where it stands |
| Arithmetic.CollapseAt | src/sql.c:3627-3638 | Shifting the rest down does that in the arrays |
| Arithmetic.ScanEvaluates | src/sql.c:3616-3648 | Reading left to right with one pending product evaluates the tree |
| Lexer.SubstitutionReadsBack | src/sql.c:4016-4087 | Lexing the re-printed subquery gives the original tokens with exactly the outer references replaced by their literals exactly when every literal put in fits a token and has no exponent |
| Lexer.LiteralReadsBack | src/sql.c:3886-3904 | A literal is read back as its value exactly when it fits a token |
| Lexer.DecimalMeans | src/sql.c:3886-3904 | An integer is printed as the digits that denote it |
| Lexer.PrintedReadsBack | src/sql.c:4039-4084 | Printed tokens, one blank apart, read back as those tokens: no comment and no signed number arises |
| Lexer.PieceLexes | src/sql.c:4039-4070 | Each piece reads back as its token, quotes doubled and undoubled |
| Lexer.LexedIsPrintable | src/sql.c:137-224 | What the lexer yields can be printed, but for errors and names cut off after a dot |
| Lexer.SubstituteOuterRefs | src/sql.c:4016-4087 | The loop prints exactly that text |
| Lexer.Scanner.LexNext | src/sql.c:137-224 | The cursor-driven lexer yields the next token and stops right behind it |
| Lexer.Scanner.SkipWs | src/sql.c:113-135 | Skips blanks, line comments and block comments, closed or not |
| Lexer.BlanksAreNoTokens | src/sql.c:113-135 | A blank, a comment up to the end of its line and one up to its closing mark add no token and take none away |
| Lexer.SymbolsAre | src/sql.c:137-224 | The fixed symbols, each as the longest that fits |
| Like.RightForEveryPattern | src/types.c:438-451 | For a text, the matcher is right on every pattern exactly when the text has no '%' |
| Like.RightForEveryText | src/types.c:438-451 | For a pattern, it is right on every text exactly when the pattern has no '%' |
| Like.LikeMatch | src/types.c:438-451 | The greedy loop terminates; what it accepts matches, for every text; without '%' on one side it accepts whatever matches |
| Like.ILikeMatch | src/types.c:456-469 | The same on both sides in lower case |
| Like.LowerExactly | src/types.c:456-469 | Two characters are one letter exactly when they are the same or the two cases of a letter from A to Z |
| Like.ScanComplete | src/types.c:438-451 | Retrying from the last '%' alone misses no match |
| Like.ScanSound | src/types.c:438-451 | Acceptance always means a match |
| Regex.RegexMatch | src/types.c:572-580 | True exactly when some stretch of the text, at the ends the anchors name, is in the language of the pattern |
| Regex.OrdinaryMeans | src/types.c:572-580 | A pattern of ordinary characters matches the texts that contain it, behind ^ those that begin with it, before $ those that end with it, between the two itself alone |
| Regex.MatchHere | src/types.c:533-555 | True exactly when the text here begins with a string of the pattern's language |
| Regex.MatchRepeat | src/types.c:517-531 | Greedy repetition with backtracking tries exactly the counts the quantifier allows |
| Regex.AtomMatches | src/types.c:476-510 | Decides whether a character is in the atom and steps over the atom |
| Regex.ClassMatches | src/types.c:482-503 | The same for a bracketed class with ranges and escapes |
| Regex.HereIsPrefix | src/types.c:533-555 | Matching piece by piece is matching some prefix against the whole language |

## Left out

- Transactions.Database.Unlink: deleting an existing file does not fail here; Transactions.UndeletedBackupUndoesCommit says what a failure comes to.
- Transactions.Database.Rename: fails only for a missing source; other failures of the call are not modelled.
- Transactions.Database.Write: the marker and a table file are written in one step each, because the code writes the marker with one call and tables through a temporary file.
- Transactions.Transaction.Mutate: an operation writes only the table it names; a foreign-key cascade inside a transaction reaches tables that were never backed up, and Transactions.RestoreAfterCascades says what becomes of them.
- Transactions.Transaction.Begin: one transaction at a time, from a directory without leftovers; a table name has at most 127 characters, no newline and no carriage return at its end; the marker's fixed text buffer is not modelled.
- Transactions.Run: tables created during a transaction are not restored away by recovery after a crash (only by rollback); open handles, their cache and locks are not modelled.
- ForeignKeys.Database.Delete: single-column keys, at most 32 referencers a column, one key a column, and none on updated_at (which every UPDATE moves); composite keys are not modelled. How a query fetches its rows is a parameter, because it may go through an index; Storage.AnswerAgreesWithScan says when an index gives what a scan does, and ForeignKeyFailures.MissedRowDangles what happens when it does not. Integrity on schemas with cycles is ForeignKeyCycles.DeleteKeepsAnySchema, for DELETE only.
- ForeignKeys.Database.Update: integrity is claimed for schemas without cycles.
- ForeignKeys.Database.Write: what a table's own constraints say is a parameter here, any function of the old and new rows; Constraints says what it is.
- ForeignKeyActions.DeleteMeaning: keys that are foreign keys themselves are left to DeleteSparesUnreached and to the specification, because there the result depends on the order of columns and tables.
- ForeignKeyActions.UpdateMeaning: the same.
- ForeignKeySuccess.DeleteAllowedExactly: whether a DELETE goes through when what RESTRICTs a row is to go itself is left to the specification, because the order of columns and tables decides (ForeignKeySuccess.OrderDecides).
- ForeignKeySuccess.DeleteGoesThrough: one way only, for the same reason.
- RecordCodec.Serialize: strings and blobs are non-null; the unused bytes of a name and the padding are zero.
- Storage.Table.Append: takes records that fit a frame; RecordCodec.OversizedHidesTheRest says what larger ones do.
- Storage.Table.Rewrite: takes transformed records that fit a frame, for the same reason; the temporary file's own failures are not modelled.
- Storage.Table.Insert: the same as Append.
- Storage.Table.Apply: the same as Rewrite.
- Storage.IndexRefinesScan: chains of at most 1024 entries, filter values of the stored types, integers that share their double with no other one and FLOATs that are not zero unless stored as that very zero, because it fails otherwise (Storage.AnswerAgreesWithScan, Storage.EqualIntsMissed, Storage.HashFollowsEquality); dotted paths into objects, column drop, type change and rename are not modelled.
- Constraints.RunKeeps: a fixed schema whose columns are not named like a pseudo-column; patches name a column once, as record construction ensures.
- Constraints.ConstrainedTable.Insert: rows that fit a frame, as for the stored table.
- Constraints.ConstrainedTable.InsertBatch: the same.
- Constraints.ConstrainedTable.UpdateRows: patched rows that fit a frame.
- Values.EqTransitive: NaN patterns compare as if they were numbers, where the source finds NaN equal to every number.
- SetOperators.RowSet.Intersect: the fallback when the flag array cannot be allocated.
- SetOperators.SelectChain: what the source does when a row is wider than the row it takes names from is undefined and the model stops there; counts of values are right only under SetOperators.ChainCountsExactly's condition (SetOperators.MixedNamesMiscount is an input that fails it).
- RecursiveCte.Evaluate: the CTE's table holds the rows as given (no column cap, no failed insertion); parsing of the statement and the trailing SELECT.
- WindowPass.Compute: the sort is the C library's and comes in as a permutation, sorted or not; the pass stops where NTILE would divide by zero; dotted paths into objects.
- GroupingSets.ComputeAggregates: MIN and MAX (see WindowFunctions), COUNT(DISTINCT), STRING_AGG and HAVING; the text of GROUPING SETS.
- GroupingSets.RollupConserves: coarser rows whose own key holds a stored NULL, blob, array or object, because COUNT(*) fails for each of them (GroupingSets.RollupExactly).
- Conditions.WhereClause: how one condition's text is evaluated is a parameter; EXISTS and subqueries are opaque leaves.
- Lexer.SubstituteOuterRefs: the outer row is a parameter; %g formatting is a parameter too, and only texts without an exponent read back.
- Real file calls, locking, fsync, directory order, Windows branches, out-of-memory paths and error texts.
- Rounding of sums and averages, NaN, timestamps and geo search.
- The NoSQL pipeline, text search, views, joins, scalar functions, RETURNING, the command line and the desktop application.
