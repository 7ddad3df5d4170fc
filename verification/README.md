# Verified model of the SurrealDB driver for GORM

The driver compiles the SQL that GORM builds into SurrealQL and executes it. Most of what can go
wrong lies in its rewritings: they work on the text of statements, they visit Go maps in an order
that is not fixed, and they rely on conditions that nothing checks. This project models the
rewritings, the two kinds of transaction, the migrations, the edge tables and the value
conversions, and proves what each of them keeps. Where the code keeps less than it is meant to,
a lemma says exactly when it does, and another shows a case in which it does not.

`dafny verify dfyconfig.toml` checks the whole project.

## Modules

| file | what it models |
|---|---|
| `RawTransaction.dfy` | the raw transaction builder: namespacing of `$name` placeholders by a regular expression, key by key, and the block that is sent |
| `TransactionBlock.dfy` | a whole raw transaction, from the caller's function to what the server commits |
| `InteractiveTransaction.dfy` | the open and closed interactive transaction next to the shared connection |
| `FindById.dfy`, `FindByIdList.dfy` | lookups by record id and by a list of record ids, as text replacements and as rows |
| `FindByIdComparison.dfy` | which other comparisons are taken for a lookup by record id, and what becomes of them |
| `IdListSearch.dfy`, `ConjunctText.dfy`, `OrderClause.dfy` | the regular expression of an id list; dropping a conjunct and an order by id from a text |
| `CountRewrite.dfy` | counts over a JOIN with an edge table |
| `LimitInlining.dfy` | OFFSET, LIMIT and START |
| `ExecRewrite.dfy` | raw UPDATE and DELETE statements |
| `Migration.dfy`, `SchemaFields.dfy`, `VectorIndex.dfy` | AutoMigrate; what it leaves in the schema, field by field; parameters of vector indexes |
| `RenameField.dfy` | renaming a field in up to four statements |
| `EdgeRegistry.dfy`, `EdgeAssociation.dfy` | the alias table of edge tables; association operations on a bag of edges |
| `Preload.dfy` | preloads as FETCH paths |
| `Geometry.dfy` | geometries to and from the SDK |
| `RowCursor.dfy` | the row cursor of the database/sql layer |
| `FilePointer.dfy` | file pointers `bucket:/key` |
| `Store.dfy`, `Text.dfy` | tables and rows; the parts of Go's `strings` and `fmt` that are used |

Methods and loops of the source are methods and loops here, each proved equal to a function of its
inputs or of the old state; the lemmas are about these functions. The iteration order of a Go map
is a ghost result or an argument over which every lemma quantifies.

## Where the code and its documentation differ

The model follows the code.

- `SurrealTx.ExecContext` is documented to behave as on the shared connection
  (transaction.go:44-46), but it reports 0 rows for every statement other than a relation
  (transaction.go:89-96): `RowCountsExact`.
- `Tx.Exec` is documented to namespace all named placeholders (transaction.go:145-146). It misses
  the second of two directly repeated ones, because a match consumes the character behind the
  name, and a key that is the renamed form of another key is renamed twice or once, depending on
  the map order: `RepeatMissed`, `ExecExact`, `ChainShowsOrder`, `ChainFreeExact`.
- An INSERT into an edge table with two record ids becomes a relation between them alone, on either
  connection: its further columns are lost (transaction.go:66-70, driver.go:43-47): `WriteLands`,
  `DirectWriteLands`.
- `Association("X").Replace(&y)` is documented for one value (callback_edge.go:107), but a value
  that is no slice is never read and the owner ends with no edge: `ReplaceLeavesGiven`. All three
  callbacks ignore the name of the relation: Delete and Replace take the first edge relation whose
  owner has an id, and Count stops at the first edge relation, even if its owner has none:
  `NamedRelationReached`, `CountedRelationReached`.
- A lookup by id is recognised by the text `id = $p1` (callback_query.go:143). The comparison of any
  column whose text ends in `id` passes (`ComparisonExact`, `ForeignKeyCaptured`). So does
  `id = $p10` behind a first variable that is a record id: FROM is redirected to that variable, and
  the digits behind `$p1` are left in the text (`WholeCutExact`, `LaterParameterTorn`). What follows
  an order by id stays behind (`OrderRemnantExact`, `DescendingDangles`), and the table of the record
  id is not compared with the table of the statement (`ForeignIdExact`).
- The regular expression of an id list has no left boundary (callback_query.go:19). A list over any
  column whose text ends in `id`, and a negated one, redirects FROM to the listed records and
  keeps its predicate: `ListComparisonExact`, `ForeignListCaptured`, `NegatedListCaptured`.
- The count rewriting drops further ON conditions, and for a count FROM the edge table also JOIN
  and WHERE (executor.go:103, 128-151): `ExtraConditionLost`, `EdgeCountExact`. A join under an
  alias of the edge table is not rewritten: `AliasNotRewritten`.
- An inlined LIMIT or START parameter is removed even if the statement uses it again
  (executor.go:215-217): `InliningKeepsClosed`.
- The id filter of an UPDATE recognises `id =` with exactly one blank before the sign
  (driver.go:115). The last ` where ` ends its SET text (driver.go:103), so with a subquery in the
  condition an outer condition behind an id assignment is removed too. An empty SET clause makes a
  slice run out of range (driver.go:106): `IdAssignmentExact`, `FurtherWhereExact`,
  `OutOfRangeExact`, `EmptySetPanics`.
- Renaming a field again after an interruption behind the UNSET statement wipes the moved value
  unless a rejected definition stops the second run first, which an unanswered INFO prevents; and
  so does renaming a field to itself: `RestartExact`, `TwiceExact`, `SameNameDestroys`.
- AutoMigrate of two models of one missing table fails, since the tables are read once
  (migrator.go:31-32); two fields of one column name end differently in a new and in an existing
  table: `AutoMigrateExact`, `SameTableTwiceFails`, `SecondRunExact`, `SameNameTwiceUnstable`.
- A default value is put between quotes with its quotes escaped, but not its backslashes
  (migrator.go:367-369): the schema ends with the model's default if and only if that has none:
  `DefaultExact`, `MigratedDefault`.
- The parameters of a vector index are documented to come out as `DIST EUCLIDEAN` for
  `dist=euclidean` (migrator.go:511), but the letters of a value stay as they are: `OptionRead`.
- A geometry collection does not survive the way to the SDK and back: the conversion yields
  pointers, and Scan converts values only: `CollectionTripExact`, `DecodedItemExact`.
- A scalar row behind documents leaves the other columns of the row before it in the destination
  (sqldriver.go:189-192): `RowIndependentExact`.
- A file object without a key is read with the key `<nil>` (types/file.go:101-104): `JsonExact`.
- Parsing the text `f"` slices out of range (types/file.go:123-124): `OutOfRangeExact`.

## Model

| member | source | states |
|---|---|---|
| `RawTransaction.LexReplace` | transaction.go:153-154 | One pass of the regular expression over any string renames exactly the whole placeholders of that name, except one that directly follows a renamed one; longer names and all other text stay. |
| `RawTransaction.KeyInjective` | transaction.go:152 | Two merged parameter keys are equal only if both the call number and the caller's name are. |
| `RawTransaction.PassesRename` | transaction.go:151-156 | For every map order, renaming key by key equals the simultaneous renaming if and only if no key's placeholder is directly repeated; for every statement none of whose placeholders is renamed to another key. |
| `RawTransaction.ChainShowsOrder` | transaction.go:151-156 | With two keys, one the renamed form of the other, two map orders give two different statements. |
| `RawTransaction.ChainFreeExact` | transaction.go:151-156 | For every set of keys, the loop renames all statements without direct repeats as meant in every map order if and only if no key is the renamed form of another. |
| `RawTransaction.RepeatMissed` | transaction.go:153-154 | In `$k$k` the second placeholder keeps the caller's name. |
| `RawTransaction.RunMerges` | transaction.go:147-159 | After any sequence of calls there is one rewritten statement per call, and the merged parameters hold every call's values under their own keys and nothing else. |
| `RawTransaction.ExecExact` | transaction.go:147-159 | For every run and every map order, a rewritten statement under the merged parameters means what the caller's statement means under the caller's parameters, if and only if it repeats no key's placeholder directly and no placeholder the caller left unbound is a merged key; provided no placeholder is renamed to another key of the call and no directly repeated name is itself a merged key of the same value. |
| `RawTransaction.ExecKeepsMeaning` | transaction.go:147-159 | The same as one condition for a statement without captured placeholders: meaning is kept if and only if it repeats no key's placeholder directly; provided no placeholder is renamed to another key of the call and no directly repeated name is itself a merged key of the same value. |
| `RawTransaction.ExecCaptureExact` | transaction.go:147-159 | And for a statement without direct repeats, none of whose placeholders is renamed to another key of the call: meaning is kept if and only if no placeholder the caller left unbound is a merged key. |
| `RawTransaction.Tx.Exec` | transaction.go:147-159 | A call renames, merges and counts for some order of its parameter map, and does nothing once an error is recorded. |
| `RawTransaction.Tx.FullQuery` | transaction.go:195-209 | Nothing is sent without statements; otherwise the text is `BEGIN TRANSACTION;`, each trimmed statement with one semicolon on a line of its own, `COMMIT TRANSACTION;`. |
| `RawTransaction.TerminateExact` | transaction.go:202-205 | Of a statement exactly the blanks, tabs and line ends at its end go, and one semicolon ends it. |
| `RawTransaction.TerminateMeaning` | transaction.go:202-205 | Trimming and ending a statement changes only the white space and the semicolon at the end of its meaning. |
| `RawTransaction.BlockKeepsMeaning` | transaction.go:195-211 | When no statement of the run has a direct repeat, a placeholder renamed to another key of its call, or an unbound placeholder that is a merged key, the one query sent, under the merged parameters, means BEGIN, then every caller's statement under the caller's own parameters in call order, then COMMIT. |
| `TransactionBlock.Transaction` | transaction.go:176-221 | A whole transaction on a server that may reject any command: for a run that meets these conditions, and whose statements begin, commit or cancel no transaction of their own, it reports success if and only if every command is accepted behind the ones before it; then exactly the commands the caller means are committed, under the caller's own parameters and in order, and else none. Nothing is sent when the function fails or adds no statement. |
| `TransactionBlock.BlockIsAtomic` | transaction.go:195-221 | The same about the text that is sent and the merged parameters. |
| `TransactionBlock.UncommittedLeavesNoTrace` | transaction.go:197-208 | A block that does not end in a commit, or ends in a cancel, commits nothing. |
| `InteractiveTransaction.SurrealTx.ExecContext` | transaction.go:47-97 | A closed transaction errors; an INSERT into an edge table with two record ids becomes a relation of the canonical table and reports one row; any other statement takes effect on the transaction and reports none. |
| `InteractiveTransaction.SurrealTx.Commit` | transaction.go:116-121 | An open transaction puts its writes over the committed records and closes; a closed one does nothing and reports no error. |
| `InteractiveTransaction.SurrealTx.Rollback` | transaction.go:124-129 | An open transaction closes without a trace; a closed one does nothing and reports no error. |
| `InteractiveTransaction.ExecTxQuery` | executor.go:20-38 | A built statement goes, as it is, to the transaction when the statement's pool is one, else to the shared connection. |
| `InteractiveTransaction.Connection.ExecContext` | driver.go:29-89 | A raw statement on the shared connection: an INSERT into an edge table with two record ids becomes a relation and reports one row; any other takes effect and reports the rows the server returned. |
| `InteractiveTransaction.OpenRun` | transaction.go:47-97 | Over every run without a closing call, the shared records change by shared statements only, the snapshot stays, and the transaction holds exactly its last write of each key. |
| `InteractiveTransaction.ReadsOwnWrites` | transaction.go:25-27 | A read in the transaction sees the run's own last write of the key, and otherwise the record as it was at BEGIN. |
| `InteractiveTransaction.ClosedRefuses` | transaction.go:48-50 | In every closed state each statement errors and changes nothing, and Commit and Rollback change nothing. |
| `InteractiveTransaction.ClosedRun` | transaction.go:116-129 | Once closed, a transaction has no further effect over any run: at most one closing call counts. |
| `InteractiveTransaction.RunIsAtomic` | transaction.go:115-129 | With the first closing call a commit, all writes appear at once at that point; with a rollback, the records are as if the transaction had never been. |
| `InteractiveTransaction.UnclosedLeavesNoTrace` | transaction.go:25-27 | A run that never closes leaves the committed records to the shared statements. |
| `InteractiveTransaction.RowCountsExact` | transaction.go:44-97 | For every statement over all records, the row counts inside an open transaction and outside agree if and only if it is a relation, a read of a missing record, a deletion, or a write that returns nothing. |
| `InteractiveTransaction.WriteLands` | transaction.go:47-97 | For every history of edge registrations and every run, a raw write on the open transaction leaves its record under the key it names and nothing else changes; an INSERT of two record ids into any spelling of an edge table leaves an edge between the two, under the name registered last for that spelling or its plural, and reports one row. A commit puts it there for good. |
| `InteractiveTransaction.DirectWriteLands` | driver.go:29-89 | The same on the shared connection, at once. |
| `InteractiveTransaction.BuiltWriteLands` | executor.go:20-38 | A statement GORM built writes the key it names, on either side, and never becomes a relation. |
| `FindById.Statement.OptimizeFindByID` | callback_query.go:128-170 | The guards and the fourteen replacements, in order, on the built statement; it changes only if its first variable is a record id, it has a table, and both FROM with that table and one of the two id texts stand in it. |
| `ConjunctText.ApplySteps` | callback_query.go:146-160 | A sequence of reassignments by text replacement is the composition of the replacements. |
| `FindById.DropIdExact` | callback_query.go:146-157 | Of the ten replacements exactly one acts on a located id conjunct, whatever its spelling and place, and what is left is the clause without it. |
| `FindById.LookupBecomesDirect` | callback_query.go:128-169 | The whole optimiser turns a printed lookup, up to blanks, into direct access with the remaining conjuncts and no order by id: with every text behind such an order, and with every other order or clause. |
| `FindById.OrderRemnantExact` | callback_query.go:159-160 | After an order by id is dropped, the statement is direct access with the later clauses only if and only if the id had neither a direction nor further columns behind it; any such text stays. |
| `FindById.NoOtherParameter` | callback_query.go:143-157 | The condition of that theorem holds when no other `$` stands before the later clauses and no `$p1...` in them. |
| `FindById.DescendingDangles` | callback_query.go:159-160 | A descending order by id leaves the word DESC. |
| `FindByIdComparison.ComparisonExact` | callback_query.go:136-166 | For `WHERE cond = $p1...` with any condition before the sign, any text behind it and any variables: the statement changes if and only if the first variable is a record id and the condition ends in `id` or in the quoted `id`. FROM is then redirected, an id conjunct at the end of the condition is cut off, an `AND id` without a blank before it is joined with the next conjunct, any other condition stays, an order by id goes but for its blank, and doubled blanks are halved. Provided the two texts `id = $p1` stand at this comparison only, before and after FROM is redirected, and neither they nor an order by id arise where text is cut. |
| `FindByIdComparison.DropExact` | callback_query.go:146-157 | What the ten replacements do to any text with one such comparison at its sign: the cut of an id conjunct, the joining behind an `AND` without a blank, or nothing. |
| `FindByIdComparison.StaysExact` | callback_query.go:146-157 | The comparison stays, up to blanks, if and only if the text before its sign ends in no id conjunct and in no `AND id` in front of a further AND. |
| `FindByIdComparison.WholeCutExact` | callback_query.go:146-157 | An id conjunct is cut off with its whole parameter, up to blanks, if and only if no further digit follows `$p1`. |
| `FindByIdComparison.LaterParameterTorn` | callback_query.go:131-166 | With a record id as first variable, an id conjunct on a later parameter such as `$p10` redirects FROM to the first variable, is cut off, and leaves the digits behind `$p1` in the text. |
| `FindByIdComparison.SignOnce` | callback_query.go:143-157 | The texts `id = $p1` stand at one comparison only when no other `= $p1` stands before or behind it. |
| `FindByIdComparison.CutLeavesNoKey` | callback_query.go:146-157 | No such text arises where an id conjunct is cut off in front of nothing or of a clause. |
| `FindByIdComparison.ColumnExact` | callback_query.go:136-166 | On the same statements, for a column and a table name without blanks, with any text behind the parameter: untouched, direct access, or the compared record under its own condition, by the first variable and the name of the column. |
| `FindByIdComparison.ForeignKeyCaptured` | callback_query.go:136-166 | On these statements, a comparison of a column ending in `_id` with a record id redirects FROM to that record and keeps the comparison and all behind it but an order by id. |
| `FindById.LookupKeepsRows` | callback_query.go:128-169 | On the id's own table both statements select the same rows, at most one, for every store and all conjuncts. |
| `FindById.ForeignIdExact` | callback_query.go:131-144 | With an id of another table they agree if and only if that record does not exist or fails the conjuncts. |
| `IdListSearch.MatchSound` | callback_query.go:17-19 | Every match of the regular expression is a name of the id column in front of a list. |
| `IdListSearch.MatchComplete` | callback_query.go:17-19 | Every such name in front of a list is a match, with exactly this list. |
| `IdListSearch.NameAtEnd` | callback_query.go:19 | A text has such a name at its end if and only if it ends in `id`, maybe with a backtick. |
| `IdListSearch.SearchHit` | callback_query.go:33-38 | In a statement with one list the leftmost match starts at the longest name in front of the list and covers name and list. |
| `IdListSearch.FindPlacesPrinted` | callback_query.go:41 | In a printed list the second expression finds exactly the placeholders, in order. |
| `FindById.Statement.OptimizeFindByIDList` | callback_query.go:28-69 | The search, the guards, and the replacements of FROM, predicate and outer blanks, in order. |
| `FindById.CheckPlaces` | callback_query.go:45-55 | The loop accepts a list if and only if each of its placeholders is bound to a record id. |
| `FindById.ListGuards` | callback_query.go:28-55 | Every statement that is changed has a table and a list whose placeholders are all bound to record ids. |
| `FindByIdList.NoOtherListParameter` | callback_query.go:33-65 | The text of the list stands once in the statement when no other parameter does. |
| `FindByIdList.SearchFinds` | callback_query.go:32-38 | When no match starts before it, the search finds the printed list conjunct of the statement, whole. |
| `FindByIdList.NoEarlierList` | callback_query.go:19 | No match starts before it when no earlier list follows a text ending in `id`. |
| `FindByIdList.ListBecomesDirect` | callback_query.go:28-69 | A printed lookup by a list of record ids is found and becomes, up to blanks, direct access to the listed places with everything else kept. |
| `FindByIdList.ListRewriteExact` | callback_query.go:23-69 | The same together with the rows: for the ids bound to the listed places, both statements select the same bag if and only if every record that qualifies belongs to the table and is listed once. |
| `FindByIdList.MatchDroppedExact` | callback_query.go:61-64 | The text of a match is dropped if and only if it is a whole conjunct: the text before it ends in WHERE or AND. |
| `FindByIdList.ListComparisonExact` | callback_query.go:28-69 | For every statement with one list, over any column text, FROM is redirected if and only if that text ends in `id`, maybe with a backtick, and the predicate is then dropped if and only if the text before its name ends in WHERE or AND. |
| `FindByIdList.ListColumnExact` | callback_query.go:28-69 | For a single column: untouched, direct access, or the listed records under the predicate, by the name of the column. |
| `FindByIdList.ForeignListCaptured` | callback_query.go:19-64 | A list over a column ending in `_id` redirects FROM to the listed records and keeps the predicate. |
| `FindByIdList.NegatedListCaptured` | callback_query.go:19-64 | So does `NOT id IN`. |
| `FindByIdList.ListKeepsRows` | callback_query.go:23-27 | For every list of ids, the two statements select the same bag of rows if and only if every record that qualifies belongs to the table and is listed once. |
| `FindByIdList.ListKeepsRowSet` | callback_query.go:23-27 | With repeated ids of the table they select the same set of rows. |
| `CountRewrite.FindOwner` | executor.go:87-106 | The search prefers `in` over `out` and finds the first comparison with a parameter. |
| `CountRewrite.OwnerExact` | executor.go:87-106 | The owner is the first `in` compared with a parameter and only without one the first `out`; there is none if and only if neither is compared. |
| `CountRewrite.UnchangedExact` | executor.go:77-157 | A count is left alone if and only if FROM names no edge table or no endpoint is compared at all, and JOIN names none or none is compared under its canonical name. |
| `CountRewrite.RewriteCount` | executor.go:77-157 | The two cases with their guards: FROM an edge table first, then a joined edge table, else unchanged. |
| `CountRewrite.TraversalCountsPairs` | executor.go:135-151 | What a traversal reaches, filtered, counts the pairs of an owner's edge and its other record, for every bag of edges, dangling ones included. |
| `CountRewrite.AssociationIsTraversal` | executor.go:110-156 | The count GORM builds for an association becomes the traversal from the owner in the owner's direction. |
| `CountRewrite.AssociationCountExact` | executor.go:110-156 | The traversal count is never below the join count and equal to it if and only if no further ON condition rejects a pair. |
| `CountRewrite.StandardAssociationExact` | executor.go:110-156 | With the two standard ON conditions, join count and traversal count are equal for every graph and every filter on the record. |
| `CountRewrite.ExtraConditionLost` | executor.go:128-151 | A soft-delete condition on the edge in ON is lost: one deleted edge is counted. |
| `CountRewrite.AliasNotRewritten` | executor.go:116-127 | A join whose name is only an alias of the edge table stays unrewritten. |
| `CountRewrite.EdgeCountExact` | executor.go:82-108 | A count FROM an edge table under any of its names counts the owner's edges in the canonical table. It is never below the count of the same statement over that table and equal to it if and only if each edge of the owner joins a record that passes all conditions. |
| `LimitInlining.TranslateOffset` | executor.go:161-162 | Every OFFSET becomes START and nothing else changes. |
| `LimitInlining.InlineLimits` | executor.go:209-221 | The pass over the matches with a shrinking parameter map. |
| `LimitInlining.InlineExact` | executor.go:209-221 | Exactly the first LIMIT or START place of each bound parameter is printed in place, and exactly those parameters are removed. |
| `LimitInlining.SentTokens` | executor.go:161-221 | Token by token: no OFFSET is left, the first place of a bound parameter behind LIMIT, START or OFFSET is printed, nothing else changes, and no place behind LIMIT or START still has its parameter. |
| `LimitInlining.InliningKeepsMeaning` | executor.go:161-221 | The statement keeps its meaning if and only if each inlined parameter stands once in the statement and is an integer. |
| `LimitInlining.InliningKeepsClosed` | executor.go:189-221 | Placeholders and parameters still agree if and only if each inlined parameter stands once. |
| `ExecRewrite.FilterParts` | driver.go:111-119 | The loop keeps, in order, the parts that are no id assignment. |
| `ExecRewrite.RewriteExecSQL` | driver.go:96-134 | Both rewritings with their guards; the slice out of range is reported as such. |
| `ExecRewrite.UpdateExact` | driver.go:96-134 | The result of the whole rewriting is the print of the same target and condition with the kept parts; for updates whose parts hold no comma and whose own SET and WHERE are the first ` set ` and the last ` where ` of the text. |
| `ExecRewrite.IdAssignmentsRemoved` | driver.go:91-95 | For these updates target and condition stay, and the assignments are the old ones without those of the id, in order. |
| `ExecRewrite.FurtherWhereExact` | driver.go:101-119 | With a further WHERE in the condition all text before the last one is read as assignments: of the outer condition, the part up to its first comma goes with the last assignment if and only if that is one of the id. |
| `ExecRewrite.TwiceIsOnce` | driver.go:98-123 | Rewriting the rewritten update changes blanks only; for updates with no comma in a part and no further ` set ` or ` where ` in target, parts or condition. |
| `ExecRewrite.IdAssignmentExact` | driver.go:114-117 | An assignment, with any white space before its `=` and any value, is removed if and only if its column is id, plain or quoted, and exactly one blank stands before the sign. |
| `ExecRewrite.OutOfRangeExact` | driver.go:98-107 | The slice is out of range if and only if the text starts with UPDATE and its last ` where ` starts at the blank that ends its first ` set `. |
| `ExecRewrite.EmptySetPanics` | driver.go:100-107 | An empty SET clause is such a text. |
| `ExecRewrite.DeleteFromExact` | driver.go:125-131 | `DELETE FROM x`, in any letters and behind any white space, becomes `DELETE x` with `x` trimmed, for every text `x`, and stays when `x` is blank. |
| `ExecRewrite.OthersStay` | driver.go:96-134 | Every text that starts neither with UPDATE nor, behind white space, with DELETE FROM stays. |
| `Migration.Migrator.Exec` | migrator.go:260-262 | A plain DEFINE TABLE of an existing table fails; another statement fails as the server decides; a failed one changes nothing. |
| `Migration.Migrator.DefineFields` | migrator.go:282-391 | The fields of a model are defined in order with their rules and exemptions, until a statement fails. |
| `Migration.Migrator.DefineIndexes` | migrator.go:449-507 | The indexes are defined with their exemptions until a statement fails; the fields stay as they are. |
| `Migration.Migrator.CreateTable` | migrator.go:228-276 | A plain DEFINE TABLE; an edge table is registered when it succeeds. |
| `Migration.Migrator.RemoveObsoleteFields` | migrator.go:396-446 | Fields that are neither the model's nor managed are removed, in any order; nothing is when INFO FOR TABLE fails, and failed removals are ignored. |
| `Migration.Migrator.MigrateModel` | migrator.go:39-96 | The body of the loop over the models: register an edge table, create a missing one, define and clean up, and report whether it went through. |
| `Migration.Migrator.AutoMigrate` | migrator.go:30-98 | Per model: register an edge table, create the table if it was missing at the start, define fields and indexes, and clean up only what existed before the run; stop at the first failure. |
| `Migration.ExistingTableRun` | migrator.go:278-446 | A run over an existing table puts the model's definitions over the old ones, then removes the obsolete, in that table only. |
| `Migration.ReconciledExact` | migrator.go:282-446 | The result holds every model field with the model's definition, and from before only managed names, names of fields without data type, and fields whose removal failed. |
| `Migration.ConvergenceExact` | migrator.go:282-446 | When removals succeed, two tables end equal if and only if they agreed on the names a run leaves alone. |
| `Migration.ReconciledStable` | migrator.go:282-446 | Reconciling twice is reconciling once, whatever removals fail. |
| `Migration.AutoMigrateExact` | migrator.go:30-98 | A run goes through if and only if no missing table has two models; then every table found is reconciled with its models in order, every missing one holds the first definitions of its model, and every other table stays. |
| `Migration.FirstIsLast` | migrator.go:289-292 | A new and a reconciled table get the same fields if and only if the first and the last field of each name have one definition. |
| `Migration.TableRunTwice` | migrator.go:282-446 | Reconciling a table with all its models again changes nothing, however many there are. |
| `Migration.SecondRunExact` | migrator.go:30-98 | After every run that goes through, a second one does too, and it changes nothing if and only if fields of one name agree in the model of every table that was missing. |
| `Migration.SecondRunChangesNothing` | migrator.go:30-98 | With agreeing fields in all models, a second run succeeds and changes nothing. |
| `Migration.RerunExact` | migrator.go:30-98 | A run after one that stopped at any statement or at none, when no missing table has two models: rejecting nothing, it reaches what one such run over the schema from before would have reached, if and only if fields of one name agree in the model of every table the first run created. |
| `Migration.SameTableTwiceFails` | migrator.go:31-77 | Every run with two models of one missing table fails. |
| `Migration.SameNameTwiceUnstable` | migrator.go:278-292 | Two fields of one column name: the run that creates the table keeps the first definition, the next run the second. |
| `SchemaFields.MigratedNames` | migrator.go:278-446 | After any run that goes through, the table of a model holds exactly its typed fields, and from before the names the server fills in (`id`; in an edge table also `in`, `out`, `created_at`, `updated_at`, `deleted_at`), untyped fields of the model, and fields whose removal failed; for the only model of a table. |
| `SchemaFields.MigratedField` | migrator.go:306-382 | And the definition of a typed field says: it may be absent if and only if it is not NOT NULL or its own type allows it; a geometry subtype is a plain geometry; an explicit assertion wins, else exactly NOT NULL fields are asserted to have a value; a link to records rejects their deletion if NOT NULL and else unsets the field; the other clauses are there if and only if the tags give them. For the only field of its name. |
| `SchemaFields.MigratedDefault` | migrator.go:366-370 | The default that stands in the schema is read back as the model's if and only if that has no backslash. |
| `SchemaFields.DefaultExact` | migrator.go:368-369 | The same about every text and its quoted form. |
| `SchemaFields.UnansweredRemovesNothing` | migrator.go:407-417 | Without an answer to INFO FOR TABLE a run removes no field. |
| `SchemaFields.IndexesExact` | migrator.go:449-507 | With all fields accepted, a table goes through if and only if each index with a name and a named column, but for one on the id alone in any letters, is accepted with its clause and its named columns. |
| `SchemaFields.NamedColumnsExact` | migrator.go:466-471 | The named columns of an index are those that are not empty, and all columns when none is. |
| `SchemaFields.EdgesRegistered` | migrator.go:39-61 | After the models of a run were visited, the registry is as after registering the edge tables among them in order, and each is found by its name. |
| `VectorIndex.BuildVectorIndexParams` | migrator.go:515-538 | The loop over the words of the option text, each cut at its first `=`, and the printing loop over the fixed key order. |
| `VectorIndex.OptionExact` | migrator.go:509-538 | For every option text, each known key with a value comes out once, in SurrealDB's order, with the value given last. |
| `VectorIndex.KeywordsExact` | migrator.go:516-536 | The clause is DIMENSION, TYPE, DIST, EFC, M, CAPACITY in this order, each with the last value of its own key, those without one left out. |
| `VectorIndex.OptionRead` | migrator.go:524-530 | For every list of settings, the text of its `key=value` words is read back as that list, with the keys in lower case and the values as they are. |
| `VectorIndex.NoSetting` | migrator.go:526-529 | A word is no setting if and only if it has no `=`. |
| `VectorIndex.ClausesExact` | migrator.go:532-536 | The same for every list of settings whose values have no white space. |
| `VectorIndex.SettingOrderIgnored` | migrator.go:509-514 | Different keys may be given in any order. |
| `RenameField.Migrator.Rename` | alter.go:291-319 | Whichever statement fails, the table is as after the statements before it. |
| `RenameField.NothingLostMidway` | alter.go:287-319 | After every prefix of the statements each record holds the old value under the old or the new name. |
| `RenameField.RenameExact` | alter.go:287-319 | A whole rename moves value and definition, removes the old ones and keeps all other fields and definitions. |
| `RenameField.SameNameDestroys` | alter.go:312-318 | Renaming a field to itself unsets the value unless the definition step stops it. |
| `RenameField.RestartExact` | alter.go:291-319 | A rename run again to its end after the first stopped at any statement, with or without an answer to INFO in either run: the value is lost if and only if the first run reached the UNSET statement and the second does not begin with a rejected definition. It does so if and only if INFO answers then, the code recognises the old definition, and the new name is defined. |
| `RenameField.TwiceExact` | alter.go:291-319 | With the second run stopped anywhere or nowhere: the value is lost if and only if the first run reached the UNSET statement and the second the copying one. |
| `EdgeRegistry.Dialector.RegisterEdgeTable` | dialector.go:39-44 | A name is stored for itself and, if it ends in `s`, for its singular. |
| `EdgeRegistry.Dialector.FindEdgeTable` | dialector.go:52-61 | The exact entry, else that of the plural, else nothing. |
| `EdgeRegistry.Dialector.IsEdgeTable` | dialector.go:64-67 | Whether a name is found. |
| `EdgeRegistry.RunIsLastMatch` | dialector.go:39-44 | After any history a name maps to itself or its plural, whichever was registered last. |
| `EdgeRegistry.FindSound` | dialector.go:46-61 | A found name was registered; one found only through the plural is the name with two letters `s` more. |
| `EdgeRegistry.FindExact` | dialector.go:39-61 | After every history a name is looked up as its own last registration or its plural's, and without one as what its plural stands for. |
| `EdgeRegistry.FindComplete` | dialector.go:35-38 | Every registered name is found, and so is its singular. |
| `EdgeRegistry.IdempotentExact` | dialector.go:46-61 | Lookup is idempotent if and only if no name stands for itself through its singular while it maps to its own plural. |
| `EdgeRegistry.OrderIndependent` | dialector.go:39-61 | Without registered pairs that differ by a final `s`, only the set of names matters and lookup is idempotent. |
| `EdgeRegistry.PairShowsOrder` | dialector.go:39-61 | With such a pair, the order of registration decides. |
| `EdgeAssociation.Database.Delete` | callback_edge.go:13-105 | Deletes on the chosen relation, one statement per given record with an id, until one fails. |
| `EdgeAssociation.Database.Replace` | callback_edge.go:108-198 | One deletion of the owner's edges, then one relation per element of a slice, until one fails. |
| `EdgeAssociation.Count` | callback_edge.go:201-256 | The number of the owner's edges in the first edge relation, or the count from before without one. |
| `EdgeAssociation.CountOwned` | callback_edge.go:241-245 | The count of the edges with that owner. |
| `EdgeAssociation.DeleteExact` | callback_edge.go:87-101 | After any number of its statements a deletion has removed all copies of those targets from the owner, and nothing else. |
| `EdgeAssociation.ReplaceExact` | callback_edge.go:146-194 | After the deletion and any number of insertions the owner has exactly that many of the new targets; other owners keep theirs. |
| `EdgeAssociation.ReplaceLeavesGiven` | callback_edge.go:160-194 | The owner ends with what was given if and only if it was not one single record; then it ends with nothing. |
| `EdgeAssociation.DestinationExact` | callback_edge.go:54-90 | Of a slice Delete and Replace read exactly the ids, in order; of a single record Delete reads the id and Replace nothing. |
| `EdgeAssociation.ReplacedBySlice` | callback_edge.go:146-194 | A completed Replace with a slice leaves the owner exactly the ids of the slice, in order, and other owners what they had. |
| `EdgeAssociation.RunRefinesLists` | callback_edge.go:12-198 | Over every run of append, delete and replace, each owner's edges are the list the operations describe, and owners not named keep theirs. |
| `EdgeAssociation.NamedRelationReached` | callback_edge.go:120-144 | Delete and Replace work on the named relation if and only if none before it has an edge table and an owner with an id. |
| `EdgeAssociation.CountedRelationReached` | callback_edge.go:213-238 | Count counts the named relation if and only if none before it has an edge table, with or without an id of its owner. |
| `EdgeAssociation.ChosenIsRegistered` | callback_edge.go:24-53 | The table worked on is a registered one: the last registration of the join table's name or plural, or what its plural stands for; and the owner is that relation's. |
| `Preload.MapName` | callback_preload.go:66-89 | The mapped parts of a dotted name, following the schemas; empty parts are dropped. |
| `Preload.MapPartsExact` | callback_preload.go:66-89 | The mapped parts are the columns along the walk of the name through the schemas, each found by the field before, in order and without the empty ones. |
| `Preload.ExpandPath` | callback_preload.go:91-99 | The paths emitted for one name are all prefixes of its parts, shortest first. |
| `Preload.Deduplicate` | callback_preload.go:102-109 | First occurrences only, in order. |
| `Preload.HandlePreloads` | callback_preload.go:13-118 | The FETCH list holds exactly the prefixes of the mapped paths of the plain preloads, each once, and the graph list one selection for each many-to-many preload over an edge table, in some order of the preload map. |
| `Preload.FetchExact` | callback_preload.go:65-110 | For every map order the list holds exactly the prefixes of the mapped paths, each once. |
| `Preload.PathExact` | callback_preload.go:65-110 | A plain preload yields exactly the dotted texts of the first columns of its walk, and each is in the list for every map order. |
| `Preload.GraphFieldExact` | callback_preload.go:28-63 | For every history of registrations, a preload becomes a graph selection if and only if it is many-to-many over a registered edge table; it leads over the table registered last to the related one, with `->` from an `in` and `<-` from an `out`. |
| `Preload.FetchIsPrefixClosed` | callback_preload.go:65-110 | Every dotted prefix of a path is in the list and stands before it. |
| `Preload.FetchIgnoresOrder` | callback_preload.go:26-110 | Two map orders emit the same paths. |
| `Geometry.LineToSDK` | types/sdk.go:48-56 | The loop that copies the positions of a line; a position without two numbers becomes the zero point. |
| `Geometry.RingsToSDK` | types/sdk.go:67-79 | The same in two nested loops. |
| `Geometry.PolygonsToSDK` | types/sdk.go:140-156 | The same in three nested loops. |
| `Geometry.GeoToSDKValue` | types/sdk.go:38-189 | The cases of the conversion, with recursion for collections. |
| `Geometry.ToSDKValue` | types/sdk.go:12-235 | Values and pointers are converted alike, a nil pointer becomes nil, another driver type becomes its SDK value, anything else passes. |
| `Geometry.PolygonsFromSDK` | types/types.go:446-480 | The three nested loops back. |
| `Geometry.RingsFromSDK` | types/types.go:252-276 | The two nested loops back. |
| `Geometry.LineFromSDK` | types/types.go:192-210 | The loop back. |
| `Geometry.Receiver.Scan` | types/types.go:540-605 | A receiver takes an SDK value of its own kind or a pointer to one and is unchanged by anything else handed on. |
| `Geometry.ScanExact` | types/types.go:143-605 | For every receiver and input: an SDK geometry of the receiver's kind, as a value or behind a pointer alike, becomes the canonical geometry that converts back to it, any other input is handed on, and a collection restores its plain elements and keeps the others. |
| `Geometry.RoundTripExact` | types/types.go:143-480 | Of the six non-collection types exactly the canonical geometries survive the way to the SDK and back. |
| `Geometry.ScanThenConvert` | types/types.go:143-480 | Every scanned SDK geometry is canonical and converts back to itself. |
| `Geometry.ConversionKeepsShape` | types/sdk.go:38-189 | The conversion is the one value that keeps length and order at every level, copies each position of two numbers and makes any other the zero point, through collections nested to any depth. |
| `Geometry.CollectionTripExact` | types/types.go:540-605 | A collection survives if and only if its type is canonical and it holds nothing either conversion touches. |
| `Geometry.DecodedItemExact` | types/types.go:544-598 | With values in place of pointers an element is restored if and only if it is canonical and no collection. |
| `RowCursor.NewRows` | sqldriver.go:136-166 | Rows in order under the sorted keys of the first document, or one column for scalars. |
| `RowCursor.Rows.Next` | sqldriver.go:172-194 | The next row goes into the destination and the index advances; at the end nothing changes. |
| `RowCursor.Drain` | sqldriver.go:136-257 | Draining yields as many rows as `countResult` counts, and then EOF. |
| `RowCursor.SortSorts` | sqldriver.go:155-160 | Sorting different names lists the same names in increasing order. |
| `RowCursor.ColumnsUnique` | sqldriver.go:155-160 | The columns do not depend on the order in which the map is visited. |
| `RowCursor.DocumentsAreProjected` | sqldriver.go:179-187 | Each document comes out as its own projection on the columns, whatever came before it. |
| `RowCursor.CellExact` | sqldriver.go:200-241 | Each value has exactly one cell: scalars as they are, an unsigned number as the signed one with the same 64 bits, everything else as the JSON text of the value. |
| `RowCursor.CellsCollide` | sqldriver.go:200-241 | Two values get one cell if and only if they are equal or an unsigned and a signed number with the same bits. |
| `RowCursor.DocumentCells` | sqldriver.go:136-194 | Draining a result of documents yields a row for each, and under every key of the first document the cell of that document's own value, or null. |
| `RowCursor.RowsExact` | sqldriver.go:136-153 | A result yields the elements of a slice in order, one row for any other value and none without one, and as many are counted. |
| `RowCursor.ScalarCell` | sqldriver.go:136-194 | A single scalar yields one row of one cell under the column `value`. |
| `RowCursor.RowIndependentExact` | sqldriver.go:172-194 | A row is independent of what the destination held if and only if it is a document or there is at most one column. |
| `FilePointer.Receiver.ParseString` | types/file.go:120-133 | A parsed text sets bucket and key; an error leaves both. |
| `FilePointer.Receiver.ReadArray` | types/file.go:58-66 | Two elements set bucket and key; any other number is an error. |
| `FilePointer.NormalizeIdempotent` | types/file.go:175-180 | Normalising is idempotent and leaves exactly the empty and the slashed keys. |
| `FilePointer.PrintParseExact` | types/file.go:34-37 | Parsing the printed form gives the file with its key normalised if and only if the bucket has no colon and the text no outer white space and no wrapper of its own. |
| `FilePointer.LiteralParseExact` | types/file.go:119-133 | The quoted literal does so if and only if the bucket has no colon. |
| `FilePointer.OutOfRangeExact` | types/file.go:123-124 | The slice is out of range if and only if the trimmed text is `f"`. |
| `FilePointer.ShapesAgree` | types/file.go:73-117 | Text, literal, array, object and tag content of a normalised file are read as the same file. |
| `FilePointer.JsonExact` | types/file.go:76-117 | Which decoded JSON values are a file and which one: arrays of two, objects with a bucket or with a content of two; without a key it is `<nil>`. |

## Assumptions about the server

- The server shows a transaction the records as they were at BEGIN, overlaid with its own writes, and
  a commit puts these writes over the committed records. It refuses statements of a closed transaction.
- Of a query the server carries out the commands between semicolons, in order. What stands between
  BEGIN and COMMIT takes effect whole at the COMMIT, or not at all when one of the commands was
  rejected; a transaction cancelled, or open at the end of the query, has no effect.
- In a literal in single quotes a backslash takes a quote or a backslash behind it as it is.
- DEFINE TABLE of an existing table and a plain DEFINE FIELD of a defined field are errors;
  DEFINE FIELD IF NOT EXISTS of one succeeds without effect; REMOVE FIELD IF EXISTS never depends
  on the field.
- Direct access to a record id that does not exist selects nothing. A traversal reaches one record
  per edge, and none over a dangling edge. `IN` over a list is membership, as GORM means it.
- Whether a count over no rows returns a row is a parameter of the model.

## Left out

- ExecKeepsMeaning: parameter names are identifiers, since `$name` has no other form in SurrealQL; values are taken as already converted.
- BlockIsAtomic: comments and string literals are read as any other text, so a semicolon in a literal separates commands, on both sides alike.
- WriteLands: the id of a new relation is an input, and the two ends are kept as opaque texts.
- RunIsAtomic: the server never rejects a commit; conflicts with other transactions are not modelled.
- InliningKeepsMeaning: statements are tokens, so placeholders and keywords inside string literals are not modelled.
- LookupBecomesDirect: equality is up to blanks, and text inside string literals is treated like any other text.
- ListBecomesDirect: equality is up to blanks; the repetitions of the regular expression are greedy functions, and in a statement with other lists of an `id` column the leftmost is taken, as the condition says.
- RowCountsExact: an UPSERT or INSERT of one record returns it, a deletion and RETURN NONE return nothing.
- RewriteCount: ON and WHERE are lists of comparisons; the search for them in the text of the statement is not modelled.
- ListKeepsRows: rows are compared as bags; ORDER BY and LIMIT behind a rewritten list are not modelled.
- AssociationCountExact: ON and WHERE are lists of comparisons; the search for keywords in the text of the statement is not modelled.
- IdAssignmentsRemoved: commas inside values are excluded, because the code splits at every comma; a further WHERE is the subject of `FurtherWhereExact`; case mapping is that of ASCII.
- AutoMigrateExact: the schema GORM parsed and the data types are inputs; the server accepts everything but removals, and index definitions are no part of the state.
- RestartExact: records are schemaless, and the server's definition text is reduced to whether the code recognises the name in it.
- OptionExact: keys are put into lower case as ASCII.
- ToSDKValue: the SDK values of times, durations, record ids, UUIDs and the like are opaque.
- RoundTripExact: coordinates are opaque numbers; the GeoJSON decoder a Scan falls back to is not modelled.
- RunRefinesLists: association operations inside an open transaction use the shared connection and are not part of the transaction model.
- FetchIsPrefixClosed: schemas and the naming strategy are inputs, and a column name is one path segment.
- DocumentsAreProjected: JSON text of nested values is the value itself.
- ShapesAgree: JSON and CBOR decoding is given by its result.
- The other text stages of executeSQL: canonical table names, `<>` to `!=`, table prefixes and soft-delete texts are single replacements.
- The mapping of results into destinations by reflection and the create, update and delete callbacks.
- Connection, sign-in, reconnection, live queries and file content transfer: network I/O.
- Helpers for DEFINE INDEX, events, analyzers, functions and ALTER statements: string assembly with shallow properties.
- Durations, numbers, UUIDs, regular expressions, bytes and the type mapper: they would add only easy members.
