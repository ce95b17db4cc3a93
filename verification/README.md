# A verified model of kiya's core

This project models, in Dafny, the parts of the kiya web framework in which most can go wrong:
the route tree, the SQL query builder, nested transactions, the audit trail of a row, the two
rate limiters and the prepared-statement cache. `dafny verify dfyconfig.toml` checks all of it.

Objects that the Go code updates in place are classes here, with the loops of the original; each
method is proved against a specification on values, and what the framework promises is proved
about that specification.

| file | what it holds |
|---|---|
| `Paths.dfy`, `Routes.dfy`, `RouteTree.dfy` | path normalisation; the flat list of accepted routes as reference; the tree in the heap with its backtracking search |
| `Decimal.dfy`, `SqlText.dfy` | decimal numerals; SQL text as the placeholder scanner sees it, its conversion for Postgres, and how statements bind their arguments |
| `Conditions.dfy`, `WhereClauses.dfy` | boolean SQL conditions with AND, OR, NOT and parentheses, their one reading, their three-valued meaning; the WHERE text of the builder |
| `Names.dfy`, `Statements.dfy`, `StatementText.dfy` | sorted column lists; the statements as lists of pieces; their texts, section by section |
| `Pagination.dfy`, `QueryBuilder.dfy` | pages of a result; the builder object, its terminal reads and its pages against a database |
| `BuilderMemory.dfy` | the builder's slices and maps in the heap, and what `clone` does to them |
| `Savepoints.dfy` | nested transactions over a connection with a savepoint stack |
| `HistoryRows.dfy`, `HistoryLocks.dfy` | the audit trail of one row over serial runs; interleaved transactions with row locks |
| `TokenBucket.dfy`, `LimiterStore.dfy`, `LimiterRuns.dfy` | one bucket; the sharded in-memory limiter; its runs of requests and cleanups |
| `RedisLimiter.dfy`, `LimiterAgreement.dfy` | the Redis script; both limiters on the same runs |
| `PreparedStatements.dfy`, `PreparedRuns.dfy` | the statement cache under every interleaving; how long its statements stay open |

## Main results

* **Routing.** After any registrations, a lookup returns exactly the best match among the accepted
  patterns (static before regex before parameter before wildcard, segment by segment), with the
  latest handler and the bindings of that pattern; substituting the bindings rebuilds the path.
* **WHERE.** The printed text has one reading under SQL precedence. After scoping it means
  soft-delete AND the user's chain AND every scope equality, and clauses added later by AND only
  narrow it. Without scoping it excludes deleted rows when some connective is OR or no clause has
  an OR of its own at its outer level, and exactly then if no predicate is written twice.
* **Binding.** In every statement that `Build` returns, for all five actions and both dialects,
  before and after the scope is folded in, each argument reaches the placeholder of its own piece
  (`QueryBuilder.Builder.Build`, `Count`, `Exist`, `Fetch`). The condition is on the caller's
  fragments only: closed text, as many arguments as placeholders, no placeholder before a digit.
* **Pages.** The count and the page look at the same rows, and the pages that builders with the
  same counted, ungrouped query return tile its result.
* **Clones.** A clone is made of new arrays and maps only, so no sequence of appends, element
  writes and map writes through it reaches the original, or the other way round, although an
  append may write in place.
* **Transactions.** Running the emitted SAVEPOINT, RELEASE and ROLLBACK TO commands gives the
  denotational result for every tree of nested transactions, on servers that abort after an error
  and on servers that do not, with whatever stale savepoints earlier failures left behind.
* **Audit trail.** Over every audited run, replaying the trail reconstructs the tracked columns,
  the trail is in lifecycle order, and it ends in `deleted` exactly while `deleted_at` is set.
  Under every interleaving each row is the serial run of exactly the committed operations, and no
  entry is lost or added.
* **Rate limits.** Tokens are conserved, so on every run of requests and cleanups a window admits
  at most (1+k)·burst + rate·T requests of a key. Cleanup cannot be observed exactly when
  ttl·rate ≥ burst. The Redis script answers like a limiter without expiry. With such a ttl both
  limiters answer, on every run, each request of a key alike until the key's bucket is evicted; a
  run that asks no shard for more keys than it holds evicts nothing.
* **Statement cache.** In every interleaving the open statements are those cached plus those that
  callers hold. No run over a set of queries closes a statement that was handed out, exactly when
  the cache has room for the whole set.

## Where the code does not do what one might expect

The model follows the code. Each point is stated by the member named with it.

* The repository's README.md:284-291 says that transactions nest through savepoints. `NewDatabase` always wraps the
  executor in the logging layer (internal/db/database.go:66-75), whose `Begin` refuses to nest, so
  through `DB` every nested transaction fails. What is committed is still what the documentation
  says exactly when the body's own writes and those of the whole tree have the same net effect
  (`Savepoints.LoggedAgreesExactly`).
* A clause with an outer OR of its own, such as one `Where` call whose text is `a = 1 OR b = 2`,
  escapes the soft-delete condition when no connective is OR (`WhereClauses.SoftDeleteExactly`),
  and a clause added after the scope was folded can escape the scope
  (`WhereClauses.LateClausesExactly`). The escaping row is constructed for texts in which no
  predicate occurs twice; the safe direction holds for all texts.
* Saving an unchanged struct whose `History` field is stale overwrites the stored trail when that
  field carries `history:"-"` (`HistoryRows.UntrackedHistoryCanBeLost`); a map insert restricted
  with `Cols` drops its `created` entry unless `history` is among the columns. When trails stay
  complete is `HistoryRows.TrailIsCompleteExactly`. Such an insert also records columns that it
  does not store (`HistoryRows.MapInsertReconstructsExactly`).
* `Count` runs under the builder's own LIMIT, OFFSET, ORDER BY, HAVING and lock, so it can fail
  where the page would not (`QueryBuilder.NoCountExactly`). Without grouping, a second `Paginate`
  on the same builder fails, after a first that got its count, exactly when the first found rows
  and asked for a page after the first one: its window stays on the builder. An empty first result
  leaves no window (`QueryBuilder.PaginateTwice`, `QueryBuilder.SecondPaginateFails`).
* A prepared statement that was handed out is closed while in use by `Close`, or by a publish of a
  new query into a full cache that picks it (`PreparedRuns.StepClosesExactly`); one query more than
  the cache holds is enough (`PreparedRuns.ClosedInUse`).
* A route refused for a conflict leaves the tree exactly as it was (`RouteTree.Tree.AddRoute`): a
  conflict is only ever found before the first new node. A parameter and a later wildcard may share
  a level; the opposite order is refused. Two regexes under one name share the expression
  registered first.

## Model

| member | source | states |
|---|---|---|
| `Paths.SegmentsAreNormalised` | internal/router/tree.go:230-249 | for every string the tree sees exactly the normalised elements, none of them empty, `.` or `..`, and the cleaned path is their join |
| `Paths.CleaningIsIdempotent` | internal/router/tree.go:230-249 | cleaning twice is cleaning once, and neither cleaning nor a trailing slash changes the segments |
| `Routes.SiblingsExclusive` | internal/router/tree.go:79-100 | in every reachable table a level has at most one parameter or regex and at most one wildcard |
| `Routes.WildcardIsFinal` | internal/router/tree.go:102-107 | a wildcard always holds a handler and never has children |
| `Routes.ServesIsUnique` | internal/router/tree.go:115-129 | the accepted registrations determine handler and bindings of every lookup |
| `Routes.ServesMeaning` | internal/router/tree.go:115-129 | a lookup finds a handler exactly when some accepted pattern matches |
| `Routes.NormalisedPathsServeAlike` | internal/router/tree.go:115-129 | a path, the path with a trailing slash and the cleaned path are served alike |
| `Routes.StaticRouteWins` | internal/router/tree.go:139-145 | a registered pattern of static segments is always the best match of its own path |
| `Routes.BestThroughChild` | internal/router/tree.go:139-165 | the best match below the first fitting kind of child is the best match here: backtracking is complete |
| `Routes.BindingsRebuildPath` | internal/router/tree.go:147-173 | filling the bindings into the matched pattern gives back the request path |
| `RouteTree.Tree.FindChild` | internal/router/tree.go:71-77 | the child with the same label, or none if there is none |
| `RouteTree.Tree.HasConflict` | internal/router/tree.go:80-91 | whether some sibling clashes with the new segment |
| `RouteTree.Tree.Descend` | internal/router/tree.go:68-102 | one turn of the registration loop succeeds exactly when the label is present or clashes with no sibling; otherwise nothing changes |
| `RouteTree.Tree.AddRoute` | internal/router/tree.go:50-113 | accepted exactly when no label clashes, then the route is the newest of the log; refused, every node is as before |
| `RouteTree.Tree.Search` | internal/router/tree.go:131-176 | finds the best candidate below the node and appends its bindings; on failure the parameter list is as before and no candidate exists |
| `RouteTree.Tree.SearchKind` | internal/router/tree.go:139-165 | one of the first three loops: the best candidate of this kind, or none of this kind and the list restored |
| `RouteTree.Tree.SearchWildcard` | internal/router/tree.go:167-175 | the wildcard takes the rest of the path, or nothing matches |
| `RouteTree.Tree.FindRoute` | internal/router/tree.go:115-129 | handler and bindings are those of the best accepted pattern, in terms of the registration log alone |
| `RouteTree.Tree.FindRouteInRoot` | internal/router/tree.go:192-197 | the same for one method's root |
| `RouteTree.Tree.AnyMethodExists` | internal/router/tree.go:178-190 | true exactly when some method has a matching accepted pattern |
| `SqlText.CloseQuote` | internal/db/dialect.go:9 | a quoted literal ends with a quote, at the place the expression backtracks to |
| `SqlText.ConvertPlaceholders` | internal/db/dialect.go:28-37 | the k-th placeholder outside literals becomes $k, all other text is copied |
| `SqlText.LexConcat` | internal/db/dialect.go:9-37 | closed text is scanned the same way wherever it stands in a statement |
| `SqlText.ConversionKeepsOrder` | internal/db/dialect.go:28-37 | the server reads placeholder k as parameter k and everything else as written, exactly when no placeholder runs into a digit |
| `SqlText.ConversionPreservesBinding` | internal/db/dialect.go:28-37 | converted and original statement bind the same values in the same places |
| `SqlText.PartsBindSeparately` | internal/db/builder_sql.go:45-311 | in a statement put together from aligned pieces the placeholder count is the argument count and each placeholder takes its own piece's argument |
| `SqlText.AlignedBinds` | internal/db/builder_read.go:257-260 | the same after conversion for Postgres |
| `Conditions.ParseMeansFlat` | internal/db/builder_sql.go:261-311 | a token text is read as a condition exactly when it is the text of that condition |
| `Conditions.GuardHoldsExactly` | internal/db/builder_sql.go:268-299 | rows selected by a chain satisfy each conjunct in front of it when no outer OR breaks the chain, and exactly then if no predicate occurs twice |
| `Conditions.GuardEscapes` | internal/db/builder_sql.go:292-298 | behind an outer OR some row is selected that the conjunct rejects, and it may be any given row outside the chain |
| `WhereClauses.WhereReads` | internal/db/builder_sql.go:261-311 | in every parenthesising case the printed text is a condition with this one reading |
| `WhereClauses.WhereArgs` | internal/db/builder_sql.go:261-311 | the arguments are those of the clauses in printed order |
| `WhereClauses.SoftDeleteMeaning` | internal/db/builder_sql.go:268-299 | parenthesised, or with nothing to parenthesise, the text means soft-delete AND the user's chain |
| `WhereClauses.SoftDeleteExactly` | internal/db/builder_sql.go:268-299 | no deleted row is selected when some connective is OR or no clause has an outer OR, for all clauses; otherwise a deleted row is selected, if no predicate occurs twice |
| `WhereClauses.FoldedReads` | internal/db/builder.go:528-558 | the folded clauses are joined by AND and read as parenthesised groups |
| `WhereClauses.ScopedMeaning` | internal/db/builder.go:462-559 | after folding the text means soft-delete AND the user's chain AND every scope equality, for all clauses |
| `WhereClauses.LateClausesMeaning` | internal/db/builder.go:462-466 | for all clauses, those added after folding by AND and without an outer OR only narrow the selection: soft-delete AND the user's chain AND every scope equality AND each of them |
| `WhereClauses.LateClausesExactly` | internal/db/builder.go:462-466 | with or without a soft-delete condition, clauses added after folding keep rows in scope when joined by AND and without an outer OR; otherwise a row out of scope is selected, if no predicate occurs twice |
| `WhereClauses.LateOrEscapes` | internal/db/builder_sql.go:280-291 | an OR connective among late clauses selects a row that is not deleted and not in scope |
| `Names.SortedKeys` | internal/db/builder_sql.go:117-125 | the valid column names of a map, sorted, whatever order the map is walked in |
| `Names.KeyListUnique` | internal/db/builder_sql.go:117-125 | sorting leaves one possible order, so statement texts are deterministic |
| `Statements.SelectAligned` | internal/db/builder_sql.go:45-111 | every SELECT of sound fragments is aligned: the k-th argument belongs to the k-th placeholder |
| `Statements.UpdateAligned` | internal/db/builder_sql.go:227-253 | the same for UPDATE |
| `Statements.DeleteAligned` | internal/db/builder_sql.go:255-259 | the same for DELETE |
| `Statements.InsertAligned` | internal/db/builder_sql.go:113-225 | the same for single and batch INSERT with their suffixes |
| `Statements.FoldedGood` | internal/db/builder.go:501-558 | folding the scope in keeps every clause closed, with as many arguments as placeholders |
| `Statements.BatchArgument` | internal/db/builder_write.go:193-218 | argument r·cols+c of a batch insert is column c of row r |
| `QueryBuilder.Builder.Where` | internal/db/builder.go:240-243 | appends one AND clause |
| `QueryBuilder.Builder.OrWhere` | internal/db/builder.go:245-248 | appends one OR clause |
| `QueryBuilder.Builder.WhereIn` | internal/db/builder.go:250-266 | one membership clause; an empty list matches nothing; an invalid name adds nothing; clauses fit for binding stay so |
| `QueryBuilder.Builder.WhereNotIn` | internal/db/builder.go:268-284 | one membership clause; an empty list or an invalid name adds nothing; clauses fit for binding stay so |
| `StatementText.InClauseIsGood` | internal/db/builder.go:250-284 | a membership clause is one predicate with exactly one placeholder per value |
| `QueryBuilder.Builder.ApplyScope` | internal/db/builder.go:462-559 | folds the scope once; the clauses then select exactly the rows of the user's chain that are in scope and not deleted, and stay fit for binding |
| `QueryBuilder.Builder.BuildWheres` | internal/db/builder_sql.go:261-311 | prints exactly the WHERE pieces and appends exactly their arguments |
| `QueryBuilder.Builder.BuildSelect` | internal/db/builder_sql.go:45-111 | prints exactly the SELECT pieces and appends exactly their arguments |
| `QueryBuilder.Builder.BuildUpdate` | internal/db/builder_sql.go:227-253 | prints exactly the UPDATE pieces over the sorted valid columns |
| `QueryBuilder.Builder.BuildDelete` | internal/db/builder_sql.go:255-259 | prints exactly the DELETE pieces |
| `QueryBuilder.Builder.BuildInsert` | internal/db/builder_sql.go:113-178 | prints exactly the INSERT pieces over the sorted valid columns, with the upsert and RETURNING suffixes of the dialect |
| `QueryBuilder.Builder.WriteUpsert` | internal/db/builder_sql.go:141-173 | one assignment per valid column in the form of the dialect, or nothing |
| `QueryBuilder.Builder.BuildInsertBatch` | internal/db/builder_sql.go:180-225 | prints exactly the INSERT of the prepared rows and appends their values row by row, or prints nothing when there are none |
| `QueryBuilder.Builder.PrepareBatch` | internal/db/builder_write.go:193-218 | the batch fields spell the given rows: a tuple of marks per row and the values in row order |
| `QueryBuilder.Builder.BuildRaw` | internal/db/builder_sql.go:12-43 | raw text as given, otherwise the statement of the action from an empty argument list |
| `QueryBuilder.Builder.Build` | internal/db/builder_read.go:257-260 | the statement in the dialect of the database; for all five actions the server binds every argument to the placeholder of its own piece |
| `QueryBuilder.Builder.SendableIsAligned` | internal/db/builder_sql.go:12-311 | for all five actions the pieces of the statement are aligned under the conditions on the caller's fragments |
| `QueryBuilder.StatementsBind` | internal/db/builder_read.go:257-260 | in either dialect the server binds every argument of an aligned statement to its own piece's placeholder |
| `QueryBuilder.Builder.Count` | internal/db/builder_read.go:155-170 | counts under the scoped query, binds every argument where it belongs, and leaves exactly that query behind |
| `QueryBuilder.Builder.Exist` | internal/db/builder_read.go:172-195 | probes the scoped query with LIMIT 1, binds every argument where it belongs, and leaves exactly that query behind |
| `QueryBuilder.Builder.Fetch` | internal/db/builder_read.go:10-153 | Find and FindAll issue the scoped query shaped for the destination (which brings no columns when it is no struct), bind every argument where it belongs, and leave the scoped query behind |
| `QueryBuilder.Builder.RunTerminals` | internal/db/builder_read.go:10-195 | any run of terminal reads folds the scope once and leaves the same query |
| `QueryBuilder.Builder.Paginate` | internal/db/builder_read.go:197-235 | the total is the database's answer to the counted statement and the rows its answer to the fetched one, both issued for the same scoped query with page and size clamped |
| `QueryBuilder.OnePredicate` | internal/db/builder_read.go:155-229 | the counted and the fetched query have the same table, joins, conditions and order |
| `QueryBuilder.NoCountExactly` | internal/db/builder_read.go:155-170 | an ungrouped query gets no count exactly when Postgres is asked to lock, the order is refused, HAVING drops the group, or the builder's window hides the row |
| `QueryBuilder.UngroupedPage` | internal/db/builder_read.go:197-235 | a counted page has the size of the result as total and exactly the rows of that page |
| `QueryBuilder.PagesTileResult` | internal/db/builder_read.go:197-235 | the rows of the pages up to the last page that any of them reports are the whole result of the query, each row once and in order |
| `QueryBuilder.WindowHidesCountExactly` | internal/db/builder_read.go:208-229 | the window of a fetched page hides the next count exactly when the page starts past the rows of the count; without GROUP BY, when it is not page one |
| `QueryBuilder.PaginateTwice` | internal/db/builder_read.go:197-235 | two calls on one builder: the second gets no count exactly when the first got none or fetched a page starting past the rows of its count; ungrouped, it fails exactly after a page later than the first of a result that is not empty, and otherwise answers as a new builder would |
| `QueryBuilder.SecondPaginateFails` | internal/db/builder_read.go:197-235 | on eleven rows page two is served and page one of the same builder is then refused |
| `Pagination.PagesCoverResult` | internal/db/builder_read.go:212-229 | pages 1..last concatenate to the whole result, each row once; pages before the last are full, later ones empty |
| `BuilderMemory.CopyArgs` | internal/db/builder.go:362-365 | a new array with the same arguments |
| `BuilderMemory.CopyCells` | internal/db/builder.go:358-397 | copied clauses show the same and no two of them share their arguments with each other or the original |
| `BuilderMemory.CopySlice` | internal/db/builder.go:358-453 | a slice made of new arrays only that shows the same; nil stays nil |
| `BuilderMemory.CopyMap` | internal/db/builder.go:406-441 | a new map with the same entries |
| `BuilderMemory.HeapBuilder.Clone` | internal/db/builder.go:355-460 | the copy shows everything the original shows and every array and map in it is new, even if the original shares some inside |
| `BuilderMemory.Push` | internal/db/builder.go:130-135 | append shows one more element, whether it writes in place or into a larger array, and touches only the slice's own array |
| `BuilderMemory.PutArg` | internal/db/builder.go:13-28 | a write to one argument of one clause changes that argument only |
| `BuilderMemory.HeapBuilder.Do` | internal/db/builder.go:130-353 | every edit changes exactly what it names and reaches no object outside the builder |
| `BuilderMemory.EditAll` | internal/db/builder.go:355-460 | any sequence of edits through one builder shows there in full and leaves everything read through a builder that shares nothing with it unchanged |
| `BuilderMemory.CloneIsIsolated` | internal/db/builder.go:355-460 | edits of a clone never reach the original and edits of the original never reach the clone, in what is read from the arrays themselves |
| `Savepoints.RunIsEffective` | internal/db/database.go:244-269 | nesting only decides which writes count: the result is that of the flat list without failed nested transactions |
| `Savepoints.FindOwnMark` | internal/db/executor.go:199-233 | a nested transaction finds its own savepoint under whatever its body left on the stack |
| `Savepoints.NameInjective` | internal/db/executor.go:200-201 | different counter values give different savepoint names |
| `Savepoints.SqlxTx.Begin` | internal/db/executor.go:199-206 | a new savepoint with an unused name on top of the stack, refused only in an aborted transaction |
| `Savepoints.SqlxTx.Execute` | internal/db/executor.go:191-233 | a body leaves the connection in the state of the denotational semantics; stale savepoints lie above and carry newer numbers |
| `Savepoints.SqlxTx.ExecuteNested` | internal/db/executor.go:199-233 | a successful nested transaction keeps its writes, a failed one is undone exactly, also out of the aborted state |
| `Savepoints.SqlxTx.Transaction` | internal/db/executor.go:191-233 | below the logging layer, the committed rows are the outcome of the whole tree; an outer failure or an aborted commit undoes all |
| `Savepoints.Connection.RollbackTo` | internal/db/executor.go:230-233 | restores the rows of the newest savepoint of that name, which stays |
| `Savepoints.Connection.Release` | internal/db/executor.go:225-228 | forgets the savepoint and those above it, keeping the rows |
| `Savepoints.LoggedTx.Transaction` | internal/db/database.go:244-269 | through DB, whose executor is always wrapped, the outcome is that of the tree without its nested transactions |
| `Savepoints.LoggedFailsNested` | internal/db/logger.go:104-106 | that is the run in which every nested transaction fails |
| `Savepoints.LoggedAgreesExactly` | internal/db/logger.go:104-106 | for every script and server, what DB commits is what the documentation promises exactly when the body's own writes and those of the whole tree have the same net effect |
| `Savepoints.LoggedLosesNestedWrite` | internal/db/logger.go:104-106 | one write in a nested transaction is enough for the two to differ, against README.md |
| `HistoryRows.UntrackedHistoryCanBeLost` | internal/db/history_ops.go:192-208 | otherwise saving an unchanged struct with an empty history erases the trail |
| `HistoryRows.TrailIsCompleteExactly` | internal/db/history_ops.go:158-498 | over every run that does not remove the row, the history after each step is one entry per effective operation, in order, exactly when each map insert selects `history` and no unchanged struct writes a history of its own |
| `HistoryRows.TrackedRunsKeepTrail` | internal/db/reflect.go:211-244 | with a tracked history column and unrestricted map inserts every run keeps its trail |
| `HistoryRows.OneEntryEach` | internal/db/history.go:54-76 | one entry with the right action for each operation that has something to record |
| `HistoryRows.ColumnStep` | internal/db/history.go:78-96 | what an operation stores in a tracked column agrees with what it records of it |
| `HistoryRows.StepKeepsReconstruction` | internal/db/history_ops.go:158-221 | every operation that keeps the trail keeps it a faithful record of the row |
| `HistoryRows.MapInsertReconstructsExactly` | internal/db/history_ops.go:360-376 | a restricted map insert reconstructs exactly when each unstored column has its database default |
| `HistoryRows.RestoreUndoesDelete` | internal/db/history_ops.go:245-334 | restoring a deleted row gives back every column and adds the two entries |
| `HistoryRows.LifecycleExactly` | internal/db/history_ops.go:158-334 | over every run that keeps the trail, every state has `deleted_at` set exactly when its trail ends deleted, created first and only first, and no modification or second deletion before a restore, exactly when each effective operation leaves `deleted_at` to Delete and Restore and modifies no deleted row |
| `HistoryRows.AuditedRunsReconstruct` | internal/db/history_ops.go:158-419 | after any audited run the trail is in order and reconstructs the row, and the row is visible exactly when the trail does not end in a deletion |
| `HistoryLocks.Database.LockRow` | internal/db/history_ops.go:122-152 | waits exactly for another holder; otherwise reads and locks a found row |
| `HistoryLocks.Database.WriteRow` | internal/db/history_ops.go:181-221 | the locked read is still current; the write applies the operation to it, or fails and changes nothing |
| `HistoryLocks.Database.InsertRow` | internal/db/history_ops.go:158-179 | waits for another holder of the key, then inserts or fails |
| `HistoryLocks.Database.EndTx` | internal/db/history_ops.go:87-120 | commit keeps what the transaction made of its rows, rollback drops it, both release every row |
| `HistoryLocks.WriteKeeps` | internal/db/history_ops.go:181-221 | a write keeps the holder's view equal to the serial run of the committed operations and its own |
| `HistoryLocks.ReleaseKeeps` | internal/db/history_ops.go:87-120 | ending any transaction keeps every row equal to the serial run of the committed operations |
| `HistoryLocks.ConsistentIsSerialised` | internal/db/history_ops.go:87-152 | such a row's history grew by exactly one entry per committed recording operation, in lock order, and stays audited |
| `HistoryLocks.Database.Do` | internal/db/history_ops.go:87-152 | one move of the schedule is one step of the abstract machine |
| `HistoryLocks.Database.Run` | internal/db/history_ops.go:87-498 | under every schedule each row is the serial run of exactly its committed operations; aborted ones add nothing |
| `HistoryLocks.UnlockedWritesLoseAnEntry` | internal/db/history_ops.go:122-134 | without the lock two updates of one read lose an entry |
| `TokenBucket.Conservation` | internal/security/ratelimit.go:78-108 | admitted requests and remaining tokens are covered by the initial tokens, the refill, and one full bucket per removal |
| `TokenBucket.WindowBound` | internal/security/ratelimit.go:78-108 | a window of length T admits at most (1+k)·burst + rate·T requests, k being the removals inside it |
| `TokenBucket.SpacedNeverRefused` | internal/security/ratelimit.go:91-108 | requests at least 1/rate apart are never refused, whatever is removed in between |
| `TokenBucket.ForgettingStaysAlike` | internal/security/ratelimit.go:140-160 | a limiter that drops only full buckets is bisimilar to one that never forgets |
| `TokenBucket.CleanupUnobservableExactly` | internal/security/ratelimit.go:140-160 | cleanup changes no decision of any run exactly when ttl·rate ≥ burst |
| `TokenBucket.TellingRun` | internal/security/ratelimit.go:140-160 | otherwise this run tells the two apart |
| `TokenBucket.SweptAnswersAsRemembered` | internal/security/ratelimit.go:71-160 | a key that lost only idle buckets is answered as if nothing had been forgotten, hence as by the Redis limiter |
| `TokenBucket.SameDecisions` | internal/security/redis_ratelimit.go:17-51 | limiters that drop only full buckets answer the same requests alike, however differently they forget |
| `LimiterAgreement.Both` | internal/security/ratelimit.go:71-109 | one request to both limiters, or one shard's cleanup: the same answer unless the key's bucket was evicted before, and both stay in step for every key not evicted |
| `LimiterAgreement.Compare` | internal/security/redis_ratelimit.go:13-52 | if ttl·rate ≥ burst, then on every run of requests and shard cleanups, whatever the number of keys, each request of a key whose bucket no earlier request has evicted gets the same answer from both limiters, and every Redis answer is that of a limiter without expiry |
| `LimiterAgreement.CompareNew` | internal/security/redis_ratelimit.go:13-52 | the same for two new limiters; their answers are all alike when nothing is evicted, in particular when no shard is asked for more keys than it holds |
| `LimiterAgreement.FewKeysEvictNothing` | internal/security/ratelimit.go:78-89 | from empty shards, a run that asks no shard for more keys than it holds evicts nothing, however many keys there are in all |
| `LimiterRuns.Serve` | internal/security/ratelimit.go:71-160 | one request or one shard's cleanup: the shard changes as it should, and a trace gains the key's own request, a removal by eviction, or one of an idle bucket |
| `LimiterRuns.ServeAll` | internal/security/ratelimit.go:71-160 | on every run of requests and cleanups of the store, a window of length T lets through at most (1+k)·burst + rate·T requests of each key, k being the removals of its bucket |
| `LimiterStore.SortByAge` | internal/security/ratelimit.go:127-133 | the exchange loops sort a permutation, oldest first |
| `LimiterStore.PullOldest` | internal/security/ratelimit.go:128-132 | the inner loop brings the oldest remaining entry into place |
| `LimiterStore.DeleteFirst` | internal/security/ratelimit.go:135-137 | exactly the first n entries go, and none that goes is newer than one that stays |
| `LimiterStore.EvictOldest` | internal/security/ratelimit.go:111-138 | exactly min(n, max/10) entries go, none newer than a survivor, the survivors unchanged |
| `LimiterStore.Store.Spend` | internal/security/ratelimit.go:91-108 | refill, cap, decide and pay, as the admission step |
| `LimiterStore.Store.AllowIn` | internal/security/ratelimit.go:78-108 | a request touches its own bucket, evicts only for a new key of a full shard, and keeps the shard within bounds |
| `LimiterStore.StepKeepsConsistent` | internal/security/ratelimit.go:65-109 | every bucket stays what its key's trace leads to, in the shard its hash picks |
| `LimiterStore.Store.Allow` | internal/security/ratelimit.go:71-109 | the answer is the admission step on the key's trace; other keys are untouched or evicted |
| `LimiterStore.Store.CleanShard` | internal/security/ratelimit.go:149-158 | under one shard's lock exactly its buckets idle for longer than ttl go, one removal in each trace; the other shards are as before |
| `LimiterStore.Store.Cleanup` | internal/security/ratelimit.go:140-160 | shard after shard, exactly the buckets idle for longer than ttl go, one removal in each trace |
| `RedisLimiter.TtlOutlastsRefill` | internal/security/redis_ratelimit.go:43-46 | the expiry is longer than a bucket takes to refill |
| `RedisLimiter.KeysApart` | internal/security/redis_ratelimit.go:14-15 | the two stored keys of all limiter keys are distinct |
| `RedisLimiter.ScriptFills` | internal/security/redis_ratelimit.go:21-36 | what the script computes from visible keys is what a limiter without expiry has |
| `RedisLimiter.RedisStore.Allow` | internal/security/redis_ratelimit.go:13-52 | the answer is that of a limiter without expiry |
| `PreparedStatements.PreparedCache.constructor` | internal/db/prepared.go:19-24 | an empty cache; a size that is not positive becomes 200 |
| `PreparedStatements.PreparedCache.DoLookup` | internal/db/prepared.go:27-32 | a hit returns an open statement prepared from the query |
| `PreparedStatements.PreparedCache.DoPrepare` | internal/db/prepared.go:34-37 | a new open statement, or an error and nothing held |
| `PreparedStatements.PreparedCache.DoPublish` | internal/db/prepared.go:39-55 | the first publisher wins, the loser still has its own statement to close, and a full cache closes and forgets one entry |
| `PreparedStatements.PreparedCache.DoCloseOwn` | internal/db/prepared.go:41-43 | after the lock is released the loser closes its own statement and returns the cached one |
| `PreparedStatements.PreparedCache.Close` | internal/db/prepared.go:58-66 | every cached statement is closed; those that callers hold stay open |
| `PreparedStatements.PreparedCache.Run` | internal/db/prepared.go:26-66 | in every state of every interleaving the cache is within bounds and the open statements are those cached plus those that callers hold |
| `PreparedStatements.MoveKeeps` | internal/db/prepared.go:26-66 | every action of every caller keeps that accounting |
| `PreparedStatements.PreparedCache.UsableExactlyWhileCached` | internal/db/prepared.go:44-48 | a handed-out statement is open exactly while it is cached; when that ends is stated by the next rows |
| `PreparedRuns.StepClosesExactly` | internal/db/prepared.go:44-66 | a cached statement is closed in a step exactly when the step is `Close`, or publishes a new query into a full cache and picks it |
| `PreparedRuns.SmallSetLasts` | internal/db/prepared.go:26-56 | without `Close`, on a run whose queries all fit into the cache, every statement is open when a caller gets it and in every later state |
| `PreparedRuns.TooManyCallers` | internal/db/prepared.go:44-49 | when one caller more than the cache has room for asks for its own query, every run ends with an earlier caller's statement closed in its hands |
| `PreparedRuns.LastingExactly` | internal/db/prepared.go:26-66 | no run over a set of queries ever closes a statement that was handed out, exactly when the set is no larger than the cache |
| `PreparedRuns.ClosedInUse` | internal/db/prepared.go:44-49 | for every cache size a run of the cache itself ends with such a closed statement |

## Left out

- Regular expressions in routes are an abstract engine (compile and match); a path segment that is only `{` makes the source panic and is excluded by a precondition of `AddRoute`; handlers are never nil.
- The mutexes of the tree: `AddRoute` and `FindRoute` are single atomic calls.
- SQL fragments are given as token lists whose predicates are indivisible; telling a predicate from a connective inside a raw string is not modelled, and a predicate's truth is an arbitrary function of the row.
- QueryBuilder.Builder.Clone: copies slices and maps as values; that a clone shares none in the heap is proved in `BuilderMemory`.
- BuilderMemory.HeapBuilder.Clone: the objects behind single arguments and the bound destination are shared on purpose and are plain values here; a caller that spreads its own slice into `Where` and writes to it later is left out.
- QueryBuilder.Builder.BuildRaw: does not model named raw queries, which a library expands.
- QueryBuilder.Builder.Paginate: the database is a parameter that answers queries; page numbers are unbounded integers.
- Savepoints.SqlxTx.Begin: does not model the 32-bit wrap-around of the savepoint counter.
- Panics inside a transaction body are the same as errors; network failures of the savepoint commands themselves are left out.
- HistoryRows: timestamps, actors, the actor columns and `NoHistory` are left out, JSON is taken to decode what it encoded, and the WHERE clause selects one row.
- HistoryLocks: deadlocks between transactions that lock several rows are blocked moves; what the database does to break them is an abort move.
- HistoryLocks.Database.LockRow: the unlocked existence probe before a hard delete without a struct is the same lock-and-write here.
- TokenBucket: real numbers in place of float64, and a positive rate and burst.
- LimiterRuns.ServeAll: takes the request times in the order in which the requests take effect, as does `LimiterAgreement.Compare`; a cleanup may carry an older time.
- LimiterStore.Store: the FNV hash is an arbitrary function of the key.
- Redis failures, which let the request through.
- Upserts by constraint, `Retain`, joins' and ORDER BY sanitising, reflection, decoding, validation, sessions, cookies, cryptography, the web application firewall, static files, mail and logging: plumbing or thin use of libraries.
