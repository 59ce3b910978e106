# Verified models of the SurrealQL schema tools

A Dafny model of the parts of this repository whose correctness is hardest to see by reading one
function: the schema graph and its traversals, schema merging and diffing, the migration engine with
its module sort and leader lock, the language server's position arithmetic, error-recovering statement
splitting, and the incremental replay engine. `dafny verify dfyconfig.toml` checks everything.

## What is modelled

- **Schema graph** (`Schema`, `Definitions`, `Merging`, `SchemaGraphs`). A graph of tables linked by
  `record<>` fields, held in a class whose maps and field index are updated in place. Links may name
  undefined tables; a path is a list of (table, field) hops. Map iteration takes members in an arbitrary
  order, so nothing proved depends on it.
- **Traversals** (`Walks`, `Reachability`, `DependencyTrees`). "Reachable at depth d" is defined by walks
  alone; the breadth-first search and the capped dependency tree are both proved against it, and so
  against each other.
- **Workspace merge** (`Workspaces`) and **schema diff** (`SchemaDiffs`).
- **Module sort** (`ModuleGraphs`, `ModuleSort`, `Manifests`). Kahn's algorithm, proved against a
  declarative order that one set of modules has exactly one of.
- **Leader lock** (`LeaderLock`). The lock queries are atomic events on one record under a clock; safety
  is over every interleaving of any number of instances.
- **Migration engine** (`Migrations`, `MigrationRuns`, `MigrationReplans`, `SchemaSkips`,
  `MigrationEngine`, `MigrationTraces`). A database class holds the application data, `migration_lock`, the changelog in the
  order it was written, and a record of what ran to completion. Migration and module contents act on the
  data through an uninterpreted function.
- **Positions** (`Texts`, `Encodings`, `Positions`). Text is a sequence of code points with UTF-8 widths (section 3 of
  RFC 3629) and UTF-16 widths (section 2 of RFC 2781); positions follow the "Position" section of the
  Language Server Protocol 3.17.
- **Recovery** (`Recovery`). Splitting at top-level semicolons and moving diagnostics back to the whole source.
- **Incremental replay** (`IncrementalReplay`). The hash-guarded replay of workspace files.

`Ordering` holds the sorting and listing facts the others share.

## What the code does not promise

Each of these is proved, with the exact condition, on what is known before the call, under which the code
does behave as hoped.

- A plan is read before the lock is taken and is not read again. Two instances that plan and then apply one
  after the other run the first up script twice (`StalePlanRunsTwice`). Applying a plan is sure to keep the
  accounts right iff none of its migrations has been recorded since it was read (`PlanSafeIff`;
  `AccountKeptIff` says the same of what one call ran). The rows to roll back are read before the lock as
  well, and a down script can run twice (`StaleRollBackRunsTwice`; `RollBackSafeIff`, `RollBackKeptIff`).
  Over every interleaving of applies and rollbacks, script by script, the account is right throughout iff no
  up runs while its version is on record and no down while it is not (`InterleavedAccountedIff`).
- Modules are put on record only when all of a plan's modules ran, and run outside any transaction. A module
  that ran beside one that failed is in force but not recorded, and one that failed partway leaves what it
  did; going back to the old content is then skipped (`SkippedThoughDifferent`, `SkippedThoughBroken`). An
  apply is sure not to make a later skip wrong iff none of its modules has ever been put on record
  (`StepSafeIff`; `InStepIff` for one call, `AlwaysInStepIff` over whole runs).
- An instance with an empty id does not hold a lease anyone respects (`SafeIffNamed`).
- The lock's fast path confirms a lease without extending it (`FastPathDoesNotRenew`): a confirmation holds
  for exactly as long as the lease still runs (`ConfirmationHoldsIff`).
- The comment on `acquire` speaks of a timeout of about 60 seconds. The sleeps between 30 attempts come to 58,
  and how long the loop lasts beyond that is the time its queries take. With only the clock at work an
  instance gets a crashed holder's lock iff the lease ends before the loop's last claim
  (`CrashedHolderOutlastsRetries`); if queries took no time, it would have to start more than 2 seconds after
  the holder's claim (`FiftyEightSeconds`).
- Two modules of one name are reported as a circular dependency (`TopologicalSort`: the error is
  `UnknownDependency` iff a dependency is unknown; `NamesakesNotCyclic`).
- An offset just after a carriage return that ends its line does not survive the trip to a position and
  back (`OffsetRoundTrip`).
- Re-basing adds a byte count to columns counted in code points, and adds it to an end column even when the
  end lies on a later line (`RebasedStart`, `RebasedEnd`; `StartMovedTooFar`, `EndMovedAlong`).
- A source of nothing but separators becomes one chunk that contains them (`SplitIntoChunks`; `LoneSeparator`).
- A dependency tree of 1000 nodes may lack tables the search beside it reports: it shows a reported table
  where the search has it iff the whole tree does among its first 1000 entries (`CutShowsIff`), and with 1000
  tables reported it lacks one (`CapHidesTable`, `StarIsCut`).
- A deleted file goes unnoticed by the replay unless some other file is new or edited
  (`DeletionGoesUnnoticed`), and its record stays, so that a deleted file that comes back as it was goes
  unnoticed too (`RestoreGoesUnnoticed`). An apply is sure to end with the full replay iff some file is new or
  edited since it was last applied, or the files hold, in path order, what those last replayed held
  (`ReplaySafeIff`). The name of the test at `lsp/src/embedded_db.rs:479` says that a deletion re-applies
  everything; its body agrees with the code.
- Which of two conflicting kinds of a field a merged workspace keeps depends on the order of the cache
  (`OrderPicksTheKind`); the kind is settled iff all files that define the field agree on it
  (`KindSettledIff`).

## Model

| member | source | states |
|---|---|---|
| SchemaGraphs.SchemaGraph.TablesReachableFrom | src/schema_graph.rs:739-776 | The result is exactly the tables other than the start whose shortest link distance d is within the bound, each once with depth d and a real walk of d hops, by depth and then name; for an undefined start it is empty. |
| SchemaGraphs.Search | src/schema_graph.rs:739-776 | The queue loop ends on every graph, cyclic ones included, with that listing. |
| Reachability.ListingDetermined | src/schema_graph.rs:774 | Two listings of one graph agree in every table, depth and position; only which shortest path is kept stays open. |
| Reachability.Discover | src/schema_graph.rs:766-769 | Filing a newly met table keeps the search invariant: queue depths d and then d + 1, every path genuine, every table once. |
| Reachability.ExpandKeeps | src/schema_graph.rs:762-772 | After all links of a table are followed, every link out of an expanded table is on file at most one deeper. |
| Reachability.ClosedCovers | src/schema_graph.rs:755-773 | When the queue is empty, no walk within the bound ends at a table not on file, and none is shorter than the depth on file. |
| Walks.ShortestIsSimple | src/schema_graph.rs:739-776 | A walk no longer than any other visits no table twice. |
| Walks.SkipDetour | src/schema_graph.rs:739-776 | A walk that returns to a table it left can be shortened. |
| SchemaGraphs.SchemaGraph.DependencyTree | src/schema_graph.rs:849-853 | The tree is the first 1000 nodes, in visiting order, of the depth-bounded unfolding of sorted links, and the whole of it when there are fewer; then every node that is no cycle has one child for each time a link is declared. Children stand by field name and then by target; cycle nodes are exactly those whose table is a proper ancestor's; no node lies deeper than the bound. |
| SchemaGraphs.BuildSubtree | src/schema_graph.rs:855-910 | The ancestor set comes back as it was, the node counter grows by the size of the subtree and stays within 1000, and the subtree is a cut of the unfolding. |
| DependencyTrees.UnfoldMarked | src/schema_graph.rs:865-872 | In the unfolding a node is a cycle node, and a leaf, iff its table is one of its proper ancestors. |
| DependencyTrees.UnfoldHeight | src/schema_graph.rs:875 | The unfolding is no higher than the depth bound. |
| DependencyTrees.SortedLinksAreLinks | src/schema_graph.rs:879-885 | The sorted (field, target) list of a table holds exactly its links. |
| DependencyTrees.SortedLinksExact | src/schema_graph.rs:879-885 | Sorted links stand by field name and then by target, each as often as the fields declare it. |
| DependencyTrees.FirstLinksOrdered | src/schema_graph.rs:885-899 | Children that show the first links of a table in order are ordered, cut short or not. |
| DependencyTrees.UnfoldComplete | src/schema_graph.rs:878-899 | Every node of the unfolding that is no cycle has one child for each time a link is declared, and none at the depth bound or for an undefined table. |
| DependencyTrees.OccurrenceHasWalk | src/schema_graph.rs:887-899 | A non-cycle node at depth k witnesses a walk of k hops. |
| DependencyTrees.SimpleWalkOccurs | src/schema_graph.rs:887-899 | A walk that repeats no table, within the bound, ends at a non-cycle node of its depth. |
| DependencyTrees.UnfoldFindsDistance | src/schema_graph.rs:849-910 | A table's least depth in the uncapped tree is k iff its link distance is k and within the bound. |
| DependencyTrees.TraversalsAgree | src/schema_graph.rs:739-910 | A table other than the root is a non-cycle node of the uncapped tree iff the listing reports it, and its least depth is the depth reported. |
| DependencyTrees.EntryHasWalk | src/schema_graph.rs:887-899 | Every node of the unfolding, cycle marks included, lies as deep as some walk to its table is long. |
| DependencyTrees.CutNodesReported | src/schema_graph.rs:739-910 | Every node of the capped tree stands for the root or a table the listing reports, no deeper than the node. |
| DependencyTrees.OccursIffShown | src/schema_graph.rs:855-910 | Standing k levels below a node is being visited at its level plus k. |
| DependencyTrees.CutShowsIff | src/schema_graph.rs:875-889 | A reported table first stands in the capped tree at its depth iff the unfolding shows it there before the cap. |
| DependencyTrees.CapHidesTable | src/schema_graph.rs:875-889 | With as many tables reported as the cap allows nodes, the tree lacks one. |
| DependencyTrees.StarIsCut | src/schema_graph.rs:875-889 | The witness: a table with a thousand links. |
| SchemaGraphs.SchemaGraph.ForwardTraversal | mcp/src/lib.rs:1121-1129 | At every size, each node of the tree other than the root table is reported, no deeper than the node, and a reported table first stands in the tree at its depth iff the whole unfolding shows it there among its first 1000 entries; below 1000 nodes tree and listing agree throughout, and with 1000 tables reported the tree lacks one. |
| SchemaGraphs.SchemaGraph.TablesReferencing | src/schema_graph.rs:782-799 | The result is exactly the links into the target, each (table, field) once, by table name and then by position of the field. |
| SchemaGraphs.SchemaGraph.FromDefinitions | src/schema_graph.rs:473-622 | Statement by statement, the graph becomes what the definition lists describe, with a correct field index: a table has the flag, type and comment of its last statement, and without one is not full and of any type; under a function or parameter name stands its last definition. |
| Definitions.FirstOfEachUnique | src/schema_graph.rs:524-527 | The fields kept have distinct names and lose none. |
| Definitions.FirstOfEachLookup | src/schema_graph.rs:524-527 | Dropping later namesakes changes no lookup: the first definition of a name wins. |
| Definitions.DescribedWellFormed | src/schema_graph.rs:473-622 | Every table built is filed under its own name and has distinct field names. |
| Definitions.AttributesDescribed | src/schema_graph.rs:476-495 | A table has the attributes of its last statement, and one that only fields bring into being is SCHEMALESS and of type Any. |
| Definitions.OnTableCounts | src/schema_graph.rs:561-590 | A table has each index and event as often as it was defined on it. |
| Definitions.LastKept | src/schema_graph.rs:592-618 | Under every function and parameter name stands its last definition, and nothing else. |
| Definitions.FieldStep | src/schema_graph.rs:497-558 | One more field statement adds its field unless the name is taken, or brings its table into being, and touches no other table. |
| Definitions.IndexStep | src/schema_graph.rs:561-569 | One more index statement appends to a defined table and is dropped for an undefined one. |
| SchemaGraphs.SchemaGraph.RebuildFieldIndex | src/schema_graph.rs:624-634 | Under each name the index lists every place of a field so named, once, whatever the order of tables. |
| SchemaGraphs.SchemaGraph.FindField | src/schema_graph.rs:710-722 | The lookup gives exactly the (table, field) pairs of that name, one per table, and never drops an entry as stale. |
| SchemaGraphs.SchemaGraph.Scoped | src/schema_graph.rs:638-653 | Exactly the tables in scope are kept unchanged, with all functions and parameters and a correct index. |
| SchemaGraphs.InScopeIff | src/schema_graph.rs:1152-1169 | A table is in scope iff its namespace and its database, where both sides name one, differ at most in ASCII case. |
| SchemaGraphs.SchemaGraph.Merge | src/schema_graph.rs:421-471 | In-place merging, in any map order, gives the merge of the two graphs and restores the field index. |
| Merging.MergeAssociates | src/schema_graph.rs:421-471 | Grouping never matters, down to definition order and source locations. |
| Merging.MergeIdempotent | src/schema_graph.rs:421-471 | Merging a graph into itself changes nothing. |
| Merging.MergeIdentity | src/schema_graph.rs:421-471 | The default graph is an identity on both sides. |
| Merging.MergeWellFormed | src/schema_graph.rs:427-433 | Merging keeps field names distinct. |
| Merging.MergeSays | src/schema_graph.rs:421-471 | A merge has exactly the tables, SCHEMAFULL flags, field, index, event, function and parameter names that either side has. |
| Merging.SharedTableKeeps | src/schema_graph.rs:422-455 | Of a table both graphs have, a merge keeps the first's attributes and definitions, adds the second's under names not yet taken, and takes either's SCHEMAFULL flag and the last location known. |
| Merging.OthersKept | src/schema_graph.rs:451-469 | A table, function or parameter is the first's where it has the name, and otherwise the second's. |
| Workspaces.Workspace.RebuildFileSchema | lsp/src/server.rs:188-221 | After one file changes, the cache holds its new schema or none, and the stored schema is again a merge of the cache. |
| Workspaces.Workspace.MergeFileSchemas | lsp/src/server.rs:228-238 | The stored schema is the files merged in some order, each once, and says exactly what some cached file says. |
| Workspaces.OrderSummarizes | lsp/src/server.rs:230-233 | Whatever the order of merging, the result says exactly what the merged files say. |
| Workspaces.SummaryUnique | lsp/src/server.rs:228-238 | Merging one cache in any two orders gives graphs that say the same. |
| Workspaces.RunHistory | lsp/src/server.rs:188-238 | After any history of inserts, replacements and removals the schema says exactly what the last state of each file says. |
| Workspaces.CacheHoldsLast | lsp/src/server.rs:193-205 | The cache holds for each path what the last event on it parsed to, if anything. |
| Workspaces.KindSettledIff | src/schema_graph.rs:427-433 | The kind a merged workspace gives a field is the same for every order of the files iff all files that define the field agree on its kind. |
| Workspaces.OrderPicksTheKind | src/schema_graph.rs:427-433 | The witness: of two files that give one field different kinds, each merge order keeps the first. |
| Workspaces.MergedLookup | src/schema_graph.rs:427-433 | A merged field list finds a name where the first list does, and otherwise where the second does. |
| SchemaDiffs.CompareSchemas | src/diff.rs:144-303 | Each list of the report holds exactly the differences of its sort, changes and fields never twice, in report order: one-sided tables whole and as declared, then common tables by name. |
| SchemaDiffs.CompareTable | src/diff.rs:194-287 | Comparing one more common table extends every list, at its end and in order, by exactly that table's differences. |
| SchemaDiffs.AddKindChanges | src/diff.rs:232-246 | A field of both tables is reported iff its kinds differ, once, with both kinds, in order of declaration. |
| SchemaDiffs.DiffIsPatch | src/diff.rs:144-303 | Applying the report to the first schema's names gives the second's tables, fields, indexes, events and functions. |
| SchemaDiffs.DiffPatchesFlags | src/diff.rs:203-209 | A common table's flag changes iff it is reported, and then from and to what is reported. |
| SchemaDiffs.DiffPatchesKinds | src/diff.rs:232-246 | A common field's kind changes iff it is reported, and then from and to what is reported. |
| SchemaDiffs.AllMeans | src/diff.rs:211-217 | The compared pairs are exactly the names of fields, of indexes and of events, each on its table. |
| SchemaDiffs.KindMeans | src/diff.rs:232-238 | The compared kind is that of the field of the name. |
| SchemaDiffs.EmptyIffAgree | src/diff.rs:45-58 | The report is empty iff the schemas agree on names, flags and kinds. |
| SchemaDiffs.DiffReverses | src/diff.rs:144-303 | Comparing the other way round swaps added with removed and before with after. |
| ModuleSort.TopologicalSort | overshift/src/schema.rs:99-172 | It succeeds iff every dependency is known, names are distinct and nothing depends on itself in a circle; then it permutes the input into the one Kahn order. |
| ModuleSort.BuildTables | overshift/src/schema.rs:120-133 | In-degrees count dependency entries, and dependents mirror them, repetitions included. |
| ModuleSort.Release | overshift/src/schema.rs:148-160 | No in-degree underflows, even where a dependency is repeated, and a module is freed exactly once. |
| ModuleSort.Drain | overshift/src/schema.rs:135-163 | The loop ends with every module whose dependencies were emitted, in order, and nothing in line. |
| ModuleSort.EmitKeeps | overshift/src/schema.rs:145-163 | Emitting the front of the queue keeps degrees, readiness and order. |
| ModuleSort.FindUnknown | overshift/src/schema.rs:109-118 | An unknown dependency is reported iff there is one. |
| ModuleSort.LeftoverIsCyclic | overshift/src/schema.rs:165-169 | What is left when the queue runs dry waits on a cycle. |
| ModuleSort.CountTellsFailure | overshift/src/schema.rs:165-169 | Fewer modules out than in means a repeated name or a cycle. |
| ModuleSort.CountTellsSuccess | overshift/src/schema.rs:165-171 | As many out as in means distinct names, no cycle and a permutation. |
| ModuleSort.SortBothWays | overshift/src/schema.rs:121-163 | Reordering the modules or their dependency lists changes neither success nor the resulting order. |
| ModuleGraphs.OrderDetermined | overshift/src/schema.rs:135-163 | Equal module sets have at most one Kahn order. |
| ModuleGraphs.ShuffledModules | overshift/src/schema.rs:99-172 | Listing the same modules and dependencies otherwise gives the same module set. |
| ModuleGraphs.StuckIsCyclic | overshift/src/schema.rs:165-169 | Where every module depends on another of the set there is a cycle. |
| ModuleGraphs.OrderedIsAcyclic | overshift/src/schema.rs:99-172 | A dependency-respecting order rules out cycles. |
| ModuleGraphs.NamesakesNotCyclic | overshift/src/schema.rs:165-169 | The witness: two modules of one name and no dependencies are refused, though nothing is circular. |
| Ordering.NameLessMeans | overshift/src/schema.rs:141 | One name sorts before another iff it ends, or has the smaller code point, where they first part. |
| Manifests.Build | overshift/src/manifest.rs:171-219 | Building succeeds iff there is metadata, versions are distinct and start at 1 and the modules can be sorted; versions then strictly ascend and every module stands behind its dependencies with its own content. |
| Manifests.ValidateSequence | overshift/src/migration.rs:171-213 | A sequence passes iff versions are distinct and the first is 1; the duplicate error is given iff there is one. |
| Manifests.SortedMigrations | overshift/src/manifest.rs:178-179 | Sorting keeps the migrations, and the sorted list passes iff versions are distinct and the least is 1. |
| Manifests.Reattach | overshift/src/manifest.rs:195-212 | Every module in the order gets the content parts given under its name. |
| Manifests.JoinedParts | overshift/src/manifest.rs:204 | Between any two content parts stands one newline, and nothing else is added. |
| LeaderLock.SafeIffNamed | overshift/src/lock.rs:108-188 | Under every interleaving no other instance claims or confirms the lock up to 60 s after a claim, unless the claimant released it, iff the claimant's id is not empty. |
| LeaderLock.LeaseKept | overshift/src/lock.rs:125-133 | Until it expires, a lease stays on record whatever others do. |
| LeaderLock.StaleReleaseHarmless | overshift/src/lock.rs:151-167 | A release by a former holder leaves its successor's lease as it is. |
| LeaderLock.ReleaseFrees | overshift/src/lock.rs:151-167 | After its release an instance holds nothing, and a lease it still held can be claimed by anyone at once. |
| LeaderLock.HolderClaimed | overshift/src/lock.rs:125-133 | From an unseeded record, every lease on record goes back to a successful claim that nothing has undone. |
| LeaderLock.HeldOnlyWithinLease | overshift/src/lock.rs:170-188 | A held check succeeds only strictly within the lease of the holder's own last claim. |
| LeaderLock.ConfirmationHoldsIff | overshift/src/lock.rs:120-133 | After a check that found a claimed lease, no other instance claims or confirms the lock for a given time, under any interleaving without a release, iff the lease runs at least that long. |
| LeaderLock.FastPathDoesNotRenew | overshift/src/lock.rs:120-124 | The witness: a lease confirmed at 59 s can be claimed by another instance at 61 s. |
| LeaderLock.CrashedHolderOutlastsRetries | overshift/src/lock.rs:77-103 | With only the clock at work, in queries as in sleep, a waiter's retry loop gets the lock of a holder that crashed right after claiming iff the lease ends before the loop's last claim. |
| LeaderLock.QuietAttempt | overshift/src/lock.rs:108-148 | Among ticks, an attempt succeeds iff the record is missing or free, expired by the time of its claim, or this instance's own at the time of its check; otherwise only time has passed. |
| LeaderLock.QuietRetries | overshift/src/lock.rs:77-103 | Among ticks, the retry loop succeeds iff the record is missing or free, expired by the time of the last claim, or this instance's own at the first check; otherwise only time has passed. |
| LeaderLock.AttemptAlone | overshift/src/lock.rs:108-148 | If queries took no time: an attempt succeeds iff the lock is free or this instance's own, and otherwise changes nothing. |
| LeaderLock.RetriesAlone | overshift/src/lock.rs:77-103 | If queries took no time: n attempts get the lock iff it is had at once or its lease ends within 2(n - 1) s. |
| LeaderLock.FiftyEightSeconds | overshift/src/lock.rs:77-103 | If queries took no time: a waiter gets a crashed holder's lock iff it starts more than 2 s after the claim. |
| LeaderLock.SurrealLock.TryAcquire | overshift/src/lock.rs:108-148 | With any events of others between its queries, the attempt is seed, check and, if that fails, claim; it succeeds iff the last of these does, and then holds a live lease. |
| LeaderLock.SurrealLock.Acquire | overshift/src/lock.rs:77-103 | With any events of others between its queries and while it sleeps, the loop makes up to 30 attempts 2 s apart and succeeds iff one does, and then holds a live lease. |
| LeaderLock.SurrealLock.ClaimRecord | overshift/src/lock.rs:125-147 | The conditional update is the claim event, and its answer says whether it took effect. |
| LeaderLock.SurrealLock.IsHeld | overshift/src/lock.rs:170-188 | The check answers for a live lease under this instance's id. |
| LeaderLock.SurrealLock.ReleaseRecord | overshift/src/lock.rs:151-167 | The conditional update is the release event. |
| MigrationRuns.AlwaysAccounted | overshift/src/plan.rs:129-725 | Over every run of plan-and-apply and rollback, with any manifests, failures and lost locks, recorded versions stay unique and a version's ups minus its downs is 1 if recorded and 0 otherwise. |
| MigrationRuns.PlanSafeIff | overshift/src/plan.rs:163-169 | Whatever the scripts do, applying a plan, however old, keeps the account iff the lock is not to be had or none of the plan's migrations is on record. |
| MigrationRuns.AccountKeptIff | overshift/src/plan.rs:163-169 | Applying a plan, modules included, keeps the account iff none of the migrations it ran was on record. |
| MigrationRuns.StalePlanRunsTwice | overshift/src/plan.rs:163-169 | The witness: two instances plan and apply one after the other; the first pending up has run twice for one row. |
| MigrationRuns.FreshPlanAccounted | overshift/src/plan.rs:421-552 | A plan applied at once keeps the account. |
| MigrationRuns.BalanceAfter | overshift/src/plan.rs:210-286 | A version's balance after an apply is off by one exactly if it was run though recorded. |
| MigrationRuns.PendingTotals | overshift/src/plan.rs:210-286 | Exactly the migrations before the first failure run, in order, and exactly their versions are recorded. |
| MigrationRuns.RollBackExact | overshift/src/plan.rs:585-700 | Rollback goes strictly downward, takes back exactly the recorded versions above the target that have a down script and lie above the first that fails, and leaves every other row. |
| MigrationRuns.TakenBackExact | overshift/src/plan.rs:616-700 | What is taken back is decided by the down scripts and the version that ended the rollback. |
| MigrationRuns.RollBackAccounted | overshift/src/plan.rs:562-725 | A rollback keeps the account. |
| MigrationRuns.RollBackKeptIff | overshift/src/plan.rs:582-616 | Rolling back rows, however long ago they were read, keeps the account iff every version taken back was still on record. |
| MigrationRuns.RollBackSafeIff | overshift/src/plan.rs:582-616 | Whatever the scripts do, it keeps the account iff all the rows with a down script are still on record. |
| MigrationRuns.StaleRollBackRunsTwice | overshift/src/plan.rs:582-616 | The witness: two rollbacks read their rows and then run one after the other; the first down has run twice for one row. |
| MigrationRuns.InterleavedAccountedIff | overshift/src/plan.rs:210-700 | Over every interleaving of any applies and rollbacks, script by script, the account is right throughout iff no up runs while its version is on record and no down while it is not. |
| MigrationRuns.ScriptAccountedIff | overshift/src/plan.rs:210-700 | One script keeps the account iff it does not so misfire. |
| MigrationRuns.ApplyIsScripts | overshift/src/plan.rs:210-286 | An apply is the scripts of its migrations up to and including the first that fails. |
| MigrationRuns.RollBackIsScripts | overshift/src/plan.rs:616-700 | A rollback that no failing script ends is the scripts of its rows. |
| MigrationRuns.AlwaysAudited | overshift/src/plan.rs:239-286 | Over every run, the changelog's migration and rollback rows are the ups and downs that ran, in order. |
| MigrationRuns.ApplyAudited | overshift/src/plan.rs:201-345 | So even when the plan is stale. |
| Migrations.PendingExact | overshift/src/plan.rs:509-513 | Pending are the listed migrations not on record, in the order listed. |
| Migrations.DeleteExact | overshift/src/plan.rs:663-671 | Deleting a version removes that version alone. |
| Migrations.AboveExact | overshift/src/plan.rs:584-588 | The rows considered are exactly those above the target. |
| MigrationReplans.ApplyThenRollBack | overshift/src/plan.rs:201-701 | If a module-free plan succeeds, every pending down undoes its up, and the target separates old from pending, then rolling back restores the data and the rows. |
| MigrationReplans.RollBackUndoes | overshift/src/plan.rs:616-700 | Taking back migrations last first, from a database they were the last to change, restores it. |
| MigrationReplans.ReplanAfterApply | overshift/src/plan.rs:210-513 | With an unchanged manifest, planning again succeeds and finds exactly the suffix from the first failure on. |
| MigrationReplans.ReplanAfterRollBack | overshift/src/plan.rs:457-700 | After a rollback exactly the versions taken back are pending besides those that were. |
| MigrationReplans.SortsToReversed | overshift/src/plan.rs:591 | Sorting ascending rows newest first reverses them. |
| MigrationTraces.PendingStates | overshift/src/plan.rs:210-286 | Each migration runs on what the one before left, the first that fails ends the apply, and what it did is undone. |
| MigrationTraces.PendingLog | overshift/src/plan.rs:244-281 | One changelog row per migration that ran and one for the failure, each with its version, name, checksum and instance. |
| MigrationTraces.PendingRows | overshift/src/plan.rs:348-366 | Each migration that ran and was not on record gets a row with its version, checksum and instance. |
| MigrationTraces.ModuleStates | overshift/src/plan.rs:292-318 | Each module runs on what the one before left, the first that fails ends the loop, and what it did stays. |
| MigrationTraces.RollBackStates | overshift/src/plan.rs:616-700 | Each down script runs on what the one before left, rows without one are passed over, the first that fails ends the rollback, and what it did is undone. |
| MigrationTraces.RollBackLog | overshift/src/plan.rs:673-683 | One changelog row per version taken back, with its name and the checksum it had. |
| MigrationTraces.ComplaintsExact | overshift/src/plan.rs:624-698 | A rollback complains, newest first, of exactly the version that ended it and those passed over before for want of a down script. |
| Migrations.DownAndName | overshift/src/plan.rs:617-621 | The down script and name used for a version are those of the migration of that version. |
| SchemaSkips.SkipsIffUnchanged | overshift/src/plan.rs:516-542 | With distinct names, modules are skipped iff the latest row of every module carries its current checksum: the length test adds nothing. |
| SchemaSkips.ReplanSkipsModules | overshift/src/plan.rs:516-542 | Planning the same manifest after a successful apply drops every module. |
| SchemaSkips.LatestAfterApply | overshift/src/plan.rs:292-328 | An apply puts all its modules on record if all ran, and none otherwise. |
| SchemaSkips.StepSafeIff | overshift/src/plan.rs:292-328 | Whatever the scripts do, an apply keeps every row the checksum of a complete last run iff none of its modules has ever been put on record; that every complete last run has its row as well (the strict record) it keeps iff there is at most one such module. |
| SchemaSkips.InStepIff | overshift/src/plan.rs:292-328 | One apply keeps the record right, strict or not, iff all modules ran, or the one that failed has no row and those before it had the row they should (or, unless strict, none). |
| SchemaSkips.NeverRecordedStays | overshift/src/plan.rs:292-328 | The sufficient half of `StepSafeIff`, for any data. |
| SchemaSkips.AlwaysInStepIff | overshift/src/plan.rs:129-725 | Over every run of plan-and-apply and rollback, the record is right throughout iff every apply of the run keeps it right; rollbacks always do. |
| SchemaSkips.SkipIsTruthful | overshift/src/plan.rs:522-528 | While the record is right and the hash injective, skipped modules last ran with their current content and to completion; under the strict record also the other way round. |
| SchemaSkips.SkippedThoughDifferent | overshift/src/plan.rs:292-328 | A witness: a failed apply of edited content, then the old content again; nothing is planned though the edit is in force. |
| SchemaSkips.SkippedThoughBroken | overshift/src/plan.rs:300-308 | A witness: a single edited module fails partway and is reverted; nothing is planned though running the old content would change the data. |
| MigrationEngine.Database.MakePlan | overshift/src/plan.rs:421-552 | Planning succeeds iff function names can be extracted from the modules, versions are distinct and no row and file of one version differ in checksum, and then finds the pending migrations, the modules not skipped and the functions to look for; each error names its cause, and a differing checksum is always found. |
| Migrations.MismatchMeans | overshift/src/plan.rs:456-469 | A row is mismatched iff it and a file of its version differ in checksum. |
| Migrations.SourceJoin | overshift/src/schema.rs:32-36 | The source searched for functions is that of the modules one after another. |
| MigrationEngine.Database.RunPending | overshift/src/plan.rs:210-286 | The loop's effect on data, rows, changelog and trace is the recursive specification's, and its count the number that ran. |
| MigrationEngine.Database.RunPlan | overshift/src/plan.rs:201-345 | Modules run even after a failed migration and are recorded only if all ran; a failed module is reported first, missing functions next, the first failed migration last. |
| MigrationEngine.Database.ApplyPlan | overshift/src/plan.rs:129-196 | An empty plan needs no lock, a plan without the lock does nothing, and success means everything ran and every function looked for is there. |
| MigrationEngine.Database.RollBackTo | overshift/src/plan.rs:562-725 | The new state, the versions taken back and the versions complained of are those specified. |
| MigrationEngine.ApplyUnderLock | overshift/src/plan.rs:129-196 | An empty plan leaves data and lock alone; otherwise the plan is applied iff the retry loop gets the lock among the events of others. However the work ends, the instance then no longer holds the lock, and if the lease was still its own anyone may claim it at once. |
| MigrationEngine.RollBackUnderLock | overshift/src/plan.rs:582-713 | Likewise for a rollback, which takes no lock when nothing lies above the target; afterwards the lock is free in the same sense. |
| MigrationEngine.Database.RunDowns | overshift/src/plan.rs:616-700 | The loop passes over a missing down script and ends at a failing one. |
| MigrationEngine.Database.ReadApplied | overshift/src/plan.rs:369-410 | The rows by ascending version, none lost or added. |
| MigrationEngine.Database.ReadSchemaChecksums | overshift/src/changelog.rs:61-93 | First-wins over newest-first rows is the latest checksum of each module. |
| MigrationEngine.Database.RunTransaction | overshift/src/plan.rs:219-239 | If the query reports no error the data is what it leaves, and otherwise what it was. |
| MigrationEngine.Database.RecordModules | overshift/src/plan.rs:324-328 | One row per module with its name and the checksum of its content, in order. |
| MigrationEngine.FindDuplicate | overshift/src/plan.rs:497-507 | A duplicate version is reported iff there is one. |
| MigrationEngine.FindMissing | overshift/src/validate.rs:36-54 | The functions reported missing are those whose key is there neither with nor without prefix. |
| MigrationEngine.SkipTest | overshift/src/plan.rs:522-526 | Comparing against the checksums read back decides the skip. |
| MigrationEngine.Perform | overshift/src/plan.rs:129-725 | Carrying out any list of commands on the database keeps it accounted for and audited. |
| Positions.OffsetRoundTrip | lsp/src/server.rs:1874-1882 | Offset to position and back is the identity at every code point boundary, except just after a carriage return that ends its line, where it falls back one byte. |
| Positions.PositionRoundTrip | lsp/src/completion.rs:393-410 | Position to offset and back is the identity on exactly the positions whose line exists and whose column is a UTF-16 boundary of it; the offset is always a code point boundary within the source. |
| Positions.PositionToByteOffset | lsp/src/completion.rs:393-410 | The loop computes the byte length of the text before the position's code point. |
| Positions.TargetClamped | lsp/src/completion.rs:406-409 | A line past the source counts as its end, and a column past a line as the end of its clean part. |
| Positions.ColumnLeast | lsp/src/completion.rs:399-404 | In a line it is the first place whose width reaches the character. |
| Positions.OffsetClamped | lsp/src/server.rs:1875 | An offset past the end counts as the end. |
| Positions.TrailingCrInLine | lsp/src/completion.rs:397 | The exceptional offsets are exactly those beyond the clean part of their line. |
| Positions.CharIndexOfPrefix | lsp/src/server.rs:1876 | Slicing at a boundary's byte offset finds that boundary. |
| Texts.PlaceOf | lsp/src/completion.rs:395-396 | Every place in a line is a place in the text, at the byte the line begins plus its column. |
| Texts.LineOf | lsp/src/server.rs:1877-1878 | Every place in the text is a place in one of its lines, counted by the newlines before it. |
| Encodings.Utf8Width | lsp/src/completion.rs:406 | The width in bytes is that of an encoding that reads back to the code point, and no shorter one does. |
| Encodings.Utf16Width | lsp/src/server.rs:1880 | The width in code units likewise. |
| Recovery.SplitIntoChunks | src/recovery.rs:76-126 | Chunks are ordered and apart, each running from the start or a top-level semicolon to the next one or the end; every non-blank character outside such a semicolon is in a chunk; a chunk holds one iff the source is only separators; a source of more than 2^32 - 1 bytes is one chunk. |
| Recovery.DepthIsUnclosed | src/recovery.rs:89-92 | The brace depth is the most by which the open braces behind any place outnumber the closing ones. |
| Recovery.Finish | src/recovery.rs:105-125 | The last chunk completes the cut, and blanks and separators alone fall back to the whole source. |
| Recovery.LoneSeparator | src/recovery.rs:119-125 | The witness: every cut of a lone semicolon holds a separator. |
| Recovery.RebasedStart | src/recovery.rs:50-60 | A moved start is right iff it was not on the chunk's first line or the line before the chunk is ASCII; its line always is. |
| Recovery.RebasedEnd | src/recovery.rs:50-60 | The exact condition for a moved end, and its line always right. |
| Recovery.StartMovedTooFar | src/recovery.rs:50-56 | The witness: behind a character of two bytes a start lands one column too far. |
| Recovery.EndMovedAlong | src/recovery.rs:50-56 | The witness: an end on a later line is moved along with its start. |
| Recovery.RebasedInAscii | src/recovery.rs:50-60 | In an ASCII source a moved span is the span in the whole source, unless it leaves the chunk's first line. |
| Recovery.AsciiReports | src/recovery.rs:42-60 | In an ASCII source every reported diagnostic spans, in the source, whatever places of its chunk the parser's diagnostic spans, unless that leaves the chunk's first line. |
| Recovery.PlaceInWhole | src/recovery.rs:129-135 | Lines add up, and columns do on the chunk's first line. |
| Recovery.ParseWithRecovery | src/recovery.rs:30-62 | Statements and diagnostics are, in source order, those of the non-blank chunks of such a cut, each parsed on its own, failures moved to the whole source, and in an ASCII source to the right places. |
| Recovery.PiecesJoin | src/recovery.rs:39-59 | The chunks contribute statements and diagnostics one after another, in source order. |
| Recovery.OnePiece | src/recovery.rs:40-59 | A chunk contributes its statements, or each of its diagnostics moved, and a blank one nothing. |
| IncrementalReplay.DualEngine.ApplyMigrations | lsp/src/embedded_db.rs:82-164 | If some readable file is new or edited, the workspace becomes the full replay in path order, the errors are exactly the files that fail on what those before them left, in order, and every file's hash, size and outcome are recorded; otherwise nothing changes. |
| IncrementalReplay.DualEngine.RunAll | lsp/src/embedded_db.rs:125-150 | Running all files from an empty workspace is the full replay, failed files included, and the errors are exactly those whose run fails. |
| IncrementalReplay.FailedNext | lsp/src/embedded_db.rs:128-149 | One more file is added to the errors iff it fails on what the files before it left. |
| IncrementalReplay.ReadableMeans | lsp/src/embedded_db.rs:91-98 | A file is taken with its content iff it can be read. |
| IncrementalReplay.DualEngine.MarkFileApplied | lsp/src/embedded_db.rs:245-275 | One file's record is replaced. |
| IncrementalReplay.AnyChanged | lsp/src/embedded_db.rs:197-202 | The scan finds a change iff a readable file is not on record with its hash. |
| IncrementalReplay.ReplayRun | lsp/src/embedded_db.rs:82-164 | Over every run, deletions included, the record holds what was last applied under every path ever and the workspace is the full replay of the files last replayed; in a run that deletes nothing those are the current files. |
| IncrementalReplay.ReplaySafeIff | lsp/src/embedded_db.rs:99-123 | From any state a run reaches, an apply is sure to end with the full replay iff some file is new or edited since it was last applied, or in path order the files hold what those last replayed held. |
| IncrementalReplay.ReplayedIsKnown | lsp/src/embedded_db.rs:245-275 | In every state a run reaches, the contents last replayed are on record. |
| IncrementalReplay.ChangeSeenIff | lsp/src/embedded_db.rs:103-113 | The scan sees a change iff some file is new or edited since it was last applied. |
| IncrementalReplay.NothingLeftBehind | lsp/src/embedded_db.rs:82-164 | In a run that deletes nothing, the files last replayed and those on record are the current files. |
| IncrementalReplay.RestoreGoesUnnoticed | lsp/src/embedded_db.rs:99-123 | The witness: a file is deleted while another is edited and then comes back as it was; the workspace lacks it. |
| IncrementalReplay.ApplyAgrees | lsp/src/embedded_db.rs:82-164 | From a state a run reaches, one apply ends with the full replay if a file is new or edited or the contents are those last replayed, and keeps record and workspace in step; from any other state it does iff it saw a change or the workspace was that replay. |
| IncrementalReplay.UnchangedMeansSame | lsp/src/embedded_db.rs:103-113 | When no file ever applied is missing, an unchanged verdict means the files are those last applied. |
| IncrementalReplay.SyncKept | lsp/src/embedded_db.rs:82-164 | An apply, of whatever files, keeps record and workspace in step with what was last applied and last replayed. |
| IncrementalReplay.DeletionGoesUnnoticed | lsp/src/embedded_db.rs:99-123 | Deleting the last file whose run had an effect leaves that effect. |
| IncrementalReplay.FullReplayUnique | lsp/src/embedded_db.rs:82-164 | A set of files has one full replay. |

## Left out

- The SurrealQL lexer, parser and AST printing: definition lists, record links and token lists are inputs.
- SurrealDB itself, sessions, network errors and async scheduling: queries are atomic steps on modelled tables; contents act through an uninterpreted function, which for a transaction either takes effect whole or not at all.
- Bookkeeping writes are taken to succeed, except that a second row for one version is refused by the unique index; rows of the wrong shape in `read_applied` and `read_schema_checksums`, and a failed read of the checksums, are not modelled.
- Hashes (SHA-256, FNV) are a parameter; where a result needs them to tell contents apart it says so in its `requires`.
- Directory walking, TOML, environment handling and logging, including the warnings for version gaps and duplicate functions; error message texts.
- MigrationEngine.Database.ApplyPlan: takes the outcome of the retry loop as a parameter, which `ApplyUnderLock` supplies; shadow verification is not modelled.
- MigrationEngine.Database.RollBackTo: likewise takes the outcome as a parameter, which `RollBackUnderLock` supplies.
- MigrationEngine.ApplyUnderLock: the tables are this instance's alone while it runs; an apply that outlives its lease while another runs is what `InterleavedAccountedIff` speaks of.
- MigrationEngine.RollBackUnderLock: in the source a rollback whose bookkeeping write or change of database fails leaves without releasing the lock (`overshift/src/plan.rs:637-685`), which then stays until it expires; such failures are not modelled.
- MigrationEngine.Database.MakePlan: what the parser accepts and finds is a parameter. The second checksum pass over overlapping versions compares what the first has already compared, so it never fires and is not repeated; the empty-module shortcut gives the same plan.
- MigrationRuns.AlwaysAccounted: commands do not interleave; `InterleavedAccountedIff` is the statement for scripts that do, and there schema modules, which touch no account, are left out.
- `force_release`, the definition of the lock table and the validation of lock scopes are not modelled.
- SchemaSkips.StepSafeIff: the side that exhibits a failing server is over servers whose data is a count; the other side is `NeverRecordedStays`, over any data.
- IncrementalReplay.ReplaySafeIff: likewise, over workspaces that are lists of contents; the sufficient side holds of any workspace (`SureToAgree`).
- Workspaces.Workspace.RebuildFileSchema: rebuilds are taken one at a time; a parse task that panics (nothing changes) and the manifest file written in the background are not modelled.
- Workspaces.Workspace.MergeFileSchemas: merging and storing are one step, where the source gives up the cache's lock before it stores the merge (`lsp/src/server.rs:234-236`), so that two overlapping rebuilds can store the older merge.
- Positions.ByteOffsetToPosition: lines and columns are unbounded, where the source truncates them to 32 bits; an offset inside a code point, where the source panics, is excluded.
- Versions are unbounded, where the source reads a row's version into 32 bits.
- Recovery.SplitIntoChunks: places are counted in code points, taking the lexer's spans to fall between them; brace depth is unbounded.
- Recovery.RebasedStart: columns of a parser diagnostic are taken to count code points from 1 with lines ended by a line feed.
- SchemaDiffs.CompareSchemas: an index or event name that a one-sided table repeats is reported as often; an absent and an empty kind are both written as empty text, and an added field carries no kind.
- IncrementalReplay.DualEngine.ApplyMigrations: paths are lists of components, told apart by their text; a file is taken to stay inside the workspace database, so that resetting it undoes every effect (no `USE`, no definitions at root or namespace level).
- IncrementalReplay: queries run on the workspace by other means (`execute_on_workspace`, `validate_query`) are excluded from runs; lost writes to the record of files are not modelled.
- `attach_source_locations`, `siblings_of`, markdown builders, formatting, lint, macros and the language server's user interface: easy members or presentation.
