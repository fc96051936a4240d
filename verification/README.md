# ThetaBase: a model of its query, archive, migration, revocation and log logic

This project models the parts of ThetaBase whose promises span several functions, and proves
those promises, or exactly when they hold. One module stands for one component.

**Queries.** `Plans`, `Values` and `Floats` give the plan and value types. `Exec` holds the
evaluator as a function, with its row budgets and index lookups, next to a plain meaning of plans
that has neither; `Executor` holds the loops of the source, each proved against that function.
`Refinement` proves that the evaluator honours the meaning, `Lookups` what keys and indexes are
asked for, `Predicates`, `Sorting`, `JoinedRows`, `Aggregation` and `GroupedRows` what the operators
select, order, join and group, `Provenance` what a result's rows are about, `Parameters` when a
checked plan can still fail, `Builder` what a chain of builder calls means, `Optimizer`,
`IndexChoice` and `Settling` what the optimizer keeps, which index it chooses and when a second run
of it is needed, `PlanEncoding` and `Encoder` how far a plan's hash identifies it. `IndexKeys`
proves that index keys are in the executor's order and that an index sweep reaches what it must.
`ViewIndex` is one column's index, `TableViews` the materialized view of a table as an object that
writes and schema changes update in place, `ViewRuns` which of them keep its indexes in step, on
every run, and `ViewQueries` what queries over such views return. Floats are a sign and a 63-bit
magnitude (section 3.4 of IEEE 754-2019); conversion from integers is written out.

**Archive.** `Manifest.dfy` is the manifest with retention, `Custody` the sweep, the custodian and
the local log as objects, `CustodyRuns` a state machine whose archive answers as it likes, `Drill`
the restore drill and its log.

**Migration.** `Importing` is keyset pagination, `Migration` the copying and verifying loops against
a world that may fail at any point, `MigrationResults` what they achieve, `Verifying` the comparison
of rows, `Calendar`, `Timestamps`, `TimestampText`, `ArrayLiteral`, `Addresses` and `Joining` the
formats in between.

**Revocation.** `Revocation` is the control plane's list and a replica that receives any of its
versions, in any order, any number of times.

**Log.** `LogChain` is the hashing of entries and what a head commits to, `LogStore` the index of
entries, its walks, and the replay that looks for tampering.

`Prelude`, `Strings` and `Endian` hold shared vocabulary. Text is compared and measured by its
UTF-8 bytes. Hash functions, parsers of single columns, float addition and the outside world are
parameters. No theorem assumes a hash function without collisions: it names the collision that would
break it, or asks that the bytes at hand do not collide.

## Where the code and its documentation differ

The model follows the code. Each point is a lemma with a concrete witness, an exact condition, or both.

- A LIMIT with an offset that is handed a budget reads `min(offset + count, budget)` rows, which is
  too few (`crates/theta-query/src/exec.rs:260`): `Refinement.BudgetedLimitExactly`. Removing an
  always-true filter can expose one (`crates/theta-query/src/optimize.rs:190-194`):
  `Optimizer.OptimizeKeepsSafeExactly`, `Optimizer.TrivialFilterShieldedTheLimit`.
- The two zeros compare equal and have different index keys (`crates/theta-core/src/index.rs:82`),
  and strict bounds lose integers beyond 2^53 (`crates/theta-core/src/index.rs:141-165`):
  `IndexKeys.SweepIsSupersetExactly`, `IndexKeys.StrictBoundLosesAnInteger`.
- A range whose ends are of different types is documented as refused
  (`crates/theta-core/src/index.rs:121-123`); the code returns a span. No value satisfies the range,
  and where its lower end ranks higher the sweep itself would panic; the executor builds one-sided
  ranges only: `IndexKeys.MixedRangeMatchesNothing`, `IndexKeys.OneSidedIsNeverReversed`.
- Indexes are documented as a fold over the rows that can be rebuilt at any time
  (`crates/theta-storage/src/view.rs:62-69`). Replacing one zero by the other leaves a stale key
  (`crates/theta-storage/src/view.rs:287-305`), and renaming or dropping a column, dropping a table
  or declaring one over rows it already has touches no index
  (`crates/theta-storage/src/view.rs:401-416`, `crates/theta-storage/src/view.rs:448-458`), which
  leaves stale keys and rows that are not filed: `ViewRuns.StepKeepsCurrentExactly`. A lookup by the
  new name then misses the row: `ViewQueries.RenamedRowIsLost`.
- An index over `_key` files a field of that name while the executor means the primary key
  (`crates/theta-storage/src/view.rs:181-186`): `ViewQueries.KeyColumnLookupExactly`.
- Values that do not compare are documented as sorting last (`crates/theta-query/src/exec.rs:537-543`);
  only missing ones do, and an explicit null ties with every value, so mixed columns sort in circles
  (`crates/theta-query/src/exec.rs:546`): `Sorting.PreordersExactly`.
- Different tuples can share a group (`crates/theta-query/src/exec.rs:581`): texts with the separator
  in them, and a value with the text it is written as: `Aggregation.GroupKeyIdentifiesExactly`,
  `Aggregation.NumberSharesItsTextsGroup`.
- A join's binding removes every parameter of that name collected so far, those of its own outer side
  and of plans outside it, from the list that is checked up front
  (`crates/theta-query/src/plan.rs:257-270`): `Parameters.ReportSufficesExactly`,
  `Parameters.JoinParametersSufficeExactly`, `Parameters.DistantJoinShadowsToo`.
- Pushing a filter below a projection changes the columns of the result
  (`crates/theta-query/src/optimize.rs:44-53`): `Optimizer.OptimizeKeepsColumnsExactly`. The
  optimizer is not idempotent on stacked filters: `Settling.IdempotentExactly`.
- Two structurally different plans can have the same bytes
  (`crates/theta-query/src/plan.rs:371-373`): `PlanEncoding.EncodingIdentifiesExactly`.
- `restore_plan` starts at zero and `gaps` at the horizon (`crates/theta-archive/src/manifest.rs:94-131`):
  `ArchiveManifest.RestorableToHeadExactly`, `ArchiveManifest.ExpiryEndsRestores`. A forgotten
  segment that is still local is archived again and opens a gap: `CustodyRuns.SweepOpensAGapExactly`,
  `CustodyRuns.RetainedLogOpensAGap`.
- A drill is documented as catching bit rot (`crates/theta-archive/src/drill.rs:250-253`); it
  compares lengths only: `Drill.DrillAgainstRestore`. A full pass says nothing of a restore once
  anything has expired: `Drill.FullPassRestoresExactly`.
- A batch size of zero migrates nothing and reports nothing (`crates/theta-eject/src/migrate.rs:104-110`):
  `MigrationResults.CopiesEverythingExactly`, `MigrationResults.EmptyBatchesFindNothing`. A NaN that
  arrived intact is reported as lost (`crates/theta-eject/src/verify.rs:197`):
  `MigrationResults.CompleteMigrationIsCleanExactly`. Table names are not kept free of colons
  (`crates/theta-eject/src/plan.rs:211`): `Addresses.ColonMovesTheRow`.
- "An instance that has never synced authorizes nothing" fails at the largest limit
  (`crates/theta-identity/src/revocation.rs:245-255`): `Revocation.NeverSyncedExactly`. An old list
  that arrives late counts as being up to date (`crates/theta-identity/src/revocation.rs:217-224`):
  `Revocation.OldListCountsAsFresh`, `Revocation.RevokedYetAllowed`.
- An entry's hash commits to its operation as written; serde_json writes every float that is not
  finite as null, so such entries share a hash (`crates/theta-core/src/log.rs:244`): the condition
  in `LogChain.HashCommits` is equality of the written forms.

- An append whose checkpoint fails returns an error although the entry is durable, indexed and the
  head of its branch (`crates/theta-storage/src/durable.rs:506-508`): `LogStore.Store.Append`.

## Model

| member | source | states |
|---|---|---|
| `Refinement.EvaluateHonours` | crates/theta-query/src/exec.rs:99-285 | for every plan, source, bindings and budget: where the plain meaning (no budget, no index) succeeds, evaluation succeeds with a prefix of it, at least as long as the budget or the whole; the conditions are that no LIMIT with an offset is handed a budget it does not fit in, and that indexes answer with supersets |
| `Refinement.ExecutionIsMeaning` | crates/theta-query/src/exec.rs:59-73 | without a budget at the top, evaluation returns exactly the rows of the plain meaning |
| `Refinement.BudgetedLimitExactly` | crates/theta-query/src/exec.rs:252-268 | `min(offset + count, budget)` is right for a budgeted LIMIT over every table if and only if the offset is zero or the largest, the count or the budget is zero, or the budget covers offset and count; otherwise a nested LIMIT loses rows |
| `Refinement.LimitHonoursBudget` | crates/theta-query/src/exec.rs:252-268 | the window of a long enough prefix is a prefix of the window, saturating sums included |
| `Refinement.FilterHonoursBudget` | crates/theta-query/src/exec.rs:304-320 | a filter stopped early has produced a prefix of what it would have kept, and enough of it |
| `Refinement.JoinHonours` | crates/theta-query/src/exec.rs:174-215 | a join stopped at its budget has produced a prefix of the nested loop over all outer rows, inner plans evaluated with the extra binding |
| `Refinement.CandidatesCover` | crates/theta-query/src/exec.rs:441-514 | index candidates are in key order and contain every row the predicate matches, by induction over predicates: AND through any one conjunct, OR only through all of them |
| `Refinement.IndexScanIsFilteredScan` | crates/theta-query/src/exec.rs:141-172 | fetching the candidates and filtering again gives the very sequence that filtering a full scan gives |
| `Lookups.PointLookupIsFilteredScan` | crates/theta-query/src/exec.rs:125-139 | a lookup by key returns what filtering a scan by that key does, over any table in key order |
| `Lookups.AndIsAnsweredByFirst` | crates/theta-query/src/exec.rs:441-514 | a conjunction is answered by the first term an index answers, and by none if and only if none can be |
| `Lookups.OrIsAnsweredByAll` | crates/theta-query/src/exec.rs:441-514 | a disjunction is answered if and only if every term is, with exactly the keys of all of them in ascending order |
| `Lookups.InAsksForAll` | crates/theta-query/src/exec.rs:441-514 | an IN asks for the values of its operands in their order if all resolve, and otherwise for nothing |
| `Exec.WindowIsSkipTake` | crates/theta-query/src/exec.rs:252-268 | the saturating slice of a LIMIT is skip-then-take, for every 64-bit offset and count |
| `Executor.Eval` | crates/theta-query/src/exec.rs:112-285 | the recursive evaluator with its loops computes the evaluation function the theorems are about |
| `Executor.FilterUpTo` | crates/theta-query/src/exec.rs:304-320 | the early-stopping loop computes the budgeted filter |
| `Executor.IndexCandidates` | crates/theta-query/src/exec.rs:441-514 | the recursive search for candidates, with its intersect-nothing AND and all-or-nothing OR, computes the candidate function |
| `Executor.JoinRows` | crates/theta-query/src/exec.rs:174-215 | the nested loop with its remaining-budget counter computes the join function |
| `Executor.AggregateAll` | crates/theta-query/src/exec.rs:553-607 | the grouping loop over a sorted map computes one row a group in ascending key order |
| `Executor.SumOf` | crates/theta-query/src/exec.rs:645-667 | the running total: integral and saturating until the first float, then a float |
| `Executor.Extreme` | crates/theta-query/src/exec.rs:672-684 | the best-so-far loop behind MIN and MAX |
| `Executor.ResolveOperands` | crates/theta-query/src/exec.rs:441-514 | operands in order, or nothing as soon as one cannot be resolved |
| `Predicates.ComparisonsPartition` | crates/theta-query/src/exec.rs:322-341 | where the column is present and compares with the operand exactly one of `<`, `=`, `>` holds, `!=` is the complement of `=`, `<=` and `>=` are the unions; where not, none of the six holds and none fails |
| `Predicates.NotIsComplement` | crates/theta-query/src/exec.rs:374 | a negation holds exactly where its term is false, and fails where it fails |
| `Predicates.IsNullExactly` | crates/theta-query/src/exec.rs:351-353 | holds exactly on a missing column and on an explicit null |
| `Predicates.AndExactly` | crates/theta-query/src/exec.rs:354-363 | true when all terms are; otherwise the first term that does not hold decides, by being false or by failing |
| `Predicates.OrExactly` | crates/theta-query/src/exec.rs:364-373 | false when all terms are; otherwise the first term that is not false decides, by being true or by failing |
| `Predicates.InIsAnyEquality` | crates/theta-query/src/exec.rs:342-350 | an IN judges every row, failures included, as the disjunction of its equalities |
| `Predicates.NegatedOrIsAnd` | crates/theta-query/src/exec.rs:354-374 | a negated disjunction judges every row, failures included, as the conjunction of the negations |
| `Predicates.ParametersStandForValues` | crates/theta-query/src/exec.rs:410-428 | a predicate under bindings judges every row as it does with the bound values written in place, and fails on the same unbound parameter |
| `JoinedRows.JoinMeaning` | crates/theta-query/src/exec.rs:174-215 | the meaning of a join is the outer rows, each paired with the rows of the inner plan under its key, none without one |
| `JoinedRows.EveryPairIsJoined` | crates/theta-query/src/exec.rs:378-408 | every outer row is joined with each of its partners, right after all pairs of earlier outer rows and of earlier partners: under the outer row's key, each field the inner's where it has it and otherwise the outer's, a bare value under "outer" or "inner", and no other field |
| `JoinedRows.EveryJoinedRowIsAPair` | crates/theta-query/src/exec.rs:174-215 | and every row of a join is such a pair |
| `JoinedRows.JoinFailsExactly` | crates/theta-query/src/exec.rs:174-215 | a join fails if and only if the inner plan fails for an outer row with a key, and as it does for the first of these |
| `JoinedRows.JoinedColumns` | crates/theta-query/src/exec.rs:378-408 | each column of a joined row is the inner row's where that has it and otherwise the outer row's; its `_key` is the outer row's |
| `Provenance.RowsAreAboutSource` | crates/theta-query/src/plan.rs:217-234 | every row of a plan without grouping goes under the key of a row of the plan's source table, which for a join is that of its outer side |
| `Sorting.PreordersExactly` | crates/theta-query/src/exec.rs:537-551 | the column comparator is a total preorder on a set of value kinds if and only if they are of one kind, or of none that can be ordered: any two others admit a cycle |
| `Sorting.CompareRowsTransitive` | crates/theta-query/src/exec.rs:229-250 | the multi-column comparator with its direction and key tie-break is transitive on rows whose sort columns are comparable |
| `Sorting.CompareRowsReverse` | crates/theta-query/src/exec.rs:229-250 | the comparator is antisymmetric on every pair of rows |
| `Sorting.ComparatorIsOrder` | crates/theta-query/src/exec.rs:229-250 | for every pair of rows: the comparator lets one stand before the other if and only if, on the first sort column where they do not tie, ascending it is not greater and not missing, descending it is not less and the other not missing, and with no such column its primary key is not greater |
| `Sorting.SortArranges` | crates/theta-query/src/exec.rs:229-250 | on comparable columns a sort is a permutation in which every row stands before every later one by right, column by column, missing ones last ascending and first descending, then by primary key |
| `Sorting.SortIsDeterministic` | crates/theta-query/src/exec.rs:229-250 | with distinct keys as well it is the only such permutation, so it is the same whatever order the rows arrived in |
| `Sorting.SortKeepsRows` | crates/theta-query/src/exec.rs:229-250 | sorting keeps every row with its multiplicity, comparable or not |
| `Sorting.MixedColumnSortsInACircle` | crates/theta-query/src/exec.rs:537-551 | three rows of a mixed column that the comparator orders in a circle, and whose sorted order depends on arrival order |
| `Sorting.FilterSortCommute` | crates/theta-query/src/optimize.rs:48-66 | filtering sorted rows is sorting filtered rows |
| `Aggregation.GroupingPartitionsRows` | crates/theta-query/src/exec.rs:553-607 | every row is in exactly one non-empty group, and groups come out in strictly ascending key order |
| `Aggregation.GroupCountsAddUp` | crates/theta-query/src/exec.rs:609-643 | the groups' COUNT(*) values add up to the number of rows, whatever else the query aggregates, when the alias names that count |
| `Aggregation.GroupSumsAddUp` | crates/theta-query/src/exec.rs:609-667 | the groups' integer SUMs add up to the SUM over all rows while no running total saturates, whatever else the query aggregates |
| `GroupedRows.GroupRowExactly` | crates/theta-query/src/exec.rs:584-606 | a group's row has the grouping columns, with the values of the first row that arrived in the group and Null for a missing one, and the aliases, which win over columns of their names, and nothing else |
| `GroupedRows.GlobalRowExactly` | crates/theta-query/src/exec.rs:558-573 | without grouping columns there is one row, whatever the input, with the aliases and nothing else |
| `GroupedRows.CountExactly` | crates/theta-query/src/exec.rs:609-628 | COUNT(column) is how many rows have a value there that is not null, COUNT(*) how many there are |
| `GroupedRows.GroupColumnCountsAddUp` | crates/theta-query/src/exec.rs:609-628 | the groups' COUNT(column) values add up to the number of rows with a value there |
| `GroupedRows.SumExactly` | crates/theta-query/src/exec.rs:645-667 | SUM is a float if and only if some row has one there, and otherwise the sum of the integers there while no running total saturates |
| `GroupedRows.AverageIsSumOverCount` | crates/theta-query/src/exec.rs:629-640 | AVG is the SUM divided by the COUNT of the column, and Null where no row has a value |
| `Aggregation.ExtremeIsUnbeaten` | crates/theta-query/src/exec.rs:672-684 | no value of the column beats the one MIN or MAX returns, on a column of one orderable kind |
| `Aggregation.GroupExtremesAgree` | crates/theta-query/src/exec.rs:609-684 | aggregating the output column of the groups' MINs once more gives a value equal to the MIN of all rows, groups without one dropping out, and likewise MAX, whatever else the query aggregates |
| `Aggregation.GroupKeyIdentifiesExactly` | crates/theta-query/src/exec.rs:575-590 | a group key tells its tuple of values from every other if and only if every value is a text that is not how another value is written, and there is one grouping column or no text contains the separator U+0001 |
| `Aggregation.GroupKeyOfValues` | crates/theta-query/src/exec.rs:575-580 | the key a row is grouped under is the key of the tuple of its grouping values, an absent one counting as Null |
| `Aggregation.GroupsAreEqualValues` | crates/theta-query/src/exec.rs:575-590 | two rows share a group if and only if their grouping values are equal, absent as Null, when these are told apart as they are written and one row's texts have no separator |
| `Aggregation.NumberSharesItsTextsGroup` | crates/theta-query/src/exec.rs:686-693 | a number and the text it is written as share a group, however numbers are written |
| `Aggregation.DistinctTuplesShareAGroup` | crates/theta-query/src/exec.rs:575-590 | two rows that differ in every grouping column and share a group |
| `Parameters.ClosedNeverUnbound` | crates/theta-query/src/exec.rs:112-285 | a plan whose parameters are bound where they are read never meets an unbound one, in any row |
| `Parameters.CheckedPlanNeverUnbound` | crates/theta-query/src/exec.rs:64-97 | after the check up front no row can meet an unbound parameter, when the plan reports every name it reads |
| `Parameters.CheckPassesExactly` | crates/theta-query/src/exec.rs:64-97 | the check passes if and only if every parameter asked for is bound to null or a value of its declared type; otherwise it names the first for which that is not so, with both types |
| `Parameters.ReportSufficesExactly` | crates/theta-query/src/plan.rs:238-273 | for every plan: binding what it reports closes it if and only if it reports every name it reads from its caller |
| `Parameters.UnshadowedReportsAll` | crates/theta-query/src/plan.rs:238-273 | a plan in which no join's outer side reads a name that the join or one within its inner side binds, so any plan without joins, reports exactly the names it reads |
| `Parameters.JoinParametersSufficeExactly` | crates/theta-query/src/plan.rs:238-273 | when what both sides of a join report is enough to close them, what the join reports is enough if and only if its outer side reads neither the name the join binds nor, unless the inner side asks for it too, one that a join within the inner side binds |
| `Parameters.JoinReports` | crates/theta-query/src/plan.rs:238-273 | a join reports its outer side's names that no join within the inner side binds, and its inner side's names, except the name it binds |
| `Parameters.ShadowedParameterFailsHalfWay` | crates/theta-query/src/plan.rs:257-270 | a join that passes the check with nothing bound and then fails on an unbound parameter |
| `Parameters.DistantJoinShadowsToo` | crates/theta-query/src/plan.rs:257-270 | and one whose inner side has a join that binds a name the outer side reads |
| `IndexKeys.KeyOrderIsValueOrder` | crates/theta-core/src/index.rs:40-94 | where the executor orders two values their byte keys are in the same order; the exceptions are exactly two integers sharing a float, and the two zeros |
| `IndexKeys.RanksDoNotInterleave` | crates/theta-core/src/index.rs:27-79 | keys of values the executor cannot compare are ordered by type rank alone, so their spans are disjoint |
| `IndexKeys.SmallIntegersKeepTheirKeys` | crates/theta-core/src/index.rs:82-90 | different integers within 2^53 of zero have different keys |
| `IndexKeys.SweepIsSupersetExactly` | crates/theta-core/src/index.rs:124-167 | the spans of a one-sided bound reach every value the predicate matches if and only if the bound is safe: an inclusive bound not at one of the zeros, a strict integer bound not sharing its float with its neighbour |
| `IndexKeys.SafeBoundSweepsMatches` | crates/theta-core/src/index.rs:124-167 | a safe bound, two-sided ones included, loses no matching value |
| `IndexKeys.StraysExactly` | crates/theta-core/src/index.rs:124-167 | for each stored value: a one-sided bound it matches sweeps past it if and only if it is a zero where only the other zero is asked for, or an integer strictly beyond the operand that shares its float |
| `IndexKeys.OneSidedIsNeverReversed` | crates/theta-core/src/index.rs:124-167 | no bound a predicate asks for has a span whose ends are the wrong way round, which an ordered map refuses to sweep |
| `IndexKeys.SmallStrictBoundsAreSafe` | crates/theta-core/src/index.rs:141-165 | strict integer bounds inside 2^53 are safe |
| `IndexKeys.StrictBoundLosesAnInteger` | crates/theta-core/src/index.rs:141-165 | `x > 2^53` sweeps past the stored integer 2^53 + 1 |
| `IndexKeys.MixedRangeMatchesNothing` | crates/theta-core/src/index.rs:119-124 | a range whose ends are of different types is given a span, one the wrong way round if and only if its lower end ranks higher, and no value at all satisfies it |
| `IndexKeys.RefusedExactlyWhenUnencodable` | crates/theta-core/src/index.rs:131-140 | an IN is refused if and only if some member has no key; it never becomes a shorter list of spans |
| `IndexKeys.EncodeMembers` | crates/theta-core/src/index.rs:131-140 | the loop over IN members computes those spans |
| `Floats.RoundsToNearestEven` | crates/theta-core/src/index.rs:40-56 | the integer-to-float conversion rounds to nearest, ties to even, as section 4.3.1 of IEEE 754-2019 prescribes |
| `Floats.NaNExactly` | crates/theta-core/src/index.rs:40-56 | a float is a NaN if and only if its exponent is the largest and its fraction is not zero, as section 3.4 of IEEE 754-2019 has it |
| `Floats.FromIntMonotone` | crates/theta-core/src/index.rs:40-56 | the conversion is monotone on every 64-bit integer, and strictly so within 2^53 |
| `Floats.SharedRounding` | crates/theta-core/src/index.rs:40-56 | two integers share a float only if each shares it with its neighbour towards the other |
| `Endian.BigEndianOrder` | crates/theta-core/src/index.rs:82-94 | lexicographic order on big-endian bytes is numeric order |
| `Values.CompareValuesReverse` | crates/theta-query/src/exec.rs:516-535 | the partial order on values is antisymmetric, and defined both ways or neither |
| `Strings.CompareStringTotal` | crates/theta-query/src/exec.rs:516-535 | text order, by UTF-8 bytes, is a total order that equates only equal strings |
| `ViewIndex.ReindexKeepsStepExactly` | crates/theta-storage/src/view.rs:275-306 | reindexing one changed row keeps the index exact if and only if the change did not swap one zero for the other |
| `ViewIndex.UntouchedInStepExactly` | crates/theta-storage/src/view.rs:547-589 | an index that is not touched while rows change is in step afterwards if and only if no key under its column changed |
| `ViewRuns.StepKeepsCurrentExactly` | crates/theta-storage/src/view.rs:351-472 | from indexes in step, a write, delete or schema change leaves them in step if and only if it is harmless: no swap of the zeros, and for a rename, a dropped column or table, or a redeclared table, nothing in the rows that an affected index files |
| `ViewRuns.RunsEndCurrent` | crates/theta-storage/src/view.rs:338-396 | on every run, from any state, every index is in step once there was a rebuild and nothing harmful since |
| `ViewRuns.RebuildHeals` | crates/theta-storage/src/view.rs:314-336 | a rebuild leaves every index in step, however stale they were |
| `ViewRuns.AnswersAfterRebuildExactly` | crates/theta-storage/src/view.rs:139-144 | after a rebuild an index answers if and only if its column is declared and some row has something to file under it |
| `TableViews.TableView.ReindexRow` | crates/theta-storage/src/view.rs:275-306 | the loop over the indexed columns computes the reindexing of one changed row |
| `TableViews.TableView.RebuildIndexes` | crates/theta-storage/src/view.rs:314-336 | the loop over the rows in key order computes the rebuild |
| `TableViews.TableView.Put` | crates/theta-storage/src/view.rs:353-357 | a write replaces the row and reindexes it |
| `TableViews.TableView.Delete` | crates/theta-storage/src/view.rs:367-371 | a delete removes the row and reindexes it |
| `TableViews.TableView.RenameColumnValues` | crates/theta-storage/src/view.rs:577-589 | the loop moves a column to its new name in every row, and touches no index |
| `TableViews.TableView.DropColumnValues` | crates/theta-storage/src/view.rs:547-574 | the loop removes a column from every row, and a row that has no other, and touches no index |
| `TableViews.TableView.AddIndex` | crates/theta-storage/src/view.rs:434-443 | an index replaces one of its name, and all are rebuilt |
| `TableViews.TableView.Candidates` | crates/theta-storage/src/view.rs:139-165 | nothing for a column under which nothing was filed or a bound without spans, otherwise the sorted keys of every bucket inside a span |
| `ViewQueries.ViewServesExactly` | crates/theta-storage/src/view.rs:697-711 | an index in step serves a comparison if and only if no stored value of its column strays from the bound asked for |
| `ViewQueries.SafeBoundsReach` | crates/theta-storage/src/view.rs:146-165 | nothing strays from a safe bound, nor from a plain one where no negative zero is stored |
| `ViewQueries.ViewExecutionIsMeaning` | crates/theta-storage/src/view.rs:617-712 | over views in step, from which nothing strays, executing any plan, joins and nested scans included, gives its plain meaning |
| `ViewQueries.ViewIndexScanIsScan` | crates/theta-storage/src/view.rs:617-712 | over a view, an index scan and a filtered scan return the same rows in the same order |
| `ViewQueries.KeyColumnLookupExactly` | crates/theta-storage/src/view.rs:181-186 | a lookup by primary key through an index over that pseudo-column finds the row if and only if nothing was ever filed there, so that the index does not answer, or the row repeats its key in a field of that name |
| `ViewQueries.RenamedRowFoundExactly` | crates/theta-storage/src/view.rs:448-458 | after a rename the index on the new name finds a moved value if and only if the row had one with the same key there before |
| `ViewQueries.RenamedRowIsLost` | crates/theta-storage/src/view.rs:577-589 | a run of two writes, an index and a rename, after which the index answers without the row that has the value |
| `Optimizer.OptimizeKeepsMeaning` | crates/theta-query/src/optimize.rs:26-36 | an optimized plan fails exactly when the plan does, and otherwise has the same rows in the same order, for every plan in which the sorts a filter is pushed through are comparable |
| `Optimizer.OptimizedExecutionAgrees` | crates/theta-query/src/optimize.rs:26-36 | with budgets and indexes on both sides the executor returns the same rows for a plan and its optimized form, when the plan is free of budgeted offsets with and without its always-true filters |
| `Optimizer.OptimizeKeepsSafeExactly` | crates/theta-query/src/optimize.rs:26-36 | an optimized plan is free of budgeted offsets if and only if the plan is, once its always-true filters are gone |
| `Optimizer.TrivialFilterShieldedTheLimit` | crates/theta-query/src/optimize.rs:188-196 | a query that returns five rows before optimization and two after, because the removed filter kept a budget from an inner offset |
| `Optimizer.OptimizeKeepsColumnsExactly` | crates/theta-query/src/optimize.rs:44-66 | the result keeps its columns if and only if no filter stood between the result and a projection |
| `IndexChoice.SelectionExactly` | crates/theta-query/src/optimize.rs:93-181 | a filtered scan is given the index of the first of its conjuncts, however nested, that compares an indexed column other than by `!=`, and stays a scan if and only if there is none |
| `Settling.IdempotentExactly` | crates/theta-query/src/optimize.rs:26-66 | a second run changes nothing if and only if no kept filter is over something that comes to have a sort, a projection, or a scan it has an index for on top, as read off the plan |
| `Settling.StackedFiltersNeedTwoRuns` | crates/theta-query/src/optimize.rs:44-75 | two filters over a sort, which the second run optimizes further |
| `Settling.OptimizeReadsTheSameTable` | crates/theta-query/src/optimize.rs:26-36 | the optimizer never changes which table is read |
| `Builder.BuildIgnoresInterleaving` | crates/theta-query/src/builder.rs:192-286 | the plan depends only on the filters in order, the sort keys in order, and the last limit and offset |
| `Builder.FilterAllIsConjunction` | crates/theta-query/src/builder.rs:192-213 | successive filters build one filter that judges every row, errors included, as all of them in turn |
| `Builder.BuilderMeaning` | crates/theta-query/src/builder.rs:192-286 | executing a built plan skips and takes from the sort of the rows satisfying every filter, with no condition on budgets |
| `Builder.QueryBuilder.Where` | crates/theta-query/src/builder.rs:192-213 | the stored plan becomes the conjunction of what it was and the new filter |
| `Builder.QueryBuilder.Key` | crates/theta-query/src/builder.rs:181-190 | a key replaces whatever was built by a lookup |
| `Builder.QueryBuilder.Select` | crates/theta-query/src/builder.rs:215-221 | a projection over what was built |
| `Builder.QueryBuilder.OrderBy` | crates/theta-query/src/builder.rs:223-231 | one more sort key, after those before it |
| `Builder.QueryBuilder.SetLimit` | crates/theta-query/src/builder.rs:233-237 | the last limit wins and keeps the offset |
| `Builder.QueryBuilder.SetOffset` | crates/theta-query/src/builder.rs:239-245 | the last offset wins; without a limit it still pages |
| `Builder.QueryBuilder.Aggregate` | crates/theta-query/src/builder.rs:247-265 | grouping over what was built, without a projection that would narrow its input |
| `Builder.QueryBuilder.Build` | crates/theta-query/src/builder.rs:267-286 | the finished plan of the collected state |
| `PlanEncoding.EncodingIdentifiesExactly` | crates/theta-query/src/plan.rs:369-603 | two plans have the same canonical bytes if and only if they differ at most in an aggregate over no column against one over the column named "" |
| `PlanEncoding.CountStarCollides` | crates/theta-query/src/plan.rs:459-471 | COUNT(*) and COUNT("") are different plans with one encoding |
| `Encoder.CanonicalEncoder.EncodePlan` | crates/theta-query/src/plan.rs:392-489 | the recursive writer appends exactly a plan's canonical bytes to its buffer |
| `Encoder.CanonicalEncoder.EncodeValue` | crates/theta-query/src/plan.rs:558-602 | likewise for values, map entries in key order |
| `Encoder.Encode` | crates/theta-query/src/plan.rs:207-212 | what is hashed is the canonical encoding |
| `ArchiveManifest.RestorableToHeadExactly` | crates/theta-archive/src/manifest.rs:84-131 | a restore to the head is possible if and only if the horizon is zero and there is no gap |
| `ArchiveManifest.ExpiryEndsRestores` | crates/theta-archive/src/manifest.rs:94-108 | once anything at the bottom has expired no restore plan exists, for any target |
| `ArchiveManifest.ExpiryShortensFromTheFront` | crates/theta-archive/src/retention.rs:87-131 | forgetting what expired always succeeds, keeps the newest segment, never lowers the horizon, adds no gap, and forgets only what has aged out |
| `ArchiveManifest.ForgottenExactly` | crates/theta-archive/src/retention.rs:57-113 | expiry forgets a segment if and only if its proof and those of all segments below it are at least the window old, on integers without bounds, and it is not the newest |
| `ArchiveManifest.ForgetLeavesUpperPart` | crates/theta-archive/src/retention.rs:115-140 | whatever list is given, even one that ends in an error, what is left is an upper part of what there was, entry for entry |
| `ArchiveManifest.RetainedStopsExpiry` | crates/theta-archive/src/retention.rs:97-113 | a segment within the window keeps every later one, however old |
| `ArchiveManifest.Manifest.RestorePlan` | crates/theta-archive/src/manifest.rs:94-108 | segments zero to the target in order, or the least missing one; it succeeds if and only if all are there |
| `ArchiveManifest.Manifest.Gaps` | crates/theta-archive/src/manifest.rs:115-131 | ascending, and exactly the sequences missing between horizon and head |
| `ArchiveManifest.Manifest.Expired` | crates/theta-archive/src/retention.rs:97-113 | the longest aged prefix in key order, never everything |
| `ArchiveManifest.Manifest.ForgetAll` | crates/theta-archive/src/retention.rs:124-140 | the removal loop computes the forgetting the lemmas are about, also when it fails |
| `CustodyRuns.NoSegmentIsLost` | crates/theta-archive/src/custodian.rs:151-210 | on every run of sealing, checkpoints, sweeps against an archive that may refuse, lie or rot, and expiry: every segment ever sealed is local, or archived under the digest of its bytes, or was forgotten by retention; and nothing left the local log without a proved round trip |
| `CustodyRuns.StepKeepsSafe` | crates/theta-archive/src/sweep.rs:93-181 | each single step keeps that invariant |
| `CustodyRuns.RestoreReturnsTheOriginals` | crates/theta-archive/src/sweep.rs:188-219 | after any run a restore that succeeds returns, in order, the sealed bytes or other bytes with the same digest |
| `CustodyRuns.SweepSparesCheckpoint` | crates/theta-storage/src/wal.rs:382-395 | whatever a sweep finds archived or proves, it leaves every local segment at or above the checkpoint, and every other one unless asked to release |
| `CustodyRuns.SweepExactly` | crates/theta-archive/src/custodian.rs:151-210 | a sweep over distinct segments goes on after failures and unreadable names and stops at the first deferral; of the segments it comes to it records exactly those whose bytes came back with their digest, and of those recorded now or before it releases, if asked to, exactly the ones below the checkpoint whose file can be deleted |
| `CustodyRuns.NothingLeavesAheadOfCheckpoint` | crates/theta-storage/src/wal.rs:382-395 | on every run a sealed segment has left the local log only if some checkpoint was past it |
| `CustodyRuns.FreedBytesLeft` | crates/theta-archive/src/custodian.rs:151-210 | the bytes a sweep reports as freed are those the local log no longer occupies |
| `CustodyRuns.ReleasedAreReported` | crates/theta-archive/src/custodian.rs:151-210 | every segment that leaves the local log is reported as released, with its length |
| `CustodyRuns.EveryPathIsReported` | crates/theta-archive/src/custodian.rs:151-210 | a report has one entry for every path the sweep came to, and if it did not come to all of them one deferral |
| `CustodyRuns.ArchivedAreRecorded` | crates/theta-archive/src/custodian.rs:151-210 | the segments a report gives as archived are exactly those newly in the manifest |
| `CustodyRuns.SweepReturnsExactly` | crates/theta-archive/src/sweep.rs:93-150 | a sweep brings a forgotten segment back if and only if it is still local and proves again |
| `CustodyRuns.SweepOpensAGapExactly` | crates/theta-archive/src/manifest.rs:94-131 | a sweep of one segment opens a gap if and only if it records it, and it is neither within the archive nor next to it |
| `CustodyRuns.RecordingOpensAGapExactly` | crates/theta-archive/src/manifest.rs:94-131 | recording a missing segment opens a gap if and only if something is archived and the segment is below the one under the horizon or above the one over the head |
| `CustodyRuns.RetainedLogOpensAGap` | crates/theta-archive/src/custodian.rs:151-210 | a run from the beginning in which a sweep after retention opens a gap in an archive that had none |
| `Custody.RestoreIsAllOrError` | crates/theta-archive/src/sweep.rs:188-219 | a restore yields every segment in order with its recorded digest or an error; it succeeds if and only if nothing is missing and every fetch matches; a gap error names the least missing segment |
| `Custody.Sweep.ArchiveSegment` | crates/theta-archive/src/sweep.rs:93-181 | the outcome and the new manifest: recorded only after the round trip proved the digest taken before |
| `Custody.Sweep.Restore` | crates/theta-archive/src/sweep.rs:188-219 | the restoring loop computes the all-or-error result |
| `Custody.Custodian.Tick` | crates/theta-archive/src/custodian.rs:151-210 | the loop over listed paths, with its stop at the first deferral, computes the log, the manifest and the report |
| `Custody.LocalLog.Release` | crates/theta-storage/src/wal.rs:382-414 | a segment recovery still needs is refused, and one already gone frees nothing |
| `Drill.Run` | crates/theta-archive/src/drill.rs:196-289 | gaps are reported exactly and end the drill; otherwise the segments before the first bad one came back at their recorded length, and their bytes are summed exactly |
| `Drill.FullPassExactly` | crates/theta-archive/src/drill.rs:94-104 | a drill passes and covers everything if and only if there is no gap, its depth reaches the whole manifest, and every segment came back at its recorded length |
| `Drill.FullPassCountsSealedBytes` | crates/theta-archive/src/drill.rs:228-289 | a full pass, after any run, reports as many bytes as were sealed in the archived segments |
| `Drill.FullPassRestoresExactly` | crates/theta-archive/src/drill.rs:196-289 | after a full pass a restore to the head can be planned if and only if nothing ever expired from the bottom |
| `Drill.DrillAgainstRestore` | crates/theta-archive/src/drill.rs:228-275 | where a restore succeeds a drill passes; a drill passes and a restore fails if and only if all lengths agree and some bytes do not, no served bytes colliding with the sealed ones |
| `Drill.SameLengthRotPasses` | crates/theta-archive/src/drill.rs:248-275 | one changed byte that a full pass does not notice and a restore refuses |
| `Drill.LastPass` | crates/theta-archive/src/drill.rs:161-176 | the latest finishing time of a counted drill, in whatever order they were recorded, and nothing if there is none |
| `Drill.StaleExactly` | crates/theta-archive/src/drill.rs:182-188 | drills are stale if and only if no pass on record is within the allowed age |
| `Drill.DrillLog.Record` | crates/theta-archive/src/drill.rs:147-149 | a recorded drill never takes a date back, and a failed one changes none |
| `Calendar.FormulaCountsDays` | crates/theta-eject/src/values.rs:153-161 | the formula, with its truncating division, is the number of days counted year by year and month by month from the epoch, for every year, negative ones included |
| `Calendar.FormulaFollowsTheCalendar` | crates/theta-eject/src/values.rs:153-161 | the epoch is zero, the next valid date is the next integer, and earlier means smaller |
| `Calendar.CivilRoundTrip` | crates/theta-eject/src/values.rs:153-161 | every integer is the number of exactly one valid date, and that date can be computed |
| `Calendar.MillisKeepOrder` | crates/theta-eject/src/values.rs:136-147 | timestamps keep the order of date and time of day to the millisecond |
| `Calendar.MillisFit` | crates/theta-eject/src/values.rs:139-147 | up to 292 million years from zero no sum on the way to the milliseconds leaves 64 bits |
| `Timestamps.TimestampRoundTrip` | crates/theta-eject/src/values.rs:94-147 | a timestamp written with a T or a space, numbers of any width, any fraction and any zone is read as the instant written, cut to the millisecond, the zone ignored, on integers without bounds |
| `Timestamps.TimestampsKeepOrder` | crates/theta-eject/src/values.rs:94-147 | timestamps of valid dates and times are read in the order of what was written, on integers without bounds |
| `TimestampText.InstantRoundTrip` | crates/theta-eject/src/values.rs:94-147 | the rendering of any valid instant from the year zero on, numbers zero-padded, is read as the milliseconds of that instant, on integers without bounds |
| `TimestampText.SpacesDoNotMatter` | crates/theta-eject/src/values.rs:94-103 | white space around a timestamp changes nothing |
| `TimestampText.SignedReads` | crates/theta-eject/src/values.rs:105-122 | an integer in decimal notation, with any leading zeros and either sign or none, is read as itself, and beyond 64 bits not at all |
| `TimestampText.MinutesSuffice` | crates/theta-eject/src/values.rs:115-123 | a time of day without seconds is read as the full minute |
| `Timestamps.BareDateIsMidnight` | crates/theta-eject/src/values.rs:95-103 | a date without a time is midnight |
| `Timestamps.FractionReads` | crates/theta-eject/src/values.rs:124-134 | one, two or more fractional digits are read as whole milliseconds, cut and never rounded |
| `Timestamps.ReadMillis` | crates/theta-eject/src/values.rs:124-134 | the padding loop computes that reading |
| `ArrayLiteral.ArrayRoundTrip` | crates/theta-eject/src/values.rs:168-215 | any list of nulls and arbitrary strings, each quoted or escaped, is read back as it was: NULL apart from "NULL", no elements apart from one empty string |
| `ArrayLiteral.UnquotedExactly` | crates/theta-eject/src/values.rs:168-215 | a string written as it is is read back if and only if it is not empty, not NULL, and free of commas, quotes and backslashes |
| `ArrayLiteral.ParseArray` | crates/theta-eject/src/values.rs:168-206 | the character loop over the escape and quote flags computes the reading |
| `Addresses.AddressRoundTripExactly` | crates/theta-core/src/address.rs:42-51 | a row is found under its key if and only if its table's name has no colon and neither part is empty |
| `Addresses.AddressedKeyIsRowKey` | crates/theta-core/src/address.rs:42-51 | a key that addresses a row is that row's key |
| `Addresses.ColonMovesTheRow` | crates/theta-core/src/address.rs:42-51 | the rows of a table with a colon in its name are addressed as another table's |
| `Addresses.RowKeysApart` | crates/theta-eject/src/migrate.rs:112-114 | keys of tables without colons in their names are shared only by the same row of the same table |
| `Joining.JoinIdentifiesExactly` | crates/theta-eject/src/import.rs:191-199 | a joined key tells its parts from every other list of that length if and only if there is at most one part or none contains the separator |
| `Importing.QueryContinues` | crates/theta-eject/src/import.rs:105-145 | the query after the first n rows returns the rows that come next, as many as asked |
| `Importing.NextBatch` | crates/theta-eject/src/import.rs:66-189 | a batch holds the parsed rows of the query and the key of the last as its cursor, or an error if any row cannot be parsed |
| `Importing.BatchContinues` | crates/theta-eject/src/import.rs:66-189 | from a cursor after n rows a batch ends at the cursor after those it holds, and is empty if and only if nothing is left or nothing was asked for |
| `Importing.FieldsAreCells` | crates/theta-eject/src/import.rs:153-170 | each column of an imported row has the value its cell parses to, and a null cell or a null value is nothing |
| `Importing.FieldsFailExactly` | crates/theta-eject/src/import.rs:153-170 | a row cannot be read if and only if some cell with a text in it cannot be parsed |
| `Migration.CopyTable` | crates/theta-eject/src/migrate.rs:99-131 | all rows of a table once, in key order; after an error exactly a prefix of them has landed |
| `Migration.CopyAll` | crates/theta-eject/src/migrate.rs:97-131 | the same over all tables, with the number of rows written |
| `Migration.ApplySchema` | crates/theta-eject/src/migrate.rs:80-92 | the run goes on if and only if every schema change was applied |
| `Migration.ReadBatch` | crates/theta-eject/src/migrate.rs:103-110 | from the cursor after n rows, the rows that come next |
| `Migration.WriteBatch` | crates/theta-eject/src/migrate.rs:111-122 | the writes of a batch in order; a write that fails may have landed |
| `Migration.VerifyTable` | crates/theta-eject/src/migrate.rs:137-164 | the verifying loop adds exactly the findings of the second reading and the count |
| `Migration.VerifyAll` | crates/theta-eject/src/migrate.rs:133-164 | the findings and counts of every table |
| `Migration.Migrate` | crates/theta-eject/src/migrate.rs:72-170 | the outcome, the target and the report of a whole run: what the target held and a prefix of the writes, all of them if it ends well; it fails only if a row cannot be read or the world faults |
| `MigrationResults.MigrationIsComplete` | crates/theta-eject/src/migrate.rs:97-131 | in the end every row of the source is in the target under the address that leads to it, with the value its cells parse to |
| `MigrationResults.EachRowOnce` | crates/theta-eject/src/migrate.rs:97-131 | a target that was empty then holds exactly as many rows as the source |
| `MigrationResults.CopiesEverythingExactly` | crates/theta-eject/src/migrate.rs:97-131 | as many rows are written as there are if and only if the batch size is not zero or there are none |
| `MigrationResults.EveryRowIsCompared` | crates/theta-eject/src/migrate.rs:133-164 | with a batch size that is not zero as many rows are compared as the source has |
| `MigrationResults.InterruptedRunsAddNothing` | crates/theta-eject/src/migrate.rs:114-121 | however many runs were cut short at any write, one complete run reaches the target of an uninterrupted one |
| `MigrationResults.EveryWriteLandsExactly` | crates/theta-eject/src/migrate.rs:112-121 | every write can be read back in the end if and only if no two disagree about a key |
| `MigrationResults.ReportCleanExactly` | crates/theta-eject/src/migrate.rs:133-164 | no unexpected finding about rows if and only if every row of the source at the second reading is in the target and, under every exactly mapped column, both have a value that is not null or neither has, and the two differ at most in the signs of zeros and hold no NaN; or the batch size is zero |
| `MigrationResults.CountFoundExactly` | crates/theta-eject/src/migrate.rs:137-164 | after its rows a table gets one finding about no row in particular if and only if some row of the source is missing from the target |
| `MigrationResults.CompleteMigrationIsCleanExactly` | crates/theta-eject/src/migrate.rs:72-170 | a complete migration of a stable source gets a clean report if and only if no exactly mapped column holds a NaN |
| `MigrationResults.EmptyBatchesFindNothing` | crates/theta-eject/src/migrate.rs:103-164 | with batches of no rows nothing is written, nothing is compared, and nothing is found |
| `Verifying.SameValueExactly` | crates/theta-eject/src/verify.rs:194-200 | two values are the same if and only if neither holds a NaN and they are equal once every negative zero in them, at any depth, is made positive |
| `Verifying.RowCleanExactly` | crates/theta-eject/src/verify.rs:168-217 | a row adds an unexpected finding if and only if it is missing or differs, beyond the signs of zeros, under an exact column, a NaN differing from everything; and any finding if and only if it differs at all; absent and null are the same |
| `Verifying.SameAsItselfExactly` | crates/theta-eject/src/verify.rs:194-200 | a value equals itself if and only if it holds no NaN at any depth |
| `Verifying.Report.CompareRow` | crates/theta-eject/src/verify.rs:188-217 | the column loop appends exactly those findings |
| `Verifying.Report.VerifyRow` | crates/theta-eject/src/verify.rs:168-186 | likewise for a row that may be missing |
| `Verifying.Report.VerifyRowCount` | crates/theta-eject/src/verify.rs:93-103 | one unexpected finding if and only if the counts differ |
| `Revocation.RevokedStaysRevoked` | crates/theta-identity/src/revocation.rs:217-275 | whatever is lost, repeated or reordered, a scope once refused as revoked is never allowed later, unless its token was compacted away |
| `Revocation.ReplicaHoldsNewest` | crates/theta-identity/src/revocation.rs:217-228 | a replica holds a list that arrived, and none that arrived was newer |
| `Revocation.ReplicaNeverGoesBack` | crates/theta-identity/src/revocation.rs:217-228 | its version never goes down, and sessions, users and orgs are never forgotten |
| `Revocation.DecisionExactly` | crates/theta-identity/src/revocation.rs:217-275 | the decision from the history alone: revoked if and only if the newest list that arrived was made by changes that revoke the scope, a token not compacted away since; otherwise stale if and only if the last thing heard is longer ago than the limit |
| `Revocation.ListCoversExactly` | crates/theta-identity/src/revocation.rs:47-93 | a list covers a scope if and only if one of the changes that made it names the scope's token, session, user or organization, a token not compacted away since |
| `Revocation.DeliveredRevocationHolds` | crates/theta-identity/src/revocation.rs:217-275 | whoever a list that ever arrived revokes is refused from then on, whatever came after it, a token apart that the history compacts away |
| `Revocation.RevokedWasNamed` | crates/theta-identity/src/revocation.rs:264-275 | nobody is refused as revoked whom no change of a list that arrived names |
| `Revocation.AllowedMeans` | crates/theta-identity/src/revocation.rs:253-275 | allowed means something was heard within the limit, and no list that ever arrived was made by changes that revoke the scope |
| `Revocation.NeverSyncedExactly` | crates/theta-identity/src/revocation.rs:245-255 | an instance that never synced authorizes nothing if and only if its limit is below the largest integer |
| `Revocation.OldListCountsAsFresh` | crates/theta-identity/src/revocation.rs:217-228 | when a list arrives, however old, the instance allows a scope if and only if the newer of it and the list held does not cover the scope and the limit is not negative, whatever has been revoked since |
| `Revocation.RevokedYetAllowed` | crates/theta-identity/src/revocation.rs:217-228 | a late empty list lets through a user revoked in between |
| `Revocation.CompactionComesAndGoes` | crates/theta-identity/src/revocation.rs:85-93 | a delivered compaction lets a token through again, and a late list of the same version takes it back |
| `Revocation.RevocationList.Retain` | crates/theta-identity/src/revocation.rs:85-93 | compaction drops tokens and nothing else, not even the version |
| `Revocation.RevocationList.Token` | crates/theta-identity/src/revocation.rs:47-50 | one token more, one version later |
| `Revocation.RevocationList.Session` | crates/theta-identity/src/revocation.rs:52-55 | one session more, one version later |
| `Revocation.RevocationList.User` | crates/theta-identity/src/revocation.rs:57-60 | one user more, one version later |
| `Revocation.RevocationList.Org` | crates/theta-identity/src/revocation.rs:62-65 | one org more, one version later |
| `Revocation.RevocationSync.Heartbeat` | crates/theta-identity/src/revocation.rs:231-233 | heard now, nothing else changed |
| `Revocation.RevocationSync.Apply` | crates/theta-identity/src/revocation.rs:217-228 | an older list is ignored but counts as heard; any other replaces the list |
| `Revocation.RevocationSync.Decide` | crates/theta-identity/src/revocation.rs:264-275 | revoked before stale before allowed |
| `LogChain.PreimageIdentifies` | crates/theta-core/src/hash.rs:24-31 | lists of fields that differ in number, order, boundaries or bytes are hashed from different bytes |
| `LogChain.OfFields` | crates/theta-core/src/hash.rs:24-31 | the hasher fed field by field hashes that preimage |
| `LogChain.HashCommits` | crates/theta-core/src/log.rs:243-286 | for every hash function: two entries have the same hash if and only if they name the same parent and say the same as written, or their bytes collide; and likewise content hashes, without the parent |
| `LogChain.HeadCommits` | crates/theta-core/src/log.rs:243-254 | for every hash function: two histories have the same head if and only if they have the same length and say the same entry by entry, or at the first difference from the head two entries collide or one hashes to nothing |
| `LogChain.HeadDecides` | crates/theta-core/src/log.rs:243-254 | so where no two entries of the two histories collide and none hashes to nothing, the head decides |
| `LogChain.ByCommitForgesNothing` | crates/theta-core/src/log.rs:243-254 | a hash function for which that holds of all histories that give different entries different commits |
| `LogStore.VerifyChain` | crates/theta-storage/src/durable.rs:338-354 | a replay passes if and only if every entry's parent is nothing or an earlier entry, and otherwise names the first that is not |
| `LogStore.EditDetectedExactly` | crates/theta-storage/src/durable.rs:246-258 | an edited entry goes unnoticed if and only if no later entry names the one it replaces and its own parent is there |
| `LogStore.TruncationGoesUnnoticed` | crates/theta-storage/src/durable.rs:252-258 | entries cut off the end are not noticed |
| `LogStore.Store.Append` | crates/theta-storage/src/durable.rs:464-513 | refused unless it names the branch's head, and nothing kept when it is not durable; otherwise indexed under its hash, which becomes the head, even where a checkpoint that is due fails and an error is returned |
| `LogStore.Store.SetHead` | crates/theta-storage/src/durable.rs:561-563 | a branch is pointed at any commit, no entry changed; heads stay rooted in the log if and only if the commit is nothing or was appended |
| `LogStore.Store.Chain` | crates/theta-storage/src/durable.rs:413-435 | the walk back from a head ends, and returns the linked entries, oldest first, down to nothing or to the end of the index |
| `LogStore.WalkUnique` | crates/theta-storage/src/durable.rs:413-435 | there is one such walk from a head |
| `LogStore.AppendExtendsOneHistory` | crates/theta-storage/src/durable.rs:464-513 | appending on a branch adds one entry to its history and changes no other history |
| `LogStore.EntryHashesNameParents` | crates/theta-core/src/log.rs:243-254 | entries of a log that do not collide have hashes of the kind the walks rely on |

## Left out

- Exec.SortRows: is an insertion sort; where the comparator is not a total preorder the standard library's sort leaves the order unspecified, so `Sorting.MixedColumnSortsInACircle` shows two outcomes of the model.
- Exec.Window: an offset and a count are added on 64 bits; tables longer than 2^64 rows do not occur.
- Refinement.LeafServed: asks an index for a superset in key order; `ViewQueries` proves it for views, and other sources are taken at their word.
- Custody.LocalLog.Release: a segment is its bytes; files, directories and encryption at rest are not modelled.
- Migration.Migrate: takes the findings of the schema comparison (`verify_schema`) as a list, and applying a schema change as an answer of the world.
- Importing.NextBatch: the query is a filter over rows already in key order; that Postgres orders and compares keys by one order is an assumption (`Importing.Sound`), and SQL text is left out.
- Calendar.DaysFromCivil: is on unbounded integers; years whose day number leaves 64 bits are not modelled.
- Timestamps.TimestampRoundTrip: is on unbounded integers, as are `Timestamps.TimestampsKeepOrder` and `TimestampText.InstantRoundTrip`; the source's product leaves 64 bits for years beyond 292 million, and `Calendar.MillisFit` shows that it does not before.
- Timestamps.ParseTimestamp: the source cuts a fraction by bytes and would stop on one that is not plain digits; the model cuts by characters.
- ArrayLiteral.ParseArray: arrays of more than one dimension are read as the code reads them, but nothing is promised of them.
- LogChain.HashCommits: speaks of operations and authors through their written forms; JSON itself is a parameter.
- LogStore.Store.Chain: an index rebuilt from a checkpoint, with parents below it, is not modelled; segments already released are.
- Revocation.AgeMs: subtracts on unbounded integers; the source's subtraction can overflow at the far ends.
- Drill.Run: sums bytes without bound, as do the freed bytes of `Custody.Custodian.Tick`.
- Result sets: column types and names of `materialize`, except for the explicit projection.
- Float arithmetic (AVG and float SUM) and the JSON text of group keys: parameters of the environment.
- ViewRuns.Step: follows one table; a rebuild that another table's indexes or a loaded snapshot cause is its `Rebuild`, and schema changes that touch neither rows nor indexes are not events.
- TableViews.TableView.Candidates: is not asked for a span whose ends are the wrong way round, on which the ordered map of the source panics.
- Conflict-free replicated rows and snapshots of the materialized view.
- Signatures and encryption, object stores, sockets, TLS, clocks.
- The SQL front end, statistics beyond which columns are indexed, EXPLAIN.
- Error messages: an error is told from another by its kind, and where it matters by what it names.
- The six comparison predicates are one constructor with an operator.
