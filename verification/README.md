# Verification model of fastapi_modular

fastapi_modular is a Python web framework with its own query builder, database
backends, dependency injection container, cron scheduler, message brokers and
WebSocket gateway. This project models the parts of it that carry real logic
and proves what its documentation promises of them, or the exact condition
under which the promise holds.

`dafny verify dfyconfig.toml` checks everything.

| module | what it models |
|---|---|
| `Conditions` | one condition tree, its evaluator in memory and its SQL-92 meaning (ISO/IEC 9075:1992, subclause 8.12) |
| `MongoFilters` | the Mongo filter of a condition tree and the documents it matches |
| `Branches` | `where` / `or_where` of the query builder |
| `Joins`, `Sorting`, `Includes`, `Nesting` | joins, multi-key sorting, batched includes and `nest_under` trees |
| `Cascade`, `Transactions`, `Interleaving`, `SerialRequests`, `Promises` | the in-memory database: deletes over foreign keys, nested snapshot transactions, ids, the request's unit of work, tasks that interleave, and which writes are refused |
| `Container` | the dependency injection container |
| `Cron`, `CronText` | the search for the next run over the Gregorian calendar, and the reading of expressions |
| `Mqtt` | topic filters: matching, inclusion, narrowing (section 4.7 of OASIS MQTT 3.1.1) |
| `Rpc`, `KeyOrder` | the canonical text of a message pattern and the order of its keys |
| `TokenBucket`, `Namespaces` | the WebSocket gateway's rate limit and room indexes |
| `Circuit` | the circuit breaker |
| `Kafka` | consume, retry, dead-letter and commit on one partition, with crashes |
| `Text`, `Wrappers` | strings, decimals, `Option` and `Result` |

Objects that the source updates in place are classes; every method is proved
against a function on values, and the theorems are about those functions.

## Where the code differs from what one would expect

The model follows the code. These differences are stated as lemmas.

- `covers("#", "$SYS/x")` is true although `#` does not match `$SYS/x`; and
  `covers` is false although inclusion holds for `+/#`, `/+/#` or `+/+/#` against
  the filter without the needless level (`Mqtt.CoversExactly`).
- Narrowed filters can overlap, depending on subscription order
  (`Mqtt.NarrowedIsAntichainIff`).
- Comparing two columns of which the right one is NULL: by order the memory
  evaluator raises on rows that SQL may select, and `!=` holds in memory while SQL
  does not know (`Conditions.ColumnsAgreeExactly`, `Conditions.ColumnsCanDiffer`).
- NOT over a NULL, an empty NOT IN list and a comparison with None separate
  memory from SQL (`Conditions.NullDecidesAgreement`); the comment at
  `fastapi_modular/infrastructure/database/mongo.py:494-498` promises more.
- `delete_where` can report fewer rows than it removes
  (`Cascade.CountIsExactIff`), and a CASCADE cycle of rows never succeeds
  (`Cascade.RanksForbidCycles`).
- An update changes the record before it checks it
  (`Transactions.FailedUpdateShows`, `Transactions.SwallowedUpdateBreaks`).
- A request that fails goes back to its first attempt to write and takes what
  other requests wrote since with it (`Interleaving.FailureErasesOthers`); it can
  also put back what another failed request wrote (`Interleaving.FailureRevives`).
- A transaction block that does not finish erases what other tasks wrote outside
  of blocks meanwhile, even if no request fails because its own catches the
  exception (`Interleaving.AbortErasesOthers`): a `save` outside of a block does
  not wait for the lock, a gap that the note at
  `fastapi_modular/infrastructure/database/memory.py:148-156` does not name. The
  exact condition is `Interleaving.BackSparesOthersIff`; writes made in blocks are
  safe as long as no request fails (`Interleaving.LockSparesOthers`).
- A request hook that raises stops the hooks after it and leaves the request
  store open (`Container.Container.ExitScope`).
- A rollback asked of an outer block inside an inner one ends at the inner block
  (`Transactions.Backend.Transaction`).
- In HALF_OPEN any number of concurrent calls pass, against
  `fastapi_modular/infrastructure/database/circuit.py:8-9` (`Circuit.ManyProbes`).
- The cron search refuses valid schedules whose next run is more than five years
  away: the leap day around a century without one (`Cron.LeapDayRunsIff`) and a date
  joined with a weekday (`Cron.DateRunsIff`, `Cron.DateOnWeekdayBeyondLimit`).
- A Kafka message whose attempts are used up is lost, its offset committed, when
  it is not JSON or when the publish to the dead-letter topic fails, raising or
  not (`Kafka.FateIsDeserved`): `publish` at
  `fastapi_modular/infrastructure/kafka/broker.py:273-277` and `:293-301` returns
  False, which is ignored. A negative `max_retries` commits messages that were
  never tried. A new group with `auto_offset_reset="latest"` can pass over a
  delivered message if it dies before its first commit
  (`Kafka.PassesOverNothingIff`, `Kafka.LatestPassesOver`).
- A socket that joins a room after it was removed leaves its id behind
  (`Namespaces.Namespace.Join`).
- A raw string pattern can have the text of another pattern
  (`Rpc.RawStringMeets`).

## Model

| member | source | states |
|---|---|---|
| Conditions.MemoryRefinesSql | fastapi_modular/infrastructure/database/sql.py:800-842 | unless it raises, the memory evaluator decides as SQL does wherever SQL decides, under any nesting of AND, OR and NOT, for non-null constants and non-empty NOT IN lists; and it does not raise on rows where each order comparison of two columns has a value on the right or none on the left |
| Conditions.SqlInMeaning | fastapi_modular/infrastructure/database/sql.py:800-842 | an IN list is TRUE, FALSE or UNKNOWN as the chain of equalities of SQL-92 says |
| Conditions.CompareMeans | fastapi_modular/infrastructure/database/query.py:1715-1742 | for a value in the column, each comparison with a number is the arithmetical one |
| Conditions.CompareColumnsMeans | fastapi_modular/infrastructure/database/query.py:1729-1742 | so is each comparison of two columns that have values |
| Conditions.ListsAndRangesMean | fastapi_modular/infrastructure/database/query.py:1715-1758 | for a value in the column: in the list, not in the list, within both bounds, not NULL |
| Conditions.NullMeans | fastapi_modular/infrastructure/database/query.py:1715-1758 | a column that is NULL or missing passes no test but the one for NULL |
| Conditions.ColumnsAgreeExactly | fastapi_modular/infrastructure/database/query.py:1729-1742 | a comparison of two columns selects alike in memory and SQL, without raising, exactly when the left column is NULL, the right one has a value, or the operator is =; and when it raises |
| Conditions.ColumnsCanDiffer | fastapi_modular/infrastructure/database/query.py:1729-1742 | with a value on the left and NULL on the right: a tree that SQL selects and memory raises on, and a != that memory selects and SQL does not |
| Conditions.PositiveSelectsAlike | fastapi_modular/infrastructure/database/query.py:1715-1758 | without NOT, memory does not raise and selects the same rows as SQL wherever comparisons of two columns are safe |
| Conditions.GuardedSelectsAlike | fastapi_modular/infrastructure/database/query.py:1715-1758 | with NOT, the same when no NOT stands over a NULL |
| Conditions.NotAgreesExactly | fastapi_modular/infrastructure/database/sql.py:800-842 | a NOT over a NOT-free tree with safe column comparisons selects the same rows in memory and SQL exactly when the verdict of SQL on the tree is not UNKNOWN |
| Conditions.NullDecidesAgreement | fastapi_modular/infrastructure/database/sql.py:800-842 | NOT over a comparison, an empty NOT IN list and a comparison with None agree exactly on rows where the column has a value |
| MongoFilters.CompiledFilterMeans | fastapi_modular/infrastructure/database/mongo.py:485-547 | the compiled Mongo filter is accepted by the server and matches a document exactly when the memory evaluator accepts the record, also under NOT, with missing and null fields |
| MongoFilters.ThreeBackendsAgree | fastapi_modular/infrastructure/database/mongo.py:485-547 | SQL, Mongo and memory select the same rows whenever no NOT stands over a NULL |
| MongoFilters.ColumnComparison | fastapi_modular/infrastructure/database/mongo.py:491-547 | comparing two columns through $expr means what the memory evaluator says exactly in the listed cases, by which column is NULL, which field is missing and the operator |
| Branches.Query.Where | fastapi_modular/infrastructure/database/query.py:809-827 | a condition joins the open branch |
| Branches.Query.OrWhere | fastapi_modular/infrastructure/database/query.py:829-841 | a new branch is opened with its conditions |
| Branches.ComposeMeans | fastapi_modular/infrastructure/database/query.py:1692-1706 | the composed condition list accepts a row exactly when some branch accepts it |
| Branches.FindMatchesBranches | fastapi_modular/infrastructure/database/mongo.py:214-216 | end to end on Mongo: the filter of a whole where/or_where chain matches exactly the documents some branch asks for |
| Joins.FindMatches | fastapi_modular/infrastructure/database/memory.py:234-237 | the matching rows and the indexes of the matching records, in table order |
| Joins.JoinRows | fastapi_modular/infrastructure/database/memory.py:229-252 | one turn over a join computes the matches, the padded left rows and the padded right records of its kind |
| Joins.RowsFor | fastapi_modular/infrastructure/database/memory.py:223-252 | all joins of a query, one after the other |
| Joins.RightJoinIsSwappedLeft | fastapi_modular/infrastructure/database/sql.py:853-856 | the nested-loop right join holds the same rows, each as often, as the left join with sides swapped that the SQL compiler emits |
| Joins.FullJoinIsThreeParts | fastapi_modular/infrastructure/database/memory.py:233-250 | a full join is the inner join, the unmatched left rows and the unmatched right records, and the last part is exactly what a right join adds |
| Joins.LeftLoopPermutes | fastapi_modular/infrastructure/database/memory.py:233-242 | a join depends on its input only up to order |
| Joins.MemoryJoinsLikeSql | fastapi_modular/infrastructure/database/sql.py:849-860 | any chain of joins of any kinds gives the same multiset of rows in memory and in compiled SQL |
| Joins.JoinsOnConditionsAgree | fastapi_modular/infrastructure/database/sql.py:849-860 | the same with ON conditions evaluated by each backend in its own logic, if on the rows actually reached no NOT stands over a NULL and comparisons of two columns are safe |
| Joins.LeftJoinRepeats | fastapi_modular/infrastructure/database/memory.py:233-242 | what comes from a left row is, as often as the row occurs, its matches in table order, or the padded row in a left join without any, and nothing else |
| Joins.LeftJoinCounts | fastapi_modular/infrastructure/database/memory.py:233-242 | so each left row is repeated max(1, matches) times |
| Joins.MatchedHolds | fastapi_modular/infrastructure/database/memory.py:233-242 | a row is matched with each record on which the condition holds, as often as the table holds it |
| Joins.MatchedAreJoined | fastapi_modular/infrastructure/database/memory.py:233-242 | and each match is the row with some record of the table |
| Joins.RightRowsAreEmptyLeft | fastapi_modular/infrastructure/database/memory.py:243-250 | an unmatched right record stands in a row of its own with nothing at every earlier alias, and no left row matches it |
| Sorting.SortRows | fastapi_modular/infrastructure/database/memory.py:266-271 | the repeated sorts of the source leave exactly the arranged order |
| Sorting.InsertOrdered | fastapi_modular/infrastructure/database/memory.py:266-271 | a stable sort puts its own keys in front of the order already there |
| Sorting.ArrangeIsOrdered | fastapi_modular/infrastructure/database/memory.py:266-271 | repeated stable passes from the last key to the first yield the lexicographic order, each key in its own direction, ties in original order; the rows are a permutation of the input |
| Sorting.OrderedIsUnique | fastapi_modular/infrastructure/database/memory.py:266-271 | the same rows can be ordered in one way only |
| Sorting.UpwardIsRedundant | fastapi_modular/infrastructure/database/memory.py:266-268 | the ascending first pass leaves no trace |
| Sorting.NullsFirstThenLast | fastapi_modular/infrastructure/database/query.py:1807-1818 | NULL comes first ascending and last descending |
| Sorting.SortedByValues | fastapi_modular/infrastructure/database/query.py:1807-1818 | of two rows of the result the first key whose stored values differ decides, in its direction and with NULL lowest; with all equal the earlier row stays first |
| Sorting.ValuesInOrder | fastapi_modular/infrastructure/database/query.py:1807-1818 | by one column the values do not fall ascending and do not rise descending |
| Sorting.WhereCommutesWithSort | fastapi_modular/infrastructure/database/query.py:1495-1521 | selecting rows commutes with sorting them |
| Includes.DistinctKeys | fastapi_modular/infrastructure/database/query.py:1497-1499 | the keys of the rows without NULL and without repetition |
| Includes.FetchChunks | fastapi_modular/infrastructure/database/query.py:1500-1507 | loading key by key in chunks finds, for each key, what its own query finds, and nothing for other keys |
| Includes.ChunkStep | fastapi_modular/infrastructure/database/query.py:1500-1507 | one more chunk keeps that promise, since a key lies in one chunk only |
| Includes.GroupByKey | fastapi_modular/infrastructure/database/query.py:1509-1516 | each bucket holds all rows of its key in order, or the first one |
| Includes.Attach | fastapi_modular/infrastructure/database/query.py:1495-1521 | batched loading gives every row the same list in the same order, or the same single object, as a query of its own |
| Includes.OwnQueryFinds | fastapi_modular/infrastructure/database/query.py:1495-1521 | the query of a row finds the rows of the table that hold its key and pass the extra conditions, each as often as the table holds it, in the order asked for |
| Includes.ShapeMeans | fastapi_modular/infrastructure/database/query.py:1510-1521 | a list link takes all rows, an object link the first or none |
| Nesting.ParentIs | fastapi_modular/infrastructure/database/query.py:1565-1662 | the parent of a row is the row of the outer table whose key it refers to, and there is none without such a row |
| Nesting.KeysInOrder | fastapi_modular/infrastructure/database/query.py:1655-1662 | the parent keys without NULL and repetition, in order of first appearance |
| Nesting.FetchIn | fastapi_modular/infrastructure/database/query.py:1483-1493 | chunked loading finds exactly the rows with a wanted key, each once |
| Nesting.OrderByKeys | fastapi_modular/infrastructure/database/query.py:1469-1470 | sorting by the position map puts the fetched rows into the order of the keys |
| Nesting.FetchLevels | fastapi_modular/infrastructure/database/query.py:1461-1470 | every outer level is the parents of the level inside it, in order of first appearance |
| Nesting.WrapLevel | fastapi_modular/infrastructure/database/query.py:1472-1479 | grouping by dict gives each outer row the rows that refer to it, in their order |
| Nesting.Nest | fastapi_modular/infrastructure/database/query.py:1419-1481 | fetching outwards and joining from the inside out builds the tree of its levels |
| Nesting.OuterRowsInOrder | fastapi_modular/infrastructure/database/query.py:1467-1470 | outermost rows appear in the order in which their first root row appears |
| Nesting.TreeBelow | fastapi_modular/infrastructure/database/query.py:1419-1481 | the part of a tree below one ancestor is the tree of the root rows below it |
| Nesting.NestIsGrouping | fastapi_modular/infrastructure/database/query.py:1419-1481 | the tree equals the top-down reference: group the root rows by outermost ancestor, groups by first appearance, rows in query order, then each group again |
| Nesting.EachRowOnce | fastapi_modular/infrastructure/database/query.py:1419-1481 | each root row whose chain resolves at every level stands in the tree exactly once under its own ancestors, and nothing else does |
| Cascade.MemoryBackend.DeleteWhereIds | fastapi_modular/infrastructure/database/memory.py:411-422 | on success exactly the CASCADE closure of the ids, computed on the starting state, is gone and survivors lose their references by SET NULL or SET DEFAULT; on failure a chain explains why |
| Cascade.MemoryBackend.CascadeFrom | fastapi_modular/infrastructure/database/memory.py:381-409 | the children of a batch of ids are deleted, settled or block the delete, reference by reference |
| Cascade.MemoryBackend.ApplyRef | fastapi_modular/infrastructure/database/memory.py:390-409 | one reference: CASCADE, SET NULL, SET DEFAULT or RESTRICT |
| Cascade.MemoryBackend.CascadeBatch | fastapi_modular/infrastructure/database/memory.py:395-396 | the children taken along disappear with all they take along |
| Cascade.MemoryBackend.PopAll | fastapi_modular/infrastructure/database/memory.py:419-422 | the ids are popped and the number found is reported |
| Cascade.MemoryBackend.Delete | fastapi_modular/infrastructure/database/memory.py:424-427 | whether the record was there and is gone |
| Cascade.ClosureGrows | fastapi_modular/infrastructure/database/memory.py:381-409 | closures of successive batches add up |
| Cascade.RanksForbidCycles | fastapi_modular/infrastructure/database/memory.py:381-422 | a delete can succeed only when no record of the closure lies on a CASCADE cycle |
| Cascade.AcyclicExactlyRanked | fastapi_modular/infrastructure/database/memory.py:381-422 | the closure can be ranked along CASCADE exactly when no chain in it is a cycle, and then below its number of records |
| Cascade.ShallowUnblockedSucceeds | fastapi_modular/infrastructure/database/memory.py:381-422 | a delete succeeds when no CASCADE chain from its ids is as long as the stack is deep and no blocking reference points into the closure |
| Cascade.AcyclicUnblockedSucceeds | fastapi_modular/infrastructure/database/memory.py:381-422 | so it does when no CASCADE chain in the closure is a cycle and the closure is no larger than the stack is deep |
| Cascade.DeleteKeepsIntegrity | fastapi_modular/infrastructure/database/memory.py:381-422 | after a success no foreign key dangles, exactly when the defaults written are NULL or alive |
| Cascade.CountIsExactIff | fastapi_modular/infrastructure/database/memory.py:419-422 | the returned count is the number of live ids given exactly when no CASCADE chain leads from one of them to another |
| Cascade.BelowIsLedTo | fastapi_modular/infrastructure/database/memory.py:381-422 | what a delete takes along is exactly what CASCADE chains from its ids lead to |
| Cascade.CountFallsShort | fastapi_modular/infrastructure/database/memory.py:429-433 | a record and its child deleted in one call: two removed, one reported |
| Cascade.EdgeIs | fastapi_modular/infrastructure/database/memory.py:381-412 | deleting one record takes another along exactly if the other holds its id in a CASCADE column |
| Cascade.BlocksIs | fastapi_modular/infrastructure/database/memory.py:400-409 | a delete is blocked exactly by a RESTRICT column, or by a SET DEFAULT column without a default, that holds the id |
| Cascade.GoneIs | fastapi_modular/infrastructure/database/memory.py:381-422 | a success removes the given records and, with each it removes, those that refer to it through a CASCADE column |
| Cascade.SurvivorIs | fastapi_modular/infrastructure/database/memory.py:381-412 | a survivor whose column referred to a removed record holds NULL or the default, as declared; every other column is as before |
| Transactions.Backend.CopyTables | fastapi_modular/infrastructure/database/memory.py:111-117 | a snapshot holds a fresh copy of every record |
| Transactions.Backend.Save | fastapi_modular/infrastructure/database/memory.py:304-313 | a save checks, issues an id if needed and stores a copy, as its meaning on values says |
| Transactions.Backend.IssueId | fastapi_modular/infrastructure/database/memory.py:315-329 | the id issued is one above the counter and every live id, and the counter follows |
| Transactions.Backend.Apply | fastapi_modular/infrastructure/database/memory.py:458-473 | the record is changed in place first and checked afterwards |
| Transactions.Backend.Update | fastapi_modular/infrastructure/database/memory.py:435-442 | an update touches only the record it names |
| Transactions.Backend.Delete | fastapi_modular/infrastructure/database/memory.py:424-427 | a record that is referred to cannot be deleted |
| Transactions.Backend.RunWithSnapshot | fastapi_modular/infrastructure/database/memory.py:162-165 | nothing the block does reaches the copies put aside |
| Transactions.Backend.Transaction | fastapi_modular/infrastructure/database/memory.py:134-174 | a block that does not finish leaves the tables as it found them and keeps the counters; a requested rollback ends at the innermost block |
| Transactions.Backend.Run | fastapi_modular/infrastructure/database/memory.py:134-174 | a whole program of nested blocks, run on objects updated in place, has exactly its meaning on values |
| Transactions.Backend.Join | fastapi_modular/infrastructure/database/memory.py:75-78 | the unit of work takes its snapshot once, at the first attempt to write |
| Transactions.Backend.EndRequest | fastapi_modular/infrastructure/database/memory.py:80-83 | a failed request puts its snapshot back |
| Transactions.Backend.Request | fastapi_modular/infrastructure/database/memory.py:60-83 | a request that fails leaves every table as it found it, whatever it committed on the way; the counters stay |
| Transactions.HeldIsStart | fastapi_modular/infrastructure/database/memory.py:75-78 | what the unit of work holds is the state before the first change |
| Transactions.TablesAreSurvivingWrites | fastapi_modular/infrastructure/database/memory.py:134-174 | the tables after any program are those before it with the writes of unaborted blocks replayed |
| Transactions.IdsIncrease | fastapi_modular/infrastructure/database/memory.py:315-329 | over any program with commits, rollbacks and exceptions the ids issued per table strictly increase |
| Transactions.IssuedIsNew | fastapi_modular/infrastructure/database/memory.py:315-329 | an issued id is above every live id of its table |
| Transactions.ConsistencyKept | fastapi_modular/infrastructure/database/memory.py:331-366 | a handler that catches exceptions only around blocks and ends without one leaves unique columns unique and references sound |
| Transactions.FailedUpdateShows | fastapi_modular/infrastructure/database/memory.py:458-473 | a failed update leaves the table unchanged exactly when it changed nothing |
| Transactions.SwallowedUpdateBreaks | fastapi_modular/infrastructure/database/memory.py:458-473 | outside a block, swallowing the exception of a refused update always leaves the tables inconsistent |
| Promises.SaveRefusedIff | fastapi_modular/infrastructure/database/memory.py:331-366 | a save is refused exactly if another live row of the table agrees with it in every column of a unique group, or a reference that is not NULL names no live row |
| Promises.UpdateRefusedIff | fastapi_modular/infrastructure/database/memory.py:458-473 | so is an update, for the row it makes |
| Promises.DeleteRefusedIff | fastapi_modular/infrastructure/database/memory.py:404-409 | a live row cannot be deleted exactly if some live row holds its id in a referring column |
| Promises.SaveStores | fastapi_modular/infrastructure/database/memory.py:304-313 | a save stores the row under its own id, or under one above all of its table, and touches nothing else; a refused one stores nothing |
| Promises.UpdateAndDeleteChange | fastapi_modular/infrastructure/database/memory.py:435-473 | an update changes the named columns of the named row, even if refused; a delete takes only its row away |
| Promises.IdIsNext | fastapi_modular/infrastructure/database/memory.py:315-329 | the id issued is one above the largest of the counter and the live ids |
| Promises.BlockEnds | fastapi_modular/infrastructure/database/memory.py:162-169 | a block that does not finish leaves the rows as found; a rollback its body asks for ends there, any other exception goes on |
| Promises.ConsistentIff | fastapi_modular/infrastructure/database/memory.py:331-366 | consistency is: no two live rows of a table agree in a unique group, every reference that is not NULL names a live row, and no id is 0 |
| Promises.PromisesKept | fastapi_modular/infrastructure/database/memory.py:331-366 | a handler that catches exceptions only around blocks and ends without one leaves no duplicate and no dangling reference |
| Promises.SwallowedUpdateShows | fastapi_modular/infrastructure/database/memory.py:458-473 | swallowing the exception of a refused update leaves a duplicate or a dangling reference |
| Interleaving.ProgramTakesSteps | fastapi_modular/infrastructure/database/memory.py:134-174 | a program with its blocks, exceptions and first attempt to write is exactly the sequence of its steps on the shared tables |
| Interleaving.TablesHoldSurvivors | fastapi_modular/infrastructure/database/memory.py:60-174 | under every interleaving of requests and blocks, also of tasks that escape the lock, the tables hold exactly the writes in force: a failing request goes back to its first attempt to write, a block that does not finish to its opening |
| Interleaving.WriteKeepsItsPast | fastapi_modular/infrastructure/database/memory.py:60-174 | every write in force stands on exactly what was in force when it was made |
| Interleaving.BackSparesOthersIff | fastapi_modular/infrastructure/database/memory.py:60-174 | going back erases no write of another task exactly when every write in force since the snapshot is the task's own, be it made or brought back since |
| Interleaving.BackCutsOff | fastapi_modular/infrastructure/database/memory.py:60-174 | if nothing went back beyond the snapshot in between, going back just cuts off what was written since, and spares others exactly when all of that is the task's own |
| Interleaving.LockSparesOthers | fastapi_modular/infrastructure/database/memory.py:148-161 | what the lock promises: if every write is made in a block and no request fails meanwhile, a block that does not finish erases no write of another task |
| Interleaving.AbortErasesOthers | fastapi_modular/infrastructure/database/memory.py:157-174 | a block that does not finish erases whatever other tasks did outside of blocks meanwhile, however well their requests ended |
| Interleaving.FailureErasesOthers | fastapi_modular/infrastructure/database/memory.py:75-83 | a failing request puts the tables back to where they were at its own first attempt to write, whatever other requests wrote since |
| Interleaving.FailureRevives | fastapi_modular/infrastructure/database/memory.py:75-83 | of two interleaved requests that both fail, the second puts back a write of the first |
| Interleaving.NothingLostIff | fastapi_modular/infrastructure/database/memory.py:60-174 | at every moment all writes made are in force exactly if no step goes back over a write |
| Interleaving.SuccessKeepsAll | fastapi_modular/infrastructure/database/memory.py:60-174 | if no request fails and no block is aborted every write survives, however they interleave |
| SerialRequests.ProgramIsOrderly | fastapi_modular/infrastructure/database/memory.py:60-83 | the steps of a program write only after joining the request and leave every block they open |
| SerialRequests.RequestIsOrderly | fastapi_modular/infrastructure/database/memory.py:60-83 | so does a request from its beginning to its end |
| SerialRequests.SerialRequestsAreAtomic | fastapi_modular/infrastructure/database/memory.py:60-174 | requests one after the other are nested transactions: the tables hold exactly what a log per open block would, with aborted blocks and failed requests dropped |
| Container.Container.Provide | fastapi_modular/core/container.py:396-397 | from outside any construction, resolving succeeds exactly when the eager dependency graph below the token has no cycle and no faulty provider; the instance then stands in the store its provider declares and in no other, and is the one stored before if there was one; a request-scoped provider fails without a request |
| Container.Container.Lifetimes | fastapi_modular/core/container.py:258-271 | provided twice in one request it is the same instance; in the next request a singleton is still the same one and a request-scoped one is made anew |
| Container.StoresFollowScopes | fastapi_modular/core/container.py:258-271 | each store holds only instances whose provider declares its scope |
| Container.Container.Resolve | fastapi_modular/core/container.py:193-232 | stores only grow, by exactly the instances constructed, each key once per store; the building stack is restored on success and failure; a failure comes with a faulty chain |
| Container.Container.Construct | fastapi_modular/core/container.py:224-232 | push, wire, construct, pop and store one provider |
| Container.Container.BuildKwargs | fastapi_modular/core/container.py:273-314 | every parameter is wired to its own default, a lazy proxy or the stored instance |
| Container.Container.BuildParam | fastapi_modular/core/container.py:281-313 | one parameter, with the error for a missing annotation or a request-scoped dependency of a singleton |
| Container.Container.EnterScope | fastapi_modular/core/container.py:343-350 | a request starts with an empty store |
| Container.Container.ExitScope | fastapi_modular/core/container.py:351-363 | closing runs the hooks latest first, a dependent always before what it depends on, all of them unless one raises; that one stops the rest and leaves the store open |
| Container.StoredIsResolvable | fastapi_modular/core/container.py:193-232 | whatever is stored is resolvable: no cycle can have entered a store |
| Container.ChainIsStored | fastapi_modular/core/container.py:193-232 | insertion order is topological along every dependency chain |
| Container.FaultIsNotResolvable | fastapi_modular/core/container.py:193-232 | a faulty chain rules out success |
| Container.DependentsComeLater | fastapi_modular/core/container.py:351-363 | in the order of the store, dependents come after their dependencies |
| Container.ClosingIsSound | fastapi_modular/core/container.py:351-363 | no singleton holds a request-scoped instance, so ending a request takes nothing from it |
| Container.OpeningIsSound | fastapi_modular/core/container.py:343-350 | opening a request keeps the stores sound |
| Container.StoringIsSound | fastapi_modular/core/container.py:230-232 | storing a new instance keeps the stores sound |
| Cron.NextAfter | fastapi_modular/core/cron.py:99-128 | the least matching minute strictly after the given one, or an error exactly when there is none up to the limit |
| Cron.OrderIsIndex | fastapi_modular/core/cron.py:106-109 | the field-by-field order of moments is the order of the calendar time line |
| Cron.JumpsSkipOneUnit | fastapi_modular/core/cron.py:131-140 | between a moment and the start of its next month, day or hour lies only that month, day or hour |
| Cron.SkipMonth | fastapi_modular/core/cron.py:110-112 | jumping over a month that is not allowed skips no match |
| Cron.SkipDay | fastapi_modular/core/cron.py:113-115 | jumping over a day that does not fit skips no match |
| Cron.SkipHour | fastapi_modular/core/cron.py:116-118 | jumping over an hour that is not allowed skips no match |
| Cron.SkipMinute | fastapi_modular/core/cron.py:119-121 | stepping over a minute that is not allowed skips no match |
| Cron.DayOfMonthAlwaysRuns | fastapi_modular/core/cron.py:99-128 | with all weekdays allowed and some allowed day of at most 28 in an allowed month the search never fails |
| Cron.WeekdayAlwaysRuns | fastapi_modular/core/cron.py:77-97 | with two plain day fields the weekday alone suffices |
| Cron.DayAloneAlwaysRuns | fastapi_modular/core/cron.py:77-97 | so does the day of the month alone |
| Cron.MatchIff | fastapi_modular/core/cron.py:70-97 | what a moment must meet: with two plain day fields the day or the weekday counted from Sunday, with a leading star in one both |
| Cron.CalendarIsGregorian | fastapi_modular/core/cron.py:137-140 | the lengths of the months, with the leap rule |
| Cron.KnownSunday | fastapi_modular/core/cron.py:90-92 | the weekdays are anchored at a known Sunday |
| Cron.NoThirtiethOfFebruary | fastapi_modular/core/cron.py:51-54 | the 30th of February never runs |
| Cron.DateRunsIff | fastapi_modular/core/cron.py:99-128 | for one date a year, joined with any weekdays, the search succeeds exactly when the date exists on an allowed weekday this year and still to come, in one of the next four years, or early enough in the fifth or sixth |
| Cron.DateOnWeekdayBeyondLimit | fastapi_modular/core/cron.py:51-54 | so a date that must also fall on a weekday is refused although it comes again, more than five years later |
| Cron.LeapDayRunsIff | fastapi_modular/core/cron.py:99-128 | for the 29th of February the search succeeds exactly when a leap day comes this year, in the next four, or early enough in the fifth |
| Cron.LeapDayBeyondLimit | fastapi_modular/core/cron.py:51-54 | so a valid leap-day schedule is refused after February 2096, the next being eight years away |
| CronText.ParseField | fastapi_modular/core/cron.py:177-183 | the union of what the parts accept, or an error as soon as one is refused |
| CronText.ParseCron | fastapi_modular/core/cron.py:143-174 | accepts exactly five readable fields after shortcuts, with 7 folded onto Sunday and the stars taken from the first characters |
| CronText.ReadsBack | fastapi_modular/core/cron.py:143-174 | any schedule written in the five-field form is read back as exactly the sets it denotes |
| CronText.FieldReads | fastapi_modular/core/cron.py:177-183 | a written field is read back as the union of its parts |
| CronText.PartReads | fastapi_modular/core/cron.py:186-212 | a written part with optional step is read back as the values it denotes |
| CronText.AcceptedIsDenoted | fastapi_modular/core/cron.py:186-228 | whatever is accepted stands for some part with its numbers in range |
| CronText.AcceptedInRange | fastapi_modular/core/cron.py:177-228 | an accepted field is a non-empty set within its range |
| CronText.MeaningInRange | fastapi_modular/core/cron.py:48 | an accepted expression stays within the ranges of the five fields, with weekdays from 0 to 6 |
| CronText.PartValues | fastapi_modular/core/cron.py:186-212 | a part stands for its number, or for the values from the first on, step by step, up to the last |
| CronText.SundayIsZero | fastapi_modular/core/cron.py:162 | of the weekdays only 7 changes, to 0 |
| CronText.StripsEnds | fastapi_modular/core/cron.py:145 | white space around the expression does not count |
| CronText.NoWordIff | fastapi_modular/core/cron.py:145-150 | which characters separate the five fields |
| CronText.LowerKeepsRest | fastapi_modular/core/cron.py:149 | a shortcut is looked up in small letters |
| CronText.YearlyMeans | fastapi_modular/core/cron.py:38-46 | what @yearly and @annually mean |
| CronText.MonthlyMeans | fastapi_modular/core/cron.py:38-46 | what @monthly means |
| CronText.WeeklyMeans | fastapi_modular/core/cron.py:38-46 | what @weekly means |
| CronText.DailyMeans | fastapi_modular/core/cron.py:38-46 | what @daily and @midnight mean |
| CronText.HourlyMeans | fastapi_modular/core/cron.py:38-46 | what @hourly means |
| CronText.StarsMean | fastapi_modular/core/cron.py:143-174 | five stars allow every minute, and a weekday field 7 allows Sunday only |
| CronText.StarWeekdayRuns | fastapi_modular/core/cron.py:99-174 | a schedule with weekday field * and some day up to the 28th always has a next run |
| Mqtt.ValidateTopicFilter | fastapi_modular/infrastructure/mqtt/patterns.py:18-35 | accepts exactly the valid filters and otherwise names the first fault |
| Mqtt.TopicMatches | fastapi_modular/infrastructure/mqtt/patterns.py:49-67 | the index loop decides the level-by-level match |
| Mqtt.MatchesIsSection47 | fastapi_modular/infrastructure/mqtt/patterns.py:49-67 | on valid filters the matcher is the relation of section 4.7 of OASIS MQTT 3.1.1 |
| Mqtt.FilterCovers | fastapi_modular/infrastructure/mqtt/patterns.py:70-97 | the index loop decides the level-by-level cover |
| Mqtt.CoversExactly | fastapi_modular/infrastructure/mqtt/patterns.py:70-97 | a filter covers another exactly when every valid topic of the second matches the first, apart from the system gap and the empty-topic gap |
| Mqtt.CoversIsPartialOrder | fastapi_modular/infrastructure/mqtt/patterns.py:70-97 | cover is reflexive, transitive and antisymmetric on valid filters |
| Mqtt.NarrowFilters | fastapi_modular/infrastructure/mqtt/patterns.py:100-116 | the resulting table is the pruning of the subscriptions in order, with the highest quality of service |
| Mqtt.FirstCoverIsFirst | fastapi_modular/infrastructure/mqtt/patterns.py:107-110 | the keeper is the first other subscription that covers the filter |
| Mqtt.NarrowingServes | fastapi_modular/infrastructure/mqtt/patterns.py:100-116 | every subscription has a keeper covering it with at least its quality of service, and topics still arrive apart from system topics |
| Mqtt.NarrowingLosesSystemTopics | fastapi_modular/infrastructure/mqtt/patterns.py:100-116 | the exception is real |
| Mqtt.NarrowedIsAntichainIff | fastapi_modular/infrastructure/mqtt/patterns.py:100-116 | no two kept filters overlap exactly when every first cover is itself uncovered |
| Mqtt.NarrowingKeepsOverlap | fastapi_modular/infrastructure/mqtt/patterns.py:100-116 | the insertion order for which two overlapping filters remain |
| Rpc.Collate | fastapi_modular/core/rpc.py:183-206 | the two weight tiers of a key |
| Rpc.CollateInjective | fastapi_modular/core/rpc.py:157-206 | the two tiers together determine the key |
| Rpc.CollationIsTotal | fastapi_modular/core/rpc.py:183-206 | collation is a strict total order on all strings |
| Rpc.ToRoute | fastapi_modular/core/rpc.py:125-150 | the recursive printer with its limits computes the canonical text |
| Rpc.ToDict | fastapi_modular/core/rpc.py:141-150 | one part per key in collation order, joined by commas |
| Rpc.EscapeIsEach | fastapi_modular/core/rpc.py:153-154 | the two replacement passes escape each character on its own |
| Rpc.QuotedReads | fastapi_modular/core/rpc.py:153-154 | a quoted string can be read back from the front of a text |
| Rpc.SameViewSameRoute | fastapi_modular/core/rpc.py:112-150 | insertion order of keys does not show at any depth |
| Rpc.ValueReads | fastapi_modular/core/rpc.py:125-150 | a value can be read back from the front of a text, up to what a dict means |
| Rpc.CanonicalExactly | fastapi_modular/core/rpc.py:112-150 | two patterns, both raw strings or both not, have the same text exactly when they mean the same, dicts beyond a limit being indistinguishable |
| Rpc.CanonicalWithinLimits | fastapi_modular/core/rpc.py:112-150 | within the limits the text is equal exactly when the patterns are equal but for key order |
| Rpc.RawStringMeets | fastapi_modular/core/rpc.py:125-127 | a raw string that does not begin with a brace meets a pattern of another kind exactly if it is true, false, a decimal integer or the mark for too many keys; with a brace it may, as {} does |
| KeyOrder.WeightsOrder | fastapi_modular/core/rpc.py:166-180 | characters are ordered: marks in the order of the row, digits, letters alphabetically whatever their case, all others by code |
| KeyOrder.KeyLessIs | fastapi_modular/core/rpc.py:183-206 | keys are compared at the first place where their letters differ, the shorter first if there is none, and with the same letters the one without the capital at the first difference comes first |
| KeyOrder.WordsAlphabetical | fastapi_modular/core/rpc.py:183-206 | words of letters come in the alphabetical order of their small letters |
| KeyOrder.FirstKeyStandsLeft | fastapi_modular/core/rpc.py:141-150 | in the text of a dict the part of the key that comes first stands to the left of the other |
| KeyOrder.SmallAndCapital | fastapi_modular/core/rpc.py:157-164 | {"z":1,"a":2,"M":3} is written {"a":2,"M":3,"z":1} |
| KeyOrder.LimitsAreMarked | fastapi_modular/core/rpc.py:136-139 | beyond twenty keys, and below five dicts in one another, only a mark is written |
| Text.DecimalReads | fastapi_modular/core/rpc.py:132-133 | a printed integer followed by a non-digit can be read back |
| TokenBucket.Connection.TakeToken | fastapi_modular/core/websocket/gateway.py:452-469 | refill by elapsed time up to the burst, then take one token if there is one |
| TokenBucket.ReceiveLoop | fastapi_modular/core/websocket/gateway.py:436-445 | the verdict of each message is that of the bucket; a rate of zero or less lets all through |
| TokenBucket.LevelIsTightestWindow | fastapi_modular/core/websocket/gateway.py:452-469 | the token level is the tightest of all windows ending at the message |
| TokenBucket.AcceptsExactly | fastapi_modular/core/websocket/gateway.py:452-469 | message j is accepted exactly when for every i <= j the accepted messages of i..j-1 plus one fit burst + rate * (t_j - t_i) |
| TokenBucket.WindowBound | fastapi_modular/core/websocket/gateway.py:271-272 | any window admits at most burst + rate * length messages |
| TokenBucket.NoRateNoLimit | fastapi_modular/core/websocket/gateway.py:458-460 | without a positive rate nothing is refused |
| Circuit.CircuitBreaker.BeforeCall | fastapi_modular/infrastructure/database/circuit.py:109-118 | refuses with the remaining rest time or lets through, moving to HALF_OPEN when the rest is over |
| Circuit.CircuitBreaker.OnSuccess | fastapi_modular/infrastructure/database/circuit.py:120-124 | a success closes the breaker |
| Circuit.CircuitBreaker.OnFailure | fastapi_modular/infrastructure/database/circuit.py:126-140 | a transient failure counts and may open the breaker; any other counts for nothing |
| Circuit.BreakerIsHistory | fastapi_modular/infrastructure/database/circuit.py:109-140 | under every interleaving the state is a function of the history: closed exactly when the streak of transient failures is below the threshold |
| Circuit.RefusedExactly | fastapi_modular/infrastructure/database/circuit.py:109-118 | a call is refused exactly when the run is tripped, no probe began and the rest is not over |
| Circuit.DisabledNeverRefuses | fastapi_modular/infrastructure/database/circuit.py:142-165 | switched off, it refuses nothing |
| Circuit.ManyProbes | fastapi_modular/infrastructure/database/circuit.py:109-118 | any number of concurrent calls pass in HALF_OPEN |
| Circuit.ProbeRate | fastapi_modular/infrastructure/database/circuit.py:109-165 | while every call fails transiently, at most floor(T / reset) one-at-a-time calls reach the backend in T seconds |
| Kafka.KafkaRunner.Handle | fastapi_modular/infrastructure/kafka/consumers.py:259-289 | the attempts and the fate of one message are exactly those its answers call for; it stops early only when the process dies |
| Kafka.KafkaRunner.Attempt | fastapi_modular/infrastructure/kafka/consumers.py:265-289 | one turn of the retry loop |
| Kafka.KafkaRunner.MoveToDlt | fastapi_modular/infrastructure/kafka/consumers.py:318-344 | published, refused, dropped by setting, or lost because it is not JSON |
| Kafka.KafkaRunner.Commit | fastapi_modular/infrastructure/kafka/consumers.py:238 | the offset is stored, or the commit raises with or without having been stored |
| Kafka.KafkaRunner.Session | fastapi_modular/infrastructure/kafka/consumers.py:213-252 | one consumer from the stored offset on, with its trace; only a crash, a failed commit or the end ends it |
| Kafka.KafkaRunner.ReadLoop | fastapi_modular/infrastructure/kafka/consumers.py:203-257 | every run with crashes anywhere follows the protocol, its trace is a function of what the handler, the broker and the crashes answer, and each event is what its answer brings about |
| Kafka.AtLeastOnce | fastapi_modular/infrastructure/kafka/consumers.py:234-238 | every offset from the first one stored up to the committed one was handled, dead-lettered, dropped, lost or skipped |
| Kafka.EarliestMissesNothing | fastapi_modular/infrastructure/kafka/consumers.py:213-238 | a group reading from the earliest offset has completed every offset below the committed one |
| Kafka.PassesOverNothingIff | fastapi_modular/infrastructure/kafka/consumers.py:213-238 | in every possible run everything from the first delivery to the committed offset is completed, exactly when the group reads from the earliest offset |
| Kafka.LatestMissesNothingAfterOneStart | fastapi_modular/infrastructure/kafka/consumers.py:213-238 | whatever it reads from, a run without a restart before its first commit has completed everything from its first delivery to the committed offset |
| Kafka.LatestPassesOver | fastapi_modular/infrastructure/kafka/consumers.py:213-238 | the answers under which the loop, reading from the latest offset, passes over a message it was delivered and, if it may retry, has tried |
| Kafka.AttemptsAreBounded | fastapi_modular/infrastructure/kafka/consumers.py:265-289 | attempts on a delivery are numbered without gaps, each after a failure, at most max_retries + 1 |
| Kafka.StoredRightAfterCompleted | fastapi_modular/infrastructure/kafka/consumers.py:237-238 | an offset is stored only right after its message was completed |
| Kafka.FateIsDeserved | fastapi_modular/infrastructure/kafka/consumers.py:259-344 | each fate exactly: a message is skipped iff max_retries is negative and handled iff its last attempt succeeded; else dropped iff dead-lettering is off, dead-lettered iff it is on, the message is JSON and the publish succeeded, and lost otherwise |
| Kafka.EventAnswered | fastapi_modular/infrastructure/kafka/consumers.py:259-344 | each event is what its answer brings about: an attempt succeeds exactly if the message is JSON and the handler said so, is a permanent error exactly if it is JSON and the handler said that, and an offer is accepted exactly if the publish was; answers are used in order |
| Kafka.AnswerTaken | fastapi_modular/infrastructure/kafka/consumers.py:203-257 | no answer is passed over: each that did not end a session brought about an event |
| Kafka.AnswerDecides | fastapi_modular/infrastructure/kafka/consumers.py:265-289 | the answer to an attempt decides what follows: handled, given up at once on a permanent error, or the next attempt while any is left |
| Kafka.HandledMeansOk | fastapi_modular/infrastructure/kafka/consumers.py:265-289 | a message is handled only by an attempt whose answer was Ok |
| Kafka.WorkIsCounted | fastapi_modular/infrastructure/kafka/consumers.py:203-257 | completions are the offsets committed plus at most one per restart |
| Namespaces.Socket.Send | fastapi_modular/core/websocket/socket.py:108-145 | a full queue replaces its oldest frame or closes the socket, by policy; a closing socket takes nothing |
| Namespaces.FateMeans | fastapi_modular/core/websocket/namespace.py:104-111 | a delivery queues the frame last on each socket that is not skipped, not closing and not full without dropping, and closes the full ones that do not drop |
| Namespaces.Namespace.Add | fastapi_modular/core/websocket/namespace.py:44-47 | a socket is registered and indexed by user |
| Namespaces.Namespace.Remove | fastapi_modular/core/websocket/namespace.py:49-61 | a removed socket leaves no trace in any index and no empty bucket |
| Namespaces.Namespace.Join | fastapi_modular/core/websocket/namespace.py:64-66 | joining keeps the indexes equal to a scan exactly for a registered socket |
| Namespaces.Namespace.Leave | fastapi_modular/core/websocket/namespace.py:68-74 | leaving updates both sides and drops the last bucket |
| Namespaces.Namespace.Targets | fastapi_modular/core/websocket/namespace.py:113-127 | the index lookup finds exactly the sockets a scan over all of them would choose |
| Namespaces.Namespace.Deliver | fastapi_modular/core/websocket/namespace.py:89-111 | delivery reaches exactly those sockets minus the excluded and closing ones, and counts the frames queued |
| Namespaces.SendAll | fastapi_modular/core/websocket/namespace.py:104-111 | each target gets the frame once |

## Left out

- Drivers and brokers (SQLAlchemy, motor, aiokafka, aiomqtt, redis, Starlette): SQL conditions, joins, Mongo filters and the Kafka log are given an abstract meaning instead.
- Column values are integers or NULL; text, dates and enums add only other orders of values, and type coercion is not modelled.
- LIKE is one predicate shared by all backends; what its pattern language means is not modelled.
- Joins.JoinsOnConditionsAgree: how a condition reads the columns of a joined row is a parameter.
- Grouping, HAVING, DISTINCT, LIMIT and aggregate functions of queries.
- Nesting.NestIsGrouping: covers chains whose root table is innermost, with list links and without explicit ordering of an outer level; chains that continue inside the root, and object links, are not modelled.
- Cascade.MemoryBackend.DeleteWhereIds: the depth of nested deletes that the interpreter's stack allows is a parameter.
- Transactions.Backend.Delete: foreign keys are RESTRICT there; the other actions are in `Cascade`.
- Transactions.Backend.Run: one task at a time. Tasks that interleave are the steps of `Interleaving`, where a request is one task and what a write writes is given; waiting for the lock is a condition on the order of the steps.
- Transactions.Backend.IssueId: tables with random ids take their ids from the caller.
- Container.Container.Resolve: nested request scopes, `override`, `build` and `reset` are not modelled, and a lazy proxy is a name.
- Cron.NextAfter: naive wall-clock minutes; seconds, time zones, daylight saving and the year limit of datetime are not modelled.
- CronText.ParseCron: error messages, and digits and capital letters outside ASCII, are not modelled.
- Rpc.ToRoute: floats and other Python values that are printed with `str` are not modelled, nor are the packet builders and the table of pending replies.
- Mqtt.NarrowFilters: the broker session that consumes the narrowed table is not modelled.
- TokenBucket.ReceiveLoop: time is real-valued and supplied; floating-point rounding is not modelled.
- Circuit.ProbeRate: supposes calls one at a time, as `Circuit.ManyProbes` shows it must.
- Kafka.KafkaRunner.ReadLoop: one partition and one consumer; rebalancing, the delays between attempts and reconnects, and shutdown are not modelled.
- Namespaces.Namespace.Deliver: targets are collected in a set, since the order of delivery is not promised.
- Locks, scheduler and worker ownership, event names, histograms, configuration, the command line and code generators.
