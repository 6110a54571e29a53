# Verified model of the hierarchy store

The store keeps a forest of management groups, subscriptions and resource groups in two forms.
`nodes.parent_id` is where the shape lives. `node_closure` is an index over it: one row for each
node and each node at or above it, with the distance. Reads use only the index, and nothing in the
schema can tell whether the two agree. This project models the write path that keeps them in
agreement, the read path that relies on it, and requests of both kinds running side by side.

Everything is measured against one walk, `Forest.Anc`: the node `k` steps up the parents. `Index.Inv`
says that every parent is stored and that the closure holds exactly the pairs the walk gives, with
their distances. `Post.Posted` says what a post does to the forest with no index anywhere: descendants
and ancestors are found by walking. The statements, the loops and the interleavings are then shown to
do the same thing through the index.

Modules, bottom up:

- `Types`, `Sorting`: rows, tables, trees; the stable sort by key behind `list.sort(key=...)`.
- `Forest`, `Payload`, `Index`: the walk, preorder listings and what it means for a tree to *show* a
  stored node, and when the closure table is right.
- `Flatten`, `Closure`, `Assemble`: the three loop passes of the service. `Assemble` builds its tree
  on the heap, appending to children lists in place.
- `Statements`, `Constraints`, `Repository`: each SQL statement as reads, row-level writes and
  refusals checked when the statement ends; the session class that runs them.
- `Post`, `Cycles`, `WritePath`, `Service`: the write as a function of the forest, the cycle test, the
  statements one after another, and the two use cases as methods.
- `Shown`, `Reading`, `Effects`, `Reposting`: what fetches answer before and after posts, and what two
  posts do to each other.
- `Requests`: writers a statement at a time behind one transaction-scoped lock, single-statement
  readers, abandonment at any point. Isolation is Read Committed, PostgreSQL's default, since
  `python-server/app/lib/database.py:15` sets none: a statement sees what is committed when it starts
  plus its own transaction's rows. The lock is consulted only where it is taken; a commit lays the
  writer's rows over whatever is committed by then.
- `Progress`: what can always happen next: reads never wait, no request is shut out, the holder of the lock
  can finish.
- `Oracle`, `Fixtures`: the independent descriptions of the right rows in the repository's tests.

Where the documentation and the code part ways, the model follows the code. The repository's README
("Integrity", line 210) and the migration (lines 88-89) say the single-parent index makes the
stored graph a forest. It does not: `Constraints.ConstraintsAllowCycle` gives two nodes that are each
other's parent with every constraint met, as `python-server/tests/hierarchy_fixtures.py:97-98` itself
notes. What does make it a forest is an exact closure: `Index.ForestExactlyWhenIndexed`.

Check the whole project with `dafny verify dfyconfig.toml`.

## Model

| member | source | states |
|---|---|---|
| Requests.EveryRunSerial | python-server/app/lib/repositories/postgres_hierarchy.py:24-36 | in every state of every interleaving of writers, readers and abandoned requests, the committed forest is what serving the recorded requests one at a time leaves, the index is exact, what is recorded is what each client would have been told then, writers took effect in lock order, and no post met a constraint refusal |
| Requests.EveryAnswerRecorded | python-server/app/lib/hierarchy.py:196-250 | every writer is still at it, has given up, or was told a rejection or the stored tree; whoever was told anything is recorded with exactly that, and once, and nobody else is recorded |
| Requests.LockOrder | python-server/app/lib/repositories/postgres_hierarchy.py:76-83 | of two writers that stored, the one recorded first got the lock first, and each got it once |
| Requests.ExplainedOnce | python-server/app/lib/hierarchy.py:173-250 | the forest at which a request is served leaves one possible answer to it |
| Progress.CanFetch | python-server/app/lib/repositories/postgres_hierarchy.py:50-74 | a read can take place in every reachable state, whoever holds the lock, and is told what is committed |
| Progress.CanRejectRepeated | python-server/app/lib/hierarchy.py:119-122 | a payload that repeats an id can be rejected whoever holds the lock, and is told the first id to repeat |
| Progress.CanTakeLock | python-server/app/lib/repositories/postgres_hierarchy.py:76-83 | whenever the lock is free any waiting writer whose payload repeats no id can take it |
| Progress.CanAbandon | python-server/app/lib/database.py:23-32 | any request can end before it is through, and then leaves no row, no answer and no lock |
| Progress.HolderCanMove | python-server/app/lib/repositories/postgres_hierarchy.py:76-83 | short of giving up, the holder of the lock always has its next statement, a rejection for a cycle or the commit, one statement a step and each nearer to releasing the lock |
| Progress.HolderCanFinish | python-server/app/lib/hierarchy.py:193-246 | from every valid state the holder of the lock can finish by its own steps, stored or rejected as the forest it found says, and recorded |
| Progress.AnyPostServed | python-server/app/lib/hierarchy.py:177-250 | every run that comes to a point where the lock is free can go on to serve any new payload, whose client is told what the forest at that point says |
| Requests.RunsStayValid | python-server/app/lib/hierarchy.py:193-246 | every reachable state has an exact index and each lock holder's reads and writes are those of a lone writer over what is committed |
| Requests.HolderUndisturbed | python-server/app/lib/repositories/base.py:45-53 | while one writer holds the lock no step of anyone else changes the committed tables, the lock or that writer |
| Requests.NeverRefused | python-server/app/lib/hierarchy.py:221-245 | in no reachable state is a writer's next statement refused or its read-back missing a parent |
| Requests.AdvanceOnTrack | python-server/app/lib/hierarchy.py:196-245 | each single statement takes a writer from one point of the lone run to the next |
| Requests.StepSparesOthers | python-server/app/lib/database.py:23-32 | a step of one request leaves every other writer as it was |
| Requests.StepLock | python-server/app/lib/repositories/postgres_hierarchy.py:76-83 | the lock passes only to a request taking it while it is free, and is freed only by closing the request that holds it |
| Requests.CommitTables | python-server/app/lib/repositories/postgres_hierarchy.py:180-187 | laying the lock holder's rows over the committed tables gives exactly its post, with an exact index |
| Service.HierarchyService.StoreHierarchy | python-server/app/lib/hierarchy.py:177-250 | with the tables as they are when the lock is granted, even if another session holds it first: a failing post commits nothing; a payload that repeats an id is rejected for the first one to repeat, without touching the lock; over an exact index a post fails only by rejection, for the reason the forest alone gives, and otherwise commits exactly the post of the forest, with an exact index, and returns the payload sorted at every level |
| Service.DoneMeans | python-server/app/lib/hierarchy.py:196-202 | what a finished post returns, case by case: the first id to repeat, else the least payload id above the root, both with the tables unchanged, else the sorted payload and the posted forest |
| Service.ReadsAsOnce | python-server/app/lib/hierarchy.py:74-90 | the node returned reads as one answer only |
| Service.HierarchyService.WriteAndCommit | python-server/app/lib/hierarchy.py:209-250 | with the cycle check passed over an exact index, the rows written, read back and committed are a finished post; on a failure nothing is committed |
| Service.HierarchyService.WriteRows | python-server/app/lib/hierarchy.py:209-240 | over an exact index with the cycle check passed, the statements run unrefused and end in the tables the last of them must leave |
| Service.HierarchyService.GetHierarchy | python-server/app/lib/hierarchy.py:173-175 | over an exact index the fetch never fails, is null exactly for ids not stored, and otherwise reads as the one tree the node shows |
| Service.HandlePost | python-server/app/lib/database.py:23-32 | one request from session to rollback, waiting if another session is writing: exactness carries over, a failed request changes nothing, no lock of its own outlives it |
| Service.CheckDecides | python-server/app/lib/hierarchy.py:196-202 | the check on captured rows rejects exactly when walking up from the root meets a payload id, and names the least such id |
| Cycles.CycleCheckExact | python-server/app/lib/hierarchy.py:203-207 | the payload shares no id with the ancestors of its root if and only if the parents after the upsert, doomed nodes included, are acyclic |
| Cycles.PostForest | python-server/app/lib/hierarchy.py:185-188 | an accepted post of a forest leaves a reference-closed forest |
| Post.AboveRootOutside | python-server/app/lib/hierarchy.py:203-210 | with the check passed, no ancestor of the posted root is doomed or rewritten |
| Post.RootWalk | python-server/app/lib/hierarchy.py:226-228 | the chain above the posted root is unchanged, both after the upsert and after the whole post |
| Post.PayloadWalk | python-server/app/lib/hierarchy.py:138-146 | walking up from a payload node goes through the payload to its root and then on as the root always did |
| Post.OutsideWalk | python-server/app/lib/repositories/postgres_hierarchy.py:169-173 | nodes out of the payload's reach keep their whole chain |
| Post.PostedExactly | python-server/app/lib/hierarchy.py:196-202 | a post is accepted if and only if its payload repeats no id and names nothing above its own root; otherwise the rejection names the first repeat, or else the least such id |
| WritePath.InvAfterInsert | python-server/app/lib/hierarchy.py:185-188 | after the last statement the forest is the post of the forest and the index is exact: no row wrong, none missing |
| WritePath.UpsertAccepted | python-server/app/lib/hierarchy.py:221-232 | the upsert names no id twice and every parent is stored when it ends, inversions included |
| WritePath.DeleteAccepted | python-server/app/lib/hierarchy.py:212-235 | after the upsert the doomed set is closed under descendants, so the delete orphans nobody |
| WritePath.DeleteFirstRefused | python-server/app/lib/hierarchy.py:212-219 | deleting before the upsert would be refused if and only if some payload node is stored under a doomed parent |
| WritePath.RowsLeftAlone | python-server/app/lib/repositories/postgres_hierarchy.py:167-173 | the rows the two deletes leave are exactly those of descendants out of the payload's reach, unchanged, and none names a payload or doomed node as ancestor |
| WritePath.CapturedOutside | python-server/app/lib/repositories/postgres_hierarchy.py:85-100 | the captured rows are distinct surviving ids outside the payload, each at its true distance above the root |
| WritePath.NewRowRight | python-server/app/lib/hierarchy.py:132-171 | every row `closure_rows` emits is a true distance in the new forest, between stored nodes |
| WritePath.NewRowPresent | python-server/app/lib/hierarchy.py:138-142 | every step up from a payload node in the new forest has its row among those emitted |
| WritePath.InsertAccepted | python-server/app/lib/hierarchy.py:237-240 | the insert repeats no pair, new or stored, has stored endpoints and distances that are not negative, and leaves one depth-1 row per descendant at most |
| WritePath.StrayParentRefused | python-server/tests/test_error_contract.py:162-192 | were the closure rows of a post to come with one more that gives a payload node a second parent, the single-parent index alone would refuse them |
| WritePath.PostTakesPosted | python-server/app/lib/hierarchy.py:185-188 | the statements take an exact index to some tables if and only if the forest alone accepts the post and those tables are the exact index of the posted forest |
| WritePath.PostTakesOnce | python-server/app/lib/repositories/postgres_hierarchy.py:85-100 | the order in which the captured rows come back leaves no trace in the tables |
| Flatten.FlattenPayload | python-server/app/lib/hierarchy.py:93-129 | the level loop terminates and returns the scan of the breadth-first listing: all rows, or the id at which one repeats |
| Flatten.FlattenMeaning | python-server/app/lib/hierarchy.py:96-112 | it succeeds if and only if no id occurs twice; then its rows are the payload's preorder rows, strictly by depth and id, parents first; otherwise it names the first repeat in that order |
| Flatten.FirstRepeatOnce | python-server/app/lib/hierarchy.py:119-122 | there is one first repeat at most, and an earlier row has its id |
| Sorting.SortByStable | python-server/app/lib/hierarchy.py:120-120 | sorting a level keeps nodes with equal ids in their order |
| Flatten.ListingIsSortedPreorder | python-server/app/lib/hierarchy.py:119-127 | the breadth-first listing holds the preorder rows with their multiplicities, ordered by depth and id |
| Flatten.LevelShrinks | python-server/app/lib/hierarchy.py:119-127 | fewer nodes are at or below the next level than at or below this one |
| Flatten.BfsHangs | python-server/app/lib/hierarchy.py:96-101 | every row past the first level follows its parent and lies one level deeper |
| Closure.ClosureRows | python-server/app/lib/hierarchy.py:132-171 | the pass fails exactly when a node precedes its parent; on a flattened payload it returns the rows that walking up gives, node by node |
| Closure.NoPairTwice | python-server/tests/test_hierarchy_write.py:153-158 | no ancestor-descendant pair is emitted twice when captured ids are distinct and outside the payload |
| Closure.ClosureSizeBound | python-server/tests/test_hierarchy_write.py:128-140 | there are 1 + depth + captured rows per node, at most n(n+1)/2 + nk in all, with equality if and only if the payload is a single chain |
| Assemble.AssembleTree | python-server/app/lib/hierarchy.py:60-90 | nesting fails exactly when a row after the first does not follow its parent, and names the parent of the first such row; otherwise the heap nodes linked in place read as the tree the rows describe, and no rows give null |
| Assemble.IsTreeOnce | python-server/app/lib/hierarchy.py:83-88 | what a linked node reads as is decided by the children lists below it |
| Reading.FetchAnswers | python-server/app/lib/hierarchy.py:74-90 | over an exact index nesting a read finds every parent, answers nothing exactly for what is not stored, and otherwise the tree shown |
| Reading.ReadComplete | python-server/app/lib/repositories/postgres_hierarchy.py:50-74 | the ordered join returns the node first, then each stored descendant after its parent and a level deeper, with none missing |
| Reading.ReadDistinct | python-server/alembic/versions/0001_create_nodes_and_node_closure.py:78-78 | the primary key alone makes the ids of a read distinct |
| Statements.ReadOnce | python-server/app/lib/repositories/postgres_hierarchy.py:62-74 | a read of one state returns one list |
| Reading.CompleteShows | python-server/app/lib/hierarchy.py:77-88 | nesting complete rows gives all stored children in ascending id order at every level |
| Reading.NestUndoesFlatten | python-server/app/lib/hierarchy.py:74-129 | nesting the rows of a flattened payload gives the payload sorted by id at every level |
| Reading.FlattenOfSorted | python-server/tests/test_hierarchy_write.py:63-80 | flattening the sorted payload gives the same rows |
| Payload.ShowsUnique | python-server/app/lib/hierarchy.py:242-244 | a stored node shows one tree only |
| Shown.PayloadShown | python-server/app/lib/hierarchy.py:242-244 | a table with the flattened payload in it, and nothing else hanging under it, shows each payload node's sorted subtree |
| Effects.StoreThenFetch | python-server/app/lib/hierarchy.py:242-250 | after an accepted post a fetch of the posted root answers the payload sorted at every level, with its types, never nothing |
| Effects.PayloadFetched | python-server/app/lib/hierarchy.py:180-183 | the same for every node of the payload and its part of it |
| Effects.PostedTable | python-server/app/lib/hierarchy.py:180-183 | the forest after an accepted post, told from the nesting of the payload: every nested node under the node it is nested in, the root where it hung, other nodes kept unchanged exactly when nothing named is above them |
| Effects.GoneAfter | python-server/app/lib/hierarchy.py:180-183 | what a fetch no longer finds: of the ids outside the payload, those never stored and those that lay below a payload node |
| Effects.OthersEdited | python-server/app/lib/hierarchy.py:209-240 | every other stored node shows its old tree with each subtree at a payload id pruned and the sorted payload where the posted root hung |
| Effects.OthersUntouched | python-server/tests/test_hierarchy_write_integration.py:295-308 | a tree that holds no payload id, and is not below one, keeps its nodes and every closure row naming them at either end |
| Effects.ShownIds | python-server/app/lib/repositories/base.py:72-79 | a shown tree covers exactly what is stored at or below its root |
| Reposting.RepostUnchanged | python-server/tests/test_hierarchy_write_integration.py:114-125 | the statements of a post of what a fetch returned are accepted and leave both tables as they were, and nothing else |
| Reposting.LaterPostWins | python-server/app/lib/hierarchy.py:178-183 | of two payloads with one root and one id set, the first accepted, the second is accepted too, and both posts leave the same two tables as the second alone |
| Reposting.DisjointPostsCommute | python-server/app/lib/repositories/postgres_hierarchy.py:24-36 | two accepted posts whose ids and everything stored below them are disjoint: in either order the second is still accepted and both tables end up the same |
| Requests.ApartSwap | python-server/app/lib/repositories/postgres_hierarchy.py:27-32 | two such posts recorded one right after the other could have been recorded the other way round, with the same forest and the same answers to everyone |
| Index.ExactUnique | python-server/app/lib/models/node_closure.py:3-5 | the parents determine the index |
| Index.InvAcyclic | python-server/app/lib/models/node_closure.py:57-63 | an exact index exists only over a forest |
| Index.ForestExactlyWhenIndexed | python-server/alembic/versions/0001_create_nodes_and_node_closure.py:88-96 | over stored parents, being a forest and having an exact index are the same |
| Index.DescendantsAreDesc | python-server/app/lib/repositories/postgres_hierarchy.py:115-129 | reading descendants from the index is walking up from every node |
| Index.AncestorRowsWalk | python-server/app/lib/repositories/postgres_hierarchy.py:85-100 | reading ancestors from the index is walking up from the node, with the distances walked |
| Constraints.ConstraintsAllowCycle | python-server/alembic/versions/0001_create_nodes_and_node_closure.py:88-89 | tables that meet every constraint and still hold a cycle |
| Constraints.UpsertGuardsParents | python-server/app/lib/repositories/postgres_hierarchy.py:131-151 | an upsert naming no row twice is accepted if and only if it leaves every parent stored |
| Constraints.UpsertRefused | python-server/app/lib/repositories/postgres_hierarchy.py:131-151 | refused for a row named twice, or else for a parent neither stored nor among the rows, and for nothing else |
| Constraints.UpsertWrites | python-server/app/lib/repositories/base.py:82-88 | each named id gets the stated type and parent; every other node, and the closure, stay |
| Constraints.DeleteGuardsParents | python-server/app/lib/repositories/postgres_hierarchy.py:153-162 | a delete is accepted if and only if it orphans nobody |
| Constraints.DeleteRefused | python-server/alembic/versions/0001_create_nodes_and_node_closure.py:49-55 | refused exactly when a node that stays hangs from a stored one that goes |
| Constraints.DeleteCascades | python-server/alembic/versions/0001_create_nodes_and_node_closure.py:68-77 | a delete takes the named nodes and exactly the closure rows naming one of them at either end |
| Constraints.ClearTakes | python-server/app/lib/repositories/base.py:103-107 | exactly the rows of the given descendants go |
| Constraints.InsertAdds | python-server/app/lib/repositories/postgres_hierarchy.py:178-178 | each row is stored under its pair with its depth; without those pairs the table is what it was |
| Constraints.InsertGuardsClosure | python-server/alembic/versions/0001_create_nodes_and_node_closure.py:70-96 | an insert is accepted if and only if its pairs are new and distinct and the table still meets its constraints |
| Constraints.InsertRefused | python-server/alembic/versions/0001_create_nodes_and_node_closure.py:70-96 | which refusal an insert meets, told from its rows and the stored ones: a pair taken, a negative distance, an end not stored, a second parent; otherwise it is accepted |
| Constraints.SecondParentRefused | python-server/alembic/versions/0001_create_nodes_and_node_closure.py:90-96 | over an exact index a row that gives a node a second parent is refused for just that |
| Constraints.OneParentEach | python-server/alembic/versions/0001_create_nodes_and_node_closure.py:90-96 | in the table an accepted insert leaves, two depth-1 rows of one descendant are one row |
| Constraints.InvConstraints | python-server/alembic/versions/0001_create_nodes_and_node_closure.py:70-96 | an exact index meets every constraint of the closure table: stored ends, no negative distance, one depth-1 row per descendant |
| Statements.ViewThen | python-server/app/lib/hierarchy.py:242-242 | a transaction sees its own writes: a statement's rows added to those before change what it sees as the statement says |
| Repository.PostgresHierarchyRepository.FetchSubtreeRows | python-server/app/lib/repositories/postgres_hierarchy.py:50-74 | exactly the joined rows, strictly by depth and then id |
| Repository.PostgresHierarchyRepository.FetchAncestorDepths | python-server/app/lib/repositories/postgres_hierarchy.py:85-100 | each row above the node once, in no promised order |
| Repository.PostgresHierarchyRepository.LockWrites | python-server/app/lib/repositories/postgres_hierarchy.py:76-83 | returns holding the lock; the tables are then the committed ones if the lock was free, or what the sessions ahead left |
| Repository.PostgresHierarchyRepository.UpsertNodes | python-server/app/lib/repositories/postgres_hierarchy.py:131-151 | the session sees the upsert as a unit, or is refused and sees no change |
| Repository.PostgresHierarchyRepository.DeleteNodes | python-server/app/lib/repositories/postgres_hierarchy.py:153-162 | the session sees the delete with its cascade, or is refused and sees no change |
| Repository.PostgresHierarchyRepository.ReplaceClosure | python-server/app/lib/repositories/postgres_hierarchy.py:164-178 | two statements: the rows of the given descendants go, then the new ones come or are refused |
| Repository.PostgresHierarchyRepository.Commit | python-server/app/lib/repositories/postgres_hierarchy.py:180-187 | what the session saw is committed and its lock is free |
| Repository.PostgresHierarchyRepository.Rollback | python-server/app/lib/database.py:26-29 | nothing uncommitted survives and the lock is free |
| Oracle.ClosureFromParentEdges | python-server/tests/hierarchy_fixtures.py:77-105 | the rebuild succeeds if and only if the parents are a reference-closed forest, and then gives exactly the walked rows; when its guard trips, the walk up from the stored node it names meets a cycle, and otherwise the id it names is not stored and is the parent of a stored node |
| Oracle.ComparisonDecides | python-server/tests/test_hierarchy_write_integration.py:37-60 | the stored rows equal the rebuilt ones if and only if the index is exact |
| Oracle.DepthsBounded | python-server/tests/hierarchy_fixtures.py:97-101 | every stored distance is below the number of stored nodes |
| Forest.ChainBounded | python-server/tests/hierarchy_fixtures.py:100-101 | a chain of parents in a forest is shorter than the number of stored nodes |
| Forest.LongChainMeetsCycle | python-server/tests/hierarchy_fixtures.py:97-101 | a chain of stored nodes as long as the table has come round a cycle, whether or not every parent is stored |
| Forest.AncOnce | python-server/app/lib/repositories/postgres_hierarchy.py:85-100 | a node meets each ancestor at one distance only |
| Fixtures.SubtreeRowsOf | python-server/tests/hierarchy_fixtures.py:39-57 | the level walk lists the breadth-first rows with the root's stated parent |
| Fixtures.ReadIsListing | python-server/tests/hierarchy_fixtures.py:39-44 | right after an accepted post the read of the root is exactly that list, in that order |
| Fixtures.NestedClosureRows | python-server/tests/hierarchy_fixtures.py:60-74 | the stack walk emits each nested node's chain rows, with multiplicities |
| Fixtures.DerivationsAgree | python-server/tests/test_hierarchy_write.py:143-149 | the stack walk and the one-pass rows are the same set |

## Left out

- HTTP routes, request parsing and status codes: a rejection is a result value here.
- Wording of the error messages; only the id they name is kept.
- BIGINT and INTEGER bounds on ids and depths: integers are unbounded, with the usual order.
- SQL text, query plans, the driver, connection pooling and the event loop: a statement is its relational meaning.
- Which constraint is reported when one statement breaks several: a fixed order is used. No accepted post meets any.
- Statements built from empty row lists: the service never builds one, since a payload has at least its root.
- The wait for the lock: taking it is a step enabled when it is free, and in the sequential classes what the sessions ahead leave is a parameter.
- Time-outs, crashes and dropped connections: all of them are the one step that abandons a request.
- Fairness: a lock holder is never stuck, but nothing is said about which waiting writer gets the lock next, or when.
- The type column in `closure_from_parent_edges`: the rebuild reads the parents out of the nodes table and ignores types.
- Service.HierarchyService.WriteRows: the middle of `store_hierarchy`, and what follows its check (`WriteAndCommit`), stand in methods of their own, in the same order of statements.
- Assemble.AssembleTree: what it builds when a read repeats an id is not described; `Reading.ReadDistinct` shows that no read does.
- Closure.ClosureRows: what it emits for rows that are not a flattened payload is not described, only when it fails.
- Migrations as programs, configuration, and the Go server.
