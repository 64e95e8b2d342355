# composable-indexes: a verified model of the incremental index engine

The library keeps a `Collection` of items and any number of registered indexes.
Every mutation becomes an update (ADD, UPDATE or DELETE) that is sent to each
index in two phases: `_onUpdate` prepares and may throw, and the hook it returns
commits. Indexes are trees: hash, unique, B-tree and fold leaves under `premap`,
`group` and `zip`, which rewrite the update stream on its way down.

The project proves that every such tree, after every run in which nothing throws,
is the plain denotation of its description over the current store; which updates
every index inside a tree is sent; exactly which updates throw, in which phase, what
a throw leaves behind, and exactly when the indexes survive it; and what follows for
queries, late registration, `alter`, replayed and permuted call lists.

There are two levels. Indexes and collections as values, with a throw as a result
that carries the state left behind, bear the theorems. Classes with the library's
own objects (nested maps, id sets, buckets, groups, the collection) are proved to
do to their objects exactly what the value level says.

| file | holds |
|---|---|
| `Updates.dfy` | ids, updates, the protocol, rewriting of updates and streams |
| `Folds.dfy`, `Leaves.dfy`, `Aggregates.dfy` | folds and groups, buckets and unique keys, fused aggregate chains |
| `Trees.dfy`, `TreeProofs.dfy`, `Acceptance.dfy`, `Denotation.dfy` | index trees, one update through a tree, what is accepted, what can be asked |
| `Engine.dfy`, `Histories.dfy`, `Streams.dfy`, `Relays.dfy` | the collection as a state machine, whole runs and ids, the updates a run sends, what each index inside a tree is sent |
| `Equivalences.dfy`, `Permutations.dfy`, `Survival.dfy`, `Divergence.dfy` | histories with equal outcomes, runs with exceptions |
| `IdMaps.dfy`, `Bucketing.dfy`, `HashIndexes.dfy`, `SmallIndexes.dfy`, `BTreeIndexes.dfy`, `Indexes.dfy`, `Collections.dfy`, `Queries.dfy` | the objects |

Modelling decisions. All input types of one tree (items, keys, group names) share a
universe `V`, and all fold states a universe `S`, because `premap` changes the type
between a node and its child. User callbacks are total pure functions; `undefined`
is `None`. A thrown `ConflictException` is `Conflict`; a dereference of an absent
bucket or group, which the code does with `!`, is `TypeError`, and is proved not to
happen as long as the indexes stand for the store. A hook is the datum it captures: the update and where it goes. The order in
which a map is enumerated is arbitrary. Ids are unsigned 64-bit numbers and the
counter wraps around. `alter` and `adjust` consult a predicate `truthy`. An index is
abstracted up to groups that are empty, since preparing an ADD or a move creates
the group before anything else is known to succeed.

Where code and documentation differ, the code is modelled: `alter` and `adjust`
(truthiness, not presence), `range` (the limit caps keys, not items), `set` on a
unique key that does not change (refused), and ids at the end of their range (the
counter wraps around). Each has a concrete case (`AlterKeepsFalsyItem`,
`AdjustDropsItem`, `LimitExceeded`, `SetSameKeyThrows`, `WrapOverwrites` and
`WrappedAddOverwrites`) and the exact condition under which the promised behaviour
holds (`AlterStoreIff`, `AdjustStoreIff`, `LimitHoldsIff`, `SetReturnsIff`,
`AddLegalIff`). `algebraicGroupIndex` is documented for any group, and
`LawfulIffCommutative` says which groups give a result independent of order.

The store is written before the indexes are asked and is not rolled back, so the
main invariant is about runs in which nothing throws. For callers that catch
exceptions, `GoodIff` says exactly when it survives, and `ThrowThenDeleteLosesKey`
what can follow when it does not.

## Model

| member | source | states |
|---|---|---|
| Engine.RunCorrect | core/src/core/Collection.ts:40-205 | in every run (each add stepping to a free id) of registerIndex, add, set, delete, alter and adjust in which nothing throws, every registered tree of hash, unique, B-tree and lawful-fold leaves under premap, group and zip is the denotation of its spec over the current store |
| Histories.RunAnswers | core/src/core/Collection.ts:40-205 | after such a run a lookup in any hash, B-tree or unique index, at any depth of any registered tree, finds exactly the stored items filed there under the key, so every id returned is in the store |
| Histories.RunFolds | core/src/core/Collection.ts:40-205 | after such a run the value of every fold, with any result function, is the result for the fold of the values that reach it, along any order of their ids; there is none exactly when a group on the path was never made |
| Streams.StepIsFeed | core/src/core/Collection.ts:40-205 | in every state, good or not, and whatever throws, an operation (alter and adjust included) leaves the store and the indexes, and ends, exactly as handing propagateUpdate its list of updates one after the other does; registerIndex is one replay |
| Streams.RunIsFeed | core/src/core/Collection.ts:40-205 | so does a whole run with its trace: nothing else reaches the store and the indexes |
| Streams.EmitsCorrect | core/src/core/Collection.ts:68-171 | on a good collection the updates one operation sends are legal in turn and lead from the old store to the new, even when an index throws |
| Streams.TraceCorrect | core/src/core/Collection.ts:68-205 | over whole runs, which are the feeding of their trace, ADD names only absent ids, UPDATE and DELETE carry the true old value, and the trace rebuilds the store |
| Relays.ProtocolAt | core/src/core/Index.ts:125-223 | in a returning run the index at any path of any registered tree runs, from its earlier state or a fresh one, exactly the trace rewritten along the path; that stream is legal for the items that passed the path before and leads to those that pass it afterwards; a group that is not there was sent nothing |
| Relays.PathRelays | core/src/core/Index.ts:125-223 | the same for any tree and any updates that do not throw, legal or not |
| Relays.GroupRelays | core/src/core/Index.ts:165-223 | group k of a group index runs exactly the stream rewritten by the filter for k, moves included, from the index it had or a fresh one; a group that is not there was sent nothing |
| Relays.PremapRelays | core/src/core/Index.ts:125-132 | the index behind a premap runs exactly the stream rewritten by its function |
| Relays.ZipRelays | core/src/indexes/ZipIndex.ts:12-19 | each index under a zip runs the whole stream |
| Histories.IdsAreFresh | core/src/core/Collection.ts:111-114 | across every interleaving of calls, throwing or not, the counter never decreases and the next add stores under an id above every id the store has ever held |
| Histories.AddLegalIff | core/src/core/Collection.ts:68-79 | in every state, wrapped counter or not: the ADD that add emits is legal, and the store gains an item and keeps the others, iff the id the counter steps to is free |
| Histories.UnwrappedAddLegalIff | core/src/core/Collection.ts:191-194 | after any calls in which the counter has not wrapped around, that means: the counter is not at 2^64 - 1 or id 0 is free |
| Histories.WrapOverwrites | core/src/core/Collection.ts:191-194 | a concrete run in which the wrapped counter overwrites the stored item 0 |
| Histories.WrappedAddOverwrites | core/src/core/Collection.ts:191-194 | a run in which nothing throws and every ADD is legal, after which the counter is at 0 and the next add overwrites item 1 |
| Engine.StepCorrect | core/src/core/Collection.ts:40-171 | each operation that returns keeps every registered index the denotation over the new store |
| Engine.AddCorrect | core/src/core/Collection.ts:68-79 | if the next id is free, add writes the store under it, emits a legal ADD, returns iff every index accepts, and then keeps the invariant |
| Engine.SetCorrect | core/src/core/Collection.ts:111-134 | set emits ADD or UPDATE with the true old value, raises the counter to the id, and returns iff every index accepts |
| Engine.DeleteCorrect | core/src/core/Collection.ts:88-103 | delete never throws on a good collection and leaves the store without the id |
| Engine.AlterCorrect | core/src/core/Collection.ts:148-161 | the store alter leaves, decided by truthiness of the old and the new value, and the counter, raised to the id only if a value is stored under a greater id, whether or not it throws |
| Engine.CounterAfter | core/src/core/Collection.ts:68-205 | the counter after every call in every state, whatever throws |
| Engine.AddAfterAlter | core/src/core/Collection.ts:148-161 | so the next add after an alter stores under the id after the greater of the counter and, if a value was stored, the altered id |
| Engine.AddAfterAdjust | core/src/core/Collection.ts:169-171 | the same after adjust |
| Engine.RegisterCorrect | core/src/core/Collection.ts:40-52 | registerIndex throws iff the store is not indexable by the spec, and then leaves store, counter and registered list unchanged; otherwise the new index stands for the store |
| Engine.ReplayCorrect | core/src/core/Collection.ts:43-49 | replaying the store as ADDs in any duplicate-free order succeeds iff the items are indexable, and the result does not depend on the order |
| Engine.PropagateCorrect | core/src/core/Collection.ts:196-205 | propagation returns iff every index accepts the update; a refused prepare leaves all indexes standing for the old items; otherwise the list is torn at one index; the only exception is the conflict, never a missing bucket or group |
| Engine.AllOrNothing | core/src/core/Collection.ts:196-205 | propagation returns iff no index refuses to prepare and the updated items are indexable; a commit hook throws iff no index refuses to prepare and the updated items are not indexable; in every other case all indexes get the update or none does, while the store keeps what was written |
| Engine.AskedInOrder | core/src/core/Collection.ts:196-201 | the indexes are asked in order of registration, and none after the first that refuses: the later ones are untouched, the others have only prepared |
| Engine.AddReturnsIff | core/src/core/Collection.ts:68-79 | add returns iff the new store is indexable |
| Acceptance.AcceptedIff | core/src/core/Index.ts:125-132 | an update goes through both phases without a throw iff the updated items are indexable and no unique index is handed an UPDATE that keeps its key |
| Acceptance.MoveAcceptedIff | core/src/core/Index.ts:194-216 | the same for an item that changes group, where the new group is asked only in the commit hook |
| Acceptance.UniqueAccepts | core/src/indexes/UniqueHashIndex.ts:34-42 | the unique index accepts iff keys stay injective and an UPDATE changes the key |
| Acceptance.CommitRefusesIff | core/src/core/Index.ts:194-216 | once nothing refuses to prepare, a hook of the tree throws iff the updated items are not indexable |
| Acceptance.NoUniqueNeverThrows | core/src/indexes/UniqueHashIndex.ts:34-42 | trees without a unique index never throw |
| Acceptance.TornIsDeleted | core/src/core/Index.ts:203-214 | a commit that throws in a tree without zip leaves exactly the state of a deletion of the item |
| TreeProofs.UpdateCorrect | core/src/core/Index.ts:125-223 | for every tree: preparing only adds empty groups and throws exactly when a unique index that is asked holds the key; committing throws exactly when a move is refused; otherwise the tree stands for the updated items; lookups of groups and buckets never fail |
| TreeProofs.LeafBehaves | core/src/indexes/HashIndex.ts:25-61 | the same for the four kinds of leaves |
| TreeProofs.PremapBehaves | core/src/core/Index.ts:125-132 | the same through a premap, given the inner index |
| TreeProofs.GroupBehavesIn | core/src/core/Index.ts:186-200 | the same for updates inside one group |
| TreeProofs.MoveBehaves | core/src/core/Index.ts:200-215 | the same for changes of group: a throw leaves the item out of both groups |
| TreeProofs.ZipBehaves | core/src/indexes/ZipIndex.ts:12-19 | the same for the nested two-phase fan-out |
| TreeProofs.AddDeleteCommit | core/src/core/Index.ts:186-222 | ADD and DELETE never throw while committing, and DELETE never throws at all |
| TreeProofs.GrowsRepresents | core/src/core/Index.ts:177-184 | creating empty groups does not change what an index stands for |
| TreeProofs.PartMove | core/src/core/Index.ts:200-215 | a change of group is a legal DELETE for the old group, a legal ADD for the new one and nothing for the others |
| Denotation.DenotationCharacterised | core/src/core/Index.ts:66-97 | standing for the items is being the history-free denotation over indexable items, up to empty groups |
| Denotation.ReachRepresents | core/src/core/Index.ts:134-136 | the index reached by a chain of get calls stands for exactly the items that pass along the chain; a missing group means none does |
| Denotation.ReachNoneIff | core/src/core/Index.ts:225-227 | on a path that follows the tree a chain of get calls ends in undefined exactly when it asks for a group that was never made |
| Denotation.ReachOne | core/src/core/Index.ts:134-136 | one get call: the inner index of a premap, the group if it was made, the child of a zip at its position |
| Denotation.ReachConcat | core/src/core/Index.ts:134-136 | a longer chain goes on from where a shorter one ends |
| Relays.GroupExistsIff | core/src/core/Index.ts:177-192 | after updates that do not throw, a group anywhere in a tree is there iff it was before or the updates rewritten along the path to it leave something |
| Relays.GroupsOverRuns | core/src/core/Collection.ts:68-205 | the same over every returning run, from any state |
| Relays.FreshGroupsIff | core/src/core/Collection.ts:40-52 | from its registration on an index has exactly the groups for which the replayed ADDs and the trace since, rewritten along the path, leave something |
| Relays.PrepareMakes | core/src/core/Index.ts:177-207 | in every state, preparing makes the group of the new value of an ADD or a move, whatever follows, and no other |
| Relays.CommitMakesNone | core/src/core/Index.ts:203-214 | hooks make no groups |
| Relays.MoveFromMissing | core/src/core/Index.ts:201-214 | a move out of a group that is not there prepares, makes the new group, and throws in the hook |
| Denotation.EqIsFiled | core/src/indexes/HashIndex.ts:68-70 | eq anywhere in a tree answers exactly the items filed under the key |
| Denotation.FoldAtIsFold | core/src/indexes/FoldIndex.ts:67-69 | value() of a fold anywhere in a tree is its result function at the fold of the items that reach it; there is none exactly when a group on the path was never made |
| Denotation.DistinctIsValues | core/src/indexes/HashIndex.ts:64-66 | countDistinct anywhere in a tree is the number of distinct keys of the items that reach it |
| Denotation.GroupsPartition | core/src/core/Index.ts:145-192 | the groups' contents are pairwise disjoint, are together the whole input, and each holds exactly the items mapping to it |
| Updates.FilterMapSquare | core/src/core/Update.ts:61-115 | commuting square: filter-mapping the updated map is applying the rewritten update to the filter-mapped map, and the rewritten update is legal there |
| Updates.MapUpdateIsTotalFilterMap | core/src/core/Update.ts:31-58 | mapUpdate is filterMapUpdate at a total function |
| Updates.RewriteStreamCorrect | core/src/core/Update.ts:61-115 | rewriting a legal stream by a partial function gives a legal stream for the filter-mapped contents, and builds them (that the inner indexes run this stream: Relays.PathRelays) |
| Folds.FoldStepCorrect | core/src/indexes/FoldIndex.ts:53-65 | one commit of a lawful fold keeps the state equal to the fold of the contents |
| Folds.FoldStreamCorrect | core/src/indexes/FoldIndex.ts:53-65 | so after every legal stream |
| Folds.FoldAnyOrder | core/src/indexes/FoldIndex.ts:87-108 | every enumeration order of the contents gives the same fold |
| Folds.AbelianIsLawful | core/src/indexes/FoldIndex.ts:94-108 | the fold built from any abelian group is lawful |
| Folds.LawfulIffCommutative | core/src/indexes/FoldIndex.ts:87-108 | the documentation asks for a group: the fold of a group is independent of order iff the group is commutative |
| Folds.GroupUndoesLast | core/src/indexes/FoldIndex.ts:94-108 | in any group delete and update undo the value added last |
| Folds.OneCallEach | core/src/indexes/FoldIndex.ts:53-65 | lawful or not, a fold is called once for each update, with add, update or delete as the update says and with its values |
| Relays.FoldRuns | core/src/indexes/FoldIndex.ts:53-65 | a fold index runs its fold over the stream it is sent |
| Folds.SumIsFold | core/src/indexes/FoldIndex.ts:115-122 | sumIndex keeps the sum of the current values |
| Folds.CountIsSize | core/src/indexes/FoldIndex.ts:146-154 | countIndex keeps the number of current values |
| Folds.MeanIsSumOverCount | core/src/indexes/FoldIndex.ts:129-139 | arithmeticMeanIndex keeps the sum and the number of current values |
| Folds.MeanValue | core/src/indexes/FoldIndex.ts:137-137 | on a non-empty collection its result is sum over count |
| Aggregates.FusedPremapOne | core/src/indexes/AggregateIndex.ts:69-92 | a fused premap is applied to whatever it is given, undefined included; a fused map leaves the premap alone |
| Aggregates.FusedPremapConcat | core/src/indexes/AggregateIndex.ts:80-92 | fusing one chain after another composes the premaps with no check between them |
| Aggregates.FusedMapConcat | core/src/indexes/AggregateIndex.ts:69-78 | fusing one chain after another composes the maps in the order of the calls |
| Aggregates.FusedIsComposed | core/src/indexes/AggregateIndex.ts:80-92 | the fused premap of a chain is the plain composition of its premaps |
| Aggregates.FusionCorrectIff | core/src/indexes/AggregateIndex.ts:13-93 | for every stream the fused index receives what one wrapper per call would, iff no value leaks: iff on no value a premap is the first to yield undefined, coming from outside, while the plain composition of the premaps below it turns undefined into a value |
| Aggregates.FusedIffNoLeak | core/src/indexes/AggregateIndex.ts:69-92 | the same for one value |
| Aggregates.TotalPremapsDoNotLeak | core/src/indexes/AggregateIndex.ts:80-91 | chains whose premaps after the first are total never leak |
| Aggregates.FusedValue | core/src/indexes/AggregateIndex.ts:50-52 | when nothing leaks, value() of the fused and of the nested index agree after every stream over any fold |
| Aggregates.LeakExample | core/src/indexes/AggregateIndex.ts:80-91 | a chain in which a value dropped by the outer premap is counted by the fused index |
| Leaves.BucketCommitCorrect | core/src/indexes/HashIndex.ts:39-61 | on legal updates hash and B-tree commits both give the buckets of the updated contents; the hash index never meets a missing bucket |
| Leaves.BucketsAgree | core/src/indexes/BTreeIndex.ts:43-66 | fed the same legal stream, hash and B-tree hold equal buckets, one per distinct value present |
| Leaves.HashIsBTreeIff | core/src/indexes/BTreeIndex.ts:43-66 | in any state the two commits do the same iff the old bucket is there and, when the key stays, the id is in it |
| Leaves.UniqueCommitCorrect | core/src/indexes/UniqueHashIndex.ts:57-68 | the unique index's map stays exactly the inverse of the id-to-key assignment |
| Leaves.InverseKeys | core/src/indexes/UniqueHashIndex.ts:71-78 | being the inverse makes keys injective and the held keys exactly the keys present |
| Equivalences.LateEqualsEarly | core/src/core/Collection.ts:40-52 | registering late, in any replay order, a spec already registered does not throw and gives the early index up to empty groups |
| Equivalences.SameIndexSameEq | core/src/core/Collection.ts:40-52 | indexes equal up to empty groups answer every lookup alike |
| Equivalences.DeleteAddAgainstUpdate | core/src/core/Collection.ts:148-161 | DELETE then ADD goes through iff the new items are indexable, UPDATE only if in addition no unique key stays; when both do they leave the same index |
| Equivalences.AlterStoreIff | core/src/core/Collection.ts:136-161 | alter leaves the documented store iff the new value is truthy or equals the old, or there is no new value and the old, if any, is truthy |
| Equivalences.AdjustStoreIff | core/src/core/Collection.ts:163-171 | adjust leaves the documented store iff the item is absent, or old and new values are truthy, or a falsy value is mapped to itself |
| Divergence.AlterKeepsFalsyItem | core/src/core/Collection.ts:136-161 | an alter to nothing that leaves its item in place |
| Divergence.AdjustDropsItem | core/src/core/Collection.ts:163-171 | an adjust to a falsy value that deletes its item |
| Equivalences.AlterIsSetOrDelete | core/src/core/Collection.ts:148-171 | with truthy values alter leaves the store and indexes of a direct set or delete, and returns wherever that returns |
| Equivalences.AlterReturnsIff | core/src/core/Collection.ts:148-161 | alter returns iff it stores nothing, or the new store is indexable and, when a falsy value is replaced (which is not deleted first), no unique key would be kept |
| Equivalences.SetReturnsIff | core/src/core/Collection.ts:111-134 | set returns iff the new store is indexable and no unique key would be kept |
| Equivalences.ReplayIdempotent | core/src/test_util/invariants.ts:38-63 | playing a set/delete list twice gives the store and the indexes of playing it once |
| Equivalences.SetsAndDeletesReturn | core/src/test_util/invariants.ts:38-63 | without unique indexes no such list throws |
| Permutations.AddsCommute | core/src/test_util/invariants.ts:15-36 | permuting an add-only list: both orders throw or neither does, and both stores hold the same multiset of values |
| Permutations.AddsReturnIff | core/src/core/Collection.ts:68-79 | an add-only list goes through iff the store it builds is indexable |
| Permutations.FoldByValues | core/src/indexes/FoldIndex.ts:94-108 | a lawful fold depends only on the multiset of values |
| Permutations.FoldAtByValues | core/src/test_util/invariants.ts:15-36 | so does every fold in a tree |
| Permutations.EqCountByValues | core/src/test_util/invariants.ts:15-36 | so does the number of items any lookup finds |
| Permutations.DistinctByValues | core/src/test_util/invariants.ts:15-36 | so does countDistinct of any index in a tree |
| Permutations.ConsistentByValues | core/src/indexes/UniqueHashIndex.ts:34-42 | so does being indexable |
| Survival.GoodIff | core/src/core/Collection.ts:68-205 | after an operation the indexes still stand for the store iff it returned, or no index sees a difference between the items it was told of and the store that was written, and the groups of the latter are there |
| Survival.GroupFreeGoodIff | core/src/core/Collection.ts:68-205 | without group indexes: iff it returned or no index sees a difference |
| Survival.WholeValuesGoodIff | core/src/core/Collection.ts:68-205 | with an index that sees items as they are: iff it returned or nothing was written |
| Survival.AddGoodIff | core/src/core/Collection.ts:68-79 | for add: iff it returned |
| Survival.SetSameKeeps | core/src/core/Collection.ts:111-134 | set of the value an item already has keeps the invariant even when it throws |
| Survival.RepresentsBothIff | core/src/core/Index.ts:66-97 | a state that stands for some items stands for others iff the index sees no difference and has made the groups of the others |
| Divergence.ThrowThenDeleteLosesKey | core/src/core/Collection.ts:71-103 | whatever trees are registered: adding a value some item has, which a unique index at any path sees, throws; deleting the refused id then returns, restores the store, and takes the key of the other item out of the unique index, after which the duplicate can be added |
| Divergence.ThrowThenSetLosesKey | core/src/indexes/UniqueHashIndex.ts:57-62 | a refused duplicate then given another value: that returns, and the unique index drops the key of the item that still has it |
| Divergence.HashThrowsBTreeDoesNot | core/src/indexes/HashIndex.ts:49-53 | a refused item whose value no other item has, deleted again: a hash index throws on the missing bucket with the item out of the store, a B-tree does not, and the unique key is gone either way |
| Divergence.SecondIndexDiverges | core/src/core/Collection.ts:111-134 | a refused set that keeps a unique field leaves that index right and a hash index of whole values wrong |
| Divergence.SetSameKeyThrows | core/src/indexes/UniqueHashIndex.ts:37-42 | setting an item to the value it has is refused by a unique index |
| Divergence.TornMove | core/src/core/Index.ts:203-214 | a move refused by its new group leaves the index without an item the store holds |
| IdMaps.SplitJoin | core/src/util/IdMap.ts:46-53 | splitting an id into halves and rejoining them are inverses |
| IdMaps.RunRefines | core/src/util/IdMap.ts:15-34 | under every sequence of sets and deletes the map of maps refines a flat map and no inner map is empty |
| IdMaps.RefinesUnique | core/src/util/IdMap.ts:4-13 | the nested map determines the flat one |
| IdMaps.RefinesEmpty | core/src/util/IdMap.ts:36-38 | the outer map is empty iff there is no entry |
| IdMaps.IdMap.Get | core/src/util/IdMap.ts:7-13 | get agrees with the flat map, including absent keys |
| IdMaps.IdMap.Set | core/src/util/IdMap.ts:15-22 | set updates the flat map at one key and keeps the representation invariant |
| IdMaps.IdMap.Delete | core/src/util/IdMap.ts:24-34 | delete removes one key and drops an emptied inner map |
| IdMaps.IdMap.Empty | core/src/util/IdMap.ts:36-38 | empty holds exactly when there are no entries |
| IdMaps.IdMap.Entries | core/src/util/IdMap.ts:46-53 | each entry exactly once |
| IdMaps.IdSet.Set | core/src/util/IdMap.ts:65-67 | adds one id |
| IdMaps.IdSet.Delete | core/src/util/IdMap.ts:69-71 | removes one id |
| IdMaps.IdSet.Has | core/src/util/IdMap.ts:73-75 | membership |
| IdMaps.IdSet.Values | core/src/util/IdMap.ts:85-89 | each id exactly once |
| Bucketing.Buckets.Add | core/src/indexes/HashIndex.ts:39-48 | adding an id to a bucket, made if missing, changes no other bucket |
| Bucketing.Buckets.Remove | core/src/indexes/HashIndex.ts:55-61 | removal drops an emptied bucket and reports a missing one |
| Bucketing.Buckets.Items | core/src/indexes/HashIndex.ts:73-82 | the items of a bucket, each once, and each with the value stored under its own id |
| HashIndexes.HashIndex.Run | core/src/indexes/HashIndex.ts:25-61 | the commit hook on the objects does what the value-level commit does, or fails untouched on a missing bucket |
| HashIndexes.HashIndex.CountDistinct | core/src/indexes/HashIndex.ts:64-66 | the number of buckets |
| HashIndexes.HashIndex.Eq | core/src/indexes/HashIndex.ts:68-70 | the bucket's items, each once, and each with the value stored under its own id |
| SmallIndexes.UniqueHashIndex.Check | core/src/indexes/UniqueHashIndex.ts:34-42 | the prepare phase throws exactly when the added or new key is held, by any id |
| SmallIndexes.UniqueHashIndex.Run | core/src/indexes/UniqueHashIndex.ts:44-68 | the commit hook does what the value-level commit does |
| SmallIndexes.UniqueHashIndex.CountDistinct | core/src/indexes/UniqueHashIndex.ts:71-73 | the size of the map, which is the number of items whenever the map is their inverse |
| SmallIndexes.UniqueHashIndex.Eq | core/src/indexes/UniqueHashIndex.ts:75-78 | the one item with the key and the value stored under its id, or nothing |
| SmallIndexes.FoldIndex.Run | core/src/indexes/FoldIndex.ts:53-65 | the commit hook applies add, update or delete to the state |
| BTreeIndexes.BTreeIndex.Run | core/src/indexes/BTreeIndex.ts:29-66 | the commit hook keeps the keys sorted and does what the value-level commit does |
| BTreeIndexes.BTreeIndex.CountDistinct | core/src/indexes/BTreeIndex.ts:73-75 | the number of distinct keys |
| BTreeIndexes.BTreeIndex.Eq | core/src/indexes/BTreeIndex.ts:80-82 | the bucket's items, each once, and each with the value stored under its own id |
| BTreeIndexes.BTreeIndex.Max | core/src/indexes/BTreeIndex.ts:90-94 | exactly the items whose key no other key exceeds, with their stored values |
| BTreeIndexes.BTreeIndex.Min | core/src/indexes/BTreeIndex.ts:102-106 | exactly the items whose key exceeds no other, with their stored values |
| BTreeIndexes.BTreeIndex.Max1 | core/src/indexes/BTreeIndex.ts:111-118 | an item with the greatest key, and its stored value, whenever there is an item |
| BTreeIndexes.BTreeIndex.Min1 | core/src/indexes/BTreeIndex.ts:123-130 | an item with the least key, and its stored value, whenever there is an item |
| BTreeIndexes.BTreeIndex.Range | core/src/indexes/BTreeIndex.ts:132-150 | each item whose key is neither below minValue nor above maxValue, both ends included, once, keys never decreasing, with the stored values; under a limit everything left out has a greater key than everything listed, and the documented bound of limit items holds iff all items of the interval fit anyway or each of the limit lowest distinct keys in it is held by one item only |
| BTreeIndexes.RangeOfOneKey | core/src/indexes/BTreeIndex.ts:80-150 | a range from a key to itself is eq of the key |
| BTreeIndexes.LimitTakesLowest | core/src/indexes/BTreeIndex.ts:138-150 | a limit admits that many distinct keys, or all there are, and the lowest |
| BTreeIndexes.LimitHoldsIff | core/src/indexes/BTreeIndex.ts:132-150 | the condition for the documented bound, on the items alone |
| BTreeIndexes.LimitExceeded | core/src/indexes/BTreeIndex.ts:138-150 | a B-tree index with two items under one key, whose range with a limit of one returns both |
| Indexes.NewIndex | core/src/core/Index.ts:27-35 | registering builds disjoint fresh objects in the state of a fresh index |
| Indexes.Index.OnUpdate | core/src/core/Index.ts:14-14 | _onUpdate of any index object does to its objects, and answers, what the value-level prepare says |
| Indexes.Index.Commit | core/src/core/Index.ts:14-14 | running the hook does what the value-level commit says, the partial effects of a throw included |
| Indexes.Index.OnUpdatePremap | core/src/core/Index.ts:125-132 | the same for PremapIndex |
| Indexes.Index.GetOrCreateGroup | core/src/core/Index.ts:177-184 | a missing group gets a fresh index; all other groups are untouched |
| Indexes.Index.OnUpdateGroup | core/src/core/Index.ts:165-223 | the same for GroupedIndex, with the deferred move |
| Indexes.Index.CommitGroup | core/src/core/Index.ts:203-214 | the group's hooks, including DELETE then ADD of a move |
| Indexes.Index.OnUpdateZip | core/src/indexes/ZipIndex.ts:12-19 | the same for ZipIndex |
| Indexes.Index.CommitZip | core/src/indexes/ZipIndex.ts:14-18 | the zip's hook runs the children's hooks in order |
| Indexes.PrepareEach | core/src/core/Collection.ts:197-201 | the loop of prepares: the first throw leaves the later indexes unasked and the earlier ones only with empty groups |
| Indexes.CommitEach | core/src/core/Collection.ts:202-204 | the loop of hooks: the first throw leaves the later hooks unrun |
| Collections.Collection.Propagate | core/src/core/Collection.ts:196-205 | the collection object's driver follows the state machine, exceptions included |
| Collections.Collection.Add | core/src/core/Collection.ts:68-79 | add on the object follows the state machine and returns the next id |
| Collections.Collection.Delete | core/src/core/Collection.ts:88-103 | delete follows the state machine and returns the old value |
| Collections.Collection.Set | core/src/core/Collection.ts:111-134 | set follows the state machine |
| Collections.Collection.Alter | core/src/core/Collection.ts:148-161 | alter follows the state machine, and returns the second component of what the callback makes of the old value unless it throws |
| Collections.Collection.Adjust | core/src/core/Collection.ts:169-171 | adjust follows the state machine |
| Collections.Collection.ToList | core/src/core/Collection.ts:183-189 | each stored item once |
| Collections.Collection.Get | core/src/core/Collection.ts:57-59 | the stored value or nothing |
| Collections.Collection.RegisterIndex | core/src/core/Collection.ts:40-52 | replays the store in its own enumeration order and follows the state machine; a throw registers nothing |
| Collections.PlayCalls | core/src/test_util/call.ts:85-99 | a list of calls on the object follows a run, and keeps a good collection good |
| Queries.Walk | core/src/core/Index.ts:225-227 | walking get calls over the objects is reaching inside the state, and answers undefined exactly for a group never made or a path that does not follow the tree |
| Queries.LookUp | core/src/core/Index.ts:16-18 | eq on a live good collection, at any path, lists exactly the stored items filed under the key, each with the value stored under its own id; at the root that value is the key |
| Queries.RangeAt | core/src/indexes/BTreeIndex.ts:138-150 | range on a live good collection, at any path: the stored items whose key lies in the closed interval, each with its stored value, keys never decreasing |
| Queries.ReadValue | core/src/indexes/FoldIndex.ts:67-69 | value() of a fold on a live good collection, at any path, is its result function at the fold over the store of what reaches it, and undefined exactly when a group on the path was never made |
| Queries.CountDistinctAt | core/src/indexes/HashIndex.ts:64-66 | countDistinct on a live good collection, at any path, in terms of the store alone |
| Queries.MaxAt | core/src/indexes/BTreeIndex.ts:90-94 | max on a live good collection, at any path, in terms of the store alone, each item with its stored value |
| Queries.MinAt | core/src/indexes/BTreeIndex.ts:102-106 | the same for min |
| Queries.Max1At | core/src/indexes/BTreeIndex.ts:111-118 | the same for max1 |
| Queries.Min1At | core/src/indexes/BTreeIndex.ts:123-130 | the same for min1 |

## Left out

- The `sorted-btree` library: its sorted map is modelled by buckets with a sorted key list; tree nodes and balancing are not.
- `range` without a limit is unbounded here; the default cap of the sorted-map library is not modelled.
- The `long` library: ids are numbers below 2^64 with unsigned halves; signed ids and mixed signedness are not modelled.
- IEEE arithmetic, NaN (the mean of an empty collection) and -0: sums are exact reals and counts exact integers.
- Mixed string and number keys: one key type with one strict total order is assumed.
- Folds that break the fold laws: they are run on the objects, one call for each update, but the denotation theorems are about lawful folds, which include every abelian group and `countIndex`.
- Callbacks that throw or change stored values; a fold's result function is given where its value is read, not kept in the index.
- `ConflictException.existingValue` and message texts; a throw is an error value.
- Inheritance: an index object carries its kind and dispatch is a match, instead of subclasses; closures returned as hooks are data interpreted from the root of the tree.
- The inner maps of `IdMap` and the JavaScript `Map`s are values held in fields that methods reassign; the aliasing of id sets, groups and indexes is modelled on the heap.
- `zip3` to `zip5`, `create` wrappers, re-exports and type-level machinery: nothing to prove beyond the list of children.
- `forEach` on collections and id maps: only the enumeration it is built on.
