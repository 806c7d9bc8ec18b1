# A verified model of the concurrent union-find engine of ConcurrentSCC

ConcurrentSCC finds strongly connected components in parallel. Its
bookkeeping is one array of nodes, indexed by id. Each node carries five
fields:

- a union-find parent;
- a successor in a cyclic list of the members of its set;
- a union-find status (`UFlive`, `UFlock`, `UFdead`);
- a list status (`listLive`, `listLock`, `listTomb`);
- a 64-bit mask of the workers that have visited its component.

This project models that engine (`UF`), the node record (`UFNode`), the
edge value type (`Arc`), and the loop that turns the final union-find
state into the answer map. Each operation is one sequential step on an
immutable sequence of node records. The project proves what each step
does to the forest, the lists, the statuses and the masks.

Modules (one file each):

- `UFNodes` (nodes.dfy): the node record, the two status enums, the
  initial node, and the 64-worker limit of the mask.
- `Arcs` (arc.dfy): `Arc` with its final target, the traversed flag,
  `equals` and `hashCode` (32-bit wrap-around written out).
- `Forest` (forest.dfy): the state, its well-formedness, `find` with path
  compression, and `sameSet`.
  - Well-formed means every parent is 0 or a strictly larger id.
  - `Rep` is the representative found without compressing. It is the
    reference that `find`, `sameSet` and `unite` are proved against.
- `Claims` (claims.dfy): `lockUF`/`unlockUF`, `makeClaim`, `isDead`,
  `markDead`, and the worker-mask propagation that `makeClaim` and `unite`
  share.
- `Lists` (lists.dfy): `pickFromList`, `lockList`/`unlockList`, `inList`,
  `removeFromList`, and the O(1) splice used by `unite`.
  - Cycles read a successor of 0 as "the node itself".
  - The splice of two disjoint cycles is proved to be one cycle holding
    exactly the members of both.
- `Unite` (unite.dfy): `unite`, proved stage by stage:
  - the finds;
  - the lock on the smaller root;
  - the two list locks;
  - splice, link, mask merge and release.
- `ListInvariant` (invariant.dfy): the invariant tying lists to sets.
  - Every graph node's successor lies in the node's own set.
  - A written successor points at a node whose successor is written, so a
    walk from a graph node never steps onto the sentinel 0.
  - `Init` establishes it; the walk, `lockList`, `markDead`,
    `removeFromList` and `unite` keep it.
- `ListMembers` (members.dfy): the converse direction of the list invariant.
  - Every member of a set that is not a tombstone lies on the list of
    every member of that set.
  - `Init` establishes it, and every operation keeps it.
  - With it, a dead pick means that the whole set is tombstoned.
- `Results` (results.dfy): the result loop of `searchHelper`, proved to
  file graph indices `0..N-1` as a partition by union-find root.

How the model treats the source's concurrency:

- **Atomic fields are plain fields.** Every `@require: Atomicity` or CAS
  step is an ordinary update.
- **A spin that cannot end is a precondition or a result.**
  - `markDead` spins while the root is `UFlock`, so `MarkDead` requires
    `MarkDeadReady`.
  - `removeFromList` spins on `listLock`, so `RemoveFromList` requires
    that the slot is not locked.
  - Composite operations (`pickFromList`, `lockList`, `unite`) return a
    `Run`. It is `Done` with the value, `Spins(at)` naming the slot at
    which a sequential run would wait forever, or `Exhausted` when a list
    walk used up its rounds (see `Lists.Walk` under "## Left out").
- **Worker masks are sets.** The 64-bit mask is the set of the indices of
  its one bits, with worker ids below 64. Bitwise or is union and a bit
  test is membership. Java's masking of the shift count is shown on
  `bv64` separately (`WorkerBitAliasesBeyondWidth`).
- **Node 0 is the sentinel.** Graph index `i` is node `i + 1`.

**Link direction follows the code.** Some descriptions of this algorithm
make the larger-id root the child of the smaller-id root. The code does
the opposite: the smaller-id root `Q` is locked and made the child of the
larger-id root `R` (UF.java:89-96 and 137). The model follows the code, so
the well-formedness order (a parent is larger than its child) is kept by
`unite`.

**A self-deadlock in `unite`.** `unite` first locks the smaller root `Q`
(UF.java:98). Then it calls `lockList(a)`. If the list of `a` is a lone
tombstone, `pickFromList` calls `markDead(a)` (UF.java:187-191).
`markDead` then waits for `Q`'s status to leave `UFlock`, but `Q` is held
by the same call. `UniteWaitsOnItsOwnLock` proves that `unite` then never
returns. `UniteDeadlockExample` exhibits a three-slot state in which
`markDead` alone finishes but `unite(1, 2)` spins at node 1. Whether the
search ever reaches such a state depends on the workers, which are not
part of this model. The lone tombstone is only the smallest case.
`UniteWaitsOnDeadList` proves the general one. Take any list that
`pickFromList` alone would report dead, whatever its length. If its set's
root is the smaller, live root, then `unite` waits forever at that root.

## Model

Paths are relative to the repository root.

| member | source | states |
|---|---|---|
| UFNodes.Fresh | src/org/kuppe/graphs/tarjanUF/UFNode.java:77-83 | a new node is a union-find root (parent 0), a one-node list (successor 0), live in both statuses, with no worker |
| UFNodes.MaskHoldsAtMost64 | src/org/kuppe/graphs/tarjanUF/UFNode.java:12-15 | a worker mask can hold at most 64 workers |
| UFNodes.WorkerBitAliasesBeyondWidth | src/org/kuppe/graphs/tarjan/tarjanUF/UF.java:242 | `1L << w` gives worker 64 the bit of worker 0 and worker 65 that of worker 1, while workers below 64 all get distinct bits |
| Arcs.NewArc | src/org/kuppe/graphs/tarjan/Arc.java:31-37 | a new arc targets the given id and is not traversed |
| Arcs.SetTraversed | src/org/kuppe/graphs/tarjan/Arc.java:48-50 | after `setTraversed` the arc is traversed and its target is unchanged |
| Arcs.IsTraversed | src/org/kuppe/graphs/tarjan/Arc.java:42-44 | `isTraversed` is true exactly when marking the arc would leave it as it is |
| Arcs.GetTo | src/org/kuppe/graphs/tarjan/Arc.java:55-57 | `getTo` returns the one target for which the arc is the new arc to it, marked or not |
| Arcs.Equals | src/org/kuppe/graphs/tarjan/Arc.java:82-93 | two arcs are equal exactly when they become the same value once both are marked traversed, so the flag plays no part |
| Arcs.SetTraversedIdempotent | src/org/kuppe/graphs/tarjan/Arc.java:33-50 | marking twice equals marking once, and a marked arc is the new arc for its target with the flag set |
| Arcs.Replay | src/org/kuppe/graphs/tarjan/Arc.java:31-57 | after any sequence of reads and `setTraversed` calls the target is the original, and the flag is set exactly when it was set before or some step set it |
| Arcs.TraversedNeverResets | src/org/kuppe/graphs/tarjan/Arc.java:33-50 | starting from a new arc, the target is always the constructor's argument, and once traversed the arc stays traversed for every longer sequence of operations |
| Arcs.EqualsIgnoresTraversed | src/org/kuppe/graphs/tarjan/Arc.java:89-92 | arcs that differ only in the traversed flag are equal, though they are different values |
| Arcs.EqualsIsEquivalence | src/org/kuppe/graphs/tarjan/Arc.java:82-93 | equality of arcs is reflexive, symmetric and transitive |
| Arcs.HashCode | src/org/kuppe/graphs/tarjan/Arc.java:71-76 | the hash is `31 + to` reduced modulo 2^32 into the `int` range, which is `31 + to` itself whenever that sum fits |
| Arcs.EqualArcsHashEqually | src/org/kuppe/graphs/tarjan/Arc.java:71-93 | equal arcs have equal hashes |
| Arcs.HashCodeWrapsAtMaxInt | src/org/kuppe/graphs/tarjan/Arc.java:74 | the hash wraps in 32 bits: target 2147483647 hashes to -2147483618 |
| Forest.Init | src/org/kuppe/graphs/tarjan/tarjanUF/UF.java:28-30 | the engine over N graph nodes holds N + 1 fresh nodes, the first being the sentinel |
| Forest.InitIsForestOfSingletons | src/org/kuppe/graphs/tarjanUF/UFNode.java:79 | initially the state is well formed and every node is its own representative |
| Forest.Rep | src/org/kuppe/graphs/tarjan/tarjanUF/UF.java:34-42 | following parents from x ends at a root no smaller than x, and x is its own representative exactly when its parent is 0 |
| Forest.Find | src/org/kuppe/graphs/tarjan/tarjanUF/UF.java:34-48 | `find` returns the representative. Afterwards the state is well formed and the queried node's parent is 0 or that root. Every node keeps its representative, only parents change (each to the representative), and on a root nothing is written |
| Forest.RedirectKeepsAllReps | src/org/kuppe/graphs/tarjan/tarjanUF/UF.java:43-46 | pointing a non-root at its representative keeps the state well formed and every node's representative |
| Forest.SameSet | src/org/kuppe/graphs/tarjan/tarjanUF/UF.java:50-72 | `sameSet(a, b)` is true exactly when a and b have the same representative, for every a and not only roots; it only compresses paths |
| Claims.PropagateBits | src/org/kuppe/graphs/tarjan/tarjanUF/UF.java:255-264 | after adding workers to a node and following it up to its root, the root's mask holds them. Representatives are kept, and only parents (by compression) and masks (by those workers) change. On a root it is a single or into that root's mask |
| Claims.PropagateBitsOnlyGrows | src/org/kuppe/graphs/tarjan/tarjanUF/UF.java:145-149 | propagation never removes a worker from any mask |
| Claims.LockUF | src/org/kuppe/graphs/tarjan/tarjanUF/UF.java:295-311 | `lockUF` succeeds exactly on a live root and then holds its lock; on failure the state is as it was |
| Claims.UnlockUF | src/org/kuppe/graphs/tarjan/tarjanUF/UF.java:313-316 | after `unlockUF` the node is live and nothing else changes |
| Claims.UnlockUndoesLock | src/org/kuppe/graphs/tarjan/tarjanUF/UF.java:295-316 | unlocking after a successful lock restores the state before the lock |
| Claims.LockIsExclusive | src/org/kuppe/graphs/tarjan/tarjanUF/UF.java:295-311 | once a lock is held, a second `lockUF` on that node fails |
| Claims.MakeClaim | src/org/kuppe/graphs/tarjan/tarjanUF/UF.java:241-266 | the claim is dead exactly when the root is dead. It is found exactly when the root is not dead and already holds the worker. Otherwise the worker is added to the root's mask and no other mask changes. Representatives are kept, and without success only paths are compressed |
| Claims.ClaimThenFound | src/org/kuppe/graphs/tarjan/tarjanUF/UF.java:251-265 | after a successful claim, the same worker's claim through any member of the component is found |
| Claims.IsDead | src/org/kuppe/graphs/tarjan/tarjanUF/UF.java:270-274 | `isDead` is true exactly when the representative is dead; it only compresses paths |
| Claims.MarkDead | src/org/kuppe/graphs/tarjan/tarjanUF/UF.java:276-291 | `markDead` returns true exactly when the root was live. Afterwards the root is dead, no other status changes, and only parents change besides |
| Claims.MarkDeadOnce | src/org/kuppe/graphs/tarjan/tarjanUF/UF.java:276-291 | after one `markDead`, a second one through any member returns false and `isDead` reports the component dead |
| Lists.BypassReachesNothingNew | src/org/kuppe/graphs/tarjan/tarjanUF/UF.java:206-216 | after the walk shortens a successor past one node, every node reachable along successors was reachable before |
| Lists.Walk | src/org/kuppe/graphs/tarjan/tarjanUF/UF.java:168-218 | a finished walk leaves a well-formed state of the same size; a wait happens at an existing node |
| Lists.PickFromList | src/org/kuppe/graphs/tarjan/tarjanUF/UF.java:168-218 | a successful pick returns the first live node on the list from the start: every node passed before it is a tombstone. It changes only successors. A dead pick returns -1 after the whole list from the start (along successors, 0 read as the node itself) was found tombstoned, and it finalises the stopping node's component, whose root was not locked |
| Lists.WalkPicksLiveReachable | src/org/kuppe/graphs/tarjan/tarjanUF/UF.java:176-200 | a successful pick returns the first live node on the list from the start, every node passed before it being a tombstone. Only list successors change |
| Lists.WalkPicksFirstLive | src/org/kuppe/graphs/tarjan/tarjanUF/UF.java:176-217 | for a successful pick, gives the number of steps along the original successors from the start to the picked node, and every node before it on that path is a tombstone |
| Lists.WalkDeadOnlyAtSelfLoop | src/org/kuppe/graphs/tarjan/tarjanUF/UF.java:168-218 | a dead pick returns -1 at a reachable tombstone whose successor is itself or 0, and only after every node reached from the start along successors was a tombstone. That node's root was not locked and is now dead, and no other union-find status changes |
| Lists.WalkDeadStopsAtSelfLoop | src/org/kuppe/graphs/tarjan/tarjanUF/UF.java:187-192 | a dead pick stops at a tombstone reachable from the start whose successor is itself or 0 |
| Lists.WalkDeadListIsTomb | src/org/kuppe/graphs/tarjan/tarjanUF/UF.java:176-217 | a dead pick happens only when every node reached from the start along successors is a tombstone: the list has no live member |
| Lists.WalkDeadKillsStop | src/org/kuppe/graphs/tarjan/tarjanUF/UF.java:187-192 | a dead pick happens only when the stopping node's root is not locked. That root is then dead, and no other union-find status changes |
| Lists.WalkKeepsStatusesAndForest | src/org/kuppe/graphs/tarjan/tarjanUF/UF.java:168-218 | the walk changes no list status and no mask, and changes parents only by compression, keeping all representatives |
| Lists.WalkOnlyCompacts | src/org/kuppe/graphs/tarjan/tarjanUF/UF.java:206-216 | a successor changes only on a tombstone whose old successor was a tombstone, and only to a node reachable from it |
| Lists.WalkSpinsOnlyOnLocks | src/org/kuppe/graphs/tarjan/tarjanUF/UF.java:176-204 | the walk waits forever only at a reachable locked list slot or at a locked union-find root |
| Lists.WalkWaitsAtLockedRoot | src/org/kuppe/graphs/tarjan/tarjanUF/UF.java:187-191 | if a walk would end in a dead pick, then in any state with the same lists in which the stopping node's root is locked, the walk instead waits forever at that root |
| Lists.LockList | src/org/kuppe/graphs/tarjan/tarjanUF/UF.java:318-335 | `lockList` returns -1 or an id, and the node it returns is locked in the list |
| Lists.LockListFrame | src/org/kuppe/graphs/tarjan/tarjanUF/UF.java:318-335 | `lockList` moves one reachable node from live to locked and changes no union-find status. On -1 it changes no list status, and a union-find status only goes from live to dead. Representatives and masks are kept either way |
| Lists.LockListPicked | src/org/kuppe/graphs/tarjan/tarjanUF/UF.java:318-335 | a lock on a picked node: the node was live and reachable from the head, it alone goes from live to locked, and no union-find status changes |
| Lists.LockListDead | src/org/kuppe/graphs/tarjan/tarjanUF/UF.java:318-335 | on -1 no list status changes, and a union-find status changes only from live to dead |
| Lists.LockedNodeIsInList | src/org/kuppe/graphs/tarjan/tarjanUF/UF.java:163-166 | the node `lockList` returns is in the list (not tombstoned) before and after the lock |
| Lists.InList | src/org/kuppe/graphs/tarjan/tarjanUF/UF.java:163-166 | a node is in the list exactly when its slot is live or locked, that is, not tombstoned |
| Lists.UnlockList | src/org/kuppe/graphs/tarjan/tarjanUF/UF.java:337-340 | after `unlockList` the slot is live and nothing else changes |
| Lists.UnlockListUndoesLock | src/org/kuppe/graphs/tarjan/tarjanUF/UF.java:318-340 | on a live node `lockList` locks that very node, and unlocking restores the state |
| Lists.RemoveFromList | src/org/kuppe/graphs/tarjan/tarjanUF/UF.java:220-237 | removal returns true exactly when the node was in the list. Afterwards it is not, and only its list status changed |
| Lists.RemoveIdempotent | src/org/kuppe/graphs/tarjan/tarjanUF/UF.java:220-237 | a second removal returns false and changes nothing |
| Lists.Splice | src/org/kuppe/graphs/tarjan/tarjanUF/UF.java:119-134 | the two nodes exchange successors, a successor of 0 being read as the node itself. No other node and no representative changes |
| Lists.SpliceJoinsCycles | src/org/kuppe/graphs/tarjan/tarjanUF/UF.java:119-134 | splicing the first nodes of two disjoint cycles yields a single cycle whose members are exactly those of both |
| Lists.InitIsSingletonCycles | src/org/kuppe/graphs/tarjanUF/UFNode.java:80 | initially every graph node is a one-node cycle |
| Unite.Link | src/org/kuppe/graphs/tarjan/tarjanUF/UF.java:137 | making root q a child of the larger root r keeps the state well formed. Every node of q's set now resolves to r, and every other node keeps its representative |
| Unite.MergeWorkers | src/org/kuppe/graphs/tarjan/tarjanUF/UF.java:139-151 | the new root's mask becomes the union of both masks, whether or not the source's test skips the write; nothing else changes |
| Unite.Merge | src/org/kuppe/graphs/tarjan/tarjanUF/UF.java:119-156 | the merge step leaves a well-formed state of the same size |
| Unite.MergeReps | src/org/kuppe/graphs/tarjan/tarjanUF/UF.java:137 | after the merge step q's set has joined r's and no other node has moved |
| Unite.MergeMasks | src/org/kuppe/graphs/tarjan/tarjanUF/UF.java:139-151 | after the merge step r's mask is the union of both masks and no other mask changes |
| Unite.MergeStatuses | src/org/kuppe/graphs/tarjan/tarjanUF/UF.java:153-156 | after the merge step q and both list slots are live and no other status changes |
| Unite.MergeLists | src/org/kuppe/graphs/tarjan/tarjanUF/UF.java:119-134 | after the merge step the list successors are those of the splice |
| Unite.Unite | src/org/kuppe/graphs/tarjan/tarjanUF/UF.java:75-159 | every state `unite` returns is well formed (every parent above its child) and of the same size |
| Unite.LockedUnite | src/org/kuppe/graphs/tarjan/tarjanUF/UF.java:104-158 | the part of `unite` after the root lock returns only well-formed states |
| Unite.UniteNoOpIffSameSet | src/org/kuppe/graphs/tarjan/tarjanUF/UF.java:80-87 | `unite` returns with nothing merged exactly when both nodes have one root, and then it only compresses paths |
| Unite.UniteShape | src/org/kuppe/graphs/tarjan/tarjanUF/UF.java:89-102 | on different sets the smaller root is the one locked. If it is not live (held or dead), `unite` waits forever at it |
| Unite.UniteLinksSets | src/org/kuppe/graphs/tarjan/tarjanUF/UF.java:89-137 | after a merge both nodes resolve to the larger old root, every node of the smaller root's set follows, and no other node changes set |
| Unite.UniteLinksMasks | src/org/kuppe/graphs/tarjan/tarjanUF/UF.java:139-151 | after a merge the new root's mask is the union of both old roots' masks and no other mask changes |
| Unite.UniteLinksStatuses | src/org/kuppe/graphs/tarjan/tarjanUF/UF.java:153-156 | after a merge every union-find and list status is as before the call |
| Unite.UniteAbandons | src/org/kuppe/graphs/tarjan/tarjanUF/UF.java:104-117 | when a list is dead the union is abandoned: no set and no mask changes, and every lock taken is released. Only a root may have gone from live to dead |
| Unite.LockedUniteAbandons | src/org/kuppe/graphs/tarjan/tarjanUF/UF.java:104-117 | with the root lock held, abandoning at either list keeps all sets and masks and every list status. It releases the root lock, and other statuses only go from live to dead |
| Unite.AbandonedAtFirstList | src/org/kuppe/graphs/tarjan/tarjanUF/UF.java:104-108 | a dead first list releases the root lock and changes no set, mask or list status |
| Unite.AbandonedAtSecondList | src/org/kuppe/graphs/tarjan/tarjanUF/UF.java:110-116 | a dead second list unlocks the first list head and the root lock, so no set, mask or list status changes |
| Unite.UniteJoinsLists | src/org/kuppe/graphs/tarjan/tarjanUF/UF.java:104-134 | with both arguments live heads of disjoint lists and the smaller root free, `unite` merges at those two nodes. The two lists become one cycle holding exactly the members of both |
| ListInvariant.InitEstablishesLists | src/org/kuppe/graphs/tarjan/tarjanUF/UF.java:28-30 | in the initial state of fresh nodes every successor lies in its node's set and no written successor leads to 0 |
| ListInvariant.FollowStaysInSet | src/org/kuppe/graphs/tarjan/tarjanUF/UF.java:160-218 | under the invariant every node reached from a graph node along its list is a graph node of the same set |
| ListInvariant.CyclesOfDifferentSetsAreDisjoint | src/org/kuppe/graphs/tarjan/tarjanUF/UF.java:104-134 | under the invariant, list cycles starting in two different sets share no node |
| ListInvariant.BypassKeepsLists | src/org/kuppe/graphs/tarjan/tarjanUF/UF.java:206-216 | one compaction step keeps the invariant and all representatives, and the walk moves on to a graph node of the same set |
| ListInvariant.WalkKeepsLists | src/org/kuppe/graphs/tarjan/tarjanUF/UF.java:168-218 | `pickFromList` from a graph node keeps the invariant, and a picked node is a graph node in the start's set |
| ListInvariant.LockListKeepsLists | src/org/kuppe/graphs/tarjan/tarjanUF/UF.java:318-335 | `lockList` keeps the invariant, and the node it locks lies in the set of the node it started from |
| ListInvariant.MarkDeadKeepsLists | src/org/kuppe/graphs/tarjan/tarjanUF/UF.java:276-293 | `markDead` keeps the invariant |
| ListInvariant.RemoveKeepsLists | src/org/kuppe/graphs/tarjan/tarjanUF/UF.java:220-237 | `removeFromList` keeps the invariant |
| ListInvariant.MergeKeepsLists | src/org/kuppe/graphs/tarjan/tarjanUF/UF.java:120-156 | splicing two list nodes of the two sets being joined, linking, merging masks and releasing the locks keeps the invariant |
| ListInvariant.UniteKeepsLists | src/org/kuppe/graphs/tarjan/tarjanUF/UF.java:75-158 | every finished `unite` of two graph nodes keeps the invariant, whether it finds one set, abandons or links |
| ListInvariant.UniteJoinsListsOfSets | src/org/kuppe/graphs/tarjan/tarjanUF/UF.java:104-134 | under the invariant, `unite` at two live list heads of different sets joins their cycles into one holding exactly the members of both, with disjointness taken from the invariant |
| Unite.UniteWaitsOnItsOwnLock | src/org/kuppe/graphs/tarjan/tarjanUF/UF.java:98-111 | when a's list is a lone tombstone and a's root is the smaller, live root, `unite` waits forever at that root |
| ListInvariant.UniteWaitsOnDeadList | src/org/kuppe/graphs/tarjan/tarjanUF/UF.java:98-108 | whenever a's list is wholly tombstoned, so that `pickFromList(a)` alone would report it dead, and a's root is the smaller root and live, `unite(a, b)` waits forever at that root |
| Unite.UniteDeadlockExample | src/org/kuppe/graphs/tarjan/tarjanUF/UF.java:276-289 | in a concrete state, `markDead(1)` alone finishes and reports the transition, but `unite(1, 2)` waits forever at node 1 |
| ListMembers.InitEstablishesMembers | src/org/kuppe/graphs/tarjan/tarjanUF/UF.java:28-30 | initially the lists follow the sets both ways: every member that is not a tombstone is on the list of every member of its set |
| ListMembers.BypassKeepsMembers | src/org/kuppe/graphs/tarjan/tarjanUF/UF.java:206-216 | one compaction step past a tombstone keeps every non-tombstoned member of a set on the list of every member of that set |
| ListMembers.WalkKeepsMembers | src/org/kuppe/graphs/tarjan/tarjanUF/UF.java:168-218 | `pickFromList` keeps both directions of the list invariant |
| ListMembers.DeadPickIffSetExhausted | src/org/kuppe/graphs/tarjan/tarjanUF/UF.java:168-218 | under the two-way invariant, a pick is dead exactly when every member of the start's set is a tombstone |
| ListMembers.LockListKeepsMembers | src/org/kuppe/graphs/tarjan/tarjanUF/UF.java:318-335 | `lockList` keeps both directions of the list invariant |
| ListMembers.MarkDeadKeepsMembers | src/org/kuppe/graphs/tarjan/tarjanUF/UF.java:276-293 | `markDead` keeps both directions of the list invariant |
| ListMembers.RemoveKeepsMembers | src/org/kuppe/graphs/tarjan/tarjanUF/UF.java:220-237 | `removeFromList` keeps both directions of the list invariant |
| ListMembers.SpliceKeepsMembersAt | src/org/kuppe/graphs/tarjan/tarjanUF/UF.java:119-134 | splicing at non-tombstoned nodes of two different sets puts every non-tombstoned node on the list of every node of its own set, and every non-tombstoned node of either set on the list of every node of both |
| ListMembers.MergeKeepsMembers | src/org/kuppe/graphs/tarjan/tarjanUF/UF.java:119-156 | splice, link, mask merge and release keep both directions of the list invariant when the two list nodes are non-tombstoned and of the two sets being joined |
| ListMembers.UniteKeepsMembers | src/org/kuppe/graphs/tarjan/tarjanUF/UF.java:75-158 | every finished `unite` of two graph nodes keeps both directions of the list invariant |
| Results.Key | src/tarjanUF/ConcurrentFastSCC.java:47 | the key of graph index i, one less than its root's id, is a valid graph index |
| Results.FileUnder | src/tarjanUF/ConcurrentFastSCC.java:48-51 | filing i under a key creates that key's set if missing and adds i to it, leaving every other entry as it was |
| Results.FilingExtendsGrouping | src/tarjanUF/ConcurrentFastSCC.java:46-52 | filing index i under its key turns a grouping of the indices below i into one of the indices up to i |
| Results.GroupByRoot | src/tarjanUF/ConcurrentFastSCC.java:45-53 | every index below N is in the set under its root's key. Every filed index is below N and sits under its own key. Every key is a root's graph index and no set is empty. The union-find state only gets compressed |
| Results.GroupingIsPartition | src/tarjanUF/ConcurrentFastSCC.java:46-52 | each index is filed under one key only, nothing outside `0..N-1` is filed, and two indices share a set exactly when they share a root |
| Results.RootIndexIsItsOwnKey | src/tarjanUF/ConcurrentFastSCC.java:47 | a graph index whose node is a root is filed under its own index |
| Results.InitialGroupingIsSingletons | src/tarjanUF/ConcurrentFastSCC.java:45-52 | before any union every index is alone in the set under its own key, and there are no other keys |

## Left out

- Concurrency. CAS semantics, interleavings and the `AtomicLong`/`AtomicReferenceFieldUpdater` plumbing (UFNode.java:15-75) are not modelled. Each operation is one sequential step, and a wait on a lock that no one else releases becomes a precondition or a `Spins` result.
- Orchestration. The ForkJoinPool setup, worker submission and `awaitQuiescence` (src/tarjanUF/ConcurrentFastSCC.java:16-43) are thread-pool plumbing.
- I/O and telemetry. The processor-count message, the runtime print and the clock are I/O.
- End-to-end SCC correctness. The workers, the graph and its node class are not part of this model, so the SCC search as a whole is not modelled.
- `javafx.util.Pair`. It becomes the `Picked` datatype and Dafny tuples.
- The `UF` constructor only reserves capacity (UF.java:28-30). The model starts from `Init(N)`: N + 1 fresh nodes.
- `Arc.toString` is not modelled; it is formatting only. The identity, null and class checks of `Arc.equals` (Arc.java:83-88) are not modelled either: Dafny arcs are values of a single type.
- Lists.Walk: each `pickFromList` gets one round per node (`PickFromList` passes the state's size as fuel). A walk that needs more rounds ends in `Exhausted`. Termination of the unbounded source loop on a cyclic list is not proved.
- Unite.UniteJoinsLists: the splice is proved to join the two cycles only when both arguments are live, so that `lockList` picks them without compacting. When the walk first compacts past tombstones, the model does prove the two halves separately. `Lists.WalkOnlyCompacts` shows the walk only removes tombstones from a list. `Lists.SpliceJoinsCycles` shows the splice joins any two disjoint cycles. The composition of the two is not proved.
- Claims.MakeClaim: worker ids are restricted to 0..63 by their type. The source accepts any `int` and would alias worker 64 to worker 0 (`UFNodes.WorkerBitAliasesBeyondWidth`).
- The list invariant is stated as two directions (`ListInvariant`, `ListMembers`), not as "the lists are disjoint cycles whose members are exactly the sets". That literal form does not survive compaction: the walk rewrites only the first of two tombstones (UF.java:213), so the bypassed tombstone still points into the cycle.
