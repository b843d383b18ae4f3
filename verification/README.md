# Verified model of libs/iavl and of AMM liquidity

A Dafny model of the versioned, disk-backed AVL+ tree in `libs/iavl` and of the
liquidity arithmetic in `x/ammswap`, with proofs. `dafny verify dfyconfig.toml`
checks the whole project.

What is modelled, by component:

- **The tree.** `AvlTree`, `TreeUpdate`, `Orphans`, `Rank`: copy-on-write set and
  remove with all rotations, exact orphan lists, rank and selection, the height
  that a 64-bit size allows.
- **Hashes and records.** `MerkleHash` takes a hash as the term that is hashed, so
  collisions are excluded there; `RangeProof` works with an arbitrary hash
  function and states which collisions would have to exist. `Wire` and
  `NodeRecords` are the byte formats; `WireForm` describes them apart from the code
  that writes them, and `NodeLayout` shows that records and hashes have that form.
- **The version store.** `Lifetimes` defines the canonical database of a history
  of saved trees and a set of existing versions, and proves that saving, deleting
  and overwriting lead from canonical to canonical. `VersionStore` is the state
  machine and its refinement of a map of maps; `MutableTree` is the class whose
  methods collect batches and take exactly these steps; `Intervals` splits
  versions into runs, and `RunDeletion` deletes runs in any order.
- **Asynchronous commits.** `AsyncCommit` is the protocol of the block thread, the
  orphan goroutine, the commit goroutine and the prune goroutine as atomic steps,
  with an invariant over all interleavings; `AsyncBlocks` are the updates between
  two saves. `BranchUpdate` is the concurrent hashing of a branch: recursive
  goroutines, a bounded channel, a collector and the hash fields of the parent.
  `Retention` says which checkpoints and blocks every run keeps,
  `CommitProgress` that it can always come to rest, `SavedNodes` what
  a branch update saves.
- **Fast nodes.** `FastChanges`, `FastNodeCaches`, `FastOverlay`, `FastProgress`,
  `MergeIterator`, `OverlayIteration`: the layers of change sets, reading through them at any
  moment, and the merge iterator.
- **Proofs.** `RangeProof` (verifier), `ProofSoundness`, `RangeQuery` (generator),
  `ProofCompleteness`, `RangeAnswer`, `RangeExact`, `RangeAbsence`,
  `AbsenceSoundness`, `Ics23`.
- **Traversal, export and import, delta codec.** `Traversal`, `WalkOrder`,
  `ExportImport`, `DeltaCodec`; `DeltaWire` gives the messages that are written and
  `DeltaReading` what any message is read as.
- **AMM.** `Liquidity`.

Six properties that the code is meant to have do not hold in general; each has
a concrete failing case and the exact condition under which the code does have it:

- `DeleteVersionsRange` with a negative lower bound cuts records without deleting
  roots (`Lifetimes.NegativeRangeKeepsVersion`, `Lifetimes.DeleteRangeCanonical`).
- `ImmutableTree.Get` on the latest version misreads a key that the next block
  removes, from the merge of that block's fast nodes until the latest version is
  raised (`FastOverlay.RemovalOpensWindow`, `FastOverlay.GetIsLookup`); the
  iterator has the same window (`OverlayIteration.IterationMissesRemovedKey`,
  `OverlayIteration.SavedIteration`).
- An empty tree is saved without merging fast nodes. A roll-back before the next
  save that is not empty drops its removals, and the removed keys are read again
  (`FastOverlay.RollbackRevivesKey`, `FastOverlay.RollbackReads`); until then the
  iterator of the saved empty tree lists them
  (`OverlayIteration.IterationListsEmptiedTree`, `OverlayIteration.SavedIteration`).
- `DeleteVersions` groups its versions into runs. A version that is counted more
  than once in the run it starts makes that run reach over the versions after it;
  those are deleted too, whether or not they were asked for
  (`RunDeletion.RepeatedVersionLosesTheNext`). The runs are right exactly when those
  versions were asked for as well (`Intervals.RunsExactIff`), so always when no
  version is repeated.
- A range misses keys that lie between a key and its `cpIncr`
  (`RangeExact.GapExample`, `RangeExact.ExactIffNoneSkipped`); with keys of
  one width there are none.
- Adding liquidity may lower the base reserve per share by rounding
  (`Liquidity.BaseValueFalls`). It does not exactly when the pool was empty, the base
  paid in is rounded up, or what is rounded off the base weighs no more than what is
  rounded off the share (`Liquidity.AddAndBaseValue`).

The limit of `getRangeProof` counts the first leaf of the proof even when that leaf
lies before the range, and the leaf that reaches the limit is proved but not
returned; the comment above the function says less. `RangeExact.RangeIsExact`
follows the code.

Assumptions. The database is a map with atomic batches. Values are never nil.
`InitialVersion` is 0 and no upgrade version is pending. Range proofs are about a
hash function without collisions among the nodes of the tree and, for soundness,
between the tree and the proof; inner nodes of a proof have positive heights. The
orphan window theorem needs the minimum of 30 historical states that the
configuration enforces. Overwriting is stated for `DeleteVersionsFrom` followed by a
commit.

## Model

| member | source | states |
|---|---|---|
| `AvlTree.BalanceRestoresAvl` | libs/iavl/mutable_tree.go:1085-1167 | Balancing a node whose subtrees are at most two levels apart gives an AVL tree with right heights and sizes, in all four rotation cases; the height drops by at most one and the size stays |
| `AvlTree.BalanceKeepsOrder` | libs/iavl/mutable_tree.go:1085-1167 | Balancing keeps search order, keys, contents and the least key |
| `AvlTree.RotateRightKeepsOrder` | libs/iavl/mutable_tree.go:1085-1101 | A right rotation keeps order, keys and contents, and inner keys stay the least key of their right subtree |
| `AvlTree.RotateLeftKeepsOrder` | libs/iavl/mutable_tree.go:1104-1120 | The same for a left rotation |
| `AvlTree.AvlHeight` | libs/iavl/node.go:559-564 | In an AVL tree heights are never negative and are zero only for leaves |
| `TreeUpdate.RecursiveSet` | libs/iavl/mutable_tree.go:297-346 | The result is an AVL tree; replacing a value keeps height and size, inserting adds one to the size and at most one to the height |
| `TreeUpdate.SetContents` | libs/iavl/mutable_tree.go:297-346 | The new tree is ordered and its contents are the old map with the key set; updated is reported exactly when the key was there |
| `TreeUpdate.RecursiveRemove` | libs/iavl/mutable_tree.go:387-435 | The result is an AVL tree of at most one level less; the size drops by one exactly when something is orphaned, and only a removed leaf leaves nothing |
| `TreeUpdate.RemoveContents` | libs/iavl/mutable_tree.go:387-435 | Removing an absent key changes nothing and orphans nothing; removing a present one returns its value and leaves exactly the other pairs, in order, with the new least key reported upwards |
| `Orphans.SetConserves` | libs/iavl/mutable_tree.go:297-346 | Conservation: every older node occurs in the new tree and the orphan list together as often as in the old tree |
| `Orphans.RemoveConserves` | libs/iavl/mutable_tree.go:387-435 | The same for removal, through all rotations |
| `Orphans.SetOrphansExact` | libs/iavl/mutable_tree.go:1169-1184 | After a set, the persisted nodes of the orphan list are, without duplicates, exactly the saved nodes of the old tree that the new tree no longer has |
| `Orphans.RemoveOrphansExact` | libs/iavl/mutable_tree.go:1169-1184 | The same after a removal, also when the tree becomes empty |
| `Orphans.OccursAtMostOnce` | libs/iavl/mutable_tree.go:297-435 | In an ordered tree no node occurs twice |
| `MerkleHash.HashInjective` | libs/iavl/node.go:316-359 | Ordered trees with the same root hash are equal, although inner keys are not hashed |
| `ByteStrings.LtIsLexicographic` | libs/iavl/node.go:584-596 | The order of keys is that of bytes.Compare: decided by the first byte that differs, with a proper prefix first |
| `MerkleHash.LoadReadsBack` | libs/iavl/nodedb.go:171-217 | Following child hashes from a root hash reads back the whole tree when all its records are stored |
| `Lifetimes.CanonicalIsUnique` | libs/iavl/nodedb.go:586-639 | The saved trees and the set of existing versions determine roots, nodes and orphan records completely |
| `Lifetimes.ExistingVersionsReadBack` | libs/iavl/mutable_tree.go:722-742 | In a canonical database every existing version loads exactly the tree that was saved as it |
| `Lifetimes.SaveVersionCanonical` | libs/iavl/mutable_tree.go:845-902 | Saving nodes, orphan records and root in one batch leads from canonical to canonical, with the new tree added |
| `Lifetimes.DeleteVersionCanonical` | libs/iavl/nodedb.go:608-639 | Deleting one version leaves the canonical database of the remaining versions: nothing missing, nothing leaked |
| `Lifetimes.CutCanonical` | libs/iavl/nodedb.go:495-548 | Deleting a whole interval of versions does so too |
| `Lifetimes.DeleteRangeCanonical` | libs/iavl/nodedb.go:495-548 | DeleteVersionsRange gives the canonical database exactly when the lower bound is not negative or there is nothing to delete |
| `Lifetimes.NegativeRange` | libs/iavl/nodedb.go:495-548 | With a negative lower bound the root keys wrap around: no root and no node is deleted, whatever the range |
| `Lifetimes.NegativeRangeKeepsVersion` | libs/iavl/nodedb.go:495-548 | A concrete store: deleting from -1 up to 2 leaves version 1 in place |
| `Lifetimes.RangeEqualsOneByOne` | libs/iavl/nodedb.go:495-548 | Deleting a range equals deleting its existing versions one at a time, in any order |
| `Lifetimes.DeleteFromCanonical` | libs/iavl/nodedb.go:427-472 | DeleteVersionsFrom(v+1) and a commit leave the database as if no version above v had ever been saved |
| `Lifetimes.CommitCanonical` | libs/iavl/mutable_tree_oec.go:227-272 | Committing a checkpoint several versions after the last one, with the orphans collected meanwhile, gives the canonical database of the checkpoints |
| `Lifetimes.AliveSinceCreation` | libs/iavl/nodedb.go:586-592 | A node that is in a version is in every version since the one that created it |
| `VersionStore.StepValid` | libs/iavl/mutable_tree.go:845-993 | Every operation keeps the working tree well formed, the orphan list exact and the database canonical |
| `VersionStore.StepRefines` | libs/iavl/mutable_tree.go:845-993 | Every operation acts on the abstract store (a working map and a map of saved maps) as its name says |
| `VersionStore.EveryRun` | libs/iavl/mutable_tree.go:845-993 | In every run each existing version reads back the map it had when saved, and every stored node is reachable from an existing version |
| `VersionStore.RunExists` | libs/iavl/mutable_tree.go:845-993 | From every valid state every sequence of operations can be run |
| `Intervals.SortedSorts` | libs/iavl/mutable_tree.go:953-955 | Sorting versions: non-decreasing, each version as often as before |
| `Intervals.Sort` | libs/iavl/mutable_tree.go:953-955 | The in-order insertion computes that list, repeated versions included |
| `Intervals.Split` | libs/iavl/mutable_tree.go:957-965 | The loop computes the runs; for sorted versions they take exactly the given versions if and only if the count condition below holds |
| `Intervals.RepeatedVersionTakesTheNext` | libs/iavl/mutable_tree.go:957-965 | Given version 3 twice, the runs also take version 4; given 3, 3 and 4 they are right |
| `Intervals.RunsExactIff` | libs/iavl/mutable_tree.go:953-965 | For any list, repeated versions included, the runs take exactly the given versions if and only if every version that is counted n times in its own run is followed by n - 1 given versions |
| `Intervals.DistinctIsExact` | libs/iavl/mutable_tree.go:953-965 | So they do when no version is repeated |
| `RunDeletion.MayIsAdmits` | libs/iavl/nodedb.go:495-524 | A range is refused or not by bounds and readers alone, so deletions before it make no difference |
| `RunDeletion.RunsDelete` | libs/iavl/mutable_tree.go:967-971 | For any runs in any order, the roots that go are those of the runs that start at 0 or above |
| `RunDeletion.RunsValid` | libs/iavl/mutable_tree.go:967-971 | Unless a run reaches from below zero into the versions, the database is the canonical one of the versions left |
| `RunDeletion.RunsAreOneByOne` | libs/iavl/mutable_tree.go:967-971 | It is then the database that deleting the same versions one by one gives, whatever the two orders |
| `RunDeletion.RepeatedVersionLosesTheNext` | libs/iavl/mutable_tree.go:946-974 | A store with versions 3, 4 and 5 is left with 5 when asked to delete 3 twice |
| `MutableTrees.MutableTree.AddOrphans` | libs/iavl/mutable_tree.go:1169-1184 | Appends the persisted nodes of a slice, in order |
| `MutableTrees.MutableTree.Set` | libs/iavl/mutable_tree_preload.go:127-140 | The step of the version store, in place; the contents are the old ones with the key set |
| `MutableTrees.MutableTree.Remove` | libs/iavl/mutable_tree_preload.go:142-158 | The step of the version store, in place; returns the value that was there |
| `MutableTrees.MutableTree.Rollback` | libs/iavl/mutable_tree.go:744-755 | The working tree is the last saved one again |
| `MutableTrees.MutableTree.SaveVersion` | libs/iavl/mutable_tree.go:845-902 | Branch, orphans and root written to one batch and committed are one step of the version store |
| `MutableTrees.MutableTree.SaveBranch` | libs/iavl/mutable_tree.go:1190-1225 | The recursion writes exactly the unsaved nodes |
| `MutableTrees.MutableTree.SaveOrphans` | libs/iavl/nodedb_oec.go:34-43 | One record per orphan, ending at the previous version |
| `MutableTrees.MutableTree.DeleteVersion` | libs/iavl/mutable_tree.go:1069-1081 | Refused as the pre-check says, otherwise the deletion step |
| `MutableTrees.MutableTree.DeleteOrphans` | libs/iavl/nodedb.go:608-639 | The loop over the records of a version drops nodes or moves records as the specification does |
| `MutableTrees.MutableTree.DeleteVersionsRange` | libs/iavl/mutable_tree.go:979-993 | The loops over the range, written to one batch, are the range step |
| `MutableTrees.MutableTree.DeleteVersions` | libs/iavl/mutable_tree.go:946-974 | For any list of versions: it succeeds exactly when every run may be deleted, and does what deleting the runs in the order of the map does; for versions that are not negative the store stays valid, the versions gone are those the runs take (after a refusal, some of them), and the whole database equals their one-by-one deletion |
| `MutableTrees.MutableTree.OverwriteFrom` | libs/iavl/nodedb.go:427-472 | Nodes, orphan records and roots above a version deleted in one batch are the overwriting step |
| `MutableTrees.MutableTree.DeleteNodesFrom` | libs/iavl/nodedb.go:560-583 | The recursion drops exactly the nodes created since a version |
| `AsyncCommit.EveryReadableNodeIsFound` | libs/iavl/nodedb.go:171-217 | Under the invariant each node of a readable version is in the pre-persist cache, in a checkpoint being written, in the orphan cache or on disk |
| `AsyncCommit.CheckpointMovesTheUnpersisted` | libs/iavl/nodedb_oec.go:130-156 | A checkpoint hands over exactly the nodes of its root that were never handed over before |
| `AsyncCommit.StepInv` | libs/iavl/mutable_tree_oec.go:105-294 | Every atomic step of the block thread, the orphan goroutine, the commit goroutine and the prune goroutine keeps the invariant; which checkpoints and blocks are kept is stated by `Retention` |
| `AsyncCommit.EveryInterleaving` | libs/iavl/mutable_tree_oec.go:105-294 | In every interleaving all nodes of the working tree, of the trees in the orphan window and of the committed unpruned checkpoints are found, and the disk is canonical for the committed checkpoints; which of them are kept is stated by `Retention.NewestAreKept` |
| `Retention.NewestAreKept` | libs/iavl/mutable_tree_oec.go:374-395 | In every run, over the checkpoints in the order in which their commits began: the newest historyStateNum of them have their roots on disk, but for one whose batch is just being written; there are no roots but theirs; and only older ones are ever marked for removal, prunable or being pruned |
| `Retention.OnlyTheNewestAreKept` | libs/iavl/mutable_tree_oec.go:374-395 | If every checkpoint that leaves the queue may be pruned, then once all prunes are written the roots on disk are exactly those newest ones |
| `Retention.WindowIsKept` | libs/iavl/nodedb_orphan_info.go:66-122 | The newest blocks, as many as the window holds, are readable; the window holds no more, and the orphan cache only what those blocks dropped |
| `CommitProgress.StepsEnd` | libs/iavl/mutable_tree_oec.go:105-294 | Every step of the three goroutines and of a save under way lowers the work that is left, so without a new block they come to an end |
| `CommitProgress.NeverBlocked` | libs/iavl/mutable_tree_oec.go:105-294 | Under the invariant some such step can be taken while work is left |
| `CommitProgress.EveryRunComesToRest` | libs/iavl/mutable_tree_oec.go:105-294 | From every reachable state the run can be brought to rest without a new block: nothing under way or in flight, no prune waiting, and the disk canonical for the last checkpoint handed over |
| `AsyncCommit.PruneWriteIsDelete` | libs/iavl/mutable_tree_oec.go:274-294 | A prune whose records and previous version are still those of the disk writes exactly what deleting the version would |
| `AsyncBlocks.EveryBlockCanBeSaved` | libs/iavl/mutable_tree_oec.go:105-177 | In every interleaving, any sequence of sets and removals after an asynchronous save leads to a tree and orphans with which the next save can be taken |
| `AsyncBlocks.EditsExist` | libs/iavl/mutable_tree.go:297-435 | Every sequence of sets and removals can be made on the tree saved last |
| `BranchUpdate.HashOfTree` | libs/iavl/nodedb_update_branch.go:5-27 | The hash of a tree with unloaded, saved and new parts is the hash of the tree it stands for |
| `BranchUpdate.EntryOfTree` | libs/iavl/nodedb_update_branch.go:5-27 | Every node that is saved is a node of that tree, under its hash |
| `SavedNodes.SavedIffNew` | libs/iavl/nodedb_update_branch.go:5-27 | What is saved are exactly the new nodes in memory, each under its hash |
| `SavedNodes.SavedOnce` | libs/iavl/nodedb_update_branch.go:5-27 | No two of them have the same hash, so none is saved twice |
| `SavedNodes.ChildrenFirst` | libs/iavl/nodedb_update_branch.go:5-27 | A new child is saved before its parent |
| `BranchUpdate.Cache.UpdateBranch` | libs/iavl/nodedb_update_branch.go:5-27 | The sequential update returns the hash of the tree and saves each new node once, children first, under its hash |
| `BranchUpdate.ComputeKeepsPromise` | libs/iavl/nodedb_update_branch.go:91-130 | A step of the recursion, which hashes a node from the hashes its children returned, changes neither what the goroutine will send nor what it will return |
| `BranchUpdate.SameAsSequential` | libs/iavl/nodedb_update_branch.go:29-130 | Whatever the interleaving of the two hashing goroutines and the collector, and whatever the hash fields held before, the hash computed from the stored child hashes is the sequential one and each new node is saved exactly once under its own hash |
| `BranchUpdate.ClosedIsDrained` | libs/iavl/nodedb_update_branch.go:55-76 | When the collector closes the channel every message has been consumed, and nothing is sent afterwards |
| `BranchUpdate.NeverStuck` | libs/iavl/nodedb_update_branch.go:29-130 | With the bounded channel the update never blocks for good |
| `BranchUpdate.StepsDecrease` | libs/iavl/nodedb_update_branch.go:29-130 | Every step decreases a measure, so the update ends |
| `BranchUpdate.MoreConcurrencySameAsSequential` | libs/iavl/nodedb_update_branch.go:138-169 | Two concurrent updates, one for each child, sharing the cache: no panic, the sequential root hash, and each new node saved once under its own hash |
| `BranchUpdate.MoreConcurrencyNeverStuck` | libs/iavl/nodedb_update_branch.go:138-169 | Until the root is hashed some step can be taken |
| `BranchUpdate.MoreConcurrencyStepsDecrease` | libs/iavl/nodedb_update_branch.go:138-169 | Every step of it decreases a measure, so it ends |
| `FastChanges.MergePrevFinds` | libs/iavl/nodedb_fnc.go:117-136 | After mergePrev a key is found in the newer changes first and in the older ones otherwise |
| `FastChanges.MergeLaterFinds` | libs/iavl/nodedb_fnc.go:139-146 | After mergeLater the later changes prevail |
| `FastChanges.MergesAgree` | libs/iavl/nodedb_fnc.go:117-146 | Both merges give the same change set |
| `FastChanges.MergeApplies` | libs/iavl/nodedb_fnc.go:139-146 | Storing merged changes is storing one after the other |
| `FastChanges.ExpandFinds` | libs/iavl/nodedb_fnc.go:199-220 | The expanded set knows what a search through all layers finds |
| `FastChanges.LayersFind` | libs/iavl/nodedb_fnc.go:188-197 | A search through the layers and then the disk finds what the disk will hold when all layers are written |
| `FastChanges.ChangeSet.Get` | libs/iavl/nodedb_fnc.go:22-33 | Not known, removed, or the node |
| `FastChanges.ChangeSet.AddNode` | libs/iavl/nodedb_fnc.go:35-40 | The key is found as the node and every other key as before; additions and removals stay disjoint; storing the changes later sets that key on top of what they stored before |
| `FastChanges.ChangeSet.RemoveKey` | libs/iavl/nodedb_fnc.go:48-53 | The key is found as removed and every other key as before; additions and removals stay disjoint; storing the changes later takes that key out of what they stored before |
| `FastChanges.ChangeSet.Clone` | libs/iavl/nodedb_fnc.go:89-114 | A new object with the same changes |
| `FastChanges.ChangeSet.Reset` | libs/iavl/nodedb_fnc.go:148-157 | No changes are left |
| `FastChanges.ChangeSet.MergePrevInto` | libs/iavl/nodedb_fnc.go:117-136 | The loops over the maps, in any order, give the merged set |
| `FastChanges.ChangeSet.MergeLaterInto` | libs/iavl/nodedb_fnc.go:139-146 | The same for mergeLater |
| `FastChanges.VersionedChanges.Push` | libs/iavl/nodedb_fnc.go:171-176 | A new newest layer; a version already in flight has its earlier layer replaced as well |
| `FastChanges.VersionedChanges.Drop` | libs/iavl/nodedb_fnc.go:178-186 | Only the oldest layer goes; a later layer loses its change set exactly when its version is in flight twice |
| `FastChanges.VersionedChanges.Get` | libs/iavl/nodedb_fnc.go:188-197 | The loop from the newest layer finds what the layers say |
| `FastChanges.VersionedChanges.ExpandFrom` | libs/iavl/nodedb_fnc.go:199-220 | The loop merges all layers below a copy of the given changes |
| `FastNodeCaches.FastNodeCache.Cache` | libs/iavl/fast_node_cache.go:59-77 | The node is cached and counts as used; at the limit exactly one node goes, and every other was used after it |
| `FastNodeCaches.FastNodeCache.Uncache` | libs/iavl/fast_node_cache.go:48-55 | Exactly that key goes |
| `FastNodeCaches.FastNodeCache.Get` | libs/iavl/fast_node_cache.go:79-92 | Returns the cached node, forgets nothing, and a hit counts as the latest use |
| `FastOverlay.StepKeeps` | libs/iavl/mutable_tree_oec.go:105-154 | Every step of the block thread, the commit goroutine and the cache, empty saves included, keeps the invariant that ties all layers to the saved trees, unless it rolls back while the trees merged and saved last differ |
| `FastOverlay.LookupIsStored` | libs/iavl/nodedb.go:128-169 | A lookup finds the stored fast node whether or not it is cached, at every moment of a commit |
| `FastOverlay.GetIsLookup` | libs/iavl/immutable_tree.go:165-199 | Get on a saved version returns what its tree holds if and only if the key was not removed by a block that is merged while the latest version is still this one |
| `FastOverlay.WorkingGetIsLookup` | libs/iavl/mutable_tree.go:206-237 | Under the invariant Get on the working tree returns what the tree holds |
| `FastOverlay.EveryRun` | libs/iavl/immutable_tree.go:165-199 | In every run, empty saves included, in which no roll-back drops the removals that an empty save left unmerged, the working tree is read correctly, and every saved tree exactly outside the removal window |
| `FastProgress.FastNodesReachDisk` | libs/iavl/nodedb_oec.go:95-181 | From every state of such a run a save under way can be finished and all change sets in flight be written; if none waits for the next checkpoint the fast nodes on disk are then exactly those of the tree merged last |
| `FastOverlay.UsuallySteady` | libs/iavl/mutable_tree_oec.go:105-145 | Runs that save no empty tree, and runs that never roll back, are of that kind |
| `FastOverlay.RollbackReads` | libs/iavl/mutable_tree.go:744-756 | After any roll-back and the next set, a key is read right exactly if the tree merged last and the tree saved last agree on it |
| `FastOverlay.RollbackRevivesKey` | libs/iavl/mutable_tree_oec.go:113-122 | A run with an empty save and a roll-back after which a removed key is read again |
| `FastOverlay.RemovalOpensWindow` | libs/iavl/mutable_tree_oec.go:121-136 | Between merging a block that removes a key and raising the latest version, the previous version misreads that key |
| `FastOverlay.RemovalIsReachable` | libs/iavl/mutable_tree_oec.go:105-136 | Such a block occurs in some run |
| `MergeIterator.MergeElements` | libs/iavl/unsaved_fast_iterator.go:138-217 | The merge holds the additions and the disk nodes that are neither removed nor added again |
| `MergeIterator.MergeInOrder` | libs/iavl/unsaved_fast_iterator.go:138-217 | The merge of two sorted lists is sorted, in either direction |
| `MergeIterator.MergeLists` | libs/iavl/unsaved_fast_iterator.go:138-217 | The merge lists exactly the changes applied to the disk within the range, in order |
| `MergeIterator.ListingUnique` | libs/iavl/unsaved_fast_iterator.go:62-83 | There is only one such listing |
| `MergeIterator.UnsavedFastIterator.Advance` | libs/iavl/unsaved_fast_iterator.go:138-217 | The recursion over removed nodes moves to the next pair of the merge and ends |
| `MergeIterator.UnsavedFastIterator.Next` | libs/iavl/unsaved_fast_iterator.go:138-217 | The remaining pairs lose their first |
| `MergeIterator.UnsavedFastIterator.Valid` | libs/iavl/unsaved_fast_iterator.go:115-123 | Valid exactly when there is a current pair, that is, when pairs remain |
| `MergeIterator.NewIterator` | libs/iavl/unsaved_fast_iterator.go:48-106 | A new iterator has the full listing of the range before it: all keys from start on and before end, rising or falling with the direction, with their values |
| `MergeIterator.Iterate` | libs/iavl/mutable_tree.go:253-270 | The callback sees the listing in order up to the pair at which it stops |
| `OverlayIteration.NewUnsavedFastIteratorWithCache` | libs/iavl/unsaved_fast_iterator_okc.go:11-31 | The iterator lists the disk under the unsaved, pre-persist and in-flight changes |
| `OverlayIteration.OverlayIsWorking` | libs/iavl/unsaved_fast_iterator_okc.go:11-31 | Under the invariant that overlay on the disk holds exactly the working tree |
| `OverlayIteration.OverlayIsSaved` | libs/iavl/fast_iterator_okc.go:11-31 | Without the unsaved changes the overlay on disk is the last saved tree that was not empty |
| `OverlayIteration.LateDiskIsTheSame` | libs/iavl/unsaved_fast_iterator_okc.go:22-28 | Batches committed between taking the overlay and opening the disk iterator make no difference |
| `OverlayIteration.IterationIsWorking` | libs/iavl/mutable_tree.go:274-279 | In every run of the kind above, whatever is committed meanwhile, iterating over the mutable tree lists the pairs of the working tree in the range, in order |
| `OverlayIteration.SavedIteration` | libs/iavl/immutable_tree.go:226-231 | Whatever is committed meanwhile, iterating over the latest saved tree is right for a key if and only if that tree and the tree merged last agree on it; they differ only while a newer block is merged or the latest tree is empty |
| `OverlayIteration.IterationMissesRemovedKey` | libs/iavl/immutable_tree.go:226-231 | A run in which the iterator of the latest saved tree has lost a key that the next block removes |
| `OverlayIteration.IterationListsEmptiedTree` | libs/iavl/immutable_tree.go:226-231 | A run in which the iterator of an empty latest tree lists a key of the tree before |
| `Wire.UvarintRoundTrip` | libs/iavl/node.go:316-359 | A varint is read back with exactly what followed it |
| `Wire.VarintRoundTrip` | libs/iavl/node.go:316-359 | The same for signed numbers |
| `Wire.ByteSliceRoundTrip` | libs/iavl/node.go:316-359 | The same for length-prefixed byte strings |
| `NodeRecords.RecordRoundTrip` | libs/iavl/node.go:79-136 | MakeNode undoes writeBytes, whatever bytes follow the record |
| `NodeLayout.RecordLayout` | libs/iavl/node.go:454-497 | A record is height, size and version in zigzag form, the key, and then the value or both child hashes, each string after its length |
| `NodeLayout.HashLayout` | libs/iavl/node.go:316-359 | A leaf is hashed with height 0, size 1, its version, its key and the hash of its value; an inner node with height, size, version and the hashes of both children |
| `NodeLayout.RecordBytes` | libs/iavl/node.go:454-497 | The bytes of a leaf record |
| `WireForm.LayoutIsUnique` | libs/iavl/node.go:316-359 | Such a layout determines the bytes |
| `RangeProofs.PreimageInjective` | libs/iavl/proof.go:57-105 | The strings hashed for two nodes are equal only if all their fields are |
| `RangeProofs.ComputePathHash` | libs/iavl/proof_path.go:68-75 | The loop from the leaf up computes the hash of the path |
| `RangeProofs.Verifier.Compute` | libs/iavl/proof_range.go:233-292 | The closure that pops the shared queues does what the recursive specification does |
| `RangeProofs.QueuesSuffice` | libs/iavl/proof_range.go:220-300 | With one inner path less than leaves no queue is popped when it is empty, and the run is done exactly when the leaves are used up |
| `RangeProofs.RangeProof.ComputeRootHash` | libs/iavl/proof_range.go:203-218 | Computes and memoises the root |
| `RangeProofs.RangeProof.Verify` | libs/iavl/proof_range.go:176-198 | Accepts exactly the root that the proof computes to, also through the memo |
| `RangeProofs.RangeProof.Search` | libs/iavl/proof_range.go:103-105 | Binary search: the first leaf not below the key, if the leaves ascend |
| `RangeProofs.RangeProof.VerifyItem` | libs/iavl/proof_range.go:95-114 | Accepts only items among the leaves of a verified proof, and all of them if the leaves ascend |
| `RangeProofs.RangeProof.VerifyAbsence` | libs/iavl/proof_range.go:119-173 | The loop gives the verdict of `AcceptsAbsence`, whose exact meaning is `RangeAbsence.AbsenceAcceptedIff` |
| `ProofSoundness.PathSound` | libs/iavl/proof.go:57-150 | One leaf and path that hash to a subtree lead down that subtree to that leaf |
| `ProofSoundness.ComputeSound` | libs/iavl/proof_range.go:233-292 | Whatever a run of the verifier pops against a subtree hash occurs in the tree |
| `ProofSoundness.VerifiedLeavesAreInTree` | libs/iavl/proof_range.go:184-304 | If a proof, however built, verifies against a root hash then each of its leaves is in that tree |
| `ProofSoundness.VerifiedItemIsMember` | libs/iavl/proof_range.go:95-114 | An accepted item is a key-value pair of the tree |
| `ProofCompleteness.PairsVerify` | libs/iavl/proof_range.go:233-292 | Verifying any number of leaves read off a tree, even followed by others, recomputes its root hash, stops exactly at its end and leaves the rest |
| `Successor.CpIncrLoop` | libs/iavl/util.go:66-86 | The loop over the bytes increments with carry |
| `Successor.AfterIsFromSuccessor` | libs/iavl/util.go:66-86 | For byte strings of one length, being greater is being at least the increment |
| `RangeQuery.Collector.Callback` | libs/iavl/proof_range.go:373-440 | The callback updates its captured variables as specified |
| `RangeQuery.Collector.Walk` | libs/iavl/proof_range.go:366-441 | The traversal with that callback |
| `RangeQuery.GetRangeProof` | libs/iavl/proof_range.go:312-448 | Panics exactly on a negative limit or an empty range, answers nothing for an empty tree, and otherwise as specified |
| `RangeQuery.TraverseSubtree` | libs/iavl/proof_range.go:366-441 | A subtree after the first path is collected leaf by leaf with its inner nodes |
| `RangeAnswer.TraverseOnPath` | libs/iavl/proof_range.go:366-441 | Along the first path only what follows the first leaf is collected; the path is never confused with another subtree |
| `RangeAnswer.SameHashSameKey` | libs/iavl/proof_range.go:377-392 | Without hash collisions in the tree, subtrees with equal hashes have the same first key |
| `RangeAnswer.LeavesRise` | libs/iavl/node.go:584-641 | The leaves hold the keys of the tree in ascending order |
| `RangeExact.RangeIsExact` | libs/iavl/proof_range.go:312-448 | Without a limit the answer is exactly the pairs in [start, end) in order; with one it is cut as the code counts leaves |
| `RangeExact.ProofVerifies` | libs/iavl/proof_range.go:312-448 | Every answer carries a proof that recomputes to the root hash; its treeEnd flag is set exactly when it reaches the last leaf |
| `RangeExact.ItemsVerify` | libs/iavl/proof_range.go:312-448 | The leaves of the proof ascend and contain every returned pair, so VerifyItem accepts it |
| `RangeExact.EqualWidthsSkipNone` | libs/iavl/util.go:66-86 | With keys of one width no key lies between another and its increment |
| `RangeExact.ExactIffNoneSkipped` | libs/iavl/proof_range.go:312-448 | Ranges are exact for all bounds if and only if no key lies between another key and its increment |
| `RangeExact.SkippedKeyIsLost` | libs/iavl/proof_range.go:362-372 | A key in such a gap is missing from the range that starts at the key before it |
| `RangeExact.GapExample` | libs/iavl/proof_range.go:362-372 | In the tree with keys [1] and [1, 0] the range from [1] on returns only the first pair |
| `RangeAbsence.AbsenceIsSound` | libs/iavl/proof_range.go:119-173 | VerifyAbsence on a generated proof accepts only keys that are not in the tree |
| `RangeAbsence.AbsenceAcceptedIff` | libs/iavl/proof_range.go:119-173 | On a generated proof of a tree without skipped keys, VerifyAbsence accepts a key if and only if it is not in the tree, the leaves held start at the first leaf of the tree if the key lies before them, and they end at the last one if it lies behind them |
| `AbsenceSoundness.PathLeads` | libs/iavl/proof_path.go:68-75 | A path and leaf that hash to a subtree descend in it to that leaf, each given right hash being that of the sibling |
| `AbsenceSoundness.ComputeWindow` | libs/iavl/proof_range.go:220-304 | A verification against a subtree, with leftmost inner paths, pops neighbouring leaves of it: all that follow the first, or up to the end of the queue; treeEnd is set only at the last leaf |
| `AbsenceSoundness.LeftmostProofsAreSound` | libs/iavl/proof_range.go:119-201 | For any proof, however it was built, whose inner paths are leftmost: Verify and then VerifyAbsence accept only absent keys |
| `AbsenceSoundness.AnswersAreLeftmost` | libs/iavl/proof_range.go:312-448 | The inner paths of every proof that the tree generates are leftmost |
| `RangeAbsence.AbsenceIsExact` | libs/iavl/proof_range.go:454-463 | For keys of the tree width, the proof of GetWithProof is accepted as a proof of absence exactly when the key is absent |
| `RangeAbsence.GetWithProofIsGet` | libs/iavl/proof_range.go:454-463 | GetWithProof returns the value of the tree |
| `Traversals.TraverseSeesWalk` | libs/iavl/node.go:584-641 | The recursive traversal shows the callback the walk of its domain up to the node at which it stops; what the walk is, is stated by `WalkOrder` |
| `Traversals.ExpandedTodo` | libs/iavl/node_ibc_adapter.go:76-137 | Expanding a delayed node stands for its walk and lowers the total weight on the stack |
| `Traversals.Traversal.Next` | libs/iavl/node_ibc_adapter.go:76-137 | Returns the first node that the stack stands for and leaves the others; the stack weight is its termination measure |
| `Traversals.TraverseInRange2` | libs/iavl/node_ibc_adapter.go:64-74 | The explicit stack shows the same nodes as the recursion, for every start, end, direction, inclusiveness and order |
| `Traversals.WalkLeaves` | libs/iavl/node.go:584-641 | The leaves shown are the leaves in the range, in key order or the opposite one |
| `WalkOrder.ShownIff` | libs/iavl/node.go:584-641 | For every domain a node is shown exactly if it is in the tree, no inner node has it on a side that the bounds cut off and, for a leaf, its key is in the range |
| `WalkOrder.WalkInOrder` | libs/iavl/node.go:584-641 | No node is shown twice; an inner node comes before all shown below it in preorder and after them in postorder; the two sides of every inner node follow the direction |
| `WalkOrder.OneOrder` | libs/iavl/node.go:584-641 | Of two different nodes of a tree these rules let exactly one come first, so they determine the walk |
| `WalkOrder.EveryNodeIsShown` | libs/iavl/node.go:570-582 | Without bounds every node is shown exactly as often as it occurs in the tree |
| `WalkOrder.NodesOfTree` | libs/iavl/immutable_tree.go:287-294 | A tree of k leaves has 2 * k - 1 nodes |
| `Traversals.RangeProofFolds` | libs/iavl/node_ibc_adapter.go:64-74 | The callback of getRangeProof builds the same proof on either traversal |
| `ExportImport.ExportInner` | libs/iavl/export.go:52-69 | The export of a tree is the export of its left side, then of its right side, then the node |
| `ExportImport.ImportRebuilds` | libs/iavl/import.go:68-150 | On top of any stack, the stream of a tree adds exactly that tree |
| `ExportImport.AcceptedIsExport` | libs/iavl/import.go:68-150 | Any stream that is accepted is the export of the subtrees on the stack |
| `ExportImport.ImportsIffExported` | libs/iavl/import.go:68-150 | A stream imports to a tree if and only if it is the export of that tree and the tree is importable |
| `ExportImport.TreesAreImportable` | libs/iavl/import.go:68-150 | Every AVL tree with positive versions up to the import version is importable |
| `ExportImport.Importer.Add` | libs/iavl/import.go:68-150 | Nothing changes unless the node is added; the call that fills a batch of 10000 records writes it out, and no other does |
| `ExportImport.Importer.Commit` | libs/iavl/import.go:155-183 | Succeeds for at most one tree on the stack and writes its root |
| `ExportImport.ExportThenImport` | libs/iavl/import.go:68-183 | Importing an export never fails and restores the root hash and every node |
| `DeltaCodec.UnmarshalFromAmino` | libs/iavl/tree_delta.go:79-121 | The decoding loop shared by all records |
| `DeltaCodec.NodeRoundTrip` | libs/iavl/tree_delta.go:575-802 | A node record is read back as it was written, field by field |
| `DeltaCodec.NodeImpRoundTrip` | libs/iavl/tree_delta.go:374-464 | A keyed node record too, with nil and zero nodes kept apart |
| `DeltaCodec.CommitOrphanRoundTrip` | libs/iavl/tree_delta.go:472-556 | A commit-orphan record too, for all int64 values |
| `DeltaCodec.TreeRoundTrip` | libs/iavl/tree_delta.go:232-366 | A tree delta is read back with zero records in its lists turned into nil |
| `DeltaCodec.MapRoundTrip` | libs/iavl/tree_delta.go:39-121 | A map of deltas likewise, whatever the order of its entries |
| `DeltaCodec.RoundTripIffNoZero` | libs/iavl/tree_delta.go:39-121 | Unmarshal undoes Marshal if and only if no list holds a zero record |
| `DeltaCodec.MarshalTreeDelta` | libs/iavl/tree_delta.go:232-300 | The loops over the three lists write the bytes of `MarshalTree`, which `DeltaWire.TreeForm` pins down |
| `DeltaCodec.MarshalTreeDeltaMap` | libs/iavl/tree_delta.go:39-76 | The entries are written in the order of the sorted keys, as `DeltaWire.MapForm` pins them down |
| `DeltaCodec.SortedKeysUnique` | libs/iavl/tree_delta.go:47-53 | So the bytes do not depend on the order of the map |
| `WireForm.MessageIsUnique` | libs/iavl/tree_delta.go:39-76 | The numbered fields of a message, written with key bytes 8 * pos and 8 * pos + 2 and base 128 numbers, determine its bytes |
| `WireForm.UvarintIsVarint` | libs/iavl/tree_delta.go:575-710 | The numbers written are base 128 numbers without leading zeros, and there is one such form of each (`WireForm.VarintIsUvarint`) |
| `DeltaWire.NodeForm` | libs/iavl/tree_delta.go:575-710 | A node is written as the message with strings 1 to 5, version 6 and size 7 as 64-bit numbers, height 8 in zigzag form and flags 9 and 10, each absent when zero |
| `DeltaWire.NodeFieldsAscend` | libs/iavl/tree_delta.go:575-710 | These fields are in strictly ascending order and none is empty or zero |
| `DeltaWire.NodeImpForm` | libs/iavl/tree_delta.go:374-417 | A keyed node is written as string 1, absent when empty, and message 2, absent when nil |
| `DeltaWire.CommitOrphanForm` | libs/iavl/tree_delta.go:472-511 | A commit orphan is written as string 1 and 64-bit number 2, each absent when zero |
| `DeltaWire.TreeForm` | libs/iavl/tree_delta.go:232-299 | A tree delta is written as one field 1, 2 or 3 for every element of its three lists in order, empty for nil |
| `DeltaWire.MapImpForm` | libs/iavl/tree_delta.go:130-176 | A map entry is written as string 1, absent when empty, and message 2, absent when nil |
| `DeltaWire.MapForm` | libs/iavl/tree_delta.go:39-76 | A map is written as one field 1 for every entry |
| `DeltaWire.NodeBytes` | libs/iavl/tree_delta.go:575-710 | The bytes of a node with all ten fields |
| `DeltaWire.CommitOrphanBytes` | libs/iavl/tree_delta.go:472-511 | The bytes of two commit orphans |
| `DeltaWire.NodeImpBytes` | libs/iavl/tree_delta.go:374-417 | The bytes of a keyed node |
| `DeltaWire.TreeBytes` | libs/iavl/tree_delta.go:232-299 | The bytes of a delta with an element in each list |
| `DeltaWire.MapBytes` | libs/iavl/tree_delta.go:39-176 | The bytes of map entries and of a map |
| `DeltaReading.NodeIsRead` | libs/iavl/tree_delta.go:712-802 | Any message with fields of the right types, in any order and with repetitions, is read field by field: the last one of a number counts, a number that does not fit or a field number other than 1 to 10 is an error |
| `DeltaReading.NodeImpIsRead` | libs/iavl/tree_delta.go:419-464 | The same for keyed nodes, whose second field is read as a node |
| `DeltaReading.CommitOrphanIsRead` | libs/iavl/tree_delta.go:513-556 | The same for commit orphans |
| `DeltaReading.TreeIsRead` | libs/iavl/tree_delta.go:301-366 | The same for tree deltas, where every field adds an element and empty data is nil |
| `DeltaReading.MapImpIsRead` | libs/iavl/tree_delta.go:178-224 | The same for map entries |
| `DeltaReading.MapIsRead` | libs/iavl/tree_delta.go:79-121 | The same for maps, where a later entry replaces an earlier one with its key |
| `DeltaReading.TruncatedIsRefused` | libs/iavl/tree_delta.go:79-121 | Data shorter than its length says is an error in every record |
| `Rank.HeightAtMost90` | libs/iavl/node.go:559-564 | A size that fits in an int64 forces a height of at most 90, so an int8 holds it and its successor |
| `Rank.AvlSize` | libs/iavl/node.go:559-564 | The size of an AVL tree is its number of leaves and at least the Fibonacci bound of its height |
| `Rank.HasIsMember` | libs/iavl/node.go:174-185 | has, with its shortcut on inner keys, is membership |
| `Rank.GetIsRank` | libs/iavl/node.go:188-207 | get returns the number of smaller keys, and the value exactly if the key is there |
| `Rank.GetByIndexSelects` | libs/iavl/node.go:209-224 | getByIndex returns the leaf at that place and nothing outside the tree |
| `Rank.SelectUndoesRank` | libs/iavl/node.go:188-224 | Selecting by the rank of a key finds the key |
| `Rank.RankUndoesSelect` | libs/iavl/node.go:188-224 | The rank of the key at an index is that index |
| `Rank.Index` | libs/iavl/proof_path.go:96-112 | The loop adds up the left sizes, or returns -1 for an inner node with both hashes |
| `Rank.PathIndexIsRank` | libs/iavl/proof_path.go:96-112 | For a present key the index read off its path is its rank |
| `Rank.NeighboursBracket` | libs/iavl/mutable_ibc_adapter.go:106-141 | A non-membership proof is refused exactly for present keys; otherwise its neighbours are adjacent, bracket the key, and are missing only beyond the ends |
| `Rank.ExistenceHasOneLeaf` | libs/iavl/mutable_ibc_adapter.go:143-152 | The range proof made for an existing key has one leaf, and its path leads to the root hash |
| `Ics23.ConvertInnerOps` | libs/iavl/mutable_ibc_adapter.go:56-95 | The loop converts the path from the leaf up |
| `Ics23.RootsAgree` | libs/iavl/mutable_ibc_adapter.go:56-95 | The converted operations compute the same root as the path |
| `Ics23.ExistenceProofChecks` | libs/iavl/mutable_ibc_adapter.go:28-95 | The existence proof of a present key checks against the root hash |
| `Liquidity.MulAndQuoIsFloor` | x/common/util.go:134-139 | MulAndQuo is exactly floor(a*b/c) in scaled units, or a panic on division by zero or an intermediate result of more than 315 bits |
| `Liquidity.FloorIsExact` | x/common/util.go:134-139 | The quotient in that statement is a*b/c rounded down, in exact arithmetic |
| `Liquidity.Constants` | libs/cosmos-sdk/types/decimal.go:20-30 | Decimals have 18 places, and 315 bits are 255 and the 60 of the places |
| `Liquidity.AddSucceedsIff` | x/ammswap/handler.go:104-173 | Liquidity is added exactly if the pool is empty or holds all three of base, quote and supply, no intermediate result has more than 315 bits, at least one unit and the asked minimum is minted, the base due is not more than offered and both new reserves fit; then the base due is paid in and the share due is minted, both in plain arithmetic |
| `Liquidity.RemoveSucceedsIff` | x/ammswap/handler.go:175-231 | Liquidity is removed exactly if the supply is positive and covers it, no intermediate result has more than 315 bits and both rounded-down parts of the reserves reach the asked minima; then these are paid out |
| `Liquidity.SupplyZeroIffReservesZero` | x/ammswap/handler.go:104-231 | Over all runs of adding and removing with positive amounts, the supply is zero exactly when both reserves are |
| `Liquidity.RemoveKeepsShareValue` | x/ammswap/handler.go:175-231 | Removing liquidity never lowers either reserve per share |
| `Liquidity.AddKeepsQuoteValue` | x/ammswap/handler.go:104-173 | Adding liquidity never lowers the quote reserve per share |
| `Liquidity.AddAndBaseValue` | x/ammswap/handler.go:104-173 | It does not lower the base reserve per share if and only if the pool was empty, or the base is rounded up to one unit, or what is rounded off the base, times the supply, is at most what is rounded off the share, times the base reserve; one smallest unit of base would always make up for the loss |
| `Liquidity.BaseValueFalls` | x/ammswap/handler.go:104-231 | A run of messages from an empty pair to a pool whose base reserve per share falls with the next deposit |
| `Liquidity.AddThenRemove` | x/ammswap/handler.go:104-231 | Adding and then removing the minted share never returns more of either coin than was paid in |
| `Liquidity.RemoveNeverOverdraws` | x/ammswap/handler.go:175-231 | What is paid out never exceeds the reserve |
| `Liquidity.SwapTokenPair.HandleAddLiquidity` | x/ammswap/handler.go:104-173 | Coins move from the sender to the pool and shares are minted to the sender, both conserved, exactly if `AddSucceeds` holds and the sender has the coins; never more base than offered and never fewer shares than asked for; a failure changes nothing |
| `Liquidity.SwapTokenPair.HandleRemoveLiquidity` | x/ammswap/handler.go:175-231 | The same in the other direction: exactly if `RemoveSucceeds` holds and the sender has the shares, and never less of either coin than asked for |

## Left out

- Nodes are values: in-place changes of node fields and sharing of node objects between trees are not modelled; copy-on-write makes them unobservable for saved trees.
- The node cache, preloading, statistics, logging and tracing: they do not change results.
- Storing a node twice, the no-batch write mode, crash recovery in the middle of a commit, `StopTree`, and the start-up upgrade to fast storage.
- `SaveVersion` of a version that already exists, `InitialVersion` and upgrade versions.
- The `versions` map of `MutableTree`: the class reads the root keys of the database instead, so that the map and the disk differ after a range with a negative lower bound is not modelled.
- Loading old versions lazily and read-only trees other than `GetImmutable`.
- Applying deltas from peers (`SetDelta`, `updateBranchWithDelta`): the hashes come from the delta.
- AsyncCommit.EveryInterleaving: no-leak is stated for the disk against the committed checkpoints and for the orphan cache (`Retention.WindowIsKept`), not for the other in-memory caches after a stop event.
- FastOverlay.EveryRun: a tree is represented by its contents, and a reader that holds the read lock is one step; the synchronous save, which has no in-flight layer, is not part of the overlay model.
- AbsenceSoundness.LeftmostProofsAreSound: not stated for proofs with inner paths that are not leftmost, which the verifier does not rule out; whether the condition can be weakened is not examined.
- DeltaCodec.UnmarshalFromAmino: a length prefix is read without the limit of ten bytes that numbers have, and the key-byte parser of the amino library is modelled as one byte below 128 with the field number in its upper five bits.
- Traversals.TraverseInRange2: the depth argument of the callback, and a nil root, which shows nothing, are not modelled.
- FastNodeCaches.FastNodeCache.Cache: the size limit is fixed, where the code reads it from the configuration on each call.
- Swap pricing, deadlines, pair lookup and token issuing in `x/ammswap`: only the liquidity arithmetic and its transfers between sender and pool are modelled.
- `libs/tm-db` backends, SHA-256, and the application around the tree.
