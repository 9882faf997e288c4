# Verified model of the sparse Merkle tree

A Dafny model of the `smt` library: a key-value map kept as a compressed sparse Merkle tree over a
node store and a value store, with batched updates, proofs, deep subtrees built from proofs, a
sharded wrapper and a slab-backed store. `dafny verify dfyconfig.toml` checks all of it.

**The central definition** is `Trees.Canon(m, d)`: the tree of an empty map is the placeholder, that
of a single binding is a bare leaf, and any other splits on bit `d` of the path. `States.StateOf(m)`
is the one state (node store, value store, root) a map stands for. The tree methods are the source's
own loops and recursions over mutable stores, and each promises a state: on a complete tree,
`StateOf` of the new map; on a deep subtree, the part of it that the subtree can know
(`States.AfterWrite`).

**Two readings of hashing.** In the tree objects a digest is a symbolic term (`TreeHasher.Digest`):
`Hash` is a free constructor and `Zero` the placeholder, so distinct data never share a digest. The
code still learns children only by looking a digest up in its store. `Encoding`, `Proofs`,
`Compaction` and `ByteSubtrees` work on real bytes and an arbitrary hash function; there, soundness
reads "the claim is true, or this function returns two colliding inputs (or a preimage of the
placeholder)". `Proofs.AcceptedInBytes` carries symbolic proofs over to bytes under every hash function.
`ByteTrees`, `ByteBulk` and `ByteRuns` do the same for the tree object itself: Update, Delete and
BulkUpdate over stores of byte strings, and branches and writes on a deep subtree beside them, end in
the image of the symbolic state; otherwise two of the digests gone through coincide, or an accepted
branch is unsound, and following these down gives a collision or a preimage of the placeholder.

**In numbers and bytes.** Definitions that many contracts share are tied to the code's own literals
apart from their bodies. `Reference.MerkleRoot` spells out the root of a map as bytes hashed over
zeros, a byte 0 or 1 and the bits of a path, and `Reference.RootIsMerkleRoot` proves every root equal
to it. The empty value, the stretch of routing bytes of a shard, the length of a mask, the layout of
hashed data and the 32-bit limits stand as literals in the contracts of the operations.

**Sizes.** The digest size in bytes, `TreeHasher.PathSize`, is a constant without a value: every
result holds for every positive size, and the tree depth is eight times it. Paths are byte strings
with bits numbered from the most significant one.

| file | covers |
|---|---|
| `Utils.dfy` | bits and byte order (`utils.go`) |
| `TreeHasher.dfy`, `Encoding.dfy` | symbolic digests, and node data as bytes (`treehasher.go`) |
| `Reference.dfy` | roots, bits and hashed data in numbers and bytes |
| `Trees.dfy`, `Writes.dfy`, `Walks.dfy`, `States.dfy` | canonical trees, one write, one walk, store states |
| `SparseMerkleTree.dfy` | the tree object (`smt.go`, `GetDescend`) |
| `Batches.dfy`, `Bulk.dfy` | batches and the recursive batched walk (`bulk.go`) |
| `SymbolicProofs.dfy`, `DeepSubtree.dfy` | proofs over digests, deep subtrees (`deepsubtree.go`) |
| `Proofs.dfy`, `Compaction.dfy` | proofs over bytes, compaction (`proofs.go`) |
| `ByteSubtree.dfy` | deep subtrees over bytes (`deepsubtree.go`) |
| `ByteTree.dfy`, `ByteBulk.dfy`, `ByteRuns.dfy` | the tree object and batched updates over bytes (`smt.go`, `bulk.go`), runs over bytes |
| `Sharded.dfy` | the sharded wrapper (`sharded.go`) |
| `Arena.dfy` | the slab-backed store (`mapstore_arena.go`) |
| `Runs.dfy` | whole runs of calls |

**Where code and comments differ**, the model follows the code:

- `fillSideNodes` returns its slices from the leaf end up (smt.go:412-413), not root to leaf as
  smt.go:360-361 says.
- The comment at bulk.go:274-277 says sorting alone makes a bit monotone; it needs the entries to
  share the bits above, which `Batches.PartitionByBit` therefore requires and `bulk.go` provides.
  `Batches.SortedAloneIsNotEnough` has two sorted paths on which the claim fails.
- `BulkUpdate` runs all deletes before all sets (bulk.go:48-54), so the equivalence with iterated
  `Update` stated at bulk.go:33-34 fails when a batch sets a path and later deletes it.
  `Runs.BulkAgainstOneByOne` proves that it holds in all other cases and in no such case;
  `Runs.SetThenDeletedParts` has a batch of two.
- `UpdateForRoot` returns the tree's own root when the value is already set (smt.go:288), even if
  asked about another root. `SparseMerkleTree.UpdateForRoot` says exactly when the result is right;
  `Runs.SetTwiceForRoot` is a pair of calls on a new tree that comes back to the empty root.
- `countSetBits` also counts mask bits past the declared side nodes (proofs.go:93), so a compact
  proof can pass its check and still make decompaction index past its side nodes.
  `Compaction.DecompactProof` says exactly when, and `Compaction.PaddingBitOverruns` has one. With no side nodes declared, supplied ones go
  unchecked (proofs.go:93); `Compaction.ExpansionRoundTrip` accounts for them and
  `Compaction.UndeclaredIsLost` has one.
- The arena keeps slab number, offset and length as 32-bit numbers (mapstore_arena.go:90-94) and adds
  the last two as such (mapstore_arena.go:68), so a range must also end below 2^32:
  `Arena.EachFitsIsNotEnough` has a value whose three fields fit and that does not land, and
  `Arena.SetThenGet` sets it and has `Get` panic.
  `ArenaFixedSizeMap.Set` says exactly when the arena is the map with the key set. Set also panics on
  an empty value while there is no slab.
- The doc comment at sharded.go:20 says at most 64 shards; the constructor accepts 256.

## Model

| member | source | states |
|---|---|---|
| Runs.RunCalls | smt.go:102-155 | any run of Update, Delete and BulkUpdate on a tree object: every call succeeds and returns the root at that point, and the tree ends in the state the run means |
| Runs.RunIsExact | smt.go:102-155 | after any run of Update, Delete and BulkUpdate the stores are those of the current map, with no orphan, no dangling child and no stale value, and the next write lacks nothing |
| Runs.HistoryIndependence | smt.go:102-155 | two runs end with one root exactly when they end with one map, and then with identical stores |
| Runs.InsertThenDeleteRestores | smt.go:162-233 | setting a fresh path and deleting it restores root and both stores |
| Runs.InsertThenDelete | smt.go:102-114 | the two calls on a tree object leave it as it was |
| Runs.BulkAgainstOneByOne | bulk.go:37-105 | one BulkUpdate gives the root, nodes and values of a loop of Update calls if and only if no path of the batch is set and later deleted |
| Runs.BulkBesideOneByOne | bulk.go:33-37 | BulkUpdate on one tree object and a loop of Update on another in the same state end in one state, or with one root, if and only if no path is set and later deleted |
| Runs.SetThenDeletedParts | bulk.go:48-54 | a path set and then deleted in one batch makes the two ways end with different roots, on every starting map |
| Runs.SetTwiceForRoot | smt.go:286-289 | on a new tree, setting one value twice by UpdateForRoot, the second time at the root the first gave, returns the root of the empty tree |
| Runs.WriteThroughOneProof | deepsubtree.go:24-29 | ProveUpdatable on the full tree object, AddBranch on a new deep subtree object, and one write on both: every call succeeds and the roots are equal |
| Runs.RunDeep | deepsubtree.go:11-60 | a run of calls on a deep subtree object goes through exactly when the run means a state, and ends in it, with every branch's path known |
| Runs.RunBeside | deepsubtree.go:11-60 | the same calls on a deep subtree object and the full tree object: without errors the subtree stays a part of the full tree, with its root and its bindings |
| Runs.DeepSubtreeTracksFullTree | deepsubtree.go:11-60 | whatever branches a deep subtree accepts and whatever error-free writes both trees go through, the roots stay equal and the subtree's stores stay inside the full tree's |
| Runs.FreshDeepSubtree | deepsubtree.go:17-22 | a new deep subtree is a part of the tree whose root it is given |
| Trees.CanonIsCanonical | smt.go:245-342 | the canonical tree of a map has the compressed shape and commits to exactly that map |
| Trees.CanonicalIsUnique | smt.go:245-342 | a map has one tree of that shape |
| Trees.CanonicalIsCanon | bulk.go:162-214 | every tree of that shape at depth d is the canonical tree of its own map |
| Trees.RootDeterminesMap | smt.go:53-61 | roots are equal exactly when maps are |
| Reference.RootIsMerkleRoot | smt.go:245-342 | under every hash function the root of a map is zeros if it is empty, the hash of 0, path and value hash for one binding, and else the hash of 1 and the roots of the two halves that the path bit makes |
| Reference.CanonIsMerkleRoot | smt.go:245-342 | the same of the subtree at any depth |
| Reference.RightIsBitSet | utils.go:4-9 | a path turns right at depth d exactly when that bit is set, counted from bit 128 of the first byte |
| Reference.DataLayout | treehasher.go:50-119 | leaf data are 0, path and value hash, node data 1, left and right, byte by byte |
| Writes.PutCorrect | smt.go:245-342 | setting a path, at every ending of the walk, keeps the shape and changes that one binding |
| Writes.PutBesideLeaf | smt.go:272-318 | beside a leaf for another path, placeholder siblings down to the common prefix and one node there give the canonical tree of the two leaves |
| Writes.PutReach | smt.go:245-342 | the digests of the tree change by exactly the replaced walk and the new one |
| Writes.PutSpineIsNew | smt.go:245-342 | nothing that an effective set stores was in the tree before, so nothing it deletes is still needed |
| Writes.PutSpineOf | smt.go:245-342 | after a set the walk toward any path is made of its old walk and the new one |
| Writes.DropCorrect | smt.go:162-233 | removing a bound path, lifting a lone leaf past placeholders or leaving a sibling subtree in place, keeps the shape and drops that one binding |
| Writes.DropReach | smt.go:162-233 | the digests of the tree change by exactly the removed walk and the rebuilt inner nodes |
| Writes.DropInnerIsNew | smt.go:162-233 | no node rebuilt by a delete was in the tree before |
| States.DropSpineOf | smt.go:162-233 | after a delete the walk toward any path is made of its old walk, the rebuilt nodes and the lifted sibling |
| Writes.ReachDisjoint | smt.go:172-177 | trees over disjoint paths share no digest, so a deletion never hits another position |
| Bulk.NodeDepthIsFixed | bulk.go:152-158 | an inner node fits one depth only |
| Bulk.NotFurtherDown | bulk.go:152-158 | a node replaced at depth d does not occur in the new subtrees below it, so deleting it is safe |
| Walks.SpineOfWalk | smt.go:364-415 | the path nodes of a walk are distinct and are exactly the digests on the way to the path |
| Walks.PrefixIsStart | smt.go:257-271 | the common prefix with the leaf found is at least the depth of the walk and short of the full depth |
| States.PartialIsPartOf | deepsubtree.go:11-22 | the invariant the methods keep says exactly that the stores are parts of those of one map with this root |
| States.ExactIsStateOf | smt.go:18-23 | states that miss nothing and maps correspond one to one |
| States.AfterWriteIsExact | smt.go:117-155 | on a complete tree every write goes through and gives the state of the new map |
| States.AfterWriteIsPartial | smt.go:117-155 | on a partial tree a write that goes through leaves a part of the new map's state |
| States.ExactIsClosed | smt.go:18-23 | a complete store told by its entries: every child of a stored node is stored, and everything stored but the root is a child of a stored node |
| States.EmptyMeansAbsent | smt.go:13-14 | writing the empty byte string removes a path, any other value sets it, and an absent path reads as the empty byte string |
| States.KnownIsReady | smt.go:117-155 | a path whose walk and value are stored can be set to any value, and deleted if the last sibling is stored too |
| States.WriteKeepsKnown | smt.go:117-155 | a write that goes through leaves every path known that was known |
| States.LastSiblingInReach | smt.go:406-411 | the node beside the end of a walk is never a placeholder |
| SparseMerkleTrees.SparseMerkleTree.constructor | smt.go:26-40 | a new tree is in the state of the empty map |
| SparseMerkleTrees.SparseMerkleTree.Deep | deepsubtree.go:17-22 | a new deep subtree has empty stores under the given root |
| SparseMerkleTrees.SparseMerkleTree.Get | smt.go:68-92 | never fails; on a complete tree, the value bound to the path, or the empty value; on a deep subtree, that exactly when the value of a bound path is known (the empty byte string) |
| SparseMerkleTrees.SparseMerkleTree.FillSideNodes | smt.go:364-415 | succeeds exactly when the walk (and a wanted sibling) is stored, and returns side nodes, path nodes, leaf and sibling data of that walk |
| SparseMerkleTrees.DigestNodeInto | treehasher.go:104-115 | reads both children before overwriting one scratch buffer, and leaves the other buffer alone |
| SparseMerkleTrees.DigestLeafInto | treehasher.go:66-77 | likewise for a leaf |
| SparseMerkleTrees.SparseMerkleTree.DeleteWithSideNodes | smt.go:162-233 | key-already-empty exactly for unbound paths; otherwise the root and node store of the tree without the path, failing exactly when the sibling is not stored and then with the walk gone; whatever the scratch buffers held |
| SparseMerkleTrees.SparseMerkleTree.RebuildWithoutLeaf | smt.go:179-232 | the loop of the delete; its invariant keeps the buffer in use apart from the next one written and the lifted sibling out of both |
| SparseMerkleTrees.SparseMerkleTree.UpdateWithSideNodes | smt.go:245-342 | the root and stores of the tree with the path set; nothing changes for the same value; fails exactly when an overwritten value is not stored, and then with the new leaf in place of the old one |
| SparseMerkleTrees.SparseMerkleTree.RebuildAbove | smt.go:305-341 | the loop of the update, with the same buffer discipline |
| SparseMerkleTrees.SparseMerkleTree.UpdateForRoot | smt.go:117-155 | at any root whose tree the stores serve: succeeds exactly when they hold what the write needs; the described stores and root result exactly unless the value was set already and the root is not the tree's own; the stores after an error are described too |
| SparseMerkleTrees.SparseMerkleTree.Update | smt.go:102-109 | on a complete tree never fails and gives the state of the new map; on a partial tree succeeds exactly when ready and stays partial; an error leaves the root, and the stores half changed as described; in values: the path set, or removed by the empty byte string |
| SparseMerkleTrees.SparseMerkleTree.Delete | smt.go:112-114 | the same with the empty value: the path is removed |
| SparseMerkleTrees.SparseMerkleTree.ProveForRoot | smt.go:449-485 | at any root whose tree the stores serve: succeeds exactly when they hold the walk (and a wanted sibling), so always on a complete tree; the proof is accepted with the bound value, and an updatable one shows a sibling whenever there is one; it shows leaf data exactly when the walk ends at a leaf for another path, and then that leaf's |
| SparseMerkleTrees.SparseMerkleTree.Prove | smt.go:422-425 | the same at the current root |
| SparseMerkleTrees.SparseMerkleTree.GetDescend | deepsubtree.go:66-117 | an answer is always the bound value, also at full depth; it comes exactly when every digest met above full depth is stored and so is the value of a bound path; so always on a complete tree |
| SparseMerkleTrees.FullDepthIsBound | deepsubtree.go:109-116 | a walk that falls through at full depth ends at the path's own leaf |
| Batches.SortStable | bulk.go:76-78 | sorted by path, with the values of each path in their input order |
| Batches.Dedup | bulk.go:80-91 | strictly sorted in place, meaning the same map as the whole list |
| Batches.Search | bulk.go:262-264 | a boundary of the predicate, found by halving |
| Batches.PartitionByBit | bulk.go:278-285 | the exact boundary between entries that turn left and right at this depth |
| Batches.BulkIsIteratedExactlyWhen | bulk.go:48-70 | deletes first and sets second mean the same as one by one exactly when no path is set and later deleted, on every starting map |
| Batches.BulkMapAt | bulk.go:48-91 | what a batch leaves at a path, by positions: its last value that is not empty; nothing if it has only empty ones; and what was there if the batch does not mention it |
| Bulk.ManyParts | bulk.go:186-188 | with two entries left the depth is short of the path length, so no bit past the end is read |
| Bulk.BuildSubtree | bulk.go:168-214 | stores and returns the canonical subtree of the batch at this depth, and its values |
| Bulk.InsertedLeaf | bulk.go:262-268 | the insertion point keeps the merged list strictly sorted and overrides nothing |
| Bulk.SameLeaf | bulk.go:245-250 | the equal-hash fast path returns what a rebuild would |
| Bulk.MergeLeafWithKVs | bulk.go:229-272 | the canonical subtree of the leaf's binding overridden by the batch; the old leaf goes, the new subtree is stored |
| Bulk.NodeApplied | bulk.go:139-159 | replacing both children and then the node leaves exactly the new subtree's digests |
| Bulk.BulkApplyAtRoot | bulk.go:116-160 | the canonical subtree of old bindings overridden by the batch, the stores changed by exactly that, and no store operation failing |
| Bulk.BulkUpdate | bulk.go:37-105 | length mismatch refused with nothing changed; otherwise the state of the batch's map, root returned, and at every path what the positions of the two lists say |
| SymbolicProofs.FoldIsWalk | proofs.go:141-157 | a root is recomputed from a leaf exactly when the walk goes along the side nodes and ends there |
| SymbolicProofs.AcceptedIsWalk | proofs.go:106-158 | acceptance means exactly that the proof is the walk of the tree |
| SymbolicProofs.AcceptedIsTrue | proofs.go:106-158 | an accepted claim is what the tree binds |
| DeepSubtrees.VerifyProofWithUpdates | proofs.go:106-158 | the verdict, and as updates every digest recomputed, each with its own data |
| DeepSubtrees.FoldedIsSpine | proofs.go:141-157 | the updates of an accepted proof are the walk's nodes, all of them and nothing else |
| DeepSubtrees.AddBranch | deepsubtree.go:30-61 | a refused proof changes nothing; an accepted one adds exactly the walk, the shown sibling and the value, and keeps the subtree a part of the tree |
| DeepSubtrees.BranchKeepsReady | deepsubtree.go:24-61 | an accepted branch makes its path known and takes nothing away: known paths stay known and ready writes ready; with its sibling shown the path can be deleted too |
| Runs.BranchesStayKnown | deepsubtree.go:11-60 | after any error-free run of branches and writes, every branch's path is known and can be set |
| DeepSubtrees.UpdatableBranchSuffices | deepsubtree.go:24-29 | after one updatable proof on an empty subtree, any single write of its path goes through and gives the full tree's new root |
| Encoding.LeafRoundTrip | treehasher.go:79-81 | parsing leaf data gives back path and value hash, and it is told as a leaf |
| Encoding.NodeRoundTrip | treehasher.go:117-119 | parsing node data gives back both children, and it is not taken for a leaf |
| Encoding.ParsedLeafIsWhole | treehasher.go:79-85 | leaf data are determined by what parsing returns |
| Proofs.VerifyProof | proofs.go:101-104 | the verdict is acceptance as the following rows characterise it |
| Proofs.VerifyProofWithUpdates | proofs.go:106-158 | the same verdict, with every digest recomputed and its datum, leaf first; what is accepted has the sizes and the sibling digest that the check asks for, in numbers |
| Proofs.AcceptedInBytes | smt.go:449-485 | under every hash function, the bytes of a proof that holds of a tree verify against its root bytes |
| Proofs.AuditFinds | proofs.go:106-158 | following arbitrary accepted side nodes down the tree either confirms the claim or yields a genuine collision or placeholder preimage |
| Proofs.AuditProofFinds | proofs.go:106-158 | the same for a whole proof against a canonical tree, with the claimed value compared last |
| Proofs.VerifiedIsTrueOrCollision | proofs.go:101-158 | any bytes that verify against the root of a map claim what the map binds (empty meaning absent), or a collision or placeholder preimage is computed from them |
| Proofs.RootsBindOrCollide | smt.go:53-61 | two maps with equal root bytes are equal, or a collision or placeholder preimage is computed from their trees |
| Compaction.SanityCheck | proofs.go:77-98 | the compact proof's check, with its bit count over the whole mask, and is the three conditions in numbers: the range, the shortest mask with a bit for every side node, and as many side nodes as clear bits |
| Compaction.ShortestMask | proofs.go:86-89 | a mask has the right length exactly when it is the shortest that has a bit for every side node |
| Compaction.CompactionStands | proofs.go:170-196 | a compact proof has at each position zeros for a set bit and else the side node after as many as there are clear bits before |
| Compaction.ExpansionStands | proofs.go:199-222 | and its expansion has the same there |
| Compaction.CompactProof | proofs.go:170-196 | refuses exactly insane proofs; otherwise mask bits mark the placeholders, padding is clear, the other side nodes follow in order, and the result passes its own check; the mask is the shortest that has a bit for every side node |
| Compaction.DecompactProof | proofs.go:199-222 | runs out of range exactly when the check passes and a padding bit is set; otherwise placeholders at set bits and every supplied side node once, in order, at clear bits |
| Compaction.CompactionRoundTrip | proofs.go:170-222 | decompacting a compaction gives the proof itself |
| Compaction.CompactedProofVerifies | smt.go:487-501 | a proof that holds of a tree still verifies after compaction and decompaction, under every hash function |
| Compaction.ExpansionRoundTrip | proofs.go:170-222 | compacting a decompaction gives back the compact proof exactly when no supplied side node is a placeholder and none is supplied undeclared |
| Compaction.UndeclaredIsLost | proofs.go:77-98 | a compact proof with one undeclared side node passes its check, and no compaction of its expansion is it |
| Compaction.ExpansionUnique | proofs.go:199-222 | a compact proof has at most one expansion |
| Compaction.VerifyCompactProof | proofs.go:161-167 | for arbitrary compact bytes: no verdict exactly when decompaction runs out of range; otherwise accepted exactly when the check passes and the one expansion is accepted; on a compacted sane proof, the verdict of the plain one |
| Compaction.VerifiedCompactIsTrueOrCollision | proofs.go:161-167 | compact bytes that verify against the root of a map claim what the map binds, or a collision or placeholder preimage is computed from their expansion |
| Compaction.PaddingBitOverruns | proofs.go:77-98 | a compact proof with a set padding bit passes the check |
| ByteSubtrees.SoundIsWalk | proofs.go:141-157 | side nodes that the audit finds sound are the tree's walk byte for byte: the data hashed are the walk's, all and nothing else, and the first side node is the sibling of its end |
| ByteSubtrees.BranchIsPartOrCollision | deepsubtree.go:30-61 | arbitrary bytes that AddBranch accepts against the root of a map leave stores that hold nothing but the map's tree, with the whole walk, or a collision or placeholder preimage is computed from them |
| ByteSubtrees.BranchesArePartOrCollision | deepsubtree.go:24-61 | the same for any run of branches, accepted or refused |
| ByteSubtrees.BranchMakesWalkKnown | deepsubtree.go:24-61 | after a sound branch for a path its walk and value are known, so that a descent toward it answers |
| ByteSubtrees.AddBranch | deepsubtree.go:30-61 | bad proof exactly when not accepted, and then nothing changes; otherwise the described stores; and stores that were the image of a part of the tree stay one, with the branch's digests added, when the branch is sound |
| ByteSubtrees.BranchIsImage | deepsubtree.go:30-61 | after a sound branch the stores are the image of the partial state with the walk and the shown sibling added |
| ByteSubtrees.ImageDescends | deepsubtree.go:66-117 | on stores that are the image of a part of the tree a descent is always sound |
| ByteSubtrees.GetDescend | deepsubtree.go:66-117 | on stores that are a part of a map's tree, an answer is what the map binds, or a collision or placeholder preimage is computed; it comes whenever the walk is known |
| ByteTrees.ByteTree.constructor | smt.go:26-40 | a new tree over bytes is the image of the empty map's state |
| ByteTrees.ByteTree.Deep | deepsubtree.go:17-22 | a new deep subtree over bytes has empty stores under the given root |
| ByteTrees.ByteTree.FillSideNodes | smt.go:364-415 | over bytes, succeeds exactly when the walk is stored, and the slices are the image of the walk |
| ByteTrees.ByteTree.DeleteWithSideNodes | smt.go:162-233 | over bytes, complete or partial: key-already-empty exactly for unbound paths; otherwise the image of the tree without the path, failing exactly when the sibling is not stored and then with the walk gone |
| ByteTrees.ByteTree.UpdateWithSideNodes | smt.go:245-342 | over bytes, complete or partial: the value hashes tell whether the value is the same; otherwise the image of the tree with the path set, failing exactly when an overwritten value is not stored |
| ByteTrees.ByteTree.Update | smt.go:102-155 | over bytes, on complete and partial stores, under any hash function that keeps the digests of the two trees apart: goes through exactly when the state that the stores stand for is ready, and leaves the image of the state that the write or its failure leaves; on a complete tree never fails; its root is the reference root of its map, so the hash of 0, path and value hash after the first set |
| ByteTrees.ByteTree.Delete | smt.go:112-114 | the same with the empty value |
| ByteBulk.BuildSubtreeBytes | bulk.go:168-214 | over bytes, the image of the canonical subtree of the batch is stored |
| ByteBulk.MergeLeafBytes | bulk.go:229-272 | over bytes, the image of the leaf overridden by the batch; the hash comparison tells exactly whether the leaf stays |
| ByteBulk.BulkApplyBytes | bulk.go:116-160 | over bytes, the image of the subtree overridden by the batch; comparing child hashes tells exactly whether the children changed |
| ByteBulk.BulkUpdateBytes | bulk.go:37-105 | over bytes, mismatch refused with nothing changed; otherwise the image of the state of the batch's map, with the reference root, and at every path what the positions of the two lists say |
| ByteBulk.RunBytes | smt.go:102-155 | over bytes, a run of Update, Delete and BulkUpdate keeps the stores the image of the current map's state, returns the reference root of every map on the way and meets no failing store operation, as long as the digests gone through stay apart |
| ByteBulk.RunIsImageOrCollision | smt.go:102-155 | the digests a run goes through stay apart, or two of them coincide and following these two down gives a collision or placeholder preimage, under every hash function |
| ByteRuns.NewBeside | deepsubtree.go:17-22 | a new deep subtree over bytes is the image of a part of the full tree |
| ByteRuns.RunBesideBytes | deepsubtree.go:11-60 | branches and writes on a deep subtree and the writes on the full tree, over bytes: a call fails exactly when the state the subtree stands for lacks what it needs; without errors the roots are equal, the subtree's stores are an image of a part of the full tree, and every descent is sound, as long as the digests stay apart and the accepted branches are sound |
| ByteRuns.AuditBesideFinds | deepsubtree.go:30-61 | the first finding among the accepted branches of a run is a genuine collision or placeholder preimage |
| ByteRuns.BesideIsImageOrCollision | deepsubtree.go:11-60 | the digests of such a run stay apart, or two of them coincide and following these two down gives a collision or placeholder preimage |
| Sharded.PowerOfTwoTest | sharded.go:68-70 | the bit trick is zero exactly for powers of two |
| Sharded.NewShardedSMT | sharded.go:60-85 | accepts exactly the powers of two from 1 to 256 and starts every shard empty and fresh, routing as asked |
| Sharded.ShardByteIsTopBits | sharded.go:93-96 | the shard index is the number spelled by the leading bits of the routing byte |
| Sharded.ShardIndexIsStretch | sharded.go:93-96 | the index cuts the 256 routing bytes into equal stretches |
| Sharded.ShardIndexInRange | sharded.go:93-96 | it is always below the shard count |
| Sharded.ChunksCover | sharded.go:211-229 | every input index lies in a chunk, for any number of chunks |
| Sharded.ParallelComputeShardIdxs | sharded.go:197-239 | for any number of chunks done in any order, every key gets its shard index |
| Sharded.FoldIsBalanced | sharded.go:330-352 | for a power of two, folding level by level builds the balanced tree over the shard roots |
| Sharded.PairUpAt | sharded.go:330-352 | one level pairs neighbours, left before right, and an odd last digest with itself |
| Sharded.BalancedAt | sharded.go:330-352 | the bits of an index lead from the combined root to that shard's root |
| Sharded.CombinedRootDeterminesMaps | sharded.go:323-329 | combined roots are equal exactly when all shard maps are |
| Sharded.FoldLevelsInBytes | sharded.go:330-352 | folding the bytes of the shard roots gives the bytes of the folded root, under every hash function |
| Sharded.CombinedRootsBindOrCollide | sharded.go:323-329 | equal combined root bytes come from equal shard maps, or following the two combined trees down gives a collision or placeholder preimage |
| Sharded.BucketValues | sharded.go:286-290 | a path's pairs all go to its shard, in input order, and to no other |
| Sharded.BucketBulkedAt | sharded.go:286-317 | a shard's own paths are updated as the positions of the whole lists say, and others are left alone |
| Sharded.ShardedBulkIsRoutedExactlyWhen | sharded.go:248-321 | a sharded bulk update equals routing every pair through Update in order exactly when no path is set and later deleted |
| Sharded.ShardedRootIsRoutedExactlyWhen | sharded.go:248-321 | so does the combined root |
| Sharded.BulkBesideOneByOne | sharded.go:103-109 | a sharded BulkUpdate under any schedule and a loop of Update calls, on two sharded tree objects with the same maps, end with the same maps and the same combined root if and only if no path is set and later deleted |
| Sharded.ShardedSMT.ComputeRoot | sharded.go:330-352 | the balanced root of the shard maps' roots, from which the bits of an index lead to that shard's root |
| Sharded.ShardedSMT.BulkUpdate | sharded.go:248-321 | for every chunking and every order of completion: each shard gets the state of its bucket's bulk map, and the combined root is returned; every pair goes to the shard of its routing byte's stretch and to no other |
| Sharded.ShardedSMT.Update | sharded.go:103-109 | one shard's map changes at one path, and the combined root is returned; the shard is that of the routing byte's stretch |
| Sharded.ShardedSMT.Get | sharded.go:112-115 | the value bound in the path's shard, which is that of the routing byte's stretch |
| Arena.ToFixedKey | mapstore_fixed.go:27-33 | a key is taken exactly when it has 32 bytes |
| Arena.ArenaFixedSizeMap.constructor | mapstore_arena.go:55-63 | an empty map, with slabs of at least 64 bytes |
| Arena.ArenaFixedSizeMap.Get | mapstore_arena.go:65-71 | for any entries: missing key, slice out of range (the end being a 32-bit sum), or a view; on a valid arena the bytes of the map's value, in a written part of a slab, and never a panic |
| Arena.ArenaFixedSizeMap.Set | mapstore_arena.go:73-96 | panics exactly for the empty value without a slab; otherwise exactly the value is appended to the last slab, a new one if it must open one, and the arena is the map with the key set if and only if the value lands, told before the call; no byte ever written changes, across slab rollover and oversized values; a slab is opened exactly when the value does not fit, of the arena's size or the value's if larger; entry and range in numbers |
| Arena.Appended | mapstore_arena.go:90-94 | the 32-bit entry of an appended value shows it exactly when it lands: its range ends below 2^32, and where slab number or offset is cut off the older place named holds the same bytes |
| Arena.ArenaFixedSizeMap.FitsIsLands | mapstore_arena.go:90-94 | while slab number and offset are below 2^32, a value lands exactly when its range ends below 2^32 |
| Arena.EachFitsIsNotEnough | mapstore_arena.go:65-71 | an offset and a length below 2^32 whose sum is not: the entry is exact and the value does not land |
| Arena.SetThenGet | mapstore_arena.go:65-96 | Set at such an offset and then Get of the key: the slice is out of range |
| Arena.ArenaFixedSizeMap.Delete | mapstore_arena.go:98-105 | the map without the key, or an invalid key |
| Arena.ArenaFixedSizeMap.Reset | mapstore_arena.go:125-129 | the empty map, without slabs |
| Arena.RunArena | mapstore_arena.go:65-129 | over any run of Set, Get, Delete and Reset, up to the first Set that does not fit, every answer and the contents are those of a plain map |
| Utils.SetBitAtFromMSB | utils.go:12-16 | sets that bit and no other |
| Utils.CountSetBits | utils.go:18-26 | the number of set bits of the whole string, as a cardinality |
| Utils.SetBitsBelowPrefix | utils.go:18-26 | a shorter count agrees exactly when the bits in between are clear |
| Utils.CountCommonPrefix | utils.go:28-38 | the length of the longest common bit prefix |
| Utils.ReverseByteSlicesInPlace | utils.go:50-54 | the reversed sequence |
| Utils.CompareByBits | bulk.go:274-277 | byte order is decided by the first differing bit |
| Utils.BitMonotone | bulk.go:274-277 | over strings in byte order that share their first d bits, bit d never falls |

## Left out

- SparseMerkleTrees.SparseMerkleTree.UpdateForRoot: the stores must be a part of the tree with the given root; one pair of stores that holds several trees at once is not modelled.
- Bulk.BulkUpdate: only on complete trees, because it needs values of unrelated leaves that proofs do not carry (bulk.go:258).
- DeepSubtrees.AddBranch: over symbolic digests; unrelated leaf data are given by the fields that parsing reads, and sibling data by a datum. `ByteSubtrees` has it over arbitrary bytes.
- ByteTrees.ByteTree.Update: at the current root only, and with a fresh slice for every digest; other roots and the two reused buffers are proved in the symbolic tree.
- ByteBulk.BulkUpdateBytes: on complete trees only, like the symbolic one.
- Hash functions themselves, and the hashing of keys to paths: paths stand for keys, and the routing byte of a key is a function of its path.
- `slices.SortStableFunc`, `sort.Search` and `bytes.Compare` are library code; each is written out from its documented behaviour.
- Pools: scratch buffers arrive with arbitrary contents, and shard buckets empty.
- Goroutines: shard updates and index chunks are whole steps taken in any order; they share no state.
- Store failures other than a missing key, imported trees whose stores do not match their root, and the two plain map stores, for which Dafny's map stands.
- Options, `Has` and `HasDescend`, `Equal`, `SlabBytes`, fuzz drivers and benchmarks.
