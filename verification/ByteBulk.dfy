// Batched update over real bytes and any hash function (bulk.go), runs of calls over bytes, and
// what becomes of a run when two digests coincide.
module ByteBulk {
  import opened Utils
  import opened TreeHasher
  import opened Trees
  import opened Writes
  import opened States
  import opened Encoding
  import opened Proofs
  import opened Reference
  import opened Batches
  import opened ByteTrees
  import opened Bulk
  import Runs

  // buildSubtree
  method BuildSubtreeBytes(t: ByteTree, depth: nat, kvs: seq<KV>, ghost u: set<Digest>) returns (hash: Bytes)
    requires t.Mirrored(u) && BatchAt(kvs, depth) && Reach(Built(kvs, depth)) <= u
    modifies t`nodes, t`keys, t`values
    ensures hash == DigestBytes(t.h, Built(kvs, depth))
    ensures t.Mirrored(u) && t.keys == old(t.keys) + Reach(Built(kvs, depth))
    ensures t.values == old(t.values) + MapOf(kvs)
    decreases Depth - depth, 0
  {
    hide Right, AgreeBelow, Canonical, Bindings, Built, MapOf, BatchAt, Half, Reach, Mirrors, DigestBytes, DataBytes;
    hide Sorted, TogetherKVs, Single, Storable, StrictlySorted, Together;
    BatchDepth(kvs, depth);
    ZeroInBytes(t.h);
    if |kvs| == 0 {
      NothingBuilt(kvs, depth);
      return Placeholder();
    }
    if |kvs| == 1 {
      OneBuilt(kvs, depth);
      var kv := kvs[0];
      LeafInBytes(t.h, kv.path, kv.value);
      var valueHash := t.h(kv.value);
      hash := t.h(LeafBytes(kv.path, valueHash));
      t.SetNode(hash, LeafBytes(kv.path, valueHash), LeafOf(kv.path, kv.value), u);
      t.values := t.values[kv.path := kv.value];
      return;
    }
    ManyParts(kvs, depth);
    var splitIdx := PartitionByBit(kvs, depth);
    var leftKVs, rightKVs := kvs[..splitIdx], kvs[splitIdx..];
    PartsAreBatches(kvs, depth, splitIdx);
    BuiltFromParts(kvs, leftKVs, rightKVs, depth);
    MapsAssociate(t.values, MapOf(leftKVs), MapOf(rightKVs));
    var leftHash := BuildPartBytes(t, depth + 1, leftKVs, u);
    var rightHash := BuildPartBytes(t, depth + 1, rightKVs, u);
    NodeOfInBytes(t.h, Built(leftKVs, depth + 1), Built(rightKVs, depth + 1));
    hash := t.h(NodeBytes(leftHash, rightHash));
    t.SetNode(hash, NodeBytes(leftHash, rightHash), Built(kvs, depth), u);
  }

  // One side of a split: an empty one is the placeholder.
  method BuildPartBytes(t: ByteTree, depth: nat, kvs: seq<KV>, ghost u: set<Digest>) returns (hash: Bytes)
    requires t.Mirrored(u) && BatchAt(kvs, depth) && Reach(Built(kvs, depth)) <= u
    modifies t`nodes, t`keys, t`values
    ensures hash == DigestBytes(t.h, Built(kvs, depth))
    ensures t.Mirrored(u) && t.keys == old(t.keys) + Reach(Built(kvs, depth))
    ensures t.values == old(t.values) + MapOf(kvs)
    decreases Depth - depth, 1
  {
    hide Mirrors, Built, BatchAt, Reach, DigestBytes;
    if |kvs| == 0 {
      NothingBuilt(kvs, depth);
      ZeroInBytes(t.h);
      hash := Placeholder();
    } else {
      hash := BuildSubtreeBytes(t, depth, kvs, u);
    }
  }

  // mergeLeafWithKVs
  method MergeLeafBytes(t: ByteTree, currentHash: Bytes, leafData: Bytes, depth: nat, kvs: seq<KV>,
                        ghost x: Digest, ghost u: set<Digest>) returns (hash: Bytes)
    requires t.Mirrored(u) && Applies(t.keys, t.values, x, depth, kvs) && IsLeaf(x) && |kvs| > 0
    requires currentHash == DigestBytes(t.h, x) && leafData == DataBytes(t.h, x.preimage)
    requires Reach(Applied(x, depth, kvs)) <= u
    modifies t`nodes, t`keys, t`values
    ensures hash == DigestBytes(t.h, Applied(x, depth, kvs))
    ensures t.Mirrored(u) && t.keys == (old(t.keys) - Reach(x)) + Reach(Applied(x, depth, kvs))
    ensures t.values == old(t.values) + MapOf(kvs)
  {
    hide Right, AgreeBelow, Canonical, Canon, MapOf, StrictlySorted, Together, Storable, Compare, Bindings;
    hide Mirrors, DigestBytes, DataBytes, Applied;
    LeafAlone(x, depth);
    DataReadBack(t.h, x);
    var (leafPath, existingValueHash) := ParseLeaf(leafData);
    var shadowed := false;
    var i := 0;
    while i < |kvs|
      invariant i <= |kvs| && !shadowed
      invariant forall j | 0 <= j < i :: kvs[j].path != leafPath
    {
      if kvs[i].path == leafPath {
        shadowed := true;
        break;
      }
      i := i + 1;
    }
    if shadowed && |kvs| == 1 {
      var newValueHash := t.h(kvs[0].value);
      OneOverLeaf(t.h, t.nodes, t.keys, t.values, u, x, depth, kvs);
      if existingValueHash == newValueHash {
        SameLeaf(t.values, x, depth, kvs);
        return currentHash;
      }
    }
    t.DeleteNode(currentHash, x, u);
    var merged := kvs;
    if !shadowed {
      assert leafPath in t.values;
      var oldValue := t.values[leafPath];
      var insertIdx := Search(|kvs|, (k: nat) requires k < |kvs| => Compare(kvs[k].path, leafPath) >= 0);
      merged := kvs[..insertIdx] + [KV(leafPath, oldValue)] + kvs[insertIdx..];
      InsertedLeaf(kvs, insertIdx, KV(leafPath, oldValue));
      MergedValues(t.values, x, depth, kvs, merged);
    } else {
      ShadowedLeaf(x, depth, kvs, i);
    }
    MergedIsBatch(x, depth, kvs, merged);
    hash := BuildSubtreeBytes(t, depth, merged, u);
  }

  // One entry for the leaf's own path: its value hash tells whether the leaf stays.
  lemma OneOverLeaf(h: HashFunction, nodes: map<Bytes, Bytes>, keys: set<Digest>, values: Map, u: set<Digest>,
                    x: Digest, d: nat, kvs: seq<KV>)
    requires Mirrors(h, nodes, keys, u) && Applies(keys, values, x, d, kvs) && IsLeaf(x) && |kvs| == 1
    requires kvs[0].path == x.preimage.path && Reach(Applied(x, d, kvs)) <= u
    ensures h(kvs[0].value) == DigestBytes(h, x.preimage.valueHash) <==> x == LeafOf(kvs[0].path, kvs[0].value)
  {
    hide Right, AgreeBelow, Canonical, Canon, MapOf, StrictlySorted, Together, Storable, Compare, Bindings;
    hide Mirrors, DigestBytes, DataBytes, Applied;
    LeafAlone(x, d);
    ShadowedLeaf(x, d, kvs, 0);
    MergedIsBatch(x, d, kvs, kvs);
    OneBuilt(kvs, d);
    LeafInBytes(h, kvs[0].path, Bindings(x)[kvs[0].path]);
    SameValueHash(h, nodes, keys, u, kvs[0].path, Bindings(x)[kvs[0].path], kvs[0].value);
  }

  // bulkApplyAtRoot
  method BulkApplyBytes(t: ByteTree, currentHash: Bytes, depth: nat, kvs: seq<KV>, ghost x: Digest,
                        ghost u: set<Digest>)
    returns (hash: Bytes)
    requires t.Mirrored(u) && Applies(t.keys, t.values, x, depth, kvs) && currentHash == DigestBytes(t.h, x)
    requires Reach(Applied(x, depth, kvs)) <= u
    modifies t`nodes, t`keys, t`values
    ensures hash == DigestBytes(t.h, Applied(x, depth, kvs))
    ensures t.Mirrored(u) && t.keys == (old(t.keys) - Reach(x)) + Reach(Applied(x, depth, kvs))
    ensures t.values == old(t.values) + MapOf(kvs)
    decreases Depth - depth
  {
    hide Right, AgreeBelow, Canonical, Canon, MapOf, StrictlySorted, Together, Storable, Bindings, Reach;
    hide Mirrors, DigestBytes, DataBytes, Applied, Placeholder;
    if |kvs| == 0 {
      NothingApplied(t.keys, t.values, x, depth, kvs);
      return currentHash;
    }
    StoredOrZero(t.keys, t.values, x, depth, kvs);
    MirrorsMet(t.h, t.nodes, t.keys, u, x);
    if currentHash == Placeholder() {
      BuiltIsApplied(kvs, depth);
      hash := BuildSubtreeBytes(t, depth, kvs, u);
      return;
    }
    FetchesKnown(t.keys, t.values, x, depth, kvs);
    var nodeData := t.GetNode(currentHash, x, u);
    DataReadBack(t.h, x);
    if IsLeafBytes(nodeData) {
      hash := MergeLeafBytes(t, currentHash, nodeData, depth, kvs, x, u);
      return;
    }
    var (leftHash, rightHash) := ParseNode(nodeData);
    ghost var l, r := x.preimage.left, x.preimage.right;
    EntriesTogether(x, depth, kvs);
    var splitIdx := PartitionByBit(kvs, depth);
    var leftKVs, rightKVs := kvs[..splitIdx], kvs[splitIdx..];
    ghost var keys, values := t.keys, t.values;
    ghost var l', r' := Applied(l, depth + 1, leftKVs), Applied(r, depth + 1, rightKVs);
    LeftApplies(keys, values, x, depth, kvs, splitIdx);
    RightApplies(keys, values, x, depth, kvs, splitIdx);
    NodeApplied(keys, values, x, depth, kvs, splitIdx);
    AppliedIsCanonical(keys, values, l, depth + 1, leftKVs);
    AppliedIsCanonical(keys, values, r, depth + 1, rightKVs);
    ReachOfPair(l', r');
    ChildrenMet(t.h, t.nodes, keys, values, u, x, depth, kvs, l', r');
    var newLeft := BulkApplyBytes(t, leftHash, depth + 1, leftKVs, l, u);
    var newRight := BulkApplyBytes(t, rightHash, depth + 1, rightKVs, r, u);
    if newLeft == leftHash && newRight == rightHash {
      return currentHash;
    }
    t.DeleteNode(currentHash, x, u);
    NodeOfInBytes(t.h, l', r');
    hash := t.h(NodeBytes(newLeft, newRight));
    t.SetNode(hash, NodeBytes(newLeft, newRight), NodeOf(l', r'), u);
  }

  lemma StoredOrZero(keys: set<Digest>, values: Map, h: Digest, d: nat, kvs: seq<KV>)
    requires Applies(keys, values, h, d, kvs)
    ensures h.Zero? || h in keys
  {
    SelfReach(h, d);
  }

  // The children's digests tell whether the children changed.
  lemma ChildrenMet(h: HashFunction, nodes: map<Bytes, Bytes>, keys: set<Digest>, values: Map, u: set<Digest>,
                    x: Digest, d: nat, kvs: seq<KV>, l': Digest, r': Digest)
    requires Mirrors(h, nodes, keys, u) && Applies(keys, values, x, d, kvs) && IsNode(x)
    requires Reach(l') <= u && Reach(r') <= u && Canonical(l', d + 1) && Canonical(r', d + 1)
    ensures DigestBytes(h, l') == DigestBytes(h, x.preimage.left) <==> l' == x.preimage.left
    ensures DigestBytes(h, r') == DigestBytes(h, x.preimage.right) <==> r' == x.preimage.right
  {
    hide Right, AgreeBelow, MapOf, StrictlySorted, Together, Storable, Bindings, IsImage, DigestBytes;
    NodeSides(x, d);
    SelfReach(l', d + 1);
    SelfReach(r', d + 1);
    SelfReach(x.preimage.left, d + 1);
    SelfReach(x.preimage.right, d + 1);
  }

  // ---- BulkUpdate ----

  // The digests of every state that a batched update goes through.
  ghost function DeleteDigests(m: Map, batch: seq<KV>): set<Digest> {
    Digests(Deleted(m, batch)) + if batch == [] then {} else DeleteDigests(m, batch[..|batch| - 1])
  }

  ghost function BulkDigests(m: Map, batch: seq<KV>): set<Digest> {
    DeleteDigests(m, batch) + Digests(BulkMap(m, batch))
  }

  lemma {:induction false} DeleteDigestsAt(m: Map, batch: seq<KV>, i: nat)
    requires i <= |batch|
    ensures Digests(Deleted(m, batch[..i])) <= DeleteDigests(m, batch)
    decreases |batch|
  {
    hide Deleted, Digests;
    if i == |batch| {
      assert batch[..i] == batch;
    } else {
      assert batch[..|batch| - 1][..i] == batch[..i];
      DeleteDigestsAt(m, batch[..|batch| - 1], i);
    }
  }

  // BulkUpdate: the stores go from the image of one map's state to that of the batch's map.
  method BulkUpdateBytes(t: ByteTree, keys: seq<Path>, values: seq<Bytes>, ghost u: set<Digest>)
    returns (res: Result<Bytes>)
    requires t.Valid() && Free(t.h, u)
    requires |keys| == |values| ==> BulkDigests(t.values, Batch(keys, values)) <= u
    modifies t
    ensures |keys| != |values| ==> res == Err(BulkInputMismatch) && unchanged(t)
    ensures |keys| == |values| ==>
      t.Valid() && t.values == BulkMap(old(t.values), Batch(keys, values)) && res == Ok(t.root)
    ensures |keys| == |values| ==> forall p: Path :: BulkedAt(keys, values, old(t.values), t.values, p)
    ensures |keys| == |values| ==> t.root == MerkleRoot(t.h, t.values, 0)
  {
    hide Right, AgreeBelow, Canonical, Canon, MapOf, Sorted, StrictlySorted, Batch, Reach, Free, IsImage, Storable;
    hide DigestBytes, RootOf, DeleteDigests, Digests, BulkedAt, MerkleRoot;
    if |keys| != |values| {
      return Err(BulkInputMismatch);
    }
    ghost var before, batch := t.values, Batch(keys, values);
    forall p: Path ensures BulkedAt(keys, values, before, BulkMap(before, batch), p) {
      BulkMapAt(keys, values, before, p);
    }
    RootIsMerkleRoot(t.h, BulkMap(before, batch));
    if |keys| == 0 {
      NothingInBatch(before, keys, values);
      return Ok(t.root);
    }
    DeleteEachBytes(t, keys, values, u);
    var kvs := CollectSets(keys, values);
    if |kvs| == 0 {
      NoSets(before, batch);
      return Ok(t.root);
    }
    var sorted := SortStable(kvs);
    var slice := new KV[|sorted|](i requires 0 <= i < |sorted| => sorted[i]);
    assert slice[..] == sorted;
    var w := Dedup(slice);
    StablyEqualMaps(sorted, kvs);
    SetsAreStorable(batch);
    assert batch[..|batch|] == batch;
    DeleteDigestsAt(before, batch, |batch|);
    ApplyAtRoot(t, slice[..w], u);
    return Ok(t.root);
  }

  lemma NothingInBatch(m: Map, keys: seq<Path>, values: seq<Bytes>)
    requires |keys| == |values| == 0
    ensures BulkMap(m, Batch(keys, values)) == m
  {
    assert Batch(keys, values) == [];
  }

  method ApplyAtRoot(t: ByteTree, kvs: seq<KV>, ghost u: set<Digest>)
    requires t.Valid() && Free(t.h, u) && StrictlySorted(kvs) && Storable(MapOf(kvs))
    requires Digests(t.values) + Digests(t.values + MapOf(kvs)) <= u
    modifies t
    ensures t.Valid() && t.values == old(t.values) + MapOf(kvs)
  {
    hide Right, AgreeBelow, Canonical, Canon, MapOf, StrictlySorted, Reach, Free, IsImage, DigestBytes, Bindings;
    ghost var s, x := StateOf(t.values), RootOf(t.values);
    ExactStateOf(t.values);
    ReachKeys(t.values);
    RootApplies(s, kvs);
    AppliedAtRoot(t.values, kvs);
    assert t.Mirrored(u);
    t.root := BulkApplyBytes(t, t.root, 0, kvs, x, u);
    t.tree := Applied(x, 0, kvs);
  }

  lemma ReachKeys(m: Map)
    requires Storable(m)
    ensures StateOf(m).nodes.Keys == Reach(RootOf(m)) && StateOf(m).root == RootOf(m) && StateOf(m).values == m
  {
    hide Right, AgreeBelow, Canonical, Canon, Bindings;
    RootIsCanonical(m);
    ReachIsHashed(RootOf(m), 0);
  }

  lemma AppliedAtRoot(m: Map, kvs: seq<KV>)
    requires Storable(m) && Storable(MapOf(kvs))
    ensures Applied(RootOf(m), 0, kvs) == RootOf(m + MapOf(kvs)) && Storable(m + MapOf(kvs))
  {
    hide Right, AgreeBelow, Canonical, Canon, MapOf, Bindings;
    RootIsCanonical(m);
    UnderRoot(m + MapOf(kvs), seq(PathSize, i => 0));
  }

  // Update on a complete tree; with the empty value, Delete.
  method UpdateComplete(t: ByteTree, path: Path, value: Bytes, ghost u: set<Digest>)
    requires t.Valid() && Free(t.h, u) && Digests(t.values) + Digests(Write(t.values, path, value)) <= u
    modifies t
    ensures t.Valid() && t.values == Write(old(t.values), path, value)
  {
    hide Free, Reach, RootOf, IsImage, Storable, DigestBytes, Write, Mirrors, Canonical, Bindings, Ready, AfterWrite;
    t.ValidSimulates(u);
    RootIsCanonical(t.values);
    var updated := t.Update(path, value, u);
    assert updated.Ok?;
  }

  method DeleteEachBytes(t: ByteTree, keys: seq<Path>, values: seq<Bytes>, ghost u: set<Digest>)
    requires t.Valid() && |keys| == |values| && Free(t.h, u)
    requires DeleteDigests(t.values, Batch(keys, values)) <= u
    modifies t
    ensures t.Valid() && t.values == Deleted(old(t.values), Batch(keys, values))
  {
    hide Free, DeleteDigests, Digests, IsImage, Storable, RootOf, Reach, Deleted, Batch, Write;
    ghost var before, batch := t.values, Batch(keys, values);
    NoneDeleted(before, batch);
    var i := 0;
    while i < |keys|
      invariant i <= |keys| && t.Valid() && t.values == Deleted(before, batch[..i])
    {
      OneMoreDeleted(before, batch, i);
      DeleteDigestsAt(before, batch, i);
      DeleteDigestsAt(before, batch, i + 1);
      if values[i] == DefaultValue {
        UpdateComplete(t, keys[i], DefaultValue, u);
      }
      i := i + 1;
    }
    assert batch[..i] == batch;
  }

  lemma NoneDeleted(m: Map, batch: seq<KV>)
    ensures Deleted(m, batch[..0]) == m
  {
  }

  lemma OneMoreDeleted(m: Map, batch: seq<KV>, i: nat)
    requires i < |batch|
    ensures Deleted(m, batch[..i + 1]) ==
      if batch[i].value == DefaultValue then Write(Deleted(m, batch[..i]), batch[i].path, DefaultValue)
      else Deleted(m, batch[..i])
  {
    assert batch[..i + 1][..i] == batch[..i];
  }

  // ---- Runs ----

  // The digests of every state that a run goes through.
  ghost function CallDigests(m: Map, call: Runs.Call): set<Digest> {
    match call
    case Update(p, v) => Digests(m) + Digests(Write(m, p, v))
    case BulkUpdate(batch) => BulkDigests(m, batch)
  }

  ghost function RunDigests(m: Map, calls: seq<Runs.Call>): set<Digest> {
    if calls == [] then Digests(m)
    else
      var front := calls[..|calls| - 1];
      RunDigests(m, front) + CallDigests(Runs.MapAfter(m, front), calls[|calls| - 1])
  }

  lemma {:induction false} RunDigestsAt(m: Map, calls: seq<Runs.Call>, i: nat)
    requires i < |calls|
    ensures CallDigests(Runs.MapAfter(m, calls[..i]), calls[i]) <= RunDigests(m, calls)
    decreases |calls|
  {
    hide CallDigests, Runs.MapAfter;
    if i < |calls| - 1 {
      assert calls[..|calls| - 1][..i] == calls[..i];
      RunDigestsAt(m, calls[..|calls| - 1], i);
    }
  }

  // A run over bytes: as long as the digests it goes through stay apart under the hash function,
  // no store operation fails, every root returned is that of the map so far, and the stores end as
  // the image of the state of the last map.
  method RunBytes(t: ByteTree, calls: seq<Runs.Call>) returns (roots: seq<Bytes>)
    requires t.Valid() && Free(t.h, RunDigests(t.values, calls))
    modifies t
    ensures t.Valid() && t.values == Runs.MapAfter(old(t.values), calls) && |roots| == |calls|
    ensures forall i | 0 <= i < |calls| ::
      roots[i] == MerkleRoot(t.h, Runs.MapAfter(old(t.values), calls[..i + 1]), 0)
  {
    hide MerkleRoot, Free, Reach, RootOf, IsImage, Storable, Digests, DigestBytes, RunDigests, Runs.MapAfterCall;
    hide Write, BulkMap;
    ghost var m, u := t.values, RunDigests(t.values, calls);
    roots := [];
    var i := 0;
    while i < |calls|
      invariant i <= |calls| && t.Valid() && t.values == Runs.MapAfter(m, calls[..i]) && |roots| == i
      invariant forall j | 0 <= j < i :: roots[j] == MerkleRoot(t.h, Runs.MapAfter(m, calls[..j + 1]), 0)
    {
      assert calls[..i + 1][..i] == calls[..i];
      RunDigestsAt(m, calls, i);
      CallBytes(t, calls[i], u);
      RootIsMerkleRoot(t.h, t.values);
      roots := roots + [t.root];
      i := i + 1;
    }
    assert calls[..i] == calls;
  }

  method CallBytes(t: ByteTree, call: Runs.Call, ghost u: set<Digest>)
    requires t.Valid() && Free(t.h, u) && CallDigests(t.values, call) <= u
    modifies t
    ensures t.Valid() && t.values == Runs.MapAfterCall(old(t.values), call)
  {
    hide Free, Reach, RootOf, IsImage, Storable, DigestBytes, Write, BulkMap, BulkDigests, Digests;
    match call {
      case Update(p, v) =>
        UpdateComplete(t, p, v, u);
      case BulkUpdate(batch) =>
        Runs.PairedUp(batch);
        var newRoot := BulkUpdateBytes(t, Runs.PathsOf(batch), Runs.ValuesOf(batch), u);
    }
  }

  // ---- When digests coincide ----

  ghost predicate InTrees(u: set<Digest>) {
    forall x | x in u :: x.Zero? || exists d: nat :: Canonical(x, d)
  }

  lemma DigestsInTrees(m: Map)
    requires Storable(m)
    ensures InTrees(Digests(m))
  {
    hide Right, AgreeBelow, Canonical, Canon, Bindings;
    RootIsCanonical(m);
    UnderRoot(m, seq(PathSize, i => 0));
    forall x | x in Digests(m) ensures x.Zero? || exists d: nat :: Canonical(x, d) {
      if x.Hash? { var e := ReachDepth(RootOf(m), 0, x); }
    }
  }

  lemma {:induction false} DeleteDigestsInTrees(m: Map, batch: seq<KV>)
    requires Storable(m)
    ensures InTrees(DeleteDigests(m, batch))
  {
    hide Canonical, Digests, Deleted;
    DeletedShrinks(m, batch);
    DigestsInTrees(Deleted(m, batch));
    if batch != [] { DeleteDigestsInTrees(m, batch[..|batch| - 1]); }
  }

  lemma {:induction false} RunDigestsInTrees(m: Map, calls: seq<Runs.Call>)
    requires Storable(m)
    ensures InTrees(RunDigests(m, calls)) && Storable(Runs.MapAfter(m, calls))
  {
    hide Canonical, Digests, Storable, Deleted, DeleteDigests, InTrees;
    if calls == [] {
      DigestsInTrees(m);
    } else {
      var front := calls[..|calls| - 1];
      RunDigestsInTrees(m, front);
      CallDigestsInTrees(Runs.MapAfter(m, front), calls[|calls| - 1]);
      BothInTrees(RunDigests(m, front), CallDigests(Runs.MapAfter(m, front), calls[|calls| - 1]));
    }
  }

  lemma CallDigestsInTrees(m: Map, call: Runs.Call)
    requires Storable(m)
    ensures InTrees(CallDigests(m, call)) && Storable(Runs.MapAfterCall(m, call))
  {
    hide Canonical, Digests, DeleteDigests, InTrees, BulkMap;
    match call {
      case Update(p, v) =>
        DigestsInTrees(m);
        DigestsInTrees(Write(m, p, v));
        BothInTrees(Digests(m), Digests(Write(m, p, v)));
      case BulkUpdate(batch) =>
        BulkMapIsStorable(m, batch);
        DeleteDigestsInTrees(m, batch);
        DigestsInTrees(BulkMap(m, batch));
        BothInTrees(DeleteDigests(m, batch), Digests(BulkMap(m, batch)));
    }
  }

  lemma BothInTrees(u: set<Digest>, w: set<Digest>)
    requires InTrees(u) && InTrees(w)
    ensures InTrees(u + w)
  {
    hide Canonical;
  }

  // Either no two digests of a set coincide under the hash function, or there are two that do, and
  // following these two down gives a collision or a preimage of the placeholder.
  lemma FreeOrDiffer(h: HashFunction, u: set<Digest>) returns (x: Digest, y: Digest)
    requires InTrees(u) && Zero in u
    ensures x in u && y in u && DigestBytes(h, x) == DigestBytes(h, y) && (x == y <==> Free(h, u))
    ensures Genuine(h, Differ(h, x, y)) && (Differ(h, x, y).Sound? <==> x == y)
  {
    hide Canonical, Differ;
    x, y := Zero, Zero;
    if !Free(h, u) {
      x, y :| x in u && y in u && DigestBytes(h, x) == DigestBytes(h, y) && x != y;
    }
    var d := DepthOf(u, x);
    var e := DepthOf(u, y);
    DifferFinds(h, x, y, d, e);
    SameDoNotDiffer(h, x);
  }

  // The same of the digests of a run.
  lemma RunIsImageOrCollision(h: HashFunction, m: Map, calls: seq<Runs.Call>) returns (x: Digest, y: Digest)
    requires Storable(m)
    ensures var u := RunDigests(m, calls);
      && x in u && y in u && DigestBytes(h, x) == DigestBytes(h, y) && (x == y <==> Free(h, u))
    ensures Genuine(h, Differ(h, x, y)) && (Differ(h, x, y).Sound? <==> x == y)
  {
    hide RunDigests, Differ, InTrees;
    RunDigestsInTrees(m, calls);
    ZeroInRun(m, calls);
    x, y := FreeOrDiffer(h, RunDigests(m, calls));
  }

  lemma SameDoNotDiffer(h: HashFunction, x: Digest)
    ensures Differ(h, x, x).Sound?
  {
  }

  lemma {:induction false} ZeroInRun(m: Map, calls: seq<Runs.Call>)
    ensures Zero in RunDigests(m, calls)
  {
    if calls != [] { ZeroInRun(m, calls[..|calls| - 1]); }
  }

  lemma DepthOf(u: set<Digest>, x: Digest) returns (d: nat)
    requires InTrees(u) && x in u
    ensures Canonical(x, d)
  {
    if x.Zero? { d := 0; } else { d :| Canonical(x, d); }
  }
}
