// Batched update in one recursive walk (bulk.go), on a complete tree.
module Bulk {
  import opened Utils
  import opened TreeHasher
  import opened Trees
  import opened Writes
  import opened States
  import opened SparseMerkleTrees
  import opened Batches

  // ---- One digest, one position ----

  // An inner node has the shape of one depth only: below a deeper position its paths could no
  // longer part where it makes them part.
  lemma {:induction false} NodeDepthIsFixed(t: Digest, d: nat, e: nat)
    requires Canonical(t, d) && Canonical(t, e) && IsNode(t) && d < e <= Depth
    ensures !Together(Bindings(t), e)
    decreases t
  {
    hide Right, AgreeBelow;
    if Together(Bindings(t), e) {
      var l, r := t.preimage.left, t.preimage.right;
      NodeBindsTwo(l, d + 1);
      NodeBindsTwo(r, d + 1);
      OneSideOnly(t, d, e);
      var c := if l.Zero? then r else l;
      assert Bindings(c) == Bindings(t) by { LightIsSmall(Zero, d); }
      StillTogether(t, c, e);
      NodeDepthIsFixed(c, d + 1, e + 1);
    }
  }

  lemma OneSideOnly(t: Digest, d: nat, e: nat)
    requires Canonical(t, d) && IsNode(t) && d < e <= Depth && Together(Bindings(t), e)
    requires Bindings(t.preimage.left) == map[] <==> t.preimage.left.Zero?
    requires Bindings(t.preimage.right) == map[] <==> t.preimage.right.Zero?
    ensures t.preimage.left.Zero? || t.preimage.right.Zero?
  {
    hide AgreeBelow, GetBitAtFromMSB;
    var l, r := Bindings(t.preimage.left), Bindings(t.preimage.right);
    if l != map[] && r != map[] {
      var p :| p in l;
      var q :| q in r;
      assert p in Bindings(t) && q in Bindings(t);
      TurnsAgree(p, q, e, d);
    }
  }

  lemma TurnsAgree(p: Path, q: Path, e: nat, d: nat)
    requires d < e <= Depth && SameWay(p, q, e)
    ensures Right(p, d) == Right(q, d)
  {
  }

  lemma StillTogether(t: Digest, c: Digest, e: nat)
    requires Canonical(t, e) && IsNode(t) && Together(Bindings(t), e) && Bindings(c) == Bindings(t)
    requires t.preimage.left.Zero? || t.preimage.right.Zero?
    ensures e < Depth && Together(Bindings(c), e + 1)
  {
    hide Right, AgreeBelow;
    LightIsSmall(Zero, e);
    forall p, q | p in Bindings(c) && q in Bindings(c) ensures SameWay(p, q, e + 1) {
      SameWayOneMore(p, q, e);
    }
  }

  lemma {:induction false} ReachDepth(t: Digest, d: nat, x: Digest) returns (e: nat)
    requires d <= Depth && Canonical(t, d) && Together(Bindings(t), d) && x in Reach(t)
    ensures d <= e <= Depth && Canonical(x, e) && Together(Bindings(x), e)
    decreases t
  {
    hide Right, AgreeBelow;
    if x == t {
      e := d;
    } else {
      ChildrenTogether(t, d);
      if x in Reach(t.preimage.left) {
        e := ReachDepth(t.preimage.left, d + 1, x);
      } else {
        e := ReachDepth(t.preimage.right, d + 1, x);
      }
    }
  }

  lemma ChildrenTogether(t: Digest, d: nat)
    requires d <= Depth && Canonical(t, d) && IsNode(t) && Together(Bindings(t), d)
    ensures d < Depth
    ensures Together(Bindings(t.preimage.left), d + 1) && Together(Bindings(t.preimage.right), d + 1)
  {
    hide Right, AgreeBelow;
    HalvesOfNode(t, d);
    HalfTogether(Bindings(t), d, false);
    HalfTogether(Bindings(t), d, true);
  }

  // The node at depth d does not occur in a tree one level further down.
  lemma NotFurtherDown(t: Digest, d: nat, u: Digest)
    requires d < Depth && Canonical(t, d) && IsNode(t)
    requires Canonical(u, d + 1) && Together(Bindings(u), d + 1)
    ensures t !in Reach(u)
  {
    hide Right, AgreeBelow, Canonical, Bindings;
    if t in Reach(u) {
      var e := ReachDepth(u, d + 1, t);
      NodeDepthIsFixed(t, d, e);
    }
  }

  // ---- Building a subtree ----

  ghost predicate Stores(t: SparseMerkleTree)
    reads t
  {
    t.nodes == Store(t.nodes.Keys)
  }

  ghost predicate BatchAt(kvs: seq<KV>, d: nat) {
    d <= Depth && StrictlySorted(kvs) && Storable(MapOf(kvs)) && Together(MapOf(kvs), d)
  }

  ghost function Built(kvs: seq<KV>, d: nat): Digest
    requires BatchAt(kvs, d)
  {
    Canon(MapOf(kvs), d)
  }

  // buildSubtree: the canonical subtree of the batch's map, with every node and value stored.
  // No bit past the end of a path is read: two entries left means depth < Depth.
  method BuildSubtree(t: SparseMerkleTree, depth: nat, kvs: seq<KV>) returns (hash: Digest)
    requires Stores(t) && BatchAt(kvs, depth)
    modifies t`nodes, t`values
    ensures hash == Built(kvs, depth)
    ensures Stores(t) && t.nodes.Keys == old(t.nodes.Keys) + Reach(hash)
    ensures t.values == old(t.values) + MapOf(kvs)
    decreases Depth - depth, 0
  {
    hide Right, AgreeBelow, Canonical, Bindings, Built, MapOf, BatchAt, Store, Half, Reach;
    hide Sorted, TogetherKVs, Single, Storable, StrictlySorted, Together;
    BatchDepth(kvs, depth);
    if |kvs| == 0 {
      NothingBuilt(kvs, depth);
      return Zero;
    }
    if |kvs| == 1 {
      OneBuilt(kvs, depth);
      var kv := kvs[0];
      var valueHash := Hash(Raw(kv.value));
      hash := Hash(LeafData(kv.path, valueHash));
      t.SetNode(hash, LeafData(kv.path, valueHash));
      t.values := t.values[kv.path := kv.value];
      return;
    }
    ManyParts(kvs, depth);
    var splitIdx := PartitionByBit(kvs, depth);
    var leftKVs, rightKVs := kvs[..splitIdx], kvs[splitIdx..];
    PartsAreBatches(kvs, depth, splitIdx);
    BuiltFromParts(kvs, leftKVs, rightKVs, depth);
    MapsAssociate(t.values, MapOf(leftKVs), MapOf(rightKVs));
    var leftHash := BuildPart(t, depth + 1, leftKVs);
    var rightHash := BuildPart(t, depth + 1, rightKVs);
    hash := NodeOf(leftHash, rightHash);
    t.SetNode(hash, NodeData(leftHash, rightHash));
  }

  // One side of a split: an empty one is the placeholder.
  method BuildPart(t: SparseMerkleTree, depth: nat, kvs: seq<KV>) returns (hash: Digest)
    requires Stores(t) && BatchAt(kvs, depth)
    modifies t`nodes, t`values
    ensures hash == Built(kvs, depth)
    ensures Stores(t) && t.nodes.Keys == old(t.nodes.Keys) + Reach(hash)
    ensures t.values == old(t.values) + MapOf(kvs)
    decreases Depth - depth, 1
  {
    if |kvs| == 0 {
      NothingBuilt(kvs, depth);
      hash := Zero;
    } else {
      hash := BuildSubtree(t, depth, kvs);
    }
  }

  lemma MapsAssociate(a: Map, b: Map, c: Map)
    ensures (a + b) + c == a + (b + c)
  {
  }

  lemma BatchDepth(kvs: seq<KV>, d: nat)
    requires BatchAt(kvs, d)
    ensures d <= Depth
  {
  }

  lemma NothingBuilt(kvs: seq<KV>, d: nat)
    requires BatchAt(kvs, d) && kvs == []
    ensures MapOf(kvs) == map[] && Built(kvs, d) == Zero && Reach(Zero) == {}
  {
  }

  lemma OneBuilt(kvs: seq<KV>, d: nat)
    requires BatchAt(kvs, d) && |kvs| == 1
    ensures MapOf(kvs) == map[kvs[0].path := kvs[0].value]
    ensures Built(kvs, d) == LeafOf(kvs[0].path, kvs[0].value)
    ensures Reach(Built(kvs, d)) == {Built(kvs, d)}
  {
    hide AgreeBelow, Right;
    assert kvs == [kvs[0]];
    MapOfOne(kvs[0]);
    assert IsOnly(MapOf(kvs), kvs[0].path);
  }

  // Two entries left: the paths have not ended, and the entries still agree above.
  lemma ManyParts(kvs: seq<KV>, d: nat)
    requires BatchAt(kvs, d) && |kvs| >= 2
    ensures d < Depth && Sorted(kvs) && TogetherKVs(kvs, d)
    ensures MapOf(kvs) != map[] && !Single(MapOf(kvs))
  {
    hide AgreeBelow, Right, Compare, MapOf;
    forall i, j | 0 <= i < |kvs| && 0 <= j < |kvs| ensures SameWay(kvs[i].path, kvs[j].path, d) {
      MemberInMap(kvs, i);
      MemberInMap(kvs, j);
    }
    MemberInMap(kvs, 0);
    MemberInMap(kvs, 1);
    CompareTotal(kvs[0].path, kvs[1].path);
    assert kvs[0].path != kvs[1].path;
    TogetherAtTheEnd(MapOf(kvs), d);
  }

  lemma PartsAreBatches(kvs: seq<KV>, d: nat, split: nat)
    requires BatchAt(kvs, d) && d < Depth && split <= |kvs|
    requires forall i | 0 <= i < split :: !Right(kvs[i].path, d)
    requires forall i | split <= i < |kvs| :: Right(kvs[i].path, d)
    ensures BatchAt(kvs[..split], d + 1) && BatchAt(kvs[split..], d + 1)
    ensures MapOf(kvs) == MapOf(kvs[..split]) + MapOf(kvs[split..])
    ensures Half(MapOf(kvs), d, false) == MapOf(kvs[..split])
    ensures Half(MapOf(kvs), d, true) == MapOf(kvs[split..])
  {
    hide AgreeBelow, Right, MapOf, Compare, Together, Half;
    HalvesOfBatch(kvs, d, split);
    HalfTogether(MapOf(kvs), d, false);
    HalfTogether(MapOf(kvs), d, true);
  }

  lemma BuiltFromParts(kvs: seq<KV>, a: seq<KV>, b: seq<KV>, d: nat)
    requires BatchAt(kvs, d) && d < Depth && BatchAt(a, d + 1) && BatchAt(b, d + 1)
    requires MapOf(kvs) != map[] && !Single(MapOf(kvs))
    requires Half(MapOf(kvs), d, false) == MapOf(a) && Half(MapOf(kvs), d, true) == MapOf(b)
    ensures Built(kvs, d) == NodeOf(Built(a, d + 1), Built(b, d + 1))
    ensures Reach(Built(kvs, d)) == {Built(kvs, d)} + Reach(Built(a, d + 1)) + Reach(Built(b, d + 1))
  {
    hide AgreeBelow, Right, MapOf, Compare, StrictlySorted, Single, Storable, Half;
  }

  // ---- Applying a batch below an existing digest ----

  // The subtree `hash` sits at this depth, complete in both stores, and the batch belongs there.
  ghost predicate AppliesAt(t: SparseMerkleTree, hash: Digest, d: nat, kvs: seq<KV>)
    reads t
  {
    Stores(t) && Applies(t.nodes.Keys, t.values, hash, d, kvs)
  }

  ghost predicate Applies(keys: set<Digest>, values: Map, hash: Digest, d: nat, kvs: seq<KV>) {
    && d <= Depth
    && Canonical(hash, d) && Reach(hash) <= keys && SubMap(Bindings(hash), values)
    && StrictlySorted(kvs) && Storable(MapOf(kvs)) && Together(Bindings(hash) + MapOf(kvs), d)
  }

  // The subtree that replaces it.
  ghost function Applied(hash: Digest, d: nat, kvs: seq<KV>): Digest {
    var m := Bindings(hash) + MapOf(kvs);
    if d <= Depth && Together(m, d) then Canon(m, d) else Zero
  }

  // mergeLeafWithKVs: the canonical subtree of the leaf's binding overridden by the batch.
  method MergeLeafWithKVs(t: SparseMerkleTree, currentHash: Digest, leafData: Data, depth: nat, kvs: seq<KV>)
    returns (hash: Digest)
    requires AppliesAt(t, currentHash, depth, kvs) && IsLeaf(currentHash) && leafData == currentHash.preimage
    requires |kvs| > 0
    modifies t`nodes, t`values
    ensures hash == Applied(currentHash, depth, kvs)
    ensures Stores(t) && t.nodes.Keys == (old(t.nodes.Keys) - Reach(currentHash)) + Reach(hash)
    ensures t.values == old(t.values) + MapOf(kvs)
  {
    hide Right, AgreeBelow, Canonical, Canon, MapOf, StrictlySorted, Together, Storable, Compare, Bindings;
    var LeafData(leafPath, existingValueHash) := leafData;
    LeafAlone(currentHash, depth);
    var shadowed := false;
    var i := 0;
    while i < |kvs|
      invariant i <= |kvs| && !shadowed
      invariant forall j | 0 <= j < i :: kvs[j].path != leafPath
    {
      if kvs[i].path == leafPath {
        shadowed := true;
        break;
      }
      i := i + 1;
    }
    if shadowed && |kvs| == 1 {
      var newValueHash := Hash(Raw(kvs[0].value));
      if existingValueHash == newValueHash {
        SameLeaf(t.values, currentHash, depth, kvs);
        return currentHash;
      }
    }
    var deleted := t.DeleteNodes([currentHash]);
    assert deleted.Ok?;
    var merged := kvs;
    if !shadowed {
      assert leafPath in t.values;
      var oldValue := t.values[leafPath];
      var insertIdx := Search(|kvs|, (k: nat) requires k < |kvs| => Compare(kvs[k].path, leafPath) >= 0);
      merged := kvs[..insertIdx] + [KV(leafPath, oldValue)] + kvs[insertIdx..];
      InsertedLeaf(kvs, insertIdx, KV(leafPath, oldValue));
      MergedValues(t.values, currentHash, depth, kvs, merged);
    } else {
      ShadowedLeaf(currentHash, depth, kvs, i);
    }
    MergedIsBatch(currentHash, depth, kvs, merged);
    hash := BuildSubtree(t, depth, merged);
  }

  lemma LeafAlone(h: Digest, d: nat)
    requires Canonical(h, d) && IsLeaf(h)
    ensures Reach(h) == {h}
    ensures h.preimage.path in Bindings(h) && h == LeafOf(h.preimage.path, Bindings(h)[h.preimage.path])
    ensures Bindings(h) == map[h.preimage.path := Bindings(h)[h.preimage.path]]
    ensures Storable(Bindings(h))
  {
  }

  lemma SameLeaf(values: Map, h: Digest, d: nat, kvs: seq<KV>)
    requires d <= Depth && Canonical(h, d) && IsLeaf(h) && SubMap(Bindings(h), values) && |kvs| == 1
    requires h == LeafOf(kvs[0].path, kvs[0].value) && Together(Bindings(h) + MapOf(kvs), d)
    ensures h == Applied(h, d, kvs) && values + MapOf(kvs) == values
  {
    hide Right, AgreeBelow, Canonical, Canon, MapOf;
    LeafAlone(h, d);
    assert kvs == [kvs[0]];
    MapOfOne(kvs[0]);
    LeafIsCanonical(kvs[0].path, kvs[0].value, d);
    assert Bindings(h) + MapOf(kvs) == Bindings(h);
    CanonicalIsCanon(h, d);
  }

  lemma ShadowedLeaf(h: Digest, d: nat, kvs: seq<KV>, i: nat)
    requires Canonical(h, d) && IsLeaf(h) && i < |kvs| && kvs[i].path == h.preimage.path
    ensures Bindings(h) + MapOf(kvs) == MapOf(kvs)
  {
    LeafAlone(h, d);
    MemberInMap(kvs, i);
  }

  // The insertion point keeps the list strictly sorted, and the inserted leaf overrides nothing.
  lemma InsertedLeaf(kvs: seq<KV>, k: nat, x: KV)
    requires StrictlySorted(kvs) && k <= |kvs|
    requires forall j | 0 <= j < |kvs| :: kvs[j].path != x.path
    requires k < |kvs| ==> Compare(kvs[k].path, x.path) >= 0
    requires k > 0 ==> Compare(kvs[k - 1].path, x.path) < 0
    ensures StrictlySorted(kvs[..k] + [x] + kvs[k..])
    ensures MapOf(kvs[..k] + [x] + kvs[k..]) == map[x.path := x.value] + MapOf(kvs)
  {
    hide Compare, MapOf, StrictlySorted;
    InsertedSorted(kvs, k, x);
    if x.path in MapOf(kvs) { var i := MapOfMember(kvs, x.path); }
    InsertedMap(kvs, k, x);
  }

  lemma InsertedMap(kvs: seq<KV>, k: nat, x: KV)
    requires k <= |kvs| && x.path !in MapOf(kvs)
    ensures MapOf(kvs[..k] + [x] + kvs[k..]) == map[x.path := x.value] + MapOf(kvs)
  {
    hide MapOf;
    MapOfConcat(kvs[..k] + [x], kvs[k..]);
    MapOfConcat(kvs[..k], [x]);
    MapOfConcat(kvs[..k], kvs[k..]);
    MapOfOne(x);
    assert kvs[..k] + kvs[k..] == kvs;
    MapsCommute(MapOf(kvs[..k]), MapOf([x]), MapOf(kvs[k..]));
  }

  lemma MapsCommute(a: Map, x: Map, b: Map)
    requires forall p :: p in x ==> p !in a + b
    ensures (a + x) + b == x + (a + b)
  {
  }

  lemma InsertedSorted(kvs: seq<KV>, k: nat, x: KV)
    requires StrictlySorted(kvs) && k <= |kvs|
    requires k < |kvs| ==> Compare(kvs[k].path, x.path) >= 0 && kvs[k].path != x.path
    requires k > 0 ==> Compare(kvs[k - 1].path, x.path) < 0
    ensures StrictlySorted(kvs[..k] + [x] + kvs[k..])
  {
    hide Compare;
    var t := kvs[..k] + [x] + kvs[k..];
    if k < |kvs| { CompareTotal(kvs[k].path, x.path); }
    forall i, j | 0 <= i < j < |t| ensures Compare(t[i].path, t[j].path) < 0 {
      if j < k {
        assert t[i] == kvs[i] && t[j] == kvs[j];
      } else if j == k {
        if i < k - 1 { CompareTransitive(kvs[i].path, kvs[k - 1].path, x.path); }
      } else if i == k {
        if j - 1 > k { CompareTransitive(x.path, kvs[k].path, kvs[j - 1].path); }
      } else {
        assert t[j] == kvs[j - 1] && t[i] == kvs[if i < k then i else i - 1];
      }
    }
  }

  lemma MergedValues(values: Map, h: Digest, d: nat, kvs: seq<KV>, merged: seq<KV>)
    requires Canonical(h, d) && IsLeaf(h) && SubMap(Bindings(h), values)
    requires var p := h.preimage.path; p in values && MapOf(merged) == map[p := values[p]] + MapOf(kvs)
    ensures MapOf(merged) == Bindings(h) + MapOf(kvs) && values + MapOf(merged) == values + MapOf(kvs)
  {
    LeafAlone(h, d);
  }

  lemma MergedIsBatch(h: Digest, d: nat, kvs: seq<KV>, merged: seq<KV>)
    requires d <= Depth && Canonical(h, d) && IsLeaf(h) && Storable(MapOf(kvs))
    requires Together(Bindings(h) + MapOf(kvs), d)
    requires StrictlySorted(merged) && MapOf(merged) == Bindings(h) + MapOf(kvs)
    ensures BatchAt(merged, d) && Built(merged, d) == Applied(h, d, kvs)
  {
    hide Right, AgreeBelow, Canonical, Canon, MapOf, StrictlySorted, Bindings;
    LeafAlone(h, d);
  }

  // bulkApplyAtRoot: one recursive walk. Every digest it fetches or deletes is in the store.
  method BulkApplyAtRoot(t: SparseMerkleTree, currentHash: Digest, depth: nat, kvs: seq<KV>) returns (hash: Digest)
    requires AppliesAt(t, currentHash, depth, kvs)
    modifies t`nodes, t`values
    ensures hash == Applied(currentHash, depth, kvs)
    ensures Stores(t) && t.nodes.Keys == (old(t.nodes.Keys) - Reach(currentHash)) + Reach(hash)
    ensures t.values == old(t.values) + MapOf(kvs)
    decreases Depth - depth
  {
    hide Right, AgreeBelow, Canonical, Canon, MapOf, StrictlySorted, Together, Storable, Bindings, Reach, Store;
    if |kvs| == 0 {
      NothingApplied(t.nodes.Keys, t.values, currentHash, depth, kvs);
      return currentHash;
    }
    if currentHash == Zero {
      BuiltIsApplied(kvs, depth);
      hash := BuildSubtree(t, depth, kvs);
      return;
    }
    FetchesKnown(t.nodes.Keys, t.values, currentHash, depth, kvs);
    Stored(t.nodes, currentHash);
    var nodeData := t.nodes[currentHash];
    if nodeData.LeafData? {
      hash := MergeLeafWithKVs(t, currentHash, nodeData, depth, kvs);
      return;
    }
    var leftHash, rightHash := nodeData.left, nodeData.right;
    EntriesTogether(currentHash, depth, kvs);
    var splitIdx := PartitionByBit(kvs, depth);
    var leftKVs, rightKVs := kvs[..splitIdx], kvs[splitIdx..];
    ghost var keys, values := t.nodes.Keys, t.values;
    LeftApplies(keys, values, currentHash, depth, kvs, splitIdx);
    var newLeft := BulkApplyAtRoot(t, leftHash, depth + 1, leftKVs);
    RightApplies(keys, values, currentHash, depth, kvs, splitIdx);
    var newRight := BulkApplyAtRoot(t, rightHash, depth + 1, rightKVs);
    NodeApplied(keys, values, currentHash, depth, kvs, splitIdx);
    if newLeft == leftHash && newRight == rightHash {
      return currentHash;
    }
    var deleted := t.DeleteNodes([currentHash]);
    assert deleted.Ok?;
    hash := NodeOf(newLeft, newRight);
    t.SetNode(hash, NodeData(newLeft, newRight));
  }

  lemma EntriesTogether(h: Digest, d: nat, kvs: seq<KV>)
    requires d <= Depth && StrictlySorted(kvs) && Together(Bindings(h) + MapOf(kvs), d)
    ensures Sorted(kvs) && TogetherKVs(kvs, d)
  {
    hide AgreeBelow, Compare, MapOf, Bindings;
    forall i, j | 0 <= i < |kvs| && 0 <= j < |kvs| ensures SameWay(kvs[i].path, kvs[j].path, d) {
      MemberInMap(kvs, i);
      MemberInMap(kvs, j);
    }
  }

  // The entries split at depth d as the node does.
  ghost predicate SplitsAt(kvs: seq<KV>, d: nat, split: nat) {
    && d < Depth && split <= |kvs|
    && (forall i | 0 <= i < split :: !Right(kvs[i].path, d))
    && (forall i | split <= i < |kvs| :: Right(kvs[i].path, d))
  }

  lemma PartMaps(keys: set<Digest>, values: Map, h: Digest, d: nat, kvs: seq<KV>, split: nat)
    requires Applies(keys, values, h, d, kvs) && IsNode(h) && SplitsAt(kvs, d, split)
    ensures var m, a, b := Bindings(h) + MapOf(kvs), kvs[..split], kvs[split..];
      var l, r := h.preimage.left, h.preimage.right;
      && Half(m, d, false) == Bindings(l) + MapOf(a) && Half(m, d, true) == Bindings(r) + MapOf(b)
      && MapOf(kvs) == MapOf(a) + MapOf(b)
      && AllTurn(Bindings(l) + MapOf(a), d, false) && AllTurn(Bindings(r) + MapOf(b), d, true)
      && AllTurn(MapOf(a), d, false) && AllTurn(Bindings(r), d, true)
      && Storable(MapOf(a)) && Storable(MapOf(b))
  {
    hide AgreeBelow, Right, MapOf, Compare, StrictlySorted, Together;
    HalvesOfBatch(kvs, d, split);
    NodeSides(h, d);
    HalvesOfNode(h, d);
    hide Canonical, Bindings;
    HalvesAdd(Bindings(h), MapOf(kvs), d);
  }

  lemma HalvesAdd(m: Map, n: Map, d: nat)
    requires d < Depth
    ensures Half(m + n, d, false) == Half(m, d, false) + Half(n, d, false)
    ensures Half(m + n, d, true) == Half(m, d, true) + Half(n, d, true)
  {
    hide Right;
  }

  lemma PartsTogether(m: Map, d: nat)
    requires d < Depth && Together(m, d)
    ensures Together(Half(m, d, false), d + 1) && Together(Half(m, d, true), d + 1)
  {
    hide AgreeBelow, Right, Half;
    HalfTogether(m, d, false);
    HalfTogether(m, d, true);
  }

  lemma PartsSorted(kvs: seq<KV>, split: nat)
    requires StrictlySorted(kvs) && split <= |kvs|
    ensures StrictlySorted(kvs[..split]) && StrictlySorted(kvs[split..])
  {
    hide Compare;
  }

  lemma LeftApplies(keys: set<Digest>, values: Map, h: Digest, d: nat, kvs: seq<KV>, split: nat)
    requires Applies(keys, values, h, d, kvs) && IsNode(h) && SplitsAt(kvs, d, split)
    ensures Applies(keys, values, h.preimage.left, d + 1, kvs[..split])
  {
    hide AgreeBelow, Right, MapOf, Compare, StrictlySorted, Together, Half;
    PartMaps(keys, values, h, d, kvs, split);
    PartsTogether(Bindings(h) + MapOf(kvs), d);
    PartsSorted(kvs, split);
    HalvesOfNode(h, d);
    assert forall p :: p in Bindings(h.preimage.left) ==> p !in Bindings(h.preimage.right);
  }

  lemma AppliedIsCanonical(keys: set<Digest>, values: Map, h: Digest, d: nat, kvs: seq<KV>)
    requires Applies(keys, values, h, d, kvs)
    ensures Canonical(Applied(h, d, kvs), d)
    ensures Bindings(Applied(h, d, kvs)) == Bindings(h) + MapOf(kvs)
  {
    hide AgreeBelow, Right, MapOf, Canon, StrictlySorted, Together, Canonical;
    CanonicalIsStorable(h, d);
    CanonIsCanonical(Bindings(h) + MapOf(kvs), d);
  }

  // The digests on either side of a split stay apart while the left side is replaced.
  lemma SidesApart(keys: set<Digest>, values: Map, h: Digest, d: nat, kvs: seq<KV>, split: nat)
    requires Applies(keys, values, h, d, kvs) && IsNode(h) && SplitsAt(kvs, d, split)
    requires Applies(keys, values, h.preimage.left, d + 1, kvs[..split])
    ensures var l, r := h.preimage.left, h.preimage.right; var l' := Applied(l, d + 1, kvs[..split]);
      && Reach(h) == {h} + Reach(l) + Reach(r) && h !in Reach(l) && h !in Reach(r)
      && Reach(l) !! Reach(r) && Reach(l') !! Reach(r) && h !in Reach(l')
  {
    hide AgreeBelow, Right, MapOf, StrictlySorted, Together, Storable, Applied, Half, Canonical, Bindings;
    var l, r := h.preimage.left, h.preimage.right;
    var l' := Applied(l, d + 1, kvs[..split]);
    NodeSides(h, d);
    PartMaps(keys, values, h, d, kvs, split);
    AppliedIsCanonical(keys, values, l, d + 1, kvs[..split]);
    ReachDisjoint(l', r, d + 1, d + 1);
    NotFurtherDown(h, d, l');
  }

  lemma NodeSides(h: Digest, d: nat)
    requires Canonical(h, d) && IsNode(h)
    ensures var l, r := h.preimage.left, h.preimage.right;
      && d < Depth && Canonical(l, d + 1) && Canonical(r, d + 1)
      && Bindings(h) == Bindings(l) + Bindings(r)
      && Reach(h) == {h} + Reach(l) + Reach(r) && h !in Reach(l) && h !in Reach(r) && Reach(l) !! Reach(r)
  {
    hide AgreeBelow, Right;
    var p: Path := seq(PathSize, i => 0);
    ReachOfNode(h, d, p);
  }

  // The left part disturbs nothing below the right child.
  lemma RightApplies(keys: set<Digest>, values: Map, h: Digest, d: nat, kvs: seq<KV>, split: nat)
    requires Applies(keys, values, h, d, kvs) && IsNode(h) && SplitsAt(kvs, d, split)
    requires Applies(keys, values, h.preimage.left, d + 1, kvs[..split])
    ensures var l, a := h.preimage.left, kvs[..split];
      var l' := Applied(l, d + 1, a);
      Applies((keys - Reach(l)) + Reach(l'), values + MapOf(a), h.preimage.right, d + 1, kvs[split..])
    ensures Applies(keys, values, h.preimage.right, d + 1, kvs[split..])
  {
    hide AgreeBelow, Right, MapOf, Compare, StrictlySorted, Together, Half, Storable, Applied, Canonical;
    hide Bindings, Reach;
    PartMaps(keys, values, h, d, kvs, split);
    PartsTogether(Bindings(h) + MapOf(kvs), d);
    PartsSorted(kvs, split);
    SidesApart(keys, values, h, d, kvs, split);
    NodeSides(h, d);
    RightValues(values, h, MapOf(kvs[..split]), d);
  }

  lemma RightValues(values: Map, h: Digest, a: Map, d: nat)
    requires Canonical(h, d) && IsNode(h) && SubMap(Bindings(h), values) && d < Depth && AllTurn(a, d, false)
    ensures SubMap(Bindings(h.preimage.right), values + a)
  {
    hide AgreeBelow, Right;
  }

  lemma NodeApplied(keys: set<Digest>, values: Map, h: Digest, d: nat, kvs: seq<KV>, split: nat)
    requires Applies(keys, values, h, d, kvs) && IsNode(h) && SplitsAt(kvs, d, split)
    requires Applies(keys, values, h.preimage.left, d + 1, kvs[..split])
    requires Applies(keys, values, h.preimage.right, d + 1, kvs[split..])
    ensures var l, r, a, b := h.preimage.left, h.preimage.right, kvs[..split], kvs[split..];
      var l', r' := Applied(l, d + 1, a), Applied(r, d + 1, b);
      var rebuilt := (((keys - Reach(l)) + Reach(l')) - Reach(r)) + Reach(r');
      && (values + MapOf(a)) + MapOf(b) == values + MapOf(kvs)
      && Applied(h, d, kvs) == NodeOf(l', r')
      && h in rebuilt
      && (l' == l && r' == r ==> rebuilt == (keys - Reach(h)) + Reach(h))
      && (!(l' == l && r' == r) ==>
            (rebuilt - {h}) + {NodeOf(l', r')} == (keys - Reach(h)) + Reach(NodeOf(l', r')))
  {
    hide AgreeBelow, Right, MapOf, Compare, StrictlySorted, Together, Half, Storable, Applied, Canonical, Bindings;
    var l, r, a, b := h.preimage.left, h.preimage.right, kvs[..split], kvs[split..];
    var l', r' := Applied(l, d + 1, a), Applied(r, d + 1, b);
    PartMaps(keys, values, h, d, kvs, split);
    MapsAssociate(values, MapOf(a), MapOf(b));
    SidesApart(keys, values, h, d, kvs, split);
    AppliedIsCanonical(keys, values, r, d + 1, b);
    NotFurtherDown(h, d, r');
    AppliedSplits(h, d, kvs, a, b);
    SelfReach(h, d);
    hide Reach;
    ReachOfPair(l', r');
    SwapSets(keys, h, Reach(l), Reach(r), Reach(l'), Reach(r'));
    assert l' == l && r' == r ==> NodeOf(l', r') == h;
  }

  lemma ReachOfPair(l: Digest, r: Digest)
    ensures Reach(NodeOf(l, r)) == {NodeOf(l, r)} + Reach(l) + Reach(r)
  {
  }

  lemma SwapSets(keys: set<Digest>, h: Digest, l: set<Digest>, r: set<Digest>, l': set<Digest>, r': set<Digest>)
    requires {h} + l + r <= keys && h !in l && h !in r && h !in l' && h !in r' && l !! r && l' !! r
    ensures var rebuilt := (((keys - l) + l') - r) + r';
      && h in rebuilt
      && (l' == l && r' == r ==> rebuilt == (keys - ({h} + l + r)) + ({h} + l + r))
      && forall x :: (rebuilt - {h}) + {x} == (keys - ({h} + l + r)) + ({x} + l' + r')
  {
  }

  lemma AppliedSplits(h: Digest, d: nat, kvs: seq<KV>, a: seq<KV>, b: seq<KV>)
    requires Canonical(h, d) && IsNode(h) && d < Depth && Together(Bindings(h) + MapOf(kvs), d)
    requires var m := Bindings(h) + MapOf(kvs);
      && Half(m, d, false) == Bindings(h.preimage.left) + MapOf(a)
      && Half(m, d, true) == Bindings(h.preimage.right) + MapOf(b)
    requires Together(Bindings(h.preimage.left) + MapOf(a), d + 1)
    requires Together(Bindings(h.preimage.right) + MapOf(b), d + 1)
    ensures Applied(h, d, kvs) == NodeOf(Applied(h.preimage.left, d + 1, a), Applied(h.preimage.right, d + 1, b))
  {
    hide AgreeBelow, Right, MapOf, Canonical, Bindings, Half, Together;
    NodeBindsTwo(h, d);
    MoreIsNotSingle(Bindings(h), MapOf(kvs));
  }

  lemma MoreIsNotSingle(m: Map, n: Map)
    requires m != map[] && !Single(m)
    ensures m + n != map[] && !Single(m + n)
  {
    var p :| p in m;
    assert p in m + n;
    if Single(m + n) {
      var q := TheOnly(m + n);
      assert m == map[q := m[q]] by {
        forall x | x in m ensures x == q { assert x in m + n; }
      }
      assert IsOnly(m, q);
    }
  }

  lemma NothingApplied(keys: set<Digest>, values: Map, h: Digest, d: nat, kvs: seq<KV>)
    requires Applies(keys, values, h, d, kvs) && kvs == []
    ensures Applied(h, d, kvs) == h && values + MapOf(kvs) == values
    ensures (keys - Reach(h)) + Reach(h) == keys
  {
    hide Right, AgreeBelow, Canonical, Canon;
    assert Bindings(h) + MapOf(kvs) == Bindings(h);
    CanonicalIsCanon(h, d);
  }

  lemma BuiltIsApplied(kvs: seq<KV>, d: nat)
    requires d <= Depth && StrictlySorted(kvs) && Storable(MapOf(kvs)) && Together(Bindings(Zero) + MapOf(kvs), d)
    ensures BatchAt(kvs, d) && Built(kvs, d) == Applied(Zero, d, kvs) && Reach(Zero) == {}
  {
    hide Right, AgreeBelow, Canon, MapOf;
    assert Bindings(Zero) + MapOf(kvs) == MapOf(kvs);
  }

  lemma FetchesKnown(keys: set<Digest>, values: Map, h: Digest, d: nat, kvs: seq<KV>)
    requires Applies(keys, values, h, d, kvs) && !h.Zero?
    ensures h in keys && (IsLeaf(h) || IsNode(h)) && (IsNode(h) ==> d < Depth)
  {
    SelfReach(h, d);
  }

  // ---- BulkUpdate ----

  // BulkUpdate: deletes one by one, then everything else in one walk. No store operation fails, and
  // the stores end as those of the batch's map.
  method BulkUpdate(t: SparseMerkleTree, keys: seq<Path>, values: seq<Bytes>) returns (res: Result<Digest>)
    requires Exact(t.Contents())
    modifies t
    ensures |keys| != |values| ==> res == Err(BulkInputMismatch) && t.Contents() == old(t.Contents())
    ensures |keys| == |values| ==>
      && res == Ok(t.root) && Exact(t.Contents())
      && t.Contents() == StateOf(BulkMap(old(t.values), Batch(keys, values)))
    ensures |keys| == |values| ==> forall p: Path :: BulkedAt(keys, values, old(t.values), t.values, p)
  {
    hide Right, AgreeBelow, Canonical, Canon, Exact, StateOf, Partial, MapOf, Sorted, StrictlySorted, AppliesAt, Batch;
    hide BulkedAt;
    if |keys| != |values| {
      return Err(BulkInputMismatch);
    }
    ghost var before, batch := t.values, Batch(keys, values);
    forall p: Path ensures BulkedAt(keys, values, before, BulkMap(before, batch), p) {
      BulkMapAt(keys, values, before, p);
    }
    StateOfFields(BulkMap(before, batch));
    if |keys| == 0 {
      EmptyBatch(t.Contents(), keys, values);
      return Ok(t.root);
    }
    DeleteEach(t, keys, values);
    var kvs := CollectSets(keys, values);
    StateOfFields(Deleted(before, batch));
    if |kvs| == 0 {
      NoSets(before, batch);
      return Ok(t.root);
    }
    var sorted := SortStable(kvs);
    var slice := new KV[|sorted|](i requires 0 <= i < |sorted| => sorted[i]);
    assert slice[..] == sorted;
    var w := Dedup(slice);
    StablyEqualMaps(sorted, kvs);
    SetsAreStorable(batch);
    TreeApplies(t, slice[..w]);
    ghost var s := t.Contents();
    var newRoot := BulkApplyAtRoot(t, t.root, 0, slice[..w]);
    t.root := newRoot;
    RootApplied(s, t.Contents(), slice[..w]);
    return Ok(newRoot);
  }

  // The deletes of a batch, each by its own walk.
  method DeleteEach(t: SparseMerkleTree, keys: seq<Path>, values: seq<Bytes>)
    requires Exact(t.Contents()) && |keys| == |values|
    modifies t
    ensures Exact(t.Contents())
    ensures t.Contents() == StateOf(Deleted(old(t.values), Batch(keys, values)))
  {
    hide Right, AgreeBelow, Canonical, Canon, Exact, StateOf, Partial;
    ghost var before, batch := t.values, Batch(keys, values);
    ExactIsItsMap(t.Contents());
    assert batch[..0] == [];
    var i := 0;
    while i < |keys|
      invariant i <= |keys| && Exact(t.Contents())
      invariant t.Contents() == StateOf(Deleted(before, batch[..i]))
    {
      assert batch[..i + 1][..i] == batch[..i];
      if values[i] == DefaultValue {
        ExactIsItsMap(t.Contents());
        StateOfFields(Deleted(before, batch[..i]));
        var deleted := t.Delete(keys[i]);
        assert deleted.Ok?;
      }
      i := i + 1;
    }
    assert batch[..i] == batch;
  }

  lemma EmptyBatch(s: State, keys: seq<Path>, values: seq<Bytes>)
    requires Exact(s) && |keys| == |values| == 0
    ensures s == StateOf(BulkMap(s.values, Batch(keys, values)))
  {
    hide Exact;
    ExactIsItsMap(s);
    assert Batch(keys, values) == [];
    assert BulkMap(s.values, []) == s.values;
  }

  lemma NoSets(m: Map, batch: seq<KV>)
    requires Sets(batch) == []
    ensures BulkMap(m, batch) == Deleted(m, batch)
  {
  }

  lemma RootApplies(s: State, kvs: seq<KV>)
    requires Exact(s) && StrictlySorted(kvs) && Storable(MapOf(kvs))
    ensures s.nodes == Store(s.nodes.Keys) && Applies(s.nodes.Keys, s.values, s.root, 0, kvs)
  {
    hide Right, Canonical, MapOf, StrictlySorted;
  }

  lemma TreeApplies(t: SparseMerkleTree, kvs: seq<KV>)
    requires Exact(t.Contents()) && StrictlySorted(kvs) && Storable(MapOf(kvs))
    ensures AppliesAt(t, t.root, 0, kvs)
  {
    hide Exact, Applies, StrictlySorted, MapOf, Storable;
    RootApplies(t.Contents(), kvs);
  }

  // Applied at the root of an exact state, the batch gives the exact state of the new map.
  lemma RootApplied(s: State, u: State, kvs: seq<KV>)
    requires Exact(s) && Storable(MapOf(kvs))
    requires u.root == Applied(s.root, 0, kvs) && u.nodes == Store(u.nodes.Keys)
    requires u.nodes.Keys == (s.nodes.Keys - Reach(s.root)) + Reach(u.root)
    requires u.values == s.values + MapOf(kvs)
    ensures u == StateOf(s.values + MapOf(kvs)) && Exact(u)
  {
    hide Right, AgreeBelow, Canonical, MapOf, Canon, Reach, Bindings;
    var m := s.values + MapOf(kvs);
    ExactIsItsMap(s);
    UnderRoot(m, seq(PathSize, i => 0));
    assert u.root == RootOf(m);
    ExactStateOf(m);
  }

  // The entries with a value, in order.
  method CollectSets(keys: seq<Path>, values: seq<Bytes>) returns (kvs: seq<KV>)
    requires |keys| == |values|
    ensures kvs == Sets(Batch(keys, values))
  {
    ghost var batch := Batch(keys, values);
    kvs := [];
    var i := 0;
    while i < |keys|
      invariant i <= |keys| && kvs == Sets(batch[..i])
    {
      assert batch[..i + 1][..i] == batch[..i];
      if values[i] != DefaultValue {
        kvs := kvs + [KV(keys[i], values[i])];
      }
      i := i + 1;
    }
    assert batch[..i] == batch;
  }
}
