// The tree object (smt.go): two stores and a root, changed in place by spine walks.
module SparseMerkleTrees {
  import opened Utils
  import opened TreeHasher
  import opened Trees
  import opened Writes
  import opened Walks
  import opened States
  import opened SymbolicProofs

  // What a []byte variable of a spine walk points at: one of the two scratch buffers, or bytes
  // that are never written again (a stored digest, or the placeholder).
  datatype Slice = Buf(i: nat) | Live(digest: Digest)

  ghost predicate ValidSlice(sc: array<Digest>, s: Slice)
  {
    s.Buf? ==> s.i < 2 <= sc.Length
  }

  function Deref(sc: array<Digest>, s: Slice): Digest
    requires ValidSlice(sc, s)
    reads sc
  {
    if s.Buf? then sc[s.i] else s.digest
  }

  // What fillSideNodes returns; both sequences run from the leaf end up to the root.
  datatype Walk = Walk(sideNodes: seq<Digest>, pathNodes: seq<Digest>,
                       leafData: Option<Data>, siblingData: Option<Data>)

  ghost predicate WalkOf(w: Walk, t: Digest, p: Path) {
    && IsWalk(t, p, w.sideNodes, w.pathNodes)
    && w.leafData == if w.pathNodes[0].Hash? then Some(w.pathNodes[0].preimage) else None
  }

  // digestLeafInto: the datum is built first, then its digest overwrites one scratch buffer.
  method DigestLeafInto(sc: array<Digest>, turn: nat, path: Path, valueHash: Digest) returns (hash: Slice, data: Data)
    requires sc.Length == 2 && turn < 2
    modifies sc
    ensures data == LeafData(path, valueHash) && hash == Buf(turn) && Deref(sc, hash) == Hash(data)
    ensures sc[1 - turn] == old(sc[1 - turn])
  {
    data := LeafData(path, valueHash);
    sc[turn] := Hash(data);
    hash := Buf(turn);
  }

  // digestNodeInto, likewise: left and right may point into the scratch buffers.
  method DigestNodeInto(sc: array<Digest>, turn: nat, left: Slice, right: Slice) returns (hash: Slice, data: Data)
    requires sc.Length == 2 && turn < 2 && ValidSlice(sc, left) && ValidSlice(sc, right)
    modifies sc
    ensures data == NodeData(old(Deref(sc, left)), old(Deref(sc, right)))
    ensures hash == Buf(turn) && Deref(sc, hash) == Hash(data)
    ensures sc[1 - turn] == old(sc[1 - turn])
  {
    data := NodeData(Deref(sc, left), Deref(sc, right));
    sc[turn] := Hash(data);
    hash := Buf(turn);
  }

  // countCommonPrefix of two paths: where they part.
  method CommonPrefix(p: Path, q: Path) returns (count: nat)
    ensures count <= Depth && SameWay(p, q, count)
    ensures count == Depth <==> p == q
    ensures count < Depth ==> Right(p, count) != Right(q, count)
  {
    count := CountCommonPrefix(p, q);
  }

  class SparseMerkleTree {
    var nodes: map<Digest, Data>
    var values: Map
    var root: Digest

    ghost function Contents(): State
      reads this
    {
      State(nodes, values, root)
    }

    // The stores as they serve the tree with another root.
    ghost function ContentsAt(root: Digest): State
      reads this`nodes, this`values
    {
      State(nodes, values, root)
    }

    // NewSparseMerkleTree: empty stores and the placeholder root.
    constructor ()
      ensures Contents() == StateOf(map[])
    {
      nodes, values, root := map[], map[], Zero;
    }

    // NewDeepSparseMerkleSubTree: empty stores under a given root.
    constructor Deep(root: Digest)
      ensures Contents() == State(map[], map[], root)
    {
      nodes, values := map[], map[];
      this.root := root;
    }

    // Get: the value store alone answers, except for the empty tree. It never fails; on a deep
    // subtree it is right exactly where the value of a bound path is known.
    method Get(path: Path) returns (res: Result<Bytes>)
      ensures res.Ok?
      ensures Partial(Contents()) ==>
        (res.value == Lookup(Bindings(root), path) <==> (path in Bindings(root) ==> path in values))
      ensures Exact(Contents()) ==> res.value == Lookup(Bindings(root), path)
      ensures Exact(Contents()) ==> res.value == if path in values then values[path] else []
    {
      hide Canonical, Bindings;
      if Partial(Contents()) {
        CanonicalIsStorable(root, 0);
        LightIsSmall(root, 0);
      }
      if root == Zero {
        return Ok(DefaultValue);
      }
      if path in values {
        return Ok(values[path]);
      }
      return Ok(DefaultValue);
    }

    // fillSideNodes: walks from a root toward path.
    method FillSideNodes(path: Path, root: Digest, getSiblingData: bool) returns (res: Result<Walk>)
      requires Partial(ContentsAt(root))
      ensures res.Ok? <==> (Spine(root, 0, path) <= nodes.Keys && (getSiblingData ==> SiblingStored(path, root)))
      ensures res.Err? ==> res.error == InvalidKey
      ensures res.Ok? ==> WalkOf(res.value, root, path)
      ensures res.Ok? ==> res.value.siblingData == SiblingDataOf(root, path, getSiblingData)
    {
      hide Right, AgreeBelow, Canonical, Bindings, Reach, Spine, LastSibling, Descend, NodesAbove, WalkSoFar, IsWalk;
      var pathNodes, sideNodes := [root], [];
      NoStepsYet(root, path);
      DescendInSpine(root, path, 0);
      if root == Zero {
        LastSiblingOfWalk(root, path, sideNodes, pathNodes);
        SpineOfWalk(root, path, sideNodes, pathNodes);
        return Ok(Walk(sideNodes, pathNodes, None, None));
      }
      if root !in nodes {
        return Err(InvalidKey);
      }
      var currentData := Some(nodes[root]);
      if currentData.value.LeafData? {
        LastSiblingOfWalk(root, path, sideNodes, pathNodes);
        SpineOfWalk(root, path, sideNodes, pathNodes);
        return Ok(Walk(sideNodes, pathNodes, currentData, None));
      }
      var nodeHash, sideNode := root, Zero;
      var i := 0;
      while i < Depth
        invariant i <= Depth && WalkSoFar(root, path, i, sideNodes, pathNodes)
        invariant |pathNodes| == i + 1 && |sideNodes| == i && pathNodes[i] == nodeHash && IsNode(nodeHash)
        invariant currentData == Some(nodeHash.preimage)
        invariant i > 0 ==> sideNode == sideNodes[i - 1]
        invariant forall h | h in pathNodes :: h in nodes
      {
        WalkStep(root, path, i, sideNodes, pathNodes);
        var leftNode, rightNode := currentData.value.left, currentData.value.right;
        if Right(path, i) {
          sideNode, nodeHash := leftNode, rightNode;
        } else {
          sideNode, nodeHash := rightNode, leftNode;
        }
        sideNodes := sideNodes + [sideNode];
        pathNodes := pathNodes + [nodeHash];
        i := i + 1;
        WalkReaches(root, path, i, sideNodes, pathNodes);
        if nodeHash == Zero {
          currentData := None;
          break;
        }
        if nodeHash !in nodes {
          return Err(InvalidKey);
        }
        currentData := Some(nodes[nodeHash]);
        if currentData.value.LeafData? {
          break;
        }
      }
      WalkReaches(root, path, i, sideNodes, pathNodes);
      var sides, paths := ReverseSlices(sideNodes, pathNodes);
      ReversedIsWalk(root, path, i, sideNodes, pathNodes);
      LastSiblingOfWalk(root, path, sides, paths);
      SpineOfWalk(root, path, sides, paths);
      var siblingData := None;
      if getSiblingData {
        if sideNode !in nodes {
          return Err(InvalidKey);
        }
        siblingData := Some(nodes[sideNode]);
      }
      return Ok(Walk(sides, paths, currentData, siblingData));
    }

    // nodes.Set
    method SetNode(hash: Digest, data: Data)
      requires hash == Hash(data) && nodes == Store(nodes.Keys)
      modifies this`nodes
      ensures nodes == Store(nodes.Keys) && nodes.Keys == old(nodes.Keys) + {hash}
    {
      nodes := nodes[hash := data];
    }

    // Hashes and stores the parent at depth d of the digest in `current` and its sibling.
    method SetParent(sc: array<Digest>, turn: nat, path: Path, d: nat, sideNode: Digest, current: Slice)
      returns (hash: Slice)
      requires sc.Length == 2 && turn < 2 && ValidSlice(sc, current) && d < Depth && nodes == Store(nodes.Keys)
      modifies this`nodes, sc
      ensures hash == Buf(turn) && sc[1 - turn] == old(sc[1 - turn])
      ensures var c := old(Deref(sc, current));
        sc[turn] == if Right(path, d) then NodeOf(sideNode, c) else NodeOf(c, sideNode)
      ensures nodes == Store(nodes.Keys) && nodes.Keys == old(nodes.Keys) + {sc[turn]}
    {
      hide Right, Store;
      var data;
      if Right(path, d) {
        hash, data := DigestNodeInto(sc, turn, Live(sideNode), current);
      } else {
        hash, data := DigestNodeInto(sc, turn, current, Live(sideNode));
      }
      SetNode(Deref(sc, hash), data);
    }

    // A run of nodes.Delete calls that stops at the first missing key.
    method DeleteNodes(hashes: seq<Digest>) returns (res: Result<()>)
      requires nodes == Store(nodes.Keys)
      requires forall i, j | 0 <= i < j < |hashes| :: hashes[i] != hashes[j]
      modifies this`nodes
      ensures nodes == Store(nodes.Keys)
      ensures res.Ok? <==> forall h | h in hashes :: h in old(nodes)
      ensures res.Ok? ==> nodes.Keys == old(nodes.Keys) - (set h | h in hashes)
    {
      var i := 0;
      while i < |hashes|
        invariant i <= |hashes| && nodes == Store(nodes.Keys)
        invariant forall h | h in hashes[..i] :: h in old(nodes)
        invariant nodes.Keys == old(nodes.Keys) - (set h | h in hashes[..i])
      {
        if hashes[i] !in nodes {
          return Err(InvalidKey);
        }
        nodes := nodes - {hashes[i]};
        assert hashes[..i + 1] == hashes[..i] + [hashes[i]];
        i := i + 1;
      }
      assert hashes[..i] == hashes;
      return Ok(());
    }

    // The overwritten leaf and its value go; the leaf is gone even when the value is not found.
    method DeleteOldLeaf(path: Path, leaf: Digest) returns (res: Result<()>)
      requires nodes == Store(nodes.Keys) && leaf in nodes
      modifies this`nodes, this`values
      ensures nodes == Store(nodes.Keys) && nodes.Keys == old(nodes.Keys) - {leaf}
      ensures res == if path in old(values) then Ok(()) else Err(InvalidKey)
      ensures values == old(values) - {path}
    {
      var deleted := DeleteNodes([leaf]);
      assert deleted.Ok?;
      if path !in values {
        assert values - {path} == values;
        return Err(InvalidKey);
      }
      values := values - {path};
      return Ok(());
    }

    // deleteWithSideNodes: rebuilds the walk without its leaf, lifting a lone sibling leaf past
    // every placeholder level. `sc` holds the two scratch buffers, with whatever was left in them.
    method DeleteWithSideNodes(sc: array<Digest>, path: Path, sideNodes: seq<Digest>, pathNodes: seq<Digest>,
                               oldLeafData: Option<Data>, ghost root: Digest) returns (res: Result<Slice>)
      requires sc.Length == 2 && Partial(ContentsAt(root)) && IsWalk(root, path, sideNodes, pathNodes)
      requires forall h | h in pathNodes :: h.Zero? || h in nodes
      requires oldLeafData == if pathNodes[0].Hash? then Some(pathNodes[0].preimage) else None
      modifies this`nodes, sc
      ensures res == Err(KeyAlreadyEmpty) <==> path !in Bindings(root)
      ensures path !in Bindings(root) ==> nodes == old(nodes)
      ensures path in Bindings(root) ==> (res.Ok? <==> sideNodes == [] || sideNodes[0] in old(nodes))
      ensures path in Bindings(root) && res.Err? ==>
        res.error == InvalidKey && nodes == Store(old(nodes.Keys) - Spine(root, 0, path))
      ensures res.Ok? ==> ValidSlice(sc, res.value) && Deref(sc, res.value) == Drop(root, 0, path)
      ensures res.Ok? ==>
        nodes == Store((old(nodes.Keys) - Spine(root, 0, path)) + Inner(Drop(root, 0, path), 0, path))
    {
      hide Right, AgreeBelow, Canonical, Bindings, Reach, Spine, LastSibling, Descend, NodesAbove;
      hide Drop, DropTo, Inner, Sibling, Child, IsWalk;
      var n := |sideNodes|;
      DeleteStart(root, path, sideNodes, pathNodes);
      WalkEnds(root, path, sideNodes, pathNodes);
      if pathNodes[0] == Zero {
        return Err(KeyAlreadyEmpty);
      }
      var actualPath := oldLeafData.value.path;
      if path != actualPath {
        return Err(KeyAlreadyEmpty);
      }
      SpineOfWalk(root, path, sideNodes, pathNodes);
      var deleted := DeleteNodes(pathNodes);
      assert deleted.Ok?;
      FirstSiblingKept(root, path, sideNodes, pathNodes);
      res := RebuildWithoutLeaf(sc, path, sideNodes, pathNodes, root);
    }

    // The loop of deleteWithSideNodes, once the nodes of the walk are deleted.
    method RebuildWithoutLeaf(sc: array<Digest>, path: Path, sideNodes: seq<Digest>, ghost pathNodes: seq<Digest>,
                              ghost root: Digest)
      returns (res: Result<Slice>)
      requires sc.Length == 2 && nodes == Store(nodes.Keys)
      requires Canonical(root, 0) && IsWalk(root, path, sideNodes, pathNodes) && path in Bindings(root)
      modifies this`nodes, sc
      ensures res.Ok? <==> sideNodes == [] || sideNodes[0] in old(nodes)
      ensures res.Err? ==> res.error == InvalidKey && nodes == old(nodes)
      ensures res.Ok? ==> ValidSlice(sc, res.value) && Deref(sc, res.value) == Drop(root, 0, path)
      ensures res.Ok? ==> nodes == Store(nodes.Keys)
      ensures res.Ok? ==> nodes.Keys == old(nodes.Keys) + Inner(Drop(root, 0, path), 0, path)
    {
      hide Right, AgreeBelow, Canonical, Bindings, Reach, Spine, LastSibling, Descend, NodesAbove;
      hide Drop, DropTo, Inner, Sibling, Child, IsWalk, Store;
      var n := |sideNodes|;
      DeleteStart(root, path, sideNodes, pathNodes);
      var turn := 0;
      var currentHash: Option<Slice>, currentData: Option<Slice> := None, None;
      var nonPlaceholderReached := false;
      AtTheRoot(root, path, DefaultValue);
      var i := 0;
      while i < n
        invariant i <= n && turn < 2 && nodes == Store(nodes.Keys)
        invariant currentHash == currentData && (currentData.None? <==> i == 0)
        invariant currentData.Some? ==> ValidSlice(sc, currentData.value)
        invariant currentData.Some? ==> Deref(sc, currentData.value) == DropTo(root, path, n - i)
        invariant i == 0 ==> DropTo(root, path, n) == Zero && !nonPlaceholderReached
        invariant i > 0 ==> (if nonPlaceholderReached then IsNode else IsLeaf)(DropTo(root, path, n - i))
        // The buffer in use is not the next one written; a lifted sibling is in neither.
        invariant currentData.Some? ==> currentData.value.Live? == !nonPlaceholderReached
        invariant currentData.Some? && currentData.value.Buf? ==> currentData.value.i == 1 - turn
        invariant nodes.Keys == old(nodes.Keys) + Inner(DropTo(root, path, n - i), n - i, path)
        invariant !nonPlaceholderReached ==> nodes == old(nodes)
        invariant i > 0 ==> sideNodes[0] in old(nodes)
      {
        var sideNode := sideNodes[i];
        DeleteLevel(root, path, sideNodes, pathNodes, i);
        i := i + 1;
        if currentData.None? {
          if sideNode !in nodes {
            return Err(InvalidKey);
          }
          var sideNodeValue := nodes[sideNode];
          Stored(nodes, sideNode);
          if sideNodeValue.LeafData? {
            currentHash, currentData := Some(Live(sideNode)), Some(Live(sideNode));
            continue;
          } else {
            currentData := Some(Live(Zero));
            nonPlaceholderReached := true;
          }
        }
        if !nonPlaceholderReached && sideNode == Zero {
          continue;
        } else if !nonPlaceholderReached {
          nonPlaceholderReached := true;
        }
        var hash := SetParent(sc, turn, path, n - i, sideNode, currentData.value);
        currentHash, currentData := Some(hash), Some(hash);
        turn := 1 - turn;
      }
      if currentHash.None? {
        currentHash := Some(Live(Zero));
      }
      return Ok(currentHash.value);
    }

    // updateWithSideNodes: sets the new leaf, joins it with a leaf for another path, deletes the
    // walk it replaces, and rebuilds the walk above it.
    method UpdateWithSideNodes(sc: array<Digest>, path: Path, value: Bytes, sideNodes: seq<Digest>,
                               pathNodes: seq<Digest>, oldLeafData: Option<Data>, ghost root: Digest)
      returns (res: Result<Slice>)
      requires sc.Length == 2 && Partial(ContentsAt(root)) && IsWalk(root, path, sideNodes, pathNodes)
      requires forall h | h in pathNodes :: h.Zero? || h in nodes
      requires oldLeafData == if pathNodes[0].Hash? then Some(pathNodes[0].preimage) else None
      requires value != DefaultValue
      modifies this`nodes, this`values, sc
      ensures res.Ok? <==> (path in Bindings(root) && !Binds(root, path, value) ==> path in old(values))
      ensures res.Err? ==> res.error == InvalidKey && values == old(values)
      ensures res.Err? ==> nodes == Store(old(nodes.Keys) + {LeafOf(path, value)} - {pathNodes[0]})
      ensures res.Ok? ==> ValidSlice(sc, res.value)
      ensures res.Ok? && Binds(root, path, value) ==>
        Deref(sc, res.value) == this.root && nodes == old(nodes) && values == old(values)
      ensures res.Ok? && !Binds(root, path, value) ==>
        && Deref(sc, res.value) == Put(root, 0, path, value)
        && values == old(values)[path := value]
        && var put := Put(root, 0, path, value);
           nodes == Store((old(nodes.Keys) - Replaced(root, 0, path)) + Spine(put, 0, path))
    {
      hide Right, AgreeBelow, Canonical, Bindings, Reach, Spine, LastSibling, Descend, NodesAbove;
      hide Put, PutTo, Replaced, Sibling, Child, IsWalk, Store, StartsAt;
      var n := |sideNodes|;
      hide GetBitAtFromMSB, SameWay;
      UpdateStart(root, path, value, sideNodes, pathNodes);
      var turn := 0;
      var valueHash := Hash(Raw(value));
      var currentHash, currentData := DigestLeafInto(sc, turn, path, valueHash);
      SetNode(Deref(sc, currentHash), currentData);
      turn := 1 - turn;

      var commonPrefixCount: nat;
      var oldValueHash: Option<Digest> := None;
      if pathNodes[0] == Zero {
        commonPrefixCount := Depth;
      } else {
        var actualPath := oldLeafData.value.path;
        oldValueHash := Some(oldLeafData.value.valueHash);
        commonPrefixCount := CommonPrefix(path, actualPath);
      }
      ghost var m := StartDepth(sideNodes, commonPrefixCount);
      if commonPrefixCount != Depth {
        UpdateStartsAt(root, path, sideNodes, pathNodes, commonPrefixCount);
        currentHash := SetParent(sc, turn, path, commonPrefixCount, pathNodes[0], currentHash);
        turn := 1 - turn;
      } else if oldValueHash.Some? {
        if oldValueHash.value == valueHash {
          assert nodes.Keys == old(nodes.Keys);
          return Ok(Live(this.root));
        }
        var deleted := DeleteOldLeaf(path, pathNodes[0]);
        if deleted.Err? {
          return Err(deleted.error);
        }
      }
      UpdateSets(root, path, value, sideNodes, pathNodes, m);
      var newRoot := ReplaceWalk(sc, turn, currentHash, path, value, sideNodes, pathNodes, commonPrefixCount,
                                 root, old(nodes.Keys));
      values := values[path := value];
      return Ok(newRoot);
    }

    // updateWithSideNodes from the deletion of the remaining path nodes on.
    method ReplaceWalk(sc: array<Digest>, turn: nat, start: Slice, path: Path, ghost value: Bytes,
                       sideNodes: seq<Digest>, pathNodes: seq<Digest>, commonPrefixCount: nat,
                       ghost root: Digest, ghost before: set<Digest>)
      returns (currentHash: Slice)
      requires sc.Length == 2 && turn < 2 && start == Buf(1 - turn) && nodes == Store(nodes.Keys)
      requires Canonical(root, 0) && IsWalk(root, path, sideNodes, pathNodes) && commonPrefixCount <= Depth
      requires forall i, j | 0 <= i < j < |pathNodes| :: pathNodes[i] != pathNodes[j]
      requires forall h | h in pathNodes[1..] :: h in before
      requires StartsAt(root, path, |sideNodes|, StartDepth(sideNodes, commonPrefixCount))
      requires var m := StartDepth(sideNodes, commonPrefixCount); var x := PutTo(root, path, m, value);
        && sc[1 - turn] == x
        && (forall h | h in Spine(x, m, path) :: h !in pathNodes)
        && nodes.Keys == before + Spine(x, m, path) - if path in Bindings(root) then {pathNodes[0]} else {}
      modifies this`nodes, sc
      ensures ValidSlice(sc, currentHash) && Deref(sc, currentHash) == Put(root, 0, path, value)
      ensures nodes == Store((before - Replaced(root, 0, path)) + Spine(Put(root, 0, path, value), 0, path))
    {
      hide Right, AgreeBelow, Canonical, Bindings, Reach, Spine, LastSibling, Descend, NodesAbove;
      hide Put, PutTo, Replaced, Sibling, Child, IsWalk, Store, StartsAt;
      ghost var m := StartDepth(sideNodes, commonPrefixCount);
      StartIsInTree(root, path, sideNodes, pathNodes, m);
      forall h | h in pathNodes[1..] ensures h in nodes && h != pathNodes[0] {
        assert h in pathNodes;
      }
      var deleted := DeleteNodes(pathNodes[1..]);
      assert deleted.Ok?;
      UpdateBase(root, path, sideNodes, pathNodes, before, Spine(PutTo(root, path, m, value), m, path));
      currentHash := RebuildAbove(sc, turn, start, path, value, sideNodes, pathNodes, commonPrefixCount,
                                  root, before - Replaced(root, 0, path));
    }

    // The loop of updateWithSideNodes: one node per level, with a placeholder beside the new leaf's
    // subtree down to the common prefix and the side nodes of the walk above the old leaf.
    method RebuildAbove(sc: array<Digest>, turn0: nat, start: Slice, path: Path, ghost value: Bytes,
                        sideNodes: seq<Digest>, ghost pathNodes: seq<Digest>, commonPrefixCount: nat,
                        ghost root: Digest, ghost kept: set<Digest>)
      returns (currentHash: Slice)
      requires sc.Length == 2 && turn0 < 2 && start == Buf(1 - turn0) && nodes == Store(nodes.Keys)
      requires Canonical(root, 0) && IsWalk(root, path, sideNodes, pathNodes) && commonPrefixCount <= Depth
      requires StartsAt(root, path, |sideNodes|, StartDepth(sideNodes, commonPrefixCount))
      requires var m := StartDepth(sideNodes, commonPrefixCount); var x := PutTo(root, path, m, value);
        sc[1 - turn0] == x && nodes.Keys == kept + Spine(x, m, path)
      modifies this`nodes, sc
      ensures ValidSlice(sc, currentHash) && Deref(sc, currentHash) == Put(root, 0, path, value)
      ensures nodes == Store(kept + Spine(Put(root, 0, path, value), 0, path))
    {
      hide Right, AgreeBelow, Canonical, Bindings, Reach, Spine, LastSibling, Descend, NodesAbove;
      hide Put, PutTo, Replaced, Sibling, Child, Store, StartsAt, IsWalk;
      ghost var m := StartDepth(sideNodes, commonPrefixCount);
      StartIsInTree(root, path, sideNodes, pathNodes, m);
      AtTheRoot(root, path, value);
      var turn := turn0;
      currentHash := start;
      var offsetOfSideNodes := Depth - |sideNodes|;
      var i := 0;
      while i < Depth
        invariant i <= Depth && turn < 2 && nodes == Store(nodes.Keys)
        // The buffer in use is not the next one written.
        invariant currentHash == Buf(1 - turn)
        invariant sc[1 - turn] == PutTo(root, path, Min(Depth - i, m), value)
        invariant nodes.Keys == kept + Spine(PutTo(root, path, Min(Depth - i, m), value), Min(Depth - i, m), path)
      {
        var sideNode;
        i := i + 1;
        ghost var k := Depth - i;
        if k < m {
          UpdateLevel(root, path, value, sideNodes, pathNodes, m, k);
        }
        if i - 1 - offsetOfSideNodes < 0 {
          if commonPrefixCount != Depth && commonPrefixCount > Depth - i {
            sideNode := Zero;
          } else {
            continue;
          }
        } else {
          sideNode := sideNodes[i - 1 - offsetOfSideNodes];
        }
        currentHash := SetParent(sc, turn, path, Depth - i, sideNode, currentHash);
        turn := 1 - turn;
      }
    }

    // UpdateForRoot: writes below any root whose tree the stores are a part of. The empty value
    // deletes. The scratch buffers come from a pool, so their contents are arbitrary. Setting the
    // value a path already has returns the tree's own root, whatever root was asked for; so the
    // result is right exactly when that is not the case or the two roots are one.
    method UpdateForRoot(path: Path, value: Bytes, root: Digest) returns (res: Result<Digest>)
      requires Partial(ContentsAt(root))
      modifies this`nodes, this`values
      ensures res.Ok? <==> old(Ready(ContentsAt(root), path, value))
      ensures res.Ok? && !Binds(root, path, value) ==>
        ContentsAt(res.value) == old(AfterWrite(ContentsAt(root), path, value))
      ensures res.Ok? && Binds(root, path, value) ==> ContentsAt(res.value) == old(Contents())
      ensures res.Ok? ==>
        (ContentsAt(res.value) == old(AfterWrite(ContentsAt(root), path, value)) <==>
         (Binds(root, path, value) ==> root == this.root))
      ensures res.Err? ==> res.error == InvalidKey
      ensures res.Err? ==> ContentsAt(root) == old(AfterFailure(ContentsAt(root), path, value))
    {
      hide Right, AgreeBelow, Canonical, Bindings, Canon, Reach, Spine, LastSibling, IsWalk, Put, Drop, Replaced, Inner;
      ghost var before := ContentsAt(root);
      var sc := new Digest[2];
      var w := FillSideNodes(path, root, false);
      if w.Err? {
        return Err(w.error);
      }
      var Walk(sideNodes, pathNodes, oldLeafData, _) := w.value;
      ReadyByWalk(before, path, sideNodes, pathNodes);
      if value == DefaultValue {
        var newRoot := DeleteWithSideNodes(sc, path, sideNodes, pathNodes, oldLeafData, root);
        if newRoot == Err(KeyAlreadyEmpty) {
          AfterNothing(before, path, value);
          return Ok(root);
        }
        AfterDrop(before, path);
        if path !in values {
          assert values - {path} == values;
          return Err(InvalidKey);
        }
        values := values - {path};
        if newRoot.Err? {
          return Err(newRoot.error);
        }
        return Ok(Deref(sc, newRoot.value));
      } else {
        var newRoot := UpdateWithSideNodes(sc, path, value, sideNodes, pathNodes, oldLeafData, root);
        if newRoot.Err? {
          return Err(newRoot.error);
        }
        if Binds(root, path, value) {
          AfterNothing(before, path, value);
        } else {
          AfterPut(before, path, value);
        }
        return Ok(Deref(sc, newRoot.value));
      }
    }

    // Update. On a complete tree it never fails, and gives the state of the new map.
    method Update(path: Path, value: Bytes) returns (res: Result<Digest>)
      requires Partial(Contents())
      modifies this
      ensures old(Exact(Contents())) ==>
        res.Ok? && Exact(Contents()) && Contents() == StateOf(Write(old(values), path, value))
      ensures old(Exact(Contents())) ==>
        values == if value == [] then old(values) - {path} else old(values)[path := value]
      ensures res.Ok? <==> old(Ready(Contents(), path, value))
      ensures res.Ok? ==> Contents() == old(AfterWrite(Contents(), path, value)) && res.value == root
      ensures res.Ok? ==> Partial(Contents())
      ensures res.Err? ==> res.error == InvalidKey && Contents() == old(AfterFailure(Contents(), path, value))
      ensures res.Err? ==> root == old(root) && values == if value == [] && old(Spine(root, 0, path) <= nodes.Keys)
        then old(values) - {path} else old(values)
    {
      WritesWhenExact(Contents(), path, value);
      EmptyMeansAbsent(values, path, value);
      var newRoot := UpdateForRoot(path, value, root);
      if newRoot.Err? {
        return Err(newRoot.error);
      }
      root := newRoot.value;
      AfterWriteIsPartial(old(Contents()), path, value);
      return Ok(root);
    }

    method Delete(path: Path) returns (res: Result<Digest>)
      requires Partial(Contents())
      modifies this
      ensures old(Exact(Contents())) ==>
        res.Ok? && Exact(Contents()) && Contents() == StateOf(Write(old(values), path, DefaultValue))
      ensures old(Exact(Contents())) ==> values == old(values) - {path}
      ensures res.Ok? <==> old(Ready(Contents(), path, DefaultValue))
      ensures res.Ok? ==> Contents() == old(AfterWrite(Contents(), path, DefaultValue)) && res.value == root
      ensures res.Ok? ==> Partial(Contents())
      ensures res.Err? ==> res.error == InvalidKey
      ensures res.Err? ==> Contents() == old(AfterFailure(Contents(), path, DefaultValue))
    {
      res := Update(path, DefaultValue);
    }

    // doProveForRoot: ProveForRoot, and with isUpdatable ProveUpdatableForRoot.
    method ProveForRoot(path: Path, root: Digest, isUpdatable: bool) returns (res: Result<SparseMerkleProof>)
      requires Partial(ContentsAt(root))
      ensures res.Ok? <==> (Spine(root, 0, path) <= nodes.Keys && (isUpdatable ==> SiblingStored(path, root)))
      ensures res.Ok? ==> Accepts(res.value, root, path, Lookup(Bindings(root), path))
      ensures res.Ok? ==> res.value.siblingData.Some? == (isUpdatable && res.value.sideNodes != [])
      ensures res.Ok? ==> res.value.nonMembershipLeafData == OtherLeaf(root, path, |res.value.sideNodes|)
      ensures Exact(ContentsAt(root)) ==> res.Ok?
    {
      hide Right, AgreeBelow, Canonical, Bindings, Canon, Reach, Spine, LastSibling, IsWalk, Accepts;
      SpineInReach(root, 0, path);
      LastSiblingInReach(root, 0, path);
      ReachIsHashed(root, 0);
      var w := FillSideNodes(path, root, isUpdatable);
      if w.Err? {
        return Err(w.error);
      }
      var Walk(sideNodes, pathNodes, leafData, siblingData) := w.value;
      WalkEnds(root, path, sideNodes, pathNodes);
      CanonicalIsStorable(root, 0);
      var nonMembershipLeafData := None;
      if pathNodes[0] != Zero {
        var LeafData(actualPath, valueHash) := leafData.value;
        if actualPath != path {
          nonMembershipLeafData := Some(LeafFields(actualPath, valueHash));
        }
      }
      var proof := SparseMerkleProof(sideNodes, nonMembershipLeafData, siblingData);
      LastSiblingOfWalk(root, path, sideNodes, pathNodes);
      WalkIsAccepted(root, path, proof, pathNodes);
      return Ok(proof);
    }

    // Prove and ProveUpdatable.
    method Prove(path: Path, isUpdatable: bool) returns (res: Result<SparseMerkleProof>)
      requires Partial(Contents())
      ensures res.Ok? <==> (Spine(root, 0, path) <= nodes.Keys && (isUpdatable ==> SiblingStored(path, root)))
      ensures res.Ok? ==> Accepts(res.value, root, path, Lookup(Bindings(root), path))
      ensures res.Ok? ==> res.value.siblingData.Some? == (isUpdatable && res.value.sideNodes != [])
      ensures res.Ok? ==> res.value.nonMembershipLeafData == OtherLeaf(root, path, |res.value.sideNodes|)
      ensures Exact(Contents()) ==> res.Ok?
    {
      res := ProveForRoot(path, root, isUpdatable);
    }

    // GetDescend: walks from the root; at full depth it trusts the value store.
    method GetDescend(path: Path) returns (res: Result<Bytes>)
      requires Partial(Contents())
      ensures res.Ok? ==> res.value == Lookup(Bindings(root), path)
      ensures res.Err? ==> res.error == InvalidKey
      ensures res.Ok? <==> DescentStored(path) && (path in Bindings(root) ==> path in values)
      ensures Known(Contents(), path) ==> res.Ok?
      ensures Exact(Contents()) ==> res == Ok(if path in values then values[path] else [])
    {
      hide Right, AgreeBelow, Canonical, Bindings, Canon, Reach, Spine, Descend, NodesAbove;
      SpineInReach(root, 0, path);
      DescentBegins(root, path);
      DescentOver(root, path, 0);
      if root == Zero {
        return Ok(DefaultValue);
      }
      var currentHash := root;
      var i := 0;
      while i < Depth
        invariant i <= Depth && NodesAbove(root, path, i) && Descend(root, path, i) == currentHash
        invariant currentHash != Zero
        invariant forall k: nat | k < i :: Descend(root, path, k) in nodes
      {
        DescentEnds(root, path, i);
        DescentOver(root, path, i);
        if currentHash !in nodes {
          return Err(InvalidKey);
        }
        var currentData := nodes[currentHash];
        if currentData.LeafData? {
          if path != currentData.path {
            return Ok(DefaultValue);
          }
          if path !in values {
            return Err(InvalidKey);
          }
          return Ok(values[path]);
        }
        DescentContinues(root, path, i);
        if Right(path, i) {
          currentHash := currentData.right;
        } else {
          currentHash := currentData.left;
        }
        i := i + 1;
        if currentHash == Zero {
          DescentEnds(root, path, i);
          DescentOver(root, path, i);
          return Ok(DefaultValue);
        }
      }
      DescentEnds(root, path, i);
      FullDepthIsBound(root, path);
      if path !in values {
        return Err(InvalidKey);
      }
      return Ok(values[path]);
    }

    // The digests that a descent toward path looks up: those met above full depth.
    ghost predicate DescentStored(path: Path)
      reads this
    {
      forall k: nat | k < Depth && NodesAbove(root, path, k) && Descend(root, path, k) != Zero ::
        Descend(root, path, k) in nodes
    }

    ghost predicate SiblingStored(path: Path, root: Digest)
      reads this`nodes
    {
      LastSibling(root, 0, path).Some? ==> LastSibling(root, 0, path).value in nodes
    }
  }

  // The leaf for another path that the walk meets at depth n, if it does.
  ghost function OtherLeaf(t: Digest, p: Path, n: nat): Option<LeafFields> {
    if n <= Depth && IsLeaf(Descend(t, p, n)) && Descend(t, p, n).preimage.path != p
    then Some(LeafFields(Descend(t, p, n).preimage.path, Descend(t, p, n).preimage.valueHash)) else None
  }

  ghost function SiblingDataOf(t: Digest, p: Path, wanted: bool): Option<Data> {
    if wanted && LastSibling(t, 0, p).Some? && LastSibling(t, 0, p).value.Hash?
    then Some(LastSibling(t, 0, p).value.preimage) else None
  }

  // How the ends of a walk tell whether the path is bound.
  lemma WalkEnds(t: Digest, p: Path, sideNodes: seq<Digest>, pathNodes: seq<Digest>)
    requires Canonical(t, 0) && IsWalk(t, p, sideNodes, pathNodes)
    ensures var n, u := |sideNodes|, pathNodes[0];
      && n <= Depth && |pathNodes| == n + 1 && u == Descend(t, p, n) && (u.Zero? || IsLeaf(u))
      && (p in Bindings(t) <==> IsLeaf(u) && u.preimage.path == p)
      && (p in Bindings(t) ==> u == LeafOf(p, Bindings(t)[p]))
  {
    hide Right, AgreeBelow, Child, Sibling, Descend;
    DescendCanonical(t, p, |sideNodes|);
    LightSpine(pathNodes[0], |sideNodes|, p);
    LightIsSmall(pathNodes[0], |sideNodes|);
  }

  lemma DeleteStart(t: Digest, p: Path, sideNodes: seq<Digest>, pathNodes: seq<Digest>)
    requires Canonical(t, 0) && IsWalk(t, p, sideNodes, pathNodes)
    ensures |sideNodes| <= Depth && |pathNodes| == |sideNodes| + 1
    ensures p in Bindings(t) ==>
      DropTo(t, p, |sideNodes|) == Zero && Inner(DropTo(t, p, |sideNodes|), |sideNodes|, p) == {}
  {
    hide Right, Canonical, Bindings, Drop, DropTo, Inner;
    if p in Bindings(t) { DropStart(t, p, |sideNodes|); }
  }

  // One level of the delete walk: lift the sibling leaf, pass a placeholder, or build a node.
  lemma DeleteLevel(t: Digest, p: Path, sideNodes: seq<Digest>, pathNodes: seq<Digest>, i: nat)
    requires Canonical(t, 0) && IsWalk(t, p, sideNodes, pathNodes) && i < |sideNodes|
    ensures var k := |sideNodes| - 1 - i;
      var x, c, s := DropTo(t, p, k), DropTo(t, p, k + 1), sideNodes[i];
      && k < Depth && (s.Zero? || IsLeaf(s) || IsNode(s))
      && if (c.Zero? && Light(s)) || (s.Zero? && Light(c)) then
           x == (if c.Zero? then s else c) && Inner(x, k, p) == {}
         else
           x == (if Right(p, k) then NodeOf(s, c) else NodeOf(c, s)) && Inner(x, k, p) == {x} + Inner(c, k + 1, p)
  {
    hide Right, Canonical, Bindings, Drop, DropTo, Inner, Sibling, Child, Descend;
    DropStep(t, p, |sideNodes| - 1 - i);
  }

  // The depth of the first subtree the update builds.
  function StartDepth(sideNodes: seq<Digest>, commonPrefixCount: nat): nat {
    if commonPrefixCount == Depth then |sideNodes| else commonPrefixCount
  }

  function Min(a: int, b: int): int {
    if a < b then a else b
  }

  lemma StartIsInTree(t: Digest, p: Path, sideNodes: seq<Digest>, pathNodes: seq<Digest>, m: nat)
    requires IsWalk(t, p, sideNodes, pathNodes) && StartsAt(t, p, |sideNodes|, m)
    ensures |sideNodes| <= m <= Depth && |pathNodes| == |sideNodes| + 1
  {
  }

  lemma DescentBegins(t: Digest, p: Path)
    requires Canonical(t, 0)
    ensures NodesAbove(t, p, 0) && Descend(t, p, 0) == t
    ensures t.Zero? ==> p !in Bindings(t)
  {
  }

  lemma DescentEnds(t: Digest, p: Path, k: nat)
    requires Canonical(t, 0) && k <= Depth && NodesAbove(t, p, k)
    ensures var u := Descend(t, p, k);
      && (u.Zero? || IsLeaf(u) || IsNode(u)) && (u.Zero? || u in Spine(t, 0, p))
      && (u.Zero? ==> p !in Bindings(t))
      && (IsLeaf(u) ==> (p in Bindings(t) <==> u.preimage.path == p))
  {
    hide Right, AgreeBelow, Spine;
    DescendInSpine(t, p, k);
    DescendCanonical(t, p, k);
    if !IsNode(Descend(t, p, k)) { LightSpine(Descend(t, p, k), k, p); }
  }

  // A descent goes no further than where it meets no node.
  lemma DescentOver(t: Digest, p: Path, i: nat)
    requires i <= Depth
    ensures !IsNode(Descend(t, p, i)) ==> forall k: nat | k <= Depth && NodesAbove(t, p, k) :: k <= i
  {
    hide Descend;
  }

  lemma DescentContinues(t: Digest, p: Path, k: nat)
    requires k < Depth && NodesAbove(t, p, k) && IsNode(Descend(t, p, k))
    ensures NodesAbove(t, p, k + 1)
    ensures Descend(t, p, k + 1) ==
      if Right(p, k) then Descend(t, p, k).preimage.right else Descend(t, p, k).preimage.left
  {
  }

  // A leaf at full depth can only be the leaf of the path itself.
  lemma FullDepthIsBound(t: Digest, p: Path)
    requires Canonical(t, 0) && NodesAbove(t, p, Depth) && !Descend(t, p, Depth).Zero?
    ensures p in Bindings(t)
  {
    hide Right, AgreeBelow, Canonical;
    var u := Descend(t, p, Depth);
    DescendCanonical(t, p, Depth);
    DescendUnder(t, p, Depth);
    NodeBindsTwo(u, Depth);
    var q :| q in Bindings(u);
    SameWayToTheEnd(p, q);
  }

  // What readiness asks for, told from the walk.
  lemma ReadyByWalk(s: State, p: Path, sideNodes: seq<Digest>, pathNodes: seq<Digest>)
    requires Partial(s) && IsWalk(s.root, p, sideNodes, pathNodes) && Spine(s.root, 0, p) <= s.nodes.Keys
    ensures |pathNodes| > 0 && forall h | h in pathNodes :: h.Zero? || h in s.nodes
    ensures p in Bindings(s.root) ==> pathNodes[0] == LeafOf(p, Bindings(s.root)[p])
    ensures !Binds(s.root, p, DefaultValue)
    ensures LastSibling(s.root, 0, p) == if sideNodes == [] then None else Some(sideNodes[0])
  {
    hide Right, AgreeBelow, Canonical, Bindings, Spine, LastSibling, Descend, Sibling, NodesAbove;
    CanonicalIsStorable(s.root, 0);
    WalkEnds(s.root, p, sideNodes, pathNodes);
    SpineOfWalk(s.root, p, sideNodes, pathNodes);
    LastSiblingOfWalk(s.root, p, sideNodes, pathNodes);
  }

  lemma WritesWhenExact(s: State, p: Path, v: Bytes)
    ensures Exact(s) ==> Ready(s, p, v) && AfterWrite(s, p, v) == StateOf(Write(s.values, p, v))
    ensures Exact(s) ==> Exact(StateOf(Write(s.values, p, v)))
  {
    hide Exact, Ready, AfterWrite, StateOf, Storable;
    ExactIsStateOf(s);
    if Exact(s) {
      AfterWriteIsExact(s.values, p, v);
      ExactStateOf(Write(s.values, p, v));
    }
  }

  lemma AfterNothing(s: State, p: Path, v: Bytes)
    requires Partial(s)
    requires if v == DefaultValue then p !in Bindings(s.root) else Binds(s.root, p, v)
    ensures AfterWrite(s, p, v) == s
  {
    hide Right, AgreeBelow, Canonical, Bindings, Canon, Reach;
    RootIsCanon(s.root);
    assert Write(Bindings(s.root), p, v) == Bindings(s.root);
    assert Carry(s.nodes.Keys, s.root, s.root) == s.nodes.Keys;
    if v == DefaultValue { assert s.values - {p} == s.values; }
  }

  lemma AfterPut(s: State, p: Path, v: Bytes)
    requires Partial(s) && v != DefaultValue && !Binds(s.root, p, v)
    ensures var put := Put(s.root, 0, p, v);
      AfterWrite(s, p, v) ==
      State(Store((s.nodes.Keys - Replaced(s.root, 0, p)) + Spine(put, 0, p)), s.values[p := v], put)
  {
    hide Right, AgreeBelow, Canonical, Bindings, Canon, Reach, Put, Replaced, Spine;
    PutAtRoot(s.root, p, v, s.nodes.Keys);
    RootIsCanon(Put(s.root, 0, p, v));
  }

  lemma AfterDrop(s: State, p: Path)
    requires Partial(s) && p in Bindings(s.root)
    ensures var drop := Drop(s.root, 0, p);
      AfterWrite(s, p, DefaultValue) ==
      State(Store((s.nodes.Keys - Spine(s.root, 0, p)) + Inner(drop, 0, p)), s.values - {p}, drop)
  {
    hide Right, AgreeBelow, Canonical, Bindings, Canon, Reach, Drop, Inner, Spine;
    DropAtRoot(s.root, p, s.nodes.Keys);
    RootIsCanon(s.root);
    RootIsCanon(Drop(s.root, 0, p));
  }

  lemma UpdateStart(t: Digest, p: Path, v: Bytes, sideNodes: seq<Digest>, pathNodes: seq<Digest>)
    requires Canonical(t, 0) && IsWalk(t, p, sideNodes, pathNodes) && v != DefaultValue
    ensures |sideNodes| <= Depth && |pathNodes| == |sideNodes| + 1
    ensures pathNodes[0].Zero? || IsLeaf(pathNodes[0])
    ensures p in Bindings(t) <==> IsLeaf(pathNodes[0]) && pathNodes[0].preimage.path == p
    ensures Binds(t, p, v) <==> pathNodes[0] == LeafOf(p, v)
    ensures pathNodes[0].Zero? || p in Bindings(t) ==> StartsAt(t, p, |sideNodes|, |sideNodes|)
    ensures Zero !in pathNodes[1..]
    ensures forall i, j | 0 <= i < j < |pathNodes| :: pathNodes[i] != pathNodes[j]
  {
    hide Right, AgreeBelow, Canonical, Bindings, Descend, Child, Sibling, Spine;
    WalkEnds(t, p, sideNodes, pathNodes);
    SpineOfWalk(t, p, sideNodes, pathNodes);
  }

  lemma UpdateStartsAt(t: Digest, p: Path, sideNodes: seq<Digest>, pathNodes: seq<Digest>, m: nat)
    requires Canonical(t, 0) && IsWalk(t, p, sideNodes, pathNodes)
    requires IsLeaf(pathNodes[0]) && pathNodes[0].preimage.path != p
    requires m < Depth && SameWay(p, pathNodes[0].preimage.path, m)
    requires Right(p, m) != Right(pathNodes[0].preimage.path, m)
    ensures StartsAt(t, p, |sideNodes|, m)
  {
    hide Right, AgreeBelow, Canonical, Bindings, Child, Sibling;
    WalkEnds(t, p, sideNodes, pathNodes);
    PrefixIsStart(t, p, |sideNodes|, m);
  }

  // What is set before the loop, and that the tree had none of it.
  lemma UpdateSets(t: Digest, p: Path, v: Bytes, sideNodes: seq<Digest>, pathNodes: seq<Digest>, m: nat)
    requires Canonical(t, 0) && IsWalk(t, p, sideNodes, pathNodes) && v != DefaultValue
    requires StartsAt(t, p, |sideNodes|, m) && !Binds(t, p, v)
    ensures var u, leaf, x := pathNodes[0], LeafOf(p, v), PutTo(t, p, m, v);
      if u.Zero? || p in Bindings(t) then x == leaf && Spine(x, m, p) == {leaf}
      else m < Depth && x == (if Right(p, m) then NodeOf(u, leaf) else NodeOf(leaf, u)) && Spine(x, m, p) == {x, leaf}
    ensures forall h | h in Spine(PutTo(t, p, m, v), m, p) :: h !in pathNodes
  {
    hide Right, AgreeBelow, Canonical, Bindings, Descend, Child, Sibling, Spine;
    var n := |sideNodes|;
    WalkEnds(t, p, sideNodes, pathNodes);
    PutStart(t, p, n, m, v);
    StartUnder(t, p, n, m);
    PutCorrect(Descend(t, p, m), m, p, v);
    SpineOfWalk(t, p, sideNodes, pathNodes);
    SpineInReach(t, 0, p);
    forall h | h in Spine(PutTo(t, p, m, v), m, p) ensures h !in pathNodes {
      SpineBinds(PutTo(t, p, m, v), m, p, h);
      if h in pathNodes {
        assert h != Zero by { LightIsSmall(Zero, 0); }
        ReachBinds(t, 0, h);
      }
    }
  }

  lemma StartUnder(t: Digest, p: Path, n: nat, m: nat)
    requires Canonical(t, 0) && StartsAt(t, p, n, m)
    ensures Canonical(Descend(t, p, m), m) && Under(Bindings(Descend(t, p, m)), p, m)
  {
    hide Right, AgreeBelow, Canonical, Child;
    DescendStays(t, p, n, m);
    DescendCanonical(t, p, m);
    DescendUnder(t, p, n);
    DescendCanonical(t, p, n);
    LightIsSmall(Descend(t, p, n), n);
  }

  // Setting first and deleting afterwards leaves what was set.
  lemma UpdateBase(t: Digest, p: Path, sideNodes: seq<Digest>, pathNodes: seq<Digest>,
                   keys: set<Digest>, made: set<Digest>)
    requires Canonical(t, 0) && IsWalk(t, p, sideNodes, pathNodes)
    requires forall h | h in made :: h !in pathNodes
    ensures var gone := if p in Bindings(t) then {pathNodes[0]} else {};
      (keys + made - gone) - (set h | h in pathNodes[1..]) == (keys - Replaced(t, 0, p)) + made
  {
    hide Right, AgreeBelow, Canonical, Bindings, Descend, Child, Sibling, Spine, Replaced;
    SpineOfWalk(t, p, sideNodes, pathNodes);
    assert forall h :: h in pathNodes[1..] ==> h in pathNodes;
  }

  lemma UpdateLevel(t: Digest, p: Path, v: Bytes, sideNodes: seq<Digest>, pathNodes: seq<Digest>, m: nat, k: nat)
    requires Canonical(t, 0) && IsWalk(t, p, sideNodes, pathNodes)
    requires StartsAt(t, p, |sideNodes|, m) && k < m
    ensures var x, c := PutTo(t, p, k, v), PutTo(t, p, k + 1, v);
      var s := if k < |sideNodes| then sideNodes[|sideNodes| - 1 - k] else Zero;
      && x == (if Right(p, k) then NodeOf(s, c) else NodeOf(c, s))
      && Spine(x, k, p) == {x} + Spine(c, k + 1, p)
  {
    hide Right, Canonical, Bindings, Put, PutTo, Spine, Sibling, Child, Descend;
    PutStep(t, p, |sideNodes|, m, k, v);
  }

  // The sibling of a bound leaf is off the walk.
  lemma FirstSiblingKept(t: Digest, p: Path, sideNodes: seq<Digest>, pathNodes: seq<Digest>)
    requires Canonical(t, 0) && IsWalk(t, p, sideNodes, pathNodes) && p in Bindings(t)
    ensures sideNodes != [] ==> sideNodes[0] !in Spine(t, 0, p)
  {
    hide Right, AgreeBelow, Child, Sibling, Descend, Spine, Bindings;
    if sideNodes != [] && sideNodes[0] in Spine(t, 0, p) {
      var k := |sideNodes| - 1;
      SpineBinds(t, 0, p, sideNodes[0]);
      DescendCanonical(t, p, k);
      NodeParts(Descend(t, p, k), k, p);
    }
  }

  lemma NoStepsYet(t: Digest, p: Path)
    ensures WalkSoFar(t, p, 0, [], [t])
    ensures !IsNode(t) ==> IsWalk(t, p, [], [t])
  {
  }

  // What the last digest of a walk can be, and that the walk's success hangs on its being stored.
  lemma WalkReaches(t: Digest, p: Path, n: nat, sideNodes: seq<Digest>, pathNodes: seq<Digest>)
    requires Canonical(t, 0) && WalkSoFar(t, p, n, sideNodes, pathNodes)
    ensures var x := pathNodes[n];
      && (x.Zero? || x in Spine(t, 0, p))
      && (IsNode(x) ==> n < Depth)
      && (x.Zero? || IsLeaf(x) || IsNode(x))
  {
    hide Right, Child, Sibling, Canonical, Spine;
    DescendInSpine(t, p, n);
  }

  method ReverseSlices(sideNodes: seq<Digest>, pathNodes: seq<Digest>) returns (s: seq<Digest>, p: seq<Digest>)
    ensures s == Reversed(sideNodes) && p == Reversed(pathNodes)
  {
    var a := new Digest[|sideNodes|](i requires 0 <= i < |sideNodes| => sideNodes[i]);
    var b := new Digest[|pathNodes|](i requires 0 <= i < |pathNodes| => pathNodes[i]);
    assert a[..] == sideNodes && b[..] == pathNodes;
    ReverseByteSlicesInPlace(a);
    ReverseByteSlicesInPlace(b);
    return a[..], b[..];
  }
}
