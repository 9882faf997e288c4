// Deep subtrees (deepsubtree.go): a tree object that holds only what proofs revealed.
module DeepSubtrees {
  import opened Utils
  import opened TreeHasher
  import opened Trees
  import opened Writes
  import opened Walks
  import opened States
  import opened SymbolicProofs
  import opened SparseMerkleTrees

  // verifyProofWithUpdates: the verdict, and every digest recomputed on the way with its data.
  method VerifyProofWithUpdates(proof: SparseMerkleProof, root: Digest, path: Path, value: Bytes)
    returns (result: bool, updates: seq<(Digest, Data)>)
    ensures result == Accepts(proof, root, path, value)
    ensures forall u | u in updates :: u.0 == Hash(u.1)
    ensures result ==>
      Keys(updates) == Folded(proof.sideNodes, path, StartDigest(proof, path, value).value, |proof.sideNodes|)
  {
    if !SanityCheck(proof) {
      return false, [];
    }
    updates := [];
    var currentHash;
    if value == DefaultValue {
      if proof.nonMembershipLeafData.None? {
        currentHash := Zero;
      } else {
        var LeafFields(actualPath, valueHash) := proof.nonMembershipLeafData.value;
        if actualPath == path {
          return false, [];
        }
        var currentData := LeafData(actualPath, valueHash);
        currentHash := Hash(currentData);
        KeysOfOneMore([], currentHash, currentData);
        updates := updates + [(currentHash, currentData)];
      }
    } else {
      var valueHash := Hash(Raw(value));
      var currentData := LeafData(path, valueHash);
      currentHash := Hash(currentData);
      KeysOfOneMore([], currentHash, currentData);
      updates := updates + [(currentHash, currentData)];
    }
    currentHash, updates := RecomputeRoot(proof.sideNodes, path, currentHash, updates);
    return currentHash == root, updates;
  }

  // The loop of verifyProofWithUpdates.
  method RecomputeRoot(sideNodes: seq<Digest>, path: Path, start: Digest, revealed: seq<(Digest, Data)>)
    returns (currentHash: Digest, updates: seq<(Digest, Data)>)
    requires |sideNodes| <= Depth && Keys(revealed) == Folded(sideNodes, path, start, 0)
    requires forall u | u in revealed :: u.0 == Hash(u.1)
    ensures currentHash == FoldUp(NodeOf, path, 0, sideNodes, start)
    ensures Keys(updates) == Folded(sideNodes, path, start, |sideNodes|)
    ensures forall u | u in updates :: u.0 == Hash(u.1)
  {
    hide Right, FoldUp, Folded, Keys;
    var n := |sideNodes|;
    currentHash, updates := start, revealed;
    FoldNothing(sideNodes, path, start);
    var i := 0;
    while i < n
      invariant i <= n
      invariant currentHash == FoldUp(NodeOf, path, n - i, sideNodes[..i], start)
      invariant forall u | u in updates :: u.0 == Hash(u.1)
      invariant Keys(updates) == Folded(sideNodes, path, start, i)
    {
      var node := sideNodes[i];
      var currentData;
      FoldOneMore(sideNodes, path, start, i);
      if Right(path, n - 1 - i) {
        currentData := NodeData(node, currentHash);
      } else {
        currentData := NodeData(currentHash, node);
      }
      currentHash := Hash(currentData);
      KeysOfOneMore(updates, currentHash, currentData);
      updates := updates + [(currentHash, currentData)];
      i := i + 1;
    }
    assert sideNodes[..n] == sideNodes;
  }

  function Keys(updates: seq<(Digest, Data)>): set<Digest> {
    set u | u in updates :: u.0
  }

  lemma KeysOfOneMore(updates: seq<(Digest, Data)>, hash: Digest, data: Data)
    ensures Keys(updates + [(hash, data)]) == Keys(updates) + {hash}
  {
    var more := updates + [(hash, data)];
    assert more[|updates|] == (hash, data);
    forall u | u in updates ensures u in more {
      var i :| 0 <= i < |updates| && updates[i] == u;
      assert more[i] == u;
    }
  }

  // The start digest, unless a placeholder, and the first n digests folded above it.
  ghost function Folded(sideNodes: seq<Digest>, path: Path, start: Digest, n: nat): set<Digest>
    requires n <= |sideNodes| <= Depth
  {
    if n == 0 then if start.Zero? then {} else {start}
    else Folded(sideNodes, path, start, n - 1) + {FoldUp(NodeOf, path, |sideNodes| - n, sideNodes[..n], start)}
  }

  lemma FoldNothing(sideNodes: seq<Digest>, path: Path, start: Digest)
    requires |sideNodes| <= Depth
    ensures FoldUp(NodeOf, path, |sideNodes|, sideNodes[..0], start) == start
  {
  }

  lemma FoldOneMore(sideNodes: seq<Digest>, path: Path, start: Digest, i: nat)
    requires i < |sideNodes| <= Depth
    ensures var n := |sideNodes|;
      var c := FoldUp(NodeOf, path, n - i, sideNodes[..i], start);
      var x := FoldUp(NodeOf, path, n - i - 1, sideNodes[..i + 1], start);
      && x == (if Right(path, n - 1 - i) then NodeOf(sideNodes[i], c) else NodeOf(c, sideNodes[i]))
      && Folded(sideNodes, path, start, i + 1) == Folded(sideNodes, path, start, i) + {x}
  {
    hide Right;
    assert sideNodes[..i + 1][..i] == sideNodes[..i];
  }

  // The digests an accepted proof reveals are the walk's, all of them and nothing else.
  lemma {:induction false} FoldedIsSpine(t: Digest, p: Path, proof: SparseMerkleProof, v: Bytes, j: nat)
    requires Canonical(t, 0) && Accepts(proof, t, p, v) && j <= |proof.sideNodes|
    ensures Folded(proof.sideNodes, p, StartDigest(proof, p, v).value, j)
         == Spine(Descend(t, p, |proof.sideNodes| - j), |proof.sideNodes| - j, p)
  {
    hide Right, AgreeBelow, Canonical, Bindings, Child, Sibling, Spine, FoldUp, Descend;
    var s, n, start := proof.sideNodes, |proof.sideNodes|, StartDigest(proof, p, v).value;
    AcceptedIsWalk(proof, t, p, v);
    DescendCanonical(t, p, n);
    if j == 0 {
      LightSpine(Descend(t, p, n), n, p);
    } else {
      FoldedIsSpine(t, p, proof, v, j - 1);
      FoldIsWalk(t, p, n - j, s[..j], start);
      SpineStep(t, p, n - j, n);
    }
  }

  lemma SpineStep(t: Digest, p: Path, k: nat, n: nat)
    requires k < n <= Depth && NodesAbove(t, p, n)
    ensures Spine(Descend(t, p, k), k, p) == {Descend(t, p, k)} + Spine(Descend(t, p, k + 1), k + 1, p)
  {
    hide Right, Child;
    assert IsNode(Descend(t, p, k));
  }

  // ---- AddBranch ----

  ghost function SiblingShown(proof: SparseMerkleProof): set<Digest> {
    if proof.siblingData.Some? && proof.sideNodes != [] then {proof.sideNodes[0]} else {}
  }

  // The state after an accepted branch: the walk toward the path, its last sibling if shown, and
  // the value if there is one.
  ghost function AfterBranch(s: State, proof: SparseMerkleProof, p: Path, v: Bytes): State {
    State(
      Store(s.nodes.Keys + Spine(s.root, 0, p) + SiblingShown(proof)),
      if v == DefaultValue then s.values else s.values[p := v],
      s.root)
  }

  lemma SiblingShownInReach(proof: SparseMerkleProof, t: Digest, p: Path, v: Bytes)
    requires Canonical(t, 0) && Accepts(proof, t, p, v)
    ensures SiblingShown(proof) <= Reach(t)
    ensures LastSibling(t, 0, p) == if proof.sideNodes == [] then None else Some(proof.sideNodes[0])
  {
    hide Right, AgreeBelow, Canonical, Bindings, LastSibling, IsWalk, Reach;
    AcceptedIsWalk(proof, t, p, v);
    LastSiblingOfWalk(t, p, proof.sideNodes, PathNodesOf(t, p, |proof.sideNodes|));
    LastSiblingInReach(t, 0, p);
  }

  lemma AfterBranchIsPartial(s: State, proof: SparseMerkleProof, p: Path, v: Bytes)
    requires Partial(s) && Accepts(proof, s.root, p, v)
    ensures Partial(AfterBranch(s, proof, p, v)) && v == Lookup(Bindings(s.root), p)
  {
    hide Right, AgreeBelow, Canonical, Bindings, Reach, Spine, Accepts;
    AcceptedIsTrue(proof, s.root, p, v);
    SiblingShownInReach(proof, s.root, p, v);
    SpineInReach(s.root, 0, p);
    ReachIsHashed(s.root, 0);
    var u := AfterBranch(s, proof, p, v);
    assert u.nodes.Keys == s.nodes.Keys + Spine(s.root, 0, p) + SiblingShown(proof);
  }

  // A branch makes its path known, and takes nothing away: every path known stays known, and every
  // write that was ready stays ready.
  lemma BranchKeepsReady(s: State, proof: SparseMerkleProof, p: Path, v: Bytes)
    requires Partial(s) && Accepts(proof, s.root, p, v)
    ensures var after := AfterBranch(s, proof, p, v);
      && s.nodes.Keys <= after.nodes.Keys && SubMap(s.values, after.values)
      && Known(after, p) && (SiblingShown(proof) != {} || proof.sideNodes == [] ==> Ready(after, p, []))
      && (forall q | Known(s, q) :: Known(after, q))
      && (forall q: Path, w: Bytes | Ready(s, q, w) :: Ready(after, q, w))
  {
    hide Right, AgreeBelow, Canonical, Bindings, Reach, Spine, Accepts, LastSibling, Partial;
    PartialKeys(s);
    AcceptedIsTrue(proof, s.root, p, v);
    AfterBranchIsPartial(s, proof, p, v);
    var after := AfterBranch(s, proof, p, v);
    PartialKeys(after);
    BranchKeys(s, proof, p, v);
    SiblingShownInReach(proof, s.root, p, v);
    KnownIsReady(after, p);
  }

  lemma PartialKeys(s: State)
    requires Partial(s)
    ensures Canonical(s.root, 0) && SubMap(s.values, Bindings(s.root)) && Storable(Bindings(s.root))
  {
    hide Right, AgreeBelow;
    CanonicalIsStorable(s.root, 0);
  }

  lemma BranchKeys(s: State, proof: SparseMerkleProof, p: Path, v: Bytes)
    requires Partial(s) && Accepts(proof, s.root, p, v)
    ensures AfterBranch(s, proof, p, v).nodes.Keys == s.nodes.Keys + Spine(s.root, 0, p) + SiblingShown(proof)
  {
    hide Right, AgreeBelow, Canonical, Bindings, Reach, Spine, Accepts;
    SiblingShownInReach(proof, s.root, p, v);
    SpineInReach(s.root, 0, p);
    ReachIsHashed(s.root, 0);
  }

  // AddBranch: checks the proof against the root the subtree has now, then stores what it reveals.
  method AddBranch(dsmst: SparseMerkleTree, proof: SparseMerkleProof, path: Path, value: Bytes)
    returns (res: Result<()>)
    requires Partial(dsmst.Contents())
    modifies dsmst`nodes, dsmst`values
    ensures res == if Accepts(proof, dsmst.root, path, value) then Ok(()) else Err(BadProof)
    ensures res.Err? ==> dsmst.Contents() == old(dsmst.Contents())
    ensures res.Ok? ==> dsmst.Contents() == AfterBranch(old(dsmst.Contents()), proof, path, value)
    ensures old(dsmst.nodes.Keys) <= dsmst.nodes.Keys && SubMap(old(dsmst.values), dsmst.values)
    ensures dsmst.root == old(dsmst.root) && (res.Ok? ==> Known(dsmst.Contents(), path))
    ensures Partial(dsmst.Contents())
  {
    hide Right, AgreeBelow, Canonical, Bindings, Reach, Spine, Accepts, Folded;
    ghost var before := dsmst.Contents();
    var result, updates := VerifyProofWithUpdates(proof, dsmst.root, path, value);
    if !result {
      return Err(BadProof);
    }
    AfterBranchIsPartial(before, proof, path, value);
    BranchKeepsReady(before, proof, path, value);
    RevealedIsSpine(dsmst.root, path, proof, value);
    if value != DefaultValue {
      dsmst.values := dsmst.values[path := value];
    }
    var i := 0;
    while i < |updates|
      invariant i <= |updates| && dsmst.nodes == Store(dsmst.nodes.Keys)
      invariant dsmst.nodes.Keys == before.nodes.Keys + Keys(updates[..i])
      invariant dsmst.values == AfterBranch(before, proof, path, value).values && dsmst.root == before.root
    {
      var (hash, data) := updates[i];
      KeysOfOneMore(updates[..i], hash, data);
      assert updates[..i + 1] == updates[..i] + [(hash, data)];
      assert updates[i] in updates;
      dsmst.SetNode(hash, data);
      i := i + 1;
    }
    assert updates[..i] == updates;
    if proof.siblingData.Some? {
      if |proof.sideNodes| > 0 {
        dsmst.SetNode(proof.sideNodes[0], proof.siblingData.value);
      }
    }
    return Ok(());
  }

  lemma RevealedIsSpine(t: Digest, p: Path, proof: SparseMerkleProof, v: Bytes)
    requires Canonical(t, 0) && Accepts(proof, t, p, v)
    ensures Folded(proof.sideNodes, p, StartDigest(proof, p, v).value, |proof.sideNodes|) == Spine(t, 0, p)
    ensures SanityCheck(proof)
  {
    FoldedIsSpine(t, p, proof, v, |proof.sideNodes|);
  }

  // One updatable proof suffices for one operation: after adding it to an empty subtree, every
  // write of its path goes through and gives the full tree's new root.
  lemma UpdatableBranchSuffices(m: Map, proof: SparseMerkleProof, p: Path, v: Bytes)
    requires Storable(m) && Accepts(proof, RootOf(m), p, Lookup(m, p))
    requires proof.sideNodes != [] ==> proof.siblingData.Some?
    ensures var s := AfterBranch(State(map[], map[], RootOf(m)), proof, p, Lookup(m, p));
      Ready(s, p, v) && AfterWrite(s, p, v).root == StateOf(Write(m, p, v)).root
  {
    hide Right, AgreeBelow, Canonical, Bindings, Canon, Reach, Spine, Accepts, LastSibling;
    RootIsCanonical(m);
    var empty := State(map[], map[], RootOf(m));
    assert Store({}) == map[];
    assert Partial(empty);
    AfterBranchIsPartial(empty, proof, p, Lookup(m, p));
    SiblingShownInReach(proof, RootOf(m), p, Lookup(m, p));
    SpineInReach(RootOf(m), 0, p);
    ReachIsHashed(RootOf(m), 0);
    assert AfterBranch(empty, proof, p, Lookup(m, p)).nodes.Keys == Spine(RootOf(m), 0, p) + SiblingShown(proof);
  }
}
