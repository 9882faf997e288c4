// Merkle proofs over symbolic digests (proofs.go): which proofs are accepted against a root, and
// which nodes an accepted proof reveals.
module SymbolicProofs {
  import opened Utils
  import opened TreeHasher
  import opened Trees
  import opened Writes
  import opened Walks
  import opened States

  // The fields that parseLeaf reads from leaf data of the checked length.
  datatype LeafFields = LeafFields(path: Path, valueHash: Digest)

  datatype SparseMerkleProof = SparseMerkleProof(
    sideNodes: seq<Digest>,
    nonMembershipLeafData: Option<LeafFields>,
    siblingData: Option<Data>)

  // The root recomputed from a leaf digest at depth d + |sideNodes| and the side nodes above it,
  // listed from the leaf end, for any way of hashing two children.
  function FoldUp<D>(node: (D, D) -> D, path: Path, d: nat, sideNodes: seq<D>, leaf: D): D
    requires d + |sideNodes| <= Depth
    decreases |sideNodes|
  {
    if sideNodes == [] then leaf
    else
      var n := |sideNodes| - 1;
      var child := FoldUp(node, path, d + 1, sideNodes[..n], leaf);
      if Right(path, d) then node(sideNodes[n], child) else node(child, sideNodes[n])
  }

  // The digest a proof starts from; none when its unrelated leaf is not unrelated.
  function StartDigest(proof: SparseMerkleProof, path: Path, value: Bytes): Option<Digest> {
    if value != DefaultValue then Some(LeafOf(path, value))
    else if proof.nonMembershipLeafData.None? then Some(Zero)
    else
      var f := proof.nonMembershipLeafData.value;
      if f.path == path then None else Some(Hash(LeafData(f.path, f.valueHash)))
  }

  // sanityCheck; symbolic digests and leaf fields always have the right size.
  predicate SanityCheck(proof: SparseMerkleProof) {
    && |proof.sideNodes| <= Depth
    && (proof.siblingData.Some? && proof.sideNodes != [] ==> Hash(proof.siblingData.value) == proof.sideNodes[0])
  }

  predicate Accepts(proof: SparseMerkleProof, root: Digest, path: Path, value: Bytes) {
    && SanityCheck(proof)
    && StartDigest(proof, path, value).Some?
    && FoldUp(NodeOf, path, 0, proof.sideNodes, StartDigest(proof, path, value).value) == root
  }

  // A recomputed digest is met at depth d exactly when the walk from there goes along the side
  // nodes and ends at the start digest.
  lemma {:induction false} FoldIsWalk(t: Digest, p: Path, d: nat, sideNodes: seq<Digest>, leaf: Digest)
    requires d + |sideNodes| <= Depth && NodesAbove(t, p, d)
    ensures FoldUp(NodeOf, p, d, sideNodes, leaf) == Descend(t, p, d) <==>
      var n := d + |sideNodes|;
      && NodesAbove(t, p, n) && Descend(t, p, n) == leaf
      && forall i: nat | i < |sideNodes| :: sideNodes[i] == Sibling(Descend(t, p, n - 1 - i), n - 1 - i, p)
    decreases |sideNodes|
  {
    hide Right;
    if sideNodes != [] {
      var m := |sideNodes| - 1;
      var child := FoldUp(NodeOf, p, d + 1, sideNodes[..m], leaf);
      var u := Descend(t, p, d);
      if IsNode(u) {
        FoldIsWalk(t, p, d + 1, sideNodes[..m], leaf);
      }
    }
  }

  lemma WalkIsAccepted(t: Digest, p: Path, proof: SparseMerkleProof, pathNodes: seq<Digest>)
    requires IsWalk(t, p, proof.sideNodes, pathNodes) && SanityCheck(proof)
    requires StartDigest(proof, p, Lookup(Bindings(t), p)) == Some(pathNodes[0])
    ensures Accepts(proof, t, p, Lookup(Bindings(t), p))
  {
    hide Right;
    FoldIsWalk(t, p, 0, proof.sideNodes, pathNodes[0]);
  }

  // A proof is accepted exactly when its side nodes are those of the walk and the walk ends at its
  // start digest.
  lemma AcceptedIsWalk(proof: SparseMerkleProof, t: Digest, p: Path, v: Bytes)
    requires Canonical(t, 0)
    ensures Accepts(proof, t, p, v) <==>
      && SanityCheck(proof) && StartDigest(proof, p, v).Some?
      && IsWalk(t, p, proof.sideNodes, PathNodesOf(t, p, |proof.sideNodes|))
      && Descend(t, p, |proof.sideNodes|) == StartDigest(proof, p, v).value
  {
    hide Right, Canonical;
    if SanityCheck(proof) && StartDigest(proof, p, v).Some? {
      FoldIsWalk(t, p, 0, proof.sideNodes, StartDigest(proof, p, v).value);
    }
  }

  ghost function PathNodesOf(t: Digest, p: Path, n: nat): seq<Digest> {
    if n > Depth then [] else seq(n + 1, i requires 0 <= i <= n => Descend(t, p, n - i))
  }

  // Soundness: whatever an accepted proof claims is what the tree binds.
  lemma AcceptedIsTrue(proof: SparseMerkleProof, t: Digest, p: Path, v: Bytes)
    requires Canonical(t, 0) && Accepts(proof, t, p, v)
    ensures v == Lookup(Bindings(t), p)
  {
    hide Right, AgreeBelow, Canonical, Bindings;
    var n := |proof.sideNodes|;
    AcceptedIsWalk(proof, t, p, v);
    DescendCanonical(t, p, n);
    LightSpine(Descend(t, p, n), n, p);
    LightIsSmall(Descend(t, p, n), n);
    LeafIsCanonical(p, v, n);
  }
}
