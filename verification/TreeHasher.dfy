// Paths, digests and node data (treehasher.go) in the symbolic hash model: hashing is a free
// constructor, so two data have one digest only when they are equal, and no datum hashes to the
// placeholder. The module Encoding interprets digests in an arbitrary concrete hash function.
module TreeHasher {
  import opened Utils

  type Positive = n: nat | 0 < n witness 32

  // th.pathSize(): the digest size in bytes. It has no particular value: every result holds for each.
  const PathSize: Positive

  // smt.depth(): the number of bits of a path.
  const Depth: nat := 8 * PathSize

  type Path = p: Bytes | |p| == PathSize ghost witness seq(PathSize, i => 0)

  // The direction of `path` at depth d: right on a set bit.
  predicate Right(path: Path, d: nat)
    requires d < Depth
  {
    GetBitAtFromMSB(path, d)
  }

  // p and q take the same turns down to depth d.
  ghost predicate SameWay(p: Path, q: Path, d: nat)
    requires d <= Depth
  {
    AgreeBelow(p, q, d)
  }

  lemma SameWayToTheEnd(p: Path, q: Path)
    requires SameWay(p, q, Depth)
    ensures p == q
  {
    BytesFromBits(p, q);
  }

  datatype Digest = Zero | Hash(preimage: Data)

  // What is hashed: a value, a leaf (path and value hash) or an inner node (two child digests).
  datatype Data =
    | Raw(bytes: Bytes)
    | LeafData(path: Path, valueHash: Digest)
    | NodeData(left: Digest, right: Digest)

  // The empty value, which stands for an absent key.
  const DefaultValue: Bytes := []

  function LeafOf(path: Path, value: Bytes): Digest {
    Hash(LeafData(path, Hash(Raw(value))))
  }

  function NodeOf(left: Digest, right: Digest): Digest {
    Hash(NodeData(left, right))
  }

  predicate IsLeaf(t: Digest) {
    t.Hash? && t.preimage.LeafData?
  }

  predicate IsNode(t: Digest) {
    t.Hash? && t.preimage.NodeData?
  }
}
