// Node encoding (treehasher.go) over real byte strings and an arbitrary hash function, and the
// reading of symbolic digests in it.
module Encoding {
  import opened Utils
  import opened TreeHasher

  // Any hash function with digests of PathSize bytes; nothing else is known of it.
  type HashFunction = Bytes -> Path

  const LeafPrefix: Bytes := [0]
  const NodePrefix: Bytes := [1]

  // placeholder
  function Placeholder(): (z: Path)
    ensures forall i | 0 <= i < PathSize :: z[i] == 0
  {
    seq(PathSize, i => 0)
  }

  // The datum that digestLeaf hashes, and its parts; likewise for digestNode.
  function LeafBytes(path: Path, valueHash: Bytes): Bytes {
    LeafPrefix + path + valueHash
  }

  function NodeBytes(left: Bytes, right: Bytes): Bytes {
    NodePrefix + left + right
  }

  function ParseLeaf(data: Bytes): (Path, Bytes)
    requires |data| >= 1 + PathSize
  {
    (data[1..1 + PathSize], data[1 + PathSize..])
  }

  function ParseNode(data: Bytes): (Bytes, Bytes)
    requires |data| >= 1 + PathSize
  {
    (data[1..1 + PathSize], data[1 + PathSize..])
  }

  predicate IsLeafBytes(data: Bytes)
    requires |data| >= 1
  {
    data[..1] == LeafPrefix
  }

  lemma LeafRoundTrip(path: Path, valueHash: Bytes)
    ensures ParseLeaf(LeafBytes(path, valueHash)) == (path, valueHash) && IsLeafBytes(LeafBytes(path, valueHash))
  {
    assert LeafBytes(path, valueHash)[1..1 + PathSize] == path;
    assert LeafBytes(path, valueHash)[1 + PathSize..] == valueHash;
  }

  lemma NodeRoundTrip(left: Path, right: Bytes)
    ensures ParseNode(NodeBytes(left, right)) == (left, right) && !IsLeafBytes(NodeBytes(left, right))
  {
    assert NodeBytes(left, right)[1..1 + PathSize] == left;
    assert NodeBytes(left, right)[1 + PathSize..] == right;
    assert NodeBytes(left, right)[..1][0] == 1;
  }

  // Parsing loses nothing but the prefix byte: data of the checked length are their two parts.
  lemma ParsedLeafIsWhole(data: Bytes)
    requires |data| >= 1 + PathSize && IsLeafBytes(data)
    ensures LeafBytes(ParseLeaf(data).0, ParseLeaf(data).1) == data
  {
    assert data == data[..1] + data[1..1 + PathSize] + data[1 + PathSize..];
  }

  // ---- Symbolic digests in a concrete hash function ----

  function DigestBytes(h: HashFunction, d: Digest): Path
    decreases d
  {
    match d
    case Zero => Placeholder()
    case Hash(data) => h(DataBytes(h, data))
  }

  function DataBytes(h: HashFunction, data: Data): Bytes
    decreases data
  {
    match data
    case Raw(bytes) => bytes
    case LeafData(path, vh) => LeafBytes(path, DigestBytes(h, vh))
    case NodeData(l, r) => NodeBytes(DigestBytes(h, l), DigestBytes(h, r))
  }

  lemma NodeOfInBytes(h: HashFunction, l: Digest, r: Digest)
    ensures DigestBytes(h, NodeOf(l, r)) == h(NodeBytes(DigestBytes(h, l), DigestBytes(h, r)))
    ensures DataBytes(h, NodeOf(l, r).preimage) == NodeBytes(DigestBytes(h, l), DigestBytes(h, r))
  {
  }

  // digestNode, as a way of hashing two children.
  function HashNode(h: HashFunction): (Bytes, Bytes) -> Bytes {
    (l: Bytes, r: Bytes) => h(NodeBytes(l, r))
  }
}
