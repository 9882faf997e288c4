// What a root is, spelled out in numbers and bytes apart from the rest of the model: a reference
// that the tree definitions are proved against.
module Reference {
  import opened Utils
  import opened TreeHasher
  import opened Trees
  import opened Encoding

  // The bit of a path at depth d: bit 128 of the first byte at depth 0, bit 1 at depth 7, and so on.
  predicate BitSet(p: Path, d: nat)
    requires d < 8 * PathSize
  {
    p[d / 8] & [128, 64, 32, 16, 8, 4, 2, 1][d % 8] != 0
  }

  // The root of a map: zeros if it is empty, the hash of a byte 0, path and value hash for one
  // binding, and else the hash of a byte 1 and the roots of the two halves that bit d makes.
  ghost function MerkleRoot(h: HashFunction, m: map<Path, Bytes>, d: nat): Bytes
    decreases 8 * PathSize - d
  {
    if m == map[] then seq(PathSize, i => 0)
    else if exists p :: m.Keys == {p} then
      var p :| m.Keys == {p};
      h([0] + p + h(m[p]))
    else if d >= 8 * PathSize then []
    else
      h([1] + MerkleRoot(h, map p | p in m && !BitSet(p, d) :: m[p], d + 1)
            + MerkleRoot(h, map p | p in m && BitSet(p, d) :: m[p], d + 1))
  }

  lemma RightIsBitSet(p: Path, d: nat)
    requires d < 8 * PathSize
    ensures Right(p, d) <==> BitSet(p, d)
  {
    var k := d % 8;
    assert k == 0 || k == 1 || k == 2 || k == 3 || k == 4 || k == 5 || k == 6 || k == 7;
  }

  // The bytes hashed, by position.
  lemma DataLayout(p: Path, valueHash: Bytes, l: Path, r: Bytes)
    ensures var leaf := LeafBytes(p, valueHash);
      && |leaf| == 1 + PathSize + |valueHash| && leaf[0] == 0
      && (forall i | 0 <= i < PathSize :: leaf[1 + i] == p[i])
      && (forall i | 0 <= i < |valueHash| :: leaf[1 + PathSize + i] == valueHash[i])
    ensures var node := NodeBytes(l, r);
      && |node| == 1 + PathSize + |r| && node[0] == 1
      && (forall i | 0 <= i < PathSize :: node[1 + i] == l[i])
      && (forall i | 0 <= i < |r| :: node[1 + PathSize + i] == r[i])
  {
  }

  lemma SingleKeys(m: Map)
    ensures Single(m) <==> exists p :: m.Keys == {p}
  {
    if Single(m) {
      assert m.Keys == {TheOnly(m)};
    }
    if p :| m.Keys == {p} {
      assert IsOnly(m, p);
    }
  }

  // The tree of a map has the reference root, under every hash function.
  lemma {:induction false} CanonIsMerkleRoot(h: HashFunction, m: Map, d: nat)
    requires d <= Depth && Together(m, d)
    ensures DigestBytes(h, Canon(m, d)) == MerkleRoot(h, m, d)
    decreases Depth - d
  {
    hide Right, AgreeBelow, MerkleRoot, DigestBytes, Together, Half, Single;
    if m == map[] {
      EmptyRoot(h, m, d);
    } else if Single(m) {
      OneRoot(h, m, d);
    } else {
      TogetherAtTheEnd(m, d);
      HalfTogether(m, d, false);
      HalfTogether(m, d, true);
      CanonIsMerkleRoot(h, Half(m, d, false), d + 1);
      CanonIsMerkleRoot(h, Half(m, d, true), d + 1);
      ManyRoot(h, m, d, Canon(Half(m, d, false), d + 1), Canon(Half(m, d, true), d + 1));
    }
  }

  lemma ManyRoot(h: HashFunction, m: Map, d: nat, l: Digest, r: Digest)
    requires d < Depth && m != map[] && !Single(m)
    requires DigestBytes(h, l) == MerkleRoot(h, Half(m, d, false), d + 1)
    requires DigestBytes(h, r) == MerkleRoot(h, Half(m, d, true), d + 1)
    ensures DigestBytes(h, NodeOf(l, r)) == MerkleRoot(h, m, d)
  {
    hide Right, BitSet, NodeBytes, Half, DigestBytes, Single;
    SingleKeys(m);
    HalvesByBit(m, d);
    NodeOfInBytes(h, l, r);
    NodeLiteral(h, l, r);
  }

  lemma HalvesByBit(m: Map, d: nat)
    requires d < Depth
    ensures Half(m, d, false) == map p | p in m && !BitSet(p, d) :: m[p]
    ensures Half(m, d, true) == map p | p in m && BitSet(p, d) :: m[p]
  {
    hide Right, BitSet;
    forall p | p in m ensures Right(p, d) <==> BitSet(p, d) {
      RightIsBitSet(p, d);
    }
  }

  lemma EmptyRoot(h: HashFunction, m: Map, d: nat)
    requires d <= Depth && m == map[] && Together(m, d)
    ensures DigestBytes(h, Canon(m, d)) == MerkleRoot(h, m, d)
  {
    assert Placeholder() == seq(PathSize, i => 0);
  }

  lemma OneRoot(h: HashFunction, m: Map, d: nat)
    requires d <= Depth && Together(m, d) && Single(m)
    ensures DigestBytes(h, Canon(m, d)) == MerkleRoot(h, m, d)
  {
    hide Together;
    var p := TheOnly(m);
    assert m.Keys == {p} && p in m.Keys;
    assert DataBytes(h, Raw(m[p])) == m[p];
    assert DigestBytes(h, Hash(Raw(m[p]))) == h(m[p]);
    assert LeafBytes(p, h(m[p])) == [0] + p + h(m[p]);
    var q :| m.Keys == {q};
    assert q in m.Keys && q == p;
  }

  lemma NodeLiteral(h: HashFunction, l: Digest, r: Digest)
    ensures NodeBytes(DigestBytes(h, l), DigestBytes(h, r)) == [1] + DigestBytes(h, l) + DigestBytes(h, r)
  {
  }

  // The root of a map is its reference root.
  lemma RootIsMerkleRoot(h: HashFunction, m: Map)
    ensures DigestBytes(h, RootOf(m)) == MerkleRoot(h, m, 0)
  {
    hide Canon;
    assert Together(m, 0);
    CanonIsMerkleRoot(h, m, 0);
  }
}
