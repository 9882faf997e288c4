// Proof verification and compaction (proofs.go) over real byte strings.
module Proofs {
  import opened Utils
  import opened TreeHasher
  import opened Trees
  import opened Writes
  import opened States
  import opened SymbolicProofs
  import opened Encoding

  datatype ByteProof = ByteProof(
    sideNodes: seq<Bytes>,
    nonMembershipLeafData: Option<Bytes>,
    siblingData: Option<Bytes>)

  // sanityCheck
  predicate Sane(h: HashFunction, proof: ByteProof) {
    && |proof.sideNodes| <= PathSize * 8
    && (proof.nonMembershipLeafData.Some? ==> |proof.nonMembershipLeafData.value| == 1 + PathSize + PathSize)
    && (forall i | 0 <= i < |proof.sideNodes| :: |proof.sideNodes[i]| == PathSize)
    && (proof.siblingData.Some? && proof.sideNodes != [] ==> proof.sideNodes[0] == h(proof.siblingData.value))
  }

  // What the start digest of a proof claims to be found at the end of the walk.
  datatype Claim = Nothing | Leaf(path: Path, valueHash: Bytes)

  function ClaimOf(h: HashFunction, proof: ByteProof, path: Path, value: Bytes): Option<Claim>
    requires Sane(h, proof)
  {
    if value != DefaultValue then Some(Leaf(path, h(value)))
    else if proof.nonMembershipLeafData.None? then Some(Nothing)
    else
      var (actualPath, valueHash) := ParseLeaf(proof.nonMembershipLeafData.value);
      if actualPath == path then None else Some(Leaf(actualPath, valueHash))
  }

  function StartBytes(h: HashFunction, claim: Claim): Bytes {
    match claim
    case Nothing => Placeholder()
    case Leaf(p, vh) => h(LeafBytes(p, vh))
  }

  predicate AcceptsBytes(h: HashFunction, proof: ByteProof, root: Bytes, path: Path, value: Bytes) {
    && Sane(h, proof)
    && ClaimOf(h, proof, path, value).Some?
    && FoldUp(HashNode(h), path, 0, proof.sideNodes, StartBytes(h, ClaimOf(h, proof, path, value).value)) == root
  }

  // The datum hashed for the inner node at depth d, as its two parts.
  function HashedAt(h: HashFunction, p: Path, d: nat, sideNodes: seq<Bytes>, claim: Claim): (Bytes, Bytes)
    requires d + |sideNodes| <= Depth && sideNodes != []
  {
    var n := |sideNodes| - 1;
    var child := FoldUp(HashNode(h), p, d + 1, sideNodes[..n], StartBytes(h, claim));
    if Right(p, d) then (sideNodes[n], child) else (child, sideNodes[n])
  }

  // A datum under its digest.
  function Entry(h: HashFunction, data: Bytes): (Bytes, Bytes) {
    (h(data), data)
  }

  // Everything hashed from a claim up to depth d, the claim's own leaf first.
  function Revealed(h: HashFunction, p: Path, d: nat, sideNodes: seq<Bytes>, claim: Claim): seq<(Bytes, Bytes)>
    requires d + |sideNodes| <= Depth
    decreases |sideNodes|
  {
    if sideNodes == [] then
      match claim
      case Nothing => []
      case Leaf(q, vh) => [Entry(h, LeafBytes(q, vh))]
    else
      var (left, right) := HashedAt(h, p, d, sideNodes, claim);
      Revealed(h, p, d + 1, sideNodes[..|sideNodes| - 1], claim) + [Entry(h, NodeBytes(left, right))]
  }

  // VerifyProof
  method VerifyProof(h: HashFunction, proof: ByteProof, root: Bytes, path: Path, value: Bytes) returns (result: bool)
    ensures result == AcceptsBytes(h, proof, root, path, value)
  {
    var updates;
    result, updates := VerifyProofWithUpdates(h, proof, root, path, value);
  }

  // verifyProofWithUpdates: the verdict, and every digest recomputed on the way with its datum.
  method VerifyProofWithUpdates(h: HashFunction, proof: ByteProof, root: Bytes, path: Path, value: Bytes)
    returns (result: bool, updates: seq<(Bytes, Bytes)>)
    ensures result == AcceptsBytes(h, proof, root, path, value)
    ensures result ==>
      && |proof.sideNodes| <= 8 * PathSize
      && (proof.nonMembershipLeafData.Some? ==> |proof.nonMembershipLeafData.value| == 1 + 2 * PathSize)
      && (forall i | 0 <= i < |proof.sideNodes| :: |proof.sideNodes[i]| == PathSize)
      && (proof.siblingData.Some? && proof.sideNodes != [] ==> h(proof.siblingData.value) == proof.sideNodes[0])
    ensures result ==> updates == Revealed(h, path, 0, proof.sideNodes, ClaimOf(h, proof, path, value).value)
  {
    if !Sane(h, proof) {
      return false, [];
    }
    updates := [];
    var currentHash: Bytes;
    if value == DefaultValue {
      if proof.nonMembershipLeafData.None? {
        currentHash := Placeholder();
      } else {
        var (actualPath, valueHash) := ParseLeaf(proof.nonMembershipLeafData.value);
        if actualPath == path {
          return false, [];
        }
        var currentData := LeafBytes(actualPath, valueHash);
        currentHash := h(currentData);
        updates := updates + [(currentHash, currentData)];
      }
    } else {
      var currentData := LeafBytes(path, h(value));
      currentHash := h(currentData);
      updates := updates + [(currentHash, currentData)];
    }
    ghost var claim := ClaimOf(h, proof, path, value).value;
    currentHash, updates := RecomputeBytes(h, proof.sideNodes, path, currentHash, updates, claim);
    return currentHash == root, updates;
  }

  method RecomputeBytes(h: HashFunction, sideNodes: seq<Bytes>, path: Path, start: Bytes, revealed: seq<(Bytes, Bytes)>,
                        ghost claim: Claim) returns (currentHash: Bytes, updates: seq<(Bytes, Bytes)>)
    requires |sideNodes| <= Depth && start == StartBytes(h, claim)
    requires revealed == Revealed(h, path, |sideNodes|, [], claim)
    ensures currentHash == FoldUp(HashNode(h), path, 0, sideNodes, start)
    ensures updates == Revealed(h, path, 0, sideNodes, claim)
  {
    hide Right, FoldUp, Revealed, HashNode, StartBytes, NodeBytes;
    currentHash, updates := start, revealed;
    var n := |sideNodes|;
    FoldNone(h, path, n, claim);
    assert sideNodes[..0] == [];
    var i := 0;
    while i < n
      invariant i <= n
      invariant currentHash == FoldUp(HashNode(h), path, n - i, sideNodes[..i], start)
      invariant updates == Revealed(h, path, n - i, sideNodes[..i], claim)
    {
      var node := sideNodes[i];
      RevealedOneMore(h, sideNodes, path, claim, i);
      var currentData;
      if Right(path, n - 1 - i) {
        currentData := NodeBytes(node, currentHash);
      } else {
        currentData := NodeBytes(currentHash, node);
      }
      currentHash := h(currentData);
      updates := updates + [(currentHash, currentData)];
      i := i + 1;
    }
    assert sideNodes[..n] == sideNodes;
  }

  lemma FoldNone(h: HashFunction, p: Path, d: nat, claim: Claim)
    requires d <= Depth
    ensures FoldUp(HashNode(h), p, d, [], StartBytes(h, claim)) == StartBytes(h, claim)
  {
  }

  // One level of the loop.
  lemma RevealedOneMore(h: HashFunction, sideNodes: seq<Bytes>, path: Path, claim: Claim, i: nat)
    requires i < |sideNodes| <= Depth
    ensures var n := |sideNodes|;
      var child := FoldUp(HashNode(h), path, n - i, sideNodes[..i], StartBytes(h, claim));
      var data := if Right(path, n - 1 - i) then NodeBytes(sideNodes[i], child) else NodeBytes(child, sideNodes[i]);
      && FoldUp(HashNode(h), path, n - i - 1, sideNodes[..i + 1], StartBytes(h, claim)) == h(data)
      && Revealed(h, path, n - i - 1, sideNodes[..i + 1], claim) ==
         Revealed(h, path, n - i, sideNodes[..i], claim) + [Entry(h, data)]
  {
    hide Right, NodeBytes;
    assert sideNodes[..i + 1][..i] == sideNodes[..i];
  }

  // ---- Completeness ----

  function SidesBytes(h: HashFunction, s: seq<Digest>): (r: seq<Bytes>)
    ensures |r| == |s| && forall i | 0 <= i < |s| :: r[i] == DigestBytes(h, s[i])
  {
    seq(|s|, i requires 0 <= i < |s| => DigestBytes(h, s[i]))
  }

  // A symbolic proof as the bytes the program hands out.
  function ProofBytes(h: HashFunction, proof: SparseMerkleProof): ByteProof {
    ByteProof(
      SidesBytes(h, proof.sideNodes),
      match proof.nonMembershipLeafData
      case None => None
      case Some(f) => Some(LeafBytes(f.path, DigestBytes(h, f.valueHash))),
      match proof.siblingData
      case None => None
      case Some(data) => Some(DataBytes(h, data)))
  }

  // Recomputing a root commutes with reading digests in h.
  lemma {:induction false} FoldInBytes(h: HashFunction, p: Path, d: nat, s: seq<Digest>, leaf: Digest)
    requires d + |s| <= Depth
    ensures DigestBytes(h, FoldUp(NodeOf, p, d, s, leaf))
         == FoldUp(HashNode(h), p, d, SidesBytes(h, s), DigestBytes(h, leaf))
    decreases |s|
  {
    hide Right;
    if s != [] {
      var n := |s| - 1;
      FoldInBytes(h, p, d + 1, s[..n], leaf);
      assert SidesBytes(h, s)[..n] == SidesBytes(h, s[..n]);
    }
  }

  // Completeness: under every hash function, a proof that holds of a tree verifies against its root.
  lemma AcceptedInBytes(h: HashFunction, proof: SparseMerkleProof, t: Digest, p: Path, v: Bytes)
    requires Accepts(proof, t, p, v)
    ensures AcceptsBytes(h, ProofBytes(h, proof), DigestBytes(h, t), p, v)
  {
    hide Right;
    var bytes := ProofBytes(h, proof);
    FoldInBytes(h, p, 0, proof.sideNodes, StartDigest(proof, p, v).value);
    SaneInBytes(h, proof);
    ClaimInBytes(h, proof, p, v);
  }

  lemma SaneInBytes(h: HashFunction, proof: SparseMerkleProof)
    requires SanityCheck(proof)
    ensures Sane(h, ProofBytes(h, proof))
  {
  }

  lemma ClaimInBytes(h: HashFunction, proof: SparseMerkleProof, p: Path, v: Bytes)
    requires Sane(h, ProofBytes(h, proof)) && StartDigest(proof, p, v).Some?
    ensures var claim := ClaimOf(h, ProofBytes(h, proof), p, v);
      claim.Some? && StartBytes(h, claim.value) == DigestBytes(h, StartDigest(proof, p, v).value)
  {
    if v != DefaultValue {
      LeafOfInBytes(h, p, v);
    } else if proof.nonMembershipLeafData.Some? {
      var f := proof.nonMembershipLeafData.value;
      LeafRoundTrip(f.path, DigestBytes(h, f.valueHash));
    }
  }

  lemma LeafOfInBytes(h: HashFunction, p: Path, v: Bytes)
    ensures DigestBytes(h, LeafOf(p, v)) == h(LeafBytes(p, h(v)))
  {
    assert DataBytes(h, Raw(v)) == v;
    assert DigestBytes(h, Hash(Raw(v))) == h(v);
  }

  // ---- Soundness, or a collision ----

  // What is to be concluded from an accepted proof: its claim, or an input pair that breaks the hash.
  datatype Finding = Sound | Collision(x: Bytes, y: Bytes) | ZeroPreimage(x: Bytes)

  predicate Genuine(h: HashFunction, f: Finding) {
    match f
    case Sound => true
    case Collision(x, y) => x != y && h(x) == h(y)
    case ZeroPreimage(x) => h(x) == Placeholder()
  }

  // Compares a datum the verifier hashed with what the tree has in its place.
  function Compared(h: HashFunction, t: Digest, data: Bytes): Finding {
    if t.Zero? then ZeroPreimage(data)
    else if DataBytes(h, t.preimage) != data then Collision(DataBytes(h, t.preimage), data)
    else Sound
  }

  // Follows a proof down the tree from depth d until a datum differs from the tree's own.
  function Audit(h: HashFunction, t: Digest, p: Path, d: nat, sideNodes: seq<Bytes>, claim: Claim): Finding
    requires d + |sideNodes| <= Depth
    decreases |sideNodes|
  {
    if sideNodes == [] then
      match claim
      case Nothing => if t.Zero? then Sound else ZeroPreimage(DataBytes(h, t.preimage))
      case Leaf(q, vh) => Compared(h, t, LeafBytes(q, vh))
    else
      var n := |sideNodes| - 1;
      var child := FoldUp(HashNode(h), p, d + 1, sideNodes[..n], StartBytes(h, claim));
      var data := if Right(p, d) then NodeBytes(sideNodes[n], child) else NodeBytes(child, sideNodes[n]);
      var f := Compared(h, t, data);
      if f.Sound? && IsNode(t) then Audit(h, Child(t, d, p), p, d + 1, sideNodes[..n], claim) else f
  }

  // What a claim says of the tree below the position the audit reached.
  ghost predicate ClaimHolds(h: HashFunction, t: Digest, p: Path, claim: Claim) {
    match claim
    case Nothing => p !in Bindings(t)
    case Leaf(q, vh) =>
      if q == p then p in Bindings(t) && h(Bindings(t)[p]) == vh else p !in Bindings(t)
  }

  lemma {:induction false} FoldLength(h: HashFunction, p: Path, d: nat, sideNodes: seq<Bytes>, start: Bytes)
    requires d + |sideNodes| <= Depth && |start| == PathSize
    ensures |FoldUp(HashNode(h), p, d, sideNodes, start)| == PathSize
  {
    if sideNodes != [] {
      var n := |sideNodes| - 1;
      var child := FoldUp(HashNode(h), p, d + 1, sideNodes[..n], start);
      assert |h(NodeBytes(sideNodes[n], child))| == |h(NodeBytes(child, sideNodes[n]))| == PathSize;
    }
  }

  lemma PrefixesDiffer(a: Path, b: Bytes, c: Bytes, e: Bytes)
    ensures LeafBytes(a, b) != NodeBytes(c, e)
  {
    assert LeafBytes(a, b)[0] == 0 && NodeBytes(c, e)[0] == 1;
  }

  lemma SamePairs(prefix: Bytes, a: Bytes, b: Bytes, c: Bytes, e: Bytes)
    requires |prefix| == 1 && |a| == |c| == PathSize && prefix + a + b == prefix + c + e
    ensures a == c && b == e
  {
    assert a == (prefix + a + b)[1..1 + PathSize] && c == (prefix + c + e)[1..1 + PathSize];
    assert b == (prefix + a + b)[1 + PathSize..] && e == (prefix + c + e)[1 + PathSize..];
  }

  // A tree digest over node data is an inner node over the same two child digests.
  lemma NodeBytesMatch(h: HashFunction, t: Digest, d: nat, left: Bytes, right: Bytes)
    requires Canonical(t, d) && t.Hash? && DataBytes(h, t.preimage) == NodeBytes(left, right) && |left| == PathSize
    ensures IsNode(t) && DigestBytes(h, t.preimage.left) == left && DigestBytes(h, t.preimage.right) == right
  {
    if IsLeaf(t) {
      PrefixesDiffer(t.preimage.path, DigestBytes(h, t.preimage.valueHash), left, right);
    } else {
      SamePairs(NodePrefix, DigestBytes(h, t.preimage.left), DigestBytes(h, t.preimage.right), left, right);
    }
  }

  // A tree digest over leaf data is the leaf for that path, with a value of that hash.
  lemma LeafBytesMatch(h: HashFunction, t: Digest, d: nat, q: Path, vh: Bytes)
    requires Canonical(t, d) && t.Hash? && DataBytes(h, t.preimage) == LeafBytes(q, vh)
    ensures IsLeaf(t) && t.preimage.path == q && q in Bindings(t) && h(Bindings(t)[q]) == vh
  {
    if IsNode(t) {
      PrefixesDiffer(q, vh, DigestBytes(h, t.preimage.left), DigestBytes(h, t.preimage.right));
    } else {
      SamePairs(LeafPrefix, t.preimage.path, DigestBytes(h, t.preimage.valueHash), q, vh);
      var v := t.preimage.valueHash.preimage.bytes;
      LeafOfInBytes(h, q, v);
      assert DigestBytes(h, Hash(Raw(v))) == h(DataBytes(h, Raw(v))) == h(v);
      assert Bindings(t) == map[q := v];
    }
  }

  lemma AuditEnds(h: HashFunction, t: Digest, p: Path, d: nat, claim: Claim)
    requires d <= Depth && Canonical(t, d) && StartBytes(h, claim) == DigestBytes(h, t)
    ensures Genuine(h, Audit(h, t, p, d, [], claim))
    ensures Audit(h, t, p, d, [], claim).Sound? ==> ClaimHolds(h, t, p, claim)
  {
    hide Right, AgreeBelow;
    LightIsSmall(t, d);
    if claim.Leaf? && Compared(h, t, LeafBytes(claim.path, claim.valueHash)).Sound? {
      LeafBytesMatch(h, t, d, claim.path, claim.valueHash);
    }
  }

  // One level: either the datum differs from the tree's, or the tree has an inner node here whose
  // child toward p has the digest recomputed below.
  lemma AuditLevel(h: HashFunction, t: Digest, p: Path, d: nat, sideNodes: seq<Bytes>, claim: Claim)
    requires d + |sideNodes| <= Depth && Canonical(t, d) && sideNodes != []
    requires forall i | 0 <= i < |sideNodes| :: |sideNodes[i]| == PathSize
    requires FoldUp(HashNode(h), p, d, sideNodes, StartBytes(h, claim)) == DigestBytes(h, t)
    ensures var pair := HashedAt(h, p, d, sideNodes, claim);
      var f := Compared(h, t, NodeBytes(pair.0, pair.1));
      var below := sideNodes[..|sideNodes| - 1];
      if f.Sound? then
        && IsNode(t)
        && FoldUp(HashNode(h), p, d + 1, below, StartBytes(h, claim)) == DigestBytes(h, Child(t, d, p))
        && Audit(h, t, p, d, sideNodes, claim) == Audit(h, Child(t, d, p), p, d + 1, below, claim)
      else Genuine(h, f) && Audit(h, t, p, d, sideNodes, claim) == f
  {
    hide Right, AgreeBelow, Bindings;
    var (left, right) := HashedAt(h, p, d, sideNodes, claim);
    FoldLength(h, p, d + 1, sideNodes[..|sideNodes| - 1], StartBytes(h, claim));
    if Compared(h, t, NodeBytes(left, right)).Sound? {
      NodeBytesMatch(h, t, d, left, right);
    }
  }

  lemma {:induction false} AuditFinds(h: HashFunction, t: Digest, p: Path, d: nat, sideNodes: seq<Bytes>, claim: Claim)
    requires d + |sideNodes| <= Depth && Canonical(t, d)
    requires forall i | 0 <= i < |sideNodes| :: |sideNodes[i]| == PathSize
    requires FoldUp(HashNode(h), p, d, sideNodes, StartBytes(h, claim)) == DigestBytes(h, t)
    ensures Genuine(h, Audit(h, t, p, d, sideNodes, claim))
    ensures Audit(h, t, p, d, sideNodes, claim).Sound? ==> ClaimHolds(h, t, p, claim)
    decreases |sideNodes|
  {
    hide Right, AgreeBelow, Canonical, Bindings, DigestBytes, Compared, FoldUp, Audit, HashNode, StartBytes, Child;
    if sideNodes == [] {
      FoldNone(h, p, d, claim);
      AuditEnds(h, t, p, d, claim);
    } else {
      AuditLevel(h, t, p, d, sideNodes, claim);
      var (left, right) := HashedAt(h, p, d, sideNodes, claim);
      if Compared(h, t, NodeBytes(left, right)).Sound? {
        NodeParts(t, d, p);
        AuditFinds(h, Child(t, d, p), p, d + 1, sideNodes[..|sideNodes| - 1], claim);
      }
    }
  }

  // The value a tree holds for a path, found by walking it.
  function TreeValue(t: Digest, d: nat, p: Path): Bytes
    decreases t
  {
    match t
    case Hash(LeafData(q, Hash(Raw(v)))) => if q == p then v else DefaultValue
    case Hash(NodeData(_, _)) => if d < Depth then TreeValue(Child(t, d, p), d + 1, p) else DefaultValue
    case _ => DefaultValue
  }

  lemma {:induction false} TreeValueIsLookup(t: Digest, d: nat, p: Path)
    requires Canonical(t, d)
    ensures TreeValue(t, d, p) == Lookup(Bindings(t), p)
    decreases t
  {
    if IsNode(t) {
      NodeParts(t, d, p);
      TreeValueIsLookup(Child(t, d, p), d + 1, p);
    }
  }

  // The audit of a whole proof: a last comparison is between the claimed value and the tree's.
  function AuditProof(h: HashFunction, t: Digest, proof: ByteProof, p: Path, v: Bytes): Finding
    requires Sane(h, proof) && ClaimOf(h, proof, p, v).Some?
  {
    var f := Audit(h, t, p, 0, proof.sideNodes, ClaimOf(h, proof, p, v).value);
    if f.Sound? && v != DefaultValue && TreeValue(t, 0, p) != v then Collision(TreeValue(t, 0, p), v) else f
  }

  // The audit of accepted bytes always concludes: the claim is what the tree binds, or the finding
  // breaks the hash.
  lemma AuditProofFinds(h: HashFunction, t: Digest, proof: ByteProof, p: Path, v: Bytes)
    requires Canonical(t, 0) && AcceptsBytes(h, proof, DigestBytes(h, t), p, v)
    ensures Genuine(h, AuditProof(h, t, proof, p, v))
    ensures AuditProof(h, t, proof, p, v).Sound? ==> v == Lookup(Bindings(t), p)
  {
    hide Right, AgreeBelow, Canonical, Bindings, Audit;
    AuditFinds(h, t, p, 0, proof.sideNodes, ClaimOf(h, proof, p, v).value);
    TreeValueIsLookup(t, 0, p);
  }

  // Soundness or collision: any bytes that verify against the root of a map's tree either claim
  // what the map binds, or the audit computes from them two data with one digest, or one whose
  // digest is the placeholder.
  lemma VerifiedIsTrueOrCollision(h: HashFunction, m: Map, proof: ByteProof, p: Path, v: Bytes)
    requires Storable(m) && AcceptsBytes(h, proof, DigestBytes(h, RootOf(m)), p, v)
    ensures var f := AuditProof(h, RootOf(m), proof, p, v);
      Genuine(h, f) && (f.Sound? ==> v == if p in m then m[p] else [])
    ensures var f := AuditProof(h, RootOf(m), proof, p, v);
      && (f.Collision? ==> f.x != f.y && h(f.x) == h(f.y))
      && (f.ZeroPreimage? ==> h(f.x) == seq(PathSize, i => 0))
  {
    hide Right, AgreeBelow, Canonical, Bindings, Canon, AuditProof, AcceptsBytes;
    RootIsCanonical(m);
    AuditProofFinds(h, RootOf(m), proof, p, v);
  }

  // ---- A root binds its map, or a collision ----

  // Follows two trees down to where their data differ although their digests agree.
  function Differ(h: HashFunction, t: Digest, u: Digest): Finding
    decreases t
  {
    if t == u then Sound
    else if t.Zero? then ZeroPreimage(DataBytes(h, u.preimage))
    else if u.Zero? then ZeroPreimage(DataBytes(h, t.preimage))
    else if DataBytes(h, t.preimage) != DataBytes(h, u.preimage) then
      Collision(DataBytes(h, t.preimage), DataBytes(h, u.preimage))
    else
      match (t.preimage, u.preimage)
      case (NodeData(l, r), NodeData(l', r')) => if l != l' then Differ(h, l, l') else Differ(h, r, r')
      case (LeafData(_, Hash(Raw(v))), LeafData(_, Hash(Raw(v')))) => Collision(v, v')
      case _ => Sound
  }

  // Two canonical trees with one digest under h are one tree, or a collision of h can be computed.
  lemma {:induction false} DifferFinds(h: HashFunction, t: Digest, u: Digest, d: nat, e: nat)
    requires Canonical(t, d) && Canonical(u, e) && DigestBytes(h, t) == DigestBytes(h, u)
    ensures Genuine(h, Differ(h, t, u)) && (Differ(h, t, u).Sound? ==> t == u)
    decreases t
  {
    hide Right, AgreeBelow, Bindings, LeafBytes, NodeBytes;
    if t != u && t.Hash? && u.Hash? && DataBytes(h, t.preimage) == DataBytes(h, u.preimage) {
      if IsNode(t) {
        SameNodeData(h, t, u, d, e);
        var l, r, l', r' := t.preimage.left, t.preimage.right, u.preimage.left, u.preimage.right;
        if l != l' { DifferFinds(h, l, l', d + 1, e + 1); } else { DifferFinds(h, r, r', d + 1, e + 1); }
      } else {
        SameLeafData(h, t, u, d, e);
      }
    }
  }

  lemma SameNodeData(h: HashFunction, t: Digest, u: Digest, d: nat, e: nat)
    requires Canonical(t, d) && Canonical(u, e) && IsNode(t) && u.Hash?
    requires DataBytes(h, t.preimage) == DataBytes(h, u.preimage)
    ensures IsNode(u)
    ensures DigestBytes(h, t.preimage.left) == DigestBytes(h, u.preimage.left)
    ensures DigestBytes(h, t.preimage.right) == DigestBytes(h, u.preimage.right)
  {
    hide Right, AgreeBelow, Bindings;
    NodeBytesMatch(h, u, e, DigestBytes(h, t.preimage.left), DigestBytes(h, t.preimage.right));
  }

  lemma SameLeafData(h: HashFunction, t: Digest, u: Digest, d: nat, e: nat)
    requires Canonical(t, d) && Canonical(u, e) && IsLeaf(t) && u.Hash? && t != u
    requires DataBytes(h, t.preimage) == DataBytes(h, u.preimage)
    ensures IsLeaf(u)
    ensures var v, w := t.preimage.valueHash.preimage.bytes, u.preimage.valueHash.preimage.bytes;
      v != w && h(v) == h(w)
  {
    hide Right, AgreeBelow;
    var v := t.preimage.valueHash.preimage.bytes;
    assert DigestBytes(h, t.preimage.valueHash) == h(v) by { assert DataBytes(h, Raw(v)) == v; }
    LeafBytesMatch(h, u, e, t.preimage.path, h(v));
    assert Bindings(u) == map[u.preimage.path := u.preimage.valueHash.preimage.bytes];
  }

  // Equal root bytes come from equal maps, under every hash function, or two data with one digest
  // (or one with the placeholder's) can be computed from the two trees.
  lemma RootsBindOrCollide(h: HashFunction, m: Map, n: Map)
    requires Storable(m) && Storable(n) && DigestBytes(h, RootOf(m)) == DigestBytes(h, RootOf(n))
    ensures var f := Differ(h, RootOf(m), RootOf(n)); Genuine(h, f) && (f.Sound? ==> m == n)
    ensures var f := Differ(h, RootOf(m), RootOf(n));
      && (f.Collision? ==> f.x != f.y && h(f.x) == h(f.y))
      && (f.ZeroPreimage? ==> h(f.x) == seq(PathSize, i => 0))
  {
    hide Right, AgreeBelow, Canonical, Bindings, Canon, Differ;
    RootIsCanonical(m);
    RootIsCanonical(n);
    DifferFinds(h, RootOf(m), RootOf(n), 0, 0);
  }
}
