// Deep subtrees (deepsubtree.go) over real bytes and any hash function: what arbitrary branches
// that AddBranch accepts can put into the stores, and what GetDescend then answers.
module ByteSubtrees {
  import opened Utils
  import opened TreeHasher
  import opened Trees
  import opened Writes
  import opened Walks
  import opened States
  import opened SymbolicProofs
  import opened Encoding
  import opened Proofs
  import opened SparseMerkleTrees
  import opened ByteTrees

  // ---- What accepted bytes reveal ----

  ghost function EntryOf(h: HashFunction, x: Digest): (Bytes, Bytes)
    requires x.Hash?
  {
    (DigestBytes(h, x), DataBytes(h, x.preimage))
  }

  // The walk toward p as stored bytes.
  ghost function SpineBytes(h: HashFunction, t: Digest, d: nat, p: Path): set<(Bytes, Bytes)>
    decreases t
  {
    if IsNode(t) && d < Depth then {EntryOf(h, t)} + SpineBytes(h, Child(t, d, p), d + 1, p)
    else if IsLeaf(t) then {EntryOf(h, t)} else {}
  }

  lemma {:induction false} SpineBytesInReach(h: HashFunction, t: Digest, d: nat, p: Path, e: (Bytes, Bytes))
    requires e in SpineBytes(h, t, d, p)
    ensures exists x :: x in Reach(t) && x in Spine(t, d, p) && x.Hash? && e == EntryOf(h, x)
    decreases t
  {
    if IsNode(t) && d < Depth && e != EntryOf(h, t) {
      SpineBytesInReach(h, Child(t, d, p), d + 1, p, e);
    }
  }

  // The entries of the walk are those of its digests.
  lemma {:induction false} SpineBytesHas(h: HashFunction, t: Digest, d: nat, p: Path, x: Digest)
    requires x in Spine(t, d, p)
    ensures x.Hash? && EntryOf(h, x) in SpineBytes(h, t, d, p)
    decreases t
  {
    if IsNode(t) && d < Depth && x != t {
      SpineBytesHas(h, Child(t, d, p), d + 1, p, x);
    }
  }

  function Elements<T>(s: seq<T>): set<T> {
    set x | x in s
  }

  // Side nodes that an audit finds sound are the walk of the tree, byte for byte: what the verifier
  // hashed is the walk's own data, all of them and nothing else, and the first side node is the
  // digest beside the walk's end.
  lemma {:induction false} SoundIsWalk(h: HashFunction, t: Digest, p: Path, d: nat, sideNodes: seq<Bytes>, claim: Claim)
    requires d + |sideNodes| <= Depth && Canonical(t, d)
    requires forall i | 0 <= i < |sideNodes| :: |sideNodes[i]| == PathSize
    requires FoldUp(HashNode(h), p, d, sideNodes, StartBytes(h, claim)) == DigestBytes(h, t)
    requires Audit(h, t, p, d, sideNodes, claim).Sound?
    ensures IsNode(t) <==> sideNodes != []
    ensures Elements(Revealed(h, p, d, sideNodes, claim)) == SpineBytes(h, t, d, p)
    ensures LastSibling(t, d, p).Some? <==> sideNodes != []
    ensures sideNodes != [] ==> DigestBytes(h, LastSibling(t, d, p).value) == sideNodes[0]
    decreases |sideNodes|
  {
    hide Right, AgreeBelow, Canonical, Bindings, DigestBytes, FoldUp, Audit, HashNode, StartBytes, Child, Sibling;
    if sideNodes == [] {
      SoundEnd(h, t, p, d, claim);
    } else {
      var n := |sideNodes| - 1;
      SoundLevel(h, t, p, d, sideNodes, claim);
      NodeParts(t, d, p);
      SoundIsWalk(h, Child(t, d, p), p, d + 1, sideNodes[..n], claim);
      var (left, right) := HashedAt(h, p, d, sideNodes, claim);
      ElementsPush(Revealed(h, p, d + 1, sideNodes[..n], claim), Entry(h, NodeBytes(left, right)));
      assert n > 0 ==> sideNodes[..n][0] == sideNodes[0];
    }
  }

  lemma ElementsPush<T>(s: seq<T>, x: T)
    ensures Elements(s + [x]) == Elements(s) + {x}
  {
  }

  lemma SoundEnd(h: HashFunction, t: Digest, p: Path, d: nat, claim: Claim)
    requires d <= Depth && Canonical(t, d) && Audit(h, t, p, d, [], claim).Sound?
    ensures !IsNode(t) && LastSibling(t, d, p).None?
    ensures Elements(Revealed(h, p, d, [], claim)) == SpineBytes(h, t, d, p)
  {
    hide Right, AgreeBelow, Bindings;
    if claim.Leaf? {
      LeafBytesMatch(h, t, d, claim.path, claim.valueHash);
    }
  }

  lemma SoundLevel(h: HashFunction, t: Digest, p: Path, d: nat, sideNodes: seq<Bytes>, claim: Claim)
    requires d + |sideNodes| <= Depth && Canonical(t, d) && sideNodes != []
    requires forall i | 0 <= i < |sideNodes| :: |sideNodes[i]| == PathSize
    requires FoldUp(HashNode(h), p, d, sideNodes, StartBytes(h, claim)) == DigestBytes(h, t)
    requires Audit(h, t, p, d, sideNodes, claim).Sound?
    ensures IsNode(t) && d < Depth
    ensures var n, c := |sideNodes| - 1, Child(t, d, p);
      && FoldUp(HashNode(h), p, d + 1, sideNodes[..n], StartBytes(h, claim)) == DigestBytes(h, c)
      && Audit(h, c, p, d + 1, sideNodes[..n], claim).Sound?
      && DigestBytes(h, Sibling(t, d, p)) == sideNodes[n]
    ensures var (left, right) := HashedAt(h, p, d, sideNodes, claim);
      Entry(h, NodeBytes(left, right)) == EntryOf(h, t)
  {
    hide Right, AgreeBelow, Bindings, Audit;
    AuditLevel(h, t, p, d, sideNodes, claim);
    var (left, right) := HashedAt(h, p, d, sideNodes, claim);
    FoldLength(h, p, d + 1, sideNodes[..|sideNodes| - 1], StartBytes(h, claim));
    NodeBytesMatch(h, t, d, left, right);
  }

  // ---- What accepted branches leave in the stores ----

  // One of the digests of the tree, with its own datum.
  ghost predicate IsEntryOf(h: HashFunction, t: Digest, key: Bytes, data: Bytes) {
    exists x :: x in Reach(t) && x.Hash? && (key, data) == EntryOf(h, x)
  }

  // The stores hold nothing that the tree does not.
  ghost predicate PartOfTree(h: HashFunction, t: Digest, s: ByteState) {
    && (forall k | k in s.nodes :: IsEntryOf(h, t, k, s.nodes[k]))
    && SubMap(s.values, Bindings(t))
  }

  datatype ByteState = ByteState(nodes: map<Bytes, Bytes>, values: Map)

  // A run of nodes.Set calls.
  function WithAll(nodes: map<Bytes, Bytes>, updates: seq<(Bytes, Bytes)>): map<Bytes, Bytes> {
    if updates == [] then nodes
    else
      var (hash, data) := updates[|updates| - 1];
      WithAll(nodes, updates[..|updates| - 1])[hash := data]
  }

  lemma {:induction false} WithAllHolds(nodes: map<Bytes, Bytes>, updates: seq<(Bytes, Bytes)>)
    ensures var n := WithAll(nodes, updates);
      && (forall k | k in n :: (k, n[k]) in updates || (k in nodes && n[k] == nodes[k]))
      && (forall u | u in updates :: u.0 in n)
      && (forall k | k in nodes :: k in n)
  {
    if updates != [] {
      var front := updates[..|updates| - 1];
      var (hash, data) := updates[|updates| - 1];
      WithAllHolds(nodes, front);
      assert updates == front + [(hash, data)];
      assert WithAll(nodes, updates) == WithAll(nodes, front)[hash := data];
    }
  }

  function AfterBranch(h: HashFunction, s: ByteState, proof: ByteProof, p: Path, v: Bytes): ByteState
    requires Sane(h, proof) && ClaimOf(h, proof, p, v).Some?
  {
    var nodes := WithAll(s.nodes, Revealed(h, p, 0, proof.sideNodes, ClaimOf(h, proof, p, v).value));
    ByteState(
      if proof.siblingData.Some? && proof.sideNodes != [] then nodes[proof.sideNodes[0] := proof.siblingData.value]
      else nodes,
      if v == DefaultValue then s.values else s.values[p := v])
  }

  // The audit of an accepted branch compares the sibling shown with the tree's, last of all.
  function AuditBranch(h: HashFunction, t: Digest, proof: ByteProof, p: Path, v: Bytes): Finding
    requires Sane(h, proof) && ClaimOf(h, proof, p, v).Some?
  {
    var f := AuditProof(h, t, proof, p, v);
    if f.Sound? && proof.siblingData.Some? && LastSibling(t, 0, p).Some? then
      Compared(h, LastSibling(t, 0, p).value, proof.siblingData.value)
    else f
  }

  // Arbitrary bytes that AddBranch accepts against the root of a map either leave the stores a part
  // of the map's tree, with the whole walk and the shown sibling in them, or break the hash.
  lemma BranchIsPartOrCollision(h: HashFunction, m: Map, s: ByteState, proof: ByteProof, p: Path, v: Bytes)
    requires Storable(m) && AcceptsBytes(h, proof, DigestBytes(h, RootOf(m)), p, v)
    requires PartOfTree(h, RootOf(m), s)
    ensures var f, after := AuditBranch(h, RootOf(m), proof, p, v), AfterBranch(h, s, proof, p, v);
      && Genuine(h, f)
      && (f.Sound? ==> PartOfTree(h, RootOf(m), after) && v == Lookup(m, p))
      && (f.Sound? ==> forall e | e in SpineBytes(h, RootOf(m), 0, p) :: e.0 in after.nodes)
  {
    hide Right, AgreeBelow, Canonical, Bindings, Canon, Audit, DigestBytes, LastSibling, SpineBytes, Reach, Revealed;
    hide WithAll, PartOfTree;
    var t := RootOf(m);
    RootIsCanonical(m);
    AuditProofFinds(h, t, proof, p, v);
    if AuditProof(h, t, proof, p, v).Sound? {
      var claim := ClaimOf(h, proof, p, v).value;
      SoundIsWalk(h, t, p, 0, proof.sideNodes, claim);
      WithAllHolds(s.nodes, Revealed(h, p, 0, proof.sideNodes, claim));
      if proof.siblingData.Some? && proof.sideNodes != [] { SiblingIsEntryOrCollision(h, t, proof, p); }
      if AuditBranch(h, t, proof, p, v).Sound? { StillPart(h, t, s, proof, p, v); }
    }
  }

  lemma SiblingIsEntryOrCollision(h: HashFunction, t: Digest, proof: ByteProof, p: Path)
    requires Canonical(t, 0) && Sane(h, proof) && proof.siblingData.Some? && proof.sideNodes != []
    requires LastSibling(t, 0, p).Some? && DigestBytes(h, LastSibling(t, 0, p).value) == proof.sideNodes[0]
    ensures var f := Compared(h, LastSibling(t, 0, p).value, proof.siblingData.value);
      Genuine(h, f) && (f.Sound? ==> IsEntryOf(h, t, proof.sideNodes[0], proof.siblingData.value))
  {
    hide Right, AgreeBelow, Canonical, Bindings, LastSibling, Reach;
    LastSiblingInReach(t, 0, p);
  }

  lemma StillPart(h: HashFunction, t: Digest, s: ByteState, proof: ByteProof, p: Path, v: Bytes)
    requires Canonical(t, 0) && PartOfTree(h, t, s) && Sane(h, proof) && ClaimOf(h, proof, p, v).Some?
    requires Elements(Revealed(h, p, 0, proof.sideNodes, ClaimOf(h, proof, p, v).value)) == SpineBytes(h, t, 0, p)
    requires proof.siblingData.Some? && proof.sideNodes != [] ==>
      IsEntryOf(h, t, proof.sideNodes[0], proof.siblingData.value)
    requires v == Lookup(Bindings(t), p)
    ensures PartOfTree(h, t, AfterBranch(h, s, proof, p, v))
  {
    hide Right, AgreeBelow, Canonical, Bindings, Reach, Revealed, SpineBytes, WithAll, ClaimOf, EntryOf;
    var updates := Revealed(h, p, 0, proof.sideNodes, ClaimOf(h, proof, p, v).value);
    var n := WithAll(s.nodes, updates);
    WithAllHolds(s.nodes, updates);
    forall k | k in n ensures IsEntryOf(h, t, k, n[k]) {
      if (k, n[k]) in updates {
        assert (k, n[k]) in Elements(updates);
        SpineBytesInReach(h, t, 0, p, (k, n[k]));
      }
    }
  }

  // ---- Runs of branches ----

  datatype Branch = Branch(proof: ByteProof, path: Path, value: Bytes)

  // The state after AddBranch calls; refused branches change nothing.
  function AfterBranches(h: HashFunction, root: Bytes, s: ByteState, calls: seq<Branch>): ByteState {
    if calls == [] then s
    else
      var before, b := AfterBranches(h, root, s, calls[..|calls| - 1]), calls[|calls| - 1];
      if AcceptsBytes(h, b.proof, root, b.path, b.value) then AfterBranch(h, before, b.proof, b.path, b.value)
      else before
  }

  // The first finding among the accepted branches.
  function AuditBranches(h: HashFunction, t: Digest, calls: seq<Branch>): Finding {
    if calls == [] then Sound
    else
      var f, b := AuditBranches(h, t, calls[..|calls| - 1]), calls[|calls| - 1];
      if f.Sound? && AcceptsBytes(h, b.proof, DigestBytes(h, t), b.path, b.value)
      then AuditBranch(h, t, b.proof, b.path, b.value) else f
  }

  // Whatever branches a subtree is offered, its stores stay a part of the tree whose root it has,
  // or the branches break the hash.
  lemma {:induction false} BranchesArePartOrCollision(h: HashFunction, m: Map, s: ByteState, calls: seq<Branch>)
    requires Storable(m) && PartOfTree(h, RootOf(m), s)
    ensures var f := AuditBranches(h, RootOf(m), calls);
      && Genuine(h, f)
      && (f.Sound? ==> PartOfTree(h, RootOf(m), AfterBranches(h, DigestBytes(h, RootOf(m)), s, calls)))
  {
    hide PartOfTree, AuditBranch, AfterBranch, AcceptsBytes, RootOf, DigestBytes, SpineBytes;
    if calls != [] {
      var b, root := calls[|calls| - 1], DigestBytes(h, RootOf(m));
      BranchesArePartOrCollision(h, m, s, calls[..|calls| - 1]);
      if AuditBranches(h, RootOf(m), calls[..|calls| - 1]).Sound? && AcceptsBytes(h, b.proof, root, b.path, b.value) {
        BranchIsPartOrCollision(h, m, AfterBranches(h, root, s, calls[..|calls| - 1]), b.proof, b.path, b.value);
      }
    }
  }

  // ---- What a descent finds ----

  // Follows the tree and the store side by side until the store's datum is not the tree's.
  function AuditDescent(h: HashFunction, t: Digest, nodes: map<Bytes, Bytes>, p: Path, d: nat): Finding
    requires d <= Depth
    decreases Depth - d
  {
    if t.Zero? then Sound
    else
      var hash, data := DigestBytes(h, t), DataBytes(h, t.preimage);
      if hash == Placeholder() then ZeroPreimage(data)
      else if d == Depth || hash !in nodes then Sound
      else if nodes[hash] != data then Collision(data, nodes[hash])
      else if IsNode(t) then AuditDescent(h, Child(t, d, p), nodes, p, d + 1)
      else Sound
  }

  lemma {:induction false} DescentFinds(h: HashFunction, root: Digest, s: ByteState, t: Digest, p: Path, d: nat)
    requires d <= Depth && PartOfTree(h, root, s)
    ensures Genuine(h, AuditDescent(h, t, s.nodes, p, d))
    decreases Depth - d
  {
    hide Reach, Bindings, Child, Placeholder;
    if t.Hash? && d < Depth && DigestBytes(h, t) in s.nodes {
      assert IsEntryOf(h, root, DigestBytes(h, t), s.nodes[DigestBytes(h, t)]);
      DescentFinds(h, root, s, Child(t, d, p), p, d + 1);
    }
  }

  // Stored data can be parsed.
  lemma StoredIsLong(h: HashFunction, t: Digest, s: ByteState, k: Bytes)
    requires Canonical(t, 0) && PartOfTree(h, t, s) && k in s.nodes
    ensures |s.nodes[k]| == 1 + PathSize + PathSize
  {
    hide Right, Bindings, AgreeBelow;
    assert IsEntryOf(h, t, k, s.nodes[k]);
    var x :| x in Reach(t) && x.Hash? && (k, s.nodes[k]) == EntryOf(h, x);
    InTreeIsLeafOrNode(t, 0, x);
    if IsLeaf(x) {
      assert |DigestBytes(h, x.preimage.valueHash)| == PathSize;
    } else {
      assert |DigestBytes(h, x.preimage.left)| == |DigestBytes(h, x.preimage.right)| == PathSize;
    }
  }

  lemma {:induction false} InTreeIsLeafOrNode(t: Digest, d: nat, x: Digest)
    requires Canonical(t, d) && x in Reach(t)
    ensures IsLeaf(x) || IsNode(x)
    decreases t
  {
    if IsNode(t) && x != t {
      if x in Reach(t.preimage.left) {
        InTreeIsLeafOrNode(t.preimage.left, d + 1, x);
      } else {
        InTreeIsLeafOrNode(t.preimage.right, d + 1, x);
      }
    }
  }

  // The descent of the store has kept beside that of the tree down to depth i.
  ghost predicate Beside(h: HashFunction, t: Digest, nodes: map<Bytes, Bytes>, p: Path, i: nat, hash: Bytes) {
    && i <= Depth && NodesAbove(t, p, i) && DigestBytes(h, Descend(t, p, i)) == hash
    && AuditDescent(h, Descend(t, p, i), nodes, p, i).Sound?
  }

  // One step beside the tree: what is stored is the tree's own datum.
  lemma BesideStep(h: HashFunction, t: Digest, nodes: map<Bytes, Bytes>, p: Path, i: nat, hash: Bytes)
    requires Canonical(t, 0) && Beside(h, t, nodes, p, i, hash) && i < Depth && hash in nodes
    requires hash != Placeholder() && |nodes[hash]| == 1 + PathSize + PathSize
    ensures var data := nodes[hash];
      if IsLeafBytes(data) then p in Bindings(t) <==> ParseLeaf(data).0 == p
      else Beside(h, t, nodes, p, i + 1, if Right(p, i) then ParseNode(data).1 else ParseNode(data).0)
  {
    hide Right, AgreeBelow, Bindings, Spine;
    var u := Descend(t, p, i);
    DescendCanonical(t, p, i);
    if IsLeaf(u) {
      LeafRoundTrip(u.preimage.path, DigestBytes(h, u.preimage.valueHash));
      LightSpine(u, i, p);
    } else {
      NodeRoundTrip(DigestBytes(h, u.preimage.left), DigestBytes(h, u.preimage.right));
    }
  }

  // At the end of the tree's depth, or at a placeholder.
  lemma BesideEnds(h: HashFunction, t: Digest, nodes: map<Bytes, Bytes>, p: Path, i: nat, hash: Bytes)
    requires Canonical(t, 0) && Beside(h, t, nodes, p, i, hash)
    ensures hash == Placeholder() ==> p !in Bindings(t)
    ensures hash != Placeholder() && i == Depth ==> p in Bindings(t)
  {
    hide Right, AgreeBelow, Bindings, Canonical;
    var u := Descend(t, p, i);
    DescendCanonical(t, p, i);
    LightMoves(Zero, 0);
    if hash == Placeholder() {
      assert u.Zero?;
    } else if i == Depth {
      FullDepthIsBound(t, p);
    }
  }

  // The walk toward p, and its value if there is one, are stored.
  ghost predicate WalkKnown(h: HashFunction, t: Digest, s: ByteState, p: Path) {
    && (forall e | e in SpineBytes(h, t, 0, p) :: e.0 in s.nodes)
    && (p in Bindings(t) ==> p in s.values)
  }

  lemma {:induction false} WalkInSpineBytes(h: HashFunction, t: Digest, p: Path, k: nat)
    requires k <= Depth && NodesAbove(t, p, k)
    ensures SpineBytes(h, Descend(t, p, k), k, p) <= SpineBytes(h, t, 0, p)
  {
    hide Right, Child;
    if k > 0 {
      WalkInSpineBytes(h, t, p, k - 1);
      assert IsNode(Descend(t, p, k - 1));
    }
  }

  lemma BesideKnown(h: HashFunction, t: Digest, s: ByteState, p: Path, i: nat, hash: Bytes)
    requires Canonical(t, 0) && Beside(h, t, s.nodes, p, i, hash) && hash != Placeholder() && i < Depth
    ensures WalkKnown(h, t, s, p) ==> hash in s.nodes
  {
    hide Right, AgreeBelow, Bindings, Child;
    var u := Descend(t, p, i);
    DescendCanonical(t, p, i);
    WalkInSpineBytes(h, t, p, i);
    assert EntryOf(h, u) in SpineBytes(h, u, i, p);
  }

  // Round trip: after a branch for p is accepted, the walk toward p is known.
  lemma BranchMakesWalkKnown(h: HashFunction, m: Map, s: ByteState, proof: ByteProof, p: Path, v: Bytes)
    requires Storable(m) && AcceptsBytes(h, proof, DigestBytes(h, RootOf(m)), p, v)
    requires PartOfTree(h, RootOf(m), s) && AuditBranch(h, RootOf(m), proof, p, v).Sound?
    ensures WalkKnown(h, RootOf(m), AfterBranch(h, s, proof, p, v), p)
  {
    hide Right, AgreeBelow, Canonical, Bindings, Canon, SpineBytes, PartOfTree, WithAll, Revealed;
    RootIsCanonical(m);
    BranchIsPartOrCollision(h, m, s, proof, p, v);
  }

  // ---- The subtree object ----

  ghost function Contents(t: ByteTree): ByteState
    reads t
  {
    ByteState(t.nodes, t.values)
  }

  // The digests that a branch adds: the walk's, and the one beside its end if it is shown.
  ghost function BranchDigests(t: Digest, proof: ByteProof, p: Path): set<Digest> {
    Spine(t, 0, p) +
    if proof.siblingData.Some? && proof.sideNodes != [] && LastSibling(t, 0, p).Some?
    then {LastSibling(t, 0, p).value} else {}
  }

  // AddBranch. If the stores were the image of a partial state of the tree with this root, and the
  // audit of an accepted branch is sound, they are the image of one with the branch's digests too.
  method AddBranch(t: ByteTree, proof: ByteProof, path: Path, value: Bytes, ghost u: set<Digest>)
    returns (res: Result<()>)
    modifies t
    ensures res == if AcceptsBytes(t.h, proof, t.root, path, value) then Ok(()) else Err(BadProof)
    ensures t.root == old(t.root) && t.tree == old(t.tree)
    ensures Contents(t) == if AcceptsBytes(t.h, proof, t.root, path, value)
      then AfterBranch(t.h, old(Contents(t)), proof, path, value) else old(Contents(t))
    ensures t.keys == if res.Ok? then old(t.keys) + BranchDigests(t.tree, proof, path) else old(t.keys)
    ensures old(t.Simulates(u)) && (res.Ok? ==> AuditBranch(t.h, t.tree, proof, path, value).Sound?) ==> t.Simulates(u)
  {
    hide Revealed, FoldUp, AuditBranch, AfterBranch, Spine, LastSibling, Partial, Mirrors, DigestBytes;
    ghost var s, keys := Contents(t), t.keys;
    var result, updates := VerifyProofWithUpdates(t.h, proof, t.root, path, value);
    if !result {
      return Err(BadProof);
    }
    SetBranch(t, proof, path, value, updates);
    t.keys := t.keys + BranchDigests(t.tree, proof, path);
    if old(t.Simulates(u)) && AuditBranch(t.h, t.tree, proof, path, value).Sound? {
      BranchIsImage(t.h, s, keys, t.tree, u, proof, path, value);
    }
    return Ok(());
  }

  // The store operations of AddBranch.
  method SetBranch(t: ByteTree, proof: ByteProof, path: Path, value: Bytes, updates: seq<(Bytes, Bytes)>)
    requires AcceptsBytes(t.h, proof, t.root, path, value)
    requires updates == Revealed(t.h, path, 0, proof.sideNodes, ClaimOf(t.h, proof, path, value).value)
    modifies t`nodes, t`values
    ensures Contents(t) == AfterBranch(t.h, old(Contents(t)), proof, path, value)
  {
    hide Revealed;
    ghost var s := Contents(t);
    if value != DefaultValue {
      t.values := t.values[path := value];
    }
    var i := 0;
    while i < |updates|
      invariant i <= |updates| && t.nodes == WithAll(s.nodes, updates[..i])
      invariant t.values == if value == DefaultValue then s.values else s.values[path := value]
    {
      assert updates[..i + 1][..i] == updates[..i];
      var (hash, data) := updates[i];
      t.nodes := t.nodes[hash := data];
      i := i + 1;
    }
    assert updates[..i] == updates;
    if proof.siblingData.Some? {
      if |proof.sideNodes| > 0 {
        t.nodes := t.nodes[proof.sideNodes[0] := proof.siblingData.value];
      }
    }
  }

  lemma ImageIsPart(h: HashFunction, s: ByteState, keys: set<Digest>, t: Digest, u: set<Digest>)
    requires Mirrors(h, s.nodes, keys, u) && Partial(State(Store(keys), s.values, t))
    ensures PartOfTree(h, t, s) && keys <= Reach(t)
  {
    hide Canonical, Bindings, Reach, DigestBytes, DataBytes, Right;
    StoreKeys(keys);
    forall k | k in s.nodes ensures IsEntryOf(h, t, k, s.nodes[k]) {
      var x :| x in keys && DigestBytes(h, x) == k;
      assert x in Reach(t);
    }
  }

  // Stores that are a part of a tree are the image of the digests that they have entries of.
  lemma PartIsImage(h: HashFunction, t: Digest, s: ByteState, keys: set<Digest>, u: set<Digest>)
    requires PartOfTree(h, t, s) && Free(h, u) && Zero in u && Reach(t) <= u && keys <= Reach(t)
    requires HasKeys(h, s.nodes, keys) && forall x | x in keys :: x.Hash?
    ensures Mirrors(h, s.nodes, keys, u)
  {
    hide Bindings, Reach, DigestBytes, DataBytes;
    forall x | x in keys ensures s.nodes[DigestBytes(h, x)] == DataBytes(h, x.preimage) {
      assert IsEntryOf(h, t, DigestBytes(h, x), s.nodes[DigestBytes(h, x)]);
      var y :| y in Reach(t) && y.Hash? && (DigestBytes(h, x), s.nodes[DigestBytes(h, x)]) == EntryOf(h, y);
    }
  }

  lemma BranchIsImage(h: HashFunction, s: ByteState, keys: set<Digest>, t: Digest, u: set<Digest>,
                      proof: ByteProof, p: Path, v: Bytes)
    requires Mirrors(h, s.nodes, keys, u) && Partial(State(Store(keys), s.values, t)) && Reach(t) <= u
    requires AcceptsBytes(h, proof, DigestBytes(h, t), p, v) && AuditBranch(h, t, proof, p, v).Sound?
    ensures var after, more := AfterBranch(h, s, proof, p, v), keys + BranchDigests(t, proof, p);
      Mirrors(h, after.nodes, more, u) && Partial(State(Store(more), after.values, t))
  {
    hide Right, AgreeBelow, Canonical, Bindings, Canon, Reach, Spine, LastSibling, Mirrors, PartOfTree, SpineBytes;
    hide AuditBranch, AfterBranch, FoldUp, DigestBytes, BranchDigests, Free;
    ImageIsPart(h, s, keys, t, u);
    RootIsCanon(t);
    BranchIsPartOrCollision(h, Bindings(t), s, proof, p, v);
    var after, more := AfterBranch(h, s, proof, p, v), keys + BranchDigests(t, proof, p);
    BranchKeys(h, s, keys, t, u, proof, p, v);
    MirrorsHas(h, s.nodes, keys, u);
    PartIsImage(h, t, after, more, u);
    StoreKeys(more);
    PartValues(h, t, after);
  }

  lemma PartValues(h: HashFunction, t: Digest, s: ByteState)
    requires PartOfTree(h, t, s)
    ensures SubMap(s.values, Bindings(t))
  {
  }

  // The keys of the store are the bytes of these digests.
  ghost predicate HasKeys(h: HashFunction, nodes: map<Bytes, Bytes>, keys: set<Digest>) {
    && (forall x | x in keys :: DigestBytes(h, x) in nodes)
    && (forall k | k in nodes :: exists x :: x in keys && DigestBytes(h, x) == k)
  }

  lemma MirrorsHas(h: HashFunction, nodes: map<Bytes, Bytes>, keys: set<Digest>, u: set<Digest>)
    requires Mirrors(h, nodes, keys, u)
    ensures Free(h, u) && Zero in u && keys <= u && HasKeys(h, nodes, keys) && forall x | x in keys :: x.Hash?
  {
  }

  lemma HasKeysSet(h: HashFunction, nodes: map<Bytes, Bytes>, keys: set<Digest>, x: Digest, data: Bytes)
    requires HasKeys(h, nodes, keys)
    ensures HasKeys(h, nodes[DigestBytes(h, x) := data], keys + {x})
  {
    hide DigestBytes;
    var n := nodes[DigestBytes(h, x) := data];
    forall k | k in n ensures exists y :: y in keys + {x} && DigestBytes(h, y) == k {
      if k == DigestBytes(h, x) {
        assert x in keys + {x};
      } else {
        var y :| y in keys && DigestBytes(h, y) == k;
        assert y in keys + {x};
      }
    }
  }

  // The keys stored after a sound branch.
  lemma BranchKeys(h: HashFunction, s: ByteState, keys: set<Digest>, t: Digest, u: set<Digest>,
                   proof: ByteProof, p: Path, v: Bytes)
    requires Mirrors(h, s.nodes, keys, u) && keys <= Reach(t) && Canonical(t, 0)
    requires AcceptsBytes(h, proof, DigestBytes(h, t), p, v) && AuditBranch(h, t, proof, p, v).Sound?
    ensures var after, more := AfterBranch(h, s, proof, p, v), keys + BranchDigests(t, proof, p);
      more <= Reach(t) && HasKeys(h, after.nodes, more) && forall x | x in more :: x.Hash?
  {
    hide Right, AgreeBelow, Canonical, Bindings, Canon, Reach, Spine, LastSibling, Mirrors, SpineBytes, Revealed, Audit;
    hide WithAll, DigestBytes, DataBytes, FoldUp, HasKeys;
    var claim := ClaimOf(h, proof, p, v).value;
    var updates := Revealed(h, p, 0, proof.sideNodes, claim);
    SoundIsWalk(h, t, p, 0, proof.sideNodes, claim);
    MirrorsHas(h, s.nodes, keys, u);
    SpineInReach(t, 0, p);
    LastSiblingInReach(t, 0, p);
    ReachIsHashed(t, 0);
    WalkKeys(h, s.nodes, keys, t, p, updates);
    if proof.siblingData.Some? && proof.sideNodes != [] {
      var n, more, x := WithAll(s.nodes, updates), keys + Spine(t, 0, p), LastSibling(t, 0, p).value;
      HasKeysSet(h, n, more, x, proof.siblingData.value);
      assert keys + BranchDigests(t, proof, p) == more + {x};
    } else {
      assert keys + BranchDigests(t, proof, p) == keys + Spine(t, 0, p);
    }
  }

  lemma WalkKeys(h: HashFunction, nodes: map<Bytes, Bytes>, keys: set<Digest>, t: Digest, p: Path,
                 updates: seq<(Bytes, Bytes)>)
    requires Elements(updates) == SpineBytes(h, t, 0, p) && HasKeys(h, nodes, keys)
    ensures HasKeys(h, WithAll(nodes, updates), keys + Spine(t, 0, p))
  {
    hide Spine, SpineBytes, WithAll, DigestBytes, DataBytes;
    var n, more := WithAll(nodes, updates), keys + Spine(t, 0, p);
    WithAllHolds(nodes, updates);
    forall x | x in Spine(t, 0, p) ensures DigestBytes(h, x) in n {
      SpineBytesHas(h, t, 0, p, x);
      assert EntryOf(h, x) in Elements(updates);
    }
    forall k | k in n ensures exists x :: x in more && DigestBytes(h, x) == k {
      if (k, n[k]) in updates {
        assert (k, n[k]) in Elements(updates);
        SpineBytesInReach(h, t, 0, p, (k, n[k]));
        var x :| x in Spine(t, 0, p) && x.Hash? && (k, n[k]) == EntryOf(h, x);
        assert x in more;
      } else {
        assert k in nodes;
        var x :| x in keys && DigestBytes(h, x) == k;
        assert x in more;
      }
    }
  }

  // GetDescend on stores that are a part of the tree of m: every answer is what m binds, or the
  // store breaks the hash.
  method GetDescend(t: ByteTree, path: Path, ghost m: Map) returns (res: Result<Bytes>)
    requires Storable(m) && t.root == DigestBytes(t.h, RootOf(m)) && PartOfTree(t.h, RootOf(m), Contents(t))
    ensures res.Ok? ==>
      var f := AuditDescent(t.h, RootOf(m), t.nodes, path, 0);
      Genuine(t.h, f) && (f.Sound? ==> res.value == Lookup(m, path))
    ensures res.Err? ==> res.error == InvalidKey
    ensures AuditDescent(t.h, RootOf(m), t.nodes, path, 0).Sound? && WalkKnown(t.h, RootOf(m), Contents(t), path)
      ==> res.Ok?
  {
    hide Canonical, Bindings, Canon, Right, PartOfTree, Beside, AuditDescent, DigestBytes, Placeholder, RootOf;
    hide WalkKnown;
    ghost var x, f := RootOf(m), AuditDescent(t.h, RootOf(m), t.nodes, path, 0);
    RootIsCanonical(m);
    DescentFinds(t.h, x, Contents(t), x, path, 0);
    KnownValues(t.h, m, Contents(t), path);
    BesideBegins(t.h, x, t.nodes, path);
    if f.Sound? { BesideEnds(t.h, x, t.nodes, path, 0, t.root); }
    if t.root == Placeholder() {
      return Ok(DefaultValue);
    }
    var currentHash := t.root;
    var i := 0;
    while i < Depth
      invariant i <= Depth && currentHash != Placeholder()
      invariant f.Sound? ==> Beside(t.h, x, t.nodes, path, i, currentHash)
    {
      if f.Sound? { BesideKnown(t.h, x, Contents(t), path, i, currentHash); }
      if currentHash !in t.nodes {
        return Err(InvalidKey);
      }
      var currentData := t.nodes[currentHash];
      StoredIsLong(t.h, x, Contents(t), currentHash);
      if f.Sound? { BesideStep(t.h, x, t.nodes, path, i, currentHash); }
      if IsLeafBytes(currentData) {
        if path != ParseLeaf(currentData).0 {
          return Ok(DefaultValue);
        }
        if path !in t.values {
          return Err(InvalidKey);
        }
        return Ok(t.values[path]);
      }
      var (leftNode, rightNode) := ParseNode(currentData);
      if Right(path, i) {
        currentHash := rightNode;
      } else {
        currentHash := leftNode;
      }
      i := i + 1;
      if f.Sound? { BesideEnds(t.h, x, t.nodes, path, i, currentHash); }
      if currentHash == Placeholder() {
        return Ok(DefaultValue);
      }
    }
    if f.Sound? { BesideEnds(t.h, x, t.nodes, path, i, currentHash); }
    if path !in t.values {
      return Err(InvalidKey);
    }
    return Ok(t.values[path]);
  }

  // On the image of a partial state the descent is always sound.
  lemma {:induction false} ImageDescends(h: HashFunction, nodes: map<Bytes, Bytes>, keys: set<Digest>,
                                         u: set<Digest>, x: Digest, p: Path, d: nat)
    requires Mirrors(h, nodes, keys, u) && Reach(x) <= u && Canonical(x, d) && d <= Depth
    ensures AuditDescent(h, x, nodes, p, d).Sound?
    decreases Depth - d
  {
    hide Right, AgreeBelow, Bindings, DigestBytes, DataBytes, Mirrors, Child, Sibling;
    SelfReach(x, d);
    if x.Hash? {
      MirrorsAt(h, nodes, keys, u, x);
      if IsNode(x) && d < Depth {
        NodeParts(x, d, p);
        ReachOfNode(x, d, p);
        ImageDescends(h, nodes, keys, u, Child(x, d, p), p, d + 1);
      }
    }
  }

  lemma KnownValues(h: HashFunction, m: Map, s: ByteState, p: Path)
    requires Storable(m) && PartOfTree(h, RootOf(m), s)
    ensures SubMap(s.values, m)
    ensures WalkKnown(h, RootOf(m), s, p) && p in m ==> p in s.values
  {
    hide Right, AgreeBelow, Canonical, Bindings, Canon;
    RootIsCanonical(m);
  }

  lemma BesideBegins(h: HashFunction, t: Digest, nodes: map<Bytes, Bytes>, p: Path)
    ensures AuditDescent(h, t, nodes, p, 0).Sound? ==> Beside(h, t, nodes, p, 0, DigestBytes(h, t))
  {
  }
}
