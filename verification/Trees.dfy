// The canonical compressed tree of a map from paths to values, and the algebra of trees: what a
// tree binds, which digests it is made of, and how one write changes both. A digest of the
// symbolic model is the whole tree below it.
module Trees {
  import opened Utils
  import opened TreeHasher

  type Map = map<Path, Bytes>

  // ---- What a tree is made of ----

  // The map a tree commits to.
  ghost function Bindings(t: Digest): Map
  {
    match t
    case Hash(LeafData(p, Hash(Raw(v)))) => map[p := v]
    case Hash(NodeData(l, r)) => Bindings(l) + Bindings(r)
    case _ => map[]
  }

  // The digests of the leaves and inner nodes of a tree.
  ghost function Reach(t: Digest): set<Digest>
  {
    match t
    case Hash(LeafData(_, _)) => {t}
    case Hash(NodeData(l, r)) => {t} + Reach(l) + Reach(r)
    case _ => {}
  }

  // A subtree no inner node may have beside a placeholder: a placeholder or a single leaf.
  predicate Light(t: Digest) {
    t.Zero? || IsLeaf(t)
  }

  ghost predicate AllTurn(m: Map, d: nat, right: bool)
    requires d < Depth
  {
    forall p :: p in m ==> Right(p, d) == right
  }

  // The shape every tree of the program has at depth d: leaves bind non-empty values, an inner
  // node splits its paths on bit d, and a lone leaf is never wrapped in an inner node.
  ghost predicate Canonical(t: Digest, d: nat)
    decreases t
  {
    match t
    case Zero => true
    case Hash(Raw(_)) => false
    case Hash(LeafData(_, vh)) => vh.Hash? && vh.preimage.Raw? && vh.preimage.bytes != DefaultValue
    case Hash(NodeData(l, r)) =>
      && d < Depth
      && Canonical(l, d + 1) && Canonical(r, d + 1)
      && AllTurn(Bindings(l), d, false) && AllTurn(Bindings(r), d, true)
      && !(l.Zero? && Light(r)) && !(r.Zero? && Light(l))
  }

  // All paths of m take the same turns down to depth d.
  ghost predicate Together(m: Map, d: nat)
    requires d <= Depth
  {
    forall p, q :: p in m && q in m ==> SameWay(p, q, d)
  }

  // All paths of m lie below the position that p reaches at depth d.
  ghost predicate Under(m: Map, p: Path, d: nat)
    requires d <= Depth
  {
    forall q :: q in m ==> SameWay(p, q, d)
  }

  // ---- The canonical tree of a map ----

  ghost function Half(m: Map, d: nat, right: bool): Map
    requires d < Depth
  {
    map p | p in m && Right(p, d) == right :: m[p]
  }

  ghost predicate Storable(m: Map) {
    forall p :: p in m ==> m[p] != DefaultValue
  }

  ghost predicate IsOnly(m: Map, p: Path) {
    p in m && m == map[p := m[p]]
  }

  ghost predicate Single(m: Map) {
    exists p :: IsOnly(m, p)
  }

  ghost function TheOnly(m: Map): (p: Path)
    requires Single(m)
    ensures IsOnly(m, p)
  {
    var p :| IsOnly(m, p); p
  }

  // Empty is the placeholder, a singleton is a bare leaf, anything else splits on bit d.
  ghost function Canon(m: Map, d: nat): Digest
    requires d <= Depth && Together(m, d)
    decreases Depth - d
  {
    if m == map[] then Zero
    else if Single(m) then LeafOf(TheOnly(m), m[TheOnly(m)])
    else
      TogetherAtTheEnd(m, d);
      HalfTogether(m, d, false);
      HalfTogether(m, d, true);
      NodeOf(Canon(Half(m, d, false), d + 1), Canon(Half(m, d, true), d + 1))
  }

  // Two paths part before the last bit.
  lemma TogetherAtTheEnd(m: Map, d: nat)
    requires d <= Depth && Together(m, d) && m != map[]
    ensures d == Depth ==> Single(m)
  {
    var p :| p in m;
    if d == Depth {
      forall q | q in m ensures q == p {
        SameWayToTheEnd(q, p);
      }
      assert IsOnly(m, p);
    }
  }

  lemma HalfTogether(m: Map, d: nat, right: bool)
    requires d < Depth && Together(m, d)
    ensures Together(Half(m, d, right), d + 1)
    ensures Storable(m) ==> Storable(Half(m, d, right))
  {
    forall p, q | p in Half(m, d, right) && q in Half(m, d, right) ensures SameWay(p, q, d + 1) {
      assert SameWay(p, q, d);
      SameWayOneMore(p, q, d);
    }
  }

  lemma SameWayOneMore(p: Path, q: Path, d: nat)
    requires d < Depth
    ensures SameWay(p, q, d + 1) <==> SameWay(p, q, d) && Right(p, d) == Right(q, d)
  {
  }

  // The root of the tree of m.
  ghost function RootOf(m: Map): Digest {
    Canon(m, 0)
  }

  lemma {:induction false} CanonIsCanonical(m: Map, d: nat)
    requires d <= Depth && Together(m, d) && Storable(m)
    ensures Canonical(Canon(m, d), d)
    ensures Bindings(Canon(m, d)) == m
    decreases Depth - d
  {
    hide Right;
    hide AgreeBelow;
    if m == map[] {
      assert Canon(m, d) == Zero;
    } else if Single(m) {
      var p := TheOnly(m);
      assert Canon(m, d) == LeafOf(p, m[p]);
      LeafIsCanonical(p, m[p], d);
    } else {
      TogetherAtTheEnd(m, d);
      HalfTogether(m, d, false);
      HalfTogether(m, d, true);
      var l, r := Canon(Half(m, d, false), d + 1), Canon(Half(m, d, true), d + 1);
      assert Canon(m, d) == NodeOf(l, r);
      CanonIsCanonical(Half(m, d, false), d + 1);
      CanonIsCanonical(Half(m, d, true), d + 1);
      SplitIsCanonical(m, d, l, r);
    }
  }

  lemma LeafIsCanonical(p: Path, v: Bytes, d: nat)
    ensures Canonical(LeafOf(p, v), d) <==> v != DefaultValue
    ensures Bindings(LeafOf(p, v)) == map[p := v]
  {
  }

  lemma SplitIsCanonical(m: Map, d: nat, l: Digest, r: Digest)
    requires d < Depth && m != map[] && !Single(m)
    requires Canonical(l, d + 1) && Bindings(l) == Half(m, d, false)
    requires Canonical(r, d + 1) && Bindings(r) == Half(m, d, true)
    ensures Canonical(NodeOf(l, r), d) && Bindings(NodeOf(l, r)) == m
  {
    hide Right;
    var a, b := Half(m, d, false), Half(m, d, true);
    assert a + b == m;
    LightIsSmall(l, d + 1);
    LightIsSmall(r, d + 1);
    if a == map[] { assert b == m; }
    if b == map[] { assert a == m; }
  }

  lemma LightIsSmall(t: Digest, d: nat)
    requires Canonical(t, d)
    ensures t.Zero? ==> Bindings(t) == map[]
    ensures IsLeaf(t) ==> IsOnly(Bindings(t), t.preimage.path)
  {
  }

  // An inner node binds at least two paths; a canonical tree that binds nothing is the placeholder.
  lemma {:induction false} NodeBindsTwo(t: Digest, d: nat)
    requires Canonical(t, d)
    ensures Bindings(t) == map[] <==> t.Zero?
    ensures Single(Bindings(t)) <==> IsLeaf(t)
    decreases t
  {
    LightIsSmall(t, d);
    if IsNode(t) {
      NodeBindsTwo(t.preimage.left, d + 1);
      NodeBindsTwo(t.preimage.right, d + 1);
      NodeIsNotSingle(t, d);
    }
  }

  lemma NodeIsNotSingle(t: Digest, d: nat)
    requires Canonical(t, d) && IsNode(t)
    requires Bindings(t.preimage.left) == map[] <==> t.preimage.left.Zero?
    requires Bindings(t.preimage.right) == map[] <==> t.preimage.right.Zero?
    requires Single(Bindings(t.preimage.left)) <==> IsLeaf(t.preimage.left)
    requires Single(Bindings(t.preimage.right)) <==> IsLeaf(t.preimage.right)
    ensures Bindings(t) != map[] && !Single(Bindings(t))
  {
    var l, r := t.preimage.left, t.preimage.right;
    if l.Zero? {
      assert Bindings(t) == Bindings(r);
    } else if r.Zero? {
      assert Bindings(t) == Bindings(l);
    } else {
      var p :| p in Bindings(l);
      var q :| q in Bindings(r);
      assert p in Bindings(t) && q in Bindings(t) && p != q;
    }
  }

  // There is only one canonical tree of a map.
  lemma {:induction false} CanonicalIsUnique(t: Digest, u: Digest, d: nat)
    requires Canonical(t, d) && Canonical(u, d) && Bindings(t) == Bindings(u)
    ensures t == u
    decreases t
  {
    NodeBindsTwo(t, d);
    NodeBindsTwo(u, d);
    if IsNode(t) {
      HalvesOfNode(t, d);
      HalvesOfNode(u, d);
      CanonicalIsUnique(t.preimage.left, u.preimage.left, d + 1);
      CanonicalIsUnique(t.preimage.right, u.preimage.right, d + 1);
    } else if IsLeaf(t) {
      assert t.preimage.path in Bindings(u);
    }
  }

  lemma HalvesOfNode(t: Digest, d: nat)
    requires Canonical(t, d) && IsNode(t)
    ensures Half(Bindings(t), d, false) == Bindings(t.preimage.left)
    ensures Half(Bindings(t), d, true) == Bindings(t.preimage.right)
  {
  }

  // The canonical shape is exactly the image of Canon.
  lemma CanonicalIsCanon(t: Digest, d: nat)
    requires d <= Depth && Canonical(t, d) && Together(Bindings(t), d)
    ensures Storable(Bindings(t)) && t == Canon(Bindings(t), d)
  {
    CanonicalIsStorable(t, d);
    CanonIsCanonical(Bindings(t), d);
    CanonicalIsUnique(t, Canon(Bindings(t), d), d);
  }

  lemma {:induction false} CanonicalIsStorable(t: Digest, d: nat)
    requires Canonical(t, d)
    ensures Storable(Bindings(t))
    decreases t
  {
    if IsNode(t) {
      CanonicalIsStorable(t.preimage.left, d + 1);
      CanonicalIsStorable(t.preimage.right, d + 1);
    }
  }

  // Equal maps have equal roots and, with hashing free, equal roots come from equal maps.
  lemma RootDeterminesMap(m: Map, n: Map)
    requires Storable(m) && Storable(n)
    ensures RootOf(m) == RootOf(n) <==> m == n
  {
    CanonIsCanonical(m, 0);
    CanonIsCanonical(n, 0);
  }
}
