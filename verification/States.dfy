// The two stores and the root of a tree, as values: the one state a map stands for, the partial
// states a deep subtree may be in, and what one write makes of either.
module States {
  import opened Utils
  import opened TreeHasher
  import opened Trees
  import opened Writes
  import opened Walks

  datatype State = State(nodes: map<Digest, Data>, values: Map, root: Digest)

  // Why an operation fails. InvalidKey is a store's only error: the key is not there.
  datatype Error = InvalidKey | KeyAlreadyEmpty | BadProof | BulkInputMismatch | InvalidShardCount

  datatype Result<+T> = Ok(value: T) | Err(error: Error)

  datatype Option<+T> = None | Some(value: T)

  function Lookup(m: Map, p: Path): Bytes {
    if p in m then m[p] else DefaultValue
  }

  // The empty byte string is what stands for an absent key: writing it removes, and reading an
  // absent key gives it.
  lemma EmptyMeansAbsent(m: Map, p: Path, v: Bytes)
    ensures Write(m, p, v) == if v == [] then m - {p} else m[p := v]
    ensures Lookup(m, p) == if p in m then m[p] else []
  {
  }

  // A node store holding exactly these digests, each under its own preimage.
  ghost function Store(keys: set<Digest>): map<Digest, Data> {
    map h | h in keys && h.Hash? :: h.preimage
  }

  lemma Stored(nodes: map<Digest, Data>, h: Digest)
    requires nodes == Store(nodes.Keys) && h in nodes
    ensures h == Hash(nodes[h])
  {
  }

  // THE state of a tree that binds m: no orphan, no dangling child, no stale value.
  ghost function StateOf(m: Map): State {
    State(Store(Reach(RootOf(m))), m, RootOf(m))
  }

  ghost predicate SubMap<K, V>(m: map<K, V>, n: map<K, V>) {
    forall k :: k in m ==> k in n && m[k] == n[k]
  }

  // A deep subtree of the tree of m: its root, and some of its nodes and values.
  ghost predicate PartOf(s: State, m: Map) {
    && Storable(m)
    && s.root == RootOf(m)
    && SubMap(s.nodes, StateOf(m).nodes)
    && SubMap(s.values, m)
  }

  // The same, said of the digests themselves; what the code keeps at every step.
  ghost predicate Partial(s: State) {
    && Canonical(s.root, 0)
    && s.nodes == Store(s.nodes.Keys) && s.nodes.Keys <= Reach(s.root)
    && SubMap(s.values, Bindings(s.root))
  }

  // A partial state that misses nothing.
  ghost predicate Exact(s: State) {
    Partial(s) && s.nodes.Keys == Reach(s.root) && s.values == Bindings(s.root)
  }

  lemma ReachIsHashed(t: Digest, d: nat)
    requires Canonical(t, d)
    ensures forall x :: x in Reach(t) ==> x.Hash?
    ensures Store(Reach(t)).Keys == Reach(t)
  {
    forall x | x in Reach(t) ensures x.Hash? {
      ReachBinds(t, d, x);
    }
  }

  lemma RootIsCanon(t: Digest)
    requires Canonical(t, 0)
    ensures Storable(Bindings(t)) && t == RootOf(Bindings(t))
  {
    hide Right, AgreeBelow, Canonical, Bindings, Canon;
    UnderRoot(Bindings(t), seq(PathSize, i => 0));
    CanonicalIsCanon(t, 0);
  }

  lemma RootIsCanonical(m: Map)
    requires Storable(m)
    ensures Canonical(RootOf(m), 0) && Bindings(RootOf(m)) == m
  {
    hide Right, AgreeBelow, Canonical, Bindings, Canon;
    UnderRoot(m, seq(PathSize, i => 0));
    CanonIsCanonical(m, 0);
  }

  lemma PartialIsPartOf(s: State)
    ensures Partial(s) <==> exists m :: PartOf(s, m)
    ensures Partial(s) ==> PartOf(s, Bindings(s.root))
    ensures forall m :: PartOf(s, m) ==> m == Bindings(s.root)
  {
    hide Right, AgreeBelow, Canonical, Bindings, Canon, Reach;
    if Partial(s) {
      RootIsCanon(s.root);
      ReachIsHashed(s.root, 0);
      assert PartOf(s, Bindings(s.root));
    }
    forall m | PartOf(s, m) ensures Partial(s) && m == Bindings(s.root) {
      RootIsCanonical(m);
      ReachIsHashed(s.root, 0);
      assert s.nodes.Keys <= Reach(s.root);
      assert s.nodes == Store(s.nodes.Keys);
    }
  }

  // Exact states and maps correspond one to one.
  lemma ExactIsStateOf(s: State)
    ensures Exact(s) <==> Storable(s.values) && s == StateOf(s.values)
  {
    hide Right, AgreeBelow, Canonical, Bindings, Canon, Reach;
    if Exact(s) {
      RootIsCanon(s.root);
    }
    if Storable(s.values) && s == StateOf(s.values) {
      RootIsCanonical(s.values);
      ReachIsHashed(s.root, 0);
    }
  }

  lemma ExactIsItsMap(s: State)
    requires Exact(s)
    ensures Partial(s) && Storable(s.values) && s == StateOf(s.values) && s.root == RootOf(s.values)
  {
    ExactIsStateOf(s);
  }

  lemma StateOfFields(m: Map)
    ensures StateOf(m).values == m && StateOf(m).root == RootOf(m)
  {
  }

  lemma ExactStateOf(m: Map)
    requires Storable(m)
    ensures Exact(StateOf(m)) && StateOf(m).values == m
  {
    hide Exact, Storable;
    ExactIsStateOf(StateOf(m));
  }

  // A complete store, told by its entries alone: the root is stored unless it is the placeholder; so
  // is every child of a stored node; and everything stored but the root is a child of a stored node.
  lemma ExactIsClosed(s: State)
    requires Exact(s)
    ensures s.root.Zero? || s.root in s.nodes
    ensures forall x | x in s.nodes :: x == Hash(s.nodes[x])
    ensures forall x | x in s.nodes && s.nodes[x].NodeData? ::
      var NodeData(l, r) := s.nodes[x]; (l.Zero? || l in s.nodes) && (r.Zero? || r in s.nodes)
    ensures forall x | x in s.nodes && x != s.root ::
      exists y :: y in s.nodes && s.nodes[y].NodeData? && (s.nodes[y].left == x || s.nodes[y].right == x)
  {
    hide Right, AgreeBelow, Bindings;
    SelfReach(s.root, 0);
    forall x | x in s.nodes && s.nodes[x].NodeData?
      ensures var NodeData(l, r) := s.nodes[x]; (l.Zero? || l in s.nodes) && (r.Zero? || r in s.nodes)
    {
      ChildrenInReach(s.root, 0, x);
    }
    forall x | x in s.nodes && x != s.root
      ensures exists y :: y in s.nodes && s.nodes[y].NodeData? && (s.nodes[y].left == x || s.nodes[y].right == x)
    {
      var y := ParentInReach(s.root, 0, x);
      assert y in s.nodes;
    }
  }

  lemma {:induction false} ChildrenInReach(t: Digest, d: nat, x: Digest)
    requires Canonical(t, d) && x in Reach(t) && IsNode(x)
    ensures var l, r := x.preimage.left, x.preimage.right; (l.Zero? || l in Reach(t)) && (r.Zero? || r in Reach(t))
    decreases t
  {
    hide Right, AgreeBelow, Bindings;
    SelfReach(t.preimage.left, d + 1);
    SelfReach(t.preimage.right, d + 1);
    if x != t {
      if x in Reach(t.preimage.left) {
        ChildrenInReach(t.preimage.left, d + 1, x);
      } else {
        ChildrenInReach(t.preimage.right, d + 1, x);
      }
    }
  }

  lemma {:induction false} ParentInReach(t: Digest, d: nat, x: Digest) returns (y: Digest)
    requires Canonical(t, d) && x in Reach(t) && x != t
    ensures y in Reach(t) && IsNode(y) && (y.preimage.left == x || y.preimage.right == x)
    decreases t
  {
    hide Right, AgreeBelow, Bindings;
    var l, r := t.preimage.left, t.preimage.right;
    if x == l || x == r {
      y := t;
    } else if x in Reach(l) {
      y := ParentInReach(l, d + 1, x);
    } else {
      y := ParentInReach(r, d + 1, x);
    }
  }

  // ---- One write ----

  // The digest beside the last node of the walk toward p, if the walk leaves the root.
  function LastSibling(t: Digest, d: nat, p: Path): Option<Digest>
    decreases t
  {
    if !IsNode(t) || d >= Depth then None
    else if IsNode(Child(t, d, p)) && d + 1 < Depth then LastSibling(Child(t, d, p), d + 1, p)
    else Some(Sibling(t, d, p))
  }

  ghost predicate Binds(t: Digest, p: Path, v: Bytes) {
    p in Bindings(t) && Bindings(t)[p] == v
  }

  // What the stores must hold for a write to go through: the walk; the old value when one is
  // overwritten or removed; and, to remove, the node beside the removed leaf.
  ghost predicate Ready(s: State, p: Path, v: Bytes) {
    && Spine(s.root, 0, p) <= s.nodes.Keys
    && (p in Bindings(s.root) && !Binds(s.root, p, v) ==> p in s.values)
    && (p in Bindings(s.root) && v == DefaultValue && LastSibling(s.root, 0, p).Some? ==>
          LastSibling(s.root, 0, p).value in s.nodes)
  }

  // The state after a write that went through.
  ghost function AfterWrite(s: State, p: Path, v: Bytes): State {
    var root := RootOf(Write(Bindings(s.root), p, v));
    State(
      Store(Carry(s.nodes.Keys, s.root, root)),
      if Binds(s.root, p, v) then s.values else Write(s.values, p, v),
      root)
  }

  // The state a write that fails leaves under the old root: nothing is done without the whole
  // walk; a set has stored its leaf and deleted the old one when it misses the old value; a delete
  // has taken the walk and the value away, and rebuilt the walk unless it misses the sibling.
  ghost function AfterFailure(s: State, p: Path, v: Bytes): State {
    if !(Spine(s.root, 0, p) <= s.nodes.Keys) then s
    else if v != DefaultValue then
      var replaced := LeafOf(p, Lookup(Bindings(s.root), p));
      State(Store(s.nodes.Keys + {LeafOf(p, v)} - {replaced}), s.values, s.root)
    else
      var sibling := LastSibling(s.root, 0, p);
      var rebuilt := sibling.Some? ==> sibling.value in s.nodes;
      State(
        if rebuilt then AfterWrite(s, p, v).nodes else Store(s.nodes.Keys - Spine(s.root, 0, p)),
        s.values - {p},
        s.root)
  }

  lemma AfterWriteIsPartial(s: State, p: Path, v: Bytes)
    requires Partial(s)
    ensures Partial(AfterWrite(s, p, v))
    ensures Bindings(AfterWrite(s, p, v).root) == Write(Bindings(s.root), p, v)
  {
    hide Right, AgreeBelow, Canonical, Bindings, Canon, Reach;
    var m := Bindings(s.root);
    RootIsCanon(s.root);
    RootIsCanonical(Write(m, p, v));
    ReachIsHashed(RootOf(Write(m, p, v)), 0);
    var u := AfterWrite(s, p, v);
    assert u.nodes.Keys == Carry(s.nodes.Keys, s.root, u.root);
  }

  // On a complete state every write goes through and gives the state of the new map.
  lemma AfterWriteIsExact(m: Map, p: Path, v: Bytes)
    requires Storable(m)
    ensures Ready(StateOf(m), p, v)
    ensures Storable(Write(m, p, v)) && AfterWrite(StateOf(m), p, v) == StateOf(Write(m, p, v))
  {
    hide Right, AgreeBelow, Canonical, Bindings, Canon, Reach, Spine, LastSibling;
    ExactIsStateOf(StateOf(m));
    SpineInReach(RootOf(m), 0, p);
    RootIsCanonical(m);
    if p in m { LastSiblingInReach(RootOf(m), 0, p); }
    var u := RootOf(Write(m, p, v));
    assert Carry(Reach(RootOf(m)), RootOf(m), u) == Reach(u);
    assert v != DefaultValue && Binds(RootOf(m), p, v) ==> Write(m, p, v) == m;
  }

  // ---- What stays known ----

  // The walk toward q, and its value if there is one, are stored.
  ghost predicate Known(s: State, q: Path) {
    Spine(s.root, 0, q) <= s.nodes.Keys && (q in Bindings(s.root) ==> q in s.values)
  }

  // What is known can be set; and it can be deleted if the last sibling is stored.
  lemma KnownIsReady(s: State, q: Path)
    requires Known(s, q)
    ensures forall w | w != [] :: Ready(s, q, w)
    ensures LastSiblings(s.root, 0, q) <= s.nodes.Keys ==> Ready(s, q, [])
  {
    hide Spine, LastSibling, Bindings;
  }

  ghost function LastSiblings(t: Digest, d: nat, p: Path): set<Digest> {
    if LastSibling(t, d, p).Some? then {LastSibling(t, d, p).value} else {}
  }

  lemma LastSiblingBelow(t: Digest, d: nat, p: Path)
    requires Canonical(t, d) && IsNode(t)
    ensures d < Depth
    ensures IsNode(Child(t, d, p)) ==> LastSibling(t, d, p) == LastSibling(Child(t, d, p), d + 1, p)
    ensures !IsNode(Child(t, d, p)) ==> LastSibling(t, d, p) == Some(Sibling(t, d, p))
  {
    hide Right, Bindings;
    NodeParts(t, d, p);
  }

  // A leaf that a delete lifts is the last sibling.
  lemma {:induction false} LiftedIsLast(t: Digest, d: nat, p: Path)
    requires Canonical(t, d) && IsNode(t) && p in Bindings(t) && IsLeaf(Drop(t, d, p))
    ensures LastSibling(t, d, p) == Some(Drop(t, d, p))
    decreases t
  {
    hide Right, AgreeBelow, Canonical, Bindings, LastSibling;
    NodeParts(t, d, p);
    LastSiblingBelow(t, d, p);
    var c := Child(t, d, p);
    if IsNode(c) {
      DropOfNode(c, d + 1, p);
      LiftedFromChild(t, d, p);
      LiftedIsLast(c, d + 1, p);
    } else {
      DropLeaf(c, d + 1, p);
    }
  }

  // A node without one path is no placeholder.
  lemma DropOfNode(t: Digest, d: nat, p: Path)
    requires Canonical(t, d) && IsNode(t) && p in Bindings(t)
    ensures !Drop(t, d, p).Zero?
  {
    hide Right, AgreeBelow, Canonical, Bindings, Drop;
    NodeBindsTwo(t, d);
    DropCorrect(t, d, p);
    NodeBindsTwo(Drop(t, d, p), d);
    OneLessThanTwo(Bindings(t), p);
  }

  lemma OneLessThanTwo(m: Map, p: Path)
    requires m != map[] && !Single(m)
    ensures m - {p} != map[]
  {
    var q :| q in m;
    assert !IsOnly(m, p) && !IsOnly(m, q);
    var r :| r in m && r != q;
    assert (if q == p then r else q) in m - {p};
  }

  lemma LiftedFromChild(t: Digest, d: nat, p: Path)
    requires Canonical(t, d) && IsNode(t) && d < Depth && IsLeaf(Drop(t, d, p))
    requires !Drop(Child(t, d, p), d + 1, p).Zero?
    ensures Drop(t, d, p) == Drop(Child(t, d, p), d + 1, p)
  {
    hide Right, AgreeBelow, Canonical, Bindings;
  }

  // After a delete, the walk toward any other path is made of its old walk, the rebuilt inner nodes
  // and the last sibling.
  lemma {:induction false} DropSpineOf(t: Digest, d: nat, p: Path, q: Path)
    requires Canonical(t, d) && p in Bindings(t)
    ensures Spine(Drop(t, d, p), d, q)
         <= Spine(t, d, q) + Inner(Drop(t, d, p), d, p) + LastSiblings(t, d, p)
    decreases t
  {
    hide Right, AgreeBelow, Canonical, Bindings, LastSibling;
    if IsNode(t) {
      NodeParts(t, d, p);
      LastSiblingBelow(t, d, p);
      if IsLeaf(Drop(t, d, p)) {
        LiftedIsLast(t, d, p);
      } else if IsNode(Drop(t, d, p)) {
        DropSpineOf(Child(t, d, p), d + 1, p, q);
        DropSpineJoin(t, d, p, q);
      }
    }
  }

  lemma DropSpineJoin(t: Digest, d: nat, p: Path, q: Path)
    requires Canonical(t, d) && IsNode(t) && d < Depth && p in Bindings(t) && IsNode(Drop(t, d, p))
    requires var c := Child(t, d, p); var c' := Drop(c, d + 1, p);
      Spine(c', d + 1, q) <= Spine(c, d + 1, q) + Inner(c', d + 1, p) + LastSiblings(c, d + 1, p)
    ensures Spine(Drop(t, d, p), d, q)
         <= Spine(t, d, q) + Inner(Drop(t, d, p), d, p) + LastSiblings(t, d, p)
  {
    hide AgreeBelow, Canonical, Bindings, LastSibling;
    var s, c, u := Sibling(t, d, p), Child(t, d, p), Drop(t, d, p);
    var c' := Drop(c, d + 1, p);
    NodeParts(t, d, p);
    LastSiblingBelow(t, d, p);
    if !IsNode(c) { DropLeaf(c, d + 1, p); }
    assert u == Join(p, d, s, c');
  }

  // A write that goes through leaves everything known that was known.
  lemma WriteKeepsKnown(s: State, p: Path, v: Bytes, q: Path)
    requires Partial(s) && Ready(s, p, v) && Known(s, q)
    ensures Known(AfterWrite(s, p, v), q)
  {
    hide Right, AgreeBelow, Canonical, Bindings, Canon, Reach, Spine, LastSibling, Put, Drop, Inner;
    var t, u := s.root, AfterWrite(s, p, v).root;
    RootIsCanon(t);
    AfterWriteIsPartial(s, p, v);
    RootIsCanon(u);
    SpineInReach(u, 0, q);
    ReachIsHashed(u, 0);
    forall x | x in Spine(u, 0, q) ensures x in Carry(s.nodes.Keys, t, u) {
      if v == DefaultValue && p in Bindings(t) {
        DropAtRoot(t, p, s.nodes.Keys);
        RootIsCanon(Drop(t, 0, p));
        DropSpineOf(t, 0, p, q);
        DropInnerIsNew(t, 0, p);
      } else if v != DefaultValue && !Binds(t, p, v) {
        PutAtRoot(t, p, v, s.nodes.Keys);
        RootIsCanon(Put(t, 0, p, v));
        PutSpineOf(t, 0, p, v, q);
        UnderRoot(Bindings(t), p);
        PutSpineIsNew(t, 0, p, v);
      } else {
        assert Write(Bindings(t), p, v) == Bindings(t);
      }
    }
  }

  // ---- Last siblings ----

  // The node beside a leaf is never a placeholder.
  lemma {:induction false} LastSiblingInReach(t: Digest, d: nat, p: Path)
    requires Canonical(t, d)
    ensures LastSibling(t, d, p).Some? ==> LastSibling(t, d, p).value in Reach(t)
    decreases t
  {
    if IsNode(t) {
      NodeParts(t, d, p);
      ReachOfNode(t, d, p);
      SelfReach(Sibling(t, d, p), d + 1);
      LastSiblingInReach(Child(t, d, p), d + 1, p);
    }
  }

  lemma {:induction false} LastSiblingFrom(t: Digest, p: Path, k: nat)
    requires k < Depth && NodesAbove(t, p, k + 1)
    ensures LastSibling(t, 0, p) == LastSibling(Descend(t, p, k), k, p)
  {
    hide Child, Sibling;
    if k > 0 {
      LastSiblingFrom(t, p, k - 1);
      assert IsNode(Descend(t, p, k - 1)) && IsNode(Descend(t, p, k));
    }
  }

  // The last sibling is the first side node of the walk.
  lemma LastSiblingOfWalk(t: Digest, p: Path, sideNodes: seq<Digest>, pathNodes: seq<Digest>)
    requires IsWalk(t, p, sideNodes, pathNodes)
    ensures LastSibling(t, 0, p) == if sideNodes == [] then None else Some(sideNodes[0])
  {
    var n := |sideNodes|;
    if n > 0 {
      LastSiblingFrom(t, p, n - 1);
      assert sideNodes[n - 1 - (n - 1)] == Sibling(Descend(t, p, n - 1), n - 1, p);
      assert IsNode(Descend(t, p, n - 1)) && !IsNode(Descend(t, p, n));
    }
  }
}
