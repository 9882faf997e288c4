// One write on a canonical tree: what it does to the bindings, to the shape, and to the set of
// digests the tree is made of. These are the facts behind the spine walks of smt.go.
module Writes {
  import opened Utils
  import opened TreeHasher
  import opened Trees

  // ---- Walking one step along a path ----

  // The child of t toward p; a leaf met before full depth stays where it is.
  function Child(t: Digest, d: nat, p: Path): Digest
    requires d < Depth
  {
    if !IsNode(t) then t
    else if Right(p, d) then t.preimage.right else t.preimage.left
  }

  // The child of t away from p.
  function Sibling(t: Digest, d: nat, p: Path): Digest
    requires d < Depth
  {
    if !IsNode(t) then Zero
    else if Right(p, d) then t.preimage.left else t.preimage.right
  }

  // The inner node whose child toward p is `child`.
  function Join(p: Path, d: nat, sibling: Digest, child: Digest): (t: Digest)
    requires d < Depth
    ensures IsNode(t) && Child(t, d, p) == child && Sibling(t, d, p) == sibling
  {
    if Right(p, d) then NodeOf(sibling, child) else NodeOf(child, sibling)
  }

  lemma JoinParts(p: Path, d: nat, s: Digest, c: Digest)
    requires d < Depth
    ensures Reach(Join(p, d, s, c)) == {Join(p, d, s, c)} + Reach(s) + Reach(c)
    ensures s < Join(p, d, s, c) && c < Join(p, d, s, c)
  {
  }

  lemma JoinCanonical(p: Path, d: nat, s: Digest, c: Digest)
    requires d < Depth && Canonical(s, d + 1) && Canonical(c, d + 1)
    requires AllTurn(Bindings(s), d, !Right(p, d)) && AllTurn(Bindings(c), d, Right(p, d))
    ensures Canonical(Join(p, d, s, c), d) <==> !(s.Zero? && Light(c)) && !(c.Zero? && Light(s))
    ensures Bindings(Join(p, d, s, c)) == Bindings(s) + Bindings(c)
    ensures Bindings(Join(p, d, s, c)) == Bindings(c) + Bindings(s)
  {
    hide Right;
    var a, b := Bindings(s), Bindings(c);
    assert forall q :: q in a ==> q !in b;
    assert a + b == b + a;
  }

  lemma NodeParts(t: Digest, d: nat, p: Path)
    requires Canonical(t, d) && IsNode(t)
    ensures d < Depth && Canonical(Sibling(t, d, p), d + 1) && Canonical(Child(t, d, p), d + 1)
    ensures AllTurn(Bindings(Sibling(t, d, p)), d, !Right(p, d))
    ensures AllTurn(Bindings(Child(t, d, p)), d, Right(p, d))
    ensures p !in Bindings(Sibling(t, d, p))
    ensures Bindings(t) == Bindings(Sibling(t, d, p)) + Bindings(Child(t, d, p))
    ensures forall q :: q in Bindings(Sibling(t, d, p)) ==> q !in Bindings(Child(t, d, p))
    ensures !(Sibling(t, d, p).Zero? && Light(Child(t, d, p)))
    ensures !(Child(t, d, p).Zero? && Light(Sibling(t, d, p)))
    ensures p in Bindings(t) <==> p in Bindings(Child(t, d, p))
    ensures p in Bindings(t) ==> Bindings(t)[p] == Bindings(Child(t, d, p))[p]
  {
    assert forall q :: q in Bindings(t.preimage.left) ==> q !in Bindings(t.preimage.right);
  }

  lemma ChildUnder(t: Digest, d: nat, p: Path)
    requires d < Depth && Canonical(t, d) && IsNode(t) && Under(Bindings(t), p, d)
    ensures Under(Bindings(Child(t, d, p)), p, d + 1)
  {
    hide AgreeBelow;
    NodeParts(t, d, p);
    forall q | q in Bindings(Child(t, d, p)) ensures SameWay(p, q, d + 1) {
      assert q in Bindings(t);
      SameWayOneMore(p, q, d);
    }
  }

  // Rebuilding a node over a child that binds p, or binds p no longer.
  lemma JoinWithSet(t: Digest, d: nat, p: Path, v: Bytes, c: Digest)
    requires Canonical(t, d) && IsNode(t) && d < Depth
    requires Canonical(c, d + 1) && !c.Zero? && (IsNode(Child(t, d, p)) ==> IsNode(c))
    requires Bindings(c) == Bindings(Child(t, d, p))[p := v]
    ensures Canonical(Join(p, d, Sibling(t, d, p), c), d)
    ensures Bindings(Join(p, d, Sibling(t, d, p), c)) == Bindings(t)[p := v]
  {
    hide Right, Canonical, Bindings, Child, Sibling, Join;
    NodeParts(t, d, p);
    JoinCanonical(p, d, Sibling(t, d, p), c);
    assert Bindings(Sibling(t, d, p)) + Bindings(c) == Bindings(t)[p := v];
  }

  // ---- Digests of a tree ----

  // Every digest in a tree commits to a non-empty part of what the tree commits to.
  lemma {:induction false} ReachBinds(t: Digest, d: nat, x: Digest)
    requires Canonical(t, d) && x in Reach(t)
    ensures x.Hash? && Bindings(x) != map[]
    ensures forall p :: p in Bindings(x) ==> p in Bindings(t) && Bindings(t)[p] == Bindings(x)[p]
    decreases t
  {
    hide Right;
    NodeBindsTwo(t, d);
    if IsNode(t) && x != t {
      var l, r := t.preimage.left, t.preimage.right;
      if x in Reach(l) {
        ReachBinds(l, d + 1, x);
        assert forall p :: p in Bindings(l) ==> p !in Bindings(r);
      } else {
        ReachBinds(r, d + 1, x);
      }
    }
  }

  lemma {:induction false} ReachSmaller(t: Digest, x: Digest)
    requires x in Reach(t)
    ensures x == t || x < t
    ensures Reach(x) <= Reach(t)
    decreases t
  {
    if IsNode(t) && x != t {
      if x in Reach(t.preimage.left) {
        ReachSmaller(t.preimage.left, x);
      } else {
        ReachSmaller(t.preimage.right, x);
      }
    }
  }

  // Trees over disjoint sets of paths have no digest in common.
  lemma ReachDisjoint(t: Digest, u: Digest, d: nat, e: nat)
    requires Canonical(t, d) && Canonical(u, e)
    requires forall p :: p in Bindings(t) ==> p !in Bindings(u)
    ensures Reach(t) !! Reach(u)
  {
    forall x | x in Reach(t) && x in Reach(u) ensures false {
      ReachBinds(t, d, x);
      ReachBinds(u, e, x);
      var p :| p in Bindings(x);
      assert false;
    }
  }

  lemma ReachOfNode(t: Digest, d: nat, p: Path)
    requires Canonical(t, d) && IsNode(t)
    ensures d < Depth
    ensures Reach(t) == {t} + Reach(Sibling(t, d, p)) + Reach(Child(t, d, p))
    ensures Reach(Sibling(t, d, p)) !! Reach(Child(t, d, p))
    ensures t !in Reach(Sibling(t, d, p)) && t !in Reach(Child(t, d, p))
  {
    hide Right;
    NodeParts(t, d, p);
    ReachDisjoint(Sibling(t, d, p), Child(t, d, p), d + 1, d + 1);
    var l, r := t.preimage.left, t.preimage.right;
    if t in Reach(l) { ReachSmaller(l, t); }
    if t in Reach(r) { ReachSmaller(r, t); }
  }

  // The digests met on the walk toward p.
  ghost function Spine(t: Digest, d: nat, p: Path): set<Digest>
    decreases t
  {
    if IsNode(t) && d < Depth then {t} + Spine(Child(t, d, p), d + 1, p)
    else if IsLeaf(t) then {t} else {}
  }

  // The digests on that walk that lead to no binding but p's: all but a leaf for another path.
  ghost function Replaced(t: Digest, d: nat, p: Path): set<Digest>
    decreases t
  {
    if IsNode(t) && d < Depth then {t} + Replaced(Child(t, d, p), d + 1, p)
    else if IsLeaf(t) && t.preimage.path == p then {t} else {}
  }

  lemma {:induction false} SpineInReach(t: Digest, d: nat, p: Path)
    ensures Replaced(t, d, p) <= Spine(t, d, p) <= Reach(t)
    decreases t
  {
    if IsNode(t) && d < Depth {
      SpineInReach(Child(t, d, p), d + 1, p);
    }
  }

  // ---- Setting a path ----

  ghost function Put(t: Digest, d: nat, p: Path, v: Bytes): Digest
    decreases Depth - d
  {
    if d >= Depth || t.Zero? || (IsLeaf(t) && t.preimage.path == p) then LeafOf(p, v)
    else if IsLeaf(t) && Right(t.preimage.path, d) != Right(p, d) then Join(p, d, t, LeafOf(p, v))
    else Join(p, d, Sibling(t, d, p), Put(Child(t, d, p), d + 1, p, v))
  }

  lemma {:induction false} PutCorrect(t: Digest, d: nat, p: Path, v: Bytes)
    requires d <= Depth && Canonical(t, d) && Under(Bindings(t), p, d) && v != DefaultValue
    ensures Canonical(Put(t, d, p, v), d)
    ensures !Put(t, d, p, v).Zero? && (IsNode(t) ==> IsNode(Put(t, d, p, v)))
    ensures Bindings(Put(t, d, p, v)) == Bindings(t)[p := v]
    decreases Depth - d
  {
    hide AgreeBelow;
    LeafIsCanonical(p, v, d);
    if IsNode(t) {
      NodeParts(t, d, p);
      ChildUnder(t, d, p);
      PutCorrect(Child(t, d, p), d + 1, p, v);
      JoinWithSet(t, d, p, v, Put(Child(t, d, p), d + 1, p, v));
    } else if IsLeaf(t) && t.preimage.path != p {
      PutBesideLeaf(t, d, p, v);
    } else {
      LightIsSmall(t, d);
    }
  }

  lemma {:induction false} PutBesideLeaf(t: Digest, d: nat, p: Path, v: Bytes)
    requires d <= Depth && Canonical(t, d) && Under(Bindings(t), p, d) && v != DefaultValue
    requires IsLeaf(t) && t.preimage.path != p
    ensures d < Depth
    ensures Canonical(Put(t, d, p, v), d) && IsNode(Put(t, d, p, v))
    ensures Bindings(Put(t, d, p, v)) == Bindings(t)[p := v]
    decreases Depth - d
  {
    hide Right, AgreeBelow, Canonical, Bindings, Under;
    LeafHasRoom(t, d, p);
    if Right(t.preimage.path, d) == Right(p, d) {
      LeafMovesDown(t, d, p);
      PutBesideLeaf(t, d + 1, p, v);
      PadAbove(t, d, p, v, Put(t, d + 1, p, v));
    } else {
      PartHere(t, d, p, v);
    }
  }

  // Two paths that agree on every bit are one: a leaf for another path is met above full depth.
  lemma LeafHasRoom(t: Digest, d: nat, p: Path)
    requires d <= Depth && Canonical(t, d) && Under(Bindings(t), p, d)
    requires IsLeaf(t) && t.preimage.path != p
    ensures d < Depth && SameWay(p, t.preimage.path, d)
  {
    hide AgreeBelow;
    LightIsSmall(t, d);
    assert SameWay(p, t.preimage.path, d);
    if d == Depth {
      SameWayToTheEnd(p, t.preimage.path);
    }
  }

  lemma LeafMovesDown(t: Digest, d: nat, p: Path)
    requires d < Depth && Canonical(t, d) && IsLeaf(t)
    requires SameWay(p, t.preimage.path, d) && Right(t.preimage.path, d) == Right(p, d)
    ensures Canonical(t, d + 1) && Under(Bindings(t), p, d + 1)
  {
    hide AgreeBelow, Right;
    LightIsSmall(t, d);
    SameWayOneMore(p, t.preimage.path, d);
  }

  // A placeholder beside the joined leaves, one level up.
  lemma PadAbove(t: Digest, d: nat, p: Path, v: Bytes, c: Digest)
    requires d < Depth && Canonical(t, d) && IsLeaf(t) && Right(t.preimage.path, d) == Right(p, d)
    requires Canonical(c, d + 1) && IsNode(c) && Bindings(c) == Bindings(t)[p := v]
    ensures Canonical(Join(p, d, Zero, c), d) && IsNode(Join(p, d, Zero, c))
    ensures Bindings(Join(p, d, Zero, c)) == Bindings(t)[p := v]
  {
    hide AgreeBelow, Right, Canonical, Bindings, Join;
    LightMoves(Zero, d + 1);
    LightIsSmall(t, d);
    JoinCanonical(p, d, Zero, c);
    assert Bindings(c) + Bindings(Zero) == Bindings(c);
  }

  // The two leaves side by side.
  lemma PartHere(t: Digest, d: nat, p: Path, v: Bytes)
    requires d < Depth && Canonical(t, d) && IsLeaf(t) && Right(t.preimage.path, d) != Right(p, d)
    requires v != DefaultValue
    ensures Canonical(Join(p, d, t, LeafOf(p, v)), d)
    ensures Bindings(Join(p, d, t, LeafOf(p, v))) == Bindings(t)[p := v]
  {
    hide AgreeBelow, Right;
    LightIsSmall(t, d);
    LeafIsCanonical(p, v, d + 1);
    JoinCanonical(p, d, t, LeafOf(p, v));
    assert Bindings(t) + map[p := v] == Bindings(t)[p := v];
  }

  lemma {:induction false} PutReach(t: Digest, d: nat, p: Path, v: Bytes)
    requires d <= Depth && Canonical(t, d) && Under(Bindings(t), p, d) && v != DefaultValue
    ensures Reach(Put(t, d, p, v)) == (Reach(t) - Replaced(t, d, p)) + Spine(Put(t, d, p, v), d, p)
    decreases Depth - d
  {
    hide AgreeBelow, Right;
    if IsNode(t) {
      ChildUnder(t, d, p);
      NodeParts(t, d, p);
      PutReach(Child(t, d, p), d + 1, p, v);
      PutReachNode(t, d, p, v);
    } else if IsLeaf(t) && t.preimage.path != p {
      PutBesideLeaf(t, d, p, v);
      if Right(t.preimage.path, d) == Right(p, d) {
        SameWayOneMore(p, t.preimage.path, d);
        LightIsSmall(t, d);
        PutReach(t, d + 1, p, v);
        JoinParts(p, d, Zero, Put(t, d + 1, p, v));
      } else {
        JoinParts(p, d, t, LeafOf(p, v));
      }
    }
  }

  lemma PutReachNode(t: Digest, d: nat, p: Path, v: Bytes)
    requires Canonical(t, d) && IsNode(t) && d < Depth
    requires var c := Child(t, d, p); var c' := Put(c, d + 1, p, v);
      Reach(c') == (Reach(c) - Replaced(c, d + 1, p)) + Spine(c', d + 1, p)
    ensures Reach(Put(t, d, p, v)) == (Reach(t) - Replaced(t, d, p)) + Spine(Put(t, d, p, v), d, p)
  {
    hide Right, Canonical, Bindings;
    var s, c := Sibling(t, d, p), Child(t, d, p);
    var c' := Put(c, d + 1, p, v);
    assert Put(t, d, p, v) == Join(p, d, s, c');
    hide Put, Child, Sibling, Join;
    ReachOfNode(t, d, p);
    SpineInReach(c, d + 1, p);
    JoinParts(p, d, s, c');
    assert Replaced(t, d, p) == {t} + Replaced(c, d + 1, p);
    assert Child(Join(p, d, s, c'), d, p) == c';
    assert Spine(Put(t, d, p, v), d, p) == {Put(t, d, p, v)} + Spine(c', d + 1, p);
  }

  // Everything on the walk toward a bound path carries that binding.
  lemma {:induction false} SpineBinds(t: Digest, d: nat, p: Path, x: Digest)
    requires Canonical(t, d) && p in Bindings(t) && x in Spine(t, d, p)
    ensures p in Bindings(x) && Bindings(x)[p] == Bindings(t)[p]
    decreases t
  {
    if IsNode(t) && x != t {
      NodeParts(t, d, p);
      SpineBinds(Child(t, d, p), d + 1, p, x);
    }
  }

  // A write that changes something brings no digest the tree already had.
  lemma PutSpineIsNew(t: Digest, d: nat, p: Path, v: Bytes)
    requires d <= Depth && Canonical(t, d) && Under(Bindings(t), p, d) && v != DefaultValue
    requires p in Bindings(t) ==> Bindings(t)[p] != v
    ensures Spine(Put(t, d, p, v), d, p) !! Reach(t)
  {
    hide AgreeBelow, Right;
    PutCorrect(t, d, p, v);
    forall x | x in Spine(Put(t, d, p, v), d, p) ensures x !in Reach(t) {
      SpineBinds(Put(t, d, p, v), d, p, x);
      if x in Reach(t) {
        ReachBinds(t, d, x);
      }
    }
  }

  // After a set, the walk toward any other path is made of its old walk and the new one.
  lemma {:induction false} PutSpineOf(t: Digest, d: nat, p: Path, v: Bytes, q: Path)
    requires d <= Depth
    ensures Spine(Put(t, d, p, v), d, q) <= Spine(t, d, q) + Spine(Put(t, d, p, v), d, p)
    decreases Depth - d
  {
    hide Right;
    if !(d >= Depth || t.Zero? || (IsLeaf(t) && t.preimage.path == p)) {
      if !(IsLeaf(t) && Right(t.preimage.path, d) != Right(p, d)) {
        PutSpineOf(Child(t, d, p), d + 1, p, v, q);
      }
    }
  }

  // ---- Removing a path ----

  // A node whose child toward p was emptied or lightened: a lone leaf moves up, past any placeholder.
  function Collapse(p: Path, d: nat, sibling: Digest, child: Digest): Digest
    requires d < Depth
  {
    if child.Zero? && Light(sibling) then sibling
    else if sibling.Zero? && Light(child) then child
    else Join(p, d, sibling, child)
  }

  ghost function Drop(t: Digest, d: nat, p: Path): Digest
    decreases t
  {
    if IsNode(t) && d < Depth then Collapse(p, d, Sibling(t, d, p), Drop(Child(t, d, p), d + 1, p))
    else if IsLeaf(t) && t.preimage.path == p then Zero
    else t
  }

  lemma {:induction false} DropCorrect(t: Digest, d: nat, p: Path)
    requires Canonical(t, d) && p in Bindings(t)
    ensures Canonical(Drop(t, d, p), d)
    ensures Bindings(Drop(t, d, p)) == Bindings(t) - {p}
    decreases t
  {
    hide Right, AgreeBelow, Canonical, Bindings, Collapse;
    if IsNode(t) {
      NodeParts(t, d, p);
      DropCorrect(Child(t, d, p), d + 1, p);
      CollapseCorrect(t, d, p, Drop(Child(t, d, p), d + 1, p));
    } else {
      DropLeaf(t, d, p);
    }
  }

  lemma DropLeaf(t: Digest, d: nat, p: Path)
    requires Canonical(t, d) && !IsNode(t) && p in Bindings(t)
    ensures Drop(t, d, p) == Zero && Canonical(Zero, d) && Bindings(Zero) == map[] == Bindings(t) - {p}
  {
    LightIsSmall(t, d);
  }

  lemma CollapseCorrect(t: Digest, d: nat, p: Path, c: Digest)
    requires Canonical(t, d) && IsNode(t) && d < Depth
    requires Canonical(c, d + 1) && Bindings(c) == Bindings(Child(t, d, p)) - {p}
    ensures Canonical(Collapse(p, d, Sibling(t, d, p), c), d)
    ensures Bindings(Collapse(p, d, Sibling(t, d, p), c)) == Bindings(t) - {p}
  {
    hide Right, Canonical, Bindings, Child, Sibling, Join;
    NodeParts(t, d, p);
    var s := Sibling(t, d, p);
    assert Bindings(s) + Bindings(c) == Bindings(t) - {p};
    LightMoves(s, d);
    LightMoves(c, d);
    LightIsSmall(Zero, d);
    JoinCanonical(p, d, s, c);
    if c.Zero? {
      assert Bindings(s) + Bindings(c) == Bindings(s);
    }
    if s.Zero? {
      assert Bindings(s) + Bindings(c) == Bindings(c);
    }
  }

  lemma LightMoves(t: Digest, d: nat)
    ensures Light(t) && Canonical(t, d + 1) ==> Canonical(t, d)
    ensures Canonical(Zero, d) && Bindings(Zero) == map[]
  {
  }

  // The inner nodes on the walk toward p.
  ghost function Inner(t: Digest, d: nat, p: Path): set<Digest>
    decreases t
  {
    if IsNode(t) && d < Depth then {t} + Inner(Child(t, d, p), d + 1, p) else {}
  }

  lemma {:induction false} DropReach(t: Digest, d: nat, p: Path)
    requires Canonical(t, d) && p in Bindings(t)
    ensures Reach(Drop(t, d, p)) == (Reach(t) - Spine(t, d, p)) + Inner(Drop(t, d, p), d, p)
    decreases t
  {
    if IsNode(t) {
      NodeParts(t, d, p);
      DropReach(Child(t, d, p), d + 1, p);
      DropReachNode(t, d, p);
    }
  }

  lemma DropReachNode(t: Digest, d: nat, p: Path)
    requires Canonical(t, d) && IsNode(t) && d < Depth
    requires var c := Child(t, d, p); var c' := Drop(c, d + 1, p);
      Reach(c') == (Reach(c) - Spine(c, d + 1, p)) + Inner(c', d + 1, p)
    ensures Reach(Drop(t, d, p)) == (Reach(t) - Spine(t, d, p)) + Inner(Drop(t, d, p), d, p)
  {
    hide Right, Canonical, Bindings;
    var s, c := Sibling(t, d, p), Child(t, d, p);
    var c' := Drop(c, d + 1, p);
    ReachOfNode(t, d, p);
    SpineInReach(c, d + 1, p);
    JoinParts(p, d, s, c');
    assert Spine(t, d, p) == {t} + Spine(c, d + 1, p);
    assert Drop(t, d, p) == Collapse(p, d, s, c');
    if !Light(Drop(t, d, p)) {
      assert Inner(Drop(t, d, p), d, p) == {Drop(t, d, p)} + Inner(c', d + 1, p);
    }
  }

  lemma {:induction false} InnerInReach(t: Digest, d: nat, p: Path)
    ensures Inner(t, d, p) <= Reach(t)
    ensures IsNode(t) && d < Depth ==> t in Inner(t, d, p)
    decreases t
  {
    if IsNode(t) && d < Depth {
      InnerInReach(Child(t, d, p), d + 1, p);
    }
  }

  lemma DropInnerInNode(t: Digest, d: nat, p: Path)
    requires Canonical(t, d) && IsNode(t) && d < Depth && p in Bindings(t)
    requires Canonical(Drop(t, d, p), d) && Bindings(Drop(t, d, p)) == Bindings(t) - {p}
    requires var c := Child(t, d, p); var c' := Drop(c, d + 1, p);
      Canonical(c', d + 1) && Bindings(c') == Bindings(c) - {p} && Inner(c', d + 1, p) !! Reach(c)
    ensures Inner(Drop(t, d, p), d, p) !! Reach(t)
  {
    hide Right, Canonical, Bindings, Reach, Child, Sibling;
    var s, c := Sibling(t, d, p), Child(t, d, p);
    var c', u := Drop(c, d + 1, p), Drop(t, d, p);
    if u == Join(p, d, s, c') && !Light(u) {
      assert Inner(u, d, p) == {u} + Inner(c', d + 1, p);
      hide Drop, Inner, Join;
      ReachOfNode(t, d, p);
      NotAbove(u, d, t);
      JoinIsNew(t, d, p, c');
      InnerApart(t, d, p, c');
    }
  }

  // A node rebuilt over the sibling is in neither child: what it holds is not all in either.
  lemma JoinIsNew(t: Digest, d: nat, p: Path, c: Digest)
    requires Canonical(t, d) && IsNode(t) && d < Depth && Canonical(c, d + 1)
    requires Inner(c, d + 1, p) !! Reach(Child(t, d, p))
    requires !(Sibling(t, d, p).Zero? && Light(c))
    ensures Join(p, d, Sibling(t, d, p), c) !in Reach(Sibling(t, d, p))
    ensures Join(p, d, Sibling(t, d, p), c) !in Reach(Child(t, d, p))
  {
    hide Right, Canonical, Bindings, Child, Sibling, Join, Reach, Inner;
    var s, b, u := Sibling(t, d, p), Child(t, d, p), Join(p, d, Sibling(t, d, p), c);
    NodeParts(t, d, p);
    ReachOfNode(t, d, p);
    JoinParts(p, d, s, c);
    SelfReach(s, d + 1);
    SelfReach(c, d + 1);
    InnerInReach(c, d + 1, p);
    NodeOrLight(c, d + 1);
    if u in Reach(s) { ReachSmaller(s, u); }
    if u in Reach(b) { ReachSmaller(b, u); }
  }

  lemma NodeOrLight(t: Digest, d: nat)
    requires Canonical(t, d)
    ensures Light(t) || (IsNode(t) && d < Depth)
  {
  }

  // The inner nodes below it are not in the rest of the tree either.
  lemma InnerApart(t: Digest, d: nat, p: Path, c: Digest)
    requires Canonical(t, d) && IsNode(t) && d < Depth && p in Bindings(t)
    requires Canonical(c, d + 1) && Bindings(c) == Bindings(Child(t, d, p)) - {p}
    ensures Inner(c, d + 1, p) !! Reach(Sibling(t, d, p)) && t !in Inner(c, d + 1, p)
  {
    hide Right, Canonical, Bindings, Child, Sibling, Reach, Inner;
    NodeParts(t, d, p);
    InnerInReach(c, d + 1, p);
    ReachDisjoint(Sibling(t, d, p), c, d + 1, d + 1);
    NotAbove(c, d + 1, t);
  }

  lemma SelfReach(t: Digest, d: nat)
    requires Canonical(t, d)
    ensures t.Zero? || t in Reach(t)
  {
  }

  // A tree that binds more is not a part of one that binds less.
  lemma NotAbove(u: Digest, d: nat, t: Digest)
    requires Canonical(u, d)
    requires exists p :: p in Bindings(t) && p !in Bindings(u)
    ensures t !in Reach(u)
  {
    if t in Reach(u) {
      ReachBinds(u, d, t);
    }
  }

  // A delete brings no digest the tree already had.
  lemma {:induction false} DropInnerIsNew(t: Digest, d: nat, p: Path)
    requires Canonical(t, d) && p in Bindings(t)
    ensures Inner(Drop(t, d, p), d, p) !! Reach(t)
    decreases t
  {
    if IsNode(t) {
      NodeParts(t, d, p);
      DropInnerIsNew(Child(t, d, p), d + 1, p);
      DropCorrect(Child(t, d, p), d + 1, p);
      DropCorrect(t, d, p);
      DropInnerInNode(t, d, p);
    }
  }

  // ---- Stores over one write ----

  // The part of a store over t that a store over u keeps, and what u needs beside it.
  ghost function Carry(keys: set<Digest>, t: Digest, u: Digest): set<Digest> {
    keys * Reach(u) + (Reach(u) - Reach(t))
  }

  // Removing `gone` and adding `made` is right for every store over t, complete or partial.
  lemma CarryBySteps(keys: set<Digest>, t: Digest, u: Digest, gone: set<Digest>, made: set<Digest>)
    requires keys <= Reach(t) && gone <= Reach(t) && made !! Reach(t)
    requires Reach(u) == (Reach(t) - gone) + made
    ensures (keys - gone) + made == Carry(keys, t, u)
  {
  }

  // What one write makes of a map; the empty value removes.
  function Write(m: Map, p: Path, v: Bytes): Map {
    if v == DefaultValue then m - {p} else m[p := v]
  }

  lemma UnderRoot(m: Map, p: Path)
    ensures Under(m, p, 0) && Together(m, 0)
  {
  }

  // Setting: the new root, and the store that goes with it.
  lemma PutAtRoot(t: Digest, p: Path, v: Bytes, keys: set<Digest>)
    requires Canonical(t, 0) && v != DefaultValue && keys <= Reach(t)
    requires p in Bindings(t) ==> Bindings(t)[p] != v
    ensures Canonical(Put(t, 0, p, v), 0)
    ensures Bindings(Put(t, 0, p, v)) == Write(Bindings(t), p, v)
    ensures (keys - Replaced(t, 0, p)) + Spine(Put(t, 0, p, v), 0, p) == Carry(keys, t, Put(t, 0, p, v))
  {
    hide Right, AgreeBelow, Canonical, Bindings, Put, Replaced, Spine;
    UnderRoot(Bindings(t), p);
    PutCorrect(t, 0, p, v);
    PutReach(t, 0, p, v);
    PutSpineIsNew(t, 0, p, v);
    SpineInReach(t, 0, p);
    CarryBySteps(keys, t, Put(t, 0, p, v), Replaced(t, 0, p), Spine(Put(t, 0, p, v), 0, p));
  }

  // Removing: the new root, and the store that goes with it.
  lemma DropAtRoot(t: Digest, p: Path, keys: set<Digest>)
    requires Canonical(t, 0) && keys <= Reach(t) && p in Bindings(t)
    ensures Canonical(Drop(t, 0, p), 0)
    ensures Bindings(Drop(t, 0, p)) == Write(Bindings(t), p, DefaultValue)
    ensures (keys - Spine(t, 0, p)) + Inner(Drop(t, 0, p), 0, p) == Carry(keys, t, Drop(t, 0, p))
  {
    hide Right, AgreeBelow, Canonical, Bindings, Drop, Inner, Spine;
    DropCorrect(t, 0, p);
    DropReach(t, 0, p);
    DropInnerIsNew(t, 0, p);
    SpineInReach(t, 0, p);
    CarryBySteps(keys, t, Drop(t, 0, p), Spine(t, 0, p), Inner(Drop(t, 0, p), 0, p));
  }
}
