// The walk from the root toward a path (fillSideNodes), and the states of a tree's two stores.
module Walks {
  import opened Utils
  import opened TreeHasher
  import opened Trees
  import opened Writes

  // The subtree that the walk toward p has reached after k steps.
  ghost function Descend(t: Digest, p: Path, k: nat): Digest
    requires k <= Depth
  {
    if k == 0 then t else Child(Descend(t, p, k - 1), k - 1, p)
  }

  // The first n steps all start at inner nodes.
  ghost predicate NodesAbove(t: Digest, p: Path, n: nat)
    requires n <= Depth
  {
    forall k: nat | k < n :: IsNode(Descend(t, p, k))
  }

  // Side and path nodes of a finished walk, from the leaf end up to the root.
  ghost predicate IsWalk(t: Digest, p: Path, sideNodes: seq<Digest>, pathNodes: seq<Digest>)
  {
    var n := |sideNodes|;
    && n <= Depth && |pathNodes| == n + 1
    && NodesAbove(t, p, n) && !IsNode(Descend(t, p, n))
    && (forall i: nat | i <= n :: pathNodes[i] == Descend(t, p, n - i))
    && (forall i: nat | i < n :: sideNodes[i] == Sibling(Descend(t, p, n - 1 - i), n - 1 - i, p))
  }

  lemma {:induction false} DescendCanonical(t: Digest, p: Path, k: nat)
    requires k <= Depth && Canonical(t, 0)
    ensures Canonical(Descend(t, p, k), k)
    ensures p in Bindings(t) <==> p in Bindings(Descend(t, p, k))
    ensures p in Bindings(t) ==> Bindings(t)[p] == Bindings(Descend(t, p, k))[p]
  {
    hide Right;
    if k > 0 {
      DescendCanonical(t, p, k - 1);
      var u := Descend(t, p, k - 1);
      if IsNode(u) {
        NodeParts(u, k - 1, p);
      } else {
        LightMovesDown(u, k - 1);
      }
    }
  }

  lemma LightMovesDown(t: Digest, d: nat)
    requires Canonical(t, d) && !IsNode(t)
    ensures Canonical(t, d + 1)
  {
  }

  lemma {:induction false} DescendUnder(t: Digest, p: Path, k: nat)
    requires k <= Depth && Canonical(t, 0) && NodesAbove(t, p, k)
    ensures Under(Bindings(Descend(t, p, k)), p, k)
  {
    hide AgreeBelow, Right;
    if k == 0 {
      UnderRoot(Bindings(t), p);
    } else {
      DescendUnder(t, p, k - 1);
      DescendCanonical(t, p, k - 1);
      ChildUnder(Descend(t, p, k - 1), k - 1, p);
    }
  }

  // Deeper subtrees on a walk are strictly smaller, so no digest is met twice.
  lemma {:induction false} DescendSmaller(t: Digest, p: Path, j: nat, k: nat)
    requires j < k <= Depth && NodesAbove(t, p, k)
    ensures Descend(t, p, k) < Descend(t, p, j)
  {
    assert IsNode(Descend(t, p, k - 1));
    assert Descend(t, p, k) < Descend(t, p, k - 1);
    if j < k - 1 {
      DescendSmaller(t, p, j, k - 1);
    }
  }

  ghost function Above(t: Digest, p: Path, k: nat): set<Digest>
    requires k <= Depth
  {
    if k == 0 then {} else Above(t, p, k - 1) + {Descend(t, p, k - 1)}
  }

  lemma {:induction false} AboveContains(t: Digest, p: Path, k: nat, j: nat)
    requires j < k <= Depth
    ensures Descend(t, p, j) in Above(t, p, k)
  {
    if j < k - 1 { AboveContains(t, p, k - 1, j); }
  }

  lemma {:induction false} AboveIsMet(t: Digest, p: Path, k: nat, x: Digest) returns (j: nat)
    requires k <= Depth && x in Above(t, p, k)
    ensures j < k && x == Descend(t, p, j)
  {
    if x == Descend(t, p, k - 1) { j := k - 1; } else { j := AboveIsMet(t, p, k - 1, x); }
  }

  lemma {:induction false} SpineFrom(t: Digest, p: Path, k: nat)
    requires k <= Depth && NodesAbove(t, p, k)
    ensures Spine(t, 0, p) == Above(t, p, k) + Spine(Descend(t, p, k), k, p)
    ensures Replaced(t, 0, p) == Above(t, p, k) + Replaced(Descend(t, p, k), k, p)
  {
    hide Right, Child;
    if k > 0 {
      SpineFrom(t, p, k - 1);
      assert IsNode(Descend(t, p, k - 1));
    }
  }

  // The path nodes of a walk, placeholder apart, are the spine.
  lemma SpineOfWalk(t: Digest, p: Path, sideNodes: seq<Digest>, pathNodes: seq<Digest>)
    requires Canonical(t, 0) && IsWalk(t, p, sideNodes, pathNodes)
    ensures forall x :: x in Spine(t, 0, p) <==> x in pathNodes && x != Zero
    ensures forall i, j | 0 <= i < j < |pathNodes| :: pathNodes[i] != pathNodes[j]
    ensures Replaced(t, 0, p) ==
      Above(t, p, |sideNodes|) + (if p in Bindings(t) then {pathNodes[0]} else {})
    ensures forall x :: x in Above(t, p, |sideNodes|) <==> x in pathNodes[1..]
    ensures Zero !in pathNodes[1..]
    ensures pathNodes[0] != Zero ==> Spine(t, 0, p) == set x | x in pathNodes
  {
    hide Right, Child, Sibling, Canonical, Bindings, AgreeBelow;
    var n := |sideNodes|;
    SpineFrom(t, p, n);
    DescendCanonical(t, p, n);
    LightSpine(Descend(t, p, n), n, p);
    assert pathNodes[0] == Descend(t, p, n);
    forall i, j | 0 <= i < j < |pathNodes| ensures pathNodes[i] != pathNodes[j] {
      assert pathNodes[i] == Descend(t, p, n - i) && pathNodes[j] == Descend(t, p, n - j);
      DescendSmaller(t, p, n - j, n - i);
    }
    AboveOfWalk(t, p, sideNodes, pathNodes);
    assert pathNodes == [pathNodes[0]] + pathNodes[1..];
    forall x | x in Above(t, p, n) ensures x != Zero {
      var j := AboveIsMet(t, p, n, x);
    }
  }

  lemma AboveOfWalk(t: Digest, p: Path, sideNodes: seq<Digest>, pathNodes: seq<Digest>)
    requires IsWalk(t, p, sideNodes, pathNodes)
    ensures forall x :: x in Above(t, p, |sideNodes|) <==> x in pathNodes[1..]
  {
    hide Right, Child, Sibling;
    var n := |sideNodes|;
    forall x | x in Above(t, p, n) ensures x in pathNodes[1..] {
      var j := AboveIsMet(t, p, n, x);
      assert pathNodes[1..][n - j - 1] == pathNodes[n - j] == x;
    }
    forall x | x in pathNodes[1..] ensures x in Above(t, p, n) {
      var i :| 0 <= i < n && pathNodes[1..][i] == x;
      assert pathNodes[i + 1] == x;
      AboveContains(t, p, n, n - i - 1);
    }
  }

  lemma LightSpine(t: Digest, d: nat, p: Path)
    requires Canonical(t, d) && !IsNode(t)
    ensures Spine(t, d, p) == if t.Zero? then {} else {t}
    ensures Replaced(t, d, p) == if p in Bindings(t) then {t} else {}
    ensures p in Bindings(t) <==> IsLeaf(t) && t.preimage.path == p
  {
  }

  // ---- The write toward p, rebuilt from the leaf up ----

  // The subtree at depth k after p was set.
  ghost function PutTo(t: Digest, p: Path, k: nat, v: Bytes): Digest
    requires k <= Depth
  {
    Put(Descend(t, p, k), k, p, v)
  }

  // The subtree at depth k after p was removed.
  ghost function DropTo(t: Digest, p: Path, k: nat): Digest
    requires k <= Depth
  {
    Drop(Descend(t, p, k), k, p)
  }

  lemma {:induction false} DescendStays(t: Digest, p: Path, n: nat, k: nat)
    requires n <= k <= Depth && !IsNode(Descend(t, p, n))
    ensures Descend(t, p, k) == Descend(t, p, n)
  {
    if n < k { DescendStays(t, p, n, k - 1); }
  }

  // The depth at which the bottom-up walk starts: where the new leaf parts from a leaf for another
  // path, or the depth of the place it takes.
  ghost predicate StartsAt(t: Digest, p: Path, n: nat, m: nat) {
    && n <= m <= Depth && NodesAbove(t, p, n) && !IsNode(Descend(t, p, n))
    && var u := Descend(t, p, n);
       if u.Zero? || p in Bindings(t) then m == n
       else IsLeaf(u) && m < Depth && SameWay(p, u.preimage.path, m) && Right(p, m) != Right(u.preimage.path, m)
  }

  lemma AtTheRoot(t: Digest, p: Path, v: Bytes)
    ensures PutTo(t, p, 0, v) == Put(t, 0, p, v) && DropTo(t, p, 0) == Drop(t, 0, p)
  {
  }

  // The common prefix with the leaf that the walk ended at is that depth.
  lemma PrefixIsStart(t: Digest, p: Path, n: nat, m: nat)
    requires Canonical(t, 0) && n <= Depth && NodesAbove(t, p, n) && IsLeaf(Descend(t, p, n)) && p !in Bindings(t)
    requires m <= Depth && SameWay(p, Descend(t, p, n).preimage.path, m)
    requires m < Depth ==> Right(p, m) != Right(Descend(t, p, n).preimage.path, m)
    ensures StartsAt(t, p, n, m)
  {
    hide Canonical, Bindings;
    var u := Descend(t, p, n);
    DescendUnder(t, p, n);
    DescendCanonical(t, p, n);
    LightSpine(u, n, p);
    LightIsSmall(u, n);
    assert SameWay(p, u.preimage.path, n);
    if m == Depth { SameWayToTheEnd(p, u.preimage.path); }
    if m < n { SameWayAt(p, u.preimage.path, n, m); }
  }

  lemma PutStart(t: Digest, p: Path, n: nat, m: nat, v: Bytes)
    requires Canonical(t, 0) && StartsAt(t, p, n, m)
    ensures var u := Descend(t, p, n); var leaf := LeafOf(p, v); var x := PutTo(t, p, m, v);
      if u.Zero? || p in Bindings(t) then x == leaf && Spine(x, m, p) == {leaf}
      else m < Depth && x == Join(p, m, u, leaf) && Spine(x, m, p) == {x, leaf}
  {
    hide Right, Canonical, AgreeBelow;
    var u := Descend(t, p, n);
    DescendStays(t, p, n, m);
    DescendCanonical(t, p, n);
    LightSpine(u, n, p);
  }

  lemma PutStep(t: Digest, p: Path, n: nat, m: nat, k: nat, v: Bytes)
    requires Canonical(t, 0) && StartsAt(t, p, n, m) && k < m
    ensures var x := PutTo(t, p, k, v); var c := PutTo(t, p, k + 1, v);
      && x == Join(p, k, if k < n then Sibling(Descend(t, p, k), k, p) else Zero, c)
      && Spine(x, k, p) == {x} + Spine(c, k + 1, p)
  {
    hide Canonical, AgreeBelow;
    if k < n {
      assert IsNode(Descend(t, p, k));
    } else {
      var u := Descend(t, p, n);
      DescendStays(t, p, n, k);
      DescendStays(t, p, n, k + 1);
      DescendCanonical(t, p, n);
      LightSpine(u, n, p);
      SameWayAt(p, u.preimage.path, m, k);
    }
  }

  lemma SameWayAt(p: Path, q: Path, m: nat, k: nat)
    requires k < m <= Depth && SameWay(p, q, m)
    ensures Right(p, k) == Right(q, k)
  {
  }

  lemma DropStart(t: Digest, p: Path, n: nat)
    requires Canonical(t, 0) && n <= Depth && !IsNode(Descend(t, p, n)) && p in Bindings(t)
    ensures DropTo(t, p, n) == Zero && Inner(Zero, n, p) == {}
  {
    DescendCanonical(t, p, n);
    LightSpine(Descend(t, p, n), n, p);
  }

  lemma DropStep(t: Digest, p: Path, k: nat)
    requires Canonical(t, 0) && k < Depth && IsNode(Descend(t, p, k))
    ensures var x := DropTo(t, p, k); var c := DropTo(t, p, k + 1); var s := Sibling(Descend(t, p, k), k, p);
      && x == Collapse(p, k, s, c)
      && Inner(x, k, p) == (if Light(x) then {} else {x} + Inner(c, k + 1, p))
      && (s.Zero? || IsLeaf(s) || IsNode(s))
  {
    hide Right, Bindings;
    DescendCanonical(t, p, k);
    NodeParts(Descend(t, p, k), k, p);
  }

  lemma DescendInSpine(t: Digest, p: Path, k: nat)
    requires k <= Depth && Canonical(t, 0) && NodesAbove(t, p, k)
    ensures k == 0 ==> Descend(t, p, k) == t
    ensures Descend(t, p, k).Zero? || Descend(t, p, k) in Spine(t, 0, p)
    ensures IsNode(Descend(t, p, k)) ==> k < Depth
    ensures Descend(t, p, k).Zero? || IsLeaf(Descend(t, p, k)) || IsNode(Descend(t, p, k))
  {
    SpineFrom(t, p, k);
    DescendCanonical(t, p, k);
  }

  // The first n steps of a walk, collected from the root down.
  ghost predicate WalkSoFar(t: Digest, p: Path, n: nat, sideNodes: seq<Digest>, pathNodes: seq<Digest>) {
    && n <= Depth && |sideNodes| == n && |pathNodes| == n + 1
    && NodesAbove(t, p, n)
    && (forall k: nat | k <= n :: pathNodes[k] == Descend(t, p, k))
    && (forall k: nat | k < n :: sideNodes[k] == Sibling(Descend(t, p, k), k, p))
  }

  lemma WalkStep(t: Digest, p: Path, n: nat, sideNodes: seq<Digest>, pathNodes: seq<Digest>)
    requires WalkSoFar(t, p, n, sideNodes, pathNodes) && n < Depth && IsNode(pathNodes[n])
    ensures WalkSoFar(t, p, n + 1, sideNodes + [Sibling(pathNodes[n], n, p)], pathNodes + [Child(pathNodes[n], n, p)])
  {
    hide Right, Child, Sibling;
  }

  lemma ReversedIsWalk(t: Digest, p: Path, n: nat, sideNodes: seq<Digest>, pathNodes: seq<Digest>)
    requires WalkSoFar(t, p, n, sideNodes, pathNodes) && !IsNode(pathNodes[n])
    ensures IsWalk(t, p, Reversed(sideNodes), Reversed(pathNodes))
    ensures n > 0 ==> Reversed(sideNodes)[0] == sideNodes[n - 1]
    ensures Reversed(pathNodes)[0] == pathNodes[n]
    ensures forall x :: x in Reversed(pathNodes) <==> x in pathNodes
  {
    hide Right, Child, Sibling, Descend;
    forall x | x in pathNodes ensures x in Reversed(pathNodes) {
      var k :| 0 <= k <= n && pathNodes[k] == x;
      assert Reversed(pathNodes)[n - k] == x;
    }
  }
}
