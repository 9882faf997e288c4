// The tree object over real bytes and any hash function (smt.go): the same walks over a store of
// byte strings. As long as the digests that come up stay apart under the hash function, the stores
// hold the image of the one state of the map; and where two do not, they give a collision.
module ByteTrees {
  import opened Utils
  import opened TreeHasher
  import opened Trees
  import opened Writes
  import opened Walks
  import opened States
  import opened Encoding
  import opened Proofs
  import opened Reference
  import opened SparseMerkleTrees

  // ---- Byte stores and digests ----

  // Different digests of u are different byte strings; in particular none is the placeholder's.
  ghost predicate Free(h: HashFunction, u: set<Digest>) {
    forall x, y | x in u && y in u && DigestBytes(h, x) == DigestBytes(h, y) :: x == y
  }

  // The store holds the data of exactly these digests, each under its digest.
  ghost predicate IsImage(h: HashFunction, nodes: map<Bytes, Bytes>, keys: set<Digest>) {
    && (forall x | x in keys :: x.Hash?)
    && (forall x | x in keys :: DigestBytes(h, x) in nodes && nodes[DigestBytes(h, x)] == DataBytes(h, x.preimage))
    && (forall k | k in nodes :: exists x :: x in keys && DigestBytes(h, x) == k)
  }

  // The store mirrors a store of digests, all of them taken from u.
  ghost predicate Mirrors(h: HashFunction, nodes: map<Bytes, Bytes>, keys: set<Digest>, u: set<Digest>) {
    Zero in u && Free(h, u) && keys <= u && IsImage(h, nodes, keys)
  }

  lemma ZeroInBytes(h: HashFunction)
    ensures DigestBytes(h, Zero) == Placeholder()
  {
  }

  lemma MirrorsAt(h: HashFunction, nodes: map<Bytes, Bytes>, keys: set<Digest>, u: set<Digest>, x: Digest)
    requires Mirrors(h, nodes, keys, u) && x in u
    ensures DigestBytes(h, x) == Placeholder() <==> x.Zero?
    ensures DigestBytes(h, x) in nodes <==> x in keys
    ensures x in keys ==> x.Hash? && nodes[DigestBytes(h, x)] == DataBytes(h, x.preimage)
  {
    assert DigestBytes(h, Zero) == Placeholder();
    if DigestBytes(h, x) in nodes {
      var y :| y in keys && DigestBytes(h, y) == DigestBytes(h, x);
    }
  }

  lemma MirrorsSet(h: HashFunction, nodes: map<Bytes, Bytes>, keys: set<Digest>, u: set<Digest>, x: Digest)
    requires Mirrors(h, nodes, keys, u) && x in u && x.Hash?
    ensures Mirrors(h, nodes[DigestBytes(h, x) := DataBytes(h, x.preimage)], keys + {x}, u)
  {
    hide DigestBytes, DataBytes;
    var n := nodes[DigestBytes(h, x) := DataBytes(h, x.preimage)];
    forall k | k in n ensures exists y :: y in keys + {x} && DigestBytes(h, y) == k {
      if k == DigestBytes(h, x) { assert x in keys + {x}; }
    }
  }

  lemma MirrorsDelete(h: HashFunction, nodes: map<Bytes, Bytes>, keys: set<Digest>, u: set<Digest>, x: Digest)
    requires Mirrors(h, nodes, keys, u) && x in keys
    ensures Mirrors(h, nodes - {DigestBytes(h, x)}, keys - {x}, u)
  {
    hide DigestBytes, DataBytes;
    var n := nodes - {DigestBytes(h, x)};
    forall k | k in n ensures exists y :: y in keys - {x} && DigestBytes(h, y) == k {
      var y :| y in keys && DigestBytes(h, y) == k;
      assert y in keys - {x};
    }
  }

  // The digests that a state is made of, with the placeholder.
  ghost function Digests(m: Map): set<Digest> {
    Reach(RootOf(m)) + {Zero}
  }

  // The rebuilt trees are those of the new map.
  lemma RootAfter(m: Map, p: Path, v: Bytes)
    requires Storable(m)
    ensures v != DefaultValue ==> Put(RootOf(m), 0, p, v) == RootOf(Write(m, p, v))
    ensures v == DefaultValue && p in m ==> Drop(RootOf(m), 0, p) == RootOf(Write(m, p, v))
  {
    hide Right, AgreeBelow, Canonical, Bindings, Canon, Put, Drop;
    RootIsCanonical(m);
    if v != DefaultValue {
      UnderRoot(m, p);
      PutCorrect(RootOf(m), 0, p, v);
      RootIsCanon(Put(RootOf(m), 0, p, v));
    } else if p in m {
      DropCorrect(RootOf(m), 0, p);
      RootIsCanon(Drop(RootOf(m), 0, p));
    }
  }

  // How stored data read back.
  lemma DataReadBack(h: HashFunction, x: Digest)
    requires IsLeaf(x) || IsNode(x)
    ensures var data := DataBytes(h, x.preimage);
      && |data| >= 1 + PathSize
      && (IsLeafBytes(data) <==> IsLeaf(x))
      && (IsLeaf(x) ==> ParseLeaf(data) == (x.preimage.path, DigestBytes(h, x.preimage.valueHash)))
      && (IsNode(x) ==> ParseNode(data) == (DigestBytes(h, x.preimage.left), DigestBytes(h, x.preimage.right)))
  {
    if IsLeaf(x) {
      LeafRoundTrip(x.preimage.path, DigestBytes(h, x.preimage.valueHash));
    } else {
      NodeRoundTrip(DigestBytes(h, x.preimage.left), DigestBytes(h, x.preimage.right));
    }
  }

  // The digests on and beside a walk are the tree's, or placeholders.
  lemma WalkInReach(t: Digest, p: Path, sides: seq<Digest>, paths: seq<Digest>)
    requires Canonical(t, 0) && IsWalk(t, p, sides, paths)
    ensures forall x | x in sides || x in paths :: x.Zero? || x in Reach(t)
  {
    hide Right, Canonical, Bindings, Reach, Spine, Sibling, Child;
    var n := |sides|;
    SpineOfWalk(t, p, sides, paths);
    SpineInReach(t, 0, p);
    forall x | x in sides ensures x.Zero? || x in Reach(t) {
      var i: nat :| i < n && sides[i] == x;
      var k := n - 1 - i;
      assert paths[n - k] == Descend(t, p, k) && paths[n - k] in paths && IsNode(Descend(t, p, k));
      DescendCanonical(t, p, k);
      ReachSmaller(t, Descend(t, p, k));
      SiblingInReach(Descend(t, p, k), k, p);
    }
  }

  lemma SiblingInReach(t: Digest, d: nat, p: Path)
    requires Canonical(t, d) && IsNode(t) && d < Depth
    ensures Sibling(t, d, p).Zero? || Sibling(t, d, p) in Reach(t)
  {
    hide Right, Canonical, Bindings, Reach, Sibling, Child;
    NodeParts(t, d, p);
    ReachOfNode(t, d, p);
    SelfReach(Sibling(t, d, p), d + 1);
  }

  // The bytes of both children of a stored node, told apart by the path.
  method StepDown(h: HashFunction, currentData: Bytes, d: nat, path: Path, ghost x: Digest)
    returns (sideNode: Bytes, nodeHash: Bytes)
    requires IsNode(x) && d < Depth && currentData == DataBytes(h, x.preimage)
    ensures sideNode == DigestBytes(h, Sibling(x, d, path)) && nodeHash == DigestBytes(h, Child(x, d, path))
  {
    hide Right, DataBytes, DigestBytes;
    DataReadBack(h, x);
    var (leftNode, rightNode) := ParseNode(currentData);
    if Right(path, d) {
      sideNode, nodeHash := leftNode, rightNode;
    } else {
      sideNode, nodeHash := rightNode, leftNode;
    }
  }

  lemma SidesPush(h: HashFunction, s: seq<Digest>, x: Digest)
    ensures SidesBytes(h, s + [x]) == SidesBytes(h, s) + [DigestBytes(h, x)]
  {
  }

  lemma ReversedInBytes(h: HashFunction, s: seq<Digest>)
    ensures Reversed(SidesBytes(h, s)) == SidesBytes(h, Reversed(s))
  {
    hide DigestBytes;
  }

  // A walk that has ended, turned around.
  lemma WalkDone(h: HashFunction, t: Digest, p: Path, n: nat, sides: seq<Digest>, paths: seq<Digest>, keys: set<Digest>)
    requires Canonical(t, 0) && WalkSoFar(t, p, n, sides, paths) && !IsNode(paths[n])
    requires forall x | x in paths :: x.Zero? || x in keys
    ensures var s, q := Reversed(sides), Reversed(paths);
      && IsWalk(t, p, s, q) && q[0] == paths[n] && Spine(t, 0, p) <= keys
      && (forall x | x in q :: x.Zero? || x in keys)
      && Reversed(SidesBytes(h, sides)) == SidesBytes(h, s) && Reversed(SidesBytes(h, paths)) == SidesBytes(h, q)
  {
    hide Right, AgreeBelow, Canonical, Bindings, Spine, Descend, NodesAbove, IsWalk, DigestBytes, Child, Sibling;
    ReversedIsWalk(t, p, n, sides, paths);
    ReversedInBytes(h, sides);
    ReversedInBytes(h, paths);
    SpineOfWalk(t, p, Reversed(sides), Reversed(paths));
  }

  lemma OneKeyRoot(h: HashFunction, p: Path, v: Bytes)
    ensures MerkleRoot(h, map[p := v], 0) == h([0] + p + h(v))
  {
    var m: Map := map[p := v];
    assert m.Keys == {p} && m != map[] by { assert p in m; }
    forall q | m.Keys == {q} ensures q == p { assert q in m.Keys; }
  }

  // What fillSideNodes returns.
  datatype ByteWalk = ByteWalk(sideNodes: seq<Bytes>, pathNodes: seq<Bytes>, leafData: Option<Bytes>)

  // The walk as bytes.
  ghost predicate IsWalkBytes(h: HashFunction, w: ByteWalk, sides: seq<Digest>, paths: seq<Digest>) {
    && w.sideNodes == SidesBytes(h, sides) && w.pathNodes == SidesBytes(h, paths) && paths != []
    && w.leafData == if paths[0].Hash? then Some(DataBytes(h, paths[0].preimage)) else None
  }

  lemma StoreKeys(keys: set<Digest>)
    requires forall x | x in keys :: x.Hash?
    ensures Store(keys).Keys == keys
  {
  }

  class ByteTree {
    const h: HashFunction
    var nodes: map<Bytes, Bytes>
    var values: Map
    var root: Bytes

    // The digests whose data are stored, and the one whose bytes are the root.
    ghost var keys: set<Digest>
    ghost var tree: Digest

    // The state of digests that the stores stand for.
    ghost function Symbolic(): State
      reads this
    {
      State(Store(keys), values, tree)
    }

    ghost predicate Mirrored(u: set<Digest>)
      reads this`nodes, this`keys
    {
      Mirrors(h, nodes, keys, u)
    }

    // The stores are the image of a partial state; u has all digests of its tree.
    ghost predicate Simulates(u: set<Digest>)
      reads this
    {
      Mirrored(u) && root == DigestBytes(h, tree) && Partial(Symbolic()) && Reach(tree) <= u
    }

    // The stores are the image of the state of the map of values.
    ghost predicate Valid()
      reads this
    {
      && Storable(values) && tree == RootOf(values) && root == DigestBytes(h, tree)
      && keys == Reach(tree) && IsImage(h, nodes, keys)
    }

    lemma ValidSimulates(u: set<Digest>)
      requires Valid() && Free(h, u) && Digests(values) <= u
      ensures Simulates(u) && Symbolic() == StateOf(values) && Exact(Symbolic())
    {
      hide Right, AgreeBelow, Canonical, Bindings, Canon, Reach, IsImage, Free;
      ExactStateOf(values);
      assert Symbolic() == StateOf(values);
    }

    lemma SimulatesValid(u: set<Digest>)
      requires Simulates(u) && Exact(Symbolic())
      ensures Valid()
    {
      hide Right, AgreeBelow, Canonical, Bindings, Canon, Reach, Free, DigestBytes;
      ExactIsItsMap(Symbolic());
      StoreKeys(keys);
    }

    // NewSparseMerkleTree
    constructor (h: HashFunction)
      ensures Valid() && values == map[] && this.h == h && root == seq(PathSize, i => 0)
    {
      this.h := h;
      nodes, values, root, keys, tree := map[], map[], Placeholder(), {}, Zero;
    }

    // NewDeepSparseMerkleSubTree, under the root that some tree has.
    constructor Deep(h: HashFunction, root: Bytes, ghost t: Digest)
      requires root == DigestBytes(h, t)
      ensures this.h == h && this.root == root && this.tree == t
      ensures nodes == map[] && values == map[] && keys == {}
    {
      this.h, this.root, this.tree := h, root, t;
      nodes, values, keys := map[], map[], {};
    }

    // nodes.Get, of a stored digest
    method GetNode(hash: Bytes, ghost x: Digest, ghost u: set<Digest>) returns (data: Bytes)
      requires Mirrored(u) && x in keys && hash == DigestBytes(h, x)
      ensures x.Hash? && data == DataBytes(h, x.preimage)
    {
      MirrorsAt(h, nodes, keys, u, x);
      data := nodes[hash];
    }

    // nodes.Set
    method SetNode(hash: Bytes, data: Bytes, ghost x: Digest, ghost u: set<Digest>)
      requires Mirrored(u) && x in u && x.Hash? && hash == DigestBytes(h, x) && data == DataBytes(h, x.preimage)
      modifies this`nodes, this`keys
      ensures Mirrored(u) && keys == old(keys) + {x}
    {
      MirrorsSet(h, nodes, keys, u, x);
      nodes := nodes[hash := data];
      keys := keys + {x};
    }

    // nodes.Delete, of a stored digest
    method DeleteNode(hash: Bytes, ghost x: Digest, ghost u: set<Digest>)
      requires Mirrored(u) && x in keys && hash == DigestBytes(h, x)
      modifies this`nodes, this`keys
      ensures Mirrored(u) && keys == old(keys) - {x}
    {
      MirrorsAt(h, nodes, keys, u, x);
      MirrorsDelete(h, nodes, keys, u, x);
      assert hash in nodes;
      nodes := nodes - {hash};
      keys := keys - {x};
    }

    method DeleteNodes(hashes: seq<Bytes>, ghost xs: seq<Digest>, ghost u: set<Digest>)
      requires Mirrored(u) && hashes == SidesBytes(h, xs)
      requires forall i, j | 0 <= i < j < |xs| :: xs[i] != xs[j]
      requires forall x | x in xs :: x in keys
      modifies this`nodes, this`keys
      ensures Mirrored(u) && keys == old(keys) - (set x | x in xs)
    {
      hide Mirrors, DigestBytes;
      var i := 0;
      while i < |hashes|
        invariant i <= |hashes| && Mirrored(u)
        invariant keys == old(keys) - (set x | x in xs[..i])
      {
        assert xs[i] !in xs[..i];
        DeleteNode(hashes[i], xs[i], u);
        assert xs[..i + 1] == xs[..i] + [xs[i]];
        i := i + 1;
      }
      assert xs[..i] == xs;
    }

    // fillSideNodes
    method FillSideNodes(path: Path, ghost u: set<Digest>)
      returns (res: Result<ByteWalk>, ghost sides: seq<Digest>, ghost paths: seq<Digest>)
      requires Mirrored(u) && Canonical(tree, 0) && root == DigestBytes(h, tree) && Reach(tree) <= u
      ensures res.Ok? <==> Spine(tree, 0, path) <= keys
      ensures res.Err? ==> res.error == InvalidKey
      ensures res.Ok? ==> IsWalk(tree, path, sides, paths) && forall x | x in paths :: x.Zero? || x in keys
      ensures res.Ok? ==> IsWalkBytes(h, res.value, sides, paths)
    {
      hide Right, AgreeBelow, Canonical, Bindings, Reach, Spine, LastSibling, Descend, NodesAbove, WalkSoFar, IsWalk;
      hide Mirrors, DigestBytes, DataBytes, Placeholder, Child, Sibling;
      ghost var t := tree;
      var pathNodes, sideNodes := [root], [];
      paths, sides := [t], [];
      assert pathNodes == SidesBytes(h, paths) && sideNodes == SidesBytes(h, sides);
      hide SidesBytes, Reversed;
      NoStepsYet(t, path);
      MetOnWalk(t, path, 0, sides, paths);
      MirrorsMet(h, nodes, keys, u, t);
      if root == Placeholder() {
        SpineOfWalk(t, path, sides, paths);
        return Ok(ByteWalk(sideNodes, pathNodes, None)), sides, paths;
      }
      if root !in nodes {
        return Err(InvalidKey), sides, paths;
      }
      var currentData := GetNode(root, t, u);
      DataReadBack(h, t);
      if IsLeafBytes(currentData) {
        SpineOfWalk(t, path, sides, paths);
        return Ok(ByteWalk(sideNodes, pathNodes, Some(currentData))), sides, paths;
      }
      ghost var x := t;
      var leafData := None;
      var i := 0;
      while i < Depth
        invariant i <= Depth && WalkSoFar(t, path, i, sides, paths)
        invariant |paths| == i + 1 && |sides| == i && paths[i] == x && IsNode(x)
        invariant sideNodes == SidesBytes(h, sides) && pathNodes == SidesBytes(h, paths)
        invariant currentData == DataBytes(h, x.preimage) && leafData.None?
        invariant forall y | y in paths :: y in keys
      {
        WalkStep(t, path, i, sides, paths);
        var sideNode, nodeHash := StepDown(h, currentData, i, path, x);
        SidesPush(h, sides, Sibling(x, i, path));
        sideNodes, sides := sideNodes + [sideNode], sides + [Sibling(x, i, path)];
        x := Child(x, i, path);
        SidesPush(h, paths, x);
        pathNodes, paths := pathNodes + [nodeHash], paths + [x];
        i := i + 1;
        MetOnWalk(t, path, i, sides, paths);
        MirrorsMet(h, nodes, keys, u, x);
        if nodeHash == Placeholder() {
          break;
        }
        if nodeHash !in nodes {
          return Err(InvalidKey), sides, paths;
        }
        currentData := GetNode(nodeHash, x, u);
        DataReadBack(h, x);
        if IsLeafBytes(currentData) {
          leafData := Some(currentData);
          break;
        }
      }
      MetOnWalk(t, path, i, sides, paths);
      WalkDone(h, t, path, i, sides, paths, keys);
      return Ok(ByteWalk(Reversed(sideNodes), Reversed(pathNodes), leafData)), Reversed(sides), Reversed(paths);
    }

    // Update. Whatever a tree over digests does, this does over bytes: it goes through exactly when
    // the state that the stores stand for is ready, and leaves the state that the write or the
    // failure leaves. So on a complete tree it never fails.
    method Update(path: Path, value: Bytes, ghost u: set<Digest>) returns (res: Result<Bytes>)
      requires Simulates(u) && Reach(RootOf(Write(Bindings(tree), path, value))) <= u
      modifies this
      ensures Mirrored(u)
      ensures res.Ok? <==> old(Ready(Symbolic(), path, value))
      ensures res.Ok? ==> Simulates(u) && Symbolic() == old(AfterWrite(Symbolic(), path, value)) && res == Ok(root)
      ensures res.Err? ==> res.error == InvalidKey && root == old(root)
      ensures res.Err? ==> Symbolic() == old(AfterFailure(Symbolic(), path, value))
      ensures old(Valid()) ==> res.Ok? && Valid() && values == Write(old(values), path, value)
      ensures old(Valid()) ==>
        values == (if value == [] then old(values) - {path} else old(values)[path := value])
        && root == MerkleRoot(h, values, 0)
      ensures old(Valid()) && old(values) == map[] && value != [] ==> root == h([0] + path + h(value))
    {
      hide Right, AgreeBelow, Canonical, Bindings, Canon, Reach, IsWalk, IsWalkBytes, Mirrors, DigestBytes, DataBytes;
      hide Spine, LastSibling, Put, Drop, Replaced, Inner, IsImage, Store, Valid, Ready, AfterWrite, AfterFailure;
      hide Partial, MerkleRoot;
      ghost var s := Symbolic();
      KeysHashed(h, nodes, keys, u);
      StoreKeys(keys);
      PartialRoot(s);
      RootAfter(Bindings(tree), path, value);
      CompleteWrites(path, value, u);
      ghost var sides, paths;
      var w;
      w, sides, paths := FillSideNodes(path, u);
      if w.Err? {
        NotReady(s, path, value);
        return Err(w.error);
      }
      ReadyFromWalk(s, path, value, sides, paths);
      if value == DefaultValue {
        var deleted := DeleteWithSideNodes(path, w.value, sides, paths, u);
        if deleted == Err(KeyAlreadyEmpty) {
          AfterNothing(s, path, value);
          res := Ok(root);
        } else {
          AfterDrop(s, path);
          if path !in values {
            assert values - {path} == values;
            return Err(InvalidKey);
          }
          values := values - {path};
          if deleted.Err? {
            return Err(deleted.error);
          }
          root, tree := deleted.value, Drop(tree, 0, path);
          res := Ok(root);
        }
      } else {
        var updated := UpdateWithSideNodes(path, value, w.value, sides, paths, u);
        if updated.Err? {
          return Err(updated.error);
        }
        if Binds(tree, path, value) {
          AfterNothing(s, path, value);
        } else {
          AfterPut(s, path, value);
          tree := Put(tree, 0, path, value);
        }
        root := updated.value;
        res := Ok(root);
      }
      AfterWriteIsPartial(s, path, value);
      if old(Valid()) {
        SimulatesValid(u);
        EmptyMeansAbsent(s.values, path, value);
        RootIsMerkleRoot(h, values);
        if s.values == map[] && value != [] { OneKeyRoot(h, path, value); }
      }
    }

    // A complete tree is ready for every write.
    lemma CompleteWrites(path: Path, value: Bytes, u: set<Digest>)
      requires Simulates(u)
      ensures Valid() ==> Bindings(tree) == values && Ready(Symbolic(), path, value)
      ensures Valid() ==> Exact(AfterWrite(Symbolic(), path, value))
      ensures Valid() ==> AfterWrite(Symbolic(), path, value).values == Write(values, path, value)
    {
      hide Right, AgreeBelow, Canonical, Bindings, Canon, Reach, Mirrors, IsImage, Ready, AfterWrite, Exact, Partial;
      hide Store;
      if Valid() {
        assert Symbolic() == StateOf(values);
        RootIsCanonical(values);
        ExactStateOf(values);
        WritesWhenExact(Symbolic(), path, value);
        StateOfFields(Write(values, path, value));
      }
    }

    method Delete(path: Path, ghost u: set<Digest>) returns (res: Result<Bytes>)
      requires Simulates(u) && Reach(RootOf(Write(Bindings(tree), path, DefaultValue))) <= u
      modifies this
      ensures Mirrored(u)
      ensures res.Ok? <==> old(Ready(Symbolic(), path, DefaultValue))
      ensures res.Ok? ==> Simulates(u) && res == Ok(root)
      ensures res.Ok? ==> Symbolic() == old(AfterWrite(Symbolic(), path, DefaultValue))
      ensures res.Err? ==> res.error == InvalidKey && root == old(root)
      ensures res.Err? ==> Symbolic() == old(AfterFailure(Symbolic(), path, DefaultValue))
      ensures old(Valid()) ==> res.Ok? && Valid() && values == Write(old(values), path, DefaultValue)
      ensures old(Valid()) ==> values == old(values) - {path} && root == MerkleRoot(h, values, 0)
    {
      res := Update(path, DefaultValue, u);
    }

    // deleteWithSideNodes
    method DeleteWithSideNodes(path: Path, w: ByteWalk, ghost sides: seq<Digest>, ghost paths: seq<Digest>,
                               ghost u: set<Digest>) returns (res: Result<Bytes>)
      requires Mirrored(u) && Canonical(tree, 0) && IsWalk(tree, path, sides, paths) && IsWalkBytes(h, w, sides, paths)
      requires forall x | x in paths :: x.Zero? || x in keys
      requires Reach(tree) <= u && (path in Bindings(tree) ==> Reach(Drop(tree, 0, path)) <= u)
      modifies this`nodes, this`keys
      ensures Mirrored(u) && (res == Err(KeyAlreadyEmpty) <==> path !in Bindings(tree))
      ensures path !in Bindings(tree) ==> nodes == old(nodes) && keys == old(keys)
      ensures path in Bindings(tree) ==> (res.Ok? <==> sides == [] || sides[0] in old(keys))
      ensures path in Bindings(tree) && res.Err? ==> res.error == InvalidKey && keys == old(keys) - Spine(tree, 0, path)
      ensures res.Ok? ==> res.value == DigestBytes(h, Drop(tree, 0, path))
      ensures res.Ok? ==> keys == (old(keys) - Spine(tree, 0, path)) + Inner(Drop(tree, 0, path), 0, path)
    {
      hide Right, AgreeBelow, Canonical, Bindings, Reach, Spine, LastSibling, Descend, NodesAbove, IsWalk;
      hide Mirrors, DigestBytes, DataBytes, Placeholder, Child, Sibling, Drop, Inner;
      ghost var t := tree;
      DeleteStart(t, path, sides, paths);
      WalkEnds(t, path, sides, paths);
      MirrorsMet(h, nodes, keys, u, paths[0]);
      if w.pathNodes[0] == Placeholder() {
        return Err(KeyAlreadyEmpty);
      }
      DataReadBack(h, paths[0]);
      var (actualPath, _) := ParseLeaf(w.leafData.value);
      if path != actualPath {
        return Err(KeyAlreadyEmpty);
      }
      SpineOfWalk(t, path, sides, paths);
      DeleteNodes(w.pathNodes, paths, u);
      FirstSiblingKept(t, path, sides, paths);
      res := RebuildWithoutLeaf(path, w.sideNodes, sides, paths, u);
    }

    // The loop of deleteWithSideNodes.
    method RebuildWithoutLeaf(path: Path, sideNodes: seq<Bytes>, ghost sides: seq<Digest>, ghost paths: seq<Digest>,
                              ghost u: set<Digest>) returns (res: Result<Bytes>)
      requires Mirrored(u) && Canonical(tree, 0) && IsWalk(tree, path, sides, paths) && path in Bindings(tree)
      requires sideNodes == SidesBytes(h, sides)
      requires Reach(tree) <= u && Reach(Drop(tree, 0, path)) <= u
      modifies this`nodes, this`keys
      ensures Mirrored(u) && (res.Ok? <==> sides == [] || sides[0] in old(keys))
      ensures res.Err? ==> res.error == InvalidKey && keys == old(keys)
      ensures res.Ok? ==> res.value == DigestBytes(h, Drop(tree, 0, path))
      ensures res.Ok? ==> keys == old(keys) + Inner(Drop(tree, 0, path), 0, path)
    {
      hide Right, AgreeBelow, Canonical, Bindings, Reach, Spine, LastSibling, Descend, NodesAbove, IsWalk;
      hide Mirrors, DigestBytes, DataBytes, Placeholder, Child, Sibling, Drop, DropTo, Inner;
      ghost var t := tree;
      var n := |sideNodes|;
      DeleteStart(t, path, sides, paths);
      AtTheRoot(t, path, DefaultValue);
      ZeroInBytes(h);
      var currentHash, currentData: Option<Bytes> := None, None;
      var nonPlaceholderReached := false;
      var i := 0;
      while i < n
        invariant i <= n && Mirrored(u)
        invariant currentHash == currentData && (currentData.None? <==> i == 0)
        invariant currentData.Some? ==> currentData.value == DigestBytes(h, DropTo(t, path, n - i))
        invariant i == 0 ==> DropTo(t, path, n) == Zero && !nonPlaceholderReached
        invariant i > 0 ==> (if nonPlaceholderReached then IsNode else IsLeaf)(DropTo(t, path, n - i))
        invariant keys == old(keys) + Inner(DropTo(t, path, n - i), n - i, path)
        invariant !nonPlaceholderReached ==> keys == old(keys)
        invariant i > 0 ==> sides[0] in old(keys)
      {
        var sideNode := sideNodes[i];
        ghost var s, c := sides[i], DropTo(t, path, n - i);
        DeleteLevel(t, path, sides, paths, i);
        InnerUp(t, path, sides, paths, n - i - 1);
        SideInReach(t, path, sides, paths, i);
        MirrorsMet(h, nodes, keys, u, s);
        i := i + 1;
        if currentData.None? {
          if sideNode !in nodes {
            return Err(InvalidKey);
          }
          var sideNodeValue := GetNode(sideNode, s, u);
          DataReadBack(h, s);
          if IsLeafBytes(sideNodeValue) {
            currentHash, currentData := Some(sideNode), Some(sideNode);
            continue;
          } else {
            currentData := Some(Placeholder());
            nonPlaceholderReached := true;
          }
        }
        if !nonPlaceholderReached && sideNode == Placeholder() {
          continue;
        } else if !nonPlaceholderReached {
          nonPlaceholderReached := true;
        }
        var hash := SetParent(path, n - i, sideNode, currentData.value, s, c, u);
        currentHash, currentData := Some(hash), Some(hash);
      }
      if currentHash.None? {
        currentHash := Some(Placeholder());
      }
      return Ok(currentHash.value);
    }

    // updateWithSideNodes
    method UpdateWithSideNodes(path: Path, value: Bytes, w: ByteWalk, ghost sides: seq<Digest>,
                               ghost paths: seq<Digest>, ghost u: set<Digest>) returns (res: Result<Bytes>)
      requires Mirrored(u) && Canonical(tree, 0) && IsWalk(tree, path, sides, paths) && IsWalkBytes(h, w, sides, paths)
      requires forall x | x in paths :: x.Zero? || x in keys
      requires root == DigestBytes(h, tree) && value != DefaultValue
      requires Reach(tree) <= u && Reach(Put(tree, 0, path, value)) <= u
      modifies this`nodes, this`keys, this`values
      ensures Mirrored(u)
      ensures res.Ok? <==> (path in Bindings(tree) && !Binds(tree, path, value) ==> path in old(values))
      ensures res.Err? ==> res.error == InvalidKey && values == old(values)
      ensures res.Err? ==> keys == old(keys) + {LeafOf(path, value)} - {paths[0]}
      ensures res.Ok? && Binds(tree, path, value) ==>
        res.value == root && keys == old(keys) && values == old(values)
      ensures res.Ok? && !Binds(tree, path, value) ==>
        && res.value == DigestBytes(h, Put(tree, 0, path, value)) && values == old(values)[path := value]
        && keys == (old(keys) - Replaced(tree, 0, path)) + Spine(Put(tree, 0, path, value), 0, path)
    {
      hide Right, AgreeBelow, Canonical, Bindings, Reach, Spine, LastSibling, Descend, NodesAbove, IsWalk;
      hide Mirrors, DigestBytes, DataBytes, Placeholder, Child, Sibling, Put, PutTo, StartsAt, Replaced;
      ghost var leaf, t := LeafOf(path, value), tree;
      UpdateStart(t, path, value, sides, paths);
      WalkEnds(t, path, sides, paths);
      MirrorsMet(h, nodes, keys, u, paths[0]);
      PutHasLeaf(t, 0, path, value);
      var valueHash := h(value);
      var currentData := LeafBytes(path, valueHash);
      var currentHash := h(currentData);
      LeafInBytes(h, path, value);
      SetNode(currentHash, currentData, leaf, u);

      var commonPrefixCount: nat;
      var oldValueHash: Option<Bytes> := None;
      if w.pathNodes[0] == Placeholder() {
        commonPrefixCount := Depth;
      } else {
        DataReadBack(h, paths[0]);
        var (actualPath, oldHash) := ParseLeaf(w.leafData.value);
        oldValueHash := Some(oldHash);
        commonPrefixCount := CommonPrefix(path, actualPath);
      }
      ghost var m := StartDepth(sides, commonPrefixCount);
      if commonPrefixCount != Depth {
        UpdateStartsAt(t, path, sides, paths, commonPrefixCount);
        UpdateSets(t, path, value, sides, paths, m);
        SpineUp(t, path, value, sides, paths, m, m);
        currentHash := SetParent(path, commonPrefixCount, w.pathNodes[0], currentHash, paths[0], leaf, u);
      } else if oldValueHash.Some? {
        LeafInBytes(h, path, Bindings(t)[path]);
        SameValueHash(h, nodes, keys, u, path, Bindings(t)[path], value);
        if oldValueHash.value == valueHash {
          return Ok(root);
        }
        DeleteNode(w.pathNodes[0], paths[0], u);
        if path !in values {
          return Err(InvalidKey);
        }
        values := values - {path};
      }
      UpdateSets(t, path, value, sides, paths, m);
      var newRoot := ReplaceWalk(currentHash, path, value, w, commonPrefixCount, sides, paths, u, old(keys));
      values := values[path := value];
      return Ok(newRoot);
    }

    // From the deletion of the remaining path nodes on.
    method ReplaceWalk(start: Bytes, path: Path, ghost value: Bytes, w: ByteWalk, commonPrefixCount: nat,
                       ghost sides: seq<Digest>, ghost paths: seq<Digest>, ghost u: set<Digest>,
                       ghost before: set<Digest>) returns (newRoot: Bytes)
      requires Mirrored(u) && Canonical(tree, 0) && IsWalk(tree, path, sides, paths) && commonPrefixCount <= Depth
      requires IsWalkBytes(h, w, sides, paths) && forall x | x in paths :: x.Zero? || x in before
      requires StartsAt(tree, path, |sides|, StartDepth(sides, commonPrefixCount))
      requires Reach(Put(tree, 0, path, value)) <= u
      requires var m := StartDepth(sides, commonPrefixCount); var x := PutTo(tree, path, m, value);
        && start == DigestBytes(h, x)
        && (forall y | y in Spine(x, m, path) :: y !in paths)
        && keys == before + Spine(x, m, path) - if path in Bindings(tree) then {paths[0]} else {}
      modifies this`nodes, this`keys
      ensures Mirrored(u) && newRoot == DigestBytes(h, Put(tree, 0, path, value))
      ensures keys == (before - Replaced(tree, 0, path)) + Spine(Put(tree, 0, path, value), 0, path)
    {
      hide Right, AgreeBelow, Canonical, Bindings, Reach, Spine, LastSibling, Descend, NodesAbove, IsWalk;
      hide Mirrors, DigestBytes, DataBytes, Placeholder, Child, Sibling, Put, PutTo, StartsAt, Replaced;
      ghost var t := tree;
      ghost var m := StartDepth(sides, commonPrefixCount);
      StartIsInTree(t, path, sides, paths, m);
      SpineOfWalk(t, path, sides, paths);
      forall y | y in paths[1..] ensures y in keys {
        assert y in paths && y != paths[0] && y != Zero;
      }
      assert SidesBytes(h, paths)[1..] == SidesBytes(h, paths[1..]);
      DeleteNodes(w.pathNodes[1..], paths[1..], u);
      UpdateBase(t, path, sides, paths, before, Spine(PutTo(t, path, m, value), m, path));
      newRoot := RebuildAbove(start, path, value, w.sideNodes, commonPrefixCount, t, sides, paths, u,
                              before - Replaced(t, 0, path));
    }

    // The loop of updateWithSideNodes.
    method RebuildAbove(start: Bytes, path: Path, ghost value: Bytes, sideNodes: seq<Bytes>, commonPrefixCount: nat,
                        ghost t: Digest, ghost sides: seq<Digest>, ghost paths: seq<Digest>, ghost u: set<Digest>,
                        ghost kept: set<Digest>) returns (currentHash: Bytes)
      requires Mirrored(u) && Canonical(t, 0) && IsWalk(t, path, sides, paths) && commonPrefixCount <= Depth
      requires sideNodes == SidesBytes(h, sides) && Reach(Put(t, 0, path, value)) <= u
      requires StartsAt(t, path, |sides|, StartDepth(sides, commonPrefixCount))
      requires var m := StartDepth(sides, commonPrefixCount); var x := PutTo(t, path, m, value);
        start == DigestBytes(h, x) && keys == kept + Spine(x, m, path)
      modifies this`nodes, this`keys
      ensures Mirrored(u) && currentHash == DigestBytes(h, Put(t, 0, path, value))
      ensures keys == kept + Spine(Put(t, 0, path, value), 0, path)
    {
      hide Right, AgreeBelow, Canonical, Bindings, Reach, Spine, LastSibling, Descend, NodesAbove, IsWalk;
      hide Mirrors, DigestBytes, DataBytes, Placeholder, Child, Sibling, Put, PutTo, StartsAt;
      ghost var m := StartDepth(sides, commonPrefixCount);
      StartIsInTree(t, path, sides, paths, m);
      AtTheRoot(t, path, value);
      ZeroInBytes(h);
      currentHash := start;
      var offsetOfSideNodes := Depth - |sideNodes|;
      var i := 0;
      while i < Depth
        invariant i <= Depth && Mirrored(u)
        invariant currentHash == DigestBytes(h, PutTo(t, path, Min(Depth - i, m), value))
        invariant keys == kept + Spine(PutTo(t, path, Min(Depth - i, m), value), Min(Depth - i, m), path)
      {
        var sideNode;
        ghost var s := Zero;
        i := i + 1;
        ghost var k := Depth - i;
        if k < m {
          UpdateLevel(t, path, value, sides, paths, m, k);
          SpineUp(t, path, value, sides, paths, m, k);
        }
        if i - 1 - offsetOfSideNodes < 0 {
          if commonPrefixCount != Depth && commonPrefixCount > Depth - i {
            sideNode := Placeholder();
          } else {
            continue;
          }
        } else {
          sideNode, s := sideNodes[i - 1 - offsetOfSideNodes], sides[i - 1 - offsetOfSideNodes];
        }
        currentHash := SetParent(path, Depth - i, sideNode, currentHash, s, PutTo(t, path, k + 1, value), u);
      }
    }

    // Hashes and stores the parent at depth d of a digest and its sibling.
    method SetParent(path: Path, d: nat, sideNode: Bytes, current: Bytes, ghost s: Digest, ghost c: Digest,
                     ghost u: set<Digest>) returns (hash: Bytes)
      requires Mirrored(u) && d < Depth && sideNode == DigestBytes(h, s) && current == DigestBytes(h, c)
      requires (if Right(path, d) then NodeOf(s, c) else NodeOf(c, s)) in u
      modifies this`nodes, this`keys
      ensures var x := if Right(path, d) then NodeOf(s, c) else NodeOf(c, s);
        hash == DigestBytes(h, x) && keys == old(keys) + {x}
      ensures Mirrored(u)
    {
      hide Right, Mirrors, DigestBytes, DataBytes;
      var data;
      if Right(path, d) {
        data := NodeBytes(sideNode, current);
        NodeOfInBytes(h, s, c);
      } else {
        data := NodeBytes(current, sideNode);
        NodeOfInBytes(h, c, s);
      }
      hash := h(data);
      SetNode(hash, data, if Right(path, d) then NodeOf(s, c) else NodeOf(c, s), u);
    }
  }

  lemma LeafInBytes(h: HashFunction, p: Path, v: Bytes)
    ensures DigestBytes(h, LeafOf(p, v)) == h(LeafBytes(p, h(v)))
    ensures DataBytes(h, LeafOf(p, v).preimage) == LeafBytes(p, h(v))
    ensures DigestBytes(h, LeafOf(p, v).preimage.valueHash) == h(v)
  {
    assert DataBytes(h, Raw(v)) == v;
    assert DigestBytes(h, Hash(Raw(v))) == h(v);
  }

  // Two leaves of one path tell their values apart by the value hashes.
  lemma SameValueHash(h: HashFunction, nodes: map<Bytes, Bytes>, keys: set<Digest>, u: set<Digest>,
                      p: Path, v: Bytes, w: Bytes)
    requires Mirrors(h, nodes, keys, u) && LeafOf(p, v) in keys && LeafOf(p, w) in u
    ensures h(v) == h(w) <==> v == w
  {
    LeafInBytes(h, p, v);
    LeafInBytes(h, p, w);
  }

  lemma {:induction false} PutHasLeaf(t: Digest, d: nat, p: Path, v: Bytes)
    ensures LeafOf(p, v) in Reach(Put(t, d, p, v))
    decreases Depth - d
  {
    hide Right;
    if !(d >= Depth || t.Zero? || (IsLeaf(t) && t.preimage.path == p)) {
      if IsLeaf(t) && Right(t.preimage.path, d) != Right(p, d) {
        JoinParts(p, d, t, LeafOf(p, v));
      } else {
        PutHasLeaf(Child(t, d, p), d + 1, p, v);
        JoinParts(p, d, Sibling(t, d, p), Put(Child(t, d, p), d + 1, p, v));
      }
    }
  }

  // What an update has set below some depth is in the tree it ends with.
  lemma {:induction false} SpineUp(t: Digest, p: Path, v: Bytes, sides: seq<Digest>, paths: seq<Digest>, m: nat, k: nat)
    requires Canonical(t, 0) && IsWalk(t, p, sides, paths) && StartsAt(t, p, |sides|, m) && k <= m
    ensures k <= Depth && Spine(PutTo(t, p, k, v), k, p) <= Reach(Put(t, 0, p, v))
  {
    hide Right, AgreeBelow, Canonical, Bindings, Reach, Put, PutTo, IsWalk, Spine, Descend, NodesAbove;
    AtTheRoot(t, p, v);
    if k == 0 {
      SpineInReach(Put(t, 0, p, v), 0, p);
    } else {
      SpineUp(t, p, v, sides, paths, m, k - 1);
      UpdateLevel(t, p, v, sides, paths, m, k - 1);
    }
  }

  // What a delete has rebuilt below some depth is in the tree it ends with.
  lemma {:induction false} InnerUp(t: Digest, p: Path, sides: seq<Digest>, paths: seq<Digest>, k: nat)
    requires Canonical(t, 0) && IsWalk(t, p, sides, paths) && p in Bindings(t) && k <= |sides|
    ensures k <= Depth && Inner(DropTo(t, p, k), k, p) <= Reach(Drop(t, 0, p))
  {
    hide Right, AgreeBelow, Canonical, Bindings, Reach, Drop, DropTo, IsWalk;
    DeleteStart(t, p, sides, paths);
    AtTheRoot(t, p, DefaultValue);
    if k == 0 {
      InnerInReach(Drop(t, 0, p), 0, p);
    } else {
      InnerUp(t, p, sides, paths, k - 1);
      DeleteLevel(t, p, sides, paths, |sides| - k);
      if !IsNode(DropTo(t, p, k)) { assert Inner(DropTo(t, p, k), k, p) == {}; }
    }
  }

  lemma SideInReach(t: Digest, p: Path, sides: seq<Digest>, paths: seq<Digest>, i: nat)
    requires Canonical(t, 0) && IsWalk(t, p, sides, paths) && p in Bindings(t) && i < |sides|
    ensures sides[i].Zero? || sides[i] in Reach(t)
    ensures i == 0 ==> sides[i].Hash?
  {
    hide Right, AgreeBelow, Canonical, Bindings, Reach, Spine, Child, Sibling;
    WalkInReach(t, p, sides, paths);
    var n := |sides|;
    var k := n - 1 - i;
    assert sides[i] in sides && sides[i] == Sibling(Descend(t, p, k), k, p);
    if i == 0 {
      DescendCanonical(t, p, k);
      NodeParts(Descend(t, p, k), k, p);
      WalkEnds(t, p, sides, paths);
      assert Child(Descend(t, p, k), k, p) == Descend(t, p, n);
    }
  }

  lemma KeysHashed(h: HashFunction, nodes: map<Bytes, Bytes>, keys: set<Digest>, u: set<Digest>)
    requires Mirrors(h, nodes, keys, u)
    ensures forall x | x in keys :: x.Hash?
    ensures keys <= u
  {
  }

  lemma PartialRoot(s: State)
    requires Partial(s)
    ensures Canonical(s.root, 0) && Storable(Bindings(s.root)) && s.root == RootOf(Bindings(s.root))
  {
    hide Right, AgreeBelow, Canonical, Bindings, Canon, Reach;
    RootIsCanon(s.root);
  }

  // Without the whole walk no write is ready, and nothing is done.
  lemma NotReady(s: State, p: Path, v: Bytes)
    requires !(Spine(s.root, 0, p) <= s.nodes.Keys)
    ensures !Ready(s, p, v) && AfterFailure(s, p, v) == s
  {
  }

  // With it, readiness is told from the walk's end.
  lemma ReadyFromWalk(s: State, p: Path, v: Bytes, sides: seq<Digest>, paths: seq<Digest>)
    requires Partial(s) && IsWalk(s.root, p, sides, paths) && Spine(s.root, 0, p) <= s.nodes.Keys
    ensures p in Bindings(s.root) ==> paths != [] && paths[0] == LeafOf(p, Bindings(s.root)[p])
    ensures Ready(s, p, v) <==>
      && (p in Bindings(s.root) && !Binds(s.root, p, v) ==> p in s.values)
      && (p in Bindings(s.root) && v == DefaultValue ==> sides == [] || sides[0] in s.nodes)
    ensures AfterFailure(s, p, v) == if v != DefaultValue then
        State(Store(s.nodes.Keys + {LeafOf(p, v)} - {LeafOf(p, Lookup(Bindings(s.root), p))}), s.values, s.root)
      else
        State(
          if sides == [] || sides[0] in s.nodes then AfterWrite(s, p, v).nodes
          else Store(s.nodes.Keys - Spine(s.root, 0, p)),
          s.values - {p},
          s.root)
    ensures !Binds(s.root, p, DefaultValue)
  {
    hide Right, AgreeBelow, Canonical, Bindings, Spine, LastSibling, IsWalk, AfterWrite, Store, Partial;
    ReadyByWalk(s, p, sides, paths);
  }

  lemma MirrorsMet(h: HashFunction, nodes: map<Bytes, Bytes>, keys: set<Digest>, u: set<Digest>, x: Digest)
    requires Mirrors(h, nodes, keys, u) && (x.Zero? || x in keys || x in u)
    ensures DigestBytes(h, x) == Placeholder() <==> x.Zero?
    ensures DigestBytes(h, x) in nodes <==> x in keys
    ensures x in keys ==> x in u
  {
    MirrorsAt(h, nodes, keys, u, x);
  }

  lemma MetOnWalk(t: Digest, p: Path, n: nat, sides: seq<Digest>, paths: seq<Digest>)
    requires Canonical(t, 0) && WalkSoFar(t, p, n, sides, paths)
    ensures var x := paths[n];
      && (x.Zero? || (x in Reach(t) && x in Spine(t, 0, p) && (IsLeaf(x) || IsNode(x))))
      && (IsNode(x) ==> n < Depth)
  {
    hide Right, AgreeBelow, Canonical, Bindings, Reach, Spine, Descend;
    WalkReaches(t, p, n, sides, paths);
    SpineInReach(t, 0, p);
  }
}
