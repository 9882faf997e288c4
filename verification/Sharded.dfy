// Keys split over independent trees (sharded.go): routing, any order of completion, combined root.
module Sharded {
  import opened Utils
  import opened TreeHasher
  import opened Trees
  import opened Writes
  import opened States
  import opened SparseMerkleTrees
  import opened Batches
  import Bulk
  import Encoding
  import Proofs

  function Pow2(k: nat): (n: nat)
    ensures n >= 1
  {
    if k == 0 then 1 else 2 * Pow2(k - 1)
  }

  // ---- The shard count ----

  // x & y on non-negative integers.
  function And(x: nat, y: nat): nat {
    if x == 0 || y == 0 then 0 else 2 * And(x / 2, y / 2) + (if x % 2 == 1 && y % 2 == 1 then 1 else 0)
  }

  lemma {:induction false} AndSelf(x: nat)
    ensures And(x, x) == x
  {
    if x > 0 { AndSelf(x / 2); }
  }

  lemma AndPredecessor(x: nat)
    requires x > 0
    ensures x % 2 == 0 ==> And(x, x - 1) == 2 * And(x / 2, x / 2 - 1)
    ensures x % 2 == 1 ==> And(x, x - 1) == 2 * (x / 2)
  {
    if x % 2 == 0 {
      assert (x - 1) / 2 == x / 2 - 1;
    } else {
      AndSelf(x / 2);
      assert (x - 1) / 2 == x / 2;
    }
  }

  // x & (x - 1) clears the lowest set bit, so it is zero exactly for the powers of two.
  lemma {:induction false} PowerOfTwoTest(x: nat) returns (k: nat)
    requires x > 0
    ensures And(x, x - 1) == 0 <==> x == Pow2(k)
    ensures And(x, x - 1) != 0 ==> forall j: nat :: x != Pow2(j)
  {
    hide And;
    AndPredecessor(x);
    k := 0;
    if x % 2 == 0 {
      var j := PowerOfTwoTest(x / 2);
      k := j + 1;
      forall i: nat | x == Pow2(i) ensures And(x, x - 1) == 0 {
        assert x / 2 == Pow2(i - 1);
      }
    }
  }

  // ---- Routing ----

  // h[0] >> (8 - bits), one row per count so that no shift amount is symbolic.
  function ShardByte(b: bv8, bits: nat): bv8 {
    if bits == 0 then 0
    else if bits == 1 then b >> 7 else if bits == 2 then b >> 6
    else if bits == 3 then b >> 5 else if bits == 4 then b >> 4
    else if bits == 5 then b >> 3 else if bits == 6 then b >> 2
    else if bits == 7 then b >> 1 else b
  }

  function ShardIndex(b: bv8, bits: nat): nat {
    ShardByte(b, bits) as nat
  }

  lemma ShardIndexInRange(b: bv8, bits: nat)
    requires bits <= 8
    ensures ShardIndex(b, bits) < Pow2(bits)
  {
    assert (b >> 7) as nat < 2 && (b >> 6) as nat < 4 && (b >> 5) as nat < 8 && (b >> 4) as nat < 16;
    assert (b >> 3) as nat < 32 && (b >> 2) as nat < 64 && (b >> 1) as nat < 128 && b as nat < 256;
    assert Pow2(0) == 1 && Pow2(1) == 2 && Pow2(2) == 4 && Pow2(3) == 8;
    assert Pow2(4) == 16 && Pow2(5) == 32 && Pow2(6) == 64 && Pow2(7) == 128 && Pow2(8) == 256;
  }

  // The index cuts the 256 routing bytes into equal stretches, one for each shard.
  lemma ShardIndexIsStretch(b: bv8, bits: nat)
    requires bits <= 8
    ensures ShardIndex(b, bits) == b as nat * Pow2(bits) / 256
  {
    assert Pow2(0) == 1 && Pow2(1) == 2 && Pow2(2) == 4 && Pow2(3) == 8;
    assert Pow2(4) == 16 && Pow2(5) == 32 && Pow2(6) == 64 && Pow2(7) == 128 && Pow2(8) == 256;
    Shifts(b);
  }

  lemma Shifts(b: bv8)
    ensures (b >> 7) as nat == b as nat * 2 / 256 && (b >> 6) as nat == b as nat * 4 / 256
    ensures (b >> 5) as nat == b as nat * 8 / 256 && (b >> 4) as nat == b as nat * 16 / 256
    ensures (b >> 3) as nat == b as nat * 32 / 256 && (b >> 2) as nat == b as nat * 64 / 256
    ensures (b >> 1) as nat == b as nat * 128 / 256 && b as nat == b as nat * 256 / 256
  {
  }

  // The number spelled by the first k bits of a byte.
  function TopBits(b: bv8, k: nat): bv8
    requires k <= 8
  {
    if k == 0 then 0 else (TopBits(b, k - 1) << 1) | (if BitOfByte(b, k - 1) then 1 else 0)
  }

  lemma ShardByteStep(b: bv8, bits: nat)
    requires bits < 8
    ensures ShardByte(b, bits + 1) == (ShardByte(b, bits) << 1) | (if BitOfByte(b, bits) then 1 else 0)
  {
  }

  // A key's shard is the number spelled by the first `bits` bits of its routing byte.
  lemma {:induction false} ShardByteIsTopBits(b: bv8, bits: nat)
    requires bits <= 8
    ensures ShardByte(b, bits) == TopBits(b, bits) && ShardIndex(b, bits) == TopBits(b, bits) as nat
  {
    if bits > 0 {
      ShardByteIsTopBits(b, bits - 1);
      ShardByteStep(b, bits - 1);
    }
  }

  // ---- The combined root ----

  // An odd last digest is paired with itself.
  function PairUp(level: seq<Digest>): (next: seq<Digest>)
    ensures |next| == (|level| + 1) / 2
  {
    if level == [] then []
    else if |level| == 1 then [NodeOf(level[0], level[0])]
    else [NodeOf(level[0], level[1])] + PairUp(level[2..])
  }

  // computeRoot's fold, level by level.
  function FoldLevels(level: seq<Digest>): Digest
    requires level != []
    decreases |level|
  {
    if |level| == 1 then level[0] else FoldLevels(PairUp(level))
  }

  // The balanced tree over the shard roots.
  ghost function Balanced(k: nat, roots: seq<Digest>): Digest
    requires |roots| == Pow2(k)
  {
    if k == 0 then roots[0]
    else NodeOf(Balanced(k - 1, roots[..Pow2(k - 1)]), Balanced(k - 1, roots[Pow2(k - 1)..]))
  }

  lemma {:induction false} PairUpAt(level: seq<Digest>, i: nat)
    requires i < |PairUp(level)|
    ensures PairUp(level)[i]
         == Hash(NodeData(level[2 * i], level[if 2 * i + 1 < |level| then 2 * i + 1 else 2 * i]))
    decreases |level|
  {
    if i > 0 { PairUpAt(level[2..], i - 1); }
  }

  // The digest that the bits of i lead to, from a root k levels up.
  function Followed(t: Digest, k: nat, i: nat): Digest {
    if k == 0 || !IsNode(t) then t
    else if i < Pow2(k - 1) then Followed(t.preimage.left, k - 1, i)
    else Followed(t.preimage.right, k - 1, i - Pow2(k - 1))
  }

  // Shard i's root is where the bits of i lead.
  lemma {:induction false} BalancedAt(k: nat, roots: seq<Digest>, i: nat)
    requires |roots| == Pow2(k) && i < |roots|
    ensures Followed(Balanced(k, roots), k, i) == roots[i]
  {
    if k > 0 {
      var n := Pow2(k - 1);
      if i < n { BalancedAt(k - 1, roots[..n], i); } else { BalancedAt(k - 1, roots[n..], i - n); }
    }
  }

  lemma {:induction false} PairUpSplits(a: seq<Digest>, b: seq<Digest>)
    requires |a| % 2 == 0
    ensures PairUp(a + b) == PairUp(a) + PairUp(b)
    decreases |a|
  {
    if a == [] {
      assert a + b == b;
    } else {
      assert (a + b)[2..] == a[2..] + b;
      PairUpSplits(a[2..], b);
    }
  }

  lemma {:induction false} FoldSplits(k: nat, a: seq<Digest>, b: seq<Digest>)
    requires |a| == |b| == Pow2(k)
    ensures FoldLevels(a + b) == NodeOf(FoldLevels(a), FoldLevels(b))
  {
    if k == 0 {
      assert PairUp(a + b) == [NodeOf(a[0], b[0])];
    } else {
      PairUpSplits(a, b);
      FoldSplits(k - 1, PairUp(a), PairUp(b));
    }
  }

  // For a power of two of shards, folding level by level builds the balanced tree.
  lemma {:induction false} FoldIsBalanced(k: nat, roots: seq<Digest>)
    requires |roots| == Pow2(k)
    ensures FoldLevels(roots) == Balanced(k, roots)
  {
    if k > 0 {
      var n := Pow2(k - 1);
      assert roots == roots[..n] + roots[n..];
      FoldSplits(k - 1, roots[..n], roots[n..]);
      FoldIsBalanced(k - 1, roots[..n]);
      FoldIsBalanced(k - 1, roots[n..]);
    }
  }

  lemma {:induction false} BalancedDetermines(k: nat, a: seq<Digest>, b: seq<Digest>)
    requires |a| == |b| == Pow2(k) && Balanced(k, a) == Balanced(k, b)
    ensures a == b
  {
    if k > 0 {
      var n := Pow2(k - 1);
      BalancedDetermines(k - 1, a[..n], b[..n]);
      BalancedDetermines(k - 1, a[n..], b[n..]);
      assert a == a[..n] + a[n..] && b == b[..n] + b[n..];
    }
  }

  ghost function RootsOf(ms: seq<Map>): (roots: seq<Digest>)
    ensures |roots| == |ms|
  {
    seq(|ms|, i requires 0 <= i < |ms| => RootOf(ms[i]))
  }

  // With hashing free, the combined root tells every shard's map.
  lemma CombinedRootDeterminesMaps(k: nat, ms: seq<Map>, ns: seq<Map>)
    requires |ms| == |ns| == Pow2(k)
    requires forall i | 0 <= i < |ms| :: Storable(ms[i]) && Storable(ns[i])
    ensures Balanced(k, RootsOf(ms)) == Balanced(k, RootsOf(ns)) <==> ms == ns
  {
    if Balanced(k, RootsOf(ms)) == Balanced(k, RootsOf(ns)) {
      BalancedDetermines(k, RootsOf(ms), RootsOf(ns));
      forall i | 0 <= i < |ms| ensures ms[i] == ns[i] {
        assert RootsOf(ms)[i] == RootsOf(ns)[i];
        RootDeterminesMap(ms[i], ns[i]);
      }
    }
  }

  // The same fold over bytes, under any hash function.
  function PairUpBytes(h: Encoding.HashFunction, level: seq<Bytes>): (next: seq<Bytes>)
    ensures |next| == (|level| + 1) / 2
  {
    if level == [] then []
    else if |level| == 1 then [h(Encoding.NodeBytes(level[0], level[0]))]
    else [h(Encoding.NodeBytes(level[0], level[1]))] + PairUpBytes(h, level[2..])
  }

  function FoldLevelsBytes(h: Encoding.HashFunction, level: seq<Bytes>): Bytes
    requires level != []
    decreases |level|
  {
    if |level| == 1 then level[0] else FoldLevelsBytes(h, PairUpBytes(h, level))
  }

  lemma {:induction false} PairUpInBytes(h: Encoding.HashFunction, level: seq<Digest>)
    ensures PairUpBytes(h, Proofs.SidesBytes(h, level)) == Proofs.SidesBytes(h, PairUp(level))
    decreases |level|
  {
    hide Encoding.DigestBytes, Encoding.NodeBytes;
    if |level| == 1 {
      Encoding.NodeOfInBytes(h, level[0], level[0]);
      assert PairUp(level) == [NodeOf(level[0], level[0])];
    } else if level != [] {
      var next := PairUp(level[2..]);
      Encoding.NodeOfInBytes(h, level[0], level[1]);
      PairUpInBytes(h, level[2..]);
      assert Proofs.SidesBytes(h, level)[2..] == Proofs.SidesBytes(h, level[2..]);
      assert PairUp(level) == [NodeOf(level[0], level[1])] + next;
      assert Proofs.SidesBytes(h, PairUp(level))[0] == Encoding.DigestBytes(h, NodeOf(level[0], level[1]));
      assert Proofs.SidesBytes(h, PairUp(level))[1..] == Proofs.SidesBytes(h, next);
    }
  }

  lemma {:induction false} FoldLevelsInBytes(h: Encoding.HashFunction, level: seq<Digest>)
    requires level != []
    ensures FoldLevelsBytes(h, Proofs.SidesBytes(h, level)) == Encoding.DigestBytes(h, FoldLevels(level))
    decreases |level|
  {
    if |level| > 1 {
      PairUpInBytes(h, level);
      FoldLevelsInBytes(h, PairUp(level));
    }
  }

  // Two balanced trees over canonical trees with one digest are over the same trees, or following
  // them down breaks the hash.
  lemma {:induction false} BalancedDiffer(h: Encoding.HashFunction, k: nat, a: seq<Digest>, b: seq<Digest>)
    requires |a| == |b| == Pow2(k)
    requires forall i | 0 <= i < |a| :: Canonical(a[i], 0) && Canonical(b[i], 0)
    requires Encoding.DigestBytes(h, Balanced(k, a)) == Encoding.DigestBytes(h, Balanced(k, b))
    ensures var f := Proofs.Differ(h, Balanced(k, a), Balanced(k, b));
      Proofs.Genuine(h, f) && (f.Sound? ==> a == b)
  {
    hide Canonical, Proofs.Differ, Encoding.DigestBytes, Encoding.DataBytes;
    if k == 0 {
      Proofs.DifferFinds(h, a[0], b[0], 0, 0);
    } else if a == b {
      NodesDiffer(h, Balanced(k, a).preimage.left, Balanced(k, a).preimage.right,
                  Balanced(k, b).preimage.left, Balanced(k, b).preimage.right);
    } else {
      var n := Pow2(k - 1);
      var l, r := Balanced(k - 1, a[..n]), Balanced(k - 1, a[n..]);
      var l', r' := Balanced(k - 1, b[..n]), Balanced(k - 1, b[n..]);
      HalvesDiffer(k - 1, a, b);
      NodesDiffer(h, l, r, l', r');
      if Encoding.DataBytes(h, NodeData(l, r)) == Encoding.DataBytes(h, NodeData(l', r')) {
        if l != l' { BalancedDiffer(h, k - 1, a[..n], b[..n]); } else { BalancedDiffer(h, k - 1, a[n..], b[n..]); }
      }
    }
  }

  // Different roots make a difference in the half that they are in.
  lemma HalvesDiffer(k: nat, a: seq<Digest>, b: seq<Digest>)
    requires |a| == |b| == 2 * Pow2(k) && a != b
    ensures var n := Pow2(k);
      var l, r, l', r' := Balanced(k, a[..n]), Balanced(k, a[n..]), Balanced(k, b[..n]), Balanced(k, b[n..]);
      && (l == l' <==> a[..n] == b[..n]) && (r == r' <==> a[n..] == b[n..]) && !(l == l' && r == r')
  {
    var n := Pow2(k);
    assert a == a[..n] + a[n..] && b == b[..n] + b[n..];
    if Balanced(k, a[..n]) == Balanced(k, b[..n]) { BalancedDetermines(k, a[..n], b[..n]); }
    if Balanced(k, a[n..]) == Balanced(k, b[n..]) { BalancedDetermines(k, a[n..], b[n..]); }
  }

  lemma NodesDiffer(h: Encoding.HashFunction, l: Digest, r: Digest, l': Digest, r': Digest)
    ensures var t, u := NodeOf(l, r), NodeOf(l', r');
      if t == u then Proofs.Differ(h, t, u).Sound?
      else if Encoding.DataBytes(h, t.preimage) != Encoding.DataBytes(h, u.preimage) then
        Proofs.Differ(h, t, u) == Proofs.Collision(Encoding.DataBytes(h, t.preimage), Encoding.DataBytes(h, u.preimage))
        && Encoding.DigestBytes(h, t) == h(Encoding.DataBytes(h, t.preimage))
        && Encoding.DigestBytes(h, u) == h(Encoding.DataBytes(h, u.preimage))
      else
        && Encoding.DigestBytes(h, l) == Encoding.DigestBytes(h, l')
        && Encoding.DigestBytes(h, r) == Encoding.DigestBytes(h, r')
        && Proofs.Differ(h, t, u) == if l != l' then Proofs.Differ(h, l, l') else Proofs.Differ(h, r, r')
  {
    var a, b := Encoding.DigestBytes(h, l), Encoding.DigestBytes(h, r);
    var c, e := Encoding.DigestBytes(h, l'), Encoding.DigestBytes(h, r');
    if Encoding.NodeBytes(a, b) == Encoding.NodeBytes(c, e) {
      Proofs.SamePairs(Encoding.NodePrefix, a, b, c, e);
    }
  }

  // Equal combined root bytes come from equal shard maps, under every hash function, or following
  // the two combined trees down to the shards' and on gives a finding.
  lemma CombinedRootsBindOrCollide(h: Encoding.HashFunction, k: nat, ms: seq<Map>, ns: seq<Map>)
    requires |ms| == |ns| == Pow2(k)
    requires forall i | 0 <= i < |ms| :: Storable(ms[i]) && Storable(ns[i])
    requires var a, b := Proofs.SidesBytes(h, RootsOf(ms)), Proofs.SidesBytes(h, RootsOf(ns));
      FoldLevelsBytes(h, a) == FoldLevelsBytes(h, b)
    ensures var f := Proofs.Differ(h, Balanced(k, RootsOf(ms)), Balanced(k, RootsOf(ns)));
      Proofs.Genuine(h, f) && (f.Sound? <==> ms == ns)
  {
    hide Balanced, Canonical, FoldLevels, FoldLevelsBytes, Storable, RootOf;
    forall i | 0 <= i < |ms| ensures Canonical(RootsOf(ms)[i], 0) && Canonical(RootsOf(ns)[i], 0) {
      RootIsCanonical(ms[i]);
      RootIsCanonical(ns[i]);
    }
    FoldLevelsInBytes(h, RootsOf(ms));
    FoldLevelsInBytes(h, RootsOf(ns));
    FoldIsBalanced(k, RootsOf(ms));
    FoldIsBalanced(k, RootsOf(ns));
    BalancedDiffer(h, k, RootsOf(ms), RootsOf(ns));
    if RootsOf(ms) == RootsOf(ns) {
      forall i | 0 <= i < |ms| ensures ms[i] == ns[i] {
        assert RootsOf(ms)[i] == RootsOf(ns)[i];
        RootDeterminesMap(ms[i], ns[i]);
      }
    }
  }

  // ---- Buckets ----

  // The entries of one shard, in input order.
  ghost function Bucket(batch: seq<KV>, shardOf: Path -> nat, i: nat): seq<KV> {
    if batch == [] then []
    else
      var x := batch[|batch| - 1];
      Bucket(batch[..|batch| - 1], shardOf, i) + (if shardOf(x.path) == i then [x] else [])
  }

  // A path's values all go to its own shard, in order.
  lemma {:induction false} BucketValues(batch: seq<KV>, shardOf: Path -> nat, i: nat, p: Path)
    ensures ValuesAt(Bucket(batch, shardOf, i), p) == if shardOf(p) == i then ValuesAt(batch, p) else []
  {
    if batch != [] {
      var x, front := batch[|batch| - 1], batch[..|batch| - 1];
      BucketValues(front, shardOf, i, p);
      ValuesAtConcat(Bucket(front, shardOf, i), if shardOf(x.path) == i then [x] else [], p);
      ValuesAtOne(x, p);
    }
  }

  lemma ValuesAtOne(x: KV, p: Path)
    ensures ValuesAt([x], p) == if x.path == p then [x.value] else []
    ensures ValuesAt([], p) == []
  {
    assert [x][..0] == [];
  }

  // Every pair routed through its shard's Update, in order.
  ghost function Routed(ms: seq<Map>, batch: seq<KV>, shardOf: Path -> nat): (r: seq<Map>)
    ensures |r| == |ms|
  {
    if batch == [] then ms
    else
      var x := batch[|batch| - 1];
      var r := Routed(ms, batch[..|batch| - 1], shardOf);
      var i := shardOf(x.path);
      if i < |ms| then r[i := Write(r[i], x.path, x.value)] else r
  }

  lemma {:induction false} RoutedAt(ms: seq<Map>, batch: seq<KV>, shardOf: Path -> nat, i: nat)
    requires i < |ms|
    ensures Routed(ms, batch, shardOf)[i] == Iterated(ms[i], Bucket(batch, shardOf, i))
  {
    if batch != [] {
      var x, front := batch[|batch| - 1], batch[..|batch| - 1];
      RoutedAt(ms, front, shardOf, i);
      var b := Bucket(front, shardOf, i);
      if shardOf(x.path) == i {
        assert (b + [x])[..|b|] == b;
      } else {
        assert b + [] == b;
      }
    }
  }

  // The shard maps after a sharded bulk update.
  ghost function BulkShards(ms: seq<Map>, batch: seq<KV>, shardOf: Path -> nat): seq<Map> {
    seq(|ms|, i requires 0 <= i < |ms| => BulkMap(ms[i], Bucket(batch, shardOf, i)))
  }

  // What a path has in shard i.
  ghost predicate ReadAt(ms: seq<Map>, i: nat, path: Path, value: Bytes) {
    i < |ms| && value == if path in ms[i] then ms[i][path] else []
  }

  // One path changes, in shard i; the empty value removes it.
  ghost predicate WrittenAt(before: seq<Map>, after: seq<Map>, i: nat, path: Path, value: Bytes) {
    i < |before| && after == before[i := if value == [] then before[i] - {path} else before[i][path := value]]
  }

  ghost predicate SameAt(before: Map, after: Map, p: Path) {
    (p in after <==> p in before) && (p in before ==> after[p] == before[p])
  }

  // One shard's bucket, told by the positions of the whole lists: the shard's own paths are updated
  // as the lists say, the others are left alone.
  lemma BucketBulkedAt(m: Map, keys: seq<Path>, values: seq<Bytes>, shardOf: Path -> nat, i: nat, p: Path)
    requires |keys| == |values|
    ensures var after := BulkMap(m, Bucket(Batch(keys, values), shardOf, i));
      if i == shardOf(p) then BulkedAt(keys, values, m, after, p) else SameAt(m, after, p)
  {
    hide ValuesAt, LastSet, Deleted, Sets, MapOf, Batch, Bucket;
    var batch := Batch(keys, values);
    BucketValues(batch, shardOf, i, p);
    DeletedAt(m, Bucket(batch, shardOf, i), p);
    SetsAt(Bucket(batch, shardOf, i), p);
    DeletedAt(m, batch, p);
    SetsAt(batch, p);
    BulkMapAt(keys, values, m, p);
    NothingSet();
  }

  // A sharded bulk update is the same as routing every pair through Update in order, exactly when
  // no path of the batch is set and later deleted.
  lemma ShardedBulkIsRoutedExactlyWhen(ms: seq<Map>, batch: seq<KV>, shardOf: Path -> nat)
    requires forall p: Path :: shardOf(p) < |ms|
    ensures BulkShards(ms, batch, shardOf) == Routed(ms, batch, shardOf)
      <==> forall p: Path :: !SetThenDeleted(batch, p)
  {
    hide BulkMap, Iterated, Bucket, Routed, ValuesAt;
    forall i | 0 <= i < |ms| ensures BulkShards(ms, batch, shardOf)[i] == Routed(ms, batch, shardOf)[i]
      <==> forall p: Path :: shardOf(p) == i ==> !SetThenDeleted(batch, p)
    {
      RoutedAt(ms, batch, shardOf, i);
      BulkIsIteratedExactlyWhen(ms[i], Bucket(batch, shardOf, i));
      forall p: Path
        ensures SetThenDeleted(Bucket(batch, shardOf, i), p) <==> shardOf(p) == i && SetThenDeleted(batch, p)
      {
        BucketValues(batch, shardOf, i, p);
      }
    }
    if BulkShards(ms, batch, shardOf) == Routed(ms, batch, shardOf) {
      forall p: Path ensures !SetThenDeleted(batch, p) {
        var i := shardOf(p);
        assert BulkShards(ms, batch, shardOf)[i] == Routed(ms, batch, shardOf)[i];
      }
    }
  }

  // The same of the combined root.
  lemma ShardedRootIsRoutedExactlyWhen(k: nat, ms: seq<Map>, batch: seq<KV>, shardOf: Path -> nat)
    requires |ms| == Pow2(k) && forall p: Path :: shardOf(p) < |ms|
    requires forall i | 0 <= i < |ms| :: Storable(ms[i])
    ensures var bulk, routed := BulkShards(ms, batch, shardOf), Routed(ms, batch, shardOf);
      && (forall i | 0 <= i < |ms| :: Storable(bulk[i]) && Storable(routed[i]))
      && (Balanced(k, RootsOf(bulk)) == Balanced(k, RootsOf(routed)) <==> forall p: Path :: !SetThenDeleted(batch, p))
  {
    hide BulkMap, Iterated, Bucket, Routed, SetThenDeleted, Storable, Balanced, RootsOf;
    var bulk, routed := BulkShards(ms, batch, shardOf), Routed(ms, batch, shardOf);
    forall i | 0 <= i < |ms| ensures Storable(bulk[i]) && Storable(routed[i]) {
      BulkMapIsStorable(ms[i], Bucket(batch, shardOf, i));
      RoutedAt(ms, batch, shardOf, i);
      IteratedIsStorable(ms[i], Bucket(batch, shardOf, i));
    }
    CombinedRootDeterminesMaps(k, bulk, routed);
    ShardedBulkIsRoutedExactlyWhen(ms, batch, shardOf);
  }

  // ---- The wrapper ----

  // parallelComputeShardIdxs: chunk workers fill their own ranges of the index buffer. `order` is
  // any order, over any number of chunks, in which every chunk gets done.
  method ParallelComputeShardIdxs(idxs: array<nat>, keys: seq<Path>, shardOf: Path -> nat, chunks: nat, order: seq<nat>)
    requires idxs.Length == |keys| && 1 <= chunks
    requires forall c: nat | c < chunks :: c in order
    modifies idxs
    ensures forall i | 0 <= i < |keys| :: idxs[i] == shardOf(keys[i])
  {
    var n := idxs.Length;
    if n == 0 {
      return;
    }
    var chunkSize := (n + chunks - 1) / chunks;
    var w := 0;
    while w < |order|
      invariant w <= |order|
      invariant forall i | 0 <= i < n && InChunks(i, chunkSize, order[..w]) :: idxs[i] == shardOf(keys[i])
    {
      hide InChunks;
      var start := order[w] * chunkSize;
      var end := if start + chunkSize > n then n else start + chunkSize;
      ChunkDone(chunkSize, order, w);
      if start < end {
        FillChunk(idxs, keys, shardOf, start, end);
      }
      w := w + 1;
    }
    assert order[..w] == order;
    forall i | 0 <= i < n ensures idxs[i] == shardOf(keys[i]) {
      ChunksCover(n, chunks, i);
      var c: nat := i / chunkSize;
      assert c in order && c * chunkSize <= i < c * chunkSize + chunkSize;
    }
  }

  // One worker's loop.
  method FillChunk(idxs: array<nat>, keys: seq<Path>, shardOf: Path -> nat, start: nat, end: nat)
    requires start <= end <= |keys| == idxs.Length
    modifies idxs
    ensures forall i | 0 <= i < |keys| :: idxs[i] == if start <= i < end then shardOf(keys[i]) else old(idxs[i])
  {
    var i := start;
    while i < end
      invariant start <= i <= end
      invariant forall j | 0 <= j < |keys| :: idxs[j] == if start <= j < i then shardOf(keys[j]) else old(idxs[j])
    {
      idxs[i] := shardOf(keys[i]);
      i := i + 1;
    }
  }

  lemma ChunkDone(chunkSize: nat, order: seq<nat>, w: nat)
    requires w < |order|
    ensures forall i: nat :: InChunks(i, chunkSize, order[..w + 1]) <==>
      (InChunks(i, chunkSize, order[..w]) || order[w] * chunkSize <= i < order[w] * chunkSize + chunkSize)
  {
    assert order[..w + 1] == order[..w] + [order[w]];
    forall i: nat ensures InChunks(i, chunkSize, order[..w + 1])
      <==> InChunks(i, chunkSize, order[..w]) || order[w] * chunkSize <= i < order[w] * chunkSize + chunkSize
    {
      if InChunks(i, chunkSize, order[..w + 1]) {
        var c: nat :| c in order[..w + 1] && c * chunkSize <= i < c * chunkSize + chunkSize;
        assert c in order[..w] || c == order[w];
      }
      if InChunks(i, chunkSize, order[..w]) {
        var c: nat :| c in order[..w] && c * chunkSize <= i < c * chunkSize + chunkSize;
        assert c in order[..w + 1];
      }
      if order[w] * chunkSize <= i < order[w] * chunkSize + chunkSize {
        assert order[w] in order[..w + 1];
      }
    }
  }

  // i lies in the range of one of these chunks.
  ghost predicate InChunks(i: nat, chunkSize: nat, order: seq<nat>) {
    exists c: nat :: c in order && c * chunkSize <= i < c * chunkSize + chunkSize
  }

  // The chunk ranges cover the input: i is in chunk i / chunkSize, and there is such a chunk.
  lemma ChunksCover(n: nat, chunks: nat, i: nat)
    requires 1 <= chunks && i < n
    ensures var size := (n + chunks - 1) / chunks;
      size >= 1 && i / size < chunks && (i / size) * size <= i < (i / size) * size + size
  {
    var size := (n + chunks - 1) / chunks;
    var k := i / size;
    assert size * chunks >= n by {
      assert n + chunks - 1 == size * chunks + (n + chunks - 1) % chunks;
    }
    assert i == k * size + i % size;
    assert k >= chunks ==> k * size >= chunks * size;
  }

  // One level of computeRoot; an odd last digest is paired with itself.
  method PairLevel(level: seq<Digest>) returns (next: seq<Digest>)
    ensures next == PairUp(level)
    ensures forall i | 0 <= i < |next| ::
      next[i] == Hash(NodeData(level[2 * i], level[if 2 * i + 1 < |level| then 2 * i + 1 else 2 * i]))
  {
    next := [];
    var i := 0;
    assert level[0..] == level;
    while i < |level|
      invariant i <= |level| && PairUp(level) == next + PairUp(level[i..])
    {
      if i + 1 == |level| {
        next := next + [NodeOf(level[i], level[i])];
        i := |level|;
      } else {
        assert level[i..][2..] == level[i + 2..];
        next := next + [NodeOf(level[i], level[i + 1])];
        i := i + 2;
      }
    }
    forall i | 0 <= i < |next|
      ensures next[i] == Hash(NodeData(level[2 * i], level[if 2 * i + 1 < |level| then 2 * i + 1 else 2 * i]))
    {
      PairUpAt(level, i);
    }
  }

  method FoldRoots(roots: seq<Digest>) returns (root: Digest)
    requires roots != []
    ensures root == FoldLevels(roots)
  {
    var level := roots;
    while |level| > 1
      invariant level != [] && FoldLevels(level) == FoldLevels(roots)
      decreases |level|
    {
      level := PairLevel(level);
    }
    return level[0];
  }

  class ShardedSMT {
    var shards: seq<SparseMerkleTree>
    const shardBits: nat
    // The first byte of the routing hash of a key.
    const routeByte: Path -> bv8

    ghost predicate Valid()
      reads this, shards
    {
      && shardBits <= 8 && |shards| == Pow2(shardBits)
      && (forall i, j | 0 <= i < j < |shards| :: shards[i] != shards[j])
      && (forall i | 0 <= i < |shards| :: Exact(shards[i].Contents()))
    }

    // The map of every shard.
    ghost function Maps(): (ms: seq<Map>)
      reads this, shards
      ensures |ms| == |shards|
    {
      seq(|shards|, i requires 0 <= i < |shards| reads this, shards => shards[i].values)
    }

    function ShardOf(path: Path): nat {
      ShardIndex(routeByte(path), shardBits)
    }

    constructor (shards: seq<SparseMerkleTree>, shardBits: nat, routeByte: Path -> bv8)
      ensures this.shards == shards && this.shardBits == shardBits && this.routeByte == routeByte
    {
      this.shards, this.shardBits, this.routeByte := shards, shardBits, routeByte;
    }

    // computeRoot
    method ComputeRoot() returns (root: Digest)
      requires Valid()
      ensures root == Balanced(shardBits, RootsOf(Maps()))
      ensures forall i | 0 <= i < |shards| :: Followed(root, shardBits, i) == shards[i].root
    {
      var level := seq(|shards|, i requires 0 <= i < |shards| reads this, shards => shards[i].root);
      LevelIsRoots(level);
      FoldIsBalanced(shardBits, level);
      root := FoldRoots(level);
      forall i | 0 <= i < |shards| ensures Followed(root, shardBits, i) == shards[i].root {
        BalancedAt(shardBits, level, i);
      }
    }

    lemma LevelIsRoots(level: seq<Digest>)
      requires Valid() && |level| == |shards|
      requires forall i | 0 <= i < |shards| :: level[i] == shards[i].root
      ensures level == RootsOf(Maps())
    {
      hide Exact, Canon;
      forall i | 0 <= i < |shards| ensures level[i] == RootsOf(Maps())[i] {
        ExactIsItsMap(shards[i].Contents());
        assert Maps()[i] == shards[i].values;
      }
    }

    // Get
    method Get(path: Path) returns (res: Result<Bytes>)
      requires Valid()
      ensures ShardOf(path) < |shards| && res == Ok(Lookup(Maps()[ShardOf(path)], path))
      ensures res.Ok? && ReadAt(Maps(), routeByte(path) as nat * |shards| / 256, path, res.value)
    {
      ShardIndexInRange(routeByte(path), shardBits);
      ShardIndexIsStretch(routeByte(path), shardBits);
      var idx := ShardOf(path);
      res := shards[idx].Get(path);
    }

    // BulkUpdate: buckets the pairs by shard, lets the shards finish in any order, and folds their
    // roots. `chunks`, `chunkOrder` and `shardOrder` are the scheduler's choices.
    method BulkUpdate(keys: seq<Path>, values: seq<Bytes>, chunks: nat, chunkOrder: seq<nat>, shardOrder: seq<nat>)
      returns (res: Result<Digest>)
      requires Valid()
      requires 1 <= chunks && forall c: nat | c < chunks :: c in chunkOrder
      requires IsOrderOf(shardOrder, |shards|)
      modifies shards
      ensures |keys| != |values| ==> res == Err(BulkInputMismatch) && Maps() == old(Maps())
      ensures |keys| == |values| ==> Maps() == BulkShards(old(Maps()), Batch(keys, values), ShardOf)
      ensures |keys| == |values| ==> res == Ok(Balanced(shardBits, RootsOf(Maps())))
      ensures Valid() && shards == old(shards)
      // Every pair goes to the shard of its routing byte, and to no other.
      ensures |keys| == |values| ==> forall s | 0 <= s < |shards| :: forall p: Path ::
        if s == routeByte(p) as nat * |shards| / 256
        then BulkedAt(keys, values, old(Maps())[s], Maps()[s], p) else SameAt(old(Maps())[s], Maps()[s], p)
    {
      hide BulkedAt, SameAt, ShardIndex;
      hide Exact, StateOf, BulkMap, Bucket, BulkShards, Balanced, RootsOf;
      if |keys| != |values| {
        return Err(BulkInputMismatch);
      }
      ghost var ms := Maps();
      ShardsBulkedAt(ms, keys, values);
      if |keys| == 0 {
        var same := ComputeRoot();
        EmptyBuckets(Maps(), Batch(keys, values), ShardOf);
        return Ok(same);
      }
      var idxs := new nat[|keys|];
      ParallelComputeShardIdxs(idxs, keys, ShardOf, chunks, chunkOrder);
      var bucketK, bucketV := FillBuckets(keys, values, idxs[..]);
      ghost var before, batch := Maps(), Batch(keys, values);
      RunShards(bucketK, bucketV, shardOrder, batch);
      var root := ComputeRoot();
      return Ok(root);
    }

    lemma ShardsBulkedAt(ms: seq<Map>, keys: seq<Path>, values: seq<Bytes>)
      requires |ms| == |shards| == Pow2(shardBits) && shardBits <= 8 && |keys| == |values|
      ensures forall s | 0 <= s < |shards| :: forall p: Path ::
        if s == routeByte(p) as nat * |shards| / 256
        then BulkedAt(keys, values, ms[s], BulkShards(ms, Batch(keys, values), ShardOf)[s], p)
        else SameAt(ms[s], BulkShards(ms, Batch(keys, values), ShardOf)[s], p)
    {
      hide BulkedAt, SameAt, ShardIndex, BulkMap, Bucket, Batch;
      forall s | 0 <= s < |shards|, p: Path
        ensures if s == routeByte(p) as nat * |shards| / 256
          then BulkedAt(keys, values, ms[s], BulkShards(ms, Batch(keys, values), ShardOf)[s], p)
          else SameAt(ms[s], BulkShards(ms, Batch(keys, values), ShardOf)[s], p)
      {
        ShardIndexIsStretch(routeByte(p), shardBits);
        BucketBulkedAt(ms[s], keys, values, ShardOf, s, p);
      }
    }

    // The shard goroutines, one after the other in the order given; they share nothing.
    method RunShards(bucketK: seq<seq<Path>>, bucketV: seq<seq<Bytes>>, shardOrder: seq<nat>, ghost batch: seq<KV>)
      requires Valid() && IsOrderOf(shardOrder, |shards|)
      requires |bucketK| == |bucketV| == |shards|
      requires forall s: nat | s < |shards| :: IsBucket(bucketK[s], bucketV[s], batch, ShardOf, s)
      modifies shards
      ensures Valid() && shards == old(shards)
      ensures Maps() == BulkShards(old(Maps()), batch, ShardOf)
    {
      hide Exact, StateOf, BulkMap, Bucket, Batch;
      ghost var before := Maps();
      var w := 0;
      while w < |shardOrder|
        invariant w <= |shardOrder| && Valid() && shards == old(shards)
        invariant forall s: nat | s < |shards| :: shards[s].values == PartlyDone(before, batch, shardOrder[..w], s)
      {
        var i := shardOrder[w];
        NotYet(shardOrder, w);
        if |bucketK[i]| > 0 {
          StateOfFields(BulkMap(before[i], Bucket(batch, ShardOf, i)));
          var updated := Bulk.BulkUpdate(shards[i], bucketK[i], bucketV[i]);
          assert updated.Ok?;
        } else {
          EmptyBucket(before[i], bucketK[i], bucketV[i]);
        }
        w := w + 1;
      }
      assert shardOrder[..w] == shardOrder;
    }

    // Shard s's map when the shards in `done` have completed.
    ghost function PartlyDone(before: seq<Map>, batch: seq<KV>, done: seq<nat>, s: nat): Map
      requires s < |before|
    {
      if s in done then BulkMap(before[s], Bucket(batch, ShardOf, s)) else before[s]
    }

    method FillBuckets(keys: seq<Path>, values: seq<Bytes>, idxs: seq<nat>)
      returns (bucketK: seq<seq<Path>>, bucketV: seq<seq<Bytes>>)
      requires shardBits <= 8 && |shards| == Pow2(shardBits)
      requires |keys| == |values| == |idxs| && forall i | 0 <= i < |keys| :: idxs[i] == ShardOf(keys[i])
      ensures |bucketK| == |bucketV| == |shards|
      ensures forall s: nat | s < |shards| :: IsBucket(bucketK[s], bucketV[s], Batch(keys, values), ShardOf, s)
    {
      bucketK := seq(|shards|, s => []);
      bucketV := seq(|shards|, s => []);
      ghost var batch := Batch(keys, values);
      assert batch[..0] == [];
      var i := 0;
      while i < |keys|
        invariant i <= |keys| && |bucketK| == |bucketV| == |shards|
        invariant forall s: nat | s < |shards| :: IsBucket(bucketK[s], bucketV[s], batch[..i], ShardOf, s)
      {
        var idx := idxs[i];
        ShardIndexInRange(routeByte(keys[i]), shardBits);
        assert batch[..i + 1][..i] == batch[..i];
        BatchPush(bucketK[idx], bucketV[idx], keys[i], values[i]);
        bucketK := bucketK[idx := bucketK[idx] + [keys[i]]];
        bucketV := bucketV[idx := bucketV[idx] + [values[i]]];
        i := i + 1;
      }
      assert batch[..i] == batch;
    }

    // Update
    method Update(path: Path, value: Bytes) returns (res: Result<Digest>)
      requires Valid()
      modifies shards
      ensures Valid() && shards == old(shards)
      ensures ShardOf(path) < |shards|
      ensures Maps() == var i := ShardOf(path); old(Maps())[i := Write(old(Maps())[i], path, value)]
      ensures WrittenAt(old(Maps()), Maps(), routeByte(path) as nat * |shards| / 256, path, value)
      ensures res == Ok(Balanced(shardBits, RootsOf(Maps())))
    {
      hide Exact, Write, Partial, StateOf, Balanced, RootsOf, Ready, AfterWrite, ShardIndex;
      ShardIndexInRange(routeByte(path), shardBits);
      ShardIndexIsStretch(routeByte(path), shardBits);
      var idx := ShardOf(path);
      EmptyMeansAbsent(shards[idx].values, path, value);
      ExactIsItsMap(shards[idx].Contents());
      StateOfFields(Write(shards[idx].values, path, value));
      var updated := shards[idx].Update(path, value);
      assert updated.Ok?;
      var root := ComputeRoot();
      return Ok(root);
    }
  }

  // A loop of Update calls on a sharded tree.
  method UpdateEach(s: ShardedSMT, keys: seq<Path>, values: seq<Bytes>) returns (root: Digest)
    requires s.Valid() && |keys| == |values|
    modifies s.shards
    ensures s.Valid() && s.shards == old(s.shards)
    ensures s.Maps() == Routed(old(s.Maps()), Batch(keys, values), s.ShardOf)
    ensures root == Balanced(s.shardBits, RootsOf(s.Maps()))
  {
    hide Exact, Write, Balanced, RootsOf, ShardIndex;
    ghost var before, batch := s.Maps(), Batch(keys, values);
    assert batch[..0] == [];
    root := s.ComputeRoot();
    var i := 0;
    while i < |keys|
      invariant i <= |keys| && s.Valid() && s.shards == old(s.shards)
      invariant s.Maps() == Routed(before, batch[..i], s.ShardOf)
      invariant root == Balanced(s.shardBits, RootsOf(s.Maps()))
    {
      assert batch[..i + 1][..i] == batch[..i];
      var updated := s.Update(keys[i], values[i]);
      root := updated.value;
      i := i + 1;
    }
    assert batch[..i] == batch;
  }

  // The two ways on two sharded trees with the same maps and routing, under any schedule.
  method BulkBesideOneByOne(bulk: ShardedSMT, single: ShardedSMT, keys: seq<Path>, values: seq<Bytes>,
                            chunks: nat, chunkOrder: seq<nat>, shardOrder: seq<nat>)
    returns (bulkRoot: Digest, singleRoot: Digest)
    requires bulk.Valid() && single.Valid() && bulk.Maps() == single.Maps() && |keys| == |values|
    requires bulk.shardBits == single.shardBits && bulk.routeByte == single.routeByte
    requires forall i, j | 0 <= i < |bulk.shards| && 0 <= j < |single.shards| :: bulk.shards[i] != single.shards[j]
    requires 1 <= chunks && forall c: nat | c < chunks :: c in chunkOrder
    requires IsOrderOf(shardOrder, |bulk.shards|)
    modifies bulk.shards, single.shards
    ensures var same := forall p: Path :: !SetThenDeleted(Batch(keys, values), p);
      (bulk.Maps() == single.Maps() <==> same) && (bulkRoot == singleRoot <==> same)
  {
    hide Exact, SetThenDeleted, BulkShards, Routed, Balanced, RootsOf, Batch;
    ghost var ms, batch := bulk.Maps(), Batch(keys, values);
    ShardsInRange(bulk);
    ShardedBulkIsRoutedExactlyWhen(ms, batch, bulk.ShardOf);
    ShardedRootIsRoutedExactlyWhen(bulk.shardBits, ms, batch, bulk.ShardOf);
    RoutedSame(ms, batch, bulk.ShardOf, single.ShardOf);
    var updated := bulk.BulkUpdate(keys, values, chunks, chunkOrder, shardOrder);
    bulkRoot := updated.value;
    singleRoot := UpdateEach(single, keys, values);
  }

  lemma ShardsInRange(s: ShardedSMT)
    requires s.Valid()
    ensures forall p: Path :: s.ShardOf(p) < |s.shards|
    ensures forall i | 0 <= i < |s.shards| :: Storable(s.Maps()[i])
  {
    hide Exact, Storable, ShardIndex;
    forall p: Path ensures s.ShardOf(p) < |s.shards| {
      ShardIndexInRange(s.routeByte(p), s.shardBits);
    }
    forall i | 0 <= i < |s.shards| ensures Storable(s.Maps()[i]) {
      ExactIsItsMap(s.shards[i].Contents());
    }
  }

  lemma {:induction false} RoutedSame(ms: seq<Map>, batch: seq<KV>, f: Path -> nat, g: Path -> nat)
    requires forall p: Path :: f(p) == g(p)
    ensures Routed(ms, batch, f) == Routed(ms, batch, g)
  {
    if batch != [] { RoutedSame(ms, batch[..|batch| - 1], f, g); }
  }

  // The order in which n shards complete: each once.
  ghost predicate IsOrderOf(order: seq<nat>, n: nat) {
    && (forall i | 0 <= i < |order| :: order[i] < n)
    && (forall i, j | 0 <= i < j < |order| :: order[i] != order[j])
    && (forall s: nat | s < n :: s in order)
  }

  ghost predicate IsBucket(ks: seq<Path>, vs: seq<Bytes>, batch: seq<KV>, shardOf: Path -> nat, s: nat) {
    |ks| == |vs| && Batch(ks, vs) == Bucket(batch, shardOf, s)
  }

  lemma BatchPush(ks: seq<Path>, vs: seq<Bytes>, k: Path, v: Bytes)
    requires |ks| == |vs|
    ensures Batch(ks + [k], vs + [v]) == Batch(ks, vs) + [KV(k, v)]
  {
  }

  lemma NotYet(order: seq<nat>, w: nat)
    requires w < |order| && forall i, j | 0 <= i < j < |order| :: order[i] != order[j]
    ensures order[w] !in order[..w]
    ensures forall s: nat :: s in order[..w + 1] <==> s in order[..w] || s == order[w]
  {
    assert order[..w + 1] == order[..w] + [order[w]];
  }

  lemma EmptyBucket(m: Map, ks: seq<Path>, vs: seq<Bytes>)
    requires |ks| == |vs| == 0
    ensures BulkMap(m, Batch(ks, vs)) == m
  {
    assert Batch(ks, vs) == [];
  }

  lemma EmptyBuckets(ms: seq<Map>, batch: seq<KV>, shardOf: Path -> nat)
    requires batch == []
    ensures BulkShards(ms, batch, shardOf) == ms
  {
    forall i | 0 <= i < |ms| ensures BulkMap(ms[i], Bucket(batch, shardOf, i)) == ms[i] {
      assert Bucket(batch, shardOf, i) == [];
    }
  }

  // NewShardedSMT: accepts exactly the powers of two from 1 to 256, and starts every shard empty.
  method NewShardedSMT(shardCount: int, routeByte: Path -> bv8) returns (res: Result<ShardedSMT>)
    ensures res.Ok? <==> exists k: nat :: k <= 8 && shardCount == Pow2(k)
    ensures res.Ok? <==> shardCount in {1, 2, 4, 8, 16, 32, 64, 128, 256}
    ensures res.Err? ==> res.error == InvalidShardCount
    ensures res.Ok? ==> fresh(res.value) && res.value.Valid() && |res.value.shards| == shardCount
    ensures res.Ok? ==> forall i | 0 <= i < shardCount :: res.value.Maps()[i] == map[]
    ensures res.Ok? ==> res.value.routeByte == routeByte && forall i | 0 <= i < shardCount :: fresh(res.value.shards[i])
  {
    PowersUpTo256();
    PowersListed(shardCount);
    if shardCount < 1 || shardCount > 256 {
      return Err(InvalidShardCount);
    }
    var k := PowerOfTwoTest(shardCount);
    if And(shardCount, shardCount - 1) != 0 {
      return Err(InvalidShardCount);
    }
    PowerBelow256(k);
    var bits := CountBits(shardCount, k);
    var shards := NewShards(shardCount);
    var s := new ShardedSMT(shards, bits, routeByte);
    return Ok(s);
  }

  lemma PowersUpTo256()
    ensures forall k: nat | k <= 8 :: 1 <= Pow2(k) <= 256
    ensures Pow2(8) == 256
  {
    assert Pow2(0) == 1 && Pow2(1) == 2 && Pow2(2) == 4 && Pow2(3) == 8;
    assert Pow2(4) == 16 && Pow2(5) == 32 && Pow2(6) == 64 && Pow2(7) == 128;
  }

  lemma PowersListed(n: int)
    ensures (exists k: nat :: k <= 8 && n == Pow2(k)) <==> n in {1, 2, 4, 8, 16, 32, 64, 128, 256}
  {
    assert Pow2(0) == 1 && Pow2(1) == 2 && Pow2(2) == 4 && Pow2(3) == 8;
    assert Pow2(4) == 16 && Pow2(5) == 32 && Pow2(6) == 64 && Pow2(7) == 128 && Pow2(8) == 256;
  }

  lemma PowerBelow256(k: nat)
    ensures Pow2(k) <= 256 ==> k <= 8
  {
    PowersUpTo256();
    if k > 8 { PowerGrows(8, k); }
  }

  lemma OnlyOneIsPow2Of0(k: nat)
    ensures Pow2(k) == 1 <==> k == 0
  {
    if k > 0 { PowerGrows(0, k); }
  }

  lemma {:induction false} PowerGrows(j: nat, k: nat)
    requires j < k
    ensures Pow2(j) < Pow2(k)
  {
    if j < k - 1 { PowerGrows(j, k - 1); }
  }

  // The number of halvings that take the shard count down to one.
  method CountBits(shardCount: nat, ghost k: nat) returns (bits: nat)
    requires shardCount == Pow2(k)
    ensures bits == k
  {
    bits := 0;
    var x := shardCount;
    while x > 1
      invariant bits <= k && x == Pow2(k - bits)
    {
      x := x / 2;
      bits := bits + 1;
    }
    OnlyOneIsPow2Of0(k - bits);
  }

  method NewShards(n: nat) returns (shards: seq<SparseMerkleTree>)
    ensures |shards| == n && fresh(set i | 0 <= i < n :: shards[i])
    ensures forall i, j | 0 <= i < j < n :: shards[i] != shards[j]
    ensures forall i | 0 <= i < n :: Exact(shards[i].Contents()) && shards[i].values == map[]
  {
    hide Exact, StateOf;
    shards := [];
    ExactStateOf(map[]);
    while |shards| < n
      invariant |shards| <= n && forall i | 0 <= i < |shards| :: fresh(shards[i])
      invariant forall i, j | 0 <= i < j < |shards| :: shards[i] != shards[j]
      invariant forall i | 0 <= i < |shards| :: Exact(shards[i].Contents()) && shards[i].values == map[]
    {
      var shard := new SparseMerkleTree();
      shards := shards + [shard];
    }
  }
}
