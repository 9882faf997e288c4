// Batches of writes: sorting, de-duplication and splitting (bulk.go), and the map a batch means.
module Batches {
  import opened Utils
  import opened TreeHasher
  import opened Trees
  import opened Writes

  datatype KV = KV(path: Path, value: Bytes)

  // The map a list of entries means: the last entry of a path wins.
  ghost function MapOf(kvs: seq<KV>): Map {
    if kvs == [] then map[]
    else MapOf(kvs[..|kvs| - 1])[kvs[|kvs| - 1].path := kvs[|kvs| - 1].value]
  }

  lemma {:induction false} MapOfConcat(a: seq<KV>, b: seq<KV>)
    ensures MapOf(a + b) == MapOf(a) + MapOf(b)
    decreases |b|
  {
    if b == [] {
      assert a + b == a;
    } else {
      var n := |b| - 1;
      assert (a + b)[..|a + b| - 1] == a + b[..n];
      MapOfConcat(a, b[..n]);
    }
  }

  lemma {:induction false} MapOfMember(kvs: seq<KV>, p: Path) returns (i: nat)
    requires p in MapOf(kvs)
    ensures i < |kvs| && kvs[i] == KV(p, MapOf(kvs)[p])
  {
    var n := |kvs| - 1;
    if kvs[n].path == p { i := n; } else { i := MapOfMember(kvs[..n], p); }
  }

  lemma {:induction false} MemberInMap(kvs: seq<KV>, i: nat)
    requires i < |kvs|
    ensures kvs[i].path in MapOf(kvs)
    decreases |kvs|
  {
    if i < |kvs| - 1 { MemberInMap(kvs[..|kvs| - 1], i); }
  }

  // ---- Order ----

  ghost predicate Sorted(kvs: seq<KV>) {
    forall i, j | 0 <= i < j < |kvs| :: Compare(kvs[i].path, kvs[j].path) <= 0
  }

  ghost predicate StrictlySorted(kvs: seq<KV>) {
    forall i, j | 0 <= i < j < |kvs| :: Compare(kvs[i].path, kvs[j].path) < 0
  }

  // The values given to p, in order.
  ghost function ValuesAt(kvs: seq<KV>, p: Path): seq<Bytes> {
    if kvs == [] then []
    else ValuesAt(kvs[..|kvs| - 1], p) + (if kvs[|kvs| - 1].path == p then [kvs[|kvs| - 1].value] else [])
  }

  lemma {:induction false} ValuesAtConcat(a: seq<KV>, b: seq<KV>, p: Path)
    ensures ValuesAt(a + b, p) == ValuesAt(a, p) + ValuesAt(b, p)
    decreases |b|
  {
    if b == [] {
      assert a + b == a;
    } else {
      assert (a + b)[..|a + b| - 1] == a + b[..|b| - 1];
      ValuesAtConcat(a, b[..|b| - 1], p);
    }
  }

  lemma {:induction false} NoValuesAt(kvs: seq<KV>, p: Path)
    requires forall i | 0 <= i < |kvs| :: kvs[i].path != p
    ensures ValuesAt(kvs, p) == []
  {
    if kvs != [] { NoValuesAt(kvs[..|kvs| - 1], p); }
  }

  lemma {:induction false} MapOfByValues(kvs: seq<KV>, p: Path)
    ensures p in MapOf(kvs) <==> ValuesAt(kvs, p) != []
    ensures p in MapOf(kvs) ==> MapOf(kvs)[p] == ValuesAt(kvs, p)[|ValuesAt(kvs, p)| - 1]
  {
    if kvs != [] { MapOfByValues(kvs[..|kvs| - 1], p); }
  }

  // a is b up to moving entries of different paths past each other.
  ghost predicate StablyEqual(a: seq<KV>, b: seq<KV>) {
    forall p: Path :: ValuesAt(a, p) == ValuesAt(b, p)
  }

  lemma StablyEqualMaps(a: seq<KV>, b: seq<KV>)
    requires StablyEqual(a, b)
    ensures MapOf(a) == MapOf(b)
  {
    forall p: Path ensures p in MapOf(a) <==> p in MapOf(b)
             ensures p in MapOf(a) ==> MapOf(a)[p] == MapOf(b)[p]
    {
      MapOfByValues(a, p);
      MapOfByValues(b, p);
      assert ValuesAt(a, p) == ValuesAt(b, p);
    }
  }

  // slices.SortStableFunc by path. The contract leaves a stable sort no choice.
  method SortStable(kvs: seq<KV>) returns (sorted: seq<KV>)
    ensures Sorted(sorted) && StablyEqual(sorted, kvs)
  {
    sorted := [];
    var i := 0;
    while i < |kvs|
      invariant i <= |kvs| && Sorted(sorted) && StablyEqual(sorted, kvs[..i])
    {
      var x := kvs[i];
      var k: nat := |sorted|;
      while k > 0 && Compare(sorted[k - 1].path, x.path) > 0
        invariant k <= |sorted|
        invariant forall j | k <= j < |sorted| :: Compare(sorted[j].path, x.path) > 0
      {
        k := k - 1;
      }
      InsertSorted(sorted, k, x);
      InsertStable(sorted, k, x, kvs[..i]);
      assert kvs[..i + 1] == kvs[..i] + [x];
      sorted := sorted[..k] + [x] + sorted[k..];
      i := i + 1;
    }
    assert kvs[..i] == kvs;
  }

  lemma InsertSorted(s: seq<KV>, k: nat, x: KV)
    requires k <= |s| && Sorted(s)
    requires k > 0 ==> Compare(s[k - 1].path, x.path) <= 0
    requires forall j | k <= j < |s| :: Compare(s[j].path, x.path) > 0
    ensures Sorted(s[..k] + [x] + s[k..])
  {
    var t := s[..k] + [x] + s[k..];
    forall i, j | 0 <= i < j < |t| ensures Compare(t[i].path, t[j].path) <= 0 {
      if j < k {
        assert t[i] == s[i] && t[j] == s[j];
      } else if j == k {
        if i < k - 1 { CompareTransitive(s[i].path, s[k - 1].path, x.path); }
      } else if i == k {
        CompareTotal(s[j - 1].path, x.path);
      } else {
        assert t[j] == s[j - 1] && t[i] == s[if i < k then i else i - 1];
      }
    }
  }

  lemma InsertStable(s: seq<KV>, k: nat, x: KV, from: seq<KV>)
    requires k <= |s| && StablyEqual(s, from)
    requires forall j | k <= j < |s| :: Compare(s[j].path, x.path) > 0
    ensures StablyEqual(s[..k] + [x] + s[k..], from + [x])
  {
    hide ValuesAt, Compare;
    assert s[..k] + s[k..] == s;
    forall p: Path ensures ValuesAt(s[..k] + [x] + s[k..], p) == ValuesAt(from + [x], p) {
      ValuesAtConcat(s[..k] + [x], s[k..], p);
      ValuesAtConcat(s[..k], [x], p);
      ValuesAtConcat(from, [x], p);
      ValuesAtConcat(s[..k], s[k..], p);
      if x.path == p {
        CompareTotal(p, p);
        NoValuesAt(s[k..], p);
      } else {
        NoValuesAt([x], p);
      }
    }
  }

  // The de-duplication pass, in place: of each run of equal paths only the last entry stays.
  method Dedup(kvs: array<KV>) returns (w: nat)
    requires Sorted(kvs[..])
    modifies kvs
    ensures w <= kvs.Length && StrictlySorted(kvs[..w])
    ensures MapOf(kvs[..w]) == MapOf(old(kvs[..]))
  {
    hide DedupTo, MapOf, Sorted, StrictlySorted;
    ghost var s, kept := kvs[..], [];
    w := 0;
    var r := 0;
    NothingKept(s);
    while r < kvs.Length
      invariant w <= r <= kvs.Length && |kept| == w
      invariant forall i | 0 <= i < w :: kvs[i] == kept[i]
      invariant forall i | r <= i < kvs.Length :: kvs[i] == s[i]
      invariant DedupTo(kept, s, r)
    {
      if r + 1 < kvs.Length && kvs[r].path == kvs[r + 1].path {
        SkipOne(kept, s, r);
      } else {
        KeepOne(kept, s, r);
        if w != r {
          kvs[w] := kvs[r];
        }
        w := w + 1;
        kept := kept + [s[r]];
      }
      r := r + 1;
    }
    AllKept(kept, s);
    assert kvs[..w] == kept;
  }

  // The loop of the pass with s[r..] still to come.
  ghost predicate DedupTo(kept: seq<KV>, s: seq<KV>, r: nat) {
    r <= |s| && Distinguished(kept, s[r..]) && MapOf(kept) + MapOf(s[r..]) == MapOf(s)
  }

  lemma NothingKept(s: seq<KV>)
    ensures DedupTo([], s, 0)
  {
    assert s[0..] == s;
  }

  lemma AllKept(kept: seq<KV>, s: seq<KV>)
    requires DedupTo(kept, s, |s|)
    ensures StrictlySorted(kept) && MapOf(kept) == MapOf(s)
  {
  }

  // kept is strictly sorted and before the first of what is still to come.
  ghost predicate Distinguished(kept: seq<KV>, rest: seq<KV>) {
    && StrictlySorted(kept)
    && (rest != [] ==> forall i | 0 <= i < |kept| :: Compare(kept[i].path, rest[0].path) < 0)
  }

  lemma DropFirst(s: seq<KV>, r: nat)
    requires r < |s|
    ensures MapOf(s[r..]) == map[s[r].path := s[r].value] + MapOf(s[r + 1..])
  {
    assert s[r..] == [s[r]] + s[r + 1..];
    MapOfConcat([s[r]], s[r + 1..]);
    MapOfOne(s[r]);
  }

  lemma MapOfOne(kv: KV)
    ensures MapOf([kv]) == map[kv.path := kv.value]
  {
    assert [kv][..0] == [];
  }

  lemma SkipOne(kept: seq<KV>, s: seq<KV>, r: nat)
    requires r + 1 < |s| && s[r].path == s[r + 1].path && DedupTo(kept, s, r)
    ensures DedupTo(kept, s, r + 1)
  {
    hide MapOf, Compare;
    DropFirst(s, r);
    MemberInMap(s[r + 1..], 0);
  }

  lemma KeepOne(kept: seq<KV>, s: seq<KV>, r: nat)
    requires r < |s| && Sorted(s) && DedupTo(kept, s, r)
    requires r + 1 < |s| ==> s[r].path != s[r + 1].path
    ensures DedupTo(kept + [s[r]], s, r + 1)
  {
    hide Compare, MapOf;
    DropFirst(s, r);
    MapOfConcat(kept, [s[r]]);
    MapOfOne(s[r]);
    if r + 1 < |s| {
      CompareTotal(s[r].path, s[r + 1].path);
      forall i | 0 <= i < |kept| ensures Compare(kept[i].path, s[r + 1].path) < 0 {
        CompareTransitive(kept[i].path, s[r].path, s[r + 1].path);
      }
    }
  }

  // sort.Search: a boundary of f, found by halving.
  method Search(n: nat, f: nat --> bool) returns (i: nat)
    requires forall k: nat | k < n :: f.requires(k)
    ensures i <= n && (i < n ==> f(i)) && (i > 0 ==> !f(i - 1))
  {
    i := 0;
    var j := n;
    while i < j
      invariant i <= j <= n && (j < n ==> f(j)) && (i > 0 ==> !f(i - 1))
    {
      var h := (i + j) / 2;
      if !f(h) {
        i := h + 1;
      } else {
        j := h;
      }
    }
  }

  // All entries take the same turns down to depth d.
  ghost predicate TogetherKVs(kvs: seq<KV>, d: nat)
    requires d <= Depth
  {
    forall i, j | 0 <= i < |kvs| && 0 <= j < |kvs| :: SameWay(kvs[i].path, kvs[j].path, d)
  }

  // partitionByBit: the exact boundary between the entries that turn left at depth d and those
  // that turn right. Sorting alone would not give one: the entries must share their first d bits.
  method PartitionByBit(kvs: seq<KV>, d: nat) returns (split: nat)
    requires d < Depth && Sorted(kvs) && TogetherKVs(kvs, d)
    ensures split <= |kvs|
    ensures forall i | 0 <= i < split :: !Right(kvs[i].path, d)
    ensures forall i | split <= i < |kvs| :: Right(kvs[i].path, d)
  {
    hide AgreeBelow, Compare;
    if |kvs| == 0 {
      return 0;
    }
    split := Search(|kvs|, (i: nat) requires i < |kvs| => Right(kvs[i].path, d));
    forall i | 0 <= i < split ensures !Right(kvs[i].path, d) {
      if i < split - 1 { TurnsMonotone(kvs, d, i, split - 1); }
    }
    forall i | split <= i < |kvs| ensures Right(kvs[i].path, d) {
      if i > split { TurnsMonotone(kvs, d, split, i); }
    }
  }

  // Two paths in byte order, the first of which turns right at depth 1 and the second left: they
  // part at depth 0, so nothing follows for depth 1.
  lemma SortedAloneIsNotEnough(p: Path, q: Path)
    requires p[0] == 0x40 && q[0] == 0x80
    ensures Sorted([KV(p, [1]), KV(q, [1])]) && !SameWay(p, q, 1)
    ensures Right(p, 1) && !Right(q, 1)
  {
    assert GetBitAtFromMSB(p, 0) == BitOfByte(p[0], 0) && GetBitAtFromMSB(q, 0) == BitOfByte(q[0], 0);
    assert GetBitAtFromMSB(p, 1) == BitOfByte(p[0], 1) && GetBitAtFromMSB(q, 1) == BitOfByte(q[0], 1);
  }

  lemma TurnsMonotone(kvs: seq<KV>, d: nat, i: nat, j: nat)
    requires d < Depth && Sorted(kvs) && TogetherKVs(kvs, d) && i < j < |kvs|
    ensures Right(kvs[i].path, d) ==> Right(kvs[j].path, d)
  {
    hide AgreeBelow, Compare, GetBitAtFromMSB;
    assert SameWay(kvs[i].path, kvs[j].path, d);
    BitMonotone(kvs[i].path, kvs[j].path, d);
  }

  // The two parts mean the two halves of the batch's map.
  lemma HalvesOfBatch(kvs: seq<KV>, d: nat, split: nat)
    requires d < Depth && split <= |kvs|
    requires forall i | 0 <= i < split :: !Right(kvs[i].path, d)
    requires forall i | split <= i < |kvs| :: Right(kvs[i].path, d)
    ensures MapOf(kvs) == MapOf(kvs[..split]) + MapOf(kvs[split..])
    ensures AllTurn(MapOf(kvs[..split]), d, false) && AllTurn(MapOf(kvs[split..]), d, true)
    ensures Half(MapOf(kvs), d, false) == MapOf(kvs[..split])
    ensures Half(MapOf(kvs), d, true) == MapOf(kvs[split..])
  {
    hide Right, MapOf;
    assert kvs == kvs[..split] + kvs[split..];
    MapOfConcat(kvs[..split], kvs[split..]);
    TurnsOfBatch(kvs[..split], d, false);
    TurnsOfBatch(kvs[split..], d, true);
  }

  lemma TurnsOfBatch(kvs: seq<KV>, d: nat, right: bool)
    requires d < Depth && forall i | 0 <= i < |kvs| :: Right(kvs[i].path, d) == right
    ensures AllTurn(MapOf(kvs), d, right)
  {
    hide Right;
    forall p | p in MapOf(kvs) ensures Right(p, d) == right {
      var i := MapOfMember(kvs, p);
    }
  }

  // ---- What a whole batch means ----

  // The batch as paired up by BulkUpdate and by a loop of Update calls.
  function Batch(keys: seq<Path>, values: seq<Bytes>): (batch: seq<KV>)
    requires |keys| == |values|
    ensures |batch| == |keys| && forall i | 0 <= i < |keys| :: batch[i] == KV(keys[i], values[i])
  {
    seq(|keys|, i requires 0 <= i < |keys| => KV(keys[i], values[i]))
  }

  // One Update per entry, in order; the empty value deletes.
  ghost function Iterated(m: Map, batch: seq<KV>): Map {
    if batch == [] then m
    else Write(Iterated(m, batch[..|batch| - 1]), batch[|batch| - 1].path, batch[|batch| - 1].value)
  }

  // BulkUpdate's two passes: first every delete of the batch, then every set.
  ghost function Deleted(m: Map, batch: seq<KV>): Map {
    if batch == [] then m
    else
      var x := batch[|batch| - 1];
      var n := Deleted(m, batch[..|batch| - 1]);
      if x.value == DefaultValue then n - {x.path} else n
  }

  ghost function Sets(batch: seq<KV>): seq<KV> {
    if batch == [] then []
    else
      var x := batch[|batch| - 1];
      var rest := Sets(batch[..|batch| - 1]);
      if x.value == DefaultValue then rest else rest + [x]
  }

  ghost function BulkMap(m: Map, batch: seq<KV>): Map {
    Deleted(m, batch) + MapOf(Sets(batch))
  }

  lemma {:induction false} SetsAreStorable(batch: seq<KV>)
    ensures Storable(MapOf(Sets(batch)))
  {
    if batch != [] {
      var x := batch[|batch| - 1];
      SetsAreStorable(batch[..|batch| - 1]);
      MapOfPush(Sets(batch[..|batch| - 1]), x);
    }
  }

  lemma {:induction false} DeletedShrinks(m: Map, batch: seq<KV>)
    ensures forall p :: p in Deleted(m, batch) ==> p in m && Deleted(m, batch)[p] == m[p]
  {
    if batch != [] { DeletedShrinks(m, batch[..|batch| - 1]); }
  }

  lemma BulkMapIsStorable(m: Map, batch: seq<KV>)
    requires Storable(m)
    ensures Storable(BulkMap(m, batch))
  {
    hide Sets, MapOf, Deleted;
    SetsAreStorable(batch);
    DeletedShrinks(m, batch);
  }

  lemma {:induction false} IteratedIsStorable(m: Map, batch: seq<KV>)
    requires Storable(m)
    ensures Storable(Iterated(m, batch))
  {
    if batch != [] { IteratedIsStorable(m, batch[..|batch| - 1]); }
  }

  // What a batched update leaves at p, told by the positions of the two lists: the last value set;
  // nothing if p is only deleted; and what was there if p is not mentioned.
  ghost predicate BulkedAt(keys: seq<Path>, values: seq<Bytes>, before: Map, after: Map, p: Path)
    requires |keys| == |values|
  {
    && (forall i | LastSetAt(keys, values, p, i) :: p in after && after[p] == values[i])
    && (p in keys && (forall i | 0 <= i < |keys| && keys[i] == p :: values[i] == []) ==> p !in after)
    && (p !in keys ==> (p in after <==> p in before) && (p in before ==> after[p] == before[p]))
  }

  ghost predicate LastSetAt(keys: seq<Path>, values: seq<Bytes>, p: Path, i: int)
    requires |keys| == |values|
  {
    && 0 <= i < |keys| && keys[i] == p && values[i] != []
    && forall j | i < j < |keys| && keys[j] == p :: values[j] == []
  }

  lemma BulkMapAt(keys: seq<Path>, values: seq<Bytes>, m: Map, p: Path)
    requires |keys| == |values|
    ensures BulkedAt(keys, values, m, BulkMap(m, Batch(keys, values)), p)
  {
    hide ValuesAt, LastSet, Deleted, Sets, MapOf, Batch;
    var batch := Batch(keys, values);
    var vs := ValuesAt(batch, p);
    DeletedAt(m, batch, p);
    SetsAt(batch, p);
    forall i | LastSetAt(keys, values, p, i)
      ensures p in BulkMap(m, batch) && BulkMap(m, batch)[p] == values[i]
    {
      LastSetByPosition(keys, values, p, i);
    }
    if p in keys && forall i | 0 <= i < |keys| && keys[i] == p :: values[i] == [] {
      OnlyDeleted(keys, values, p);
    }
    if p !in keys {
      NoValuesAt(batch, p);
      NothingSet();
    }
  }

  lemma NothingSet()
    ensures LastSet([]) == DefaultValue
  {
  }

  lemma OnlyDeleted(keys: seq<Path>, values: seq<Bytes>, p: Path)
    requires |keys| == |values| && p in keys
    requires forall i | 0 <= i < |keys| && keys[i] == p :: values[i] == []
    ensures var vs := ValuesAt(Batch(keys, values), p); DefaultValue in vs && LastSet(vs) == DefaultValue
  {
    hide ValuesAt, LastSet;
    var batch := Batch(keys, values);
    var vs := ValuesAt(batch, p);
    ValuesAtByPosition(batch, p);
    var i :| 0 <= i < |keys| && keys[i] == p;
    assert batch[i].path == p && batch[i].value in vs;
    forall k | 0 <= k < |vs| ensures vs[k] == DefaultValue {
      assert vs[k] in vs;
      var j :| 0 <= j < |batch| && batch[j] == KV(p, vs[k]);
    }
    LastSetIsDefault(vs);
  }

  // The values given to p are those at its positions.
  lemma {:induction false} ValuesAtByPosition(kvs: seq<KV>, p: Path)
    ensures forall i | 0 <= i < |kvs| && kvs[i].path == p :: kvs[i].value in ValuesAt(kvs, p)
    ensures forall v | v in ValuesAt(kvs, p) :: exists i :: 0 <= i < |kvs| && kvs[i] == KV(p, v)
  {
    if kvs != [] {
      var front := kvs[..|kvs| - 1];
      ValuesAtByPosition(front, p);
      forall v | v in ValuesAt(kvs, p) ensures exists i :: 0 <= i < |kvs| && kvs[i] == KV(p, v) {
        if v in ValuesAt(front, p) {
          var i :| 0 <= i < |front| && front[i] == KV(p, v);
          assert kvs[i] == KV(p, v);
        } else {
          assert kvs[|kvs| - 1] == KV(p, v);
        }
      }
    }
  }

  lemma {:induction false} LastSetByPosition(keys: seq<Path>, values: seq<Bytes>, p: Path, i: nat)
    requires |keys| == |values| && LastSetAt(keys, values, p, i)
    ensures LastSet(ValuesAt(Batch(keys, values), p)) == values[i]
    decreases |keys|
  {
    var n := |keys| - 1;
    var batch := Batch(keys, values);
    assert batch[..n] == Batch(keys[..n], values[..n]);
    var vs := ValuesAt(batch, p);
    if keys[n] == p {
      assert vs[..|vs| - 1] == ValuesAt(batch[..n], p) && vs[|vs| - 1] == values[n];
    } else {
      assert vs == ValuesAt(batch[..n], p);
    }
    if i < n { LastSetByPosition(keys[..n], values[..n], p, i); }
  }

  // ---- When a batch means what its entries mean one by one ----

  // p's last entry deletes it although an earlier one sets it.
  ghost predicate SetThenDeleted(batch: seq<KV>, p: Path) {
    var vs := ValuesAt(batch, p);
    vs != [] && vs[|vs| - 1] == DefaultValue && exists i :: 0 <= i < |vs| && vs[i] != DefaultValue
  }

  lemma SetThenDeletedOccurs(p: Path)
    ensures SetThenDeleted([KV(p, [1]), KV(p, DefaultValue)], p)
  {
    var batch := [KV(p, [1]), KV(p, DefaultValue)];
    assert batch[..1] == [KV(p, [1])] && batch[..1][..0] == [];
    assert ValuesAt(batch[..1][..0], p) == [];
    assert ValuesAt(batch[..1], p) == [[1]];
    assert ValuesAt(batch, p) == [[1], DefaultValue];
    assert ValuesAt(batch, p)[0] == [1];
  }

  // The last value set among vs, if any.
  ghost function LastSet(vs: seq<Bytes>): Bytes {
    if vs == [] then DefaultValue
    else if vs[|vs| - 1] != DefaultValue then vs[|vs| - 1]
    else LastSet(vs[..|vs| - 1])
  }

  lemma {:induction false} LastSetIsDefault(vs: seq<Bytes>)
    ensures LastSet(vs) == DefaultValue <==> forall i | 0 <= i < |vs| :: vs[i] == DefaultValue
  {
    if vs != [] && vs[|vs| - 1] == DefaultValue { LastSetIsDefault(vs[..|vs| - 1]); }
  }

  // What iterated updates leave at p.
  lemma {:induction false} IteratedAt(m: Map, batch: seq<KV>, p: Path)
    ensures var vs, n := ValuesAt(batch, p), Iterated(m, batch);
      if vs == [] then (p in n <==> p in m) && (p in m ==> n[p] == m[p])
      else if vs[|vs| - 1] == DefaultValue then p !in n
      else p in n && n[p] == vs[|vs| - 1]
  {
    if batch != [] { IteratedAt(m, batch[..|batch| - 1], p); }
  }

  // What the two passes leave at p.
  lemma {:induction false} DeletedAt(m: Map, batch: seq<KV>, p: Path)
    ensures var vs, n := ValuesAt(batch, p), Deleted(m, batch);
      if DefaultValue in vs then p !in n else (p in n <==> p in m) && (p in m ==> n[p] == m[p])
  {
    if batch != [] {
      DeletedAt(m, batch[..|batch| - 1], p);
      var x := batch[|batch| - 1];
      if x.path == p {
        assert x.value == ValuesAt(batch, p)[|ValuesAt(batch, p)| - 1];
      }
    }
  }

  lemma {:induction false} SetsAt(batch: seq<KV>, p: Path)
    ensures var v, n := LastSet(ValuesAt(batch, p)), MapOf(Sets(batch));
      (p in n <==> v != DefaultValue) && (p in n ==> n[p] == v)
  {
    if batch != [] {
      var x, front := batch[|batch| - 1], batch[..|batch| - 1];
      SetsAt(front, p);
      MapOfPush(Sets(front), x);
      var vs := ValuesAt(batch, p);
      if x.path == p {
        assert vs[|vs| - 1] == x.value && vs[..|vs| - 1] == ValuesAt(front, p);
      } else {
        assert vs == ValuesAt(front, p);
      }
    }
  }

  lemma MapOfPush(kvs: seq<KV>, x: KV)
    ensures MapOf(kvs + [x]) == MapOf(kvs)[x.path := x.value]
  {
    assert (kvs + [x])[..|kvs|] == kvs;
  }

  lemma BulkAt(m: Map, batch: seq<KV>, p: Path)
    ensures (p in BulkMap(m, batch) <==> p in Iterated(m, batch))
         && (p in BulkMap(m, batch) ==> BulkMap(m, batch)[p] == Iterated(m, batch)[p])
      <==> !SetThenDeleted(batch, p)
  {
    hide MapOf, Sets, Deleted, Iterated, ValuesAt;
    IteratedAt(m, batch, p);
    DeletedAt(m, batch, p);
    SetsAt(batch, p);
    var vs := ValuesAt(batch, p);
    LastSetIsDefault(vs);
    if vs != [] && vs[|vs| - 1] != DefaultValue {
      assert LastSet(vs) == vs[|vs| - 1];
    }
    if vs != [] && vs[|vs| - 1] == DefaultValue {
      assert vs[|vs| - 1] in vs;
    }
  }

  // One bulk update means the same as its entries one by one exactly when no path of the batch is
  // set and later deleted. This does not depend on the tree it is applied to.
  lemma BulkIsIteratedExactlyWhen(m: Map, batch: seq<KV>)
    ensures BulkMap(m, batch) == Iterated(m, batch) <==> forall p: Path :: !SetThenDeleted(batch, p)
  {
    hide BulkMap, Iterated, SetThenDeleted;
    forall p: Path ensures
      (p in BulkMap(m, batch) <==> p in Iterated(m, batch))
      && (p in BulkMap(m, batch) ==> BulkMap(m, batch)[p] == Iterated(m, batch)[p])
      <==> !SetThenDeleted(batch, p)
    {
      BulkAt(m, batch, p);
    }
  }
}
