// A deep subtree beside the full tree, both over real bytes and any hash function.
module ByteRuns {
  import opened Utils
  import opened TreeHasher
  import opened Trees
  import opened Writes
  import opened States
  import opened Encoding
  import opened Proofs
  import opened ByteTrees
  import opened ByteSubtrees
  import opened ByteBulk

  datatype DeepCall =
    | DeepWrite(path: Path, value: Bytes)
    | Branch(proof: ByteProof, path: Path, value: Bytes)

  // What the calls do to the map of the full tree, which branches do not touch.
  ghost function MapAfterDeep(m: Map, call: DeepCall): Map {
    match call
    case DeepWrite(p, v) => Write(m, p, v)
    case Branch(_, _, _) => m
  }

  ghost function BesideMap(m: Map, calls: seq<DeepCall>): Map {
    if calls == [] then m else MapAfterDeep(BesideMap(m, calls[..|calls| - 1]), calls[|calls| - 1])
  }

  // The digests of every state that the full tree goes through.
  ghost function BesideDigests(m: Map, calls: seq<DeepCall>): set<Digest> {
    Digests(BesideMap(m, calls)) + if calls == [] then {} else BesideDigests(m, calls[..|calls| - 1])
  }

  // The first finding among the branches accepted on the way.
  ghost function AuditCall(h: HashFunction, m: Map, call: DeepCall): Finding {
    match call
    case DeepWrite(_, _) => Sound
    case Branch(proof, p, v) =>
      if AcceptsBytes(h, proof, DigestBytes(h, RootOf(m)), p, v) then AuditBranch(h, RootOf(m), proof, p, v) else Sound
  }

  ghost function AuditBeside(h: HashFunction, m: Map, calls: seq<DeepCall>): Finding {
    if calls == [] then Sound
    else
      var front := calls[..|calls| - 1];
      var f := AuditBeside(h, m, front);
      if f.Sound? then AuditCall(h, BesideMap(m, front), calls[|calls| - 1]) else f
  }

  // What one call leaves of the state that a deep subtree stands for; none if it returns an error.
  ghost function AfterDeepCall(h: HashFunction, s: State, call: DeepCall): Option<State> {
    match call
    case DeepWrite(p, v) => if Ready(s, p, v) then Some(AfterWrite(s, p, v)) else None
    case Branch(proof, p, v) =>
      if AcceptsBytes(h, proof, DigestBytes(h, s.root), p, v) then
        Some(State(
          Store(s.nodes.Keys + BranchDigests(s.root, proof, p)),
          if v == DefaultValue then s.values else s.values[p := v],
          s.root))
      else None
  }

  ghost function AfterDeepCalls(h: HashFunction, s: State, calls: seq<DeepCall>): Option<State> {
    if calls == [] then Some(s)
    else
      var r := AfterDeepCalls(h, s, calls[..|calls| - 1]);
      if r.None? then None else AfterDeepCall(h, r.value, calls[|calls| - 1])
  }

  // ---- The calls on the two objects ----

  // A new deep subtree under the full tree's root.
  method NewBeside(full: ByteTree, ghost u: set<Digest>) returns (deep: ByteTree)
    requires full.Valid() && Free(full.h, u) && Digests(full.values) <= u
    ensures fresh(deep) && deep.h == full.h && deep.Simulates(u) && deep.tree == full.tree
  {
    hide Canonical, Bindings, Canon, Reach, Free;
    RootIsCanonical(full.values);
    deep := new ByteTree.Deep(full.h, full.root, full.tree);
    assert Store({}) == map[];
  }

  method StepBeside(deep: ByteTree, full: ByteTree, call: DeepCall, ghost u: set<Digest>) returns (ok: bool)
    requires deep != full && deep.h == full.h && full.Valid() && deep.Simulates(u) && deep.tree == full.tree
    requires Free(full.h, u) && Digests(full.values) + Digests(MapAfterDeep(full.values, call)) <= u
    requires AuditCall(full.h, full.values, call).Sound?
    modifies deep, full
    ensures full.Valid() && full.values == if ok then MapAfterDeep(old(full.values), call) else old(full.values)
    ensures ok ==> deep.Simulates(u) && deep.tree == full.tree
    ensures ok <==> AfterDeepCall(full.h, old(deep.Symbolic()), call).Some?
    ensures ok ==> AfterDeepCall(full.h, old(deep.Symbolic()), call) == Some(deep.Symbolic())
  {
    hide Free, Canonical, Bindings, Reach, IsImage, Mirrors, Partial, AuditBranch, AcceptsBytes, Ready, AfterWrite;
    hide BranchDigests, Store, RootOf, DigestBytes, ByteSubtrees.AfterBranch;
    RootIsCanonical(full.values);
    KeysOfSymbolic(deep, u);
    match call {
      case DeepWrite(p, v) =>
        var written := deep.Update(p, v, u);
        if written.Err? {
          return false;
        }
        AfterWriteRoot(old(deep.Symbolic()), p, v);
        UpdateComplete(full, p, v, u);
      case Branch(proof, p, v) =>
        var added := ByteSubtrees.AddBranch(deep, proof, p, v, u);
        if added.Err? {
          return false;
        }
        BranchValues(deep.h, ByteState(old(deep.nodes), old(deep.values)), proof, deep.root, p, v);
    }
    return true;
  }

  lemma KeysOfSymbolic(t: ByteTree, u: set<Digest>)
    requires t.Simulates(u)
    ensures t.Symbolic().nodes.Keys == t.keys && t.Symbolic().root == t.tree
  {
    hide Partial;
    KeysHashed(t.h, t.nodes, t.keys, u);
    StoreKeys(t.keys);
  }

  lemma AfterWriteRoot(s: State, p: Path, v: Bytes)
    ensures AfterWrite(s, p, v).root == RootOf(Write(Bindings(s.root), p, v))
  {
  }

  lemma BranchValues(h: HashFunction, s: ByteState, proof: ByteProof, root: Bytes, p: Path, v: Bytes)
    requires AcceptsBytes(h, proof, root, p, v)
    ensures ByteSubtrees.AfterBranch(h, s, proof, p, v).values ==
      if v == DefaultValue then s.values else s.values[p := v]
  {
  }

  lemma {:induction false} DeepCallsStop(h: HashFunction, s: State, calls: seq<DeepCall>, i: nat)
    requires i <= |calls| && AfterDeepCalls(h, s, calls[..i]).None?
    ensures AfterDeepCalls(h, s, calls).None?
    decreases |calls|
  {
    if i < |calls| {
      assert calls[..|calls| - 1][..i] == calls[..i];
      DeepCallsStop(h, s, calls[..|calls| - 1], i);
    } else {
      assert calls[..i] == calls;
    }
  }

  lemma {:induction false} BesideAt(h: HashFunction, m: Map, calls: seq<DeepCall>, i: nat)
    requires i < |calls|
    ensures Digests(BesideMap(m, calls[..i])) + Digests(BesideMap(m, calls[..i + 1])) <= BesideDigests(m, calls)
    ensures AuditBeside(h, m, calls).Sound? ==> AuditCall(h, BesideMap(m, calls[..i]), calls[i]).Sound?
    decreases |calls|
  {
    hide Digests, AuditCall, MapAfterDeep;
    if i < |calls| - 1 {
      var front := calls[..|calls| - 1];
      assert front[..i] == calls[..i] && front[..i + 1] == calls[..i + 1];
      BesideAt(h, m, front, i);
    } else {
      assert calls[..i + 1] == calls;
      AllBeside(m, calls[..i]);
    }
  }

  lemma AllBeside(m: Map, calls: seq<DeepCall>)
    ensures Digests(BesideMap(m, calls)) <= BesideDigests(m, calls)
  {
  }

  // A deep subtree beside the full tree, over bytes: as long as the digests that the full tree goes
  // through stay apart and every accepted branch is sound, an error-free run of branches and writes
  // leaves the subtree's stores an image of a part of the full tree, with the same root, so that
  // every descent answers as the full tree does. A call fails exactly when the state that the
  // subtree stands for lacks what the call needs.
  method RunBesideBytes(deep: ByteTree, full: ByteTree, calls: seq<DeepCall>) returns (ok: bool)
    requires deep != full && deep.h == full.h && full.Valid() && deep.tree == full.tree
    requires deep.Simulates(BesideDigests(full.values, calls))
    requires AuditBeside(full.h, full.values, calls).Sound?
    modifies deep, full
    ensures full.Valid()
    ensures ok <==> AfterDeepCalls(full.h, old(deep.Symbolic()), calls).Some?
    ensures ok ==> AfterDeepCalls(full.h, old(deep.Symbolic()), calls) == Some(deep.Symbolic())
    ensures ok ==> full.values == BesideMap(old(full.values), calls)
    ensures ok ==> deep.root == full.root && PartOfTree(deep.h, RootOf(full.values), Contents(deep))
    ensures ok ==> forall p: Path :: AuditDescent(deep.h, RootOf(full.values), deep.nodes, p, 0).Sound?
  {
    hide Free, Canonical, Bindings, Reach, IsImage, Mirrors, Partial, AuditCall, AfterDeepCall, MapAfterDeep, RootOf;
    hide BesideDigests, Digests, DigestBytes, PartOfTree, AuditDescent;
    ghost var m, s, u := full.values, deep.Symbolic(), BesideDigests(full.values, calls);
    SimulatesFree(deep, u);
    var i := 0;
    while i < |calls|
      invariant i <= |calls| && full.Valid() && deep.Simulates(u) && deep.tree == full.tree
      invariant full.values == BesideMap(m, calls[..i])
      invariant AfterDeepCalls(full.h, s, calls[..i]) == Some(deep.Symbolic())
    {
      assert calls[..i + 1][..i] == calls[..i];
      BesideAt(full.h, m, calls, i);
      ok := StepBeside(deep, full, calls[i], u);
      if !ok {
        DeepCallsStop(full.h, s, calls, i + 1);
        return;
      }
      i := i + 1;
    }
    assert calls[..i] == calls;
    ImageAnswers(deep, u);
    return true;
  }

  lemma SimulatesFree(t: ByteTree, u: set<Digest>)
    requires t.Simulates(u)
    ensures Free(t.h, u)
  {
    hide Partial, Free;
  }

  lemma ImageAnswers(t: ByteTree, u: set<Digest>)
    requires t.Simulates(u)
    ensures PartOfTree(t.h, t.tree, Contents(t))
    ensures forall p: Path :: AuditDescent(t.h, t.tree, t.nodes, p, 0).Sound?
  {
    hide Canonical, Bindings, Reach, Mirrors, PartOfTree, AuditDescent, DigestBytes;
    ImageIsPart(t.h, Contents(t), t.keys, t.tree, u);
    PartialRoot(t.Symbolic());
    forall p: Path ensures AuditDescent(t.h, t.tree, t.nodes, p, 0).Sound? {
      ImageDescends(t.h, t.nodes, t.keys, u, t.tree, p, 0);
    }
  }

  // ---- When a branch is not sound, or digests coincide ----

  lemma {:induction false} BesideMapIsStorable(m: Map, calls: seq<DeepCall>)
    requires Storable(m)
    ensures Storable(BesideMap(m, calls))
  {
    if calls != [] { BesideMapIsStorable(m, calls[..|calls| - 1]); }
  }

  // Whatever an accepted branch of the run is found not to be sound by breaks the hash.
  lemma {:induction false} AuditBesideFinds(h: HashFunction, m: Map, calls: seq<DeepCall>)
    requires Storable(m)
    ensures Genuine(h, AuditBeside(h, m, calls))
  {
    hide AuditBranch, AcceptsBytes, Storable, RootOf;
    if calls != [] {
      var front, call := calls[..|calls| - 1], calls[|calls| - 1];
      AuditBesideFinds(h, m, front);
      BesideMapIsStorable(m, front);
      var n := BesideMap(m, front);
      if call.Branch? && AcceptsBytes(h, call.proof, DigestBytes(h, RootOf(n)), call.path, call.value) {
        BranchIsPartOrCollision(h, n, ByteState(map[], map[]), call.proof, call.path, call.value);
      }
    }
  }

  lemma {:induction false} BesideDigestsInTrees(m: Map, calls: seq<DeepCall>)
    requires Storable(m)
    ensures InTrees(BesideDigests(m, calls)) && Zero in BesideDigests(m, calls)
  {
    hide Canonical, InTrees, RootOf, Reach, Storable;
    BesideMapIsStorable(m, calls);
    DigestsInTrees(BesideMap(m, calls));
    if calls != [] {
      BesideDigestsInTrees(m, calls[..|calls| - 1]);
      BothInTrees(Digests(BesideMap(m, calls)), BesideDigests(m, calls[..|calls| - 1]));
    } else {
      assert BesideDigests(m, calls) == Digests(BesideMap(m, calls));
    }
  }

  // Either no two digests of the run coincide under the hash function, or there are two that do, and
  // following these two down gives a collision or a preimage of the placeholder.
  lemma BesideIsImageOrCollision(h: HashFunction, m: Map, calls: seq<DeepCall>) returns (x: Digest, y: Digest)
    requires Storable(m)
    ensures var u := BesideDigests(m, calls);
      && x in u && y in u && DigestBytes(h, x) == DigestBytes(h, y) && (x == y <==> Free(h, u))
    ensures Genuine(h, Differ(h, x, y)) && (Differ(h, x, y).Sound? <==> x == y)
  {
    hide BesideDigests, Differ, InTrees;
    BesideDigestsInTrees(m, calls);
    x, y := FreeOrDiffer(h, BesideDigests(m, calls));
  }
}
