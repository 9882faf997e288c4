// Whole runs: what any sequence of calls leaves behind. RunCalls, RunDeep and the methods after
// them make the calls on tree objects; the functions say what a run means and the lemmas what
// follows from that.
module Runs {
  import opened Utils
  import opened TreeHasher
  import opened Trees
  import opened Writes
  import opened States
  import opened SymbolicProofs
  import opened SparseMerkleTrees
  import opened Batches
  import Bulk
  import DeepSubtrees

  // ---- A complete tree ----

  // One call: Update (Delete is Update with the empty value) or BulkUpdate.
  datatype Call = Update(path: Path, value: Bytes) | BulkUpdate(batch: seq<KV>)

  ghost function AfterCall(s: State, call: Call): State {
    match call
    case Update(p, v) => AfterWrite(s, p, v)
    case BulkUpdate(batch) => StateOf(BulkMap(s.values, batch))
  }

  ghost function AfterCalls(s: State, calls: seq<Call>): State {
    if calls == [] then s else AfterCall(AfterCalls(s, calls[..|calls| - 1]), calls[|calls| - 1])
  }

  // The map the same calls leave.
  ghost function MapAfterCall(m: Map, call: Call): Map {
    match call
    case Update(p, v) => Write(m, p, v)
    case BulkUpdate(batch) => BulkMap(m, batch)
  }

  ghost function MapAfter(m: Map, calls: seq<Call>): Map {
    if calls == [] then m else MapAfterCall(MapAfter(m, calls[..|calls| - 1]), calls[|calls| - 1])
  }

  // Store exactness: after every run of calls the stores are those of the current map, node for
  // node and value for value; on the way no write lacks a node or a value it needs.
  lemma {:induction false} RunIsExact(m: Map, calls: seq<Call>)
    requires Storable(m)
    ensures Storable(MapAfter(m, calls)) && AfterCalls(StateOf(m), calls) == StateOf(MapAfter(m, calls))
    ensures forall p: Path, v: Bytes :: Ready(AfterCalls(StateOf(m), calls), p, v)
  {
    hide StateOf, AfterWrite, Ready, Write, BulkMap;
    if calls != [] {
      var front, call := calls[..|calls| - 1], calls[|calls| - 1];
      RunIsExact(m, front);
      match call {
        case Update(p, v) => AfterWriteIsExact(MapAfter(m, front), p, v);
        case BulkUpdate(batch) =>
          BulkMapIsStorable(MapAfter(m, front), batch);
          assert StateOf(MapAfter(m, front)).values == MapAfter(m, front) by { StateOfFields(MapAfter(m, front)); }
      }
    }
    forall p: Path, v: Bytes ensures Ready(StateOf(MapAfter(m, calls)), p, v) {
      AfterWriteIsExact(MapAfter(m, calls), p, v);
    }
  }

  // The calls themselves: each succeeds and returns the root of the state it leaves.
  method RunCalls(t: SparseMerkleTree, calls: seq<Call>) returns (results: seq<Result<Digest>>)
    requires Exact(t.Contents())
    modifies t
    ensures Exact(t.Contents()) && t.Contents() == AfterCalls(old(t.Contents()), calls)
    ensures t.values == MapAfter(old(t.values), calls)
    ensures |results| == |calls|
    ensures forall i | 0 <= i < |calls| :: results[i] == Ok(AfterCalls(old(t.Contents()), calls[..i + 1]).root)
  {
    hide Exact, StateOf, AfterCall, MapAfterCall;
    results := [];
    var i := 0;
    while i < |calls|
      invariant i <= |calls| && Exact(t.Contents())
      invariant t.Contents() == AfterCalls(old(t.Contents()), calls[..i])
      invariant t.values == MapAfter(old(t.values), calls[..i])
      invariant |results| == i
      invariant forall j | 0 <= j < i :: results[j] == Ok(AfterCalls(old(t.Contents()), calls[..j + 1]).root)
    {
      assert calls[..i + 1][..i] == calls[..i];
      var result := MakeCall(t, calls[i]);
      results := results + [result];
      i := i + 1;
    }
    assert calls[..i] == calls;
  }

  method MakeCall(t: SparseMerkleTree, call: Call) returns (result: Result<Digest>)
    requires Exact(t.Contents())
    modifies t
    ensures Exact(t.Contents()) && t.Contents() == AfterCall(old(t.Contents()), call)
    ensures t.values == MapAfterCall(old(t.values), call) && result == Ok(t.root)
  {
    hide Exact, Partial, StateOf, AfterWrite, Ready, Write, BulkMap;
    ExactIsItsMap(t.Contents());
    ghost var m := t.values;
    match call {
      case Update(p, v) =>
        result := t.Update(p, v);
        StateOfFields(Write(m, p, v));
      case BulkUpdate(batch) =>
        PairedUp(batch);
        result := Bulk.BulkUpdate(t, PathsOf(batch), ValuesOf(batch));
        StateOfFields(BulkMap(m, batch));
    }
  }

  // A batch as the two argument lists of BulkUpdate.
  function PathsOf(batch: seq<KV>): (r: seq<Path>)
    ensures |r| == |batch|
  {
    seq(|batch|, i requires 0 <= i < |batch| => batch[i].path)
  }

  function ValuesOf(batch: seq<KV>): (r: seq<Bytes>)
    ensures |r| == |batch|
  {
    seq(|batch|, i requires 0 <= i < |batch| => batch[i].value)
  }

  lemma PairedUp(batch: seq<KV>)
    ensures Batch(PathsOf(batch), ValuesOf(batch)) == batch
  {
  }

  // History independence: two runs end with the same root exactly when they end with the same map,
  // and then with the same stores.
  lemma HistoryIndependence(m: Map, n: Map, some: seq<Call>, others: seq<Call>)
    requires Storable(m) && Storable(n)
    ensures var s, t := AfterCalls(StateOf(m), some), AfterCalls(StateOf(n), others);
      && (s.root == t.root <==> MapAfter(m, some) == MapAfter(n, others))
      && (s.root == t.root ==> s == t)
  {
    hide StateOf, AfterCalls, MapAfter, RootOf;
    RunIsExact(m, some);
    RunIsExact(n, others);
    StateOfFields(MapAfter(m, some));
    StateOfFields(MapAfter(n, others));
    RootDeterminesMap(MapAfter(m, some), MapAfter(n, others));
  }

  // Setting a fresh path and deleting it restores the whole state.
  lemma InsertThenDeleteRestores(m: Map, p: Path, v: Bytes)
    requires Storable(m) && p !in m && v != DefaultValue
    ensures AfterWrite(AfterWrite(StateOf(m), p, v), p, DefaultValue) == StateOf(m)
  {
    hide StateOf, AfterWrite, Ready;
    AfterWriteIsExact(m, p, v);
    AfterWriteIsExact(m[p := v], p, DefaultValue);
    assert m[p := v] - {p} == m;
  }

  // The two calls on a tree.
  method InsertThenDelete(t: SparseMerkleTree, p: Path, v: Bytes)
    requires Exact(t.Contents()) && p !in t.values && v != DefaultValue
    modifies t
    ensures t.Contents() == old(t.Contents())
  {
    hide Exact, StateOf, AfterWrite, Ready;
    ExactIsItsMap(t.Contents());
    InsertThenDeleteRestores(t.values, p, v);
    var inserted := t.Update(p, v);
    assert inserted.Ok?;
    var deleted := t.Delete(p);
    assert deleted.Ok?;
  }

  // The calls Update(p, v) for a batch, in order.
  ghost function OneByOne(batch: seq<KV>): (calls: seq<Call>)
    ensures |calls| == |batch|
  {
    seq(|batch|, i requires 0 <= i < |batch| => Update(batch[i].path, batch[i].value))
  }

  lemma {:induction false} OneByOneIsIterated(m: Map, batch: seq<KV>)
    ensures MapAfter(m, OneByOne(batch)) == Iterated(m, batch)
  {
    if batch != [] {
      var front := batch[..|batch| - 1];
      OneByOneIsIterated(m, front);
      assert OneByOne(batch)[..|batch| - 1] == OneByOne(front);
    }
  }

  // BulkUpdate against a loop of Update calls: same root, same nodes and same values, exactly when
  // no path of the batch is set and later deleted; otherwise even the roots differ.
  lemma BulkAgainstOneByOne(m: Map, batch: seq<KV>)
    requires Storable(m)
    ensures var bulk := AfterCalls(StateOf(m), [BulkUpdate(batch)]);
      var single := AfterCalls(StateOf(m), OneByOne(batch));
      && (bulk == single <==> forall p: Path :: !SetThenDeleted(batch, p))
      && (bulk.root == single.root <==> forall p: Path :: !SetThenDeleted(batch, p))
  {
    hide StateOf, AfterCalls, BulkMap, Iterated, SetThenDeleted, RootOf;
    HistoryIndependence(m, m, [BulkUpdate(batch)], OneByOne(batch));
    OneByOneIsIterated(m, batch);
    BulkIsIteratedExactlyWhen(m, batch);
    assert [BulkUpdate(batch)][..0] == [];
    assert MapAfter(m, [BulkUpdate(batch)]) == BulkMap(m, batch);
  }

  // The two ways on two trees in one state.
  method BulkBesideOneByOne(bulk: SparseMerkleTree, single: SparseMerkleTree, keys: seq<Path>, values: seq<Bytes>)
    requires bulk != single && Exact(bulk.Contents()) && single.Contents() == bulk.Contents()
    requires |keys| == |values|
    modifies bulk, single
    ensures var same := forall p: Path :: !SetThenDeleted(Batch(keys, values), p);
      && (bulk.Contents() == single.Contents() <==> same)
      && (bulk.root == single.root <==> same)
  {
    hide Exact, StateOf, AfterCalls, SetThenDeleted, Batch;
    ghost var m, batch := bulk.values, Batch(keys, values);
    ExactIsItsMap(bulk.Contents());
    BulkAgainstOneByOne(m, batch);
    OneBulkCall(m, batch);
    var updated := Bulk.BulkUpdate(bulk, keys, values);
    UpdateEach(single, keys, values);
  }

  lemma OneBulkCall(m: Map, batch: seq<KV>)
    requires Storable(m)
    ensures AfterCalls(StateOf(m), [BulkUpdate(batch)]) == StateOf(BulkMap(m, batch))
  {
    hide StateOf, BulkMap;
    StateOfFields(m);
    assert [BulkUpdate(batch)][..0] == [];
  }

  // A loop of Update calls.
  method UpdateEach(t: SparseMerkleTree, keys: seq<Path>, values: seq<Bytes>)
    requires Exact(t.Contents()) && |keys| == |values|
    modifies t
    ensures Exact(t.Contents())
    ensures t.Contents() == AfterCalls(old(t.Contents()), OneByOne(Batch(keys, values)))
  {
    hide Exact, Partial, StateOf, AfterWrite, Ready;
    ghost var calls := OneByOne(Batch(keys, values));
    var i := 0;
    while i < |keys|
      invariant i <= |keys| && Exact(t.Contents())
      invariant t.Contents() == AfterCalls(old(t.Contents()), calls[..i])
    {
      assert calls[..i + 1][..i] == calls[..i];
      ExactIsItsMap(t.Contents());
      var updated := t.Update(keys[i], values[i]);
      assert updated.Ok?;
      i := i + 1;
    }
    assert calls[..i] == calls;
  }

  // An input on which the two ways part: a path set and then deleted stays set in bulk.
  lemma SetThenDeletedParts(m: Map, p: Path)
    requires Storable(m)
    ensures var batch := [KV(p, [1]), KV(p, DefaultValue)];
      && SetThenDeleted(batch, p)
      && AfterCalls(StateOf(m), [BulkUpdate(batch)]).root != AfterCalls(StateOf(m), OneByOne(batch)).root
  {
    hide StateOf, AfterCalls, OneByOne, SetThenDeleted;
    SetThenDeletedOccurs(p);
    BulkAgainstOneByOne(m, [KV(p, [1]), KV(p, DefaultValue)]);
  }

  // An input on which UpdateForRoot is wrong: the caller of a new tree keeps the roots itself, and
  // the second set of one value gives back the root of the empty tree.
  method SetTwiceForRoot(p: Path) returns (first: Digest, second: Digest)
    ensures first == RootOf(map[p := [1]]) && second == RootOf(map[]) == Zero
  {
    hide StateOf, AfterWrite, Ready, Partial, Exact, RootOf;
    var t := new SparseMerkleTree();
    NewTreeWrites(p, [1]);
    var r := t.UpdateForRoot(p, [1], t.root);
    first := r.value;
    assert t.ContentsAt(first) == StateOf(map[p := [1]]);
    var s := t.UpdateForRoot(p, [1], first);
    second := s.value;
  }

  lemma NewTreeWrites(p: Path, v: Bytes)
    requires v != DefaultValue
    ensures var s, u := StateOf(map[]), StateOf(map[p := v]);
      && s.root == RootOf(map[]) == Zero && u.root == RootOf(map[p := v])
      && Partial(s) && Ready(s, p, v) && !Binds(s.root, p, v) && AfterWrite(s, p, v) == u
      && Partial(u) && Ready(u, p, v) && Binds(u.root, p, v)
  {
    hide Partial, Ready, AfterWrite, Canonical, Bindings;
    var m: Map := map[];
    assert m[p := v] == map[p := v];
    AfterWriteIsExact(m, p, v);
    AfterWriteIsExact(m[p := v], p, v);
    ExactIsItsMapOf(m);
    ExactIsItsMapOf(m[p := v]);
  }

  lemma ExactIsItsMapOf(m: Map)
    requires Storable(m)
    ensures Partial(StateOf(m)) && Bindings(StateOf(m).root) == m && StateOf(m).root == RootOf(m)
  {
    hide Partial, RootOf;
    ExactStateOf(m);
    ExactIsItsMap(StateOf(m));
    RootIsCanonical(m);
  }

  // ---- A deep subtree beside the full tree ----

  datatype DeepCall =
    | DeepUpdate(path: Path, value: Bytes)
    | AddBranch(proof: SparseMerkleProof, path: Path, value: Bytes)

  // A run of calls on a deep subtree; none once a call has returned an error.
  ghost function DeepRun(s: State, calls: seq<DeepCall>): Option<State> {
    if calls == [] then Some(s)
    else
      var r := DeepRun(s, calls[..|calls| - 1]);
      if r.None? then None
      else
        match calls[|calls| - 1]
        case DeepUpdate(p, v) => if Ready(r.value, p, v) then Some(AfterWrite(r.value, p, v)) else None
        case AddBranch(proof, p, v) =>
          if Accepts(proof, r.value.root, p, v) then Some(DeepSubtrees.AfterBranch(r.value, proof, p, v)) else None
  }

  lemma {:induction false} DeepRunStops(s: State, calls: seq<DeepCall>, i: nat)
    requires i <= |calls| && DeepRun(s, calls[..i]).None?
    ensures DeepRun(s, calls).None?
    decreases |calls|
  {
    if i < |calls| {
      assert calls[..|calls| - 1][..i] == calls[..i];
      DeepRunStops(s, calls[..|calls| - 1], i);
    } else {
      assert calls[..i] == calls;
    }
  }

  // The calls themselves, up to the first that returns an error.
  method RunDeep(t: SparseMerkleTree, calls: seq<DeepCall>) returns (ok: bool)
    requires Partial(t.Contents())
    modifies t
    ensures ok <==> DeepRun(old(t.Contents()), calls).Some?
    ensures ok ==> DeepRun(old(t.Contents()), calls) == Some(t.Contents()) && Partial(t.Contents())
    ensures ok ==> forall i | 0 <= i < |calls| && calls[i].AddBranch? :: Known(t.Contents(), calls[i].path)
  {
    hide Partial, Exact, Ready, AfterWrite, Accepts, DeepSubtrees.AfterBranch, StateOf, Write;
    var i := 0;
    while i < |calls|
      invariant i <= |calls| && Partial(t.Contents())
      invariant DeepRun(old(t.Contents()), calls[..i]) == Some(t.Contents())
    {
      assert calls[..i + 1][..i] == calls[..i];
      ok := DeepStep(t, calls[i]);
      if !ok {
        DeepRunStops(old(t.Contents()), calls, i + 1);
        return;
      }
      i := i + 1;
    }
    assert calls[..i] == calls;
    forall i | 0 <= i < |calls| && calls[i].AddBranch? ensures Known(t.Contents(), calls[i].path) {
      BranchesStayKnown(old(t.Contents()), calls, i);
    }
    return true;
  }

  method DeepStep(t: SparseMerkleTree, call: DeepCall) returns (ok: bool)
    requires Partial(t.Contents())
    modifies t
    ensures ok <==> old(
      match call
      case DeepUpdate(p, v) => Ready(t.Contents(), p, v)
      case AddBranch(proof, p, v) => Accepts(proof, t.root, p, v))
    ensures ok ==> Partial(t.Contents())
    ensures ok ==> t.Contents() == old(
      match call
      case DeepUpdate(p, v) => AfterWrite(t.Contents(), p, v)
      case AddBranch(proof, p, v) => DeepSubtrees.AfterBranch(t.Contents(), proof, p, v))
  {
    hide Partial, Exact, Ready, AfterWrite, Accepts, DeepSubtrees.AfterBranch, StateOf, Write;
    match call {
      case DeepUpdate(p, v) =>
        var updated := t.Update(p, v);
        ok := updated.Ok?;
      case AddBranch(proof, p, v) =>
        var added := DeepSubtrees.AddBranch(t, proof, p, v);
        ok := added.Ok?;
    }
  }

  // Nothing that a branch or a write told is ever lost: after an error-free run every branch's path
  // is known, so that descents toward it answer and sets of it go through.
  lemma {:induction false} BranchesStayKnown(s: State, calls: seq<DeepCall>, i: nat)
    requires Partial(s) && DeepRun(s, calls).Some? && i < |calls| && calls[i].AddBranch?
    ensures Partial(DeepRun(s, calls).value) && Known(DeepRun(s, calls).value, calls[i].path)
    ensures forall w | w != [] :: Ready(DeepRun(s, calls).value, calls[i].path, w)
    decreases |calls|
  {
    hide Partial, Ready, AfterWrite, Accepts, DeepSubtrees.AfterBranch, Known;
    var front, call := calls[..|calls| - 1], calls[|calls| - 1];
    DeepRunIsPartial(s, front);
    DeepRunIsPartial(s, calls);
    var before := DeepRun(s, front).value;
    if i < |front| {
      BranchesStayKnown(s, front, i);
      match call {
        case DeepUpdate(p, v) => WriteKeepsKnown(before, p, v, calls[i].path);
        case AddBranch(proof, p, v) => DeepSubtrees.BranchKeepsReady(before, proof, p, v);
      }
    } else {
      DeepSubtrees.BranchKeepsReady(before, call.proof, call.path, call.value);
    }
    KnownIsReady(DeepRun(s, calls).value, calls[i].path);
  }

  lemma {:induction false} DeepRunIsPartial(s: State, calls: seq<DeepCall>)
    requires Partial(s) && DeepRun(s, calls).Some?
    ensures Partial(DeepRun(s, calls).value)
  {
    hide Partial, Ready, AfterWrite, Accepts, DeepSubtrees.AfterBranch;
    if calls != [] {
      var front, call := calls[..|calls| - 1], calls[|calls| - 1];
      DeepRunIsPartial(s, front);
      match call {
        case DeepUpdate(p, v) => AfterWriteIsPartial(DeepRun(s, front).value, p, v);
        case AddBranch(proof, p, v) => DeepSubtrees.AfterBranchIsPartial(DeepRun(s, front).value, proof, p, v);
      }
    }
  }

  // The same writes on the full tree, which adding branches does not touch.
  function FullCalls(calls: seq<DeepCall>): seq<Call> {
    if calls == [] then []
    else
      FullCalls(calls[..|calls| - 1]) +
      (match calls[|calls| - 1]
       case DeepUpdate(p, v) => [Update(p, v)]
       case AddBranch(_, _, _) => [])
  }

  lemma FreshDeepSubtree(m: Map)
    requires Storable(m)
    ensures PartOf(State(map[], map[], RootOf(m)), m)
  {
  }

  // One updatable proof for one write, call by call: the full tree proves, a new deep subtree takes
  // the proof as its only branch, and both write.
  method WriteThroughOneProof(full: SparseMerkleTree, p: Path, v: Bytes) returns (deep: SparseMerkleTree)
    requires Exact(full.Contents())
    modifies full
    ensures Exact(full.Contents()) && full.values == Write(old(full.values), p, v)
    ensures fresh(deep) && deep.root == full.root
    ensures PartOf(deep.Contents(), full.values)
  {
    hide Partial, Exact, PartOf, Ready, AfterWrite, Accepts, DeepSubtrees.AfterBranch, StateOf, Write, Bindings, RootOf;
    ghost var m := full.values;
    ExactIsItsMap(full.Contents());
    ExactIsItsMapOf(m);
    FreshDeepSubtree(m);
    var proof := full.Prove(p, true);
    var value := full.Get(p);
    DeepSubtrees.UpdatableBranchSuffices(m, proof.value, p, v);
    deep := new SparseMerkleTree.Deep(full.root);
    PartialIsPartOf(deep.Contents());
    var added := DeepSubtrees.AddBranch(deep, proof.value, p, value.value);
    assert added.Ok?;
    PartOfAfterBranch(State(map[], map[], RootOf(m)), m, proof.value, p, value.value);
    ghost var branched := deep.Contents();
    var deepUpdated := deep.Update(p, v);
    assert deepUpdated.Ok?;
    PartOfAfterWrite(branched, m, p, v);
    StateOfFields(Write(m, p, v));
    var updated := full.Update(p, v);
    assert updated.Ok?;
  }

  // A deep subtree never knows anything that the full tree does not, whatever branches it is given
  // and whatever error-free writes both go through; in particular the roots stay equal.
  lemma {:induction false} DeepSubtreeTracksFullTree(s: State, m: Map, calls: seq<DeepCall>)
    requires PartOf(s, m) && DeepRun(s, calls).Some?
    ensures PartOf(DeepRun(s, calls).value, MapAfter(m, FullCalls(calls)))
    ensures DeepRun(s, calls).value.root == AfterCalls(StateOf(m), FullCalls(calls)).root
  {
    hide PartOf, Ready, AfterWrite, Accepts, DeepSubtrees.AfterBranch, RootOf, StateOf;
    if calls != [] {
      var front, call := calls[..|calls| - 1], calls[|calls| - 1];
      DeepSubtreeTracksFullTree(s, m, front);
      match call {
        case DeepUpdate(p, v) => PartOfAfterWrite(DeepRun(s, front).value, MapAfter(m, FullCalls(front)), p, v);
          assert (FullCalls(front) + [Update(p, v)])[..|FullCalls(front)|] == FullCalls(front);
        case AddBranch(proof, p, v) =>
          PartOfAfterBranch(DeepRun(s, front).value, MapAfter(m, FullCalls(front)), proof, p, v);
          assert FullCalls(calls) == FullCalls(front);
      }
    }
    PartOfStorable(s, m);
    RunIsExact(m, FullCalls(calls));
    StateOfFields(MapAfter(m, FullCalls(calls)));
    PartOfStorable(DeepRun(s, calls).value, MapAfter(m, FullCalls(calls)));
  }

  // Both trees, call by call: as long as the deep subtree returns no error it stays a part of the
  // full tree, so that it has the same root and binds the same map.
  method RunBeside(deep: SparseMerkleTree, full: SparseMerkleTree, calls: seq<DeepCall>) returns (ok: bool)
    requires deep != full && Exact(full.Contents()) && PartOf(deep.Contents(), full.values)
    modifies deep, full
    ensures Exact(full.Contents())
    ensures ok <==> DeepRun(old(deep.Contents()), calls).Some?
    ensures ok ==> full.values == MapAfter(old(full.values), FullCalls(calls))
    ensures ok ==> PartOf(deep.Contents(), full.values) && deep.root == full.root
    ensures ok ==> Partial(deep.Contents()) && Bindings(deep.root) == full.values
  {
    hide Partial, Exact, PartOf, Ready, AfterWrite, Accepts, StateOf, MapAfter, DeepRun, Bindings;
    ghost var s, m := deep.Contents(), full.values;
    PartialIsPartOf(s);
    ok := RunDeep(deep, calls);
    if ok {
      var results := RunCalls(full, FullCalls(calls));
      DeepSubtreeTracksFullTree(s, m, calls);
      ExactIsItsMap(full.Contents());
      PartOfStorable(deep.Contents(), full.values);
      PartialIsPartOf(deep.Contents());
    }
  }

  lemma PartOfStorable(s: State, m: Map)
    requires PartOf(s, m)
    ensures Storable(m) && s.root == RootOf(m)
  {
  }

  lemma PartOfAfterWrite(s: State, m: Map, p: Path, v: Bytes)
    requires PartOf(s, m)
    ensures PartOf(AfterWrite(s, p, v), Write(m, p, v))
  {
    hide PartOf, Partial, AfterWrite;
    PartialIsPartOf(s);
    AfterWriteIsPartial(s, p, v);
    PartialIsPartOf(AfterWrite(s, p, v));
  }

  lemma PartOfAfterBranch(s: State, m: Map, proof: SparseMerkleProof, p: Path, v: Bytes)
    requires PartOf(s, m) && Accepts(proof, s.root, p, v)
    ensures PartOf(DeepSubtrees.AfterBranch(s, proof, p, v), m)
  {
    hide PartOf, Partial, Accepts;
    PartialIsPartOf(s);
    DeepSubtrees.AfterBranchIsPartial(s, proof, p, v);
    PartialIsPartOf(DeepSubtrees.AfterBranch(s, proof, p, v));
  }
}
