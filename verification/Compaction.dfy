// Compact proofs (proofs.go): placeholders among the side nodes travel as bits of a mask.
module Compaction {
  import opened Utils
  import opened TreeHasher
  import opened Trees
  import opened States
  import opened Encoding
  import opened SymbolicProofs
  import opened Proofs

  datatype CompactByteProof = CompactByteProof(
    sideNodes: seq<Bytes>,
    nonMembershipLeafData: Option<Bytes>,
    bitMask: Bytes,
    numSideNodes: int,
    siblingData: Option<Bytes>)

  // Decompaction can also run off the end of the side nodes, which the program does not catch.
  datatype Decompacted = Ok(proof: ByteProof) | BadCompactProof | IndexOutOfRange

  function MaskLength(n: nat): nat {
    (n + 7) / 8
  }

  // The compact proof's own sanityCheck. With no side nodes declared, supplied ones go unchecked.
  predicate CompactSane(c: CompactByteProof) {
    && 0 <= c.numSideNodes <= PathSize * 8
    && |c.bitMask| == MaskLength(c.numSideNodes)
    && (c.numSideNodes > 0 ==> |c.sideNodes| == c.numSideNodes - SetBitsBelow(c.bitMask, 8 * |c.bitMask|))
  }

  method SanityCheck(c: CompactByteProof) returns (sane: bool)
    ensures sane == CompactSane(c)
    ensures sane <==>
      && 0 <= c.numSideNodes <= 8 * PathSize && c.numSideNodes <= 8 * |c.bitMask| < c.numSideNodes + 8
      && (c.numSideNodes > 0 ==>
            |c.sideNodes| + |set i | 0 <= i < 8 * |c.bitMask| && GetBitAtFromMSB(c.bitMask, i)| == c.numSideNodes)
  {
    SetBitsAreCounted(c.bitMask, 8 * |c.bitMask|);
    ShortestMask(c.numSideNodes, |c.bitMask|);
    hide MaskLength;
    if c.numSideNodes < 0 || c.numSideNodes > PathSize * 8 || |c.bitMask| != MaskLength(c.numSideNodes) {
      return false;
    }
    var setBits := CountSetBits(c.bitMask);
    return !(c.numSideNodes > 0 && |c.sideNodes| != c.numSideNodes - setBits);
  }

  // The mask is the shortest that has a bit for every side node.
  lemma ShortestMask(n: int, length: nat)
    ensures n >= 0 ==> (length == MaskLength(n) <==> n <= 8 * length < n + 8)
  {
  }

  // No mask bit is set beyond the declared side nodes.
  ghost predicate PaddingClear(mask: Bytes, n: nat) {
    forall i: nat | n <= i < 8 * |mask| :: !GetBitAtFromMSB(mask, i)
  }

  // The entries of s at the first n positions whose mask bit is clear.
  ghost function Kept(mask: Bytes, s: seq<Bytes>, n: nat): seq<Bytes>
    requires n <= |s| && n <= 8 * |mask|
  {
    if n == 0 then []
    else Kept(mask, s, n - 1) + (if GetBitAtFromMSB(mask, n - 1) then [] else [s[n - 1]])
  }

  lemma {:induction false} KeptLength(mask: Bytes, s: seq<Bytes>, n: nat)
    requires n <= |s| && n <= 8 * |mask|
    ensures |Kept(mask, s, n)| == n - SetBitsBelow(mask, n)
  {
    if n > 0 { KeptLength(mask, s, n - 1); }
  }

  lemma {:induction false} KeptOf(mask: Bytes, s: seq<Bytes>, mask': Bytes, s': seq<Bytes>, n: nat)
    requires n <= |s| && n <= |s'| && n <= 8 * |mask| && n <= 8 * |mask'|
    requires forall i: nat | i < n :: GetBitAtFromMSB(mask, i) == GetBitAtFromMSB(mask', i) && s[i] == s'[i]
    ensures Kept(mask, s, n) == Kept(mask', s', n)
  {
    if n > 0 { KeptOf(mask, s, mask', s', n - 1); }
  }

  // c is p with its placeholders turned into mask bits.
  ghost predicate IsCompactionOf(c: CompactByteProof, p: ByteProof) {
    && c.numSideNodes == |p.sideNodes| && |c.bitMask| == MaskLength(|p.sideNodes|)
    && (forall i: nat | i < |p.sideNodes| :: GetBitAtFromMSB(c.bitMask, i) == (p.sideNodes[i] == Placeholder()))
    && PaddingClear(c.bitMask, |p.sideNodes|)
    && c.sideNodes == Kept(c.bitMask, p.sideNodes, |p.sideNodes|)
    && c.nonMembershipLeafData == p.nonMembershipLeafData && c.siblingData == p.siblingData
  }

  // p is c with placeholders at the set mask bits and c's side nodes, each once and in order, at
  // the clear ones.
  ghost predicate IsExpansionOf(p: ByteProof, c: CompactByteProof) {
    && 0 <= c.numSideNodes == |p.sideNodes| <= 8 * |c.bitMask|
    && (forall i: nat | i < |p.sideNodes| :: GetBitAtFromMSB(c.bitMask, i) ==> p.sideNodes[i] == Placeholder())
    && (c.numSideNodes > 0 ==> Kept(c.bitMask, p.sideNodes, |p.sideNodes|) == c.sideNodes)
    && p.nonMembershipLeafData == c.nonMembershipLeafData && p.siblingData == c.siblingData
  }

  // What a compact proof has at position i: zeros at a set bit, and else the side node that comes
  // after as many as there are clear bits before.
  ghost predicate StandsAt(c: CompactByteProof, i: nat, side: Bytes) {
    && i < 8 * |c.bitMask|
    && if GetBitAtFromMSB(c.bitMask, i) then side == seq(PathSize, k => 0)
       else var k := i - SetBitsBelow(c.bitMask, i); k < |c.sideNodes| && side == c.sideNodes[k]
  }

  lemma {:induction false} KeptAt(mask: Bytes, s: seq<Bytes>, n: nat, i: nat)
    requires i < n <= |s| && n <= 8 * |mask| && !GetBitAtFromMSB(mask, i)
    ensures var k := i - SetBitsBelow(mask, i); k < |Kept(mask, s, n)| && Kept(mask, s, n)[k] == s[i]
  {
    hide GetBitAtFromMSB;
    KeptLength(mask, s, n - 1);
    if i < n - 1 { KeptAt(mask, s, n - 1, i); }
  }

  lemma ExpansionStands(q: ByteProof, c: CompactByteProof)
    requires IsExpansionOf(q, c)
    ensures forall i: nat | i < |q.sideNodes| :: StandsAt(c, i, q.sideNodes[i])
  {
    hide GetBitAtFromMSB, SetBitsBelow, Kept;
    ZerosArePlaceholder();
    forall i: nat | i < |q.sideNodes| ensures StandsAt(c, i, q.sideNodes[i]) {
      if !GetBitAtFromMSB(c.bitMask, i) { KeptAt(c.bitMask, q.sideNodes, |q.sideNodes|, i); }
    }
  }

  lemma CompactionStands(p: ByteProof, c: CompactByteProof)
    requires IsCompactionOf(c, p)
    ensures forall i: nat | i < |p.sideNodes| :: StandsAt(c, i, p.sideNodes[i])
  {
    hide GetBitAtFromMSB, SetBitsBelow, Kept;
    ZerosArePlaceholder();
    forall i: nat | i < |p.sideNodes| ensures StandsAt(c, i, p.sideNodes[i]) {
      if !GetBitAtFromMSB(c.bitMask, i) { KeptAt(c.bitMask, p.sideNodes, |p.sideNodes|, i); }
    }
  }

  lemma ZerosArePlaceholder()
    ensures Placeholder() == seq(PathSize, k => 0)
  {
  }

  // CompactProof
  method CompactProof(h: HashFunction, proof: ByteProof) returns (res: Result<CompactByteProof>)
    ensures res.Ok? <==> Sane(h, proof)
    ensures res.Ok? <==>
      && |proof.sideNodes| <= 8 * PathSize
      && (proof.nonMembershipLeafData.Some? ==> |proof.nonMembershipLeafData.value| == 1 + 2 * PathSize)
      && (forall i | 0 <= i < |proof.sideNodes| :: |proof.sideNodes[i]| == PathSize)
      && (proof.siblingData.Some? && proof.sideNodes != [] ==> h(proof.siblingData.value) == proof.sideNodes[0])
    ensures res.Err? ==> res.error == BadProof
    ensures res.Ok? ==> IsCompactionOf(res.value, proof) && CompactSane(res.value)
    ensures res.Ok? ==> |proof.sideNodes| <= 8 * |res.value.bitMask| < |proof.sideNodes| + 8
    ensures res.Ok? ==> forall i: nat | i < |proof.sideNodes| :: StandsAt(res.value, i, proof.sideNodes[i])
  {
    if !Sane(h, proof) {
      return Err(BadProof);
    }
    hide CompactedTo, PaddingClear, Kept, Sane, SetBitsBelow, MaskLength, StandsAt, IsCompactionOf, CompactSane;
    SaneLength(h, proof);
    var bitMask, compactedSideNodes := CompactSides(proof.sideNodes);
    res := Result.Ok(CompactByteProof(
      compactedSideNodes, proof.nonMembershipLeafData, bitMask, |proof.sideNodes|, proof.siblingData));
    AllCompacted(proof, res.value);
    CompactionStands(proof, res.value);
    ShortestMask(|proof.sideNodes|, |bitMask|);
  }

  // The loop of CompactProof.
  method CompactSides(sideNodes: seq<Bytes>) returns (mask: Bytes, compactedSideNodes: seq<Bytes>)
    ensures |mask| == MaskLength(|sideNodes|)
    ensures CompactedTo(mask, sideNodes, |sideNodes|, compactedSideNodes)
  {
    hide GetBitAtFromMSB, CompactedTo, PaddingClear, Kept, SetBitsBelow, MaskLength;
    var n := |sideNodes|;
    ShortestMask(n, MaskLength(n));
    var bitMask := new bv8[MaskLength(n)](i => 0);
    NoneCompacted(bitMask[..], sideNodes);
    compactedSideNodes := [];
    var i := 0;
    while i < n
      invariant i <= n && CompactedTo(bitMask[..], sideNodes, i, compactedSideNodes)
    {
      var node := sideNodes[i];
      ghost var before, kept := bitMask[..], compactedSideNodes;
      if node == Placeholder() {
        SetBitAtFromMSB(bitMask, i);
      } else {
        compactedSideNodes := compactedSideNodes + [node];
      }
      CompactOne(before, bitMask[..], sideNodes, i, kept, compactedSideNodes);
      i := i + 1;
    }
    return bitMask[..], compactedSideNodes;
  }

  lemma SaneLength(h: HashFunction, proof: ByteProof)
    requires Sane(h, proof)
    ensures |proof.sideNodes| <= PathSize * 8
  {
  }

  lemma NoneCompacted(mask: Bytes, s: seq<Bytes>)
    requires forall i | 0 <= i < |mask| :: mask[i] == 0
    ensures CompactedTo(mask, s, 0, [])
  {
    AllClear(mask);
  }

  lemma AllCompacted(p: ByteProof, c: CompactByteProof)
    requires c.numSideNodes == |p.sideNodes| <= PathSize * 8 && |c.bitMask| == MaskLength(|p.sideNodes|)
    requires CompactedTo(c.bitMask, p.sideNodes, |p.sideNodes|, c.sideNodes)
    requires c.nonMembershipLeafData == p.nonMembershipLeafData && c.siblingData == p.siblingData
    ensures IsCompactionOf(c, p) && CompactSane(c)
  {
    hide GetBitAtFromMSB;
    KeptLength(c.bitMask, p.sideNodes, |p.sideNodes|);
    SetBitsBelowPrefix(c.bitMask, |p.sideNodes|, 8 * |c.bitMask|);
  }

  // The loop of CompactProof after i side nodes.
  ghost predicate CompactedTo(mask: Bytes, s: seq<Bytes>, i: nat, kept: seq<Bytes>) {
    && i <= |s| && i <= 8 * |mask|
    && (forall j: nat | j < i :: GetBitAtFromMSB(mask, j) == (s[j] == Placeholder()))
    && PaddingClear(mask, i) && kept == Kept(mask, s, i)
  }

  lemma CompactOne(mask: Bytes, mask': Bytes, s: seq<Bytes>, i: nat, kept: seq<Bytes>, kept': seq<Bytes>)
    requires |mask| == |mask'| && i < |s| && i < 8 * |mask| && CompactedTo(mask, s, i, kept)
    requires s[i] == Placeholder() ==> kept' == kept
    requires s[i] == Placeholder() ==>
      forall j: nat | j < 8 * |mask| :: GetBitAtFromMSB(mask', j) == (j == i || GetBitAtFromMSB(mask, j))
    requires s[i] != Placeholder() ==> kept' == kept + [s[i]] && mask' == mask
    ensures CompactedTo(mask', s, i + 1, kept')
  {
    hide GetBitAtFromMSB;
    KeptOf(mask, s, mask', s, i);
  }

  lemma AllClear(mask: Bytes)
    requires forall i | 0 <= i < |mask| :: mask[i] == 0
    ensures PaddingClear(mask, 0)
  {
    forall i: nat | i < 8 * |mask| ensures !GetBitAtFromMSB(mask, i) {
      assert mask[i / 8] == 0;
    }
  }

  // DecompactProof: a proof that passes its check runs off its side nodes exactly when a
  // padding bit of its mask is set.
  method DecompactProof(c: CompactByteProof) returns (res: Decompacted)
    ensures res.BadCompactProof? <==> !CompactSane(c)
    ensures res.IndexOutOfRange? <==> CompactSane(c) && !PaddingClear(c.bitMask, c.numSideNodes)
    ensures res.Ok? ==> IsExpansionOf(res.proof, c)
    ensures res.Ok? ==> forall i: nat | i < |res.proof.sideNodes| :: StandsAt(c, i, res.proof.sideNodes[i])
  {
    var sane := SanityCheck(c);
    if !sane {
      return BadCompactProof;
    }
    var n: nat := c.numSideNodes;
    hide GetBitAtFromMSB, ExpandedTo, PaddingClear, Kept, SetBitsBelow, IsExpansionOf;
    NoneExpanded(c);
    var sideNodes := [];
    var position: nat := 0;
    var i: nat := 0;
    while i < n
      invariant i <= n && ExpandedTo(c, sideNodes, i, position)
    {
      ghost var before, at := sideNodes, position;
      if GetBitAtFromMSB(c.bitMask, i) {
        sideNodes := sideNodes + [Placeholder()];
      } else {
        if position >= |c.sideNodes| {
          ExpansionStuck(c, sideNodes, i, position);
          return IndexOutOfRange;
        }
        sideNodes := sideNodes + [c.sideNodes[position]];
        position := position + 1;
      }
      ExpandOne(c, before, i, at, sideNodes[i]);
      i := i + 1;
    }
    AllExpanded(c, sideNodes, position);
    ExpansionStands(ByteProof(sideNodes, c.nonMembershipLeafData, c.siblingData), c);
    return Decompacted.Ok(ByteProof(sideNodes, c.nonMembershipLeafData, c.siblingData));
  }

  // The loop of DecompactProof after i positions.
  ghost predicate ExpandedTo(c: CompactByteProof, s: seq<Bytes>, i: nat, position: nat) {
    && |s| == i <= 8 * |c.bitMask| && position == i - SetBitsBelow(c.bitMask, i) <= |c.sideNodes|
    && (forall j: nat | j < i :: GetBitAtFromMSB(c.bitMask, j) ==> s[j] == Placeholder())
    && Kept(c.bitMask, s, i) == c.sideNodes[..position]
  }

  lemma NoneExpanded(c: CompactByteProof)
    requires CompactSane(c)
    ensures ExpandedTo(c, [], 0, 0)
  {
  }

  // A clear bit with every side node used up: some padding bit was counted in their place.
  lemma ExpansionStuck(c: CompactByteProof, s: seq<Bytes>, i: nat, position: nat)
    requires CompactSane(c) && ExpandedTo(c, s, i, position) && i < c.numSideNodes
    requires !GetBitAtFromMSB(c.bitMask, i) && position >= |c.sideNodes|
    ensures !PaddingClear(c.bitMask, c.numSideNodes)
  {
    hide GetBitAtFromMSB;
    SetBitsBelowStep(c.bitMask, i + 1, c.numSideNodes);
    SetBitsBelowPrefix(c.bitMask, c.numSideNodes, 8 * |c.bitMask|);
  }

  lemma AllExpanded(c: CompactByteProof, s: seq<Bytes>, position: nat)
    requires CompactSane(c) && ExpandedTo(c, s, c.numSideNodes, position)
    ensures PaddingClear(c.bitMask, c.numSideNodes)
    ensures IsExpansionOf(ByteProof(s, c.nonMembershipLeafData, c.siblingData), c)
  {
    hide GetBitAtFromMSB;
    SetBitsBelowPrefix(c.bitMask, c.numSideNodes, 8 * |c.bitMask|);
  }

  lemma ExpandOne(c: CompactByteProof, s: seq<Bytes>, i: nat, position: nat, x: Bytes)
    requires ExpandedTo(c, s, i, position) && i < 8 * |c.bitMask|
    requires if GetBitAtFromMSB(c.bitMask, i) then x == Placeholder()
      else position < |c.sideNodes| && x == c.sideNodes[position]
    ensures ExpandedTo(c, s + [x], i + 1, if GetBitAtFromMSB(c.bitMask, i) then position else position + 1)
  {
    hide GetBitAtFromMSB;
    KeptOf(c.bitMask, s, c.bitMask, s + [x], i);
    assert position < |c.sideNodes| ==>
      c.sideNodes[..position + 1] == c.sideNodes[..position] + [c.sideNodes[position]];
  }

  lemma {:induction false} SetBitsBelowStep(mask: Bytes, m: nat, n: nat)
    requires m <= n <= 8 * |mask|
    ensures SetBitsBelow(mask, n) <= SetBitsBelow(mask, m) + (n - m)
  {
    if m < n { SetBitsBelowStep(mask, m, n - 1); }
  }

  // Equal kept sequences come from equal last entries and equal earlier ones.
  lemma KeptStep(mask: Bytes, s: seq<Bytes>, t: seq<Bytes>, n: nat)
    requires n < |s| && n < |t| && n < 8 * |mask|
    requires Kept(mask, s, n + 1) == Kept(mask, t, n + 1)
    ensures Kept(mask, s, n) == Kept(mask, t, n)
    ensures !GetBitAtFromMSB(mask, n) ==> s[n] == t[n]
  {
    hide GetBitAtFromMSB;
    KeptLength(mask, s, n);
    KeptLength(mask, t, n);
    var a, b := Kept(mask, s, n + 1), Kept(mask, t, n + 1);
    var k := |Kept(mask, s, n)|;
    assert a[..k] == Kept(mask, s, n) && b[..k] == Kept(mask, t, n);
    if !GetBitAtFromMSB(mask, n) {
      assert a[k] == s[n] && b[k] == t[n];
    }
  }

  // An expansion is determined by the mask and the supplied side nodes.
  lemma {:induction false} KeptDetermines(mask: Bytes, s: seq<Bytes>, t: seq<Bytes>, n: nat)
    requires n <= |s| && n <= |t| && n <= 8 * |mask|
    requires forall i: nat | i < n && GetBitAtFromMSB(mask, i) :: s[i] == t[i]
    requires Kept(mask, s, n) == Kept(mask, t, n)
    ensures s[..n] == t[..n]
  {
    hide GetBitAtFromMSB;
    if n > 0 {
      KeptStep(mask, s, t, n - 1);
      hide Kept;
      KeptDetermines(mask, s, t, n - 1);
      assert s[..n] == s[..n - 1] + [s[n - 1]] && t[..n] == t[..n - 1] + [t[n - 1]];
    }
  }

  // Nothing else is an expansion of c.
  lemma ExpansionUnique(c: CompactByteProof, p: ByteProof, q: ByteProof)
    requires IsExpansionOf(p, c) && IsExpansionOf(q, c)
    ensures p == q
  {
    hide GetBitAtFromMSB;
    var n := |p.sideNodes|;
    if n > 0 { KeptDetermines(c.bitMask, p.sideNodes, q.sideNodes, n); }
    assert p.sideNodes[..n] == p.sideNodes && q.sideNodes[..n] == q.sideNodes;
  }

  // Round trip: whatever decompaction makes of a compaction is the proof itself.
  lemma CompactionRoundTrip(p: ByteProof, c: CompactByteProof, q: ByteProof)
    requires IsCompactionOf(c, p) && IsExpansionOf(q, c)
    ensures q == p
  {
    hide GetBitAtFromMSB;
    KeptDetermines(c.bitMask, p.sideNodes, q.sideNodes, |p.sideNodes|);
    assert p.sideNodes[..|p.sideNodes|] == p.sideNodes && q.sideNodes[..|p.sideNodes|] == q.sideNodes;
  }

  // Proofs that hold of a tree also verify after compaction, under every hash function.
  lemma CompactedProofVerifies(h: HashFunction, proof: SparseMerkleProof, t: Digest, p: Path, v: Bytes,
                               c: CompactByteProof, q: ByteProof)
    requires Accepts(proof, t, p, v)
    requires IsCompactionOf(c, ProofBytes(h, proof)) && IsExpansionOf(q, c)
    ensures AcceptsBytes(h, q, DigestBytes(h, t), p, v)
  {
    hide Accepts, AcceptsBytes, IsCompactionOf, IsExpansionOf;
    AcceptedInBytes(h, proof, t, p, v);
    CompactionRoundTrip(ProofBytes(h, proof), c, q);
  }

  // The other way round: compacting an expansion gives back the compact proof exactly when the
  // mask says all there is to say: its padding is clear, no supplied side node is a placeholder,
  // and none is supplied where none is declared.
  lemma ExpansionRoundTrip(c: CompactByteProof, q: ByteProof, d: CompactByteProof)
    requires CompactSane(c) && PaddingClear(c.bitMask, c.numSideNodes)
    requires IsExpansionOf(q, c) && IsCompactionOf(d, q)
    ensures d == c <==> Placeholder() !in c.sideNodes && (c.numSideNodes == 0 ==> c.sideNodes == [])
  {
    hide GetBitAtFromMSB;
    var n := |q.sideNodes|;
    if Placeholder() !in c.sideNodes && (c.numSideNodes == 0 ==> c.sideNodes == []) {
      KeptMembers(c.bitMask, q.sideNodes, n);
      assert forall i: nat | i < n :: GetBitAtFromMSB(d.bitMask, i) == GetBitAtFromMSB(c.bitMask, i);
      BytesFromBits(d.bitMask, c.bitMask);
    }
    if d == c {
      KeptIsClear(c.bitMask, q.sideNodes, n);
    }
  }

  // A compact proof with a side node that it does not declare: no compaction of its expansion is it.
  lemma UndeclaredIsLost(x: Bytes, c: CompactByteProof, q: ByteProof, d: CompactByteProof)
    requires c == CompactByteProof([x], None, [], 0, None) && IsExpansionOf(q, c) && IsCompactionOf(d, q)
    ensures CompactSane(c) && PaddingClear(c.bitMask, c.numSideNodes) && d != c
  {
    hide GetBitAtFromMSB;
    ExpansionRoundTrip(c, q, d);
  }

  lemma {:induction false} KeptMembers(mask: Bytes, s: seq<Bytes>, n: nat)
    requires n <= |s| && n <= 8 * |mask|
    ensures forall i: nat | i < n && !GetBitAtFromMSB(mask, i) :: s[i] in Kept(mask, s, n)
  {
    hide GetBitAtFromMSB;
    if n > 0 {
      KeptMembers(mask, s, n - 1);
      forall i: nat | i < n && !GetBitAtFromMSB(mask, i) ensures s[i] in Kept(mask, s, n) {
        if i < n - 1 { assert s[i] in Kept(mask, s, n - 1); }
      }
    }
  }

  lemma {:induction false} KeptIsClear(mask: Bytes, s: seq<Bytes>, n: nat)
    requires n <= |s| && n <= 8 * |mask|
    ensures forall x | x in Kept(mask, s, n) :: exists i: nat :: i < n && !GetBitAtFromMSB(mask, i) && s[i] == x
  {
    hide GetBitAtFromMSB;
    if n > 0 { KeptIsClear(mask, s, n - 1); }
  }

  // What verifying a compact proof asks of it, whatever it was made by.
  ghost predicate AcceptsCompact(h: HashFunction, c: CompactByteProof, root: Bytes, path: Path, value: Bytes) {
    && CompactSane(c) && PaddingClear(c.bitMask, c.numSideNodes)
    && exists q :: IsExpansionOf(q, c) && AcceptsBytes(h, q, root, path, value)
  }

  // VerifyCompactProof; a decompaction that runs out of range gives no verdict.
  method VerifyCompactProof(h: HashFunction, c: CompactByteProof, root: Bytes, path: Path, value: Bytes)
    returns (verdict: Option<bool>)
    ensures verdict.None? <==> CompactSane(c) && !PaddingClear(c.bitMask, c.numSideNodes)
    ensures verdict.Some? ==> (verdict.value <==> AcceptsCompact(h, c, root, path, value))
    ensures forall p | Sane(h, p) && IsCompactionOf(c, p) && CompactSane(c) ::
      verdict == Some(AcceptsBytes(h, p, root, path, value))
  {
    hide GetBitAtFromMSB, AcceptsBytes, IsExpansionOf, IsCompactionOf, PaddingClear, CompactSane, Sane;
    var decompacted := DecompactProof(c);
    if decompacted.BadCompactProof? {
      return Some(false);
    }
    if decompacted.IndexOutOfRange? {
      NoCompactionOverruns(c);
      return None;
    }
    forall p | IsCompactionOf(c, p) ensures decompacted.proof == p {
      CompactionRoundTrip(p, c, decompacted.proof);
    }
    forall q | IsExpansionOf(q, c) ensures decompacted.proof == q {
      ExpansionUnique(c, decompacted.proof, q);
    }
    var result := VerifyProof(h, decompacted.proof, root, path, value);
    return Some(result);
  }

  lemma NoCompactionOverruns(c: CompactByteProof)
    ensures forall p | IsCompactionOf(c, p) :: PaddingClear(c.bitMask, c.numSideNodes)
  {
  }

  // Soundness or collision for arbitrary compact bytes: what verifies against the root of a map
  // claims what the map binds, or the audit of its only expansion breaks the hash.
  lemma VerifiedCompactIsTrueOrCollision(h: HashFunction, m: Map, c: CompactByteProof, p: Path, v: Bytes)
    returns (q: ByteProof)
    requires Storable(m) && AcceptsCompact(h, c, DigestBytes(h, RootOf(m)), p, v)
    ensures IsExpansionOf(q, c) && AcceptsBytes(h, q, DigestBytes(h, RootOf(m)), p, v)
    ensures var f := AuditProof(h, RootOf(m), q, p, v);
      Genuine(h, f) && (f.Sound? ==> v == Lookup(m, p))
  {
    hide AcceptsBytes, IsExpansionOf, AuditProof, Genuine, DigestBytes, RootOf;
    q :| IsExpansionOf(q, c) && AcceptsBytes(h, q, DigestBytes(h, RootOf(m)), p, v);
    VerifiedIsTrueOrCollision(h, m, q, p, v);
  }

  // A compact proof that passes its check and makes decompaction run out of range.
  lemma PaddingBitOverruns(c: CompactByteProof)
    requires c == CompactByteProof([], None, [0x40], 1, None)
    ensures CompactSane(c) && !PaddingClear(c.bitMask, c.numSideNodes)
  {
    var mask: Bytes := [0x40];
    assert forall i: nat | i < 8 :: GetBitAtFromMSB(mask, i) == BitOfByte(0x40, i);
    assert SetBitsBelow(mask, 0) == SetBitsBelow(mask, 1) == 0;
    SetBitsBelowPrefix(mask, 2, 8);
    assert GetBitAtFromMSB(mask, 1);
  }
}
