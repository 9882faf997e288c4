// The slab-backed store (mapstore_arena.go): values are appended to shared byte buffers, and the
// map holds where they lie.
module Arena {
  import opened Utils
  import opened States

  // A key of toFixedKey: exactly 32 bytes; the program panics on any other length.
  type FixedKey = k: Bytes | |k| == 32 ghost witness seq(32, i => 0)

  // toFixedKey; none where it panics.
  method ToFixedKey(key: Bytes) returns (k: Option<FixedKey>)
    ensures k.Some? <==> |key| == 32
    ensures k.Some? ==> k.value == key
  {
    if |key| != 32 {
      return None;
    }
    return Some(key);
  }

  const Uint32: nat := 0x1_0000_0000

  // A []byte: a backing buffer, whose length is the capacity, and how much of it is in use.
  datatype Slab = Slab(buf: array<bv8>, len: nat)

  datatype ArenaEntry = ArenaEntry(slab: nat, off: nat, ln: nat)

  // The sub-slice Get hands out: it aliases the slab.
  datatype View = View(buf: array<bv8>, off: nat, ln: nat)

  // e.off + e.ln, as a 32-bit sum.
  function End(e: ArenaEntry): nat {
    (e.off + e.ln) % Uint32
  }

  lemma EndInBytes(written: seq<Bytes>, e: ArenaEntry)
    requires InBytes(written, e)
    ensures End(e) == e.off + e.ln
  {
  }

  datatype Fetched = Found(view: View) | Missing | SliceOutOfRange

  function BytesOf(v: View): Bytes
    requires v.off + v.ln <= v.buf.Length
    reads v.buf
  {
    v.buf[v.off..v.off + v.ln]
  }

  // What the entries show of the written bytes.
  ghost function Shown(m: map<FixedKey, ArenaEntry>, written: seq<Bytes>): map<FixedKey, Bytes> {
    map k | k in m :: Piece(written, m[k])
  }

  ghost function Piece(written: seq<Bytes>, e: ArenaEntry): Bytes {
    if InBytes(written, e) then written[e.slab][e.off..e.off + e.ln] else []
  }

  // The end of the range is a 32-bit sum, so it must not wrap around either.
  ghost predicate InBytes(written: seq<Bytes>, e: ArenaEntry) {
    e.slab < |written| && e.off + e.ln <= |written[e.slab]| && e.off + e.ln < Uint32
  }

  ghost predicate AllInBytes(written: seq<Bytes>, m: map<FixedKey, ArenaEntry>) {
    forall k | k in m :: InBytes(written, m[k])
  }

  // Every slab still starts with what it held, and new slabs come after the old ones.
  ghost predicate Extends(later: seq<Bytes>, before: seq<Bytes>) {
    |before| <= |later| && forall i | 0 <= i < |before| :: before[i] <= later[i]
  }

  lemma ExtendsTwice(a: seq<Bytes>, b: seq<Bytes>, c: seq<Bytes>)
    requires Extends(b, a) && Extends(c, b)
    ensures Extends(c, a)
  {
  }

  lemma ExtendsItself(a: seq<Bytes>)
    ensures Extends(a, a)
  {
  }

  lemma PrefixSlice(p: Bytes, q: Bytes, a: nat, b: nat)
    requires p <= q && a <= b <= |p|
    ensures q[a..b] == p[a..b]
  {
  }

  // Growing slabs shows the same through the old entries.
  lemma ShownExtends(m: map<FixedKey, ArenaEntry>, before: seq<Bytes>, later: seq<Bytes>)
    requires Extends(later, before) && AllInBytes(before, m)
    ensures Shown(m, later) == Shown(m, before) && AllInBytes(later, m)
  {
    forall k | k in m ensures Shown(m, later)[k] == Shown(m, before)[k] && InBytes(later, m[k]) {
      var e := m[k];
      PrefixSlice(before[e.slab], later[e.slab], e.off, e.off + e.ln);
    }
  }

  ghost predicate Shows(written: seq<Bytes>, e: ArenaEntry, value: Bytes) {
    InBytes(written, e) && Piece(written, e) == value
  }

  // The last slab ends with the value.
  ghost predicate EndsWith(written: seq<Bytes>, value: Bytes) {
    && written != [] && |value| <= |written[|written| - 1]|
    && written[|written| - 1][|written[|written| - 1]| - |value|..] == value
  }

  // The entry of a value just appended, as three 32-bit fields.
  function EntryOf(slab: nat, off: nat, ln: nat): ArenaEntry {
    ArenaEntry(slab % Uint32, off % Uint32, ln % Uint32)
  }

  ghost function EntryAtEnd(written: seq<Bytes>, value: Bytes): ArenaEntry
    requires EndsWith(written, value)
  {
    EntryOf(|written| - 1, |written[|written| - 1]| - |value|, |value|)
  }

  // Whether a value appended to the last of these slabs can be found again. The range must end
  // below 2^32; and a slab number or offset from 2^32 on is cut off, so that the entry names an
  // older place, which must happen to hold the same bytes.
  ghost predicate Lands(before: seq<Bytes>, value: Bytes) {
    && before != []
    && var k := |before| - 1; var e := EntryOf(k, |before[k]|, |value|);
    && |value| < Uint32 && e.off + |value| < Uint32
    && ((k < Uint32 && |before[k]| < Uint32) || Shows(before, e, value))
  }

  // While slab number and offset are not cut off, all that matters is the end of the range.
  lemma LandsByItsEnd(before: seq<Bytes>, value: Bytes)
    requires before != [] && |before| <= Uint32 && |before[|before| - 1]| < Uint32
    ensures Lands(before, value) <==> |before[|before| - 1]| + |value| < Uint32
  {
  }

  // Slab number, offset and length may each fit in 32 bits and the end still wrap around.
  lemma EachFitsIsNotEnough(before: seq<Bytes>, value: Bytes)
    requires |before| == 1 && |before[0]| == Uint32 - 10 && |value| == 20
    ensures EntryOf(0, |before[0]|, |value|) == ArenaEntry(0, |before[0]|, |value|) && !Lands(before, value)
  {
  }

  // The appended value lies at the end of the last slab, and the entry made for it shows it exactly
  // when it lands.
  lemma Appended(before: seq<Bytes>, value: Bytes, later: seq<Bytes>)
    requires before != [] && later == before[|before| - 1 := before[|before| - 1] + value]
    ensures Extends(later, before) && EndsWith(later, value)
    ensures EntryAtEnd(later, value) == EntryOf(|before| - 1, |before[|before| - 1]|, |value|)
    ensures Shows(later, EntryAtEnd(later, value), value) <==> Lands(before, value)
  {
    var k := |before| - 1;
    assert (before[k] + value)[|before[k]|..] == value;
    if |value| >= Uint32 {
      TooLong(before, value, later);
    } else if k < Uint32 && |before[k]| < Uint32 {
      NotCutOff(before, value, later);
    } else {
      CutOff(before, value, later);
    }
  }

  // Whether the entry made for an appended value shows it, in the three cases.
  lemma TooLong(before: seq<Bytes>, value: Bytes, later: seq<Bytes>)
    requires before != [] && |value| >= Uint32
    ensures !Shows(later, EntryOf(|before| - 1, |before[|before| - 1]|, |value|), value) && !Lands(before, value)
  {
  }

  lemma NotCutOff(before: seq<Bytes>, value: Bytes, later: seq<Bytes>)
    requires before != [] && later == before[|before| - 1 := before[|before| - 1] + value] && |value| < Uint32
    requires |before| <= Uint32 && |before[|before| - 1]| < Uint32
    ensures Shows(later, EntryOf(|before| - 1, |before[|before| - 1]|, |value|), value) <==> Lands(before, value)
  {
    var last := before[|before| - 1];
    InFull(|before| - 1, |last|, |value|);
    hide EntryOf;
    assert (last + value)[|last|..|last| + |value|] == value;
  }

  lemma InFull(slab: nat, off: nat, ln: nat)
    requires slab < Uint32 && off < Uint32 && ln < Uint32
    ensures EntryOf(slab, off, ln) == ArenaEntry(slab, off, ln)
  {
  }

  // What is cut off names a place among the older bytes.
  lemma CutOff(before: seq<Bytes>, value: Bytes, later: seq<Bytes>)
    requires before != [] && later == before[|before| - 1 := before[|before| - 1] + value] && |value| < Uint32
    requires |before| > Uint32 || |before[|before| - 1]| >= Uint32
    ensures Shows(later, EntryOf(|before| - 1, |before[|before| - 1]|, |value|), value) <==> Lands(before, value)
  {
    var k := |before| - 1;
    var last, e := before[k], EntryOf(k, |before[k]|, |value|);
    Older(k, |last|, |value|);
    hide EntryOf;
    if e.slab == k && e.off + e.ln <= |last| {
      assert (last + value)[e.off..e.off + e.ln] == last[e.off..e.off + e.ln];
    }
  }

  lemma Older(slab: nat, off: nat, ln: nat)
    requires ln < Uint32 && (slab >= Uint32 || off >= Uint32)
    ensures var e := EntryOf(slab, off, ln);
      e.ln == ln && e.slab <= slab && (e.slab < slab || e.off + Uint32 <= off)
  {
  }

  // Changing one entry gives the map with that key set exactly when the entry shows the value.
  lemma ShownPut(m: map<FixedKey, ArenaEntry>, key: FixedKey, e: ArenaEntry, value: Bytes, written: seq<Bytes>)
    requires AllInBytes(written, m)
    ensures AllInBytes(written, m[key := e]) && Shown(m[key := e], written) == Shown(m, written)[key := value]
      <==> Shows(written, e, value)
  {
    hide Piece, InBytes;
    var n := m[key := e];
    if AllInBytes(written, n) && Shown(n, written) == Shown(m, written)[key := value] {
      assert key in n && InBytes(written, n[key]) && Shown(n, written)[key] == Piece(written, e);
    }
  }

  lemma ShownDelete(m: map<FixedKey, ArenaEntry>, key: FixedKey, written: seq<Bytes>)
    requires AllInBytes(written, m)
    ensures Shown(m - {key}, written) == Shown(m, written) - {key} && AllInBytes(written, m - {key})
    ensures key in Shown(m, written) <==> key in m
  {
    hide Piece, InBytes;
  }

  class ArenaFixedSizeMap {
    var m: map<FixedKey, ArenaEntry>
    var slabs: seq<Slab>
    var cur: Option<Slab>
    const slabSize: nat

    ghost function Buffers(): set<array<bv8>>
      reads this`slabs
    {
      set i | 0 <= i < |slabs| :: slabs[i].buf
    }

    // What every slab holds so far.
    ghost var written: seq<Bytes>

    ghost predicate Valid()
      reads this, Buffers()
    {
      LaidOut() && AllInBytes(written, m)
    }

    // The slabs are distinct buffers holding what was written, and cur is the last one.
    ghost predicate LaidOut()
      reads this`slabs, this`cur, this`written, Buffers()
    {
      && cur == (if slabs == [] then None else Some(slabs[|slabs| - 1]))
      && |written| == |slabs|
      && (forall i | 0 <= i < |slabs| ::
            slabs[i].len <= slabs[i].buf.Length && written[i] == slabs[i].buf[..slabs[i].len])
      && (forall i, j | 0 <= i < j < |slabs| :: slabs[i].buf != slabs[j].buf)
    }

    // The map the arena stands for.
    ghost function Contents(): map<FixedKey, Bytes>
      reads this
    {
      Shown(m, written)
    }

    // NewArenaFixedSizeMapWithSlabSize
    constructor (slabSize: int)
      ensures Valid() && Contents() == map[] && slabs == []
      ensures this.slabSize == if slabSize < 64 then 64 else slabSize
    {
      this.slabSize := if slabSize < 64 then 64 else slabSize;
      m, slabs, cur, written := map[], [], None, [];
    }

    // What Go allows of slabs[e.slab][e.off : e.off+e.ln].
    predicate Sliceable(e: ArenaEntry)
      reads this`slabs
    {
      e.slab < |slabs| && e.off <= End(e) <= slabs[e.slab].buf.Length
    }

    // Get, whatever the entries are; on a valid arena it never panics, and shows the map's bytes.
    method Get(key: FixedKey) returns (res: Fetched)
      requires LaidOut()
      ensures res.Missing? <==> key !in m
      ensures res.SliceOutOfRange? <==> key in m && !Sliceable(m[key])
      ensures res.Found? ==> var e := m[key];
        res.view == View(slabs[e.slab].buf, e.off, End(e) - e.off)
      ensures Valid() ==> (res.Found? <==> key in Contents()) && !res.SliceOutOfRange?
      ensures Valid() && res.Found? ==> Handed(res.view) && BytesOf(res.view) == Contents()[key]
    {
      hide End, AllInBytes, LaidOut;
      if key in m {
        if Valid() { ValidEntry(key); }
        var e := m[key];
        var end := End(e);
        if e.slab >= |slabs| || e.off > end || end > slabs[e.slab].buf.Length {
          return SliceOutOfRange;
        }
        return Found(View(slabs[e.slab].buf, e.off, end - e.off));
      }
      return Missing;
    }

    // On a valid arena an entry's range is in the written part of its slab, and its end is no less
    // than its offset.
    lemma ValidEntry(key: FixedKey)
      requires Valid() && key in m
      ensures var e := m[key];
        && Sliceable(e)
        && Handed(View(slabs[e.slab].buf, e.off, End(e) - e.off))
        && BytesOf(View(slabs[e.slab].buf, e.off, End(e) - e.off)) == Contents()[key]
    {
      var e := m[key];
      EndInBytes(written, e);
      hide End;
      var slab := slabs[e.slab];
      assert slab.buf[..slab.len][e.off..End(e)] == slab.buf[e.off..End(e)];
    }

    // v lies in a part of a slab that has been written.
    ghost predicate Handed(v: View)
      reads this
    {
      exists i :: 0 <= i < |slabs| && slabs[i].buf == v.buf && v.off + v.ln <= slabs[i].len <= v.buf.Length
    }

    function Used(): nat
      reads this`cur
    {
      if cur.None? then 0 else cur.value.len
    }

    function Capacity(): nat
      reads this`cur
    {
      if cur.None? then 0 else cur.value.buf.Length
    }

    // Whether the value must open a slab.
    predicate Rolls(value: Bytes)
      reads this`cur
    {
      if cur.None? then value != [] else cur.value.len + |value| > cur.value.buf.Length
    }

    // The slabs a value is appended to, the last one fresh if it must open one.
    ghost function Opened(value: Bytes): seq<Bytes>
      reads this`cur, this`written
    {
      if Rolls(value) then written + [[]] else written
    }

    // A value that Set does not panic on and whose slab number and range end fit in 32 bits.
    predicate Fits(value: Bytes)
      reads this`cur, this`slabs
    {
      if Rolls(value) then |slabs| < Uint32 && |value| < Uint32
      else cur.Some? && |slabs| <= Uint32 && cur.value.len + |value| < Uint32
    }

    // A value that fits lands; and as long as slab number and offset are not cut off, no other does.
    lemma FitsIsLands(value: Bytes)
      requires LaidOut() && (value != [] || slabs != [])
      ensures Fits(value) ==> Lands(Opened(value), value)
      ensures |Opened(value)| <= Uint32 && (Rolls(value) || cur.value.len < Uint32) ==>
        (Lands(Opened(value), value) <==> Fits(value))
    {
      hide Lands;
      var before := Opened(value);
      assert |before[|before| - 1]| == if Rolls(value) then 0 else cur.value.len;
      if |before| <= Uint32 && |before[|before| - 1]| < Uint32 { LandsByItsEnd(before, value); }
    }

    lemma SmallLands(value: Bytes)
      requires LaidOut()
      ensures (value != [] || slabs != []) && |slabs| < 0x1_0000_0000 && Used() + |value| < 0x1_0000_0000 ==>
        Lands(Opened(value), value)
    {
      if value != [] || slabs != [] { FitsIsLands(value); }
    }

    // Set: panics for the empty value while there is no slab. Otherwise the value is appended and
    // the key's entry points at it, in three 32-bit fields. The arena is then the map with the key
    // set exactly when the value lands. No byte ever written changes.
    method Set(key: FixedKey, value: Bytes) returns (panicked: bool)
      requires Valid()
      modifies this, Buffers()
      ensures panicked <==> value == [] && old(slabs) == []
      ensures panicked ==> m == old(m) && slabs == old(slabs) && cur == old(cur) && written == old(written)
      ensures LaidOut() && forall i | |old(slabs)| <= i < |slabs| :: fresh(slabs[i].buf)
      ensures Extends(written, old(written))
      ensures |slabs| >= |old(slabs)| && forall i | 0 <= i < |old(slabs)| :: slabs[i].buf == old(slabs)[i].buf
      ensures !panicked ==> var o := old(Opened(value));
        o != [] && written == o[|o| - 1 := o[|o| - 1] + value]
      ensures !panicked ==> EndsWith(written, value) && m == old(m)[key := EntryAtEnd(written, value)]
      ensures !panicked ==>
        (Valid() && Contents() == old(Contents())[key := value] <==> old(Lands(Opened(value), value)))
      // In numbers: the entry's three fields, and what fits in 32 bits.
      ensures !panicked ==> |slabs| > 0 && key in m && m[key] == ArenaEntry(
        (|slabs| - 1) % 0x1_0000_0000,
        (if |slabs| > |old(slabs)| then 0 else old(Used())) % 0x1_0000_0000,
        |value| % 0x1_0000_0000)
      ensures !panicked && old(|slabs|) < 0x1_0000_0000 && old(Used()) + |value| < 0x1_0000_0000 ==>
        Valid() && Contents() == old(Contents())[key := value]
      // A slab is opened exactly when the value does not fit behind what is used, and it is of the
      // arena's own size unless the value is larger.
      ensures |slabs| == |old(slabs)| + if old(Used()) + |value| > old(Capacity()) then 1 else 0
      ensures |slabs| > |old(slabs)| ==>
        slabs[|slabs| - 1].buf.Length == if |value| > slabSize then |value| else slabSize
    {
      hide Shown, AllInBytes, Extends, Shows, EndsWith, EntryAtEnd, Lands, Fits, LaidOut;
      SmallLands(value);
      ghost var started := written;
      panicked := Open(value);
      if panicked {
        return;
      }
      ghost var rolled := written;
      Append(key, value);
      ExtendsTwice(started, rolled, written);
    }

    // The part of Set before anything is written: a slab is opened if need be.
    method Open(value: Bytes) returns (panicked: bool)
      requires Valid()
      modifies this`slabs, this`cur, this`written
      ensures Valid() && Contents() == old(Contents()) && Extends(written, old(written))
      ensures panicked <==> value == [] && old(slabs) == []
      ensures panicked ==> slabs == old(slabs) && cur == old(cur) && written == old(written)
      ensures !panicked ==> cur.Some? && cur.value.len + |value| <= cur.value.buf.Length && |slabs| > 0
      ensures !panicked ==> cur.value.len == if |slabs| > |old(slabs)| then 0 else old(Used())
      ensures !panicked ==> written == old(Opened(value)) && (cur.value.buf in old(Buffers()) || fresh(cur.value.buf))
      ensures |slabs| == |old(slabs)| + if old(Used()) + |value| > old(Capacity()) then 1 else 0
      ensures |slabs| >= |old(slabs)| && slabs[..|old(slabs)|] == old(slabs)
      ensures |slabs| > |old(slabs)| ==> fresh(slabs[|slabs| - 1].buf)
      ensures |slabs| > |old(slabs)| ==>
        slabs[|slabs| - 1].buf.Length == if |value| > slabSize then |value| else slabSize
    {
      hide Shown, AllInBytes, Extends, Shows;
      ExtendsItself(written);
      if Rolls(value) {
        NewSlab(|value|);
      } else if slabs == [] {
        return true;
      }
      return false;
    }

    // A slab of its own size, or larger for an oversized value; the old ones stay as they are.
    method NewSlab(n: nat)
      requires Valid()
      modifies this`slabs, this`cur, this`written
      ensures Valid() && Contents() == old(Contents()) && Extends(written, old(written))
      ensures written == old(written) + [[]]
      ensures |slabs| == |old(slabs)| + 1 && slabs[..|old(slabs)|] == old(slabs)
      ensures cur.Some? && cur.value.len == 0 && fresh(cur.value.buf)
      ensures cur.value.buf.Length == if n > slabSize then n else slabSize
    {
      var size := slabSize;
      if n > size {
        size := n;
      }
      var buf := new bv8[size];
      cur := Some(Slab(buf, 0));
      slabs := slabs + [cur.value];
      ShownExtends(m, written, written + [[]]);
      written := written + [[]];
    }

    method Append(key: FixedKey, value: Bytes)
      requires Valid() && cur.Some? && |slabs| > 0 && cur.value.len + |value| <= cur.value.buf.Length
      modifies this`m, this`slabs, this`cur, this`written, cur.value.buf
      ensures LaidOut() && Extends(written, old(written))
      ensures |slabs| == |old(slabs)| && forall i | 0 <= i < |slabs| :: slabs[i].buf == old(slabs)[i].buf
      ensures var o := old(written); o != [] && written == o[|o| - 1 := o[|o| - 1] + value]
      ensures EndsWith(written, value) && m == old(m)[key := EntryAtEnd(written, value)]
      ensures key in m && m[key] == EntryOf(|slabs| - 1, old(cur.value.len), |value|)
      ensures Valid() && Contents() == old(Contents())[key := value] <==> old(Lands(written, value))
    {
      hide Shown, AllInBytes, Extends, Shows, EndsWith, EntryOf, EntryAtEnd, Lands;
      ghost var before, was := written, m;
      var off, n := cur.value.len, |value|;
      assert |before[|before| - 1]| == off;
      WriteBytes(value);
      var e := EntryOf(|slabs| - 1, off, n);
      m := m[key := e];
      Appended(before, value, written);
      ShownExtends(was, before, written);
      ShownPut(was, key, e, value, written);
    }

    // append(am.cur, value...) within capacity, mirrored into the last slab.
    method WriteBytes(value: Bytes)
      requires LaidOut() && cur.Some? && cur.value.len + |value| <= cur.value.buf.Length
      modifies this`slabs, this`cur, this`written, cur.value.buf
      ensures LaidOut() && |slabs| == |old(slabs)|
      ensures |old(written)| > 0
      ensures var k := |old(written)| - 1; written == old(written)[k := old(written)[k] + value]
      ensures forall i | 0 <= i < |slabs| :: slabs[i].buf == old(slabs)[i].buf
    {
      var off, n := cur.value.len, |value|;
      forall i | 0 <= i < n {
        cur.value.buf[off + i] := value[i];
      }
      ghost var k := |written| - 1;
      ghost var grown := written[k] + value;
      assert cur.value.buf[..off + n] == grown;
      assert forall i | 0 <= i < |slabs| - 1 :: slabs[i].buf[..slabs[i].len] == old(slabs[i].buf[..slabs[i].len]);
      cur := Some(Slab(cur.value.buf, off + n));
      slabs := slabs[|slabs| - 1 := cur.value];
      written := written[k := grown];
    }

    // Delete
    method Delete(key: FixedKey) returns (res: Result<()>)
      requires Valid()
      modifies this`m
      ensures Valid() && slabs == old(slabs) && written == old(written)
      ensures res == if key in old(Contents()) then Ok(()) else Err(InvalidKey)
      ensures Contents() == old(Contents()) - {key}
    {
      hide Shown, AllInBytes;
      ShownDelete(m, key, written);
      if key in m {
        m := m - {key};
        return Ok(());
      }
      assert m - {key} == m;
      return Err(InvalidKey);
    }

    // Reset
    method Reset()
      requires Valid()
      modifies this
      ensures Valid() && Contents() == map[]
      ensures slabs == [] && cur == None && written == []
    {
      m := map[];
      slabs := slabs[..0];
      cur := None;
      written := [];
    }
  }

  // At such an offset, Get panics on the value just set.
  method SetThenGet(a: ArenaFixedSizeMap, key: FixedKey, value: Bytes) returns (fetched: Fetched)
    requires a.Valid() && |a.slabs| == 1 && a.cur.value.len == Uint32 - 10 && |value| == 20
    requires a.cur.value.len + 20 <= a.cur.value.buf.Length
    modifies a, a.Buffers()
    ensures fetched.SliceOutOfRange?
  {
    ghost var before := a.written;
    assert before[0] == a.cur.value.buf[..a.cur.value.len];
    var panicked := a.Set(key, value);
    InFull(0, |before[0]|, 20);
    fetched := a.Get(key);
  }

  // ---- Runs ----

  datatype Op = Get(key: FixedKey) | Set(key: FixedKey, value: Bytes) | Delete(key: FixedKey) | Reset

  datatype Answer = Value(bytes: Bytes) | NotFound | Done

  // A plain map under the same operations.
  function MapAfter(m: map<FixedKey, Bytes>, op: Op): map<FixedKey, Bytes> {
    match op
    case Get(_) => m
    case Set(key, value) => m[key := value]
    case Delete(key) => m - {key}
    case Reset => map[]
  }

  function AnswerOf(m: map<FixedKey, Bytes>, op: Op): Answer {
    match op
    case Get(key) => if key in m then Value(m[key]) else NotFound
    case Delete(key) => if key in m then Done else NotFound
    case _ => Done
  }

  function MapAfterAll(m: map<FixedKey, Bytes>, ops: seq<Op>): map<FixedKey, Bytes> {
    if ops == [] then m else MapAfter(MapAfterAll(m, ops[..|ops| - 1]), ops[|ops| - 1])
  }

  lemma MapAfterOneMore(m: map<FixedKey, Bytes>, ops: seq<Op>, i: nat)
    requires i < |ops|
    ensures MapAfterAll(m, ops[..i + 1]) == MapAfter(MapAfterAll(m, ops[..i]), ops[i])
  {
    hide MapAfter;
    assert ops[..i + 1][..i] == ops[..i];
  }

  // One operation on a valid arena: the map's own answer, and the map's next state.
  method Apply(a: ArenaFixedSizeMap, op: Op) returns (answer: Answer)
    requires a.Valid() && (op.Set? ==> a.Fits(op.value))
    modifies a, a.Buffers()
    ensures a.Valid() && a.Contents() == MapAfter(old(a.Contents()), op)
    ensures answer == AnswerOf(old(a.Contents()), op)
    ensures fresh(a.Buffers() - old(a.Buffers()))
  {
    match op {
      case Get(key) =>
        var fetched := a.Get(key);
        answer := if fetched.Found? then Value(BytesOf(fetched.view)) else NotFound;
      case Set(key, value) =>
        a.FitsIsLands(value);
        var panicked := a.Set(key, value);
        answer := Done;
      case Delete(key) =>
        var deleted := a.Delete(key);
        answer := if deleted.Ok? then Done else NotFound;
      case Reset =>
        a.Reset();
        answer := Done;
    }
  }

  // The arena is a map over any run of operations, up to the first Set that does not fit.
  method RunArena(a: ArenaFixedSizeMap, ops: seq<Op>) returns (answers: seq<Answer>)
    requires a.Valid()
    modifies a, a.Buffers()
    ensures a.Valid() && |answers| <= |ops|
    ensures a.Contents() == MapAfterAll(old(a.Contents()), ops[..|answers|])
    ensures forall i | 0 <= i < |answers| :: answers[i] == AnswerOf(MapAfterAll(old(a.Contents()), ops[..i]), ops[i])
    ensures |answers| < |ops| ==> ops[|answers|].Set? && !a.Fits(ops[|answers|].value)
  {
    hide RanTo, MapAfter, AnswerOf, ArenaFixedSizeMap.Valid, ArenaFixedSizeMap.Contents, ArenaFixedSizeMap.Fits;
    ghost var m := a.Contents();
    answers := [];
    var i := 0;
    RanNone(m, ops);
    while i < |ops|
      invariant i <= |ops| && a.Valid()
      invariant fresh(a.Buffers() - old(a.Buffers()))
      invariant RanTo(m, ops, i, a.Contents(), answers)
    {
      RanSoFar(m, ops, i, a.Contents(), answers);
      if ops[i].Set? && !a.Fits(ops[i].value) {
        return;
      }
      ghost var before := a.Contents();
      var answer := Apply(a, ops[i]);
      RanOneMore(m, ops, i, before, a.Contents(), answers, answer);
      answers := answers + [answer];
      i := i + 1;
    }
    RanSoFar(m, ops, i, a.Contents(), answers);
  }

  // The answers and the contents after i operations.
  ghost predicate RanTo(m: map<FixedKey, Bytes>, ops: seq<Op>, i: nat, contents: map<FixedKey, Bytes>,
                        answers: seq<Answer>)
  {
    && i <= |ops| && |answers| == i && contents == MapAfterAll(m, ops[..i])
    && forall j | 0 <= j < i :: answers[j] == AnswerOf(MapAfterAll(m, ops[..j]), ops[j])
  }

  lemma RanNone(m: map<FixedKey, Bytes>, ops: seq<Op>)
    ensures RanTo(m, ops, 0, m, [])
  {
  }

  lemma RanSoFar(m: map<FixedKey, Bytes>, ops: seq<Op>, i: nat, contents: map<FixedKey, Bytes>, answers: seq<Answer>)
    requires RanTo(m, ops, i, contents, answers)
    ensures i <= |ops| && |answers| == i && contents == MapAfterAll(m, ops[..i])
    ensures forall j | 0 <= j < i :: answers[j] == AnswerOf(MapAfterAll(m, ops[..j]), ops[j])
  {
  }

  lemma RanOneMore(m: map<FixedKey, Bytes>, ops: seq<Op>, i: nat, before: map<FixedKey, Bytes>,
                   after: map<FixedKey, Bytes>, answers: seq<Answer>, answer: Answer)
    requires RanTo(m, ops, i, before, answers) && i < |ops|
    requires after == MapAfter(before, ops[i]) && answer == AnswerOf(before, ops[i])
    ensures RanTo(m, ops, i + 1, after, answers + [answer])
  {
    hide MapAfter, AnswerOf;
    MapAfterOneMore(m, ops, i);
  }
}
