// Bit arithmetic on byte strings (utils.go) and the byte order of Go's bytes.Compare.
module Utils {
  type Bytes = seq<bv8>

  // The byte 1 << (8 - 1 - k), one row per k so that no shift amount is symbolic.
  function Mask(k: nat): bv8
    requires k < 8
  {
    if k == 0 then 1 << 7 else if k == 1 then 1 << 6
    else if k == 2 then 1 << 5 else if k == 3 then 1 << 4
    else if k == 4 then 1 << 3 else if k == 5 then 1 << 2
    else if k == 6 then 1 << 1 else 1
  }

  // Bit k of one byte, most significant first.
  predicate BitOfByte(b: bv8, k: nat)
    requires k < 8
  {
    b & Mask(k) > 0
  }

  // Bit `position` of `data`, counted from the most significant bit of its first byte.
  predicate GetBitAtFromMSB(data: Bytes, position: nat)
    requires position < 8 * |data|
  {
    BitOfByte(data[position / 8], position % 8)
  }

  // a and b carry the same bits at positions 0, ..., k - 1.
  ghost predicate AgreeBelow(a: Bytes, b: Bytes, k: nat)
    requires |a| == |b| && k <= 8 * |a|
  {
    forall i: nat | i < k :: GetBitAtFromMSB(a, i) == GetBitAtFromMSB(b, i)
  }

  lemma ByteFromBits(b: bv8, c: bv8)
    requires forall k: nat | k < 8 :: BitOfByte(b, k) == BitOfByte(c, k)
    ensures b == c
  {
    assert BitOfByte(b, 0) == BitOfByte(c, 0);
    assert BitOfByte(b, 1) == BitOfByte(c, 1);
    assert BitOfByte(b, 2) == BitOfByte(c, 2);
    assert BitOfByte(b, 3) == BitOfByte(c, 3);
    assert BitOfByte(b, 4) == BitOfByte(c, 4);
    assert BitOfByte(b, 5) == BitOfByte(c, 5);
    assert BitOfByte(b, 6) == BitOfByte(c, 6);
    assert BitOfByte(b, 7) == BitOfByte(c, 7);
  }

  // A byte string is determined by its bits.
  lemma BytesFromBits(a: Bytes, b: Bytes)
    requires |a| == |b| && AgreeBelow(a, b, 8 * |a|)
    ensures a == b
  {
    forall j | 0 <= j < |a| ensures a[j] == b[j] {
      forall k: nat | k < 8 ensures BitOfByte(a[j], k) == BitOfByte(b[j], k) {
        assert GetBitAtFromMSB(a, 8 * j + k) == GetBitAtFromMSB(b, 8 * j + k);
      }
      ByteFromBits(a[j], b[j]);
    }
  }

  lemma SetBitInByte(b: bv8, k: nat, l: nat)
    requires k < 8 && l < 8
    ensures BitOfByte(b | Mask(k), l) == (k == l || BitOfByte(b, l))
  {
    var m, n := Mask(k), Mask(l);
    if k != l {
      assert m & n == 0;
      assert (b | m) & n == (b & n) | (m & n);
    } else {
      assert (b | n) & n == n;
    }
  }

  lemma SetBitInBytes(data: Bytes, position: nat, i: nat)
    requires position < 8 * |data| && i < 8 * |data|
    ensures GetBitAtFromMSB(data[position / 8 := data[position / 8] | Mask(position % 8)], i)
      == (i == position || GetBitAtFromMSB(data, i))
  {
    hide BitOfByte, Mask;
    SetBitInByte(data[position / 8], position % 8, i % 8);
    assert i == position <==> i / 8 == position / 8 && i % 8 == position % 8;
  }

  // setBitAtFromMSB: turns one bit on, in place, and touches no other bit.
  method SetBitAtFromMSB(data: array<bv8>, position: nat)
    requires position < 8 * data.Length
    modifies data
    ensures forall i: nat | i < 8 * data.Length ::
              GetBitAtFromMSB(data[..], i) == (i == position || GetBitAtFromMSB(old(data[..]), i))
  {
    hide BitOfByte, Mask, GetBitAtFromMSB;
    ghost var before := data[..];
    var n := data[position / 8];
    n := n | Mask(position % 8);
    data[position / 8] := n;
    assert data[..] == before[position / 8 := n];
    forall i: nat | i < 8 * data.Length
      ensures GetBitAtFromMSB(data[..], i) == (i == position || GetBitAtFromMSB(before, i))
    {
      SetBitInBytes(before, position, i);
    }
  }

  // The number of set bits among the first n.
  function SetBitsBelow(data: Bytes, n: nat): (count: nat)
    requires n <= 8 * |data|
    ensures count <= n
  {
    if n == 0 then 0
    else SetBitsBelow(data, n - 1) + (if GetBitAtFromMSB(data, n - 1) then 1 else 0)
  }

  // Counting m <= n bits finds as many as counting n exactly when positions m, ..., n - 1 are clear.
  lemma {:induction false} SetBitsBelowPrefix(data: Bytes, m: nat, n: nat)
    requires m <= n <= 8 * |data|
    ensures SetBitsBelow(data, m) <= SetBitsBelow(data, n)
    ensures SetBitsBelow(data, m) == SetBitsBelow(data, n)
      <==> forall i: nat | m <= i < n :: !GetBitAtFromMSB(data, i)
  {
    if m < n {
      SetBitsBelowPrefix(data, m, n - 1);
    }
  }

  lemma {:induction false} SetBitsAreCounted(data: Bytes, n: nat)
    requires n <= 8 * |data|
    ensures SetBitsBelow(data, n) == |set i | 0 <= i < n && GetBitAtFromMSB(data, i)|
  {
    hide GetBitAtFromMSB;
    if n > 0 {
      SetBitsAreCounted(data, n - 1);
      var before := set i | 0 <= i < n - 1 && GetBitAtFromMSB(data, i);
      var all := set i | 0 <= i < n && GetBitAtFromMSB(data, i);
      assert all == if GetBitAtFromMSB(data, n - 1) then before + {n - 1} else before;
    }
  }

  // countSetBits
  method CountSetBits(data: Bytes) returns (count: nat)
    ensures count == SetBitsBelow(data, 8 * |data|)
    ensures count == |set i | 0 <= i < 8 * |data| && GetBitAtFromMSB(data, i)|
  {
    SetBitsAreCounted(data, 8 * |data|);
    count := 0;
    for i := 0 to |data| * 8
      invariant count == SetBitsBelow(data, i)
    {
      if GetBitAtFromMSB(data, i) {
        count := count + 1;
      }
    }
  }

  // countCommonPrefix: the length of the longest common bit prefix.
  method CountCommonPrefix(data1: Bytes, data2: Bytes) returns (count: nat)
    requires |data1| == |data2|
    ensures count <= 8 * |data1| && AgreeBelow(data1, data2, count)
    ensures count == 8 * |data1| <==> data1 == data2
    ensures count < 8 * |data1| ==> GetBitAtFromMSB(data1, count) != GetBitAtFromMSB(data2, count)
  {
    count := 0;
    for i := 0 to |data1| * 8
      invariant count == i && AgreeBelow(data1, data2, i)
    {
      if GetBitAtFromMSB(data1, i) == GetBitAtFromMSB(data2, i) {
        count := count + 1;
      } else {
        break;
      }
    }
    if count == 8 * |data1| {
      BytesFromBits(data1, data2);
    }
  }

  function Reversed<T>(s: seq<T>): (r: seq<T>)
    ensures |r| == |s| && forall i | 0 <= i < |s| :: r[i] == s[|s| - 1 - i]
  {
    seq(|s|, i requires 0 <= i < |s| => s[|s| - 1 - i])
  }

  // reverseByteSlicesInPlace
  method ReverseByteSlicesInPlace<T>(slices: array<T>)
    modifies slices
    ensures slices[..] == Reversed(old(slices[..]))
  {
    var left, right := 0, slices.Length - 1;
    while left < right
      invariant 0 <= left <= right + 1 && left + right == slices.Length - 1
      invariant forall k | 0 <= k < left || right < k < slices.Length ::
                  slices[k] == old(slices[slices.Length - 1 - k])
      invariant forall k | left <= k <= right :: slices[k] == old(slices[k])
    {
      slices[left], slices[right] := slices[right], slices[left];
      left, right := left + 1, right - 1;
    }
  }

  // bytes.Compare: negative, zero or positive as a is before, equal to or after b.
  function Compare(a: Bytes, b: Bytes): int
  {
    if a == [] && b == [] then 0
    else if a == [] then -1
    else if b == [] then 1
    else if a[0] < b[0] then -1
    else if a[0] > b[0] then 1
    else Compare(a[1..], b[1..])
  }

  lemma {:induction false} CompareTotal(a: Bytes, b: Bytes)
    ensures Compare(a, b) == -Compare(b, a)
    ensures Compare(a, b) == 0 <==> a == b
  {
    if a != [] && b != [] && a[0] == b[0] {
      CompareTotal(a[1..], b[1..]);
      assert a == [a[0]] + a[1..] && b == [b[0]] + b[1..];
    }
  }

  lemma {:induction false} CompareTransitive(a: Bytes, b: Bytes, c: Bytes)
    requires Compare(a, b) <= 0 && Compare(b, c) <= 0
    ensures Compare(a, c) <= 0
    ensures Compare(a, b) < 0 || Compare(b, c) < 0 ==> Compare(a, c) < 0
  {
    if a != [] && b != [] && c != [] && a[0] == b[0] == c[0] {
      CompareTransitive(a[1..], b[1..], c[1..]);
    }
  }

  lemma SmallerByteHasClearBit(b: bv8, c: bv8)
    requires b < c
    ensures b & 0x80 == c & 0x80 || (b & 0x80 == 0 && c & 0x80 > 0)
    ensures b & 0x80 == c & 0x80 ==> b & 0x40 == c & 0x40 || (b & 0x40 == 0 && c & 0x40 > 0)
    ensures b & 0xC0 == c & 0xC0 ==> b & 0x20 == c & 0x20 || (b & 0x20 == 0 && c & 0x20 > 0)
    ensures b & 0xE0 == c & 0xE0 ==> b & 0x10 == c & 0x10 || (b & 0x10 == 0 && c & 0x10 > 0)
    ensures b & 0xF0 == c & 0xF0 ==> b & 0x08 == c & 0x08 || (b & 0x08 == 0 && c & 0x08 > 0)
    ensures b & 0xF8 == c & 0xF8 ==> b & 0x04 == c & 0x04 || (b & 0x04 == 0 && c & 0x04 > 0)
    ensures b & 0xFC == c & 0xFC ==> b & 0x02 == c & 0x02 || (b & 0x02 == 0 && c & 0x02 > 0)
    ensures b & 0xFE == c & 0xFE ==> b & 0x01 == 0 && c & 0x01 > 0
  {
  }

  // The bits below k agree exactly when the bytes do under the mask of those bits.
  lemma AgreeingBits(b: bv8, c: bv8, k: nat)
    requires k < 8 && forall l: nat | l < k :: BitOfByte(b, l) == BitOfByte(c, l)
    ensures k >= 1 ==> b & 0x80 == c & 0x80
    ensures k >= 2 ==> b & 0xC0 == c & 0xC0
    ensures k >= 3 ==> b & 0xE0 == c & 0xE0
    ensures k >= 4 ==> b & 0xF0 == c & 0xF0
    ensures k >= 5 ==> b & 0xF8 == c & 0xF8
    ensures k >= 6 ==> b & 0xFC == c & 0xFC
    ensures k >= 7 ==> b & 0xFE == c & 0xFE
  {
    assert k >= 1 ==> BitOfByte(b, 0) == BitOfByte(c, 0);
    assert k >= 2 ==> BitOfByte(b, 1) == BitOfByte(c, 1);
    assert k >= 3 ==> BitOfByte(b, 2) == BitOfByte(c, 2);
    assert k >= 4 ==> BitOfByte(b, 3) == BitOfByte(c, 3);
    assert k >= 5 ==> BitOfByte(b, 4) == BitOfByte(c, 4);
    assert k >= 6 ==> BitOfByte(b, 5) == BitOfByte(c, 5);
    assert k >= 7 ==> BitOfByte(b, 6) == BitOfByte(c, 6);
  }

  // The first bit in which two bytes differ, if any, is clear in the smaller one.
  lemma FirstSplitIsClear(b: bv8, c: bv8, k: nat)
    requires b < c && k < 8
    requires forall l: nat | l < k :: BitOfByte(b, l) == BitOfByte(c, l)
    requires k == 7 || BitOfByte(b, k) != BitOfByte(c, k)
    ensures !BitOfByte(b, k) && BitOfByte(c, k)
  {
    AgreeingBits(b, c, k);
    SmallerByteHasClearBit(b, c);
  }

  // The first position from `from` on where the bits of b and c differ, or 7.
  function FirstSplit(b: bv8, c: bv8, from: nat): (k: nat)
    requires from < 8
    ensures from <= k < 8
    ensures forall l: nat | from <= l < k :: BitOfByte(b, l) == BitOfByte(c, l)
    ensures k == 7 || BitOfByte(b, k) != BitOfByte(c, k)
    decreases 8 - from
  {
    if from == 7 || BitOfByte(b, from) != BitOfByte(c, from) then from else FirstSplit(b, c, from + 1)
  }

  // Lexical byte order is decided by the first differing bit.
  lemma {:induction false} CompareByBits(a: Bytes, b: Bytes) returns (k: nat)
    requires |a| == |b| && Compare(a, b) < 0
    ensures k < 8 * |a| && AgreeBelow(a, b, k)
    ensures !GetBitAtFromMSB(a, k) && GetBitAtFromMSB(b, k)
    decreases |a|
  {
    if a[0] < b[0] {
      k := FirstSplit(a[0], b[0], 0);
      FirstSplitIsClear(a[0], b[0], k);
      AgreeBelowFirstByte(a, b, k);
    } else {
      var j := CompareByBits(a[1..], b[1..]);
      k := j + 8;
      BitOfTail(a, k);
      BitOfTail(b, k);
      AgreeBelowTail(a, b, j);
    }
  }

  lemma AgreeBelowFirstByte(a: Bytes, b: Bytes, k: nat)
    requires |a| == |b| > 0 && k < 8
    requires forall l: nat | l < k :: BitOfByte(a[0], l) == BitOfByte(b[0], l)
    ensures AgreeBelow(a, b, k)
    ensures GetBitAtFromMSB(a, k) == BitOfByte(a[0], k) && GetBitAtFromMSB(b, k) == BitOfByte(b[0], k)
  {
  }

  lemma AgreeBelowTail(a: Bytes, b: Bytes, j: nat)
    requires |a| == |b| > 0 && a[0] == b[0] && j + 8 <= 8 * |a|
    requires AgreeBelow(a[1..], b[1..], j)
    ensures AgreeBelow(a, b, j + 8)
  {
    forall i: nat | i < j + 8 ensures GetBitAtFromMSB(a, i) == GetBitAtFromMSB(b, i) {
      if i >= 8 {
        BitOfTail(a, i);
        BitOfTail(b, i);
      }
    }
  }

  lemma BitOfTail(a: Bytes, i: nat)
    requires 8 <= i < 8 * |a|
    ensures GetBitAtFromMSB(a, i) == GetBitAtFromMSB(a[1..], i - 8)
  {
    assert i / 8 == (i - 8) / 8 + 1 && i % 8 == (i - 8) % 8;
  }

  // Over strings in byte order that share their first d bits, bit d never goes back to 0.
  lemma BitMonotone(a: Bytes, b: Bytes, d: nat)
    requires |a| == |b| && d < 8 * |a| && Compare(a, b) <= 0 && AgreeBelow(a, b, d)
    ensures GetBitAtFromMSB(a, d) ==> GetBitAtFromMSB(b, d)
  {
    if Compare(a, b) < 0 {
      var k := CompareByBits(a, b);
    } else {
      CompareTotal(a, b);
    }
  }
}
