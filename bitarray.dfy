/** The packed array of small unsigned values of bitarray.h.  Slot `i` of a
    `BitArray` with `nbit` bits per slot lives in byte `(i * nbit) / 8` at bit
    offset `(i * nbit) % 8`; the bytes are `unsigned char`, modelled as `bv8`.
    The byte-level layout is described by pure functions on `seq<bv8>`
    (`SlotOf`, `StoreSlot`, `OrBytes`), and the class's methods are proved to
    act on their `data` array exactly as those functions say. */
module BitArrays {

  import Alloc

  /** `bitMask[k]` has the low `k + 1` bits set. */
  const BitMask: seq<bv8> := [0x01, 0x03, 0x07, 0x0F, 0x1F, 0x3F, 0x7F, 0xFF]

  /** The guards of `bitarrayNew`: `nbit` in 0..8, and even unless it is 1. */
  predicate Accepted(nbit: int)
  {
    !(nbit > 8 || nbit < 0) && (nbit != 1 ==> nbit % 2 == 0)
  }

  /** A slot width that divides a byte, with its mask. */
  predicate Fits(nbit: nat, mask: bv8)
  {
    (nbit == 1 && mask == 0x01) || (nbit == 2 && mask == 0x03) ||
    (nbit == 4 && mask == 0x0F) || (nbit == 8 && mask == 0xFF)
  }

  /** `__realCols`: the number of bytes that hold `size` slots. */
  function Cols(size: nat, nbit: nat): nat
  {
    (size * nbit + 7) / 8
  }

  function ByteOf(i: nat, nbit: nat): nat
  {
    i * nbit / 8
  }

  /** `(i * nbit) % 8`, the bit offset of slot `i` inside its byte. */
  function Offset(i: nat, nbit: nat): (r: nat)
    ensures r < 8
  {
    i * nbit % 8
  }

  /** The same offset as a shift amount. */
  function OffsetOf(i: nat, nbit: nat): (r: bv8)
    ensures r < 8
  {
    Offset(i, nbit) as bv8
  }

  /** An offset at which a slot of width `nbit` can start. */
  predicate Aligned(off: bv8, nbit: nat)
  {
    nbit == 1 || (nbit == 2 && off % 2 == 0) || (nbit == 4 && off % 4 == 0) || (nbit == 8 && off == 0)
  }

  /** `(b >> off) & mask`. */
  function Load(b: bv8, off: bv8, mask: bv8): bv8
    requires off < 8
  {
    (b >> off) & mask
  }

  /** `b &= ~(mask << off); b |= (v & mask) << off`, truncated to a byte. */
  function Store(b: bv8, off: bv8, mask: bv8, v: bv8): bv8
    requires off < 8
  {
    (b & !(mask << off)) | ((v & mask) << off)
  }

  /** The value of slot `i` in the bytes `d`. */
  function SlotOf(d: seq<bv8>, nbit: nat, mask: bv8, i: nat): bv8
    requires ByteOf(i, nbit) < |d|
  {
    Load(d[ByteOf(i, nbit)], OffsetOf(i, nbit), mask)
  }

  /** The bytes `d` after writing `v` into slot `i`. */
  function StoreSlot(d: seq<bv8>, nbit: nat, mask: bv8, i: nat, v: bv8): seq<bv8>
    requires ByteOf(i, nbit) < |d|
  {
    var b := ByteOf(i, nbit);
    d[b := Store(d[b], OffsetOf(i, nbit), mask, v)]
  }

  /** Storing slot `i` leaves every other slot below `size` as it was. */
  lemma StoreKeepsOthers(d: seq<bv8>, size: nat, nbit: nat, mask: bv8, i: nat, v: bv8)
    requires Fits(nbit, mask) && |d| == Cols(size, nbit) && i < size
    ensures ByteOf(i, nbit) < |d|
    ensures forall j :: 0 <= j < size && j != i ==>
      ByteOf(j, nbit) < |d| && SlotOf(StoreSlot(d, nbit, mask, i, v), nbit, mask, j) == SlotOf(d, nbit, mask, j)
  {
    ByteInRange(i, size, nbit);
    forall j | 0 <= j < size && j != i
      ensures ByteOf(j, nbit) < |d| &&
        SlotOf(StoreSlot(d, nbit, mask, i, v), nbit, mask, j) == SlotOf(d, nbit, mask, j)
    {
      ByteInRange(j, size, nbit);
      SlotStoreOther(d, nbit, mask, i, j, v);
    }
  }

  /** The bytes `d` after `d[k] |= e[k]` for every `k < |d|`. */
  function OrBytes(d: seq<bv8>, e: seq<bv8>): (r: seq<bv8>)
    requires |d| <= |e|
    ensures |r| == |d|
  {
    seq(|d|, k requires 0 <= k < |d| => d[k] | e[k])
  }

  /** Or-ing the same bytes in twice changes nothing the second time. */
  lemma OrBytesIdempotent(d: seq<bv8>, e: seq<bv8>)
    requires |d| <= |e|
    ensures OrBytes(OrBytes(d, e), e) == OrBytes(d, e)
  {
  }

  /** An array or-ed with itself is unchanged. */
  lemma OrBytesSelf(d: seq<bv8>)
    ensures OrBytes(d, d) == d
  {
  }

  /** The order in which two arrays are or-ed in does not matter. */
  lemma OrBytesReorder(d: seq<bv8>, e1: seq<bv8>, e2: seq<bv8>)
    requires |d| <= |e1| && |d| <= |e2|
    ensures OrBytes(OrBytes(d, e1), e2) == OrBytes(OrBytes(d, e2), e1)
  {
  }

  // ---------------------------------------------------------------------
  // Properties of the layout

  /** Every slot below `size` lies inside the `Cols(size, nbit)` bytes. */
  lemma ByteInRange(i: nat, size: nat, nbit: nat)
    requires i < size && 1 <= nbit
    ensures ByteOf(i, nbit) < Cols(size, nbit)
  {
    Alloc.MulLe(i + 1, size, nbit);
    assert i * nbit + nbit <= size * nbit;
  }

  /** For a width that divides a byte, the offset of slot `i` is a multiple
      of the width: `i * nbit` is `8 * (i / (8 / nbit)) + (i % (8 / nbit)) * nbit`,
      taken width by width. */
  lemma OffsetMultiple(i: nat, nbit: nat, mask: bv8)
    requires Fits(nbit, mask)
    ensures Offset(i, nbit) % nbit == 0
  {
    if nbit == 1 {
    } else if nbit == 2 {
      Alloc.DivUnique(2 * i, 8, i / 4, 2 * (i % 4));
      Alloc.DivUnique(2 * (i % 4), 2, i % 4, 0);
    } else if nbit == 4 {
      Alloc.DivUnique(4 * i, 8, i / 2, 4 * (i % 2));
      Alloc.DivUnique(4 * (i % 2), 4, i % 2, 0);
    } else {
      Alloc.DivUnique(8 * i, 8, i, 0);
    }
  }

  lemma CastMod(a: nat)
    requires a < 8
    ensures (a as bv8) % 2 == (a % 2) as bv8 && (a as bv8) % 4 == (a % 4) as bv8
  {
  }

  lemma CastDistinct(a: nat, b: nat)
    requires a < 8 && b < 8 && a != b
    ensures a as bv8 != b as bv8
  {
  }

  lemma OffsetAligned(i: nat, nbit: nat, mask: bv8)
    requires Fits(nbit, mask)
    ensures Aligned(OffsetOf(i, nbit), nbit)
  {
    OffsetMultiple(i, nbit, mask);
    CastMod(Offset(i, nbit));
  }

  /** For a width that divides a byte, distinct slots never share bits. */
  lemma SlotsDisjoint(i: nat, j: nat, nbit: nat, mask: bv8)
    requires Fits(nbit, mask) && i != j
    ensures ByteOf(i, nbit) != ByteOf(j, nbit) || OffsetOf(i, nbit) != OffsetOf(j, nbit)
  {
    if i < j {
      Alloc.MulLe(i + 1, j, nbit);
    } else {
      Alloc.MulLe(j + 1, i, nbit);
    }
    BitsDistinct(i * nbit, j * nbit);
    if ByteOf(i, nbit) == ByteOf(j, nbit) {
      CastDistinct(Offset(i, nbit), Offset(j, nbit));
    }
  }

  /** Two distinct bit positions differ in their byte or in their offset. */
  lemma BitsDistinct(a: nat, b: nat)
    requires a != b
    ensures a / 8 != b / 8 || a % 8 != b % 8
  {
  }

  /** Reading back a slot that was just written yields the value, cut to the mask. */
  lemma LoadStoreSame(b: bv8, off: bv8, nbit: nat, mask: bv8, v: bv8)
    requires Fits(nbit, mask) && off < 8 && Aligned(off, nbit)
    ensures Load(Store(b, off, mask, v), off, mask) == v & mask
  {
  }

  /** Writing one slot of a byte leaves the other slots of that byte alone. */
  lemma LoadStoreOther(b: bv8, o1: bv8, o2: bv8, nbit: nat, mask: bv8, v: bv8)
    requires Fits(nbit, mask) && o1 < 8 && o2 < 8 && Aligned(o1, nbit) && Aligned(o2, nbit) && o1 != o2
    ensures Load(Store(b, o1, mask, v), o2, mask) == Load(b, o2, mask)
  {
  }

  lemma LoadOr(a: bv8, b: bv8, off: bv8, mask: bv8)
    requires off < 8
    ensures Load(a | b, off, mask) == Load(a, off, mask) | Load(b, off, mask)
  {
  }

  /** After `StoreSlot`, slot `i` holds `v & mask`. */
  lemma SlotStoreSame(d: seq<bv8>, nbit: nat, mask: bv8, i: nat, v: bv8)
    requires Fits(nbit, mask) && ByteOf(i, nbit) < |d|
    ensures SlotOf(StoreSlot(d, nbit, mask, i, v), nbit, mask, i) == v & mask
  {
    OffsetAligned(i, nbit, mask);
    LoadStoreSame(d[ByteOf(i, nbit)], OffsetOf(i, nbit), nbit, mask, v);
  }

  /** After `StoreSlot` at `i`, every other slot reads as before. */
  lemma SlotStoreOther(d: seq<bv8>, nbit: nat, mask: bv8, i: nat, j: nat, v: bv8)
    requires Fits(nbit, mask) && ByteOf(i, nbit) < |d| && ByteOf(j, nbit) < |d| && i != j
    ensures SlotOf(StoreSlot(d, nbit, mask, i, v), nbit, mask, j) == SlotOf(d, nbit, mask, j)
  {
    SlotsDisjoint(i, j, nbit, mask);
    OffsetAligned(i, nbit, mask);
    OffsetAligned(j, nbit, mask);
    if ByteOf(i, nbit) == ByteOf(j, nbit) {
      LoadStoreOther(d[ByteOf(i, nbit)], OffsetOf(i, nbit), OffsetOf(j, nbit), nbit, mask, v);
    }
  }

  /** A slot of or-ed bytes is the or of the two slots. */
  lemma SlotOr(d: seq<bv8>, e: seq<bv8>, nbit: nat, mask: bv8, i: nat)
    requires |d| <= |e| && ByteOf(i, nbit) < |d|
    ensures SlotOf(OrBytes(d, e), nbit, mask, i) == SlotOf(d, nbit, mask, i) | SlotOf(e, nbit, mask, i)
  {
    var k := ByteOf(i, nbit);
    var off := OffsetOf(i, nbit);
    assert OrBytes(d, e)[k] == d[k] | e[k];
    LoadOr(d[k], e[k], off, mask);
    assert SlotOf(OrBytes(d, e), nbit, mask, i) == Load(d[k] | e[k], off, mask);
  }

  /** Every slot of all-zero bytes reads 0. */
  lemma SlotOfZero(d: seq<bv8>, nbit: nat, mask: bv8, i: nat)
    requires ByteOf(i, nbit) < |d| && forall k :: 0 <= k < |d| ==> d[k] == 0
    ensures SlotOf(d, nbit, mask, i) == 0
  {
    assert d[ByteOf(i, nbit)] == 0;
  }

  /** A slot never exceeds its mask. */
  lemma SlotAtMostMask(d: seq<bv8>, nbit: nat, mask: bv8, i: nat)
    requires ByteOf(i, nbit) < |d|
    ensures SlotOf(d, nbit, mask, i) <= mask
  {
  }

  /** The guard lets through `nbit = 0`, for which `bitMask[nbit - 1]` reads
      before the table, and `nbit = 6`, whose slots straddle bytes. */
  lemma GuardLetsThrough()
    ensures Accepted(0) && Accepted(6) && !Accepted(3) && !Accepted(9) && !Accepted(-1)
  {
  }

  /** With `nbit = 6`, slot 1 starts at bit 6 of byte 0: only two of its six
      bits are stored, so writing 63 and reading it back yields 3. */
  lemma SixBitSlotTruncated(d: seq<bv8>)
    requires |d| >= 1
    ensures SlotOf(StoreSlot(d, 6, BitMask[5], 1, 63), 6, BitMask[5], 1) == 3
  {
    assert ByteOf(1, 6) == 0 && OffsetOf(1, 6) == 6;
    var b := Store(d[0], 6, 0x3F, 63);
    assert b >> 6 == 3;
  }

  // ---------------------------------------------------------------------
  // The structure

  class BitArray {
    var size: nat
    var realCols: nat
    var mask: bv8
    var nbit: nat
    var data: array<bv8>

    ghost predicate Valid()
      reads this
    {
      Accepted(nbit) && 1 <= nbit && mask == BitMask[nbit - 1] &&
      realCols == Cols(size, nbit) && data.Length == realCols
    }

    /** The body of `bitarrayNew` once the guards have passed. */
    constructor (size: nat, nbit: nat)
      requires Accepted(nbit) && nbit != 0
      ensures Valid() && fresh(data)
      ensures this.size == size && this.nbit == nbit
      ensures forall k :: 0 <= k < data.Length ==> data[k] == 0
    {
      this.size := size;
      this.mask := BitMask[nbit - 1];
      this.nbit := nbit;
      this.realCols := Cols(size, nbit);
      this.data := new bv8[Cols(size, nbit)](_ => 0);
    }

    /** `bitarrayNew`: NULL for a rejected width, otherwise a zeroed array. */
    static method New(size: nat, nbit: int) returns (a: BitArray?)
      requires nbit != 0
      ensures a == null <==> !Accepted(nbit)
      ensures a != null ==> fresh(a) && fresh(a.data) && a.Valid() && a.size == size && a.nbit == nbit
      ensures a != null ==> forall i :: 0 <= i < a.size ==> a.Get(i) == 0
    {
      if nbit > 8 || nbit < 0 {
        return null;
      }
      if nbit != 1 && nbit % 2 != 0 {
        return null;
      }
      a := new BitArray(size, nbit);
      forall i | 0 <= i < a.size
        ensures a.Get(i) == 0
      {
        ByteInRange(i, a.size, a.nbit);
        SlotOfZero(a.data[..], a.nbit, a.mask, i);
      }
    }

    /** `bitarrayGet`: slot `i`, or 0 when `i` is out of range. */
    function Get(i: nat): (r: bv8)
      requires Valid()
      reads this, data
      ensures r <= mask
      ensures i >= size ==> r == 0
    {
      if i >= size then 0
      else
        ByteInRange(i, size, nbit);
        SlotOf(data[..], nbit, mask, i)
    }

    /** `bitarraySet`: write `value & mask` into slot `i`; out of range does nothing. */
    method Set(i: nat, value: bv8)
      requires Valid()
      modifies data
      ensures Valid()
      ensures i >= size ==> data[..] == old(data[..])
      ensures i < size ==> ByteOf(i, nbit) < data.Length &&
                           data[..] == StoreSlot(old(data[..]), nbit, mask, i, value)
      ensures Fits(nbit, mask) && i < size ==> Get(i) == value & mask
      ensures Fits(nbit, mask) ==> forall j :: 0 <= j < size && j != i ==> Get(j) == old(Get(j))
    {
      if i >= size {
        return;
      }
      ByteInRange(i, size, nbit);
      ghost var d := data[..];
      var b := i * nbit / 8;
      data[b] := Store(data[b], (i * nbit % 8) as bv8, mask, value);
      assert data[..] == StoreSlot(d, nbit, mask, i, value);
      if Fits(nbit, mask) {
        SlotStoreSame(d, nbit, mask, i, value);
        StoreKeepsOthers(d, size, nbit, mask, i, value);
      }
    }

    /** `bitarrayClone`: a fresh array with the same fields and bytes. */
    method Clone() returns (c: BitArray)
      requires Valid()
      ensures fresh(c) && fresh(c.data) && c.Valid()
      ensures c.size == size && c.nbit == nbit && c.mask == mask
      ensures c.data[..] == data[..]
      ensures forall i :: c.Get(i) == Get(i)
    {
      c := new BitArray(size, nbit);
      forall k | 0 <= k < c.data.Length {
        c.data[k] := data[k];
      }
      assert c.data[..] == data[..];
    }

    /** `bitarrayOr`: or `other`'s bytes into this one when the sizes agree;
        only `size` is compared, so `other` must hold at least as many bytes. */
    method Or(other: BitArray)
      requires Valid() && other.Valid()
      requires size == other.size ==> realCols <= other.realCols
      modifies data
      ensures Valid()
      ensures size != other.size ==> data[..] == old(data[..])
      ensures size == other.size ==> data[..] == OrBytes(old(data[..]), old(other.data[..]))
      ensures other.data[..] == old(other.data[..])
    {
      if size != other.size {
        return;
      }
      ghost var d0, e0 := data[..], other.data[..];
      var i := 0;
      while i < realCols
        invariant 0 <= i <= realCols
        invariant data[..] == OrPart(d0, e0, i)
        invariant other.data[..] == e0
      {
        ghost var cur := data[..];
        data[i] := data[i] | other.data[i];
        OrPartStep(d0, e0, i, cur);
        i := i + 1;
      }
      OrPartAll(d0, e0);
    }
  }

  /** The bytes `d` once `d[k] |= e[k]` is done for every `k < i`. */
  function OrPart(d: seq<bv8>, e: seq<bv8>, i: int): (r: seq<bv8>)
    requires |d| <= |e|
    ensures |r| == |d|
  {
    seq(|d|, k requires 0 <= k < |d| => if k < i then d[k] | e[k] else d[k])
  }

  lemma OrPartStep(d: seq<bv8>, e: seq<bv8>, i: int, cur: seq<bv8>)
    requires |d| <= |e| && 0 <= i < |d| && cur == OrPart(d, e, i)
    ensures cur[i := cur[i] | e[i]] == OrPart(d, e, i + 1)
  {
  }

  lemma OrPartAll(d: seq<bv8>, e: seq<bv8>)
    requires |d| <= |e|
    ensures OrPart(d, e, |d|) == OrBytes(d, e)
  {
  }

  /** After `Or` of two arrays with the same size and width, every slot is
      the or of the two slots. */
  lemma OrSlots(d: seq<bv8>, e: seq<bv8>, size: nat, nbit: nat, mask: bv8, i: nat)
    requires 1 <= nbit && |d| == |e| == Cols(size, nbit) && i < size
    ensures ByteOf(i, nbit) < |d|
    ensures SlotOf(OrBytes(d, e), nbit, mask, i) == SlotOf(d, nbit, mask, i) | SlotOf(e, nbit, mask, i)
  {
    ByteInRange(i, size, nbit);
    SlotOr(d, e, nbit, mask, i);
  }
}
