/** The k-mer index of main.c (`createIndex`, and the merge loop of
    `do_index`): a `BitArray` of 2^32 one-bit slots in which slot `c` is 1
    when `c` is the forward or reverse-complement code of a 16-base window
    of a reference sequence.  Reading FASTA files, the `.index` cache and
    `dumpIndex`/`loadIndex` are file I/O and are not modelled; the
    sequences are given as values. */
module Index {

  import Alloc
  import Kmers
  import BitArrays

  /** A FASTA record: its name and its bases. */
  datatype Sequence = Sequence(name: string, bases: string)

  /** What the loops demand of the records: ASCII bases (`basemap` has 128
      entries), and, for the loop as written, at least 15 bases so that the
      `size_t` bound `len - KMER_LEN + 1` does not wrap. */
  predicate Readable(seqs: seq<Sequence>, scan: Kmers.Scan)
  {
    forall k :: 0 <= k < |seqs| ==>
      Kmers.IsAscii(seqs[k].bases) && (scan.AsWritten? ==> |seqs[k].bases| >= Kmers.KmerLen - 1)
  }

  /** `c` is a code of a clean window of `s` that ends at or before `upto`. */
  ghost predicate SeenIn(s: string, upto: nat, c: nat)
    requires Kmers.IsAscii(s)
  {
    exists a: nat :: a + Kmers.KmerLen <= upto && Kmers.IsWindow(s, a) &&
      (c == Kmers.FwdCode(s, a) || c == Kmers.RevCode(s, a))
  }

  /** `c` is a code of a window, ending at `e`, of `s`. */
  predicate EndsAt(s: string, e: nat, c: nat)
    requires Kmers.IsAscii(s)
  {
    Kmers.KmerLen <= e && Kmers.IsWindow(s, e - Kmers.KmerLen) &&
    (c == Kmers.FwdCode(s, e - Kmers.KmerLen) || c == Kmers.RevCode(s, e - Kmers.KmerLen))
  }

  /** `c` is a code that the loop reaches in one of the first `n` records. */
  ghost predicate Indexed(seqs: seq<Sequence>, n: nat, scan: Kmers.Scan, c: nat)
    requires n <= |seqs| && Readable(seqs, scan)
  {
    exists k :: 0 <= k < n && SeenIn(seqs[k].bases, Kmers.ScanLimit(scan, |seqs[k].bases|), c)
  }

  /** The shape `createIndex` allocates: 2^32 slots of one bit. */
  ghost predicate IsIndex(b: BitArrays.BitArray)
    reads b
  {
    IsBits(b) && b.size == Kmers.KmerSpace
  }

  /** A one-bit array of any size, as `loadIndex` may read from a cache. */
  ghost predicate IsBits(b: BitArrays.BitArray)
    reads b
  {
    b.Valid() && b.nbit == 1
  }

  /** Windows ending at `i + 1` are the new ones after reading base `i`. */
  lemma SeenStep(s: string, i: nat, c: nat)
    requires Kmers.IsAscii(s)
    ensures SeenIn(s, i + 1, c) <==> SeenIn(s, i, c) || EndsAt(s, i + 1, c)
  {
    if SeenIn(s, i + 1, c) && !EndsAt(s, i + 1, c) {
      var a: nat :| a + Kmers.KmerLen <= i + 1 && Kmers.IsWindow(s, a) &&
        (c == Kmers.FwdCode(s, a) || c == Kmers.RevCode(s, a));
      assert a + Kmers.KmerLen <= i;
    }
    if EndsAt(s, i + 1, c) {
      var a: nat := i + 1 - Kmers.KmerLen;
      assert a + Kmers.KmerLen <= i + 1 && Kmers.IsWindow(s, a);
    }
  }

  /** Nothing is seen before the first 16 bases. */
  lemma SeenNone(s: string, c: nat)
    requires Kmers.IsAscii(s)
    ensures !SeenIn(s, 0, c)
  {
  }

  /** One more record. */
  lemma IndexedStep(seqs: seq<Sequence>, n: nat, scan: Kmers.Scan, c: nat)
    requires n < |seqs| && Readable(seqs, scan)
    ensures Indexed(seqs, n + 1, scan, c) <==>
      Indexed(seqs, n, scan, c) || SeenIn(seqs[n].bases, Kmers.ScanLimit(scan, |seqs[n].bases|), c)
  {
    if Indexed(seqs, n + 1, scan, c) && !SeenIn(seqs[n].bases, Kmers.ScanLimit(scan, |seqs[n].bases|), c) {
      var k :| 0 <= k < n + 1 && SeenIn(seqs[k].bases, Kmers.ScanLimit(scan, |seqs[k].bases|), c);
      assert k < n;
    }
  }

  /** Reading base `i` brings in at most the window ending at `i + 1`:
      when it is clean (`clean`) its codes are `kmer` and `rev`. */
  lemma NewWindow(s: string, i: nat, clean: bool, kmer: nat, rev: nat)
    requires Kmers.IsAscii(s) && i < |s|
    requires clean <==> Kmers.KmerLen <= i + 1 && Kmers.IsWindow(s, i + 1 - Kmers.KmerLen)
    requires clean ==> kmer == Kmers.FwdCode(s, i + 1 - Kmers.KmerLen) && rev == Kmers.RevCode(s, i + 1 - Kmers.KmerLen)
    ensures forall c :: SeenIn(s, i + 1, c) <==> SeenIn(s, i, c) || (clean && (c == kmer || c == rev))
  {
    forall c
      ensures SeenIn(s, i + 1, c) <==> SeenIn(s, i, c) || (clean && (c == kmer || c == rev))
    {
      SeenStep(s, i, c);
    }
  }

  /** The window that ends at `i + 1` is clean exactly when the clean run
      ending there is at least 16 long. */
  lemma RunCoversWindow(s: string, i: nat, count: nat)
    requires Kmers.IsAscii(s) && i < |s| && count <= i + 1 && Kmers.Clean(s, i + 1 - count, i + 1)
    requires count < i + 1 ==> Kmers.BaseCode(s[i - count]) == 4
    ensures Kmers.KmerLen <= i + 1 && Kmers.IsWindow(s, i + 1 - Kmers.KmerLen) <==> count >= Kmers.KmerLen
  {
    if count < Kmers.KmerLen && Kmers.KmerLen <= i + 1 {
      assert !Kmers.Clean(s, i + 1 - Kmers.KmerLen, i + 1) by {
        assert Kmers.BaseCode(s[i - count]) == 4;
      }
    }
  }

  /** Set the slots of one window's two codes (`bitarraySet(index,
      reverse_kmer, 1)` then `bitarraySet(index, kmer, 1)`). */
  method Mark(r: BitArrays.BitArray, kmer: nat, rev: nat)
    requires IsIndex(r) && kmer < Kmers.KmerSpace && rev < Kmers.KmerSpace
    modifies r.data
    ensures IsIndex(r)
    ensures forall c :: 0 <= c < Kmers.KmerSpace ==>
      (r.Get(c) == 1 <==> old(r.Get(c)) == 1 || c == kmer || c == rev)
  {
    r.Set(rev, 1);
    r.Set(kmer, 1);
  }

  /** The rolling state of `createIndex` after the first `i` bases of `s`:
      `count` is the length of the clean run ending at `i` (it is maximal:
      the base before it has code 4), `run` holds its codes, and `kmer`,
      `rev` are the forward and reverse codes rolled over it from the
      32-bit seeds `f0` and `r0` (0 after a restart). */
  ghost predicate Rolling(s: string, i: nat, count: nat, run: seq<Kmers.Code>,
                          f0: nat, r0: nat, kmer: nat, rev: nat)
    requires Kmers.IsAscii(s)
  {
    count <= i <= |s| && Kmers.Clean(s, i - count, i) &&
    (count < i ==> Kmers.BaseCode(s[i - count - 1]) == 4) &&
    run == Kmers.RunCodes(s, i - count, i) &&
    f0 < Kmers.KmerSpace && r0 < Kmers.KmerSpace &&
    kmer == Kmers.FwdAfter(f0, run) && rev == Kmers.RevAfter(r0, run)
  }

  /** A base with code 4 restarts the run; it brings in no window. */
  lemma Restart(s: string, i: nat)
    requires Kmers.IsAscii(s) && i < |s| && Kmers.BaseCode(s[i]) == 4
    ensures Rolling(s, i + 1, 0, [], 0, 0, 0, 0)
    ensures forall c :: SeenIn(s, i + 1, c) <==> SeenIn(s, i, c)
  {
    NewWindow(s, i, false, 0, 0);
  }

  /** Any other base extends the run by one step of each code. */
  lemma Advance(s: string, i: nat, count: nat, run: seq<Kmers.Code>, f0: nat, r0: nat,
                kmer: nat, rev: nat, code: Kmers.Code, f: nat, b: nat)
    requires Kmers.IsAscii(s) && i < |s| && Kmers.BaseCode(s[i]) == code
    requires Rolling(s, i, count, run, f0, r0, kmer, rev)
    requires f == Kmers.FwdStep(kmer, code) && b == Kmers.RevStep(rev, code)
    ensures Rolling(s, i + 1, count + 1, run + [code], f0, r0, f, b)
  {
    Kmers.RunCodesSnoc(s, i - count, i);
    Kmers.RollStep(f0, r0, run, code);
  }

  /** Once the run is 16 long the window ending at `i + 1` is clean and its
      codes are the rolled ones; while it is shorter that window is not clean. */
  lemma Emerge(s: string, i: nat, count: nat, run: seq<Kmers.Code>, f0: nat, r0: nat, f: nat, b: nat)
    requires Kmers.IsAscii(s) && i < |s| && 0 < count
    requires Rolling(s, i + 1, count, run, f0, r0, f, b)
    ensures count >= Kmers.KmerLen <==> Kmers.KmerLen <= i + 1 && Kmers.IsWindow(s, i + 1 - Kmers.KmerLen)
    ensures count >= Kmers.KmerLen ==>
      f == Kmers.FwdCode(s, i + 1 - Kmers.KmerLen) && b == Kmers.RevCode(s, i + 1 - Kmers.KmerLen)
  {
    RunCoversWindow(s, i, count);
    if count >= Kmers.KmerLen {
      Kmers.RollWindow(f0, r0, s, i + 1 - count, i + 1);
    }
  }

  /** So the window codes are 32-bit and the window is the only new one. */
  lemma Arrive(s: string, i: nat, count: nat, run: seq<Kmers.Code>, f0: nat, r0: nat, f: nat, b: nat)
    requires Kmers.IsAscii(s) && i < |s| && 0 < count
    requires Rolling(s, i + 1, count, run, f0, r0, f, b)
    ensures count >= Kmers.KmerLen ==> f < Kmers.KmerSpace && b < Kmers.KmerSpace
    ensures forall c :: SeenIn(s, i + 1, c) <==> SeenIn(s, i, c) || (count >= Kmers.KmerLen && (c == f || c == b))
  {
    Emerge(s, i, count, run, f0, r0, f, b);
    var clean := count >= Kmers.KmerLen;
    if clean {
      Kmers.CodesBelow(s, i + 1 - Kmers.KmerLen);
    }
    NewWindow(s, i, clean, f, b);
  }

  /** The rolled codes are 32-bit values. */
  lemma RollingBelow(s: string, i: nat, count: nat, run: seq<Kmers.Code>, f0: nat, r0: nat, kmer: nat, rev: nat)
    requires Kmers.IsAscii(s) && Rolling(s, i, count, run, f0, r0, kmer, rev)
    ensures kmer < Kmers.KmerSpace && rev < Kmers.KmerSpace
  {
    Kmers.FwdAfterValue(f0, run);
    Kmers.RevAfterBelow(r0, run);
  }

  /** The loop of `createIndex` over one record's bases: roll the forward
      and reverse codes, restart at every base whose code is 4, and mark
      both codes once the clean run is 16 bases long.  Afterwards a slot is
      1 exactly when it was 1 before or holds a code of a clean window that
      ends at or before `limit`. */
  method IndexRecord(r: BitArrays.BitArray, s: string, limit: nat)
    requires IsIndex(r) && Kmers.IsAscii(s) && limit <= |s|
    modifies r.data
    ensures IsIndex(r)
    ensures forall c :: 0 <= c < Kmers.KmerSpace ==>
      (r.Get(c) == 1 <==> old(r.Get(c)) == 1 || SeenIn(s, limit, c))
  {
    ghost var f0 := Snapshot(r);
    var kmer: nat, rev: nat, count: nat := 0, 0, 0;
    ghost var run: seq<Kmers.Code> := [];
    var i := 0;
    while i < limit
      invariant i <= limit && Rolling(s, i, count, run, 0, 0, kmer, rev)
      invariant IsIndex(r)
      invariant forall c :: 0 <= c < Kmers.KmerSpace ==>
        (r.Get(c) == 1 <==> FileSlot(f0, c) == 1 || SeenIn(s, i, c))
    {
      kmer, rev, count, run := IndexBase(r, s, i, kmer, rev, count, run, f0);
      i := i + 1;
    }
  }

  /** Base `i` of `IndexRecord`. */
  method IndexBase(r: BitArrays.BitArray, s: string, i: nat, kmer0: nat, rev0: nat, count0: nat,
                   ghost run0: seq<Kmers.Code>, ghost f0: IndexFile)
    returns (kmer: nat, rev: nat, count: nat, ghost run: seq<Kmers.Code>)
    requires IsIndex(r) && Kmers.IsAscii(s) && i < |s| && WellFormed(f0)
    requires Rolling(s, i, count0, run0, 0, 0, kmer0, rev0)
    requires forall c :: 0 <= c < Kmers.KmerSpace ==>
      (r.Get(c) == 1 <==> FileSlot(f0, c) == 1 || SeenIn(s, i, c))
    modifies r.data
    ensures IsIndex(r) && Rolling(s, i + 1, count, run, 0, 0, kmer, rev)
    ensures forall c :: 0 <= c < Kmers.KmerSpace ==>
      (r.Get(c) == 1 <==> FileSlot(f0, c) == 1 || SeenIn(s, i + 1, c))
  {
    var code := Kmers.BaseCode(s[i]);
    if code == 4 {
      Restart(s, i);
      kmer, rev, count, run := 0, 0, 0, [];
    } else {
      kmer, rev := Kmers.FwdStep(kmer0, code), Kmers.RevStep(rev0, code);
      Advance(s, i, count0, run0, 0, 0, kmer0, rev0, code, kmer, rev);
      count, run := count0 + 1, run0 + [code];
      Arrive(s, i, count, run, 0, 0, kmer, rev);
      if count >= Kmers.KmerLen {
        Mark(r, kmer, rev);
      }
    }
  }

  /** `createIndex(index, path)`: start from `index`, or from a new zeroed
      2^32-slot one-bit array when it is NULL, and index every record.  A
      slot ends up 1 exactly when it was 1 before or is a code of a clean
      window the loop reaches in some record. */
  method CreateIndex(index: BitArrays.BitArray?, seqs: seq<Sequence>, scan: Kmers.Scan)
    returns (r: BitArrays.BitArray)
    requires index != null ==> IsIndex(index)
    requires Readable(seqs, scan)
    modifies if index == null then {} else {index.data}
    ensures IsIndex(r)
    ensures index != null ==> r == index
    ensures index == null ==> fresh(r) && fresh(r.data)
    ensures forall c :: 0 <= c < Kmers.KmerSpace ==>
      (r.Get(c) == 1 <==> (index != null && old(index.Get(c)) == 1) || Indexed(seqs, |seqs|, scan, c))
  {
    if index == null {
      var b := BitArrays.BitArray.New(Kmers.KmerSpace, 1);
      r := b;
    } else {
      r := index;
    }
    var k := 0;
    while k < |seqs|
      invariant 0 <= k <= |seqs|
      invariant IsIndex(r)
      invariant index != null ==> r == index
      invariant index == null ==> fresh(r) && fresh(r.data)
      invariant forall c :: 0 <= c < Kmers.KmerSpace ==>
        (r.Get(c) == 1 <==> (index != null && old(index.Get(c)) == 1) || Indexed(seqs, k, scan, c))
    {
      var s := seqs[k].bases;
      var limit := Kmers.ScanLimit(scan, |s|);
      IndexRecord(r, s, limit);
      forall c | 0 <= c < Kmers.KmerSpace
        ensures Indexed(seqs, k + 1, scan, c) <==> Indexed(seqs, k, scan, c) || SeenIn(s, limit, c)
      {
        IndexedStep(seqs, k, scan, c);
      }
      k := k + 1;
    }
  }

  /** `bitarrayOr(index->index, tmp->index)` on two one-bit arrays: of the
      same size, a slot ends up 1 exactly when it was 1 in either; of
      different sizes ("size mismatch"), nothing changes. */
  method Merge(index: BitArrays.BitArray, tmp: BitArrays.BitArray)
    requires IsBits(index) && IsBits(tmp)
    modifies index.data
    ensures IsBits(index) && index.size == old(index.size)
    ensures index.size != tmp.size ==> forall c :: index.Get(c) == old(index.Get(c))
    ensures index.size == tmp.size ==> forall c :: 0 <= c < index.size ==>
      (index.Get(c) == 1 <==> old(index.Get(c)) == 1 || old(tmp.Get(c)) == 1)
  {
    ghost var d, e := index.data[..], tmp.data[..];
    index.Or(tmp);
    if index.size != tmp.size {
      return;
    }
    forall c | 0 <= c < index.size
      ensures index.Get(c) == 1 <==> old(index.Get(c)) == 1 || old(tmp.Get(c)) == 1
    {
      BitArrays.OrSlots(d, e, index.size, 1, index.mask, c);
      OneBit(BitArrays.SlotOf(d, 1, index.mask, c), BitArrays.SlotOf(e, 1, index.mask, c));
    }
  }

  /** On one-bit slots, or is 1 exactly when either side is. */
  lemma OneBit(x: bv8, y: bv8)
    requires x <= 1 && y <= 1
    ensures x | y == 1 <==> x == 1 || y == 1
  {
  }

  /** What `dumpIndex` writes and `loadIndex` reads back: the header
      fields `size`, `mask`, `nbit`, `__realCols`, then the data bytes.
      Compression (`gzwrite`/`gzread`) is not modelled. */
  datatype IndexFile = IndexFile(size: nat, mask: bv8, nbit: nat, realCols: nat, bytes: seq<bv8>)

  /** A file `dumpIndex` could have written; `loadIndex` checks nothing and
      relies on this. */
  predicate WellFormed(f: IndexFile)
  {
    BitArrays.Accepted(f.nbit) && 1 <= f.nbit && f.mask == BitArrays.BitMask[f.nbit - 1] &&
    f.realCols == BitArrays.Cols(f.size, f.nbit) && |f.bytes| == f.realCols
  }

  /** Slot `c` of the array stored in `f`; 0 past its size. */
  function FileSlot(f: IndexFile, c: nat): (r: bv8)
    requires WellFormed(f)
    ensures r <= f.mask
  {
    if c >= f.size then 0
    else
      BitArrays.ByteInRange(c, f.size, f.nbit);
      BitArrays.SlotOf(f.bytes, f.nbit, f.mask, c)
  }

  /** `dumpIndex`: the header fields and the bytes of `b`.  Every slot of
      the file reads as the slot of `b`. */
  method DumpIndex(b: BitArrays.BitArray) returns (f: IndexFile)
    requires b.Valid()
    ensures WellFormed(f)
    ensures f.size == b.size && f.nbit == b.nbit && f.bytes == b.data[..]
    ensures forall c :: FileSlot(f, c) == b.Get(c)
  {
    f := IndexFile(b.size, b.mask, b.nbit, b.realCols, b.data[..]);
  }

  /** The contents of `b` as a value (what `dumpIndex` would write). */
  ghost function Snapshot(b: BitArrays.BitArray): (f: IndexFile)
    requires b.Valid()
    reads b, b.data
    ensures WellFormed(f) && f.size == b.size && f.bytes == b.data[..]
    ensures forall c :: FileSlot(f, c) == b.Get(c)
  {
    IndexFile(b.size, b.mask, b.nbit, b.realCols, b.data[..])
  }

  /** `loadIndex`: a fresh array with the fields and bytes of `f`.  Every
      slot reads as the slot of the file, so `loadIndex` after `dumpIndex`
      gives back every slot. */
  method LoadIndex(f: IndexFile) returns (b: BitArrays.BitArray)
    requires WellFormed(f)
    ensures fresh(b) && fresh(b.data) && b.Valid()
    ensures b.size == f.size && b.nbit == f.nbit && b.data[..] == f.bytes
    ensures forall c :: b.Get(c) == FileSlot(f, c)
  {
    b := new BitArrays.BitArray(f.size, f.nbit);
    forall k | 0 <= k < b.data.Length {
      b.data[k] := f.bytes[k];
    }
    assert b.data[..] == f.bytes;
  }

  /** `loadIndex` of what `dumpIndex` wrote: a fresh array of the same size
      and width whose every slot reads as in `b`. */
  method DumpThenLoad(b: BitArrays.BitArray) returns (b2: BitArrays.BitArray)
    requires b.Valid()
    ensures fresh(b2) && b2.Valid() && b2.size == b.size && b2.nbit == b.nbit
    ensures forall c :: b2.Get(c) == b.Get(c)
  {
    var f := DumpIndex(b);
    b2 := LoadIndex(f);
  }

  /** A reference argument of `do_index`: a path with no file behind it, a
      FASTA file whose `<path>.index` cache exists (its contents), or a
      FASTA file with no cache (its records). */
  datatype Reference = Missing | Cached(file: IndexFile) | Fasta(records: seq<Sequence>)

  /** What `do_index` relies on: a cache holds a one-bit array, of any
      size, and the records are readable. */
  predicate Acceptable(ref: Reference, scan: Kmers.Scan)
  {
    (ref.Cached? ==> WellFormed(ref.file) && ref.file.nbit == 1) &&
    (ref.Fasta? ==> Readable(ref.records, scan))
  }

  /** The number of slots of the index `ref` contributes: the cache's, or
      2^32 for an index built from records. */
  function Size(ref: Reference): nat
  {
    match ref
    case Missing => 0
    case Cached(f) => f.size
    case Fasta(_) => Kmers.KmerSpace
  }

  /** The first reference from `i` on that exists, or `|refs|`. */
  function FirstFound(refs: seq<Reference>, i: nat): (f: nat)
    requires i <= |refs|
    ensures i <= f <= |refs|
    ensures forall k :: i <= k < f ==> refs[k].Missing?
    ensures f < |refs| ==> !refs[f].Missing?
    decreases |refs| - i
  {
    if i == |refs| then |refs| else if refs[i].Missing? then FirstFound(refs, i + 1) else i
  }

  /** Slot `c` is 1 in the index that `ref` contributes. */
  ghost predicate Gives(ref: Reference, scan: Kmers.Scan, c: nat)
    requires Acceptable(ref, scan)
  {
    match ref
    case Missing => false
    case Cached(f) => FileSlot(f, c) == 1
    case Fasta(records) => Indexed(records, |records|, scan, c)
  }

  /** One pass of the `do_index` loop: a missing path changes nothing
      (`error` is reported); otherwise the reference's index, loaded from
      the cache or created (and then dumped to the cache), becomes the index
      when there is none yet and is or-ed into it otherwise, which changes
      nothing when the two sizes differ. */
  method Absorb(index: BitArrays.BitArray?, ref: Reference, scan: Kmers.Scan) returns (next: BitArrays.BitArray?)
    requires index != null ==> IsBits(index)
    requires Acceptable(ref, scan)
    modifies if index == null then {} else {index.data}
    ensures next == null <==> index == null && ref.Missing?
    ensures index != null ==> next == index && next.size == old(index.size)
    ensures index == null && next != null ==> fresh(next) && fresh(next.data) && next.size == Size(ref)
    ensures next != null ==> IsBits(next) && forall c :: 0 <= c < next.size ==>
      (next.Get(c) == 1 <==>
        (index != null && old(index.Get(c)) == 1) || (Size(ref) == next.size && Gives(ref, scan, c)))
  {
    match ref {
      case Missing =>
        next := index;
      case Cached(f) =>
        var tmp := LoadIndex(f);
        if index == null {
          next := tmp;
        } else {
          Merge(index, tmp);
          next := index;
        }
      case Fasta(records) =>
        var tmp := CreateIndex(null, records, scan);
        if index == null {
          next := tmp;
        } else {
          Merge(index, tmp);
          next := index;
        }
    }
  }

  /** The loop of `do_index` over the reference paths.  The result is NULL
      exactly when no reference exists.  Otherwise it has the size of the
      first reference that exists, and a slot is 1 exactly when some
      reference's index of that same size has it: one of another size is
      skipped by `bitarrayOr`. */
  method DoIndex(refs: seq<Reference>, scan: Kmers.Scan) returns (index: BitArrays.BitArray?)
    requires forall k :: 0 <= k < |refs| ==> Acceptable(refs[k], scan)
    ensures index == null <==> forall k :: 0 <= k < |refs| ==> refs[k].Missing?
    ensures index != null ==>
      fresh(index) && IsBits(index) && FirstFound(refs, 0) < |refs| && index.size == Size(refs[FirstFound(refs, 0)])
    ensures index != null ==> forall c :: 0 <= c < index.size ==>
      (index.Get(c) == 1 <==> exists k :: 0 <= k < |refs| && Size(refs[k]) == index.size && Gives(refs[k], scan, c))
    ensures index != null && (forall k :: 0 <= k < |refs| && !refs[k].Missing? ==> Size(refs[k]) == Kmers.KmerSpace) ==>
      IsIndex(index)
  {
    index := null;
    var n := 0;
    while n < |refs|
      invariant 0 <= n <= |refs|
      invariant index == null <==> forall k :: 0 <= k < n ==> refs[k].Missing?
      invariant index != null ==> fresh(index) && fresh(index.data) && IsBits(index)
      invariant index != null ==> FirstFound(refs, 0) < n && index.size == Size(refs[FirstFound(refs, 0)])
      invariant index != null ==> forall c :: 0 <= c < index.size ==>
        (index.Get(c) == 1 <==> exists k :: 0 <= k < n && Size(refs[k]) == index.size && Gives(refs[k], scan, c))
    {
      index := Absorb(index, refs[n], scan);
      if index != null {
        Absorbed(refs, scan, n, index.size);
      }
      n := n + 1;
    }
  }

  /** The codes the first `n + 1` references give at size `size` are those
      of the first `n` and those of reference `n`. */
  lemma Absorbed(refs: seq<Reference>, scan: Kmers.Scan, n: nat, size: nat)
    requires n < |refs| && forall k :: 0 <= k < |refs| ==> Acceptable(refs[k], scan)
    ensures forall c :: 0 <= c < size ==>
      ((exists k :: 0 <= k < n + 1 && Size(refs[k]) == size && Gives(refs[k], scan, c)) <==>
        (exists k :: 0 <= k < n && Size(refs[k]) == size && Gives(refs[k], scan, c)) ||
        (Size(refs[n]) == size && Gives(refs[n], scan, c)))
  {
    forall c | 0 <= c < size && Size(refs[n]) == size && Gives(refs[n], scan, c)
      ensures exists k :: 0 <= k < n + 1 && Size(refs[k]) == size && Gives(refs[k], scan, c)
    {
      assert 0 <= n < n + 1;
    }
  }

  /** For the loop as written, a record shorter than 15 bases makes the
      `size_t` loop bound wrap past the end of the bases. */
  lemma ShortRecordOverruns(len: nat)
    requires len < Kmers.KmerLen - 1
    ensures (len + Alloc.U64 - Kmers.KmerLen + 1) % Alloc.U64 > len
  {
    Alloc.ModSmall(len + Alloc.U64 - Kmers.KmerLen + 1, Alloc.U64);
  }
  /** As written the loop stops at `len - 15` although the loop index is the
      last base of the window: a record shorter than 31 bases contributes
      no code at all. */
  lemma AsWrittenSkipsShortRecords(s: string, c: nat)
    requires Kmers.IsAscii(s) && Kmers.KmerLen - 1 <= |s| < 2 * Kmers.KmerLen - 1
    ensures !SeenIn(s, Kmers.ScanLimit(Kmers.AsWritten, |s|), c)
  {
  }

  /** The smallest instance: sixteen `A`s form one clean window, yet the
      index built from them as written is empty. */
  lemma SixteenBasesIndexNothing(c: nat)
    ensures Kmers.IsAscii(seq(16, _ => 'A')) && Kmers.IsWindow(seq(16, _ => 'A'), 0)
    ensures !Indexed([Sequence("r", seq(16, _ => 'A'))], 1, Kmers.AsWritten, c)
  {
    var s := seq(16, _ => 'A');
    assert Kmers.Clean(s, 0, 16) by {
      forall i | 0 <= i < 16 ensures Kmers.BaseCode(s[i]) != 4 {
        assert s[i] == 'A';
      }
    }
    AsWrittenSkipsShortRecords(s, c);
  }

  /** With the loop reading every base, every clean window of every record
      is indexed under both of its codes. */
  lemma CorrectedIndexesEveryWindow(seqs: seq<Sequence>, k: nat, a: nat)
    requires Readable(seqs, Kmers.Corrected) && k < |seqs|
    requires Kmers.IsWindow(seqs[k].bases, a)
    ensures Indexed(seqs, |seqs|, Kmers.Corrected, Kmers.FwdCode(seqs[k].bases, a))
    ensures Indexed(seqs, |seqs|, Kmers.Corrected, Kmers.RevCode(seqs[k].bases, a))
  {
    var s := seqs[k].bases;
    assert SeenIn(s, Kmers.ScanLimit(Kmers.Corrected, |s|), Kmers.FwdCode(s, a));
    assert SeenIn(s, Kmers.ScanLimit(Kmers.Corrected, |s|), Kmers.RevCode(s, a));
  }
}
