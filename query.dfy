/** The query side of main.c: `createQuery` cuts every record into one
    `Kmer` per clean 16-base window, and `vaildKmers` marks the k-mers found
    in the index as dropped and then drops every run of kept k-mers shorter
    than 4.  A list of k-mers is a `seq` (grown by `arrayPush`, which
    `Arrays.DynArray.Push` shows to be an append) while it is built, and an
    `array` once `vaildKmers` updates its `drop` flags in place. */
module Query {

  import Kmers
  import BitArrays
  import Index

  /** How the compiler reads the plain `int drop : 1` bit-field: GCC and
      Clang make it signed, so storing 1 reads back as -1. */
  datatype BitField = SignedField | UnsignedField

  /** What `drop = 1` leaves in the one-bit field. */
  function Dropped(bf: BitField): (r: int)
    ensures r != 0
    ensures r == 1 <==> bf.UnsignedField?
  {
    if bf.SignedField? then -1 else 1
  }

  /** The signed 30-bit field `pos`: `v` wrapped into -2^29 .. 2^29 - 1. */
  function Int30(v: int): (r: int)
    ensures -0x2000_0000 <= r < 0x2000_0000
    ensures -0x2000_0000 <= v < 0x2000_0000 ==> r == v
  {
    (v + 0x2000_0000) % 0x4000_0000 - 0x2000_0000
  }

  /** The `Kmer` struct: window position, the `drop` and `strand` flags and
      the two 32-bit codes. */
  datatype Kmer = Kmer(pos: int, drop: int, strand: int, kmer: nat, rev: nat)

  /** The record `createQuery` pushes for the clean window starting at `a`. */
  function Record(s: string, a: nat): (r: Kmer)
    requires Kmers.IsAscii(s) && Kmers.IsWindow(s, a)
    ensures r.drop == 0 && r.strand == 0
  {
    Kmer(Int30(a), 0, 0, Kmers.FwdCode(s, a), Kmers.RevCode(s, a))
  }

  /** The records of the clean windows of `s` that end at or before `e`,
      in order. */
  function WindowsUpTo(s: string, e: nat): seq<Kmer>
    requires Kmers.IsAscii(s) && e <= |s|
  {
    if e < Kmers.KmerLen then []
    else
      WindowsUpTo(s, e - 1) +
      (if Kmers.IsWindow(s, e - Kmers.KmerLen) then [Record(s, e - Kmers.KmerLen)] else [])
  }

  predicate AllAscii(records: seq<Index.Sequence>)
  {
    forall k :: 0 <= k < |records| ==> Kmers.IsAscii(records[k].bases)
  }

  /** The k-mer records of one record as the loop reaches them. */
  function RecordWindows(r: Index.Sequence, scan: Kmers.Scan): seq<Kmer>
    requires Kmers.IsAscii(r.bases) && |r.bases| >= Kmers.KmerLen
  {
    WindowsUpTo(r.bases, Kmers.ScanLimit(scan, |r.bases|))
  }

  /** `query->kmers` after the first `n` records: one list per record of at
      least 16 bases, none for a shorter one. */
  function Lists(records: seq<Index.Sequence>, n: nat, scan: Kmers.Scan): seq<seq<Kmer>>
    requires n <= |records| && AllAscii(records)
  {
    if n == 0 then []
    else
      Lists(records, n - 1, scan) +
      (if |records[n - 1].bases| < Kmers.KmerLen then [] else [RecordWindows(records[n - 1], scan)])
  }

  /** A window covering a base of code 4 is not clean, so that base adds
      no record. */
  lemma NoWindowAt(s: string, i: nat, list: seq<Kmer>)
    requires Kmers.IsAscii(s) && i < |s| && Kmers.BaseCode(s[i]) == 4
    requires list == WindowsUpTo(s, i)
    ensures WindowsUpTo(s, i + 1) == list
  {
  }

  /** Reading base `i` adds the record of the window ending at `i + 1`
      when that window is clean (`clean`), and nothing otherwise. */
  lemma ExtendWindows(s: string, i: nat, list: seq<Kmer>, clean: bool, kmer: nat, rev: nat)
    requires Kmers.IsAscii(s) && i < |s| && list == WindowsUpTo(s, i)
    requires clean <==> Kmers.KmerLen <= i + 1 && Kmers.IsWindow(s, i + 1 - Kmers.KmerLen)
    requires clean ==> kmer == Kmers.FwdCode(s, i + 1 - Kmers.KmerLen) && rev == Kmers.RevCode(s, i + 1 - Kmers.KmerLen)
    ensures WindowsUpTo(s, i + 1) ==
      list + (if clean then [Kmer(Int30(i + 1 - Kmers.KmerLen), 0, 0, kmer, rev)] else [])
  {
  }

  /** The inner loop of `createQuery` over one record: roll the codes (from
      the values the previous record left, since `kmer` and `reverse_kmer`
      live across records), restart at code 4, and push a record for every
      window once the run is 16 long.  The list does not depend on the
      values carried in. */
  method ScanRecord(s: string, limit: nat, kmer0: nat, rev0: nat) returns (list: seq<Kmer>, kmer: nat, rev: nat)
    requires Kmers.IsAscii(s) && limit <= |s| && kmer0 < Kmers.KmerSpace && rev0 < Kmers.KmerSpace
    ensures list == WindowsUpTo(s, limit)
    ensures kmer < Kmers.KmerSpace && rev < Kmers.KmerSpace
  {
    kmer, rev := kmer0, rev0;
    var count: nat := 0;
    ghost var run: seq<Kmers.Code> := [];
    ghost var f0, r0 := kmer0, rev0;
    list := [];
    var i := 0;
    while i < limit
      invariant i <= limit && Index.Rolling(s, i, count, run, f0, r0, kmer, rev)
      invariant list == WindowsUpTo(s, i)
    {
      list, kmer, rev, count, run, f0, r0 := ScanBase(s, i, list, kmer, rev, count, run, f0, r0);
      i := i + 1;
    }
    Index.RollingBelow(s, i, count, run, f0, r0, kmer, rev);
  }

  /** One base of `ScanRecord`. */
  method ScanBase(s: string, i: nat, list0: seq<Kmer>, kmer0: nat, rev0: nat, count0: nat,
                  ghost run0: seq<Kmers.Code>, ghost f0: nat, ghost r0: nat)
    returns (list: seq<Kmer>, kmer: nat, rev: nat, count: nat, ghost run: seq<Kmers.Code>, ghost f: nat, ghost r: nat)
    requires Kmers.IsAscii(s) && i < |s| && Index.Rolling(s, i, count0, run0, f0, r0, kmer0, rev0)
    requires list0 == WindowsUpTo(s, i)
    ensures Index.Rolling(s, i + 1, count, run, f, r, kmer, rev) && list == WindowsUpTo(s, i + 1)
  {
    var code := Kmers.BaseCode(s[i]);
    if code == 4 {
      Index.Restart(s, i);
      list, kmer, rev, count, run, f, r := list0, 0, 0, 0, [], 0, 0;
      NoWindowAt(s, i, list);
    } else {
      kmer, rev := Kmers.FwdStep(kmer0, code), Kmers.RevStep(rev0, code);
      Index.Advance(s, i, count0, run0, f0, r0, kmer0, rev0, code, kmer, rev);
      count, run, f, r := count0 + 1, run0 + [code], f0, r0;
      Index.Emerge(s, i, count, run, f, r, kmer, rev);
      ExtendWindows(s, i, list0, count >= Kmers.KmerLen, kmer, rev);
      list := list0;
      if count >= Kmers.KmerLen {
        list := list + [Kmer(Int30(i + 1 - Kmers.KmerLen), 0, 0, kmer, rev)];
      }
    }
  }

  /** `createQuery`: copy every record into `query->seqs`, and push the
      k-mer list of every record of at least 16 bases into `query->kmers`. */
  method CreateQuery(records: seq<Index.Sequence>, scan: Kmers.Scan)
    returns (kmers: seq<seq<Kmer>>, copies: seq<Index.Sequence>)
    requires AllAscii(records)
    ensures copies == records
    ensures kmers == Lists(records, |records|, scan)
  {
    var kmer: nat, rev: nat := 0, 0;
    kmers, copies := [], [];
    var n := 0;
    while n < |records|
      invariant n <= |records|
      invariant copies == records[..n]
      invariant kmers == Lists(records, n, scan)
      invariant kmer < Kmers.KmerSpace && rev < Kmers.KmerSpace
    {
      var r := records[n];
      copies := copies + [Index.Sequence(r.name, r.bases)];
      if |r.bases| >= Kmers.KmerLen {
        var list;
        list, kmer, rev := ScanRecord(r.bases, Kmers.ScanLimit(scan, |r.bases|), kmer, rev);
        kmers := kmers + [list];
      }
      assert records[..n + 1] == records[..n] + [r];
      n := n + 1;
    }
    assert records[..n] == records;
  }
  /** Every record is that of a clean window ending at or before `e`, and
      for records shorter than 2^29 bases the positions are the window
      starts, strictly increasing. */
  lemma {:induction false} WindowsInOrder(s: string, e: nat)
    requires Kmers.IsAscii(s) && e <= |s| <= 0x2000_0000
    ensures forall k :: 0 <= k < |WindowsUpTo(s, e)| ==>
      0 <= WindowsUpTo(s, e)[k].pos && WindowsUpTo(s, e)[k].pos + Kmers.KmerLen <= e &&
      Kmers.IsWindow(s, WindowsUpTo(s, e)[k].pos) &&
      WindowsUpTo(s, e)[k] == Record(s, WindowsUpTo(s, e)[k].pos)
    ensures forall j, k :: 0 <= j < k < |WindowsUpTo(s, e)| ==>
      WindowsUpTo(s, e)[j].pos < WindowsUpTo(s, e)[k].pos
  {
    if e >= Kmers.KmerLen {
      WindowsInOrder(s, e - 1);
    }
  }

  /** Every clean window ending at or before `e` has its record. */
  lemma {:induction false} WindowsComplete(s: string, e: nat, a: nat)
    requires Kmers.IsAscii(s) && e <= |s|
    requires a + Kmers.KmerLen <= e && Kmers.IsWindow(s, a)
    ensures Record(s, a) in WindowsUpTo(s, e)
  {
    if a + Kmers.KmerLen < e {
      WindowsComplete(s, e - 1, a);
    }
  }

  /** The lists of fewer records are a prefix of the lists of more. */
  lemma {:induction false} ListsPrefix(records: seq<Index.Sequence>, n: nat, m: nat, scan: Kmers.Scan)
    requires n <= m <= |records| && AllAscii(records)
    ensures Lists(records, n, scan) <= Lists(records, m, scan)
  {
    if n < m {
      ListsPrefix(records, n, m - 1, scan);
    }
  }

  /** `query->kmers` is as long as `query->seqs` exactly when no record is
      shorter than 16 bases; otherwise the two arrays, indexed together by
      `collectSegment`, are out of step. */
  lemma {:induction false} ListsAligned(records: seq<Index.Sequence>, n: nat, scan: Kmers.Scan)
    requires n <= |records| && AllAscii(records)
    ensures |Lists(records, n, scan)| <= n
    ensures |Lists(records, n, scan)| == n <==> forall k :: 0 <= k < n ==> |records[k].bases| >= Kmers.KmerLen
  {
    if n > 0 {
      ListsAligned(records, n - 1, scan);
    }
  }

  /** A short first record shifts every later list down by one: the first
      k-mer list belongs to the second record. */
  lemma ShortRecordShifts(records: seq<Index.Sequence>, scan: Kmers.Scan)
    requires 2 <= |records| && AllAscii(records)
    requires |records[0].bases| < Kmers.KmerLen <= |records[1].bases|
    ensures |Lists(records, |records|, scan)| >= 1
    ensures Lists(records, |records|, scan)[0] == RecordWindows(records[1], scan)
  {
    ListsPrefix(records, 2, |records|, scan);
    assert Lists(records, 1, scan) == [];
  }
}
