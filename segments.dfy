/** `collectSegment` and `collectSegmentMacro` of main.c: every run of k-mers
    not flagged 1 whose positions span more than 5 becomes a `Segment`, whose
    bases are rebuilt from the k-mers.  The run's `start` and `end` are k-mer
    POSITIONS, and the macro reads `kmers->data[start]` and
    `kmers->data[k]` with them as if they were indices into the list; a read
    past the list is undefined behaviour, which the model reports as
    `Undefined`.

    A segment's `bases` is the 2-bit `BitArray` the macro fills, written as
    the sequence of its slot values (`SlotView`): `PutIsStore` proves that
    `Put` is what `bitarraySet` does to those slots. */
module Segments {

  import BitArrays
  import Kmers
  import Query
  import Validate

  type Kmer = Query.Kmer

  /** The result of code that may read out of bounds. */
  datatype Outcome<T> = Done(value: T) | Undefined

  /** The `Segment` struct.  `id` and `Tm` are not written by
      `collectSegment` (the memory is uninitialised); the model puts 0 there. */
  datatype Segment = Segment(id: int, name: string, start: int, end: int, bases: seq<bv8>, vaild: int, tm: real)

  /** `bitarraySet` on a 2-bit array seen as its slots: `v & 3` in slot `i`,
      nothing when `i` is out of range. */
  function Put(b: seq<bv8>, i: int, v: bv8): (r: seq<bv8>)
    ensures |r| == |b|
    ensures forall p :: 0 <= p < |b| ==> r[p] == if p == i then v & 3 else b[p]
  {
    if 0 <= i < |b| then b[i := v & 3] else b
  }

  /** Slot `p` of a 2-bit array of `size` slots held in the bytes `d`. */
  function BaseSlot(d: seq<bv8>, size: nat, p: nat): bv8
    requires |d| == BitArrays.Cols(size, 2) && p < size
  {
    BitArrays.ByteInRange(p, size, 2);
    BitArrays.SlotOf(d, 2, 3, p)
  }

  /** The slots of a 2-bit array of `size` slots held in the bytes `d`. */
  function SlotView(d: seq<bv8>, size: nat): (r: seq<bv8>)
    requires |d| == BitArrays.Cols(size, 2)
    ensures |r| == size
  {
    seq(size, p requires 0 <= p < size => BaseSlot(d, size, p))
  }

  /** `Put` is `bitarraySet` on a 2-bit array: storing `v` into slot `i`
      of the bytes changes their slots exactly as `Put` changes the slot
      view, and an index past the size changes neither. */
  lemma PutIsStore(d: seq<bv8>, size: nat, i: nat, v: bv8)
    requires |d| == BitArrays.Cols(size, 2)
    ensures i < size ==>
      BitArrays.ByteOf(i, 2) < |d| && |BitArrays.StoreSlot(d, 2, 3, i, v)| == |d| &&
      SlotView(BitArrays.StoreSlot(d, 2, 3, i, v), size) == Put(SlotView(d, size), i, v)
    ensures i >= size ==> Put(SlotView(d, size), i, v) == SlotView(d, size)
  {
    if i < size {
      BitArrays.StoreKeepsOthers(d, size, 2, 3, i, v);
      BitArrays.SlotStoreSame(d, 2, 3, i, v);
      var e := BitArrays.StoreSlot(d, 2, 3, i, v);
      forall p | 0 <= p < size
        ensures SlotView(e, size)[p] == Put(SlotView(d, size), i, v)[p]
      {
        if p != i {
          assert BaseSlot(e, size, p) == BaseSlot(d, size, p);
        }
      }
    }
  }

  /** Slot `p` of the bases the macro builds for the run `[a, b]`: the 16
      digits of the first k-mer's code in slots 0..15, then the last base of
      k-mer `k` in slot `16 + k - 1` for `k` from `a + 1` to `b`.  With an
      absolute `k` those slots start at `a + 16`, not at 16; slots no write
      reaches stay 0. */
  function Slots(list: seq<Kmer>, a: nat, b: nat): (r: seq<bv8>)
    requires a <= b < |list|
    ensures |r| == b - a + Kmers.KmerLen + 1
  {
    seq(b - a + Kmers.KmerLen + 1, p requires 0 <= p < b - a + Kmers.KmerLen + 1 =>
      if p < Kmers.KmerLen then Kmers.Digits(list[a].kmer, Kmers.KmerLen)[p] as bv8
      else if a + Kmers.KmerLen <= p <= b + Kmers.KmerLen - 1 then (list[p - Kmers.KmerLen + 1].kmer % 4) as bv8
      else 0)
  }

  /** What the macro produces for the run `[a, b]`: the segment, or
      `Undefined` when a read of `kmers->data` falls past the list. */
  function Emitted(list: seq<Kmer>, name: string, a: nat, b: nat): (r: Outcome<Segment>)
    requires a <= b
    ensures r.Done? <==> b < |list|
    ensures r.Done? ==>
      r.value.start == a && r.value.end == b && r.value.name == name && r.value.vaild == 1 &&
      |r.value.bases| == b - a + Kmers.KmerLen + 1
  {
    if b < |list| then Done(Segment(0, name, a, b, Slots(list, a, b), 1, 0.0)) else Undefined
  }

  /** Digit `p` of `Digits(x, n)` is `x` shifted right by `2(n - 1 - p)`. */
  lemma {:induction false} DigitAt(x: nat, n: nat, p: nat)
    requires p < n
    ensures Kmers.Digits(x, n)[p] == Kmers.Quarter(x, n - 1 - p) % 4
  {
    Kmers.DigitsFront(x, n - 1);
    if p > 0 {
      DigitAt(x, n - 1, p - 1);
    }
  }

  /** `collectSegmentMacro(segments, start, end)` for a run with
      `end - start > 5`. */
  method Emit(list: seq<Kmer>, name: string, start: int, end: int) returns (o: Outcome<Segment>)
    requires 0 <= start && start + 5 < end
    ensures o == Emitted(list, name, start, end)
  {
    if start >= |list| {
      return Undefined;
    }
    var size := end - start + Kmers.KmerLen + 1;
    var bases: seq<bv8> := seq(size, _ => 0);
    var code := list[start].kmer;
    var kmerint := code;
    var k := 0;
    while k < Kmers.KmerLen
      invariant k <= Kmers.KmerLen && |bases| == size
      invariant kmerint == Kmers.Quarter(code, k)
      invariant forall p :: 0 <= p < size ==>
        bases[p] == if Kmers.KmerLen - k <= p < Kmers.KmerLen then Kmers.Digits(code, Kmers.KmerLen)[p] as bv8 else 0
    {
      DigitAt(code, Kmers.KmerLen, Kmers.KmerLen - k - 1);
      bases := Put(bases, Kmers.KmerLen - k - 1, (kmerint % 4) as bv8);
      Kmers.QuarterShift(code, k);
      kmerint := kmerint / 4;
      k := k + 1;
    }
    k := start + 1;
    while k <= end
      invariant start + 1 <= k <= end + 1 && k - 1 < |list| && |bases| == size
      invariant forall p :: 0 <= p < size ==>
        bases[p] == if p < Kmers.KmerLen then Kmers.Digits(code, Kmers.KmerLen)[p] as bv8
          else if start + Kmers.KmerLen <= p <= k + Kmers.KmerLen - 2 then (list[p - Kmers.KmerLen + 1].kmer % 4) as bv8
          else 0
    {
      if k >= |list| {
        return Undefined;
      }
      bases := Put(bases, Kmers.KmerLen + k - 1, (list[k].kmer % 4) as bv8);
      k := k + 1;
    }
    assert bases == Slots(list, start, end);
    return Done(Segment(0, name, start, end, bases, 1, 0.0));
  }

  /** One more segment, unless something is already undefined. */
  function Then(acc: Outcome<seq<Segment>>, o: Outcome<Segment>): (r: Outcome<seq<Segment>>)
    ensures r.Done? <==> acc.Done? && o.Done?
    ensures r.Done? ==> r.value == acc.value + [o.value]
  {
    if acc.Done? && o.Done? then Done(acc.value + [o.value]) else Undefined
  }

  /** A k-mer continues a run unless its flag is 1 (`kmer->drop == 1`). */
  predicate Open(x: Kmer)
  {
    x.drop != 1
  }

  /** The index of the first k-mer of the open run through `i`. */
  function Begin(list: seq<Kmer>, i: nat): (r: nat)
    requires i < |list|
    ensures r <= i
  {
    if i > 0 && Open(list[i - 1]) then Begin(list, i - 1) else i
  }

  /** The segments of the runs that a k-mer flagged 1 closes before index
      `j`: the run `[Begin, i)` closed at `i` is emitted when the positions of
      its first and last k-mers differ by more than 5. */
  function Closed(list: seq<Kmer>, name: string, j: nat): Outcome<seq<Segment>>
    requires j <= |list| && forall k :: 0 <= k < |list| ==> list[k].pos >= 0
  {
    if j == 0 then Done([])
    else if !Open(list[j - 1]) && j >= 2 && Open(list[j - 2]) &&
      list[j - 2].pos - list[Begin(list, j - 2)].pos > 5
    then Then(Closed(list, name, j - 1), Emitted(list, name, list[Begin(list, j - 2)].pos, list[j - 2].pos))
    else Closed(list, name, j - 1)
  }

  /** The segments of one list: the closed runs, then the run still open at
      the end, which is emitted only when the k-mer at index `start` (its
      first POSITION) is kept and the span is more than 5. */
  function Collected(list: seq<Kmer>, name: string): Outcome<seq<Segment>>
    requires forall k :: 0 <= k < |list| ==> list[k].pos >= 0
  {
    var closed := Closed(list, name, |list|);
    if |list| == 0 || !Open(list[|list| - 1]) then closed
    else
      var a, b := list[Begin(list, |list| - 1)].pos, list[|list| - 1].pos;
      if a >= |list| then Undefined
      else if list[a].drop == 0 && b - a > 5 then Then(closed, Emitted(list, name, a, b))
      else closed
  }

  /** An undefined read stays undefined whatever follows. */
  lemma {:induction false} StaysUndefined(list: seq<Kmer>, name: string, j: nat, n: nat)
    requires j <= n <= |list| && forall k :: 0 <= k < |list| ==> list[k].pos >= 0
    requires Closed(list, name, j).Undefined?
    ensures Closed(list, name, n).Undefined?
    decreases n
  {
    if n > j {
      StaysUndefined(list, name, j, n - 1);
    }
  }

  /** The loop of `collectSegment` over one list of k-mers.  `start` is -1
      while no run is open; k-mer positions are taken to be non-negative
      (they are window starts, see `Query.WindowsInOrder`), so -1 is never a
      position. */
  method CollectList(list: seq<Kmer>, name: string) returns (o: Outcome<seq<Segment>>)
    requires forall k :: 0 <= k < |list| ==> list[k].pos >= 0
    ensures o == Collected(list, name)
  {
    var segs: seq<Segment> := [];
    var start, end := -1, -1;
    var j := 0;
    while j < |list|
      invariant j <= |list| && Closed(list, name, j) == Done(segs)
      invariant start == -1 <==> j == 0 || !Open(list[j - 1])
      invariant start != -1 ==> start == list[Begin(list, j - 1)].pos && end == list[j - 1].pos
    {
      var x := list[j];
      if x.drop == 1 {
        if start != -1 {
          if end - start > 5 {
            var e := Emit(list, name, start, end);
            if e.Undefined? {
              StaysUndefined(list, name, j + 1, |list|);
              return Undefined;
            }
            segs := segs + [e.value];
          }
          start, end := -1, -1;
        }
      } else {
        if start == -1 {
          start := x.pos;
        }
        end := x.pos;
      }
      j := j + 1;
    }
    if start != -1 && end != -1 {
      if start >= |list| {
        return Undefined;
      }
      if list[start].drop == 0 && end - start > 5 {
        var e := Emit(list, name, start, end);
        return Then(Done(segs), e);
      }
    }
    return Done(segs);
  }

  /** The segments of the first `n` lists, list `i` named after
      `names[i]`. */
  function CollectedAll(lists: seq<seq<Kmer>>, names: seq<string>, n: nat): Outcome<seq<Segment>>
    requires n <= |lists| <= |names|
    requires forall i, k :: 0 <= i < |lists| && 0 <= k < |lists[i]| ==> lists[i][k].pos >= 0
  {
    if n == 0 then Done([])
    else
      var acc, o := CollectedAll(lists, names, n - 1), Collected(lists[n - 1], names[n - 1]);
      if acc.Done? && o.Done? then Done(acc.value + o.value) else Undefined
  }

  /** `collectSegment`: the segments of every list in turn.  The name of
      list `i` is that of `query->seqs[i]`, which is the record the list came
      from only when no earlier record was shorter than 16 bases
      (`Query.ListsAligned`). */
  method CollectSegments(lists: seq<seq<Kmer>>, names: seq<string>) returns (o: Outcome<seq<Segment>>)
    requires |lists| <= |names|
    requires forall i, k :: 0 <= i < |lists| && 0 <= k < |lists[i]| ==> lists[i][k].pos >= 0
    ensures o == CollectedAll(lists, names, |lists|)
  {
    var segs: seq<Segment> := [];
    var i := 0;
    while i < |lists|
      invariant i <= |lists| && CollectedAll(lists, names, i) == Done(segs)
    {
      var one := CollectList(lists[i], names[i]);
      if one.Undefined? {
        UndefinedAll(lists, names, i + 1, |lists|);
        return Undefined;
      }
      segs := segs + one.value;
      i := i + 1;
    }
    return Done(segs);
  }

  lemma {:induction false} UndefinedAll(lists: seq<seq<Kmer>>, names: seq<string>, j: nat, n: nat)
    requires j <= n <= |lists| <= |names|
    requires forall i, k :: 0 <= i < |lists| && 0 <= k < |lists[i]| ==> lists[i][k].pos >= 0
    requires CollectedAll(lists, names, j).Undefined?
    ensures CollectedAll(lists, names, n).Undefined?
    decreases n
  {
    if n > j {
      UndefinedAll(lists, names, j, n - 1);
    }
  }

  // ---------------------------------------------------------------------
  // What the segments are

  /** The list of a record with no N from its start: k-mer `k` sits at
      position `k`. */
  predicate ByIndex(list: seq<Kmer>)
  {
    forall k :: 0 <= k < |list| ==> list[k].pos == k
  }

  /** Under the unsigned field a k-mer is open exactly when it is kept. */
  lemma OpenIsKept(list: seq<Kmer>, k: nat)
    requires Validate.Flags(list, Query.UnsignedField) && k < |list|
    ensures Open(list[k]) <==> Validate.Kept(list[k])
  {
  }

  /** The open run through `i` starts at a maximal edge. */
  lemma {:induction false} BeginEdge(list: seq<Kmer>, i: nat)
    requires i < |list| && Open(list[i])
    ensures forall k :: Begin(list, i) <= k <= i ==> Open(list[k])
    ensures Begin(list, i) == 0 || !Open(list[Begin(list, i) - 1])
    decreases i
  {
    if i > 0 && Open(list[i - 1]) {
      BeginEdge(list, i - 1);
    }
  }

  /** Inside a maximal open run every k-mer's run begins at `lo`. */
  lemma {:induction false} BeginIn(list: seq<Kmer>, lo: nat, k: nat)
    requires lo <= k < |list| && (lo == 0 || !Open(list[lo - 1]))
    requires forall m :: lo <= m <= k ==> Open(list[m])
    ensures Begin(list, k) == lo
    decreases k
  {
    if k > lo {
      BeginIn(list, lo, k - 1);
    }
  }

  /** With the unsigned field and positions equal to indices, every run
      closed before `j` is a maximal run of kept k-mers that ends before
      `j - 1` and spans more than 5. */
  lemma {:induction false} ClosedSound(list: seq<Kmer>, name: string, j: nat)
    requires j <= |list| && Validate.Flags(list, Query.UnsignedField) && ByIndex(list)
    ensures Closed(list, name, j).Done?
    ensures forall g :: g in Closed(list, name, j).value ==>
      0 <= g.start && g.end + 1 < j && g.start + 5 < g.end && Validate.MaximalRun(list, g.start, g.end + 1) &&
      Emitted(list, name, g.start, g.end) == Done(g)
    decreases j
  {
    if j > 0 {
      ClosedSound(list, name, j - 1);
      if !Open(list[j - 1]) && j >= 2 && Open(list[j - 2]) && j - 2 - Begin(list, j - 2) > 5 {
        RunSegment(list, name, j);
        ClosesAt(list, name, j);
      }
    }
  }

  /** The segment a closing k-mer at `j - 1` emits is its maximal run. */
  lemma RunSegment(list: seq<Kmer>, name: string, j: nat)
    requires 2 <= j <= |list| && Validate.Flags(list, Query.UnsignedField) && ByIndex(list)
    requires !Open(list[j - 1]) && Open(list[j - 2]) && j - 2 - Begin(list, j - 2) > 5
    ensures Emitted(list, name, Begin(list, j - 2), j - 2).Done?
    ensures var g := Emitted(list, name, Begin(list, j - 2), j - 2).value;
      0 <= g.start && g.end + 1 < j && g.start + 5 < g.end && Validate.MaximalRun(list, g.start, g.end + 1)
  {
    BeginEdge(list, j - 2);
  }

  /** ... and every maximal run of kept k-mers that ends before `j - 1`
      and spans more than 5 is one of those segments. */
  lemma {:induction false} ClosedComplete(list: seq<Kmer>, name: string, j: nat)
    requires j <= |list| && Validate.Flags(list, Query.UnsignedField) && ByIndex(list)
    ensures Closed(list, name, j).Done?
    ensures forall lo: nat, hi: nat :: lo + 6 < hi < j && Validate.MaximalRun(list, lo, hi) ==>
      Emitted(list, name, lo, hi - 1).value in Closed(list, name, j).value
    decreases j
  {
    ClosedSound(list, name, j);
    if j > 0 {
      ClosedComplete(list, name, j - 1);
      ClosedSound(list, name, j - 1);
      forall lo: nat, hi: nat | lo + 6 < hi < j && Validate.MaximalRun(list, lo, hi)
        ensures Emitted(list, name, lo, hi - 1).value in Closed(list, name, j).value
      {
        if hi == j - 1 {
          BeginIn(list, lo, j - 2);
          ClosesAt(list, name, j);
        } else {
          Grows(list, name, j);
        }
      }
    }
  }

  /** A closing k-mer at `j - 1` appends the segment of its run. */
  lemma ClosesAt(list: seq<Kmer>, name: string, j: nat)
    requires 2 <= j <= |list| && Validate.Flags(list, Query.UnsignedField) && ByIndex(list)
    requires !Open(list[j - 1]) && Open(list[j - 2]) && j - 2 - Begin(list, j - 2) > 5
    requires Closed(list, name, j - 1).Done?
    ensures Closed(list, name, j) == Done(Closed(list, name, j - 1).value + [Emitted(list, name, Begin(list, j - 2), j - 2).value])
  {
  }

  /** Closing only ever appends. */
  lemma Grows(list: seq<Kmer>, name: string, j: nat)
    requires 1 <= j <= |list| && forall k :: 0 <= k < |list| ==> list[k].pos >= 0
    requires Closed(list, name, j - 1).Done? && Closed(list, name, j).Done?
    ensures Closed(list, name, j - 1).value <= Closed(list, name, j).value
  {
  }

  /** With the unsigned field and positions equal to indices (a record with
      no N), the segments of a list are exactly its maximal runs of kept
      k-mers spanning more than 5 positions. */
  lemma KeptRuns(list: seq<Kmer>, name: string)
    requires Validate.Flags(list, Query.UnsignedField) && ByIndex(list)
    ensures Collected(list, name).Done?
    ensures forall g :: g in Collected(list, name).value ==>
      0 <= g.start && g.start + 5 < g.end && Validate.MaximalRun(list, g.start, g.end + 1) &&
      Emitted(list, name, g.start, g.end) == Done(g)
    ensures forall lo: nat, hi: nat :: lo + 6 < hi && Validate.MaximalRun(list, lo, hi) ==>
      Emitted(list, name, lo, hi - 1).value in Collected(list, name).value
  {
    var n := |list|;
    ClosedSound(list, name, n);
    ClosedComplete(list, name, n);
    if n > 0 && Open(list[n - 1]) {
      LastRun(list, name);
    }
  }

  /** The run still open at the end of the list is its last maximal run,
      emitted when it spans more than 5. */
  lemma LastRun(list: seq<Kmer>, name: string)
    requires Validate.Flags(list, Query.UnsignedField) && ByIndex(list)
    requires 0 < |list| && Open(list[|list| - 1])
    ensures Validate.MaximalRun(list, Begin(list, |list| - 1), |list|)
    ensures forall l: nat :: Validate.MaximalRun(list, l, |list|) ==> l == Begin(list, |list| - 1)
  {
    var n := |list|;
    BeginEdge(list, n - 1);
    forall l: nat | Validate.MaximalRun(list, l, n)
      ensures l == Begin(list, n - 1)
    {
      BeginIn(list, l, n - 1);
    }
  }

  /** Under the signed field no flag reads 1. */
  lemma SignedNeverOne(list: seq<Kmer>)
    requires Validate.Flags(list, Query.SignedField)
    ensures forall k :: 0 <= k < |list| ==> Open(list[k])
  {
  }

  /** With no flag reading 1 before `j`, the open run through `j - 1`
      begins at the list's first k-mer. */
  lemma {:induction false} BeginsAtZero(list: seq<Kmer>, j: nat)
    requires 0 < j <= |list| && forall k :: 0 <= k < j ==> Open(list[k])
    ensures Begin(list, j - 1) == 0
    decreases j
  {
    if j > 1 {
      BeginsAtZero(list, j - 1);
    }
  }

  /** Under the signed field (GCC and Clang read a plain `int drop : 1` as
      signed, so `drop = 1` stores -1) a list gives at most one segment,
      spanning the whole list, dropped k-mers included. */
  lemma SignedWholeList(list: seq<Kmer>, name: string)
    requires Validate.Flags(list, Query.SignedField) && forall k :: 0 <= k < |list| ==> list[k].pos >= 0
    requires 0 < |list|
    ensures var a, b := list[0].pos, list[|list| - 1].pos;
      Collected(list, name) ==
        if a >= |list| then Undefined
        else if list[a].drop == 0 && b - a > 5 then Then(Done([]), Emitted(list, name, a, b))
        else Done([])
  {
    SignedNeverOne(list);
    NoOneBefore(list, name, |list|);
    BeginsAtZero(list, |list|);
  }

  /** Eight k-mers at positions 0..7, the last one found in the index. */
  function Example(bf: Query.BitField): (r: seq<Kmer>)
    ensures |r| == 8 && ByIndex(r) && Validate.Flags(r, bf)
  {
    seq(8, k requires 0 <= k < 8 => Query.Kmer(k, if k == 7 then Query.Dropped(bf) else 0, 0, 0, 0))
  }

  /** As written (signed field): the one segment runs to position 7 and so
      covers the dropped k-mer. */
  lemma SignedSegmentCoversDropped()
    ensures Collected(Example(Query.SignedField), "r").Done?
    ensures Collected(Example(Query.SignedField), "r").value == [Emitted(Example(Query.SignedField), "r", 0, 7).value]
    ensures !Validate.Kept(Example(Query.SignedField)[7])
  {
    SignedWholeList(Example(Query.SignedField), "r");
  }

  /** With the unsigned field the same list gives the segment `[0, 6]` of
      its kept k-mers. */
  lemma UnsignedSegmentKept()
    ensures Collected(Example(Query.UnsignedField), "r").Done?
    ensures Collected(Example(Query.UnsignedField), "r").value == [Emitted(Example(Query.UnsignedField), "r", 0, 6).value]
  {
    var list := Example(Query.UnsignedField);
    NoOneBefore(list, "r", 7);
    BeginsAtZero(list, 7);
  }

  lemma {:induction false} NoOneBefore(list: seq<Kmer>, name: string, j: nat)
    requires j <= |list| && forall k :: 0 <= k < |list| ==> list[k].pos >= 0
    requires forall k :: 0 <= k < j ==> Open(list[k])
    ensures Closed(list, name, j) == Done([])
    decreases j
  {
    if j > 0 {
      NoOneBefore(list, name, j - 1);
    }
  }

  // ---------------------------------------------------------------------
  // What the bases are

  /** The last digit of a packed word is its last code. */
  lemma PackLast(w: seq<Kmers.Code>)
    requires w != []
    ensures Kmers.Pack(w) % 4 == w[|w| - 1]
  {
  }

  /** For a run starting at index and position 0 of a record whose windows
      are consecutive, the macro rebuilds the record's bases: slot `p` is the
      code of base `p` up to base `b + 15`, and the one slot after them is
      left 0. */
  lemma FirstRunBases(s: string, list: seq<Kmer>, b: nat)
    requires Kmers.IsAscii(s) && b < |list| && b + Kmers.KmerLen <= |s|
    requires forall k :: 0 <= k <= b ==> Kmers.IsWindow(s, k) && list[k].kmer == Kmers.FwdCode(s, k)
    ensures forall p :: 0 <= p < b + Kmers.KmerLen ==> Slots(list, 0, b)[p] == Kmers.BaseCode(s[p]) as bv8
    ensures Slots(list, 0, b)[b + Kmers.KmerLen] == 0
  {
    assert Kmers.IsWindow(s, 0) && list[0].kmer == Kmers.FwdCode(s, 0);
    FirstDigits(s, list[0].kmer);
    forall p | Kmers.KmerLen <= p < b + Kmers.KmerLen
      ensures Slots(list, 0, b)[p] == Kmers.BaseCode(s[p]) as bv8
    {
      var k := p - Kmers.KmerLen + 1;
      assert Kmers.IsWindow(s, k) && list[k].kmer == Kmers.FwdCode(s, k);
      LastDigit(s, k, list[k].kmer);
    }
  }

  /** The 16 digits of a window's code are the codes of its bases. */
  lemma FirstDigits(s: string, code: nat)
    requires Kmers.IsAscii(s) && Kmers.IsWindow(s, 0) && code == Kmers.FwdCode(s, 0)
    ensures forall p :: 0 <= p < Kmers.KmerLen ==> Kmers.Digits(code, Kmers.KmerLen)[p] == Kmers.BaseCode(s[p])
  {
    Kmers.DigitsOfPack(Kmers.RunCodes(s, 0, Kmers.KmerLen));
  }

  /** The last digit of a window's code is the code of its last base. */
  lemma LastDigit(s: string, k: nat, code: nat)
    requires Kmers.IsAscii(s) && Kmers.IsWindow(s, k) && code == Kmers.FwdCode(s, k)
    ensures code % 4 == Kmers.BaseCode(s[k + Kmers.KmerLen - 1])
  {
    PackLast(Kmers.RunCodes(s, k, k + Kmers.KmerLen));
  }

  /** For a run starting at index 1 or later, the slots from 16 up to the
      run's start plus 16 are never written: the bases after the first
      k-mer are lost (they read as `A`). */
  lemma LaterRunLosesBases(list: seq<Kmer>, a: nat, b: nat)
    requires 1 <= a <= b < |list|
    ensures forall p :: Kmers.KmerLen <= p < a + Kmers.KmerLen && p < b - a + Kmers.KmerLen + 1 ==>
      Slots(list, a, b)[p] == 0
  {
  }
}
