/** `vaildKmers` of main.c: mark as dropped every k-mer whose forward or
    reverse code is in the index, then drop every maximal run of kept
    k-mers shorter than 4.  The `drop` flags are updated in place, so a
    k-mer list is an `array<Kmer>` here.  The OpenMP split of the marking
    loop is not modelled; it runs as one loop. */
module Validate {

  import BitArrays
  import Index
  import Query

  type Kmer = Query.Kmer

  /** The marking loop's step on one k-mer, given whether the index has its
      forward (`fwdHit`) or reverse (`revHit`) code. */
  function Marked(x: Kmer, fwdHit: bool, revHit: bool, bf: Query.BitField): Kmer
  {
    if x.drop == 1 then x
    else if fwdHit || revHit then x.(drop := Query.Dropped(bf))
    else x
  }

  /** Whether the index, as the value `f`, has code `c` (`bitarrayGet` is
      non-zero). */
  predicate Hit(f: Index.IndexFile, c: nat)
    requires Index.WellFormed(f)
  {
    Index.FileSlot(f, c) != 0
  }

  /** A k-mer is kept while its `drop` flag is 0. */
  predicate Kept(x: Kmer)
  {
    x.drop == 0
  }

  /** The flags `createQuery` and `vaildKmers` write: 0, or what `drop = 1`
      stores. */
  predicate Flags(d: seq<Kmer>, bf: Query.BitField)
  {
    forall k :: 0 <= k < |d| ==> d[k].drop == 0 || d[k].drop == Query.Dropped(bf)
  }

  /** The first index of the run of kept k-mers through `i`. */
  function RunStart(d: seq<Kmer>, i: nat): (r: nat)
    requires i < |d|
    ensures r <= i
  {
    if i > 0 && Kept(d[i - 1]) then RunStart(d, i - 1) else i
  }

  /** One past the last index of the run of kept k-mers through `i`. */
  function RunEnd(d: seq<Kmer>, i: nat): (r: nat)
    requires i < |d|
    ensures i < r <= |d|
    decreases |d| - i
  {
    if i + 1 < |d| && Kept(d[i + 1]) then RunEnd(d, i + 1) else i + 1
  }

  /** The smoothing pass: every kept k-mer whose run is shorter than 4 is
      dropped; everything else stays. */
  function Smoothed(d: seq<Kmer>, bf: Query.BitField): (r: seq<Kmer>)
    ensures |r| == |d|
  {
    seq(|d|, k requires 0 <= k < |d| =>
      if Kept(d[k]) && RunEnd(d, k) - RunStart(d, k) < 4 then d[k].(drop := Query.Dropped(bf)) else d[k])
  }

  /** `[lo, hi)` is a maximal run of kept k-mers. */
  predicate MaximalRun(d: seq<Kmer>, lo: nat, hi: nat)
  {
    lo < hi <= |d| && (forall k :: lo <= k < hi ==> Kept(d[k])) &&
    (lo == 0 || !Kept(d[lo - 1])) && (hi == |d| || !Kept(d[hi]))
  }

  /** Inside a maximal run every k-mer starts its run at `lo`. */
  lemma {:induction false} RunStartIn(d: seq<Kmer>, lo: nat, hi: nat, k: nat)
    requires MaximalRun(d, lo, hi) && lo <= k < hi
    ensures RunStart(d, k) == lo
    decreases k
  {
    if k > lo {
      RunStartIn(d, lo, hi, k - 1);
    }
  }

  /** Inside a maximal run every k-mer ends its run at `hi`. */
  lemma {:induction false} RunEndIn(d: seq<Kmer>, lo: nat, hi: nat, k: nat)
    requires MaximalRun(d, lo, hi) && lo <= k < hi
    ensures RunEnd(d, k) == hi
    decreases hi - k
  {
    if k + 1 < hi {
      RunEndIn(d, lo, hi, k + 1);
    }
  }

  /** Smoothing treats a maximal run as a whole: all of it is dropped when
      it is shorter than 4, none of it otherwise. */
  lemma CloseRun(d: seq<Kmer>, lo: nat, hi: nat, bf: Query.BitField)
    requires MaximalRun(d, lo, hi)
    ensures forall k :: lo <= k < hi ==>
      Smoothed(d, bf)[k] == if hi - lo < 4 then d[k].(drop := Query.Dropped(bf)) else d[k]
  {
    forall k | lo <= k < hi
      ensures Smoothed(d, bf)[k] == if hi - lo < 4 then d[k].(drop := Query.Dropped(bf)) else d[k]
    {
      RunStartIn(d, lo, hi, k);
      RunEndIn(d, lo, hi, k);
    }
  }

  /** The run through a kept k-mer is a maximal run. */
  lemma RunOf(d: seq<Kmer>, k: nat)
    requires k < |d| && Kept(d[k])
    ensures MaximalRun(d, RunStart(d, k), RunEnd(d, k))
  {
    StartEdge(d, k);
    EndEdge(d, k);
  }

  lemma {:induction false} StartEdge(d: seq<Kmer>, k: nat)
    requires k < |d| && Kept(d[k])
    ensures forall j :: RunStart(d, k) <= j <= k ==> Kept(d[j])
    ensures RunStart(d, k) == 0 || !Kept(d[RunStart(d, k) - 1])
    decreases k
  {
    if k > 0 && Kept(d[k - 1]) {
      StartEdge(d, k - 1);
    }
  }

  lemma {:induction false} EndEdge(d: seq<Kmer>, k: nat)
    requires k < |d| && Kept(d[k])
    ensures forall j :: k <= j < RunEnd(d, k) ==> Kept(d[j])
    ensures RunEnd(d, k) == |d| || !Kept(d[RunEnd(d, k)])
    decreases |d| - k
  {
    if k + 1 < |d| && Kept(d[k + 1]) {
      EndEdge(d, k + 1);
    }
  }

  /** After smoothing every maximal run of kept k-mers is at least 4 long,
      and it is a maximal run that was kept before. */
  lemma Smoothing(d: seq<Kmer>, bf: Query.BitField, lo: nat, hi: nat)
    requires MaximalRun(Smoothed(d, bf), lo, hi)
    ensures hi - lo >= 4
    ensures MaximalRun(d, lo, hi)
  {
    var r := Smoothed(d, bf);
    KeptAfter(d, bf, lo);
    var start, end := RunStart(d, lo), RunEnd(d, lo);
    RunOf(d, lo);
    CloseRun(d, start, end, bf);
    assert forall k :: start <= k < end ==> Kept(r[k]);
    assert start == lo;
    KeptAfterAll(d, bf);
    assert end == hi;
  }

  /** A k-mer is kept after smoothing exactly when it was kept in a run of
      at least 4. */
  lemma KeptAfter(d: seq<Kmer>, bf: Query.BitField, k: nat)
    requires k < |d|
    ensures Kept(Smoothed(d, bf)[k]) <==> Kept(d[k]) && RunEnd(d, k) - RunStart(d, k) >= 4
  {
  }

  lemma KeptAfterAll(d: seq<Kmer>, bf: Query.BitField)
    ensures forall k :: 0 <= k < |d| ==>
      (Kept(Smoothed(d, bf)[k]) <==> Kept(d[k]) && RunEnd(d, k) - RunStart(d, k) >= 4)
  {
    forall k | 0 <= k < |d|
      ensures Kept(Smoothed(d, bf)[k]) <==> Kept(d[k]) && RunEnd(d, k) - RunStart(d, k) >= 4
    {
      KeptAfter(d, bf, k);
    }
  }

  /** Smoothing never clears a flag. */
  lemma SmoothingOnlyDrops(d: seq<Kmer>, bf: Query.BitField, k: nat)
    requires k < |d| && Kept(Smoothed(d, bf)[k])
    ensures Kept(d[k]) && Smoothed(d, bf)[k] == d[k]
  {
  }

  /** The inner `drop = 1` loop over `[lo, hi)`. */
  method DropRange(a: array<Kmer>, lo: nat, hi: nat, bf: Query.BitField)
    requires lo <= hi <= a.Length
    modifies a
    ensures forall k :: 0 <= k < a.Length ==>
      a[k] == if lo <= k < hi then old(a[k]).(drop := Query.Dropped(bf)) else old(a[k])
  {
    var j := lo;
    while j < hi
      invariant lo <= j <= hi
      invariant forall k :: 0 <= k < a.Length ==>
        a[k] == if lo <= k < j then old(a[k]).(drop := Query.Dropped(bf)) else old(a[k])
    {
      a[j] := a[j].(drop := Query.Dropped(bf));
      j := j + 1;
    }
  }

  /** How far the smoothing loop has got over `c`, the array as it stands,
      which started as `m`: everything from `i` on is untouched; with `prev`
      at -1 everything before `i` is final; with `prev` at 0 the window
      `[start, i)` is a run of kept k-mers still open and everything before
      it is final; with `prev` at `drop = 1` the window is of dropped
      k-mers and everything before `i` is final. */
  ghost predicate Scanned(c: seq<Kmer>, m: seq<Kmer>, bf: Query.BitField, i: nat, start: nat, prev: int)
  {
    |c| == |m| && Flags(m, bf) && start <= i <= |m| &&
    (prev == -1 || prev == 0 || prev == Query.Dropped(bf)) &&
    (forall k :: i <= k < |m| ==> c[k] == m[k]) &&
    (prev == -1 ==> (forall k :: 0 <= k < i ==> c[k] == Smoothed(m, bf)[k]) && (i == 0 || !Kept(m[i - 1]))) &&
    (prev == 0 ==>
      start < i && (start == 0 || !Kept(m[start - 1])) &&
      (forall k :: start <= k < i ==> Kept(m[k]) && c[k] == m[k]) &&
      (forall k :: 0 <= k < start ==> c[k] == Smoothed(m, bf)[k])) &&
    (prev != -1 && prev != 0 ==>
      start < i &&
      (forall k :: start <= k < i ==> !Kept(m[k])) &&
      (forall k :: 0 <= k < i ==> c[k] == Smoothed(m, bf)[k]))
  }

  /** Before the first kept k-mer a k-mer flagged 1 is passed over, and any
      other flag opens a window at `i`. */
  lemma Open(c: seq<Kmer>, m: seq<Kmer>, bf: Query.BitField, i: nat, start0: nat, drop: int,
              next: nat, start: nat, prev: int)
    requires Scanned(c, m, bf, i, start0, -1) && i < |c| && drop == c[i].drop && next == i + 1
    requires if drop == 1 then start == start0 && prev == -1 else start == i && prev == drop
    ensures Scanned(c, m, bf, next, start, prev)
  {
  }

  /** A k-mer with the same flag extends the open window. */
  lemma Extend(c: seq<Kmer>, m: seq<Kmer>, bf: Query.BitField, i: nat, start: nat, prev: int, next: nat)
    requires Scanned(c, m, bf, i, start, prev) && i < |c| && prev != -1 && c[i].drop == prev && next == i + 1
    ensures Scanned(c, m, bf, next, start, prev)
  {
  }

  /** Closing the window `[start, end)`: drop it when it is shorter than
      4.  A window of kept k-mers is a maximal run of `m`, so this is what
      smoothing does to it; a window of dropped k-mers stays as it is. */
  method CloseWindow(a: array<Kmer>, ghost m: seq<Kmer>, start: nat, end: nat, prev: int, bf: Query.BitField)
    requires Scanned(a[..], m, bf, end, start, prev) && prev != -1
    requires end < a.Length ==> a[end].drop != prev
    modifies a
    ensures forall k :: 0 <= k < end ==> a[k] == Smoothed(m, bf)[k]
    ensures forall k :: end <= k < a.Length ==> a[k] == old(a[k])
  {
    if prev == 0 {
      assert MaximalRun(m, start, end);
      CloseRun(m, start, end, bf);
    }
    if end - start < 4 {
      DropRange(a, start, end, bf);
    }
  }

  /** After a window closes at `i`, a new one opens there with the flag of
      k-mer `i` (`prev` at -1 when the flag is the signed field's -1). */
  lemma Reopen(c: seq<Kmer>, m: seq<Kmer>, bf: Query.BitField, i: nat, prev: int, drop: int, next: nat)
    requires |c| == |m| && Flags(m, bf) && 0 < i < |m| && drop == c[i].drop && drop != prev && next == i + 1
    requires forall k :: 0 <= k < i ==> c[k] == Smoothed(m, bf)[k]
    requires forall k :: i <= k < |m| ==> c[k] == m[k]
    requires prev != 0 ==> !Kept(m[i - 1])
    ensures Scanned(c, m, bf, next, i, drop)
  {
  }

  /** The smoothing loop as written: `prev` is -1 before the first kept
      k-mer, and each change of flag closes the window `[start, i)`, which
      is dropped when it is shorter than 4. */
  method SmoothKmers(a: array<Kmer>, bf: Query.BitField)
    requires Flags(a[..], bf)
    modifies a
    ensures a[..] == Smoothed(old(a[..]), bf)
  {
    ghost var m := a[..];
    var start: nat, prev: int := 0, -1;
    var i := 0;
    while i < a.Length
      invariant Scanned(a[..], m, bf, i, start, prev)
    {
      i, start, prev := SmoothStep(a, m, bf, i, start, prev);
    }
    if prev != -1 {
      CloseWindow(a, m, start, a.Length, prev, bf);
    }
    assert a[..] == Smoothed(m, bf);
  }

  /** K-mer `i` of the smoothing loop: open the first window, close the
      open one on a change of flag, or extend it. */
  method SmoothStep(a: array<Kmer>, ghost m: seq<Kmer>, bf: Query.BitField, i: nat, start0: nat, prev0: int)
    returns (next: nat, start: nat, prev: int)
    requires Scanned(a[..], m, bf, i, start0, prev0) && i < a.Length
    modifies a
    ensures next == i + 1 && Scanned(a[..], m, bf, next, start, prev)
  {
    var x := a[i];
    if prev0 == -1 {
      next, start, prev := i + 1, start0, prev0;
      if x.drop != 1 {
        prev, start := x.drop, i;
      }
      Open(a[..], m, bf, i, start0, x.drop, next, start, prev);
    } else if prev0 != x.drop {
      next, start, prev := Switch(a, m, bf, i, start0, prev0);
    } else {
      next, start, prev := i + 1, start0, prev0;
      Extend(a[..], m, bf, i, start, prev, next);
    }
  }

  /** A change of flag at `i`: close the open window and open one at `i`. */
  method Switch(a: array<Kmer>, ghost m: seq<Kmer>, bf: Query.BitField, i: nat, start0: nat, prev0: int)
    returns (next: nat, start: nat, prev: int)
    requires Scanned(a[..], m, bf, i, start0, prev0) && i < a.Length && prev0 != -1 && a[i].drop != prev0
    modifies a
    ensures next == i + 1 && Scanned(a[..], m, bf, next, start, prev)
  {
    var d := a[i].drop;
    CloseWindow(a, m, start0, i, prev0, bf);
    next, start, prev := i + 1, i, d;
    Reopen(a[..], m, bf, i, prev0, prev, next);
  }

  /** The marking loop's result on a whole list. */
  function MarkAll(f: Index.IndexFile, d: seq<Kmer>, bf: Query.BitField): (r: seq<Kmer>)
    requires Index.WellFormed(f)
    ensures |r| == |d|
  {
    seq(|d|, k requires 0 <= k < |d| => Marked(d[k], Hit(f, d[k].kmer), Hit(f, d[k].rev), bf))
  }

  /** What `vaildKmers` leaves in one list. */
  function Validated(f: Index.IndexFile, d: seq<Kmer>, bf: Query.BitField): (r: seq<Kmer>)
    requires Index.WellFormed(f)
    ensures |r| == |d|
  {
    Smoothed(MarkAll(f, d, bf), bf)
  }

  /** The marking loop over one list. */
  method MarkKmers(index: BitArrays.BitArray, a: array<Kmer>, bf: Query.BitField)
    requires index.Valid() && a as object != index.data as object
    modifies a
    ensures a[..] == MarkAll(Index.Snapshot(index), old(a[..]), bf)
  {
    ghost var f := Index.Snapshot(index);
    ghost var d := a[..];
    var j := 0;
    while j < a.Length
      invariant j <= a.Length && f == Index.Snapshot(index) && Marking(a[..], d, f, bf, j)
    {
      var y := MarkOne(index, a[j], bf);
      MarkingStep(a[..], d, f, bf, j, y);
      a[j] := y;
      j := j + 1;
    }
    MarkingDone(a[..], d, f, bf);
  }

  /** The marking loop has done the first `j` k-mers of `d`, and `c` is the
      list as it stands. */
  ghost predicate Marking(c: seq<Kmer>, d: seq<Kmer>, f: Index.IndexFile, bf: Query.BitField, j: nat)
    requires Index.WellFormed(f)
  {
    |c| == |d| && j <= |d| &&
    (forall k :: 0 <= k < j ==> c[k] == Marked(d[k], Hit(f, d[k].kmer), Hit(f, d[k].rev), bf)) &&
    (forall k :: j <= k < |d| ==> c[k] == d[k])
  }

  lemma MarkingStep(c: seq<Kmer>, d: seq<Kmer>, f: Index.IndexFile, bf: Query.BitField, j: nat, y: Kmer)
    requires Index.WellFormed(f) && Marking(c, d, f, bf, j) && j < |d|
    requires y == Marked(c[j], Hit(f, c[j].kmer), Hit(f, c[j].rev), bf)
    ensures Marking(c[j := y], d, f, bf, j + 1)
  {
  }

  lemma MarkingDone(c: seq<Kmer>, d: seq<Kmer>, f: Index.IndexFile, bf: Query.BitField)
    requires Index.WellFormed(f) && Marking(c, d, f, bf, |d|)
    ensures c == MarkAll(f, d, bf)
  {
  }

  /** The body of the marking loop on one k-mer: a k-mer already dropped
      is skipped, otherwise either code found in the index drops it.  The
      loop stores the result back, which leaves a skipped k-mer as it was. */
  method MarkOne(index: BitArrays.BitArray, x: Kmer, bf: Query.BitField) returns (y: Kmer)
    requires index.Valid()
    ensures y == Marked(x, Hit(Index.Snapshot(index), x.kmer), Hit(Index.Snapshot(index), x.rev), bf)
  {
    ghost var f := Index.Snapshot(index);
    var fwdHit, revHit := index.Get(x.kmer) != 0, index.Get(x.rev) != 0;
    assert fwdHit == Hit(f, x.kmer) && revHit == Hit(f, x.rev);
    y := x;
    if x.drop == 1 {
    } else if fwdHit {
      y := x.(drop := Query.Dropped(bf));
    } else if revHit {
      y := x.(drop := Query.Dropped(bf));
    }
  }

  /** Marking keeps the flags to 0 and what `drop = 1` stores. */
  lemma MarkFlags(f: Index.IndexFile, d: seq<Kmer>, bf: Query.BitField)
    requires Index.WellFormed(f) && Flags(d, bf)
    ensures Flags(MarkAll(f, d, bf), bf)
  {
  }

  /** `vaildKmers` on one list: marking, then smoothing. */
  method ValidKmerList(index: BitArrays.BitArray, a: array<Kmer>, bf: Query.BitField)
    requires index.Valid() && a as object != index.data as object && Flags(a[..], bf)
    modifies a
    ensures a[..] == Validated(Index.Snapshot(index), old(a[..]), bf)
  {
    MarkKmers(index, a, bf);
    MarkFlags(Index.Snapshot(index), old(a[..]), bf);
    SmoothKmers(a, bf);
  }

  /** `vaildKmers`: every list of the query in turn. */
  method VaildKmers(index: BitArrays.BitArray, lists: seq<array<Kmer>>, bf: Query.BitField)
    requires index.Valid()
    requires forall i, j :: 0 <= i < j < |lists| ==> lists[i] != lists[j]
    requires forall i :: 0 <= i < |lists| ==> lists[i] as object != index.data as object && Flags(lists[i][..], bf)
    modifies set l | l in lists
    ensures forall i :: 0 <= i < |lists| ==> lists[i][..] == Validated(Index.Snapshot(index), old(lists[i][..]), bf)
  {
    var n := 0;
    while n < |lists|
      invariant n <= |lists|
      invariant forall i :: 0 <= i < n ==> lists[i][..] == Validated(Index.Snapshot(index), old(lists[i][..]), bf)
      invariant forall i :: n <= i < |lists| ==> lists[i][..] == old(lists[i][..])
    {
      ValidKmerList(index, lists[n], bf);
      n := n + 1;
    }
  }

  /** A k-mer `vaildKmers` keeps was kept before, neither of its codes is in
      the index, it sits in a run of at least 4 kept k-mers, and only its
      flag can have changed. */
  lemma ValidatedKmer(f: Index.IndexFile, d: seq<Kmer>, bf: Query.BitField, k: nat)
    requires Index.WellFormed(f) && k < |d|
    ensures Validated(f, d, bf)[k].(drop := d[k].drop) == d[k]
    ensures Kept(Validated(f, d, bf)[k]) ==>
      Kept(d[k]) && !Hit(f, d[k].kmer) && !Hit(f, d[k].rev) &&
      RunEnd(Validated(f, d, bf), k) - RunStart(Validated(f, d, bf), k) >= 4
  {
    var m := MarkAll(f, d, bf);
    var r := Validated(f, d, bf);
    if Kept(r[k]) {
      RunOf(r, k);
      Smoothing(m, bf, RunStart(r, k), RunEnd(r, k));
    }
  }

  /** Two lists kept at the same places have the same runs. */
  lemma {:induction false} SameRuns(d: seq<Kmer>, e: seq<Kmer>, k: nat)
    requires |d| == |e| && k < |d|
    requires forall j :: 0 <= j < |d| ==> (Kept(d[j]) <==> Kept(e[j]))
    ensures RunStart(d, k) == RunStart(e, k) && RunEnd(d, k) == RunEnd(e, k)
  {
    StartsAgree(d, e, k);
    EndsAgree(d, e, k);
  }

  lemma {:induction false} StartsAgree(d: seq<Kmer>, e: seq<Kmer>, k: nat)
    requires |d| == |e| && k < |d|
    requires forall j :: 0 <= j < |d| ==> (Kept(d[j]) <==> Kept(e[j]))
    ensures RunStart(d, k) == RunStart(e, k)
    decreases k
  {
    if k > 0 {
      StartsAgree(d, e, k - 1);
    }
  }

  lemma {:induction false} EndsAgree(d: seq<Kmer>, e: seq<Kmer>, k: nat)
    requires |d| == |e| && k < |d|
    requires forall j :: 0 <= j < |d| ==> (Kept(d[j]) <==> Kept(e[j]))
    ensures RunEnd(d, k) == RunEnd(e, k)
    decreases |d| - k
  {
    if k + 1 < |d| {
      EndsAgree(d, e, k + 1);
    }
  }

  /** On the lists `createQuery` builds (every flag 0) the signed and the
      unsigned reading of the `drop` field keep exactly the same k-mers. */
  lemma FieldIrrelevant(f: Index.IndexFile, d: seq<Kmer>, k: nat)
    requires Index.WellFormed(f) && k < |d|
    requires forall j :: 0 <= j < |d| ==> Kept(d[j])
    ensures Kept(Validated(f, d, Query.SignedField)[k]) <==> Kept(Validated(f, d, Query.UnsignedField)[k])
  {
    var ms := MarkAll(f, d, Query.SignedField);
    var mu := MarkAll(f, d, Query.UnsignedField);
    assert forall j :: 0 <= j < |d| ==> (Kept(ms[j]) <==> Kept(mu[j]));
    SameRuns(ms, mu, k);
  }
}
