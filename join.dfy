/** `pairJoinCheck` and `checkJoin` of main.c.  For every ordered pair of
    probes the junction scan rolls 16-mer codes over the two probes laid end
    to end and refuses the pair when a window code (either strand) is in the
    index.  The admitted pairs form the join matrix; each admitted pair adds
    one to the first probe's `vaild` counter.  Then every pair joined both
    ways loses one of its two links, and the probes are sorted by
    non-increasing `vaild`.

    The rows of the matrix are 1-bit `BitArray`s in the source; here they
    are `seq<bool>` rows of a `seq` that the methods update cell by cell. */
module Join {

  import Kmers
  import BitArrays
  import Index
  import Validate
  import Segments
  import Filter
  import Arrays

  type Segment = Segments.Segment
  type Code = Kmers.Code

  // ---------------------------------------------------------------------
  // The junction scan

  /** Base `k` of the two probes laid end to end, as the scan reads it. */
  function BaseAt(b1: seq<bv8>, b2: seq<bv8>, k: nat): (r: Code)
    requires Filter.TwoBit(b1) && Filter.TwoBit(b2) && k < |b1| + |b2|
    ensures r as bv8 == (b1 + b2)[k]
  {
    if k >= |b1| then b2[k - |b1|] as nat else b1[k] as nat
  }

  /** The codes the scan feeds: the two probes end to end without the
      first and the last base (the loop runs `k` from 1 to the length
      minus 2). */
  function Junction(b1: seq<bv8>, b2: seq<bv8>): (j: seq<Code>)
    requires Filter.TwoBit(b1) && Filter.TwoBit(b2)
    ensures |j| == if |b1| + |b2| < 2 then 0 else |b1| + |b2| - 2
  {
    if |b1| + |b2| < 2 then []
    else seq(|b1| + |b2| - 2, t requires 0 <= t < |b1| + |b2| - 2 => BaseAt(b1, b2, t + 1))
  }

  /** Neither the forward nor the reverse-complement code of the 16-mer of
      `w` at `t` is in the index. */
  predicate Clear(f: Index.IndexFile, w: seq<Code>, t: int)
    requires Index.WellFormed(f) && 0 <= t && t + Kmers.KmerLen <= |w|
  {
    !Validate.Hit(f, Kmers.Pack(w[t..t + Kmers.KmerLen])) &&
    !Validate.Hit(f, Kmers.Pack(Kmers.RevComp(w[t..t + Kmers.KmerLen])))
  }

  /** Every 16-mer of `w` ending at or before `e` is clear. */
  predicate ClearUpTo(f: Index.IndexFile, w: seq<Code>, e: int)
    requires Index.WellFormed(f) && e <= |w|
  {
    forall t :: 0 <= t && t + Kmers.KmerLen <= e ==> Clear(f, w, t)
  }

  /** The scan admits the pair: every 16-mer of the junction is clear. */
  predicate Joinable(f: Index.IndexFile, b1: seq<bv8>, b2: seq<bv8>)
    requires Index.WellFormed(f) && Filter.TwoBit(b1) && Filter.TwoBit(b2)
  {
    var j := Junction(b1, b2);
    ClearUpTo(f, j, |j|)
  }

  /** Before the 16th code no window ends. */
  lemma ClearEarly(f: Index.IndexFile, w: seq<Code>, e: int)
    requires Index.WellFormed(f) && e <= |w| && e < Kmers.KmerLen
    ensures ClearUpTo(f, w, e)
  {
  }

  /** One more clear window ending at `e`. */
  lemma ClearGrow(f: Index.IndexFile, w: seq<Code>, e: int)
    requires Index.WellFormed(f) && Kmers.KmerLen <= e <= |w|
    requires ClearUpTo(f, w, e - 1) && Clear(f, w, e - Kmers.KmerLen)
    ensures ClearUpTo(f, w, e)
  {
  }

  /** The junction scan for the probes `b1` then `b2`: the codes roll from
      0, the first 15 bases only fill them, and the first window whose
      code is in the index stops the scan.  Both probes empty would wrap
      the `size_t` loop bound, which the source does not guard. */
  method JoinScan(index: BitArrays.BitArray, b1: seq<bv8>, b2: seq<bv8>) returns (succ: bool)
    requires index.Valid() && Filter.TwoBit(b1) && Filter.TwoBit(b2) && 1 <= |b1| + |b2|
    ensures succ == Joinable(Index.Snapshot(index), b1, b2)
  {
    ghost var f := Index.Snapshot(index);
    ghost var j := Junction(b1, b2);
    var kmer: nat, rev: nat := 0, 0;
    var c := 0;
    succ := true;
    var k := 1;
    while k + 1 < |b1| + |b2|
      invariant 1 <= k && k - 1 <= |j| && c == k - 1
      invariant kmer == Kmers.FwdAfter(0, j[..k - 1]) && rev == Kmers.RevAfter(0, j[..k - 1])
      invariant ClearUpTo(f, j, k - 1)
    {
      var hit;
      kmer, rev, hit := ScanStep(index, b1, b2, k, kmer, rev, f, j);
      c := c + 1;
      if hit {
        succ := false;
        break;
      }
      k := k + 1;
    }
  }

  /** Step `k` of the junction scan: feed base `k`, and from the 16th code
      on test both codes of the window against the index. */
  method ScanStep(index: BitArrays.BitArray, b1: seq<bv8>, b2: seq<bv8>, k: nat, kmer0: nat, rev0: nat,
                  ghost f: Index.IndexFile, ghost j: seq<Code>)
    returns (kmer: nat, rev: nat, hit: bool)
    requires index.Valid() && Filter.TwoBit(b1) && Filter.TwoBit(b2) && 1 <= k && k + 1 < |b1| + |b2|
    requires f == Index.Snapshot(index) && j == Junction(b1, b2) && ClearUpTo(f, j, k - 1)
    requires kmer0 == Kmers.FwdAfter(0, j[..k - 1]) && rev0 == Kmers.RevAfter(0, j[..k - 1])
    ensures kmer == Kmers.FwdAfter(0, j[..k]) && rev == Kmers.RevAfter(0, j[..k])
    ensures hit ==> !ClearUpTo(f, j, |j|)
    ensures !hit ==> ClearUpTo(f, j, k)
  {
    var code := BaseAt(b1, b2, k);
    Roll(j, k, kmer0, rev0, code);
    kmer, rev := Kmers.FwdStep(kmer0, code), Kmers.RevStep(rev0, code);
    hit := false;
    if k >= Kmers.KmerLen {
      Window(j, k);
      assert Validate.Hit(f, kmer) == (index.Get(kmer) != 0);
      assert Validate.Hit(f, rev) == (index.Get(rev) != 0);
      if index.Get(kmer) != 0 || index.Get(rev) != 0 {
        assert !Clear(f, j, k - Kmers.KmerLen);
        hit := true;
      } else {
        ClearGrow(f, j, k);
      }
    } else {
      ClearEarly(f, j, k);
    }
  }

  /** One step of the scan feeds the next junction code. */
  lemma Roll(j: seq<Code>, k: nat, kmer: nat, rev: nat, code: Code)
    requires 1 <= k <= |j| && code == j[k - 1]
    requires kmer == Kmers.FwdAfter(0, j[..k - 1]) && rev == Kmers.RevAfter(0, j[..k - 1])
    ensures Kmers.FwdStep(kmer, code) == Kmers.FwdAfter(0, j[..k])
    ensures Kmers.RevStep(rev, code) == Kmers.RevAfter(0, j[..k])
  {
    assert j[..k] == j[..k - 1] + [code];
    Kmers.RollStep(0, 0, j[..k - 1], code);
  }

  /** After 16 codes the rolling codes are those of the last window. */
  lemma Window(j: seq<Code>, k: nat)
    requires Kmers.KmerLen <= k <= |j|
    ensures Kmers.FwdAfter(0, j[..k]) == Kmers.Pack(j[k - Kmers.KmerLen..k])
    ensures Kmers.RevAfter(0, j[..k]) == Kmers.Pack(Kmers.RevComp(j[k - Kmers.KmerLen..k]))
  {
    Kmers.FwdWindow(0, j[..k]);
    Kmers.RevWindow(0, j[..k]);
    assert j[..k][k - Kmers.KmerLen..] == j[k - Kmers.KmerLen..k];
  }

  /** The scan never reads the first base of the first probe nor the last
      base of the second: changing either cannot change the verdict. */
  lemma JunctionIgnoresEnds(b1: seq<bv8>, b2: seq<bv8>, x: bv8, y: bv8)
    requires Filter.TwoBit(b1) && Filter.TwoBit(b2) && 1 <= |b1| && 1 <= |b2| && x <= 3 && y <= 3
    ensures Junction(b1[0 := x], b2[|b2| - 1 := y]) == Junction(b1, b2)
  {
    var c1, c2 := b1[0 := x], b2[|b2| - 1 := y];
    forall t | 1 <= t < |b1| + |b2| - 1
      ensures BaseAt(c1, c2, t) == BaseAt(b1, b2, t)
    {
    }
  }

  /** The two probes end to end, as codes. */
  function EndToEnd(b1: seq<bv8>, b2: seq<bv8>): (w: seq<Code>)
    requires Filter.TwoBit(b1) && Filter.TwoBit(b2)
    ensures |w| == |b1| + |b2|
  {
    seq(|b1| + |b2|, k requires 0 <= k < |b1| + |b2| => BaseAt(b1, b2, k))
  }

  /** The junction is the two probes end to end without their outer
      bases, so when both probes have at least 16 bases every window that
      straddles the join is scanned. */
  lemma JoinableStraddling(f: Index.IndexFile, b1: seq<bv8>, b2: seq<bv8>, t: int)
    requires Index.WellFormed(f) && Filter.TwoBit(b1) && Filter.TwoBit(b2)
    requires Kmers.KmerLen <= |b1| && Kmers.KmerLen <= |b2| && Joinable(f, b1, b2)
    requires |b1| - Kmers.KmerLen < t < |b1|
    ensures Clear(f, EndToEnd(b1, b2), t)
  {
    var w, j := EndToEnd(b1, b2), Junction(b1, b2);
    assert Clear(f, j, t - 1);
    JunctionWindow(b1, b2, t);
  }

  /** The junction window at `t - 1` is the end-to-end window at `t`. */
  lemma JunctionWindow(b1: seq<bv8>, b2: seq<bv8>, t: int)
    requires Filter.TwoBit(b1) && Filter.TwoBit(b2)
    requires 1 <= t && t + Kmers.KmerLen < |b1| + |b2|
    ensures EndToEnd(b1, b2)[t..t + Kmers.KmerLen] == Junction(b1, b2)[t - 1..t - 1 + Kmers.KmerLen]
  {
    var w, j := EndToEnd(b1, b2), Junction(b1, b2);
    var u, v := w[t..t + Kmers.KmerLen], j[t - 1..t - 1 + Kmers.KmerLen];
    forall k | 0 <= k < Kmers.KmerLen
      ensures u[k] == v[k]
    {
      assert u[k] == w[t + k] == BaseAt(b1, b2, t + k);
      assert v[k] == j[t - 1 + k] == BaseAt(b1, b2, t + k);
    }
  }

  // ---------------------------------------------------------------------
  // The join matrix and the `vaild` counters

  /** The number of set cells of a row. */
  function Count(row: seq<bool>): (r: nat)
    ensures r <= |row|
  {
    if row == [] then 0 else Count(row[..|row| - 1]) + (if row[|row| - 1] then 1 else 0)
  }

  /** Setting or clearing one cell moves the count by at most one. */
  lemma {:induction false} CountUpdate(row: seq<bool>, c: nat, v: bool)
    requires c < |row|
    ensures Count(row[c := v]) == Count(row) - (if row[c] then 1 else 0) + (if v then 1 else 0)
  {
    var n := |row|;
    if c < n - 1 {
      assert row[c := v][..n - 1] == row[..n - 1][c := v];
      CountUpdate(row[..n - 1], c, v);
    } else {
      assert row[c := v][..n - 1] == row[..n - 1];
    }
  }

  /** A fresh row (`bitarrayNew(size, 1)`) counts nothing. */
  lemma {:induction false} CountNone(row: seq<bool>)
    requires forall c :: 0 <= c < |row| ==> !row[c]
    ensures Count(row) == 0
  {
    if row != [] {
      CountNone(row[..|row| - 1]);
    }
  }

  /** A row split into two disjoint parts counts as the two parts. */
  lemma {:induction false} CountSplit(row: seq<bool>, p: seq<bool>, q: seq<bool>)
    requires |p| == |row| && |q| == |row|
    requires forall c :: 0 <= c < |row| ==> row[c] == (p[c] || q[c]) && !(p[c] && q[c])
    ensures Count(row) == Count(p) + Count(q)
  {
    var n := |row|;
    if n > 0 {
      CountSplit(row[..n - 1], p[..n - 1], q[..n - 1]);
    }
  }

  /** An `n` by `n` matrix. */
  predicate Square(m: seq<seq<bool>>)
  {
    forall r :: 0 <= r < |m| ==> |m[r]| == |m|
  }

  /** Probes the junction scan can read: 2-bit bases, at least one. */
  predicate Scannable(segs: seq<Segment>)
  {
    forall i :: 0 <= i < |segs| ==> Filter.TwoBit(segs[i].bases) && 1 <= |segs[i].bases|
  }

  /** Cell `(i, j)` of the join matrix as the first loop leaves it. */
  predicate Link(f: Index.IndexFile, segs: seq<Segment>, i: int, j: int)
    requires Index.WellFormed(f) && Scannable(segs) && 0 <= i < |segs| && 0 <= j < |segs|
  {
    i != j && Joinable(f, segs[i].bases, segs[j].bases)
  }

  /** Row `i` of the join matrix before pruning. */
  function Row(f: Index.IndexFile, segs: seq<Segment>, i: int): (row: seq<bool>)
    requires Index.WellFormed(f) && Scannable(segs) && 0 <= i < |segs|
    ensures |row| == |segs|
  {
    seq(|segs|, j requires 0 <= j < |segs| => Link(f, segs, i, j))
  }

  /** The join matrix before pruning. */
  function Links(f: Index.IndexFile, segs: seq<Segment>): (m: seq<seq<bool>>)
    requires Index.WellFormed(f) && Scannable(segs)
    ensures |m| == |segs| && Square(m)
  {
    seq(|segs|, i requires 0 <= i < |segs| => Row(f, segs, i))
  }

  /** The first loop of `pairJoinCheck`: for every probe `i` a fresh row
      (`bitarrayNew(size, 1)`) is pushed and filled by `ConnectRow`. */
  method Connect(index: BitArrays.BitArray, a: array<Segment>) returns (pair: seq<seq<bool>>)
    requires index.Valid() && a as object != index.data as object && Scannable(a[..])
    modifies a
    ensures pair == Links(Index.Snapshot(index), old(a[..]))
    ensures forall r :: 0 <= r < a.Length ==> a[r] == old(a[r]).(vaild := old(a[r]).vaild + Count(pair[r]))
  {
    ghost var s0 := a[..];
    ghost var f := Index.Snapshot(index);
    ghost var links := Links(f, s0);
    var n := a.Length;
    pair := [];
    var i := 0;
    while i < n
      invariant 0 <= i <= n && |pair| == i && f == Index.Snapshot(index)
      invariant pair == links[..i]
      invariant forall r :: 0 <= r < n ==> a[r] == Credited(s0, pair, r)
    {
      var row := ConnectRow(index, a, i, s0, f);
      TakeOneMore(links, i);
      CreditPush(s0, pair, row);
      pair := pair + [row];
      i := i + 1;
    }
    TakeAll(links);
  }

  lemma TakeOneMore<T>(s: seq<T>, i: int)
    requires 0 <= i < |s|
    ensures s[..i + 1] == s[..i] + [s[i]]
  {
  }

  lemma TakeAll<T>(s: seq<T>)
    ensures s[..|s|] == s
  {
  }

  /** The inner loop for probe `i`: scan every other probe `j`, and on
      success add one to probe `i`'s `vaild` and set cell `j` of its row. */
  method ConnectRow(index: BitArrays.BitArray, a: array<Segment>, i: int, ghost s0: seq<Segment>, ghost f: Index.IndexFile)
    returns (row: seq<bool>)
    requires index.Valid() && a as object != index.data as object && f == Index.Snapshot(index)
    requires |s0| == a.Length && Scannable(s0) && 0 <= i < a.Length
    requires forall r :: 0 <= r < a.Length ==> a[r].bases == s0[r].bases
    modifies a
    ensures row == Row(f, s0, i)
    ensures a[i] == old(a[i]).(vaild := old(a[i]).vaild + Count(row))
    ensures forall r :: 0 <= r < a.Length && r != i ==> a[r] == old(a[r])
  {
    var added;
    row, added := ScanRow(index, a, i, s0, f);
    a[i] := a[i].(vaild := a[i].vaild + added);
  }

  /** The scans of `ConnectRow`: the row of probe `i` and its number of
      set cells. */
  method ScanRow(index: BitArrays.BitArray, a: array<Segment>, i: int, ghost s0: seq<Segment>, ghost f: Index.IndexFile)
    returns (row: seq<bool>, added: nat)
    requires index.Valid() && f == Index.Snapshot(index)
    requires |s0| == a.Length && Scannable(s0) && 0 <= i < a.Length
    requires forall r :: 0 <= r < a.Length ==> a[r].bases == s0[r].bases
    ensures row == Row(f, s0, i) && added == Count(row)
  {
    ghost var want := Row(f, s0, i);
    var n := a.Length;
    var bi := a[i].bases;
    row := seq(n, c => false);
    CountNone(row);
    RowUpToStart(want, row);
    added := 0;
    var j := 0;
    while j < n
      invariant 0 <= j <= n && row == RowUpTo(want, j) && added == Count(row)
    {
      row, added := ScanCell(index, a, i, j, bi, s0, f, row, added);
      j := j + 1;
    }
    RowUpToAll(want, row);
  }

  /** Cell `j` of `ScanRow`: probe `i` against probe `j` unless they are
      the same probe, and on success set the cell and count it. */
  method ScanCell(index: BitArrays.BitArray, a: array<Segment>, i: int, j: int, bi: seq<bv8>,
                  ghost s0: seq<Segment>, ghost f: Index.IndexFile, row0: seq<bool>, added0: nat)
    returns (row: seq<bool>, added: nat)
    requires index.Valid() && f == Index.Snapshot(index)
    requires |s0| == a.Length && Scannable(s0) && 0 <= i < a.Length && 0 <= j < a.Length
    requires bi == s0[i].bases && a[j].bases == s0[j].bases
    requires row0 == RowUpTo(Row(f, s0, i), j) && added0 == Count(row0)
    ensures row == RowUpTo(Row(f, s0, i), j + 1) && added == Count(row)
  {
    var v := false;
    if i != j {
      v := JoinScan(index, bi, a[j].bases);
    }
    RowAt(f, s0, i, j);
    RowUpToNext(Row(f, s0, i), j, row0, v);
    row, added := row0, added0;
    if v {
      CountUpdate(row, j, true);
      row := row[j := true];
      added := added + 1;
    }
  }

  /** The cells of `want` before column `j`, the rest clear. */
  function RowUpTo(want: seq<bool>, j: int): (row: seq<bool>)
    ensures |row| == |want|
  {
    seq(|want|, c requires 0 <= c < |want| => c < j && want[c])
  }

  lemma RowUpToStart(want: seq<bool>, row: seq<bool>)
    requires |row| == |want| && forall c :: 0 <= c < |row| ==> !row[c]
    ensures row == RowUpTo(want, 0)
  {
  }

  lemma RowUpToNext(want: seq<bool>, j: int, row: seq<bool>, v: bool)
    requires 0 <= j < |want| && row == RowUpTo(want, j) && v == want[j]
    ensures (if v then row[j := true] else row) == RowUpTo(want, j + 1)
  {
  }

  lemma RowAt(f: Index.IndexFile, segs: seq<Segment>, i: int, j: int)
    requires Index.WellFormed(f) && Scannable(segs) && 0 <= i < |segs| && 0 <= j < |segs|
    ensures Row(f, segs, i)[j] == Link(f, segs, i, j)
  {
  }

  lemma RowUpToAll(want: seq<bool>, row: seq<bool>)
    requires row == RowUpTo(want, |want|)
    ensures row == want
  {
  }

  /** Probe `r` with the counts of the rows of `m` pushed so far. */
  function Credited(s0: seq<Segment>, m: seq<seq<bool>>, r: int): Segment
    requires 0 <= r < |s0|
  {
    if r < |m| then s0[r].(vaild := s0[r].vaild + Count(m[r])) else s0[r]
  }

  /** Pushing the row of probe `|m|` credits that probe only. */
  lemma CreditPush(s0: seq<Segment>, m: seq<seq<bool>>, row: seq<bool>)
    requires |m| < |s0|
    ensures Credited(s0, m + [row], |m|) == Credited(s0, m, |m|).(vaild := s0[|m|].vaild + Count(row))
    ensures forall r :: 0 <= r < |s0| && r != |m| ==> Credited(s0, m + [row], r) == Credited(s0, m, r)
  {
  }

  // ---------------------------------------------------------------------
  // Pruning the pairs joined both ways

  /** Which counter the prune loop decrements: the source decrements
      `vaild[i]` of the probe that keeps its link (`AsWritten`); the
      counter of the probe that loses its link is `vaild[j]`
      (`Corrected`). */
  datatype Decrement = AsWritten | Corrected

  /** Step `(a, b)` of the prune loop comes before step `(i, j)`. */
  predicate Before(a: int, b: int, i: int, j: int)
  {
    a < i || (a == i && b < j)
  }

  /** The matrix once the steps before `(i, j)` are done: step `(c, r)` of
      a pair joined both ways with `c < r` clears cell `(r, c)`.  A cell
      `(r, c)` with `r < c` is never cleared, since by step `(c, r)` cell
      `(r, c)` has been cleared already. */
  function PruneState(m: seq<seq<bool>>, i: int, j: int): (p: seq<seq<bool>>)
    requires Square(m)
    ensures |p| == |m| && Square(p)
  {
    seq(|m|, r requires 0 <= r < |m| =>
      seq(|m|, c requires 0 <= c < |m| => m[r][c] && !(c < r && m[c][r] && Before(c, r, i, j))))
  }

  /** The matrix after the prune loop. */
  function Pruned(m: seq<seq<bool>>): (p: seq<seq<bool>>)
    requires Square(m)
    ensures |p| == |m| && Square(p)
  {
    PruneState(m, |m|, 0)
  }

  /** The decrements probe `r`'s counter has taken once the steps before
      `(i, j)` are done, one cell per decrement. */
  function Drift(m: seq<seq<bool>>, dec: Decrement, r: int, i: int, j: int): (d: seq<bool>)
    requires Square(m) && 0 <= r < |m|
    ensures |d| == |m|
  {
    seq(|m|, c requires 0 <= c < |m| =>
      if dec.AsWritten? then r < c && m[r][c] && m[c][r] && Before(r, c, i, j)
      else c < r && m[r][c] && m[c][r] && Before(c, r, i, j))
  }

  /** All the decrements of probe `r`'s counter. */
  function Lost(m: seq<seq<bool>>, dec: Decrement, r: int): (d: seq<bool>)
    requires Square(m) && 0 <= r < |m|
    ensures |d| == |m|
  {
    Drift(m, dec, r, |m|, 0)
  }

  /** At step `(i, j)` the loop sees both cells set exactly for a pair
      joined both ways with `i < j`. */
  lemma PruneTest(m: seq<seq<bool>>, i: int, j: int)
    requires Square(m) && 0 <= i < |m| && 0 <= j < |m|
    ensures i != j ==> (PruneState(m, i, j)[i][j] && PruneState(m, i, j)[j][i]) == (i < j && m[i][j] && m[j][i])
  {
  }

  /** Step `(i, j)` of a pair joined both ways clears cell `(j, i)`. */
  lemma PruneClear(m: seq<seq<bool>>, i: int, j: int)
    requires Square(m) && 0 <= i < j < |m| && m[i][j] && m[j][i]
    ensures PruneState(m, i, j + 1) == PruneState(m, i, j)[j := PruneState(m, i, j)[j][i := false]]
  {
    var p, q := PruneState(m, i, j), PruneState(m, i, j + 1);
    forall r | 0 <= r < |m|
      ensures q[r] == p[j := p[j][i := false]][r]
    {
    }
  }

  /** Any other step changes nothing. */
  lemma PruneKeep(m: seq<seq<bool>>, i: int, j: int)
    requires Square(m) && 0 <= i < |m| && 0 <= j < |m| && !(i < j && m[i][j] && m[j][i])
    ensures PruneState(m, i, j + 1) == PruneState(m, i, j)
  {
    var p, q := PruneState(m, i, j), PruneState(m, i, j + 1);
    forall r | 0 <= r < |m|
      ensures q[r] == p[r]
    {
    }
  }

  /** The end of row `i` is the start of row `i + 1`. */
  lemma PruneNextRow(m: seq<seq<bool>>, i: int)
    requires Square(m)
    ensures PruneState(m, i, |m|) == PruneState(m, i + 1, 0)
  {
    var p, q := PruneState(m, i, |m|), PruneState(m, i + 1, 0);
    forall r | 0 <= r < |m|
      ensures q[r] == p[r]
    {
    }
  }

  /** The probe whose counter step `(i, j)` decrements. */
  function Decremented(dec: Decrement, i: int, j: int): int
  {
    if dec.AsWritten? then i else j
  }

  /** Step `(i, j)` of a pair joined both ways adds one decrement to the
      counter it names, at a cell that had none. */
  lemma DriftClear(m: seq<seq<bool>>, dec: Decrement, i: int, j: int)
    requires Square(m) && 0 <= i < j < |m| && m[i][j] && m[j][i]
    ensures var d, e := Decremented(dec, i, j), Decremented(dec, j, i);
      !Drift(m, dec, d, i, j)[e] && Drift(m, dec, d, i, j + 1) == Drift(m, dec, d, i, j)[e := true]
    ensures forall r :: 0 <= r < |m| && r != Decremented(dec, i, j) ==> Drift(m, dec, r, i, j + 1) == Drift(m, dec, r, i, j)
  {
  }

  /** Any other step adds no decrement. */
  lemma DriftKeep(m: seq<seq<bool>>, dec: Decrement, i: int, j: int)
    requires Square(m) && 0 <= i < |m| && 0 <= j < |m| && !(i < j && m[i][j] && m[j][i])
    ensures forall r :: 0 <= r < |m| ==> Drift(m, dec, r, i, j + 1) == Drift(m, dec, r, i, j)
  {
  }

  lemma DriftNextRow(m: seq<seq<bool>>, dec: Decrement, i: int)
    requires Square(m)
    ensures forall r :: 0 <= r < |m| ==> Drift(m, dec, r, i, |m|) == Drift(m, dec, r, i + 1, 0)
  {
  }

  /** Before the first step nothing is pruned and nothing decremented. */
  lemma PruneStart(m: seq<seq<bool>>, dec: Decrement)
    requires Square(m)
    ensures PruneState(m, 0, 0) == m
    ensures forall r :: 0 <= r < |m| ==> Count(Drift(m, dec, r, 0, 0)) == 0
  {
    var p := PruneState(m, 0, 0);
    forall r | 0 <= r < |m|
      ensures p[r] == m[r] && Count(Drift(m, dec, r, 0, 0)) == 0
    {
      CountNone(Drift(m, dec, r, 0, 0));
    }
  }

  /** The counters `cur` are those of `a0` less the decrements taken
      before step `(i, j)`. */
  ghost predicate Counters(a0: seq<Segment>, cur: seq<Segment>, m: seq<seq<bool>>, dec: Decrement, i: int, j: int)
    requires Square(m) && |a0| == |m|
  {
    |cur| == |m| &&
    forall r :: 0 <= r < |m| ==> cur[r] == a0[r].(vaild := a0[r].vaild - Count(Drift(m, dec, r, i, j)))
  }

  lemma CountersClear(a0: seq<Segment>, cur: seq<Segment>, m: seq<seq<bool>>, dec: Decrement, i: int, j: int)
    requires Square(m) && |a0| == |m| && 0 <= i < j < |m| && m[i][j] && m[j][i]
    requires Counters(a0, cur, m, dec, i, j)
    ensures var d := Decremented(dec, i, j);
      Counters(a0, cur[d := cur[d].(vaild := cur[d].vaild - 1)], m, dec, i, j + 1)
  {
    DriftClear(m, dec, i, j);
    CountUpdate(Drift(m, dec, Decremented(dec, i, j), i, j), Decremented(dec, j, i), true);
  }

  lemma CountersKeep(a0: seq<Segment>, cur: seq<Segment>, m: seq<seq<bool>>, dec: Decrement, i: int, j: int)
    requires Square(m) && |a0| == |m| && 0 <= i < |m| && 0 <= j < |m| && !(i < j && m[i][j] && m[j][i])
    requires Counters(a0, cur, m, dec, i, j)
    ensures Counters(a0, cur, m, dec, i, j + 1)
  {
    DriftKeep(m, dec, i, j);
  }

  lemma CountersNextRow(a0: seq<Segment>, cur: seq<Segment>, m: seq<seq<bool>>, dec: Decrement, i: int)
    requires Square(m) && |a0| == |m| && Counters(a0, cur, m, dec, i, |m|)
    ensures Counters(a0, cur, m, dec, i + 1, 0)
  {
    DriftNextRow(m, dec, i);
  }

  /** The second loop of `pairJoinCheck`: for every step `(i, j)` with
      `i != j` whose two cells are both set, clear cell `(j, i)` and
      decrement a counter (`vaild[i]` as written). */
  method Prune(a: array<Segment>, m: seq<seq<bool>>, dec: Decrement) returns (pair: seq<seq<bool>>)
    requires Square(m) && |m| == a.Length
    modifies a
    ensures pair == Pruned(m)
    ensures forall r :: 0 <= r < a.Length ==> a[r] == old(a[r]).(vaild := old(a[r]).vaild - Count(Lost(m, dec, r)))
  {
    ghost var a0 := a[..];
    var n := a.Length;
    PruneStart(m, dec);
    pair := m;
    var i := 0;
    while i < n
      invariant 0 <= i <= n && pair == PruneState(m, i, 0) && Counters(a0, a[..], m, dec, i, 0)
    {
      pair := PruneRow(a, m, dec, i, pair, a0);
      PruneNextRow(m, i);
      CountersNextRow(a0, a[..], m, dec, i);
      i := i + 1;
    }
  }

  /** Row `i` of the prune loop. */
  method PruneRow(a: array<Segment>, m: seq<seq<bool>>, dec: Decrement, i: int, pair0: seq<seq<bool>>, ghost a0: seq<Segment>)
    returns (pair: seq<seq<bool>>)
    requires Square(m) && |m| == a.Length && |a0| == |m| && 0 <= i < |m|
    requires pair0 == PruneState(m, i, 0) && Counters(a0, a[..], m, dec, i, 0)
    modifies a
    ensures pair == PruneState(m, i, |m|) && Counters(a0, a[..], m, dec, i, |m|)
  {
    pair := pair0;
    var n := a.Length;
    var j := 0;
    while j < n
      invariant 0 <= j <= n && pair == PruneState(m, i, j) && Counters(a0, a[..], m, dec, i, j)
    {
      pair := PruneCell(a, m, dec, i, j, pair, a0);
      j := j + 1;
    }
  }

  /** Step `(i, j)` of the prune loop. */
  method PruneCell(a: array<Segment>, m: seq<seq<bool>>, dec: Decrement, i: int, j: int, pair0: seq<seq<bool>>, ghost a0: seq<Segment>)
    returns (pair: seq<seq<bool>>)
    requires Square(m) && |m| == a.Length && |a0| == |m| && 0 <= i < |m| && 0 <= j < |m|
    requires pair0 == PruneState(m, i, j) && Counters(a0, a[..], m, dec, i, j)
    modifies a
    ensures pair == PruneState(m, i, j + 1) && Counters(a0, a[..], m, dec, i, j + 1)
  {
    pair := pair0;
    if i != j {
      PruneTest(m, i, j);
      if pair[i][j] && pair[j][i] {
        PruneClear(m, i, j);
        ghost var cur := a[..];
        CountersClear(a0, cur, m, dec, i, j);
        pair := pair[j := pair[j][i := false]];
        var d := Decremented(dec, i, j);
        a[d] := a[d].(vaild := a[d].vaild - 1);
        assert a[..] == cur[d := cur[d].(vaild := cur[d].vaild - 1)];
      } else {
        PruneKeep(m, i, j);
        CountersKeep(a0, a[..], m, dec, i, j);
      }
    } else {
      PruneKeep(m, i, j);
      CountersKeep(a0, a[..], m, dec, i, j);
    }
  }

  /** After pruning no pair of two probes is joined both ways, every link
      left was there before, and every pair joined either way before still
      is. */
  lemma PrunedOneWay(m: seq<seq<bool>>, r: int, c: int)
    requires Square(m) && 0 <= r < |m| && 0 <= c < |m| && r != c
    ensures !(Pruned(m)[r][c] && Pruned(m)[c][r])
    ensures Pruned(m)[r][c] ==> m[r][c]
    ensures (Pruned(m)[r][c] || Pruned(m)[c][r]) == (m[r][c] || m[c][r])
  {
  }

  /** With the corrected decrement a probe loses one count per link it
      loses: its counts less its decrements are the counts of its pruned
      row. */
  lemma CorrectedCounts(m: seq<seq<bool>>, r: int)
    requires Square(m) && 0 <= r < |m|
    ensures Count(m[r]) - Count(Lost(m, Corrected, r)) == Count(Pruned(m)[r])
  {
    CountSplit(m[r], Pruned(m)[r], Lost(m, Corrected, r));
  }

  /** As written the counters drift from the matrix: two probes joined
      both ways, each with count 1, end with counts 0 and 1 while their
      rows hold 1 and 0 links. */
  lemma AsWrittenMiscounts()
    ensures var m := [[false, true], [true, false]];
      Count(m[0]) == 1 && Count(m[1]) == 1 &&
      Count(Pruned(m)[0]) == 1 && Count(Pruned(m)[1]) == 0 &&
      Count(m[0]) - Count(Lost(m, AsWritten, 0)) == 0 &&
      Count(m[1]) - Count(Lost(m, AsWritten, 1)) == 1
  {
    var m := [[false, true], [true, false]];
    assert Pruned(m)[0] == [false, true];
    assert Pruned(m)[1] == [false, false];
    assert Lost(m, AsWritten, 0) == [false, true];
    assert Lost(m, AsWritten, 1) == [false, false];
  }

  // ---------------------------------------------------------------------
  // Sorting by `vaild`

  /** `cmpSegments`: positive when `x` has the smaller counter, so that
      `qsort` puts larger counters first. */
  function CmpSegments(x: Segment, y: Segment): (r: int)
    ensures r > 0 <==> x.vaild < y.vaild
    ensures r < 0 <==> y.vaild < x.vaild
  {
    y.vaild - x.vaild
  }

  /** Counters never increase along `s`. */
  predicate ByVaild(s: seq<Segment>)
  {
    forall p, q :: 0 <= p < q < |s| ==> s[p].vaild >= s[q].vaild
  }

  /** The `qsort` call with `cmpSegments`.  `qsort` promises only an
      order by the comparison and a permutation (it is not stable); an
      insertion sort, swapping while `cmpSegments` is positive, is one
      implementation with that contract. */
  method SortByVaild(a: array<Segment>)
    modifies a
    ensures ByVaild(a[..]) && multiset(a[..]) == multiset(old(a[..]))
  {
    var i := 0;
    while i < a.Length
      invariant 0 <= i <= a.Length && ByVaild(a[..i]) && multiset(a[..]) == multiset(old(a[..]))
    {
      Insert(a, i);
      i := i + 1;
    }
    assert a[..a.Length] == a[..];
  }

  /** Move `a[i]` down past the smaller counters before it. */
  method Insert(a: array<Segment>, i: int)
    requires 0 <= i < a.Length && ByVaild(a[..i])
    modifies a
    ensures ByVaild(a[..i + 1]) && multiset(a[..]) == multiset(old(a[..]))
  {
    var j := i;
    HoleStart(a[..], i);
    while j > 0 && CmpSegments(a[j - 1], a[j]) > 0
      invariant 0 <= j <= i && multiset(a[..]) == multiset(old(a[..])) && Hole(a[..], i, j)
    {
      HoleSwap(a[..], i, j);
      a[j - 1], a[j] := a[j], a[j - 1];
      j := j - 1;
    }
    HoleDone(a[..], i, j);
  }

  /** The first `i + 1` elements are in order except for the moving one
      at `j`, which is above everything after it. */
  ghost predicate Hole(s: seq<Segment>, i: int, j: int)
    requires 0 <= j <= i < |s|
  {
    (forall p, q :: 0 <= p < q <= i && p != j && q != j ==> s[p].vaild >= s[q].vaild) &&
    (forall p, q :: 0 <= p < j < q <= i ==> s[p].vaild >= s[q].vaild) &&
    (forall q :: j < q <= i ==> s[j].vaild > s[q].vaild)
  }

  lemma HoleStart(s: seq<Segment>, i: int)
    requires 0 <= i < |s| && ByVaild(s[..i])
    ensures Hole(s, i, i)
  {
    assert forall p :: 0 <= p < i ==> s[..i][p] == s[p];
  }

  lemma HoleSwap(s: seq<Segment>, i: int, j: int)
    requires 0 < j <= i < |s| && Hole(s, i, j) && s[j - 1].vaild < s[j].vaild
    ensures multiset(s[j - 1 := s[j]][j := s[j - 1]]) == multiset(s)
    ensures Hole(s[j - 1 := s[j]][j := s[j - 1]], i, j - 1)
  {
  }

  lemma HoleDone(s: seq<Segment>, i: int, j: int)
    requires 0 <= j <= i < |s| && Hole(s, i, j) && (j == 0 || s[j - 1].vaild >= s[j].vaild)
    ensures ByVaild(s[..i + 1])
  {
    assert forall p :: 0 <= p <= i ==> s[..i + 1][p] == s[p];
  }

  // ---------------------------------------------------------------------
  // `pairJoinCheck` and `checkJoin`

  /** The probes with the counters the two loops leave. */
  function Scored(s0: seq<Segment>, m: seq<seq<bool>>, dec: Decrement): (s: seq<Segment>)
    requires Square(m) && |m| == |s0|
    ensures |s| == |s0|
  {
    seq(|s0|, r requires 0 <= r < |s0| =>
      s0[r].(vaild := s0[r].vaild + Count(m[r]) - Count(Lost(m, dec, r))))
  }

  /** `pairJoinCheck`: the pruned join matrix, indexed by the positions the
      probes had on entry; the probes themselves end sorted by
      non-increasing counter, each counter raised by its admitted pairs and
      lowered by its decrements. */
  method PairJoinCheck(index: BitArrays.BitArray, a: array<Segment>, dec: Decrement) returns (pair: seq<seq<bool>>)
    requires index.Valid() && a as object != index.data as object && Scannable(a[..])
    modifies a
    ensures pair == Pruned(Links(Index.Snapshot(index), old(a[..])))
    ensures ByVaild(a[..])
    ensures multiset(a[..]) == multiset(Scored(old(a[..]), Links(Index.Snapshot(index), old(a[..])), dec))
  {
    ghost var s0 := a[..];
    ghost var f := Index.Snapshot(index);
    var m := Connect(index, a);
    ghost var mid := a[..];
    pair := Prune(a, m, dec);
    ScoredAfter(s0, mid, a[..], m, dec);
    SortByVaild(a);
    assert f == Index.Snapshot(index);
  }

  /** Crediting the rows, then taking the decrements, gives `Scored`. */
  lemma ScoredAfter(s0: seq<Segment>, mid: seq<Segment>, fin: seq<Segment>, m: seq<seq<bool>>, dec: Decrement)
    requires Square(m) && |m| == |s0| == |mid| == |fin|
    requires forall r :: 0 <= r < |s0| ==> mid[r] == s0[r].(vaild := s0[r].vaild + Count(m[r]))
    requires forall r :: 0 <= r < |s0| ==> fin[r] == mid[r].(vaild := mid[r].vaild - Count(Lost(m, dec, r)))
    ensures fin == Scored(s0, m, dec)
  {
  }

  /** `checkJoin`: without a matrix every pair joins; otherwise cell
      `(s1.id, s2.id)`, which `bitarrayGet` reads as 0 past the row. */
  function CheckJoin(pair: Arrays.Option<seq<seq<bool>>>, s1: Segment, s2: Segment): (r: bool)
    requires pair.Some? ==> 0 <= s1.id < |pair.value| && 0 <= s2.id
    ensures pair.None? ==> r
    ensures r && pair.Some? ==> s2.id < |pair.value[s1.id]| && pair.value[s1.id][s2.id]
  {
    if pair.None? then true
    else if s2.id < |pair.value[s1.id]| then pair.value[s1.id][s2.id]
    else false
  }

  /** When the ids are the entry positions (as `filterSegment` numbers
      them), `checkJoin` on the matrix of `pairJoinCheck` holds for two of
      its probes exactly when the scan admits the first before the second
      and the pair was not joined both ways with the second probe first. */
  lemma CheckJoinMeans(f: Index.IndexFile, segs: seq<Segment>, dec: Decrement, x: Segment, y: Segment)
    requires Index.WellFormed(f) && Scannable(segs)
    requires forall k :: 0 <= k < |segs| ==> segs[k].id == k
    requires x in Scored(segs, Links(f, segs), dec) && y in Scored(segs, Links(f, segs), dec)
    ensures 0 <= x.id < |segs| && 0 <= y.id < |segs|
    ensures Filter.TwoBit(x.bases) && Filter.TwoBit(y.bases)
    ensures CheckJoin(Arrays.Some(Pruned(Links(f, segs))), x, y) ==
      (x.id != y.id && Joinable(f, x.bases, y.bases) && !(y.id < x.id && Joinable(f, y.bases, x.bases)))
  {
    var sc := Scored(segs, Links(f, segs), dec);
    var p :| 0 <= p < |sc| && sc[p] == x;
    var q :| 0 <= q < |sc| && sc[q] == y;
    CheckJoinAt(f, segs, dec, p, q);
  }

  /** `CheckJoinMeans` for the probes at positions `p` and `q`. */
  lemma CheckJoinAt(f: Index.IndexFile, segs: seq<Segment>, dec: Decrement, p: int, q: int)
    requires Index.WellFormed(f) && Scannable(segs)
    requires forall k :: 0 <= k < |segs| ==> segs[k].id == k
    requires 0 <= p < |segs| && 0 <= q < |segs|
    ensures var x, y := Scored(segs, Links(f, segs), dec)[p], Scored(segs, Links(f, segs), dec)[q];
      x.id == p && y.id == q && x.bases == segs[p].bases && y.bases == segs[q].bases &&
      CheckJoin(Arrays.Some(Pruned(Links(f, segs))), x, y) ==
      (p != q && Joinable(f, segs[p].bases, segs[q].bases) && !(q < p && Joinable(f, segs[q].bases, segs[p].bases)))
  {
    var links := Links(f, segs);
    ScoredKeeps(segs, links, dec, p);
    ScoredKeeps(segs, links, dec, q);
    LinksAt(f, segs, p, q);
    LinksAt(f, segs, q, p);
    PrunedAt(links, p, q);
  }

  /** Scoring changes only the counters. */
  lemma ScoredKeeps(s0: seq<Segment>, m: seq<seq<bool>>, dec: Decrement, p: int)
    requires Square(m) && |m| == |s0| && 0 <= p < |s0|
    ensures Scored(s0, m, dec)[p].id == s0[p].id && Scored(s0, m, dec)[p].bases == s0[p].bases
  {
  }

  lemma LinksAt(f: Index.IndexFile, segs: seq<Segment>, p: int, q: int)
    requires Index.WellFormed(f) && Scannable(segs) && 0 <= p < |segs| && 0 <= q < |segs|
    ensures Links(f, segs)[p][q] == Link(f, segs, p, q)
  {
  }

  /** A cell survives pruning unless the pair is joined both ways and
      the row comes second. */
  lemma PrunedAt(m: seq<seq<bool>>, p: int, q: int)
    requires Square(m) && 0 <= p < |m| && 0 <= q < |m|
    ensures Pruned(m)[p][q] == (m[p][q] && !(q < p && m[q][p]))
  {
  }

  /** With the corrected decrement every counter ends at its entry value
      plus the links its pruned row keeps. */
  lemma CorrectedScores(s0: seq<Segment>, m: seq<seq<bool>>, r: int)
    requires Square(m) && |m| == |s0| && 0 <= r < |s0|
    ensures Scored(s0, m, Corrected)[r].vaild == s0[r].vaild + Count(Pruned(m)[r])
  {
    CorrectedCounts(m, r);
  }

  /** The probes `filterSegment` returns can be scanned, and their ids are
      their positions. */
  lemma FilteredProbes(segs: seq<Segment>, opts: Filter.FilterOpts)
    requires Filter.AllTwoBit(segs)
    ensures var probes := Filter.Numbered(Filter.Probes(segs, opts, |segs|), 0);
      Scannable(probes) && forall k :: 0 <= k < |probes| ==> probes[k].id == k
  {
    var ps := Filter.Probes(segs, opts, |segs|);
    Filter.ProbesSound(segs, opts, |segs|);
    forall k | 0 <= k < |ps|
      ensures Filter.TwoBit(ps[k].bases) && 1 <= |ps[k].bases|
    {
      assert ps[k] in ps;
      var i, j :| 0 <= i < |segs| && 0 <= j && 2 * Filter.ProbeLen <= |segs[i].bases| &&
        j + Filter.ProbeLen <= |segs[i].bases| && ps[k] == Filter.Probe(segs[i], j);
      assert forall t :: 0 <= t < Filter.ProbeLen ==> ps[k].bases[t] == segs[i].bases[j + t];
    }
  }
}
