/** The 20-mer strings of a probe: `segmentToKmer` (used by `saveCircle`)
    and the per-probe line of `writeSegments`.  The forward code is built by
    `(kmer << 2) | c` and the reverse-complement code by
    `(rev >> 2) | ((3 - c) << 38)` in a `uint64_t`; `writeSegments` also
    masks both to 40 bits and does not reset them between probes.  The
    bases are read with `bitarrayGet`, which masks to two bits and reads 0
    past the end. */
module Output {

  import Alloc
  import Kmers
  import Segments

  type Code = Kmers.Code
  type Segment = Segments.Segment

  /** `KMER_LONG_LEN`. */
  const LongLen: nat := 20

  /** `kmerMask + 1`, 2^40. */
  const LongSpace: nat := 0x100_0000_0000

  /** `1 << kmerShift`, 2^38. */
  const TopLong: nat := 0x40_0000_0000

  function SlotCode(b: seq<bv8>, i: nat): Code
  {
    if i < |b| then (b[i] & 3) as int else 0
  }

  /** The first 20 slots of a probe's bases. */
  function Word(b: seq<bv8>): (w: seq<Code>)
    ensures |w| == LongLen
    ensures forall i :: 0 <= i < |b| && i < LongLen && b[i] <= 3 ==> w[i] == b[i] as int
  {
    seq(LongLen, i requires 0 <= i < LongLen => SlotCode(b, i))
  }

  /** `kmer = (kmer << 2) | c` in `segmentToKmer`. */
  function LongFwd(f: nat, c: Code): nat
  {
    Alloc.BitOr((4 * f) % Alloc.U64, c)
  }

  /** `reverseKmer = (reverseKmer >> 2) | ((3 - c) << 38)` in `segmentToKmer`. */
  function LongRev(r: nat, c: Code): nat
  {
    Alloc.BitOr(r / 4, ((3 - c) * TopLong) % Alloc.U64)
  }

  /** `kmer = ((kmer << 2) & kmerMask) | c` in `writeSegments`. */
  function MaskedFwd(f: nat, c: Code): nat
  {
    Alloc.BitOr(((4 * f) % Alloc.U64) % LongSpace, c)
  }

  /** `reverseKmer = ((reverseKmer >> 2) & kmerMask) | ((3 - c) << 38)` in
      `writeSegments`. */
  function MaskedRev(r: nat, c: Code): nat
  {
    Alloc.BitOr((r / 4) % LongSpace, ((3 - c) * TopLong) % Alloc.U64)
  }

  // ---------------------------------------------------------------------
  // Arithmetic of one step

  lemma Pow4At20()
    ensures Kmers.Pow4(20) == LongSpace && Kmers.Pow4(19) == TopLong
  {
    Kmers.Pow4At16();
    assert Kmers.Pow4(3) == 64;
    Kmers.Pow4Add(16, 3);
    Kmers.Pow4Add(19, 1);
  }

  /** A code goes into the two free low bits. */
  lemma OrLow(h: nat, c: Code)
    ensures Alloc.BitOr(4 * h, c) == 4 * h + c
  {
    assert Alloc.Pow2(2) == 4;
    Alloc.BitOrHigh(h, 0, c, 2);
    Alloc.BitOrCommutes(0, c);
    Alloc.BitOrZero(c);
  }

  lemma Pow2At38()
    ensures Alloc.Pow2(38) == TopLong
  {
    assert Alloc.Pow2(8) == 256;
    Alloc.Pow2Square(8, 16);
    assert Alloc.Pow2(3) == 8;
    Alloc.Pow2Add(16, 3);
    Alloc.Pow2Square(19, 38);
  }

  /** A code goes into bits 38 and 39 above a value below bit 38. */
  lemma OrTop(x: nat, d: nat)
    requires x < TopLong && d < 4
    ensures Alloc.BitOr(x, d * TopLong) == x + d * TopLong
  {
    Pow2At38();
    Alloc.BitOrHigh(d, 0, x, 38);
    Alloc.BitOrCommutes(0, x);
    Alloc.BitOrZero(x);
    Alloc.BitOrCommutes(x, d * TopLong);
  }

  /** `(4k) mod 4p == 4 (k mod p)`. */
  lemma ModTimesFour(k: nat, p: nat)
    requires p >= 1
    ensures (4 * k) % (4 * p) == 4 * (k % p)
  {
    var q, r := k / p, k % p;
    Alloc.SplitAt(k, p, q);
    Alloc.ScaleSplit(k, q, p, r, 4);
    Alloc.DivUnique(4 * k, 4 * p, q, 4 * r);
  }

  /** `x mod ab mod a == x mod a`. */
  lemma ModOfMod(x: nat, a: nat, b: nat)
    requires a >= 1 && b >= 1
    ensures x % (a * b) % a == x % a
  {
    var ab := a * b;
    var q, r := x / ab, x % ab;
    var s, t := r / a, r % a;
    Alloc.SplitAt(x, ab, q);
    Alloc.SplitAt(r, a, s);
    Alloc.Regroup(x, q, a, b, ab, r, s, t);
    Alloc.DivUnique(x, a, q * b + s, t);
  }

  /** The masked forward step on a value below 2^40, and the unmasked one
      on a value below 2^38, both shift in the code. */
  lemma MaskedFwdValue(k: nat, c: Code)
    requires k < LongSpace
    ensures MaskedFwd(k, c) == 4 * (k % TopLong) + c
    ensures k < TopLong ==> LongFwd(k, c) == MaskedFwd(k, c)
  {
    Alloc.DivUnique(4 * k, Alloc.U64, 0, 4 * k);
    ModTimesFour(k, TopLong);
    OrLow(k % TopLong, c);
    if k < TopLong {
      Alloc.DivUnique(k, TopLong, 0, k);
    }
  }

  /** Appending a digit to the low digits of `k`. */
  lemma LowDigits(k: nat, h: nat, c: Code, p: nat, e: nat)
    requires p >= 1 && e >= 1 && h == k % (p * e)
    ensures (4 * h + c) % (4 * p) == 4 * (k % p) + c
  {
    ModOfMod(k, p, e);
    var q, s := h / p, h % p;
    Alloc.SplitAt(h, p, q);
    Alloc.ScaleSplit(h, q, p, s, 4);
    Alloc.DivUnique(4 * h + c, 4 * p, q, 4 * s + c);
  }

  /** The forward step on a value below 2^40: the low `2(i+1)` bits are the
      old low `2i` bits followed by the new code. */
  lemma FwdStepLow(k: nat, c: Code, i: nat)
    requires i < LongLen && k < LongSpace
    ensures MaskedFwd(k, c) < LongSpace
    ensures MaskedFwd(k, c) % Kmers.Pow4(i + 1) == 4 * (k % Kmers.Pow4(i)) + c
  {
    MaskedFwdValue(k, c);
    Pow4At20();
    Kmers.Pow4Add(i, 19 - i);
    LowDigits(k, k % TopLong, c, Kmers.Pow4(i), Kmers.Pow4(19 - i));
  }

  /** The masked reverse step on a value below 2^40 is the unmasked one:
      the old value moves down two bits and the complement comes in at the
      top. */
  lemma MaskedRevValue(r: nat, c: Code)
    requires r < LongSpace
    ensures MaskedRev(r, c) == r / 4 + (3 - c) * TopLong
    ensures MaskedRev(r, c) == LongRev(r, c)
  {
    Alloc.DivUnique(r / 4, LongSpace, 0, r / 4);
    Alloc.DivUnique((3 - c) * TopLong, Alloc.U64, 0, (3 - c) * TopLong);
    OrTop(r / 4, 3 - c);
  }

  lemma DivBelow(x: nat, a: nat, b: nat)
    requires a >= 1 && x < a * b
    ensures x / a < b
  {
    if x / a >= b {
      Alloc.MulLe(b, x / a, a);
    }
  }

  lemma DigitBelow(x: nat, p: nat, a: nat, b: nat)
    requires x < b && p < a
    ensures x + p * b < a * b
  {
    Alloc.MulLe(p, a - 1, b);
  }

  lemma Distribute(d: nat, a: nat, p: nat, e: nat, t: nat)
    requires t == a * e
    ensures d * t + p * e == (d * a + p) * e
  {
  }

  /** The arithmetic of the reverse step: with `a = 4^i`, `e = 4^(19-i)`
      and `t = a e`, `r0 / a + 4 p e` shifted down with `d` on top is
      `r0 / 4a + (d a + p) e`. */
  lemma RevArith(r0: nat, r: nat, d: nat, a: nat, e: nat, p: nat, t: nat, e4: nat, a4: nat, l: nat)
    requires a >= 1 && e >= 1 && t == a * e && e4 == 4 * e && a4 == a * 4 && l == a * e4
    requires r0 < l && p < a && r == r0 / a + p * e4
    ensures r < l
    ensures r / 4 + d * t == r0 / a4 + (d * a + p) * e
  {
    var x := r0 / a;
    DivBelow(r0, a, e4);
    DigitBelow(x, p, a, e4);
    assert p * e4 == 4 * (p * e);
    Alloc.DivUnique(r, 4, x / 4 + p * e, x % 4);
    Alloc.DivMul(r0, a, 4);
    Distribute(d, a, p, e, t);
  }

  /** The reverse step on `r0 / 4^i + P 4^(20-i)`. */
  lemma RevStepValue(r0: nat, r: nat, c: Code, i: nat, p: nat)
    requires i < LongLen && r0 < LongSpace && p < Kmers.Pow4(i)
    requires r == r0 / Kmers.Pow4(i) + p * Kmers.Pow4(LongLen - i)
    ensures r < LongSpace
    ensures MaskedRev(r, c) == r0 / Kmers.Pow4(i + 1) + ((3 - c) * Kmers.Pow4(i) + p) * Kmers.Pow4(LongLen - (i + 1))
    ensures MaskedRev(r, c) == LongRev(r, c)
  {
    var a, e := Kmers.Pow4(i), Kmers.Pow4(LongLen - (i + 1));
    RevPowers(i);
    RevArith(r0, r, 3 - c, a, e, p, TopLong, Kmers.Pow4(LongLen - i), Kmers.Pow4(i + 1), LongSpace);
    MaskedRevValue(r, c);
  }

  /** The powers of 4 around digit `i` of a 20-digit code. */
  lemma RevPowers(i: nat)
    requires i < LongLen
    ensures Kmers.Pow4(i) * Kmers.Pow4(LongLen - (i + 1)) == TopLong
    ensures Kmers.Pow4(LongLen - i) == 4 * Kmers.Pow4(LongLen - (i + 1))
    ensures Kmers.Pow4(i + 1) == Kmers.Pow4(i) * 4
    ensures Kmers.Pow4(i) * (4 * Kmers.Pow4(LongLen - (i + 1))) == LongSpace
  {
    Pow4At20();
    Kmers.Pow4Add(i, LongLen - (i + 1));
    Kmers.Pow4Add(i, LongLen - i);
    assert Kmers.Pow4(LongLen - i) == 4 * Kmers.Pow4(LongLen - (i + 1));
  }


  // ---------------------------------------------------------------------
  // The strings of a probe

  /** The complement letter, as `RevComp` complements codes. */
  function ComplementLetter(ch: char): char
  {
    if ch == 'A' then 'T' else if ch == 'C' then 'G' else if ch == 'G' then 'C' else if ch == 'T' then 'A' else ch
  }

  /** The reverse string is the reverse complement of the forward string. */
  lemma {:induction false} LettersRevComp(w: seq<Code>, i: nat)
    requires i < |w|
    ensures Kmers.Letters(Kmers.RevComp(w))[i] == ComplementLetter(Kmers.Letters(w)[|w| - 1 - i])
  {
    Kmers.RevCompAt(w, i);
  }

  /** The codes after feeding the first `i` slots into the forward and
      reverse steps, the reverse one from `r0`: the forward code is below
      2^40 and its low `2i` bits pack the slots; the reverse code is `r0`
      shifted down `2i` bits with the packed complement slots above. */
  ghost predicate Fed(w: seq<Code>, i: nat, r0: nat, kmer: nat, rev: nat)
    requires i <= |w| == LongLen
  {
    kmer < LongSpace && kmer % Kmers.Pow4(i) == Kmers.Pack(w[..i]) &&
    rev == r0 / Kmers.Pow4(i) + Kmers.Pack(Kmers.RevComp(w[..i])) * Kmers.Pow4(LongLen - i)
  }

  /** One more slot. */
  lemma FedStep(w: seq<Code>, i: nat, r0: nat, kmer: nat, rev: nat)
    requires i < |w| == LongLen && r0 < LongSpace && Fed(w, i, r0, kmer, rev)
    ensures Fed(w, i + 1, r0, MaskedFwd(kmer, w[i]), MaskedRev(rev, w[i]))
  {
    var c := w[i];
    FwdStepLow(kmer, c, i);
    assert w[..i + 1][..i] == w[..i];
    assert Kmers.Pack(w[..i + 1]) == 4 * Kmers.Pack(w[..i]) + c;
    var rc := Kmers.RevComp(w[..i]);
    Kmers.PackBelow(rc);
    RevStepValue(r0, rev, c, i, Kmers.Pack(rc));
    assert Kmers.RevComp(w[..i + 1]) == [Kmers.Complement(c)] + rc;
    Kmers.PackPrepend(Kmers.Complement(c), rc);
    assert Kmers.Pack(Kmers.RevComp(w[..i + 1])) == (3 - c) * Kmers.Pow4(i) + Kmers.Pack(rc);
  }

  /** After all 20 slots the codes are the word's and its reverse
      complement's, whatever the earlier values below 2^40. */
  lemma FedAll(w: seq<Code>, r0: nat, kmer: nat, rev: nat)
    requires |w| == LongLen && r0 < LongSpace && Fed(w, LongLen, r0, kmer, rev)
    ensures kmer == Kmers.Pack(w) && rev == Kmers.Pack(Kmers.RevComp(w))
    ensures kmer < LongSpace && rev < LongSpace
  {
    Pow4At20();
    assert w[..LongLen] == w;
    Kmers.PackBelow(w);
    Kmers.PackBelow(Kmers.RevComp(w));
    Alloc.DivUnique(kmer, LongSpace, 0, kmer);
    Alloc.DivUnique(r0, LongSpace, 0, r0);
  }

  /** From zero the forward code stays below `4^i`, so the mask of
      `writeSegments` and the plain shift of `segmentToKmer` agree. */
  lemma ZeroStep(w: seq<Code>, i: nat, n: nat, kmer: nat, rev: nat)
    requires i < |w| == LongLen && n == i + 1 && Fed(w, i, 0, kmer, rev) && kmer < Kmers.Pow4(i)
    ensures Fed(w, n, 0, LongFwd(kmer, w[i]), LongRev(rev, w[i]))
    ensures LongFwd(kmer, w[i]) < Kmers.Pow4(n)
  {
    var p := Kmers.Pack(Kmers.RevComp(w[..i]));
    FedStep(w, i, 0, kmer, rev);
    ZeroFwd(kmer, w[i], i);
    Kmers.PackBelow(Kmers.RevComp(w[..i]));
    RevStepValue(0, rev, w[i], i, p);
  }

  /** Below `4^i` the unmasked forward step is the masked one and stays
      below `4^(i+1)`. */
  lemma ZeroFwd(k: nat, c: Code, i: nat)
    requires i < LongLen && k < Kmers.Pow4(i)
    ensures LongFwd(k, c) == MaskedFwd(k, c) && LongFwd(k, c) < Kmers.Pow4(i + 1)
  {
    RevPowers(i);
    OneFactor(Kmers.Pow4(i), Kmers.Pow4(LongLen - (i + 1)), TopLong);
    MaskedFwdValue(k, c);
    Alloc.DivUnique(k, TopLong, 0, k);
  }

  lemma OneFactor(a: nat, b: nat, t: nat)
    requires t == a * b && b >= 1
    ensures a <= t
  {
    Alloc.MulLe(1, b, a);
  }

  /** Nothing fed yet, from a reverse code `r0`. */
  lemma FedStart(w: seq<Code>, i: nat, r0: nat, k0: nat)
    requires |w| == LongLen && i == 0 && k0 < LongSpace
    ensures Fed(w, i, r0, k0, r0)
  {
    assert w[..i] == [];
    assert Kmers.Pow4(i) == 1;
    assert Kmers.Pack(Kmers.RevComp(w[..i])) == 0;
  }

  /** The shift loop of `segmentToKmer`, from zero. */
  method PackSlots(b: seq<bv8>) returns (kmer: nat, rev: nat)
    ensures kmer == Kmers.Pack(Word(b)) && rev == Kmers.Pack(Kmers.RevComp(Word(b)))
  {
    ghost var w := Word(b);
    kmer, rev := 0, 0;
    var i := 0;
    FedStart(w, i, 0, 0);
    while i < LongLen
      invariant 0 <= i <= LongLen && Fed(w, i, 0, kmer, rev) && kmer < Kmers.Pow4(i)
    {
      var c := SlotCode(b, i);
      ZeroStep(w, i, i + 1, kmer, rev);
      kmer := LongFwd(kmer, c);
      rev := LongRev(rev, c);
      i := i + 1;
    }
    FedAll(w, 0, kmer, rev);
  }

  /** `segmentToKmer`: the forward and reverse-complement strings of the
      probe's first 20 bases. */
  method SegmentToKmer(s: Segment) returns (kstr: string, rstr: string)
    ensures kstr == Kmers.Letters(Word(s.bases))
    ensures rstr == Kmers.Letters(Kmers.RevComp(Word(s.bases)))
  {
    var kmer, rev := PackSlots(s.bases);
    kstr := Kmers.KmerString(kmer, LongLen);
    rstr := Kmers.KmerString(rev, LongLen);
    Kmers.KmerStringOfPack(Word(s.bases));
    Kmers.KmerStringOfPack(Kmers.RevComp(Word(s.bases)));
  }

  /** The shift loop of `writeSegments`, from the codes the previous probe
      left: as long as they are below 2^40, as the masks keep them, they are
      shifted out completely. */
  method PackSlotsMasked(b: seq<bv8>, kmer0: nat, rev0: nat) returns (kmer: nat, rev: nat)
    requires kmer0 < LongSpace && rev0 < LongSpace
    ensures kmer == Kmers.Pack(Word(b)) && rev == Kmers.Pack(Kmers.RevComp(Word(b)))
    ensures kmer < LongSpace && rev < LongSpace
  {
    ghost var w := Word(b);
    kmer, rev := kmer0, rev0;
    var j := 0;
    FedStart(w, j, rev0, kmer0);
    while j < LongLen
      invariant 0 <= j <= LongLen && Fed(w, j, rev0, kmer, rev)
    {
      var c := SlotCode(b, j);
      FedStep(w, j, rev0, kmer, rev);
      kmer := MaskedFwd(kmer, c);
      rev := MaskedRev(rev, c);
      j := j + 1;
    }
    FedAll(w, rev0, kmer, rev);
  }

  /** A line of the probe table: id, name, 1-based start and end, Tm, the
      two strings and the validity count. */
  datatype Line = Line(id: int, name: string, start: int, end: int, tm: real,
                       kmer: string, reverseKmer: string, count: int)

  /** The line `writeSegments` prints for a probe. */
  function LineOf(s: Segment): Line
  {
    Line(s.id, s.name, s.start + 1, s.end + 1, s.tm,
         Kmers.Letters(Word(s.bases)), Kmers.Letters(Kmers.RevComp(Word(s.bases))), s.vaild)
  }

  /** A printed line: the coordinates one higher, two 20-letter strings of
      which the second is the reverse complement of the first, and the
      other fields as they are. */
  lemma LineMeans(s: Segment, i: nat)
    requires i < LongLen
    ensures var l := LineOf(s);
      l.start == s.start + 1 && l.end == s.end + 1 && l.end - l.start == s.end - s.start &&
      |l.kmer| == LongLen && |l.reverseKmer| == LongLen &&
      l.reverseKmer[i] == ComplementLetter(l.kmer[LongLen - 1 - i]) &&
      (i < |s.bases| && s.bases[i] <= 3 ==> l.kmer[i] == Kmers.Int2Base[s.bases[i] as int]) &&
      l.id == s.id && l.name == s.name && l.tm == s.tm && l.count == s.vaild
  {
    LettersRevComp(Word(s.bases), i);
  }

  /** The rows of `writeSegments`, in order, with the header line left out. */
  method WriteSegments(segs: seq<Segment>) returns (lines: seq<Line>)
    ensures |lines| == |segs| && forall k :: 0 <= k < |segs| ==> lines[k] == LineOf(segs[k])
  {
    var kmer: nat, rev: nat := 0, 0;
    lines := [];
    var i := 0;
    while i < |segs|
      invariant 0 <= i <= |segs| && |lines| == i && kmer < LongSpace && rev < LongSpace
      invariant forall k :: 0 <= k < i ==> lines[k] == LineOf(segs[k])
    {
      var s := segs[i];
      kmer, rev := PackSlotsMasked(s.bases, kmer, rev);
      var buff1 := Kmers.KmerString(kmer, LongLen);
      var buff2 := Kmers.KmerString(rev, LongLen);
      Kmers.KmerStringOfPack(Word(s.bases));
      Kmers.KmerStringOfPack(Kmers.RevComp(Word(s.bases)));
      lines := lines + [Line(s.id, s.name, s.start + 1, s.end + 1, s.tm, buff1, buff2, s.vaild)];
      i := i + 1;
    }
  }
}
