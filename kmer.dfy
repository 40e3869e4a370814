/** Base encoding and the rolling 2-bit k-mer codes of main.c.  A base is a
    code 0..3 (A, C, G, T) or 4 (N); a k-mer is the big-endian base-4 number
    of its codes.  The forward code is updated by `(kmer << 2) | c` in a
    `uint32_t`, the reverse-complement code by `(rev >> 2) | ((3 - c) << 30)`;
    both are written out here over naturals with the `uint32_t` wrap-around
    made explicit, and `|` is `Alloc.BitOr`. */
module Kmers {

  import Alloc

  /** `KMER_LEN`. */
  const KmerLen: nat := 16
  /** `KMER_LONG_LEN`, the probe length. */
  const KmerLongLen: nat := 20
  /** `KMER_MASK + 1`: the number of 16-mer codes, and the modulus of `uint32_t`. */
  const KmerSpace: nat := 0x1_0000_0000
  /** `1 << 30`, where the reverse code takes in its newest base. */
  const TopShift: nat := 0x4000_0000

  predicate IsAscii(s: string)
  {
    forall i :: 0 <= i < |s| ==> s[i] as int < 128
  }

  /** `basemap[ch]` after `create_base2int`: `basemap` starts as `{ 4 }`, so only
      entry 0 is 4 and every character that is not one of ACGTNacgtn reads 0. */
  function BaseCode(ch: char): (r: nat)
    requires ch as int < 128
    ensures r <= 4
    ensures r == 4 <==> ch == 'N' || ch == 'n' || ch == 0 as char
  {
    match ch
    case 'A' => 0
    case 'a' => 0
    case 'C' => 1
    case 'c' => 1
    case 'G' => 2
    case 'g' => 2
    case 'T' => 3
    case 't' => 3
    case 'N' => 4
    case 'n' => 4
    case _ => if ch == 0 as char then 4 else 0
  }

  /** `int2base`. */
  const Int2Base: string := "ACGTN"

  /** A base code other than N. */
  type Code = c: nat | c < 4

  /** The codes of a run of bases none of which is N. */
  function Codes(s: string): (w: seq<nat>)
    requires IsAscii(s)
    ensures |w| == |s|
  {
    seq(|s|, i requires 0 <= i < |s| => BaseCode(s[i]))
  }

  /** No N among `s[a..b)`. */
  predicate Clean(s: string, a: nat, b: nat)
    requires IsAscii(s) && a <= b <= |s|
  {
    forall i :: a <= i < b ==> BaseCode(s[i]) != 4
  }

  function Pow4(k: nat): (r: nat)
    ensures r >= 1
  {
    if k == 0 then 1 else 4 * Pow4(k - 1)
  }

  /** The big-endian base-4 number of the codes `w`. */
  function Pack(w: seq<Code>): nat
  {
    if w == [] then 0 else 4 * Pack(w[..|w| - 1]) + w[|w| - 1]
  }

  function Complement(c: Code): Code
  {
    3 - c
  }

  /** The codes of the reverse-complement strand. */
  function RevComp(w: seq<Code>): (r: seq<Code>)
    ensures |r| == |w|
  {
    if w == [] then [] else [Complement(w[|w| - 1])] + RevComp(w[..|w| - 1])
  }

  /** Position `i` of the reverse complement is the complement of position
      `|w| - 1 - i`. */
  lemma {:induction false} RevCompAt(w: seq<Code>, i: nat)
    requires i < |w|
    ensures RevComp(w)[i] == 3 - w[|w| - 1 - i]
  {
    if i > 0 {
      RevCompAt(w[..|w| - 1], i - 1);
    }
  }

  /** The `k` base-4 digits of `x`, most significant first. */
  function Digits(x: nat, k: nat): (w: seq<Code>)
    ensures |w| == k
  {
    if k == 0 then [] else Digits(x / 4, k - 1) + [x % 4]
  }

  /** `x >> 2n`. */
  function Quarter(x: nat, n: nat): nat
  {
    if n == 0 then x else Quarter(x, n - 1) / 4
  }

  // ---------------------------------------------------------------------
  // Packing

  lemma {:induction false} Pow4Add(a: nat, b: nat)
    ensures Pow4(a + b) == Pow4(a) * Pow4(b)
  {
    if b > 0 {
      Pow4Add(a, b - 1);
      assert Pow4(a + b) == 4 * Pow4(a + b - 1);
      assert Pow4(a) * Pow4(b) == 4 * (Pow4(a) * Pow4(b - 1));
    }
  }

  /** `4^16` is the k-mer space. */
  lemma Pow4At16()
    ensures Pow4(KmerLen) == KmerSpace && Pow4(15) * 4 == KmerSpace && Pow4(15) == TopShift
  {
    assert Pow4(4) == 256;
    Pow4Add(4, 4);
    Pow4Add(8, 7);
    Pow4Add(8, 8);
  }

  lemma {:induction false} PackBelow(w: seq<Code>)
    ensures Pack(w) < Pow4(|w|)
  {
    if w != [] {
      PackBelow(w[..|w| - 1]);
    }
  }

  /** Reading back the digits of a packed word gives the word. */
  lemma {:induction false} DigitsOfPack(w: seq<Code>)
    ensures Digits(Pack(w), |w|) == w
  {
    if w != [] {
      var w' := w[..|w| - 1];
      DigitsOfPack(w');
      Alloc.DivUnique(Pack(w), 4, Pack(w'), w[|w| - 1]);
    }
  }

  /** Packing the digits of `x` keeps `x` modulo `4^k`. */
  lemma {:induction false} PackOfDigits(x: nat, k: nat)
    ensures Pack(Digits(x, k)) == x % Pow4(k)
  {
    if k > 0 {
      PackOfDigits(x / 4, k - 1);
      var d := Digits(x, k);
      assert d[..k - 1] == Digits(x / 4, k - 1);
      assert Pack(d) == 4 * ((x / 4) % Pow4(k - 1)) + x % 4;
      ModNest(x, Pow4(k - 1));
    }
  }

  /** The remainder by `4p` from the remainder of `x / 4` by `p`. */
  lemma ModNest(x: nat, p: nat)
    requires p >= 1
    ensures x % (4 * p) == 4 * ((x / 4) % p) + x % 4
  {
    var q, r, s := (x / 4) / p, (x / 4) % p, x % 4;
    assert x / 4 == q * p + r;
    assert x == 4 * (x / 4) + s;
    assert x == q * (4 * p) + (4 * r + s);
    Alloc.MulLe(r, p - 1, 4);
    Alloc.DivUnique(x, 4 * p, q, 4 * r + s);
  }

  // ---------------------------------------------------------------------
  // The rolling codes

  /** `kmer = (kmer << 2) | (c & 0x3)` on a `uint32_t`. */
  function FwdStep(f: nat, c: Code): nat
  {
    Alloc.BitOr((4 * f) % KmerSpace, c)
  }

  /** `reverse_kmer = (reverse_kmer >> 2) | ((3 - c) << 30)` on a `uint32_t`. */
  function RevStep(r: nat, c: Code): nat
  {
    Alloc.BitOr(r / 4, ((3 - c) * TopShift) % KmerSpace)
  }

  /** The forward code after feeding the codes `w` to `FwdStep`, starting from `f0`. */
  function FwdAfter(f0: nat, w: seq<Code>): nat
  {
    if w == [] then f0 else FwdStep(FwdAfter(f0, w[..|w| - 1]), w[|w| - 1])
  }

  /** The reverse code after feeding the codes `w` to `RevStep`, starting from `r0`. */
  function RevAfter(r0: nat, w: seq<Code>): nat
  {
    if w == [] then r0 else RevStep(RevAfter(r0, w[..|w| - 1]), w[|w| - 1])
  }

  /** The shift-or of the forward step adds the new code into the freed low bits. */
  lemma FwdStepValue(f: nat, c: Code)
    ensures FwdStep(f, c) == (4 * f) % KmerSpace + c
  {
    var h := f % TopShift;
    assert 4 * f == 4 * (f / TopShift) * TopShift + 4 * h;
    Alloc.DivUnique(4 * f, KmerSpace, f / TopShift, 4 * h);
    assert Alloc.Pow2(2) == 4;
    Alloc.BitOrHigh(h, 0, c, 2);
    Alloc.BitOrCommutes(0, c);
    Alloc.BitOrZero(c);
  }

  /** The shift-or of the reverse step puts the new complement above the
      shifted-down old code, which stays below bit 30. */
  lemma RevStepValue(r: nat, c: Code)
    requires r < KmerSpace
    ensures RevStep(r, c) == r / 4 + (3 - c) * TopShift
    ensures RevStep(r, c) < KmerSpace
  {
    Pow2At30();
    Alloc.ModSmall((3 - c) * TopShift, KmerSpace);
    Alloc.BitOrHigh(3 - c, 0, r / 4, 30);
    Alloc.BitOrCommutes(0, r / 4);
    Alloc.BitOrZero(r / 4);
    Alloc.BitOrCommutes(r / 4, (3 - c) * TopShift);
  }

  lemma Pow2At30()
    ensures Alloc.Pow2(30) == TopShift
  {
    assert Alloc.Pow2(10) == 1024;
    Alloc.Pow2Add(10, 10);
    Alloc.Pow2Add(20, 10);
  }

  /** Feeding `u` and then `v` is feeding `u + v`. */
  lemma {:induction false} FwdAfterConcat(f0: nat, u: seq<Code>, v: seq<Code>)
    ensures FwdAfter(f0, u + v) == FwdAfter(FwdAfter(f0, u), v)
    decreases |v|
  {
    if v == [] {
      assert u + v == u;
    } else {
      assert (u + v)[..|u + v| - 1] == u + v[..|v| - 1];
      FwdAfterConcat(f0, u, v[..|v| - 1]);
    }
  }

  lemma {:induction false} RevAfterConcat(r0: nat, u: seq<Code>, v: seq<Code>)
    ensures RevAfter(r0, u + v) == RevAfter(RevAfter(r0, u), v)
    decreases |v|
  {
    if v == [] {
      assert u + v == u;
    } else {
      assert (u + v)[..|u + v| - 1] == u + v[..|v| - 1];
      RevAfterConcat(r0, u, v[..|v| - 1]);
    }
  }

  lemma ModShift(y: nat, c: nat)
    requires c < 4
    ensures (4 * (y % KmerSpace)) % KmerSpace + c == (4 * y + c) % KmerSpace
  {
    var q, r := y / KmerSpace, y % KmerSpace;
    var q2, r2 := (4 * r) / KmerSpace, (4 * r) % KmerSpace;
    assert r2 % 4 == 0 by {
      assert 4 * r == q2 * KmerSpace + r2;
    }
    assert 4 * y + c == (4 * q + q2) * KmerSpace + (r2 + c);
    Alloc.DivUnique(4 * y + c, KmerSpace, 4 * q + q2, r2 + c);
  }

  /** The forward code is the packing of everything fed, shifted over the
      start value, modulo `2^32`. */
  lemma {:induction false} FwdAfterValue(f0: nat, w: seq<Code>)
    requires f0 < KmerSpace
    ensures FwdAfter(f0, w) == (f0 * Pow4(|w|) + Pack(w)) % KmerSpace
  {
    if w == [] {
      Alloc.ModSmall(f0, KmerSpace);
    } else {
      var w' := w[..|w| - 1];
      var c := w[|w| - 1];
      var y := f0 * Pow4(|w'|) + Pack(w');
      assert y >= 0 by {
        Alloc.MulLe(0, f0, Pow4(|w'|));
      }
      var F := FwdAfter(f0, w');
      FwdAfterValue(f0, w');
      FwdStepValue(F, c);
      ModShift(y, c);
      assert f0 * Pow4(|w|) + Pack(w) == 4 * y + c by {
        FeedOne(f0, Pow4(|w'|), Pack(w'), c);
      }
    }
  }

  lemma FeedOne(f0: nat, p: nat, q: nat, c: nat)
    ensures 4 * (f0 * p + q) + c == f0 * (4 * p) + (4 * q + c)
  {
  }

  /** Once 16 codes have been fed, the forward code is the packing of the
      last 16, whatever the start value. */
  lemma FwdWindow(f0: nat, w: seq<Code>)
    requires |w| >= KmerLen && f0 < KmerSpace
    ensures FwdAfter(f0, w) == Pack(w[|w| - KmerLen..])
  {
    var u, v := w[..|w| - KmerLen], w[|w| - KmerLen..];
    assert w == u + v;
    FwdAfterConcat(f0, u, v);
    var f1 := FwdAfter(f0, u);
    FwdAfterValue(f0, u);
    FwdAfterValue(f1, v);
    FullShift(f1, v);
  }

  /** A whole k-mer's worth of shifting pushes the start value out of the word. */
  lemma FullShift(f1: nat, v: seq<Code>)
    requires |v| == KmerLen
    ensures (f1 * Pow4(|v|) + Pack(v)) % KmerSpace == Pack(v)
  {
    Pow4At16();
    PackBelow(v);
    Alloc.ModBelow(Pack(v), KmerSpace, f1);
  }

  lemma {:induction false} RevAfterBelow(r0: nat, w: seq<Code>)
    requires r0 < KmerSpace
    ensures RevAfter(r0, w) < KmerSpace
  {
    if w != [] {
      RevAfterBelow(r0, w[..|w| - 1]);
      RevStepValue(RevAfter(r0, w[..|w| - 1]), w[|w| - 1]);
    }
  }

  /** Up to 16 codes in, the reverse code holds the packed reverse complement
      of what was fed in its top digits, over what is left of the start value. */
  lemma {:induction false} RevAfterValue(r0: nat, w: seq<Code>)
    requires |w| <= KmerLen && r0 < KmerSpace
    ensures RevAfter(r0, w) == Quarter(r0, |w|) + Pack(RevComp(w)) * Pow4(KmerLen - |w|)
  {
    if w != [] {
      var m := |w| - 1;
      var w' := w[..m];
      var R := RevAfter(r0, w');
      RevAfterValue(r0, w');
      RevAfterBelow(r0, w');
      PackRevCompLast(w);
      DigitPowers(m, |w|);
      RevStepValue(R, w[m]);
      RevStepArith(RevAfter(r0, w), R, Quarter(r0, m), Quarter(r0, |w|), Pack(RevComp(w')),
        Pow4(KmerLen - m), Pow4(KmerLen - |w|), 3 - w[m], Pow4(m), TopShift, Pack(RevComp(w)));
    }
  }

  /** `2^30 == 4^15` split at digit `m`, and the power above digit `n = m + 1`. */
  lemma DigitPowers(m: nat, n: nat)
    requires n == m + 1 <= KmerLen
    ensures TopShift == Pow4(m) * Pow4(KmerLen - n)
    ensures Pow4(KmerLen - m) == 4 * Pow4(KmerLen - n)
  {
    Pow4At16();
    Pow4Add(m, 15 - m);
  }

  /** The complement of the newest code is the leading digit of the reverse complement. */
  lemma PackRevCompLast(w: seq<Code>)
    requires w != []
    ensures Pack(RevComp(w)) == (3 - w[|w| - 1]) * Pow4(|w| - 1) + Pack(RevComp(w[..|w| - 1]))
  {
    var d, v := 3 - w[|w| - 1], RevComp(w[..|w| - 1]);
    assert RevComp(w) == [d] + v;
    PackPrepend(d, v);
  }

  /** A code put in front is the top digit. */
  lemma {:induction false} PackPrepend(d: Code, v: seq<Code>)
    ensures Pack([d] + v) == d * Pow4(|v|) + Pack(v)
  {
    if v != [] {
      var v' := v[..|v| - 1];
      assert ([d] + v)[..|v|] == [d] + v';
      PackPrepend(d, v');
      assert Pack([d] + v) == 4 * Pack([d] + v') + v[|v| - 1];
      assert 4 * (d * Pow4(|v'|)) == d * Pow4(|v|);
    }
  }

  /** One reverse step on the value of `RevAfterValue`. */
  lemma RevStepArith(X: nat, R: nat, a: int, b: int, P: nat, E: nat, e: nat, d: nat, p: nat, T: nat, Q: nat)
    requires X == R / 4 + d * T && R == a + P * E && E == 4 * e && b == a / 4
    requires T == p * e && Q == d * p + P
    ensures X == b + Q * e
  {
    assert R == (a / 4 + P * e) * 4 + a % 4;
    Alloc.DivUnique(R, 4, a / 4 + P * e, a % 4);
  }

  /** Once 16 codes have been fed, the reverse code is the packing of the
      reverse complement of the last 16, whatever the start value. */
  lemma RevWindow(r0: nat, w: seq<Code>)
    requires |w| >= KmerLen && r0 < KmerSpace
    ensures RevAfter(r0, w) == Pack(RevComp(w[|w| - KmerLen..]))
  {
    var u, v := w[..|w| - KmerLen], w[|w| - KmerLen..];
    assert w == u + v;
    RevAfterConcat(r0, u, v);
    var r1 := RevAfter(r0, u);
    RevAfterBelow(r0, u);
    RevAfterValue(r1, v);
    QuarterOut(r1);
    assert Pow4(KmerLen - |v|) == 1;
    OnlyTerm(RevAfter(r1, v), Quarter(r1, KmerLen), Pack(RevComp(v)), Pow4(KmerLen - |v|));
  }

  lemma OnlyTerm(x: int, q: int, p: int, e: int)
    requires x == q + p * e && q == 0 && e == 1
    ensures x == p
  {
  }

  /** A whole k-mer's worth of shifting leaves nothing of a 32-bit start value. */
  lemma QuarterOut(x: nat)
    requires x < KmerSpace
    ensures Quarter(x, KmerLen) == 0
  {
    Pow4At16();
    QuarterBelow(x, KmerLen, KmerLen);
  }

  /** Shifting out `2k` bits of a value below `4^j` leaves a value below `4^(j - k)`. */
  lemma {:induction false} QuarterBelow(x: nat, k: nat, j: nat)
    requires x < Pow4(j) && k <= j
    ensures Quarter(x, k) < Pow4(j - k)
  {
    if k > 0 {
      QuarterBelow(x, k - 1, j);
      assert Pow4(j - k + 1) == 4 * Pow4(j - k);
    }
  }

  // ---------------------------------------------------------------------
  // Back to letters

  /** The letters of codes 0..4. */
  function Letters(w: seq<Code>): (s: string)
    ensures |s| == |w|
  {
    seq(|w|, i requires 0 <= i < |w| => Int2Base[w[i]])
  }

  /** `int2KmerString(kmer, k, buff)`: the `k` letters of the low `2k` bits of
      `kmer`, most significant digit first.  The trailing NUL is left out. */
  method KmerString(kmer: nat, k: nat) returns (s: string)
    ensures s == Letters(Digits(kmer, k))
  {
    var buff := new char[k];
    var x := kmer;
    var i := 0;
    ghost var done: string := [];
    while i < k
      invariant 0 <= i <= k
      invariant x == Quarter(kmer, i)
      invariant done == Letters(Digits(kmer, i))
      invariant buff[k - i..] == done
    {
      var ch := Int2Base[x % 4];
      buff[k - 1 - i] := ch;
      assert buff[k - (i + 1)..] == [ch] + done;
      DigitsStep(kmer, i);
      done := [ch] + done;
      x := x / 4;
      i := i + 1;
    }
    assert buff[..] == buff[k - i..];
    s := buff[..];
  }

  /** One more digit goes in front. */
  lemma DigitsStep(x: nat, i: nat)
    ensures Letters(Digits(x, i + 1)) == [Int2Base[Quarter(x, i) % 4]] + Letters(Digits(x, i))
  {
    var a := Digits(x, i + 1);
    var b := [Quarter(x, i) % 4] + Digits(x, i);
    DigitsFront(x, i);
    assert a == b;
  }

  /** `Digits(x, i + 1)` is digit `i` followed by `Digits(x, i)`. */
  lemma {:induction false} DigitsFront(x: nat, i: nat)
    ensures Digits(x, i + 1) == [Quarter(x, i) % 4] + Digits(x, i)
  {
    if i > 0 {
      DigitsFront(x / 4, i - 1);
      QuarterShift(x, i - 1);
    }
  }

  /** Shifting once more: `(x >> 2) >> 2n == x >> 2(n + 1)`. */
  lemma {:induction false} QuarterShift(x: nat, n: nat)
    ensures Quarter(x / 4, n) == Quarter(x, n + 1)
  {
    if n > 0 {
      QuarterShift(x, n - 1);
    }
  }

  /** The string of a packed word spells the word's bases. */
  lemma KmerStringOfPack(w: seq<Code>)
    ensures Letters(Digits(Pack(w), |w|)) == Letters(w)
  {
    DigitsOfPack(w);
  }

  // ---------------------------------------------------------------------
  // Windows of a sequence

  /** How far the k-mer loops of `createIndex` and `createQuery` read.  As
      written they stop at `len - KMER_LEN + 1` although the loop index is the
      LAST base of the window, so the final 15 windows are never seen; the
      corrected loop reads every base. */
  datatype Scan = AsWritten | Corrected

  /** The number of bases the loop feeds: `i < ScanLimit(scan, len)`. */
  function ScanLimit(scan: Scan, len: nat): nat
    requires scan.AsWritten? ==> len >= KmerLen - 1
  {
    match scan
    case AsWritten => len - KmerLen + 1
    case Corrected => len
  }

  /** The codes of the clean run `s[a..b)`. */
  function RunCodes(s: string, a: nat, b: nat): (w: seq<Code>)
    requires IsAscii(s) && a <= b <= |s| && Clean(s, a, b)
    ensures |w| == b - a
  {
    seq(b - a, k requires 0 <= k < b - a => BaseCode(s[a + k]) as Code)
  }

  /** A 16-base window starting at `a` with no N in it. */
  predicate IsWindow(s: string, a: nat)
    requires IsAscii(s)
  {
    a + KmerLen <= |s| && Clean(s, a, a + KmerLen)
  }

  /** The forward code of the window at `a`. */
  function FwdCode(s: string, a: nat): nat
    requires IsAscii(s) && IsWindow(s, a)
  {
    Pack(RunCodes(s, a, a + KmerLen))
  }

  /** The reverse-complement code of the window at `a`. */
  function RevCode(s: string, a: nat): nat
    requires IsAscii(s) && IsWindow(s, a)
  {
    Pack(RevComp(RunCodes(s, a, a + KmerLen)))
  }

  /** Both codes of a window are 16-mer codes. */
  lemma CodesBelow(s: string, a: nat)
    requires IsAscii(s) && IsWindow(s, a)
    ensures FwdCode(s, a) < KmerSpace && RevCode(s, a) < KmerSpace
  {
    Pow4At16();
    PackBelow(RunCodes(s, a, a + KmerLen));
    PackBelow(RevComp(RunCodes(s, a, a + KmerLen)));
  }

  /** Feeding one more code is one more rolling step. */
  lemma RollStep(f0: nat, r0: nat, w: seq<Code>, c: Code)
    ensures FwdAfter(f0, w + [c]) == FwdStep(FwdAfter(f0, w), c)
    ensures RevAfter(r0, w + [c]) == RevStep(RevAfter(r0, w), c)
  {
    assert (w + [c])[..|w|] == w;
  }

  /** A clean run extended by base `i` has one more code, that of `s[i]`. */
  lemma RunCodesSnoc(s: string, a: nat, i: nat)
    requires IsAscii(s) && a <= i < |s| && Clean(s, a, i + 1)
    ensures Clean(s, a, i)
    ensures RunCodes(s, a, i + 1) == RunCodes(s, a, i) + [BaseCode(s[i])]
  {
  }

  /** After at least 16 clean bases the rolling codes are those of the last window. */
  lemma RollWindow(f0: nat, r0: nat, s: string, a: nat, i: nat)
    requires IsAscii(s) && a + KmerLen <= i <= |s| && Clean(s, a, i)
    requires f0 < KmerSpace && r0 < KmerSpace
    ensures IsWindow(s, i - KmerLen)
    ensures FwdAfter(f0, RunCodes(s, a, i)) == FwdCode(s, i - KmerLen)
    ensures RevAfter(r0, RunCodes(s, a, i)) == RevCode(s, i - KmerLen)
  {
    var w := RunCodes(s, a, i);
    assert w[|w| - KmerLen..] == RunCodes(s, i - KmerLen, i);
    FwdWindow(f0, w);
    RevWindow(r0, w);
  }
}
