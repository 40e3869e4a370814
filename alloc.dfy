/** The `roundup` macro of alloc.h: round a 64-bit unsigned value up to the
    next power of two by smearing the highest set bit of `x - 1` into every
    lower position and adding one.  The value is a `uint64_t`, so the model
    works on naturals below 2^64 and writes the wrap-around of `--` and `++`
    out with `% U64`; `|` on such values is `BitOr`. */
module Alloc {

  const U64: nat := 0x1_0000_0000_0000_0000

  function Pow2(n: nat): (r: nat)
    ensures r >= 1
  {
    if n == 0 then 1 else 2 * Pow2(n - 1)
  }

  /** `a >> k` on unsigned values. */
  function Shr(a: nat, k: nat): nat
  {
    var p := Pow2(k);
    DivNonneg(a, p);
    a / p
  }

  lemma DivNonneg(a: nat, p: nat)
    requires p >= 1
    ensures a / p >= 0
  {
  }

  /** Bit-wise or of two naturals, one bit at a time from the low end. */
  function BitOr(a: nat, b: nat): nat
    decreases a + b
  {
    if a == 0 && b == 0 then 0
    else 2 * BitOr(a / 2, b / 2) + (if a % 2 == 1 || b % 2 == 1 then 1 else 0)
  }

  /** `x | x >> k`, one line of the smearing chain. */
  function SmearStep(x: nat, k: nat): nat
  {
    BitOr(x, Shr(x, k))
  }

  /** The six `__x |= __x >> k` lines of the macro. */
  function Smeared(y: nat): nat
  {
    var y1 := SmearStep(y, 1);
    var y2 := SmearStep(y1, 2);
    var y3 := SmearStep(y2, 4);
    var y4 := SmearStep(y3, 8);
    var y5 := SmearStep(y4, 16);
    SmearStep(y5, 32)
  }

  /** The `roundup` macro: decrement, smear, increment, all modulo 2^64. */
  function RoundUp(x: nat): nat
    requires x < U64
  {
    (Smeared((x + U64 - 1) % U64) + 1) % U64
  }

  predicate IsPowerOfTwo(x: nat)
  {
    x == 1 || (x >= 2 && x % 2 == 0 && IsPowerOfTwo(x / 2))
  }

  /** Number of significant bits of `y`. */
  function BitLen(y: nat): nat
  {
    if y == 0 then 0 else 1 + BitLen(y / 2)
  }

  // ---------------------------------------------------------------------
  // Arithmetic on powers of two

  lemma {:induction false} Pow2Add(a: nat, b: nat)
    ensures Pow2(a + b) == Pow2(a) * Pow2(b)
  {
    if a > 0 {
      Pow2Add(a - 1, b);
      assert Pow2(a + b) == 2 * Pow2(a - 1 + b);
    }
  }

  lemma Pow2Split(u: nat, t: nat)
    requires t <= u
    ensures Pow2(u) == Pow2(t) * Pow2(u - t)
  {
    Pow2Add(t, u - t);
  }

  lemma Pow2Monotone(a: nat, b: nat)
    requires a <= b
    ensures Pow2(a) <= Pow2(b)
  {
    Pow2Add(a, b - a);
  }

  lemma Pow2Is64()
    ensures Pow2(63) == 0x8000_0000_0000_0000
    ensures Pow2(64) == U64
  {
    assert Pow2(8) == 256;
    Pow2Square(8, 16);
    Pow2Square(16, 32);
    Pow2Square(32, 64);
    assert Pow2(64) == 2 * Pow2(63);
  }

  lemma Pow2Square(n: nat, m: nat)
    requires m == 2 * n
    ensures Pow2(m) == Pow2(n) * Pow2(n)
  {
    Pow2Add(n, n);
  }

  lemma {:induction false} Pow2IsPowerOfTwo(k: nat)
    ensures IsPowerOfTwo(Pow2(k))
  {
    if k > 0 {
      Pow2IsPowerOfTwo(k - 1);
      assert Pow2(k) / 2 == Pow2(k - 1);
    }
  }

  lemma MulLe(a: int, b: int, m: nat)
    requires a <= b
    ensures a * m <= b * m
  {
  }

  lemma DivUnique(x: nat, m: nat, b: nat, r: nat)
    requires 0 <= r < m && x == b * m + r
    ensures x / m == b && x % m == r
  {
    var q := x / m;
    assert x == q * m + x % m;
    if q > b {
      MulLe(b + 1, q, m);
      assert false;
    } else if q < b {
      MulLe(q + 1, b, m);
      assert false;
    }
  }

  lemma SplitAt(x: nat, m: nat, q: nat)
    requires m > 0 && x / m == q
    ensures x == q * m + x % m
  {
  }

  lemma DivAtMost(x: nat, m: nat)
    requires m >= 1
    ensures x / m <= x
  {
    assert x == (x / m) * m + x % m;
    MulLe(1, m, x / m);
  }

  lemma DivMul(x: nat, p: nat, q: nat)
    requires p > 0 && q > 0
    ensures x / p / q == x / (p * q)
  {
    var a := x / p;
    var b, c := a / q, a % q;
    SplitAt(x, p, a);
    SplitAt(a, q, b);
    ScaleSplit(a, b, q, c, p);
    MixedBelow(c, q, p, x % p);
    DivUnique(x, p * q, b, c * p + x % p);
  }

  lemma ScaleSplit(a: int, b: int, q: int, c: int, p: int)
    requires a == b * q + c
    ensures a * p == b * (p * q) + c * p
  {
  }

  lemma Regroup(x: int, q: int, a: int, b: int, ab: int, r: int, s: int, t: int)
    requires ab == a * b && x == q * ab + r && r == s * a + t
    ensures x == (q * b + s) * a + t
  {
  }

  lemma MixedBelow(c: nat, q: nat, p: nat, e: nat)
    requires c < q && e < p
    ensures c * p + e < p * q
  {
    MulLe(c, q - 1, p);
  }

  lemma ShrShr(x: nat, a: nat, b: nat)
    ensures Shr(Shr(x, a), b) == Shr(x, a + b)
  {
    Pow2Add(a, b);
    DivMul(x, Pow2(a), Pow2(b));
  }

  /** `2^t - 1` shifted right by `k` is `2^(t-k) - 1`. */
  lemma OnesShr(t: nat, k: nat)
    requires k <= t
    ensures Shr(Pow2(t) - 1, k) == Pow2(t - k) - 1
  {
    Pow2Add(t - k, k);
    var p := Pow2(k);
    var q := Pow2(t - k);
    assert Pow2(t) == q * p;
    OnesJoin(q, p, Pow2(t));
    DivUnique(Pow2(t) - 1, p, q - 1, p - 1);
  }

  lemma {:induction false} BitLenBounds(y: nat)
    requires y > 0
    ensures Pow2(BitLen(y) - 1) <= y < Pow2(BitLen(y))
  {
    if y > 1 {
      BitLenBounds(y / 2);
    }
  }

  lemma {:induction false} BitLenAtMost(y: nat, m: nat)
    requires y < Pow2(m)
    ensures BitLen(y) <= m
  {
    if y > 0 {
      BitLenAtMost(y / 2, m - 1);
    }
  }

  // ---------------------------------------------------------------------
  // Bit-wise or

  lemma BitOrUnfold(a: nat, b: nat)
    ensures BitOr(a, b) == 2 * BitOr(a / 2, b / 2) + (if a % 2 == 1 || b % 2 == 1 then 1 else 0)
  {
  }

  lemma {:induction false} BitOrZero(a: nat)
    ensures BitOr(a, 0) == a
  {
    if a > 0 {
      BitOrZero(a / 2);
    }
  }

  lemma {:induction false} BitOrCommutes(a: nat, b: nat)
    ensures BitOr(a, b) == BitOr(b, a)
    decreases a + b
  {
    if a != 0 || b != 0 {
      BitOrCommutes(a / 2, b / 2);
    }
  }

  lemma {:induction false} BitOrBelow(a: nat, b: nat, n: nat)
    requires a < Pow2(n) && b < Pow2(n)
    ensures BitOr(a, b) < Pow2(n)
  {
    if n > 0 {
      BitOrBelow(a / 2, b / 2, n - 1);
    } else {
      assert a == 0 && b == 0;
    }
  }

  /** Or-ing with `2^t - 1` sets every one of the low `t` bits. */
  lemma {:induction false} BitOrOnes(lo: nat, t: nat)
    requires lo < Pow2(t)
    ensures BitOr(lo, Pow2(t) - 1) == Pow2(t) - 1
  {
    if t > 0 {
      BitOrOnes(lo / 2, t - 1);
      BitOrUnfold(lo, Pow2(t) - 1);
    }
  }

  /** Bits at and above position `t` pass through an or with a `t`-bit value. */
  lemma {:induction false} BitOrHigh(hi: nat, lo: nat, b: nat, t: nat)
    requires lo < Pow2(t) && b < Pow2(t)
    ensures BitOr(hi * Pow2(t) + lo, b) == hi * Pow2(t) + BitOr(lo, b)
  {
    if t == 0 {
      assert lo == 0 && b == 0;
      BitOrZero(hi);
    } else {
      var a := hi * Pow2(t) + lo;
      var h := hi * Pow2(t - 1);
      assert hi * Pow2(t) == 2 * h;
      DivUnique(a, 2, h + lo / 2, lo % 2);
      BitOrHigh(hi, lo / 2, b / 2, t - 1);
      BitOrUnfold(a, b);
      BitOrUnfold(lo, b);
    }
  }

  lemma Shr1(x: nat)
    ensures Shr(x, 1) == x / 2
  {
    assert Pow2(1) == 2;
  }

  /** Halving an or halves both sides. */
  lemma BitOrHalf(a: nat, b: nat)
    ensures BitOr(a, b) / 2 == BitOr(a / 2, b / 2)
  {
    BitOrUnfold(a, b);
    DivUnique(BitOr(a, b), 2, BitOr(a / 2, b / 2), if a % 2 == 1 || b % 2 == 1 then 1 else 0);
  }

  lemma {:induction false} BitOrShr(a: nat, b: nat, k: nat)
    ensures Shr(BitOr(a, b), k) == BitOr(Shr(a, k), Shr(b, k))
  {
    if k > 0 {
      var a1, b1 := Shr(a, k - 1), Shr(b, k - 1);
      calc {
        Shr(BitOr(a, b), k);
        { ShrShr(BitOr(a, b), k - 1, 1); }
        Shr(Shr(BitOr(a, b), k - 1), 1);
        { BitOrShr(a, b, k - 1); }
        Shr(BitOr(a1, b1), 1);
        { Shr1(BitOr(a1, b1)); BitOrHalf(a1, b1); }
        BitOr(a1 / 2, b1 / 2);
        { Shr1(a1); Shr1(b1); ShrShr(a, k - 1, 1); ShrShr(b, k - 1, 1); }
        BitOr(Shr(a, k), Shr(b, k));
      }
    } else {
      assert Pow2(0) == 1;
    }
  }

  // ---------------------------------------------------------------------
  // The smearing chain

  /** `s` is an `n`-bit value whose top `t` bits are all set. */
  ghost predicate TopFilled(s: nat, n: nat, t: nat)
  {
    1 <= t <= n && s < Pow2(n) && Shr(s, n - t) == Pow2(t) - 1
  }

  lemma FilledAll(s: nat, n: nat)
    requires TopFilled(s, n, n)
    ensures s == Pow2(n) - 1
  {
  }

  lemma SmearStepBelow(s: nat, n: nat, d: nat)
    requires s < Pow2(n)
    ensures Shr(s, d) <= s && SmearStep(s, d) < Pow2(n)
  {
    DivAtMost(s, Pow2(d));
    BitOrBelow(s, Shr(s, d), n);
  }

  /** Once all `n` bits are set, further smearing changes nothing. */
  lemma SmearStepFull(s: nat, n: nat, d: nat)
    requires TopFilled(s, n, n)
    ensures TopFilled(SmearStep(s, d), n, n)
  {
    assert Pow2(0) == 1;
    assert s == Pow2(n) - 1;
    SmearStepBelow(s, n, d);
    BitOrCommutes(s, Shr(s, d));
    BitOrOnes(Shr(s, d), n);
  }

  /** With its top `t < n` bits set, `s >> t` read at width `u` is `2^(u-t) - 1`. */
  lemma ShiftedTop(s: nat, n: nat, t: nat, u: nat)
    requires TopFilled(s, n, t) && t < n && t <= u <= 2 * t && u <= n
    ensures Shr(Shr(s, t), n - u) == Pow2(u - t) - 1
  {
    ShrShr(s, t, n - u);
    ShrShr(s, n - t, 2 * t - u);
    OnesShr(t, 2 * t - u);
  }

  /** A value whose bits above `w` read `hi`, or-ed with `2^w - 1`. */
  lemma OrLowOnes(A: nat, hi: nat, w: nat)
    requires A / Pow2(w) == hi
    ensures BitOr(A, Pow2(w) - 1) == hi * Pow2(w) + (Pow2(w) - 1)
  {
    var m := Pow2(w);
    SplitAt(A, m, hi);
    BitOrHigh(hi, A % m, m - 1, w);
    BitOrOnes(A % m, w);
  }

  /** The same with the high part `2^t - 1`: all `u` bits set. */
  lemma OrLowOnesTop(A: nat, t: nat, u: nat)
    requires t <= u && A / Pow2(u - t) == Pow2(t) - 1
    ensures BitOr(A, Pow2(u - t) - 1) == Pow2(u) - 1
  {
    OrLowOnes(A, Pow2(t) - 1, u - t);
    Pow2Split(u, t);
    OnesJoin(Pow2(t), Pow2(u - t), Pow2(u));
  }

  lemma OnesJoin(p: nat, m: nat, pm: nat)
    requires p >= 1 && pm == p * m
    ensures (p - 1) * m + (m - 1) == pm - 1
  {
  }

  /** One smearing line by `t` doubles a filled top part of width `t < n`. */
  lemma SmearStepDoubles(s: nat, n: nat, t: nat)
    requires TopFilled(s, n, t) && t < n
    ensures TopFilled(SmearStep(s, t), n, if 2 * t < n then 2 * t else n)
  {
    var u := if 2 * t < n then 2 * t else n;
    SmearStepBelow(s, n, t);
    var A := Shr(s, n - u);
    var m, p := Pow2(u - t), Pow2(t);
    ShrShr(s, n - u, u - t);
    assert Shr(A, u - t) == p - 1;
    ShiftedTop(s, n, t, u);
    BitOrShr(s, Shr(s, t), n - u);
    var B := Shr(SmearStep(s, t), n - u);
    assert B == BitOr(A, m - 1);
    OrLowOnesTop(A, t, u);
  }

  /** One smearing line doubles the filled top part (up to all `n` bits). */
  lemma SmearStepFills(s: nat, n: nat, t: nat, d: nat)
    requires TopFilled(s, n, t)
    requires t == n || d == t
    ensures TopFilled(SmearStep(s, d), n, if t + d < n then t + d else n)
  {
    if t == n {
      SmearStepFull(s, n, d);
    } else {
      SmearStepDoubles(s, n, t);
    }
  }

  /** The highest set bit of a non-zero value is bit `BitLen(y) - 1`. */
  lemma TopBit(y: nat)
    requires y > 0
    ensures TopFilled(y, BitLen(y), 1)
  {
    var n := BitLen(y);
    BitLenBounds(y);
    var p := Pow2(n - 1);
    assert Pow2(n) == 2 * p;
    DivUnique(y, p, 1, y - p);
  }

  function Min(a: nat, b: nat): nat
  {
    if a < b then a else b
  }

  /** The lines `>> 1`, `>> 2`, `>> 4` fill the top eight bits (or all of them). */
  lemma SmearLow(s: nat, n: nat)
    requires TopFilled(s, n, 1)
    ensures TopFilled(SmearStep(SmearStep(SmearStep(s, 1), 2), 4), n, Min(8, n))
  {
    SmearStepFills(s, n, 1, 1);
    var s1 := SmearStep(s, 1);
    SmearStepFills(s1, n, Min(2, n), 2);
    var s2 := SmearStep(s1, 2);
    SmearStepFills(s2, n, Min(4, n), 4);
  }

  /** The lines `>> 8`, `>> 16`, `>> 32` fill the rest of a 64-bit value. */
  lemma SmearHigh(s: nat, n: nat)
    requires TopFilled(s, n, Min(8, n)) && n <= 64
    ensures TopFilled(SmearStep(SmearStep(SmearStep(s, 8), 16), 32), n, n)
  {
    SmearStepFills(s, n, Min(8, n), 8);
    var s1 := SmearStep(s, 8);
    SmearStepFills(s1, n, Min(16, n), 16);
    var s2 := SmearStep(s1, 16);
    SmearStepFills(s2, n, Min(32, n), 32);
  }

  /** The six smearing lines turn a non-zero value below 2^64 into
      `2^BitLen(y) - 1`. */
  lemma Smear(y: nat)
    requires 0 < y < U64
    ensures Smeared(y) == Pow2(BitLen(y)) - 1
  {
    var n := BitLen(y);
    Pow2Is64();
    BitLenAtMost(y, 64);
    TopBit(y);
    SmearLow(y, n);
    SmearHigh(SmearStep(SmearStep(SmearStep(y, 1), 2), 4), n);
    FilledAll(Smeared(y), n);
  }

  // ---------------------------------------------------------------------
  // What `roundup` computes

  /** `Smeared(y) == 2^BitLen(y) - 1` for every 64-bit `y`, zero included. */
  lemma SmearAny(y: nat)
    requires y < U64
    ensures Smeared(y) == Pow2(BitLen(y)) - 1
  {
    if y == 0 {
      SmearZero();
    } else {
      Smear(y);
    }
  }

  lemma SmearStepZero(k: nat)
    ensures SmearStep(0, k) == 0
  {
  }

  lemma SmearZero()
    ensures Smeared(0) == 0
  {
    SmearStepZero(1);
    SmearStepZero(2);
    SmearStepZero(4);
    SmearStepZero(8);
    SmearStepZero(16);
    SmearStepZero(32);
  }

  lemma ModBelow(a: nat, m: nat, k: nat)
    requires a < m
    ensures (a + k * m) % m == a
  {
    DivUnique(a + k * m, m, k, a);
  }

  lemma ModSmall(a: nat, m: nat)
    requires a < m
    ensures a % m == a
  {
    DivUnique(a, m, 0, a);
  }

  /** A value with its top bit at position `n - 1` has `n` significant bits. */
  lemma BitLenExact(y: nat, n: nat)
    requires 1 <= n && Pow2(n - 1) <= y < Pow2(n)
    ensures BitLen(y) == n
  {
    BitLenBounds(y);
    if BitLen(y) < n {
      Pow2Monotone(BitLen(y), n - 1);
    } else if BitLen(y) > n {
      Pow2Monotone(n, BitLen(y) - 1);
    }
  }

  /** The decrement at the head of the macro: `x - 1`, and all ones for 0. */
  lemma Decrement(x: nat)
    requires x < U64
    ensures (x + U64 - 1) % U64 == if x == 0 then U64 - 1 else x - 1
  {
    if x == 0 {
      ModSmall(U64 - 1, U64);
    } else {
      ModBelow(x - 1, U64, 1);
    }
  }

  /** Values from 2^63 up smear to all 64 ones, and the increment wraps to 0. */
  lemma SmearTopHalf(y: nat)
    requires 0x8000_0000_0000_0000 <= y < U64
    ensures (Smeared(y) + 1) % U64 == 0
  {
    Pow2Is64();
    BitLenExact(y, 64);
    Smear(y);
    DivUnique(U64, U64, 1, 0);
  }

  /** For `1 <= x <= 2^63` the result is `2^BitLen(x - 1)`. */
  lemma RoundUpValue(x: nat)
    requires 1 <= x <= 0x8000_0000_0000_0000
    ensures RoundUp(x) == Pow2(BitLen(x - 1))
    ensures x == 1 || Pow2(BitLen(x - 1) - 1) <= x - 1 < Pow2(BitLen(x - 1))
  {
    var y := x - 1;
    RoundUpOf(x, y);
    var n := BitLen(y);
    Pow2Is64();
    BitLenAtMost(y, 63);
    Pow2Monotone(n, 63);
    SmearAny(y);
    ModSmall(Pow2(n), U64);
    if y > 0 {
      BitLenBounds(y);
    }
  }

  /** Without wrap-around the decrement is `x - 1`. */
  lemma RoundUpOf(x: nat, y: nat)
    requires 1 <= x < U64 && y == x - 1
    ensures RoundUp(x) == (Smeared(y) + 1) % U64
  {
    Decrement(x);
    SameSmear((x + U64 - 1) % U64, y);
  }

  lemma SameSmear(a: nat, b: nat)
    requires a == b
    ensures Smeared(a) == Smeared(b)
  {
  }

  lemma RoundUpIsPowerOfTwo(x: nat)
    requires 1 <= x <= 0x8000_0000_0000_0000
    ensures IsPowerOfTwo(RoundUp(x))
  {
    RoundUpValue(x);
    Pow2IsPowerOfTwo(BitLen(x - 1));
  }

  lemma RoundUpBounds(x: nat)
    requires 1 <= x <= 0x8000_0000_0000_0000
    ensures x <= RoundUp(x) < 2 * x
  {
    RoundUpValue(x);
    if x > 1 {
      var n := BitLen(x - 1);
      assert Pow2(n) == 2 * Pow2(n - 1);
    }
  }

  lemma PredPow2BitLen(k: nat)
    ensures BitLen(Pow2(k) - 1) == k
  {
    if k > 0 {
      assert Pow2(k) == 2 * Pow2(k - 1);
      BitLenExact(Pow2(k) - 1, k);
    }
  }

  /** A power of two (that fits in 64 bits) is its own round-up. */
  lemma RoundUpOfPowerOfTwo(k: nat)
    requires k < 64
    ensures Pow2(k) < U64 && RoundUp(Pow2(k)) == Pow2(k)
  {
    var x := Pow2(k);
    Pow2Is64();
    Pow2Monotone(k, 63);
    PredPow2BitLen(k);
    RoundUpValue(x);
  }

  /** `roundup(0)`: `0 - 1` wraps to all ones and the final `+ 1` wraps back to 0. */
  lemma RoundUpZeroWraps()
    ensures RoundUp(0) == 0
  {
    Pow2Is64();
    Decrement(0);
    SmearTopHalf(U64 - 1);
  }

  /** Above 2^63 no power of two fits in 64 bits and the result wraps to 0. */
  lemma RoundUpAboveHalfWraps(x: nat)
    requires 0x8000_0000_0000_0000 < x < U64
    ensures RoundUp(x) == 0
  {
    Decrement(x);
    SmearTopHalf(x - 1);
  }
}
