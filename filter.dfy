/** `filterSegment` of main.c: every 20-base window of every segment of at
    least 40 bases is a candidate probe, kept when its GC rate (`GC_RATE`,
    i.e. gc / 20) and its Wallace melting temperature are in range, the
    enabled 3'-CG and terminal-A/T rules pass, and it has no homopolymer run.
    Kept windows become new segments with ids 0, 1, 2, ... in order.  Rates
    and temperatures are exact reals here, not `float`s. */
module Filter {

  import Kmers
  import Segments

  type Segment = Segments.Segment

  /** `KMER_LONG_LEN`. */
  const ProbeLen: nat := 20

  /** The options `filterSegment` reads. */
  datatype FilterOpts = FilterOpts(
    minGC: real, maxGC: real, minTm: real, maxTm: real,
    homeopolymer: int, avoidCGIn3: bool, avoidTIn3: bool)

  /** The slots of a 2-bit array hold 0..3. */
  predicate TwoBit(b: seq<bv8>)
  {
    forall k :: 0 <= k < |b| ==> b[k] <= 3
  }

  predicate AllTwoBit(segs: seq<Segment>)
  {
    forall i :: 0 <= i < |segs| ==> TwoBit(segs[i].bases)
  }

  /** `int2base[b]` is `G` or `C`. */
  predicate IsGC(b: bv8)
  {
    b == 1 || b == 2
  }

  /** `int2base[b]` is `A` or `T`. */
  predicate IsAT(b: bv8)
  {
    b == 0 || b == 3
  }

  /** The number of G and C bases in `w`. */
  function GCCount(w: seq<bv8>): (r: nat)
    ensures r <= |w|
  {
    if w == [] then 0 else GCCount(w[..|w| - 1]) + (if IsGC(w[|w| - 1]) then 1 else 0)
  }

  /** `GC_RATE[gc]`. */
  function GCRate(gc: int): real
  {
    gc as real / 20.0
  }

  /** The Wallace formula as written: 64.9 + 41 (gc - 16.4) / 20. */
  function Tm(gc: int): real
  {
    64.9 + 41.0 * (gc as real - 16.4) / 20.0
  }

  /** The length of the run of equal slots ending at `i`. */
  function RunLen(w: seq<bv8>, i: nat): (r: nat)
    requires i < |w|
    ensures 1 <= r <= i + 1
  {
    if i > 0 && w[i] == w[i - 1] then RunLen(w, i - 1) + 1 else 1
  }

  /** The homopolymer test: some position from 1 on ends a run of at least
      `h` equal bases (position 0 alone never ends a run the loop looks at). */
  predicate Homopolymer(w: seq<bv8>, h: int)
  {
    exists i :: 1 <= i < |w| && RunLen(w, i) >= h
  }

  /** Every rule a window must pass to become a probe. */
  predicate Passes(w: seq<bv8>, opts: FilterOpts)
    requires |w| == ProbeLen
  {
    var gc := GCCount(w);
    opts.minGC <= GCRate(gc) <= opts.maxGC &&
    opts.minTm <= Tm(gc) <= opts.maxTm &&
    (opts.avoidCGIn3 ==> !(IsGC(w[0]) && IsGC(w[1]) && IsGC(w[2]))) &&
    (opts.avoidTIn3 ==> !(IsAT(w[0]) || IsAT(w[ProbeLen - 1]))) &&
    !Homopolymer(w, opts.homeopolymer)
  }

  /** The probe made from the window of `s` at `j` (its id is set when it is
      pushed). */
  function Probe(s: Segment, j: nat): (r: Segment)
    requires j + ProbeLen <= |s.bases|
    ensures r.bases == s.bases[j..j + ProbeLen] && r.start == s.start + j && r.end == r.start + ProbeLen - 1
  {
    var w := s.bases[j..j + ProbeLen];
    Segments.Segment(0, s.name, s.start + j, s.start + j + ProbeLen - 1, w, 1, Tm(GCCount(w)))
  }

  /** The probes of the windows of `s` starting before `j`. */
  function ProbesOf(s: Segment, opts: FilterOpts, j: nat): seq<Segment>
    requires j + ProbeLen <= |s.bases| + 1
  {
    if j == 0 then []
    else
      ProbesOf(s, opts, j - 1) +
      (if Passes(s.bases[j - 1..j - 1 + ProbeLen], opts) then [Probe(s, j - 1)] else [])
  }

  /** The probes of the first `n` segments; a segment shorter than 40 bases
      gives none. */
  function Probes(segs: seq<Segment>, opts: FilterOpts, n: nat): seq<Segment>
    requires n <= |segs|
  {
    if n == 0 then []
    else
      Probes(segs, opts, n - 1) +
      (var s := segs[n - 1];
       if |s.bases| < 2 * ProbeLen then [] else ProbesOf(s, opts, |s.bases| - ProbeLen + 1))
  }

  // ---------------------------------------------------------------------
  // The loops

  /** Appending a base adds one to the count when it prints as `G` or `C`. */
  lemma GCAppend(w: seq<bv8>, base: bv8)
    requires base <= 3
    ensures GCCount(w + [base]) ==
      GCCount(w) + (if Kmers.Int2Base[base] == 'G' || Kmers.Int2Base[base] == 'C' then 1 else 0)
  {
    assert (w + [base])[..|w|] == w;
  }

  /** The window grows by the next base of the buffer. */
  lemma SliceGrows(b: seq<bv8>, j: nat, z: nat)
    requires j + z < |b|
    ensures b[j..j + z] + [b[j + z]] == b[j..j + z + 1]
  {
  }

  /** Copy the window at `j` into the buffer and count its G and C bases. */
  method ReadWindow(b: seq<bv8>, j: nat) returns (w: seq<bv8>, gc: nat)
    requires j + ProbeLen <= |b| && TwoBit(b)
    ensures w == b[j..j + ProbeLen] && gc == GCCount(w) && TwoBit(w)
  {
    w, gc := [], 0;
    var z := 0;
    while z < ProbeLen
      invariant z <= ProbeLen && w == b[j..j + z] && gc == GCCount(w) && TwoBit(w)
    {
      var base := b[z + j];
      var ch := Kmers.Int2Base[base];
      SliceGrows(b, j, z);
      GCAppend(w, base);
      if ch == 'G' || ch == 'C' {
        gc := gc + 1;
      }
      w := w + [base];
      z := z + 1;
    }
  }

  /** The homopolymer loop: `maxHome` counts the current run and the loop
      stops at the first run of `h`. */
  method IsHome(w: seq<bv8>, h: int) returns (home: bool)
    requires |w| == ProbeLen
    ensures home == Homopolymer(w, h)
  {
    var prev := w[0];
    var maxHome := 1;
    home := false;
    var i := 1;
    while i < ProbeLen
      invariant 1 <= i <= ProbeLen && prev == w[i - 1] && maxHome == RunLen(w, i - 1)
      invariant home ==> Homopolymer(w, h)
      invariant !home ==> forall k :: 1 <= k < i ==> RunLen(w, k) < h
    {
      var c := w[i];
      if c == prev {
        maxHome := maxHome + 1;
      } else {
        maxHome := 1;
      }
      assert maxHome == RunLen(w, i);
      if maxHome >= h {
        home := true;
        break;
      }
      prev := c;
      i := i + 1;
    }
  }

  /** The rules, in the order the loop applies them. */
  method Check(w: seq<bv8>, gc: nat, opts: FilterOpts) returns (ok: bool, tm: real)
    requires |w| == ProbeLen && TwoBit(w) && gc == GCCount(w)
    ensures ok == Passes(w, opts) && tm == Tm(gc)
  {
    tm := Tm(gc);
    if GCRate(gc) < opts.minGC || GCRate(gc) > opts.maxGC {
      return false, tm;
    }
    if tm < opts.minTm || tm > opts.maxTm {
      return false, tm;
    }
    if opts.avoidCGIn3 {
      var cg := 0;
      var i := 0;
      while i < 3
        invariant i <= 3 && cg <= i
        invariant cg == i <==> forall k :: 0 <= k < i ==> IsGC(w[k])
      {
        var ch := Kmers.Int2Base[w[i]];
        if ch == 'G' || ch == 'C' {
          cg := cg + 1;
        }
        i := i + 1;
      }
      if cg == 3 {
        return false, tm;
      }
    }
    if opts.avoidTIn3 {
      var left, right := Kmers.Int2Base[w[0]], Kmers.Int2Base[w[ProbeLen - 1]];
      if left == 'T' || right == 'T' || left == 'A' || right == 'A' {
        return false, tm;
      }
    }
    var home := IsHome(w, opts.homeopolymer);
    ok := !home;
  }

  /** `p` with ids `next`, `next + 1`, ... */
  function Numbered(p: seq<Segment>, next: nat): (r: seq<Segment>)
    ensures |r| == |p|
    ensures forall k :: 0 <= k < |p| ==> r[k] == p[k].(id := next + k)
  {
    seq(|p|, k requires 0 <= k < |p| => p[k].(id := next + k))
  }

  /** Numbering a concatenation numbers the second part on from the
      first. */
  lemma NumberedConcat(p: seq<Segment>, q: seq<Segment>, next: nat)
    ensures Numbered(p + q, next) == Numbered(p, next) + Numbered(q, next + |p|)
  {
  }

  /** A window that passes adds its probe with the next id. */
  lemma ProbeKept(s: Segment, opts: FilterOpts, j: nat, next: nat, probes: seq<Segment>, probe: Segment)
    requires j + ProbeLen <= |s.bases| && probes == Numbered(ProbesOf(s, opts, j), next)
    requires Passes(s.bases[j..j + ProbeLen], opts)
    requires probe == Segments.Segment(next + |probes|, s.name, s.start + j, s.start + j + ProbeLen - 1,
      s.bases[j..j + ProbeLen], 1, Tm(GCCount(s.bases[j..j + ProbeLen])))
    ensures probes + [probe] == Numbered(ProbesOf(s, opts, j + 1), next)
  {
    NumberedConcat(ProbesOf(s, opts, j), [Probe(s, j)], next);
  }

  /** A window that fails adds nothing. */
  lemma ProbeSkipped(s: Segment, opts: FilterOpts, j: nat, next: nat, probes: seq<Segment>)
    requires j + ProbeLen <= |s.bases| && probes == Numbered(ProbesOf(s, opts, j), next)
    requires !Passes(s.bases[j..j + ProbeLen], opts)
    ensures probes == Numbered(ProbesOf(s, opts, j + 1), next)
  {
  }

  /** The window loop over one segment of at least 40 bases: the probes
      of its windows, numbered on from `next`. */
  method SegmentProbes(s: Segment, opts: FilterOpts, next: nat) returns (probes: seq<Segment>)
    requires |s.bases| >= 2 * ProbeLen && TwoBit(s.bases)
    ensures probes == Numbered(ProbesOf(s, opts, |s.bases| - ProbeLen + 1), next)
  {
    var je := |s.bases| - ProbeLen + 1;
    probes := [];
    var j := 0;
    while j < je
      invariant j <= je && probes == Numbered(ProbesOf(s, opts, j), next)
    {
      var w, gc := ReadWindow(s.bases, j);
      var ok, tm := Check(w, gc, opts);
      if ok {
        var probe := Segments.Segment(next + |probes|, s.name, s.start + j, s.start + j + ProbeLen - 1, w, 1, tm);
        ProbeKept(s, opts, j, next, probes, probe);
        probes := probes + [probe];
      } else {
        ProbeSkipped(s, opts, j, next, probes);
      }
      j := j + 1;
    }
  }

  /** `filterSegment`: the probes of every segment in order, each with the
      number of probes before it as its id. */
  method FilterSegments(segs: seq<Segment>, opts: FilterOpts) returns (result: seq<Segment>)
    requires AllTwoBit(segs)
    ensures result == Numbered(Probes(segs, opts, |segs|), 0)
  {
    result := [];
    var i := 0;
    while i < |segs|
      invariant i <= |segs| && result == Numbered(Probes(segs, opts, i), 0)
    {
      var s := segs[i];
      if |s.bases| >= 2 * ProbeLen {
        var probes := SegmentProbes(s, opts, |result|);
        NumberedConcat(Probes(segs, opts, i), ProbesOf(s, opts, |s.bases| - ProbeLen + 1), 0);
        result := result + probes;
      }
      i := i + 1;
    }
  }

  // ---------------------------------------------------------------------
  // What the probes are

  /** A probe as the window loop builds it: 20 bases passing every rule,
      with its Wallace temperature, its end 19 past its start, and `vaild`
      at 1. */
  ghost predicate WellBuilt(g: Segment, opts: FilterOpts)
  {
    |g.bases| == ProbeLen && Passes(g.bases, opts) && g.tm == Tm(GCCount(g.bases)) &&
    g.end == g.start + ProbeLen - 1 && g.vaild == 1
  }

  /** `g` is the window at some offset of one of the first `n` segments, and
      that segment has at least 40 bases. */
  ghost predicate Drawn(segs: seq<Segment>, n: nat, g: Segment)
    requires n <= |segs|
  {
    exists i, j :: 0 <= i < n && 0 <= j && 2 * ProbeLen <= |segs[i].bases| && j + ProbeLen <= |segs[i].bases| &&
      g == Probe(segs[i], j)
  }

  /** Every probe is a window of 20 bases of one of the segments, at the
      segment's start plus its offset, passing every rule, with its Wallace
      temperature. */
  lemma {:induction false} ProbesSound(segs: seq<Segment>, opts: FilterOpts, n: nat)
    requires n <= |segs|
    ensures forall g :: g in Probes(segs, opts, n) ==> WellBuilt(g, opts) && Drawn(segs, n, g)
  {
    if n > 0 {
      ProbesSound(segs, opts, n - 1);
      var s := segs[n - 1];
      var tail := if |s.bases| < 2 * ProbeLen then [] else ProbesOf(s, opts, |s.bases| - ProbeLen + 1);
      assert Probes(segs, opts, n) == Probes(segs, opts, n - 1) + tail;
      if |s.bases| >= 2 * ProbeLen {
        WindowsSound(s, opts, |s.bases| - ProbeLen + 1);
      }
      forall g | g in Probes(segs, opts, n)
        ensures WellBuilt(g, opts) && Drawn(segs, n, g)
      {
        if g in Probes(segs, opts, n - 1) {
          var i, j :| 0 <= i < n - 1 && 0 <= j && 2 * ProbeLen <= |segs[i].bases| &&
            j + ProbeLen <= |segs[i].bases| && g == Probe(segs[i], j);
          assert 0 <= i < n;
        } else {
          var t :| 0 <= t < |s.bases| - ProbeLen + 1 && g == Probe(s, t);
          assert 0 <= n - 1 < n && g == Probe(segs[n - 1], t);
        }
      }
    }
  }

  lemma {:induction false} WindowsSound(s: Segment, opts: FilterOpts, j: nat)
    requires j + ProbeLen <= |s.bases| + 1
    ensures forall g :: g in ProbesOf(s, opts, j) ==> WellBuilt(g, opts) && exists t :: 0 <= t < j && g == Probe(s, t)
  {
    if j > 0 {
      WindowsSound(s, opts, j - 1);
    }
  }

  /** Every window of a segment of at least 40 bases that passes every rule
      is a probe. */
  lemma {:induction false} ProbesComplete(segs: seq<Segment>, opts: FilterOpts, n: nat, i: nat, j: nat)
    requires i < n <= |segs| && 2 * ProbeLen <= |segs[i].bases| && j + ProbeLen <= |segs[i].bases|
    requires Passes(segs[i].bases[j..j + ProbeLen], opts)
    ensures Probe(segs[i], j) in Probes(segs, opts, n)
  {
    if i == n - 1 {
      LastComplete(segs, opts, n, segs[i], j);
    } else {
      ProbesComplete(segs, opts, n - 1, i, j);
      EarlierKept(segs, opts, n, Probe(segs[i], j));
    }
  }

  /** A passing window of the last segment `s` is among its probes. */
  lemma LastComplete(segs: seq<Segment>, opts: FilterOpts, n: nat, s: Segment, j: nat)
    requires 0 < n <= |segs| && s == segs[n - 1]
    requires 2 * ProbeLen <= |s.bases| && j + ProbeLen <= |s.bases| && Passes(s.bases[j..j + ProbeLen], opts)
    ensures Probe(s, j) in Probes(segs, opts, n)
  {
    var e := |s.bases| - ProbeLen + 1;
    WindowsComplete(s, opts, e, j);
    LastSplit(segs, opts, n, s, e);
  }

  lemma LastSplit(segs: seq<Segment>, opts: FilterOpts, n: nat, s: Segment, e: nat)
    requires 0 < n <= |segs| && s == segs[n - 1] && 2 * ProbeLen <= |s.bases| && e == |s.bases| - ProbeLen + 1
    ensures Probes(segs, opts, n) == Probes(segs, opts, n - 1) + ProbesOf(s, opts, e)
  {
  }

  /** The probes of fewer segments stay among the probes of more. */
  lemma EarlierKept(segs: seq<Segment>, opts: FilterOpts, n: nat, g: Segment)
    requires 0 < n <= |segs| && g in Probes(segs, opts, n - 1)
    ensures g in Probes(segs, opts, n)
  {
  }

  lemma {:induction false} WindowsComplete(s: Segment, opts: FilterOpts, e: nat, j: nat)
    requires j < e && e + ProbeLen <= |s.bases| + 1 && Passes(s.bases[j..j + ProbeLen], opts)
    ensures Probe(s, j) in ProbesOf(s, opts, e)
  {
    if j < e - 1 {
      WindowsComplete(s, opts, e - 1, j);
    }
  }

  /** Segments shorter than 40 bases give no probe. */
  lemma {:induction false} ShortSegmentsGiveNothing(segs: seq<Segment>, opts: FilterOpts, n: nat)
    requires n <= |segs| && forall i :: 0 <= i < n ==> |segs[i].bases| < 2 * ProbeLen
    ensures Probes(segs, opts, n) == []
  {
    if n > 0 {
      ShortSegmentsGiveNothing(segs, opts, n - 1);
    }
  }

  /** The run ending at `i` is made of equal slots. */
  lemma {:induction false} RunLenEqual(w: seq<bv8>, i: nat)
    requires i < |w|
    ensures forall t :: i + 1 - RunLen(w, i) <= t <= i ==> w[t] == w[i]
  {
    if i > 0 && w[i] == w[i - 1] {
      RunLenEqual(w, i - 1);
    }
  }

  /** `h` equal slots ending at `i` make a run of at least `h`. */
  lemma {:induction false} EqualRunLen(w: seq<bv8>, i: nat, h: nat)
    requires i < |w| && 1 <= h <= i + 1
    requires forall t :: i + 1 - h <= t <= i ==> w[t] == w[i]
    ensures RunLen(w, i) >= h
  {
    if h > 1 {
      EqualRunLen(w, i - 1, h - 1);
    }
  }

  /** `w` holds `h` equal bases from `a` on. */
  predicate SameBases(w: seq<bv8>, a: int, h: int)
  {
    0 <= a && a + h <= |w| && forall t :: a <= t < a + h ==> w[t] == w[a]
  }

  /** For `h` of at least 2 the homopolymer test finds exactly the windows
      with `h` equal bases in a row. */
  lemma Homopolymers(w: seq<bv8>, h: int)
    requires h >= 2
    ensures Homopolymer(w, h) <==> exists a :: SameBases(w, a, h)
  {
    if Homopolymer(w, h) {
      var i :| 1 <= i < |w| && RunLen(w, i) >= h;
      RunLenEqual(w, i);
      assert SameBases(w, i + 1 - h, h);
    }
    if exists a :: SameBases(w, a, h) {
      var a :| SameBases(w, a, h);
      var i := a + h - 1;
      assert forall t :: i + 1 - h <= t <= i ==> w[t] == w[i];
      EqualRunLen(w, i, h);
      assert 1 <= i < |w| && RunLen(w, i) >= h;
    }
  }

  /** With `homopolymer` at 1 or less every window fails: the test at
      position 1 already counts a run of 1. */
  lemma ShortHomopolymerRejectsAll(w: seq<bv8>, opts: FilterOpts)
    requires |w| == ProbeLen && opts.homeopolymer <= 1
    ensures !Passes(w, opts)
  {
    assert RunLen(w, 1) >= 1;
  }

  /** The defaults of the `design` command. */
  const Defaults: FilterOpts := FilterOpts(0.45, 0.55, 52.4, 55.4, 3, true, true)

  /** Under the defaults only windows with exactly 11 G or C bases pass:
      9 and 10 are too cool, 12 is outside the GC range. */
  lemma DefaultsNeedElevenGC(w: seq<bv8>)
    requires |w| == ProbeLen && Passes(w, Defaults)
    ensures GCCount(w) == 11
  {
    var gc := GCCount(w);
    assert 9.0 <= gc as real <= 11.0;
    assert gc != 9 && gc != 10;
  }
}
