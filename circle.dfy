/** `createCircle` of main.c: pick `count` groups of four probes, one
    circle template each.  With a join matrix the probes are nodes of a
    graph, with an edge from `i` to `j` when `checkJoin` admits the pair
    and their starts are at least 1000 apart; a depth-first walk with a
    stack of at most four nodes emits every stack that reaches four nodes,
    and emits a node with no edge at all four times.  Without a matrix the
    first `4 * count` probes are taken in order.

    Nodes are positions in `segs`; the `visited` flags are indexed by the
    probes' ids.  The outer loop tests a root with its position
    (`visited[i]`), which `Root` makes a parameter: `ByPosition` as written,
    `ById` as the rest of the walk tests. */
module Circle {

  import Alloc
  import Segments
  import Join
  import Arrays

  type Segment = Segments.Segment

  /** `KMER_PER_CIRCLE`. */
  const PerCircle: nat := 4

  /** The minimum spacing of two joined probes. */
  const Span: int := 1000

  /** 2^64, the range of `size_t`. */
  const Word: int := 0x1_0000_0000_0000_0000

  /** `x - y` on `size_t`. */
  function SizeDiff(x: int, y: int): (r: int)
    ensures 0 <= r < Word
    ensures 0 <= y <= x < Word ==> r == x - y
  {
    (x - y) % Word
  }

  /** The spacing test of the edge loop, true when the edge is skipped. */
  predicate TooClose(a: int, b: int)
  {
    SizeDiff(b, a) < Span || SizeDiff(a, b) < Span
  }

  /** For starts below 2^63 the unsigned test skips exactly the pairs less
      than 1000 apart. */
  lemma TooCloseMeans(a: int, b: int)
    requires 0 <= a < 0x8000_0000_0000_0000 && 0 <= b < 0x8000_0000_0000_0000
    ensures TooClose(a, b) <==> -Span < a - b < Span
  {
    if a < b {
      assert SizeDiff(b, a) == b - a;
      assert SizeDiff(a, b) == a - b + Word;
    } else if a == b {
      assert SizeDiff(a, b) == 0;
    } else {
      assert SizeDiff(a, b) == a - b;
      assert SizeDiff(b, a) == b - a + Word;
    }
  }

  /** The ids index the `visited` flags, so they must lie below the
      number of probes. */
  predicate IdsInRange(segs: seq<Segment>)
  {
    forall k :: 0 <= k < |segs| ==> 0 <= segs[k].id < |segs|
  }

  /** A join matrix over the probes. */
  predicate Matrix(segs: seq<Segment>, m: seq<seq<bool>>)
  {
    |m| == |segs| && Join.Square(m)
  }

  /** The edge from node `i` to node `j`. */
  predicate Edge(segs: seq<Segment>, m: seq<seq<bool>>, i: int, j: int)
    requires IdsInRange(segs) && Matrix(segs, m) && 0 <= i < |segs| && 0 <= j < |segs|
  {
    i != j && Join.CheckJoin(Arrays.Some(m), segs[i], segs[j]) && !TooClose(segs[i].start, segs[j].start)
  }

  /** The successors of node `i` among the nodes before `e`, in order. */
  function SuccUpTo(segs: seq<Segment>, m: seq<seq<bool>>, i: int, e: int): seq<int>
    requires IdsInRange(segs) && Matrix(segs, m) && 0 <= i < |segs| && 0 <= e <= |segs|
    decreases e
  {
    if e == 0 then []
    else
      SuccUpTo(segs, m, i, e - 1) + (if Edge(segs, m, i, e - 1) then [e - 1] else [])
  }

  /** `nodes[i]->next` for every node. */
  function Adjacency(segs: seq<Segment>, m: seq<seq<bool>>): (next: seq<seq<int>>)
    requires IdsInRange(segs) && Matrix(segs, m)
    ensures |next| == |segs|
  {
    seq(|segs|, i requires 0 <= i < |segs| => SuccUpTo(segs, m, i, |segs|))
  }

  /** The successor list holds each node with an edge from `i`, once, in
      increasing order. */
  lemma {:induction false} SuccMeans(segs: seq<Segment>, m: seq<seq<bool>>, i: int, e: int)
    requires IdsInRange(segs) && Matrix(segs, m) && 0 <= i < |segs| && 0 <= e <= |segs|
    ensures forall j :: j in SuccUpTo(segs, m, i, e) <==> 0 <= j < e && Edge(segs, m, i, j)
    ensures forall p, q :: 0 <= p < q < |SuccUpTo(segs, m, i, e)| ==>
      SuccUpTo(segs, m, i, e)[p] < SuccUpTo(segs, m, i, e)[q]
  {
    if e > 0 {
      SuccMeans(segs, m, i, e - 1);
      var prev := SuccUpTo(segs, m, i, e - 1);
      assert forall p :: 0 <= p < |prev| ==> prev[p] in prev;
      AppendIndex(prev, SuccUpTo(segs, m, i, e), e - 1, Edge(segs, m, i, e - 1));
    }
  }

  /** Appending `k`, or nothing, to an increasing list of indices below `k`. */
  lemma AppendIndex(prev: seq<int>, s: seq<int>, k: int, hit: bool)
    requires s == prev + (if hit then [k] else [])
    requires forall p :: 0 <= p < |prev| ==> prev[p] < k
    requires forall p, q :: 0 <= p < q < |prev| ==> prev[p] < prev[q]
    ensures forall j :: j in s <==> j in prev || (hit && j == k)
    ensures forall p, q :: 0 <= p < q < |s| ==> s[p] < s[q]
  {
  }

  /** The edge loop of `createCircle`. */
  method BuildAdjacency(segs: seq<Segment>, m: seq<seq<bool>>) returns (next: seq<seq<int>>)
    requires IdsInRange(segs) && Matrix(segs, m)
    ensures next == Adjacency(segs, m)
  {
    var n := |segs|;
    next := [];
    var i := 0;
    while i < n
      invariant 0 <= i <= n && |next| == i
      invariant forall r :: 0 <= r < i ==> next[r] == SuccUpTo(segs, m, r, n)
    {
      var row: seq<int> := [];
      var j := 0;
      while j < n
        invariant 0 <= j <= n && row == SuccUpTo(segs, m, i, j)
      {
        if i != j {
          var a, b := segs[i], segs[j];
          if Join.CheckJoin(Arrays.Some(m), a, b) {
            if !(SizeDiff(b.start, a.start) < Span || SizeDiff(a.start, b.start) < Span) {
              row := row + [j];
            }
          }
        }
        j := j + 1;
      }
      next := next + [row];
      i := i + 1;
    }
  }

  /** Node lists over `n` nodes: one list per node, every entry a node. */
  predicate Graph(next: seq<seq<int>>, n: int)
  {
    |next| == n && forall i, k :: 0 <= i < n && 0 <= k < |next[i]| ==> 0 <= next[i][k] < n
  }

  lemma AdjacencyGraph(segs: seq<Segment>, m: seq<seq<bool>>)
    requires IdsInRange(segs) && Matrix(segs, m)
    ensures Graph(Adjacency(segs, m), |segs|)
  {
    forall i, k | 0 <= i < |segs| && 0 <= k < |Adjacency(segs, m)[i]|
      ensures 0 <= Adjacency(segs, m)[i][k] < |segs|
    {
      SuccMeans(segs, m, i, |segs|);
      assert Adjacency(segs, m)[i][k] in SuccUpTo(segs, m, i, |segs|);
    }
  }

  /** The ids are the positions, as `filterSegment` numbers them. */
  predicate Positional(segs: seq<Segment>)
  {
    forall k :: 0 <= k < |segs| ==> segs[k].id == k
  }

  /** How the outer loop of the walk tests a root.  `ByPosition` is the
      source's `visited[i]`, with `i` a position; `ById` is
      `visited[segs[i].id]`, the test every other step of the walk makes. */
  datatype Root = ByPosition | ById

  /** The two tests agree: roots are tested by id, or every id is its
      position. */
  predicate Keyed(segs: seq<Segment>, root: Root)
  {
    root.ById? || Positional(segs)
  }

  /** The outer loop's test that node `i` is not yet visited. */
  predicate RootFresh(segs: seq<Segment>, visited: seq<bool>, root: Root, i: int)
    requires 0 <= i < |segs|
  {
    if root.ByPosition? then i < |visited| && !visited[i]
    else 0 <= segs[i].id < |visited| && !visited[segs[i].id]
  }

  /** The probes of the nodes of a group, in order. */
  function Members(segs: seq<Segment>, g: seq<int>): (r: seq<Segment>)
    requires forall k :: 0 <= k < |g| ==> 0 <= g[k] < |segs|
    ensures |r| == |g| && forall k :: 0 <= k < |g| ==> r[k] == segs[g[k]]
  {
    seq(|g|, k requires 0 <= k < |g| => segs[g[k]])
  }

  predicate InRange(s: seq<int>, n: int)
  {
    forall k :: 0 <= k < |s| ==> 0 <= s[k] < n
  }

  predicate AllInRange(gs: seq<seq<int>>, n: int)
  {
    forall g :: 0 <= g < |gs| ==> InRange(gs[g], n)
  }

  /** The circle array: the probes of the groups one after another. */
  function Emit(segs: seq<Segment>, gs: seq<seq<int>>): (r: seq<Segment>)
    requires AllInRange(gs, |segs|)
  {
    if |gs| == 0 then []
    else
      Emit(segs, gs[..|gs| - 1]) + Members(segs, gs[|gs| - 1])
  }

  /** Four nodes, each with an edge to the next and with distinct ids. */
  predicate Chain(segs: seq<Segment>, next: seq<seq<int>>, g: seq<int>)
    requires Graph(next, |segs|) && InRange(g, |segs|)
  {
    |g| == PerCircle &&
    (forall k :: 0 <= k < |g| - 1 ==> g[k + 1] in next[g[k]]) &&
    (forall a, b :: 0 <= a < b < |g| ==> segs[g[a]].id != segs[g[b]].id)
  }

  /** One node with no edge, four times. */
  predicate Padding(segs: seq<Segment>, next: seq<seq<int>>, g: seq<int>)
    requires Graph(next, |segs|) && InRange(g, |segs|)
  {
    |g| == PerCircle && |next[g[0]]| == 0 && forall k :: 0 <= k < |g| ==> g[k] == g[0]
  }

  /** No node is in two groups. */
  predicate Disjoint(gs: seq<seq<int>>)
  {
    forall g1, g2, k1, k2 :: 0 <= g1 < g2 < |gs| && 0 <= k1 < |gs[g1]| && 0 <= k2 < |gs[g2]| ==>
      gs[g1][k1] != gs[g2][k2]
  }

  /** `x` is in none of the groups. */
  predicate Unused(gs: seq<seq<int>>, x: int)
  {
    forall g, k :: 0 <= g < |gs| && 0 <= k < |gs[g]| ==> gs[g][k] != x
  }

  /** The first entry of `list` from `k` on whose id is not visited, or
      `|list|` (an entry or id out of range counts as visited). */
  function FirstFresh(segs: seq<Segment>, list: seq<int>, visited: seq<bool>, k: nat): (r: nat)
    requires k <= |list|
    ensures k <= r <= |list|
    decreases |list| - k
  {
    if k == |list| then k
    else if 0 <= list[k] < |segs| && 0 <= segs[list[k]].id < |visited| && !visited[segs[list[k]].id] then k
    else FirstFresh(segs, list, visited, k + 1)
  }

  /** The first entry of `list` whose id is not visited, or `|list|`: the
      `find` loop. */
  method FirstUnvisited(segs: seq<Segment>, list: seq<int>, visited: seq<bool>) returns (k: int)
    requires InRange(list, |segs|) && IdsInRange(segs) && |visited| == |segs|
    ensures 0 <= k <= |list| && k == FirstFresh(segs, list, visited, 0)
    ensures forall q :: 0 <= q < k ==> visited[segs[list[q]].id]
    ensures k < |list| ==> !visited[segs[list[k]].id]
  {
    k := 0;
    while k < |list|
      invariant 0 <= k <= |list| && FirstFresh(segs, list, visited, 0) == FirstFresh(segs, list, visited, k)
      invariant forall q :: 0 <= q < k ==> visited[segs[list[q]].id]
    {
      if visited[segs[list[k]].id] {
        k := k + 1;
        continue;
      }
      break;
    }
  }

  /** The push loop of a found circle: the group's probes are appended, and
      marking their ids again changes nothing. */
  method EmitCircle(segs: seq<Segment>, g: seq<int>, result0: seq<Segment>, visited0: seq<bool>)
    returns (result: seq<Segment>, visited: seq<bool>)
    requires InRange(g, |segs|) && IdsInRange(segs) && |visited0| == |segs|
    requires forall k :: 0 <= k < |g| ==> visited0[segs[g[k]].id]
    ensures result == result0 + Members(segs, g) && visited == visited0
  {
    result, visited := result0, visited0;
    var k := 0;
    while k < |g|
      invariant 0 <= k <= |g| && visited == visited0
      invariant result == result0 + Members(segs, g[..k])
    {
      assert Members(segs, g[..k + 1]) == Members(segs, g[..k]) + [segs[g[k]]];
      result := result + [segs[g[k]]];
      visited := visited[segs[g[k]].id := true];
      k := k + 1;
    }
    assert g[..k] == g;
  }

  function Unvisited(visited: seq<bool>): nat
  {
    multiset(visited)[false]
  }

  /** 1 when the top of the stack is not yet visited. */
  function TopFresh(segs: seq<Segment>, visited: seq<bool>, stack: seq<int>): int
    requires IdsInRange(segs) && |visited| == |segs| && InRange(stack, |segs|)
  {
    if |stack| > 0 && !visited[segs[stack[|stack| - 1]].id] then 1 else 0
  }

  lemma MarkOne(visited: seq<bool>, x: int)
    requires 0 <= x < |visited|
    ensures Unvisited(visited[x := true]) == Unvisited(visited) - (if visited[x] then 0 else 1)
    ensures !visited[x] ==> Unvisited(visited) >= 1
  {
    if !visited[x] {
      assert false in multiset(visited);
    }
  }

  /** At most every flag is clear. */
  lemma {:induction false} UnvisitedBound(visited: seq<bool>)
    ensures Unvisited(visited) <= |visited|
  {
    if |visited| > 0 {
      var init := visited[..|visited| - 1];
      UnvisitedBound(init);
      assert visited == init + [visited[|visited| - 1]];
      assert multiset(visited) == multiset(init) + multiset{visited[|visited| - 1]};
    }
  }

  /** Every grouped node is visited. */
  predicate GroupedVisited(segs: seq<Segment>, visited: seq<bool>, gs: seq<seq<int>>)
    requires IdsInRange(segs) && |visited| == |segs| && AllInRange(gs, |segs|)
  {
    forall g, k :: 0 <= g < |gs| && 0 <= k < |gs[g]| ==> visited[segs[gs[g][k]].id]
  }

  /** What the walk has produced so far: the circle array is the groups'
      probes, each group is a chain or a padding, every grouped node is
      visited, at most `count` groups, and (with positional ids) no node
      in two groups. */
  ghost predicate Walked(segs: seq<Segment>, next: seq<seq<int>>, count: int, root: Root,
                         visited: seq<bool>, gs: seq<seq<int>>, result: seq<Segment>)
  {
    IdsInRange(segs) && Graph(next, |segs|) && |visited| == |segs| && AllInRange(gs, |segs|) &&
    result == Emit(segs, gs) &&
    (forall g :: 0 <= g < |gs| ==> Chain(segs, next, gs[g]) || Padding(segs, next, gs[g])) &&
    GroupedVisited(segs, visited, gs) &&
    (Keyed(segs, root) ==> Disjoint(gs)) &&
    (|gs| == 0 || |gs| <= count)
  }

  /** The stack: at most four nodes, each with an edge to the next, with
      distinct ids, all but the top visited, none but perhaps the bottom
      grouped already (the bottom neither, with positional ids). */
  ghost predicate Stacked(segs: seq<Segment>, next: seq<seq<int>>, root: Root, visited: seq<bool>,
                          gs: seq<seq<int>>, stack: seq<int>)
    requires IdsInRange(segs) && Graph(next, |segs|) && |visited| == |segs|
  {
    |stack| <= PerCircle && InRange(stack, |segs|) &&
    (forall a :: 0 <= a < |stack| - 1 ==> stack[a + 1] in next[stack[a]]) &&
    (forall a, b :: 0 <= a < b < |stack| ==> segs[stack[a]].id != segs[stack[b]].id) &&
    (forall a :: 0 <= a < |stack| - 1 ==> visited[segs[stack[a]].id]) &&
    (forall a :: 0 < a < |stack| ==> Unused(gs, stack[a])) &&
    (Keyed(segs, root) && |stack| > 0 ==> Unused(gs, stack[0]))
  }

  lemma {:induction false} EmitAdd(segs: seq<Segment>, gs: seq<seq<int>>, g: seq<int>)
    requires AllInRange(gs, |segs|) && InRange(g, |segs|)
    ensures AllInRange(gs + [g], |segs|)
    ensures Emit(segs, gs + [g]) == Emit(segs, gs) + Members(segs, g)
  {
    assert (gs + [g])[..|gs|] == gs;
  }

  /** Appending a found circle keeps what the walk has produced. */
  lemma CircleAdded(segs: seq<Segment>, next: seq<seq<int>>, count: int, root: Root,
                    visited: seq<bool>, gs: seq<seq<int>>, result: seq<Segment>, g: seq<int>)
    requires Walked(segs, next, count, root, visited, gs, result) && |gs| < count
    requires InRange(g, |segs|) && (Chain(segs, next, g) || Padding(segs, next, g))
    requires forall k :: 0 <= k < |g| ==> visited[segs[g[k]].id]
    requires Keyed(segs, root) ==> forall k :: 0 <= k < |g| ==> Unused(gs, g[k])
    ensures Walked(segs, next, count, root, visited, gs + [g], result + Members(segs, g))
  {
    EmitAdd(segs, gs, g);
    var gs' := gs + [g];
    forall g0 | 0 <= g0 < |gs'|
      ensures Chain(segs, next, gs'[g0]) || Padding(segs, next, gs'[g0])
    {
      if g0 < |gs| {
        assert gs'[g0] == gs[g0];
      }
    }
  }

  /** Marking the top of the stack keeps both invariants and counts one
      visit less exactly when the top was fresh. */
  lemma MarkTop(segs: seq<Segment>, next: seq<seq<int>>, count: int, root: Root,
                visited: seq<bool>, gs: seq<seq<int>>, result: seq<Segment>, stack: seq<int>)
    requires Walked(segs, next, count, root, visited, gs, result)
    requires Stacked(segs, next, root, visited, gs, stack) && |stack| > 0
    ensures var v := visited[segs[stack[|stack| - 1]].id := true];
      Walked(segs, next, count, root, v, gs, result) && Stacked(segs, next, root, v, gs, stack) &&
      Unvisited(v) == Unvisited(visited) - TopFresh(segs, visited, stack) &&
      forall a :: 0 <= a < |stack| ==> v[segs[stack[a]].id]
  {
    MarkOne(visited, segs[stack[|stack| - 1]].id);
  }

  /** Pushing an unvisited successor of the top. */
  lemma PushNode(segs: seq<Segment>, next: seq<seq<int>>, root: Root,
                 visited: seq<bool>, gs: seq<seq<int>>, stack: seq<int>, j: int)
    requires IdsInRange(segs) && Graph(next, |segs|) && |visited| == |segs| && AllInRange(gs, |segs|)
    requires GroupedVisited(segs, visited, gs)
    requires Stacked(segs, next, root, visited, gs, stack) && 0 < |stack| < PerCircle
    requires forall a :: 0 <= a < |stack| ==> visited[segs[stack[a]].id]
    requires j in next[stack[|stack| - 1]] && !visited[segs[j].id]
    ensures Stacked(segs, next, root, visited, gs, stack + [j])
    ensures TopFresh(segs, visited, stack + [j]) == 1 && Unvisited(visited) >= 1
  {
    MarkOne(visited, segs[j].id);
    var s := stack + [j];
    assert forall a :: 0 <= a < |stack| ==> s[a] == stack[a];
    forall a, b | 0 <= a < b < |s| ensures segs[s[a]].id != segs[s[b]].id
    {
      if b == |stack| {
        assert visited[segs[s[a]].id];
      }
    }
  }

  /** Popping a node whose successors are all visited. */
  lemma PopNode(segs: seq<Segment>, next: seq<seq<int>>, root: Root, visited: seq<bool>,
                gs: seq<seq<int>>, stack: seq<int>)
    requires IdsInRange(segs) && Graph(next, |segs|) && |visited| == |segs|
    requires Stacked(segs, next, root, visited, gs, stack) && |stack| > 0
    requires forall a :: 0 <= a < |stack| ==> visited[segs[stack[a]].id]
    ensures Stacked(segs, next, root, visited, gs, stack[..|stack| - 1])
    ensures TopFresh(segs, visited, stack[..|stack| - 1]) == 0
  {
  }

  /** The state of the walk as a value: the flags, the groups found so far
      and the stack. */
  datatype Walker = Walker(visited: seq<bool>, gs: seq<seq<int>>, stack: seq<int>)

  /** One pass of the loop body as a function: mark the top's id; a top
      without successors is emitted four times and a full stack as it is,
      and the stack is emptied; otherwise the first successor with an
      unvisited id is pushed, or the top is popped.  (A top or id out of
      range, which no walk over a graph meets, leaves the walker as it is.) */
  function StepF(segs: seq<Segment>, next: seq<seq<int>>, w: Walker): Walker
  {
    if |w.stack| == 0 then w
    else
      var top := w.stack[|w.stack| - 1];
      if !(0 <= top < |segs| && top < |next| && 0 <= segs[top].id < |w.visited|) then w
      else
        var v := w.visited[segs[top].id := true];
        if |next[top]| == 0 then Walker(v, w.gs + [[top, top, top, top]], [])
        else if |w.stack| == PerCircle then Walker(v, w.gs + [w.stack], [])
        else
          var k := FirstFresh(segs, next[top], v, 0);
          if k < |next[top]| then Walker(v, w.gs, w.stack + [next[top][k]])
          else Walker(v, w.gs, w.stack[..|w.stack| - 1])
  }

  /** The `while (stack_size > 0)` loop as a function, for at most `fuel`
      passes: it stops on an empty stack or once `count` circles exist. */
  function WalkF(segs: seq<Segment>, next: seq<seq<int>>, count: int, fuel: nat, w: Walker): Walker
    decreases fuel
  {
    if fuel == 0 || |w.stack| == 0 || |w.gs| >= count then w
    else WalkF(segs, next, count, fuel - 1, StepF(segs, next, w))
  }

  /** More passes than any walk takes: the walk's measure starts below it. */
  function WalkFuel(segs: seq<Segment>): nat
  {
    3 * |segs| + PerCircle + 1
  }

  /** The walk stops on an empty stack or once `count` circles exist. */
  predicate Stop(count: int, w: Walker)
  {
    |w.stack| == 0 || |w.gs| >= count
  }

  /** The walkers the loop passes through from `w`, for at most `fuel`
      passes. */
  function Trace(segs: seq<Segment>, next: seq<seq<int>>, count: int, fuel: nat, w: Walker): (t: seq<Walker>)
    decreases fuel
  {
    if fuel == 0 || Stop(count, w) then [w]
    else [w] + Trace(segs, next, count, fuel - 1, StepF(segs, next, w))
  }

  /** The trace starts at `w`, ends where `WalkF` does, and ends stopped
      unless the fuel runs out. */
  lemma {:induction false} TraceEnds(segs: seq<Segment>, next: seq<seq<int>>, count: int, fuel: nat, w: Walker)
    ensures var t := Trace(segs, next, count, fuel, w);
      1 <= |t| <= fuel + 1 && t[0] == w && t[|t| - 1] == WalkF(segs, next, count, fuel, w) &&
      (Stop(count, t[|t| - 1]) || |t| == fuel + 1)
    decreases fuel
  {
    if !(fuel == 0 || Stop(count, w)) {
      TraceEnds(segs, next, count, fuel - 1, StepF(segs, next, w));
    }
  }

  /** Before its end the trace does not stop, and each walker is one pass
      after the one before. */
  lemma {:induction false} TraceStep(segs: seq<Segment>, next: seq<seq<int>>, count: int, fuel: nat, w: Walker, j: nat)
    requires j + 1 < |Trace(segs, next, count, fuel, w)|
    ensures var t := Trace(segs, next, count, fuel, w);
      !Stop(count, t[j]) && t[j + 1] == StepF(segs, next, t[j])
    decreases fuel
  {
    if j > 0 {
      TraceStep(segs, next, count, fuel - 1, StepF(segs, next, w), j - 1);
    }
  }

  /** The outer loop from root `i` on as a function: the groups it ends
      with. */
  function DfsF(segs: seq<Segment>, next: seq<seq<int>>, count: int, root: Root, i: nat,
                visited: seq<bool>, gs: seq<seq<int>>): seq<seq<int>>
    requires i <= |segs|
    decreases |segs| - i
  {
    if i == |segs| then gs
    else if !RootFresh(segs, visited, root, i) then DfsF(segs, next, count, root, i + 1, visited, gs)
    else if |gs| >= count then gs
    else
      var w := WalkF(segs, next, count, WalkFuel(segs), Walker(visited, gs, [i]));
      DfsF(segs, next, count, root, i + 1, w.visited, w.gs)
  }

  /** A root the test passes over leaves the outcome as it was. */
  lemma DfsSkip(segs: seq<Segment>, next: seq<seq<int>>, count: int, root: Root, i: nat,
                visited: seq<bool>, gs: seq<seq<int>>)
    requires i < |segs| && !RootFresh(segs, visited, root, i)
    ensures DfsF(segs, next, count, root, i, visited, gs) == DfsF(segs, next, count, root, i + 1, visited, gs)
  {
  }

  /** A root the test lets through, below `count` groups, adds the groups
      of the walk from it. */
  lemma DfsRoot(segs: seq<Segment>, next: seq<seq<int>>, count: int, root: Root, i: nat,
                visited: seq<bool>, gs: seq<seq<int>>, w: Walker)
    requires i < |segs| && RootFresh(segs, visited, root, i) && |gs| < count
    requires w == WalkF(segs, next, count, WalkFuel(segs), Walker(visited, gs, [i]))
    ensures DfsF(segs, next, count, root, i, visited, gs) == DfsF(segs, next, count, root, i + 1, w.visited, w.gs)
  {
  }

  /** The groups of the whole walk: the outer loop from root 0, with no
      flag set and no group. */
  function DfsAll(segs: seq<Segment>, next: seq<seq<int>>, count: int, root: Root): seq<seq<int>>
  {
    DfsF(segs, next, count, root, 0, seq(|segs|, _ => false), [])
  }

  /** A found circle: its probes are pushed and it counts as one more. */
  method Found(segs: seq<Segment>, next: seq<seq<int>>, count: int, root: Root, visited: seq<bool>,
               gs0: seq<seq<int>>, result0: seq<Segment>, circles0: int, g: seq<int>)
    returns (result: seq<Segment>, gs: seq<seq<int>>, circles: int)
    requires Walked(segs, next, count, root, visited, gs0, result0) && circles0 == |gs0| < count
    requires InRange(g, |segs|) && (Chain(segs, next, g) || Padding(segs, next, g))
    requires forall k :: 0 <= k < |g| ==> visited[segs[g[k]].id]
    requires Keyed(segs, root) ==> forall k :: 0 <= k < |g| ==> Unused(gs0, g[k])
    ensures gs == gs0 + [g]
    ensures Walked(segs, next, count, root, visited, gs, result) && circles == |gs|
  {
    CircleAdded(segs, next, count, root, visited, gs0, result0, g);
    var v;
    result, v := EmitCircle(segs, g, result0, visited);
    gs, circles := gs0 + [g], circles0 + 1;
  }

  /** A top without successors gives a padding of four copies of it; a
      full stack gives its own circle. */
  method Close(segs: seq<Segment>, next: seq<seq<int>>, count: int, root: Root, visited: seq<bool>,
               gs0: seq<seq<int>>, result0: seq<Segment>, stack: seq<int>, circles0: int)
    returns (result: seq<Segment>, gs: seq<seq<int>>, circles: int)
    requires Walked(segs, next, count, root, visited, gs0, result0) && circles0 == |gs0| < count
    requires Stacked(segs, next, root, visited, gs0, stack) && |stack| > 0
    requires forall a :: 0 <= a < |stack| ==> visited[segs[stack[a]].id]
    requires |next[stack[|stack| - 1]]| == 0 || |stack| == PerCircle
    ensures var top := stack[|stack| - 1];
      gs == gs0 + [if |next[top]| == 0 then [top, top, top, top] else stack]
    ensures Walked(segs, next, count, root, visited, gs, result) && circles == |gs|
  {
    var top := stack[|stack| - 1];
    if |next[top]| == 0 {
      var g := [top, top, top, top];
      result, gs, circles := Found(segs, next, count, root, visited, gs0, result0, circles0, g);
    } else {
      result, gs, circles := Found(segs, next, count, root, visited, gs0, result0, circles0, stack);
    }
  }

  /** The walk's measure: it falls with every step of the loop. */
  function Measure(segs: seq<Segment>, visited: seq<bool>, stack: seq<int>): int
    requires IdsInRange(segs) && |visited| == |segs| && InRange(stack, |segs|)
  {
    3 * Unvisited(visited) - 2 * TopFresh(segs, visited, stack) + |stack|
  }

  /** One pass of the `while (stack_size > 0)` body below the count test:
      mark the top, then emit a padding or a full stack, push the first
      unvisited successor, or pop. */
  method Step(segs: seq<Segment>, next: seq<seq<int>>, count: int, root: Root, visited0: seq<bool>,
              gs0: seq<seq<int>>, result0: seq<Segment>, stack0: seq<int>, circles0: int)
    returns (visited: seq<bool>, gs: seq<seq<int>>, result: seq<Segment>, stack: seq<int>, circles: int)
    requires Walked(segs, next, count, root, visited0, gs0, result0) && circles0 == |gs0| < count
    requires Stacked(segs, next, root, visited0, gs0, stack0) && |stack0| > 0
    ensures Walker(visited, gs, stack) == StepF(segs, next, Walker(visited0, gs0, stack0))
    ensures Walked(segs, next, count, root, visited, gs, result) && circles == |gs|
    ensures Stacked(segs, next, root, visited, gs, stack) && (|stack| > 0 ==> |gs| < count)
    ensures 0 <= Measure(segs, visited, stack) < Measure(segs, visited0, stack0)
  {
    gs, result, stack, circles := gs0, result0, stack0, circles0;
    var top := stack[|stack| - 1];
    MarkTop(segs, next, count, root, visited0, gs, result, stack);
    visited := visited0[segs[top].id := true];
    if |next[top]| == 0 || |stack| == PerCircle {
      result, gs, circles := Close(segs, next, count, root, visited, gs, result, stack, circles);
      stack := [];
    } else {
      var k := FirstUnvisited(segs, next[top], visited);
      if k < |next[top]| {
        var j := next[top][k];
        PushNode(segs, next, root, visited, gs, stack, j);
        stack := stack + [j];
      } else {
        PopNode(segs, next, root, visited, gs, stack);
        stack := stack[..|stack| - 1];
      }
    }
  }

  /** The `while (stack_size > 0)` loop from one root: it ends as `WalkF`
      says, with an empty stack or `count` circles. */
  method Walk(segs: seq<Segment>, next: seq<seq<int>>, count: int, root: Root, visited0: seq<bool>,
              gs0: seq<seq<int>>, result0: seq<Segment>, stack0: seq<int>, circles0: int)
    returns (visited: seq<bool>, gs: seq<seq<int>>, result: seq<Segment>, stack: seq<int>, circles: int)
    requires Walked(segs, next, count, root, visited0, gs0, result0) && circles0 == |gs0| < count
    requires Stacked(segs, next, root, visited0, gs0, stack0) && |stack0| == 1
    ensures Walker(visited, gs, stack) == WalkF(segs, next, count, WalkFuel(segs), Walker(visited0, gs0, stack0))
    ensures Walked(segs, next, count, root, visited, gs, result) && circles == |gs|
    ensures |stack| == 0 || circles >= count
  {
    visited, gs, result, stack, circles := visited0, gs0, result0, stack0, circles0;
    ghost var fuel: nat := WalkFuel(segs);
    UnvisitedBound(visited);
    MarkOne(visited, segs[stack[0]].id);
    ghost var trace := Trace(segs, next, count, fuel, Walker(visited, gs, stack));
    TraceEnds(segs, next, count, fuel, Walker(visited, gs, stack));
    ghost var k: nat := 0;
    while |stack| > 0
      invariant Walked(segs, next, count, root, visited, gs, result) && circles == |gs|
      invariant Stacked(segs, next, root, visited, gs, stack)
      invariant |stack| > 0 ==> |gs| < count
      invariant 0 <= Measure(segs, visited, stack) < fuel - k
      invariant k < |trace| && trace[k] == Walker(visited, gs, stack)
      decreases Measure(segs, visited, stack)
    {
      if circles >= count {
        break;
      }
      TraceStep(segs, next, count, fuel, Walker(visited0, gs0, stack0), k);
      visited, gs, result, stack, circles := Step(segs, next, count, root, visited, gs, result, stack, circles);
      k := k + 1;
    }
    if k + 1 < |trace| {
      TraceStep(segs, next, count, fuel, Walker(visited0, gs0, stack0), k);
    }
  }

  /** A root the outer loop pushes: unvisited by its test, so, when the
      test is by id or the ids are the positions, in no group yet. */
  lemma Rooted(segs: seq<Segment>, next: seq<seq<int>>, count: int, root: Root,
               visited: seq<bool>, gs: seq<seq<int>>, result: seq<Segment>, i: int)
    requires Walked(segs, next, count, root, visited, gs, result) && 0 <= i < |segs|
    requires RootFresh(segs, visited, root, i)
    ensures Stacked(segs, next, root, visited, gs, [i])
  {
    if root.ByPosition? && Positional(segs) {
      assert segs[i].id == i;
    }
  }

  /** The depth-first walk of `createCircle` over node lists `next`: it
      returns the groups `DfsF` gives and their probes.  Every group is a
      chain of four or a padding, there are at most `count` of them, and
      when the root test agrees with the id test no node is in two. */
  method Dfs(segs: seq<Segment>, next: seq<seq<int>>, count: int, root: Root)
    returns (result: seq<Segment>, gs: seq<seq<int>>)
    requires IdsInRange(segs) && Graph(next, |segs|)
    ensures gs == DfsAll(segs, next, count, root)
    ensures AllInRange(gs, |segs|) && result == Emit(segs, gs)
    ensures forall g :: 0 <= g < |gs| ==> Chain(segs, next, gs[g]) || Padding(segs, next, gs[g])
    ensures |gs| == 0 || |gs| <= count
    ensures Keyed(segs, root) ==> Disjoint(gs)
  {
    var n := |segs|;
    var visited := seq(n, _ => false);
    var stack: seq<int> := [];
    var circles := 0;
    result, gs := [], [];
    var i := 0;
    while i < n
      invariant 0 <= i <= n
      invariant Walked(segs, next, count, root, visited, gs, result) && circles == |gs|
      invariant |stack| > 0 ==> circles >= count
      invariant DfsAll(segs, next, count, root) == DfsF(segs, next, count, root, i, visited, gs)
    {
      if !RootFresh(segs, visited, root, i) {
        DfsSkip(segs, next, count, root, i, visited, gs);
        i := i + 1;
        continue;
      }
      if circles >= count {
        break;
      }
      Rooted(segs, next, count, root, visited, gs, result, i);
      ghost var visited0, gs0 := visited, gs;
      stack := [i];
      visited, gs, result, stack, circles := Walk(segs, next, count, root, visited, gs, result, stack, circles);
      DfsRoot(segs, next, count, root, i, visited0, gs0, Walker(visited, gs, stack));
      i := i + 1;
    }
  }

  /** A probe with only its id set. */
  function Probe(id: int): Segment
  {
    Segments.Segment(id, "", 0, 0, [], 0, 0.0)
  }

  /** Three probes with ids 0, 2, 1, an order the sort by `vaild` can
      leave behind, and one edge, from node 0 to node 1. */
  function Shuffled(): seq<Segment>
  {
    [Probe(0), Probe(2), Probe(1)]
  }

  const OneEdge: seq<seq<int>> := [[1], [], []]

  /** The ids are in range and the edge joins two nodes. */
  lemma ShuffledGraph()
    ensures IdsInRange(Shuffled()) && Graph(OneEdge, 3) && !Positional(Shuffled())
  {
    assert Shuffled()[1].id != 1;
  }

  /** The walk from root 0 pushes node 1 and pads it, setting flags 0 and
      2, the two ids. */
  lemma FirstWalk()
    ensures WalkF(Shuffled(), OneEdge, 2, WalkFuel(Shuffled()), Walker([false, false, false], [], [0])) ==
      Walker([true, false, true], [[1, 1, 1, 1]], [])
  {
    var segs, next, g := Shuffled(), OneEdge, [1, 1, 1, 1];
    assert FirstFresh(segs, [1], [true, false, false], 0) == 0;
    assert StepF(segs, next, Walker([false, false, false], [], [0])) == Walker([true, false, false], [], [0, 1]);
    assert StepF(segs, next, Walker([true, false, false], [], [0, 1])) == Walker([true, false, true], [g], []);
    assert WalkF(segs, next, 2, 12, Walker([true, false, true], [g], [])) == Walker([true, false, true], [g], []);
  }

  /** A walk from a node without successors pads it and stops. */
  lemma PadWalk(visited: seq<bool>, g: seq<int>, i: int)
    requires visited == [true, false, true] && g == [1, 1, 1, 1] && (i == 1 || i == 2)
    ensures WalkF(Shuffled(), OneEdge, 2, WalkFuel(Shuffled()), Walker(visited, [g], [i])) ==
      Walker(visited[Shuffled()[i].id := true], [g, [i, i, i, i]], [])
  {
    var segs, next := Shuffled(), OneEdge;
    var v := visited[segs[i].id := true];
    assert StepF(segs, next, Walker(visited, [g], [i])) == Walker(v, [g, [i, i, i, i]], []);
  }

  /** As written: after the walk from root 0 the outer loop tests flag 1
      for node 1, finds it clear and pads node 1 again; node 2 is skipped
      because flag 2 is set.  The two groups share node 1. */
  lemma PositionTestRepeatsProbe()
    ensures IdsInRange(Shuffled()) && Graph(OneEdge, 3)
    ensures DfsAll(Shuffled(), OneEdge, 2, ByPosition) == [[1, 1, 1, 1], [1, 1, 1, 1]]
    ensures !Disjoint(DfsAll(Shuffled(), OneEdge, 2, ByPosition))
  {
    var segs, next := Shuffled(), OneEdge;
    var g := [1, 1, 1, 1];
    ShuffledGraph();
    FirstWalk();
    PadWalk([true, false, true], g, 1);
    assert DfsF(segs, next, 2, ByPosition, 1, [true, false, true], [g]) == [g, g];
    assert seq(3, _ => false) == [false, false, false];
    assert !Disjoint([g, g]) by {
      assert [g, g][0][0] == [g, g][1][0];
    }
  }

  /** Paddings of two different nodes share no node. */
  lemma PaddingsApart(x: int, y: int)
    requires x != y
    ensures Disjoint([[x, x, x, x], [y, y, y, y]])
  {
    var gs := [[x, x, x, x], [y, y, y, y]];
    forall g1, g2, k1, k2 | 0 <= g1 < g2 < |gs| && 0 <= k1 < |gs[g1]| && 0 <= k2 < |gs[g2]|
      ensures gs[g1][k1] != gs[g2][k2]
    {
      assert gs[g1][k1] == x && gs[g2][k2] == y;
    }
  }

  /** Corrected: with roots tested by id, the same input pads node 1 and then
      node 2, and no node is in two groups. */
  lemma IdTestKeepsGroupsApart()
    ensures IdsInRange(Shuffled()) && Graph(OneEdge, 3)
    ensures DfsAll(Shuffled(), OneEdge, 2, ById) == [[1, 1, 1, 1], [2, 2, 2, 2]]
    ensures Disjoint(DfsAll(Shuffled(), OneEdge, 2, ById))
  {
    var segs, next := Shuffled(), OneEdge;
    var g, h := [1, 1, 1, 1], [2, 2, 2, 2];
    ShuffledGraph();
    FirstWalk();
    PadWalk([true, false, true], g, 2);
    assert DfsF(segs, next, 2, ById, 2, [true, false, true], [g]) == [g, h];
    assert DfsF(segs, next, 2, ById, 1, [true, false, true], [g]) == [g, h];
    assert seq(3, _ => false) == [false, false, false];
    PaddingsApart(1, 2);
  }

  /** A circle over the matrix `m`: four probes joined one to the next
      with distinct ids, or one probe with no join at all, four times. */
  predicate Circle(segs: seq<Segment>, m: seq<seq<bool>>, g: seq<int>)
    requires IdsInRange(segs) && Matrix(segs, m) && InRange(g, |segs|)
  {
    |g| == PerCircle &&
    (((forall k :: 0 <= k < |g| - 1 ==> Edge(segs, m, g[k], g[k + 1])) &&
      (forall a, b :: 0 <= a < b < |g| ==> segs[g[a]].id != segs[g[b]].id)) ||
     ((forall k :: 0 <= k < |g| ==> g[k] == g[0]) &&
      (forall j :: 0 <= j < |segs| ==> !Edge(segs, m, g[0], j))))
  }

  /** Over the adjacency lists of `m`, chains and paddings are circles. */
  lemma GroupIsCircle(segs: seq<Segment>, m: seq<seq<bool>>, g: seq<int>)
    requires IdsInRange(segs) && Matrix(segs, m) && InRange(g, |segs|)
    requires Graph(Adjacency(segs, m), |segs|)
    requires Chain(segs, Adjacency(segs, m), g) || Padding(segs, Adjacency(segs, m), g)
    ensures Circle(segs, m, g)
  {
    forall i | 0 <= i < |segs| {
      SuccMeans(segs, m, i, |segs|);
    }
  }

  /** The circle array holds four probes per group. */
  lemma {:induction false} EmitLength(segs: seq<Segment>, gs: seq<seq<int>>)
    requires AllInRange(gs, |segs|) && forall g :: 0 <= g < |gs| ==> |gs[g]| == PerCircle
    ensures |Emit(segs, gs)| == PerCircle * |gs|
  {
    if |gs| > 0 {
      EmitLength(segs, gs[..|gs| - 1]);
    }
  }

  /** The branch without a matrix: `count` groups of the next four probes
      in order, reading past the end when there are fewer than `4 * count`. */
  method Fallback(segs: seq<Segment>, count: int) returns (r: Segments.Outcome<seq<Segment>>)
    ensures count <= 0 ==> r == Segments.Done([])
    ensures 0 < count && PerCircle * count <= |segs| ==> r == Segments.Done(segs[..PerCircle * count])
    ensures PerCircle * count > |segs| ==> r == Segments.Undefined
  {
    var result: seq<Segment> := [];
    var offset := 0;
    var i := 0;
    while i < count
      invariant 0 <= i <= (if count > 0 then count else 0)
      invariant offset == PerCircle * i <= |segs| && result == segs[..offset]
    {
      var j := 0;
      while j < PerCircle
        invariant 0 <= j <= PerCircle && offset == PerCircle * i + j <= |segs| && result == segs[..offset]
      {
        if offset >= |segs| {
          return Segments.Undefined;
        }
        result := result + [segs[offset]];
        offset := offset + 1;
        j := j + 1;
      }
      i := i + 1;
    }
    return Segments.Done(result);
  }

  /** What `createCircle` ends with: the circle array, a read past the
      probes in the branch without a matrix, or the exit of `dmalloc`
      (`malloc failed`) when `arrayNew` cannot get its buffer. */
  datatype Created = Circles(probes: seq<Segment>) | ReadPast | AllocExit

  /** An `int` converted to `size_t`: a negative value wraps to 2^64 plus it. */
  function SizeT(v: int): (r: nat)
    requires 0 < v + Alloc.U64 && v < Alloc.U64
    ensures r % Alloc.U64 == v % Alloc.U64
  {
    if v < 0 then v + Alloc.U64 else v
  }

  /** The bytes `arrayNew(count * KMER_PER_CIRCLE)` asks `dmalloc` for:
      `sizeof(void*)` times the capacity as a `size_t`, modulo 2^64. */
  function ArrayBytes(count: int): nat
    requires -0x8000_0000 <= count < 0x8000_0000
  {
    (8 * SizeT(PerCircle * count)) % Alloc.U64
  }

  /** A negative count asks for 2^64 - 32 * |count| bytes, at least 2^63,
      which no `malloc` gives: `dmalloc` exits. */
  lemma NegativeCountOversized(count: int)
    requires -0x8000_0000 <= count < 0
    ensures ArrayBytes(count) == Alloc.U64 + 32 * count >= Alloc.U64 / 2
  {
    var a: nat := Alloc.U64 + 32 * count;
    assert 8 * SizeT(PerCircle * count) == a + 7 * Alloc.U64;
    Alloc.ModBelow(a, Alloc.U64, 7);
  }

  /** `createCircle`: `arrayNew(count * 4)` first, which exits for a
      negative count; then, over a join matrix, the circles the walk finds,
      and without one the first `4 * count` probes. */
  method CreateCircle(segs: seq<Segment>, pair: Arrays.Option<seq<seq<bool>>>, count: int, root: Root)
    returns (r: Created, gs: seq<seq<int>>)
    requires -0x8000_0000 <= count < 0x8000_0000
    requires pair.Some? ==> IdsInRange(segs) && Matrix(segs, pair.value)
    ensures count < 0 <==> r == AllocExit
    ensures 0 <= count && pair.None? && PerCircle * count <= |segs| ==> r == Circles(segs[..PerCircle * count])
    ensures 0 <= count && pair.None? && PerCircle * count > |segs| ==> r == ReadPast
    ensures 0 <= count && pair.Some? ==>
      AllInRange(gs, |segs|) && r == Circles(Emit(segs, gs)) &&
      Graph(Adjacency(segs, pair.value), |segs|) && gs == DfsAll(segs, Adjacency(segs, pair.value), count, root) &&
      |r.probes| == PerCircle * |gs| && |gs| <= count &&
      (forall g :: 0 <= g < |gs| ==> Circle(segs, pair.value, gs[g])) &&
      (Keyed(segs, root) ==> Disjoint(gs))
  {
    gs := [];
    if count < 0 {
      NegativeCountOversized(count);
      r := AllocExit;
      return;
    }
    if pair.Some? {
      var next := BuildAdjacency(segs, pair.value);
      AdjacencyGraph(segs, pair.value);
      var result;
      result, gs := Dfs(segs, next, count, root);
      forall g | 0 <= g < |gs| ensures Circle(segs, pair.value, gs[g]) && |gs[g]| == PerCircle
      {
        GroupIsCircle(segs, pair.value, gs[g]);
      }
      EmitLength(segs, gs);
      r := Circles(result);
    } else {
      var o := Fallback(segs, count);
      r := if o.Done? then Circles(o.value) else ReadPast;
    }
  }
}
