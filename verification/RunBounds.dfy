/** Cycles of blocks. Calls of inferred leaves end exactly when no inferred leaf has a cycle of blocks
    that can be reached; and one call of another function, leaving aside the calls it makes, comes to a
    poll exactly when no such cycle is free of polls. The passes themselves look at the back edges of
    natural loops only. */
module RunBounds {
  import opened Collections
  import opened ControlFlow
  import opened GCPasses
  import opened GCRuns

  /** No block that can be reached can be come back to. */
  ghost predicate Acyclic(f: Function) {
    forall path :: Path(f, path) && ReachableBlock(f, path[0]) && |path| > 1 ==> path[0] != path[|path| - 1]
  }

  // ----- Without cycles the blocks can be numbered -----

  lemma PartOfPath(f: Function, path: seq<nat>, i: nat, j: nat)
    requires Path(f, path) && i < j <= |path|
    ensures Path(f, path[i..j])
  {
    var part := path[i..j];
    forall k | 0 <= k < |part| - 1
      ensures Edge(f, part[k], part[k + 1])
    {
      assert Edge(f, path[i + k], path[i + k + 1]);
    }
  }

  lemma LongerPath(f: Function, path: seq<nat>, b: nat)
    requires Path(f, path) && Edge(f, path[|path| - 1], b)
    ensures Path(f, path + [b])
  {
    var longer := path + [b];
    forall k | 0 <= k < |longer| - 1
      ensures Edge(f, longer[k], longer[k + 1])
    {
      assert k < |path| - 1 ==> Edge(f, path[k], path[k + 1]);
    }
  }

  lemma {:induction false} NoRepeatsIsShort(path: seq<nat>, n: nat)
    requires (forall i :: 0 <= i < |path| ==> path[i] < n) && forall i, j :: 0 <= i < j < |path| ==> path[i] != path[j]
    ensures |path| <= n
  {
    assert forall k :: 0 <= k < |path| ==> path[k] !in path[..k];
    DistinctSize(path);
    RangeSize(0, n);
    SubsetSize(Elements(path), Range(0, n));
  }

  lemma AcyclicIsShort(f: Function, path: seq<nat>)
    requires Acyclic(f) && Path(f, path) && ReachableBlock(f, path[0])
    ensures |path| <= |f.blocks|
  {
    forall i, j | 0 <= i < j < |path|
      ensures path[i] != path[j]
    {
      PartOfPath(f, path, i, j + 1);
      ReachableAlong(f, path, i);
      var part := path[i..j + 1];
      assert part[0] == path[i] && part[|part| - 1] == path[j];
    }
    assert forall i :: 0 <= i < |path| ==> IsBlock(f, path[i]);
    NoRepeatsIsShort(path, |f.blocks|);
  }

  /** A path of n blocks leads to b. */
  ghost predicate Leads(f: Function, b: nat, n: nat) {
    exists path :: Path(f, path) && ReachableBlock(f, path[0]) && path[|path| - 1] == b && |path| == n
  }

  /** The most blocks, up to k, that a path to b can have. */
  ghost function Height(f: Function, b: nat, k: nat): (h: nat)
    ensures h <= k
  {
    if k == 0 then 0 else if Leads(f, b, k) then k else Height(f, b, k - 1)
  }

  lemma {:induction false} HeightIsGreatest(f: Function, b: nat, k: nat)
    ensures Height(f, b, k) > 0 ==> Leads(f, b, Height(f, b, k))
    ensures forall n: nat :: n <= k && Leads(f, b, n) ==> n <= Height(f, b, k)
  {
    if k != 0 { HeightIsGreatest(f, b, k - 1); }
  }

  ghost function Numbering(f: Function): (r: seq<nat>)
    ensures |r| == |f.blocks|
    ensures forall b :: 0 <= b < |r| ==> r[b] == if Height(f, b, |f.blocks|) > 0 then Height(f, b, |f.blocks|) - 1 else 0
  {
    seq(|f.blocks|, b requires 0 <= b < |f.blocks| => if Height(f, b, |f.blocks|) > 0 then Height(f, b, |f.blocks|) - 1 else 0)
  }

  lemma EdgeGoesUp(f: Function, a: nat, b: nat)
    requires Acyclic(f) && ReachableBlock(f, a) && Edge(f, a, b)
    ensures Numbering(f)[a] < Numbering(f)[b]
  {
    var count := |f.blocks|;
    HeightIsGreatest(f, a, count);
    HeightIsGreatest(f, b, count);
    assert Path(f, [a]) && [a][0] == a;
    AcyclicIsShort(f, [a]);
    assert Leads(f, a, 1);
    var path :| Path(f, path) && ReachableBlock(f, path[0]) && path[|path| - 1] == a && |path| == Height(f, a, count);
    LongerPath(f, path, b);
    AcyclicIsShort(f, path + [b]);
    assert Leads(f, b, |path + [b]|);
  }

  lemma NoBackEdge(f: Function, a: nat, b: nat)
    requires Acyclic(f)
    ensures !BackEdge(f, a, b)
  {
    if BackEdge(f, a, b) {
      var path :| Path(f, path) && path[0] == 0 && path[|path| - 1] == a;
      assert b in path;
      var i :| 0 <= i < |path| && path[i] == b;
      PartOfPath(f, path, i, |path|);
      ReachableFirst(f, path);
      ReachableAlong(f, path, i);
      var round := path[i..] + [b];
      assert path[i..|path|] == path[i..] && path[i..][|path| - i - 1] == a;
      LongerPath(f, path[i..], b);
      assert false;
    }
  }

  lemma ReachableFirst(f: Function, path: seq<nat>)
    requires Path(f, path) && path[0] == 0
    ensures ReachableBlock(f, 0)
  {
    assert Path(f, [0]) && [0][0] == 0;
  }

  /** A leaf without reachable cycles has the structure that bounds its runs. */
  lemma AcyclicIsReducible(f: Function)
    requires Acyclic(f) && f.latches == {}
    ensures LoopsKnown(f) && Reducible(f, Numbering(f))
  {
    forall a: nat, b: nat
      ensures !BackEdge(f, a, b)
    {
      NoBackEdge(f, a, b);
    }
    hide BackEdge;
    forall a: nat, b: nat | ReachableBlock(f, a) && Edge(f, a, b)
      ensures Numbering(f)[a] < Numbering(f)[b]
    {
      EdgeGoesUp(f, a, b);
    }
  }

  // ----- With a cycle there are runs of any length -----

  ghost predicate IsRun(functions: seq<Function>, order: seq<nat>, run: seq<seq<Frame>>) {
    run != [] && forall k :: 0 <= k < |run| - 1 ==> Step(functions, order, run[k], run[k + 1])
  }

  /** n steps lead from one stack to the other. */
  ghost predicate Reaches(functions: seq<Function>, order: seq<nat>, from: seq<Frame>, to: seq<Frame>, n: nat) {
    exists run :: IsRun(functions, order, run) && run[0] == from && run[|run| - 1] == to && |run| == n + 1
  }

  lemma ReachesOne(functions: seq<Function>, order: seq<nat>, from: seq<Frame>, to: seq<Frame>)
    requires Step(functions, order, from, to)
    ensures Reaches(functions, order, from, to, 1)
  {
    var run := [from, to];
    assert IsRun(functions, order, run);
  }

  lemma ReachesNone(functions: seq<Function>, order: seq<nat>, stack: seq<Frame>)
    ensures Reaches(functions, order, stack, stack, 0)
  {
    assert IsRun(functions, order, [stack]);
  }

  lemma ReachesOn(functions: seq<Function>, order: seq<nat>, a: seq<Frame>, b: seq<Frame>, c: seq<Frame>, n: nat, m: nat)
    requires Reaches(functions, order, a, b, n) && Reaches(functions, order, b, c, m)
    ensures Reaches(functions, order, a, c, n + m)
  {
    hide Step;
    var first :| IsRun(functions, order, first) && first[0] == a && first[|first| - 1] == b && |first| == n + 1;
    var second :| IsRun(functions, order, second) && second[0] == b && second[|second| - 1] == c && |second| == m + 1;
    var run := first + second[1..];
    forall k | 0 <= k < |run| - 1
      ensures Step(functions, order, run[k], run[k + 1])
    {
      if k < n {
        assert Step(functions, order, first[k], first[k + 1]);
      } else {
        assert Step(functions, order, second[k - n], second[k - n + 1]);
        assert run[k] == second[k - n] && run[k + 1] == second[k - n + 1];
      }
    }
    assert run[|run| - 1] == c;
  }

  /** What is known of the inferred leaves. */
  ghost predicate AreLeaves(functions: seq<Function>, trusted: set<nat>, order: seq<nat>) {
    Inferred(functions, trusted, order) && Trusted(functions) <= trusted && forall f :: f in order ==> f < |functions| && functions[f].blocks != []
  }

  /** An inferred leaf that a leaf calls comes earlier in the order. */
  lemma CalleeIsEarlier(functions: seq<Function>, trusted: set<nat>, order: seq<nat>, f: nat, b: nat, i: nat)
    requires AreLeaves(functions, trusted, order) && f in order && IsBlock(functions[f], b) && i < |functions[f].blocks[b].code|
    requires functions[f].blocks[b].code[i].DirectCall? && functions[f].blocks[b].code[i].callee in order
    ensures Rank(order, functions[f].blocks[b].code[i].callee) < Rank(order, f)
  {
    var k := Rank(order, f);
    var instr := functions[f].blocks[b].code[i];
    assert MayBeLeaf(functions, order[k], trusted + Elements(order[..k]));
    assert CallIsHarmless(functions, instr, trusted + Elements(order[..k]));
    var j := Rank(order, instr.callee);
    assert order[j] !in trusted && !functions[order[j]].isIntrinsic by { assert MayBeLeaf(functions, order[j], trusted + Elements(order[..j])); }
    assert instr.callee in order[..k];
    EarlierRank(order, instr.callee, k);
  }

  lemma PushStep(functions: seq<Function>, order: seq<nat>, rest: seq<Frame>, top: Frame)
    requires top.f < |functions| && IsBlock(functions[top.f], top.b) && top.i < |functions[top.f].blocks[top.b].code|
    ensures var instr := functions[top.f].blocks[top.b].code[top.i];
      Step(functions, order, rest + [top],
           rest + [top.(i := top.i + 1)] + if instr.DirectCall? && instr.callee in order then [Frame(instr.callee, 0, 0)] else [])
  {
    var stack := rest + [top];
    var instr := functions[top.f].blocks[top.b].code[top.i];
    assert stack[|stack| - 1] == top && stack[..|stack| - 1] == rest;
    if instr.DirectCall? {
      assert rest + [top.(i := top.i + 1)] + [Frame(instr.callee, 0, 0)] == rest + [top.(i := top.i + 1), Frame(instr.callee, 0, 0)];
    }
  }

  lemma LeaveStep(functions: seq<Function>, order: seq<nat>, rest: seq<Frame>, top: Frame)
    requires top.f < |functions| && IsBlock(functions[top.f], top.b) && top.i == |functions[top.f].blocks[top.b].code|
    ensures IsExit(functions[top.f], top.b) ==> Step(functions, order, rest + [top], rest)
    ensures forall b: nat :: Edge(functions[top.f], top.b, b) ==> Step(functions, order, rest + [top], rest + [Frame(top.f, b, 0)])
  {
    var stack := rest + [top];
    assert stack[|stack| - 1] == top && stack[..|stack| - 1] == rest;
    hide IsExit;
  }

  /** The leaves up to a rank have no reachable cycles. */
  ghost predicate AcyclicBelow(functions: seq<Function>, order: seq<nat>, rank: nat) {
    forall g :: g in order && g < |functions| && Rank(order, g) < rank ==> Acyclic(functions[g])
  }

  lemma OneStepMore(functions: seq<Function>, order: seq<nat>, a: seq<Frame>, b: seq<Frame>, c: seq<Frame>, n: nat)
    requires Step(functions, order, a, b) && Reaches(functions, order, b, c, n)
    ensures Reaches(functions, order, a, c, n + 1)
  {
    hide Step, Reaches;
    ReachesOne(functions, order, a, b);
    ReachesOn(functions, order, a, b, c, 1, n);
  }

  lemma NumberedBlocks(f: Function, b: nat)
    requires Acyclic(f) && ReachableBlock(f, b) && IsBlock(f, b)
    ensures |Numbering(f)| == |f.blocks| && Numbering(f)[b] < |f.blocks|
  {
  }

  lemma BelowIsAcyclic(functions: seq<Function>, order: seq<nat>, f: nat, rank: nat)
    requires AcyclicBelow(functions, order, rank) && f in order && f < |functions| && Rank(order, f) < rank
    ensures Acyclic(functions[f]) && AcyclicBelow(functions, order, Rank(order, f)) && AcyclicBelow(functions, order, Rank(order, f) + 1)
  {
    hide Acyclic;
  }

  /** A leaf without cycles whose callees have none returns, whatever block it is in. */
  lemma {:induction false} ReturnsFrom(functions: seq<Function>, trusted: set<nat>, order: seq<nat>, rest: seq<Frame>, f: nat, b: nat) returns (n: nat)
    requires AreLeaves(functions, trusted, order) && f in order && f < |functions| && AcyclicBelow(functions, order, Rank(order, f) + 1)
    requires IsBlock(functions[f], b) && ReachableBlock(functions[f], b)
    ensures Reaches(functions, order, rest + [Frame(f, b, 0)], rest, n)
    decreases Rank(order, f), 1 + |functions[f].blocks| - Numbering(functions[f])[b], 0
  {
    hide Step, Reaches, Acyclic, ReachableBlock, Numbering, AcyclicBelow, AreLeaves;
    BelowIsAcyclic(functions, order, f, Rank(order, f) + 1);
    NumberedBlocks(functions[f], b);
    var code, stack := functions[f].blocks[b].code, rest + [Frame(f, b, 0)];
    var done := rest + [Frame(f, b, |code|)];
    var through := FinishBlock(functions, trusted, order, rest, f, b, 0);
    LeaveStep(functions, order, rest, Frame(f, b, |code|));
    if IsExit(functions[f], b) {
      ReachesOne(functions, order, done, rest);
      ReachesOn(functions, order, stack, done, rest, through, 1);
      n := through + 1;
    } else {
      var c: nat :| Edge(functions[f], b, c);
      EdgeGoesUp(functions[f], b, c);
      ReachableNext(functions[f], b, c);
      NumberedBlocks(functions[f], c);
      var m := ReturnsFrom(functions, trusted, order, rest, f, c);
      OneStepMore(functions, order, done, rest + [Frame(f, c, 0)], rest, m);
      ReachesOn(functions, order, stack, done, rest, through, m + 1);
      n := through + m + 1;
    }
  }

  lemma EntryIsReachable(f: Function)
    requires f.blocks != []
    ensures ReachableBlock(f, 0)
  {
    assert Path(f, [0]) && [0][0] == 0;
  }

  /** A leaf whose callees have no cycles gets to the end of any block it is in. */
  lemma {:induction false} FinishBlock(functions: seq<Function>, trusted: set<nat>, order: seq<nat>, rest: seq<Frame>, f: nat, b: nat, i: nat)
    returns (n: nat)
    requires AreLeaves(functions, trusted, order) && f in order && f < |functions| && AcyclicBelow(functions, order, Rank(order, f))
    requires IsBlock(functions[f], b) && i <= |functions[f].blocks[b].code|
    ensures Reaches(functions, order, rest + [Frame(f, b, i)], rest + [Frame(f, b, |functions[f].blocks[b].code|)], n)
    decreases Rank(order, f), 0, |functions[f].blocks[b].code| - i
  {
    hide Step, Reaches, Inferred, Acyclic, AcyclicBelow;
    var code := functions[f].blocks[b].code;
    var stack, last := rest + [Frame(f, b, i)], rest + [Frame(f, b, |code|)];
    if i == |code| {
      ReachesNone(functions, order, stack);
      n := 0;
    } else {
      PushStep(functions, order, rest, Frame(f, b, i));
      var next := rest + [Frame(f, b, i + 1)];
      var m := FinishBlock(functions, trusted, order, rest, f, b, i + 1);
      if code[i].DirectCall? && code[i].callee in order {
        CalleeIsEarlier(functions, trusted, order, f, b, i);
        EntryIsReachable(functions[code[i].callee]);
        BelowIsAcyclic(functions, order, code[i].callee, Rank(order, f));
        var called := ReturnsFrom(functions, trusted, order, next, code[i].callee, 0);
        ReachesOn(functions, order, next + [Frame(code[i].callee, 0, 0)], next, last, called, m);
        OneStepMore(functions, order, stack, next + [Frame(code[i].callee, 0, 0)], last, called + m);
        n := called + m + 1;
      } else {
        assert next + [] == next;
        OneStepMore(functions, order, stack, next, last, m);
        n := m + 1;
      }
    }
  }

  /** It can follow any path of its blocks. */
  lemma {:induction false} FollowPath(functions: seq<Function>, trusted: set<nat>, order: seq<nat>, f: nat, path: seq<nat>) returns (n: nat)
    requires AreLeaves(functions, trusted, order) && f in order && f < |functions| && Path(functions[f], path)
    requires AcyclicBelow(functions, order, Rank(order, f))
    ensures Reaches(functions, order, [Frame(f, path[0], 0)], [Frame(f, path[|path| - 1], 0)], n) && n >= |path| - 1
    decreases |path|
  {
    hide Step, Reaches, AreLeaves, AcyclicBelow;
    var start := [Frame(f, path[0], 0)];
    if |path| == 1 {
      ReachesNone(functions, order, start);
      n := 0;
    } else {
      var front, a, b := path[..|path| - 1], path[|path| - 2], path[|path| - 1];
      PartOfPath(functions[f], path, 0, |path| - 1);
      assert Edge(functions[f], path[|path| - 2], path[|path| - 2 + 1]);
      var before := FollowPath(functions, trusted, order, f, front);
      var through := FinishBlock(functions, trusted, order, [], f, a, 0);
      var done := Frame(f, a, |functions[f].blocks[a].code|);
      LeaveStep(functions, order, [], done);
      assert [] + [done] == [done] && [] + [Frame(f, a, 0)] == [Frame(f, a, 0)] && [] + [Frame(f, b, 0)] == [Frame(f, b, 0)];
      ReachesOne(functions, order, [done], [Frame(f, b, 0)]);
      ReachesOn(functions, order, start, [Frame(f, a, 0)], [done], before, through);
      ReachesOn(functions, order, start, [done], [Frame(f, b, 0)], before + through, 1);
      n := before + through + 1;
    }
  }

  lemma {:induction false} GoRound(functions: seq<Function>, order: seq<nat>, stack: seq<Frame>, steps: nat, rounds: nat) returns (n: nat)
    requires steps > 0 && Reaches(functions, order, stack, stack, steps)
    ensures Reaches(functions, order, stack, stack, n) && n >= rounds
    decreases rounds
  {
    hide Reaches;
    if rounds == 0 {
      ReachesNone(functions, order, stack);
      n := 0;
    } else {
      var before := GoRound(functions, order, stack, steps, rounds - 1);
      ReachesOn(functions, order, stack, stack, stack, before, steps);
      n := before + steps;
    }
  }

  lemma CyclicRunsOn(functions: seq<Function>, trusted: set<nat>, order: seq<nat>, f: nat, bound: nat) returns (run: seq<seq<Frame>>)
    requires AreLeaves(functions, trusted, order) && f in order && f < |functions| && !Acyclic(functions[f])
    requires AcyclicBelow(functions, order, Rank(order, f))
    ensures LeafRun(functions, order, run, f) && |run| > bound
  {
    var round :| Path(functions[f], round) && ReachableBlock(functions[f], round[0]) && |round| > 1 && round[0] == round[|round| - 1];
    var path :| Path(functions[f], path) && path[0] == 0 && path[|path| - 1] == round[0];
    hide AreLeaves, Step, Path, AcyclicBelow;
    var before := FollowPath(functions, trusted, order, f, path);
    var steps := FollowPath(functions, trusted, order, f, round);
    var stack := [Frame(f, round[0], 0)];
    var rounds := GoRound(functions, order, stack, steps, bound);
    ReachesOn(functions, order, [Frame(f, 0, 0)], stack, stack, before, rounds);
    run :| IsRun(functions, order, run) && run[0] == [Frame(f, 0, 0)] && run[|run| - 1] == stack && |run| == before + rounds + 1;
  }

  /** If some leaf has a cycle, one has whose callees have none. */
  lemma {:induction false} FirstCyclic(functions: seq<Function>, order: seq<nat>, k: nat) returns (f: nat)
    requires k <= |order| && forall g :: g in order ==> g < |functions|
    requires exists g :: g in order && Rank(order, g) < k && !Acyclic(functions[g])
    ensures f in order && !Acyclic(functions[f]) && AcyclicBelow(functions, order, Rank(order, f))
    decreases k
  {
    hide Acyclic, Rank;
    if AcyclicBelow(functions, order, k - 1) {
      f :| f in order && Rank(order, f) < k && !Acyclic(functions[f]);
    } else {
      f := FirstCyclic(functions, order, k - 1);
    }
  }

  // ----- Together -----

  /** Some number bounds all runs of all inferred leaves. */
  ghost predicate RunsAreBounded(functions: seq<Function>, order: seq<nat>) {
    exists bound: nat :: Within(functions, order, bound)
  }

  ghost predicate Within(functions: seq<Function>, order: seq<nat>, bound: nat) {
    forall f: nat, run :: f in order && LeafRun(functions, order, run, f) ==> |run| <= bound
  }

  ghost function Width(blocks: seq<Block>): (w: nat)
    ensures w > 0 && forall b :: 0 <= b < |blocks| ==> |blocks[b].code| + 1 <= w
  {
    if blocks == [] then 1
    else
      var w, last := Width(blocks[..|blocks| - 1]), |blocks[|blocks| - 1].code| + 1;
      if last > w then last else w
  }

  lemma {:induction false} SizesOf(functions: seq<Function>) returns (width: nat, count: nat)
    ensures Sizes(functions, width, count) && width > 0 && count > 0
  {
    if functions == [] {
      width, count := 1, 1;
    } else {
      var last := functions[|functions| - 1];
      var w, c := SizesOf(functions[..|functions| - 1]);
      width := if Width(last.blocks) > w then Width(last.blocks) else w;
      count := if |last.blocks| > c then |last.blocks| else c;
      forall f | 0 <= f < |functions|
        ensures |functions[f].blocks| <= count && forall b :: 0 <= b < |functions[f].blocks| ==> |functions[f].blocks[b].code| + 1 <= width
      {
        assert f < |functions| - 1 ==> functions[..|functions| - 1][f] == functions[f];
      }
    }
  }

  lemma ShapeOfAcyclic(functions: seq<Function>, trusted: set<nat>, order: seq<nat>) returns (s: LeafShape)
    requires AreLeaves(functions, trusted, order) && forall f :: f in order ==> f < |functions| && Acyclic(functions[f])
    ensures ShapeOK(functions, trusted, s) && s.order == order
  {
    var width, count := SizesOf(functions);
    s := LeafShape(order, map f | f in order && f < |functions| :: Numbering(functions[f]), width, count);
    forall f | f in order
      ensures f < |functions| && LoopsKnown(functions[f]) && Reducible(functions[f], Numbering(functions[f]))
    {
      assert MayBeLeaf(functions, order[Rank(order, f)], trusted + Elements(order[..Rank(order, f)]));
      AcyclicIsReducible(functions[f]);
    }
    hide LoopsKnown, Reducible, Inferred, Acyclic;
  }

  lemma AcyclicIsBounded(functions: seq<Function>, trusted: set<nat>, order: seq<nat>)
    requires AreLeaves(functions, trusted, order) && forall f :: f in order ==> f < |functions| && Acyclic(functions[f])
    ensures RunsAreBounded(functions, order)
  {
    var s := ShapeOfAcyclic(functions, trusted, order);
    hide ShapeOK, Inferred, Acyclic, LeafRun, FrameOK, Harmless;
    var bound := FullCost(|order|, Span(s)) + 1;
    forall f: nat, run | f in order && LeafRun(functions, order, run, f)
      ensures |run| <= bound
    {
      LeafRunIsBounded(functions, trusted, s, run, f);
      SpanPositive(functions, trusted, s);
      CostMonotone(Rank(order, f), |order|, Span(s));
    }
    assert Within(functions, order, bound);
  }

  /** Calls of inferred leaves run for a bounded time iff no inferred leaf has a cycle of reachable blocks. */
  lemma LeafRunsAreBoundedIff(functions: seq<Function>, trusted: set<nat>, order: seq<nat>)
    requires AreLeaves(functions, trusted, order)
    ensures RunsAreBounded(functions, order) <==> forall f :: f in order ==> Acyclic(functions[f])
  {
    hide Acyclic, LeafRun, Inferred;
    if RunsAreBounded(functions, order) {
      var bound: nat :| Within(functions, order, bound);
      if exists f :: f in order && !Acyclic(functions[f]) {
        var f := FirstCyclic(functions, order, |order|);
        var run := CyclicRunsOn(functions, trusted, order, f, bound);
        assert false;
      }
    }
    if forall f :: f in order ==> Acyclic(functions[f]) {
      AcyclicIsBounded(functions, trusted, order);
    }
  }

  // ----- Functions under the collector -----

  /** A path through blocks that do not poll; only its last block may. */
  ghost predicate PollFree(f: Function, poll: nat, path: seq<nat>) {
    Path(f, path) && ReachableBlock(f, path[0]) && forall k :: 0 <= k < |path| - 1 ==> HasNoPoll(f.blocks[path[k]].code, poll)
  }

  /** Every cycle of blocks that can be reached polls. */
  ghost predicate PollsBreakCycles(f: Function, poll: nat) {
    forall path :: PollFree(f, poll, path) && |path| > 1 ==> path[0] != path[|path| - 1]
  }

  ghost predicate PollFreeWithin(f: Function, poll: nat, bound: nat) {
    forall path :: PollFree(f, poll, path) ==> |path| <= bound
  }

  lemma PartIsPollFree(f: Function, poll: nat, path: seq<nat>, i: nat, j: nat)
    requires PollFree(f, poll, path) && i < j <= |path|
    ensures PollFree(f, poll, path[i..j])
  {
    PartOfPath(f, path, i, j);
    ReachableAlong(f, path, i);
    var part := path[i..j];
    hide HasNoPoll;
    assert forall k :: 0 <= k < |part| ==> part[k] == path[i + k];
  }

  lemma JoinIsPollFree(f: Function, poll: nat, first: seq<nat>, second: seq<nat>)
    requires PollFree(f, poll, first) && PollFree(f, poll, second) && first[|first| - 1] == second[0] && |first| > 1
    ensures PollFree(f, poll, first[..|first| - 1] + second)
  {
    hide HasNoPoll;
    var last, path := |first| - 1, first[..|first| - 1] + second;
    assert forall k :: last <= k < |path| ==> path[k] == second[k - last];
    forall k | 0 <= k < |path| - 1
      ensures Edge(f, path[k], path[k + 1]) && HasNoPoll(f.blocks[path[k]].code, poll)
    {
      if k < last {
        assert Edge(f, first[k], first[k + 1]) && path[k + 1] == first[k + 1];
      } else {
        assert Edge(f, second[k - last], second[k - last + 1]);
      }
    }
    assert path[0] == first[0];
  }

  lemma {:induction false} GoRoundBlocks(f: Function, poll: nat, round: seq<nat>, rounds: nat) returns (path: seq<nat>)
    requires PollFree(f, poll, round) && |round| > 1 && round[0] == round[|round| - 1]
    ensures PollFree(f, poll, path) && path[0] == round[0] && |path| > rounds
    decreases rounds
  {
    hide PollFree;
    if rounds == 0 {
      path := round;
    } else {
      var rest := GoRoundBlocks(f, poll, round, rounds - 1);
      JoinIsPollFree(f, poll, round, rest);
      path := round[..|round| - 1] + rest;
    }
  }

  lemma BrokenCyclesAreShort(f: Function, poll: nat, path: seq<nat>)
    requires PollsBreakCycles(f, poll) && PollFree(f, poll, path)
    ensures |path| <= |f.blocks|
  {
    forall i, j | 0 <= i < j < |path|
      ensures path[i] != path[j]
    {
      PartIsPollFree(f, poll, path, i, j + 1);
      var part := path[i..j + 1];
      assert part[0] == path[i] && part[|part| - 1] == path[j];
    }
    assert forall i :: 0 <= i < |path| ==> IsBlock(f, path[i]);
    NoRepeatsIsShort(path, |f.blocks|);
  }

  /** Within one function, the number of blocks on the way to the next poll is bounded iff every cycle of
      reachable blocks polls. What the calls in these blocks do is not counted. */
  lemma PollFreePathsAreBoundedIff(f: Function, poll: nat)
    ensures (exists bound: nat :: PollFreeWithin(f, poll, bound)) <==> PollsBreakCycles(f, poll)
  {
    hide PollFree;
    if bound: nat :| PollFreeWithin(f, poll, bound) {
      forall round | PollFree(f, poll, round) && |round| > 1
        ensures round[0] != round[|round| - 1]
      {
        if round[0] == round[|round| - 1] {
          var path := GoRoundBlocks(f, poll, round, bound);
          assert false;
        }
      }
    }
    if PollsBreakCycles(f, poll) {
      forall path | PollFree(f, poll, path)
        ensures |path| <= |f.blocks|
      {
        BrokenCyclesAreShort(f, poll, path);
      }
      assert PollFreeWithin(f, poll, |f.blocks|);
    }
  }

  /** On reducible control flow insertion breaks all cycles. */
  lemma InsertionBreaksCycles(f: Function, f': Function, poll: nat, allocators: set<nat>, order: seq<nat>)
    requires Polled(f, f', poll, allocators) && !f.isDeclaration && f.gc && f.blocks != [] && LoopsKnown(f) && Reducible(f, order)
    ensures PollsBreakCycles(f', poll)
  {
    hide Polled, LoopsKnown, Reducible, Path, ReachableBlock, HasNoPoll;
    forall path | PollFree(f', poll, path) && |path| > 1
      ensures path[0] != path[|path| - 1]
    {
      PollFreePathIsShort(f, f', poll, allocators, order, path);
    }
  }

  /** A loop with two entries has no latch, so the pass leaves it as it is, and it never polls. */
  lemma IrreducibleLoopNeverPolls(poll: nat, allocators: set<nat>)
    ensures var f := TwoEntries.(gc := true); LoopsKnown(f) && Polled(f, f, poll, allocators) && !PollsBreakCycles(f, poll)
  {
    var f := TwoEntries.(gc := true);
    SameGraph(TwoEntries, f);
    TwoEntriesIsInferred();
    hide BackEdge;
    assert Path(f, [0]) && Path(f, [0, 1]) && [0, 1][0] == 0;
    assert Path(f, [1, 2, 1]) && ReachableBlock(f, 1);
    assert PollFree(f, poll, [1, 2, 1]);
    assert LoopsKnown(f);
  }
}
