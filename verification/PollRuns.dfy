/** Runs from poll to poll across calls: they are bounded exactly when nothing leads back to the same
    point of a function without a poll, neither inside one call of it nor through a chain of calls. */
module PollRuns {
  import opened Collections
  import opened ControlFlow
  import opened GCPasses
  import opened GCRuns
  import opened RunBounds

  /** A program, the functions whose calls are entered, and the poll function. */
  datatype Program = Program(functions: seq<Function>, entered: seq<nat>, poll: nat)

  /** The entered functions are defined. */
  ghost predicate IsProgram(p: Program) {
    forall f :: f in p.entered ==> f < |p.functions| && p.functions[f].blocks != []
  }

  predicate IsAt(p: Program, x: Frame) {
    x.f in p.entered && x.f < |p.functions| && IsBlock(p.functions[x.f], x.b) && x.i <= |p.functions[x.f].blocks[x.b].code|
  }

  /** A point of an entered function that control can reach. */
  ghost predicate IsPoint(p: Program, x: Frame) {
    IsAt(p, x) && ReachableBlock(p.functions[x.f], x.b)
  }

  ghost predicate ArePoints(p: Program, stack: seq<Frame>) {
    forall k :: 0 <= k < |stack| ==> IsPoint(p, stack[k])
  }

  predicate HasInstr(p: Program, x: Frame) {
    IsAt(p, x) && x.i < |p.functions[x.f].blocks[x.b].code|
  }

  function InstrAt(p: Program, x: Frame): Instr
    requires HasInstr(p, x)
  {
    p.functions[x.f].blocks[x.b].code[x.i]
  }

  predicate AtPoll(p: Program, x: Frame) {
    HasInstr(p, x) && Polls(InstrAt(p, x), p.poll)
  }

  predicate AtCall(p: Program, x: Frame) {
    HasInstr(p, x) && InstrAt(p, x).DirectCall? && InstrAt(p, x).callee in p.entered
  }

  /** A step that runs no poll. */
  ghost predicate QuietStep(p: Program, stack: seq<Frame>, stack': seq<Frame>) {
    Step(p.functions, p.entered, stack, stack') && !AtPoll(p, stack[|stack| - 1])
  }

  ghost predicate QuietRun(p: Program, run: seq<seq<Frame>>) {
    run != [] && forall k :: 0 <= k < |run| - 1 ==> QuietStep(p, run[k], run[k + 1])
  }

  /** n quiet steps lead from one stack to the other. */
  ghost predicate Leads(p: Program, from: seq<Frame>, to: seq<Frame>, n: nat) {
    exists run :: QuietRun(p, run) && run[0] == from && run[|run| - 1] == to && |run| == n + 1
  }

  /** A call of g can return without a poll. */
  ghost predicate ReturnsQuietly(p: Program, g: nat) {
    exists n: nat :: Leads(p, [Frame(g, 0, 0)], [], n)
  }

  // ----- Where control goes without a poll -----

  /** To the next point of the same call; past a call only if that can return. */
  ghost predicate GoesOn(p: Program, x: Frame, y: Frame) {
    && IsPoint(p, x) && !AtPoll(p, x)
    && if HasInstr(p, x) then y == x.(i := x.i + 1) && (AtCall(p, x) ==> ReturnsQuietly(p, InstrAt(p, x).callee))
       else y == Frame(x.f, y.b, 0) && Edge(p.functions[x.f], x.b, y.b)
  }

  /** Into a called function. */
  ghost predicate GoesIn(p: Program, x: Frame, y: Frame) {
    IsPoint(p, x) && !AtPoll(p, x) && AtCall(p, x) && y == Frame(InstrAt(p, x).callee, 0, 0)
  }

  ghost predicate IsWalk(p: Program, walk: seq<Frame>) {
    walk != [] && IsPoint(p, walk[0]) && forall k :: 0 <= k < |walk| - 1 ==> GoesOn(p, walk[k], walk[k + 1]) || GoesIn(p, walk[k], walk[k + 1])
  }

  ghost predicate IsLocalWalk(p: Program, walk: seq<Frame>) {
    walk != [] && IsPoint(p, walk[0]) && forall k :: 0 <= k < |walk| - 1 ==> GoesOn(p, walk[k], walk[k + 1])
  }

  /** No loop without a poll: no call comes back to a point of its own. */
  ghost predicate NoQuietLoop(p: Program) {
    forall walk :: IsLocalWalk(p, walk) && |walk| > 1 ==> walk[0] != walk[|walk| - 1]
  }

  /** No recursion without a poll: no chain of calls leads from a function's entry to its entry. */
  ghost predicate NoQuietRecursion(p: Program) {
    forall walk: seq<Frame> :: IsWalk(p, walk) && |walk| > 1 && walk[0] == Frame(walk[0].f, 0, 0) ==> walk[0] != walk[|walk| - 1]
  }

  ghost predicate NoQuietCycle(p: Program) {
    forall walk :: IsWalk(p, walk) && |walk| > 1 ==> walk[0] != walk[|walk| - 1]
  }

  lemma NextIsPoint(p: Program, x: Frame, y: Frame)
    requires IsProgram(p) && (GoesOn(p, x, y) || GoesIn(p, x, y))
    ensures IsPoint(p, y)
  {
    if GoesIn(p, x, y) {
      EntryIsReachable(p.functions[y.f]);
    } else if !HasInstr(p, x) {
      ReachableNext(p.functions[x.f], x.b, y.b);
    }
    hide ReachableBlock, ReturnsQuietly;
  }

  lemma {:induction false} WalkPoints(p: Program, walk: seq<Frame>, k: nat)
    requires IsProgram(p) && IsWalk(p, walk) && k < |walk|
    ensures IsPoint(p, walk[k])
  {
    hide GoesOn, GoesIn, IsPoint, IsProgram;
    if k != 0 {
      assert GoesOn(p, walk[k - 1], walk[k - 1 + 1]) || GoesIn(p, walk[k - 1], walk[k - 1 + 1]);
      NextIsPoint(p, walk[k - 1], walk[k]);
    }
  }

  lemma PartOfWalk(p: Program, walk: seq<Frame>, i: nat, j: nat)
    requires IsProgram(p) && IsWalk(p, walk) && i < j <= |walk|
    ensures IsWalk(p, walk[i..j])
  {
    hide GoesOn, GoesIn, IsPoint, IsProgram;
    WalkPoints(p, walk, i);
    var part := walk[i..j];
    assert forall k :: 0 <= k < |part| ==> part[k] == walk[i + k];
    forall k | 0 <= k < |part| - 1
      ensures GoesOn(p, part[k], part[k + 1]) || GoesIn(p, part[k], part[k + 1])
    {
      assert GoesOn(p, walk[i + k], walk[i + k + 1]) || GoesIn(p, walk[i + k], walk[i + k + 1]);
    }
  }

  lemma JoinWalks(p: Program, first: seq<Frame>, second: seq<Frame>)
    requires IsWalk(p, first) && IsWalk(p, second) && first[|first| - 1] == second[0]
    ensures IsWalk(p, first + second[1..])
  {
    hide GoesOn, GoesIn, IsPoint;
    var walk, n := first + second[1..], |first| - 1;
    assert forall k :: n <= k < |walk| ==> walk[k] == second[k - n];
    forall k | 0 <= k < |walk| - 1
      ensures GoesOn(p, walk[k], walk[k + 1]) || GoesIn(p, walk[k], walk[k + 1])
    {
      if k < n {
        assert GoesOn(p, first[k], first[k + 1]) || GoesIn(p, first[k], first[k + 1]);
      } else {
        assert GoesOn(p, second[k - n], second[k - n + 1]) || GoesIn(p, second[k - n], second[k - n + 1]);
      }
    }
  }

  lemma EntryOfCall(p: Program, x: Frame, y: Frame)
    requires GoesIn(p, x, y)
    ensures y == Frame(y.f, 0, 0)
  {
  }

  /** The same cycle, begun at the entry of a function it calls. */
  lemma CycleFromEntry(p: Program, walk: seq<Frame>, k: nat) returns (round: seq<Frame>)
    requires IsProgram(p) && IsWalk(p, walk) && walk[0] == walk[|walk| - 1] && k < |walk| - 1 && GoesIn(p, walk[k], walk[k + 1])
    ensures IsWalk(p, round) && |round| > 1 && round[0] == Frame(round[0].f, 0, 0) && round[0] == round[|round| - 1]
  {
    hide GoesOn, GoesIn, IsPoint, IsProgram;
    EntryOfCall(p, walk[k], walk[k + 1]);
    var first, second := walk[k + 1..|walk|], walk[0..k + 2];
    PartOfWalk(p, walk, k + 1, |walk|);
    PartOfWalk(p, walk, 0, k + 2);
    JoinWalks(p, first, second);
    round := first + second[1..];
    assert round[|round| - 1] == walk[k + 1];
  }

  /** A cycle is a loop of one call, or goes through the entry of a called function. */
  lemma CyclesAreLoopsOrRecursion(p: Program)
    requires IsProgram(p) && NoQuietLoop(p) && NoQuietRecursion(p)
    ensures NoQuietCycle(p)
  {
    hide GoesOn, GoesIn, IsPoint, IsProgram;
    forall walk | IsWalk(p, walk) && |walk| > 1
      ensures walk[0] != walk[|walk| - 1]
    {
      if walk[0] == walk[|walk| - 1] && exists k :: 0 <= k < |walk| - 1 && GoesIn(p, walk[k], walk[k + 1]) {
        var k :| 0 <= k < |walk| - 1 && GoesIn(p, walk[k], walk[k + 1]);
        var round := CycleFromEntry(p, walk, k);
        assert false;
      }
    }
  }

  // ----- How far it is to the next poll -----

  /** All points of a program: finitely many. */
  ghost function Points(p: Program): set<Frame> {
    set f, b, i | 0 <= f < |p.functions| && 0 <= b < |p.functions[f].blocks| && 0 <= i <= |p.functions[f].blocks[b].code| :: Frame(f, b, i)
  }

  lemma {:induction false} NoRepeatsFit<T(!new)>(s: seq<T>, all: set<T>)
    requires (forall i :: 0 <= i < |s| ==> s[i] in all) && forall i, j :: 0 <= i < j < |s| ==> s[i] != s[j]
    ensures |s| <= |all|
    decreases |s|
  {
    if s != [] {
      var last := s[|s| - 1];
      NoRepeatsFit(s[..|s| - 1], all - {last});
    }
  }

  lemma WalkIsShort(p: Program, walk: seq<Frame>)
    requires IsProgram(p) && NoQuietCycle(p) && IsWalk(p, walk)
    ensures |walk| <= |Points(p)|
  {
    hide GoesOn, GoesIn, IsProgram, IsWalk;
    forall i | 0 <= i < |walk|
      ensures walk[i] in Points(p)
    {
      WalkPoints(p, walk, i);
    }
    hide IsPoint, Points;
    forall i, j | 0 <= i < j < |walk|
      ensures walk[i] != walk[j]
    {
      PartOfWalk(p, walk, i, j + 1);
      var part := walk[i..j + 1];
      assert part[0] == walk[i] && part[|part| - 1] == walk[j];
    }
    NoRepeatsFit(walk, Points(p));
  }

  /** A walk of n points starts here. */
  ghost predicate GoesFar(p: Program, x: Frame, n: nat) {
    exists walk :: IsWalk(p, walk) && walk[0] == x && |walk| == n
  }

  /** The most points, up to k, of a walk from here. */
  ghost function Distance(p: Program, x: Frame, k: nat): (d: nat)
    ensures d <= k
  {
    if k == 0 then 0 else if GoesFar(p, x, k) then k else Distance(p, x, k - 1)
  }

  lemma {:induction false} DistanceIsGreatest(p: Program, x: Frame, k: nat)
    ensures Distance(p, x, k) > 0 ==> GoesFar(p, x, Distance(p, x, k))
    ensures forall n: nat :: n <= k && GoesFar(p, x, n) ==> n <= Distance(p, x, k)
  {
    if k != 0 { DistanceIsGreatest(p, x, k - 1); }
  }

  ghost function Far(p: Program, x: Frame): nat {
    Distance(p, x, |Points(p)|)
  }

  lemma FarFalls(p: Program, x: Frame, y: Frame)
    requires IsProgram(p) && NoQuietCycle(p) && IsPoint(p, x) && (GoesOn(p, x, y) || GoesIn(p, x, y))
    ensures Far(p, y) < Far(p, x) && IsPoint(p, y)
  {
    NextIsPoint(p, x, y);
    hide GoesOn, GoesIn, IsPoint, IsProgram, NoQuietCycle, Points;
    var all := |Points(p)|;
    DistanceIsGreatest(p, x, all);
    DistanceIsGreatest(p, y, all);
    assert IsWalk(p, [y]);
    WalkIsShort(p, [y]);
    assert GoesFar(p, y, 1);
    var walk :| IsWalk(p, walk) && walk[0] == y && |walk| == Far(p, y);
    assert IsWalk(p, [x, y]);
    JoinWalks(p, [x, y], walk);
    var longer := [x, y] + walk[1..];
    WalkIsShort(p, longer);
    assert longer[0] == x && |longer| == Far(p, y) + 1;
    assert GoesFar(p, x, Far(p, y) + 1);
  }

  // ----- Runs on top of a stack -----

  /** The stack has more than base, on top of it. */
  predicate Over(stack: seq<Frame>, base: seq<Frame>) {
    |stack| > |base| && stack[..|base|] == base
  }

  /** The first k stacks of the run are on top of base, and the next is too or is base itself. */
  predicate StaysOver(run: seq<seq<Frame>>, base: seq<Frame>, k: nat) {
    k < |run| && (forall j :: 0 <= j < k ==> Over(run[j], base)) && (run[k] == base || Over(run[k], base))
  }

  lemma StepOver(p: Program, base: seq<Frame>, a: seq<Frame>, b: seq<Frame>)
    requires QuietStep(p, a, b) && Over(a, base) && (b == base || Over(b, base))
    ensures QuietStep(p, a[|base|..], b[|base|..])
  {
    var n := |base|;
    var top, rest := a[|a| - 1], a[..|a| - 1];
    assert a[n..][|a| - n - 1] == top && a[n..][..|a| - n - 1] == rest[n..];
    hide AtPoll, IsExit;
    var code := p.functions[top.f].blocks[top.b].code;
    if top.i < |code| {
      if code[top.i].DirectCall? && code[top.i].callee in p.entered {
        assert b[n..] == rest[n..] + [top.(i := top.i + 1), Frame(code[top.i].callee, 0, 0)];
      } else {
        assert b[n..] == rest[n..] + [top.(i := top.i + 1)];
      }
    } else if b == rest {
      assert b[n..] == rest[n..];
    } else {
      var c: nat :| Edge(p.functions[top.f], top.b, c) && b == rest + [Frame(top.f, c, 0)];
      assert b[n..] == rest[n..] + [Frame(top.f, c, 0)];
    }
  }

  /** A run on top of base that comes down to it is a run of its own. */
  lemma WithoutBase(p: Program, run: seq<seq<Frame>>, base: seq<Frame>, x: Frame, k: nat)
    requires QuietRun(p, run) && StaysOver(run, base, k) && run[0] == base + [x] && run[k] == base
    ensures Leads(p, [x], [], k)
  {
    var own := seq(k + 1, j requires 0 <= j < k + 1 => run[j][|base|..]);
    hide QuietStep;
    forall j | 0 <= j < k
      ensures QuietStep(p, own[j], own[j + 1])
    {
      assert QuietStep(p, run[j], run[j + 1]);
      StepOver(p, base, run[j], run[j + 1]);
    }
    assert own[0] == [x] && own[k] == [];
    assert QuietRun(p, own);
  }

  lemma StepCases(p: Program, base: seq<Frame>, x: Frame, next: seq<Frame>)
    requires QuietStep(p, base + [x], next) && IsPoint(p, x)
    ensures !AtPoll(p, x)
    ensures AtCall(p, x) ==> next == base + [x.(i := x.i + 1)] + [Frame(InstrAt(p, x).callee, 0, 0)]
    ensures HasInstr(p, x) && !AtCall(p, x) ==> next == base + [x.(i := x.i + 1)]
    ensures !HasInstr(p, x) ==> next == base || exists b: nat :: Edge(p.functions[x.f], x.b, b) && next == base + [Frame(x.f, b, 0)]
  {
    var stack := base + [x];
    assert stack[|stack| - 1] == x && stack[..|stack| - 1] == base;
    hide IsExit, ReachableBlock, Polls;
    if AtCall(p, x) {
      assert next == base + [x.(i := x.i + 1), Frame(InstrAt(p, x).callee, 0, 0)];
    }
  }

  function Cost(h: nat): nat {
    if h == 0 then 0 else 1 + Cost(h - 1) + Cost(h - 1)
  }

  lemma {:induction false} CostGrows(h: nat, k: nat)
    requires h <= k
    ensures Cost(h) <= Cost(k)
    decreases k
  {
    if h < k { CostGrows(h, k - 1); }
  }

  lemma RestOfRun(p: Program, run: seq<seq<Frame>>, k: nat)
    requires QuietRun(p, run) && k < |run|
    ensures QuietRun(p, run[k..])
  {
    hide QuietStep;
    var rest := run[k..];
    forall j | 0 <= j < |rest| - 1
      ensures QuietStep(p, rest[j], rest[j + 1])
    {
      assert QuietStep(p, run[k + j], run[k + j + 1]);
    }
  }

  lemma StaysOverLonger(run: seq<seq<Frame>>, base: seq<Frame>, k: nat, n: nat)
    requires k < |run| && StaysOver(run[k..], base, n) && forall j :: 0 <= j < k ==> Over(run[j], base)
    ensures StaysOver(run, base, k + n)
  {
    hide Over;
    assert forall j :: k <= j < k + n ==> run[j] == run[k..][j - k];
    assert run[k + n] == run[k..][n];
  }

  lemma OverMore(run: seq<seq<Frame>>, base: seq<Frame>, x: Frame, k: nat)
    requires StaysOver(run, base + [x], k)
    ensures forall j :: 0 <= j <= k ==> Over(run[j], base)
  {
    forall j | 0 <= j <= k
      ensures Over(run[j], base)
    {
      assert run[j] == base + [x] || Over(run[j], base + [x]);
      assert run[j][..|base|] == run[j][..|base| + 1][..|base|];
    }
  }

  /** A quiet run stays on top of a stack for a bounded number of steps before it ends or comes back to it. */
  lemma {:induction false} CallIsBounded(p: Program, run: seq<seq<Frame>>, base: seq<Frame>, x: Frame, h: nat) returns (k: nat)
    requires run != [] && IsProgram(p) && NoQuietCycle(p) && QuietRun(p, run) && run[0] == base + [x] && IsPoint(p, x) && Far(p, x) <= h
    ensures k <= Cost(h) && StaysOver(run, base, k) && (run[k] == base || k == |run| - 1)
    decreases h
  {
    assert x.f < |p.functions|;
    hide IsProgram, NoQuietCycle, IsPoint, Far, QuietStep, GoesOn, GoesIn, QuietRun;
    assert Over(run[0], base);
    if |run| == 1 {
      return 0;
    }
    FirstStep(p, run);
    StepCases(p, base, x, run[1]);
    RestOfRun(p, run, 1);
    if AtCall(p, x) {
      k := CallThenOn(p, run, base, x, h);
    } else if HasInstr(p, x) {
      k := OnThen(p, run, base, x, x.(i := x.i + 1), h);
    } else if run[1] == base {
      FarIsPositive(p, x);
      k := 1;
    } else {
      var b: nat :| Edge(p.functions[x.f], x.b, b) && run[1] == base + [Frame(x.f, b, 0)];
      k := OnThen(p, run, base, x, Frame(x.f, b, 0), h);
    }
  }

  lemma FirstStep(p: Program, run: seq<seq<Frame>>)
    requires QuietRun(p, run) && |run| > 1
    ensures QuietStep(p, run[0], run[1])
  {
    assert QuietStep(p, run[0], run[0 + 1]);
  }

  lemma FarIsPositive(p: Program, x: Frame)
    requires IsProgram(p) && NoQuietCycle(p) && IsPoint(p, x)
    ensures Far(p, x) > 0
  {
    hide GoesOn, GoesIn, IsProgram, NoQuietCycle, Points, IsPoint;
    DistanceIsGreatest(p, x, |Points(p)|);
    assert IsWalk(p, [x]);
    WalkIsShort(p, [x]);
    assert GoesFar(p, x, 1);
  }

  /** The run goes on within the call. */
  lemma {:induction false} OnThen(p: Program, run: seq<seq<Frame>>, base: seq<Frame>, x: Frame, y: Frame, h: nat) returns (k: nat)
    requires IsProgram(p) && NoQuietCycle(p) && QuietRun(p, run) && IsPoint(p, x) && Far(p, x) <= h
    requires |run| > 1 && Over(run[0], base) && run[1] == base + [y] && !AtPoll(p, x) && !AtCall(p, x)
    requires if HasInstr(p, x) then y == x.(i := x.i + 1) else y == Frame(x.f, y.b, 0) && Edge(p.functions[x.f], x.b, y.b)
    ensures k <= Cost(h) && StaysOver(run, base, k) && (run[k] == base || k == |run| - 1)
    decreases h, 0
  {
    assert GoesOn(p, x, y);
    hide IsProgram, NoQuietCycle, IsPoint, Far, GoesOn, GoesIn, QuietRun, StaysOver, Over;
    FarFalls(p, x, y);
    RestOfRun(p, run, 1);
    var n := CallIsBounded(p, run[1..], base, y, h - 1);
    StaysOverLonger(run, base, 1, n);
    k := 1 + n;
    assert run[k] == run[1..][n] by {
      assert n < |run[1..]| by { StaysInside(run[1..], base, n); }
    }
  }

  lemma StaysInside(run: seq<seq<Frame>>, base: seq<Frame>, k: nat)
    requires StaysOver(run, base, k)
    ensures k < |run|
  {
  }

  /** The run enters a call, stays in it for a bounded number of steps, and may come back from it. */
  lemma {:induction false} EnterThen(p: Program, run: seq<seq<Frame>>, base: seq<Frame>, x: Frame, h: nat) returns (n: nat)
    requires IsProgram(p) && NoQuietCycle(p) && QuietRun(p, run) && IsPoint(p, x) && Far(p, x) <= h && !AtPoll(p, x) && AtCall(p, x)
    requires |run| > 1 && Over(run[0], base) && run[1] == base + [x.(i := x.i + 1)] + [Frame(InstrAt(p, x).callee, 0, 0)]
    ensures 0 < h && 1 + n < |run| && n <= Cost(h - 1) && forall j :: 0 <= j <= 1 + n ==> Over(run[j], base)
    ensures 1 + n == |run| - 1 || (run[1 + n] == base + [x.(i := x.i + 1)] && ReturnsQuietly(p, InstrAt(p, x).callee))
    decreases h, 0
  {
    var g := InstrAt(p, x).callee;
    var y, entry := x.(i := x.i + 1), Frame(g, 0, 0);
    assert GoesIn(p, x, entry);
    hide IsProgram, NoQuietCycle, IsPoint, Far, GoesOn, GoesIn, QuietRun, StaysOver, Over, ReturnsQuietly, AtCall, AtPoll;
    FarFalls(p, x, entry);
    RestOfRun(p, run, 1);
    n := CallIsBounded(p, run[1..], base + [y], entry, h - 1);
    StaysInside(run[1..], base + [y], n);
    OverMore(run[1..], base, y, n);
    OverBase(run, base, n);
    if run[1..][n] == base + [y] {
      WithoutBase(p, run[1..], base + [y], entry, n);
      Returning(p, g, n);
    }
  }

  /** If it comes back it goes on behind the call. */
  lemma {:induction false} CallThenOn(p: Program, run: seq<seq<Frame>>, base: seq<Frame>, x: Frame, h: nat) returns (k: nat)
    requires IsProgram(p) && NoQuietCycle(p) && QuietRun(p, run) && IsPoint(p, x) && Far(p, x) <= h && !AtPoll(p, x) && AtCall(p, x)
    requires |run| > 1 && Over(run[0], base) && run[1] == base + [x.(i := x.i + 1)] + [Frame(InstrAt(p, x).callee, 0, 0)]
    ensures k <= Cost(h) && StaysOver(run, base, k) && (run[k] == base || k == |run| - 1)
    decreases h, 1
  {
    var y := x.(i := x.i + 1);
    assert ReturnsQuietly(p, InstrAt(p, x).callee) ==> GoesOn(p, x, y);
    hide IsProgram, NoQuietCycle, IsPoint, Far, GoesOn, GoesIn, QuietRun, StaysOver, Over, ReturnsQuietly, AtCall, AtPoll;
    var n := EnterThen(p, run, base, x, h);
    if 1 + n == |run| - 1 {
      k := 1 + n;
      OverAll(run, base, k);
    } else {
      FarFalls(p, x, y);
      RestOfRun(p, run, 1 + n);
      var m := CallIsBounded(p, run[1 + n..], base, y, h - 1);
      StaysInside(run[1 + n..], base, m);
      StaysOverLonger(run, base, 1 + n, m);
      assert run[1 + n + m] == run[1 + n..][m];
      k := 1 + n + m;
    }
  }

  lemma Returning(p: Program, g: nat, n: nat)
    requires Leads(p, [Frame(g, 0, 0)], [], n)
    ensures ReturnsQuietly(p, g)
  {
  }

  lemma OverBase(run: seq<seq<Frame>>, base: seq<Frame>, n: nat)
    requires 1 + n < |run| && Over(run[0], base) && forall j :: 0 <= j <= n ==> Over(run[1..][j], base)
    ensures forall j :: 0 <= j <= 1 + n ==> Over(run[j], base)
  {
    hide Over;
    forall j | 0 <= j <= 1 + n
      ensures Over(run[j], base)
    {
      assert j > 0 ==> run[j] == run[1..][j - 1];
    }
  }

  lemma OverAll(run: seq<seq<Frame>>, base: seq<Frame>, k: nat)
    requires k < |run| && forall j :: 0 <= j <= k ==> Over(run[j], base)
    ensures StaysOver(run, base, k)
  {
    hide Over;
  }

  /** From a stack of d calls a quiet run takes a bounded number of steps. */
  lemma {:induction false} QuietRunIsBounded(p: Program, run: seq<seq<Frame>>, d: nat)
    requires run != [] && IsProgram(p) && NoQuietCycle(p) && QuietRun(p, run) && |run[0]| <= d && ArePoints(p, run[0])
    ensures |run| <= d * Cost(|Points(p)|) + 1
    decreases d
  {
    hide IsProgram, NoQuietCycle, IsPoint, Far, QuietStep, Points, Cost;
    var cost := Cost(|Points(p)|);
    if run[0] == [] {
      if |run| > 1 {
        FirstStep(p, run);
        StepNeedsStack(p, run[0], run[1]);
        assert false;
      }
      assert d * cost >= 0;
    } else {
      var base, x := run[0][..|run[0]| - 1], run[0][|run[0]| - 1];
      assert run[0] == base + [x];
      FarIsShort(p, x);
      var k := CallIsBounded(p, run, base, x, |Points(p)|);
      assert d * cost == (d - 1) * cost + cost;
      if run[k] == base {
        RestOfRun(p, run, k);
        QuietRunIsBounded(p, run[k..], d - 1);
      } else {
        assert (d - 1) * cost >= 0;
      }
    }
  }

  lemma StepNeedsStack(p: Program, stack: seq<Frame>, next: seq<Frame>)
    requires QuietStep(p, stack, next)
    ensures stack != []
  {
  }

  lemma FarIsShort(p: Program, x: Frame)
    ensures Far(p, x) <= |Points(p)|
  {
  }

  // ----- With a cycle there are quiet runs of any length -----

  lemma LeadsOne(p: Program, from: seq<Frame>, to: seq<Frame>)
    requires QuietStep(p, from, to)
    ensures Leads(p, from, to, 1)
  {
    var run := [from, to];
    assert QuietRun(p, run);
  }

  lemma LeadsNone(p: Program, stack: seq<Frame>)
    ensures Leads(p, stack, stack, 0)
  {
    assert QuietRun(p, [stack]);
  }

  lemma LeadsOn(p: Program, a: seq<Frame>, b: seq<Frame>, c: seq<Frame>, n: nat, m: nat)
    requires Leads(p, a, b, n) && Leads(p, b, c, m)
    ensures Leads(p, a, c, n + m)
  {
    hide QuietStep;
    var first :| QuietRun(p, first) && first[0] == a && first[|first| - 1] == b && |first| == n + 1;
    var second :| QuietRun(p, second) && second[0] == b && second[|second| - 1] == c && |second| == m + 1;
    var run := first + second[1..];
    forall k | 0 <= k < |run| - 1
      ensures QuietStep(p, run[k], run[k + 1])
    {
      if k < n {
        assert QuietStep(p, first[k], first[k + 1]);
      } else {
        assert QuietStep(p, second[k - n], second[k - n + 1]);
        assert run[k] == second[k - n] && run[k + 1] == second[k - n + 1];
      }
    }
    assert run[|run| - 1] == c;
  }

  lemma StepUnder(p: Program, base: seq<Frame>, a: seq<Frame>, b: seq<Frame>)
    requires QuietStep(p, a, b)
    ensures QuietStep(p, base + a, base + b)
  {
    var top, rest := a[|a| - 1], a[..|a| - 1];
    assert (base + a)[|base| + |a| - 1] == top && (base + a)[..|base| + |a| - 1] == base + rest;
    hide AtPoll, IsExit;
    var code := p.functions[top.f].blocks[top.b].code;
    if top.i < |code| {
      if code[top.i].DirectCall? && code[top.i].callee in p.entered {
        assert base + b == base + rest + [top.(i := top.i + 1), Frame(code[top.i].callee, 0, 0)];
      } else {
        assert base + b == base + rest + [top.(i := top.i + 1)];
      }
    } else if b != rest {
      var c: nat :| Edge(p.functions[top.f], top.b, c) && b == rest + [Frame(top.f, c, 0)];
      assert base + b == base + rest + [Frame(top.f, c, 0)];
    }
  }

  /** The same run with other calls waiting below. */
  lemma WithBase(p: Program, base: seq<Frame>, a: seq<Frame>, b: seq<Frame>, n: nat)
    requires Leads(p, a, b, n)
    ensures Leads(p, base + a, base + b, n)
  {
    hide QuietStep;
    var run :| QuietRun(p, run) && run[0] == a && run[|run| - 1] == b && |run| == n + 1;
    var longer := seq(n + 1, j requires 0 <= j < n + 1 => base + run[j]);
    forall j | 0 <= j < n
      ensures QuietStep(p, longer[j], longer[j + 1])
    {
      assert QuietStep(p, run[j], run[j + 1]);
      StepUnder(p, base, run[j], run[j + 1]);
    }
    assert QuietRun(p, longer);
  }

  lemma PlainStep(p: Program, base: seq<Frame>, x: Frame)
    requires HasInstr(p, x) && !AtPoll(p, x)
    ensures QuietStep(p, base + [x], base + [x.(i := x.i + 1)] + if AtCall(p, x) then [Frame(InstrAt(p, x).callee, 0, 0)] else [])
  {
    var stack := base + [x];
    assert stack[|stack| - 1] == x && stack[..|stack| - 1] == base;
    if AtCall(p, x) {
      assert base + [x.(i := x.i + 1)] + [Frame(InstrAt(p, x).callee, 0, 0)] == base + [x.(i := x.i + 1), Frame(InstrAt(p, x).callee, 0, 0)];
    } else {
      assert base + [x.(i := x.i + 1)] + [] == base + [x.(i := x.i + 1)];
    }
  }

  lemma EdgeStep(p: Program, base: seq<Frame>, x: Frame, b: nat)
    requires IsAt(p, x) && !HasInstr(p, x) && Edge(p.functions[x.f], x.b, b)
    ensures QuietStep(p, base + [x], base + [Frame(x.f, b, 0)])
  {
    var stack := base + [x];
    assert stack[|stack| - 1] == x && stack[..|stack| - 1] == base;
  }

  /** Control does go where it may go. */
  lemma FollowOn(p: Program, base: seq<Frame>, x: Frame, y: Frame) returns (n: nat)
    requires GoesOn(p, x, y)
    ensures n > 0 && Leads(p, base + [x], base + [y], n)
  {
    if HasInstr(p, x) {
      PlainStep(p, base, x);
      if AtCall(p, x) {
        var g := InstrAt(p, x).callee;
        var m: nat :| Leads(p, [Frame(g, 0, 0)], [], m);
        hide QuietStep, Leads, IsPoint, ReturnsQuietly;
        LeadsOne(p, base + [x], base + [y] + [Frame(g, 0, 0)]);
        WithBase(p, base + [y], [Frame(g, 0, 0)], [], m);
        assert base + [y] + [] == base + [y];
        LeadsOn(p, base + [x], base + [y] + [Frame(g, 0, 0)], base + [y], 1, m);
        n := 1 + m;
      } else {
        hide QuietStep, Leads, IsPoint, ReturnsQuietly;
        assert base + [y] + [] == base + [y];
        LeadsOne(p, base + [x], base + [y]);
        n := 1;
      }
    } else {
      EdgeStep(p, base, x, y.b);
      hide QuietStep, Leads, IsPoint, ReturnsQuietly;
      LeadsOne(p, base + [x], base + [y]);
      n := 1;
    }
  }

  lemma FollowIn(p: Program, base: seq<Frame>, x: Frame, y: Frame)
    requires GoesIn(p, x, y)
    ensures Leads(p, base + [x], base + [x.(i := x.i + 1)] + [y], 1)
  {
    PlainStep(p, base, x);
    hide QuietStep, Leads, IsPoint;
    LeadsOne(p, base + [x], base + [x.(i := x.i + 1)] + [y]);
  }

  lemma {:induction false} FollowWalk(p: Program, base: seq<Frame>, walk: seq<Frame>) returns (base': seq<Frame>, n: nat)
    requires IsProgram(p) && IsWalk(p, walk)
    ensures Leads(p, base + [walk[0]], base' + [walk[|walk| - 1]], n) && n >= |walk| - 1
    decreases |walk|
  {
    hide GoesOn, GoesIn, IsPoint, IsProgram, Leads;
    var last := |walk| - 1;
    if last == 0 {
      LeadsNone(p, base + [walk[0]]);
      base', n := base, 0;
    } else {
      PartOfWalk(p, walk, 0, last);
      assert walk[0..last] == walk[..last];
      var middle, m := FollowWalk(p, base, walk[..last]);
      var x, y := walk[last - 1], walk[last];
      assert GoesOn(p, walk[last - 1], walk[last - 1 + 1]) || GoesIn(p, walk[last - 1], walk[last - 1 + 1]);
      if GoesOn(p, x, y) {
        var k := FollowOn(p, middle, x, y);
        LeadsOn(p, base + [walk[0]], middle + [x], middle + [y], m, k);
        base', n := middle, m + k;
      } else {
        FollowIn(p, middle, x, y);
        base', n := middle + [x.(i := x.i + 1)], m + 1;
        LeadsOn(p, base + [walk[0]], middle + [x], base' + [y], m, 1);
      }
    }
  }

  lemma {:induction false} GoRoundCalls(p: Program, base: seq<Frame>, walk: seq<Frame>, rounds: nat) returns (base': seq<Frame>, n: nat)
    requires IsProgram(p) && IsWalk(p, walk) && |walk| > 1 && walk[0] == walk[|walk| - 1]
    ensures Leads(p, base + [walk[0]], base' + [walk[0]], n) && n >= rounds
    decreases rounds
  {
    hide GoesOn, GoesIn, IsPoint, IsProgram, Leads, IsWalk;
    if rounds == 0 {
      LeadsNone(p, base + [walk[0]]);
      base', n := base, 0;
    } else {
      var middle, m := GoRoundCalls(p, base, walk, rounds - 1);
      var k;
      base', k := FollowWalk(p, middle, walk);
      LeadsOn(p, base + [walk[0]], middle + [walk[0]], base' + [walk[0]], m, k);
      n := m + k;
    }
  }

  // ----- Together -----

  /** No quiet run from a stack of d calls is longer than this. */
  ghost predicate QuietWithin(p: Program, d: nat, bound: nat) {
    forall run :: QuietRun(p, run) && |run[0]| <= d && ArePoints(p, run[0]) ==> |run| <= bound
  }

  lemma CycleIsUnbounded(p: Program, walk: seq<Frame>, bound: nat)
    requires IsProgram(p) && IsWalk(p, walk) && |walk| > 1 && walk[0] == walk[|walk| - 1]
    ensures !QuietWithin(p, 1, bound)
  {
    hide GoesOn, GoesIn, IsPoint, IsProgram, QuietStep;
    var base, n := GoRoundCalls(p, [], walk, bound);
    assert [] + [walk[0]] == [walk[0]];
    var run :| QuietRun(p, run) && run[0] == [walk[0]] && run[|run| - 1] == base + [walk[0]] && |run| == n + 1;
    assert ArePoints(p, run[0]);
  }

  lemma LocalIsWalk(p: Program, walk: seq<Frame>)
    requires IsLocalWalk(p, walk)
    ensures IsWalk(p, walk)
  {
    hide GoesOn, GoesIn, IsPoint;
  }

  ghost predicate QuietRunsAreBounded(p: Program, d: nat) {
    exists bound: nat :: QuietWithin(p, d, bound)
  }

  /** How long a program can run without a poll depends on the number of calls that may have to return
      first. For each such number it is bounded iff there is neither a loop without a poll within one call
      of a function nor a chain of calls without a poll from a function's entry to its entry. */
  lemma QuietRunsAreBoundedIff(p: Program)
    requires IsProgram(p)
    ensures (forall d: nat :: QuietRunsAreBounded(p, d)) <==> NoQuietLoop(p) && NoQuietRecursion(p)
  {
    hide GoesOn, GoesIn, IsPoint, IsProgram, QuietWithin, IsWalk, IsLocalWalk, Cost, Points;
    if NoQuietLoop(p) && NoQuietRecursion(p) {
      CyclesAreLoopsOrRecursion(p);
      forall d: nat
        ensures QuietRunsAreBounded(p, d)
      {
        AcyclicIsWithin(p, d);
      }
    }
    if forall d: nat :: QuietRunsAreBounded(p, d) {
      assert QuietRunsAreBounded(p, 1);
      var bound: nat :| QuietWithin(p, 1, bound);
      forall walk | IsLocalWalk(p, walk) && |walk| > 1
        ensures walk[0] != walk[|walk| - 1]
      {
        LocalIsWalk(p, walk);
        if walk[0] == walk[|walk| - 1] { CycleIsUnbounded(p, walk, bound); }
      }
      forall walk | IsWalk(p, walk) && |walk| > 1
        ensures walk[0] != walk[|walk| - 1]
      {
        if walk[0] == walk[|walk| - 1] { CycleIsUnbounded(p, walk, bound); }
      }
    }
  }

  lemma AcyclicIsWithin(p: Program, d: nat)
    requires IsProgram(p) && NoQuietCycle(p)
    ensures QuietRunsAreBounded(p, d)
  {
    hide NoQuietCycle, IsProgram, QuietStep, IsPoint, Points, Cost, ArePoints;
    var bound: nat := d * Cost(|Points(p)|) + 1;
    forall run | QuietRun(p, run) && |run[0]| <= d && ArePoints(p, run[0])
      ensures |run| <= bound
    {
      QuietRunIsBounded(p, run, d);
    }
    assert QuietWithin(p, d, bound);
  }

  // ----- What the passes achieve -----

  /** The instructions of a block before a point are no polls. */
  predicate QuietUpTo(p: Program, x: Frame)
    requires IsAt(p, x)
  {
    forall i :: 0 <= i < x.i ==> !Polls(p.functions[x.f].blocks[x.b].code[i], p.poll)
  }

  lemma OnePathMore(p: Program, path: seq<nat>, x: Frame, y: Frame) returns (path': seq<nat>)
    requires GoesOn(p, x, y) && QuietUpTo(p, x) && PollFree(p.functions[x.f], p.poll, path) && path[|path| - 1] == x.b
    ensures IsAt(p, y) && y.f == x.f && QuietUpTo(p, y) && PollFree(p.functions[x.f], p.poll, path') && path'[|path'| - 1] == y.b && path'[0] == path[0]
    ensures (path' == path && y.b == x.b && y.i == x.i + 1) || |path'| > |path|
  {
    if HasInstr(p, x) {
      path' := path;
    } else {
      var f := p.functions[x.f];
      assert HasNoPoll(f.blocks[x.b].code, p.poll);
      path' := path + [y.b];
      LongerPath(f, path, y.b);
      hide HasNoPoll, ReachableBlock, Path;
      assert forall k :: 0 <= k < |path'| - 1 ==> path'[k] == path[k];
    }
  }

  lemma PointFacts(p: Program, x: Frame)
    requires IsPoint(p, x)
    ensures IsAt(p, x) && ReachableBlock(p.functions[x.f], x.b)
  {
  }

  /** A loop of one call, followed from the beginning of a block, is a path of blocks without polls. */
  lemma {:induction false} PathOfWalk(p: Program, walk: seq<Frame>, n: nat) returns (path: seq<nat>)
    requires IsLocalWalk(p, walk) && walk[0].i == 0 && n < |walk|
    ensures IsAt(p, walk[n]) && walk[n].f == walk[0].f && QuietUpTo(p, walk[n])
    ensures PollFree(p.functions[walk[0].f], p.poll, path) && path[0] == walk[0].b && path[|path| - 1] == walk[n].b
    ensures |path| > 1 || walk[n].i == n
  {
    hide GoesOn, PollFree, IsPoint;
    PointFacts(p, walk[0]);
    if n == 0 {
      path := [walk[0].b];
      OneBlock(p, walk[0]);
    } else {
      var before := PathOfWalk(p, walk, n - 1);
      assert GoesOn(p, walk[n - 1], walk[n - 1 + 1]);
      NotEmpty(p.functions[walk[0].f], p.poll, before);
      path := OnePathMore(p, before, walk[n - 1], walk[n]);
    }
  }

  lemma NotEmpty(f: Function, poll: nat, path: seq<nat>)
    requires PollFree(f, poll, path)
    ensures path != []
  {
  }

  lemma OneBlock(p: Program, x: Frame)
    requires IsPoint(p, x)
    ensures PollFree(p.functions[x.f], p.poll, [x.b])
  {
  }

  /** Some step of a loop goes to another block. */
  lemma {:induction false} LeavesBlock(p: Program, walk: seq<Frame>, n: nat)
    requires IsLocalWalk(p, walk) && n < |walk| && forall k :: 0 <= k < n ==> HasInstr(p, walk[k])
    ensures walk[n].i == walk[0].i + n && walk[n].f == walk[0].f && walk[n].b == walk[0].b
  {
    if n != 0 {
      LeavesBlock(p, walk, n - 1);
      assert GoesOn(p, walk[n - 1], walk[n - 1 + 1]);
      hide ReturnsQuietly, IsPoint;
    }
  }

  lemma JoinLocalWalks(p: Program, first: seq<Frame>, second: seq<Frame>)
    requires IsLocalWalk(p, first) && IsLocalWalk(p, second) && first[|first| - 1] == second[0]
    ensures IsLocalWalk(p, first + second[1..])
  {
    hide GoesOn, IsPoint;
    var walk, n := first + second[1..], |first| - 1;
    assert forall k :: n <= k < |walk| ==> walk[k] == second[k - n];
    forall k | 0 <= k < |walk| - 1
      ensures GoesOn(p, walk[k], walk[k + 1])
    {
      if k < n {
        assert GoesOn(p, first[k], first[k + 1]);
      } else {
        assert GoesOn(p, second[k - n], second[k - n + 1]);
      }
    }
  }

  lemma PartOfLocalWalk(p: Program, walk: seq<Frame>, i: nat, j: nat)
    requires IsProgram(p) && IsLocalWalk(p, walk) && i < j <= |walk|
    ensures IsLocalWalk(p, walk[i..j])
  {
    LocalIsWalk(p, walk);
    WalkPoints(p, walk, i);
    hide GoesOn, IsPoint, IsProgram;
    var part := walk[i..j];
    assert forall k :: 0 <= k < |part| ==> part[k] == walk[i + k];
    forall k | 0 <= k < |part| - 1
      ensures GoesOn(p, part[k], part[k + 1])
    {
      assert GoesOn(p, walk[i + k], walk[i + k + 1]);
    }
  }

  /** The same loop, begun at the beginning of a block. */
  lemma LoopFromBlock(p: Program, walk: seq<Frame>) returns (round: seq<Frame>)
    requires IsProgram(p) && IsLocalWalk(p, walk) && |walk| > 1 && walk[0] == walk[|walk| - 1]
    ensures IsLocalWalk(p, round) && |round| > 1 && round[0] == round[|round| - 1] && round[0].i == 0
  {
    var last := |walk| - 1;
    hide IsPoint, ReturnsQuietly, IsProgram;
    if forall k :: 0 <= k < last ==> HasInstr(p, walk[k]) {
      LeavesBlock(p, walk, last);
      assert false;
    } else {
      var k :| 0 <= k < last && !HasInstr(p, walk[k]);
      assert GoesOn(p, walk[k], walk[k + 1]);
      assert walk[k + 1].i == 0;
      hide GoesOn;
      PartOfLocalWalk(p, walk, k + 1, |walk|);
      PartOfLocalWalk(p, walk, 0, k + 2);
      var first, second := walk[k + 1..|walk|], walk[0..k + 2];
      JoinLocalWalks(p, first, second);
      round := first + second[1..];
      assert round[|round| - 1] == walk[k + 1];
    }
  }

  /** Where every cycle of blocks polls there is no loop without a poll. */
  lemma BrokenCyclesHaveNoQuietLoop(p: Program)
    requires IsProgram(p) && forall f :: f in p.entered ==> PollsBreakCycles(p.functions[f], p.poll)
    ensures NoQuietLoop(p)
  {
    hide GoesOn, IsPoint, PollFree, IsLocalWalk;
    forall walk | IsLocalWalk(p, walk) && |walk| > 1
      ensures walk[0] != walk[|walk| - 1]
    {
      if walk[0] == walk[|walk| - 1] {
        var round := LoopFromBlock(p, walk);
        var path := PathOfWalk(p, round, |round| - 1);
        assert false;
      }
    }
  }

  /** On reducible control flow a function without latches has no cycle at all. */
  lemma LeafBreaksCycles(f: Function, poll: nat, order: seq<nat>)
    requires LoopsKnown(f) && Reducible(f, order) && f.latches == {}
    ensures PollsBreakCycles(f, poll)
  {
    hide HasNoPoll, LoopsKnown, Reducible, ReachableBlock, Path;
    forall path | PollFree(f, poll, path) && |path| > 1
      ensures path[0] != path[|path| - 1]
    {
      LatchFreePathIsShort(f, order, path);
    }
  }

  /** What insertion or inference leaves of a function with reducible control flow. */
  ghost predicate IsTreated(f: Function, poll: nat, allocators: set<nat>) {
    || (exists before, order :: Polled(before, f, poll, allocators) && !before.isDeclaration && before.gc && before.blocks != []
                                && LoopsKnown(before) && Reducible(before, order))
    || (f.latches == {} && LoopsKnown(f) && exists order :: Reducible(f, order))
  }

  /** So, on reducible control flow, the runs between polls of a program whose functions poll at their
      latches or have none are bounded iff no chain of calls without a poll leads from a function's entry
      to its entry: the passes put no poll there. */
  lemma TreatedRunsAreBoundedIff(p: Program, allocators: set<nat>)
    requires IsProgram(p) && forall f :: f in p.entered ==> IsTreated(p.functions[f], p.poll, allocators)
    ensures (forall d: nat :: QuietRunsAreBounded(p, d)) <==> NoQuietRecursion(p)
  {
    hide Polled, LoopsKnown, Reducible, NoQuietLoop, NoQuietRecursion, QuietRunsAreBounded, PollsBreakCycles;
    forall f | f in p.entered
      ensures PollsBreakCycles(p.functions[f], p.poll)
    {
      TreatedBreaksCycles(p.functions[f], p.poll, allocators);
    }
    hide IsTreated;
    BrokenCyclesHaveNoQuietLoop(p);
    QuietRunsAreBoundedIff(p);
  }

  lemma TreatedBreaksCycles(f: Function, poll: nat, allocators: set<nat>)
    requires IsTreated(f, poll, allocators)
    ensures PollsBreakCycles(f, poll)
  {
    hide Polled, LoopsKnown, Reducible, PollsBreakCycles;
    if f.latches == {} && LoopsKnown(f) && exists order :: Reducible(f, order) {
      var order :| Reducible(f, order);
      LeafBreaksCycles(f, poll, order);
    } else {
      var before, order :| Polled(before, f, poll, allocators) && !before.isDeclaration && before.gc && before.blocks != []
                           && LoopsKnown(before) && Reducible(before, order);
      InsertionBreaksCycles(before, f, poll, allocators, order);
    }
  }

  // ----- A recursion that never polls -----

  /** A function that calls itself and does nothing else. It is no leaf, so it is put under the
      collector, and it has neither an allocation nor a latch to poll at. */
  const CallsItself: Function := Function(OtherName, false, false, false, true, [Block([DirectCall(0, 0)], [])], {})

  lemma CallsItselfIsTreated(poll: nat)
    requires poll != 0
    ensures ClosedUnderRule([CallsItself], {}) && Polled(CallsItself, CallsItself, poll, {})
    ensures LoopsKnown(CallsItself) && Reducible(CallsItself, [0]) && PollsBreakCycles(CallsItself, poll)
  {
    var f := CallsItself;
    assert CallIsHarmless([f], f.blocks[0].code[0], {}) == false;
    assert forall a: nat, b: nat :: !Edge(f, a, b);
    hide ReachableBlock, Dominates, Path;
    assert LoopsKnown(f) && Reducible(f, [0]);
    assert WithoutPolls(f.blocks[0].code, poll) == WithoutPolls(f.blocks[0].code, poll);
    LeafBreaksCycles(f, poll, [0]);
  }

  /** The passes leave it as it is, every cycle of its blocks polls, there being none, and it runs for any
      number of steps without a poll. */
  lemma RecursionNeverPolls(poll: nat, bound: nat)
    requires poll != 0
    ensures ClosedUnderRule([CallsItself], {}) && Polled(CallsItself, CallsItself, poll, {}) && Reducible(CallsItself, [0])
    ensures PollsBreakCycles(CallsItself, poll)
    ensures exists run :: QuietRun(Program([CallsItself], [0], poll), run) && run[0] == [Frame(0, 0, 0)] && |run| > bound
  {
    CallsItselfIsTreated(poll);
    var p, x := Program([CallsItself], [0], poll), Frame(0, 0, 0);
    EntryIsReachable(CallsItself);
    hide ClosedUnderRule, Polled, Reducible, LoopsKnown, PollsBreakCycles, ReachableBlock;
    assert GoesIn(p, x, x);
    assert IsWalk(p, [x, x]);
    var base, n := GoRoundCalls(p, [], [x, x], bound);
    hide GoesIn, GoesOn, IsWalk, QuietStep;
    assert [] + [x] == [x];
    var run :| QuietRun(p, run) && run[0] == [x] && run[|run| - 1] == base + [x] && |run| == n + 1;
  }
}
