/** How long a program can run between safepoints. */
module GCRuns {
  import opened Collections
  import opened ControlFlow
  import opened GCPasses

  // ----- Functions under the collector -----

  predicate HasNoPoll(code: seq<Instr>, poll: nat) {
    forall i :: 0 <= i < |code| ==> !Polls(code[i], poll)
  }

  /** In a function the pass has been over, a path that goes through no poll is no longer than the
      function has blocks, and visits no block twice. */
  lemma PollFreePathIsShort(f: Function, f': Function, poll: nat, allocators: set<nat>, order: seq<nat>, path: seq<nat>)
    requires Polled(f, f', poll, allocators) && !f.isDeclaration && f.gc && f.blocks != []
    requires LoopsKnown(f) && Reducible(f, order)
    requires Path(f', path) && ReachableBlock(f', path[0])
    requires forall k :: 0 <= k < |path| - 1 ==> HasNoPoll(f'.blocks[path[k]].code, poll)
    ensures |path| <= |f'.blocks|
    ensures forall i, j :: 0 <= i < j < |path| ==> path[i] != path[j]
  {
    SameGraph(f, f');
    assert LoopsKnown(f') && Reducible(f', order);
    forall k | 0 <= k < |path| - 1
      ensures path[k] !in f'.latches
    {
      assert IsBlock(f', path[k]);
      assert BlockPolled(f.blocks[path[k]], f'.blocks[path[k]], poll, allocators, path[k] in f.latches);
      PollAtTheEnd(f'.blocks[path[k]].code, poll);
    }
    hide LoopsKnown, Reducible, Path, ReachableBlock, Polled;
    LatchFreePathIsShort(f', order, path);
  }

  lemma PollAtTheEnd(code: seq<Instr>, poll: nat)
    ensures EndsWithPoll(code, poll) ==> !HasNoPoll(code, poll)
  {
  }

  // ----- Steps -----

  /** A call in progress: instruction i of block b of function f. */
  datatype Frame = Frame(f: nat, b: nat, i: nat)

  /** One step. Calls of the given functions are entered; calls of others are one step. */
  ghost predicate Step(functions: seq<Function>, entered: seq<nat>, stack: seq<Frame>, stack': seq<Frame>) {
    && stack != []
    && var top, rest := stack[|stack| - 1], stack[..|stack| - 1];
       && top.f < |functions| && IsBlock(functions[top.f], top.b)
       && var code := functions[top.f].blocks[top.b].code;
          if top.i < |code| then
            if code[top.i].DirectCall? && code[top.i].callee in entered then
              stack' == rest + [top.(i := top.i + 1), Frame(code[top.i].callee, 0, 0)]
            else stack' == rest + [top.(i := top.i + 1)]
          else
            || (IsExit(functions[top.f], top.b) && stack' == rest)
            || exists b: nat :: Edge(functions[top.f], top.b, b) && stack' == rest + [Frame(top.f, b, 0)]
  }

  // ----- Leaf functions -----

  /** Width of a block, and how many there may be, in any function. */
  ghost predicate Sizes(functions: seq<Function>, width: nat, count: nat) {
    forall f :: 0 <= f < |functions| ==>
      |functions[f].blocks| <= count && forall b :: 0 <= b < |functions[f].blocks| ==> |functions[f].blocks[b].code| + 1 <= width
  }

  function Rows(rows: nat, width: nat): nat {
    if rows == 0 then 0 else width + Rows(rows - 1, width)
  }

  /** The most steps one instruction of the r-th inferred leaf, or all of it, can take. */
  function UnitCost(r: nat, span: nat): (c: nat)
    ensures c >= 1
    decreases r, 0
  {
    if r == 0 then 1 else 1 + FullCost(r - 1, span)
  }

  function FullCost(r: nat, span: nat): nat
    decreases r, 1
  {
    Rows(span, UnitCost(r, span))
  }

  lemma {:induction false} RowsMonotone(a: nat, b: nat, width: nat)
    requires a <= b
    ensures Rows(a, width) <= Rows(b, width)
    ensures a < b ==> Rows(a, width) + width <= Rows(b, width)
    decreases b
  {
    if a < b { RowsMonotone(a, b - 1, width); }
  }

  lemma {:induction false} WiderRows(rows: nat, width: nat, wider: nat)
    requires width <= wider
    ensures Rows(rows, width) <= Rows(rows, wider)
  {
    if rows != 0 { WiderRows(rows - 1, width, wider); }
  }

  lemma {:induction false} CostMonotone(r: nat, s: nat, span: nat)
    requires r <= s && span > 0
    ensures UnitCost(r, span) <= UnitCost(s, span) && FullCost(r, span) <= FullCost(s, span)
    decreases s
  {
    if r < s {
      CostMonotone(r, s - 1, span);
      RowsMonotone(0, span, UnitCost(s - 1, span));
      WiderRows(span, UnitCost(s - 1, span), UnitCost(s, span));
    }
  }

  // ----- The potential of a stack -----

  /** What the bound is computed from: the inferred leaves in order, a numbering of each one's blocks,
      and the greatest block width and count. */
  datatype LeafShape = LeafShape(order: seq<nat>, numbering: map<nat, seq<nat>>, width: nat, count: nat)

  ghost predicate ShapeOK(functions: seq<Function>, trusted: set<nat>, s: LeafShape) {
    && Inferred(functions, trusted, s.order) && Trusted(functions) <= trusted && Sizes(functions, s.width, s.count) && s.width > 0 && s.count > 0
    && forall f :: f in s.order ==> f < |functions| && LoopsKnown(functions[f]) && f in s.numbering && Reducible(functions[f], s.numbering[f])
  }

  function Rank(order: seq<nat>, f: nat): (k: nat)
    requires f in order
    ensures k < |order| && order[k] == f && f !in order[..k]
  {
    if order[0] == f then 0
    else
      assert forall k :: 0 < k < |order| ==> order[1..][k - 1] == order[k];
      var k := Rank(order[1..], f);
      assert order[..k + 1] == [order[0]] + order[1..][..k];
      k + 1
  }

  ghost predicate FrameOK(functions: seq<Function>, s: LeafShape, frame: Frame) {
    && frame.f in s.order && frame.f < |functions| && IsBlock(functions[frame.f], frame.b) && ReachableBlock(functions[frame.f], frame.b)
    && frame.i <= |functions[frame.f].blocks[frame.b].code|
  }

  /** An upper bound on the instructions a frame still has before it, without those of its calls. */
  function Units(functions: seq<Function>, s: LeafShape, frame: Frame): nat
    requires frame.f < |functions| && IsBlock(functions[frame.f], frame.b) && frame.i <= |functions[frame.f].blocks[frame.b].code|
    requires frame.f in s.numbering && frame.b < |s.numbering[frame.f]| && s.numbering[frame.f][frame.b] < s.count
  {
    Rows(s.count - s.numbering[frame.f][frame.b] - 1, s.width) + (|functions[frame.f].blocks[frame.b].code| - frame.i) + 1
  }

  function Span(s: LeafShape): nat {
    Rows(s.count, s.width)
  }

  ghost function FramePotential(functions: seq<Function>, trusted: set<nat>, s: LeafShape, frame: Frame): nat
    requires ShapeOK(functions, trusted, s) && FrameOK(functions, s, frame)
  {
    NumberedBelow(functions, trusted, s, frame);
    Rows(Units(functions, s, frame), UnitCost(Rank(s.order, frame.f), Span(s)))
  }

  lemma NumberedBelow(functions: seq<Function>, trusted: set<nat>, s: LeafShape, frame: Frame)
    requires ShapeOK(functions, trusted, s) && FrameOK(functions, s, frame)
    ensures frame.f in s.numbering && frame.b < |s.numbering[frame.f]| && s.numbering[frame.f][frame.b] < s.count
    ensures Units(functions, s, frame) <= Span(s)
  {
    hide Inferred, LoopsKnown, ReachableBlock;
    var row := s.numbering[frame.f][frame.b];
    RowsMonotone(s.count - row, s.count, s.width);
  }

  ghost predicate StackOK(functions: seq<Function>, s: LeafShape, stack: seq<Frame>) {
    forall k :: 0 <= k < |stack| ==> FrameOK(functions, s, stack[k])
  }

  ghost function Potential(functions: seq<Function>, trusted: set<nat>, s: LeafShape, stack: seq<Frame>): nat
    requires ShapeOK(functions, trusted, s) && StackOK(functions, s, stack)
  {
    if stack == [] then 0
    else Potential(functions, trusted, s, stack[..|stack| - 1]) + FramePotential(functions, trusted, s, stack[|stack| - 1])
  }

  lemma PotentialOfPush(functions: seq<Function>, trusted: set<nat>, s: LeafShape, rest: seq<Frame>, frame: Frame)
    requires ShapeOK(functions, trusted, s) && StackOK(functions, s, rest) && FrameOK(functions, s, frame)
    ensures StackOK(functions, s, rest + [frame])
    ensures Potential(functions, trusted, s, rest + [frame]) == Potential(functions, trusted, s, rest) + FramePotential(functions, trusted, s, frame)
  {
    hide ShapeOK, FrameOK, FramePotential;
    assert (rest + [frame])[..|rest|] == rest;
  }

  /** What the code of an inferred leaf may contain: no indirect calls, no allocations, and no
      explicit safepoints; and a callee that is an inferred leaf itself comes earlier in the order. */
  lemma LeafInstruction(functions: seq<Function>, trusted: set<nat>, s: LeafShape, frame: Frame)
    requires ShapeOK(functions, trusted, s) && FrameOK(functions, s, frame) && frame.i < |functions[frame.f].blocks[frame.b].code|
    ensures var instr := functions[frame.f].blocks[frame.b].code[frame.i];
      && !instr.OtherCall? && !IsAllocationCall(functions, instr)
      && (instr.DirectCall? ==> instr.callee < |functions|)
      && (instr.DirectCall? && !functions[instr.callee].isIntrinsic ==> !IsExplicitSafepoint(functions[instr.callee].name))
      && (instr.DirectCall? && instr.callee in s.order ==> Rank(s.order, instr.callee) < Rank(s.order, frame.f))
  {
    var k := Rank(s.order, frame.f);
    assert MayBeLeaf(functions, s.order[k], trusted + Elements(s.order[..k]));
    var instr := functions[frame.f].blocks[frame.b].code[frame.i];
    assert CallIsHarmless(functions, instr, trusted + Elements(s.order[..k]));
    if instr.DirectCall? && instr.callee in s.order {
      var j := Rank(s.order, instr.callee);
      assert s.order[j] !in trusted && !functions[s.order[j]].isIntrinsic by { assert MayBeLeaf(functions, s.order[j], trusted + Elements(s.order[..j])); }
      assert instr.callee in s.order[..k];
      EarlierRank(s.order, instr.callee, k);
    }
  }

  lemma {:induction false} EarlierRank(order: seq<nat>, f: nat, k: nat)
    requires k <= |order| && f in order[..k] && f in order
    ensures Rank(order, f) < k
  {
    var j :| 0 <= j < k && order[j] == f;
    InPrefix(order, j, Rank(order, f));
  }

  lemma InPrefix(order: seq<nat>, j: nat, n: nat)
    requires j < |order| && n <= |order|
    ensures j < n ==> order[j] in order[..n]
  {
  }

  lemma SpanPositive(functions: seq<Function>, trusted: set<nat>, s: LeafShape)
    requires ShapeOK(functions, trusted, s)
    ensures Span(s) > 0
  {
    RowsMonotone(1, s.count, s.width);
  }

  /** Going on to the next instruction frees the cost of one. */
  lemma NextInstruction(functions: seq<Function>, trusted: set<nat>, s: LeafShape, frame: Frame)
    requires ShapeOK(functions, trusted, s) && FrameOK(functions, s, frame) && frame.i < |functions[frame.f].blocks[frame.b].code|
    ensures FrameOK(functions, s, frame.(i := frame.i + 1))
    ensures FramePotential(functions, trusted, s, frame) ==
      FramePotential(functions, trusted, s, frame.(i := frame.i + 1)) + UnitCost(Rank(s.order, frame.f), Span(s))
  {
    NumberedBelow(functions, trusted, s, frame);
    NumberedBelow(functions, trusted, s, frame.(i := frame.i + 1));
    hide ShapeOK, FrameOK, Span, Rank, UnitCost;
    assert Units(functions, s, frame) == Units(functions, s, frame.(i := frame.i + 1)) + 1;
  }

  lemma CallStepDecreases(functions: seq<Function>, trusted: set<nat>, s: LeafShape, frame: Frame, callee: nat)
    requires ShapeOK(functions, trusted, s) && FrameOK(functions, s, frame) && frame.i < |functions[frame.f].blocks[frame.b].code|
    requires callee in s.order && Rank(s.order, callee) < Rank(s.order, frame.f) && FrameOK(functions, s, Frame(callee, 0, 0))
    ensures FrameOK(functions, s, frame.(i := frame.i + 1))
    ensures FramePotential(functions, trusted, s, frame.(i := frame.i + 1)) + FramePotential(functions, trusted, s, Frame(callee, 0, 0))
      < FramePotential(functions, trusted, s, frame)
  {
    NextInstruction(functions, trusted, s, frame);
    NumberedBelow(functions, trusted, s, Frame(callee, 0, 0));
    SpanPositive(functions, trusted, s);
    CalleeFits(Units(functions, s, Frame(callee, 0, 0)), Rank(s.order, callee), Rank(s.order, frame.f), Span(s));
    hide ShapeOK, FrameOK, Span, Rank, UnitCost, Rows, Units;
  }

  /** A whole call of a leaf of smaller rank costs less than one instruction of the caller. */
  lemma CalleeFits(units: nat, q: nat, r: nat, span: nat)
    requires q < r && units <= span && span > 0
    ensures Rows(units, UnitCost(q, span)) < UnitCost(r, span)
  {
    CostMonotone(q, r - 1, span);
    RowsMonotone(units, span, UnitCost(q, span));
  }

  lemma PlainStepDecreases(functions: seq<Function>, trusted: set<nat>, s: LeafShape, frame: Frame)
    requires ShapeOK(functions, trusted, s) && FrameOK(functions, s, frame) && frame.i < |functions[frame.f].blocks[frame.b].code|
    ensures FrameOK(functions, s, frame.(i := frame.i + 1))
    ensures FramePotential(functions, trusted, s, frame.(i := frame.i + 1)) < FramePotential(functions, trusted, s, frame)
  {
    NumberedBelow(functions, trusted, s, frame);
    NumberedBelow(functions, trusted, s, frame.(i := frame.i + 1));
    hide ShapeOK, FrameOK, Span, Rank;
    assert Units(functions, s, frame) == Units(functions, s, frame.(i := frame.i + 1)) + 1;
  }

  /** A leaf has no back edges, so a branch goes to a block of greater number. */
  lemma BranchGoesUp(functions: seq<Function>, trusted: set<nat>, s: LeafShape, frame: Frame, b: nat)
    requires ShapeOK(functions, trusted, s) && FrameOK(functions, s, frame) && Edge(functions[frame.f], frame.b, b)
    ensures FrameOK(functions, s, Frame(frame.f, b, 0)) && |functions[frame.f].blocks[b].code| + 1 <= s.width
    ensures frame.f in s.numbering && frame.b < |s.numbering[frame.f]| && b < |s.numbering[frame.f]|
    ensures s.numbering[frame.f][frame.b] < s.numbering[frame.f][b] < s.count
  {
    var f := functions[frame.f];
    assert MayBeLeaf(functions, s.order[Rank(s.order, frame.f)], trusted + Elements(s.order[..Rank(s.order, frame.f)]));
    ReachableNext(f, frame.b, b);
    assert !BackEdge(f, frame.b, b) by { assert frame.b !in f.latches; }
    hide ReachableBlock, BackEdge, Inferred;
  }

  lemma UnitsFall(functions: seq<Function>, trusted: set<nat>, s: LeafShape, frame: Frame, b: nat)
    requires ShapeOK(functions, trusted, s) && FrameOK(functions, s, frame) && Edge(functions[frame.f], frame.b, b)
    ensures FrameOK(functions, s, Frame(frame.f, b, 0))
    ensures frame.f in s.numbering && frame.b < |s.numbering[frame.f]| && s.numbering[frame.f][frame.b] < s.count
    ensures b < |s.numbering[frame.f]| && s.numbering[frame.f][b] < s.count
    ensures Units(functions, s, Frame(frame.f, b, 0)) < Units(functions, s, frame)
  {
    BranchGoesUp(functions, trusted, s, frame, b);
    hide ShapeOK, FrameOK, Edge;
    RowsMonotone(s.count - s.numbering[frame.f][b] - 1, s.count - s.numbering[frame.f][frame.b] - 1, s.width);
  }

  lemma BranchStepDecreases(functions: seq<Function>, trusted: set<nat>, s: LeafShape, frame: Frame, b: nat)
    requires ShapeOK(functions, trusted, s) && FrameOK(functions, s, frame) && frame.i == |functions[frame.f].blocks[frame.b].code|
    requires Edge(functions[frame.f], frame.b, b)
    ensures FrameOK(functions, s, Frame(frame.f, b, 0))
    ensures FramePotential(functions, trusted, s, Frame(frame.f, b, 0)) < FramePotential(functions, trusted, s, frame)
  {
    UnitsFall(functions, trusted, s, frame, b);
    var rate := UnitCost(Rank(s.order, frame.f), Span(s));
    UnitIsPositive(Rank(s.order, frame.f), Span(s));
    RowsMonotone(Units(functions, s, Frame(frame.f, b, 0)), Units(functions, s, frame), rate);
    hide ShapeOK, FrameOK, Edge, Units, Rows, Rank, Span, UnitCost;
  }

  lemma UnitIsPositive(r: nat, span: nat)
    ensures UnitCost(r, span) >= 1
  {
  }

  lemma EntryFrameOK(functions: seq<Function>, trusted: set<nat>, s: LeafShape, f: nat)
    requires ShapeOK(functions, trusted, s) && f in s.order && functions[f].blocks != []
    ensures FrameOK(functions, s, Frame(f, 0, 0))
  {
    assert Path(functions[f], [0]) && [0][0] == 0;
  }

  /** Every step inside a leaf uses up some of the potential. */
  lemma StepDecreases(functions: seq<Function>, trusted: set<nat>, s: LeafShape, stack: seq<Frame>, stack': seq<Frame>)
    requires ShapeOK(functions, trusted, s) && StackOK(functions, s, stack) && Step(functions, s.order, stack, stack')
    requires forall f :: f in s.order ==> functions[f].blocks != []
    ensures StackOK(functions, s, stack') && Potential(functions, trusted, s, stack') < Potential(functions, trusted, s, stack)
  {
    hide ShapeOK, FrameOK, FramePotential, Edge;
    var top, rest := stack[|stack| - 1], stack[..|stack| - 1];
    assert FrameOK(functions, s, top) && StackOK(functions, s, rest);
    TopFacts(functions, s, top);
    var code := functions[top.f].blocks[top.b].code;
    if top.i < |code| {
      var next := top.(i := top.i + 1);
      LeafInstruction(functions, trusted, s, top);
      if code[top.i].DirectCall? && code[top.i].callee in s.order {
        EntryFrameOK(functions, trusted, s, code[top.i].callee);
        CallStepDecreases(functions, trusted, s, top, code[top.i].callee);
        PotentialOfPush(functions, trusted, s, rest, next);
        PotentialOfPush(functions, trusted, s, rest + [next], Frame(code[top.i].callee, 0, 0));
        assert stack' == rest + [next] + [Frame(code[top.i].callee, 0, 0)];
      } else {
        PlainStepDecreases(functions, trusted, s, top);
        PotentialOfPush(functions, trusted, s, rest, next);
      }
    } else if stack' == rest {
      FramePotentialPositive(functions, trusted, s, top);
    } else {
      var b: nat :| Edge(functions[top.f], top.b, b) && stack' == rest + [Frame(top.f, b, 0)];
      BranchStepDecreases(functions, trusted, s, top, b);
      PotentialOfPush(functions, trusted, s, rest, Frame(top.f, b, 0));
    }
  }

  lemma TopFacts(functions: seq<Function>, s: LeafShape, frame: Frame)
    requires FrameOK(functions, s, frame)
    ensures frame.f in s.order && frame.f < |functions| && IsBlock(functions[frame.f], frame.b)
    ensures frame.i <= |functions[frame.f].blocks[frame.b].code|
  {
  }

  lemma FramePotentialPositive(functions: seq<Function>, trusted: set<nat>, s: LeafShape, frame: Frame)
    requires ShapeOK(functions, trusted, s) && FrameOK(functions, s, frame)
    ensures FramePotential(functions, trusted, s, frame) > 0
  {
    NumberedBelow(functions, trusted, s, frame);
    hide ShapeOK, FrameOK;
  }

  ghost predicate LeafRun(functions: seq<Function>, order: seq<nat>, run: seq<seq<Frame>>, f: nat) {
    && run != [] && run[0] == [Frame(f, 0, 0)]
    && forall k :: 0 <= k < |run| - 1 ==> Step(functions, order, run[k], run[k + 1])
  }

  lemma {:induction false} LeafRunPotential(functions: seq<Function>, trusted: set<nat>, s: LeafShape, run: seq<seq<Frame>>, f: nat, n: nat)
    requires ShapeOK(functions, trusted, s) && f in s.order && LeafRun(functions, s.order, run, f) && n < |run|
    requires forall g :: g in s.order ==> functions[g].blocks != []
    ensures StackOK(functions, s, run[n]) && Potential(functions, trusted, s, run[n]) + n <= FullCost(Rank(s.order, f), Span(s))
  {
    hide ShapeOK, FrameOK, Step, Rank, Span;
    if n == 0 {
      EntryFrameOK(functions, trusted, s, f);
      PotentialOfPush(functions, trusted, s, [], Frame(f, 0, 0));
      assert [] + [Frame(f, 0, 0)] == run[0];
      NumberedBelow(functions, trusted, s, Frame(f, 0, 0));
      RowsMonotone(Units(functions, s, Frame(f, 0, 0)), Span(s), UnitCost(Rank(s.order, f), Span(s)));
    } else {
      LeafRunPotential(functions, trusted, s, run, f, n - 1);
      assert Step(functions, s.order, run[n - 1], run[n - 1 + 1]);
      StepDecreases(functions, trusted, s, run[n - 1], run[n]);
    }
  }

  /** A call of an inferred leaf runs for a bounded number of steps, and executes no allocation, no
      indirect call and no explicit safepoint: only the trusted functions and intrinsics it calls
      are outside this claim. */
  lemma LeafRunIsBounded(functions: seq<Function>, trusted: set<nat>, s: LeafShape, run: seq<seq<Frame>>, f: nat)
    requires ShapeOK(functions, trusted, s) && f in s.order && LeafRun(functions, s.order, run, f)
    requires forall g :: g in s.order ==> functions[g].blocks != []
    ensures |run| <= FullCost(Rank(s.order, f), Span(s)) + 1
    ensures forall k, j :: 0 <= k < |run| && 0 <= j < |run[k]| ==> FrameOK(functions, s, run[k][j]) && Harmless(functions, run[k][j])
  {
    LeafRunPotential(functions, trusted, s, run, f, |run| - 1);
    hide ShapeOK, FrameOK, Step, Harmless, LeafRun, Rank, Span;
    forall k, j | 0 <= k < |run| && 0 <= j < |run[k]|
      ensures FrameOK(functions, s, run[k][j]) && Harmless(functions, run[k][j])
    {
      LeafRunPotential(functions, trusted, s, run, f, k);
      HarmlessFrame(functions, trusted, s, run[k][j]);
    }
  }

  /** The instruction a frame is at is no allocation, indirect call or explicit safepoint. */
  predicate Harmless(functions: seq<Function>, frame: Frame) {
    frame.f < |functions| && IsBlock(functions[frame.f], frame.b) && frame.i < |functions[frame.f].blocks[frame.b].code| ==>
      var instr := functions[frame.f].blocks[frame.b].code[frame.i];
      && !instr.OtherCall? && !IsAllocationCall(functions, instr)
      && (instr.DirectCall? && instr.callee < |functions| && !functions[instr.callee].isIntrinsic ==>
            !IsExplicitSafepoint(functions[instr.callee].name))
  }

  lemma HarmlessFrame(functions: seq<Function>, trusted: set<nat>, s: LeafShape, frame: Frame)
    requires ShapeOK(functions, trusted, s) && FrameOK(functions, s, frame)
    ensures Harmless(functions, frame)
  {
    if frame.i < |functions[frame.f].blocks[frame.b].code| { LeafInstruction(functions, trusted, s, frame); }
  }

  // ----- Why the bound needs reducible control flow -----

  /** A loop that can be entered at either of its two blocks: neither dominates the other, so no edge
      of it is a back edge. */
  const TwoEntries: Function :=
    Function(OtherName, false, false, false, false, [Block([], [1, 2]), Block([], [2]), Block([], [1])], {})

  lemma TwoEntriesHasNoBackEdge(a: nat, b: nat)
    ensures !BackEdge(TwoEntries, a, b)
  {
    var f := TwoEntries;
    assert Path(f, [0]) && Path(f, [0, 1]) && Path(f, [0, 2]);
    if Edge(f, a, b) {
      var path := if a == 0 then [0] else [0, a];
      assert Path(f, path) && path[0] == 0 && path[|path| - 1] == a && b !in path;
    }
  }

  function TurnsAround(n: nat): (run: seq<seq<Frame>>)
    ensures |run| == n + 1
    ensures forall k :: 0 <= k < |run| ==> run[k] == [Frame(0, if k == 0 then 0 else if k % 2 == 1 then 1 else 2, 0)]
  {
    seq(n + 1, k requires 0 <= k < n + 1 => [Frame(0, if k == 0 then 0 else if k % 2 == 1 then 1 else 2, 0)])
  }

  lemma TwoEntriesIsInferred()
    ensures LoopsKnown(TwoEntries) && Inferred([TwoEntries], Trusted([TwoEntries]), [0])
  {
    forall a: nat, b: nat
      ensures !BackEdge(TwoEntries, a, b)
    {
      TwoEntriesHasNoBackEdge(a, b);
    }
    hide BackEdge;
  }

  lemma TurnIsStep(a: nat, b: nat)
    requires Edge(TwoEntries, a, b)
    ensures Step([TwoEntries], [0], [Frame(0, a, 0)], [Frame(0, b, 0)])
  {
    var stack := [Frame(0, a, 0)];
    assert stack[..0] == [] && [Frame(0, b, 0)] == [] + [Frame(0, b, 0)];
  }

  /** Inference makes it a leaf, as the loop analysis rightly finds no latch, and yet a call of it can
      run for any number of steps without a poll. */
  lemma IrreducibleLeafNeverEnds(n: nat)
    ensures LoopsKnown(TwoEntries) && Inferred([TwoEntries], Trusted([TwoEntries]), [0])
    ensures LeafRun([TwoEntries], [0], TurnsAround(n), 0) && |TurnsAround(n)| == n + 1
  {
    TwoEntriesIsInferred();
    hide LoopsKnown, Inferred, Trusted;
    assert Edge(TwoEntries, 0, 1) && Edge(TwoEntries, 1, 2) && Edge(TwoEntries, 2, 1);
    TurnIsStep(0, 1);
    TurnIsStep(1, 2);
    TurnIsStep(2, 1);
    hide Step, Edge;
  }
}
