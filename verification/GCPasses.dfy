/** The garbage-collection passes over a module: which functions need no safepoints, and where the
    others poll. */
module GCPasses {
  import opened Collections
  import opened ControlFlow

  const FIRST_STATEPOINT_ID: nat := 1

  predicate IsKnownRuntimeGCLeaf(name: Name) {
    name == AllocationName || name == ArrayLengthName
  }

  predicate IsExplicitSafepoint(name: Name) {
    name == PollName || name == RequestName
  }

  predicate IsAllocationCall(functions: seq<Function>, instr: Instr) {
    instr.DirectCall? && instr.callee < |functions| && functions[instr.callee].name == AllocationName
  }

  /** callCanRemainLeaf, with the allocation test made beside it. */
  predicate CallIsHarmless(functions: seq<Function>, instr: Instr, leaves: set<nat>) {
    match instr
    case Plain => true
    case OtherCall => false
    case DirectCall(callee, _) =>
      && callee < |functions| && functions[callee].name != AllocationName
      && (functions[callee].isIntrinsic ||
          (!IsExplicitSafepoint(functions[callee].name) && (functions[callee].gcLeaf || callee in leaves)))
  }

  ghost predicate BlocksAreHarmless(functions: seq<Function>, f: nat, leaves: set<nat>, blocks: nat)
    requires f < |functions| && blocks <= |functions[f].blocks|
  {
    forall b, i :: 0 <= b < blocks && 0 <= i < |functions[f].blocks[b].code| ==> CallIsHarmless(functions, functions[f].blocks[b].code[i], leaves)
  }

  /** The rule by which a function becomes a leaf. */
  ghost predicate MayBeLeaf(functions: seq<Function>, f: nat, leaves: set<nat>) {
    && f < |functions| && !functions[f].isDeclaration && !functions[f].isIntrinsic && functions[f].latches == {}
    && BlocksAreHarmless(functions, f, leaves, |functions[f].blocks|)
  }

  predicate SameButLeaf(a: Function, b: Function) {
    a == b.(gcLeaf := a.gcLeaf)
  }

  function LeafAttributes(functions: seq<Function>): set<nat> {
    set f: nat | 0 <= f < |functions| && functions[f].gcLeaf
  }

  /** The functions whose attribute is taken on trust: set beforehand, or runtime entry points. */
  function Trusted(functions: seq<Function>): set<nat> {
    set f: nat | 0 <= f < |functions| && (functions[f].gcLeaf || IsKnownRuntimeGCLeaf(functions[f].name))
  }

  /** functions with the leaf attribute on exactly the given ones. */
  ghost predicate WithLeaves(functions: seq<Function>, original: seq<Function>, leaves: set<nat>) {
    && |functions| == |original| && (forall f :: 0 <= f < |functions| ==> SameButLeaf(functions[f], original[f]))
    && forall f: nat :: f in leaves <==> f < |functions| && functions[f].gcLeaf
  }

  /** Every leaf that is not trusted obeyed the rule when only the trusted ones and those before it
      in the order were leaves. */
  ghost predicate Inferred(original: seq<Function>, trusted: set<nat>, order: seq<nat>) {
    forall k :: 0 <= k < |order| ==>
      order[k] !in trusted && order[k] !in order[..k] && MayBeLeaf(original, order[k], trusted + Elements(order[..k]))
  }

  ghost predicate ClosedUnderRule(original: seq<Function>, leaves: set<nat>) {
    forall f: nat :: MayBeLeaf(original, f, leaves) ==> f in leaves
  }

  /** The inferred leaves are contained in every set that has the trusted ones and is closed under the rule. */
  lemma {:induction false} InferredIsLeast(original: seq<Function>, trusted: set<nat>, order: seq<nat>, other: set<nat>)
    requires Inferred(original, trusted, order) && trusted <= other && ClosedUnderRule(original, other)
    ensures trusted + Elements(order) <= other
  {
    hide MayBeLeaf;
    if order != [] {
      var last := |order| - 1;
      assert forall k :: 0 <= k < last ==> order[..last][..k] == order[..k];
      InferredIsLeast(original, trusted, order[..last], other);
      HarmlessMonotone(original, order[last], trusted + Elements(order[..last]), other);
    }
  }

  lemma HarmlessMonotone(functions: seq<Function>, f: nat, leaves: set<nat>, more: set<nat>)
    requires MayBeLeaf(functions, f, leaves) && leaves <= more
    ensures MayBeLeaf(functions, f, more)
  {
  }

  /** Only the trusted attribute bits matter to the rule once they are in the set. */
  lemma HarmlessWithAttributes(functions: seq<Function>, original: seq<Function>, leaves: set<nat>, instr: Instr)
    requires WithLeaves(functions, original, leaves) && LeafAttributes(original) <= leaves
    ensures CallIsHarmless(functions, instr, leaves) == CallIsHarmless(original, instr, leaves)
  {
    if instr.DirectCall? && instr.callee < |functions| {
      assert SameButLeaf(functions[instr.callee], original[instr.callee]);
      assert original[instr.callee].gcLeaf ==> instr.callee in LeafAttributes(original);
    }
  }

  /** A leaf: marked as one beforehand, an entry point of the runtime that is one, or a defined function
      without loops that calls nothing but intrinsics and leaves, no safepoint and no allocation. */
  ghost predicate IsLeafBy(functions: seq<Function>, f: nat, leaves: set<nat>)
    requires f < |functions|
  {
    || functions[f].gcLeaf || functions[f].name == AllocationName || functions[f].name == ArrayLengthName
    || (!functions[f].isDeclaration && !functions[f].isIntrinsic && functions[f].latches == {}
        && forall b, i :: 0 <= b < |functions[f].blocks| && 0 <= i < |functions[f].blocks[b].code| ==>
             CallsALeaf(functions, functions[f].blocks[b].code[i], leaves))
  }

  predicate CallsALeaf(functions: seq<Function>, instr: Instr, leaves: set<nat>) {
    instr == Plain ||
    (instr.DirectCall? && instr.callee < |functions| &&
     var callee := functions[instr.callee];
     && callee.name != AllocationName
     && (callee.isIntrinsic || (callee.name != PollName && callee.name != RequestName && instr.callee in leaves)))
  }

  lemma LeafByRule(functions: seq<Function>, f: nat, leaves: set<nat>)
    requires f < |functions| && Trusted(functions) <= leaves
    ensures IsLeafBy(functions, f, leaves) <==> f in Trusted(functions) || MayBeLeaf(functions, f, leaves)
  {
    forall instr
      ensures CallsALeaf(functions, instr, leaves) <==> CallIsHarmless(functions, instr, leaves)
    {
      if instr.DirectCall? && instr.callee < |functions| && functions[instr.callee].gcLeaf { assert instr.callee in Trusted(functions); }
    }
    hide CallsALeaf, CallIsHarmless;
  }

  lemma LeavesObey(functions: seq<Function>, original: seq<Function>, leaves: set<nat>, order: seq<nat>)
    requires WithLeaves(functions, original, leaves) && leaves == Trusted(original) + Elements(order)
    requires Inferred(original, Trusted(original), order) && ClosedUnderRule(original, leaves)
    ensures forall f: nat :: f < |functions| ==> (functions[f].gcLeaf <==> IsLeafBy(original, f, leaves))
  {
    hide SameButLeaf, MayBeLeaf, IsLeafBy;
    forall f: nat | f < |functions|
      ensures functions[f].gcLeaf <==> IsLeafBy(original, f, leaves)
    {
      LeafByRule(original, f, leaves);
      if f in Elements(order) {
        var k :| 0 <= k < |order| && order[k] == f;
        HarmlessMonotone(original, f, Trusted(original) + Elements(order[..k]), leaves);
      }
    }
  }

  class GCModule {
    var functions: seq<Function>

    constructor (functions: seq<Function>)
      ensures this.functions == functions
    {
      this.functions := functions;
    }

    method SetLeaf(f: nat)
      requires f < |functions|
      modifies this
      ensures functions == old(functions)[f := old(functions)[f].(gcLeaf := true)]
    {
      functions := functions[f := functions[f].(gcLeaf := true)];
    }

    method MarkKnownRuntimeGCLeafFunctions()
      modifies this
      ensures WithLeaves(functions, old(functions), Trusted(old(functions)))
    {
      ghost var original := functions;
      for f := 0 to |functions|
        invariant |functions| == |original|
        invariant forall g :: 0 <= g < |functions| ==> SameButLeaf(functions[g], original[g])
        invariant forall g :: 0 <= g < f ==> functions[g].gcLeaf == (original[g].gcLeaf || IsKnownRuntimeGCLeaf(original[g].name))
        invariant forall g :: f <= g < |functions| ==> functions[g] == original[g]
      {
        if IsKnownRuntimeGCLeaf(functions[f].name) {
          SetLeaf(f);
        }
      }
    }

    /** Whether every call of a loop-free function keeps it a leaf. */
    method CanRemainLeaf(f: nat, leaves: set<nat>) returns (r: bool)
      requires f < |functions|
      ensures r <==> BlocksAreHarmless(functions, f, leaves, |functions[f].blocks|)
    {
      hide CallIsHarmless;
      for b := 0 to |functions[f].blocks|
        invariant BlocksAreHarmless(functions, f, leaves, b)
      {
        var code := functions[f].blocks[b].code;
        for i := 0 to |code|
          invariant forall k :: 0 <= k < i ==> CallIsHarmless(functions, functions[f].blocks[b].code[k], leaves)
        {
          if !CallIsHarmless(functions, code[i], leaves) {
            assert !CallIsHarmless(functions, functions[f].blocks[b].code[i], leaves);
            return false;
          }
        }
      }
      return true;
    }

    /** inferManagedGCLeafFunctions: the leaves are the trusted functions and the least set of others
        that is closed under the rule. */
    method InferManagedGCLeafFunctions() returns (ghost leaves: set<nat>, ghost order: seq<nat>)
      modifies this
      ensures var trusted := Trusted(old(functions));
        && WithLeaves(functions, old(functions), leaves) && leaves == trusted + Elements(order)
        && Inferred(old(functions), trusted, order) && ClosedUnderRule(old(functions), leaves)
      ensures forall f: nat :: f < |functions| ==> (functions[f].gcLeaf <==> IsLeafBy(old(functions), f, leaves))
    {
      hide CallIsHarmless, BlocksAreHarmless, SameButLeaf, LeavesSoFar, WithLeaves;
      ghost var original := functions;
      ghost var trusted := Trusted(original);
      MarkKnownRuntimeGCLeafFunctions();
      var leafFunctions := LeafAttributes(functions);
      leaves, order := trusted, [];
      StartOfInference(functions, original);
      var changed := true;
      while changed
        invariant LeavesSoFar(functions, original, trusted, leaves, order) && leafFunctions == leaves && |functions| == |original|
        invariant |order| <= |functions| && (!changed ==> ClosedUnderRule(original, leaves))
        decreases |functions| - |order|, changed
      {
        changed := false;
        ghost var before := order;
        for f := 0 to |functions|
          invariant LeavesSoFar(functions, original, trusted, leaves, order) && leafFunctions == leaves && |functions| == |original|
          invariant if changed then |order| > |before| else order == before
          invariant !changed ==> forall g: nat :: g < f && MayBeLeaf(original, g, leaves) ==> g in leaves
        {
          RuleSeenHere(functions, original, trusted, leaves, order, f);
          if !functions[f].isDeclaration && !functions[f].isIntrinsic && !functions[f].gcLeaf {
            if functions[f].latches == {} {
              var canRemainLeaf := CanRemainLeaf(f, leafFunctions);
              if canRemainLeaf {
                OneMoreLeaf(functions, original, trusted, leaves, order, f);
                SetLeaf(f);
                leafFunctions := leafFunctions + {f};
                leaves := leaves + {f};
                order := order + [f];
                changed := true;
              }
            }
          }
        }
        OrderIsShort(functions, original, trusted, leaves, order);
      }
      EndOfInference(functions, original, trusted, leaves, order);
      LeavesObey(functions, original, leaves, order);
    }

    /** prepareManagedGCModule: every defined function that is not a leaf is put under the collector. */
    method PrepareManagedGCModule() returns (ghost leaves: set<nat>, ghost order: seq<nat>)
      modifies this
      ensures |functions| == |old(functions)|
      ensures forall f :: 0 <= f < |functions| ==> functions[f] == old(functions)[f].(
        gcLeaf := f in leaves, gc := old(functions)[f].gc || (!old(functions)[f].isDeclaration && !old(functions)[f].isIntrinsic && f !in leaves))
      ensures var trusted := Trusted(old(functions));
        && leaves == trusted + Elements(order) && Inferred(old(functions), trusted, order) && ClosedUnderRule(old(functions), leaves)
    {
      hide Inferred, ClosedUnderRule, Trusted, Elements;
      ghost var original := functions;
      leaves, order := InferManagedGCLeafFunctions();
      ghost var inferred := functions;
      for f := 0 to |functions|
        invariant |functions| == |original|
        invariant forall g :: f <= g < |functions| ==> functions[g] == inferred[g]
        invariant forall g :: 0 <= g < f ==> functions[g] == inferred[g].(
          gc := original[g].gc || (!original[g].isDeclaration && !original[g].isIntrinsic && g !in leaves))
      {
        assert SameButLeaf(inferred[f], original[f]) && (f in leaves <==> inferred[f].gcLeaf);
        if !functions[f].isDeclaration && !functions[f].isIntrinsic && !functions[f].gcLeaf {
          functions := functions[f := functions[f].(gc := true)];
        }
      }
      forall f | 0 <= f < |functions|
        ensures functions[f] == original[f].(
          gcLeaf := f in leaves, gc := original[f].gc || (!original[f].isDeclaration && !original[f].isIntrinsic && f !in leaves))
      {
        assert SameButLeaf(inferred[f], original[f]) && (f in leaves <==> inferred[f].gcLeaf);
      }
    }

    /** insertManagedSafepointPolls, for the module's poll function. Each id from the first up to the
        next is given to exactly one new poll. */
    method InsertManagedSafepointPolls(poll: nat) returns (nextStatepointID: nat)
      requires poll < |functions| ==> functions[poll].name != AllocationName
      modifies this
      ensures |functions| == |old(functions)|
      ensures nextStatepointID == 1 + PollsNeededIn(old(functions), |old(functions)|, poll, Allocators(old(functions)))
      ensures forall f :: 0 <= f < |functions| ==> Polled(old(functions)[f], functions[f], poll, Allocators(old(functions)))
      ensures forall x ::
        PollsInFunctions(functions, poll, x) == PollsInFunctions(old(functions), poll, x) + Between(x, 1, nextStatepointID)
      ensures NoPolls(old(functions), poll) ==> IdsAreDistinct(functions, poll, nextStatepointID)
      ensures forall f :: 0 <= f < |functions| && !old(functions)[f].isDeclaration && old(functions)[f].gc ==> PollsWhereNeeded(functions, f, poll)
    {
      assert poll !in Allocators(functions);
      hide Polled, Allocators, PollsInBlocks, PollsInFunctions, UnpolledBlocks, LatchesBelow, NoPolls, IdsAreDistinct, PollsWhereNeeded;
      nextStatepointID := FIRST_STATEPOINT_ID;
      ghost var original := functions;
      var allocators := Allocators(functions);
      for f := 0 to |functions|
        invariant |functions| == |original| && nextStatepointID == 1 + PollsNeededIn(original, f, poll, allocators)
        invariant forall g :: f <= g < |functions| ==> functions[g] == original[g]
        invariant forall g :: 0 <= g < f ==> Polled(original[g], functions[g], poll, allocators)
        invariant forall x ::
          PollsInFunctions(functions, poll, x) == PollsInFunctions(original, poll, x) + Between(x, 1, nextStatepointID)
      {
        ghost var id := nextStatepointID;
        var function' := functions[f];
        if !function'.isDeclaration && function'.gc && function'.blocks != [] {
          function', nextStatepointID := PollFunction(function', poll, allocators, nextStatepointID);
        } else {
          NotPolled(function', poll, allocators);
        }
        PollsAfterUpdate(functions, f, function', poll);
        functions := functions[f := function'];
      }
      if NoPolls(original, poll) { PollIdsAreDistinct(original, functions, poll, nextStatepointID); }
      SameNames(original, functions, poll);
      forall f | 0 <= f < |functions| && !original[f].isDeclaration && original[f].gc
        ensures PollsWhereNeeded(functions, f, poll)
      {
        PolledWhereNeeded(original, functions, f, poll);
      }
    }
  }

  // ----- Polls -----

  /** In function f every call of an allocation entry point is followed at once by a call of the poll
      function, and every latch ends with one. */
  ghost predicate PollsWhereNeeded(functions: seq<Function>, f: nat, poll: nat)
    requires f < |functions|
  {
    && (forall b, i :: 0 <= b < |functions[f].blocks| && 0 <= i < |functions[f].blocks[b].code| ==>
          CallIsFollowedUp(functions, functions[f].blocks[b].code, i, poll))
    && forall b :: 0 <= b < |functions[f].blocks| && b in functions[f].latches ==>
         var code := functions[f].blocks[b].code;
         code != [] && code[|code| - 1].DirectCall? && code[|code| - 1].callee == poll
  }

  predicate CallIsFollowedUp(functions: seq<Function>, code: seq<Instr>, i: nat, poll: nat)
    requires i < |code|
  {
    code[i].DirectCall? && code[i].callee < |functions| && functions[code[i].callee].name == AllocationName ==>
      i + 1 < |code| && code[i + 1].DirectCall? && code[i + 1].callee == poll
  }

  lemma SameNames(before: seq<Function>, functions: seq<Function>, poll: nat)
    requires |functions| == |before| && forall f :: 0 <= f < |functions| ==> Polled(before[f], functions[f], poll, Allocators(before))
    ensures forall f :: 0 <= f < |functions| ==> functions[f].name == before[f].name && functions[f].latches == before[f].latches
  {
    hide BlockPolled, Allocators;
  }

  lemma PolledWhereNeeded(before: seq<Function>, functions: seq<Function>, f: nat, poll: nat)
    requires |functions| == |before| && f < |functions| && Polled(before[f], functions[f], poll, Allocators(before))
    requires forall g :: 0 <= g < |functions| ==> functions[g].name == before[g].name && functions[g].latches == before[g].latches
    requires !before[f].isDeclaration && before[f].gc
    ensures PollsWhereNeeded(functions, f, poll)
  {
    hide WithoutPolls;
    forall b | 0 <= b < |functions[f].blocks|
      ensures forall i :: 0 <= i < |functions[f].blocks[b].code| ==> CallIsFollowedUp(functions, functions[f].blocks[b].code, i, poll)
      ensures b in functions[f].latches ==> EndsWithPoll(functions[f].blocks[b].code, poll)
    {
      assert BlockPolled(before[f].blocks[b], functions[f].blocks[b], poll, Allocators(before), b in before[f].latches);
      forall i | 0 <= i < |functions[f].blocks[b].code|
        ensures CallIsFollowedUp(functions, functions[f].blocks[b].code, i, poll)
      {
        var instr := functions[f].blocks[b].code[i];
        assert instr.DirectCall? && instr.callee < |functions| && functions[instr.callee].name == AllocationName ==> Allocates(instr, Allocators(before));
      }
    }
  }

  function Allocators(functions: seq<Function>): set<nat> {
    set f: nat | 0 <= f < |functions| && functions[f].name == AllocationName
  }

  predicate Allocates(instr: Instr, allocators: set<nat>) {
    instr.DirectCall? && instr.callee in allocators
  }

  predicate Polls(instr: Instr, poll: nat) {
    instr.DirectCall? && instr.callee == poll
  }

  /** How many polls of a list of instructions, blocks or functions carry id x. */
  function PollsInCode(code: seq<Instr>, poll: nat, x: nat): nat {
    if code == [] then 0
    else PollsInCode(code[..|code| - 1], poll, x) + if Polls(code[|code| - 1], poll) && code[|code| - 1].id == x then 1 else 0
  }

  function PollsInBlocks(blocks: seq<Block>, poll: nat, x: nat): nat {
    if blocks == [] then 0 else PollsInBlocks(blocks[..|blocks| - 1], poll, x) + PollsInCode(blocks[|blocks| - 1].code, poll, x)
  }

  function PollsInFunctions(functions: seq<Function>, poll: nat, x: nat): nat {
    if functions == [] then 0
    else PollsInFunctions(functions[..|functions| - 1], poll, x) + PollsInBlocks(functions[|functions| - 1].blocks, poll, x)
  }

  // How many polls are called for: behind allocations that have none yet, and at latches.

  predicate NeedsPoll(code: seq<Instr>, i: nat, poll: nat, allocators: set<nat>)
    requires i < |code|
  {
    Allocates(code[i], allocators) && !(i + 1 < |code| && Polls(code[i + 1], poll))
  }

  function UnpolledAllocations(code: seq<Instr>, n: nat, poll: nat, allocators: set<nat>): nat
    requires n <= |code|
  {
    if n == 0 then 0 else UnpolledAllocations(code, n - 1, poll, allocators) + if NeedsPoll(code, n - 1, poll, allocators) then 1 else 0
  }

  function UnpolledBlocks(f: Function, n: nat, poll: nat, allocators: set<nat>): nat
    requires n <= |f.blocks|
  {
    if n == 0 then 0
    else UnpolledBlocks(f, n - 1, poll, allocators) + UnpolledAllocations(f.blocks[n - 1].code, |f.blocks[n - 1].code|, poll, allocators)
  }

  function LatchesBelow(f: Function, n: nat): nat {
    if n == 0 then 0 else LatchesBelow(f, n - 1) + if n - 1 in f.latches then 1 else 0
  }

  function PollsNeeded(f: Function, poll: nat, allocators: set<nat>): nat {
    if f.isDeclaration || !f.gc || f.blocks == [] then 0
    else UnpolledBlocks(f, |f.blocks|, poll, allocators) + LatchesBelow(f, |f.blocks|)
  }

  function PollsNeededIn(functions: seq<Function>, n: nat, poll: nat, allocators: set<nat>): nat
    requires n <= |functions|
  {
    if n == 0 then 0 else PollsNeededIn(functions, n - 1, poll, allocators) + PollsNeeded(functions[n - 1], poll, allocators)
  }

  /** Instruction i of block b of function f is a poll. */
  predicate PollAt(functions: seq<Function>, f: nat, b: nat, i: nat, poll: nat) {
    f < |functions| && b < |functions[f].blocks| && i < |functions[f].blocks[b].code| && Polls(functions[f].blocks[b].code[i], poll)
  }

  function IdAt(functions: seq<Function>, f: nat, b: nat, i: nat, poll: nat): nat
    requires PollAt(functions, f, b, i, poll)
  {
    functions[f].blocks[b].code[i].id
  }

  // Two different polls with one id are counted twice.

  lemma {:induction false} CountedInCode(code: seq<Instr>, poll: nat, x: nat, i: nat, j: nat)
    requires i <= j < |code| && Polls(code[i], poll) && code[i].id == x && Polls(code[j], poll) && code[j].id == x
    ensures PollsInCode(code, poll, x) >= if i < j then 2 else 1
  {
    var front := code[..|code| - 1];
    if j < |code| - 1 {
      assert front[i] == code[i] && front[j] == code[j];
      CountedInCode(front, poll, x, i, j);
    } else if i < j {
      assert front[i] == code[i];
      CountedInCode(front, poll, x, i, i);
    }
  }

  lemma {:induction false} CountedInBlocks(blocks: seq<Block>, poll: nat, x: nat, b: nat, c: nat)
    requires b <= c < |blocks|
    ensures PollsInBlocks(blocks, poll, x) >= PollsInCode(blocks[c].code, poll, x) + if b < c then PollsInCode(blocks[b].code, poll, x) else 0
  {
    hide PollsInCode;
    var front := blocks[..|blocks| - 1];
    if c < |blocks| - 1 {
      assert front[b] == blocks[b] && front[c] == blocks[c];
      CountedInBlocks(front, poll, x, b, c);
    } else if b < c {
      assert front[b] == blocks[b];
      CountedInBlocks(front, poll, x, b, b);
    }
  }

  lemma {:induction false} CountedInFunctions(functions: seq<Function>, poll: nat, x: nat, f: nat, g: nat)
    requires f <= g < |functions|
    ensures PollsInFunctions(functions, poll, x) >=
      PollsInBlocks(functions[g].blocks, poll, x) + if f < g then PollsInBlocks(functions[f].blocks, poll, x) else 0
  {
    hide PollsInBlocks;
    var front := functions[..|functions| - 1];
    if g < |functions| - 1 {
      assert front[f] == functions[f] && front[g] == functions[g];
      CountedInFunctions(front, poll, x, f, g);
    } else if f < g {
      assert front[f] == functions[f];
      CountedInFunctions(front, poll, x, f, f);
    }
  }

  lemma CountedAt(functions: seq<Function>, poll: nat, f: nat, b: nat, i: nat)
    requires PollAt(functions, f, b, i, poll)
    ensures var x := IdAt(functions, f, b, i, poll);
      PollsInCode(functions[f].blocks[b].code, poll, x) >= 1 && PollsInBlocks(functions[f].blocks, poll, x) >= 1 && PollsInFunctions(functions, poll, x) >= 1
  {
    var x := IdAt(functions, f, b, i, poll);
    CountedInCode(functions[f].blocks[b].code, poll, x, i, i);
    CountedInBlocks(functions[f].blocks, poll, x, b, b);
    CountedInFunctions(functions, poll, x, f, f);
    hide PollsInCode, PollsInBlocks, PollsInFunctions;
  }

  /** Polls at two places of a program in which every id is counted once have different ids. */
  lemma CountedOnceIsDistinct(functions: seq<Function>, poll: nat, f: nat, b: nat, i: nat, g: nat, c: nat, j: nat)
    requires PollAt(functions, f, b, i, poll) && PollAt(functions, g, c, j, poll) && (f, b, i) != (g, c, j)
    requires forall x :: PollsInFunctions(functions, poll, x) <= 1
    ensures IdAt(functions, f, b, i, poll) != IdAt(functions, g, c, j, poll)
  {
    var x := IdAt(functions, f, b, i, poll);
    if IdAt(functions, g, c, j, poll) == x {
      CountedAt(functions, poll, f, b, i);
      CountedAt(functions, poll, g, c, j);
      hide PollsInCode, PollsInBlocks, PollsInFunctions;
      if f != g {
        CountedInFunctions(functions, poll, x, if f < g then f else g, if f < g then g else f);
      } else if b != c {
        CountedInBlocks(functions[f].blocks, poll, x, if b < c then b else c, if b < c then c else b);
        CountedInFunctions(functions, poll, x, f, f);
      } else {
        CountedInCode(functions[f].blocks[b].code, poll, x, if i < j then i else j, if i < j then j else i);
        CountedInBlocks(functions[f].blocks, poll, x, b, b);
        CountedInFunctions(functions, poll, x, f, f);
      }
      assert false;
    }
  }

  /** All ids are different and lie between 1 and the next. */
  ghost predicate IdsAreDistinct(functions: seq<Function>, poll: nat, next: nat) {
    && (forall f: nat, b: nat, i: nat :: PollAt(functions, f, b, i, poll) ==> 1 <= IdAt(functions, f, b, i, poll) < next)
    && (forall f: nat, b: nat, i: nat, g: nat, c: nat, j: nat ::
          PollAt(functions, f, b, i, poll) && PollAt(functions, g, c, j, poll) && (f, b, i) != (g, c, j) ==>
          IdAt(functions, f, b, i, poll) != IdAt(functions, g, c, j, poll))
  }

  /** If there were no polls before the pass, which gives out each id once, all poll ids are different. */
  lemma PollIdsAreDistinct(before: seq<Function>, functions: seq<Function>, poll: nat, next: nat)
    requires forall x :: PollsInFunctions(functions, poll, x) == PollsInFunctions(before, poll, x) + Between(x, 1, next)
    requires NoPolls(before, poll)
    ensures IdsAreDistinct(functions, poll, next)
  {
    forall x
      ensures PollsInFunctions(functions, poll, x) == Between(x, 1, next)
    {
      NoneInFunctions(before, poll, x);
    }
    hide NoPolls;
    forall f: nat, b: nat, i: nat | PollAt(functions, f, b, i, poll)
      ensures 1 <= IdAt(functions, f, b, i, poll) < next
    {
      CountedAt(functions, poll, f, b, i);
      hide PollsInFunctions;
      assert PollsInFunctions(functions, poll, IdAt(functions, f, b, i, poll)) >= 1;
    }
    forall f: nat, b: nat, i: nat, g: nat, c: nat, j: nat |
      PollAt(functions, f, b, i, poll) && PollAt(functions, g, c, j, poll) && (f, b, i) != (g, c, j)
      ensures IdAt(functions, f, b, i, poll) != IdAt(functions, g, c, j, poll)
    {
      hide PollsInFunctions;
      CountedOnceIsDistinct(functions, poll, f, b, i, g, c, j);
    }
  }

  /** No function has a poll. */
  ghost predicate NoPolls(functions: seq<Function>, poll: nat) {
    forall f: nat, b: nat, i: nat :: !PollAt(functions, f, b, i, poll)
  }

  lemma {:induction false} NoneInCode(code: seq<Instr>, poll: nat, x: nat)
    requires forall i :: 0 <= i < |code| ==> !Polls(code[i], poll)
    ensures PollsInCode(code, poll, x) == 0
  {
    if code != [] { NoneInCode(code[..|code| - 1], poll, x); }
  }

  lemma {:induction false} NoneInBlocks(blocks: seq<Block>, poll: nat, x: nat)
    requires forall b, i :: 0 <= b < |blocks| && 0 <= i < |blocks[b].code| ==> !Polls(blocks[b].code[i], poll)
    ensures PollsInBlocks(blocks, poll, x) == 0
  {
    if blocks != [] {
      NoneInBlocks(blocks[..|blocks| - 1], poll, x);
      NoneInCode(blocks[|blocks| - 1].code, poll, x);
    }
  }

  lemma {:induction false} NoneInFunctions(functions: seq<Function>, poll: nat, x: nat)
    requires NoPolls(functions, poll)
    ensures PollsInFunctions(functions, poll, x) == 0
  {
    if functions != [] {
      var last := |functions| - 1;
      forall f: nat, b: nat, i: nat
        ensures !PollAt(functions[..last], f, b, i, poll)
      {
        assert !PollAt(functions, f, b, i, poll);
      }
      NoneInFunctions(functions[..last], poll, x);
      forall b, i | 0 <= b < |functions[last].blocks| && 0 <= i < |functions[last].blocks[b].code|
        ensures !Polls(functions[last].blocks[b].code[i], poll)
      {
        assert !PollAt(functions, last, b, i, poll);
      }
      NoneInBlocks(functions[last].blocks, poll, x);
    }
  }

  function Between(x: nat, lo: nat, hi: nat): nat {
    if lo <= x < hi then 1 else 0
  }

  lemma PollsInLonger(code: seq<Instr>, instr: Instr, poll: nat)
    ensures forall x :: PollsInCode(code + [instr], poll, x) == PollsInCode(code, poll, x) + if Polls(instr, poll) && instr.id == x then 1 else 0
    ensures WithoutPolls(code + [instr], poll) == WithoutPolls(code, poll) + if Polls(instr, poll) then [] else [instr]
  {
    assert (code + [instr])[..|code|] == code;
  }

  lemma {:induction false} PollsAfterBlock(blocks: seq<Block>, b: nat, block: Block, poll: nat)
    requires b < |blocks|
    ensures forall x ::
      PollsInBlocks(blocks[b := block], poll, x) + PollsInCode(blocks[b].code, poll, x) == PollsInBlocks(blocks, poll, x) + PollsInCode(block.code, poll, x)
  {
    hide PollsInCode;
    var last, blocks' := |blocks| - 1, blocks[b := block];
    if b == last {
      assert blocks'[..last] == blocks[..last];
    } else {
      PollsAfterBlock(blocks[..last], b, block, poll);
      assert blocks'[..last] == blocks[..last][b := block];
    }
  }

  lemma {:induction false} PollsAfterUpdate(functions: seq<Function>, f: nat, function': Function, poll: nat)
    requires f < |functions|
    ensures forall x ::
      (PollsInFunctions(functions[f := function'], poll, x) + PollsInBlocks(functions[f].blocks, poll, x)
       == PollsInFunctions(functions, poll, x) + PollsInBlocks(function'.blocks, poll, x))
  {
    hide PollsInBlocks;
    var last, functions' := |functions| - 1, functions[f := function'];
    if f == last {
      assert functions'[..last] == functions[..last];
    } else {
      PollsAfterUpdate(functions[..last], f, function', poll);
      assert functions'[..last] == functions[..last][f := function'];
    }
  }

  function WithoutPolls(code: seq<Instr>, poll: nat): seq<Instr> {
    if code == [] then []
    else WithoutPolls(code[..|code| - 1], poll) + if Polls(code[|code| - 1], poll) then [] else [code[|code| - 1]]
  }

  /** Every allocation is followed at once by a poll. */
  predicate AllocationsPolled(code: seq<Instr>, poll: nat, allocators: set<nat>) {
    forall i :: 0 <= i < |code| && Allocates(code[i], allocators) ==> i + 1 < |code| && Polls(code[i + 1], poll)
  }

  predicate EndsWithPoll(code: seq<Instr>, poll: nat) {
    code != [] && Polls(code[|code| - 1], poll)
  }

  /** What poll insertion makes of a function under the collector; others stay as they are. */
  predicate Polled(f: Function, f': Function, poll: nat, allocators: set<nat>) {
    if f.isDeclaration || !f.gc || f.blocks == [] then f' == f
    else
      && f' == f.(blocks := f'.blocks) && |f'.blocks| == |f.blocks|
      && (forall b :: 0 <= b < |f.blocks| ==> BlockPolled(f.blocks[b], f'.blocks[b], poll, allocators, b in f.latches))
  }

  predicate BlockPolled(block: Block, block': Block, poll: nat, allocators: set<nat>, isLatch: bool) {
    && block'.successors == block.successors && WithoutPolls(block'.code, poll) == WithoutPolls(block.code, poll)
    && AllocationsPolled(block'.code, poll, allocators) && (isLatch ==> EndsWithPoll(block'.code, poll))
  }

  lemma NotPolled(f: Function, poll: nat, allocators: set<nat>)
    requires f.isDeclaration || !f.gc || f.blocks == []
    ensures Polled(f, f, poll, allocators)
  {
  }

  /** A poll after each allocation of a block that does not have one there already. */
  method PollAllocations(code: seq<Instr>, poll: nat, allocators: set<nat>, id: nat) returns (code': seq<Instr>, id': nat)
    requires poll !in allocators
    ensures id' == id + UnpolledAllocations(code, |code|, poll, allocators)
    ensures AllocationsPolled(code', poll, allocators) && WithoutPolls(code', poll) == WithoutPolls(code, poll)
    ensures forall x :: PollsInCode(code', poll, x) == PollsInCode(code, poll, x) + Between(x, id, id')
  {
    hide PollsInCode, WithoutPolls;
    code', id' := [], id;
    for i := 0 to |code|
      invariant id' == id + UnpolledAllocations(code, i, poll, allocators) && WithoutPolls(code', poll) == WithoutPolls(code[..i], poll)
      invariant forall x :: PollsInCode(code', poll, x) == PollsInCode(code[..i], poll, x) + Between(x, id, id')
      invariant forall k :: 0 <= k < |code'| - 1 && Allocates(code'[k], allocators) ==> Polls(code'[k + 1], poll)
      invariant code' != [] && Allocates(code'[|code'| - 1], allocators) ==> i < |code| && Polls(code[i], poll)
    {
      assert code[..i + 1] == code[..i] + [code[i]];
      PollsInLonger(code[..i], code[i], poll);
      PollsInLonger(code', code[i], poll);
      code' := code' + [code[i]];
      if Allocates(code[i], allocators) {
        if i + 1 == |code| || !Polls(code[i + 1], poll) {
          PollsInLonger(code', DirectCall(poll, id'), poll);
          code' := code' + [DirectCall(poll, id')];
          id' := id' + 1;
        }
      }
    }
    assert code[..|code|] == code;
  }

  /** A poll at the end of each latch. */
  method PollLatches(f: Function, blocks: seq<Block>, poll: nat, allocators: set<nat>, id: nat) returns (blocks': seq<Block>, id': nat)
    requires |blocks| == |f.blocks| && poll !in allocators
    requires forall k :: 0 <= k < |blocks| ==> BlockPolled(f.blocks[k], blocks[k], poll, allocators, false)
    ensures id' == id + LatchesBelow(f, |blocks|) && |blocks'| == |blocks|
    ensures forall k :: 0 <= k < |blocks'| ==> BlockPolled(f.blocks[k], blocks'[k], poll, allocators, k in f.latches)
    ensures forall x :: PollsInBlocks(blocks', poll, x) == PollsInBlocks(blocks, poll, x) + Between(x, id, id')
  {
    hide BlockPolled, PollsInCode, PollsInBlocks;
    blocks', id' := blocks, id;
    for b := 0 to |blocks|
      invariant |blocks'| == |blocks| && id' == id + LatchesBelow(f, b)
      invariant forall k :: 0 <= k < b ==> BlockPolled(f.blocks[k], blocks'[k], poll, allocators, k in f.latches)
      invariant forall k :: b <= k < |blocks'| ==> blocks'[k] == blocks[k]
      invariant forall x :: PollsInBlocks(blocks', poll, x) == PollsInBlocks(blocks, poll, x) + Between(x, id, id')
    {
      if b in f.latches {
        var block := blocks'[b];
        PollAtEnd(f.blocks[b], block, poll, allocators, id');
        PollsInLonger(block.code, DirectCall(poll, id'), poll);
        PollsAfterBlock(blocks', b, block.(code := block.code + [DirectCall(poll, id')]), poll);
        blocks' := blocks'[b := block.(code := block.code + [DirectCall(poll, id')])];
        id' := id' + 1;
      }
    }
  }

  /** The polls of one function: first after its allocations, then at the end of its latches. */
  method PollFunction(f: Function, poll: nat, allocators: set<nat>, id: nat) returns (f': Function, id': nat)
    requires !f.isDeclaration && f.gc && f.blocks != [] && poll !in allocators
    ensures id' == id + PollsNeeded(f, poll, allocators) && Polled(f, f', poll, allocators)
    ensures forall x :: PollsInBlocks(f'.blocks, poll, x) == PollsInBlocks(f.blocks, poll, x) + Between(x, id, id')
  {
    hide AllocationsPolled, PollsInCode, PollsInBlocks, WithoutPolls;
    var blocks := f.blocks;
    id' := id;
    for b := 0 to |f.blocks|
      invariant |blocks| == |f.blocks| && id' == id + UnpolledBlocks(f, b, poll, allocators)
      invariant forall k :: 0 <= k < b ==> BlockPolled(f.blocks[k], blocks[k], poll, allocators, false)
      invariant forall k :: b <= k < |blocks| ==> blocks[k] == f.blocks[k]
      invariant forall x :: PollsInBlocks(blocks, poll, x) == PollsInBlocks(f.blocks, poll, x) + Between(x, id, id')
    {
      var code;
      code, id' := PollAllocations(blocks[b].code, poll, allocators, id');
      PollsAfterBlock(blocks, b, blocks[b].(code := code), poll);
      blocks := blocks[b := blocks[b].(code := code)];
    }
    hide BlockPolled;
    blocks, id' := PollLatches(f, blocks, poll, allocators, id');
    f' := f.(blocks := blocks);
  }

  lemma PollAtEnd(original: Block, block: Block, poll: nat, allocators: set<nat>, id: nat)
    requires BlockPolled(original, block, poll, allocators, false) && poll !in allocators
    ensures BlockPolled(original, block.(code := block.code + [DirectCall(poll, id)]), poll, allocators, true)
    ensures BlockPolled(original, block, poll, allocators, false)
  {
    PollsInLonger(block.code, DirectCall(poll, id), poll);
  }

  lemma StartOfInference(functions: seq<Function>, original: seq<Function>)
    requires WithLeaves(functions, original, Trusted(original))
    ensures LeavesSoFar(functions, original, Trusted(original), Trusted(original), []) && LeafAttributes(functions) == Trusted(original)
    ensures |functions| == |original|
  {
    hide SameButLeaf;
    assert LeafAttributes(functions) == Trusted(original);
    hide Trusted;
  }

  lemma EndOfInference(functions: seq<Function>, original: seq<Function>, trusted: set<nat>, leaves: set<nat>, order: seq<nat>)
    requires LeavesSoFar(functions, original, trusted, leaves, order)
    ensures WithLeaves(functions, original, leaves) && leaves == trusted + Elements(order) && Inferred(original, trusted, order)
  {
  }

  lemma RuleSeenHere(functions: seq<Function>, original: seq<Function>, trusted: set<nat>, leaves: set<nat>, order: seq<nat>, f: nat)
    requires LeavesSoFar(functions, original, trusted, leaves, order) && trusted == Trusted(original) && f < |functions| && |functions| == |original|
    ensures functions[f].gcLeaf <==> f in leaves
    ensures MayBeLeaf(original, f, leaves) <==>
      (!functions[f].isDeclaration && !functions[f].isIntrinsic && functions[f].latches == {}
       && BlocksAreHarmless(functions, f, leaves, |functions[f].blocks|))
  {
    assert LeafAttributes(original) <= trusted;
    assert SameButLeaf(functions[f], original[f]);
    hide CallIsHarmless, Trusted, LeafAttributes, Inferred;
    forall instr
      ensures CallIsHarmless(functions, instr, leaves) == CallIsHarmless(original, instr, leaves)
    {
      HarmlessWithAttributes(functions, original, leaves, instr);
    }
  }

  ghost predicate LeavesSoFar(functions: seq<Function>, original: seq<Function>, trusted: set<nat>, leaves: set<nat>, order: seq<nat>) {
    WithLeaves(functions, original, leaves) && leaves == trusted + Elements(order) && Inferred(original, trusted, order)
  }

  lemma OneMoreAttribute(functions: seq<Function>, original: seq<Function>, leaves: set<nat>, f: nat)
    requires WithLeaves(functions, original, leaves) && f < |functions|
    ensures WithLeaves(functions[f := functions[f].(gcLeaf := true)], original, leaves + {f})
  {
  }

  lemma OneMoreInferred(original: seq<Function>, trusted: set<nat>, order: seq<nat>, f: nat)
    requires Inferred(original, trusted, order) && f !in trusted + Elements(order) && MayBeLeaf(original, f, trusted + Elements(order))
    ensures Inferred(original, trusted, order + [f]) && Elements(order + [f]) == Elements(order) + {f}
  {
    hide MayBeLeaf;
    var longer := order + [f];
    assert longer[..|order|] == order;
    forall k | 0 <= k < |order|
      ensures longer[..k] == order[..k]
    {
    }
  }

  lemma OneMoreLeaf(functions: seq<Function>, original: seq<Function>, trusted: set<nat>, leaves: set<nat>, order: seq<nat>, f: nat)
    requires LeavesSoFar(functions, original, trusted, leaves, order) && f < |functions| && f !in leaves && MayBeLeaf(original, f, leaves)
    ensures LeavesSoFar(functions[f := functions[f].(gcLeaf := true)], original, trusted, leaves + {f}, order + [f])
  {
    hide WithLeaves, Inferred, MayBeLeaf, Elements;
    OneMoreAttribute(functions, original, leaves, f);
    OneMoreInferred(original, trusted, order, f);
  }

  lemma OrderIsShort(functions: seq<Function>, original: seq<Function>, trusted: set<nat>, leaves: set<nat>, order: seq<nat>)
    requires LeavesSoFar(functions, original, trusted, leaves, order)
    ensures |order| <= |functions|
  {
    hide SameButLeaf, MayBeLeaf;
    assert forall f :: f in order ==> f in leaves;
    assert forall k :: 0 <= k < |order| ==> order[k] !in order[..k];
    hide Inferred, WithLeaves;
    DistinctSize(order);
    RangeSize(0, |functions|);
    assert Elements(order) <= Range(0, |functions|);
    assert |Range(0, |functions|) - Elements(order)| == |functions| - |Elements(order)|;
  }

  lemma {:induction false} DistinctSize(order: seq<nat>)
    requires forall k :: 0 <= k < |order| ==> order[k] !in order[..k]
    ensures |Elements(order)| == |order|
  {
    if order != [] {
      var last := |order| - 1;
      assert forall k :: 0 <= k < last ==> order[..last][..k] == order[..k];
      DistinctSize(order[..last]);
      assert Elements(order) == Elements(order[..last]) + {order[last]};
    }
  }
}
