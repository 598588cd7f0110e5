/** What the final tables of the managed-state analysis are: a solution of every instruction's
    inequalities, the least one where pointers live in tracked slots, and, for parameters, exactly
    what the call sites pass. */
module StateSolutions {
  import opened Wrappers
  import opened ManagedIR
  import opened ManagedState
  import opened ManagedStateAnalysisModule

  // ----- The inequalities of one instruction -----

  predicate ResultHolds(m: Module, f: nat, i: nat, state: PointerState, s: States) {
    IsPointer(m, f, Result(i)) ==> state <= Get(s, ValueCell(Key(f, Result(i))))
  }

  predicate LocationHolds(m: Module, f: nat, op: Operand, state: PointerState, s: States) {
    IsPointer(m, f, op) ==> state <= Get(s, LocationCell(Key(f, op)))
  }

  ghost predicate StoreHolds(m: Module, f: nat, value: Operand, pointer: Operand, s: States) {
    IsPointer(m, f, value) ==>
      && (TrackedSlot(m, f, pointer).Some? ==> ValueState(m, f, value, s) <= Get(s, SlotCell(TrackedSlot(m, f, pointer).value)))
      && LocationHolds(m, f, pointer, ValueState(m, f, value, s), s)
      && (HasManaged(LocationState(m, f, pointer, s)) ==> LocationState(m, f, pointer, s) <= Get(s, SourceCell(f, value)))
  }

  ghost predicate ArgsHold(m: Module, f: nat, callee: nat, args: seq<Operand>, count: nat, s: States)
    requires count <= |args|
  {
    forall k: nat :: k < count && IsPointer(m, f, args[k]) ==> ValueState(m, f, args[k], s) <= Get(s, ParamCell(callee, k))
  }

  ghost predicate CallHolds(m: Module, f: nat, i: nat, callee: nat, args: seq<Operand>, s: States) {
    && ResultHolds(m, f, i, CallResultState(m, callee, s), s)
    && (callee < |m.functions| && !m.functions[callee].isDeclaration ==> ArgsHold(m, f, callee, args, MatchedArgs(m, callee, args), s))
  }

  /** Everything instruction i of function f demands of the tables. */
  ghost predicate Holds(m: Module, f: nat, i: nat, s: States)
    requires IsInst(m, f, i)
  {
    match m.functions[f].code[i]
    case Alloca(_) => ResultHolds(m, f, i, {IsRaw}, s)
    case Gep(base, _, fieldIsPointer) =>
      ResultHolds(m, f, i, ValueState(m, f, base, s), s)
      && (fieldIsPointer ==> LocationHolds(m, f, Result(i), AggregateFieldState(m, f, Result(i), s), s))
    case Phi(incoming, _) =>
      forall k :: 0 <= k < |incoming| ==>
        ResultHolds(m, f, i, ValueState(m, f, incoming[k].value, s), s) && LocationHolds(m, f, Result(i), LocationState(m, f, incoming[k].value, s), s)
    case Select(_, ifTrue, ifFalse, _) =>
      && ResultHolds(m, f, i, ValueState(m, f, ifTrue, s), s) && ResultHolds(m, f, i, ValueState(m, f, ifFalse, s), s)
      && LocationHolds(m, f, Result(i), LocationState(m, f, ifTrue, s), s) && LocationHolds(m, f, Result(i), LocationState(m, f, ifFalse, s), s)
    case Freeze(source, _) =>
      ResultHolds(m, f, i, ValueState(m, f, source, s), s) && LocationHolds(m, f, Result(i), LocationState(m, f, source, s), s)
    case Load(pointer, isPointer) => ResultHolds(m, f, i, LocationState(m, f, pointer, s), s)
    case Store(value, pointer) => StoreHolds(m, f, value, pointer, s)
    case Call(callee, args) => CallHolds(m, f, i, callee, args, s)
    case IndirectCall(_, _, _) => ResultHolds(m, f, i, {IsRaw}, s)
    case Ret(value) => IsPointer(m, f, value) ==> ValueState(m, f, value, s) <= Get(s, ReturnCell(f))
    case Compute(_, _, _) => true
    case Br(_, _, _) => true
  }

  // ----- A visit changes nothing iff its inequalities hold -----

  lemma MergeIsIdentity(s: States, c: Cell, state: PointerState)
    ensures Merge(s, c, state) == s <==> state <= Get(s, c)
  {
    if state <= Get(s, c) {
      assert Get(s, c) + state == Get(s, c);
    } else {
      assert c in Merge(s, c, state) && Get(Merge(s, c, state), c) != Get(s, c);
    }
  }

  lemma UpdatesAreIdentity(m: Module, f: nat, op: Operand, state: PointerState, s: States)
    ensures UpdateValue(m, f, op, state, s) == s <==> (IsPointer(m, f, op) ==> state <= Get(s, ValueCell(Key(f, op))))
    ensures UpdateLocation(m, f, op, state, s) == s <==> LocationHolds(m, f, op, state, s)
    ensures UpdateSource(m, f, op, state, s) == s <==> (IsPointer(m, f, op) ==> state <= Get(s, SourceCell(f, op)))
  {
    MergeIsIdentity(s, ValueCell(Key(f, op)), state);
    MergeIsIdentity(s, LocationCell(Key(f, op)), state);
    MergeIsIdentity(s, SourceCell(f, op), state);
  }

  /** A value update followed by a location update comes back to s only if neither does anything. */
  lemma BothAreIdentity(m: Module, f: nat, i: nat, state: PointerState, location: PointerState, s: States)
    ensures UpdateLocation(m, f, Result(i), location, UpdateValue(m, f, Result(i), state, s)) == s ==>
      UpdateValue(m, f, Result(i), state, s) == s
  {
    hide *;
    var s1 := UpdateValue(m, f, Result(i), state, s);
    var s2 := UpdateLocation(m, f, Result(i), location, s1);
    var cells := {ValueCell(Key(f, Result(i))), LocationCell(Key(f, Result(i)))};
    UpdateGrows(m, f, Result(i), state, s, cells);
    UpdateGrows(m, f, Result(i), location, s1, cells);
    if s2 == s { GrowsBothWays(s, s1, cells); }
  }

  lemma {:induction false} IncomingHold(m: Module, f: nat, i: nat, incoming: seq<Incoming>, s: States)
    ensures ResultHolds(m, f, i, IncomingStates(m, f, incoming, s), s) <==>
      forall k :: 0 <= k < |incoming| ==> ResultHolds(m, f, i, ValueState(m, f, incoming[k].value, s), s)
    ensures LocationHolds(m, f, Result(i), IncomingLocations(m, f, incoming, s), s) <==>
      forall k :: 0 <= k < |incoming| ==> LocationHolds(m, f, Result(i), LocationState(m, f, incoming[k].value, s), s)
  {
    hide ValueState, LocationState, IsPointer;
    if incoming != [] {
      var front := incoming[..|incoming| - 1];
      IncomingHold(m, f, i, front, s);
      assert forall k :: 0 <= k < |front| ==> front[k] == incoming[k];
    }
  }

  lemma StoreIsIdentity(m: Module, f: nat, value: Operand, pointer: Operand, s: States)
    ensures VisitStore(m, f, value, pointer, s) == s <==> StoreHolds(m, f, value, pointer, s)
  {
    hide ValueState, LocationState, TrackedSlot, Merge, IsPointer, Grows, HasManaged, UpdateLocation, UpdateSource;
    var cells := {LocationCell(Key(f, pointer)), SourceCell(f, value)} +
      if TrackedSlot(m, f, pointer).Some? then {SlotCell(TrackedSlot(m, f, pointer).value)} else {};
    var valueState := ValueState(m, f, value, s);
    var slot := TrackedSlot(m, f, pointer);
    var s1 := if slot.Some? then Merge(s, SlotCell(slot.value), valueState) else s;
    var s2 := UpdateLocation(m, f, pointer, valueState, s1);
    var s3 := UpdateSource(m, f, value, LocationState(m, f, pointer, s2), s2);
    GrowsReflexive(s, cells);
    if slot.Some? {
      MergeGrows(s, SlotCell(slot.value), valueState, cells);
      MergeIsIdentity(s, SlotCell(slot.value), valueState);
    }
    UpdateGrows(m, f, pointer, valueState, s1, cells);
    UpdatesAreIdentity(m, f, pointer, valueState, s1);
    UpdateGrows(m, f, value, LocationState(m, f, pointer, s2), s2, cells);
    UpdatesAreIdentity(m, f, value, LocationState(m, f, pointer, s2), s2);
    ThreeGrow(s, s1, s2, s3, cells);
  }

  /** A chain of growing tables that comes back to its start never left it. */
  lemma ThreeGrow(s: States, s1: States, s2: States, s3: States, cells: set<Cell>)
    requires Grows(s, s1, cells) && Grows(s1, s2, cells) && Grows(s2, s3, cells)
    ensures s2 == s ==> s1 == s
    ensures s3 == s ==> s1 == s && s2 == s
  {
    hide Grows;
    GrowsTransitive(s, s1, s2, cells);
    GrowsTransitive(s1, s2, s3, cells);
    if s2 == s { GrowsBothWays(s, s1, cells); }
    if s3 == s { GrowsBothWays(s, s2, cells); GrowsBothWays(s, s1, cells); }
  }

  lemma {:induction false} ArgsAreIdentity(m: Module, f: nat, callee: nat, args: seq<Operand>, count: nat, s: States)
    requires count <= |args|
    ensures UpdateArgs(m, f, callee, args, count, s) == s <==> ArgsHold(m, f, callee, args, count, s)
  {
    hide ValueState, IsPointer, Merge, Grows;
    if count != 0 {
      ArgsAreIdentity(m, f, callee, args, count - 1, s);
      var cells := set k | 0 <= k < |args| :: ParamCell(callee, k);
      var before := UpdateArgs(m, f, callee, args, count - 1, s);
      UpdateArgsGrows(m, f, callee, args, count - 1, s);
      MergeGrows(before, ParamCell(callee, count - 1), ValueState(m, f, args[count - 1], before), cells);
      MergeIsIdentity(before, ParamCell(callee, count - 1), ValueState(m, f, args[count - 1], before));
      if UpdateArgs(m, f, callee, args, count, s) == s { GrowsBothWays(s, before, cells); }
    }
  }

  lemma CallIsIdentity(m: Module, f: nat, i: nat, callee: nat, args: seq<Operand>, s: States)
    ensures VisitCall(m, f, Result(i), callee, args, s) == s <==> CallHolds(m, f, i, callee, args, s)
  {
    hide ArgsHold, UpdateArgs, CallResultState, Merge, IsPointer, Grows, UpdateValue;
    var cells := {ValueCell(Key(f, Result(i)))} + set k | 0 <= k < |args| :: ParamCell(callee, k);
    var s1 := UpdateValue(m, f, Result(i), CallResultState(m, callee, s), s);
    UpdateGrows(m, f, Result(i), CallResultState(m, callee, s), s, cells);
    UpdatesAreIdentity(m, f, Result(i), CallResultState(m, callee, s), s);
    var n := MatchedArgs(m, callee, args);
    ArgsAreIdentity(m, f, callee, args, n, s1);
    UpdateArgsGrows(m, f, callee, args, n, s1);
    GrowsMore(s1, UpdateArgs(m, f, callee, args, n, s1), set k | 0 <= k < |args| :: ParamCell(callee, k), cells);
    if UpdateArgs(m, f, callee, args, n, s1) == s { GrowsBothWays(s, s1, cells); }
  }

  /** Visiting an instruction leaves the tables alone iff they satisfy its inequalities. */
  lemma VisitIsIdentityIff(m: Module, f: nat, i: nat, s: States)
    requires IsInst(m, f, i)
    ensures ManagedState.VisitInstruction(m, f, i, s) == s <==> Holds(m, f, i, s)
  {
    hide ValueState, LocationState, IncomingStates, IncomingLocations, AggregateFieldState, VisitStore, VisitCall, StoreHolds, CallHolds,
      Merge, IsPointer, Key, UpdateLocation, UpdateValue;
    match m.functions[f].code[i]
    case Alloca(_) => UpdatesAreIdentity(m, f, Result(i), {IsRaw}, s);
    case Gep(base, _, fieldIsPointer) =>
      var s1 := UpdateValue(m, f, Result(i), ValueState(m, f, base, s), s);
      UpdatesAreIdentity(m, f, Result(i), ValueState(m, f, base, s), s);
      UpdatesAreIdentity(m, f, Result(i), AggregateFieldState(m, f, Result(i), s1), s1);
      BothAreIdentity(m, f, i, ValueState(m, f, base, s), AggregateFieldState(m, f, Result(i), s1), s);
    case Phi(incoming, _) =>
      var s1 := UpdateValue(m, f, Result(i), IncomingStates(m, f, incoming, s), s);
      UpdatesAreIdentity(m, f, Result(i), IncomingStates(m, f, incoming, s), s);
      UpdatesAreIdentity(m, f, Result(i), IncomingLocations(m, f, incoming, s1), s1);
      BothAreIdentity(m, f, i, IncomingStates(m, f, incoming, s), IncomingLocations(m, f, incoming, s1), s);
      IncomingHold(m, f, i, incoming, s);
    case Select(_, ifTrue, ifFalse, _) =>
      var state := ValueState(m, f, ifTrue, s) + ValueState(m, f, ifFalse, s);
      var s1 := UpdateValue(m, f, Result(i), state, s);
      var location := LocationState(m, f, ifTrue, s1) + LocationState(m, f, ifFalse, s1);
      UpdatesAreIdentity(m, f, Result(i), state, s);
      UpdatesAreIdentity(m, f, Result(i), location, s1);
      BothAreIdentity(m, f, i, state, location, s);
    case Freeze(source, _) =>
      var s1 := UpdateValue(m, f, Result(i), ValueState(m, f, source, s), s);
      UpdatesAreIdentity(m, f, Result(i), ValueState(m, f, source, s), s);
      UpdatesAreIdentity(m, f, Result(i), LocationState(m, f, source, s1), s1);
      BothAreIdentity(m, f, i, ValueState(m, f, source, s), LocationState(m, f, source, s1), s);
    case Load(pointer, isPointer) =>
      UpdatesAreIdentity(m, f, Result(i), LocationState(m, f, pointer, s), s);
      PointerResults(m, f, i);
    case Store(value, pointer) => StoreIsIdentity(m, f, value, pointer, s);
    case Call(callee, args) => CallIsIdentity(m, f, i, callee, args, s);
    case IndirectCall(_, _, isPointer) =>
      UpdatesAreIdentity(m, f, Result(i), {IsRaw}, s);
      PointerResults(m, f, i);
    case Ret(value) => MergeIsIdentity(s, ReturnCell(f), ValueState(m, f, value, s));
    case Compute(_, _, _) =>
    case Br(_, _, _) =>
  }

  lemma PointerResults(m: Module, f: nat, i: nat)
    requires IsInst(m, f, i)
    ensures IsPointer(m, f, Result(i)) <==> ResultIsPointer(m, m.functions[f].code[i])
  {
  }

  ghost predicate Solution(m: Module, s: States) {
    && (forall f: nat, i: nat :: IsInst(m, f, i) ==> Holds(m, f, i, s))
    && (forall f: nat, index: nat :: IsSeeded(m, f, index) ==> IsRaw in Get(s, ParamCell(f, index)))
  }

  /** The tables a run ends with are exactly those that satisfy every inequality of the module. */
  lemma ClosedIsSolution(m: Module, s: States)
    ensures Closed(m, s) <==> Solution(m, s)
  {
    hide Holds, ManagedState.VisitInstruction;
    forall f: nat, i: nat | IsInst(m, f, i)
      ensures Apply(m, InstVisit(f, i), s) == s <==> Holds(m, f, i, s)
    {
      VisitIsIdentityIff(m, f, i, s);
    }
    forall f: nat, index: nat | f < |m.functions| && index < |m.functions[f].params|
      ensures Apply(m, SeedVisit(f, index), s) == s <==> (IsSeeded(m, f, index) ==> IsRaw in Get(s, ParamCell(f, index)))
    {
      MergeIsIdentity(s, ParamCell(f, index), {IsRaw});
    }
    if Closed(m, s) {
      forall f: nat, i: nat | IsInst(m, f, i)
        ensures Holds(m, f, i, s)
      {
        assert IsVisit(m, InstVisit(f, i));
      }
      forall f: nat, index: nat | IsSeeded(m, f, index)
        ensures IsRaw in Get(s, ParamCell(f, index))
      {
        assert IsVisit(m, SeedVisit(f, index));
      }
    }
    if Solution(m, s) {
      forall v | IsVisit(m, v)
        ensures Apply(m, v, s) == s
      {
        assert v.InstVisit? ==> Holds(m, v.f, v.i, s);
      }
    }
  }

  // ----- The least solution -----

  /** The location state that a visit of a store finds once it has recorded the stored value. */
  function SeenLocation(m: Module, f: nat, value: Operand, pointer: Operand, s: States): PointerState {
    var slot := TrackedSlot(m, f, pointer);
    var s1 := if slot.Some? then Merge(s, SlotCell(slot.value), ValueState(m, f, value, s)) else s;
    LocationState(m, f, pointer, UpdateLocation(m, f, pointer, ValueState(m, f, value, s), s1))
  }

  /** What a visit reads from a location, to pass it on to a load's result or back to the source of a
      stored value, is what the tables t allow there. */
  predicate ReadsAllowed(m: Module, v: Visit, s: States, t: States) {
    v.InstVisit? && IsInst(m, v.f, v.i) ==>
      match m.functions[v.f].code[v.i]
      case Load(pointer, isPointer) => isPointer ==> LocationState(m, v.f, pointer, s) <= Get(t, ValueCell(Key(v.f, Result(v.i))))
      case Store(value, pointer) =>
        IsPointer(m, v.f, value) && HasManaged(SeenLocation(m, v.f, value, pointer, s)) ==>
          SeenLocation(m, v.f, value, pointer, s) <= Get(t, SourceCell(v.f, value))
      case _ => true
  }

  /** Every load and store of a pointer goes directly to a local or global variable of pointer type. */
  ghost predicate TrackedOnly(m: Module) {
    forall f: nat, i: nat :: IsInst(m, f, i) ==>
      match m.functions[f].code[i]
      case Load(pointer, isPointer) => isPointer ==> TrackedSlot(m, f, pointer).Some?
      case Store(value, pointer) => IsPointer(m, f, value) ==> TrackedSlot(m, f, pointer).Some?
      case _ => true
  }

  /** Below, leaving aside the location states, which nothing then reads. */
  ghost predicate BelowMain(s: States, t: States) {
    forall c: Cell :: !c.LocationCell? ==> Get(s, c) <= Get(t, c)
  }

  lemma {:induction false} StripKeepsPointer(m: Module, f: nat, op: Operand, fuel: nat)
    requires IsPointer(m, f, Strip(m, f, op, fuel))
    ensures IsPointer(m, f, op)
    decreases fuel
  {
    if Strip(m, f, op, fuel) != op {
      StripKeepsPointer(m, f, m.functions[f].code[op.index].base, fuel - 1);
    }
  }

  lemma TrackedIsPointer(m: Module, f: nat, op: Operand)
    requires TrackedSlot(m, f, op).Some?
    ensures IsPointer(m, f, op)
  {
    if f < |m.functions| { StripKeepsPointer(m, f, op, |m.functions[f].code|); }
  }

  lemma ValueStateMonotone(m: Module, f: nat, op: Operand, s: States, t: States)
    requires BelowMain(s, t)
    ensures ValueState(m, f, op, s) <= ValueState(m, f, op, t)
  {
    hide IsPointer;
  }

  lemma MergeStaysBelow(s: States, c: Cell, state: PointerState, t: States)
    requires BelowMain(s, t) && (c.LocationCell? || state <= Get(t, c))
    ensures BelowMain(Merge(s, c, state), t)
  {
  }

  lemma {:induction false} IncomingMonotone(m: Module, f: nat, incoming: seq<Incoming>, s: States, t: States)
    requires BelowMain(s, t)
    ensures IncomingStates(m, f, incoming, s) <= IncomingStates(m, f, incoming, t)
  {
    hide ValueState, BelowMain;
    if incoming != [] {
      IncomingMonotone(m, f, incoming[..|incoming| - 1], s, t);
      ValueStateMonotone(m, f, incoming[|incoming| - 1].value, s, t);
    }
  }

  lemma {:induction false} ArgsStayBelow(m: Module, f: nat, callee: nat, args: seq<Operand>, count: nat, s: States, t: States)
    requires count <= |args| && BelowMain(s, t) && ArgsHold(m, f, callee, args, count, t)
    ensures BelowMain(UpdateArgs(m, f, callee, args, count, s), t)
  {
    hide ValueState, BelowMain, Merge, IsPointer;
    if count != 0 {
      ArgsStayBelow(m, f, callee, args, count - 1, s, t);
      var before := UpdateArgs(m, f, callee, args, count - 1, s);
      ValueStateMonotone(m, f, args[count - 1], before, t);
      assert IsPointer(m, f, args[count - 1]) ==> ValueState(m, f, args[count - 1], t) <= Get(t, ParamCell(callee, count - 1));
      if IsPointer(m, f, args[count - 1]) {
        MergeStaysBelow(before, ParamCell(callee, count - 1), ValueState(m, f, args[count - 1], before), t);
      }
    }
  }

  lemma UpdateStaysBelow(m: Module, f: nat, op: Operand, state: PointerState, s: States, t: States)
    requires BelowMain(s, t)
    ensures (IsPointer(m, f, op) ==> state <= Get(t, ValueCell(Key(f, op)))) ==> BelowMain(UpdateValue(m, f, op, state, s), t)
    ensures BelowMain(UpdateLocation(m, f, op, state, s), t)
    ensures state <= Get(t, SourceCell(f, op)) ==> BelowMain(UpdateSource(m, f, op, state, s), t)
  {
    hide BelowMain, Merge, IsPointer, Key, Get;
    if IsPointer(m, f, op) && state <= Get(t, ValueCell(Key(f, op))) { MergeStaysBelow(s, ValueCell(Key(f, op)), state, t); }
    MergeStaysBelow(s, LocationCell(Key(f, op)), state, t);
    if state <= Get(t, SourceCell(f, op)) { MergeStaysBelow(s, SourceCell(f, op), state, t); }
  }

  lemma StoreStaysBelow(m: Module, f: nat, value: Operand, pointer: Operand, s: States, t: States)
    requires BelowMain(s, t) && StoreHolds(m, f, value, pointer, t)
    requires IsPointer(m, f, value) && HasManaged(SeenLocation(m, f, value, pointer, s)) ==>
      SeenLocation(m, f, value, pointer, s) <= Get(t, SourceCell(f, value))
    ensures BelowMain(VisitStore(m, f, value, pointer, s), t)
  {
    hide ValueState, BelowMain, Merge, IsPointer, TrackedSlot, UpdateLocation, UpdateSource, Key, LocationState, HasManaged;
    if IsPointer(m, f, value) {
      var slot := TrackedSlot(m, f, pointer);
      ValueStateMonotone(m, f, value, s, t);
      var s1 := if slot.Some? then Merge(s, SlotCell(slot.value), ValueState(m, f, value, s)) else s;
      if slot.Some? { MergeStaysBelow(s, SlotCell(slot.value), ValueState(m, f, value, s), t); }
      var s2 := UpdateLocation(m, f, pointer, ValueState(m, f, value, s), s1);
      UpdateStaysBelow(m, f, pointer, ValueState(m, f, value, s), s1, t);
      UpdateStaysBelow(m, f, value, LocationState(m, f, pointer, s2), s2, t);
    }
  }

  /** Where loads and stores go to tracked slots, a visit reads what any solution allows. */
  lemma TrackedReadsAllowed(m: Module, v: Visit, s: States, t: States)
    requires IsVisit(m, v) && TrackedOnly(m) && BelowMain(s, t) && (v.InstVisit? ==> Holds(m, v.f, v.i, t))
    ensures ReadsAllowed(m, v, s, t)
  {
    if v.InstVisit? {
      var f, inst := v.f, m.functions[v.f].code[v.i];
      assert inst.Load? && inst.isPointer ==> TrackedSlot(m, f, inst.pointer).Some?;
      assert inst.Store? && IsPointer(m, f, inst.value) ==> TrackedSlot(m, f, inst.pointer).Some?;
      PointerResults(m, f, v.i);
      hide BelowMain, Merge, TrackedSlot, ValueState, TrackedOnly, Key, IsPointer, UpdateLocation, HasManaged;
      if inst.Load? && inst.isPointer {
        TrackedIsPointer(m, f, inst.pointer);
        SlotMonotone(TrackedSlot(m, f, inst.pointer).value, s, t);
      } else if inst.Store? && IsPointer(m, f, inst.value) {
        var slot := TrackedSlot(m, f, inst.pointer).value;
        TrackedIsPointer(m, f, inst.pointer);
        ValueStateMonotone(m, f, inst.value, s, t);
        var s1 := Merge(s, SlotCell(slot), ValueState(m, f, inst.value, s));
        MergeStaysBelow(s, SlotCell(slot), ValueState(m, f, inst.value, s), t);
        UpdateStaysBelow(m, f, inst.pointer, ValueState(m, f, inst.value, s), s1, t);
        SlotMonotone(slot, UpdateLocation(m, f, inst.pointer, ValueState(m, f, inst.value, s), s1), t);
        if HasManaged(SeenLocation(m, f, inst.value, inst.pointer, s)) {
          ManagedGrows(SeenLocation(m, f, inst.value, inst.pointer, s), LocationState(m, f, inst.pointer, t));
        }
      }
    }
  }

  lemma ManagedGrows(a: PointerState, b: PointerState)
    requires a <= b && HasManaged(a)
    ensures HasManaged(b)
  {
  }

  lemma SlotMonotone(slot: ValueKey, s: States, t: States)
    requires BelowMain(s, t)
    ensures Get(s, SlotCell(slot)) <= Get(t, SlotCell(slot))
  {
  }

  lemma CallStaysBelow(m: Module, f: nat, i: nat, callee: nat, args: seq<Operand>, s: States, t: States)
    requires BelowMain(s, t) && CallHolds(m, f, i, callee, args, t)
    ensures BelowMain(VisitCall(m, f, Result(i), callee, args, s), t)
  {
    assert CallResultState(m, callee, s) <= CallResultState(m, callee, t);
    hide BelowMain, Merge, IsPointer, Key, CallResultState, UpdateValue, UpdateArgs, ArgsHold;
    var s1 := UpdateValue(m, f, Result(i), CallResultState(m, callee, s), s);
    UpdateStaysBelow(m, f, Result(i), CallResultState(m, callee, s), s, t);
    if callee < |m.functions| && !m.functions[callee].isDeclaration {
      ArgsStayBelow(m, f, callee, args, MatchedArgs(m, callee, args), s1, t);
    }
  }

  /** A visit stays below a solution that allows what it reads. */
  lemma VisitStaysBelow(m: Module, f: nat, i: nat, s: States, t: States)
    requires IsInst(m, f, i) && ReadsAllowed(m, InstVisit(f, i), s, t) && Holds(m, f, i, t) && BelowMain(s, t)
    ensures BelowMain(ManagedState.VisitInstruction(m, f, i, s), t)
  {
    var inst := m.functions[f].code[i];
    PointerResults(m, f, i);
    hide BelowMain, Merge, TrackedSlot, ValueState, AggregateFieldState, IncomingStates, IncomingLocations, VisitStore, VisitCall, StoreHolds,
      CallHolds, UpdateValue, UpdateLocation, Key, IsPointer, ResultIsPointer, LocationState, SeenLocation, HasManaged;
    match inst
    case Alloca(_) => UpdateStaysBelow(m, f, Result(i), {IsRaw}, s, t);
    case Gep(base, _, _) =>
      ValueStateMonotone(m, f, base, s, t);
      UpdateStaysBelow(m, f, Result(i), ValueState(m, f, base, s), s, t);
      var s1 := UpdateValue(m, f, Result(i), ValueState(m, f, base, s), s);
      UpdateStaysBelow(m, f, Result(i), AggregateFieldState(m, f, Result(i), s1), s1, t);
    case Phi(incoming, _) =>
      IncomingMonotone(m, f, incoming, s, t);
      IncomingHold(m, f, i, incoming, t);
      UpdateStaysBelow(m, f, Result(i), IncomingStates(m, f, incoming, s), s, t);
      var s1 := UpdateValue(m, f, Result(i), IncomingStates(m, f, incoming, s), s);
      UpdateStaysBelow(m, f, Result(i), IncomingLocations(m, f, incoming, s1), s1, t);
    case Select(_, ifTrue, ifFalse, _) =>
      ValueStateMonotone(m, f, ifTrue, s, t);
      ValueStateMonotone(m, f, ifFalse, s, t);
      var state := ValueState(m, f, ifTrue, s) + ValueState(m, f, ifFalse, s);
      UpdateStaysBelow(m, f, Result(i), state, s, t);
      var s1 := UpdateValue(m, f, Result(i), state, s);
      UpdateStaysBelow(m, f, Result(i), LocationState(m, f, ifTrue, s1) + LocationState(m, f, ifFalse, s1), s1, t);
    case Freeze(source, _) =>
      ValueStateMonotone(m, f, source, s, t);
      UpdateStaysBelow(m, f, Result(i), ValueState(m, f, source, s), s, t);
      var s1 := UpdateValue(m, f, Result(i), ValueState(m, f, source, s), s);
      UpdateStaysBelow(m, f, Result(i), LocationState(m, f, source, s1), s1, t);
    case Load(pointer, isPointer) =>
      if isPointer { UpdateStaysBelow(m, f, Result(i), LocationState(m, f, pointer, s), s, t); }
    case Store(value, pointer) => StoreStaysBelow(m, f, value, pointer, s, t);
    case Call(callee, args) => CallStaysBelow(m, f, i, callee, args, s, t);
    case IndirectCall(_, _, _) => UpdateStaysBelow(m, f, Result(i), {IsRaw}, s, t);
    case Ret(value) =>
      ValueStateMonotone(m, f, value, s, t);
      if IsPointer(m, f, value) { MergeStaysBelow(s, ReturnCell(f), ValueState(m, f, value, s), t); }
    case Compute(_, _, _) =>
    case Br(_, _, _) =>
  }

  ghost predicate AllReadsAllowed(m: Module, trail: seq<Visit>, t: States)
    requires forall v :: v in trail ==> IsVisit(m, v)
  {
    forall n :: 0 <= n < |trail| ==> ReadsAllowed(m, trail[n], Replay(m, trail[..n]), t)
  }

  lemma {:induction false} ReplayStaysBelow(m: Module, trail: seq<Visit>, n: nat, t: States)
    requires (forall v :: v in trail ==> IsVisit(m, v)) && Solution(m, t) && AllReadsAllowed(m, trail, t) && n <= |trail|
    ensures BelowMain(Replay(m, trail[..n]), t)
  {
    hide Holds, ManagedState.VisitInstruction, ReadsAllowed;
    if n != 0 {
      var v, s := trail[n - 1], Replay(m, trail[..n - 1]);
      assert trail[..n][..n - 1] == trail[..n - 1];
      ReplayStaysBelow(m, trail, n - 1, t);
      assert v in trail && IsVisit(m, v);
      match v
      case SeedVisit(f, index) =>
        if IsSeeded(m, f, index) { MergeStaysBelow(s, ParamCell(f, index), {IsRaw}, t); }
      case InstVisit(f, i) =>
        VisitStaysBelow(m, f, i, s, t);
    }
  }

  /** What a visit reads is in the tables afterwards. */
  lemma ReadsArrive(m: Module, v: Visit, s: States)
    requires IsVisit(m, v)
    ensures ReadsAllowed(m, v, s, Apply(m, v, s))
  {
    if v.InstVisit? {
      PointerResults(m, v.f, v.i);
      hide LocationState, ValueState, TrackedSlot, IsPointer, Key, HasManaged, UpdateLocation;
    }
  }

  lemma ReadsAllowedMore(m: Module, v: Visit, s: States, t: States, u: States)
    requires ReadsAllowed(m, v, s, t) && BelowMain(t, u)
    ensures ReadsAllowed(m, v, s, u)
  {
    hide LocationState, SeenLocation, Get;
    if v.InstVisit? && IsInst(m, v.f, v.i) && m.functions[v.f].code[v.i].Store? {
      SourceIsMain(v.f, m.functions[v.f].code[v.i].value);
    }
  }

  lemma SourceIsMain(f: nat, op: Operand)
    ensures !SourceCell(f, op).LocationCell?
  {
  }

  /** In any program the result of an analysis lies below a solution iff every location state that a visit
      has read is what that solution allows there. */
  lemma BelowSolutionIff(m: Module, trail: seq<Visit>, t: States)
    requires (forall v :: v in trail ==> IsVisit(m, v)) && Solution(m, t)
    ensures BelowMain(Replay(m, trail), t) <==> AllReadsAllowed(m, trail, t)
  {
    hide Solution, Replay, ReadsAllowed, BelowMain, Below, Apply;
    if AllReadsAllowed(m, trail, t) {
      ReplayStaysBelow(m, trail, |trail|, t);
      assert trail[..|trail|] == trail;
    }
    if BelowMain(Replay(m, trail), t) {
      forall n | 0 <= n < |trail|
        ensures ReadsAllowed(m, trail[n], Replay(m, trail[..n]), t)
      {
        ReadsArrive(m, trail[n], Replay(m, trail[..n]));
        ReplayOneMore(m, trail, n);
        ReplayGrows(m, trail, n + 1);
        BelowBoth(Replay(m, trail[..n + 1]), Replay(m, trail), t);
        ReadsAllowedMore(m, trail[n], Replay(m, trail[..n]), Replay(m, trail[..n + 1]), t);
      }
    }
  }

  lemma ReplayOneMore(m: Module, trail: seq<Visit>, n: nat)
    requires (forall v :: v in trail ==> IsVisit(m, v)) && n < |trail|
    ensures Replay(m, trail[..n + 1]) == Apply(m, trail[n], Replay(m, trail[..n]))
  {
    assert trail[..n + 1][..n] == trail[..n];
  }

  lemma BelowBoth(a: States, b: States, t: States)
    requires Below(a, b) && BelowMain(b, t)
    ensures BelowMain(a, t)
  {
    hide Get;
  }

  /** So it is the least solution iff no visit has read a location state that some solution does not allow. */
  lemma LeastSolutionIff(m: Module, trail: seq<Visit>)
    requires (forall v :: v in trail ==> IsVisit(m, v)) && Closed(m, Replay(m, trail))
    ensures Solution(m, Replay(m, trail))
    ensures (forall t :: Solution(m, t) ==> BelowMain(Replay(m, trail), t)) <==> forall t :: Solution(m, t) ==> AllReadsAllowed(m, trail, t)
  {
    hide Closed, Solution, Replay, AllReadsAllowed, BelowMain;
    ClosedIsSolution(m, Replay(m, trail));
    forall t | Solution(m, t)
      ensures BelowMain(Replay(m, trail), t) <==> AllReadsAllowed(m, trail, t)
    {
      BelowSolutionIff(m, trail, t);
    }
  }

  // Where pointers are loaded from and stored to tracked slots every solution allows what is read.

  lemma {:induction false} TrackedReplay(m: Module, trail: seq<Visit>, n: nat, t: States)
    requires (forall v :: v in trail ==> IsVisit(m, v)) && TrackedOnly(m) && Solution(m, t) && n <= |trail|
    ensures BelowMain(Replay(m, trail[..n]), t)
    ensures n < |trail| ==> ReadsAllowed(m, trail[n], Replay(m, trail[..n]), t)
  {
    hide TrackedOnly, Holds, ManagedState.VisitInstruction, ReadsAllowed;
    if n != 0 {
      var v, s := trail[n - 1], Replay(m, trail[..n - 1]);
      TrackedReplay(m, trail, n - 1, t);
      ReplayOneMore(m, trail, n - 1);
      assert v in trail && IsVisit(m, v);
      match v {
        case SeedVisit(f, index) =>
          if IsSeeded(m, f, index) { MergeStaysBelow(s, ParamCell(f, index), {IsRaw}, t); }
        case InstVisit(f, i) =>
          VisitStaysBelow(m, f, i, s, t);
      }
    }
    if n < |trail| {
      assert trail[n] in trail;
      TrackedReadsAllowed(m, trail[n], Replay(m, trail[..n]), t);
    }
  }

  lemma TrackedIsBelow(m: Module, trail: seq<Visit>, t: States)
    requires (forall v :: v in trail ==> IsVisit(m, v)) && TrackedOnly(m) && Solution(m, t)
    ensures BelowMain(Replay(m, trail), t) && AllReadsAllowed(m, trail, t)
  {
    hide TrackedOnly, Solution, BelowMain, ReadsAllowed, Replay;
    forall n | 0 <= n <= |trail|
      ensures BelowMain(Replay(m, trail[..n]), t)
      ensures n < |trail| ==> ReadsAllowed(m, trail[n], Replay(m, trail[..n]), t)
    {
      TrackedReplay(m, trail, n, t);
    }
    assert trail[..|trail|] == trail;
  }

  /** There the result is the least solution, whatever the order of visits that led to it. */
  lemma LeastSolution(m: Module, trail: seq<Visit>, other: seq<Visit>)
    requires (forall v :: v in trail ==> IsVisit(m, v)) && (forall v :: v in other ==> IsVisit(m, v))
    requires TrackedOnly(m) && Closed(m, Replay(m, trail)) && Closed(m, Replay(m, other))
    ensures Solution(m, Replay(m, trail))
    ensures forall t :: Solution(m, t) ==> BelowMain(Replay(m, trail), t)
    ensures forall c: Cell :: !c.LocationCell? ==> Get(Replay(m, trail), c) == Get(Replay(m, other), c)
  {
    hide TrackedOnly, Closed, Solution, Replay;
    ClosedIsSolution(m, Replay(m, trail));
    ClosedIsSolution(m, Replay(m, other));
    forall t | Solution(m, t)
      ensures BelowMain(Replay(m, trail), t) && BelowMain(Replay(m, other), t)
    {
      TrackedIsBelow(m, trail, t);
      TrackedIsBelow(m, other, t);
    }
    hide Get;
    assert BelowMain(Replay(m, trail), Replay(m, other)) && BelowMain(Replay(m, other), Replay(m, trail));
  }

  // ----- A parameter holds what the call sites pass, and what stores of it send back -----

  /** Instruction i of function g passes argument `index` to function f by a direct call. */
  predicate PassesTo(m: Module, g: nat, i: nat, f: nat, index: nat) {
    && IsInst(m, g, i) && m.functions[g].code[i].Call? && m.functions[g].code[i].callee == f
    && index < MatchedArgs(m, f, m.functions[g].code[i].args) && IsPointer(m, g, m.functions[g].code[i].args[index])
  }

  function Passed(m: Module, g: nat, i: nat, f: nat, index: nat, s: States): PointerState
    requires PassesTo(m, g, i, f, index)
  {
    ValueState(m, g, m.functions[g].code[i].args[index], s)
  }

  ghost predicate Internal(m: Module, f: nat) {
    f < |m.functions| && !m.functions[f].isDeclaration && !m.functions[f].hasAddressTaken
  }

  /** Instruction i of f stores the parameter, which is a pointer. */
  predicate StoresParam(m: Module, f: nat, i: nat, index: nat) {
    IsInst(m, f, i) && m.functions[f].code[i].Store? && m.functions[f].code[i].value == Arg(index) && IsPointer(m, f, Arg(index))
  }

  /** What a visit sends back into a parameter: the location state a store of it finds, if that is managed. */
  function SentBack(m: Module, v: Visit, f: nat, index: nat, s: States): PointerState {
    if v.InstVisit? && v.f == f && StoresParam(m, f, v.i, index) && HasManaged(SeenLocation(m, f, Arg(index), m.functions[f].code[v.i].pointer, s))
    then SeenLocation(m, f, Arg(index), m.functions[f].code[v.i].pointer, s)
    else {}
  }

  /** What all visits of an analysis have sent back. */
  function FlowedBack(m: Module, trail: seq<Visit>, f: nat, index: nat): PointerState
    requires forall v :: v in trail ==> IsVisit(m, v)
  {
    if trail == [] then {}
    else
      var before := trail[..|trail| - 1];
      FlowedBack(m, before, f, index) + SentBack(m, trail[|trail| - 1], f, index, Replay(m, before))
  }

  /** The same from the final tables alone: the managed location states of the stores of the parameter. */
  ghost function StoredBack(m: Module, f: nat, index: nat, s: States): PointerState {
    set b | b in AllBits && exists i: nat ::
      StoresParam(m, f, i, index) && HasManaged(LocationState(m, f, m.functions[f].code[i].pointer, s)) && b in LocationState(m, f, m.functions[f].code[i].pointer, s)
  }

  ghost predicate IsPassed(m: Module, f: nat, index: nat, s: States, b: StateBit) {
    exists g: nat, i: nat :: PassesTo(m, g, i, f, index) && b in Passed(m, g, i, f, index, s)
  }

  ghost predicate Supported(m: Module, f: nat, index: nat, s: States, back: PointerState) {
    forall b :: b in Get(s, ParamCell(f, index)) ==> b in back || IsPassed(m, f, index, s, b)
  }

  lemma ValueStateGrows(m: Module, f: nat, op: Operand, s: States, t: States)
    requires Below(s, t)
    ensures ValueState(m, f, op, s) <= ValueState(m, f, op, t)
  {
    hide IsPointer;
  }

  lemma PassedGrows(m: Module, f: nat, index: nat, s: States, t: States, b: StateBit)
    requires Below(s, t) && IsPassed(m, f, index, s, b)
    ensures IsPassed(m, f, index, t, b)
  {
    hide ValueState;
    var g: nat, i: nat :| PassesTo(m, g, i, f, index) && b in Passed(m, g, i, f, index, s);
    ValueStateGrows(m, g, m.functions[g].code[i].args[index], s, t);
    assert b in Passed(m, g, i, f, index, t);
  }

  lemma SupportedGrows(m: Module, f: nat, index: nat, s: States, t: States, back: PointerState)
    requires Supported(m, f, index, s, back) && Below(s, t) && Get(t, ParamCell(f, index)) == Get(s, ParamCell(f, index))
    ensures Supported(m, f, index, t, back)
  {
    hide IsPassed;
    forall b | b in Get(t, ParamCell(f, index)) && b !in back
      ensures IsPassed(m, f, index, t, b)
    {
      PassedGrows(m, f, index, s, t, b);
    }
  }

  lemma {:induction false} ArgsAddSupported(m: Module, g: nat, i: nat, f: nat, index: nat, callee: nat, args: seq<Operand>, count: nat, s: States, back: PointerState)
    requires IsInst(m, g, i) && m.functions[g].code[i] == Call(callee, args) && count <= MatchedArgs(m, callee, args)
    requires Supported(m, f, index, s, back)
    ensures Supported(m, f, index, UpdateArgs(m, g, callee, args, count, s), back)
  {
    hide ValueState, Merge, IsPointer, Grows, Supported, Below, Get;
    if count != 0 {
      ArgsAddSupported(m, g, i, f, index, callee, args, count - 1, s, back);
      var before := UpdateArgs(m, g, callee, args, count - 1, s);
      if IsPointer(m, g, args[count - 1]) {
        MergeAddsSupported(m, f, index, g, i, ParamCell(callee, count - 1), ValueState(m, g, args[count - 1], before), before, back);
      }
    }
  }

  /** Merging into a parameter what call (g, i) passes to it, or merging elsewhere, keeps it supported. */
  lemma MergeAddsSupported(m: Module, f: nat, index: nat, g: nat, i: nat, c: Cell, state: PointerState, s: States, back: PointerState)
    requires Supported(m, f, index, s, back)
    requires c == ParamCell(f, index) ==> PassesTo(m, g, i, f, index) && state <= Passed(m, g, i, f, index, s)
    ensures Supported(m, f, index, Merge(s, c, state), back)
  {
    var t := Merge(s, c, state);
    MergeGrows(s, c, state, {c});
    if c != ParamCell(f, index) {
      SupportedGrows(m, f, index, s, t, back);
    } else {
      hide ValueState, Merge;
      ValueStateGrows(m, g, m.functions[g].code[i].args[index], s, t);
      forall b | b in Get(t, ParamCell(f, index)) && b !in back
        ensures IsPassed(m, f, index, t, b)
      {
        MergeAddsOnly(s, c, state, b);
        if b in state {
          assert b in Passed(m, g, i, f, index, t);
        } else {
          PassedGrows(m, f, index, s, t, b);
        }
      }
    }
  }

  lemma MergeAddsOnly(s: States, c: Cell, state: PointerState, b: StateBit)
    ensures b in Get(Merge(s, c, state), c) <==> b in Get(s, c) || b in state
  {
  }

  /** A visit of a store adds to a parameter what it sends back, and nothing else. */
  lemma StoreSendsBack(m: Module, g: nat, i: nat, f: nat, index: nat, s: States)
    requires IsInst(m, g, i) && m.functions[g].code[i].Store?
    ensures Get(ManagedState.VisitInstruction(m, g, i, s), ParamCell(f, index)) ==
      Get(s, ParamCell(f, index)) + SentBack(m, InstVisit(g, i), f, index, s)
  {
    hide ValueState, TrackedSlot, LocationState, HasManaged, IsPointer;
    var inst := m.functions[g].code[i];
    var cell, value := ParamCell(f, index), ValueState(m, g, inst.value, s);
    var slot := TrackedSlot(m, g, inst.pointer);
    var s1 := if slot.Some? then Merge(s, SlotCell(slot.value), value) else s;
    var s2 := UpdateLocation(m, g, inst.pointer, value, s1);
    assert Get(s1, cell) == Get(s, cell) && Get(s2, cell) == Get(s, cell);
    var seen := LocationState(m, g, inst.pointer, s2);
    assert Get(UpdateSource(m, g, inst.value, seen, s2), cell) ==
      if IsPointer(m, g, inst.value) && SourceCell(g, inst.value) == cell then Get(s, cell) + seen else Get(s, cell);
  }

  lemma VisitKeepsSupported(m: Module, g: nat, i: nat, f: nat, index: nat, s: States, back: PointerState)
    requires IsInst(m, g, i) && Supported(m, f, index, s, back)
    ensures Supported(m, f, index, ManagedState.VisitInstruction(m, g, i, s), back + SentBack(m, InstVisit(g, i), f, index, s))
  {
    var inst := m.functions[g].code[i];
    match inst
    case Call(callee, args) =>
      hide ValueState, Merge, IsPointer, Supported, CallResultState, UpdateArgs;
      var s1 := UpdateValue(m, g, Result(i), CallResultState(m, callee, s), s);
      if IsPointer(m, g, Result(i)) {
        MergeAddsSupported(m, f, index, g, i, ValueCell(Key(g, Result(i))), CallResultState(m, callee, s), s, back);
      }
      ArgsAddSupported(m, g, i, f, index, callee, args, MatchedArgs(m, callee, args), s1, back);
      assert back + {} == back;
    case Store(_, _) =>
      VisitGrows(m, g, i, s);
      StoreSendsBack(m, g, i, f, index, s);
      hide ManagedState.VisitInstruction, SentBack, IsPassed;
      var t, more := ManagedState.VisitInstruction(m, g, i, s), back + SentBack(m, InstVisit(g, i), f, index, s);
      forall b | b in Get(t, ParamCell(f, index)) && b !in more
        ensures IsPassed(m, f, index, t, b)
      {
        PassedGrows(m, f, index, s, t, b);
      }
    case _ =>
      VisitGrows(m, g, i, s);
      assert ParamCell(f, index) !in Touched(m, g, i);
      hide ManagedState.VisitInstruction, Supported;
      SupportedGrows(m, f, index, s, ManagedState.VisitInstruction(m, g, i, s), back);
      assert back + {} == back;
  }

  lemma {:induction false} ReplayIsSupported(m: Module, f: nat, index: nat, trail: seq<Visit>)
    requires (forall v :: v in trail ==> IsVisit(m, v)) && Internal(m, f)
    ensures Supported(m, f, index, Replay(m, trail), FlowedBack(m, trail, f, index))
  {
    hide ManagedState.VisitInstruction, SentBack, IsPassed;
    if trail != [] {
      var v, s, back := trail[|trail| - 1], Replay(m, trail[..|trail| - 1]), FlowedBack(m, trail[..|trail| - 1], f, index);
      ReplayIsSupported(m, f, index, trail[..|trail| - 1]);
      assert v in trail && IsVisit(m, v);
      match v
      case SeedVisit(g, k) =>
        SeedGrows(m, g, k, s);
        SupportedGrows(m, f, index, s, Seed(m, g, k, s), back);
        SeedSendsNothing(m, g, k, f, index, s);
        assert back + {} == back;
      case InstVisit(g, i) =>
        VisitKeepsSupported(m, g, i, f, index, s, back);
    }
  }

  lemma SeedSendsNothing(m: Module, g: nat, k: nat, f: nat, index: nat, s: States)
    ensures SentBack(m, SeedVisit(g, k), f, index, s) == {}
  {
  }

  lemma VisitSendsBack(m: Module, v: Visit, f: nat, index: nat, s: States)
    requires IsVisit(m, v)
    ensures SentBack(m, v, f, index, s) <= Get(Apply(m, v, s), ParamCell(f, index)) && Below(s, Apply(m, v, s))
  {
    match v
    case SeedVisit(g, k) => SeedGrows(m, g, k, s);
    case InstVisit(g, i) =>
      VisitGrows(m, g, i, s);
      if m.functions[g].code[i].Store? { StoreSendsBack(m, g, i, f, index, s); }
  }

  /** What was sent back arrives. */
  lemma {:induction false} FlowedBackArrives(m: Module, f: nat, index: nat, trail: seq<Visit>)
    requires forall v :: v in trail ==> IsVisit(m, v)
    ensures FlowedBack(m, trail, f, index) <= Get(Replay(m, trail), ParamCell(f, index))
  {
    hide SentBack, Apply;
    if trail != [] {
      FlowedBackArrives(m, f, index, trail[..|trail| - 1]);
      assert trail[|trail| - 1] in trail;
      VisitSendsBack(m, trail[|trail| - 1], f, index, Replay(m, trail[..|trail| - 1]));
    }
  }

  lemma SolutionCoversPassed(m: Module, s: States, g: nat, i: nat, f: nat, index: nat)
    requires Solution(m, s) && Internal(m, f) && PassesTo(m, g, i, f, index)
    ensures Passed(m, g, i, f, index, s) <= Get(s, ParamCell(f, index))
  {
    assert Holds(m, g, i, s);
  }

  lemma PassedArrives(m: Module, s: States, f: nat, index: nat, b: StateBit)
    requires Solution(m, s) && Internal(m, f) && IsPassed(m, f, index, s, b)
    ensures b in Get(s, ParamCell(f, index))
  {
    hide Solution, Passed;
    var g: nat, i: nat :| PassesTo(m, g, i, f, index) && b in Passed(m, g, i, f, index, s);
    SolutionCoversPassed(m, s, g, i, f, index);
  }

  /** In the final tables the state of a parameter is what the direct calls pass together with what the
      visits of its stores have sent back. */
  lemma ParamIsUnion(m: Module, trail: seq<Visit>, f: nat, index: nat, b: StateBit)
    requires (forall v :: v in trail ==> IsVisit(m, v)) && Closed(m, Replay(m, trail)) && Internal(m, f)
    ensures b in Get(Replay(m, trail), ParamCell(f, index)) <==>
      IsPassed(m, f, index, Replay(m, trail), b) || b in FlowedBack(m, trail, f, index)
  {
    hide Closed, Solution, Replay, IsPassed, FlowedBack;
    ClosedIsSolution(m, Replay(m, trail));
    ReplayIsSupported(m, f, index, trail);
    FlowedBackArrives(m, f, index, trail);
    if IsPassed(m, f, index, Replay(m, trail), b) { PassedArrives(m, Replay(m, trail), f, index, b); }
  }

  // Where pointers are kept in tracked variables, the final tables say what was sent back.

  lemma VisitIsBelowEnd(m: Module, v: Visit, f: nat, index: nat, s: States, t: States)
    requires IsVisit(m, v) && TrackedOnly(m) && Below(Apply(m, v, s), t)
    ensures SentBack(m, v, f, index, s) <= StoredBack(m, f, index, t)
  {
    if SentBack(m, v, f, index, s) != {} {
      var value, pointer := Arg(index), m.functions[f].code[v.i].pointer;
      assert TrackedSlot(m, f, pointer).Some?;
      hide TrackedOnly, TrackedSlot, IsPointer, ValueState;
      var slot := TrackedSlot(m, f, pointer).value;
      var s2 := UpdateLocation(m, f, pointer, ValueState(m, f, value, s), Merge(s, SlotCell(slot), ValueState(m, f, value, s)));
      var seen := SeenLocation(m, f, value, pointer, s);
      assert seen == Get(s2, SlotCell(slot));
      assert Get(Apply(m, v, s), SlotCell(slot)) == Get(s2, SlotCell(slot));
      assert seen <= LocationState(m, f, pointer, t);
      SentIsStored(m, f, index, v.i, seen, t);
    }
  }

  lemma SentIsStored(m: Module, f: nat, index: nat, i: nat, seen: PointerState, t: States)
    requires StoresParam(m, f, i, index) && HasManaged(seen) && seen <= LocationState(m, f, m.functions[f].code[i].pointer, t)
    ensures seen <= StoredBack(m, f, index, t)
  {
    forall b | b in seen
      ensures b in AllBits
    {
      match b {
        case IsNull =>
        case IsRaw =>
        case IsObject =>
        case IsArray =>
      }
    }
    hide LocationState, AllBits;
  }

  lemma {:induction false} FlowedIsStored(m: Module, trail: seq<Visit>, n: nat, f: nat, index: nat)
    requires (forall v :: v in trail ==> IsVisit(m, v)) && TrackedOnly(m) && n <= |trail|
    ensures FlowedBack(m, trail[..n], f, index) <= StoredBack(m, f, index, Replay(m, trail))
    decreases n
  {
    hide TrackedOnly, SentBack, StoredBack, Apply, Below;
    if n != 0 {
      var front := trail[..n];
      assert front[..n - 1] == trail[..n - 1] && front[n - 1] == trail[n - 1];
      FlowedIsStored(m, trail, n - 1, f, index);
      ReplayGrows(m, trail, n);
      VisitIsBelowEnd(m, trail[n - 1], f, index, Replay(m, trail[..n - 1]), Replay(m, trail));
    }
  }

  lemma {:induction false} ReplayGrows(m: Module, trail: seq<Visit>, n: nat)
    requires (forall v :: v in trail ==> IsVisit(m, v)) && n <= |trail|
    ensures Below(Replay(m, trail[..n]), Replay(m, trail))
    decreases |trail|
  {
    if n == |trail| {
      assert trail[..n] == trail;
    } else {
      var front, v := trail[..|trail| - 1], trail[|trail| - 1];
      assert front[..n] == trail[..n] && v in trail;
      ReplayGrows(m, front, n);
      hide ManagedState.VisitInstruction;
      match v
      case SeedVisit(g, k) => SeedGrows(m, g, k, Replay(m, front));
      case InstVisit(g, i) => VisitGrows(m, g, i, Replay(m, front));
    }
  }

  lemma StoredBackArrives(m: Module, s: States, f: nat, index: nat)
    requires Solution(m, s)
    ensures StoredBack(m, f, index, s) <= Get(s, ParamCell(f, index))
  {
    forall b | b in StoredBack(m, f, index, s)
      ensures b in Get(s, ParamCell(f, index))
    {
      var i: nat :| StoresParam(m, f, i, index) && HasManaged(LocationState(m, f, m.functions[f].code[i].pointer, s))
                    && b in LocationState(m, f, m.functions[f].code[i].pointer, s);
      assert Holds(m, f, i, s);
      hide Solution, LocationState, ValueState;
    }
  }

  /** Then the state of a parameter is what the direct calls pass together with the managed states of
      the variables the parameter is stored in. */
  lemma TrackedParamIsUnion(m: Module, trail: seq<Visit>, f: nat, index: nat, b: StateBit)
    requires (forall v :: v in trail ==> IsVisit(m, v)) && Closed(m, Replay(m, trail)) && Internal(m, f) && TrackedOnly(m)
    ensures b in Get(Replay(m, trail), ParamCell(f, index)) <==>
      IsPassed(m, f, index, Replay(m, trail), b) || b in StoredBack(m, f, index, Replay(m, trail))
  {
    hide Closed, Solution, Replay, IsPassed, FlowedBack, StoredBack, TrackedOnly;
    ClosedIsSolution(m, Replay(m, trail));
    ParamIsUnion(m, trail, f, index, b);
    assert trail[..|trail|] == trail;
    FlowedIsStored(m, trail, |trail|, f, index);
    StoredBackArrives(m, Replay(m, trail), f, index);
  }

  /** Merging states of one dispatch kind gives that kind again. */
  lemma UnionKeepsKind(union: PointerState, parts: set<PointerState>, kind: ManagedPointerKind)
    requires parts != {} && forall part :: part in parts ==> DispatchKind(part) == kind
    requires forall b :: b in union <==> exists part :: part in parts && b in part
    ensures DispatchKind(union) == kind
  {
    var some :| some in parts;
    var whole := union - {IsNull};
    assert some - {IsNull} <= whole;
    if kind != Unknown {
      var bit := match kind case Raw => IsRaw case Object => IsObject case _ => IsArray;
      assert forall part :: part in parts ==> part - {IsNull} == {bit};
      assert IsNull != bit;
      forall b | b in whole
        ensures b == bit
      {
        var part :| part in parts && b in part;
        assert b in part - {IsNull};
      }
      assert bit in some - {IsNull};
      assert whole == {bit};
    } else if exists bit :: whole == {bit} {
      var bit :| whole == {bit};
      var part :| part in parts && bit in part;
      assert part - {IsNull} == {bit};
      match bit {
        case IsRaw =>
        case IsObject =>
        case IsArray =>
        case IsNull =>
      }
    }
  }
}
