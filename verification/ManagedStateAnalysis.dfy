/** The analysis as the compiler runs it: tables updated in place until a whole pass changes
    nothing. */
module ManagedStateAnalysisModule {
  import opened Wrappers
  import opened ManagedIR
  import opened ManagedState

  datatype Visit = SeedVisit(f: nat, index: nat) | InstVisit(f: nat, i: nat)

  predicate IsVisit(m: Module, v: Visit) {
    match v
    case SeedVisit(f, index) => f < |m.functions| && index < |m.functions[f].params|
    case InstVisit(f, i) => IsInst(m, f, i)
  }

  function Apply(m: Module, v: Visit, s: States): States
    requires IsVisit(m, v)
  {
    match v
    case SeedVisit(f, index) => Seed(m, f, index, s)
    case InstVisit(f, i) => ManagedState.VisitInstruction(m, f, i, s)
  }

  /** The tables after a list of visits, in any order, from empty ones. */
  function Replay(m: Module, trail: seq<Visit>): States
    requires forall v :: v in trail ==> IsVisit(m, v)
  {
    if trail == [] then map[] else Apply(m, trail[|trail| - 1], Replay(m, trail[..|trail| - 1]))
  }

  /** No visit would change anything. */
  ghost predicate Closed(m: Module, s: States) {
    forall v :: IsVisit(m, v) ==> Apply(m, v, s) == s
  }

  ghost predicate ClosedFor(m: Module, f: nat, s: States) {
    forall v :: IsVisit(m, v) && v.f == f ==> Apply(m, v, s) == s
  }

  lemma FunctionsClosed(m: Module, s: States)
    requires forall f: nat :: f < |m.functions| ==> ClosedFor(m, f, s)
    ensures Closed(m, s)
  {
    forall v | IsVisit(m, v)
      ensures Apply(m, v, s) == s
    {
      assert ClosedFor(m, v.f, s);
    }
  }

  /** The facts the tables do not hold yet. */
  ghost function Missing(m: Module, s: States): set<(Cell, StateBit)> {
    set c, b | c in Universe(m) && b in AllBits && b !in Get(s, c) :: (c, b)
  }

  lemma GrowsBothWays(s: States, s': States, cells: set<Cell>)
    requires Grows(s, s', cells) && Grows(s', s, cells)
    ensures s == s'
  {
    forall c | c in s
      ensures s[c] == s'[c]
    {
      assert Get(s, c) <= Get(s', c) && Get(s', c) <= Get(s, c);
    }
  }

  lemma ApplyGrows(m: Module, v: Visit, s: States)
    requires IsVisit(m, v)
    ensures Grows(s, Apply(m, v, s), Universe(m))
  {
    match v
    case SeedVisit(f, index) =>
      SeedGrows(m, f, index, s);
      GrowsMore(s, Apply(m, v, s), {ParamCell(f, index)}, Universe(m));
    case InstVisit(f, i) =>
      VisitGrows(m, f, i, s);
      hide ManagedState.VisitInstruction, Grows;
      TouchedInUniverse(m, f, i);
      GrowsMore(s, Apply(m, v, s), Touched(m, f, i), Universe(m));
  }

  lemma TouchedInUniverse(m: Module, f: nat, i: nat)
    requires IsInst(m, f, i)
    ensures Touched(m, f, i) <= Universe(m)
  {
    hide Touched;
  }

  lemma GrowsKeepsTables(m: Module, s: States, s': States)
    requires TablesOK(m, s) && Grows(s, s', Universe(m))
    ensures TablesOK(m, s')
  {
    forall c | c in s'
      ensures s'[c] != {}
    {
      assert Get(s, c) <= Get(s', c);
    }
  }

  lemma GrowthWitness(m: Module, s: States, s': States) returns (c: Cell, b: StateBit)
    requires TablesOK(m, s) && TablesOK(m, s') && Grows(s, s', Universe(m)) && s' != s
    ensures c in Universe(m) && b in AllBits && b in Get(s', c) && b !in Get(s, c)
  {
    hide Universe;
    assert exists x :: x in s' && !(s'[x] <= Get(s, x)) by {
      if forall x :: x in s' ==> s'[x] <= Get(s, x) {
        GrowsBothWays(s, s', Universe(m));
      }
    }
    c :| c in s' && !(s'[c] <= Get(s, c));
    b :| b in s'[c] && b !in Get(s, c);
    match b {
      case IsNull =>
      case IsRaw =>
      case IsObject =>
      case IsArray =>
    }
  }

  /** Growing the tables leaves fewer facts missing. */
  lemma GrowingDecreases(m: Module, s: States, s': States)
    requires TablesOK(m, s) && Grows(s, s', Universe(m)) && s' != s
    ensures Missing(m, s') < Missing(m, s)
  {
    GrowsKeepsTables(m, s, s');
    var c, b := GrowthWitness(m, s, s');
    assert Below(s, s');
    hide Universe, TablesOK, Get, Grows, AllBits;
    assert (c, b) in Missing(m, s) && (c, b) !in Missing(m, s');
  }

  /** Passing arguments on leaves the entry of the call's result alone. */
  lemma CallResultIsAdded(m: Module, f: nat, result: Operand, callee: nat, args: seq<Operand>, s: States)
    requires IsPointer(m, f, result) && callee < |m.functions| && m.functions[callee].returnsPointer
    ensures var c := ValueCell(Key(f, result));
      Get(ManagedState.VisitCall(m, f, result, callee, args, s), c) == Get(s, c) +
        match m.functions[callee].role
        case ObjectAllocator => {IsObject}
        case ArrayAllocator(_) => {IsArray}
        case Ordinary => if m.functions[callee].isDeclaration then {IsRaw} else Get(s, ReturnCell(callee))
  {
    hide Grows, IsPointer, UpdateArgs, MatchedArgs, Key;
    var c, s1 := ValueCell(Key(f, result)), UpdateValue(m, f, result, CallResultState(m, callee, s), s);
    assert Get(s1, c) == Get(s, c) + CallResultState(m, callee, s);
    UpdateArgsGrows(m, f, callee, args, MatchedArgs(m, callee, args), s1);
    ArgsLeaveValues(s1, UpdateArgs(m, f, callee, args, MatchedArgs(m, callee, args), s1), callee, |args|, c);
  }

  lemma ArgsLeaveValues(s: States, s': States, callee: nat, count: nat, c: Cell)
    requires Grows(s, s', set k | 0 <= k < count :: ParamCell(callee, k)) && c.ValueCell?
    ensures Get(s', c) == Get(s, c)
  {
  }

  class ManagedStateAnalysis {
    const m: Module
    var states: States
    ghost var trail: seq<Visit>

    ghost predicate Valid()
      reads this
    {
      && (forall v :: v in trail ==> IsVisit(m, v))
      && states == Replay(m, trail)
      && TablesOK(m, states)
    }

    constructor (m: Module)
      ensures Valid() && this.m == m && states == map[]
    {
      this.m := m;
      states := map[];
      trail := [];
    }

    method MergeState(c: Cell, state: PointerState) returns (changed: bool)
      modifies `states
      ensures states == Merge(old(states), c, state)
      ensures changed <==> states != old(states)
    {
      if state == {} {
        return false;
      }
      var previous := Get(states, c);
      assert state <= previous ==> previous + state == previous;
      changed := c !in states || !(state <= previous);
      states := states[c := previous + state];
    }

    method UpdateValueState(f: nat, op: Operand, state: PointerState) returns (changed: bool)
      modifies `states
      ensures states == UpdateValue(m, f, op, state, old(states)) && (changed <==> states != old(states))
    {
      if !IsPointer(m, f, op) {
        return false;
      }
      changed := MergeState(ValueCell(Key(f, op)), state);
    }

    method UpdateLocationState(f: nat, op: Operand, state: PointerState) returns (changed: bool)
      modifies `states
      ensures states == UpdateLocation(m, f, op, state, old(states)) && (changed <==> states != old(states))
    {
      if !IsPointer(m, f, op) {
        return false;
      }
      changed := MergeState(LocationCell(Key(f, op)), state);
    }

    method UpdatePointerSourceState(f: nat, op: Operand, state: PointerState) returns (changed: bool)
      modifies `states
      ensures states == UpdateSource(m, f, op, state, old(states)) && (changed <==> states != old(states))
    {
      if !IsPointer(m, f, op) {
        return false;
      }
      changed := MergeState(SourceCell(f, op), state);
    }

    /** Two updates in a row changed the tables iff either did. */
    lemma EitherChanged(s: States, s1: States, s2: States, cells: set<Cell>)
      requires Grows(s, s1, cells) && Grows(s1, s2, cells)
      ensures s2 != s <==> s1 != s || s2 != s1
    {
      if s2 == s { GrowsBothWays(s, s1, cells); }
    }

    method VisitStore(f: nat, value: Operand, pointer: Operand) returns (changed: bool)
      modifies `states
      ensures states == ManagedState.VisitStore(m, f, value, pointer, old(states)) && (changed <==> states != old(states))
    {
      hide Grows, Merge, ValueState, LocationState, TrackedSlot, UpdateLocation, UpdateSource, HasManaged, IsPointer, Key, SourceCell;
      if !IsPointer(m, f, value) {
        return false;
      }
      ghost var s := states;
      changed := false;
      var valueState := ValueState(m, f, value, states);
      var slot := TrackedSlot(m, f, pointer);
      ghost var cells := {LocationCell(Key(f, pointer)), SourceCell(f, value)} + if slot.Some? then {SlotCell(slot.value)} else {};
      GrowsReflexive(s, cells);
      if slot.Some? {
        changed := MergeState(SlotCell(slot.value), valueState);
        MergeGrows(s, SlotCell(slot.value), valueState, cells);
      }
      ghost var s1 := states;
      var changed' := UpdateLocationState(f, pointer, valueState);
      ghost var s2 := states;
      UpdateGrows(m, f, pointer, valueState, s1, cells);
      EitherChanged(s, s1, s2, cells);
      GrowsTransitive(s, s1, s2, cells);
      changed := changed || changed';
      var locationState := LocationState(m, f, pointer, states);
      if HasManaged(locationState) {
        changed' := UpdatePointerSourceState(f, value, locationState);
        UpdateGrows(m, f, value, locationState, s2, cells);
        EitherChanged(s, s2, states, cells);
        changed := changed || changed';
      }
    }

    method VisitCall(f: nat, result: Operand, callee: nat, args: seq<Operand>) returns (changed: bool)
      modifies `states
      ensures states == ManagedState.VisitCall(m, f, result, callee, args, old(states)) && (changed <==> states != old(states))
      ensures IsPointer(m, f, result) && callee < |m.functions| && m.functions[callee].returnsPointer ==>
        Get(states, ValueCell(Key(f, result))) == Get(old(states), ValueCell(Key(f, result))) +
          match m.functions[callee].role
          case ObjectAllocator => {IsObject}
          case ArrayAllocator(_) => {IsArray}
          case Ordinary => if m.functions[callee].isDeclaration then {IsRaw} else Get(old(states), ReturnCell(callee))
    {
      hide Grows, Merge, ValueState, UpdateValue, CallResultState, IsPointer, Key;
      ghost var s := states;
      if IsPointer(m, f, result) && callee < |m.functions| && m.functions[callee].returnsPointer {
        CallResultIsAdded(m, f, result, callee, args, s);
      }
      changed := UpdateValueState(f, result, CallResultState(m, callee, states));
      ghost var s1 := states;
      if callee < |m.functions| && !m.functions[callee].isDeclaration {
        ghost var cells := {ValueCell(Key(f, result))} + set k | 0 <= k < |args| :: ParamCell(callee, k);
        UpdateGrows(m, f, result, CallResultState(m, callee, s), s, cells);
        var n := MatchedArgs(m, callee, args);
        for k := 0 to n
          invariant states == UpdateArgs(m, f, callee, args, k, s1)
          invariant Grows(s, states, cells)
          invariant changed <==> states != s
        {
          if IsPointer(m, f, args[k]) {
            ghost var before := states;
            var changed' := MergeState(ParamCell(callee, k), ValueState(m, f, args[k], states));
            MergeGrows(before, ParamCell(callee, k), ValueState(m, f, args[k], before), cells);
            EitherChanged(s, before, states, cells);
            GrowsTransitive(s, before, states, cells);
            changed := changed || changed';
          }
        }
      }
    }

    method VisitInstruction(f: nat, i: nat) returns (changed: bool)
      requires IsInst(m, f, i)
      modifies `states
      ensures states == ManagedState.VisitInstruction(m, f, i, old(states)) && (changed <==> states != old(states))
    {
      hide Grows, Merge, ValueState, LocationState, TrackedSlot, UpdateLocation, UpdateValue, IsPointer, Key, IncomingStates, IncomingLocations,
        ManagedState.VisitStore, ManagedState.VisitCall, AggregateFieldState;
      ghost var s := states;
      var result := Result(i);
      ghost var cells := {ValueCell(Key(f, result)), LocationCell(Key(f, result))};
      GrowsReflexive(s, cells);
      match m.functions[f].code[i] {
        case Alloca(_) =>
          changed := UpdateValueState(f, result, {IsRaw});
        case Gep(base, _, fieldIsPointer) =>
          changed := UpdateValueState(f, result, ValueState(m, f, base, states));
          if fieldIsPointer {
            ghost var s1 := states;
            UpdateGrows(m, f, result, ValueState(m, f, base, s), s, cells);
            UpdateGrows(m, f, result, AggregateFieldState(m, f, result, s1), s1, cells);
            var changed' := UpdateLocationState(f, result, AggregateFieldState(m, f, result, states));
            EitherChanged(s, s1, states, cells);
            changed := changed || changed';
          }
        case Phi(incoming, _) =>
          var state := MergeIncoming(f, incoming);
          changed := UpdateValueState(f, result, state);
          ghost var s1 := states;
          var location := MergeIncomingLocations(f, incoming);
          UpdateGrows(m, f, result, state, s, cells);
          UpdateGrows(m, f, result, location, s1, cells);
          var changed' := UpdateLocationState(f, result, location);
          EitherChanged(s, s1, states, cells);
          changed := changed || changed';
        case Select(_, ifTrue, ifFalse, _) =>
          var state := ValueState(m, f, ifTrue, states) + ValueState(m, f, ifFalse, states);
          changed := UpdateValueState(f, result, state);
          ghost var s1 := states;
          var location := LocationState(m, f, ifTrue, states) + LocationState(m, f, ifFalse, states);
          UpdateGrows(m, f, result, state, s, cells);
          UpdateGrows(m, f, result, location, s1, cells);
          var changed' := UpdateLocationState(f, result, location);
          EitherChanged(s, s1, states, cells);
          changed := changed || changed';
        case Freeze(source, _) =>
          var state := ValueState(m, f, source, states);
          changed := UpdateValueState(f, result, state);
          ghost var s1 := states;
          var location := LocationState(m, f, source, states);
          UpdateGrows(m, f, result, state, s, cells);
          UpdateGrows(m, f, result, location, s1, cells);
          var changed' := UpdateLocationState(f, result, location);
          EitherChanged(s, s1, states, cells);
          changed := changed || changed';
        case Load(pointer, isPointer) =>
          changed := false;
          if isPointer {
            changed := UpdateValueState(f, result, LocationState(m, f, pointer, states));
          }
        case Store(value, pointer) =>
          changed := VisitStore(f, value, pointer);
        case Call(callee, args) =>
          changed := VisitCall(f, result, callee, args);
        case IndirectCall(_, _, isPointer) =>
          changed := false;
          if isPointer {
            changed := UpdateValueState(f, result, {IsRaw});
          }
        case Ret(value) =>
          changed := false;
          if IsPointer(m, f, value) {
            changed := MergeState(ReturnCell(f), ValueState(m, f, value, states));
          }
        case Compute(_, _, _) =>
          changed := false;
        case Br(_, _, _) =>
          changed := false;
      }
    }

    method MergeIncoming(f: nat, incoming: seq<Incoming>) returns (state: PointerState)
      ensures state == IncomingStates(m, f, incoming, states)
    {
      hide ValueState;
      state := {};
      for k := 0 to |incoming|
        invariant state == IncomingStates(m, f, incoming[..k], states)
      {
        assert incoming[..k + 1][..k] == incoming[..k];
        state := state + ValueState(m, f, incoming[k].value, states);
      }
      assert incoming[..|incoming|] == incoming;
    }

    method MergeIncomingLocations(f: nat, incoming: seq<Incoming>) returns (state: PointerState)
      ensures state == IncomingLocations(m, f, incoming, states)
    {
      hide LocationState;
      state := {};
      for k := 0 to |incoming|
        invariant state == IncomingLocations(m, f, incoming[..k], states)
      {
        assert incoming[..k + 1][..k] == incoming[..k];
        state := state + LocationState(m, f, incoming[k].value, states);
      }
      assert incoming[..|incoming|] == incoming;
    }

    /** Records a visit just made. */
    ghost method Record(v: Visit, s: States)
      requires IsVisit(m, v) && (forall u :: u in trail ==> IsVisit(m, u)) && s == Replay(m, trail) && TablesOK(m, s)
      requires states == Apply(m, v, s)
      modifies `trail
      ensures Valid() && Grows(s, states, Universe(m))
    {
      hide TablesOK, Grows, Apply;
      ApplyGrows(m, v, s);
      GrowsKeepsTables(m, s, states);
      assert (trail + [v])[..|trail|] == trail;
      trail := trail + [v];
    }

    method VisitFunction(f: nat) returns (changed: bool)
      requires Valid() && f < |m.functions|
      modifies this
      ensures Valid() && Grows(old(states), states, Universe(m))
      ensures changed <==> states != old(states)
      ensures !changed ==> ClosedFor(m, f, states)
    {
      hide TablesOK, Grows, Replay, Merge, ManagedState.VisitInstruction, Universe;
      ghost var s := states;
      changed := false;
      GrowsReflexive(s, Universe(m));
      for index := 0 to |m.functions[f].params|
        invariant Valid() && Grows(s, states, Universe(m)) && (changed <==> states != s)
        invariant !changed ==> forall k: nat :: k < index ==> Apply(m, SeedVisit(f, k), states) == states
      {
        ghost var before := states;
        var changed' := false;
        if m.functions[f].params[index] {
          if m.functions[f].isDeclaration || m.functions[f].hasAddressTaken {
            changed' := MergeState(ParamCell(f, index), {IsRaw});
          }
        }
        Record(SeedVisit(f, index), before);
        EitherChanged(s, before, states, Universe(m));
        GrowsTransitive(s, before, states, Universe(m));
        changed := changed || changed';
      }
      for i := 0 to |m.functions[f].code|
        invariant Valid() && Grows(s, states, Universe(m)) && (changed <==> states != s)
        invariant !changed ==> forall k: nat :: k < |m.functions[f].params| ==> Apply(m, SeedVisit(f, k), states) == states
        invariant !changed ==> forall k: nat :: k < i ==> Apply(m, InstVisit(f, k), states) == states
      {
        ghost var before := states;
        var changed' := VisitInstruction(f, i);
        Record(InstVisit(f, i), before);
        EitherChanged(s, before, states, Universe(m));
        GrowsTransitive(s, before, states, Universe(m));
        changed := changed || changed';
      }
    }

    /** run: passes over the module until one changes nothing. The tables are then a result of
        visits alone, and no visit of any instruction would add to them. */
    method Run()
      requires Valid()
      modifies this
      ensures Valid() && Closed(m, states)
    {
      hide TablesOK, Grows, Replay, Apply, Universe, Missing;
      var changed := true;
      while changed
        invariant Valid()
        invariant !changed ==> Closed(m, states)
        decreases Missing(m, states), changed
      {
        changed := false;
        ghost var s := states;
        GrowsReflexive(s, Universe(m));
        for f := 0 to |m.functions|
          invariant Valid() && Grows(s, states, Universe(m)) && (changed <==> states != s)
          invariant !changed ==> forall g: nat :: g < f ==> ClosedFor(m, g, states)
        {
          ghost var before := states;
          var changed' := VisitFunction(f);
          EitherChanged(s, before, states, Universe(m));
          GrowsTransitive(s, before, states, Universe(m));
          changed := changed || changed';
        }
        if changed { GrowingDecreases(m, s, states); }
        if !changed { FunctionsClosed(m, states); }
      }
    }
  }
}
