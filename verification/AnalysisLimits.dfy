/** Three programs on which the managed-state analysis is not what one might expect: its tables depend
    on the order of visits, a parameter may be given a state that no call passes, and a pointer read
    back from memory may be given no state at all. */
module AnalysisLimits {
  import opened Wrappers
  import opened ManagedIR
  import opened ManagedState
  import opened ManagedStateAnalysisModule
  import opened StateSolutions
  import opened DispatchCounting
  import opened ManagedDispatch
  import opened DispatchPass
  import IRMachine
  import Soundness = ProvenanceSoundness

  ghost predicate AreVisits(m: Module, trail: seq<Visit>) {
    forall v :: v in trail ==> IsVisit(m, v)
  }

  lemma ReplayMore(m: Module, trail: seq<Visit>, v: Visit)
    requires AreVisits(m, trail) && IsVisit(m, v)
    ensures AreVisits(m, trail + [v]) && Replay(m, trail + [v]) == Apply(m, v, Replay(m, trail))
  {
    assert (trail + [v])[..|trail|] == trail;
  }

  lemma NotTracked(m: Module, f: nat, i: nat)
    requires IsInst(m, f, i) && m.functions[f].code[i].Call?
    ensures TrackedSlot(m, f, Result(i)) == None
  {
  }

  lemma Unions()
    ensures forall state: PointerState :: {} + state == state
    ensures forall state: PointerState :: state + state == state
    ensures {IsObject} + {IsNull} == {IsObject, IsNull}
  {
  }

  // ----- Tables that depend on the order -----

  /** A field of a new object is read, and null is stored in it. */
  const Rereads: Module := Module([
    Function([], true, ObjectAllocator, true, false, false, []),
    Function([], false, Ordinary, false, false, false, [Call(0, []), Load(Result(0), true), Store(Null, Result(0)), Ret(Scalar(0))])
  ], [])

  const ReadFirst: seq<Visit> := [InstVisit(1, 0), InstVisit(1, 1), InstVisit(1, 2), InstVisit(1, 1)]
  const StoreFirst: seq<Visit> := [InstVisit(1, 0), InstVisit(1, 2), InstVisit(1, 1)]

  function Reread(loaded: PointerState): States {
    map[ValueCell(Key(1, Result(0))) := {IsObject}, LocationCell(Key(1, Result(0))) := {IsNull}, ValueCell(Key(1, Result(1))) := loaded]
  }

  lemma RereadIsClosed(loaded: PointerState)
    requires IsNull in loaded
    ensures Closed(Rereads, Reread(loaded))
  {
    var m, s := Rereads, Reread(loaded);
    NotTracked(m, 1, 0);
    hide TrackedSlot;
    forall f: nat, i: nat | IsInst(m, f, i)
      ensures Holds(m, f, i, s)
    {
      assert f == 1;
      if i == 0 {
      } else if i == 1 {
      } else if i == 2 {
      }
    }
    ClosedIsSolution(m, s);
  }

  /** The tables with some state for the object, its field and the loaded value. */
  function Tables(field: PointerState, loaded: PointerState): States {
    var object' := map[ValueCell(Key(1, Result(0))) := {IsObject}];
    var field' := if field == {} then object' else object'[LocationCell(Key(1, Result(0))) := field];
    if loaded == {} then field' else field'[ValueCell(Key(1, Result(1))) := loaded]
  }

  lemma AllocationVisit()
    ensures Apply(Rereads, InstVisit(1, 0), map[]) == Tables({}, {})
  {
    Unions();
  }

  lemma StoreVisit(loaded: PointerState)
    ensures Apply(Rereads, InstVisit(1, 2), Tables({}, loaded)) == Tables({IsNull}, loaded)
  {
    NotTracked(Rereads, 1, 0);
    hide TrackedSlot;
    Unions();
  }

  lemma LoadVisit(field: PointerState, loaded: PointerState)
    ensures var read := if field == {} then {IsObject} else field;
      Apply(Rereads, InstVisit(1, 1), Tables(field, loaded)) == Tables(field, loaded + read)
  {
    NotTracked(Rereads, 1, 0);
    hide TrackedSlot;
    Unions();
  }

  lemma NothingReplayed(m: Module)
    ensures AreVisits(m, []) && Replay(m, []) == map[]
  {
  }

  lemma VisitsOfRereads()
    ensures IsVisit(Rereads, InstVisit(1, 0)) && IsVisit(Rereads, InstVisit(1, 1)) && IsVisit(Rereads, InstVisit(1, 2))
  {
  }

  lemma TablesAreReread(loaded: PointerState)
    requires loaded != {}
    ensures Tables({IsNull}, loaded) == Reread(loaded)
  {
  }

  lemma ReadFirstResult()
    ensures AreVisits(Rereads, ReadFirst) && Replay(Rereads, ReadFirst) == Reread({IsObject, IsNull})
  {
    var m := Rereads;
    NothingReplayed(m);
    hide Apply, Tables, Replay, Reread, IsVisit;
    AllocationVisit();
    LoadVisit({}, {});
    StoreVisit({IsObject});
    LoadVisit({IsNull}, {IsObject});
    Unions();
    VisitsOfRereads();
    ReplayMore(m, [], InstVisit(1, 0));
    ReplayMore(m, [InstVisit(1, 0)], InstVisit(1, 1));
    ReplayMore(m, [InstVisit(1, 0), InstVisit(1, 1)], InstVisit(1, 2));
    ReplayMore(m, [InstVisit(1, 0), InstVisit(1, 1), InstVisit(1, 2)], InstVisit(1, 1));
    TablesAreReread({IsObject, IsNull});
    assert [] + [InstVisit(1, 0)] == [InstVisit(1, 0)] && [InstVisit(1, 0)] + [InstVisit(1, 1)] == [InstVisit(1, 0), InstVisit(1, 1)];
    assert [InstVisit(1, 0), InstVisit(1, 1)] + [InstVisit(1, 2)] == [InstVisit(1, 0), InstVisit(1, 1), InstVisit(1, 2)];
    assert [InstVisit(1, 0), InstVisit(1, 1), InstVisit(1, 2)] + [InstVisit(1, 1)] == ReadFirst;
  }

  lemma StoreFirstResult()
    ensures AreVisits(Rereads, StoreFirst) && Replay(Rereads, StoreFirst) == Reread({IsNull})
  {
    var m := Rereads;
    NothingReplayed(m);
    hide Apply, Tables, Replay, Reread, IsVisit;
    AllocationVisit();
    StoreVisit({});
    LoadVisit({IsNull}, {});
    Unions();
    VisitsOfRereads();
    ReplayMore(m, [], InstVisit(1, 0));
    ReplayMore(m, [InstVisit(1, 0)], InstVisit(1, 2));
    ReplayMore(m, [InstVisit(1, 0), InstVisit(1, 2)], InstVisit(1, 1));
    TablesAreReread({IsNull});
    assert [] + [InstVisit(1, 0)] == [InstVisit(1, 0)] && [InstVisit(1, 0)] + [InstVisit(1, 2)] == [InstVisit(1, 0), InstVisit(1, 2)];
    assert [InstVisit(1, 0), InstVisit(1, 2)] + [InstVisit(1, 1)] == StoreFirst;
  }

  /** Both orders of visits end in closed tables, and these differ in the loaded value: in the order of
      the program it keeps the state the object had before anything was known of its field. So where
      pointers are kept in objects the result need not be the least solution. */
  lemma OrderMatters()
    ensures AreVisits(Rereads, ReadFirst) && Closed(Rereads, Replay(Rereads, ReadFirst))
    ensures AreVisits(Rereads, StoreFirst) && Closed(Rereads, Replay(Rereads, StoreFirst))
    ensures ValueState(Rereads, 1, Result(1), Replay(Rereads, ReadFirst)) == {IsObject, IsNull}
    ensures ValueState(Rereads, 1, Result(1), Replay(Rereads, StoreFirst)) == {IsNull}
    ensures !BelowMain(Replay(Rereads, ReadFirst), Replay(Rereads, StoreFirst)) && !AllReadsAllowed(Rereads, ReadFirst, Replay(Rereads, StoreFirst))
  {
    ReadFirstResult();
    StoreFirstResult();
    RereadIsClosed({IsObject, IsNull});
    RereadIsClosed({IsNull});
    RereadStates();
    hide Closed, Replay, Solution, AllReadsAllowed, BelowMain, ValueState, Reread;
    ClosedIsSolution(Rereads, Replay(Rereads, StoreFirst));
    BelowSolutionIff(Rereads, ReadFirst, Replay(Rereads, StoreFirst));
  }

  lemma RereadStates()
    ensures ValueState(Rereads, 1, Result(1), Reread({IsObject, IsNull})) == {IsObject, IsNull}
    ensures ValueState(Rereads, 1, Result(1), Reread({IsNull})) == {IsNull}
    ensures !BelowMain(Reread({IsObject, IsNull}), Reread({IsNull}))
  {
    var c := ValueCell(Key(1, Result(1)));
    assert IsObject in Get(Reread({IsObject, IsNull}), c) && IsObject !in Get(Reread({IsNull}), c);
  }

  // ----- A parameter that is stored -----

  /** A function that stores its parameter in a new object, called with a stack address. */
  const Keeps: Module := Module([
    Function([], true, ObjectAllocator, true, false, false, []),
    Function([true], false, Ordinary, false, false, false, [Call(0, []), Store(Arg(0), Result(0)), Ret(Scalar(0))]),
    Function([], false, Ordinary, false, false, false, [Alloca(true), Call(1, [Result(0)]), Ret(Scalar(0))])
  ], [])

  const InOrder: seq<Visit> := [InstVisit(1, 0), InstVisit(1, 1), InstVisit(2, 0), InstVisit(2, 1), InstVisit(1, 1)]

  /** The tables with some state for the parameter, for the field it is stored in, and for the stack address. */
  function Kept(param: PointerState, field: PointerState, address: PointerState): States {
    var object' := map[ValueCell(Key(1, Result(0))) := {IsObject}];
    var param' := if param == {} then object' else object'[ParamCell(1, 0) := param];
    var field' := if field == {} then param' else param'[LocationCell(Key(1, Result(0))) := field];
    if address == {} then field' else field'[ValueCell(Key(2, Result(0))) := address]
  }

  lemma ObjectVisit()
    ensures Apply(Keeps, InstVisit(1, 0), map[]) == Kept({}, {}, {})
  {
    Unions();
  }

  /** Before anything is known of the parameter, the field is taken for an object's, and so is the parameter. */
  lemma FirstKeepVisit()
    ensures Apply(Keeps, InstVisit(1, 1), Kept({}, {}, {})) == Kept({IsObject}, {}, {})
  {
    NotTracked(Keeps, 1, 0);
    hide TrackedSlot;
    Unions();
  }

  lemma AddressVisit()
    ensures Apply(Keeps, InstVisit(2, 0), Kept({IsObject}, {}, {})) == Kept({IsObject}, {}, {IsRaw})
  {
    Unions();
  }

  lemma PassVisit()
    ensures Apply(Keeps, InstVisit(2, 1), Kept({IsObject}, {}, {IsRaw})) == Kept({IsObject, IsRaw}, {}, {IsRaw})
  {
    Unions();
    assert {IsObject} + {IsRaw} == {IsObject, IsRaw};
  }

  lemma SecondKeepVisit()
    ensures Apply(Keeps, InstVisit(1, 1), Kept({IsObject, IsRaw}, {}, {IsRaw})) == Kept({IsObject, IsRaw}, {IsObject, IsRaw}, {IsRaw})
  {
    NotTracked(Keeps, 1, 0);
    hide TrackedSlot;
    Unions();
  }

  lemma KeptIsClosed()
    ensures Closed(Keeps, Kept({IsObject, IsRaw}, {IsObject, IsRaw}, {IsRaw}))
  {
    var m, s := Keeps, Kept({IsObject, IsRaw}, {IsObject, IsRaw}, {IsRaw});
    NotTracked(m, 1, 0);
    hide TrackedSlot;
    forall f: nat, i: nat | IsInst(m, f, i)
      ensures Holds(m, f, i, s)
    {
      assert f == 1 || f == 2;
      if i == 0 {
      } else if i == 1 {
      }
    }
    ClosedIsSolution(m, s);
  }

  lemma InOrderResult()
    ensures AreVisits(Keeps, InOrder) && Replay(Keeps, InOrder) == Kept({IsObject, IsRaw}, {IsObject, IsRaw}, {IsRaw})
  {
    var m := Keeps;
    NothingReplayed(m);
    VisitsOfKeeps();
    hide Apply, Kept, Replay, IsVisit;
    ObjectVisit();
    FirstKeepVisit();
    AddressVisit();
    PassVisit();
    SecondKeepVisit();
    var a, b, c, d := InstVisit(1, 0), InstVisit(1, 1), InstVisit(2, 0), InstVisit(2, 1);
    ReplayMore(m, [], a);
    ReplayMore(m, [a], b);
    ReplayMore(m, [a, b], c);
    ReplayMore(m, [a, b, c], d);
    ReplayMore(m, [a, b, c, d], b);
    assert [] + [a] == [a] && [a] + [b] == [a, b] && [a, b] + [c] == [a, b, c] && [a, b, c] + [d] == [a, b, c, d];
    assert [a, b, c, d] + [b] == InOrder;
  }

  lemma VisitsOfKeeps()
    ensures IsVisit(Keeps, InstVisit(1, 0)) && IsVisit(Keeps, InstVisit(1, 1)) && IsVisit(Keeps, InstVisit(2, 0)) && IsVisit(Keeps, InstVisit(2, 1))
  {
  }

  lemma KeepsPasses(s: States)
    requires Get(s, ValueCell(Key(2, Result(0)))) == {IsRaw}
    ensures !IsPassed(Keeps, 1, 0, s, IsObject) && Internal(Keeps, 1)
  {
    forall g: nat, i: nat | PassesTo(Keeps, g, i, 1, 0)
      ensures Passed(Keeps, g, i, 1, 0, s) == {IsRaw}
    {
      assert g == 2 && i == 1;
    }
    hide Passed, PassesTo;
  }

  /** Its only call passes a raw pointer, so the calls agree and specialization is content; yet the
      tables, computed in the order of the program, say of the parameter that it may be an object. */
  lemma StoredParameterDisagrees()
    ensures AreVisits(Keeps, InOrder) && Closed(Keeps, Replay(Keeps, InOrder)) && AgreeAt(Keeps, Replay(Keeps, InOrder), 1)
    ensures PassesTo(Keeps, 2, 1, 1, 0) && IsObject in FlowedBack(Keeps, InOrder, 1, 0)
    ensures DispatchKind(Passed(Keeps, 2, 1, 1, 0, Replay(Keeps, InOrder))) == Raw
    ensures DispatchKind(Get(Replay(Keeps, InOrder), ParamCell(1, 0))) == Unknown
  {
    hide Closed, Replay, IsPassed, FlowedBack;
    InOrderResult();
    KeptIsClosed();
    var s := Kept({IsObject, IsRaw}, {IsObject, IsRaw}, {IsRaw});
    assert forall f: nat, i: nat :: CallsAt(Keeps, f, i, 1) ==> f == 2 && i == 1;
    assert {IsRaw} - {IsNull} == {IsRaw};
    assert IsObject in {IsObject, IsRaw} - {IsNull} && IsRaw in {IsObject, IsRaw} - {IsNull};
    KeepsPasses(s);
    ParamIsUnion(Keeps, InOrder, 1, 0, IsObject);
  }

  // ----- A field named twice -----

  /** An object is stored in a field of raw memory, and read back through another computation of the same address. */
  const Aliases: Module := Module([
    Function([], false, Ordinary, false, false, false, [
      Call(1, []), Call(2, []), Gep(Result(0), Scalar(8), true), Gep(Result(0), Scalar(8), true), Store(Result(1), Result(2)), Load(Result(3), true),
      Ret(Scalar(0))
    ]),
    Function([], true, Ordinary, true, false, false, []),
    Function([], true, ObjectAllocator, true, false, false, [])
  ], [])

  const AliasVisits: seq<Visit> := [InstVisit(0, 0), InstVisit(0, 1), InstVisit(0, 2), InstVisit(0, 3), InstVisit(0, 4)]

  /** The tables after the first n instructions. */
  function AliasTables(n: nat): States {
    var t1 := map[ValueCell(Key(0, Result(0))) := {IsRaw}];
    var t2 := t1[ValueCell(Key(0, Result(1))) := {IsObject}];
    var t3 := t2[ValueCell(Key(0, Result(2))) := {IsRaw}];
    var t4 := t3[ValueCell(Key(0, Result(3))) := {IsRaw}];
    if n == 0 then map[] else if n == 1 then t1 else if n == 2 then t2 else if n == 3 then t3 else if n == 4 then t4
    else t4[LocationCell(Key(0, Result(2))) := {IsObject}]
  }

  lemma AliasNames()
    ensures TrackedSlot(Aliases, 0, Result(2)) == None && TrackedSlot(Aliases, 0, Result(3)) == None
    ensures Stripped(Aliases, 0, Result(2)) == Result(2) && Stripped(Aliases, 0, Result(3)) == Result(3)
  {
  }

  lemma AliasCallVisit(n: nat)
    requires n < 2
    ensures IsVisit(Aliases, InstVisit(0, n)) && Apply(Aliases, InstVisit(0, n), AliasTables(n)) == AliasTables(n + 1)
  {
    Unions();
    if n == 0 {
    }
  }

  lemma AliasGepVisit(n: nat)
    requires 2 <= n < 4
    ensures IsVisit(Aliases, InstVisit(0, n)) && Apply(Aliases, InstVisit(0, n), AliasTables(n)) == AliasTables(n + 1)
  {
    AliasNames();
    hide TrackedSlot, Stripped;
    Unions();
    assert {IsRaw} - {IsNull} == {IsRaw};
    if n == 2 {
    }
  }

  lemma AliasStoreVisit()
    ensures IsVisit(Aliases, InstVisit(0, 4)) && Apply(Aliases, InstVisit(0, 4), AliasTables(4)) == AliasTables(5)
  {
    AliasNames();
    hide TrackedSlot, Stripped;
    Unions();
  }

  lemma AliasVisit(n: nat)
    requires n < 5
    ensures IsVisit(Aliases, InstVisit(0, n)) && Apply(Aliases, InstVisit(0, n), AliasTables(n)) == AliasTables(n + 1)
  {
    hide Apply, AliasTables;
    if n < 2 {
      AliasCallVisit(n);
    } else if n < 4 {
      AliasGepVisit(n);
    } else {
      AliasStoreVisit();
    }
  }

  lemma AliasHoldsFirst(i: nat)
    requires i < 4
    ensures IsInst(Aliases, 0, i) && Holds(Aliases, 0, i, AliasTables(5))
  {
    AliasNames();
    hide TrackedSlot, Stripped;
    assert {IsRaw} - {IsNull} == {IsRaw};
    if i == 0 {
    } else if i == 1 {
    } else if i == 2 {
    }
  }

  lemma AliasHoldsLast(i: nat)
    requires 4 <= i < 7
    ensures IsInst(Aliases, 0, i) && Holds(Aliases, 0, i, AliasTables(5))
  {
    AliasNames();
    hide TrackedSlot, Stripped;
    if i == 4 {
    } else if i == 5 {
    }
  }

  lemma AliasesAreClosed()
    ensures Closed(Aliases, AliasTables(5))
  {
    forall f: nat, i: nat | IsInst(Aliases, f, i)
      ensures Holds(Aliases, f, i, AliasTables(5))
    {
      assert f == 0 && i < 7;
      if i < 4 {
        AliasHoldsFirst(i);
      } else {
        AliasHoldsLast(i);
      }
    }
    hide Holds, AliasTables;
    ClosedIsSolution(Aliases, AliasTables(5));
  }

  lemma AliasReplay(n: nat)
    requires n <= 5
    ensures AreVisits(Aliases, AliasVisits[..n]) && Replay(Aliases, AliasVisits[..n]) == AliasTables(n)
  {
    if n == 0 {
      NothingReplayed(Aliases);
      assert AliasVisits[..0] == [];
    } else {
      AliasReplay(n - 1);
      AliasVisit(n - 1);
      hide Apply, AliasTables, Replay;
      assert AliasVisits[..n] == AliasVisits[..n - 1] + [InstVisit(0, n - 1)];
      ReplayMore(Aliases, AliasVisits[..n - 1], InstVisit(0, n - 1));
    }
  }

  /** What external code returns to the calls: memory at 100, an object at 200. */
  const AliasChoices: seq<int> := [100, 200, 0, 0, 0, 0]

  /** The machine after the first n instructions. */
  function AliasMachine(n: nat): IRMachine.Machine {
    var object' := IRMachine.Pointer(IRMachine.FromObject, 200);
    var field := IRMachine.Pointer(IRMachine.FromRaw, 108);
    var env1 := map[0 := IRMachine.Pointer(IRMachine.FromRaw, 100)];
    var env2 := env1[1 := object'];
    var env3 := env2[2 := field];
    var env4 := env3[3 := field];
    var env5 := env4[4 := IRMachine.Undef];
    var env6 := env5[5 := object'];
    var env := if n == 0 then map[] else if n == 1 then env1 else if n == 2 then env2 else if n == 3 then env3 else if n == 4 then env4
               else if n == 5 then env5 else env6;
    IRMachine.Machine([IRMachine.Frame(0, n, 0, [], env, map[])], if n < 5 then map[] else map[108 := object'], 1, IRMachine.Running)
  }

  lemma AliasFirstSteps(n: nat)
    requires n < 2
    ensures IRMachine.Step(Aliases, AliasMachine(n), AliasChoices[n]) == AliasMachine(n + 1)
  {
    if n == 0 {
    }
  }

  lemma AliasNextSteps(n: nat)
    requires 2 <= n < 4
    ensures IRMachine.Step(Aliases, AliasMachine(n), AliasChoices[n]) == AliasMachine(n + 1)
  {
    if n == 2 {
    }
  }

  lemma AliasLastSteps(n: nat)
    requires 4 <= n < 6
    ensures IRMachine.Step(Aliases, AliasMachine(n), AliasChoices[n]) == AliasMachine(n + 1)
  {
    if n == 4 {
    }
  }

  lemma AliasStart()
    ensures IRMachine.Start(Aliases, 0, [], map[]) == AliasMachine(0)
  {
    assert IRMachine.Arguments(Aliases, 0, []) == [];
  }

  lemma {:induction false} AliasRun(n: nat)
    requires n <= 6
    ensures IRMachine.Run(Aliases, IRMachine.Start(Aliases, 0, [], map[]), AliasChoices[..n]) == AliasMachine(n)
  {
    AliasStart();
    hide IRMachine.Start, IRMachine.Step, AliasMachine;
    if n == 0 {
      assert AliasChoices[..0] == [];
    } else {
      AliasRun(n - 1);
      if n <= 2 {
        AliasFirstSteps(n - 1);
      } else if n <= 4 {
        AliasNextSteps(n - 1);
      } else {
        AliasLastSteps(n - 1);
      }
      assert AliasChoices[..n][..n - 1] == AliasChoices[..n - 1];
    }
  }

  lemma AliasEnd()
    ensures var run := IRMachine.Run(Aliases, IRMachine.Start(Aliases, 0, [], map[]), AliasChoices);
      && |run.frames| == 1 && run.frames[0].f == 0 && 5 in run.frames[0].env
      && run.frames[0].env[5] == IRMachine.Pointer(IRMachine.FromObject, 200)
  {
    hide IRMachine.Run, IRMachine.Start;
    AliasRun(6);
    assert AliasChoices[..6] == AliasChoices;
  }

  lemma AliasLoads()
    ensures !Soundness.LoadCovered(Aliases, AliasMachine(5), AliasTables(5))
  {
    hide IsPointer;
    var frame := IRMachine.Top(AliasMachine(5));
    assert Aliases.functions[frame.f].code[frame.pc] == Load(Result(3), true);
    assert IRMachine.Eval(frame.args, frame.env, Result(3)) == IRMachine.Pointer(IRMachine.FromRaw, 108);
    assert ValueState(Aliases, 0, Result(5), AliasTables(5)) == {};
  }

  /** The second name of the field has no location state, so the object read through it has none either:
      a load that is not covered, in a run whose start is. Where pointers are kept in memory that is no
      tracked variable the analysis need not be sound. */
  lemma AliasIsMissed()
    ensures AreVisits(Aliases, AliasVisits) && Closed(Aliases, Replay(Aliases, AliasVisits))
    ensures ValueState(Aliases, 0, Result(5), Replay(Aliases, AliasVisits)) == {}
    ensures var run := IRMachine.Run(Aliases, IRMachine.Start(Aliases, 0, [], map[]), AliasChoices);
      |run.frames| == 1 && 5 in run.frames[0].env && run.frames[0].env[5] == IRMachine.Pointer(IRMachine.FromObject, 200)
    ensures Soundness.StartCovered(Aliases, 0, [], map[], Replay(Aliases, AliasVisits))
    ensures !Soundness.LoadCovered(Aliases, IRMachine.Run(Aliases, IRMachine.Start(Aliases, 0, [], map[]), AliasChoices[..5]), Replay(Aliases, AliasVisits))
    ensures !Soundness.ValuesAllowed(Aliases, IRMachine.Start(Aliases, 0, [], map[]), AliasChoices, Replay(Aliases, AliasVisits))
  {
    AliasNotCovered();
    hide Soundness.LoadCovered, Soundness.ValuesAllowed, Soundness.StartCovered, ValueState, IRMachine.Run, IRMachine.Start, Closed;
    AliasEnd();
    AliasReplay(5);
    assert AliasVisits[..5] == AliasVisits;
    AliasesAreClosed();
  }

  lemma AliasNotCovered()
    ensures ValueState(Aliases, 0, Result(5), AliasTables(5)) == {} && Soundness.StartCovered(Aliases, 0, [], map[], AliasTables(5))
    ensures !Soundness.LoadCovered(Aliases, IRMachine.Run(Aliases, IRMachine.Start(Aliases, 0, [], map[]), AliasChoices[..5]), AliasTables(5))
    ensures !Soundness.ValuesAllowed(Aliases, IRMachine.Start(Aliases, 0, [], map[]), AliasChoices, AliasTables(5))
  {
    assert ValueState(Aliases, 0, Result(5), AliasTables(5)) == {};
    AliasesAreClosed();
    AliasRun(5);
    AliasLoads();
    assert Soundness.StartCovered(Aliases, 0, [], map[], AliasTables(5));
    hide AliasTables, Closed, Replay, IRMachine.Run, IRMachine.Start, ValueState, AliasMachine, Soundness.LoadCovered;
    Soundness.ValuesAllowedIff(Aliases, 0, [], map[], AliasChoices, AliasTables(5));
  }
}
