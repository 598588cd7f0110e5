/** The managed-state analysis against runs of any program: exactly when every value a run computes has
    a provenance its state allows, and why that is so where pointers live in tracked variables. */
module ProvenanceSoundness {
  import opened Wrappers
  import opened ManagedIR
  import opened ManagedState
  import opened ManagedStateAnalysisModule
  import opened StateSolutions
  import opened IRMachine
  import opened StackSlots

  function Bit(p: Provenance): StateBit {
    match p
    case FromNull => IsNull
    case FromRaw => IsRaw
    case FromObject => IsObject
    case FromArray => IsArray
  }

  predicate Covers(state: PointerState, v: Value) {
    v.Pointer? ==> Bit(v.provenance) in state
  }

  ghost predicate EnvAllowed(m: Module, f: nat, env: map<nat, Value>, s: States) {
    forall i :: i in env ==> Covers(ValueState(m, f, Result(i), s), env[i])
  }

  ghost predicate ArgsOK(m: Module, f: nat, args: seq<Value>, s: States) {
    forall i :: 0 <= i < |args| ==> Covers(ValueState(m, f, Arg(i), s), args[i])
  }

  /** The SSA values a frame holds have provenances the tables allow. */
  ghost predicate FrameAllowed(m: Module, frame: Frame, s: States) {
    EnvAllowed(m, frame.f, frame.env, s) && ArgsOK(m, frame.f, frame.args, s)
  }

  ghost predicate FramesAllowed(m: Module, frames: seq<Frame>, s: States) {
    forall k :: 0 <= k < |frames| ==> FrameAllowed(m, frames[k], s)
  }

  /** The same at the branch last taken. */
  ghost predicate FrameOK(m: Module, frame: Frame, s: States) {
    FrameAllowed(m, frame, s) && EnvAllowed(m, frame.f, frame.entry, s)
  }

  ghost predicate FramesOK(m: Module, frames: seq<Frame>, s: States) {
    forall k :: 0 <= k < |frames| ==> FrameOK(m, frames[k], s)
  }

  // ----- Flows of pointers that the tables do not follow by themselves -----

  /** A pointer the running load reads is covered by the state of the load. */
  ghost predicate LoadCovered(m: Module, machine: Machine, s: States) {
    Runs(m, machine) ==>
      var frame := Top(machine);
      match m.functions[frame.f].code[frame.pc]
      case Load(pointer, isPointer) =>
        isPointer ==> Covers(ValueState(m, frame.f, Result(frame.pc), s), IRMachine.Load(machine.memory, Eval(frame.args, frame.env, pointer)))
      case _ => true
  }

  /** The value waiting instruction i of f takes is covered, if it is one of a pointer. */
  predicate ResultCovered(m: Module, f: nat, i: nat, v: Value, s: States) {
    IsInst(m, f, i) && ResultIsPointer(m, m.functions[f].code[i]) ==> Covers(ValueState(m, f, Result(i), s), v)
  }

  /** Direct calls of functions that are no allocation entry points give back what their tables say. */
  predicate ReturnsByTable(m: Module, f: nat, i: nat) {
    IsInst(m, f, i) && m.functions[f].code[i].Call? && m.functions[f].code[i].callee < |m.functions|
    && m.functions[m.functions[f].code[i].callee].role == Ordinary
  }

  /** What an indirect call hands over and gets back is covered, and so is what a function with the name
      of an allocation entry point returns, should the module define it. */
  ghost predicate CallsCovered(m: Module, machine: Machine, choice: int, s: States) {
    Runs(m, machine) ==>
      var frame := Top(machine);
      match m.functions[frame.f].code[frame.pc]
      case IndirectCall(target, args, _) =>
        var k := IndirectTarget(m, Eval(frame.args, frame.env, target));
        k >= 0 ==>
          if m.functions[k].isDeclaration then ResultCovered(m, frame.f, frame.pc, ExternalResult(m.functions[k], choice), s)
          else ArgsOK(m, k, Arguments(m, k, EvalAll(frame.args, frame.env, args)), s)
      case Ret(value) =>
        |machine.frames| > 1 && frame.f < |m.functions| ==>
          var below := machine.frames[|machine.frames| - 2];
          ReturnsByTable(m, below.f, below.pc)
          || ResultCovered(m, below.f, below.pc, Coerce(m.functions[frame.f].returnsPointer, Eval(frame.args, frame.env, value)), s)
      case _ => true
  }

  ghost predicate FlowCovered(m: Module, machine: Machine, choice: int, s: States) {
    LoadCovered(m, machine, s) && CallsCovered(m, machine, choice, s)
  }

  // ----- Operands and phis -----

  lemma EvalIsCovered(m: Module, frame: Frame, env: map<nat, Value>, op: Operand, s: States)
    requires ArgsOK(m, frame.f, frame.args, s) && EnvAllowed(m, frame.f, env, s)
    ensures Covers(ValueState(m, frame.f, op, s), Eval(frame.args, env, op))
  {
  }

  lemma {:induction false} PhiIsCovered(m: Module, frame: Frame, incoming: seq<Incoming>, state: PointerState, s: States)
    requires FrameOK(m, frame, s)
    requires forall k :: 0 <= k < |incoming| ==> ValueState(m, frame.f, incoming[k].value, s) <= state
    ensures Covers(state, PhiValue(frame, incoming))
  {
    hide ValueState, EnvAllowed, ArgsOK, IsPointer;
    if incoming != [] {
      EvalIsCovered(m, frame, frame.entry, incoming[0].value, s);
      PhiIsCovered(m, frame, incoming[1..], state, s);
    }
  }

  // ----- Steps -----

  lemma TopIsOK(m: Module, machine: Machine, s: States)
    requires FramesOK(m, machine.frames, s) && machine.frames != []
    ensures FrameOK(m, Top(machine), s)
  {
  }

  lemma TopChanged(m: Module, machine: Machine, frame: Frame, s: States)
    requires FramesOK(m, machine.frames, s) && machine.frames != [] && FrameOK(m, frame, s)
    ensures FramesOK(m, WithTop(machine, frame).frames, s)
  {
    hide FrameOK;
    var next := WithTop(machine, frame);
    assert forall k :: 0 <= k < |machine.frames| - 1 ==> next.frames[k] == machine.frames[k];
  }

  lemma AssignedFrame(m: Module, frame: Frame, v: Value, s: States)
    requires FrameOK(m, frame, s) && IsInst(m, frame.f, frame.pc) && ResultCovered(m, frame.f, frame.pc, v, s)
    ensures var isPointer := ResultIsPointer(m, m.functions[frame.f].code[frame.pc]);
      FrameOK(m, frame.(pc := frame.pc + 1, env := frame.env[frame.pc := Coerce(isPointer, v)]), s)
  {
    hide ArgsOK;
  }

  lemma AssignOK(m: Module, machine: Machine, v: Value, s: States)
    requires FramesOK(m, machine.frames, s) && machine.frames != []
    requires IsInst(m, Top(machine).f, Top(machine).pc) && ResultCovered(m, Top(machine).f, Top(machine).pc, v, s)
    ensures FramesOK(m, Assign(m, machine, v).frames, s)
  {
    hide FrameOK, FramesOK, WithTop, Coerce, ResultCovered;
    TopIsOK(m, machine, s);
    AssignedFrame(m, Top(machine), v, s);
    var frame := Top(machine);
    var isPointer := ResultIsPointer(m, m.functions[frame.f].code[frame.pc]);
    TopChanged(m, machine, frame.(pc := frame.pc + 1, env := frame.env[frame.pc := Coerce(isPointer, v)]), s);
  }

  lemma BranchOK(m: Module, machine: Machine, target: nat, s: States)
    requires FramesOK(m, machine.frames, s) && machine.frames != []
    ensures FramesOK(m, WithTop(machine, Top(machine).(pc := target, branch := Top(machine).pc, entry := Top(machine).env)).frames, s)
  {
    TopIsOK(m, machine, s);
    hide EnvAllowed, ArgsOK, FramesOK, WithTop;
    TopChanged(m, machine, Top(machine).(pc := target, branch := Top(machine).pc, entry := Top(machine).env), s);
  }

  lemma EnterOK(m: Module, machine: Machine, callee: nat, values: seq<Value>, s: States)
    requires FramesOK(m, machine.frames, s) && callee < |m.functions| && ArgsOK(m, callee, Arguments(m, callee, values), s)
    ensures FramesOK(m, Enter(m, machine, callee, values).frames, s)
  {
    hide ArgsOK, Arguments;
    var entered := Enter(m, machine, callee, values);
    assert FrameOK(m, entered.frames[|machine.frames|], s);
    hide FrameOK;
    assert forall k :: 0 <= k < |machine.frames| ==> entered.frames[k] == machine.frames[k];
  }

  /** The parameters of a directly called function cover what the call hands over. */
  lemma ArgumentsAreCovered(m: Module, frame: Frame, callee: nat, args: seq<Operand>, s: States)
    requires FrameOK(m, frame, s) && callee < |m.functions| && ArgsHold(m, frame.f, callee, args, MatchedArgs(m, callee, args), s)
    ensures ArgsOK(m, callee, Arguments(m, callee, EvalAll(frame.args, frame.env, args)), s)
  {
    var values := EvalAll(frame.args, frame.env, args);
    hide EnvAllowed;
    forall i | 0 <= i < |m.functions[callee].params|
      ensures Covers(ValueState(m, callee, Arg(i), s), Arguments(m, callee, values)[i])
    {
      EvalAllAt(frame.args, frame.env, args, i);
      if i < |args| {
        EvalIsCovered(m, frame, frame.env, args[i], s);
      }
    }
  }

  lemma CallOK(m: Module, machine: Machine, s: States, choice: int)
    requires FramesOK(m, machine.frames, s) && Runs(m, machine) && m.functions[Top(machine).f].code[Top(machine).pc].Call?
    requires Holds(m, Top(machine).f, Top(machine).pc, s)
    ensures var inst := m.functions[Top(machine).f].code[Top(machine).pc];
      FramesOK(m, CallFunction(m, machine, inst.callee, EvalAll(Top(machine).args, Top(machine).env, inst.args), choice).frames, s)
  {
    var frame := Top(machine);
    var inst := m.functions[frame.f].code[frame.pc];
    TopIsOK(m, machine, s);
    hide FramesOK, FrameOK, Assign, ArgsHold, EvalAll;
    if inst.callee < |m.functions| {
      if m.functions[inst.callee].isDeclaration {
        AssignOK(m, machine, ExternalResult(m.functions[inst.callee], choice), s);
      } else {
        ArgumentsAreCovered(m, frame, inst.callee, inst.args, s);
        EnterOK(m, machine, inst.callee, EvalAll(frame.args, frame.env, inst.args), s);
      }
    }
  }

  lemma IndirectCallOK(m: Module, machine: Machine, s: States, choice: int)
    requires FramesOK(m, machine.frames, s) && Runs(m, machine) && m.functions[Top(machine).f].code[Top(machine).pc].IndirectCall?
    requires CallsCovered(m, machine, choice, s)
    ensures FramesOK(m, Step(m, machine, choice).frames, s)
  {
    var frame := Top(machine);
    var inst := m.functions[frame.f].code[frame.pc];
    var k := IndirectTarget(m, Eval(frame.args, frame.env, inst.target));
    hide FramesOK, Assign, EvalAll, Eval, ResultCovered, ArgsOK, IndirectTarget, ExternalResult;
    if k >= 0 {
      if m.functions[k].isDeclaration {
        AssignOK(m, machine, ExternalResult(m.functions[k], choice), s);
      } else {
        EnterOK(m, machine, k, EvalAll(frame.args, frame.env, inst.args), s);
      }
    }
  }

  lemma RestOK(m: Module, machine: Machine, s: States)
    requires FramesOK(m, machine.frames, s) && machine.frames != []
    ensures FramesOK(m, machine.frames[..|machine.frames| - 1], s)
  {
    hide FrameOK;
  }

  /** What a return hands over is covered by the tables, or else by assumption. */
  lemma ReturnIsCovered(m: Module, machine: Machine, choice: int, s: States, slots: Owner)
    requires FramesOK(m, machine.frames, s) && Runs(m, machine) && |machine.frames| > 1 && Solution(m, s)
    requires SlotsKept(m, machine, slots) && CallsCovered(m, machine, choice, s)
    requires m.functions[Top(machine).f].code[Top(machine).pc].Ret?
    ensures var frame, below := Top(machine), machine.frames[|machine.frames| - 2];
      var value := m.functions[frame.f].code[frame.pc].value;
      ResultCovered(m, below.f, below.pc, Coerce(m.functions[frame.f].returnsPointer, Eval(frame.args, frame.env, value)), s)
  {
    var frame, below := Top(machine), machine.frames[|machine.frames| - 2];
    var value := m.functions[frame.f].code[frame.pc].value;
    TopIsOK(m, machine, s);
    RestNames(m, machine, slots);
    if ReturnsByTable(m, below.f, below.pc) {
      assert Holds(m, frame.f, frame.pc, s) && Holds(m, below.f, below.pc, s);
      hide Solution, FramesOK, SlotsKept, CallsCovered, ArgsHold;
      EvalIsCovered(m, frame, frame.env, value, s);
      hide FrameOK, Eval;
    }
  }

  lemma ReturnOK(m: Module, machine: Machine, choice: int, s: States, slots: Owner)
    requires FramesOK(m, machine.frames, s) && Runs(m, machine) && Solution(m, s)
    requires SlotsKept(m, machine, slots) && CallsCovered(m, machine, choice, s)
    requires m.functions[Top(machine).f].code[Top(machine).pc].Ret?
    ensures FramesOK(m, Step(m, machine, choice).frames, s)
  {
    var frame := Top(machine);
    var value := m.functions[frame.f].code[frame.pc].value;
    RestOK(m, machine, s);
    if |machine.frames| > 1 {
      ReturnIsCovered(m, machine, choice, s, slots);
      hide FramesOK, Assign, Coerce, Eval, ResultCovered, Solution, SlotsKept, CallsCovered;
      var rest := machine.(frames := machine.frames[..|machine.frames| - 1]);
      if IsInst(m, Top(rest).f, Top(rest).pc) {
        AssignOK(m, rest, Coerce(m.functions[frame.f].returnsPointer, Eval(frame.args, frame.env, value)), s);
      }
    }
  }

  lemma ComputedIsCovered(m: Module, machine: Machine, s: States)
    requires FramesOK(m, machine.frames, s) && Runs(m, machine) && LoadCovered(m, machine, s) && Holds(m, Top(machine).f, Top(machine).pc, s)
    requires var inst := m.functions[Top(machine).f].code[Top(machine).pc]; !inst.Call? && !inst.IndirectCall?
    ensures ResultCovered(m, Top(machine).f, Top(machine).pc, Computed(machine, Top(machine), m.functions[Top(machine).f].code[Top(machine).pc]), s)
  {
    var frame := Top(machine);
    var inst := m.functions[frame.f].code[frame.pc];
    TopIsOK(m, machine, s);
    hide FramesOK, EnvAllowed, ArgsOK, LocationState, AggregateFieldState, TrackedSlot;
    match inst
    case Gep(base, _, _) => EvalIsCovered(m, frame, frame.env, base, s);
    case Phi(incoming, isPointer) =>
      if isPointer { PhiIsCovered(m, frame, incoming, ValueState(m, frame.f, Result(frame.pc), s), s); }
    case Select(_, ifTrue, ifFalse, _) =>
      EvalIsCovered(m, frame, frame.env, ifTrue, s);
      EvalIsCovered(m, frame, frame.env, ifFalse, s);
    case Freeze(source, _) => EvalIsCovered(m, frame, frame.env, source, s);
    case _ =>
  }

  lemma ComputeOK(m: Module, machine: Machine, choice: int, s: States)
    requires FramesOK(m, machine.frames, s) && Runs(m, machine) && LoadCovered(m, machine, s) && Holds(m, Top(machine).f, Top(machine).pc, s)
    requires var inst := m.functions[Top(machine).f].code[Top(machine).pc]; !inst.Call? && !inst.IndirectCall? && !inst.Br? && !inst.Ret?
    ensures FramesOK(m, Step(m, machine, choice).frames, s)
  {
    ComputedIsCovered(m, machine, s);
    hide FramesOK, LoadCovered, Holds, Assign, Computed, ResultCovered, Coerce, Eval;
    var frame := Top(machine);
    var inst := m.functions[frame.f].code[frame.pc];
    AssignOK(m, Effect(machine, frame, inst, StoresPointer(m, frame.f, inst)), Computed(machine, frame, inst), s);
  }

  /** A step whose flows are covered keeps every value allowed. */
  lemma StepOK(m: Module, machine: Machine, choice: int, s: States, slots: Owner)
    requires FramesOK(m, machine.frames, s) && Solution(m, s) && SlotsKept(m, machine, slots) && FlowCovered(m, machine, choice, s)
    ensures FramesOK(m, Step(m, machine, choice).frames, s)
  {
    if Runs(m, machine) {
      var frame := Top(machine);
      var inst := m.functions[frame.f].code[frame.pc];
      InstructionHolds(m, frame.f, frame.pc, s);
      hide FramesOK, Solution, SlotsKept, LoadCovered, CallsCovered, Holds, WithTop, Return, CallFunction, EvalAll, Eval, Assign, Computed, Effect;
      if inst.Call? {
        CallOK(m, machine, s, choice);
      } else if inst.IndirectCall? {
        IndirectCallOK(m, machine, s, choice);
      } else if inst.Br? {
        BranchOK(m, machine, if Eval(frame.args, frame.env, inst.condition) == Int(0) then inst.onFalse else inst.onTrue, s);
      } else if inst.Ret? {
        ReturnOK(m, machine, choice, s, slots);
      } else {
        ComputeOK(m, machine, choice, s);
      }
    }
  }

  lemma InstructionHolds(m: Module, f: nat, i: nat, s: States)
    requires Solution(m, s) && IsInst(m, f, i)
    ensures Holds(m, f, i, s)
  {
    hide Holds;
  }

  // ----- Conversely, allowed values show that the flows were covered -----

  lemma AssignShows(m: Module, machine: Machine, v: Value, s: States)
    requires machine.frames != [] && IsInst(m, Top(machine).f, Top(machine).pc) && FramesAllowed(m, Assign(m, machine, v).frames, s)
    ensures ResultCovered(m, Top(machine).f, Top(machine).pc, v, s)
  {
    var next := Assign(m, machine, v);
    assert FrameAllowed(m, next.frames[|next.frames| - 1], s);
    hide ArgsOK;
    assert Top(machine).pc in next.frames[|next.frames| - 1].env;
  }

  lemma LoadShows(m: Module, machine: Machine, choice: int, s: States)
    requires FramesAllowed(m, Step(m, machine, choice).frames, s)
    ensures LoadCovered(m, machine, s)
  {
    if Runs(m, machine) && m.functions[Top(machine).f].code[Top(machine).pc].Load? {
      var frame := Top(machine);
      var inst := m.functions[frame.f].code[frame.pc];
      hide FramesAllowed, Assign, Eval;
      assert Step(m, machine, choice) == Assign(m, machine, Computed(machine, frame, inst));
      AssignShows(m, machine, Computed(machine, frame, inst), s);
    }
  }

  lemma IndirectCallShows(m: Module, machine: Machine, choice: int, s: States)
    requires FramesAllowed(m, Step(m, machine, choice).frames, s) && Runs(m, machine)
    requires m.functions[Top(machine).f].code[Top(machine).pc].IndirectCall?
    ensures CallsCovered(m, machine, choice, s)
  {
    var frame := Top(machine);
    var inst := m.functions[frame.f].code[frame.pc];
    var k := IndirectTarget(m, Eval(frame.args, frame.env, inst.target));
    hide Assign, EvalAll, Eval, IndirectTarget, ExternalResult, ArgsOK, EnvAllowed, Arguments;
    if k >= 0 {
      if m.functions[k].isDeclaration {
        AssignShows(m, machine, ExternalResult(m.functions[k], choice), s);
      } else {
        var entered := Enter(m, machine, k, EvalAll(frame.args, frame.env, inst.args));
        assert FrameAllowed(m, entered.frames[|machine.frames|], s);
      }
    }
  }

  lemma ReturnShows(m: Module, machine: Machine, choice: int, s: States)
    requires FramesAllowed(m, Step(m, machine, choice).frames, s) && Runs(m, machine)
    requires m.functions[Top(machine).f].code[Top(machine).pc].Ret?
    ensures CallsCovered(m, machine, choice, s)
  {
    var frame := Top(machine);
    var value := m.functions[frame.f].code[frame.pc].value;
    if |machine.frames| > 1 {
      hide FramesAllowed, Assign, Coerce, Eval, ReturnsByTable;
      var rest := machine.(frames := machine.frames[..|machine.frames| - 1]);
      if IsInst(m, Top(rest).f, Top(rest).pc) {
        AssignShows(m, rest, Coerce(m.functions[frame.f].returnsPointer, Eval(frame.args, frame.env, value)), s);
      }
    }
  }

  lemma FlowShows(m: Module, machine: Machine, choice: int, s: States)
    requires FramesAllowed(m, Step(m, machine, choice).frames, s)
    ensures FlowCovered(m, machine, choice, s)
  {
    LoadShows(m, machine, choice, s);
    if Runs(m, machine) {
      var inst := m.functions[Top(machine).f].code[Top(machine).pc];
      if inst.IndirectCall? {
        IndirectCallShows(m, machine, choice, s);
      } else if inst.Ret? {
        ReturnShows(m, machine, choice, s);
      }
    }
  }

  // ----- Runs -----

  ghost predicate FlowsCovered(m: Module, start: Machine, choices: seq<int>, s: States) {
    forall n :: 0 <= n < |choices| ==> FlowCovered(m, Run(m, start, choices[..n]), choices[n], s)
  }

  ghost predicate ValuesAllowed(m: Module, start: Machine, choices: seq<int>, s: States) {
    forall n :: 0 <= n <= |choices| ==> FramesAllowed(m, Run(m, start, choices[..n]).frames, s)
  }

  lemma RunOneMore(m: Module, start: Machine, choices: seq<int>, n: nat)
    requires n < |choices|
    ensures Run(m, start, choices[..n + 1]) == Step(m, Run(m, start, choices[..n]), choices[n])
  {
    assert choices[..n + 1][..n] == choices[..n];
  }

  lemma StartFrameOK(m: Module, f: nat, values: seq<Value>, memory: map<int, Value>, s: States)
    requires f < |m.functions|
    ensures FramesOK(m, Start(m, f, values, memory).frames, s) <==> ArgsOK(m, f, Arguments(m, f, values), s)
    ensures FramesAllowed(m, Start(m, f, values, memory).frames, s) <==> ArgsOK(m, f, Arguments(m, f, values), s)
  {
    hide ArgsOK, Arguments;
    var start := Start(m, f, values, memory);
    assert start.frames[0].args == Arguments(m, f, values);
  }

  lemma {:induction false} RunOK(m: Module, f: nat, values: seq<Value>, memory: map<int, Value>, choices: seq<int>, n: nat, s: States)
    requires Solution(m, s) && f < |m.functions| && ArgsOK(m, f, Arguments(m, f, values), s) && n <= |choices|
    requires forall k :: 0 <= k < n ==> FlowCovered(m, Run(m, Start(m, f, values, memory), choices[..k]), choices[k], s)
    ensures FramesOK(m, Run(m, Start(m, f, values, memory), choices[..n]).frames, s)
    decreases n
  {
    var start := Start(m, f, values, memory);
    hide Start, Solution, FlowCovered, FramesOK, ArgsOK, SlotsKept, Step, Slots;
    if n == 0 {
      assert choices[..0] == [];
      StartFrameOK(m, f, values, memory, s);
    } else {
      RunOK(m, f, values, memory, choices, n - 1, s);
      RunNames(m, f, values, memory, choices[..n - 1]);
      StepOK(m, Run(m, start, choices[..n - 1]), choices[n - 1], s, Slots(m, start, choices[..n - 1]));
      RunOneMore(m, start, choices, n - 1);
    }
  }

  /** In any program and any run, every SSA value of every frame has, at every moment, a provenance that
      the final tables allow iff they allow the arguments the run starts with and, step by step, each
      pointer a load finds in memory and what passes through indirect calls. */
  lemma ValuesAllowedIff(m: Module, f: nat, values: seq<Value>, memory: map<int, Value>, choices: seq<int>, s: States)
    requires Closed(m, s) && f < |m.functions|
    ensures ValuesAllowed(m, Start(m, f, values, memory), choices, s) <==>
      ArgsOK(m, f, Arguments(m, f, values), s) && FlowsCovered(m, Start(m, f, values, memory), choices, s)
  {
    var start := Start(m, f, values, memory);
    hide Start, Closed, Solution, FlowCovered, FramesAllowed, FramesOK, ArgsOK, Run, Step;
    ClosedIsSolution(m, s);
    StartFrameOK(m, f, values, memory, s);
    if ValuesAllowed(m, start, choices, s) {
      NoChoice(m, start, choices);
      assert FramesAllowed(m, Run(m, start, choices[..0]).frames, s);
      forall n | 0 <= n < |choices|
        ensures FlowCovered(m, Run(m, start, choices[..n]), choices[n], s)
      {
        RunOneMore(m, start, choices, n);
        assert FramesAllowed(m, Run(m, start, choices[..n + 1]).frames, s);
        FlowShows(m, Run(m, start, choices[..n]), choices[n], s);
      }
    }
    if ArgsOK(m, f, Arguments(m, f, values), s) && FlowsCovered(m, start, choices, s) {
      forall n | 0 <= n <= |choices|
        ensures FramesAllowed(m, Run(m, start, choices[..n]).frames, s)
      {
        RunOK(m, f, values, memory, choices, n, s);
        OKIsAllowed(m, Run(m, start, choices[..n]).frames, s);
      }
    }
  }

  lemma NoChoice(m: Module, start: Machine, choices: seq<int>)
    ensures Run(m, start, choices[..0]) == start
  {
    assert choices[..0] == [];
  }

  lemma OKIsAllowed(m: Module, frames: seq<Frame>, s: States)
    requires FramesOK(m, frames, s)
    ensures FramesAllowed(m, frames, s)
  {
    hide FrameAllowed;
  }

  // ----- From loads to stores -----

  /** The state of what each address was last given: by an initialiser its own provenance, by a store
      the state of the stored operand. */
  type Contents = map<int, PointerState>

  function OwnState(v: Value): PointerState {
    if v.Pointer? then {Bit(v.provenance)} else {}
  }

  function Initialised(memory: map<int, Value>): Contents {
    map a | a in memory :: OwnState(memory[a])
  }

  function Written(m: Module, machine: Machine, contents: Contents, s: States): Contents {
    if !Runs(m, machine) then contents
    else
      var frame := Top(machine);
      match m.functions[frame.f].code[frame.pc]
      case Alloca(_) => contents[machine.next as int := {}]
      case Store(value, pointer) =>
        var p := Eval(frame.args, frame.env, pointer);
        if p.Pointer? then contents[p.address := if IsPointer(m, frame.f, value) then ValueState(m, frame.f, value, s) else {}] else contents
      case _ => contents
  }

  function ContentsOf(m: Module, start: Machine, choices: seq<int>, s: States): Contents {
    if choices == [] then Initialised(start.memory)
    else
      var before := choices[..|choices| - 1];
      Written(m, Run(m, start, before), ContentsOf(m, start, before, s), s)
  }

  /** What the running load reads was stored, or put there at the start, with a state that lies in the
      location state of the pointer it is read through. */
  predicate LoadFollows(m: Module, machine: Machine, contents: Contents, s: States) {
    Runs(m, machine) ==>
      var frame := Top(machine);
      match m.functions[frame.f].code[frame.pc]
      case Load(pointer, isPointer) =>
        var p := Eval(frame.args, frame.env, pointer);
        isPointer && p.Pointer? && p.address in contents ==> contents[p.address] <= LocationState(m, frame.f, pointer, s)
      case _ => true
  }

  ghost predicate MemoryCovered(memory: map<int, Value>, contents: Contents) {
    forall a :: a in memory ==> a in contents && Covers(contents[a], memory[a])
  }

  lemma FollowingIsCovered(m: Module, machine: Machine, contents: Contents, s: States)
    requires Solution(m, s) && MemoryCovered(machine.memory, contents) && LoadFollows(m, machine, contents, s)
    ensures LoadCovered(m, machine, s)
  {
    if Runs(m, machine) && m.functions[Top(machine).f].code[Top(machine).pc].Load? && m.functions[Top(machine).f].code[Top(machine).pc].isPointer {
      InstructionHolds(m, Top(machine).f, Top(machine).pc, s);
      hide Solution, LocationState, ValueState, Eval;
      ResultState(m, Top(machine).f, Top(machine).pc, s);
    }
  }

  lemma ResultState(m: Module, f: nat, i: nat, s: States)
    requires IsInst(m, f, i) && ResultIsPointer(m, m.functions[f].code[i])
    ensures IsPointer(m, f, Result(i)) && ValueState(m, f, Result(i), s) == Get(s, ValueCell(Key(f, Result(i))))
  {
  }

  lemma MemoryStaysCovered(m: Module, machine: Machine, choice: int, contents: Contents, s: States)
    requires MemoryCovered(machine.memory, contents) && FramesOK(m, machine.frames, s)
    ensures MemoryCovered(Step(m, machine, choice).memory, Written(m, machine, contents, s))
  {
    if Runs(m, machine) {
      var frame := Top(machine);
      var inst := m.functions[frame.f].code[frame.pc];
      TopIsOK(m, machine, s);
      hide FramesOK;
      if inst.Store? {
        EvalIsCovered(m, frame, frame.env, inst.value, s);
      }
      hide FrameOK, ValueState, Eval, ResultIsPointer, EvalAll, ExternalResult;
    }
  }

  ghost predicate LoadsFollow(m: Module, start: Machine, choices: seq<int>, s: States) {
    forall n :: 0 <= n < |choices| ==> LoadFollows(m, Run(m, start, choices[..n]), ContentsOf(m, start, choices[..n], s), s)
  }

  ghost predicate AllCallsCovered(m: Module, start: Machine, choices: seq<int>, s: States) {
    forall n :: 0 <= n < |choices| ==> CallsCovered(m, Run(m, start, choices[..n]), choices[n], s)
  }

  lemma ContentsOneMore(m: Module, start: Machine, choices: seq<int>, n: nat, s: States)
    requires n < |choices|
    ensures ContentsOf(m, start, choices[..n + 1], s) == Written(m, Run(m, start, choices[..n]), ContentsOf(m, start, choices[..n], s), s)
  {
    assert choices[..n + 1][..n] == choices[..n];
  }

  lemma StartIsCovered(m: Module, start: Machine, s: States)
    ensures MemoryCovered(start.memory, ContentsOf(m, start, [], s))
  {
  }

  /** Where loads follow stores, all flows are covered. */
  lemma {:induction false} FollowingRun(m: Module, f: nat, values: seq<Value>, memory: map<int, Value>, choices: seq<int>, n: nat, s: States)
    requires Solution(m, s) && f < |m.functions| && ArgsOK(m, f, Arguments(m, f, values), s) && n <= |choices|
    requires var start := Start(m, f, values, memory); LoadsFollow(m, start, choices, s) && AllCallsCovered(m, start, choices, s)
    ensures var start := Start(m, f, values, memory);
      && FramesOK(m, Run(m, start, choices[..n]).frames, s) && MemoryCovered(Run(m, start, choices[..n]).memory, ContentsOf(m, start, choices[..n], s))
      && (n < |choices| ==> FlowCovered(m, Run(m, start, choices[..n]), choices[n], s))
    decreases n
  {
    var start := Start(m, f, values, memory);
    hide Start, Solution, FramesOK, ArgsOK, SlotsKept, Step, Slots, ContentsOf, MemoryCovered, LoadFollows, CallsCovered, LoadCovered, Run;
    if n == 0 {
      assert choices[..0] == [];
      NoChoice(m, start, choices);
      StartFrameOK(m, f, values, memory, s);
      StartIsCovered(m, start, s);
    } else {
      FollowingRun(m, f, values, memory, choices, n - 1, s);
      RunNames(m, f, values, memory, choices[..n - 1]);
      StepOK(m, Run(m, start, choices[..n - 1]), choices[n - 1], s, Slots(m, start, choices[..n - 1]));
      MemoryStaysCovered(m, Run(m, start, choices[..n - 1]), choices[n - 1], ContentsOf(m, start, choices[..n - 1], s), s);
      RunOneMore(m, start, choices, n - 1);
      ContentsOneMore(m, start, choices, n - 1, s);
    }
    if n < |choices| {
      FollowingIsCovered(m, Run(m, start, choices[..n]), ContentsOf(m, start, choices[..n], s), s);
    }
  }

  /** So it is enough that every pointer a load finds was put there by a store, or an initialiser, whose
      state lies in the location state of the load; then memory, too, holds what the tables say. */
  lemma StoresSuffice(m: Module, f: nat, values: seq<Value>, memory: map<int, Value>, choices: seq<int>, s: States)
    requires Closed(m, s) && f < |m.functions| && ArgsOK(m, f, Arguments(m, f, values), s)
    requires var start := Start(m, f, values, memory); LoadsFollow(m, start, choices, s) && AllCallsCovered(m, start, choices, s)
    ensures var start := Start(m, f, values, memory);
      ValuesAllowed(m, start, choices, s) && MemoryCovered(Run(m, start, choices).memory, ContentsOf(m, start, choices, s))
  {
    var start := Start(m, f, values, memory);
    hide Start, Closed, Solution, FramesOK, ArgsOK, MemoryCovered, LoadsFollow, AllCallsCovered, FlowCovered, Run, ContentsOf, FramesAllowed;
    ClosedIsSolution(m, s);
    forall n | 0 <= n <= |choices|
      ensures FramesAllowed(m, Run(m, start, choices[..n]).frames, s)
    {
      FollowingRun(m, f, values, memory, choices, n, s);
      OKIsAllowed(m, Run(m, start, choices[..n]).frames, s);
    }
    FollowingRun(m, f, values, memory, choices, |choices|, s);
    assert choices[..|choices|] == choices;
  }

  // ----- Programs whose pointers stay in tracked variables -----

  /** No indirect calls, allocation entry points left to the runtime, pointers kept in tracked variables. */
  ghost predicate Direct(m: Module) {
    && TrackedOnly(m)
    && (forall f: nat, i: nat :: IsInst(m, f, i) ==> !m.functions[f].code[i].IndirectCall?)
    && (forall f: nat :: f < |m.functions| && m.functions[f].role != Ordinary ==> m.functions[f].isDeclaration)
  }

  predicate IsPointerGlobal(m: Module, a: int) {
    0 < a <= |m.globals| && m.globals[a - 1]
  }

  predicate IsPointerSlot(m: Module, key: ValueKey) {
    key.op.Result? && IsInst(m, key.f, key.op.index) && m.functions[key.f].code[key.op.index] == Alloca(true)
  }

  /** The tracked variable an address belongs to: a global or a stack variable that holds a pointer. */
  function VariableAt(m: Module, slots: Owner, a: int): Option<ValueKey> {
    if IsPointerGlobal(m, a) then Some(Key(0, Global(a - 1)))
    else if a in slots && IsPointerSlot(m, slots[a]) then Some(slots[a])
    else None
  }

  /** What a run starts from is covered: the entry's arguments and the initial contents of globals. */
  ghost predicate StartCovered(m: Module, f: nat, values: seq<Value>, memory: map<int, Value>, s: States)
    requires f < |m.functions|
  {
    && ArgsOK(m, f, Arguments(m, f, values), s)
    && forall g: nat :: g < |m.globals| && m.globals[g] && GlobalAddress(g) in memory ==>
        Covers(Get(s, SlotCell(Key(0, Global(g)))), memory[GlobalAddress(g)])
  }

  /** A tracked operand is an address of its variable. */
  lemma TrackedAddress(m: Module, frame: Frame, op: Operand, machine: Machine, slots: Owner)
    requires SlotsKept(m, machine, slots) && EnvNames(m, frame.f, frame.env, slots) && TrackedSlot(m, frame.f, op).Some?
    ensures var p := Eval(frame.args, frame.env, op); p.Pointer? ==> VariableAt(m, slots, p.address) == TrackedSlot(m, frame.f, op)
  {
    EvalNames(m, frame, frame.env, op, slots);
    hide Stripped, EnvNames, FramesName, Eval;
  }

  /** Every variable holds what the table of its slot says. */
  ghost predicate VariablesFollow(m: Module, contents: Contents, slots: Owner, s: States) {
    forall a :: a in contents && VariableAt(m, slots, a).Some? ==> contents[a] <= Get(s, SlotCell(VariableAt(m, slots, a).value))
  }

  lemma VariablesAtStart(m: Module, f: nat, values: seq<Value>, memory: map<int, Value>, s: States)
    requires f < |m.functions| && StartCovered(m, f, values, memory, s)
    ensures VariablesFollow(m, Initialised(memory), map[], s)
  {
    hide ArgsOK;
    forall a | a in memory && VariableAt(m, map[], a).Some?
      ensures OwnState(memory[a]) <= Get(s, SlotCell(VariableAt(m, map[], a).value))
    {
      assert a == GlobalAddress(a - 1);
    }
  }

  lemma AllocaFollows(m: Module, machine: Machine, contents: Contents, slots: Owner, s: States)
    requires SlotsKept(m, machine, slots) && VariablesFollow(m, contents, slots, s)
    requires Runs(m, machine) && m.functions[Top(machine).f].code[Top(machine).pc].Alloca?
    ensures VariablesFollow(m, Written(m, machine, contents, s), Slotted(m, machine, slots), s)
  {
    hide FramesName, IsPointerSlot, Get;
  }

  lemma StoreFollows(m: Module, machine: Machine, contents: Contents, slots: Owner, s: States)
    requires SlotsKept(m, machine, slots) && VariablesFollow(m, contents, slots, s) && TrackedOnly(m)
    requires Runs(m, machine) && m.functions[Top(machine).f].code[Top(machine).pc].Store? && Holds(m, Top(machine).f, Top(machine).pc, s)
    ensures VariablesFollow(m, Written(m, machine, contents, s), slots, s)
  {
    var frame := Top(machine);
    var inst := m.functions[frame.f].code[frame.pc];
    FrameOfTop(m, machine, slots);
    if IsPointer(m, frame.f, inst.value) {
      assert TrackedSlot(m, frame.f, inst.pointer).Some?;
      TrackedAddress(m, frame, inst.pointer, machine, slots);
    }
    hide SlotsKept, FrameNames, TrackedSlot, VariableAt, TrackedOnly, ValueState, LocationHolds, LocationState, Eval, IsPointer;
  }

  lemma TrackedLoadFollows(m: Module, machine: Machine, contents: Contents, slots: Owner, s: States)
    requires SlotsKept(m, machine, slots) && VariablesFollow(m, contents, slots, s) && TrackedOnly(m)
    ensures LoadFollows(m, machine, contents, s)
  {
    if Runs(m, machine) && m.functions[Top(machine).f].code[Top(machine).pc].Load? && m.functions[Top(machine).f].code[Top(machine).pc].isPointer {
      var frame := Top(machine);
      var pointer := m.functions[frame.f].code[frame.pc].pointer;
      FrameOfTop(m, machine, slots);
      assert TrackedSlot(m, frame.f, pointer).Some?;
      TrackedAddress(m, frame, pointer, machine, slots);
      TrackedIsPointer(m, frame.f, pointer);
      hide SlotsKept, FrameNames, TrackedSlot, VariableAt, TrackedOnly, Eval, IsPointer;
    }
  }

  lemma VariablesStep(m: Module, machine: Machine, contents: Contents, slots: Owner, s: States)
    requires SlotsKept(m, machine, slots) && VariablesFollow(m, contents, slots, s) && TrackedOnly(m) && Solution(m, s)
    ensures VariablesFollow(m, Written(m, machine, contents, s), Slotted(m, machine, slots), s)
  {
    hide SlotsKept, VariablesFollow, TrackedOnly, Solution;
    if Runs(m, machine) {
      var inst := m.functions[Top(machine).f].code[Top(machine).pc];
      if inst.Alloca? {
        AllocaFollows(m, machine, contents, slots, s);
      } else if inst.Store? {
        InstructionHolds(m, Top(machine).f, Top(machine).pc, s);
        StoreFollows(m, machine, contents, slots, s);
      }
    }
  }

  lemma {:induction false} VariablesRun(m: Module, f: nat, values: seq<Value>, memory: map<int, Value>, choices: seq<int>, s: States)
    requires TrackedOnly(m) && Solution(m, s) && f < |m.functions| && StartCovered(m, f, values, memory, s)
    ensures var start := Start(m, f, values, memory); VariablesFollow(m, ContentsOf(m, start, choices, s), Slots(m, start, choices), s)
  {
    var start := Start(m, f, values, memory);
    VariablesAtStart(m, f, values, memory, s);
    assert start.memory == memory;
    hide Start, StartCovered, TrackedOnly, Solution, VariablesFollow, SlotsKept, Written, Slotted, Run;
    if choices != [] {
      var before := choices[..|choices| - 1];
      VariablesRun(m, f, values, memory, before, s);
      RunNames(m, f, values, memory, before);
      VariablesStep(m, Run(m, start, before), ContentsOf(m, start, before, s), Slots(m, start, before), s);
    }
  }

  /** With direct calls only, every call gives back what the tables say. */
  lemma DirectCallsCovered(m: Module, machine: Machine, choice: int, s: States, slots: Owner)
    requires Direct(m) && SlotsKept(m, machine, slots)
    ensures CallsCovered(m, machine, choice, s)
  {
    if Runs(m, machine) && m.functions[Top(machine).f].code[Top(machine).pc].Ret? && |machine.frames| > 1 {
      RestNames(m, machine, slots);
      var below := machine.frames[|machine.frames| - 2];
      hide SlotsKept, TrackedOnly;
      assert ReturnsByTable(m, below.f, below.pc);
    }
    hide SlotsKept, TrackedOnly;
  }

  /** The contents of globals and pointer variables have provenances the tables allow. */
  ghost predicate MemoryAllowed(m: Module, memory: map<int, Value>, slots: Owner, s: States) {
    forall a :: a in memory && VariableAt(m, slots, a).Some? ==> Covers(Get(s, SlotCell(VariableAt(m, slots, a).value)), memory[a])
  }

  ghost predicate RunAllowed(m: Module, start: Machine, choices: seq<int>, s: States) {
    && FramesAllowed(m, Run(m, start, choices).frames, s)
    && MemoryAllowed(m, Run(m, start, choices).memory, Slots(m, start, choices), s)
  }

  lemma TrackedRunFollows(m: Module, f: nat, values: seq<Value>, memory: map<int, Value>, choices: seq<int>, n: nat, s: States)
    requires Direct(m) && Solution(m, s) && f < |m.functions| && StartCovered(m, f, values, memory, s) && n < |choices|
    ensures var start := Start(m, f, values, memory);
      && LoadFollows(m, Run(m, start, choices[..n]), ContentsOf(m, start, choices[..n], s), s)
      && CallsCovered(m, Run(m, start, choices[..n]), choices[n], s)
  {
    var start := Start(m, f, values, memory);
    assert TrackedOnly(m);
    hide *;
    VariablesRun(m, f, values, memory, choices[..n], s);
    RunNames(m, f, values, memory, choices[..n]);
    TrackedLoadFollows(m, Run(m, start, choices[..n]), ContentsOf(m, start, choices[..n], s), Slots(m, start, choices[..n]), s);
    DirectCallsCovered(m, Run(m, start, choices[..n]), choices[n], s, Slots(m, start, choices[..n]));
  }

  lemma CoveredVariables(m: Module, memory: map<int, Value>, contents: Contents, slots: Owner, s: States)
    requires MemoryCovered(memory, contents) && VariablesFollow(m, contents, slots, s)
    ensures MemoryAllowed(m, memory, slots, s)
  {
    hide VariableAt, Get;
  }

  /** Every SSA value of every frame and the contents of every variable, at every moment of every run of
      such a program, have a provenance that the final tables allow for them; so an object is never
      where the tables say "raw". */
  lemma ProvenanceIsSound(m: Module, trail: seq<Visit>, f: nat, values: seq<Value>, memory: map<int, Value>, choices: seq<int>)
    requires (forall v :: v in trail ==> IsVisit(m, v)) && Closed(m, Replay(m, trail)) && Direct(m)
    requires f < |m.functions| && StartCovered(m, f, values, memory, Replay(m, trail))
    ensures RunAllowed(m, Start(m, f, values, memory), choices, Replay(m, trail))
  {
    var s, start := Replay(m, trail), Start(m, f, values, memory);
    assert TrackedOnly(m) && ArgsOK(m, f, Arguments(m, f, values), s);
    hide Replay, Closed, Solution, Direct, TrackedOnly, StartCovered, ArgsOK, Start, Run, Slots, ContentsOf, LoadFollows, CallsCovered, FramesAllowed,
      MemoryCovered, VariablesFollow, MemoryAllowed;
    ClosedIsSolution(m, s);
    forall n | 0 <= n < |choices|
      ensures LoadFollows(m, Run(m, start, choices[..n]), ContentsOf(m, start, choices[..n], s), s)
      ensures CallsCovered(m, Run(m, start, choices[..n]), choices[n], s)
    {
      TrackedRunFollows(m, f, values, memory, choices, n, s);
    }
    StoresSuffice(m, f, values, memory, choices, s);
    VariablesRun(m, f, values, memory, choices, s);
    CoveredVariables(m, Run(m, start, choices).memory, ContentsOf(m, start, choices, s), Slots(m, start, choices), s);
    assert choices[..|choices|] == choices;
  }

  lemma AllowedAtStart(m: Module, f: nat, values: seq<Value>, memory: map<int, Value>, s: States)
    requires f < |m.functions| && RunAllowed(m, Start(m, f, values, memory), [], s)
    ensures StartCovered(m, f, values, memory, s)
  {
    var start := Start(m, f, values, memory);
    StartFrameOK(m, f, values, memory, s);
    hide ArgsOK, Get, Covers, Arguments;
    assert Run(m, start, []) == start && Slots(m, start, []) == map[];
    hide FramesAllowed;
    forall g: nat | g < |m.globals| && m.globals[g] && GlobalAddress(g) in memory
      ensures Covers(Get(s, SlotCell(Key(0, Global(g)))), memory[GlobalAddress(g)])
    {
      assert VariableAt(m, map[], GlobalAddress(g)) == Some(Key(0, Global(g)));
    }
  }

  /** All runs of f are allowed for iff the tables already allow the provenances it starts with:
      those of the entry's arguments and of the globals' initialisers. */
  lemma SoundIffStartCovered(m: Module, trail: seq<Visit>, f: nat, values: seq<Value>, memory: map<int, Value>)
    requires (forall v :: v in trail ==> IsVisit(m, v)) && Closed(m, Replay(m, trail)) && Direct(m) && f < |m.functions|
    ensures (forall choices :: RunAllowed(m, Start(m, f, values, memory), choices, Replay(m, trail))) <==>
      StartCovered(m, f, values, memory, Replay(m, trail))
  {
    var s, start := Replay(m, trail), Start(m, f, values, memory);
    hide Replay, Closed, Direct, StartCovered, RunAllowed, Start;
    if forall choices :: RunAllowed(m, start, choices, s) {
      assert RunAllowed(m, start, [], s);
      AllowedAtStart(m, f, values, memory, s);
    }
    if StartCovered(m, f, values, memory, s) {
      forall choices
        ensures RunAllowed(m, start, choices, s)
      {
        ProvenanceIsSound(m, trail, f, values, memory, choices);
      }
    }
  }

  /** The analysis seeds no state for the entry's own arguments: a main that is given a pointer and
      returns it has a value whose state is empty. */
  lemma EntryArgumentIsNotSeeded(p: Provenance, address: int)
    ensures var m := Module([Function([true], true, Ordinary, false, false, false, [Ret(Arg(0))])], []);
      && Closed(m, Replay(m, [])) && Direct(m)
      && !RunAllowed(m, Start(m, 0, [Pointer(p, address)], map[]), [], Replay(m, []))
  {
    var m := Module([Function([true], true, Ordinary, false, false, false, [Ret(Arg(0))])], []);
    var start := Start(m, 0, [Pointer(p, address)], map[]);
    assert start.frames[0].args[0] == Pointer(p, address);
    assert !ArgsOK(m, 0, start.frames[0].args, map[]);
    assert Run(m, start, []) == start && !FrameAllowed(m, start.frames[0], map[]);
  }

  const LoadsGlobal: Module :=
    Module([Function([], true, Ordinary, false, false, false, [Load(Global(0), true), Ret(Result(0))])], [true])

  lemma LoadsGlobalIsClosed()
    ensures Closed(LoadsGlobal, Replay(LoadsGlobal, [])) && Direct(LoadsGlobal)
  {
    StripOfOther(LoadsGlobal, 0, Global(0));
    assert TrackedSlot(LoadsGlobal, 0, Global(0)).Some?;
    hide Strip;
  }

  /** Nor does it look at initialisers: whatever pointer a global starts with, raw or managed, one step
      loads it into a value whose state is empty. */
  lemma GlobalInitializerIsNotSeeded(p: Provenance, address: int)
    ensures Closed(LoadsGlobal, Replay(LoadsGlobal, [])) && Direct(LoadsGlobal)
    ensures var start := Start(LoadsGlobal, 0, [], map[GlobalAddress(0) := Pointer(p, address)]);
      && |Run(LoadsGlobal, start, [0]).frames| == 1 && Run(LoadsGlobal, start, [0]).frames[0].env == map[0 := Pointer(p, address)]
      && ValueState(LoadsGlobal, 0, Result(0), Replay(LoadsGlobal, [])) == {}
      && !RunAllowed(LoadsGlobal, start, [0], Replay(LoadsGlobal, []))
  {
    LoadsGlobalIsClosed();
    hide Closed, Direct, Strip, MemoryAllowed;
    var start := Start(LoadsGlobal, 0, [], map[GlobalAddress(0) := Pointer(p, address)]);
    assert [0][..0] == [] && Run(LoadsGlobal, start, []) == start;
    var next := Run(LoadsGlobal, start, [0]);
    assert next == Step(LoadsGlobal, start, 0);
    assert next.frames[0].env == map[0 := Pointer(p, address)];
    assert 0 in next.frames[0].env && !Covers(ValueState(LoadsGlobal, 0, Result(0), map[]), next.frames[0].env[0]);
    assert !FrameAllowed(LoadsGlobal, next.frames[0], map[]);
  }
}
