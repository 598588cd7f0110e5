/** The variables of a run: which stack allocation each piece of memory was made for, and that operands
    which strip to a variable are addresses of it. */
module StackSlots {
  import opened Wrappers
  import opened ManagedIR
  import opened IRMachine

  /** Which variable each tracked piece of memory was made for. */
  type Owner = map<int, ValueKey>

  predicate Runs(m: Module, machine: Machine) {
    machine.outcome == Running && machine.frames != [] && IsInst(m, Top(machine).f, Top(machine).pc)
  }

  lemma StripOfOther(m: Module, f: nat, op: Operand)
    requires op.Result? ==> !IsInst(m, f, op.index) || !m.functions[f].code[op.index].Gep?
    ensures Stripped(m, f, op) == op
  {
  }

  lemma {:induction false} StripMoreFuel(m: Module, f: nat, op: Operand, fuel: nat)
    requires var x := Strip(m, f, op, fuel); x.Result? && IsInst(m, f, x.index) ==> !m.functions[f].code[x.index].Gep?
    ensures Strip(m, f, op, fuel + 1) == Strip(m, f, op, fuel)
    decreases fuel
  {
    if fuel > 0 && op.Result? && IsInst(m, f, op.index) && m.functions[f].code[op.index].Gep? && m.functions[f].code[op.index].offset == Scalar(0) {
      StripMoreFuel(m, f, m.functions[f].code[op.index].base, fuel - 1);
    }
  }

  lemma {:induction false} EvalAllAt(args: seq<Value>, env: map<nat, Value>, ops: seq<Operand>, k: nat)
    ensures |EvalAll(args, env, ops)| == |ops|
    ensures k < |ops| ==> EvalAll(args, env, ops)[k] == Eval(args, env, ops[k])
  {
    if ops != [] {
      EvalAllAt(args, env, ops[..|ops| - 1], k);
      if k < |ops| - 1 { assert ops[..|ops| - 1][k] == ops[k]; }
    }
  }

  // ----- The stack variables of a run -----

  /** After the next step: every stack allocation makes memory for its variable. */
  function Slotted(m: Module, machine: Machine, slots: Owner): Owner {
    if Runs(m, machine) && m.functions[Top(machine).f].code[Top(machine).pc].Alloca?
    then slots[machine.next as int := Key(Top(machine).f, Result(Top(machine).pc))]
    else slots
  }

  /** The stack variable each address was made for in a run. */
  function Slots(m: Module, start: Machine, choices: seq<int>): Owner {
    if choices == [] then map[]
    else
      var before := choices[..|choices| - 1];
      Slotted(m, Run(m, start, before), Slots(m, start, before))
  }

  /** An operand that strips to a stack allocation or a global, and is a pointer, is an address of that variable. */
  predicate Names(m: Module, f: nat, op: Operand, v: Value, slots: Owner) {
    v.Pointer? ==>
      match Stripped(m, f, op)
      case Result(a) => IsInst(m, f, a) && m.functions[f].code[a].Alloca? ==> v.address in slots && slots[v.address] == Key(f, Result(a))
      case Global(g) => g < |m.globals| ==> v.address == GlobalAddress(g)
      case _ => true
  }

  ghost predicate EnvNames(m: Module, f: nat, env: map<nat, Value>, slots: Owner) {
    forall i :: i in env ==> Names(m, f, Result(i), env[i], slots)
  }

  ghost predicate FrameNames(m: Module, frame: Frame, slots: Owner) {
    EnvNames(m, frame.f, frame.env, slots) && EnvNames(m, frame.f, frame.entry, slots)
  }

  /** Frame k is at the call of the function that frame k + 1 runs, which the module defines. */
  predicate IsCalledBy(m: Module, waiting: Frame, running: Frame) {
    && running.f < |m.functions| && !m.functions[running.f].isDeclaration && IsInst(m, waiting.f, waiting.pc)
    && var inst := m.functions[waiting.f].code[waiting.pc]; inst.IndirectCall? || (inst.Call? && inst.callee == running.f)
  }

  ghost predicate FramesName(m: Module, frames: seq<Frame>, slots: Owner) {
    && (forall k :: 0 <= k < |frames| ==> FrameNames(m, frames[k], slots))
    && (forall k :: 0 < k < |frames| ==> IsCalledBy(m, frames[k - 1], frames[k]))
  }

  ghost predicate SlotsKept(m: Module, machine: Machine, slots: Owner) {
    && FramesName(m, machine.frames, slots)
    && |m.globals| < machine.next && (forall a :: a in slots ==> |m.globals| < a < machine.next)
  }

  lemma SlotsGrow(m: Module, frames: seq<Frame>, slots: Owner, more: Owner)
    requires FramesName(m, frames, slots) && forall a :: a in slots ==> a in more && more[a] == slots[a]
    ensures FramesName(m, frames, more)
  {
    hide Stripped;
    forall k | 0 <= k < |frames|
      ensures FrameNames(m, frames[k], more)
    {
      assert FrameNames(m, frames[k], slots);
    }
  }

  /** Every operand evaluates to an address of the variable it strips to. */
  lemma EvalNames(m: Module, frame: Frame, env: map<nat, Value>, op: Operand, slots: Owner)
    requires EnvNames(m, frame.f, env, slots)
    ensures Names(m, frame.f, op, Eval(frame.args, env, op), slots)
  {
    if !op.Result? {
      StripOfOther(m, frame.f, op);
    }
    hide Stripped;
  }

  /** Only stack allocations and address computations are names. */
  lemma OthersNameNothing(m: Module, f: nat, i: nat, v: Value, slots: Owner)
    requires IsInst(m, f, i) && !m.functions[f].code[i].Alloca? && !m.functions[f].code[i].Gep?
    ensures Names(m, f, Result(i), v, slots)
  {
    StripOfOther(m, f, Result(i));
    hide Stripped;
  }

  /** An address computation names what its base names, if it names a variable at all. */
  lemma GepNames(m: Module, frame: Frame, i: nat, slots: Owner)
    requires IsInst(m, frame.f, i) && m.functions[frame.f].code[i].Gep? && EnvNames(m, frame.f, frame.env, slots)
    ensures var inst := m.functions[frame.f].code[i];
      var b, o := Eval(frame.args, frame.env, inst.base), Eval(frame.args, frame.env, inst.offset);
      b.Pointer? && o.Int? ==> Names(m, frame.f, Result(i), b.(address := b.address + o.n), slots)
  {
    var inst := m.functions[frame.f].code[i];
    EvalNames(m, frame, frame.env, inst.base, slots);
    var x := Stripped(m, frame.f, Result(i));
    if x.Global? || (x.Result? && IsInst(m, frame.f, x.index) && m.functions[frame.f].code[x.index].Alloca?) {
      StripMoreFuel(m, frame.f, inst.base, |m.functions[frame.f].code| - 1);
      assert inst.offset == Scalar(0) && x == Stripped(m, frame.f, inst.base);
    }
    hide Stripped;
  }

  /** Replacing the running frame by another of the same function. */
  lemma TopNames(m: Module, machine: Machine, frame: Frame, slots: Owner)
    requires SlotsKept(m, machine, slots) && machine.frames != []
    requires FrameNames(m, frame, slots) && frame.f == Top(machine).f
    ensures SlotsKept(m, WithTop(machine, frame), slots)
  {
    hide FrameNames;
    var next := WithTop(machine, frame);
    assert forall k :: 0 <= k < |machine.frames| - 1 ==> next.frames[k] == machine.frames[k];
  }

  lemma FrameOfTop(m: Module, machine: Machine, slots: Owner)
    requires SlotsKept(m, machine, slots) && machine.frames != []
    ensures FrameNames(m, Top(machine), slots)
  {
  }

  lemma AssignedNames(m: Module, frame: Frame, v: Value, slots: Owner)
    requires FrameNames(m, frame, slots) && Names(m, frame.f, Result(frame.pc), v, slots)
    ensures FrameNames(m, frame.(pc := frame.pc + 1, env := frame.env[frame.pc := v]), slots)
  {
    hide Names;
  }

  lemma CoercedNames(m: Module, f: nat, i: nat, v: Value, slots: Owner)
    requires IsInst(m, f, i) && Names(m, f, Result(i), v, slots)
    ensures Names(m, f, Result(i), Coerce(ResultIsPointer(m, m.functions[f].code[i]), v), slots)
  {
    hide Stripped, ResultIsPointer;
  }

  lemma AssignNames(m: Module, machine: Machine, v: Value, slots: Owner)
    requires SlotsKept(m, machine, slots) && machine.frames != []
    requires IsInst(m, Top(machine).f, Top(machine).pc) && Names(m, Top(machine).f, Result(Top(machine).pc), v, slots)
    ensures SlotsKept(m, Assign(m, machine, v), slots)
  {
    FrameOfTop(m, machine, slots);
    hide SlotsKept, WithTop, FrameNames, Names, Coerce, ResultIsPointer;
    var frame := Top(machine);
    CoercedNames(m, frame.f, frame.pc, v, slots);
    var v' := Coerce(ResultIsPointer(m, m.functions[frame.f].code[frame.pc]), v);
    AssignedNames(m, frame, v', slots);
    TopNames(m, machine, frame.(pc := frame.pc + 1, env := frame.env[frame.pc := v']), slots);
  }

  lemma EnterNames(m: Module, machine: Machine, callee: nat, values: seq<Value>, slots: Owner)
    requires SlotsKept(m, machine, slots) && machine.frames != [] && callee < |m.functions| && !m.functions[callee].isDeclaration
    requires var frame := Top(machine);
      IsInst(m, frame.f, frame.pc) && (m.functions[frame.f].code[frame.pc].IndirectCall?
                                       || (m.functions[frame.f].code[frame.pc].Call? && m.functions[frame.f].code[frame.pc].callee == callee))
    ensures SlotsKept(m, Enter(m, machine, callee, values), slots)
  {
    hide Names, Arguments;
    var entered := Enter(m, machine, callee, values);
    assert forall k :: 0 <= k < |machine.frames| ==> entered.frames[k] == machine.frames[k];
  }

  lemma CallNames(m: Module, machine: Machine, callee: nat, values: seq<Value>, choice: int, slots: Owner)
    requires SlotsKept(m, machine, slots) && Runs(m, machine)
    requires var inst := m.functions[Top(machine).f].code[Top(machine).pc]; inst.IndirectCall? || (inst.Call? && inst.callee == callee)
    ensures SlotsKept(m, CallFunction(m, machine, callee, values, choice), slots)
  {
    if callee < |m.functions| && m.functions[callee].isDeclaration {
      OthersNameNothing(m, Top(machine).f, Top(machine).pc, ExternalResult(m.functions[callee], choice), slots);
      hide Names, FramesName;
      AssignNames(m, machine, ExternalResult(m.functions[callee], choice), slots);
    } else if callee < |m.functions| {
      EnterNames(m, machine, callee, values, slots);
    } else {
      hide FramesName;
    }
  }

  /** The frames below the running one. */
  lemma RestNames(m: Module, machine: Machine, slots: Owner)
    requires SlotsKept(m, machine, slots) && machine.frames != []
    ensures SlotsKept(m, machine.(frames := machine.frames[..|machine.frames| - 1]), slots)
    ensures |machine.frames| > 1 ==> IsCalledBy(m, machine.frames[|machine.frames| - 2], Top(machine))
  {
    hide FrameNames, IsCalledBy;
  }

  lemma ReturnNames(m: Module, machine: Machine, v: Value, slots: Owner)
    requires SlotsKept(m, machine, slots) && machine.frames != []
    ensures SlotsKept(m, Return(m, machine, v), slots)
  {
    RestNames(m, machine, slots);
    hide FramesName, Coerce;
    if |machine.frames| > 1 {
      var v' := if Top(machine).f < |m.functions| then Coerce(m.functions[Top(machine).f].returnsPointer, v) else v;
      var waiting := machine.frames[|machine.frames| - 2];
      OthersNameNothing(m, waiting.f, waiting.pc, v', slots);
      hide Names;
      AssignNames(m, machine.(frames := machine.frames[..|machine.frames| - 1]), v', slots);
    }
  }

  lemma BranchNames(m: Module, machine: Machine, target: nat, slots: Owner)
    requires SlotsKept(m, machine, slots) && machine.frames != []
    ensures SlotsKept(m, WithTop(machine, Top(machine).(pc := target, branch := Top(machine).pc, entry := Top(machine).env)), slots)
  {
    FrameOfTop(m, machine, slots);
    hide SlotsKept, WithTop, EnvNames;
    TopNames(m, machine, Top(machine).(pc := target, branch := Top(machine).pc, entry := Top(machine).env), slots);
  }

  lemma AllocaNames(m: Module, machine: Machine, choice: int, slots: Owner)
    requires SlotsKept(m, machine, slots) && Runs(m, machine) && m.functions[Top(machine).f].code[Top(machine).pc].Alloca?
    ensures SlotsKept(m, Step(m, machine, choice), Slotted(m, machine, slots))
  {
    var more := Slotted(m, machine, slots);
    SlotsGrow(m, machine.frames, slots, more);
    StripOfOther(m, Top(machine).f, Result(Top(machine).pc));
    hide FramesName, Assign, Stripped;
    var grown := machine.(memory := machine.memory[machine.next := Undef], next := machine.next + 1);
    AssignNames(m, grown, Pointer(FromRaw, machine.next), more);
  }

  lemma ComputeNames(m: Module, machine: Machine, choice: int, slots: Owner)
    requires SlotsKept(m, machine, slots) && Runs(m, machine)
    requires var inst := m.functions[Top(machine).f].code[Top(machine).pc];
      !inst.Alloca? && !inst.Call? && !inst.IndirectCall? && !inst.Br? && !inst.Ret?
    ensures SlotsKept(m, Step(m, machine, choice), slots)
  {
    var frame := Top(machine);
    var inst := m.functions[frame.f].code[frame.pc];
    if inst.Gep? {
      FrameOfTop(m, machine, slots);
      GepNames(m, frame, frame.pc, slots);
      hide FramesName, Assign, Coerce, Eval, Stripped;
      assert Names(m, frame.f, Result(frame.pc), Undef, slots);
      assert Names(m, frame.f, Result(frame.pc), Computed(machine, frame, inst), slots);
    } else {
      OthersNameNothing(m, frame.f, frame.pc, Computed(machine, frame, inst), slots);
    }
    hide FramesName, Assign, Computed, Coerce, Eval, Names;
    AssignNames(m, Effect(machine, frame, inst, StoresPointer(m, frame.f, inst)), Computed(machine, frame, inst), slots);
  }

  /** No step breaks the naming of stack variables. */
  lemma StepNames(m: Module, machine: Machine, choice: int, slots: Owner)
    requires SlotsKept(m, machine, slots)
    ensures SlotsKept(m, Step(m, machine, choice), Slotted(m, machine, slots))
  {
    hide FramesName, Assign, Computed, Coerce, Eval, EvalAll, CallFunction, Return, WithTop, Effect;
    if Runs(m, machine) {
      var frame := Top(machine);
      var inst := m.functions[frame.f].code[frame.pc];
      if inst.Alloca? {
        AllocaNames(m, machine, choice, slots);
      } else if inst.Call? {
        CallNames(m, machine, inst.callee, EvalAll(frame.args, frame.env, inst.args), choice, slots);
      } else if inst.IndirectCall? {
        var k := IndirectTarget(m, Eval(frame.args, frame.env, inst.target));
        if k >= 0 { CallNames(m, machine, k, EvalAll(frame.args, frame.env, inst.args), choice, slots); }
      } else if inst.Br? {
        BranchNames(m, machine, if Eval(frame.args, frame.env, inst.condition) == Int(0) then inst.onFalse else inst.onTrue, slots);
      } else if inst.Ret? {
        ReturnNames(m, machine, Eval(frame.args, frame.env, inst.value), slots);
      } else {
        ComputeNames(m, machine, choice, slots);
      }
    }
  }

  lemma {:induction false} RunNames(m: Module, f: nat, values: seq<Value>, memory: map<int, Value>, choices: seq<int>)
    requires f < |m.functions|
    ensures var start := Start(m, f, values, memory); SlotsKept(m, Run(m, start, choices), Slots(m, start, choices))
  {
    var start := Start(m, f, values, memory);
    if choices != [] {
      hide SlotsKept, Start, Step, Slotted;
      var before := choices[..|choices| - 1];
      RunNames(m, f, values, memory, before);
      StepNames(m, Run(m, start, before), choices[|choices| - 1], Slots(m, start, before));
    } else {
      hide Arguments;
    }
  }

  lemma SlotsStay(m: Module, f: nat, values: seq<Value>, memory: map<int, Value>, choices: seq<int>, n: nat)
    requires f < |m.functions| && n <= |choices|
    ensures var start := Start(m, f, values, memory);
      forall a :: a in Slots(m, start, choices[..n]) ==> a in Slots(m, start, choices) && Slots(m, start, choices)[a] == Slots(m, start, choices[..n])[a]
    decreases |choices|
  {
    var start := Start(m, f, values, memory);
    if n == |choices| {
      assert choices[..n] == choices;
    } else {
      var before := choices[..|choices| - 1];
      assert before[..n] == choices[..n];
      SlotsStay(m, f, values, memory, before, n);
      RunNames(m, f, values, memory, before);
      hide FramesName, Start, Run;
    }
  }

  lemma SlotOfStep(m: Module, f: nat, values: seq<Value>, memory: map<int, Value>, choices: seq<int>, n: nat)
    requires f < |m.functions| && n < |choices|
    ensures var start := Start(m, f, values, memory);
      var machine := Run(m, start, choices[..n]);
      Runs(m, machine) && m.functions[Top(machine).f].code[Top(machine).pc].Alloca? ==>
        machine.next in Slots(m, start, choices) && Slots(m, start, choices)[machine.next] == Key(Top(machine).f, Result(Top(machine).pc))
  {
    var start := Start(m, f, values, memory);
    SlotsStay(m, f, values, memory, choices, n + 1);
    assert choices[..n + 1][..n] == choices[..n];
    hide Start, Run;
  }
}
