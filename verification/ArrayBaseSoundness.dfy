/** Why the array-base search is right: what its values are in runs of any program, and which stores
    could make it wrong. */
module ArrayBaseSoundness {
  import opened Wrappers
  import opened ManagedIR
  import opened ManagedState
  import opened ManagedStateAnalysisModule
  import opened IRMachine
  import opened StateSolutions
  import opened StackSlots
  import opened ArrayBases

  // ----- What the values of a justified set are at run time -----

  /** A concrete pointer that is exactly what an array allocation returned. */
  predicate IsBase(v: Value, issued: set<int>) {
    v.Pointer? ==> v.provenance == FromArray && v.address in issued
  }

  ghost predicate EnvGood(m: Module, f: nat, G: set<Operand>, env: map<nat, Value>, issued: set<int>) {
    forall i :: i in env && Stripped(m, f, Result(i)) in G ==> IsBase(env[i], issued)
  }

  ghost predicate FrameGood(m: Module, f: nat, G: set<Operand>, frame: Frame, issued: set<int>) {
    frame.f == f ==> EnvGood(m, f, G, frame.env, issued) && EnvGood(m, f, G, frame.entry, issued)
  }

  /** A load of G reads variable a: the search has looked at its stores. */
  ghost predicate Followed(m: Module, f: nat, G: set<Operand>, a: nat) {
    exists i: nat :: Result(i) in G && IsInst(m, f, i) && m.functions[f].code[i].Load? && Stripped(m, f, m.functions[f].code[i].pointer) == Result(a)
  }

  ghost predicate GoodSlot(m: Module, f: nat, G: set<Operand>, key: ValueKey) {
    key.f == f && key.op.Result? && Followed(m, f, G, key.op.index)
  }

  ghost predicate MemoryGood(m: Module, f: nat, G: set<Operand>, memory: map<int, Value>, slots: Owner, issued: set<int>) {
    forall a :: a in slots && a in memory && GoodSlot(m, f, G, slots[a]) ==> IsBase(memory[a], issued)
  }

  ghost predicate MachineGood(m: Module, f: nat, G: set<Operand>, machine: Machine, slots: Owner, issued: set<int>) {
    && (forall k :: 0 <= k < |machine.frames| ==> FrameGood(m, f, G, machine.frames[k], issued))
    && MemoryGood(m, f, G, machine.memory, slots, issued)
  }

  /** The store about to run names the variable whose memory it hits, or puts a base there. */
  ghost predicate StoreIsHarmless(m: Module, f: nat, G: set<Operand>, machine: Machine, slots: Owner, issued: set<int>) {
    Runs(m, machine) && m.functions[Top(machine).f].code[Top(machine).pc].Store? ==>
      var frame := Top(machine);
      var inst := m.functions[frame.f].code[frame.pc];
      var p, v := Eval(frame.args, frame.env, inst.pointer), Coerce(IsPointer(m, frame.f, inst.value), Eval(frame.args, frame.env, inst.value));
      p.Pointer? && p.address in slots && GoodSlot(m, f, G, slots[p.address]) ==>
        (frame.f == f && Stripped(m, f, inst.pointer) == slots[p.address].op) || IsBase(v, issued)
  }

  /** The addresses array allocations return in a step. */
  function IssuedBy(m: Module, machine: Machine, choice: int): set<int> {
    if Runs(m, machine) && m.functions[Top(machine).f].code[Top(machine).pc].Call?
       && m.functions[Top(machine).f].code[Top(machine).pc].callee < |m.functions|
       && m.functions[m.functions[Top(machine).f].code[Top(machine).pc].callee].role == ArrayAllocator(false)
    then {choice} else {}
  }

  function Issued(m: Module, start: Machine, choices: seq<int>): set<int> {
    if choices == [] then {}
    else
      var front := choices[..|choices| - 1];
      Issued(m, start, front) + IssuedBy(m, Run(m, start, front), choices[|choices| - 1])
  }

  lemma MoreIssued(m: Module, f: nat, G: set<Operand>, machine: Machine, slots: Owner, issued: set<int>, more: set<int>)
    requires MachineGood(m, f, G, machine, slots, issued) && issued <= more
    ensures MachineGood(m, f, G, machine, slots, more)
    ensures StoreIsHarmless(m, f, G, machine, slots, issued) ==> StoreIsHarmless(m, f, G, machine, slots, more)
  {
    hide Stripped, GoodSlot, Eval, Coerce;
    forall k | 0 <= k < |machine.frames|
      ensures FrameGood(m, f, G, machine.frames[k], more)
    {
      assert FrameGood(m, f, G, machine.frames[k], issued);
    }
  }

  /** A value of a justified set, read in an environment that is good. */
  lemma EvalIsBase(m: Module, f: nat, G: set<Operand>, args: seq<Value>, env: map<nat, Value>, op: Operand, issued: set<int>)
    requires Justified(m, f, G) && EnvGood(m, f, G, env, issued) && Stripped(m, f, op) in G
    ensures IsBase(Eval(args, env, op), issued)
  {
    assert JustifiedBy(m, f, Stripped(m, f, op), G);
    StripOfResult(m, f, op);
    hide Stripped;
  }

  lemma StripOfResult(m: Module, f: nat, op: Operand)
    ensures Stripped(m, f, op).Result? ==> op.Result?
  {
  }

  lemma {:induction false} PhiIsBase(m: Module, f: nat, G: set<Operand>, frame: Frame, incoming: seq<Incoming>, issued: set<int>)
    requires Justified(m, f, G) && EnvGood(m, f, G, frame.entry, issued)
    requires forall k :: 0 <= k < |incoming| ==> Stripped(m, f, incoming[k].value) in G
    ensures IsBase(PhiValue(frame, incoming), issued)
  {
    hide Stripped, Justified, EnvGood;
    if incoming != [] {
      EvalIsBase(m, f, G, frame.args, frame.entry, incoming[0].value, issued);
      PhiIsBase(m, f, G, frame, incoming[1..], issued);
    }
  }

  /** The running instruction of f may take v. */
  ghost predicate MayBe(m: Module, f: nat, G: set<Operand>, frame: Frame, v: Value, issued: set<int>) {
    frame.f == f && Stripped(m, f, Result(frame.pc)) in G ==> IsBase(v, issued)
  }

  lemma AssignGood(m: Module, f: nat, G: set<Operand>, machine: Machine, v: Value, slots: Owner, issued: set<int>)
    requires MachineGood(m, f, G, machine, slots, issued) && machine.frames != [] && IsInst(m, Top(machine).f, Top(machine).pc)
    requires MayBe(m, f, G, Top(machine), v, issued)
    ensures MachineGood(m, f, G, Assign(m, machine, v), slots, issued)
  {
    hide Stripped, MemoryGood;
    var next := Assign(m, machine, v);
    assert FrameGood(m, f, G, Top(machine), issued);
    forall k | 0 <= k < |next.frames|
      ensures FrameGood(m, f, G, next.frames[k], issued)
    {
      if k < |machine.frames| - 1 { assert next.frames[k] == machine.frames[k]; }
    }
  }

  // ----- Names of a searched variable -----

  /** A slot with only loads and stores for uses is never named through an address computation. */
  lemma {:induction false} SlotNamedDirectly(m: Module, f: nat, a: nat, G: set<Operand>, op: Operand, fuel: nat)
    requires SlotHolds(m, f, a, G) && Strip(m, f, op, fuel) == Result(a)
    ensures op == Result(a)
    decreases fuel
  {
    NoAddressComputation(m, f, a, G);
    if op != Result(a) {
      SlotNamedDirectly(m, f, a, G, m.functions[f].code[op.index].base, fuel - 1);
    }
  }

  lemma NoAddressComputation(m: Module, f: nat, a: nat, G: set<Operand>)
    requires SlotHolds(m, f, a, G)
    ensures forall i: nat :: IsInst(m, f, i) && m.functions[f].code[i].Gep? ==> m.functions[f].code[i].base != Result(a)
  {
    hide Stripped;
    forall i: nat | IsInst(m, f, i) && m.functions[f].code[i].Gep?
      ensures m.functions[f].code[i].base != Result(a)
    {
      assert m.functions[f].code[i].base in Operands(m.functions[f].code[i]);
    }
  }

  /** A variable the search follows is a stack variable that only values of G are stored to. */
  lemma FollowedHolds(m: Module, f: nat, G: set<Operand>, a: nat)
    requires Justified(m, f, G) && Followed(m, f, G, a)
    ensures IsInst(m, f, a) && m.functions[f].code[a].Alloca? && SlotHolds(m, f, a, G)
  {
    hide Stripped, SlotHolds;
    var i: nat :| Result(i) in G && IsInst(m, f, i) && m.functions[f].code[i].Load? && Stripped(m, f, m.functions[f].code[i].pointer) == Result(a);
    assert JustifiedBy(m, f, Result(i), G);
  }

  lemma FollowedNamedDirectly(m: Module, f: nat, G: set<Operand>, a: nat, op: Operand)
    requires f < |m.functions| && Justified(m, f, G) && Followed(m, f, G, a) && Stripped(m, f, op) == Result(a)
    ensures op == Result(a)
  {
    FollowedHolds(m, f, G, a);
    hide Justified, Followed, SlotHolds;
    SlotNamedDirectly(m, f, a, G, op, |m.functions[f].code|);
  }

  /** Stores that name a searched variable store values of G. */
  lemma StoreUsesSlot(m: Module, f: nat, G: set<Operand>, a: nat, i: nat)
    requires Justified(m, f, G) && Followed(m, f, G, a)
    requires IsInst(m, f, i) && m.functions[f].code[i].Store? && Stripped(m, f, m.functions[f].code[i].pointer) == Result(a)
    ensures Stripped(m, f, m.functions[f].code[i].value) in G
  {
    FollowedHolds(m, f, G, a);
    FollowedNamedDirectly(m, f, G, a, m.functions[f].code[i].pointer);
    assert Result(a) in Operands(m.functions[f].code[i]);
    hide Stripped;
  }

  lemma GepIsStripped(m: Module, f: nat, G: set<Operand>, i: nat)
    requires Justified(m, f, G) && IsInst(m, f, i) && m.functions[f].code[i].Gep? && Stripped(m, f, Result(i)) in G
    ensures m.functions[f].code[i].offset == Scalar(0) && Stripped(m, f, m.functions[f].code[i].base) in G
  {
    var x := Stripped(m, f, Result(i));
    assert JustifiedBy(m, f, x, G);
    StripMoreFuel(m, f, m.functions[f].code[i].base, |m.functions[f].code| - 1);
  }

  // ----- Steps -----

  lemma LoadIsBase(m: Module, f: nat, G: set<Operand>, machine: Machine, slots: Owner, issued: set<int>)
    requires Justified(m, f, G) && MachineGood(m, f, G, machine, slots, issued) && SlotsKept(m, machine, slots)
    requires machine.frames != [] && Top(machine).f == f && IsInst(m, f, Top(machine).pc)
    requires m.functions[f].code[Top(machine).pc].Load? && Result(Top(machine).pc) in G
    ensures IsBase(IRMachine.Load(machine.memory, Eval(Top(machine).args, Top(machine).env, m.functions[f].code[Top(machine).pc].pointer)), issued)
  {
    var frame := Top(machine);
    var pointer := m.functions[f].code[frame.pc].pointer;
    hide Stripped, SlotHolds;
    assert JustifiedBy(m, f, Result(frame.pc), G);
    var a := Stripped(m, f, pointer).index;
    assert Followed(m, f, G, a);
    FollowedHolds(m, f, G, a);
    FollowedNamedDirectly(m, f, G, a, pointer);
    FrameOfTop(m, machine, slots);
    hide SlotsKept, Justified, Followed;
    if a in frame.env {
      assert Names(m, f, pointer, frame.env[a], slots);
    }
  }

  /** A member of a justified set is no stripped address computation and is computed from members. */
  lemma ComputedIsBase(m: Module, f: nat, G: set<Operand>, machine: Machine, slots: Owner, issued: set<int>)
    requires Justified(m, f, G) && MachineGood(m, f, G, machine, slots, issued) && SlotsKept(m, machine, slots)
    requires machine.frames != [] && IsInst(m, Top(machine).f, Top(machine).pc)
    requires var inst := m.functions[Top(machine).f].code[Top(machine).pc]; !inst.Call? && !inst.IndirectCall?
    ensures var frame := Top(machine); MayBe(m, f, G, frame, Computed(machine, frame, m.functions[frame.f].code[frame.pc]), issued)
  {
    var frame := Top(machine);
    var inst := m.functions[frame.f].code[frame.pc];
    if frame.f == f && Stripped(m, f, Result(frame.pc)) in G {
      assert FrameGood(m, f, G, frame, issued);
      hide SlotsKept, MemoryGood;
      if inst.Gep? {
        GepIsStripped(m, f, G, frame.pc);
        hide Stripped, Justified;
        EvalIsBase(m, f, G, frame.args, frame.env, inst.base, issued);
      } else {
        StripOfOther(m, f, Result(frame.pc));
        assert JustifiedBy(m, f, Result(frame.pc), G);
        hide Justified, Stripped, EnvGood;
        if inst.Phi? {
          PhiIsBase(m, f, G, frame, inst.incoming, issued);
        } else if inst.Select? {
          EvalIsBase(m, f, G, frame.args, frame.env, inst.ifTrue, issued);
          EvalIsBase(m, f, G, frame.args, frame.env, inst.ifFalse, issued);
        } else {
          LoadIsBase(m, f, G, machine, slots, issued);
        }
      }
    }
  }

  /** A pointer stored into a searched variable is a base. */
  lemma StoredIsBase(m: Module, f: nat, G: set<Operand>, machine: Machine, slots: Owner, issued: set<int>)
    requires Justified(m, f, G) && MachineGood(m, f, G, machine, slots, issued) && StoreIsHarmless(m, f, G, machine, slots, issued)
    requires Runs(m, machine) && m.functions[Top(machine).f].code[Top(machine).pc].Store?
    ensures var frame := Top(machine);
      var inst := m.functions[frame.f].code[frame.pc];
      var p, v := Eval(frame.args, frame.env, inst.pointer), Coerce(IsPointer(m, frame.f, inst.value), Eval(frame.args, frame.env, inst.value));
      p.Pointer? && p.address in slots && GoodSlot(m, f, G, slots[p.address]) ==> IsBase(v, issued)
  {
    var frame := Top(machine);
    var inst := m.functions[frame.f].code[frame.pc];
    assert FrameGood(m, f, G, frame, issued);
    hide Stripped, EnvGood, Justified, Followed;
    var p := Eval(frame.args, frame.env, inst.pointer);
    if p.Pointer? && p.address in slots && GoodSlot(m, f, G, slots[p.address]) && frame.f == f && Stripped(m, f, inst.pointer) == slots[p.address].op {
      StoreUsesSlot(m, f, G, slots[p.address].op.index, frame.pc);
      EvalIsBase(m, f, G, frame.args, frame.env, inst.value, issued);
    }
  }

  lemma MemoryAfterStore(m: Module, f: nat, G: set<Operand>, machine: Machine, slots: Owner, issued: set<int>, address: int, v: Value)
    requires MachineGood(m, f, G, machine, slots, issued)
    requires address in slots && GoodSlot(m, f, G, slots[address]) ==> IsBase(v, issued)
    ensures MachineGood(m, f, G, machine.(memory := machine.memory[address := v]), slots, issued)
  {
    hide FrameGood, GoodSlot;
  }

  /** An instruction that is neither a call of the array allocator, a load, a phi nor a select gives no value of G. */
  lemma NoMember(m: Module, f: nat, G: set<Operand>, frame: Frame, v: Value, issued: set<int>)
    requires Justified(m, f, G) && IsInst(m, frame.f, frame.pc)
    requires match m.functions[frame.f].code[frame.pc]
             case Call(callee, _) => callee < |m.functions| && m.functions[callee].role == ArrayAllocator(false) ==> IsBase(v, issued)
             case Load(_, _) => false
             case Phi(_, _) => false
             case Select(_, _, _, _) => false
             case Gep(_, _, _) => false
             case _ => true
    ensures MayBe(m, f, G, frame, v, issued)
  {
    if frame.f == f {
      StripOfOther(m, f, Result(frame.pc));
      hide Stripped;
      assert Result(frame.pc) in G ==> JustifiedBy(m, f, Result(frame.pc), G);
    }
  }

  lemma AllocaGood(m: Module, f: nat, G: set<Operand>, machine: Machine, slots: Owner, issued: set<int>, choice: int)
    requires Justified(m, f, G) && MachineGood(m, f, G, machine, slots, issued) && SlotsKept(m, machine, slots)
    requires Runs(m, machine) && m.functions[Top(machine).f].code[Top(machine).pc].Alloca?
    ensures MachineGood(m, f, G, Step(m, machine, choice), Slotted(m, machine, slots), issued)
  {
    var frame := Top(machine);
    var grown := machine.(memory := machine.memory[machine.next := Undef], next := machine.next + 1);
    NoMember(m, f, G, frame, Pointer(FromRaw, machine.next), issued);
    hide FrameGood, GoodSlot, FramesName, Assign, MayBe, Justified;
    assert MachineGood(m, f, G, grown, Slotted(m, machine, slots), issued);
    AssignGood(m, f, G, grown, Pointer(FromRaw, machine.next), Slotted(m, machine, slots), issued);
  }

  /** Array allocation is left to the runtime. */
  ghost predicate RuntimeAllocates(m: Module) {
    forall f: nat :: f < |m.functions| && m.functions[f].role == ArrayAllocator(false) ==> m.functions[f].isDeclaration
  }

  lemma CallGood(m: Module, f: nat, G: set<Operand>, machine: Machine, slots: Owner, issued: set<int>, callee: nat, values: seq<Value>, choice: int)
    requires Justified(m, f, G) && MachineGood(m, f, G, machine, slots, issued) && Runs(m, machine) && IssuedBy(m, machine, choice) <= issued
    requires var inst := m.functions[Top(machine).f].code[Top(machine).pc]; inst.IndirectCall? || (inst.Call? && inst.callee == callee)
    ensures MachineGood(m, f, G, CallFunction(m, machine, callee, values, choice), slots, issued)
  {
    if callee < |m.functions| && m.functions[callee].isDeclaration {
      var v := ExternalResult(m.functions[callee], choice);
      NoMember(m, f, G, Top(machine), v, issued);
      hide MachineGood, Assign, MayBe, Justified;
      AssignGood(m, f, G, machine, v, slots, issued);
    } else if callee < |m.functions| {
      hide Stripped, MemoryGood, Arguments;
      var entered := Enter(m, machine, callee, values);
      forall k | 0 <= k < |entered.frames|
        ensures FrameGood(m, f, G, entered.frames[k], issued)
      {
        if k < |machine.frames| { assert entered.frames[k] == machine.frames[k]; }
      }
    }
  }

  /** A function the module defines returns into no member of a justified set. */
  lemma ReturnGood(m: Module, f: nat, G: set<Operand>, machine: Machine, slots: Owner, issued: set<int>, v: Value)
    requires Justified(m, f, G) && MachineGood(m, f, G, machine, slots, issued) && SlotsKept(m, machine, slots)
    requires RuntimeAllocates(m) && machine.frames != []
    ensures MachineGood(m, f, G, Return(m, machine, v), slots, issued)
  {
    var rest := machine.(frames := machine.frames[..|machine.frames| - 1]);
    RestNames(m, machine, slots);
    hide MemoryGood, FrameGood, SlotsKept, Justified;
    assert MachineGood(m, f, G, rest, slots, issued);
    if rest.frames != [] {
      hide MachineGood, Assign, Coerce, MayBe;
      var v' := if Top(machine).f < |m.functions| then Coerce(m.functions[Top(machine).f].returnsPointer, v) else v;
      NoMember(m, f, G, Top(rest), v', issued);
      AssignGood(m, f, G, rest, v', slots, issued);
    }
  }

  lemma BranchGood(m: Module, f: nat, G: set<Operand>, machine: Machine, slots: Owner, issued: set<int>, target: nat)
    requires MachineGood(m, f, G, machine, slots, issued) && machine.frames != []
    ensures MachineGood(m, f, G, WithTop(machine, Top(machine).(pc := target, branch := Top(machine).pc, entry := Top(machine).env)), slots, issued)
  {
    hide EnvGood, MemoryGood;
    var next := WithTop(machine, Top(machine).(pc := target, branch := Top(machine).pc, entry := Top(machine).env));
    assert FrameGood(m, f, G, Top(machine), issued);
    forall k | 0 <= k < |next.frames|
      ensures FrameGood(m, f, G, next.frames[k], issued)
    {
      if k < |machine.frames| - 1 { assert next.frames[k] == machine.frames[k]; }
    }
  }

  lemma StoreGood(m: Module, f: nat, G: set<Operand>, machine: Machine, slots: Owner, issued: set<int>, choice: int)
    requires Justified(m, f, G) && MachineGood(m, f, G, machine, slots, issued) && StoreIsHarmless(m, f, G, machine, slots, issued)
    requires Runs(m, machine) && m.functions[Top(machine).f].code[Top(machine).pc].Store?
    ensures MachineGood(m, f, G, Step(m, machine, choice), slots, issued)
  {
    var frame := Top(machine);
    var inst := m.functions[frame.f].code[frame.pc];
    StoredIsBase(m, f, G, machine, slots, issued);
    NoMember(m, f, G, frame, Undef, issued);
    hide GoodSlot, MachineGood, Justified, Coerce, Eval, Assign, MayBe, StoreIsHarmless;
    var p, v := Eval(frame.args, frame.env, inst.pointer), Coerce(IsPointer(m, frame.f, inst.value), Eval(frame.args, frame.env, inst.value));
    var stored := if p.Pointer? then machine.(memory := machine.memory[p.address := v]) else machine;
    if p.Pointer? { MemoryAfterStore(m, f, G, machine, slots, issued, p.address, v); }
    AssignGood(m, f, G, stored, Undef, slots, issued);
  }

  lemma StepGood(m: Module, f: nat, G: set<Operand>, machine: Machine, choice: int, slots: Owner, issued: set<int>)
    requires Justified(m, f, G) && RuntimeAllocates(m) && MachineGood(m, f, G, machine, slots, issued) && SlotsKept(m, machine, slots)
    requires StoreIsHarmless(m, f, G, machine, slots, issued) && IssuedBy(m, machine, choice) <= issued
    ensures MachineGood(m, f, G, Step(m, machine, choice), Slotted(m, machine, slots), issued)
  {
    hide MachineGood, SlotsKept, Justified, StoreIsHarmless, RuntimeAllocates, IssuedBy;
    if Runs(m, machine) {
      var frame := Top(machine);
      var inst := m.functions[frame.f].code[frame.pc];
      hide Assign, WithTop, Return, CallFunction, Eval, EvalAll;
      if inst.Alloca? {
        AllocaGood(m, f, G, machine, slots, issued, choice);
      } else if inst.Store? {
        StoreGood(m, f, G, machine, slots, issued, choice);
      } else if inst.Call? {
        CallGood(m, f, G, machine, slots, issued, inst.callee, EvalAll(frame.args, frame.env, inst.args), choice);
      } else if inst.IndirectCall? {
        var k := IndirectTarget(m, Eval(frame.args, frame.env, inst.target));
        if k >= 0 {
          CallGood(m, f, G, machine, slots, issued, k, EvalAll(frame.args, frame.env, inst.args), choice);
        } else {
          SameGood(m, f, G, machine, machine.(outcome := Stuck), slots, issued);
        }
      } else if inst.Br? {
        BranchGood(m, f, G, machine, slots, issued, if Eval(frame.args, frame.env, inst.condition) == Int(0) then inst.onFalse else inst.onTrue);
      } else if inst.Ret? {
        ReturnGood(m, f, G, machine, slots, issued, Eval(frame.args, frame.env, inst.value));
      } else {
        ComputedIsBase(m, f, G, machine, slots, issued);
        hide MayBe, Computed;
        AssignGood(m, f, G, machine, Computed(machine, frame, inst), slots, issued);
      }
    } else {
      SameGood(m, f, G, machine, Step(m, machine, choice), slots, issued);
    }
  }

  lemma SameGood(m: Module, f: nat, G: set<Operand>, machine: Machine, next: Machine, slots: Owner, issued: set<int>)
    requires MachineGood(m, f, G, machine, slots, issued) && next.frames == machine.frames && next.memory == machine.memory
    ensures MachineGood(m, f, G, next, slots, issued)
  {
    hide FrameGood, MemoryGood;
  }

  // ----- Runs -----

  ghost predicate StoresAreHarmless(m: Module, f: nat, G: set<Operand>, start: Machine, choices: seq<int>) {
    forall n :: 0 <= n < |choices| ==>
      StoreIsHarmless(m, f, G, Run(m, start, choices[..n]), Slots(m, start, choices[..n]), Issued(m, start, choices[..n]))
  }

  ghost predicate SlotsHoldBases(m: Module, f: nat, G: set<Operand>, start: Machine, choices: seq<int>) {
    MemoryGood(m, f, G, Run(m, start, choices).memory, Slots(m, start, choices), Issued(m, start, choices))
  }

  lemma HarmlessPrefix(m: Module, f: nat, G: set<Operand>, start: Machine, choices: seq<int>, n: nat)
    requires n <= |choices| && StoresAreHarmless(m, f, G, start, choices)
    ensures StoresAreHarmless(m, f, G, start, choices[..n])
  {
    hide StoreIsHarmless;
    assert forall k :: 0 <= k < n ==> choices[..n][..k] == choices[..k];
  }

  lemma {:induction false} RunGood(m: Module, f: nat, G: set<Operand>, entry: nat, values: seq<Value>, memory: map<int, Value>, choices: seq<int>)
    requires entry < |m.functions| && Justified(m, f, G) && RuntimeAllocates(m)
    requires StoresAreHarmless(m, f, G, Start(m, entry, values, memory), choices)
    ensures var start := Start(m, entry, values, memory);
      MachineGood(m, f, G, Run(m, start, choices), Slots(m, start, choices), Issued(m, start, choices))
  {
    var start := Start(m, entry, values, memory);
    hide Stripped, Arguments, StoreIsHarmless, Justified, RuntimeAllocates;
    if choices != [] {
      hide MachineGood, SlotsKept, Step, IssuedBy, Slotted, Start;
      var front, choice := choices[..|choices| - 1], choices[|choices| - 1];
      HarmlessPrefix(m, f, G, start, choices, |choices| - 1);
      RunGood(m, f, G, entry, values, memory, front);
      RunNames(m, entry, values, memory, front);
      var machine, slots, issued := Run(m, start, front), Slots(m, start, front), Issued(m, start, front);
      MoreIssued(m, f, G, machine, slots, issued, issued + IssuedBy(m, machine, choice));
      StepGood(m, f, G, machine, choice, slots, issued + IssuedBy(m, machine, choice));
    }
  }

  /** A true answer of the search is right in any program: at every moment of a run whose stores have
      been harmless, in every frame of the function, the value is no pointer yet or exactly an address
      that an array allocation returned. */
  lemma SearchIsSound(m: Module, f: nat, G: set<Operand>, op: Operand, entry: nat, values: seq<Value>, memory: map<int, Value>,
                      choices: seq<int>, k: nat)
    requires RuntimeAllocates(m) && entry < |m.functions| && Justified(m, f, G) && Stripped(m, f, op) in G
    requires StoresAreHarmless(m, f, G, Start(m, entry, values, memory), choices)
    ensures var run := Run(m, Start(m, entry, values, memory), choices);
      k < |run.frames| && run.frames[k].f == f ==>
        IsBase(Eval(run.frames[k].args, run.frames[k].env, op), Issued(m, Start(m, entry, values, memory), choices))
  {
    var start := Start(m, entry, values, memory);
    RunGood(m, f, G, entry, values, memory, choices);
    hide Run, Justified, Issued, EnvGood, Stripped, MemoryGood, Slots, StoresAreHarmless;
    var run := Run(m, start, choices);
    if k < |run.frames| && run.frames[k].f == f {
      assert FrameGood(m, f, G, run.frames[k], Issued(m, start, choices));
      EvalIsBase(m, f, G, run.frames[k].args, run.frames[k].env, op, Issued(m, start, choices));
    }
  }

  lemma HarmlessHoldsBases(m: Module, f: nat, G: set<Operand>, entry: nat, values: seq<Value>, memory: map<int, Value>, choices: seq<int>, n: nat)
    requires RuntimeAllocates(m) && entry < |m.functions| && Justified(m, f, G) && n <= |choices|
    requires StoresAreHarmless(m, f, G, Start(m, entry, values, memory), choices)
    ensures SlotsHoldBases(m, f, G, Start(m, entry, values, memory), choices[..n])
  {
    HarmlessPrefix(m, f, G, Start(m, entry, values, memory), choices, n);
    hide Justified, RuntimeAllocates, StoresAreHarmless, Start, Run, Slots, Issued, MemoryGood;
    RunGood(m, f, G, entry, values, memory, choices[..n]);
  }

  lemma HoldsBasesIsHarmless(m: Module, f: nat, G: set<Operand>, start: Machine, choices: seq<int>)
    requires forall n :: 0 <= n <= |choices| ==> SlotsHoldBases(m, f, G, start, choices[..n])
    ensures StoresAreHarmless(m, f, G, start, choices)
  {
    hide StoreIsHarmless, SlotsHoldBases, Run, Slots, Issued;
    forall n | 0 <= n < |choices|
      ensures StoreIsHarmless(m, f, G, Run(m, start, choices[..n]), Slots(m, start, choices[..n]), Issued(m, start, choices[..n]))
    {
      assert SlotsHoldBases(m, f, G, start, choices[..n + 1]);
      assert choices[..n] + [choices[n]] == choices[..n + 1];
      HarmfulStoreShows(m, f, G, start, choices[..n], choices[n]);
    }
  }

  /** The searched variables hold bases all along a run iff its stores are harmless: no store but one
      that names such a variable puts anything else there. */
  lemma SlotsHoldBasesIff(m: Module, f: nat, G: set<Operand>, entry: nat, values: seq<Value>, memory: map<int, Value>, choices: seq<int>)
    requires RuntimeAllocates(m) && entry < |m.functions| && Justified(m, f, G)
    ensures var start := Start(m, entry, values, memory);
      (forall n :: 0 <= n <= |choices| ==> SlotsHoldBases(m, f, G, start, choices[..n])) <==> StoresAreHarmless(m, f, G, start, choices)
  {
    var start := Start(m, entry, values, memory);
    hide Justified, RuntimeAllocates, StoresAreHarmless, SlotsHoldBases, Start;
    if StoresAreHarmless(m, f, G, start, choices) {
      forall n | 0 <= n <= |choices|
        ensures SlotsHoldBases(m, f, G, start, choices[..n])
      {
        HarmlessHoldsBases(m, f, G, entry, values, memory, choices, n);
      }
    }
    if forall n :: 0 <= n <= |choices| ==> SlotsHoldBases(m, f, G, start, choices[..n]) {
      HoldsBasesIsHarmless(m, f, G, start, choices);
    }
  }

  lemma HarmfulStoreShows(m: Module, f: nat, G: set<Operand>, start: Machine, front: seq<int>, choice: int)
    requires SlotsHoldBases(m, f, G, start, front + [choice])
    ensures StoreIsHarmless(m, f, G, Run(m, start, front), Slots(m, start, front), Issued(m, start, front))
  {
    var choices := front + [choice];
    assert choices[..|choices| - 1] == front && choices[|choices| - 1] == choice;
    var machine := Run(m, start, front);
    assert Run(m, start, choices) == Step(m, machine, choice);
    hide Run, GoodSlot, Stripped, Eval, Coerce;
    if Runs(m, machine) && m.functions[Top(machine).f].code[Top(machine).pc].Store? {
      StoreWrites(m, machine, choice);
      assert Slots(m, start, choices) == Slots(m, start, front);
      assert Issued(m, start, choices) == Issued(m, start, front);
    }
  }

  lemma StoreWrites(m: Module, machine: Machine, choice: int)
    requires Runs(m, machine) && m.functions[Top(machine).f].code[Top(machine).pc].Store?
    ensures var frame := Top(machine);
      var inst := m.functions[frame.f].code[frame.pc];
      var p, v := Eval(frame.args, frame.env, inst.pointer), Coerce(IsPointer(m, frame.f, inst.value), Eval(frame.args, frame.env, inst.value));
      p.Pointer? ==> Step(m, machine, choice).memory == machine.memory[p.address := v]
  {
    hide Eval, Coerce;
  }

  // ----- Programs that forge no pointers -----

  /** The memory of the variables the search follows. */
  ghost function SearchedMemory(m: Module, f: nat, G: set<Operand>, slots: Owner): set<int> {
    set a | a in slots && GoodSlot(m, f, G, slots[a])
  }

  predicate Outside(v: Value, A: set<int>) {
    v.Pointer? ==> v.address !in A
  }

  /** The next step makes a pointer into A by address arithmetic or takes one from external code. */
  predicate Forges(m: Module, machine: Machine, choice: int, A: set<int>) {
    Runs(m, machine) &&
    var frame := Top(machine);
    match m.functions[frame.f].code[frame.pc]
    case Gep(_, _, _) => !Outside(Computed(machine, frame, m.functions[frame.f].code[frame.pc]), A)
    case Call(_, _) => choice in A
    case IndirectCall(_, _, _) => choice in A
    case _ => false
  }

  ghost predicate EnvOutside(m: Module, f: nat, G: set<Operand>, g: nat, env: map<nat, Value>, A: set<int>) {
    forall i :: i in env ==> Outside(env[i], A) || (g == f && Followed(m, f, G, i))
  }

  ghost predicate AllOutside(values: seq<Value>, A: set<int>) {
    forall i :: 0 <= i < |values| ==> Outside(values[i], A)
  }

  ghost predicate FrameOutside(m: Module, f: nat, G: set<Operand>, frame: Frame, A: set<int>) {
    EnvOutside(m, f, G, frame.f, frame.env, A) && EnvOutside(m, f, G, frame.f, frame.entry, A) && AllOutside(frame.args, A)
  }

  ghost predicate MemoryOutside(memory: map<int, Value>, A: set<int>) {
    forall a :: a in memory ==> Outside(memory[a], A)
  }

  /** Only the results of a searched variable's own allocation point into A. */
  ghost predicate MachineOutside(m: Module, f: nat, G: set<Operand>, machine: Machine, A: set<int>) {
    (forall k :: 0 <= k < |machine.frames| ==> FrameOutside(m, f, G, machine.frames[k], A)) && MemoryOutside(machine.memory, A)
  }

  lemma TopOutside(m: Module, f: nat, G: set<Operand>, machine: Machine, frame: Frame, A: set<int>)
    requires MachineOutside(m, f, G, machine, A) && machine.frames != [] && FrameOutside(m, f, G, frame, A)
    ensures MachineOutside(m, f, G, WithTop(machine, frame), A)
  {
    hide FrameOutside, MemoryOutside;
    var next := WithTop(machine, frame);
    assert forall k :: 0 <= k < |machine.frames| - 1 ==> next.frames[k] == machine.frames[k];
  }

  lemma AssignOutside(m: Module, f: nat, G: set<Operand>, machine: Machine, v: Value, A: set<int>)
    requires MachineOutside(m, f, G, machine, A) && machine.frames != [] && IsInst(m, Top(machine).f, Top(machine).pc)
    requires Outside(v, A) || (Top(machine).f == f && Followed(m, f, G, Top(machine).pc))
    ensures MachineOutside(m, f, G, Assign(m, machine, v), A)
  {
    var frame := Top(machine);
    var isPointer := ResultIsPointer(m, m.functions[frame.f].code[frame.pc]);
    assert FrameOutside(m, f, G, frame, A);
    hide MachineOutside, WithTop, Followed, AllOutside, ResultIsPointer;
    TopOutside(m, f, G, machine, frame.(pc := frame.pc + 1, env := frame.env[frame.pc := Coerce(isPointer, v)]), A);
  }

  /** A searched variable is an operand of loads, and of stores to it, only. */
  predicate MayNameSlot(inst: Inst, op: Operand) {
    inst.Load? || (inst.Store? && op != inst.value)
  }

  lemma OperandIsNoSlot(m: Module, f: nat, G: set<Operand>, i: nat, a: nat)
    requires Justified(m, f, G) && Followed(m, f, G, a) && IsInst(m, f, i) && Result(a) in Operands(m.functions[f].code[i])
    ensures MayNameSlot(m.functions[f].code[i], Result(a))
  {
    FollowedHolds(m, f, G, a);
    StripOfOther(m, f, Result(a));
    hide Stripped;
    assert Result(a) in G ==> JustifiedBy(m, f, Result(a), G);
  }

  /** The operands of instructions name globals of the module. */
  ghost predicate GlobalsExist(m: Module) {
    forall f: nat, i: nat, g: nat :: IsInst(m, f, i) && Global(g) in Operands(m.functions[f].code[i]) ==> g < |m.globals|
  }

  ghost predicate AboveGlobals(m: Module, A: set<int>) {
    GlobalsExist(m) && forall a :: a in A ==> |m.globals| < a
  }

  lemma EvalOutside(m: Module, f: nat, G: set<Operand>, frame: Frame, env: map<nat, Value>, op: Operand, A: set<int>)
    requires Justified(m, f, G) && IsInst(m, frame.f, frame.pc) && AllOutside(frame.args, A) && EnvOutside(m, f, G, frame.f, env, A)
    requires op in Operands(m.functions[frame.f].code[frame.pc]) && !MayNameSlot(m.functions[frame.f].code[frame.pc], op)
    requires AboveGlobals(m, A)
    ensures Outside(Eval(frame.args, env, op), A)
  {
    if op.Result? && frame.f == f && Followed(m, f, G, op.index) {
      OperandIsNoSlot(m, f, G, frame.pc, op.index);
    }
    hide Justified, Followed, Operands;
  }

  lemma {:induction false} IncomingAt(incoming: seq<Incoming>, k: nat)
    requires k < |incoming|
    ensures incoming[k].value in IncomingValues(incoming)
  {
    if k < |incoming| - 1 { IncomingAt(incoming[..|incoming| - 1], k); }
  }

  lemma {:induction false} PhiOutside(m: Module, f: nat, G: set<Operand>, frame: Frame, incoming: seq<Incoming>, A: set<int>)
    requires Justified(m, f, G) && IsInst(m, frame.f, frame.pc) && AboveGlobals(m, A) && FrameOutside(m, f, G, frame, A)
    requires m.functions[frame.f].code[frame.pc].Phi?
    requires forall k :: 0 <= k < |incoming| ==> incoming[k].value in Operands(m.functions[frame.f].code[frame.pc])
    ensures Outside(PhiValue(frame, incoming), A)
  {
    hide Justified, AboveGlobals, EnvOutside, AllOutside, Operands;
    if incoming != [] {
      EvalOutside(m, f, G, frame, frame.entry, incoming[0].value, A);
      PhiOutside(m, f, G, frame, incoming[1..], A);
    }
  }

  lemma ComputedOutside(m: Module, f: nat, G: set<Operand>, machine: Machine, choice: int, A: set<int>)
    requires Justified(m, f, G) && AboveGlobals(m, A) && MachineOutside(m, f, G, machine, A) && Runs(m, machine) && !Forges(m, machine, choice, A)
    requires !m.functions[Top(machine).f].code[Top(machine).pc].Alloca?
    ensures Outside(Computed(machine, Top(machine), m.functions[Top(machine).f].code[Top(machine).pc]), A)
  {
    var frame := Top(machine);
    assert FrameOutside(m, f, G, frame, A);
    hide Justified, AboveGlobals, EnvOutside, AllOutside;
    match m.functions[frame.f].code[frame.pc] {
      case Phi(incoming, _) =>
        forall k | 0 <= k < |incoming|
          ensures incoming[k].value in IncomingValues(incoming)
        {
          IncomingAt(incoming, k);
        }
        PhiOutside(m, f, G, frame, incoming, A);
      case Select(_, ifTrue, ifFalse, _) =>
        EvalOutside(m, f, G, frame, frame.env, ifTrue, A);
        EvalOutside(m, f, G, frame, frame.env, ifFalse, A);
      case Freeze(source, _) => EvalOutside(m, f, G, frame, frame.env, source, A);
      case _ =>
    }
  }

  lemma EvalAllOutside(m: Module, f: nat, G: set<Operand>, frame: Frame, ops: seq<Operand>, A: set<int>)
    requires Justified(m, f, G) && IsInst(m, frame.f, frame.pc) && AboveGlobals(m, A) && FrameOutside(m, f, G, frame, A)
    requires forall op :: op in ops ==> op in Operands(m.functions[frame.f].code[frame.pc]) && !MayNameSlot(m.functions[frame.f].code[frame.pc], op)
    ensures AllOutside(EvalAll(frame.args, frame.env, ops), A)
  {
    hide Justified, AboveGlobals, EnvOutside, Operands, MayNameSlot;
    var values := EvalAll(frame.args, frame.env, ops);
    forall i | 0 <= i < |values|
      ensures Outside(values[i], A)
    {
      EvalAllAt(frame.args, frame.env, ops, i);
      EvalOutside(m, f, G, frame, frame.env, ops[i], A);
    }
  }

  lemma CallOutside(m: Module, f: nat, G: set<Operand>, machine: Machine, callee: nat, values: seq<Value>, choice: int, A: set<int>)
    requires MachineOutside(m, f, G, machine, A) && Runs(m, machine) && AllOutside(values, A) && choice !in A
    ensures MachineOutside(m, f, G, CallFunction(m, machine, callee, values, choice), A)
  {
    if callee < |m.functions| && m.functions[callee].isDeclaration {
      AssignOutside(m, f, G, machine, ExternalResult(m.functions[callee], choice), A);
    } else if callee < |m.functions| {
      var entered := Enter(m, machine, callee, values);
      assert FrameOutside(m, f, G, entered.frames[|machine.frames|], A);
      hide FrameOutside, MemoryOutside, Arguments;
      assert forall k :: 0 <= k < |machine.frames| ==> entered.frames[k] == machine.frames[k];
    }
  }

  lemma ReturnOutside(m: Module, f: nat, G: set<Operand>, machine: Machine, v: Value, A: set<int>)
    requires MachineOutside(m, f, G, machine, A) && machine.frames != [] && Outside(v, A)
    ensures MachineOutside(m, f, G, Return(m, machine, v), A)
  {
    hide FrameOutside, MemoryOutside, Assign;
    var rest := machine.(frames := machine.frames[..|machine.frames| - 1]);
    assert MachineOutside(m, f, G, rest, A);
    if rest.frames != [] && IsInst(m, Top(rest).f, Top(rest).pc) {
      var v' := if Top(machine).f < |m.functions| then Coerce(m.functions[Top(machine).f].returnsPointer, v) else v;
      AssignOutside(m, f, G, rest, v', A);
    }
  }

  lemma BranchOutside(m: Module, f: nat, G: set<Operand>, machine: Machine, target: nat, A: set<int>)
    requires MachineOutside(m, f, G, machine, A) && machine.frames != []
    ensures MachineOutside(m, f, G, WithTop(machine, Top(machine).(pc := target, branch := Top(machine).pc, entry := Top(machine).env)), A)
  {
    assert FrameOutside(m, f, G, Top(machine), A);
    hide MachineOutside, EnvOutside, AllOutside, WithTop;
    TopOutside(m, f, G, machine, Top(machine).(pc := target, branch := Top(machine).pc, entry := Top(machine).env), A);
  }

  /** A stack allocation may give an address of A only to the searched variable it is for. */
  lemma AllocaOutside(m: Module, f: nat, G: set<Operand>, machine: Machine, choice: int, A: set<int>)
    requires MachineOutside(m, f, G, machine, A) && Runs(m, machine) && m.functions[Top(machine).f].code[Top(machine).pc].Alloca?
    requires machine.next in A ==> GoodSlot(m, f, G, Key(Top(machine).f, Result(Top(machine).pc)))
    ensures MachineOutside(m, f, G, Step(m, machine, choice), A)
  {
    hide FrameOutside, Assign, Followed;
    var grown := machine.(memory := machine.memory[machine.next := Undef], next := machine.next + 1);
    AssignOutside(m, f, G, grown, Pointer(FromRaw, machine.next), A);
  }

  lemma StoreOutside(m: Module, f: nat, G: set<Operand>, machine: Machine, choice: int, A: set<int>)
    requires Justified(m, f, G) && AboveGlobals(m, A) && MachineOutside(m, f, G, machine, A) && Runs(m, machine)
    requires m.functions[Top(machine).f].code[Top(machine).pc].Store?
    ensures MachineOutside(m, f, G, Step(m, machine, choice), A)
  {
    var frame := Top(machine);
    var inst := m.functions[frame.f].code[frame.pc];
    assert FrameOutside(m, f, G, frame, A);
    EvalOutside(m, f, G, frame, frame.env, inst.value, A);
    hide Justified, AboveGlobals, FrameOutside, Assign, Eval, IsPointer;
    AssignOutside(m, f, G, Effect(machine, frame, inst, StoresPointer(m, frame.f, inst)), Undef, A);
  }

  lemma CallStepOutside(m: Module, f: nat, G: set<Operand>, machine: Machine, choice: int, A: set<int>)
    requires Justified(m, f, G) && AboveGlobals(m, A) && MachineOutside(m, f, G, machine, A) && Runs(m, machine) && !Forges(m, machine, choice, A)
    requires var inst := m.functions[Top(machine).f].code[Top(machine).pc]; inst.Call? || inst.IndirectCall?
    ensures MachineOutside(m, f, G, Step(m, machine, choice), A)
  {
    var frame := Top(machine);
    var inst := m.functions[frame.f].code[frame.pc];
    assert FrameOutside(m, f, G, frame, A);
    EvalAllOutside(m, f, G, frame, inst.args, A);
    hide FrameOutside, CallFunction, EvalAll, Eval, Justified, AboveGlobals;
    var values := EvalAll(frame.args, frame.env, inst.args);
    if inst.Call? {
      CallOutside(m, f, G, machine, inst.callee, values, choice, A);
    } else {
      var k := IndirectTarget(m, Eval(frame.args, frame.env, inst.target));
      if k >= 0 { CallOutside(m, f, G, machine, k, values, choice, A); }
    }
  }

  /** The address of a searched variable spreads nowhere, unless it is forged. */
  lemma StepOutside(m: Module, f: nat, G: set<Operand>, machine: Machine, choice: int, A: set<int>)
    requires Justified(m, f, G) && AboveGlobals(m, A) && MachineOutside(m, f, G, machine, A) && !Forges(m, machine, choice, A)
    requires Runs(m, machine) && m.functions[Top(machine).f].code[Top(machine).pc].Alloca? && machine.next in A ==>
      GoodSlot(m, f, G, Key(Top(machine).f, Result(Top(machine).pc)))
    ensures MachineOutside(m, f, G, Step(m, machine, choice), A)
  {
    hide FrameOutside, Justified, AboveGlobals, Assign, WithTop, Return, CallFunction, Eval, EvalAll, Computed, Forges;
    if Runs(m, machine) {
      var frame := Top(machine);
      var inst := m.functions[frame.f].code[frame.pc];
      if inst.Alloca? {
        AllocaOutside(m, f, G, machine, choice, A);
      } else if inst.Store? {
        StoreOutside(m, f, G, machine, choice, A);
      } else if inst.Call? || inst.IndirectCall? {
        CallStepOutside(m, f, G, machine, choice, A);
      } else if inst.Br? {
        BranchOutside(m, f, G, machine, if Eval(frame.args, frame.env, inst.condition) == Int(0) then inst.onFalse else inst.onTrue, A);
      } else if inst.Ret? {
        FrameOfTopOutside(m, f, G, machine, A);
        EvalOutside(m, f, G, frame, frame.env, inst.value, A);
        ReturnOutside(m, f, G, machine, Eval(frame.args, frame.env, inst.value), A);
      } else {
        ComputedOutside(m, f, G, machine, choice, A);
        AssignOutside(m, f, G, machine, Computed(machine, frame, inst), A);
      }
    }
  }

  lemma FrameOfTopOutside(m: Module, f: nat, G: set<Operand>, machine: Machine, A: set<int>)
    requires MachineOutside(m, f, G, machine, A) && machine.frames != []
    ensures EnvOutside(m, f, G, Top(machine).f, Top(machine).env, A) && AllOutside(Top(machine).args, A)
  {
    assert FrameOutside(m, f, G, Top(machine), A);
  }

  /** Neither what the run starts from nor any of its steps has or makes a pointer into A. */
  ghost predicate Unforged(m: Module, start: Machine, choices: seq<int>, A: set<int>) {
    && (forall k :: 0 <= k < |start.frames| ==> AllOutside(start.frames[k].args, A)) && MemoryOutside(start.memory, A)
    && forall n :: 0 <= n < |choices| ==> !Forges(m, Run(m, start, choices[..n]), choices[n], A)
  }

  lemma {:induction false} RunOutside(m: Module, f: nat, G: set<Operand>, entry: nat, values: seq<Value>, memory: map<int, Value>, choices: seq<int>, n: nat)
    requires entry < |m.functions| && Justified(m, f, G) && GlobalsExist(m) && n <= |choices|
    requires var start := Start(m, entry, values, memory); Unforged(m, start, choices, SearchedMemory(m, f, G, Slots(m, start, choices)))
    ensures var start := Start(m, entry, values, memory);
      MachineOutside(m, f, G, Run(m, start, choices[..n]), SearchedMemory(m, f, G, Slots(m, start, choices)))
    decreases n
  {
    var start := Start(m, entry, values, memory);
    var A := SearchedMemory(m, f, G, Slots(m, start, choices));
    hide Slots, GoodSlot, Justified, GlobalsExist, Forges, AllOutside, MemoryOutside;
    if n == 0 {
      assert choices[..0] == [];
    } else {
      RunOutside(m, f, G, entry, values, memory, choices, n - 1);
      RunNames(m, entry, values, memory, choices);
      SlotOfStep(m, entry, values, memory, choices, n - 1);
      hide Start, MachineOutside, FramesName, Step;
      assert choices[..n][..n - 1] == choices[..n - 1] && choices[..n][n - 1] == choices[n - 1];
      assert Run(m, start, choices[..n]) == Step(m, Run(m, start, choices[..n - 1]), choices[n - 1]);
      StepOutside(m, f, G, Run(m, start, choices[..n - 1]), choices[n - 1], A);
    }
  }

  lemma StoreByName(m: Module, f: nat, G: set<Operand>, machine: Machine, slots: Owner, issued: set<int>, A: set<int>)
    requires Justified(m, f, G) && AboveGlobals(m, A) && MachineOutside(m, f, G, machine, A) && SlotsKept(m, machine, slots)
    requires SearchedMemory(m, f, G, slots) <= A
    ensures StoreIsHarmless(m, f, G, machine, slots, issued)
  {
    if Runs(m, machine) && m.functions[Top(machine).f].code[Top(machine).pc].Store? {
      var frame := Top(machine);
      var pointer := m.functions[frame.f].code[frame.pc].pointer;
      var p := Eval(frame.args, frame.env, pointer);
      FrameOfTopOutside(m, f, G, machine, A);
      FrameOfTop(m, machine, slots);
      hide MachineOutside, SlotsKept, Followed, Stripped, Justified;
      if p.Pointer? && p.address in slots && GoodSlot(m, f, G, slots[p.address]) {
        assert p.address in A;
        assert pointer in Operands(m.functions[frame.f].code[frame.pc]);
        assert pointer.Result? && frame.f == f && Followed(m, f, G, pointer.index);
        FollowedHolds(m, f, G, pointer.index);
        StripOfOther(m, f, pointer);
        assert Names(m, f, pointer, p, slots);
      }
    }
  }

  lemma SearchedLater(m: Module, f: nat, G: set<Operand>, entry: nat, values: seq<Value>, memory: map<int, Value>, choices: seq<int>, n: nat)
    requires entry < |m.functions| && GlobalsExist(m) && n <= |choices|
    ensures var start := Start(m, entry, values, memory);
      var A := SearchedMemory(m, f, G, Slots(m, start, choices));
      AboveGlobals(m, A) && SearchedMemory(m, f, G, Slots(m, start, choices[..n])) <= A
  {
    hide *;
    var start := Start(m, entry, values, memory);
    RunNames(m, entry, values, memory, choices);
    SlotsStay(m, entry, values, memory, choices, n);
    SearchedGrows(m, f, G, Run(m, start, choices), Slots(m, start, choices[..n]), Slots(m, start, choices));
  }

  lemma SearchedGrows(m: Module, f: nat, G: set<Operand>, machine: Machine, slots: Owner, more: Owner)
    requires GlobalsExist(m) && SlotsKept(m, machine, more) && forall a :: a in slots ==> a in more && more[a] == slots[a]
    ensures AboveGlobals(m, SearchedMemory(m, f, G, more)) && SearchedMemory(m, f, G, slots) <= SearchedMemory(m, f, G, more)
  {
    hide FramesName, GlobalsExist, Followed;
    assert forall a :: a in SearchedMemory(m, f, G, slots) ==> a in SearchedMemory(m, f, G, more);
  }

  lemma UnforgedStore(m: Module, f: nat, G: set<Operand>, entry: nat, values: seq<Value>, memory: map<int, Value>, choices: seq<int>, n: nat)
    requires entry < |m.functions| && Justified(m, f, G) && GlobalsExist(m) && n <= |choices|
    requires var start := Start(m, entry, values, memory); Unforged(m, start, choices, SearchedMemory(m, f, G, Slots(m, start, choices)))
    ensures var start := Start(m, entry, values, memory);
      StoreIsHarmless(m, f, G, Run(m, start, choices[..n]), Slots(m, start, choices[..n]), Issued(m, start, choices[..n]))
  {
    var start := Start(m, entry, values, memory);
    hide *;
    RunOutside(m, f, G, entry, values, memory, choices, n);
    RunNames(m, entry, values, memory, choices[..n]);
    SearchedLater(m, f, G, entry, values, memory, choices, n);
    StoreByName(m, f, G, Run(m, start, choices[..n]), Slots(m, start, choices[..n]), Issued(m, start, choices[..n]),
                SearchedMemory(m, f, G, Slots(m, start, choices)));
  }

  /** Programs of any kind, with pointers kept anywhere, have harmless stores as long as nobody makes
      the address of a searched variable by arithmetic or hands it in from outside. */
  lemma UnforgedIsHarmless(m: Module, f: nat, G: set<Operand>, entry: nat, values: seq<Value>, memory: map<int, Value>, choices: seq<int>)
    requires entry < |m.functions| && Justified(m, f, G) && GlobalsExist(m)
    requires var start := Start(m, entry, values, memory); Unforged(m, start, choices, SearchedMemory(m, f, G, Slots(m, start, choices)))
    ensures StoresAreHarmless(m, f, G, Start(m, entry, values, memory), choices)
  {
    hide Justified, GlobalsExist, Unforged, SearchedMemory, StoreIsHarmless, Start, Run, Slots, Issued;
    forall n | 0 <= n < |choices|
      ensures var start := Start(m, entry, values, memory);
        StoreIsHarmless(m, f, G, Run(m, start, choices[..n]), Slots(m, start, choices[..n]), Issued(m, start, choices[..n]))
    {
      UnforgedStore(m, f, G, entry, values, memory, choices, n);
    }
  }

  // ----- Programs whose pointers stay in tracked variables -----

  lemma TrackedStore(m: Module, f: nat, G: set<Operand>, machine: Machine, slots: Owner, issued: set<int>)
    requires TrackedOnly(m) && SlotsKept(m, machine, slots)
    ensures StoreIsHarmless(m, f, G, machine, slots, issued)
  {
    if Runs(m, machine) && m.functions[Top(machine).f].code[Top(machine).pc].Store? {
      var frame := Top(machine);
      var inst := m.functions[frame.f].code[frame.pc];
      assert IsPointer(m, frame.f, inst.value) ==> TrackedSlot(m, frame.f, inst.pointer).Some?;
      FrameOfTop(m, machine, slots);
      EvalNames(m, frame, frame.env, inst.pointer, slots);
      hide FramesName, FrameNames, TrackedOnly, Followed, Stripped, IsPointer, Eval;
    }
  }

  /** Nor can a store do harm where pointers are loaded from and stored to tracked variables only. */
  lemma TrackedIsHarmless(m: Module, f: nat, G: set<Operand>, entry: nat, values: seq<Value>, memory: map<int, Value>, choices: seq<int>)
    requires TrackedOnly(m) && entry < |m.functions|
    ensures StoresAreHarmless(m, f, G, Start(m, entry, values, memory), choices)
  {
    var start := Start(m, entry, values, memory);
    hide TrackedOnly, SlotsKept, StoreIsHarmless, Start, Run, Slots, Issued;
    forall n | 0 <= n < |choices|
      ensures StoreIsHarmless(m, f, G, Run(m, start, choices[..n]), Slots(m, start, choices[..n]), Issued(m, start, choices[..n]))
    {
      RunNames(m, entry, values, memory, choices[..n]);
      TrackedStore(m, f, G, Run(m, start, choices[..n]), Slots(m, start, choices[..n]), Issued(m, start, choices[..n]));
    }
  }

  // ----- A store that is not harmless -----

  /** Keeps a new array in a variable, and stores null through a pointer that external code returned. */
  const Overwrites: Module := Module([
    Function([], true, Ordinary, false, false, false, [
      Alloca(true), Call(1, []), Store(Result(1), Result(0)), Call(2, []), Store(Null, Result(3)), Inst.Load(Result(0), true), Ret(Result(5))
    ]),
    Function([], true, ArrayAllocator(false), true, false, false, []),
    Function([], true, Ordinary, true, false, false, [])
  ], [])

  lemma OverwritesHoldsOnly()
    ensures HoldsOnly(Overwrites, 0, 5, Result(0), {(2, 5)}, Result(1))
  {
    var m := Overwrites;
    StripOfOther(m, 0, Result(0));
    hide Stripped;
    assert m.functions[0].code[2] == Store(Result(1), Result(0)) && Result(0) in Operands(m.functions[0].code[2]);
  }

  lemma DerivesFrom(m: Module, f: nat, i: nat, dominates: set<(nat, nat)>, xs: seq<Operand>, ts: seq<Derivation>)
    requires Stripped(m, f, Result(i)) == Result(i) && IsPointer(m, f, Result(i)) && TakesFrom(m, f, i, dominates, xs) && |xs| == |ts|
    requires forall k :: 0 <= k < |xs| ==> Derives(m, f, xs[k], dominates, ts[k])
    ensures Derives(m, f, Result(i), dominates, From(Result(i), ts))
  {
    hide Stripped, IsPointer, TakesFrom;
  }

  lemma OverwritesTakes()
    ensures TakesFrom(Overwrites, 0, 1, {(2, 5)}, []) && TakesFrom(Overwrites, 0, 5, {(2, 5)}, [Result(1)])
  {
    OverwritesHoldsOnly();
    hide HoldsOnly;
  }

  lemma OverwritesDerives()
    ensures var t := From(Result(5), [From(Result(1), [])]);
      Derives(Overwrites, 0, Result(5), {(2, 5)}, t) && Distinct(Values(t))
  {
    hide Stripped, TakesFrom, Derives, Values, IsPointer;
    OverwritesTakes();
    OverwritesNames();
    DerivesFrom(Overwrites, 0, 1, {(2, 5)}, [], []);
    DerivesFrom(Overwrites, 0, 5, {(2, 5)}, [Result(1)], [From(Result(1), [])]);
    ChainValues(Result(5), Result(1));
  }

  lemma OverwritesNames()
    ensures Stripped(Overwrites, 0, Result(1)) == Result(1) && IsPointer(Overwrites, 0, Result(1))
    ensures Stripped(Overwrites, 0, Result(5)) == Result(5) && IsPointer(Overwrites, 0, Result(5))
  {
    StripOfOther(Overwrites, 0, Result(1));
    StripOfOther(Overwrites, 0, Result(5));
    hide Stripped;
  }

  lemma ChainValues(x: Operand, y: Operand)
    ensures Values(From(x, [From(y, [])])) == [x, y]
  {
    assert AllValues([]) == [] && Values(From(y, [])) == [y];
    assert [From(y, [])][..0] == [] && AllValues([From(y, [])]) == [y];
  }

  /** The machine after the first k instructions, when the outside returns 100 for the leaf and 1 for the pointer. */
  function Overwriting(k: nat): Machine {
    var env1 := map[0 := Pointer(FromRaw, 1)];
    var env2 := env1[1 := Pointer(FromArray, 100)];
    var env3 := env2[2 := Undef];
    var env4 := env3[3 := Pointer(FromRaw, 1)];
    var env5 := env4[4 := Undef];
    if k == 0 then Machine([Frame(0, 0, 0, [], map[], map[])], map[], 1, Running)
    else if k == 1 then Machine([Frame(0, 1, 0, [], env1, map[])], map[1 := Undef], 2, Running)
    else if k == 2 then Machine([Frame(0, 2, 0, [], env2, map[])], map[1 := Undef], 2, Running)
    else if k == 3 then Machine([Frame(0, 3, 0, [], env3, map[])], map[1 := Pointer(FromArray, 100)], 2, Running)
    else if k == 4 then Machine([Frame(0, 4, 0, [], env4, map[])], map[1 := Pointer(FromArray, 100)], 2, Running)
    else if k == 5 then Machine([Frame(0, 5, 0, [], env5, map[])], map[1 := Pointer(FromNull, 0)], 2, Running)
    else Machine([Frame(0, 6, 0, [], env5[5 := Pointer(FromNull, 0)], map[])], map[1 := Pointer(FromNull, 0)], 2, Running)
  }

  const Returned: seq<int> := [0, 100, 0, 1, 0, 0]

  lemma OverwritingCode()
    ensures var code := Overwrites.functions[0].code;
      code[0] == Alloca(true) && code[1] == Call(1, []) && code[2] == Store(Result(1), Result(0)) && code[3] == Call(2, [])
      && code[4] == Store(Null, Result(3)) && code[5] == Inst.Load(Result(0), true)
  {
  }

  lemma OverwritingFirstSteps(k: nat)
    requires k < 2
    ensures Step(Overwrites, Overwriting(k), Returned[k]) == Overwriting(k + 1)
  {
    OverwritingCode();
    if k == 0 {
    }
  }

  lemma OverwritingNextSteps(k: nat)
    requires 2 <= k < 4
    ensures Step(Overwrites, Overwriting(k), Returned[k]) == Overwriting(k + 1)
  {
    OverwritingCode();
    if k == 2 {
    }
  }

  lemma OverwritingLastSteps(k: nat)
    requires 4 <= k < 6
    ensures Step(Overwrites, Overwriting(k), Returned[k]) == Overwriting(k + 1)
  {
    OverwritingCode();
    if k == 4 {
    }
  }

  lemma OverwritingStart()
    ensures Start(Overwrites, 0, [], map[]) == Overwriting(0)
  {
    assert Arguments(Overwrites, 0, []) == [];
  }

  lemma {:induction false} OverwritingRun(k: nat)
    requires k <= 6
    ensures Run(Overwrites, Start(Overwrites, 0, [], map[]), Returned[..k]) == Overwriting(k)
  {
    OverwritingStart();
    hide Start, Overwriting, Step;
    if k > 0 {
      OverwritingRun(k - 1);
      if k <= 2 {
        OverwritingFirstSteps(k - 1);
      } else if k <= 4 {
        OverwritingNextSteps(k - 1);
      } else {
        OverwritingLastSteps(k - 1);
      }
      assert Returned[..k][..k - 1] == Returned[..k - 1];
    } else {
      assert Returned[..0] == [];
    }
  }

  lemma OverwritingEnd()
    ensures var run := Run(Overwrites, Start(Overwrites, 0, [], map[]), Returned);
      |run.frames| == 1 && run.frames[0].f == 0 && 5 in run.frames[0].env && run.frames[0].env[5] == Pointer(FromNull, 0)
  {
    hide Start, Run;
    OverwritingRun(6);
    assert Returned[..6] == Returned;
  }

  /** When the outside hands in the variable's address, the search calls a value an array base that is null. */
  lemma ForgedStoreBreaksSearch()
    ensures exists t :: Derives(Overwrites, 0, Result(5), {(2, 5)}, t) && Distinct(Values(t))
    ensures var run := Run(Overwrites, Start(Overwrites, 0, [], map[]), Returned);
      |run.frames| == 1 && run.frames[0].f == 0 && 5 in run.frames[0].env && run.frames[0].env[5] == Pointer(FromNull, 0)
  {
    hide *;
    OverwritesDerives();
    OverwritingEnd();
  }
}
