/** Modules that differ in which copy of a function a call names, and why such modules run alike. */
module Renaming {
  import opened ManagedIR
  import opened IRMachine

  /** Every direct call names a function of the module. */
  ghost predicate WellFormed(m: Module) {
    forall f: nat, i: nat :: IsInst(m, f, i) && m.functions[f].code[i].Call? ==> m.functions[f].code[i].callee < |m.functions|
  }

  /** origin[k] is the function that function k is a copy of. */
  type Origin = seq<nat>

  predicate SameHeader(a: Function, b: Function) {
    && a.params == b.params && a.returnsPointer == b.returnsPointer && a.isDeclaration == b.isDeclaration
    && a.hasAddressTaken == b.hasAddressTaken && a.isVarArg == b.isVarArg && |a.code| == |b.code|
    && (a.isDeclaration ==> a.role == b.role)
  }

  predicate SameInst(a: Inst, b: Inst, origin: Origin) {
    if a.Call? && b.Call? then a.callee < |origin| && origin[a.callee] == b.callee && a.args == b.args
    else a == b
  }

  ghost predicate CopyOf(m': Module, m: Module, origin: Origin, k: nat)
    requires |origin| == |m'.functions| && k < |origin|
  {
    && origin[k] < |m.functions| && SameHeader(m'.functions[k], m.functions[origin[k]])
    && (forall i :: 0 <= i < |m'.functions[k].code| ==> SameInst(m'.functions[k].code[i], m.functions[origin[k]].code[i], origin))
    && (k < |m.functions| ==> origin[k] == k && m'.functions[k].role == m.functions[k].role)
    && (k >= |m.functions| ==> !m'.functions[k].hasAddressTaken && m'.functions[k].role == Ordinary)
  }

  /** Naming every copy after its original turns m' back into m. */
  ghost predicate Renames(m': Module, m: Module, origin: Origin) {
    && |origin| == |m'.functions| && |m'.functions| >= |m.functions| && m'.globals == m.globals
    && forall k :: 0 <= k < |origin| ==> CopyOf(m', m, origin, k)
  }

  lemma RenamesItself(m: Module, origin: Origin)
    requires WellFormed(m) && |origin| == |m.functions| && forall k :: 0 <= k < |origin| ==> origin[k] == k
    ensures Renames(m, m, origin)
  {
    forall k | 0 <= k < |origin|
      ensures CopyOf(m, m, origin, k)
    {
      forall i | 0 <= i < |m.functions[k].code|
        ensures SameInst(m.functions[k].code[i], m.functions[k].code[i], origin)
      {
        assert IsInst(m, k, i);
      }
    }
  }

  function Compose(inner: Origin, outer: Origin): (r: Origin)
    requires forall k :: 0 <= k < |inner| ==> inner[k] < |outer|
    ensures |r| == |inner| && forall k :: 0 <= k < |r| ==> r[k] == outer[inner[k]]
  {
    seq(|inner|, k requires 0 <= k < |inner| => outer[inner[k]])
  }

  lemma RenamesTransitive(m2: Module, m1: Module, m0: Module, inner: Origin, outer: Origin)
    requires Renames(m2, m1, inner) && Renames(m1, m0, outer)
    ensures forall k :: 0 <= k < |inner| ==> inner[k] < |outer|
    ensures Renames(m2, m0, Compose(inner, outer))
  {
    forall k | 0 <= k < |inner|
      ensures inner[k] < |outer|
    {
      assert CopyOf(m2, m1, inner, k);
    }
    var origin := Compose(inner, outer);
    forall k | 0 <= k < |inner|
      ensures CopyOf(m2, m0, origin, k)
    {
      assert CopyOf(m2, m1, inner, k) && CopyOf(m1, m0, outer, inner[k]);
      forall i | 0 <= i < |m2.functions[k].code|
        ensures SameInst(m2.functions[k].code[i], m0.functions[origin[k]].code[i], origin)
      {
        assert SameInst(m2.functions[k].code[i], m1.functions[inner[k]].code[i], inner);
        assert SameInst(m1.functions[inner[k]].code[i], m0.functions[outer[inner[k]]].code[i], outer);
      }
      if k >= |m0.functions| {
        assert k < |m1.functions| ==> inner[k] == k;
      }
    }
  }

  // ----- Runs -----

  ghost predicate FramesIn(m: Module, frames: seq<Frame>) {
    forall k :: 0 <= k < |frames| ==> frames[k].f < |m.functions|
  }

  function RenamedFrame(frame: Frame, origin: Origin): Frame {
    if frame.f < |origin| then frame.(f := origin[frame.f]) else frame
  }

  function RenamedFrames(frames: seq<Frame>, origin: Origin): (r: seq<Frame>)
    ensures |r| == |frames| && forall k :: 0 <= k < |r| ==> r[k] == RenamedFrame(frames[k], origin)
  {
    seq(|frames|, k requires 0 <= k < |frames| => RenamedFrame(frames[k], origin))
  }

  /** The machine with every frame running the original of its function. */
  function Renamed(s: Machine, origin: Origin): Machine {
    s.(frames := RenamedFrames(s.frames, origin))
  }

  lemma SameTypes(m': Module, m: Module, origin: Origin, f: nat, op: Operand)
    requires Renames(m', m, origin) && f < |m'.functions|
    ensures IsPointer(m', f, op) == IsPointer(m, origin[f], op)
  {
    assert CopyOf(m', m, origin, f);
    if op.Result? && op.index < |m'.functions[f].code| {
      SameResultType(m', m, origin, f, op.index);
    }
  }

  lemma SameResultType(m': Module, m: Module, origin: Origin, f: nat, i: nat)
    requires Renames(m', m, origin) && IsInst(m', f, i)
    ensures IsInst(m, origin[f], i) && SameInst(m'.functions[f].code[i], m.functions[origin[f]].code[i], origin)
    ensures ResultIsPointer(m', m'.functions[f].code[i]) == ResultIsPointer(m, m.functions[origin[f]].code[i])
  {
    assert CopyOf(m', m, origin, f);
    var a := m'.functions[f].code[i];
    if a.Call? { assert CopyOf(m', m, origin, a.callee); }
  }

  lemma TopIsRenamed(m': Module, s: Machine, origin: Origin)
    requires |origin| == |m'.functions| && s.frames != [] && FramesIn(m', s.frames)
    ensures Renamed(s, origin).frames != [] && Top(Renamed(s, origin)) == Top(s).(f := origin[Top(s).f])
    ensures RenamedFrames(s.frames[..|s.frames| - 1], origin) == Renamed(s, origin).frames[..|s.frames| - 1]
  {
  }

  lemma WithTopIsRenamed(m': Module, s: Machine, origin: Origin, frame: Frame)
    requires |origin| == |m'.functions| && s.frames != [] && FramesIn(m', s.frames) && frame.f < |origin|
    ensures Renamed(WithTop(s, frame), origin) == WithTop(Renamed(s, origin), frame.(f := origin[frame.f]))
    ensures FramesIn(m', WithTop(s, frame).frames)
  {
    TopIsRenamed(m', s, origin);
    var a, b := Renamed(WithTop(s, frame), origin).frames, WithTop(Renamed(s, origin), frame.(f := origin[frame.f])).frames;
    assert |a| == |b|;
    forall k | 0 <= k < |a|
      ensures a[k] == b[k]
    {
    }
  }

  lemma AssignIsRenamed(m': Module, m: Module, origin: Origin, s: Machine, v: Value)
    requires Renames(m', m, origin) && s.frames != [] && FramesIn(m', s.frames) && IsInst(m', Top(s).f, Top(s).pc)
    ensures Renamed(s, origin).frames != [] && IsInst(m, Top(Renamed(s, origin)).f, Top(Renamed(s, origin)).pc)
    ensures Renamed(Assign(m', s, v), origin) == Assign(m, Renamed(s, origin), v) && FramesIn(m', Assign(m', s, v).frames)
  {
    assert |origin| == |m'.functions|;
    hide Renames;
    TopIsRenamed(m', s, origin);
    var frame := Top(s);
    SameResultType(m', m, origin, frame.f, frame.pc);
    var isPointer := ResultIsPointer(m', m'.functions[frame.f].code[frame.pc]);
    WithTopIsRenamed(m', s, origin, frame.(pc := frame.pc + 1, env := frame.env[frame.pc := Coerce(isPointer, v)]));
  }

  lemma CallIsRenamed(m': Module, m: Module, origin: Origin, s: Machine, callee: nat, values: seq<Value>, choice: int)
    requires Renames(m', m, origin) && s.frames != [] && FramesIn(m', s.frames) && IsInst(m', Top(s).f, Top(s).pc) && callee < |m'.functions|
    ensures Renamed(s, origin).frames != [] && IsInst(m, Top(Renamed(s, origin)).f, Top(Renamed(s, origin)).pc)
    ensures origin[callee] < |m.functions|
    ensures Renamed(CallFunction(m', s, callee, values, choice), origin) == CallFunction(m, Renamed(s, origin), origin[callee], values, choice)
    ensures FramesIn(m', CallFunction(m', s, callee, values, choice).frames)
  {
    assert CopyOf(m', m, origin, callee);
    AssignIsRenamed(m', m, origin, s, Undef);
    if m'.functions[callee].isDeclaration {
      AssignIsRenamed(m', m, origin, s, ExternalResult(m'.functions[callee], choice));
    } else {
      assert Arguments(m', callee, values) == Arguments(m, origin[callee], values);
      hide Renames, Arguments;
      var a, b := Renamed(Enter(m', s, callee, values), origin).frames, Enter(m, Renamed(s, origin), origin[callee], values).frames;
      assert a == b;
    }
  }

  lemma ReturnIsRenamed(m': Module, m: Module, origin: Origin, s: Machine, v: Value)
    requires Renames(m', m, origin) && s.frames != [] && FramesIn(m', s.frames)
    ensures Renamed(s, origin).frames != []
    ensures Renamed(Return(m', s, v), origin) == Return(m, Renamed(s, origin), v) && FramesIn(m', Return(m', s, v).frames)
  {
    TopIsRenamed(m', s, origin);
    assert CopyOf(m', m, origin, Top(s).f);
    var v' := Coerce(m'.functions[Top(s).f].returnsPointer, v);
    var rest := s.(frames := s.frames[..|s.frames| - 1]);
    assert FramesIn(m', rest.frames);
    if rest.frames != [] {
      TopIsRenamed(m', rest, origin);
      assert CopyOf(m', m, origin, Top(rest).f);
      if IsInst(m', Top(rest).f, Top(rest).pc) { AssignIsRenamed(m', m, origin, rest, v'); }
    }
  }

  /** An indirect call reaches the same function in both: copies are never called indirectly. */
  lemma IndirectIsRenamed(m': Module, m: Module, origin: Origin, target: Value)
    requires Renames(m', m, origin)
    ensures IndirectTarget(m', target) == IndirectTarget(m, target)
    ensures IndirectTarget(m', target) >= 0 ==> origin[IndirectTarget(m', target)] == IndirectTarget(m', target)
  {
    if target.Pointer? && target.address < 0 && -1 - target.address < |m'.functions| {
      assert CopyOf(m', m, origin, -1 - target.address);
    }
  }

  /** One step of the renamed machine is the renaming of one step. */
  lemma StepIsRenamed(m': Module, m: Module, origin: Origin, s: Machine, choice: int)
    requires Renames(m', m, origin) && FramesIn(m', s.frames)
    ensures Renamed(Step(m', s, choice), origin) == Step(m, Renamed(s, origin), choice) && FramesIn(m', Step(m', s, choice).frames)
  {
    if s.outcome == Running && s.frames != [] {
      TopIsRenamed(m', s, origin);
      var frame := Top(s);
      assert CopyOf(m', m, origin, frame.f);
      if IsInst(m', frame.f, frame.pc) {
        SameResultType(m', m, origin, frame.f, frame.pc);
        hide Assign, CallFunction, Return, Renamed, CopyOf, Eval, Top, IndirectTarget, Renames, EvalAll;
        var inst := m'.functions[frame.f].code[frame.pc];
        if inst.Call? {
          CallIsRenamed(m', m, origin, s, inst.callee, EvalAll(frame.args, frame.env, inst.args), choice);
        } else if inst.Ret? {
          ReturnIsRenamed(m', m, origin, s, Eval(frame.args, frame.env, inst.value));
        } else {
          OtherStepIsRenamed(m', m, origin, s, choice);
        }
      }
    }
  }

  lemma OtherStepIsRenamed(m': Module, m: Module, origin: Origin, s: Machine, choice: int)
    requires Renames(m', m, origin) && FramesIn(m', s.frames) && s.outcome == Running && s.frames != [] && IsInst(m', Top(s).f, Top(s).pc)
    requires var inst := m'.functions[Top(s).f].code[Top(s).pc]; !inst.Call? && !inst.Ret?
    ensures Renamed(Step(m', s, choice), origin) == Step(m, Renamed(s, origin), choice) && FramesIn(m', Step(m', s, choice).frames)
  {
    TopIsRenamed(m', s, origin);
    var frame := Top(s);
    assert CopyOf(m', m, origin, frame.f);
    var inst := m'.functions[frame.f].code[frame.pc];
    SameResultType(m', m, origin, frame.f, frame.pc);
    if inst.IndirectCall? {
      hide CallFunction, Renames, IndirectTarget, Assign, CopyOf, Eval, EvalAll;
      var target := Eval(frame.args, frame.env, inst.target);
      IndirectIsRenamed(m', m, origin, target);
      var k := IndirectTarget(m', target);
      if k >= 0 {
        CallIsRenamed(m', m, origin, s, k, EvalAll(frame.args, frame.env, inst.args), choice);
      }
    } else if inst.Br? {
      hide Renames, Assign, CopyOf, Eval;
      var target := if Eval(frame.args, frame.env, inst.condition) == Int(0) then inst.onFalse else inst.onTrue;
      WithTopIsRenamed(m', s, origin, frame.(pc := target, branch := frame.pc, entry := frame.env));
    } else {
      EffectIsRenamed(m', m, origin, s, inst);
      hide Renames, Assign, CopyOf, Eval, Effect, Computed, StoresPointer;
      AssignIsRenamed(m', m, origin, Effect(s, frame, inst, StoresPointer(m', frame.f, inst)), Computed(s, frame, inst));
    }
  }

  lemma EffectIsRenamed(m': Module, m: Module, origin: Origin, s: Machine, inst: Inst)
    requires Renames(m', m, origin) && FramesIn(m', s.frames) && s.frames != []
    ensures var frame, r := Top(s), Renamed(s, origin);
      && r.frames != []
      && Computed(r, Top(r), inst) == Computed(s, frame, inst)
      && StoresPointer(m', frame.f, inst) == StoresPointer(m, Top(r).f, inst)
      && Renamed(Effect(s, frame, inst, StoresPointer(m', frame.f, inst)), origin) == Effect(r, Top(r), inst, StoresPointer(m, Top(r).f, inst))
      && Effect(s, frame, inst, StoresPointer(m', frame.f, inst)).frames == s.frames
  {
    TopIsRenamed(m', s, origin);
    if inst.Store? { SameTypes(m', m, origin, Top(s).f, inst.value); }
    hide Renames, IsPointer;
    if inst.Phi? { PhiIsRenamed(Top(s), origin[Top(s).f], inst.incoming); }
  }

  lemma {:induction false} PhiIsRenamed(frame: Frame, f: nat, incoming: seq<Incoming>)
    ensures PhiValue(frame.(f := f), incoming) == PhiValue(frame, incoming)
  {
    if incoming != [] { PhiIsRenamed(frame, f, incoming[1..]); }
  }

  // ----- Meaning -----

  lemma {:induction false} RunIsRenamed(m': Module, m: Module, origin: Origin, s: Machine, choices: seq<int>)
    requires Renames(m', m, origin) && FramesIn(m', s.frames)
    ensures Renamed(Run(m', s, choices), origin) == Run(m, Renamed(s, origin), choices) && FramesIn(m', Run(m', s, choices).frames)
  {
    hide Renames, FramesIn, Renamed, Step;
    if choices != [] {
      RunIsRenamed(m', m, origin, s, choices[..|choices| - 1]);
      StepIsRenamed(m', m, origin, Run(m', s, choices[..|choices| - 1]), choices[|choices| - 1]);
    }
  }

  /** Running any original function, for any number of steps and whatever external code returns,
      goes through the same states in both modules, frame for frame, up to the names of copies: the
      same memory, the same values, the same outcome. */
  lemma MeaningIsKept(m': Module, m: Module, origin: Origin, f: nat, values: seq<Value>, memory: map<int, Value>, choices: seq<int>)
    requires Renames(m', m, origin) && f < |m.functions|
    ensures f < |m'.functions|
    ensures var r', r := Run(m', Start(m', f, values, memory), choices), Run(m, Start(m, f, values, memory), choices);
      r'.outcome == r.outcome && r'.memory == r.memory && r'.next == r.next && r.frames == RenamedFrames(r'.frames, origin)
  {
    assert CopyOf(m', m, origin, f);
    var start', start := Start(m', f, values, memory), Start(m, f, values, memory);
    assert Arguments(m', f, values) == Arguments(m, f, values);
    hide Arguments, Run, CopyOf;
    assert Renamed(start', origin).frames == start.frames;
    RunIsRenamed(m', m, origin, start', choices);
  }
}
