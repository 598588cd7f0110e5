/** From specialization to lowering: where the calls of a function agree, each pointer argument of a
    call fits the parameter type that lowering gives the function. */
module CallTyping {
  import opened ManagedIR
  import opened ManagedState
  import opened ManagedStateAnalysisModule
  import opened StateSolutions
  import opened DispatchCounting
  import opened ManagedDispatch
  import opened DispatchPass
  import Lowering = PointerLowering
  import Types = LoweringTypes

  predicate IsConcreteManagedKind(state: PointerState) {
    DispatchKind(state) == Object || DispatchKind(state) == Array
  }

  function PlainType(isPointer: bool): Lowering.Ty {
    if isPointer then Lowering.RawPointer else Lowering.Scalar
  }

  function PlainSignature(m: Module, f: nat): Lowering.Signature
    requires f < |m.functions|
  {
    var fn := m.functions[f];
    Lowering.Signature(seq(|fn.params|, k requires 0 <= k < |fn.params| => PlainType(fn.params[k])), PlainType(fn.returnsPointer))
  }

  /** buildReplacementType: pointers of a managed kind change their address space. */
  function ReplacementType(m: Module, f: nat, s: States): (r: Lowering.Signature)
    requires f < |m.functions|
    ensures |r.params| == |m.functions[f].params|
  {
    var fn := m.functions[f];
    Lowering.Signature(
      seq(|fn.params|, k requires 0 <= k < |fn.params| => Lowering.Spaced(PlainType(fn.params[k]), IsConcreteManagedKind(Get(s, ParamCell(f, k))))),
      Lowering.Spaced(PlainType(fn.returnsPointer), IsConcreteManagedKind(Get(s, ReturnCell(f)))))
  }

  /** Only a pointer that is certainly an object or certainly an array, null aside, changes its type. */
  predicate IsCertain(state: PointerState) {
    IsRaw !in state && (IsObject in state <==> IsArray !in state)
  }

  lemma ReplacementTypeIs(m: Module, f: nat, s: States)
    requires f < |m.functions|
    ensures forall k :: 0 <= k < |m.functions[f].params| ==>
      ReplacementType(m, f, s).params[k] ==
        (if !m.functions[f].params[k] then Lowering.Scalar
         else if IsCertain(Get(s, ParamCell(f, k))) then Lowering.ManagedPointer else Lowering.RawPointer)
    ensures ReplacementType(m, f, s).ret ==
      if !m.functions[f].returnsPointer then Lowering.Scalar
      else if IsCertain(Get(s, ReturnCell(f))) then Lowering.ManagedPointer else Lowering.RawPointer
  {
    forall state
      ensures IsConcreteManagedKind(state) <==> IsCertain(state)
    {
      var concrete := state - {IsNull};
      assert forall b :: b in concrete <==> b in state && b != IsNull;
    }
    hide DispatchKind, Get;
  }

  /** The block and position of each instruction of a function in the code that lowering sees. */
  type Layout = seq<(nat, nat)>

  function Named(layout: Layout, op: Operand): Lowering.Operand {
    match op
    case Null => Lowering.Null(Lowering.RawPointer)
    case Scalar(n) => Lowering.Constant(n)
    case Global(g) => Lowering.Global(g)
    case FunctionRef(f) => Lowering.FunctionRef(f)
    case Arg(k) => Lowering.Argument(k)
    case Result(i) => if i < |layout| then Lowering.Result(layout[i].0, layout[i].1) else Lowering.Undefined(Lowering.Scalar)
  }

  /** The code has the pointers of function g where the layout says. */
  ghost predicate IsLaidOut(m: Module, g: nat, layout: Layout, code: Lowering.Code) {
    g < |m.functions| && |layout| == |m.functions[g].code| && forall i: nat :: IsPointer(m, g, Result(i)) && i < |layout| ==>
      Lowering.IsInst(code, layout[i].0, layout[i].1) && code[layout[i].0][layout[i].1].ty == Lowering.RawPointer
  }

  /** What lowering is told of function g: the kinds of its values, and the replacement types of all functions. */
  ghost predicate KindsFrom(m: Module, g: nat, s: States, layout: Layout, kinds: Lowering.Kinds) {
    && (forall i: nat :: IsPointer(m, g, Result(i)) ==> (Named(layout, Result(i)) in kinds.values <==> IsConcreteManagedKind(ValueState(m, g, Result(i), s))))
    && |kinds.functions| == |m.functions| && forall f: nat :: f < |m.functions| ==> kinds.functions[f] == ReplacementType(m, f, s)
  }

  /** The type a pointer operand will have follows from its state. */
  lemma DeclaredByState(m: Module, g: nat, s: States, layout: Layout, code: Lowering.Code, kinds: Lowering.Kinds, op: Operand)
    requires IsLaidOut(m, g, layout, code) && KindsFrom(m, g, s, layout, kinds) && IsPointer(m, g, op) && op != Null
    ensures Types.Declared(PlainSignature(m, g), ReplacementType(m, g, s), kinds, code, Named(layout, op)) ==
      Lowering.Spaced(Lowering.RawPointer, IsConcreteManagedKind(ValueState(m, g, op, s)))
  {
    if op.Global? || op.FunctionRef? {
      assert {IsRaw} - {IsNull} == {IsRaw};
    }
  }

  /** Adding `back` to a state leaves it in its address space: a state of a managed kind has to keep its
      kind, one of no kind must not become managed, and a raw one cannot. */
  predicate KeepsSpace(passed: PointerState, back: PointerState) {
    match DispatchKind(passed)
    case Raw => true
    case Object => back <= {IsNull, IsObject}
    case Array => back <= {IsNull, IsArray}
    case Unknown => !IsConcreteManagedKind(passed + back)
  }

  lemma KeepsSpaceIff(passed: PointerState, back: PointerState)
    ensures KeepsSpace(passed, back) <==> IsConcreteManagedKind(passed + back) == IsConcreteManagedKind(passed)
  {
    LeavesKindIff(passed, back);
    if DispatchKind(passed) == Raw {
      assert IsRaw in (passed + back) - {IsNull};
    } else if DispatchKind(passed) == Object {
      assert IsObject in (passed + back) - {IsNull};
    } else if DispatchKind(passed) == Array {
      assert IsArray in (passed + back) - {IsNull};
    }
  }

  lemma FitsByParam(m: Module, s: States, g: nat, i: nat, c: nat, index: nat, layout: Layout, code: Lowering.Code, kinds: Lowering.Kinds, back: PointerState)
    requires AgreeAt(m, s, c) && c < |m.functions| && ShouldSpecialize(m.functions[c]) && PassesTo(m, g, i, c, index)
    requires index < |m.functions[c].params| && m.functions[c].params[index]
    requires IsLaidOut(m, g, layout, code) && KindsFrom(m, g, s, layout, kinds)
    requires Get(s, ParamCell(c, index)) == AllPassed(m, s, c, index) + back
    ensures var op := m.functions[g].code[i].args[index];
      Types.Fits(PlainSignature(m, g), ReplacementType(m, g, s), kinds, code, Named(layout, op), kinds.functions[c].params[index])
      <==> op == Null || KeepsSpace(AllPassed(m, s, c, index), back)
  {
    var op := m.functions[g].code[i].args[index];
    hide AgreeAt, DispatchKind, Get, IsLaidOut, AllPassed, KeepsSpace, ShouldSpecialize;
    assert kinds.functions[c] == ReplacementType(m, c, s);
    if op != Null {
      AllPassedHasKind(m, s, c, index, g, i);
      KeepsSpaceIff(AllPassed(m, s, c, index), back);
      DeclaredByState(m, g, s, layout, code, kinds, op);
    }
  }

  /** At a direct call of a function whose calls agree, an argument other than a literal null fits the
      parameter of the function's replacement, which lowering by itself does not check, exactly when what
      was sent back into the parameter leaves its address space. */
  lemma ArgumentFitsIff(m: Module, trail: seq<Visit>, g: nat, i: nat, c: nat, index: nat, layout: Layout, code: Lowering.Code, kinds: Lowering.Kinds)
    requires (forall v :: v in trail ==> IsVisit(m, v)) && Closed(m, Replay(m, trail)) && AgreeAt(m, Replay(m, trail), c)
    requires c < |m.functions| && ShouldSpecialize(m.functions[c]) && PassesTo(m, g, i, c, index)
    requires index < |m.functions[c].params| && m.functions[c].params[index]
    requires IsLaidOut(m, g, layout, code) && KindsFrom(m, g, Replay(m, trail), layout, kinds)
    ensures var s, op := Replay(m, trail), m.functions[g].code[i].args[index];
      Types.Fits(PlainSignature(m, g), ReplacementType(m, g, s), kinds, code, Named(layout, op), kinds.functions[c].params[index])
      <==> op == Null || KeepsSpace(AllPassed(m, s, c, index), FlowedBack(m, trail, c, index))
  {
    hide *;
    ParamIsPassedAndFlowed(m, trail, c, index);
    FitsByParam(m, Replay(m, trail), g, i, c, index, layout, code, kinds, FlowedBack(m, trail, c, index));
  }

  /** Where pointers are kept in tracked variables, exactly when the managed states of the variables the
      parameter is stored in do. */
  lemma TrackedArgumentFitsIff(m: Module, trail: seq<Visit>, g: nat, i: nat, c: nat, index: nat, layout: Layout, code: Lowering.Code,
                               kinds: Lowering.Kinds)
    requires (forall v :: v in trail ==> IsVisit(m, v)) && Closed(m, Replay(m, trail)) && AgreeAt(m, Replay(m, trail), c)
    requires c < |m.functions| && ShouldSpecialize(m.functions[c]) && PassesTo(m, g, i, c, index)
    requires index < |m.functions[c].params| && m.functions[c].params[index]
    requires IsLaidOut(m, g, layout, code) && KindsFrom(m, g, Replay(m, trail), layout, kinds)
    requires TrackedOnly(m)
    ensures var s, op := Replay(m, trail), m.functions[g].code[i].args[index];
      Types.Fits(PlainSignature(m, g), ReplacementType(m, g, s), kinds, code, Named(layout, op), kinds.functions[c].params[index])
      <==> op == Null || KeepsSpace(AllPassed(m, s, c, index), StoredBack(m, c, index, s))
  {
    hide *;
    ParamIsPassedAndStored(m, trail, c, index);
    FitsByParam(m, Replay(m, trail), g, i, c, index, layout, code, kinds, StoredBack(m, c, index, Replay(m, trail)));
  }

  // ----- Other flows of pointers -----

  /** Instruction i of g hands its operand on to a table entry: to its own result, to what the function
      returns, or to the variable it is stored in. */
  predicate HandsOn(m: Module, g: nat, i: nat, op: Operand, to: Cell) {
    IsInst(m, g, i) && IsPointer(m, g, op) &&
    match m.functions[g].code[i]
    case Phi(incoming, isPointer) => isPointer && to == ValueCell(Key(g, Result(i))) && exists k :: 0 <= k < |incoming| && incoming[k].value == op
    case Select(_, ifTrue, ifFalse, isPointer) => isPointer && to == ValueCell(Key(g, Result(i))) && (op == ifTrue || op == ifFalse)
    case Freeze(source, isPointer) => isPointer && to == ValueCell(Key(g, Result(i))) && op == source
    case Ret(value) => to == ReturnCell(g) && op == value
    case Store(value, pointer) => TrackedSlot(m, g, pointer).Some? && to == SlotCell(TrackedSlot(m, g, pointer).value) && op == value
    case _ => false
  }

  lemma HandedOnArrives(m: Module, s: States, g: nat, i: nat, op: Operand, to: Cell)
    requires Solution(m, s) && HandsOn(m, g, i, op, to)
    ensures ValueState(m, g, op, s) <= Get(s, to)
  {
    assert Holds(m, g, i, s);
    hide Solution, ValueState, TrackedSlot, LocationState;
  }

  /** In the final tables an operand handed on by a phi, a select, a freeze, a return or a store to a
      variable fits the type its destination gets exactly when, the destination being managed, the operand
      may be more than null and, the destination not being managed, neither is the operand. */
  lemma HandedOnFitsIff(m: Module, trail: seq<Visit>, g: nat, i: nat, op: Operand, to: Cell, layout: Layout, code: Lowering.Code, kinds: Lowering.Kinds)
    requires (forall v :: v in trail ==> IsVisit(m, v)) && Closed(m, Replay(m, trail)) && HandsOn(m, g, i, op, to) && op != Null
    requires IsLaidOut(m, g, layout, code) && KindsFrom(m, g, Replay(m, trail), layout, kinds)
    ensures var s := Replay(m, trail);
      var state, target := ValueState(m, g, op, s), Get(s, to);
      Types.Fits(PlainSignature(m, g), ReplacementType(m, g, s), kinds, code, Named(layout, op),
                 Lowering.Spaced(Lowering.RawPointer, IsConcreteManagedKind(target)))
      <==> if IsConcreteManagedKind(target) then !(state <= {IsNull}) else !IsConcreteManagedKind(state)
  {
    var s := Replay(m, trail);
    ClosedIsSolution(m, s);
    HandedOnArrives(m, s, g, i, op, to);
    if IsConcreteManagedKind(Get(s, to)) { PartHasKind(ValueState(m, g, op, s), Get(s, to)); }
    DeclaredByState(m, g, s, layout, code, kinds, op);
    hide Closed, Replay, Solution, IsLaidOut, KindsFrom, HandsOn, IsConcreteManagedKind, ValueState, Get;
  }

  /** Part of a state of a managed kind has that kind too, unless it is no more than null. */
  lemma PartHasKind(part: PointerState, whole: PointerState)
    requires part <= whole && IsConcreteManagedKind(whole)
    ensures IsConcreteManagedKind(part) <==> !(part <= {IsNull})
  {
    var some, all := part - {IsNull}, whole - {IsNull};
    if !(part <= {IsNull}) {
      var b :| b in part && b != IsNull;
      assert b in some && some <= all;
      assert some == all;
    }
  }
}
