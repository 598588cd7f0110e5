/** When lowering succeeds and gives every pointer the address space of its kind: the kinds the
    analysis reports must agree wherever a value of one instruction is an operand of another. */
module LoweringTypes {
  import opened PointerLowering

  /** The type a value should have afterwards: managed exactly when its kind is. */
  function Declared(sig: Signature, newSig: Signature, kinds: Kinds, code: Code, op: Operand): Ty {
    match op
    case Argument(k) => if k < |newSig.params| then newSig.params[k] else Void
    case Result(_, _) => Spaced(TypeOf(sig, code, op), op in kinds.values)
    case _ => TypeOf(sig, code, op)
  }

  function AllDeclared(sig: Signature, newSig: Signature, kinds: Kinds, code: Code, ops: seq<Operand>): (r: seq<Ty>)
    ensures |r| == |ops| && forall k :: 0 <= k < |r| ==> r[k] == Declared(sig, newSig, kinds, code, ops[k])
  {
    seq(|ops|, k requires 0 <= k < |ops| => Declared(sig, newSig, kinds, code, ops[k]))
  }

  /** A comparison takes both sides in the space of the side that is a value of the function. */
  function SidesNeeded(sig: Signature, newSig: Signature, kinds: Kinds, code: Code, left: Operand, right: Operand): seq<Ty> {
    var l, r := Declared(sig, newSig, kinds, code, left), Declared(sig, newSig, kinds, code, right);
    if IsLocal(left) && IsPointer(l) then [l, l]
    else if IsLocal(right) && IsPointer(r) then [r, r]
    else [TypeOf(sig, code, left), TypeOf(sig, code, right)]
  }

  /** The types the operands of an instruction must end up with. */
  function Needed(sig: Signature, newSig: Signature, kinds: Kinds, code: Code, b: nat, i: nat): (r: seq<Ty>)
    requires IsInst(code, b, i)
    ensures |r| == |code[b][i].operands|
  {
    var instr := code[b][i];
    var ops := instr.operands;
    var own := Types(sig, code, ops);
    var result := Spaced(instr.ty, Result(b, i) in kinds.values);
    match instr.op
    case Load => AllDeclared(sig, newSig, kinds, code, ops)
    case Gep => AllDeclared(sig, newSig, kinds, code, ops)
    case Store =>
      if |ops| == 2 then [StoredType(Context(sig, newSig, kinds, code, [], map[]), ops[0], ops[1]), Declared(sig, newSig, kinds, code, ops[1])] else own
    case Select => if |ops| == 3 then [own[0], result, result] else own
    case Freeze => if |ops| == 1 then [result] else own
    case Phi => seq(|ops|, k requires 0 <= k < |ops| => result)
    case ICmp(_) =>
      if |ops| == 2 && (IsPointer(own[0]) || IsPointer(own[1])) then SidesNeeded(sig, newSig, kinds, code, ops[0], ops[1]) else own
    case DirectCall(f) =>
      if f < |kinds.functions| then ArgumentTypes(kinds.functions[f], AllDeclared(sig, newSig, kinds, code, ops)) else own
    case Return => if |ops| == 1 then [newSig.ret] else own
    case _ => own
  }

  /** Operand op can take type ty: a value has one type, null and undef take any, other constants their own. */
  predicate Fits(sig: Signature, newSig: Signature, kinds: Kinds, code: Code, op: Operand, ty: Ty) {
    match op
    case Null(_) => IsPointer(ty)
    case Undefined(_) => true
    case _ => Declared(sig, newSig, kinds, code, op) == ty
  }

  /** The kind of the result follows from the operands or the callee, where it is not free. */
  predicate ResultFits(sig: Signature, newSig: Signature, kinds: Kinds, code: Code, b: nat, i: nat)
    requires IsInst(code, b, i)
  {
    var instr := code[b][i];
    var result := Spaced(instr.ty, Result(b, i) in kinds.values);
    match instr.op
    case Load => true
    case Phi => true
    case Select => |instr.operands| == 3
    case Freeze => |instr.operands| == 1
    case Gep => instr.operands != [] && Declared(sig, newSig, kinds, code, instr.operands[0]) == result
    case DirectCall(f) => f < |kinds.functions| && kinds.functions[f].ret == result
    case _ => instr.ty == result
  }

  predicate CoherentAt(sig: Signature, newSig: Signature, kinds: Kinds, code: Code, b: nat, i: nat)
    requires IsInst(code, b, i)
  {
    && ResultFits(sig, newSig, kinds, code, b, i)
    && IsSupported(Context(sig, newSig, kinds, code, [], map[]), b, i)
    && forall k :: 0 <= k < |code[b][i].operands| ==>
         Fits(sig, newSig, kinds, code, code[b][i].operands[k], Needed(sig, newSig, kinds, code, b, i)[k])
  }

  /** The kinds agree at every instruction that is kept. */
  ghost predicate Coherent(sig: Signature, newSig: Signature, kinds: Kinds, code: Code) {
    forall b: nat, i: nat :: IsInst(code, b, i) && !code[b][i].op.DebugCall? ==> CoherentAt(sig, newSig, kinds, code, b, i)
  }

  /** Every mapped value has its declared type. */
  ghost predicate ValuesTyped(c: Context) {
    forall op :: op in c.values ==>
      c.values[op] == Shift(c.original, op) && IsLocal(op) && NewType(c, c.values[op]) == Declared(c.sig, c.newSig, c.kinds, c.original, op)
  }

  /** A new instruction has the declared result type and operands of the needed types. */
  predicate InstrTyped(c: Context, b: nat, i: nat, instr: Instr)
    requires IsInst(c.original, b, i)
  {
    && instr.ty == Spaced(c.original[b][i].ty, Result(b, i) in c.kinds.values)
    && OperandsTyped(c, b, i, instr.operands)
  }

  predicate OperandsTyped(c: Context, b: nat, i: nat, operands: seq<Operand>)
    requires IsInst(c.original, b, i)
  {
    && |operands| == |c.original[b][i].operands|
    && forall k :: 0 <= k < |operands| ==> NewType(c, operands[k]) == Needed(c.sig, c.newSig, c.kinds, c.original, b, i)[k]
  }

  lemma FittingMaps(c: Context, op: Operand, expected: Ty, needed: Ty, b: nat)
    requires ValuesTyped(c) && Fits(c.sig, c.newSig, c.kinds, c.original, op, needed)
    requires if IsLocal(op) then op in c.values else expected == needed
    ensures MapValue(c.values, op, expected, b).Ok?
    ensures NewType(c, MapValue(c.values, op, expected, b).value) == needed
  {
  }

  lemma ComparedIsNeeded(c: Context, left: Operand, right: Operand)
    requires ValuesTyped(c) && (IsLocal(left) ==> left in c.values) && (IsLocal(right) ==> right in c.values)
    ensures ComparedTypes(c, left, right) == SidesNeeded(c.sig, c.newSig, c.kinds, c.original, left, right)
  {
    hide TypeOf, Shift;
  }

  /** What an operand is mapped to is only asked of constants, and there it is the needed type. */
  lemma ExpectedIsNeeded(c: Context, b: nat, i: nat, k: nat)
    requires ValuesTyped(c) && IsInst(c.original, b, i) && k < |c.original[b][i].operands| && !c.original[b][i].op.Phi?
    requires WellTyped(c.sig, c.kinds.functions, c.original, c.original[b][i])
    requires forall j :: 0 <= j < |c.original[b][i].operands| && IsLocal(c.original[b][i].operands[j]) ==> c.original[b][i].operands[j] in c.values
    requires !IsLocal(c.original[b][i].operands[k])
    ensures Expected(c, b, i)[k] == Needed(c.sig, c.newSig, c.kinds, c.original, b, i)[k]
  {
    var ops := c.original[b][i].operands;
    hide TypeOf, Shift;
    if c.original[b][i].op.ICmp? {
      ComparedIsNeeded(c, ops[0], ops[1]);
    }
    hide ValuesTyped, ComparedTypes, SidesNeeded, StoredType, Spaced;
    assert Declared(c.sig, c.newSig, c.kinds, c.original, ops[k]) == OldType(c, ops[k]);
  }

  lemma {:induction false} FittingMapsAll(c: Context, ops: seq<Operand>, expected: seq<Ty>, needed: seq<Ty>, b: nat)
    requires ValuesTyped(c) && |ops| == |expected| == |needed|
    requires forall k :: 0 <= k < |ops| ==> Fits(c.sig, c.newSig, c.kinds, c.original, ops[k], needed[k])
    requires forall k :: 0 <= k < |ops| ==> if IsLocal(ops[k]) then ops[k] in c.values else expected[k] == needed[k]
    ensures MapAll(c.values, ops, expected, b).Ok?
    ensures |MapAll(c.values, ops, expected, b).value| == |ops|
    ensures forall k :: 0 <= k < |ops| ==> NewType(c, MapAll(c.values, ops, expected, b).value[k]) == needed[k]
  {
    hide ValuesTyped, Fits, MapValue;
    if ops != [] {
      var last := |ops| - 1;
      FittingMapsAll(c, ops[..last], expected[..last], needed[..last], b);
      FittingMaps(c, ops[last], expected[last], needed[last], b);
    }
  }

  /** An instruction whose kinds agree and whose operands are there is lowered, with the right types. */
  lemma CoherentLowers(c: Context, b: nat, i: nat)
    requires ValuesTyped(c) && IsInst(c.original, b, i) && !c.original[b][i].op.Phi? && !c.original[b][i].op.DebugCall?
    requires WellTyped(c.sig, c.kinds.functions, c.original, c.original[b][i]) && CoherentAt(c.sig, c.newSig, c.kinds, c.original, b, i)
    requires forall k :: 0 <= k < |c.original[b][i].operands| && IsLocal(c.original[b][i].operands[k]) ==> c.original[b][i].operands[k] in c.values
    ensures Lower(c, b, i).Ok? && InstrTyped(c, b, i, Lower(c, b, i).value)
  {
    var instr := c.original[b][i];
    var expected, needed := Expected(c, b, i), Needed(c.sig, c.newSig, c.kinds, c.original, b, i);
    forall k | 0 <= k < |instr.operands| && !IsLocal(instr.operands[k])
      ensures expected[k] == needed[k]
    {
      ExpectedIsNeeded(c, b, i, k);
    }
    FittingMapsAll(c, instr.operands, expected, needed, b);
    var mapped := MapAll(c.values, instr.operands, expected, b).value;
    hide MapAll, Expected, ValuesTyped, Fits, TypeOf;
    assert TypesAccepted(c, b, i, mapped);
    assert Rebuilt(c, b, i, mapped).ty == Spaced(instr.ty, Result(b, i) in c.kinds.values);
  }

  lemma {:induction false} MappedAreThere(c: Context, ops: seq<Operand>, expected: seq<Ty>, b: nat)
    requires |ops| == |expected| && MapAll(c.values, ops, expected, b).Ok?
    ensures forall k :: 0 <= k < |ops| && IsLocal(ops[k]) ==> ops[k] in c.values
  {
    forall k | 0 <= k < |ops| && IsLocal(ops[k])
      ensures ops[k] in c.values
    {
      MappedAt(c.values, ops, expected, b, k);
    }
  }

  lemma TypedOperandFits(c: Context, op: Operand, expected: Ty, needed: Ty, b: nat)
    requires ValuesTyped(c) && MapValue(c.values, op, expected, b).Ok? && NewType(c, MapValue(c.values, op, expected, b).value) == needed
    requires !IsLocal(op) ==> expected == needed
    ensures Fits(c.sig, c.newSig, c.kinds, c.original, op, needed)
  {
  }

  /** Conversely, an instruction lowered with the right types had kinds that agree. */
  lemma TypedIsCoherent(c: Context, b: nat, i: nat)
    requires ValuesTyped(c) && IsInst(c.original, b, i) && !c.original[b][i].op.Phi? && !c.original[b][i].op.DebugCall?
    requires WellTyped(c.sig, c.kinds.functions, c.original, c.original[b][i])
    requires Lower(c, b, i).Ok? && InstrTyped(c, b, i, Lower(c, b, i).value)
    ensures CoherentAt(c.sig, c.newSig, c.kinds, c.original, b, i)
  {
    var instr := c.original[b][i];
    var ops := instr.operands;
    var expected, needed := Expected(c, b, i), Needed(c.sig, c.newSig, c.kinds, c.original, b, i);
    var mapped := MapAll(c.values, ops, expected, b).value;
    MapAllSize(c.values, ops, expected, b);
    MappedAreThere(c, ops, expected, b);
    assert Lower(c, b, i).value == Rebuilt(c, b, i, mapped);
    assert Lower(c, b, i).value.operands == mapped;
    forall k | 0 <= k < |ops|
      ensures Fits(c.sig, c.newSig, c.kinds, c.original, ops[k], needed[k])
    {
      if !IsLocal(ops[k]) { ExpectedIsNeeded(c, b, i, k); }
      MappedAt(c.values, ops, expected, b, k);
      hide Expected, MapAll, MapValue, Needed, Lower, Rebuilt;
      TypedOperandFits(c, ops[k], expected[k], needed[k], b);
    }
    ResultTyped(c, b, i, mapped);
  }

  lemma ResultTyped(c: Context, b: nat, i: nat, mapped: seq<Operand>)
    requires IsInst(c.original, b, i) && |mapped| == |c.original[b][i].operands| && !c.original[b][i].op.Phi?
    requires WellTyped(c.sig, c.kinds.functions, c.original, c.original[b][i]) && IsSupported(c, b, i)
    requires InstrTyped(c, b, i, Rebuilt(c, b, i, mapped))
    ensures ResultFits(c.sig, c.newSig, c.kinds, c.original, b, i)
  {
    hide TypeOf;
  }

  /** The lowering itself never compares an argument with its parameter: a managed argument for a raw
      parameter goes through. Only agreement of the kinds rules it out. */
  lemma ArgumentsAreUnchecked()
    ensures var call := Instr(DirectCall(0), Void, [Argument(0)], []);
      var sig, newSig := Signature([RawPointer], Void), Signature([ManagedPointer], Void);
      var kinds := Kinds({Argument(0)}, {}, {}, map[], [Signature([RawPointer], Void)]);
      && Lower(Context(sig, newSig, kinds, [[call]], [[]], map[Argument(0) := Argument(0)]), 0, 0) == Ok(call)
      && !CoherentAt(sig, newSig, kinds, [[call]], 0, 0)
  {
    var call := Instr(DirectCall(0), Void, [Argument(0)], []);
    var kinds := Kinds({Argument(0)}, {}, {}, map[], [Signature([RawPointer], Void)]);
    var c := Context(Signature([RawPointer], Void), Signature([ManagedPointer], Void), kinds, [[call]], [[]], map[Argument(0) := Argument(0)]);
    var ops, expected := [Argument(0)], Expected(c, 0, 0);
    assert ops[..0] == [] && expected[..0] == [] && expected[0] == RawPointer;
    assert MapAll(c.values, ops, expected, 0) == Ok([Argument(0)]) by {
      assert MapAll(c.values, ops[..0], expected[..0], 0) == Ok([]);
      assert MapValue(c.values, ops[0], expected[0], 0) == Ok(Argument(0));
      assert [] + [Argument(0)] == ops;
    }
    assert Needed(c.sig, c.newSig, kinds, c.original, 0, 0)[0] == RawPointer;
    assert !Fits(c.sig, c.newSig, kinds, c.original, Argument(0), RawPointer);
    hide MapAll, Expected, Needed, MapValue;
  }

  // ----- Over the whole function -----

  /** Instruction i of block b has been passed and was not dropped. */
  predicate Passed(code: Code, done: seq<nat>, b: nat, i: nat) {
    IsInst(code, b, i) && b < |done| && i < done[b] && !code[b][i].op.DebugCall?
  }

  /** The instruction it became has the declared type and, once a phi is filled, operands of the needed types. */
  predicate TypedAt(c: Context, b: nat, i: nat, filled: set<(nat, nat)>)
    requires IsInst(c.original, b, i)
  {
    var j := NewIndex(c.original[b], i);
    && IsInst(c.rebuilt, b, j)
    && c.rebuilt[b][j].ty == Spaced(c.original[b][i].ty, Result(b, i) in c.kinds.values)
    && ((c.original[b][i].op.Phi? && (b, i) !in filled) || OperandsTyped(c, b, i, c.rebuilt[b][j].operands))
  }

  predicate CoherentSoFar(c: Context, b: nat, i: nat, filled: set<(nat, nat)>)
    requires IsInst(c.original, b, i)
  {
    (c.original[b][i].op.Phi? && (b, i) !in filled) || CoherentAt(c.sig, c.newSig, c.kinds, c.original, b, i)
  }

  ghost predicate AllTyped(c: Context, done: seq<nat>, filled: set<(nat, nat)>) {
    forall b: nat, i: nat :: Passed(c.original, done, b, i) ==> TypedAt(c, b, i, filled)
  }

  ghost predicate AllCoherent(c: Context, done: seq<nat>, filled: set<(nat, nat)>) {
    forall b: nat, i: nat :: Passed(c.original, done, b, i) ==> CoherentSoFar(c, b, i, filled)
  }

  predicate IsPlaced(rebuilt: Code, op: Operand) {
    op.Result? ==> IsInst(rebuilt, op.b, op.i)
  }

  ghost predicate AllPlaced(c: Context) {
    && (forall op :: op in c.values ==> IsPlaced(c.rebuilt, c.values[op]))
    && (forall b: nat, j: nat, k :: IsInst(c.rebuilt, b, j) && 0 <= k < |c.rebuilt[b][j].operands| ==> IsPlaced(c.rebuilt, c.rebuilt[b][j].operands[k]))
  }

  /** Mapped values are parameters or results of instructions already passed. */
  ghost predicate MapsPassed(c: Context, done: seq<nat>) {
    forall op :: op in c.values ==>
      c.values[op] == Shift(c.original, op)
      && match op
         case Argument(k) => k < |c.newSig.params|
         case Result(b, i) => Passed(c.original, done, b, i)
         case _ => false
  }

  /** So far the new code has the right types exactly when the kinds agree. */
  ghost predicate Agreement(c: Context, done: seq<nat>, filled: set<(nat, nat)>) {
    && AllPlaced(c)
    && (forall b: nat, i: nat :: Passed(c.original, done, b, i) ==> IsInst(c.rebuilt, b, NewIndex(c.original[b], i)))
    && (AllTyped(c, done, filled) <==> AllCoherent(c, done, filled))
  }

  lemma TypedValues(c: Context, done: seq<nat>, filled: set<(nat, nat)>)
    requires MapsPassed(c, done) && AllTyped(c, done, filled)
    ensures ValuesTyped(c)
  {
    hide NewIndex, OperandsTyped;
  }

  ghost predicate KeepsTypes(code: Code, code': Code) {
    forall b: nat, j: nat :: IsInst(code, b, j) ==> IsInst(code', b, j) && code'[b][j].ty == code[b][j].ty
  }

  lemma SameOperandTypes(c: Context, c': Context, b: nat, i: nat, operands: seq<Operand>)
    requires IsInst(c.original, b, i) && KeepsTypes(c.rebuilt, c'.rebuilt) && c' == c.(rebuilt := c'.rebuilt, values := c'.values)
    requires forall k :: 0 <= k < |operands| ==> IsPlaced(c.rebuilt, operands[k])
    ensures OperandsTyped(c', b, i, operands) <==> OperandsTyped(c, b, i, operands)
    ensures forall k :: 0 <= k < |operands| ==> IsPlaced(c'.rebuilt, operands[k])
  {
    hide Needed;
    assert forall k :: 0 <= k < |operands| ==> NewType(c', operands[k]) == NewType(c, operands[k]);
  }

  lemma MappedIsPlaced(c: Context, op: Operand, expected: Ty, b: nat)
    requires AllPlaced(c) && MapValue(c.values, op, expected, b).Ok?
    ensures IsPlaced(c.rebuilt, MapValue(c.values, op, expected, b).value)
  {
  }

  lemma LoweredIsPlaced(c: Context, b: nat, i: nat)
    requires AllPlaced(c) && IsInst(c.original, b, i) && Lower(c, b, i).Ok?
    ensures forall k :: 0 <= k < |Lower(c, b, i).value.operands| ==> IsPlaced(c.rebuilt, Lower(c, b, i).value.operands[k])
  {
    var instr := c.original[b][i];
    if !instr.op.Phi? {
      var expected := Expected(c, b, i);
      var mapped := MapAll(c.values, instr.operands, expected, b).value;
      MapAllSize(c.values, instr.operands, expected, b);
      assert Lower(c, b, i).value.operands == mapped;
      hide Lower, Expected, MapValue, AllPlaced;
      forall k | 0 <= k < |mapped|
        ensures IsPlaced(c.rebuilt, mapped[k])
      {
        MappedAt(c.values, instr.operands, expected, b, k);
        MappedIsPlaced(c, instr.operands[k], expected[k], b);
      }
    }
  }

  /** The context after instruction i of block b has been appended. */
  function WithInstr(c: Context, b: nat, i: nat, instr: Instr): Context
    requires IsInst(c.original, b, i) && b < |c.rebuilt|
  {
    c.(rebuilt := c.rebuilt[b := c.rebuilt[b] + [instr]],
       values := if c.original[b][i].ty != Void then c.values[Result(b, i) := Result(b, |c.rebuilt[b]|)] else c.values)
  }

  lemma AppendIsPlaced(c: Context, b: nat, i: nat)
    requires AllPlaced(c) && IsInst(c.original, b, i) && b < |c.rebuilt| && Lower(c, b, i).Ok?
    ensures AllPlaced(WithInstr(c, b, i, Lower(c, b, i).value))
    ensures KeepsTypes(c.rebuilt, WithInstr(c, b, i, Lower(c, b, i).value).rebuilt)
  {
    LoweredIsPlaced(c, b, i);
    hide Lower;
  }

  lemma OthersStayTyped(c: Context, b: nat, i: nat, instr: Instr, x: nat, y: nat)
    requires AllPlaced(c) && IsInst(c.original, b, i) && b < |c.rebuilt| && KeepsTypes(c.rebuilt, WithInstr(c, b, i, instr).rebuilt)
    requires IsInst(c.original, x, y) && IsInst(c.rebuilt, x, NewIndex(c.original[x], y))
    ensures TypedAt(WithInstr(c, b, i, instr), x, y, {}) <==> TypedAt(c, x, y, {})
  {
    hide OperandsTyped, NewIndex;
    SameOperandTypes(c, WithInstr(c, b, i, instr), x, y, c.rebuilt[x][NewIndex(c.original[x], y)].operands);
  }

  lemma NewInstrTyped(c: Context, b: nat, i: nat, instr: Instr)
    requires AllPlaced(c) && IsInst(c.original, b, i) && b < |c.rebuilt| && KeepsTypes(c.rebuilt, WithInstr(c, b, i, instr).rebuilt)
    requires |c.rebuilt[b]| == NewIndex(c.original[b], i) && forall k :: 0 <= k < |instr.operands| ==> IsPlaced(c.rebuilt, instr.operands[k])
    ensures c.original[b][i].op.Phi? ==> (TypedAt(WithInstr(c, b, i, instr), b, i, {}) <==> instr.ty == Spaced(c.original[b][i].ty, Result(b, i) in c.kinds.values))
    ensures !c.original[b][i].op.Phi? ==> (TypedAt(WithInstr(c, b, i, instr), b, i, {}) <==> InstrTyped(c, b, i, instr))
  {
    hide OperandsTyped, NewIndex;
    SameOperandTypes(c, WithInstr(c, b, i, instr), b, i, instr.operands);
  }

  lemma NewInstrAgrees(c: Context, done: seq<nat>, b: nat, i: nat)
    requires Agreement(c, done, {}) && MapsPassed(c, done) && IsInst(c.original, b, i) && !c.original[b][i].op.DebugCall? && Lower(c, b, i).Ok?
    requires b < |c.rebuilt| && |c.rebuilt[b]| == NewIndex(c.original[b], i)
    requires WellTyped(c.sig, c.kinds.functions, c.original, c.original[b][i])
    ensures AllTyped(c, done, {}) ==> (TypedAt(WithInstr(c, b, i, Lower(c, b, i).value), b, i, {}) <==> CoherentSoFar(c, b, i, {}))
  {
    var instr := Lower(c, b, i).value;
    AppendIsPlaced(c, b, i);
    LoweredIsPlaced(c, b, i);
    NewInstrTyped(c, b, i, instr);
    if AllTyped(c, done, {}) && !c.original[b][i].op.Phi? {
      TypedValues(c, done, {});
      hide Agreement, AllTyped, MapsPassed, AllPlaced, TypedAt, InstrTyped, WellTyped, CoherentAt;
      if InstrTyped(c, b, i, instr) { TypedIsCoherent(c, b, i); }
      if CoherentAt(c.sig, c.newSig, c.kinds, c.original, b, i) {
        AllThere(c, b, i);
        CoherentLowers(c, b, i);
      }
    }
  }

  lemma AllThere(c: Context, b: nat, i: nat)
    requires IsInst(c.original, b, i) && Lower(c, b, i).Ok? && !c.original[b][i].op.Phi?
    ensures forall k :: 0 <= k < |c.original[b][i].operands| && IsLocal(c.original[b][i].operands[k]) ==> c.original[b][i].operands[k] in c.values
  {
    MappedAreThere(c, c.original[b][i].operands, Expected(c, b, i), b);
    hide MapAll, Expected;
  }

  lemma AppendKeepsAgreement(c: Context, done: seq<nat>, b: nat, i: nat)
    requires Agreement(c, done, {}) && MapsPassed(c, done) && IsInst(c.original, b, i) && !c.original[b][i].op.DebugCall? && Lower(c, b, i).Ok?
    requires b < |c.rebuilt| && |c.rebuilt[b]| == NewIndex(c.original[b], i) && b < |done| && done[b] == i
    requires WellTyped(c.sig, c.kinds.functions, c.original, c.original[b][i])
    ensures Agreement(WithInstr(c, b, i, Lower(c, b, i).value), done[b := i + 1], {})
  {
    var instr := Lower(c, b, i).value;
    var c', done' := WithInstr(c, b, i, instr), done[b := i + 1];
    AppendIsPlaced(c, b, i);
    NewInstrAgrees(c, done, b, i);
    hide Lower, NewIndex, AllPlaced, KeepsTypes, WellTyped, MapsPassed, CoherentAt;
    forall x: nat, y: nat | Passed(c.original, done, x, y)
      ensures TypedAt(c', x, y, {}) <==> TypedAt(c, x, y, {})
    {
      OthersStayTyped(c, b, i, instr, x, y);
    }
    hide TypedAt;
    assert forall x: nat, y: nat :: Passed(c.original, done', x, y) <==> Passed(c.original, done, x, y) || (x == b && y == i);
    hide Passed;
    CoherenceStays(c, c');
    hide CoherentSoFar;
  }

  lemma CoherenceStays(c: Context, c': Context)
    requires c' == c.(rebuilt := c'.rebuilt, values := c'.values)
    ensures forall x: nat, y: nat :: IsInst(c.original, x, y) ==> (CoherentSoFar(c', x, y, {}) <==> CoherentSoFar(c, x, y, {}))
  {
    hide CoherentAt;
  }

  // ----- Phis -----

  /** The context after phi i of block b has received its incoming values. */
  function WithIncoming(c: Context, b: nat, i: nat, mapped: seq<Operand>): Context
    requires IsInst(c.original, b, i) && IsInst(c.rebuilt, b, NewIndex(c.original[b], i))
  {
    var j := NewIndex(c.original[b], i);
    c.(rebuilt := c.rebuilt[b := c.rebuilt[b][j := c.rebuilt[b][j].(operands := mapped, blocks := c.original[b][i].blocks)]])
  }

  /** The incoming values of a phi, as mapValue gives them, all of the phi's type. */
  ghost predicate Incoming(c: Context, instr: Instr, ty: Ty, b: nat, mapped: seq<Operand>) {
    |mapped| == |instr.operands|
    && forall k :: 0 <= k < |mapped| ==> MapValue(c.values, instr.operands[k], ty, b) == Ok(mapped[k]) && NewType(c, mapped[k]) == ty
  }

  lemma IncomingIsPlaced(c: Context, b: nat, i: nat, ty: Ty, mapped: seq<Operand>)
    requires AllPlaced(c) && IsInst(c.original, b, i) && IsInst(c.rebuilt, b, NewIndex(c.original[b], i))
    requires Incoming(c, c.original[b][i], ty, b, mapped)
    ensures AllPlaced(WithIncoming(c, b, i, mapped)) && KeepsTypes(c.rebuilt, WithIncoming(c, b, i, mapped).rebuilt)
    ensures forall k :: 0 <= k < |mapped| ==> IsPlaced(c.rebuilt, mapped[k])
  {
    hide NewIndex;
    forall k | 0 <= k < |mapped|
      ensures IsPlaced(c.rebuilt, mapped[k])
    {
      MappedIsPlaced(c, c.original[b][i].operands[k], ty, b);
    }
    hide MapValue;
  }

  /** A filled phi of the declared type agrees with its incoming values. */
  lemma FilledPhiAgrees(c: Context, b: nat, i: nat, mapped: seq<Operand>)
    requires ValuesTyped(c) && IsInst(c.original, b, i) && c.original[b][i].op.Phi?
    requires Incoming(c, c.original[b][i], Spaced(c.original[b][i].ty, Result(b, i) in c.kinds.values), b, mapped)
    ensures OperandsTyped(c, b, i, mapped) && CoherentAt(c.sig, c.newSig, c.kinds, c.original, b, i)
  {
    var ops, ty := c.original[b][i].operands, Spaced(c.original[b][i].ty, Result(b, i) in c.kinds.values);
    forall k | 0 <= k < |ops|
      ensures Fits(c.sig, c.newSig, c.kinds, c.original, ops[k], ty)
    {
      hide ValuesTyped, MapValue;
      TypedOperandFits(c, ops[k], ty, ty, b);
    }
    hide ValuesTyped, MapValue;
  }

  lemma OthersStayTypedByPhi(c: Context, b: nat, i: nat, mapped: seq<Operand>, filled: set<(nat, nat)>, x: nat, y: nat)
    requires AllPlaced(c) && IsInst(c.original, b, i) && IsInst(c.rebuilt, b, NewIndex(c.original[b], i))
    requires KeepsTypes(c.rebuilt, WithIncoming(c, b, i, mapped).rebuilt)
    requires IsInst(c.original, x, y) && IsInst(c.rebuilt, x, NewIndex(c.original[x], y))
    requires x == b ==> NewIndex(c.original[b], y) != NewIndex(c.original[b], i)
    ensures TypedAt(WithIncoming(c, b, i, mapped), x, y, filled + {(b, i)}) <==> TypedAt(c, x, y, filled)
  {
    hide OperandsTyped, NewIndex;
    SameOperandTypes(c, WithIncoming(c, b, i, mapped), x, y, c.rebuilt[x][NewIndex(c.original[x], y)].operands);
  }

  lemma PhiStaysTyped(c: Context, done: seq<nat>, filled: set<(nat, nat)>, b: nat, i: nat, mapped: seq<Operand>)
    requires AllPlaced(c) && MapsPassed(c, done) && IsInst(c.original, b, i) && IsInst(c.rebuilt, b, NewIndex(c.original[b], i)) && c.original[b][i].op.Phi?
    requires Incoming(c, c.original[b][i], c.rebuilt[b][NewIndex(c.original[b], i)].ty, b, mapped)
    ensures TypedAt(WithIncoming(c, b, i, mapped), b, i, filled + {(b, i)}) ==>
      c.rebuilt[b][NewIndex(c.original[b], i)].ty == Spaced(c.original[b][i].ty, Result(b, i) in c.kinds.values)
    ensures AllTyped(c, done, filled) && Passed(c.original, done, b, i) ==>
      TypedAt(WithIncoming(c, b, i, mapped), b, i, filled + {(b, i)}) && CoherentAt(c.sig, c.newSig, c.kinds, c.original, b, i)
  {
    hide NewIndex;
    IncomingIsPlaced(c, b, i, c.rebuilt[b][NewIndex(c.original[b], i)].ty, mapped);
    SameOperandTypes(c, WithIncoming(c, b, i, mapped), b, i, mapped);
    if AllTyped(c, done, filled) && Passed(c.original, done, b, i) {
      TypedValues(c, done, filled);
      assert TypedAt(c, b, i, filled);
      hide OperandsTyped, CoherentAt, Incoming, AllPlaced, MapsPassed, AllTyped;
      FilledPhiAgrees(c, b, i, mapped);
    }
    hide *;
  }

  lemma FillKeepsAgreement(c: Context, done: seq<nat>, filled: set<(nat, nat)>, b: nat, i: nat, mapped: seq<Operand>)
    requires Agreement(c, done, filled) && MapsPassed(c, done) && Passed(c.original, done, b, i) && c.original[b][i].op.Phi? && (b, i) !in filled
    requires IsInst(c.rebuilt, b, NewIndex(c.original[b], i))
    requires Incoming(c, c.original[b][i], c.rebuilt[b][NewIndex(c.original[b], i)].ty, b, mapped)
    requires forall y :: 0 <= y < |c.original[b]| && y != i && !c.original[b][y].op.DebugCall? ==> NewIndex(c.original[b], y) != NewIndex(c.original[b], i)
    ensures Agreement(WithIncoming(c, b, i, mapped), done, filled + {(b, i)})
  {
    var c', filled' := WithIncoming(c, b, i, mapped), filled + {(b, i)};
    IncomingIsPlaced(c, b, i, c.rebuilt[b][NewIndex(c.original[b], i)].ty, mapped);
    PhiStaysTyped(c, done, filled, b, i, mapped);
    hide NewIndex, AllPlaced, KeepsTypes, MapsPassed, CoherentAt, Incoming, OperandsTyped;
    forall x: nat, y: nat | Passed(c.original, done, x, y) && (x, y) != (b, i)
      ensures TypedAt(c', x, y, filled') <==> TypedAt(c, x, y, filled)
    {
      OthersStayTypedByPhi(c, b, i, mapped, filled, x, y);
    }
    assert forall x: nat, y: nat :: IsInst(c.original, x, y) && (x, y) != (b, i) ==> (CoherentSoFar(c', x, y, filled') <==> CoherentSoFar(c, x, y, filled));
    assert TypedAt(c', b, i, filled') ==> TypedAt(c, b, i, filled);
    assert CoherentSoFar(c, b, i, filled);
    hide Passed, TypedAt, CoherentSoFar;
  }

  // ----- The finished function -----

  /** Every new instruction has the type its kind declares and operands of the types it needs. */
  ghost predicate WellSpaced(c: Context) {
    forall b: nat, i: nat :: IsInst(c.original, b, i) && !c.original[b][i].op.DebugCall? ==>
      var j := NewIndex(c.original[b], i);
      IsInst(c.rebuilt, b, j) && InstrTyped(c, b, i, c.rebuilt[b][j])
  }

  lemma AgreementAtEnd(c: Context, done: seq<nat>, filled: set<(nat, nat)>)
    requires Agreement(c, done, filled) && |done| == |c.original| && forall b :: 0 <= b < |done| ==> done[b] == |c.original[b]|
    requires forall b: nat, i: nat :: IsInst(c.original, b, i) && c.original[b][i].op.Phi? ==> (b, i) in filled
    ensures WellSpaced(c) <==> Coherent(c.sig, c.newSig, c.kinds, c.original)
  {
    hide NewIndex, AllPlaced, OperandsTyped, CoherentAt;
    assert forall b: nat, i: nat :: Passed(c.original, done, b, i) <==> IsInst(c.original, b, i) && !c.original[b][i].op.DebugCall?;
    forall b: nat, i: nat | Passed(c.original, done, b, i)
      ensures CoherentSoFar(c, b, i, filled) <==> CoherentAt(c.sig, c.newSig, c.kinds, c.original, b, i)
      ensures var j := NewIndex(c.original[b], i);
        TypedAt(c, b, i, filled) <==> IsInst(c.rebuilt, b, j) && InstrTyped(c, b, i, c.rebuilt[b][j])
    {
    }
    hide TypedAt, CoherentSoFar, InstrTyped, Passed;
    assert WellSpaced(c) <==> AllTyped(c, done, filled);
    assert Coherent(c.sig, c.newSig, c.kinds, c.original) <==> AllCoherent(c, done, filled);
  }

  // ----- What the kinds decide -----

  /** A variable of pointer type becomes one for managed pointers exactly when the kinds say that such
      are kept in it; no other instruction changes its opcode. */
  predicate OpcodeByKinds(kinds: Kinds, b: nat, i: nat, was: Opcode, now: Opcode) {
    match was
    case Alloca(slot) =>
      now == Alloca(if (slot == RawPointer || slot == ManagedPointer) && Result(b, i) in kinds.slots then ManagedPointer else slot)
    case _ => now == was
  }

  ghost predicate OpcodesSoFar(kinds: Kinds, original: Code, rebuilt: Code, done: seq<nat>) {
    forall b: nat, i: nat :: Passed(original, done, b, i) ==>
      var j := NewIndex(original[b], i);
      IsInst(rebuilt, b, j) && OpcodeByKinds(kinds, b, i, original[b][i].op, rebuilt[b][j].op)
  }

  ghost predicate OpcodesByKinds(kinds: Kinds, original: Code, rebuilt: Code) {
    forall b: nat, i: nat :: IsInst(original, b, i) && !original[b][i].op.DebugCall? ==>
      var j := NewIndex(original[b], i);
      IsInst(rebuilt, b, j) && OpcodeByKinds(kinds, b, i, original[b][i].op, rebuilt[b][j].op)
  }

  lemma LoweredOpcode(c: Context, b: nat, i: nat)
    requires IsInst(c.original, b, i) && Lower(c, b, i).Ok?
    ensures OpcodeByKinds(c.kinds, b, i, c.original[b][i].op, Lower(c, b, i).value.op)
  {
    hide Expected, MapAll, TypesAccepted, IsSupported, TypeOf;
  }

  lemma AppendKeepsOpcodes(c: Context, done: seq<nat>, b: nat, i: nat)
    requires OpcodesSoFar(c.kinds, c.original, c.rebuilt, done) && IsInst(c.original, b, i) && Lower(c, b, i).Ok?
    requires b < |c.rebuilt| && |c.rebuilt[b]| == NewIndex(c.original[b], i) && b < |done| && done[b] == i
    ensures OpcodesSoFar(c.kinds, c.original, WithInstr(c, b, i, Lower(c, b, i).value).rebuilt, done[b := i + 1])
  {
    LoweredOpcode(c, b, i);
    hide Lower, OpcodeByKinds, NewIndex;
    var rebuilt', done' := WithInstr(c, b, i, Lower(c, b, i).value).rebuilt, done[b := i + 1];
    forall x: nat, y: nat | Passed(c.original, done', x, y)
      ensures var j := NewIndex(c.original[x], y);
        IsInst(rebuilt', x, j) && OpcodeByKinds(c.kinds, x, y, c.original[x][y].op, rebuilt'[x][j].op)
    {
      assert Passed(c.original, done, x, y) || (x == b && y == i);
    }
  }

  lemma DebugKeepsOpcodes(kinds: Kinds, original: Code, rebuilt: Code, done: seq<nat>, b: nat)
    requires OpcodesSoFar(kinds, original, rebuilt, done) && b < |done| && IsInst(original, b, done[b]) && original[b][done[b]].op.DebugCall?
    ensures OpcodesSoFar(kinds, original, rebuilt, done[b := done[b] + 1])
  {
    hide OpcodeByKinds, NewIndex;
    assert forall x: nat, y: nat :: Passed(original, done[b := done[b] + 1], x, y) <==> Passed(original, done, x, y);
  }

  lemma FillKeepsOpcodes(c: Context, done: seq<nat>, b: nat, i: nat, mapped: seq<Operand>)
    requires OpcodesSoFar(c.kinds, c.original, c.rebuilt, done) && IsInst(c.original, b, i) && IsInst(c.rebuilt, b, NewIndex(c.original[b], i))
    ensures OpcodesSoFar(c.kinds, c.original, WithIncoming(c, b, i, mapped).rebuilt, done)
  {
    hide OpcodeByKinds, NewIndex;
    var rebuilt' := WithIncoming(c, b, i, mapped).rebuilt;
    forall x: nat, y: nat | Passed(c.original, done, x, y)
      ensures var j := NewIndex(c.original[x], y);
        IsInst(rebuilt', x, j) && OpcodeByKinds(c.kinds, x, y, c.original[x][y].op, rebuilt'[x][j].op)
    {
    }
  }

  lemma OpcodesAtEnd(kinds: Kinds, original: Code, rebuilt: Code, done: seq<nat>)
    requires OpcodesSoFar(kinds, original, rebuilt, done) && |done| == |original| && forall b :: 0 <= b < |done| ==> done[b] == |original[b]|
    ensures OpcodesByKinds(kinds, original, rebuilt)
  {
    hide OpcodeByKinds, NewIndex;
    forall b: nat, i: nat | IsInst(original, b, i) && !original[b][i].op.DebugCall?
      ensures var j := NewIndex(original[b], i);
        IsInst(rebuilt, b, j) && OpcodeByKinds(kinds, b, i, original[b][i].op, rebuilt[b][j].op)
    {
      assert Passed(original, done, b, i);
    }
  }

  /** The spaces of a new instruction's result and operands, as the kinds decide them. */
  predicate SpacedByKinds(sig: Signature, newSig: Signature, kinds: Kinds, original: Code, rebuilt: Code, b: nat, i: nat)
    requires IsInst(original, b, i) && IsInst(rebuilt, b, NewIndex(original[b], i))
  {
    var was, now := original[b][i], rebuilt[b][NewIndex(original[b], i)];
    var ops := now.operands;
    && now.ty == (if (was.ty == RawPointer || was.ty == ManagedPointer) && Result(b, i) in kinds.values then ManagedPointer else was.ty)
    && |ops| == |was.operands|
    && match was.op
       case Phi => forall k :: 0 <= k < |ops| ==> TypeOf(newSig, rebuilt, ops[k]) == now.ty
       case Select => |ops| == 3 ==> TypeOf(newSig, rebuilt, ops[1]) == TypeOf(newSig, rebuilt, ops[2]) == now.ty
       case Freeze => |ops| == 1 ==> TypeOf(newSig, rebuilt, ops[0]) == now.ty
       case Store => |ops| == 2 ==> StoredByKinds(sig, kinds, original, was, TypeOf(newSig, rebuilt, ops[0]))
       case DirectCall(f) => f < |kinds.functions| ==> forall k :: 0 <= k < |ops| && k < |kinds.functions[f].params| ==>
           TypeOf(newSig, rebuilt, ops[k]) == kinds.functions[f].params[k]
       case Return => |ops| == 1 ==> TypeOf(newSig, rebuilt, ops[0]) == newSig.ret
       case Generic(_) => forall k :: 0 <= k < |ops| ==> TypeOf(newSig, rebuilt, ops[k]) == TypeOf(sig, original, was.operands[k])
       case _ => true
  }

  /** A stored pointer is managed exactly when the variable it goes to holds managed pointers, or, where
      it goes to no known variable, when the place or the pointer itself is managed. */
  predicate StoredByKinds(sig: Signature, kinds: Kinds, original: Code, was: Instr, stored: Ty)
    requires |was.operands| == 2
  {
    var value, pointer := was.operands[0], was.operands[1];
    var ty := TypeOf(sig, original, value);
    var managed := if pointer in kinds.trackedSlot then kinds.trackedSlot[pointer] in kinds.slots else pointer in kinds.locations || value in kinds.values;
    stored == if (ty == RawPointer || ty == ManagedPointer) && managed then ManagedPointer else ty
  }

  ghost predicate AllSpacedByKinds(sig: Signature, newSig: Signature, kinds: Kinds, original: Code, rebuilt: Code) {
    forall b: nat, i: nat :: IsInst(original, b, i) && !original[b][i].op.DebugCall? ==>
      IsInst(rebuilt, b, NewIndex(original[b], i)) && SpacedByKinds(sig, newSig, kinds, original, rebuilt, b, i)
  }

  lemma WellSpacedAt(c: Context, b: nat, i: nat)
    requires IsInst(c.original, b, i) && IsInst(c.rebuilt, b, NewIndex(c.original[b], i))
    requires InstrTyped(c, b, i, c.rebuilt[b][NewIndex(c.original[b], i)])
    ensures SpacedByKinds(c.sig, c.newSig, c.kinds, c.original, c.rebuilt, b, i)
  {
    hide NewIndex, TypeOf;
  }

  lemma WellSpacedByKinds(c: Context)
    requires WellSpaced(c)
    ensures AllSpacedByKinds(c.sig, c.newSig, c.kinds, c.original, c.rebuilt)
  {
    hide NewIndex, InstrTyped, SpacedByKinds;
    forall b: nat, i: nat | IsInst(c.original, b, i) && !c.original[b][i].op.DebugCall?
      ensures IsInst(c.rebuilt, b, NewIndex(c.original[b], i)) && SpacedByKinds(c.sig, c.newSig, c.kinds, c.original, c.rebuilt, b, i)
    {
      WellSpacedAt(c, b, i);
    }
  }

  /** A pointer stored to a local variable of its type. */
  predicate StoresTo(sig: Signature, kinds: Kinds, original: Code, b: nat, i: nat, d: nat, n: nat) {
    && IsInst(original, b, i) && original[b][i].op.Store? && |original[b][i].operands| == 2
    && IsInst(original, d, n) && original[d][n].op == Alloca(TypeOf(sig, original, original[b][i].operands[0]))
    && original[b][i].operands[1] in kinds.trackedSlot && kinds.trackedSlot[original[b][i].operands[1]] == Result(d, n)
  }

  /** The new store of it has a value of exactly the type the new variable holds. */
  ghost predicate StoreFitsVariable(newSig: Signature, original: Code, rebuilt: Code, b: nat, i: nat, d: nat, n: nat)
    requires IsInst(original, b, i) && IsInst(original, d, n)
  {
    var store, variable := NewIndex(original[b], i), NewIndex(original[d], n);
    && IsInst(rebuilt, b, store) && IsInst(rebuilt, d, variable) && rebuilt[b][store].operands != []
    && rebuilt[d][variable].op == Alloca(TypeOf(newSig, rebuilt, rebuilt[b][store].operands[0]))
  }

  // ----- What is checked whether or not the kinds agree -----

  /** The operands have the types the lowering checks: a stored value the one its destination decides,
      and whatever is cloned as it is the types it had. */
  predicate Checked(c: Context, b: nat, i: nat, operands: seq<Operand>)
    requires IsInst(c.original, b, i) && |operands| == |c.original[b][i].operands|
  {
    var was := c.original[b][i];
    var own := OwnTypes(c, was.operands);
    match was.op
    case Store => |operands| == 2 ==> StoredByKinds(c.sig, c.kinds, c.original, was, NewType(c, operands[0]))
    case Generic(_) => forall k :: 0 <= k < |operands| ==> NewType(c, operands[k]) == own[k]
    case Freeze => |operands| == 1 && !IsPointer(was.ty) && !IsPointer(own[0]) ==> NewType(c, operands[0]) == own[0]
    case ICmp(_) =>
      |operands| == 2 && !IsPointer(own[0]) && !IsPointer(own[1]) ==> NewType(c, operands[0]) == own[0] && NewType(c, operands[1]) == own[1]
    case DirectCall(f) => f < |c.kinds.functions|
    case IndirectCall => !CallsOutManaged(c, b, i)
    case _ => true
  }

  /** A call of unknown code that returns a managed pointer or is passed one. */
  predicate CallsOutManaged(c: Context, b: nat, i: nat)
    requires IsInst(c.original, b, i)
  {
    var was := c.original[b][i];
    || ((was.ty == RawPointer || was.ty == ManagedPointer) && Result(b, i) in c.kinds.values)
    || exists k :: 0 < k < |was.operands| && was.operands[k] in c.kinds.values
         && (OldType(c, was.operands[k]) == RawPointer || OldType(c, was.operands[k]) == ManagedPointer)
  }

  /** The lowering gives an instruction up exactly when it calls unknown code with managed pointers, or a
      function there is not. */
  lemma UnsupportedIff(c: Context, b: nat, i: nat)
    requires IsInst(c.original, b, i)
    ensures Lower(c, b, i) == Err(Unsupported(b)) <==>
      match c.original[b][i].op
      case DirectCall(f) => f >= |c.kinds.functions|
      case IndirectCall => CallsOutManaged(c, b, i)
      case _ => false
  {
    NeverUnsupported(c.values, c.original[b][i].operands, Expected(c, b, i), b);
    hide Expected, MapAll, TypesAccepted, OldType;
  }

  lemma {:induction false} NeverUnsupported(values: ValueMap, ops: seq<Operand>, expected: seq<Ty>, b: nat)
    requires |ops| == |expected|
    ensures MapAll(values, ops, expected, b).Err? ==> !MapAll(values, ops, expected, b).error.Unsupported?
  {
    if ops != [] { NeverUnsupported(values, ops[..|ops| - 1], expected[..|ops| - 1], b); }
  }

  predicate CheckedAt(c: Context, b: nat, i: nat)
    requires IsInst(c.original, b, i)
  {
    var j := NewIndex(c.original[b], i);
    IsInst(c.rebuilt, b, j) && |c.rebuilt[b][j].operands| == |c.original[b][i].operands| && Checked(c, b, i, c.rebuilt[b][j].operands)
  }

  ghost predicate CheckedSoFar(c: Context, done: seq<nat>) {
    forall b: nat, i: nat :: Passed(c.original, done, b, i) && !c.original[b][i].op.Phi? ==> CheckedAt(c, b, i)
  }

  ghost predicate AllChecked(c: Context) {
    forall b: nat, i: nat :: IsInst(c.original, b, i) && !c.original[b][i].op.DebugCall? && !c.original[b][i].op.Phi? ==> CheckedAt(c, b, i)
  }

  lemma LoweredIsChecked(c: Context, b: nat, i: nat)
    requires IsInst(c.original, b, i) && Lower(c, b, i).Ok? && !c.original[b][i].op.Phi?
    ensures |Lower(c, b, i).value.operands| == |c.original[b][i].operands| && Checked(c, b, i, Lower(c, b, i).value.operands)
  {
    MapAllSize(c.values, c.original[b][i].operands, Expected(c, b, i), b);
    UnsupportedIff(c, b, i);
    hide Expected, MapAll, IsSupported, TypeOf, CallsOutManaged;
  }

  lemma StaysChecked(c: Context, c': Context, b: nat, i: nat, operands: seq<Operand>)
    requires IsInst(c.original, b, i) && KeepsTypes(c.rebuilt, c'.rebuilt) && c' == c.(rebuilt := c'.rebuilt, values := c'.values)
    requires |operands| == |c.original[b][i].operands| && Checked(c, b, i, operands) && forall k :: 0 <= k < |operands| ==> IsPlaced(c.rebuilt, operands[k])
    ensures Checked(c', b, i, operands)
  {
    assert forall k :: 0 <= k < |operands| ==> NewType(c', operands[k]) == NewType(c, operands[k]);
  }

  lemma AppendKeepsChecked(c: Context, done: seq<nat>, b: nat, i: nat)
    requires AllPlaced(c) && CheckedSoFar(c, done) && IsInst(c.original, b, i) && !c.original[b][i].op.DebugCall? && Lower(c, b, i).Ok?
    requires b < |c.rebuilt| && |c.rebuilt[b]| == NewIndex(c.original[b], i) && b < |done| && done[b] == i
    ensures CheckedSoFar(WithInstr(c, b, i, Lower(c, b, i).value), done[b := i + 1])
  {
    var instr := Lower(c, b, i).value;
    var c', done' := WithInstr(c, b, i, instr), done[b := i + 1];
    AppendIsPlaced(c, b, i);
    LoweredIsPlaced(c, b, i);
    if !c.original[b][i].op.Phi? { LoweredIsChecked(c, b, i); }
    hide Lower, Checked, NewIndex;
    forall x: nat, y: nat | Passed(c.original, done', x, y) && !c.original[x][y].op.Phi?
      ensures CheckedAt(c', x, y)
    {
      if x == b && y == i {
        StaysChecked(c, c', x, y, instr.operands);
      } else {
        assert Passed(c.original, done, x, y);
        StaysChecked(c, c', x, y, c.rebuilt[x][NewIndex(c.original[x], y)].operands);
      }
    }
  }

  lemma DebugKeepsChecked(c: Context, done: seq<nat>, b: nat)
    requires CheckedSoFar(c, done) && b < |done| && IsInst(c.original, b, done[b]) && c.original[b][done[b]].op.DebugCall?
    ensures CheckedSoFar(c, done[b := done[b] + 1])
  {
    hide CheckedAt;
    assert forall x: nat, y: nat :: Passed(c.original, done[b := done[b] + 1], x, y) <==> Passed(c.original, done, x, y);
  }

  lemma FillKeepsChecked(c: Context, done: seq<nat>, b: nat, i: nat, mapped: seq<Operand>)
    requires AllPlaced(c) && CheckedSoFar(c, done) && IsInst(c.original, b, i) && IsInst(c.rebuilt, b, NewIndex(c.original[b], i))
    requires c.original[b][i].op.Phi? && KeepsTypes(c.rebuilt, WithIncoming(c, b, i, mapped).rebuilt)
    requires forall y :: 0 <= y < |c.original[b]| && y != i && !c.original[b][y].op.DebugCall? ==> NewIndex(c.original[b], y) != NewIndex(c.original[b], i)
    ensures CheckedSoFar(WithIncoming(c, b, i, mapped), done)
  {
    hide Checked, NewIndex;
    var c' := WithIncoming(c, b, i, mapped);
    forall x: nat, y: nat | Passed(c.original, done, x, y) && !c.original[x][y].op.Phi?
      ensures CheckedAt(c', x, y)
    {
      assert CheckedAt(c, x, y);
      StaysChecked(c, c', x, y, c.rebuilt[x][NewIndex(c.original[x], y)].operands);
    }
  }

  lemma CheckedAtEnd(c: Context, done: seq<nat>)
    requires CheckedSoFar(c, done) && |done| == |c.original| && forall b :: 0 <= b < |done| ==> done[b] == |c.original[b]|
    ensures AllChecked(c)
  {
    hide CheckedAt;
    assert forall b: nat, i: nat :: IsInst(c.original, b, i) && !c.original[b][i].op.DebugCall? ==> Passed(c.original, done, b, i);
  }

  /** So every store of a pointer to a local variable fits the variable it goes to. */
  lemma StoresFit(c: Context)
    requires OpcodesByKinds(c.kinds, c.original, c.rebuilt) && AllChecked(c)
    ensures forall b, i, d, n :: StoresTo(c.sig, c.kinds, c.original, b, i, d, n) ==> StoreFitsVariable(c.newSig, c.original, c.rebuilt, b, i, d, n)
  {
    hide NewIndex, TypeOf;
    forall b: nat, i: nat, d: nat, n: nat | StoresTo(c.sig, c.kinds, c.original, b, i, d, n)
      ensures StoreFitsVariable(c.newSig, c.original, c.rebuilt, b, i, d, n)
    {
      assert CheckedAt(c, b, i);
      var j := NewIndex(c.original[d], n);
      assert OpcodeByKinds(c.kinds, d, n, c.original[d][n].op, c.rebuilt[d][j].op);
    }
  }
}
