/** Lowering of managed pointers: a function is rebuilt block by block with pointers to managed
    objects in an address space of their own. */
module PointerLowering {

  /** Pointers are in the raw or in the managed address space. */
  datatype Ty = RawPointer | ManagedPointer | Scalar | Void

  datatype Operand =
    | Argument(k: nat)
    | Result(b: nat, i: nat)
    | Null(ty: Ty)
    | Undefined(ty: Ty)
    | Constant(value: int)
    | Global(g: nat)
    | FunctionRef(f: nat)

  datatype Opcode =
    | Alloca(slot: Ty)
    | Load
    | Store
    | Gep
    | Phi
    | Select
    | Freeze
    | ICmp(comparison: nat)
    | DirectCall(callee: nat)
    | IndirectCall
    | Return
    | Generic(code: nat)
    | DebugCall

  /** An instruction with its result type, its operands, and the blocks it names: the successors of
      a branch, or the blocks a phi's operands come from. */
  datatype Instr = Instr(op: Opcode, ty: Ty, operands: seq<Operand>, blocks: seq<nat>)

  type Code = seq<seq<Instr>>

  datatype Signature = Signature(params: seq<Ty>, ret: Ty)

  datatype LoweringError = CannotRemap(b: nat) | TypeMismatch(b: nat) | Unsupported(b: nat)

  datatype Outcome<T> = Ok(value: T) | Err(error: LoweringError)

  predicate IsPointer(t: Ty) {
    t == RawPointer || t == ManagedPointer
  }

  predicate IsInst(code: Code, b: nat, i: nat) {
    b < |code| && i < |code[b]|
  }

  function TypeOf(sig: Signature, code: Code, op: Operand): Ty {
    match op
    case Argument(k) => if k < |sig.params| then sig.params[k] else Void
    case Result(b, i) => if IsInst(code, b, i) then code[b][i].ty else Void
    case Null(ty) => ty
    case Undefined(ty) => ty
    case Constant(_) => Scalar
    case Global(_) => RawPointer
    case FunctionRef(_) => RawPointer
  }

  // ----- Erasing address spaces, and leaving out debug calls -----

  function EraseTy(t: Ty): Ty {
    if t == ManagedPointer then RawPointer else t
  }

  function EraseOperand(op: Operand): Operand {
    match op
    case Null(ty) => Null(EraseTy(ty))
    case Undefined(ty) => Undefined(EraseTy(ty))
    case _ => op
  }

  function EraseOperands(ops: seq<Operand>): (r: seq<Operand>)
    ensures |r| == |ops| && forall k :: 0 <= k < |r| ==> r[k] == EraseOperand(ops[k])
  {
    seq(|ops|, k requires 0 <= k < |ops| => EraseOperand(ops[k]))
  }

  function EraseOpcode(op: Opcode): Opcode {
    match op
    case Alloca(slot) => Alloca(EraseTy(slot))
    case _ => op
  }

  function Erase(instr: Instr): Instr {
    Instr(EraseOpcode(instr.op), EraseTy(instr.ty), EraseOperands(instr.operands), instr.blocks)
  }

  /** Where instruction i of a block ends up once the debug calls before it are gone. */
  function NewIndex(block: seq<Instr>, i: nat): nat {
    if i == 0 || i > |block| then 0
    else NewIndex(block, i - 1) + if block[i - 1].op.DebugCall? then 0 else 1
  }

  /** An operand of the old code, as named in code without debug calls. */
  function Shift(code: Code, op: Operand): Operand {
    match op
    case Result(b, i) => if IsInst(code, b, i) then Result(b, NewIndex(code[b], i)) else op
    case _ => op
  }

  function ShiftAll(code: Code, ops: seq<Operand>): (r: seq<Operand>)
    ensures |r| == |ops| && forall k :: 0 <= k < |r| ==> r[k] == Shift(code, ops[k])
  {
    seq(|ops|, k requires 0 <= k < |ops| => Shift(code, ops[k]))
  }

  /** The old instruction with its operands renamed and its address spaces erased. */
  function Plain(code: Code, instr: Instr): Instr {
    Erase(instr.(operands := ShiftAll(code, instr.operands)))
  }

  /** The first n instructions of a block, without debug calls. */
  function Kept(code: Code, block: seq<Instr>, n: nat): (r: seq<Instr>)
    requires n <= |block|
    ensures |r| == NewIndex(block, n)
  {
    if n == 0 then []
    else Kept(code, block, n - 1) + if block[n - 1].op.DebugCall? then [] else [Plain(code, block[n - 1])]
  }

  // ----- Mapping values -----

  type ValueMap = map<Operand, Operand>

  /** mapValue: values by the map, constants by their type. */
  function MapValue(values: ValueMap, op: Operand, expected: Ty, b: nat): Outcome<Operand> {
    if op in values then Ok(values[op])
    else
      match op
      case FunctionRef(_) => Ok(op)
      case Null(_) => if IsPointer(expected) then Ok(Null(expected)) else Err(TypeMismatch(b))
      case Undefined(_) => Ok(Undefined(expected))
      case Constant(_) => if expected == Scalar then Ok(op) else Err(TypeMismatch(b))
      case Global(_) => if expected == RawPointer then Ok(op) else Err(TypeMismatch(b))
      case Argument(_) => Err(CannotRemap(b))
      case Result(_, _) => Err(CannotRemap(b))
  }

  function MapAll(values: ValueMap, ops: seq<Operand>, expected: seq<Ty>, b: nat): Outcome<seq<Operand>>
    requires |ops| == |expected|
  {
    if ops == [] then Ok([])
    else
      var last := |ops| - 1;
      var front := MapAll(values, ops[..last], expected[..last], b);
      if front.Err? then front
      else
        var mapped := MapValue(values, ops[last], expected[last], b);
        if mapped.Err? then Err(mapped.error) else Ok(front.value + [mapped.value])
  }

  function Types(sig: Signature, code: Code, ops: seq<Operand>): (r: seq<Ty>)
    ensures |r| == |ops| && forall k :: 0 <= k < |r| ==> r[k] == TypeOf(sig, code, ops[k])
  {
    seq(|ops|, k requires 0 <= k < |ops| => TypeOf(sig, code, ops[k]))
  }

  /** The types a call's arguments are mapped to: the callee's parameters, then their own. */
  function ArgumentTypes(callee: Signature, own: seq<Ty>): (r: seq<Ty>)
    ensures |r| == |own|
  {
    seq(|own|, k requires 0 <= k < |own| => if k < |callee.params| then callee.params[k] else own[k])
  }

  /** The map sends old values to their places in the new code, and expected types differ from the
      old ones in the address space at most. */
  ghost predicate MapsInPlace(code: Code, values: ValueMap) {
    forall op :: op in values ==> (op.Result? || op.Argument?) && values[op] == Shift(code, op)
  }

  predicate SameButSpace(a: Ty, b: Ty) {
    EraseTy(a) == EraseTy(b)
  }

  lemma MappedIsShifted(sig: Signature, code: Code, values: ValueMap, op: Operand, expected: Ty, b: nat)
    requires MapsInPlace(code, values) && MapValue(values, op, expected, b).Ok? && SameButSpace(expected, TypeOf(sig, code, op))
    ensures EraseOperand(MapValue(values, op, expected, b).value) == EraseOperand(Shift(code, op))
  {
  }

  lemma {:induction false} AllMappedAreShifted(sig: Signature, code: Code, values: ValueMap, ops: seq<Operand>, expected: seq<Ty>, b: nat)
    requires |ops| == |expected| && MapsInPlace(code, values) && MapAll(values, ops, expected, b).Ok?
    requires forall k :: 0 <= k < |ops| ==> SameButSpace(expected[k], TypeOf(sig, code, ops[k]))
    ensures var r := MapAll(values, ops, expected, b).value;
      |r| == |ops| && EraseOperands(r) == EraseOperands(ShiftAll(code, ops))
  {
    hide MapsInPlace, MapValue, Shift, EraseOperand, TypeOf;
    if ops != [] {
      var last := |ops| - 1;
      AllMappedAreShifted(sig, code, values, ops[..last], expected[..last], b);
      MappedIsShifted(sig, code, values, ops[last], expected[last], b);
      var front, r := MapAll(values, ops[..last], expected[..last], b).value, MapAll(values, ops, expected, b).value;
      forall k | 0 <= k < |r|
        ensures EraseOperands(r)[k] == EraseOperands(ShiftAll(code, ops))[k]
      {
        if k < last {
          assert EraseOperands(front)[k] == EraseOperands(ShiftAll(code, ops[..last]))[k];
          assert ops[..last][k] == ops[k];
        }
      }
    }
  }

  /** An operand that is a value of the function, and so must be in the map. */
  predicate IsLocal(op: Operand) {
    op.Argument? || op.Result?
  }

  lemma {:induction false} RemapNeedsMissing(values: ValueMap, ops: seq<Operand>, expected: seq<Ty>, b: nat)
    requires |ops| == |expected| && forall k :: 0 <= k < |ops| && IsLocal(ops[k]) ==> ops[k] in values
    ensures MapAll(values, ops, expected, b).Err? ==> MapAll(values, ops, expected, b).error == TypeMismatch(b)
  {
    if ops != [] {
      var last := |ops| - 1;
      assert forall k :: 0 <= k < last ==> ops[..last][k] == ops[k];
      RemapNeedsMissing(values, ops[..last], expected[..last], b);
    }
  }

  // ----- One instruction -----

  /** What the lowering asks the managed-state analysis: which values, variables and locations are of
      a managed kind, which variable a pointer names, and the replacement signatures of functions. */
  datatype Kinds = Kinds(values: set<Operand>, slots: set<Operand>, locations: set<Operand>, trackedSlot: map<Operand, Operand>,
                         functions: seq<Signature>)

  /** The function being rebuilt: its old and new signature, its old code, and the new code so far. */
  datatype Context = Context(sig: Signature, newSig: Signature, kinds: Kinds, original: Code, rebuilt: Code, values: ValueMap)

  function OldType(c: Context, op: Operand): Ty {
    TypeOf(c.sig, c.original, op)
  }

  function NewType(c: Context, op: Operand): Ty {
    TypeOf(c.newSig, c.rebuilt, op)
  }

  function OwnTypes(c: Context, ops: seq<Operand>): (r: seq<Ty>)
    ensures |r| == |ops| && forall k :: 0 <= k < |r| ==> r[k] == OldType(c, ops[k])
  {
    Types(c.sig, c.original, ops)
  }

  /** A pointer type, in the managed space if the analysis says so. */
  function Spaced(ty: Ty, managed: bool): Ty {
    if IsPointer(ty) && managed then ManagedPointer else ty
  }

  /** The type lowerStore wants the stored value to have. */
  function StoredType(c: Context, value: Operand, pointer: Operand): Ty {
    var ty := OldType(c, value);
    if !IsPointer(ty) then ty
    else if pointer in c.kinds.trackedSlot then Spaced(ty, c.kinds.trackedSlot[pointer] in c.kinds.slots)
    else Spaced(ty, pointer in c.kinds.locations || value in c.kinds.values)
  }

  /** The types lowerICmp wants, when pointers are compared: that of whichever side is mapped. */
  function ComparedTypes(c: Context, left: Operand, right: Operand): seq<Ty> {
    if left in c.values && IsPointer(NewType(c, c.values[left])) then [NewType(c, c.values[left]), NewType(c, c.values[left])]
    else if right in c.values && IsPointer(NewType(c, c.values[right])) then [NewType(c, c.values[right]), NewType(c, c.values[right])]
    else [OldType(c, left), OldType(c, right)]
  }

  /** The operand types an instruction's operands are mapped to. */
  function Expected(c: Context, b: nat, i: nat): (r: seq<Ty>)
    requires IsInst(c.original, b, i)
    ensures |r| == |c.original[b][i].operands|
  {
    var instr := c.original[b][i];
    var ops := instr.operands;
    var own := OwnTypes(c, ops);
    var result := Spaced(instr.ty, Result(b, i) in c.kinds.values);
    match instr.op
    case Store => if |ops| == 2 then [StoredType(c, ops[0], ops[1]), own[1]] else own
    case Select => if |ops| == 3 then [own[0], result, result] else own
    case Freeze => if |ops| == 1 && (IsPointer(instr.ty) || IsPointer(own[0])) then [result] else own
    case ICmp(_) => if |ops| == 2 && (IsPointer(own[0]) || IsPointer(own[1])) then ComparedTypes(c, ops[0], ops[1]) else own
    case DirectCall(f) => if f < |c.kinds.functions| then ArgumentTypes(c.kinds.functions[f], own) else own
    case Return => if |ops| == 1 then [c.newSig.ret] else own
    case _ => own
  }

  /** The instruction rebuilt from its mapped operands. */
  function Rebuilt(c: Context, b: nat, i: nat, mapped: seq<Operand>): Instr
    requires IsInst(c.original, b, i) && |mapped| == |c.original[b][i].operands|
  {
    var instr := c.original[b][i];
    var managed := Result(b, i) in c.kinds.values;
    match instr.op
    case Alloca(slot) => instr.(op := Alloca(Spaced(slot, Result(b, i) in c.kinds.slots)), operands := mapped)
    case Load => instr.(ty := Spaced(instr.ty, managed), operands := mapped)
    case Gep => instr.(ty := if mapped == [] then instr.ty else NewType(c, mapped[0]), operands := mapped)
    case Select => instr.(ty := if |mapped| < 2 then instr.ty else NewType(c, mapped[1]), operands := mapped)
    case Freeze => instr.(ty := if mapped == [] then instr.ty else NewType(c, mapped[0]), operands := mapped)
    case DirectCall(f) => instr.(ty := if f < |c.kinds.functions| then c.kinds.functions[f].ret else instr.ty, operands := mapped)
    case _ => instr.(operands := mapped)
  }

  /** Instructions the generic clone handles accept no operand whose type has changed; a store accepts
      only a value of the type it wants. */
  predicate TypesAccepted(c: Context, b: nat, i: nat, mapped: seq<Operand>)
    requires IsInst(c.original, b, i) && |mapped| == |c.original[b][i].operands|
  {
    var instr := c.original[b][i];
    var own := OwnTypes(c, instr.operands);
    match instr.op
    case Store => |mapped| == 2 ==> NewType(c, mapped[0]) == StoredType(c, instr.operands[0], instr.operands[1])
    case Generic(_) => forall k :: 0 <= k < |mapped| ==> NewType(c, mapped[k]) == own[k]
    case Freeze => |own| == 1 && !IsPointer(instr.ty) && !IsPointer(own[0]) ==> NewType(c, mapped[0]) == own[0]
    case ICmp(_) => |own| == 2 && !IsPointer(own[0]) && !IsPointer(own[1]) ==> NewType(c, mapped[0]) == own[0] && NewType(c, mapped[1]) == own[1]
    case _ => true
  }

  predicate IsSupported(c: Context, b: nat, i: nat)
    requires IsInst(c.original, b, i)
  {
    var instr := c.original[b][i];
    match instr.op
    case DirectCall(f) => f < |c.kinds.functions|
    case IndirectCall =>
      !(IsPointer(instr.ty) && Result(b, i) in c.kinds.values)
      && forall k :: 0 < k < |instr.operands| ==> !(IsPointer(OldType(c, instr.operands[k])) && instr.operands[k] in c.kinds.values)
    case _ => true
  }

  /** lowerInstruction, for anything but a debug call. A phi starts without incoming values. */
  function Lower(c: Context, b: nat, i: nat): Outcome<Instr>
    requires IsInst(c.original, b, i)
  {
    var instr := c.original[b][i];
    if instr.op == Phi then Ok(Instr(Phi, Spaced(instr.ty, Result(b, i) in c.kinds.values), [], []))
    else if !IsSupported(c, b, i) then Err(Unsupported(b))
    else
      var mapped := MapAll(c.values, instr.operands, Expected(c, b, i), b);
      if mapped.Err? then Err(mapped.error)
      else
        MapAllSize(c.values, instr.operands, Expected(c, b, i), b);
        if !TypesAccepted(c, b, i, mapped.value) then Err(TypeMismatch(b)) else Ok(Rebuilt(c, b, i, mapped.value))
  }

  lemma {:induction false} MapAllSize(values: ValueMap, ops: seq<Operand>, expected: seq<Ty>, b: nat)
    requires |ops| == |expected|
    ensures MapAll(values, ops, expected, b).Ok? ==> |MapAll(values, ops, expected, b).value| == |ops|
  {
    if ops != [] { MapAllSize(values, ops[..|ops| - 1], expected[..|ops| - 1], b); }
  }

  // ----- A lowered instruction is the old one, address spaces aside -----

  /** Typing of the old code, up to address spaces. */
  predicate WellTyped(sig: Signature, functions: seq<Signature>, code: Code, instr: Instr) {
    var ops := instr.operands;
    match instr.op
    case Gep => |ops| > 0 && SameButSpace(instr.ty, TypeOf(sig, code, ops[0]))
    case Select => |ops| == 3 && SameButSpace(instr.ty, TypeOf(sig, code, ops[1])) && SameButSpace(instr.ty, TypeOf(sig, code, ops[2]))
    case Freeze => |ops| == 1 && SameButSpace(instr.ty, TypeOf(sig, code, ops[0]))
    case ICmp(_) => |ops| == 2 && SameButSpace(TypeOf(sig, code, ops[0]), TypeOf(sig, code, ops[1]))
    case Store => |ops| == 2
    case DirectCall(f) =>
      (f < |functions| ==> SameButSpace(instr.ty, functions[f].ret))
      && (f < |functions| ==> forall k :: 0 <= k < |ops| && k < |functions[f].params| ==> SameButSpace(functions[f].params[k], TypeOf(sig, code, ops[k])))
    case Return => |ops| == 1 ==> SameButSpace(sig.ret, TypeOf(sig, code, ops[0]))
    case Phi => |ops| == |instr.blocks| && forall k :: 0 <= k < |ops| ==> SameButSpace(instr.ty, TypeOf(sig, code, ops[k]))
    case _ => true
  }

  ghost predicate WellTypedCode(sig: Signature, functions: seq<Signature>, code: Code) {
    forall b: nat, i: nat :: IsInst(code, b, i) ==> WellTyped(sig, functions, code, code[b][i])
  }

  predicate SameSignature(a: Signature, b: Signature) {
    |a.params| == |b.params| && SameButSpace(a.ret, b.ret) && forall k :: 0 <= k < |a.params| ==> SameButSpace(a.params[k], b.params[k])
  }

  /** What holds of the context throughout: the map sends old values to their places, and types there
      have changed in the address space at most. */
  ghost predicate ContextOK(c: Context) {
    && SameSignature(c.sig, c.newSig) && WellTypedCode(c.sig, c.kinds.functions, c.original)
    && MapsInPlace(c.original, c.values)
    && forall op :: op in c.values ==> SameButSpace(NewType(c, c.values[op]), OldType(c, op))
  }

  lemma StoredOnlyMovesSpace(c: Context, value: Operand, pointer: Operand)
    ensures SameButSpace(StoredType(c, value, pointer), OldType(c, value))
  {
    hide TypeOf;
  }

  lemma ComparedOnlyMovesSpaces(c: Context, left: Operand, right: Operand)
    requires ContextOK(c) && SameButSpace(OldType(c, left), OldType(c, right))
    ensures SameButSpace(ComparedTypes(c, left, right)[0], OldType(c, left)) && SameButSpace(ComparedTypes(c, left, right)[1], OldType(c, right))
  {
    hide TypeOf, WellTypedCode, MapsInPlace, SameSignature;
  }

  lemma ExpectedOnlyMovesSpaces(c: Context, b: nat, i: nat, k: nat)
    requires ContextOK(c) && IsInst(c.original, b, i) && k < |c.original[b][i].operands|
    ensures SameButSpace(Expected(c, b, i)[k], OldType(c, c.original[b][i].operands[k]))
  {
    var instr := c.original[b][i];
    assert WellTyped(c.sig, c.kinds.functions, c.original, instr);
    var ops := instr.operands;
    if instr.op.Store? { StoredOnlyMovesSpace(c, ops[0], ops[1]); }
    if instr.op.ICmp? { ComparedOnlyMovesSpaces(c, ops[0], ops[1]); }
    assert SameButSpace(c.newSig.ret, c.sig.ret);
    hide TypeOf, WellTypedCode, MapsInPlace, StoredType, ComparedTypes, ContextOK, SameSignature;
  }

  lemma MappedTypeOnlyMovesSpaces(c: Context, op: Operand, expected: Ty, b: nat)
    requires ContextOK(c) && MapValue(c.values, op, expected, b).Ok? && SameButSpace(expected, OldType(c, op))
    ensures SameButSpace(NewType(c, MapValue(c.values, op, expected, b).value), OldType(c, op))
  {
    hide MapsInPlace, WellTypedCode, SameSignature;
  }

  lemma {:induction false} MappedAt(values: ValueMap, ops: seq<Operand>, expected: seq<Ty>, b: nat, k: nat)
    requires |ops| == |expected| && k < |ops| && MapAll(values, ops, expected, b).Ok?
    ensures |MapAll(values, ops, expected, b).value| == |ops|
    ensures MapValue(values, ops[k], expected[k], b) == Ok(MapAll(values, ops, expected, b).value[k])
  {
    hide MapValue;
    MapAllSize(values, ops, expected, b);
    var last := |ops| - 1;
    MapAllSize(values, ops[..last], expected[..last], b);
    if k < last {
      MappedAt(values, ops[..last], expected[..last], b, k);
    }
  }

  /** A phi before its incoming values are filled in. */
  function Blank(instr: Instr): Instr {
    if instr.op == Phi then instr.(operands := [], blocks := []) else instr
  }

  lemma LoweredErases(c: Context, b: nat, i: nat)
    requires ContextOK(c) && IsInst(c.original, b, i) && Lower(c, b, i).Ok?
    ensures Erase(Lower(c, b, i).value) == Blank(Plain(c.original, c.original[b][i]))
    ensures SameButSpace(Lower(c, b, i).value.ty, c.original[b][i].ty) && Lower(c, b, i).value.op.Phi? == c.original[b][i].op.Phi?
    ensures !c.original[b][i].op.DebugCall? ==> !Lower(c, b, i).value.op.DebugCall?
  {
    var instr := c.original[b][i];
    if instr.op != Phi {
      var expected := Expected(c, b, i);
      var mapped := MapAll(c.values, instr.operands, expected, b).value;
      MapAllSize(c.values, instr.operands, expected, b);
      forall k | 0 <= k < |instr.operands|
        ensures SameButSpace(expected[k], OldType(c, instr.operands[k])) && SameButSpace(NewType(c, mapped[k]), OldType(c, instr.operands[k]))
      {
        ExpectedOnlyMovesSpaces(c, b, i, k);
        MappedAt(c.values, instr.operands, expected, b, k);
        MappedTypeOnlyMovesSpaces(c, instr.operands[k], expected[k], b);
      }
      AllMappedAreShifted(c.sig, c.original, c.values, instr.operands, expected, b);
      assert WellTyped(c.sig, c.kinds.functions, c.original, instr);
      hide Expected, MapAll, MapsInPlace, WellTypedCode, SameSignature, TypeOf, EraseOperands, ShiftAll, OwnTypes, TypesAccepted, IsSupported;
    } else {
      assert EraseOperands([]) == [];
    }
  }
}
