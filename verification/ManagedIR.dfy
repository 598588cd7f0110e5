/** A small SSA language: the part of the compiler's intermediate representation that the
    managed-pointer passes look at. Code is a flat list; a branch names the instruction it goes to,
    and an instruction's result is named by its position. */
module ManagedIR {
  import opened Wrappers

  datatype Operand =
    | Null
    | Scalar(value: int)
    | Global(index: nat)
    | FunctionRef(index: nat)
    | Arg(index: nat)
    | Result(index: nat)

  /** A phi operand and the branch instruction it comes in from. */
  datatype Incoming = Incoming(branch: nat, value: Operand)

  datatype Inst =
    | Alloca(slotIsPointer: bool)
    | Gep(base: Operand, offset: Operand, fieldIsPointer: bool)
    | Phi(incoming: seq<Incoming>, isPointer: bool)
    | Select(condition: Operand, ifTrue: Operand, ifFalse: Operand, isPointer: bool)
    | Freeze(source: Operand, isPointer: bool)
    | Load(pointer: Operand, isPointer: bool)
    | Store(value: Operand, pointer: Operand)
    | Call(callee: nat, args: seq<Operand>)
    | IndirectCall(target: Operand, args: seq<Operand>, isPointer: bool)
    | Compute(operation: nat, left: Operand, right: Operand)
    | Br(condition: Operand, onTrue: nat, onFalse: nat)
    | Ret(value: Operand)

  /** The allocation entry points are recognised by name; those that take a descriptor are typed. */
  datatype Role = Ordinary | ObjectAllocator | ArrayAllocator(typed: bool)

  /** params[i] and returnsPointer say which of a function's values are pointers. */
  datatype Function = Function(
    params: seq<bool>, returnsPointer: bool, role: Role, isDeclaration: bool, hasAddressTaken: bool, isVarArg: bool, code: seq<Inst>)

  /** globals[g] says whether global g holds a pointer. */
  datatype Module = Module(functions: seq<Function>, globals: seq<bool>)

  function Operands(inst: Inst): seq<Operand> {
    match inst
    case Alloca(_) => []
    case Gep(base, offset, _) => [base, offset]
    case Phi(incoming, _) => IncomingValues(incoming)
    case Select(condition, ifTrue, ifFalse, _) => [condition, ifTrue, ifFalse]
    case Freeze(source, _) => [source]
    case Load(pointer, _) => [pointer]
    case Store(value, pointer) => [value, pointer]
    case Call(_, args) => args
    case IndirectCall(target, args, _) => [target] + args
    case Compute(_, left, right) => [left, right]
    case Br(condition, _, _) => [condition]
    case Ret(value) => [value]
  }

  function IncomingValues(incoming: seq<Incoming>): seq<Operand> {
    if incoming == [] then [] else IncomingValues(incoming[..|incoming| - 1]) + [incoming[|incoming| - 1].value]
  }

  predicate IsInst(m: Module, f: nat, i: nat) {
    f < |m.functions| && i < |m.functions[f].code|
  }

  predicate ResultIsPointer(m: Module, inst: Inst) {
    match inst
    case Alloca(_) => true
    case Gep(_, _, _) => true
    case Phi(_, isPointer) => isPointer
    case Select(_, _, _, isPointer) => isPointer
    case Freeze(_, isPointer) => isPointer
    case Load(_, isPointer) => isPointer
    case Call(callee, _) => callee < |m.functions| && m.functions[callee].returnsPointer
    case IndirectCall(_, _, isPointer) => isPointer
    case _ => false
  }

  /** value.getType()->isPointerTy(), for an operand of an instruction of function f. */
  predicate IsPointer(m: Module, f: nat, op: Operand) {
    match op
    case Null => true
    case Scalar(_) => false
    case Global(_) => true
    case FunctionRef(_) => true
    case Arg(i) => f < |m.functions| && i < |m.functions[f].params| && m.functions[f].params[i]
    case Result(i) => IsInst(m, f, i) && ResultIsPointer(m, m.functions[f].code[i])
  }

  /** stripPointerCasts: looks through address computations with a zero offset; the fuel stands for
      its visited set, which stops it on a cycle. */
  function Strip(m: Module, f: nat, op: Operand, fuel: nat): Operand
    decreases fuel
  {
    if fuel > 0 && op.Result? && IsInst(m, f, op.index) && m.functions[f].code[op.index].Gep? && m.functions[f].code[op.index].offset == Scalar(0)
    then Strip(m, f, m.functions[f].code[op.index].base, fuel - 1)
    else op
  }

  function Stripped(m: Module, f: nat, op: Operand): Operand {
    if f < |m.functions| then Strip(m, f, op, |m.functions[f].code|) else op
  }

  /** A value of the module. Constants are the same value in every function. */
  datatype ValueKey = ValueKey(f: nat, op: Operand)

  function Key(f: nat, op: Operand): ValueKey {
    if op.Arg? || op.Result? then ValueKey(f, op) else ValueKey(0, op)
  }

  /** getTrackedSlot: the local or global variable of pointer type that an operand points at. */
  function TrackedSlot(m: Module, f: nat, op: Operand): Option<ValueKey> {
    var slot := Stripped(m, f, op);
    match slot
    case Result(i) => if IsInst(m, f, i) && m.functions[f].code[i] == Alloca(true) then Some(Key(f, slot)) else None
    case Global(g) => if g < |m.globals| && m.globals[g] then Some(Key(f, slot)) else None
    case _ => None
  }
}
