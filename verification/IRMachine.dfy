/** How programs in the small SSA language run: a machine with a stack of frames and a memory,
    stepping one instruction at a time. What external code returns is chosen outside. */
module IRMachine {
  import opened ManagedIR

  datatype Provenance = FromNull | FromRaw | FromObject | FromArray

  /** A pointer remembers what kind of storage it was made from. */
  datatype Value = Undef | Int(n: int) | Pointer(provenance: Provenance, address: int)

  /** `entry` is the environment at the branch last taken: phis read it, all at once. */
  datatype Frame = Frame(f: nat, pc: nat, branch: nat, args: seq<Value>, env: map<nat, Value>, entry: map<nat, Value>)

  datatype Outcome = Running | Done(value: Value) | Stuck

  /** The last frame is the running one. */
  datatype Machine = Machine(frames: seq<Frame>, memory: map<int, Value>, next: nat, outcome: Outcome)

  function FunctionAddress(f: nat): int {
    -1 - f
  }

  /** Globals follow the null address. */
  function GlobalAddress(g: nat): int {
    g + 1
  }

  function Operate(operation: nat, left: int, right: int): int {
    if operation == 0 then left + right
    else if operation == 1 then left - right
    else if operation == 2 then left * right
    else if left < right then 1 else 0
  }

  /** Integers used as pointers, and pointers used as integers, lose or never have a provenance. */
  function Coerce(isPointer: bool, v: Value): Value {
    if isPointer && v.Int? then Undef
    else if !isPointer && v.Pointer? then Int(v.address)
    else v
  }

  function Eval(args: seq<Value>, env: map<nat, Value>, op: Operand): Value {
    match op
    case Null => Pointer(FromNull, 0)
    case Scalar(n) => Int(n)
    case Global(g) => Pointer(FromRaw, GlobalAddress(g))
    case FunctionRef(k) => Pointer(FromRaw, FunctionAddress(k))
    case Arg(i) => if i < |args| then args[i] else Undef
    case Result(i) => if i in env then env[i] else Undef
  }

  function EvalAll(args: seq<Value>, env: map<nat, Value>, ops: seq<Operand>): seq<Value> {
    if ops == [] then [] else EvalAll(args, env, ops[..|ops| - 1]) + [Eval(args, env, ops[|ops| - 1])]
  }

  /** The values a call hands over, cut to the parameters and typed by them. */
  function Arguments(m: Module, callee: nat, values: seq<Value>): seq<Value>
    requires callee < |m.functions|
  {
    var params := m.functions[callee].params;
    seq(|params|, i requires 0 <= i < |params| => if i < |values| then Coerce(params[i], values[i]) else Undef)
  }

  /** The value a phi takes when control came from the given branch. */
  function PhiValue(frame: Frame, incoming: seq<Incoming>): Value {
    if incoming == [] then Undef
    else if incoming[0].branch == frame.branch then Eval(frame.args, frame.entry, incoming[0].value)
    else PhiValue(frame, incoming[1..])
  }

  /** What a function outside the module returns. */
  function ExternalResult(callee: Function, choice: int): Value {
    if !callee.returnsPointer then Int(choice)
    else
      match callee.role
      case ObjectAllocator => Pointer(FromObject, choice)
      case ArrayAllocator(_) => Pointer(FromArray, choice)
      case Ordinary => Pointer(FromRaw, choice)
  }

  function Load(memory: map<int, Value>, pointer: Value): Value {
    if pointer.Pointer? && pointer.address in memory then memory[pointer.address] else Undef
  }

  function Top(s: Machine): Frame
    requires s.frames != []
  {
    s.frames[|s.frames| - 1]
  }

  function WithTop(s: Machine, frame: Frame): Machine
    requires s.frames != []
  {
    s.(frames := s.frames[..|s.frames| - 1] + [frame])
  }

  /** Gives the running instruction its result and moves on. */
  function Assign(m: Module, s: Machine, v: Value): Machine
    requires s.frames != [] && IsInst(m, Top(s).f, Top(s).pc)
  {
    var frame := Top(s);
    var isPointer := ResultIsPointer(m, m.functions[frame.f].code[frame.pc]);
    WithTop(s, frame.(pc := frame.pc + 1, env := frame.env[frame.pc := Coerce(isPointer, v)]))
  }

  function Enter(m: Module, s: Machine, callee: nat, values: seq<Value>): Machine
    requires callee < |m.functions|
  {
    s.(frames := s.frames + [Frame(callee, 0, 0, Arguments(m, callee, values), map[], map[])])
  }

  function CallFunction(m: Module, s: Machine, callee: nat, values: seq<Value>, choice: int): Machine
    requires s.frames != [] && IsInst(m, Top(s).f, Top(s).pc)
  {
    if callee >= |m.functions| then s.(outcome := Stuck)
    else if m.functions[callee].isDeclaration then Assign(m, s, ExternalResult(m.functions[callee], choice))
    else Enter(m, s, callee, values)
  }

  /** The function an indirect call reaches: only functions whose address is taken. */
  function IndirectTarget(m: Module, target: Value): (k: int)
    ensures 0 <= k ==> k < |m.functions| && m.functions[k].hasAddressTaken
  {
    if target.Pointer? && target.address < 0 && -1 - target.address < |m.functions| && m.functions[-1 - target.address].hasAddressTaken
    then -1 - target.address
    else -1
  }

  /** Pops the running frame and gives its value to the waiting call. */
  function Return(m: Module, s: Machine, v: Value): Machine
    requires s.frames != []
  {
    var frame := Top(s);
    var v' := if frame.f < |m.functions| then Coerce(m.functions[frame.f].returnsPointer, v) else v;
    var rest := s.(frames := s.frames[..|s.frames| - 1]);
    if rest.frames == [] then rest.(outcome := Done(v'))
    else if IsInst(m, Top(rest).f, Top(rest).pc) then Assign(m, rest, v')
    else rest.(outcome := Stuck)
  }

  /** The value an instruction computes from operands and memory. */
  function Computed(s: Machine, frame: Frame, inst: Inst): Value {
    var Value := (op: Operand) => Eval(frame.args, frame.env, op);
    match inst
    case Alloca(_) => Pointer(FromRaw, s.next)
    case Gep(base, offset, _) =>
      var b, o := Value(base), Value(offset);
      if b.Pointer? && o.Int? then b.(address := b.address + o.n) else Undef
    case Phi(incoming, _) => PhiValue(frame, incoming)
    case Select(condition, ifTrue, ifFalse, _) => if Value(condition) == Int(0) then Value(ifFalse) else Value(ifTrue)
    case Freeze(source, _) => Value(source)
    case Load(pointer, _) => Load(s.memory, Value(pointer))
    case Compute(operation, left, right) =>
      var l, r := Value(left), Value(right);
      if l.Int? && r.Int? then Int(Operate(operation, l.n, r.n)) else Undef
    case _ => Undef
  }

  /** What an instruction does to memory; a stored value is a pointer or not, by its type. */
  function Effect(s: Machine, frame: Frame, inst: Inst, storesPointer: bool): Machine {
    match inst
    case Alloca(_) => s.(memory := s.memory[s.next := Undef], next := s.next + 1)
    case Store(value, pointer) =>
      var p := Eval(frame.args, frame.env, pointer);
      if p.Pointer? then s.(memory := s.memory[p.address := Coerce(storesPointer, Eval(frame.args, frame.env, value))]) else s
    case _ => s
  }

  predicate StoresPointer(m: Module, f: nat, inst: Inst) {
    inst.Store? && IsPointer(m, f, inst.value)
  }

  /** One instruction; `choice` is what external code returns, if it is called. */
  function Step(m: Module, s: Machine, choice: int): Machine {
    if s.outcome != Running then s
    else if s.frames == [] || !IsInst(m, Top(s).f, Top(s).pc) then s.(outcome := Stuck)
    else
      var frame := Top(s);
      var inst := m.functions[frame.f].code[frame.pc];
      match inst
      case Call(callee, args) => CallFunction(m, s, callee, EvalAll(frame.args, frame.env, args), choice)
      case IndirectCall(target, args, _) =>
        var k := IndirectTarget(m, Eval(frame.args, frame.env, target));
        if k >= 0 then CallFunction(m, s, k, EvalAll(frame.args, frame.env, args), choice) else s.(outcome := Stuck)
      case Br(condition, onTrue, onFalse) =>
        WithTop(s, frame.(pc := if Eval(frame.args, frame.env, condition) == Int(0) then onFalse else onTrue,
                          branch := frame.pc, entry := frame.env))
      case Ret(value) => Return(m, s, Eval(frame.args, frame.env, value))
      case _ => Assign(m, Effect(s, frame, inst, StoresPointer(m, frame.f, inst)), Computed(s, frame, inst))
  }

  function Run(m: Module, s: Machine, choices: seq<int>): Machine {
    if choices == [] then s else Step(m, Run(m, s, choices[..|choices| - 1]), choices[|choices| - 1])
  }

  /** A call of f from outside; memory holds what the globals were initialised with. */
  function Start(m: Module, f: nat, values: seq<Value>, memory: map<int, Value>): Machine
    requires f < |m.functions|
  {
    Machine([Frame(f, 0, 0, Arguments(m, f, values), map[], map[])], memory, |m.globals| + 1, Running)
  }
}
