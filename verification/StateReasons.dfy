/** Where the bits in the tables of the managed-state analysis come from: rules that put one bit into
    one entry, and the proof that visits add exactly what the rules give. */
module StateReasons {
  import opened Wrappers
  import opened ManagedIR
  import opened ManagedState
  import opened ManagedStateAnalysisModule
  import opened StateSolutions

  predicate IsIn(b: StateBit, c: Cell, s: States) {
    c in s && b in s[c]
  }

  // ----- Which variable an operand points at -----

  /** An address computation that adds nothing. */
  predicate IsCast(m: Module, f: nat, op: Operand) {
    op.Result? && IsInst(m, f, op.index) && m.functions[f].code[op.index].Gep? && m.functions[f].code[op.index].offset == Scalar(0)
  }

  /** n casts lie between the two. */
  predicate CastFrom(m: Module, f: nat, op: Operand, v: Operand, n: nat)
    decreases n
  {
    if n == 0 then op == v else IsCast(m, f, op) && CastFrom(m, f, m.functions[f].code[op.index].base, v, n - 1)
  }

  /** A local or global variable of pointer type. */
  predicate IsVariable(m: Module, f: nat, v: Operand) {
    match v
    case Result(i) => f < |m.functions| && i < |m.functions[f].code| && m.functions[f].code[i] == Alloca(true)
    case Global(g) => g < |m.globals| && m.globals[g]
    case _ => false
  }

  lemma {:induction false} StripsCasts(m: Module, f: nat, op: Operand, fuel: nat) returns (n: nat)
    ensures n <= fuel && CastFrom(m, f, op, Strip(m, f, op, fuel), n)
    ensures IsCast(m, f, Strip(m, f, op, fuel)) ==> n == fuel
    decreases fuel
  {
    n := 0;
    if fuel > 0 && IsCast(m, f, op) {
      n := StripsCasts(m, f, m.functions[f].code[op.index].base, fuel - 1);
      n := n + 1;
    }
  }

  lemma {:induction false} CastsAreStripped(m: Module, f: nat, op: Operand, v: Operand, n: nat, fuel: nat)
    requires CastFrom(m, f, op, v, n) && n <= fuel && !IsCast(m, f, v)
    ensures Strip(m, f, op, fuel) == v
    decreases n
  {
    if n > 0 { CastsAreStripped(m, f, m.functions[f].code[op.index].base, v, n - 1, fuel - 1); }
  }

  /** An operand names the variable it is a chain of casts away from; a chain longer than the code could
      only be a cycle. */
  ghost predicate PointsAt(m: Module, f: nat, op: Operand, v: Operand)
    requires f < |m.functions|
  {
    IsVariable(m, f, v) && exists n: nat :: n <= |m.functions[f].code| && CastFrom(m, f, op, v, n)
  }

  lemma TrackedSlotIff(m: Module, f: nat, op: Operand, slot: ValueKey)
    requires f < |m.functions|
    ensures TrackedSlot(m, f, op) == Some(slot) <==>
      exists v :: PointsAt(m, f, op, v) && slot == if v.Global? then ValueKey(0, v) else ValueKey(f, v)
  {
    hide Strip;
    var n := StripsCasts(m, f, op, |m.functions[f].code|);
    forall v | PointsAt(m, f, op, v)
      ensures Stripped(m, f, op) == v
    {
      var k: nat :| k <= |m.functions[f].code| && CastFrom(m, f, op, v, k);
      CastsAreStripped(m, f, op, v, k, |m.functions[f].code|);
    }
    if TrackedSlot(m, f, op) == Some(slot) { assert PointsAt(m, f, op, Stripped(m, f, op)); }
  }

  // ----- What the tables say of an operand, bit by bit -----

  predicate MayBe(m: Module, f: nat, op: Operand, b: StateBit, s: States) {
    match op
    case Null => b == IsNull
    case Scalar(_) => false
    case Global(_) => b == IsRaw
    case FunctionRef(_) => b == IsRaw
    case Arg(k) => f < |m.functions| && k < |m.functions[f].params| && m.functions[f].params[k] && IsIn(b, ParamCell(f, k), s)
    case Result(_) => IsPointer(m, f, op) && IsIn(b, ValueCell(ValueKey(f, op)), s)
  }

  /** What is stored where the operand points: the state of the variable, if it is one, else what has
      been recorded for the address, else, for a managed address, the state of the address itself. */
  predicate LocationMayBe(m: Module, f: nat, op: Operand, b: StateBit, s: States) {
    IsPointer(m, f, op) &&
    match TrackedSlot(m, f, op)
    case Some(slot) => IsIn(b, SlotCell(slot), s)
    case None =>
      if LocationCell(Key(f, op)) in s then IsIn(b, LocationCell(Key(f, op)), s)
      else MayBe(m, f, op, b, s) && (MayBe(m, f, op, IsObject, s) || MayBe(m, f, op, IsArray, s))
  }

  predicate LocationMayBeManaged(m: Module, f: nat, op: Operand, s: States) {
    LocationMayBe(m, f, op, IsObject, s) || LocationMayBe(m, f, op, IsArray, s)
  }

  /** What an aggregate's field holds: what its base is, when that is certainly an object or certainly
      an array. */
  predicate FieldMayBe(m: Module, f: nat, op: Operand, b: StateBit, s: States) {
    var location := Stripped(m, f, op);
    && location.Result? && IsInst(m, f, location.index) && m.functions[f].code[location.index].Gep?
    && var base := m.functions[f].code[location.index].base;
      && MayBe(m, f, base, b, s) && !MayBe(m, f, base, IsRaw, s)
      && (MayBe(m, f, base, IsObject, s) <==> !MayBe(m, f, base, IsArray, s))
  }

  /** What a direct call returns. */
  predicate CallMayBe(m: Module, callee: nat, b: StateBit, s: States) {
    && callee < |m.functions| && m.functions[callee].returnsPointer
    && match m.functions[callee].role
       case ObjectAllocator => b == IsObject
       case ArrayAllocator(_) => b == IsArray
       case Ordinary => if m.functions[callee].isDeclaration then b == IsRaw else IsIn(b, ReturnCell(callee), s)
  }

  // ----- The rules -----

  /** By what the tables s say, visit v has to put bit b into entry c. */
  ghost predicate Reason(m: Module, v: Visit, c: Cell, b: StateBit, s: States)
    requires IsVisit(m, v)
  {
    match v
    case SeedVisit(f, k) =>
      c == ParamCell(f, k) && b == IsRaw && m.functions[f].params[k] && (m.functions[f].isDeclaration || m.functions[f].hasAddressTaken)
    case InstVisit(f, i) =>
      var value, location := ValueCell(ValueKey(f, Result(i))), LocationCell(ValueKey(f, Result(i)));
      match m.functions[f].code[i]
      case Alloca(_) => c == value && b == IsRaw
      case Gep(base, _, fieldIsPointer) =>
        (c == value && MayBe(m, f, base, b, s)) || (c == location && fieldIsPointer && FieldMayBe(m, f, Result(i), b, s))
      case Phi(incoming, isPointer) =>
        && isPointer
        && exists k :: 0 <= k < |incoming|
             && ((c == value && MayBe(m, f, incoming[k].value, b, s)) || (c == location && LocationMayBe(m, f, incoming[k].value, b, s)))
      case Select(_, ifTrue, ifFalse, isPointer) =>
        && isPointer
        && ((c == value && (MayBe(m, f, ifTrue, b, s) || MayBe(m, f, ifFalse, b, s)))
            || (c == location && (LocationMayBe(m, f, ifTrue, b, s) || LocationMayBe(m, f, ifFalse, b, s))))
      case Freeze(source, isPointer) =>
        isPointer && ((c == value && MayBe(m, f, source, b, s)) || (c == location && LocationMayBe(m, f, source, b, s)))
      case Load(pointer, isPointer) => isPointer && c == value && LocationMayBe(m, f, pointer, b, s)
      case Store(stored, pointer) => StoreReason(m, f, stored, pointer, c, b, s)
      case Call(callee, args) => (c == value && CallMayBe(m, callee, b, s)) || ArgReason(m, f, callee, args, c, b, s)
      case IndirectCall(_, _, isPointer) => isPointer && c == value && b == IsRaw
      case Ret(returned) => c == ReturnCell(f) && MayBe(m, f, returned, b, s)
      case Compute(_, _, _) => false
      case Br(_, _, _) => false
  }

  /** The stored value's bits go to the variable and to the address; and where a managed pointer may
      lie, all that may lie there goes back to the stored value. */
  predicate StoreReason(m: Module, f: nat, stored: Operand, pointer: Operand, c: Cell, b: StateBit, s: States) {
    || (TrackedSlot(m, f, pointer).Some? && c == SlotCell(TrackedSlot(m, f, pointer).value) && MayBe(m, f, stored, b, s))
    || (IsPointer(m, f, pointer) && c == LocationCell(Key(f, pointer)) && MayBe(m, f, stored, b, s))
    || (IsPointer(m, f, stored) && LocationMayBeManaged(m, f, pointer, s) && LocationMayBe(m, f, pointer, b, s)
        && c == if stored.Arg? then ParamCell(f, stored.index) else ValueCell(Key(f, stored)))
  }

  /** An argument's bits go to the parameter it is passed for. */
  ghost predicate ArgReason(m: Module, f: nat, callee: nat, args: seq<Operand>, c: Cell, b: StateBit, s: States) {
    && callee < |m.functions| && !m.functions[callee].isDeclaration
    && exists k :: 0 <= k < |args| && k < |m.functions[callee].params| && c == ParamCell(callee, k) && MayBe(m, f, args[k], b, s)
  }

  // ----- The bits of each table query -----

  lemma ValueStateIs(m: Module, f: nat, op: Operand, b: StateBit, s: States)
    ensures b in ValueState(m, f, op, s) <==> MayBe(m, f, op, b, s)
    ensures MayBe(m, f, op, b, s) ==> IsPointer(m, f, op)
  {
  }

  lemma LocationStateIs(m: Module, f: nat, op: Operand, b: StateBit, s: States)
    ensures b in LocationState(m, f, op, s) <==> LocationMayBe(m, f, op, b, s)
    ensures LocationMayBe(m, f, op, b, s) ==> IsPointer(m, f, op)
    ensures HasManaged(LocationState(m, f, op, s)) <==> LocationMayBeManaged(m, f, op, s)
  {
    ValueStateIs(m, f, op, b, s);
    ValueStateIs(m, f, op, IsObject, s);
    ValueStateIs(m, f, op, IsArray, s);
    hide ValueState, MayBe, IsPointer, TrackedSlot;
  }

  lemma DispatchKindIff(state: PointerState)
    ensures DispatchKind(state) == Raw <==> IsRaw in state && IsObject !in state && IsArray !in state
    ensures DispatchKind(state) == Object <==> IsRaw !in state && IsObject in state && IsArray !in state
    ensures DispatchKind(state) == Array <==> IsRaw !in state && IsObject !in state && IsArray in state
  {
    var concrete := state - {IsNull};
    assert forall b :: b in concrete <==> b in state && b != IsNull;
  }

  lemma FieldStateIs(m: Module, f: nat, op: Operand, b: StateBit, s: States)
    ensures b in AggregateFieldState(m, f, op, s) <==> FieldMayBe(m, f, op, b, s)
  {
    var location := Stripped(m, f, op);
    hide ValueState, MayBe, Stripped, DispatchKind;
    if location.Result? && IsInst(m, f, location.index) && m.functions[f].code[location.index].Gep? {
      var base := m.functions[f].code[location.index].base;
      forall x ensures x in ValueState(m, f, base, s) <==> MayBe(m, f, base, x, s) { ValueStateIs(m, f, base, x, s); }
      DispatchKindIff(ValueState(m, f, base, s));
    }
  }

  lemma CallResultIs(m: Module, callee: nat, b: StateBit, s: States)
    ensures b in CallResultState(m, callee, s) <==> CallMayBe(m, callee, b, s)
  {
  }

  // ----- The final tables hold every bit there is a reason for -----

  /** Bit b of an operand, in its value, its location and its field. */
  lemma BitsOf(m: Module, f: nat, op: Operand, b: StateBit, s: States)
    ensures b in ValueState(m, f, op, s) <==> MayBe(m, f, op, b, s)
    ensures MayBe(m, f, op, b, s) ==> IsPointer(m, f, op)
    ensures b in LocationState(m, f, op, s) <==> LocationMayBe(m, f, op, b, s)
    ensures LocationMayBe(m, f, op, b, s) ==> IsPointer(m, f, op)
    ensures HasManaged(LocationState(m, f, op, s)) <==> LocationMayBeManaged(m, f, op, s)
    ensures b in AggregateFieldState(m, f, op, s) <==> FieldMayBe(m, f, op, b, s)
  {
    ValueStateIs(m, f, op, b, s);
    LocationStateIs(m, f, op, b, s);
    FieldStateIs(m, f, op, b, s);
    hide *;
    hide MayBe, FieldMayBe;
  }

  lemma StoreReasonHolds(m: Module, f: nat, stored: Operand, pointer: Operand, c: Cell, b: StateBit, s: States)
    requires StoreHolds(m, f, stored, pointer, s) && StoreReason(m, f, stored, pointer, c, b, s)
    ensures IsIn(b, c, s)
  {
    hide ValueState, LocationState, AggregateFieldState, MayBe, LocationMayBe, FieldMayBe, IsPointer, TrackedSlot, HasManaged, LocationMayBeManaged;
    BitsOf(m, f, stored, b, s);
    BitsOf(m, f, pointer, b, s);
  }

  lemma CallReasonHolds(m: Module, f: nat, i: nat, callee: nat, args: seq<Operand>, c: Cell, b: StateBit, s: States)
    requires IsInst(m, f, i) && m.functions[f].code[i] == Call(callee, args)
    requires CallHolds(m, f, i, callee, args, s) && Reason(m, InstVisit(f, i), c, b, s)
    ensures IsIn(b, c, s)
  {
    hide ValueState, MayBe, CallMayBe, CallResultState;
    CallResultIs(m, callee, b, s);
    if c == ValueCell(ValueKey(f, Result(i))) {
      CalledForPointer(m, callee, b, s);
    } else {
      var k :| 0 <= k < |args| && k < |m.functions[callee].params| && c == ParamCell(callee, k) && MayBe(m, f, args[k], b, s);
      ValueStateIs(m, f, args[k], b, s);
    }
  }

  lemma CalledForPointer(m: Module, callee: nat, b: StateBit, s: States)
    requires CallMayBe(m, callee, b, s)
    ensures callee < |m.functions| && m.functions[callee].returnsPointer
  {
  }

  /** Tables an instruction demands nothing more of hold every bit it has a reason for. */
  lemma ReasonHolds(m: Module, f: nat, i: nat, c: Cell, b: StateBit, s: States)
    requires IsInst(m, f, i) && Holds(m, f, i, s) && Reason(m, InstVisit(f, i), c, b, s)
    ensures IsIn(b, c, s)
  {
    hide ValueState, LocationState, AggregateFieldState, MayBe, LocationMayBe, FieldMayBe, StoreReason, StoreHolds, CallHolds, ArgReason, CallMayBe;
    match m.functions[f].code[i]
    case Gep(base, _, _) => BitsOf(m, f, base, b, s); BitsOf(m, f, Result(i), b, s);
    case Phi(incoming, _) =>
      var k :| 0 <= k < |incoming|
        && ((c == ValueCell(ValueKey(f, Result(i))) && MayBe(m, f, incoming[k].value, b, s))
            || (c == LocationCell(ValueKey(f, Result(i))) && LocationMayBe(m, f, incoming[k].value, b, s)));
      BitsOf(m, f, incoming[k].value, b, s);
    case Select(_, ifTrue, ifFalse, _) => BitsOf(m, f, ifTrue, b, s); BitsOf(m, f, ifFalse, b, s);
    case Freeze(source, _) => BitsOf(m, f, source, b, s);
    case Load(pointer, _) => BitsOf(m, f, pointer, b, s);
    case Store(stored, pointer) => StoreReasonHolds(m, f, stored, pointer, c, b, s);
    case Call(callee, args) => CallReasonHolds(m, f, i, callee, args, c, b, s);
    case Ret(returned) => BitsOf(m, f, returned, b, s);
    case _ =>
  }

  /** Every bit the visit has a reason for is there. */
  ghost predicate Settled(m: Module, v: Visit, s: States)
    requires IsVisit(m, v)
  {
    forall c, b :: Reason(m, v, c, b, s) ==> IsIn(b, c, s)
  }

  lemma StoreSettles(m: Module, f: nat, i: nat, stored: Operand, pointer: Operand, s: States)
    requires IsInst(m, f, i) && m.functions[f].code[i] == Store(stored, pointer) && Settled(m, InstVisit(f, i), s)
    ensures StoreHolds(m, f, stored, pointer, s)
  {
    hide ValueState, LocationState, AggregateFieldState, MayBe, LocationMayBe, FieldMayBe, IsPointer, TrackedSlot, HasManaged, LocationMayBeManaged;
    forall b
      ensures b in ValueState(m, f, stored, s) ==>
        && (TrackedSlot(m, f, pointer).Some? ==> b in Get(s, SlotCell(TrackedSlot(m, f, pointer).value)))
        && (IsPointer(m, f, pointer) ==> b in Get(s, LocationCell(Key(f, pointer))))
      ensures IsPointer(m, f, stored) && HasManaged(LocationState(m, f, pointer, s)) && b in LocationState(m, f, pointer, s) ==>
        b in Get(s, SourceCell(f, stored))
    {
      BitsOf(m, f, stored, b, s);
      BitsOf(m, f, pointer, b, s);
      assert Reason(m, InstVisit(f, i), LocationCell(Key(f, pointer)), b, s) ==> IsIn(b, LocationCell(Key(f, pointer)), s);
      assert Reason(m, InstVisit(f, i), SourceCell(f, stored), b, s) ==> IsIn(b, SourceCell(f, stored), s);
      assert TrackedSlot(m, f, pointer).Some? ==>
        Reason(m, InstVisit(f, i), SlotCell(TrackedSlot(m, f, pointer).value), b, s) ==> IsIn(b, SlotCell(TrackedSlot(m, f, pointer).value), s);
    }
  }

  lemma CallSettles(m: Module, f: nat, i: nat, callee: nat, args: seq<Operand>, s: States)
    requires IsInst(m, f, i) && m.functions[f].code[i] == Call(callee, args) && Settled(m, InstVisit(f, i), s)
    ensures CallHolds(m, f, i, callee, args, s)
  {
    hide ValueState, MayBe, CallMayBe, CallResultState, IsPointer;
    forall b
      ensures b in CallResultState(m, callee, s) ==> b in Get(s, ValueCell(ValueKey(f, Result(i))))
    {
      CallResultIs(m, callee, b, s);
      assert Reason(m, InstVisit(f, i), ValueCell(ValueKey(f, Result(i))), b, s) ==> IsIn(b, ValueCell(ValueKey(f, Result(i))), s);
    }
    if callee < |m.functions| && !m.functions[callee].isDeclaration {
      forall k: nat, b | k < MatchedArgs(m, callee, args) && b in ValueState(m, f, args[k], s)
        ensures b in Get(s, ParamCell(callee, k))
      {
        ValueStateIs(m, f, args[k], b, s);
        assert ArgReason(m, f, callee, args, ParamCell(callee, k), b, s);
        assert Reason(m, InstVisit(f, i), ParamCell(callee, k), b, s);
      }
    }
  }

  lemma SettledHolds(m: Module, f: nat, i: nat, s: States)
    requires IsInst(m, f, i) && Settled(m, InstVisit(f, i), s)
    ensures Holds(m, f, i, s)
  {
    hide ValueState, LocationState, AggregateFieldState, MayBe, LocationMayBe, FieldMayBe, StoreReason, StoreHolds, CallHolds, ArgReason, CallMayBe;
    var v, value, location := InstVisit(f, i), ValueCell(ValueKey(f, Result(i))), LocationCell(ValueKey(f, Result(i)));
    forall b
      ensures Reason(m, v, value, b, s) ==> b in Get(s, value)
      ensures Reason(m, v, location, b, s) ==> b in Get(s, location)
    {
    }
    match m.functions[f].code[i]
    case Gep(base, _, fieldIsPointer) =>
      forall b
        ensures b in ValueState(m, f, base, s) ==> b in Get(s, value)
        ensures fieldIsPointer && b in AggregateFieldState(m, f, Result(i), s) ==> b in Get(s, location)
      { BitsOf(m, f, base, b, s); BitsOf(m, f, Result(i), b, s); }
    case Phi(incoming, isPointer) =>
      forall k, b | 0 <= k < |incoming| && isPointer
        ensures b in ValueState(m, f, incoming[k].value, s) ==> b in Get(s, value)
        ensures b in LocationState(m, f, incoming[k].value, s) ==> b in Get(s, location)
      { BitsOf(m, f, incoming[k].value, b, s); }
    case Select(_, ifTrue, ifFalse, isPointer) =>
      forall b | isPointer
        ensures b in ValueState(m, f, ifTrue, s) + ValueState(m, f, ifFalse, s) ==> b in Get(s, value)
        ensures b in LocationState(m, f, ifTrue, s) + LocationState(m, f, ifFalse, s) ==> b in Get(s, location)
      { BitsOf(m, f, ifTrue, b, s); BitsOf(m, f, ifFalse, b, s); }
    case Freeze(source, isPointer) =>
      forall b | isPointer
        ensures b in ValueState(m, f, source, s) ==> b in Get(s, value)
        ensures b in LocationState(m, f, source, s) ==> b in Get(s, location)
      { BitsOf(m, f, source, b, s); }
    case Load(pointer, isPointer) =>
      forall b | isPointer
        ensures b in LocationState(m, f, pointer, s) ==> b in Get(s, value)
      { BitsOf(m, f, pointer, b, s); }
    case Store(stored, pointer) => StoreSettles(m, f, i, stored, pointer, s);
    case Call(callee, args) => CallSettles(m, f, i, callee, args, s);
    case Ret(returned) =>
      forall b
        ensures b in ValueState(m, f, returned, s) ==> b in Get(s, ReturnCell(f))
      { BitsOf(m, f, returned, b, s); assert Reason(m, v, ReturnCell(f), b, s) ==> IsIn(b, ReturnCell(f), s); }
    case _ =>
  }

  /** A visit has nothing to add exactly when every bit it has a reason for is there. */
  lemma SettledIff(m: Module, v: Visit, s: States)
    requires IsVisit(m, v)
    ensures Apply(m, v, s) == s <==> Settled(m, v, s)
  {
    match v
    case SeedVisit(f, k) =>
      MergeIsIdentity(s, ParamCell(f, k), {IsRaw});
      if Settled(m, v, s) { assert Reason(m, v, ParamCell(f, k), IsRaw, s) ==> IsIn(IsRaw, ParamCell(f, k), s); }
    case InstVisit(f, i) =>
      VisitIsIdentityIff(m, f, i, s);
      hide ManagedState.VisitInstruction, Holds, Reason, IsIn;
      if Holds(m, f, i, s) {
        forall c, b | Reason(m, v, c, b, s) ensures IsIn(b, c, s) { ReasonHolds(m, f, i, c, b, s); }
      }
      if Settled(m, v, s) { SettledHolds(m, f, i, s); }
  }

  // ----- Nothing else gets into the tables -----

  /** One visit puts some bits into one entry. */
  datatype Addition = Addition(visit: Visit, cell: Cell, bits: PointerState)

  /** The tables after these additions to empty ones. */
  function TablesAfter(additions: seq<Addition>): States {
    if additions == [] then map[]
    else
      var before, last := TablesAfter(additions[..|additions| - 1]), additions[|additions| - 1];
      before[last.cell := (if last.cell in before then before[last.cell] else {}) + last.bits]
  }

  /** Each bit of each addition has a reason in the tables made by the additions before it. */
  ghost predicate Reasoned(m: Module, trail: seq<Visit>, additions: seq<Addition>) {
    forall n :: 0 <= n < |additions| ==> AdditionReasoned(m, trail, additions[n], TablesAfter(additions[..n]))
  }

  ghost predicate AdditionReasoned(m: Module, trail: seq<Visit>, a: Addition, s: States) {
    a.visit in trail && IsVisit(m, a.visit) && forall b :: b in a.bits ==> Reason(m, a.visit, a.cell, b, s)
  }

  ghost predicate Explained(m: Module, trail: seq<Visit>, s: States) {
    exists additions :: Reasoned(m, trail, additions) && TablesAfter(additions) == s
  }

  lemma OneMoreReasoned(m: Module, trail: seq<Visit>, additions: seq<Addition>, a: Addition)
    requires Reasoned(m, trail, additions) && AdditionReasoned(m, trail, a, TablesAfter(additions))
    ensures Reasoned(m, trail, additions + [a])
  {
    hide AdditionReasoned, TablesAfter;
    var more := additions + [a];
    assert more[..|additions|] == additions;
    forall n | 0 <= n < |more|
      ensures AdditionReasoned(m, trail, more[n], TablesAfter(more[..n]))
    {
      if n < |additions| { assert more[..n] == additions[..n] && more[n] == additions[n]; }
    }
  }

  lemma OneMoreAdded(additions: seq<Addition>, a: Addition)
    requires a.bits != {}
    ensures TablesAfter(additions + [a]) == Merge(TablesAfter(additions), a.cell, a.bits)
  {
    assert (additions + [a])[..|additions|] == additions;
  }

  lemma MergeExplained(m: Module, trail: seq<Visit>, v: Visit, c: Cell, bits: PointerState, s: States)
    requires Explained(m, trail, s) && v in trail && IsVisit(m, v) && forall b :: b in bits ==> Reason(m, v, c, b, s)
    ensures Explained(m, trail, Merge(s, c, bits))
  {
    hide Reason, Reasoned, TablesAfter;
    if bits != {} {
      var additions :| Reasoned(m, trail, additions) && TablesAfter(additions) == s;
      var a := Addition(v, c, bits);
      OneMoreReasoned(m, trail, additions, a);
      OneMoreAdded(additions, a);
      assert Reasoned(m, trail, additions + [a]);
    }
  }

  /** An update of the visit's result, or of what has been recorded for it as an address. */
  lemma ResultExplained(m: Module, trail: seq<Visit>, f: nat, i: nat, state: PointerState, s: States)
    requires Explained(m, trail, s) && IsInst(m, f, i) && InstVisit(f, i) in trail
    ensures (IsPointer(m, f, Result(i)) ==> forall b :: b in state ==> Reason(m, InstVisit(f, i), ValueCell(ValueKey(f, Result(i))), b, s)) ==>
      Explained(m, trail, UpdateValue(m, f, Result(i), state, s))
    ensures (IsPointer(m, f, Result(i)) ==> forall b :: b in state ==> Reason(m, InstVisit(f, i), LocationCell(ValueKey(f, Result(i))), b, s)) ==>
      Explained(m, trail, UpdateLocation(m, f, Result(i), state, s))
  {
    hide Reason, Explained, IsPointer, Merge;
    var v, value, location := InstVisit(f, i), ValueCell(ValueKey(f, Result(i))), LocationCell(ValueKey(f, Result(i)));
    if IsPointer(m, f, Result(i)) {
      if forall b :: b in state ==> Reason(m, v, value, b, s) { MergeExplained(m, trail, v, value, state, s); }
      if forall b :: b in state ==> Reason(m, v, location, b, s) { MergeExplained(m, trail, v, location, state, s); }
    }
  }

  lemma {:induction false} IncomingBits(m: Module, f: nat, incoming: seq<Incoming>, b: StateBit, s: States)
    ensures b in IncomingStates(m, f, incoming, s) ==> exists k :: 0 <= k < |incoming| && MayBe(m, f, incoming[k].value, b, s)
    ensures b in IncomingLocations(m, f, incoming, s) ==> exists k :: 0 <= k < |incoming| && LocationMayBe(m, f, incoming[k].value, b, s)
  {
    if incoming != [] {
      var last := |incoming| - 1;
      IncomingBits(m, f, incoming[..last], b, s);
      BitsOf(m, f, incoming[last].value, b, s);
      hide ValueState, LocationState, MayBe, LocationMayBe;
      assert forall k :: 0 <= k < last ==> incoming[..last][k] == incoming[k];
    }
  }

  lemma PhiExplained(m: Module, trail: seq<Visit>, f: nat, i: nat, incoming: seq<Incoming>, isPointer: bool, s: States)
    requires Explained(m, trail, s) && IsInst(m, f, i) && InstVisit(f, i) in trail && m.functions[f].code[i] == Phi(incoming, isPointer)
    ensures Explained(m, trail, ManagedState.VisitInstruction(m, f, i, s))
  {
    hide Explained, IncomingStates, IncomingLocations, MayBe, LocationMayBe, UpdateValue, UpdateLocation;
    var state := IncomingStates(m, f, incoming, s);
    forall b ensures isPointer && b in state ==> Reason(m, InstVisit(f, i), ValueCell(ValueKey(f, Result(i))), b, s) {
      IncomingBits(m, f, incoming, b, s);
    }
    ResultExplained(m, trail, f, i, state, s);
    var s1 := UpdateValue(m, f, Result(i), state, s);
    var location := IncomingLocations(m, f, incoming, s1);
    forall b ensures isPointer && b in location ==> Reason(m, InstVisit(f, i), LocationCell(ValueKey(f, Result(i))), b, s1) {
      IncomingBits(m, f, incoming, b, s1);
    }
    ResultExplained(m, trail, f, i, location, s1);
  }

  /** An instruction that passes on one operand or either of two. */
  lemma CopyExplained(m: Module, trail: seq<Visit>, f: nat, i: nat, s: States)
    requires Explained(m, trail, s) && IsInst(m, f, i) && InstVisit(f, i) in trail
    requires m.functions[f].code[i].Select? || m.functions[f].code[i].Freeze?
    ensures Explained(m, trail, ManagedState.VisitInstruction(m, f, i, s))
  {
    hide Explained, ValueState, LocationState, AggregateFieldState, MayBe, LocationMayBe, FieldMayBe, UpdateValue, UpdateLocation, HasManaged;
    var inst := m.functions[f].code[i];
    var a, c := if inst.Select? then inst.ifTrue else inst.source, if inst.Select? then inst.ifFalse else inst.source;
    var state := ValueState(m, f, a, s) + ValueState(m, f, c, s);
    forall b ensures inst.isPointer && b in state ==> Reason(m, InstVisit(f, i), ValueCell(ValueKey(f, Result(i))), b, s) {
      BitsOf(m, f, a, b, s);
      BitsOf(m, f, c, b, s);
    }
    ResultExplained(m, trail, f, i, state, s);
    var s1 := UpdateValue(m, f, Result(i), state, s);
    var location := LocationState(m, f, a, s1) + LocationState(m, f, c, s1);
    forall b ensures inst.isPointer && b in location ==> Reason(m, InstVisit(f, i), LocationCell(ValueKey(f, Result(i))), b, s1) {
      BitsOf(m, f, a, b, s1);
      BitsOf(m, f, c, b, s1);
    }
    ResultExplained(m, trail, f, i, location, s1);
    assert inst.Freeze? ==> state == ValueState(m, f, a, s) && location == LocationState(m, f, a, s1);
  }

  lemma GepExplained(m: Module, trail: seq<Visit>, f: nat, i: nat, base: Operand, offset: Operand, fieldIsPointer: bool, s: States)
    requires Explained(m, trail, s) && IsInst(m, f, i) && InstVisit(f, i) in trail && m.functions[f].code[i] == Gep(base, offset, fieldIsPointer)
    ensures Explained(m, trail, ManagedState.VisitInstruction(m, f, i, s))
  {
    hide Explained, ValueState, LocationState, AggregateFieldState, MayBe, LocationMayBe, FieldMayBe, UpdateValue, UpdateLocation, HasManaged;
    var state := ValueState(m, f, base, s);
    forall b ensures b in state ==> Reason(m, InstVisit(f, i), ValueCell(ValueKey(f, Result(i))), b, s) {
      BitsOf(m, f, base, b, s);
    }
    ResultExplained(m, trail, f, i, state, s);
    var s1 := UpdateValue(m, f, Result(i), state, s);
    var location := AggregateFieldState(m, f, Result(i), s1);
    forall b ensures fieldIsPointer && b in location ==> Reason(m, InstVisit(f, i), LocationCell(ValueKey(f, Result(i))), b, s1) {
      BitsOf(m, f, Result(i), b, s1);
    }
    ResultExplained(m, trail, f, i, location, s1);
  }

  lemma StoreExplained(m: Module, trail: seq<Visit>, f: nat, i: nat, stored: Operand, pointer: Operand, s: States)
    requires Explained(m, trail, s) && IsInst(m, f, i) && InstVisit(f, i) in trail && m.functions[f].code[i] == Store(stored, pointer)
    ensures Explained(m, trail, VisitStore(m, f, stored, pointer, s))
  {
    hide Explained, ValueState, LocationState, AggregateFieldState, MayBe, LocationMayBe, FieldMayBe, HasManaged, LocationMayBeManaged, IsPointer,
      TrackedSlot, Merge;
    if IsPointer(m, f, stored) {
      var v, state, slot := InstVisit(f, i), ValueState(m, f, stored, s), TrackedSlot(m, f, pointer);
      var s1 := if slot.Some? then Merge(s, SlotCell(slot.value), state) else s;
      forall b ensures b in state ==> MayBe(m, f, stored, b, s) && MayBe(m, f, stored, b, s1) {
        BitsOf(m, f, stored, b, s);
        if slot.Some? { SlotLeavesValue(m, f, stored, b, slot.value, state, s); }
      }
      if slot.Some? { MergeExplained(m, trail, v, SlotCell(slot.value), state, s); }
      var s2 := UpdateLocation(m, f, pointer, state, s1);
      if IsPointer(m, f, pointer) { MergeExplained(m, trail, v, LocationCell(Key(f, pointer)), state, s1); }
      var location := LocationState(m, f, pointer, s2);
      if HasManaged(location) {
        forall b ensures b in location ==> Reason(m, v, SourceCell(f, stored), b, s2) {
          BitsOf(m, f, pointer, b, s2);
        }
        MergeExplained(m, trail, v, SourceCell(f, stored), location, s2);
      }
    }
  }

  lemma SlotLeavesValue(m: Module, f: nat, op: Operand, b: StateBit, slot: ValueKey, state: PointerState, s: States)
    ensures MayBe(m, f, op, b, Merge(s, SlotCell(slot), state)) <==> MayBe(m, f, op, b, s)
  {
  }

  lemma {:induction false} ArgsExplained(m: Module, trail: seq<Visit>, f: nat, i: nat, callee: nat, args: seq<Operand>, count: nat, s: States)
    requires Explained(m, trail, s) && IsInst(m, f, i) && InstVisit(f, i) in trail && m.functions[f].code[i] == Call(callee, args)
    requires callee < |m.functions| && !m.functions[callee].isDeclaration && count <= MatchedArgs(m, callee, args)
    ensures Explained(m, trail, UpdateArgs(m, f, callee, args, count, s))
  {
    if count != 0 {
      ArgsExplained(m, trail, f, i, callee, args, count - 1, s);
      hide Explained, ValueState, MayBe, CallMayBe, IsPointer, Merge;
      var before := UpdateArgs(m, f, callee, args, count - 1, s);
      var state := ValueState(m, f, args[count - 1], before);
      forall b ensures b in state ==> Reason(m, InstVisit(f, i), ParamCell(callee, count - 1), b, before) {
        ValueStateIs(m, f, args[count - 1], b, before);
        assert b in state ==> ArgReason(m, f, callee, args, ParamCell(callee, count - 1), b, before);
      }
      MergeExplained(m, trail, InstVisit(f, i), ParamCell(callee, count - 1), state, before);
    }
  }

  lemma CallExplained(m: Module, trail: seq<Visit>, f: nat, i: nat, callee: nat, args: seq<Operand>, s: States)
    requires Explained(m, trail, s) && IsInst(m, f, i) && InstVisit(f, i) in trail && m.functions[f].code[i] == Call(callee, args)
    ensures Explained(m, trail, VisitCall(m, f, Result(i), callee, args, s))
  {
    hide Explained, ArgReason, CallMayBe, CallResultState, UpdateValue, UpdateArgs;
    var state := CallResultState(m, callee, s);
    forall b ensures b in state ==> Reason(m, InstVisit(f, i), ValueCell(ValueKey(f, Result(i))), b, s) {
      CallResultIs(m, callee, b, s);
    }
    ResultExplained(m, trail, f, i, state, s);
    if callee < |m.functions| && !m.functions[callee].isDeclaration {
      ArgsExplained(m, trail, f, i, callee, args, MatchedArgs(m, callee, args), UpdateValue(m, f, Result(i), state, s));
    }
  }

  lemma VisitExplained(m: Module, trail: seq<Visit>, v: Visit, s: States)
    requires Explained(m, trail, s) && v in trail && IsVisit(m, v)
    ensures Explained(m, trail, Apply(m, v, s))
  {
    hide Explained, ValueState, LocationState, AggregateFieldState, MayBe, LocationMayBe, FieldMayBe, VisitStore, VisitCall, Merge;
    match v
    case SeedVisit(f, k) => if IsSeeded(m, f, k) { MergeExplained(m, trail, v, ParamCell(f, k), {IsRaw}, s); }
    case InstVisit(f, i) =>
      match m.functions[f].code[i]
      case Alloca(_) => ResultExplained(m, trail, f, i, {IsRaw}, s);
      case Gep(base, offset, fieldIsPointer) => GepExplained(m, trail, f, i, base, offset, fieldIsPointer, s);
      case Phi(incoming, isPointer) => PhiExplained(m, trail, f, i, incoming, isPointer, s);
      case Select(_, _, _, _) => CopyExplained(m, trail, f, i, s);
      case Freeze(_, _) => CopyExplained(m, trail, f, i, s);
      case Load(pointer, _) =>
        forall b ensures b in LocationState(m, f, pointer, s) ==> LocationMayBe(m, f, pointer, b, s) { BitsOf(m, f, pointer, b, s); }
        ResultExplained(m, trail, f, i, LocationState(m, f, pointer, s), s);
      case Store(stored, pointer) => StoreExplained(m, trail, f, i, stored, pointer, s);
      case Call(callee, args) => CallExplained(m, trail, f, i, callee, args, s);
      case IndirectCall(_, _, _) => ResultExplained(m, trail, f, i, {IsRaw}, s);
      case Ret(returned) =>
        forall b ensures b in ValueState(m, f, returned, s) ==> MayBe(m, f, returned, b, s) { BitsOf(m, f, returned, b, s); }
        if IsPointer(m, f, returned) { MergeExplained(m, trail, v, ReturnCell(f), ValueState(m, f, returned, s), s); }
      case _ =>
  }

  lemma ExplainedByMore(m: Module, trail: seq<Visit>, longer: seq<Visit>, s: States)
    requires Explained(m, trail, s) && forall v :: v in trail ==> v in longer
    ensures Explained(m, longer, s)
  {
    hide Reason, TablesAfter;
    var additions :| Reasoned(m, trail, additions) && TablesAfter(additions) == s;
    assert Reasoned(m, longer, additions);
  }

  /** Whatever the order of the visits, each bit in the tables was added by one of them, for a reason
      the bits added before it gave. */
  lemma {:induction false} EveryBitIsExplained(m: Module, trail: seq<Visit>)
    requires forall v :: v in trail ==> IsVisit(m, v)
    ensures Explained(m, trail, Replay(m, trail))
  {
    if trail == [] {
      assert Reasoned(m, trail, []) && TablesAfter([]) == map[];
    } else {
      var before, last := trail[..|trail| - 1], trail[|trail| - 1];
      EveryBitIsExplained(m, before);
      hide Explained, Apply;
      ExplainedByMore(m, before, trail, Replay(m, before));
      VisitExplained(m, trail, last, Replay(m, before));
    }
  }

  // ----- Where each kind of bit can come from at all -----

  /** Instruction inst brings in pointers of this kind: it names a null; it takes the address of a
      variable, global or function, or gets a pointer from code the compiler does not see; or it calls
      an allocator of objects or of arrays. */
  ghost predicate BringsIn(m: Module, inst: Inst, b: StateBit) {
    match b
    case IsNull => Null in Operands(inst)
    case IsRaw =>
      || inst.Alloca? || (exists g :: Global(g) in Operands(inst)) || (exists g :: FunctionRef(g) in Operands(inst))
      || (inst.IndirectCall? && inst.isPointer)
      || (inst.Call? && inst.callee < |m.functions| && m.functions[inst.callee].returnsPointer && m.functions[inst.callee].isDeclaration
          && m.functions[inst.callee].role == Ordinary)
    case IsObject =>
      inst.Call? && inst.callee < |m.functions| && m.functions[inst.callee].returnsPointer && m.functions[inst.callee].role == ObjectAllocator
    case IsArray =>
      inst.Call? && inst.callee < |m.functions| && m.functions[inst.callee].returnsPointer && m.functions[inst.callee].role.ArrayAllocator?
  }

  /** Some function that callers outside the module may reach has a pointer parameter. */
  ghost predicate TakesOutsidePointers(m: Module) {
    exists f, k :: 0 <= f < |m.functions| && 0 <= k < |m.functions[f].params|
      && m.functions[f].params[k] && (m.functions[f].isDeclaration || m.functions[f].hasAddressTaken)
  }

  ghost predicate HasOrigin(m: Module, b: StateBit) {
    (exists f: nat, i: nat :: IsInst(m, f, i) && BringsIn(m, m.functions[f].code[i], b)) || (b == IsRaw && TakesOutsidePointers(m))
  }

  lemma IsOrigin(m: Module, f: nat, i: nat, b: StateBit)
    requires IsInst(m, f, i) && BringsIn(m, m.functions[f].code[i], b)
    ensures HasOrigin(m, b)
  {
  }

  lemma OperandHasOrigin(m: Module, f: nat, i: nat, op: Operand, g: nat, b: StateBit, s: States)
    requires IsInst(m, f, i) && op in Operands(m.functions[f].code[i])
    requires forall x, c :: IsIn(x, c, s) ==> HasOrigin(m, x)
    ensures MayBe(m, g, op, b, s) ==> HasOrigin(m, b)
    ensures LocationMayBe(m, g, op, b, s) ==> HasOrigin(m, b)
  {
    hide HasOrigin, Operands, IsPointer, TrackedSlot;
    if MayBe(m, g, op, b, s) && !op.Arg? && !op.Result? {
      IsOrigin(m, f, i, b);
    }
  }

  lemma ReasonHasOrigin(m: Module, v: Visit, c: Cell, b: StateBit, s: States)
    requires IsVisit(m, v) && Reason(m, v, c, b, s) && forall x, d :: IsIn(x, d, s) ==> HasOrigin(m, x)
    ensures HasOrigin(m, b)
  {
    if v.SeedVisit? {
      assert TakesOutsidePointers(m);
    } else {
      var f, i := v.f, v.i;
      var inst := m.functions[f].code[i];
      hide HasOrigin, MayBe, LocationMayBe, IsPointer, TrackedSlot;
      forall op | op in Operands(inst)
        ensures MayBe(m, f, op, b, s) || LocationMayBe(m, f, op, b, s) ==> HasOrigin(m, b)
      {
        OperandHasOrigin(m, f, i, op, f, b, s);
      }
      hide FieldMayBe, BringsIn, StoreReason, ArgReason;
      if inst.Store? { StoreHasOrigin(m, f, inst.value, inst.pointer, c, b, s); }
      if inst.Call? && ArgReason(m, f, inst.callee, inst.args, c, b, s) { ArgHasOrigin(m, f, inst.callee, inst.args, c, b, s); }
      if inst.Phi? { IncomingAreOperands(inst.incoming); }
      if inst.Alloca? || inst.IndirectCall? { RawHasOrigin(m, f, i); }
      if inst.Call? && CallMayBe(m, inst.callee, b, s) { CallHasOrigin(m, f, i, b, s); }
      if inst.Gep? && FieldMayBe(m, f, Result(i), b, s) { FieldHasOrigin(m, f, i, b, s); }
    }
  }

  lemma StoreHasOrigin(m: Module, f: nat, stored: Operand, pointer: Operand, c: Cell, b: StateBit, s: States)
    requires MayBe(m, f, stored, b, s) || LocationMayBe(m, f, pointer, b, s) ==> HasOrigin(m, b)
    ensures StoreReason(m, f, stored, pointer, c, b, s) ==> HasOrigin(m, b)
  {
    hide MayBe, LocationMayBe, HasOrigin;
  }

  lemma ArgHasOrigin(m: Module, f: nat, callee: nat, args: seq<Operand>, c: Cell, b: StateBit, s: States)
    requires ArgReason(m, f, callee, args, c, b, s) && forall op :: op in args && MayBe(m, f, op, b, s) ==> HasOrigin(m, b)
    ensures HasOrigin(m, b)
  {
    hide MayBe, HasOrigin;
  }

  lemma RawHasOrigin(m: Module, f: nat, i: nat)
    requires IsInst(m, f, i)
    ensures var inst := m.functions[f].code[i]; inst.Alloca? || (inst.IndirectCall? && inst.isPointer) ==> HasOrigin(m, IsRaw)
  {
  }

  lemma CallHasOrigin(m: Module, f: nat, i: nat, b: StateBit, s: States)
    requires IsInst(m, f, i) && m.functions[f].code[i].Call? && CallMayBe(m, m.functions[f].code[i].callee, b, s)
    requires forall x, d :: IsIn(x, d, s) ==> HasOrigin(m, x)
    ensures HasOrigin(m, b)
  {
    var callee := m.functions[f].code[i].callee;
    if !IsIn(b, ReturnCell(callee), s) { IsOrigin(m, f, i, b); }
  }

  lemma FieldHasOrigin(m: Module, f: nat, i: nat, b: StateBit, s: States)
    requires FieldMayBe(m, f, Result(i), b, s) && forall x, d :: IsIn(x, d, s) ==> HasOrigin(m, x)
    ensures HasOrigin(m, b)
  {
    hide HasOrigin, MayBe, IsPointer, Stripped;
    var k := Stripped(m, f, Result(i)).index;
    OperandHasOrigin(m, f, k, m.functions[f].code[k].base, f, b, s);
  }

  lemma {:induction false} IncomingAreOperands(incoming: seq<Incoming>)
    ensures forall k :: 0 <= k < |incoming| ==> incoming[k].value in IncomingValues(incoming)
  {
    if incoming != [] {
      IncomingAreOperands(incoming[..|incoming| - 1]);
      assert forall k :: 0 <= k < |incoming| - 1 ==> incoming[..|incoming| - 1][k] == incoming[k];
    }
  }

  lemma {:induction false} AdditionsHaveOrigins(m: Module, trail: seq<Visit>, additions: seq<Addition>, c: Cell, b: StateBit)
    requires Reasoned(m, trail, additions) && IsIn(b, c, TablesAfter(additions))
    ensures HasOrigin(m, b)
  {
    hide Reason, HasOrigin;
    if additions != [] {
      var n := |additions| - 1;
      var before := additions[..n];
      FewerAreReasoned(m, trail, additions);
      forall x, d | IsIn(x, d, TablesAfter(before)) ensures HasOrigin(m, x) { AdditionsHaveOrigins(m, trail, before, d, x); }
      if !IsIn(b, c, TablesAfter(before)) {
        assert AdditionReasoned(m, trail, additions[n], TablesAfter(additions[..n]));
        ReasonHasOrigin(m, additions[n].visit, c, b, TablesAfter(before));
      }
    }
  }

  lemma FewerAreReasoned(m: Module, trail: seq<Visit>, additions: seq<Addition>)
    requires additions != [] && Reasoned(m, trail, additions)
    ensures Reasoned(m, trail, additions[..|additions| - 1])
  {
    hide AdditionReasoned, TablesAfter;
    var before := additions[..|additions| - 1];
    forall n | 0 <= n < |before|
      ensures AdditionReasoned(m, trail, before[n], TablesAfter(before[..n]))
    {
      assert before[n] == additions[n] && before[..n] == additions[..n];
    }
  }

  /** After any visits in any order, no entry holds a bit whose kind nothing in the module brings in. */
  lemma EveryBitHasOrigin(m: Module, trail: seq<Visit>, c: Cell, b: StateBit)
    requires (forall v :: v in trail ==> IsVisit(m, v)) && b in Get(Replay(m, trail), c)
    ensures HasOrigin(m, b)
  {
    hide Reasoned, HasOrigin, Replay, TablesAfter;
    EveryBitIsExplained(m, trail);
    var additions :| Reasoned(m, trail, additions) && TablesAfter(additions) == Replay(m, trail);
    AdditionsHaveOrigins(m, trail, additions, c, b);
  }

  // ----- The result of an allocator -----

  /** Some visit of a store of the result of instruction i has found a managed location, whose state it
      then sends back. */
  ghost predicate IsSentBack(m: Module, trail: seq<Visit>, f: nat, i: nat)
    requires forall v :: v in trail ==> IsVisit(m, v)
  {
    exists n: nat :: n < |trail| && SendsBack(m, trail[n], f, i, Replay(m, trail[..n]))
  }

  predicate SendsBack(m: Module, v: Visit, f: nat, i: nat, s: States)
    requires IsVisit(m, v)
  {
    && v.InstVisit? && v.f == f && m.functions[f].code[v.i].Store? && m.functions[f].code[v.i].value == Result(i)
    && HasManaged(SeenLocation(m, f, Result(i), m.functions[f].code[v.i].pointer, s))
  }

  /** A visit that neither is of the instruction nor sends anything back leaves its entry alone. */
  lemma EntryIsLeft(m: Module, v: Visit, f: nat, i: nat, s: States)
    requires IsVisit(m, v) && v != InstVisit(f, i) && !SendsBack(m, v, f, i, s)
    ensures Get(Apply(m, v, s), ValueCell(ValueKey(f, Result(i)))) == Get(s, ValueCell(ValueKey(f, Result(i))))
  {
    var c := ValueCell(ValueKey(f, Result(i)));
    if v.SeedVisit? {
      SeedGrows(m, v.f, v.index, s);
    } else if v.f == f && m.functions[f].code[v.i].Store? && m.functions[f].code[v.i].value == Result(i) {
      hide ValueState, LocationState, TrackedSlot, IsPointer, HasManaged;
    } else {
      VisitGrows(m, v.f, v.i, s);
      EntryIsNotTouched(m, v.f, v.i, f, i);
      hide ManagedState.VisitInstruction, Touched;
    }
  }

  lemma EntryIsNotTouched(m: Module, g: nat, k: nat, f: nat, i: nat)
    requires IsInst(m, g, k) && (g != f || k != i)
    requires g == f && m.functions[g].code[k].Store? ==> m.functions[g].code[k].value != Result(i)
    ensures ValueCell(ValueKey(f, Result(i))) !in Touched(m, g, k)
  {
    hide TrackedSlot;
  }

  lemma NothingThere(c: Cell)
    ensures Get(map[], c) == {}
  {
  }

  lemma NotSentBackBefore(m: Module, trail: seq<Visit>, f: nat, i: nat)
    requires (forall v :: v in trail ==> IsVisit(m, v)) && trail != [] && !IsSentBack(m, trail, f, i)
    ensures !IsSentBack(m, trail[..|trail| - 1], f, i)
    ensures !SendsBack(m, trail[|trail| - 1], f, i, Replay(m, trail[..|trail| - 1]))
  {
    hide SendsBack, Replay;
    var before := trail[..|trail| - 1];
    forall k: nat | k < |before|
      ensures !SendsBack(m, before[k], f, i, Replay(m, before[..k]))
    {
      assert before[k] == trail[k] && before[..k] == trail[..k];
    }
  }

  lemma {:induction false} AllocatorBits(m: Module, trail: seq<Visit>, f: nat, i: nat, callee: nat, args: seq<Operand>)
    requires (forall v :: v in trail ==> IsVisit(m, v)) && !IsSentBack(m, trail, f, i)
    requires IsInst(m, f, i) && m.functions[f].code[i] == Call(callee, args)
    requires callee < |m.functions| && m.functions[callee].returnsPointer && m.functions[callee].role != Ordinary
    ensures Get(Replay(m, trail), ValueCell(ValueKey(f, Result(i)))) ==
      if InstVisit(f, i) !in trail then {} else if m.functions[callee].role == ObjectAllocator then {IsObject} else {IsArray}
  {
    hide IsSentBack, SendsBack, Apply, Get;
    if trail == [] {
      NothingThere(ValueCell(ValueKey(f, Result(i))));
    } else {
      var n := |trail| - 1;
      var before, last := trail[..n], trail[n];
      assert trail == before + [last];
      NotSentBackBefore(m, trail, f, i);
      AllocatorBits(m, before, f, i, callee, args);
      if last == InstVisit(f, i) {
        AllocatorVisit(m, f, i, callee, args, Replay(m, before));
      } else {
        EntryIsLeft(m, last, f, i, Replay(m, before));
      }
    }
  }

  lemma AllocatorVisit(m: Module, f: nat, i: nat, callee: nat, args: seq<Operand>, s: States)
    requires IsInst(m, f, i) && m.functions[f].code[i] == Call(callee, args)
    requires callee < |m.functions| && m.functions[callee].returnsPointer && m.functions[callee].role != Ordinary
    ensures var c := ValueCell(ValueKey(f, Result(i)));
      Get(Apply(m, InstVisit(f, i), s), c) == Get(s, c) + if m.functions[callee].role == ObjectAllocator then {IsObject} else {IsArray}
  {
    CallResultIsAdded(m, f, Result(i), callee, args, s);
    hide ManagedState.VisitCall;
  }

  /** The result of a call of an allocator to which nothing has been sent back has exactly the
      allocator's bit once the call has been visited, in whatever order, and so the allocator's kind. */
  lemma AllocatorResult(m: Module, trail: seq<Visit>, f: nat, i: nat, callee: nat, args: seq<Operand>)
    requires (forall v :: v in trail ==> IsVisit(m, v)) && InstVisit(f, i) in trail && !IsSentBack(m, trail, f, i)
    requires IsInst(m, f, i) && m.functions[f].code[i] == Call(callee, args)
    requires callee < |m.functions| && m.functions[callee].returnsPointer && m.functions[callee].role != Ordinary
    ensures var state := Get(Replay(m, trail), ValueCell(ValueKey(f, Result(i))));
      if m.functions[callee].role == ObjectAllocator then state == {IsObject} && DispatchKind(state) == Object
      else state == {IsArray} && DispatchKind(state) == Array
  {
    hide *;
    AllocatorBits(m, trail, f, i, callee, args);
    DispatchKindIff({IsObject});
    DispatchKindIff({IsArray});
  }
}
