/** The interprocedural analysis of what each pointer may be: null, raw, a managed object or a
    managed array. */
module ManagedState {
  import opened Wrappers
  import opened ManagedIR

  datatype StateBit = IsNull | IsRaw | IsObject | IsArray

  type PointerState = set<StateBit>

  const AllBits: PointerState := {IsNull, IsRaw, IsObject, IsArray}

  datatype ManagedPointerKind = Unknown | Raw | Object | Array

  predicate HasManaged(state: PointerState) {
    IsObject in state || IsArray in state
  }

  function DispatchKind(state: PointerState): ManagedPointerKind {
    var concrete := state - {IsNull};
    if concrete == {IsRaw} then Raw
    else if concrete == {IsObject} then Object
    else if concrete == {IsArray} then Array
    else Unknown
  }

  /** The entries of the analysis tables: value, location and slot states by value, parameter and
      return states by function. */
  datatype Cell =
    | ValueCell(key: ValueKey)
    | LocationCell(key: ValueKey)
    | SlotCell(key: ValueKey)
    | ParamCell(f: nat, index: nat)
    | ReturnCell(f: nat)

  type States = map<Cell, PointerState>

  function Get(s: States, c: Cell): PointerState {
    if c in s then s[c] else {}
  }

  /** The update functions: an empty contribution leaves the table alone. */
  function Merge(s: States, c: Cell, state: PointerState): States {
    if state == {} then s else s[c := Get(s, c) + state]
  }

  // ----- Queries -----

  function ValueState(m: Module, f: nat, op: Operand, s: States): PointerState {
    if !IsPointer(m, f, op) then {}
    else
      match op
      case Null => {IsNull}
      case Scalar(_) => {}
      case Global(_) => {IsRaw}
      case FunctionRef(_) => {IsRaw}
      case Arg(i) => Get(s, ParamCell(f, i))
      case Result(_) => Get(s, ValueCell(Key(f, op)))
  }

  function LocationState(m: Module, f: nat, op: Operand, s: States): PointerState {
    if !IsPointer(m, f, op) then {}
    else
      match TrackedSlot(m, f, op)
      case Some(slot) => Get(s, SlotCell(slot))
      case None =>
        if LocationCell(Key(f, op)) in s then s[LocationCell(Key(f, op))]
        else if HasManaged(ValueState(m, f, op, s)) then ValueState(m, f, op, s)
        else {}
  }

  function AggregateFieldState(m: Module, f: nat, op: Operand, s: States): PointerState {
    var location := Stripped(m, f, op);
    if location.Result? && IsInst(m, f, location.index) && m.functions[f].code[location.index].Gep? then
      var baseState := ValueState(m, f, m.functions[f].code[location.index].base, s);
      if DispatchKind(baseState) == Object || DispatchKind(baseState) == Array then baseState else {}
    else {}
  }

  function CallResultState(m: Module, callee: nat, s: States): PointerState {
    if callee >= |m.functions| || !m.functions[callee].returnsPointer then {}
    else if m.functions[callee].role == ObjectAllocator then {IsObject}
    else if m.functions[callee].role.ArrayAllocator? then {IsArray}
    else if m.functions[callee].isDeclaration then {IsRaw}
    else Get(s, ReturnCell(callee))
  }

  function IncomingStates(m: Module, f: nat, incoming: seq<Incoming>, s: States): PointerState {
    if incoming == [] then {}
    else IncomingStates(m, f, incoming[..|incoming| - 1], s) + ValueState(m, f, incoming[|incoming| - 1].value, s)
  }

  function IncomingLocations(m: Module, f: nat, incoming: seq<Incoming>, s: States): PointerState {
    if incoming == [] then {}
    else IncomingLocations(m, f, incoming[..|incoming| - 1], s) + LocationState(m, f, incoming[|incoming| - 1].value, s)
  }

  // ----- Updates -----

  function UpdateValue(m: Module, f: nat, op: Operand, state: PointerState, s: States): States {
    if IsPointer(m, f, op) then Merge(s, ValueCell(Key(f, op)), state) else s
  }

  function UpdateLocation(m: Module, f: nat, op: Operand, state: PointerState, s: States): States {
    if IsPointer(m, f, op) then Merge(s, LocationCell(Key(f, op)), state) else s
  }

  /** The table entry that holds the state of a stored value. */
  function SourceCell(f: nat, op: Operand): Cell {
    if op.Arg? then ParamCell(f, op.index) else ValueCell(Key(f, op))
  }

  function UpdateSource(m: Module, f: nat, op: Operand, state: PointerState, s: States): States {
    if IsPointer(m, f, op) then Merge(s, SourceCell(f, op), state) else s
  }

  function UpdateArgs(m: Module, f: nat, callee: nat, args: seq<Operand>, count: nat, s: States): States
    requires count <= |args|
  {
    if count == 0 then s
    else
      var before := UpdateArgs(m, f, callee, args, count - 1, s);
      if IsPointer(m, f, args[count - 1]) then Merge(before, ParamCell(callee, count - 1), ValueState(m, f, args[count - 1], before)) else before
  }

  /** How many arguments of a call have a parameter to go to. */
  function MatchedArgs(m: Module, callee: nat, args: seq<Operand>): (n: nat)
    ensures n <= |args|
  {
    if callee >= |m.functions| then 0
    else if |args| <= |m.functions[callee].params| then |args| else |m.functions[callee].params|
  }

  function VisitStore(m: Module, f: nat, value: Operand, pointer: Operand, s: States): States {
    if !IsPointer(m, f, value) then s
    else
      var valueState := ValueState(m, f, value, s);
      var slot := TrackedSlot(m, f, pointer);
      var s1 := if slot.Some? then Merge(s, SlotCell(slot.value), valueState) else s;
      var s2 := UpdateLocation(m, f, pointer, valueState, s1);
      var locationState := LocationState(m, f, pointer, s2);
      if HasManaged(locationState) then UpdateSource(m, f, value, locationState, s2) else s2
  }

  function VisitCall(m: Module, f: nat, result: Operand, callee: nat, args: seq<Operand>, s: States): States {
    var s1 := UpdateValue(m, f, result, CallResultState(m, callee, s), s);
    if callee < |m.functions| && !m.functions[callee].isDeclaration then UpdateArgs(m, f, callee, args, MatchedArgs(m, callee, args), s1) else s1
  }

  /** visitInstruction, as a function of the tables. */
  function VisitInstruction(m: Module, f: nat, i: nat, s: States): States
    requires IsInst(m, f, i)
  {
    var result := Result(i);
    match m.functions[f].code[i]
    case Alloca(_) => UpdateValue(m, f, result, {IsRaw}, s)
    case Gep(base, _, fieldIsPointer) =>
      var s1 := UpdateValue(m, f, result, ValueState(m, f, base, s), s);
      if fieldIsPointer then UpdateLocation(m, f, result, AggregateFieldState(m, f, result, s1), s1) else s1
    case Phi(incoming, _) =>
      var s1 := UpdateValue(m, f, result, IncomingStates(m, f, incoming, s), s);
      UpdateLocation(m, f, result, IncomingLocations(m, f, incoming, s1), s1)
    case Select(_, ifTrue, ifFalse, _) =>
      var s1 := UpdateValue(m, f, result, ValueState(m, f, ifTrue, s) + ValueState(m, f, ifFalse, s), s);
      UpdateLocation(m, f, result, LocationState(m, f, ifTrue, s1) + LocationState(m, f, ifFalse, s1), s1)
    case Freeze(source, _) =>
      var s1 := UpdateValue(m, f, result, ValueState(m, f, source, s), s);
      UpdateLocation(m, f, result, LocationState(m, f, source, s1), s1)
    case Load(pointer, isPointer) => if isPointer then UpdateValue(m, f, result, LocationState(m, f, pointer, s), s) else s
    case Store(value, pointer) => VisitStore(m, f, value, pointer, s)
    case Call(callee, args) => VisitCall(m, f, result, callee, args, s)
    case IndirectCall(_, _, isPointer) => if isPointer then UpdateValue(m, f, result, {IsRaw}, s) else s
    case Ret(value) => if IsPointer(m, f, value) then Merge(s, ReturnCell(f), ValueState(m, f, value, s)) else s
    case Compute(_, _, _) => s
    case Br(_, _, _) => s
  }

  /** Parameters of functions that callers outside the module may reach are raw. */
  predicate IsSeeded(m: Module, f: nat, index: nat) {
    && f < |m.functions| && index < |m.functions[f].params| && m.functions[f].params[index]
    && (m.functions[f].isDeclaration || m.functions[f].hasAddressTaken)
  }

  function Seed(m: Module, f: nat, index: nat, s: States): States {
    if IsSeeded(m, f, index) then Merge(s, ParamCell(f, index), {IsRaw}) else s
  }

  // ----- Growth, and the finite universe the tables live in -----

  ghost predicate Below(s: States, s': States) {
    forall c :: Get(s, c) <= Get(s', c)
  }

  function Touched(m: Module, f: nat, i: nat): set<Cell>
    requires IsInst(m, f, i)
  {
    {ValueCell(Key(f, Result(i))), LocationCell(Key(f, Result(i)))} +
    match m.functions[f].code[i]
    case Store(value, pointer) =>
      {LocationCell(Key(f, pointer)), SourceCell(f, value)} +
      (if TrackedSlot(m, f, pointer).Some? then {SlotCell(TrackedSlot(m, f, pointer).value)} else {})
    case Call(callee, args) => set k | 0 <= k < |args| :: ParamCell(callee, k)
    case Ret(_) => {ReturnCell(f)}
    case _ => {}
  }

  /** Every table entry any visit can write. */
  function Universe(m: Module): set<Cell> {
    (set f, i, c | 0 <= f < |m.functions| && 0 <= i < |m.functions[f].code| && c in Touched(m, f, i) :: c)
    + (set f, i | 0 <= f < |m.functions| && 0 <= i < |m.functions[f].params| :: ParamCell(f, i))
  }

  ghost predicate TablesOK(m: Module, s: States) {
    && s.Keys <= Universe(m)
    && forall c :: c in s ==> s[c] != {}
  }

  /** s' holds everything s does and differs from it in the given entries at most. */
  ghost predicate Grows(s: States, s': States, cells: set<Cell>) {
    && Below(s, s')
    && (forall c :: c !in cells ==> Get(s, c) == Get(s', c))
    && (forall c :: c in s' ==> c in s || c in cells)
    && (forall c :: c in s ==> c in s')
    && (forall c :: c in s' && c !in s ==> s'[c] != {})
  }

  lemma MergeGrows(s: States, c: Cell, state: PointerState, cells: set<Cell>)
    requires c in cells
    ensures Grows(s, Merge(s, c, state), cells)
  {
  }

  lemma GrowsTransitive(a: States, b: States, c: States, cells: set<Cell>)
    requires Grows(a, b, cells) && Grows(b, c, cells)
    ensures Grows(a, c, cells)
  {
    forall x | x in c && x !in a
      ensures c[x] != {}
    {
      assert x in b ==> b[x] <= Get(c, x);
    }
  }

  lemma {:induction false} UpdateArgsGrows(m: Module, f: nat, callee: nat, args: seq<Operand>, count: nat, s: States)
    requires count <= |args|
    ensures Grows(s, UpdateArgs(m, f, callee, args, count, s), set k | 0 <= k < |args| :: ParamCell(callee, k))
  {
    hide Grows, Merge;
    var cells := set k | 0 <= k < |args| :: ParamCell(callee, k);
    if count == 0 {
      GrowsReflexive(s, cells);
    } else {
      UpdateArgsGrows(m, f, callee, args, count - 1, s);
      var before := UpdateArgs(m, f, callee, args, count - 1, s);
      MergeGrows(before, ParamCell(callee, count - 1), ValueState(m, f, args[count - 1], before), cells);
      GrowsTransitive(s, before, Merge(before, ParamCell(callee, count - 1), ValueState(m, f, args[count - 1], before)), cells);
    }
  }

  lemma GrowsReflexive(s: States, cells: set<Cell>)
    ensures Grows(s, s, cells)
  {
  }

  lemma GrowsMore(s: States, s': States, cells: set<Cell>, more: set<Cell>)
    requires Grows(s, s', cells) && cells <= more
    ensures Grows(s, s', more)
  {
  }

  lemma UpdateGrows(m: Module, f: nat, op: Operand, state: PointerState, s: States, cells: set<Cell>)
    ensures ValueCell(Key(f, op)) in cells ==> Grows(s, UpdateValue(m, f, op, state, s), cells)
    ensures LocationCell(Key(f, op)) in cells ==> Grows(s, UpdateLocation(m, f, op, state, s), cells)
    ensures SourceCell(f, op) in cells ==> Grows(s, UpdateSource(m, f, op, state, s), cells)
  {
    GrowsReflexive(s, cells);
    hide Grows, Merge;
    if ValueCell(Key(f, op)) in cells { MergeGrows(s, ValueCell(Key(f, op)), state, cells); }
    if LocationCell(Key(f, op)) in cells { MergeGrows(s, LocationCell(Key(f, op)), state, cells); }
    if SourceCell(f, op) in cells { MergeGrows(s, SourceCell(f, op), state, cells); }
  }

  lemma VisitStoreGrows(m: Module, f: nat, value: Operand, pointer: Operand, s: States, cells: set<Cell>)
    requires LocationCell(Key(f, pointer)) in cells && SourceCell(f, value) in cells
    requires TrackedSlot(m, f, pointer).Some? ==> SlotCell(TrackedSlot(m, f, pointer).value) in cells
    ensures Grows(s, VisitStore(m, f, value, pointer, s), cells)
  {
    hide Grows, Merge, TrackedSlot, LocationState, ValueState, UpdateLocation, UpdateSource;
    GrowsReflexive(s, cells);
    var valueState := ValueState(m, f, value, s);
    var slot := TrackedSlot(m, f, pointer);
    var s1 := if slot.Some? then Merge(s, SlotCell(slot.value), valueState) else s;
    if slot.Some? { MergeGrows(s, SlotCell(slot.value), valueState, cells); }
    var s2 := UpdateLocation(m, f, pointer, valueState, s1);
    UpdateGrows(m, f, pointer, valueState, s1, cells);
    GrowsTransitive(s, s1, s2, cells);
    var locationState := LocationState(m, f, pointer, s2);
    UpdateGrows(m, f, value, locationState, s2, cells);
    GrowsTransitive(s, s2, UpdateSource(m, f, value, locationState, s2), cells);
  }

  lemma VisitCallGrows(m: Module, f: nat, result: Operand, callee: nat, args: seq<Operand>, s: States, cells: set<Cell>)
    requires ValueCell(Key(f, result)) in cells && (set k | 0 <= k < |args| :: ParamCell(callee, k)) <= cells
    ensures Grows(s, VisitCall(m, f, result, callee, args, s), cells)
  {
    hide Grows, Merge, CallResultState, UpdateValue, UpdateArgs;
    var s1 := UpdateValue(m, f, result, CallResultState(m, callee, s), s);
    UpdateGrows(m, f, result, CallResultState(m, callee, s), s, cells);
    UpdateArgsGrows(m, f, callee, args, MatchedArgs(m, callee, args), s1);
    var s2 := UpdateArgs(m, f, callee, args, MatchedArgs(m, callee, args), s1);
    GrowsMore(s1, s2, set k | 0 <= k < |args| :: ParamCell(callee, k), cells);
    GrowsTransitive(s, s1, s2, cells);
  }

  lemma UpdateBothGrows(m: Module, f: nat, op: Operand, state: PointerState, location: PointerState, s: States, cells: set<Cell>)
    requires ValueCell(Key(f, op)) in cells && LocationCell(Key(f, op)) in cells
    ensures Grows(s, UpdateLocation(m, f, op, location, UpdateValue(m, f, op, state, s)), cells)
  {
    hide *;
    var s1 := UpdateValue(m, f, op, state, s);
    UpdateGrows(m, f, op, state, s, cells);
    UpdateGrows(m, f, op, location, s1, cells);
    GrowsTransitive(s, s1, UpdateLocation(m, f, op, location, s1), cells);
  }

  /** A visit only adds states, and only to the entries it touches. */
  lemma VisitGrows(m: Module, f: nat, i: nat, s: States)
    requires IsInst(m, f, i)
    ensures Grows(s, VisitInstruction(m, f, i, s), Touched(m, f, i))
  {
    hide Grows, Merge, UpdateValue, UpdateLocation, VisitStore, VisitCall, ValueState, LocationState, IncomingStates, IncomingLocations,
      AggregateFieldState, TrackedSlot, SourceCell, Key;
    var cells, result := Touched(m, f, i), Result(i);
    GrowsReflexive(s, cells);
    match m.functions[f].code[i]
    case Alloca(_) =>
      UpdateGrows(m, f, result, {IsRaw}, s, cells);
    case Gep(base, _, fieldIsPointer) =>
      var s1 := UpdateValue(m, f, result, ValueState(m, f, base, s), s);
      UpdateGrows(m, f, result, ValueState(m, f, base, s), s, cells);
      UpdateBothGrows(m, f, result, ValueState(m, f, base, s), AggregateFieldState(m, f, result, s1), s, cells);
    case Phi(incoming, _) =>
      var s1 := UpdateValue(m, f, result, IncomingStates(m, f, incoming, s), s);
      UpdateBothGrows(m, f, result, IncomingStates(m, f, incoming, s), IncomingLocations(m, f, incoming, s1), s, cells);
    case Select(_, ifTrue, ifFalse, _) =>
      var state := ValueState(m, f, ifTrue, s) + ValueState(m, f, ifFalse, s);
      var s1 := UpdateValue(m, f, result, state, s);
      UpdateBothGrows(m, f, result, state, LocationState(m, f, ifTrue, s1) + LocationState(m, f, ifFalse, s1), s, cells);
    case Freeze(source, _) =>
      var s1 := UpdateValue(m, f, result, ValueState(m, f, source, s), s);
      UpdateBothGrows(m, f, result, ValueState(m, f, source, s), LocationState(m, f, source, s1), s, cells);
    case Load(pointer, _) =>
      UpdateGrows(m, f, result, LocationState(m, f, pointer, s), s, cells);
    case Store(value, pointer) =>
      VisitStoreGrows(m, f, value, pointer, s, cells);
    case Call(callee, args) =>
      VisitCallGrows(m, f, result, callee, args, s, cells);
    case IndirectCall(_, _, _) =>
      UpdateGrows(m, f, result, {IsRaw}, s, cells);
    case Ret(value) =>
      MergeGrows(s, ReturnCell(f), ValueState(m, f, value, s), cells);
    case Compute(_, _, _) =>
    case Br(_, _, _) =>
  }

  lemma SeedGrows(m: Module, f: nat, index: nat, s: States)
    ensures Grows(s, Seed(m, f, index, s), {ParamCell(f, index)})
  {
    GrowsReflexive(s, {ParamCell(f, index)});
    hide Grows;
    MergeGrows(s, ParamCell(f, index), {IsRaw}, {ParamCell(f, index)});
  }
}
