/** The bounds checks the compiler puts before address computations, and what they guarantee. */
module BoundsChecks {
  import opened Wrappers
  import opened MachineWords
  import opened HeapModel
  import opened HeapLayout

  /** An index operand: its bits, read as an unsigned number, and its width. */
  datatype Index = Index(isConstant: bool, bits: nat, width: nat)

  predicate IndexOK(i: Index) {
    1 <= i.width <= 64 && i.bits < Pow2(i.width)
  }

  /** What address arithmetic takes the index for: a signed number. */
  function Signed(i: Index): int {
    if i.width == 0 || i.bits < Pow2(i.width - 1) then i.bits else i.bits - Pow2(i.width)
  }

  /** getelementptr: a source type, a step over whole values of that type, and steps into it. */
  datatype Gep = Gep(source: Type, step: Index, path: seq<Index>)

  /** normalizeIndex: every index up to 64 bits is zero-extended. */
  function NormalizeIndex(i: Index): nat {
    i.bits
  }

  datatype StaticCheckPlan = StaticCheckPlan(index: Index, length: nat)

  /** The type an index steps to, and the checks collectStaticChecks makes on the way; the walk stops
      where the source stops. */
  function Checks(t: Type, path: seq<Index>): seq<StaticCheckPlan>
    decreases |path|
  {
    if path == [] then []
    else
      match t
      case Struct(fields, _) =>
        if path[0].isConstant && path[0].bits < |fields| then Checks(fields[path[0].bits], path[1..]) else []
      case ArrayOf(element, count) => [StaticCheckPlan(path[0], count)] + Checks(element, path[1..])
      case _ => []
  }

  /** collectStaticChecks. */
  method CollectStaticChecks(gep: Gep) returns (checks: seq<StaticCheckPlan>)
    ensures checks == Checks(gep.source, gep.path)
  {
    checks := [];
    var current := gep.source;
    var k := 0;
    while k < |gep.path|
      invariant 0 <= k <= |gep.path|
      invariant checks + Checks(current, gep.path[k..]) == Checks(gep.source, gep.path)
    {
      var index := gep.path[k];
      assert gep.path[k..][0] == index && gep.path[k..][1..] == gep.path[k + 1..];
      if current.Struct? {
        if !index.isConstant || index.bits >= |current.fields| {
          return;
        }
        current := current.fields[index.bits];
      } else if current.ArrayOf? {
        checks := checks + [StaticCheckPlan(index, current.count)];
        current := current.element;
      } else {
        return;
      }
      k := k + 1;
    }
  }

  predicate IsStaticallyInBounds(index: Index, length: nat) {
    index.isConstant && index.bits < length
  }

  /** Whether one inserted comparison traps. */
  predicate Fails(check: StaticCheckPlan) {
    !IsStaticallyInBounds(check.index, check.length) && NormalizeIndex(check.index) >= check.length
  }

  /** instrumentGEP: whether the inserted checks let the address computation go ahead. `length` is
      what the runtime says about the array, if the base is known to be a managed array. */
  method ChecksPass(gep: Gep, length: Option<nat>) returns (pass: bool)
    ensures pass <==> Passes(gep, length)
  {
    var outOfBounds := length.Some? && NormalizeIndex(gep.step) >= length.value;
    var checks := CollectStaticChecks(gep);
    for k := 0 to |checks|
      invariant outOfBounds <==> (length.Some? && NormalizeIndex(gep.step) >= length.value) || exists j :: 0 <= j < k && Fails(checks[j])
    {
      if !IsStaticallyInBounds(checks[k].index, checks[k].length) {
        outOfBounds := outOfBounds || NormalizeIndex(checks[k].index) >= checks[k].length;
      }
    }
    pass := !outOfBounds;
  }

  predicate NoneFails(checks: seq<StaticCheckPlan>) {
    forall j :: 0 <= j < |checks| ==> !Fails(checks[j])
  }

  predicate Passes(gep: Gep, length: Option<nat>) {
    && (length.Some? ==> NormalizeIndex(gep.step) < length.value)
    && NoneFails(Checks(gep.source, gep.path))
  }

  // ----- What the address computation does -----

  /** The path steps into the type: struct fields by constants in range, array elements by anything. */
  predicate WellFormed(t: Type, path: seq<Index>)
    decreases |path|
  {
    path == [] ||
    match t
    case Struct(fields, _) => path[0].isConstant && path[0].bits < |fields| && WellFormed(fields[path[0].bits], path[1..])
    case ArrayOf(element, _) => IndexOK(path[0]) && WellFormed(element, path[1..])
    case _ => false
  }

  function FieldOffset(fields: seq<Type>, packed: bool, k: nat, end: nat): nat
    requires k < |fields|
    decreases k
  {
    var start := FieldStart(fields[0], packed, end);
    if k == 0 then start else FieldOffset(fields[1..], packed, k - 1, start + AllocSize(fields[0]))
  }

  /** i * stride for a signed i. */
  function Scaled(stride: nat, i: int): int {
    if i >= 0 then SlotOffset(stride, i) else 0 - (SlotOffset(stride, 0 - i) as int)
  }

  function Target(t: Type, path: seq<Index>): Type
    requires WellFormed(t, path)
    decreases |path|
  {
    if path == [] then t
    else
      match t
      case Struct(fields, _) => Target(fields[path[0].bits], path[1..])
      case ArrayOf(element, _) => Target(element, path[1..])
  }

  function PathOffset(t: Type, path: seq<Index>): int
    requires WellFormed(t, path)
    decreases |path|
  {
    if path == [] then 0
    else
      match t
      case Struct(fields, packed) => FieldOffset(fields, packed, path[0].bits, 0) + PathOffset(fields[path[0].bits], path[1..])
      case ArrayOf(element, _) => Scaled(AllocSize(element), Signed(path[0])) + PathOffset(element, path[1..])
  }

  /** The byte offset of the whole address computation from its base. */
  function ByteOffset(gep: Gep): int
    requires WellFormed(gep.source, gep.path)
  {
    Scaled(AllocSize(gep.source), Signed(gep.step)) + PathOffset(gep.source, gep.path)
  }

  /** No array along the path is longer than the index's positive half range. */
  predicate LengthsFit(t: Type, path: seq<Index>)
    requires WellFormed(t, path)
    decreases |path|
  {
    path == [] ||
    match t
    case Struct(fields, _) => LengthsFit(fields[path[0].bits], path[1..])
    case ArrayOf(element, count) => count <= Pow2(path[0].width - 1) && LengthsFit(element, path[1..])
  }

  // ----- The checks suffice -----

  /** Zero-extended comparison accepts only indices whose signed value is in range iff the length is
      within the index's positive half range. */
  lemma ZeroExtensionIsSafeIff(width: nat, length: nat)
    requires 1 <= width <= 64
    ensures length <= Pow2(width - 1) <==>
      forall bits: nat :: bits < Pow2(width) && bits < length ==> 0 <= Signed(Index(false, bits, width)) < length
  {
    var half := Pow2(width - 1);
    assert Pow2(width) == 2 * half;
    if length > half {
      assert half < length && Signed(Index(false, half, width)) < 0;
    }
  }

  /** Every array index on the path, as a signed number, is an index of its array. */
  predicate IndicesInRange(t: Type, path: seq<Index>)
    requires WellFormed(t, path)
    decreases |path|
  {
    path == [] ||
    match t
    case Struct(fields, _) => IndicesInRange(fields[path[0].bits], path[1..])
    case ArrayOf(element, count) => 0 <= Signed(path[0]) < count && IndicesInRange(element, path[1..])
  }

  lemma {:induction false} StaticChecksAreExact(t: Type, path: seq<Index>)
    requires WellFormed(t, path) && LengthsFit(t, path)
    ensures NoneFails(Checks(t, path)) <==> IndicesInRange(t, path)
    decreases |path|
  {
    if path != [] {
      match t
      case Struct(fields, _) => StaticChecksAreExact(fields[path[0].bits], path[1..]);
      case ArrayOf(element, count) =>
        StaticChecksAreExact(element, path[1..]);
        var checks := Checks(t, path);
        assert checks[0] == StaticCheckPlan(path[0], count) && checks[1..] == Checks(element, path[1..]);
        FirstAndRest(checks);
        assert Fails(checks[0]) <==> !(0 <= Signed(path[0]) < count);
    }
  }

  lemma FirstAndRest(checks: seq<StaticCheckPlan>)
    requires checks != []
    ensures NoneFails(checks) <==> !Fails(checks[0]) && NoneFails(checks[1..])
  {
    hide Fails;
    assert forall j :: 0 < j < |checks| ==> checks[j] == checks[1..][j - 1];
  }

  /** No computation that stays in range is stopped, and none that leaves it goes ahead. */
  lemma ChecksAreExact(gep: Gep, length: nat)
    requires WellFormed(gep.source, gep.path) && IndexOK(gep.step)
    requires LengthsFit(gep.source, gep.path) && length <= Pow2(gep.step.width - 1)
    ensures Passes(gep, Some(length)) <==> 0 <= Signed(gep.step) < length && IndicesInRange(gep.source, gep.path)
  {
    StaticChecksAreExact(gep.source, gep.path);
    hide IndicesInRange, Checks, NoneFails;
  }

  lemma {:induction false} FieldFits(fields: seq<Type>, packed: bool, k: nat, end: nat)
    requires k < |fields|
    ensures FieldOffset(fields, packed, k, end) + AllocSize(fields[k]) <= FieldsEnd(fields, packed, end)
    decreases k
  {
    hide AllocSize;
    var next := FieldStart(fields[0], packed, end) + AllocSize(fields[0]);
    if k != 0 { FieldFits(fields[1..], packed, k - 1, next); }
  }

  lemma {:induction false} ElementFits(stride: nat, i: nat, count: nat)
    requires i < count
    ensures SlotOffset(stride, i) + stride <= SlotOffset(stride, count)
    decreases count
  {
    if i < count - 1 { ElementFits(stride, i, count - 1); }
  }

  lemma {:induction false} PathStaysInside(t: Type, path: seq<Index>)
    requires WellFormed(t, path) && LengthsFit(t, path)
    requires NoneFails(Checks(t, path))
    ensures 0 <= PathOffset(t, path) && PathOffset(t, path) + AllocSize(Target(t, path)) <= AllocSize(t)
    decreases |path|
  {
    if path != [] {
      match t
      case Struct(fields, packed) =>
        FieldFits(fields, packed, path[0].bits, 0);
        assert Checks(t, path) == Checks(fields[path[0].bits], path[1..]);
        hide Fails, FieldOffset, FieldsEnd;
        PathStaysInside(fields[path[0].bits], path[1..]);
      case ArrayOf(element, count) =>
        var checks := Checks(t, path);
        assert checks[0] == StaticCheckPlan(path[0], count) && !Fails(checks[0]);
        forall j | 0 <= j < |Checks(element, path[1..])|
          ensures !Fails(Checks(element, path[1..])[j])
        {
          assert Checks(element, path[1..])[j] == checks[j + 1];
        }
        hide Fails, SlotOffset;
        PathStaysInside(element, path[1..]);
        ElementFits(AllocSize(element), path[0].bits, count);
    }
  }

  /** If the checks pass, the accessed object lies wholly inside the array's payload, however deep
      the path goes through nested arrays and structs. */
  lemma ChecksSuffice(gep: Gep, length: nat)
    requires WellFormed(gep.source, gep.path) && IndexOK(gep.step) && Passes(gep, Some(length))
    requires LengthsFit(gep.source, gep.path) && length <= Pow2(gep.step.width - 1)
    ensures 0 <= ByteOffset(gep)
    ensures ByteOffset(gep) + AllocSize(Target(gep.source, gep.path)) <= SlotOffset(AllocSize(gep.source), length)
  {
    PathStaysInside(gep.source, gep.path);
    hide AllocSize;
    ElementFits(AllocSize(gep.source), gep.step.bits, length);
  }

  /** Without the length condition they do not: an 8-bit index of 200 passes the check of a 250-element
      array and addresses 56 elements before its start. */
  lemma LongArrayEscapes()
    ensures var gep := Gep(Scalar(8, 8), Index(false, 200, 8), []);
      WellFormed(gep.source, gep.path) && IndexOK(gep.step) && Passes(gep, Some(250)) && ByteOffset(gep) == -448
  {
    assert Pow2(4) == 16;
    assert Pow2(7) == 128 && Pow2(8) == 256;
    SlotOffsetIsProduct(8, 56);
  }
}
