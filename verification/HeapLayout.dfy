/** Type layouts and the pointer-offset tables the compiler emits for the collector. */
module HeapLayout {
  import opened Wrappers
  import opened MachineWords
  import opened HeapModel
  import opened HeapGraph

  const POINTER_BYTES: nat := 8

  /** Sized first-class types. A scalar's allocation size is a multiple of its alignment. */
  datatype Type =
    | Scalar(size: nat, align: nat)
    | Pointer
    | ArrayOf(element: Type, count: nat)
    | Struct(fields: seq<Type>, packed: bool)

  function RoundUp(value: nat, alignment: nat): (r: nat)
    ensures r >= value
  {
    if alignment == 0 || value % alignment == 0 then value else value + (alignment - value % alignment)
  }

  function AbiAlign(t: Type): nat
    decreases t, 0
  {
    match t
    case Scalar(_, align) => align
    case Pointer => POINTER_BYTES
    case ArrayOf(element, _) => AbiAlign(element)
    case Struct(fields, packed) => if packed then 1 else Max(1, FieldsAlign(fields))
  }

  function FieldsAlign(fields: seq<Type>): nat
    decreases fields, 1
  {
    if fields == [] then 1 else Max(AbiAlign(fields[0]), FieldsAlign(fields[1..]))
  }

  function AllocSize(t: Type): nat
    decreases t, 0
  {
    match t
    case Scalar(size, _) => size
    case Pointer => POINTER_BYTES
    case ArrayOf(element, count) => SlotOffset(AllocSize(element), count)
    case Struct(fields, packed) => RoundUp(FieldsEnd(fields, packed, 0), AbiAlign(t))
  }

  /** Where a field starts when the previous one ended at `end`. */
  function FieldStart(field: Type, packed: bool, end: nat): (r: nat)
    ensures r >= end
  {
    if packed then end else RoundUp(end, AbiAlign(field))
  }

  /** The end of the last field, laying the fields out from `end` on. */
  function FieldsEnd(fields: seq<Type>, packed: bool, end: nat): (r: nat)
    ensures r >= end
    decreases fields, 1
  {
    if fields == [] then end
    else FieldsEnd(fields[1..], packed, FieldStart(fields[0], packed, end) + AllocSize(fields[0]))
  }

  // ----- The offsets, as a function of the type -----

  function PointerOffsets(t: Type, base: nat): seq<nat>
    decreases t, 0
  {
    match t
    case Scalar(_, _) => []
    case Pointer => [base]
    case ArrayOf(element, count) => ElementOffsets(element, base, count)
    case Struct(fields, packed) => FieldOffsets(fields, packed, base, 0)
  }

  function ElementOffsets(element: Type, base: nat, count: nat): seq<nat>
    decreases element, 1, count
  {
    if count == 0 then []
    else ElementOffsets(element, base, count - 1) + PointerOffsets(element, base + SlotOffset(AllocSize(element), count - 1))
  }

  function FieldOffsets(fields: seq<Type>, packed: bool, base: nat, end: nat): seq<nat>
    decreases fields, 1
  {
    if fields == [] then []
    else
      var start := FieldStart(fields[0], packed, end);
      PointerOffsets(fields[0], base + start) + FieldOffsets(fields[1..], packed, base, start + AllocSize(fields[0]))
  }

  // ----- The flattened layout, byte by byte -----

  datatype Byte = Plain | PointerByte(index: nat)

  /** What byte k of a value of type t holds: the index-th byte of a pointer, or anything else. */
  ghost function ByteAt(t: Type, k: nat): Byte
    decreases t, 0
  {
    match t
    case Scalar(_, _) => Plain
    case Pointer => if k < POINTER_BYTES then PointerByte(k) else Plain
    case ArrayOf(element, count) => ElementByteAt(element, count, k)
    case Struct(fields, packed) => FieldByteAt(fields, packed, 0, k)
  }

  ghost function ElementByteAt(element: Type, count: nat, k: nat): Byte
    decreases element, 1, count
  {
    if count == 0 || AllocSize(element) == 0 then Plain
    else if k < AllocSize(element) then ByteAt(element, k)
    else ElementByteAt(element, count - 1, k - AllocSize(element))
  }

  ghost function FieldByteAt(fields: seq<Type>, packed: bool, end: nat, k: nat): Byte
    decreases fields, 1
  {
    if fields == [] then Plain
    else
      var start := FieldStart(fields[0], packed, end);
      if start <= k < start + AllocSize(fields[0]) then ByteAt(fields[0], k - start)
      else FieldByteAt(fields[1..], packed, start + AllocSize(fields[0]), k)
  }

  // ----- Where fields and elements lie -----

  /** Pointers are words of eight bytes; scalars have the size and alignment the target gives them. */
  lemma LeavesAre(size: nat, align: nat, k: nat)
    ensures AllocSize(Pointer) == AbiAlign(Pointer) == 8 && PointerOffsets(Pointer, k) == [k]
    ensures ByteAt(Pointer, k) == if k < 8 then PointerByte(k) else Plain
    ensures AllocSize(Scalar(size, align)) == size && AbiAlign(Scalar(size, align)) == align
    ensures ByteAt(Scalar(size, align), k) == Plain && PointerOffsets(Scalar(size, align), k) == []
  {
  }

  lemma RoundUpIsLeast(value: nat, alignment: nat)
    requires alignment > 0
    ensures RoundUp(value, alignment) % alignment == 0 && value <= RoundUp(value, alignment) < value + alignment
  {
    var q, r := value / alignment, value % alignment;
    if r != 0 {
      assert value + (alignment - r) == (q + 1) * alignment;
      MultipleRemainder(q + 1, alignment);
    }
  }

  lemma MultipleRemainder(q: nat, d: nat)
    requires d > 0
    ensures (q * d) % d == 0
  {
    MultipleOf(d, q);
    assert q * d == d * q;
  }

  /** Each field starts where the one before it ends, or, unless the struct is packed, at the least
      multiple of its alignment that is not before that. */
  ghost predicate LaidOut(fields: seq<Type>, packed: bool, end: nat, starts: seq<nat>) {
    && |starts| == |fields|
    && forall k :: 0 <= k < |fields| ==> StartsAt(fields[k], packed, if k == 0 then end else starts[k - 1] + AllocSize(fields[k - 1]), starts[k])
  }

  predicate StartsAt(field: Type, packed: bool, before: nat, start: nat) {
    if packed then start == before
    else AbiAlign(field) > 0 ==> start % AbiAlign(field) == 0 && before <= start < before + AbiAlign(field)
  }

  /** Where the last field ends. */
  function LastEnd(fields: seq<Type>, end: nat, starts: seq<nat>): nat
    requires |starts| == |fields|
  {
    if fields == [] then end else starts[|fields| - 1] + AllocSize(fields[|fields| - 1])
  }

  function FieldStarts(fields: seq<Type>, packed: bool, end: nat): (r: seq<nat>)
    ensures |r| == |fields|
  {
    if fields == [] then []
    else
      var start := FieldStart(fields[0], packed, end);
      [start] + FieldStarts(fields[1..], packed, start + AllocSize(fields[0]))
  }

  lemma StartIsLeast(field: Type, packed: bool, end: nat)
    ensures StartsAt(field, packed, end, FieldStart(field, packed, end))
  {
    if AbiAlign(field) > 0 { RoundUpIsLeast(end, AbiAlign(field)); }
    hide RoundUp, AbiAlign;
  }

  lemma {:induction false} FieldStartsThere(fields: seq<Type>, packed: bool, end: nat, k: nat)
    requires k < |fields|
    ensures var starts := FieldStarts(fields, packed, end);
      StartsAt(fields[k], packed, if k == 0 then end else starts[k - 1] + AllocSize(fields[k - 1]), starts[k])
    decreases k
  {
    hide FieldStart, AllocSize, StartsAt, AbiAlign;
    if k == 0 {
      StartIsLeast(fields[0], packed, end);
    } else {
      FieldStartsThere(fields[1..], packed, FieldStart(fields[0], packed, end) + AllocSize(fields[0]), k - 1);
    }
  }

  lemma FieldsAreLaidOut(fields: seq<Type>, packed: bool, end: nat)
    ensures LaidOut(fields, packed, end, FieldStarts(fields, packed, end))
  {
    hide FieldStarts, AllocSize, StartsAt;
    forall k | 0 <= k < |fields|
      ensures var starts := FieldStarts(fields, packed, end);
        StartsAt(fields[k], packed, if k == 0 then end else starts[k - 1] + AllocSize(fields[k - 1]), starts[k])
    {
      FieldStartsThere(fields, packed, end, k);
    }
  }

  lemma {:induction false} LastFieldEnds(fields: seq<Type>, packed: bool, end: nat)
    ensures LastEnd(fields, end, FieldStarts(fields, packed, end)) == FieldsEnd(fields, packed, end)
  {
    hide FieldStart, AllocSize;
    if fields != [] {
      var start := FieldStart(fields[0], packed, end);
      LastFieldEnds(fields[1..], packed, start + AllocSize(fields[0]));
    }
  }

  lemma {:induction false} FieldLiesThere(fields: seq<Type>, packed: bool, end: nat, k: nat, j: nat)
    requires k < |fields| && j < AllocSize(fields[k])
    ensures end <= FieldStarts(fields, packed, end)[k]
    ensures FieldByteAt(fields, packed, end, FieldStarts(fields, packed, end)[k] + j) == ByteAt(fields[k], j)
    decreases k
  {
    hide AllocSize, ByteAt, AbiAlign, RoundUp;
    if k > 0 { FieldLiesThere(fields[1..], packed, FieldStart(fields[0], packed, end) + AllocSize(fields[0]), k - 1, j); }
  }

  /** A struct holds its fields at such places, and its size is that of their whole, rounded up to its
      own alignment, which is the largest of theirs. */
  lemma StructHoldsFields(fields: seq<Type>, packed: bool) returns (starts: seq<nat>)
    ensures LaidOut(fields, packed, 0, starts)
    ensures forall k, j: nat :: 0 <= k < |fields| && j < AllocSize(fields[k]) ==> ByteAt(Struct(fields, packed), starts[k] + j) == ByteAt(fields[k], j)
    ensures var align, size, end := AbiAlign(Struct(fields, packed)), AllocSize(Struct(fields, packed)), LastEnd(fields, 0, starts);
      align > 0 && size % align == 0 && end <= size < end + align
    ensures packed ==> AbiAlign(Struct(fields, packed)) == 1
    ensures !packed ==> forall k :: 0 <= k < |fields| ==> AbiAlign(fields[k]) <= AbiAlign(Struct(fields, packed))
    ensures !packed ==> AbiAlign(Struct(fields, packed)) == 1 || exists k :: 0 <= k < |fields| && AbiAlign(fields[k]) == AbiAlign(Struct(fields, packed))
  {
    starts := FieldStarts(fields, packed, 0);
    LastFieldEnds(fields, packed, 0);
    FieldsAreLaidOut(fields, packed, 0);
    forall k, j: nat | 0 <= k < |fields| && j < AllocSize(fields[k])
      ensures ByteAt(Struct(fields, packed), starts[k] + j) == ByteAt(fields[k], j)
    {
      FieldLiesThere(fields, packed, 0, k, j);
    }
    LargestAlign(fields);
    RoundUpIsLeast(FieldsEnd(fields, packed, 0), AbiAlign(Struct(fields, packed)));
    hide RoundUp, FieldsEnd, FieldByteAt, FieldsAlign, LastEnd, StartsAt;
  }

  lemma {:induction false} LargestAlign(fields: seq<Type>)
    ensures FieldsAlign(fields) >= 1 && forall k :: 0 <= k < |fields| ==> AbiAlign(fields[k]) <= FieldsAlign(fields)
    ensures FieldsAlign(fields) == 1 || exists k :: 0 <= k < |fields| && AbiAlign(fields[k]) == FieldsAlign(fields)
  {
    if fields != [] {
      hide AbiAlign;
      var rest := fields[1..];
      LargestAlign(rest);
      assert forall k :: 0 < k < |fields| ==> fields[k] == rest[k - 1];
      if FieldsAlign(rest) != 1 && FieldsAlign(fields) == FieldsAlign(rest) {
        var k :| 0 <= k < |rest| && AbiAlign(rest[k]) == FieldsAlign(rest);
        assert fields[k + 1] == rest[k];
      }
    }
  }

  /** An array holds its elements one behind the other. */
  lemma ArrayHoldsElements(element: Type, count: nat, index: nat, j: nat)
    requires index < count && j < AllocSize(element)
    ensures ByteAt(ArrayOf(element, count), index * AllocSize(element) + j) == ByteAt(element, j)
    ensures AllocSize(ArrayOf(element, count)) == count * AllocSize(element) && AbiAlign(ArrayOf(element, count)) == AbiAlign(element)
  {
    hide *;
    ElementsLieThere(element, count, index, j);
    ArrayIs(element, count, index * AllocSize(element) + j);
    SlotOffsetIsProduct(AllocSize(element), count);
  }

  lemma ArrayIs(element: Type, count: nat, k: nat)
    ensures AllocSize(ArrayOf(element, count)) == SlotOffset(AllocSize(element), count) && AbiAlign(ArrayOf(element, count)) == AbiAlign(element)
    ensures ByteAt(ArrayOf(element, count), k) == ElementByteAt(element, count, k)
  {
    hide SlotOffset, ElementByteAt;
  }

  lemma {:induction false} ElementsLieThere(element: Type, count: nat, index: nat, j: nat)
    requires index < count && j < AllocSize(element)
    ensures ElementByteAt(element, count, index * AllocSize(element) + j) == ByteAt(element, j)
    decreases index
  {
    var size := AllocSize(element);
    hide AllocSize, ByteAt;
    if index > 0 {
      ElementsLieThere(element, count - 1, index - 1, j);
      assert index * size + j - size == (index - 1) * size + j;
      assert index * size + j >= size;
    }
  }

  // ----- Strictly increasing, whole words, inside the type -----

  /** Offsets in [lo, hi], each followed by a whole pointer before the next one and before hi. */
  ghost predicate Spaced(offsets: seq<nat>, lo: nat, hi: nat) {
    && (forall i :: 0 <= i < |offsets| ==> lo <= offsets[i] && offsets[i] + 8 <= hi)
    && (forall i, j :: 0 <= i < j < |offsets| ==> offsets[i] + 8 <= offsets[j])
  }

  lemma SpacedNothing(lo: nat, hi: nat)
    ensures Spaced([], lo, hi)
  {
  }

  lemma SpacedConcat(a: seq<nat>, b: seq<nat>, lo: nat, lo': nat, mid: nat, hi: nat)
    requires Spaced(a, lo', mid) && Spaced(b, mid, hi) && lo <= lo' <= mid <= hi
    ensures Spaced(a + b, lo, hi)
  {
    var c := a + b;
    assert forall i :: 0 <= i < |c| ==> c[i] == if i < |a| then a[i] else b[i - |a|];
  }

  lemma {:induction false} OffsetsAreSpaced(t: Type, base: nat)
    ensures Spaced(PointerOffsets(t, base), base, base + AllocSize(t))
    decreases t, 0
  {
    match t
    case Scalar(_, _) =>
    case Pointer =>
    case ArrayOf(element, count) => ElementsAreSpaced(element, base, count);
    case Struct(fields, packed) => FieldsAreSpaced(fields, packed, base, 0);
  }

  lemma {:induction false} ElementsAreSpaced(element: Type, base: nat, count: nat)
    ensures Spaced(ElementOffsets(element, base, count), base, base + SlotOffset(AllocSize(element), count))
    decreases element, 1, count
  {
    if count != 0 {
      ElementsAreSpaced(element, base, count - 1);
      var start := base + SlotOffset(AllocSize(element), count - 1);
      OffsetsAreSpaced(element, start);
      hide Spaced;
      SpacedConcat(ElementOffsets(element, base, count - 1), PointerOffsets(element, start), base, base, start, start + AllocSize(element));
    }
  }

  lemma {:induction false} FieldsAreSpaced(fields: seq<Type>, packed: bool, base: nat, end: nat)
    ensures Spaced(FieldOffsets(fields, packed, base, end), base + end, base + FieldsEnd(fields, packed, end))
    decreases fields, 1
  {
    hide Spaced, RoundUp, AllocSize, PointerOffsets;
    if fields == [] {
      SpacedNothing(base + end, base + end);
    } else {
      var start := FieldStart(fields[0], packed, end);
      var next := start + AllocSize(fields[0]);
      OffsetsAreSpaced(fields[0], base + start);
      FieldsAreSpaced(fields[1..], packed, base, next);
      SpacedConcat(PointerOffsets(fields[0], base + start), FieldOffsets(fields[1..], packed, base, next),
                   base + end, base + start, base + next, base + FieldsEnd(fields, packed, end));
    }
  }

  // ----- Exactly the pointers of the flattened layout -----

  /** An offset is emitted iff a pointer starts there in the flattened layout. */
  lemma {:induction false} OffsetsAreThePointers(t: Type, base: nat, k: nat)
    ensures base + k in PointerOffsets(t, base) <==> ByteAt(t, k) == PointerByte(0)
    decreases t, 0
  {
    match t
    case Scalar(_, _) =>
    case Pointer =>
    case ArrayOf(element, count) => ElementPointers(element, base, count, k);
    case Struct(fields, packed) => FieldPointers(fields, packed, base, 0, k);
  }

  lemma {:induction false} ElementPointers(element: Type, base: nat, count: nat, k: nat)
    ensures base + k in ElementOffsets(element, base, count) <==> ElementByteAt(element, count, k) == PointerByte(0)
    decreases element, 1, count
  {
    var size := AllocSize(element);
    ElementsFromTheFront(element, base, count);
    if count != 0 {
      OffsetsAreSpaced(element, base);
      if k < size {
        OffsetsAreThePointers(element, base, k);
        ElementsAreSpaced(element, base + size, count - 1);
      } else {
        ElementPointers(element, base + size, count - 1, k - size);
        if size == 0 {
          ElementsAreSpaced(element, base + size, count - 1);
          ZeroSizedElements(count - 1);
        }
      }
    }
  }

  lemma {:induction false} ZeroSizedElements(n: nat)
    ensures SlotOffset(0, n) == 0
  {
    if n != 0 { ZeroSizedElements(n - 1); }
  }

  /** The elements may as well be listed from the first one on. */
  lemma {:induction false} ElementsFromTheFront(element: Type, base: nat, count: nat)
    ensures count > 0 ==>
      ElementOffsets(element, base, count) == PointerOffsets(element, base) + ElementOffsets(element, base + AllocSize(element), count - 1)
    decreases count
  {
    hide PointerOffsets, AllocSize;
    var size := AllocSize(element);
    if count == 1 {
      assert SlotOffset(size, 0) == 0;
    } else if count > 1 {
      ElementsFromTheFront(element, base, count - 1);
      SlotOffsetShift(size, count - 2);
    }
  }

  lemma {:induction false} SlotOffsetShift(stride: nat, i: nat)
    ensures SlotOffset(stride, i + 1) == stride + SlotOffset(stride, i)
  {
  }

  lemma {:induction false} FieldPointers(fields: seq<Type>, packed: bool, base: nat, end: nat, k: nat)
    ensures base + k in FieldOffsets(fields, packed, base, end) <==> FieldByteAt(fields, packed, end, k) == PointerByte(0)
    decreases fields, 1
  {
    hide RoundUp, AllocSize, PointerOffsets, ByteAt;
    if fields != [] {
      var start := FieldStart(fields[0], packed, end);
      var next := start + AllocSize(fields[0]);
      OffsetsAreSpaced(fields[0], base + start);
      FieldsAreSpaced(fields[1..], packed, base, next);
      if start <= k < next {
        OffsetsAreThePointers(fields[0], base + start, k - start);
      } else {
        FieldPointers(fields[1..], packed, base, next, k);
      }
    }
  }

  // ----- collectPointerOffsets and getOrCreateDescriptor -----

  /** std::sort on machine words, as the sorted arrangement of its input. */
  function Sort(s: seq<nat>): seq<nat> {
    if s == [] then [] else Insert(s[0], Sort(s[1..]))
  }

  function Insert(x: nat, s: seq<nat>): seq<nat> {
    if s == [] || x <= s[0] then [x] + s else [s[0]] + Insert(x, s[1..])
  }

  /** std::unique: drops every element equal to its predecessor. */
  function Unique(s: seq<nat>): seq<nat> {
    if |s| <= 1 then s
    else if s[0] == s[1] then Unique(s[1..])
    else [s[0]] + Unique(s[1..])
  }

  lemma {:induction false} SpacedIsSorted(s: seq<nat>, lo: nat, hi: nat)
    requires Spaced(s, lo, hi)
    ensures Sort(s) == s && Unique(s) == s
  {
    if s != [] {
      SpacedIsSorted(s[1..], lo, hi);
      assert s == [s[0]] + s[1..];
      assert |s| > 1 ==> s[0] + POINTER_BYTES <= s[1];
    }
  }

  /** Size and alignment of a type fit 64 bits. */
  predicate Representable(t: Type) {
    AllocSize(t) < WORD_LIMIT && AbiAlign(t) < WORD_LIMIT
  }

  /** The offsets a descriptor lists need no sorting: they are already strictly increasing. */
  function DescriptorOf(t: Type): (d: Descriptor)
    requires Representable(t)
    ensures d.abiVersion == 1 && d.instanceSize == AllocSize(t) && d.instanceAlignment == AbiAlign(t)
    ensures d.referenceSlotCount == |PointerOffsets(t, 0)|
    ensures d.referenceSlotOffsets == if PointerOffsets(t, 0) == [] then None else Some(PointerOffsets(t, 0))
    ensures HarmlessUpTo(d, d.referenceSlotCount)
  {
    OffsetsAreSpaced(t, 0);
    SpacedIsSorted(PointerOffsets(t, 0), 0, AllocSize(t));
    var offsets: seq<nat> := Unique(Sort(PointerOffsets(t, 0)));
    GCTypeDescriptor(1, AllocSize(t), AbiAlign(t), |offsets|, if offsets == [] then None else Some(OffsetConstants(offsets)))
  }

  /** The 64-bit constants of the emitted offset table. */
  function OffsetConstants(offsets: seq<nat>): (r: seq<Word>)
    requires forall i :: 0 <= i < |offsets| ==> offsets[i] < WORD_LIMIT
    ensures r == offsets
  {
    if offsets == [] then [] else [offsets[0]] + OffsetConstants(offsets[1..])
  }

  lemma OffsetsFit(t: Type)
    requires Representable(t)
    ensures forall i :: 0 <= i < |PointerOffsets(t, 0)| ==> PointerOffsets(t, 0)[i] + WORD_BYTES <= AllocSize(t) < WORD_LIMIT
  {
    OffsetsAreSpaced(t, 0);
  }

  lemma DescriptorFromOffsets(t: Type, offsets: seq<nat>)
    requires Representable(t) && offsets == [] + PointerOffsets(t, 0)
    ensures Unique(Sort(offsets)) == offsets
    ensures forall i :: 0 <= i < |offsets| ==> offsets[i] < WORD_LIMIT
    ensures DescriptorOf(t) == GCTypeDescriptor(1, AllocSize(t), AbiAlign(t), |offsets|,
      if offsets == [] then None else Some(OffsetConstants(offsets)))
  {
    hide PointerOffsets, Sort, Unique, AllocSize, AbiAlign;
    assert offsets == PointerOffsets(t, 0);
    OffsetsAreSpaced(t, 0);
    SpacedIsSorted(offsets, 0, AllocSize(t));
  }

  /** The compiler pass that emits one descriptor per layout type. */
  class HeapLayoutRewriter {
    var descriptorMap: map<Type, Descriptor>

    ghost predicate Valid()
      reads this
    {
      forall t :: t in descriptorMap ==> Representable(t) && descriptorMap[t] == DescriptorOf(t)
    }

    constructor ()
      ensures Valid()
    {
      descriptorMap := map[];
    }

    /** Appends the offsets of every pointer in t, laid out from baseOffset. */
    method CollectPointerOffsets(t: Type, baseOffset: nat, offsets: seq<nat>) returns (offsets': seq<nat>)
      ensures offsets' == offsets + PointerOffsets(t, baseOffset)
      decreases t
    {
      hide AllocSize, AbiAlign, RoundUp;
      match t
      case Scalar(_, _) =>
        offsets' := offsets;
      case Pointer =>
        offsets' := offsets + [baseOffset];
      case ArrayOf(element, count) =>
        var stride := AllocSize(element);
        offsets' := offsets;
        for index := 0 to count
          invariant offsets' == offsets + ElementOffsets(element, baseOffset, index)
        {
          SlotOffsetIsProduct(stride, index);
          offsets' := CollectPointerOffsets(element, baseOffset + index * stride, offsets');
        }
      case Struct(fields, packed) =>
        offsets' := offsets;
        var end: nat := 0;
        for index := 0 to |fields|
          invariant offsets' + FieldOffsets(fields[index..], packed, baseOffset, end) == offsets + FieldOffsets(fields, packed, baseOffset, 0)
        {
          var start := FieldStart(fields[index], packed, end);
          assert fields[index..][0] == fields[index] && fields[index..][1..] == fields[index + 1..];
          offsets' := CollectPointerOffsets(fields[index], baseOffset + start, offsets');
          end := start + AllocSize(fields[index]);
        }
        assert fields[|fields|..] == [];
    }

    method GetOrCreateDescriptor(t: Type) returns (d: Descriptor)
      requires Valid() && Representable(t)
      modifies this
      ensures Valid() && t in descriptorMap
      ensures d == DescriptorOf(t)
      ensures forall u :: u in old(descriptorMap) ==> u in descriptorMap && descriptorMap[u] == old(descriptorMap)[u]
    {
      if t in descriptorMap {
        return descriptorMap[t];
      }
      hide PointerOffsets, DescriptorOf, Sort, Unique, Spaced, AllocSize, AbiAlign, OffsetConstants;
      var offsets := CollectPointerOffsets(t, 0, []);
      DescriptorFromOffsets(t, offsets);
      offsets := Unique(Sort(offsets));
      d := GCTypeDescriptor(1, AllocSize(t), AbiAlign(t), |offsets|, if offsets == [] then None else Some(OffsetConstants(offsets)));
      descriptorMap := descriptorMap[t := d];
    }
  }

  // ----- The descriptor meets the scan -----

  /** With a compiler-made descriptor the scan of one element reads exactly its pointers. */
  lemma {:induction false} ElementScan(t: Type, base: nat, n: nat)
    requires Representable(t) && base + AllocSize(t) <= WORD_LIMIT && n <= |PointerOffsets(t, 0)|
    ensures DescriptorOf(t).referenceSlotOffsets.Some? ==> n <= |DescriptorOf(t).referenceSlotOffsets.value|
    ensures |PointerOffsets(t, base)| == |PointerOffsets(t, 0)|
    ensures SlotReads(DescriptorOf(t), base, n) == PointerOffsets(t, base)[..n]
  {
    hide PointerOffsets, AllocSize, AbiAlign, DescriptorOf, HarmlessUpTo;
    OffsetsShift(t, 0, base);
    assert base + 0 == base && 0 + base == base;
    if n != 0 {
      ElementScan(t, base, n - 1);
      OffsetsFit(t);
      var o := PointerOffsets(t, 0)[n - 1];
      OneSlotScanned(DescriptorOf(t), base, n, o);
      hide SlotReads;
      assert PointerOffsets(t, base)[..n] == PointerOffsets(t, base)[..n - 1] + [base + o];
    }
  }

  /** A listed offset that fits is read where it says. */
  lemma OneSlotScanned(d: Descriptor, base: nat, n: nat, o: nat)
    requires d.referenceSlotOffsets.Some? && 0 < n <= |d.referenceSlotOffsets.value| && d.referenceSlotOffsets.value[n - 1] == o
    requires o + WORD_BYTES <= d.instanceSize && base + d.instanceSize <= WORD_LIMIT
    ensures SlotReads(d, base, n) == SlotReads(d, base, n - 1) + [base + o]
  {
    assert (o + WORD_BYTES) % WORD_LIMIT == o + WORD_BYTES;
    assert (base + o) % WORD_LIMIT == base + o;
  }

  /** Moving a type moves each of its offsets by the same amount. */
  lemma {:induction false} OffsetsShift(t: Type, base: nat, delta: nat)
    ensures |PointerOffsets(t, base + delta)| == |PointerOffsets(t, base)|
    ensures forall i :: 0 <= i < |PointerOffsets(t, base)| ==> PointerOffsets(t, base + delta)[i] == PointerOffsets(t, base)[i] + delta
    decreases t, 0
  {
    match t
    case Scalar(_, _) =>
    case Pointer =>
    case ArrayOf(element, count) => ElementsShift(element, base, delta, count);
    case Struct(fields, packed) => FieldsShift(fields, packed, base, delta, 0);
  }

  lemma {:induction false} ElementsShift(element: Type, base: nat, delta: nat, count: nat)
    ensures |ElementOffsets(element, base + delta, count)| == |ElementOffsets(element, base, count)|
    ensures forall i :: 0 <= i < |ElementOffsets(element, base, count)| ==>
      ElementOffsets(element, base + delta, count)[i] == ElementOffsets(element, base, count)[i] + delta
    decreases element, 1, count
  {
    if count != 0 {
      ElementsShift(element, base, delta, count - 1);
      OffsetsShift(element, base + SlotOffset(AllocSize(element), count - 1), delta);
      assert base + SlotOffset(AllocSize(element), count - 1) + delta == base + delta + SlotOffset(AllocSize(element), count - 1);
    }
  }

  lemma {:induction false} FieldsShift(fields: seq<Type>, packed: bool, base: nat, delta: nat, end: nat)
    ensures |FieldOffsets(fields, packed, base + delta, end)| == |FieldOffsets(fields, packed, base, end)|
    ensures forall i :: 0 <= i < |FieldOffsets(fields, packed, base, end)| ==>
      FieldOffsets(fields, packed, base + delta, end)[i] == FieldOffsets(fields, packed, base, end)[i] + delta
    decreases fields, 1
  {
    hide RoundUp, AllocSize, FieldStart, PointerOffsets;
    if fields != [] {
      var start := FieldStart(fields[0], packed, end);
      OffsetsShift(fields[0], base + start, delta);
      FieldsShift(fields[1..], packed, base, delta, start + AllocSize(fields[0]));
      assert base + start + delta == base + delta + start;
    }
  }

  lemma {:induction false} ArrayScan(t: Type, start: nat, m: nat)
    requires Representable(t) && start + SlotOffset(AllocSize(t), m) <= WORD_LIMIT
    ensures ElementReads(DescriptorOf(t), start, m) == ElementOffsets(t, start, m)
  {
    hide PointerOffsets, AllocSize, DescriptorOf, SlotReads;
    if m != 0 {
      ArrayScan(t, start, m - 1);
      var base := start + SlotOffset(AllocSize(t), m - 1);
      ElementScan(t, base, |PointerOffsets(t, 0)|);
      assert PointerOffsets(t, base)[..|PointerOffsets(t, base)|] == PointerOffsets(t, base);
    }
  }

  lemma ReadsAreOffsets(al: Allocation, t: Type, n: nat)
    requires Representable(t) && AllocSize(t) > 0
    requires al.typeDescriptor == Some(DescriptorOf(t)) && n == if al.kind == ArrayKind then al.elementCount else 1
    requires al.Payload() + AllocSize(ArrayOf(t, n)) <= WORD_LIMIT
    ensures Reads(al) == PointerOffsets(ArrayOf(t, n), al.Payload())
  {
    ArrayScan(t, al.Payload(), n);
    hide ElementReads, ElementOffsets, SlotOffset, AbiAlign;
  }

  /** The collector, given a compiler-made descriptor, reads every pointer of an n-element array
      once, in order, and nothing else: its reads are the pointer offsets of [n x t]. */
  lemma ScanReadsThePointers(al: Allocation, t: Type, n: nat)
    requires Representable(t) && AllocSize(t) > 0
    requires al.typeDescriptor == Some(DescriptorOf(t)) && n == if al.kind == ArrayKind then al.elementCount else 1
    requires al.Payload() + AllocSize(ArrayOf(t, n)) <= WORD_LIMIT
    ensures Reads(al) == PointerOffsets(ArrayOf(t, n), al.Payload())
    ensures forall k: nat :: al.Payload() + k in Reads(al) <==> ByteAt(ArrayOf(t, n), k) == PointerByte(0)
    ensures forall i, j :: 0 <= i < j < |Reads(al)| ==> Reads(al)[i] + WORD_BYTES <= Reads(al)[j]
  {
    ReadsAreOffsets(al, t, n);
    OffsetsAreSpaced(ArrayOf(t, n), al.Payload());
    hide Reads, PointerOffsets, AllocSize, ByteAt, DescriptorOf, Representable;
    forall k: nat
      ensures al.Payload() + k in PointerOffsets(ArrayOf(t, n), al.Payload()) <==> ByteAt(ArrayOf(t, n), k) == PointerByte(0)
    {
      OffsetsAreThePointers(ArrayOf(t, n), al.Payload(), k);
    }
  }
}
