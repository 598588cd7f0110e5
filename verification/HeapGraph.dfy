/** The object graph a client sees: which words of an allocation the collector reads, who
    owns an address, and which allocations the roots reach. */
module HeapGraph {
  import opened Wrappers
  import opened MachineWords
  import opened HeapModel

  // ----- Who owns an address -----

  /** Linear search: the first allocation whose payload contains the address, or 0. */
  ghost function OwnerIn(allocs: seq<Allocation>, address: nat): nat {
    if allocs == [] then 0
    else if allocs[0].Contains(address) then allocs[0].header
    else OwnerIn(allocs[1..], address)
  }

  ghost predicate NoNullHeader(allocs: seq<Allocation>) {
    forall al :: al in allocs ==> al.header != 0
  }

  lemma {:induction false} OwnerInIsOwner(allocs: seq<Allocation>, address: nat)
    requires NoNullHeader(allocs)
    ensures OwnerIn(allocs, address) != 0 ==>
      exists al :: al in allocs && al.header == OwnerIn(allocs, address) && al.Contains(address)
    ensures OwnerIn(allocs, address) == 0 ==> forall al :: al in allocs ==> !al.Contains(address)
  {
    if allocs != [] {
      assert allocs[0] in allocs;
      assert forall al :: al in allocs <==> al == allocs[0] || al in allocs[1..];
      OwnerInIsOwner(allocs[1..], address);
    }
  }

  // ----- Which words the collector reads -----

  /** The words read for one element: every reference slot that leaves a whole word in the stride. */
  function SlotReads(d: Descriptor, base: nat, n: nat): seq<nat>
    requires d.referenceSlotOffsets.Some? ==> n <= |d.referenceSlotOffsets.value|
  {
    if n == 0 || d.referenceSlotOffsets.None? then []
    else
      var offset := d.referenceSlotOffsets.value[n - 1];
      SlotReads(d, base, n - 1)
      + (if (offset + WORD_BYTES) % WORD_LIMIT > d.instanceSize then [] else [(base + offset) % WORD_LIMIT])
  }

  function ElementReads(d: Descriptor, start: nat, m: nat): seq<nat> {
    if m == 0 then []
    else ElementReads(d, start, m - 1)
         + SlotReads(d, start + SlotOffset(d.instanceSize, m - 1), d.referenceSlotCount)
  }

  function WordReads(start: nat, n: nat): seq<nat> {
    if n == 0 then [] else WordReads(start, n - 1) + [start + (n - 1) * WORD_BYTES]
  }

  /** The addresses scanAllocationPayload reads, in order. */
  function Reads(al: Allocation): seq<nat> {
    if al.typeDescriptor.Some? && al.typeDescriptor.value.instanceSize != 0 then
      ElementReads(al.typeDescriptor.value, al.Payload(), if al.kind == ArrayKind then al.elementCount else 1)
    else
      WordReads(al.Payload(), al.payloadSize / WORD_BYTES)
  }

  /** A word the collector takes for a reference: in a typed allocation one that a listed offset of an
      element gives, passing the guard as the collector computes it; else any whole word of the payload,
      eight bytes apart. */
  ghost predicate IsScanned(al: Allocation, r: nat) {
    if al.typeDescriptor.Some? && al.typeDescriptor.value.instanceSize != 0 then
      var d := al.typeDescriptor.value;
      d.referenceSlotOffsets.Some? &&
      exists e: nat, k: nat :: e < (if al.kind == ArrayKind then al.elementCount else 1) && k < d.referenceSlotCount && IsSlotAt(al, d, e, k, r)
    else
      exists k: nat :: 8 * k + 8 <= al.payloadSize && r == WordAt(al, k)
  }

  predicate IsSlotAt(al: Allocation, d: Descriptor, e: nat, k: nat, r: nat)
    requires d.referenceSlotOffsets.Some? && k < |d.referenceSlotOffsets.value|
  {
    IsReadAt(d.referenceSlotOffsets.value[k], d, al.header + 80 + e * d.instanceSize, r)
  }

  predicate IsReadAt(offset: Word, d: Descriptor, base: nat, r: nat) {
    (offset + 8) % 0x1_0000_0000_0000_0000 <= d.instanceSize && r == (base + offset) % 0x1_0000_0000_0000_0000
  }

  function WordAt(al: Allocation, k: nat): nat { al.header + 80 + 8 * k }

  lemma {:induction false} SlotReadsIff(d: Descriptor, base: nat, n: nat, r: nat)
    requires d.referenceSlotOffsets.Some? ==> n <= |d.referenceSlotOffsets.value|
    ensures r in SlotReads(d, base, n) <==>
      d.referenceSlotOffsets.Some? && exists k: nat :: k < n && IsReadAt(d.referenceSlotOffsets.value[k], d, base, r)
  {
    if n != 0 && d.referenceSlotOffsets.Some? { SlotReadsIff(d, base, n - 1, r); }
  }

  lemma {:induction false} WordReadsIff(al: Allocation, n: nat, r: nat)
    ensures r in WordReads(al.header + 80, n) <==> exists k: nat :: k < n && r == WordAt(al, k)
  {
    if n != 0 {
      WordReadsIff(al, n - 1, r);
      assert r == WordAt(al, n - 1) <==> r == al.header + 80 + (n - 1) * WORD_BYTES;
    }
  }

  lemma {:induction false} ElementReadsIff(al: Allocation, d: Descriptor, m: nat, r: nat)
    ensures r in ElementReads(d, al.header + 80, m) <==>
      d.referenceSlotOffsets.Some? && exists e: nat, k: nat :: e < m && k < d.referenceSlotCount && IsSlotAt(al, d, e, k, r)
  {
    if m != 0 {
      ElementReadsIff(al, d, m - 1, r);
      SlotOffsetIsProduct(d.instanceSize, m - 1);
      SlotReadsIff(d, al.header + 80 + SlotOffset(d.instanceSize, m - 1), d.referenceSlotCount, r);
      hide SlotReads, SlotOffset, IsReadAt;
      var offsets := d.referenceSlotOffsets;
      assert offsets.Some? ==> forall k: nat :: k < d.referenceSlotCount ==>
        (IsSlotAt(al, d, m - 1, k, r) <==> IsReadAt(offsets.value[k], d, al.header + 80 + (m - 1) * d.instanceSize, r));
      hide IsSlotAt;
    }
  }

  /** The collector reads exactly those words. */
  lemma ReadsIff(al: Allocation, r: nat)
    ensures r in Reads(al) <==> IsScanned(al, r)
  {
    if al.typeDescriptor.Some? && al.typeDescriptor.value.instanceSize != 0 {
      ElementReadsIff(al, al.typeDescriptor.value, if al.kind == ArrayKind then al.elementCount else 1, r);
      hide ElementReads, IsSlotAt;
    } else {
      WordReadsIff(al, al.payloadSize / WORD_BYTES, r);
      hide WordReads;
      assert forall k: nat :: 8 * k + 8 <= al.payloadSize <==> k < al.payloadSize / WORD_BYTES;
    }
  }

  function Loads(words: map<nat, Word>, addresses: seq<nat>): (r: seq<nat>)
    ensures |r| == |addresses|
    ensures forall i :: 0 <= i < |r| ==> r[i] == Load(words, addresses[i])
  {
    if addresses == [] then [] else Loads(words, addresses[..|addresses| - 1]) + [Load(words, addresses[|addresses| - 1])]
  }

  lemma LoadsOfOneMore(words: map<nat, Word>, addresses: seq<nat>, a: nat)
    ensures Loads(words, addresses + [a]) == Loads(words, addresses) + [Load(words, a)]
  {
    assert (addresses + [a])[..|addresses|] == addresses;
  }

  // ----- Reachability -----

  /** The owners of the given addresses. */
  ghost function Owners(allocs: seq<Allocation>, addresses: seq<nat>): set<nat> {
    set t | t in addresses && OwnerIn(allocs, t) != 0 :: OwnerIn(allocs, t)
  }

  ghost predicate Edge(allocs: seq<Allocation>, words: map<nat, Word>, a: nat, b: nat) {
    exists al :: al in allocs && al.header == a && b in Owners(allocs, Loads(words, Reads(al)))
  }

  ghost predicate ReachableIn(allocs: seq<Allocation>, words: map<nat, Word>, roots: seq<nat>, n: nat, a: nat) {
    if n == 0 then a in Owners(allocs, roots)
    else exists b :: ReachableIn(allocs, words, roots, n - 1, b) && Edge(allocs, words, b, a)
  }

  /** Some chain of interior pointers leads from a root to the allocation with header a. */
  ghost predicate Reachable(allocs: seq<Allocation>, words: map<nat, Word>, roots: seq<nat>, a: nat) {
    exists n: nat :: ReachableIn(allocs, words, roots, n, a)
  }

  ghost function ReachableSet(allocs: seq<Allocation>, words: map<nat, Word>, roots: seq<nat>): set<nat> {
    set al | al in allocs && Reachable(allocs, words, roots, al.header) :: al.header
  }

  ghost function Keep(allocs: seq<Allocation>, kept: set<nat>): (r: seq<Allocation>)
    ensures |r| <= |allocs|
    ensures forall al :: al in r <==> al in allocs && al.header in kept
  {
    if allocs == [] then []
    else (if allocs[0].header in kept then [allocs[0]] else []) + Keep(allocs[1..], kept)
  }

  function Bytes(allocs: seq<Allocation>): nat {
    if allocs == [] then 0 else allocs[0].payloadSize + Bytes(allocs[1..])
  }

  lemma BytesOfOneMore(al: Allocation, allocs: seq<Allocation>)
    ensures Bytes([al] + allocs) == al.payloadSize + Bytes(allocs)
  {
    assert ([al] + allocs)[1..] == allocs;
  }

  lemma {:induction false} KeepConserves(allocs: seq<Allocation>, kept: set<nat>)
    ensures Bytes(Keep(allocs, kept)) <= Bytes(allocs)
  {
    if allocs != [] {
      KeepConserves(allocs[1..], kept);
      var rest := Keep(allocs[1..], kept);
      assert allocs[0].header !in kept ==> Keep(allocs, kept) == rest;
      BytesOfOneMore(allocs[0], rest);
    }
  }

  /** Anything closed under roots and edges contains everything reachable. */
  lemma {:induction false} ClosedContainsReachable(allocs: seq<Allocation>, words: map<nat, Word>, roots: seq<nat>, m: set<nat>, n: nat, a: nat)
    requires Owners(allocs, roots) <= m
    requires forall b, c :: b in m && Edge(allocs, words, b, c) ==> c in m
    requires ReachableIn(allocs, words, roots, n, a)
    ensures a in m
  {
    hide Edge, Owners;
    if n != 0 {
      var b :| ReachableIn(allocs, words, roots, n - 1, b) && Edge(allocs, words, b, a);
      ClosedContainsReachable(allocs, words, roots, m, n - 1, b);
    }
  }

  lemma ReachableStep(allocs: seq<Allocation>, words: map<nat, Word>, roots: seq<nat>, a: nat, b: nat)
    requires Reachable(allocs, words, roots, a) && Edge(allocs, words, a, b)
    ensures Reachable(allocs, words, roots, b)
  {
    var n: nat :| ReachableIn(allocs, words, roots, n, a);
    assert ReachableIn(allocs, words, roots, n + 1, b);
  }

  /** A set of allocations that contains the root owners, is closed under edges, and holds
      nothing unreachable is exactly the reachable set. */
  lemma ClosedAndSoundIsReachableSet(allocs: seq<Allocation>, words: map<nat, Word>, roots: seq<nat>, m: set<nat>)
    requires Owners(allocs, roots) <= m
    requires forall b, c :: b in m && Edge(allocs, words, b, c) ==> c in m
    requires forall b :: b in m ==> Reachable(allocs, words, roots, b) && exists al :: al in allocs && al.header == b
    ensures m == ReachableSet(allocs, words, roots)
  {
    forall al | al in allocs && Reachable(allocs, words, roots, al.header)
      ensures al.header in m
    {
      var n: nat :| ReachableIn(allocs, words, roots, n, al.header);
      ClosedContainsReachable(allocs, words, roots, m, n, al.header);
    }
  }

  // ----- When the scan stays inside the payload -----

  /** Adding the word size to this offset does not wrap around, or wraps to a number the guard rejects. */
  predicate IsHarmless(d: Descriptor, offset: nat) {
    offset + WORD_BYTES < WORD_LIMIT || offset + WORD_BYTES - WORD_LIMIT > d.instanceSize
  }

  ghost predicate HarmlessUpTo(d: Descriptor, n: nat)
    requires d.referenceSlotOffsets.Some? ==> n <= |d.referenceSlotOffsets.value|
  {
    d.referenceSlotOffsets.Some? ==> forall i :: 0 <= i < n ==> IsHarmless(d, d.referenceSlotOffsets.value[i])
  }

  ghost predicate AllInside(addresses: seq<nat>, lo: nat, hi: nat) {
    forall r :: r in addresses ==> lo <= r && r + WORD_BYTES <= hi
  }

  lemma OneSlotRead(d: Descriptor, base: nat, offset: Word)
    requires WORD_BYTES <= base && base + d.instanceSize <= WORD_LIMIT
    ensures (offset + WORD_BYTES) % WORD_LIMIT <= d.instanceSize ==>
      if IsHarmless(d, offset)
      then base <= (base + offset) % WORD_LIMIT && (base + offset) % WORD_LIMIT + WORD_BYTES <= base + d.instanceSize
      else (base + offset) % WORD_LIMIT < base
    ensures (offset + WORD_BYTES) % WORD_LIMIT > d.instanceSize ==> IsHarmless(d, offset)
  {
    if offset + WORD_BYTES >= WORD_LIMIT {
      assert (offset + WORD_BYTES) % WORD_LIMIT == offset + WORD_BYTES - WORD_LIMIT;
      assert (base + offset) % WORD_LIMIT == base + offset - WORD_LIMIT;
    }
  }

  /** The reads of one element stay inside it exactly when every listed offset is harmless. */
  lemma {:induction false} SlotReadsInsideIff(d: Descriptor, base: nat, n: nat)
    requires d.referenceSlotOffsets.Some? ==> n <= |d.referenceSlotOffsets.value|
    requires WORD_BYTES <= base && base + d.instanceSize <= WORD_LIMIT
    ensures AllInside(SlotReads(d, base, n), base, base + d.instanceSize) <==> HarmlessUpTo(d, n)
    ensures !HarmlessUpTo(d, n) ==> exists r :: r in SlotReads(d, base, n) && r < base
  {
    if n != 0 && d.referenceSlotOffsets.Some? {
      SlotReadsInsideIff(d, base, n - 1);
      var offset := d.referenceSlotOffsets.value[n - 1];
      OneSlotRead(d, base, offset);
      hide IsHarmless;
      var r, skipped := (base + offset) % WORD_LIMIT, (offset + WORD_BYTES) % WORD_LIMIT > d.instanceSize;
      assert SlotReads(d, base, n) == SlotReads(d, base, n - 1) + if skipped then [] else [r];
      assert forall x :: x in SlotReads(d, base, n) <==> x in SlotReads(d, base, n - 1) || (!skipped && x == r);
      assert HarmlessUpTo(d, n) <==> HarmlessUpTo(d, n - 1) && IsHarmless(d, offset);
      hide SlotReads, HarmlessUpTo;
      if !IsHarmless(d, offset) {
        assert r in SlotReads(d, base, n) && r < base;
      } else if !HarmlessUpTo(d, n - 1) {
        var x :| x in SlotReads(d, base, n - 1) && x < base;
        assert x in SlotReads(d, base, n);
      } else {
        assert !skipped ==> base <= r && r + WORD_BYTES <= base + d.instanceSize;
        assert AllInside(SlotReads(d, base, n), base, base + d.instanceSize);
      }
    }
  }

  lemma {:induction false} ElementReadsInside(d: Descriptor, start: nat, m: nat)
    requires HarmlessUpTo(d, d.referenceSlotCount) && WORD_BYTES <= start && start + SlotOffset(d.instanceSize, m) <= WORD_LIMIT
    ensures AllInside(ElementReads(d, start, m), start, start + SlotOffset(d.instanceSize, m))
  {
    if m != 0 {
      ElementReadsInside(d, start, m - 1);
      SlotReadsInsideIff(d, start + SlotOffset(d.instanceSize, m - 1), d.referenceSlotCount);
    }
  }

  /** The first element is always among those read. */
  lemma {:induction false} FirstElementIsRead(d: Descriptor, start: nat, m: nat)
    requires m > 0
    ensures forall r :: r in SlotReads(d, start, d.referenceSlotCount) ==> r in ElementReads(d, start, m)
  {
    if m > 1 { FirstElementIsRead(d, start, m - 1); }
  }

  lemma {:induction false} WordReadsInside(start: nat, n: nat)
    ensures AllInside(WordReads(start, n), start, start + n * WORD_BYTES)
  {
    if n != 0 {
      WordReadsInside(start, n - 1);
    }
  }

  function ScannedElements(al: Allocation): nat {
    if al.kind == ArrayKind then al.elementCount else 1
  }

  /** Whether the collector, scanning precisely, meets no offset that takes it out of the payload. */
  ghost predicate ScanIsHarmless(al: Allocation) {
    al.typeDescriptor.None? || al.typeDescriptor.value.instanceSize == 0 || ScannedElements(al) == 0
    || HarmlessUpTo(al.typeDescriptor.value, al.typeDescriptor.value.referenceSlotCount)
  }

  /** Every word the collector reads of an allocation whose elements fit lies wholly inside its
      payload, if and only if no listed offset wraps past the guard. */
  lemma ReadsStayInsideIff(al: Allocation)
    requires al.Payload() + al.payloadSize <= WORD_LIMIT
    requires al.typeDescriptor.Some? ==> ScannedElements(al) * al.typeDescriptor.value.instanceSize <= al.payloadSize
    ensures AllInside(Reads(al), al.Payload(), al.Payload() + al.payloadSize) <==> ScanIsHarmless(al)
  {
    if al.typeDescriptor.Some? && al.typeDescriptor.value.instanceSize != 0 {
      var d, count := al.typeDescriptor.value, ScannedElements(al);
      SlotOffsetIsProduct(d.instanceSize, count);
      hide SlotReads, IsHarmless, SlotOffset;
      if HarmlessUpTo(d, d.referenceSlotCount) {
        ElementReadsInside(d, al.Payload(), count);
      } else if count > 0 {
        ElementFitsOnce(d.instanceSize, count);
        SlotReadsInsideIff(d, al.Payload(), d.referenceSlotCount);
        FirstElementIsRead(d, al.Payload(), count);
      }
    } else {
      WordReadsInside(al.Payload(), al.payloadSize / WORD_BYTES);
    }
  }

  lemma ElementFitsOnce(size: nat, count: nat)
    requires count > 0
    ensures size <= count * size
  {
    MulMonotone(size, count - 1, count);
    assert size * (count - 1) >= 0;
  }

  /** An allocation of which the collector reads a word outside: the guard wraps on its one offset. */
  lemma WrappedOffsetEscapes()
    ensures var al := Allocation(4016, ObjectKind, 1, 8, Some(GCTypeDescriptor(1, 8, 8, 1, Some([WORD_LIMIT - 8]))));
      al.Payload() == 4096 && ScannedElements(al) * al.typeDescriptor.value.instanceSize <= al.payloadSize && Reads(al) == [4088]
  {
    var d := GCTypeDescriptor(1, 8, 8, 1, Some([WORD_LIMIT - 8]));
    assert SlotReads(d, 4096, 0) == [] && SlotReads(d, 4096, 1) == [4088];
    assert SlotOffset(8, 0) == 0 && ElementReads(d, 4096, 0) == [];
    assert ElementReads(d, 4096, 1) == [4088];
  }
}
