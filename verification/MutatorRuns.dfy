/** Whole runs of a mutator over the managed heap: allocations, interior pointers, stores and
    loads of references, dropped roots and collections, in any order. Every reference carries
    the birth number of the allocation it was made from, so that a recycled address cannot
    pass for the object it used to hold. */
module MutatorRuns {
  import opened Wrappers
  import opened MachineWords
  import opened HeapModel
  import opened HeapGraph
  import opened HeapLemmas
  import opened MarkSweep
  import opened ManagedHeapModule

  /** A reference value and the allocation it was derived from; address 0 is null. */
  datatype Ref = Ref(address: nat, id: nat)

  datatype State = State(
    allocs: seq<Allocation>,
    words: map<nat, Word>,
    ids: map<nat, nat>,            // birth number of the allocation at each active header
    born: seq<Allocation>,         // every allocation ever made, as it was made
    roots: seq<Ref>,               // references the mutator holds
    written: map<nat, Ref>)        // reference slots written since their allocation was made

  ghost predicate IsSlotOf(al: Allocation, slot: nat) {
    slot in Reads(al) && al.Contains(slot)
  }

  /** r is null, or lies inside a live allocation that is still exactly what it was when made. */
  ghost predicate Safe(s: State, r: Ref) {
    r.address == 0
    || exists al :: al in s.allocs && al.header in s.ids && s.ids[al.header] == r.id
                    && r.id < |s.born| && s.born[r.id] == al && al.Contains(r.address)
  }

  /** Slot `slot` belongs to a live allocation and memory holds what was last stored there. */
  ghost predicate SlotOK(s: State, slot: nat) {
    slot in s.written && s.written[slot].address == Load(s.words, slot)
    && exists al :: al in s.allocs && IsSlotOf(al, slot)
  }

  /** The recorded birth of an active allocation is what it is now. */
  ghost predicate BornAs(s: State, al: Allocation) {
    al.header in s.ids && s.ids[al.header] < |s.born| && s.born[s.ids[al.header]] == al
  }

  ghost predicate WellFormed(s: State) {
    && AllocationsDisjoint(s.allocs)
    && (forall al :: al in s.allocs ==> AllocationOK(al))
    && (forall al :: al in s.allocs ==> BornAs(s, al))
    && (forall r :: r in s.roots ==> Safe(s, r))
    && (forall slot :: slot in s.written ==> SlotOK(s, slot) && Safe(s, s.written[slot]))
  }

  // ----- Steps -----

  const Initial: State := State([], map[], map[], [], [], map[])

  function WithoutSlots(written: map<nat, Ref>, al: Allocation): map<nat, Ref> {
    map slot | slot in written && !al.Contains(slot) :: written[slot]
  }

  /** A new allocation, clear of the others; its payload may hold anything. */
  ghost predicate AllocateStep(s: State, s': State, al: Allocation) {
    && AllocationOK(al) && AllocationsDisjoint([al] + s.allocs)
    && KeepsPayloads(s.words, s'.words, s.allocs)
    && s' == s.(allocs := [al] + s.allocs, words := s'.words, ids := s.ids[al.header := |s.born|], born := s.born + [al],
                roots := s.roots + [Ref(al.Payload(), |s.born|)], written := WithoutSlots(s.written, al))
  }

  /** Pointer arithmetic that stays inside the payload of a held reference. */
  ghost predicate DeriveStep(s: State, s': State, r: Ref, address: nat) {
    && r in s.roots && r.address != 0
    && (exists al :: al in s.allocs && al.header in s.ids && s.ids[al.header] == r.id && al.Contains(address))
    && s' == s.(roots := s.roots + [Ref(address, r.id)])
  }

  /** Stores a held reference, or null, in a reference slot of a live allocation. */
  ghost predicate StoreStep(s: State, s': State, al: Allocation, slot: nat, r: Ref) {
    && al in s.allocs && IsSlotOf(al, slot) && (r in s.roots || r.address == 0) && r.address < WORD_LIMIT
    && s' == s.(words := s.words[slot := r.address], written := s.written[slot := r])
  }

  ghost predicate LoadStep(s: State, s': State, slot: nat) {
    slot in s.written && s' == s.(roots := s.roots + [s.written[slot]])
  }

  ghost predicate DropStep(s: State, s': State, i: nat) {
    i < |s.roots| && s' == s.(roots := s.roots[..i] + s.roots[i + 1..])
  }

  /** Any other memory write: scalars, slots never written, bytes outside every payload. */
  ghost predicate MemoryStep(s: State, s': State) {
    && (forall slot :: slot in s.written ==> Load(s'.words, slot) == Load(s.words, slot))
    && s' == s.(words := s'.words)
  }

  /** The roots name every reference the mutator holds, but for null ones. */
  ghost predicate RootsGiven(s: State, roots: seq<nat>) {
    forall r :: r in s.roots && r.address != 0 ==> r.address in roots
  }

  /** A collection that is given at least the references the mutator holds. */
  ghost predicate CollectStep(s: State, s': State, roots: seq<nat>) {
    RootsGiven(s, roots) && s' == AfterCollection(s, roots)
  }

  ghost function AfterCollection(s: State, roots: seq<nat>): State {
    var kept := Keep(s.allocs, ReachableSet(s.allocs, s.words, roots));
    s.(allocs := kept,
       ids := (map h | h in s.ids && (exists al :: al in kept && al.header == h) :: s.ids[h]),
       written := (map slot | slot in s.written && (exists al :: al in kept && IsSlotOf(al, slot)) :: s.written[slot]))
  }

  ghost predicate Step(s: State, s': State) {
    || (exists al :: AllocateStep(s, s', al))
    || (exists r, address :: DeriveStep(s, s', r, address))
    || (exists al, slot, r :: StoreStep(s, s', al, slot, r))
    || (exists slot :: LoadStep(s, s', slot))
    || (exists i :: DropStep(s, s', i))
    || MemoryStep(s, s')
    || (exists roots :: CollectStep(s, s', roots))
  }

  /** A run: states linked by steps, from the empty heap. */
  ghost predicate Run(states: seq<State>) {
    && |states| > 0 && states[0] == Initial
    && forall i :: 0 <= i < |states| - 1 ==> Step(states[i], states[i + 1])
  }

  // ----- Each step keeps the invariant -----

  lemma ContainsIsApart(allocs: seq<Allocation>, a: Allocation, b: Allocation, address: nat)
    requires AllocationsDisjoint(allocs) && a in allocs && b in allocs && a.Contains(address) && b.Contains(address)
    ensures a == b
  {
    var i :| 0 <= i < |allocs| && allocs[i] == a;
    var j :| 0 <= j < |allocs| && allocs[j] == b;
  }

  lemma OwnerOfContained(allocs: seq<Allocation>, al: Allocation, address: nat)
    requires AllocationsDisjoint(allocs) && al in allocs && al.Contains(address) && forall x :: x in allocs ==> AllocationOK(x)
    ensures OwnerIn(allocs, address) == al.header
  {
    assert NoNullHeader(allocs) by {
      forall x | x in allocs ensures x.header != 0 { assert AllocationOK(x); }
    }
    OwnerInIsOwner(allocs, address);
    var x :| x in allocs && x.header == OwnerIn(allocs, address) && x.Contains(address);
    ContainsIsApart(allocs, al, x, address);
  }

  lemma NewIsApart(allocs: seq<Allocation>, al: Allocation, x: Allocation)
    requires AllocationsDisjoint([al] + allocs) && AllocationOK(al) && AllocationOK(x) && x in allocs
    ensures x.header != al.header && forall w: nat :: !(x.Contains(w) && al.Contains(w))
  {
    var j :| 0 <= j < |allocs| && allocs[j] == x;
    assert ([al] + allocs)[j + 1] == x && ([al] + allocs)[0] == al;
  }

  lemma SafeAfterAllocate(s: State, s': State, al: Allocation, r: Ref)
    requires WellFormed(s) && AllocateStep(s, s', al) && Safe(s, r)
    ensures Safe(s', r)
  {
    if r.address != 0 {
      var x :| x in s.allocs && x.header in s.ids && s.ids[x.header] == r.id && r.id < |s.born| && s.born[r.id] == x && x.Contains(r.address);
      assert AllocationOK(x);
      NewIsApart(s.allocs, al, x);
      assert x in s'.allocs && s'.ids[x.header] == r.id && s'.born[r.id] == x;
    }
  }

  lemma SlotAfterAllocate(s: State, s': State, al: Allocation, slot: nat)
    requires WellFormed(s) && AllocateStep(s, s', al) && slot in s'.written
    ensures slot in s.written && s'.written[slot] == s.written[slot] && SlotOK(s', slot)
  {
    assert SlotOK(s, slot);
    var x :| x in s.allocs && IsSlotOf(x, slot);
    hide WellFormed, AllocationOK, AllocationsDisjoint;
    assert x in s'.allocs;
    assert Load(s'.words, slot) == Load(s.words, slot);
  }

  lemma BirthAfterAllocate(s: State, s': State, al: Allocation, x: Allocation)
    requires WellFormed(s) && AllocateStep(s, s', al) && x in s'.allocs
    ensures AllocationOK(x) && BornAs(s', x)
  {
    if x != al {
      assert x in s.allocs;
      NewIsApart(s.allocs, al, x);
    }
  }

  lemma AllocateKeeps(s: State, s': State, al: Allocation)
    requires WellFormed(s) && AllocateStep(s, s', al)
    ensures WellFormed(s')
  {
    assert AllocationsDisjoint(s'.allocs);
    forall x | x in s'.allocs
      ensures AllocationOK(x) && BornAs(s', x)
    {
      BirthAfterAllocate(s, s', al, x);
    }
    forall r | r in s'.roots
      ensures Safe(s', r)
    {
      if r in s.roots {
        SafeAfterAllocate(s, s', al, r);
      } else {
        NewRefIsSafe(s, s', al);
      }
    }
    forall slot | slot in s'.written
      ensures SlotOK(s', slot) && Safe(s', s'.written[slot])
    {
      SlotAfterAllocate(s, s', al, slot);
      SafeAfterAllocate(s, s', al, s.written[slot]);
    }
  }

  lemma NewRefIsSafe(s: State, s': State, al: Allocation)
    requires AllocateStep(s, s', al)
    ensures Safe(s', Ref(al.Payload(), |s.born|))
  {
    assert AllocationOK(al);
    assert al in s'.allocs && s'.ids[al.header] == |s.born| && s'.born[|s.born|] == al && al.Contains(al.Payload());
  }

  lemma DeriveKeeps(s: State, s': State, r: Ref, address: nat)
    requires WellFormed(s) && DeriveStep(s, s', r, address)
    ensures WellFormed(s')
  {
    var al :| al in s.allocs && al.header in s.ids && s.ids[al.header] == r.id && al.Contains(address);
    assert s.born[r.id] == al;
    RootsChanged(s, s');
    assert Safe(s', Ref(address, r.id));
    hide Safe;
  }

  lemma RootsChanged(s: State, s': State)
    requires s' == s.(roots := s'.roots)
    ensures forall r :: Safe(s, r) <==> Safe(s', r)
    ensures forall slot :: SlotOK(s, slot) <==> SlotOK(s', slot)
  {
  }

  lemma LoadKeeps(s: State, s': State, slot: nat)
    requires WellFormed(s) && LoadStep(s, s', slot)
    ensures WellFormed(s')
  {
    RootsChanged(s, s');
    hide Safe, SlotOK;
  }

  lemma DropKeeps(s: State, s': State, i: nat)
    requires WellFormed(s) && DropStep(s, s', i)
    ensures WellFormed(s')
  {
    RootsChanged(s, s');
    hide Safe, SlotOK;
  }

  lemma StoreKeeps(s: State, s': State, al: Allocation, slot: nat, r: Ref)
    requires WellFormed(s) && StoreStep(s, s', al, slot, r)
    ensures WellFormed(s')
  {
    forall q
      ensures Safe(s, q) <==> Safe(s', q)
    {
    }
    assert Safe(s, r);
    forall x | x in s'.written
      ensures SlotOK(s', x) && Safe(s', s'.written[x])
    {
      if x != slot {
        assert SlotOK(s, x) && Safe(s, s.written[x]);
      }
    }
    hide Safe, SlotOK;
  }

  lemma MemoryKeeps(s: State, s': State)
    requires WellFormed(s) && MemoryStep(s, s')
    ensures WellFormed(s')
  {
    forall r
      ensures Safe(s, r) <==> Safe(s', r)
    {
    }
    forall slot | slot in s'.written
      ensures SlotOK(s', slot) && Safe(s', s'.written[slot])
    {
      assert SlotOK(s, slot) && Safe(s, s.written[slot]);
    }
    hide Safe, SlotOK;
  }

  /** What a root or a written slot of a survivor refers to survives. */
  lemma TargetSurvives(s: State, s': State, roots: seq<nat>, r: Ref, al: Allocation)
    requires WellFormed(s) && CollectStep(s, s', roots)
    requires al in s.allocs && al.header in s.ids && s.ids[al.header] == r.id && r.id < |s.born| && s.born[r.id] == al && al.Contains(r.address)
    requires Reachable(s.allocs, s.words, roots, al.header)
    ensures Safe(s', r)
  {
    assert al.header in ReachableSet(s.allocs, s.words, roots);
    assert al in s'.allocs;
    assert al.header in s'.ids && s'.ids[al.header] == r.id;
  }

  lemma RootSurvives(s: State, s': State, roots: seq<nat>, r: Ref)
    requires WellFormed(s) && CollectStep(s, s', roots) && r in s.roots
    ensures Safe(s', r)
  {
    assert Safe(s, r);
    if r.address != 0 {
      var al :| al in s.allocs && al.header in s.ids && s.ids[al.header] == r.id && r.id < |s.born| && s.born[r.id] == al && al.Contains(r.address);
      OwnerOfContained(s.allocs, al, r.address);
      assert AllocationOK(al);
      assert r.address in roots && al.header in Owners(s.allocs, roots);
      assert ReachableIn(s.allocs, s.words, roots, 0, al.header);
      TargetSurvives(s, s', roots, r, al);
    }
  }

  lemma SlotSurvives(s: State, s': State, roots: seq<nat>, slot: nat)
    requires WellFormed(s) && CollectStep(s, s', roots) && slot in s'.written
    ensures SlotOK(s', slot) && Safe(s', s'.written[slot])
  {
    var holder :| holder in s'.allocs && IsSlotOf(holder, slot);
    assert SlotOK(s, slot) && Safe(s, s.written[slot]);
    var r := s.written[slot];
    if r.address != 0 {
      var al :| al in s.allocs && al.header in s.ids && s.ids[al.header] == r.id && r.id < |s.born| && s.born[r.id] == al && al.Contains(r.address);
      OwnerOfContained(s.allocs, al, r.address);
      assert AllocationOK(al);
      LoadedFrom(s.words, Reads(holder), slot);
      assert al.header in Owners(s.allocs, Loads(s.words, Reads(holder)));
      assert Edge(s.allocs, s.words, holder.header, al.header);
      var x :| x in s.allocs && Reachable(s.allocs, s.words, roots, x.header) && x.header == holder.header;
      ReachableStep(s.allocs, s.words, roots, holder.header, al.header);
      TargetSurvives(s, s', roots, r, al);
    }
  }

  lemma LoadedFrom(words: map<nat, Word>, addresses: seq<nat>, a: nat)
    requires a in addresses
    ensures Load(words, a) in Loads(words, addresses)
  {
    var i :| 0 <= i < |addresses| && addresses[i] == a;
    assert Loads(words, addresses)[i] == Load(words, a);
  }

  lemma {:induction false} KeepIsDisjoint(allocs: seq<Allocation>, kept: set<nat>)
    requires AllocationsDisjoint(allocs)
    ensures AllocationsDisjoint(Keep(allocs, kept))
  {
    if allocs != [] {
      var rest := allocs[1..];
      assert AllocationsDisjoint(rest) by { TailIsDisjoint(allocs); }
      KeepIsDisjoint(rest, kept);
      if allocs[0].header in kept {
        forall x | x in Keep(rest, kept)
          ensures Apart(allocs[0], x)
        {
          assert x in rest;
          var j :| 0 <= j < |rest| && rest[j] == x;
          assert allocs[j + 1] == x;
        }
        ConsIsDisjoint(allocs[0], Keep(rest, kept));
      } else {
        assert Keep(allocs, kept) == Keep(rest, kept);
      }
    }
  }

  lemma ConsIsDisjoint(x: Allocation, allocs: seq<Allocation>)
    requires AllocationsDisjoint(allocs) && forall y :: y in allocs ==> Apart(x, y)
    ensures AllocationsDisjoint([x] + allocs)
  {
    var t := [x] + allocs;
    forall i, j | 0 <= i < |t| && 0 <= j < |t| && i != j
      ensures Apart(t[i], t[j])
    {
      assert i > 0 ==> t[i] == allocs[i - 1] && t[i] in allocs;
      assert j > 0 ==> t[j] == allocs[j - 1] && t[j] in allocs;
    }
  }

  lemma CollectKeeps(s: State, s': State, roots: seq<nat>)
    requires WellFormed(s) && CollectStep(s, s', roots)
    ensures WellFormed(s')
  {
    KeepIsDisjoint(s.allocs, ReachableSet(s.allocs, s.words, roots));
    forall al | al in s'.allocs
      ensures AllocationOK(al) && BornAs(s', al)
    {
      assert al in s.allocs && BornAs(s, al);
    }
    forall r | r in s'.roots
      ensures Safe(s', r)
    {
      RootSurvives(s, s', roots, r);
    }
    forall slot | slot in s'.written
      ensures SlotOK(s', slot) && Safe(s', s'.written[slot])
    {
      SlotSurvives(s, s', roots, slot);
    }
  }

  lemma StepKeeps(s: State, s': State)
    requires WellFormed(s) && Step(s, s')
    ensures WellFormed(s')
  {
    hide WellFormed, AllocateStep, DeriveStep, StoreStep, LoadStep, DropStep, MemoryStep, CollectStep;
    if al :| AllocateStep(s, s', al) {
      AllocateKeeps(s, s', al);
    } else if r, address :| DeriveStep(s, s', r, address) {
      DeriveKeeps(s, s', r, address);
    } else if al, slot, r :| StoreStep(s, s', al, slot, r) {
      StoreKeeps(s, s', al, slot, r);
    } else if slot :| LoadStep(s, s', slot) {
      LoadKeeps(s, s', slot);
    } else if i :| DropStep(s, s', i) {
      DropKeeps(s, s', i);
    } else if MemoryStep(s, s') {
      MemoryKeeps(s, s');
    } else {
      var roots :| CollectStep(s, s', roots);
      CollectKeeps(s, s', roots);
    }
  }

  lemma {:induction false} RunIsWellFormed(states: seq<State>, i: nat)
    requires Run(states) && i < |states|
    ensures WellFormed(states[i])
  {
    if i != 0 {
      RunIsWellFormed(states, i - 1);
      hide WellFormed;
      StepKeeps(states[i - 1], states[i]);
    }
  }

  // ----- Whole-run safety -----

  /** A chain of references: a held one, then each next one read from a written slot of the
      allocation the previous one points into. */
  ghost predicate Chain(s: State, refs: seq<Ref>) {
    && |refs| > 0 && refs[0] in s.roots
    && forall i :: 0 <= i < |refs| - 1 ==> Follows(s, refs[i], refs[i + 1])
  }

  ghost predicate Follows(s: State, r: Ref, next: Ref) {
    exists al, slot :: al in s.allocs && al.Contains(r.address) && IsSlotOf(al, slot) && slot in s.written && s.written[slot] == next
  }

  /** In every state of every run, any chain of references from a root ends at null or inside a
      live allocation that has never moved or changed since it was made. */
  lemma RunSafety(states: seq<State>, n: nat, refs: seq<Ref>)
    requires Run(states) && n < |states| && Chain(states[n], refs)
    ensures var last := refs[|refs| - 1];
      last.address != 0 ==>
        last.id < |states[n].born|
        && states[n].born[last.id] in states[n].allocs
        && AllocationOK(states[n].born[last.id])
        && states[n].born[last.id].Contains(last.address)
        && OwnerIn(states[n].allocs, last.address) == states[n].born[last.id].header
  {
    RunIsWellFormed(states, n);
    var s, last := states[n], refs[|refs| - 1];
    if |refs| > 1 {
      assert Follows(s, refs[|refs| - 2], last);
    }
    assert Safe(s, last);
    if last.address != 0 {
      OwnerOfContained(s.allocs, s.born[last.id], last.address);
    }
  }

  /** The history never changes: what was made under a birth number stays recorded as made. */
  lemma {:induction false} BirthsAreForever(states: seq<State>, i: nat, j: nat)
    requires Run(states) && i <= j < |states|
    ensures states[i].born <= states[j].born
  {
    if i < j {
      BirthsAreForever(states, i, j - 1);
      assert Step(states[j - 1], states[j]);
    }
  }

  // ----- The registry performs these steps -----

  /** The registry between calls: consistent, unmarked, holding no idle page, and showing the
      state's allocations and memory. */
  ghost predicate Agrees(heap: ManagedHeap, s: State)
    reads heap
  {
    heap.Valid() && heap.Thrifty() && MarkedSet(heap.headers, heap.active) == {} && heap.Allocations() == s.allocs && heap.words == s.words
  }

  method Start() returns (heap: ManagedHeap, ghost s: State)
    ensures fresh(heap) && Agrees(heap, s) && WellFormed(s) && s.allocs == [] && s.roots == []
  {
    heap := new ManagedHeap();
    s := Initial;
  }

  /** The state after the registry put al in front of its list. */
  ghost function WithAllocation(s: State, al: Allocation, words: map<nat, Word>): State {
    s.(allocs := [al] + s.allocs, words := words, ids := s.ids[al.header := |s.born|], born := s.born + [al],
       roots := s.roots + [Ref(al.Payload(), |s.born|)], written := WithoutSlots(s.written, al))
  }

  lemma AllocatedIsStep(s: State, al: Allocation, words: map<nat, Word>)
    requires WellFormed(s) && KeepsPayloads(s.words, words, s.allocs)
    requires AllocationsDisjoint([al] + s.allocs) && forall x :: x in [al] + s.allocs ==> AllocationOK(x)
    ensures AllocateStep(s, WithAllocation(s, al, words), al) && WellFormed(WithAllocation(s, al, words))
  {
    assert al in [al] + s.allocs;
    AllocateKeeps(s, WithAllocation(s, al, words), al);
  }

  method AllocateObject(heap: ManagedHeap, descriptor: Descriptor, os: MallocOracle, ghost s: State) returns (payload: nat, ghost s': State)
    requires Agrees(heap, s) && WellFormed(s) && OracleSound(os, heap.blocks)
    requires descriptor.abiVersion == 1 && descriptor.instanceSize != 0
    modifies heap
    ensures Agrees(heap, s') && WellFormed(s')
    ensures payload == 0 ==> MemoryStep(s, s')
    ensures payload != 0 ==> payload > HEADER_BYTES
    ensures payload != 0 ==> AllocateStep(s, s', Allocation(payload - HEADER_BYTES, ObjectKind, 1, descriptor.instanceSize, Some(descriptor)))
  {
    hide MarkedSet, AllocationsDisjoint, AllocationOK, WellFormed, KeepsPayloads, AllocateStep, MemoryStep, OracleSound;
    hide heap.ValidExcept, heap.Thrifty;
    var r := heap.MallocTyped(Some(descriptor), os);
    payload := r.payload;
    heap.ViewOfValid();
    if payload == 0 {
      s' := s.(words := heap.words);
      PayloadSlotsKept(s, s');
      MemoryKeeps(s, s');
    } else {
      ghost var al := Allocation(payload - HEADER_BYTES, ObjectKind, 1, descriptor.instanceSize, Some(descriptor));
      s' := WithAllocation(s, al, heap.words);
      AllocatedIsStep(s, al, heap.words);
    }
  }

  method AllocateArray(heap: ManagedHeap, elementCount: Word, descriptor: Descriptor, os: MallocOracle, ghost s: State)
    returns (payload: nat, ghost s': State)
    requires Agrees(heap, s) && WellFormed(s) && OracleSound(os, heap.blocks)
    requires descriptor.abiVersion == 1 && descriptor.instanceSize != 0
    modifies heap
    ensures Agrees(heap, s') && WellFormed(s')
    ensures payload == 0 ==> MemoryStep(s, s')
    ensures payload != 0 ==> payload > HEADER_BYTES
    ensures payload != 0 ==> AllocateStep(s, s', Allocation(payload - HEADER_BYTES, ArrayKind, elementCount,
                                                            Max(elementCount * descriptor.instanceSize, 1), Some(descriptor)))
  {
    hide MarkedSet, AllocationsDisjoint, AllocationOK, WellFormed, KeepsPayloads, AllocateStep, MemoryStep, OracleSound;
    hide heap.ValidExcept, heap.Thrifty;
    var r := heap.ArrayMallocTyped(elementCount, Some(descriptor), os);
    payload := r.payload;
    heap.ViewOfValid();
    if payload == 0 {
      s' := s.(words := heap.words);
      PayloadSlotsKept(s, s');
      MemoryKeeps(s, s');
    } else {
      ghost var al := Allocation(payload - HEADER_BYTES, ArrayKind, elementCount, Max(elementCount * descriptor.instanceSize, 1), Some(descriptor));
      s' := WithAllocation(s, al, heap.words);
      AllocatedIsStep(s, al, heap.words);
    }
  }

  method StoreReference(heap: ManagedHeap, slot: nat, value: Word, ghost al: Allocation, ghost r: Ref, ghost s: State) returns (ghost s': State)
    requires Agrees(heap, s) && WellFormed(s)
    requires al in s.allocs && IsSlotOf(al, slot) && (r in s.roots || r.address == 0) && value == r.address
    modifies heap`words
    ensures Agrees(heap, s') && WellFormed(s') && StoreStep(s, s', al, slot, r)
  {
    hide MarkedSet, WellFormed, heap.ValidExcept, heap.Allocations, heap.Thrifty;
    heap.WriteWord(slot, value);
    s' := s.(words := s.words[slot := r.address], written := s.written[slot := r]);
    StoreKeeps(s, s', al, slot, r);
  }

  method CollectNow(heap: ManagedHeap, roots: seq<nat>, ghost s: State) returns (stats: GCCollectionStats, ghost s': State)
    requires Agrees(heap, s) && WellFormed(s)
    requires RootsGiven(s, roots)
    modifies heap
    ensures Agrees(heap, s') && WellFormed(s') && CollectStep(s, s', roots)
  {
    hide MarkedSet, WellFormed, heap.Thrifty;
    stats := heap.CollectManagedHeap(roots);
    s' := AfterCollection(s, roots);
    CollectKeeps(s, s', roots);
  }

  lemma PayloadSlotsKept(s: State, s': State)
    requires WellFormed(s) && KeepsPayloads(s.words, s'.words, s.allocs) && s' == s.(words := s'.words)
    ensures MemoryStep(s, s')
  {
    forall slot | slot in s.written
      ensures Load(s'.words, slot) == Load(s.words, slot)
    {
      assert SlotOK(s, slot);
    }
  }
}
