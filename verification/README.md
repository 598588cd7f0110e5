# Managed runtime: a verified model

A Dafny model of the managed part of a virtual machine for LLVM bitcode: the garbage-collected heap,
the protocol that stops mutators for a collection, the stack walk that supplies the roots, and the
compiler passes that tell managed pointers from raw ones, specialise functions by them, lower them to an
address space of their own, and place safepoint polls and bounds checks.

`dafny verify dfyconfig.toml` verifies the project.

## How it is organised

| part | files |
|---|---|
| 64-bit words, checked arithmetic, mask alignment; shared helpers | `MachineWords`, `Wrappers`, `Collections` |
| the heap's data and its representation invariant | `HeapModel`, `HeapInvariant`, `HeapLemmas`, `PageTables` |
| allocation and reclamation, one file of lemmas per kind of storage | `SystemAllocation`, `SlabAllocation`, `Reclamation`, `MemoryUse` |
| address lookup, reachability, mark and sweep | `OwnerLookup`, `HeapGraph`, `MarkSweep` |
| the registry itself: a class whose methods are the functions of the runtime | `ManagedHeap` |
| whole runs of a mutator over the registry | `MutatorRuns` |
| type names, layouts and descriptors | `TypeNames`, `HeapLayout` |
| the safepoint protocol as a step system | `Safepoints` |
| the stack walk | `StackWalk` |
| the class that performs the protocol's sections, from stack scan to release | `RuntimeThreads` |
| a small SSA language, the pointer-state analysis, its solutions and the reasons behind them | `ManagedIR`, `ManagedState`, `ManagedStateAnalysis`, `StateSolutions`, `StateReasons` |
| what programs of that language do, when the analysis is right about them, and where it is not | `IRMachine`, `StackSlots`, `ProvenanceSoundness`, `AnalysisLimits` |
| dispatch specialisation | `Renaming`, `DispatchCounting`, `ManagedDispatch`, `DispatchPass`, `DispatchRecursion` |
| managed-pointer lowering | `PointerLowering`, `LoweringTypes`, `PointerLowerer`, `CallTyping` |
| leaf inference and safepoint polls | `ControlFlow`, `GCPasses`, `GCRuns`, `RunBounds`, `PollRuns` |
| bounds checks | `BoundsChecks`, `ArrayBases`, `ArrayBaseSoundness` |

The main results, hardest first:

1. **Collection is exact** (`CollectManagedHeap`). The heap is a class over integer addresses: headers
   linked in place, slab pages with free lists threaded through headers, two page-indexed tables. The
   sweep reclaims from the list it is walking and may give back slab pages in mid-walk. What is left is the
   old list, in order, restricted to what the roots reach through interior pointers.
2. **Runs are safe** (`RunSafety`). Over every interleaving of allocations, reference stores and loads,
   dropped roots and collections, every chain of references from a root ends in a live, unmoved object,
   and never in another object that was given its address later.
3. **The protocol** (`Quiescence`, `NoLostWakeUp`, `RootsCompleteIff`). For any number of mutators a
   collection runs only when all are parked. Its roots are complete exactly when no released mutator is
   still leaving: true with the one mutator the runtime starts, false with two, by a concrete run. With one
   mutator, `ScanAndCollect` takes the roots from its stack and ends in a collection step of its run.
4. **When the analysis is sound** (`ValuesAllowedIff`): exactly when the start of a run is covered and every
   load finds a pointer its state covers, for which it suffices that loads follow stores (`StoresSuffice`).
   Where pointers are kept in tracked variables they do (`ProvenanceIsSound`, `SoundIffStartCovered`), and
   the result is the least solution (`LeastSolution`); in general exactly when `LeastSolutionIff` says so.
   In any module and any order of visits the tables hold what rules written out bit by bit give, and nothing
   else (`SettledIff`, `EveryBitIsExplained`), so every bit has an origin of its kind (`EveryBitHasOrigin`).
5. **Specialisation keeps meaning** (`MeaningIsKept`), **terminates without recursion among the functions it
   clones** (`SpecializeManagedDispatch`) but with such recursion may add clones for ever
   (`RecursionNeverSettles`); each round splits the calls of a function by the kinds they pass
   (`SpecializeManagedDispatchRound`). It leaves callers and callees agreeing on kinds, and arguments fitting the
   lowered parameters, exactly when stores of the parameter send back nothing that changes its kind
   (`CallersAndCalleesAgreeIff`, `ArgumentFitsIff`).
6. **Lowering changes only address spaces** (`RebuildFunction`), and gives every pointer the space of its
   kind exactly when the kinds are coherent.
7. **Descriptors meet the scan** (`ScanReadsThePointers`), **the stack walk is complete**
   (`ScanIsComplete`, `WholeStackIff`), **time between polls is bounded exactly when** no loop within a call and
   no chain of calls back to a function's entry is without a poll (`QuietRunsAreBoundedIff`); the passes see to
   the loops on reducible control flow, and to no recursion (`TreatedRunsAreBoundedIff`,
   `RecursionNeverPolls`). Calls of inferred leaves end exactly when these have no cycle
   (`LeafRunsAreBoundedIff`). **Bounds checks are exact and suffice** (`ChecksAreExact`, `ChecksSuffice`).
8. **The array-base search finds exactly the derivable bases** (`IsManagedArrayBase`) **and is right in runs of
   any program** while no forged pointer overwrites its variables (`SearchIsSound`, `SlotsHoldBasesIff`,
   `UnforgedIsHarmless`).

## Modelling choices

- Addresses are integers; a header, page or block is a map entry at its address and null is 0. A slab page is
  named by its first byte, a slab class by its index in class storage. `sizeof(AllocationHeader)` is 80, its
  alignment 8, pointers have 8 bytes, `max_align_t` is aligned to 16.
- `malloc` is a parameter of each allocation: a base address per request, or refusal, and whatever stale bytes
  the block holds. It is assumed to return blocks clear of all blocks it gave out before.
- Stale bytes in a new slab page are assumed not to read as a live header. The lookup does rely on this:
  `SlabLookupTrustsBytes` says exactly how.
- `__mvm_array_length` reads whatever bytes precede the pointer it is given, so bytes inside a payload that look
  like an array header pass its test. `ArrayLength` answers from the header table instead: it models calls with
  a pointer whose preceding bytes are a header exactly if the registry put one there.
- Payload memory is a map from address to word; words at overlapping, unaligned addresses are independent
  cells. Lengths, sizes and payload sums are proved to fit in 64 bits where the code relies on it.
- Each section under the runtime's lock is one step of the protocol; a wait is a guarded step, and who sleeps
  on the condition variable is part of the state, so that a lost wake-up would be visible.
- In the language of the passes a function is a list of instructions; in the lowering, blocks of instructions.
  Dominator trees, loop latches and reducibility come from LLVM and are parameters with stated properties.
- Programs of the small SSA language keep null at address 0, globals after it and stack variables after these;
  integers used as pointers have no address.
- Where the code falls short of what it is for, the code is modelled as it is, with a lemma that exhibits the
  input and one that says exactly when it is right: `LaggardLosesRoots` / `RootsCompleteIff`,
  `EntryArgumentIsNotSeeded` and `GlobalInitializerIsNotSeeded` / `SoundIffStartCovered`,
  `LongArrayEscapes` / `ZeroExtensionIsSafeIff`, `ArgumentsAreUnchecked` / `RebuildFunction`,
  `WrappedOffsetEscapes` / `ReadsStayInsideIff`, `TextBehindCountIsIgnored` / `BracketedIsArrayIff`,
  `DeepStackIsCut` / `WholeStackIff`, `NativeIsReported` and `ManagedIsMissed` / `ManagedAreReportedIff`,
  `ForgedStoreBreaksSearch` / `SlotsHoldBasesIff`, `AliasIsMissed` / `ValuesAllowedIff`,
  `OrderMatters` / `LeastSolutionIff`, `StoredParameterDisagrees` / `CallersAndCalleesAgreeIff`,
  `IrreducibleLeafNeverEnds` / `LeafRunsAreBoundedIff`,
  `RecursionNeverPolls` and `IrreducibleLoopNeverPolls` / `QuietRunsAreBoundedIff`.
- For termination of specialisation the input is exhibited and the condition is a sufficient one, which a
  caller can check: `RecursionNeverSettles` / `SpecializeManagedDispatch`.

## Model

| member | source | states |
|---|---|---|
| `ManagedHeapModule.ManagedHeap.CollectManagedHeap` | src/mvm/runtime_memory.cc:689-743 | A collection is exact: the active list becomes the old list, in order, cut down to the allocations the roots reach through interior pointers and descriptor slots. Survivors keep address, kind, size and descriptor; no payload word changes; every mark is clear again; the whole registry is consistent; every number in the statistics is the true one |
| `ManagedHeapModule.ManagedHeap.Mark` | src/mvm/runtime_memory.cc:700-719 | From an unmarked heap, marking ends (each round marks a header or shortens the worklist) with exactly the allocations reachable from the roots marked |
| `ManagedHeapModule.ManagedHeap.MarkRoots` | src/mvm/runtime_memory.cc:700-708 | Marks exactly the owners of the roots, interior pointers included, and counts the non-null roots |
| `ManagedHeapModule.ManagedHeap.MarkAddress` | src/mvm/runtime_memory.cc:630-638 | Marks the owner of an address, if it has one, and nothing else; puts it on the worklist only if it was unmarked |
| `ManagedHeapModule.ManagedHeap.MarkAllocation` | src/mvm/runtime_memory.cc:621-628 | Marks one header and queues it once; marking twice changes nothing |
| `ManagedHeapModule.ManagedHeap.ScanAllocationPayload` | src/mvm/runtime_memory.cc:640-683 | Marks exactly the owners of the words in the reference slots of every element of the payload |
| `ManagedHeapModule.ManagedHeap.ScanElement` | src/mvm/runtime_memory.cc:651-669 | The same for the slots of one element, skipping slots that leave the element |
| `ManagedHeapModule.ManagedHeap.ScanWords` | src/mvm/runtime_memory.cc:675-682 | The conservative scan: the owners of every aligned word of the payload |
| `ManagedHeapModule.ManagedHeap.MeasureHeap` | src/mvm/runtime_memory.cc:694-698 | Walking the active list counts every allocation and sums every payload |
| `ManagedHeapModule.ManagedHeap.Sweep` | src/mvm/runtime_memory.cc:721-733 | Reclaims while it walks: the list is cut down to the marked allocations, in order, although slab pages may be given back in mid-walk; counts and bytes of both parts add up to the old heap; no page without a live slot is left |
| `ManagedHeapModule.ManagedHeap.FindOwningAllocation` | src/mvm/runtime_memory.cc:554-585 | The index answers what a linear search of the active list answers: the one active allocation whose payload, behind its 80 bytes of header, contains the address, or null when none does |
| `ManagedHeapModule.ManagedHeap.FindInSystemBucket` | src/mvm/runtime_memory.cc:568-584 | The bucket search misses no system allocation whose payload contains the address |
| `OwnerLookup.SlabLookupIsExact` | src/mvm/runtime_memory.cc:531-552 | Inside a slab page, the slot arithmetic finds the live slot that contains the address, or none exists |
| `OwnerLookup.SlabLookupTrustsBytes` | src/mvm/runtime_memory.cc:540-551 | The slab lookup never compares with nextUnusedSlot: it answers a slot exactly when the bytes there read as a live slab header containing the address |
| `OwnerLookup.AllocationsApart` | src/mvm/runtime_memory.cc:531-585 | Two active allocations, headers included, never overlap |
| `OwnerLookup.LastAddressIsExact` | src/mvm/runtime_memory.cc:132-140 | For an active allocation the saturating last-address computation never saturates |
| `MarkSweep.OwnerIsUnique` | src/mvm/runtime_memory.cc:554-585 | An address lies in the payload of one active allocation at most, which the linear search finds |
| `MarkSweep.MarkingIsExact` | src/mvm/runtime_memory.cc:700-719 | When every marked allocation is scanned and every mark is justified, the marked set is the least set closed under following references |
| `HeapGraph.ClosedAndSoundIsReachableSet` | src/mvm/runtime_memory.cc:621-703 | Closed under edges, containing the roots and justified by paths together characterise the reachable set |
| `HeapGraph.ReadsIff` | src/mvm/runtime_memory.cc:640-683 | The words taken for references are exactly these: in a typed allocation those that a listed offset of one of its elements gives when offset plus eight, modulo 2^64, stays within the element; else every whole word of the payload, eight bytes apart |
| `HeapGraph.ReadsStayInsideIff` | src/mvm/runtime_memory.cc:640-673 | When the elements fit the payload, all words the collector reads lie wholly inside it if and only if the scan is conservative, reads no slot, or no scanned descriptor offset o has o + 8 wrapping around 2^64 to at most the instance size |
| `HeapGraph.WrappedOffsetEscapes` | src/mvm/runtime_memory.cc:658-668 | The failing input: an allocation whose one offset is close to 2^64, so that the bounds test passes and the only word read lies below the payload |
| `ManagedHeapModule.ManagedHeap.AllocateTrackedLocked` | src/mvm/runtime_memory.cc:503-529 | A non-null payload is a multiple of eight, of sixteen when no alignment is asked for and else of the alignment asked for, and heads a list that is otherwise unchanged. Null comes only from an alignment that is no power of two, or from malloc refusing 80 header bytes, the payload and the room to align it, or from that sum passing 2^64, and leaves all allocations as they were. Objects of up to 512 bytes and alignment up to 64 get a slot without asking malloc when a page of their class has one free, and go to malloc themselves only when no page can be had; all others always do |
| `ManagedHeapModule.ManagedHeap.AllocateSlabTrackedLocked` | src/mvm/runtime_memory.cc:469-501 | The slab path: a page of the class with room is used and malloc left alone; a new page is made only when there is none; failure leaves blocks, headers and the active list as they were |
| `ManagedHeapModule.ManagedHeap.PageWithRoom` | src/mvm/runtime_memory.cc:471-482 | Picks the first listed page of the class, or makes one exactly when no page of the class has a free slot |
| `ManagedHeapModule.ManagedHeap.TakeSlot` | src/mvm/runtime_memory.cc:484-500 | Hands out the slot given back last, else the next unused one, aligned, and counts it live |
| `ManagedHeapModule.ManagedHeap.FillSlot` | src/mvm/runtime_memory.cc:493-498 | A page leaves its class list exactly when this was its last free slot; no other page changes but for list links |
| `ManagedHeapModule.ManagedHeap.PublishSlot` | src/mvm/runtime_memory.cc:493-500 | The new allocation heads the active list; every older header keeps its contents |
| `ManagedHeapModule.ManagedHeap.GetOrCreateSlabClass` | src/mvm/runtime_memory.cc:343-375 | At most one class per size and alignment: an existing one is found, a missing one appended |
| `HeapLemmas.ClassKeyIsInjective` | src/mvm/runtime_memory.cc:270-273 | The packed key separates any two size and alignment pairs the slab path accepts |
| `HeapLemmas.NewSlabClassGeometry` | src/mvm/runtime_memory.cc:351-370 | For every size and alignment the slab path accepts, a class is created, its slots hold header and payload aligned without overlap, and slotsPerPage is the largest number that fits |
| `ManagedHeapModule.ManagedHeap.CreateSlabPage` | src/mvm/runtime_memory.cc:377-396 | A new page is wholly inside its over-allocated raw block, page-aligned, mapped at each of its sixteen address pages, listed, and empty |
| `ManagedHeapModule.ManagedHeap.PlaceSlabPage` | src/mvm/runtime_memory.cc:384-395 | Carves the page out of the block without disturbing any other page, header or map entry |
| `ManagedHeapModule.ManagedHeap.AllocateSystemTrackedLocked` | src/mvm/runtime_memory.cc:438-467 | Null exactly when the size computation overflows or malloc refuses; otherwise header and aligned payload lie inside the raw block |
| `ManagedHeapModule.ManagedHeap.PlaceSystemAllocation` | src/mvm/runtime_memory.cc:458-466 | Places header and payload in a given block and registers every address page of the payload |
| `SystemAllocation.SystemLayout` | src/mvm/runtime_memory.cc:442-461 | After alignment, payload and header still fit in the overflow-checked request, whatever base malloc returns |
| `ManagedHeapModule.ManagedHeap.RegisterSystemAllocationPages` | src/mvm/runtime_memory.cc:282-294 | The header enters the bucket of every address page its payload touches, and no other bucket |
| `ManagedHeapModule.ManagedHeap.UnregisterSystemAllocationPages` | src/mvm/runtime_memory.cc:296-316 | It leaves exactly those buckets; swap-with-last loses no neighbour and empty buckets disappear |
| `PageTables.RegisterKeepsMap` | src/mvm/runtime_memory.cc:282-294 | The page table stays exact: a header is in a bucket if and only if its payload touches that page |
| `PageTables.UnregisterKeepsMap` | src/mvm/runtime_memory.cc:296-316 | It stays exact under removal |
| `PageTables.SwapWithLastRemoves` | src/mvm/runtime_memory.cc:303-312 | Overwriting with the last element and popping removes that one header |
| `PageTables.AddressPageIsNeverReserved` | src/mvm/runtime_memory.cc:126-130 | No address page number is a reserved key of the hash table, so the reserved-key test never rejects a real page |
| `ManagedHeapModule.ManagedHeap.RegisterSlabPageMappings` | src/mvm/runtime_memory.cc:318-329 | All and only the address pages of a slab page are mapped to it |
| `ManagedHeapModule.ManagedHeap.UnregisterSlabPageMappings` | src/mvm/runtime_memory.cc:331-341 | All and only those are unmapped |
| `PageTables.OnSlabPageIffInside` | src/mvm/runtime_memory.cc:318-329 | An address is on one of those pages if and only if it lies inside the slab page |
| `ManagedHeapModule.ManagedHeap.LinkActiveAllocation` | src/mvm/runtime_memory.cc:199-207 | Prepends to the doubly linked list, which stays acyclic with matching links |
| `ManagedHeapModule.ManagedHeap.UnlinkActiveAllocation` | src/mvm/runtime_memory.cc:209-221 | Removes one element wherever it stands; order and links of the rest are kept |
| `ManagedHeapModule.ManagedHeap.LinkNonFullSlabPage` | src/mvm/runtime_memory.cc:236-250 | A page is afterwards on its class list exactly when it has a free slot; linking twice does nothing |
| `ManagedHeapModule.ManagedHeap.UnlinkNonFullSlabPage` | src/mvm/runtime_memory.cc:252-268 | The page leaves its list, every other page keeps its place |
| `ManagedHeapModule.ManagedHeap.ReclaimAllocation` | src/mvm/runtime_memory.cc:587-619 | Reclaiming removes exactly that allocation and keeps the whole representation invariant: free list plus live slots are the slots below nextUnusedSlot, both page tables exact, both kinds of list intact, every raw block owned |
| `ManagedHeapModule.ManagedHeap.ReclaimSlot` | src/mvm/runtime_memory.cc:601-618 | A slot goes back on its page's free list; the page is relisted if it was full, and given back to malloc as soon as its last slot is free |
| `ManagedHeapModule.ManagedHeap.ReclaimSystem` | src/mvm/runtime_memory.cc:595-599 | A system block leaves both the page table and malloc |
| `ManagedHeapModule.ManagedHeap.ReleaseSlabPage` | src/mvm/runtime_memory.cc:398-411 | The page disappears from class list, page map and malloc; no live header lay in it, so the next pointer saved by the sweep does not dangle |
| `Reclamation.LiveCountIsExact` | src/mvm/runtime_memory.cc:612-616 | liveCount is the number of live slots of the page |
| `ManagedHeapModule.ManagedHeap.EveryBlockIsNeeded` | src/mvm/runtime_memory.cc:587-619 | Nothing leaks: each raw block still held from malloc contains an active allocation |
| `MemoryUse.BlockServesAllocation` | src/mvm/runtime_memory.cc:377-411 | A slab page without a live slot does not exist between operations, hence every block serves one |
| `ManagedHeapModule.ManagedHeap.ViewOfValid` | src/mvm/runtime_memory.cc:438-529 | All active allocations are well formed and pairwise disjoint |
| `ManagedHeapModule.ManagedHeap.MallocTyped` | src/mvm/runtime_memory.cc:762-795 | Aborts exactly on a missing, incompatible or empty descriptor; otherwise allocates one object of the size and alignment the descriptor asks for, accounts for its bytes modulo 2^64 and raises the collection request at the limit; null only when the alignment is no power of two or malloc refuses the sum of header, payload and alignment |
| `ManagedHeapModule.ManagedHeap.ArrayMallocTyped` | src/mvm/runtime_memory.cc:803-847 | The same for arrays; a total size of 2^64 or more yields null and allocates nothing |
| `ManagedHeapModule.ManagedHeap.ArrayLength` | src/mvm/runtime_memory.cc:849-853 | Answers exactly for payloads of active arrays, with the element count they were made with; anything else aborts |
| `ManagedHeapModule.ManagedHeap.RecordManagedAllocation` | src/mvm/gc.cc:1569-1579 | The byte counter and the request flag |
| `ManagedHeapModule.ManagedHeap.RaiseGCRequest` | src/mvm/gc.cc:1593-1599 | Reports whether the flag was raised before |
| `ManagedHeapModule.ManagedHeap.ClearGCRequest` | src/mvm/gc.cc:1601-1603 | Clears the flag and touches nothing else |
| `MachineWords.PowerOfTwoTest` | src/mvm/runtime_memory.cc:90-92 | The bit trick accepts exactly the powers of two |
| `MachineWords.AlignUpIsLeastMultiple` | src/mvm/runtime_memory.cc:118-120 | Without wrap-around, the mask computes the least multiple of a power of two that is not below the value |
| `MachineWords.CheckedMulGuard` | src/mvm/runtime_memory.cc:110-116 | The division guard fires exactly when the product leaves 64 bits |
| `MutatorRuns.RunSafety` | src/mvm/runtime_memory.cc:689-853 | Safety over whole runs: after any sequence of allocations, derived pointers, stores, loads, dropped roots, other writes and collections, every chain of written reference slots from a held root ends in a live allocation that is still the very one the reference was made for, with its element count and descriptor |
| `MutatorRuns.StepKeeps` | src/mvm/runtime_memory.cc:689-853 | Every single step keeps that invariant |
| `MutatorRuns.CollectKeeps` | src/mvm/runtime_memory.cc:689-743 | A collection given at least the held roots frees nothing a chain of references can still reach |
| `MutatorRuns.BirthsAreForever` | src/mvm/runtime_memory.cc:762-847 | A recycled address never passes for the object it used to hold: birth numbers are never reused |
| `MutatorRuns.AllocateObject` | src/mvm/runtime_memory.cc:762-795 | The typed allocation entry performs an allocation step of the run, or leaves every reference as it was |
| `MutatorRuns.AllocateArray` | src/mvm/runtime_memory.cc:803-847 | The array entry performs one too |
| `MutatorRuns.StoreReference` | src/mvm/runtime_memory.cc:640-673 | A reference store is a store step of the run |
| `MutatorRuns.CollectNow` | src/mvm/runtime_memory.cc:689-743 | A collection is a collection step of the run |
| `HeapLayout.HeapLayoutRewriter.CollectPointerOffsets` | src/mvm/heap_layout.cc:209-241 | Appends the pointer offsets of a type, nested arrays and structs included, in layout order |
| `HeapLayout.HeapLayoutRewriter.GetOrCreateDescriptor` | src/mvm/heap_layout.cc:243-316 | One descriptor per type, cached; sorting and removing duplicates leaves the collected offsets as they were |
| `HeapLayout.OffsetsAreThePointers` | src/mvm/heap_layout.cc:209-241 | An offset is collected exactly when a pointer starts at that byte of the flattened layout |
| `HeapLayout.OffsetsAreSpaced` | src/mvm/heap_layout.cc:209-241 | Offsets are strictly increasing, at least a word apart and leave a whole word inside the type |
| `HeapLayout.ScanReadsThePointers` | src/mvm/runtime_memory.cc:640-673 | Descriptor meets scan: the collector reads every pointer of every element exactly once, in order, and no other word; its skip never fires |
| `HeapLayout.StructHoldsFields` | src/mvm/heap_layout.cc:209-241 | A field lies at the least multiple of its alignment not before the end of the one before it, or right there in a packed struct; the struct is as aligned as its most aligned field and ends at the least multiple of that |
| `HeapLayout.ArrayHoldsElements` | src/mvm/heap_layout.cc:209-241 | Element i of an array lies i element sizes behind its start |
| `TypeNames.PrimitiveIff` | src/mvm/heap_layout.cc:142-172 | A scalar name is a letter and a number of bits, and stands for as many bytes as that makes, aligned to its size; besides there are bool, of one byte, and usize, of eight |
| `TypeNames.ResolvesToMeaning` | src/mvm/heap_layout.cc:142-207 | Round trip: every name built from scalars, named structs, pointers, slices and sized arrays resolves to the type it spells, unknown and opaque structs to their errors |
| `TypeNames.BracketedIsArrayIff` | src/mvm/heap_layout.cc:178-194 | A bracketed name is read as an array, of the number its count text starts with, if and only if the element name is not empty, the text starts with a digit and that number is below 2^64 |
| `TypeNames.ArraysAreBracketed` | src/mvm/heap_layout.cc:178-194 | Every name that is read as an array has that form, cut at its last opening bracket |
| `TypeNames.TextBehindCountIsIgnored` | src/mvm/heap_layout.cc:178-194 | For every element name that has a meaning, every count below 2^64 and every text that holds no opening bracket and starts with no digit, the name with that text behind the count resolves to the same array as without it |
| `Safepoints.Quiescence` | src/mvm/runtime_threads.cc:41-116 | Any number of mutators: each collection ran with every active mutator parked and at least one active, and was given exactly the roots those of its epoch scanned; cycles completed equal the epoch; parked counts exactly the threads inside the section; what is pending, and what a collection records, are the sums of the pairs, locations and non-null roots the arrivals counted, with the first safepoint among them |
| `Safepoints.SummariesGather` | src/mvm/runtime_threads.cc:13-25 | Merging summaries adds up each counter, joins the roots in order and keeps the first safepoint address |
| `Safepoints.NeverSpins` | src/mvm/runtime_threads.cc:83-114 | A pending request implies an active mutator, so the collector thread never loops without doing anything |
| `Safepoints.SpinsIff` | src/mvm/runtime_threads.cc:83-104 | From which shared states it would spin |
| `Safepoints.NoLostWakeUp` | src/mvm/runtime_threads.cc:59-75 | A mutator whose epoch has passed can leave, and the collector is never asleep while it has work |
| `Safepoints.AllParkedMeansCollection` | src/mvm/runtime_threads.cc:65-104 | Once every mutator is parked and one waits for the current epoch, the next collector steps collect |
| `Safepoints.RootsCompleteIff` | src/mvm/runtime_threads.cc:65-114 | The roots of a collection are complete exactly when no released mutator is still on its way out |
| `Safepoints.LaggardLosesRoots` | src/mvm/runtime_threads.cc:65-114 | With two mutators that happens: a reachable state collects without the roots of a mutator that was released but has not decremented |
| `Safepoints.SingleMutatorRoots` | src/mvm/runtime.cc:99-119 | With the single mutator the runtime starts, every collection gets exactly the roots that mutator scanned |
| `Safepoints.SingleMutatorRequests` | src/mvm/gc.cc:1593-1650 | A request seen at a poll implies a pending collection and one active mutator |
| `Safepoints.ParkedIsReleased` | src/mvm/runtime_threads.cc:65-114 | A parked single mutator always has a step of its own or the collector's enabled, and every step brings its release nearer, at most five away |
| `RuntimeThreadsModule.RuntimeThreads.constructor` | src/mvm/runtime_threads.cc:33-34 | All counters start at zero |
| `RuntimeThreadsModule.RuntimeThreads.MarkMutatorStarted` | src/mvm/runtime_threads.cc:41-45 | One more active mutator |
| `RuntimeThreadsModule.RuntimeThreads.MarkMutatorStopped` | src/mvm/runtime_threads.cc:47-57 | One fewer, never below zero; the last one takes pending request and summary with it |
| `RuntimeThreadsModule.RuntimeThreads.NotifyGCRequested` | src/mvm/runtime_threads.cc:128-132 | A collection is pending |
| `RuntimeThreadsModule.RuntimeThreads.RequestGC` | src/mvm/gc.cc:1593-1599 | Only the caller that raises the flag notifies the threads |
| `RuntimeThreadsModule.RuntimeThreads.EnterPark` | src/mvm/runtime_threads.cc:65-71 | One more parked; the caller's roots follow the pending ones and its counters are added to theirs; remembers the epoch |
| `RuntimeThreadsModule.RuntimeThreads.LeavePark` | src/mvm/runtime_threads.cc:72-75 | Only after the epoch moved |
| `RuntimeThreadsModule.RuntimeThreads.RunCollector` | src/mvm/runtime_threads.cc:77-116 | One section of the collector thread: when a collection is due the heap keeps exactly what the pending roots reach, and epoch, counters and flags advance together; otherwise the heap is left alone |
| `RuntimeThreadsModule.RequestAndPark` | src/mvm/gc.cc:1609-1639 | The only mutator asks and parks: a collection is due at once with exactly its roots |
| `RuntimeThreadsModule.RequestAndCollect` | src/mvm/runtime_threads.cc:65-116 | From a request of the only mutator to its release, given roots that name every non-null reference it holds, the heap performs one collection step of the mutator's run and protocol state returns to rest |
| `RuntimeThreadsModule.ScanCurrentRuntimeSafepoint` | src/mvm/gc.cc:547-578 | The scan starts by statepoint id when the poll gives one and by return address otherwise |
| `RuntimeThreadsModule.ScanAndCollect` | src/mvm/gc.cc:547-595 | End to end, with the roots from the stack: when the stack is a chain of at most 256 callers whose records name every non-null reference the mutator holds, scanning and parking make a collection step of its run; an unreadable root or an unknown start frame is an error before anything changes |
| `StackWalk.GCStackMapRegistry.ScanCurrentSafepointByID` | src/mvm/gc.cc:1175-1306 | Fails exactly when some root on the way is unreadable; otherwise reports the whole summary of the start frame and its managed callers |
| `StackWalk.GCStackMapRegistry.ScanCurrentSafepoint` | src/mvm/gc.cc:1308-1532 | The same when the start frame is probed from a return address |
| `StackWalk.GCStackMapRegistry.WalkCallers` | src/mvm/gc.cc:1269-1303 | Visits the managed callers, oldest last, up to the depth limit |
| `StackWalk.GCStackMapRegistry.ScanSingleManagedFrame` | src/mvm/gc.cc:1217-1248 | Adds the non-null base and derived values of one frame, in order |
| `StackWalk.GCStackMapRegistry.ReadRoots` | src/mvm/gc.cc:700-753 | Succeeds exactly when every location of the frame is a constant or eight bytes found by way of DWARF register 7 or 6, and then gives the words those locations hold, base before derived, without the null ones |
| `StackWalk.ResolvesToWhatItHolds` | src/mvm/gc.cc:700-753 | Case by case: a constant stands for itself, register 7 for the stack and 6 for the frame pointer, a direct location for register plus offset modulo 2^64, an indirect one for the word in memory there; any other register or size is an error |
| `StackWalk.GCStackMapRegistry.FindSafepointRecord` | src/mvm/gc.cc:1180-1190 | The first record at an address, if there is one |
| `StackWalk.GCStackMapRegistry.FindSafepointRecordForReturnAddress` | src/mvm/gc.cc:1192-1215 | The closest record below an address within the allowed distance, the first of several equally close |
| `StackWalk.GCStackMapRegistry.FindSafepointRecordByID` | src/mvm/gc.cc:1250-1261 | The record with an id, if there is one |
| `StackWalk.NearbyRecordIff` | src/mvm/gc.cc:1192-1215 | No record is found exactly when none lies within 4096 bytes below the address |
| `StackWalk.ClosestBelowIsClosest` | src/mvm/gc.cc:1192-1215 | No other record at or below the address is closer, and none before it in the table is as close |
| `StackWalk.ExactRecordIff` | src/mvm/gc.cc:1180-1190 | The first record at the address is found, and none exactly when no record is there |
| `StackWalk.RecordByIdIff` | src/mvm/gc.cc:1250-1261 | The first record with the id is found, and none exactly when no record has it |
| `StackWalk.WholeStackIff` | src/mvm/gc.cc:1269-1303 | A chain of managed frames is walked completely exactly when it is at most 256 frames long |
| `StackWalk.DeepStackIsCut` | src/mvm/gc.cc:1269-1303 | Deeper chains exist, of every depth that fits in memory, and only their first 256 callers are visited |
| `StackWalk.WalkReports` | src/mvm/gc.cc:1269-1303 | On any stack, managed and native activations in any order, exactly the activations before the first whose return address lies near no record are reported, up to 256, each as a frame of that record |
| `StackWalk.ManagedAreReportedIff` | src/mvm/gc.cc:1269-1303 | These are exactly the managed activations if and only if all managed ones come before the native ones and the first native one returns to no address near a record |
| `StackWalk.NativeIsReported` | src/mvm/gc.cc:1192-1215 | A native caller that returns eight bytes behind a safepoint is taken for a managed frame |
| `StackWalk.ManagedIsMissed` | src/mvm/gc.cc:1286-1292 | A managed caller below a native one is not reported |
| `StackWalk.ScanIsComplete` | src/mvm/gc.cc:1175-1306 | On such a stack the roots are the concatenation of all frames' non-null base and derived values, with two locations per pair, as many non-null roots as values and the address of the start frame's safepoint |
| `StackWalk.InnermostFirst` | src/mvm/gc.cc:1217-1303 | Roots come innermost frame first, pairs add up, and the address is that of the first frame that has one |
| `StackWalk.EveryRootIsReported` | src/mvm/gc.cc:714-753 | No non-null word that a base or derived location of any frame holds is missing |
| `StackWalk.ProbeFinds` | src/mvm/gc.cc:1416-1467 | On any stack a scan by return address starts at the first of eight activations that returns to a safepoint, the first of them by exact address only, the others also within 4096 bytes behind one; and at none when they all pass by |
| `StackWalk.LookupsAgree` | src/mvm/gc.cc:1308-1467 | Starting by id and by exact return address is the same when both name the same record |
| `ManagedStateAnalysisModule.ManagedStateAnalysis.Run` | src/mvm/managed_state.cc:84-94 | Terminates (unset state bits shrink) in a state that every instruction's transfer leaves as it is |
| `ManagedStateAnalysisModule.ManagedStateAnalysis.VisitFunction` | src/mvm/managed_state.cc:159-176 | Only adds state bits, and reports no change exactly when every instruction of the function is settled |
| `ManagedStateAnalysisModule.ManagedStateAnalysis.VisitInstruction` | src/mvm/managed_state.cc:178-268 | Reports a change exactly when there is one |
| `ManagedStateAnalysisModule.ManagedStateAnalysis.VisitCall` | src/mvm/managed_state.cc:270-334 | The result entry gains exactly the object bit from an object allocator, the array bit from an array allocator, the raw bit from any other declaration and the return state of a function with a body; arguments flow to parameters; the change flag is exact |
| `ManagedStateAnalysisModule.ManagedStateAnalysis.VisitStore` | src/mvm/managed_state.cc:236-253 | Value, slot and location flow both ways as in the source, and the change flag is exact |
| `ManagedStateAnalysisModule.ManagedStateAnalysis.UpdatePointerSourceState` | src/mvm/managed_state.cc:336-347 | Back-propagation to where a pointer came from; the change flag is exact |
| `StateReasons.SettledIff` | src/mvm/managed_state.cc:159-298 | Rules that put one bit into one entry, written out instruction by instruction, say what visits do: a visit has nothing to add if and only if every bit it has a reason for is there |
| `StateReasons.EveryBitIsExplained` | src/mvm/managed_state.cc:84-298 | And nothing else gets in: after any visits in any order each bit was added by one of them, for a reason the bits added before it gave |
| `StateReasons.EveryBitHasOrigin` | src/mvm/managed_state.cc:84-334 | So every bit in any entry has an origin of its kind in the module: raw a variable, a global, a function reference, a parameter outside callers reach, an indirect call or a call of an ordinary declaration; object and array a call of such an allocator; null a literal null |
| `StateReasons.AllocatorResult` | src/mvm/managed_state.cc:300-318 | In any order of visits the result of an allocator to which no store has sent anything back has, once its call has been visited, exactly the bit of the allocator, and so its kind |
| `StateReasons.TrackedSlotIff` | src/mvm/managed_state.cc:379-398 | An operand names a variable exactly when a chain of casts leads from it to a local or global variable of pointer type |
| `StateReasons.DispatchKindIff` | src/mvm/managed_state.cc:64-76 | A state has a kind exactly when it holds that one bit of raw, object and array, null aside |
| `StateSolutions.VisitIsIdentityIff` | src/mvm/managed_state.cc:178-298 | Visiting an instruction changes nothing exactly when its constraint holds |
| `StateSolutions.ClosedIsSolution` | src/mvm/managed_state.cc:84-94 | Closed under all visits means solving all constraints, and conversely |
| `StateSolutions.LeastSolutionIff` | src/mvm/managed_state.cc:84-94 | In any program the result of an analysis is below every solution if and only if no visit of a load or a store has read a location state that some solution does not allow where the visit puts it |
| `StateSolutions.BelowSolutionIff` | src/mvm/managed_state.cc:178-298 | The same for one solution |
| `StateSolutions.LeastSolution` | src/mvm/managed_state.cc:84-94 | When loads and stores of pointers go straight to tracked variables that is always so: the result is below every solution and the same for every visiting order |
| `AnalysisLimits.OrderMatters` | src/mvm/managed_state.cc:178-268 | Otherwise it need not be: a program that reads a field of a new object before storing null there has two closed results, and program order, which reads a location state the smaller one does not allow, gives the larger one |
| `StateSolutions.ParamIsUnion` | src/mvm/managed_state.cc:236-298 | A parameter has exactly the states that the direct calls pass and those that visits of its stores have sent back, which they do only when they find a managed location state |
| `StateSolutions.TrackedParamIsUnion` | src/mvm/managed_state.cc:236-298 | Where pointers are kept in tracked variables, what is sent back can be read from the final tables: the managed states of the variables the parameter is stored in |
| `StateSolutions.UnionKeepsKind` | src/mvm/managed_state.cc:58-76 | Merging states of one dispatch kind keeps the kind |
| `ProvenanceSoundness.ValuesAllowedIff` | src/mvm/managed_state.cc:84-298 | For any program, any start, any run and any closed tables: every SSA value of every frame has, at every moment, a provenance its state allows if and only if the entry arguments do and, step by step, so do the pointer each load finds in memory and what passes through indirect calls |
| `ProvenanceSoundness.StoresSuffice` | src/mvm/managed_state.cc:125-144 | The condition on loads reduced to stores: it is enough that each pointer a load finds was put there by a store, or an initialiser, whose state lies in the location state of the load; then memory, too, holds what the tables say |
| `ProvenanceSoundness.ProvenanceIsSound` | src/mvm/managed_state.cc:84-298 | With direct calls and pointers kept in tracked variables every load does follow the stores: in every run started from arguments and globals the tables cover, the provenance of every value and of the contents of every variable is among the states the analysis reports |
| `AnalysisLimits.AliasIsMissed` | src/mvm/managed_state.cc:125-144 | A load that is not covered: an object stored in a field of raw memory and read back through a second computation of the same address has no state at all, in a run whose start is covered |
| `ProvenanceSoundness.SoundIffStartCovered` | src/mvm/managed_state.cc:159-176 | For such a program and any start, that holds in all runs exactly when the reported states cover the entry arguments and the initial contents of the pointer globals |
| `ProvenanceSoundness.EntryArgumentIsNotSeeded` | src/mvm/managed_state.cc:159-176 | They need not: the analysis seeds no state for parameters of the entry function, whatever pointer it is given |
| `ProvenanceSoundness.GlobalInitializerIsNotSeeded` | src/mvm/managed_state.cc:178-268 | Nor for what global variables hold at the start: a load of an initialised global gives a raw or managed pointer to a value whose reported state is empty |
| `DispatchPass.SpecializeManagedDispatch` | src/mvm/managed_dispatch.cc:229-240 | Terminates with a bounded number of functions when the functions that may be cloned call each other in no cycle, whatever recursion goes through others; afterwards all direct calls of every function that has a body, whose address is not taken and that is not vararg pass pointers of the same kinds, parameter by parameter, and the module renames back to the original |
| `DispatchPass.SpecializeManagedDispatchRound` | src/mvm/managed_dispatch.cc:142-225 | What one round does to every call: afterwards two calls of a function with a body, whose address is not taken and that is not vararg, name the same function exactly when they pass pointers of the same kinds; a call that passes none of a known kind, a call of a function whose calls agree and a call of any other function stay. Clones are made for exactly the signatures needed, once each, and call what their function called at its turn; the rest of the module is kept. A round changes something exactly when the calls of such a function disagree |
| `DispatchPass.RecordedMove` | src/mvm/managed_dispatch.cc:215-219 | A recorded call of a function whose calls disagree ends at the clone for its signature, or stays when its signature is general |
| `DispatchPass.NewClonesAreNeeded` | src/mvm/managed_dispatch.cc:186-213 | Clones are made only of functions whose calls disagree, for signatures some call has |
| `DispatchRecursion.RecursionNeverSettles` | src/mvm/managed_dispatch.cc:229-240 | Termination fails with recursion: a function that passes its argument on to itself and is called once with a raw pointer and once with an object gains clones in every round, however many rounds there have been |
| `ManagedDispatch.BuildCallMap` | src/mvm/managed_dispatch.cc:155-173 | Recorded are all direct calls of functions that have a body, whose address is not taken and that are not vararg, and no others, each with the signature at the call |
| `ManagedDispatch.CollectSignatures` | src/mvm/managed_dispatch.cc:186-197 | Each specialising signature of a function once, in order, and whether a general one occurs |
| `ManagedDispatch.SpecializeFunction` | src/mvm/managed_dispatch.cc:199-219 | Each recorded call goes to the clone for its signature; no other call and no other instruction changes |
| `ManagedDispatch.ClonesAreCopies` | src/mvm/managed_dispatch.cc:206-213 | A clone renames back to the function it was made from |
| `ManagedDispatch.RetargetingIsRenaming` | src/mvm/managed_dispatch.cc:215-219 | Retargeting calls to clones of their callee renames back to the original module |
| `Renaming.MeaningIsKept` | src/mvm/managed_dispatch.cc:175-222 | For every function, arguments, memory and number of steps, the module before and after gives the same outcome, memory and call stack up to clone names |
| `Renaming.RenamesTransitive` | src/mvm/managed_dispatch.cc:229-240 | So any number of rounds keeps the meaning |
| `DispatchCounting.CloningKeepsBalance` | src/mvm/managed_dispatch.cc:142-222 | At each level of the call graph, cloning adds at least as many new call targets as needed to pay for the clones |
| `DispatchCounting.FunctionsAreBounded` | src/mvm/managed_dispatch.cc:229-240 | Which bounds the number of functions level by level |
| `DispatchPass.CallersAndCalleesAgreeIff` | src/mvm/managed_pointer_lowering.cc:722-738 | Where the calls of a function agree, the kind of a parameter equals the kind of the argument at every call if and only if what visits of the parameter's stores have sent back leaves the kind of what is passed: nothing but the kind's own bit and null, or, when the kind is unknown, nothing that completes one |
| `DispatchPass.TrackedCallersAndCalleesAgreeIff` | src/mvm/managed_pointer_lowering.cc:722-738 | Where pointers are kept in tracked variables, if and only if the managed states of the variables it is stored in do |
| `DispatchPass.CallersAndCalleesAgree` | src/mvm/managed_pointer_lowering.cc:722-738 | In particular they are equal when no visit of such a store has found a managed location state |
| `AnalysisLimits.StoredParameterDisagrees` | src/mvm/managed_state.cc:236-253 | For a stored parameter it need not: with all calls in agreement on a raw pointer, visits in program order mark the parameter as object or raw, because a store flows back the state of the object stored into |
| `CallTyping.ArgumentFitsIff` | src/mvm/managed_pointer_lowering.cc:240-262 | At such a call a pointer argument other than a literal null fits the type that the callee's replacement gives the parameter, which lowering itself does not check, if and only if what was sent back leaves the address space of what is passed |
| `CallTyping.TrackedArgumentFitsIff` | src/mvm/managed_pointer_lowering.cc:240-262 | The same by the final tables, where pointers are kept in tracked variables |
| `CallTyping.HandedOnFitsIff` | src/mvm/managed_pointer_lowering.cc:490-660 | What a phi, a select, a freeze, a return or a store to a tracked variable hands on fits the type of its destination if and only if, when the destination is managed, the operand may be more than null and, when it is not, neither is the operand |
| `CallTyping.ReplacementTypeIs` | src/mvm/managed_pointer_lowering.cc:239-262 | A parameter or result becomes a managed pointer exactly when its state is certainly an object or certainly an array, null aside |
| `PointerLowererModule.ManagedPointerLowerer.RebuildFunction` | src/mvm/managed_pointer_lowering.cc:836-968 | Lowering changes only address spaces: erasing them from the result gives the old blocks, instructions, operands and phis, minus debug calls. A variable of pointer type holds managed pointers afterwards exactly when the kinds say so, and every pointer stored to a local variable has exactly the type that variable then holds. The result has every pointer in the space of its kind and all operands fitting exactly when the kinds are coherent, and then, in valid SSA form, no reachable block can make it fail |
| `PointerLowererModule.ManagedPointerLowerer.LowerInstruction` | src/mvm/managed_pointer_lowering.cc:794-834 | Fails for a missing value only if one of its operands is not mapped yet; is unsupported exactly for calls of unknown code with managed pointers and calls that name no function; cannot fail when kinds are coherent and operands mapped |
| `PointerLowererModule.ManagedPointerLowerer.LowerBlocks` | src/mvm/managed_pointer_lowering.cc:869-885 | In dominator-tree preorder every operand in a reachable block is mapped when it is used |
| `PointerLowererModule.ManagedPointerLowerer.PatchPhis` | src/mvm/managed_pointer_lowering.cc:887-965 | Every phi gets its incoming values, of the phi's own type, or the pass fails |
| `PointerLowererModule.MapIncoming` | src/mvm/managed_pointer_lowering.cc:887-965 | Incoming values keep their identity up to address space |
| `PointerLowererModule.CollectDominancePreorder` | src/mvm/managed_pointer_lowering.cc:97-112 | Appends each block of the dominator tree that is not scheduled yet, once, in preorder |
| `PointerLowererModule.LoweringOrder` | src/mvm/managed_pointer_lowering.cc:856-867 | The order is a permutation of the blocks that starts with the dominator-tree preorder |
| `PointerLowererModule.PreorderPutsDominatorsFirst` | src/mvm/managed_pointer_lowering.cc:97-112 | In preorder all strict dominators of a block come before it |
| `PointerLowering.LoweredErases` | src/mvm/managed_pointer_lowering.cc:345-834 | Each lowered instruction is the old one once address spaces are erased |
| `LoweringTypes.CoherentLowers` | src/mvm/managed_pointer_lowering.cc:345-834 | An instruction with coherent kinds and mapped operands is lowered, with declared result type and fitting operands |
| `LoweringTypes.TypedIsCoherent` | src/mvm/managed_pointer_lowering.cc:345-834 | Conversely, if it was lowered with those types its kinds were coherent |
| `LoweringTypes.StoresFit` | src/mvm/managed_pointer_lowering.cc:497-562 | Whether or not the kinds agree, a finished function stores to every local variable values of exactly the type the variable holds |
| `LoweringTypes.WellSpacedByKinds` | src/mvm/managed_pointer_lowering.cc:345-834 | In a well-spaced function each result is managed exactly when its value is, phis, selects and freezes pass on one type, arguments and returned values have the types of the replacement signatures, and stored values the space of their destination |
| `LoweringTypes.UnsupportedIff` | src/mvm/managed_pointer_lowering.cc:684-722 | Given up are exactly calls of unknown code that return or take a managed pointer, and calls that name no function |
| `LoweringTypes.ArgumentsAreUnchecked` | src/mvm/managed_pointer_lowering.cc:722-738 | Call lowering itself lets a managed argument through to a raw parameter |
| `GCPasses.GCModule.InferManagedGCLeafFunctions` | src/mvm/gc.cc:222-275 | Terminates with exactly the trusted functions and those the rule justifies in some order; the set is closed under the rule and nothing but the attribute changes. Afterwards a function is a leaf exactly when it was marked, is one of the known entry points, or has a body without loops in which every call is direct, is of an intrinsic or a leaf, and is no allocation and no safepoint |
| `GCPasses.InferredIsLeast` | src/mvm/gc.cc:222-275 | It is the least such set |
| `GCPasses.GCModule.CanRemainLeaf` | src/mvm/gc.cc:191-212 | The instruction walk decides the rule |
| `GCPasses.GCModule.MarkKnownRuntimeGCLeafFunctions` | src/mvm/gc.cc:214-220 | Exactly the runtime entry points get the attribute |
| `GCPasses.GCModule.PrepareManagedGCModule` | src/mvm/gc.cc:277-307 | Exactly the defined functions that are no leaves are put under the collector |
| `GCPasses.GCModule.InsertManagedSafepointPolls` | src/mvm/gc.cc:350-414 | In exactly the functions under the collector every call of an allocation entry point is followed at once by a poll and every latch ends with one; no other instruction changes; the number of new polls is the number called for, each with an id of its own from 1 on; in a module without polls beforehand all poll ids are then different |
| `GCPasses.PollAllocations` | src/mvm/gc.cc:364-381 | A poll behind each allocation that has none |
| `GCPasses.PollLatches` | src/mvm/gc.cc:383-410 | A poll at the end of each latch |
| `GCRuns.PollFreePathIsShort` | src/mvm/gc.cc:350-414 | On reducible control flow a path through no poll visits no block twice |
| `PollRuns.QuietRunsAreBoundedIff` | src/mvm/gc.cc:350-414 | Across calls: for every number of waiting calls, the steps a program can take without a poll are bounded if and only if there is neither a loop without a poll within one call of a function nor a chain of calls without a poll from a function's entry to its entry |
| `PollRuns.TreatedRunsAreBoundedIff` | src/mvm/gc.cc:181-414 | On reducible control flow, after inference and insertion, only recursion is left: they are bounded if and only if no such chain of calls exists |
| `PollRuns.RecursionNeverPolls` | src/mvm/gc.cc:350-414 | There is no poll at function entry: a function that only calls itself is no leaf, gets no poll and runs for any number of steps without one |
| `RunBounds.PollFreePathsAreBoundedIff` | src/mvm/gc.cc:350-414 | Within one function, not counting the calls it makes, the number of blocks on the way to the next poll is bounded if and only if every cycle of reachable blocks polls |
| `RunBounds.InsertionBreaksCycles` | src/mvm/gc.cc:350-414 | On reducible control flow insertion makes every such cycle poll |
| `RunBounds.IrreducibleLoopNeverPolls` | src/mvm/gc.cc:383-410 | On a loop with two entries it does not: no block of it is a latch, so it gets no poll |
| `GCPasses.PollIdsAreDistinct` | src/mvm/gc.cc:350-414 | In a module that had no polls, polls at different places have different ids, all from one up to the next free id |
| `GCPasses.CountedOnceIsDistinct` | src/mvm/gc.cc:350-414 | Two polls with one id would be counted twice |
| `GCRuns.LeafRunIsBounded` | src/mvm/gc.cc:181-275 | On reducible control flow a call of an inferred leaf runs a bounded number of steps and meets no allocation, indirect call or explicit safepoint |
| `RunBounds.LeafRunsAreBoundedIff` | src/mvm/gc.cc:222-275 | Calls of inferred leaves run for a bounded number of steps if and only if no inferred leaf has a cycle of blocks that can be reached |
| `GCRuns.IrreducibleLeafNeverEnds` | src/mvm/gc.cc:222-275 | On a loop with two entries, which has no back edge for the inference to see, a call of an inferred leaf runs for any number of steps |
| `BoundsChecks.CollectStaticChecks` | src/mvm/bounds_instrumentation.cc:169-215 | The loop collects one check per array step, stopping where the type walk stops |
| `BoundsChecks.ChecksPass` | src/mvm/bounds_instrumentation.cc:229-276 | The combined comparison passes exactly when no single check fails |
| `BoundsChecks.ChecksAreExact` | src/mvm/bounds_instrumentation.cc:34-47 | With lengths in the index's positive half range the checks pass exactly when every index, read as a signed number, is in range |
| `BoundsChecks.ChecksSuffice` | src/mvm/bounds_instrumentation.cc:229-276 | Then the byte offset is not negative and offset plus accessed size stay inside the payload, however deep the path |
| `BoundsChecks.ZeroExtensionIsSafeIff` | src/mvm/bounds_instrumentation.cc:34-47 | Zero-extending a w-bit index is safe exactly for lengths up to 2^(w-1), whatever the length |
| `BoundsChecks.LongArrayEscapes` | src/mvm/bounds_instrumentation.cc:34-47 | An 8-bit index of 200 passes the check of a 250-element array and addresses memory before it |
| `ArrayBases.IsManagedArrayBase` | src/mvm/bounds_instrumentation.cc:155-158 | True exactly when the value has a finite derivation from array allocations that meets no value twice |
| `ArrayBases.IsManagedArrayBaseImpl` | src/mvm/bounds_instrumentation.cc:113-153 | Terminates on cyclic phi graphs; exact relative to what was visited before |
| `ArrayBases.IsManagedArrayBaseStoredInAlloca` | src/mvm/bounds_instrumentation.cc:69-111 | A load counts when its slot is only loaded from and only ever stored one dominating value, itself a base |
| `ArrayBases.StoredValue` | src/mvm/bounds_instrumentation.cc:69-111 | Finds that one value, or there is none |
| `ArrayBases.DerivationIsJustified` | src/mvm/bounds_instrumentation.cc:113-153 | The values of a derivation justify one another |
| `ArrayBaseSoundness.SearchIsSound` | src/mvm/bounds_instrumentation.cc:113-153 | In any program that leaves array allocation to the runtime, with indirect calls and pointers kept anywhere: while every store that hits a searched variable without naming it has put an array base there, a value accepted as an array base is, whenever it is a pointer, exactly what an array allocation returned |
| `ArrayBaseSoundness.SlotsHoldBasesIff` | src/mvm/bounds_instrumentation.cc:69-111 | The searched variables hold array bases all along a run if and only if its stores are harmless in that sense |
| `ArrayBaseSoundness.UnforgedIsHarmless` | src/mvm/bounds_instrumentation.cc:69-111 | They are as long as nobody makes the address of a searched variable by arithmetic or hands it in from outside: the uses the search allows never let it escape |
| `ArrayBaseSoundness.TrackedIsHarmless` | src/mvm/bounds_instrumentation.cc:69-111 | They are too in every run of a program that loads pointers from and stores them to tracked variables only |
| `ArrayBaseSoundness.ForgedStoreBreaksSearch` | src/mvm/bounds_instrumentation.cc:69-111 | Otherwise it fails: external code that hands in the address lets null be stored, and a value the search accepts is null |

## Left out

Heap:

- Concurrency of allocation: entry points run under the registry's lock, so each is one step.
- ManagedHeapModule.ManagedHeap.RecordManagedAllocation: the notification an allocation sends when it raises the request flag is an event of the protocol (`Safepoints`), not a call inside `MallocTyped` or `ArrayMallocTyped`.
- ManagedHeapModule.ManagedHeap.ArrayLength: answers from the header table, not from the bytes before the pointer.
- Counters of collections, cycles and epochs are unbounded; their wrap-around at 2^64 is not modelled.
- `ensureAllocationRegistryStorage`, the debug statistics getters and the untyped entry points, which only abort.
- The abort on a zero live count in `reclaimAllocation` is not in `ReclaimSlot`, because the invariant excludes it.
- `slabPageStorage` is not a separate container: pages are found by address.

Runs:

- `MutatorRuns` lets a mutator read only reference slots it has written; fresh payload bytes may hold anything, and the compiler is trusted not to load a reference from them.

Protocol:

- Shutdown of the collector thread (stop token, destructor) and spurious wake-ups that find their condition false.
- A safepoint reached by a thread that is no mutator, or without a stack map registry, which only clears the flag.
- Memory orders of the atomics: flag operations are steps of the interleaving.

Stack walk:

- Parsing of stack map sections and object files; records are given.
- StackWalk.ScanIsComplete: for stacks whose managed callers come first and return to recorded addresses (`WalkReports` is for all stacks).
- DWARF registers other than the stack and frame pointer, and raw frame memory: the stack is a map of words.

Analysis and specialisation:

- `stripPointerCasts` follows zero-offset address computations with a bound of one step per instruction instead of a visited set.
- Undefined values, atomics, vectors, varargs and `invoke`; integers converted to pointers carry no provenance.
- ProvenanceSoundness.ProvenanceIsSound: for programs with direct calls whose loads and stores of pointers go straight to tracked variables; `ValuesAllowedIff` and `StoresSuffice` are for all programs, and their condition on loads is one on runs, not on the text of the program.
- ProvenanceSoundness.SoundIffStartCovered: for the same programs.
- StateSolutions.LeastSolution: for programs whose loads and stores of pointers go straight to tracked variables (`LeastSolutionIff` is for all).
- DispatchPass.SpecializeManagedDispatch: termination is for modules whose functions that may be cloned call each other in no cycle; on which modules with such recursion it terminates is not characterised (`RecursionNeverSettles` shows one on which it does not).
- Modules are values: a pass returns the new module instead of changing it in place; clone names and linkage are not kept.

Lowering:

- Which functions need lowering, their replacement types and the final replacement of uses: signatures are parameters.
- The analysis's answers are a parameter (`Kinds`). `CallTyping` ties them to the tables of the first language for function types, values, call arguments and the flows of `HandedOnFitsIff`; loads, address computations, comparisons and stores through pointers that are no tracked variables are not tied.
- Metadata, names, debug locations, alignment and calling conventions; zero-initialised aggregates.
- A function without a replacement is a constant like a global variable.
- When several operands cannot be mapped, which of the two messages is reported.

Leaf inference and polls:

- Natural loops are given; `LoopsKnown` and `Reducible` state what is assumed of them. The order in which latches receive ids.
- GCRuns.LeafRunIsBounded: for reducible control flow, which the code does not check (`LeafRunsAreBoundedIff` needs no such assumption).
- Frame-pointer attributes and metadata of prepared modules.

Bounds checks:

- Splitting blocks around a trap; the base analysis is for the function before any split.
- ArrayBaseSoundness.SearchIsSound: assumes that the untyped array allocator is a declaration.
- Vector types and indices wider than 64 bits; the memory cast and lifetime users of a variable that the search ignores.

Layouts:

- HeapLayout.HeapLayoutRewriter.GetOrCreateDescriptor: for types whose size and alignment fit 64 bits.
- Rewriting the allocation call itself and its metadata; unsized and scalable types, which are errors.

Left to LLVM: just-in-time compilation, bitcode loading, the optimisation pipeline and statepoint rewriting. The command line and the module verifier are text handling and straight-line tests.
