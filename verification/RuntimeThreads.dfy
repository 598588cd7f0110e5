/** The runtime's thread coordinator: each method is one lock-protected section. */
module RuntimeThreadsModule {
  import opened MachineWords
  import opened HeapModel
  import opened HeapGraph
  import opened MarkSweep
  import opened MemoryUse
  import opened ManagedHeapModule
  import opened Safepoints
  import opened Wrappers
  import opened StackWalk
  import Runs = MutatorRuns

  class RuntimeThreads {
    const heap: ManagedHeap
    var activeMutatorCount: nat
    var parkedMutatorCount: nat
    var gcPending: bool
    var gcCycleEpoch: nat
    var completedGCCycleCount: nat
    var pendingRootSummary: GCRootScanSummary
    var lastRootScanSummary: GCRootScanSummary

    function View(): Shared
      reads this, heap`gcRequested
    {
      Shared(activeMutatorCount, parkedMutatorCount, gcPending, gcCycleEpoch, completedGCCycleCount, pendingRootSummary,
             heap.gcRequested, lastRootScanSummary)
    }

    constructor (heap: ManagedHeap)
      ensures this.heap == heap
      ensures View() == Shared(0, 0, false, 0, 0, EmptySummary, heap.gcRequested, EmptySummary)
    {
      this.heap := heap;
      activeMutatorCount, parkedMutatorCount, gcPending, gcCycleEpoch, completedGCCycleCount := 0, 0, false, 0, 0;
      pendingRootSummary, lastRootScanSummary := EmptySummary, EmptySummary;
    }

    method MarkMutatorStarted()
      modifies this
      ensures View() == MutatorStarted(old(View())) && activeMutatorCount == old(activeMutatorCount) + 1
    {
      activeMutatorCount := activeMutatorCount + 1;
    }

    method MarkMutatorStopped()
      modifies this
      ensures View() == MutatorStopped(old(View()))
      ensures activeMutatorCount == if old(activeMutatorCount) == 0 then 0 else old(activeMutatorCount) - 1
      ensures activeMutatorCount == 0 ==> !gcPending && pendingRootSummary == EmptySummary
    {
      if activeMutatorCount != 0 {
        activeMutatorCount := activeMutatorCount - 1;
      }
      if activeMutatorCount == 0 {
        gcPending := false;
        pendingRootSummary := EmptySummary;
      }
    }

    method NotifyGCRequested()
      modifies this
      ensures View() == GCRequestNotified(old(View())) && gcPending
    {
      gcPending := true;
    }

    /** requestGC: only the caller that raises the flag notifies. */
    method RequestGC()
      requires heap.Valid()
      modifies this, heap`gcRequested
      ensures View() == if old(View()).gcRequested then old(View()) else GCRequestNotified(old(View()).(gcRequested := true))
      ensures heap.Valid() && heap.Allocations() == old(heap.Allocations())
    {
      var alreadyRequested := heap.RaiseGCRequest();
      if !alreadyRequested {
        NotifyGCRequested();
      }
    }

    /** parkCurrentMutatorAtSafepoint up to its wait; returns the epoch the mutator waits on. */
    method EnterPark(summary: GCRootScanSummary) returns (cycleEpoch: nat)
      modifies this
      ensures View() == Parked(old(View()), summary) && cycleEpoch == gcCycleEpoch
      ensures parkedMutatorCount == old(parkedMutatorCount) + 1
      ensures var before, after := old(pendingRootSummary), pendingRootSummary;
        && after.rootValues == before.rootValues + summary.rootValues
        && after.rootPairCount == before.rootPairCount + summary.rootPairCount
        && after.rootLocationCount == before.rootLocationCount + summary.rootLocationCount
        && after.nonNullRootCount == before.nonNullRootCount + summary.nonNullRootCount
    {
      cycleEpoch := gcCycleEpoch;
      parkedMutatorCount := parkedMutatorCount + 1;
      pendingRootSummary := Merge(pendingRootSummary, summary);
    }

    /** parkCurrentMutatorAtSafepoint after its wait. */
    method LeavePark(cycleEpoch: nat)
      requires gcCycleEpoch != cycleEpoch
      modifies this
      ensures View() == Unparked(old(View())) && (old(parkedMutatorCount) > 0 ==> parkedMutatorCount == old(parkedMutatorCount) - 1)
    {
      parkedMutatorCount := if parkedMutatorCount == 0 then WORD_LIMIT - 1 else parkedMutatorCount - 1;
    }

    /** vmThreadMain from one wait to the next. When a collection is due the heap keeps exactly what
        the pending roots reach; otherwise the heap is left alone. */
    method RunCollector(vm: VmPhase) returns (vm': VmPhase, asleep: bool)
      requires heap.Valid() && MarkedSet(heap.headers, heap.active) == {}
      modifies this, heap
      ensures CollectorOutcome(View(), vm', asleep) == CollectorStep(old(View()), vm)
      ensures heap.Valid() && MarkedSet(heap.headers, heap.active) == {} && heap.words == old(heap.words)
      ensures heap.Allocations() ==
        if vm == Gathering && CollectionDue(old(View()))
        then Keep(old(heap.Allocations()), ReachableSet(old(heap.Allocations()), heap.words, old(pendingRootSummary.rootValues)))
        else old(heap.Allocations())
      ensures old(heap.Thrifty()) ==> heap.Thrifty()
    {
      hide heap.ValidExcept, heap.Allocations, NoIdlePage, MarkedSet, Keep, ReachableSet;
      if vm == Idle {
        if !gcPending { return Idle, true; }
        if activeMutatorCount == 0 { return Idle, false; }
        return Gathering, false;
      }
      if !(activeMutatorCount == 0 || parkedMutatorCount >= activeMutatorCount) { return Gathering, true; }
      if !gcPending || activeMutatorCount == 0 { return Idle, false; }
      completedGCCycleCount := completedGCCycleCount + 1;
      var collectionStats := heap.CollectManagedHeap(pendingRootSummary.rootValues);
      pendingRootSummary := pendingRootSummary.(mutatorCount := activeMutatorCount, gcCycle := completedGCCycleCount);
      lastRootScanSummary := pendingRootSummary;
      heap.ClearGCRequest();
      gcPending := false;
      pendingRootSummary := EmptySummary;
      gcCycleEpoch := gcCycleEpoch + 1;
      return Idle, false;
    }
  }

  /** The only mutator asks for a collection and parks: a collection is due at once. */
  method RequestAndPark(threads: RuntimeThreads, summary: GCRootScanSummary) returns (epoch: nat)
    requires threads.heap.Valid()
    requires threads.activeMutatorCount == 1 && threads.parkedMutatorCount == 0 && threads.pendingRootSummary == EmptySummary
    requires threads.gcPending == threads.heap.gcRequested
    modifies threads, threads.heap`gcRequested
    ensures CollectionDue(threads.View()) && epoch == threads.gcCycleEpoch == old(threads.gcCycleEpoch)
    ensures threads.activeMutatorCount == 1 && threads.parkedMutatorCount == 1 && threads.completedGCCycleCount == old(threads.completedGCCycleCount)
    ensures threads.pendingRootSummary == summary.(mutatorCount := 0, gcCycle := 0)
    ensures threads.heap.Valid() && threads.heap.Allocations() == old(threads.heap.Allocations())
    ensures threads.heap.slabPages == old(threads.heap.slabPages)
  {
    hide threads.heap.ValidExcept, threads.heap.Allocations;
    threads.RequestGC();
    assert threads.View().parkedMutatorCount == 0;
    epoch := threads.EnterPark(summary);
    assert threads.View().parkedMutatorCount == 1;
    assert [] + summary.rootValues == summary.rootValues;
  }

  /** One request of the only mutator, from requestGC to its release, with the sections in the only
      order the protocol allows: a collection step of the mutator's run, given the roots it scanned. */
  method RequestAndCollect(threads: RuntimeThreads, summary: GCRootScanSummary, ghost s: Runs.State) returns (ghost s': Runs.State)
    requires Runs.Agrees(threads.heap, s) && Runs.WellFormed(s)
    requires Runs.RootsGiven(s, summary.rootValues)
    requires threads.activeMutatorCount == 1 && threads.parkedMutatorCount == 0 && threads.pendingRootSummary == EmptySummary
    requires threads.gcPending == threads.heap.gcRequested
    modifies threads, threads.heap
    ensures Runs.Agrees(threads.heap, s') && Runs.WellFormed(s') && Runs.CollectStep(s, s', summary.rootValues)
    ensures threads.activeMutatorCount == 1 && threads.parkedMutatorCount == 0 && threads.pendingRootSummary == EmptySummary
    ensures !threads.gcPending && !threads.heap.gcRequested
    ensures threads.gcCycleEpoch == old(threads.gcCycleEpoch) + 1
    ensures threads.lastRootScanSummary == summary.(mutatorCount := 1, gcCycle := threads.completedGCCycleCount)
    ensures threads.completedGCCycleCount == old(threads.completedGCCycleCount) + 1
  {
    hide Runs.WellFormed, NoIdlePage, MarkedSet, Keep, ReachableSet, Merge;
    hide threads.heap.ValidExcept, threads.heap.Allocations;
    var epoch := RequestAndPark(threads, summary);
    ghost var before := threads.View();
    var vm, asleep := threads.RunCollector(Idle);
    assert vm == Gathering && threads.View() == before;
    vm, asleep := threads.RunCollector(vm);
    assert threads.View() == Collected(before);
    s' := Runs.AfterCollection(s, summary.rootValues);
    Runs.CollectKeeps(s, s', summary.rootValues);
    threads.LeavePark(epoch);
    assert threads.View() == Unparked(Collected(before));
  }

  // ----- Roots from the stack -----

  /** The frame a scan starts at: by statepoint id if the poll gives one, or else by return address. */
  function StartFrame(records: seq<SafepointRecord>, stack: map<nat, Word>, statepointID: nat, returnAddress: Word, callerSP: Word, callerBP: Word)
    : Option<StackFrame>
  {
    if statepointID != 0 then StartById(records, statepointID, callerSP, callerBP) else Probe(records, stack, returnAddress, callerSP, callerBP, 0)
  }

  /** scanCurrentRuntimeSafepointFromFrame, on a mutator thread with a registry installed. */
  method ScanCurrentRuntimeSafepoint(registry: GCStackMapRegistry, stack: map<nat, Word>, statepointID: nat, returnAddress: Word, callerSP: Word,
                                     callerBP: Word)
    returns (r: Result<GCRootScanSummary>)
    ensures ScanIs(r, registry.safepoints, StartFrame(registry.safepoints, stack, statepointID, returnAddress, callerSP, callerBP), stack)
    ensures statepointID != 0 && RecordById(registry.safepoints, statepointID).None? ==> r.Err?
    ensures statepointID != 0 && RecordById(registry.safepoints, statepointID).Some? ==>
      ScanIs(r, registry.safepoints, Some(StackFrame(RecordById(registry.safepoints, statepointID).value, callerSP, callerBP)), stack)
    ensures statepointID == 0 ==> ScanIs(r, registry.safepoints, Probe(registry.safepoints, stack, returnAddress, callerSP, callerBP, 0), stack)
  {
    hide Callers, AllReadable, SummaryOf;
    if statepointID != 0 {
      r := registry.ScanCurrentSafepointByID(statepointID, callerSP, callerBP, stack);
    } else {
      r := registry.ScanCurrentSafepoint(returnAddress, callerSP, callerBP, stack);
    }
  }

  /** A base or derived location of some frame's record holds this address. */
  ghost predicate IsOnStack(frames: seq<StackFrame>, stack: map<nat, Word>, address: nat) {
    exists n: nat, k: nat, derived: bool :: n < |frames| && k < |frames[n].record.rootPairs| && HoldsAddress(frames[n], k, derived, stack, address)
  }

  predicate HoldsAddress(frame: StackFrame, k: nat, derived: bool, stack: map<nat, Word>, address: nat)
    requires k < |frame.record.rootPairs|
  {
    var pair := frame.record.rootPairs[k];
    address < 0x1_0000_0000_0000_0000 && LocationHolds(if derived then pair.derived else pair.base, frame, stack, address)
  }

  lemma RootsOnStackAreGiven(s: Runs.State, frames: seq<StackFrame>, stack: map<nat, Word>)
    requires forall r :: r in s.roots && r.address != 0 ==> IsOnStack(frames, stack, r.address)
    ensures Runs.RootsGiven(s, StackRoots(frames, stack))
  {
    hide StackRoots, LocationHolds;
    forall r | r in s.roots && r.address != 0
      ensures r.address in StackRoots(frames, stack)
    {
      assert IsOnStack(frames, stack, r.address);
      var n: nat, k: nat, derived: bool :| n < |frames| && k < |frames[n].record.rootPairs| && HoldsAddress(frames[n], k, derived, stack, r.address);
      EveryRootIsReported(frames, stack, n, k, derived, r.address);
    }
  }

  /** The whole of it for the only mutator: when its stack is a chain of at most 256 callers whose
      records name every reference it holds, scanning that stack and parking make a collection step
      of its run; a location that cannot be read, or a start frame that is not found, is an error
      before anything changes. */
  method ScanAndCollect(threads: RuntimeThreads, registry: GCStackMapRegistry, stack: map<nat, Word>, statepointID: nat, returnAddress: Word,
                        callerSP: Word, callerBP: Word, ghost callers: seq<StackFrame>, ghost s: Runs.State)
    returns (r: Result<GCRootScanSummary>, ghost s': Runs.State)
    requires Runs.Agrees(threads.heap, s) && Runs.WellFormed(s)
    requires threads.activeMutatorCount == 1 && threads.parkedMutatorCount == 0 && threads.pendingRootSummary == EmptySummary
    requires threads.gcPending == threads.heap.gcRequested
    requires var start := StartFrame(registry.safepoints, stack, statepointID, returnAddress, callerSP, callerBP);
      start.Some? ==>
        && StackHolds(registry.safepoints, stack, start.value.bp, callers) && |callers| <= 256
        && forall r :: r in s.roots && r.address != 0 ==> IsOnStack([start.value] + callers, stack, r.address)
    modifies threads, threads.heap
    ensures var start := StartFrame(registry.safepoints, stack, statepointID, returnAddress, callerSP, callerBP);
      && (r.Ok? <==> start.Some? && AllReadable([start.value] + callers))
      && (r.Ok? ==> Runs.CollectStep(s, s', StackRoots([start.value] + callers, stack)))
    ensures r.Err? ==> s' == s && threads.View() == old(threads.View())
    ensures Runs.Agrees(threads.heap, s') && Runs.WellFormed(s')
    ensures r.Ok? ==> threads.gcCycleEpoch == old(threads.gcCycleEpoch) + 1 && !threads.gcPending && !threads.heap.gcRequested
  {
    hide Runs.WellFormed, Runs.Agrees, Runs.RootsGiven, Runs.CollectStep, AllReadable, StackRoots, StackHolds, IsOnStack, StartFrame, Merge;
    s' := s;
    r := ScanCurrentRuntimeSafepoint(registry, stack, statepointID, returnAddress, callerSP, callerBP);
    ghost var start := StartFrame(registry.safepoints, stack, statepointID, returnAddress, callerSP, callerBP);
    if start.Some? {
      ScanIsComplete(r, registry.safepoints, start.value, callers, stack);
    }
    if r.Err? {
      return;
    }
    RootsOnStackAreGiven(s, [start.value] + callers, stack);
    s' := RequestAndCollect(threads, r.value, s);
  }
}
