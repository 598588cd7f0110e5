/** The safepoint protocol between mutator threads and the runtime's collector thread: what each
    lock-protected section does to the shared counters, and the step system built from them. */
module Safepoints {
  import opened MachineWords

  datatype GCRootScanSummary = GCRootScanSummary(
    safepointAddress: nat, rootPairCount: nat, rootLocationCount: nat, nonNullRootCount: nat,
    mutatorCount: nat, gcCycle: nat, rootValues: seq<nat>)

  const EmptySummary := GCRootScanSummary(0, 0, 0, 0, 0, 0, [])

  /** mergeRootScanSummary. */
  function Merge(destination: GCRootScanSummary, source: GCRootScanSummary): GCRootScanSummary {
    destination.(
      safepointAddress := if destination.safepointAddress == 0 then source.safepointAddress else destination.safepointAddress,
      rootPairCount := destination.rootPairCount + source.rootPairCount,
      rootLocationCount := destination.rootLocationCount + source.rootLocationCount,
      nonNullRootCount := destination.nonNullRootCount + source.nonNullRootCount,
      rootValues := destination.rootValues + source.rootValues)
  }

  /** The fields behind the runtime's mutex, with the request flag and the last recorded summary. */
  datatype Shared = Shared(
    activeMutatorCount: nat, parkedMutatorCount: nat, gcPending: bool, gcCycleEpoch: nat,
    completedGCCycleCount: nat, pendingRootSummary: GCRootScanSummary, gcRequested: bool, lastSummary: GCRootScanSummary)

  // ----- What each lock-protected section does -----

  function MutatorStarted(s: Shared): Shared {
    s.(activeMutatorCount := s.activeMutatorCount + 1)
  }

  function MutatorStopped(s: Shared): Shared {
    var active := if s.activeMutatorCount != 0 then s.activeMutatorCount - 1 else 0;
    if active == 0 then s.(activeMutatorCount := 0, gcPending := false, pendingRootSummary := EmptySummary)
    else s.(activeMutatorCount := active)
  }

  function GCRequestNotified(s: Shared): Shared {
    s.(gcPending := true)
  }

  function Parked(s: Shared, summary: GCRootScanSummary): Shared {
    s.(parkedMutatorCount := s.parkedMutatorCount + 1, pendingRootSummary := Merge(s.pendingRootSummary, summary))
  }

  /** The counter is an unsigned word: going below zero would wrap. */
  function Unparked(s: Shared): Shared {
    s.(parkedMutatorCount := if s.parkedMutatorCount == 0 then WORD_LIMIT - 1 else s.parkedMutatorCount - 1)
  }

  /** One collection: the cycle is counted and recorded, the request cleared, the parked released. */
  function Collected(s: Shared): Shared {
    var recorded := s.pendingRootSummary.(mutatorCount := s.activeMutatorCount, gcCycle := s.completedGCCycleCount + 1);
    s.(completedGCCycleCount := s.completedGCCycleCount + 1, lastSummary := recorded, gcRequested := false,
       gcPending := false, pendingRootSummary := EmptySummary, gcCycleEpoch := s.gcCycleEpoch + 1)
  }

  predicate Gathered(s: Shared) {
    s.activeMutatorCount == 0 || s.parkedMutatorCount >= s.activeMutatorCount
  }

  predicate CollectionDue(s: Shared) {
    Gathered(s) && s.gcPending && s.activeMutatorCount != 0
  }

  datatype VmPhase = Idle | Gathering

  /** What the collector thread leaves behind when it next waits or loops. */
  datatype CollectorOutcome = CollectorOutcome(shared: Shared, vm: VmPhase, asleep: bool)

  /** vmThreadMain from one of its waits to the next: Idle is the wait for a request, Gathering the
      wait for the mutators. */
  function CollectorStep(s: Shared, vm: VmPhase): CollectorOutcome {
    match vm
    case Idle =>
      if !s.gcPending then CollectorOutcome(s, Idle, true)
      else if s.activeMutatorCount == 0 then CollectorOutcome(s, Idle, false)
      else CollectorOutcome(s, Gathering, false)
    case Gathering =>
      if !Gathered(s) then CollectorOutcome(s, Gathering, true)
      else if !CollectionDue(s) then CollectorOutcome(s, Idle, false)
      else CollectorOutcome(Collected(s), Idle, false)
  }

  /** The collector thread loops without waiting, and so without giving up the mutex, iff it is
      notified while no mutator is active. */
  lemma SpinsIff(s: Shared)
    ensures CollectorStep(s, Idle) == CollectorOutcome(s, Idle, false) <==> s.gcPending && s.activeMutatorCount == 0
    ensures CollectorStep(s, Gathering) != CollectorOutcome(s, Gathering, false)
  {
  }

  // ----- Threads -----

  /** Where a started mutator is. Waiting is inside parkCurrentMutatorAtSafepoint, with the epoch it
      saw on entry and the summary it handed over. */
  datatype Phase =
    | Starting
    | Running
    | Notifying
    | Scanning
    | Waiting(epoch: nat, summary: GCRootScanSummary)

  datatype Arrival = Arrival(id: nat, summary: GCRootScanSummary)

  /** What a collection saw: the active mutators, those inside the park section, the arrivals of
      its own epoch in order, and the roots it was given. */
  datatype Cycle = Cycle(active: set<nat>, inside: set<nat>, arrivals: seq<Arrival>, roots: seq<nat>)

  /** Waiters asleep on the condition variable stay asleep until some section notifies all. */
  datatype System = System(
    shared: Shared, threads: map<nat, Phase>, sleeping: set<nat>, vm: VmPhase, vmAsleep: bool,
    arrivals: seq<Arrival>, cycles: seq<Cycle>)

  /** condition_.notify_all. */
  function NotifyAll(s: System): System {
    s.(sleeping := {}, vmAsleep := false)
  }

  function Inside(threads: map<nat, Phase>): set<nat> {
    set id | id in threads && threads[id].Waiting?
  }

  datatype Event =
    | Start(id: nat)                                 // markMutatorStarted
    | ClearAtStart(id: nat)                          // clearGCRequest and clearLastRootScanSummary of the entry sequence
    | Request(id: nat)                               // requestGC: the exchange on the flag
    | Notify(id: nat)                                // requestGC: notifyGCRequested
    | Poll(id: nat)                                  // a poll that sees the flag
    | Park(id: nat, summary: GCRootScanSummary)      // park section up to its wait
    | Recheck(id: nat)                               // a woken mutator tests its wait condition
    | Stop(id: nat)                                  // markMutatorStopped
    | Vm                                             // the collector thread runs to its next wait

  predicate Enabled(s: System, e: Event) {
    match e
    case Start(id) => id !in s.threads
    case ClearAtStart(id) => id in s.threads && s.threads[id] == Starting
    case Request(id) => id in s.threads && s.threads[id] == Running
    case Notify(id) => id in s.threads && s.threads[id] == Notifying
    case Poll(id) => id in s.threads && s.threads[id] == Running && s.shared.gcRequested
    case Park(id, _) => id in s.threads && s.threads[id] == Scanning
    case Recheck(id) => id in s.threads && s.threads[id].Waiting? && id !in s.sleeping
    case Stop(id) => id in s.threads && s.threads[id] == Running
    case Vm => !s.vmAsleep
  }

  function Next(s: System, e: Event): System
    requires Enabled(s, e)
  {
    match e
    case Start(id) => NotifyAll(s.(shared := MutatorStarted(s.shared), threads := s.threads[id := Starting]))
    case ClearAtStart(id) => s.(shared := s.shared.(gcRequested := false, lastSummary := EmptySummary), threads := s.threads[id := Running])
    case Request(id) =>
      s.(shared := s.shared.(gcRequested := true), threads := s.threads[id := if s.shared.gcRequested then Running else Notifying])
    case Notify(id) => NotifyAll(s.(shared := GCRequestNotified(s.shared), threads := s.threads[id := Running]))
    case Poll(id) => s.(threads := s.threads[id := Scanning])
    case Park(id, summary) =>
      NotifyAll(s).(shared := Parked(s.shared, summary), threads := s.threads[id := Waiting(s.shared.gcCycleEpoch, summary)],
                    sleeping := {id}, arrivals := s.arrivals + [Arrival(id, summary)])
    case Recheck(id) =>
      if s.threads[id].epoch == s.shared.gcCycleEpoch then s.(sleeping := s.sleeping + {id})
      else NotifyAll(s.(shared := Unparked(s.shared), threads := s.threads[id := Running]))
    case Stop(id) => NotifyAll(s.(shared := MutatorStopped(s.shared), threads := s.threads - {id}))
    case Vm => VmStep(s)
  }

  /** The collector thread, from one wait to the next. */
  function VmStep(s: System): System {
    if Collects(s) then NotifyAll(Collection(s))
    else
      var outcome := CollectorStep(s.shared, s.vm);
      s.(shared := outcome.shared, vm := outcome.vm, vmAsleep := outcome.asleep)
  }

  /** What a collection changes, and the record it leaves. */
  function Collection(s: System): System {
    s.(shared := Collected(s.shared), vm := Idle, arrivals := [],
       cycles := s.cycles + [Cycle(s.threads.Keys, Inside(s.threads), s.arrivals, s.shared.pendingRootSummary.rootValues)])
  }

  predicate Collects(s: System) {
    !s.vmAsleep && s.vm == Gathering && CollectionDue(s.shared)
  }

  /** Nobody has started; the flag may be left over from an earlier run of the process. */
  predicate Initial(s: System) {
    s == System(Shared(0, 0, false, 0, 0, EmptySummary, s.shared.gcRequested, s.shared.lastSummary), map[], {}, Idle, false, [], [])
  }

  /** A run, as the states it goes through. */
  ghost predicate Run(states: seq<System>, events: seq<Event>) {
    && |states| == |events| + 1 && Initial(states[0])
    && forall i :: 0 <= i < |events| ==> Enabled(states[i], events[i]) && states[i + 1] == Next(states[i], events[i])
  }

  // ----- The invariant, for any number of mutators -----

  function AllSummaries(arrivals: seq<Arrival>): GCRootScanSummary {
    if arrivals == [] then EmptySummary
    else Merge(AllSummaries(arrivals[..|arrivals| - 1]), arrivals[|arrivals| - 1].summary)
  }

  /** The scanned roots of the arrivals, one mutator after the other. */
  function AllRoots(arrivals: seq<Arrival>): seq<nat> {
    if arrivals == [] then [] else AllRoots(arrivals[..|arrivals| - 1]) + arrivals[|arrivals| - 1].summary.rootValues
  }

  datatype ScanCounts = ScanCounts(pairs: nat, locations: nat, nonNull: nat)

  /** What the arrivals counted, added up. */
  function AllCounts(arrivals: seq<Arrival>): ScanCounts {
    if arrivals == [] then ScanCounts(0, 0, 0)
    else
      var before, last := AllCounts(arrivals[..|arrivals| - 1]), arrivals[|arrivals| - 1].summary;
      ScanCounts(before.pairs + last.rootPairCount, before.locations + last.rootLocationCount, before.nonNull + last.nonNullRootCount)
  }

  /** The safepoint of the first arrival that named one. */
  function FirstSafepoint(arrivals: seq<Arrival>): nat {
    if arrivals == [] then 0
    else if arrivals[0].summary.safepointAddress != 0 then arrivals[0].summary.safepointAddress
    else FirstSafepoint(arrivals[1..])
  }

  /** This is what these mutators scanned, put together. */
  ghost predicate Gathers(summary: GCRootScanSummary, arrivals: seq<Arrival>) {
    && summary.rootValues == AllRoots(arrivals) && summary.safepointAddress == FirstSafepoint(arrivals)
    && ScanCounts(summary.rootPairCount, summary.rootLocationCount, summary.nonNullRootCount) == AllCounts(arrivals)
  }

  ghost predicate CountersOK(s: System) {
    && s.shared.activeMutatorCount == |s.threads.Keys|
    && s.shared.parkedMutatorCount == |Inside(s.threads)|
    && s.shared.completedGCCycleCount == s.shared.gcCycleEpoch == |s.cycles|
  }

  /** The current epoch's arrivals are exactly the mutators still waiting on that epoch. */
  ghost predicate ArrivalsOK(threads: map<nat, Phase>, epoch: nat, arrivals: seq<Arrival>) {
    && (forall id :: id in threads && threads[id].Waiting? ==> threads[id].epoch <= epoch)
    && (forall i, j :: 0 <= i < j < |arrivals| ==> arrivals[i].id != arrivals[j].id)
    && (forall i :: 0 <= i < |arrivals| ==> ArrivedAs(threads, epoch, arrivals[i]))
    && (forall id :: id in threads && threads[id].Waiting? && threads[id].epoch == epoch ==>
          Arrival(id, threads[id].summary) in arrivals)
  }

  predicate ArrivedAs(threads: map<nat, Phase>, epoch: nat, a: Arrival) {
    a.id in threads && threads[a.id].Waiting? && threads[a.id].epoch == epoch && threads[a.id].summary == a.summary
  }

  ghost predicate ThreadIn(threads: map<nat, Phase>, id: nat, p: Phase) {
    id in threads && threads[id] == p
  }

  /** A request that some running mutator can act on has been, or is being, passed to the collector. */
  ghost predicate RequestsOK(s: System) {
    && (s.shared.gcPending ==> s.shared.activeMutatorCount != 0)
    && (!s.shared.gcPending && !(exists id :: ThreadIn(s.threads, id, Notifying)) ==>
          forall id :: id in s.threads ==>
            && s.threads[id] != Scanning
            && !(s.threads[id].Waiting? && s.threads[id].epoch == s.shared.gcCycleEpoch)
            && (s.threads[id] != Starting ==> !s.shared.gcRequested))
  }

  /** Whoever sleeps is waiting for something that has not happened. */
  ghost predicate SleepersOK(s: System) {
    && (forall id :: id in s.sleeping ==> id in s.threads && s.threads[id].Waiting? && s.threads[id].epoch == s.shared.gcCycleEpoch)
    && (s.vmAsleep && s.vm == Idle ==> !s.shared.gcPending)
    && (s.vmAsleep && s.vm == Gathering ==> !Gathered(s.shared))
  }

  /** A collection saw every active mutator inside the park section, and was given the roots of
      the arrivals of its own epoch. */
  ghost predicate CycleOK(c: Cycle) {
    c.active != {} && c.inside == c.active && c.roots == AllRoots(c.arrivals)
    && forall i :: 0 <= i < |c.arrivals| ==> c.arrivals[i].id in c.active
  }

  ghost predicate Inv(s: System) {
    && CountersOK(s)
    && ArrivalsOK(s.threads, s.shared.gcCycleEpoch, s.arrivals)
    && SummaryOK(s)
    && RequestsOK(s)
    && SleepersOK(s)
    && (forall i :: 0 <= i < |s.cycles| ==> CycleOK(s.cycles[i]))
  }

  // ----- Every step keeps it -----

  lemma InsideAfter(threads: map<nat, Phase>, id: nat, p: Phase)
    ensures Inside(threads[id := p]) == if p.Waiting? then Inside(threads) + {id} else Inside(threads) - {id}
    ensures threads[id := p].Keys == threads.Keys + {id}
  {
  }

  lemma CountsAfter(threads: map<nat, Phase>, id: nat, p: Phase)
    ensures |threads[id := p].Keys| == |threads.Keys| + if id in threads then 0 else 1
    ensures |Inside(threads[id := p])| == |Inside(threads)| + (if p.Waiting? then 1 else 0) - (if id in Inside(threads) then 1 else 0)
  {
    InsideAfter(threads, id, p);
    hide Inside;
    CardinalityAfter(threads.Keys, id, true);
    CardinalityAfter(Inside(threads), id, p.Waiting?);
  }

  lemma CardinalityAfter(ids: set<nat>, id: nat, present: bool)
    ensures present ==> |ids + {id}| == |ids| + if id in ids then 0 else 1
    ensures !present ==> |ids - {id}| == |ids| - if id in ids then 1 else 0
  {
    if id in ids { assert ids + {id} == ids; } else { assert ids - {id} == ids; }
  }

  lemma CountsWithout(threads: map<nat, Phase>, id: nat)
    requires id in threads && !threads[id].Waiting?
    ensures |(threads - {id}).Keys| == |threads.Keys| - 1 && Inside(threads - {id}) == Inside(threads)
  {
    assert (threads - {id}).Keys == threads.Keys - {id};
  }

  lemma CountersKept(s: System, e: Event)
    requires CountersOK(s) && Enabled(s, e)
    ensures CountersOK(Next(s, e))
  {
    match e
    case Start(id) => CountsAfter(s.threads, id, Starting);
    case ClearAtStart(id) => CountsAfter(s.threads, id, Running);
    case Request(id) => CountsAfter(s.threads, id, if s.shared.gcRequested then Running else Notifying);
    case Notify(id) => CountsAfter(s.threads, id, Running);
    case Poll(id) => CountsAfter(s.threads, id, Scanning);
    case Park(id, summary) => CountsAfter(s.threads, id, Waiting(s.shared.gcCycleEpoch, summary));
    case Recheck(id) => CountsAfter(s.threads, id, Running);
    case Stop(id) => CountsWithout(s.threads, id);
    case Vm =>
  }

  /** A mutator that is not waiting on this epoch may move as it likes, short of doing so. */
  lemma ArrivalsAfter(threads: map<nat, Phase>, epoch: nat, arrivals: seq<Arrival>, id: nat, p: Phase)
    requires ArrivalsOK(threads, epoch, arrivals)
    requires id in threads ==> !(threads[id].Waiting? && threads[id].epoch == epoch)
    requires !p.Waiting?
    ensures ArrivalsOK(threads[id := p], epoch, arrivals)
  {
  }

  lemma ArrivalsWithout(threads: map<nat, Phase>, epoch: nat, arrivals: seq<Arrival>, id: nat)
    requires ArrivalsOK(threads, epoch, arrivals) && id in threads && !threads[id].Waiting?
    ensures ArrivalsOK(threads - {id}, epoch, arrivals)
  {
  }

  lemma ArrivalsWith(threads: map<nat, Phase>, epoch: nat, arrivals: seq<Arrival>, id: nat, summary: GCRootScanSummary)
    requires ArrivalsOK(threads, epoch, arrivals) && id in threads && !threads[id].Waiting?
    ensures ArrivalsOK(threads[id := Waiting(epoch, summary)], epoch, arrivals + [Arrival(id, summary)])
  {
    var after, list := threads[id := Waiting(epoch, summary)], arrivals + [Arrival(id, summary)];
    assert list[|arrivals|] == Arrival(id, summary);
    forall i | 0 <= i < |list|
      ensures ArrivedAs(after, epoch, list[i])
    {
      assert i < |arrivals| ==> ArrivedAs(threads, epoch, arrivals[i]);
    }
    forall x | x in after && after[x].Waiting? && after[x].epoch == epoch
      ensures Arrival(x, after[x].summary) in list
    {
      assert x != id ==> Arrival(x, threads[x].summary) in arrivals;
    }
    assert forall i :: 0 <= i < |arrivals| ==> ArrivedAs(threads, epoch, arrivals[i]) && list[i] == arrivals[i];
  }

  lemma OnlyOneLeft(s: System)
    requires CountersOK(s) && ArrivalsOK(s.threads, s.shared.gcCycleEpoch, s.arrivals)
    requires s.shared.activeMutatorCount <= 1 && s.arrivals != []
    ensures forall id :: id in s.threads ==> s.threads[id].Waiting?
  {
    assert ArrivedAs(s.threads, s.shared.gcCycleEpoch, s.arrivals[0]);
    var only := s.arrivals[0].id;
    assert only in s.threads.Keys && |s.threads.Keys - {only}| == 0;
  }

  lemma FreshEpoch(threads: map<nat, Phase>, epoch: nat, arrivals: seq<Arrival>)
    requires ArrivalsOK(threads, epoch, arrivals)
    ensures ArrivalsOK(threads, epoch + 1, [])
  {
  }

  ghost predicate SummaryOK(s: System) {
    s.shared.pendingRootSummary == AllSummaries(s.arrivals)
  }

  lemma ArrivalsKept(s: System, e: Event)
    requires ArrivalsOK(s.threads, s.shared.gcCycleEpoch, s.arrivals) && SummaryOK(s) && CountersOK(s) && Enabled(s, e)
    ensures ArrivalsOK(Next(s, e).threads, Next(s, e).shared.gcCycleEpoch, Next(s, e).arrivals) && SummaryOK(Next(s, e))
  {
    hide ArrivalsOK, CountersOK, Merge;
    var epoch := s.shared.gcCycleEpoch;
    assert s.shared.activeMutatorCount <= 1 && s.arrivals != [] ==> forall id :: id in s.threads ==> s.threads[id].Waiting? by {
      if s.shared.activeMutatorCount <= 1 && s.arrivals != [] { OnlyOneLeft(s); }
    }
    match e
    case Start(id) =>
      ArrivalsAfter(s.threads, epoch, s.arrivals, id, Starting);
    case ClearAtStart(id) =>
      ArrivalsAfter(s.threads, epoch, s.arrivals, id, Running);
    case Request(id) =>
      ArrivalsAfter(s.threads, epoch, s.arrivals, id, if s.shared.gcRequested then Running else Notifying);
    case Notify(id) =>
      ArrivalsAfter(s.threads, epoch, s.arrivals, id, Running);
    case Poll(id) =>
      ArrivalsAfter(s.threads, epoch, s.arrivals, id, Scanning);
    case Park(id, summary) =>
      ArrivalsWith(s.threads, epoch, s.arrivals, id, summary);
      assert (s.arrivals + [Arrival(id, summary)])[..|s.arrivals|] == s.arrivals;
    case Recheck(id) =>
      assert s.threads[id].epoch != epoch ==> ArrivalsOK(s.threads[id := Running], epoch, s.arrivals) by {
        if s.threads[id].epoch != epoch { ArrivalsAfter(s.threads, epoch, s.arrivals, id, Running); }
      }
    case Stop(id) =>
      ArrivalsWithout(s.threads, epoch, s.arrivals, id);
    case Vm =>
      FreshEpoch(s.threads, epoch, s.arrivals);
  }

  lemma RequestsKept(s: System, e: Event)
    requires RequestsOK(s) && CountersOK(s) && ArrivalsOK(s.threads, s.shared.gcCycleEpoch, s.arrivals) && Enabled(s, e)
    ensures RequestsOK(Next(s, e))
  {
    var t := Next(s, e);
    assert forall id :: ThreadIn(s.threads, id, Notifying) && e != Notify(id) ==> ThreadIn(t.threads, id, Notifying);
    match e
    case Request(id) =>
      assert s.shared.gcRequested || ThreadIn(t.threads, id, Notifying);
    case Stop(id) =>
      CountsWithout(s.threads, id);
    case Vm =>
      if Collects(s) { QuiescentAtCollection(s); }
    case _ =>
  }

  lemma SleepersKept(s: System, e: Event)
    requires SleepersOK(s) && Enabled(s, e)
    ensures SleepersOK(Next(s, e))
  {
  }

  /** Whenever a collection can run, every active mutator is inside the park section. */
  lemma QuiescentAtCollection(s: System)
    requires CountersOK(s) && Gathered(s.shared)
    ensures Inside(s.threads) == s.threads.Keys
  {
    assert Inside(s.threads) <= s.threads.Keys;
    assert |s.threads.Keys - Inside(s.threads)| == |s.threads.Keys| - |Inside(s.threads)|;
  }

  lemma {:induction false} SummariesGather(arrivals: seq<Arrival>)
    ensures Gathers(AllSummaries(arrivals), arrivals)
  {
    if arrivals != [] {
      var last := |arrivals| - 1;
      SummariesGather(arrivals[..last]);
      assert arrivals[..last] + [arrivals[last]] == arrivals;
      FirstSafepointGrows(arrivals[..last], arrivals[last]);
    }
  }

  lemma {:induction false} FirstSafepointGrows(arrivals: seq<Arrival>, last: Arrival)
    ensures FirstSafepoint(arrivals + [last]) ==
      if FirstSafepoint(arrivals) != 0 then FirstSafepoint(arrivals) else last.summary.safepointAddress
  {
    var all := arrivals + [last];
    if arrivals == [] {
      assert all[1..] == [];
    } else {
      assert all[1..] == arrivals[1..] + [last];
      FirstSafepointGrows(arrivals[1..], last);
    }
  }

  /** What a collection records is what its arrivals scanned, with the mutators it saw and its number. */
  lemma RecordedByCollection(s: System)
    requires Inv(s) && Collects(s)
    ensures var recorded := Next(s, Vm).shared.lastSummary;
      Gathers(recorded, s.arrivals) && recorded.mutatorCount == |s.threads| && recorded.gcCycle == |s.cycles| + 1
  {
    SummariesGather(s.arrivals);
    SameGathering(AllSummaries(s.arrivals), Next(s, Vm).shared.lastSummary, s.arrivals);
    hide Gathers, AllSummaries, ArrivalsOK, RequestsOK, SleepersOK, CycleOK;
  }

  lemma SameGathering(summary: GCRootScanSummary, recorded: GCRootScanSummary, arrivals: seq<Arrival>)
    requires Gathers(summary, arrivals) && recorded == summary.(mutatorCount := recorded.mutatorCount, gcCycle := recorded.gcCycle)
    ensures Gathers(recorded, arrivals)
  {
  }

  lemma CyclesKept(s: System, e: Event)
    requires Inv(s) && Enabled(s, e)
    ensures forall i :: 0 <= i < |Next(s, e).cycles| ==> CycleOK(Next(s, e).cycles[i])
  {
    if e == Vm && Collects(s) {
      QuiescentAtCollection(s);
      SummariesGather(s.arrivals);
      assert forall i :: 0 <= i < |s.arrivals| ==> ArrivedAs(s.threads, s.shared.gcCycleEpoch, s.arrivals[i]);
    }
  }

  lemma StepKeeps(s: System, e: Event)
    requires Inv(s) && Enabled(s, e)
    ensures Inv(Next(s, e))
  {
    CyclesKept(s, e);
    hide Next, CycleOK, CountersOK, ArrivalsOK, SummaryOK, RequestsOK, SleepersOK, Enabled;
    CountersKept(s, e);
    ArrivalsKept(s, e);
    RequestsKept(s, e);
    SleepersKept(s, e);
  }

  lemma {:induction false} RunKeeps(states: seq<System>, events: seq<Event>, i: nat)
    requires Run(states, events) && i < |states|
    ensures Inv(states[i])
  {
    if i != 0 {
      RunKeeps(states, events, i - 1);
      assert states[i - 1 + 1] == Next(states[i - 1], events[i - 1]);
      StepKeeps(states[i - 1], events[i - 1]);
    }
  }

  // ----- Safety and progress for any number of mutators -----

  /** In every run, each collection so far saw every active mutator inside the park section and was
      given the roots those of its epoch handed over; and the counters mean what they say. */
  lemma Quiescence(states: seq<System>, events: seq<Event>, i: nat)
    requires Run(states, events) && i < |states|
    ensures forall c :: c in states[i].cycles ==> c.inside == c.active != {} && c.roots == AllRoots(c.arrivals)
    ensures states[i].shared.completedGCCycleCount == states[i].shared.gcCycleEpoch == |states[i].cycles|
    ensures states[i].shared.parkedMutatorCount == |Inside(states[i].threads)| <= states[i].shared.activeMutatorCount == |states[i].threads|
    ensures Gathers(states[i].shared.pendingRootSummary, states[i].arrivals)
    ensures Collects(states[i]) ==>
      var recorded := Next(states[i], Vm).shared.lastSummary;
      && Gathers(recorded, states[i].arrivals)
      && recorded.mutatorCount == |states[i].threads| && recorded.gcCycle == |states[i].cycles| + 1
  {
    RunKeeps(states, events, i);
    SummariesGather(states[i].arrivals);
    if Collects(states[i]) { RecordedByCollection(states[i]); }
    assert Inside(states[i].threads) <= states[i].threads.Keys;
    assert |states[i].threads.Keys - Inside(states[i].threads)| == |states[i].threads.Keys| - |Inside(states[i].threads)|;
  }

  /** In no run does the collector thread loop without waiting: a request always has a mutator. */
  lemma NeverSpins(states: seq<System>, events: seq<Event>, i: nat)
    requires Run(states, events) && i < |states|
    ensures states[i].shared.gcPending ==> states[i].shared.activeMutatorCount != 0
    ensures CollectorStep(states[i].shared, states[i].vm) != CollectorOutcome(states[i].shared, states[i].vm, false)
  {
    RunKeeps(states, events, i);
  }

  /** No wake-up is lost: whoever's wait condition holds is awake, so its next section can run. */
  lemma NoLostWakeUp(states: seq<System>, events: seq<Event>, i: nat, id: nat)
    requires Run(states, events) && i < |states|
    ensures id in states[i].threads && states[i].threads[id].Waiting? && states[i].threads[id].epoch != states[i].shared.gcCycleEpoch ==>
      Enabled(states[i], Recheck(id)) && Next(states[i], Recheck(id)).threads[id] == Running
    ensures states[i].vm == Idle && states[i].shared.gcPending ==> Enabled(states[i], Vm)
    ensures states[i].vm == Gathering && Gathered(states[i].shared) ==> Enabled(states[i], Vm)
  {
    RunKeeps(states, events, i);
  }

  /** Once every active mutator is inside the park section and one of them is not released yet, the
      collector is awake and collects within two of its own steps. */
  lemma AllParkedMeansCollection(states: seq<System>, events: seq<Event>, i: nat, id: nat)
    requires Run(states, events) && i < |states| && Inside(states[i].threads) == states[i].threads.Keys
    requires id in states[i].threads && states[i].threads[id].Waiting? && states[i].threads[id].epoch == states[i].shared.gcCycleEpoch
    ensures Enabled(states[i], Vm)
    ensures Collects(states[i]) || Collects(Next(states[i], Vm))
  {
    RunKeeps(states, events, i);
    var s := states[i];
    assert id in Inside(s.threads);
    assert forall x :: x in s.threads ==> x in Inside(s.threads);
  }

  // ----- Root completeness -----

  /** Every active mutator has handed over its roots in this collection's own epoch. */
  ghost predicate Complete(c: Cycle) {
    forall id :: id in c.active ==> exists i :: 0 <= i < |c.arrivals| && c.arrivals[i].id == id
  }

  /** Released from an earlier collection, but not yet out of the park section. */
  predicate Lagging(s: System, id: nat) {
    id in s.threads && s.threads[id].Waiting? && s.threads[id].epoch != s.shared.gcCycleEpoch
  }

  /** A collection is given the roots of every active mutator iff no mutator lags. */
  lemma RootsCompleteIff(states: seq<System>, events: seq<Event>, i: nat)
    requires Run(states, events) && i < |states| && Collects(states[i])
    ensures |Next(states[i], Vm).cycles| == |states[i].cycles| + 1
    ensures Complete(Next(states[i], Vm).cycles[|states[i].cycles|]) <==> forall id :: !Lagging(states[i], id)
    ensures forall id :: id in states[i].threads && !Lagging(states[i], id) ==>
      states[i].threads[id].Waiting? && Arrival(id, states[i].threads[id].summary) in Next(states[i], Vm).cycles[|states[i].cycles|].arrivals
  {
    RunKeeps(states, events, i);
    var s := states[i];
    QuiescentAtCollection(s);
    assert forall id :: id in s.threads ==> id in Inside(s.threads);
    forall k | 0 <= k < |s.arrivals|
      ensures !Lagging(s, s.arrivals[k].id)
    {
      assert ArrivedAs(s.threads, s.shared.gcCycleEpoch, s.arrivals[k]);
    }
    forall id | id in s.threads && !Lagging(s, id)
      ensures exists k :: 0 <= k < |s.arrivals| && s.arrivals[k].id == id
    {
      var k :| 0 <= k < |s.arrivals| && s.arrivals[k] == Arrival(id, s.threads[id].summary);
    }
  }

  ghost predicate Reachable(s: System) {
    exists states, events :: Run(states, events) && states[|events|] == s
  }

  lemma StartIsReachable(s: System)
    requires Initial(s)
    ensures Reachable(s)
  {
    assert Run([s], []);
  }

  lemma Extended(states: seq<System>, events: seq<Event>, e: Event)
    requires Run(states, events) && Enabled(states[|events|], e)
    ensures Run(states + [Next(states[|events|], e)], events + [e])
  {
    var states', events' := states + [Next(states[|events|], e)], events + [e];
    hide Next, Initial, Enabled;
    forall i | 0 <= i < |events'|
      ensures Enabled(states'[i], events'[i]) && states'[i + 1] == Next(states'[i], events'[i])
    {
      assert i < |events| ==> Enabled(states[i], events[i]) && states[i + 1] == Next(states[i], events[i]);
    }
  }

  lemma StepIsReachable(s: System, e: Event)
    requires Reachable(s) && Enabled(s, e)
    ensures Reachable(Next(s, e))
  {
    var states, events :| Run(states, events) && states[|events|] == s;
    Extended(states, events, e);
    assert (states + [Next(s, e)])[|events + [e]|] == Next(s, e);
  }

  function OneRoot(root: nat): GCRootScanSummary {
    GCRootScanSummary(1, 1, 2, 1, 0, 0, [root])
  }

  /** Two mutators at work, no request outstanding. */
  lemma TwoStarted() returns (s: System)
    ensures Reachable(s)
    ensures s == System(Shared(2, 0, false, 0, 0, EmptySummary, false, EmptySummary), map[0 := Running, 1 := Running], {}, Idle, false, [], [])
  {
    var s0 := System(Shared(0, 0, false, 0, 0, EmptySummary, false, EmptySummary), map[], {}, Idle, false, [], []);
    StartIsReachable(s0);
    StepIsReachable(s0, Start(0));
    var s1 := Next(s0, Start(0));
    StepIsReachable(s1, ClearAtStart(0));
    var s2 := Next(s1, ClearAtStart(0));
    StepIsReachable(s2, Start(1));
    var s3 := Next(s2, Start(1));
    StepIsReachable(s3, ClearAtStart(1));
    s := Next(s3, ClearAtStart(1));
  }

  /** Mutator 0 asks for a collection and parks. */
  lemma ZeroRequestsAndParks(s: System, root: nat) returns (t: System)
    requires Reachable(s) && 0 in s.threads && s.threads[0] == Running && !s.shared.gcRequested
    ensures Reachable(t)
    ensures t == NotifyAll(s).(
      shared := s.shared.(gcRequested := true, gcPending := true, parkedMutatorCount := s.shared.parkedMutatorCount + 1,
                          pendingRootSummary := Merge(s.shared.pendingRootSummary, OneRoot(root))),
      threads := s.threads[0 := Waiting(s.shared.gcCycleEpoch, OneRoot(root))], sleeping := {0},
      arrivals := s.arrivals + [Arrival(0, OneRoot(root))])
  {
    StepIsReachable(s, Request(0));
    var s1 := Next(s, Request(0));
    StepIsReachable(s1, Notify(0));
    var s2 := Next(s1, Notify(0));
    StepIsReachable(s2, Poll(0));
    var s3 := Next(s2, Poll(0));
    StepIsReachable(s3, Park(0, OneRoot(root)));
    t := Next(s3, Park(0, OneRoot(root)));
  }

  /** Both mutators are parked for the first collection. */
  lemma BothParked(a: nat, b: nat) returns (s: System)
    ensures Reachable(s) && s.threads == map[0 := Waiting(0, OneRoot(a)), 1 := Waiting(0, OneRoot(b))]
    ensures s.shared.activeMutatorCount == 2 && s.shared.parkedMutatorCount == 2 && s.shared.gcCycleEpoch == 0
    ensures s.shared.gcPending && s.vm == Idle && !s.vmAsleep && s.cycles == []
  {
    var s0 := TwoStarted();
    var s1 := ZeroRequestsAndParks(s0, a);
    StepIsReachable(s1, Poll(1));
    var s2 := Next(s1, Poll(1));
    StepIsReachable(s2, Park(1, OneRoot(b)));
    s := Next(s2, Park(1, OneRoot(b)));
  }

  /** Both mutators are released from the first collection and about to leave the park section. */
  lemma BothReleased(a: nat, b: nat) returns (s: System)
    ensures Reachable(s) && s.threads == map[0 := Waiting(0, OneRoot(a)), 1 := Waiting(0, OneRoot(b))]
    ensures s.shared.activeMutatorCount == 2 && s.shared.parkedMutatorCount == 2 && s.shared.gcCycleEpoch == 1
    ensures !s.shared.gcRequested && !s.shared.gcPending && s.shared.pendingRootSummary == EmptySummary
    ensures s.sleeping == {} && s.arrivals == [] && s.vm == Idle && !s.vmAsleep && |s.cycles| == 1
  {
    var s3 := BothParked(a, b);
    StepIsReachable(s3, Vm);
    var s4 := Next(s3, Vm);
    StepIsReachable(s4, Vm);
    s := Next(s4, Vm);
  }

  /** With two mutators a collection can be given the roots of one of them only: mutator 1, released
      from the first collection but not yet out of the park section, is counted as parked again. */
  lemma LaggardLosesRoots(a: nat, b: nat) returns (s: System)
    requires a != b
    ensures Reachable(s) && Collects(s) && Inside(s.threads) == s.threads.Keys == {0, 1}
    ensures Lagging(s, 1) && s.threads[1].summary.rootValues == [b]
    ensures |Next(s, Vm).cycles| == 2 && Next(s, Vm).cycles[1].roots == [a] && !Complete(Next(s, Vm).cycles[1])
  {
    var s5 := BothReleased(a, b);
    StepIsReachable(s5, Recheck(0));
    var s6 := Next(s5, Recheck(0));
    var s7 := ZeroRequestsAndParks(s6, a);
    StepIsReachable(s7, Vm);
    s := Next(s7, Vm);
    assert s.shared.pendingRootSummary.rootValues == [a];
    assert s.arrivals == [Arrival(0, OneRoot(a))];
    assert s.threads.Keys == {0, 1};
  }

  // ----- The single mutator the runtime starts -----

  predicate OfMutatorZero(e: Event) {
    match e
    case Vm => true
    case Start(id) => id == 0
    case ClearAtStart(id) => id == 0
    case Request(id) => id == 0
    case Notify(id) => id == 0
    case Poll(id) => id == 0
    case Park(id, _) => id == 0
    case Recheck(id) => id == 0
    case Stop(id) => id == 0
  }

  ghost predicate SingleRun(states: seq<System>, events: seq<Event>) {
    Run(states, events) && forall i :: 0 <= i < |events| ==> OfMutatorZero(events[i])
  }

  /** A lagging mutator is the only one, so nobody can have asked for another collection. */
  predicate SingleOK(s: System) {
    && s.threads.Keys <= {0}
    && (Lagging(s, 0) ==> !s.shared.gcPending && s.vm == Idle)
    && forall i :: 0 <= i < |s.cycles| ==> |s.cycles[i].arrivals| == 1
  }

  lemma SingleStepKeeps(s: System, e: Event)
    requires Inv(s) && SingleOK(s) && Enabled(s, e) && OfMutatorZero(e)
    ensures SingleOK(Next(s, e))
  {
    if e == Vm && Collects(s) {
      SingleCollection(s);
    }
  }

  lemma FirstTwoDiffer(threads: map<nat, Phase>, epoch: nat, arrivals: seq<Arrival>)
    requires ArrivalsOK(threads, epoch, arrivals)
    ensures |arrivals| > 1 ==> arrivals[0].id != arrivals[1].id
  {
  }

  lemma SingleCollection(s: System)
    requires Inv(s) && SingleOK(s) && Collects(s)
    ensures 0 in s.threads && s.threads[0].Waiting? && s.threads[0].epoch == s.shared.gcCycleEpoch
    ensures s.arrivals == [Arrival(0, s.threads[0].summary)]
    ensures s.shared.pendingRootSummary.rootValues == s.threads[0].summary.rootValues
  {
    QuiescentAtCollection(s);
    assert s.threads.Keys == {0};
    assert 0 in Inside(s.threads);
    FirstTwoDiffer(s.threads, s.shared.gcCycleEpoch, s.arrivals);
    forall i | 0 <= i < |s.arrivals|
      ensures s.arrivals[i] == Arrival(0, s.threads[0].summary)
    {
      assert ArrivedAs(s.threads, s.shared.gcCycleEpoch, s.arrivals[i]);
    }
    assert AllSummaries(s.arrivals[..|s.arrivals| - 1]) == EmptySummary;
  }

  lemma {:induction false} SingleRunKeeps(states: seq<System>, events: seq<Event>, i: nat)
    requires SingleRun(states, events) && i < |states|
    ensures Inv(states[i]) && SingleOK(states[i])
  {
    RunKeeps(states, events, i);
    if i != 0 {
      SingleRunKeeps(states, events, i - 1);
      assert states[i - 1 + 1] == Next(states[i - 1], events[i - 1]);
      SingleStepKeeps(states[i - 1], events[i - 1]);
    }
  }

  /** With one mutator every collection is given exactly the roots that mutator has just scanned. */
  lemma SingleMutatorRoots(states: seq<System>, events: seq<Event>, i: nat)
    requires SingleRun(states, events) && i < |states| && Collects(states[i])
    ensures 0 in states[i].threads && states[i].threads[0].Waiting?
    ensures Next(states[i], Vm).cycles == states[i].cycles +
      [Cycle({0}, {0}, [Arrival(0, states[i].threads[0].summary)], states[i].threads[0].summary.rootValues)]
    ensures Next(states[i], Vm).shared.lastSummary.rootValues == states[i].threads[0].summary.rootValues
  {
    SingleRunKeeps(states, events, i);
    SingleCollection(states[i]);
    QuiescentAtCollection(states[i]);
    assert states[i].threads.Keys == {0};
  }

  /** A pending collection has a mutator to wait for, and a request that a poll sees is pending. */
  lemma SingleMutatorRequests(states: seq<System>, events: seq<Event>, i: nat)
    requires SingleRun(states, events) && i < |states|
    ensures states[i].shared.gcPending ==> states[i].shared.activeMutatorCount == 1
    ensures Enabled(states[i], Poll(0)) ==> states[i].shared.gcPending
  {
    SingleRunKeeps(states, events, i);
    assert states[i].threads.Keys <= {0};
    assert |{0} - states[i].threads.Keys| == 1 - |states[i].threads.Keys|;
  }

  /** How many more steps of any kind a parked mutator can see before it is out again. */
  function StepsToRelease(s: System): nat {
    var collector := if s.vmAsleep then 0 else 1;
    var awake := if 0 in s.sleeping then 0 else 1;
    if Lagging(s, 0) then 1 + collector
    else 3 + (if s.vm == Idle then 1 else 0) + awake
  }

  /** A parked mutator is released: some step is always possible, and every step either lets it out
      or brings that nearer, so it is out after at most five. */
  lemma ParkedIsReleased(states: seq<System>, events: seq<Event>, i: nat)
    requires SingleRun(states, events) && i < |events| && 0 in states[i].threads && states[i].threads[0].Waiting?
    ensures Enabled(states[i], Vm) || Enabled(states[i], Recheck(0))
    ensures StepsToRelease(states[i]) <= 5
    ensures (0 in states[i + 1].threads && states[i + 1].threads[0] == Running) ||
      (0 in states[i + 1].threads && states[i + 1].threads[0] == states[i].threads[0] && StepsToRelease(states[i + 1]) < StepsToRelease(states[i]))
  {
    SingleRunKeeps(states, events, i);
    var s := states[i];
    assert states[i + 1] == Next(s, events[i]) && OfMutatorZero(events[i]);
    assert s.threads.Keys == {0} && Inside(s.threads) == {0} && |{0}| == 1;
    assert !Lagging(s, 0) ==> s.shared.gcPending && Gathered(s.shared);
  }
}
