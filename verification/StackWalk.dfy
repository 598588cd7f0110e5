/** Finding the roots: the stack-map registry and the walk over the frames of a stopped mutator. */
module StackWalk {
  import opened Wrappers
  import opened MachineWords
  import opened HeapModel
  import opened Safepoints

  datatype LocationKind = RegisterLocation | DirectLocation | IndirectLocation | ConstantLocation

  datatype GCRootLocation = GCRootLocation(kind: LocationKind, dwarfRegister: nat, offset: int, size: nat, constant: Word)

  datatype GCRootLocationPair = GCRootLocationPair(base: GCRootLocation, derived: GCRootLocation)

  datatype SafepointRecord = SafepointRecord(id: nat, instructionAddress: Word, rootPairs: seq<GCRootLocationPair>)

  datatype Result<T> = Ok(value: T) | Err(message: string) {
    function GetOr(default: T): T { if Ok? then value else default }
  }

  const RBP_REGISTER: nat := 6
  const RSP_REGISTER: nat := 7
  const MAX_MANAGED_FRAME_DEPTH: nat := 256
  const MAX_RETURN_ADDRESS_DISTANCE: nat := 4096
  const MAX_START_FRAME_PROBE_DEPTH: nat := 8

  function Offset(base: Word, offset: int): Word {
    (base + offset) % WORD_LIMIT
  }

  // ----- One location, one frame -----

  function ResolveRegister(dwarfRegister: nat, sp: Word, bp: Word): Result<Word> {
    if dwarfRegister == RSP_REGISTER then Ok(sp)
    else if dwarfRegister == RBP_REGISTER then Ok(bp)
    else Err("unsupported DWARF register")
  }

  /** resolveRootValue. */
  function ResolveRootValue(location: GCRootLocation, sp: Word, bp: Word, stack: map<nat, Word>): Result<Word> {
    if location.kind != ConstantLocation && location.size != WORD_BYTES then Err("expected pointer-sized locations")
    else
      match location.kind
      case ConstantLocation => Ok(location.constant)
      case RegisterLocation => ResolveRegister(location.dwarfRegister, sp, bp)
      case DirectLocation =>
        var base := ResolveRegister(location.dwarfRegister, sp, bp);
        if base.Ok? then Ok(Offset(base.value, location.offset)) else base
      case IndirectLocation =>
        var base := ResolveRegister(location.dwarfRegister, sp, bp);
        if base.Ok? then Ok(Load(stack, Offset(base.value, location.offset))) else base
  }

  /** A managed activation as the walk sees it. */
  datatype StackFrame = StackFrame(record: SafepointRecord, sp: Word, bp: Word)

  /** The locations of a frame, base before derived. */
  function Locations(pairs: seq<GCRootLocationPair>): seq<GCRootLocation> {
    if pairs == [] then [] else Locations(pairs[..|pairs| - 1]) + [pairs[|pairs| - 1].base, pairs[|pairs| - 1].derived]
  }

  /** A constant, or eight bytes found by way of the stack pointer (DWARF register 7) or the frame
      pointer (6). */
  predicate IsTracked(location: GCRootLocation) {
    location.kind == ConstantLocation || (location.size == 8 && (location.dwarfRegister == 6 || location.dwarfRegister == 7))
  }

  /** The word the stack map says lies at a location of a frame. */
  predicate LocationHolds(location: GCRootLocation, frame: StackFrame, stack: map<nat, Word>, value: Word) {
    IsTracked(location) &&
    var register := if location.dwarfRegister == 7 then frame.sp else frame.bp;
    var there := (register + location.offset) % 0x1_0000_0000_0000_0000;
    match location.kind
    case ConstantLocation => value == location.constant
    case RegisterLocation => value == register
    case DirectLocation => value == there
    case IndirectLocation => value == if there in stack then stack[there] else 0
  }

  /** A location is resolved to the word it holds; it is an error exactly when it is not tracked. */
  lemma ResolvesToWhatItHolds(location: GCRootLocation, frame: StackFrame, stack: map<nat, Word>, value: Word)
    ensures ResolveRootValue(location, frame.sp, frame.bp, stack) == Ok(value) <==> LocationHolds(location, frame, stack, value)
    ensures ResolveRootValue(location, frame.sp, frame.bp, stack).Ok? <==> IsTracked(location)
  {
  }

  /** Every location of the frame can be resolved. */
  predicate Readable(frame: StackFrame) {
    forall k :: 0 <= k < |frame.record.rootPairs| ==> IsTracked(frame.record.rootPairs[k].base) && IsTracked(frame.record.rootPairs[k].derived)
  }

  /** The words the locations of a frame hold, base before derived. */
  ghost predicate FrameHolds(frame: StackFrame, stack: map<nat, Word>, values: seq<Word>) {
    && |values| == 2 * |frame.record.rootPairs|
    && forall k :: 0 <= k < |frame.record.rootPairs| ==>
         && LocationHolds(frame.record.rootPairs[k].base, frame, stack, values[2 * k])
         && LocationHolds(frame.record.rootPairs[k].derived, frame, stack, values[2 * k + 1])
  }

  function NonNull(values: seq<Word>): seq<nat> {
    if values == [] then [] else NonNull(values[..|values| - 1]) + if values[|values| - 1] == 0 then [] else [values[|values| - 1]]
  }

  /** The references among the locations: their values, without the null ones. */
  function References(locations: seq<GCRootLocation>, frame: StackFrame, stack: map<nat, Word>): seq<nat> {
    if locations == [] then []
    else
      var last := ResolveRootValue(locations[|locations| - 1], frame.sp, frame.bp, stack);
      References(locations[..|locations| - 1], frame, stack) + if last.Ok? && last.value != 0 then [last.value] else []
  }

  function FrameRoots(frame: StackFrame, stack: map<nat, Word>): seq<nat> {
    References(Locations(frame.record.rootPairs), frame, stack)
  }

  /** All frames' references, innermost frame first. */
  function StackRoots(frames: seq<StackFrame>, stack: map<nat, Word>): seq<nat> {
    if frames == [] then [] else StackRoots(frames[..|frames| - 1], stack) + FrameRoots(frames[|frames| - 1], stack)
  }

  function PairCount(frames: seq<StackFrame>): nat {
    if frames == [] then 0 else PairCount(frames[..|frames| - 1]) + |frames[|frames| - 1].record.rootPairs|
  }

  /** The instruction address of the first frame that has one. */
  function FirstAddress(frames: seq<StackFrame>): nat {
    if frames == [] then 0
    else
      var earlier := FirstAddress(frames[..|frames| - 1]);
      if earlier == 0 then frames[|frames| - 1].record.instructionAddress else earlier
  }

  /** What a scan of these frames should report. */
  function SummaryOf(frames: seq<StackFrame>, stack: map<nat, Word>): GCRootScanSummary {
    GCRootScanSummary(FirstAddress(frames), PairCount(frames), 2 * PairCount(frames), |StackRoots(frames, stack)|, 0, 0, StackRoots(frames, stack))
  }

  // ----- Looking up records -----

  /** The first record at exactly this address. */
  function ExactRecord(records: seq<SafepointRecord>, address: Word): Option<SafepointRecord> {
    if records == [] then None
    else if records[0].instructionAddress == address then Some(records[0])
    else ExactRecord(records[1..], address)
  }

  function RecordById(records: seq<SafepointRecord>, id: nat): Option<SafepointRecord> {
    if records == [] then None
    else if records[0].id == id then Some(records[0])
    else RecordById(records[1..], id)
  }

  /** The closest record at or below this address, the first of several equally close. */
  function ClosestBelow(records: seq<SafepointRecord>, address: Word): Option<SafepointRecord> {
    if records == [] then None
    else
      var last := records[|records| - 1];
      var best := ClosestBelow(records[..|records| - 1], address);
      if last.instructionAddress > address then best
      else if best.None? || address - last.instructionAddress < address - best.value.instructionAddress then Some(last)
      else best
  }

  function NearbyRecord(records: seq<SafepointRecord>, address: Word): Option<SafepointRecord> {
    var best := ClosestBelow(records, address);
    if best.Some? && address - best.value.instructionAddress <= MAX_RETURN_ADDRESS_DISTANCE then best else None
  }

  function Lookup(records: seq<SafepointRecord>, address: Word): Option<SafepointRecord> {
    var exact := ExactRecord(records, address);
    if exact.Some? then exact else NearbyRecord(records, address)
  }

  lemma {:induction false} ClosestBelowIsClosest(records: seq<SafepointRecord>, address: Word)
    ensures ClosestBelow(records, address).None? <==> forall k :: 0 <= k < |records| ==> records[k].instructionAddress > address
    ensures ClosestBelow(records, address).Some? ==>
      var best := ClosestBelow(records, address).value;
      && best.instructionAddress <= address
      && (exists n :: 0 <= n < |records| && records[n] == best
            && forall j :: 0 <= j < n ==> records[j].instructionAddress > address || records[j].instructionAddress < best.instructionAddress)
      && forall k :: 0 <= k < |records| && records[k].instructionAddress <= address ==> records[k].instructionAddress <= best.instructionAddress
  {
    if records != [] {
      var front := records[..|records| - 1];
      ClosestBelowIsClosest(front, address);
      assert forall k :: 0 <= k < |front| ==> front[k] == records[k];
    }
  }

  /** No record is found by distance exactly when none lies within 4096 bytes below the address. */
  lemma NearbyRecordIff(records: seq<SafepointRecord>, address: Word)
    ensures NearbyRecord(records, address).None? <==>
      forall k :: 0 <= k < |records| ==> records[k].instructionAddress > address || address - records[k].instructionAddress > 4096
  {
    ClosestBelowIsClosest(records, address);
    hide ClosestBelow;
    if ClosestBelow(records, address).Some? {
      var best := ClosestBelow(records, address).value;
      var k :| 0 <= k < |records| && records[k] == best;
    }
  }

  lemma {:induction false} ExactRecordIff(records: seq<SafepointRecord>, address: Word)
    ensures ExactRecord(records, address).None? <==> forall k :: 0 <= k < |records| ==> records[k].instructionAddress != address
    ensures ExactRecord(records, address).Some? ==>
      exists k :: 0 <= k < |records| && records[k] == ExactRecord(records, address).value && records[k].instructionAddress == address
                  && forall j :: 0 <= j < k ==> records[j].instructionAddress != address
  {
    if records != [] {
      ExactRecordIff(records[1..], address);
      assert forall k :: 0 < k < |records| ==> records[1..][k - 1] == records[k];
    }
  }

  /** A lookup by id finds the first record with that id, and fails exactly when there is none. */
  lemma {:induction false} RecordByIdIff(records: seq<SafepointRecord>, id: nat)
    ensures RecordById(records, id).None? <==> forall k :: 0 <= k < |records| ==> records[k].id != id
    ensures RecordById(records, id).Some? ==>
      exists k :: 0 <= k < |records| && records[k] == RecordById(records, id).value && records[k].id == id && forall j :: 0 <= j < k ==> records[j].id != id
  {
    if records != [] {
      RecordByIdIff(records[1..], id);
      assert forall k :: 0 < k < |records| ==> records[1..][k - 1] == records[k];
      if records[0].id != id && RecordById(records, id).Some? {
        var rest := records[1..];
        var k :| 0 <= k < |rest| && rest[k] == RecordById(rest, id).value && rest[k].id == id && forall j :: 0 <= j < k ==> rest[j].id != id;
        assert records[k + 1] == rest[k];
        assert forall j :: 0 < j < k + 1 ==> records[j] == rest[j - 1];
      }
    }
  }

  // ----- The frames the walk visits -----

  /** The callers found by following saved frame pointers, at most `budget` of them. */
  function Callers(records: seq<SafepointRecord>, stack: map<nat, Word>, framePointer: Word, budget: nat): seq<StackFrame>
    decreases budget
  {
    if framePointer == 0 || budget == 0 then []
    else
      var nextFramePointer := Load(stack, framePointer);
      var returnAddress := Load(stack, Offset(framePointer, WORD_BYTES));
      var record := Lookup(records, returnAddress);
      if returnAddress == 0 || record.None? then []
      else [StackFrame(record.value, Offset(framePointer, 2 * WORD_BYTES), nextFramePointer)] + Callers(records, stack, nextFramePointer, budget - 1)
  }

  /** How the stack really is: below the frame with this frame pointer lie activations that return
      to the given managed safepoints, each with its own frame pointer, and then native code, whose
      return address no record lies near, or the end of the chain. */
  ghost predicate StackHolds(records: seq<SafepointRecord>, stack: map<nat, Word>, framePointer: Word, callers: seq<StackFrame>)
    decreases |callers|
  {
    if callers == [] then ChainEnds(records, stack, framePointer)
    else
      && framePointer != 0
      && callers[0].sp == (framePointer + 16) % 0x1_0000_0000_0000_0000 && callers[0].bp == Load(stack, framePointer)
      && Load(stack, (framePointer + 8) % 0x1_0000_0000_0000_0000) == callers[0].record.instructionAddress != 0
      && ExactRecord(records, callers[0].record.instructionAddress) == Some(callers[0].record)
      && StackHolds(records, stack, callers[0].bp, callers[1..])
  }

  ghost predicate ChainEnds(records: seq<SafepointRecord>, stack: map<nat, Word>, framePointer: Word) {
    || framePointer == 0
    || Load(stack, (framePointer + 8) % 0x1_0000_0000_0000_0000) == 0
    || forall k :: 0 <= k < |records| ==>
         var address := Load(stack, (framePointer + 8) % 0x1_0000_0000_0000_0000);
         records[k].instructionAddress > address || address - records[k].instructionAddress > 4096
  }

  lemma EndIsSeen(records: seq<SafepointRecord>, stack: map<nat, Word>, framePointer: Word, budget: nat)
    requires ChainEnds(records, stack, framePointer)
    ensures Callers(records, stack, framePointer, budget) == []
  {
    var address := Load(stack, Offset(framePointer, WORD_BYTES));
    NearbyRecordIff(records, address);
    ExactRecordIff(records, address);
    hide ExactRecord, NearbyRecord;
  }

  function Shorter(a: nat, b: nat): nat {
    if a < b then a else b
  }

  /** The walk visits the real callers, as many as its budget allows. */
  lemma {:induction false} CallersAreFound(records: seq<SafepointRecord>, stack: map<nat, Word>, framePointer: Word, callers: seq<StackFrame>, budget: nat)
    requires StackHolds(records, stack, framePointer, callers)
    ensures Callers(records, stack, framePointer, budget) == callers[..Shorter(|callers|, budget)]
    decreases budget
  {
    if callers == [] {
      EndIsSeen(records, stack, framePointer, budget);
    } else if budget != 0 {
      CallersAreFound(records, stack, callers[0].bp, callers[1..], budget - 1);
      hide ExactRecord, NearbyRecord;
      assert callers == [callers[0]] + callers[1..];
    }
  }

  /** All callers are scanned iff there are at most 256 of them. */
  lemma WholeStackIff(records: seq<SafepointRecord>, stack: map<nat, Word>, framePointer: Word, callers: seq<StackFrame>)
    requires StackHolds(records, stack, framePointer, callers)
    ensures Callers(records, stack, framePointer, MAX_MANAGED_FRAME_DEPTH) == callers <==> |callers| <= 256
  {
    CallersAreFound(records, stack, framePointer, callers, MAX_MANAGED_FRAME_DEPTH);
    hide Callers, StackHolds;
    if |callers| <= MAX_MANAGED_FRAME_DEPTH { assert callers[..|callers|] == callers; }
  }

  // A chain of activations that all return to one safepoint, 16 bytes of stack each.

  const Returns: SafepointRecord := SafepointRecord(1, 100, [])

  function DeepStack(depth: nat): map<nat, Word>
    requires 16 * depth + 16 < WORD_LIMIT
  {
    if depth == 0 then map[] else DeepStack(depth - 1)[16 * depth := 16 * (depth - 1)][16 * depth + 8 := 100]
  }

  function DeepCallers(depth: nat): (callers: seq<StackFrame>)
    requires 16 * depth + 16 < WORD_LIMIT
    ensures |callers| == depth
  {
    if depth == 0 then [] else [StackFrame(Returns, 16 * depth + 16, 16 * (depth - 1))] + DeepCallers(depth - 1)
  }

  lemma {:induction false} DeepStackAt(depth: nat, k: nat)
    requires 16 * depth + 16 < WORD_LIMIT && 0 < k <= depth
    ensures Load(DeepStack(depth), 16 * k) == 16 * (k - 1) && Load(DeepStack(depth), 16 * k + 8) == 100
  {
    if k < depth { DeepStackAt(depth - 1, k); }
  }

  lemma {:induction false} DeepStackHolds(depth: nat, k: nat)
    requires 16 * depth + 16 < WORD_LIMIT && k <= depth
    ensures StackHolds([Returns], DeepStack(depth), 16 * k, DeepCallers(k))
  {
    hide StackHolds, DeepStack, Load;
    if k == 0 {
      EndOfDeepStack(depth);
    } else {
      DeepStackHolds(depth, k - 1);
      DeepStackAt(depth, k);
      OneMoreCaller([Returns], DeepStack(depth), 16 * k, StackFrame(Returns, 16 * k + 16, 16 * (k - 1)), DeepCallers(k - 1));
    }
  }

  lemma EndOfDeepStack(depth: nat)
    requires 16 * depth + 16 < WORD_LIMIT
    ensures StackHolds([Returns], DeepStack(depth), 0, [])
  {
    hide DeepStack, Load;
  }

  lemma OneMoreCaller(records: seq<SafepointRecord>, stack: map<nat, Word>, framePointer: Word, frame: StackFrame, callers: seq<StackFrame>)
    requires framePointer != 0 && frame.sp == Offset(framePointer, 2 * WORD_BYTES) && frame.bp == Load(stack, framePointer)
    requires Load(stack, Offset(framePointer, WORD_BYTES)) == frame.record.instructionAddress != 0
    requires ExactRecord(records, frame.record.instructionAddress) == Some(frame.record) && StackHolds(records, stack, frame.bp, callers)
    ensures StackHolds(records, stack, framePointer, [frame] + callers)
  {
    hide Load, ExactRecord;
    assert ([frame] + callers)[1..] == callers;
  }

  /** There are such stacks of any depth that fits in memory; the walk visits the first 256 callers of
      one and leaves out all the rest. */
  lemma DeepStackIsCut(depth: nat)
    requires 256 < depth && 16 * depth + 16 < WORD_LIMIT
    ensures StackHolds([Returns], DeepStack(depth), 16 * depth, DeepCallers(depth)) && |DeepCallers(depth)| == depth
    ensures Callers([Returns], DeepStack(depth), 16 * depth, MAX_MANAGED_FRAME_DEPTH) == DeepCallers(depth)[..256]
  {
    DeepStackHolds(depth, depth);
    CallersAreFound([Returns], DeepStack(depth), 16 * depth, DeepCallers(depth), MAX_MANAGED_FRAME_DEPTH);
    hide Callers, StackHolds, DeepStack, DeepCallers;
  }

  // ----- Any stack -----

  /** A waiting activation, managed or native: where it returns to, and its own registers. */
  datatype Activation = Activation(returnAddress: Word, sp: Word, bp: Word)

  /** Below the frame with this frame pointer lie exactly these activations. */
  ghost predicate ChainHolds(stack: map<nat, Word>, framePointer: Word, chain: seq<Activation>)
    decreases |chain|
  {
    if chain == [] then framePointer == 0 || Load(stack, (framePointer + 8) % 0x1_0000_0000_0000_0000) == 0
    else
      && framePointer != 0 && chain[0].returnAddress == Load(stack, (framePointer + 8) % 0x1_0000_0000_0000_0000) != 0
      && chain[0].sp == (framePointer + 16) % 0x1_0000_0000_0000_0000 && chain[0].bp == Load(stack, framePointer)
      && ChainHolds(stack, chain[0].bp, chain[1..])
  }

  /** How many activations come before the first one whose return address lies near no record. */
  function Recorded(records: seq<SafepointRecord>, chain: seq<Activation>): (n: nat)
    ensures n <= |chain|
  {
    if chain == [] || Lookup(records, chain[0].returnAddress).None? then 0 else 1 + Recorded(records, chain[1..])
  }

  lemma {:induction false} RecordedAt(records: seq<SafepointRecord>, chain: seq<Activation>, k: nat)
    requires k < |chain|
    ensures k < Recorded(records, chain) ==> Lookup(records, chain[k].returnAddress).Some?
    ensures k == Recorded(records, chain) ==> Lookup(records, chain[k].returnAddress).None?
  {
    if k != 0 && Lookup(records, chain[0].returnAddress).Some? { RecordedAt(records, chain[1..], k - 1); }
  }

  function FrameFor(records: seq<SafepointRecord>, x: Activation): StackFrame
    requires Lookup(records, x.returnAddress).Some?
  {
    StackFrame(Lookup(records, x.returnAddress).value, x.sp, x.bp)
  }

  /** On any stack the walk reports just these activations, up to 256 of them, native or not, each as a
      frame of the record its return address lies near. */
  lemma {:induction false} WalkReports(records: seq<SafepointRecord>, stack: map<nat, Word>, framePointer: Word, chain: seq<Activation>, budget: nat)
    requires ChainHolds(stack, framePointer, chain)
    ensures var callers := Callers(records, stack, framePointer, budget);
      && |callers| == Shorter(Recorded(records, chain), budget)
      && forall k :: 0 <= k < |callers| ==> Lookup(records, chain[k].returnAddress).Some? && callers[k] == FrameFor(records, chain[k])
    decreases budget
  {
    hide Lookup, Load;
    if chain != [] && budget != 0 && Lookup(records, chain[0].returnAddress).Some? {
      WalkReports(records, stack, chain[0].bp, chain[1..], budget - 1);
      var callers := Callers(records, stack, framePointer, budget);
      assert callers == [FrameFor(records, chain[0])] + Callers(records, stack, chain[0].bp, budget - 1);
    }
  }

  /** The activation returns to a managed safepoint. */
  predicate IsManaged(records: seq<SafepointRecord>, x: Activation) {
    ExactRecord(records, x.returnAddress).Some?
  }

  /** The first n activations are the managed ones, and the next one returns to no address near a record. */
  ghost predicate ManagedFirst(records: seq<SafepointRecord>, chain: seq<Activation>, n: nat) {
    && n <= |chain| && (forall k :: 0 <= k < |chain| ==> (k < n <==> IsManaged(records, chain[k])))
    && (n < |chain| ==> NearbyRecord(records, chain[n].returnAddress).None?)
  }

  /** The walk takes exactly the managed activations for managed frames iff they all come before the
      native ones, the first of which returns to no address near a record. */
  lemma ManagedAreReportedIff(records: seq<SafepointRecord>, chain: seq<Activation>)
    ensures (forall k :: 0 <= k < |chain| ==> (k < Recorded(records, chain) <==> IsManaged(records, chain[k]))) <==>
      exists n: nat :: ManagedFirst(records, chain, n)
  {
    hide ExactRecord, NearbyRecord, Recorded;
    var r := Recorded(records, chain);
    if r < |chain| { RecordedAt(records, chain, r); }
    if forall k :: 0 <= k < |chain| ==> (k < r <==> IsManaged(records, chain[k])) {
      assert ManagedFirst(records, chain, r);
    }
    if n: nat :| ManagedFirst(records, chain, n) {
      if n < r { RecordedAt(records, chain, n); }
      assert n == r;
    }
  }

  lemma ReturnsLookup(address: Word)
    ensures Lookup([Returns], address) == if 100 <= address <= 100 + 4096 then Some(Returns) else None
  {
    var one := [Returns];
    assert one[1..] == [] && ExactRecord([], address) == None;
    assert ExactRecord(one, address) == if address == 100 then Some(Returns) else None;
    assert one[..0] == [] && one[|one| - 1] == Returns && ClosestBelow([], address) == None;
    assert ClosestBelow(one, address) == if 100 <= address then Some(Returns) else None;
  }

  /** A native caller that returns eight bytes behind a safepoint is reported as a managed frame. */
  lemma NativeIsReported()
    ensures var stack: map<nat, Word> := map[16 := 0, 24 := 108];
      && ChainHolds(stack, 16, [Activation(108, 32, 0)]) && !IsManaged([Returns], Activation(108, 32, 0))
      && Callers([Returns], stack, 16, MAX_MANAGED_FRAME_DEPTH) == [StackFrame(Returns, 32, 0)]
  {
    var stack: map<nat, Word> := map[16 := 0, 24 := 108];
    ReturnsLookup(108);
    hide Lookup;
    assert ChainHolds(stack, 0, [Activation(108, 32, 0)][1..]);
    assert [Returns][1..] == [] && ExactRecord([], 108) == None;
    assert ExactRecord([Returns], 108) == None;
  }

  /** A managed caller below a native one is not reported. */
  lemma ManagedIsMissed()
    ensures var stack: map<nat, Word> := map[16 := 32, 24 := 9000, 32 := 0, 40 := 100];
      && ChainHolds(stack, 16, [Activation(9000, 32, 32), Activation(100, 48, 0)]) && IsManaged([Returns], Activation(100, 48, 0))
      && Callers([Returns], stack, 16, MAX_MANAGED_FRAME_DEPTH) == []
  {
    var stack: map<nat, Word> := map[16 := 32, 24 := 9000, 32 := 0, 40 := 100];
    var chain := [Activation(9000, 32, 32), Activation(100, 48, 0)];
    ReturnsLookup(9000);
    hide Lookup;
    assert chain[1..] == [chain[1]] && chain[1..][1..] == [];
    assert ChainHolds(stack, 32, chain[1..]);
  }

  // ----- Summaries grow frame by frame -----

  lemma CallersStop(records: seq<SafepointRecord>, stack: map<nat, Word>, framePointer: Word, budget: nat)
    ensures var address := Load(stack, Offset(framePointer, WORD_BYTES));
      framePointer == 0 || budget == 0 || address == 0 || Lookup(records, address).None? ==> Callers(records, stack, framePointer, budget) == []
  {
  }

  lemma {:induction false} CallersSplit(records: seq<SafepointRecord>, stack: map<nat, Word>, framePointer: Word, budget: nat)
    requires budget > 0 && framePointer != 0
    requires var address := Load(stack, Offset(framePointer, WORD_BYTES)); address != 0 && Lookup(records, address).Some?
    ensures var address := Load(stack, Offset(framePointer, WORD_BYTES));
      Callers(records, stack, framePointer, budget) ==
        [StackFrame(Lookup(records, address).value, Offset(framePointer, 2 * WORD_BYTES), Load(stack, framePointer))]
        + Callers(records, stack, Load(stack, framePointer), budget - 1)
  {
  }

  lemma SummaryGrows(frames: seq<StackFrame>, frame: StackFrame, stack: map<nat, Word>)
    ensures FirstAddress(frames + [frame]) == if FirstAddress(frames) == 0 then frame.record.instructionAddress else FirstAddress(frames)
    ensures PairCount(frames + [frame]) == PairCount(frames) + |frame.record.rootPairs|
    ensures StackRoots(frames + [frame], stack) == StackRoots(frames, stack) + FrameRoots(frame, stack)
  {
    assert (frames + [frame])[..|frames|] == frames;
  }

  ghost predicate AllReadable(frames: seq<StackFrame>) {
    forall k :: 0 <= k < |frames| ==> Readable(frames[k])
  }

  class GCStackMapRegistry {
    var safepoints: seq<SafepointRecord>

    method FindSafepointRecord(address: Word) returns (record: Option<SafepointRecord>)
      ensures record == ExactRecord(safepoints, address)
    {
      for k := 0 to |safepoints|
        invariant ExactRecord(safepoints, address) == ExactRecord(safepoints[k..], address)
      {
        assert safepoints[k..][1..] == safepoints[k + 1..];
        if safepoints[k].instructionAddress == address {
          return Some(safepoints[k]);
        }
      }
      return None;
    }

    method FindSafepointRecordForReturnAddress(address: Word) returns (record: Option<SafepointRecord>)
      ensures record == NearbyRecord(safepoints, address)
    {
      var best: Option<SafepointRecord>, bestDistance := None, 0;
      for k := 0 to |safepoints|
        invariant best == ClosestBelow(safepoints[..k], address)
        invariant best.Some? ==> best.value.instructionAddress <= address && bestDistance == address - best.value.instructionAddress
      {
        assert safepoints[..k + 1][..k] == safepoints[..k];
        if safepoints[k].instructionAddress <= address {
          var distance := address - safepoints[k].instructionAddress;
          if best.None? || distance < bestDistance {
            best, bestDistance := Some(safepoints[k]), distance;
          }
        }
      }
      assert safepoints[..|safepoints|] == safepoints;
      if best.Some? && bestDistance <= MAX_RETURN_ADDRESS_DISTANCE {
        return best;
      }
      return None;
    }

    method FindSafepointRecordByID(id: nat) returns (record: Option<SafepointRecord>)
      ensures record == RecordById(safepoints, id)
    {
      for k := 0 to |safepoints|
        invariant RecordById(safepoints, id) == RecordById(safepoints[k..], id)
      {
        assert safepoints[k..][1..] == safepoints[k + 1..];
        if safepoints[k].id == id {
          return Some(safepoints[k]);
        }
      }
      return None;
    }

    /** The references of one frame, or the first location that cannot be read. */
    method ReadRoots(frame: StackFrame, stack: map<nat, Word>) returns (r: Result<seq<nat>>)
      ensures r.Ok? <==> Readable(frame)
      ensures r.Ok? ==> exists values :: FrameHolds(frame, stack, values) && r.value == NonNull(values)
      ensures r.Ok? ==> r.value == FrameRoots(frame, stack)
    {
      hide ResolveRootValue, References, Locations, LocationHolds, IsTracked, NonNull;
      var pairs := frame.record.rootPairs;
      var roots: seq<nat> := [];
      ghost var values: seq<Word> := [];
      NoReferences(frame, stack);
      for k := 0 to |pairs|
        invariant forall j :: 0 <= j < k ==> IsTracked(pairs[j].base) && IsTracked(pairs[j].derived)
        invariant |values| == 2 * k && roots == NonNull(values)
        invariant forall j :: 0 <= j < k ==>
          LocationHolds(pairs[j].base, frame, stack, values[2 * j]) && LocationHolds(pairs[j].derived, frame, stack, values[2 * j + 1])
        invariant roots == References(Locations(pairs[..k]), frame, stack)
      {
        OnePairMore(pairs, k);
        ReferencesOfPair(Locations(pairs[..k]), pairs[k], frame, stack);
        var base := ResolveRootValue(pairs[k].base, frame.sp, frame.bp, stack);
        ResolvesToWhatItHolds(pairs[k].base, frame, stack, base.GetOr(0));
        if base.Err? {
          return Err(base.message);
        }
        if base.value != 0 {
          roots := roots + [base.value];
        }
        var derived := ResolveRootValue(pairs[k].derived, frame.sp, frame.bp, stack);
        ResolvesToWhatItHolds(pairs[k].derived, frame, stack, derived.GetOr(0));
        if derived.Err? {
          return Err(derived.message);
        }
        if derived.value != 0 {
          roots := roots + [derived.value];
        }
        NonNullOfPair(values, base.value, derived.value);
        values := values + [base.value, derived.value];
      }
      assert pairs[..|pairs|] == pairs;
      assert FrameHolds(frame, stack, values);
      return Ok(roots);
    }

    /** Adds one frame's roots to the summary, or reports a location it cannot read. */
    method ScanSingleManagedFrame(frame: StackFrame, stack: map<nat, Word>, ghost frames: seq<StackFrame>, summary: GCRootScanSummary)
      returns (r: Result<GCRootScanSummary>)
      requires summary == SummaryOf(frames, stack)
      ensures r.Ok? <==> Readable(frame)
      ensures r.Ok? ==> r.value == SummaryOf(frames + [frame], stack)
    {
      hide Readable, FrameRoots, FirstAddress, PairCount, StackRoots;
      SummaryGrows(frames, frame, stack);
      var roots := ReadRoots(frame, stack);
      if roots.Err? {
        return Err(roots.message);
      }
      r := Ok(summary.(
        safepointAddress := if summary.safepointAddress == 0 then frame.record.instructionAddress else summary.safepointAddress,
        rootPairCount := summary.rootPairCount + |frame.record.rootPairs|,
        rootLocationCount := summary.rootLocationCount + |frame.record.rootPairs| * 2,
        nonNullRootCount := summary.nonNullRootCount + |roots.value|,
        rootValues := summary.rootValues + roots.value));
    }

    /** The loop over the callers, from a frame already scanned. */
    method WalkCallers(start: StackFrame, stack: map<nat, Word>, summary: GCRootScanSummary) returns (r: Result<GCRootScanSummary>)
      requires summary == SummaryOf([start], stack)
      ensures var callers := Callers(safepoints, stack, start.bp, MAX_MANAGED_FRAME_DEPTH);
        && (r.Ok? <==> AllReadable(callers))
        && (r.Ok? ==> r.value == SummaryOf([start] + callers, stack))
    {
      hide ExactRecord, NearbyRecord, Readable, SummaryOf, Offset, Callers, Load;
      ghost var callers := Callers(safepoints, stack, start.bp, MAX_MANAGED_FRAME_DEPTH);
      ghost var visited: seq<StackFrame> := [];
      var current := summary;
      var framePointer, walkedFrames: nat := start.bp, 0;
      assert [start] + [] == [start];
      while framePointer != 0 && walkedFrames < MAX_MANAGED_FRAME_DEPTH
        invariant walkedFrames <= MAX_MANAGED_FRAME_DEPTH
        invariant callers == visited + Callers(safepoints, stack, framePointer, MAX_MANAGED_FRAME_DEPTH - walkedFrames)
        invariant AllReadable(visited) && current == SummaryOf([start] + visited, stack)
        decreases MAX_MANAGED_FRAME_DEPTH - walkedFrames
      {
        var nextFramePointer := Load(stack, framePointer);
        var nextReturnAddress := Load(stack, Offset(framePointer, WORD_BYTES));
        CallersStop(safepoints, stack, framePointer, MAX_MANAGED_FRAME_DEPTH - walkedFrames);
        if nextReturnAddress == 0 {
          break;
        }
        var callerRecord := FindSafepointRecord(nextReturnAddress);
        if callerRecord.None? {
          callerRecord := FindSafepointRecordForReturnAddress(nextReturnAddress);
        }
        if callerRecord.None? {
          break;
        }
        var frame := StackFrame(callerRecord.value, Offset(framePointer, 2 * WORD_BYTES), nextFramePointer);
        CallersSplit(safepoints, stack, framePointer, MAX_MANAGED_FRAME_DEPTH - walkedFrames);
        ghost var rest := Callers(safepoints, stack, nextFramePointer, MAX_MANAGED_FRAME_DEPTH - walkedFrames - 1);
        assert callers == visited + [frame] + rest;
        assert frame == callers[|visited|];
        var scanned := ScanSingleManagedFrame(frame, stack, [start] + visited, current);
        if scanned.Err? {
          return scanned;
        }
        assert [start] + visited + [frame] == [start] + (visited + [frame]);
        current := scanned.value;
        visited := visited + [frame];
        framePointer := nextFramePointer;
        walkedFrames := walkedFrames + 1;
      }
      CallersStop(safepoints, stack, framePointer, MAX_MANAGED_FRAME_DEPTH - walkedFrames);
      assert callers == visited;
      r := Ok(current);
    }

    /** The summary of a frame and its callers. */
    method ScanFrom(start: StackFrame, stack: map<nat, Word>) returns (r: Result<GCRootScanSummary>)
      ensures ScanIs(r, safepoints, Some(start), stack)
    {
      hide Readable, Callers, SummaryOf, AllReadable;
      NothingScanned(stack);
      var first := ScanSingleManagedFrame(start, stack, [], EmptySummary);
      assert [] + [start] == [start];
      OneAndMoreReadable(start, Callers(safepoints, stack, start.bp, MAX_MANAGED_FRAME_DEPTH));
      if first.Err? {
        return first;
      }
      r := WalkCallers(start, stack, first.value);
    }

    /** scanCurrentSafepointByID. */
    method ScanCurrentSafepointByID(statepointID: nat, callerSP: Word, callerBP: Word, stack: map<nat, Word>) returns (r: Result<GCRootScanSummary>)
      ensures ScanIs(r, safepoints, StartById(safepoints, statepointID, callerSP, callerBP), stack)
    {
      hide Callers, AllReadable, SummaryOf;
      var record := FindSafepointRecordByID(statepointID);
      if record.None? {
        return Err("no precise GC stackmap entry matched statepoint id");
      }
      r := ScanFrom(StackFrame(record.value, callerSP, callerBP), stack);
    }

    /** scanCurrentSafepoint: the start frame is looked for a few frames up, at first by exact address. */
    method ScanCurrentSafepoint(returnAddress: Word, callerSP: Word, callerBP: Word, stack: map<nat, Word>) returns (r: Result<GCRootScanSummary>)
      ensures ScanIs(r, safepoints, Probe(safepoints, stack, returnAddress, callerSP, callerBP, 0), stack)
    {
      hide Callers, AllReadable, SummaryOf, ExactRecord, NearbyRecord, Offset;
      var address, sp, bp := returnAddress, callerSP, callerBP;
      var depth: nat := 0;
      while depth < MAX_START_FRAME_PROBE_DEPTH
        invariant depth <= MAX_START_FRAME_PROBE_DEPTH
        invariant Probe(safepoints, stack, returnAddress, callerSP, callerBP, 0) == Probe(safepoints, stack, address, sp, bp, depth)
        decreases MAX_START_FRAME_PROBE_DEPTH - depth
      {
        var record := FindSafepointRecord(address);
        if record.None? && depth > 0 {
          record := FindSafepointRecordForReturnAddress(address);
        }
        if record.Some? {
          r := ScanFrom(StackFrame(record.value, sp, bp), stack);
          return;
        }
        if bp == 0 {
          break;
        }
        address, sp, bp := Load(stack, Offset(bp, WORD_BYTES)), Offset(bp, 2 * WORD_BYTES), Load(stack, bp);
        depth := depth + 1;
      }
      return Err("no precise GC stackmap entry matched safepoint return address");
    }
  }

  function Probe(records: seq<SafepointRecord>, stack: map<nat, Word>, address: Word, sp: Word, bp: Word, depth: nat): Option<StackFrame>
    decreases MAX_START_FRAME_PROBE_DEPTH - depth
  {
    if depth >= MAX_START_FRAME_PROBE_DEPTH then None
    else
      var record := if depth == 0 then ExactRecord(records, address) else Lookup(records, address);
      if record.Some? then Some(StackFrame(record.value, sp, bp))
      else if bp == 0 then None
      else Probe(records, stack, Load(stack, Offset(bp, WORD_BYTES)), Offset(bp, 2 * WORD_BYTES), Load(stack, bp), depth + 1)
  }

  function StartById(records: seq<SafepointRecord>, id: nat, sp: Word, bp: Word): Option<StackFrame> {
    match RecordById(records, id)
    case Some(record) => Some(StackFrame(record, sp, bp))
    case None => None
  }

  /** A scan from a start frame succeeds iff every location it meets can be read, and then reports
      the start frame and its callers; without a start frame it fails. */
  ghost predicate ScanIs(r: Result<GCRootScanSummary>, records: seq<SafepointRecord>, start: Option<StackFrame>, stack: map<nat, Word>) {
    match start
    case None => r.Err?
    case Some(frame) =>
      var frames := [frame] + Callers(records, stack, frame.bp, MAX_MANAGED_FRAME_DEPTH);
      (r.Ok? <==> AllReadable(frames)) && (r.Ok? ==> r.value == SummaryOf(frames, stack))
  }

  lemma OneAndMoreReadable(frame: StackFrame, frames: seq<StackFrame>)
    ensures AllReadable([frame] + frames) <==> Readable(frame) && AllReadable(frames)
  {
    hide Readable;
    var all := [frame] + frames;
    assert all[0] == frame && forall k :: 0 <= k < |frames| ==> all[k + 1] == frames[k];
  }

  lemma NothingScanned(stack: map<nat, Word>)
    ensures SummaryOf([], stack) == EmptySummary
  {
  }

  lemma NonNullOfPair(values: seq<Word>, base: Word, derived: Word)
    ensures NonNull(values + [base, derived]) ==
      NonNull(values) + (if base != 0 then [base] else []) + (if derived != 0 then [derived] else [])
  {
    var both := values + [base, derived];
    assert both[..|both| - 1] == values + [base];
    assert (values + [base])[..|values|] == values;
  }

  lemma NoReferences(frame: StackFrame, stack: map<nat, Word>)
    ensures References(Locations([]), frame, stack) == [] && NonNull([]) == []
  {
  }

  lemma OnePairMore(pairs: seq<GCRootLocationPair>, k: nat)
    requires k < |pairs|
    ensures Locations(pairs[..k + 1]) == Locations(pairs[..k]) + [pairs[k].base, pairs[k].derived]
  {
    assert pairs[..k + 1][..k] == pairs[..k];
  }

  lemma ReferencesOfPair(locations: seq<GCRootLocation>, pair: GCRootLocationPair, frame: StackFrame, stack: map<nat, Word>)
    ensures var base, derived := ResolveRootValue(pair.base, frame.sp, frame.bp, stack), ResolveRootValue(pair.derived, frame.sp, frame.bp, stack);
      References(locations + [pair.base, pair.derived], frame, stack) ==
        References(locations, frame, stack) + (if base.Ok? && base.value != 0 then [base.value] else [])
        + (if derived.Ok? && derived.value != 0 then [derived.value] else [])
  {
    hide ResolveRootValue;
    var all := locations + [pair.base, pair.derived];
    assert all[..|locations| + 1] == locations + [pair.base];
    assert (locations + [pair.base])[..|locations|] == locations;
  }

  // ----- The roots of a stopped mutator -----

  /** The innermost frame's roots come first, and the address is that of the first frame that has one. */
  lemma {:induction false} InnermostFirst(frame: StackFrame, frames: seq<StackFrame>, stack: map<nat, Word>)
    ensures StackRoots([frame] + frames, stack) == FrameRoots(frame, stack) + StackRoots(frames, stack)
    ensures PairCount([frame] + frames) == |frame.record.rootPairs| + PairCount(frames)
    ensures FirstAddress([frame] + frames) == if frame.record.instructionAddress != 0 then frame.record.instructionAddress else FirstAddress(frames)
  {
    hide FrameRoots;
    var all := [frame] + frames;
    if frames == [] {
      assert all[..0] == [] && StackRoots([], stack) == [] && PairCount([]) == 0 && FirstAddress([]) == 0;
    } else {
      assert all[..|frames|] == [frame] + frames[..|frames| - 1];
      InnermostFirst(frame, frames[..|frames| - 1], stack);
    }
  }

  /** A successful scan of a real stack of at most 256 callers reports exactly the non-null base and
      derived values of all its frames, in order, twice as many locations as pairs, and as many
      non-null roots as root values. */
  lemma ScanIsComplete(r: Result<GCRootScanSummary>, records: seq<SafepointRecord>, start: StackFrame, callers: seq<StackFrame>, stack: map<nat, Word>)
    requires ScanIs(r, records, Some(start), stack) && StackHolds(records, stack, start.bp, callers) && |callers| <= 256
    ensures r.Ok? <==> AllReadable([start] + callers)
    ensures r.Ok? ==> r.value.rootValues == StackRoots([start] + callers, stack)
    ensures r.Ok? ==> r.value.rootPairCount == PairCount([start] + callers) && r.value.rootLocationCount == 2 * r.value.rootPairCount
    ensures r.Ok? ==> r.value.nonNullRootCount == |r.value.rootValues|
    ensures r.Ok? && start.record.instructionAddress != 0 ==> r.value.safepointAddress == start.record.instructionAddress
  {
    InnermostFirst(start, callers, stack);
    WholeStackIff(records, stack, start.bp, callers);
    hide Callers, StackHolds, AllReadable, StackRoots, PairCount, FirstAddress;
  }

  lemma {:induction false} ReferenceIsReported(locations: seq<GCRootLocation>, frame: StackFrame, stack: map<nat, Word>, k: nat)
    requires k < |locations| && ResolveRootValue(locations[k], frame.sp, frame.bp, stack).Ok?
    requires ResolveRootValue(locations[k], frame.sp, frame.bp, stack).value != 0
    ensures ResolveRootValue(locations[k], frame.sp, frame.bp, stack).value in References(locations, frame, stack)
  {
    hide ResolveRootValue;
    if k < |locations| - 1 {
      assert locations[..|locations| - 1][k] == locations[k];
      ReferenceIsReported(locations[..|locations| - 1], frame, stack, k);
    }
  }

  lemma {:induction false} LocationsOfPairs(pairs: seq<GCRootLocationPair>, k: nat)
    requires k < |pairs|
    ensures |Locations(pairs)| == 2 * |pairs| && Locations(pairs)[2 * k] == pairs[k].base && Locations(pairs)[2 * k + 1] == pairs[k].derived
  {
    var last := |pairs| - 1;
    if k < last {
      LocationsOfPairs(pairs[..last], k);
      assert pairs[..last][k] == pairs[k];
    } else if last > 0 {
      LocationsOfPairs(pairs[..last], 0);
    }
  }

  lemma {:induction false} FrameRootsAreStackRoots(frames: seq<StackFrame>, stack: map<nat, Word>, n: nat, value: nat)
    requires n < |frames| && value in FrameRoots(frames[n], stack)
    ensures value in StackRoots(frames, stack)
  {
    hide FrameRoots;
    if n < |frames| - 1 {
      assert frames[..|frames| - 1][n] == frames[n];
      FrameRootsAreStackRoots(frames[..|frames| - 1], stack, n, value);
    }
  }

  /** So no reference a frame's record names is missed. */
  lemma EveryRootIsReported(frames: seq<StackFrame>, stack: map<nat, Word>, n: nat, k: nat, derived: bool, value: Word)
    requires n < |frames| && k < |frames[n].record.rootPairs| && value != 0
    requires LocationHolds(if derived then frames[n].record.rootPairs[k].derived else frames[n].record.rootPairs[k].base, frames[n], stack, value)
    ensures value in StackRoots(frames, stack)
  {
    var frame := frames[n];
    var pairs := frame.record.rootPairs;
    LocationsOfPairs(pairs, k);
    ResolvesToWhatItHolds(if derived then pairs[k].derived else pairs[k].base, frame, stack, value);
    hide ResolveRootValue, Locations, LocationHolds;
    ReferenceIsReported(Locations(pairs), frame, stack, if derived then 2 * k + 1 else 2 * k);
    FrameRootsAreStackRoots(frames, stack, n, value);
  }

  /** An activation the probe takes for managed: the first by exact address only, the others also near
      a record. */
  predicate ProbeStopsAt(records: seq<SafepointRecord>, x: Activation, depth: nat) {
    if depth == 0 then IsManaged(records, x) else Lookup(records, x.returnAddress).Some?
  }

  /** On any stack the scan starts at the first activation the probe stops at, counted from this one,
      and at none when the first eight, or all there are, pass by. */
  lemma {:induction false} ProbeFinds(records: seq<SafepointRecord>, stack: map<nat, Word>, chain: seq<Activation>, depth: nat, k: nat)
    requires chain != [] && ChainHolds(stack, chain[0].bp, chain[1..])
    ensures k < |chain| && depth + k < 8 && ProbeStopsAt(records, chain[k], depth + k)
            && (forall j :: 0 <= j < k ==> !ProbeStopsAt(records, chain[j], depth + j)) ==>
      && Lookup(records, chain[k].returnAddress).Some?
      && Probe(records, stack, chain[0].returnAddress, chain[0].sp, chain[0].bp, depth) == Some(FrameFor(records, chain[k]))
    ensures (forall j :: 0 <= j < |chain| && depth + j < 8 ==> !ProbeStopsAt(records, chain[j], depth + j))
            && (depth + |chain| >= 8 || chain[|chain| - 1].bp == 0) ==>
      Probe(records, stack, chain[0].returnAddress, chain[0].sp, chain[0].bp, depth).None?
    decreases |chain|
  {
    hide ExactRecord, NearbyRecord, Load;
    if depth < 8 && |chain| > 1 && !ProbeStopsAt(records, chain[0], depth) {
      var rest := chain[1..];
      assert forall j :: 0 < j < |chain| ==> chain[j] == rest[j - 1];
      ProbeFinds(records, stack, rest, depth + 1, if k == 0 then 0 else k - 1);
      assert Probe(records, stack, chain[0].returnAddress, chain[0].sp, chain[0].bp, depth)
        == Probe(records, stack, rest[0].returnAddress, rest[0].sp, rest[0].bp, depth + 1);
    }
  }

  /** A lookup by statepoint id and one by exact return address that name the same record start the
      same scan. */
  lemma LookupsAgree(records: seq<SafepointRecord>, stack: map<nat, Word>, id: nat, returnAddress: Word, sp: Word, bp: Word)
    requires RecordById(records, id).Some? && RecordById(records, id) == ExactRecord(records, returnAddress)
    ensures StartById(records, id, sp, bp) == Probe(records, stack, returnAddress, sp, bp, 0)
  {
  }
}
