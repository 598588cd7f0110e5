/** The specialization pass: rounds of analysis and cloning until a round changes nothing. */
module DispatchPass {
  import opened Collections
  import opened ManagedIR
  import opened ManagedState
  import opened ManagedStateAnalysisModule
  import opened StateSolutions
  import opened IRMachine
  import opened Renaming
  import opened DispatchCounting
  import opened ManagedDispatch

  function SignatureAt(m: Module, s: States, f: nat, i: nat, c: nat): Signature
    requires CallsAt(m, f, i, c) && c < |m.functions|
  {
    BuildDispatchSignature(m, f, m.functions[f].code[i].args, c, s)
  }

  /** All direct calls of c pass arguments of the same kinds. */
  ghost predicate AgreeAt(m: Module, s: States, c: nat) {
    c < |m.functions| && ShouldSpecialize(m.functions[c]) ==>
      forall f: nat, i: nat, g: nat, k: nat :: CallsAt(m, f, i, c) && CallsAt(m, g, k, c) ==> SignatureAt(m, s, f, i, c) == SignatureAt(m, s, g, k, c)
  }

  /** The kind of pointer a call passes for a parameter. */
  function PassedKind(m: Module, s: States, f: nat, i: nat, index: nat): ManagedPointerKind
    requires IsInst(m, f, i) && m.functions[f].code[i].Call?
  {
    var args := m.functions[f].code[i].args;
    if index < |args| && IsPointer(m, f, args[index]) then DispatchKind(ValueState(m, f, args[index], s)) else Unknown
  }

  /** Two calls of c pass pointers of the same kinds for all its parameters. */
  ghost predicate SameKinds(m: Module, s: States, c: nat, f: nat, i: nat, g: nat, k: nat)
    requires CallsAt(m, f, i, c) && CallsAt(m, g, k, c) && c < |m.functions|
  {
    forall index: nat :: index < |m.functions[c].params| ==> PassedKind(m, s, f, i, index) == PassedKind(m, s, g, k, index)
  }

  /** All direct calls of c do, if it is a function with a body whose address is not taken and that is
      not vararg. */
  ghost predicate PassesSameKinds(m: Module, s: States, c: nat) {
    c < |m.functions| && !m.functions[c].isDeclaration && !m.functions[c].hasAddressTaken && !m.functions[c].isVarArg ==>
      forall f: nat, i: nat, g: nat, k: nat :: CallsAt(m, f, i, c) && CallsAt(m, g, k, c) ==> SameKinds(m, s, c, f, i, g, k)
  }

  ghost predicate AllPassSameKinds(m: Module, s: States) {
    forall c: nat :: c < |m.functions| ==> PassesSameKinds(m, s, c)
  }

  lemma SignaturesAreKinds(m: Module, s: States, c: nat, f: nat, i: nat, g: nat, k: nat)
    requires CallsAt(m, f, i, c) && CallsAt(m, g, k, c) && c < |m.functions|
    ensures SignatureAt(m, s, f, i, c) == SignatureAt(m, s, g, k, c) <==> SameKinds(m, s, c, f, i, g, k)
  {
    var a, b := SignatureAt(m, s, f, i, c), SignatureAt(m, s, g, k, c);
    hide ValueState, DispatchKind;
    forall index: nat | index < |m.functions[c].params|
      ensures a[index] == b[index] <==> PassedKind(m, s, f, i, index) == PassedKind(m, s, g, k, index)
    {
      KindOfArgument(m, s, f, i, c, index);
      KindOfArgument(m, s, g, k, c, index);
    }
    if SameKinds(m, s, c, f, i, g, k) {
      assert forall index: nat :: index < |a| ==> a[index] == b[index];
    }
  }

  lemma KindOfArgument(m: Module, s: States, f: nat, i: nat, c: nat, index: nat)
    requires CallsAt(m, f, i, c) && c < |m.functions| && index < |m.functions[c].params|
    ensures SignatureAt(m, s, f, i, c)[index] ==
      match PassedKind(m, s, f, i, index) case Raw => RawArg case Object => ObjectArg case Array => ArrayArg case Unknown => GenericArg
  {
    hide ValueState, DispatchKind;
  }

  lemma AgreeAtIff(m: Module, s: States, c: nat)
    ensures AgreeAt(m, s, c) <==> PassesSameKinds(m, s, c)
  {
    hide SignatureAt, SameKinds;
    forall f: nat, i: nat, g: nat, k: nat | c < |m.functions| && CallsAt(m, f, i, c) && CallsAt(m, g, k, c)
      ensures SignatureAt(m, s, f, i, c) == SignatureAt(m, s, g, k, c) <==> SameKinds(m, s, c, f, i, g, k)
    {
      SignaturesAreKinds(m, s, c, f, i, g, k);
    }
  }

  lemma GenericSignaturesAgree(a: Signature, b: Signature)
    requires |a| == |b| && !HasSpecialization(a) && !HasSpecialization(b)
    ensures a == b
  {
    forall k | 0 <= k < |a|
      ensures a[k] == b[k]
    {
      assert a[k] == GenericArg && b[k] == GenericArg;
    }
  }

  /** Records with no more than one signature between them. */
  lemma RecordsAgree(records: seq<CallRecord>, signatures: seq<Signature>, sawGeneric: bool, p: nat, q: nat)
    requires SignaturesOf(records, |records|, signatures, sawGeneric) && p < |records| && q < |records|
    requires signatures == [] || (|signatures| == 1 && !sawGeneric)
    requires |records[p].signature| == |records[q].signature|
    ensures records[p].signature == records[q].signature
  {
    hide HasSpecialization;
    var a, b := records[p].signature, records[q].signature;
    if !HasSpecialization(a) && !HasSpecialization(b) { GenericSignaturesAgree(a, b); }
  }

  /** A function that the round leaves alone is called with one signature only. */
  lemma LeftAloneAgrees(m: Module, s: States, callMap: map<nat, seq<CallRecord>>, j: nat, signatures: seq<Signature>, sawGeneric: bool)
    requires j < |m.functions| && RecordsSound(m, s, callMap) && RecordsComplete(m, callMap, |m.functions|, 0)
    requires j in callMap ==> SignaturesOf(callMap[j], |callMap[j]|, signatures, sawGeneric)
    requires j in callMap ==> signatures == [] || (|signatures| == 1 && !sawGeneric)
    ensures AgreeAt(m, s, j)
  {
    hide SignaturesOf, RecordsSound, RecordsComplete, BuildDispatchSignature;
    if ShouldSpecialize(m.functions[j]) {
      forall f: nat, i: nat, g: nat, k: nat | CallsAt(m, f, i, j) && CallsAt(m, g, k, j)
        ensures SignatureAt(m, s, f, i, j) == SignatureAt(m, s, g, k, j)
      {
        var p := RecordOf(m, s, callMap, j, f, i);
        var q := RecordOf(m, s, callMap, j, g, k);
        RecordsAgree(callMap[j], signatures, sawGeneric, p, q);
      }
    }
  }

  lemma RecordOf(m: Module, s: States, callMap: map<nat, seq<CallRecord>>, j: nat, f: nat, i: nat) returns (q: nat)
    requires j < |m.functions| && RecordsSound(m, s, callMap) && RecordsComplete(m, callMap, |m.functions|, 0)
    requires ShouldSpecialize(m.functions[j]) && CallsAt(m, f, i, j)
    ensures j in callMap && q < |callMap[j]| && callMap[j][q] == CallRecord(f, i, SignatureAt(m, s, f, i, j))
  {
    assert Recorded(callMap, j, f, i);
    q :| 0 <= q < |callMap[j]| && callMap[j][q].f == f && callMap[j][q].i == i;
    assert IsRecord(m, s, j, callMap[j][q]);
  }

  /** The records of one function, seen from the module as it stands when its turn comes. */
  lemma RecordsStillThere(m: Module, s: States, callMap: map<nat, seq<CallRecord>>, cur: Module, origin: Origin, j: nat, count: nat)
    requires RecordsSound(m, s, callMap) && j in callMap && Unprocessed(cur, m, j) && Renames(cur, m, origin) && j < |cur.functions|
    ensures CallRecords(WithClones(cur, j, count), j, callMap[j])
    ensures forall q :: 0 <= q < |callMap[j]| ==> CallsAt(m, callMap[j][q].f, callMap[j][q].i, j)
  {
    var records, cloned := callMap[j], WithClones(cur, j, count);
    forall q | 0 <= q < |records|
      ensures CallsAt(m, records[q].f, records[q].i, j) && CallsAt(cloned, records[q].f, records[q].i, j)
    {
      assert IsRecord(m, s, j, records[q]);
      assert CallsAt(cur, records[q].f, records[q].i, j);
    }
    forall p, q | 0 <= p < q < |records| && records[p].f == records[q].f && records[p].i == records[q].i
      ensures records[p].signature == records[q].signature
    {
      assert IsRecord(m, s, j, records[p]) && IsRecord(m, s, j, records[q]);
    }
  }

  lemma ComposeWithCopies(origin: Origin, levels: Levels, j: nat, count: nat)
    requires (forall k :: 0 <= k < |origin| ==> origin[k] < |levels|) && j < |origin| && origin[j] == j
    ensures forall k :: 0 <= k < |origin + Copies(j, count)| ==> (origin + Copies(j, count))[k] < |levels|
    ensures Compose(origin + Copies(j, count), levels) == Compose(origin, levels) + Copies(Compose(origin, levels)[j], count)
  {
  }

  lemma OriginsInside(m': Module, m: Module, origin: Origin)
    requires Renames(m', m, origin)
    ensures forall k :: 0 <= k < |origin| ==> origin[k] < |m.functions|
    ensures forall k :: 0 <= k < |m.functions| ==> origin[k] == k
  {
    forall k | 0 <= k < |origin|
      ensures origin[k] < |m.functions| && (k < |m.functions| ==> origin[k] == k)
    {
      assert CopyOf(m', m, origin, k);
    }
  }

  /** Cloning j and redirecting its calls keeps the renaming, the balance and the rest of the work. */
  lemma AfterSpecializing(m: Module, cur: Module, next: Module, origin: Origin, levels: Levels, base: nat, j: nat, records: seq<CallRecord>,
                          signatures: seq<Signature>, sawGeneric: bool)
    requires j < |m.functions| && Renames(cur, m, origin) && Unprocessed(cur, m, j) && ShouldSpecialize(m.functions[j])
    requires |levels| == |m.functions| && (forall k :: 0 <= k < |origin| ==> origin[k] < |levels|) && Balanced(cur, Compose(origin, levels), base)
    requires SignaturesOf(records, |records|, signatures, sawGeneric) && (|signatures| >= 2 || (|signatures| >= 1 && sawGeneric))
    requires forall q :: 0 <= q < |records| ==> CallsAt(m, records[q].f, records[q].i, j)
    requires Retargeted(WithClones(cur, j, |signatures|), next, j, records, ClonesFor(signatures, |cur.functions|), |records|)
    ensures var origin' := origin + Copies(j, |signatures|);
      && Renames(next, m, origin') && Unprocessed(next, m, j + 1) && |next.functions| == |cur.functions| + |signatures|
      && (forall k :: 0 <= k < |origin'| ==> origin'[k] < |levels|) && Balanced(next, Compose(origin', levels), base)
  {
    var count, clones := |signatures|, ClonesFor(signatures, |cur.functions|);
    var cloned, origin' := WithClones(cur, j, count), origin + Copies(j, count);
    OriginsInside(cur, m, origin);
    assert |origin| == |cur.functions| && |next.functions| == |cloned.functions|;
    ClonesAreCopies(cur, m, origin, j, count);
    RetargetingIsRenaming(cloned, next, m, origin', j, records, clones);
    StillUnprocessed(cur, next, m, j, count, records, clones);
    ClonesAreCalled(cloned, next, j, records, signatures, sawGeneric, |cur.functions|);
    ComposeWithCopies(origin, levels, j, count);
    forall k | k in Targets(cur) && k != j
      ensures k in Targets(next)
    {
      CallKeptOrRedirected(cur, next, m, j, count, records, clones, k);
    }
    HeaderIsKept(cur, m, origin, j);
    SameToCloneAfter(cur, next, j, count, records, clones);
    hide Renames, Retargeted, Balanced, Unprocessed, SignaturesOf, Targets, Range, SameToClone;
    CloningKeepsBalance(cur, next, Compose(origin, levels), base, j, count, sawGeneric);
  }

  // ----- What a round does to every call -----

  /** A clone of a round: of which function, and for which signature. */
  datatype Made = Made(of: nat, signature: Signature)

  function MadeFor(j: nat, signatures: seq<Signature>): (r: seq<Made>)
    ensures |r| == |signatures| && forall k :: 0 <= k < |r| ==> r[k] == Made(j, signatures[k])
  {
    seq(|signatures|, k requires 0 <= k < |signatures| => Made(j, signatures[k]))
  }

  /** A call of a function whose calls disagree goes to the clone for its signature, if that names a
      kind at all; every other call stays. */
  ghost predicate CallMoved(m: Module, s: States, cur: Module, made: seq<Made>, g: nat, i: nat, c: nat)
    requires CallsAt(m, g, i, c) && c < |m.functions|
  {
    if !AgreeAt(m, s, c) && HasSpecialization(SignatureAt(m, s, g, i, c))
    then exists k: nat :: k < |made| && made[k] == Made(c, SignatureAt(m, s, g, i, c)) && CallsAt(cur, g, i, |m.functions| + k)
    else CallsAt(cur, g, i, c)
  }

  /** Only functions whose calls disagree are cloned, and only for signatures that some call has. */
  ghost predicate IsNeeded(m: Module, s: States, clone: Made) {
    && clone.of < |m.functions| && !AgreeAt(m, s, clone.of) && HasSpecialization(clone.signature)
    && exists g: nat, i: nat :: CallsAt(m, g, i, clone.of) && SignatureAt(m, s, g, i, clone.of) == clone.signature
  }

  predicate SameCallIn(cur: Module, f: nat, g: nat, i: nat) {
    IsInst(cur, f, i) && IsInst(cur, g, i) && cur.functions[f].code[i] == cur.functions[g].code[i]
  }

  /** A clone calls what its function called when the round came to it: calls of earlier functions had been moved. */
  ghost predicate CloneCalls(m: Module, cur: Module, f: nat, of: nat) {
    forall i: nat, c: nat :: CallsAt(m, of, i, c) ==> if c < of then SameCallIn(cur, f, of, i) else CallsAt(cur, f, i, c)
  }

  /** The round has dealt with the first j functions, in the way made says. */
  ghost predicate Processed(m: Module, s: States, cur: Module, made: seq<Made>, j: nat) {
    && |cur.functions| == |m.functions| + |made| && (forall a, b :: 0 <= a < b < |made| ==> made[a] != made[b])
    && (forall g: nat, i: nat, c: nat :: CallsAt(m, g, i, c) && c < |m.functions| ==>
          if c < j then CallMoved(m, s, cur, made, g, i, c) else CallsAt(cur, g, i, c))
    && (forall k: nat :: k < |made| ==> made[k].of < j && IsNeeded(m, s, made[k]) && CloneCalls(m, cur, |m.functions| + k, made[k].of))
  }

  lemma NothingProcessed(m: Module, s: States)
    ensures Processed(m, s, m, [], 0)
  {
  }

  lemma LeftAlone(m: Module, s: States, cur: Module, made: seq<Made>, j: nat)
    requires Processed(m, s, cur, made, j) && AgreeAt(m, s, j)
    ensures Processed(m, s, cur, made, j + 1)
  {
    hide AgreeAt, IsNeeded, CloneCalls, HasSpecialization;
    forall g: nat, i: nat, c: nat | CallsAt(m, g, i, c) && c < |m.functions|
      ensures if c < j + 1 then CallMoved(m, s, cur, made, g, i, c) else CallsAt(cur, g, i, c)
    {
    }
  }

  /** More signatures than one, or one and a general call: the calls of j disagree. */
  lemma SpecializedDisagrees(m: Module, s: States, callMap: map<nat, seq<CallRecord>>, j: nat, signatures: seq<Signature>, sawGeneric: bool)
    requires j < |m.functions| && RecordsSound(m, s, callMap) && j in callMap && SignaturesOf(callMap[j], |callMap[j]|, signatures, sawGeneric)
    requires |signatures| >= 2 || (|signatures| >= 1 && sawGeneric)
    ensures !AgreeAt(m, s, j)
    ensures forall k :: 0 <= k < |signatures| ==> HasSpecialization(signatures[k]) && exists g: nat, i: nat :: CallsAt(m, g, i, j) && SignatureAt(m, s, g, i, j) == signatures[k]
  {
    hide HasSpecialization, BuildDispatchSignature, ShouldSpecialize;
    var records := callMap[j];
    forall q | 0 <= q < |records|
      ensures CallsAt(m, records[q].f, records[q].i, j) && SignatureAt(m, s, records[q].f, records[q].i, j) == records[q].signature
      ensures ShouldSpecialize(m.functions[j])
    {
      assert IsRecord(m, s, j, records[q]);
    }
    forall k | 0 <= k < |signatures|
      ensures exists g: nat, i: nat :: CallsAt(m, g, i, j) && SignatureAt(m, s, g, i, j) == signatures[k]
    {
      var q := RecordWith(records, signatures, sawGeneric, k);
      assert CallsAt(m, records[q].f, records[q].i, j);
    }
    var p := RecordWith(records, signatures, sawGeneric, 0);
    var q: nat;
    if |signatures| >= 2 {
      q := RecordWith(records, signatures, sawGeneric, 1);
    } else {
      q := GenericRecord(records, signatures, sawGeneric);
    }
    assert SignatureAt(m, s, records[p].f, records[p].i, j) != SignatureAt(m, s, records[q].f, records[q].i, j);
  }

  /** Where calls with a given signature go once the clones for the signatures are there. */
  lemma RedirectTarget(signatures: seq<Signature>, first: nat, signature: Signature, j: nat)
    requires forall a, b :: 0 <= a < b < |signatures| ==> signatures[a] != signatures[b]
    ensures forall k :: 0 <= k < |signatures| && signatures[k] == signature ==> Redirect(ClonesFor(signatures, first), signature, j) == first + k
    ensures signature !in signatures ==> Redirect(ClonesFor(signatures, first), signature, j) == j
  {
    FindCloneFinds(signatures, first, signature);
    RedirectTo(ClonesFor(signatures, first), signature, j);
  }

  lemma SignatureIsKnown(records: seq<CallRecord>, signatures: seq<Signature>, sawGeneric: bool, q: nat)
    requires SignaturesOf(records, |records|, signatures, sawGeneric) && q < |records|
    ensures HasSpecialization(records[q].signature) <==> records[q].signature in signatures
  {
    hide HasSpecialization;
  }

  lemma RecordedCall(m: Module, s: States, cloned: Module, next: Module, first: nat, j: nat, callMap: map<nat, seq<CallRecord>>,
                     signatures: seq<Signature>, sawGeneric: bool, g: nat, i: nat)
    requires j < |m.functions| && RecordsSound(m, s, callMap) && RecordsComplete(m, callMap, |m.functions|, 0) && j in callMap
    requires SignaturesOf(callMap[j], |callMap[j]|, signatures, sawGeneric) && ShouldSpecialize(m.functions[j]) && CallsAt(m, g, i, j)
    requires Retargeted(cloned, next, j, callMap[j], ClonesFor(signatures, first), |callMap[j]|)
    ensures var signature := SignatureAt(m, s, g, i, j);
      && CallsAt(next, g, i, Redirect(ClonesFor(signatures, first), signature, j))
      && (HasSpecialization(signature) <==> signature in signatures)
    ensures forall a, b :: 0 <= a < b < |signatures| ==> signatures[a] != signatures[b]
  {
    hide HasSpecialization, BuildDispatchSignature, Redirect, RecordsSound, RecordsComplete, ShouldSpecialize;
    var q := RecordOf(m, s, callMap, j, g, i);
    assert RedirectedAt(cloned, next, j, callMap[j][q], ClonesFor(signatures, first));
    SignatureIsKnown(callMap[j], signatures, sawGeneric, q);
  }

  /** A recorded call of j moves to the clone of j for its signature. */
  lemma RecordedMove(m: Module, s: States, cloned: Module, next: Module, made: seq<Made>, j: nat, callMap: map<nat, seq<CallRecord>>,
                     signatures: seq<Signature>, sawGeneric: bool, g: nat, i: nat)
    requires j < |m.functions| && RecordsSound(m, s, callMap) && RecordsComplete(m, callMap, |m.functions|, 0) && j in callMap
    requires SignaturesOf(callMap[j], |callMap[j]|, signatures, sawGeneric) && !AgreeAt(m, s, j) && CallsAt(m, g, i, j)
    requires Retargeted(cloned, next, j, callMap[j], ClonesFor(signatures, |m.functions| + |made|), |callMap[j]|)
    ensures CallMoved(m, s, next, made + MadeFor(j, signatures), g, i, j)
  {
    hide HasSpecialization, BuildDispatchSignature, Redirect, AgreeAt, RecordsSound, RecordsComplete, Retargeted, SignaturesOf, ShouldSpecialize;
    var first, signature := |m.functions| + |made|, SignatureAt(m, s, g, i, j);
    NotSpecialized(m, s, j);
    RecordedCall(m, s, cloned, next, first, j, callMap, signatures, sawGeneric, g, i);
    RedirectTarget(signatures, first, signature, j);
    if HasSpecialization(signature) {
      var k :| 0 <= k < |signatures| && signatures[k] == signature;
      assert (made + MadeFor(j, signatures))[|made| + k] == Made(j, signature);
      assert CallsAt(next, g, i, |m.functions| + (|made| + k));
    }
  }

  /** Instructions that are no recorded calls stay, and the new clones get those of j as they were. */
  lemma KeptAt(cur: Module, next: Module, j: nat, count: nat, records: seq<CallRecord>, clones: seq<Clone>, f: nat, i: nat)
    requires j < |cur.functions| && Retargeted(WithClones(cur, j, count), next, j, records, clones, |records|)
    requires f < |cur.functions| + count && !InRecords(records, |records|, f, i) && IsInst(cur, if f < |cur.functions| then f else j, i)
    ensures IsInst(next, f, i) && next.functions[f].code[i] == cur.functions[if f < |cur.functions| then f else j].code[i]
  {
    var cloned := WithClones(cur, j, count);
    assert IsInst(cloned, f, i) && SameButCode(next.functions[f], cloned.functions[f]);
  }

  lemma NotRecorded(m: Module, j: nat, records: seq<CallRecord>, f: nat, i: nat)
    requires forall q :: 0 <= q < |records| ==> CallsAt(m, records[q].f, records[q].i, j)
    requires f >= |m.functions| || exists c: nat :: c != j && CallsAt(m, f, i, c)
    ensures !InRecords(records, |records|, f, i)
  {
  }

  lemma MoveIsKept(m: Module, s: States, cur: Module, next: Module, made: seq<Made>, more: seq<Made>, g: nat, i: nat, c: nat)
    requires CallsAt(m, g, i, c) && c < |m.functions| && CallMoved(m, s, cur, made, g, i, c)
    requires IsInst(cur, g, i) && IsInst(next, g, i) && next.functions[g].code[i] == cur.functions[g].code[i]
    ensures CallMoved(m, s, next, made + more, g, i, c)
  {
    hide AgreeAt, HasSpecialization, BuildDispatchSignature;
    if !AgreeAt(m, s, c) && HasSpecialization(SignatureAt(m, s, g, i, c)) {
      var k: nat :| k < |made| && made[k] == Made(c, SignatureAt(m, s, g, i, c)) && CallsAt(cur, g, i, |m.functions| + k);
      assert (made + more)[k] == made[k];
    }
  }

  /** What is known of each call before j's turn holds after it too. */
  lemma OtherCallsStay(m: Module, s: States, cur: Module, next: Module, made: seq<Made>, j: nat, records: seq<CallRecord>, signatures: seq<Signature>,
                       clones: seq<Clone>, g: nat, i: nat, c: nat)
    requires j < |m.functions| && Processed(m, s, cur, made, j) && CallsAt(m, g, i, c) && c < |m.functions| && c != j
    requires forall q :: 0 <= q < |records| ==> CallsAt(m, records[q].f, records[q].i, j)
    requires Retargeted(WithClones(cur, j, |signatures|), next, j, records, clones, |records|)
    ensures IsInst(cur, g, i) && IsInst(next, g, i) && next.functions[g].code[i] == cur.functions[g].code[i]
    ensures if c < j + 1 then CallMoved(m, s, next, made + MadeFor(j, signatures), g, i, c) else CallsAt(next, g, i, c)
  {
    NotRecorded(m, j, records, g, i);
    hide Retargeted, AgreeAt, HasSpecialization, IsNeeded, CloneCalls;
    assert IsInst(cur, g, i);
    KeptAt(cur, next, j, |signatures|, records, clones, g, i);
    if c < j {
      MoveIsKept(m, s, cur, next, made, MadeFor(j, signatures), g, i, c);
    }
  }

  lemma ProcessedClone(m: Module, s: States, cur: Module, made: seq<Made>, j: nat, k: nat)
    requires Processed(m, s, cur, made, j) && k < |made|
    ensures made[k].of < j && IsNeeded(m, s, made[k]) && CloneCalls(m, cur, |m.functions| + k, made[k].of)
    ensures |cur.functions| == |m.functions| + |made|
  {
    hide IsNeeded, CloneCalls, CallMoved;
  }

  lemma CloneStays(m: Module, s: States, cur: Module, next: Module, made: seq<Made>, j: nat, records: seq<CallRecord>, signatures: seq<Signature>,
                   clones: seq<Clone>, k: nat)
    requires WellFormed(m) && j < |m.functions| && Processed(m, s, cur, made, j) && k < |made|
    requires forall q :: 0 <= q < |records| ==> CallsAt(m, records[q].f, records[q].i, j)
    requires Retargeted(WithClones(cur, j, |signatures|), next, j, records, clones, |records|)
    ensures CloneCalls(m, next, |m.functions| + k, made[k].of)
  {
    hide *;
    var f, of := |m.functions| + k, made[k].of;
    ProcessedClone(m, s, cur, made, j, k);
    forall i: nat, c: nat | CallsAt(m, of, i, c)
      ensures if c < of then SameCallIn(next, f, of, i) else CallsAt(next, f, i, c)
    {
      CloneCallsAt(m, cur, f, of, i, c);
      CloneCallStays(m, s, cur, next, made, j, records, signatures, clones, f, of, i, c);
    }
    CloneCallsFrom(m, next, f, of);
  }

  lemma CloneCallsAt(m: Module, cur: Module, f: nat, of: nat, i: nat, c: nat)
    requires CloneCalls(m, cur, f, of) && CallsAt(m, of, i, c)
    ensures if c < of then SameCallIn(cur, f, of, i) else CallsAt(cur, f, i, c)
  {
  }

  lemma CloneCallsFrom(m: Module, cur: Module, f: nat, of: nat)
    requires forall i: nat, c: nat :: CallsAt(m, of, i, c) ==> if c < of then SameCallIn(cur, f, of, i) else CallsAt(cur, f, i, c)
    ensures CloneCalls(m, cur, f, of)
  {
    hide CallsAt, SameCallIn;
  }

  lemma CloneCallStays(m: Module, s: States, cur: Module, next: Module, made: seq<Made>, j: nat, records: seq<CallRecord>, signatures: seq<Signature>,
                       clones: seq<Clone>, f: nat, of: nat, i: nat, c: nat)
    requires WellFormed(m) && of < j < |m.functions| && Processed(m, s, cur, made, j) && CallsAt(m, of, i, c) && |m.functions| <= f < |cur.functions|
    requires if c < of then SameCallIn(cur, f, of, i) else CallsAt(cur, f, i, c)
    requires forall q :: 0 <= q < |records| ==> CallsAt(m, records[q].f, records[q].i, j)
    requires Retargeted(WithClones(cur, j, |signatures|), next, j, records, clones, |records|)
    ensures if c < of then SameCallIn(next, f, of, i) else CallsAt(next, f, i, c)
  {
    hide Retargeted, Processed, InRecords, CallMoved;
    NotRecorded(m, j, records, f, i);
    KeptAt(cur, next, j, |signatures|, records, clones, f, i);
    if c < of {
      OtherCallsStay(m, s, cur, next, made, j, records, signatures, clones, of, i, c);
    }
  }

  lemma NewCloneCalls(m: Module, s: States, cur: Module, next: Module, made: seq<Made>, j: nat, records: seq<CallRecord>, signatures: seq<Signature>,
                      clones: seq<Clone>, k: nat)
    requires WellFormed(m) && j < |m.functions| && Processed(m, s, cur, made, j) && k < |signatures|
    requires forall q :: 0 <= q < |records| ==> CallsAt(m, records[q].f, records[q].i, j)
    requires Retargeted(WithClones(cur, j, |signatures|), next, j, records, clones, |records|)
    ensures CloneCalls(m, next, |cur.functions| + k, j)
  {
    var f := |cur.functions| + k;
    hide Retargeted, AgreeAt, HasSpecialization, IsNeeded, CallMoved;
    forall i: nat, c: nat | CallsAt(m, j, i, c)
      ensures if c < j then SameCallIn(next, f, j, i) else CallsAt(next, f, i, c)
    {
      if c != j {
        OtherCallsStay(m, s, cur, next, made, j, records, signatures, clones, j, i, c);
      }
      NotRecorded(m, j, records, f, i);
      KeptAt(cur, next, j, |signatures|, records, clones, f, i);
    }
  }

  lemma CallsAreProcessed(m: Module, s: States, cur: Module, next: Module, made: seq<Made>, j: nat, callMap: map<nat, seq<CallRecord>>,
                          signatures: seq<Signature>, sawGeneric: bool, g: nat, i: nat, c: nat)
    requires j < |m.functions| && Processed(m, s, cur, made, j) && !AgreeAt(m, s, j) && CallsAt(m, g, i, c) && c < |m.functions|
    requires RecordsSound(m, s, callMap) && RecordsComplete(m, callMap, |m.functions|, 0) && j in callMap
    requires SignaturesOf(callMap[j], |callMap[j]|, signatures, sawGeneric)
    requires forall q :: 0 <= q < |callMap[j]| ==> CallsAt(m, callMap[j][q].f, callMap[j][q].i, j)
    requires Retargeted(WithClones(cur, j, |signatures|), next, j, callMap[j], ClonesFor(signatures, |cur.functions|), |callMap[j]|)
    requires |cur.functions| == |m.functions| + |made|
    ensures if c < j + 1 then CallMoved(m, s, next, made + MadeFor(j, signatures), g, i, c) else CallsAt(next, g, i, c)
  {
    hide RecordsSound, RecordsComplete, SignaturesOf, AgreeAt, CallMoved, Processed, Retargeted;
    if c == j {
      RecordedMove(m, s, WithClones(cur, j, |signatures|), next, made, j, callMap, signatures, sawGeneric, g, i);
    } else {
      OtherCallsStay(m, s, cur, next, made, j, callMap[j], signatures, ClonesFor(signatures, |cur.functions|), g, i, c);
    }
  }

  lemma ClonesAreProcessed(m: Module, s: States, cur: Module, next: Module, made: seq<Made>, j: nat, callMap: map<nat, seq<CallRecord>>,
                           signatures: seq<Signature>, k: nat)
    requires WellFormed(m) && j < |m.functions| && Processed(m, s, cur, made, j) && j in callMap && k < |made| + |signatures|
    requires !AgreeAt(m, s, j)
    requires forall k :: 0 <= k < |signatures| ==> IsNeeded(m, s, Made(j, signatures[k]))
    requires forall q :: 0 <= q < |callMap[j]| ==> CallsAt(m, callMap[j][q].f, callMap[j][q].i, j)
    requires Retargeted(WithClones(cur, j, |signatures|), next, j, callMap[j], ClonesFor(signatures, |cur.functions|), |callMap[j]|)
    requires |cur.functions| == |m.functions| + |made|
    ensures var clone := (made + MadeFor(j, signatures))[k]; clone.of < j + 1 && IsNeeded(m, s, clone) && CloneCalls(m, next, |m.functions| + k, clone.of)
  {
    hide AgreeAt, CloneCalls, IsNeeded, WellFormed, Processed, Retargeted;
    var clones := ClonesFor(signatures, |cur.functions|);
    if k < |made| {
      ProcessedClone(m, s, cur, made, j, k);
      CloneStays(m, s, cur, next, made, j, callMap[j], signatures, clones, k);
    } else {
      NewCloneCalls(m, s, cur, next, made, j, callMap[j], signatures, clones, k - |made|);
    }
  }

  lemma MadeDiffer(m: Module, s: States, cur: Module, made: seq<Made>, j: nat, signatures: seq<Signature>)
    requires Processed(m, s, cur, made, j) && forall a, b :: 0 <= a < b < |signatures| ==> signatures[a] != signatures[b]
    ensures var made' := made + MadeFor(j, signatures); forall a, b :: 0 <= a < b < |made'| ==> made'[a] != made'[b]
  {
    hide CallMoved, IsNeeded, CloneCalls;
    var made' := made + MadeFor(j, signatures);
    forall a, b | 0 <= a < b < |made'|
      ensures made'[a] != made'[b]
    {
      assert a < |made| ==> made'[a] == made[a] && made[a].of < j;
    }
  }

  lemma SizesAfter(m: Module, s: States, cur: Module, next: Module, made: seq<Made>, j: nat, records: seq<CallRecord>, signatures: seq<Signature>)
    requires j < |m.functions| && Processed(m, s, cur, made, j)
    requires Retargeted(WithClones(cur, j, |signatures|), next, j, records, ClonesFor(signatures, |cur.functions|), |records|)
    ensures |cur.functions| == |m.functions| + |made| && |next.functions| == |cur.functions| + |signatures|
  {
    hide CallMoved, IsNeeded, CloneCalls;
  }

  lemma NewClonesAreNeeded(m: Module, s: States, callMap: map<nat, seq<CallRecord>>, j: nat, signatures: seq<Signature>, sawGeneric: bool)
    requires j < |m.functions| && RecordsSound(m, s, callMap) && j in callMap && SignaturesOf(callMap[j], |callMap[j]|, signatures, sawGeneric)
    requires |signatures| >= 2 || (|signatures| >= 1 && sawGeneric)
    ensures !AgreeAt(m, s, j) && forall k :: 0 <= k < |signatures| ==> IsNeeded(m, s, Made(j, signatures[k]))
  {
    hide RecordsSound, SignaturesOf, AgreeAt, HasSpecialization, BuildDispatchSignature;
    SpecializedDisagrees(m, s, callMap, j, signatures, sawGeneric);
  }

  /** Specializing function j deals with it. */
  lemma ProcessedNext(m: Module, s: States, cur: Module, next: Module, made: seq<Made>, j: nat, callMap: map<nat, seq<CallRecord>>,
                      signatures: seq<Signature>, sawGeneric: bool)
    requires WellFormed(m) && j < |m.functions| && Processed(m, s, cur, made, j)
    requires RecordsSound(m, s, callMap) && RecordsComplete(m, callMap, |m.functions|, 0) && j in callMap
    requires SignaturesOf(callMap[j], |callMap[j]|, signatures, sawGeneric) && (|signatures| >= 2 || (|signatures| >= 1 && sawGeneric))
    requires forall q :: 0 <= q < |callMap[j]| ==> CallsAt(m, callMap[j][q].f, callMap[j][q].i, j)
    requires Retargeted(WithClones(cur, j, |signatures|), next, j, callMap[j], ClonesFor(signatures, |cur.functions|), |callMap[j]|)
    ensures Processed(m, s, next, made + MadeFor(j, signatures), j + 1)
  {
    hide RecordsSound, RecordsComplete, SignaturesOf, AgreeAt, HasSpecialization, CloneCalls, CallMoved, WellFormed, Retargeted, IsNeeded;
    var made' := made + MadeFor(j, signatures);
    SizesAfter(m, s, cur, next, made, j, callMap[j], signatures);
    NewClonesAreNeeded(m, s, callMap, j, signatures, sawGeneric);
    SignaturesDiffer(callMap[j], signatures, sawGeneric);
    MadeDiffer(m, s, cur, made, j, signatures);
    forall g: nat, i: nat, c: nat | CallsAt(m, g, i, c) && c < |m.functions|
      ensures if c < j + 1 then CallMoved(m, s, next, made', g, i, c) else CallsAt(next, g, i, c)
    {
      CallsAreProcessed(m, s, cur, next, made, j, callMap, signatures, sawGeneric, g, i, c);
    }
    forall k: nat | k < |made'|
      ensures made'[k].of < j + 1 && IsNeeded(m, s, made'[k]) && CloneCalls(m, next, |m.functions| + k, made'[k].of)
    {
      ClonesAreProcessed(m, s, cur, next, made, j, callMap, signatures, k);
    }
  }

  lemma SignaturesDiffer(records: seq<CallRecord>, signatures: seq<Signature>, sawGeneric: bool)
    requires SignaturesOf(records, |records|, signatures, sawGeneric)
    ensures forall a, b :: 0 <= a < b < |signatures| ==> signatures[a] != signatures[b]
  {
  }

  lemma SameToCloneAfter(cur: Module, next: Module, j: nat, count: nat, records: seq<CallRecord>, clones: seq<Clone>)
    requires j < |cur.functions| && ShouldSpecialize(cur.functions[j]) && Retargeted(WithClones(cur, j, count), next, j, records, clones, |records|)
    ensures SameToClone(cur, next, j)
  {
    var cloned := WithClones(cur, j, count);
    forall k | 0 <= k < |next.functions|
      ensures ShouldSpecialize(next.functions[k]) == ShouldSpecialize(cloned.functions[k])
    {
      assert SameButCode(next.functions[k], cloned.functions[k]);
    }
  }

  function Identity(n: nat): (r: Origin)
    ensures |r| == n && forall k :: 0 <= k < n ==> r[k] == k
  {
    seq(n, k => k)
  }

  function Origins(made: seq<Made>): (r: Origin)
    ensures |r| == |made| && forall k :: 0 <= k < |r| ==> r[k] == made[k].of
  {
    seq(|made|, k requires 0 <= k < |made| => made[k].of)
  }

  /** What one round comes to: clones exactly for the disagreeing calls, every call moved to the clone
      for its signature or left alone, and otherwise the same module. */
  ghost predicate IsRound(m: Module, trail: seq<Visit>, m': Module, made: seq<Made>) {
    && (forall v :: v in trail ==> IsVisit(m, v)) && Closed(m, Replay(m, trail))
    && Processed(m, Replay(m, trail), m', made, |m.functions|) && Renames(m', m, Identity(|m.functions|) + Origins(made))
  }

  /** Some pointer of a known kind is passed. */
  ghost predicate PassesAKind(m: Module, s: States, f: nat, i: nat, c: nat)
    requires CallsAt(m, f, i, c) && c < |m.functions|
  {
    exists index: nat :: index < |m.functions[c].params| && PassedKind(m, s, f, i, index) != Unknown
  }

  /** Afterwards two calls of a function that may be cloned name the same function exactly when they
      pass pointers of the same kinds; a call that passes none of a known kind, and any call of another
      function, names what it named before. */
  ghost predicate SplitByKinds(m: Module, s: States, m': Module) {
    && (forall f: nat, i: nat, c: nat :: CallsAt(m, f, i, c) && c < |m.functions| ==>
          && IsInst(m', f, i) && m'.functions[f].code[i].Call?
          && (PassesSameKinds(m, s, c) || !PassesAKind(m, s, f, i, c) ==> CallsAt(m', f, i, c))
          && (!CallsAt(m', f, i, c) ==> m'.functions[f].code[i].callee >= |m.functions|))
    && (forall f: nat, i: nat, g: nat, k: nat, c: nat ::
          CallsAt(m, f, i, c) && CallsAt(m, g, k, c) && c < |m.functions| && IsInst(m', f, i) && IsInst(m', g, k)
          && m'.functions[f].code[i].Call? && m'.functions[g].code[k].Call?
          && !m.functions[c].isDeclaration && !m.functions[c].hasAddressTaken && !m.functions[c].isVarArg ==>
            (m'.functions[f].code[i].callee == m'.functions[g].code[k].callee <==> SameKinds(m, s, c, f, i, g, k)))
  }

  lemma SpecializationIsKnownKind(m: Module, s: States, f: nat, i: nat, c: nat)
    requires CallsAt(m, f, i, c) && c < |m.functions|
    ensures HasSpecialization(SignatureAt(m, s, f, i, c)) <==> PassesAKind(m, s, f, i, c)
  {
    hide PassedKind;
    var signature := SignatureAt(m, s, f, i, c);
    forall index: nat | index < |signature|
      ensures signature[index] != GenericArg <==> PassedKind(m, s, f, i, index) != Unknown
    {
      KindOfArgument(m, s, f, i, c, index);
    }
  }

  lemma MoveOf(m: Module, s: States, m': Module, made: seq<Made>, f: nat, i: nat, c: nat)
    requires Processed(m, s, m', made, |m.functions|) && CallsAt(m, f, i, c) && c < |m.functions|
    ensures CallMoved(m, s, m', made, f, i, c)
  {
    hide CallMoved, IsNeeded, CloneCalls;
  }

  /** Where one call goes. */
  lemma MovedByKind(m: Module, s: States, m': Module, made: seq<Made>, f: nat, i: nat, c: nat)
    requires Processed(m, s, m', made, |m.functions|) && CallsAt(m, f, i, c) && c < |m.functions|
    ensures IsInst(m', f, i) && m'.functions[f].code[i].Call?
    ensures var callee := m'.functions[f].code[i].callee;
      if PassesSameKinds(m, s, c) || !PassesAKind(m, s, f, i, c) then callee == c
      else |m.functions| <= callee < |m.functions| + |made| && made[callee - |m.functions|] == Made(c, SignatureAt(m, s, f, i, c))
  {
    hide AgreeAt, PassesSameKinds, PassesAKind, HasSpecialization, SignatureAt, Processed, BuildDispatchSignature, SameKinds;
    AgreeAtIff(m, s, c);
    SpecializationIsKnownKind(m, s, f, i, c);
    MoveOf(m, s, m', made, f, i, c);
  }

  lemma MovedTogetherIff(m: Module, s: States, m': Module, made: seq<Made>, f: nat, i: nat, g: nat, k: nat, c: nat)
    requires Processed(m, s, m', made, |m.functions|) && CallsAt(m, f, i, c) && CallsAt(m, g, k, c) && c < |m.functions|
    requires !m.functions[c].isDeclaration && !m.functions[c].hasAddressTaken && !m.functions[c].isVarArg
    requires IsInst(m', f, i) && IsInst(m', g, k) && m'.functions[f].code[i].Call? && m'.functions[g].code[k].Call?
    ensures m'.functions[f].code[i].callee == m'.functions[g].code[k].callee <==> SameKinds(m, s, c, f, i, g, k)
  {
    hide *;
    MovedByKind(m, s, m', made, f, i, c);
    MovedByKind(m, s, m', made, g, k, c);
    SignaturesAreKinds(m, s, c, f, i, g, k);
    SpecializationIsKnownKind(m, s, f, i, c);
    SpecializationIsKnownKind(m, s, g, k, c);
    ClonesDiffer(m, s, m', made);
    if PassesSameKinds(m, s, c) {
      CallsPassSameKinds(m, s, c, f, i, g, k);
    } else if !PassesAKind(m, s, f, i, c) && !PassesAKind(m, s, g, k, c) {
      GenericCallsAgree(m, s, c, f, i, g, k);
    }
  }

  lemma CallsPassSameKinds(m: Module, s: States, c: nat, f: nat, i: nat, g: nat, k: nat)
    requires PassesSameKinds(m, s, c) && CallsAt(m, f, i, c) && CallsAt(m, g, k, c) && c < |m.functions|
    requires !m.functions[c].isDeclaration && !m.functions[c].hasAddressTaken && !m.functions[c].isVarArg
    ensures SameKinds(m, s, c, f, i, g, k)
  {
    hide SameKinds;
  }

  lemma ClonesDiffer(m: Module, s: States, m': Module, made: seq<Made>)
    requires Processed(m, s, m', made, |m.functions|)
    ensures forall a, b :: 0 <= a < b < |made| ==> made[a] != made[b]
  {
    hide CallMoved, IsNeeded, CloneCalls;
  }

  lemma GenericCallsAgree(m: Module, s: States, c: nat, f: nat, i: nat, g: nat, k: nat)
    requires CallsAt(m, f, i, c) && CallsAt(m, g, k, c) && c < |m.functions|
    requires !PassesAKind(m, s, f, i, c) && !PassesAKind(m, s, g, k, c)
    ensures SameKinds(m, s, c, f, i, g, k)
  {
    hide PassedKind;
  }

  lemma RoundSplits(m: Module, s: States, m': Module, made: seq<Made>)
    requires Processed(m, s, m', made, |m.functions|)
    ensures SplitByKinds(m, s, m')
  {
    hide Processed, SameKinds, PassesAKind, SignatureAt, PassesSameKinds;
    forall f: nat, i: nat, c: nat | CallsAt(m, f, i, c) && c < |m.functions|
      ensures IsInst(m', f, i) && m'.functions[f].code[i].Call?
      ensures PassesSameKinds(m, s, c) || !PassesAKind(m, s, f, i, c) ==> CallsAt(m', f, i, c)
      ensures !CallsAt(m', f, i, c) ==> m'.functions[f].code[i].callee >= |m.functions|
    {
      MovedByKind(m, s, m', made, f, i, c);
    }
    forall f: nat, i: nat, g: nat, k: nat, c: nat |
      CallsAt(m, f, i, c) && CallsAt(m, g, k, c) && c < |m.functions| && IsInst(m', f, i) && IsInst(m', g, k)
      && m'.functions[f].code[i].Call? && m'.functions[g].code[k].Call?
      && !m.functions[c].isDeclaration && !m.functions[c].hasAddressTaken && !m.functions[c].isVarArg
      ensures m'.functions[f].code[i].callee == m'.functions[g].code[k].callee <==> SameKinds(m, s, c, f, i, g, k)
    {
      MovedTogetherIff(m, s, m', made, f, i, g, k, c);
    }
  }

  /** A round changes something exactly when the calls of some function pass different kinds. */
  lemma ChangedIff(m: Module, s: States, m': Module, made: seq<Made>)
    requires Processed(m, s, m', made, |m.functions|)
    requires made == [] ==> forall c: nat :: c < |m.functions| ==> AgreeAt(m, s, c)
    ensures made != [] <==> !AllPassSameKinds(m, s)
  {
    hide AgreeAt, PassesSameKinds, CloneCalls, CallMoved, HasSpecialization;
    forall c: nat ensures AgreeAt(m, s, c) <==> PassesSameKinds(m, s, c) { AgreeAtIff(m, s, c); }
    if made != [] { assert IsNeeded(m, s, made[0]); }
  }

  /** specializeManagedDispatchRound. The result is the module with some calls naming copies of what
      they named before; a round that changes nothing finds every function called with one signature. */
  method SpecializeManagedDispatchRound(m: Module, ghost levels: Levels, ghost base: nat)
    returns (m': Module, changed: bool, ghost origin: Origin, ghost trail: seq<Visit>, ghost made: seq<Made>)
    requires WellFormed(m) && Balanced(m, levels, base)
    ensures IsRound(m, trail, m', made) && origin == Identity(|m.functions|) + Origins(made)
    ensures (forall k :: 0 <= k < |origin| ==> origin[k] < |levels|) && Balanced(m', Compose(origin, levels), base)
    ensures changed <==> made != []
    ensures !changed ==> m' == m && forall c: nat :: c < |m.functions| ==> AgreeAt(m, Replay(m, trail), c)
    ensures changed <==> !AllPassSameKinds(m, Replay(m, trail))
    ensures SplitByKinds(m, Replay(m, trail), m')
  {
    hide Renames, Retargeted, Balanced, Unprocessed, SignaturesOf, RecordsSound, RecordsComplete, AgreeAt, ShouldSpecialize, Closed, Replay, TablesOK,
      Processed, WellFormed, SplitByKinds, PassesSameKinds, AllPassSameKinds, Recorded;
    var analysis := new ManagedStateAnalysis(m);
    analysis.Run();
    trail := analysis.trail;
    var s := analysis.states;
    var callMap := BuildCallMap(m, s);
    m', changed, origin, made := m, false, Identity(|m.functions|), [];
    StartOfRound(m, origin, levels, base);
    NothingProcessed(m, s);
    for j := 0 to |m.functions|
      invariant Renames(m', m, origin) && Unprocessed(m', m, j) && |m'.functions| >= |m.functions|
      invariant (forall k :: 0 <= k < |origin| ==> origin[k] < |levels|) && Balanced(m', Compose(origin, levels), base)
      invariant Processed(m, s, m', made, j) && origin == Identity(|m.functions|) + Origins(made)
      invariant changed <==> made != []
      invariant !changed ==> m' == m && forall c: nat :: c < j ==> AgreeAt(m, s, c)
    {
      var signatures: seq<Signature>, sawGeneric := [], false;
      HeaderIsKept(m', m, origin, j);
      if ShouldSpecialize(m'.functions[j]) {
        if j in callMap {
          signatures, sawGeneric := CollectSignatures(callMap[j]);
        }
      } else {
        NotSpecialized(m, s, j);
      }
      if signatures != [] && (|signatures| != 1 || sawGeneric) {
        RecordsStillThere(m, s, callMap, m', origin, j, |signatures|);
        var next := SpecializeFunction(m', j, callMap[j], signatures);
        AfterSpecializing(m, m', next, origin, levels, base, j, callMap[j], signatures, sawGeneric);
        ProcessedNext(m, s, m', next, made, j, callMap, signatures, sawGeneric);
        m', changed, origin, made := next, true, origin + Copies(j, |signatures|), made + MadeFor(j, signatures);
      } else {
        if ShouldSpecialize(m.functions[j]) { LeftAloneAgrees(m, s, callMap, j, signatures, sawGeneric); }
        NextUnprocessed(m', m, j);
        LeftAlone(m, s, m', made, j);
      }
    }
    RoundSplits(m, Replay(m, trail), m', made);
    ChangedIff(m, Replay(m, trail), m', made);
  }

  lemma RoundAddsClones(m: Module, trail: seq<Visit>, m': Module, made: seq<Made>)
    requires IsRound(m, trail, m', made)
    ensures |m'.functions| == |m.functions| + |made|
  {
    hide CallMoved, IsNeeded, CloneCalls, Renames;
  }

  lemma StartOfRound(m: Module, origin: Origin, levels: Levels, base: nat)
    requires WellFormed(m) && Balanced(m, levels, base) && origin == Identity(|m.functions|)
    ensures Renames(m, m, origin) && Unprocessed(m, m, 0) && |levels| == |m.functions|
    ensures (forall k :: 0 <= k < |origin| ==> origin[k] < |levels|) && Balanced(m, Compose(origin, levels), base)
  {
    RenamesItself(m, origin);
    assert Compose(origin, levels) == levels;
  }

  lemma HeaderIsKept(cur: Module, m: Module, origin: Origin, j: nat)
    requires Renames(cur, m, origin) && j < |m.functions|
    ensures j < |cur.functions| && ShouldSpecialize(cur.functions[j]) == ShouldSpecialize(m.functions[j])
  {
    assert CopyOf(cur, m, origin, j);
  }

  lemma NotSpecialized(m: Module, s: States, j: nat)
    ensures j < |m.functions| && !ShouldSpecialize(m.functions[j]) ==> AgreeAt(m, s, j)
  {
  }

  lemma NextUnprocessed(cur: Module, m: Module, j: nat)
    requires Unprocessed(cur, m, j)
    ensures Unprocessed(cur, m, j + 1)
  {
  }

  // ----- The whole pass -----

  lemma RenamedIsWellFormed(m': Module, m: Module, origin: Origin)
    requires Renames(m', m, origin)
    ensures WellFormed(m')
  {
    forall f: nat, i: nat | IsInst(m', f, i) && m'.functions[f].code[i].Call?
      ensures m'.functions[f].code[i].callee < |m'.functions|
    {
      SameResultType(m', m, origin, f, i);
    }
  }

  /** Copies are at the level of their originals, and as long. */
  lemma RenamedIsLayered(m': Module, m: Module, origin: Origin, levels: Levels, length: nat, depth: nat)
    requires Renames(m', m, origin) && Layered(m, levels)
    requires forall f :: 0 <= f < |m.functions| ==> |m.functions[f].code| <= length
    requires forall f :: 0 <= f < |levels| ==> levels[f] < depth
    ensures forall k :: 0 <= k < |origin| ==> origin[k] < |levels|
    ensures Layered(m', Compose(origin, levels))
    ensures forall f :: 0 <= f < |m'.functions| ==> |m'.functions[f].code| <= length
    ensures forall f :: 0 <= f < |origin| ==> Compose(origin, levels)[f] < depth
  {
    OriginsInside(m', m, origin);
    var levels' := Compose(origin, levels);
    forall f: nat, i: nat | IsInst(m', f, i) && m'.functions[f].code[i].Call?
      ensures m'.functions[f].code[i].callee < |levels'|
      ensures ShouldSpecialize(m'.functions[m'.functions[f].code[i].callee]) ==> levels'[f] < levels'[m'.functions[f].code[i].callee]
    {
      SameResultType(m', m, origin, f, i);
      assert IsInst(m, origin[f], i);
      assert CopyOf(m', m, origin, m'.functions[f].code[i].callee);
    }
    forall f | 0 <= f < |m'.functions|
      ensures |m'.functions[f].code| <= length
    {
      assert CopyOf(m', m, origin, f);
    }
  }

  function Longest(functions: seq<Function>): (r: nat)
    ensures forall f :: 0 <= f < |functions| ==> |functions[f].code| <= r
  {
    if functions == [] then 0
    else
      var rest := Longest(functions[..|functions| - 1]);
      if |functions[|functions| - 1].code| > rest then |functions[|functions| - 1].code| else rest
  }

  /** How many functions specialization can ever lead to. */
  ghost function Limit(m: Module, depth: nat): nat {
    Bound(|m.functions|, Longest(m.functions), depth)
  }

  lemma WithinLimit(cur: Module, m: Module, origin: Origin, levels: Levels, depth: nat)
    requires Renames(cur, m, origin) && Layered(m, levels) && forall f :: 0 <= f < |levels| ==> levels[f] < depth
    requires (forall k :: 0 <= k < |origin| ==> origin[k] < |levels|) && Balanced(cur, Compose(origin, levels), |m.functions|)
    ensures |cur.functions| <= Limit(m, depth)
  {
    RenamedIsLayered(cur, m, origin, levels, Longest(m.functions), depth);
    hide Renames, Layered, Balanced;
    FunctionsAreBounded(cur, Compose(origin, levels), |m.functions|, Longest(m.functions), depth);
  }

  lemma ComposeAssociates(inner: Origin, outer: Origin, levels: Levels)
    requires (forall k :: 0 <= k < |inner| ==> inner[k] < |outer|) && forall k :: 0 <= k < |outer| ==> outer[k] < |levels|
    ensures Compose(inner, Compose(outer, levels)) == Compose(Compose(inner, outer), levels)
  {
  }

  /** specializeManagedDispatch, on a module whose functions that may be cloned call each other in no
      cycle; recursion through any other function does no harm. It comes to an end,
      with a module that renames to the original one and in which, by the analysis of that very
      module, all calls of each specializable function pass arguments of the same kinds. */
  method SpecializeManagedDispatch(m: Module, ghost levels: Levels, ghost depth: nat)
    returns (m': Module, ghost origin: Origin, ghost trail: seq<Visit>)
    requires WellFormed(m) && Layered(m, levels) && forall f :: 0 <= f < |levels| ==> levels[f] < depth
    ensures Renames(m', m, origin)
    ensures (forall v :: v in trail ==> IsVisit(m', v)) && Closed(m', Replay(m', trail))
    ensures AllPassSameKinds(m', Replay(m', trail)) && forall c: nat :: c < |m'.functions| ==> AgreeAt(m', Replay(m', trail), c)
    ensures |m'.functions| <= Limit(m, depth)
  {
    hide Renames, Layered, Balanced, AgreeAt, Closed, Replay, WellFormed, AllPassSameKinds, SplitByKinds;
    m', origin, trail := m, Identity(|m.functions|), [];
    RenamesItself(m, origin);
    SameLevels(m, levels);
    WithinLimit(m, m, origin, levels, depth);
    var changed := true;
    while changed
      invariant Renames(m', m, origin) && WellFormed(m') && (forall k :: 0 <= k < |origin| ==> origin[k] < |levels|)
      invariant Balanced(m', Compose(origin, levels), |m.functions|) && |m'.functions| <= Limit(m, depth)
      invariant !changed ==> (forall v :: v in trail ==> IsVisit(m', v)) && Closed(m', Replay(m', trail))
      invariant !changed ==> AllPassSameKinds(m', Replay(m', trail)) && forall c: nat :: c < |m'.functions| ==> AgreeAt(m', Replay(m', trail), c)
      decreases Limit(m, depth) - |m'.functions|, changed
    {
      var next: Module;
      ghost var inner: Origin;
      ghost var made: seq<Made>;
      next, changed, inner, trail, made := SpecializeManagedDispatchRound(m', Compose(origin, levels), |m.functions|);
      RoundAddsClones(m', trail, next, made);
      RenamesTransitive(next, m', m, inner, origin);
      ComposeAssociates(inner, origin, levels);
      origin := Compose(inner, origin);
      m' := next;
      RenamedIsWellFormed(m', m, origin);
      WithinLimit(m', m, origin, levels, depth);
    }
  }

  lemma SameLevels(m: Module, levels: Levels)
    requires Layered(m, levels)
    ensures Compose(Identity(|m.functions|), levels) == levels
    ensures |levels| == |m.functions| && Balanced(m, levels, |m.functions|)
  {
    BalancedAtFirst(m, levels);
  }

  // ----- What agreement is for -----

  lemma KindsDetermineKinds(a: PointerState, b: PointerState)
    requires ToDispatchArgKind(a) == ToDispatchArgKind(b)
    ensures DispatchKind(a) == DispatchKind(b)
  {
  }

  lemma SamePassedKind(m: Module, s: States, g: nat, i: nat, g': nat, i': nat, c: nat, index: nat)
    requires AgreeAt(m, s, c) && c < |m.functions| && ShouldSpecialize(m.functions[c])
    requires PassesTo(m, g, i, c, index) && PassesTo(m, g', i', c, index)
    ensures DispatchKind(Passed(m, g, i, c, index, s)) == DispatchKind(Passed(m, g', i', c, index, s))
  {
    hide ValueState, DispatchKind, ToDispatchArgKind;
    assert CallsAt(m, g, i, c) && CallsAt(m, g', i', c);
    assert SignatureAt(m, s, g, i, c)[index] == SignatureAt(m, s, g', i', c)[index];
    KindsDetermineKinds(Passed(m, g, i, c, index, s), Passed(m, g', i', c, index, s));
  }

  function PassedStates(m: Module, s: States, c: nat, index: nat): set<PointerState> {
    set g, i | 0 <= g < |m.functions| && 0 <= i < |m.functions[g].code| && PassesTo(m, g, i, c, index) :: Passed(m, g, i, c, index, s)
  }

  /** Everything the direct calls pass for a parameter. */
  ghost function AllPassed(m: Module, s: States, c: nat, index: nat): PointerState {
    set b | b in AllBits && IsPassed(m, c, index, s, b)
  }

  lemma AllPassedHas(m: Module, s: States, c: nat, index: nat, b: StateBit)
    ensures b in AllPassed(m, s, c, index) <==> IsPassed(m, c, index, s, b)
  {
    hide IsPassed;
    match b {
      case IsNull =>
      case IsRaw =>
      case IsObject =>
      case IsArray =>
    }
  }

  /** Adding `back` to a state of the given kind leaves its kind: of a concrete kind it may bring nothing
      but its own bit and null, of no kind it must not complete one. */
  predicate LeavesKind(kind: ManagedPointerKind, passed: PointerState, back: PointerState) {
    match kind
    case Raw => back <= {IsNull, IsRaw}
    case Object => back <= {IsNull, IsObject}
    case Array => back <= {IsNull, IsArray}
    case Unknown => DispatchKind(passed + back) == Unknown
  }

  lemma LeavesKindIff(passed: PointerState, back: PointerState)
    ensures DispatchKind(passed + back) == DispatchKind(passed) <==> LeavesKind(DispatchKind(passed), passed, back)
  {
    var concrete, all := passed - {IsNull}, (passed + back) - {IsNull};
    if concrete == {IsRaw} {
      OneBitAndMore(concrete, back, all, IsRaw);
    } else if concrete == {IsObject} {
      OneBitAndMore(concrete, back, all, IsObject);
    } else if concrete == {IsArray} {
      OneBitAndMore(concrete, back, all, IsArray);
    }
  }

  lemma OneBitAndMore(concrete: PointerState, back: PointerState, all: PointerState, bit: StateBit)
    requires concrete == {bit} && bit != IsNull && all == concrete + (back - {IsNull})
    ensures all == {bit} <==> back <= {IsNull, bit}
  {
    if all == {bit} {
      forall b | b in back
        ensures b in {IsNull, bit}
      {
        assert b != IsNull ==> b in all;
      }
    }
  }

  /** The calls of an agreeing function pass states of one kind, and so is all they pass together. */
  lemma AllPassedHasKind(m: Module, s: States, c: nat, index: nat, g: nat, i: nat)
    requires AgreeAt(m, s, c) && c < |m.functions| && ShouldSpecialize(m.functions[c]) && PassesTo(m, g, i, c, index)
    ensures DispatchKind(AllPassed(m, s, c, index)) == DispatchKind(Passed(m, g, i, c, index, s))
  {
    hide AgreeAt, Passed, DispatchKind;
    var union, parts := AllPassed(m, s, c, index), PassedStates(m, s, c, index);
    var kind := DispatchKind(Passed(m, g, i, c, index, s));
    PassedIsIn(m, s, c, index, g, i);
    forall part | part in parts
      ensures DispatchKind(part) == kind
    {
      var g', i' := PassedComesFrom(m, s, c, index, part);
      SamePassedKind(m, s, g', i', g, i, c, index);
    }
    forall b
      ensures b in union <==> exists part :: part in parts && b in part
    {
      AllPassedHas(m, s, c, index, b);
      UnionMembers(m, s, c, index, b);
    }
    hide AllPassed, PassedStates;
    UnionKeepsKind(union, parts, kind);
  }

  lemma ParamIsPassedAndBack(m: Module, s: States, c: nat, index: nat, back: PointerState)
    requires forall b :: b in Get(s, ParamCell(c, index)) <==> IsPassed(m, c, index, s, b) || b in back
    ensures Get(s, ParamCell(c, index)) == AllPassed(m, s, c, index) + back
  {
    hide IsPassed;
    forall b
      ensures b in AllPassed(m, s, c, index) <==> IsPassed(m, c, index, s, b)
    {
      AllPassedHas(m, s, c, index, b);
    }
    hide AllPassed, Get;
  }

  lemma SpecializableIsInternal(m: Module, c: nat)
    requires c < |m.functions| && ShouldSpecialize(m.functions[c])
    ensures Internal(m, c)
  {
  }

  lemma ParamIsPassedAndFlowed(m: Module, trail: seq<Visit>, c: nat, index: nat)
    requires (forall v :: v in trail ==> IsVisit(m, v)) && Closed(m, Replay(m, trail)) && c < |m.functions| && ShouldSpecialize(m.functions[c])
    ensures Get(Replay(m, trail), ParamCell(c, index)) == AllPassed(m, Replay(m, trail), c, index) + FlowedBack(m, trail, c, index)
  {
    hide Closed, Replay, AllPassed, FlowedBack, Get, IsPassed, ShouldSpecialize;
    SpecializableIsInternal(m, c);
    forall b
      ensures b in Get(Replay(m, trail), ParamCell(c, index)) <==> IsPassed(m, c, index, Replay(m, trail), b) || b in FlowedBack(m, trail, c, index)
    {
      ParamIsUnion(m, trail, c, index, b);
    }
    ParamIsPassedAndBack(m, Replay(m, trail), c, index, FlowedBack(m, trail, c, index));
  }

  lemma ParamIsPassedAndStored(m: Module, trail: seq<Visit>, c: nat, index: nat)
    requires (forall v :: v in trail ==> IsVisit(m, v)) && Closed(m, Replay(m, trail)) && c < |m.functions| && ShouldSpecialize(m.functions[c])
    requires TrackedOnly(m)
    ensures var s := Replay(m, trail); Get(s, ParamCell(c, index)) == AllPassed(m, s, c, index) + StoredBack(m, c, index, s)
  {
    hide Closed, Replay, AllPassed, StoredBack, Get, IsPassed, ShouldSpecialize, TrackedOnly;
    var s := Replay(m, trail);
    SpecializableIsInternal(m, c);
    forall b
      ensures b in Get(s, ParamCell(c, index)) <==> IsPassed(m, c, index, s, b) || b in StoredBack(m, c, index, s)
    {
      TrackedParamIsUnion(m, trail, c, index, b);
    }
    ParamIsPassedAndBack(m, s, c, index, StoredBack(m, c, index, s));
  }

  /** When specialization stops, caller and callee agree on a pointer argument exactly when what the
      visits of the stores of the parameter have sent back leaves the kind of what the calls pass. */
  lemma CallersAndCalleesAgreeIff(m: Module, trail: seq<Visit>, c: nat, index: nat, g: nat, i: nat)
    requires (forall v :: v in trail ==> IsVisit(m, v)) && Closed(m, Replay(m, trail)) && AgreeAt(m, Replay(m, trail), c)
    requires c < |m.functions| && ShouldSpecialize(m.functions[c]) && PassesTo(m, g, i, c, index)
    ensures var s := Replay(m, trail);
      var kind := DispatchKind(Passed(m, g, i, c, index, s));
      DispatchKind(Get(s, ParamCell(c, index))) == kind <==> LeavesKind(kind, AllPassed(m, s, c, index), FlowedBack(m, trail, c, index))
  {
    hide *;
    ParamIsPassedAndFlowed(m, trail, c, index);
    AllPassedHasKind(m, Replay(m, trail), c, index, g, i);
    LeavesKindIff(AllPassed(m, Replay(m, trail), c, index), FlowedBack(m, trail, c, index));
  }

  /** Where pointers are kept in tracked variables, exactly when the managed states of the variables it
      is stored in do. */
  lemma TrackedCallersAndCalleesAgreeIff(m: Module, trail: seq<Visit>, c: nat, index: nat, g: nat, i: nat)
    requires (forall v :: v in trail ==> IsVisit(m, v)) && Closed(m, Replay(m, trail)) && AgreeAt(m, Replay(m, trail), c)
    requires c < |m.functions| && ShouldSpecialize(m.functions[c]) && PassesTo(m, g, i, c, index) && TrackedOnly(m)
    ensures var s := Replay(m, trail);
      var kind := DispatchKind(Passed(m, g, i, c, index, s));
      DispatchKind(Get(s, ParamCell(c, index))) == kind <==> LeavesKind(kind, AllPassed(m, s, c, index), StoredBack(m, c, index, s))
  {
    hide *;
    ParamIsPassedAndStored(m, trail, c, index);
    AllPassedHasKind(m, Replay(m, trail), c, index, g, i);
    LeavesKindIff(AllPassed(m, Replay(m, trail), c, index), StoredBack(m, c, index, Replay(m, trail)));
  }

  /** In particular they agree when no visit of such a store has found a managed location. */
  lemma CallersAndCalleesAgree(m: Module, trail: seq<Visit>, c: nat, index: nat, g: nat, i: nat)
    requires (forall v :: v in trail ==> IsVisit(m, v)) && Closed(m, Replay(m, trail)) && AgreeAt(m, Replay(m, trail), c)
    requires c < |m.functions| && ShouldSpecialize(m.functions[c]) && PassesTo(m, g, i, c, index) && FlowedBack(m, trail, c, index) == {}
    ensures DispatchKind(Get(Replay(m, trail), ParamCell(c, index))) == DispatchKind(Passed(m, g, i, c, index, Replay(m, trail)))
  {
    hide AgreeAt, Closed, Replay, Passed, FlowedBack, Get, ShouldSpecialize, PassesTo;
    CallersAndCalleesAgreeIff(m, trail, c, index, g, i);
    AllPassedHasKind(m, Replay(m, trail), c, index, g, i);
    assert AllPassed(m, Replay(m, trail), c, index) + {} == AllPassed(m, Replay(m, trail), c, index);
  }

  lemma PassedIsIn(m: Module, s: States, c: nat, index: nat, g: nat, i: nat)
    requires PassesTo(m, g, i, c, index)
    ensures Passed(m, g, i, c, index, s) in PassedStates(m, s, c, index)
  {
    hide Passed;
  }

  lemma PassedComesFrom(m: Module, s: States, c: nat, index: nat, part: PointerState) returns (g: nat, i: nat)
    requires part in PassedStates(m, s, c, index)
    ensures PassesTo(m, g, i, c, index) && Passed(m, g, i, c, index, s) == part
  {
    hide Passed;
    g, i :| 0 <= g < |m.functions| && 0 <= i < |m.functions[g].code| && PassesTo(m, g, i, c, index) && Passed(m, g, i, c, index, s) == part;
  }

  lemma UnionMembers(m: Module, s: States, c: nat, index: nat, b: StateBit)
    ensures (exists part :: part in PassedStates(m, s, c, index) && b in part) <==>
      exists g: nat, i: nat :: PassesTo(m, g, i, c, index) && b in Passed(m, g, i, c, index, s)
  {
    hide Passed, PassedStates;
    if exists part :: part in PassedStates(m, s, c, index) && b in part {
      var part :| part in PassedStates(m, s, c, index) && b in part;
      var g, i := PassedComesFrom(m, s, c, index, part);
      assert b in Passed(m, g, i, c, index, s);
    }
    if exists g: nat, i: nat :: PassesTo(m, g, i, c, index) && b in Passed(m, g, i, c, index, s) {
      var g: nat, i: nat :| PassesTo(m, g, i, c, index) && b in Passed(m, g, i, c, index, s);
      PassedIsIn(m, s, c, index, g, i);
    }
  }
}
