/** Dispatch specialization: functions called with different kinds of pointers are cloned, one copy
    for each signature of argument kinds, round after round until the calls of every function agree. */
module ManagedDispatch {
  import opened Wrappers
  import opened ManagedIR
  import opened ManagedState
  import opened ManagedStateAnalysisModule
  import opened StateSolutions
  import opened Renaming
  import opened DispatchCounting

  datatype DispatchArgKind = GenericArg | RawArg | ObjectArg | ArrayArg

  type Signature = seq<DispatchArgKind>

  datatype CallRecord = CallRecord(f: nat, i: nat, signature: Signature)

  datatype Clone = Clone(signature: Signature, f: nat)

  function ToDispatchArgKind(state: PointerState): DispatchArgKind {
    match DispatchKind(state)
    case Raw => RawArg
    case Object => ObjectArg
    case Array => ArrayArg
    case Unknown => GenericArg
  }

  predicate HasSpecialization(signature: Signature) {
    exists k :: 0 <= k < |signature| && signature[k] != GenericArg
  }

  function BuildDispatchSignature(m: Module, f: nat, args: seq<Operand>, callee: nat, s: States): (r: Signature)
    requires callee < |m.functions|
    ensures |r| == |m.functions[callee].params|
    ensures forall k :: 0 <= k < |r| ==>
      r[k] == if k < |args| && IsPointer(m, f, args[k]) then ToDispatchArgKind(ValueState(m, f, args[k], s)) else GenericArg
  {
    seq(|m.functions[callee].params|, k requires 0 <= k < |m.functions[callee].params| =>
      if k < |args| && IsPointer(m, f, args[k]) then ToDispatchArgKind(ValueState(m, f, args[k], s)) else GenericArg)
  }

  // ----- The call map -----

  predicate IsRecord(m: Module, s: States, c: nat, r: CallRecord) {
    && CallsAt(m, r.f, r.i, c) && c < |m.functions| && ShouldSpecialize(m.functions[c])
    && r.signature == BuildDispatchSignature(m, r.f, m.functions[r.f].code[r.i].args, c, s)
  }

  ghost predicate RecordsSound(m: Module, s: States, callMap: map<nat, seq<CallRecord>>) {
    forall c :: c in callMap ==> callMap[c] != [] && forall q :: 0 <= q < |callMap[c]| ==> IsRecord(m, s, c, callMap[c][q])
  }

  ghost predicate Recorded(callMap: map<nat, seq<CallRecord>>, c: nat, f: nat, i: nat) {
    c in callMap && exists q :: 0 <= q < |callMap[c]| && callMap[c][q].f == f && callMap[c][q].i == i
  }

  /** Every direct call of a specializable function before instruction i of f is recorded. */
  ghost predicate RecordsComplete(m: Module, callMap: map<nat, seq<CallRecord>>, f: nat, i: nat) {
    forall g: nat, k: nat, c: nat :: CallsAt(m, g, k, c) && c < |m.functions| && ShouldSpecialize(m.functions[c]) && (g < f || (g == f && k < i)) ==>
      Recorded(callMap, c, g, k)
  }

  function WithRecord(callMap: map<nat, seq<CallRecord>>, c: nat, r: CallRecord): map<nat, seq<CallRecord>> {
    callMap[c := (if c in callMap then callMap[c] else []) + [r]]
  }

  lemma RecordAdded(m: Module, s: States, callMap: map<nat, seq<CallRecord>>, c: nat, r: CallRecord)
    requires RecordsSound(m, s, callMap) && RecordsComplete(m, callMap, r.f, r.i) && IsRecord(m, s, c, r)
    ensures RecordsSound(m, s, WithRecord(callMap, c, r)) && RecordsComplete(m, WithRecord(callMap, c, r), r.f, r.i + 1)
  {
    var after := WithRecord(callMap, c, r);
    hide IsRecord, ShouldSpecialize;
    assert after[c][|after[c]| - 1] == r;
    assert CallsAt(m, r.f, r.i, c) by { assert IsRecord(m, s, c, r); RecordCalls(m, s, c, r); }
    forall g: nat, k: nat, d: nat | CallsAt(m, g, k, d) && d < |m.functions| && ShouldSpecialize(m.functions[d]) && (g < r.f || (g == r.f && k < r.i + 1))
      ensures Recorded(after, d, g, k)
    {
      if g == r.f && k == r.i {
        assert d == c;
        assert after[d][|after[d]| - 1].f == g;
      } else {
        assert Recorded(callMap, d, g, k);
        var q :| 0 <= q < |callMap[d]| && callMap[d][q].f == g && callMap[d][q].i == k;
        assert after[d][q] == callMap[d][q];
      }
    }
  }

  lemma RecordCalls(m: Module, s: States, c: nat, r: CallRecord)
    requires IsRecord(m, s, c, r)
    ensures CallsAt(m, r.f, r.i, c)
  {
  }

  method BuildCallMap(m: Module, s: States) returns (callMap: map<nat, seq<CallRecord>>)
    requires WellFormed(m)
    ensures RecordsSound(m, s, callMap) && RecordsComplete(m, callMap, |m.functions|, 0)
    ensures forall f: nat, i: nat, c: nat :: CallsAt(m, f, i, c) ==>
      && c < |m.functions|
      && (Recorded(callMap, c, f, i) <==> !m.functions[c].isDeclaration && !m.functions[c].hasAddressTaken && !m.functions[c].isVarArg)
    ensures forall c, q :: c in callMap && 0 <= q < |callMap[c]| ==> CallsAt(m, callMap[c][q].f, callMap[c][q].i, c)
  {
    hide RecordsSound, RecordsComplete, WithRecord, IsRecord, ShouldSpecialize;
    callMap := map[];
    NothingRecorded(m, s);
    for f := 0 to |m.functions|
      invariant RecordsSound(m, s, callMap) && RecordsComplete(m, callMap, f, 0)
    {
      for i := 0 to |m.functions[f].code|
        invariant RecordsSound(m, s, callMap) && RecordsComplete(m, callMap, f, i)
      {
        var inst := m.functions[f].code[i];
        if inst.Call? {
          assert IsInst(m, f, i);
          if ShouldSpecialize(m.functions[inst.callee]) {
            var r := CallRecord(f, i, BuildDispatchSignature(m, f, inst.args, inst.callee, s));
            IsARecord(m, s, f, i);
            RecordAdded(m, s, callMap, inst.callee, r);
            callMap := WithRecord(callMap, inst.callee, r);
          } else {
            NothingToRecord(m, callMap, f, i);
          }
        } else {
          NothingToRecord(m, callMap, f, i);
        }
      }
      EndOfFunction(m, callMap, f);
    }
    RecordedIff(m, s, callMap);
  }

  /** Recorded are all direct calls of functions that have a body, whose address is not taken and that
      are not vararg, and no other calls. */
  lemma RecordedIff(m: Module, s: States, callMap: map<nat, seq<CallRecord>>)
    requires WellFormed(m) && RecordsSound(m, s, callMap) && RecordsComplete(m, callMap, |m.functions|, 0)
    ensures forall f: nat, i: nat, c: nat :: CallsAt(m, f, i, c) ==>
      && c < |m.functions|
      && (Recorded(callMap, c, f, i) <==> !m.functions[c].isDeclaration && !m.functions[c].hasAddressTaken && !m.functions[c].isVarArg)
    ensures forall c, q :: c in callMap && 0 <= q < |callMap[c]| ==> CallsAt(m, callMap[c][q].f, callMap[c][q].i, c)
  {
    hide BuildDispatchSignature;
    forall f: nat, i: nat, c: nat | CallsAt(m, f, i, c)
      ensures c < |m.functions|
      ensures Recorded(callMap, c, f, i) <==> !m.functions[c].isDeclaration && !m.functions[c].hasAddressTaken && !m.functions[c].isVarArg
    {
      if Recorded(callMap, c, f, i) {
        var q :| 0 <= q < |callMap[c]| && callMap[c][q].f == f && callMap[c][q].i == i;
        assert IsRecord(m, s, c, callMap[c][q]);
      }
    }
    forall c, q | c in callMap && 0 <= q < |callMap[c]|
      ensures CallsAt(m, callMap[c][q].f, callMap[c][q].i, c)
    {
      assert IsRecord(m, s, c, callMap[c][q]);
    }
  }

  lemma NothingRecorded(m: Module, s: States)
    ensures RecordsSound(m, s, map[]) && RecordsComplete(m, map[], 0, 0)
  {
  }

  lemma IsARecord(m: Module, s: States, f: nat, i: nat)
    requires IsInst(m, f, i) && m.functions[f].code[i].Call? && m.functions[f].code[i].callee < |m.functions|
    requires ShouldSpecialize(m.functions[m.functions[f].code[i].callee])
    ensures var inst := m.functions[f].code[i];
      IsRecord(m, s, inst.callee, CallRecord(f, i, BuildDispatchSignature(m, f, inst.args, inst.callee, s)))
  {
  }

  lemma NothingToRecord(m: Module, callMap: map<nat, seq<CallRecord>>, f: nat, i: nat)
    requires RecordsComplete(m, callMap, f, i) && IsInst(m, f, i)
    requires m.functions[f].code[i].Call? && m.functions[f].code[i].callee < |m.functions| ==> !ShouldSpecialize(m.functions[m.functions[f].code[i].callee])
    ensures RecordsComplete(m, callMap, f, i + 1)
  {
    hide Recorded;
  }

  lemma EndOfFunction(m: Module, callMap: map<nat, seq<CallRecord>>, f: nat)
    requires f < |m.functions| && RecordsComplete(m, callMap, f, |m.functions[f].code|)
    ensures RecordsComplete(m, callMap, f + 1, 0)
  {
    hide Recorded;
  }

  // ----- The signatures of one function's calls -----

  ghost predicate SignaturesOf(records: seq<CallRecord>, count: nat, signatures: seq<Signature>, sawGeneric: bool)
    requires count <= |records|
  {
    && (forall a, b :: 0 <= a < b < |signatures| ==> signatures[a] != signatures[b])
    && (forall a :: 0 <= a < |signatures| ==> HasSpecialization(signatures[a]) && exists q :: 0 <= q < count && records[q].signature == signatures[a])
    && (forall q :: 0 <= q < count ==> if HasSpecialization(records[q].signature) then records[q].signature in signatures else sawGeneric)
    && (sawGeneric ==> exists q :: 0 <= q < count && !HasSpecialization(records[q].signature))
  }

  method CollectSignatures(records: seq<CallRecord>) returns (signatures: seq<Signature>, sawGeneric: bool)
    ensures SignaturesOf(records, |records|, signatures, sawGeneric)
  {
    hide HasSpecialization;
    signatures, sawGeneric := [], false;
    for q := 0 to |records|
      invariant SignaturesOf(records, q, signatures, sawGeneric)
    {
      if !HasSpecialization(records[q].signature) {
        sawGeneric := true;
      } else if records[q].signature !in signatures {
        signatures := signatures + [records[q].signature];
      }
    }
  }

  // ----- Cloning and retargeting -----

  function CloneOf(f: Function): Function {
    f.(role := Ordinary)
  }

  function WithClones(m: Module, j: nat, count: nat): Module
    requires j < |m.functions|
  {
    m.(functions := m.functions + seq(count, _ => CloneOf(m.functions[j])))
  }

  function WithCallee(m: Module, f: nat, i: nat, k: nat): Module
    requires IsInst(m, f, i) && m.functions[f].code[i].Call?
  {
    var fn := m.functions[f];
    m.(functions := m.functions[f := fn.(code := fn.code[i := fn.code[i].(callee := k)])])
  }

  /** findClone: the clone made for a signature, if there is one. */
  function FindClone(clones: seq<Clone>, signature: Signature): Option<nat> {
    if clones == [] then None
    else if clones[0].signature == signature then Some(clones[0].f)
    else FindClone(clones[1..], signature)
  }

  function ClonesFor(signatures: seq<Signature>, first: nat): (r: seq<Clone>)
    ensures |r| == |signatures| && forall k :: 0 <= k < |r| ==> r[k] == Clone(signatures[k], first + k)
  {
    seq(|signatures|, k requires 0 <= k < |signatures| => Clone(signatures[k], first + k))
  }

  lemma {:induction false} FindCloneFinds(signatures: seq<Signature>, first: nat, signature: Signature)
    requires forall a, b :: 0 <= a < b < |signatures| ==> signatures[a] != signatures[b]
    ensures FindClone(ClonesFor(signatures, first), signature) == None <==> signature !in signatures
    ensures forall k :: 0 <= k < |signatures| && signatures[k] == signature ==> FindClone(ClonesFor(signatures, first), signature) == Some(first + k)
  {
    if signatures != [] {
      FindCloneFinds(signatures[1..], first + 1, signature);
      assert ClonesFor(signatures, first)[1..] == ClonesFor(signatures[1..], first + 1);
      forall k | 0 <= k < |signatures| && signatures[k] == signature
        ensures FindClone(ClonesFor(signatures, first), signature) == Some(first + k)
      {
        assert k > 0 ==> signatures[1..][k - 1] == signature;
      }
    }
  }

  /** Where a recorded call of j goes: to the clone for its signature, or to j as before. */
  function Redirect(clones: seq<Clone>, signature: Signature, j: nat): nat {
    match FindClone(clones, signature)
    case Some(k) => k
    case None => j
  }

  predicate SameButCode(a: Function, b: Function) {
    a.(code := []) == b.(code := []) && |a.code| == |b.code|
  }

  ghost predicate InRecords(records: seq<CallRecord>, count: nat, f: nat, i: nat)
    requires count <= |records|
  {
    exists q :: 0 <= q < count && records[q].f == f && records[q].i == i
  }

  /** The first `count` recorded calls of j have been redirected, and nothing else has changed. */
  ghost predicate Retargeted(before: Module, after: Module, j: nat, records: seq<CallRecord>, clones: seq<Clone>, count: nat)
    requires count <= |records|
  {
    && after.globals == before.globals && |after.functions| == |before.functions|
    && (forall f :: 0 <= f < |before.functions| ==> SameButCode(after.functions[f], before.functions[f]))
    && (forall f: nat, i: nat :: IsInst(before, f, i) && !InRecords(records, count, f, i) ==> after.functions[f].code[i] == before.functions[f].code[i])
    && (forall q :: 0 <= q < count ==> RedirectedAt(before, after, j, records[q], clones))
  }

  predicate RedirectedAt(before: Module, after: Module, j: nat, r: CallRecord, clones: seq<Clone>) {
    && CallsAt(before, r.f, r.i, j) && IsInst(after, r.f, r.i)
    && after.functions[r.f].code[r.i] == Call(Redirect(clones, r.signature, j), before.functions[r.f].code[r.i].args)
  }

  ghost predicate CallRecords(m: Module, j: nat, records: seq<CallRecord>) {
    && (forall q :: 0 <= q < |records| ==> CallsAt(m, records[q].f, records[q].i, j))
    && (forall p, q :: 0 <= p < q < |records| && records[p].f == records[q].f && records[p].i == records[q].i ==> records[p].signature == records[q].signature)
  }

  lemma RedirectNext(before: Module, after: Module, j: nat, records: seq<CallRecord>, clones: seq<Clone>, t: nat)
    requires t < |records| && CallRecords(before, j, records) && Retargeted(before, after, j, records, clones, t)
    ensures IsInst(after, records[t].f, records[t].i) && after.functions[records[t].f].code[records[t].i].Call?
    ensures Retargeted(before, WithCallee(after, records[t].f, records[t].i, Redirect(clones, records[t].signature, j)), j, records, clones, t + 1)
    ensures FindClone(clones, records[t].signature).None? ==> Retargeted(before, after, j, records, clones, t + 1)
  {
    hide FindClone;
    var r := records[t];
    assert CallsAt(before, r.f, r.i, j);
    assert SameButCode(after.functions[r.f], before.functions[r.f]);
    RedirectedAlready(before, after, j, records, clones, t);
    RedirectKeepsOthers(before, after, j, records, clones, t);
    var next := WithCallee(after, r.f, r.i, Redirect(clones, r.signature, j));
    assert RedirectedAt(before, next, j, r, clones);
    forall q | 0 <= q < t + 1
      ensures RedirectedAt(before, next, j, records[q], clones)
    {
      assert q < t ==> RedirectedAt(before, after, j, records[q], clones);
    }
    if FindClone(clones, r.signature).None? {
      SameCallee(after, r.f, r.i);
    }
  }

  lemma SameCallee(m: Module, f: nat, i: nat)
    requires IsInst(m, f, i) && m.functions[f].code[i].Call?
    ensures WithCallee(m, f, i, m.functions[f].code[i].callee) == m
  {
    var fn := m.functions[f];
    assert fn.code[i := fn.code[i]] == fn.code;
    assert m.functions[f := fn] == m.functions;
  }

  lemma InRecordsMore(records: seq<CallRecord>, t: nat, f: nat, i: nat)
    requires t < |records|
    ensures InRecords(records, t + 1, f, i) <==> InRecords(records, t, f, i) || (records[t].f == f && records[t].i == i)
  {
  }

  /** The next recorded call still names j, unless the same call came up before. */
  lemma RedirectedAlready(before: Module, after: Module, j: nat, records: seq<CallRecord>, clones: seq<Clone>, t: nat)
    requires t < |records| && CallRecords(before, j, records) && Retargeted(before, after, j, records, clones, t)
    ensures IsInst(after, records[t].f, records[t].i)
    ensures var r := records[t]; var inst := after.functions[r.f].code[r.i];
      inst.Call? && inst.args == before.functions[r.f].code[r.i].args && (inst.callee == j || inst.callee == Redirect(clones, r.signature, j))
  {
    hide FindClone, Redirect;
    var r := records[t];
    assert CallsAt(before, r.f, r.i, j);
    assert SameButCode(after.functions[r.f], before.functions[r.f]);
    if InRecords(records, t, r.f, r.i) {
      var p :| 0 <= p < t && records[p].f == r.f && records[p].i == r.i;
      assert RedirectedAt(before, after, j, records[p], clones) && records[p].signature == r.signature;
    }
  }

  lemma RedirectKeepsOthers(before: Module, after: Module, j: nat, records: seq<CallRecord>, clones: seq<Clone>, t: nat)
    requires t < |records| && Retargeted(before, after, j, records, clones, t)
    requires IsInst(after, records[t].f, records[t].i) && after.functions[records[t].f].code[records[t].i].Call?
    ensures var next := WithCallee(after, records[t].f, records[t].i, Redirect(clones, records[t].signature, j));
      && next.globals == before.globals && |next.functions| == |before.functions|
      && (forall f :: 0 <= f < |before.functions| ==> SameButCode(next.functions[f], before.functions[f]))
      && (forall f: nat, i: nat :: IsInst(before, f, i) && !InRecords(records, t + 1, f, i) ==> next.functions[f].code[i] == before.functions[f].code[i])
  {
    hide RedirectedAt, Redirect;
    var r := records[t];
    var next := WithCallee(after, r.f, r.i, Redirect(clones, r.signature, j));
    assert forall f :: 0 <= f < |before.functions| ==> SameButCode(after.functions[f], before.functions[f]);
    forall f: nat, i: nat | IsInst(before, f, i) && !InRecords(records, t + 1, f, i)
      ensures next.functions[f].code[i] == before.functions[f].code[i]
    {
      InRecordsMore(records, t, f, i);
    }
  }

  /** Clones function j once for each signature and redirects its recorded calls. */
  method SpecializeFunction(m: Module, j: nat, records: seq<CallRecord>, signatures: seq<Signature>) returns (m': Module)
    requires j < |m.functions| && CallRecords(WithClones(m, j, |signatures|), j, records)
    ensures Retargeted(WithClones(m, j, |signatures|), m', j, records, ClonesFor(signatures, |m.functions|), |records|)
  {
    hide FindClone, CallRecords, Retargeted, HasSpecialization;
    m' := m;
    var clones: seq<Clone> := [];
    for k := 0 to |signatures|
      invariant m' == WithClones(m, j, k)
      invariant clones == ClonesFor(signatures[..k], |m.functions|)
    {
      clones := clones + [Clone(signatures[k], |m'.functions|)];
      m' := m'.(functions := m'.functions + [CloneOf(m'.functions[j])]);
    }
    assert signatures[..|signatures|] == signatures;
    ghost var cloned := m';
    NothingRedirected(cloned, j, records, clones);
    for t := 0 to |records|
      invariant Retargeted(cloned, m', j, records, clones, t)
    {
      RedirectNext(cloned, m', j, records, clones, t);
      var clone := FindClone(clones, records[t].signature);
      if clone.Some? {
        m' := WithCallee(m', records[t].f, records[t].i, clone.value);
      }
    }
  }

  lemma NothingRedirected(m: Module, j: nat, records: seq<CallRecord>, clones: seq<Clone>)
    ensures Retargeted(m, m, j, records, clones, 0)
  {
  }

  // ----- One function specialized: what it does to the module -----

  lemma ClonesAreCopies(cur: Module, m: Module, origin: Origin, j: nat, count: nat)
    requires Renames(cur, m, origin) && j < |m.functions| && ShouldSpecialize(m.functions[j])
    ensures Renames(WithClones(cur, j, count), m, origin + Copies(j, count))
  {
    var cloned, origin' := WithClones(cur, j, count), origin + Copies(j, count);
    assert CopyOf(cur, m, origin, j);
    forall k | 0 <= k < |origin'|
      ensures CopyOf(cloned, m, origin', k)
    {
      var from := if k < |origin| then k else j;
      assert CopyOf(cur, m, origin, from);
      assert cloned.functions[k].code == cur.functions[from].code && origin'[k] == origin[from];
      forall i | 0 <= i < |cloned.functions[k].code|
        ensures SameInst(cloned.functions[k].code[i], m.functions[origin'[k]].code[i], origin')
      {
        assert SameInst(cur.functions[from].code[i], m.functions[origin[from]].code[i], origin);
      }
    }
  }

  lemma RedirectIsCopy(clones: seq<Clone>, signature: Signature, j: nat, origin: Origin)
    requires j < |origin| && origin[j] == j && forall k :: 0 <= k < |clones| ==> clones[k].f < |origin| && origin[clones[k].f] == j
    ensures Redirect(clones, signature, j) < |origin| && origin[Redirect(clones, signature, j)] == j
  {
    if clones != [] { RedirectIsCopy(clones[1..], signature, j, origin); }
  }

  lemma RetargetingIsRenaming(cloned: Module, next: Module, m: Module, origin: Origin, j: nat, records: seq<CallRecord>, clones: seq<Clone>)
    requires Renames(cloned, m, origin) && j < |m.functions| && Retargeted(cloned, next, j, records, clones, |records|)
    requires forall k :: 0 <= k < |clones| ==> clones[k].f < |origin| && origin[clones[k].f] == j
    ensures Renames(next, m, origin)
  {
    assert CopyOf(cloned, m, origin, j);
    forall k | 0 <= k < |origin|
      ensures CopyOf(next, m, origin, k)
    {
      assert CopyOf(cloned, m, origin, k) && SameButCode(next.functions[k], cloned.functions[k]);
      forall i | 0 <= i < |next.functions[k].code|
        ensures SameInst(next.functions[k].code[i], m.functions[origin[k]].code[i], origin)
      {
        assert IsInst(cloned, k, i);
        assert SameInst(cloned.functions[k].code[i], m.functions[origin[k]].code[i], origin);
        if InRecords(records, |records|, k, i) {
          var q :| 0 <= q < |records| && records[q].f == k && records[q].i == i;
          assert RedirectedAt(cloned, next, j, records[q], clones);
          RedirectIsCopy(clones, records[q].signature, j, origin);
        }
      }
    }
  }

  /** Calls of functions not reached yet are still where they were. */
  ghost predicate Unprocessed(cur: Module, m: Module, j: nat) {
    forall f: nat, i: nat, c: nat :: CallsAt(m, f, i, c) && j <= c ==> CallsAt(cur, f, i, c)
  }

  lemma StillUnprocessed(cur: Module, next: Module, m: Module, j: nat, count: nat, records: seq<CallRecord>, clones: seq<Clone>)
    requires j < |cur.functions| && Unprocessed(cur, m, j) && Retargeted(WithClones(cur, j, count), next, j, records, clones, |records|)
    requires forall q :: 0 <= q < |records| ==> CallsAt(m, records[q].f, records[q].i, j)
    ensures Unprocessed(next, m, j + 1)
  {
    var cloned := WithClones(cur, j, count);
    forall f: nat, i: nat, c: nat | CallsAt(m, f, i, c) && j + 1 <= c
      ensures CallsAt(next, f, i, c)
    {
      assert CallsAt(cur, f, i, c) && cloned.functions[f] == cur.functions[f];
      assert SameButCode(next.functions[f], cloned.functions[f]);
      assert !InRecords(records, |records|, f, i);
    }
  }

  lemma CallKeptOrRedirected(cur: Module, next: Module, m: Module, j: nat, count: nat, records: seq<CallRecord>, clones: seq<Clone>, k: nat)
    requires j < |cur.functions| && Unprocessed(cur, m, j) && Retargeted(WithClones(cur, j, count), next, j, records, clones, |records|)
    requires forall q :: 0 <= q < |records| ==> CallsAt(m, records[q].f, records[q].i, j)
    requires k in Targets(cur) && k != j
    ensures k in Targets(next)
  {
    var cloned := WithClones(cur, j, count);
    var f, i := CallerOf(cur, k);
    assert cloned.functions[f] == cur.functions[f];
    assert IsInst(cloned, f, i) && !InRecords(records, |records|, f, i);
    assert SameButCode(next.functions[f], cloned.functions[f]);
    assert CallsAt(next, f, i, k);
  }

  /** Every clone has a call of its own, and j keeps one if one of its calls was generic. */
  lemma ClonesAreCalled(cloned: Module, next: Module, j: nat, records: seq<CallRecord>, signatures: seq<Signature>, sawGeneric: bool, first: nat)
    requires SignaturesOf(records, |records|, signatures, sawGeneric)
    requires Retargeted(cloned, next, j, records, ClonesFor(signatures, first), |records|)
    ensures forall k :: first <= k < first + |signatures| ==> k in Targets(next)
    ensures sawGeneric ==> j in Targets(next)
  {
    hide HasSpecialization, Redirect, FindClone, SignaturesOf, Retargeted, Targets;
    var clones := ClonesFor(signatures, first);
    forall k | first <= k < first + |signatures|
      ensures k in Targets(next)
    {
      var q := RecordWith(records, signatures, sawGeneric, k - first);
      RedirectedCall(cloned, next, j, records, signatures, sawGeneric, first, q);
      FindCloneAt(records, signatures, sawGeneric, first, k - first);
    }
    if sawGeneric {
      var q := GenericRecord(records, signatures, sawGeneric);
      RedirectedCall(cloned, next, j, records, signatures, sawGeneric, first, q);
    }
  }

  lemma RecordWith(records: seq<CallRecord>, signatures: seq<Signature>, sawGeneric: bool, k: nat) returns (q: nat)
    requires SignaturesOf(records, |records|, signatures, sawGeneric) && k < |signatures|
    ensures q < |records| && records[q].signature == signatures[k]
  {
    q :| 0 <= q < |records| && records[q].signature == signatures[k];
  }

  lemma GenericRecord(records: seq<CallRecord>, signatures: seq<Signature>, sawGeneric: bool) returns (q: nat)
    requires SignaturesOf(records, |records|, signatures, sawGeneric) && sawGeneric
    ensures q < |records| && records[q].signature !in signatures
  {
    hide HasSpecialization;
    q :| 0 <= q < |records| && !HasSpecialization(records[q].signature);
  }

  lemma FindCloneAt(records: seq<CallRecord>, signatures: seq<Signature>, sawGeneric: bool, first: nat, k: nat)
    requires SignaturesOf(records, |records|, signatures, sawGeneric) && k < |signatures|
    ensures FindClone(ClonesFor(signatures, first), signatures[k]) == Some(first + k)
  {
    FindCloneFinds(signatures, first, signatures[k]);
  }

  /** After redirection the function a recorded call names is called. */
  lemma RedirectedCall(cloned: Module, next: Module, j: nat, records: seq<CallRecord>, signatures: seq<Signature>, sawGeneric: bool, first: nat, q: nat)
    requires SignaturesOf(records, |records|, signatures, sawGeneric) && q < |records|
    requires Retargeted(cloned, next, j, records, ClonesFor(signatures, first), |records|)
    ensures var found := FindClone(ClonesFor(signatures, first), records[q].signature);
      (if found.Some? then found.value else j) in Targets(next)
    ensures records[q].signature !in signatures ==> j in Targets(next)
  {
    FindCloneFinds(signatures, first, records[q].signature);
    RedirectTo(ClonesFor(signatures, first), records[q].signature, j);
    hide SignaturesOf, Redirect, FindClone;
    assert RedirectedAt(cloned, next, j, records[q], ClonesFor(signatures, first));
  }

  lemma RedirectTo(clones: seq<Clone>, signature: Signature, j: nat)
    ensures Redirect(clones, signature, j) == if FindClone(clones, signature).Some? then FindClone(clones, signature).value else j
  {
  }
}
