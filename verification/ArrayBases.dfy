/** Which pointers the bounds checks take for the base of a managed array, and why they are right. */
module ArrayBases {
  import opened Collections
  import opened Wrappers
  import opened ManagedIR
  import opened ManagedState
  import opened ManagedStateAnalysisModule
  import opened StateSolutions
  import opened IRMachine
  import opened StackSlots

  /** Every use of slot a is a load from it, or a store into it of a value in G. */
  ghost predicate SlotHolds(m: Module, f: nat, a: nat, G: set<Operand>) {
    forall i: nat :: IsInst(m, f, i) && Result(a) in Operands(m.functions[f].code[i]) ==>
      match m.functions[f].code[i]
      case Load(_, _) => true
      case Store(value, pointer) => Stripped(m, f, pointer) == Result(a) && Stripped(m, f, value) in G
      case _ => false
  }

  /** op is the result of an array allocation, or comes from values of G alone. */
  ghost predicate JustifiedBy(m: Module, f: nat, op: Operand, G: set<Operand>) {
    && op.Result? && IsInst(m, f, op.index) && Stripped(m, f, op) == op && IsPointer(m, f, op)
    && match m.functions[f].code[op.index]
       case Call(callee, _) => callee < |m.functions| && m.functions[callee].role == ArrayAllocator(false)
       case Load(pointer, _) =>
         Stripped(m, f, pointer).Result? && IsInst(m, f, Stripped(m, f, pointer).index)
         && m.functions[f].code[Stripped(m, f, pointer).index].Alloca? && SlotHolds(m, f, Stripped(m, f, pointer).index, G)
       case Phi(incoming, _) => forall k :: 0 <= k < |incoming| ==> Stripped(m, f, incoming[k].value) in G
       case Select(_, ifTrue, ifFalse, _) => Stripped(m, f, ifTrue) in G && Stripped(m, f, ifFalse) in G
       case _ => false
  }

  ghost predicate Justified(m: Module, f: nat, G: set<Operand>) {
    forall op :: op in G ==> JustifiedBy(m, f, op, G)
  }

  // ----- What the search looks for -----

  /** How a value comes from array allocations alone: the value and what it is taken from. */
  datatype Derivation = From(value: Operand, sources: seq<Derivation>)

  /** The values of a derivation, a value before its sources. */
  function Values(t: Derivation): seq<Operand>
    decreases t, 1
  {
    [t.value] + AllValues(t.sources)
  }

  function AllValues(ts: seq<Derivation>): seq<Operand>
    decreases ts, 0
  {
    if ts == [] then [] else AllValues(ts[..|ts| - 1]) + Values(ts[|ts| - 1])
  }

  /** The slot a load reads is used by loads and by stores of v that dominate the load, of which there is one. */
  ghost predicate HoldsOnly(m: Module, f: nat, load: nat, pointer: Operand, dominates: set<(nat, nat)>, v: Operand) {
    var slot := Stripped(m, f, pointer);
    && slot.Result? && IsInst(m, f, slot.index) && m.functions[f].code[slot.index].Alloca?
    && (forall i: nat :: IsInst(m, f, i) && slot in Operands(m.functions[f].code[i]) ==> UseIsHarmless(m, f, i, slot, (i, load) in dominates, v))
    && (exists i: nat :: IsInst(m, f, i) && slot in Operands(m.functions[f].code[i]) && m.functions[f].code[i].Store?)
  }

  predicate UseIsHarmless(m: Module, f: nat, i: nat, slot: Operand, dominates: bool, v: Operand)
    requires IsInst(m, f, i)
  {
    match m.functions[f].code[i]
    case Load(_, _) => true
    case Store(value, pointer) => Stripped(m, f, pointer) == slot && value == v && dominates
    case _ => false
  }

  /** The value of instruction i is taken from the values xs, or is a new array when xs is empty. */
  ghost predicate TakesFrom(m: Module, f: nat, i: nat, dominates: set<(nat, nat)>, xs: seq<Operand>) {
    IsInst(m, f, i)
    && match m.functions[f].code[i]
       case Call(callee, _) => callee < |m.functions| && m.functions[callee].role == ArrayAllocator(false) && xs == []
       case Load(pointer, _) => |xs| == 1 && HoldsOnly(m, f, i, pointer, dominates, xs[0])
       case Phi(incoming, _) => incoming != [] && |xs| == |incoming| && forall k :: 0 <= k < |xs| ==> xs[k] == incoming[k].value
       case Select(_, ifTrue, ifFalse, _) => xs == [ifTrue, ifFalse]
       case _ => false
  }

  ghost predicate Derives(m: Module, f: nat, op: Operand, dominates: set<(nat, nat)>, t: Derivation)
    decreases t
  {
    && t.value == Stripped(m, f, op) && t.value.Result? && IsPointer(m, f, t.value)
    && exists xs :: TakesFrom(m, f, t.value.index, dominates, xs) && |xs| == |t.sources|
                    && forall k :: 0 <= k < |xs| ==> Derives(m, f, xs[k], dominates, t.sources[k])
  }

  ghost predicate Distinct(s: seq<Operand>) {
    forall i, j :: 0 <= i < j < |s| ==> s[i] != s[j]
  }

  /** A derivation that meets no value twice and none of those already visited. */
  ghost predicate FreshDerivation(m: Module, f: nat, op: Operand, dominates: set<(nat, nat)>, visiting: set<Operand>, t: Derivation) {
    Derives(m, f, op, dominates, t) && Fresh(Values(t), visiting)
  }

  lemma SourcesAreUnique(m: Module, f: nat, i: nat, dominates: set<(nat, nat)>, xs: seq<Operand>, ys: seq<Operand>)
    requires TakesFrom(m, f, i, dominates, xs) && TakesFrom(m, f, i, dominates, ys)
    ensures xs == ys
  {
    hide Stripped, Operands;
    var inst := m.functions[f].code[i];
    if inst.Load? {
      var slot := Stripped(m, f, inst.pointer);
      var j: nat :| IsInst(m, f, j) && slot in Operands(m.functions[f].code[j]) && m.functions[f].code[j].Store?;
      assert UseIsHarmless(m, f, j, slot, (j, i) in dominates, xs[0]) && UseIsHarmless(m, f, j, slot, (j, i) in dominates, ys[0]);
    }
  }

  /** A value has one derivation at most. */
  lemma {:induction false} DerivationIsUnique(m: Module, f: nat, op: Operand, dominates: set<(nat, nat)>, t: Derivation, u: Derivation)
    requires Derives(m, f, op, dominates, t) && Derives(m, f, op, dominates, u)
    ensures t == u
    decreases t
  {
    hide Stripped, IsPointer, TakesFrom;
    var xs :| TakesFrom(m, f, t.value.index, dominates, xs) && |xs| == |t.sources|
              && forall k :: 0 <= k < |xs| ==> Derives(m, f, xs[k], dominates, t.sources[k]);
    var ys :| TakesFrom(m, f, u.value.index, dominates, ys) && |ys| == |u.sources|
              && forall k :: 0 <= k < |ys| ==> Derives(m, f, ys[k], dominates, u.sources[k]);
    SourcesAreUnique(m, f, t.value.index, dominates, xs, ys);
    forall k | 0 <= k < |t.sources|
      ensures t.sources[k] == u.sources[k]
    {
      DerivationIsUnique(m, f, xs[k], dominates, t.sources[k], u.sources[k]);
    }
    assert t.sources == u.sources;
  }

  /** None of s is in `visiting`, and nothing is in s twice. */
  ghost predicate Fresh(s: seq<Operand>, visiting: set<Operand>) {
    Distinct(s) && forall x :: x in s ==> x !in visiting
  }

  lemma FreshConcat(a: seq<Operand>, b: seq<Operand>, visiting: set<Operand>)
    ensures Fresh(a + b, visiting) <==> Fresh(a, visiting) && Fresh(b, visiting + Elements(a))
    ensures Elements(a + b) == Elements(a) + Elements(b)
  {
    var c := a + b;
    assert forall i :: 0 <= i < |a| ==> c[i] == a[i];
    assert forall i :: 0 <= i < |b| ==> c[|a| + i] == b[i];
    assert forall i :: |a| <= i < |c| ==> c[i] == b[i - |a|];
    if Fresh(c, visiting) {
      forall i, j | 0 <= i < j < |b|
        ensures b[i] != b[j]
      {
        assert c[|a| + i] != c[|a| + j];
      }
      forall x | x in b
        ensures x !in visiting + Elements(a)
      {
        var j :| 0 <= j < |b| && b[j] == x;
        assert c[|a| + j] == x;
      }
    }
    if Fresh(a, visiting) && Fresh(b, visiting + Elements(a)) {
      forall i, j | 0 <= i < j < |c|
        ensures c[i] != c[j]
      {
        if i < |a| <= j { assert b[j - |a|] in b && a[i] in a; }
      }
    }
  }

  lemma {:induction false} FreshPrefix(ts: seq<Derivation>, visiting: set<Operand>, k: nat)
    requires k <= |ts| && Fresh(AllValues(ts), visiting)
    ensures Fresh(AllValues(ts[..k]), visiting)
    decreases |ts|
  {
    if k == |ts| {
      assert ts[..k] == ts;
    } else {
      var last := |ts| - 1;
      FreshConcat(AllValues(ts[..last]), Values(ts[last]), visiting);
      FreshPrefix(ts[..last], visiting, k);
      assert ts[..last][..k] == ts[..k];
    }
  }

  /** The sources of a value that were searched: derivations of the first k of xs. */
  ghost predicate Searched(m: Module, f: nat, dominates: set<(nat, nat)>, xs: seq<Operand>, visiting: set<Operand>, ts: seq<Derivation>) {
    && |ts| <= |xs| && Fresh(AllValues(ts), visiting)
    && forall k :: 0 <= k < |ts| ==> Derives(m, f, xs[k], dominates, ts[k])
  }

  lemma SearchedOneMore(m: Module, f: nat, dominates: set<(nat, nat)>, xs: seq<Operand>, visiting: set<Operand>, ts: seq<Derivation>, t: Derivation)
    requires Searched(m, f, dominates, xs, visiting, ts) && |ts| < |xs|
    requires FreshDerivation(m, f, xs[|ts|], dominates, visiting + Elements(AllValues(ts)), t)
    ensures Searched(m, f, dominates, xs, visiting, ts + [t])
    ensures Elements(AllValues(ts + [t])) == Elements(AllValues(ts)) + Elements(Values(t))
  {
    hide Derives;
    assert (ts + [t])[..|ts|] == ts;
    FreshConcat(AllValues(ts), Values(t), visiting);
  }

  /** ts derives all the values instruction i is taken from, freshly. */
  ghost predicate SourcesFound(m: Module, f: nat, i: nat, dominates: set<(nat, nat)>, visiting: set<Operand>, ts: seq<Derivation>) {
    exists xs :: TakesFrom(m, f, i, dominates, xs) && |xs| == |ts| && Searched(m, f, dominates, xs, visiting, ts)
  }

  /** A fresh derivation is the value itself, not visited before, and fresh derivations of its sources. */
  lemma FreshIff(m: Module, f: nat, op: Operand, dominates: set<(nat, nat)>, visiting: set<Operand>, t: Derivation)
    ensures var x := Stripped(m, f, op);
      FreshDerivation(m, f, op, dominates, visiting, t) <==>
        t.value == x && x.Result? && IsPointer(m, f, x) && x !in visiting && SourcesFound(m, f, x.index, dominates, visiting + {x}, t.sources)
    ensures Elements(Values(t)) == {t.value} + Elements(AllValues(t.sources))
  {
    hide Stripped, IsPointer, TakesFrom;
    FreshConcat([t.value], AllValues(t.sources), visiting);
    assert Elements([t.value]) == {t.value};
    assert Fresh([t.value], visiting) <==> t.value !in visiting;
    hide Fresh, Elements, Values;
  }

  lemma NextIsFresh(m: Module, f: nat, dominates: set<(nat, nat)>, xs: seq<Operand>, visiting: set<Operand>, ts: seq<Derivation>, us: seq<Derivation>)
    requires Searched(m, f, dominates, xs, visiting, us) && |us| == |xs|
    requires Searched(m, f, dominates, xs, visiting, ts) && |ts| < |xs|
    ensures FreshDerivation(m, f, xs[|ts|], dominates, visiting + Elements(AllValues(ts)), us[|ts|])
  {
    hide Derives;
    var k := |ts|;
    forall j | 0 <= j < k
      ensures us[j] == ts[j]
    {
      DerivationIsUnique(m, f, xs[j], dominates, us[j], ts[j]);
    }
    FreshPrefix(us, visiting, k + 1);
    assert us[..k + 1][..k] == ts;
    FreshConcat(AllValues(ts), Values(us[k]), visiting);
  }

  /** When one source has no fresh derivation after those searched before it, the search fails. */
  lemma SearchFails(m: Module, f: nat, i: nat, dominates: set<(nat, nat)>, xs: seq<Operand>, visiting: set<Operand>, ts: seq<Derivation>)
    requires TakesFrom(m, f, i, dominates, xs) && Searched(m, f, dominates, xs, visiting, ts) && |ts| < |xs|
    requires forall t :: !FreshDerivation(m, f, xs[|ts|], dominates, visiting + Elements(AllValues(ts)), t)
    ensures forall us :: !SourcesFound(m, f, i, dominates, visiting, us)
  {
    hide TakesFrom, FreshDerivation, Searched;
    forall us
      ensures !SourcesFound(m, f, i, dominates, visiting, us)
    {
      if SourcesFound(m, f, i, dominates, visiting, us) {
        var ys :| TakesFrom(m, f, i, dominates, ys) && |ys| == |us| && Searched(m, f, dominates, ys, visiting, us);
        SourcesAreUnique(m, f, i, dominates, xs, ys);
        NextIsFresh(m, f, dominates, xs, visiting, ts, us);
      }
    }
  }

  lemma NothingTaken(m: Module, f: nat, i: nat, dominates: set<(nat, nat)>, visiting: set<Operand>)
    requires forall xs :: !TakesFrom(m, f, i, dominates, xs)
    ensures forall us :: !SourcesFound(m, f, i, dominates, visiting, us)
  {
    hide TakesFrom;
  }

  // ----- The search -----

  /** What is left to visit. */
  function Unvisited(m: Module, f: nat, visiting: set<Operand>): set<nat>
    requires f < |m.functions|
  {
    set i: nat | 0 <= i < |m.functions[f].code| && Result(i) !in visiting
  }

  lemma VisitingShrinks(m: Module, f: nat, visiting: set<Operand>, more: set<Operand>, i: nat)
    requires IsInst(m, f, i) && Result(i) !in visiting && visiting + {Result(i)} <= more
    ensures |Unvisited(m, f, more)| < |Unvisited(m, f, visiting)|
  {
    assert Unvisited(m, f, more) <= Unvisited(m, f, visiting) - {i};
    SubsetSize(Unvisited(m, f, more), Unvisited(m, f, visiting) - {i});
  }

  /** The one value stored into the slot a load reads, or nothing when there is no such value. */
  method StoredValue(m: Module, f: nat, load: nat, pointer: Operand, dominates: set<(nat, nat)>) returns (stored: Option<Operand>)
    requires f < |m.functions|
    ensures forall v :: stored == Some(v) <==> HoldsOnly(m, f, load, pointer, dominates, v)
  {
    hide Stripped, Operands;
    stored := None;
    var slot := Stripped(m, f, pointer);
    var code := m.functions[f].code;
    if !slot.Result? || slot.index >= |code| || !code[slot.index].Alloca? {
      return None;
    }
    for i := 0 to |code|
      invariant forall k: nat, v :: k < i && slot in Operands(code[k]) && stored == Some(v) ==> UseIsHarmless(m, f, k, slot, (k, load) in dominates, v)
      invariant stored.Some? <==> exists k: nat :: k < i && slot in Operands(code[k]) && code[k].Store?
      invariant stored.None? ==> forall k: nat :: k < i && slot in Operands(code[k]) ==> code[k].Load?
    {
      if slot in Operands(code[i]) && !code[i].Load? {
        assert IsInst(m, f, i);
        if !code[i].Store? || Stripped(m, f, code[i].pointer) != slot || (i, load) !in dominates {
          assert forall v :: !UseIsHarmless(m, f, i, slot, (i, load) in dominates, v);
          return None;
        }
        if stored.None? {
          stored := Some(code[i].value);
        } else if stored.value != code[i].value {
          StoresDiffer(m, f, load, pointer, dominates, stored.value, i);
          return None;
        }
      }
    }
  }

  lemma StoresDiffer(m: Module, f: nat, load: nat, pointer: Operand, dominates: set<(nat, nat)>, v: Operand, i: nat)
    requires IsInst(m, f, i) && m.functions[f].code[i].Store? && Stripped(m, f, pointer) in Operands(m.functions[f].code[i])
    requires exists k: nat :: k < i && Stripped(m, f, pointer) in Operands(m.functions[f].code[k])
                              && UseIsHarmless(m, f, k, Stripped(m, f, pointer), (k, load) in dominates, v) && m.functions[f].code[k].Store?
    requires m.functions[f].code[i].value != v
    ensures forall w :: !HoldsOnly(m, f, load, pointer, dominates, w)
  {
    hide Stripped, Operands;
    var slot := Stripped(m, f, pointer);
    var k: nat :| k < i && slot in Operands(m.functions[f].code[k]) && UseIsHarmless(m, f, k, slot, (k, load) in dominates, v) && m.functions[f].code[k].Store?;
    forall w
      ensures !HoldsOnly(m, f, load, pointer, dominates, w)
    {
      assert IsInst(m, f, k);
      if w == v {
        assert !UseIsHarmless(m, f, i, slot, (i, load) in dominates, w);
      } else {
        assert !UseIsHarmless(m, f, k, slot, (k, load) in dominates, w);
      }
    }
  }

  /** isManagedArrayBaseImpl: true exactly when the value has a derivation that meets no value twice
      and none visited before, in which case its values are what has been visited since. */
  method IsManagedArrayBaseImpl(m: Module, f: nat, op: Operand, dominates: set<(nat, nat)>, visiting: set<Operand>)
    returns (r: bool, visiting': set<Operand>, ghost t: Derivation)
    requires f < |m.functions|
    ensures visiting <= visiting'
    ensures r ==> FreshDerivation(m, f, op, dominates, visiting, t) && visiting' == visiting + Elements(Values(t))
    ensures !r ==> forall u :: !FreshDerivation(m, f, op, dominates, visiting, u)
    decreases |Unvisited(m, f, visiting)|, 0
  {
    hide Stripped, IsPointer, FreshDerivation, SourcesFound, TakesFrom, Elements, Values;
    var stripped := Stripped(m, f, op);
    visiting', t := visiting, From(stripped, []);
    forall u { FreshIff(m, f, op, dominates, visiting, u); }
    if !IsPointer(m, f, stripped) || stripped in visiting {
      return false, visiting', t;
    }
    visiting' := visiting + {stripped};
    if !stripped.Result? {
      return false, visiting', t;
    }
    PointerIsInst(m, f, stripped);
    VisitingShrinks(m, f, visiting, visiting', stripped.index);
    ghost var ts: seq<Derivation> := [];
    match m.functions[f].code[stripped.index] {
      case Call(callee, _) =>
        r := callee < |m.functions| && m.functions[callee].role == ArrayAllocator(false);
        CallTakes(m, f, stripped.index, dominates, visiting');
      case Load(_, _) => r, visiting', ts := IsManagedArrayBaseStoredInAlloca(m, f, stripped.index, dominates, visiting');
      case Phi(_, _) => r, visiting', ts := AreIncomingBases(m, f, stripped.index, dominates, visiting');
      case Select(_, _, _, _) => r, visiting', ts := AreChoicesBases(m, f, stripped.index, dominates, visiting');
      case _ =>
        r := false;
        OthersTakeNothing(m, f, stripped.index, dominates);
        NothingTaken(m, f, stripped.index, dominates, visiting');
    }
    assert r ==> visiting' == visiting + ({stripped} + Elements(AllValues(ts)));
    t := From(stripped, ts);
    FreshIff(m, f, op, dominates, visiting, t);
  }

  method IsManagedArrayBaseStoredInAlloca(m: Module, f: nat, i: nat, dominates: set<(nat, nat)>, visiting: set<Operand>)
    returns (r: bool, visiting': set<Operand>, ghost ts: seq<Derivation>)
    requires f < |m.functions| && IsInst(m, f, i) && m.functions[f].code[i].Load?
    ensures visiting <= visiting'
    ensures if r then SourcesFound(m, f, i, dominates, visiting, ts) && visiting' == visiting + Elements(AllValues(ts))
            else forall us :: !SourcesFound(m, f, i, dominates, visiting, us)
    decreases |Unvisited(m, f, visiting)|, 1
  {
    hide Stripped, FreshDerivation, TakesFrom, Searched, AllValues, Values, Elements;
    r, visiting', ts := false, visiting, [];
    var stored := StoredValue(m, f, i, m.functions[f].code[i].pointer, dominates);
    LoadTakes(m, f, i, dominates);
    if stored.None? {
      NothingTaken(m, f, i, dominates, visiting);
      return;
    }
    ghost var xs, t := [stored.value], From(stored.value, []);
    NothingSearched(m, f, dominates, xs, visiting);
    r, visiting', t := IsManagedArrayBaseImpl(m, f, stored.value, dominates, visiting);
    ts := TakeStep(m, f, i, dominates, xs, visiting, ts, t, r);
  }

  method AreIncomingBases(m: Module, f: nat, i: nat, dominates: set<(nat, nat)>, visiting: set<Operand>)
    returns (r: bool, visiting': set<Operand>, ghost ts: seq<Derivation>)
    requires f < |m.functions| && IsInst(m, f, i) && m.functions[f].code[i].Phi?
    ensures visiting <= visiting'
    ensures if r then SourcesFound(m, f, i, dominates, visiting, ts) && visiting' == visiting + Elements(AllValues(ts))
            else forall us :: !SourcesFound(m, f, i, dominates, visiting, us)
    decreases |Unvisited(m, f, visiting)|, 1
  {
    hide Stripped, FreshDerivation, TakesFrom, Searched, AllValues, Values, Elements;
    var incoming := m.functions[f].code[i].incoming;
    r, visiting', ts := false, visiting, [];
    PhiTakes(m, f, i, dominates);
    if incoming == [] {
      NothingTaken(m, f, i, dominates, visiting);
      return;
    }
    ghost var xs := seq(|incoming|, k requires 0 <= k < |incoming| => incoming[k].value);
    NothingSearched(m, f, dominates, xs, visiting);
    r := true;
    for k := 0 to |incoming|
      invariant r && visiting <= visiting' && |ts| == k
      invariant Searched(m, f, dominates, xs, visiting, ts) && visiting' == visiting + Elements(AllValues(ts))
    {
      FewerUnvisited(m, f, visiting, visiting');
      ghost var t := From(xs[k], []);
      r, visiting', t := IsManagedArrayBaseImpl(m, f, incoming[k].value, dominates, visiting');
      ts := TakeStep(m, f, i, dominates, xs, visiting, ts, t, r);
      if !r {
        return;
      }
    }
  }

  method AreChoicesBases(m: Module, f: nat, i: nat, dominates: set<(nat, nat)>, visiting: set<Operand>)
    returns (r: bool, visiting': set<Operand>, ghost ts: seq<Derivation>)
    requires f < |m.functions| && IsInst(m, f, i) && m.functions[f].code[i].Select?
    ensures visiting <= visiting'
    ensures if r then SourcesFound(m, f, i, dominates, visiting, ts) && visiting' == visiting + Elements(AllValues(ts))
            else forall us :: !SourcesFound(m, f, i, dominates, visiting, us)
    decreases |Unvisited(m, f, visiting)|, 1
  {
    hide Stripped, FreshDerivation, TakesFrom, Searched, AllValues, Values, Elements;
    var select := m.functions[f].code[i];
    ghost var xs, t := [select.ifTrue, select.ifFalse], From(select.ifTrue, []);
    ts := [];
    SelectTakes(m, f, i, dominates);
    NothingSearched(m, f, dominates, xs, visiting);
    r, visiting', t := IsManagedArrayBaseImpl(m, f, select.ifTrue, dominates, visiting);
    ts := TakeStep(m, f, i, dominates, xs, visiting, ts, t, r);
    if r {
      FewerUnvisited(m, f, visiting, visiting');
      r, visiting', t := IsManagedArrayBaseImpl(m, f, select.ifFalse, dominates, visiting');
      ts := TakeStep(m, f, i, dominates, xs, visiting, ts, t, r);
    }
  }

  lemma FewerUnvisited(m: Module, f: nat, visiting: set<Operand>, more: set<Operand>)
    requires f < |m.functions| && visiting <= more
    ensures |Unvisited(m, f, more)| <= |Unvisited(m, f, visiting)|
  {
    SubsetSize(Unvisited(m, f, more), Unvisited(m, f, visiting));
  }

  lemma NothingSearched(m: Module, f: nat, dominates: set<(nat, nat)>, xs: seq<Operand>, visiting: set<Operand>)
    ensures Searched(m, f, dominates, xs, visiting, []) && visiting + Elements(AllValues([])) == visiting
  {
  }

  /** What one recursive call settles: one more source searched, or the whole search failed. */
  lemma TakeStep(m: Module, f: nat, i: nat, dominates: set<(nat, nat)>, xs: seq<Operand>, visiting: set<Operand>, ts: seq<Derivation>, t: Derivation, r: bool)
    returns (ts': seq<Derivation>)
    requires TakesFrom(m, f, i, dominates, xs) && Searched(m, f, dominates, xs, visiting, ts) && |ts| < |xs|
    requires var found := visiting + Elements(AllValues(ts));
      if r then FreshDerivation(m, f, xs[|ts|], dominates, found, t) else forall u :: !FreshDerivation(m, f, xs[|ts|], dominates, found, u)
    ensures r ==> Searched(m, f, dominates, xs, visiting, ts') && ts' == ts + [t]
    ensures r && |ts'| == |xs| ==> SourcesFound(m, f, i, dominates, visiting, ts')
    ensures r ==> visiting + Elements(AllValues(ts)) + Elements(Values(t)) == visiting + Elements(AllValues(ts'))
    ensures !r ==> forall us :: !SourcesFound(m, f, i, dominates, visiting, us)
  {
    hide TakesFrom, FreshDerivation, Searched;
    ts' := ts + [t];
    if r {
      SearchedOneMore(m, f, dominates, xs, visiting, ts, t);
    } else {
      hide SourcesFound;
      SearchFails(m, f, i, dominates, xs, visiting, ts);
    }
  }

  lemma CallTakes(m: Module, f: nat, i: nat, dominates: set<(nat, nat)>, visiting: set<Operand>)
    requires IsInst(m, f, i) && m.functions[f].code[i].Call?
    ensures var callee := m.functions[f].code[i].callee;
      if callee < |m.functions| && m.functions[callee].role == ArrayAllocator(false)
      then SourcesFound(m, f, i, dominates, visiting, []) && visiting == visiting + Elements(AllValues([]))
      else forall us :: !SourcesFound(m, f, i, dominates, visiting, us)
  {
    assert m.functions[f].code[i].callee < |m.functions| && m.functions[m.functions[f].code[i].callee].role == ArrayAllocator(false) ==>
      TakesFrom(m, f, i, dominates, []);
  }

  lemma LoadTakes(m: Module, f: nat, i: nat, dominates: set<(nat, nat)>)
    requires IsInst(m, f, i) && m.functions[f].code[i].Load?
    ensures forall v :: HoldsOnly(m, f, i, m.functions[f].code[i].pointer, dominates, v) <==> TakesFrom(m, f, i, dominates, [v])
    ensures (forall v :: !HoldsOnly(m, f, i, m.functions[f].code[i].pointer, dominates, v)) ==> forall xs :: !TakesFrom(m, f, i, dominates, xs)
  {
    hide HoldsOnly;
  }

  lemma PhiTakes(m: Module, f: nat, i: nat, dominates: set<(nat, nat)>)
    requires IsInst(m, f, i) && m.functions[f].code[i].Phi?
    ensures var incoming := m.functions[f].code[i].incoming;
      if incoming == [] then forall xs :: !TakesFrom(m, f, i, dominates, xs)
      else TakesFrom(m, f, i, dominates, seq(|incoming|, k requires 0 <= k < |incoming| => incoming[k].value))
  {
  }

  lemma SelectTakes(m: Module, f: nat, i: nat, dominates: set<(nat, nat)>)
    requires IsInst(m, f, i) && m.functions[f].code[i].Select?
    ensures TakesFrom(m, f, i, dominates, [m.functions[f].code[i].ifTrue, m.functions[f].code[i].ifFalse])
  {
  }

  lemma OthersTakeNothing(m: Module, f: nat, i: nat, dominates: set<(nat, nat)>)
    requires IsInst(m, f, i)
    requires var inst := m.functions[f].code[i]; !inst.Call? && !inst.Load? && !inst.Phi? && !inst.Select?
    ensures forall xs :: !TakesFrom(m, f, i, dominates, xs)
  {
  }

  ghost predicate AllIn(s: seq<Operand>, G: set<Operand>) {
    forall x :: x in s ==> x in G
  }

  ghost predicate AllJustified(m: Module, f: nat, s: seq<Operand>, G: set<Operand>) {
    forall x :: x in s ==> JustifiedBy(m, f, x, G)
  }

  lemma AllInConcat(m: Module, f: nat, a: seq<Operand>, b: seq<Operand>, G: set<Operand>)
    ensures AllIn(a + b, G) <==> AllIn(a, G) && AllIn(b, G)
    ensures AllJustified(m, f, a + b, G) <==> AllJustified(m, f, a, G) && AllJustified(m, f, b, G)
  {
    hide JustifiedBy;
    assert forall x :: x in a + b <==> x in a || x in b;
  }

  /** The values of a derivation justify one another. */
  lemma {:induction false} DerivationIsJustified(m: Module, f: nat, op: Operand, dominates: set<(nat, nat)>, t: Derivation, G: set<Operand>)
    requires f < |m.functions| && Derives(m, f, op, dominates, t) && AllIn(Values(t), G)
    ensures Stripped(m, f, op) in G && AllJustified(m, f, Values(t), G)
    decreases t, 1
  {
    hide Stripped, IsPointer, TakesFrom, JustifiedBy;
    var xs :| TakesFrom(m, f, t.value.index, dominates, xs) && |xs| == |t.sources|
              && forall k :: 0 <= k < |xs| ==> Derives(m, f, xs[k], dominates, t.sources[k]);
    AllInConcat(m, f, [t.value], AllValues(t.sources), G);
    SourcesAreJustified(m, f, dominates, xs, t.sources, G);
    StrippedTwice(m, f, op);
    assert t.value in [t.value];
    SourcesJustify(m, f, t.value, dominates, xs, G);
  }

  lemma {:induction false} SourcesAreJustified(m: Module, f: nat, dominates: set<(nat, nat)>, xs: seq<Operand>, ts: seq<Derivation>, G: set<Operand>)
    requires f < |m.functions| && |xs| == |ts| && (forall k :: 0 <= k < |xs| ==> Derives(m, f, xs[k], dominates, ts[k]))
    requires AllIn(AllValues(ts), G)
    ensures forall k :: 0 <= k < |xs| ==> Stripped(m, f, xs[k]) in G
    ensures AllJustified(m, f, AllValues(ts), G)
    decreases ts, 0
  {
    hide *;
    ValuesOfSources(ts);
    if ts == [] {
      NothingToJustify(m, f, G);
    } else {
      var last := |ts| - 1;
      AllInConcat(m, f, AllValues(ts[..last]), Values(ts[last]), G);
      SourcesAreJustified(m, f, dominates, xs[..last], ts[..last], G);
      DerivationIsJustified(m, f, xs[last], dominates, ts[last], G);
      forall k | 0 <= k < |xs|
        ensures Stripped(m, f, xs[k]) in G
      {
        if k < last { assert xs[..last][k] == xs[k]; }
      }
    }
  }

  lemma ValuesOfSources(ts: seq<Derivation>)
    ensures if ts == [] then AllValues(ts) == [] else AllValues(ts) == AllValues(ts[..|ts| - 1]) + Values(ts[|ts| - 1])
  {
  }

  lemma NothingToJustify(m: Module, f: nat, G: set<Operand>)
    ensures AllJustified(m, f, [], G)
  {
  }

  lemma SourcesJustify(m: Module, f: nat, x: Operand, dominates: set<(nat, nat)>, xs: seq<Operand>, G: set<Operand>)
    requires x.Result? && TakesFrom(m, f, x.index, dominates, xs) && IsPointer(m, f, x)
    requires IsInst(m, f, x.index) && !m.functions[f].code[x.index].Gep? ==> Stripped(m, f, x) == x
    requires forall k :: 0 <= k < |xs| ==> Stripped(m, f, xs[k]) in G
    ensures JustifiedBy(m, f, x, G)
  {
    hide Stripped, Operands, IsPointer;
    var inst := m.functions[f].code[x.index];
    if inst.Phi? {
      assert forall k :: 0 <= k < |xs| ==> Stripped(m, f, xs[k]) in G && xs[k] == inst.incoming[k].value;
    } else if inst.Select? {
      assert xs[0] == inst.ifTrue && xs[1] == inst.ifFalse;
    }
  }

  /** isManagedArrayBase. A true answer comes with a set of values that justify one another. */
  method IsManagedArrayBase(m: Module, f: nat, op: Operand, dominates: set<(nat, nat)>) returns (r: bool, ghost G: set<Operand>)
    requires f < |m.functions|
    ensures r <==> exists t :: Derives(m, f, op, dominates, t) && Distinct(Values(t))
    ensures r ==> Stripped(m, f, op) in G && Justified(m, f, G)
  {
    hide Stripped, JustifiedBy, Derives, Distinct;
    var visited;
    ghost var t;
    r, visited, t := IsManagedArrayBaseImpl(m, f, op, dominates, {});
    assert forall u :: FreshDerivation(m, f, op, dominates, {}, u) <==> Derives(m, f, op, dominates, u) && Distinct(Values(u));
    G := Elements(Values(t));
    if r { DerivationIsJustified(m, f, op, dominates, t, G); }
  }

  lemma PointerIsInst(m: Module, f: nat, op: Operand)
    requires op.Result? && IsPointer(m, f, op)
    ensures IsInst(m, f, op.index)
  {
  }

  /** Stripping gives a value that strips to itself, unless it is an address computation. */
  lemma StrippedTwice(m: Module, f: nat, op: Operand)
    ensures var x := Stripped(m, f, op);
      (x.Result? && IsInst(m, f, x.index) && !m.functions[f].code[x.index].Gep? ==> Stripped(m, f, x) == x)
  {
  }
}
