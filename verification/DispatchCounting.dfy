/** Why specialization of call sites comes to an end: functions are counted level by level of the
    call graph, against the functions that some call names. */
module DispatchCounting {
  import opened Collections
  import opened ManagedIR
  import opened Renaming

  /** The functions that specialization may clone. */
  predicate ShouldSpecialize(f: Function) {
    !f.isDeclaration && !f.hasAddressTaken && !f.isVarArg
  }

  /** The functions some direct call names. */
  function Targets(m: Module): set<nat> {
    set f, i | 0 <= f < |m.functions| && 0 <= i < |m.functions[f].code| && m.functions[f].code[i].Call? :: m.functions[f].code[i].callee
  }

  /** Instruction i of f is a direct call of k. */
  predicate CallsAt(m: Module, f: nat, i: nat, k: nat) {
    IsInst(m, f, i) && m.functions[f].code[i].Call? && m.functions[f].code[i].callee == k
  }

  /** Every function's level in the call graph; a call of a function that may be cloned goes to a
      strictly higher level. */
  type Levels = seq<nat>

  ghost predicate Layered(m: Module, levels: Levels) {
    |levels| == |m.functions| && forall f: nat, i: nat :: IsInst(m, f, i) && m.functions[f].code[i].Call? ==>
      m.functions[f].code[i].callee < |levels|
      && (ShouldSpecialize(m.functions[m.functions[f].code[i].callee]) ==> levels[f] < levels[m.functions[f].code[i].callee])
  }

  function AtLevel(levels: Levels, r: nat): set<nat> {
    set k: nat | 0 <= k < |levels| && levels[k] == r
  }

  function CalledAtLevel(m: Module, levels: Levels, r: nat): set<nat> {
    set k | k in Targets(m) && k < |levels| && k < |m.functions| && levels[k] == r && ShouldSpecialize(m.functions[k])
  }

  /** At each level there are at most twice as many functions as are called and may be cloned, above
      what was there to begin with. */
  ghost predicate Balanced(m: Module, levels: Levels, base: nat) {
    && |levels| == |m.functions|
    && forall r: nat :: |AtLevel(levels, r)| <= base + 2 * |CalledAtLevel(m, levels, r)|
  }

  lemma BalancedAtFirst(m: Module, levels: Levels)
    requires |levels| == |m.functions|
    ensures Balanced(m, levels, |m.functions|)
  {
    forall r: nat
      ensures |AtLevel(levels, r)| <= |m.functions|
    {
      RangeSize(0, |m.functions|);
      SubsetSize(AtLevel(levels, r), Range(0, |m.functions|));
    }
  }

  function Copies(level: nat, count: nat): (r: Levels)
    ensures |r| == count && forall k :: 0 <= k < count ==> r[k] == level
  {
    seq(count, _ => level)
  }

  /** m' has the functions of m, with copies of function j behind them, as far as that may be cloned. */
  ghost predicate SameToClone(m: Module, m': Module, j: nat) {
    && j < |m.functions| <= |m'.functions| && ShouldSpecialize(m.functions[j])
    && (forall k :: 0 <= k < |m.functions| ==> ShouldSpecialize(m'.functions[k]) == ShouldSpecialize(m.functions[k]))
    && forall k :: |m.functions| <= k < |m'.functions| ==> ShouldSpecialize(m'.functions[k])
  }

  /** One function j is copied `count` times, every copy gets a caller, and j may lose its own: the
      balance holds again, provided there are two copies at least, or j keeps a caller. */
  lemma CloningKeepsBalance(m: Module, m': Module, levels: Levels, base: nat, j: nat, count: nat, keepsCaller: bool)
    requires Balanced(m, levels, base) && j < |levels| && |m'.functions| == |levels| + count && SameToClone(m, m', j)
    requires forall k :: k in Targets(m) && k != j ==> k in Targets(m')
    requires forall k :: k in Range(|levels|, |levels| + count) ==> k in Targets(m')
    requires keepsCaller ==> j in Targets(m')
    requires count >= 2 || (count >= 1 && keepsCaller)
    ensures Balanced(m', levels + Copies(levels[j], count), base)
  {
    var levels' := levels + Copies(levels[j], count);
    hide Targets, Range, AtLevel, CalledAtLevel;
    CallersAfterCloning(m, m', levels, j, count, keepsCaller);
    forall r: nat
      ensures |AtLevel(levels', r)| <= base + 2 * |CalledAtLevel(m', levels', r)|
    {
      assert |AtLevel(levels, r)| <= base + 2 * |CalledAtLevel(m, levels, r)|;
      LevelsAfterCloning(levels, j, count, r);
      if r != levels[j] { OtherCallersKept(m, m', levels, j, count, r); }
    }
  }

  lemma LevelAfterCloning(levels: Levels, level: nat, count: nat, r: nat, k: nat)
    ensures k in AtLevel(levels + Copies(level, count), r) <==>
      k in AtLevel(levels, r) || (r == level && |levels| <= k < |levels| + count)
  {
    hide Copies;
  }

  lemma LevelsAfterCloning(levels: Levels, j: nat, count: nat, r: nat)
    requires j < |levels|
    ensures |AtLevel(levels + Copies(levels[j], count), r)| == |AtLevel(levels, r)| + if r == levels[j] then count else 0
  {
    var before, after, ids := AtLevel(levels, r), AtLevel(levels + Copies(levels[j], count), r), Range(|levels|, |levels| + count);
    assert before !! ids;
    RangeSize(|levels|, |levels| + count);
    forall k: nat
      ensures k in after <==> k in before || (r == levels[j] && k in ids)
    {
      LevelAfterCloning(levels, levels[j], count, r, k);
    }
    hide AtLevel, Copies, Range;
    if r == levels[j] {
      assert after == before + ids;
    } else {
      assert after == before;
    }
  }

  lemma OtherCallersKept(m: Module, m': Module, levels: Levels, j: nat, count: nat, r: nat)
    requires |levels| == |m.functions| && j < |levels| && r != levels[j] && SameToClone(m, m', j)
    requires forall k :: k in Targets(m) && k != j ==> k in Targets(m')
    ensures |CalledAtLevel(m, levels, r)| <= |CalledAtLevel(m', levels + Copies(levels[j], count), r)|
  {
    hide Targets;
    SubsetSize(CalledAtLevel(m, levels, r), CalledAtLevel(m', levels + Copies(levels[j], count), r));
  }

  lemma CalledIsTarget(m: Module, levels: Levels, r: nat, k: nat)
    requires k in CalledAtLevel(m, levels, r)
    ensures k in Targets(m) && k < |levels|
  {
    hide Targets;
  }

  lemma StillCalledAt(m: Module, m': Module, levels: Levels, j: nat, count: nat, k: nat)
    requires |levels| == |m.functions| && j < |levels| && |m'.functions| == |levels| + count && SameToClone(m, m', j)
    requires k in Targets(m')
    requires k in CalledAtLevel(m, levels, levels[j]) || k in Range(|levels|, |levels| + count)
    ensures k in CalledAtLevel(m', levels + Copies(levels[j], count), levels[j])
  {
    hide Targets;
  }

  lemma CallersAfterCloning(m: Module, m': Module, levels: Levels, j: nat, count: nat, keepsCaller: bool)
    requires |levels| == |m.functions| && j < |levels| && |m'.functions| == |levels| + count && SameToClone(m, m', j)
    requires forall k :: k in Targets(m) && k != j ==> k in Targets(m')
    requires forall k :: k in Range(|levels|, |levels| + count) ==> k in Targets(m')
    requires keepsCaller ==> j in Targets(m')
    ensures |CalledAtLevel(m', levels + Copies(levels[j], count), levels[j])| + (if keepsCaller then 0 else 1) >=
            |CalledAtLevel(m, levels, levels[j])| + count
  {
    hide Targets, Range, SameToClone, CalledAtLevel, Copies;
    var levels', r := levels + Copies(levels[j], count), levels[j];
    var before, after, ids := CalledAtLevel(m, levels, r), CalledAtLevel(m', levels', r), Range(|levels|, |levels| + count);
    RangeSize(|levels|, |levels| + count);
    var kept := if keepsCaller then before else before - {j};
    forall k | k in before
      ensures k in Targets(m) && k < |levels|
    {
      CalledIsTarget(m, levels, r, k);
    }
    forall k | k in kept + ids
      ensures k in after
    {
      StillCalledAt(m, m', levels, j, count, k);
    }
    assert kept !! ids;
    SubsetSize(kept + ids, after);
  }

  // ----- The bound -----

  /** The direct call targets of one function's first n instructions. */
  function TargetsOf(code: seq<Inst>): set<nat> {
    if code == [] then {}
    else TargetsOf(code[..|code| - 1]) + (if code[|code| - 1].Call? then {code[|code| - 1].callee} else {})
  }

  lemma {:induction false} TargetsOfSize(code: seq<Inst>)
    ensures |TargetsOf(code)| <= |code|
    ensures forall i :: 0 <= i < |code| && code[i].Call? ==> code[i].callee in TargetsOf(code)
  {
    if code != [] {
      TargetsOfSize(code[..|code| - 1]);
    }
  }

  lemma CallerOf(m: Module, k: nat) returns (f: nat, i: nat)
    requires k in Targets(m)
    ensures CallsAt(m, f, i, k)
  {
    f, i :| 0 <= f < |m.functions| && 0 <= i < |m.functions[f].code| && m.functions[f].code[i].Call? && m.functions[f].code[i].callee == k;
  }

  ghost predicate CalledFrom(m: Module, callers: set<nat>, k: nat) {
    exists f: nat, i: nat :: f in callers && CallsAt(m, f, i, k)
  }

  /** Everything called from a set of functions. */
  lemma {:induction false} CalledFromFew(m: Module, callers: set<nat>, targets: set<nat>, length: nat)
    requires forall f :: f in callers ==> f < |m.functions| && |m.functions[f].code| <= length
    requires forall k :: k in targets ==> CalledFrom(m, callers, k)
    ensures |targets| <= |callers| * length
    decreases callers
  {
    if callers == {} {
      assert targets == {};
    } else {
      var f :| f in callers;
      var here := TargetsOf(m.functions[f].code);
      TargetsOfSize(m.functions[f].code);
      forall k | k in targets - here
        ensures CalledFrom(m, callers - {f}, k)
      {
        var g: nat, i: nat :| g in callers && CallsAt(m, g, i, k);
        assert g != f;
      }
      CalledFromFew(m, callers - {f}, targets - here, length);
      hide CalledFrom, TargetsOf;
      SizeWithout(targets, here);
      OneMore(callers, f, length);
    }
  }

  lemma SizeWithout(targets: set<nat>, here: set<nat>)
    ensures |targets| <= |targets - here| + |here|
  {
    assert targets == (targets - here) + (targets * here);
    SubsetSize(targets * here, here);
  }

  lemma OneMore(callers: set<nat>, f: nat, length: nat)
    requires f in callers
    ensures |callers - {f}| * length + length == |callers| * length
  {
  }

  function BelowLevel(levels: Levels, r: nat): set<nat> {
    set k: nat | 0 <= k < |levels| && levels[k] < r
  }

  /** How many functions there can be below level r, with `base` to begin with at each level and at
      most `length` instructions in each. */
  function Bound(base: nat, length: nat, r: nat): nat {
    if r == 0 then 0 else Bound(base, length, r - 1) + base + 2 * (Bound(base, length, r - 1) * length)
  }

  lemma {:induction false} LevelsAreBounded(m: Module, levels: Levels, base: nat, length: nat, r: nat)
    requires Balanced(m, levels, base) && Layered(m, levels)
    requires forall f :: 0 <= f < |m.functions| ==> |m.functions[f].code| <= length
    ensures |BelowLevel(levels, r)| <= Bound(base, length, r)
  {
    if r == 0 {
      assert BelowLevel(levels, 0) == {};
    } else {
      LevelsAreBounded(m, levels, base, length, r - 1);
      var callers, targets := BelowLevel(levels, r - 1), CalledAtLevel(m, levels, r - 1);
      forall k | k in targets
        ensures CalledFrom(m, callers, k)
      {
        var f, i := CallerOf(m, k);
        assert f in callers;
      }
      hide CalledFrom, Targets;
      CalledFromFew(m, callers, targets, length);
      assert BelowLevel(levels, r) == callers + AtLevel(levels, r - 1);
      MultiplyMonotone(|callers|, Bound(base, length, r - 1), length);
      assert |AtLevel(levels, r - 1)| <= base + 2 * |targets|;
    }
  }

  lemma MultiplyMonotone(a: nat, b: nat, c: nat)
    requires a <= b
    ensures a * c <= b * c
  {
    assert b * c == a * c + (b - a) * c;
  }

  /** A module without cycles of functions that may be cloned never has more functions than this, however often it is specialized. */
  lemma FunctionsAreBounded(m: Module, levels: Levels, base: nat, length: nat, depth: nat)
    requires Balanced(m, levels, base) && Layered(m, levels)
    requires forall f :: 0 <= f < |m.functions| ==> |m.functions[f].code| <= length
    requires forall f :: 0 <= f < |levels| ==> levels[f] < depth
    ensures |m.functions| <= Bound(base, length, depth)
  {
    LevelsAreBounded(m, levels, base, length, depth);
    RangeSize(0, |levels|);
    assert BelowLevel(levels, depth) == Range(0, |levels|);
  }
}
