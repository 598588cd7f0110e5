/** Why specialization needs an acyclic call graph: a recursive function that is called with a raw
    pointer and with an object is cloned again in every round. */
module DispatchRecursion {
  import opened Wrappers
  import opened ManagedIR
  import opened ManagedState
  import opened ManagedStateAnalysisModule
  import opened StateSolutions
  import opened Renaming
  import opened DispatchCounting
  import opened ManagedDispatch
  import opened DispatchPass

  /** Function 1 passes its argument on to itself; function 2 calls it with a stack address and with a new object. */
  const Recursive: Module := Module([
    Function([], true, ObjectAllocator, true, false, false, []),
    Function([true], false, Ordinary, false, false, false, [Call(1, [Arg(0)]), Ret(Scalar(0))]),
    Function([], false, Ordinary, false, false, false, [Alloca(true), Call(0, []), Call(1, [Result(0)]), Call(1, [Result(1)]), Ret(Scalar(0))])
  ], [])

  /** What a clone of function 1 is called with. */
  datatype Color = OfRaw | OfObject

  function StateOf(color: Color): PointerState {
    if color == OfRaw then {IsRaw} else {IsObject}
  }

  function SignatureOf(color: Color): Signature {
    if color == OfRaw then [RawArg] else [ObjectArg]
  }

  predicate IsForwarder(fn: Function) {
    && fn.params == [true] && !fn.returnsPointer && !fn.isDeclaration && !fn.hasAddressTaken && !fn.isVarArg
    && |fn.code| == 2 && fn.code[0].Call? && fn.code[0].args == [Arg(0)] && fn.code[1] == Ret(Scalar(0))
  }

  predicate IsCaller(fn: Function) {
    && fn.params == [] && !fn.returnsPointer && !fn.isDeclaration && !fn.hasAddressTaken && !fn.isVarArg
    && |fn.code| == 5 && fn.code[0] == Alloca(true) && fn.code[1] == Call(0, []) && fn.code[4] == Ret(Scalar(0))
    && fn.code[2].Call? && fn.code[2].args == [Result(0)] && fn.code[3].Call? && fn.code[3].args == [Result(1)]
  }

  /** c may be called with a pointer of that color: it is function 1 or a clone made for the color. */
  predicate Takes(colors: seq<Color>, c: nat, color: Color) {
    c == 1 || (3 <= c < 3 + |colors| && colors[c - 3] == color)
  }

  /** The color of the pointer that call i of function g passes. */
  function PassedColor(colors: seq<Color>, g: nat, i: nat): Color {
    if g == 2 && i == 2 then OfRaw else if 3 <= g < 3 + |colors| then colors[g - 3] else OfObject
  }

  predicate IsPass(colors: seq<Color>, g: nat, i: nat) {
    (g == 2 && (i == 2 || i == 3)) || (3 <= g < 3 + |colors| && i == 0)
  }

  /** The functions of the module after some rounds. */
  ghost predicate Functions(m: Module, colors: seq<Color>) {
    && |m.functions| == 3 + |colors| && m.globals == [] && m.functions[0] == Recursive.functions[0]
    && IsForwarder(m.functions[1]) && m.functions[1].code[0].callee == 1
    && IsCaller(m.functions[2]) && Takes(colors, m.functions[2].code[2].callee, OfRaw) && Takes(colors, m.functions[2].code[3].callee, OfObject)
    && forall k :: 3 <= k < |m.functions| ==> IsForwarder(m.functions[k]) && Takes(colors, m.functions[k].code[0].callee, colors[k - 3])
  }

  ghost predicate HasCaller(m: Module, k: nat) {
    exists g: nat, i: nat :: g < k && CallsAt(m, g, i, k)
  }

  /** Somewhere function 1 is still called with a pointer of the color. */
  ghost predicate StillPassed(m: Module, colors: seq<Color>, color: Color) {
    exists g: nat, i: nat :: CallsAt(m, g, i, 1) && IsPass(colors, g, i) && PassedColor(colors, g, i) == color
  }

  ghost predicate Shape(m: Module, colors: seq<Color>) {
    && Functions(m, colors) && (forall k: nat :: 3 <= k < |m.functions| ==> HasCaller(m, k))
    && StillPassed(m, colors, OfRaw) && StillPassed(m, colors, OfObject)
  }

  lemma StartsInShape()
    ensures Shape(Recursive, [])
  {
    assert CallsAt(Recursive, 2, 2, 1) && CallsAt(Recursive, 2, 3, 1);
  }

  /** The calls of such a module, but for the one of the allocator. */
  lemma CallsOf(m: Module, colors: seq<Color>, g: nat, i: nat, c: nat)
    requires Functions(m, colors) && CallsAt(m, g, i, c)
    ensures (g == 2 && i == 1 && c == 0) || (g == 1 && i == 0 && c == 1) || (IsPass(colors, g, i) && Takes(colors, c, PassedColor(colors, g, i)))
  {
  }

  // ----- What the analysis finds -----

  function Cells(m: Module): set<Cell> {
    {ValueCell(Key(2, Result(0))), ValueCell(Key(2, Result(1)))} + set k | 0 <= k < |m.functions| :: ParamCell(k, 0)
  }

  function CellState(colors: seq<Color>, c: Cell): PointerState {
    match c
    case ValueCell(key) => if key.op == Result(0) then {IsRaw} else {IsObject}
    case ParamCell(f, _) => if 3 <= f < 3 + |colors| then StateOf(colors[f - 3]) else {IsRaw, IsObject}
    case _ => {}
  }

  function Expected(m: Module, colors: seq<Color>): States {
    map c | c in Cells(m) :: CellState(colors, c)
  }

  lemma ExpectedCells(m: Module, colors: seq<Color>)
    requires Functions(m, colors)
    ensures Get(Expected(m, colors), ValueCell(Key(2, Result(0)))) == {IsRaw} && Get(Expected(m, colors), ValueCell(Key(2, Result(1)))) == {IsObject}
    ensures forall k: nat :: k < |m.functions| ==> Get(Expected(m, colors), ParamCell(k, 0)) == CellState(colors, ParamCell(k, 0))
  {
    forall k: nat | k < |m.functions|
      ensures ParamCell(k, 0) in Cells(m)
    {
    }
  }

  lemma ExpectedHolds(m: Module, colors: seq<Color>, f: nat, i: nat)
    requires Functions(m, colors) && IsInst(m, f, i)
    ensures Holds(m, f, i, Expected(m, colors))
  {
    ExpectedCells(m, colors);
    hide Expected, Get, Cells;
    if m.functions[f].code[i].Call? { CallsOf(m, colors, f, i, m.functions[f].code[i].callee); }
  }

  lemma ExpectedIsSolution(m: Module, colors: seq<Color>)
    requires Functions(m, colors)
    ensures Solution(m, Expected(m, colors)) && TrackedOnly(m)
  {
    forall f: nat, i: nat | IsInst(m, f, i)
      ensures Holds(m, f, i, Expected(m, colors))
    {
      ExpectedHolds(m, colors, f, i);
    }
    hide Holds;
  }

  /** The final tables of an analysis of the module. */
  ghost predicate Analysed(m: Module, trail: seq<Visit>) {
    (forall v :: v in trail ==> IsVisit(m, v)) && Closed(m, Replay(m, trail))
  }

  lemma AtMostExpected(m: Module, colors: seq<Color>, trail: seq<Visit>, c: Cell)
    requires Functions(m, colors) && Analysed(m, trail) && !c.LocationCell?
    ensures Get(Replay(m, trail), c) <= Get(Expected(m, colors), c)
  {
    hide Functions, Closed, Replay, Expected, Get, Solution, TrackedOnly;
    ExpectedIsSolution(m, colors);
    TrackedIsBelow(m, trail, Expected(m, colors));
  }

  lemma Passes(m: Module, colors: seq<Color>, g: nat, i: nat, c: nat)
    requires Functions(m, colors) && CallsAt(m, g, i, c) && c != 0
    ensures PassesTo(m, g, i, c, 0) && Internal(m, c)
    ensures m.functions[g].code[i].args == if g == 2 then [Result(i - 2)] else [Arg(0)]
  {
    CallsOf(m, colors, g, i, c);
  }

  lemma LocalStates(m: Module, colors: seq<Color>, trail: seq<Visit>)
    requires Functions(m, colors) && Analysed(m, trail)
    ensures ValueState(m, 2, Result(0), Replay(m, trail)) == {IsRaw} && ValueState(m, 2, Result(1), Replay(m, trail)) == {IsObject}
  {
    var s := Replay(m, trail);
    hide Closed, Replay, Expected, Solution;
    ClosedIsSolution(m, s);
    AtMostExpected(m, colors, trail, ValueCell(Key(2, Result(0))));
    AtMostExpected(m, colors, trail, ValueCell(Key(2, Result(1))));
    ExpectedCells(m, colors);
    SolutionHolds(m, s, 2, 0);
    SolutionHolds(m, s, 2, 1);
    hide Get;
  }

  lemma SolutionHolds(m: Module, s: States, f: nat, i: nat)
    requires Solution(m, s) && IsInst(m, f, i)
    ensures Holds(m, f, i, s)
  {
    hide Holds;
  }

  /** What a call passes reaches the parameter of the function it names. */
  lemma PassedArrives(m: Module, colors: seq<Color>, trail: seq<Visit>, g: nat, i: nat, c: nat)
    requires Functions(m, colors) && Analysed(m, trail) && CallsAt(m, g, i, c) && c != 0
    ensures ValueState(m, g, m.functions[g].code[i].args[0], Replay(m, trail)) <= Get(Replay(m, trail), ParamCell(c, 0))
  {
    hide Functions, Closed, Replay, Solution;
    Passes(m, colors, g, i, c);
    ClosedIsSolution(m, Replay(m, trail));
    SolutionCoversPassed(m, Replay(m, trail), g, i, c, 0);
  }

  /** A clone's parameter has exactly the state of its color. */
  lemma {:induction false} CloneState(m: Module, colors: seq<Color>, trail: seq<Visit>, k: nat)
    requires Shape(m, colors) && Analysed(m, trail) && 3 <= k < |m.functions|
    ensures Get(Replay(m, trail), ParamCell(k, 0)) == StateOf(colors[k - 3])
    decreases k
  {
    var s := Replay(m, trail);
    hide Closed, Replay, Expected, Solution, Get;
    assert HasCaller(m, k);
    var g: nat, i: nat :| g < k && CallsAt(m, g, i, k);
    AtMostExpected(m, colors, trail, ParamCell(k, 0));
    ExpectedCells(m, colors);
    PassState(m, colors, trail, g, i, k, k);
    PassedArrives(m, colors, trail, g, i, k);
  }

  /** A call that is not function 1's own passes exactly the state of its color. */
  lemma {:induction false} PassState(m: Module, colors: seq<Color>, trail: seq<Visit>, g: nat, i: nat, c: nat, bound: nat)
    requires Shape(m, colors) && Analysed(m, trail) && CallsAt(m, g, i, c) && IsPass(colors, g, i) && g < bound
    ensures ValueState(m, g, m.functions[g].code[i].args[0], Replay(m, trail)) == StateOf(PassedColor(colors, g, i))
    ensures c != 0 && Takes(colors, c, PassedColor(colors, g, i))
    decreases bound, 0
  {
    hide Closed, Replay, Get, Key;
    CallsOf(m, colors, g, i, c);
    if g == 2 {
      LocalStates(m, colors, trail);
    } else {
      CloneState(m, colors, trail, g);
    }
  }

  /** Function 1 itself is given both kinds. */
  lemma MixedState(m: Module, colors: seq<Color>, trail: seq<Visit>)
    requires Shape(m, colors) && Analysed(m, trail)
    ensures Get(Replay(m, trail), ParamCell(1, 0)) == {IsRaw, IsObject}
  {
    hide Closed, Replay, Get, Key, Functions, Expected;
    var g: nat, i: nat :| CallsAt(m, g, i, 1) && IsPass(colors, g, i) && PassedColor(colors, g, i) == OfRaw;
    PassState(m, colors, trail, g, i, 1, g + 1);
    PassedArrives(m, colors, trail, g, i, 1);
    var h: nat, k: nat :| CallsAt(m, h, k, 1) && IsPass(colors, h, k) && PassedColor(colors, h, k) == OfObject;
    PassState(m, colors, trail, h, k, 1, h + 1);
    PassedArrives(m, colors, trail, h, k, 1);
    AtMostExpected(m, colors, trail, ParamCell(1, 0));
    ExpectedCells(m, colors);
  }

  // ----- Signatures -----

  lemma SignatureOfPass(m: Module, colors: seq<Color>, trail: seq<Visit>, g: nat, i: nat, c: nat)
    requires Shape(m, colors) && Analysed(m, trail) && CallsAt(m, g, i, c) && IsPass(colors, g, i)
    ensures c != 0 && c < |m.functions| && Takes(colors, c, PassedColor(colors, g, i))
    ensures SignatureAt(m, Replay(m, trail), g, i, c) == SignatureOf(PassedColor(colors, g, i))
  {
    hide Closed, Replay, Get, Key;
    PassState(m, colors, trail, g, i, c, g + 1);
    CallsOf(m, colors, g, i, c);
    Passes(m, colors, g, i, c);
    assert |m.functions[c].params| == 1;
    hide Functions, ValueState;
    var state := StateOf(PassedColor(colors, g, i));
    assert state - {IsNull} == state;
  }

  lemma SignatureOfRecursion(m: Module, colors: seq<Color>, trail: seq<Visit>)
    requires Shape(m, colors) && Analysed(m, trail)
    ensures CallsAt(m, 1, 0, 1) && SignatureAt(m, Replay(m, trail), 1, 0, 1) == [GenericArg]
  {
    hide Closed, Replay, Get, Key;
    MixedState(m, colors, trail);
    var state := {IsRaw, IsObject};
    assert state - {IsNull} == state && IsRaw in state && IsObject in state;
    assert DispatchKind(state) == Unknown;
  }

  lemma OthersAgree(m: Module, colors: seq<Color>, trail: seq<Visit>, c: nat)
    requires Shape(m, colors) && Analysed(m, trail) && c < |m.functions| && c != 1
    ensures AgreeAt(m, Replay(m, trail), c)
  {
    hide Closed, Replay, SignatureAt, StateOf;
    if c != 0 {
      forall f: nat, i: nat, g: nat, k: nat | CallsAt(m, f, i, c) && CallsAt(m, g, k, c)
        ensures SignatureAt(m, Replay(m, trail), f, i, c) == SignatureAt(m, Replay(m, trail), g, k, c)
      {
        CallsOf(m, colors, f, i, c);
        CallsOf(m, colors, g, k, c);
        SignatureOfPass(m, colors, trail, f, i, c);
        SignatureOfPass(m, colors, trail, g, k, c);
      }
    }
  }

  lemma RecursionDisagrees(m: Module, colors: seq<Color>, trail: seq<Visit>)
    requires Shape(m, colors) && Analysed(m, trail)
    ensures !AgreeAt(m, Replay(m, trail), 1)
  {
    hide Closed, Replay, SignatureAt, HasCaller;
    var g: nat, i: nat :| CallsAt(m, g, i, 1) && IsPass(colors, g, i) && PassedColor(colors, g, i) == OfRaw;
    SignatureOfPass(m, colors, trail, g, i, 1);
    SignatureOfRecursion(m, colors, trail);
    assert SignatureAt(m, Replay(m, trail), g, i, 1)[0] != SignatureAt(m, Replay(m, trail), 1, 0, 1)[0];
  }

  // ----- A round -----

  function ColorOf(signature: Signature): Color {
    if signature == [RawArg] then OfRaw else OfObject
  }

  function Colored(colors: seq<Color>, made: seq<Made>): (r: seq<Color>)
    ensures |r| == |colors| + |made| && (forall k :: 0 <= k < |colors| ==> r[k] == colors[k])
    ensures forall k :: 0 <= k < |made| ==> r[|colors| + k] == ColorOf(made[k].signature)
  {
    colors + seq(|made|, k requires 0 <= k < |made| => ColorOf(made[k].signature))
  }

  /** The parts of a round that are used below. */
  lemma RoundParts(m: Module, trail: seq<Visit>, m': Module, made: seq<Made>)
    requires IsRound(m, trail, m', made)
    ensures Analysed(m, trail) && Renames(m', m, Identity(|m.functions|) + Origins(made)) && |m'.functions| == |m.functions| + |made|
    ensures forall a, b :: 0 <= a < b < |made| ==> made[a] != made[b]
    ensures forall g: nat, i: nat, c: nat :: CallsAt(m, g, i, c) && c < |m.functions| ==> CallMoved(m, Replay(m, trail), m', made, g, i, c)
    ensures forall k: nat :: k < |made| ==> IsNeeded(m, Replay(m, trail), made[k]) && CloneCalls(m, m', |m.functions| + k, made[k].of)
  {
    hide CallMoved, IsNeeded, CloneCalls, Renames, Closed, Replay;
  }

  lemma ClonesAreOfRecursion(m: Module, colors: seq<Color>, trail: seq<Visit>, clone: Made)
    requires Shape(m, colors) && Analysed(m, trail) && IsNeeded(m, Replay(m, trail), clone)
    ensures clone.of == 1 && clone.signature == SignatureOf(ColorOf(clone.signature))
    ensures exists g: nat, i: nat :: CallsAt(m, g, i, 1) && IsPass(colors, g, i) && PassedColor(colors, g, i) == ColorOf(clone.signature)
  {
    hide Closed, Replay, AgreeAt, SignatureAt, HasCaller;
    if clone.of != 1 {
      OthersAgree(m, colors, trail, clone.of);
      assert false;
    }
    var g: nat, i: nat :| CallsAt(m, g, i, 1) && SignatureAt(m, Replay(m, trail), g, i, 1) == clone.signature;
    CallsOf(m, colors, g, i, 1);
    if g == 1 {
      SignatureOfRecursion(m, colors, trail);
      assert false;
    }
    SignatureOfPass(m, colors, trail, g, i, 1);
  }

  /** A call that passes a color goes on to something that takes the color; a call of function 1 moves to a new clone. */
  lemma PassMoves(m: Module, colors: seq<Color>, trail: seq<Visit>, m': Module, made: seq<Made>, g: nat, i: nat, c: nat)
    requires Shape(m, colors) && IsRound(m, trail, m', made) && CallsAt(m, g, i, c) && IsPass(colors, g, i)
    ensures c != 1 ==> CallsAt(m', g, i, c) && Takes(Colored(colors, made), c, PassedColor(colors, g, i))
    ensures c == 1 ==> exists k: nat :: k < |made| && ColorOf(made[k].signature) == PassedColor(colors, g, i) && CallsAt(m', g, i, |m.functions| + k)
  {
    hide Shape, Closed, Replay, AgreeAt, SignatureAt, IsRound, HasSpecialization;
    RoundParts(m, trail, m', made);
    SignatureOfPass(m, colors, trail, g, i, c);
    assert CallMoved(m, Replay(m, trail), m', made, g, i, c);
    if c != 1 {
      OthersAgree(m, colors, trail, c);
    } else {
      RecursionDisagrees(m, colors, trail);
      Specialized(PassedColor(colors, g, i));
      var k: nat :| k < |made| && made[k] == Made(c, SignatureAt(m, Replay(m, trail), g, i, c)) && CallsAt(m', g, i, |m.functions| + k);
    }
  }

  lemma Specialized(color: Color)
    ensures HasSpecialization(SignatureOf(color)) && ColorOf(SignatureOf(color)) == color
  {
    assert SignatureOf(color)[0] != GenericArg;
  }

  lemma OthersStay(m: Module, colors: seq<Color>, trail: seq<Visit>, m': Module, made: seq<Made>)
    requires Shape(m, colors) && IsRound(m, trail, m', made)
    ensures CallsAt(m', 1, 0, 1) && CallsAt(m', 2, 1, 0)
  {
    RoundParts(m, trail, m', made);
    SignatureOfRecursion(m, colors, trail);
    OthersAgree(m, colors, trail, 0);
    assert CallsAt(m, 2, 1, 0);
    hide HasCaller, Closed, Replay, AgreeAt, SignatureAt, IsRound;
    assert CallMoved(m, Replay(m, trail), m', made, 1, 0, 1) && CallMoved(m, Replay(m, trail), m', made, 2, 1, 0);
  }

  lemma ForwarderIsKept(m': Module, m: Module, origin: Origin, k: nat)
    requires Renames(m', m, origin) && k < |origin| && origin[k] < |m.functions| && IsForwarder(m.functions[origin[k]])
    requires m.functions[origin[k]].code[0].callee < |m.functions| && !m'.functions[k].hasAddressTaken
    ensures IsForwarder(m'.functions[k])
  {
    assert CopyOf(m', m, origin, k);
    var a, b := m'.functions[k].code, m.functions[origin[k]].code;
    assert SameInst(a[0], b[0], origin) && SameInst(a[1], b[1], origin);
  }

  lemma CallerIsKept(m': Module, m: Module, origin: Origin)
    requires Renames(m', m, origin) && |m.functions| >= 3 && origin[2] == 2 && IsCaller(m.functions[2]) && CallsAt(m', 2, 1, 0)
    ensures IsCaller(m'.functions[2])
  {
    assert CopyOf(m', m, origin, 2);
    var a, b := m'.functions[2].code, m.functions[2].code;
    assert SameInst(a[0], b[0], origin) && SameInst(a[1], b[1], origin) && SameInst(a[2], b[2], origin) && SameInst(a[3], b[3], origin)
           && SameInst(a[4], b[4], origin);
  }

  lemma AllocatorIsKept(m': Module, m: Module, origin: Origin)
    requires Renames(m', m, origin) && |m.functions| >= 3 && origin[0] == 0 && m.functions[0] == Recursive.functions[0]
    ensures m'.functions[0] == Recursive.functions[0]
  {
    assert CopyOf(m', m, origin, 0);
    assert m'.functions[0].code == [];
  }

  lemma OriginIsForwarder(m: Module, colors: seq<Color>, trail: seq<Visit>, made: seq<Made>, k: nat)
    requires Shape(m, colors) && Analysed(m, trail) && forall k: nat :: k < |made| ==> IsNeeded(m, Replay(m, trail), made[k])
    requires 1 <= k < |m.functions| + |made| && k != 2
    ensures var from := (Identity(|m.functions|) + Origins(made))[k]; from < |m.functions| && (from == 1 || 3 <= from)
  {
    hide Functions, HasCaller, StillPassed, Closed, Replay, IsNeeded;
    if k >= |m.functions| { ClonesAreOfRecursion(m, colors, trail, made[k - |m.functions|]); }
    hide *;
  }

  /** Every forwarding function of the next module is as its original was, but for what it calls. */
  lemma ForwardersKept(m: Module, colors: seq<Color>, trail: seq<Visit>, m': Module, made: seq<Made>, k: nat)
    requires Shape(m, colors) && IsRound(m, trail, m', made) && 1 <= k < |m'.functions| && k != 2
    ensures IsForwarder(m'.functions[k])
  {
    RoundParts(m, trail, m', made);
    hide Functions, HasCaller, StillPassed, Renames, Closed, Replay, IsRound, IsNeeded, CloneCalls, CallMoved, IsForwarder;
    var origin := Identity(|m.functions|) + Origins(made);
    OriginIsForwarder(m, colors, trail, made, k);
    CalleeInside(m, colors, origin[k]);
    AddressNotTaken(m', m, origin, k);
    ForwarderIsKept(m', m, origin, k);
  }

  lemma FirstFunctionsKept(m: Module, colors: seq<Color>, trail: seq<Visit>, m': Module, made: seq<Made>)
    requires Shape(m, colors) && IsRound(m, trail, m', made)
    ensures |m'.functions| == 3 + |Colored(colors, made)| && m'.globals == [] && m'.functions[0] == Recursive.functions[0]
    ensures IsCaller(m'.functions[2])
  {
    RoundParts(m, trail, m', made);
    OthersStay(m, colors, trail, m', made);
    hide HasCaller, StillPassed, Closed, Replay, IsRound, IsNeeded, CloneCalls, CallMoved, IsForwarder, IsCaller, CopyOf;
    var origin := Identity(|m.functions|) + Origins(made);
    AllocatorIsKept(m', m, origin);
    CallerIsKept(m', m, origin);
  }

  lemma CalleeInside(m: Module, colors: seq<Color>, k: nat)
    requires Functions(m, colors) && k < |m.functions| && (k == 1 || 3 <= k)
    ensures IsForwarder(m.functions[k]) && m.functions[k].code[0].callee < |m.functions|
  {
  }

  lemma AddressNotTaken(m': Module, m: Module, origin: Origin, k: nat)
    requires Renames(m', m, origin) && k < |origin| && origin[k] < |m.functions| && IsForwarder(m.functions[origin[k]])
    ensures !m'.functions[k].hasAddressTaken
  {
    assert CopyOf(m', m, origin, k);
  }

  lemma NewTakes(m: Module, colors: seq<Color>, made: seq<Made>, k: nat)
    requires Functions(m, colors) && k < |made|
    ensures Takes(Colored(colors, made), |m.functions| + k, ColorOf(made[k].signature))
    ensures IsPass(Colored(colors, made), |m.functions| + k, 0) && PassedColor(Colored(colors, made), |m.functions| + k, 0) == ColorOf(made[k].signature)
  {
    hide IsForwarder, IsCaller;
  }

  /** After the round a passing call names something that takes its color. */
  lemma PassTakes(m: Module, colors: seq<Color>, trail: seq<Visit>, m': Module, made: seq<Made>, g: nat, i: nat)
    requires Shape(m, colors) && IsRound(m, trail, m', made) && IsPass(colors, g, i)
    ensures IsInst(m', g, i) && m'.functions[g].code[i].Call? && Takes(Colored(colors, made), m'.functions[g].code[i].callee, PassedColor(colors, g, i))
  {
    hide HasCaller, IsRound, Renames, Closed, Replay;
    var c := m.functions[g].code[i].callee;
    assert CallsAt(m, g, i, c);
    PassMoves(m, colors, trail, m', made, g, i, c);
    if c == 1 {
      var k: nat :| k < |made| && ColorOf(made[k].signature) == PassedColor(colors, g, i) && CallsAt(m', g, i, |m.functions| + k);
      NewTakes(m, colors, made, k);
    }
  }

  lemma NewCallsRecursion(m: Module, colors: seq<Color>, trail: seq<Visit>, m': Module, made: seq<Made>, k: nat)
    requires Shape(m, colors) && IsRound(m, trail, m', made) && k < |made|
    ensures CallsAt(m', |m.functions| + k, 0, 1)
  {
    hide HasCaller, Closed, Replay, IsRound, Renames, CallMoved, IsNeeded;
    RoundParts(m, trail, m', made);
    ClonesAreOfRecursion(m, colors, trail, made[k]);
    assert CallsAt(m, 1, 0, 1);
  }

  lemma CloneTakes(m: Module, colors: seq<Color>, trail: seq<Visit>, m': Module, made: seq<Made>, k: nat)
    requires Shape(m, colors) && IsRound(m, trail, m', made) && 3 <= k < |m'.functions| && |m'.functions| == 3 + |Colored(colors, made)|
    ensures IsInst(m', k, 0) && m'.functions[k].code[0].Call? && Takes(Colored(colors, made), m'.functions[k].code[0].callee, Colored(colors, made)[k - 3])
  {
    hide Functions, HasCaller, StillPassed, IsRound;
    SizeOfShape(m, colors);
    if k < |m.functions| {
      PassTakes(m, colors, trail, m', made, k, 0);
    } else {
      NewCallsRecursion(m, colors, trail, m', made, k - |m.functions|);
    }
  }

  lemma SizeOfShape(m: Module, colors: seq<Color>)
    requires Shape(m, colors)
    ensures |m.functions| == 3 + |colors|
  {
    hide HasCaller, StillPassed, IsForwarder, IsCaller;
  }

  lemma NextFunctions(m: Module, colors: seq<Color>, trail: seq<Visit>, m': Module, made: seq<Made>)
    requires Shape(m, colors) && IsRound(m, trail, m', made)
    ensures Functions(m', Colored(colors, made))
  {
    hide Shape, IsRound, IsForwarder, IsCaller;
    FirstFunctionsKept(m, colors, trail, m', made);
    OthersStay(m, colors, trail, m', made);
    ForwardersKept(m, colors, trail, m', made, 1);
    PassTakes(m, colors, trail, m', made, 2, 2);
    PassTakes(m, colors, trail, m', made, 2, 3);
    forall k | 3 <= k < |m'.functions|
      ensures IsForwarder(m'.functions[k]) && IsInst(m', k, 0) && m'.functions[k].code[0].Call?
      ensures Takes(Colored(colors, made), m'.functions[k].code[0].callee, Colored(colors, made)[k - 3])
    {
      ForwardersKept(m, colors, trail, m', made, k);
      CloneTakes(m, colors, trail, m', made, k);
    }
  }

  /** Every clone, old or new, is called by an earlier function. */
  lemma NextHasCaller(m: Module, colors: seq<Color>, trail: seq<Visit>, m': Module, made: seq<Made>, k: nat)
    requires Shape(m, colors) && IsRound(m, trail, m', made) && 3 <= k < |m'.functions|
    ensures HasCaller(m', k)
  {
    hide Functions, StillPassed, Closed, Replay, IsRound, IsNeeded, CloneCalls, CallMoved, Renames, SignatureAt, BuildDispatchSignature, AgreeAt;
    RoundParts(m, trail, m', made);
    if k < |m.functions| {
      assert HasCaller(m, k);
      var g: nat, i: nat :| g < k && CallsAt(m, g, i, k);
      CallsOf(m, colors, g, i, k);
      if g == 1 {
        assert false;
      }
      PassMoves(m, colors, trail, m', made, g, i, k);
    } else {
      hide HasCaller;
      var added := k - |m.functions|;
      ClonesAreOfRecursion(m, colors, trail, made[added]);
      var g: nat, i: nat :| CallsAt(m, g, i, 1) && IsPass(colors, g, i) && PassedColor(colors, g, i) == ColorOf(made[added].signature);
      PassMoves(m, colors, trail, m', made, g, i, 1);
      var other: nat :| other < |made| && ColorOf(made[other].signature) == PassedColor(colors, g, i) && CallsAt(m', g, i, |m.functions| + other);
      ClonesAreOfRecursion(m, colors, trail, made[other]);
      assert made[other] == made[added];
      assert other == added;
      CalledFrom(m', g, i, k);
    }
  }

  lemma CalledFrom(m: Module, g: nat, i: nat, k: nat)
    requires g < k && CallsAt(m, g, i, k)
    ensures HasCaller(m, k)
  {
  }

  lemma NextStillPassed(m: Module, colors: seq<Color>, trail: seq<Visit>, m': Module, made: seq<Made>, color: Color)
    requires Shape(m, colors) && IsRound(m, trail, m', made)
    ensures StillPassed(m', Colored(colors, made), color) && made != []
  {
    assert StillPassed(m, colors, color);
    hide Functions, HasCaller, IsRound;
    var g: nat, i: nat :| CallsAt(m, g, i, 1) && IsPass(colors, g, i) && PassedColor(colors, g, i) == color;
    PassMoves(m, colors, trail, m', made, g, i, 1);
    var k: nat :| k < |made| && ColorOf(made[k].signature) == color && CallsAt(m', g, i, |m.functions| + k);
    NewCallsRecursion(m, colors, trail, m', made, k);
    NewTakes(m, colors, made, k);
  }

  /** A round adds clones and leaves a module of the same shape. */
  lemma RoundKeepsShape(m: Module, colors: seq<Color>, trail: seq<Visit>, m': Module, made: seq<Made>)
    requires Shape(m, colors) && IsRound(m, trail, m', made)
    ensures Shape(m', Colored(colors, made)) && |m'.functions| > |m.functions|
  {
    RoundAddsClones(m, trail, m', made);
    NextFunctions(m, colors, trail, m', made);
    NextStillPassed(m, colors, trail, m', made, OfRaw);
    NextStillPassed(m, colors, trail, m', made, OfObject);
    hide Functions, HasCaller, StillPassed, IsRound;
    forall k: nat | 3 <= k < |m'.functions|
      ensures HasCaller(m', k)
    {
      NextHasCaller(m, colors, trail, m', made, k);
    }
  }

  /** Some analysis of m and the cloning it calls for lead to m'. */
  ghost predicate IsNext(m: Module, m': Module) {
    exists trail, made :: IsRound(m, trail, m', made)
  }

  ghost predicate AreRounds(ms: seq<Module>) {
    forall t :: 0 < t < |ms| ==> IsNext(ms[t - 1], ms[t])
  }

  lemma NextKeepsShape(m: Module, colors: seq<Color>, m': Module) returns (colors': seq<Color>)
    requires Shape(m, colors) && IsNext(m, m')
    ensures Shape(m', colors') && |m'.functions| > |m.functions|
  {
    hide Shape, IsRound;
    var trail, made :| IsRound(m, trail, m', made);
    RoundKeepsShape(m, colors, trail, m', made);
    colors' := Colored(colors, made);
  }

  lemma {:induction false} RoundsKeepShape(ms: seq<Module>, t: nat) returns (colors: seq<Color>)
    requires t < |ms| && ms[0] == Recursive && AreRounds(ms)
    ensures Shape(ms[t], colors)
  {
    hide Shape, IsNext;
    if t == 0 {
      StartsInShape();
      colors := [];
    } else {
      var before := RoundsKeepShape(ms, t - 1);
      colors := NextKeepsShape(ms[t - 1], before, ms[t]);
    }
  }

  /** However many rounds the pass runs on it, the next one makes more clones. */
  lemma RecursionNeverSettles(ms: seq<Module>, t: nat)
    requires 0 < t < |ms| && ms[0] == Recursive && AreRounds(ms)
    ensures |ms[t].functions| > |ms[t - 1].functions|
  {
    hide Shape, IsNext;
    var before := RoundsKeepShape(ms, t - 1);
    var after := NextKeepsShape(ms[t - 1], before, ms[t]);
  }
}
