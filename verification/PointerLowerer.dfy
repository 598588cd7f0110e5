/** The lowering as the compiler runs it: blocks in dominator-tree preorder, values mapped as they
    are rebuilt, phis patched at the end. */
module PointerLowererModule {
  import opened Wrappers
  import opened PointerLowering
  import opened LoweringTypes

  // ----- The order of blocks -----

  datatype DomNode = DomNode(block: nat, children: seq<DomNode>)

  function Flatten(node: DomNode): seq<nat> {
    [node.block] + FlattenAll(node.children)
  }

  function FlattenAll(nodes: seq<DomNode>): seq<nat> {
    if nodes == [] then [] else Flatten(nodes[0]) + FlattenAll(nodes[1..])
  }

  /** The strict dominators of every block are above it in the tree. */
  ghost predicate DominatorsAbove(node: DomNode, above: set<nat>, dominates: set<(nat, nat)>)
    decreases node, 1
  {
    (forall d :: (d, node.block) in dominates ==> d in above)
    && forall k :: 0 <= k < |node.children| ==> DominatorsAbove(node.children[k], above + {node.block}, dominates)
  }

  /** The order lists a block's strict dominators before it. */
  ghost predicate DominatorsFirst(order: seq<nat>, above: set<nat>, dominates: set<(nat, nat)>) {
    forall t, d :: 0 <= t < |order| && (d, order[t]) in dominates ==> d in above || d in order[..t]
  }

  lemma DominatorsFirstConcat(a: seq<nat>, b: seq<nat>, above: set<nat>, dominates: set<(nat, nat)>)
    requires DominatorsFirst(a, above, dominates) && DominatorsFirst(b, above, dominates)
    ensures DominatorsFirst(a + b, above, dominates)
  {
    var c := a + b;
    forall t, d | 0 <= t < |c| && (d, c[t]) in dominates
      ensures d in above || d in c[..t]
    {
      if t < |a| {
        assert c[..t] == a[..t];
      } else {
        assert c[..t] == a + b[..t - |a|];
      }
    }
  }

  /** In preorder every block comes after all its strict dominators. */
  lemma {:induction false} PreorderPutsDominatorsFirst(node: DomNode, above: set<nat>, dominates: set<(nat, nat)>)
    requires DominatorsAbove(node, above, dominates)
    ensures DominatorsFirst(Flatten(node), above, dominates)
    decreases node
  {
    ChildrenPutDominatorsFirst(node.children, above + {node.block}, dominates);
    var rest, all := FlattenAll(node.children), Flatten(node);
    forall t, d | 0 <= t < |all| && (d, all[t]) in dominates
      ensures d in above || d in all[..t]
    {
      if t > 0 {
        assert all[t] == rest[t - 1] && all[..t] == [node.block] + rest[..t - 1];
        assert d in above + {node.block} || d in rest[..t - 1];
      }
    }
  }

  lemma {:induction false} ChildrenPutDominatorsFirst(nodes: seq<DomNode>, above: set<nat>, dominates: set<(nat, nat)>)
    requires forall k :: 0 <= k < |nodes| ==> DominatorsAbove(nodes[k], above, dominates)
    ensures DominatorsFirst(FlattenAll(nodes), above, dominates)
    decreases nodes
  {
    if nodes != [] {
      PreorderPutsDominatorsFirst(nodes[0], above, dominates);
      ChildrenPutDominatorsFirst(nodes[1..], above, dominates);
      DominatorsFirstConcat(Flatten(nodes[0]), FlattenAll(nodes[1..]), above, dominates);
    }
  }

  predicate Distinct(s: seq<nat>) {
    forall i, j :: 0 <= i < j < |s| ==> s[i] != s[j]
  }

  /** The blocks of a list that are not scheduled yet, each once. */
  function Scheduled(order: seq<nat>, blocks: seq<nat>): seq<nat>
    decreases blocks
  {
    if blocks == [] then order
    else Scheduled(if blocks[0] in order then order else order + [blocks[0]], blocks[1..])
  }

  lemma {:induction false} ScheduledConcat(order: seq<nat>, a: seq<nat>, b: seq<nat>)
    ensures Scheduled(order, a + b) == Scheduled(Scheduled(order, a), b)
    decreases a
  {
    if a == [] {
      assert a + b == b;
    } else {
      assert (a + b)[1..] == a[1..] + b;
      ScheduledConcat(if a[0] in order then order else order + [a[0]], a[1..], b);
    }
  }

  lemma DistinctWithOneMore(order: seq<nat>, b: nat)
    requires Distinct(order) && b !in order
    ensures Distinct(order + [b])
  {
  }

  /** Scheduling adds each block that is not there yet, once. */
  lemma {:induction false} ScheduledOnce(order: seq<nat>, blocks: seq<nat>)
    requires Distinct(order)
    ensures Distinct(Scheduled(order, blocks))
    ensures forall x :: x in Scheduled(order, blocks) <==> x in order || x in blocks
    decreases blocks
  {
    hide Distinct;
    if blocks != [] {
      if blocks[0] !in order { DistinctWithOneMore(order, blocks[0]); }
      ScheduledOnce(if blocks[0] in order then order else order + [blocks[0]], blocks[1..]);
    }
  }

  lemma {:induction false} NothingIsScheduledTwice(order: seq<nat>, blocks: seq<nat>)
    requires Distinct(order + blocks)
    ensures Scheduled(order, blocks) == order + blocks
    decreases blocks
  {
    if blocks != [] {
      FirstIsNew(order, blocks);
      hide Distinct;
      assert order + [blocks[0]] + blocks[1..] == order + blocks;
      NothingIsScheduledTwice(order + [blocks[0]], blocks[1..]);
    }
  }

  lemma FirstIsNew(order: seq<nat>, blocks: seq<nat>)
    requires Distinct(order + blocks) && blocks != []
    ensures blocks[0] !in order
  {
    var all := order + blocks;
    forall i | 0 <= i < |order|
      ensures order[i] != blocks[0]
    {
      assert all[i] != all[|order|];
    }
  }

  /** collectDominancePreorder. */
  method CollectDominancePreorder(node: DomNode, order: seq<nat>) returns (order': seq<nat>)
    ensures order' == Scheduled(order, Flatten(node))
    decreases node
  {
    hide Scheduled, FlattenAll;
    order' := if node.block in order then order else order + [node.block];
    ScheduledFirst(order, node.block, FlattenAll(node.children));
    ghost var start := order';
    NothingFlattened(start);
    hide Flatten;
    for k := 0 to |node.children|
      invariant order' == Scheduled(start, FlattenAll(node.children[..k]))
    {
      order' := CollectDominancePreorder(node.children[k], order');
      OneMoreChild(node.children, k, start);
    }
    assert node.children[..|node.children|] == node.children;
  }

  lemma ScheduledFirst(order: seq<nat>, b: nat, rest: seq<nat>)
    ensures Scheduled(order, [b] + rest) == Scheduled(if b in order then order else order + [b], rest)
  {
    assert ([b] + rest)[1..] == rest;
  }

  lemma NothingFlattened(start: seq<nat>)
    ensures Scheduled(start, FlattenAll([])) == start
  {
  }

  lemma OneMoreChild(children: seq<DomNode>, k: nat, start: seq<nat>)
    requires k < |children|
    ensures Scheduled(start, FlattenAll(children[..k + 1])) == Scheduled(Scheduled(start, FlattenAll(children[..k])), Flatten(children[k]))
  {
    hide Scheduled, Flatten, FlattenAll;
    assert children[..k + 1] == children[..k] + [children[k]];
    FlattenAllConcat(children[..k], children[k]);
    ScheduledConcat(start, FlattenAll(children[..k]), Flatten(children[k]));
  }

  lemma {:induction false} FlattenAllConcat(nodes: seq<DomNode>, node: DomNode)
    ensures FlattenAll(nodes + [node]) == FlattenAll(nodes) + Flatten(node)
    decreases |nodes|
  {
    hide Flatten;
    if nodes == [] {
      assert [node][1..] == [] && [] + [node] == [node];
      assert FlattenAll([]) == [];
      assert Flatten(node) + [] == Flatten(node);
    } else {
      assert (nodes + [node])[1..] == nodes[1..] + [node];
      FlattenAllConcat(nodes[1..], node);
    }
  }

  /** The lowering order: reachable blocks in dominator-tree preorder, then the others. */
  method LoweringOrder(root: DomNode, count: nat) returns (order: seq<nat>)
    requires forall b :: b in Flatten(root) ==> b < count
    ensures Distinct(order) && forall b :: b in order <==> 0 <= b < count
    ensures Distinct(Flatten(root)) ==> Flatten(root) <= order
  {
    order := CollectDominancePreorder(root, []);
    ScheduledOnce([], Flatten(root));
    assert [] + Flatten(root) == Flatten(root);
    if Distinct(Flatten(root)) { NothingIsScheduledTwice([], Flatten(root)); }
    hide Flatten, Scheduled, Distinct;
    ghost var reachable := order;
    for b := 0 to count
      invariant Distinct(order) && reachable <= order
      invariant forall x :: x in order <==> x in reachable || 0 <= x < b
    {
      if b !in order {
        DistinctWithOneMore(order, b);
        order := order + [b];
      }
    }
  }

  // ----- Progress -----

  datatype PendingPhi = PendingPhi(b: nat, i: nat, j: nat)

  /** Instruction i of old block b has been lowered to where it belongs; `filled` are the phis that
      have their incoming values. */
  ghost predicate LoweredAt(original: Code, rebuilt: seq<Instr>, b: nat, i: nat, filled: set<(nat, nat)>)
    requires IsInst(original, b, i)
  {
    var j := NewIndex(original[b], i);
    j < |rebuilt| && rebuilt[j].op.Phi? == original[b][i].op.Phi? && SameButSpace(rebuilt[j].ty, original[b][i].ty)
    && Erase(rebuilt[j]) == if (b, i) in filled then Plain(original, original[b][i]) else Blank(Plain(original, original[b][i]))
  }

  ghost predicate BlockSoFar(original: Code, rebuilt: seq<Instr>, b: nat, n: nat, filled: set<(nat, nat)>)
    requires b < |original|
  {
    n <= |original[b]| && |rebuilt| == NewIndex(original[b], n)
    && forall i :: 0 <= i < n && !original[b][i].op.DebugCall? ==> LoweredAt(original, rebuilt, b, i, filled)
  }

  ghost predicate CodeSoFar(original: Code, rebuilt: Code, done: seq<nat>, filled: set<(nat, nat)>) {
    |rebuilt| == |original| == |done| && forall b :: 0 <= b < |original| ==> BlockSoFar(original, rebuilt[b], b, done[b], filled)
  }

  /** An old instruction that has a value and has been passed. */
  predicate HasValue(original: Code, done: seq<nat>, b: nat, i: nat) {
    IsInst(original, b, i) && b < |done| && i < done[b] && !original[b][i].op.DebugCall? && original[b][i].ty != Void
  }

  ghost predicate ValuesSoFar(sig: Signature, original: Code, values: ValueMap, done: seq<nat>) {
    && (forall k :: 0 <= k < |sig.params| ==> Argument(k) in values)
    && (forall b: nat, i: nat :: HasValue(original, done, b, i) ==> Result(b, i) in values)
    && (forall op :: op in values ==> values[op] == Shift(original, op) && IsMappable(sig, original, done, op))
  }

  predicate IsMappable(sig: Signature, original: Code, done: seq<nat>, op: Operand) {
    match op
    case Argument(k) => k < |sig.params|
    case Result(b, i) => HasValue(original, done, b, i)
    case _ => false
  }

  ghost predicate PendingSoFar(original: Code, pending: seq<PendingPhi>, done: seq<nat>) {
    && (forall p :: 0 <= p < |pending| ==> IsPhi(original, done, pending[p].b, pending[p].i) && pending[p].j == NewIndex(original[pending[p].b], pending[p].i))
    && (forall p, q :: 0 <= p < q < |pending| ==> (pending[p].b, pending[p].i) != (pending[q].b, pending[q].i))
    && (forall b: nat, i: nat :: IsPhi(original, done, b, i) ==> PendingPhi(b, i, NewIndex(original[b], i)) in pending)
  }

  predicate IsPhi(original: Code, done: seq<nat>, b: nat, i: nat) {
    IsInst(original, b, i) && b < |done| && i < done[b] && original[b][i].op.Phi?
  }

  lemma SoFarIsContext(c: Context, done: seq<nat>, filled: set<(nat, nat)>)
    requires SameSignature(c.sig, c.newSig) && WellTypedCode(c.sig, c.kinds.functions, c.original)
    requires CodeSoFar(c.original, c.rebuilt, done, filled) && ValuesSoFar(c.sig, c.original, c.values, done)
    ensures ContextOK(c)
  {
    hide WellTypedCode;
    forall op | op in c.values
      ensures SameButSpace(NewType(c, c.values[op]), OldType(c, op))
    {
      if op.Result? {
        assert BlockSoFar(c.original, c.rebuilt[op.b], op.b, done[op.b], filled);
        assert LoweredAt(c.original, c.rebuilt[op.b], op.b, op.i, filled);
      }
    }
    hide CodeSoFar, HasValue;
  }

  lemma {:induction false} NewIndexGrows(block: seq<Instr>, i: nat, n: nat)
    requires i < n <= |block| && !block[i].op.DebugCall?
    ensures NewIndex(block, i) < NewIndex(block, n)
  {
    if i < n - 1 { NewIndexGrows(block, i, n - 1); }
  }

  lemma NewIndexInjective(block: seq<Instr>, i: nat, k: nat)
    requires i < |block| && k < |block| && !block[i].op.DebugCall? && !block[k].op.DebugCall? && NewIndex(block, i) == NewIndex(block, k)
    ensures i == k
  {
    if i < k { NewIndexGrows(block, i, k); }
    if k < i { NewIndexGrows(block, k, i); }
  }

  lemma LoweredBefore(original: Code, rebuilt: seq<Instr>, b: nat, i: nat, instr: Instr)
    requires IsInst(original, b, i) && LoweredAt(original, rebuilt, b, i, {})
    ensures LoweredAt(original, rebuilt + [instr], b, i, {})
  {
    hide Erase, Plain, Blank, NewIndex;
  }

  lemma LoweredNow(original: Code, rebuilt: seq<Instr>, b: nat, n: nat, instr: Instr)
    requires IsInst(original, b, n) && |rebuilt| == NewIndex(original[b], n)
    requires Erase(instr) == Blank(Plain(original, original[b][n])) && SameButSpace(instr.ty, original[b][n].ty)
    requires instr.op.Phi? == original[b][n].op.Phi?
    ensures LoweredAt(original, rebuilt + [instr], b, n, {})
  {
    hide Erase, Plain, Blank, NewIndex;
  }

  lemma NextIndex(block: seq<Instr>, n: nat)
    requires n < |block|
    ensures NewIndex(block, n + 1) == NewIndex(block, n) + if block[n].op.DebugCall? then 0 else 1
  {
  }

  lemma BlockWithOneMore(original: Code, rebuilt: seq<Instr>, b: nat, n: nat, instr: Instr)
    requires b < |original| && BlockSoFar(original, rebuilt, b, n, {}) && n < |original[b]| && !original[b][n].op.DebugCall?
    requires Erase(instr) == Blank(Plain(original, original[b][n])) && SameButSpace(instr.ty, original[b][n].ty)
    requires instr.op.Phi? == original[b][n].op.Phi?
    ensures BlockSoFar(original, rebuilt + [instr], b, n + 1, {})
  {
    hide Erase, Plain, Blank, LoweredAt, NewIndex, SameButSpace;
    LoweredNow(original, rebuilt, b, n, instr);
    NextIndex(original[b], n);
    forall i | 0 <= i < n && !original[b][i].op.DebugCall?
      ensures LoweredAt(original, rebuilt + [instr], b, i, {})
    {
      LoweredBefore(original, rebuilt, b, i, instr);
    }
  }

  lemma BlockWithDebug(original: Code, rebuilt: seq<Instr>, b: nat, n: nat)
    requires b < |original| && BlockSoFar(original, rebuilt, b, n, {}) && n < |original[b]| && original[b][n].op.DebugCall?
    ensures BlockSoFar(original, rebuilt, b, n + 1, {})
  {
    hide LoweredAt;
  }

  lemma ValuesWithOneMore(sig: Signature, original: Code, values: ValueMap, done: seq<nat>, b: nat)
    requires ValuesSoFar(sig, original, values, done) && b < |done| && IsInst(original, b, done[b])
    ensures var i, instr := done[b], original[b][done[b]];
      var values' := if instr.ty != Void && !instr.op.DebugCall? then values[Result(b, i) := Result(b, NewIndex(original[b], i))] else values;
      ValuesSoFar(sig, original, values', done[b := i + 1])
  {
    hide NewIndex;
    var done' := done[b := done[b] + 1];
    assert forall x: nat, y: nat :: HasValue(original, done', x, y) <==>
      HasValue(original, done, x, y) || (x == b && y == done[b] && !original[b][y].op.DebugCall? && original[b][y].ty != Void);
    hide HasValue;
  }

  lemma PhisAfter(original: Code, done: seq<nat>, b: nat)
    requires b < |done| && IsInst(original, b, done[b])
    ensures forall x: nat, y: nat :: IsPhi(original, done[b := done[b] + 1], x, y) <==>
      IsPhi(original, done, x, y) || (x == b && y == done[b] && original[b][done[b]].op.Phi?)
    ensures !IsPhi(original, done, b, done[b])
  {
  }

  lemma PendingWithOneMore(original: Code, pending: seq<PendingPhi>, done: seq<nat>, b: nat)
    requires PendingSoFar(original, pending, done) && b < |done| && IsInst(original, b, done[b])
    ensures original[b][done[b]].op.Phi? ==>
      PendingSoFar(original, pending + [PendingPhi(b, done[b], NewIndex(original[b], done[b]))], done[b := done[b] + 1])
    ensures !original[b][done[b]].op.Phi? ==> PendingSoFar(original, pending, done[b := done[b] + 1])
  {
    hide NewIndex, IsPhi, PendingSoFar;
    PhisAfter(original, done, b);
    if original[b][done[b]].op.Phi? {
      PendingAppended(original, pending, done, done[b := done[b] + 1], PendingPhi(b, done[b], NewIndex(original[b], done[b])));
    } else {
      PendingKept(original, pending, done, done[b := done[b] + 1]);
    }
  }

  lemma PendingKept(original: Code, pending: seq<PendingPhi>, done: seq<nat>, done': seq<nat>)
    requires PendingSoFar(original, pending, done)
    requires forall x: nat, y: nat :: IsPhi(original, done', x, y) <==> IsPhi(original, done, x, y)
    ensures PendingSoFar(original, pending, done')
  {
    hide NewIndex;
  }

  lemma PendingAppended(original: Code, pending: seq<PendingPhi>, done: seq<nat>, done': seq<nat>, one: PendingPhi)
    requires PendingSoFar(original, pending, done) && IsInst(original, one.b, one.i) && one.j == NewIndex(original[one.b], one.i)
    requires forall x: nat, y: nat :: IsPhi(original, done', x, y) <==> IsPhi(original, done, x, y) || (x == one.b && y == one.i)
    requires !IsPhi(original, done, one.b, one.i)
    ensures PendingSoFar(original, pending + [one], done')
  {
    var pending' := pending + [one];
    hide NewIndex;
    assert pending'[|pending|] == one;
    forall x: nat, y: nat | IsPhi(original, done', x, y)
      ensures PendingPhi(x, y, NewIndex(original[x], y)) in pending'
    {
      assert IsPhi(original, done, x, y) ==> PendingPhi(x, y, NewIndex(original[x], y)) in pending;
    }
  }

  lemma CodeWithOneMore(original: Code, rebuilt: Code, done: seq<nat>, b: nat, block: seq<Instr>)
    requires CodeSoFar(original, rebuilt, done, {}) && b < |original| && BlockSoFar(original, block, b, done[b] + 1, {})
    ensures CodeSoFar(original, rebuilt[b := block], done[b := done[b] + 1], {})
  {
    hide BlockSoFar;
  }

  // ----- Valid SSA form -----

  /** A value that exists: a parameter, or an instruction that has a result. */
  predicate Exists(sig: Signature, original: Code, op: Operand) {
    match op
    case Argument(k) => k < |sig.params|
    case Result(b, i) => IsInst(original, b, i) && !original[b][i].op.DebugCall? && original[b][i].ty != Void
    case _ => true
  }

  /** The value is there when instruction i of block b runs. */
  predicate Available(sig: Signature, original: Code, op: Operand, b: nat, i: nat, dominates: set<(nat, nat)>) {
    Exists(sig, original, op) && (op.Result? ==> (op.b == b && op.i < i) || (op.b, b) in dominates)
  }

  /** Operands exist, and outside phis their definitions come first or dominate the use. */
  ghost predicate ValidSSA(sig: Signature, original: Code, dominates: set<(nat, nat)>) {
    forall b: nat, i: nat :: IsInst(original, b, i) ==>
      forall k :: 0 <= k < |original[b][i].operands| ==>
        if original[b][i].op.Phi? then Exists(sig, original, original[b][i].operands[k])
        else Available(sig, original, original[b][i].operands[k], b, i, dominates)
  }

  /** With a block's dominators and its earlier instructions done, its operands are mapped. */
  lemma OperandsAreMapped(sig: Signature, original: Code, values: ValueMap, done: seq<nat>, b: nat, dominates: set<(nat, nat)>)
    requires ValidSSA(sig, original, dominates) && ValuesSoFar(sig, original, values, done) && |done| == |original|
    requires b < |done| && IsInst(original, b, done[b]) && !original[b][done[b]].op.Phi?
    requires forall d :: (d, b) in dominates && d < |done| ==> done[d] == |original[d]|
    ensures forall k :: 0 <= k < |original[b][done[b]].operands| && IsLocal(original[b][done[b]].operands[k]) ==> original[b][done[b]].operands[k] in values
  {
    var i := done[b];
    var ops := original[b][i].operands;
    forall k | 0 <= k < |ops| && IsLocal(ops[k])
      ensures ops[k] in values
    {
      assert Available(sig, original, ops[k], b, i, dominates);
      assert ops[k].Result? ==> HasValue(original, done, ops[k].b, ops[k].i);
    }
  }

  lemma LowerNeedsMissing(c: Context, b: nat, i: nat)
    requires IsInst(c.original, b, i)
    requires forall k :: 0 <= k < |c.original[b][i].operands| && IsLocal(c.original[b][i].operands[k]) ==> c.original[b][i].operands[k] in c.values
    ensures Lower(c, b, i).Err? ==> !Lower(c, b, i).error.CannotRemap?
  {
    RemapNeedsMissing(c.values, c.original[b][i].operands, Expected(c, b, i), b);
    hide MapAll, Expected, IsSupported, TypesAccepted;
  }

  // ----- Phis -----

  /** The incoming values of a phi, mapped to its new type. */
  method MapIncoming(c: Context, instr: Instr, ty: Ty, b: nat) returns (r: Outcome<seq<Operand>>)
    requires ContextOK(c) && (forall k :: 0 <= k < |instr.operands| ==> SameButSpace(ty, OldType(c, instr.operands[k])))
    ensures r.Ok? ==> EraseOperands(r.value) == EraseOperands(ShiftAll(c.original, instr.operands))
    ensures r.Ok? ==> Incoming(c, instr, ty, b, r.value)
    ensures AllLocalIn(c.values, instr.operands) ==> r.Err? ==> !r.error.CannotRemap?
    ensures AllLocalIn(c.values, instr.operands) && ValuesTyped(c) ==> r.Err? ==>
      exists k :: 0 <= k < |instr.operands| && !Fits(c.sig, c.newSig, c.kinds, c.original, instr.operands[k], ty)
  {
    hide ContextOK, EraseOperand, Shift, TypeOf, ValuesTyped, Fits;
    var mapped: seq<Operand> := [];
    for k := 0 to |instr.operands|
      invariant |mapped| == k
      invariant forall j :: 0 <= j < k ==> EraseOperand(mapped[j]) == EraseOperand(Shift(c.original, instr.operands[j]))
      invariant forall j :: 0 <= j < k ==> MapValue(c.values, instr.operands[j], ty, b) == Ok(mapped[j]) && NewType(c, mapped[j]) == ty
    {
      FittingIncoming(c, instr.operands, ty, b, k);
      var incoming := MapValue(c.values, instr.operands[k], ty, b);
      if incoming.Err? {
        return Err(incoming.error);
      }
      if NewType(c, incoming.value) != ty {
        return Err(TypeMismatch(b));
      }
      InPlace(c);
      MappedIsShifted(c.sig, c.original, c.values, instr.operands[k], ty, b);
      mapped := mapped + [incoming.value];
    }
    assert EraseOperands(mapped) == EraseOperands(ShiftAll(c.original, instr.operands));
    return Ok(mapped);
  }

  /** The operands that are values of the function are in the map. */
  predicate AllLocalIn(values: ValueMap, ops: seq<Operand>) {
    forall k :: 0 <= k < |ops| && IsLocal(ops[k]) ==> ops[k] in values
  }

  lemma FittingIncoming(c: Context, ops: seq<Operand>, ty: Ty, b: nat, k: nat)
    requires k < |ops|
    ensures ValuesTyped(c) && AllLocalIn(c.values, ops) && Fits(c.sig, c.newSig, c.kinds, c.original, ops[k], ty) ==>
      MapValue(c.values, ops[k], ty, b).Ok? && NewType(c, MapValue(c.values, ops[k], ty, b).value) == ty
  {
    if ValuesTyped(c) && AllLocalIn(c.values, ops) && Fits(c.sig, c.newSig, c.kinds, c.original, ops[k], ty) {
      FittingMaps(c, ops[k], ty, ty, b);
    }
  }

  lemma InPlace(c: Context)
    requires ContextOK(c)
    ensures MapsInPlace(c.original, c.values)
  {
  }

  lemma PhiFilled(original: Code, rebuilt: seq<Instr>, b: nat, n: nat, filled: set<(nat, nat)>, i: nat, mapped: seq<Operand>)
    requires b < |original| && BlockSoFar(original, rebuilt, b, n, filled) && i < n && original[b][i].op.Phi?
    requires EraseOperands(mapped) == EraseOperands(ShiftAll(original, original[b][i].operands))
    ensures NewIndex(original[b], i) < |rebuilt|
    ensures var j := NewIndex(original[b], i);
      BlockSoFar(original, rebuilt[j := rebuilt[j].(operands := mapped, blocks := original[b][i].blocks)], b, n, filled + {(b, i)})
  {
    var j := NewIndex(original[b], i);
    assert LoweredAt(original, rebuilt, b, i, filled);
    var rebuilt' := rebuilt[j := rebuilt[j].(operands := mapped, blocks := original[b][i].blocks)];
    forall k | 0 <= k < n && !original[b][k].op.DebugCall?
      ensures LoweredAt(original, rebuilt', b, k, filled + {(b, i)})
    {
      assert LoweredAt(original, rebuilt, b, k, filled);
      if k != i && NewIndex(original[b], k) == j { NewIndexInjective(original[b], i, k); }
    }
  }

  lemma CodeWithPhi(original: Code, rebuilt: Code, done: seq<nat>, filled: set<(nat, nat)>, b: nat, i: nat, block: seq<Instr>)
    requires CodeSoFar(original, rebuilt, done, filled) && b < |original| && BlockSoFar(original, block, b, done[b], filled + {(b, i)})
    ensures CodeSoFar(original, rebuilt[b := block], done, filled + {(b, i)})
  {
    hide LoweredAt;
    forall x | 0 <= x < |original| && x != b
      ensures BlockSoFar(original, rebuilt[x], x, done[x], filled + {(b, i)})
    {
      assert BlockSoFar(original, rebuilt[x], x, done[x], filled);
      forall k | 0 <= k < done[x] && !original[x][k].op.DebugCall?
        ensures LoweredAt(original, rebuilt[x], x, k, filled + {(b, i)})
      {
        OtherStaysLowered(original, rebuilt[x], x, k, filled, b, i);
      }
    }
  }

  lemma OtherStaysLowered(original: Code, rebuilt: seq<Instr>, x: nat, k: nat, filled: set<(nat, nat)>, b: nat, i: nat)
    requires IsInst(original, x, k) && x != b && LoweredAt(original, rebuilt, x, k, filled)
    ensures LoweredAt(original, rebuilt, x, k, filled + {(b, i)})
  {
  }

  // ----- The result -----

  function EraseBlock(block: seq<Instr>): (r: seq<Instr>)
    ensures |r| == |block| && forall j :: 0 <= j < |r| ==> r[j] == Erase(block[j])
  {
    seq(|block|, j requires 0 <= j < |block| => Erase(block[j]))
  }

  /** The old block without debug calls, renamed accordingly and without address spaces. */
  function PlainBlock(original: Code, b: nat): seq<Instr>
    requires b < |original|
  {
    Kept(original, original[b], |original[b]|)
  }

  lemma {:induction false} KeptAt(original: Code, b: nat, n: nat, i: nat)
    requires b < |original| && i < n <= |original[b]| && !original[b][i].op.DebugCall?
    ensures NewIndex(original[b], i) < |Kept(original, original[b], n)|
    ensures Kept(original, original[b], n)[NewIndex(original[b], i)] == Plain(original, original[b][i])
  {
    hide Plain;
    NewIndexGrows(original[b], i, n);
    if i < n - 1 { KeptAt(original, b, n - 1, i); NewIndexGrows(original[b], i, n - 1); }
  }

  lemma {:induction false} OldIndexOf(block: seq<Instr>, n: nat, j: nat) returns (i: nat)
    requires n <= |block| && j < NewIndex(block, n)
    ensures i < n && !block[i].op.DebugCall? && NewIndex(block, i) == j
  {
    if j < NewIndex(block, n - 1) {
      i := OldIndexOf(block, n - 1, j);
    } else {
      i := n - 1;
    }
  }

  lemma WholeBlockErases(original: Code, rebuilt: seq<Instr>, b: nat, filled: set<(nat, nat)>)
    requires b < |original| && BlockSoFar(original, rebuilt, b, |original[b]|, filled)
    requires forall i :: 0 <= i < |original[b]| && original[b][i].op.Phi? ==> (b, i) in filled
    ensures EraseBlock(rebuilt) == PlainBlock(original, b)
  {
    var n := |original[b]|;
    var plain := PlainBlock(original, b);
    hide Plain, Erase, Kept, NewIndex;
    forall j | 0 <= j < |rebuilt|
      ensures EraseBlock(rebuilt)[j] == plain[j]
    {
      var i := OldIndexOf(original[b], n, j);
      assert LoweredAt(original, rebuilt, b, i, filled);
      KeptAt(original, b, n, i);
      if !original[b][i].op.Phi? { PhiOrNot(original, b, i); }
    }
  }

  lemma PhiOrNot(original: Code, b: nat, i: nat)
    requires IsInst(original, b, i) && !original[b][i].op.Phi?
    ensures Blank(Plain(original, original[b][i])) == Plain(original, original[b][i])
  {
  }

  // ----- The lowerer -----

  class ManagedPointerLowerer {
    const kinds: Kinds
    var valueMap: ValueMap
    var blocks: Code
    var pendingPhis: seq<PendingPhi>
    ghost var done: seq<nat>
    ghost var filled: set<(nat, nat)>

    constructor (kinds: Kinds)
      ensures this.kinds == kinds
    {
      this.kinds := kinds;
      valueMap, blocks, pendingPhis := map[], [], [];
      done, filled := [], {};
    }

    ghost predicate Valid(sig: Signature, newSig: Signature, original: Code)
      reads this
    {
      && SameSignature(sig, newSig) && WellTypedCode(sig, kinds.functions, original)
      && CodeSoFar(original, blocks, done, filled) && ValuesSoFar(sig, original, valueMap, done) && PendingSoFar(original, pendingPhis, done)
      && Agreement(ContextOf(sig, newSig, original), done, filled) && OpcodesSoFar(kinds, original, blocks, done)
      && CheckedSoFar(ContextOf(sig, newSig, original), done)
    }

    function ContextOf(sig: Signature, newSig: Signature, original: Code): Context
      reads this
    {
      Context(sig, newSig, kinds, original, blocks, valueMap)
    }

    /** Fresh maps and empty blocks. */
    method StartFunction(sig: Signature, newSig: Signature, original: Code)
      requires SameSignature(sig, newSig) && WellTypedCode(sig, kinds.functions, original)
      modifies this
      ensures Valid(sig, newSig, original) && filled == {} && |done| == |original| && forall b :: 0 <= b < |done| ==> done[b] == 0
    {
      hide SameSignature, WellTypedCode, CodeSoFar, ValuesSoFar, PendingSoFar, Agreement, OpcodeByKinds, CheckedAt;
      valueMap := map k: nat | 0 <= k < |sig.params| :: Argument(k) := Argument(k);
      blocks := seq(|original|, _ => []);
      pendingPhis := [];
      done := seq(|original|, _ => 0);
      filled := {};
      NothingLoweredYet(sig, original, valueMap, blocks, done);
      NothingPassedYet(ContextOf(sig, newSig, original), done);
    }

    /** One instruction: lowered, appended to its new block, and mapped if it has a value. */
    method LowerInstruction(sig: Signature, newSig: Signature, original: Code, b: nat, i: nat) returns (error: Option<LoweringError>)
      requires Valid(sig, newSig, original) && filled == {} && IsInst(original, b, i) && b < |done| && done[b] == i
      modifies this
      ensures error.None? ==> Valid(sig, newSig, original) && filled == {} && done == old(done)[b := i + 1]
      ensures error.Some? ==> error.value.b == b && !original[b][i].op.Phi?
      ensures error.Some? && error.value.CannotRemap? ==>
        exists k :: 0 <= k < |original[b][i].operands| && !original[b][i].op.Phi?
                    && IsLocal(original[b][i].operands[k]) && original[b][i].operands[k] !in old(valueMap)
      ensures Coherent(sig, newSig, kinds, original) && AllLocalIn(old(valueMap), original[b][i].operands) ==> error.None?
      ensures error == Some(Unsupported(b)) <==>
        match original[b][i].op
        case DirectCall(f) => f >= |kinds.functions|
        case IndirectCall => CallsOutManaged(old(ContextOf(sig, newSig, original)), b, i)
        case _ => false
    {
      hide SameSignature, WellTypedCode, CodeSoFar, BlockSoFar, ValuesSoFar, PendingSoFar, ContextOK, Lower, Erase, Plain, Blank, NewIndex, Agreement, Coherent,
        WellTyped, AllLocalIn, MapsPassed, OpcodesSoFar, CheckedSoFar, CallsOutManaged;
      ghost var c := ContextOf(sig, newSig, original);
      ghost var done' := done[b := i + 1];
      BlockOf(original, blocks, done, b);
      ValuesWithOneMore(sig, original, valueMap, done, b);
      PendingWithOneMore(original, pendingPhis, done, b);
      if original[b][i].op.DebugCall? {
        BlockWithDebug(original, blocks[b], b, i);
        CodeWithOneMore(original, blocks, done, b, blocks[b]);
        assert blocks[b := blocks[b]] == blocks;
        DebugKeepsAgreement(c, done, b);
        DebugKeepsOpcodes(kinds, original, blocks, done, b);
        DebugKeepsChecked(c, done, b);
        done := done';
        return None;
      }
      SoFarMapsPassed(c, done);
      IsWellTyped(c, b, i);
      CoherentSucceeds(c, done, b, i);
      UnsupportedIff(c, b, i);
      var lowered := Lower(ContextOf(sig, newSig, original), b, i);
      if lowered.Err? {
        ErrorIsHere(c, b, i);
        if lowered.error.CannotRemap? { MissingOperand(c, b, i); }
        return Some(lowered.error);
      }
      SoFarIsContext(c, done, {});
      LoweredErases(c, b, i);
      ghost var j := |blocks[b]|;
      BlockWithOneMore(original, blocks[b], b, i, lowered.value);
      CodeWithOneMore(original, blocks, done, b, blocks[b] + [lowered.value]);
      AppendKeepsAgreement(c, done, b, i);
      AppendKeepsOpcodes(c, done, b, i);
      AgreementPlaces(c, done, {});
      AppendKeepsChecked(c, done, b, i);
      if original[b][i].op.Phi? {
        pendingPhis := pendingPhis + [PendingPhi(b, i, |blocks[b]|)];
      }
      if original[b][i].ty != Void {
        valueMap := valueMap[Result(b, i) := Result(b, |blocks[b]|)];
      }
      blocks := blocks[b := blocks[b] + [lowered.value]];
      done := done';
      return None;
    }

    /** The blocks in the given order; a value that is not there yet can stop it only in a block whose
        dominators the order does not put first. */
    method LowerBlocks(sig: Signature, newSig: Signature, original: Code, order: seq<nat>, ghost reachable: nat, ghost dominates: set<(nat, nat)>)
      returns (error: Option<LoweringError>)
      requires Valid(sig, newSig, original) && filled == {} && Distinct(order) && |done| == |original|
      requires (forall b :: b in order <==> 0 <= b < |original|) && forall b :: 0 <= b < |done| ==> done[b] == 0
      requires reachable <= |order|
      modifies this
      ensures error.None? ==> Valid(sig, newSig, original) && filled == {} && AllDone(original, done)
      ensures error.Some? && error.value.CannotRemap? && ValidSSA(sig, original, dominates) && DominatorsFirst(order[..reachable], {}, dominates) ==>
        exists t :: reachable <= t < |order| && error.value == CannotRemap(order[t])
      ensures error.Some? && Coherent(sig, newSig, kinds, original) && ValidSSA(sig, original, dominates) && DominatorsFirst(order[..reachable], {}, dominates) ==>
        exists t :: reachable <= t < |order| && error.value.b == order[t]
    {
      hide SameSignature, WellTypedCode, CodeSoFar, ValuesSoFar, PendingSoFar, ValidSSA, DominatorsFirst, Agreement, Coherent, OpcodesSoFar, CheckedSoFar;
      assert forall u :: 0 <= u < |order| ==> order[u] in order;
      for t := 0 to |order|
        invariant Valid(sig, newSig, original) && filled == {} && |done| == |original|
        invariant forall u :: 0 <= u < t ==> order[u] < |original| && done[order[u]] == |original[order[u]]|
        invariant forall u :: t <= u < |order| ==> order[u] < |original| && done[order[u]] == 0
      {
        var b := order[t];
        for i := 0 to |original[b]|
          invariant Valid(sig, newSig, original) && filled == {} && |done| == |original| && done[b] == i
          invariant forall u :: 0 <= u < t ==> order[u] < |original| && done[order[u]] == |original[order[u]]|
          invariant forall u :: t < u < |order| ==> order[u] < |original| && done[order[u]] == 0
        {
          ghost var before, values := done, valueMap;
          error := LowerInstruction(sig, newSig, original, b, i);
          if error.Some? {
            ghost var c := ContextOf(sig, newSig, original);
            assert error.value.b == order[t];
            if t < reachable {
              if ValidSSA(sig, original, dominates) && DominatorsFirst(order[..reachable], {}, dominates) {
                DominatorsDone(original, before, order, reachable, t, dominates);
                OperandsAreMapped(sig, original, values, before, b, dominates);
              }
            }
            return error;
          }
        }
      }
      EveryBlockDone(original, done, order);
      return None;
    }

    /** Gives every pending phi its incoming values. */
    method PatchPhis(sig: Signature, newSig: Signature, original: Code, ghost dominates: set<(nat, nat)>) returns (error: Option<LoweringError>)
      requires Valid(sig, newSig, original) && filled == {} && AllDone(original, done)
      modifies this
      ensures error.None? ==> |blocks| == |original| && forall b :: 0 <= b < |original| ==> EraseBlock(blocks[b]) == PlainBlock(original, b)
      ensures ValidSSA(sig, original, dominates) && error.Some? ==> !error.value.CannotRemap? && !Coherent(sig, newSig, kinds, original)
      ensures error.None? ==> (WellSpaced(ContextOf(sig, newSig, original)) <==> Coherent(sig, newSig, kinds, original))
      ensures error.None? ==> OpcodesByKinds(kinds, original, blocks) && AllChecked(ContextOf(sig, newSig, original))
    {
      hide SameSignature, WellTypedCode, CodeSoFar, BlockSoFar, ValuesSoFar, PendingSoFar, ValidSSA, ContextOK, NewIndex, EraseOperands, Agreement, Coherent,
        Incoming, MapsPassed, WellSpaced, Fits, ValuesTyped, OpcodesSoFar, OpcodesByKinds, CheckedSoFar, AllChecked;
      for p := 0 to |pendingPhis|
        invariant Valid(sig, newSig, original) && AllDone(original, done) && pendingPhis == old(pendingPhis)
        invariant filled == FilledUpTo(pendingPhis, p)
      {
        var b, i, j := pendingPhis[p].b, pendingPhis[p].i, pendingPhis[p].j;
        PendingAt(original, blocks, pendingPhis, done, filled, p);
        ghost var c := ContextOf(sig, newSig, original);
        SoFarIsContext(c, done, filled);
        PhiTypes(c, done, filled, b, i);
        SoFarMapsPassed(c, done);
        var mapped := MapIncoming(ContextOf(sig, newSig, original), original[b][i], blocks[b][j].ty, b);
        if mapped.Err? {
          if ValidSSA(sig, original, dominates) {
            IncomingAreMapped(sig, original, valueMap, done, b, i, dominates);
            CoherentPhi(c, done, filled, b, i);
          }
          return Some(mapped.error);
        }
        NotYetFilled(original, pendingPhis, done, p);
        OtherIndexes(original, b, i);
        FillKeepsAgreement(c, done, filled, b, i, mapped.value);
        FillKeepsOpcodes(c, done, b, i, mapped.value);
        AgreementPlaces(c, done, filled);
        IncomingIsPlaced(c, b, i, blocks[b][j].ty, mapped.value);
        FillKeepsChecked(c, done, b, i, mapped.value);
        BlockAt(original, blocks, done, filled, b);
        PhiFilled(original, blocks[b], b, done[b], filled, i, mapped.value);
        ghost var block := blocks[b][j := blocks[b][j].(operands := mapped.value, blocks := original[b][i].blocks)];
        CodeWithPhi(original, blocks, done, filled, b, i, block);
        blocks := blocks[b := blocks[b][j := blocks[b][j].(operands := mapped.value, blocks := original[b][i].blocks)]];
        filled := filled + {(b, i)};
      }
      AllPhisFilled(original, pendingPhis, done);
      AgreementAtEnd(ContextOf(sig, newSig, original), done, filled);
      BlockCount(original, blocks, done, filled);
      OpcodesAtEnd(kinds, original, blocks, done);
      CheckedAtEnd(ContextOf(sig, newSig, original), done);
      forall b | 0 <= b < |original|
        ensures EraseBlock(blocks[b]) == PlainBlock(original, b)
      {
        BlockAt(original, blocks, done, filled, b);
        WholeBlockErases(original, blocks[b], b, filled);
      }
      return None;
    }

    /** rebuildFunction. On success the new function, address spaces erased, is the old one without its
        debug calls: the same blocks, instructions and operands, phis included; and every pointer is in
        the space of its kind, operands fitting, exactly when the kinds agree. In valid SSA form a missing
        value can stop it only in an unreachable block, and when the kinds agree nothing else can. */
    method RebuildFunction(sig: Signature, newSig: Signature, original: Code, root: DomNode, ghost dominates: set<(nat, nat)>)
      returns (r: Outcome<Code>)
      requires SameSignature(sig, newSig) && WellTypedCode(sig, kinds.functions, original)
      requires forall b :: b in Flatten(root) ==> b < |original|
      modifies this
      ensures r.Ok? ==> |r.value| == |original| && forall b :: 0 <= b < |original| ==> EraseBlock(r.value[b]) == PlainBlock(original, b)
      ensures ValidSSA(sig, original, dominates) && Distinct(Flatten(root)) && DominatorsAbove(root, {}, dominates) ==>
        r.Err? && (r.error.CannotRemap? || Coherent(sig, newSig, kinds, original)) ==> r.error.b !in Flatten(root)
      ensures r.Ok? ==> r.value == blocks && (WellSpaced(ContextOf(sig, newSig, original)) <==> Coherent(sig, newSig, kinds, original))
      ensures r.Ok? ==> OpcodesByKinds(kinds, original, r.value) && AllChecked(ContextOf(sig, newSig, original))
      ensures r.Ok? && Coherent(sig, newSig, kinds, original) ==> AllSpacedByKinds(sig, newSig, kinds, original, r.value)
      ensures r.Ok? ==> forall b, i, d, n :: StoresTo(sig, kinds, original, b, i, d, n) ==>
        StoreFitsVariable(newSig, original, r.value, b, i, d, n)
    {
      hide SameSignature, WellTypedCode, CodeSoFar, ValuesSoFar, PendingSoFar, ValidSSA, AllDone, EraseBlock, PlainBlock, Distinct, Flatten, Agreement,
        Coherent, WellSpaced, OpcodesSoFar, OpcodesByKinds, CheckedSoFar, AllChecked, AllSpacedByKinds, StoresTo, StoreFitsVariable;
      StartFunction(sig, newSig, original);
      var order := LoweringOrder(root, |original|);
      ghost var reachable := if Distinct(Flatten(root)) then |Flatten(root)| else 0;
      if Distinct(Flatten(root)) && DominatorsAbove(root, {}, dominates) {
        PreorderPutsDominatorsFirst(root, {}, dominates);
        assert order[..reachable] == Flatten(root);
      }
      var error := LowerBlocks(sig, newSig, original, order, reachable, dominates);
      if error.Some? {
        LaterBlocksAreOthers(order, reachable);
        return Err(error.value);
      }
      error := PatchPhis(sig, newSig, original, dominates);
      if error.Some? {
        return Err(error.value);
      }
      if Coherent(sig, newSig, kinds, original) {
        WellSpacedByKinds(ContextOf(sig, newSig, original));
      }
      StoresFit(ContextOf(sig, newSig, original));
      return Ok(blocks);
    }
  }

  lemma SoFarMapsPassed(c: Context, done: seq<nat>)
    requires SameSignature(c.sig, c.newSig) && ValuesSoFar(c.sig, c.original, c.values, done)
    ensures MapsPassed(c, done)
  {
    hide NewIndex;
  }

  lemma AgreementPlaces(c: Context, done: seq<nat>, filled: set<(nat, nat)>)
    requires Agreement(c, done, filled)
    ensures AllPlaced(c)
  {
  }

  lemma IsWellTyped(c: Context, b: nat, i: nat)
    requires WellTypedCode(c.sig, c.kinds.functions, c.original) && IsInst(c.original, b, i)
    ensures WellTyped(c.sig, c.kinds.functions, c.original, c.original[b][i])
  {
  }

  lemma NothingPassedYet(c: Context, done: seq<nat>)
    requires |done| == |c.rebuilt| && forall b :: 0 <= b < |done| ==> done[b] == 0 && c.rebuilt[b] == []
    requires c.values == (map k: nat | 0 <= k < |c.sig.params| :: Argument(k) := Argument(k))
    ensures Agreement(c, done, {})
  {
    hide TypedAt, CoherentSoFar;
  }

  lemma DebugKeepsAgreement(c: Context, done: seq<nat>, b: nat)
    requires Agreement(c, done, {}) && b < |done| && IsInst(c.original, b, done[b]) && c.original[b][done[b]].op.DebugCall?
    ensures Agreement(c, done[b := done[b] + 1], {})
  {
    assert forall x: nat, y: nat :: Passed(c.original, done[b := done[b] + 1], x, y) <==> Passed(c.original, done, x, y);
    hide Passed, TypedAt, CoherentSoFar, AllPlaced;
  }

  lemma CoherentSoFarTyped(c: Context, done: seq<nat>, filled: set<(nat, nat)>)
    requires Agreement(c, done, filled) && MapsPassed(c, done) && Coherent(c.sig, c.newSig, c.kinds, c.original)
    ensures AllTyped(c, done, filled) && ValuesTyped(c)
  {
    assert AllCoherent(c, done, filled) by { hide CoherentAt; }
    hide AllTyped, MapsPassed, AllCoherent, Coherent;
    TypedValues(c, done, filled);
  }

  lemma CoherentSucceeds(c: Context, done: seq<nat>, b: nat, i: nat)
    requires Agreement(c, done, {}) && MapsPassed(c, done) && IsInst(c.original, b, i) && !c.original[b][i].op.DebugCall?
    requires WellTyped(c.sig, c.kinds.functions, c.original, c.original[b][i])
    ensures Coherent(c.sig, c.newSig, c.kinds, c.original) && AllLocalIn(c.values, c.original[b][i].operands) ==> Lower(c, b, i).Ok?
  {
    if Coherent(c.sig, c.newSig, c.kinds, c.original) && AllLocalIn(c.values, c.original[b][i].operands) && !c.original[b][i].op.Phi? {
      CoherentSoFarTyped(c, done, {});
      hide CoherentAt, ValuesTyped, WellTyped, Agreement, MapsPassed, Lower;
      CoherentLowers(c, b, i);
    }
  }

  /** The incoming values of a phi fit when the kinds agree and the phi has its declared type. */
  lemma CoherentPhi(c: Context, done: seq<nat>, filled: set<(nat, nat)>, b: nat, i: nat)
    requires Agreement(c, done, filled) && MapsPassed(c, done) && Passed(c.original, done, b, i) && c.original[b][i].op.Phi?
    ensures Coherent(c.sig, c.newSig, c.kinds, c.original) ==>
      ValuesTyped(c) && IsInst(c.rebuilt, b, NewIndex(c.original[b], i))
      && forall k :: 0 <= k < |c.original[b][i].operands| ==>
           Fits(c.sig, c.newSig, c.kinds, c.original, c.original[b][i].operands[k], c.rebuilt[b][NewIndex(c.original[b], i)].ty)
  {
    hide NewIndex, Fits, OperandsTyped;
    if Coherent(c.sig, c.newSig, c.kinds, c.original) {
      CoherentSoFarTyped(c, done, filled);
      assert TypedAt(c, b, i, filled) && CoherentAt(c.sig, c.newSig, c.kinds, c.original, b, i);
      hide AllTyped, ValuesTyped, Agreement, MapsPassed, Coherent;
    }
  }

  lemma OtherIndexes(original: Code, b: nat, i: nat)
    requires IsInst(original, b, i) && !original[b][i].op.DebugCall?
    ensures forall y :: 0 <= y < |original[b]| && y != i && !original[b][y].op.DebugCall? ==> NewIndex(original[b], y) != NewIndex(original[b], i)
  {
    forall y | 0 <= y < |original[b]| && y != i && !original[b][y].op.DebugCall?
      ensures NewIndex(original[b], y) != NewIndex(original[b], i)
    {
      if NewIndex(original[b], y) == NewIndex(original[b], i) { NewIndexInjective(original[b], i, y); }
    }
  }

  lemma {:induction false} FilledComeFrom(pending: seq<PendingPhi>, n: nat, b: nat, i: nat)
    requires n <= |pending| && (b, i) in FilledUpTo(pending, n)
    ensures exists p :: 0 <= p < n && pending[p].b == b && pending[p].i == i
  {
    if (b, i) in FilledUpTo(pending, n - 1) { FilledComeFrom(pending, n - 1, b, i); }
  }

  lemma NotYetFilled(original: Code, pending: seq<PendingPhi>, done: seq<nat>, p: nat)
    requires PendingSoFar(original, pending, done) && p < |pending|
    ensures (pending[p].b, pending[p].i) !in FilledUpTo(pending, p)
  {
    hide NewIndex;
    if (pending[p].b, pending[p].i) in FilledUpTo(pending, p) {
      FilledComeFrom(pending, p, pending[p].b, pending[p].i);
    }
  }

  lemma LaterBlocksAreOthers(order: seq<nat>, reachable: nat)
    requires Distinct(order) && reachable <= |order|
    ensures forall t :: reachable <= t < |order| ==> order[t] !in order[..reachable]
  {
  }

  function FilledUpTo(pending: seq<PendingPhi>, n: nat): set<(nat, nat)>
    requires n <= |pending|
  {
    if n == 0 then {} else FilledUpTo(pending, n - 1) + {(pending[n - 1].b, pending[n - 1].i)}
  }

  lemma {:induction false} FilledMembers(pending: seq<PendingPhi>, n: nat, p: nat)
    requires p < n <= |pending|
    ensures (pending[p].b, pending[p].i) in FilledUpTo(pending, n)
  {
    if p < n - 1 { FilledMembers(pending, n - 1, p); }
  }

  lemma AllPhisFilled(original: Code, pending: seq<PendingPhi>, done: seq<nat>)
    requires PendingSoFar(original, pending, done) && AllDone(original, done)
    ensures forall b: nat, i: nat :: IsInst(original, b, i) && original[b][i].op.Phi? ==> (b, i) in FilledUpTo(pending, |pending|)
  {
    hide NewIndex;
    forall b: nat, i: nat | IsInst(original, b, i) && original[b][i].op.Phi?
      ensures (b, i) in FilledUpTo(pending, |pending|)
    {
      assert IsPhi(original, done, b, i);
      var p :| 0 <= p < |pending| && pending[p] == PendingPhi(b, i, NewIndex(original[b], i));
      FilledMembers(pending, |pending|, p);
    }
  }

  lemma PendingAt(original: Code, blocks: Code, pending: seq<PendingPhi>, done: seq<nat>, filled: set<(nat, nat)>, p: nat)
    requires PendingSoFar(original, pending, done) && CodeSoFar(original, blocks, done, filled) && p < |pending|
    ensures var b, i, j := pending[p].b, pending[p].i, pending[p].j;
      && IsInst(original, b, i) && original[b][i].op.Phi? && b < |done| && i < done[b] && b < |blocks| && j < |blocks[b]| && j == NewIndex(original[b], i)
      && SameButSpace(blocks[b][j].ty, original[b][i].ty)
  {
    var b, i := pending[p].b, pending[p].i;
    assert IsPhi(original, done, b, i);
    assert BlockSoFar(original, blocks[b], b, done[b], filled);
    assert LoweredAt(original, blocks[b], b, i, filled);
  }

  lemma BlockAt(original: Code, blocks: Code, done: seq<nat>, filled: set<(nat, nat)>, b: nat)
    requires CodeSoFar(original, blocks, done, filled) && b < |original|
    ensures b < |done| == |blocks| && BlockSoFar(original, blocks[b], b, done[b], filled)
  {
  }

  lemma BlockCount(original: Code, blocks: Code, done: seq<nat>, filled: set<(nat, nat)>)
    requires CodeSoFar(original, blocks, done, filled)
    ensures |blocks| == |original|
  {
  }

  lemma PhiTypes(c: Context, done: seq<nat>, filled: set<(nat, nat)>, b: nat, i: nat)
    requires ContextOK(c) && CodeSoFar(c.original, c.rebuilt, done, filled) && IsInst(c.original, b, i) && c.original[b][i].op.Phi?
    requires NewIndex(c.original[b], i) < |c.rebuilt[b]| && SameButSpace(c.rebuilt[b][NewIndex(c.original[b], i)].ty, c.original[b][i].ty)
    ensures forall k :: 0 <= k < |c.original[b][i].operands| ==>
      SameButSpace(c.rebuilt[b][NewIndex(c.original[b], i)].ty, OldType(c, c.original[b][i].operands[k]))
  {
    assert WellTyped(c.sig, c.kinds.functions, c.original, c.original[b][i]);
    hide WellTypedCode, CodeSoFar, NewIndex, MapsInPlace, TypeOf;
  }

  lemma IncomingAreMapped(sig: Signature, original: Code, values: ValueMap, done: seq<nat>, b: nat, i: nat, dominates: set<(nat, nat)>)
    requires ValidSSA(sig, original, dominates) && ValuesSoFar(sig, original, values, done) && AllDone(original, done)
    requires IsInst(original, b, i) && original[b][i].op.Phi?
    ensures forall k :: 0 <= k < |original[b][i].operands| && IsLocal(original[b][i].operands[k]) ==> original[b][i].operands[k] in values
  {
    var ops := original[b][i].operands;
    forall k | 0 <= k < |ops| && IsLocal(ops[k])
      ensures ops[k] in values
    {
      assert Exists(sig, original, ops[k]);
      assert ops[k].Result? ==> HasValue(original, done, ops[k].b, ops[k].i);
    }
  }

  lemma EveryBlockDone(original: Code, done: seq<nat>, order: seq<nat>)
    requires |done| == |original| && forall b :: b in order <==> 0 <= b < |original|
    requires forall u :: 0 <= u < |order| ==> order[u] < |original| && done[order[u]] == |original[order[u]]|
    ensures AllDone(original, done)
  {
    forall b | 0 <= b < |done|
      ensures done[b] == |original[b]|
    {
      assert b in order;
      var u :| 0 <= u < |order| && order[u] == b;
    }
  }

  lemma ErrorIsHere(c: Context, b: nat, i: nat)
    requires IsInst(c.original, b, i) && Lower(c, b, i).Err?
    ensures Lower(c, b, i).error.b == b && !c.original[b][i].op.Phi?
  {
    MapErrorIsHere(c.values, c.original[b][i].operands, Expected(c, b, i), b);
    hide MapAll, Expected, IsSupported, TypesAccepted;
  }

  lemma {:induction false} MapErrorIsHere(values: ValueMap, ops: seq<Operand>, expected: seq<Ty>, b: nat)
    requires |ops| == |expected|
    ensures MapAll(values, ops, expected, b).Err? ==> MapAll(values, ops, expected, b).error.b == b
  {
    if ops != [] { MapErrorIsHere(values, ops[..|ops| - 1], expected[..|ops| - 1], b); }
  }

  ghost predicate AllDone(original: Code, done: seq<nat>) {
    |done| == |original| && forall b :: 0 <= b < |done| ==> done[b] == |original[b]|
  }

  lemma BlockOf(original: Code, blocks: Code, done: seq<nat>, b: nat)
    requires CodeSoFar(original, blocks, done, {}) && b < |done|
    ensures b < |original| == |blocks| && BlockSoFar(original, blocks[b], b, done[b], {}) && |blocks[b]| == NewIndex(original[b], done[b])
  {
  }

  lemma NothingLoweredYet(sig: Signature, original: Code, values: ValueMap, blocks: Code, done: seq<nat>)
    requires values == (map k: nat | 0 <= k < |sig.params| :: Argument(k) := Argument(k))
    requires |blocks| == |done| == |original| && forall b :: 0 <= b < |original| ==> blocks[b] == [] && done[b] == 0
    ensures CodeSoFar(original, blocks, done, {}) && ValuesSoFar(sig, original, values, done) && PendingSoFar(original, [], done)
  {
  }

  lemma MissingOperand(c: Context, b: nat, i: nat)
    requires IsInst(c.original, b, i) && Lower(c, b, i).Err? && Lower(c, b, i).error.CannotRemap?
    ensures exists k :: 0 <= k < |c.original[b][i].operands| && !c.original[b][i].op.Phi?
                        && IsLocal(c.original[b][i].operands[k]) && c.original[b][i].operands[k] !in c.values
  {
    var ops := c.original[b][i].operands;
    if forall k :: 0 <= k < |ops| && IsLocal(ops[k]) ==> ops[k] in c.values {
      LowerNeedsMissing(c, b, i);
    }
  }

  lemma FirstAt(order: seq<nat>, dominates: set<(nat, nat)>, t: nat, d: nat)
    requires DominatorsFirst(order, {}, dominates) && t < |order| && (d, order[t]) in dominates
    ensures d in order[..t]
  {
    var above: set<nat> := {};
    assert d in above || d in order[..t];
  }

  lemma DominatorsDone(original: Code, done: seq<nat>, order: seq<nat>, reachable: nat, t: nat, dominates: set<(nat, nat)>)
    requires |done| == |original| && t < reachable <= |order| && DominatorsFirst(order[..reachable], {}, dominates)
    requires forall u :: 0 <= u < t ==> order[u] < |original| && done[order[u]] == |original[order[u]]|
    ensures forall d :: (d, order[t]) in dominates && d < |done| ==> done[d] == |original[d]|
  {
    forall d | (d, order[t]) in dominates && d < |done|
      ensures done[d] == |original[d]|
    {
      var prefix := order[..reachable];
      assert prefix[t] == order[t] && prefix[..t] == order[..t];
      FirstAt(prefix, dominates, t, d);
      var u :| 0 <= u < t && order[u] == d;
    }
  }
}
