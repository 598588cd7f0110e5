/** Functions as the garbage-collection passes see them: blocks, direct calls, and the loop
    structure that dominator analysis supplies. */
module ControlFlow {

  /** What the passes recognise a function by. */
  datatype Name = PollName | RequestName | AllocationName | ArrayLengthName | OtherName

  /** `id` is the argument of a call of the poll function. */
  datatype Instr = DirectCall(callee: nat, id: nat) | OtherCall | Plain

  datatype Block = Block(code: seq<Instr>, successors: seq<nat>)

  /** `latches` are the blocks the loop analysis reports as sources of back edges. */
  datatype Function = Function(
    name: Name, isDeclaration: bool, isIntrinsic: bool, gcLeaf: bool, gc: bool, blocks: seq<Block>, latches: set<nat>)

  predicate IsBlock(f: Function, b: nat) {
    b < |f.blocks|
  }

  predicate Edge(f: Function, a: nat, b: nat) {
    IsBlock(f, a) && IsBlock(f, b) && b in f.blocks[a].successors
  }

  /** A block that control leaves the function from. */
  ghost predicate IsExit(f: Function, b: nat) {
    forall c: nat :: !Edge(f, b, c)
  }

  /** A path along edges. */
  ghost predicate Path(f: Function, path: seq<nat>) {
    path != [] && (forall i :: 0 <= i < |path| ==> IsBlock(f, path[i])) && forall i :: 0 <= i < |path| - 1 ==> Edge(f, path[i], path[i + 1])
  }

  ghost predicate ReachableBlock(f: Function, b: nat) {
    exists path :: Path(f, path) && path[0] == 0 && path[|path| - 1] == b
  }

  ghost predicate Dominates(f: Function, a: nat, b: nat) {
    forall path :: Path(f, path) && path[0] == 0 && path[|path| - 1] == b ==> a in path
  }

  ghost predicate BackEdge(f: Function, a: nat, b: nat) {
    ReachableBlock(f, a) && Edge(f, a, b) && Dominates(f, b, a)
  }

  /** The loop analysis is right: the latches are the sources of the back edges. */
  ghost predicate LoopsKnown(f: Function) {
    forall a: nat :: a in f.latches <==> exists b: nat :: BackEdge(f, a, b)
  }

  /** Without its back edges the reachable graph has no cycle: blocks can be numbered upwards along
      every other edge. */
  ghost predicate Reducible(f: Function, order: seq<nat>) {
    && |order| == |f.blocks| && (forall b :: 0 <= b < |order| ==> order[b] < |f.blocks|)
    && forall a: nat, b: nat :: ReachableBlock(f, a) && Edge(f, a, b) && !BackEdge(f, a, b) ==> order[a] < order[b]
  }

  lemma ReachableNext(f: Function, a: nat, b: nat)
    requires ReachableBlock(f, a) && Edge(f, a, b)
    ensures ReachableBlock(f, b)
  {
    var path :| Path(f, path) && path[0] == 0 && path[|path| - 1] == a;
    var longer := path + [b];
    forall i | 0 <= i < |longer| - 1
      ensures Edge(f, longer[i], longer[i + 1])
    {
      assert i < |path| - 1 ==> Edge(f, path[i], path[i + 1]);
    }
    assert Path(f, longer);
  }

  /** Only the block lists and latches matter to the graph. */
  lemma SameGraph(f: Function, g: Function)
    requires |f.blocks| == |g.blocks| && forall b :: 0 <= b < |f.blocks| ==> f.blocks[b].successors == g.blocks[b].successors
    ensures forall path :: Path(f, path) <==> Path(g, path)
    ensures forall a: nat, b: nat :: BackEdge(f, a, b) <==> BackEdge(g, a, b)
    ensures forall a: nat :: ReachableBlock(f, a) <==> ReachableBlock(g, a)
  {
    assert forall a: nat, b: nat :: Edge(f, a, b) <==> Edge(g, a, b);
    forall path
      ensures Path(f, path) <==> Path(g, path)
    {
    }
    hide Path, Edge;
    forall a: nat
      ensures ReachableBlock(f, a) <==> ReachableBlock(g, a)
    {
      if ReachableBlock(f, a) {
        var path :| Path(f, path) && path[0] == 0 && path[|path| - 1] == a;
        assert Path(g, path);
      }
      if ReachableBlock(g, a) {
        var path :| Path(g, path) && path[0] == 0 && path[|path| - 1] == a;
        assert Path(f, path);
      }
    }
    forall a: nat, b: nat
      ensures Dominates(f, a, b) <==> Dominates(g, a, b)
    {
    }
  }

  // ----- Paths that avoid the latches -----

  /** Along a path that leaves no latch the block numbers go up. */
  lemma {:induction false} OrderGoesUp(f: Function, order: seq<nat>, path: seq<nat>, i: nat, j: nat)
    requires LoopsKnown(f) && Reducible(f, order) && Path(f, path) && ReachableBlock(f, path[0])
    requires forall k :: 0 <= k < |path| - 1 ==> path[k] !in f.latches
    requires i < j < |path|
    ensures order[path[i]] < order[path[j]]
    decreases j
  {
    ReachableAlong(f, path, j - 1);
    assert Edge(f, path[j - 1], path[j - 1 + 1]);
    assert !BackEdge(f, path[j - 1], path[j]);
    if i < j - 1 {
      OrderGoesUp(f, order, path, i, j - 1);
    }
  }

  lemma {:induction false} ReachableAlong(f: Function, path: seq<nat>, i: nat)
    requires Path(f, path) && ReachableBlock(f, path[0]) && i < |path|
    ensures ReachableBlock(f, path[i])
  {
    if i != 0 {
      ReachableAlong(f, path, i - 1);
      assert Edge(f, path[i - 1], path[i - 1 + 1]);
      ReachableNext(f, path[i - 1], path[i]);
    }
  }

  /** So it visits no block twice, and is no longer than the function. */
  lemma {:induction false} OrderBoundsLength(f: Function, order: seq<nat>, path: seq<nat>, n: nat)
    requires LoopsKnown(f) && Reducible(f, order) && Path(f, path) && ReachableBlock(f, path[0]) && n < |path|
    requires forall k :: 0 <= k < |path| - 1 ==> path[k] !in f.latches
    ensures order[path[n]] >= n
  {
    if n != 0 {
      OrderBoundsLength(f, order, path, n - 1);
      OrderGoesUp(f, order, path, n - 1, n);
    }
  }

  lemma LatchFreePathIsShort(f: Function, order: seq<nat>, path: seq<nat>)
    requires LoopsKnown(f) && Reducible(f, order) && Path(f, path) && ReachableBlock(f, path[0])
    requires forall k :: 0 <= k < |path| - 1 ==> path[k] !in f.latches
    ensures |path| <= |f.blocks|
    ensures forall i, j :: 0 <= i < j < |path| ==> path[i] != path[j]
  {
    OrderBoundsLength(f, order, path, |path| - 1);
    forall i, j | 0 <= i < j < |path|
      ensures path[i] != path[j]
    {
      OrderGoesUp(f, order, path, i, j);
    }
  }
}
