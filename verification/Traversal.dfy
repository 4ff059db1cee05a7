/**
 In which order a round executes nodes: depth first it goes on with the child on the side
 the user names, breadth first through all nodes in the order they were found.
 */
module Traversal {
  import opened Wrappers
  import opened Program
  import opened Symbolic
  import opened Exploration
  import opened Scheduler

  /** A node's two children in the queue: depth first in front, the named side first;
      breadth first behind, where the named side comes last. */
  lemma ChildrenAreQueued(mode: Mode, queue: seq<nat>, t: TreeNode, l: nat, r: nat)
    requires t.left == Some(l) && t.right == Some(r)
    ensures PushChildren(mode, queue, t)
         == if mode.bfs then (if mode.dir then queue + [r, l] else queue + [l, r])
            else (if mode.dir then [l, r] + queue else [r, l] + queue)
  {
  }

  /** A round that starts below a node starts on the named side, whatever its order. */
  lemma ChildrenStart(mode: Mode, x: Exploration, id: nat, l: nat, r: nat)
    requires id < |x.nodes| && x.nodes[id].left == Some(l) && x.nodes[id].right == Some(r)
    ensures Start(x, mode, Some(id)) == if mode.dir then [l, r] else [r, l]
  {
  }

  function ToSeq(link: Option<nat>): seq<nat> {
    if link.Some? then [link.value] else []
  }

  /** The children, those on the named side first. */
  function Kids(dir: bool, t: TreeNode): seq<nat> {
    if dir then ToSeq(t.left) + ToSeq(t.right) else ToSeq(t.right) + ToSeq(t.left)
  }

  lemma QueueOf(mode: Mode, queue: seq<nat>, t: TreeNode)
    ensures PushChildren(mode, queue, t) == if mode.bfs then queue + Kids(!mode.dir, t) else Kids(mode.dir, t) + queue
  {
  }

  lemma StartOf(mode: Mode, x: Exploration, id: nat)
    requires id < |x.nodes|
    ensures Start(x, mode, Some(id)) == Kids(mode.dir, x.nodes[id])
  {
  }

  /** The first of these nodes whose block is not excluded. */
  function FirstAllowed(excluded: set<BlockId>, x: Exploration, ids: seq<nat>): (r: Option<nat>)
    ensures r.Some? ==> r.value in ids && r.value < |x.nodes| && x.nodes[r.value].node.block !in excluded
  {
    if ids == [] then None
    else if ids[0] < |x.nodes| && x.nodes[ids[0]].node.block !in excluded then Some(ids[0])
    else FirstAllowed(excluded, x, ids[1..])
  }

  // ----- Depth first -----

  /** After a node comes its child on the named side, or the other one where that side is
      excluded or there is none. */
  ghost predicate GoesDown(dir: bool, excluded: set<BlockId>, x: Exploration, run: seq<nat>) {
    forall k :: 0 <= k < |run| - 1 && run[k] < |x.nodes| ==>
      var next := FirstAllowed(excluded, x, Kids(dir, x.nodes[run[k]]));
      next.Some? ==> run[k + 1] == next.value
  }

  lemma {:induction false} FirstAllowedStays(excluded: set<BlockId>, x: Exploration, y: Exploration, ids: seq<nat>)
    requires Grows(x, y) && InTree(x, ids)
    ensures FirstAllowed(excluded, y, ids) == FirstAllowed(excluded, x, ids)
  {
    if ids != [] {
      FirstAllowedStays(excluded, x, y, ids[1..]);
    }
  }

  /** A round executes the first pending node of its queue first, if all before it are
      excluded. */
  lemma {:induction false} FrontRuns(p: Program, exec: Executor, mode: Mode, w: Work, front: seq<nat>, rest: seq<nat>)
    requires Steady(p, exec) && ValidWork(p, w) && w.queue == front + rest
    requires var next := FirstAllowed(mode.excluded, w.tree, front); next.Some? && !w.tree.nodes[next.value].executed
    ensures var run := Round(p, exec, mode, w).tree.log;
            |run| >= |w.tree.log| && (|run| > |w.tree.log| ==> run[|w.tree.log|] == FirstAllowed(mode.excluded, w.tree, front).value)
    decreases |front|
  {
    hide QueueWeight, Round;
    RoundFacts(p, exec, mode, w);
    if w.steps > 0 {
      var next := FirstTurn(p, exec, mode, w, 0);
      if Excluded(mode, w.tree, w.queue[0]) {
        assert next.queue == front[1..] + rest;
        FrontRuns(p, exec, mode, next, front[1..], rest);
      } else {
        RoundFacts(p, exec, mode, next);
        assert next.tree.log == w.tree.log + [front[0]];
        var run := Round(p, exec, mode, next).tree.log;
        assert run[..|next.tree.log|][|w.tree.log|] == front[0];
      }
    } else {
      RoundStops(p, exec, mode, w);
    }
  }

  /** A node's new children are the front of a depth-first queue, and the first allowed one
      runs next. */
  lemma ChildRuns(p: Program, exec: Executor, mode: Mode, w: Work, next: Work)
    requires Steady(p, exec) && ValidWork(p, next) && !mode.bfs && TurnsTo(mode, w, next)
    requires !Excluded(mode, w.tree, w.queue[0]) && !w.tree.nodes[w.queue[0]].executed
    ensures var id, base, run := w.queue[0], |next.tree.log|, Round(p, exec, mode, next).tree.log;
            var child := FirstAllowed(mode.excluded, next.tree, Kids(mode.dir, next.tree.nodes[id]));
            |run| >= base && (|run| > base && child.Some? ==> run[base] == child.value)
  {
    hide QueueWeight, Round;
    var id := w.queue[0];
    QueueOf(mode, w.queue[1..], next.tree.nodes[id]);
    RoundFacts(p, exec, mode, next);
    var kids := Kids(mode.dir, next.tree.nodes[id]);
    if FirstAllowed(mode.excluded, next.tree, kids).Some? {
      FrontRuns(p, exec, mode, next, kids, w.queue[1..]);
    }
  }

  lemma KidsInTree(p: Program, x: Exploration, dir: bool, id: nat)
    requires ValidTree(p, x) && id < |x.nodes|
    ensures InTree(x, Kids(dir, x.nodes[id]))
  {
    assert NodeValid(p, x, id);
  }

  /** A depth-first round always goes on below the node it has just executed, on the named
      side. */
  lemma {:induction false} DepthFirstGoesDown(p: Program, exec: Executor, mode: Mode, w: Work)
    requires Steady(p, exec) && ValidWork(p, w) && !mode.bfs
    ensures var r := Round(p, exec, mode, w);
            |w.tree.log| <= |r.tree.log| && GoesDown(mode.dir, mode.excluded, r.tree, NewlyExecuted(w.tree, r.tree))
    decreases w.steps, QueueWeight(p, w.tree, w.queue)
  {
    hide QueueWeight, Round, Kids, FirstAllowed, PushChildren;
    RoundFacts(p, exec, mode, w);
    if w.steps == 0 || w.queue == [] {
      RoundStops(p, exec, mode, w);
    } else {
      var next := FirstTurn(p, exec, mode, w, 0);
      DepthFirstGoesDown(p, exec, mode, next);
      RoundFacts(p, exec, mode, next);
      if !Excluded(mode, w.tree, w.queue[0]) && !w.tree.nodes[w.queue[0]].executed {
        ChildRuns(p, exec, mode, w, next);
        KidsInTree(p, next.tree, mode.dir, w.queue[0]);
        OneMoreGoesDown(mode, w, next, Round(p, exec, mode, next).tree);
      }
    }
  }

  lemma OneMoreGoesDown(mode: Mode, w: Work, next: Work, z: Exploration)
    requires TurnsTo(mode, w, next) && Grows(next.tree, z)
    requires !Excluded(mode, w.tree, w.queue[0]) && !w.tree.nodes[w.queue[0]].executed
    requires GoesDown(mode.dir, mode.excluded, z, NewlyExecuted(next.tree, z))
    requires var base := |next.tree.log|;
             var child := FirstAllowed(mode.excluded, next.tree, Kids(mode.dir, next.tree.nodes[w.queue[0]]));
             |z.log| > base && child.Some? ==> z.log[base] == child.value
    requires InTree(next.tree, Kids(mode.dir, next.tree.nodes[w.queue[0]]))
    ensures |w.tree.log| <= |z.log| && GoesDown(mode.dir, mode.excluded, z, NewlyExecuted(w.tree, z))
  {
    hide Kids, FirstAllowed, PushChildren;
    var id := w.queue[0];
    var run, rest := NewlyExecuted(w.tree, z), NewlyExecuted(next.tree, z);
    assert next.tree.log == w.tree.log + [id];
    assert z.log == z.log[..|next.tree.log|] + rest;
    assert run == [id] + rest;
    assert z.nodes[id] == next.tree.nodes[id];
    FirstAllowedStays(mode.excluded, next.tree, z, Kids(mode.dir, next.tree.nodes[id]));
  }

  // ----- Breadth first -----

  /** The nodes are pending, each listed once. */
  predicate Unvisited(x: Exploration, ids: seq<nat>) {
    && (forall k :: 0 <= k < |ids| ==> Pending(x, ids[k]))
    && (forall j, k :: 0 <= j < k < |ids| ==> ids[j] != ids[k])
  }

  /** The children of these nodes, node by node, those on the named side last. */
  function AllKids(dir: bool, x: Exploration, ids: seq<nat>): seq<nat> {
    if ids == [] then []
    else (if ids[0] < |x.nodes| then Kids(!dir, x.nodes[ids[0]]) else []) + AllKids(dir, x, ids[1..])
  }

  lemma TurnKeepsUnvisited(mode: Mode, w: Work, next: Work)
    requires TurnsTo(mode, w, next) && mode.bfs && mode.excluded == {} && Unvisited(w.tree, w.queue)
    ensures Unvisited(next.tree, next.queue) && next.tree.log == w.tree.log + [w.queue[0]]
    ensures next.queue == w.queue[1..] + Kids(!mode.dir, next.tree.nodes[w.queue[0]])
  {
    QueueOf(mode, w.queue[1..], next.tree.nodes[w.queue[0]]);
    assert forall k :: 0 <= k < |w.queue| - 1 ==> w.queue[1..][k] == w.queue[k + 1];
  }

  /** A breadth-first round works through what it was given and then through the children
      of what it has executed, in that order; what is left over stays queued. */
  lemma {:induction false} BreadthFirstInOrder(p: Program, exec: Executor, mode: Mode, w: Work)
    requires Steady(p, exec) && ValidWork(p, w) && mode.bfs && mode.excluded == {} && Unvisited(w.tree, w.queue)
    ensures var r := Round(p, exec, mode, w);
            && |w.tree.log| <= |r.tree.log|
            && NewlyExecuted(w.tree, r.tree) + r.queue == w.queue + AllKids(mode.dir, r.tree, NewlyExecuted(w.tree, r.tree))
    decreases w.steps, QueueWeight(p, w.tree, w.queue)
  {
    hide QueueWeight, Round, Kids, PushChildren, Unvisited;
    RoundFacts(p, exec, mode, w);
    var r := Round(p, exec, mode, w);
    if w.steps == 0 || w.queue == [] {
      RoundStops(p, exec, mode, w);
      assert NewlyExecuted(w.tree, r.tree) == [];
      assert w.queue + [] == w.queue && [] + w.queue == w.queue;
    } else {
      var next := FirstTurn(p, exec, mode, w, 0);
      TurnKeepsUnvisited(mode, w, next);
      BreadthFirstInOrder(p, exec, mode, next);
      RoundFacts(p, exec, mode, next);
      OneMoreInOrder(mode, w, next, r);
    }
  }

  lemma OneMoreInOrder(mode: Mode, w: Work, next: Work, r: Work)
    requires w.queue != [] && w.queue[0] < |next.tree.nodes| && Grows(next.tree, r.tree) && next.tree.nodes[w.queue[0]].executed
    requires next.tree.log == w.tree.log + [w.queue[0]]
    requires next.queue == w.queue[1..] + Kids(!mode.dir, next.tree.nodes[w.queue[0]])
    requires NewlyExecuted(next.tree, r.tree) + r.queue == next.queue + AllKids(mode.dir, r.tree, NewlyExecuted(next.tree, r.tree))
    ensures |w.tree.log| <= |r.tree.log|
    ensures NewlyExecuted(w.tree, r.tree) + r.queue == w.queue + AllKids(mode.dir, r.tree, NewlyExecuted(w.tree, r.tree))
  {
    hide Kids;
    var id, run, rest := w.queue[0], NewlyExecuted(w.tree, r.tree), NewlyExecuted(next.tree, r.tree);
    assert r.tree.log == r.tree.log[..|next.tree.log|] + rest;
    assert run == [id] + rest;
    assert run[1..] == rest;
    var kids, more := Kids(!mode.dir, next.tree.nodes[id]), AllKids(mode.dir, r.tree, rest);
    assert AllKids(mode.dir, r.tree, run) == kids + more;
    assert run + r.queue == [id] + (rest + r.queue);
    assert w.queue == [id] + w.queue[1..];
    assert [id] + (w.queue[1..] + kids + more) == w.queue + (kids + more);
  }

  // ----- A round as it is asked for -----

  /** Where a round begins: at the root, or below the chosen node on the named side, if
      that is still pending. */
  ghost predicate BeginsAt(dir: bool, excluded: set<BlockId>, x: Exploration, from: Option<nat>, run: seq<nat>) {
    (from.Some? ==> from.value < |x.nodes|) && run != [] ==>
      var first := FirstAllowed(excluded, x, if from.None? then [0] else Kids(dir, x.nodes[from.value]));
      first.Some? && first.value < |x.nodes| && !x.nodes[first.value].executed ==> run[0] == first.value
  }

  lemma RoundBegins(p: Program, exec: Executor, mode: Mode, x: Exploration, from: Option<nat>, steps: nat)
    requires Steady(p, exec) && ValidTree(p, x) && (from.Some? ==> from.value < |x.nodes|)
    ensures InTree(x, Start(x, mode, from))
    ensures var y := Round(p, exec, mode, Work(x, Start(x, mode, from), steps)).tree;
            |x.log| <= |y.log| && BeginsAt(mode.dir, mode.excluded, x, from, NewlyExecuted(x, y))
  {
    hide Round, Kids, QueueWeight;
    StartInTree(p, x, mode, from);
    var queue := Start(x, mode, from);
    var w := Work(x, queue, steps);
    RoundFacts(p, exec, mode, w);
    if from.Some? {
      StartOf(mode, x, from.value);
    }
    var first := FirstAllowed(mode.excluded, x, queue);
    if first.Some? && !x.nodes[first.value].executed {
      assert queue + [] == queue;
      FrontRuns(p, exec, mode, w, queue, []);
    }
  }

  /** A first breadth-first round works through the root and then the children of what it
      has executed, in that order. */
  lemma FirstRoundInOrder(p: Program, exec: Executor, mode: Mode, x: Exploration, steps: nat)
    requires Steady(p, exec) && ValidTree(p, x) && mode.bfs && mode.excluded == {} && !x.nodes[0].executed
    ensures InTree(x, [0])
    ensures var y := Round(p, exec, mode, Work(x, [0], steps)).tree;
            |x.log| <= |y.log| && NewlyExecuted(x, y) <= [0] + AllKids(mode.dir, y, NewlyExecuted(x, y))
  {
    hide Round;
    BreadthFirstInOrder(p, exec, mode, Work(x, [0], steps));
  }

  /** All of it for one round. */
  lemma RoundOrder(p: Program, exec: Executor, mode: Mode, x: Exploration, from: Option<nat>, steps: nat, y: Exploration, run: seq<nat>)
    requires Steady(p, exec) && ValidTree(p, x) && (from.Some? ==> from.value < |x.nodes|) && InTree(x, Start(x, mode, from))
    requires y == Round(p, exec, mode, Work(x, Start(x, mode, from), steps)).tree && y.log == x.log + run
    ensures BeginsAt(mode.dir, mode.excluded, x, from, run)
    ensures !mode.bfs ==> GoesDown(mode.dir, mode.excluded, y, run)
    ensures mode.bfs && mode.excluded == {} && from.None? && !x.nodes[0].executed ==> run <= [0] + AllKids(mode.dir, y, run)
  {
    hide Round, GoesDown, BeginsAt, AllKids;
    assert NewlyExecuted(x, y) == run;
    RoundBegins(p, exec, mode, x, from, steps);
    if !mode.bfs {
      DepthFirstGoesDown(p, exec, mode, Work(x, Start(x, mode, from), steps));
    } else if mode.excluded == {} && from.None? && !x.nodes[0].executed {
      FirstRoundInOrder(p, exec, mode, x, steps);
    }
  }
}
