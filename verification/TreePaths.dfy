/**
 Every node of an exploration tree stands at the end of a path, so what simulation
 proves of paths holds of the nodes an exploration builds.
 */
module TreePaths {
  import opened Wrappers
  import opened Program
  import opened ExpressionTree
  import opened Symbolic
  import opened Concrete
  import opened Simulation
  import opened Exploration
  import opened Partition
  import opened TreeViews

  /** The tree node is the one `path` leads to: as created until it is executed, and for
      good if it is infeasible then; else what running its block leaves, with children if
      it has any. */
  ghost predicate EndsAt(p: Program, f: FunctionId, t: TreeNode, path: seq<Edge>)
    requires WellFormed(p) && f < |p.functions|
  {
    var found := NodeAt(p, Root(p, f), path);
    && found.Some?
    && ((t.node == found.value && IsLeaf(t) && (t.executed ==> !t.satisfiable))
        || (t.executed && t.node == Executed(p, found.value) && (IsLeaf(t) <==> Children(p, found.value) == [])))
  }

  lemma ChildIsAlongItsEdge(p: Program, n: Node, k: nat)
    requires WellFormed(p) && InProgram(p, n) && k < |Children(p, n)|
    ensures ChildAlong(Children(p, n), Children(p, n)[k].edge) == Some(Children(p, n)[k].node)
  {
    var cs := Children(p, n);
    assert k == 0 || (cs[0].edge != cs[k].edge && cs[1..][0] == cs[k]);
  }

  /** An executed node still ends at its path. */
  lemma ExecutedEndsAt(p: Program, solve: Solver, f: FunctionId, x: Exploration, id: nat, path: seq<Edge>)
    requires WellFormed(p) && f < |p.functions| && Pending(x, id) && InProgram(p, x.nodes[id].node)
    requires EndsAt(p, f, x.nodes[id], path)
    ensures EndsAt(p, f, ExecuteNode(p, solve, x, id).nodes[id], path)
  {
    hide NodeAt, Children, Marked, ChildFeasible, Executed, Root, NodeSegment;
  }

  /** A new node ends at its parent's path and one edge more. */
  lemma NewNodeEndsAt(p: Program, solve: Solver, f: FunctionId, x: Exploration, id: nat, path: seq<Edge>, k: nat)
    requires WellFormed(p) && f < |p.functions| && Pending(x, id) && InProgram(p, x.nodes[id].node)
    requires EndsAt(p, f, x.nodes[id], path) && |x.nodes| + k < |ExecuteNode(p, solve, x, id).nodes|
    ensures k < |Children(p, x.nodes[id].node)|
    ensures EndsAt(p, f, ExecuteNode(p, solve, x, id).nodes[|x.nodes| + k], path + [Children(p, x.nodes[id].node)[k].edge])
  {
    hide Children, Marked, ChildFeasible, Executed, Root, NodeSegment, ChildAlong;
    var n := x.nodes[id].node;
    var longer := path + [Children(p, n)[k].edge];
    assert longer[..|longer| - 1] == path;
    ChildIsAlongItsEdge(p, n, k);
  }

  lemma RootEndsAt(p: Program, f: FunctionId)
    requires WellFormed(p) && f < |p.functions|
    ensures EndsAt(p, f, Initial(p, f).nodes[0], [])
  {
  }

  lemma {:induction false} EveryNodeHasPath(p: Program, solve: Solver, f: FunctionId, order: seq<nat>, i: nat) returns (path: seq<Edge>)
    requires WellFormed(p) && f < |p.functions| && i < |Explore(p, solve, f, order).nodes|
    ensures EndsAt(p, f, Explore(p, solve, f, order).nodes[i], path)
  {
    hide ExecuteNode, EndsAt, Children;
    if order == [] {
      path := [];
      RootEndsAt(p, f);
    } else {
      var init, id := order[..|order| - 1], order[|order| - 1];
      var x := Explore(p, solve, f, init);
      if !Pending(x, id) || (i < |x.nodes| && i != id) {
        path := EveryNodeHasPath(p, solve, f, init, i);
        if Pending(x, id) {
          ExecuteKeepsValid(p, solve, x, id);
        }
      } else {
        ExecuteKeepsValid(p, solve, x, id);
        path := EveryNodeHasPath(p, solve, f, init, id);
        if i == id {
          ExecutedEndsAt(p, solve, f, x, id, path);
        } else {
          NewNodeEndsAt(p, solve, f, x, id, path, i - |x.nodes|);
          path := path + [Children(p, x.nodes[id].node)[i - |x.nodes|].edge];
        }
      }
    }
  }

  /** The nodes an exploration builds simulate the program: there is a path to each that
      an input's run takes exactly when the input satisfies the node's constraint list
      and chooses the path's silent sides. */
  lemma ExploredNodesSimulate(p: Program, solve: Solver, f: FunctionId, order: seq<nat>, i: nat) returns (path: seq<Edge>)
    requires WellFormed(p) && Supported(p) && f < |p.functions| && i < |Explore(p, solve, f, order).nodes|
    ensures EndsAt(p, f, Explore(p, solve, f, order).nodes[i], path)
    ensures Faithful(p, Root(p, f), path) ==>
              forall input :: !Follow(p, Start(p, f, input), path).Faulted? ==>
                (Follow(p, Start(p, f, input), path).On?
                 <==> Satisfies(Explore(p, solve, f, order).nodes[i].node.state.constraints, input)
                      && SilentSidesHold(p, Root(p, f), path, input))
  {
    hide Explore, Follow, SilentSidesHold, NodeAt, Satisfies, Faithful;
    path := EveryNodeHasPath(p, solve, f, order, i);
    if Faithful(p, Root(p, f), path) {
      forall input | !Follow(p, Start(p, f, input), path).Faulted?
        ensures Follow(p, Start(p, f, input), path).On?
           <==> Satisfies(Explore(p, solve, f, order).nodes[i].node.state.constraints, input)
                && SilentSidesHold(p, Root(p, f), path, input)
      {
        Simulation.Simulation(p, f, input, path);
      }
    }
  }

  // ----- Calls and returns -----

  /** Every node up the chain of callers waits just past a call. */
  ghost predicate CallersWait(p: Program, n: Node) {
    n.caller.Some? ==> AtCall(p, n.caller.value) && CallersWait(p, n.caller.value)
  }

  ghost predicate AllCallersWait(p: Program, x: Exploration) {
    forall i :: 0 <= i < |x.nodes| ==> CallersWait(p, x.nodes[i].node)
  }

  lemma ChildrenCallersWait(p: Program, n: Node, i: nat)
    requires WellFormed(p) && InProgram(p, n) && CallersWait(p, n) && i < |Children(p, n)|
    ensures CallersWait(p, Children(p, n)[i].node)
  {
    ChildOrigin(p, n, i);
    StandsAtItsCall(p, n);
    assert CallersWait(p, Executed(p, n));
  }

  lemma {:induction false} ExploredCallersWait(p: Program, solve: Solver, f: FunctionId, order: seq<nat>)
    requires WellFormed(p) && f < |p.functions|
    ensures AllCallersWait(p, Explore(p, solve, f, order))
  {
    hide AtCall;
    if order != [] {
      var id, x := order[|order| - 1], Explore(p, solve, f, order[..|order| - 1]);
      ExploredCallersWait(p, solve, f, order[..|order| - 1]);
      if Pending(x, id) {
        ExecuteKeepsValid(p, solve, x, id);
        ExecuteKeepsCallersWaiting(p, solve, x, id);
      }
    }
  }

  lemma ExecuteKeepsCallersWaiting(p: Program, solve: Solver, x: Exploration, id: nat)
    requires WellFormed(p) && Pending(x, id) && InProgram(p, x.nodes[id].node) && AllCallersWait(p, x)
    requires Steps(x, id, ExecuteNode(p, solve, x, id))
    ensures AllCallersWait(p, ExecuteNode(p, solve, x, id))
  {
    hide AtCall;
    var y := ExecuteNode(p, solve, x, id);
    forall i | 0 <= i < |y.nodes|
      ensures CallersWait(p, y.nodes[i].node)
    {
      if i >= |x.nodes| {
        ChildrenCallersWait(p, x.nodes[id].node, i - |x.nodes|);
      } else {
        assert CallersWait(p, x.nodes[i].node);
      }
    }
  }

  /** What a node resumed after a return is: it stands just past the caller's call, with
      the caller's map but for the call, which is bound to the returned tree, and with
      constraints equivalent to the callee's. */
  ghost predicate Resumed(p: Program, callee: Node, value: Option<Tree>, resumed: Node)
    requires callee.caller.Some?
  {
    var caller := callee.caller.value;
    && AtCall(p, caller)
    && resumed.block == caller.block && resumed.ip == caller.ip && resumed.caller == caller.caller
    && var call := Reg(Instrs(p, caller.block)[caller.ip - 1].dst);
    && (forall v :: Get(resumed.state, v) == if v == call then value else Get(caller.state, v))
    && (forall input :: Satisfies(resumed.state.constraints, input) <==> Satisfies(callee.state.constraints, input))
  }

  /** The map after a return. */
  lemma ReturnedMap(p: Program, n: Node, result: Option<Value>)
    requires n.caller.Some? && AtCall(p, n.caller.value) && n.caller.value.block < |p.blocks|
    ensures var caller, value := n.caller.value, if result.Some? then Get(n.state, result.value) else None;
            var call := Reg(Instrs(p, caller.block)[caller.ip - 1].dst);
            && (forall v :: Get(ReturnState(p, n, result), v) == if v == call then value else Get(caller.state, v))
            && ReturnState(p, n, result).constraints == caller.state.constraints + n.state.constraints
  {
  }

  lemma ReturnedNode(p: Program, n: Node)
    requires WellFormed(p) && InProgram(p, n) && Nested(n) && CallersWait(p, n) && n.caller.Some?
    requires NodeSegment(p, n).split.Some? && NodeSegment(p, n).split.value.Return?
    ensures var result := NodeSegment(p, n).split.value.result;
            && |Children(p, n)| == 1
            && Resumed(p, Executed(p, n), if result.Some? then Get(Executed(p, n).state, result.value) else None, Children(p, n)[0].node)
  {
    hide ReturnState, NodeSegment, Satisfies, AtCall;
    var caller, after := n.caller.value, Executed(p, n);
    ReturnedMap(p, after, NodeSegment(p, n).split.value.result);
    assert Nested(after);
    forall input
      ensures Satisfies(caller.state.constraints + after.state.constraints, input) <==> Satisfies(after.state.constraints, input)
    {
      ReturnConstraints(after, caller, input);
    }
  }

  /** Call and return: in every reachable tree, executing a node whose block ends in a
      return from a call adds one node, which resumes the caller just past its call. */
  lemma ReturnResumesCaller(p: Program, solve: Solver, f: FunctionId, order: seq<nat>, i: nat)
    requires WellFormed(p) && f < |p.functions| && Pending(Explore(p, solve, f, order), i)
    ensures var x := Explore(p, solve, f, order); InProgram(p, x.nodes[i].node)
    ensures var x := Explore(p, solve, f, order);
            var n, y := x.nodes[i].node, Explore(p, solve, f, order + [i]);
            var split := NodeSegment(p, n).split;
            x.nodes[i].satisfiable && n.caller.Some? && split.Some? && split.value.Return? ==>
              var after, result := y.nodes[i].node, split.value.result;
              && |y.nodes| == |x.nodes| + 1 && after.caller == n.caller
              && Resumed(p, after, if result.Some? then Get(after.state, result.value) else None, y.nodes[|x.nodes|].node)
  {
    hide Resumed, Explore, CallersWait;
    var x := Explore(p, solve, f, order);
    ExploreStep(p, solve, f, order, i);
    ExploredCallersWait(p, solve, f, order);
    assert NodeValid(p, x, i) && CallersWait(p, x.nodes[i].node);
    var n := x.nodes[i].node;
    var split := NodeSegment(p, n).split;
    if n.caller.Some? && split.Some? && split.value.Return? {
      ReturnedNode(p, n);
    }
  }
}
