/**
 What a node's feasibility mark means when the solver is exact: a node that has not
 branched is marked infeasible exactly when it is the false side of a branch and no input
 gets there, a node that has branched exactly when no input takes its true side. Literal
 conditions decide by themselves.
 */
module Feasibility {
  import opened Wrappers
  import opened Program
  import opened ExpressionTree
  import opened Symbolic
  import opened Simulation
  import opened Exploration
  import opened Partition

  // ----- An exact solver -----

  /** The solver refuses exactly the lists that no input satisfies. */
  ghost predicate Exact(solve: Solver) {
    forall cs :: solve(cs) == "" <==> forall input :: !Satisfies(cs, input)
  }

  /** There is such a solver, though none a machine could run over unbounded integers. */
  ghost function ExactSolver(): (solve: Solver)
    ensures Exact(solve)
  {
    (cs: seq<Constraint>) => if forall input: Input :: !Satisfies(cs, input) then "" else "model"
  }

  /** The register tested by the branch a node's run has ended at, if it has. */
  function Tested(p: Program, t: TreeNode): Option<nat> {
    if t.node.block < |p.blocks| && 0 < t.node.ip <= |p.blocks[t.node.block].instrs|
       && p.blocks[t.node.block].instrs[t.node.ip - 1].Branch?
    then Some(p.blocks[t.node.block].instrs[t.node.ip - 1].cond)
    else None
  }

  /** A literal condition says which side is taken, unless the exit is forced. */
  predicate LiteralAllows(p: Program, t: TreeNode, way: bool) {
    Tested(p, t).Some? ==>
      var c := Lookup(t.node.state, Reg(Tested(p, t).value));
      IsConstant(c) && !ForcedExit(t.node) ==> (Integer(c) != 0) == way
  }

  ghost predicate Satisfiable(cs: seq<Constraint>) {
    exists input: Input :: Satisfies(cs, input)
  }

  /** The last child of a node that has branched. */
  predicate IsFalseSide(p: Program, x: Exploration, i: nat) {
    && i < |x.nodes| && 0 <= x.nodes[i].parent < |x.nodes|
    && var parent := x.nodes[x.nodes[i].parent];
    Tested(p, parent).Some? && i == (if parent.right.Some? then parent.right.value else if parent.left.Some? then parent.left.value else 0)
  }

  ghost predicate CanBeEntered(p: Program, x: Exploration, i: nat)
    requires i < |x.nodes|
  {
    IsFalseSide(p, x, i) ==>
      LiteralAllows(p, x.nodes[x.nodes[i].parent], false) && Satisfiable(x.nodes[i].node.state.constraints)
  }

  ghost predicate CanGoTrue(p: Program, x: Exploration, i: nat)
    requires i < |x.nodes|
  {
    Tested(p, x.nodes[i]).Some? && x.nodes[i].right.Some? && x.nodes[i].left.Some? && x.nodes[i].left.value < |x.nodes| ==>
      LiteralAllows(p, x.nodes[i], true) && Satisfiable(x.nodes[x.nodes[i].left.value].node.state.constraints)
  }

  ghost predicate MarkMeans(p: Program, x: Exploration, i: nat)
    requires i < |x.nodes|
  {
    && (x.nodes[i].satisfiable <==> if IsLeaf(x.nodes[i]) then CanBeEntered(p, x, i) else CanGoTrue(p, x, i))
    && (!IsLeaf(x.nodes[i]) ==> CanBeEntered(p, x, i))
  }

  lemma AskedExactly(solve: Solver, n: Node, cond: nat, way: bool)
    requires Exact(solve)
    ensures Feasible(solve, n, cond, way)
       <==> var c := Lookup(n.state, Reg(cond));
            (IsConstant(c) && !ForcedExit(n) ==> (Integer(c) != 0) == way) && Satisfiable(BranchState(n, cond, way).constraints)
  {
    hide Satisfies, BranchState;
  }

  lemma ExecutedTests(p: Program, n: Node, t: TreeNode)
    requires InProgram(p, n) && NodeSegment(p, n).split.Some? && t.node == Executed(p, n)
    ensures Tested(p, t) == if NodeSegment(p, n).split.value.Branch? then Some(NodeSegment(p, n).split.value.cond) else None
  {
    SegmentFacts(p.blocks[n.block].instrs, n.ip, n.state);
  }

  /** The sides of a branch, as its children. */
  lemma Sides(p: Program, n: Node, split: Instr)
    requires WellFormed(p) && InProgram(p, n) && InRange(p, split)
    ensures var cs := Successors(p, n, split);
            if split.Branch? then
              && |cs| == (if ForcedExit(n) then 1 else 2)
              && cs[|cs| - 1].edge == Taken(false) && cs[|cs| - 1].node.state == BranchState(n, split.cond, false)
              && (|cs| == 2 ==> cs[0].edge == Taken(true) && cs[0].node.state == BranchState(n, split.cond, true))
            else |cs| <= 1 && (|cs| == 1 ==> cs[0].edge != Taken(false))
  {
    hide BranchState;
  }

  lemma NewMarkMeans(p: Program, solve: Solver, x: Exploration, id: nat, i: nat)
    requires WellFormed(p) && Pending(x, id) && InProgram(p, x.nodes[id].node) && Exact(solve)
    requires |x.nodes| <= i < |ExecuteNode(p, solve, x, id).nodes|
    ensures MarkMeans(p, ExecuteNode(p, solve, x, id), i)
  {
    hide Exact, BranchState, NodeSegment, Executed, Marked, Feasible, Tested, Satisfiable, Successors, WellFormed;
    var t, y := x.nodes[id], ExecuteNode(p, solve, x, id);
    var after, split := Executed(p, t.node), NodeSegment(p, t.node).split.value;
    ExecutedTests(p, t.node, y.nodes[id]);
    SplitInRange(p, t.node);
    Sides(p, after, split);
    if split.Branch? {
      AskedExactly(solve, after, split.cond, false);
    }
  }

  lemma SplitInRange(p: Program, n: Node)
    requires WellFormed(p) && InProgram(p, n) && NodeSegment(p, n).split.Some?
    ensures InRange(p, NodeSegment(p, n).split.value) && InProgram(p, Executed(p, n))
  {
  }

  lemma OwnMarkMeans(p: Program, solve: Solver, x: Exploration, id: nat)
    requires WellFormed(p) && Pending(x, id) && NodeValid(p, x, id) && Exact(solve) && MarkMeans(p, x, id)
    ensures MarkMeans(p, ExecuteNode(p, solve, x, id), id)
  {
    hide Exact, BranchState, NodeSegment, Executed, Feasible, Tested, Satisfiable, Successors, WellFormed, LiteralAllows;
    var t, y := x.nodes[id], ExecuteNode(p, solve, x, id);
    EnteredStill(p, solve, x, id);
    if !IsLeaf(y.nodes[id]) {
      TrueSideMark(p, solve, x, id);
    }
  }

  lemma EnteredStill(p: Program, solve: Solver, x: Exploration, id: nat)
    requires WellFormed(p) && Pending(x, id) && NodeValid(p, x, id)
    ensures var y := ExecuteNode(p, solve, x, id);
            && (CanBeEntered(p, y, id) <==> CanBeEntered(p, x, id))
            && IsLeaf(x.nodes[id]) && (IsLeaf(y.nodes[id]) ==> y.nodes[id].satisfiable == x.nodes[id].satisfiable)
            && (!IsLeaf(y.nodes[id]) ==> x.nodes[id].satisfiable)
  {
    hide BranchState, Feasible, Tested, Satisfiable, LiteralAllows;
    var n := x.nodes[id].node;
    SegmentFacts(p.blocks[n.block].instrs, n.ip, n.state);
  }

  lemma TrueSideMark(p: Program, solve: Solver, x: Exploration, id: nat)
    requires WellFormed(p) && Pending(x, id) && NodeValid(p, x, id) && Exact(solve) && x.nodes[id].satisfiable
    requires !IsLeaf(ExecuteNode(p, solve, x, id).nodes[id])
    ensures var y := ExecuteNode(p, solve, x, id); y.nodes[id].satisfiable <==> CanGoTrue(p, y, id)
  {
    hide Exact, BranchState, NodeSegment, Executed, Feasible, Tested, Satisfiable, Successors, WellFormed;
    var t, y := x.nodes[id], ExecuteNode(p, solve, x, id);
    var after, split := Executed(p, t.node), NodeSegment(p, t.node).split.value;
    ExecutedTests(p, t.node, y.nodes[id]);
    SplitInRange(p, t.node);
    Sides(p, after, split);
    if split.Branch? {
      AskedExactly(solve, after, split.cond, true);
    }
  }

  /** No other node's execution changes what a mark means. */
  lemma MarkStillMeans(p: Program, x: Exploration, id: nat, y: Exploration, i: nat)
    requires ValidTree(p, x) && Steps(x, id, y) && i < |x.nodes| && i != id && MarkMeans(p, x, i)
    ensures MarkMeans(p, y, i)
  {
    hide Tested, Satisfiable, LiteralAllows;
    assert NodeValid(p, x, i);
  }

  /** With an exact solver, in every reachable tree: a node without children is marked
      feasible if and only if it is not the false side of a branch or some input satisfies
      its constraints, and no other node ever gets children; one with children if and only
      if it has not branched or some input satisfies its true side's constraints. A literal
      condition must choose the side, besides. */
  lemma {:induction false} MarksMean(p: Program, solve: Solver, f: FunctionId, order: seq<nat>, i: nat)
    requires WellFormed(p) && f < |p.functions| && Exact(solve) && i < |Explore(p, solve, f, order).nodes|
    ensures MarkMeans(p, Explore(p, solve, f, order), i)
  {
    hide Exact, MarkMeans, ExecuteNode, ValidTree, Steps;
    if order == [] {
      RootMarkMeans(p, f);
    } else {
      var init, id := order[..|order| - 1], order[|order| - 1];
      var x := Explore(p, solve, f, init);
      if !Pending(x, id) {
        MarksMean(p, solve, f, init, i);
      } else {
        ExecuteKeepsValid(p, solve, x, id);
        if i >= |x.nodes| {
          NewMarkMeans(p, solve, x, id, i);
        } else {
          MarksMean(p, solve, f, init, i);
          if i == id {
            NodeIsValid(p, x, id);
            OwnMarkMeans(p, solve, x, id);
          } else {
            MarkStillMeans(p, x, id, ExecuteNode(p, solve, x, id), i);
          }
        }
      }
    }
  }

  lemma RootMarkMeans(p: Program, f: FunctionId)
    requires f < |p.functions|
    ensures MarkMeans(p, Initial(p, f), 0)
  {
  }

  lemma NodeIsValid(p: Program, x: Exploration, i: nat)
    requires ValidTree(p, x) && i < |x.nodes|
    ensures NodeValid(p, x, i)
  {
  }
}
