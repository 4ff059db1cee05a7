/**
 The leaves of the exploration tree against the input space: every input satisfies
 the constraints of at least one leaf, and of exactly one unless it satisfies a
 node that branched on a literal.
 */
module Partition {
  import opened Wrappers
  import opened Program
  import opened ExpressionTree
  import opened Symbolic
  import opened Simulation
  import opened Exploration

  predicate IsLeaf(t: TreeNode) {
    t.left.None? && t.right.None?
  }

  ghost predicate SatisfiedLeaf(x: Exploration, input: Input, i: nat) {
    i < |x.nodes| && IsLeaf(x.nodes[i]) && Satisfies(x.nodes[i].node.state.constraints, input)
  }

  /** The guard of the executor's literal case: the node has branched to two
      children on a condition that is a literal. */
  predicate LiteralSplit(p: Program, t: TreeNode) {
    && t.right.Some? && t.node.block < |p.blocks|
    && var instrs := p.blocks[t.node.block].instrs;
    && 0 < t.node.ip <= |instrs| && instrs[t.node.ip - 1].Branch?
    && IsConstant(Lookup(t.node.state, Reg(instrs[t.node.ip - 1].cond)))
  }

  ghost predicate SatisfiedLiteralSplit(p: Program, x: Exploration, input: Input, i: nat) {
    i < |x.nodes| && LiteralSplit(p, x.nodes[i]) && Satisfies(x.nodes[i].node.state.constraints, input)
  }

  ghost predicate Covered(x: Exploration, input: Input) {
    exists i :: SatisfiedLeaf(x, input, i)
  }

  ghost predicate TwiceCovered(x: Exploration, input: Input) {
    exists i, j :: i != j && SatisfiedLeaf(x, input, i) && SatisfiedLeaf(x, input, j)
  }

  ghost predicate ExactlyOneLeaf(x: Exploration, input: Input) {
    Covered(x, input) && !TwiceCovered(x, input)
  }

  ghost predicate SplitOnLiteral(p: Program, x: Exploration, input: Input) {
    exists i :: SatisfiedLiteralSplit(p, x, input, i)
  }

  lemma SatisfiesAppend(cs: seq<Constraint>, c: Constraint, input: Input)
    ensures Satisfies(cs + [c], input) <==> Satisfies(cs, input) && Holds(c, input)
  {
    if Satisfies(cs + [c], input) {
      forall d | d in cs
        ensures Holds(d, input)
      {
        assert d in cs + [c];
      }
      assert c in cs + [c];
    }
  }

  /** How the constraints of a node relate to its children's: one child has an
      equivalent list; two children either split it on a condition or, when that
      condition is a literal, both repeat it. */
  lemma ChildrenSplitInputs(p: Program, n: Node, input: Input)
    requires WellFormed(p) && InProgram(p, n) && Nested(n)
    ensures var cs, here := Children(p, n), Satisfies(n.state.constraints, input);
            && |cs| <= 2
            && (|cs| == 1 ==> (Satisfies(cs[0].node.state.constraints, input) <==> here))
            && (|cs| == 2 ==>
                  && LiteralSplit(p, TreeNode(Executed(p, n), -1, Some(0), Some(1), true, true)) == LiteralCondition(p, n)
                  && (LiteralCondition(p, n) ==>
                        && (Satisfies(cs[0].node.state.constraints, input) <==> here)
                        && (Satisfies(cs[1].node.state.constraints, input) <==> here))
                  && (!LiteralCondition(p, n) ==>
                        && (Satisfies(cs[0].node.state.constraints, input) || Satisfies(cs[1].node.state.constraints, input) <==> here)
                        && !(Satisfies(cs[0].node.state.constraints, input) && Satisfies(cs[1].node.state.constraints, input))))
  {
    SegmentFacts(p.blocks[n.block].instrs, n.ip, n.state);
    var g, after := NodeSegment(p, n), Executed(p, n);
    if g.split.Some? {
      match g.split.value
      case Branch(cond, _, _) =>
        var t := Lookup(after.state, Reg(cond));
        SatisfiesAppend(after.state.constraints, Constraint(t, true), input);
        SatisfiesAppend(after.state.constraints, Constraint(t, false), input);
      case Return(_) =>
        if n.caller.Some? {
          ReturnConstraints(n, n.caller.value, input);
        }
      case Call(_, callee, args) =>
        assert [] + after.state.constraints == after.state.constraints;
      case _ =>
    }
  }

  /** A resumed caller carries its own constraints and then the callee's, which
      repeat them: equivalent to the callee's alone. */
  lemma ReturnConstraints(callee: Node, caller: Node, input: Input)
    requires callee.caller == Some(caller) && Nested(callee)
    ensures Satisfies(caller.state.constraints + callee.state.constraints, input)
       <==> Satisfies(callee.state.constraints, input)
  {
    if Satisfies(caller.state.constraints + callee.state.constraints, input) {
      forall c | c in callee.state.constraints
        ensures Holds(c, input)
      {
        assert c in caller.state.constraints + callee.state.constraints;
      }
    }
  }

  predicate LiteralCondition(p: Program, n: Node)
    requires InProgram(p, n)
  {
    var g := NodeSegment(p, n);
    g.split.Some? && g.split.value.Branch? && IsConstant(Lookup(g.state, Reg(g.split.value.cond)))
  }

  /** The satisfied leaves of two trees correspond one to one when they agree below
      `base` except at `id`, whose part is taken over by `target`. */
  lemma LeavesCorrespond(x: Exploration, y: Exploration, id: nat, target: nat, input: Input)
    requires id < |x.nodes| && (target == id || target >= |x.nodes|)
    requires forall i: nat :: i != id && i < |x.nodes| ==> (SatisfiedLeaf(y, input, i) <==> SatisfiedLeaf(x, input, i))
    requires SatisfiedLeaf(y, input, target) <==> SatisfiedLeaf(x, input, id)
    requires forall i: nat :: i != target && (i == id || i >= |x.nodes|) ==> !SatisfiedLeaf(y, input, i)
    ensures Covered(y, input) <==> Covered(x, input)
    ensures TwiceCovered(y, input) <==> TwiceCovered(x, input)
  {
    hide Satisfies, IsLeaf;
    if i, j :| i != j && SatisfiedLeaf(x, input, i) && SatisfiedLeaf(x, input, j) {
      var i', j' := if i == id then target else i, if j == id then target else j;
      assert i' != j' && SatisfiedLeaf(y, input, i') && SatisfiedLeaf(y, input, j');
    }
    if i, j :| i != j && SatisfiedLeaf(y, input, i) && SatisfiedLeaf(y, input, j) {
      var i', j' := if i == target then id else i, if j == target then id else j;
      assert i' != j' && SatisfiedLeaf(x, input, i') && SatisfiedLeaf(x, input, j');
    }
    if i :| SatisfiedLeaf(x, input, i) {
      assert SatisfiedLeaf(y, input, if i == id then target else i);
    }
    if i :| SatisfiedLeaf(y, input, i) {
      assert SatisfiedLeaf(x, input, if i == target then id else i);
    }
  }

  /** Executing one node keeps, for each input, that some leaf is satisfied, and
      that a second one is exactly when a literal split is. */
  lemma ExecuteKeepsCover(p: Program, solve: Solver, x: Exploration, id: nat, input: Input)
    requires WellFormed(p) && ValidTree(p, x) && Pending(x, id) && InProgram(p, x.nodes[id].node)
    requires Covered(x, input)
    requires TwiceCovered(x, input) <==> SplitOnLiteral(p, x, input)
    ensures var y := ExecuteNode(p, solve, x, id);
            Covered(y, input) && (TwiceCovered(y, input) <==> SplitOnLiteral(p, y, input))
  {
    assert NodeValid(p, x, id);
    ExecuteSteps(p, solve, x, id);
    NewNodesSplitInputs(p, solve, x, id, input);
    StepKeepsCover(p, x, id, ExecuteNode(p, solve, x, id), input);
  }

  /** The new children of `id` against the inputs that satisfy `id`. */
  ghost predicate ChildrenCover(p: Program, x: Exploration, id: nat, y: Exploration, input: Input)
    requires Steps(x, id, y)
  {
    var base, here := |x.nodes|, Satisfies(x.nodes[id].node.state.constraints, input);
    && (|y.nodes| == base + 1 ==> (Satisfies(y.nodes[base].node.state.constraints, input) <==> here))
    && (|y.nodes| == base + 2 ==>
          var first := Satisfies(y.nodes[base].node.state.constraints, input);
          var second := Satisfies(y.nodes[base + 1].node.state.constraints, input);
          if LiteralSplit(p, y.nodes[id]) then (first <==> here) && (second <==> here)
          else (first || second <==> here) && !(first && second))
  }

  lemma NewNodesSplitInputs(p: Program, solve: Solver, x: Exploration, id: nat, input: Input)
    requires WellFormed(p) && Pending(x, id) && NodeValid(p, x, id)
    requires Steps(x, id, ExecuteNode(p, solve, x, id))
    ensures ChildrenCover(p, x, id, ExecuteNode(p, solve, x, id), input)
  {
    var n := x.nodes[id].node;
    ChildrenSplitInputs(p, n, input);
    if x.nodes[id].satisfiable && |Children(p, n)| == 2 {
      SplitAtNode(p, solve, x, id);
    }
  }

  lemma StepKeepsCover(p: Program, x: Exploration, id: nat, y: Exploration, input: Input)
    requires Steps(x, id, y) && NodeValid(p, x, id) && ChildrenCover(p, x, id, y, input)
    requires Covered(x, input)
    requires TwiceCovered(x, input) <==> SplitOnLiteral(p, x, input)
    ensures Covered(y, input) && (TwiceCovered(y, input) <==> SplitOnLiteral(p, y, input))
  {
    var base, here := |x.nodes|, Satisfies(x.nodes[id].node.state.constraints, input);
    if |y.nodes| == base + 2 && LiteralSplit(p, y.nodes[id]) && here {
      assert SatisfiedLeaf(y, input, base) && SatisfiedLeaf(y, input, base + 1);
      assert SatisfiedLiteralSplit(p, y, input, id);
    } else {
      var target := if |y.nodes| == base then id else if SatisfiedLeaf(y, input, base + 1) then base + 1 else base;
      LeavesCorrespond(x, y, id, target, input);
      SameSplits(p, x, y, id, input);
    }
  }

  lemma SplitAtNode(p: Program, solve: Solver, x: Exploration, id: nat)
    requires WellFormed(p) && Pending(x, id) && InProgram(p, x.nodes[id].node)
    requires x.nodes[id].satisfiable && |Children(p, x.nodes[id].node)| == 2
    ensures LiteralSplit(p, ExecuteNode(p, solve, x, id).nodes[id]) <==> LiteralCondition(p, x.nodes[id].node)
  {
    var n := x.nodes[id].node;
    SegmentFacts(p.blocks[n.block].instrs, n.ip, n.state);
  }

  lemma SameSplits(p: Program, x: Exploration, y: Exploration, id: nat, input: Input)
    requires id < |x.nodes| <= |y.nodes|
    requires forall i: nat :: i != id && i < |x.nodes| ==> (SatisfiedLiteralSplit(p, y, input, i) <==> SatisfiedLiteralSplit(p, x, input, i))
    requires !SatisfiedLiteralSplit(p, x, input, id) && !SatisfiedLiteralSplit(p, y, input, id)
    requires forall i: nat :: i >= |x.nodes| ==> !SatisfiedLiteralSplit(p, y, input, i)
    ensures SplitOnLiteral(p, y, input) <==> SplitOnLiteral(p, x, input)
  {
    if i :| SatisfiedLiteralSplit(p, y, input, i) {
      assert SatisfiedLiteralSplit(p, x, input, i);
    }
    if i :| SatisfiedLiteralSplit(p, x, input, i) {
      assert SatisfiedLiteralSplit(p, y, input, i);
    }
  }

  lemma {:induction false} CoverOfExploration(p: Program, solve: Solver, f: FunctionId, order: seq<nat>, input: Input)
    requires WellFormed(p) && f < |p.functions|
    ensures var x := Explore(p, solve, f, order);
            Covered(x, input) && (TwiceCovered(x, input) <==> SplitOnLiteral(p, x, input))
  {
    if order == [] {
      assert SatisfiedLeaf(Initial(p, f), input, 0);
    } else {
      var before, id := Explore(p, solve, f, order[..|order| - 1]), order[|order| - 1];
      CoverOfExploration(p, solve, f, order[..|order| - 1], input);
      if Pending(before, id) {
        ExecuteKeepsValid(p, solve, before, id);
        ExecuteKeepsCover(p, solve, before, id, input);
      }
    }
  }

  /** The frontier theorem. In a tree reached by executing nodes in any order, the
      leaves' path conditions partition the input space if and only if no node that
      branched on a literal has a satisfiable constraint list. Forced loop exits,
      calls and returns do not disturb it. */
  lemma FrontierPartitionsIff(p: Program, solve: Solver, f: FunctionId, order: seq<nat>)
    requires WellFormed(p) && f < |p.functions|
    ensures (forall input: Input :: ExactlyOneLeaf(Explore(p, solve, f, order), input))
       <==> (forall input: Input, i: nat :: !SatisfiedLiteralSplit(p, Explore(p, solve, f, order), input, i))
  {
    var x := Explore(p, solve, f, order);
    forall input: Input
      ensures ExactlyOneLeaf(x, input) <==> !SplitOnLiteral(p, x, input)
    {
      CoverOfExploration(p, solve, f, order, input);
    }
    if forall input: Input :: ExactlyOneLeaf(x, input) {
      forall input: Input, i: nat
        ensures !SatisfiedLiteralSplit(p, x, input, i)
      {
        assert ExactlyOneLeaf(x, input);
      }
    }
  }
}
