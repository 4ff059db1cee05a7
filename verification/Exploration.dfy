/**
 The symbolic execution tree as it grows: executing one node runs its block,
 appends its children and logs its id. Node ids are positions in creation order.
 */
module Exploration {
  import opened Wrappers
  import opened Program
  import opened ExpressionTree
  import opened Symbolic
  import opened Simulation

  /** The solver as its callers read it: a model's text, empty when unsatisfiable. */
  type Solver = seq<Constraint> -> string

  datatype TreeNode = TreeNode(
    node: Node,
    parent: int,
    left: Option<nat>,
    right: Option<nat>,
    executed: bool,
    satisfiable: bool)

  /** The nodes by id, and the ids in the order they were executed. */
  datatype Exploration = Exploration(nodes: seq<TreeNode>, log: seq<nat>)

  /** Whether one side of a branch counts as feasible: a literal condition decides
      by itself, unless the loop bound forces the exit; then the solver is asked. */
  function Feasible(solve: Solver, n: Node, cond: nat, way: bool): bool {
    var t := Lookup(n.state, Reg(cond));
    && (IsConstant(t) && !ForcedExit(n) ==> (Integer(t) != 0) == way)
    && solve(BranchState(n, cond, way).constraints) != ""
  }

  /** An infeasible true side is recorded on the node that branches, not on its child. */
  predicate MarksParent(solve: Solver, n: Node, split: Instr) {
    split.Branch? && !ForcedExit(n) && !Feasible(solve, n, split.cond, true)
  }

  predicate ChildFeasible(solve: Solver, n: Node, split: Instr, e: Edge) {
    split.Branch? && e == Taken(false) ==> Feasible(solve, n, split.cond, false)
  }

  function Fresh(n: Node, parent: int, feasible: bool): TreeNode {
    TreeNode(n, parent, None, None, false, feasible)
  }

  predicate Pending(x: Exploration, id: nat) {
    id < |x.nodes| && !x.nodes[id].executed
  }

  /** The children a feasible node's execution appends. */
  function NewNodes(p: Program, solve: Solver, t: TreeNode, id: nat): seq<TreeNode>
    requires WellFormed(p) && InProgram(p, t.node)
  {
    var cs := Children(p, t.node);
    if cs == [] then []
    else
      var after, split := Executed(p, t.node), NodeSegment(p, t.node).split.value;
      seq(|cs|, i requires 0 <= i < |cs| => Fresh(cs[i].node, id, ChildFeasible(solve, after, split, cs[i].edge)))
  }

  /** Whether running a node's block marks it. */
  predicate Marked(p: Program, solve: Solver, n: Node)
    requires WellFormed(p) && InProgram(p, n)
  {
    var split := NodeSegment(p, n).split;
    split.Some? && MarksParent(solve, Executed(p, n), split.value)
  }

  /** Executing a pending node. An infeasible one is only recorded as executed. */
  function ExecuteNode(p: Program, solve: Solver, x: Exploration, id: nat): Exploration
    requires WellFormed(p) && Pending(x, id) && InProgram(p, x.nodes[id].node)
  {
    var t := x.nodes[id];
    if !t.satisfiable then Exploration(x.nodes[id := t.(executed := true)], x.log + [id])
    else
      var added := NewNodes(p, solve, t, id);
      var done := t.(
        node := Executed(p, t.node),
        executed := true,
        satisfiable := !Marked(p, solve, t.node),
        left := if |added| > 0 then Some(|x.nodes|) else None,
        right := if |added| > 1 then Some(|x.nodes| + 1) else None);
      Exploration(x.nodes[id := done] + added, x.log + [id])
  }

  function Initial(p: Program, f: FunctionId): Exploration
    requires f < |p.functions|
  {
    Exploration([Fresh(Root(p, f), -1, true)], [])
  }

  predicate IsChildOf(x: Exploration, child: nat, parent: int) {
    && 0 <= parent < |x.nodes|
    && (x.nodes[parent].left == Some(child) || x.nodes[parent].right == Some(child))
  }

  /** What holds of node `i` in every tree. */
  ghost predicate NodeValid(p: Program, x: Exploration, i: nat)
    requires i < |x.nodes|
  {
    var t := x.nodes[i];
    && InProgram(p, t.node)
    && Nested(t.node)
    && (i == 0 ==> t.parent == -1)
    && (i > 0 ==> 0 <= t.parent < i && x.nodes[t.parent].executed && IsChildOf(x, i, t.parent))
    && (!t.executed ==> t.left.None?)
    && (t.left.None? ==> t.right.None?)
    && (t.left.Some? ==> i < t.left.value < |x.nodes| && x.nodes[t.left.value].parent == i)
    && (t.right.Some? ==> t.left.value < t.right.value < |x.nodes| && x.nodes[t.right.value].parent == i)
  }

  /** The log lists the executed nodes, each once. */
  ghost predicate LogValid(x: Exploration) {
    && (forall k :: 0 <= k < |x.log| ==> x.log[k] < |x.nodes| && x.nodes[x.log[k]].executed)
    && (forall i :: 0 <= i < |x.nodes| && x.nodes[i].executed ==> i in x.log)
    && (forall j, k :: 0 <= j < k < |x.log| ==> x.log[j] != x.log[k])
    && (forall k :: 0 <= k < |x.log| ==> ParentFirst(x, k))
  }

  ghost predicate ParentFirst(x: Exploration, k: nat)
    requires k < |x.log| && x.log[k] < |x.nodes|
  {
    var parent := x.nodes[x.log[k]].parent;
    parent >= 0 ==> exists j :: 0 <= j < k && x.log[j] == parent
  }

  ghost predicate ValidTree(p: Program, x: Exploration) {
    && |x.nodes| > 0
    && (forall i :: 0 <= i < |x.nodes| ==> NodeValid(p, x, i))
  }

  lemma InitialIsValid(p: Program, f: FunctionId)
    requires WellFormed(p) && f < |p.functions|
    ensures ValidTree(p, Initial(p, f)) && LogValid(Initial(p, f))
  {
  }

  lemma {:induction false} SegmentKeepsNesting(p: Program, n: Node)
    requires InProgram(p, n) && Nested(n)
    ensures Nested(Executed(p, n)) && InProgram(p, Executed(p, n))
  {
  }

  lemma ChildrenAreNested(p: Program, n: Node)
    requires WellFormed(p) && InProgram(p, n) && Nested(n)
    ensures forall i :: 0 <= i < |Children(p, n)| ==> Nested(Children(p, n)[i].node)
  {
    SegmentFacts(p.blocks[n.block].instrs, n.ip, n.state);
    SegmentKeepsNesting(p, n);
    var g, after := NodeSegment(p, n), Executed(p, n);
    if g.split.Some? && g.split.value.Return? && n.caller.Some? {
      assert Nested(n.caller.value);
    }
  }

  /** What executing node `id` changes: its own record, at most two new pending
      children, and one log entry. */
  ghost predicate Steps(x: Exploration, id: nat, y: Exploration) {
    && Pending(x, id)
    && |x.nodes| <= |y.nodes| <= |x.nodes| + 2
    && y.log == x.log + [id]
    && (forall i :: 0 <= i < |x.nodes| && i != id ==> y.nodes[i] == x.nodes[i])
    && y.nodes[id].executed && y.nodes[id].parent == x.nodes[id].parent
    && y.nodes[id].node.block == x.nodes[id].node.block
    && y.nodes[id].node.state.constraints == x.nodes[id].node.state.constraints
    && y.nodes[id].left == (if |y.nodes| > |x.nodes| then Some(|x.nodes|) else None)
    && y.nodes[id].right == (if |y.nodes| > |x.nodes| + 1 then Some(|x.nodes| + 1) else None)
    && (forall i :: |x.nodes| <= i < |y.nodes| ==> y.nodes[i] == Fresh(y.nodes[i].node, id, y.nodes[i].satisfiable))
  }

  lemma ExecuteSteps(p: Program, solve: Solver, x: Exploration, id: nat)
    requires WellFormed(p) && Pending(x, id) && InProgram(p, x.nodes[id].node)
    requires x.nodes[id].left.None? && x.nodes[id].right.None?
    ensures Steps(x, id, ExecuteNode(p, solve, x, id))
  {
  }

  /** Executing any pending node keeps the tree valid: every child keeps its place
      above its parent. */
  lemma ExecuteKeepsValid(p: Program, solve: Solver, x: Exploration, id: nat)
    requires WellFormed(p) && ValidTree(p, x) && Pending(x, id)
    ensures InProgram(p, x.nodes[id].node)
    ensures Steps(x, id, ExecuteNode(p, solve, x, id))
    ensures ValidTree(p, ExecuteNode(p, solve, x, id))
  {
    assert NodeValid(p, x, id);
    var y := ExecuteNode(p, solve, x, id);
    ExecuteSteps(p, solve, x, id);
    NewNodesValid(p, solve, x, id);
    forall i | 0 <= i < |y.nodes|
      ensures NodeValid(p, y, i)
    {
      StepKeepsNode(p, x, id, y, i);
    }
  }

  lemma NewNodesValid(p: Program, solve: Solver, x: Exploration, id: nat)
    requires WellFormed(p) && Pending(x, id) && NodeValid(p, x, id)
    ensures var y := ExecuteNode(p, solve, x, id);
            && InProgram(p, y.nodes[id].node) && Nested(y.nodes[id].node)
            && (forall i :: |x.nodes| <= i < |y.nodes| ==> InProgram(p, y.nodes[i].node) && Nested(y.nodes[i].node))
  {
    ChildrenAreNested(p, x.nodes[id].node);
    SegmentKeepsNesting(p, x.nodes[id].node);
  }

  lemma StepKeepsNode(p: Program, x: Exploration, id: nat, y: Exploration, i: nat)
    requires Steps(x, id, y) && i < |y.nodes|
    requires forall j :: 0 <= j < |x.nodes| ==> NodeValid(p, x, j)
    requires i == id || i >= |x.nodes| ==> InProgram(p, y.nodes[i].node) && Nested(y.nodes[i].node)
    ensures NodeValid(p, y, i)
  {
    if i < |x.nodes| {
      assert NodeValid(p, x, i);
      if i > 0 {
        assert NodeValid(p, x, x.nodes[i].parent);
      }
    } else {
      assert NodeValid(p, x, id);
    }
  }

  /** The log stays duplicate-free and parent-first. */
  lemma StepKeepsLog(p: Program, x: Exploration, id: nat, y: Exploration)
    requires Steps(x, id, y) && LogValid(x) && NodeValid(p, x, id)
    ensures LogValid(y)
  {
    assert id !in x.log;
    forall i | 0 <= i < |y.nodes| && y.nodes[i].executed
      ensures i in y.log
    {
      assert i == id || i in x.log;
    }
    forall k | 0 <= k < |y.log|
      ensures ParentFirst(y, k)
    {
      if k < |x.log| {
        assert ParentFirst(x, k);
        var parent := x.nodes[x.log[k]].parent;
        if parent >= 0 {
          var j :| 0 <= j < k && x.log[j] == parent;
          assert y.log[j] == parent;
        }
      } else if x.nodes[id].parent >= 0 {
        var j :| 0 <= j < |x.log| && x.log[j] == x.nodes[id].parent;
        assert y.log[j] == x.nodes[id].parent;
      }
    }
  }

  /** The tree after executing nodes in the given order, ids that are not pending
      at their turn being passed over. Every reachable tree is one of these. */
  ghost function Explore(p: Program, solve: Solver, f: FunctionId, order: seq<nat>): (x: Exploration)
    requires WellFormed(p) && f < |p.functions|
    ensures ValidTree(p, x)
  {
    if order == [] then
      InitialIsValid(p, f);
      Initial(p, f)
    else
      var last := |order| - 1;
      var before := Explore(p, solve, f, order[..last]);
      if Pending(before, order[last]) then
        ExecuteKeepsValid(p, solve, before, order[last]);
        ExecuteNode(p, solve, before, order[last])
      else before
  }

  lemma ExploreStep(p: Program, solve: Solver, f: FunctionId, order: seq<nat>, id: nat)
    requires WellFormed(p) && f < |p.functions| && Pending(Explore(p, solve, f, order), id)
    ensures var x := Explore(p, solve, f, order);
            && InProgram(p, x.nodes[id].node)
            && Explore(p, solve, f, order + [id]) == ExecuteNode(p, solve, x, id)
            && Steps(x, id, ExecuteNode(p, solve, x, id))
  {
    assert (order + [id])[..|order|] == order;
    ExecuteKeepsValid(p, solve, Explore(p, solve, f, order), id);
  }

  /** In every reachable tree the log lists each executed node once, after its
      parent. */
  lemma {:induction false} ExploredOnce(p: Program, solve: Solver, f: FunctionId, order: seq<nat>)
    requires WellFormed(p) && f < |p.functions|
    ensures LogValid(Explore(p, solve, f, order))
  {
    if order == [] {
      InitialIsValid(p, f);
    } else {
      var id, before := order[|order| - 1], Explore(p, solve, f, order[..|order| - 1]);
      ExploredOnce(p, solve, f, order[..|order| - 1]);
      if Pending(before, id) {
        ExecuteKeepsValid(p, solve, before, id);
        assert NodeValid(p, before, id);
        StepKeepsLog(p, before, id, ExecuteNode(p, solve, before, id));
      }
    }
  }
}
