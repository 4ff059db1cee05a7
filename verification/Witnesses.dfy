/**
 Small programs that show the tree theorems' conditions to be needed: a branch on a
 literal, an infeasible true side, a loop that is left only because it must be, and one
 whose header calls, which is never left.
 */
module Witnesses {
  import opened Wrappers
  import opened Program
  import opened ExpressionTree
  import opened Symbolic
  import opened Concrete
  import opened Simulation
  import opened Exploration
  import opened Partition
  import opened Scheduler
  import opened Resume
  import opened Termination
  import opened Feasibility

  /** Stores a literal, loads it and branches on it. */
  const LITERAL_BRANCH := Program(
    [Block(1, [Store(Const(1), 0), Load(1, 0), Branch(1, 1, 2)]), Block(2, [Return(None)]), Block(3, [Return(None)])],
    [Function([], 0)])

  /** The state in which the branch of `LITERAL_BRANCH` is reached. */
  lemma LiteralBranchNode()
    ensures WellFormed(LITERAL_BRANCH)
    ensures var p := LITERAL_BRANCH;
            var root := Root(p, 0);
            && NodeSegment(p, root).split == Some(Branch(1, 1, 2))
            && Executed(p, root).state.constraints == []
            && Lookup(Executed(p, root).state, Reg(1)) == Leaf(Some(Const(1)))
            && |Children(p, root)| == 2
            && Children(p, root)[0].edge == Taken(true) && Children(p, root)[0].node.state.constraints == []
            && Children(p, root)[1].edge == Taken(false) && Children(p, root)[1].node.state.constraints == []
  {
    var p := LITERAL_BRANCH;
    var instrs, s := p.blocks[0].instrs, Root(p, 0).state;
    var stored := Step(s, instrs[0]);
    var loaded := Step(stored, instrs[1]);
    assert RunSegment(instrs, 2, loaded) == Segment(loaded, 3, Some(instrs[2]));
    assert RunSegment(instrs, 1, stored) == RunSegment(instrs, 2, loaded);
    assert RunSegment(instrs, 0, s) == RunSegment(instrs, 1, stored);
  }

  /** Both leaves of a literal branch are satisfied by every input. */
  lemma LiteralBranchIsTwiceCovered(solve: Solver, input: Input)
    ensures WellFormed(LITERAL_BRANCH)
    ensures TwiceCovered(Explore(LITERAL_BRANCH, solve, 0, [0]), input)
  {
    LiteralBranchNode();
    hide Children, Executed, NodeSegment, WellFormed, Feasible, Marked;
    var p := LITERAL_BRANCH;
    assert [0][..0] == [];
    ExploreStep(p, solve, 0, [], 0);
    assert [] + [0] == [0];
    var y := Explore(p, solve, 0, [0]);
    assert SatisfiedLeaf(y, input, 1) && SatisfiedLeaf(y, input, 2);
  }

  /** Every input satisfies the dead side's constraints, and none takes it. */
  lemma DeadSideIsSatisfied(input: Input)
    ensures WellFormed(LITERAL_BRANCH)
    ensures var p, path := LITERAL_BRANCH, [Taken(false)];
            && NodeAt(p, Root(p, 0), path).Some?
            && Satisfies(NodeAt(p, Root(p, 0), path).value.state.constraints, input)
            && Follow(p, Concrete.Start(p, 0, input), path) == Off
  {
    LiteralBranchNode();
    var p, path := LITERAL_BRANCH, [Taken(false)];
    var instrs, env := p.blocks[0].instrs, Concrete.Start(p, 0, input).env;
    assert path[..0] == [];
    var stored := env[Cell(0) := 1];
    var loaded := stored[Reg(1) := 1];
    assert RunStretch(instrs, 2, loaded) == Some(Stretch(loaded, 3, Some(instrs[2])));
    assert RunStretch(instrs, 1, stored) == RunStretch(instrs, 2, loaded);
    assert RunStretch(instrs, 0, env) == RunStretch(instrs, 1, stored);
    var cs := Children(p, Root(p, 0));
    assert ChildAlong(cs[1..], Taken(false)) == Some(cs[1].node);
    assert ChildAlong(cs, Taken(false)) == Some(cs[1].node);
    assert NodeAt(p, Root(p, 0), []) == Some(Root(p, 0));
  }

  /** Branches on whether a parameter exceeds itself. */
  const IMPOSSIBLE_BRANCH := Program(
    [Block(1, [ICmp(1, Sgt, Reg(0), Reg(0)), Branch(1, 1, 2)]), Block(2, [Return(None)]), Block(3, [Return(None)])],
    [Function([0], 0)])

  /** An exact solver refuses the list that asks the parameter to exceed itself. */
  lemma NothingExceedsItself(solve: Solver, more: Tree)
    requires Exact(solve) && more == Inner(Greater, Leaf(Some(Reg(0))), Leaf(Some(Reg(0))))
    ensures solve([Constraint(more, true)]) == ""
  {
    forall input: Input
      ensures !Satisfies([Constraint(more, true)], input)
    {
      assert !Holds(Constraint(more, true), input);
      assert Constraint(more, true) in [Constraint(more, true)];
    }
  }

  lemma ImpossibleBranchNode(solve: Solver)
    requires Exact(solve)
    ensures WellFormed(IMPOSSIBLE_BRANCH)
    ensures var p := IMPOSSIBLE_BRANCH;
            var root := Root(p, 0);
            && NodeSegment(p, root).split == Some(Branch(1, 1, 2)) && |Children(p, root)| == 2
            && MarksParent(solve, Executed(p, root), Branch(1, 1, 2))
  {
    var p := IMPOSSIBLE_BRANCH;
    var root := Root(p, 0);
    var instrs, s := p.blocks[0].instrs, root.state;
    var compared := Step(s, instrs[0]);
    assert RunSegment(instrs, 1, compared) == Segment(compared, 2, Some(instrs[1]));
    assert RunSegment(instrs, 0, s) == RunSegment(instrs, 1, compared);
    var more := Inner(Greater, Leaf(Some(Reg(0))), Leaf(Some(Reg(0))));
    assert Lookup(compared, Reg(1)) == more;
    assert BranchState(Executed(p, root), 1, true).constraints == [Constraint(more, true)];
    NothingExceedsItself(solve, more);
  }

  /** The tree after its first execution: a marked node with two pending children. */
  lemma ImpossibleBranchTree(solve: Solver) returns (y: Exploration)
    requires Exact(solve)
    ensures WellFormed(IMPOSSIBLE_BRANCH)
    ensures var p := IMPOSSIBLE_BRANCH;
            var x := Initial(p, 0);
            && ValidTree(p, x) && Pending(x, 0) && InProgram(p, x.nodes[0].node)
            && y == ExecuteNode(p, solve, x, 0) && ValidTree(p, y) && Steps(x, 0, y)
            && |y.nodes| == 3 && !y.nodes[0].satisfiable && y.log == [0]
            && y.nodes[0].left == Some(1) && y.nodes[0].right == Some(2) && !y.nodes[1].executed && !y.nodes[2].executed
  {
    ImpossibleBranchNode(solve);
    hide Exact;
    InitialIsValid(IMPOSSIBLE_BRANCH, 0);
    ExecuteKeepsValid(IMPOSSIBLE_BRANCH, solve, Initial(IMPOSSIBLE_BRANCH, 0), 0);
    y := ExecuteNode(IMPOSSIBLE_BRANCH, solve, Initial(IMPOSSIBLE_BRANCH, 0), 0);
  }

  /** With an exact solver too, a round of one step, started again from the root for
      another, does not go on: the
      replay drops the marked root's children, where one round of two steps executes
      the first of them. */
  lemma ImpossibleBranchDoesNotResume(solve: Solver, dir: bool)
    requires Exact(solve)
    ensures WellFormed(IMPOSSIBLE_BRANCH)
    ensures var p, x := IMPOSSIBLE_BRANCH, Initial(IMPOSSIBLE_BRANCH, 0);
            && Steady(p, BlockExecutor(p, solve)) && ValidTree(p, x) && InTree(x, [0])
            && !Resumes(p, BlockExecutor(p, solve), Mode(true, dir, {}), x, [0], 1, 1)
  {
    var y := ImpossibleBranchTree(solve);
    var p, x, mode := IMPOSSIBLE_BRANCH, Initial(IMPOSSIBLE_BRANCH, 0), Mode(true, dir, {});
    var exec := BlockExecutor(p, solve);
    BlockExecutorIsSteady(p, solve);
    hide ExecuteNode, ValidTree, Steady, Initial, Steps, PushChildren, Round, InTree;
    RootIsQueued(p, x);
    FirstStep(p, exec, mode, x, y, 1);
    FirstStep(p, exec, mode, x, y, 2);
    ReplayStops(p, exec, mode, y);
    GoesOn(p, exec, mode, y);
  }

  lemma RootIsQueued(p: Program, x: Exploration)
    requires ValidTree(p, x)
    ensures InTree(x, [0])
  {
  }

  /** One more step over the fork changes the tree. */
  lemma GoesOn(p: Program, exec: Executor, mode: Mode, y: Exploration)
    requires Steady(p, exec) && ValidTree(p, y) && InTree(y, PushChildren(mode, [], y.nodes[0])) && mode.excluded == {}
    requires y.nodes[0].left == Some(1) && y.nodes[0].right == Some(2) && |y.nodes| == 3 && !y.nodes[1].executed && !y.nodes[2].executed
    ensures |Round(p, exec, mode, Work(y, PushChildren(mode, [], y.nodes[0]), 1)).tree.log| == |y.log| + 1
  {
    hide Round, QueueWeight;
    var w := Work(y, PushChildren(mode, [], y.nodes[0]), 1);
    assert !y.nodes[w.queue[0]].executed;
    RoundUnrolls(p, exec, mode, w);
    RoundStops(p, exec, mode, Turn(p, exec, mode, w));
  }

  lemma FirstStep(p: Program, exec: Executor, mode: Mode, x: Exploration, y: Exploration, steps: nat)
    requires Steady(p, exec) && ValidTree(p, x) && ValidTree(p, y) && Pending(x, 0) && y == exec(x, 0) && mode.excluded == {} && steps > 0
    ensures InTree(y, PushChildren(mode, [], y.nodes[0])) && InTree(x, [0])
    ensures Round(p, exec, mode, Work(x, [0], steps)) == Round(p, exec, mode, Work(y, PushChildren(mode, [], y.nodes[0]), steps - 1))
  {
    hide Round, QueueWeight, PushChildren, Steps;
    assert [0][1..] == [];
    RoundUnrolls(p, exec, mode, Work(x, [0], steps));
  }

  lemma ReplayStops(p: Program, exec: Executor, mode: Mode, y: Exploration)
    requires Steady(p, exec) && ValidTree(p, y) && y.nodes[0].executed && !y.nodes[0].satisfiable
    ensures InTree(y, [0]) && Round(p, exec, mode, Work(y, [0], 1)).tree == y
  {
    assert [0][1..] == [];
    RoundUnrolls(p, exec, mode, Work(y, [0], 1));
  }

  /** Loops while its parameter is positive, which it never changes. */
  const ENDLESS := Program(
    [Block(1, [Jump(1)]), Block(2, [ICmp(1, Sgt, Reg(0), Const(0)), Branch(1, 2, 3)]), Block(3, [Jump(1)]), Block(4, [Return(None)])],
    [Function([0], 0)])

  const POSITIVE := Constraint(Inner(Greater, Leaf(Some(Reg(0))), Leaf(Some(Const(0)))), true)

  /** A node at the header, whose parameter is still symbolic. */
  predicate AtHeader(n: Node) {
    && n.block == 1 && n.ip == 0 && n.caller == None
    && Lookup(n.state, Reg(0)) == Leaf(Some(Reg(0))) && Lookup(n.state, Const(0)) == Leaf(Some(Const(0)))
  }

  /** The header's branch: the condition is the same in every round. */
  lemma HeaderBranches(n: Node)
    requires AtHeader(n)
    ensures WellFormed(ENDLESS) && InProgram(ENDLESS, n)
    ensures var cs := Children(ENDLESS, n);
            var t := Lookup(Executed(ENDLESS, n).state, Reg(1));
            && t == POSITIVE.tree && Executed(ENDLESS, n).loop == n.loop && Executed(ENDLESS, n).block == 1
            && Lookup(Executed(ENDLESS, n).state, Reg(0)) == Leaf(Some(Reg(0)))
            && Lookup(Executed(ENDLESS, n).state, Const(0)) == Leaf(Some(Const(0)))
            && Executed(ENDLESS, n).state.constraints == n.state.constraints
            && cs == Successors(ENDLESS, Executed(ENDLESS, n), Branch(1, 2, 3))
  {
    var instrs := ENDLESS.blocks[1].instrs;
    var compared := Step(n.state, instrs[0]);
    assert RunSegment(instrs, 1, compared) == Segment(compared, 2, Some(instrs[1]));
    assert RunSegment(instrs, 0, n.state) == RunSegment(instrs, 1, compared);
    assert compared.env[Reg(1)] == Make(Greater, Lookup(n.state, Reg(0)), Lookup(n.state, Const(0)));
    assert Executed(ENDLESS, n).state == compared;
  }

  lemma JumpsToHeader(n: Node)
    requires (n.block == 0 || n.block == 2) && n.ip == 0 && n.caller == None
    ensures WellFormed(ENDLESS) && InProgram(ENDLESS, n)
    ensures Children(ENDLESS, n) == [Child(Goto, Node(1, 0, n.state, if n.block == 2 then LoopInfo(Some(1), n.loop.executions + 1) else n.loop, None))]
  {
    var instrs := ENDLESS.blocks[n.block].instrs;
    assert RunSegment(instrs, 0, n.state) == Segment(n.state, 1, Some(Jump(1)));
  }

  lemma RootOfEndless()
    ensures WellFormed(ENDLESS)
    ensures var n := Root(ENDLESS, 0);
            && n.block == 0 && n.ip == 0 && n.caller == None && n.loop == NO_LOOP && n.state.constraints == []
            && Lookup(n.state, Reg(0)) == Leaf(Some(Reg(0))) && Lookup(n.state, Const(0)) == Leaf(Some(Const(0)))
  {
    assert BindParams([], []) == map[];
    assert BindParams([0], []) == map[Reg(0) := Leaf(Some(Reg(0)))];
  }

  lemma EmptyPath(p: Program, root: Node)
    requires WellFormed(p) && InProgram(p, root)
    ensures NodeAt(p, root, []) == Some(root)
  {
  }

  /** The true side before the bound is reached. */
  lemma BothSides(n: Node)
    requires AtHeader(n) && !ForcedExit(n)
    ensures WellFormed(ENDLESS) && InProgram(ENDLESS, n)
    ensures var c := ChildAlong(Children(ENDLESS, n), Taken(true));
            && c.Some? && c.value.block == 2 && c.value.ip == 0 && c.value.caller == None && c.value.loop == n.loop
            && c.value.state.constraints == n.state.constraints + [POSITIVE]
            && Lookup(c.value.state, Reg(0)) == Leaf(Some(Reg(0))) && Lookup(c.value.state, Const(0)) == Leaf(Some(Const(0)))
  {
    HeaderBranches(n);
  }

  /** The false side, unconstrained, once it is. */
  lemma OnlyExit(n: Node)
    requires AtHeader(n) && ForcedExit(n)
    ensures WellFormed(ENDLESS) && InProgram(ENDLESS, n)
    ensures var c := ChildAlong(Children(ENDLESS, n), Taken(false));
            c.Some? && c.value.block == 3 && c.value.state.constraints == n.state.constraints
  {
    HeaderBranches(n);
  }

  lemma PathGrows(p: Program, root: Node, path: seq<Edge>, e: Edge)
    requires WellFormed(p) && InProgram(p, root) && NodeAt(p, root, path).Some?
    ensures NodeAt(p, root, path + [e]) == ChildAlong(Children(p, NodeAt(p, root, path).value), e)
  {
    assert (path + [e])[..|path|] == path;
  }

  /** The node behind the forced exit: its only constraint is that the parameter is
      positive, which is when the loop is never left. */
  lemma ForcedExitNode()
    ensures WellFormed(ENDLESS)
    ensures var n := NodeAt(ENDLESS, Root(ENDLESS, 0), [Goto] + [Taken(true)] + [Goto] + [Taken(false)]);
            n.Some? && n.value.block == 3 && n.value.state.constraints == [POSITIVE]
  {
    var p, root := ENDLESS, Root(ENDLESS, 0);
    hide NodeAt, Children, Executed, Successors;
    RootOfEndless();
    JumpsToHeader(root);
    EmptyPath(p, root);
    PathGrows(p, root, [], Goto);
    var n1 := NodeAt(p, root, [] + [Goto]).value;
    HeaderBranches(n1);
    BothSides(n1);
    PathGrows(p, root, [Goto], Taken(true));
    var n2 := NodeAt(p, root, [Goto] + [Taken(true)]).value;
    JumpsToHeader(n2);
    PathGrows(p, root, [Goto] + [Taken(true)], Goto);
    var n3 := NodeAt(p, root, [Goto] + [Taken(true)] + [Goto]).value;
    HeaderBranches(n3);
    OnlyExit(n3);
    PathGrows(p, root, [Goto] + [Taken(true)] + [Goto], Taken(false));
  }

  /** With a positive parameter the run stays in the loop. */
  lemma {:induction false} NeverLeaves(input: Input, path: seq<Edge>)
    requires input(Some(Reg(0))) == 1
    ensures WellFormed(ENDLESS)
    ensures var r := Follow(ENDLESS, Concrete.Start(ENDLESS, 0, input), path);
            r.On? ==> r.frame.block < 3 && r.frame.ip == 0 && r.frame.caller == None && Operand(r.frame.env, Reg(0)) == Some(1)
  {
    if path == [] {
      assert BindArgs([], [1]) == map[];
    } else {
      NeverLeaves(input, path[..|path| - 1]);
      var before := Follow(ENDLESS, Concrete.Start(ENDLESS, 0, input), path[..|path| - 1]);
      if before.On? {
        StaysInLoop(before.frame);
      }
    }
  }

  lemma StaysInLoop(f: Frame)
    requires f.block < 3 && f.ip == 0 && f.caller == None && Operand(f.env, Reg(0)) == Some(1)
    ensures WellFormed(ENDLESS) && FrameInProgram(ENDLESS, f)
    ensures var r := Advance(ENDLESS, f);
            r.Moved? ==>
              && r.edge != Taken(false)
              && r.frame.block < 3 && r.frame.ip == 0 && r.frame.caller == None && Operand(r.frame.env, Reg(0)) == Some(1)
  {
    var instrs := ENDLESS.blocks[f.block].instrs;
    if f.block == 1 {
      var compared := f.env[Reg(1) := 1];
      assert RunStretch(instrs, 1, compared) == Some(Stretch(compared, 2, Some(instrs[1])));
      assert RunStretch(instrs, 0, f.env) == RunStretch(instrs, 1, compared);
    } else {
      assert RunStretch(instrs, 0, f.env) == Some(Stretch(f.env, 1, Some(Jump(1))));
    }
  }

  /** Why simulation is about the bounded run: an input that satisfies the constraints
      behind a forced exit although its own run never gets there. */
  lemma ForcedExitIsSatisfied(input: Input)
    requires input(Some(Reg(0))) == 1
    ensures WellFormed(ENDLESS)
    ensures var path := [Goto] + [Taken(true)] + [Goto] + [Taken(false)];
            && NodeAt(ENDLESS, Root(ENDLESS, 0), path).Some?
            && Satisfies(NodeAt(ENDLESS, Root(ENDLESS, 0), path).value.state.constraints, input)
            && !Follow(ENDLESS, Concrete.Start(ENDLESS, 0, input), path).On?
  {
    hide Advance, NodeAt;
    ForcedExitNode();
    assert Holds(POSITIVE, input);
    var path := [Goto] + [Taken(true)] + [Goto] + [Taken(false)];
    LeavingIsLeaving(input, path[..3]);
    assert path == path[..3] + [Taken(false)];
  }

  /** A run that takes the false side of the header has left the loop. */
  lemma LeavingIsLeaving(input: Input, path: seq<Edge>)
    requires input(Some(Reg(0))) == 1
    ensures WellFormed(ENDLESS) && !Follow(ENDLESS, Concrete.Start(ENDLESS, 0, input), path + [Taken(false)]).On?
  {
    NeverLeaves(input, path);
    assert (path + [Taken(false)])[..|path|] == path;
    var before := Follow(ENDLESS, Concrete.Start(ENDLESS, 0, input), path);
    if before.On? {
      StaysInLoop(before.frame);
    }
  }

  /** Loops while a function of its parameter is not zero: the header calls it before it
      branches, and a return forgets the loop. */
  const CALLING_HEADER := Program(
    [Block(1, [Jump(1)]), Block(2, [Call(1, 1, [Reg(0)]), Branch(1, 2, 3)]), Block(3, [Jump(1)]), Block(4, [Return(None)]),
     Block(5, [Return(Some(Reg(5)))])],
    [Function([0], 0), Function([5], 4)])

  /** A node inside that loop, before it, or in the call from its header. */
  predicate Circling(n: Node) {
    if n.block == 4 then
      n.ip == 0 && n.caller.Some? && n.caller.value.block == 1 && n.caller.value.ip == 1 && n.caller.value.caller == None
    else
      n.block < 3 && n.caller == None && (n.ip == 0 || (n.block == 1 && n.ip == 1 && n.loop == NO_LOOP))
  }

  /** It stands at a split: a jump, the call, the branch, or the return. */
  lemma CirclingSplits(n: Node)
    requires Circling(n)
    ensures WellFormed(CALLING_HEADER) && InProgram(CALLING_HEADER, n)
    ensures var split := if n.block == 1 then if n.ip == 0 then Call(1, 1, [Reg(0)]) else Branch(1, 2, 3)
                         else if n.block == 4 then Return(Some(Reg(5))) else Jump(1);
            InRange(CALLING_HEADER, split) && NodeSegment(CALLING_HEADER, n) == Segment(n.state, n.ip + 1, Some(split))
  {
    var instrs := CALLING_HEADER.blocks[n.block].instrs;
    assert RunSegment(instrs, n.ip, n.state) == Segment(n.state, n.ip + 1, Some(instrs[n.ip]));
  }

  /** Whatever its state, such a node leads to another, by an edge no solver can refuse. */
  lemma CirclesOn(n: Node)
    requires Circling(n)
    ensures WellFormed(CALLING_HEADER) && InProgram(CALLING_HEADER, n)
    ensures var cs := Children(CALLING_HEADER, n);
            |cs| > 0 && cs[0].edge != Taken(false) && Circling(cs[0].node)
  {
    hide CallState, ReturnState, BranchState, NodeSegment, WellFormed;
    CirclingSplits(n);
  }

  /** Its paths have every length. */
  lemma {:induction false} CirclesForever(k: nat) returns (path: seq<Edge>)
    ensures WellFormed(CALLING_HEADER) && |path| == k
    ensures var n := NodeAt(CALLING_HEADER, Root(CALLING_HEADER, 0), path); n.Some? && Circling(n.value)
  {
    hide Children;
    path := [];
    if k > 0 {
      var init := CirclesForever(k - 1);
      var n := NodeAt(CALLING_HEADER, Root(CALLING_HEADER, 0), init).value;
      CirclesOn(n);
      path := init + [Children(CALLING_HEADER, n)[0].edge];
      PathGrows(CALLING_HEADER, Root(CALLING_HEADER, 0), init, Children(CALLING_HEADER, n)[0].edge);
    }
  }

  lemma {:induction false} CirclingHasNoBound(solve: Solver, n: Node, k: nat)
    requires Circling(n)
    ensures WellFormed(CALLING_HEADER) && InProgram(CALLING_HEADER, n) && !Within(CALLING_HEADER, solve, {}, n, k)
    decreases k
  {
    hide Children;
    CirclesOn(n);
    if k > 0 {
      assert FeasibleChild(CALLING_HEADER, solve, n, 0);
      CirclingHasNoBound(solve, Children(CALLING_HEADER, n)[0].node, k - 1);
    }
  }

  /** With a call in a loop's header an unlimited round does not end, whatever the solver:
      the loop bound never forces the exit. */
  lemma CallingHeaderNeverEnds(solve: Solver, mode: Mode)
    requires mode.excluded == {}
    ensures WellFormed(CALLING_HEADER)
    ensures !Ends(CALLING_HEADER, BlockExecutor(CALLING_HEADER, solve), mode, Initial(CALLING_HEADER, 0), [0])
  {
    CirclingHasNoBound(solve, Root(CALLING_HEADER, 0), 0);
    hide Within, Ends;
    EndsIffBounded(CALLING_HEADER, solve, mode, 0);
    forall k: nat
      ensures !Within(CALLING_HEADER, solve, {}, Root(CALLING_HEADER, 0), k)
    {
      CirclingHasNoBound(solve, Root(CALLING_HEADER, 0), k);
    }
  }
}
