/**
 Programs whose branch conditions are comparisons, as a compiler leaves them. For them
 no branch ever sees a literal, so the leaves always partition the inputs, and only
 forced loop exits can bend a path.
 */
module Comparisons {
  import opened Wrappers
  import opened Program
  import opened ExpressionTree
  import opened Symbolic
  import opened Concrete
  import opened Simulation
  import opened Exploration
  import opened Partition
  import opened TreePaths
  import opened Feasibility

  /** The registers some branch tests. */
  function Conditions(p: Program): set<nat> {
    set b, i | 0 <= b < |p.blocks| && 0 <= i < |p.blocks[b].instrs| && p.blocks[b].instrs[i].Branch? :: p.blocks[b].instrs[i].cond
  }

  /** The instruction sets the register to something other than a comparison. */
  predicate Writes(ins: Instr, r: nat) {
    (ins.Binary? || ins.Load? || ins.Call?) && ins.dst == r
  }

  predicate WritesNone(ins: Instr, rs: set<nat>) {
    forall r :: r in rs ==> !Writes(ins, r)
  }

  /** No register a branch tests is a parameter or the result of arithmetic, of a load
      or of a call. */
  predicate BranchesCompare(p: Program) {
    && (forall b, i :: 0 <= b < |p.blocks| && 0 <= i < |p.blocks[b].instrs| ==> WritesNone(p.blocks[b].instrs[i], Conditions(p)))
    && (forall f, k :: 0 <= f < |p.functions| && 0 <= k < |p.functions[f].params| ==> p.functions[f].params[k] !in Conditions(p))
  }

  ghost predicate NoLiteral(rs: set<nat>, s: State) {
    forall r :: r in rs ==> !IsConstant(Lookup(s, Reg(r)))
  }

  /** No tested register holds a literal, here or in any caller. */
  ghost predicate Undecided(rs: set<nat>, n: Node) {
    NoLiteral(rs, n.state) && (n.caller.Some? ==> Undecided(rs, n.caller.value))
  }

  lemma StepStaysUndecided(rs: set<nat>, s: State, ins: Instr)
    requires NoLiteral(rs, s) && WritesNone(ins, rs)
    ensures NoLiteral(rs, Step(s, ins))
  {
    forall r | r in rs
      ensures !IsConstant(Lookup(Step(s, ins), Reg(r)))
    {
      assert !Writes(ins, r) && !IsConstant(Lookup(s, Reg(r)));
    }
  }

  lemma {:induction false} SegmentStaysUndecided(rs: set<nat>, instrs: seq<Instr>, ip: nat, s: State)
    requires NoLiteral(rs, s) && forall i :: 0 <= i < |instrs| ==> WritesNone(instrs[i], rs)
    ensures NoLiteral(rs, RunSegment(instrs, ip, s).state)
    decreases |instrs| - ip
  {
    if ip < |instrs| && !IsSplit(instrs[ip]) {
      StepStaysUndecided(rs, s, instrs[ip]);
      SegmentStaysUndecided(rs, instrs, ip + 1, Step(s, instrs[ip]));
    }
  }

  lemma {:induction false} BindsOnlyParams(params: seq<nat>, args: seq<Option<Tree>>, v: Value)
    requires v in BindParams(params, args)
    ensures exists k :: 0 <= k < |params| && v == Reg(params[k])
  {
    if params != [] {
      var last := |params| - 1;
      if v != Reg(params[last]) {
        BindsOnlyParams(params[..last], args, v);
        var k :| 0 <= k < last && v == Reg(params[..last][k]);
        assert v == Reg(params[k]);
      }
    }
  }

  /** A function starts without a binding for any tested register. */
  lemma ParamsAreUndecided(p: Program, f: FunctionId, args: seq<Option<Tree>>)
    requires BranchesCompare(p) && f < |p.functions|
    ensures NoLiteral(Conditions(p), EMPTY_STATE.(env := BindParams(p.functions[f].params, args)))
  {
    var params := p.functions[f].params;
    forall r | r in Conditions(p)
      ensures Reg(r) !in BindParams(params, args)
    {
      if Reg(r) in BindParams(params, args) {
        BindsOnlyParams(params, args, Reg(r));
      }
    }
  }

  lemma ReturnStaysUndecided(p: Program, n: Node, result: Option<Value>)
    requires BranchesCompare(p) && n.caller.Some? && n.caller.value.block < |p.blocks| && Undecided(Conditions(p), n)
    ensures NoLiteral(Conditions(p), ReturnState(p, n, result))
  {
    var caller, rs := n.caller.value, Conditions(p);
    assert Undecided(rs, caller);
    var call := ResultRegister(p, caller);
    forall r | r in rs
      ensures !IsConstant(Lookup(ReturnState(p, n, result), Reg(r)))
    {
      assert !IsConstant(Lookup(caller.state, Reg(r)));
      if call.Some? {
        assert WritesNone(p.blocks[caller.block].instrs[caller.ip - 1], rs);
        assert !Writes(p.blocks[caller.block].instrs[caller.ip - 1], r);
      }
    }
  }

  lemma ExecutedStaysUndecided(p: Program, n: Node)
    requires InProgram(p, n) && BranchesCompare(p) && Undecided(Conditions(p), n)
    ensures Undecided(Conditions(p), Executed(p, n))
  {
    hide Conditions, NoLiteral;
    SegmentStaysUndecided(Conditions(p), p.blocks[n.block].instrs, n.ip, n.state);
  }

  lemma ChildrenStayUndecided(p: Program, n: Node, i: nat)
    requires WellFormed(p) && InProgram(p, n) && BranchesCompare(p) && Undecided(Conditions(p), n) && i < |Children(p, n)|
    ensures Undecided(Conditions(p), Children(p, n)[i].node)
  {
    ExecutedStaysUndecided(p, n);
    var after, split := Executed(p, n), NodeSegment(p, n).split.value;
    SuccessorsStayUndecided(p, after, split, i);
  }

  lemma SuccessorsStayUndecided(p: Program, n: Node, split: Instr, i: nat)
    requires WellFormed(p) && InProgram(p, n) && InRange(p, split) && i < |Successors(p, n, split)|
    requires BranchesCompare(p) && Undecided(Conditions(p), n)
    ensures Undecided(Conditions(p), Successors(p, n, split)[i].node)
  {
    hide Conditions, BranchesCompare, ReturnState, BindParams;
    match split
    case Call(_, callee, args) =>
      ParamsAreUndecided(p, callee, seq(|args|, k requires 0 <= k < |args| => Get(n.state, args[k])));
    case Return(result) => ReturnStaysUndecided(p, n, result);
    case _ =>
  }

  ghost predicate AllUndecided(p: Program, x: Exploration) {
    forall i :: 0 <= i < |x.nodes| ==> Undecided(Conditions(p), x.nodes[i].node)
  }

  lemma ExecuteStaysUndecided(p: Program, solve: Solver, x: Exploration, id: nat)
    requires WellFormed(p) && Pending(x, id) && InProgram(p, x.nodes[id].node) && BranchesCompare(p) && AllUndecided(p, x)
    ensures AllUndecided(p, ExecuteNode(p, solve, x, id))
  {
    hide Conditions, BranchesCompare, Undecided;
    var y := ExecuteNode(p, solve, x, id);
    ExecutedStaysUndecided(p, x.nodes[id].node);
    forall i | 0 <= i < |y.nodes|
      ensures Undecided(Conditions(p), y.nodes[i].node)
    {
      if i >= |x.nodes| {
        ChildrenStayUndecided(p, x.nodes[id].node, i - |x.nodes|);
      }
    }
  }

  lemma {:induction false} ExploredAreUndecided(p: Program, solve: Solver, f: FunctionId, order: seq<nat>)
    requires WellFormed(p) && f < |p.functions| && BranchesCompare(p)
    ensures AllUndecided(p, Explore(p, solve, f, order))
  {
    hide Conditions, BranchesCompare;
    if order == [] {
      ParamsAreUndecided(p, f, []);
    } else {
      var id, x := order[|order| - 1], Explore(p, solve, f, order[..|order| - 1]);
      ExploredAreUndecided(p, solve, f, order[..|order| - 1]);
      if Pending(x, id) {
        ExecuteKeepsValid(p, solve, x, id);
        ExecuteStaysUndecided(p, solve, x, id);
      }
    }
  }

  lemma BranchTestsCondition(p: Program, b: BlockId, i: nat)
    requires b < |p.blocks| && i < |p.blocks[b].instrs| && p.blocks[b].instrs[i].Branch?
    ensures p.blocks[b].instrs[i].cond in Conditions(p)
  {
  }

  lemma UndecidedIsNoSplit(p: Program, t: TreeNode)
    requires Undecided(Conditions(p), t.node)
    ensures !LiteralSplit(p, t)
  {
    hide Conditions;
    var n := t.node;
    if n.block < |p.blocks| && 0 < n.ip <= |p.blocks[n.block].instrs| && p.blocks[n.block].instrs[n.ip - 1].Branch? {
      BranchTestsCondition(p, n.block, n.ip - 1);
    }
  }

  /** When branches test comparisons, the leaves of every reachable tree partition the
      inputs: each satisfies the constraints of exactly one. */
  lemma ComparisonsPartition(p: Program, solve: Solver, f: FunctionId, order: seq<nat>)
    requires WellFormed(p) && f < |p.functions| && BranchesCompare(p)
    ensures forall input: Input :: ExactlyOneLeaf(Explore(p, solve, f, order), input)
  {
    hide Explore, LiteralSplit, Undecided, Conditions, BranchesCompare, Satisfies;
    var x := Explore(p, solve, f, order);
    ExploredAreUndecided(p, solve, f, order);
    forall input: Input, i: nat
      ensures !SatisfiedLiteralSplit(p, x, input, i)
    {
      if i < |x.nodes| {
        UndecidedIsNoSplit(p, x.nodes[i]);
      }
    }
    FrontierPartitionsIff(p, solve, f, order);
  }

  // ----- Paths -----

  /** The loop bound has not forced the branch at the end of the node's block. */
  predicate Unforced(p: Program, n: Node)
    requires InProgram(p, n)
  {
    var split := NodeSegment(p, n).split;
    split.Some? && split.value.Branch? ==> !ForcedExit(Executed(p, n))
  }

  predicate UnforcedPath(p: Program, root: Node, path: seq<Edge>)
    requires WellFormed(p) && InProgram(p, root)
  {
    path != [] ==>
      var before := NodeAt(p, root, path[..|path| - 1]);
      UnforcedPath(p, root, path[..|path| - 1]) && (before.Some? ==> Unforced(p, before.value))
  }

  lemma {:induction false} PathsAreUndecided(p: Program, f: FunctionId, path: seq<Edge>)
    requires WellFormed(p) && f < |p.functions| && BranchesCompare(p) && NodeAt(p, Root(p, f), path).Some?
    ensures Undecided(Conditions(p), NodeAt(p, Root(p, f), path).value)
  {
    hide Conditions, BranchesCompare;
    if path == [] {
      ParamsAreUndecided(p, f, []);
    } else {
      var before, e := NodeAt(p, Root(p, f), path[..|path| - 1]).value, path[|path| - 1];
      PathsAreUndecided(p, f, path[..|path| - 1]);
      ChildAlongIsChild(Children(p, before), e);
      var i :| 0 <= i < |Children(p, before)| && Children(p, before)[i] == Child(e, ChildAlong(Children(p, before), e).value);
      ChildrenStayUndecided(p, before, i);
    }
  }

  /** Without literals, an edge is guided unless the loop bound forces it. */
  lemma UndecidedIsGuided(p: Program, n: Node, e: Edge)
    requires WellFormed(p) && InProgram(p, n) && BranchesCompare(p) && Undecided(Conditions(p), n) && Unforced(p, n)
    ensures Guided(p, n, e)
  {
    SegmentFacts(p.blocks[n.block].instrs, n.ip, n.state);
    ExecutedStaysUndecided(p, n);
    var g := NodeSegment(p, n);
    if g.split.Some? && g.split.value.Branch? {
      BranchTestsCondition(p, n.block, g.ip - 1);
    }
  }

  lemma {:induction false} UnforcedIsGuided(p: Program, f: FunctionId, path: seq<Edge>)
    requires WellFormed(p) && f < |p.functions| && BranchesCompare(p) && UnforcedPath(p, Root(p, f), path)
    ensures GuidedPath(p, Root(p, f), path)
  {
    if path != [] {
      var before := NodeAt(p, Root(p, f), path[..|path| - 1]);
      UnforcedIsGuided(p, f, path[..|path| - 1]);
      if before.Some? {
        PathsAreUndecided(p, f, path[..|path| - 1]);
        UndecidedIsGuided(p, before.value, path[|path| - 1]);
      }
    }
  }

  /** Simulation when branches test comparisons: all it asks of a path's branches is
      that the loop bound has forced none. */
  lemma ComparisonsSimulate(p: Program, f: FunctionId, input: Input, path: seq<Edge>)
    requires WellFormed(p) && Supported(p) && f < |p.functions| && BranchesCompare(p)
    requires Faithful(p, Root(p, f), path) && UnforcedPath(p, Root(p, f), path)
    requires NodeAt(p, Root(p, f), path).Some?
    requires !Follow(p, Start(p, f, input), path).Faulted?
    ensures var n, run := NodeAt(p, Root(p, f), path).value, Follow(p, Start(p, f, input), path);
            && (Satisfies(n.state.constraints, input) <==> run.On?)
            && (run.On? ==> Models(n, run.frame, input))
  {
    UnforcedIsGuided(p, f, path);
    GuidedSimulation(p, f, input, path);
  }

  // ----- Runs and leaves -----

  /** The input's run ends up at leaf `i`, along some path to it. */
  ghost predicate RunsTo(p: Program, f: FunctionId, x: Exploration, input: Input, i: nat)
    requires WellFormed(p) && f < |p.functions|
  {
    && i < |x.nodes| && IsLeaf(x.nodes[i])
    && exists path :: EndsAt(p, f, x.nodes[i], path) && Follow(p, Start(p, f, input), path).On?
  }

  /** What simulation asks of a path, and of the input's run along it. */
  predicate Plain(p: Program, f: FunctionId, input: Input, path: seq<Edge>)
    requires WellFormed(p) && f < |p.functions|
  {
    && Faithful(p, Root(p, f), path) && UnforcedPath(p, Root(p, f), path)
    && !Follow(p, Start(p, f, input), path).Faulted?
  }

  lemma RunsToItsLeaf(p: Program, f: FunctionId, x: Exploration, input: Input, i: nat, path: seq<Edge>)
    requires WellFormed(p) && Supported(p) && f < |p.functions| && BranchesCompare(p)
    requires i < |x.nodes| && EndsAt(p, f, x.nodes[i], path) && Plain(p, f, input, path)
    ensures Satisfies(x.nodes[i].node.state.constraints, input) <==> Follow(p, Start(p, f, input), path).On?
  {
    hide Faithful, UnforcedPath, NodeAt, Follow, BranchesCompare;
    ComparisonsSimulate(p, f, input, path);
  }

  /** The executor explores every run once: in any reachable tree whose paths fold and
      exit loops plainly, each input whose run does not go wrong runs to exactly one
      leaf. */
  lemma EveryRunHasOneLeaf(p: Program, solve: Solver, f: FunctionId, order: seq<nat>, input: Input) returns (i: nat)
    requires WellFormed(p) && Supported(p) && f < |p.functions| && BranchesCompare(p)
    requires forall k, path :: 0 <= k < |Explore(p, solve, f, order).nodes| && EndsAt(p, f, Explore(p, solve, f, order).nodes[k], path) ==>
               Plain(p, f, input, path)
    ensures RunsTo(p, f, Explore(p, solve, f, order), input, i)
    ensures forall j: nat :: RunsTo(p, f, Explore(p, solve, f, order), input, j) ==> j == i
  {
    hide Explore, EndsAt, Plain, Follow, BranchesCompare, IsLeaf, Satisfies;
    var x := Explore(p, solve, f, order);
    ComparisonsPartition(p, solve, f, order);
    assert ExactlyOneLeaf(x, input);
    i :| SatisfiedLeaf(x, input, i);
    var path := EveryNodeHasPath(p, solve, f, order, i);
    RunsToItsLeaf(p, f, x, input, i, path);
    forall j: nat | RunsTo(p, f, x, input, j)
      ensures j == i
    {
      var other :| EndsAt(p, f, x.nodes[j], other) && Follow(p, Start(p, f, input), other).On?;
      RunsToItsLeaf(p, f, x, input, j, other);
      assert SatisfiedLeaf(x, input, j);
    }
  }

  // ----- An exact solver -----

  /** A leaf that an exact solver has marked infeasible is one. */
  lemma MarksAreRight(p: Program, solve: Solver, f: FunctionId, order: seq<nat>, i: nat)
    requires WellFormed(p) && f < |p.functions| && BranchesCompare(p) && Exact(solve)
    requires i < |Explore(p, solve, f, order).nodes|
    ensures var t := Explore(p, solve, f, order).nodes[i];
            IsLeaf(t) && !t.satisfiable ==> forall input: Input :: !Satisfies(t.node.state.constraints, input)
  {
    hide BranchesCompare, Exact, Conditions, Explore, Satisfies, IsLeaf;
    var x := Explore(p, solve, f, order);
    MarksMean(p, solve, f, order, i);
    ExploredAreUndecided(p, solve, f, order);
    if IsFalseSide(p, x, i) {
      var parent := x.nodes[x.nodes[i].parent];
      BranchTestsCondition(p, parent.node.block, parent.node.ip - 1);
      assert LiteralAllows(p, parent, false);
    }
  }

  /** With an exact solver the leaves it calls feasible partition the inputs by
      themselves: the one leaf an input satisfies is never marked. */
  lemma FeasibleLeavesPartition(p: Program, solve: Solver, f: FunctionId, order: seq<nat>, input: Input)
    requires WellFormed(p) && f < |p.functions| && BranchesCompare(p) && Exact(solve)
    ensures var x := Explore(p, solve, f, order);
            && ExactlyOneLeaf(x, input)
            && forall i: nat :: SatisfiedLeaf(x, input, i) ==> x.nodes[i].satisfiable
  {
    hide BranchesCompare, Exact, Explore;
    ComparisonsPartition(p, solve, f, order);
    var x := Explore(p, solve, f, order);
    forall i: nat | SatisfiedLeaf(x, input, i)
      ensures x.nodes[i].satisfiable
    {
      MarksAreRight(p, solve, f, order, i);
    }
  }
}
