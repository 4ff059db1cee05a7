/**
 Runs under the loop bound: concrete runs that, once the executor's counter is used up,
 leave a loop whatever its condition. They are what the constraint lists of all nodes
 describe, those past a forced exit included.
 */
module BoundedRuns {
  import opened Wrappers
  import opened Program
  import opened ExpressionTree
  import opened Symbolic
  import opened Concrete
  import opened Simulation
  import opened Exploration
  import opened Partition
  import opened TreePaths
  import opened Comparisons

  /** A run and the header and number of its last backward jumps. */
  datatype Bounded = Bounded(frame: Frame, loop: LoopInfo)

  predicate Exits(b: Bounded) {
    b.loop.start == Some(b.frame.block) && b.loop.executions >= MAX_EXECUTIONS
  }

  function NextLoop(p: Program, block: BlockId, loop: LoopInfo, split: Instr): LoopInfo {
    match split
    case Jump(t) =>
      if t < |p.blocks| && block < |p.blocks| && p.blocks[t].line < p.blocks[block].line
      then LoopInfo(Some(t), loop.executions + 1) else loop
    case Branch(_, _, _) => loop
    case _ => NO_LOOP
  }

  datatype BoundedProgress = Goes(edge: Edge, to: Bounded) | Stops | Fails

  /** One block of a bounded run. */
  function BoundedAdvance(p: Program, b: Bounded): (r: BoundedProgress)
    requires WellFormed(p) && FrameInProgram(p, b.frame)
    ensures r.Goes? ==> FrameInProgram(p, r.to.frame)
  {
    var f := b.frame;
    var g := RunStretch(p.blocks[f.block].instrs, f.ip, f.env);
    if g.None? then Fails
    else if g.value.split.None? then Stops
    else
      StretchFacts(p.blocks[f.block].instrs, f.ip, f.env);
      var split := g.value.split.value;
      if split.Branch? && Exits(b) then Goes(Taken(false), Bounded(Frame(split.els, 0, g.value.env, f.caller), b.loop))
      else
        match Transfer(p, f.(ip := g.value.ip, env := g.value.env), split)
        case Moved(e, to) => Goes(e, Bounded(to, NextLoop(p, f.block, b.loop, split)))
        case Halted => Stops
        case Wrong => Fails
  }

  datatype Place = At(run: Bounded) | Elsewhere | Broken

  /** Where a bounded run stands after as many blocks as a path has edges. */
  function FollowBounded(p: Program, f: FunctionId, input: Input, path: seq<Edge>): (r: Place)
    requires WellFormed(p) && f < |p.functions|
    ensures r.At? ==> FrameInProgram(p, r.run.frame)
  {
    if path == [] then At(Bounded(Start(p, f, input), NO_LOOP))
    else
      var last := |path| - 1;
      var before := FollowBounded(p, f, input, path[..last]);
      if !before.At? then before
      else
        match BoundedAdvance(p, before.run)
        case Goes(e, to) => if e == path[last] then At(to) else Elsewhere
        case Stops => Elsewhere
        case Fails => Broken
  }

  /** While the bound forces no exit, a bounded run is the run. */
  lemma {:induction false} UnforcedRunsAreBounded(p: Program, f: FunctionId, input: Input, path: seq<Edge>)
    requires WellFormed(p) && f < |p.functions|
    requires forall k :: 0 <= k < |path| ==> var b := FollowBounded(p, f, input, path[..k]); b.At? ==> !Exits(b.run)
    ensures var run, b := Follow(p, Start(p, f, input), path), FollowBounded(p, f, input, path);
            run.On? == b.At? && run.Faulted? == b.Broken? && (run.On? ==> run.frame == b.run.frame)
  {
    if path != [] {
      var init := path[..|path| - 1];
      assert forall k :: 0 <= k <= |init| ==> path[..k] == init[..k];
      assert init[..|init|] == init;
      UnforcedRunsAreBounded(p, f, input, init);
    }
  }

  ghost predicate BoundedModels(n: Node, b: Bounded, input: Input) {
    Models(n, b.frame, input) && n.loop == b.loop
  }

  lemma ChildLoop(p: Program, n: Node, e: Edge)
    requires WellFormed(p) && InProgram(p, n) && ChildAlong(Children(p, n), e).Some?
    ensures ChildAlong(Children(p, n), e).value.loop == NextLoop(p, n.block, n.loop, NodeSegment(p, n).split.value)
  {
    hide CallState, ReturnState, BranchState;
    ChildAlongIsChild(Children(p, n), e);
  }

  /** A forced exit: the one child repeats the list, and the bounded run goes there. */
  lemma ForcedExitSimulates(p: Program, n: Node, b: Bounded, e: Edge, input: Input)
    requires WellFormed(p) && Supported(p) && InProgram(p, n) && FrameInProgram(p, b.frame)
    requires BoundedModels(n, b, input) && NodeKeepsOperands(p, n)
    requires !Unforced(p, n) && ChildAlong(Children(p, n), e).Some? && !BoundedAdvance(p, b).Fails?
    ensures var child, r := ChildAlong(Children(p, n), e).value, BoundedAdvance(p, b);
            && child.state.constraints == n.state.constraints
            && r.Goes? && r.edge == e && BoundedModels(child, r.to, input)
  {
    var instrs, f := p.blocks[n.block].instrs, b.frame;
    assert forall i :: 0 <= i < |instrs| ==> SupportedInstr(instrs[i]);
    SegmentSimulates(instrs, n.ip, n.state, f.env, input);
    SegmentFacts(instrs, n.ip, n.state);
    ChildAlongIsChild(Children(p, n), e);
  }

  /** Any other edge: constrained, or on a literal condition. */
  lemma FreeEdgeSimulates(p: Program, n: Node, b: Bounded, e: Edge, input: Input)
    requires WellFormed(p) && Supported(p) && InProgram(p, n) && FrameInProgram(p, b.frame)
    requires BoundedModels(n, b, input) && NodeKeepsOperands(p, n) && Nested(n) && Satisfies(n.state.constraints, input)
    requires Unforced(p, n) && ChildAlong(Children(p, n), e).Some? && !BoundedAdvance(p, b).Fails?
    ensures var child, r := ChildAlong(Children(p, n), e).value, BoundedAdvance(p, b);
            && (r.Goes? && r.edge == e ==> BoundedModels(child, r.to, input) && Satisfies(child.state.constraints, input))
            && (Guided(p, n, e) && Satisfies(child.state.constraints, input) ==> r.Goes? && r.edge == e)
            && (!Guided(p, n, e) ==> (r.Goes? && r.edge == e <==> SideHolds(p, n, e, input)))
  {
    hide Guided, SideHolds;
    var instrs, f := p.blocks[n.block].instrs, b.frame;
    assert forall i :: 0 <= i < |instrs| ==> SupportedInstr(instrs[i]);
    SegmentSimulates(instrs, n.ip, n.state, f.env, input);
    SegmentFacts(instrs, n.ip, n.state);
    ChildLoop(p, n, e);
    AdvanceSimulates(p, n, f, e, input);
    if !Guided(p, n, e) {
      SilentSideIsTakenIff(p, n, f, e, input);
    }
  }

  /** The sides of literal conditions along the path are the ones that hold. */
  predicate LiteralSidesHold(p: Program, root: Node, path: seq<Edge>, input: Input)
    requires WellFormed(p) && InProgram(p, root)
  {
    path != [] ==>
      var before, e := NodeAt(p, root, path[..|path| - 1]), path[|path| - 1];
      && LiteralSidesHold(p, root, path[..|path| - 1], input)
      && (before.Some? && Unforced(p, before.value) && !Guided(p, before.value, e) ==> SideHolds(p, before.value, e, input))
  }

  /** The simulation theorem without a word about loops: an input whose bounded run does
      not go wrong takes exactly the node's path if and only if it satisfies the node's
      constraints and the path's literal conditions hold, and then the node's map is the
      run's memory. */
  lemma {:induction false} BoundedSimulation(p: Program, f: FunctionId, input: Input, path: seq<Edge>)
    requires WellFormed(p) && Supported(p) && f < |p.functions|
    requires Faithful(p, Root(p, f), path) && NodeAt(p, Root(p, f), path).Some?
    requires !FollowBounded(p, f, input, path).Broken?
    ensures Nested(NodeAt(p, Root(p, f), path).value)
    ensures var n, run := NodeAt(p, Root(p, f), path).value, FollowBounded(p, f, input, path);
            && (run.At? <==> Satisfies(n.state.constraints, input) && LiteralSidesHold(p, Root(p, f), path, input))
            && (run.At? ==> BoundedModels(n, run.run, input))
  {
    hide Models, Satisfies, NodeKeepsOperands, Guided, SideHolds, Unforced, Children, BoundedAdvance, Nested, Supported;
    if path == [] {
      StartIsModelled(p, f, input);
    } else {
      var init, e := path[..|path| - 1], path[|path| - 1];
      BoundedSimulation(p, f, input, init);
      var before, run := NodeAt(p, Root(p, f), init).value, FollowBounded(p, f, input, init);
      ConstraintsGrow(p, before, e, input);
      if run.At? {
        if Unforced(p, before) {
          FreeEdgeSimulates(p, before, run.run, e, input);
          if !Guided(p, before, e) {
            UnguidedRepeats(p, before, e);
          }
        } else {
          ForcedExitSimulates(p, before, run.run, e, input);
        }
      }
    }
  }

  lemma {:induction false} NoLiteralSides(p: Program, f: FunctionId, path: seq<Edge>, input: Input)
    requires WellFormed(p) && f < |p.functions| && BranchesCompare(p)
    ensures LiteralSidesHold(p, Root(p, f), path, input)
  {
    hide BranchesCompare, Conditions, Guided, SideHolds, Unforced;
    if path != [] {
      var before := NodeAt(p, Root(p, f), path[..|path| - 1]);
      NoLiteralSides(p, f, path[..|path| - 1], input);
      if before.Some? && Unforced(p, before.value) {
        PathsAreUndecided(p, f, path[..|path| - 1]);
        UndecidedIsGuided(p, before.value, path[|path| - 1]);
      }
    }
  }

  /** When branches test comparisons, the constraints alone say which bounded runs take the
      path. */
  lemma ComparisonsSimulateBounded(p: Program, f: FunctionId, input: Input, path: seq<Edge>)
    requires WellFormed(p) && Supported(p) && f < |p.functions| && BranchesCompare(p)
    requires Faithful(p, Root(p, f), path) && NodeAt(p, Root(p, f), path).Some?
    requires !FollowBounded(p, f, input, path).Broken?
    ensures var n, run := NodeAt(p, Root(p, f), path).value, FollowBounded(p, f, input, path);
            && (run.At? <==> Satisfies(n.state.constraints, input))
            && (run.At? ==> BoundedModels(n, run.run, input))
  {
    hide BranchesCompare, FollowBounded, Faithful, NodeAt;
    BoundedSimulation(p, f, input, path);
    NoLiteralSides(p, f, path, input);
  }

  lemma {:induction false} OneRunIsModelled(n: Node, f: Frame, g: Frame, input: Input)
    requires Models(n, f, input) && Models(n, g, input)
    ensures f == g
  {
    if n.caller.Some? {
      OneRunIsModelled(n.caller.value, f.caller.value, g.caller.value, input);
    }
    assert f.env == g.env;
  }

  lemma {:induction false} SilentSidesAreMore(p: Program, root: Node, path: seq<Edge>, input: Input)
    requires WellFormed(p) && InProgram(p, root) && SilentSidesHold(p, root, path, input)
    ensures LiteralSidesHold(p, root, path, input)
  {
    hide Guided, SideHolds, Unforced;
    if path != [] {
      SilentSidesAreMore(p, root, path[..|path| - 1], input);
    }
  }

  /** The two kinds of run against each other: of the inputs whose bounded run takes a
      path, the program's own run takes it for exactly those that choose its forced exits
      themselves, and then the two runs are the same. */
  lemma RunIsBoundedIff(p: Program, f: FunctionId, input: Input, path: seq<Edge>)
    requires WellFormed(p) && Supported(p) && f < |p.functions|
    requires Faithful(p, Root(p, f), path) && NodeAt(p, Root(p, f), path).Some?
    requires !FollowBounded(p, f, input, path).Broken? && !Follow(p, Start(p, f, input), path).Faulted?
    ensures var run, b := Follow(p, Start(p, f, input), path), FollowBounded(p, f, input, path);
            && (run.On? <==> b.At? && SilentSidesHold(p, Root(p, f), path, input))
            && (run.On? ==> run.frame == b.run.frame)
  {
    hide Faithful, NodeAt, Follow, FollowBounded, SilentSidesHold, LiteralSidesHold, Satisfies, Models;
    Simulation.Simulation(p, f, input, path);
    BoundedSimulation(p, f, input, path);
    if SilentSidesHold(p, Root(p, f), path, input) {
      SilentSidesAreMore(p, Root(p, f), path, input);
    }
    var run, b := Follow(p, Start(p, f, input), path), FollowBounded(p, f, input, path);
    if run.On? {
      OneRunIsModelled(NodeAt(p, Root(p, f), path).value, run.frame, b.run.frame, input);
    }
  }

  // ----- Bounded runs and leaves -----

  /** The input's bounded run ends up at leaf `i`, along some path to it. */
  ghost predicate BoundedRunsTo(p: Program, f: FunctionId, x: Exploration, input: Input, i: nat)
    requires WellFormed(p) && f < |p.functions|
  {
    && i < |x.nodes| && IsLeaf(x.nodes[i])
    && exists path :: EndsAt(p, f, x.nodes[i], path) && FollowBounded(p, f, input, path).At?
  }

  /** The path drops no operand, and the input's bounded run along it does not go wrong. */
  predicate Sane(p: Program, f: FunctionId, input: Input, path: seq<Edge>)
    requires WellFormed(p) && f < |p.functions|
  {
    Faithful(p, Root(p, f), path) && !FollowBounded(p, f, input, path).Broken?
  }

  lemma BoundedRunsToItsLeaf(p: Program, f: FunctionId, x: Exploration, input: Input, i: nat, path: seq<Edge>)
    requires WellFormed(p) && Supported(p) && f < |p.functions| && BranchesCompare(p)
    requires i < |x.nodes| && EndsAt(p, f, x.nodes[i], path) && Sane(p, f, input, path)
    ensures Satisfies(x.nodes[i].node.state.constraints, input) <==> FollowBounded(p, f, input, path).At?
  {
    hide Faithful, NodeAt, FollowBounded, BranchesCompare;
    ComparisonsSimulateBounded(p, f, input, path);
  }

  /** In any reachable tree that drops no operand, loops or not, each input whose bounded
      run does not go wrong runs to exactly one leaf: no run is missed and none is
      explored twice. */
  lemma EveryBoundedRunHasOneLeaf(p: Program, solve: Solver, f: FunctionId, order: seq<nat>, input: Input) returns (i: nat)
    requires WellFormed(p) && Supported(p) && f < |p.functions| && BranchesCompare(p)
    requires forall k, path :: 0 <= k < |Explore(p, solve, f, order).nodes| && EndsAt(p, f, Explore(p, solve, f, order).nodes[k], path) ==>
               Sane(p, f, input, path)
    ensures BoundedRunsTo(p, f, Explore(p, solve, f, order), input, i)
    ensures forall j: nat :: BoundedRunsTo(p, f, Explore(p, solve, f, order), input, j) ==> j == i
  {
    hide Explore, EndsAt, Sane, FollowBounded, BranchesCompare, IsLeaf, Satisfies;
    var x := Explore(p, solve, f, order);
    ComparisonsPartition(p, solve, f, order);
    assert ExactlyOneLeaf(x, input);
    i :| SatisfiedLeaf(x, input, i);
    var path := EveryNodeHasPath(p, solve, f, order, i);
    BoundedRunsToItsLeaf(p, f, x, input, i, path);
    forall j: nat | BoundedRunsTo(p, f, x, input, j)
      ensures j == i
    {
      var other :| EndsAt(p, f, x.nodes[j], other) && FollowBounded(p, f, input, other).At?;
      BoundedRunsToItsLeaf(p, f, x, input, j, other);
      assert SatisfiedLeaf(x, input, j);
    }
  }
}
