/**
 What an unlimited round has explored when it ends: every block that some input runs
 into, up to where its run under the loop bound stops, but for what is excluded.
 */
module Completeness {
  import opened Wrappers
  import opened Program
  import opened ExpressionTree
  import opened Symbolic
  import opened Concrete
  import opened Simulation
  import opened Exploration
  import opened Partition
  import opened Scheduler
  import opened Resume
  import opened Termination
  import opened LoopBound
  import opened TreePaths
  import opened Feasibility
  import opened Comparisons
  import opened BoundedRuns

  /** Unlimited exploration of the function ends. */
  ghost predicate Finite(p: Program, solve: Solver, mode: Mode, f: FunctionId)
    requires WellFormed(p) && f < |p.functions|
  {
    Ends(p, BlockExecutor(p, solve), mode, Initial(p, f), [0])
  }

  /** The tree it ends with. */
  ghost function FullTree(p: Program, solve: Solver, mode: Mode, f: FunctionId): Exploration
    requires WellFormed(p) && f < |p.functions| && Finite(p, solve, mode, f)
  {
    var exec, x := BlockExecutor(p, solve), Initial(p, f);
    Round(p, exec, mode, Work(x, [0], Enough(p, exec, mode, x, [0]))).tree
  }

  lemma LoopShapedIsFinite(p: Program, solve: Solver, rank: Ranking, mode: Mode, f: FunctionId)
    requires WellFormed(p) && f < |p.functions| && LoopShaped(p, rank)
    ensures Finite(p, solve, mode, f)
  {
    hide Ends, LoopShaped;
    assert Initial(p, f) == Explore(p, solve, f, []);
    ExplorationTerminates(p, solve, rank, mode, f, [], [0]);
  }

  /** It is reachable, and every node of it that is not excluded has been executed. */
  lemma FullTreeIsExecuted(p: Program, solve: Solver, mode: Mode, f: FunctionId) returns (order: seq<nat>)
    requires WellFormed(p) && f < |p.functions| && Finite(p, solve, mode, f)
    ensures FullTree(p, solve, mode, f) == Explore(p, solve, f, order)
    ensures var x := FullTree(p, solve, mode, f);
            forall i: nat :: i < |x.nodes| ==> x.nodes[i].executed || Excluded(mode, x, i)
  {
    hide Round;
    var exec, x := BlockExecutor(p, solve), Initial(p, f);
    var w := Work(x, [0], Enough(p, exec, mode, x, [0]));
    assert x == Explore(p, solve, f, []);
    order := RoundExplores(p, solve, f, [], mode, w);
    RoundLosesNone(p, exec, mode, w);
  }

  // ----- Where runs stop -----

  /** A run that does not go wrong comes to the same split as the node. */
  lemma {:induction false} SameSplit(instrs: seq<Instr>, ip: nat, s: State, env: Env)
    requires RunStretch(instrs, ip, env).Some?
    ensures RunSegment(instrs, ip, s).split == RunStretch(instrs, ip, env).value.split
    decreases |instrs| - ip
  {
    if ip < |instrs| && !IsSplit(instrs[ip]) {
      SameSplit(instrs, ip + 1, Step(s, instrs[ip]), Exec(env, instrs[ip]).value);
    }
  }

  /** Where a node has no children, its runs stop. */
  lemma ChildlessStops(p: Program, n: Node, b: Bounded, input: Input)
    requires WellFormed(p) && InProgram(p, n) && FrameInProgram(p, b.frame)
    requires BoundedModels(n, b, input) && Children(p, n) == []
    ensures !BoundedAdvance(p, b).Goes?
  {
    var instrs := p.blocks[n.block].instrs;
    if RunStretch(instrs, n.ip, b.frame.env).Some? {
      SameSplit(instrs, n.ip, n.state, b.frame.env);
      SegmentFacts(instrs, n.ip, n.state);
    }
  }

  lemma LeafStops(p: Program, solve: Solver, f: FunctionId, order: seq<nat>, input: Input, i: nat, path: seq<Edge>)
    requires WellFormed(p) && Supported(p) && f < |p.functions| && BranchesCompare(p) && Exact(solve)
    requires i < |Explore(p, solve, f, order).nodes| && IsLeaf(Explore(p, solve, f, order).nodes[i])
    requires EndsAt(p, f, Explore(p, solve, f, order).nodes[i], path) && Sane(p, f, input, path)
    requires FollowBounded(p, f, input, path).At? && Explore(p, solve, f, order).nodes[i].executed
    ensures !BoundedAdvance(p, FollowBounded(p, f, input, path).run).Goes?
  {
    hide Explore, Faithful, NodeAt, Follow, FollowBounded, BranchesCompare, Exact, Satisfies, Children, Executed, BoundedModels, BoundedAdvance;
    var t, n := Explore(p, solve, f, order).nodes[i], NodeAt(p, Root(p, f), path).value;
    ComparisonsSimulateBounded(p, f, input, path);
    MarksAreRight(p, solve, f, order, i);
    assert Children(p, n) == [];
    ChildlessStops(p, n, FollowBounded(p, f, input, path).run, input);
  }

  /** Unlimited exploration is complete: in the tree it ends with, every input whose
      bounded run does not go wrong runs to exactly one leaf, and stops there, unless the
      user has excluded that leaf's block. */
  lemma EveryRunIsExplored(p: Program, solve: Solver, mode: Mode, f: FunctionId, input: Input) returns (i: nat)
    requires WellFormed(p) && Supported(p) && f < |p.functions| && BranchesCompare(p) && Exact(solve)
    requires Finite(p, solve, mode, f)
    requires forall k, path :: 0 <= k < |FullTree(p, solve, mode, f).nodes| && EndsAt(p, f, FullTree(p, solve, mode, f).nodes[k], path) ==>
               Sane(p, f, input, path)
    ensures var x := FullTree(p, solve, mode, f);
            && BoundedRunsTo(p, f, x, input, i) && (forall j: nat :: BoundedRunsTo(p, f, x, input, j) ==> j == i)
            && (Excluded(mode, x, i) || forall path {:trigger EndsAt(p, f, x.nodes[i], path)} ::
                  EndsAt(p, f, x.nodes[i], path) && FollowBounded(p, f, input, path).At? ==>
                    !BoundedAdvance(p, FollowBounded(p, f, input, path).run).Goes?)
  {
    hide Explore, FullTree, EndsAt, Sane, FollowBounded, BranchesCompare, IsLeaf, Satisfies, Finite, Exact, BoundedAdvance;
    var order := FullTreeIsExecuted(p, solve, mode, f);
    var x := FullTree(p, solve, mode, f);
    i := EveryBoundedRunHasOneLeaf(p, solve, f, order, input);
    if !Excluded(mode, x, i) {
      forall path | EndsAt(p, f, x.nodes[i], path) && FollowBounded(p, f, input, path).At?
        ensures !BoundedAdvance(p, FollowBounded(p, f, input, path).run).Goes?
      {
        LeafStops(p, solve, f, order, input, i, path);
      }
    }
  }
}
