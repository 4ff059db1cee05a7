/**
 When a round without a step limit ends: exactly when the nodes it may execute lie on a
 bounded number of levels. Then it ends from every tree reached before, too, within a
 number of steps known beforehand.
 */
module Termination {
  import opened Wrappers
  import opened Program
  import opened Symbolic
  import opened Exploration
  import opened Scheduler
  import opened Resume

  /** Some number of steps leaves nothing in the queue. */
  ghost predicate Ends(p: Program, exec: Executor, mode: Mode, x: Exploration, queue: seq<nat>) {
    && Steady(p, exec) && ValidTree(p, x) && InTree(x, queue)
    && exists n: nat :: Round(p, exec, mode, Work(x, queue, n)).queue == []
  }

  /** A number of steps that is as good as no limit. */
  ghost function Enough(p: Program, exec: Executor, mode: Mode, x: Exploration, queue: seq<nat>): (n: nat)
    requires Ends(p, exec, mode, x, queue)
    ensures Round(p, exec, mode, Work(x, queue, n)).queue == []
  {
    var n: nat :| Round(p, exec, mode, Work(x, queue, n)).queue == [];
    n
  }

  /** All numbers that are give the same tree. */
  lemma EnoughIsEnough(p: Program, exec: Executor, mode: Mode, x: Exploration, queue: seq<nat>, m: nat, n: nat)
    requires Steady(p, exec) && ValidTree(p, x) && InTree(x, queue)
    requires Round(p, exec, mode, Work(x, queue, m)).queue == [] && Round(p, exec, mode, Work(x, queue, n)).queue == []
    ensures Round(p, exec, mode, Work(x, queue, m)).tree == Round(p, exec, mode, Work(x, queue, n)).tree
  {
    hide Round;
    if m < n {
      MoreIsTheSame(p, exec, mode, x, queue, m, n);
    } else {
      MoreIsTheSame(p, exec, mode, x, queue, n, m);
    }
  }

  lemma MoreIsTheSame(p: Program, exec: Executor, mode: Mode, x: Exploration, queue: seq<nat>, m: nat, n: nat)
    requires Steady(p, exec) && ValidTree(p, x) && InTree(x, queue) && m <= n
    requires Round(p, exec, mode, Work(x, queue, m)).queue == []
    ensures Round(p, exec, mode, Work(x, queue, n)).tree == Round(p, exec, mode, Work(x, queue, m)).tree
  {
    hide Round;
    var r := Round(p, exec, mode, Work(x, queue, m));
    RoundContinues(p, exec, mode, Work(x, queue, m), r, n - m);
    assert Work(x, queue, m).(steps := m + (n - m)) == Work(x, queue, n);
    RoundStops(p, exec, mode, r.(steps := r.steps + (n - m)));
  }

  // ----- Levels -----

  /** Whether execution will call child `i` feasible. */
  predicate FeasibleChild(p: Program, solve: Solver, n: Node, i: nat)
    requires WellFormed(p) && InProgram(p, n) && i < |Children(p, n)|
  {
    ChildFeasible(solve, Executed(p, n), NodeSegment(p, n).split.value, Children(p, n)[i].edge)
  }

  /** From the node on at most `k` levels of nodes are to be executed; skipped blocks and
      infeasible nodes have none below. */
  predicate Within(p: Program, solve: Solver, skipped: set<BlockId>, n: Node, k: nat)
    requires WellFormed(p) && InProgram(p, n)
    decreases k
  {
    n.block in skipped
    || (k > 0 && forall i :: 0 <= i < |Children(p, n)| && FeasibleChild(p, solve, n, i) ==>
                   Within(p, solve, skipped, Children(p, n)[i].node, k - 1))
  }

  lemma {:induction false} WithinMore(p: Program, solve: Solver, skipped: set<BlockId>, n: Node, k: nat)
    requires WellFormed(p) && InProgram(p, n) && Within(p, solve, skipped, n, k)
    ensures Within(p, solve, skipped, n, k + 1)
    decreases k
  {
    if n.block !in skipped {
      forall i | 0 <= i < |Children(p, n)| && FeasibleChild(p, solve, n, i)
        ensures Within(p, solve, skipped, Children(p, n)[i].node, k)
      {
        WithinMore(p, solve, skipped, Children(p, n)[i].node, k - 1);
      }
    }
  }

  lemma {:induction false} WithinUpTo(p: Program, solve: Solver, skipped: set<BlockId>, n: Node, k: nat, m: nat)
    requires WellFormed(p) && InProgram(p, n) && Within(p, solve, skipped, n, k) && k <= m
    ensures Within(p, solve, skipped, n, m)
    decreases m
  {
    hide Within;
    if k < m {
      WithinUpTo(p, solve, skipped, n, k, m - 1);
      WithinMore(p, solve, skipped, n, m - 1);
    }
  }

  /** Skipping more leaves no more levels. */
  lemma {:induction false} WithinSkippingMore(p: Program, solve: Solver, few: set<BlockId>, many: set<BlockId>, n: Node, k: nat)
    requires WellFormed(p) && InProgram(p, n) && Within(p, solve, few, n, k) && few <= many
    ensures Within(p, solve, many, n, k)
    decreases k
  {
    if n.block !in many {
      forall i | 0 <= i < |Children(p, n)| && FeasibleChild(p, solve, n, i)
        ensures Within(p, solve, many, Children(p, n)[i].node, k - 1)
      {
        WithinSkippingMore(p, solve, few, many, Children(p, n)[i].node, k - 1);
      }
    }
  }

  // ----- Bounded levels end -----

  function Power2(n: nat): (r: nat)
    ensures r > 0
  {
    if n == 0 then 1 else 2 * Power2(n - 1)
  }

  function Sum(s: seq<nat>): nat {
    if s == [] then 0 else Sum(s[..|s| - 1]) + s[|s| - 1]
  }

  lemma {:induction false} SumUpdate(s: seq<nat>, i: nat, v: nat)
    requires i < |s|
    ensures Sum(s[i := v]) + s[i] == Sum(s) + v
  {
    var last := |s| - 1;
    if i == last {
      assert s[i := v][..last] == s[..last];
    } else {
      SumUpdate(s[..last], i, v);
      assert s[i := v][..last] == s[..last][i := v];
    }
  }

  lemma {:induction false} SumAppend(s: seq<nat>, t: seq<nat>)
    ensures Sum(s + t) == Sum(s) + Sum(t)
  {
    if t == [] {
      assert s + t == s;
    } else {
      SumAppend(s, t[..|t| - 1]);
      assert (s + t)[..|s + t| - 1] == s + t[..|t| - 1];
    }
  }

  /** The executions a node can still cause, itself included, at most. */
  function Cost(t: TreeNode, level: nat): nat {
    if t.executed then 0 else if t.satisfiable then 2 * Power2(level) - 1 else 1
  }

  function Costs(nodes: seq<TreeNode>, levels: seq<nat>): (costs: seq<nat>)
    requires |levels| == |nodes|
    ensures |costs| == |nodes|
  {
    seq(|nodes|, i requires 0 <= i < |nodes| => Cost(nodes[i], levels[i]))
  }

  /** Every pending feasible node has its number of levels. */
  ghost predicate Leveled(p: Program, solve: Solver, skipped: set<BlockId>, x: Exploration, levels: seq<nat>)
    requires WellFormed(p)
  {
    && |levels| == |x.nodes|
    && forall i :: 0 <= i < |x.nodes| && !x.nodes[i].executed && x.nodes[i].satisfiable ==>
         InProgram(p, x.nodes[i].node) && Within(p, solve, skipped, x.nodes[i].node, levels[i])
  }

  /** The levels after an execution: one less for each child. */
  function Deepen(levels: seq<nat>, id: nat, added: nat): seq<nat>
    requires id < |levels|
  {
    levels + seq(added, _ => if levels[id] > 0 then levels[id] - 1 else 0)
  }

  lemma ExecuteKeepsLeveled(p: Program, solve: Solver, skipped: set<BlockId>, x: Exploration, id: nat, levels: seq<nat>)
    requires WellFormed(p) && Pending(x, id) && InProgram(p, x.nodes[id].node) && Leveled(p, solve, skipped, x, levels)
    requires Steps(x, id, ExecuteNode(p, solve, x, id)) && x.nodes[id].node.block !in skipped
    ensures var y := ExecuteNode(p, solve, x, id);
            && Leveled(p, solve, skipped, y, Deepen(levels, id, |y.nodes| - |x.nodes|))
            && (|y.nodes| > |x.nodes| ==> x.nodes[id].satisfiable && levels[id] > 0)
  {
    hide Successors, NodeSegment, Executed, Marked, ChildFeasible;
    var t, y := x.nodes[id], ExecuteNode(p, solve, x, id);
    forall i | |x.nodes| <= i < |y.nodes| && y.nodes[i].satisfiable
      ensures InProgram(p, y.nodes[i].node) && Within(p, solve, skipped, y.nodes[i].node, levels[id] - 1)
    {
      assert FeasibleChild(p, solve, t.node, i - |x.nodes|);
    }
  }

  /** An execution lowers what all nodes can still cause. */
  lemma StepLowersCost(x: Exploration, id: nat, y: Exploration, levels: seq<nat>)
    requires Steps(x, id, y) && |levels| == |x.nodes|
    requires |y.nodes| > |x.nodes| ==> x.nodes[id].satisfiable && levels[id] > 0
    ensures Sum(Costs(y.nodes, Deepen(levels, id, |y.nodes| - |x.nodes|))) < Sum(Costs(x.nodes, levels))
  {
    var n := |y.nodes| - |x.nodes|;
    var before, after := Costs(x.nodes, levels), Costs(y.nodes, Deepen(levels, id, n));
    var added := after[|x.nodes|..];
    assert after == before[id := 0] + added;
    SumUpdate(before, id, 0);
    SumAppend(before[id := 0], added);
    forall k | 0 <= k < |added|
      ensures added[k] < Power2(levels[id])
    {
      ChildIsCheaper(y.nodes[|x.nodes| + k], levels[id]);
    }
    ChildrenAreCheaper(added, levels[id]);
  }

  lemma ChildIsCheaper(t: TreeNode, level: nat)
    requires level > 0
    ensures Cost(t, level - 1) < Power2(level)
  {
  }

  lemma ChildrenAreCheaper(added: seq<nat>, level: nat)
    requires |added| <= 2 && (added != [] ==> level > 0)
    requires forall k :: 0 <= k < |added| ==> added[k] < Power2(level)
    ensures Sum(added) < 2 * Power2(level) - 1
  {
    if |added| == 1 {
      assert added[..0] == [];
    } else if |added| == 2 {
      var first := added[..1];
      assert first[..0] == [] && Sum(added) == Sum(first) + added[1] && Sum(first) == 0 + added[0];
    }
  }

  /** A round with more steps than that leaves nothing in the queue. */
  lemma {:induction false} RoundExhausts(p: Program, solve: Solver, mode: Mode, w: Work, levels: seq<nat>)
    requires WellFormed(p) && ValidWork(p, w) && Steady(p, BlockExecutor(p, solve))
    requires Leveled(p, solve, mode.excluded, w.tree, levels) && w.steps > Sum(Costs(w.tree.nodes, levels))
    ensures Round(p, BlockExecutor(p, solve), mode, w).queue == []
    decreases w.steps, QueueWeight(p, w.tree, w.queue)
  {
    if w.queue != [] {
      var exec := BlockExecutor(p, solve);
      var next := Turn(p, exec, mode, w);
      RoundUnrolls(p, exec, mode, w);
      var id := w.queue[0];
      if !Excluded(mode, w.tree, id) && !w.tree.nodes[id].executed {
        ExecuteKeepsLeveled(p, solve, mode.excluded, w.tree, id, levels);
        StepLowersCost(w.tree, id, next.tree, levels);
        RoundExhausts(p, solve, mode, next, Deepen(levels, id, |next.tree.nodes| - |w.tree.nodes|));
      } else {
        RoundExhausts(p, solve, mode, next, levels);
      }
    }
  }

  lemma RootIsLeveled(p: Program, solve: Solver, skipped: set<BlockId>, f: FunctionId, k: nat)
    requires WellFormed(p) && f < |p.functions| && Within(p, solve, skipped, Root(p, f), k)
    ensures Leveled(p, solve, skipped, Initial(p, f), [k])
    ensures Sum(Costs(Initial(p, f).nodes, [k])) == 2 * Power2(k) - 1
  {
    hide Within;
    var costs := Costs(Initial(p, f).nodes, [k]);
    assert costs[..0] == [];
  }

  lemma StepLogs(x: Exploration, id: nat, y: Exploration)
    requires Steps(x, id, y)
    ensures y.log == x.log + [id] && |x.nodes| <= |y.nodes|
  {
  }

  /** In every tree reached from a root with `k` levels, the executions so far and those
      still possible are bounded alike. */
  lemma {:induction false} ReachedIsLeveled(p: Program, solve: Solver, f: FunctionId, order: seq<nat>, k: nat) returns (levels: seq<nat>)
    requires WellFormed(p) && f < |p.functions| && Within(p, solve, {}, Root(p, f), k)
    ensures var x := Explore(p, solve, f, order);
            Leveled(p, solve, {}, x, levels) && |x.log| + Sum(Costs(x.nodes, levels)) < 2 * Power2(k)
  {
    hide Within, ExecuteNode, Steps, Costs, Deepen, ValidTree;
    if order == [] {
      levels := [k];
      RootIsLeveled(p, solve, {}, f, k);
    } else {
      var id, x := order[|order| - 1], Explore(p, solve, f, order[..|order| - 1]);
      levels := ReachedIsLeveled(p, solve, f, order[..|order| - 1], k);
      if Pending(x, id) {
        ExecuteKeepsValid(p, solve, x, id);
        var y := ExecuteNode(p, solve, x, id);
        assert y.log == x.log + [id] && |x.nodes| <= |y.nodes| by {
          StepLogs(x, id, y);
        }
        ExecuteKeepsLeveled(p, solve, {}, x, id, levels);
        StepLowersCost(x, id, y, levels);
        levels := Deepen(levels, id, |y.nodes| - |x.nodes|);
      }
    }
  }

  /** From a root with `k` levels, 2 to the power of k + 1 steps are as good as no limit: from
      every tree reached, from any of its nodes, they leave nothing in the queue. */
  lemma BoundedLevelsEnd(p: Program, solve: Solver, mode: Mode, f: FunctionId, order: seq<nat>, queue: seq<nat>, k: nat)
    requires WellFormed(p) && f < |p.functions| && Within(p, solve, {}, Root(p, f), k)
    requires InTree(Explore(p, solve, f, order), queue)
    ensures Steady(p, BlockExecutor(p, solve))
    ensures Round(p, BlockExecutor(p, solve), mode, Work(Explore(p, solve, f, order), queue, 2 * Power2(k))).queue == []
    ensures Ends(p, BlockExecutor(p, solve), mode, Explore(p, solve, f, order), queue)
  {
    hide Explore, Round, Within;
    BlockExecutorIsSteady(p, solve);
    var x := Explore(p, solve, f, order);
    var levels := ReachedIsLeveled(p, solve, f, order, k);
    LeveledSkippingMore(p, solve, mode.excluded, x, levels);
    RoundExhausts(p, solve, mode, Work(x, queue, 2 * Power2(k)), levels);
  }

  lemma LeveledSkippingMore(p: Program, solve: Solver, skipped: set<BlockId>, x: Exploration, levels: seq<nat>)
    requires WellFormed(p) && Leveled(p, solve, {}, x, levels)
    ensures Leveled(p, solve, skipped, x, levels)
  {
    hide Within;
    forall i | 0 <= i < |x.nodes| && !x.nodes[i].executed && x.nodes[i].satisfiable
      ensures Within(p, solve, skipped, x.nodes[i].node, levels[i])
    {
      WithinSkippingMore(p, solve, {}, skipped, x.nodes[i].node, levels[i]);
    }
  }

  // ----- Only bounded levels end -----

  /** What a turn leaves in the queue: all but its first node, and what it pushes. */
  lemma TurnKeepsQueued(p: Program, mode: Mode, w: Work, next: Work, id: nat)
    requires TurnsTo(mode, w, next) && id in w.queue && id != w.queue[0] && id < |w.tree.nodes|
    ensures id in next.queue && id < |next.tree.nodes| && next.tree.nodes[id] == w.tree.nodes[id]
  {
    assert id in w.queue[1..];
  }

  lemma TurnQueuesChildren(mode: Mode, w: Work, next: Work)
    requires TurnsTo(mode, w, next) && !Excluded(mode, w.tree, w.queue[0]) && !w.tree.nodes[w.queue[0]].executed
    ensures forall i: nat :: |w.tree.nodes| <= i < |next.tree.nodes| ==> i in next.queue
  {
  }

  lemma NodeIsWithin(p: Program, solve: Solver, mode: Mode, w: Work, next: Work)
    requires WellFormed(p) && ValidWork(p, w) && w.queue != [] && w.steps > 0
    requires Steady(p, BlockExecutor(p, solve)) && next == Turn(p, BlockExecutor(p, solve), mode, w)
    requires !w.tree.nodes[w.queue[0]].executed && w.tree.nodes[w.queue[0]].satisfiable && InProgram(p, w.tree.nodes[w.queue[0]].node)
    requires !Excluded(mode, w.tree, w.queue[0]) ==>
               forall i :: |w.tree.nodes| <= i < |next.tree.nodes| && next.tree.nodes[i].satisfiable ==>
                 InProgram(p, next.tree.nodes[i].node) && Within(p, solve, mode.excluded, next.tree.nodes[i].node, w.steps - 1)
    ensures Within(p, solve, mode.excluded, w.tree.nodes[w.queue[0]].node, w.steps)
  {
    hide Successors, NodeSegment, Executed, Marked, ChildFeasible, PushChildren, ValidTree, Steady;
    var t := w.tree.nodes[w.queue[0]];
    if t.node.block !in mode.excluded {
      forall i | 0 <= i < |Children(p, t.node)| && FeasibleChild(p, solve, t.node, i)
        ensures Within(p, solve, mode.excluded, Children(p, t.node)[i].node, w.steps - 1)
      {
        var c := next.tree.nodes[|w.tree.nodes| + i];
        assert c.node == Children(p, t.node)[i].node && c.satisfiable;
      }
    }
  }

  /** A round that leaves nothing in the queue has gone through every level below the
      nodes it started with: there are no more levels than steps. */
  lemma {:induction false} FinishedIsWithin(p: Program, solve: Solver, mode: Mode, w: Work, id: nat)
    requires WellFormed(p) && ValidWork(p, w) && Steady(p, BlockExecutor(p, solve))
    requires Round(p, BlockExecutor(p, solve), mode, w).queue == []
    requires id in w.queue && Pending(w.tree, id) && w.tree.nodes[id].satisfiable
    ensures InProgram(p, w.tree.nodes[id].node)
    ensures Within(p, solve, mode.excluded, w.tree.nodes[id].node, w.steps)
    decreases w.steps, QueueWeight(p, w.tree, w.queue)
  {
    hide Within, Round, Turn, BlockExecutor, PushChildren, QueueWeight;
    var exec, t := BlockExecutor(p, solve), w.tree.nodes[id];
    assert NodeValid(p, w.tree, id);
    RoundStops(p, exec, mode, w);
    RoundUnrolls(p, exec, mode, w);
    TurnTurns(p, exec, mode, w);
    var next := Turn(p, exec, mode, w);
    if w.queue[0] != id {
      TurnKeepsQueued(p, mode, w, next, id);
      FinishedIsWithin(p, solve, mode, next, id);
      if next.steps < w.steps {
        WithinMore(p, solve, mode.excluded, t.node, next.steps);
      }
    } else {
      if !Excluded(mode, w.tree, id) {
        TurnQueuesChildren(mode, w, next);
        forall i | |w.tree.nodes| <= i < |next.tree.nodes| && next.tree.nodes[i].satisfiable
          ensures InProgram(p, next.tree.nodes[i].node) && Within(p, solve, mode.excluded, next.tree.nodes[i].node, w.steps - 1)
        {
          FinishedIsWithin(p, solve, mode, next, i);
        }
      }
      NodeIsWithin(p, solve, mode, w, next);
    }
  }

  /** Unlimited exploration of a function ends if and only if the nodes it may execute lie
      on a bounded number of levels. */
  lemma EndsIffBounded(p: Program, solve: Solver, mode: Mode, f: FunctionId)
    requires WellFormed(p) && f < |p.functions|
    ensures Ends(p, BlockExecutor(p, solve), mode, Initial(p, f), [0])
       <==> exists k: nat :: Within(p, solve, mode.excluded, Root(p, f), k)
  {
    hide Within, Round;
    var exec, x := BlockExecutor(p, solve), Initial(p, f);
    BlockExecutorIsSteady(p, solve);
    InitialIsValid(p, f);
    if Ends(p, exec, mode, x, [0]) {
      var n := Enough(p, exec, mode, x, [0]);
      FinishedIsWithin(p, solve, mode, Work(x, [0], n), 0);
    }
    if k: nat :| Within(p, solve, mode.excluded, Root(p, f), k) {
      RootIsLeveled(p, solve, mode.excluded, f, k);
      RoundExhausts(p, solve, mode, Work(x, [0], 2 * Power2(k)), [k]);
    }
  }
}
