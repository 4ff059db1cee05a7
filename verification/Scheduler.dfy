/**
 The exploration loop: a deque of nodes, a bounded number of newly executed nodes
 per round, and the replay of what earlier rounds have executed.
 */
module Scheduler {
  import opened Wrappers
  import opened Program
  import opened Symbolic
  import opened Exploration

  /** How a node is executed, and all the loop relies on: that executing a pending
      node of a valid tree only appends its children and logs it. */
  type Executor = (Exploration, nat) -> Exploration

  ghost predicate Steady(p: Program, exec: Executor) {
    forall x, id :: ValidTree(p, x) && Pending(x, id) ==> Steps(x, id, exec(x, id)) && ValidTree(p, exec(x, id))
  }

  /** The symbolic executor's own way. */
  function BlockExecutor(p: Program, solve: Solver): Executor
    requires WellFormed(p)
  {
    (x: Exploration, id: nat) => if Pending(x, id) && InProgram(p, x.nodes[id].node) then ExecuteNode(p, solve, x, id) else x
  }

  lemma BlockExecutorIsSteady(p: Program, solve: Solver)
    requires WellFormed(p)
    ensures Steady(p, BlockExecutor(p, solve))
  {
    forall x, id | ValidTree(p, x) && Pending(x, id)
      ensures Steps(x, id, BlockExecutor(p, solve)(x, id)) && ValidTree(p, BlockExecutor(p, solve)(x, id))
    {
      ExecuteKeepsValid(p, solve, x, id);
    }
  }

  /** What the user fixes for a round: breadth or depth first, which child comes
      first, and the blocks not to explore. */
  datatype Mode = Mode(bfs: bool, dir: bool, excluded: set<BlockId>)

  /** The state of the loop. */
  datatype Work = Work(tree: Exploration, queue: seq<nat>, steps: nat)

  function Push(mode: Mode, queue: seq<nat>, child: Option<nat>): seq<nat> {
    if child.None? then queue else if mode.bfs then queue + [child.value] else [child.value] + queue
  }

  function PushChildren(mode: Mode, queue: seq<nat>, t: TreeNode): seq<nat> {
    if mode.dir then Push(mode, Push(mode, queue, t.right), t.left)
    else Push(mode, Push(mode, queue, t.left), t.right)
  }

  predicate InTree(x: Exploration, ids: seq<nat>) {
    forall i :: 0 <= i < |ids| ==> ids[i] < |x.nodes|
  }

  ghost predicate ValidWork(p: Program, w: Work) {
    ValidTree(p, w.tree) && InTree(w.tree, w.queue)
  }

  predicate Excluded(mode: Mode, x: Exploration, id: nat)
    requires id < |x.nodes|
  {
    x.nodes[id].node.block in mode.excluded
  }

  /** One turn of the loop. Only a newly executed node costs a step. */
  ghost function Turn(p: Program, exec: Executor, mode: Mode, w: Work): Work
    requires Steady(p, exec) && ValidWork(p, w) && w.queue != [] && w.steps > 0
  {
    var id, rest := w.queue[0], w.queue[1..];
    var t := w.tree.nodes[id];
    if Excluded(mode, w.tree, id) then w.(queue := rest)
    else if t.executed then
      w.(queue := if t.satisfiable then PushChildren(mode, rest, t) else rest)
    else
      var y := exec(w.tree, id);
      Work(y, PushChildren(mode, rest, y.nodes[id]), w.steps - 1)
  }

  lemma PushChildrenInTree(p: Program, x: Exploration, mode: Mode, queue: seq<nat>, id: nat)
    requires InTree(x, queue) && id < |x.nodes| && NodeValid(p, x, id)
    ensures InTree(x, PushChildren(mode, queue, x.nodes[id]))
  {
  }

  lemma TurnKeepsValid(p: Program, exec: Executor, mode: Mode, w: Work)
    requires Steady(p, exec) && ValidWork(p, w) && w.queue != [] && w.steps > 0
    ensures ValidWork(p, Turn(p, exec, mode, w))
  {
    var id, rest := w.queue[0], w.queue[1..];
    assert NodeValid(p, w.tree, id);
    assert InTree(w.tree, rest);
    if Excluded(mode, w.tree, id) {
    } else if w.tree.nodes[id].executed {
      PushChildrenInTree(p, w.tree, mode, rest, id);
    } else {
      var y := exec(w.tree, id);
      assert NodeValid(p, y, id);
      PushChildrenInTree(p, y, mode, rest, id);
    }
  }

  /** The executed part of the subtree a queued node stands for. */
  ghost function Weight(p: Program, x: Exploration, id: nat): nat
    requires ValidTree(p, x) && id < |x.nodes|
    decreases |x.nodes| - id
  {
    assert NodeValid(p, x, id);
    var t := x.nodes[id];
    1 + (if t.left.Some? then Weight(p, x, t.left.value) else 0)
      + (if t.right.Some? then Weight(p, x, t.right.value) else 0)
  }

  ghost function QueueWeight(p: Program, x: Exploration, queue: seq<nat>): nat
    requires ValidTree(p, x) && InTree(x, queue)
  {
    if queue == [] then 0 else Weight(p, x, queue[0]) + QueueWeight(p, x, queue[1..])
  }

  lemma {:induction false} QueueWeightPush(p: Program, x: Exploration, mode: Mode, queue: seq<nat>, child: Option<nat>)
    requires ValidTree(p, x) && InTree(x, queue) && (child.Some? ==> child.value < |x.nodes|)
    ensures InTree(x, Push(mode, queue, child))
    ensures QueueWeight(p, x, Push(mode, queue, child))
         == QueueWeight(p, x, queue) + (if child.Some? then Weight(p, x, child.value) else 0)
  {
    if child.Some? && mode.bfs {
      if queue == [] {
      } else {
        QueueWeightPush(p, x, mode, queue[1..], child);
        assert (queue + [child.value])[1..] == queue[1..] + [child.value];
      }
    }
  }

  /** A turn that costs no step makes the queued executed subtrees smaller. */
  lemma TurnDescends(p: Program, exec: Executor, mode: Mode, w: Work)
    requires Steady(p, exec) && ValidWork(p, w) && w.queue != [] && w.steps > 0
    ensures ValidWork(p, Turn(p, exec, mode, w))
    ensures var r := Turn(p, exec, mode, w);
            r.steps < w.steps
            || (r.tree == w.tree && r.steps == w.steps && QueueWeight(p, r.tree, r.queue) < QueueWeight(p, w.tree, w.queue))
  {
    TurnKeepsValid(p, exec, mode, w);
    var id, rest := w.queue[0], w.queue[1..];
    assert NodeValid(p, w.tree, id);
    var t := w.tree.nodes[id];
    var first, second := if mode.dir then t.right else t.left, if mode.dir then t.left else t.right;
    QueueWeightPush(p, w.tree, mode, rest, first);
    QueueWeightPush(p, w.tree, mode, Push(mode, rest, first), second);
  }

  /** A round: turns until the steps or the queue run out. */
  ghost function Round(p: Program, exec: Executor, mode: Mode, w: Work): (r: Work)
    requires Steady(p, exec) && ValidWork(p, w)
    ensures ValidWork(p, r) && (r.steps == 0 || r.queue == [])
    decreases w.steps, QueueWeight(p, w.tree, w.queue)
  {
    if w.steps == 0 || w.queue == [] then w
    else
      TurnDescends(p, exec, mode, w);
      Round(p, exec, mode, Turn(p, exec, mode, w))
  }

  lemma RoundUnrolls(p: Program, exec: Executor, mode: Mode, w: Work)
    requires Steady(p, exec) && ValidWork(p, w) && w.queue != [] && w.steps > 0
    ensures var next := Turn(p, exec, mode, w);
            && ValidWork(p, next) && Round(p, exec, mode, w) == Round(p, exec, mode, next)
            && (next.steps < w.steps
                || (next.steps == w.steps && QueueWeight(p, next.tree, next.queue) < QueueWeight(p, w.tree, w.queue)))
  {
    TurnDescends(p, exec, mode, w);
  }

  lemma RoundStops(p: Program, exec: Executor, mode: Mode, w: Work)
    requires Steady(p, exec) && ValidWork(p, w)
    ensures w.queue == [] || w.steps == 0 ==> Round(p, exec, mode, w) == w
    ensures w.queue != [] && Round(p, exec, mode, w).queue == [] ==> w.steps > 0
  {
  }

  /** What one turn does, without how. */
  ghost predicate TurnsTo(mode: Mode, w: Work, next: Work) {
    && w.queue != [] && w.steps > 0 && w.queue[0] < |w.tree.nodes|
    && var id, rest := w.queue[0], w.queue[1..];
    if Excluded(mode, w.tree, id) then next == w.(queue := rest)
    else if w.tree.nodes[id].executed then
      next == w.(queue := if w.tree.nodes[id].satisfiable then PushChildren(mode, rest, w.tree.nodes[id]) else rest)
    else
      && Steps(w.tree, id, next.tree)
      && next.queue == PushChildren(mode, rest, next.tree.nodes[id])
      && next.steps == w.steps - 1
  }

  lemma TurnTurns(p: Program, exec: Executor, mode: Mode, w: Work)
    requires Steady(p, exec) && ValidWork(p, w) && w.queue != [] && w.steps > 0
    ensures TurnsTo(mode, w, Turn(p, exec, mode, w))
  {
  }

  ghost predicate Descends(p: Program, w: Work, next: Work)
    requires ValidWork(p, w) && ValidWork(p, next)
  {
    || next.steps < w.steps
    || (next.steps == w.steps && QueueWeight(p, next.tree, next.queue) < QueueWeight(p, w.tree, w.queue))
  }

  /** The first turn of a round, which takes the same course with `m` more steps. */
  lemma FirstTurn(p: Program, exec: Executor, mode: Mode, w: Work, m: nat) returns (next: Work)
    requires Steady(p, exec) && ValidWork(p, w) && w.queue != [] && w.steps > 0
    ensures TurnsTo(mode, w, next) && ValidWork(p, next) && Descends(p, w, next)
    ensures Round(p, exec, mode, w) == Round(p, exec, mode, next)
    ensures Round(p, exec, mode, w.(steps := w.steps + m)) == Round(p, exec, mode, next.(steps := next.steps + m))
  {
    next := Turn(p, exec, mode, w);
    TurnDescends(p, exec, mode, w);
    TurnDescends(p, exec, mode, w.(steps := w.steps + m));
  }

  /** Where a round starts: the root, or the children of a chosen node. */
  function Start(x: Exploration, mode: Mode, from: Option<nat>): seq<nat>
    requires from.Some? ==> from.value < |x.nodes|
  {
    if from.None? then [0]
    else
      var t := x.nodes[from.value];
      var push := Mode(mode.dir, mode.dir, mode.excluded);
      Push(push, Push(push, [], t.left), t.right)
  }

  lemma StartInTree(p: Program, x: Exploration, mode: Mode, from: Option<nat>)
    requires ValidTree(p, x) && (from.Some? ==> from.value < |x.nodes|)
    ensures InTree(x, Start(x, mode, from))
  {
    if from.Some? {
      assert NodeValid(p, x, from.value);
    }
  }

  /** Every pending node is in the queue or excluded. */
  ghost predicate NoneLost(mode: Mode, w: Work) {
    forall i: nat :: Pending(w.tree, i) && !Excluded(mode, w.tree, i) ==> i in w.queue
  }

  lemma TurnLosesNone(mode: Mode, w: Work, next: Work)
    requires TurnsTo(mode, w, next) && NoneLost(mode, w)
    ensures NoneLost(mode, next)
  {
    forall i: nat | Pending(next.tree, i) && !Excluded(mode, next.tree, i)
      ensures i in next.queue
    {
      if i < |w.tree.nodes| {
        assert Pending(w.tree, i) && i in [w.queue[0]] + w.queue[1..];
      }
    }
  }

  /** A round loses none, so one that empties its queue has executed all but what is
      excluded. */
  lemma {:induction false} RoundLosesNone(p: Program, exec: Executor, mode: Mode, w: Work)
    requires Steady(p, exec) && ValidWork(p, w) && NoneLost(mode, w)
    ensures NoneLost(mode, Round(p, exec, mode, w))
    decreases w.steps, QueueWeight(p, w.tree, w.queue)
  {
    hide NoneLost;
    if w.steps > 0 && w.queue != [] {
      var next := FirstTurn(p, exec, mode, w, 0);
      TurnLosesNone(mode, w, next);
      RoundLosesNone(p, exec, mode, next);
    }
  }

  /** What executing nodes never takes back. */
  ghost predicate Grows(x: Exploration, y: Exploration) {
    && |x.nodes| <= |y.nodes|
    && |x.log| <= |y.log| && y.log[..|x.log|] == x.log
    && (forall i :: 0 <= i < |x.nodes| && x.nodes[i].executed ==> y.nodes[i] == x.nodes[i])
    && (forall i :: 0 <= i < |x.nodes| && !y.nodes[i].executed ==> y.nodes[i] == x.nodes[i])
    && (forall i :: 0 <= i < |x.nodes| ==> y.nodes[i].node.block == x.nodes[i].node.block)
    && (forall i :: 0 <= i < |x.nodes| && !x.nodes[i].executed && y.nodes[i].executed && y.nodes[i].left.Some? ==> y.nodes[i].left.value >= |x.nodes|)
  }

  lemma StepGrows(x: Exploration, id: nat, y: Exploration)
    requires Steps(x, id, y)
    ensures Grows(x, y)
  {
  }

  lemma GrowsTransitively(x: Exploration, y: Exploration, z: Exploration)
    requires Grows(x, y) && Grows(y, z)
    ensures Grows(x, z)
  {
    assert z.log[..|x.log|] == z.log[..|y.log|][..|x.log|];
    forall i | 0 <= i < |x.nodes| && !z.nodes[i].executed
      ensures z.nodes[i] == x.nodes[i]
    {
      assert z.nodes[i] == y.nodes[i];
    }
    forall i | 0 <= i < |x.nodes| && !x.nodes[i].executed && z.nodes[i].executed && z.nodes[i].left.Some?
      ensures z.nodes[i].left.value >= |x.nodes|
    {
      if y.nodes[i].executed {
        assert z.nodes[i] == y.nodes[i];
      }
    }
  }

  /** The ids a round has newly executed. */
  function NewlyExecuted(x: Exploration, y: Exploration): seq<nat>
    requires |x.log| <= |y.log|
  {
    y.log[|x.log|..]
  }

  /** A round of `n` steps executes at most `n` nodes, fewer only when its queue ran
      empty, none of them in an excluded block, and keeps everything that earlier
      rounds executed as it was. */
  lemma {:induction false} RoundFacts(p: Program, exec: Executor, mode: Mode, w: Work)
    requires Steady(p, exec) && ValidWork(p, w)
    ensures RoundFrom(mode, w, Round(p, exec, mode, w))
    decreases w.steps, QueueWeight(p, w.tree, w.queue)
  {
    if w.steps > 0 && w.queue != [] {
      var next := FirstTurn(p, exec, mode, w, 0);
      RoundFacts(p, exec, mode, next);
      TurnFacts(mode, w, next);
      ChainRounds(mode, w, next, Round(p, exec, mode, next));
    }
  }

  ghost predicate RoundFrom(mode: Mode, w: Work, r: Work) {
    && Grows(w.tree, r.tree)
    && r.steps <= w.steps
    && |NewlyExecuted(w.tree, r.tree)| == w.steps - r.steps
    && (forall id :: id in NewlyExecuted(w.tree, r.tree) ==> id < |r.tree.nodes| && !Excluded(mode, r.tree, id))
  }

  lemma TurnFacts(mode: Mode, w: Work, next: Work)
    requires TurnsTo(mode, w, next)
    ensures RoundFrom(mode, w, next)
  {
    var id := w.queue[0];
    if !Excluded(mode, w.tree, id) && !w.tree.nodes[id].executed {
      StepGrows(w.tree, id, next.tree);
      assert NewlyExecuted(w.tree, next.tree) == [id];
    }
  }

  lemma ChainRounds(mode: Mode, w: Work, next: Work, r: Work)
    requires RoundFrom(mode, w, next) && RoundFrom(mode, next, r)
    ensures RoundFrom(mode, w, r)
  {
    GrowsTransitively(w.tree, next.tree, r.tree);
    assert NewlyExecuted(w.tree, r.tree) == NewlyExecuted(w.tree, next.tree) + NewlyExecuted(next.tree, r.tree) by {
      assert r.tree.log == r.tree.log[..|next.tree.log|] + r.tree.log[|next.tree.log|..];
    }
  }
}
