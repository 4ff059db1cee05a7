/**
 Stopping a round and starting it again: replaying what was executed brings the
 loop back to where it stopped, exactly unless a marked fork hides its children.
 */
module Resume {
  import opened Wrappers
  import opened Program
  import opened Symbolic
  import opened Exploration
  import opened Scheduler

  ghost function RoundTree(p: Program, exec: Executor, mode: Mode, x: Exploration, queue: seq<nat>, steps: nat): Exploration
    requires Steady(p, exec) && ValidWork(p, Work(x, queue, steps))
  {
    Round(p, exec, mode, Work(x, queue, steps)).tree
  }

  /** The entries of a queue that are not skipped for their block. */
  function Unskipped(mode: Mode, x: Exploration, queue: seq<nat>): seq<nat>
    requires InTree(x, queue)
  {
    if queue == [] then []
    else (if Excluded(mode, x, queue[0]) then [] else [queue[0]]) + Unskipped(mode, x, queue[1..])
  }

  lemma {:induction false} UnskippedPush(mode: Mode, x: Exploration, queue: seq<nat>, child: Option<nat>)
    requires InTree(x, queue) && (child.Some? ==> child.value < |x.nodes|)
    ensures InTree(x, Push(mode, queue, child))
    ensures Unskipped(mode, x, Push(mode, queue, child))
         == if child.Some? && !Excluded(mode, x, child.value) then Push(mode, Unskipped(mode, x, queue), child)
            else Unskipped(mode, x, queue)
  {
    if child.Some? && mode.bfs && queue != [] {
      UnskippedPush(mode, x, queue[1..], child);
      assert (queue + [child.value])[1..] == queue[1..] + [child.value];
    }
  }

  lemma {:induction false} UnskippedGrows(mode: Mode, x: Exploration, y: Exploration, queue: seq<nat>)
    requires Grows(x, y) && InTree(x, queue)
    ensures Unskipped(mode, y, queue) == Unskipped(mode, x, queue)
  {
    if queue != [] {
      UnskippedGrows(mode, x, y, queue[1..]);
    }
  }

  /** Two queues with the same unskipped entries keep them when a node's children
      are pushed on both. */
  lemma UnskippedChildren(p: Program, mode: Mode, x: Exploration, q1: seq<nat>, q2: seq<nat>, id: nat)
    requires InTree(x, q1) && InTree(x, q2) && id < |x.nodes| && NodeValid(p, x, id)
    requires Unskipped(mode, x, q1) == Unskipped(mode, x, q2)
    ensures InTree(x, PushChildren(mode, q1, x.nodes[id])) && InTree(x, PushChildren(mode, q2, x.nodes[id]))
    ensures Unskipped(mode, x, PushChildren(mode, q1, x.nodes[id])) == Unskipped(mode, x, PushChildren(mode, q2, x.nodes[id]))
  {
    var t := x.nodes[id];
    var first, second := if mode.dir then t.right else t.left, if mode.dir then t.left else t.right;
    UnskippedPush(mode, x, q1, first);
    UnskippedPush(mode, x, q2, first);
    UnskippedPush(mode, x, Push(mode, q1, first), second);
    UnskippedPush(mode, x, Push(mode, q2, first), second);
  }

  /** Skipped entries never matter to a round. */
  lemma {:induction false} SkippedAreIdle(p: Program, exec: Executor, mode: Mode, x: Exploration, q1: seq<nat>, q2: seq<nat>, steps: nat)
    requires Steady(p, exec) && ValidTree(p, x) && InTree(x, q1) && InTree(x, q2)
    requires Unskipped(mode, x, q1) == Unskipped(mode, x, q2)
    ensures RoundTree(p, exec, mode, x, q1, steps) == RoundTree(p, exec, mode, x, q2, steps)
    decreases steps, QueueWeight(p, x, q1) + QueueWeight(p, x, q2)
  {
    if steps == 0 || (q1 == [] && q2 == []) {
    } else if q1 != [] && Excluded(mode, x, q1[0]) {
      var next := FirstTurn(p, exec, mode, Work(x, q1, steps), 0);
      SkippedAreIdle(p, exec, mode, x, q1[1..], q2, steps);
    } else if q2 != [] && Excluded(mode, x, q2[0]) {
      var next := FirstTurn(p, exec, mode, Work(x, q2, steps), 0);
      SkippedAreIdle(p, exec, mode, x, q1, q2[1..], steps);
    } else {
      assert q1 != [] ==> Unskipped(mode, x, q1) == [q1[0]] + Unskipped(mode, x, q1[1..]);
      assert q2 != [] ==> Unskipped(mode, x, q2) == [q2[0]] + Unskipped(mode, x, q2[1..]);
      assert q1 != [] && q2 != [];
      assert q1[0] == Unskipped(mode, x, q1)[0] == q2[0];
      assert Unskipped(mode, x, q1[1..]) == Unskipped(mode, x, q1)[1..] == Unskipped(mode, x, q2[1..]);
      var n1, n2 := BothTurns(p, exec, mode, x, q1, q2, steps);
      SkippedAreIdle(p, exec, mode, n1.tree, n1.queue, n2.queue, n1.steps);
    }
  }

  lemma BothTurns(p: Program, exec: Executor, mode: Mode, x: Exploration, q1: seq<nat>, q2: seq<nat>, steps: nat) returns (n1: Work, n2: Work)
    requires Steady(p, exec) && ValidTree(p, x) && InTree(x, q1) && InTree(x, q2) && steps > 0
    requires q1 != [] && q2 != [] && q1[0] == q2[0] && !Excluded(mode, x, q1[0])
    requires Unskipped(mode, x, q1[1..]) == Unskipped(mode, x, q2[1..])
    ensures ValidWork(p, n1) && ValidWork(p, n2) && n1.tree == n2.tree && n1.steps == n2.steps
    ensures Descends(p, Work(x, q1, steps), n1) && Descends(p, Work(x, q2, steps), n2)
    ensures n1.steps == steps ==> n1.tree == x
    ensures Unskipped(mode, n1.tree, n1.queue) == Unskipped(mode, n2.tree, n2.queue)
    ensures Round(p, exec, mode, Work(x, q1, steps)) == Round(p, exec, mode, n1)
    ensures Round(p, exec, mode, Work(x, q2, steps)) == Round(p, exec, mode, n2)
  {
    hide Round, QueueWeight, Unskipped, PushChildren;
    var w1, w2, id := Work(x, q1, steps), Work(x, q2, steps), q1[0];
    n1, n2 := Turn(p, exec, mode, w1), Turn(p, exec, mode, w2);
    RoundUnrolls(p, exec, mode, w1);
    RoundUnrolls(p, exec, mode, w2);
    assert NodeValid(p, x, id);
    if x.nodes[id].executed {
      UnskippedChildren(p, mode, x, q1[1..], q2[1..], id);
    } else {
      StepGrows(x, id, n1.tree);
      UnskippedGrows(mode, x, n1.tree, q1[1..]);
      UnskippedGrows(mode, x, n1.tree, q2[1..]);
      assert NodeValid(p, n1.tree, id);
      UnskippedChildren(p, mode, n1.tree, q1[1..], q2[1..], id);
    }
  }

  /** More steps continue from where fewer steps stopped. */
  lemma {:induction false} RoundContinues(p: Program, exec: Executor, mode: Mode, w: Work, r: Work, m: nat)
    requires Steady(p, exec) && ValidWork(p, w) && r == Round(p, exec, mode, w)
    ensures Round(p, exec, mode, w.(steps := w.steps + m)) == Round(p, exec, mode, r.(steps := r.steps + m))
    decreases w.steps, QueueWeight(p, w.tree, w.queue)
  {
    if w.steps > 0 && w.queue != [] {
      var next := FirstTurn(p, exec, mode, w, m);
      RoundContinues(p, exec, mode, next, r, m);
    }
  }

  predicate HasUnskippedChild(mode: Mode, x: Exploration, t: TreeNode) {
    || (t.left.Some? && t.left.value < |x.nodes| && !Excluded(mode, x, t.left.value))
    || (t.right.Some? && t.right.value < |x.nodes| && !Excluded(mode, x, t.right.value))
  }

  /** Node `i`, executed after `x`, is marked infeasible although it has a child that is
      not excluded. */
  predicate MarkedFork(mode: Mode, x: Exploration, y: Exploration, i: nat) {
    && i < |y.nodes| && y.nodes[i].executed && !(i < |x.nodes| && x.nodes[i].executed)
    && !y.nodes[i].satisfiable && HasUnskippedChild(mode, y, y.nodes[i])
  }

  /** Replaying from a queue over the tree a round has produced leads to the queue
      the round has left. */
  lemma {:induction false} ReplayReaches(p: Program, exec: Executor, mode: Mode, w: Work, r: Work, m: nat)
    requires Steady(p, exec) && ValidWork(p, w) && r == Round(p, exec, mode, w)
    requires forall i :: !MarkedFork(mode, w.tree, r.tree, i)
    ensures Grows(w.tree, r.tree)
    ensures RoundTree(p, exec, mode, r.tree, w.queue, m) == RoundTree(p, exec, mode, r.tree, r.queue, m)
    decreases w.steps, QueueWeight(p, w.tree, w.queue)
  {
    RoundFacts(p, exec, mode, w);
    if w.steps > 0 && w.queue != [] && m > 0 {
      var next := FirstTurn(p, exec, mode, w, 0);
      TurnFacts(mode, w, next);
      RoundFacts(p, exec, mode, next);
      forall i
        ensures !MarkedFork(mode, next.tree, r.tree, i)
      {
        assert !MarkedFork(mode, w.tree, r.tree, i);
      }
      ReplayReaches(p, exec, mode, next, r, m);
      ReplayTurn(p, exec, mode, w, next, r.tree, m);
    }
  }

  /** One turn of the replay. */
  lemma ReplayTurn(p: Program, exec: Executor, mode: Mode, w: Work, next: Work, z: Exploration, m: nat)
    requires Steady(p, exec) && ValidWork(p, w) && ValidWork(p, next) && m > 0
    requires TurnsTo(mode, w, next) && ValidTree(p, z) && Grows(w.tree, z) && Grows(next.tree, z)
    requires !MarkedFork(mode, w.tree, z, w.queue[0])
    ensures InTree(z, w.queue) && InTree(z, next.queue)
    ensures RoundTree(p, exec, mode, z, w.queue, m) == RoundTree(p, exec, mode, z, next.queue, m)
  {
    var id, rest := w.queue[0], w.queue[1..];
    assert InTree(z, w.queue) && InTree(z, next.queue);
    var again := FirstTurn(p, exec, mode, Work(z, w.queue, m), 0);
    if !Excluded(mode, w.tree, id) {
      assert NodeValid(p, w.tree, id) && NodeValid(p, z, id);
      assert z.nodes[id] == next.tree.nodes[id] && z.nodes[id].executed;
      if !z.nodes[id].satisfiable && !w.tree.nodes[id].executed {
        assert InTree(z, rest);
        UnskippedNoChildren(p, mode, z, rest, id);
        SkippedAreIdle(p, exec, mode, z, rest, next.queue, m);
      }
    }
  }

  lemma UnskippedNoChildren(p: Program, mode: Mode, x: Exploration, queue: seq<nat>, id: nat)
    requires InTree(x, queue) && id < |x.nodes| && NodeValid(p, x, id)
    requires !HasUnskippedChild(mode, x, x.nodes[id])
    ensures InTree(x, PushChildren(mode, queue, x.nodes[id]))
    ensures Unskipped(mode, x, PushChildren(mode, queue, x.nodes[id])) == Unskipped(mode, x, queue)
  {
    var t := x.nodes[id];
    var first, second := if mode.dir then t.right else t.left, if mode.dir then t.left else t.right;
    UnskippedPush(mode, x, queue, first);
    UnskippedPush(mode, x, Push(mode, queue, first), second);
  }

  /** Two rounds from the same queue, of `k` and then `m` steps, build the tree of
      one round of `k + m` steps, ids, order and records included. */
  ghost predicate Resumes(p: Program, exec: Executor, mode: Mode, x: Exploration, queue: seq<nat>, k: nat, m: nat)
    requires Steady(p, exec) && ValidTree(p, x) && InTree(x, queue)
  {
    var first := RoundTree(p, exec, mode, x, queue, k);
    InTree(first, queue) && RoundTree(p, exec, mode, first, queue, m) == RoundTree(p, exec, mode, x, queue, k + m)
  }

  lemma FinishedRound(p: Program, exec: Executor, mode: Mode, r: Work, m: nat)
    requires Steady(p, exec) && ValidWork(p, r) && (r.steps == 0 || r.queue == [])
    ensures RoundTree(p, exec, mode, r.tree, r.queue, m) == Round(p, exec, mode, r.(steps := r.steps + m)).tree
  {
    if r.steps == 0 {
      assert Work(r.tree, r.queue, m) == r.(steps := m);
    }
  }

  lemma ResumesMeans(p: Program, exec: Executor, mode: Mode, x: Exploration, queue: seq<nat>, k: nat, m: nat, r: Work)
    requires Steady(p, exec) && ValidTree(p, x) && InTree(x, queue)
    requires r == Round(p, exec, mode, Work(x, queue, k)) && InTree(r.tree, queue)
    ensures Resumes(p, exec, mode, x, queue, k, m)
       <==> RoundTree(p, exec, mode, r.tree, queue, m) == Round(p, exec, mode, r.(steps := r.steps + m)).tree
  {
    var w := Work(x, queue, k);
    RoundContinues(p, exec, mode, w, r, m);
    assert w.(steps := w.steps + m) == Work(x, queue, k + m);
  }

  lemma NoMarkedForkResumes(p: Program, exec: Executor, mode: Mode, x: Exploration, queue: seq<nat>, k: nat, m: nat)
    requires Steady(p, exec) && ValidTree(p, x) && InTree(x, queue)
    requires forall i :: !MarkedFork(mode, x, RoundTree(p, exec, mode, x, queue, k), i)
    ensures Resumes(p, exec, mode, x, queue, k, m)
  {
    var w := Work(x, queue, k);
    var r := Round(p, exec, mode, w);
    assert r.tree == RoundTree(p, exec, mode, x, queue, k);
    ReplayReaches(p, exec, mode, w, r, m);
    ResumesMeans(p, exec, mode, x, queue, k, m, r);
    FinishedRound(p, exec, mode, r, m);
  }

  /** The last step of a round executes its node, whose pending children it leaves
      on the queue. */
  lemma {:induction false} LastStep(p: Program, exec: Executor, mode: Mode, w: Work, r: Work, i: nat) returns (rest: seq<nat>)
    requires Steady(p, exec) && ValidWork(p, w) && w.steps == 1 && r == Round(p, exec, mode, w)
    requires i < |r.tree.nodes| && r.tree.nodes[i].executed && !(i < |w.tree.nodes| && w.tree.nodes[i].executed)
    ensures r.steps == 0 && r.queue == PushChildren(mode, rest, r.tree.nodes[i])
    ensures r.tree.nodes[i].left.Some? ==> Pending(r.tree, r.tree.nodes[i].left.value)
    ensures r.tree.nodes[i].right.Some? ==> Pending(r.tree, r.tree.nodes[i].right.value)
    decreases QueueWeight(p, w.tree, w.queue)
  {
    var next := FirstTurn(p, exec, mode, w, 0);
    if next.steps == 0 {
      rest := w.queue[1..];
    } else {
      rest := LastStep(p, exec, mode, next, r, i);
    }
  }

  lemma TurnExecutesFront(p: Program, exec: Executor, mode: Mode, w: Work)
    requires Steady(p, exec) && ValidWork(p, w) && w.queue != [] && w.steps > 0
    requires !Excluded(mode, w.tree, w.queue[0])
    ensures IsExecuted(Round(p, exec, mode, w).tree, w.queue[0])
  {
    var next := FirstTurn(p, exec, mode, w, 0);
    TurnFacts(mode, w, next);
    RoundFacts(p, exec, mode, next);
  }

  predicate IsExecuted(x: Exploration, id: nat) {
    id < |x.nodes| && x.nodes[id].executed
  }

  /** A queued node that is not excluded gets executed once the entries before it
      are skipped. */
  lemma {:induction false} FrontIsExecuted(p: Program, exec: Executor, mode: Mode, w: Work, j: nat)
    requires Steady(p, exec) && ValidWork(p, w) && j < |w.queue| && w.steps > 0
    requires !Excluded(mode, w.tree, w.queue[j])
    requires forall i :: 0 <= i < j ==> Excluded(mode, w.tree, w.queue[i])
    ensures IsExecuted(Round(p, exec, mode, w).tree, w.queue[j])
    decreases j
  {
    if j > 0 {
      var next := FirstTurn(p, exec, mode, w, 0);
      FrontIsExecuted(p, exec, mode, next, j - 1);
    } else {
      TurnExecutesFront(p, exec, mode, w);
    }
  }

  lemma TurnMovesUp(mode: Mode, w: Work, next: Work, j: nat)
    requires TurnsTo(mode, w, next) && InTree(w.tree, w.queue) && mode.bfs && 0 < j < |w.queue|
    ensures j <= |next.queue| && next.queue[j - 1] == w.queue[j]
  {
    var rest := w.queue[1..];
    forall t
      ensures j <= |PushChildren(mode, rest, t)| && PushChildren(mode, rest, t)[j - 1] == w.queue[j]
    {
    }
  }

  /** Breadth first, every queued node that is not excluded gets its turn. */
  lemma {:induction false} BreadthFirstReaches(p: Program, exec: Executor, mode: Mode, w: Work, j: nat)
    requires Steady(p, exec) && ValidWork(p, w) && mode.bfs && j < |w.queue| && w.steps > j
    requires !Excluded(mode, w.tree, w.queue[j])
    ensures IsExecuted(Round(p, exec, mode, w).tree, w.queue[j])
    decreases j
  {
    hide Round, QueueWeight, Steady, ValidTree, PushChildren, TurnsTo;
    if j == 0 {
      TurnExecutesFront(p, exec, mode, w);
    } else {
      var next := FirstTurn(p, exec, mode, w, 0);
      TurnFacts(mode, w, next);
      TurnMovesUp(mode, w, next, j);
      BreadthFirstReaches(p, exec, mode, next, j - 1);
    }
  }

  /** A pending child of a marked node that is not queued. */
  ghost predicate Hidden(w: Work, c: nat) {
    && Pending(w.tree, c) && c !in w.queue
    && 0 <= w.tree.nodes[c].parent < |w.tree.nodes|
    && w.tree.nodes[w.tree.nodes[c].parent].executed
    && !w.tree.nodes[w.tree.nodes[c].parent].satisfiable
  }

  lemma TurnKeepsHidden(p: Program, mode: Mode, w: Work, next: Work, c: nat)
    requires ValidWork(p, w) && TurnsTo(mode, w, next) && Hidden(w, c)
    ensures Hidden(next, c)
  {
    var id := w.queue[0];
    assert NodeValid(p, w.tree, id) && NodeValid(p, w.tree, c);
  }

  /** It is never executed. */
  lemma {:induction false} HiddenStaysPending(p: Program, exec: Executor, mode: Mode, w: Work, c: nat)
    requires Steady(p, exec) && ValidWork(p, w) && Hidden(w, c)
    ensures Pending(Round(p, exec, mode, w).tree, c)
    decreases w.steps, QueueWeight(p, w.tree, w.queue)
  {
    if w.steps > 0 && w.queue != [] {
      var next := FirstTurn(p, exec, mode, w, 0);
      TurnKeepsHidden(p, mode, w, next, c);
      HiddenStaysPending(p, exec, mode, next, c);
    }
  }

  /** After the step that made a marked fork, one longer round executes a child of
      it; a new round never does. */
  lemma MarkedForkAtLastStep(p: Program, exec: Executor, mode: Mode, x: Exploration, queue: seq<nat>, before: Work, r: Work, i: nat) returns (m: nat)
    requires Steady(p, exec) && ValidTree(p, x) && InTree(x, queue) && Grows(x, before.tree)
    requires ValidWork(p, before) && r == Round(p, exec, mode, before) && (before.steps == 1 || before.queue == [])
    requires MarkedFork(mode, x, r.tree, i) && !IsExecuted(before.tree, i)
    ensures InTree(r.tree, queue) && r.steps == 0
    ensures RoundTree(p, exec, mode, r.tree, queue, m) != Round(p, exec, mode, r.(steps := r.steps + m)).tree
  {
    hide QueueWeight, PushChildren, Excluded, Steady, Turn;
    RoundFacts(p, exec, mode, before);
    GrowsTransitively(x, before.tree, r.tree);
    var rest := LastStep(p, exec, mode, before, r, i);
    m := |r.queue| + 1;
    var c := ChildIsExecuted(p, exec, mode, r, rest, i, m);
    assert NodeValid(p, r.tree, i) && NodeValid(p, r.tree, c);
    assert c >= |x.nodes|;
    assert Hidden(Work(r.tree, queue, m), c);
    HiddenStaysPending(p, exec, mode, Work(r.tree, queue, m), c);
    assert r.(steps := r.steps + m) == r.(steps := m);
  }

  lemma ChildIsExecuted(p: Program, exec: Executor, mode: Mode, r: Work, rest: seq<nat>, i: nat, m: nat) returns (c: nat)
    requires Steady(p, exec) && ValidWork(p, r) && i < |r.tree.nodes| && r.steps == 0 && m > |r.queue|
    requires r.queue == PushChildren(mode, rest, r.tree.nodes[i]) && HasUnskippedChild(mode, r.tree, r.tree.nodes[i])
    ensures c < |r.tree.nodes| && (r.tree.nodes[i].left == Some(c) || r.tree.nodes[i].right == Some(c))
    ensures IsExecuted(Round(p, exec, mode, r.(steps := m)).tree, c)
  {
    var t, w := r.tree.nodes[i], r.(steps := m);
    assert NodeValid(p, r.tree, i);
    var j: nat;
    if mode.bfs {
      if t.right.Some? && !Excluded(mode, r.tree, t.right.value) {
        c := t.right.value;
        j := if mode.dir then |rest| else |rest| + 1;
      } else {
        c := t.left.value;
        j := if mode.dir && t.right.Some? then |rest| + 1 else |rest|;
      }
      BreadthFirstReaches(p, exec, mode, w, j);
    } else {
      j := if Excluded(mode, r.tree, r.queue[0]) then 1 else 0;
      c := r.queue[j];
      FrontIsExecuted(p, exec, mode, w, j);
    }
  }

  /** Some split of a run that made a marked fork does not resume: the one right
      after the step that made it. */
  lemma {:induction false} MarkedForkBreaksResume(p: Program, exec: Executor, mode: Mode, x: Exploration, queue: seq<nat>, k: nat, r: Work, i: nat) returns (k': nat, m: nat)
    requires Steady(p, exec) && ValidTree(p, x) && InTree(x, queue)
    requires r == Round(p, exec, mode, Work(x, queue, k)) && MarkedFork(mode, x, r.tree, i)
    ensures !Resumes(p, exec, mode, x, queue, k', m)
    decreases k
  {
    hide QueueWeight, Grows, Steady;
    if k == 0 {
      assert false;
    } else {
      var before := OneStepLess(p, exec, mode, x, queue, k);
      if IsExecuted(before.tree, i) {
        ForkIsEarlier(p, exec, mode, x, before, r, i);
        k', m := MarkedForkBreaksResume(p, exec, mode, x, queue, k - 1, before, i);
      } else {
        k' := k;
        m := MarkedForkAtLastStep(p, exec, mode, x, queue, before.(steps := before.steps + 1), r, i);
        ResumesMeans(p, exec, mode, x, queue, k, m, r);
      }
    }
  }

  lemma OneStepLess(p: Program, exec: Executor, mode: Mode, x: Exploration, queue: seq<nat>, k: nat) returns (before: Work)
    requires Steady(p, exec) && ValidTree(p, x) && InTree(x, queue) && k > 0
    ensures before == Round(p, exec, mode, Work(x, queue, k - 1)) && Grows(x, before.tree)
    ensures Round(p, exec, mode, Work(x, queue, k)) == Round(p, exec, mode, before.(steps := before.steps + 1))
  {
    hide Round, ValidTree, Steady;
    var shorter := Work(x, queue, k - 1);
    before := Round(p, exec, mode, shorter);
    RoundFacts(p, exec, mode, shorter);
    RoundContinues(p, exec, mode, shorter, before, 1);
    assert shorter.(steps := shorter.steps + 1) == Work(x, queue, k);
  }

  lemma ForkIsEarlier(p: Program, exec: Executor, mode: Mode, x: Exploration, before: Work, r: Work, i: nat)
    requires Steady(p, exec) && ValidWork(p, before) && IsExecuted(before.tree, i)
    requires r == Round(p, exec, mode, before.(steps := before.steps + 1)) && MarkedFork(mode, x, r.tree, i)
    ensures MarkedFork(mode, x, before.tree, i)
  {
    RoundFacts(p, exec, mode, before.(steps := before.steps + 1));
    assert NodeValid(p, before.tree, i);
  }

  /** The resumability theorem for any way of executing nodes: with mode, direction and
      exclusions fixed, every way of splitting a run into two rounds resumes it, if and
      only if no node the run executes ends up marked while it has a child that is not
      excluded. */
  lemma ResumesIffNoMarkedFork(p: Program, exec: Executor, mode: Mode, x: Exploration, queue: seq<nat>)
    requires Steady(p, exec) && ValidTree(p, x) && InTree(x, queue)
    ensures (forall k, m :: Resumes(p, exec, mode, x, queue, k, m))
       <==> (forall k, i :: !MarkedFork(mode, x, RoundTree(p, exec, mode, x, queue, k), i))
  {
    if forall k, i :: !MarkedFork(mode, x, RoundTree(p, exec, mode, x, queue, k), i) {
      forall k, m
        ensures Resumes(p, exec, mode, x, queue, k, m)
      {
        forall i
          ensures !MarkedFork(mode, x, RoundTree(p, exec, mode, x, queue, k), i)
        {
        }
        NoMarkedForkResumes(p, exec, mode, x, queue, k, m);
      }
    }
    if k, i :| MarkedFork(mode, x, RoundTree(p, exec, mode, x, queue, k), i) {
      var k', m := MarkedForkBreaksResume(p, exec, mode, x, queue, k, Round(p, exec, mode, Work(x, queue, k)), i);
    }
  }

  // ----- The symbolic executor's own marks -----

  /** The branch the node has run to refuses its own true side: the guard of the line
      that marks the node instead of its child. */
  predicate RefusesTrueSide(p: Program, solve: Solver, n: Node) {
    && n.block < |p.blocks| && 0 < n.ip <= |p.blocks[n.block].instrs|
    && MarksParent(solve, n, p.blocks[n.block].instrs[n.ip - 1])
  }

  /** The mark of a node with children is that guard and nothing else. */
  ghost predicate MarkTells(p: Program, solve: Solver, t: TreeNode) {
    t.executed && t.left.Some? ==> (!t.satisfiable <==> RefusesTrueSide(p, solve, t.node))
  }

  lemma ExecutedMarkTells(p: Program, solve: Solver, x: Exploration, id: nat)
    requires WellFormed(p) && Pending(x, id) && NodeValid(p, x, id)
    ensures MarkTells(p, solve, ExecuteNode(p, solve, x, id).nodes[id])
  {
    hide Successors, Feasible;
    var n := x.nodes[id].node;
    SegmentFacts(p.blocks[n.block].instrs, n.ip, n.state);
  }

  lemma {:induction false} MarksTell(p: Program, solve: Solver, f: FunctionId, order: seq<nat>, i: nat)
    requires WellFormed(p) && f < |p.functions| && i < |Explore(p, solve, f, order).nodes|
    ensures MarkTells(p, solve, Explore(p, solve, f, order).nodes[i])
  {
    hide RefusesTrueSide;
    if order != [] {
      var id, x := order[|order| - 1], Explore(p, solve, f, order[..|order| - 1]);
      if Pending(x, id) {
        ExecuteKeepsValid(p, solve, x, id);
        assert NodeValid(p, x, id);
        ExecutedMarkTells(p, solve, x, id);
      }
      if i < |x.nodes| {
        MarksTell(p, solve, f, order[..|order| - 1], i);
      }
    }
  }

  /** A round goes on exploring. */
  lemma {:induction false} RoundExplores(p: Program, solve: Solver, f: FunctionId, order: seq<nat>, mode: Mode, w: Work) returns (longer: seq<nat>)
    requires WellFormed(p) && f < |p.functions| && w.tree == Explore(p, solve, f, order) && InTree(w.tree, w.queue)
    requires Steady(p, BlockExecutor(p, solve))
    ensures Round(p, BlockExecutor(p, solve), mode, w).tree == Explore(p, solve, f, longer)
    decreases w.steps, QueueWeight(p, w.tree, w.queue)
  {
    hide Explore, QueueWeight, PushChildren;
    longer := order;
    if w.steps > 0 && w.queue != [] {
      var exec := BlockExecutor(p, solve);
      var id, next := w.queue[0], Turn(p, exec, mode, w);
      RoundUnrolls(p, exec, mode, w);
      if Pending(w.tree, id) && !Excluded(mode, w.tree, id) {
        ExploreStep(p, solve, f, order, id);
        longer := RoundExplores(p, solve, f, order + [id], mode, next);
      } else {
        longer := RoundExplores(p, solve, f, order, mode, next);
      }
    }
  }

  /** Node `i`, executed after `x`, has refused its own true side, and has a child that
      is not excluded. */
  predicate RefusedFork(p: Program, solve: Solver, mode: Mode, x: Exploration, y: Exploration, i: nat) {
    && i < |y.nodes| && y.nodes[i].executed && !(i < |x.nodes| && x.nodes[i].executed)
    && RefusesTrueSide(p, solve, y.nodes[i].node) && HasUnskippedChild(mode, y, y.nodes[i])
  }

  lemma MarkedIsRefused(p: Program, solve: Solver, f: FunctionId, order: seq<nat>, mode: Mode, x: Exploration, i: nat)
    requires WellFormed(p) && f < |p.functions|
    ensures MarkedFork(mode, x, Explore(p, solve, f, order), i) <==> RefusedFork(p, solve, mode, x, Explore(p, solve, f, order), i)
  {
    hide RefusesTrueSide, Explore, Excluded;
    var y := Explore(p, solve, f, order);
    if i < |y.nodes| {
      MarksTell(p, solve, f, order, i);
      assert NodeValid(p, y, i);
    }
  }

  /** Resumability of the symbolic executor, from any reachable tree and any queue: every
      way of splitting a run into two rounds resumes it, if and only if no branch it
      executes refuses its own true side while a child of it is not excluded. */
  lemma ResumesIffNoRefusedFork(p: Program, solve: Solver, f: FunctionId, order: seq<nat>, mode: Mode, queue: seq<nat>)
    requires WellFormed(p) && f < |p.functions| && InTree(Explore(p, solve, f, order), queue)
    ensures Steady(p, BlockExecutor(p, solve))
    ensures var x, exec := Explore(p, solve, f, order), BlockExecutor(p, solve);
            (forall k, m :: Resumes(p, exec, mode, x, queue, k, m))
            <==> (forall k, i :: !RefusedFork(p, solve, mode, x, RoundTree(p, exec, mode, x, queue, k), i))
  {
    hide Explore, RefusedFork, MarkedFork, Round, Steady, BlockExecutor;
    BlockExecutorIsSteady(p, solve);
    var x, exec := Explore(p, solve, f, order), BlockExecutor(p, solve);
    ResumesIffNoMarkedFork(p, exec, mode, x, queue);
    forall k, i
      ensures MarkedFork(mode, x, RoundTree(p, exec, mode, x, queue, k), i)
         <==> RefusedFork(p, solve, mode, x, RoundTree(p, exec, mode, x, queue, k), i)
    {
      var longer := RoundExplores(p, solve, f, order, mode, Work(x, queue, k));
      MarkedIsRefused(p, solve, f, longer, mode, x, i);
    }
  }
}
