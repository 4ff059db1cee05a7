/**
 The loop bound makes the execution tree finite. In a program without recursion whose
 backward edges are jumps to loop headers, and whose headers call nothing before they
 branch, every edge of the tree lowers a height, so even an unlimited round ends.
 */
module LoopBound {
  import opened Wrappers
  import opened Program
  import opened Symbolic
  import opened Exploration
  import opened Scheduler
  import opened Termination

  /** The instruction that ends a run of these instructions. */
  function FirstSplit(instrs: seq<Instr>): Option<Instr> {
    if instrs == [] then None else if IsSplit(instrs[0]) then Some(instrs[0]) else FirstSplit(instrs[1..])
  }

  /** The calls at or after an index. */
  function CallsFrom(instrs: seq<Instr>, ip: nat): nat
    decreases |instrs| - ip
  {
    if ip >= |instrs| then 0 else (if instrs[ip].Call? then 1 else 0) + CallsFrom(instrs, ip + 1)
  }

  lemma {:induction false} SegmentEndsAtFirstSplit(instrs: seq<Instr>, ip: nat, s: State)
    requires ip <= |instrs|
    ensures var g := RunSegment(instrs, ip, s);
            && g.split == FirstSplit(instrs[ip..])
            && CallsFrom(instrs, ip) == CallsFrom(instrs, g.ip) + (if g.split.Some? && g.split.value.Call? then 1 else 0)
    decreases |instrs| - ip
  {
    if ip < |instrs| && !IsSplit(instrs[ip]) {
      SegmentEndsAtFirstSplit(instrs, ip + 1, Step(s, instrs[ip]));
    }
  }

  predicate Forward(p: Program, from: BlockId, to: BlockId)
    requires from < |p.blocks|
  {
    to < |p.blocks| && p.blocks[to].line > p.blocks[from].line
  }

  /** How far a block is from functions that call nothing. */
  type Ranking = BlockId -> nat

  /** Every edge inside a function leads to a higher line, but for jumps back to a header
      whose branch has its false side beyond the jump, and every call to a lower rank. */
  predicate LoopShaped(p: Program, rank: Ranking) {
   
    && forall b, i :: 0 <= b < |p.blocks| && 0 <= i < |p.blocks[b].instrs| ==> ShapedInstr(p, rank, b, p.blocks[b].instrs[i])
  }

  predicate ShapedInstr(p: Program, rank: Ranking, b: BlockId, ins: Instr)
    requires b < |p.blocks|
  {
    match ins
    case Jump(t) => t < |p.blocks| && rank(t) <= rank(b) && (Forward(p, b, t) || BackToHeader(p, b, t))
    case Branch(_, t, e) => Forward(p, b, t) && Forward(p, b, e) && rank(t) <= rank(b) && rank(e) <= rank(b)
    case Call(_, f, _) => f < |p.functions| && p.functions[f].entry < |p.blocks| && rank(p.functions[f].entry) < rank(b)
    case _ => true
  }

  predicate BackToHeader(p: Program, b: BlockId, t: BlockId)
    requires b < |p.blocks| && t < |p.blocks|
  {
    && p.blocks[t].line < p.blocks[b].line
    && var header := FirstSplit(p.blocks[t].instrs);
    header.Some? && header.value.Branch? && Forward(p, b, header.value.els)
  }

  /** The number of blocks on higher lines. */
  function Above(p: Program, line: nat, k: nat): nat
    requires k <= |p.blocks|
  {
    if k == 0 then 0 else Above(p, line, k - 1) + (if p.blocks[k - 1].line > line then 1 else 0)
  }

  lemma {:induction false} AboveIsSmaller(p: Program, from: BlockId, to: BlockId, k: nat)
    requires from < |p.blocks| && Forward(p, from, to) && k <= |p.blocks|
    ensures Above(p, p.blocks[to].line, k) + (if to < k then 1 else 0) <= Above(p, p.blocks[from].line, k)
  {
    if k > 0 {
      AboveIsSmaller(p, from, to, k - 1);
    }
  }

  lemma {:induction false} AboveIsBounded(p: Program, b: BlockId, k: nat)
    requires b < |p.blocks| && k <= |p.blocks|
    ensures Above(p, p.blocks[b].line, k) + (if b < k then 1 else 0) <= k
  {
    if k > 0 {
      AboveIsBounded(p, b, k - 1);
    }
  }

  function Reach(p: Program, b: BlockId): nat
    requires b < |p.blocks|
  {
    2 * (Above(p, p.blocks[b].line, |p.blocks|) + 1)
  }

  lemma ForwardReach(p: Program, from: BlockId, to: BlockId)
    requires from < |p.blocks| && Forward(p, from, to)
    ensures Reach(p, to) + 2 <= Reach(p, from)
  {
    AboveIsSmaller(p, from, to, |p.blocks|);
  }

  // ----- Blocks -----

  /** The node is about to leave its loop because it must. */
  predicate MustExit(p: Program, n: Node)
    requires InProgram(p, n)
  {
    && ForcedExit(n) && n.ip <= |p.blocks[n.block].instrs|
    && var split := FirstSplit(p.blocks[n.block].instrs[n.ip..]);
    split.Some? && split.value.Branch? && split.value.els < |p.blocks|
  }

  /** A bound on the blocks of the node's own function that a path visits from it on. */
  function BlocksFrom(p: Program, n: Node): (r: nat)
    requires InProgram(p, n)
    ensures r > 0
  {
    if MustExit(p, n) then 1 + Reach(p, FirstSplit(p.blocks[n.block].instrs[n.ip..]).value.els) else Reach(p, n.block)
  }

  lemma {:induction false} SplitIsShaped(p: Program, rank: Ranking, b: BlockId, ip: nat)
    requires LoopShaped(p, rank) && b < |p.blocks| && ip <= |p.blocks[b].instrs|
    ensures var split := FirstSplit(p.blocks[b].instrs[ip..]); split.Some? ==> ShapedInstr(p, rank, b, split.value)
    decreases |p.blocks[b].instrs| - ip
  {
    hide ShapedInstr;
    var instrs := p.blocks[b].instrs;
    if ip < |instrs| {
      assert ShapedInstr(p, rank, b, instrs[ip]);
      assert instrs[ip..][1..] == instrs[ip + 1..];
      SplitIsShaped(p, rank, b, ip + 1);
    }
  }

  lemma BlocksAreReached(p: Program, rank: Ranking, n: Node)
    requires InProgram(p, n) && LoopShaped(p, rank)
    ensures BlocksFrom(p, n) <= Reach(p, n.block)
  {
    if MustExit(p, n) {
      SplitIsShaped(p, rank, n.block, n.ip);
      ForwardReach(p, n.block, FirstSplit(p.blocks[n.block].instrs[n.ip..]).value.els);
    }
  }

  lemma BranchLeavesFewer(p: Program, rank: Ranking, n: Node, c: Node, split: Instr)
    requires InProgram(p, n) && InProgram(p, c) && n.ip <= |p.blocks[n.block].instrs|
    requires FirstSplit(p.blocks[n.block].instrs[n.ip..]) == Some(split) && split.Branch? && ShapedInstr(p, rank, n.block, split)
    requires BlocksFrom(p, c) <= Reach(p, c.block) && c.block == (if ForcedExit(n) then split.els else c.block)
    requires c.block == split.thn || c.block == split.els
    ensures BlocksFrom(p, c) < BlocksFrom(p, n)
  {
    hide Reach, FirstSplit;
    ForwardReach(p, n.block, split.thn);
    ForwardReach(p, n.block, split.els);
  }

  lemma JumpLeavesFewer(p: Program, rank: Ranking, n: Node, c: Node, t: BlockId)
    requires InProgram(p, n) && InProgram(p, c) && t < |p.blocks| && n.ip <= |p.blocks[n.block].instrs|
    requires FirstSplit(p.blocks[n.block].instrs[n.ip..]) == Some(Jump(t)) && ShapedInstr(p, rank, n.block, Jump(t))
    requires BlocksFrom(p, c) <= Reach(p, c.block)
    requires c.block == t && c.ip == 0 && c.loop == JumpLoop(p, n, t)
    ensures BlocksFrom(p, c) < BlocksFrom(p, n)
  {
    hide Reach, FirstSplit;
    if Forward(p, n.block, t) {
      ForwardReach(p, n.block, t);
    } else {
      var header := FirstSplit(p.blocks[t].instrs).value;
      assert p.blocks[t].instrs[0..] == p.blocks[t].instrs;
      ForwardReach(p, n.block, header.els);
      assert MustExit(p, c);
    }
  }

  /** A jump or a branch leaves fewer blocks: a forward one because lines only grow, a
      backward one because the header is then left, further on than the jump. */
  lemma FewerBlocks(p: Program, rank: Ranking, n: Node, after: Node, split: Instr, i: nat)
    requires WellFormed(p) && InProgram(p, after) && InRange(p, split) && i < |Successors(p, after, split)|
    requires RunsInto(p, n, after, split) && (split.Jump? || split.Branch?)
    requires LoopShaped(p, rank) && ShapedInstr(p, rank, n.block, split)
    ensures var c := Successors(p, after, split)[i].node;
            BlocksFrom(p, c) < BlocksFrom(p, n) && rank(c.block) <= rank(n.block) && c.caller == n.caller
  {
    hide Reach, LoopShaped, BlocksFrom, BranchState, FirstSplit;
    var c := Successors(p, after, split)[i].node;
    BlocksAreReached(p, rank, c);
    if split.Jump? {
      JumpLeavesFewer(p, rank, n, c, split.target);
    } else {
      BranchLeavesFewer(p, rank, n, c, split);
    }
  }

  /** Running `n` up to its split leads to `after`. */
  predicate RunsInto(p: Program, n: Node, after: Node, split: Instr) {
    && InProgram(p, n) && after.block == n.block && after.loop == n.loop && after.caller == n.caller
    && n.ip <= |p.blocks[n.block].instrs| && FirstSplit(p.blocks[n.block].instrs[n.ip..]) == Some(split)
    && CallsFrom(p.blocks[n.block].instrs, n.ip) == CallsFrom(p.blocks[n.block].instrs, after.ip) + (if split.Call? then 1 else 0)
  }

  lemma ExecutedRunsInto(p: Program, n: Node)
    requires InProgram(p, n) && NodeSegment(p, n).split.Some?
    ensures RunsInto(p, n, Executed(p, n), NodeSegment(p, n).split.value)
  {
    SegmentFacts(p.blocks[n.block].instrs, n.ip, n.state);
    SegmentEndsAtFirstSplit(p.blocks[n.block].instrs, n.ip, n.state);
  }

  lemma SplitShape(p: Program, rank: Ranking, n: Node, after: Node, split: Instr)
    requires LoopShaped(p, rank) && RunsInto(p, n, after, split)
    ensures ShapedInstr(p, rank, n.block, split)
  {
    hide LoopShaped, ShapedInstr, FirstSplit, CallsFrom;
    SplitIsShaped(p, rank, n.block, n.ip);
  }

  // ----- Calls -----

  function MostCalls(blocks: seq<Block>): nat {
    if blocks == [] then 0
    else
      var last, most := |blocks| - 1, MostCalls(blocks[..|blocks| - 1]);
      var here := CallsFrom(blocks[last].instrs, 0);
      if here > most then here else most
  }

  lemma {:induction false} CallsAreMost(blocks: seq<Block>, b: nat)
    requires b < |blocks|
    ensures CallsFrom(blocks[b].instrs, 0) <= MostCalls(blocks)
  {
    if b < |blocks| - 1 {
      CallsAreMost(blocks[..|blocks| - 1], b);
    }
  }

  lemma {:induction false} CallsShrink(instrs: seq<Instr>, ip: nat)
    ensures CallsFrom(instrs, ip) <= CallsFrom(instrs, 0)
  {
    if ip > 0 {
      CallsShrink(instrs, ip - 1);
    }
  }

  function Times(k: nat, m: nat): (r: nat) {
    assert k * m >= 0;
    k * m
  }

  /** Bounds, by rank, on the nodes of a path in one block with all its calls, and in one
      call with the node that resumes after it. */
  function BlockCost(p: Program, rank: nat): (r: nat)
    ensures r > 0
    decreases rank, 1
  {
    1 + MostCalls(p.blocks) * CallCost(p, rank)
  }

  function CallCost(p: Program, rank: nat): nat
    decreases rank, 0
  {
    if rank == 0 then 0 else 1 + 2 * |p.blocks| * BlockCost(p, rank - 1)
  }

  lemma ScaleUp(k: nat, m: nat, n: nat)
    requires m <= n
    ensures k * m <= k * n
  {
  }

  lemma {:induction false} HigherCostsMore(p: Program, low: nat, high: nat)
    requires low <= high
    ensures BlockCost(p, low) <= BlockCost(p, high) && CallCost(p, low) <= CallCost(p, high)
    decreases high
  {
    if 0 < low < high {
      HigherCostsMore(p, low - 1, high - 1);
      ScaleUp(2 * |p.blocks|, BlockCost(p, low - 1), BlockCost(p, high - 1));
    }
    ScaleUp(MostCalls(p.blocks), CallCost(p, low), CallCost(p, high));
  }

  /** A bound on the nodes of a path from the node on until its function returns. */
  function Local(p: Program, rank: Ranking, n: Node): (r: nat)
    requires InProgram(p, n)
    ensures r > 0
  {
    Times(BlocksFrom(p, n) - 1, BlockCost(p, rank(n.block))) + 1
      + Times(CallsFrom(p.blocks[n.block].instrs, n.ip), CallCost(p, rank(n.block)))
  }

  /** The same for the callers, each of which resumes outside any loop. */
  function Waiting(p: Program, rank: Ranking, caller: Option<Node>): nat
    requires (caller.Some? ==> InProgram(p, caller.value))
  {
    if caller.None? then 0
    else Local(p, rank, caller.value.(loop := NO_LOOP)) + Waiting(p, rank, caller.value.caller)
  }

  /** A bound on the number of nodes on any path from a node on. */
  function Height(p: Program, rank: Ranking, n: Node): (r: nat)
    requires InProgram(p, n)
    ensures r > 0
  {
    Local(p, rank, n) + Waiting(p, rank, n.caller)
  }

  lemma LocalIsBounded(p: Program, rank: Ranking, n: Node)
    requires InProgram(p, n)
    ensures Local(p, rank, n) <= BlocksFrom(p, n) * BlockCost(p, rank(n.block))
  {
    hide BlocksFrom, CallCost, MostCalls;
    var calls, cost := CallsFrom(p.blocks[n.block].instrs, n.ip), CallCost(p, rank(n.block));
    CallsShrink(p.blocks[n.block].instrs, n.ip);
    CallsAreMost(p.blocks, n.block);
    ScaleUp(cost, calls, MostCalls(p.blocks));
    var k, block := BlocksFrom(p, n), BlockCost(p, rank(n.block));
    assert (k - 1) * block + block == k * block;
  }

  lemma LocalDescends(p: Program, rank: Ranking, n: Node, c: Node)
    requires InProgram(p, n) && InProgram(p, c)
    requires BlocksFrom(p, c) < BlocksFrom(p, n) && rank(c.block) <= rank(n.block)
    ensures Local(p, rank, c) < Local(p, rank, n)
  {
    hide BlocksFrom, CallCost, BlockCost;
    LocalIsBounded(p, rank, c);
    HigherCostsMore(p, rank(c.block), rank(n.block));
    var few, many, low, high := BlocksFrom(p, c), BlocksFrom(p, n), BlockCost(p, rank(c.block)), BlockCost(p, rank(n.block));
    ScaleUp(few, low, high);
    ScaleUp(high, few, many - 1);
  }

  /** A call costs less than what the caller then no longer has to call. */
  lemma CallDescends(p: Program, rank: Ranking, n: Node, after: Node, split: Instr, callee: Node)
    requires RunsInto(p, n, after, split) && split.Call? && InProgram(p, callee) && LoopShaped(p, rank)
    requires rank(callee.block) < rank(n.block)
    ensures InProgram(p, after.(loop := NO_LOOP))
    ensures Local(p, rank, callee) + Local(p, rank, after.(loop := NO_LOOP)) < Local(p, rank, n)
  {
    hide Reach, CallsFrom, BlockCost, LoopShaped, FirstSplit;
    var r := rank(n.block);
    CalleeIsBounded(p, rank, callee, r);
    var calls, cost := CallsFrom(p.blocks[n.block].instrs, after.ip), CallCost(p, r);
    assert (calls + 1) * cost == calls * cost + cost;
  }

  lemma CalleeIsBounded(p: Program, rank: Ranking, callee: Node, r: nat)
    requires InProgram(p, callee) && LoopShaped(p, rank) && rank(callee.block) < r
    ensures Local(p, rank, callee) < CallCost(p, r)
  {
    hide Reach, BlockCost, LoopShaped, Local, BlocksFrom;
    var k, low, high := BlocksFrom(p, callee), BlockCost(p, rank(callee.block)), BlockCost(p, r - 1);
    LocalIsBounded(p, rank, callee);
    BlocksAreReached(p, rank, callee);
    ReachIsBounded(p, callee.block);
    HigherCostsMore(p, rank(callee.block), r - 1);
    ScaleUp(k, low, high);
    ScaleUp(high, k, 2 * |p.blocks|);
  }

  lemma ReachIsBounded(p: Program, b: BlockId)
    requires b < |p.blocks|
    ensures Reach(p, b) <= 2 * |p.blocks|
  {
    AboveIsBounded(p, b, |p.blocks|);
  }

  /** Every edge lowers the height, back jumps, calls and returns included. */
  lemma ChildrenAreLower(p: Program, rank: Ranking, n: Node, i: nat)
    requires WellFormed(p) && LoopShaped(p, rank) && InProgram(p, n) && i < |Children(p, n)|
    ensures Height(p, rank, Children(p, n)[i].node) < Height(p, rank, n)
  {
    hide Local, LoopShaped, Successors, ShapedInstr, RunsInto, FirstSplit;
    var after, split := Executed(p, n), NodeSegment(p, n).split.value;
    ExecutedRunsInto(p, n);
    SplitShape(p, rank, n, after, split);
    SuccessorIsLower(p, rank, n, after, split, i);
  }

  lemma SuccessorIsLower(p: Program, rank: Ranking, n: Node, after: Node, split: Instr, i: nat)
    requires WellFormed(p) && InProgram(p, after) && InRange(p, split) && i < |Successors(p, after, split)|
    requires RunsInto(p, n, after, split) && LoopShaped(p, rank) && ShapedInstr(p, rank, n.block, split)
    ensures Height(p, rank, Successors(p, after, split)[i].node) < Height(p, rank, n)
  {
    hide Local, LoopShaped, FirstSplit, CallsFrom, CallState, ReturnState, BranchState;
    var c := Successors(p, after, split)[i].node;
    match split
    case Call(_, _, _) =>
      CallDescends(p, rank, n, after, split, c);
    case Return(_) =>
      ResumedIsLower(p, rank, n.caller.value, c);
    case _ =>
      FewerBlocks(p, rank, n, after, split, i);
      LocalDescends(p, rank, n, c);
  }

  lemma ResumedIsLower(p: Program, rank: Ranking, caller: Node, c: Node)
    requires InProgram(p, caller) && InProgram(p, c)
    requires c.block == caller.block && c.ip == caller.ip && c.loop == NO_LOOP && c.caller == caller.caller
    ensures Height(p, rank, c) == Waiting(p, rank, Some(caller))
  {
    hide FirstSplit, CallsFrom, BlockCost, CallCost;
  }

  // ----- Finiteness -----

  lemma {:induction false} PathsDescend(p: Program, rank: Ranking, f: FunctionId, path: seq<Edge>)
    requires WellFormed(p) && LoopShaped(p, rank) && f < |p.functions|
    requires NodeAt(p, Root(p, f), path).Some?
    ensures |path| + Height(p, rank, NodeAt(p, Root(p, f), path).value) <= Height(p, rank, Root(p, f))
  {
    hide Height, LoopShaped;
    if path != [] {
      var init, e := path[..|path| - 1], path[|path| - 1];
      PathsDescend(p, rank, f, init);
      var n := NodeAt(p, Root(p, f), init).value;
      ChildAlongIsChild(Children(p, n), e);
      var i :| 0 <= i < |Children(p, n)| && Children(p, n)[i] == Child(e, ChildAlong(Children(p, n), e).value);
      ChildrenAreLower(p, rank, n, i);
    }
  }

  lemma RootIsLow(p: Program, rank: Ranking, f: FunctionId)
    requires WellFormed(p) && LoopShaped(p, rank) && f < |p.functions|
    ensures Height(p, rank, Root(p, f)) <= 2 * |p.blocks| * BlockCost(p, rank(p.functions[f].entry))
  {
    hide Reach, BlockCost, LoopShaped, Local, BlocksFrom, BindParams;
    var root := Root(p, f);
    LocalIsBounded(p, rank, root);
    BlocksAreReached(p, rank, root);
    ReachIsBounded(p, root.block);
    ScaleUp(BlockCost(p, rank(root.block)), BlocksFrom(p, root), 2 * |p.blocks|);
  }

  lemma CallFreeCost(p: Program, r: nat)
    requires MostCalls(p.blocks) == 0
    ensures BlockCost(p, r) == 1
  {
    hide CallCost, MostCalls;
  }

  /** The bound: without calls, a path of the execution tree visits at most twice as many
      nodes as there are blocks, and with them at most as many times the cost of a block. */
  lemma PathsAreBounded(p: Program, rank: Ranking, f: FunctionId, path: seq<Edge>)
    requires WellFormed(p) && LoopShaped(p, rank) && f < |p.functions|
    requires NodeAt(p, Root(p, f), path).Some?
    ensures |path| + 1 <= 2 * |p.blocks| * BlockCost(p, rank(p.functions[f].entry))
    ensures MostCalls(p.blocks) == 0 ==> |path| + 1 <= 2 * |p.blocks|
  {
    hide Height, LoopShaped, CallCost, MostCalls, BlockCost, NodeAt;
    PathsDescend(p, rank, f, path);
    RootIsLow(p, rank, f);
    if MostCalls(p.blocks) == 0 {
      CallFreeCost(p, rank(p.functions[f].entry));
    }
  }

  lemma {:induction false} HeightIsLevels(p: Program, solve: Solver, rank: Ranking, n: Node)
    requires WellFormed(p) && LoopShaped(p, rank) && InProgram(p, n)
    ensures Within(p, solve, {}, n, Height(p, rank, n))
    decreases Height(p, rank, n)
  {
    hide Height, LoopShaped, Children, FeasibleChild;
    forall i | 0 <= i < |Children(p, n)|
      ensures Within(p, solve, {}, Children(p, n)[i].node, Height(p, rank, n) - 1)
    {
      var c := Children(p, n)[i].node;
      ChildrenAreLower(p, rank, n, i);
      HeightIsLevels(p, solve, rank, c);
      WithinUpTo(p, solve, {}, c, Height(p, rank, c), Height(p, rank, n) - 1);
    }
  }

  /** Unlimited exploration of a loop-shaped program terminates, resumed from any reachable
      tree and any nodes of it. */
  lemma ExplorationTerminates(p: Program, solve: Solver, rank: Ranking, mode: Mode, f: FunctionId, order: seq<nat>, queue: seq<nat>)
    requires WellFormed(p) && LoopShaped(p, rank) && f < |p.functions| && InTree(Explore(p, solve, f, order), queue)
    ensures Ends(p, BlockExecutor(p, solve), mode, Explore(p, solve, f, order), queue)
    ensures var steps := 2 * Power2(Height(p, rank, Root(p, f)));
            Round(p, BlockExecutor(p, solve), mode, Work(Explore(p, solve, f, order), queue, steps)).queue == []
  {
    hide Explore, Round, LoopShaped, Height, Within;
    HeightIsLevels(p, solve, rank, Root(p, f));
    BoundedLevelsEnd(p, solve, mode, f, order, queue, Height(p, rank, Root(p, f)));
  }
}
