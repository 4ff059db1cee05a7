/**
 The executor on the heap. Its tree nodes point to program states, and a node
 reached by an unconditional jump shares its parent's; it is proved to build the
 tree of values that has no sharing at all.
 */
module Executor {
  import opened Wrappers
  import opened Program
  import opened ExpressionTree
  import opened Symbolic
  import opened Simulation
  import opened Exploration
  import opened Scheduler
  import opened Termination
  import opened Traversal
  import opened LoopBound
  import opened ProgramStates
  import opened TreeNodes
  import opened TreeViews

  /** The heap node `r` waits, just past its call, in the condition `c` describes. */
  ghost predicate Awaits(r: SymbolicTreeNode, c: Node)
    reads r, r.state
  {
    && r.block == c.block && r.instructionPtr == c.ip && r.hasNext
    && r.state.Abs() == c.state
    && (r.returnNode == null <==> c.caller.None?)
  }

  /** The heap node is in the condition `m` describes. */
  ghost predicate Stands(n: SymbolicTreeNode, m: Node)
    reads n, n.state, n.returnNode, if n.returnNode != null then {n.returnNode.state} else {}
  {
    && n.block == m.block && n.instructionPtr == m.ip
    && n.state.Abs() == m.state && n.loopInfo == m.loop
    && (n.returnNode == null <==> m.caller.None?)
    && (n.returnNode != null ==>
          n.returnNode != n && n.returnNode.state != n.state && Awaits(n.returnNode, m.caller.value))
  }

  /** A newly created heap node for a child of `parent`. */
  ghost predicate Created(n: SymbolicTreeNode, c: Child, parent: SymbolicTreeNode, id: nat, feasible: bool)
    reads n, n.state
  {
    CreatedView(ViewOf(n), c, parent, id, feasible)
  }

  function PushNode(isBFS: bool, deque: seq<SymbolicTreeNode>, child: SymbolicTreeNode?): seq<SymbolicTreeNode> {
    if child == null then deque else if isBFS then deque + [child] else [child] + deque
  }

  function PushNodes(isBFS: bool, dir: bool, deque: seq<SymbolicTreeNode>, left: SymbolicTreeNode?, right: SymbolicTreeNode?): seq<SymbolicTreeNode> {
    if dir then PushNode(isBFS, PushNode(isBFS, deque, right), left)
    else PushNode(isBFS, PushNode(isBFS, deque, left), right)
  }

  function Ids(deque: seq<SymbolicTreeNode>): seq<nat> {
    seq(|deque|, k requires 0 <= k < |deque| => deque[k].id)
  }

  function LinkId(link: SymbolicTreeNode?): Option<nat> {
    if link == null then None else Some(link.id)
  }

  lemma IdsOfPushOne(isBFS: bool, dir: bool, excluded: set<BlockId>, deque: seq<SymbolicTreeNode>, child: SymbolicTreeNode?)
    ensures Ids(PushNode(isBFS, deque, child)) == Push(Mode(isBFS, dir, excluded), Ids(deque), LinkId(child))
  {
  }

  /** Pushing nodes pushes their ids. */
  lemma IdsOfPush(isBFS: bool, dir: bool, excluded: set<BlockId>, deque: seq<SymbolicTreeNode>, t: TreeNode,
    left: SymbolicTreeNode?, right: SymbolicTreeNode?)
    requires LinkId(left) == t.left && LinkId(right) == t.right
    ensures Ids(PushNodes(isBFS, dir, deque, left, right)) == PushChildren(Mode(isBFS, dir, excluded), Ids(deque), t)
  {
    hide Ids, Push, PushNode;
    var first, second := if dir then right else left, if dir then left else right;
    IdsOfPushOne(isBFS, dir, excluded, deque, first);
    IdsOfPushOne(isBFS, dir, excluded, PushNode(isBFS, deque, first), second);
  }

  /** A turn on the queue's first node, by what that node shows. */
  lemma TurnByKind(p: Program, exec: Executor, mode: Mode, x: Exploration, id: nat, rest: seq<nat>, queue: seq<nat>, steps: nat)
    requires Steady(p, exec) && ValidWork(p, Work(x, queue, steps)) && steps > 0 && queue == [id] + rest && id < |x.nodes|
    ensures var t, next := x.nodes[id], Turn(p, exec, mode, Work(x, queue, steps));
            if t.node.block in mode.excluded then next == Work(x, rest, steps)
            else if t.executed then next == Work(x, if t.satisfiable then PushChildren(mode, rest, t) else rest, steps)
            else id < |exec(x, id).nodes| && next == Work(exec(x, id), PushChildren(mode, rest, exec(x, id).nodes[id]), steps - 1)
  {
    assert queue[1..] == rest;
  }

  class SymbolicExecutor {
    const program: Program
    const solve: Solver
    const analysed: FunctionId
    var numNodes: nat
    var rootNode: SymbolicTreeNode?
    var blockStates: map<nat, SymbolicTreeNode>
    var excludedNodes: set<BlockId>
    var lineToBlock: map<nat, seq<BlockId>>

    /** Every node by id, the order they were executed in, and the tree of values
        the heap stands for. */
    ghost var all: seq<SymbolicTreeNode>
    ghost var order: seq<nat>
    ghost var model: Exploration

    ghost function States(): set<ProgramState>
      reads this
    {
      set n | n in all :: n.state
    }

    /** The heap stands for a tree of values. */
    ghost predicate StandsFor(x: Exploration)
      reads this, all, States()
    {
      && WellFormed(program) && ValidTree(program, x)
      && numNodes == |all|
      && ViewsValid(program, ViewsOf(all), x)
      && |all| > 0 && rootNode == all[0]
      && Registered(blockStates, all, x)
    }

    /** The executor's invariant: the heap stands for a tree reached by executing
        pending nodes. */
    ghost predicate Valid()
      reads this, all, States()
    {
      && WellFormed(program) && analysed < |program.functions|
      && model == Explore(program, solve, analysed, order)
      && StandsFor(model)
    }

    constructor (program: Program, solve: Solver, analysed: FunctionId)
      ensures this.program == program && this.solve == solve && this.analysed == analysed
      ensures rootNode == null && numNodes == 0 && blockStates == map[] && excludedNodes == {}
    {
      this.program, this.solve, this.analysed := program, solve, analysed;
      numNodes, rootNode, blockStates, excludedNodes, lineToBlock := 0, null, map[], {}, map[];
      all, order, model := [], [], Exploration([], []);
    }

    /** Starts the analysis: the root stands at the function's entry, its parameters
        symbolic. */
    method Begin()
      requires WellFormed(program) && analysed < |program.functions|
      requires numNodes == 0 && blockStates == map[]
      modifies this`numNodes, this`rootNode, this`all, this`order, this`model
      ensures Valid() && order == [] && model == Initial(program, analysed)
      ensures fresh(all[0]) && |all| == 1 && fresh(all[0].state)
    {
      var rootState := new ProgramState.FromParams(program.functions[analysed].params, []);
      rootNode := new SymbolicTreeNode(program.functions[analysed].entry, rootState, numNodes, -1, None, null);
      numNodes := numNodes + 1;
      all, order, model := [rootNode], [], Initial(program, analysed);
    }

    /** Excludes the blocks of a source line, or the block of an executed node. */
    method Exclude(input: nat, isNode: bool)
      requires isNode ==> input in blockStates
      modifies this`excludedNodes
      ensures excludedNodes == old(excludedNodes) + ExcludedBy(input, isNode)
    {
      var blocks: seq<BlockId> := [];
      if !isNode {
        if input in lineToBlock {
          blocks := lineToBlock[input];
        }
      } else {
        blocks := [blockStates[input].block];
      }
      for i := 0 to |blocks|
        invariant excludedNodes == old(excludedNodes) + (set b | b in blocks[..i])
      {
        assert blocks[..i + 1] == blocks[..i] + [blocks[i]];
        excludedNodes := excludedNodes + {blocks[i]};
      }
      assert blocks[..|blocks|] == blocks;
    }

    function ExcludedBy(input: nat, isNode: bool): set<BlockId>
      reads this, blockStates.Values
      requires isNode ==> input in blockStates
    {
      if isNode then {blockStates[input].block}
      else if input in lineToBlock then set b | b in lineToBlock[input]
      else {}
    }

    /** Executes one instruction that does not split the block. */
    method ExecuteNonBranchingInstruction(ins: Instr, node: SymbolicTreeNode)
      requires !IsSplit(ins)
      modifies node.state
      ensures node.state.Abs() == Step(old(node.state.Abs()), ins)
    {
      var state := node.state;
      match ins
      case Binary(dst, op, l, r) =>
        var lhs := GetExpressionTree(state, l);
        var rhs := GetExpressionTree(state, r);
        state.Add(Reg(dst), Some(Make(OpOf(op), lhs, rhs)));
      case ICmp(dst, pred, l, r) =>
        var lhs := GetExpressionTree(state, l);
        var rhs := GetExpressionTree(state, r);
        state.Add(Reg(dst), Some(Make(OpOfPredicate(pred), lhs, rhs)));
      case Declare(name, cell) => state.AddUserVar(name, Cell(cell));
      case Store(src, cell) =>
        state.AddStore(src, Cell(cell));
        var tree := GetExpressionTree(state, src);
        state.Add(Cell(cell), Some(tree));
      case Load(dst, cell) =>
        var tree := GetExpressionTree(state, Cell(cell));
        state.Add(Reg(dst), Some(tree));
      case _ =>
    }

    method GetExpressionTree(state: ProgramState, v: Value) returns (t: Tree)
      ensures t == Symbolic.Lookup(state.Abs(), v)
    {
      var found := state.Lookup(v);
      t := if found.Some? then found.value else Leaf(Some(v));
    }

    /** The state of a side of a branch: a copy, with the condition added unless the
        condition is a literal or the loop bound forces the exit. */
    method SideState(state: ProgramState, t: Tree, way: bool, toAddConstraint: bool) returns (side: ProgramState)
      ensures fresh(side)
      ensures side.Abs() == if toAddConstraint then Assume(state.Abs(), Constraint(t, way)) else state.Abs()
    {
      side := new ProgramState.CopyOf(state);
      if toAddConstraint {
        side.constraints := side.constraints + [Constraint(t, way)];
        side.AddCondition(Constraint(t, way));
      }
    }

    /** A new node for a successor of `parent`, numbered next, which inherits the
        node to return to. */
    method NewSuccessor(block: BlockId, state: ProgramState, parent: SymbolicTreeNode, loop: LoopInfo) returns (n: SymbolicTreeNode)
      modifies this`numNodes
      ensures fresh(n) && numNodes == old(numNodes) + 1
      ensures n.block == block && n.instructionPtr == 0 && n.hasNext && n.state == state && n.loopInfo == loop
      ensures n.id == old(numNodes) && n.prevId == parent.id && n.returnNode == parent.returnNode
      ensures n.left == null && n.right == null && !n.isExecuted && n.isSatisfiable
    {
      n := new SymbolicTreeNode(block, state, numNodes, parent.id, None, parent.returnNode);
      numNodes := numNodes + 1;
      n.SetLoopInfo(loop.start, loop.executions);
    }

    /** What a branch decides before it creates nodes: whether the loop bound forces
        the exit, and the states and feasibility of its two sides. */
    method BranchSides(ins: Instr, node: SymbolicTreeNode, ghost m: Node)
      returns (forced: bool, first: ProgramState, second: ProgramState, toAddFirst: bool, toAddSecond: bool)
      requires ins.Branch? && Stands(node, m)
      ensures forced == ForcedExit(m)
      ensures fresh(first) && fresh(second) && first != second
      ensures first.Abs() == BranchState(m, ins.cond, true) && second.Abs() == BranchState(m, ins.cond, false)
      ensures toAddSecond == Feasible(solve, m, ins.cond, false)
      ensures !forced ==> toAddFirst == Feasible(solve, m, ins.cond, true)
    {
      var state := node.state;
      var t := GetExpressionTree(state, Reg(ins.cond));
      var toAddConstraint := true;
      toAddFirst, toAddSecond := true, true;
      forced := node.loopInfo.start == Some(node.block) && node.loopInfo.executions >= MAX_EXECUTIONS;
      if IsConstant(t) {
        toAddFirst, toAddSecond := Integer(t) != 0, Integer(t) == 0;
        toAddConstraint := false;
      }
      toAddConstraint := toAddConstraint && !forced;
      first := SideState(state, t, true, toAddConstraint);
      toAddFirst := toAddFirst && solve(first.constraints) != "";
      if forced {
        toAddSecond := true;
      }
      second := SideState(state, t, false, toAddConstraint);
      toAddSecond := toAddSecond && solve(second.constraints) != "";
    }

    lemma BranchCreated(node: SymbolicTreeNode, m: Node, ins: Instr, children: seq<SymbolicTreeNode>, id: nat)
      requires WellFormed(program) && InProgram(program, m) && InRange(program, ins) && ins.Branch?
      requires |children| == if ForcedExit(m) then 1 else 2
      requires |children| == 2 ==>
        Created(children[0], Child(Taken(true), Node(ins.thn, 0, BranchState(m, ins.cond, true), m.loop, m.caller)), node, id, true)
      requires Created(children[|children| - 1], Child(Taken(false), Node(ins.els, 0, BranchState(m, ins.cond, false), m.loop, m.caller)),
                 node, id + |children| - 1, Feasible(solve, m, ins.cond, false))
      ensures CreatedChildren(node, m, ins, children, id)
    {
      hide BranchState, Feasible, Created;
    }

    lemma MarksWhenRefused(ins: Instr, m: Node)
      requires ins.Branch?
      ensures MarksParent(solve, m, ins) <==> !ForcedExit(m) && !Feasible(solve, m, ins.cond, true)
    {
    }

    /** The two sides of a conditional branch, or the false side alone once the loop
        bound is reached. */
    method GetBranchBlocks(ins: Instr, node: SymbolicTreeNode, ghost m: Node) returns (children: seq<SymbolicTreeNode>)
      requires WellFormed(program) && InProgram(program, m) && InRange(program, ins)
      requires ins.Branch? && Stands(node, m)
      modifies this`numNodes, node`isSatisfiable
      ensures CreatedChildren(node, m, ins, children, old(numNodes)) && numNodes == old(numNodes) + |children|
      ensures forall k :: 0 <= k < |children| ==> fresh(children[k]) && fresh(children[k].state)
      ensures |children| == 2 ==> children[0] != children[1] && children[0].state != children[1].state
      ensures node.isSatisfiable == (old(node.isSatisfiable) && !MarksParent(solve, m, ins))
    {
      hide BranchState, Feasible, WellFormed, InProgram, CreatedChildren, ForcedExit, Awaits, MarksParent, ProgramState.Abs;
      MarksWhenRefused(ins, m);
      var forced, first, second, toAddFirst, toAddSecond := BranchSides(ins, node, m);
      children := [];
      if !forced {
        var toPush := NewSuccessor(ins.thn, first, node, node.loopInfo);
        if !toAddFirst {
          node.SetSATInfo(false);
        }
        children := [toPush];
      }
      var toPush := NewSuccessor(ins.els, second, node, node.loopInfo);
      if !toAddSecond {
        toPush.SetSATInfo(false);
      }
      children := children + [toPush];
      BranchCreated(node, m, ins, children, old(numNodes));
    }

    /** The state and the position a caller resumes with. Its own instruction pointer
        steps back to the call and ends where it was. */
    method GetReturnState(node: SymbolicTreeNode, r: SymbolicTreeNode, value: Option<Tree>, ghost m: Node, ghost result: Option<Value>)
      returns (newState: ProgramState, returnPtr: nat)
      requires node.returnNode == r && Stands(node, m) && WellFormed(program) && InProgram(program, m) && ReturnReady(node)
      requires value == if result.Some? then Get(m.state, result.value) else None
      modifies r`instructionPtr, r`hasNext, r`hasPrev
      ensures fresh(newState) && newState.Abs() == ReturnState(program, m, result)
      ensures returnPtr == m.caller.value.ip
      ensures r.instructionPtr == old(r.instructionPtr) && r.hasNext == old(r.hasNext)
    {
      assert InProgram(program, m.caller.value);
      var instrs := program.blocks[r.block].instrs;
      newState := new ProgramState.CopyOf(r.state);
      ProgramState.Copy(node.state, newState, false);
      var at := r.GetPreviousInstruction(instrs);
      if instrs[at].Call? {
        newState.Add(Reg(instrs[at].dst), value);
      }
      returnPtr := at + 1;
      var _ := r.GetNextInstruction(instrs);
    }

    ghost predicate ReturnReady(node: SymbolicTreeNode)
      reads node.returnNode
    {
      node.returnNode != null ==>
        && node.returnNode.block < |program.blocks|
        && node.returnNode.PointerValid(program.blocks[node.returnNode.block].instrs)
        && node.returnNode.instructionPtr > 0
    }

    /** The single successor of a call or a return. */
    lemma OneCreated(node: SymbolicTreeNode, m: Node, ins: Instr, child: SymbolicTreeNode, id: nat)
      requires WellFormed(program) && InProgram(program, m) && InRange(program, ins) && !ins.Branch?
      requires |Successors(program, m, ins)| == 1 && Created(child, Successors(program, m, ins)[0], node, id, true)
      ensures CreatedChildren(node, m, ins, [child], id)
    {
      hide Created, Successors, ProgramState.Abs;
    }

    method GetCalleeBlock(ins: Instr, node: SymbolicTreeNode, ghost m: Node) returns (child: SymbolicTreeNode)
      requires WellFormed(program) && InProgram(program, m) && InRange(program, ins)
      requires ins.Call? && Stands(node, m)
      modifies this`numNodes
      ensures CreatedChildren(node, m, ins, [child], old(numNodes)) && numNodes == old(numNodes) + 1
      ensures fresh(child) && fresh(child.state)
    {
      hide CreatedChildren, BindParams, CopyInto, WellFormed, ProgramState.Abs;
      var arguments := GetArguments(node.state, ins.args);
      assert arguments == seq(|ins.args|, i requires 0 <= i < |ins.args| => Get(m.state, ins.args[i]));
      var newState := new ProgramState.FromParams(program.functions[ins.callee].params, arguments);
      ProgramState.Copy(node.state, newState, false);
      child := new SymbolicTreeNode(program.functions[ins.callee].entry, newState, numNodes, node.id, None, node);
      numNodes := numNodes + 1;
      OneCreated(node, m, ins, child, old(numNodes));
    }

    method GetCallerBlock(ins: Instr, node: SymbolicTreeNode, r: SymbolicTreeNode, ghost m: Node) returns (child: SymbolicTreeNode)
      requires WellFormed(program) && InProgram(program, m) && InRange(program, ins)
      requires ins.Return? && Stands(node, m) && node.returnNode == r && ReturnReady(node)
      modifies this`numNodes, r`instructionPtr, r`hasNext, r`hasPrev
      ensures CreatedChildren(node, m, ins, [child], old(numNodes)) && numNodes == old(numNodes) + 1
      ensures fresh(child) && fresh(child.state)
      ensures r.instructionPtr == old(r.instructionPtr) && r.hasNext == old(r.hasNext)
    {
      hide CreatedChildren, ReturnState, WellFormed, ProgramState.Abs;
      assert InProgram(program, m.caller.value);
      var value := None;
      if ins.result.Some? {
        value := node.state.Lookup(ins.result.value);
      }
      var newState, returnPtr := GetReturnState(node, r, value, m, ins.result);
      child := new SymbolicTreeNode(r.block, newState, numNodes, node.id, Some(returnPtr), r.returnNode);
      numNodes := numNodes + 1;
      OneCreated(node, m, ins, child, old(numNodes));
    }

    /** Executes a splitting instruction: the nodes it leads to, new but for the state
        an unconditional jump hands on. */
    method GetNextBlocks(ins: Instr, node: SymbolicTreeNode, ghost m: Node) returns (children: seq<SymbolicTreeNode>)
      requires WellFormed(program) && InProgram(program, m) && InRange(program, ins) && IsSplit(ins)
      requires Stands(node, m) && ReturnReady(node)
      modifies this`numNodes, node`isSatisfiable
      modifies if node.returnNode != null then {node.returnNode} else {}
      ensures CreatedChildren(node, m, ins, children, old(numNodes)) && numNodes == old(numNodes) + |children|
      ensures forall k :: 0 <= k < |children| ==> fresh(children[k])
      ensures !ins.Jump? ==> forall k :: 0 <= k < |children| ==> fresh(children[k].state)
      ensures forall k :: 0 <= k < |children| ==> fresh(children[k].state) || children[k].state == node.state
      ensures |children| == 2 ==> children[0] != children[1] && children[0].state != children[1].state
      ensures node.isSatisfiable == (old(node.isSatisfiable) && !MarksParent(solve, m, ins))
      ensures node.returnNode != null ==> ReturnNodeKept(node.returnNode)
    {
      children := [];
      if ins.Branch? {
        children := GetBranchBlocks(ins, node, m);
      } else if ins.Jump? {
        var back := program.blocks[ins.target].line < program.blocks[node.block].line;
        var loop := if back then LoopInfo(Some(ins.target), node.loopInfo.executions + 1) else node.loopInfo;
        var child := NewSuccessor(ins.target, node.state, node, loop);
        children := [child];
      } else if ins.Call? {
        var child := GetCalleeBlock(ins, node, m);
        children := [child];
      } else if node.returnNode != null {
        var child := GetCallerBlock(ins, node, node.returnNode, m);
        children := [child];
      }
    }

    method GetArguments(state: ProgramState, args: seq<Value>) returns (trees: seq<Option<Tree>>)
      ensures |trees| == |args| && forall i :: 0 <= i < |args| ==> trees[i] == Get(state.Abs(), args[i])
    {
      trees := [];
      for i := 0 to |args|
        invariant |trees| == i && forall k :: 0 <= k < i ==> trees[k] == Get(state.Abs(), args[k])
      {
        var t := state.Lookup(args[i]);
        trees := trees + [t];
      }
    }

    /** Runs a node's block from its instruction pointer up to the next split, or to
        the end, and returns the nodes that split leads to. */
    method ExecuteBasicBlock(node: SymbolicTreeNode, ghost m: Node) returns (children: seq<SymbolicTreeNode>)
      requires WellFormed(program) && InProgram(program, m)
      requires Stands(node, m) && node.hasNext && m.ip < |program.blocks[m.block].instrs| && ReturnReady(node)
      modifies this`numNodes, node`isSatisfiable, node`instructionPtr, node`hasNext, node`hasPrev, node.state
      modifies if node.returnNode != null then {node.returnNode} else {}
      ensures Stands(node, Executed(program, m)) && node.PointerValid(program.blocks[m.block].instrs)
      ensures CreatedAll(node, m, children, old(numNodes)) && numNodes == old(numNodes) + |children|
      ensures forall k :: 0 <= k < |children| ==> fresh(children[k])
      ensures NodeSegment(program, m).split.Some? && !NodeSegment(program, m).split.value.Jump? ==>
                forall k :: 0 <= k < |children| ==> fresh(children[k].state)
      ensures forall k :: 0 <= k < |children| ==> fresh(children[k].state) || children[k].state == node.state
      ensures |children| == 2 ==> children[0] != children[1] && children[0].state != children[1].state
      ensures node.isSatisfiable == (old(node.isSatisfiable) && !Marked(program, solve, m))
      ensures node.returnNode != null ==> ReturnNodeKept(node.returnNode)
    {
      hide CreatedView, Step, MarksParent, ChildFeasible, Successors, CreatedChildren, CreatedAll, Feasible, InRange, IsSplit, BranchState, ProgramState.Abs;
      NothingCreated(node, m, numNodes);
      var instrs := program.blocks[node.block].instrs;
      children := [];
      while node.hasNext
        invariant node.PointerValid(instrs)
        invariant numNodes == old(numNodes) && node.isSatisfiable == old(node.isSatisfiable)
        invariant RunSegment(instrs, node.instructionPtr, node.state.Abs()) == RunSegment(instrs, m.ip, m.state)
        invariant Stands(node, m.(ip := node.instructionPtr, state := node.state.Abs()))
        invariant node.returnNode != null ==> ReturnNodeKept(node.returnNode)
        decreases |instrs| - node.instructionPtr
      {
        var at := node.GetNextInstruction(instrs);
        if IsSplit(instrs[at]) {
          children := GetNextBlocks(instrs[at], node, Executed(program, m));
          AllCreated(node, m, instrs[at], children, old(numNodes));
          return;
        }
        ExecuteNonBranchingInstruction(instrs[at], node);
      }
    }

    lemma AllCreated(node: SymbolicTreeNode, m: Node, ins: Instr, children: seq<SymbolicTreeNode>, first: nat)
      requires WellFormed(program) && InProgram(program, m) && InRange(program, ins)
      requires NodeSegment(program, m).split == Some(ins) && CreatedChildren(node, Executed(program, m), ins, children, first)
      ensures CreatedAll(node, m, children, first)
    {
      hide Created, ChildFeasible;
    }

    lemma NothingCreated(node: SymbolicTreeNode, m: Node, first: nat)
      requires WellFormed(program) && InProgram(program, m)
      ensures NodeSegment(program, m).split.None? ==> CreatedAll(node, m, [], first)
    {
    }

    /** The nodes created for all of `m`'s children. */
    ghost predicate CreatedAll(node: SymbolicTreeNode, m: Node, blocks: seq<SymbolicTreeNode>, first: nat)
      requires WellFormed(program) && InProgram(program, m)
      reads blocks, set c | c in blocks :: c.state
    {
      var cs := Children(program, m);
      && |blocks| == |cs| <= 2
      && forall k :: 0 <= k < |cs| ==>
           Created(blocks[k], cs[k], node, first + k,
             ChildFeasible(solve, Executed(program, m), NodeSegment(program, m).split.value, cs[k].edge))
    }

    /** A pending node is where its record says, and so is the caller it waits for. */
    lemma PendingStands(node: SymbolicTreeNode, id: nat, x: Exploration)
      requires StandsFor(x) && id < |all| && all[id] == node && !node.isExecuted
      ensures WellFormed(program) && id < |x.nodes| && InProgram(program, x.nodes[id].node)
      ensures NodeValid(program, x, id) && Pending(x, id) && node.id == id
      ensures Stands(node, x.nodes[id].node) && ReturnReady(node) && node.hasNext
      ensures x.nodes[id].node.ip < |program.blocks[node.block].instrs|
      ensures node.left == null && node.right == null
      ensures node.returnNode != null ==> node.returnNode in all
    {
      assert ViewMatches(program, ViewsOf(all), x, id) && NodeValid(program, x, id);
      var r := node.returnNode;
      if r != null {
        assert ViewMatches(program, ViewsOf(all), x, r.id) && NodeValid(program, x, r.id);
        assert OwnStatesDistinct(program, ViewsOf(all), x);
        assert OwnsState(program, x.nodes[r.id]) && OwnsState(program, x.nodes[id]);
      }
    }

    /** Runs a pending node's block, unless the node is infeasible. */
    method RunIfFeasible(node: SymbolicTreeNode, ghost m: Node) returns (blocks: seq<SymbolicTreeNode>)
      requires WellFormed(program) && InProgram(program, m) && Stands(node, m) && ReturnReady(node)
      requires node.hasNext && m.ip < |program.blocks[m.block].instrs|
      requires !node.isExecuted && node.left == null && node.right == null
      modifies this`numNodes, node`isSatisfiable, node`instructionPtr, node`hasNext, node`hasPrev, node.state
      modifies if node.returnNode != null then {node.returnNode} else {}
      ensures RanNode(node, m, old(ViewOf(node)), blocks, old(numNodes))
      ensures !old(node.isSatisfiable) ==> blocks == [] && ViewOf(node) == old(ViewOf(node))
      ensures NodeSegment(program, m).split.Some? && !NodeSegment(program, m).split.value.Jump? ==>
                forall k :: 0 <= k < |blocks| ==> fresh(blocks[k].state)
      ensures forall k :: 0 <= k < |blocks| ==> fresh(blocks[k].state) || blocks[k].state == node.state
      ensures numNodes == old(numNodes) + |blocks| && |blocks| <= 2
      ensures forall k :: 0 <= k < |blocks| ==> fresh(blocks[k])
      ensures |blocks| == 2 ==> blocks[0].state != blocks[1].state
      ensures node.returnNode != null ==> ReturnNodeKept(node.returnNode)
    {
      blocks := [];
      if node.isSatisfiable {
        blocks := ExecuteBasicBlock(node, m);
      }
    }

    /** Records a node as executed, and links and queues its children. */
    method FinishPending(node: SymbolicTreeNode, blocks: seq<SymbolicTreeNode>, isBFS: bool, dir: bool, deque: seq<SymbolicTreeNode>,
      ghost m: Node, ghost before: View, ghost first: nat)
      returns (pushed: seq<SymbolicTreeNode>)
      requires |blocks| <= 2 && node.left == null && node.right == null && node !in blocks
      requires WellFormed(program) && InProgram(program, m) && RanNode(node, m, before, blocks, first)
      modifies this`blockStates, node`isExecuted, node`left, node`right
      ensures RanNode(node, m, before, blocks, first)
      ensures blockStates == old(blockStates)[node.id := node] && node.isExecuted
      ensures node.left == (if |blocks| > 0 then blocks[0] else null)
      ensures node.right == (if |blocks| > 1 then blocks[1] else null)
      ensures pushed == PushNodes(isBFS, dir, deque, node.left, node.right)
    {
      hide WellFormed, InProgram, RanBlock, CreatedViews, PushNodes;
      ghost var views := ViewsOf(blocks);
      node.isExecuted := true;
      blockStates := blockStates[node.id := node];
      pushed := PushNewBlocks(node, blocks, isBFS, dir, deque);
      assert ViewsOf(blocks) == views;
    }

    /** What running a pending node's block has made of it, and which nodes it makes. */
    ghost predicate RanNode(node: SymbolicTreeNode, m: Node, before: View, blocks: seq<SymbolicTreeNode>, first: nat)
      requires WellFormed(program) && InProgram(program, m)
      reads node, node.state, blocks, set n | n in blocks :: n.state
    {
      if before.satisfiable then
        && RanBlock(program, solve, m, node.state.Abs(), node.instructionPtr, node.hasNext, node.isSatisfiable)
        && CreatedViews(program, solve, node, ViewsOf(blocks), m, first)
      else blocks == [] && ViewOf(node).(executed := false, left := null, right := null) == before
    }

    ghost predicate NewBlocks(m: Node, blocks: seq<SymbolicTreeNode>, taken: set<ProgramState>)
      requires WellFormed(program) && InProgram(program, m)
    {
      && |blocks| <= 2 && (|blocks| == 2 ==> blocks[0].state != blocks[1].state)
      && (NodeSegment(program, m).split.Some? && !NodeSegment(program, m).split.value.Jump? ==>
            forall k :: 0 <= k < |blocks| ==> blocks[k].state !in taken)
    }

    /** Runs a pending node's block without touching what other nodes own. */
    method RunKeepingOthers(node: SymbolicTreeNode, ghost id: nat, ghost x: Exploration) returns (blocks: seq<SymbolicTreeNode>)
      requires StandsFor(x) && id < |all| && all[id] == node && !node.isExecuted
      modifies this`numNodes, node`isSatisfiable, node`instructionPtr, node`hasNext, node`hasPrev, node.state
      modifies if node.returnNode != null then {node.returnNode} else {}
      ensures NodeValid(program, x, id) && node.id == id && numNodes == old(numNodes) + |blocks| && |blocks| <= 2
      ensures OthersKept(old(ViewsOf(all)), ViewsOf(all), id)
      ensures RanNode(node, x.nodes[id].node, old(ViewOf(node)), blocks, old(numNodes))
      ensures NewBlocks(x.nodes[id].node, blocks, States())
      ensures forall k :: 0 <= k < |blocks| ==> fresh(blocks[k]) && (fresh(blocks[k].state) || blocks[k].state == node.state)
      ensures node.left == null && node.right == null && !node.isExecuted && node.loopInfo == old(node.loopInfo)
    {
      hide NodeSegment, Executed, RanNode, WellFormed, InProgram, StandsFor, NodeValid, Stands, ReturnReady, ProgramState.Abs, CreatedView, CreatedAll;
      PendingStands(node, id, x);
      IdsArePositions(x);
      ghost var before := ViewsOf(all);
      blocks := RunIfFeasible(node, x.nodes[id].node);
      forall j {:trigger all[j]} | 0 <= j < |all| && j != id
        ensures ViewOf(all[j]).(state := before[j].state) == before[j]
        ensures all[j].state != node.state ==> ViewOf(all[j]) == before[j]
      {
        assert all[j].id == j;
      }
    }

    /** Runs a pending node and links and queues its children. */
    method RunAndLink(node: SymbolicTreeNode, isBFS: bool, dir: bool, deque: seq<SymbolicTreeNode>, ghost id: nat, ghost x: Exploration)
      returns (pushed: seq<SymbolicTreeNode>, blocks: seq<SymbolicTreeNode>)
      requires StandsFor(x) && id < |all| && all[id] == node && !node.isExecuted
      modifies this`numNodes, this`blockStates, node, node.state
      modifies if node.returnNode != null then {node.returnNode} else {}
      ensures NodeValid(program, x, id) && node.id == id && numNodes == old(numNodes) + |blocks|
      ensures OthersKept(old(ViewsOf(all)), ViewsOf(all), id)
      ensures RanNode(node, x.nodes[id].node, old(ViewOf(node)), blocks, old(numNodes))
      ensures NewBlocks(x.nodes[id].node, blocks, States())
      ensures forall k :: 0 <= k < |blocks| ==> fresh(blocks[k]) && (fresh(blocks[k].state) || blocks[k].state == node.state)
      ensures node.isExecuted && node.loopInfo == old(node.loopInfo)
      ensures node.left == (if |blocks| > 0 then blocks[0] else null)
      ensures node.right == (if |blocks| > 1 then blocks[1] else null)
      ensures blockStates == old(blockStates)[id := node]
      ensures pushed == PushNodes(isBFS, dir, deque, node.left, node.right)
    {
      hide NodeSegment, Executed, RanNode, WellFormed, InProgram, StandsFor, NodeValid, Stands, ReturnReady, PushNodes, OthersKept, NewBlocks, ProgramState.Abs;
      ghost var before, first := ViewsOf(all), numNodes;
      PendingStands(node, id, x);
      IdsArePositions(x);
      blocks := RunKeepingOthers(node, id, x);
      ghost var ran := ViewsOf(all);
      pushed := FinishPending(node, blocks, isBFS, dir, deque, x.nodes[id].node, before[id], first);
      assert forall j {:trigger all[j]} :: 0 <= j < |all| && j != id ==> ViewOf(all[j]) == ran[j];
      OthersKeptStill(before, ran, ViewsOf(all), id);
    }

    /** The views after a run, from what running and linking the node has done. */
    lemma RanFrom(node: SymbolicTreeNode, m: Node, id: nat, before: seq<View>, kept: seq<View>, blocks: seq<SymbolicTreeNode>, taken: set<ProgramState>)
      requires WellFormed(program) && InProgram(program, m)
      requires OthersKept(before, kept, id) && |kept| == |before|
      requires before[id].self == node && kept[id] == ViewOf(node)
      requires node.isExecuted && node.loopInfo == before[id].loop
      requires node.left == (if |blocks| > 0 then blocks[0] else null)
      requires node.right == (if |blocks| > 1 then blocks[1] else null)
      requires !before[id].executed && before[id].left == null && before[id].right == null
      requires RanNode(node, m, before[id], blocks, |before|)
      requires NewBlocks(m, blocks, taken) && forall j {:trigger before[j]} :: 0 <= j < |before| ==> before[j].self.state in taken
      ensures Ran(program, solve, before, kept + ViewsOf(blocks), m, id)
      ensures OthersKept(before, kept + ViewsOf(blocks), id)
    {
      hide NodeSegment, Executed, CreatedViews, RanBlock, WellFormed, InProgram;
      var after := kept + ViewsOf(blocks);
      assert after[|before|..] == ViewsOf(blocks);
      OthersKeptAppend(before, kept, ViewsOf(blocks), id);
    }

    /** Executes a pending node and queues its children: what that does to the heap. */
    method RunPending(node: SymbolicTreeNode, isBFS: bool, dir: bool, deque: seq<SymbolicTreeNode>, ghost id: nat, ghost x: Exploration)
      returns (pushed: seq<SymbolicTreeNode>)
      requires StandsFor(x) && id < |all| && all[id] == node && !node.isExecuted
      modifies this`numNodes, this`blockStates, this`all, node, node.state
      modifies if node.returnNode != null then {node.returnNode} else {}
      ensures NodeValid(program, x, id) && node.id == id
      ensures Ran(program, solve, old(ViewsOf(all)), ViewsOf(all), x.nodes[id].node, id)
      ensures OthersKept(old(ViewsOf(all)), ViewsOf(all), id)
      ensures |old(all)| <= |all| && all[..|old(all)|] == old(all) && numNodes == |all|
      ensures forall k :: |old(all)| <= k < |all| ==> fresh(all[k]) && (fresh(all[k].state) || all[k].state == node.state)
      ensures blockStates == old(blockStates)[id := node]
      ensures pushed == PushNodes(isBFS, dir, deque, node.left, node.right)
    {
      hide ValidTree, WellFormed, InProgram, Registered, NodeValid, OthersKept, RanNode, NewBlocks, Ran, PushNodes, Stands, ReturnReady, ProgramState.Abs;
      IdsArePositions(x);
      PendingStands(node, id, x);
      hide ViewsValid;
      ghost var before, taken := ViewsOf(all), States();
      var blocks;
      pushed, blocks := RunAndLink(node, isBFS, dir, deque, id, x);
      ghost var kept := ViewsOf(all);
      RanFrom(node, x.nodes[id].node, id, before, kept, blocks, taken);
      all := all + blocks;
      assert ViewsOf(all) == kept + ViewsOf(blocks);
    }

    lemma IdsArePositions(x: Exploration)
      requires StandsFor(x)
      ensures forall j {:trigger all[j]} :: 0 <= j < |all| ==> all[j].id == j
    {
      forall j | 0 <= j < |all|
        ensures all[j].id == j
      {
        assert ViewMatches(program, ViewsOf(all), x, j);
      }
    }

    /** The tree of values after node `id` has run. */
    lemma Recorded(id: nat, before: seq<View>, views: seq<View>, nodes: seq<SymbolicTreeNode>, index: map<nat, SymbolicTreeNode>,
      more: seq<SymbolicTreeNode>, x: Exploration, ids: seq<nat>)
      requires WellFormed(program) && analysed < |program.functions|
      requires x == Explore(program, solve, analysed, ids) && ViewsValid(program, before, x)
      requires |nodes| <= |more| == |views| && more[..|nodes|] == nodes
      requires Pending(x, id) && NodeValid(program, x, id)
      requires Ran(program, solve, before, views, x.nodes[id].node, id)
      requires Registered(index, nodes, x)
      ensures Explore(program, solve, analysed, ids + [id]) == BlockExecutor(program, solve)(x, id)
      ensures BlockExecutor(program, solve)(x, id).log == x.log + [id]
      ensures ViewsValid(program, views, Explore(program, solve, analysed, ids + [id]))
      ensures Registered(index[id := nodes[id]], more, Explore(program, solve, analysed, ids + [id]))
    {
      ExploreStep(program, solve, analysed, ids, id);
      var y := ExecuteNode(program, solve, x, id);
      RanKeepsViews(program, solve, before, views, x, id, y);
      StepRegisters(index, nodes, more, x, id, y);
    }

    /** Nodes that own their state see nothing of another node's execution. */
    lemma OwnersUntouched(id: nat, before: seq<View>, after: seq<View>, x: Exploration)
      requires ViewsValid(program, before, x) && Pending(x, id) && OthersKept(before, after, id)
      ensures |x.nodes| == |before|
      ensures forall j {:trigger after[j]} :: 0 <= j < |before| && j != id && OwnsState(program, x.nodes[j]) ==> after[j] == before[j]
    {
      assert OwnStatesDistinct(program, before, x);
      assert OwnsState(program, x.nodes[id]);
    }

    /** The loop's main turn. On the tree of values it is one execution of the node. */
    method ExecutePending(node: SymbolicTreeNode, isBFS: bool, dir: bool, deque: seq<SymbolicTreeNode>, ghost id: nat)
      returns (pushed: seq<SymbolicTreeNode>)
      requires Valid() && id < |all| && all[id] == node && !node.isExecuted
      modifies this`numNodes, this`blockStates, this`all, this`order, this`model, node, node.state
      modifies if node.returnNode != null then {node.returnNode} else {}
      ensures Valid() && order == old(order) + [id] && Pending(old(model), id)
      ensures |old(model).nodes| == |old(all)| <= |all|
      ensures forall j {:trigger ViewsOf(all)[j]} :: 0 <= j < |old(all)| && j != id && OwnsState(program, old(model).nodes[j]) ==>
                ViewsOf(all)[j] == old(ViewsOf(all))[j]
      ensures model == BlockExecutor(program, solve)(old(model), id) && model.log == old(model.log) + [id]
      ensures |old(all)| <= |all| && all[..|old(all)|] == old(all)
      ensures forall k :: |old(all)| <= k < |all| ==> fresh(all[k]) && (fresh(all[k].state) || all[k].state == node.state)
      ensures pushed == PushNodes(isBFS, dir, deque, node.left, node.right)
    {
      hide Ran, ViewsValid, ValidTree, WellFormed, Explore, Registered, BlockExecutor, OwnsState, OthersKept, PushNodes, ProgramState.Abs;
      PendingStands(node, id, model);
      ghost var x, before := model, ViewsOf(all);
      order := order + [id];
      model := Explore(program, solve, analysed, order);
      assert ViewsOf(all) == before;
      pushed := RunPending(node, isBFS, dir, deque, id, x);
      OwnersUntouched(id, before, ViewsOf(all), x);
      Recorded(id, before, ViewsOf(all), old(all), old(blockStates), all, x, old(order));
    }

    /** The deque holds nodes of the tree. */
    ghost predicate Queued(deque: seq<SymbolicTreeNode>)
      reads this
    {
      forall k :: 0 <= k < |deque| ==> deque[k].id < |all| && all[deque[k].id] == deque[k]
    }

    /** What a heap node shows of its record. */
    lemma Shows(node: SymbolicTreeNode, id: nat)
      requires StandsFor(model) && id < |all| && all[id] == node
      ensures |model.nodes| == |all| && node.id == id
      ensures var t := model.nodes[id];
              && node.block == t.node.block && node.isExecuted == t.executed && node.isSatisfiable == t.satisfiable
              && LinkId(node.left) == t.left && LinkId(node.right) == t.right
      ensures node.left != null ==> node.left.id < |all| && all[node.left.id] == node.left
      ensures node.right != null ==> node.right.id < |all| && all[node.right.id] == node.right
    {
      IdsArePositions(model);
      assert ViewMatches(program, ViewsOf(all), model, id);
    }

    /** No two nodes that are yet to run or await a return share a state. */
    lemma OwnStatesAreIsolated(m: SymbolicTreeNode, n: SymbolicTreeNode)
      requires Valid() && m in all && n in all && m != n
      requires m.id < |model.nodes| && OwnsState(program, model.nodes[m.id])
      requires n.id < |model.nodes| && OwnsState(program, model.nodes[n.id])
      ensures m.state != n.state && n.state.Abs() == model.nodes[n.id].node.state && n.instructionPtr == model.nodes[n.id].node.ip
    {
      hide WellFormed, Explore, ValidTree, Registered;
      IdsArePositions(model);
      assert OwnStatesDistinct(program, ViewsOf(all), model);
      assert ViewMatches(program, ViewsOf(all), model, n.id);
    }

    /** The nodes and states in use, but for new ones, are those of before. */
    twostate predicate OnlyNew()
      reads this
    {
      && |old(all)| <= |all| && all[..|old(all)|] == old(all)
      && (forall k :: 0 <= k < |all| ==> all[k] in old(all) || fresh(all[k]))
      && (forall s :: s in States() ==> s in old(States()) || fresh(s))
    }

    lemma WorkOnHeap(deque: seq<SymbolicTreeNode>, steps: nat)
      requires StandsFor(model) && Queued(deque)
      ensures ValidWork(program, Work(model, Ids(deque), steps))
    {
    }

    lemma PushedAreQueued(node: SymbolicTreeNode, deque: seq<SymbolicTreeNode>, isBFS: bool, dir: bool)
      requires StandsFor(model) && Queued(deque) && node.id < |all| && all[node.id] == node
      ensures Queued(PushNodes(isBFS, dir, deque, node.left, node.right))
    {
      Shows(node, node.id);
    }

    /** One turn of the exploration loop: skip an excluded node, replay an executed
        one, or execute a pending one, which costs a step. */
    method OneTurn(isBFS: bool, dir: bool, deque: seq<SymbolicTreeNode>, ghost steps: nat)
      returns (rest: seq<SymbolicTreeNode>, reported: seq<nat>)
      requires Valid() && Queued(deque) && deque != [] && steps > 0
      requires Steady(program, BlockExecutor(program, solve))
      modifies this`numNodes, this`blockStates, this`all, this`order, this`model, all, States()
      ensures Valid() && Queued(rest) && OnlyNew()
      ensures |reported| <= 1 && model.log == old(model.log) + reported
      ensures ValidWork(program, Work(old(model), Ids(deque), steps))
      ensures Work(model, Ids(rest), steps - |reported|)
           == Turn(program, BlockExecutor(program, solve), Mode(isBFS, dir, excludedNodes), Work(old(model), Ids(deque), steps))
    {
      hide ViewsValid, ValidTree, WellFormed, Explore, Registered, Steady, BlockExecutor, Turn, ValidWork, PushChildren, PushNodes;
      var node := deque[0];
      ghost var id, mode := node.id, Mode(isBFS, dir, excludedNodes);
      rest, reported := deque[1..], [];
      Shows(node, id);
      WorkOnHeap(deque, steps);
      assert Ids(deque) == [id] + Ids(rest);
      TurnByKind(program, BlockExecutor(program, solve), mode, model, id, Ids(rest), Ids(deque), steps);
      if node.block in excludedNodes {
        return;
      }
      if node.isExecuted {
        if node.isSatisfiable {
          IdsOfPush(isBFS, dir, excludedNodes, rest, model.nodes[id], node.left, node.right);
          PushedAreQueued(node, rest, isBFS, dir);
          rest := PushNodes(isBFS, dir, rest, node.left, node.right);
        }
        return;
      }
      reported := [node.id];
      rest := ExecuteFirst(node, isBFS, dir, rest, id);
    }

    method ExecuteFirst(node: SymbolicTreeNode, isBFS: bool, dir: bool, deque: seq<SymbolicTreeNode>, ghost id: nat)
      returns (rest: seq<SymbolicTreeNode>)
      requires Valid() && Queued(deque) && id < |all| && all[id] == node && !node.isExecuted
      modifies this`numNodes, this`blockStates, this`all, this`order, this`model, all, States()
      ensures Valid() && Queued(rest) && OnlyNew()
      ensures model == BlockExecutor(program, solve)(old(model), id) && id < |model.nodes|
      ensures model.log == old(model.log) + [id]
      ensures Ids(rest) == PushChildren(Mode(isBFS, dir, excludedNodes), Ids(deque), model.nodes[id])
    {
      hide ViewsValid, ValidTree, WellFormed, Explore, Registered, BlockExecutor, PushChildren, PushNodes;
      PendingStands(node, id, model);
      rest := ExecutePending(node, isBFS, dir, deque, id);
      Shows(node, id);
      PushedAreQueued(node, deque, isBFS, dir);
      IdsOfPush(isBFS, dir, excludedNodes, deque, model.nodes[id], node.left, node.right);
    }

    /** The deque a round starts with: the root, or the children of a chosen node. */
    method StartDeque(dir: bool, from: Option<nat>) returns (deque: seq<SymbolicTreeNode>)
      requires Valid() && (from.Some? ==> from.value in blockStates)
      ensures Queued(deque) && (from.Some? ==> from.value < |model.nodes|)
      ensures forall isBFS :: Ids(deque) == Start(model, Mode(isBFS, dir, excludedNodes), from)
    {
      hide WellFormed, Explore;
      if from.None? {
        deque := [rootNode];
        Shows(rootNode, 0);
      } else {
        var node := blockStates[from.value];
        Shows(node, from.value);
        hide *;
        deque := PushNode(dir, [], node.left);
        ghost var first := deque;
        deque := PushNode(dir, deque, node.right);
        IdsOfPushOne(dir, dir, excludedNodes, [], node.left);
        IdsOfPushOne(dir, dir, excludedNodes, first, node.right);
      }
    }

    /** An unlimited round from here comes to an end. */
    ghost predicate CanFinish(isBFS: bool, dir: bool, from: Option<nat>)
      reads this
    {
      && WellFormed(program) && (from.Some? ==> from.value < |model.nodes|)
      && var mode := Mode(isBFS, dir, excludedNodes);
      Ends(program, BlockExecutor(program, solve), mode, model, Start(model, mode, from))
    }

    /** The steps a round may take: as many as asked for, or as many as there is work for. */
    ghost function Budget(isBFS: bool, dir: bool, steps: int, from: Option<nat>): nat
      reads this
      requires steps == -1 ==> CanFinish(isBFS, dir, from)
    {
      if steps == -1 then
        var mode := Mode(isBFS, dir, excludedNodes);
        Enough(program, BlockExecutor(program, solve), mode, model, Start(model, mode, from))
      else if steps < 0 then 0
      else steps
    }

    /** It does, whatever has been explored before, in a program without recursion whose
        loop headers call nothing. */
    lemma LoopShapedCanFinish(rank: Ranking, isBFS: bool, dir: bool, from: Option<nat>)
      requires Valid() && (from.Some? ==> from.value in blockStates) && LoopShaped(program, rank)
      ensures CanFinish(isBFS, dir, from)
    {
      hide Explore, LoopShaped, Ends, Start, ViewsValid, Height;
      var mode := Mode(isBFS, dir, excludedNodes);
      StartInTree(program, model, mode, from);
      ExplorationTerminates(program, solve, rank, mode, analysed, order, Start(model, mode, from));
    }

    /** One round of exploration, as the tree of values has it. It reports the ids of
        the nodes it newly executes, in order. */
    method SymbolicExecute(isBFS: bool, dir: bool, steps: int, from: Option<nat>) returns (reported: seq<nat>)
      requires Valid() && (from.Some? ==> from.value in blockStates)
      requires steps == -1 ==> CanFinish(isBFS, dir, from)
      modifies this`numNodes, this`blockStates, this`all, this`order, this`model, all, States()
      ensures Valid() && OnlyNew()
      ensures Steady(program, BlockExecutor(program, solve)) && (from.Some? ==> from.value < |old(model).nodes|)
      ensures var mode := Mode(isBFS, dir, excludedNodes);
              var w := Work(old(model), Start(old(model), mode, from), old(Budget(isBFS, dir, steps, from)));
              && ValidWork(program, w)
              && model == Round(program, BlockExecutor(program, solve), mode, w).tree
              && (steps == -1 ==> Round(program, BlockExecutor(program, solve), mode, w).queue == [])
      ensures model.log == old(model.log) + reported
      ensures BeginsAt(dir, excludedNodes, old(model), from, reported)
      ensures !isBFS ==> GoesDown(dir, excludedNodes, model, reported)
      ensures isBFS && excludedNodes == {} && from.None? && |old(model).nodes| > 0 && !old(model).nodes[0].executed ==>
                reported <= [0] + AllKids(dir, model, reported)
    {
      hide GoesDown, BeginsAt, AllKids;
      hide StandsFor, Queued, InTree, Steady, Explore, WellFormed, Turn, Round, BlockExecutor, QueueWeight, Start, ValidTree;
      reported := [];
      BlockExecutorIsSteady(program, solve);
      ghost var mode, exec := Mode(isBFS, dir, excludedNodes), BlockExecutor(program, solve);
      ghost var budget: nat := Budget(isBFS, dir, steps, from);
      var deque := StartDeque(dir, from);
      WorkOnHeap(deque, budget);
      ghost var goal := Round(program, exec, mode, Work(model, Ids(deque), budget));
      var i := 0;
      while (i < steps || steps == -1) && deque != []
        invariant Valid() && Queued(deque) && OnlyNew()
        invariant ValidWork(program, Work(model, Ids(deque), budget))
        invariant Round(program, exec, mode, Work(model, Ids(deque), budget)) == goal
        invariant steps != -1 ==> budget == if i < steps then steps - i else 0
        invariant model.log == old(model.log) + reported
        decreases budget, QueueWeight(program, model, Ids(deque))
      {
        RoundStops(program, exec, mode, Work(model, Ids(deque), budget));
        RoundUnrolls(program, exec, mode, Work(model, Ids(deque), budget));
        var rest, more := OneTurn(isBFS, dir, deque, budget);
        deque, reported := rest, reported + more;
        i, budget := i + |more|, budget - |more|;
      }
      RoundStops(program, exec, mode, Work(model, Ids(deque), budget));
      RoundOrder(program, exec, mode, old(model), from, old(Budget(isBFS, dir, steps, from)), model, reported);
    }

    /** Links a node's children, in the order the direction asks for, and queues them. */
    method PushNewBlocks(node: SymbolicTreeNode, blocks: seq<SymbolicTreeNode>, isBFS: bool, dir: bool, deque: seq<SymbolicTreeNode>)
      returns (pushed: seq<SymbolicTreeNode>)
      requires |blocks| <= 2
      modifies node`left, node`right
      ensures node.left == (if |blocks| > 0 then blocks[0] else old(node.left))
      ensures node.right == (if |blocks| > 1 then blocks[1] else old(node.right))
      ensures pushed == PushNodes(isBFS, dir, deque, if |blocks| > 0 then blocks[0] else null, if |blocks| > 1 then blocks[1] else null)
    {
      pushed := deque;
      for j := 0 to |blocks|
        invariant j == 0 ==> pushed == deque && node.left == old(node.left) && node.right == old(node.right)
        invariant j == 1 && (|blocks| == 1 || !dir) ==>
                    pushed == PushNode(isBFS, deque, blocks[0]) && node.left == blocks[0] && node.right == old(node.right)
        invariant j == 1 && |blocks| == 2 && dir ==>
                    pushed == PushNode(isBFS, deque, blocks[1]) && node.right == blocks[1] && node.left == old(node.left)
        invariant j == 2 ==> node.left == blocks[0] && node.right == blocks[1]
        invariant j == 2 ==> pushed == PushNodes(isBFS, dir, deque, blocks[0], blocks[1])
      {
        var k := if dir then |blocks| - 1 - j else j;
        if k == 0 {
          node.left := blocks[k];
        } else {
          node.right := blocks[k];
        }
        pushed := PushNode(isBFS, pushed, blocks[k]);
      }
    }

    /** The children of `node` are new nodes for `m`'s successors, numbered from `id`. */
    ghost predicate CreatedChildren(node: SymbolicTreeNode, m: Node, ins: Instr, children: seq<SymbolicTreeNode>, id: nat)
      requires WellFormed(program) && InProgram(program, m) && InRange(program, ins)
      reads children, set c | c in children :: c.state
    {
      var cs := Successors(program, m, ins);
      && |children| == |cs|
      && forall k :: 0 <= k < |cs| ==> Created(children[k], cs[k], node, id + k, ChildFeasible(solve, m, ins, cs[k].edge))
    }
  }

  /** A return leaves its call node as it found it. */
  twostate predicate ReturnNodeKept(r: SymbolicTreeNode)
    reads r
  {
    && r.instructionPtr == old(r.instructionPtr) && r.hasNext == old(r.hasNext)
    && r.left == old(r.left) && r.right == old(r.right)
    && r.isExecuted == old(r.isExecuted) && r.isSatisfiable == old(r.isSatisfiable)
    && r.loopInfo == old(r.loopInfo)
  }
}
