/**
 The heap of tree nodes seen as values: what every node's fields hold, how that
 relates to the tree of values, and why one execution keeps the relation although
 states are shared.
 */
module TreeViews {
  import opened Wrappers
  import opened Program
  import opened Symbolic
  import opened Exploration
  import opened ProgramStates
  import opened TreeNodes

  function Instrs(p: Program, b: BlockId): seq<Instr> {
    if b < |p.blocks| then p.blocks[b].instrs else []
  }

  /** The node stands just past a call. */
  predicate AtCall(p: Program, n: Node) {
    var instrs := Instrs(p, n.block);
    0 < n.ip < |instrs| && instrs[n.ip - 1].Call?
  }

  /** What the heap holds for a node: its identity, its state's, and their fields. */
  datatype View = View(
    self: SymbolicTreeNode,
    state: State,
    ptr: nat,
    hasNext: bool,
    executed: bool,
    satisfiable: bool,
    loop: LoopInfo,
    left: SymbolicTreeNode?,
    right: SymbolicTreeNode?)

  ghost function ViewsOf(nodes: seq<SymbolicTreeNode>): (views: seq<View>)
    reads nodes, set n | n in nodes :: n.state
    ensures |views| == |nodes| && forall i {:trigger views[i]} :: 0 <= i < |nodes| ==> views[i] == ViewOf(nodes[i])
  {
    seq(|nodes|, i requires 0 <= i < |nodes| reads nodes, set n | n in nodes :: n.state => ViewOf(nodes[i]))
  }

  ghost function ViewOf(n: SymbolicTreeNode): View
    reads n, n.state
  {
    View(n, n.state.Abs(), n.instructionPtr, n.hasNext, n.isExecuted, n.isSatisfiable, n.loopInfo, n.left, n.right)
  }

  /** A node whose state is its own: it has yet to run, or waits for a call. The
      others may share theirs with a child. */
  predicate OwnsState(p: Program, t: TreeNode) {
    !t.executed || AtCall(p, t.node)
  }

  ghost predicate LinkMatches(views: seq<View>, link: SymbolicTreeNode?, id: Option<nat>) {
    if link == null then id.None? else id.Some? && id.value < |views| && views[id.value].self == link
  }

  /** The heap node to return to against the caller recorded for `t`. */
  ghost predicate CallerMatches(p: Program, views: seq<View>, x: Exploration, r: SymbolicTreeNode?, caller: Option<Node>, bound: nat)
    requires |views| == |x.nodes|
  {
    if r == null then caller.None?
    else
      && caller.Some? && r.id < bound && r.id < |views| && views[r.id].self == r
      && x.nodes[r.id].executed && AtCall(p, x.nodes[r.id].node) && x.nodes[r.id].node == caller.value
  }

  /** Heap node `i` against its record. An owned state, with the pointer, is exactly
      the recorded one. */
  ghost predicate ViewMatches(p: Program, views: seq<View>, x: Exploration, i: nat)
    requires |views| == |x.nodes| && i < |views|
  {
    var v, t := views[i], x.nodes[i];
    && v.self.id == i && v.self.block == t.node.block && v.self.prevId == t.parent
    && v.executed == t.executed && v.satisfiable == t.satisfiable && v.loop == t.node.loop
    && LinkMatches(views, v.left, t.left) && LinkMatches(views, v.right, t.right)
    && CallerMatches(p, views, x, v.self.returnNode, t.node.caller, i)
    && (OwnsState(p, t) ==> v.state == t.node.state && v.ptr == t.node.ip && v.hasNext)
    && (!t.executed ==> t.node.ip < |Instrs(p, t.node.block)|)
  }

  ghost predicate OwnStatesDistinct(p: Program, views: seq<View>, x: Exploration)
    requires |views| == |x.nodes|
  {
    forall i, j :: 0 <= i < j < |views| && OwnsState(p, x.nodes[i]) && OwnsState(p, x.nodes[j]) ==>
      views[i].self.state != views[j].self.state
  }

  /** The heap matches the tree of values, and no two nodes that own their state
      share it. */
  ghost predicate ViewsValid(p: Program, views: seq<View>, x: Exploration) {
    && |views| == |x.nodes|
    && (forall i :: 0 <= i < |views| ==> ViewMatches(p, views, x, i))
    && OwnStatesDistinct(p, views, x)
  }

  /** What one execution may do to another node's view: nothing, unless it shares the
      executed node's state, which then is what that node left. */
  ghost predicate OthersKept(before: seq<View>, after: seq<View>, id: nat) {
    && id < |before| <= |after|
    && (forall j {:trigger after[j]} :: 0 <= j < |before| && j != id ==> after[j].(state := before[j].state) == before[j])
    && (forall j {:trigger after[j]} :: 0 <= j < |before| && j != id && before[j].self.state != before[id].self.state ==> after[j] == before[j])
  }

  lemma OthersKeptStill(before: seq<View>, ran: seq<View>, after: seq<View>, id: nat)
    requires OthersKept(before, ran, id) && |after| == |ran|
    requires forall j {:trigger after[j]} :: 0 <= j < |after| && j != id ==> after[j] == ran[j]
    ensures OthersKept(before, after, id)
  {
  }

  lemma OthersKeptAppend(before: seq<View>, kept: seq<View>, added: seq<View>, id: nat)
    requires OthersKept(before, kept, id)
    ensures OthersKept(before, kept + added, id)
    ensures kept[id].self == before[id].self ==>
              forall j {:trigger (kept + added)[j]} :: 0 <= j < |before| ==> (kept + added)[j].self == before[j].self
  {
  }

  /** The executed node's own view. */
  ghost predicate NodeRan(p: Program, before: View, after: View, t: TreeNode) {
    && after.self == before.self && after.executed == t.executed && after.satisfiable == t.satisfiable
    && after.loop == t.node.loop
    && (AtCall(p, t.node) ==> after.state == t.node.state && after.ptr == t.node.ip && after.hasNext)
  }

  /** A new node's view against its record. */
  ghost predicate NewView(p: Program, views: seq<View>, x: Exploration, k: nat)
    requires |views| == |x.nodes| && k < |views|
  {
    var v, t := views[k], x.nodes[k];
    && v.self.id == k && v.self.block == t.node.block && v.self.prevId == t.parent
    && !v.executed && v.satisfiable == t.satisfiable && v.loop == t.node.loop
    && v.left == null && v.right == null
    && v.state == t.node.state && v.ptr == t.node.ip && v.hasNext
    && t.node.ip < |Instrs(p, t.node.block)|
    && CallerMatches(p, views, x, v.self.returnNode, t.node.caller, k)
  }

  /** No new node shares its state with another node that owns one. */
  ghost predicate NewStatesOwn(p: Program, before: seq<View>, after: seq<View>, y: Exploration)
    requires |before| <= |after| == |y.nodes|
  {
    && (forall j, k :: 0 <= j < |before| <= k < |after| && OwnsState(p, y.nodes[j]) ==> after[k].self.state != before[j].self.state)
    && (forall j, k :: |before| <= j < k < |after| ==> after[j].self.state != after[k].self.state)
  }

  /** The node a child along an edge will return to. */
  ghost function ReturnTarget(parent: SymbolicTreeNode, e: Edge): SymbolicTreeNode? {
    match e
    case Enter => parent
    case Leave => if parent.returnNode == null then null else parent.returnNode.returnNode
    case _ => parent.returnNode
  }

  /** The view of a node newly created for a child of `parent`. */
  ghost predicate CreatedView(v: View, c: Child, parent: SymbolicTreeNode, id: nat, feasible: bool) {
    && v.self.block == c.node.block && v.ptr == c.node.ip && v.hasNext
    && v.state == c.node.state && v.loop == c.node.loop
    && v.self.id == id && v.self.prevId == parent.id
    && v.left == null && v.right == null && !v.executed && v.satisfiable == feasible
    && v.self.returnNode == ReturnTarget(parent, c.edge)
    && (c.edge == Goto ==> v.self.state == parent.state)
  }

  /** A node has run to a call exactly when it stands just past one. */
  lemma StandsAtItsCall(p: Program, m: Node)
    requires WellFormed(p) && InProgram(p, m) && NodeSegment(p, m).split.Some?
    ensures AtCall(p, Executed(p, m)) <==> NodeSegment(p, m).split.value.Call?
  {
    var instrs := p.blocks[m.block].instrs;
    SegmentFacts(instrs, m.ip, m.state);
    assert EndsInTerminator(instrs);
  }

  /** Whom a child returns to, and where it starts. */
  ghost predicate Originates(p: Program, m: Node, c: Child)
    requires InProgram(p, m)
  {
    match c.edge
    case Enter => c.node.ip == 0 && c.node.caller == Some(Executed(p, m))
    case Leave => m.caller.Some? && c.node.block == m.caller.value.block && c.node.ip == m.caller.value.ip
               && c.node.caller == m.caller.value.caller
    case _ => c.node.ip == 0 && c.node.caller == m.caller
  }

  lemma ChildOrigin(p: Program, m: Node, i: nat)
    requires WellFormed(p) && InProgram(p, m) && i < |Children(p, m)|
    ensures Originates(p, m, Children(p, m)[i])
    ensures (Children(p, m)[i].edge == Goto) == NodeSegment(p, m).split.value.Jump?
    ensures (Children(p, m)[i].edge == Enter) == NodeSegment(p, m).split.value.Call?
  {
    var split, after := NodeSegment(p, m).split.value, Executed(p, m);
    assert after.caller == m.caller;
    match split
    case Branch(_, _, _) =>
    case Jump(_) =>
    case Call(_, _, _) =>
    case Return(_) =>
    case _ =>
  }

  lemma NewChildView(p: Program, solve: Solver, before: seq<View>, after: seq<View>, x: Exploration, id: nat, y: Exploration, i: nat)
    requires WellFormed(p) && Pending(x, id) && NodeValid(p, x, id) && x.nodes[id].satisfiable
    requires y == ExecuteNode(p, solve, x, id) && Steps(x, id, y)
    requires ViewsValid(p, before, x) && |after| == |y.nodes|
    requires forall j :: 0 <= j < |before| ==> after[j].self == before[j].self
    requires i < |Children(p, x.nodes[id].node)|
    requires var m := x.nodes[id].node;
             CreatedView(after[|before| + i], Children(p, m)[i], before[id].self, |before| + i,
               ChildFeasible(solve, Executed(p, m), NodeSegment(p, m).split.value, Children(p, m)[i].edge))
    ensures NewView(p, after, y, |before| + i)
  {
    var m, k := x.nodes[id].node, |before| + i;
    var c := Children(p, m)[i];
    assert y.nodes[k].node == c.node;
    ChildOrigin(p, m, i);
    StandsAtItsCall(p, m);
    assert ViewMatches(p, before, x, id);
    var r := before[id].self.returnNode;
    CallerStillMatches(p, before, after, x, id, y, r, m.caller, id);
    if c.edge == Leave {
      assert ViewMatches(p, before, x, r.id);
      CallerStillMatches(p, before, after, x, id, y, r.returnNode, m.caller.value.caller, r.id);
    }
    assert EndsInTerminator(p.blocks[c.node.block].instrs);
  }

  /** Executing one node keeps the relation between heap and tree. */
  lemma ViewsStep(p: Program, before: seq<View>, after: seq<View>, x: Exploration, id: nat, y: Exploration)
    requires ViewsValid(p, before, x) && Steps(x, id, y) && |after| == |y.nodes|
    requires OthersKept(before, after, id) && NodeRan(p, before[id], after[id], y.nodes[id])
    requires LinkMatches(after, after[id].left, y.nodes[id].left) && LinkMatches(after, after[id].right, y.nodes[id].right)
    requires y.nodes[id].node.caller == x.nodes[id].node.caller
    requires forall k :: |before| <= k < |after| ==> NewView(p, after, y, k)
    requires NewStatesOwn(p, before, after, y)
    ensures ViewsValid(p, after, y)
  {
    forall i | 0 <= i < |after|
      ensures ViewMatches(p, after, y, i)
    {
      if i < |before| {
        OldViewMatches(p, before, after, x, id, y, i);
      } else {
        assert NewView(p, after, y, i);
      }
    }
    assert OwnStatesDistinct(p, before, x);
    forall i, j | 0 <= i < j < |after| && OwnsState(p, y.nodes[i]) && OwnsState(p, y.nodes[j])
      ensures after[i].self.state != after[j].self.state
    {
      if j < |before| {
        assert after[i].self == before[i].self && after[j].self == before[j].self;
        assert OwnsState(p, x.nodes[i]) && OwnsState(p, x.nodes[j]);
      } else if i < |before| {
        assert after[i].self == before[i].self;
      }
    }
  }

  lemma OldViewMatches(p: Program, before: seq<View>, after: seq<View>, x: Exploration, id: nat, y: Exploration, i: nat)
    requires ViewsValid(p, before, x) && Steps(x, id, y) && |after| == |y.nodes| && i < |before|
    requires OthersKept(before, after, id) && NodeRan(p, before[id], after[id], y.nodes[id])
    requires LinkMatches(after, after[id].left, y.nodes[id].left) && LinkMatches(after, after[id].right, y.nodes[id].right)
    requires y.nodes[id].node.caller == x.nodes[id].node.caller
    ensures ViewMatches(p, after, y, i)
  {
    assert ViewMatches(p, before, x, i);
    CallerStillMatches(p, before, after, x, id, y, before[i].self.returnNode, x.nodes[i].node.caller, i);
    if i != id && OwnsState(p, x.nodes[i]) {
      assert before[i].self.state != before[id].self.state by {
        assert OwnStatesDistinct(p, before, x);
        assert OwnsState(p, x.nodes[id]);
      }
    }
    assert forall j :: 0 <= j < |before| ==> after[j].self == before[j].self;
  }

  lemma CallerStillMatches(p: Program, before: seq<View>, after: seq<View>, x: Exploration, id: nat, y: Exploration,
    r: SymbolicTreeNode?, caller: Option<Node>, bound: nat)
    requires |before| == |x.nodes| && |after| == |y.nodes| && Steps(x, id, y)
    requires forall j :: 0 <= j < |before| ==> after[j].self == before[j].self
    requires CallerMatches(p, before, x, r, caller, bound)
    ensures CallerMatches(p, after, y, r, caller, bound)
  {
    if r != null {
      assert r.id != id;
    }
  }

  /** New nodes have new states, but for the one a jump hands on, which its old node
      then no longer owns. */
  lemma NewStatesAreOwn(p: Program, before: seq<View>, after: seq<View>, x: Exploration, id: nat, y: Exploration, jump: bool)
    requires |before| == |x.nodes| && |after| == |y.nodes| && Steps(x, id, y) && OwnStatesDistinct(p, before, x)
    requires jump ==> !OwnsState(p, y.nodes[id]) && |after| <= |before| + 1
                      && forall k :: |before| <= k < |after| ==> after[k].self.state == before[id].self.state
    requires !jump ==> forall j, k :: 0 <= j < |before| <= k < |after| ==> after[k].self.state != before[j].self.state
    requires |after| == |before| + 2 ==> after[|before|].self.state != after[|before| + 1].self.state
    ensures NewStatesOwn(p, before, after, y)
  {
  }

  /** The new nodes of an execution, from what its methods promise of them. */
  lemma NewViews(p: Program, solve: Solver, before: seq<View>, after: seq<View>, x: Exploration, id: nat, y: Exploration)
    requires WellFormed(p) && Pending(x, id) && NodeValid(p, x, id)
    requires y == ExecuteNode(p, solve, x, id) && Steps(x, id, y) && ViewsValid(p, before, x)
    requires |after| == |y.nodes| && forall j :: 0 <= j < |before| ==> after[j].self == before[j].self
    requires x.nodes[id].satisfiable ==> CreatedViews(p, solve, before[id].self, after[|before|..], x.nodes[id].node, |before|)
    ensures y.nodes[id].node.caller == x.nodes[id].node.caller
    ensures forall k :: |before| <= k < |after| ==> NewView(p, after, y, k)
  {
    forall k | |before| <= k < |after|
      ensures NewView(p, after, y, k)
    {
      assert after[k] == after[|before|..][k - |before|];
      NewChildView(p, solve, before, after, x, id, y, k - |before|);
    }
  }

  /** The views of all children of a node, numbered from `first`. */
  ghost predicate CreatedViews(p: Program, solve: Solver, parent: SymbolicTreeNode, views: seq<View>, m: Node, first: nat)
    requires WellFormed(p) && InProgram(p, m)
  {
    var cs := Children(p, m);
    && |views| == |cs|
    && forall i :: 0 <= i < |cs| ==>
         CreatedView(views[i], cs[i], parent, first + i,
           ChildFeasible(solve, Executed(p, m), NodeSegment(p, m).split.value, cs[i].edge))
  }

  /** What executing node `id`, recorded as `m`, has done to the heap. */
  ghost predicate Ran(p: Program, solve: Solver, before: seq<View>, after: seq<View>, m: Node, id: nat)
    requires WellFormed(p) && InProgram(p, m)
  {
    && OthersKept(before, after, id)
    && (forall j {:trigger after[j]} :: 0 <= j < |before| ==> after[j].self == before[j].self)
    && after[id].left == (if |after| > |before| then after[|before|].self else null)
    && after[id].right == (if |after| > |before| + 1 then after[|before| + 1].self else null)
    && after[id].executed && after[id].loop == before[id].loop
    && (if before[id].satisfiable
        then RanBlock(p, solve, m, after[id].state, after[id].ptr, after[id].hasNext, after[id].satisfiable)
          && CreatedViews(p, solve, before[id].self, after[|before|..], m, |before|)
        else |after| == |before| && after[id] == before[id].(executed := true))
    && (NodeSegment(p, m).split.Some? && !NodeSegment(p, m).split.value.Jump? ==>
          forall j, k :: 0 <= j < |before| <= k < |after| ==> after[k].self.state != before[j].self.state)
    && (|after| == |before| + 2 ==> after[|before|].self.state != after[|before| + 1].self.state)
  }

  ghost predicate RanBlock(p: Program, solve: Solver, m: Node, state: State, ptr: nat, hasNext: bool, satisfiable: bool)
    requires WellFormed(p) && InProgram(p, m)
  {
    && (satisfiable <==> !Marked(p, solve, m))
    && state == Executed(p, m).state && ptr == Executed(p, m).ip
    && (hasNext <==> ptr < |p.blocks[m.block].instrs|)
  }

  lemma RanNode(p: Program, solve: Solver, before: seq<View>, after: seq<View>, x: Exploration, id: nat, y: Exploration)
    requires WellFormed(p) && Pending(x, id) && NodeValid(p, x, id) && ViewsValid(p, before, x)
    requires y == ExecuteNode(p, solve, x, id) && Steps(x, id, y)
    requires Ran(p, solve, before, after, x.nodes[id].node, id)
    ensures |after| == |y.nodes| && NodeRan(p, before[id], after[id], y.nodes[id])
  {
    assert ViewMatches(p, before, x, id);
  }

  lemma RanStates(p: Program, solve: Solver, before: seq<View>, after: seq<View>, x: Exploration, id: nat, y: Exploration)
    requires WellFormed(p) && Pending(x, id) && NodeValid(p, x, id) && ViewsValid(p, before, x)
    requires y == ExecuteNode(p, solve, x, id) && Steps(x, id, y) && |after| == |y.nodes|
    requires Ran(p, solve, before, after, x.nodes[id].node, id)
    ensures NewStatesOwn(p, before, after, y)
  {
    var m := x.nodes[id].node;
    assert ViewMatches(p, before, x, id);
    if |after| > |before| {
      var jump := NodeSegment(p, m).split.value.Jump?;
      if jump {
        StandsAtItsCall(p, m);
        ChildOrigin(p, m, 0);
        assert after[|before|..][0] == after[|before|];
      }
      NewStatesAreOwn(p, before, after, x, id, y, jump);
    }
  }

  /** The executor's index of executed nodes. */
  ghost predicate Registered(index: map<nat, SymbolicTreeNode>, all: seq<SymbolicTreeNode>, x: Exploration) {
    && |all| == |x.nodes|
    && (forall id :: id in index ==> id < |all| && x.nodes[id].executed && index[id] == all[id])
    && (forall id :: 0 <= id < |all| && x.nodes[id].executed ==> id in index)
  }

  lemma StepRegisters(index: map<nat, SymbolicTreeNode>, all: seq<SymbolicTreeNode>, more: seq<SymbolicTreeNode>,
    x: Exploration, id: nat, y: Exploration)
    requires Registered(index, all, x) && Steps(x, id, y)
    requires |more| == |y.nodes| && more[..|all|] == all
    ensures Registered(index[id := all[id]], more, y)
  {
    assert forall k :: 0 <= k < |all| ==> more[k] == more[..|all|][k];
  }

  /** One execution keeps heap and tree of values in step: sharing is never seen. */
  lemma RanKeepsViews(p: Program, solve: Solver, before: seq<View>, after: seq<View>, x: Exploration, id: nat, y: Exploration)
    requires WellFormed(p) && Pending(x, id) && NodeValid(p, x, id) && ViewsValid(p, before, x)
    requires y == ExecuteNode(p, solve, x, id) && Steps(x, id, y)
    requires Ran(p, solve, before, after, x.nodes[id].node, id)
    ensures ViewsValid(p, after, y)
  {
    assert ViewMatches(p, before, x, id);
    RanNode(p, solve, before, after, x, id, y);
    RanStates(p, solve, before, after, x, id, y);
    NewViews(p, solve, before, after, x, id, y);
    ViewsStep(p, before, after, x, id, y);
  }
}
