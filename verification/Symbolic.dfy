/**
 Symbolic execution of one block, on values: what running a node's block does to
 its program state and which nodes it yields. The heap classes of the executor
 are proved to compute exactly these functions.
 */
module Symbolic {
  import opened Wrappers
  import opened Program
  import opened ExpressionTree

  /** A `ProgramState`: the tree of every bound value, the user variables and their
      names by address, the last address each value was stored to, the solver's
      constraint list and the condition list shown to the user. */
  datatype State = State(
    env: map<Value, Tree>,
    userVars: map<string, Value>,
    llvmVars: map<Value, string>,
    stores: map<Value, Value>,
    constraints: seq<Constraint>,
    conditions: seq<Constraint>)

  const EMPTY_STATE := State(map[], map[], map[], map[], [], [])

  /** `ProgramState::Copy`: the constraints are appended, the condition text is
      replaced, names and stores are merged, and the two other maps only on request. */
  function CopyInto(from: State, to: State, copyMap: bool): State {
    State(
      if copyMap then to.env + from.env else to.env,
      if copyMap then to.userVars + from.userVars else to.userVars,
      to.llvmVars + from.llvmVars,
      to.stores + from.stores,
      to.constraints + from.constraints,
      from.conditions)
  }

  /** The copy constructor yields an equal state. */
  lemma CopyIntoEmpty(s: State)
    ensures CopyInto(s, EMPTY_STATE, true) == s
  {
    assert EMPTY_STATE.env + s.env == s.env;
    assert EMPTY_STATE.userVars + s.userVars == s.userVars;
    assert EMPTY_STATE.llvmVars + s.llvmVars == s.llvmVars;
    assert EMPTY_STATE.stores + s.stores == s.stores;
    assert EMPTY_STATE.constraints + s.constraints == s.constraints;
  }

  /** Binding to an absent tree is the source's binding to NULL: a later lookup
      finds nothing. */
  function Bind(env: map<Value, Tree>, v: Value, t: Option<Tree>): map<Value, Tree> {
    if t.Some? then env[v := t.value] else env - {v}
  }

  /** The map a state starts with: parameter by parameter, the argument of the
      same position, or a leaf for the parameter itself once arguments run out. */
  function BindParams(params: seq<nat>, args: seq<Option<Tree>>): map<Value, Tree> {
    if params == [] then map[]
    else
      var last := |params| - 1;
      var p := Reg(params[last]);
      Bind(BindParams(params[..last], args), p, if last < |args| then args[last] else Some(Leaf(Some(p))))
  }

  /** The tree of an operand: its binding, or a fresh leaf. */
  function Lookup(s: State, v: Value): Tree {
    if v in s.env then s.env[v] else Leaf(Some(v))
  }

  function Get(s: State, v: Value): Option<Tree> {
    if v in s.env then Some(s.env[v]) else None
  }

  function OpOf(op: BinOp): Op {
    match op case Add => Plus case Sub => Minus case Mul => Times
  }

  /** No operator is emitted for `>=`. */
  function OpOfPredicate(pred: Predicate): Op {
    match pred
    case Sgt => Greater
    case Slt => Less
    case Sle => LessEq
    case Eq => Equal
    case Ne => NotEqual
    case Sge => NoOp
  }

  /** One instruction that does not split the block. */
  function Step(s: State, ins: Instr): State {
    match ins
    case Binary(dst, op, l, r) => s.(env := s.env[Reg(dst) := Make(OpOf(op), Lookup(s, l), Lookup(s, r))])
    case ICmp(dst, pred, l, r) => s.(env := s.env[Reg(dst) := Make(OpOfPredicate(pred), Lookup(s, l), Lookup(s, r))])
    case Declare(name, cell) => s.(userVars := s.userVars[name := Cell(cell)], llvmVars := s.llvmVars[Cell(cell) := name])
    case Store(src, cell) => s.(env := s.env[Cell(cell) := Lookup(s, src)], stores := s.stores[src := Cell(cell)])
    case Load(dst, cell) => s.(env := s.env[Reg(dst) := Lookup(s, Cell(cell))])
    case _ => s
  }

  datatype Segment = Segment(state: State, ip: nat, split: Option<Instr>)

  /** Runs a block from an instruction index up to its next split. */
  function RunSegment(instrs: seq<Instr>, ip: nat, s: State): Segment
    decreases |instrs| - ip
  {
    if ip >= |instrs| then Segment(s, ip, None)
    else if IsSplit(instrs[ip]) then Segment(s, ip + 1, Some(instrs[ip]))
    else RunSegment(instrs, ip + 1, Step(s, instrs[ip]))
  }

  /** The header of the last backward jump and the number of such jumps. */
  datatype LoopInfo = LoopInfo(start: Option<BlockId>, executions: nat)

  const NO_LOOP := LoopInfo(None, 0)
  const MAX_EXECUTIONS: nat := 1

  /** A node of the symbolic execution tree: where it stands, with which state,
      and the node whose call it has to return to. */
  datatype Node = Node(block: BlockId, ip: nat, state: State, loop: LoopInfo, caller: Option<Node>)

  predicate InProgram(p: Program, n: Node) {
    n.block < |p.blocks| && (n.caller.Some? ==> InProgram(p, n.caller.value))
  }

  /** How a node is left: a jump, one side of a branch, a call or a return. */
  datatype Edge = Goto | Taken(way: bool) | Enter | Leave

  datatype Child = Child(edge: Edge, node: Node)

  /** The loop bound is reached: only the false side is followed, unconstrained. */
  predicate ForcedExit(n: Node) {
    n.loop.start == Some(n.block) && n.loop.executions >= MAX_EXECUTIONS
  }

  function Assume(s: State, c: Constraint): State {
    s.(constraints := s.constraints + [c], conditions := s.conditions + [c])
  }

  function BranchState(n: Node, cond: nat, way: bool): State {
    var t := Lookup(n.state, Reg(cond));
    if IsConstant(t) || ForcedExit(n) then n.state else Assume(n.state, Constraint(t, way))
  }

  function JumpLoop(p: Program, n: Node, target: BlockId): LoopInfo
    requires n.block < |p.blocks| && target < |p.blocks|
  {
    if p.blocks[target].line < p.blocks[n.block].line
    then LoopInfo(Some(target), n.loop.executions + 1)
    else n.loop
  }

  function CallState(p: Program, n: Node, callee: FunctionId, args: seq<Value>): State
    requires callee < |p.functions|
  {
    var trees := seq(|args|, i requires 0 <= i < |args| => Get(n.state, args[i]));
    CopyInto(n.state, EMPTY_STATE.(env := BindParams(p.functions[callee].params, trees)), false)
  }

  /** The register a return value is bound to: that of the call just before the
      caller's instruction pointer. */
  function ResultRegister(p: Program, caller: Node): Option<Value>
    requires caller.block < |p.blocks|
  {
    var instrs := p.blocks[caller.block].instrs;
    if 0 < caller.ip <= |instrs| && instrs[caller.ip - 1].Call? then Some(Reg(instrs[caller.ip - 1].dst)) else None
  }

  function ReturnState(p: Program, n: Node, result: Option<Value>): State
    requires n.caller.Some? && n.caller.value.block < |p.blocks|
  {
    var merged := CopyInto(n.state, n.caller.value.state, false);
    var value := if result.Some? then Get(n.state, result.value) else None;
    var target := ResultRegister(p, n.caller.value);
    if target.Some? then merged.(env := Bind(merged.env, target.value, value)) else merged
  }

  /** The nodes a split instruction leads to, first successor first. The node has
      already run up to just past that instruction. */
  function Successors(p: Program, n: Node, split: Instr): seq<Child>
    requires WellFormed(p) && InProgram(p, n) && InRange(p, split)
    ensures forall i :: 0 <= i < |Successors(p, n, split)| ==> InProgram(p, Successors(p, n, split)[i].node)
  {
    match split
    case Branch(cond, thn, els) =>
      var second := Child(Taken(false), Node(els, 0, BranchState(n, cond, false), n.loop, n.caller));
      if ForcedExit(n) then [second]
      else [Child(Taken(true), Node(thn, 0, BranchState(n, cond, true), n.loop, n.caller)), second]
    case Jump(target) => [Child(Goto, Node(target, 0, n.state, JumpLoop(p, n, target), n.caller))]
    case Call(_, callee, args) =>
      [Child(Enter, Node(p.functions[callee].entry, 0, CallState(p, n, callee, args), NO_LOOP, Some(n)))]
    case Return(result) =>
      if n.caller.None? then []
      else
        var caller := n.caller.value;
        assert InProgram(p, caller);
        [Child(Leave, Node(caller.block, caller.ip, ReturnState(p, n, result), NO_LOOP, caller.caller))]
    case _ => []
  }

  function NodeSegment(p: Program, n: Node): (g: Segment)
    requires InProgram(p, n)
    ensures g.split.Some? ==> g.split.value in p.blocks[n.block].instrs
    ensures g.state.constraints == n.state.constraints && g.state.conditions == n.state.conditions
  {
    SegmentFacts(p.blocks[n.block].instrs, n.ip, n.state);
    RunSegment(p.blocks[n.block].instrs, n.ip, n.state)
  }

  lemma {:induction false} SegmentFacts(instrs: seq<Instr>, ip: nat, s: State)
    ensures RunSegment(instrs, ip, s).split.Some? ==>
              && ip < RunSegment(instrs, ip, s).ip <= |instrs|
              && instrs[RunSegment(instrs, ip, s).ip - 1] == RunSegment(instrs, ip, s).split.value
              && IsSplit(RunSegment(instrs, ip, s).split.value)
    ensures RunSegment(instrs, ip, s).state.constraints == s.constraints
    ensures RunSegment(instrs, ip, s).state.conditions == s.conditions
    decreases |instrs| - ip
  {
    if ip < |instrs| && !IsSplit(instrs[ip]) {
      SegmentFacts(instrs, ip + 1, Step(s, instrs[ip]));
    }
  }

  /** The node after its block has been run up to the next split. */
  function Executed(p: Program, n: Node): Node
    requires InProgram(p, n)
  {
    var g := NodeSegment(p, n);
    n.(ip := g.ip, state := g.state)
  }

  /** `executeBasicBlock`: the children of a node. */
  function Children(p: Program, n: Node): (cs: seq<Child>)
    requires WellFormed(p) && InProgram(p, n)
    ensures forall i :: 0 <= i < |cs| ==> InProgram(p, cs[i].node)
  {
    var g := NodeSegment(p, n);
    if g.split.None? then [] else Successors(p, Executed(p, n), g.split.value)
  }

  /** The root: the analysed function's entry, its parameters symbolic. */
  function Root(p: Program, f: FunctionId): Node
    requires f < |p.functions|
  {
    Node(p.functions[f].entry, 0, EMPTY_STATE.(env := BindParams(p.functions[f].params, [])), NO_LOOP, None)
  }

  function ChildAlong(cs: seq<Child>, e: Edge): Option<Node> {
    if cs == [] then None else if cs[0].edge == e then Some(cs[0].node) else ChildAlong(cs[1..], e)
  }

  /** The node a path of edges leads to, if the executor creates one. */
  function NodeAt(p: Program, root: Node, path: seq<Edge>): (n: Option<Node>)
    requires WellFormed(p) && InProgram(p, root)
    ensures n.Some? ==> InProgram(p, n.value)
  {
    if path == [] then Some(root)
    else
      var last := |path| - 1;
      var before := NodeAt(p, root, path[..last]);
      if before.None? then None
      else
        var found := ChildAlong(Children(p, before.value), path[last]);
        ChildAlongIsChild(Children(p, before.value), path[last]);
        found
  }

  lemma {:induction false} ChildAlongIsChild(cs: seq<Child>, e: Edge)
    ensures ChildAlong(cs, e).Some? ==> exists i :: 0 <= i < |cs| && cs[i] == Child(e, ChildAlong(cs, e).value)
  {
    if cs != [] && cs[0].edge != e {
      ChildAlongIsChild(cs[1..], e);
      if ChildAlong(cs, e).Some? {
        var i :| 0 <= i < |cs[1..]| && cs[1..][i] == Child(e, ChildAlong(cs, e).value);
        assert cs[i + 1] == Child(e, ChildAlong(cs, e).value);
      }
    } else if cs != [] {
      assert cs[0] == Child(e, ChildAlong(cs, e).value);
    }
  }
}
