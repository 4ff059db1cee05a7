/**
 Symbolic against concrete execution: an input's run takes a node's path exactly when the
 input satisfies the node's constraints and chooses the sides that left none, and then the
 node's map is the run's memory. Calls and returns are included.
 */
module Simulation {
  import opened Wrappers
  import opened Program
  import opened ExpressionTree
  import opened Symbolic
  import opened Concrete

  ghost predicate EnvModels(m: map<Value, Tree>, env: Env, input: Input) {
    && m.Keys == env.Keys
    && (forall v :: v in m ==> !v.Const? && Eval(m[v], input) == env[v])
  }

  /** The node and the frame stand at the same place with the same memory, and so
      do the callers they will return to. */
  ghost predicate Models(n: Node, f: Frame, input: Input) {
    && n.block == f.block && n.ip == f.ip
    && EnvModels(n.state.env, f.env, input)
    && n.caller.Some? == f.caller.Some?
    && (n.caller.Some? ==> Models(n.caller.value, f.caller.value, input))
  }

  /** A callee's constraints include its caller's. */
  ghost predicate Nested(n: Node) {
    n.caller.Some? ==>
      && (forall c :: c in n.caller.value.state.constraints ==> c in n.state.constraints)
      && Nested(n.caller.value)
  }

  /** The static side conditions: `>=` is never compared, and only registers are
      passed to and returned from calls, because the executor looks them up in its
      map and finds nothing for a literal. */
  predicate Supported(p: Program) {
    forall b, i :: 0 <= b < |p.blocks| && 0 <= i < |p.blocks[b].instrs| ==> SupportedInstr(p.blocks[b].instrs[i])
  }

  predicate SupportedInstr(ins: Instr) {
    match ins
    case ICmp(_, pred, _, _) => pred != Sge
    case Call(_, _, args) => forall i :: 0 <= i < |args| ==> args[i].Reg?
    case Return(Some(v)) => v.Reg?
    case _ => true
  }

  /** No folding rule drops a compound operand. */
  predicate KeepsOperands(s: State, ins: Instr) {
    ins.Binary? ==> !LosesOperand(OpOf(ins.op), Lookup(s, ins.lhs), Lookup(s, ins.rhs))
  }

  predicate SegmentKeepsOperands(instrs: seq<Instr>, ip: nat, s: State)
    decreases |instrs| - ip
  {
    ip < |instrs| && !IsSplit(instrs[ip]) ==>
      KeepsOperands(s, instrs[ip]) && SegmentKeepsOperands(instrs, ip + 1, Step(s, instrs[ip]))
  }

  predicate NodeKeepsOperands(p: Program, n: Node)
    requires InProgram(p, n)
  {
    SegmentKeepsOperands(p.blocks[n.block].instrs, n.ip, n.state)
  }

  lemma LookupModels(s: State, env: Env, v: Value, input: Input)
    requires EnvModels(s.env, env, input) && Operand(env, v).Some?
    ensures Eval(Lookup(s, v), input) == Operand(env, v).value
  {
    if v.Const? {
      assert v !in s.env;
    } else {
      assert v in s.env;
    }
  }

  lemma StepSimulates(s: State, env: Env, ins: Instr, input: Input)
    requires EnvModels(s.env, env, input) && Exec(env, ins).Some?
    requires SupportedInstr(ins) && KeepsOperands(s, ins)
    ensures EnvModels(Step(s, ins).env, Exec(env, ins).value, input)
  {
    match ins
    case Binary(_, op, l, r) =>
      LookupModels(s, env, l, input);
      LookupModels(s, env, r, input);
      MakeKeepsMeaning(OpOf(op), Lookup(s, l), Lookup(s, r), input);
    case ICmp(_, pred, l, r) =>
      LookupModels(s, env, l, input);
      LookupModels(s, env, r, input);
      MakeKeepsMeaning(OpOfPredicate(pred), Lookup(s, l), Lookup(s, r), input);
    case Store(src, _) => LookupModels(s, env, src, input);
    case Load(_, cell) => LookupModels(s, env, Cell(cell), input);
    case _ =>
  }

  lemma {:induction false} SegmentSimulates(instrs: seq<Instr>, ip: nat, s: State, env: Env, input: Input)
    requires EnvModels(s.env, env, input) && RunStretch(instrs, ip, env).Some?
    requires SegmentKeepsOperands(instrs, ip, s)
    requires forall i :: 0 <= i < |instrs| ==> SupportedInstr(instrs[i])
    ensures var g, c := RunSegment(instrs, ip, s), RunStretch(instrs, ip, env).value;
            g.ip == c.ip && g.split == c.split && EnvModels(g.state.env, c.env, input)
    decreases |instrs| - ip
  {
    if ip < |instrs| && !IsSplit(instrs[ip]) {
      StepSimulates(s, env, instrs[ip], input);
      SegmentSimulates(instrs, ip + 1, Step(s, instrs[ip]), Exec(env, instrs[ip]).value, input);
    }
  }

  lemma {:induction false} BindingsModel(params: seq<nat>, trees: seq<Option<Tree>>, values: seq<int>, input: Input)
    requires |params| == |values|
    requires |trees| == |values| || trees == []
    requires forall i :: 0 <= i < |trees| ==> trees[i].Some? && Eval(trees[i].value, input) == values[i]
    requires trees == [] ==> forall i :: 0 <= i < |params| ==> values[i] == input(Some(Reg(params[i])))
    ensures EnvModels(BindParams(params, trees), BindArgs(params, values), input)
  {
    BindPrefixModels(params, trees, values, input);
  }

  lemma {:induction false} BindPrefixModels(params: seq<nat>, trees: seq<Option<Tree>>, values: seq<int>, input: Input)
    requires |params| <= |values|
    requires |params| <= |trees| || trees == []
    requires forall i :: 0 <= i < |params| && i < |trees| ==> trees[i].Some? && Eval(trees[i].value, input) == values[i]
    requires trees == [] ==> forall i :: 0 <= i < |params| ==> values[i] == input(Some(Reg(params[i])))
    ensures EnvModels(BindParams(params, trees), BindArgs(params, values), input)
  {
    if params != [] {
      BindPrefixModels(params[..|params| - 1], trees, values, input);
    }
  }

  lemma CallSimulates(p: Program, n: Node, f: Frame, callee: FunctionId, args: seq<Value>, input: Input)
    requires callee < |p.functions| && |args| == |p.functions[callee].params|
    requires EnvModels(n.state.env, f.env, input)
    requires Operands(f.env, args).Some? && forall i :: 0 <= i < |args| ==> args[i].Reg?
    ensures |Operands(f.env, args).value| == |args|
    ensures EnvModels(CallState(p, n, callee, args).env, BindArgs(p.functions[callee].params, Operands(f.env, args).value), input)
  {
    OperandsAt(f.env, args);
    var trees := seq(|args|, i requires 0 <= i < |args| => Get(n.state, args[i]));
    var values := Operands(f.env, args).value;
    forall i | 0 <= i < |args|
      ensures trees[i].Some? && Eval(trees[i].value, input) == values[i]
    {
      assert Operand(f.env, args[i]) == Some(values[i]);
      LookupModels(n.state, f.env, args[i], input);
    }
    BindingsModel(p.functions[callee].params, trees, values, input);
  }

  lemma BranchKeepsEnv(n: Node, cond: nat)
    ensures BranchState(n, cond, true).env == BranchState(n, cond, false).env == n.state.env
  {
  }

  /** Binding a returned value keeps map and memory in step. */
  lemma BindModels(m: map<Value, Tree>, env: Env, dst: nat, t: Option<Tree>, v: Option<int>, input: Input)
    requires EnvModels(m, env, input) && t.Some? == v.Some?
    requires t.Some? ==> Eval(t.value, input) == v.value
    ensures EnvModels(Bind(m, Reg(dst), t), if v.Some? then env[Reg(dst) := v.value] else env - {Reg(dst)}, input)
  {
  }

  lemma ReturnSimulates(p: Program, n: Node, f: Frame, result: Option<Value>, input: Input)
    requires Models(n, f, input) && n.caller.Some? && n.caller.value.block < |p.blocks|
    requires result.Some? ==> result.value.Reg? && Operand(f.env, result.value).Some?
    ensures var v := if result.Some? then Operand(f.env, result.value) else None;
            && f.caller.Some? && f.caller.value.block == n.caller.value.block && f.caller.value.ip == n.caller.value.ip
            && EnvModels(ReturnState(p, n, result).env, Resume(p, f.caller.value, v).env, input)
  {
    assert Models(n.caller.value, f.caller.value, input);
    if result.Some? {
      LookupModels(n.state, f.env, result.value, input);
    }
    var t := if result.Some? then Get(n.state, result.value) else None;
    var v := if result.Some? then Operand(f.env, result.value) else None;
    var target := ResultRegister(p, n.caller.value);
    if target.Some? {
      BindModels(n.caller.value.state.env, f.caller.value.env, target.value.id, t, v, input);
    }
  }

  /** What one split keeps: if the run moves along the edge, the child for that edge
      models the frame it reaches. */
  lemma TransferSimulates(p: Program, n: Node, f: Frame, split: Instr, input: Input)
    requires WellFormed(p) && InProgram(p, n) && FrameInProgram(p, f) && InRange(p, split)
    requires Models(n, f, input) && SupportedInstr(split)
    requires Transfer(p, f, split).Moved?
    ensures var moved := Transfer(p, f, split);
            var child := ChildAlong(Successors(p, n, split), moved.edge);
            child.Some? ==> Models(child.value, moved.frame, input)
  {
    hide EnvModels, Bind, ReturnState, CallState, CopyInto, BranchState, Lookup;
    match split
    case Branch(_, _, _) => BranchKeepsEnv(n, split.cond);
    case Jump(_) =>
    case Call(_, callee, args) => CallSimulates(p, n, f, callee, args, input);
    case Return(result) =>
      assert Models(n.caller.value, f.caller.value, input);
      ReturnSimulates(p, n, f, result, input);
    case _ =>
  }

  /** Constraints only grow along an edge. */
  lemma SuccessorConstraints(p: Program, n: Node, split: Instr, e: Edge)
    requires WellFormed(p) && InProgram(p, n) && InRange(p, split) && Nested(n)
    requires ChildAlong(Successors(p, n, split), e).Some?
    ensures var child := ChildAlong(Successors(p, n, split), e).value;
            Nested(child) && forall c :: c in n.state.constraints ==> c in child.state.constraints
    ensures var child := ChildAlong(Successors(p, n, split), e).value;
            forall c :: c in child.state.constraints ==>
              c in n.state.constraints || (split.Branch? && e.Taken? && c == Constraint(Lookup(n.state, Reg(split.cond)), e.way))
  {
    ChildAlongIsChild(Successors(p, n, split), e);
    var child := ChildAlong(Successors(p, n, split), e).value;
    if split.Return? {
      assert Nested(n.caller.value);
      assert child.caller == n.caller.value.caller;
      assert child.state.constraints == n.caller.value.state.constraints + n.state.constraints;
    }
  }

  /** The child along an edge can be trusted to have been reached by the run: the
      loop bound did not force it, and no literal condition contradicts it. */
  predicate Guided(p: Program, n: Node, e: Edge)
    requires InProgram(p, n)
  {
    var split := NodeSegment(p, n).split;
    var after := Executed(p, n);
    split.Some? && split.value.Branch? && e.Taken? ==>
      var t := Lookup(after.state, Reg(split.value.cond));
      !ForcedExit(after) && (IsConstant(t) ==> (Integer(t) != 0) == e.way)
  }

  /** Every node before the path's end keeps its operands. */
  predicate Faithful(p: Program, root: Node, path: seq<Edge>)
    requires WellFormed(p) && InProgram(p, root)
  {
    path != [] ==>
      var before := NodeAt(p, root, path[..|path| - 1]);
      Faithful(p, root, path[..|path| - 1]) && (before.Some? ==> NodeKeepsOperands(p, before.value))
  }

  predicate GuidedPath(p: Program, root: Node, path: seq<Edge>)
    requires WellFormed(p) && InProgram(p, root)
  {
    path != [] ==>
      var before := NodeAt(p, root, path[..|path| - 1]);
      GuidedPath(p, root, path[..|path| - 1]) && (before.Some? ==> Guided(p, before.value, path[|path| - 1]))
  }

  lemma AdvanceSimulates(p: Program, n: Node, f: Frame, e: Edge, input: Input)
    requires WellFormed(p) && Supported(p) && InProgram(p, n) && FrameInProgram(p, f)
    requires Models(n, f, input) && NodeKeepsOperands(p, n) && Nested(n)
    requires Satisfies(n.state.constraints, input)
    requires ChildAlong(Children(p, n), e).Some? && !Advance(p, f).Wrong?
    ensures var child := ChildAlong(Children(p, n), e).value;
            && Nested(child)
            && (Advance(p, f).Moved? && Advance(p, f).edge == e ==>
                  Models(child, Advance(p, f).frame, input) && Satisfies(child.state.constraints, input))
            && (Guided(p, n, e) && Satisfies(child.state.constraints, input) ==>
                  Advance(p, f).Moved? && Advance(p, f).edge == e)
  {
    hide EnvModels, SupportedInstr, RunSegment, RunStretch, CallState, ReturnState, BranchState;
    var instrs := p.blocks[n.block].instrs;
    assert forall i :: 0 <= i < |instrs| ==> SupportedInstr(instrs[i]);
    SegmentSimulates(instrs, n.ip, n.state, f.env, input);
    var g, c := RunSegment(instrs, n.ip, n.state), RunStretch(instrs, f.ip, f.env).value;
    SegmentFacts(instrs, n.ip, n.state);
    var after, frame := Executed(p, n), f.(ip := c.ip, env := c.env);
    var split := g.split.value;
    assert Models(after, frame, input) && Nested(after);
    SuccessorConstraints(p, after, split, e);
    if Transfer(p, frame, split).Moved? && Transfer(p, frame, split).edge == e {
      TransferSimulates(p, after, frame, split, input);
      if split.Branch? {
        LookupModels(after.state, frame.env, Reg(split.cond), input);
      }
    }
    if Guided(p, n, e) && Satisfies(ChildAlong(Children(p, n), e).value.state.constraints, input) {
      GuidedMoves(p, after, frame, split, e, input);
    }
  }

  lemma GuidedMoves(p: Program, n: Node, f: Frame, split: Instr, e: Edge, input: Input)
    requires WellFormed(p) && InProgram(p, n) && FrameInProgram(p, f) && InRange(p, split)
    requires Models(n, f, input) && ChildAlong(Successors(p, n, split), e).Some?
    requires !Transfer(p, f, split).Wrong?
    requires Satisfies(ChildAlong(Successors(p, n, split), e).value.state.constraints, input)
    requires split.Branch? ==>
               var t := Lookup(n.state, Reg(split.cond));
               !ForcedExit(n) && (IsConstant(t) && e.Taken? ==> (Integer(t) != 0) == e.way)
    ensures Transfer(p, f, split).Moved? && Transfer(p, f, split).edge == e
  {
    if split.Branch? {
      var t := Lookup(n.state, Reg(split.cond));
      LookupModels(n.state, f.env, Reg(split.cond), input);
      ChildAlongIsChild(Successors(p, n, split), e);
      if !IsConstant(t) {
        var c := Constraint(t, e.way);
        assert c in ChildAlong(Successors(p, n, split), e).value.state.constraints;
        assert Holds(c, input);
      }
    }
  }

  lemma ConstraintsGrow(p: Program, n: Node, e: Edge, input: Input)
    requires WellFormed(p) && InProgram(p, n) && Nested(n) && ChildAlong(Children(p, n), e).Some?
    ensures Nested(ChildAlong(Children(p, n), e).value)
    ensures Satisfies(ChildAlong(Children(p, n), e).value.state.constraints, input) ==> Satisfies(n.state.constraints, input)
  {
    SegmentFacts(p.blocks[n.block].instrs, n.ip, n.state);
    SuccessorConstraints(p, Executed(p, n), NodeSegment(p, n).split.value, e);
  }

  lemma StartIsModelled(p: Program, f: FunctionId, input: Input)
    requires WellFormed(p) && f < |p.functions|
    ensures var n := Root(p, f);
            Models(n, Start(p, f, input), input) && Nested(n) && Satisfies(n.state.constraints, input)
  {
    var params := p.functions[f].params;
    BindingsModel(params, [], seq(|params|, i requires 0 <= i < |params| => input(Some(Reg(params[i])))), input);
  }

  /** The memory half, which needs no assumption on loops: on its path, a run that
      does not go wrong satisfies the constraints and is modelled by the node. */
  lemma {:induction false} RunIsModelled(p: Program, f: FunctionId, input: Input, path: seq<Edge>)
    requires WellFormed(p) && Supported(p) && f < |p.functions|
    requires Faithful(p, Root(p, f), path) && NodeAt(p, Root(p, f), path).Some?
    ensures Nested(NodeAt(p, Root(p, f), path).value)
    ensures var n, run := NodeAt(p, Root(p, f), path).value, Follow(p, Start(p, f, input), path);
            run.On? ==> Models(n, run.frame, input) && Satisfies(n.state.constraints, input)
  {
    hide Models, Satisfies, NodeKeepsOperands, Guided, Children, Advance, Nested, SupportedInstr;
    if path == [] {
      StartIsModelled(p, f, input);
    } else {
      var init, e := path[..|path| - 1], path[|path| - 1];
      RunIsModelled(p, f, input, init);
      var before, run := NodeAt(p, Root(p, f), init).value, Follow(p, Start(p, f, input), init);
      ConstraintsGrow(p, before, e, input);
      if run.On? && !Advance(p, run.frame).Wrong? {
        AdvanceSimulates(p, before, run.frame, e, input);
      }
    }
  }

  /** The branch condition the node holds evaluates to the side the edge takes. */
  predicate SideHolds(p: Program, n: Node, e: Edge, input: Input)
    requires InProgram(p, n)
  {
    var split := NodeSegment(p, n).split;
    split.Some? && split.value.Branch? && e.Taken? ==>
      (Eval(Lookup(Executed(p, n).state, Reg(split.value.cond)), input) != 0) == e.way
  }

  /** The path's sides that leave no constraint, forced exits and literal conditions'
      dead sides, are the ones the input's own values choose. */
  predicate SilentSidesHold(p: Program, root: Node, path: seq<Edge>, input: Input)
    requires WellFormed(p) && InProgram(p, root)
  {
    path != [] ==>
      var before, e := NodeAt(p, root, path[..|path| - 1]), path[|path| - 1];
      && SilentSidesHold(p, root, path[..|path| - 1], input)
      && (before.Some? && !Guided(p, before.value, e) ==> SideHolds(p, before.value, e, input))
  }

  /** At an edge that is not guided, the child repeats its parent's list. */
  lemma UnguidedRepeats(p: Program, n: Node, e: Edge)
    requires WellFormed(p) && InProgram(p, n) && ChildAlong(Children(p, n), e).Some? && !Guided(p, n, e)
    ensures ChildAlong(Children(p, n), e).value.state.constraints == n.state.constraints
  {
    SegmentFacts(p.blocks[n.block].instrs, n.ip, n.state);
    ChildAlongIsChild(Children(p, n), e);
  }

  /** A run takes a side that leaves no constraint exactly when its values choose it. */
  lemma SilentSideIsTakenIff(p: Program, n: Node, f: Frame, e: Edge, input: Input)
    requires WellFormed(p) && Supported(p) && InProgram(p, n) && FrameInProgram(p, f)
    requires Models(n, f, input) && NodeKeepsOperands(p, n)
    requires !Guided(p, n, e) && !Advance(p, f).Wrong?
    ensures Advance(p, f).Moved? && Advance(p, f).edge == e <==> SideHolds(p, n, e, input)
  {
    var instrs := p.blocks[n.block].instrs;
    assert forall i :: 0 <= i < |instrs| ==> SupportedInstr(instrs[i]);
    SegmentSimulates(instrs, n.ip, n.state, f.env, input);
    SegmentFacts(instrs, n.ip, n.state);
    var split, c := NodeSegment(p, n).split.value, RunStretch(instrs, f.ip, f.env).value;
    LookupModels(Executed(p, n).state, c.env, Reg(split.cond), input);
  }

  /** The simulation theorem, for every path: an input whose run does not go wrong takes
      exactly that path if and only if it satisfies the node's constraints and its values
      choose the sides that leave none, and then every entry of the node's map evaluates
      to the concrete value. */
  lemma {:induction false} Simulation(p: Program, f: FunctionId, input: Input, path: seq<Edge>)
    requires WellFormed(p) && Supported(p) && f < |p.functions|
    requires Faithful(p, Root(p, f), path)
    requires NodeAt(p, Root(p, f), path).Some?
    requires !Follow(p, Start(p, f, input), path).Faulted?
    ensures var n, run := NodeAt(p, Root(p, f), path).value, Follow(p, Start(p, f, input), path);
            && (run.On? <==> Satisfies(n.state.constraints, input) && SilentSidesHold(p, Root(p, f), path, input))
            && (run.On? ==> Models(n, run.frame, input))
  {
    hide Models, Satisfies, NodeKeepsOperands, Guided, SideHolds, Children, Advance, Nested;
    RunIsModelled(p, f, input, path);
    if path != [] {
      var root, init, e := Root(p, f), path[..|path| - 1], path[|path| - 1];
      var before, run := NodeAt(p, root, init).value, Follow(p, Start(p, f, input), init);
      RunIsModelled(p, f, input, init);
      Simulation(p, f, input, init);
      ConstraintsGrow(p, before, e, input);
      if run.On? {
        AdvanceSimulates(p, before, run.frame, e, input);
        if !Guided(p, before, e) {
          UnguidedRepeats(p, before, e);
          SilentSideIsTakenIff(p, before, run.frame, e, input);
        }
      }
    }
  }

  lemma {:induction false} GuidedHasNoSilentSide(p: Program, root: Node, path: seq<Edge>, input: Input)
    requires WellFormed(p) && InProgram(p, root) && GuidedPath(p, root, path)
    ensures SilentSidesHold(p, root, path, input)
  {
    if path != [] {
      GuidedHasNoSilentSide(p, root, path[..|path| - 1], input);
    }
  }

  /** Along a path no forced exit and no contradicted literal condition has bent, the
      constraints alone say which inputs take it. */
  lemma GuidedSimulation(p: Program, f: FunctionId, input: Input, path: seq<Edge>)
    requires WellFormed(p) && Supported(p) && f < |p.functions|
    requires Faithful(p, Root(p, f), path) && GuidedPath(p, Root(p, f), path)
    requires NodeAt(p, Root(p, f), path).Some?
    requires !Follow(p, Start(p, f, input), path).Faulted?
    ensures var n, run := NodeAt(p, Root(p, f), path).value, Follow(p, Start(p, f, input), path);
            && (Satisfies(n.state.constraints, input) <==> run.On?)
            && (run.On? ==> Models(n, run.frame, input))
  {
    Simulation(p, f, input, path);
    GuidedHasNoSilentSide(p, Root(p, f), path, input);
  }

  /** The constraints at the path's end say whether the input's run comes to it. */
  ghost predicate Describes(p: Program, f: FunctionId, input: Input, path: seq<Edge>)
    requires WellFormed(p) && f < |p.functions| && NodeAt(p, Root(p, f), path).Some?
  {
    Satisfies(NodeAt(p, Root(p, f), path).value.state.constraints, input) <==> Follow(p, Start(p, f, input), path).On?
  }

  /** A node's constraints describe the inputs that come to it if and only if no input
      that satisfies them chooses another side where the path left no constraint. */
  lemma DescribesIffSilentSidesHold(p: Program, f: FunctionId, input: Input, path: seq<Edge>)
    requires WellFormed(p) && Supported(p) && f < |p.functions|
    requires Faithful(p, Root(p, f), path) && NodeAt(p, Root(p, f), path).Some?
    requires !Follow(p, Start(p, f, input), path).Faulted?
    ensures Describes(p, f, input, path)
       <==> (Satisfies(NodeAt(p, Root(p, f), path).value.state.constraints, input) ==> SilentSidesHold(p, Root(p, f), path, input))
  {
    Simulation(p, f, input, path);
  }

  lemma ContradictedDoesNotHold(p: Program, n: Node, e: Edge, input: Input)
    requires WellFormed(p) && InProgram(p, n) && !Guided(p, n, e) && !ForcedExit(Executed(p, n))
    ensures !SideHolds(p, n, e, input)
  {
  }

  /** The same at one edge, for an input whose run has come to it: the constraints behind
      the edge describe the run if and only if the edge is guided, or it is a forced exit
      and the exit's own condition is zero. */
  lemma DescribesIffGuided(p: Program, f: FunctionId, input: Input, path: seq<Edge>, e: Edge)
    requires WellFormed(p) && Supported(p) && f < |p.functions|
    requires Faithful(p, Root(p, f), path + [e])
    requires NodeAt(p, Root(p, f), path).Some? && NodeAt(p, Root(p, f), path + [e]).Some?
    requires Follow(p, Start(p, f, input), path).On? && !Follow(p, Start(p, f, input), path + [e]).Faulted?
    ensures var n := NodeAt(p, Root(p, f), path).value;
            Describes(p, f, input, path + [e]) <==> Guided(p, n, e) || (ForcedExit(Executed(p, n)) && SideHolds(p, n, e, input))
  {
    hide Guided, SideHolds, Satisfies, Children, Executed, ForcedExit;
    assert (path + [e])[..|path + [e]| - 1] == path;
    var n := NodeAt(p, Root(p, f), path).value;
    Simulation(p, f, input, path);
    Simulation(p, f, input, path + [e]);
    if !Guided(p, n, e) {
      UnguidedRepeats(p, n, e);
      if !ForcedExit(Executed(p, n)) {
        ContradictedDoesNotHold(p, n, e, input);
      }
    }
  }
}
