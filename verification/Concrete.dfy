/**
 The concrete meaning of a program: 32-bit signed arithmetic whose overflow, like
 a read of a name that was never written, makes the run go wrong.
 */
module Concrete {
  import opened Wrappers
  import opened Program
  import opened Symbolic

  type Env = map<Value, int>

  datatype Frame = Frame(block: BlockId, ip: nat, env: Env, caller: Option<Frame>)

  function Operand(env: Env, v: Value): Option<int> {
    match v
    case Const(n) => Some(n)
    case _ => if v in env then Some(env[v]) else None
  }

  function Arith(op: BinOp, a: int, b: int): int {
    match op case Add => a + b case Sub => a - b case Mul => a * b
  }

  predicate Compare(pred: Predicate, a: int, b: int) {
    match pred
    case Sgt => a > b
    case Slt => a < b
    case Sle => a <= b
    case Sge => a >= b
    case Eq => a == b
    case Ne => a != b
  }

  /** One instruction that does not split the block; None when the run goes wrong. */
  function Exec(env: Env, ins: Instr): Option<Env> {
    match ins
    case Binary(dst, op, l, r) =>
      var a, b := Operand(env, l), Operand(env, r);
      if a.Some? && b.Some? && Fits(Arith(op, a.value, b.value))
      then Some(env[Reg(dst) := Arith(op, a.value, b.value)]) else None
    case ICmp(dst, pred, l, r) =>
      var a, b := Operand(env, l), Operand(env, r);
      if a.Some? && b.Some?
      then Some(env[Reg(dst) := if Compare(pred, a.value, b.value) then 1 else 0]) else None
    case Store(src, cell) =>
      var a := Operand(env, src);
      if a.Some? then Some(env[Cell(cell) := a.value]) else None
    case Load(dst, cell) =>
      if Cell(cell) in env then Some(env[Reg(dst) := env[Cell(cell)]]) else None
    case _ => Some(env)
  }

  datatype Stretch = Stretch(env: Env, ip: nat, split: Option<Instr>)

  function RunStretch(instrs: seq<Instr>, ip: nat, env: Env): Option<Stretch>
    decreases |instrs| - ip
  {
    if ip >= |instrs| then Some(Stretch(env, ip, None))
    else if IsSplit(instrs[ip]) then Some(Stretch(env, ip + 1, Some(instrs[ip])))
    else
      var next := Exec(env, instrs[ip]);
      if next.None? then None else RunStretch(instrs, ip + 1, next.value)
  }

  predicate FrameInProgram(p: Program, f: Frame) {
    f.block < |p.blocks| && (f.caller.Some? ==> FrameInProgram(p, f.caller.value))
  }

  datatype Progress = Moved(edge: Edge, frame: Frame) | Halted | Wrong

  function BindArgs(params: seq<nat>, args: seq<int>): Env
    requires |params| <= |args|
  {
    if params == [] then map[]
    else
      var last := |params| - 1;
      BindArgs(params[..last], args)[Reg(params[last]) := args[last]]
  }

  function Operands(env: Env, vs: seq<Value>): Option<seq<int>> {
    if vs == [] then Some([])
    else
      var last := |vs| - 1;
      var before, v := Operands(env, vs[..last]), Operand(env, vs[last]);
      if before.Some? && v.Some? then Some(before.value + [v.value]) else None
  }

  lemma {:induction false} OperandsAt(env: Env, vs: seq<Value>)
    requires Operands(env, vs).Some?
    ensures |Operands(env, vs).value| == |vs|
    ensures forall i :: 0 <= i < |vs| ==> Operand(env, vs[i]) == Some(Operands(env, vs).value[i])
  {
    if vs != [] {
      OperandsAt(env, vs[..|vs| - 1]);
      assert forall i :: 0 <= i < |vs| - 1 ==> vs[..|vs| - 1][i] == vs[i];
    }
  }

  /** Carries out a split instruction. */
  function Transfer(p: Program, f: Frame, split: Instr): (r: Progress)
    requires WellFormed(p) && FrameInProgram(p, f) && InRange(p, split)
    ensures r.Moved? ==> FrameInProgram(p, r.frame)
  {
    match split
    case Jump(target) => Moved(Goto, Frame(target, 0, f.env, f.caller))
    case Branch(cond, thn, els) =>
      if Reg(cond) !in f.env then Wrong
      else if f.env[Reg(cond)] != 0 then Moved(Taken(true), Frame(thn, 0, f.env, f.caller))
      else Moved(Taken(false), Frame(els, 0, f.env, f.caller))
    case Call(_, callee, args) =>
      var values := Operands(f.env, args);
      if values.None? then Wrong
      else
        OperandsAt(f.env, args);
        var target := p.functions[callee];
        Moved(Enter, Frame(target.entry, 0, BindArgs(target.params, values.value), Some(f)))
    case Return(result) =>
      var v := if result.Some? then Operand(f.env, result.value) else Some(0);
      if v.None? then Wrong
      else if f.caller.None? then Halted
      else
        assert FrameInProgram(p, f.caller.value);
        Moved(Leave, Resume(p, f.caller.value, if result.Some? then v else None))
    case _ => Halted
  }

  /** The caller's frame with the returned integer, if any, in the call's register. */
  function Resume(p: Program, caller: Frame, v: Option<int>): Frame
    requires caller.block < |p.blocks|
  {
    var instrs := p.blocks[caller.block].instrs;
    if 0 < caller.ip <= |instrs| && instrs[caller.ip - 1].Call? then
      var dst := Reg(instrs[caller.ip - 1].dst);
      caller.(env := if v.Some? then caller.env[dst := v.value] else caller.env - {dst})
    else caller
  }

  function Advance(p: Program, f: Frame): (r: Progress)
    requires WellFormed(p) && FrameInProgram(p, f)
    ensures r.Moved? ==> FrameInProgram(p, r.frame)
  {
    var g := RunStretch(p.blocks[f.block].instrs, f.ip, f.env);
    if g.None? then Wrong
    else if g.value.split.None? then Halted
    else
      StretchFacts(p.blocks[f.block].instrs, f.ip, f.env);
      Transfer(p, f.(ip := g.value.ip, env := g.value.env), g.value.split.value)
  }

  lemma {:induction false} StretchFacts(instrs: seq<Instr>, ip: nat, env: Env)
    ensures var g := RunStretch(instrs, ip, env);
            g.Some? && g.value.split.Some? ==> g.value.split.value in instrs
    decreases |instrs| - ip
  {
    if ip < |instrs| && !IsSplit(instrs[ip]) && Exec(env, instrs[ip]).Some? {
      StretchFacts(instrs, ip + 1, Exec(env, instrs[ip]).value);
    }
  }

  /** Where a run stands after as many steps as a path has edges: on the path, off
      it, or stopped by an error before it could tell. */
  datatype Position = On(frame: Frame) | Off | Faulted

  function Follow(p: Program, start: Frame, path: seq<Edge>): (r: Position)
    requires WellFormed(p) && FrameInProgram(p, start)
    ensures r.On? ==> FrameInProgram(p, r.frame)
  {
    if path == [] then On(start)
    else
      var last := |path| - 1;
      var before := Follow(p, start, path[..last]);
      if !before.On? then before
      else
        match Advance(p, before.frame)
        case Moved(e, f) => if e == path[last] then On(f) else Off
        case Halted => Off
        case Wrong => Faulted
  }

  function Start(p: Program, f: FunctionId, input: Option<Value> -> int): Frame
    requires f < |p.functions|
  {
    var params := p.functions[f].params;
    Frame(p.functions[f].entry, 0, BindArgs(params, seq(|params|, i requires 0 <= i < |params| => input(Some(Reg(params[i]))))), None)
  }
}
