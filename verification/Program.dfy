/**
 The program under test, as the executor sees it: basic blocks of LLVM
 instructions, each with the source line its first located instruction carries.
 Division, shifts, pointers held in registers and external functions are not
 part of this model.
 */
module Program {
  import opened Wrappers

  type BlockId = nat
  type FunctionId = nat

  /** The identity of an `llvm::Value`: a literal, an SSA register or parameter,
      or the address an `alloca` returned. */
  datatype Value = Const(n: int) | Reg(id: nat) | Cell(id: nat)

  datatype BinOp = Add | Sub | Mul

  /** Signed comparison predicates. */
  datatype Predicate = Sgt | Slt | Sle | Sge | Eq | Ne

  datatype Instr =
    | Binary(dst: nat, op: BinOp, lhs: Value, rhs: Value)
    | ICmp(dst: nat, pred: Predicate, lhs: Value, rhs: Value)
    | Alloca(cell: nat)
    | Declare(name: string, cell: nat)
    | Store(src: Value, cell: nat)
    | Load(dst: nat, cell: nat)
    | MarkError
    | Jump(target: BlockId)
    | Branch(cond: nat, thn: BlockId, els: BlockId)
    | Call(dst: nat, callee: FunctionId, args: seq<Value>)
    | Return(result: Option<Value>)

  datatype Block = Block(line: nat, instrs: seq<Instr>)

  datatype Function = Function(params: seq<nat>, entry: BlockId)

  datatype Program = Program(blocks: seq<Block>, functions: seq<Function>)

  /** Block and function references are in range, and every block ends in a
      terminator: LLVM's own well-formedness. */
  predicate WellFormed(p: Program) {
    && (forall b :: 0 <= b < |p.blocks| ==> EndsInTerminator(p.blocks[b].instrs))
    && (forall b, i :: 0 <= b < |p.blocks| && 0 <= i < |p.blocks[b].instrs| ==> InRange(p, p.blocks[b].instrs[i]))
    && (forall f :: 0 <= f < |p.functions| ==> p.functions[f].entry < |p.blocks|)
  }

  predicate EndsInTerminator(instrs: seq<Instr>) {
    && |instrs| > 0
    && var last := instrs[|instrs| - 1];
    last.Jump? || last.Branch? || last.Return?
  }

  predicate InRange(p: Program, ins: Instr) {
    match ins
    case Jump(t) => t < |p.blocks|
    case Branch(_, t, e) => t < |p.blocks| && e < |p.blocks|
    case Call(_, f, args) => f < |p.functions| && |args| == |p.functions[f].params|
    case _ => true
  }

  /** The instructions at which the executor stops running a block and asks for
      the next ones. The call that only marks an error region is skipped. */
  predicate IsSplit(ins: Instr) {
    ins.Jump? || ins.Branch? || ins.Call? || ins.Return?
  }

  const INT_MIN: int := -0x8000_0000
  const INT_MAX: int := 0x7FFF_FFFF

  predicate Fits(n: int) {
    INT_MIN <= n <= INT_MAX
  }

  /** Two's complement truncation to 32 bits. */
  function Wrap32(n: int): (w: int)
    ensures Fits(w) && (n - w) % 0x1_0000_0000 == 0
    ensures Fits(n) <==> w == n
  {
    (n + 0x8000_0000) % 0x1_0000_0000 - 0x8000_0000
  }
}
