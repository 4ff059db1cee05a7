/** The mutable nodes of the symbolic execution tree. */
module TreeNodes {
  import opened Wrappers
  import opened Program
  import opened Symbolic
  import opened ProgramStates

  class SymbolicTreeNode {
    const block: BlockId
    const state: ProgramState
    const id: nat
    const prevId: int
    const returnNode: SymbolicTreeNode?
    var instructionPtr: nat
    var hasNext: bool
    var hasPrev: bool
    var left: SymbolicTreeNode?
    var right: SymbolicTreeNode?
    var isExecuted: bool
    var isSatisfiable: bool
    var loopInfo: LoopInfo

    constructor (block: BlockId, state: ProgramState, id: nat, prevId: int, itr: Option<nat>, returnNode: SymbolicTreeNode?)
      ensures this.block == block && this.state == state && this.id == id && this.prevId == prevId
      ensures this.returnNode == returnNode
      ensures instructionPtr == (if itr.Some? then itr.value else 0) && hasNext
      ensures left == null && right == null && !isExecuted && isSatisfiable && loopInfo == NO_LOOP
    {
      this.block, this.state, this.id, this.prevId, this.returnNode := block, state, id, prevId, returnNode;
      instructionPtr := if itr.Some? then itr.value else 0;
      left, right := null, null;
      hasNext, hasPrev := true, false;
      isExecuted, isSatisfiable := false, true;
      loopInfo := NO_LOOP;
    }

    method SetLoopInfo(start: Option<BlockId>, executions: nat)
      modifies this`loopInfo
      ensures loopInfo == LoopInfo(start, executions)
    {
      loopInfo := LoopInfo(start, executions);
    }

    method SetSATInfo(satisfiable: bool)
      modifies this`isSatisfiable
      ensures isSatisfiable == satisfiable
    {
      isSatisfiable := satisfiable;
    }

    /** The pointer stands at an instruction exactly while one is left to fetch. */
    predicate PointerValid(instrs: seq<Instr>)
      reads this
    {
      instructionPtr <= |instrs| && (hasNext <==> instructionPtr < |instrs|)
    }

    /** Moves one instruction ahead and returns the position it left. */
    method GetNextInstruction(instrs: seq<Instr>) returns (at: nat)
      requires PointerValid(instrs) && hasNext
      modifies this`instructionPtr, this`hasNext, this`hasPrev
      ensures PointerValid(instrs) && hasPrev
      ensures at == old(instructionPtr) && at < |instrs| && instructionPtr == at + 1
    {
      at := instructionPtr;
      if hasNext {
        instructionPtr := instructionPtr + 1;
        hasNext := instructionPtr != |instrs|;
      }
      hasPrev := true;
    }

    /** Moves one instruction back, unless at the start, and returns the position it
        reached. */
    method GetPreviousInstruction(instrs: seq<Instr>) returns (at: nat)
      requires PointerValid(instrs) && |instrs| > 0
      modifies this`instructionPtr, this`hasNext, this`hasPrev
      ensures PointerValid(instrs) && hasNext
      ensures at == instructionPtr == if old(instructionPtr) == 0 then 0 else old(instructionPtr) - 1
    {
      hasNext := true;
      if instructionPtr == 0 {
        hasPrev := false;
      } else {
        instructionPtr := instructionPtr - 1;
      }
      at := instructionPtr;
    }
  }
}
