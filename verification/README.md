# Verified models of a symbolic executor and of its JSON library

The repository executes LLVM programs symbolically for a debugger in a browser. Two of
its components are modelled here and proved correct; neither needs the other, except
that both read decimal integers.

**The symbolic executor.** `Program` is the program under test: basic blocks of LLVM
instructions, each with its line. `Symbolic` says what executing one block makes of a
node: expression trees per value, a constraint list, a loop counter, the node to return
to. `Concrete` is ordinary 32-bit execution, in which an overflow or an uninitialised
read makes the run go wrong. `Simulation` relates the two, `Exploration` and `Partition`
treat the execution tree, `Feasibility` the marks in it, `Bookkeeping` what its nodes show
the user, `Scheduler`, `Traversal` and `Resume` the worklist loop, `Termination` and
`LoopBound` when it ends, and `Completeness` what it has then explored.
`ProgramStates`, `TreeNodes` and `Executor` are the classes, with fields updated in
place and states shared between nodes; `TreeViews` is why the sharing is never seen.
`Comparisons` is about programs whose branches test comparisons, as compilers leave them,
`BoundedRuns` about runs under the executor's loop bound, and `Witnesses` has the small
programs that show the conditions of the tree theorems to be needed. `PrefixModel` reads
the prefix expressions a user may give for an external call.

**The JSON library** (the bundled jsoncpp, legacy `Reader`, `FastWriter`, `StyledWriter`).
`JsonValue` and `JsonOrder` are values and their comparison operators; `Decimal`,
`Unicode` and `JsonStrings` are numbers, code points and quoted strings; `JsonScanner`
and `JsonReading` say what the reader computes from a document and a position, and
`JsonReader` is the class that computes it with a cursor, a stack and an error list.
`JsonText` gives a value's lexemes; `JsonRoundTrip`, `JsonLayout` and `JsonFaithful` prove
what any layout of them parses to; `JsonGrammar` is how RFC 8259 spells strings and numbers,
and `JsonReference` a recursive descent over its grammar that the reader agrees with.
`JsonDialect` is the larger language the reader accepts, character by character,
`JsonAccepted` proves that it accepts exactly that, and `JsonErrors` that what it reports
otherwise is true. `JsonSound` and `JsonStable` are about whatever document is parsed,
`JsonOffsets` about the byte ranges the reader records. `JsonFastWriter` and
`JsonStyledWriter` are the writers, and `JsonPretty` is the text the styled one must give.

Parameters of the model, where the original calls out: the solver (a text per constraint
list, empty when unsatisfiable, as its callers read it), and the C++ library's conversion
between doubles and text. Characters stand for bytes; every theorem about text holds for
all characters. RFC 8259 (sections 2 to 7) is the JSON format, RFC 3629 (sections 3
and 4) is UTF-8.

Where the source contradicts itself, the model follows the header and the callers: the
solver's answer is a string (`src/ProgramState.h:50`), although its definition says
`bool` (`src/ProgramState.cpp:204`).

Properties the code does not have, with the exact condition under which it does and an
input on which it does not:

- Folding `x + 0`, `x - 0` and `0 + x` keeps only the top value of `x`, so it loses a
  compound `x`: `ExpressionTree.MakeIsExactIff`; a product is lost in
  `ExpressionTree.FoldLosesProduct`.
- A branch on a literal explores its dead side too, with the parent's constraints, so
  leaves overlap there: `Partition.FrontierPartitionsIff`, `Simulation.DescribesIffGuided`;
  the block that stores 1, loads it and branches does so in
  `Witnesses.LiteralBranchIsTwiceCovered` and `Witnesses.DeadSideIsSatisfied`. It cannot
  happen when branches test comparisons only: `Comparisons.ComparisonsPartition`.
- An infeasible true side is recorded on the parent, which a replay then treats as
  infeasible, so a resumed round does not reach the other child:
  `Resume.ResumesIffNoRefusedFork`; a branch on `x > x` is not resumed in
  `Witnesses.ImpossibleBranchDoesNotResume`.
- Past a forced loop exit the constraints describe the program's own runs if and only if
  no input that satisfies them would choose another side itself:
  `Simulation.DescribesIffSilentSidesHold`, at a single exit `Simulation.DescribesIffGuided`;
  in `Witnesses.ForcedExitIsSatisfied` an input does. No exit keeps them from describing the
  bounded runs, `BoundedRuns.BoundedSimulation`, which are the program's own under the same
  condition: `BoundedRuns.RunIsBoundedIff`.
- An unlimited round ends if and only if the nodes it may execute lie on a bounded number of
  levels: `Termination.EndsIffBounded`. The loop bound achieves that where headers call
  nothing before they branch, `LoopBound.ExplorationTerminates`; a loop whose header calls is
  never left, `Witnesses.CallingHeaderNeverEnds`.
- The reader accepts more than RFC 8259: exactly the dialect, `JsonAccepted.ParsesIff`, which
  adds comments, loose numbers, raw control characters and unpaired surrogates in strings, a
  closing brace after a member without a name and a comma, any token in place of the comma
  where a comment follows a member, and any text after the value. A minus sign alone is zero in
  `JsonAccepted.MinusIsZero`; `JsonAccepted.SemicolonIsRejected` is a text it refuses.
- A closing bracket shares the line with what precedes it where the last child's text is empty
  or ends with a space or a line feed: `JsonPretty.ClosesOnItsLineIff`.
- A string value without text is written as nothing: `JsonFaithful.RoundTripIff`,
  `JsonFaithful.MissingTextIsLost`.
- The styled writer cuts member names at a NUL: `JsonPretty.StyledTextMeansTheSameIff`,
  `JsonFaithful.NulNameIsLost`.
- `==` is not reflexive on NaN: `JsonOrder.ReflexiveIffNaNFree`, `JsonOrder.NaNIsNotReflexive`.
- A lone low surrogate escape decodes to ill-formed UTF-8, and the unit after a high
  surrogate is not checked: `JsonStrings.EscapeIsWellFormedIff`, and for what the escape
  spells `JsonStrings.EscapeDenotesIff`; `JsonStrings.LoneSurrogateIsIllFormed`.

`dafny verify dfyconfig.toml` checks everything.

## Model

| member | source | states |
|---|---|---|
| ExpressionTree.MakeIsExactIff | src/llvmExpressionTree.cpp:37-60 | the folding constructor denotes the operation on its operands for every input if and only if no compound operand stands next to a folded zero and no literal fold overflows 32 bits |
| ExpressionTree.MakeKeepsMeaning | src/llvmExpressionTree.cpp:37-60 | the direction used on every path: outside those two cases folding preserves meaning |
| ExpressionTree.FoldLosesProduct | src/llvmExpressionTree.cpp:44-52 | adding zero to a product yields a leaf without a value, which means something else |
| Program.Wrap32 | src/llvmExpressionTree.cpp:141-153 | a folded literal is the 32-bit truncation: the 32-bit integer congruent to it, the identity exactly on integers that fit |
| PrefixModel.PrefixReader.ReadWord | src/llvmExpressionTree.cpp:87-90 | extracts the next word of the stream and stops right after it |
| PrefixModel.PrefixReader.ConstructTree | src/llvmExpressionTree.cpp:85-131 | the recursive reader computes the specified tree, exception or null dereference, and leaves the stream where the specification ends |
| PrefixModel.ConstructsExpression | src/llvmExpressionTree.cpp:85-131 | whatever blanks separate them and whatever follows, exactly the expression's words are consumed, and the tree is the expression with variables replaced by their current trees |
| PrefixModel.SubstitutionKeepsMeaning | src/llvmExpressionTree.cpp:111-118 | that tree evaluates to the expression over the variables' current symbolic values |
| PrefixModel.ModelsMeanTheirExpression | src/llvmExpressionTree.cpp:122-131 | every expression over + - * / with int literals and bound variables, spelled with blanks, builds a tree that means it |
| PrefixModel.LiteralWord | src/llvmExpressionTree.cpp:103-110 | every int literal's text is taken for a literal and read back as itself |
| ProgramStates.ProgramState.FromParams | src/ProgramState.cpp:8-24 | a callee's parameters are bound to the argument trees in order, missing arguments to themselves |
| ProgramStates.ProgramState.Copy | src/ProgramState.cpp:26-56 | values and user variables merge only on request, names and stores always, constraints are appended, the shown condition is replaced |
| ProgramStates.ProgramState.CopyOf | src/ProgramState.cpp:58-61 | a copy has the same contents |
| ProgramStates.ProgramState.Add | src/ProgramState.cpp:80-83 | rebinds one value and nothing else |
| ProgramStates.ProgramState.AddUserVar | src/ProgramState.cpp:88-92 | rebinds one user variable and its address's name, and nothing else |
| ProgramStates.ProgramState.AddStore | src/ProgramState.cpp:105-108 | remembers the last address of one stored value, and nothing else |
| ProgramStates.ProgramState.AddCondition | src/ProgramState.cpp:71-75 | appends to the shown condition |
| ProgramStates.ProgramState.Lookup | src/ProgramState.cpp:117-121 | the tree bound to a value, or none |
| TreeNodes.SymbolicTreeNode.constructor | src/symbolicexecutor.h:84-117 | a new node stands at its iterator or its block's start, unexecuted, satisfiable, outside any loop |
| TreeNodes.SymbolicTreeNode.SetLoopInfo | src/symbolicexecutor.h:73-77 | sets the loop header and counter only |
| TreeNodes.SymbolicTreeNode.SetSATInfo | src/symbolicexecutor.h:79-82 | sets the feasibility mark only |
| TreeNodes.SymbolicTreeNode.GetNextInstruction | src/symbolicexecutor.h:152-176 | returns the instruction under the pointer and moves past it; one is left exactly while the pointer is inside the block |
| TreeNodes.SymbolicTreeNode.GetPreviousInstruction | src/symbolicexecutor.h:134-149 | moves back one instruction, not before the first, and returns it |
| Executor.SymbolicExecutor.Begin | src/symbolicexecutor.cpp:1030-1032 | the root stands at the function's entry with symbolic parameters; the invariant holds with nothing executed |
| Executor.SymbolicExecutor.GetExpressionTree | src/symbolicexecutor.cpp:46-53 | a value's tree, or the value itself as a leaf |
| Executor.SymbolicExecutor.ExecuteNonBranchingInstruction | src/symbolicexecutor.cpp:58-178 | updates the node's state as one symbolic step prescribes |
| Executor.SymbolicExecutor.SideState | src/symbolicexecutor.cpp:199-231 | a side of a branch gets a fresh copy of the state, constrained unless the condition is a literal or the exit is forced |
| Executor.SymbolicExecutor.BranchSides | src/symbolicexecutor.cpp:199-307 | the states and the feasibility of both sides, and whether the loop bound forces the exit |
| Executor.SymbolicExecutor.GetBranchBlocks | src/symbolicexecutor.cpp:196-318 | two new nodes, or the false side alone, with their ids, states and marks; an infeasible true side marks the parent |
| Executor.SymbolicExecutor.GetReturnState | src/symbolicexecutor.cpp:514-529 | the caller's map plus the call bound to the returned tree; the call node's own pointer ends where it was |
| Executor.SymbolicExecutor.GetCalleeBlock | src/symbolicexecutor.cpp:480-490 | one new node at the callee's entry, its parameters bound to the argument trees |
| Executor.SymbolicExecutor.GetCallerBlock | src/symbolicexecutor.cpp:492-503 | one new node just past the call, which will return to the caller's own caller |
| Executor.SymbolicExecutor.GetNextBlocks | src/symbolicexecutor.cpp:186-512 | exactly the successors of the split instruction, all new, their states new but for the one a jump hands on |
| Executor.SymbolicExecutor.ExecuteBasicBlock | src/symbolicexecutor.cpp:584-669 | runs from the pointer to the next split and leaves node and children as the specification of the block says |
| Executor.SymbolicExecutor.RunIfFeasible | src/symbolicexecutor.cpp:815-817 | an infeasible node is not run and keeps every field |
| Executor.SymbolicExecutor.RunKeepingOthers | src/symbolicexecutor.cpp:196-341 | running a node changes no other node's state but those that are shared with it |
| Executor.SymbolicExecutor.PushNewBlocks | src/symbolicexecutor.cpp:868-906 | links first and second child and queues them in the order and at the end that direction and mode ask for |
| Executor.SymbolicExecutor.ExecutePending | src/symbolicexecutor.cpp:814-906 | on the tree of values one execution of the node; every node that owns its state keeps all its fields |
| Executor.SymbolicExecutor.OwnersUntouched | src/symbolicexecutor.cpp:198-342 | executing a node changes neither a pending node nor a call node awaiting returns |
| Executor.SymbolicExecutor.OwnStatesAreIsolated | src/symbolicexecutor.cpp:325-341 | although a jump shares its state, no two nodes that are pending or await a return share one, and each holds exactly its recorded state and pointer |
| Executor.SymbolicExecutor.OneTurn | src/symbolicexecutor.cpp:734-930 | one turn skips an excluded node, replays an executed one without a step, or executes a pending one for a step |
| Executor.SymbolicExecutor.StartDeque | src/symbolicexecutor.cpp:684-731 | a round starts with the root or with the chosen node's children in the order the direction asks for |
| Executor.SymbolicExecutor.SymbolicExecute | src/symbolicexecutor.cpp:674-937 | a round, an unlimited one if any number of steps would empty its queue, terminates in the tree the specified round builds and reports the newly executed ids in order: it begins at the root or at the chosen node's child on the named side; depth first, each node that is followed by another and has an allowed child is followed by the one on the named side; a first breadth-first round without exclusions goes through the root and then the children of what it has executed, node by node |
| Executor.SymbolicExecutor.LoopShapedCanFinish | src/symbolicexecutor.cpp:734-746 | without recursion and without calls in loop headers, an unlimited round can be asked for at any time, whatever has been explored before |
| Executor.SymbolicExecutor.Exclude | src/symbolicexecutor.cpp:1087-1108 | adds exactly the blocks of the line, or of the node, to the excluded ones |
| TreeViews.RanKeepsViews | src/symbolicexecutor.cpp:198-342 | one execution keeps heap and tree of values in step |
| TreeViews.ViewsStep | src/symbolicexecutor.cpp:325-341 | the node that hands its state on stops owning it, so ownership stays exclusive |
| TreeViews.StandsAtItsCall | src/symbolicexecutor.h:152-165 | a node stands just past a call exactly when a call ended its run |
| Bookkeeping.PathRemembers | src/symbolicexecutor.cpp:107-134 | on every path, calls and returns included, user variables map each name to the cell of its last declaration in the function's own activation; names of cells and stores are the last ones of everything that has run |
| Bookkeeping.ExploredRemember | src/symbolicexecutor.cpp:107-134 | the same of every node of a reachable tree, run or not |
| Bookkeeping.VariablesAreShown | src/ProgramState.cpp:128-139 | a variable is shown if and only if the function has declared it, with the tree of its last declared cell, which evaluates to what the run has stored there |
| Bookkeeping.PathShows | src/symbolicexecutor.cpp:225-302 | the conditions shown for a node are the sides its path took of branches neither literal nor forced, each once and in order |
| Bookkeeping.ExploredShow | src/symbolicexecutor.cpp:225-302 | in every reachable tree a constraint is shown for a node if and only if it constrains it, duplicates from returns aside |
| Bookkeeping.PathCounts | src/symbolicexecutor.cpp:325-341 | a node's loop header and counter are the last of the back jumps since the last call or return, and their number |
| Simulation.RunIsModelled | src/symbolicexecutor.cpp:58-503 | a run on a path satisfies the node's constraints, and every entry of the node's map evaluates to the run's value, callers included |
| Simulation.Simulation | src/symbolicexecutor.cpp:58-342 | on every path, an input's concrete run takes exactly that path if and only if the input satisfies the node's constraint list and chooses the sides that left no constraint, and then the maps agree |
| Simulation.GuidedSimulation | src/symbolicexecutor.cpp:58-342 | where no exit was forced and no literal contradicted, the constraint list alone says it |
| Simulation.SilentSideIsTakenIff | src/symbolicexecutor.cpp:204-224 | a run takes a side that leaves no constraint exactly when its condition evaluates to that side |
| Simulation.DescribesIffSilentSidesHold | src/symbolicexecutor.cpp:204-224 | a node's constraints hold of an input exactly when its run comes there, if and only if satisfying them implies choosing the path's unconstrained sides |
| Simulation.DescribesIffGuided | src/symbolicexecutor.cpp:204-224 | at one edge, for an input whose run has come to it: if and only if the edge is guided, or it is a forced exit whose own condition is zero |
| Simulation.UnguidedRepeats | src/symbolicexecutor.cpp:223-232 | a forced exit or a contradicted literal side repeats its parent's constraint list |
| Simulation.CallSimulates | src/symbolicexecutor.cpp:482-489 | a callee's parameters evaluate to the argument values |
| Simulation.ReturnSimulates | src/symbolicexecutor.cpp:514-529 | a return binds the call to the returned value in the caller's memory |
| TreePaths.EveryNodeHasPath | src/symbolicexecutor.cpp:674-937 | every node of a reachable tree is the end of a path |
| TreePaths.ExploredNodesSimulate | src/symbolicexecutor.cpp:58-342 | so simulation holds of the nodes an exploration builds, forced exits included |
| TreePaths.ExploredCallersWait | src/symbolicexecutor.cpp:480-529 | in every reachable tree each node that will be returned to stands just past a call |
| TreePaths.ReturnResumesCaller | src/symbolicexecutor.cpp:492-529 | in every reachable tree, executing a node that returns adds one node, which stands just past the caller's call with the caller's map but for the call, bound to the returned tree; its list, duplicates included, is equivalent to the callee's |
| Partition.ChildrenSplitInputs | src/symbolicexecutor.cpp:196-341 | two children split their parent's inputs on a condition, or both repeat them when it is a literal; a single child keeps them |
| Partition.CoverOfExploration | src/symbolicexecutor.cpp:196-341 | in every reachable tree each input satisfies some leaf, and no second one unless it satisfies a node that branched on a literal |
| Partition.FrontierPartitionsIff | src/symbolicexecutor.cpp:196-341 | each input satisfies exactly one leaf if and only if no satisfiable node branched on a literal |
| Comparisons.ExploredAreUndecided | src/symbolicexecutor.cpp:58-503 | if no tested register is a parameter or the result of arithmetic, a load or a call, none ever holds a literal, through calls and returns |
| Comparisons.ComparisonsPartition | src/symbolicexecutor.cpp:196-341 | for such programs, in every tree reachable in any order each input satisfies the constraints of exactly one leaf |
| Comparisons.FeasibleLeavesPartition | src/symbolicexecutor.cpp:239-320 | with a solver that refuses exactly the unsatisfiable lists, that one leaf is never marked infeasible |
| Feasibility.MarksMean | src/symbolicexecutor.cpp:239-320 | with an exact solver, in every reachable tree: a node without children is marked infeasible if and only if it is the false side of a branch and a literal condition denies it or no input satisfies its constraints; one with children if and only if that is so of its true side; no node marked when it was created ever gets children |
| Feasibility.ExactSolver | src/ProgramState.cpp:204-240 | a solver that refuses exactly the unsatisfiable lists exists |
| Comparisons.ComparisonsSimulate | src/symbolicexecutor.cpp:58-342 | for such programs simulation asks of a path's branches only that the loop bound has forced none |
| Comparisons.EveryRunHasOneLeaf | src/symbolicexecutor.cpp:58-503 | each input whose run does not go wrong runs to exactly one leaf |
| BoundedRuns.UnforcedRunsAreBounded | src/symbolicexecutor.cpp:204-207 | until the loop bound is used up, a bounded run is the program's own run |
| BoundedRuns.BoundedSimulation | src/symbolicexecutor.cpp:58-503 | forced exits included: an input's run under the loop bound takes exactly the path if and only if the input satisfies the node's constraint list and the literal conditions on the path hold, and then the maps agree |
| BoundedRuns.ComparisonsSimulateBounded | src/symbolicexecutor.cpp:58-503 | when branches test comparisons the constraint list alone says it |
| BoundedRuns.RunIsBoundedIff | src/symbolicexecutor.cpp:204-224 | the program's own run takes a path if and only if the bounded one does and the input chooses the path's forced exits itself; then they are the same run |
| BoundedRuns.EveryBoundedRunHasOneLeaf | src/symbolicexecutor.cpp:58-503 | each input whose bounded run does not go wrong runs to exactly one leaf, loops included |
| Completeness.FullTreeIsExecuted | src/symbolicexecutor.cpp:734-930 | an unlimited round from the root that ends has executed every node but those in excluded blocks |
| Completeness.LoopShapedIsFinite | src/symbolicexecutor.cpp:734-746 | in a loop-shaped program it does end |
| Completeness.EveryRunIsExplored | src/symbolicexecutor.cpp:58-937 | in the tree it ends with, with an exact solver, each input whose bounded run does not go wrong runs to exactly one leaf and stops there, unless that leaf's block is excluded |
| Completeness.ChildlessStops | src/symbolicexecutor.cpp:492-512 | a run stops where its node has no children |
| Witnesses.LiteralBranchIsTwiceCovered | src/symbolicexecutor.cpp:209-222 | after a branch on a stored literal every input satisfies two leaves |
| Witnesses.DeadSideIsSatisfied | src/symbolicexecutor.cpp:209-222 | every input satisfies the dead side's constraints and none takes it |
| Witnesses.ImpossibleBranchDoesNotResume | src/symbolicexecutor.cpp:287-290 | with any exact solver, two rounds of one step over a branch on `x > x` are not one round of two |
| Witnesses.ForcedExitIsSatisfied | src/symbolicexecutor.cpp:223 | an input satisfies the constraints behind a forced exit although its run never leaves the loop |
| Witnesses.CirclesForever | src/symbolicexecutor.cpp:480-503 | a loop whose header calls a function has paths of every length, as call and return forget the loop |
| Witnesses.CallingHeaderNeverEnds | src/symbolicexecutor.cpp:480-503 | so an unlimited round over it never ends, whatever the solver and the order |
| Exploration.ExecuteKeepsValid | src/symbolicexecutor.cpp:814-906 | executing any pending node keeps ids positions, parents below children, and adds at most two nodes |
| Exploration.ExploredOnce | src/symbolicexecutor.cpp:754-829 | in every reachable tree each node was executed at most once and only after its parent |
| Scheduler.BlockExecutorIsSteady | src/symbolicexecutor.cpp:814-829 | the executor's own way of running a node is one the scheduler's theorems apply to |
| Scheduler.TurnDescends | src/symbolicexecutor.cpp:734-816 | a turn without a step shrinks the executed subtrees in the queue, so replay terminates |
| Scheduler.Round | src/symbolicexecutor.cpp:734-930 | a round ends with its steps used up or its queue empty, in a valid tree |
| Scheduler.RoundFacts | src/symbolicexecutor.cpp:734-930 | a round of n steps newly executes at most n nodes, fewer only with an empty queue, none in an excluded block, and changes nothing executed before |
| Scheduler.RoundLosesNone | src/symbolicexecutor.cpp:734-930 | every pending node stays queued unless it is excluded |
| Resume.SkippedAreIdle | src/symbolicexecutor.cpp:754-763 | queues that differ in excluded nodes only give the same round |
| Resume.RoundContinues | src/symbolicexecutor.cpp:734-930 | k + m steps continue from where k steps stopped |
| Resume.ReplayReaches | src/symbolicexecutor.cpp:764-813 | replaying a tree without marked forks reaches the frontier in the order it was left |
| Resume.MarksTell | src/symbolicexecutor.cpp:287-290 | in every reachable tree a node with children is marked exactly when its own branch refused its true side |
| Resume.RoundExplores | src/symbolicexecutor.cpp:734-930 | what a round builds from a reachable tree is reachable |
| Resume.ResumesIffNoMarkedFork | src/symbolicexecutor.cpp:674-937 | for any way of executing nodes, a round of k steps and then one of m from the same start gives the tree and order of one of k + m, for all k and m, if and only if no node it executes ends up marked while a child of it is not excluded |
| Resume.ResumesIffNoRefusedFork | src/symbolicexecutor.cpp:287-290 | from any reachable tree and any queue, every split into two rounds resumes if and only if no branch the run executes refuses its own true side while a child of it is not excluded |
| Traversal.ChildrenAreQueued | src/symbolicexecutor.cpp:868-906 | depth first a node's children come in front of the queue, the named side first; breadth first behind it, the named side last |
| Traversal.ChildrenStart | src/symbolicexecutor.cpp:684-731 | a round below a node starts with the named side and then the other, whatever its mode |
| Traversal.DepthFirstGoesDown | src/symbolicexecutor.cpp:734-937 | from any tree and queue, replays and exclusions included, a depth-first round executes right after a node its first allowed child, the named side before the other |
| Traversal.BreadthFirstInOrder | src/symbolicexecutor.cpp:734-937 | what a breadth-first round executes, followed by what it leaves queued, is what was queued, followed by the children of what it executes, node by node |
| Traversal.RoundBegins | src/symbolicexecutor.cpp:684-731 | the first node a round executes is the root or the chosen node's first allowed child, named side before the other, if that is pending |
| Termination.EndsIffBounded | src/symbolicexecutor.cpp:734-746 | an unlimited round from the root ends if and only if the nodes it may execute lie on a bounded number of levels |
| Termination.FinishedIsWithin | src/symbolicexecutor.cpp:734-930 | a round that empties its queue has gone through all levels below what it started with, no more than it took steps |
| Termination.BoundedLevelsEnd | src/symbolicexecutor.cpp:734-930 | from a root with k levels, 2 to the power of k + 1 steps empty the queue, from every tree reached and any of its nodes |
| Termination.EnoughIsEnough | src/symbolicexecutor.cpp:734-746 | all numbers of steps that empty the queue give the same tree |
| Termination.StepLowersCost | src/symbolicexecutor.cpp:814-906 | an execution lowers the number of executions still possible |
| LoopBound.ChildrenAreLower | src/symbolicexecutor.cpp:325-503 | in a loop-shaped program every edge lowers the height, taken back jumps, calls and returns included |
| LoopBound.PathsAreBounded | src/symbolicexecutor.cpp:204-503 | every path of the tree has at most twice as many nodes as the program has blocks, times what the calls of one block cost; without calls, just that |
| LoopBound.ExplorationTerminates | src/symbolicexecutor.cpp:734-746 | in a loop-shaped program exploring on without a step limit, from any nodes of any reachable tree, empties the queue, within a number of steps known from the root |
| JsonValue.PutKeepsSorted | src/jsoncpp/src/lib_json/json_value.cpp:904-918 | element access keeps the map in key order and adds nothing else |
| JsonValue.FindAfterPut | src/jsoncpp/src/lib_json/json_value.cpp:977-992 | reading after writing: the new value under its key, every other key as before |
| JsonValue.KeyTrichotomy | src/jsoncpp/src/lib_json/json_value.cpp:252-275 | of two keys exactly one precedes, or they are equal |
| JsonValue.KeyLessMeans | src/jsoncpp/src/lib_json/json_value.cpp:252-266 | indices by number; of two names, the one that is a proper prefix of the other or has the smaller byte where they first differ |
| JsonOrder.TypesCompare | src/jsoncpp/src/lib_json/json_value.cpp:486-491 | values of different types are ordered by type: null, integers, doubles, strings, booleans, arrays, objects |
| JsonOrder.ScalarsCompare | src/jsoncpp/src/lib_json/json_value.cpp:492-523 | numbers of one type by value with infinities at the ends and NaN before and after nothing, strings byte by byte after a missing text, false before true |
| JsonOrder.ContainersCompare | src/jsoncpp/src/lib_json/json_value.cpp:524-532 | of two arrays or objects the one with fewer entries, and among equally many the first entry that differs decides |
| JsonOrder.MembersCompare | src/jsoncpp/src/lib_json/json_value.cpp:524-532 | an entry by its key, and by its value under equal keys |
| JsonOrder.TotalOrder | src/jsoncpp/src/lib_json/json_value.cpp:476-535 | on NaN-free values `<` is a strict total order through nested arrays and objects, `compare` is antisymmetric and zero exactly on equal values |
| JsonOrder.EqualIffIncomparable | src/jsoncpp/src/lib_json/json_value.cpp:537-576 | `==` holds if and only if neither value precedes the other |
| JsonOrder.EqualIffSameContent | src/jsoncpp/src/lib_json/json_value.cpp:537-576 | `==` holds if and only if the contents are the same, byte ranges aside |
| JsonOrder.ReflexiveIffNaNFree | src/jsoncpp/src/lib_json/json_value.cpp:537-576 | a value equals itself if and only if it has no NaN |
| JsonOrder.NaNIsNotReflexive | src/jsoncpp/src/lib_json/json_value.cpp:476-482 | an array with a NaN does not equal itself although `compare` answers zero |
| Decimal.UIntToString | src/jsoncpp/src/lib_json/json_tool.h:70-76 | writes the terminator and the decimal digits just before the given end, in at most 21 bytes, and no other byte |
| Decimal.IntToString | src/jsoncpp/src/lib_json/json_writer.cpp:96-110 | the decimal text of every signed 64-bit integer, the smallest included, inside the 25-byte buffer |
| Decimal.UIntToText | src/jsoncpp/src/lib_json/json_writer.cpp:112-118 | the decimal text of every unsigned 64-bit integer |
| Decimal.ReadInteger | src/jsoncpp/src/lib_json/json_reader.cpp:563-603 | in 64-bit arithmetic that never overflows, an integer if and only if the token is an optional minus sign and digits within 64 bits, stored as `Int` up to the largest int and else as `UInt` |
| Decimal.TooLarge | src/jsoncpp/src/lib_json/json_reader.cpp:583-592 | the early exit is taken only when the whole number exceeds the limit |
| Decimal.IntegerRoundTrip | src/jsoncpp/src/lib_json/json_reader.cpp:563-603 | reading a written 64-bit integer gives it back |
| Unicode.EncodesExactlyScalars | src/jsoncpp/src/lib_json/json_tool.h:19-49 | the bytes of a code point are well-formed UTF-8 that spells it, exactly for the Unicode scalar values |
| Unicode.EncodingIsInjective | src/jsoncpp/src/lib_json/json_tool.h:19-49 | no two scalar values share their bytes |
| Unicode.SurrogatesRoundTrip | src/jsoncpp/src/lib_json/json_reader.cpp:698-711 | splitting a code point into surrogates and combining them is the identity |
| JsonStrings.ValueToQuotedStringN | src/jsoncpp/src/lib_json/json_writer.cpp:244-306 | quotes and escapes every special character, whichever of its two ways it takes |
| JsonStrings.UnicodeEscapeDecodes | src/jsoncpp/src/lib_json/json_reader.cpp:691-746 | the escape of every scalar value, a pair above 0xFFFF, digits of either case, decodes in place to its well-formed UTF-8 |
| JsonStrings.EscapeIsWellFormedIff | src/jsoncpp/src/lib_json/json_reader.cpp:691-718 | an accepted escape decodes to well-formed UTF-8 if and only if it does not begin with a low surrogate |
| JsonStrings.EscapeDenotesIff | src/jsoncpp/src/lib_json/json_reader.cpp:691-718 | an accepted escape decodes to the scalar value it spells if and only if it does not begin with a low surrogate and a high one is followed by a low one |
| JsonStrings.LoneSurrogateIsIllFormed | src/jsoncpp/src/lib_json/json_reader.cpp:698-711 | the escape DC00 alone is accepted and ill-formed, and D800 takes the escape of a letter for its second half |
| JsonGrammar.StringIsToken | src/jsoncpp/src/lib_json/json_reader.cpp:447-457 | every string of the RFC's grammar, however escaped, is one token up to its own quote and decodes to what it denotes |
| JsonGrammar.NumberIsToken | src/jsoncpp/src/lib_json/json_reader.cpp:425-445 | every number of the grammar is one token |
| JsonGrammar.WrittenString | src/jsoncpp/src/lib_json/json_writer.cpp:244-306 | what the writers quote is a string of the grammar that denotes the text, NUL included |
| JsonGrammar.EscapeIsShortest | src/jsoncpp/src/lib_json/json_writer.cpp:244-306 | no spelling the grammar has for a character is shorter than the one written |
| JsonGrammar.WrittenInteger | src/jsoncpp/src/lib_json/json_writer.cpp:96-118 | what the writers print of an integer is a number of the grammar |
| JsonGrammar.StringRoundTrip | src/jsoncpp/src/lib_json/json_writer.cpp:244-306 | for every string, NUL included, and any text after it, the token read ends at the writer's closing quote and decodes to the string |
| JsonReading.ReadValue | src/jsoncpp/src/lib_json/json_reader.cpp:160-242 | reading never goes back nor past the end, however it ends; success comes with no error, failure with exactly one |
| JsonReading.ReadMembers | src/jsoncpp/src/lib_json/json_reader.cpp:459-513 | the same for the rest of an object |
| JsonReading.ReadElements | src/jsoncpp/src/lib_json/json_reader.cpp:515-551 | the same for the elements of an array |
| JsonReader.Reader.ReadToken | src/jsoncpp/src/lib_json/json_reader.cpp:254-323 | the cursor-based scanner computes the specified token and stops at its end |
| JsonReader.Reader.SkipCommentTokens | src/jsoncpp/src/lib_json/json_reader.cpp:244-252 | the first token that is no comment |
| JsonReader.Reader.SkipSpaces | src/jsoncpp/src/lib_json/json_reader.cpp:325-333 | stops at the first character that is no white space, or at the end |
| JsonReader.Reader.Match | src/jsoncpp/src/lib_json/json_reader.cpp:335-344 | consumes the pattern if it is there and nothing otherwise |
| JsonReader.Reader.ReadComment | src/jsoncpp/src/lib_json/json_reader.cpp:346-370 | where a comment ends, and whether it is one |
| JsonReader.Reader.ReadCStyleComment | src/jsoncpp/src/lib_json/json_reader.cpp:400-407 | up to the first closing mark |
| JsonReader.Reader.ReadCppStyleComment | src/jsoncpp/src/lib_json/json_reader.cpp:409-423 | up to the end of the line, a DOS one counting as one |
| JsonReader.Reader.ReadNumber | src/jsoncpp/src/lib_json/json_reader.cpp:425-445 | the longest digits, fraction and exponent, although it reads one character ahead |
| JsonReader.Reader.ReadString | src/jsoncpp/src/lib_json/json_reader.cpp:447-457 | up to the first quote that no backslash escapes |
| JsonReader.Reader.DecodeNumber | src/jsoncpp/src/lib_json/json_reader.cpp:553-625 | the token's integer or double, or one error |
| JsonReader.Reader.DecodeString | src/jsoncpp/src/lib_json/json_reader.cpp:638-689 | the decoded text, or the one error with its place |
| JsonReader.Reader.DecodeUnicodeCodePoint | src/jsoncpp/src/lib_json/json_reader.cpp:691-718 | one escape or a surrogate pair, or the error of the part that is wrong |
| JsonReader.Reader.DecodeUnicodeEscapeSequence | src/jsoncpp/src/lib_json/json_reader.cpp:720-746 | four hexadecimal digits of either case |
| JsonReader.Reader.RecoverFromError | src/jsoncpp/src/lib_json/json_reader.cpp:758-769 | terminates past the next closing token or at the end and leaves the errors as they were |
| JsonReader.Reader.ReadValue | src/jsoncpp/src/lib_json/json_reader.cpp:160-242 | computes the specified outcome, after a depth exception the value as far as it was built, into the top of the stack, and leaves the rest of the stack and, on success, the depth as they were |
| JsonReader.Reader.ReadObject | src/jsoncpp/src/lib_json/json_reader.cpp:459-513 | the same for an object |
| JsonReader.Reader.ReadComma | src/jsoncpp/src/lib_json/json_reader.cpp:496-508 | the end of the object, an error, or any token where a comment comes first |
| JsonReader.Reader.ReadArray | src/jsoncpp/src/lib_json/json_reader.cpp:515-551 | computes the specified outcome for an array, an empty one with space inside included |
| JsonReader.Reader.Parse | src/jsoncpp/src/lib_json/json_reader.cpp:118-158 | terminates on every document with the specified value, partly built after the depth exception, and no error unless parsing failed, then exactly one |
| JsonAccepted.ParsesIff | src/jsoncpp/src/lib_json/json_reader.cpp:118-158 | parsing succeeds if and only if the document begins with a value of the dialect nested at most 1000 deep; it stops where that value ends and returns its normal form, and throws for a deeper one |
| JsonAccepted.ValueAgrees | src/jsoncpp/src/lib_json/json_reader.cpp:160-242 | the same at any place and depth and over any old value |
| JsonAccepted.MembersAgree | src/jsoncpp/src/lib_json/json_reader.cpp:459-513 | the same for the rest of an object, onto whatever members it has |
| JsonAccepted.ElementsAgree | src/jsoncpp/src/lib_json/json_reader.cpp:515-551 | the same for the elements of an array |
| JsonAccepted.Tokens | src/jsoncpp/src/lib_json/json_reader.cpp:254-323 | which characters begin a token of which kind, and that no others do |
| JsonAccepted.SemicolonIsRejected | src/jsoncpp/src/lib_json/json_reader.cpp:541-546 | `[1;2]` is not accepted |
| JsonAccepted.MinusIsZero | src/jsoncpp/src/lib_json/json_reader.cpp:563-603 | a minus sign alone parses to zero |
| JsonErrors.ErrorIsTrue | src/jsoncpp/src/lib_json/json_reader.cpp:160-551 | the one error of a failed parse is true of the document: where it points, no value begins, the name, colon, comma or bracket is missing, the number is none, or the escape is ill-formed in the way it says |
| JsonSound.ReadIsSound | src/jsoncpp/src/lib_json/json_reader.cpp:160-551 | whatever the document and however reading ends, what is built is well formed: keys in order, integers within their width, every string with text |
| JsonRoundTrip.NextToken | src/jsoncpp/src/lib_json/json_reader.cpp:254-323 | each lexeme, in any spelling of the RFC, is the reader's next token |
| JsonRoundTrip.ReadsMembers | src/jsoncpp/src/lib_json/json_reader.cpp:459-513 | a laid out list of members is read onto an object, repeated names keeping the last value, or hits the depth limit |
| JsonRoundTrip.ReadsElements | src/jsoncpp/src/lib_json/json_reader.cpp:515-551 | a laid out list of elements is read into consecutive slots, or hits the depth limit |
| JsonRoundTrip.ReadsBack | src/jsoncpp/src/lib_json/json_reader.cpp:160-242 | any text of a value, whatever its space and its spelling of strings and numbers, at any place and depth and over any old value, reads as the normal form and ends where the text ends, or throws exactly when nested too deeply |
| JsonReference.ValueIsConsumed | src/jsoncpp/src/lib_json/json_reader.cpp:160-551 | what a recursive descent over the RFC's grammar accepts is such a text of the value it returns |
| JsonReference.EveryTextParses | src/jsoncpp/src/lib_json/json_reader.cpp:118-158 | every RFC 8259 text parses without error to the value it denotes, the last of equal names counting, or throws exactly above depth 1000 |
| JsonText.NormalKeepsMembers | src/jsoncpp/src/lib_json/json_value.cpp:927-938 | the normal form of an array has every slot, missing ones null, and that of an object the same names |
| JsonLayout.NumberMoves | src/jsoncpp/src/lib_json/json_reader.cpp:425-445 | the text of a double that is a number alone is one inside a document, unless something goes on with it |
| JsonLayout.LayoutParses | src/jsoncpp/src/lib_json/json_reader.cpp:118-158 | a document that is any layout of what is written, doubles included that the C++ library gives back, parses without error to the normal form, or throws exactly above depth 1000 |
| JsonLayout.LayoutIndependence | src/jsoncpp/src/lib_json/json_writer.cpp:324-560 | two layouts of one value parse to the same content |
| JsonFaithful.RoundTripIff | src/jsoncpp/src/lib_json/json_writer.cpp:324-384 | for values of depth at most 1000 whose doubles the C++ library gives back, parsing what the fast writer wrote gives the normal form if and only if every string has text |
| JsonFaithful.TooDeepThrows | src/jsoncpp/src/lib_json/json_reader.cpp:160-166 | parsing what was written throws if and only if the value is nested deeper than 1000 |
| JsonFaithful.MissingTextIsLost | src/jsoncpp/src/lib_json/json_writer.cpp:346-354 | a string value without text does not come back |
| JsonFaithful.StyledMeansTheSameIff | src/jsoncpp/src/lib_json/json_writer.cpp:392-560 | whatever white space stands between the styled writer's lexemes, the text parses, and to the same content as the fast writer's if and only if no member name holds a NUL |
| JsonFaithful.NulNameIsLost | src/jsoncpp/src/lib_json/json_writer.cpp:444-445 | an object with the member name NUL does not come back from its styled text |
| JsonStable.ReadIsFine | src/jsoncpp/src/lib_json/json_reader.cpp:160-242 | whatever the document, a value read successfully stays within the depth limit, has every array slot, and stores integers the reader's way |
| JsonStable.ParsedIsStable | src/jsoncpp/src/lib_json/json_writer.cpp:324-384 | whatever the document, a parsed value without NaN whose doubles the C++ library gives back is written to a text that parses without error to a value equal to it |
| JsonOffsets.CutRead | src/jsoncpp/src/lib_json/json_reader.cpp:160-242 | a successful reading depends on nothing outside the part it read: that part alone reads the same |
| JsonOffsets.ParsedOffsetsAreFaithful | src/jsoncpp/src/lib_json/json_reader.cpp:160-242 | after a successful parse, ranges of members lie inside their container's and apart from one another, and the text of every value's range, which begins and ends with the value itself, parses alone to an equal value |
| JsonFastWriter.FastWriter.WriteValue | src/jsoncpp/src/lib_json/json_writer.cpp:332-384 | appends exactly the value's lexemes |
| JsonFastWriter.FastWriter.Write | src/jsoncpp/src/lib_json/json_writer.cpp:324-330 | the text is the lexemes without space, and a line feed |
| JsonFastWriter.GetMemberNames | src/jsoncpp/src/lib_json/json_writer.cpp:367-382 | all names, byte by byte in increasing order |
| JsonFastWriter.WrittenInOrder | src/jsoncpp/src/lib_json/json_writer.cpp:367-382 | of any two member names the one that precedes byte by byte is written first |
| JsonPretty.PrettyIsLayout | src/jsoncpp/src/lib_json/json_writer.cpp:403-460 | the styled text, wherever it is indented to, has exactly the lexemes of what the value says and only white space between them |
| JsonPretty.StyledTextMeansTheSameIff | src/jsoncpp/src/lib_json/json_writer.cpp:392-560 | the styled text of a value always parses, and to the same content as the fast writer's if and only if no member name holds a NUL |
| JsonPretty.ClosesOnItsLineIff | src/jsoncpp/src/lib_json/json_writer.cpp:539-548 | a closing bracket stands on a line of its own at its container's indentation if and only if the last child's text ends with a visible character, as all but missing texts and some doubles do |
| JsonPretty.OneLineIffItFits | src/jsoncpp/src/lib_json/json_writer.cpp:505-530 | where every element has a text, an array goes on one line if and only if no element needs lines and the line is within the margin; the early exit on its size changes nothing |
| JsonStyledWriter.StyledWriter.WriteValue | src/jsoncpp/src/lib_json/json_writer.cpp:403-460 | adds exactly the value's styled text to the document, or to the buffer while that is being filled, and restores the indentation |
| JsonStyledWriter.StyledWriter.WriteMembers | src/jsoncpp/src/lib_json/json_writer.cpp:436-458 | an object is written a member a line, although each line break depends on the document's last character |
| JsonStyledWriter.StyledWriter.WriteArrayValue | src/jsoncpp/src/lib_json/json_writer.cpp:462-503 | the array's styled text, however nested arrays refill the shared buffer |
| JsonStyledWriter.StyledWriter.IsMultilineArray | src/jsoncpp/src/lib_json/json_writer.cpp:505-530 | decides exactly when an array needs more than one line, leaves the document alone, and the buffer empty or with exactly the elements' texts, which it has whenever one line is chosen |
| JsonStyledWriter.StyledWriter.WriteLines | src/jsoncpp/src/lib_json/json_writer.cpp:468-490 | a line for each element, from the buffer or written afresh |
| JsonStyledWriter.StyledWriter.WriteLine | src/jsoncpp/src/lib_json/json_writer.cpp:491-502 | the asserted buffer size holds and one line has the whole array |
| JsonStyledWriter.StyledWriter.PushValue | src/jsoncpp/src/lib_json/json_writer.cpp:532-537 | adds a text to the buffer or to the document, never to both |
| JsonStyledWriter.StyledWriter.WriteIndent | src/jsoncpp/src/lib_json/json_writer.cpp:539-548 | breaks the line unless the document ends with a space, and indents |
| JsonStyledWriter.StyledWriter.Write | src/jsoncpp/src/lib_json/json_writer.cpp:392-401 | the text is the value's styled text and a line feed |

## Left out

- LLVM itself: modules, debug metadata, globals, pointers in registers, division, remainder and shifts; a program is blocks with a line each, and `lineToBlock` is filled elsewhere.
- The solver: which texts it returns for which constraint lists is a parameter, and translating a tree into a solver expression is the tree's meaning.
- LLVM's `add` wraps around where a concrete run of this model goes wrong; simulation is stated for runs that do not overflow, as the solver reads trees over unbounded integers.
- External calls: running user models of functions (`executeModel`, `getModel`) waits for the user inside the loop; reading the model's expression is in `PrefixModel`.
- Arguments and results that are literals or void have no tree in the map; the source stores a null pointer for them, the model no binding. Simulation asks for registers there.
- Messages to the browser are reduced to the list of newly executed ids, and the solver's answers are not kept as example inputs; sockets, threads, displayed text and highlighting are not part of this model.
- Comments are skipped like the reader skips them, but not collected and not written.
- Texts of doubles: how the C++ library prints and parses them is a parameter; theorems on written texts ask that each double in the value be printed as a number that is read back as it.
- The writers' options (YAML compatibility, dropped null placeholders, no ending line feed) are at their defaults, the reader's are `Features::all()`.
- `OurReader`, stream writers, `Path`, builder settings, and the sizes of `int` loop counters in the writers.
- Simulation.Simulation: excludes comparisons with `>=`, for which the source emits no operator.
- LoopBound.ExplorationTerminates: asks that loops jump back unconditionally to a header that branches out forward, as compilers lay out `while` and `for`; for all other programs there is only the exact condition of `Termination.EndsIffBounded`.
- Executor.SymbolicExecutor.BranchSides: a condition register without a tree reads as a leaf, where the source dereferences a null pointer (`src/symbolicexecutor.cpp:209`); LLVM defines every register before its use.
- ProgramStates.ProgramState.Copy: a value bound to nothing is simply not copied, where the source has stored a null pointer and dereferences it (`src/ProgramState.cpp:33`).
- JsonReader.Reader.ReadValue: the stack holds values and a child is stored in its container when it is popped, where the source keeps pointers into the containers; the pointers a depth exception leaves on the source's stack, which the next parse drops, are not there.
- Raw memory: buffers of strings, ownership and duplication policies of keys.
