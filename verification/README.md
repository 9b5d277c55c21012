# Verified middle end of DeSCAM

DeSCAM compiles the thread of a SystemC module into operational properties: for every path between two important states
a list of assumptions about the values at its start and a list of commitments about the values at its end. This project
models the middle and back end of that compiler and three of the example designs, and proves what they are for.

One expression and statement language with 32-bit wrap-around meaning (`Ir`, `Statements`) is shared by the stages:

| files | stage |
|---|---|
| `SymbolicExecution`, `Reconstruct` | rewriting a path over the values at its start |
| `NestedCode`, `Paths`, `FindPathsToReturn` | guarded straight-line paths of nested code |
| `BlockGraph`, `MergePoints`, `Flatten`, `Trails` | block graph back to nested code, and which paths there are |
| `FunctionFactory` | the return table of a function, from its block graph |
| `Lowering` | block graph to numbered node graph |
| `Colouring`, `FindOperations`, `SlavesOrder` | colouring of important states, legality of communication order |
| `Operations`, `CreateOperations` | statement lists of operations, with wait and not-sync variants |
| `OperationMeaning` | what an operation means for the process that runs along its path |
| `SlaveExpansion`, `SlaveMeaning`, `CreateOperationsSlave` | expansion over the outcomes of slave reads |
| `Determinism`, `Completeness`, `SlaveCompleteness` | at most one and exactly one operation at a time, from the process graph on |
| `ExprEquality`, `NodeTable`, `SimplifyRules`, `SimplifyOutcome`, `Simplify` | node equality, hash-consing, simplification |
| `UartBits`, `UartTx`, `UartRx`, `UartStream`, `UartFrames` | UART transmitter and receiver, as a stream of bytes and as frames of bits |
| `Blocking`, `Fifo` | blocking channel, ring-buffer FIFO |

Code that changes fields step by step is a class or a method with its loops. It is proved against a function of the old
state, and the properties are lemmas about these functions. Ghost parameters such as `rank` (block ranks that fall along
every edge, which a finite graph has exactly when it is acyclic) and `meet` (the block where the arms of a branch meet)
carry what the graphs are required to be.

## Readings and findings

- Processes on the blocking channel run as section 4.2.1 of IEEE 1666-2011 describes: one at a time, up to their next wait,
  in any order; an immediate notification makes exactly the processes that wait for the event runnable.
- Integer overflow in constant folds, and a left shift of a negative constant, are taken to wrap around. Division and
  remainder by zero, the smallest integer divided by -1, and shifts by a negative amount or by 32 and more have no
  defined C++ value: `ArithRule` and `BitRule` answer `UndefinedFold`. In `Eval` such operations have the value that the
  SMT-LIB theory of bit vectors gives.
- "not" on a number is the C++ `!` in one reading and the complement, as the property printers write it, in the other
  (`WordNot`). Simplification keeps values under the second reading, and under both when "not" is applied to conditions
  only. For the first reading `DoubleNotExact` and `DeMorganExact` say exactly when the two rules are right, and
  `NotOnNumbers` gives numbers for which they are wrong.
- The equality the node table searches by is not structural: operands of commuting operators may be exchanged, and -a-b
  equals -b-a. The table therefore keeps one node per class of equal expressions. `StructuralExactly` says for which
  expressions this is the same as one node per structure, and `SharedUnlike` is the smallest example where it is not.
- The comment in the simplifier supposes that its repeat loop is not needed; `LoopNeeded` is an expression that needs it.
- The simplifier throws on constants it has no rule for, such as (-5) * 3 and (-5) - 3 (`NegatedConstant`), also when their
  value is defined. `Form` computes, from the constant parts of an expression alone, what it becomes or which exception
  comes; simplifying agrees with it in every case without ternaries, whatever the node table holds. `ArithThrows` and
  `BitThrows` say it for one visit, and `Plain` is a condition on sight under which nothing throws.
- A branch node with one successor gets its condition from whatever branch came before it, also in an earlier path
  (`OneSuccessorIf`); `StartFlagExact` says when this matters. `StatementsMean` therefore asks for two successors with the
  true one numbered next, which `PolarityKept` proves of lowered block graphs.
- The states of a raw path are the communications of blocking interfaces and masters, and waits; masters are never
  non-blocking there (`src/modelFactory/FindDataFlow.cpp:325-340` marks them so). `StartsInState` says this of a path.
- Breaking a spurious path may pick the path's own start, which is a state already. Then nothing is coloured, the loop ends,
  and operations of later states are missing. `StuckExact` gives the exact condition, `EndsShort` says that a search ends
  short in no other way, and `StuckRun` is such a run from the states the tool starts with.
- `slave_read` uses up what it takes, while an operation sees what the ports offer at its start. The two agree on every path
  that reads each slave-in port once (`UsedUp`), which the order check of slave modules asks of every path but the reset one
  (`OrderedReadsOnce`), and a slave port has no `peek` (`src/modelFactory/FindDataFlow.cpp:247-252`). `TwiceReads` is a path
  on which they differ.
- In a slave module a spurious path always throws, as does every kept operation out of slave order (`PassThrows`).
- The path-node search prunes blocks visited before, so in nested diamonds it records fewer blocks than its comment says.
  `DfsPrunes` is an example; `DfsCovers` and `NothingCut` prove that the flattener needs none of the others.
- The statements of the entry block of a function are dropped by the flattener: the entry block has to be empty, as it is
  when it comes from the front end. `FunctionBody` asks for it; `EntryDropped` is a body without it.
- A signal that a read brings in is an input of the operation and need not be committed: `DependenceCommitted` names it as the
  one variable an operation may depend on without a commitment, beside constants.
- The receiver reports a wrong parity bit twice, and a break takes the place of a framing error when there is one stop bit, but
  comes after it when there are two (`FrameExact`).
- A function whose body flattens to branches with nothing in either arm has no path at all, and gets an empty table instead of
  an exception; any other body without a return throws (`FunctionFactory.Build`).

## Model

| member | source | states |
|---|---|---|
| SymbolicExecution.SymbolicExecutionExact | src/operationFactory/ReconstructOperations.cpp:57-77 | for every statement list and start values: the assumptions hold exactly when running takes the whole list, and then each bound variable's expression, read at the start, gives its value at the end; the returned expression likewise |
| SymbolicExecution.RunExact | src/operationFactory/ReconstructOperations.cpp:63-66 | from any symbolic state that agrees with the values reached so far, the rest of the list keeps the agreement, and its added assumptions hold exactly when the rest is taken |
| SymbolicExecution.StepAgree | src/operationFactory/ReconstructOperations.cpp:180-276 | every single statement keeps symbolic and concrete state in agreement, while waiting too |
| SymbolicExecution.SubstExact | src/operationFactory/ReconstructOperations.cpp:128-242 | an expression rewritten over the start values has, at the start, the value the original has now, in 32 bits, minus read as a product with -1 included |
| SymbolicExecution.SubstTyped | src/operationFactory/ReconstructOperations.cpp:228-242 | rewriting keeps expressions well typed and keeps their type |
| SymbolicExecution.TimesMinusOne | src/operationFactory/ReconstructOperations.cpp:236-239 | the product with -1 is the negation of every 32-bit word, signed or not |
| SymbolicExecution.BinaryExact | src/operationFactory/ReconstructOperations.cpp:369-426 | a binary expression keeps its value when its operands do |
| SymbolicExecution.BindAgree | src/operationFactory/ReconstructOperations.cpp:221-225 | binding a variable to an expression agrees with assigning it that expression's value |
| SymbolicExecution.BindFirstAgree | src/operationFactory/ReconstructOperations.cpp:256-267 | binding fields one after the other agrees with assigning them one after the other, repeated targets included |
| SymbolicExecution.BindCopyAgree | src/operationFactory/ReconstructOperations.cpp:199-202 | a member-by-member copy of a compound agrees with the copy of its values, also onto itself |
| SymbolicExecution.BindStatusAgree | src/operationFactory/ReconstructOperations.cpp:270-275 | the status of a non-blocking access is the sync signal's value at the start |
| SymbolicExecution.ReadAgree | src/operationFactory/ReconstructOperations.cpp:253-276 | a read gives every field of its target the port's signal at the start |
| SymbolicExecution.WriteAgree | src/operationFactory/ReconstructOperations.cpp:278-356 | a write gives the port's signal the written values, and none while the operation waits |
| SymbolicExecution.ConstantsAgree | src/operationFactory/ReconstructOperations.cpp:195-198 | a compound constant gives each field its constant |
| SymbolicExecution.CompoundAgree | src/operationFactory/ReconstructOperations.cpp:191-205 | compound assignment agrees in each supported form |
| SymbolicExecution.SymRunOk | src/operationFactory/ReconstructOperations.cpp:191-205 | symbolic execution of a path, waiting or not, succeeds exactly when it assigns compounds in the supported ways only and returns at most once |
| Reconstruct.ReconstructOperations.FindOrAddVariable | src/operationFactory/ReconstructOperations.cpp:112-120 | the entry found or added, and which table entries result |
| Reconstruct.ReconstructOperations.VisitExpr | src/operationFactory/ReconstructOperations.cpp:128-242 | newExpr becomes the expression over the start values, and exactly the variables it reads get entries |
| Reconstruct.ReconstructOperations.VisitTernary | src/operationFactory/ReconstructOperations.cpp:585-594 | newExpr becomes the ternary over the start values of its three parts, whose variables get entries |
| Reconstruct.ReconstructOperations.VisitAssignCompound | src/operationFactory/ReconstructOperations.cpp:191-205 | fields of a compound target as the symbolic step says, and the exception exactly for unsupported sources |
| Reconstruct.ReconstructOperations.SetStatusFlag | src/operationFactory/ReconstructOperations.cpp:270-275 | the status variable is bound to the sync signal only for a non-blocking access with status |
| Reconstruct.ReconstructOperations.VisitWrite | src/operationFactory/ReconstructOperations.cpp:278-356 | port signals as the symbolic step says, with the early exit of a waiting operation |
| Reconstruct.ReconstructOperations.Visit | src/operationFactory/ReconstructOperations.cpp:180-276 | one statement changes the tables, the assumptions and the return value as the symbolic step, and throws exactly when it does |
| Reconstruct.ReconstructOperations.VisitAll | src/operationFactory/ReconstructOperations.cpp:63-65 | the loop over a list computes the symbolic run of the list |
| Reconstruct.ReconstructOperations.SortOperation | src/operationFactory/ReconstructOperations.cpp:57-77 | assumptions and commitments of an operation; a variable is committed exactly when a statement reads or assigns it, or when it was seen before and is no port signal; the exception comes exactly for an unsupported compound assignment or a second return |
| Reconstruct.OperationExact | src/operationFactory/ReconstructOperations.cpp:57-77 | the operation's assumptions hold at the start exactly when the run is taken, and every commitment then gives the final value |
| Reconstruct.StepKeys | src/operationFactory/ReconstructOperations.cpp:180-356 | one statement makes exactly the variables known that it reads or assigns, said without the symbolic step |
| Reconstruct.CommitmentsExact | src/operationFactory/ReconstructOperations.cpp:65-76 | the domain of the commitments: the variables the statements read or assign, and those seen before that are no port signals |
| Reconstruct.DependenceCommitted | src/operationFactory/ReconstructOperations.cpp:65-76 | no dependence is missed: if two starts differ in one variable alone and the operation then is taken in only one of them or leaves another variable or the return value different, the variable is committed, or is a constant or a signal that a read brings in |
| Reconstruct.SubstTouch | src/operationFactory/ReconstructOperations.cpp:112-120 | identity entries added on the way never change what an expression becomes |
| Paths.EnumerationExact | src/functionFactory/FindPathsToReturn.cpp:96-183 | for every nested statement list and start: exactly one enumerated path has its guards met, it ends as the nested code does, and no path at all stands for the one empty path |
| Paths.ExtendSelects | src/functionFactory/FindPathsToReturn.cpp:96-162 | one more statement or if-then-else keeps that exactly one path is taken and moves its end accordingly |
| Paths.ExtendAllSelects | src/functionFactory/FindPathsToReturn.cpp:11-16 | a whole list after the paths found so far keeps that exactly one path is taken, ending as the list run after the selected path |
| Paths.CrossSelects | src/functionFactory/FindPathsToReturn.cpp:118-154 | crossing old paths with arm paths selects the pair of the selected ones |
| Paths.ArmsSelect | src/functionFactory/FindPathsToReturn.cpp:119-153 | of the paths of both arms under opposite guards exactly one is taken |
| Paths.GuardSelects | src/functionFactory/FindPathsToReturn.cpp:128-136 | paths under a guard are selected as before when it holds and not at all otherwise |
| Paths.AppendSelects | src/functionFactory/FindPathsToReturn.cpp:176-183 | a statement added to every path runs at the end of the selected one |
| Paths.CountOne | src/functionFactory/FindPathsToReturn.cpp:118-154 | a count of one gives the one index whose path is taken, and no other |
| Trails.PathsExact | src/functionFactory/FindPathsToReturn.cpp:96-183 | the enumerated paths are the ways through the nested code, guards and order of statements included: all of them and no others |
| FindPathsToReturn.PathVisitor.VisitAll | src/functionFactory/FindPathsToReturn.cpp:11-16 | pathList becomes the paths of the code after the paths there were |
| FindPathsToReturn.PathVisitor.AppendStmtToPaths | src/functionFactory/FindPathsToReturn.cpp:176-183 | every path gets the statement, an empty list first gets the empty path |
| FindPathsToReturn.PathVisitor.VisitITE | src/functionFactory/FindPathsToReturn.cpp:96-162 | pathList is replaced by the crossing with both arms; an empty if-then-else changes nothing |
| FindPathsToReturn.CrossWithArms | src/functionFactory/FindPathsToReturn.cpp:118-154 | the nested loops give each old path followed by each guarded arm path, in that order |
| FindPathsToReturn.GuardCache.FindOrAddTrue | src/functionFactory/FindPathsToReturn.cpp:192-199 | the cached guard of a condition is that condition |
| FindPathsToReturn.GuardCache.FindOrAddFalse | src/functionFactory/FindPathsToReturn.cpp:202-209 | the cached guard of the other arm is its negation |
| MergePoints.FindEndNode.Recursion | src/cfgFactory/FindEndNode.cpp:52-67 | follows first successors, and ends at the first block seen before, or at the terminal |
| MergePoints.FindEndNode.Search | src/cfgFactory/FindEndNode.cpp:25-50 | for a branch whose arms are disjoint up to a meeting block, endNode is that block |
| MergePoints.FirstHitIsMeet | src/cfgFactory/FindEndNode.cpp:44-56 | the first block of the false arm's leftmost walk that lies on the true arm's is the meeting block |
| MergePoints.EnumeratePaths.Core | src/cfgFactory/EnumartePathsVisitor.cpp:16-37 | visited and collected blocks after the depth-first search with pruning |
| MergePoints.DfsFinds | src/cfgFactory/EnumartePathsVisitor.cpp:16-37 | despite pruning the search collects every block of the leftmost walk to the end block |
| MergePoints.DfsCovers | src/cfgFactory/EnumartePathsVisitor.cpp:10-37 | the blocks recorded for a branch include all the flattener visits in either arm |
| MergePoints.DfsPrunes | src/cfgFactory/EnumartePathsVisitor.cpp:16-37 | a concrete nested diamond in which a block between a branch and its end is not recorded |
| MergePoints.GetStartEndMap | src/cfgFactory/CfgUtilities.cpp:13-28 | every branch, and nothing else, is mapped to its meeting block |
| MergePoints.GetPathNodes | src/cfgFactory/CfgUtilities.cpp:35-42 | for every branch enough path nodes are recorded for the flattener |
| Flatten.FlattenIf.Build | src/cfgFactory/FlattenIf.cpp:8-30 | the if-then-else built for a branch, arm by arm |
| Flatten.FlattenIf.Core | src/cfgFactory/FlattenIf.cpp:33-65 | the walk appends to the current arm the code of the segment up to the meeting block |
| Flatten.FlattenWhile.Core | src/cfgFactory/FlattenWhile.cpp:19-46 | the top-level walk appends the code of the segment up to the terminal |
| Flatten.SegmentExact | src/cfgFactory/FlattenIf.cpp:33-65 | running the code of a segment equals walking the graph from its start to its end |
| Flatten.NothingCut | src/cfgFactory/FlattenIf.cpp:33-65 | with the recorded blocks the flattener meets no block that is not recorded: the code is the one no table cuts off |
| Flatten.BranchExact | src/cfgFactory/FlattenIf.cpp:8-30 | the if-then-else of a branch does what walking from the branch to its meeting block does |
| Flatten.DecompileExact | src/cfgFactory/FlattenWhile.cpp:8-46 | decompiling preserves meaning: the flattened list run from any state ends as the walk to the terminal block |
| Trails.WalksCut | src/cfgFactory/FlattenIf.cpp:33-65 | the walks to a block that first reach a meeting block are those to it, each followed by those from it |
| Trails.SegmentWays | src/cfgFactory/FlattenIf.cpp:33-65 | what is done along the ways through the code of a segment is what is done along the walks of the graph, feasible or not |
| Trails.DecompiledWays | src/cfgFactory/FlattenWhile.cpp:8-46 | the decompiled body does along its ways exactly what the graph does along its walks to the terminal block |
| Flatten.EntryDropped | src/cfgFactory/FlattenWhile.cpp:8-16 | of a function that returns in its entry block nothing is flattened: a concrete graph |
| FunctionFactory.AddTerminalNode | src/cfgFactory/CfgUtilities.cpp:49-62 | every block without successors leads to the new block -1, all else is unchanged |
| FunctionFactory.TerminalAdded | src/cfgFactory/CfgUtilities.cpp:49-62 | the extended graph of an acyclic function body is closed and acyclic, ranked one above the terminal |
| FunctionFactory.CallIsWalk | src/cfgFactory/CfgUtilities.cpp:49-62 | with every path returning, a call of the function gives what the walk to the terminal returns |
| FunctionFactory.Decompile | src/functionFactory/FunctionFactory.cpp:13-25 | flattening the extended graph gives code that runs as the graph is walked, and whose ways do what the walks of the body do, all of them and no others |
| FunctionFactory.EntryOfOk | src/functionFactory/FunctionFactory.cpp:35-42 | a path has a table entry exactly when it returns once and is executable |
| FunctionFactory.EntryExact | src/functionFactory/FunctionFactory.cpp:35-36 | the conditions of an entry hold for the arguments exactly when its path is taken, and its value is what the path returns |
| FunctionFactory.ReconstructPath | src/functionFactory/FunctionFactory.cpp:35-36 | return value and conditions of a path, or its exception |
| FunctionFactory.BuildTable | src/functionFactory/FunctionFactory.cpp:32-45 | one entry per path in order, or the exception of the first path that has none |
| FunctionFactory.TableExact | src/functionFactory/FunctionFactory.cpp:34-45 | exactly one entry applies to the arguments, and it gives what the nested code returns |
| FunctionFactory.BodyWalksExact | src/cfgFactory/CfgUtilities.cpp:49-62 | the walks of the extended graph to the terminal block do what the walks of the body do |
| FunctionFactory.WalksDecide | src/functionFactory/FunctionFactory.cpp:32-45 | every walk returns once and is executable exactly when every enumerated path is |
| FunctionFactory.Build | src/functionFactory/FunctionFactory.cpp:13-46 | for every structured body with a statement to enumerate: the table exists exactly when every walk of the block graph returns once and assigns compounds in the supported ways only, and then for all arguments one entry and no other applies and gives what the function returns; without any statement the table is empty |
| OperationMeaning.StatementsMean | src/operationFactory/CreateOperations.cpp:133-182 | run from any values, the conditions of the statements of an operation are all met exactly when the process, run node by node, finds its partner as the operation wants and follows the path; the statements then end as the process does |
| OperationMeaning.RawPathExact | src/operationFactory/ReconstructOperations.cpp:57-77 | from the path to the property: the assumptions hold for the values at the start exactly when the process then takes the operation, and every commitment then gives the value at its end, also of what is left out |
| OperationMeaning.UpToMeans | src/operationFactory/CreateOperations.cpp:148-163 | the same for the first nodes of a path |
| OperationMeaning.WaitMeans | src/operationFactory/CreateOperations.cpp:139-147 | a wait operation is taken exactly when the partner is absent, and changes nothing |
| OperationMeaning.TryReadTakes | src/operationFactory/CreateOperations.cpp:184-210 | a read that may fail and a branch on its success: with the partner there the process takes the explicit operation of the path, and never the not-sync one |
| Operations.DivergingExclude | src/operationFactory/CreateOperations.cpp:148-182 | operations of paths that part at a branch are never enabled together, whatever the flag was before each |
| Operations.FirstPart | src/operationFactory/CreateOperations.cpp:150-163 | where two statement lists of parting paths first differ they hold opposite conditions of one branch |
| Operations.SyncExcludes | src/operationFactory/CreateOperations.cpp:184-241 | an operation that needs the partner excludes the not-sync and wait operations of that state |
| OperationMeaning.FirstMeans | src/operationFactory/CreateOperations.cpp:184-228 | the first communication is taken exactly when its partner is as the kind of operation wants; a read then takes the data and notes the success, without the partner only the failure is noted, what a write offers is on the port already, and a wait changes nothing |
| OperationMeaning.NodeMeans | src/operationFactory/CreateOperations.cpp:150-182 | what a node adds is taken exactly when control goes on along the path, and then does what the node does; the read of the state at the end is left to the next operation |
| Operations.AcceptedExact | src/operationFactory/CreateOperations.cpp:344-346 | the visitors throw on a return and on nothing else, and in a slave module also on a communication at either end of the path |
| Operations.EnabledTaken | src/operationFactory/ReconstructOperations.cpp:57-66 | an operation whose assumptions hold is run to its end |
| Operations.OneSuccessorIf | src/operationFactory/CreateOperations.cpp:152-158 | a branch with one successor takes the flag left from before: a concrete path gives either condition |
| Operations.StartFlagExact | src/operationFactory/CreateOperations.cpp:152-158 | the flag left from before changes the statements exactly when an If comes before the first branching node of the path |
| Operations.BuiltAt | src/operationFactory/CreateOperations.cpp:148-170 | the operation at a place of the list is built with the flag that the operations before it left |
| Operations.BuiltDeterministic | src/operationFactory/CreateOperations.cpp:26-72 | operations built from plans that exclude each other are never enabled together in one state, with the flags they are really built with |
| CreateOperations.OperationsDeterministic | src/operationFactory/CreateOperations.cpp:26-72 | any two different operations of one state, explicit, not-sync or wait, are never enabled together when the paths part at branches, which Determinism.RoutesPart derives |
| CreateOperations.SameModeExclusive | src/operationFactory/CreateOperations.cpp:148-163 | two operations of the same kind from parting paths exclude each other |
| CreateOperations.ExplicitImplicitExclusive | src/operationFactory/CreateOperations.cpp:36-71 | an explicit operation excludes the implicit ones of its state |
| CreateOperations.Builder.VisitSync | src/operationFactory/CreateOperations.cpp:230-241 | the sync guard, negated for wait and not-sync operations |
| CreateOperations.Builder.VisitRead | src/operationFactory/CreateOperations.cpp:184-210 | what a read adds in first, middle and last position for every kind of operation |
| CreateOperations.Builder.VisitWrite | src/operationFactory/CreateOperations.cpp:212-228 | what a write adds in each position for every kind of operation |
| CreateOperations.Builder.VisitNode | src/operationFactory/CreateOperations.cpp:150-162 | condition flag and statements after one node of the path |
| CreateOperations.Builder.AddWaitStatement | src/operationFactory/CreateOperations.cpp:139-147 | a wait operation has the statements of its first node only |
| CreateOperations.Builder.AddStatementsList | src/operationFactory/CreateOperations.cpp:133-170 | the whole statement list of a path, and an exception exactly when a node of it holds a return |
| CreateOperations.Builder.AddImplicit | src/operationFactory/CreateOperations.cpp:37-71 | one wait operation per blocking start node, a not-sync operation per non-blocking path |
| CreateOperations.ListDeterministic | src/operationFactory/CreateOperations.cpp:26-72 | the list of operations of parting paths is deterministic |
| CreateOperations.Builder.Create | src/operationFactory/CreateOperations.cpp:16-72 | the list left is the explicit operations in order and then the implicit ones, each with the statements of its path under the flag the ones before it left; if the paths part, the list is deterministic; and the exception exactly when a node of a path holds a return |
| SlaveExpansion.Increment | src/operationFactory/CreateOperationsSlave.cpp:148-155 | popping finished reads and turning the next one is adding one to the counter whose bits say which branch each read takes |
| SlaveExpansion.Exhausted | src/operationFactory/CreateOperationsSlave.cpp:148-156 | the stack runs empty only at the last of the 2^k numbers |
| SlaveExpansion.CombinationNumber | src/operationFactory/CreateOperationsSlave.cpp:113-156 | every combination of outcomes is the one of some round |
| SlaveExpansion.NumberUnique | src/operationFactory/CreateOperationsSlave.cpp:113-156 | no combination comes in two rounds |
| CreateOperationsSlave.Builder.MakeNodes | src/operationFactory/CreateOperationsSlave.cpp:85-111 | the replacement nodes with their ids, and the visited marks for exactly the slave reads |
| CreateOperationsSlave.Builder.Pass | src/operationFactory/CreateOperationsSlave.cpp:115-146 | one round pushes the reads not yet on the stack in order of first use and emits the path along the current branches |
| CreateOperationsSlave.Builder.Turn | src/operationFactory/CreateOperationsSlave.cpp:148-155 | after a round the marks stand for the next number, or the stack is empty after the last |
| CreateOperationsSlave.Builder.ExtendRawOperation | src/operationFactory/CreateOperationsSlave.cpp:75-157 | the loop ends after exactly 2^k rounds for k distinct slave reads, and the m-th path takes the branches of the bits of m, the first read most significant |
| CreateOperationsSlave.Builder.ExtendAll | src/operationFactory/CreateOperationsSlave.cpp:33-43 | reset paths are kept as they are and every other path is replaced by its expansions, in order |
| CreateOperationsSlave.Builder.VisitNode | src/operationFactory/CreateOperationsSlave.cpp:191-204 | condition flag and statements after one node |
| CreateOperationsSlave.Builder.AddStatementsList | src/operationFactory/CreateOperationsSlave.cpp:185-211 | the statements of a path, and an exception exactly when a node holds a return or a communication stands at either end |
| CreateOperationsSlave.Builder.Create | src/operationFactory/CreateOperationsSlave.cpp:22-49 | one operation for every expanded or raw path, in order, with the statements of that path under the flag the ones before it left; if the raw paths part, the list is deterministic; and the exception exactly when a raw path holds a return or a communication where there may be none |
| CreateOperationsSlave.SlaveOperationsDeterministic | src/operationFactory/CreateOperationsSlave.cpp:33-49 | any two operations of one state of a module with slave inputs are never enabled together when the raw paths part |
| CreateOperationsSlave.RawExclusive | src/operationFactory/CreateOperationsSlave.cpp:22-49 | the same for the paths as they are, in a module without slave inputs |
| CreateOperationsSlave.ListDeterministic | src/operationFactory/CreateOperationsSlave.cpp:22-49 | the list of operations of a slave module is deterministic, with and without slave inputs |
| CreateOperationsSlave.ExpansionsAllowed | src/operationFactory/CreateOperationsSlave.cpp:75-157 | all expansions of a path are accepted exactly when the path has no return, no communication at its ends but for a slave read at the start |
| CreateOperationsSlave.ListAllowed | src/operationFactory/CreateOperationsSlave.cpp:22-49 | the paths operations are made of are all accepted exactly when no raw path holds a return or a communication where there may be none |
| CreateOperationsSlave.ExtendedRaw | src/operationFactory/CreateOperationsSlave.cpp:75-157 | expanded paths are well-formed paths again |
| CreateOperationsSlave.StartKept | src/operationFactory/CreateOperationsSlave.cpp:92-95 | an expansion starts in the state of its path |
| SlaveMeaning.ExpandRaw | src/operationFactory/CreateOperationsSlave.cpp:113-146 | replacing the slave reads of a path keeps it a path between states |
| SlaveMeaning.ExpandAt | src/operationFactory/CreateOperationsSlave.cpp:116-145 | every node or its replacement stands where the replacements of the nodes before it end, so order is kept |
| SlaveMeaning.IdAfter | src/operationFactory/CreateOperationsSlave.cpp:92-93 | the id that follows a node is kept, so a branch before a slave read keeps its polarity |
| SlaveMeaning.SlaveNode | src/operationFactory/CreateOperationsSlave.cpp:92-104 | the sync node's condition is positive before the read and negated before the else node |
| SlaveMeaning.BranchRun | example/Interfaces/MasterSlave.hpp:133-142 | the chosen branch is taken exactly when the port offers what it assumes, and then does what slave_read with status does, the offer at the start standing |
| SlaveMeaning.ExpansionMeaning | src/operationFactory/CreateOperationsSlave.cpp:113-146 | an expanded path is taken exactly when its branches are and each read's choice matches its port; it then ends as the reads do that see the offers at the start |
| SlaveMeaning.ExpansionComplete | src/operationFactory/CreateOperationsSlave.cpp:75-157 | for all port offers exactly one of the 2^k expansions is taken when the process takes the path, and it ends as running slave_read at each read, which uses up what it takes |
| SlaveMeaning.UsedUp | example/Interfaces/MasterSlave.hpp:133-142 | where each slave-in port is read once, reads that use up their data take the same path and end alike but for the offers of those ports |
| SlaveMeaning.StepOffering | src/operationFactory/ReconstructOperations.cpp:180-276 | a statement that does not look at a port does the same whatever the port offers |
| SlaveMeaning.TwiceReads | example/Interfaces/MasterSlave.hpp:133-142 | a concrete path with one port read twice, on which the process finds nothing the second time and the operation still sees the offer |
| SlaveCompleteness.OrderedReadsOnce | src/operationFactory/FindOperations.cpp:405-433 | a path that passes the order check reads every slave-in port once |
| SlaveCompleteness.SlaveOperationsComplete | src/operationFactory/CreateOperationsSlave.cpp:22-49 | when the process takes one of the paths from a state, exactly one operation of that state is taken, whatever the ports offer, and it ends as the process does |
| SlaveCompleteness.PlainComplete | src/operationFactory/CreateOperationsSlave.cpp:33-49 | the same for reset paths and for modules without slave inputs, whose paths are taken as they are |
| SlaveCompleteness.SlaveListComplete | src/operationFactory/CreateOperationsSlave.cpp:22-49 | with and without slave inputs, from the reset and from every state: when the process takes a path, exactly one operation of the whole list is taken, and it ends as the process does |
| SlaveCompleteness.CompleteSlaveOperations | src/operationFactory/CreateOperationsSlave.cpp:22-49 | building the operations throws exactly when a raw path holds a return or a communication as a state; otherwise the list built covers all the process does |
| SlaveMeaning.ExpansionsExclude | src/operationFactory/CreateOperationsSlave.cpp:185-223 | two expansions of one path, or expansions of parting paths, are never enabled together |
| Colouring.ToColourExact | src/operationFactory/FindOperations.cpp:342-403 | the check of an operation finds nothing exactly when strictly inside it no port comes twice and no master read follows a master write; otherwise it picks a master strictly inside |
| Colouring.FirstChoiceExact | src/operationFactory/FindOperations.cpp:365-399 | a first clash is found exactly when there is one |
| Colouring.ChoiceExact | src/operationFactory/FindOperations.cpp:369-396 | a choice is made exactly when the new master clashes with an earlier one |
| Colouring.FirstChoicePicks | src/operationFactory/FindOperations.cpp:365-399 | the node chosen, by its place: for the first master that clashes with one before it, the last write before a read, else the first use of the same port or the later one |
| Colouring.ToColourPicks | src/operationFactory/FindOperations.cpp:342-403 | the same for an operation, strictly inside it |
| Colouring.BreakAtPicks | src/operationFactory/FindOperations.cpp:231-336 | a spurious path is broken for its first clash, and at its last master when nothing clashes |
| Colouring.BreakAtExact | src/operationFactory/FindOperations.cpp:231-336 | a spurious path is broken at one of its masters, and only a path without master throws |
| Colouring.StuckExact | src/operationFactory/FindOperations.cpp:231-325 | the exact condition under which breaking picks the start of the path, which is coloured already |
| Colouring.StuckPath | src/operationFactory/FindOperations.cpp:231-325 | a concrete path of this kind: a master input, and then a loop without a state |
| FindOperations.Finding.CheckPath | src/operationFactory/FindOperations.cpp:363-400 | the node to colour on one operation, as the first clash decides |
| FindOperations.Finding.Earlier | src/operationFactory/FindOperations.cpp:370-396 | last write before a read, else first use of the same port, found by the backward and forward searches |
| FindOperations.Finding.ProcessSpurious | src/operationFactory/FindOperations.cpp:187-336 | colours the node the path is broken at unless it is coloured already |
| FindOperations.Finding.CheckForMasters | src/operationFactory/FindOperations.cpp:342-403 | colours nothing exactly when there is nothing to colour in any operation, otherwise the node to colour of the first that is not legal |
| FindOperations.Finding.CheckForSlaves | src/operationFactory/FindOperations.cpp:405-433 | throws exactly when a reset path reads a slave input or another path does not access all slave inputs and then all slave outputs once |
| FindOperations.Finding.CheckSlavePath | src/operationFactory/FindOperations.cpp:407-432 | one path of this check |
| FindOperations.Finding.Search | src/operationFactory/FindOperations.cpp:135-163 | reachable operations state by state up to the first spurious path, which throws in a slave module and is broken otherwise |
| FindOperations.Finding.Round | src/operationFactory/FindOperations.cpp:129-177 | one pass of the loop, as the search and the checks decide: an exception, a new state, or the operations |
| FindOperations.PassThrows | src/operationFactory/FindOperations.cpp:136-174 | when a pass throws: in a slave module for any spurious path and for any kept operation that is not legal, not in slave order, or reads a slave input on reset; otherwise exactly when the first spurious path has no master |
| FindOperations.PassEnds | src/operationFactory/FindOperations.cpp:126-177 | what a pass without a new state keeps; in a slave module all states were searched |
| FindOperations.EndsShort | src/operationFactory/FindOperations.cpp:136-145 | a pass that ends before the last state stopped at a spurious path whose start would be coloured |
| FindOperations.RecoloursNew | src/operationFactory/FindOperations.cpp:187-403 | a pass colours a master of the graph that is no state yet, and none in a slave module |
| FindOperations.RecoloursPicks | src/operationFactory/FindOperations.cpp:135-177 | what a pass colours: where the path of the first state with a spurious path is broken, or the node the check picks in a kept operation that is not legal |
| FindOperations.OneEnd | src/operationFactory/FindOperations.cpp:126-177 | the passes lead to one end, whatever number of them is counted |
| FindOperations.Finding.ProcessCfg | src/operationFactory/FindOperations.cpp:126-177 | the loop ends, each repeat colouring a master not coloured before, in states from which a pass throws or ends; on a normal exit every kept operation runs between states, is reachable and legal, and in a slave module in order, with all states searched; it throws exactly when the first spurious path at the last states has no master, in a slave module when there is a spurious path or a kept operation is not admitted |
| FindOperations.KeptOk | src/operationFactory/FindOperations.cpp:146-164 | kept operations are paths the search gave, from a state to a state with none between |
| FindOperations.StuckRun | src/operationFactory/FindOperations.cpp:126-177 | from the states the tool starts with, a run of three passes that ends without an exception although it stopped at a state; a legal operation of a later state is missing |
| FindOperations.FindInitialImportantStates | src/operationFactory/FindOperations.cpp:104-124 | the root, and then in order every wait and every communication that needs its partner, and no other node |
| FindOperations.InitialStatesOk | src/operationFactory/FindOperations.cpp:104-124 | these are distinct nodes of the graph |
| FindOperations.InitialsExact | src/operationFactory/FindOperations.cpp:117-123 | a node of the graph is collected exactly when it is a wait or a communication that needs its partner |
| FindOperations.KeptGiven | src/operationFactory/FindOperations.cpp:146-164 | an operation is kept exactly when the search gives it from a state before the first spurious path and some run can go on with it |
| FindOperations.FindAll | src/operationFactory/FindOperations.cpp:104-177 | from the initial states to the operations: at the end every wait and every communication that needs its partner is a state, other states are the root and masters, and no kept operation has a wait or such a communication strictly inside; the kept operations are exactly those the search gives and some run can go on with |
| SlavesOrder.SlaveOrder.CheckSlavesOrder | src/operationFactory/FindOperations.cpp:435-497 | true exactly when the accesses are a permutation of all slave-in ports followed by one of all slave-out ports |
| SlavesOrder.SlaveOrder.Access | src/operationFactory/FindOperations.cpp:449-461 | counters and status flags stay the number and the parity of the accesses |
| SlavesOrder.PassedOrdered | src/operationFactory/FindOperations.cpp:463-494 | passing counters and set flags imply that every port comes exactly once and inputs come first |
| SlavesOrder.OrderedPasses | src/operationFactory/FindOperations.cpp:463-474 | no counter test fails on an ordered sequence |
| ExprEquality.EqualTransitive | src/model/Stmts/Arithmetic.cpp:41-85 | node equality, with exchanged operands and -a-b equal to -b-a, is transitive |
| ExprEquality.EqualSymmetric | src/model/Stmts/Arithmetic.cpp:41-85 | node equality is symmetric |
| ExprEquality.EqualReflexive | src/model/Stmts/Arithmetic.cpp:41-85 | node equality is reflexive |
| ExprEquality.EqualTyped | src/model/Stmts/Bitwise.cpp:41-70 | equal nodes have one size, and are well typed together with one type |
| ExprEquality.EqualEval | src/model/Stmts/Arithmetic.cpp:55-85 | equal nodes evaluate alike in every environment |
| ExprEquality.StructuralExactly | src/model/Stmts/Arithmetic.cpp:55-85 | equality is the same structure exactly for expressions without exchangeable, different operands |
| ExprEquality.ExchangedExact | src/model/Stmts/Relational.cpp:42-73 | a request with exchanged operands is equal for sums, products, bitwise and, or and exclusive or, equality, inequality and all logical operators, and for any other operator only when the operands are equal |
| NodeTable.StmtNodeAlloc.Find | src/global/StmtNodeAlloc.cpp:336-341 | an entry equal to the request, or none is |
| NodeTable.StmtNodeAlloc.Alloc | src/global/StmtNodeAlloc.cpp:335-434 | gives a stored node equal to the request, keeps the tables without equal entries and closed under operands, and throws exactly for ternaries |
| NodeTable.StmtNodeAlloc.AllocOperands | src/global/StmtNodeAlloc.cpp:372-386 | the operands are stored first, and none of the new entries is as large as the whole |
| NodeTable.StmtNodeAlloc.Push | src/global/StmtNodeAlloc.cpp:342-346 | a new node over stored operands is equal to the request and to no other entry |
| NodeTable.StmtNodeAlloc.AllocAll | src/global/StmtNodeAlloc.cpp:257-292 | over any run of allocations two requests get the same node exactly when they are equal |
| NodeTable.OneNode | src/global/StmtNodeAlloc.cpp:335-346 | two entries are one node exactly when they are equal |
| NodeTable.TernaryExact | src/global/StmtNodeAlloc.cpp:689-690 | the requests refused are those with a ternary somewhere inside |
| NodeTable.Unmatched | src/global/StmtNodeAlloc.cpp:342-346 | storing the operands cannot store a node equal to the whole, so pushing without a second look is right |
| NodeTable.PushOk | src/global/StmtNodeAlloc.cpp:343-346 | a new entry that equals none keeps all table invariants |
| NodeTable.SharedUnlike | src/model/Stmts/Arithmetic.cpp:55-65 | structural sharing fails: x*y and y*x share one node |
| SimplifyRules.UnaryRuleRefines | src/global/SimplifyVisitor.cpp:32-64 | double negation, double not and minus zero keep type and value and make the expression smaller |
| SimplifyRules.ArithRuleRefines | src/global/SimplifyVisitor.cpp:66-221 | every arithmetic rewrite keeps type and 32-bit value and makes the expression smaller |
| SimplifyRules.AddRuleEval | src/global/SimplifyVisitor.cpp:122-163 | the sum rules for zero and minus signs keep the value |
| SimplifyRules.MulRuleEval | src/global/SimplifyVisitor.cpp:164-205 | the product rules for zero, minus one and minus signs keep the value |
| SimplifyRules.BitRuleRefines | src/global/SimplifyVisitor.cpp:223-328 | folding, shifts of and by zero and De Morgan's rule keep type and value and make the expression smaller |
| SimplifyRules.CastRuleRefines | src/global/SimplifyVisitor.cpp:339-375 | casts of literals and casts back keep type and value and make the expression smaller |
| SimplifyRules.StableExact | src/global/SimplifyVisitor.cpp:32-375 | no rule applies and no visit throws exactly when no visited part has one of the redundant shapes: a double minus or not, minus zero, a cast of a number literal of the other kind or back to the type inside, a sum with zero or a minus sign, a product with zero, minus one or two minus signs, a shift by or of zero or by a negative literal, an operator on two constants, two nots under and/or, a parameter |
| SimplifyRules.ConstExact | src/global/SimplifyVisitor.cpp:207-212 | constants are the expressions without variables, signals and ternaries inside |
| SimplifyOutcome.ArithThrows | src/global/SimplifyVisitor.cpp:78-212 | of two simplified numbers a visit throws exactly for a division by zero or of the smallest integer by -1, or for constants that are not both literals and fit no rule |
| SimplifyOutcome.BitThrows | src/global/SimplifyVisitor.cpp:234-316 | of two simplified numbers a visit throws exactly for an undefined shift of literals, a shift by a negative literal, or constants that are not both literals and fit no rule |
| SimplifyOutcome.NegatedConstant | src/global/SimplifyVisitor.cpp:207-212 | simplifying -a op b for all int literals a and b and every arithmetic operator but the sum throws, as for (-5) * 3 and (-5) - 3 |
| SimplifyOutcome.StableForm | src/global/SimplifyVisitor.cpp:12-22 | a simplified expression is its own form, and a simplified number without variables is a literal under unary operators and casts |
| SimplifyOutcome.StableEqual | src/global/SimplifyVisitor.cpp:57-63 | whatever equal node the table gives for a simplified expression, its form is the same |
| SimplifyOutcome.ArithRuleForm | src/global/SimplifyVisitor.cpp:122-205 | a rewritten sum or product, and any node equal to it, has the form of the original, so what follows does not depend on what the table holds |
| SimplifyOutcome.BitRuleForm | src/global/SimplifyVisitor.cpp:234-297 | the same for bitwise rules |
| SimplifyOutcome.PlainForm | src/global/SimplifyVisitor.cpp:12-22 | without parameters, without operators of two constants, without zero literals and shifts by constants other than non-negative literals, nothing throws |
| SimplifyRules.DoubleNotExact | src/global/SimplifyVisitor.cpp:49-55 | read as the C++ not, removing a double not on a number is right exactly for zero and one |
| SimplifyRules.DeMorganExact | src/global/SimplifyVisitor.cpp:269-281 | read as the C++ not, De Morgan's rule is right for and, and for or exactly when the operands share a bit or one is zero |
| SimplifyRules.NotOnNumbers | src/global/SimplifyVisitor.cpp:269-281 | concrete numbers for which both rules are wrong under the C++ reading |
| Simplify.SimplifyVisitor.Run | src/global/SimplifyVisitor.cpp:12-22 | the loop ends; its result has the same type and value, is smaller if it is another node, and nothing can be rewritten in it; a node in which nothing can be rewritten is returned itself; without ternaries it throws exactly when the form of the expression is an exception |
| Simplify.SimplifyVisitor.Visit | src/global/SimplifyVisitor.cpp:12-22 | a node is replaced by a smaller node of the same type and value, or left unchanged exactly when nothing can be rewritten in it; without ternaries it throws exactly when an operand does or no rule handles its simplified operands (VisitError), and otherwise keeps the form |
| Simplify.SimplifyVisitor.VisitUnary | src/global/SimplifyVisitor.cpp:32-64 | a negation or not is replaced by a smaller node of the same type and value, or left unchanged exactly when nothing can be rewritten in it; without ternaries it throws exactly when an operand does or no rule handles its simplified operands (VisitError), and otherwise keeps the form |
| Simplify.SimplifyVisitor.VisitArithmetic | src/global/SimplifyVisitor.cpp:66-221 | an arithmetic node is replaced by a smaller node of the same type and value, or left unchanged exactly when nothing can be rewritten in it; without ternaries it throws exactly when an operand does or no rule handles its simplified operands (VisitError), and otherwise keeps the form |
| Simplify.SimplifyVisitor.ArithmeticRules | src/global/SimplifyVisitor.cpp:78-220 | the node left is equal to what the rule gives, or to the node over the simplified operands; it throws exactly when the rule does or a new node with a ternary is asked of the table |
| Simplify.SimplifyVisitor.VisitSum | src/global/SimplifyVisitor.cpp:122-163 | the result of the sum rules, whether one applied, and the exception exactly for a new sum with a ternary in it |
| Simplify.SimplifyVisitor.VisitProduct | src/global/SimplifyVisitor.cpp:164-205 | the result of the product rules, whether one applied, and the exception exactly for a new product with a ternary in it |
| Simplify.SimplifyVisitor.VisitBitwise | src/global/SimplifyVisitor.cpp:223-328 | a bitwise node is replaced by a smaller node of the same type and value, or left unchanged exactly when nothing can be rewritten in it; without ternaries it throws exactly when an operand does or no rule handles its simplified operands (VisitError), and otherwise keeps the form |
| Simplify.SimplifyVisitor.BitwiseRules | src/global/SimplifyVisitor.cpp:234-327 | the node left is equal to what the rule gives, or to the node over the simplified operands; it throws exactly when the rule does or a new node with a ternary is asked of the table |
| Simplify.SimplifyVisitor.VisitCast | src/global/SimplifyVisitor.cpp:339-375 | a cast is replaced by a smaller node of the same type and value, or left unchanged exactly when nothing can be rewritten in it; without ternaries it throws exactly when an operand does or no rule handles its simplified operands (VisitError), and otherwise keeps the form |
| Simplify.SimplifyVisitor.Finish | src/global/SimplifyVisitor.cpp:57-63 | whatever node the table gives for the rewritten expression, it may stand for the visited one and is smaller |
| Simplify.SimplifyVisitor.Adopt | src/global/SimplifyVisitor.cpp:57-63 | the node left is equal to the expression asked for, and the exception comes exactly for a ternary |
| Simplify.SimplifyVisitor.SimplifyOperand | src/global/SimplifyVisitor.cpp:70-72 | the operand simplified on its own, with its own exception |
| Simplify.SimplifyNode | src/global/SimplifyVisitor.cpp:501-504 | simplification keeps type and value, leaves no redundant shape in any visited part, and gives an expression without one back unchanged; without ternaries it throws exactly when the form of the expression is an exception, a constant becomes its form, and plain expressions never throw |
| Simplify.LoopNeeded | src/global/SimplifyVisitor.cpp:14-21 | the repeat loop is needed: one expression for which a visit leaves something to rewrite |
| Lowering.CreateRealCfg.Create | src/cfgFactory/CreateRealCFG.cpp:14-81 | the node graph has exactly the nodes of the blocks, consecutively numbered, linked inside blocks and between them; node i of a block holds its statement i, and the last one its terminator |
| Lowering.CreateRealCfg.AddBlock | src/cfgFactory/CreateRealCFG.cpp:28-64 | the chain of nodes of a block, with the next ids in order, statement i at node i and the terminator last, nothing else changed |
| Lowering.CreateRealCfg.Append | src/cfgFactory/CreateRealCFG.cpp:51-54 | a node with the next id, linked from the one before it in its block |
| Lowering.CreateRealCfg.AddEdges | src/cfgFactory/CreateRealCFG.cpp:74-81 | the last node of a block gets an edge to the start of each successor, in order |
| Lowering.WalkLowered | src/cfgFactory/CreateRealCFG.cpp:14-81 | every walk over blocks is a walk over nodes with the same statements |
| Lowering.PathLowered | src/cfgFactory/CreateRealCFG.cpp:14-81 | every walk over nodes from the start of a block follows a walk over blocks, with the same statements as far as it goes |
| Lowering.PlaceNode | src/cfgFactory/CreateRealCFG.cpp:28-81 | the node of a place in a block holds the statement there, and control goes from it to the node of the next place: the next statement, or the first of the successor the terminator picks |
| Lowering.BlocksLowered | src/cfgFactory/CreateRealCFG.cpp:14-81 | run from the first node of a block the node graph does what the blocks do, statement by statement and block by block, and is at the first node of the block control is in then |
| Lowering.NextIdExact | src/cfgFactory/CreateRealCFG.cpp:50-69 | the start of a block has the id after the last of another exactly when it is the next block |
| Lowering.IdsApart | src/cfgFactory/CreateRealCFG.cpp:38-63 | no two nodes share an id |
| Lowering.SuccExact | src/cfgFactory/CreateRealCFG.cpp:74-81 | the successors of a block's last node are the first nodes of its successors and no others |
| Lowering.PolarityKept | src/operationFactory/CreateOperations.cpp:152-157 | with the true successor next and the false one elsewhere, the next-id test is true on the true edge only |
| Determinism.PathsDiverge | src/operationFactory/CreateOperations.cpp:152-157 | of two linked paths from one node of which none continues the other, a branch exists that one leaves for the next number and the other does not |
| Determinism.NodeFacts | src/cfgFactory/CreateRealCFG.cpp:14-81 | every node of a lowered structured graph is well typed and branches to the next number when its condition is met |
| Determinism.RouteOnGraph | src/operationFactory/CreateOperations.cpp:133-163 | a path between states of a lowered structured graph is one that operations are made of |
| Determinism.RoutesPart | src/operationFactory/CreateOperations.cpp:26-72 | different paths between states of a lowered structured graph part pairwise at branches |
| Determinism.GraphDeterministic | src/operationFactory/CreateOperations.cpp:26-72 | for every structured process graph and its paths between states the list of operations has at most one enabled operation in each state |
| Determinism.SlaveGraphDeterministic | src/operationFactory/CreateOperationsSlave.cpp:22-49 | the same for a slave module, with and without slave inputs |
| Completeness.OperationsComplete | src/operationFactory/CreateOperations.cpp:16-72 | for every structured process graph with its paths between states that cover the waits and blocking communications, every state and all values and partners there: if the process waits or reaches a state again, the conditions of exactly one operation of that state are met, and its statements end as the process does |
| Completeness.MovesLowered | src/cfgFactory/CreateRealCFG.cpp:14-81 | the node graph moves as the blocks do, with the partners it meets |
| Completeness.BlocksComplete | src/operationFactory/CreateOperations.cpp:16-72 | completeness down to the blocks: from the place of a state, run statement by statement and block by block, exactly one operation is taken, and it ends as the process does |
| Completeness.ListComplete | src/operationFactory/CreateOperations.cpp:16-72 | the whole list of operations covers the process so from the place of every state |
| Completeness.CompleteOperations | src/operationFactory/CreateOperations.cpp:16-72 | building the operations of a process throws exactly when a node on its paths holds a return; otherwise the list built covers the process |
| Completeness.OneTaken | src/operationFactory/CreateOperations.cpp:26-72 | the process takes one planned operation of the state and no other, and it is the one of the path it walks |
| Completeness.OnlyWalked | src/operationFactory/CreateOperations.cpp:148-163 | a path between states that control follows is the one the process walks until it is in a state again |
| Completeness.FollowsMoves | src/operationFactory/CreateOperations.cpp:148-163 | running the nodes of a path that control follows is what the process does step by step |
| Completeness.OnePlan | src/operationFactory/CreateOperations.cpp:37-71 | plans of one kind over one path, and wait operations of one state, are one plan |
| Completeness.GraphIsOk | src/cfgFactory/CreateRealCFG.cpp:14-81 | no edge of a lowered graph leads out of it |
| UartBits.UpdateBit | example/UART_NORDIC/Uart_rx.h:250-260 | updating a bit sets it and leaves the other bits of the frame |
| UartBits.SameByte | example/UART_NORDIC/Uart_types.h:36-39 | eight equal bits make equal low bytes |
| UartBits.SameParity | example/UART_NORDIC/Uart_types.h:56-56 | the parity macro depends on the low byte only |
| UartTx.Transmitter.Iterate | example/UART_NORDIC/Uart_tx.h:51-147 | one round of the process: new section, counter and setting, the bits on the line, the word accepted, the ready event |
| UartRx.Receiver.Iterate | example/UART_NORDIC/Uart_rx.h:57-222 | one round of the process: new state, the word handed over, the events written |
| UartRx.Receiver.ReceiveBit | example/UART_NORDIC/Uart_rx.h:68-198 | the part of a round that depends on the section, with each error case |
| UartRx.Receiver.ReceiveEnd | example/UART_NORDIC/Uart_rx.h:140-198 | parity and stop bits, with the parity, framing and break errors |
| UartStream.Pause | example/UART_NORDIC/Uart_rx.h:61-198 | a round without a bit loses nothing and reports no error |
| UartStream.Silent | example/UART_NORDIC/Uart_tx.h:57-136 | a transmitter round that puts nothing on the line keeps both sides in step |
| UartStream.BitPasses | example/UART_NORDIC/Uart_tx.h:57-136 | a bit passed over the line keeps both sides in step, loses no byte and raises no error |
| UartStream.ParityPasses | example/UART_NORDIC/Uart_rx.h:140-157 | the parity bit sent is the one the receiver computes |
| UartStream.EndPasses | example/UART_NORDIC/Uart_rx.h:158-198 | an idle stop bit ends a frame without framing or break error and with the byte intact |
| UartStream.RoundTrip | example/UART_NORDIC/Uart_rx.h:57-222 | for all runs on one line with one setting: no error is reported, and bytes handed over and bytes under way are the low bytes of the words sent, in order |
| UartStream.StreamRoundTrip | example/UART_NORDIC/Uart_tx.h:51-147 | from reset the bytes received are a prefix of the bytes sent that misses at most two, and all of them once both sides are idle |
| UartStream.Transmit | example/UART_NORDIC/Uart_tx.h:51-147 | a whole run of the transmitter puts its line bits and accepts its words as the rounds say |
| UartStream.Collect | example/UART_NORDIC/Uart_rx.h:57-222 | a whole run of the receiver hands over its words, and tells whether no error was reported |
| UartStream.Stream | example/UART_NORDIC/Uart_tx.h:51-147 | both processes run from reset on one line: no error, and the bytes handed over are the bytes sent up to two, all of them at rest |
| UartFrames.ParityXor | example/UART_NORDIC/Uart_types.h:56-56 | the parity macro is the exclusive or of the eight data bits |
| UartFrames.FrameSent | example/UART_NORDIC/Uart_tx.h:57-136 | for a word taken: idle stop bit, start bit, the eight bits from the lowest, their exclusive or if parity is set, a second stop bit if there are two, one ready event, and idle again |
| UartFrames.IdleRound | example/UART_NORDIC/Uart_tx.h:57-76 | an idle round puts nothing but a stop bit on the line, announces nothing, and takes a word exactly when active, the stop bit is taken and a word is there |
| UartFrames.FrameExact | example/UART_NORDIC/Uart_rx.h:61-198 | for every frame of bits, right or wrong, with any pauses below the timeout under one setting: an overrun is reported exactly when the word before was not collected at the start bit, a parity error exactly when the parity bit is not the exclusive or of the data bits, a break exactly when the frame is all zero, a framing error exactly when the first stop bit is zero (a break takes its place with one stop bit), then that a word is ready, whose bits are those of the frame; nothing else, in this order |
| UartFrames.BetweenFrames | example/UART_NORDIC/Uart_rx.h:68-116 | between frames a round without a start bit reports nothing, and hands a waiting word over exactly when it is collected |
| UartFrames.TimeoutExact | example/UART_NORDIC/Uart_rx.h:200-218 | a timeout is reported exactly in every forty-fourth inactive round in a row, and then the receiver listens, timed out |
| UartFrames.TimedOut | example/UART_NORDIC/Uart_rx.h:95-116 | after a timeout no frame starts until the receiver is active again |
| UartFrames.TimeoutFlag | example/UART_NORDIC/Uart_rx.h:200-213 | the receiver is timed out from a timeout on until it is active, and at no other time |
| Blocking.NextSafe | example/Interfaces/Blocking.hpp:59-68 | every move of either process keeps that what was read is what was written but for the value in the channel, that a woken side finds the channel as it asserts, and that both are never asleep |
| Blocking.RunSafe | example/Interfaces/Blocking.hpp:196-202 | in every run of the scheduler the values read are a prefix of those written missing at most the last, both asserts hold and the two are never both asleep |
| Blocking.NextCloser | example/Interfaces/Blocking.hpp:59-68 | every move reads a value or comes closer to reading one |
| Blocking.RunProgress | example/Interfaces/Blocking.hpp:59-68 | whatever the scheduler does, at least every fourth move reads a value |
| Blocking.Channel.Read | example/Interfaces/Blocking.hpp:59-68 | read up to its wait or its end, as the move of the reader |
| Blocking.Channel.ResumeRead | example/Interfaces/Blocking.hpp:61-68 | read after its wait, its assert included |
| Blocking.Channel.Write | example/Interfaces/Blocking.hpp:196-200 | write up to its wait, as the move of the writer |
| Blocking.Channel.ResumeWrite | example/Interfaces/Blocking.hpp:200-202 | write after its wait, its assert included |
| Blocking.Channel.Run | example/Interfaces/Blocking.hpp:59-68 | any schedule followed on the channel keeps the order of values and the progress bound |
| Fifo.Fifo.Loop | example/FIFO/FIFO.h:45-155 | one round in every branch keeps that delivered, pending and stored words are the reset word and the accepted words in order, and that flags and indices agree with the count; it offers a word whenever there is one and the output is free, takes an offered word exactly when there is room, and waits in a write of its own exactly after it put a stored word on the output |
| Fifo.Fifo.AfterOffer | example/FIFO/FIFO.h:94-104 | the word read after an offer out of a full buffer is stored behind all others |
| Fifo.Fifo.AfterWrite | example/FIFO/FIFO.h:79-79 | the thread goes on after a blocking write once the word is taken |
| Fifo.Fifo.Store | example/FIFO/FIFO.h:57-67 | the word read goes to the end of the queue |
| Fifo.Fifo.Offer | example/FIFO/FIFO.h:69-79 | the word at the front of the queue goes to the output |
| Fifo.Fifo.Consume | example/Interfaces/Blocking.hpp:66-68 | the consumer gets the pending word, and the output is free again |
| Fifo.Fifo.Run | example/FIFO/FIFO.h:44-156 | for every capacity and every interleaving the words delivered are a prefix of the reset word and the accepted words, at most the capacity is outstanding, and nothing accepted or delivered is lost again |
| Fifo.Fifo.Do | example/FIFO/FIFO.h:44-156 | one move of producer, consumer or thread: what it changes and what it leaves |
| Fifo.Fifo.RunAccepts | example/FIFO/FIFO.h:112-130 | a word offered while there is room and the thread is not in a write of its own is accepted the next time the thread runs, whatever the consumer does |
| Fifo.Fifo.FillsUp | example/FIFO/FIFO.h:112-130 | while the consumer takes nothing, the words offered are accepted one after the other until the buffer is full, and the thread never waits |
| Fifo.Fifo.Accepts | example/FIFO/FIFO.h:44-156 | from any state an offered word is accepted when the consumer takes and the thread runs at most three times |
| Fifo.Fifo.Delivers | example/FIFO/FIFO.h:69-110 | from any state with a word outstanding one is delivered when the thread runs and the consumer takes |
| Statements.ExecConcat | src/operationFactory/ReconstructOperations.cpp:63-65 | running, and taking all conditions of, two lists after each other is running both |

## Left out

- Arrays with computed indices, whole-array and function-call values in the symbolic execution: they need an array semantics of their own.
- The front end that reads clang's syntax trees and builds blocks and statements; the models start from block graphs and statements.
- The Z3 translation, and the search for paths and backtracks between states: `FinderOk` states what the colouring loop needs of the search, and the reachability test is a parameter.
- State objects and state names (`addStates`), and deletion of nodes; a state is the node it starts from.
- The function `peek` inside an expression is its port's sync signal; `notify`, time points, sections as values, and enumerations are not part of the expression language.
- The while-thread case of `FindEndNode` (one successor): only branches with two different successors are flattened in function bodies.
- Bodies with early returns that break the disjointness of branch arms: the condition `Structured` is a precondition, as the decompiler needs it.
- Identity of block and statement objects: blocks and nodes are known by their ids, statements by value.
- The order of `std::map` traversal in commitments: they are kept as a map from variables.
- Simplification of assignments, returns and function arguments, which only pass on the result for their expression; expressions inside comparisons, logical operators and ternaries are not visited by the code either.
- The tables of statements, compound values and ports in the node allocation; they repeat the pattern of the expression tables.
- Non-blocking calls of the blocking channel, its `peek` and `poke`, port registration, and events other than the two of the channel; in the FIFO and UART models the outcome of such a call is an input.
- Pointers held by channels: a channel slot holds a copy of the value.
- The FIFO is modelled for any capacity; the design unrolls the buffer access for three places.
- UART timeouts with a suspended receiver are in the receiver's step and in `TimeoutExact`, but not in the stream theorem, which asks for an active receiver; a frame cut off by a timeout, or one during which the setting changes, is outside of `FrameExact`; `odd_parity` is not used by the design.
- Printing, dot output, error logs, command line, test benches and the RISC-V designs.
- The module sanity check in front of the colouring loop, which refuses slave ports beside blocking ports.
- Simplify.SimplifyNode: does not say exactly when it throws on an expression with a ternary; no node of the table holds one, and the table refuses them.
- MergePoints.FindEndNode.Search: leaves out the case of a thread's while with one successor, which no acyclic function body has.
- MergePoints.GetStartEndMap: maps the branches only, for the same reason.
- Reconstruct.ReconstructOperations.VisitWrite: in a wait operation a compound port is entered field by field, where the code enters its one compound name, which is no scalar variable of the model.
