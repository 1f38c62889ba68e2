# VEXA: model and proofs

VEXA lifts x86-64 code by executing it symbolically, forking at branches, emitting IR as it
goes, and optimising the IR afterwards. This project models the parts of VEXA that are its own
(everything between LLVM, remill and the Bitwuzla solver) and proves what they are for. LLVM,
remill and the solver appear as inputs with stated contracts: instruction semantics are
assignments of terms and loads and stores at computed addresses, the solver is an oracle that answers SAT with a model, UNSAT or UNKNOWN,
and the memory-definition forest is given.

`dafny verify dfyconfig.toml` checks the whole project.

| file | component |
|---|---|
| `Bits.dfy`, `Terms.dfy`, `Solver.dfy`, `Wrappers.dfy` | words and bytes; solver terms and their values; the oracle, value enumeration, simplification under constraints; optional values |
| `SafetyModel.dfy` | the memory-safety analysis of constant propagation: programs, runs, the backward walk, soundness |
| `SafetyMemo.dfy`, `SafetyOrder.dfy`, `SafetyExactness.dfy`, `SafetyLaws.dfy` | its memo table; which values the traversal asks about when; when its verdicts are exact; which values those are |
| `SafetyAnalysis.dfy` | the traversal itself, with one mutable byte map, generations, undo log and memo table |
| `Places.dfy`, `States.dfy`, `SymbolicAccess.dfy` | the two pages of data memory and one flat memory; states and their symbolic images; accesses at symbolic addresses |
| `Machine.dfy`, `Paths.dfy`, `Fetching.dfy`, `Trails.dfy`, `Explorer.dfy` | the machine, its emulation and the emitted blocks; the simulation invariant; instruction fetch; what exploration does to its states; the exploration loop |
| `Recovery.dfy` | the exploration loop when recovering a control-flow graph |
| `Memory.dfy`, `Emulator.dfy`, `Snapshots.dfy` | byte memory with three read paths; loads and stores at symbolic addresses; copy-on-write snapshots |
| `PageEmulation.dfy`, `PageExploration.dfy` | blocks emulated on the pages; exploration carried out on pages and snapshots |
| `Scalarizer.dfy`, `SsaFolding.dfy`, `Concretizing.dfy` | the two IR transformations; the constant propagation pass as a whole |
| `Layout.dfy` | section layout, relocation and the jump to the new code |
| `Intrinsics.dfy` | terms for LLVM's bit intrinsics |

## Main results

- **Safe means fixed.** A load that the analysis judges safe has, in every run that reaches it,
  the value of one expression over the entry state (`SafetyAnalysis.Analysis.Run` gives the
  derivation, `SafetyModel.SafeValuesAreFixed` the meaning), provided that no load is walked past
  a store whose wrapped part writes it and that no undefined value flows into the expression.
- **When safe is exactly derivable.** A value is derivable if some table of derivations, not
  necessarily the run's own, contains it. Safe values are derivable; the verdicts are right for
  everything the traversal with rollback judges if and only if the depth-first order asks about
  no derivable load before it enters that load's own node, a condition on the program alone
  (`SafetyAnalysis.Analysis.Run`, `SafetyOrder.InOrder`). Which values are derivable is told
  instruction by instruction: a load exactly if it lies outside loops and joins, reads at most 64
  known bytes through a derivable pointer, and each byte was last written by a store of the same
  kind, or by none (`SafetyLaws.LoadLaw`).
- **Exploration simulates the machine.** Instructions load and store at computed addresses. After
  any number of rounds every input leads, in the code emitted so far, to exactly one leaf; at an
  open leaf the saved program counter, symbolic state and constraints are those of the machine on
  that input, memory included. A finished exploration whose paths all returned is a translation
  of the machine code (`Paths.CompleteTranslation`), and an ended path returns exactly where the
  machine has stopped (`Paths.EndsLikeTheMachine`). The loop stops with an exception if and only
  if some access of the next instruction has an address that is no literal under the constraints
  and more than 20 values (`Explorer.Cpu.ProcessInstruction`).
- **Symbolic addresses.** A store whose address has one to 20 values leaves the bytes of one
  store at the address the input selects, although candidate ranges may overlap; a load likewise
  reads the right word although its first candidate is not guarded. This holds of the terms of
  exploration, of the emitted code and of the copy-on-write pages, which agree
  (`Machine.LowerRuns`, `PageEmulation.StoreMirrored`).
- **Flat memory.** Any sequence of accesses that do not cross the ends of the stack window
  refines one flat memory of 2^64 bytes (`Emulator.DataMemory.Perform`); a store behaves flatly
  if and only if it does not cross (`Places.FlatStoreExactly`).
- **Snapshots.** Any sequence of new pages, writes, reads that materialise cells, snapshots,
  restores and drops on shared copy-on-write storage behaves as if every snapshot were a deep
  copy (`Snapshots.Replay`), and the materialised cells are never noticed
  (`Snapshots.ReadsLeaveNoTrace`).
- **Exploration on shared pages.** Carry out an exploration, however long, on two pages of
  copy-on-write storage, with a snapshot for every saved path: on every input that leads to the
  current block the pages hold the machine's memory, and each snapshot holds what its path's terms
  say (`PageExploration.ExploreOnPages`).
- **Constant propagation as a whole.** The pass (analysis, replaced loads, folded values, erased
  instructions) replaces exactly the derivable loads with a literal, if the analysis asks in order,
  and leaves nothing to fold among the users of what it replaced. It preserves every run from an entry state on which the executor has seen the
  literals of the replaced instructions that the run executes, if no load is walked past a store
  that writes it, nothing undefined is folded and no value is cut (`Concretizing.Concretize`).
  Having seen them is also necessary for the constants to be right (`Concretizing.ReplacedRight`),
  and the sides of a fork may know different literals of one entry value
  (`Concretizing.BothSidesSeen`).
- **Recovery.** Recovery that merges by program counter terminates for every lifter within two
  rounds per recorded counter and one more, and records or gives up exactly as the lifter says.
  Recovery that specialises by path emits a tree plus
  edges back to blocks that dominate their sources.
- **Transformations.** Splitting accesses into bytes, folding constants, layout, relocation and
  the near jump preserve meaning under exact conditions.

## Where the code does not do what its name promises

Each is stated as an exact condition, with the failing family or a concrete witness.

- A store of the analysis marks its bytes only up to the end of the 64-bit offset range, while
  the store itself wraps. The marked bytes are the written ones if and only if the store does not
  wrap (`SafetyModel.MarksExactlyTheWrittenBytes`); a wrapping two-byte store makes a load
  "safe" whose value is not fixed (`SafetyModel.WrappedStoreBreaksSoundness`). A program with such
  a store is still sound if no load is walked past a store that writes it
  (`SafetyModel.SafeValuesAreFixed`), and stores through pointers formed from addresses by page
  selection never get there (`Concretizing.FormedNeverWraps`).
- Undef and poison pass for constants, so a load of a stored undef is judged safe, although from
  one entry state it may have any value (`SafetyModel.UndefinedHasNoValue`).
- The memo table keeps the first verdict on a load, and a load asked about while another access
  is active is refused. Some verdict is then wrong if and only if a derivable load is asked about
  before its node is entered, be it for a store or for another load
  (`SafetyAnalysis.Misjudge`); `SafetyOrder.EarlyProgramOutOfOrder` is a program of three
  instructions, with a run, where this happens.
- The byte scalarizer indexes bytes by a signed 8-bit constant: it is right if and only if the
  access has at most 128 bytes (`Scalarizer.StoreExact`, `Scalarizer.LoadExact`).
- Folded constants keep only 64 bits of a value: runs are preserved if and only if no remaining
  instruction uses a folded value of more (`SsaFolding.PreservesExactly`).
- A data access that crosses an end of the stack window [-16384, 16384) does not behave as one
  flat access (`Places.FlatStoreExactly`, `Places.CrossingByte`).
- An address with more than 20 values cannot become a pointer: `value_to_pointer`
  (src/arch/arch.cpp:684-690) asks a symbolic value for its number, which throws
  (src/value/value.cpp:82-88), although the code around it looks as if it had a candidate to use.
  The memory itself would ignore such a store; going on after that would leave a symbolic state
  that does not describe the machine (`Machine.DroppedStoreBreaks`).
- Instruction fetch cuts a cell's literal to 64 bits before it shifts: the fetched byte is the
  cell's byte, for every literal, if and only if it is one of the literal's first eight bytes
  (`Fetching.CutByteExact`). The machine's own stores, of at most 64 bits, leave only such cells.
- Where an indirect jump cannot be resolved the emitted code does not return, although on some
  inputs the machine may stop there (`Explorer.UnresolvedMayStop`); everywhere else it returns
  exactly where the machine stops (`Paths.EndsLikeTheMachine`).
- Relocated 32-bit fields and the near jump resolve if and only if the value fits
  (`Layout.FieldResolves`, `Layout.JumpLands`); the code does not check it.

## Model

| member | source | states |
|---|---|---|
| `SafetyModel.Program.ChainUnique` | src/passes/constant_propagation_memory.cpp:111-153 | a node of the definition forest has one chain of definitions back to its root, so "the" chain of a load is well defined |
| `SafetyModel.MarksExactlyTheWrittenBytes` | src/passes/constant_propagation_memory.cpp:329-336 | the bytes marked by a store are the bytes it writes if and only if it does not pass the end of the 64-bit offset range |
| `SafetyModel.WrappedStoreBreaksSoundness` | src/passes/constant_propagation_memory.cpp:329-336 | a two-byte store at the last offset: the analysis derives a fixed value for a load that the run shows to be different |
| `SafetyModel.WalkFixed` | src/passes/constant_propagation_memory.cpp:111-115 | a byte whose backward walk succeeds, past no store that writes it, holds, whenever the chain's last definition has taken effect, the value of the walk's expression over the entry state, unless that is undefined |
| `SafetyModel.LoadFixed` | src/passes/constant_propagation_memory.cpp:249-255 | one executed load with a derivation that nothing undefined flows into has the value of its expression, if its bytes are walked past no store that writes them |
| `SafetyModel.SafeValuesAreFixed` | src/passes/constant_propagation_memory.cpp:230-270 | soundness: if no load is walked past a store that writes it, then in every run every executed value with a derivation has the value of its one expression over the entry state, unless undef or poison flows into it, whatever joins, loops and unknown writes lie elsewhere |
| `SafetyModel.NoStoreWrapsClear` | src/passes/constant_propagation_memory.cpp:329-336 | in a program none of whose stores wraps, no load is walked past a store that writes it |
| `SafetyModel.UndefinedHasNoValue` | src/passes/constant_propagation_memory.cpp:231-233 | a store of undef and a load of its byte: the load has a derivation, and from one entry state there is a run with every value |
| `SafetyAnalysis.UndoneInStages` | src/passes/constant_propagation_memory.cpp:219-228 | undoing to an earlier checkpoint is undoing to a later one and then from there |
| `SafetyMemo.WalkStable` | src/passes/constant_propagation_memory.cpp:230-270 | later verdicts never change the backward walk of a chain whose stores have been judged |
| `SafetyMemo.DerivationMonotone` | src/passes/constant_propagation_memory.cpp:230-270 | a derivation stays one when more values become safe |
| `SafetyExactness.Complete` | src/passes/constant_propagation_memory.cpp:230-270 | if no derivable load was refused for being asked about early, every judged value with a derivation in any table at all is safe in the run |
| `SafetyExactness.StoreAskedJudged` | src/passes/constant_propagation_memory.cpp:321-327 | then everything that a store asks about, through operands of operands, has been judged |
| `SafetyExactness.ExactlyInOrder` | src/passes/constant_propagation_memory.cpp:282-356 | the verdicts agree with derivability if and only if the nodes were entered in an order that asks about no derivable load too early |
| `SafetyLaws.PureLaw` | src/passes/constant_propagation_memory.cpp:259-266 | an instruction without memory is derivable if and only if it is outside loops and everything it uses is |
| `SafetyLaws.LoadLaw` | src/passes/constant_propagation_memory.cpp:249-255 | a load with a known place is derivable if and only if it is outside loops, in a block of at most one predecessor, of at most 64 bytes, with a derivable pointer, and each byte was last covered on its chain by a store outside loops, in a block of at most one predecessor, with derivable operands, or by none since the entry, with no unknown definition in between |
| `SafetyLaws.NothingElse` | src/passes/constant_propagation_memory.cpp:246-268 | no other instruction is derivable, and no load without a definition, a chain back to a root or a known place |
| `SafetyLaws.StraightLoad` | src/passes/constant_propagation_memory.cpp:321-336 | a load among stores to known places through uncomputed pointers: derivable if and only if its block has at most one predecessor, it has at most 64 bytes, and so for the blocks, outside loops, of the stores that last covered its bytes |
| `SafetyLaws.DirectInOrder` | src/passes/constant_propagation_memory.cpp:298-327 | in a program whose loads and stores use no computed pointers or values nothing is asked about too early, in any order |
| `SafetyOrder.EarlyProgramOutOfOrder` | src/passes/constant_propagation_memory.cpp:249-255 | a store, a load of what it wrote, and a load through that of a byte it did not write: the program runs, both loads are derivable, and the depth-first order asks about the first before its own node |
| `SafetyAnalysis.StackPush` | src/passes/constant_propagation_memory.cpp:308-346 | entering a definition saves what its pop will restore, and the new layer is the backward walk of the longer chain |
| `SafetyAnalysis.StackPop` | src/passes/constant_propagation_memory.cpp:348-354 | the layer saved below the top is what rolling back and resetting generation and default gives |
| `SafetyAnalysis.AllVisited` | src/passes/constant_propagation_memory.cpp:282-356 | when the stack is empty every node below the root has been visited and its loads judged |
| `SafetyAnalysis.Analysis.RangeIsSafe` | src/passes/constant_propagation_memory.cpp:181-194 | true if and only if every byte of the range is effectively safe |
| `SafetyAnalysis.Analysis.SetByteSafety` | src/passes/constant_propagation_memory.cpp:196-217 | changes the effective safety of one byte and of no other, erases only an entry that exists, and leaves an undo record that restores the map |
| `SafetyAnalysis.Analysis.Rollback` | src/passes/constant_propagation_memory.cpp:219-228 | map and log are those of the checkpoint |
| `SafetyAnalysis.Analysis.IsSafeValue` | src/passes/constant_propagation_memory.cpp:230-242 | the answer is membership in the table of derivations; a true answer leaves only safe entries behind |
| `SafetyAnalysis.Analysis.Judge` | src/passes/constant_propagation_memory.cpp:242-270 | marks, inspects and records a verdict, keeping the memo table justified |
| `SafetyAnalysis.Analysis.LoadSafe` | src/passes/constant_propagation_memory.cpp:249-255 | a safe load has a derivation through its own chain; a refused one was asked about early, or fails a guard, an operand or the backward walk |
| `SafetyAnalysis.Analysis.OperandsSafe` | src/passes/constant_propagation_memory.cpp:259-266 | a pure instruction is safe if and only if its operands are |
| `SafetyAnalysis.Analysis.JudgeLoads` | src/passes/constant_propagation_memory.cpp:298-305 | every load of the active node has a verdict |
| `SafetyAnalysis.Analysis.MarkBytes` | src/passes/constant_propagation_memory.cpp:329-336 | exactly the marked bytes change their effective safety, undoably |
| `SafetyAnalysis.Analysis.StoreIsSafe` | src/passes/constant_propagation_memory.cpp:321-327 | a store is safe if its block is outside loops and joins and both operands are safe |
| `SafetyAnalysis.Analysis.ApplyDefinition` | src/passes/constant_propagation_memory.cpp:308-338 | after a definition the effective safety of every byte is the backward walk of the chain with it, and the undo log restores the layer before |
| `SafetyAnalysis.Analysis.Pop` | src/passes/constant_propagation_memory.cpp:348-354 | leaving a node restores map, generation and default exactly |
| `SafetyAnalysis.Analysis.Step` | src/passes/constant_propagation_memory.cpp:294-355 | one round keeps the invariant of the traversal, follows the depth-first order and makes progress |
| `SafetyAnalysis.Analysis.Traverse` | src/passes/constant_propagation_memory.cpp:282-356 | the explicit-stack walk below a root terminates, enters exactly the nodes below it in depth-first order, and every load below is judged |
| `SafetyAnalysis.Analysis.Run` | src/passes/constant_propagation_memory.cpp:282-356 | the whole analysis: every load has a verdict, every safe value is derivable, and for all judged values safe means derivable if and only if the depth-first order asks about no derivable load before its own node |
| `SafetyAnalysis.Misjudge` | src/passes/constant_propagation_memory.cpp:249-255 | whenever a store or a load asks about a derivable load before that load's node is entered, the analysis ends with a derivable value refused |
| `Terms.EvalFits` | src/value/value.cpp:102-122 | a well-sorted term evaluates within its width |
| `Solver.PossibleValues` | src/value/value.cpp:20-43 | distinct attainable values, at most 20; UNSAT if and only if they are all (decisive solver); nonempty and complete if and only if the term has one to 20 values |
| `Solver.EnumerateMeans` | src/value/value.cpp:20-43 | the enumeration the loop computes: it says UNSAT only when the list is complete, and is complete and nonempty if and only if the term has one to 20 values |
| `Solver.EnumerationExact` | src/value/value.cpp:20-43 | an enumeration is complete and nonempty exactly for terms with one to 20 values |
| `Solver.FewValuesExact` | src/arch/arch.cpp:405-428 | the list has one or two entries exactly when the term has one or two values |
| `Solver.SimplifyUnderKeepsMeaning` | src/value/value.cpp:54-70 | simplification under constraints never changes the value on an input that satisfies them, and finds the literal when there is one |
| `Solver.SimplifyUnderLiteral` | src/value/value.cpp:54-70 | a literal answer is the only attainable value |
| `Machine.SizesTyped` | src/arch/emulator.cpp:253-270 | loads and stores of 8, 16, 32 and 64 bits and assignments of registers are actions of instructions |
| `Machine.SubstEval` | src/arch/emulator.cpp:7-21 | emulating a term symbolically and evaluating it is evaluating it in the state |
| `Machine.EmulateRepresents` | src/arch/arch.cpp:359-361 | for every input that satisfies the path constraints, emulating an instruction with loads and stores at computed addresses keeps the symbolic state a description of the machine's state, unless an address cannot be formed |
| `Machine.LowerRuns` | src/arch/emulator.cpp:91-235 | on those inputs the emitted loads, selects and stores at the enumerated addresses do what the instruction does |
| `Machine.LowerForm` | src/arch/emulator.cpp:91-235 | each load and store of an instruction is emitted for exactly the places its address resolves to, and every other action as it is |
| `Machine.TooManyAddresses` | src/arch/arch.cpp:684-690 | an unconstrained register is an address that cannot be formed, whatever the solver and the rewriting |
| `Machine.DroppedStoreBreaks` | src/memory/memory.cpp:14-29 | ignoring a store at an unresolved address, as the memory would, leaves a symbolic state that does not describe the machine on some input |
| `SymbolicAccess.ResolveMeans` | src/arch/arch.cpp:669-702 | an address resolves, to its literal or to the distinct values that cover it, exactly if it is a literal or has one to 20 values; it throws exactly if it does not and some input satisfies the constraints; otherwise there is nothing to access |
| `SymbolicAccess.StoreSymEval` | src/arch/emulator.cpp:23-55 | the guarded stores at the candidates leave, for every input that satisfies the constraints, the bytes of one store at the address the input selects |
| `SymbolicAccess.LoadSymEval` | src/arch/emulator.cpp:57-89 | the choice over the candidates has the value of the word at the address the input selects |
| `Machine.FollowGrafted` | src/arch/arch.cpp:336-341 | growing the emitted code at one open block changes nothing for inputs that end elsewhere |
| `Paths.EveryInputHasItsLeaf` | src/arch/arch.cpp:189-214 | coverage: every input ends in a leaf that belongs to a live or ended path whose constraints it satisfies |
| `Paths.ReturnsLikeTheMachine` | src/arch/arch.cpp:192-195 | where the emitted code returns, the machine has stopped in the same state |
| `Paths.CompleteTranslation` | src/arch/arch.cpp:189-214 | no path left and all returned: on every input the code returns and the machine stops in the returned state, registers and memory |
| `Paths.EndsLikeTheMachine` | src/arch/arch.cpp:192-194 | an ended path ends in a return if and only if its program counter is zero; on every input that ends there the code returns if and only if the machine has stopped, unless a jump was not resolved, where the code never returns |
| `Paths.ConstraintsSelectThePath` | src/arch/arch.cpp:204-206 | with disjoint constraints a path's constraints hold on exactly the inputs that the code leads to it |
| `Paths.GraftInv` | src/arch/arch.cpp:334-441 | replacing the current path by new ones that agree with the machine keeps the simulation invariant |
| `Paths.ForkInv` | src/arch/arch.cpp:583-609 | so does a fork at the end of the current block |
| `Paths.LinkForkInv` | src/arch/arch.cpp:528-539 | so does a block that ends in a fork with one more store on each side |
| `Paths.EndInv` | src/arch/arch.cpp:192-214 | so does ending the current path |
| `Fetching.CutByteExact` | src/arch/arch.cpp:309-311 | the byte fetched from a cell is the byte of the literal, for every literal, if and only if it is one of the first eight |
| `Fetching.LostByte` | src/arch/arch.cpp:309-311 | beyond that nothing computed from the low 64 bits is right for every literal, whatever an oversized shift does |
| `Fetching.FetchConcrete` | src/arch/arch.cpp:294-314 | the bytes of the literal cells at the program counter, at most 15, up to the first cell that is not one; whatever the input, they are what the machine fetches |
| `Fetching.ConcretePrefixFetched` | src/arch/arch.cpp:294-314 | the same for every prefix of that kind, in states whose cells hold bytes of stored values |
| `Explorer.StepAgrees` | src/arch/arch.cpp:316-332 | lifting what was decoded from the literal bytes is one step of the machine |
| `Explorer.SolveContext` | src/arch/arch.cpp:545-556 | registers with a single value under the constraints become literals, every other register and every other cell stays, and no input that satisfies the constraints sees a different state |
| `Explorer.SplitConstraints` | src/arch/arch.cpp:588-607 | the two sides of a fork split the inputs by the condition |
| `Explorer.SolvedMove` | src/arch/arch.cpp:513-526 | a conditional move with a literal condition may store the selected operand |
| `Explorer.MoveForks` | src/arch/arch.cpp:528-539 | forking at a conditional move keeps the simulation invariant |
| `Explorer.Cpu.constructor` | src/arch/arch.cpp:186-187 | exploration starts in a state that satisfies the invariant |
| `Explorer.Cpu.Continue` | src/arch/arch.cpp:388-404 | control goes to one known place, keeping the invariant |
| `Explorer.Cpu.Branching` | src/arch/arch.cpp:558-613 | forks unless the condition is an opaque predicate, in which case the side its value says is followed; the invariant holds after either |
| `Explorer.Cpu.ForkPath` | src/arch/arch.cpp:583-613 | the fallthrough side is saved with its constraint, the taken side is current with its own, and on each the registers with one value under its constraints are literals |
| `Explorer.Cpu.EmitBlock` | src/arch/arch.cpp:334-360 | the block of an instruction, with its accesses lowered to the enumerated addresses, is linked and emulated; the machine has made one step |
| `Explorer.Cpu.ForkAtMove` | src/arch/arch.cpp:528-542 | both sides of a conditional move get their store; the constraints are copied unchanged |
| `Explorer.Cpu.HandleConditionalMove` | src/arch/arch.cpp:443-543 | a conditional move is solved if its condition is a literal and opaque solving is on, and otherwise forked, keeping the invariant |
| `Explorer.Cpu.IndirectJump` | src/arch/arch.cpp:396-433 | followed or forked if and only if the target is a literal or has one or two values, keeping the invariant |
| `Explorer.Cpu.EndPath` | src/arch/arch.cpp:192-208 | the current path ends, the most recently saved path becomes current |
| `Explorer.Cpu.LiftInstruction` | src/arch/arch.cpp:334-441 | every kind of instruction keeps the invariant and is one machine step; where control goes and whether the path forks, kind by kind; it throws if and only if an access has no resolvable address, and fails only on an unresolved indirect jump |
| `Explorer.Cpu.ProcessInstruction` | src/arch/arch.cpp:189-332 | one round makes a machine step if and only if the bytes decode, the accesses can be formed and the jump resolves; it throws if and only if an access cannot be formed; otherwise it ends the path: with a return at program counter zero, in a new trapping block where lifting fails, and openly where decoding fails or the jump is not resolved |
| `Explorer.Cpu.Run` | src/arch/arch.cpp:189-214 | the invariant holds after any number of rounds, with a log that accounts for the state of every path; each round emits a block or ends a path; the loop stops early only when no path is left or an access throws |
| `Explorer.UnresolvedMayStop` | src/arch/arch.cpp:428-430 | a jump to the address in an unconstrained register: on one input the machine stops after it and the finished code does not return |
| `Trails.LogForked` | src/arch/arch.cpp:583-613 | saving the other side of a fork and going on along its own side, with the same memory and fewer inputs, are the next steps of the log |
| `Trails.LogResumed` | src/arch/arch.cpp:32-41 | resuming the last saved path is the next step |
| `Recovery.RecordInv` | src/arch/arch.cpp:363-369 | recording a block for a fresh program counter keeps the invariant, with at most one path saved |
| `Recovery.EndInv` | src/arch/arch.cpp:196-208 | ending a path at a recorded, failed or zero program counter keeps it |
| `Recovery.CfgRecovery.Round` | src/arch/arch.cpp:189-214 | a program counter without a block gets one, and control goes to its targets, if and only if lifting succeeds; otherwise the path ends, and it is marked failed exactly if lifting failed |
| `Recovery.CfgRecovery.Record` | src/arch/arch.cpp:347-369 | the counter gets a block of its own and what its code leads to is current or saved |
| `Recovery.RecoverCfg` | src/arch/arch.cpp:189-255 | merging by program counter terminates for every lifter within 2n+1 rounds for n recorded counters; counters and blocks pair up one to one; every record says where the lifter led in some round, every failure is a failed lift; wherever recorded code leads is recorded, zero, or failed; if every lift succeeds, a nonzero entry is recorded and nothing fails |
| `Recovery.FirstTaggedIsAncestor` | src/arch/arch.cpp:371-373 | the block nearest the entry recorded under a counter is an ancestor |
| `Recovery.AddBlockSees` | src/arch/arch.cpp:371-373 | PATH after recording is exactly the first-recorded table of the new block's chain |
| `Recovery.AncestorsDominate` | src/arch/arch.cpp:258-277 | every walk from the entry along tree and closing edges passes all ancestors of the block it reaches |
| `Recovery.ClosingTargetsDominate` | src/arch/arch.cpp:258-277 | a closing edge goes to an ancestor that dominates its source and was recorded under the matching counter |
| `Recovery.VcfgRecovery.Open` | src/arch/arch.cpp:336-341 | a new block below the insertion block, PATH staying exact |
| `Recovery.VcfgRecovery.CloseLoop` | src/arch/arch.cpp:258-277 | an edge back if and only if a virtual jump is pending and its counter is on PATH |
| `Recovery.VcfgRecovery.ForkPath` | src/arch/arch.cpp:583-610 | two blocks; the saved path keeps its own copy of PATH, VPC and VJMP |
| `Recovery.VcfgRecovery.NextPath` | src/arch/arch.cpp:32-41 | everything is restored from the snapshot |
| `Recovery.VcfgRecovery.Round` | src/arch/arch.cpp:189-214 | one round from any state: the blocks and edges added, where control goes, what is saved and what callbacks leave in VPC and VJMP |
| `Recovery.RecoverVcfg` | src/arch/arch.cpp:189-277 | the state after any sequence of stimuli, round by round; after every prefix PATH is the table of the current chain and every closing edge's target lies on every walk to its source |
| `Bits.ConsecutiveBytes` | src/memory/memory.cpp:104-108 | consecutive bytes of a word, assembled, are the extracted field |
| `Memory.Analyze` | src/memory/memory.cpp:83-97 | both flags hold if and only if the cells are consecutive bytes of one value |
| `Memory.MergedRead` | src/memory/memory.cpp:99-108 | then the whole value, or the extracted field, is the little-endian assembly of the cells |
| `Memory.ConcatBytes` | src/memory/memory.cpp:110-125 | byte-wise concatenation gives the same |
| `Memory.Assemble` | src/memory/memory.cpp:80-125 | whichever path is taken, the term is the little-endian assembly of the cells; when they are consecutive bytes of one value it is that value, or a bit field of it |
| `Memory.WithBytesAt` | src/memory/memory.cpp:20-28 | a value's cells cover exactly its range, wrapping at 2^64 |
| `Memory.MemPage.Write` | include/vexa/memory/memory.hpp:54-59 | the page holds the cell; storage shared with others is copied first and left as it was |
| `Memory.MemPage.Initialize` | include/vexa/memory/memory.hpp:36-43 | before sealing only the initial image changes, afterwards only the overlay |
| `Memory.MemPage.WriteValue` | src/memory/memory.cpp:14-29 | the bytes of the value at its range, every other byte as before, for every input |
| `Memory.MemPage.ReadByte` | src/memory/memory.cpp:38-52 | a missing cell becomes that address's own symbol, every cell held before stays |
| `Memory.MemPage.Read` | src/memory/memory.cpp:66-126 | the value is the little-endian assembly of the most recent bytes and no byte changes |
| `Places.WindowMeans` | src/arch/arch.cpp:650-667 | as signed numbers, addresses from -16384 up to 16384 lie on the stack page, 16384 bytes further on, and all others on the global page |
| `Places.TranslateInjective` | src/arch/arch.cpp:650-667 | distinct addresses have distinct places |
| `Places.FlatUnlessCrossing` | src/arch/arch.cpp:650-667 | an access touches the places of consecutive addresses if and only if it does not cross an end of the stack window |
| `Places.FlatStore` | src/arch/arch.cpp:650-667 | a store that does not cross leaves at every address what it leaves in a flat memory |
| `Places.FlatStoreExactly` | src/arch/arch.cpp:650-667 | a store is flat for every value and every old content if and only if it does not cross |
| `Places.CrossingByte` | src/arch/arch.cpp:650-667 | the first byte past the end is on the other page, so a crossing store leaves it alone |
| `Emulator.DataMemory.WriteFlat` | src/arch/emulator.cpp:23-55 | a non-crossing store on the pages is a store in the flat memory they show |
| `Emulator.DataMemory.ReadFlat` | src/arch/emulator.cpp:57-89 | a non-crossing load reads that flat memory and changes nothing in it |
| `Emulator.DataMemory.FlatWord` | src/arch/arch.cpp:650-667 | the word on the pages is the word of the flat memory |
| `Emulator.DataMemory.Perform` | src/arch/emulator.cpp:23-89 | any sequence of non-crossing loads and stores refines one flat memory of 2^64 bytes |
| `States.EmittedStoreCorrect` | src/arch/emulator.cpp:103-141 | the emitted load/select/store sequence leaves the bytes of one store at the run-time address if it is a candidate, and else changes nothing, even when candidate ranges overlap |
| `States.EmittedLoadCorrect` | src/arch/emulator.cpp:172-220 | the emitted loads and selects give the word at the run-time address |
| `Emulator.OneMore` | src/arch/emulator.cpp:40-50 | one more candidate in the chain of guarded stores |
| `Emulator.DataMemory.StoreCandidate` | src/arch/emulator.cpp:40-50 | reading back and choosing makes the store conditional on the address |
| `Emulator.DataMemory.StoreCandidates` | src/arch/emulator.cpp:37-51 | after all candidates the memory is that of one store at the address the input selects |
| `Emulator.DataMemory.WriteMemory` | src/arch/emulator.cpp:23-55 | resolved if and only if the address is a literal or has one to 20 values; then, for every input that satisfies the constraints, the bytes of one concrete store; otherwise nothing changes |
| `Emulator.DataMemory.LoadCandidates` | src/arch/emulator.cpp:70-85 | the choice chain with an unguarded first candidate gives the word at the address the input selects |
| `Emulator.DataMemory.ReadMemory` | src/arch/emulator.cpp:57-89 | as for stores, and reading changes no byte; an unresolved read is a fresh symbol |
| `PageEmulation.StoreMirrored` | src/arch/emulator.cpp:23-55 | pages that hold what the symbolic state says still do after a store on both |
| `PageEmulation.LoadMirrored` | src/arch/emulator.cpp:57-89 | a load from the pages has the value of the term exploration loads, and the pages still hold what the symbolic state says |
| `PageEmulation.EmulateMirrored` | src/arch/arch.cpp:359-361 | a whole block emulated on the pages, loads and stores in turn, keeps them a mirror of the emulated state, and moves pages off shared storage before it writes |
| `PageEmulation.FetchMirrored` | src/arch/arch.cpp:294-314 | bytes fetched from the cells of the page are those the machine fetches while each cell holds one of the first eight bytes of its value |
| `PageExploration.PagedExplorer.EmulateBlock` | src/arch/arch.cpp:359-361 | after a block the pages mirror the emulated state and every snapshot still mirrors its path |
| `PageExploration.PagedExplorer.SavePath` | src/arch/arch.cpp:583-613 | the snapshot of a saved path mirrors it |
| `PageExploration.PagedExplorer.ResumePath` | src/arch/arch.cpp:32-41 | restoring the last snapshot makes the pages a mirror of the resumed path |
| `PageExploration.PlayOnPages` | src/memory/memory.cpp:134-150 | after any legal sequence of blocks, refinements, saves and resumptions the pages mirror the current state and every snapshot its path |
| `PageExploration.ExploreOnPages` | src/arch/arch.cpp:189-214 | an exploration on shared pages: on every input that leads to the current block the pages hold the machine's memory, and every snapshot mirrors its saved path |
| `Snapshots.SharedMemory.Allocate` | src/memory/memory.cpp:6-11 | a new page with storage of its own |
| `Snapshots.SharedMemory.Write` | include/vexa/memory/memory.hpp:54-59 | no storage held by a snapshot and no other page's storage changes |
| `Snapshots.SharedMemory.MovedValid` | include/vexa/memory/memory.hpp:54-59 | whatever pages do to themselves, leaving shared storage before they write, reference counts stay right and held storage does not change |
| `Snapshots.SharedMemory.TakeSnapshot` | src/memory/memory.cpp:134-141 | every page with its storage, shared |
| `Snapshots.SharedMemory.RestoreSnapshot` | src/memory/memory.cpp:143-150 | exactly the captured pages with the captured storage |
| `Snapshots.Session.WriteCell` | include/vexa/memory/memory.hpp:54-59 | a write in the deep-copy model |
| `Snapshots.Session.TakeSnapshot` | src/memory/memory.cpp:134-141 | a deep copy in the deep-copy model |
| `Snapshots.Session.RestoreSnapshot` | src/memory/memory.cpp:143-150 | restoring a deep copy in the deep-copy model |
| `Snapshots.Session.ReadCell` | src/memory/memory.cpp:38-52 | a reader gets the cell a deep copy would give; a missing one is materialised in the page and in no snapshot |
| `Snapshots.Replay` | src/memory/memory.cpp:38-150 | every interleaving of new pages, writes, reads, snapshots, restores and drops refines the deep-copy model |
| `Snapshots.TakeThenRestore` | src/memory/memory.cpp:134-150 | restoring a snapshot undoes whatever happened to the pages since it was taken |
| `Snapshots.WrittenIsFound` | include/vexa/memory/memory.hpp:26-34 | a written cell is what a reader finds, at its address and nowhere else |
| `Snapshots.ReadsLeaveNoTrace` | src/memory/memory.cpp:38-52 | every page and every snapshot shows what it would show had nothing been read |
| `Scalarizer.SignExtended` | src/passes/memory_scalarizer.cpp:35-56 | an 8-bit index of 128 and more is negative |
| `Scalarizer.StoreOpsMeans` | src/passes/memory_scalarizer.cpp:35-56 | up to 128 shifted and truncated byte stores write what the wide store writes |
| `Scalarizer.LoadExprMeans` | src/passes/memory_scalarizer.cpp:65-84 | up to 128 extended, shifted and or-ed byte loads give the little-endian value |
| `Scalarizer.StoreExact` | src/passes/memory_scalarizer.cpp:35-56 | the byte stores equal the wide store in every state if and only if it has at most 128 bytes |
| `Scalarizer.LoadExact` | src/passes/memory_scalarizer.cpp:65-84 | the byte loads equal the wide load in every state if and only if it has at most 128 bytes |
| `Scalarizer.SplitStore` | src/passes/memory_scalarizer.cpp:35-56 | the loop emits the specified byte stores, none of them wide |
| `Scalarizer.SplitLoad` | src/passes/memory_scalarizer.cpp:65-84 | the loop builds the specified expression; none at all when the 8-bit size is zero |
| `Scalarizer.SplitMeans` | src/passes/memory_scalarizer.cpp:28-85 | what replaces one instruction does what it did |
| `Scalarizer.Scalarize` | src/passes/memory_scalarizer.cpp:22-93 | any sequence of overlapping loads and stores keeps its memory and its values, and no wide access to a slot is left |
| `SsaFolding.CollectUsers` | src/passes/constant_propagation.cpp:49-60 | exactly the instructions that use the value |
| `SsaFolding.PropagateSsaValues` | src/passes/constant_propagation.cpp:62-117 | terminates; each instruction folded at most once, on operands that are constants or were replaced before; only uses of folded instructions change; at the end no seed and no user of a folded instruction can be folded |
| `SsaFolding.StillSettled` | src/passes/constant_propagation.cpp:106-113 | replacing an instruction makes only its users foldable, and those are queued |
| `SsaFolding.NoUsesLeft` | src/passes/constant_propagation.cpp:110-111 | a replaced instruction has no use left |
| `SsaFolding.EraseDead` | src/passes/constant_propagation.cpp:119-126 | all replaced instructions, and no others, are erased |
| `SsaFolding.ConcretizeLoads` | src/passes/constant_propagation_memory.cpp:358-385 | safe loads with concrete values become constants; the seeds are exactly their users |
| `SsaFolding.PropagateConstants` | src/passes/constant_propagation.cpp:128-148 | the whole pass leaves the code with all uses replaced, the replaced instructions gone and nothing left to fold among their users |
| `SsaFolding.RunsPreserved` | src/passes/constant_propagation.cpp:62-126 | if every replaced instruction has its constant whenever it runs, leave the replaced instructions out of a run of the old code and what remains is a run of the new code with the same visible events |
| `SsaFolding.PreservesExactly` | src/passes/constant_propagation.cpp:106-111 | every run of every behaviour is preserved if and only if no remaining instruction uses a replaced value of more than 64 bits |
| `SsaFolding.WideValueIsCut` | src/value/value.cpp:90-95 | one use of a wider value is enough to lose a run |
| `Concretizing.FoldedDerivable` | src/passes/constant_propagation.cpp:62-117 | everything the worklist folds has a fixed expression, because it rests on replaced loads and on what was folded before it |
| `Concretizing.ReplacedRight` | src/passes/constant_propagation_memory.cpp:358-385 | on every run, each replaced instruction has its constant whenever it executes if and only if the executor has seen that constant on some run from the same entry state |
| `Concretizing.BothSidesSeen` | src/arch/arch.cpp:592-608 | two sides of a fork that know different literals of one entry byte: each side's runs execute from entry states on which its literal has been seen |
| `Concretizing.PassPreserves` | src/passes/constant_propagation.cpp:128-149 | then leaving out the replaced instructions turns every run of the old code whose literals have been seen into a run of the new code with the same visible events |
| `Concretizing.SafeLoads` | src/passes/constant_propagation_memory.cpp:358-367 | exactly the loads with the verdict safe, each once |
| `Concretizing.LoadsReplaced` | src/passes/constant_propagation_memory.cpp:358-383 | if the verdicts are exact, the loads replaced are the derivable ones with a literal |
| `Concretizing.Concretize` | src/passes/constant_propagation.cpp:128-149 | the whole pass from analysis to erased code: if the analysis asks in order, exactly the derivable loads with a literal are replaced; no eligible instruction that used a replaced one is left with constant operands and a known value; only instructions with an expression over the entry state are replaced, and every run whose literals have been seen is preserved if no load is walked past a store that writes it, nothing undefined is replaced and no wide value is cut |
| `Concretizing.FormedNeverWraps` | src/arch/arch.cpp:650-667 | a store of at most 16384 bytes through a pointer formed by page selection does not pass the end of the offset range |
| `Layout.PaddingAligns` | src/engine/engine.cpp:223-225 | the padding is less than the alignment and reaches a multiple of it |
| `Layout.Image.AppendSection` | src/engine/engine.cpp:222-238 | the section goes to the least multiple of its alignment from the end of the code, or right there if it has none, zero-filled if it has no contents, and layout stays in order |
| `Layout.LayOut` | src/engine/engine.cpp:220-245 | .text first, at offset zero, then the other allocated sections: all intact, aligned, apart, zeroes between, and offsets recorded for exactly them |
| `Layout.PlacedMeans` | src/engine/engine.cpp:222-238 | a placed section lies at a multiple of its alignment, with its own bytes, or zeroes if it has none in the file |
| `Layout.ChosenMembers` | src/engine/engine.cpp:240-245 | the sections placed are .text and the allocated ones |
| `Layout.ChosenOrder` | src/engine/engine.cpp:240-245 | .text comes first and the others in file order |
| `Layout.FixRelocations` | src/engine/engine.cpp:362-416 | fails if and only if a relocation of unsupported type has a symbol, a section and offsets for both; otherwise patches each in turn |
| `Layout.Untouched` | src/engine/engine.cpp:391-409 | bytes outside every field stay |
| `Layout.FieldWritten` | src/engine/engine.cpp:391-409 | with disjoint fields each field holds its own word at the end |
| `Layout.FieldResolves` | src/engine/engine.cpp:376-409 | each field reads as S + A (absolute, or relative to its own address), as section 4.4.1 of the System V AMD64 psABI wants, if and only if the value fits the field |
| `Layout.SymbolMeans` | src/engine/engine.cpp:376-386 | S is the address of the byte that the symbol names in its section |
| `Layout.ImageBaseMeans` | src/engine/engine.cpp:378-380 | S of the image base is where the image was and how far it was shifted |
| `Layout.FieldMeans` | src/engine/engine.cpp:388-409 | P is the address of the field that holds the word |
| `Layout.FitsMeans` | src/engine/engine.cpp:391-409 | a number fits a signed field if and only if it is one between -2^31 and 2^31 modulo 2^64 |
| `Layout.SignExtendMeans` | src/engine/engine.cpp:391-396 | the sign extension of a 32-bit word is the number between -2^31 and 2^31 that it is modulo 2^32 |
| `Layout.SectionsIntact` | src/engine/engine.cpp:220-245 | after layout and relocation a section's bytes outside the fields are its own and no other section's |
| `Layout.JumpLands` | src/engine/engine.cpp:299-305 | five bytes, the first the opcode of a near jump, lead to the new code if and only if the distance fits 32 signed bits |
| `Intrinsics.FshlMeans` | src/arch/emulator.cpp:603-627 | the term for fshl is the shift-or funnel of its operands, the amount taken modulo the width |
| `Intrinsics.FshrMeans` | src/arch/emulator.cpp:628-652 | the same for fshr |
| `Intrinsics.RotateBack` | src/arch/emulator.cpp:603-652 | with equal operands the two rotate, and each undoes the other |
| `Intrinsics.BuildSwap` | src/arch/emulator.cpp:653-667 | the loop builds the specified term |
| `Intrinsics.SwapMeans` | src/arch/emulator.cpp:653-667 | bswap gives the bytes in the opposite order |
| `Intrinsics.SwapTwice` | src/arch/emulator.cpp:653-667 | bswap is its own inverse |
| `Intrinsics.BuildCttz` | src/arch/emulator.cpp:668-686 | the loop builds the specified chain |
| `Intrinsics.CttzMeans` | src/arch/emulator.cpp:668-686 | cttz is the position of the lowest set bit, the width exactly for zero |
| `Intrinsics.BuildCtlz` | src/arch/emulator.cpp:687-706 | the loop builds the specified chain |
| `Intrinsics.CtlzMeans` | src/arch/emulator.cpp:687-706 | ctlz is the distance of the highest set bit from the top, the width for zero |
| `Intrinsics.BuildCtpop` | src/arch/emulator.cpp:582-602 | the loop builds the specified sum |
| `Intrinsics.CtpopFrom` | src/arch/emulator.cpp:582-602 | no partial sum overflows |
| `Intrinsics.CtpopMeans` | src/arch/emulator.cpp:582-602 | ctpop is the number of ones |

## Left out

- LLVM, remill, MemorySSA, alias, loop and dominator analysis and the solver's internals: inputs with contracts. The definition forest is assumed accurate, decoding a prefix of an instruction's bytes is assumed to decode the instruction, and the solver is a function of the assumptions it is given.
- The solver answering UNKNOWN where one candidate was found: the code then ignores the answer (src/arch/emulator.cpp:31, src/arch/arch.cpp:412); the model takes a solver that does not answer UNKNOWN.
- Explorer.Cpu.Run: nothing is claimed of the half-emitted block that an exception leaves behind (the model throws before it changes anything), or where callbacks change registers or memory during exploration.
- PageExploration.ExploreOnPages: the pages are driven by the accesses of the explored terms; that reading terms back from pages would resolve the same addresses is not claimed.
- Explorer.Cpu.constructor: the entry block is empty; the set-up code that src/arch/arch.cpp emits before the loop is not part of this model.
- CFG recovery joins paths that reach one program counter without joining their symbolic states, so meaning preservation is claimed for symbolic exploration only.
- CFG recovery that specialises by path looks up VPC but records by PC (src/arch/arch.cpp:244, 367); nothing is claimed for that combination. VCFG recovery that merges by VPC is not modelled.
- Recovery.RecoverVcfg: says nothing about termination, because callbacks decide VPC and a run may go on for ever.
- Memory.MemPage.WriteValue: widths are whole bytes below 256 bytes, as the 8-bit size in the code needs; the cached extraction of a cell (`extracted_cache`), which is never stored back, has no effect and is not modelled.
- Memory.MemPage.Read: reads of at least one whole byte.
- SymbolicAccess.StoreSymEval: values of at most 64 bits, as the machine's four sizes of access are; `Memory.MemPage.WriteValue` has the wider ones.
- Accesses under constraints that no input satisfies, beyond what is stated (a store does nothing, a load gives a symbol named after its address), `resolve_ite` and `normalize_ite`.
- Instruction fetch versus data accesses at low addresses: fetch uses the global page, data accesses below 16384 the stack page, and no agreement is claimed, in the machine of the model or in the code.
- Snapshots.SharedMemory.Write: only the overlay is shared and captured; the image of a page is loaded when the page is made and is outside snapshots, as in the code.
- Scalarizer.Scalarize: whole-byte integer types; the operand of an access is a value computed earlier; addresses wrap at 2^64.
- Concretizing.Concretize: that the executor's literal for an instruction the run executes is its value on some run from the same entry state is a hypothesis (`LiteralsSeen`), as is that no behaviour depends on an operand without a value.
- Layout.FixRelocations: fields inside the code are a precondition, because the code writes them without a bounds check; parsing, segments, program headers and writing the file are not modelled.
- Intrinsics beyond fshl, fshr, bswap, cttz, ctlz and ctpop, and the operator visitors: one-line wrappers over solver operations.
- `src/passes/loop_reroll.cpp` (marked as not to be used), `src/passes/state_cleanup.cpp` (matches accesses by shape and offset only), `src/passes/state2alloca.cpp`, `src/arch/amd64.cpp`, the pass manager, builder, command line, logging and file input and output.
