# A verified model of the symbolic RISC-V virtual prototype

SPS-VP runs firmware for RV32 on a virtual prototype whose processor computes with concolic values, and explores
the firmware's paths by negating the branches that runs have recorded. This project models the parts that this
exploration rests on and proves what they promise together.

| module | models |
|---|---|
| `Sets`, `BitVectors`, `Expr` | the size of a subset, bit vectors of any width, and the expressions of KLEE with their value under an assignment of the symbolic inputs |
| `Constraints`, `CreateRules` | KLEE's constraint manager, and the rules by which KLEE builds another term than the plain one |
| `ExecutionTree`, `Tracing`, `PathSearch`, `Completeness`, `Solver`, `Engine` | clover's execution tree as a value and on the heap, the search for a new path, and the exploration from the first run to exhaustion at one packet count after the other |
| `Concolic`, `Memory`, `Context` | concolic values, the byte memory, and the inputs of a run |
| `Rv32`, `Terms`, `RvArithmetic`, `Iss` | RV32IM on integers as a reference, the terms that instructions build, and the instruction set simulator |
| `Firmware` | the simulator as the guest of the path search |
| `IndexTerms`, `SelectChain`, `ArrayRewrite` | KLEE's two rewrites of reads from constant arrays |
| `Bencode`, `Format` | the encoding of packet descriptions, and the input made of them |
| `Exploration` | the driver of bounded exploration, branch coverage and the pools of partial paths |
| `Mmu` | Sv32 address translation and its cache |
| `LrSc` | load-reserved and store-conditional over the bus lock |
| `Slip` | the SLIP device |

## Main results

- **Soundness of a run** (`Iss.SamePath`): every input that satisfies the branches recorded in one run, and agrees
  with it where addresses and jump targets were made concrete, drives an integer RV32IM machine through the same
  instructions to the values of the run's symbolic state. Where these were concrete to begin with the branches alone
  decide.
- **Completeness of the search** (`Completeness.AllLengthsComplete`, `Engine.ExploreLengths`): with each packet count
  up to m searched to exhaustion, and what was stopped at one count replayed at the next, every path of up to m
  packets that an admissible input can take has been run, of software that may go on taking packets for ever. The
  second states it of the imperative engine over heap nodes, from the constraint manager up, together with its
  termination; at packet count one it also runs no path twice (`Engine.ExploreAll`).
- **Firmware** (`Firmware.FirmwareIsGuest`, `Firmware.FirmwareExplored`): the two results joined. The branch that
  firmware meets after a history of decisions is a function of that history, so that exploring it as a guest to
  exhaustion runs whatever it can decide, after any number of instructions, on any admissible input.
- **Constraint sets** (`Constraints.ConstraintManager.AddConstraint`): the new set means the old one and the
  constraint under every assignment, and the mutual recursion ends. `CreateRules` shows that the rules by which KLEE
  itself rebuilds terms are among those it ends for.
- **Bencode** (`Bencode.Decode`, `Bencode.RoundTrip`): the decoder with its own stack of pointers equals recursive
  descent on every input, and inverts the encoder in front of any further input.
- **Translation** (`Mmu.MMU.Serve`): any run of translations, stores beside the page tables, flushes and privilege
  changes is answered as without a cache, for physical addresses below 2^32, and `Mmu.HitAgrees` makes that bound
  exact. `Mmu.TranslatesIff` ties the walk to a reference without a loop.
- **Atomicity** (`LrSc.Exclusive`, `LrSc.ReleasedWithinSixteen`): for any number of harts and any interleaving.
- **Bounded exploration** (`Exploration.Driver.ExplorePaths`): an explicit bound on the number of runs.
- **Array rewrites** (`SelectChain.BuildConstantSelect`, `ArrayRewrite.Rewrite`), **SLIP** (`Slip.RoundTripIff`) and
  **packet input** (`Format.GetInput`, `Format.Reader.ReadAll`).

Where the code does not do what one might expect, it is modelled as it is, with a lemma that shows the case and one
that says exactly when it does not arise:

- `ConcolicValue::select` forgets a symbolic arm if its condition is concrete (`Concolic.SelectForgets`, `SelectMeaning`).
- A jump to a symbolic target is not recorded as a branch (`Firmware.SymbolicJumpParts`, `Iss.JalrFollowedIff`).
- A branch to a misaligned address traps before it is recorded (`Firmware.UnrecordedBranchParts`,
  `Iss.UnrecordedFollowedIff`).
- A variable requested twice in one run gets a random value the second time (`Context.AskedTwice`, `RequestGets`).
- A translation cache hit keeps 32 bits of the physical address (`Mmu.HighPageDiffers`, `HitAgrees`).
- A store into a page table leaves stale entries in the cache until a flush (`Mmu.StaleEntry`, `StoreBeside`).
- The reservation is compared as an object, not as a number (`LrSc.SpuriousFailure`, `SucceedsIffReserved`).
- The select chain compares indices as signed numbers (`SelectChain.LargeArrayMissed`, `PickedIsElement`).
- The range test rounds solutions to elements if there are several (`ArrayRewrite.ListedIsMembership`).
- The inversion flag of the range tests is shared by all arrays of an expression (`ArrayRewrite.SolutionHidden`,
  `RightIff`).
- A SLIP packet with an escape byte before an escaped one's stand-in is garbled, and an empty one is dropped
  (`Slip.PacketGarbled`, `RoundTripIff`).
- The exploration does not end if the maximal packet count is zero, which is intended, or the greatest number of its
  type (`Exploration.EndsExactlyIf`).

## Reading the model

- A bit vector is a sequence of bits, the least significant one first. An assignment gives each byte of each symbolic
  variable; expressions have a value under every assignment, and a concolic value is its constant together with an
  optional expression.
- The solver is any sound and complete decision procedure, `rand` and the scheduler are arbitrary, and the guest of the
  path search is any deterministic decision tree over the inputs.
- `ExprBuilder` and the `create` functions build the plain term. In the constraint manager, what rebuilds a term after
  its children changed is any function that keeps the value and the width and does not add weight.
- What the simulator uses the constant of without recording a constraint, an address, the base of a jump target or the
  condition of a branch that traps, is kept in `pins`.
- `ok` is false where an assertion of the source would fail.

## Model

| member | source | states |
|---|---|---|
| `Constraints.VisitMeaning` | vp/src/symex/clover/klee/lib/Expr/Constraints.cpp:31-70 | Replacing subterms bottom-up keeps the value under every assignment for which each replacement is equal to what it replaces, in the visitor that also looks before descending and in the one that does not. |
| `Constraints.EqualitiesSound` | vp/src/symex/clover/klee/lib/Expr/Constraints.cpp:97-112 | Where a constraint set holds, every replacement that `simplifyExpr` derives from it is between equal values, those for constraints that are no equality with a constant included. |
| `Constraints.SimplifyExpr` | vp/src/symex/clover/klee/lib/Expr/Constraints.cpp:91-115 | The result has the same width, is no heavier, and has the same value under every assignment that satisfies the constraints. |
| `Constraints.ConstantAdded` | vp/src/symex/clover/klee/lib/Expr/Constraints.cpp:121-124 | Adding the constant true changes nothing, and any other constant makes the set unsatisfiable. |
| `Constraints.RewriteStep` | vp/src/symex/clover/klee/lib/Expr/Constraints.cpp:77-86 | A constraint rewritten by an equality may replace the original one in any set that has the equality; one that cannot be added shows that the original set and the equality have no model. |
| `Constraints.ConstraintManager.RewriteConstraints` | vp/src/symex/clover/klee/lib/Expr/Constraints.cpp:72-89 | With the equality, the rewritten set is equivalent to the old one under every assignment; its total weight does not grow; a failed assertion shows there is no model; and without a change the set is as it was. |
| `Constraints.ConstraintManager.AddConstraintInternal` | vp/src/symex/clover/klee/lib/Expr/Constraints.cpp:117-155 | The set becomes equivalent to its conjunction with the constraint; the mutual recursion with `rewriteConstraints` ends because the total weight falls; the assertion fails only if there is no model. |
| `Constraints.ConstraintManager.AddConstraint` | vp/src/symex/clover/klee/lib/Expr/Constraints.cpp:157-160 | Under every assignment the new set means the old one and the constraint, and the assertion about a false constraint cannot fail if some assignment satisfies both. |
| `CreateRules.FoldsTransitive` | vp/src/symex/clover/klee/lib/Expr/Expr.cpp:1100-1105 | Rules applied one after the other, as the `create` functions call each other, keep the value and add no weight. |
| `CreateRules.NotOr` | vp/src/symex/clover/klee/lib/Expr/Expr.cpp:1100-1105 | The negation of a disjunction as the conjunction of the negations: same value under every assignment, and no heavier, so that the rewriting ends with this rule. |
| `CreateRules.NotNot` | vp/src/symex/clover/klee/lib/Expr/Expr.cpp:1090-1099 | A negation of a negation removed, in the same sense. |
| `CreateRules.NotEqual` | vp/src/symex/clover/klee/lib/Expr/Expr.cpp:1161-1164 | An inequality as the negation of the equation, in the same sense. |
| `CreateRules.AtLeast` | vp/src/symex/clover/klee/lib/Expr/Expr.cpp:1169-1171 | Operands exchanged for the other comparison, in the same sense. |
| `CreateRules.SelectTrue` | vp/src/symex/clover/klee/lib/Expr/Expr.cpp:603-605 | A selection of true or a condition is a disjunction, in the same sense. |
| `CreateRules.SelectFalse` | vp/src/symex/clover/klee/lib/Expr/Expr.cpp:606-608 | A selection of false or a condition is a conjunction with the negation, in the same sense. |
| `CreateRules.SelectElseTrue` | vp/src/symex/clover/klee/lib/Expr/Expr.cpp:609-611 | A selection with true as the other arm, in the same sense. |
| `CreateRules.SelectElseFalse` | vp/src/symex/clover/klee/lib/Expr/Expr.cpp:612-614 | A selection with false as the other arm, in the same sense. |
| `CreateRules.UltConditions` | vp/src/symex/clover/klee/lib/Expr/Expr.cpp:1180-1187 | Unsigned comparison of single bits, in the same sense. |
| `CreateRules.UleConditions` | vp/src/symex/clover/klee/lib/Expr/Expr.cpp:1189-1195 | Unsigned comparison of single bits, in the same sense. |
| `CreateRules.SltConditions` | vp/src/symex/clover/klee/lib/Expr/Expr.cpp:1197-1203 | Signed comparison of single bits, where true is the lesser, in the same sense. |
| `CreateRules.SgeConditions` | vp/src/symex/clover/klee/lib/Expr/Expr.cpp:1176-1211 | Signed comparison of single bits, with its operands exchanged, in the same sense. |
| `CreateRules.ShiftConditions` | vp/src/symex/clover/klee/lib/Expr/Expr.cpp:956-970 | Logical shifts of single bits, in the same sense. |
| `CreateRules.ExtractHigh` | vp/src/symex/clover/klee/lib/Expr/Expr.cpp:687-688 | Extraction from the high part of a concatenation, in the same sense. |
| `CreateRules.ExtractLow` | vp/src/symex/clover/klee/lib/Expr/Expr.cpp:691-692 | Extraction from the low part of a concatenation, in the same sense. |
| `CreateRules.ExtractAcross` | vp/src/symex/clover/klee/lib/Expr/Expr.cpp:694-696 | Extraction across the border of a concatenation, which doubles the operator, in the same sense. |
| `ExecutionTree.AddBranchShape` | vp/src/symex/clover/trace.cpp:49-78 | Adding a branch keeps the tree closed under prefixes, with placeholders exactly where there are no children. |
| `ExecutionTree.RecordAt` | vp/src/symex/clover/trace.cpp:49-88 | After a run was recorded the tree has the old paths and the prefixes of the new one; old branches keep their entries, and new ones are those of the program. |
| `ExecutionTree.RecordKeepsShape` | vp/src/symex/clover/trace.cpp:49-88 | Recording a whole run keeps the shape of the tree. |
| `ExecutionTree.RecordKeepsCopy` | vp/src/symex/clover/trace.cpp:49-88 | The tree stays a pruned copy of the decision tree of the program. |
| `ExecutionTree.ReachesIsFollows` | vp/src/symex/clover/trace.cpp:112-122 | The conditions stored along a path hold for exactly the inputs that the program takes along it, also for a child that is not in the tree. |
| `ExecutionTree.UntakenMissing` | vp/src/symex/clover/node.cpp:61-68 | The side that a selected branch is negated to is its missing child, and the other child exists. |
| `ExecutionTree.NegateShrinks` | vp/src/symex/clover/trace.cpp:126-128 | Marking a branch as negated lowers the number of branches that are not. |
| `ExecutionTree.NegateSettles` | vp/src/symex/clover/trace.cpp:126-129 | If every missing child below a negated branch is infeasible, that still holds of all other branches after one more is marked. |
| `PathSearch.FollowsUnique` | vp/src/symex/clover/trace.cpp:49-78 | One input decides one way: of two paths that it takes, the shorter is a prefix of the longer. |
| `PathSearch.RunPasses` | vp/src/symex/symbolic_context.cpp:98-102 | A run passes every branch that its input leads to within the number of packets it may process. |
| `PathSearch.RoundWithoutModel` | vp/src/symex/clover/trace.cpp:140-150 | A round of the search without a model settles the branch it selected and leaves fewer branches to negate. |
| `PathSearch.RoundWithModel` | vp/src/symex/clover/trace.cpp:140-153 | The round with a model ends the search with inputs that reach the missing child of the selected branch; all other branches are as settled as before. |
| `PathSearch.FoundRunIsNew` | vp/src/symex/clover/trace.cpp:103-133 | The run on a found assignment follows the selected prefix, takes exactly the missing child, and all that it adds lies below that child. |
| `PathSearch.NextKeepsInv` | vp/src/symex/symbolic_explore.cpp:300-336 | Replaying, exploring, also with a run of more packets than were searched for, and finding nothing each keep the invariant of the exploration: a pruned copy of the program, every path of it feasible, every leaf the end of a run, every negated branch settled. |
| `PathSearch.InvHolds` | vp/src/symex/symbolic_explore.cpp:300-336 | The invariant holds in every state of every exploration. |
| `PathSearch.ExploredRunsAreNew` | vp/src/symex/clover/context.cpp:42-50 | In every exploration, each run on a found assignment takes a path that no earlier run took. |
| `PathSearch.WhereRunsLeave` | vp/src/symex/clover/trace.cpp:135-154 | When the search at packet count k finds nothing, a run of an admissible input that leaves the tree does so at a branch first met with fewer than k packets, or where a run was stopped by its packet limit, after a branch met with fewer than k packets. |
| `PathSearch.ExhaustionIsComplete` | vp/src/symex/clover/trace.cpp:135-154 | When, in any exploration, the search at packet count one finds nothing, every path that an input within the assumptions can take has been run. |
| `Completeness.ShorterRun` | vp/src/symex/symbolic_context.cpp:98-102 | The run of an input with fewer packets is a beginning of its run with more. |
| `Completeness.CompleteNext` | vp/src/symex/clover/trace.cpp:135-154 | If a tree has all paths of one packet less, nothing stopped is pending within k packets and no branch is eligible at k, then it has all paths of k packets. |
| `Completeness.PendingHolds` | vp/src/symex/symbolic_explore.cpp:322-335 | While runs of k packets are replayed and found, what is pending within k packets was stopped before and has not been replayed yet: new runs add nothing to it. |
| `Completeness.StageCompletes` | vp/src/symex/symbolic_explore.cpp:301-340 | From one exhausted search to the next: if all paths of one packet less had been run and what was stopped is replayed, then all paths of k packets have been run. |
| `Completeness.AllLengthsComplete` | vp/src/symex/symbolic_explore.cpp:295-340 | In any exploration in which each count up to m was searched to exhaustion, and what was stopped at one count was replayed at the next, every path of up to m packets that an input within the assumptions takes has been run. |
| `Solver.EvalDependsOnNames` | vp/src/symex/clover/solver.cpp:55-59 | The value of an expression depends only on the arrays that are collected from it. |
| `Solver.GetAssignment` | vp/src/symex/clover/solver.cpp:48-73 | With a sound and complete decision procedure: values for the arrays of the query under which it holds whatever the others contain, or nothing if no input satisfies it. |
| `Tracing.NodeTree.AddBranch` | vp/src/symex/clover/trace.cpp:49-78 | On the heap: the nodes reachable from the root are, path by path, the tree with the branch added; it says whether the node was a placeholder, and the cursor moves to the child. |
| `Tracing.NodeTree.RandomUnnegated` | vp/src/symex/clover/node.cpp:25-72 | For every random choice: it succeeds exactly if the subtree has an eligible branch; then the elements of the way to one without an eligible descendant are appended, and otherwise the path is restored. |
| `Tracing.NodeTree.CheckBranch` | vp/src/symex/clover/node.cpp:8-9 | One side of a node: on success the element pushed for the node is patched, on failure the path is as it was. |
| `Tracing.NodeTree.MarkNegated` | vp/src/symex/clover/trace.cpp:128 | The shared branch is marked, which changes the tree at its path and nowhere else. |
| `Tracing.NodeTree.ElementsHold` | vp/src/symex/clover/node.cpp:37-68 | The conditions collected on a path hold for exactly the inputs that reach its end. |
| `Tracing.Trace.Reset` | vp/src/symex/clover/trace.cpp:42-47 | The constraints of the run are dropped and the next one starts at the root; the tree stays. |
| `Tracing.Trace.Assume` | vp/src/symex/clover/trace.cpp:90-94 | The assumptions become equivalent to the old ones and the constraint, and the assertion about a false one cannot fail if some input satisfies all. |
| `Tracing.Trace.Add` | vp/src/symex/clover/trace.cpp:80-88 | The branch is recorded in the tree, and the constraints of the run become equivalent to the old ones and the decision. |
| `Tracing.Trace.PrefixConstraints` | vp/src/symex/clover/trace.cpp:106-122 | The constraints collected hold for exactly the inputs within the assumptions that decide as the path says. |
| `Tracing.Trace.NewQuery` | vp/src/symex/clover/trace.cpp:103-133 | The models of the query are exactly the inputs within the assumptions that follow the prefix and decide the last branch the other way; the branch is marked. |
| `Tracing.Trace.FindNewPath` | vp/src/symex/clover/trace.cpp:135-154 | The loop ends because each round marks a branch. What it finds leads to a missing child, and finding nothing means that no branch is eligible, every one that was being settled. |
| `Engine.TraceBranch` | vp/src/core/rv32/iss.h:272-278 | The decision of one branch is recorded in the tree and in the constraints of the run. |
| `Engine.RunGuest` | vp/src/symex/symbolic_explore.cpp:229-259 | One concolic run, which is stopped after k packets if the software goes on: the tree records its path, and the constraints collected hold for exactly the inputs that take the same path. |
| `Engine.RecordedPathsAdmissible` | vp/src/symex/clover/trace.cpp:103-133 | In a tree all of whose paths are taken by admissible inputs, building a query never fails an assertion of the constraint manager. |
| `Engine.ExploreNext` | vp/src/symex/symbolic_explore.cpp:305-312 | One search and the run on what it found: a path that was not run before is run, its input is pooled for the next packet count, and fewer paths are left; or every path of k packets has been run. |
| `Engine.ExploreLength` | vp/src/symex/symbolic_explore.cpp:304-313 | The search at one packet count: it ends, each run takes a path not run before, every path of k packets is run, and the inputs of this count are pooled for the next. |
| `Engine.ExploreAll` | vp/src/symex/symbolic_explore.cpp:301-313 | From the first run to exhaustion, at packet count one: the engine ends, no path is run twice, and every path that an input within the assumptions takes is run. |
| `Engine.ReplayAll` | vp/src/symex/symbolic_explore.cpp:322-335 | All pooled inputs are run again with one packet more, after which nothing that was stopped is pending. |
| `Engine.ExploreLengths` | vp/src/symex/symbolic_explore.cpp:295-340 | The engine at the packet counts up to m ends, and every path of each count up to m that an input within the assumptions takes has been run, of software that may take packets for ever. |
| `Concolic.BinaryMeaning` | vp/src/symex/clover/concolic.cpp:7-25 | Each binary operator commutes with taking the value under any assignment. |
| `Concolic.UnaryMeaning` | vp/src/symex/clover/concolic.cpp:64-126 | Complement, extraction and both extensions commute with taking the value under any assignment. |
| `Concolic.SelectMeaning` | vp/src/symex/clover/concolic.cpp:128-149 | A selection has the value of the arm its condition chooses exactly if the condition is symbolic or that arm still has its constant as its value. |
| `Concolic.SelectForgets` | vp/src/symex/clover/concolic.cpp:141-148 | A selection by a constant condition between symbolic arms for which the meaning is lost. |
| `Memory.StoredByteAt` | vp/src/symex/clover/memory.cpp:51-61 | Under every assignment a store changes exactly the bytes within its reach, to the bytes of the value, the least significant one first. |
| `Memory.LoadedByte` | vp/src/symex/clover/memory.cpp:18-42 | Each byte of a load comes from its own address, modulo the size of the address space. |
| `Memory.LoadValueMeaning` | vp/src/symex/clover/memory.cpp:18-42 | The concatenation of concolic bytes that a load builds has, under every assignment, the bytes of the memory. |
| `Memory.LoadAfterStore` | vp/src/symex/clover/memory.cpp:18-61 | What was stored is loaded: the low bits of the value, with zeros above a narrower one. |
| `Memory.MostRecentByte` | vp/src/symex/clover/memory.cpp:51-61 | After any sequence of stores, of any sizes and however they overlap, each byte is that of the most recent store that reached it. |
| `Memory.ConcolicMemory.Load` | vp/src/symex/clover/memory.cpp:18-42 | Under every assignment the value is that of the byte map, and its constant is right for the inputs of the run; nothing is loaded for no bytes. |
| `Memory.ConcolicMemory.Store` | vp/src/symex/clover/memory.cpp:51-61 | The byte map becomes the one with the widened value stored. |
| `Terms.BuildMeaning` | vp/src/core/rv32/iss.cpp:248-709 | What an instruction builds from two registers has, under every assignment, the value that its term gives the values of the registers. |
| `Terms.BuildConcrete` | vp/src/core/rv32/iss.cpp:248-709 | The result is concrete exactly if the registers that the term uses are. |
| `RvArithmetic.AluValue` | vp/src/core/rv32/iss.cpp:248-322 | The terms of all register and immediate instructions compute RV32I on integers, shifts by the low five bits included. |
| `RvArithmetic.BranchValue` | vp/src/core/rv32/iss.cpp:394-458 | The branch conditions are the comparisons of RV32I. |
| `RvArithmetic.MulValue` | vp/src/core/rv32/iss.cpp:584-626 | The products of 64 bits and their halves are those of RV32M for all mixtures of signs. |
| `RvArithmetic.DivValue` | vp/src/core/rv32/iss.cpp:628-709 | Division and remainder are those of RV32M, by zero and for the overflowing quotient too. |
| `Iss.WordsWritten` | vp/src/core/rv32/iss.cpp:102-110 | Under every assignment, a register written is a register of the integer machine written; register zero stays. |
| `Iss.ReadCells` | vp/src/core/rv32/mem.h:204-214 | Under every assignment a load reads the little-endian integer of the byte memory. |
| `Iss.WriteCells` | vp/src/core/rv32/mem.h:193-203 | Under every assignment a store writes the bytes of the integer. |
| `Iss.TrackHolds` | vp/src/core/rv32/iss.h:272-278 | The recorded decisions hold for exactly the inputs that decide the new condition as the run did, and all earlier ones. |
| `Iss.AdvancedRight` | vp/src/core/rv32/iss.cpp:1984-2022 | The step as a function of the state is right for every instruction, trap and consistent input. |
| `Iss.JalrFollowedIff` | vp/src/core/rv32/iss.cpp:339-347 | The jump target is made concrete without a constraint: an input follows the jump exactly if it computes the same target. |
| `Iss.UnrecordedFollowedIff` | vp/src/core/rv32/iss.cpp:394-458 | A taken branch to a misaligned address traps before it is recorded: of all inputs exactly those trap with it that take the branch. |
| `Iss.ISS.TrackBranch` | vp/src/core/rv32/iss.h:272-278 | A symbolic condition is recorded with its direction, and a concrete one is not. |
| `Iss.ISS.ExecAlu` | vp/src/core/rv32/iss.cpp:248-322 | One instruction of the integer machine for every input consistent with what is recorded. |
| `Iss.ISS.ExecMul` | vp/src/core/rv32/iss.cpp:584-626 | As for the arithmetic instructions. |
| `Iss.ISS.ExecDiv` | vp/src/core/rv32/iss.cpp:628-709 | The test for a zero divisor is recorded as a branch, and with it the quotient is right for every consistent input. |
| `Iss.ISS.ExecConstant` | vp/src/core/rv32/iss.cpp:324-330 | `LUI` and `AUIPC` are those of the integer machine for every input. |
| `Iss.ISS.ExecJal` | vp/src/core/rv32/iss.cpp:332-337 | `JAL`, or its trap for a misaligned target without compressed instructions, is that of the integer machine for every input. |
| `Iss.ISS.ExecJalr` | vp/src/core/rv32/iss.cpp:339-347 | With the register of the target pinned to its constant, the jump or its misaligned trap is that of the integer machine. |
| `Iss.ISS.ExecBranch` | vp/src/core/rv32/iss.cpp:394-458 | The recorded decision makes every consistent input take the same way; a misaligned trap, before which nothing is recorded, is that of the integer machine with the condition pinned. |
| `Iss.ISS.ExecLoad` | vp/src/core/rv32/iss.cpp:366-392 | With the address pinned, the load or its misaligned trap is that of the integer machine. |
| `Iss.ISS.ExecStore` | vp/src/core/rv32/iss.cpp:349-364 | With the address pinned, the store or its misaligned trap is that of the integer machine. |
| `Iss.ISS.RunStep` | vp/src/core/rv32/iss.cpp:1984-2022 | One step, of any modelled instruction, is one step of the integer machine for every consistent input, or its trap; the new state is that of `Advanced`. |
| `Iss.ISS.Run` | vp/src/core/rv32/iss.cpp:2024-2033 | The states passed through form a run of such steps, up to a trap. |
| `Iss.SamePath` | vp/src/core/rv32/iss.cpp:240-709 | Every input that satisfies what a run has recorded drives the integer machine through the same program counters, and its registers and memory at each step are the evaluation of the symbolic state there. |
| `Iss.OwnInputConsistent` | vp/src/core/rv32/iss.cpp:240-709 | The input of the run is one of these, and the constants are its values. |
| `Iss.ConcreteAddressesSuffice` | vp/src/core/rv32/iss.cpp:240-709 | Where all addresses and jump targets were concrete, the recorded branches alone decide. |
| `Firmware.AdvancedAlike` | vp/src/core/rv32/iss.cpp:240-709 | Two states with the same expressions, whatever their constants, make steps that record the same condition; decided the same, the states have the same expressions again; and they trap together. |
| `Firmware.Lockstep` | vp/src/core/rv32/iss.cpp:2024-2033 | Another input that satisfies what a run has recorded runs in step with it, from its own constants, through states with the same expressions. |
| `Firmware.BranchUnique` | vp/src/core/rv32/iss.h:272-278 | The condition recorded after a history of decisions, and the step at which it is, are the same for all inputs that make these decisions. |
| `Firmware.FirmwareIsGuest` | vp/src/symex/symbolic_explore.cpp:229-259 | The runs of firmware from one start state, with concrete addresses and jump targets, are those of a deterministic decision tree, as the path search takes its guest to be. |
| `Firmware.DecidesAsGuest` | vp/src/symex/symbolic_explore.cpp:229-259 | What the firmware decides on an input, within any number of instructions, this tree decides. |
| `Firmware.GuestDecides` | vp/src/symex/symbolic_explore.cpp:229-259 | What the tree decides on an input, the firmware decides after some number of instructions. |
| `Firmware.FirmwareExplored` | vp/src/symex/symbolic_explore.cpp:301-313 | If all paths of the guest have been run, then whatever decisions the firmware makes, after any number of instructions on any admissible input, begin a path that was run. |
| `Firmware.SymbolicJumpParts` | vp/src/core/rv32/iss.cpp:339-347 | A jump to a symbolic target, and two inputs that both satisfy what was recorded: one follows the jump, the other does not. |
| `Firmware.UnrecordedBranchParts` | vp/src/core/rv32/iss.cpp:394-402 | A branch to a misaligned address, and two inputs that both satisfy what was recorded: one traps, the other goes on. |
| `Context.RequestGets` | vp/src/symex/clover/include/clover/clover.h:284-300 | A request gets the prepared value exactly if there is one and no earlier request of the run had the name; otherwise a random one. |
| `Context.LastHas` | vp/src/symex/clover/include/clover/clover.h:298 | If names are requested once, the store of the run has what each was answered. |
| `Context.Replayed` | vp/src/symex/clover/context.cpp:14-40 | Preparing a run with the store of an earlier one answers the same requests with the same values, whatever the random numbers and whatever was left from before. |
| `Context.AskedTwice` | vp/src/symex/clover/include/clover/clover.h:289-300 | A name requested twice: the second answer is random and replaces the first in the store. |
| `Context.FromBytesByte` | vp/src/symex/clover/intval.cpp:39-60 | The number made of the bytes of a variable has these bytes, the least significant one first. |
| `Context.EvalSameBytes` | vp/src/symex/clover/trace.cpp:163-176 | An expression depends only on the bytes, modulo 256, within the sizes of its variables. |
| `Context.RunFollowsAssignment` | vp/src/symex/clover/context.cpp:42-50 | A run that requests each variable once, and those of the assignment among them, has inputs that satisfy the query for which the assignment was found. |
| `Context.VariableInstance` | vp/src/symex/clover/solver.cpp:96-109 | A named value reads, under the inputs of the run, as its constant. |
| `Context.ExecutionContext.SetupNewValues` | vp/src/symex/clover/context.cpp:27-40 | The store is merged over what earlier runs left, and the store of the last run is cleared. |
| `Context.ExecutionContext.FindRemoveOrRandom` | vp/src/symex/clover/include/clover/clover.h:284-300 | The state and the answer are those of one request. |
| `Context.ExecutionContext.GetSymbolic` | vp/src/symex/clover/context.cpp:52-57 | The value is the variable, and its constant is right for the inputs of the run. |
| `Context.ExecutionContext.GetSymbolicBytes` | vp/src/symex/clover/context.cpp:63-80 | For every input, byte i is the variable of that byte; for the inputs of the run the whole value is its constant; prepared bytes are used. |
| `Bencode.DecodeDigits` | vp/src/symex/bencode.hpp:315-363 | The value of the leading digits if there are at most one more than always fit and it fits, without an overflow on the way; an error otherwise and at the end of input. |
| `Bencode.OverflowsMeans` | vp/src/symex/bencode.hpp:288-313 | The check before the last digit is exactly that the number is outside the range of its type. |
| `Bencode.DecodeInt` | vp/src/symex/bencode.hpp:365-385 | Agrees with the reference reading of integers. |
| `Bencode.DecodeStr` | vp/src/symex/bencode.hpp:387-447 | Agrees with the reference reading of strings, read one byte at a time. |
| `Bencode.DecodeValue` | vp/src/symex/bencode.hpp:509-521 | After the dispatch on the first byte, what remains to be read gives the result that recursive descent would; a duplicate key is an error. |
| `Bencode.Decode` | vp/src/symex/bencode.hpp:449-526 | On every input the decoder with its own stack returns what recursive descent reads, and stops at the same place. |
| `Bencode.RoundTrip` | vp/src/symex/bencode.hpp:669-741 | For every value and every further input, reading what was written gives the value and stops exactly at that input. |
| `Bencode.EncodingUnique` | vp/src/symex/bencode.hpp:669-741 | Two encodings that begin the same input are of the same value. |
| `Bencode.ReadValid` | vp/src/symex/bencode.hpp:450-526 | Whatever is accepted has integers in range and dictionaries with distinct keys in order. |
| `Mmu.TranslatesIff` | vp/src/core/common/mmu.h:176-262 | A walk translates exactly if the address has a leaf at one of the two levels that permits the access in the mode, is aligned and, where flags are not written back, has them set; then to the leaf's page with the low 12 or 22 bits of the address, and the one word written is the leaf with its flags. |
| `Mmu.WalkUnaffected` | vp/src/core/common/mmu.h:187-262 | With flags written back, setting accessed and dirty flags anywhere changes the outcome of no walk, for any address, access and mode, page tables that map themselves included; a walk that had nothing to write still has not. |
| `Mmu.WalkAgain` | vp/src/core/common/mmu.h:242-262 | A successful walk repeated has the same outcome and writes nothing. |
| `Mmu.SamePage` | vp/src/core/common/mmu.h:189-261 | Two addresses of one page are translated to one page or have the same fault, and the same flags are written. |
| `Mmu.FaultingWritesNothing` | vp/src/core/common/mmu.h:244-246 | With faults on missing flags a walk writes nothing. |
| `Mmu.HitAgrees` | vp/src/core/common/mmu.h:135-136 | A hit gives the low 32 bits of what a walk gives, and so agrees with it exactly if the physical address is below 2^32. |
| `Mmu.HighPageDiffers` | vp/src/core/common/mmu.h:141 | A page at 2^32 that the walk and the hit after it translate differently. |
| `Mmu.FilledBacked` | vp/src/core/common/mmu.h:138-142 | The entry made after a walk is backed by the page tables as the walk leaves them. |
| `Mmu.BackedKept` | vp/src/core/common/mmu.h:242-254 | A walk for any address, access and mode keeps every entry backed. |
| `Mmu.StoreBeside` | vp/src/core/common/mmu.h:187-262 | A store outside the root table and the tables it leads to changes the outcome of no walk, and the two write independently. |
| `Mmu.BackedBeside` | vp/src/core/common/mmu.h:112-145 | Such a store keeps every entry of the cache backed. |
| `Mmu.StaleEntry` | vp/src/core/common/mmu.h:108-145 | A store into a page table after which a cached entry would still translate where the walk faults. |
| `Mmu.MMU.FlushTlb` | vp/src/core/common/mmu.h:108-110 | After a flush the cache is coherent with any page tables and registers. |
| `Mmu.MMU.PageWalk` | vp/src/core/common/mmu.h:176-277 | The loop over the levels has the outcome and the memory of the recursive walk. |
| `Mmu.MMU.Translate` | vp/src/core/common/mmu.h:112-145 | With a coherent cache the outcome, the faults and the flags written are those of a fresh walk, a hit being cut to 32 bits; the cache stays coherent. |
| `Mmu.MMU.Serve` | vp/src/core/common/mmu.h:108-145 | Over any run of translations, stores beside the page tables, flushes and privilege changes, answers and memory are those of the unit without a cache, up to the 32-bit mask. |
| `Mmu.CacheInvisible` | vp/src/core/common/mmu.h:112-145 | Without physical addresses beyond 32 bits the answers of such a run are the same. |
| `LrSc.NextKeepsInv` | vp/src/core/rv32/iss.cpp:1959-1970 | Every step of every hart and peripheral keeps: counters between 0 and 16, the owner of the bus with a counter of at least one unless it is inside an atomic memory operation. |
| `LrSc.InvHolds` | vp/src/core/rv32/iss.cpp:1959-1970 | This holds after any interleaving of any number of harts. |
| `LrSc.HeldBusStopsWrites` | vp/src/platform/common/bus.h:105-158 | While a hart keeps the bus over a step, no hart and no peripheral stores to memory. |
| `LrSc.SucceedsIffReserved` | vp/src/core/rv32/mem.h:320-337 | In any run, a store-conditional with a valid address succeeds exactly if the latest load-reserved of its hart had the same address object and the bus was held ever since. |
| `LrSc.NoStoreSinceReservation` | vp/src/core/rv32/mem.h:193-214 | From a load-reserved to the end of its reservation nothing is stored, and memory is what it was. |
| `LrSc.Exclusive` | vp/src/core/rv32/mem.h:312-340 | A store-conditional that succeeds pairs with the latest load-reserved of its hart, to the same address; nobody stored in between; and its store goes to the memory that the load-reserved saw. |
| `LrSc.SpuriousFailure` | vp/src/core/rv32/mem.h:330 | Addresses are compared as objects: a store-conditional to the reserved address fails if the address is another object. |
| `LrSc.ReleasedWithinSixteen` | vp/src/core/rv32/iss.cpp:711-728 | Over any steps in which a hart completes sixteen instructions, it does not hold the bus all the time. |
| `LrSc.CounterRunsDown` | vp/src/core/rv32/iss.cpp:1965-1970 | While a hart keeps the bus, its counter falls by one with each instruction it completes, and is not set again. |
| `LrSc.OwnerNeverWaits` | vp/src/platform/common/bus.h:130-138 | The hart that has the bus can always go on. |
| `LrSc.System.LoadReserved` | vp/src/core/rv32/iss.cpp:711-718 | The new state, and whether it traps, as in the transition system. |
| `LrSc.System.StoreConditional` | vp/src/core/rv32/mem.h:325-337 | The new state, the trap and the result as in the transition system. |
| `LrSc.System.StoreData` | vp/src/core/rv32/mem.h:193-202 | A store is followed by giving the bus back. |
| `LrSc.System.ReleaseReservation` | vp/src/core/rv32/iss.h:305-308 | The counter is cleared and the bus given back if it was held. |
| `LrSc.System.AmoLoadWord` | vp/src/core/rv32/iss.h:347-357 | The first access of an atomic memory operation takes the bus. |
| `LrSc.System.AmoStoreWord` | vp/src/core/rv32/iss.h:358-361 | The second access stores and gives the bus back, unless it faults. |
| `LrSc.System.Count` | vp/src/core/rv32/iss.cpp:1965-1970 | The counter is lowered, and the reservation released at zero. |
| `LrSc.System.Step` | vp/src/core/rv32/iss.cpp:1984-2022 | One step of a hart is the transition, traps and interrupts included, and keeps the invariant. |
| `Exploration.CoveredAtMost` | vp/src/core/rv32/coverage.cpp:91-105 | At most two directions are covered for each branch instruction. |
| `Exploration.Coverage.CoverBranch` | vp/src/core/rv32/coverage.cpp:78-89 | Coverage grows by the direction taken, at known branches only. |
| `Exploration.Coverage.ExecutedBranches` | vp/src/core/rv32/coverage.cpp:91-105 | The number is that of the directions covered. |
| `Exploration.SymbolicContext.SysProcessedPacket` | vp/src/core/rv32/iss.cpp:1591-1597 | The last packet of the sequence ends the run and puts it into the pool of the next length. |
| `Exploration.SymbolicContext.Receive` | vp/src/symex/symbolic_context.cpp:79-111 | A run is put into the pool of the next length, once, exactly if it processes all packets of its sequence. |
| `Exploration.SymbolicContext.RandomPartial` | vp/src/symex/symbolic_context.cpp:119-133 | One element is taken out of the pool asked for, if it is not empty, and no other pool changes. |
| `Exploration.RunKeepsPools` | vp/src/symex/symbolic_context.cpp:104-111 | Pools hold runs one packet shorter than their own length, each once, and none that was replayed; a run keeps that. |
| `Exploration.TakeKeepsPools` | vp/src/symex/symbolic_context.cpp:119-133 | Taking a run out for a replay keeps that too, and the run has not been replayed before. |
| `Exploration.Driver.IsStuck` | vp/src/symex/symbolic_explore.cpp:271-287 | It says so exactly after fifty calls in a row without a new direction; every other call leaves less patience, which is bounded by the number of branches. |
| `Exploration.Driver.ExplorePath` | vp/src/symex/symbolic_explore.cpp:229-259 | One run covers branches, and feeds the pool of the next length at most once. |
| `Exploration.Driver.Search` | vp/src/symex/symbolic_explore.cpp:304-313 | The search at one length ends after a number of runs bounded by the number of branch instructions, however many paths there are, and feeds the pool of the next length only. |
| `Exploration.Driver.Replay` | vp/src/symex/symbolic_explore.cpp:322-335 | The replays at length k take from pool k and feed pool k + 1 only, or all pools are dropped; none is replayed twice; the number of runs is bounded. |
| `Exploration.Driver.ExplorePaths` | vp/src/symex/symbolic_explore.cpp:289-346 | Bounded exploration ends, after at most (2m - 1)(100B + 50) runs for a maximal length m and B branch instructions, and without an error it has gone through all lengths. |
| `Exploration.EndsExactlyIf` | vp/src/symex/symbolic_explore.cpp:315-317 | Without errors the loop is left exactly if the maximal length is neither zero nor the greatest 32-bit number. |
| `SelectChain.FindRuns` | vp/src/symex/clover/klee/lib/Expr/ArrayExprOptimizer.cpp:450-469 | The ranges are the maximal runs of equal values; the values counted leave out the last element. |
| `SelectChain.RunsCover` | vp/src/symex/clover/klee/lib/Expr/ArrayExprOptimizer.cpp:450-469 | Every index lies in a run. |
| `SelectChain.RunsAreRuns` | vp/src/symex/clover/klee/lib/Expr/ArrayExprOptimizer.cpp:450-469 | The array has the value of a run at each of its indices. |
| `SelectChain.Group` | vp/src/symex/clover/klee/lib/Expr/ArrayExprOptimizer.cpp:476-489 | The map has, for each value, its runs in sequence. |
| `SelectChain.GroupTest` | vp/src/symex/clover/klee/lib/Expr/ArrayExprOptimizer.cpp:499-562 | The disjunction holds for exactly the indices that match one of the runs. |
| `SelectChain.BuildChain` | vp/src/symex/clover/klee/lib/Expr/ArrayExprOptimizer.cpp:491-567 | The chain gives the greatest value one of whose runs matches, and else the least value. |
| `SelectChain.PickedIsElement` | vp/src/symex/clover/klee/lib/Expr/ArrayExprOptimizer.cpp:491-567 | With fewer elements than half of the index range, that is the element at the index. |
| `SelectChain.LargeArrayMissed` | vp/src/symex/clover/klee/lib/Expr/ArrayExprOptimizer.cpp:506-515 | For every size of at least three from half of the range on there is an array whose element at index one is missed: the signed end of its last run is not positive. |
| `SelectChain.ActualIndexValue` | vp/src/symex/clover/klee/lib/Expr/ArrayExprOptimizer.cpp:442-448 | Cutting the index to 32 bits keeps an index that fits. |
| `SelectChain.BuildConstantSelect` | vp/src/symex/clover/klee/lib/Expr/ArrayExprOptimizer.cpp:432-571 | No expression exactly if the share of different values reaches the ratio; otherwise one that has, under every assignment with an index in the array, the value of the element, if the array has less than half of the index range. |
| `ArrayRewrite.RangeTestMeaning` | vp/src/symex/clover/klee/lib/Expr/ArrayExprRewriter.cpp:156-166 | On the index of an element the test of a range is that the element lies in it. |
| `ArrayRewrite.OrChainMeaning` | vp/src/symex/clover/klee/lib/Expr/ArrayExprRewriter.cpp:144-154 | The disjunction of 32 bits is one if a condition holds and zero otherwise. |
| `ArrayRewrite.CombinedMeaning` | vp/src/symex/clover/klee/lib/Expr/ArrayExprRewriter.cpp:125-141 | The combination holds if one of the conditions does or, inverted, if none does, in each of the forms it takes. |
| `ArrayRewrite.Compress` | vp/src/symex/clover/klee/lib/Expr/ArrayExprRewriter.cpp:89-121 | The ranges tested cover exactly the selected elements, the range that reaches the end included. |
| `ArrayRewrite.SomeSelected` | vp/src/symex/clover/klee/lib/Expr/ArrayExprRewriter.cpp:86-88 | Inverted or not, there is an element to test for. |
| `ArrayRewrite.RewriteLookup` | vp/src/symex/clover/klee/lib/Expr/ArrayExprRewriter.cpp:63-121 | The conditions made for one array test, on the index of an element, whether it is listed or, with the flag, whether it is not; the flag is kept, or set by the share of the solutions. |
| `ArrayRewrite.Rewrite` | vp/src/symex/clover/klee/lib/Expr/ArrayExprRewriter.cpp:32-142 | For any number of arrays, each with its index: nothing exactly without solutions, and otherwise a condition that tests, on the indices of any elements, what the flags make of the solutions. |
| `ArrayRewrite.RightIff` | vp/src/symex/clover/klee/lib/Expr/ArrayExprRewriter.cpp:36-142 | The rewritten condition is that some array is read at one of its solutions exactly if at most one array has solutions, or the last flag is not set and either no conditions were made inverted or those of an array all of whose elements are solutions were not. |
| `ArrayRewrite.SolutionHidden` | vp/src/symex/clover/klee/lib/Expr/ArrayExprRewriter.cpp:86-88 | Two arrays for which the shared flag hides a solution. |
| `ArrayRewrite.ListedIsMembership` | vp/src/symex/clover/klee/lib/Expr/ArrayExprRewriter.cpp:80-85 | Being listed is membership in the solutions exactly if the first index of each element that a solution lies in is a solution, as for solutions at the beginning of elements. |
| `Slip.HandleInput` | vp/src/platform/common/slip.cpp:128-149 | The bytes pushed are the packet escaped, and an end mark. |
| `Slip.ReceivedFrames` | vp/src/platform/common/slip.cpp:151-175 | Decoding the frames of any packets gives, for those not empty, what each has become, and an empty buffer. |
| `Slip.GarbledIff` | vp/src/platform/common/slip.cpp:158-167 | A packet arrives as it was exactly if in it no ESC is followed by a byte that stands for an escaped one; any other packet arrives shorter. |
| `Slip.RoundTripIff` | vp/src/platform/common/slip.cpp:128-175 | Decoding the output of the encoder returns the packets exactly if each is clean in this sense and not empty. |
| `Slip.PacketGarbled` | vp/src/platform/common/slip.cpp:158-167 | A packet of two bytes that arrives as one. |
| `Slip.SLIP.SendPacket` | vp/src/platform/common/slip.cpp:115-126 | The packet is written, and the buffer is empty and of one step at least. |
| `Slip.SLIP.WriteData` | vp/src/platform/common/slip.cpp:151-175 | Each byte changes the line as the decoder does, and every access is within the buffer, which grows by steps of 1500. |
| `Slip.SLIP.WriteAll` | vp/src/platform/common/slip.cpp:151-175 | On any stream of bytes. |
| `Format.JoinedBytes` | vp/src/symex/symbolic_format.cpp:183-196 | The bytes of a number, the most significant one first, join to the number. |
| `Format.AlignedFields` | vp/src/symex/symbolic_format.cpp:151-181 | Fields of whole bytes come out one after the other. |
| `Format.ListedBytesComeOut` | vp/src/symex/symbolic_format.cpp:81-149 | Concrete fields of whole bytes come out as the bytes listed, in sequence. |
| `Format.BufferValue` | vp/src/symex/clover/solver.cpp:112-129 | The first byte of the buffer is the most significant one, or the least significant one without the flag. |
| `Format.MakeSymbolic` | vp/src/symex/symbolic_format.cpp:67-79 | For every input the value has the low bits of the variables of its bytes. |
| `Format.ScanElements` | vp/src/symex/symbolic_format.cpp:103-135 | Strings only are constraints of a symbolic value, bytes only are a concrete one, and any mixture is invalid. |
| `Format.GetValue` | vp/src/symex/symbolic_format.cpp:81-149 | A value of the width asked for, or nothing exactly if the list is invalid or has another number of bytes. |
| `Format.GetInput` | vp/src/symex/symbolic_format.cpp:151-181 | For every input the concatenation of the fields, the first being the most significant; nothing exactly if there is no field, one is malformed, or they are not whole bytes together. |
| `Format.Reader.NextByte` | vp/src/symex/symbolic_format.cpp:183-196 | For every input, the bits just below those handed out before; nothing exactly at the end. |
| `Format.Reader.RemainingBytes` | vp/src/symex/symbolic_format.cpp:198-208 | The number of bytes still to come. |
| `Format.Reader.ReadAll` | vp/src/symex/symbolic_format.cpp:183-208 | As many bytes as remained, which are, for every input, those of the rest of the input, the most significant one first. |

## Left out

- The solver chain, the simplifications of `ExprBuilder`, the caches of `ExprVisitor` and the KQuery parser: the first is an oracle and the others build plain terms.
- Constraints.ConstraintManager.AddConstraint: takes it that rebuilding a term keeps its value and adds no weight; `CreateRules` shows this of the rules that make a term larger, and the others, which fold constants or move them within a sum, are not modelled, those that take the divisor of a single bit to be one among them.
- Engine.ExploreLengths: does not give up when stuck; the driver that does is `Exploration.Driver.ExplorePaths`, in which runs and answers are arbitrary.
- Engine.ExploreAll: the assumptions are fixed; those that a run adds, which stop it and start another one, are not modelled, and neither is the exception for assumptions without a model.
- Firmware.FirmwareExplored: the modelled instructions have no system calls, so that a run of firmware is one of packet count one.
- Iss.ISS.RunStep: interrupts and the switch to the trap handler are not modelled; a trap is the result of the step.
- Iss.ISS.Run: stops at the first trap, where the source goes on in the handler.
- Iss.SamePath: the modelled instructions are those of RV32IM, `FENCE` and the traps of misaligned accesses; system calls, CSRs, trap handlers and `ECALL` are not.
- Iss.ISS.RunStep: instructions are given decoded; the decoder tables and the expansion of compressed instructions are not modelled, and neither is the assertion that the program counter is aligned.
- Iss.ISS.ExecLoad: memory is the whole address space; bus decoding, peripherals and their access faults are not modelled.
- Mmu.MMU.Serve: a store into the page tables is part of a flush; what stale entries answer until then is not modelled beyond `Mmu.StaleEntry`.
- Mmu.MMU.Translate: Sv32 only; timing and the modes of RV64 are not modelled, and loads, for which the source asks for the translation of a store, are the caller's concern.
- LrSc.Exclusive: an access, its check of the lock and its release are one step, as without a wait in the bus; identity translation.
- Bencode.Decode: pointers into the value under construction are ways from its root, and all exceptions are one error; the rest of the input is a string, not a stream buffer.
- Exploration.Driver.ExplorePaths: a pool holds which run a store came from, not its values, which are in `Context`.
- ArrayRewrite.Rewrite: one index for each array, as asserted where the solutions are collected; the multiplier that widens elements is given as their width, by which the size is divisible.
- Format.GetValue: constraints are not parsed or assumed, and a field of zero bits, for which the source follows a null pointer, is not allowed.
- Slip.SLIP.WriteData: allocation and writing to the network interface do not fail.
- Context.ExecutionContext.GetSymbolicBytes: asks that prepared bytes are bytes, as the source asserts.
- `buildMixedSelectExpr` and `AssignmentGenerator`: the first reads an element past the end of the array, and the second is a heuristic whose answer is checked again.
- Sockets, ELF files, test case files, signals, timers, threads, the GDB server, the SystemC kernel: I/O and host calls.
- Floating point and RV64: compiled out or not used by the RV32 platform.
- The PLIC, CLINT, UART, SPI, CAN, GPIO and other peripherals: register plumbing with easy properties only.
- Statistics, timeouts and coverage percentages.
