# STOKE: a model and proofs of its validator, analyses, simplifier and search

STOKE searches for fast rewrites of x86-64 code and argues that a rewrite may replace the original. This
project models the parts of that argument that are hard to see from the code and proves them in Dafny:

* **Equivalence by cutpoints** (`Graph`, `Paths`, `Sccs`, `Cutpoints`, `Ddec`, `Simulation`, `Houdini`,
  `JumpInvariants`, `Validator`). The validator runs from the code of two programs to a verdict: programs it accepts
  terminate on the same inputs and end in states that satisfy the exit invariant, and it accepts whenever some choice
  of cutpoints and conjuncts closes the proof. The finiteness test is exact, Tarjan's algorithm is correct, and every
  choice of one cutpoint per loop cuts all loops.
* **Dataflow and dead code** (`Programs`, `Blocks`, `Fixpoint`, `Dataflow`, `Liveness`, `Dominators`, `DeadCode`,
  `Registers`, `CfgTransforms`). The tables say what holds along the paths of the code, the fixed points are exact,
  and so is the summary of a block under a stated condition; removing unreachable instructions preserves meaning, and
  removing redundant ones does when no register is live after an instruction that may undefine it.
* **Symbolic simplifier** (`Bits`, `Terms`, `NormalForms`, `Simplify`). All three passes keep sort and value under
  every assignment (for folded MODs: every assignment for which the fold is right), and the driver terminates on every
  term with a normal form.
* **Code editor and search** (`TUnits`, `Moves`, `Searches`). In-place edits keep the tables and the addresses of
  RIP-relative operands, undo is exact, and the search loop with early-stopped evaluations follows the search that
  evaluates every cost in full.
* **Layout and arithmetic** (`NaCl`, `Memories`, `MontMuls`). The padding table finds the least padding over all
  layouts that obey the bundle rules, for code without NOPs that have a memory operand and are shorter than 32 bytes,
  a condition that is exact per NOP; memory built from a map is faithful to it; the multiply-accumulate loses no
  carry.

Verify everything with `dafny verify dfyconfig.toml`.

## How the source is represented

* A program over a CFG (`Ddec.Program`) has any state type; block bodies and branch conditions are arbitrary functions
  of the state. The obligation checker is an oracle: an answer "true" means that its query holds (`Ddec.SoundOracle`);
  where the text says so it is also complete (`Houdini.ExactOracle`).
* An instruction of the dataflow model carries its maybe/must read, write and undef sets and a control kind. The
  semantics is any relation that respects the sets (`Programs.Semantics`).
* Bit-vectors are sequences of bits, with the operators of the SMT-LIB theory FixedSizeBitVectors; operators that are
  never folded may mean anything. The simplifier's caches are keyed by terms, since a node stands for one term.
* RIP displacements, offsets and sizes are unbounded integers. Constants of the simplifier, the padding table, memory
  addresses and the Montgomery step model 64-bit wrap-around explicitly.
* Random choices, clocks, timeouts, the test sandbox and the learning of candidate invariants are parameters.

## What does not hold as one might expect

* `get_jump_inv` and `is_jump` assume a wrong branch condition on some paths: the entry block is dropped from the
  path, so the test of the first block is assumed of the state before that block; a direct step to the exit counts as
  a jump; a conditional jump to the next block counts as a fall-through; and for a path of one block the checker
  applies the direction of the first jump to that block's own test. `JumpInvariants.SafeExactly` gives the exact
  condition on the graph, `JumpInvariants.UnsafeProofAccepted` two inequivalent programs that pass with an exact
  checker.
* The definedness summary of a block is the composition of its instructions if and only if no register is left
  undefined and then perhaps written (`Dataflow.SummaryExact`); otherwise it claims more (`Dataflow.SummaryIsLarger`,
  `Dataflow.SummaryTooLarge`). Definedness between instructions needs this of the reachable blocks only.
* Because of such a block `remove_redundant` can change meaning although both invariants hold
  (`DeadCode.BlurredRemoval`): an instruction that only undefines a live register counts as redundant. It preserves
  meaning for all code in which no register is live after a plain instruction that may undefine it, which the liveness
  table shows before the call; that holds under the invariants when every reachable block keeps an exact summary
  whatever is removed from it (`Dataflow.Definite`).
* `remove_redundant` tests only the maybe-written registers. With exact definedness that is enough, because no live
  register can be undefined then (`DeadCode.UndefIsDead`). Unique labels are not needed.
* MOD of constants is folded as a signed remainder while the solver uses the unsigned one; `Simplify.ModFoldExactly`
  says for which operands the two agree. A simplification that folds no MOD keeps the value under every assignment;
  one that does keeps it under the assignments for which the MODs of the term have agreeing operands
  (`Terms.ModsAgree`).
* The identities used for floating-point addition fail for negative zero under IEEE 754
  (`Simplify.NegativeZeroWrong`); the result holds under the stated laws (`Terms.FloatLaws`) or for terms without
  those functions.
* The comment on the merging pass says that it handles extracts of constants; the code leaves those to constant
  propagation. The test "both branches are constants" before an operator moves over a conditional looks at the first
  branch twice; the rewrite is right anyway.
* XOR of a term with itself yields a zero constant wider than 64 bits; such constants are read correctly only because
  they are zero, which is what `Terms.GoodConst` allows.
* `recompute` leaves one offset for empty code, so the tables are stated for non-empty code.
* `swap`, `rotate_left` and `rotate_right` assert only that an index does not exceed the size of the code; they are
  modelled for indices inside the code.
* The search accepts a start of cost zero as a success without looking at its correctness. A cost bound of zero
  evaluates no test case and reports cost zero (`Searches.SumCorrectness`); the search always passes at least one.
* `memory_from_map` leaves the extra segments as they were when the map is empty, so the memory is then right exactly
  when they are disjoint and hold no valid byte.
* The padding table overwrites the entry for dropping a NOP with a memory operand where the NOP could also end. It
  finds the least padding for all code without NOPs of less than 32 bytes with a memory operand, and for no such NOP is
  that true of all code that contains it (`NaCl.ExactWithout`): before a whole bundle of memory access the table has no
  layout at all, although dropping the NOP costs 1 (`NaCl.LostLayout`). At 32 bytes placing the NOP costs nothing.

## Model

| member | source | states |
|---|---|---|
| Paths.EnumeratePathsHelper | src/cfg/paths.cc:56-124 | the recursive search terminates and appends the walks of the reference enumeration, in order |
| Paths.EnumeratePaths | src/cfg/paths.cc:24-54 | returns one path per enumerated walk, with empty blocks erased |
| Paths.DropEmptyIs | src/cfg/paths.cc:24-54 | what is left of a walk are its non-empty blocks, each in its place |
| Paths.AllWalksCount | src/cfg/paths.cc:56-124 | a walk is listed once per choice of successor edges exactly if it has at least two blocks, joins start and end, avoids forbidden blocks inside and respects the visit bound; otherwise not at all |
| Paths.AllWalksMembers | src/cfg/paths.cc:56-124 | membership in the enumeration, in both directions |
| Paths.CutLoop | src/validator/ddec.cc:316-339 | cutting the stretch between two visits of a block leaves a walk with the same ends that avoids the same blocks |
| Paths.Pump | src/validator/ddec.cc:316-339 | from any avoiding walk that repeats a block one is obtained that repeats a block and visits none more than twice |
| Paths.FinitenessTest | src/validator/ddec.cc:316-339 | the counts for bounds 1 and 2 agree if and only if no walk of any length between the cutpoints repeats a block, and then the bound-1 list holds every such walk |
| Sccs.CfgSccs.Tarjan | src/cfg/sccs.cc:27-95 | one visit keeps the stack, low-link and labelling invariants and reports the component of the node |
| Sccs.CfgSccs.Recompute | src/cfg/sccs.cc:97-121 | numbers exactly the reachable blocks: -1 iff the block is on no cycle, equal non-negative numbers iff the blocks reach each other; the block lists partition the rest |
| Sccs.CfgSccs.NumbersRight | src/cfg/sccs.h:44-56 | a block is in a component iff it is reachable and on a cycle, and has the number of another iff they reach each other |
| Sccs.ComponentClosed | src/cfg/sccs.cc:63-94 | when a low link equals the index, the finished blocks and the blocks above on the stack are closed under successors |
| Sccs.LabelComponent | src/cfg/sccs.cc:63-94 | numbering a popped component keeps the labelling right for all blocks numbered so far |
| Cutpoints.PermutationsExact | src/validator/cutpoints.cc:47-69 | the list holds each permutation of 0..n-1 exactly once and nothing else |
| Cutpoints.GetPermutations | src/validator/cutpoints.cc:47-69 | the recursive method returns that list |
| Cutpoints.GetPossibleCutpoints | src/validator/cutpoints.cc:136-224 | an error iff the loop counts differ; otherwise a pair of block lists is returned iff it picks one block per loop along some matching of the loops |
| Cutpoints.OptionsMean | src/validator/cutpoints.cc:136-224 | the options in terms of lists alone: different loops of the rewrite for the loops of the target, one block of each |
| Cutpoints.OptionCutsLoops | src/validator/cutpoints.cc:136-224 | every option picks one block of each loop of both programs |
| Cutpoints.CutListFromLoops | src/validator/cutpoints.cc:122-129 | with entry and exit added the picked blocks are distinct, end in the exit, and meet every cycle |
| Cutpoints.NoCutFreeCycle | src/validator/cutpoints.cc:401-423 | with one cutpoint per loop and the finiteness test passed, no walk from the entry avoids cutpoints for longer than the graph has blocks |
| Cutpoints.ValidatedProgramsAgree | src/validator/ddec.cc:302-430 | a proof over cutpoints chosen from the loops: the programs terminate on the same inputs and end in states satisfying the exit invariant |
| Ddec.Discharge | src/validator/ddec.cc:343-380 | a true answer to the query built for two walks carries over to the programs following those walks |
| Ddec.ObligationIs | src/validator/ddec.cc:343-380 | the query for two walks: conjuncts and goal as given, the non-empty blocks behind the first of each walk, and for each the flag condition of the step from the first listed block to the second |
| Ddec.ProofMeans | src/validator/ddec.cc:302-430 | the proof condition written out over cutpoints, walks and conjuncts |
| Ddec.SameCutpoint | src/validator/ddec.cc:302-430 | from a cutpoint with its invariant both programs reach the same next cutpoint, with its invariant |
| Simulation.RunsAgree | src/validator/ddec.cc:302-430 | terminating runs visit matching cutpoints in the same order, satisfy the matching invariant at each, and end in states satisfying the exit invariant |
| Simulation.RewriteTerminates | src/validator/ddec.cc:302-430 | if the target terminates, so does the rewrite |
| Simulation.TargetTerminates | src/validator/ddec.cc:302-430 | if the rewrite terminates, so does the target |
| Houdini.CheckProof | src/validator/ddec.cc:302-430 | returns true iff all three checks hold for all pairs of cutpoints; otherwise names at most one cutpoint and exactly the conjuncts that failed there |
| Houdini.RemoveFailed | src/validator/ddec.cc:261-274 | removing sorted positions from the back, each once, leaves exactly the conjuncts at the other positions, in order |
| Houdini.CleanUp | src/validator/ddec.cc:261-274 | the first and last invariants are never touched, every other one keeps exactly the conjuncts that did not fail, in order, and the total size drops if anything changed |
| Houdini.InductiveSurvives | src/validator/ddec.cc:246-281 | a conjunct of an inductive choice is never among the failed ones |
| Houdini.RoundKeeps | src/validator/ddec.cc:246-281 | one round keeps every inductive choice among the candidates |
| Houdini.ExactIsMonotone | src/validator/ddec.cc:246-281 | an exact checker is sound and never loses an answer when assumptions are added |
| Houdini.RunHoudini | src/validator/ddec.cc:246-281 | terminates, keeps the boundary invariants, loses no conjunct of any inductive choice, and succeeds if and only if some choice among the candidates closes the proof (for a checker that never loses an answer when assumptions are added) |
| Houdini.HopelessStays | src/validator/ddec.cc:302-430 | a pair of cutpoints that fails for another reason than its conjuncts fails for every choice among them |
| Houdini.Unprovable | src/validator/ddec.cc:276-281 | when a round changes nothing, no choice among the candidates closes the proof |
| JumpInvariants.SafeIsFaithful | src/validator/ddec.cc:74-95 | on a safe path everything the checker assumes follows from the program taking the path |
| JumpInvariants.SafeExactly | src/validator/obligation_checker.cc:1045-1082 | a path is safe if and only if no program on the graph takes it while the checker's branch assumptions fail |
| JumpInvariants.SafeProgramsAgree | src/validator/ddec.cc:302-430 | soundness of a proof with the condition on the branch assumptions stated on the graphs alone |
| JumpInvariants.UnsafeProofAccepted | src/validator/ddec.cc:74-95 | without the condition two programs pass with an exact checker and end with different values |
| Validator.GraphShape | src/cfg/cfg.cc:116-187 | graphs built from code have the shape that the results on branch assumptions ask for |
| Validator.FindLoops | src/cfg/sccs.cc:97-121 | Tarjan's numbering of the graph of a program is what the choice of cutpoints needs |
| Validator.FindInvariants | src/validator/ddec.cc:111-156 | the fixed conjuncts at entry and exit; at every cutpoint in between those learned for its index |
| Validator.OptionCuts | src/validator/cutpoints.cc:122-129 | the cut lists are the two sides with the entry in front and the exit behind, which lie nowhere else in them |
| Validator.PossibleMeans | src/validator/cutpoints.cc:136-224 | an option is possible iff both programs have as many loops and along some matching of them entry k lies in loop k of the target and in the matching loop of the rewrite, by the numbers of Tarjan's algorithm |
| Validator.ProvedAgree | src/validator/ddec.cc:200-300 | a proof means agreement of all programs over the two graphs |
| Validator.Verify | src/validator/ddec.cc:200-300 | the validator on two pieces of code: it accepts if and only if for some viable option the proof closes with some conjuncts out of those learned for its cutpoints, and then the programs terminate on the same inputs with the exit invariant at the end, if their paths between cutpoints are safe |
| Blocks.RecomputeBlocks | src/cfg/cfg.cc:116-143 | block starts are exactly the boundaries, in order, with an empty entry and exit; an index inside the code starts a block iff it is a label definition or follows a jump or a return |
| Blocks.GetLoc | src/cfg/cfg.cc:27-36 | the block and offset that contain the index |
| Blocks.RecomputeLabels | src/cfg/cfg.cc:145-155 | a label maps to the block that starts with its last definition |
| Blocks.RecomputeSuccs | src/cfg/cfg.cc:157-187 | after a jump the block with the last definition of its label, or the exit if there is none; after a return the exit; after a conditional jump the next block, then that of its label; after anything else the next block |
| Blocks.SuccsAsWritten | src/cfg/cfg.cc:157-187 | successors by control flow between instructions are those by the kind of the last instruction of the block |
| Blocks.RecomputeReachable | src/cfg/cfg.cc:202-220 | exactly the blocks the entry reaches |
| Blocks.ReachableBlocks | src/cfg/cfg.cc:202-220 | an instruction is reachable along control flow iff its block is |
| Fixpoint.RecomputePreds | src/cfg/cfg.cc:189-200 | the predecessor lists invert the successor lists |
| Fixpoint.SolveForward | src/cfg/cfg.cc:254-274 | the loop terminates with the greatest solution of the flow equations |
| Fixpoint.ForwardExact | src/cfg/cfg.cc:254-274 | the solution is the meet over all paths from the entry |
| Fixpoint.SolveBackward | src/cfg/cfg.cc:344-391 | the loop terminates with the least solution of the flow equations |
| Fixpoint.BackwardExact | src/cfg/cfg.cc:344-391 | a register is in the solution iff some path reaches a use or the live-outs with no kill before |
| Dataflow.RecomputeDefsGenKill | src/cfg/cfg.cc:222-236 | gen and kill of every reachable block |
| Dataflow.SummaryExact | src/cfg/cfg.cc:222-236 | gen and kill are the composition of the instruction steps if and only if no register is left undefined and then perhaps written |
| Dataflow.SummaryAt | src/cfg/cfg.cc:222-236 | register by register: the summary differs from the instructions exactly on registers that come in defined, are undefined last and then perhaps written |
| Dataflow.SummaryIsLarger | src/cfg/cfg.cc:222-236 | the summary always claims at least as much as the instructions |
| Dataflow.SummaryTooLarge | src/cfg/cfg.cc:232-233 | a block on which the summary claims strictly more |
| Dataflow.LiveChainIsSummary | src/cfg/cfg.cc:418-438 | use and kill are the composition of the instruction steps, for all code |
| Dataflow.DefsSound | src/cfg/cfg.cc:237-287 | the computed sets are defined along every instruction edge, if the summaries of the reachable blocks are exact |
| Dataflow.DefsBest | src/cfg/cfg.cc:237-287 | for all code, no sound assignment of sets to instructions claims more |
| Dataflow.DefsOnAllPaths | src/cfg/cfg.cc:254-274 | a register is defined at the end of a reachable block iff it is along every path from the entry |
| Dataflow.DefiniteIsCrisp | src/cfg/cfg.cc:222-236 | in definite code the summaries of the reachable blocks are exact |
| Dataflow.UnsettledIsBlurred | src/cfg/cfg.cc:222-236 | and that takes no less: two instructions that break the condition form an inexact block once they are alone |
| Liveness.LivesSound | src/cfg/cfg.cc:289-415 | the computed sets hold what every successor instruction needs |
| Liveness.LivesBest | src/cfg/cfg.cc:289-415 | no sufficient assignment of sets to instructions is smaller |
| Liveness.RecomputeDefs | src/cfg/cfg.cc:237-287 | fills the table from the fixed point, one instruction at a time |
| Liveness.RecomputeLiveness | src/cfg/cfg.cc:289-415 | fills both tables from the fixed point, from the end of each block back |
| Liveness.OutJoins | src/cfg/cfg.cc:344-413 | after an instruction exactly that is live which is live before one that control can pass to, also across block boundaries |
| Registers.LiveExactly | src/cfg/cfg.cc:289-415 | a register is live before a reachable instruction iff some path from there leads to a read of it, or to the end if it is live-out, before it is surely overwritten |
| Registers.DefinedExactly | src/cfg/cfg.cc:237-287 | sound and best definedness means: defined iff along every path from the entry something surely wrote the register, or it was defined at the start, and nothing since may have undefined it |
| Dominators.CfgDominators.Recompute | src/cfg/dominators.cc:31-75 | terminates; d is in the set of b iff d lies on every walk from the entry to b |
| DeadCode.LiveIsDefined | src/cfg/cfg.cc:38-61 | under the two invariants every live register is defined |
| DeadCode.UndefIsDead | src/cfg/cfg.cc:38-61 | no register that an instruction may undefine is live after it |
| DeadCode.UndefsDeadCut | src/cfg/cfg_transforms.cc:116-143 | that no register is live after a plain instruction that may undefine it stays true when a redundant or unreachable instruction is removed |
| DeadCode.BlurredRemoval | src/cfg/cfg_transforms.cc:112-130 | code with both invariants from which a redundant instruction is removed with a different result |
| DeadCode.EndlessRemoval | src/cfg/cfg_transforms.cc:112-130 | code in which a register that is undefined is live, but only on a path that never ends: the removal preserves meaning under every semantics |
| DeadCode.RedundantInvariants | src/cfg/cfg_transforms.cc:116-143 | both invariants hold again after a redundant instruction is removed |
| DeadCode.UnreachableInvariants | src/cfg/cfg_transforms.cc:43-56 | both invariants hold again after an unreachable instruction is removed |
| DeadCode.UnreachablePreserves | src/cfg/cfg_transforms.cc:43-56 | without an unreachable instruction the code has the same meaning under every semantics |
| DeadCode.CutPreserves | src/cfg/cfg_transforms.cc:112-130 | if no register is live after a plain instruction that may undefine it, every terminating run of the code is matched after a removal by one with equal memory and live-outs |
| DeadCode.CutReflects | src/cfg/cfg_transforms.cc:112-130 | and conversely, if plain instructions cannot fault |
| CfgTransforms.CodeCfg.Recompute | src/cfg/cfg.h:75-89 | every table belongs to the code again: structure, best definedness (sound where the summaries are exact), best liveness on both sides of every instruction |
| CfgTransforms.TablesMean | src/cfg/cfg.h:75-89 | what the tables hold of a reachable instruction, along the paths of the code; definedness where the summaries are exact |
| CfgTransforms.CodeCfg.InvariantNoUndefReads | src/cfg/cfg.cc:38-55 | true iff no reachable instruction reads a register that may be undefined |
| CfgTransforms.CodeCfg.InvariantNoUndefLiveOuts | src/cfg/cfg.cc:57-61 | true iff the live-outs are in the table at the end of the code, so true only if they are defined there, and exactly then if the end is reachable |
| CfgTransforms.RemoveUnreachable | src/cfg/cfg_transforms.cc:38-61 | terminates with exactly the reachable instructions of the original, in order; the meaning is preserved under every semantics; invariants of definite code are kept |
| CfgTransforms.RemoveRedundant | src/cfg/cfg_transforms.cc:87-145 | terminates with code out of the original, in order, that lacks only instructions that are unreachable or neither control nor memory accesses; everything left is reachable, and every plain instruction without memory access writes a register that some path behind it uses; meaning preserved both ways if no register is live after a plain instruction that may undefine it, as in definite code with the invariants, which hold again |
| CfgTransforms.DefiniteCut | src/cfg/cfg_transforms.cc:116-143 | definite code stays definite when an instruction is removed |
| Simplify.MergeSound | src/symstate/simplify.cc:35-75 | merging extracts keeps well-formedness, sort and value, MODs included |
| Simplify.MoveSound | src/symstate/simplify.cc:84-147 | moving extracts inwards keeps well-formedness, sort and value, MODs included |
| Simplify.PropSound | src/symstate/simplify.cc:152-473 | constant propagation keeps well-formedness, sort and value; where it folds a MOD, under assignments for which that is right |
| Simplify.ReadConstValue | src/symstate/simplify.cc:489-507 | reading a constant gives its unsigned and its signed value |
| Simplify.FoldBits | src/symstate/simplify.cc:244-293 | a folded operator stores the bits of the operator's result |
| Simplify.ConstCompare | src/symstate/simplify.cc:344-377 | a folded comparison is the comparison of the values |
| Simplify.ModFoldExactly | src/symstate/simplify.cc:264-265 | a folded MOD has the right value iff the operands satisfy a stated condition |
| Simplify.ModFoldWrong | src/symstate/simplify.cc:264-265 | operands for which it does not |
| Simplify.FoldModBits | src/symstate/simplify.cc:264-265 | a folded MOD of agreeing operands stores the bits of the unsigned remainder |
| Terms.ModFreeAgrees | src/symstate/simplify.cc:264-265 | in a term without MOD all operands agree, under every assignment |
| Simplify.NegativeZeroWrong | src/symstate/simplify.cc:164-178 | an assignment that adds negative zero like IEEE 754 breaks the laws, and a sum is rewritten to a different value |
| Simplify.RunSound | src/symstate/transform_visitor.h:333-479 | a whole pass keeps sort and value: under every assignment if it folds no MOD, otherwise under those for which the MODs have agreeing operands |
| Simplify.RunLighter | src/symstate/simplify.cc:538-545 | a pass returns the term unchanged or strictly lighter |
| Simplify.Round | src/symstate/simplify.cc:538-545 | one round of the three passes keeps a term equivalent to the start |
| Simplify.RoundLighter | src/symstate/simplify.cc:538-545 | a round lowers the weight unless no pass changes the term |
| Simplify.SymSimplify.Visit | src/symstate/transform_visitor.h:62-93 | with the caches a visit returns what the pass computes, and the caches stay right |
| Simplify.SymSimplify.Simplify | src/symstate/simplify.cc:531-586 | terminates on every well-typed term, MODs included, with a term of the same sort and value that is in normal form and that no pass changes |
| Simplify.StableIsNormal | src/symstate/simplify.cc:152-473 | a term that no pass changes is in normal form: no subterm has a shape that one of the passes replaces, said of the term alone |
| TUnits.TUnit.Recompute | src/tunit/tunit.cc:495-508 | the tables of non-empty code and the set of addresses that RIP-relative accesses name; one offset for empty code |
| TUnits.TUnit.Remove | src/tunit/tunit.cc:144-167 | tables as recomputed; the instructions before and after the index stay, their displacements patched for the move |
| TUnits.TUnit.Insert | src/tunit/tunit.cc:169-204 | the same around a new instruction, which is stored as given or made relative to name the given address |
| TUnits.TUnit.Replace | src/tunit/tunit.cc:206-242 | the same around a replaced instruction, which names the address given, or its displacement at the old size; the set of RIP targets is that of the new code |
| TUnits.TUnit.Swap | src/tunit/tunit.cc:244-290 | tables as recomputed; the two instructions are exchanged and nothing else moves, displacements patched |
| TUnits.TUnit.RotateLeft | src/tunit/tunit.cc:292-333 | tables as recomputed; the first instruction lies behind the others up to the second, displacements patched |
| TUnits.TUnit.RotateRight | src/tunit/tunit.cc:335-376 | tables as recomputed; the second instruction lies before the others from the first on, displacements patched |
| TUnits.TargetsKept | src/tunit/tunit.cc:535-545 | after any such edit every RIP-relative operand that was there names the same absolute address |
| TUnits.RelocatedTrans | src/tunit/tunit.cc:144-376 | rearrangements compose |
| TUnits.EditsKeepTargets | src/tunit/tunit.cc:144-376 | after any sequence of edits every RIP-relative operand that has been there from the start names the same absolute address |
| TUnits.ArrangeExactly | src/tunit/tunit.cc:144-376 | where the instructions come from, with the new one, determines the edited code |
| TUnits.UndoExact | src/tunit/tunit.cc:144-376 | an edit followed by one that puts the instructions back restores the code exactly |
| Moves.Rotate | src/transform/rotate.cc:24-65 | refused for short code, equal indices, control instructions or a failed check, with code and tables as they were; otherwise x lies where y was and what was in between has moved one place |
| Moves.RotateUndo | src/transform/rotate.cc:67-78 | undo restores the code exactly for every pair of indices |
| Moves.GlobalSwap | src/transform/global_swap.cc:24-61 | refused in the same cases; otherwise the two instructions are exchanged |
| Moves.SwapUndo | src/transform/global_swap.cc:63-71 | undo restores the code exactly |
| Moves.Delete | src/transform/delete.cc:27-58 | refused for short code, a control instruction or a failed check, with code and tables as they were; otherwise the code without the instruction |
| Moves.DeleteUndo | src/transform/delete.cc:60-69 | undo restores the code exactly |
| Moves.AddNop | src/transform/add_nops.cc:29-73 | refused for short code or a failed check, with code and tables as they were; otherwise the code with a NOP at the index |
| Moves.AddNopUndo | src/transform/add_nops.cc:75-86 | undo restores the code exactly |
| Moves.Opcode | src/transform/opcode.cc:24-65 | refused for a control instruction or a failed check, with code and tables as they were; otherwise the code with the new opcode, with the address of its operand kept |
| Moves.OpcodeUndo | src/transform/opcode.cc:67-75 | undo with skip_first restores the code exactly |
| Moves.MovesUndo | src/transform/transform.h:32-42 | the five moves with their undo are a transform as the search assumes one |
| Moves.NextMeans | src/transform/rotate.cc:24-65 | the code that a move is checked on, instruction by instruction, for all five moves |
| Searches.SumCorrectness | src/cost/correctness.cc:116-133 | the sum over as many test cases as it takes to reach the bound; a result below the bound is the true sum, otherwise the sum is not below the bound; the counterexample is the first error; a bound of zero evaluates nothing |
| Searches.MaxCorrectness | src/cost/correctness.cc:97-114 | the same for the maximum, which is one of the errors and, below the bound, no smaller than any |
| Searches.LargestIs | src/cost/correctness.cc:97-114 | the largest error is one of the errors and no error is larger |
| Searches.SumIs | src/cost/correctness.cc:116-133 | the sum changes as each of its terms does, and is zero when all are |
| Searches.CorrectnessIsCost | src/cost/correctness.cc:97-133 | both reductions are cost functions as the search assumes one |
| Searches.BoundDecides | src/search/search.cc:119-129 | evaluation under the bound max + 1 decides acceptance like the true cost, and an accepted cost is exact |
| Searches.SearchState.Configure | src/search/search.cc:178-209 | the initial costs, evaluated under the default maximum, are the true ones |
| Searches.SearchState.Accept | src/search/search.cc:130-148 | best-yet and best-correct stay the minima over what was accepted |
| Searches.Iterate | src/search/search.cc:112-153 | one iteration takes a proposal exactly when its move succeeds and its true cost is within the threshold, and otherwise leaves the rewrite as it was; it does as the reference search |
| Searches.Loop | src/search/search.cc:92-153 | ends at cost zero or when the draws run out; per kind of move the counts are those of the iterations that proposed it, where it succeeded and where it was accepted; they add up to the iterations and to the rewrites taken |
| Searches.Run | src/search/search.cc:65-168 | the search takes the rewrites of the reference search; current cost is true; best-yet and best-correct are among the start and the rewrites taken, and no rewrite taken (and correct) costs less; success iff a correct rewrite taken is free or cheaper than the start; the statistics count what was proposed, succeeded and accepted |
| NaCl.TargetStep | src/cost/nacl2.cc:359-367 | jump targets are aligned at least cost |
| NaCl.CallStep | src/cost/nacl2.cc:368-378 | calls end a bundle at least cost |
| NaCl.PlaceNormal | src/cost/nacl2.cc:342-395 | all placements in this and the next bundle, and dropped NOPs, at least cost |
| NaCl.MemoryStep | src/cost/nacl2.cc:342-402 | memory accesses follow without padding in the same bundle, NOPs among them also dropped where the table keeps that |
| NaCl.TableMatches | src/cost/nacl2.cc:342-402 | without NOPs of less than 32 bytes with a memory operand, every layout that obeys the bundle rules is matched by one the table accounts for, with the same end and no dearer |
| NaCl.LostLayout | src/cost/nacl2.cc:342-402 | for every such NOP, code with a layout of cost 1 for which the table finds none |
| NaCl.ExactWithout | src/cost/nacl2.cc:342-402 | the table is exact for all code that contains a unit, and no other such NOP, if and only if the unit is none |
| NaCl.ColumnStep | src/cost/nacl2.cc:325-404 | if a column is optimal for the units so far, the next one is with one more unit, whatever the length of the padding |
| NaCl.Padding | src/cost/nacl2.cc:250-413 | the score is the padding of a placement of the instructions that obeys the bundle rules, or infinite; without NOPs of less than 32 bytes with a memory operand it is the least of all such placements, and infinite iff there is none |
| NaCl.LayoutPlaces | src/cost/nacl2.cc:283-340 | a layout of the units gives a placement of the instructions with the same end and cost: returns take 12 bytes, calls 5, a pair stays together, labels jumped to are aligned |
| NaCl.PlacementLays | src/cost/nacl2.cc:283-340 | and every placement comes from such a layout |
| NaCl.LongNopsKept | src/cost/nacl2.cc:283-340 | code without short NOPs with a memory operand has no units that the table loses |
| Memories.ResizeBounds | src/state/memory.h:37-56 | a resized segment is aligned, starts at most 31 bytes early and ends at the next multiple of 8 |
| Memories.Store | src/state/memory.h:93-128 | stored bytes are valid and read back, the rest is unchanged |
| Memories.AddRange | src/state/cpu_state.cc:215-244 | a gap of 32 bytes or more starts a new segment at the range, a smaller one grows the last; the segments stay in order and faithful |
| Memories.BuildSegments | src/state/cpu_state.cc:190-244 | all ranges: faithful segments, one more than there are gaps of at least 32 bytes, consecutive ranges together iff fewer than 32 bytes lie between them |
| Memories.TogetherExactly | src/state/cpu_state.cc:215-244 | two consecutive ranges lie in one segment iff fewer than 32 bytes lie between them |
| Memories.CpuState.MemoryFromMap | src/state/cpu_state.cc:164-265 | heap, stack and data are the first three of the segments that the gaps define and the rest follow, empty ones at their default bases; no address lies in two segments, valid bytes are exactly the mapped ones and each reads back; for an empty map if and only if the extra segments were disjoint and without a valid byte |
| Memories.EmptyMap | src/state/cpu_state.cc:174-181 | with nothing mapped the memory is right exactly when the segments left in place are blank |
| MontMuls.Multiply | examples/montmul/mont_mul.cc:19-42 | the pair of words is the full 128-bit product |
| MontMuls.MontMul | examples/montmul/mont_mul.cc:17-53 | h * 2^64 + l is the product plus both addends for all inputs, with h and l below 2^64 |

## Left out

- The obligation checker's circuits, memory models and solver adapters: an oracle with a stated contract.
- Learning of invariants from test data and the checks (i) to (iii) of `check_cutpoints` on traces: parameters of `Validator.Verify`; inlining, sanity checks and solver errors come before or end the run.
- Indirect jumps in liveness (everything ever read becomes live): the dataflow results are for code without them.
- Faulting runs in the dead-code theorem: only the reverse direction needs plain instructions not to fault.
- `invariant_can_assemble`, call summaries and `which_undef_read`: no effect on the results beyond the register sets.
- Definedness entries of unreachable instructions keep older values in the source; the live-outs invariant is stated for a reachable exit.
- Liveness.RecomputeLiveness: does not model the extra live-outs of indirect jumps, because code with indirect jumps is outside the model.
- CfgTransforms.RemoveRedundant: the result is related to the original when no register is live after a plain instruction that may undefine it; that is not necessary (`DeadCode.EndlessRemoval`), so no equivalence is stated.
- Pointer identity of terms: the simplifier's loop compares pointers; a pass that changes nothing returns the same node, so terms are compared instead.
- Overflow of bit-vector widths beyond 16 bits, and signed overflow in constant folding, which is taken to wrap.
- 64-bit overflow of RIP displacements and offsets.
- NaCl.Padding: instructions disallowed outright, restricted registers and their scores are separate sums; code so long that padding could reach the infinite entry is outside the model.
- Searches.Run: timeouts and interruption end the list of draws; callbacks are left out.
- Searches.SumCorrectness: the error of one test case is an input.
- Memories.CpuState.MemoryFromMap: overlapping ranges and ranges that wrap around the address space are outside the model.
- The sandbox, the assembler and disassembler, serialization, parsers and pretty printers.
