# A verified model of the AArch64 backend

This project models the part of the compiler that turns selected instructions into
physical-register machine code for AArch64, and proves that what each pass does keeps the
meaning of the program.  `dafny verify dfyconfig.toml` checks everything.

The pieces, with the files that hold them:

- **Arithmetic with constants** (`Words`, `Bits`, `MagicNumbers`, `WordMachine`,
  `ConstantSelection`, `ConstantRemainder`, `ConstantProduct`, `VectorRemainder`).  The search
  for a magic multiplier, and the sequences selected for division, remainder, modular
  multiplication and multiplication by a known number, run on a machine with the integer
  instructions of section C6.2 (vectors: C7.2) of the Arm Architecture Reference Manual.
- **Leaving SSA form** (`ParallelCopies`, `PhiLowering`, `PhiElimination`).  PHIs as simultaneous
  assignments on edges, the edges that are split, and the copies that replace the PHIs.
- **Register allocation** (`Target`, `MachineIR`, `Dataflow`, `Liveness`, `LiveSegments`,
  `InterferenceGraph`, `Coloring`, `Renaming`, `Allocation`, `RegAlloc`, `ColoringRound`, `Spilling`,
  `SpillPass`, `GapSplit`, `RepairTraffic`, `SplitTraffic`, `RepairInvariant`, `RepairTyping`,
  `AllocationRounds`).
  Liveness fixpoints, the bit-matrix graph, optimistic coloring, recoloring, spilling,
  rematerialization and gap splitting, up to one statement about the whole allocator: physical code
  behaves like the virtual code it was given, whatever was split and spilled on the way.  What makes
  the rounds compose is an invariant about spill slots: each belongs to one register, which alone
  stores to it and is never defined while its content is still to be read.  Preserved registers are
  those of sections 6.1.1 and 6.1.2 of AAPCS64.
- **After allocation** (`ParallelCopies`, `CopyGroups`, `SpillSlots`, `MoveWide`,
  `LogicalImmediate`, `FrameLayout`, `FrameCode`, `BranchRelaxation`, `Encoding`).  Parallel-copy
  resolution, spill-slot optimization, expansion of wide constants, frame layout and lowering, branch
  relaxation.  What an instruction can encode is stated by the width of its field (`Encoding`), not
  by the tests of the passes.
- **Reordering and loops** (`Regions`, `Scheduler`, `Halving`, `HalvingLoop`, `HalvingRewrite`,
  `HalvingExit`, `Dominators`, `NaturalLoops`).  List scheduling and its memory alias test, the batching of exact
  halvings, dominators and natural loops.

`MachineIR` is the shared small machine language.  What an operation computes is an arbitrary
function of the history of operations so far, each with the values it read; this stands for memory,
calls and I/O at once.  Two programs with the same history at every step cannot be told apart.
Heuristics (spill costs, split benefits, scheduling scores) are arbitrary choices,
so what is proved holds for every one of them.

What the code relies on without checking it appears as a `requires`:

- Allocation: operands are virtual registers, copies stay in one bank and keep the width of the
  value, and no instruction lists a write of a register before a read of the same register
  (`Liveness.ShadowingHappens` shows that the virtual liveness scan is wrong otherwise, and
  `Liveness.AnalyzeVirtual` that it is right in every other case).
- Frame code: the registers to save are general or vector registers (`FrameCode.DetermineCalleeSaves`
  finds no others).
- Scheduling: every memory operand describes its access truthfully in the original order.
- Relaxation: at most one conditional branch per block, in a block with two successors, and a
  condition that can fail; `BranchRelaxation.InverseExactly` shows that "always" has no inverse.
- Halving: the even block is entered only from the bit test; the matched registers all differ
  (`HalvingRewrite.Distinct`); registers written on the edges are read nowhere else; the latch is
  reached by the even edge and one straight odd path only, and reusing the loop's own counter needs
  every edge into the latch to be rewritten (`HalvingRewrite.ReuseNeedsOddMatch`,
  `HalvingRewrite.ReuseNeedsEveryEdge` show what goes wrong otherwise).  The pass does not look at
  reads of the loop's own state and count after the exit, where they differ from the original's
  (`HalvingExit.ExitStateDiffers`, `HalvingExit.OwnRegistersAgree`): code after the exit must not
  read `state`, `count` or a register of the edges before writing it, and with a reused counter must
  write neither count before the exit's copy of it (`HalvingExit.ExitIgnores`).  Then nothing after
  the loop can tell the difference (`HalvingExit.ExitFollowed`).
- Modular multiplication: modulus 1 selects an AND with an empty mask, which has no encoding;
  `ConstantRemainder.EmitMulMod` says that this is the only such modulus.

One comment and the code disagree: src/backend/machine_pipeline.cpp:115-116 says that the resolver
of parallel copies breaks cycles with a temporary.  It does not: it gives up, and is only safe
because coloring forbids the colors that would make a cycle (`ParallelCopies.SwapHasCycle`,
`ParallelCopies.ColoredGroupOrdered`, `ParallelCopies.OrderedHasNoCycle`, `ColoringRound.ColorRound`).

## Model

| member | source | states |
|---|---|---|
| MagicNumbers.PowerOfTwoExactly | src/backend/constant_division.cpp:8-21 | The bit test recognises exactly the divisors whose magnitude is a power of two; the recorded shift is the exponent, between 1 and 30 for a magnitude above one. |
| MagicNumbers.StopsExactly | src/backend/constant_division.cpp:44-57 | At every precision the loop's exit test on quotient and remainder holds exactly when the power is large enough for every numerator; the remainder by the divisor is never zero. |
| MagicNumbers.NextFits | src/backend/constant_division.cpp:33-57 | While the power is not yet large enough, doubling both quotients stays inside a 32-bit word and the precision stays below 62, so the search ends. |
| MagicNumbers.NotMinimum | src/backend/constant_division.cpp:58-66 | The multiplier is never 2^31, so negating it for a negative divisor cannot overflow. |
| MagicNumbers.ComputeSignedMagic | src/backend/constant_division.cpp:23-67 | The search ends with a reciprocal that is precise enough, at the least shift for which one exists; the signed multiplier and the strategy read it correctly. |
| MagicNumbers.BelowBound | src/backend/constant_division.cpp:23-67 | Every numerator magnitude below the sign bound, scaled by the reciprocal, stays in the interval of its quotient. |
| MagicNumbers.AtBound | src/backend/constant_division.cpp:23-67 | The one magnitude past the bound, the least numerator with a positive divisor, still rounds to the right quotient. |
| MagicNumbers.MagicDivides | src/backend/constant_division.cpp:23-67 | For every 32-bit numerator the scaled product shifted down is the floored quotient of the sign case. |
| ConstantSelection.ShiftTruncates | src/backend/isel.cpp:293-328 | Adding divisor minus one to a negative numerator makes the arithmetic shift truncate towards zero. |
| ConstantSelection.PowerSelected | src/backend/isel.cpp:314-328 | The shift of the biased numerator, negated or not, is the truncated quotient by a power of two of either sign. |
| ConstantSelection.CorrectedQuotient | src/backend/isel.cpp:353-365 | A multiplier that reads as negative loses one numerator per product; adding or subtracting the numerator restores the floored quotient within 32 bits. |
| ConstantSelection.ShiftSelected | src/backend/isel.cpp:337-352 | Multiply, 64-bit shift and sign addition leave the truncated quotient. |
| ConstantSelection.CorrectedSelected | src/backend/isel.cpp:353-371 | High word, correction, shift and sign addition leave the truncated quotient. |
| ConstantSelection.EmitBias | src/backend/isel.cpp:293-313 | The emitted bias sequence leaves the numerator plus divisor minus one exactly when it is negative, for both its forms. |
| ConstantSelection.EmitPowerOfTwo | src/backend/isel.cpp:293-328 | The whole power-of-two sequence, run, leaves truncated division without a multiplication or a division; nothing else in use changes and every immediate is encodable. |
| ConstantSelection.EmitMagic | src/backend/isel.cpp:329-372 | The whole magic sequence, run, leaves truncated division for every numerator with one multiplication, no division and encodable shifts. |
| ConstantSelection.EmitDivision | src/backend/isel.cpp:273-375 | A sequence is selected exactly for divisors other than 0 and the least word, and for every numerator it equals truncated division, whichever strategy was used; it never divides, and multiplies only for divisors that are no powers of two. |
| ConstantRemainder.EmitRemainder | src/backend/isel.cpp:1315-1410 | The remainder sequence leaves the truncated remainder for every numerator and constant divisor; a zero divisor leaves the numerator, as the hardware's division by zero gives zero. It divides exactly for the divisors zero and the least word, and neither divides nor multiplies for the other powers of two. |
| ConstantRemainder.MaskedRemainder | src/backend/isel.cpp:1326-1386 | Magnitude, mask and sign restoration give the truncated remainder by a power of two, the least word included, also when a mask of one bit skips the magnitude. |
| ConstantRemainder.QuotientOffByOne | src/backend/constant_division.cpp:69-76 | The high word of the product with the Barrett factor is the quotient or one less, so the provisional remainder is below twice the modulus. |
| ConstantRemainder.BarrettSelected | src/backend/isel.cpp:1204-1261 | With the conditional subtraction the Barrett sequence leaves exactly the 64-bit remainder. |
| ConstantRemainder.EmitBarrett | src/backend/isel.cpp:1204-1261 | The emitted Barrett sequence, run, leaves the remainder of the absolute product. |
| ConstantRemainder.EmitMask64 | src/backend/isel.cpp:1178-1204 | The masked path leaves the same remainder for powers of two, and is encodable exactly when the modulus is not one. |
| ConstantRemainder.EmitDivided64 | src/backend/isel.cpp:1125-1149 | The fallback with a 64-bit division leaves the truncated remainder of the product. |
| ConstantRemainder.AbsoluteSelected | src/backend/isel.cpp:1151-1175 | Compare, negate and select leave the magnitude of the 64-bit product. |
| ConstantRemainder.SignSelected | src/backend/isel.cpp:1263-1290 | Negate and select give the remainder the sign of the product. |
| ConstantRemainder.EmitMulMod | src/backend/isel.cpp:1100-1292 | For all 32-bit factors and every nonzero modulus the sequence leaves the truncated remainder of the 64-bit product, on every path; all immediates are encodable exactly when the modulus is not 1; only a negative modulus divides, and a power of two multiplies once. |
| ConstantProduct.Log2Exact | src/backend/isel.cpp:24-31 | The halving loop returns the exponent of a power of two. |
| ConstantProduct.EmitProduct | src/backend/isel.cpp:903-968 | A sequence of at most two instructions, none of them a multiplication, is selected exactly for 0, powers of two and their successors of either sign, and leaves the product modulo 2^32. |
| VectorRemainder.LaneQuotient | src/backend/isel.cpp:428-459 | In one lane the narrowed high product, corrected, shifted and rounded, is the truncated quotient. |
| VectorRemainder.LaneRemainder | src/backend/isel.cpp:461-465 | Multiply-subtract leaves the truncated remainder of the lane. |
| VectorRemainder.EmitProductHigh | src/backend/isel.cpp:393-425 | The two long multiplications, shifts and narrowings put the high word of each lane's product in its lane. |
| VectorRemainder.EmitRemainder | src/backend/isel.cpp:427-470 | Emits exactly for divisors above one that are not powers of two (the subtracting strategy never arises for them), and then every lane is the truncated remainder. |
| WordMachine.ConditionsCompare | src/backend/isel.cpp:1152-1282 | After a comparison LT, HS and MI compare the signed and unsigned readings. |
| LogicalImmediate.SameRun | src/backend/post_ra_optimizations.cpp:669-679 | The shifted and masked word equals the element exactly when the element's bits are the rotated run of ones. |
| LogicalImmediate.Repeats | src/backend/post_ra_optimizations.cpp:656-664 | The slice loop decides whether every bit of the value repeats with the element's period. |
| LogicalImmediate.MatchesRun | src/backend/post_ra_optimizations.cpp:669-679 | The two loops find a run and rotation exactly when one exists. |
| LogicalImmediate.DecodesByElement | src/backend/post_ra_optimizations.cpp:654-680 | A value decodes with an element size exactly when it is periodic and its lowest element is a rotated run. |
| LogicalImmediate.IsLogicalImmediate | src/backend/post_ra_optimizations.cpp:647-683 | The search answers yes exactly for the values DecodeBitMasks can produce in the given width. |
| MoveWide.ExecPieces | src/backend/post_ra_optimizations.cpp:27-45 | What MOVZ, MOVN and MOVK leave in every 16-bit slice of the register. |
| MoveWide.FindSeed | src/backend/post_ra_optimizations.cpp:733-742 | The seed is the first slice that needs an instruction, or the lowest when none does. |
| MoveWide.BuildMoves | src/backend/post_ra_optimizations.cpp:744-758 | The sequence of one family leaves exactly the constant, from any register contents, in as many instructions as there are slices to set, at least one. |
| MoveWide.NoneShorter | src/backend/post_ra_optimizations.cpp:709-718 | No sequence of move-wides at all that builds a value is shorter than the cheaper of the two families. |
| MoveWide.ExpandIntegerImmediate | src/backend/post_ra_optimizations.cpp:685-760 | The expansion leaves exactly the constant in the register and changes nothing else; it is one ORR exactly when that is allowed, shorter and the value is a bitmask immediate, and otherwise has the cheaper family's length. |
| MoveWide.ExpandConstantMaterializations | src/backend/post_ra_optimizations.cpp:764-780 | The pass over a block removes every constant pseudo-instruction, reports a change exactly when there was one, and no run of the block can tell the difference. |
| ParallelCopies.FindReady | src/backend/parallel_copy.cpp:119-129 | Finds the first self-copy or copy whose target nothing pending reads, if there is one. |
| ParallelCopies.TakeReady | src/backend/parallel_copy.cpp:130-143 | Making a ready copy first and the rest in parallel is the original parallel assignment. |
| ParallelCopies.SaveSource | src/backend/parallel_copy.cpp:146-158 | Saving one source in an unused register and reading it from there changes nothing else. |
| ParallelCopies.OnlyCyclesLeft | src/backend/parallel_copy.cpp:146-158 | When nothing is ready the sources are exactly the targets: only cycles remain. |
| ParallelCopies.SequenceCopies | src/backend/parallel_copy.cpp:114-159 | For any copies with distinct targets the emitted sequence ends, equals the parallel assignment and changes nothing but fresh temporaries; there are temporaries exactly when there is a cycle, and each costs at most one copy more. |
| ParallelCopies.Resolve | src/backend/parallel_copy.cpp:169-233 | The resolver succeeds exactly when the group has no cycle apart from self-copies, then implements the parallel assignment, and leaves an ordered group in its order. |
| ParallelCopies.OrderedRuns | src/backend/parallel_copy.cpp:169-233 | An ordered group executed in its own order is the parallel assignment. |
| ParallelCopies.OrderedHasNoCycle | src/backend/parallel_copy.cpp:169-233 | An ordered group never makes the resolver give up. |
| ParallelCopies.SwapHasCycle | src/backend/machine_pipeline.cpp:115-116 | A swap is a cycle on which the resolver gives up: there is no temporary. |
| ParallelCopies.ForbidEarlierTargets | src/backend/regalloc.cpp:519-533 | The first loop forbids for each source exactly the physical targets written before it. |
| ParallelCopies.CountPhysicalReads | src/backend/regalloc.cpp:535-540 | The multiset of physical sources of the group. |
| ParallelCopies.ForbidLaterReads | src/backend/regalloc.cpp:535-553 | The second loop forbids for each target exactly the physical sources still to be read after it. |
| ParallelCopies.ColoredGroupOrdered | src/backend/regalloc.cpp:505-554 | Every coloring that avoids the forbidden colors leaves the copy group ordered, hence without cycles. |
| CopyGroups.RunsOrdered | src/backend/parallel_copy.cpp:179-231 | However spill code splits an ordered group, each run is ordered by itself, so the resolver gives up on none of them. |
| CopyGroups.TargetHolds | src/backend/regalloc.cpp:505-508 | A target keeps what its source held when its run began, through all later runs and whatever stands between them, as long as that code keeps the target. |
| CopyGroups.SourceHolds | src/backend/regalloc.cpp:505-508 | A source that no interruption touches still has its value from before the group when its copy comes: no earlier copy of the group overwrote it. |
| CopyGroups.SplitRuns | src/backend/regalloc.cpp:505-508 | A group in any number of runs, with any code in between that keeps the targets already written (it may reload sources): in the end every target holds what its source held when its run began, and the resolver succeeds on every run. |
| CopyGroups.SplitIsParallel | src/backend/regalloc.cpp:505-508 | With every source left alone or reloaded with the value it stands for, the split group is the parallel assignment. |
| CopyGroups.ReloadsKeepTargets | src/backend/regalloc.cpp:505-508 | Code between the runs of an ordered group that writes only sources still to be read keeps every target already written. |
| CopyGroups.ReloadedIsParallel | src/backend/regalloc.cpp:505-508 | So an ordered group interrupted by reloads is the parallel assignment, and no run has a cycle. |
| CopyGroups.CollectRun | src/backend/parallel_copy.cpp:185-197 | The inner loop takes the longest stretch of copies of one group. |
| CopyGroups.ResolveBlock | src/backend/parallel_copy.cpp:178-233 | Over a block whose groups are ordered, however interrupted, the resolver never gives up and only drops self-copies; when it gives up, some run has a cycle. |
| CopyGroups.ForbidGroups | src/backend/regalloc.cpp:509-554 | Over all groups of the function exactly the colors already written for a source or still to be read after a target are added to the forbidden ones. |
| CopyGroups.ColoredGroupsOrdered | src/backend/regalloc.cpp:505-554 | Every coloring that avoids these colors leaves every group ordered, hence without cycles. |
| PhiElimination.CollectEdges | src/backend/parallel_copy.cpp:18-28 | Collects each edge into a block with PHIs from a block with another way out, once, and no other edge. |
| PhiElimination.Eliminator.SplitOne | src/backend/parallel_copy.cpp:51-82 | Splitting one edge redirects exactly that edge and renames its predecessor in exactly the successor's PHIs. |
| PhiElimination.GatherCopies | src/backend/parallel_copy.cpp:86-112 | Gathers for every block the copies of all PHI operands naming it, in the order of the PHIs. |
| PhiElimination.SplitGathers | src/backend/parallel_copy.cpp:86-112 | A split block gathers exactly the assignments of its edge. |
| PhiElimination.BlockGathers | src/backend/parallel_copy.cpp:86-112 | A block of the function gathers exactly the assignments of its only edge, or nothing. |
| PhiElimination.PredInjective | src/backend/parallel_copy.cpp:30-82 | Different predecessors reach a block through different blocks after splitting. |
| PhiElimination.Eliminator.Run | src/backend/parallel_copy.cpp:11-167 | For every valid SSA function the pass ends with a lowered function: no PHIs, one copy sequence per edge into a PHI block, all other edges and instructions as before. |
| PhiLowering.EdgeAgrees | src/backend/parallel_copy.cpp:114-159 | Copies on an edge leave every register of the function with the value its PHIs give it. |
| PhiLowering.StepLowered | src/backend/parallel_copy.cpp:11-167 | One block of the SSA function corresponds to one or two blocks of the lowered one. |
| PhiLowering.LoweringPreservesRuns | src/backend/parallel_copy.cpp:11-167 | After any number of blocks the lowered function stands at the same block with the same history, having run at most twice as many blocks. |
| Target.AllocationOrderIsBank | src/backend/register_info.cpp:133-171 | The allocation order lists exactly the allocatable registers of the class, whatever the preference. |
| Target.AllocationOrderDistinct | src/backend/register_info.cpp:133-171 | No register is listed twice. |
| Target.AllocationOrderPrefers | src/backend/register_info.cpp:133-171 | In a function without calls no register that has to be saved comes before one that need not; in others the registers of arguments and results come last. |
| Target.UnreservedIsPreserved | src/backend/register_info.cpp:49-65 | A register of a bank is never reserved, and is caller-saved exactly when it is not callee-saved. |
| Liveness.CallPreservedMask | src/backend/isel.cpp:48-66 | The mask of a call keeps the stack pointer, X18 to X29 and V8 to V15, all callee-saved registers among them. |
| Liveness.CallWrites | src/backend/machine_analysis.cpp:93-124 | A call with that mask and no definitions of its own writes exactly the caller-saved registers and the link register. |
| Dataflow.SummarizeBlock | src/backend/machine_analysis.cpp:151-164 | The forward scan computes the upward-exposed uses and the definitions of a block. |
| Dataflow.SummaryDecides | src/backend/machine_analysis.cpp:151-164 | A block summary decides path liveness at the block's start. |
| Dataflow.Sweep | src/backend/machine_analysis.cpp:166-187 | One backward sweep stays below path exposure, grows the sets whenever it reports a change, and reports none exactly at a solution. |
| Dataflow.SolveBackward | src/backend/machine_analysis.cpp:166-187 | The loop ends, and its result is exactly path exposure: some path reads the register before a write. |
| Dataflow.WalkBlock | src/backend/machine_analysis.cpp:189-202 | The reverse walk of a block computes the live set before every instruction. |
| Dataflow.WalkIsExact | src/backend/machine_analysis.cpp:189-202 | From an exact set at the block's end the walk is exact at every position. |
| Dataflow.AnalyzeLiveness | src/backend/machine_analysis.cpp:144-203 | The whole analysis equals path liveness at block ends and before every instruction. |
| Liveness.CollectPhysical | src/backend/machine_analysis.cpp:95-124 | Uses and definitions of one physical instruction: its operands, X0 to X7 and V0 to V7 for a call, X0, V0 and X30 for a return, and every general or vector register outside a register mask. |
| Liveness.AnalyzePhysical | src/backend/machine_analysis.cpp:95-203 | Physical liveness is exact at every block end and before every instruction, read-modify-write instructions included; X0, V0 and X30 are live before every return, the argument registers before every call, and read operands before their instruction. |
| Liveness.ScannedMeaning | src/backend/live_range.cpp:164-180 | The virtual scan finds exactly the exposed reads that no instruction shadows by listing a write first. |
| Liveness.AnalyzeVirtual | src/backend/live_range.cpp:164-202 | The virtual fixpoint equals path liveness at all block ends if and only if no block shadows a read. |
| Liveness.ShadowingHappens | src/backend/live_range.cpp:164-202 | An instruction that lists its write first makes the condition fail. |
| Liveness.CollectAcrossCalls | src/backend/live_range.cpp:204-218 | The reverse walk adds exactly the registers live after some call of the block. |
| LiveSegments.MergeSegments | src/backend/live_range.cpp:64-76 | Merging covers exactly the same slots with ranges that neither overlap nor touch, in order. |
| LiveSegments.Overlaps | src/backend/live_range.cpp:126-138 | The two-index walk finds an overlap exactly when some slot is covered by both lists. |
| LiveSegments.LiveAt | src/backend/live_range.cpp:140-145 | The search by range start decides whether the slot is covered. |
| InterferenceGraphs.InterferenceGraph.constructor | src/backend/interference_graph.cpp:20-40 | The new graph has the intervals as nodes and no edges. |
| InterferenceGraphs.IndexIntervals | src/backend/interference_graph.cpp:20-50 | The index array maps every register to its node, and every other entry to none. |
| InterferenceGraphs.InterferenceGraph.AddEdge | src/backend/interference_graph.cpp:52-72 | Adds the unordered pair exactly when both are distinct known registers of one bank, returns true exactly for a new edge, and keeps degrees equal to neighbour counts. |
| InterferenceGraphs.InterferenceGraph.HasEdge | src/backend/interference_graph.cpp:74-81 | The bit test decides membership in the edge set. |
| InterferenceGraphs.InterferenceGraph.Degree | src/backend/interference_graph.cpp:83-86 | The degree is the number of neighbours. |
| InterferenceGraphs.SetCellRepresents | src/backend/interference_graph.cpp:52-72 | Setting one bit of one word adds exactly that pair to the set the words represent. |
| InterferenceGraphs.NeighborsMatchRow | src/backend/interference_graph.cpp:83-86 | A register has as many neighbours as its row has bits, and exactly those. |
| InterferenceGraphs.TakeLowest | src/backend/interference_graph.cpp:100-119 | Clearing the lowest bit of a word yields the least pending neighbour and leaves exactly the others. |
| InterferenceGraphs.NeighborIterator.Advance | src/backend/interference_graph.cpp:100-119 | The iterator moves to the least neighbour not yet produced, or to the end when there is none. |
| InterferenceGraphs.InterferenceGraph.Neighbors | src/backend/interference_graph.cpp:88-144 | Running the iterator yields every neighbour exactly once, in index order, and stops. |
| RegAlloc.ConnectBlock | src/backend/regalloc.cpp:324-420 | The reverse walk adds exactly the edges between definitions and what is live after them, a copy's source excepted. |
| RegAlloc.BuildInterference | src/backend/regalloc.cpp:324-481 | The graph has exactly the edges between definitions of one instruction, those between definitions and what is live after them, and the extra constraints. |
| RegAlloc.PairsAreInterferences | src/backend/regalloc.cpp:324-462 | Those edges are, by operands and paths alone: two registers interfere when one instruction writes both, or writes one while some path reads the other later before writing it, unless it copies the one from the other. |
| RegAlloc.AcrossCalls | src/backend/live_range.cpp:204-218 | Exactly the registers live across some call. |
| RegAlloc.AcrossIsCrossing | src/backend/live_range.cpp:204-218 | The registers found live across calls are exactly those some path reads after a call before writing them. |
| RegAlloc.RoundDescribed | src/backend/regalloc.cpp:304-553 | Graph and crossing set of a round are both described by the instructions of the function and the paths through it, in both directions. |
| RegAlloc.ExactIsClosed | src/backend/regalloc.cpp:324-360 | Exact block-end sets contain what every successor needs. |
| RegAlloc.ProperHere | src/backend/regalloc.cpp:324-481 | A proper coloring of the graph separates every definition from what is live after it, and keeps values live across calls in preserved registers. |
| RegAlloc.ColorGraph | src/backend/regalloc.cpp:555-608 | Colors properly whatever it colors; without spills it colors every register and then recolors pairs for four rounds; a graph that simplification clears is colored without spills. |
| RegAlloc.ColorOnce | src/backend/regalloc.cpp:304-608 | A round succeeds exactly when nothing is spilled, and then the colors are a proper allocation of the exact live ranges that avoids every forbidden color; without mandatory ties it succeeds whenever simplification clears the graph of the function's interferences. |
| ColoringRound.ColorRound | src/backend/regalloc.cpp:304-608 | The round with its copy groups: success is a proper allocation under which every group is ordered, so the resolver gives up on none, in one piece or interrupted in any way. |
| ColoringRound.HeldGroupsOrdered | src/backend/parallel_copy.cpp:178-233 | A block that holds the colored groups, with any code between their copies, has only ordered groups. |
| Coloring.CountLegal | src/backend/regalloc.cpp:163-178 | Counts the distinct legal colors of a register. |
| Coloring.LegalExactly | src/backend/regalloc.cpp:155-172 | The legal colors of a register are those of its bank that are not forbidden; across a call only callee-saved ones, and none for 128-bit values. |
| Coloring.RemovalLowers | src/backend/regalloc.cpp:211-217 | Removing a register lowers the remaining degree of exactly its neighbours. |
| Coloring.FreeIsSure | src/backend/regalloc.cpp:175-211 | A register that no stuck set contains, that is no set of registers each with at least as many neighbours in the set as legal colors, is always pushed with the guarantee. |
| Coloring.ColorBank.LowerNeighbors | src/backend/regalloc.cpp:211-217 | Lowers the degree of exactly the remaining neighbours of the pushed register and keeps the low set exact. |
| Coloring.ColorRemains | src/backend/regalloc.cpp:220-298 | Fewer colored neighbours than legal colors leave a color over. |
| Coloring.SureHasColor | src/backend/regalloc.cpp:183-298 | A register pushed below its color count still has a legal color when it is popped. |
| Coloring.ExtendProper | src/backend/regalloc.cpp:220-298 | Giving a register an allowed color keeps the coloring proper. |
| Coloring.ColorBank.PartnerAllowed | src/backend/regalloc.cpp:115-130 | True exactly when there is no mandatory tie to an uncolored partner, or the color is legal for the partner and no colored neighbour of it has it. |
| Coloring.ColorBank.JointlyAllowed | src/backend/regalloc.cpp:131-141 | True exactly when the color is allowed for the register and suits its partner. |
| Coloring.ColorBank.Prepare | src/backend/regalloc.cpp:157-181 | Initial degrees and color counts are those of the bank's subgraph, and the low set is exactly the registers below their count. |
| Coloring.ColorBank.Simplify | src/backend/regalloc.cpp:183-218 | Every register of the bank is pushed once; each marked as guaranteed had fewer remaining neighbours than legal colors; one that had not was pushed only when no remaining register was below its count. |
| Coloring.ColorBank.Unavailable | src/backend/regalloc.cpp:223-229 | Exactly the colors of the already colored neighbours. |
| Coloring.ColorBank.FirstAllowed | src/backend/regalloc.cpp:285-293 | Returns the earliest candidate that is allowed and suits the partner, and none exactly when there is none. |
| Coloring.ColorBank.Pick | src/backend/regalloc.cpp:231-293 | A tied partner's allowed color is kept if the tie is mandatory or no hint suits; else the earliest suitable hint is taken, else the earliest suitable color of an affinity partner, else of the order; without a mandatory tie it fails only when every legal color is taken. |
| Coloring.ColorBank.SavedLast | src/backend/regalloc.cpp:285-293 | In a function without calls a register that has to be saved is taken from the order only when no caller-saved one suits. |
| Coloring.ColorBank.Select | src/backend/regalloc.cpp:220-298 | Popping the whole stack colors properly, keeps earlier colors, and spills no guaranteed register without a mandatory tie. |
| Coloring.ColorBank.ColorNodes | src/backend/regalloc.cpp:143-299 | One bank: colored or spilled, never both; proper; guaranteed registers without a mandatory tie are colored. |
| Coloring.ColorBank.ColorBanks | src/backend/regalloc.cpp:555-563 | Both banks: every register is colored or spilled and the coloring is proper; a register in no stuck set is colored unless a mandatory tie binds it, and without mandatory ties a graph with no stuck set is colored without spills. |
| Coloring.ColorBank.CanRecolor | src/backend/regalloc.cpp:71-88 | True exactly when the color is legal and no colored neighbour has it. |
| Coloring.ColorBank.StrongestSatisfiedAffinity | src/backend/regalloc.cpp:50-69 | The largest weight among the affinities whose partner shares the register's color, or zero. |
| Coloring.ColorBank.Adopt | src/backend/regalloc.cpp:581-608 | A register adopts its partner's color exactly when it is legal and no colored neighbour has it; the coloring stays proper and changes nowhere else. |
| Coloring.ColorBank.RecolorPair | src/backend/regalloc.cpp:581-606 | A pair that does not interfere is joined exactly when an endpoint can take the other's color and shares nothing heavier than the pair, the first endpoint before the second; the coloring stays proper. |
| Coloring.ColorBank.Recolor | src/backend/regalloc.cpp:581-608 | The result is that of four rounds over all pairs, although the loop stops early; the coloring stays proper and colors the same registers. |
| Coloring.JoinGains | src/backend/regalloc.cpp:571-606 | When partners know each other's weight, a join shares the color of its pair and gives up no affinity that weighs more than the pair. |
| Renaming.RenamedOp | src/backend/regalloc.cpp:13-29 | An operation with renamed registers produces the same event and agrees on every register to keep. |
| Renaming.RenamedWrites | src/backend/regalloc.cpp:13-29 | Writing results under a renaming that separates them keeps the agreement. |
| Allocation.RewriteVirtualRegisters | src/backend/regalloc.cpp:610-629 | Succeeds exactly when every register has a color, and then replaces each by its color. |
| Allocation.OpSimulates | src/backend/regalloc.cpp:610-629 | An operation, calls included, keeps every live register's value in its color. |
| Allocation.MoveSimulates | src/backend/regalloc.cpp:610-629 | A copy whose ends share a color, a constant or a spill access keeps it too. |
| Allocation.AllocationPreservesRuns | src/backend/regalloc.cpp:324-629 | After any number of blocks physical and virtual code stand at the same block with the same history, whatever calls leave in the registers they may clobber. |
| Spilling.UniqueDefinitionDecides | src/backend/rematerialization.cpp:22-61 | A register with one definition, a constant, is written by nothing else. |
| SpillPass.UniqueConstant | src/backend/rematerialization.cpp:27-54 | The search finds a constant exactly when the register has a single definition and it is a constant. |
| SpillPass.Analyze | src/backend/rematerialization.cpp:22-61 | Recipes are recorded for exactly the candidates with a unique constant definition that is cheaper than a reload. |
| SpillPass.AssignHomes | src/backend/register_spilling.cpp:13-29 | Every spilled register gets its recipe, its old slot or a new one; different registers never share a slot. |
| SpillPass.MakeTemporaries | src/backend/register_spilling.cpp:34-50 | Fresh, distinct temporaries for exactly the spilled registers of an instruction; reloads for the reads, stores for the writes. |
| SpillPass.ExpandInstr | src/backend/register_spilling.cpp:31-125 | One instruction becomes reloads, the renamed instruction and stores; the definition of a constant that is recomputed at its uses disappears. |
| SpillPass.ExpandBlock | src/backend/register_spilling.cpp:31-107 | The loop over a block replaces every instruction by its expansion, in order, with temporaries never used before. |
| SpillPass.InsertSpills | src/backend/register_spilling.cpp:12-126 | The pass expands every instruction of every block and keeps the control flow. |
| Spilling.LoadsRun | src/backend/register_spilling.cpp:54-77 | The reloads bring every spilled value into its temporary and change nothing else. |
| Spilling.StoresRun | src/backend/register_spilling.cpp:90-105 | The stores leave the last defined values in their slots and change nothing else. |
| Spilling.ExpansionMirrors | src/backend/register_spilling.cpp:31-126 | One instruction against its expansion: each live spilled register's value is in its slot, or is its recipe's constant; a slot the original still reads holds the same on both sides even if it is the register's home from an earlier split. |
| SpillPass.SpillingPreservesRuns | src/backend/register_spilling.cpp:12-126 | Spilling preserves every run: every original use sees the value last defined, also when the register's slot is already in use by an earlier split of it. |
| GapSplit.SplitLocalGap | src/backend/live_range_edit.cpp:56-112 | The edit is applied exactly when its benefit exceeds its cost; then the block gets a save, a definition of the sibling and the sibling's name in all later uses, and nothing else changes. |
| GapSplit.SavedPhase | src/backend/live_range_edit.cpp:94-108 | Between definition and split the value stays, and afterwards it is in the slot, or is the recipe's constant. |
| GapSplit.ResumedPhase | src/backend/live_range_edit.cpp:94-108 | Nothing in the gap touches the saved value, and the sibling then holds it. |
| GapSplit.RenamedPhase | src/backend/live_range_edit.cpp:81-92 | Every use after the gap sees the parent's value in the sibling. |
| GapSplit.BlockTracks | src/backend/live_range_edit.cpp:56-112 | The split block has the effect of the original on everything but parent, sibling and slot. |
| GapSplit.SplitPreservesRuns | src/backend/live_range_edit.cpp:56-112 | Splitting a gap preserves every run, from any contents of parent, sibling and slot. |
| Dataflow.ClosedContainsLive | src/backend/live_range.cpp:181-202 | Every family of sets closed under control flow contains what some path reads before writing it. |
| RepairTraffic.PieceTemporaries | src/backend/register_spilling.cpp:44-105 | Temporaries and spilled registers are never waited for from one expansion to the next. |
| RepairTraffic.FlatRegs | src/backend/register_spilling.cpp:31-107 | A register that is not spilled is live before the expanded block exactly when it was before the original. |
| RepairTraffic.FlatSlots | src/backend/register_spilling.cpp:31-107 | A slot that is no home is live before the expanded block exactly when it was before the original. |
| RepairTraffic.FlatOwned | src/backend/register_spilling.cpp:31-107 | Every other register still owns its slot in the expanded block. |
| SplitTraffic.SplitDead | src/backend/live_range_edit.cpp:81-108 | Neither half of a split register is live where its block starts. |
| SplitTraffic.NewSlot | src/backend/live_range_edit.cpp:20-30 | The slot of a split is written before it is read, by the split register alone, which is not defined while the slot is still to be read. |
| SplitTraffic.SplitOwned | src/backend/live_range_edit.cpp:56-112 | Every other register still owns its slot in the split block. |
| RepairInvariant.UnspilledIsSound | src/backend/regalloc.cpp:631-637 | The invariant holds before the first round, for every function that reads no register before it is written. |
| RepairInvariant.SpillableNow | src/backend/register_spilling.cpp:20-29 | Under the invariant the spill pass finds what it relies on, reused slots included. |
| RepairInvariant.SpillKeepsSound | src/backend/register_spilling.cpp:12-126 | A spill round keeps the invariant. |
| RepairInvariant.SplittableNow | src/backend/live_range_edit.cpp:20-30 | Under the invariant the slot of a split is new: only divided registers have a slot and still occur, and they are not split again. |
| RepairInvariant.SplitKeepsSound | src/backend/live_range_edit.cpp:56-112 | A split round keeps the invariant. |
| RepairInvariant.SplitThenSpilled | src/backend/register_spilling.cpp:20-29 | A register split through a slot and spilled in a later round gets the same slot, which the code already stores to, and the spill is covered. |
| RepairInvariant.SpillRound | src/backend/register_spilling.cpp:12-126 | Recipes, slots and rewrite together are one spill round of the given registers. |
| RepairInvariant.SplitRound | src/backend/live_range_edit.cpp:56-112 | Slot choice and edit together are one split round, applied exactly when the benefit exceeds the cost. |
| RepairInvariant.SoundEntry | src/backend/regalloc.cpp:637-643 | After any number of rounds exact liveness finds no register live on entry. |
| SpillPass.EnteredRecords | src/backend/register_spilling.cpp:44-50 | The temporaries entered in the register table carry the classes of the operands they replace. |
| RepairTyping.FlatTyped | src/backend/register_spilling.cpp:31-107 | In the expanded block every operand has its register's class, and every spill access fits the width of its slot. |
| RepairTyping.FlatUnshadowed | src/backend/register_spilling.cpp:31-107 | An expanded block lists no write of a register before a read of it if the original did not. |
| RepairTyping.SpillKeepsTyped | src/backend/register_spilling.cpp:12-126 | A spill round keeps everything a coloring round asks of the function. |
| RepairTyping.SplitUnshadowed | src/backend/live_range_edit.cpp:56-112 | A split block lists no write of a register before a read of it if the original did not. |
| RepairTyping.SplitKeepsTyped | src/backend/live_range_edit.cpp:56-112 | A split round keeps everything a coloring round asks of the function. |
| RepairTyping.ReadyToColor | src/backend/regalloc.cpp:637-643 | With one interval for every register that occurs, the function meets the coloring round's requirements. |
| AllocationRounds.RoundBehaves | src/backend/regalloc.cpp:655-672 | One round that splits or spills leaves a function that behaves the same and again satisfies the invariant. |
| AllocationRounds.RoundsKeepTyped | src/backend/regalloc.cpp:637-677 | Any number of rounds keeps what a coloring round asks of the function. |
| AllocationRounds.AllocatorPreservesBehaviour | src/backend/regalloc.cpp:631-677 | From any function without spill code, after any sequence of splitting and spilling rounds, a register split and later spilled to the same slot included, and one successful coloring, the physical code behaves like the virtual code the allocator was given. |
| AllocationRounds.FinishAllocation | src/backend/regalloc.cpp:637-643 | After any rounds the coloring round may start, and when it spills nothing the rewritten function behaves like the one the allocator was given, from every state. |
| SpillSlots.ForwardOne | src/backend/spill_optimization.cpp:43-97 | The loop body turns a reload whose value is known into a copy or nothing, records loads and stores, and forgets what is overwritten. |
| SpillSlots.ForwardKnownValues | src/backend/spill_optimization.cpp:39-101 | The loop over a block equals the specified forwarding, starting with nothing known. |
| SpillSlots.NoReloadLeft | src/backend/spill_optimization.cpp:39-101 | Where a register that stored or loaded a slot is still intact in the block, no later reload of the slot remains: it becomes a copy from that register, or nothing. |
| SpillSlots.ForwardSound | src/backend/spill_optimization.cpp:39-101 | Every recorded register holds its slot's content, and the replacement has the original's effect. |
| SpillSlots.ForwardBlockSound | src/backend/spill_optimization.cpp:39-101 | Forwarding changes nothing about a block's effect. |
| SpillSlots.RemoveDeadStores | src/backend/spill_optimization.cpp:146-175 | The removal loop removes exactly the stores to slots that are not live after them. |
| SpillSlots.WithoutSound | src/backend/spill_optimization.cpp:103-175 | A block without its dead stores agrees on registers, history and every live slot. |
| SpillSlots.Optimize | src/backend/spill_optimization.cpp:179-185 | Over the function exactly the stores that no path reads before an overwrite are removed. |
| SpillSlots.OptimizerPreservesRuns | src/backend/spill_optimization.cpp:39-175 | The optimized program has the same history at every block of every run. |
| Regions.RangesApart | src/backend/scheduler.cpp:187-232 | Two offset ranges from one base that do not meet as integers share no byte, address wrap-around included. |
| Regions.AliasSound | src/backend/scheduler.cpp:187-232 | Accesses the test calls independent touch no common byte when both see the same base value. |
| Regions.AliasNeeded | src/backend/scheduler.cpp:187-232 | The alias test says no more than it has to: for accesses that are not volatile and end inside the 64-bit integers, wherever it sees a possible overlap some machine makes both touch one byte. |
| Regions.DependsExactly | src/backend/scheduler.cpp:479-495 | Two instructions depend exactly when one writes a register or the flags the other reads or writes, or both access memory, one of them stores and they may alias. |
| Regions.StoresApart | src/backend/scheduler.cpp:187-232 | Neighbours without a dependence touch no common byte if one stores, although a base may be redefined elsewhere. |
| Regions.Commute | src/backend/scheduler.cpp:479-495 | Exchanging two neighbours without a dependence changes neither registers, flags nor memory. |
| Regions.MovePast | src/backend/scheduler.cpp:479-495 | An instruction moves past any stretch it has no dependence with, and all accesses stay as described. |
| Regions.OrderIrrelevant | src/backend/scheduler.cpp:479-512 | Any two orders of the same positions that keep the dependences give the same machine. |
| Regions.ScheduleIrrelevant | src/backend/scheduler.cpp:479-540 | Any permutation of a region that keeps the dependences computes what the region computes. |
| Scheduler.BuildGraph | src/backend/scheduler.cpp:479-495 | Successors and predecessor counts are exactly those of the register, flag and memory dependences. |
| Scheduler.Release | src/backend/scheduler.cpp:408-421 | Choosing a node lowers the counts of exactly its successors; the ready set is exactly the pending nodes with none left. |
| Scheduler.EmitBest | src/backend/scheduler.cpp:408-421 | Emitting any ready node keeps counts and ready set exact for what is still pending. |
| Scheduler.EveryoneEmitted | src/backend/scheduler.cpp:350-424 | When nothing is ready every node has been emitted. |
| Scheduler.BuildOrder | src/backend/scheduler.cpp:350-424 | Every instruction is emitted exactly once, never before one it depends on, for every score. |
| Scheduler.ScheduleRegion | src/backend/scheduler.cpp:441-541 | The scheduled region is a permutation with the same effect; regions outside the size limits are left alone. |
| Scheduler.ScheduleBlock | src/backend/scheduler.cpp:545-610 | A block keeps its effect; every terminator, call, pseudo-instruction, side effect, parallel copy and volatile access keeps its place; the stretches between are permuted. |
| Halving.TrailingZeros | src/backend/pre_ra_optimizations.cpp:1826-1850 | Leading zeros of the reversed word are its trailing zeros, and all of them for zero. |
| Halving.EvenUntil | src/backend/pre_ra_optimizations.cpp:1579-1584 | A word stays even for as many halvings as it has trailing zeros, and is odd after them. |
| Halving.OddStepEven | src/backend/pre_ra_optimizations.cpp:1875-1879 | Three times an odd word plus one is even modulo 2^32. |
| HalvingLoop.AllHalvings | src/backend/pre_ra_optimizations.cpp:1579-1584 | The original loop goes round exactly as often as the state has trailing zeros, adds that to the count and arrives at its test with an odd state. |
| HalvingLoop.ZeroNeverLeaves | src/backend/pre_ra_optimizations.cpp:1579-1584 | From state zero the original loop never leaves. |
| HalvingLoop.OneRound | src/backend/pre_ra_optimizations.cpp:1579-1584 | One round of the batched loop against the trips of the original it stands for. |
| HalvingLoop.BatchedLeaves | src/backend/pre_ra_optimizations.cpp:1744-1988 | Whenever the original loop leaves, the batched one leaves the same way: the edges' state and count and all other registers agree, the loop's own two as HalvingExit.OwnRegistersAgree says. |
| HalvingLoop.OriginalLeaves | src/backend/pre_ra_optimizations.cpp:1744-1988 | Whenever the batched loop leaves, so does the original, with the same agreement: both diverge from the same states. |
| HalvingRewrite.LoopBlocks.BatchEvenEdge | src/backend/pre_ra_optimizations.cpp:1822-1873 | The edit of the even edge: count zeros, one variable shift, one addition, the cloned latch. |
| HalvingRewrite.LoopBlocks.BatchOddEdge | src/backend/pre_ra_optimizations.cpp:1874-1962 | The edit of the odd edge, after its own increment, with fresh temporaries. |
| HalvingRewrite.LoopBlocks.Batch | src/backend/pre_ra_optimizations.cpp:1834-1988 | The whole edit, with the reuse of the loop's counter when it is allowed. |
| HalvingRewrite.TripleComputed | src/backend/pre_ra_optimizations.cpp:1804-1818 | The matched add-with-shift computes three times the state. |
| HalvingRewrite.RewritePairs | src/backend/pre_ra_optimizations.cpp:1834-1988 | The rewritten blocks, run instruction by instruction, are a batched form of the original loop. |
| HalvingRewrite.RewrittenLeaves | src/backend/pre_ra_optimizations.cpp:1585-1988 | The rewritten loop exits whenever the original does, with the edges' state, count modulo 2^32 and all registers but the loop's own two the same, from any machines that agree outside the edges' registers; where the last trip began decides about those two. The latch has no odd predecessor but the straight path. |
| HalvingRewrite.OriginalLeft | src/backend/pre_ra_optimizations.cpp:1585-1988 | Whenever the rewritten loop exits so does the original, with the same agreement, the loop's own two registers excepted (they may differ, and the latch has no odd predecessor but the straight path): for state zero, where 32 counted zeros shift by nothing, both go round for ever. |
| HalvingRewrite.ReuseNeedsOddMatch | src/backend/pre_ra_optimizations.cpp:1744-1760 | Reusing the counter without a matched odd edge loses the odd edge's increment. |
| HalvingRewrite.ReuseNeedsEveryEdge | src/backend/pre_ra_optimizations.cpp:1744-1760 | With a reused counter any edge that still goes through the latch, a third predecessor included, loses its trip. |
| HalvingExit.ExitStateDiffers | src/backend/pre_ra_optimizations.cpp:1834-1988 | From state 4 with sentinel 1 the original exits with 2 in its state register and the batched loop with 4; the count registers differ too. |
| HalvingExit.OwnRegistersAgree | src/backend/pre_ra_optimizations.cpp:1585-1988 | At the exit the state registers agree if and only if the last batched trip took one halving or an odd edge left as it was; the count registers exactly then too without reuse, and never with a reused counter. |
| HalvingExit.StraightAlike | src/backend/pre_ra_optimizations.cpp:1725-1746 | Straight code that reads no register that may differ before writing it keeps the agreement, and what it writes agrees again. |
| HalvingExit.RedirectedAlike | src/backend/pre_ra_optimizations.cpp:1976-1988 | The exit block with its copy of the count redirected to the loop's own counter arrives alike, if neither count is written before the copy. |
| HalvingExit.ExitFollowed | src/backend/pre_ra_optimizations.cpp:1585-1988 | If no path after the exit reads the loop's own state and count or a register of the edges before writing it, the programs are at the same place, with the same live registers, after any number of blocks. |
| HalvingExit.SideExitFollowed | src/backend/pre_ra_optimizations.cpp:1585-1988 | Where the odd computation leaves the loop even the loop's own two registers agree, and any code that ignores the edges' registers goes on alike. |
| BranchRelaxation.InverseExactly | src/backend/instruction_info.cpp:76-110 | The inverse of a condition passes exactly when the condition fails, except for "always". |
| BranchRelaxation.FitsIsField | src/backend/cfg_optimizations.cpp:229-237 | The range test accepts exactly the displacements that are four times a number of the branch's field: fourteen signed bits for a bit test, nineteen for the others. |
| BranchRelaxation.Layout.ComputeOffsets | src/backend/cfg_optimizations.cpp:519-531 | The offset maps are the byte offsets of blocks and instructions, a copy that emits nothing included. |
| BranchRelaxation.Layout.FindOutOfRange | src/backend/cfg_optimizations.cpp:533-567 | Finds the first conditional branch whose displacement its field cannot hold, or none when every one can be encoded. |
| BranchRelaxation.Layout.SplitAt | src/backend/cfg_optimizations.cpp:575-631 | The edit: new block, inverted branch over a long branch, successors divided. |
| BranchRelaxation.OutOfRangeUnsettled | src/backend/cfg_optimizations.cpp:569-573 | An out-of-range branch has not been relaxed before and its block has the two successors the pass insists on. |
| BranchRelaxation.SettledInRange | src/backend/cfg_optimizations.cpp:603-631 | A relaxed branch is eight bytes from its target and stays in range however the code grows. |
| BranchRelaxation.SplitShape | src/backend/cfg_optimizations.cpp:575-631 | A split keeps the shape the pass relies on. |
| BranchRelaxation.SplitSettles | src/backend/cfg_optimizations.cpp:518-632 | Each split removes exactly one block from those with an unrelaxed branch, so the loop ends. |
| BranchRelaxation.SplitResolves | src/backend/cfg_optimizations.cpp:575-631 | For every outcome of every test an original block goes where it went, through the new block or not. |
| BranchRelaxation.SplitKeepsTransfers | src/backend/cfg_optimizations.cpp:575-631 | A split preserves the control transfer of all original blocks. |
| BranchRelaxation.OriginalResolves | src/backend/cfg_optimizations.cpp:515-518 | Without new blocks, where a block resolves to is where it goes. |
| BranchRelaxation.Layout.Relax | src/backend/cfg_optimizations.cpp:515-636 | The pass ends, every conditional branch can be encoded in its field as verifier.cpp:440-502 checks, and every original block transfers control as before; each step splits the first branch that cannot, and nothing changes when there is none. |
| Dominators.ComputeReachable | src/backend/machine_analysis.cpp:250-258 | The worklist finds exactly the blocks some path from the entry reaches. |
| Dominators.MeetPredecessors | src/backend/machine_analysis.cpp:274-291 | The inner loop evaluates a block's equation over its reachable predecessors. |
| Dominators.EvaluationCovers | src/backend/machine_analysis.cpp:267-297 | Evaluating an equation never loses a true dominator. |
| Dominators.SolutionOnPath | src/backend/machine_analysis.cpp:267-297 | In a solution every member of a block's set lies on every path from the entry to it. |
| Dominators.FixpointIsDominance | src/backend/machine_analysis.cpp:260-297 | The fixpoint is exactly path dominance. |
| Dominators.DominatorTree.Sweep | src/backend/machine_analysis.cpp:268-297 | A sweep shrinks the sets when it reports a change and leaves a solution when it reports none. |
| Dominators.DominatorTree.Analyze | src/backend/machine_analysis.cpp:239-298 | The iteration ends with exactly the dominators of every reachable block. |
| NaturalLoops.BodyDominated | src/backend/machine_analysis.cpp:310-355 | Every block of a loop body is dominated by the header. |
| NaturalLoops.Grow | src/backend/machine_analysis.cpp:334-346 | The walk from one latch adds exactly the blocks that reach it without passing the header. |
| NaturalLoops.WalkedBody | src/backend/machine_analysis.cpp:334-346 | A finished walk has found every block that reaches a latch around the header. |
| NaturalLoops.CollectLoops | src/backend/machine_analysis.cpp:315-348 | One loop for each header of a back edge, with exactly that header's latches. |
| NaturalLoops.CollectedIsNatural | src/backend/machine_analysis.cpp:310-355 | The collected loops are exactly the natural loops of the graph. |
| NaturalLoops.CountDepths | src/backend/machine_analysis.cpp:350-360 | A block's depth is the number of loops around it. |
| NaturalLoops.LoopInfo.Analyze | src/backend/machine_analysis.cpp:310-360 | The analysis leaves exactly the natural loops and the depths they give. |
| FrameLayout.AlignTo | src/backend/frame_lowering.cpp:25-27 | The least multiple of the alignment that is not below the value. |
| FrameLayout.Frame.PlaceSaved | src/backend/frame_lowering.cpp:205-213 | Save slots lie above the outgoing area, eight bytes each, in order. |
| FrameLayout.Frame.PlaceObjects | src/backend/frame_lowering.cpp:214-226 | Spill slots, then other objects, aligned, inside their area and pairwise disjoint; every spill slot lies below every other object, no more room is used than sizes and alignments ask for, and fixed objects stay. |
| FrameLayout.Frame.LayoutFrame | src/backend/frame_lowering.cpp:202-229 | Outgoing area, save slots and objects are disjoint, aligned and inside a frame of a multiple of 16 bytes, which is no larger than they need; spill slots lie below the other objects. |
| FrameCode.TestsAreFields | src/backend/frame_lowering.cpp:16-41 | The three offset tests accept exactly what the immediate fields hold: twelve bits, shifted or not, for additions; twelve bits in units of the access; seven signed bits in units of a register for pairs. |
| FrameCode.NextAddSubImmediate | src/backend/frame_lowering.cpp:52-58 | The chunk is encodable, positive for a positive amount, at most the amount, and keeps 16-byte alignment. |
| FrameCode.LargestPiece | src/backend/frame_lowering.cpp:52-58 | No encodable immediate that is at most the amount is larger than the chunk. |
| FrameCode.InsertStackAdjustment | src/backend/frame_lowering.cpp:60-75 | The chunks sum to the amount, each is encodable and keeps the stack pointer aligned, and there is one for each 4095 units of 4096 bytes begun and one for the rest. |
| FrameCode.StaysAligned | src/backend/frame_lowering.cpp:60-75 | At no point of emitted frame code is the stack pointer off its alignment. |
| FrameCode.ObjectsResolved | src/backend/frame_lowering.cpp:77-85 | A fixed object is found at the caller's address with the caller's contents; an object of the frame lies below everything the caller sees. |
| FrameCode.DetermineCalleeSaves | src/backend/frame_lowering.cpp:187-200 | Exactly the callee-saved registers an operand names, in ascending order. |
| FrameCode.GroupForSaving | src/backend/frame_lowering.cpp:94-139 | Groups from the front cover each saved register once, at its offset, in order; a pair is of two general or two vector registers at neighbouring slots, and no register is left alone that fits a pair with the next. |
| FrameCode.GroupForRestoring | src/backend/frame_lowering.cpp:94-139 | Groups from the back cover the same registers at the same offsets, with pairs of one kind of register, and no register left alone that fits a pair with the one before. |
| FrameCode.InsertSavedRegisterAccess | src/backend/frame_lowering.cpp:142-183 | The access is encodable and has the effect of the plain access, the stack pointer moved and brought back if need be; it is one instruction when the offset fits the field. |
| FrameCode.LowerSpillAccess | src/backend/frame_lowering.cpp:288-343 | A lowered spill access is encodable and accesses the original address; it is one instruction when the offset fits the field. |
| FrameCode.LowerFrameAddress | src/backend/frame_lowering.cpp:240-286 | The additions are encodable, as few as the pieces of the offset, and leave the object's address. |
| FrameCode.SaveRegisters | src/backend/frame_lowering.cpp:376-383 | The stores put every saved register in its slot and change no other memory. |
| FrameCode.RestoreRegisters | src/backend/frame_lowering.cpp:385-392 | The loads bring every saved register back and change nothing else. |
| FrameCode.InsertPrologue | src/backend/frame_lowering.cpp:353-383 | Allocates the frame, saves the link register and every saved register, and leaves the caller's memory alone; every instruction can be encoded, pairs of one kind of register only. |
| FrameCode.InsertEpilogue | src/backend/frame_lowering.cpp:385-406 | Restores every saved register and the link register and releases the frame, again in encodable instructions. |
| FrameCode.SavedSlotted | src/backend/frame_lowering.cpp:202-213 | The layout's save slots are what prologue and epilogue need: apart and inside the frame. |
| FrameCode.CallPreserves | src/backend/frame_lowering.cpp:353-407 | A body that keeps the frame, between prologue and epilogue, gives the caller back its stack pointer, every saved register and the link register. |
| FrameCode.CalleeSavesReturned | src/backend/frame_lowering.cpp:187-407 | With the registers found by the scan, a body that keeps the frame and writes only registers it names gives every callee-saved register back to the caller. |

## Left out

- The driver, the visualizer, `sylib`, assembly printing and global data: I/O and text.
- The generated opcode tables and selection patterns: data; the opcode facts used are written out.
- Floating-point values, latencies, spill costs, pressure metrics and placement scores: every choice they make is arbitrary here; affinity weights are real numbers.
- Block placement: in a last block ending in a bit test plus a branch the code compares an unset target with a null fallthrough, so it does not always preserve transfers.
- Tied-operand repair after allocation: it covers only some of the tied opcodes.
- Signal safety below the stack pointer, the range of unconditional branches, symbol layout and volatile memory.
- RegAlloc.ColorOnce: colors forbidden by physical operands other than those of copy groups enter as a parameter; those of copy groups are computed by ColoringRound.ColorRound.
- RegAlloc.BuildInterference: edges for tied operands, early clobbers and fixed physical operands enter as an arbitrary set of extra pairs, and physical operands in code being allocated are not modelled.
- Coloring.ColorBank.Recolor: the pairs come sorted and weighted; how the weights are summed up from the copies is left out.
- Coloring.ColorBank.Pick: a register with a mandatory tie may be spilled although a color is free for it alone, as in the code.
- SpillPass.Analyze: the operations that can be recomputed are represented by constants; their table of costs is a parameter.
- GapSplit.SplitLocalGap: how a plan is found and ranked is left out; the plan enters with what its search guarantees about operands and gap.
- AllocationRounds.AllocatorPreservesBehaviour: the choice between splitting and spilling and the limit of 64 rounds are left open; every sequence of rounds is covered, and what each round's choice guarantees (fresh names, the shape of a split plan) enters as the definition of a round.
- AllocationRounds.FinishAllocation: ties, hints, affinities and copy groups of the last round are given; that they stay inside one bank and name known registers is required.
- LiveSegments.MergeSegments: segments with no slot in them, which the slot numbering never produces, are excluded.
- FrameLayout.Frame.LayoutFrame: sizes are unbounded; the 32-bit wrap-around of a frame of four gigabytes is not modelled.
- FrameCode.LowerSpillAccess: a memory cell is named by the address of its access, and a slot's offset is a multiple of its width as the layout makes it.
- PhiElimination.Eliminator.Run: terminators are not instructions here; a block that gets copies has one way out, whose branch reads no register.
- PhiElimination.Eliminator.SplitOne: the ways out of a block are its branch operands, which are replaced in place; the separate successor list, where the edge is removed and the new one appended, has no order of its own here.
- HalvingRewrite.LoopBlocks.Batch: the pattern match on the control-flow graph enters as the shape of the matched blocks.
- Scheduler.ScheduleRegion: register pressure and scores choose among orders and are left open.
- Vector constants, addressing-mode selection, copy propagation and the other peephole passes: each rewrites a few neighbouring instructions and relies on nothing proved here.
