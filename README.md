# PIR force dominance, reference counts, type inference and call contexts

A Dafny model of four parts of the R just-in-time compiler (Ř / rir):

- **Force dominance** (`force_dominance.cpp`). The abstract state `ForcedBy` has four parts:
  - `forcedBy`: for each value, not forced, forced by one `Force`, or ambiguous;
  - `inScope`: the declared values;
  - `escaped`: for each promise, where it escaped;
  - `argumentForceOrder` and `ambiguousForceOrder`: the order in which arguments are forced.

  The model covers its operations (`declare`, `sideeffect`, `forcedAt`, `escape`, `merge`/`mergeExit`), its queries, the per-instruction transfer rule `ForceDominanceAnalysis::apply`, and the decisions `ForceDominance::apply` takes: which forces become strict, which promises are inlined (with or without updating their environments), which forces of eager promises are replaced, and which forces are replaced by their dominator.
- **Static reference counts** (`refrence_count.h`). A use-count map saturating at 2 with a max-merge, the phi alias map, and the transfer rule.
- **Type inference** (`types.cpp`). The fixed point over instruction types: each sweep intersects a rule's result with the instruction's current type; the builtin rule table; and the final write-back.
- **Call contexts** (`Context.cpp`). Printing, the short form `<...|...>`, masking by specialization level, and `isImproving`.

Modules and files:

| file | module | contents |
|---|---|---|
| ir.dfy | Ir | values, instruction kinds and effects, `Code`, `followCasts`, the four-level `AbstractResult` |
| force_lattice.dfy | ForceLattice | `ForcedBy` as a value, each operation as a function, the queries |
| force_dominance.dfy | ForceDominance | class `ForcedBy` whose methods (loops over maps and sets) are proved against ForceLattice |
| force_transfer.dfy | ForceTransfer | the transfer rule as functions |
| force_analysis.dfy | ForceAnalysis | class `ForceDominanceAnalysis` whose `Apply` updates a `ForcedBy` in place |
| force_plan.dfy | ForcePlan | the decisions and the two replacement phases of `ForceDominance::apply` |
| reference_count.dfy | ReferenceCount | classes `AUses` and `StaticReferenceCount` |
| pir_types.dfy | PirTypes | `PirType` as a set of R types and a set of "maybe" flags |
| type_inference.dfy | TypeInference | the rule table, the sweeps and `Apply` |
| context.dfy | Contexts | class `Context` and the textual forms |

Operations that update state in place are class methods. Each is proved equal to a specification function of the old state. The properties the source promises are lemmas about those functions.

## Model

| member | source | states |
|---|---|---|
| ForceLattice.Declared | rir/src/compiler/opt/force_dominance.cpp:62-83 | the declared value is in scope and not forced; a declared MkArg has no escape entry; every other entry, and the force order, is unchanged |
| ForceDominance.ForcedBy.Declare | rir/src/compiler/opt/force_dominance.cpp:62-83 | the new state is `Declared` of the old one; the result reports exactly whether the state changed |
| ForceLattice.SideEffectedFacts | rir/src/compiler/opt/force_dominance.cpp:85-105 | an escaped, not yet forced promise becomes ambiguous and its escape set is cleared; forced entries and entries that have not escaped keep their values |
| ForceLattice.SideEffectIdempotent | rir/src/compiler/opt/force_dominance.cpp:85-105 | a second side effect changes nothing |
| ForceTransfer.SideEffectSilent | rir/src/compiler/opt/force_dominance.cpp:85-105 | the side effect changes the state exactly when it reports a change |
| ForceDominance.ForcedBy.Sideeffect | rir/src/compiler/opt/force_dominance.cpp:85-105 | the new state is `SideEffected` of the old one; the result is true iff some escaped promise was not yet forced |
| ForceDominance.ForcedBy.SideEffectLoop | rir/src/compiler/opt/force_dominance.cpp:87-103 | the loop over the escape map computes the side-effected maps and reports whether any entry changed |
| ForceLattice.ForceOfNonPhi | rir/src/compiler/opt/force_dominance.cpp:107-131 | forcing a non-phi records the force only where the entry was absent or not forced; no other entry changes |
| ForceLattice.ForceOfPhi | rir/src/compiler/opt/force_dominance.cpp:109-126 | every value reached through a phi with another input is recorded as ambiguous, unless it was already forced |
| ForceLattice.ForceRecordedKeepsForces | rir/src/compiler/opt/force_dominance.cpp:107-131 | an existing force, ambiguous included, is never overwritten; an unforced reached value gets a force; values not reached are untouched |
| ForceLattice.ReachesBeyond | rir/src/compiler/opt/force_dominance.cpp:110-126 | a value reaches something other than itself iff it is a phi with an input other than itself |
| ForceDominance.ForcedBy.ForcedAt | rir/src/compiler/opt/force_dominance.cpp:107-131 | the new state is `ForceRecorded` of the old one; the result is true iff `forcedBy` changed |
| ForceDominance.ForcedBy.ForcePhiInput | rir/src/compiler/opt/force_dominance.cpp:109-127 | the recursive visit stops at a phi already seen, and otherwise marks what it reaches without going outside the reach set |
| ForceLattice.EscapeFacts | rir/src/compiler/opt/force_dominance.cpp:133-152 | escaping a forced promise changes nothing and reports nothing; escaping via a non-MkEnv clears the set; an empty set stays empty; a first MkEnv starts the set; re-adding a present MkEnv reports nothing |
| ForceLattice.EscapeSilentMeansUnchanged | rir/src/compiler/opt/force_dominance.cpp:133-152 | an escape that reports no change leaves the state as it was |
| ForceDominance.ForcedBy.Escape | rir/src/compiler/opt/force_dominance.cpp:133-152 | the new state is `Escaped` of the old one, and the result is the report the source gives |
| ForceLattice.MergeKeepsAmbiguous | rir/src/compiler/opt/force_dominance.cpp:161-184 | an ambiguous entry stays ambiguous after any merge |
| ForceLattice.MergeDisagreement | rir/src/compiler/opt/force_dominance.cpp:161-184 | in a non-exit merge, an entry forced by F becomes ambiguous when the other side forces it differently or has it unforced but in scope, and stays F when the other side agrees or does not have it in scope |
| ForceLattice.MergeOtherSideForced | rir/src/compiler/opt/force_dominance.cpp:186-199 | an entry unforced here and forced there becomes ambiguous when it is in scope here, and stays unforced otherwise |
| ForceLattice.MergeExitCopies | rir/src/compiler/opt/force_dominance.cpp:161-199 | an exit merge copies the other side's entry where this side has none or has it unforced, and keeps a force the other side does not have |
| ForceLattice.MergeMonotone | rir/src/compiler/opt/force_dominance.cpp:161-199 | a merge, exit merge or not, never lowers an entry: a force stays the same force or becomes ambiguous |
| ForceLattice.MergeEscapes | rir/src/compiler/opt/force_dominance.cpp:201-216 | the merged escape map has the keys of both sides; a non-empty set survives only where both sides hold the same set |
| ForceLattice.MergeOrder | rir/src/compiler/opt/force_dominance.cpp:218-246 | the merged force order is the longest common prefix of both orders; it is ambiguous iff either side was, or the orders differed; ambiguity is never lost |
| ForceLattice.CommonPrefixMaximal | rir/src/compiler/opt/force_dominance.cpp:222-236 | the common prefix cannot be extended |
| ForceLattice.CommonPrefixAt | rir/src/compiler/opt/force_dominance.cpp:222-236 | any maximal shared prefix is the computed common prefix |
| ForceLattice.MergeOfUnforcedEntries | rir/src/compiler/opt/force_dominance.cpp:186-199 | two explicit not-forced entries in scope merge to ambiguous and the merge reports lost precision |
| ForceLattice.MergeSelf | rir/src/compiler/opt/force_dominance.cpp:154-249 | merging a state with itself keeps its keys, its forces, its escapes and its order, when the merge is an exit merge or no in-scope entry is explicitly not forced |
| ForceDominance.ForcedBy.Merge | rir/src/compiler/opt/force_dominance.cpp:158-249 | the new state is `Merged(old, other, false)`, and the result is the report the source computes |
| ForceDominance.ForcedBy.MergeExit | rir/src/compiler/opt/force_dominance.cpp:154-156 | the same with `exitMerge` set |
| ForceDominance.ForcedBy.MergeForces | rir/src/compiler/opt/force_dominance.cpp:161-199 | the two loops over force entries compute the merged `forcedBy` and report lost forces, adopted forces and the MkArgs that became ambiguous |
| ForceDominance.ForcedBy.MergeEscapeSets | rir/src/compiler/opt/force_dominance.cpp:201-216 | the two loops over escape sets compute the merged escape map and report whether it changed |
| ForceDominance.ForcedBy.MergeOrders | rir/src/compiler/opt/force_dominance.cpp:218-246 | the order becomes the common prefix, ambiguity is or-ed in, and the result says whether either changed |
| ForceLattice.MaybeForced | rir/src/compiler/opt/force_dominance.cpp:251-259 | true iff the argument is in the force order or the order is ambiguous |
| ForceLattice.EagerLikeFunction | rir/src/compiler/opt/force_dominance.cpp:261-269 | true iff the order is not ambiguous and its first `nargs` entries are 0, 1, … |
| ForceLattice.GetDominatingForce | rir/src/compiler/opt/force_dominance.cpp:275-284 | some force iff the forced value has an entry that is a single force, and then that force |
| ForceLattice.IsSafeToInline | rir/src/compiler/opt/force_dominance.cpp:292-304 | SafeToInline iff the promise has not escaped; NotSafeToInline iff its set is empty or the force does not dominate in the final state; SafeToInlineWithUpdate otherwise |
| ForceLattice.DeclareThenForceDominates | rir/src/compiler/opt/force_dominance.cpp:62-131 | a force right after the declaration of a non-phi value dominates |
| ForceLattice.SideEffectBlocksDomination | rir/src/compiler/opt/force_dominance.cpp:85-131 | after a side effect, an escaped unforced promise has no dominating force, even once it is forced |
| ForceTransfer.BoundPromisesIff | rir/src/compiler/opt/force_dominance.cpp:376-392 | the promises bound to a name in the local frame are exactly the MkArg bindings of that name |
| ForceTransfer.PhiStep | rir/src/compiler/opt/force_dominance.cpp:422-428 | a phi never changes the force order and never taints |
| ForceTransfer.ForceStep | rir/src/compiler/opt/force_dominance.cpp:429-446 | a Force changes only `forcedBy` and the order, the order only grows, and an ambiguous order stays as it is |
| ForceTransfer.OtherStep | rir/src/compiler/opt/force_dominance.cpp:449-477 | other instructions keep the order and its ambiguity, and the scope only grows |
| ForceTransfer.TransferSilentMeansUnchanged | rir/src/compiler/opt/force_dominance.cpp:353-479 | a step that reports no change leaves the state as it was |
| ForceTransfer.ForceOfArgumentOrder | rir/src/compiler/opt/force_dominance.cpp:429-437 | a Force of an LdArg appends its id only while the order is not ambiguous and the id is not there yet |
| ForceTransfer.ForceOfArgumentOnce | rir/src/compiler/opt/force_dominance.cpp:429-437 | forcing the same argument again leaves the order as it is |
| ForceTransfer.ForcingEffectFreezesOrder | rir/src/compiler/opt/force_dominance.cpp:468-476 | an instruction with a Force effect seen while the order is shorter than `nargs` makes the order ambiguous and taints, unless the order was already ambiguous |
| ForceTransfer.TransferMonotone | rir/src/compiler/opt/force_dominance.cpp:353-479 | the force order only grows, an ambiguous order is frozen, and the scope only grows |
| ForceTransfer.InertInstructions | rir/src/compiler/opt/force_dominance.cpp:449-477 | PushContext, CastType and Deopt change at most the escape map, and nothing at all when they do not read the environment |
| ForceAnalysis.ForceDominanceAnalysis.Apply | rir/src/compiler/opt/force_dominance.cpp:353-479 | the new state is the transfer of the old one, and the result is its report |
| ForceAnalysis.ForceDominanceAnalysis.ApplyKind | rir/src/compiler/opt/force_dominance.cpp:422-477 | the state after the escape bookkeeping is updated by the rule for the instruction's kind |
| ForceAnalysis.ForceDominanceAnalysis.ApplyPhi | rir/src/compiler/opt/force_dominance.cpp:422-428 | the state becomes `PhiStep` of the old one |
| ForceAnalysis.ForceDominanceAnalysis.ApplyForce | rir/src/compiler/opt/force_dominance.cpp:429-446 | the state becomes `ForceStep` of the old one |
| ForceAnalysis.ForceDominanceAnalysis.ApplyOther | rir/src/compiler/opt/force_dominance.cpp:449-477 | the state becomes `OtherStep` of the old one |
| ForceAnalysis.ForceDominanceAnalysis.EscapeBookkeeping | rir/src/compiler/opt/force_dominance.cpp:367-420 | an environment access drops or clears the promises bound to the accessed name; an unhandled access that reads the environment clears every escape set |
| ForceAnalysis.ForceDominanceAnalysis.DropBound | rir/src/compiler/opt/force_dominance.cpp:376-392 | the escape entries of the bound promises are removed, with whether any was bound and whether any entry went |
| ForceAnalysis.ForceDominanceAnalysis.ClearBound | rir/src/compiler/opt/force_dominance.cpp:394-408 | the escape sets of the bound promises are cleared, with whether any was bound and whether a known set was cleared |
| ForceAnalysis.ForceDominanceAnalysis.ClearEscapes | rir/src/compiler/opt/force_dominance.cpp:411-419 | every escape set is cleared, and the result says whether any was known |
| ForceAnalysis.ForceDominanceAnalysis.EscapeOperandsOf | rir/src/compiler/opt/force_dominance.cpp:356-365 | the operands that are MkArgs escape to the instruction |
| ForcePlan.Decide | rir/src/compiler/opt/force_dominance.cpp:538-563 | a force is made strict (inlined or not) iff it dominates in the analysis result at the exits reachable from it (`resultIgnoringUnreachableExits`) |
| ForcePlan.InlineDecision | rir/src/compiler/opt/force_dominance.cpp:541-556 | a force is inlined only if it dominates, forces a lazy MkArg, the promise is smaller than 10 in huge code, and inlining is safe; an update is needed iff the promise escaped, and then the update is its non-empty escape set |
| ForcePlan.DominatedDecision | rir/src/compiler/opt/force_dominance.cpp:559-562 | a force is recorded as dominated iff it does not dominate but a dominating force exists; that force is a different one |
| ForcePlan.PlanContents | rir/src/compiler/opt/force_dominance.cpp:532-566 | the plan's strict set, inline set, update map and dominator map hold exactly the visited forces with those verdicts |
| ForcePlan.StrictAndDominatedDisjoint | rir/src/compiler/opt/force_dominance.cpp:541-562 | no force is both strict and dominated; forces needing an update are inlined, and inlined forces are strict |
| ForcePlan.Phase1Contents | rir/src/compiler/opt/force_dominance.cpp:573-755 | the forces of eager MkArgs are replaced by the eager value, the forces in the inline set are inlined, and the phase reports a change iff it rewrote something (casts of eager MkArgs included) |
| ForcePlan.Phase2Contents | rir/src/compiler/opt/force_dominance.cpp:756-778 | a dominated force that was not removed is replaced by its dominator, or by the inlined result if the dominator was inlined; the replacement is never the force itself |
| ForcePlan.Phase2Members | rir/src/compiler/opt/force_dominance.cpp:756-778 | the replacements of the second phase, for any plan |
| ForcePlan.ForcesOutsideTheDecisionWalk | rir/src/compiler/opt/force_dominance.cpp:532-778 | a force the decision walk does not visit (one inside a deoptimization branch) is never made strict, inlined, dominated or replaced in the second phase; the first phase still replaces it by the eager value iff the phases visit it and it forces an eager MkArg |
| ForcePlan.PhasesDisjoint | rir/src/compiler/opt/force_dominance.cpp:532-778 | a force replaced in the second phase was neither inlined nor made strict |
| ForcePlan.ForceDominancePass.Run | rir/src/compiler/opt/force_dominance.cpp:513-804 | the pass computes the plan with the size threshold over the decision walk's order (the instructions outside deoptimization branches), then both phases over the order of all instructions, and returns the first phase's change flag |
| ForcePlan.ForceDominancePass.Decisions | rir/src/compiler/opt/force_dominance.cpp:532-566 | the loop over the decision walk's instructions computes `PlanOf` |
| ForcePlan.ForceDominancePass.InlinePhase | rir/src/compiler/opt/force_dominance.cpp:573-755 | the loop over all instructions computes `Phase1Of` |
| ForcePlan.ForceDominancePass.ReplacePhase | rir/src/compiler/opt/force_dominance.cpp:756-778 | the loop over all instructions computes `Phase2Of` |
| ForcePlan.RecordProperties | rir/src/compiler/opt/force_dominance.cpp:526-530 | outside the closure's own code the properties are unchanged; in its own code the force order is recorded, and the closure is eager iff it already was or the final order is not ambiguous and starts 0, 1, …, `nargs` - 1 |
| ReferenceCount.MergeIsMaximum | rir/src/compiler/analysis/refrence_count.h:13-26 | the merge keeps the keys of both sides, takes the larger count where both have one, and never lowers a count |
| ReferenceCount.MergeReportsChange | rir/src/compiler/analysis/refrence_count.h:16-23 | the merge reports an update iff it added a key or raised a count, that is iff the map changed |
| ReferenceCount.MergeIsJoin | rir/src/compiler/analysis/refrence_count.h:13-26 | the merge is commutative and idempotent and keeps counts within 2 |
| ReferenceCount.MergeAssociative | rir/src/compiler/analysis/refrence_count.h:13-26 | the merge is associative |
| ReferenceCount.AUses.Merge | rir/src/compiler/analysis/refrence_count.h:13-26 | the loop over the other map leaves the max-union and reports Updated iff a count was raised or a key added |
| ReferenceCount.AUses.MergeExit | rir/src/compiler/analysis/refrence_count.h:12 | the same as `Merge` |
| ReferenceCount.AUses.Count | rir/src/compiler/analysis/refrence_count.h:63-69 | one use is added below 2, and the result says whether the count went up |
| ReferenceCount.OperandFacts | rir/src/compiler/analysis/refrence_count.h:63-81 | counting one operand keeps the keys, raises each count by at most one, stays within 2 and reports exactly a change |
| ReferenceCount.ArgsCountedFacts | rir/src/compiler/analysis/refrence_count.h:83 | counting all operands keeps the keys, never lowers a count, stays within 2 and reports exactly a change |
| ReferenceCount.AppliedSaturated | rir/src/compiler/analysis/refrence_count.h:49-85 | the transfer keeps every count within 2 |
| ReferenceCount.AppliedResets | rir/src/compiler/analysis/refrence_count.h:51-61 | a phi leaves the state as it is; a count of exactly 1 on an instruction that needs counting makes the step report an update and is reset to 0, where it stays unless an operand raises it; no other count goes down, and otherwise an update is reported iff the map changed |
| ReferenceCount.OperandTargets | rir/src/compiler/analysis/refrence_count.h:71-81 | an operand that needs no counting changes nothing; a phi operand raises each of its inputs and not itself |
| ReferenceCount.PhiAliasFacts | rir/src/compiler/analysis/refrence_count.h:37-42 | a phi's alias set is its instruction inputs, and a phi without any gets no entry |
| ReferenceCount.AliasContents | rir/src/compiler/analysis/refrence_count.h:34-44 | the alias map has exactly the visited phis with instruction inputs, each mapped to those inputs |
| ReferenceCount.StaticReferenceCount.constructor | rir/src/compiler/analysis/refrence_count.h:34-44 | the nested loops build `AliasOf` over the visit order |
| ReferenceCount.StaticReferenceCount.CountOperand | rir/src/compiler/analysis/refrence_count.h:71-81 | the loop over a phi's aliases counts each of them |
| ReferenceCount.StaticReferenceCount.Apply | rir/src/compiler/analysis/refrence_count.h:49-85 | the state becomes `Applied` of the old one, and the result is its report |
| PirTypes.SimpleScalar | rir/src/compiler/opt/types.cpp:53-56 | the result is a simple scalar within the given type |
| PirTypes.MeetNarrows | rir/src/compiler/opt/types.cpp:258 | intersecting with the current type gives a type within both, and leaves a type already within it unchanged |
| TypeInference.SweepNarrows | rir/src/compiler/opt/types.cpp:256-264 | every stored type stays within the instruction's current type |
| TypeInference.SweepDone | rir/src/compiler/opt/types.cpp:30-269 | a sweep ends done only if it started done, changed no entry and had an entry for every operand the rules looked up |
| TypeInference.SweepGrows | rir/src/compiler/opt/types.cpp:260-263 | a sweep never removes an entry |
| TypeInference.IterateFacts | rir/src/compiler/opt/types.cpp:266-269 | the loop keeps every type within the current type; when it has converged, one more sweep changes nothing and every operand the rules look up has an entry |
| TypeInference.WriteBackContents | rir/src/compiler/opt/types.cpp:272-277 | only visited instructions that produce a result and have an entry get the inferred type; every other type stays |
| TypeInference.BitwiseInfersInteger | rir/src/compiler/opt/types.cpp:50-58 | with the corrected table, every bitwise builtin, `bitwiseShiftR` included, infers integer, a simple scalar iff its first call argument is and, except for `bitwiseNot`, its second one too |
| TypeInference.BitwiseAsWrittenInfersInteger | rir/src/compiler/opt/types.cpp:50-58 | with the table as written, each listed builtin infers integer, a simple scalar iff the types of call arguments 0 and 1 are simple scalars |
| TypeInference.BitwiseRuleReadsOnly | rir/src/compiler/opt/types.cpp:53-56 | for either table, the bitwise rule depends only on the types of the call arguments it reads |
| TypeInference.TestsInferLogical | rir/src/compiler/opt/types.cpp:124-166 | `typeof` infers a scalar string; the tests on an argument that is not an object infer a logical simple scalar that is not NA |
| TypeInference.SummaryShapes | rir/src/compiler/opt/types.cpp:68-92 | `min`, `max`, `prod` and `sum` infer a simple scalar; none of them, nor `abs`, infers logical; `prod` never infers integer and `abs` never complex |
| TypeInference.Apply | rir/src/compiler/opt/types.cpp:17-280 | with the table as written, the loops compute the fixed point then the write-back, and report no CFG change |
| TypeInference.ApplyNarrows | rir/src/compiler/opt/types.cpp:258-277 | for either table, after the pass every instruction's type is within its type before the pass |
| TypeInference.ShiftRightMissedAsWritten | rir/src/compiler/opt/types.cpp:50-52 | the table as written has no `bitwiseShiftR`, so the shift gets the generic rule; the corrected table infers integer |
| TypeInference.BitwiseNotReadsPastItsArgument | rir/src/compiler/opt/types.cpp:53-56 | as written, `bitwiseNot(x)` reads call arguments 0 and 1 and, when the absent second argument is not a simple scalar, infers a plain integer for a simple-scalar `x`; corrected, it reads only argument 0 and infers a simple-scalar integer |
| TypeInference.BitwiseReadsWithinArity | rir/src/compiler/opt/types.cpp:53-56 | with the corrected table, a bitwise rule reads no argument beyond its arity, so its result does not depend on what an absent argument reads as |
| Contexts.NamesDistinct | rir/src/runtime/Context.cpp:19-66 | two different assumptions, or type assumptions, print differently |
| Contexts.FormatSeparators | rir/src/runtime/Context.cpp:68-84 | the printed context holds `;` iff it has type flags and `:` iff its missing count is positive |
| Contexts.Context.Print | rir/src/runtime/Context.cpp:68-84 | the loops print `Format` of the context |
| Contexts.ShortReprShape | rir/src/runtime/Context.cpp:88-183 | the short form starts with `<`, ends with `>` and holds exactly one bar character |
| Contexts.ArgGroupContents | rir/src/runtime/Context.cpp:136-153 | a group appears for an argument iff some assumption holds for it; it is the digit, `:`, the letters and a space; the letters name exactly the assumptions that hold |
| Contexts.GroupLettersDecode | rir/src/runtime/Context.cpp:138-147 | a row's letter is written iff that row's assumption holds, in the order E, r, o, I, R |
| Contexts.SuffixContents | rir/src/runtime/Context.cpp:155-181 | the suffix is empty iff no flag is held, and otherwise a space and the words joined by `-`; the words are the codes of exactly the flags held |
| Contexts.Context.ShortStringRepr | rir/src/runtime/Context.cpp:86-185 | the nested loops build `ShortRepr` of the context |
| Contexts.ArgGroupsString | rir/src/runtime/Context.cpp:136-153 | the nested loops build the argument groups |
| Contexts.SuffixString | rir/src/runtime/Context.cpp:155-181 | the vector of words and the join loop build the suffix |
| Contexts.Specialized | rir/src/runtime/Context.cpp:198-247 | no level adds an assumption; level 0 empties the type flags and keeps only StaticallyArgmatched and the flags of the minimal context; levels 0 to 4 reset the missing count and level 5 keeps it; levels 1 and 2 keep only eager flags and level 3 eager and not-object flags; levels 2 to 5 drop NoExplicitlyMissingArgs; other levels change nothing |
| Contexts.SpecializeIdempotent | rir/src/runtime/Context.cpp:198-247 | specializing twice at one level is specializing once |
| Contexts.SpecializationOrdered | rir/src/runtime/Context.cpp:198-247 | a higher level keeps at least what a lower level keeps, when the minimal context lacks NoExplicitlyMissingArgs |
| Contexts.Context.SetSpecializationLevel | rir/src/runtime/Context.cpp:198-247 | the fields become `Specialized` of the old context |
| Contexts.ImprovingIff | rir/src/runtime/Context.cpp:258-283 | false on equal contexts; otherwise true iff, with dots or default arguments, the missing counts differ, or the normalized context holds a flag or type flag the other lacks |
| Contexts.OnlyIgnoredAssumptionsDoNotImprove | rir/src/runtime/Context.cpp:265-281 | adding only not-object flags, or StaticallyArgmatched without dots, is never an improvement |
| Contexts.Context.IsImproving | rir/src/runtime/Context.cpp:258-283 | the steps on the local copy compute `Improving` |

## Left out

- The generic fixed-point driver (`generic_static_analysis.h`), the CFG, the dominance graph and the visitors are not part of this model. A pass sees its instructions as visit orders (`seq<Value>`): the decision walk of `ForceDominance::apply` skips deoptimization branches, so it gets its own order, and the two phases get the order of all instructions. The analysis results are inputs to `ForcePlan`: the state before each force, the result at the exits reachable from each force (`resultIgnoringUnreachableExits`, the field `atReachableExits`), and the final result. `AbstractResult` is modelled as a four-level join.
- ForcePlan.ForceDominancePass.InlinePhase: records which rewrites happen, not how. Block cloning, splitting, splicing, framestate patching, checkpoint removal, environment rewriting and `replaceDominatedUses` (force_dominance.cpp:586-735, 780-803) are left out. The third phase (force_dominance.cpp:780-799, rerouting the remaining uses of forced MkArgs), the removal of dead blocks (line 802) and the narrowing of the dominating force's type (line 771) are left out too; none of them changes the reported result.
- ForcePlan.ForceDominancePass.Run: `PROMISE_INLINER_MAX_SIZE` comes from the environment; here it is the `maxSize` parameter, and `DefaultPromiseInlinerMaxSize` is its default.
- ForcePlan.RecordProperties: `ClosureProperties` holds only `IsEager` and `argumentForceOrder`; the other properties are not part of this model.
- The `print` methods of `ForcedBy` and `AUses`, and all logging, are left out (output only).
- PirTypes: `PirType` (pir_type.h) is not part of this model. It is abstracted as a set of R types plus a set of "maybe" flags, with `&` as intersection.
- TypeInference: range analysis, `inferType`, `mergeWithConversion` and the per-rule type constructors that `vector`, `c` and the vector accesses use come from an `Oracle` parameter. Builtin names are given as strings. A call argument beyond the argument list reads as the oracle's `absentArg`, because what `callArg` reads past the end is not part of this model.
- TypeInference: the oracle's `inferType`, `collectionType` and range analysis are assumed to look up every operand through `getType`. This assumption decides when a sweep reports `done`. The rules for `typeof`, `length`, `strsplit` and a handled `vector` call look up no operand, so a sweep can end done while such an operand has no entry.
- TypeInference.Apply: the `while (!done)` loop has a `fuel` bound on the number of sweeps, because the rules are abstract and termination cannot be shown for them; the result says whether it converged within the bound.
- Contexts: `Context.h` is not part of this model. These points are assumptions:
  - the enum order follows the order the printing code lists the values in;
  - `NUM_TYPED_ARGS` is 6;
  - `clearObjFlags` drops the not-object type flags;
  - `operator|` unites flags and type flags (the missing counts are equal wherever it is used);
  - `pir::Compiler::minimalContext` is a parameter.
- Contexts.Context.IsImproving: the debug assertion `smaller(other)` is not a precondition, because `smaller` is declared in `Context.h`; the result is defined for all pairs.
- Contexts: `serialize`/`deserialize` (raw bytes) and the `isImproving(Function*)` / `isImproving(ClosureVersion*)` wrappers are left out.
- Contexts: the missing count is an unbounded `nat`; the source stores it in 8 bits, but no operation here does arithmetic on it.

## Findings

| source | as written | input that shows it | evidently intended | confidence | as-written member | corrected member |
|---|---|---|---|---|---|---|
| rir/src/compiler/opt/types.cpp:50-52 | the bitwise set lists `"bitwiseShiftLR"`, which names no builtin | a call of `bitwiseShiftR` | `"bitwiseShiftR"`, so that the right shift also infers integer | not executed | TypeInference.ShiftRightMissedAsWritten | TypeInference.BitwiseInfersInteger |
| rir/src/compiler/opt/types.cpp:53-56 | every bitwise builtin reads `callArg(1)`, `bitwiseNot` included | a call of `bitwiseNot(x)` with a simple-scalar `x`, where the absent second argument's type is not a simple scalar | only binary builtins read a second argument | not executed | TypeInference.BitwiseNotReadsPastItsArgument | TypeInference.BitwiseReadsWithinArity |
