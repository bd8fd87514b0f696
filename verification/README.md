# Verification of the translator's reduction runtime and replacement proofs

This project models and verifies the parts of the CUDA-to-Ascend translator whose correctness does not
depend on Clang: the block-reduction runtime that translated kernels run on, the static analyses that
decide whether a kernel may be replaced, and the deciders over call and type graphs.  `dafny verify
dfyconfig.toml` checks all of it.

**The reduction runtime** (`acl_cub/aclcub.hpp`).  `Folds`, `WarpGeometry` and `Arithmetic` are the ground.
`AllReduceProtocol` is a transition system: threads with program counters run any number of
double-buffered AllReduce calls, one atomic action at a time, with the single barrier inside each call;
`AllReduceResults` says what the calls return and when that is the fold of the block, `AllReduceNecessity`
that the alternation of the buffers cannot be given up without a barrier between calls, and
`AllReduceProgress` that runs of n calls end; `IntegerMonoids` supplies the 32-bit operations.
`TreeReduction` and `Butterfly` treat the generic tree (again under every interleaving) and the shuffle.
`BlockReduce` is the class itself, over storage updated in place; it takes one of the schedules of the
protocol.

**The replacement proofs** (`src/DavC310TargetRecipe.cpp`).  `BodyText`, `ReturnTokens`, `ConditionalReturns`,
`SourceBody` and `SourceText` are the scan of a primitive's source over nested conditional groups, against
the translation phases (section 5.2 of ISO/IEC 14882:2017) and a reference model of conditional inclusion
(section 19.1) in which a configuration gives every condition a value.  `PhaseAgreement`, `PhaseExactness`
and `OutOfStep` say for which texts the scan finds what the phases find, `SourceText` and
`MergedAlternatives` give families of texts for which it does not, and `ReturnMeaning` says what the returns
compute.  `PrimitiveRegistry` is the memoised
classifier of forwarding functions, with a meaning for calls; `TemplateTable` is its table of templates and
`RegistrySources` what its kinds say about the functions' texts.  `Expressions`, `AlphaEquivalence`,
`AlphaCompleteness` and `BranchConflict` compare expressions over loop indices and the requirements of branches.  `Coverage` is the
loop nests and the emitted guard, `PackedTransfer` the packed adapters, `CfgExit` the search of the
control-flow graph, and `CopySweep` the reachability along storage copies.

**The graph deciders**.  `BoundedInlining`, `TypeGraph`, `SymbolScan` and `NoRecursion`.

## Findings

Where the code does not do what its comments or its use promise for all inputs, an input shows it and the
condition under which it does is proved, both ways where the lemma says "exactly" or "if and only if":

- The warp second level (`FoldWarp`, taken by the automatic choice above four warps) is wrong in the last
  warp when that warp has fewer lanes than the block has warps (`WarpFoldExact`, `PartialWarpSum`).
- The generic tree is the fold for all inputs only for power-of-two block sizes (`TreeExact`).
- The guard for layer-norm warp kernels does not ask that the rows be a multiple of the rows per access, as
  the one for softmax does (`PartialGroupLeaves`), and without padding no guard compares the two column
  counts per thread (`MinimumAboveMaximum`).  The recogniser permits a padding test but does not ask for one
  (`UntestedLeaves`), takes a single access in the loop up to the minimum (`LeastMisses`), and does not check
  that the RMS tail skip comes before the access (`LateSkipLeaves`).  `WarpCoverage` is the exact condition;
  `WholeTiles`, `LeastTiles` and `BothTiles` read it for the kernels there are, and for the usual ones the
  guard is right exactly as `SoftmaxCoverage` and `PairGuard` say.  The guard speaks of the nest
  as recognised: the kernel itself would leave the matrix, or miss part of it.
- The scan of a primitive's source ends a directive at the end of its line even inside a block comment, so
  it can count a return that is commented out (`Misread`, `CommentHidesReturn`).  It also takes a # for a
  directive's behind a comment of several lines that follows code, and so accepts a text with an empty
  configuration (`AlternativesMerge`, `HashBehindComment`).  Texts in which neither happens are exactly those
  it reads as the translation phases do (`OnePassIsExact`), as long as no comment opens for it inside another
  (`AlikeByAccident`) and the phases are modelled for the text (the exceptions are listed under "Left out").
- The matcher of returns does not ask whether a parameter has the name of the function called; exactly then it
  counts a call of the parameter (`UnhiddenIsExact`).
- Matching of loop indices is not injective, and a conflict between requirements on indices of different
  loops is no contradiction (`RenamingMergesIndices`, `ConflictAcrossLoops`); the latter only makes the
  recogniser refuse more.  A conflict without renamed indices is one (`ConflictIsReal`), and a conflict between
  bare indices is one if and only if they are the same index (`IndexConflictIsReal`).
- The type search marks canonical types but reads the arguments a type was written with, so what it finds
  can depend on the order of its worklist (`AliasHidesGroup`; exactly when, `MissedExactly`).
- Equal positions of storage copies leave the answer to the order of the sort (`TiesDecide`; exactly when,
  `TiesExactly`).
- The symbol scan's skip is right for identifiers, and for exactly the symbols `Skippable` describes
  (`ScanIsExact`).

## Model

| member | source | states |
|---|---|---|
| `Folds.TwoLevelFold` | `acl_cub/aclcub.hpp:272-292` | For an associative operation, folding the folds of consecutive non-empty blocks is folding all their elements. |
| `Folds.FoldPadded` | `acl_cub/aclcub.hpp:282-290` | Padding with an identity element does not change a fold. |
| `Folds.FoldHalves` | `acl_cub/aclcub.hpp:367-373` | For an associative and commutative operation, one halving step (element t with element t + half) keeps the fold. |
| `WarpGeometry.WarpFoldsFoldBlock` | `acl_cub/aclcub.hpp:205-207` | The folds of the 32-lane warps of a block, the last of them possibly partial, fold to the fold of the block. |
| `AllReduceProtocol.Run.ContractAlternates` | `acl_cub/aclcub.hpp:245-253` | An `iter` that grows by one at each reuse takes alternate buffers, for negative counters too. |
| `AllReduceProtocol.StepKeepsInv` | `acl_cub/aclcub.hpp:339-349` | Every action of every thread (publish, arrive, pass the barrier, read one slot, finish, warp collective) keeps the invariant that ties published slots, barrier counts and partial folds to each thread's own call. |
| `AllReduceProtocol.InvExcludesConflict` | `acl_cub/aclcub.hpp:212-217` | With alternating buffers, or with a barrier between calls, no thread is about to write a slot that another may still read or write. |
| `AllReduceProtocol.InvCanStep` | `acl_cub/aclcub.hpp:343-346` | In every state that satisfies the invariant some thread of the least call any thread is in can take a step that waits for nothing: the first warp reduction (which needs every lane of its warp in the same call), the barrier, the second warp collective and a barrier between calls never deadlock. |
| `AllReduceProtocol.EveryScheduleIsSafe` | `acl_cub/aclcub.hpp:338-349` | After every schedule of any number of calls, with alternating buffers and no barrier but the one inside, or with any buffers and the caller's barrier between calls: no race, a step that waits for nothing, and the i-th result of every thread is the value of the i-th call. |
| `AllReduceResults.WarpFoldExact` | `acl_cub/aclcub.hpp:303-308` | The identity-padded warp fold gives the block's fold in every thread of every block exactly when the lanes of the last warp are at least as many as the warps; otherwise a concrete input loses its last warp. |
| `AllReduceResults.AutoChoice` | `acl_cub/aclcub.hpp:318-320` | The automatic choice takes the serial fold exactly for blocks of at most 128 threads. |
| `AllReduceResults.AutoChoiceExact` | `acl_cub/aclcub.hpp:318-330` | What AllReduce returns with the automatic choice of fold is the fold of all inputs, in every thread and for all inputs, exactly when the block has at most 128 threads, or threads that 32 divides, or a last warp with a lane for every warp. |
| `AllReduceResults.ResultIsValue` | `acl_cub/aclcub.hpp:339-349` | A call of the protocol, in any schedule, returns in each thread what the class's call does for the same inputs, with either fold. |
| `AllReduceResults.ReduceIsBlockFoldInWarpZero` | `acl_cub/aclcub.hpp:271-292` | Reduce's second level, folded by warp 0 alone, is the fold of all inputs whatever the last warp. |
| `AllReduceResults.ResultIsBlockFold` | `acl_cub/aclcub.hpp:340-349` | The value of a protocol call is the fold of exactly that call's inputs. |
| `AllReduceResults.DoubleBufferedAllReduce` | `acl_cub/aclcub.hpp:245-253` | The main theorem of the runtime: for every interleaving and any number of consecutive calls whose `iter` grows by one, no race and no deadlock, and every thread's i-th result is the fold of exactly the i-th inputs. |
| `AllReduceResults.SingleBufferedAllReduce` | `acl_cub/aclcub.hpp:235-238` | With the caller's reuse barrier between the calls the same holds with one buffer, or any choice of the two. |
| `AllReduceProgress.CallsComplete` | `acl_cub/aclcub.hpp:338-349` | Every run of n calls ends: it has at most a stated number of actions, and can stop only when each thread has returned n times with the results of its calls; until then a step of one of the n calls waits for nothing. |
| `AllReduceNecessity.SameBufferRaces` | `acl_cub/aclcub.hpp:212-217` | If two consecutive calls of a block with several warps use one buffer, a schedule is constructed, for any block and either fold, in which every warp reduction waits for its lanes and which reaches a race on slot 0. |
| `AllReduceNecessity.AlternationIsExact` | `acl_cub/aclcub.hpp:247-248` | A block with several warps is free of races in all schedules whose warp reductions wait for their lanes exactly when consecutive calls take different buffers. |
| `IntegerMonoids.Int32Laws` | `acl_cub/aclcub.hpp:55-69` | Sum (modulo 2^32), Max and Min over int32 are associative and commutative, with the stated identities. |
| `IntegerMonoids.UInt32Laws` | `acl_cub/aclcub.hpp:55-69` | The same over uint32. |
| `IntegerMonoids.Int32Values` | `acl_cub/aclcub.hpp:55-69` | Sums are congruent to the operands' sum modulo 2^32, and the extremes are one of the operands, above or below neither. |
| `IntegerMonoids.UInt32Values` | `acl_cub/aclcub.hpp:55-69` | The same over uint32. |
| `IntegerMonoids.Int32FoldsAgree` | `acl_cub/aclcub.hpp:295-308` | Over int32 the serial and the identity-padded warp second level agree, with each other and with the flat fold, in every warp with at least as many lanes as there are warps. |
| `IntegerMonoids.UInt32FoldsAgree` | `acl_cub/aclcub.hpp:295-308` | The same over uint32. |
| `IntegerMonoids.PartialWarpSum` | `acl_cub/aclcub.hpp:318-320` | The automatic choice is wrong for 129 threads: the sum of an input with a single 1 in thread 128 is 0 there. |
| `TreeReduction.TreeIsFold` | `acl_cub/aclcub.hpp:367-375` | For a power-of-two block and an associative and commutative operation, the stride-halving tree is the fold of all inputs. |
| `TreeReduction.TreeExact` | `acl_cub/aclcub.hpp:367-375` | The tree is the fold for every input exactly when the block size is a power of two; otherwise a stated thread's input is lost. |
| `TreeReduction.StepKeepsInv` | `acl_cub/aclcub.hpp:367-374` | Every interleaved action of the tree's threads keeps the invariant on cells, barriers and partial results. |
| `TreeReduction.InvExcludesConflict` | `acl_cub/aclcub.hpp:367-374` | Between two barriers no cell written by one thread is read or written by another. |
| `TreeReduction.TreeReductionInEverySchedule` | `acl_cub/aclcub.hpp:360-376` | In every schedule: no conflict, no deadlock before all have returned, and every thread returns the tree's value. |
| `Butterfly.XorFlipsBit` | `acl_cub/aclcub.hpp:408-410` | Lane xor mask, for a mask that is a power of two, is the lane's partner in the other half of its group. |
| `Butterfly.ExchangeKeepsGroupFold` | `acl_cub/aclcub.hpp:408-410` | One exchange keeps the fold of every group while halving what the lanes have to range over. |
| `Butterfly.ShuffleFoldsGroup` | `acl_cub/aclcub.hpp:408-410` | After the masks width/2, ..., 2, 1 every lane of a power-of-two group holds the fold of the whole group. |
| `BlockReduceStorage.BlockReduce.FoldSerial` | `acl_cub/aclcub.hpp:295-302` | The serial second level returns the fold of the published slots. |
| `BlockReduceStorage.BlockReduce.FoldWarp` | `acl_cub/aclcub.hpp:303-308` | The warp second level returns the fold of the lanes' padded view of the slots. |
| `BlockReduceStorage.BlockReduce.Publish` | `acl_cub/aclcub.hpp:343-344` | Lane 0 of each warp leaves the warp's fold in the warp's slot of one buffer, and the other buffer is unchanged. |
| `BlockReduceStorage.BlockReduce.AllReduceDB` | `acl_cub/aclcub.hpp:339-349` | One double-buffered call, with the automatic or a given fold, returns the AllReduce value in every thread, leaves the warps' folds in the buffer of its parity when there are several warps, and touches nothing else; with the serial fold, and with the automatic choice in such blocks, every thread gets the fold of all inputs. |
| `BlockReduceStorage.HalveInPlace` | `acl_cub/aclcub.hpp:368-372` | One step of the stride loop, in place, replaces the live half by the halved sequence and leaves the rest alone. |
| `BlockReduceStorage.ReduceGeneric` | `acl_cub/aclcub.hpp:360-376` | The stride loop over the shared buffer returns the tree's value. |
| `BlockReduceStorage.ShuffleWarps` | `acl_cub/aclcub.hpp:408-410` | The mask loop, in place, leaves in every lane the fold of its warp. |
| `BlockReduceStorage.ReduceShuffle` | `acl_cub/aclcub.hpp:404-425` | Thread 0 of the shuffle reduction gets the serial fold of the warps' leaders. |
| `BlockReduceStorage.LeaderHoldsWarpFold` | `acl_cub/aclcub.hpp:408-414` | After the shuffle the lane that publishes holds the fold of its whole warp. |
| `BlockReduceStorage.ShuffledBlockIsFold` | `acl_cub/aclcub.hpp:404-425` | For whole warps and an associative and commutative operation, thread 0's serial pass over the leaders is the block's fold. |
| `ReturnTokens.CountIsExact` | `src/DavC310TargetRecipe.cpp:2101-2165` | The matcher's count is the number of complete returns of the primitive that the tokens are, and there is no count exactly when they are not such a sequence. |
| `ReturnTokens.CountReturns` | `src/DavC310TargetRecipe.cpp:2137-2165` | The matcher's loop computes that count. |
| `ReturnMeaning.ReturnIsForwarding` | `src/DavC310TargetRecipe.cpp:2137-2161` | Read as statements, with the standard functions under their names and the parameters under theirs, the matcher's returns are exactly those that return the primitive of the parameters in order, when no parameter has the name of a standard function of the kind. |
| `ReturnMeaning.UnhiddenIsExact` | `src/DavC310TargetRecipe.cpp:2137-2161` | That condition on the names is necessary: otherwise a call of the parameter is counted as one of the function. |
| `ReturnMeaning.ReturnComputes` | `src/DavC310TargetRecipe.cpp:2137-2161` | Running a counted return gives the primitive of the arguments in order. |
| `ReturnMeaning.ConfigurationComputes` | `src/DavC310TargetRecipe.cpp:2174-2319` | What is left of an accepted body in any configuration starts with a statement that, run, gives the primitive of the arguments in order. |
| `ConditionalReturns.ChangeKeepsFloor` | `src/DavC310TargetRecipe.cpp:2226-2258` | No #if, #elif, #else or #endif raises the number of returns the machine credits to any configuration. |
| `ConditionalReturns.MinimumBounds` | `src/DavC310TargetRecipe.cpp:2213-2319` | Every choice of alternatives of the nested groups leaves complete returns of the primitive and nothing else, at least as many as minimumReturns. |
| `ConditionalReturns.MinimumAttained` | `src/DavC310TargetRecipe.cpp:2213-2319` | Some choice of alternatives leaves exactly minimumReturns of them. |
| `ConditionalReturns.MinimumExists` | `src/DavC310TargetRecipe.cpp:2226-2319` | The machine gets through a body exactly when its directives nest and each run of tokens between directives is returns. |
| `ConditionalReturns.PositiveMinimum` | `src/DavC310TargetRecipe.cpp:2317-2318` | minimumReturns is not zero exactly when no configuration is left empty. |
| `BodyText.SkipGap` | `src/DavC310TargetRecipe.cpp:2059-2071` | The loop between # and the directive's name skips blanks and one-line comments. |
| `PhaseAgreement.GapIsExact` | `src/DavC310TargetRecipe.cpp:2059-2071` | That gap is all blanks and one-line comments there are, and there is none when they lead to a comment that is not closed or has several lines. |
| `BodyText.DirectiveNames` | `src/DavC310TargetRecipe.cpp:2082-2092` | The names of the conditional directives are the ten listed. |
| `BodyText.CharacterClasses` | `src/DavC310TargetRecipe.cpp:2002-2011` | Identifier characters, by their ASCII codes; so with blanks (2048-2051) and quotes (2302-2303). |
| `PhaseAgreement.ConditionalDirective` | `src/DavC310TargetRecipe.cpp:2054-2099` | The directive found is the one phase 4 reads once phase 3 has removed the comments, and none is found where phase 4 finds none (a comment of several lines in front of the name aside, which is refused); the scan goes on in the next line, and phase 4 where the line ends without its comments. |
| `BodyText.LexBody` | `src/DavC310TargetRecipe.cpp:2260-2316` | The scanning loop over characters finds the tokens and directives of the one-pass reading. |
| `PhaseExactness.OnePassIsPhased` | `src/DavC310TargetRecipe.cpp:2260-2316` | In a regular text the one pass finds exactly the items of phase 3 (comments and literals) followed by phase 4 (directives and tokens), or fails with them. |
| `PhaseExactness.OnePassIsExact` | `src/DavC310TargetRecipe.cpp:2260-2316` | When the scan gets through a text in step with its lines, it finds what the phases find if and only if the text is regular: no # follows a comment of several lines behind code, and the scan finds nothing that a comment from a directive's line hides. |
| `PhaseExactness.InStepCompared` | `src/DavC310TargetRecipe.cpp:2260-2316` | Of any other text in step that both get through, the scan finds more than the phases: more directives, or as many and more items. |
| `OutOfStep.AlikeByAccident` | `src/DavC310TargetRecipe.cpp:2072-2098` | Out of step, because a comment opens for the scan inside another, a text can be read alike without being regular. |
| `PhaseAgreement.DirectiveAgrees` | `src/DavC310TargetRecipe.cpp:2054-2099` | On any line, whatever comments it holds, phase 4 finds the directive that the scan finds, and the two part only in where they go on. |
| `SourceText.CheckSource` | `src/DavC310TargetRecipe.cpp:2174-2319` | A source text is accepted exactly when the scan gets through it and the machine accepts; when it is regular, every configuration of the text, read phase by phase, is at least one complete return and nothing else; an accepted text in step is read as the phases read it if and only if it is regular. |
| `SourceText.AfterElse` | `src/DavC310TargetRecipe.cpp:2237-2250` | Behind an #else of its own group no #elif and no second #else is accepted, whatever the runs of tokens before it and the text after it are. |
| `SourceText.OutsideGroups` | `src/DavC310TargetRecipe.cpp:2235-2236` | Outside every group no #elif, #else or #endif is accepted, and a group left open at the end is refused (2317-2318). |
| `SourceText.Misread` | `src/DavC310TargetRecipe.cpp:2094-2098` | Whatever an #if tests, literals that look like comments included, and for every return of every primitive that can be spelled: with a comment that starts on the #if line the scan accepts a text in which one alternative's return is commented out, and one configuration has none. |
| `SourceText.CommentHidesReturn` | `src/DavC310TargetRecipe.cpp:2094-2098` | The same for one return of exp behind #if A, and behind #if '//'. |
| `MergedAlternatives.AlternativesMerge` | `src/DavC310TargetRecipe.cpp:2278-2287` | For every return that can be spelled and any two conditions: the scan accepts a text whose #else stands behind a comment of two lines that follows code; by the phases it is no directive, one configuration of the text is the return alone and another is empty. |
| `MergedAlternatives.HashBehindComment` | `src/DavC310TargetRecipe.cpp:2278-2287` | The same for one return of exp behind #if A, #else and #if B. |
| `SourceBody.EnterDirective` | `src/DavC310TargetRecipe.cpp:2226-2258` | The directive handler computes the machine's transition on the frame stack. |
| `SourceBody.ScanBody` | `src/DavC310TargetRecipe.cpp:2260-2319` | The scanning loop over tokens and directives computes the machine's minimum. |
| `SourceBody.CompleteSourcePrimitiveBody` | `src/DavC310TargetRecipe.cpp:2174-2319` | A body is accepted if and only if it is well formed and no configuration is left without a return; then every configuration is at least one complete return and nothing else. |
| `SourceBody.MinimumIsLeast` | `src/DavC310TargetRecipe.cpp:2167-2172` | minimumReturns is the true minimum over all configurations. |
| `TemplateTable.RegisterTemplates` | `src/DavC310TargetRecipe.cpp:2431-2453` | When the specializations, and what their bodies lead to, call no template by name (their calls are resolved), the constructor's loop leaves a table in which each template has the kind that all its specializations have, or none if they differ, and every kind remembered on the way is exact for the final table. |
| `TemplateTable.KindKept` | `src/DavC310TargetRecipe.cpp:2439-2452` | The kind of such a function is the same whatever the table holds, so what is remembered while the table grows stays exact. |
| `TemplateTable.TableRuns` | `src/DavC310TargetRecipe.cpp:2447-2451` | A call of a template runs one of its specializations, and whichever that is, it computes the table's kind. |
| `TemplateTable.RegisteredKind` | `src/DavC310TargetRecipe.cpp:2431-2571` | With the table the constructor builds, every function that has a kind, through forwarders, lookups and templates, equals that primitive on all inputs, running the bodies of the specializations. |
| `PrimitiveRegistryModel.PrimitiveRegistry.Classify` | `src/DavC310TargetRecipe.cpp:2455-2571` | For any memo and any functions under way: a kind is returned exactly when there is a well-founded chain of forwarders to it; what is remembered stays exact, even when it was found under a cut cycle, and is of functions that the bodies lead to. |
| `PrimitiveRegistryModel.KindGiven` | `src/DavC310TargetRecipe.cpp:2466-2568` | A function has a kind exactly for an annotation, where those count; failing that, for its standard name; failing that, for a device definition with that many floating parameters, complete unless annotations count, in which every statement divides the parameters in order or passes them in order to a callee that has the kind, by whatever table entry or overloads. |
| `PrimitiveRegistryModel.PrimitiveRegistry.ClassifyBody` | `src/DavC310TargetRecipe.cpp:2526-2557` | The body's kind is that of all its statements, or there is no common kind. |
| `PrimitiveRegistryModel.PrimitiveRegistry.ClassifyStatement` | `src/DavC310TargetRecipe.cpp:2487-2524` | A statement's kind: a division of the two parameters in order, or a call that passes the parameters in order. |
| `PrimitiveRegistryModel.PrimitiveRegistry.ClassifyCall` | `src/DavC310TargetRecipe.cpp:2573-2611` | The callee's kind, for direct, named and unresolved callees. |
| `PrimitiveRegistryModel.PrimitiveRegistry.ClassifyOverloads` | `src/DavC310TargetRecipe.cpp:2593-2610` | An unresolved lookup has a kind exactly when all its functions have it, and there is one. |
| `PrimitiveRegistryModel.PrimitiveRegistry.ClassifyFunctionOrTemplate` | `src/DavC310TargetRecipe.cpp:2614-2620` | A named function's kind comes from the template table when that has it. |
| `PrimitiveRegistryModel.CycleHasNoChain` | `src/DavC310TargetRecipe.cpp:2459-2463` | A function met again while it is being classified has no chain: answering None there is exact. |
| `PrimitiveRegistryModel.OneKind` | `src/DavC310TargetRecipe.cpp:2538-2553` | A function has at most one kind. |
| `PrimitiveRegistryModel.ChainRuns` | `src/DavC310TargetRecipe.cpp:2484-2571` | Calling a function with a chain to a kind gives that primitive of the arguments in order, whichever overloads are resolved, once the instances of the templates in the table compute theirs. |
| `PrimitiveRegistryModel.KindIsMeaning` | `src/DavC310TargetRecipe.cpp:2455-2571` | A function given a kind equals that primitive on all inputs, within a number of calls that depends on the function and the templates' instances alone. |
| `RegistrySources.KindIsJustified` | `src/DavC310TargetRecipe.cpp:2466-2568` | With annotations disallowed, a kind rests on a standard declaration of that signature, or on a device definition of that signature whose text, not only the configuration compiled, is at least one return of the kind, applied to the parameters in order by their names, in every configuration. |
| `RegistrySources.ScanText` | `src/DavC310TargetRecipe.cpp:2101-2118` | The verdict on a definition's text is the scan's, for as many named parameters as the kind has. |
| `RegistrySources.ScanProgram` | `src/DavC310TargetRecipe.cpp:2564-2568` | The verdicts the classifier uses are the scan's on the functions' texts, whatever else the program says of them. |
| `PrimitiveRegistryModel.CyclicForwarders` | `src/DavC310TargetRecipe.cpp:2459-2463` | Functions that forward to each other round a cycle, directly, by name or as one of the functions of a lookup, never get a kind. |
| `Expressions.SameReferenceIsEqual` | `src/DavC310TargetRecipe.cpp:370-408` | Expressions compared equal by reference are identical. |
| `Expressions.FoldIsEval` | `src/DavC310TargetRecipe.cpp:5843-5852` | A value the compiler folds is the expression's value in every consistent environment. |
| `Expressions.FoldFinds` | `src/DavC310TargetRecipe.cpp:5843-5852` | The compiler folds every expression of literals, casts, operations, unary operators and conditionals over what it can evaluate. |
| `Expressions.ComparisonValues` | `src/DavC310TargetRecipe.cpp:5843-5852` | What a conditional on each of the six comparisons of two numbers comes to, and a logical negation, in numbers. |
| `AlphaEquivalence.AlphaContext.LoopIndices` | `src/DavC310TargetRecipe.cpp:5593-5632` | Matching two loop indices only adds to the map, adds only indices whose loops are alike in initial value, bound and step, and fails only when no justified renaming has the pair. |
| `AlphaEquivalence.AlphaContext.LoopParts` | `src/DavC310TargetRecipe.cpp:5611-5631` | The loops' parts are compared under the map that already has the pair. |
| `AlphaEquivalence.AlphaContext.Expression` | `src/DavC310TargetRecipe.cpp:5691-5850` | The same for expressions: acceptance makes them alike under the final map, and any justified renaming that makes them alike extends it. |
| `AlphaEquivalence.AlphaContext.References` | `src/DavC310TargetRecipe.cpp:5719-5753` | The same for references to two different variables. |
| `AlphaEquivalence.Equivalent` | `src/DavC310TargetRecipe.cpp:7637-7662` | With a fresh context, expressions are accepted exactly when some justified renaming of loop indices makes them alike, and the context is left with the smallest such renaming. |
| `AlphaCompleteness.CopyIsAccepted` | `src/DavC310TargetRecipe.cpp:5691-5853` | Every copy of an expression with other loop indices, whose loops are copied likewise, and other locals, whose initialisers are, is accepted: through literals, references, casts, operations, members, subscripts, the four unary operators, conditionals, this and builtins. |
| `AlphaCompleteness.AcceptedShapes` | `src/DavC310TargetRecipe.cpp:5691-5853` | Accepted expressions have one constructor, type, operator or member, no other unary operator, and accepted parts; accepted indices have loops with accepted parts. |
| `AlphaCompleteness.LiteralIsAccepted` | `src/DavC310TargetRecipe.cpp:5840-5852` | A literal is accepted against exactly the literals, casts and references that fold to its value. |
| `AlphaEquivalence.AlikeGrows` | `src/DavC310TargetRecipe.cpp:5580-5586` | What was found alike stays alike as the map grows. |
| `AlphaEquivalence.AlikeMeansEqual` | `src/DavC310TargetRecipe.cpp:5691-5850` | Alike expressions evaluate equally in all environments that the map relates and that agree on the variables compared by identity. |
| `AlphaEquivalence.SameIndices` | `src/DavC310TargetRecipe.cpp:5593-5632` | Matched loops run equally often, with the same index values in the same order. |
| `BranchConflict.NormalizedControlRequirement` | `src/DavC310TargetRecipe.cpp:5913-5954` | Peeling negations and comparisons with zero keeps the requirement's truth in every consistent environment and leaves none to peel. |
| `BranchConflict.InvertedComparison` | `src/DavC310TargetRecipe.cpp:5955-5973` | The inverse operator holds exactly where the operator does not, for all operands. |
| `BranchConflict.EffectiveComparison` | `src/DavC310TargetRecipe.cpp:5981-6008` | The loop strips all negations and inverts as often as needed. |
| `BranchConflict.EffectiveMeans` | `src/DavC310TargetRecipe.cpp:5981-6008` | The comparison found is met exactly when the requirement holds. |
| `BranchConflict.EffectiveExists` | `src/DavC310TargetRecipe.cpp:5981-6008` | There is an effective comparison exactly if a comparison stands under the negations, and it has that one's operands. |
| `BranchConflict.ComparisonsConflict` | `src/DavC310TargetRecipe.cpp:7523-7560` | A conflict is reported exactly when the left operands are alike and the comparisons are opposite with alike right operands, or ask for two different constants; no environment that gives the indices renamed for it equal values then meets both requirements. |
| `BranchConflict.OpposedPairs` | `src/DavC310TargetRecipe.cpp:7544-7560` | Alike operands under operators of which exactly one always holds conflict, and so do two different constants for one operand. |
| `BranchConflict.ConflictIsReal` | `src/DavC310TargetRecipe.cpp:7523-7560` | A conflict for which the comparison renamed no index is one in every consistent environment: no environment meets both requirements. |
| `BranchConflict.IndexFreeConflict` | `src/DavC310TargetRecipe.cpp:7523-7560` | Nothing is renamed when no loop index occurs in the first requirement. |
| `BranchConflict.IndexConflictIsReal` | `src/DavC310TargetRecipe.cpp:7523-7560` | For a loop index compared with something free of indices on each side, a reported conflict excludes that both requirements hold if and only if the two indices are one. |
| `BranchConflict.ConflictAcrossLoops` | `src/DavC310TargetRecipe.cpp:7534-7545` | Between the indices of two loops a conflict can be reported though both requirements can hold together. |
| `BranchConflict.RenamingMergesIndices` | `src/DavC310TargetRecipe.cpp:5597-5612` | The map need not be injective: i + j over two loops is accepted as k + k over a third, which it can differ from. |
| `Coverage.BlockVisitsOnce` | `src/DavC310TargetRecipe.cpp:6426-6481` | The block nest touches an element in at most one place (block, thread, iterations), which is computed from the element. |
| `Coverage.BlockCoverage` | `src/DavC310TargetRecipe.cpp:12035-12038` | The block nest visits each element of the matrix once and nothing else, if and only if the pack size divides the columns: what the emitted guard asks of a matrix with columns. |
| `Coverage.RowOnce` | `src/DavC310TargetRecipe.cpp:6566-6615` | The outer and inner row loops around an access, with the RMS tail skip in front of it or not, reach a row at one place at most, and exactly the stated rows. |
| `Coverage.ColumnOnce` | `src/DavC310TargetRecipe.cpp:6631-6655` | A pack loop (up to the minimum, from there to the maximum, or up to the maximum), under the padding test or not, reaches a column at one place at most, and exactly the stated columns. |
| `Coverage.WarpVisitsOnce` | `src/DavC310TargetRecipe.cpp:6768-6930` | A repetition of an access of a warp nest touches an element in at most one place, computed from the element. |
| `Coverage.AccessColumns` | `src/DavC310TargetRecipe.cpp:12039-12077` | Under the emitted guard the columns an access reaches are an interval, whose two ends are read from its loop, its padding test and the nest's sizes. |
| `Coverage.AccessRows` | `src/DavC310TargetRecipe.cpp:7322-7345` | The row loops reach exactly the rows of the matrix when the rows are whole groups or the tail skip comes before the access; otherwise they also reach the first row past it. |
| `Coverage.WarpCoverage` | `src/DavC310TargetRecipe.cpp:12039-12077` | For every set of accesses the recogniser lets pass, whichever loops they stand in, tested for padding or not, with the skip before them or after: under the emitted guard the nest visits each element once and nothing else, if and only if one access has all the columns or two share them out, each once, and none goes on to rows past the matrix. |
| `Coverage.WholeTiles` | `src/DavC310TargetRecipe.cpp:6845-6913` | One access in a loop up to the maximum has the columns exactly if it comes once and is under the padding test, or is under none and the threads have no other columns. |
| `Coverage.LeastTiles` | `src/DavC310TargetRecipe.cpp:6845-6913` | One access in the loop up to the minimum has the columns exactly if that loop has them all, which with padding the guard excludes. |
| `Coverage.BothTiles` | `src/DavC310TargetRecipe.cpp:6845-6913` | Accesses in each of the two loops share out the columns exactly if the second is under the padding test or the threads have no other columns and, without padding, the minimum does not exceed the maximum. |
| `Coverage.SoftmaxCoverage` | `src/DavC310TargetRecipe.cpp:12053-12077` | A softmax nest with one loop under the padding test covers its matrix exactly when the emitted guard lets the matrix through. |
| `Coverage.PairCoverage` | `src/DavC310TargetRecipe.cpp:12053-12077` | Layer-norm and RMS nests with a loop up to the minimum and one from there under the padding test cover their matrix exactly for the stated columns and, without the tail skip, whole row groups. |
| `Coverage.PairGuard` | `src/DavC310TargetRecipe.cpp:12053-12077` | Their guard is right for whole row groups when without padding the minimum does not exceed the maximum, and refuses a matrix they cover exactly when the minimum alone has its columns. |
| `Coverage.LeavesBelow` | `src/DavC310TargetRecipe.cpp:12053-12077` | An access with a partial row group and no skip before it touches the row after the last one; the place is given. |
| `Coverage.LeavesRight` | `src/DavC310TargetRecipe.cpp:12069-12077` | An access whose columns go on touches the column after the last one; the place is given. |
| `Coverage.UntestedLeaves` | `src/DavC310TargetRecipe.cpp:6845-6913` | A softmax nest without a padding test touches column 33 of 33 under the guard. |
| `Coverage.LeastMisses` | `src/DavC310TargetRecipe.cpp:9955-9963` | A layer-norm nest with the loop up to the minimum alone never comes to column 32 of 33 under the guard. |
| `Coverage.LateSkipLeaves` | `src/DavC310TargetRecipe.cpp:7322-7345` | An RMS nest with the tail skip behind the access touches row 1 of 1 under the guard. |
| `Coverage.PartialGroupLeaves` | `src/DavC310TargetRecipe.cpp:12053-12077` | A layer-norm nest with rows that are no whole group touches row 1 of 1: its guard does not ask for whole groups. |
| `Coverage.MinimumAboveMaximum` | `src/DavC310TargetRecipe.cpp:12069-12077` | Without padding and with the minimum above the maximum the first pack loop touches column 32 of 32. |
| `PackedTransfer.PacketsAtElements` | `src/DavC310TargetRecipe.cpp:443-474` | The packet at (row * stride + column) / pack size starts at the element in every row exactly when the pack size divides the stride and the column. |
| `PackedTransfer.PacketOfMultiple` | `src/DavC310TargetRecipe.cpp:443-474` | The packet accessed is the one that holds the element. |
| `PackedTransfer.Load` | `src/DavC310TargetRecipe.cpp:913-956` | A packed load and its element loop give the converted scalars of the packet, which are those of the row from the column on when the pack size divides the stride and the column, and leave the rest of the destination alone. |
| `PackedTransfer.Store` | `src/DavC310TargetRecipe.cpp:913-956` | An element loop and a packed store change the row's elements to the converted values and nothing else. |
| `PackedTransfer.AffineStore` | `src/DavC310TargetRecipe.cpp:958-1018` | The affine store does so with each value scaled by the weight of its column, when it is affine. |
| `PackedTransfer.AffineElements` | `src/DavC310TargetRecipe.cpp:867-911` | The affine element loop fills the packet with scaled or plain converted values. |
| `PackedTransfer.StoreThenLoad` | `src/DavC310TargetRecipe.cpp:815-843` | A store and a load at one row and column, with inverse conversions, give back what was stored, aligned or not, whatever is stored to another packet in between. |
| `PackedTransfer.WrittenIsRead` | `src/DavC310TargetRecipe.cpp:815-843` | Reading a stretch of memory through the inverse conversion gives back the values written there. |
| `PackedTransfer.OtherPacketKept` | `src/DavC310TargetRecipe.cpp:745-776` | A transfer of one packet keeps every other packet. |
| `CfgExit.ScanBlock` | `src/DavC310TargetRecipe.cpp:11139-11166` | One block's scan: the write before the first return, and how that return ends the block. |
| `CfgExit.ClosedHasReachable` | `src/DavC310TargetRecipe.cpp:11170-11177` | A set of (block, flag) states closed under the search's steps has every state that some run reaches. |
| `CfgExit.EverySuccessfulCfgExitFollowsWrite` | `src/DavC310TargetRecipe.cpp:11099-11181` | The worklist search returns true exactly when no reachable state is faulty, the write is reachable and one reachable state alone succeeds; it terminates by the unvisited states. |
| `CfgExit.SafePaths` | `src/DavC310TargetRecipe.cpp:11150-11169` | Then on every run, of any length, each return is a proven failure or a zero return with the write executed before it, and no run falls off the exit. |
| `CfgExit.SafeRuns` | `src/DavC310TargetRecipe.cpp:11099-11181` | The graphs accepted are exactly those in which no run ends in another return than a proven failure or a zero after the write, or at the exit without one, some run writes, and the runs that succeed end in one block and alike in having written before it. |
| `CfgExit.OneSuccessfulReturn` | `src/DavC310TargetRecipe.cpp:11164-11180` | Then all successful runs end in the same block. |
| `CopySweep.Sweep` | `src/DavC310TargetRecipe.cpp:7729-7736` | The sweep loop computes the storage reached. |
| `CopySweep.SweepIsExact` | `src/DavC310TargetRecipe.cpp:7729-7738` | Whatever the order of the copies, one sweep reaches a root exactly when copies at increasing places of the sequence, all in the window, lead to it. |
| `CopySweep.SweepBounds` | `src/DavC310TargetRecipe.cpp:7703-7738` | Over sorted copies it reaches all that chains at increasing positions lead to and only what chains at non-decreasing positions do; the same when no positions are equal. |
| `CopySweep.TiesExactly` | `src/DavC310TargetRecipe.cpp:7716-7738` | Every order of equal positions finds a root exactly when a chain at increasing positions leads to it, and some order does exactly when a chain at non-decreasing positions does: ties matter for exactly the roots in between. |
| `CopySweep.TiesDecide` | `src/DavC310TargetRecipe.cpp:7716-7723` | With two copies at one position, their sorted order decides. |
| `CopySweep.OneCopy` | `src/DavC310TargetRecipe.cpp:7789-7831` | A single copy leads to its target exactly if it lies after the load and before the operation. |
| `CopySweep.StorageCopiesReachBefore` | `src/DavC310TargetRecipe.cpp:7703-7738` | For any result of the sort: the answer is yes exactly when copies at increasing places of it lead to the target; it lies between the two readings of equal positions and is exact without them. |
| `CopySweep.AdapterAccessReachesBefore` | `src/DavC310TargetRecipe.cpp:7789-7831` | The same from one load, in the window between the load and the operation. |
| `CopySweep.AdapterLoadReachesBefore` | `src/DavC310TargetRecipe.cpp:7740-7787` | The same from any of the loads. |
| `BoundedInlining.HeightSearch.Visit` | `src/BoundedDeviceTemplateInlining.cpp:331-348` | From any memo: a non-zero result is the exact number of nodes on the longest path, at most 64; zero means that some path leaves the graph or has more than 64 nodes. |
| `BoundedInlining.AllHeights` | `src/BoundedDeviceTemplateInlining.cpp:349-351` | All heights are found exactly when no path leaves the graph or has more than 64 nodes. |
| `BoundedInlining.CycleIsUnbounded` | `src/BoundedDeviceTemplateInlining.cpp:337` | A cycle makes paths of every length, so the marker rejects only graphs with too long a path. |
| `BoundedInlining.Prove` | `src/BoundedDeviceTemplateInlining.cpp:294-352` | A family is accepted exactly when the pattern has one recursive call, it has at most 256 instances that are terminals without calls or implicit instances with one, both kinds occur, and all paths stay inside and within 64 nodes. |
| `BoundedInlining.AcceptedMembers` | `src/BoundedDeviceTemplateInlining.cpp:294-330` | In an accepted family the pattern has one recursive call, there are at most 256 instances, and each is a terminal without calls or an implicit instance with one. |
| `BoundedInlining.LongestChain` | `src/BoundedDeviceTemplateInlining.cpp:15-16` | A chain of calls is accepted exactly from 2 to 64 instances. |
| `BoundedInlining.LargestFamily` | `src/BoundedDeviceTemplateInlining.cpp:15-16` | Instances that call one terminal are accepted exactly from 2 to 256. |
| `BoundedInlining.AcceptedExpansion` | `src/BoundedDeviceTemplateInlining.cpp:304-330` | Full inlining of any instance of an accepted family leaves exactly as many bodies as its height, at most 64. |
| `BoundedInlining.DoublingExplodes` | `src/BoundedDeviceTemplateInlining.cpp:304-306` | With two calls per node the same height bound admits 2^64 - 1 bodies. |
| `TypeGraph.PushedAreMentioned` | `src/DynamicWarpGroups.cpp:55-67` | The inner worklist pushes exactly the types in the arguments, at any depth of packs. |
| `TypeGraph.PushArguments` | `src/DynamicWarpGroups.cpp:55-67` | The inner worklist's loop. |
| `TypeGraph.PushesAreComponents` | `src/DynamicWarpGroups.cpp:74-92` | What is pushed for a type is its pointee, element, signature, class, template-argument, field and base types, and nothing else. |
| `TypeGraph.FindRelated` | `src/DynamicWarpGroups.cpp:53-96` | The outer worklist computes the search, on any finite graph, cyclic or not; what it finds is a component at some depth, and when it finds nothing one type can be chosen per canonical type as stated below. |
| `TypeGraph.DirectGroupFound` | `src/DynamicWarpGroups.cpp:69-92` | A group, the greater template, and a group among a type's pointee, element, signature, class, argument, field and base types are always found. |
| `TypeGraph.MissedExactly` | `src/DynamicWarpGroups.cpp:50-96` | Some order of the worklist ends without a group if and only if one type can be chosen for each canonical type met, starting from the first, none of them a group and each later one pushed by an earlier one, such that what they push is no group and of a canonical type chosen. |
| `TypeGraph.SearchIsExact` | `src/DynamicWarpGroups.cpp:50-96` | The search finds a group only when one is reachable through components, and always when no order can miss; no order misses a reachable group when, of the types the first one leads to, those with one canonical type are interchangeable. |
| `TypeGraph.AliasHidesGroup` | `src/DynamicWarpGroups.cpp:72-73` | An alias written with a group argument is skipped when its canonical type was seen first: the order of two parameters decides. |
| `SymbolScan.AbsentIsExact` | `src/DeviceAggregateInlining.cpp:148-153` | For a symbol that does not overlap itself after a non-identifier character, the skipping scan reports absence exactly when no whole occurrence exists. |
| `SymbolScan.ScanIsExact` | `src/DeviceAggregateInlining.cpp:148-153` | The scan is right in every text exactly for such symbols. |
| `SymbolScan.IdentifiersAreSkippable` | `src/DeviceAggregateInlining.cpp:149` | Symbols made of identifier characters are such symbols. |
| `SymbolScan.IdentifierCharacters` | `src/DeviceAggregateInlining.cpp:149` | The identifier characters are the ASCII letters and digits, the low line and the dollar sign. |
| `SymbolScan.SkipMisses` | `src/DeviceAggregateInlining.cpp:151-152` | For any other symbol a text is given in which the scan misses a whole occurrence. |
| `SymbolScan.SymbolsDisjoint` | `src/DeviceAggregateInlining.cpp:148-153` | The loops over the symbols and the text compute the scan, and for identifiers return true exactly when no symbol occurs as a whole. |
| `NoRecursion.RecursionSearch.Visit` | `src/DeviceAggregateInlining.cpp:371-385` | The active/done search accepts a function exactly when a bounded chain of acceptable calls ends its call tree, whatever was done before; a barrier call is noticed exactly when a visited function has one. |
| `NoRecursion.AcceptedMeansNoRecursion` | `src/DeviceAggregateInlining.cpp:371-385` | A helper is accepted exactly when every function it leads to is acceptable and no chain of calls from it meets the same function twice. |
| `NoRecursion.LeafAccepted` | `src/DeviceAggregateInlining.cpp:373-382` | A helper without calls of its own functions is accepted exactly if it is sound, calls nothing indirectly, and of the builtins only memory copies. |
| `NoRecursion.UndefinedRefused` | `src/DeviceAggregateInlining.cpp:376-377` | A call of a function that the sources do not define is never accepted. |

## Left out

- The Clang AST, source manager, lexer and preprocessor callbacks: abstract nodes, positions and edges stand for them.
- Line splicing (`src/DavC310TargetRecipe.cpp:2013-2037`): `BodyText` starts from the spliced text.
- PhaseExactness.OnePassIsPhased: the phases are not modelled for raw string literals, for the digraph `%:`, for header names with a quote, a backslash or a comment mark in a test of `__has_include` or `__has_include_next`, and for numbers that a quote follows (digit separators, literal operators); a text with one of these outside comments is not regular here.
- PhaseExactness.OnePassIsExact: covers the texts the scan gets through in step with their lines; for texts that the phases are not modelled for it only says that they are not regular.  Out of step the scan and the phases each pass over text the other reads, and regularity is sufficient only.
- In the conditional groups, conditions are arbitrary at each directive: dependence between conditions of one configuration is not used.
- TemplateTable.RegisterTemplates: asks for a set of functions closed under the calls of the specializations in which no body names a template being registered; calls in instantiated bodies are resolved, patterns and other functions may name them.  The list it takes is that of the float specializations with bodies, already selected.
- RegistrySources.KindIsJustified: speaks of a function's own text, and of the phases only for regular texts.
- PrimitiveRegistryModel.ChainRuns: takes functions with a base kind (annotated, or in system headers) to be that primitive, overload resolution to pick among the functions of the lookup, and a call of a template in the table to run one of its specializations.
- AlphaEquivalence.AlikeMeansEqual: expressions are free of side effects and initialised locals keep the values of their initialisers, which do not go round in a circle; values are integers, and arithmetic, casts, members and subscripts are arbitrary functions of them.
- ReturnMeaning.ReturnIsForwarding: parameters have distinct names, and a standard function's name stands for the primitive wherever no parameter has it.
- ConditionalReturns.MinimumExists: a return that straddles a directive is rejected, as in the code, though each configuration may be complete.
- Launch dimensions: block sizes are those of the templates, and pack sizes divide the per-thread column counts.
- Coverage.WarpCoverage: a padding test is one of the access's own pack, not of another column, and stands around the access at most once; loops around an access other than those of the nest repeat it a fixed number of times.
- The hardware primitives: the warp reductions are taken as folds of the lanes' values, the shuffle as an exchange of lanes, the barrier as such; the warp size is the default 32, and the shuffle has whole warps only.
- Floating-point values: rounding, NaN and infinities, and the float identities; int32 sums wrap.
- BlockReduceStorage.BlockReduce.AllReduceDB: the block advances together between barriers; all other schedules are in AllReduceProtocol and TreeReduction.
- BoundedInlining.Prove: the checks on parameters, bodies and declarations are verdicts given with each instance.
- NoRecursion.RecursionSearch.Visit: does not record the digests of the bodies visited.
- TypeGraph.MissedExactly: is about all orders of the worklist; of the order the code takes it says that it finds a group when no order can miss.
- BranchConflict.ConflictIsReal: that requirements with renamed indices can hold together is shown for bare indices; for other operands it depends on their values.
- CopySweep.StorageCopiesReachBefore: the result of `std::sort` is an argument, any sequence sorted by position.
- `newDeclaration`, the recognisers of dispatchers and of the kernels' numerical bodies, `traceExecutableRoutes`, file identity, digests, rename tables and emitted text other than the guard's condition: they would add only easy members or are data.
