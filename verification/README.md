# Scalar replacement of aggregates, verified

PandA-Bambu's clang plugin replaces aggregate memory by independent scalar variables before
high-level synthesis.  Allocas and globals of struct and array type are expanded into trees of
variables, every load and store is redirected to the variable of the scalar it accesses, functions
are cloned for each way their pointer operands are expanded, and signatures and call sites are
rewritten.  A preparatory pass lowers chunk copies and chunk initializations to scalar accesses and
turns nested constant address computations into instructions.  This project models these passes in
Dafny and proves that they keep the meaning of the program, or exactly when they do.

`dafny verify dfyconfig.toml` checks everything.

## How the files fit together

| files | what they hold |
|---|---|
| `Types`, `Layout`, `Values`, `Indices`, `Wrappers` | types, paths, leaf numberings, byte layout, value trees, index operands of 32 and 64 bits |
| `Expansion` | the expansion trees of allocas (recursion) and globals (a list that is inserted into while it is scanned) |
| `GepChain`, `LeafIndex`, `SelectChain`, `LeafBudget` | flattening of address computations, the run-time leaf number, the if-then-else chain over leaves, the size gate |
| `Disaggregation`, `Stops` | programs before and after, and the simulation between their runs; which accesses stop the pass |
| `Expandability` | the verdict class and the escape analysis |
| `CallGraph`, `Versioning`, `Deletion` | call traces, function versions and call rewriting, deletion of unused functions |
| `Signatures`, `ArgClassifier` | expanded parameter lists and calls, classification of arguments |
| `ChunkCopy`, `ChunkMemory` | lowering of chunk copies, and what it does to memory |
| `InitSplit`, `InitMemory` | splitting of chunk initializers, and what the stores do to memory |
| `GepExplicit`, `GepWorklist` | explicit address computations: one conversion along every run, and the worklist |

What the source does by updating maps, sets and lists is a class or a method with loops, proved
against functions on values; the theorems are lemmas about those functions.  A ghost `rank` parameter
stands for the call graph being acyclic, where the source walks call traces without a visited set
(`get_ptr_expandability`, `initialize_callsites`, `update_calls_rec`); without that these walks do not
terminate.  `compute_callgraph_rec`, `usedByArgsOnly` and `loadedOnly` need no such assumption.

## What was found on the way

* An empty aggregate is one leaf for `expand_types` and no leaf for `CountSublements`.  A dynamic access
  behind one selects the wrong leaf; `Types.EmptyAggregateShifts` is an example, and
  `Types.RankIsPositionIff` and `SelectChain.ChainIsExactIff` give the exact condition.  The simulation
  asks for it of dynamic accesses only.
* Adding the first index of an outer address computation to the last index of an inner one is wrong
  behind a struct field unless the layout happens to agree (`GepChain.RunIff`, `GepChain.FlattenIff`;
  `GepChain.MixedStructFails` is a pointer that is flattened to another address).  Two wrong runs of
  additions can cancel (`GepChain.ErrorsCancel`), so the condition is stated for each run.  While sums fit
  the widths of their indices, flattening computes plain sums (`GepChain.FlattenSpells`), and pointers moved
  only at the base and in arrays are always right (`GepChain.ElementRunsAreExact`).
* Versions already processed are not revisited, so a call inside a version goes where its first trace
  asked.  All traces reach the versions their descriptions ask for exactly when traces to one version
  always go on to one version (`Versioning.ExactIff`).
* The piece of a chunk initializer that is stored into a scalar goes through a machine word and is cut to
  width without being moved down to bit 0.  Every scalar behind the first is stored as zero, and a first
  scalar wider than 64 bits loses its upper bits, or a build with assertions stops
  (`InitSplit.StoredIff`, `InitSplit.SecondByteIsLost`, `InitSplit.WideScalarIsCut`).  Scalars that are
  not integers stop the pass.  `InitSplit.GoesThroughIff` says when it goes through, and
  `InitMemory.RightInitIff` when the whole lowering then does what the chunk store did.  In arrays of
  integers that are padded in memory, the bit ranges also start too early (`InitSplit.BitOffIff`,
  `InitSplit.PaddedElementMisplaced`).
* The guard in front of a chunk copy (GepiCanonicalizationPass.cpp line 1068) compares the sizes of the
  two pointer types, which are equal for any pointees; it does not establish that the chunk is a whole
  number of pointees.  `ChunkMemory.RightIff` is the exact condition, for every pointee with bytes.  A whole
  number of pointees is enough when the chunk fills its allocation (`ChunkMemory.WholeIff`) and an integer
  of 24 bits shows that it is not when the chunk does not (`ChunkMemory.OddChunkFails`).  Without whole
  pointees the lowering is wrong but for accidents of the pointee's shape (`ChunkMemory.WholeOrAccident`,
  `ChunkMemory.SmallChunkFails`, `ChunkMemory.AccidentalChunk`), among them paths that leave an array and
  are right all the same (`ChunkMemory.BehindTheArray`), or it stops at an assertion
  (`ChunkCopy.NoEmptyPathIff`).
* The escape analysis looks at uses, not at types.  An accepted object still stops the pass when an index
  that is not constant selects among struct fields of different types (`Stops.ProgramStopsIff`,
  `Stops.MovedFieldStops`).
* A phi with two entries for one block and the same constant address computation in both gets two
  different instructions, which LLVM does not accept (`GepWorklist.PhisIff`).
* `cast` accepts a verdict worth exactly nothing and `get_casted` refuses it
  (`Verdicts.Expandability.GetCasted`).
* The operand gate multiplies by a decayed dimension that is zero when there is none, and then always
  accepts (`LeafBudget.ExpandableOperand`).

## Model

| member | source | states |
|---|---|---|
| `Disaggregation.RunSimulates` | etc/clang_plugin/CustomScalarReplacementOfAggregatesPass.cpp:3127-3678 | The rewritten program simulates the original: for every control-flow graph of loads, stores, register instructions, jumps and branches, and every number of blocks, if the original run is defined and its accesses to expanded objects are in bounds (their index values, added up run by run in plain numbers, fit their widths, step where the layout allows and spell the path of a scalar), dynamic ones with no empty aggregate listed before their scalar, the rewritten run is defined too, is at the same label with the same registers, and holds every scalar of every expanded object in the variable that replaces it |
| `Disaggregation.PlaceIsExact` | etc/clang_plugin/CustomScalarReplacementOfAggregatesPass.cpp:3250-3268 | For an in-bounds access the rewritten pointer, constant or dynamic, names exactly the variable of the accessed scalar; a load never reaches the undefined value and a store never falls through |
| `Disaggregation.ExpandBlock` | etc/clang_plugin/CustomScalarReplacementOfAggregatesPass.cpp:3967-3984 | All loads and stores of a block are rewritten, and the pass goes through exactly when it stops on none of them |
| `Disaggregation.ExpandPtrs` | etc/clang_plugin/CustomScalarReplacementOfAggregatesPass.cpp:3942-4028 | Every load and store of the program is rewritten and everything else kept; the pass succeeds exactly when every access is rewritable |
| `Disaggregation.ExpandObjects` | etc/clang_plugin/CustomScalarReplacementOfAggregatesPass.cpp:2224-2359 | Expanding the accepted allocas and the accepted globals expands exactly those objects, into variables of their own, and gives the new globals their parts of the initializers |
| `Disaggregation.Disaggregate` | etc/clang_plugin/CustomScalarReplacementOfAggregatesPass.cpp:2224-4028 | Expanding the accepted objects and rewriting the program establishes everything the simulation needs, and succeeds exactly when every access is rewritable |
| `Disaggregation.DisaggregationIsCorrect` | etc/clang_plugin/CustomScalarReplacementOfAggregatesPass.cpp:2224-4028 | The same from the start of a function: from any initial memory, taken apart by the initializers, the rewritten program reaches the same place with the same registers and the same scalars |
| `Disaggregation.StepSimulates` | etc/clang_plugin/CustomScalarReplacementOfAggregatesPass.cpp:3127-3678 | One instruction of any kind keeps the relation between the two memories |
| `Disaggregation.BodySimulates` | etc/clang_plugin/CustomScalarReplacementOfAggregatesPass.cpp:3967-3984 | A whole block keeps the relation |
| `Disaggregation.StoreKeepsRelation` | etc/clang_plugin/CustomScalarReplacementOfAggregatesPass.cpp:3546-3663 | A store into the replacing variable changes that one scalar: all other scalars of all objects keep their values |
| `Disaggregation.InBoundsTarget` | etc/clang_plugin/CustomScalarReplacementOfAggregatesPass.cpp:2793-2900 | The byte address of an in-bounds access belongs to one scalar, the one whose path the plain sums of its indices spell, and the flattened chain computes that path |
| `Disaggregation.ProcessSinglePointer` | etc/clang_plugin/CustomScalarReplacementOfAggregatesPass.cpp:3250-3443 | The rewriting of one pointer operand: succeeds exactly when constant indices form a path of the type, dynamic struct indices are over fields of one type, and a dynamic access is allowed here; its result is the replacing variable, or the leaf number and the comparison chain |
| `Disaggregation.SplitIsRelated` | etc/clang_plugin/CustomScalarReplacementOfAggregatesPass.cpp:2306-2359 | Any initial memory, taken apart scalar by scalar, is related to itself |
| `Disaggregation.InitializersAgree` | etc/clang_plugin/CustomScalarReplacementOfAggregatesPass.cpp:2318-2326 | The initializer given to a new scalar global is the value the original memory has at that path |
| `Stops.StopsIff` | etc/clang_plugin/CustomScalarReplacementOfAggregatesPass.cpp:3250-3443 | An access that can be in bounds stops the pass exactly when its object was expanded and an index that is not constant selects a field of a struct whose fields differ |
| `Stops.ProgramStopsIff` | etc/clang_plugin/CustomScalarReplacementOfAggregatesPass.cpp:3942-4028 | Whichever objects were accepted, a program whose accesses can be in bounds is rewritten exactly when no access to an expanded object selects dynamically among fields that differ; the escape analysis does not exclude those |
| `Stops.MovedFieldStops` | etc/clang_plugin/CustomScalarReplacementOfAggregatesPass.cpp:3369-3392 | A pointer to a field moved by a register: in bounds when the register is zero, and the pass stops on it |
| `Stops.MovedElement` | etc/clang_plugin/CustomScalarReplacementOfAggregatesPass.cpp:2834-2871 | An array element moved by one more than a register says: with 1 in the register the address is eight bytes in, the flattened chain computes element 2, and the access is in bounds |
| `Types.RankBijection` | etc/clang_plugin/CustomScalarReplacementOfAggregatesPass.cpp:3300-3443 | Counting the scalars before a scalar numbers the scalar paths of any type from 0 to count - 1, one to one and onto |
| `Types.PositionHolds` | etc/clang_plugin/CustomScalarReplacementOfAggregatesPass.cpp:3100-3123 | The leaf at a path is listed at that path's position, with its type and path |
| `Types.LeavesAreLeaves` | etc/clang_plugin/CustomScalarReplacementOfAggregatesPass.cpp:3100-3123 | Every entry of the depth-first list is a leaf at its own position: nothing listed twice, nothing else listed |
| `Types.RankCountsScalars` | etc/clang_plugin/CustomScalarReplacementOfAggregatesPass.cpp:3326-3443 | The leaf number is the number of scalars listed before the leaf |
| `Types.RankIsPositionIff` | etc/clang_plugin/CustomScalarReplacementOfAggregatesPass.cpp:3300-3324 | The computed leaf number and the place in the list agree exactly when no empty aggregate is listed before the leaf |
| `Types.EmptyAggregateShifts` | etc/clang_plugin/CustomScalarReplacementOfAggregatesPass.cpp:3100-3123 | A struct of an empty struct and a float: the float is scalar number 0 and second in the list |
| `Types.CountIsScalarLeaves` | etc/clang_plugin/CustomScalarReplacementOfAggregatesPass.cpp:3300-3324 | The recursive count is the number of scalars in the list |
| `LeafIndex.CountSubelements` | etc/clang_plugin/CustomScalarReplacementOfAggregatesPass.cpp:3300-3324 | The recursive counting loop computes the number of scalars of a type |
| `LeafIndex.FieldType` | etc/clang_plugin/CustomScalarReplacementOfAggregatesPass.cpp:3369-3378 | The loop over the fields finds their common type exactly when all fields have one type and there is a field |
| `LeafIndex.BuildIdxSum` | etc/clang_plugin/CustomScalarReplacementOfAggregatesPass.cpp:3326-3443 | The loop over the index chain emits the specified terms, and stops on a struct index that is out of range or dynamic over mixed fields |
| `LeafIndex.TermIsExact` | etc/clang_plugin/CustomScalarReplacementOfAggregatesPass.cpp:3346-3442 | One emitted term, truncations included, adds exactly the scalars before the chosen part, also for a dynamic index into a struct of uniform fields |
| `LeafIndex.IdxSumIsRank` | etc/clang_plugin/CustomScalarReplacementOfAggregatesPass.cpp:3326-3443 | For an in-bounds access the 32-bit sum of truncated products is the rank of the accessed scalar |
| `LeafIndex.PartialRankBound` | etc/clang_plugin/CustomScalarReplacementOfAggregatesPass.cpp:3326-3443 | At every prefix of the chain, the scalars counted so far plus those of the remaining type never exceed the total |
| `SelectChain.DifferentChain` | etc/clang_plugin/CustomScalarReplacementOfAggregatesPass.cpp:3565-3576 | The constant-index filter finds a differing constant index exactly when there is one |
| `SelectChain.NullArguments` | etc/clang_plugin/CustomScalarReplacementOfAggregatesPass.cpp:3476-3487 | One null argument is reserved for each leaf of the accessed type |
| `SelectChain.TypeMatchesCounts` | etc/clang_plugin/CustomScalarReplacementOfAggregatesPass.cpp:3476-3487 | The number of reserved arguments is the number of leaves that have the accessed type |
| `SelectChain.BuildWrapper` | etc/clang_plugin/CustomScalarReplacementOfAggregatesPass.cpp:3546-3663 | The chain has one comparison for each surviving leaf, in order, keyed by the leaf's place in the whole list and passing that leaf's variable |
| `SelectChain.RightLeafSurvives` | etc/clang_plugin/CustomScalarReplacementOfAggregatesPass.cpp:3555-3580 | Neither the type filter nor the constant-index filter can drop the leaf that an in-bounds access reaches |
| `SelectChain.ArmsAreDistinct` | etc/clang_plugin/CustomScalarReplacementOfAggregatesPass.cpp:3546-3587 | No two comparisons of a chain have the same key |
| `SelectChain.SelectedLeaf` | etc/clang_plugin/CustomScalarReplacementOfAggregatesPass.cpp:3546-3663 | At run time the chain selects, for every leaf number, the variable of that leaf if it has the accessed type and, where its path is as long as the chain, agrees with all constant indices, and nothing otherwise |
| `SelectChain.SelectsIff` | etc/clang_plugin/CustomScalarReplacementOfAggregatesPass.cpp:3546-3663 | The chain selects the variable of the accessed scalar exactly when the number is that scalar's place in the list |
| `SelectChain.ChainIsExactIff` | etc/clang_plugin/CustomScalarReplacementOfAggregatesPass.cpp:3326-3663 | With the emitted sum as number, the chain names the accessed scalar exactly when no empty aggregate is listed before it |
| `Expansion.Resolve` | etc/clang_plugin/CustomScalarReplacementOfAggregatesPass.cpp:2919-2935 | The variable found along a path exists, is fully expanded, and is typed and named by its root and that path |
| `Expansion.ResolveInjective` | etc/clang_plugin/CustomScalarReplacementOfAggregatesPass.cpp:2190-2198 | Different parts of different roots are replaced by different variables |
| `Expansion.ConstantChainResolves` | etc/clang_plugin/CustomScalarReplacementOfAggregatesPass.cpp:2919-2955 | Following constant indices through the expansion map succeeds exactly when they form a path of the type, and finds the variable of that part |
| `Expansion.KidResolves` | etc/clang_plugin/CustomScalarReplacementOfAggregatesPass.cpp:2198-2217 | The expansion map lists the parts of a variable in part order |
| `Expansion.ExpansionsAgree` | etc/clang_plugin/CustomScalarReplacementOfAggregatesPass.cpp:2181-2359 | The worklist over globals and the recursion over allocas build the same ordered tree: at every path the same type and the same recorded parts |
| `Expansion.ExpandTypes` | etc/clang_plugin/CustomScalarReplacementOfAggregatesPass.cpp:3100-3123 | The recursion through the expansion map appends the depth-first list of the leaves of the type |
| `Expansion.AllocaExpander.AddPart` | etc/clang_plugin/CustomScalarReplacementOfAggregatesPass.cpp:2186-2198 | A new variable is created for the next part, named and recorded behind the parts before it |
| `Expansion.AllocaExpander.ExpandAlloca` | etc/clang_plugin/CustomScalarReplacementOfAggregatesPass.cpp:2181-2222 | The recursion terminates, expands the variable and everything below it completely, and changes nothing else |
| `Expansion.AllocaExpander.ExpandAllocas` | etc/clang_plugin/CustomScalarReplacementOfAggregatesPass.cpp:2265-2271 | Exactly the accepted allocas are expanded; all others are left alone |
| `Expansion.GlobalExpander.AddPart` | etc/clang_plugin/CustomScalarReplacementOfAggregatesPass.cpp:2312-2332 | A new global for the next part gets that part of the initializer |
| `Expansion.GlobalExpander.InsertPart` | etc/clang_plugin/CustomScalarReplacementOfAggregatesPass.cpp:2331-2332 | The new global is inserted right behind the one being expanded, and the scan's invariant holds again |
| `Expansion.GlobalExpander.ExpandParts` | etc/clang_plugin/CustomScalarReplacementOfAggregatesPass.cpp:2306-2358 | One turn of the scan expands one global by one level and makes the remaining work smaller, although it makes the list longer |
| `Expansion.GlobalExpander.ExpandGlobals` | etc/clang_plugin/CustomScalarReplacementOfAggregatesPass.cpp:2306-2359 | The scan of the list it inserts into terminates, expands exactly the accepted globals completely, and gives every new global the element of its root's initializer at its path |
| `Expansion.ProvenancePart` | etc/clang_plugin/CustomScalarReplacementOfAggregatesPass.cpp:2318-2326 | Creating one part keeps every initializer equal to the root's initializer at the path |
| `GepChain.ComputeBaseAndIdxs` | etc/clang_plugin/CustomScalarReplacementOfAggregatesPass.cpp:2793-2900 | Nested address computations are flattened to the base and one chain: the first index of an outer step is added to the last index, the others are appended |
| `GepChain.FlattenIff` | etc/clang_plugin/CustomScalarReplacementOfAggregatesPass.cpp:2807-2882 | For a chain of any length over an alloca or a global, flattening leads to the right type and address at the end of every run of additions exactly when the layout allows the value the run ends in; then it is right for the whole chain |
| `GepChain.FlattenSpells` | etc/clang_plugin/CustomScalarReplacementOfAggregatesPass.cpp:2834-2882 | For every pointer and all register values, as long as every sum fits the width of the index that is added, the flattened chain computes coordinate by coordinate the plain sums of the index values, constant or dynamic |
| `GepChain.RunAddsUp` | etc/clang_plugin/CustomScalarReplacementOfAggregatesPass.cpp:2834-2871 | Then a run of additions ends in the value before it plus the total of its indices: no addition is lost |
| `GepChain.RunsExactIff` | etc/clang_plugin/CustomScalarReplacementOfAggregatesPass.cpp:2807-2882 | Then every run is right exactly when the layout allows its plain total |
| `GepChain.ElementRunsAreExact` | etc/clang_plugin/CustomScalarReplacementOfAggregatesPass.cpp:2807-2882 | Pointers that are only moved at the base and in arrays are flattened rightly whenever their sums fit |
| `GepChain.RunIff` | etc/clang_plugin/CustomScalarReplacementOfAggregatesPass.cpp:2831-2871 | One run of additions of any total: if flattening is right under it, it is right behind it exactly when the summed value, truncations included, is the sum in an array or at the base, or in a struct names a field of the same type laid out that many sizes further; no sum is excluded beforehand |
| `GepChain.LandsIff` | etc/clang_plugin/CustomScalarReplacementOfAggregatesPass.cpp:2831-2871 | Replacing the last value of a chain leads to the same type that many pointees further exactly under that condition |
| `GepChain.MoreIsRight` | etc/clang_plugin/CustomScalarReplacementOfAggregatesPass.cpp:2873-2878 | Appending the other indices keeps flattening right |
| `GepChain.UniformRunExact` | etc/clang_plugin/CustomScalarReplacementOfAggregatesPass.cpp:2831-2871 | The condition holds when zero is added, or all fields have one type and the sum stays inside the struct |
| `GepChain.MixedStructFails` | etc/clang_plugin/CustomScalarReplacementOfAggregatesPass.cpp:2837-2841 | A pointer two floats behind the first field of a struct of float, double and float: its address is 8 and its flattened chain leads to 16 |
| `GepChain.ErrorsCancel` | etc/clang_plugin/CustomScalarReplacementOfAggregatesPass.cpp:2831-2871 | A pointer whose whole chain comes out right although a run inside it does not, which is why runs are judged one by one |
| `Layout.PathOffInjective` | etc/clang_plugin/CustomScalarReplacementOfAggregatesPass.cpp:3546-3663 | A byte offset names at most one scalar of a type |
| `Layout.UniformStructIsArray` | etc/clang_plugin/CustomScalarReplacementOfAggregatesPass.cpp:3367-3410 | A struct whose fields have one type is laid out like an array, which is why a dynamic index into it is meaningful |
| `Layout.FieldsPacked` | etc/clang_plugin/GepiCanonicalizationPass.cpp:203-226 | Fields start at the first multiple of their alignment behind the field before, and the struct ends at the first multiple of its own |
| `Values.ReadAfterWrite` | etc/clang_plugin/CustomScalarReplacementOfAggregatesPass.cpp:3127-3678 | A write to one scalar of a value tree changes that scalar only |
| `Indices.AddEval` | etc/clang_plugin/CustomScalarReplacementOfAggregatesPass.cpp:2834-2871 | The sum of two index operands, folded or emitted, is their sum in the width of the second, and it is constant exactly when both are |
| `Indices.WrapCongruent` | etc/clang_plugin/CustomScalarReplacementOfAggregatesPass.cpp:2834-2871 | The value kept in a width differs from the number by a multiple of the number of values of that width |
| `Indices.WrapIff` | etc/clang_plugin/CustomScalarReplacementOfAggregatesPass.cpp:2834-2871 | And it is the only number of that width that does |
| `LeafBudget.GetNumElements` | etc/clang_plugin/fpga_callbacks.hpp:30-69 | The list that grows while it is scanned is finite, and the result is the dimension times the recursive scalar count |
| `LeafBudget.ExpandableSize` | etc/clang_plugin/fpga_callbacks.hpp:71-95 | An alloca or global passes exactly when it has at most 32 scalars and 128 bytes |
| `LeafBudget.ExpandableOperand` | etc/clang_plugin/fpga_callbacks.hpp:122-146 | A call operand is measured times its decayed dimension, so one without dimension always passes |
| `LeafBudget.AcceptedTypes` | etc/clang_plugin/fpga_callbacks.hpp:8-106 | An accepted type without empty aggregates has at most 32 leaves, and both numberings of its scalars agree |
| `LeafBudget.SumsStayInBudget` | etc/clang_plugin/fpga_callbacks.hpp:8-106 | In an accepted type no partial leaf sum of an in-bounds access exceeds 32 |
| `Verdicts.Expandability.Cast` | etc/clang_plugin/CustomScalarReplacementOfAggregatesPass.hpp:85-95 | A yes stays only if area and latency together are not negative, both amounts are reset, and the result tells whether a yes was lost |
| `Verdicts.Expandability.GetCasted` | etc/clang_plugin/CustomScalarReplacementOfAggregatesPass.hpp:97-100 | The copying cast differs from the updating one exactly on a verdict worth nothing, which it refuses |
| `Verdicts.YesSurvivesIff` | etc/clang_plugin/CustomScalarReplacementOfAggregatesPass.hpp:85-117 | Over any history of accumulations and casts, the verdict is a yes exactly when it started as one, everything accumulated was a yes, and at each cast the sum of all that was added since the last one, and of what was there at the start if there was none, is not negative |
| `Verdicts.ReplaySums` | etc/clang_plugin/CustomScalarReplacementOfAggregatesPass.hpp:85-117 | Area and latency after any history are the sums of what was added since the last cast, and of what was there at the start if there was none |
| `EscapeAnalysis.ChainHasAllConstantIndices` | etc/clang_plugin/CustomScalarReplacementOfAggregatesPass.cpp:548-558 | The loop up the chain of address computations says whether all their indices are constant |
| `EscapeAnalysis.AddUses` | etc/clang_plugin/CustomScalarReplacementOfAggregatesPass.cpp:500-513 | The verdicts on all uses of a value are accumulated in order |
| `EscapeAnalysis.OnlyLifetimeUses` | etc/clang_plugin/CustomScalarReplacementOfAggregatesPass.cpp:641-666 | A cast is harmless exactly when all its uses are lifetime calls |
| `EscapeAnalysis.GetPtrExpandability` | etc/clang_plugin/CustomScalarReplacementOfAggregatesPass.cpp:473-673 | The walk over uses computes the specified verdict, through address computations and into callees |
| `EscapeAnalysis.ObjectExpandability` | etc/clang_plugin/CustomScalarReplacementOfAggregatesPass.cpp:697-733 | The verdict on an object starts from its size and is cast at the end |
| `EscapeAnalysis.AccumulateOk` | etc/clang_plugin/CustomScalarReplacementOfAggregatesPass.cpp:500-513 | An accumulated verdict is a yes exactly when all its summands are |
| `EscapeAnalysis.AccumulateWorth` | etc/clang_plugin/CustomScalarReplacementOfAggregatesPass.cpp:500-513 | An accumulated verdict is worth what it started with plus the sum of what the uses are worth |
| `EscapeAnalysis.VerdictWorth` | etc/clang_plugin/CustomScalarReplacementOfAggregatesPass.cpp:473-673 | The verdict on a use is worth three per bit of a load, 96 per index of a constant address computation or minus 393216 for one that is not constant, each with everything behind it, and nothing for any other use |
| `EscapeAnalysis.AcceptedIff` | etc/clang_plugin/CustomScalarReplacementOfAggregatesPass.cpp:697-733 | An object is accepted exactly when it passes the size gate, every use on every trail is safe and every call on it pays, and its uses are worth no loss together |
| `EscapeAnalysis.YesUnfolds` | etc/clang_plugin/CustomScalarReplacementOfAggregatesPass.cpp:473-673 | A use gets a yes exactly when it is safe, all uses one step on get a yes, and, where it is a relevant call, what the uses of the parameter are worth adds up to no loss |
| `EscapeAnalysis.VerdictIff` | etc/clang_plugin/CustomScalarReplacementOfAggregatesPass.cpp:473-673 | The verdict is a yes exactly when every use on every trail through address computations and callee arguments is safe and every relevant call on it pays, by the plain sums of what its parameter's uses are worth |
| `EscapeAnalysis.AcceptedObjectIsSafe` | etc/clang_plugin/CustomScalarReplacementOfAggregatesPass.cpp:697-733 | Every use of an accepted object, however many address computations and calls away, is a base, a load pointer, a store pointer, a lifetime-only cast or a relevant call with constant indices |
| `Calls.Program.RelevantInExact` | etc/clang_plugin/CustomScalarReplacementOfAggregatesPass.cpp:932-945 | The calls gathered from a body are exactly its relevant calls |
| `Calls.Program.RelevantInOrder` | etc/clang_plugin/CustomScalarReplacementOfAggregatesPass.cpp:932-945 | There is a strictly increasing list of positions that holds exactly the positions of relevant calls, and entry by entry the gathered calls are the calls at those positions |
| `Calls.CallGraphBuilder.RelevantCalls` | etc/clang_plugin/CustomScalarReplacementOfAggregatesPass.cpp:930-945 | The scan of a body gathers its relevant calls, one for each position of a relevant call, in the order of the positions |
| `Calls.CallGraphBuilder.ComputeCallgraphRec` | etc/clang_plugin/CustomScalarReplacementOfAggregatesPass.cpp:910-959 | The walk terminates on recursive programs, restores the trace, records each node once and leaves every new node with all its calls recorded |
| `Calls.CallGraphBuilder.RecordCalls` | etc/clang_plugin/CustomScalarReplacementOfAggregatesPass.cpp:953-956 | All calls of a node are recorded, and what was recorded before stays |
| `Calls.CallGraphBuilder.ComputeCallgraph` | etc/clang_plugin/CustomScalarReplacementOfAggregatesPass.cpp:961-966 | The map's keys are exactly the nodes some call trace from the kernel reaches, and each is mapped to the relevant calls of its callee's body, one for each position, in the order of the positions |
| `Calls.TracesStayInside` | etc/clang_plugin/CustomScalarReplacementOfAggregatesPass.cpp:910-966 | A set of nodes closed under calls holds the end of every call trace |
| `Versioning.InitializeCallsites` | etc/clang_plugin/CustomScalarReplacementOfAggregatesPass.cpp:1454-1488 | The walk enters exactly the calls at and below a node, each with its trace and with as many unexpanded operands as it has |
| `Versioning.AllCallsites` | etc/clang_plugin/CustomScalarReplacementOfAggregatesPass.cpp:1454-1488 | From the kernel, exactly the pairs of a call trace and a call that may follow it get a description, at first one without expanded operands |
| `Versioning.DescribeOperands` | etc/clang_plugin/CustomScalarReplacementOfAggregatesPass.cpp:1688-1752 | What the two operand maps say is entered at its operands and nowhere else; the pass goes on exactly when both speak of the same operands and every one of them is an operand of a call of a trace |
| `Versioning.VersionFunction` | etc/clang_plugin/CustomScalarReplacementOfAggregatesPass.cpp:1821-1874 | Each key gets its own version: the function itself exactly when there is one key, else copies numbered below the number of keys |
| `Versioning.BuildVersions` | etc/clang_plugin/CustomScalarReplacementOfAggregatesPass.cpp:1767-1875 | Every key that some trace asks for has a version of the right function, no other key has one, no two keys share one, and a copy is made only for a function with several |
| `Versioning.PerformFunctionVersioning` | etc/clang_plugin/CustomScalarReplacementOfAggregatesPass.cpp:1665-1895 | The whole phase, from the call graph and the two operand maps: it goes through exactly when the maps speak of the same operands of calls of traces; then the versions are exactly those the descriptions ask for, of a function that pays for versioning with its operands expanded as described, of any other with none expanded, and every call is rewritten as the theorems below ask |
| `Versioning.CallRewriter.AskedKey` | etc/clang_plugin/CustomScalarReplacementOfAggregatesPass.cpp:1389-1416 | The key is computed from the original callee, which the looked-up call still has |
| `Versioning.CallRewriter.RewriteCall` | etc/clang_plugin/CustomScalarReplacementOfAggregatesPass.cpp:1415-1431 | One call is set to the version it asks for, and the version is marked |
| `Versioning.CallRewriter.UpdateCallsRec` | etc/clang_plugin/CustomScalarReplacementOfAggregatesPass.cpp:1373-1452 | After the visit the call goes to its version, every version first come to is completely rewritten, nothing is rewritten twice, and only calls below are touched |
| `Versioning.CallRewriter.UpdateInner` | etc/clang_plugin/CustomScalarReplacementOfAggregatesPass.cpp:1440-1451 | All calls of a version are rewritten as this trace asks |
| `Versioning.CallRewriter.UpdateCalls` | etc/clang_plugin/CustomScalarReplacementOfAggregatesPass.cpp:1889-1895 | From the kernel: its calls go where their traces ask, and the calls of every version come to go where its first trace asks |
| `Versioning.Untouched` | etc/clang_plugin/CustomScalarReplacementOfAggregatesPass.cpp:1420-1425 | A version not come to before, and its original, have no rewritten calls: each call is rewritten at most once a version and each visit still reads the original callee |
| `Versioning.FollowsTwice` | etc/clang_plugin/CustomScalarReplacementOfAggregatesPass.cpp:1440-1451 | The guarantees of two consecutive rewritings compose |
| `Versioning.CallsAreRewired` | etc/clang_plugin/CustomScalarReplacementOfAggregatesPass.cpp:1373-1452 | Every call of a version that some trace comes to was rewritten, to a version of its original callee |
| `Versioning.TracesRunClones` | etc/clang_plugin/CustomScalarReplacementOfAggregatesPass.cpp:1373-1452 | Along every call trace the rewritten program runs versions of the original functions |
| `Versioning.DeterminedIsExact` | etc/clang_plugin/CustomScalarReplacementOfAggregatesPass.cpp:1415-1450 | If traces to one version always go on to one version, every call trace reaches the version it asks for, although marked versions are not visited again |
| `Versioning.ExactIff` | etc/clang_plugin/CustomScalarReplacementOfAggregatesPass.cpp:1415-1450 | Every call trace ends in the version its description asks for, its operands expanded as described if the callee pays for versioning and unexpanded if not, exactly when traces to one version always go on to one version |
| `Versioning.VersionsTellApart` | etc/clang_plugin/CustomScalarReplacementOfAggregatesPass.cpp:1389-1450 | Then two call traces end in the same version exactly when their last calls have the same callee and, if it pays for versioning, equal descriptions: traces described differently are told apart |
| `Versioning.AsksForIff` | etc/clang_plugin/CustomScalarReplacementOfAggregatesPass.cpp:1389-1412 | The key computed for a call is the one its description asks for: the callee, and operand by operand the description if the callee pays for versioning, else nothing expanded |
| `Deletion.Module.EraseFromParent` | etc/clang_plugin/CustomScalarReplacementOfAggregatesPass.cpp:448-471 | Deleting an unused function leaves no dangling use |
| `Deletion.Module.FindUnused` | etc/clang_plugin/CustomScalarReplacementOfAggregatesPass.cpp:448-471 | A scan finds a candidate without uses, or all candidates have one |
| `Deletion.Module.DeleteFunctionsRecursively` | etc/clang_plugin/CustomScalarReplacementOfAggregatesPass.cpp:448-471 | The recursion terminates, deletes candidates only when no use is left, and stops when every remaining candidate is used |
| `Deletion.UsersDeletedBefore` | etc/clang_plugin/CustomScalarReplacementOfAggregatesPass.cpp:448-471 | When a function is deleted, all functions that used it were deleted before |
| `Deletion.DeletionIsUnique` | etc/clang_plugin/CustomScalarReplacementOfAggregatesPass.cpp:448-471 | Whatever order the set is scanned in, the same functions are deleted |
| `Deletion.SurvivesIff` | etc/clang_plugin/CustomScalarReplacementOfAggregatesPass.cpp:448-471 | A candidate survives exactly when it belongs to a set of functions that keep each other in use |
| `ArgClassifier.Program.UsedByArgsOnly` | etc/clang_plugin/CustomScalarReplacementOfAggregatesPass.cpp:4050-4081 | With the visited set copied at every call, the result covers the arguments on repetition-free chains that avoid the set |
| `ArgClassifier.Program.LoadedOnly` | etc/clang_plugin/CustomScalarReplacementOfAggregatesPass.cpp:4084-4141 | The same for loads, with wrappers and pointers to aggregates refused |
| `ArgClassifier.Program.UsedByArgsOnlyWrapper` | etc/clang_plugin/CustomScalarReplacementOfAggregatesPass.cpp:4182-4185 | True exactly when every argument reachable through call operands, cycles included, is only passed on |
| `ArgClassifier.Program.LoadedOnlyWrapper` | etc/clang_plugin/CustomScalarReplacementOfAggregatesPass.cpp:4187-4190 | True exactly when every reachable argument is a pointer to a scalar that is only loaded or passed on, and to no wrapper |
| `ArgClassifier.Program.FreshUnfolds` | etc/clang_plugin/CustomScalarReplacementOfAggregatesPass.cpp:4050-4141 | The recursive condition: here and at everything passed to, with this argument avoided from then on |
| `ArgClassifier.Program.Shorten` | etc/clang_plugin/CustomScalarReplacementOfAggregatesPass.cpp:4050-4141 | Any chain of argument passing can be cut down to one without repetitions between the same ends |
| `ArgClassifier.Program.FreshIsReachable` | etc/clang_plugin/CustomScalarReplacementOfAggregatesPass.cpp:4050-4141 | Looking along repetition-free chains only is as good as looking along all |
| `Signatures.SignatureExpander.AddArg` | etc/clang_plugin/CustomScalarReplacementOfAggregatesPass.cpp:2409-2418 | A new parameter is appended, recorded under its parent, and a null pointer of its type is kept for the calls |
| `Signatures.SignatureExpander.ExpPart` | etc/clang_plugin/CustomScalarReplacementOfAggregatesPass.cpp:2434-2448 | A part gets one parameter and everything below it |
| `Signatures.SignatureExpander.ExpPointee` | etc/clang_plugin/CustomScalarReplacementOfAggregatesPass.cpp:2423-2479 | The parameters added for a pointee are its parts in preorder, and the record is the tree of their positions |
| `Signatures.SignatureExpander.ExpDecayed` | etc/clang_plugin/CustomScalarReplacementOfAggregatesPass.cpp:2389-2422 | The parameters added for a decayed pointer are one block for each object, the record of the argument lists one parameter for each object in order, and below each stands the tree of its parts |
| `Signatures.SignatureExpander.ExpArg` | etc/clang_plugin/CustomScalarReplacementOfAggregatesPass.cpp:2382-2486 | All three cases append exactly the specified parameters and null pointers and leave the specified record |
| `Signatures.SignatureExpander.AddOldArg` | etc/clang_plugin/CustomScalarReplacementOfAggregatesPass.cpp:2546-2561 | An old argument is appended and its parts right behind it, with the record for every kind of argument |
| `Signatures.ExpandSignature` | etc/clang_plugin/CustomScalarReplacementOfAggregatesPass.cpp:2535-2582 | The new parameter list, the null pointers for each argument, and for every argument, decayed or not, the record of which parameters stand for its parts: on the returned list, each recorded parameter points to its part, or to its elements if the part is an array, at every depth |
| `Signatures.BlocksAreContiguous` | etc/clang_plugin/CustomScalarReplacementOfAggregatesPass.cpp:2382-2486 | The parameters below one parameter occupy one contiguous block behind it, part after part |
| `Signatures.KidHasPartType` | etc/clang_plugin/CustomScalarReplacementOfAggregatesPass.cpp:2428-2433 | The parameter of a part points to the part, or to its elements if the part is an array, and the parameters of its own parts are behind it |
| `Signatures.ObjectHasType` | etc/clang_plugin/CustomScalarReplacementOfAggregatesPass.cpp:2399-2418 | The same for the parameter of each object of a decayed argument |
| `Signatures.ArgumentPlaces` | etc/clang_plugin/CustomScalarReplacementOfAggregatesPass.cpp:2546-2561 | Each old argument is found at the sum of the sizes of the blocks before it, with its type and its own block behind it, and the list ends with the last block |
| `Signatures.ExpandCall` | etc/clang_plugin/CustomScalarReplacementOfAggregatesPass.cpp:2681-2696 | A call is rebuilt with the null pointers of each argument behind its operand |
| `Signatures.CallsAlign` | etc/clang_plugin/CustomScalarReplacementOfAggregatesPass.cpp:2681-2696 | A rebuilt call has as many operands as the new function has parameters, with equal types position by position |
| `Signatures.OperandPlaces` | etc/clang_plugin/CustomScalarReplacementOfAggregatesPass.cpp:2681-2696 | Every operand of a rebuilt call is bound to the parameter its old parameter became, and the parts get null pointers |
| `ChunkCopy.CopyLowering.RecursiveCopyLowering` | etc/clang_plugin/GepiCanonicalizationPass.cpp:124-191 | Loads and stores are emitted for the same paths in the same order |
| `ChunkCopy.CopyLowering.LowerChunkCopy` | etc/clang_plugin/GepiCanonicalizationPass.cpp:289-297 | The whole lowering emits the specified paths |
| `ChunkCopy.EmittedAreLeaves` | etc/clang_plugin/GepiCanonicalizationPass.cpp:289-297 | For a chunk of whole pointees the paths are all scalars of all pointees, and those fill the chunk |
| `ChunkMemory.RightIff` | etc/clang_plugin/GepiCanonicalizationPass.cpp:289-299 | For every chunk type and every pointee with bytes: no emitted address leaves the chunk, and for all memories and all places of source and destination the lowered copy writes what the chunk copy writes, exactly when every emitted path has an index and a test on the two types holds.  Address computations may step past the end of an array; bytes that are padding of the chunk or of a pointee do not matter |
| `ChunkMemory.FitsIff` | etc/clang_plugin/GepiCanonicalizationPass.cpp:124-191 | The test, a recursion over the types: the listed scalars, read as paths into the row of pointees, stay within the chunk and have the last word on every byte that matters |
| `ChunkMemory.EffectsOfList` | etc/clang_plugin/GepiCanonicalizationPass.cpp:124-191 | Which byte the listed accesses copy, spoil or leave alone, later ones overruling earlier ones, is found by recursion over the type that is listed and the type that is read |
| `ChunkMemory.InsideIff` | etc/clang_plugin/GepiCanonicalizationPass.cpp:165-172 | Whether all listed paths denote something that ends in time is found by the same recursion: only a missing struct field makes a path denote nothing |
| `ChunkMemory.LoweredIs` | etc/clang_plugin/GepiCanonicalizationPass.cpp:173-180 | Whatever the paths are, a byte ends up with what the last store that touches it gives it: the source byte at the same offset, or nothing defined if it is padding of what is stored; a byte no store touches stays |
| `ChunkMemory.LoweringIsCopy` | etc/clang_plugin/GepiCanonicalizationPass.cpp:173-180 | For a chunk whose allocation is a whole number of pointees the lowered copy moves exactly the bytes of the chunk that are no padding of a pointee, for any overlap of source and destination and whatever was stored between the load and the store, and agrees with the chunk copy on all bytes that one writes |
| `ChunkMemory.WholeIff` | etc/clang_plugin/GepiCanonicalizationPass.cpp:289-297 | Such a chunk is copied rightly exactly when no pointee has a byte where an integer chunk that does not fill its allocation has none; in particular always when the chunk fills its allocation |
| `ChunkMemory.WholeOrAccident` | etc/clang_plugin/GepiCanonicalizationPass.cpp:289-299 | A scalar chunk that fills its allocation is copied rightly exactly when it is a positive whole number of pointees, or when the pointee, lowered without a leading index, passes the test |
| `ChunkMemory.ShortChunkFails` | etc/clang_plugin/GepiCanonicalizationPass.cpp:289-297 | A chunk smaller than a pointee that has a scalar part is never copied rightly |
| `ChunkMemory.SmallChunkFails` | etc/clang_plugin/GepiCanonicalizationPass.cpp:289-297 | A chunk of half a struct: a memory and a byte behind the chunk that the lowered copy overwrites and the chunk copy does not |
| `ChunkMemory.OddChunkFails` | etc/clang_plugin/GepiCanonicalizationPass.cpp:289-297 | An integer of 24 bits over four bytes: the allocation is one whole pointee, and the fourth byte is moved although the chunk copy does not move it |
| `ChunkMemory.AccidentalChunk` | etc/clang_plugin/GepiCanonicalizationPass.cpp:289-297 | A pointee of three floats and a chunk of five: not a whole number of pointees, and copied rightly all the same |
| `ChunkMemory.BehindTheArray` | etc/clang_plugin/GepiCanonicalizationPass.cpp:289-297 | The same pointee as the only element of an array: an emitted path steps past the end of the array, and the copy is right |
| `ChunkCopy.EachScalarOnce` | etc/clang_plugin/GepiCanonicalizationPass.cpp:124-191 | Each scalar is listed exactly once |
| `ChunkCopy.NoEmptyPathIff` | etc/clang_plugin/GepiCanonicalizationPass.cpp:165-172 | The path asserted to be non-empty at each scalar is so exactly when the pointee is no scalar, or the chunk is one pointee or has room for two |
| `InitSplit.InitLowering.RecursiveInitLowering` | etc/clang_plugin/GepiCanonicalizationPass.cpp:193-275 | The recursion emits the stores of the specified pieces, nested masks and the passage through a machine word included, and goes through exactly when nothing stops it |
| `InitSplit.InitLowering.LowerFields` | etc/clang_plugin/GepiCanonicalizationPass.cpp:203-226 | Struct parts: from a field's offset to the next one's |
| `InitSplit.InitLowering.LowerElements` | etc/clang_plugin/GepiCanonicalizationPass.cpp:227-250 | Array parts: one element width after another |
| `InitSplit.InitLowering.LowerChunkInit` | etc/clang_plugin/GepiCanonicalizationPass.cpp:332-337 | The split starts at bit 0 and ends at the width of the pointee |
| `InitSplit.GoesThroughIff` | etc/clang_plugin/GepiCanonicalizationPass.cpp:217-273 | A chunk initialization goes through exactly when the last part ends within the constant (the size of a struct, or length times element width of an array), every scalar is an integer and, in a build with assertions, every masked constant fits a machine word |
| `InitSplit.MaskFitsIff` | etc/clang_plugin/GepiCanonicalizationPass.cpp:218-270 | A masked constant fits a machine word exactly when the constant has at most 64 bits, or its bits in the range from 63 up are all clear, or the range goes on to the end of the constant and all bits from 63 up are set |
| `InitSplit.WordKeepsNumber` | etc/clang_plugin/GepiCanonicalizationPass.cpp:266-270 | The machine word a constant goes through stands for the same two's-complement number exactly when the constant fits a word, as one of at most 64 bits always does |
| `InitSplit.PartRanges` | etc/clang_plugin/GepiCanonicalizationPass.cpp:213-240 | The ranges of the parts follow each other, have room for the parts and stay inside; a field starts at its offset and the last one ends with the struct, an element is as wide as its type |
| `InitSplit.PiecesAreOk` | etc/clang_plugin/GepiCanonicalizationPass.cpp:193-256 | Over any nesting, the scalars' ranges are ordered, disjoint and inside, and the composed masks equal one mask on the scalar's own range |
| `InitSplit.UnionIsRestriction` | etc/clang_plugin/GepiCanonicalizationPass.cpp:218-245 | Or-ing the masked values gives the constant restricted to their ranges |
| `InitSplit.ChunkInitIsSplit` | etc/clang_plugin/GepiCanonicalizationPass.cpp:320-337 | All of this for a whole chunk initialization |
| `InitSplit.PieceOfScalar` | etc/clang_plugin/GepiCanonicalizationPass.cpp:193-256 | The emitted pieces are for the scalars of the type, one each in depth-first order |
| `InitSplit.BitOffIff` | etc/clang_plugin/GepiCanonicalizationPass.cpp:229-240 | The bit range of a scalar starts at its place in memory exactly when no index behind the first goes into an array of scalars that are padded in memory; otherwise it starts too early |
| `InitSplit.StoredBits` | etc/clang_plugin/GepiCanonicalizationPass.cpp:269-273 | Every scalar behind the first is stored as zero; of the first one the low 64 bits are stored and the others are zero |
| `InitSplit.StoredIff` | etc/clang_plugin/GepiCanonicalizationPass.cpp:269-273 | When the lowering goes through, the stored value is the bits that the whole constant puts into the scalar in memory exactly when those bits are all zero, or the scalar is at the start of the memory and its bits from 64 up are all zero |
| `InitSplit.SecondByteIsLost` | etc/clang_plugin/GepiCanonicalizationPass.cpp:269-273 | In a pair of bytes the second one is stored as zero whatever the constant gives it |
| `InitSplit.WideScalarIsCut` | etc/clang_plugin/GepiCanonicalizationPass.cpp:269-273 | Of an integer of 128 bits at the start of the memory bit 100 is lost; a build with assertions goes through only when bits 63 to 127 are all set |
| `InitSplit.PaddedElementMisplaced` | etc/clang_plugin/GepiCanonicalizationPass.cpp:229-240 | Of two integers of 24 bits the second is given the range from bit 24, and its memory starts at bit 32 |
| `InitMemory.RightInitIff` | etc/clang_plugin/GepiCanonicalizationPass.cpp:193-337 | The whole lowered initialization leaves in every bit of every memory what the chunk store leaves there, padding and unspecified bits apart, exactly when it goes through, the constant reaches neither behind the pointee nor ends before a scalar of it, and it sets no bit of any scalar but the low 64 of the first one |
| `InitMemory.InitBitOf` | etc/clang_plugin/GepiCanonicalizationPass.cpp:266-273 | A bit of a scalar ends up with what is stored into that scalar: the emitted stores do not disturb each other |
| `InitMemory.InitBitOutside` | etc/clang_plugin/GepiCanonicalizationPass.cpp:266-273 | Outside the pointee the emitted stores change nothing |
| `InitMemory.OneWordIsRight` | etc/clang_plugin/GepiCanonicalizationPass.cpp:193-337 | A struct of one integer of 64 bits is always initialized rightly |
| `GepWorklist.Explicitation.CollectOps` | etc/clang_plugin/GepiCanonicalizationPass.cpp:1678-1690 | The operands of one instruction that are constant address computations are queued in order |
| `GepWorklist.Explicitation.CollectUses` | etc/clang_plugin/GepiCanonicalizationPass.cpp:1673-1692 | The queue holds every constant address computation operand of every instruction of every block once, and its summed nesting depth is that of the function |
| `GepWorklist.Explicitation.FindInsertionPoint` | etc/clang_plugin/GepiCanonicalizationPass.cpp:1703-1707 | New instructions go in front of the user, or for an operand of a phi in front of the end of the block it comes from |
| `GepExplicit.InsertedInFront` | etc/clang_plugin/GepiCanonicalizationPass.cpp:1703-1714 | After a conversion the new instruction is right in front of its user, or of the end of the block a phi's operand comes from, and everything else stays in order |
| `GepWorklist.Explicitation.ConvertAll` | etc/clang_plugin/GepiCanonicalizationPass.cpp:1695-1748 | The worklist terminates, with the summed nesting depth going down by one a turn |
| `GepWorklist.Explicitation.GepExplicitation` | etc/clang_plugin/GepiCanonicalizationPass.cpp:1671-1753 | Afterwards no operand of any instruction is a constant address computation, one instruction was inserted for each nesting level, every use has an instruction of its own, every run is the same, and the result tells whether there was anything to do |
| `GepWorklist.PhisIff` | etc/clang_plugin/GepiCanonicalizationPass.cpp:1703-1707 | Phis with several entries for one block keep them equal exactly when no phi had one constant address computation twice for one block |
| `GepWorklist.NextWaiting` | etc/clang_plugin/GepiCanonicalizationPass.cpp:1734-1740 | After a conversion the queue again holds every remaining use once |
| `GepWorklist.NextDepths` | etc/clang_plugin/GepiCanonicalizationPass.cpp:1734-1740 | Each conversion lowers the summed depth by exactly one |
| `GepExplicit.ConvertPreserves` | etc/clang_plugin/GepiCanonicalizationPass.cpp:1703-1724 | Converting one use, of a phi or not, keeps control, memory and the operands and results of all instructions after any number of blocks, loops included, for any addresses of globals and any meaning of the other instructions |
| `GepExplicit.RunSame` | etc/clang_plugin/GepiCanonicalizationPass.cpp:1703-1724 | The invariant of both runs: whenever control comes from the block of the insertion point, the new instruction was executed |
| `GepExplicit.ConvertWellFormed` | etc/clang_plugin/GepiCanonicalizationPass.cpp:1703-1723 | Each instruction stays in one place, blocks end as before and phis stay in front |

## Left out

- Disaggregation.RunSimulates: the objects are allocas and globals; pointer arguments as bases, pointers in registers and phis, and calls are not part of the simulated language. Only scalar loads and stores are; an access is in bounds when the sums of its indices, constant or dynamic, fit their widths, are allowed by the layout and stay inside their dimensions.
- Disaggregation.ProcessSinglePointer: the wrapper function is a list of comparisons with its arguments; block splitting, phi nodes, names, and the later inlining of the wrapper are not modelled.
- EscapeAnalysis.GetPtrExpandability: the maps from uses to base pointers and from call operands to verdicts are not modelled, nor the error when an operand is entered twice; the walk below a bitcast, whose result is dropped, is not modelled.
- Versioning.CallRewriter.UpdateCallsRec: calls and invokes are not told apart, and the body of a copy is the body of its original.
- Versioning.BuildVersions: keys are gathered from the descriptions of the calls of a function, not from its use list.
- Versioning.DescribeOperands: the two maps are walked by key, in any order; a key of only one of them stops the source at the first place where the sorted maps differ, here before the walk.
- Signatures.ExpandSignature: names, recorded sizes and the flags of new arguments are not modelled.
- ChunkCopy.CopyLowering.LowerChunkCopy: removal of the old store, load and casts is not modelled; a pointee without bytes, whose quotient is not a number in the source, is excluded, and the quotient of sizes, a double there, is exact here.
- ChunkMemory.RightIff: indices are unbounded numbers, in the source 32-bit constants, which makes a difference from 2^31 emitted accesses on; an integer is taken to fill its last byte.
- InitSplit.InitLowering.RecursiveInitLowering: what a build without assertions does with a mask behind the constant or a scalar that is no integer is undefined and counts as stopping here; memory is little-endian.
- GepWorklist.Explicitation.GepExplicitation: address computations hidden inside other constant expressions are not made explicit by the source and are part of a constant here; the inbounds flag is not modelled.
- LeafBudget.ExpandableSize: the 32-bit loop counter of the scan does not wrap for any list that fits in memory; it is an unbounded number here.
- Verdicts.Expandability.Cast: doubles are real numbers.
- Bitcasts in the flattening of address computations: behind one, the chain gets no more indices, and the pass goes on with the chain so far when the base was expanded (CustomScalarReplacementOfAggregatesPass.cpp lines 2797-2806 and 3149-3163). Such pointers are not part of this model.
- The refinement of memory behind expanded pointer arguments (`process_arg_pointer`), which is partial in the source.
- The rewriting of arguments to scalars and return values in `cleanup`, and `storedOnce`, a check without recursion.
- The profit of versioning a function, and whether the profit heuristics are good.
- `compute_gepi_idxs_rec`, the memcpy branch of `remove_intrinsic`, the pointer-iterator pass, loop canonicalization and LCSSA cleaning.
- Detection of chunk copies and chunk initializations in the instruction stream.
- LLVM's own parts: SSA form, inlining, promotion to registers, data layouts other than natural alignment.
- Command-line front ends and everything outside the clang plugin.
- Debug output, statistics, names and LLVM-version conditionals.
