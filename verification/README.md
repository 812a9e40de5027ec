# Models of Luthier and the opcode profiler

A Dafny model of the parts of the repository that decide something: the register
liveness sweep, symbol lookup and classification in code objects, machine-function
cloning, the API interceptors with their generators, opcode counting, the lowering of
register reads and writes, and the disassembly loop.

| modules | what they are about |
|---|---|
| `Registers`, `Dataflow`, `RegLists`, `VectorCfg`, `Liveness` | the backward sweep over the vector control-flow graph, its equations and the paths they stand for |
| `VectorSplit`, `VectorBuild` | building that graph: splitting basic blocks where lanes part and join, and linking them |
| `RegisterLiveness`, `ControlPaths` | the analysis from machine functions to live sets, and how exact it is on control paths |
| `ElfHash`, `SymbolKinds`, `LoadedCodeObject`, `NameLookup`, `SymbolFacts` | finding symbols through hash sections, sorting them by kind, finding them again by name |
| `MachineIR`, `Cloning`, `CloneMeaning`, `ModuleCloning` | copying machine functions, and why a copy runs like its source |
| `Intercept`, `HipInterceptor`, `HsaInterceptor`, `HipEnabling`, `HsaEnabling`, `ApiTables` | interceptors as classes and as a step function over all runs; the ids and maps of the generators |
| `Opcodeprof`, `OpcodeCounting`, `OpcodeFacts` | histograms and profiles; placing counters, running kernels, reading counters |
| `RegLowering`, `RegBlocks` | the intrinsics `readReg` and `writeReg`, and whole blocks of them |
| `RegUses`, `RegWalks`, `RegUseInputs` | redirecting the uses of registers a write has replaced |
| `Disassembly` | decoding a buffer |
| `Wrappers` | optional values and results |

Classes and loops of the code are classes and loops here. Each is proved against a
function or an equation, and the properties are lemmas about those. Hash tables whose
order the code does not fix are walked in an arbitrary order.

## Where the code differs from its description

- The liveness code has no set of registers live at the exit of a block: what leaves a
  block is the union of its successors' lists. Reserved registers are not stored in
  those lists, so they cross blocks only as parts of unreserved ones
  (`Dataflow.LiveIffCarried`, `Dataflow.ReservedIsDropped`).
- Linking makes the not-taken exit of every predecessor a successor of a not-taken entry,
  where the edge the other way is meant (`VectorCFG.cpp:261-266`; that edge is there
  too). `ControlPaths.ExactExactlyWhen` says for which functions this makes no difference,
  and `ControlPaths.NoneMissed` that it loses no live register.
- The walk of the GNU form goes on without testing the stop bit when a stored hash
  differs. It still gives the right answer on well-formed tables
  (`ElfHash.AnswerIsSearch`), but may walk past the end of a bucket.
  The size check counts filter words as 4 bytes, so a section that passes can end before
  its arrays do (`ElfHash.CheckedReadsInsideIff`, `ElfHash.ShortSectionPasses`).
- The walk of the System V form does not return on chains that run in a circle
  (`ElfHash.CircleNeverEnds`, `ElfHash.WalkEndsIff`).
- `getLoadedCodeObjectSymbolByName` asks the symbols linked to the hash section, the
  enumerations walk the symbol table. `LoadedCodeObject.Covers` states what is needed of
  the former. A symbol that ends in `.kd` without being a descriptor is a variable to the
  one and nothing to the other (`LoadedCodeObject.NamesAgree` has the exact condition).
- Cloning does not copy jump tables and constant pools, loses the type of register
  allocation hints, and its instruction map leaves
  out instructions without operands. Fixed frame objects lose their spill flag, stack ID
  and given alignment, others that are immutable become mutable
  (`Cloning.RecreatedIffCreatable`, `Cloning.RecreatedAttrs`), and call entries of memory operands keep the globals
  of the source (`CloneMeaning.CloneIsSameIff`).
- `hip_intercept_gen.py:400` tests the internal set it has just erased from, so it does
  not protect ops enabled by the user (`HipInterceptor.UserInstalledIff`).
- `hsa_intercept_gen.py:519` tests the user set it has just erased from, so it does not
  protect functions enabled internally, and neither disabling function asks whether the
  table is frozen (`HsaInterceptor.InternalInstalledIff`, `HsaInterceptor.FrozenTableChanges`).
- The HIP generator skips fields named `size` when it numbers ops but not when it fills
  the maps (`ApiTables.AlignedIff`).
- Insertion into the overwrite map of `writeReg` does not replace an entry
  (`RegLowering.RoundTripIff`); the pass that calls it starts with an empty map.
- To make later code read what was written, that pass changes uses of the register that
  held the cell before, wherever they stand (`IntrinsicMIRLoweringPass.cpp:214-222`). A use
  in a read lowered before the write, in the instruction that inserts a written half, or
  of a register that holds another cell too, must not be changed
  (`RegWalks.WalkRightIff`, `RegWalks.EveryUseReachedIff`; the inputs are in
  `RegUseInputs`). The loop changes operands in the list it walks over, so it may end
  early; which uses it reaches is a parameter.

## Parameters

The decoder, the two hash functions, the meaning of single instructions, the alignment a
target gives fixed frame objects, the address of a global and the callbacks are functions
the statements hold for all of. The answers of the runtime are inputs: whether it
hands out its loader table, whether it creates a queue, which executable symbols exist,
which records can be read.

## Model

| member | source | states |
|---|---|---|
| Dataflow.LiveIffReadLater | Luthier/src/lib/tooling_common/AMDGPURegisterLiveness.cpp:31-101 | In the least solution, an unreserved register is live before an instruction if and only if some path of the graph from there uses it or a register it is part of, with no definition that overlaps it and no clobber on the way, over all graphs with loops and self-loops. |
| Dataflow.LiveIffCarried | Luthier/src/lib/tooling_common/AMDGPURegisterLiveness.cpp:31-101 | The same for every register, reserved ones included: a reserved one crosses a block boundary only as a part of an unreserved register that is read later. |
| Dataflow.ReservedIsDropped | Luthier/src/lib/tooling_common/VectorCFG.cpp:296-310 | A graph in which a reserved register is read in the next block and is not live before that block. |
| Dataflow.LeastSolutionUnique | Luthier/src/lib/tooling_common/AMDGPURegisterLiveness.cpp:83-101 | There is one least solution, so the order in which the map of blocks is walked does not show in the result. |
| Dataflow.PathStateIsPreSolution | Luthier/src/lib/tooling_common/AMDGPURegisterLiveness.cpp:31-65 | The registers some path reads later satisfy the equations as inequalities, so the least solution has no register more. |
| Dataflow.PathIsLive | Luthier/src/lib/tooling_common/AMDGPURegisterLiveness.cpp:31-65 | Every solution of the equations contains whatever a path reads before writing. |
| Dataflow.LiveBeforeSplit | Luthier/src/lib/tooling_common/AMDGPURegisterLiveness.cpp:38-50 | The backward walk through a block keeps exactly what the block itself reads first and what survives it and is live out. |
| Dataflow.RoomShrinks | Luthier/src/lib/tooling_common/AMDGPURegisterLiveness.cpp:83-101 | A visit that enlarges a block's set shrinks the room left by at least one, which ends the sweeps. |
| Registers.StepBackwardExact | Luthier/src/lib/tooling_common/AMDGPURegisterLiveness.cpp:38-39 | Live before an instruction are exactly the parts of what it uses, and what is live after it, is not clobbered and overlaps no definition. |
| Registers.StepBackwardClosed | Luthier/src/lib/tooling_common/AMDGPURegisterLiveness.cpp:38-39 | Stepping over an instruction keeps a live set closed under sub-registers. |
| Registers.CloseEmit | Luthier/src/lib/tooling_common/VectorCFG.cpp:296-310 | Storing only the maximal unreserved registers and closing them again on reading loses nothing but reserved registers no unreserved one covers. |
| Registers.EmitExact | Luthier/src/lib/tooling_common/VectorCFG.cpp:296-310 | What is stored are exactly the unreserved live registers that are no part of another unreserved live one. |
| Registers.EmitOfClose | Luthier/src/lib/tooling_common/VectorCFG.cpp:277-310 | The stored list can be computed back from the set it stands for. |
| RegLists.IncreasingUnique | Luthier/src/lib/tooling_common/AMDGPURegisterLiveness.cpp:78-80 | Sorted lists without repetition are equal exactly when they have the same elements. |
| RegLists.SqueezeStep | Luthier/src/lib/tooling_common/VectorCFG.cpp:51-62 | One step of merging a run of equal neighbours keeps the elements and makes the output strictly increasing. |
| VectorCfg.VectorMBB.AddPredecessorBlock | Luthier/include/luthier/tooling/VectorCFG.h:104-107 | Records the edge at both ends and nothing else. |
| VectorCfg.VectorMBB.AddSuccessorBlock | Luthier/include/luthier/tooling/VectorCFG.h:109-112 | Records the edge at both ends and nothing else. |
| VectorCfg.VectorMBB.AddLiveIn | Luthier/src/lib/tooling_common/VectorCFG.cpp:35-38 | Appends to the live-in list. |
| VectorCfg.VectorMBB.ClearLiveIns | Luthier/src/lib/tooling_common/VectorCFG.cpp:40-43 | Exchanges the list with the caller's. |
| VectorCfg.VectorMBB.SortUniqueLiveIns | Luthier/src/lib/tooling_common/VectorCFG.cpp:45-63 | The list becomes strictly increasing with the same elements. |
| Liveness.AddBlockLiveIns | Luthier/src/lib/tooling_common/VectorCFG.cpp:277-294 | Adds the listed registers with all their parts. |
| Liveness.AddLiveOutsNoPristines | Luthier/src/lib/tooling_common/VectorCFG.cpp:271-275 | Adds the union of what the successors' lists stand for, in any order of successors. |
| Liveness.WalkBlock | Luthier/src/lib/tooling_common/AMDGPURegisterLiveness.cpp:38-50 | Rewrites the entry of every instruction of the block with the set live before it, and no other entry. |
| Liveness.ComputeLiveIns | Luthier/src/lib/tooling_common/AMDGPURegisterLiveness.cpp:31-51 | Returns the set live at the start of the block by the equations, and rewrites the entries of its instructions. |
| Liveness.AddLiveIns | Luthier/src/lib/tooling_common/VectorCFG.cpp:296-310 | Appends exactly the registers that are to be stored, each once. |
| Liveness.ComputeAndAddLiveIns | Luthier/src/lib/tooling_common/AMDGPURegisterLiveness.cpp:53-65 | Returns the old list and leaves the new one to be sorted. |
| Liveness.CanonicalUnique | Luthier/src/lib/tooling_common/AMDGPURegisterLiveness.cpp:69-81 | Two stored lists are equal if and only if the sets they stand for are. |
| Liveness.RecomputeBlock | Luthier/src/lib/tooling_common/AMDGPURegisterLiveness.cpp:69-81 | One block gets the value its equation gives it, `changed` holds exactly when the state changed, and only its own entries are rewritten. |
| Liveness.GrowingStep | Luthier/src/lib/tooling_common/AMDGPURegisterLiveness.cpp:83-101 | A visit takes a state below the least solution to another one, growing only. |
| Liveness.VisitStep | Luthier/src/lib/tooling_common/AMDGPURegisterLiveness.cpp:87-99 | What a sweep keeps: as long as nothing has changed, every visited block satisfies its equation and has current entries. |
| Liveness.Visit | Luthier/src/lib/tooling_common/AMDGPURegisterLiveness.cpp:69-99 | The visit of one block keeps that, and leaves the entries of other functions alone. |
| Liveness.VisitScalar | Luthier/src/lib/tooling_common/AMDGPURegisterLiveness.cpp:88-93 | So do the visits of all vector blocks of a basic block. |
| Liveness.Sweep | Luthier/src/lib/tooling_common/AMDGPURegisterLiveness.cpp:86-99 | One sweep visits every block, the entry and exit blocks too, in any order of the map. |
| Liveness.QuietSweepIsExact | Luthier/src/lib/tooling_common/AMDGPURegisterLiveness.cpp:83-101 | A sweep without change has reached the least solution, with every entry rewritten from it: an entry has the unreserved registers read later, and the reserved ones carried to a read. |
| Liveness.RecomputeLiveIns | Luthier/src/lib/tooling_common/AMDGPURegisterLiveness.cpp:83-101 | The sweeps end; the lists stand for the least solution, every entry belongs to it, none is stale, and the entries are path exact. |
| VectorSplit.PartsAreUniform | Luthier/src/lib/tooling_common/VectorCFG.cpp:139-189 | The parts put together are the block; each is all vector or all scalar instructions, and no vector instruction after the first of a part writes the mask of active lanes. Scalar ones, which every lane goes through, may. |
| VectorSplit.CutsExact | Luthier/src/lib/tooling_common/VectorCFG.cpp:139-189 | A part begins inside the block exactly where vector and scalar instructions meet, and at a vector instruction that writes the mask of active lanes. |
| VectorSplit.FirstPartExact | Luthier/src/lib/tooling_common/VectorCFG.cpp:139-189 | The part taken on entry is empty exactly if the block is, or starts with a scalar instruction or with one that writes the mask. |
| VectorSplit.SplitStep | Luthier/src/lib/tooling_common/VectorCFG.cpp:148-166 | A split keeps the edges made so far, adds the one to the new part, and lets the part before hang. |
| VectorSplit.JoinStep | Luthier/src/lib/tooling_common/VectorCFG.cpp:167-180 | A join leads the part before and everything that hangs to the new part, and nothing hangs any more. |
| VectorSplit.SplitBlock | Luthier/src/lib/tooling_common/VectorCFG.cpp:99-198 | A basic block becomes its parts, and the edges are exactly those to the next part and, where lanes may skip parts, to the next one all lanes execute or to the not-taken exit. |
| VectorSplit.LanesFollowPaths | Luthier/src/lib/tooling_common/VectorCFG.cpp:127-198 | Whichever parts a lane executes, skipping none where lanes join and taking none up again after dropping out, its way is a path of the pieces. |
| VectorSplit.PathsAreLanes | Luthier/src/lib/tooling_common/VectorCFG.cpp:127-198 | Every path of the pieces from an entry to an exit is the way of such a lane. |
| VectorBuild.NodesExact | Luthier/src/lib/tooling_common/VectorCFG.cpp:99-126 | Every piece of every basic block, and the entry and exit of the function, is made exactly once. |
| VectorBuild.PiecesInOrder | Luthier/src/lib/tooling_common/VectorCFG.cpp:139-189 | Each part holds the instructions of the block from where it begins, in their order, and the other pieces hold none. |
| VectorBuild.BuildBlocks | Luthier/src/lib/tooling_common/VectorCFG.cpp:240-244 | The blocks of all pieces are made, with the instructions of their parts and grouped by basic block. |
| VectorBuild.LinksExact | Luthier/src/lib/tooling_common/VectorCFG.cpp:245-267 | Linking adds the edges control can take and, for each edge between basic blocks, one from the not-taken entry of the target back to the not-taken exit of the source; no others. |
| VectorBuild.LinkSuccs | Luthier/src/lib/tooling_common/VectorCFG.cpp:255-260 | The two edges to each successor. |
| VectorBuild.LinkPreds | Luthier/src/lib/tooling_common/VectorCFG.cpp:261-266 | One edge from each predecessor, and one back to it. |
| VectorBuild.LinkBlocks | Luthier/src/lib/tooling_common/VectorCFG.cpp:245-267 | The loop over the basic blocks, in any order, adds exactly these edges. |
| VectorBuild.AddEdges | Luthier/src/lib/tooling_common/VectorCFG.cpp:245-267 | Recording the edges gives every block exactly the successors its edges lead to and the predecessors they come from. |
| VectorBuild.FunctionGraphValid | Luthier/src/lib/tooling_common/VectorCFG.cpp:237-269 | The graph of a function is one the analysis accepts: edges stay inside, and no instruction is in two pieces. |
| VectorBuild.GetVectorCFG | Luthier/src/lib/tooling_common/VectorCFG.cpp:237-269 | Builds blocks whose graph is the graph of the function, every edge recorded at both ends, with nothing live yet; the entry and the exit of the function are its first two blocks. |
| RegisterLiveness.GraphHasAll | Luthier/src/lib/tooling_common/VectorCFG.cpp:237-269 | The pieces hold all instructions of the function and no others. |
| RegisterLiveness.AnalyzedKept | Luthier/src/lib/tooling_common/AMDGPURegisterLiveness.cpp:103-119 | Analyzing another function keeps the results of the functions before. |
| RegisterLiveness.AnalyzeFunction | Luthier/src/lib/tooling_common/AMDGPURegisterLiveness.cpp:113-116 | From the machine function to the map: its entries are exact for every register, reserved ones included, and those of other functions stay. |
| RegisterLiveness.AnalyzeFunctions | Luthier/src/lib/tooling_common/AMDGPURegisterLiveness.cpp:103-119 | After the loop the entries of all functions are exact in the one map, functions without machine code are passed over, and the map has entries for nothing else. |
| RegisterLiveness.AMDGPURegisterLiveness.constructor | Luthier/src/lib/tooling_common/AMDGPURegisterLiveness.cpp:103-119 | The result object is valid: its map is exact for the whole module and about nothing else. |
| RegisterLiveness.AMDGPURegisterLiveness.GetMFLevelInstrLiveIns | Luthier/include/luthier/tooling/AMDGPURegisterLiveness.h:54-64 | Asked of a constructed result: a set exactly for the instructions of the analyzed functions, and that set has the unreserved registers some path from the instruction reads before writing, and the reserved ones carried to a read. |
| ControlPaths.NoneMissed | Luthier/src/lib/tooling_common/AMDGPURegisterLiveness.cpp:31-101 | With the edges that go back, a register that some control path reads before writing is in the live set all the same. |
| ControlPaths.NoDetour | Luthier/src/lib/tooling_common/VectorCFG.cpp:255-266 | Where blocks that share a successor share all of them, a path over an edge that goes back can be replaced by a control path. |
| ControlPaths.DisagreeingIsInexact | Luthier/src/lib/tooling_common/VectorCFG.cpp:261-266 | Where two blocks share a successor and not another one, there is code for which a register is live that no control path reads. |
| ControlPaths.ExactExactlyWhen | Luthier/src/lib/tooling_common/VectorCFG.cpp:245-267 | The edges that go back add nothing to the analysis, whatever the code of the blocks, if and only if blocks that share a successor share all of them. |
| ElfHash.LinearSearch | Luthier/src/lib/common/ObjectUtils.cpp:48-88 | The reference: the first symbol at or after a place with the name, or nothing exactly when there is none. |
| ElfHash.MatchesExact | Luthier/src/lib/common/ObjectUtils.cpp:78-82 | A symbol has a name exactly when its offset is inside the string table and the name stands there, ended by a zero or the table; none has a name with a zero in it. |
| ElfHash.Pow2Adds | Luthier/src/lib/common/ObjectUtils.cpp:62-66 | The divisor of the filter's second bit is the power of two that the shift stands for. |
| ElfHash.LowBitIgnored | Luthier/src/lib/common/ObjectUtils.cpp:75-76 | Hashes are compared in all bits but the lowest. |
| ElfHash.BloomAccepts | Luthier/src/lib/common/ObjectUtils.cpp:62-68 | The filter never turns away the name of a symbol in the table. |
| ElfHash.StopBitIsLast | Luthier/src/lib/common/ObjectUtils.cpp:84-85 | The stop bit is not seen before the last symbol with the bucket of the name. |
| ElfHash.WalkStartsEarly | Luthier/src/lib/common/ObjectUtils.cpp:71-72 | The walk starts at or before the first symbol with the name. |
| ElfHash.BucketStartsBefore | Luthier/src/lib/common/ObjectUtils.cpp:71-72 | A bucket points at or before each of its symbols. |
| ElfHash.OtherHash | Luthier/src/lib/common/ObjectUtils.cpp:73-76 | A symbol whose stored hash differs does not have the name, so skipping it, stop bit and all, is right. |
| ElfHash.GetSymbolFromGnuHashTable | Luthier/src/lib/common/ObjectUtils.cpp:48-88 | On any table the exact answer: nothing if a filter bit is missing or the walk never stops, else what the first symbol it stops at gives, an error included; on a well-formed table that of the linear search from `symndx`. |
| ElfHash.AnswerIsSearch | Luthier/src/lib/common/ObjectUtils.cpp:48-88 | On a well-formed table the walk, which tests the stop bit only where hashes agree, answers like the linear search. |
| ElfHash.BuiltIsGrouped | Luthier/src/lib/common/ObjectUtils.cpp:48-88 | Sorting symbols by bucket gives buckets that start where the lookup expects. |
| ElfHash.BuiltIsWellFormed | Luthier/src/lib/common/ObjectUtils.cpp:48-88 | Every symbol table sorted by bucket has a well-formed GNU table, so the condition of the lookup can be met. |
| ElfHash.ChainReaches | Luthier/src/lib/common/ObjectUtils.cpp:91-111 | Linking each symbol to the one before it with the same bucket makes a chain that reaches every symbol of the bucket. |
| ElfHash.BuiltSysVIsWellFormed | Luthier/src/lib/common/ObjectUtils.cpp:91-111 | Every symbol table whose symbols are named has a well-formed System V table without circles. |
| ElfHash.BothFormsExist | Luthier/src/lib/common/ObjectUtils.cpp:113-178 | Named symbols sorted by bucket have well-formed tables of both forms, so what `ElfHash.FormsAgree` asks of two sections can be met by one symbol table. |
| ElfHash.AcyclicHalts | Luthier/src/lib/common/ObjectUtils.cpp:101-110 | On chains without circles the walk ends, for every name and start. |
| ElfHash.AcyclicIff | Luthier/src/lib/common/ObjectUtils.cpp:101-110 | With every symbol named, no link runs in a circle if and only if every lookup of every name ends. |
| ElfHash.AllWalksEndIff | Luthier/src/lib/common/ObjectUtils.cpp:101-110 | For one name, the walks from all starts end if and only if symbols have ranks that fall along every link followed. |
| ElfHash.WalkEndsIff | Luthier/src/lib/common/ObjectUtils.cpp:101-110 | One walk ends if and only if the symbols on its way have such ranks, which is what the lookup requires. |
| ElfHash.CircleNeverEnds | Luthier/src/lib/common/ObjectUtils.cpp:101-110 | A table with one symbol linked to itself, where the lookup of a name it does not have never ends. |
| ElfHash.FoundUnique | Luthier/src/lib/common/ObjectUtils.cpp:101-110 | Where the walk ends does not depend on how many links one allows it. |
| ElfHash.GetSymbolFromSysVHashTable | Luthier/src/lib/common/ObjectUtils.cpp:91-111 | Where the links followed lead down a way of ranks, returns where the walk ends, with its two errors. |
| ElfHash.LinkedIsFound | Luthier/src/lib/common/ObjectUtils.cpp:101-110 | A named symbol on the chain is not walked past. |
| ElfHash.FoundMatches | Luthier/src/lib/common/ObjectUtils.cpp:101-110 | What is found has the name. |
| ElfHash.SysVComplete | Luthier/src/lib/common/ObjectUtils.cpp:91-111 | On a well-formed table a symbol is returned if and only if one has the name. |
| ElfHash.FormsAgree | Luthier/src/lib/common/ObjectUtils.cpp:113-178 | Sound sections of both forms over the same uniquely named symbols: the answers of the lookup are equal if and only if the name is not one of the symbols below `symndx`, which the GNU form leaves out. |
| ElfHash.CheckedReadsInsideIff | Luthier/src/lib/common/ObjectUtils.cpp:139-172 | Of a section that passes the size check, the entries read lie inside if it has the System V form, and in the GNU form if and only if 4 bytes more to a filter word are there. |
| ElfHash.SysVCheckExact | Luthier/src/lib/common/ObjectUtils.cpp:161-171 | A System V section passes the size check exactly when its header and all its entries are inside. |
| ElfHash.ShortSectionPasses | Luthier/src/lib/common/ObjectUtils.cpp:139-157 | Every GNU table passes the check in a section that is too short for it. |
| ElfHash.HashLookup | Luthier/src/lib/common/ObjectUtils.cpp:113-178 | Each error of the section checks, what the form makes of a section that passes them, and on a sound section the answer of a complete search, whichever the form. |
| ElfHash.LookupSymbolByName | Luthier/src/lib/common/ObjectUtils.cpp:261-276 | Asks the first hash section, and fails exactly when there is none. |
| SymbolKinds.WithoutKDUndoes | Luthier/src/lib/common/ObjectUtils.cpp:237-238 | Cutting a name at its last `.kd` undoes appending it. |
| SymbolFacts.WithoutKDExact | Luthier/src/lib/common/ObjectUtils.cpp:237-238 | A name is cut at the last `.kd` in it, and left alone if it has none. |
| SymbolFacts.KindExact | Luthier/src/lib/common/ObjectUtils.cpp:207-233 | The kind of every symbol, by type, size, binding and name. |
| SymbolFacts.SelectInOrder | Luthier/src/lib/common/ObjectUtils.cpp:204-234 | Outputs list the symbols of a kind in their order, each as often as it is there. |
| SymbolFacts.FirstStays | Luthier/src/lib/common/ObjectUtils.cpp:204-234 | Of symbols of one name a table holds the first. |
| SymbolKinds.FileSymbol | Luthier/src/lib/common/ObjectUtils.cpp:207-233 | One symbol goes to exactly one table or output, the one of its kind. |
| SymbolKinds.FileSymbols | Luthier/src/lib/common/ObjectUtils.cpp:204-234 | The first pass: tables keep the first symbol of a name, the other outputs get their symbols in order, whichever outputs are given. |
| SymbolKinds.PairKernels | Luthier/src/lib/common/ObjectUtils.cpp:236-251 | Succeeds if and only if every descriptor has a function of its own, in any order of the table; appends each pair once and takes the functions out. |
| SymbolKinds.PushFunctions | Luthier/src/lib/common/ObjectUtils.cpp:252-257 | Appends each function left exactly once. |
| SymbolKinds.CategorizeSymbols | Luthier/src/lib/common/ObjectUtils.cpp:197-259 | The exact condition for success, and what each given output holds; leaving one out does not change the others. |
| SymbolKinds.PairedOneToOne | Luthier/src/lib/common/ObjectUtils.cpp:236-251 | Kernels pair descriptors and functions one to one, by name. |
| SymbolKinds.SymbolsConserved | Luthier/src/lib/common/ObjectUtils.cpp:197-259 | With all outputs given and success, every symbol is in the outputs as often as in the file if and only if functions have distinct names and descriptors have distinct names. |
| SymbolFacts.ListedExact | Luthier/src/lib/hsa/LoadedCodeObject.cpp:134-301 | Where names are unique: kernels are the pairs of a function and the descriptor named after it that the metadata names and the runtime knows, device functions those without such a descriptor, and variables and external symbols by type and name. |
| SymbolFacts.MakeableExact | Luthier/src/lib/hsa/LoadedCodeObject.cpp:134-291 | When the kernels and the external symbols of an object can all be made. |
| SymbolFacts.NothingFound | Luthier/src/lib/hsa/LoadedCodeObject.cpp:304-311 | An error of the lookup in the hash section is passed on, and nothing found is nothing. |
| SymbolFacts.DescriptorFound | Luthier/src/lib/hsa/LoadedCodeObject.cpp:303-332 | Looking up a descriptor: the errors, and the kernel it leads to. |
| SymbolFacts.FunctionFound | Luthier/src/lib/hsa/LoadedCodeObject.cpp:333-349 | Looking up a function: a kernel if a symbol is named after it with `.kd`, else a device function. |
| SymbolFacts.OtherFound | Luthier/src/lib/hsa/LoadedCodeObject.cpp:350-362 | Looking up anything else: a variable, an external symbol or nothing. |
| LoadedCodeObject.CollectKernelSymbols | Luthier/src/lib/hsa/LoadedCodeObject.cpp:139-161 | The tables of functions and descriptors, or the error of an unreadable name. |
| LoadedCodeObject.GetKernelSymbols | Luthier/src/lib/hsa/LoadedCodeObject.cpp:134-198 | The exact condition for success; one kernel for each metadata entry, in order. |
| LoadedCodeObject.GetVariableSymbols | Luthier/src/lib/hsa/LoadedCodeObject.cpp:200-224 | Exactly the object symbols whose names do not end in `.kd`, in order. |
| LoadedCodeObject.GetDeviceFunctionSymbols | Luthier/src/lib/hsa/LoadedCodeObject.cpp:226-262 | Each function without a descriptor of its name exactly once, in any order of the table. |
| LoadedCodeObject.GetExternalSymbols | Luthier/src/lib/hsa/LoadedCodeObject.cpp:264-291 | The exact condition for success, and the external symbols in order. |
| LoadedCodeObject.GetLoadedCodeObjectSymbols | Luthier/src/lib/hsa/LoadedCodeObject.cpp:293-301 | Succeeds if and only if the enumerations do, and then appends exactly the listed symbols. |
| NameLookup.HashSectionCovers | Luthier/src/lib/common/ObjectUtils.cpp:113-178 | What either hash form answers is what the lookup by name needs of it: a symbol of the name, or none only when no symbol of a kind that matters has it. |
| LoadedCodeObject.NamesAgree | Luthier/src/lib/hsa/LoadedCodeObject.cpp:134-362 | For an object with unique names, complete hash section, successful enumerations and metadata that name every descriptor: at every name, lookup by name gives exactly the listed symbol with that name, if and only if `.kd` names separate descriptors from all else. |
| LoadedCodeObject.ListedDisjoint | Luthier/src/lib/hsa/LoadedCodeObject.cpp:134-291 | Then no two listed symbols share a name. |
| LoadedCodeObject.NotSeparable | Luthier/src/lib/hsa/LoadedCodeObject.cpp:316-352 | Each way in which `.kd` names fail to separate gives a name at which lookup and enumeration differ. |
| LoadedCodeObject.AgreesAtKernelFunction | Luthier/src/lib/hsa/LoadedCodeObject.cpp:333-345 | The name of a kernel function leads to its kernel. |
| LoadedCodeObject.AgreesAtPlainFunction | Luthier/src/lib/hsa/LoadedCodeObject.cpp:333-349 | The name of any other function leads to a device function. |
| LoadedCodeObject.AgreesAtDescriptor | Luthier/src/lib/hsa/LoadedCodeObject.cpp:316-332 | The name of a descriptor leads to its kernel. |
| Cloning.RecreatedIffCreatable | Luthier/src/lib/llvm/Cloning.cpp:81-114 | What the creation calls make of an object is the object itself if and only if it is one these calls can make. |
| Cloning.RecreatedAttrs | Luthier/src/lib/llvm/Cloning.cpp:73-114 | What each attribute of a frame object becomes, fixed or not, of a size or of a variable one. |
| Cloning.CopyObjectProperties | Luthier/src/lib/llvm/Cloning.cpp:72-79 | Sets four attributes of one object and no others. |
| Cloning.CopyOrdinaryObjects | Luthier/src/lib/llvm/Cloning.cpp:81-101 | Counting upward gives every ordinary object its own index. |
| Cloning.CopyFixedObjects | Luthier/src/lib/llvm/Cloning.cpp:103-114 | Counting down from -1 with insertion in front gives every fixed object its own index and shifts no other. |
| Cloning.CloneFrameInfo | Luthier/src/lib/llvm/Cloning.cpp:34-131 | Every index, for any number of fixed and ordinary objects, has the recreated object of that index; save and restore points are mapped. |
| Cloning.CloneOperand | Luthier/src/lib/llvm/Cloning.cpp:327-353 | The image of an operand: blocks through the block map, globals through the value map, masks by content, shared ones as they are; fails exactly on an unmapped global. |
| Cloning.CloneMemOperands | Luthier/src/lib/llvm/Cloning.cpp:133-191 | All memory operands in order; fails exactly on a target-defined pseudo source. |
| Cloning.FillInstr | Luthier/src/lib/llvm/Cloning.cpp:323-361 | The instruction becomes the image of its source, and is recorded only if it has an operand. |
| Cloning.CloneBlockInstrs | Luthier/src/lib/llvm/Cloning.cpp:317-363 | A block gets the images of its instructions in order, new and distinct, and the map is extended for exactly those. |
| Cloning.CloneAttrs | Luthier/src/lib/llvm/Cloning.cpp:224-252 | All block attributes are copied. |
| Cloning.CloneBlocks | Luthier/src/lib/llvm/Cloning.cpp:217-253 | New blocks one for one, in order, with the attributes of their sources. |
| Cloning.CloneVirtRegs | Luthier/src/lib/llvm/Cloning.cpp:264-282 | Virtual registers keep number, name, class, type and hints; the type of a hint is lost. |
| Cloning.LinkBlocks | Luthier/src/lib/llvm/Cloning.cpp:288-308 | Block order, successor lists with probabilities, and live-ins correspond. |
| Cloning.CloneAllInstrs | Luthier/src/lib/llvm/Cloning.cpp:317-363 | Succeeds if and only if every instruction can be copied, and then all lists are images of their sources. |
| Cloning.CloneMF | Luthier/src/lib/llvm/Cloning.cpp:193-402 | Succeeds if and only if the function can be cloned; the clone is then the image of the source in blocks, edges, registers, frame and instructions. |
| Cloning.CloneFunction | Luthier/src/lib/llvm/Cloning.cpp:408-425 | The clone is entered for the function its source is mapped to, and nothing else in the module changes. |
| ModuleCloning.CloneMMI | Luthier/src/lib/llvm/Cloning.cpp:404-426 | Succeeds if and only if every function has machine code that can be cloned; on success each has its clone in its place, on failure those before the first that cannot be cloned have, and nothing else in the target changes. Of all functions together, an instruction map that was empty then covers exactly the instructions with an operand, leads to the one at the same place, and is one to one. |
| ModuleCloning.MapExactStep | Luthier/src/lib/llvm/Cloning.cpp:356-358 | Copying one more function keeps the instruction map exact and one to one. |
| ModuleCloning.PartsDecide | Luthier/src/lib/llvm/Cloning.cpp:404-426 | Later copies disturb neither the sources nor earlier clones. |
| ModuleCloning.ModuleRunsAlike | Luthier/src/lib/llvm/Cloning.cpp:404-426 | Where no call entry moves, the frame objects can be created, and there are no jump tables or constants, every function of a cloned module runs in its place, at the address of the original, step for step as the original does. |
| Cloning.RecordedExact | Luthier/src/lib/llvm/Cloning.cpp:356-358 | The instruction map covers exactly the instructions with an operand; entries from before stay. |
| CloneMeaning.VirtRegsKept | Luthier/src/lib/llvm/Cloning.cpp:264-282 | Virtual registers keep number, name, class, type and hints, and lose only the type of the hints. |
| CloneMeaning.PlacesCorrespond | Luthier/src/lib/llvm/Cloning.cpp:217-402 | Blocks stand in the same places with their attributes, live-ins and instructions, and lead to the blocks in the same places with the same probabilities. |
| CloneMeaning.OperandsCorrespond | Luthier/src/lib/llvm/Cloning.cpp:310-363 | Operands name the block in the same place, the same mask, the mapped global at the same offset, and are the same otherwise. |
| CloneMeaning.CloneableExact | Luthier/src/lib/llvm/Cloning.cpp:193-402 | What can be cloned, in terms of globals, memory operands and properties. |
| CloneMeaning.ClonePreservesProgram | Luthier/src/lib/llvm/Cloning.cpp:217-363 | Seen through block places and addresses, the clone has the code of the source, instruction for instruction, if and only if the call entries memory operands name, whose globals are not mapped, are where they were. |
| CloneMeaning.CloneIsSameIff | Luthier/src/lib/llvm/Cloning.cpp:34-402 | Code, frame objects, classes and types of virtual registers, jump tables and constants of the clone are those of the source if and only if such call entries stay, every frame object is one the creation calls can make, and the source has no jump table and no constant. |
| CloneMeaning.CloneRunsAlike | Luthier/src/lib/llvm/Cloning.cpp:193-402 | Under that condition, for every meaning of instructions in their function, its jump tables and constants included, running the clone for any number of steps is running the source. |
| CloneMeaning.InstrMapExact | Luthier/src/lib/llvm/Cloning.cpp:356-358 | Starting empty, the instruction map is one to one, covers exactly the instructions with an operand, and leads to the instruction at the same place. |
| Intercept.WrapperTransparent | Luthier/scripts/hip_intercept_gen.py:101-183 | A wrapper does what it wraps exactly once, whatever is enabled. |
| Intercept.WrapperCallsBack | Luthier/scripts/hip_intercept_gen.py:105-170 | It makes the callbacks of exactly those who enabled the op, in both phases. |
| Intercept.CallbacksOnce | Luthier/scripts/hip_intercept_gen.py:101-183 | Each callback is made once and for the wrapper's own op; of two in the same phase the user's comes first. |
| Intercept.WrapperOrder | Luthier/scripts/hip_intercept_gen.py:143-170 | Callbacks of the first phase come before the call and those of the second after it. |
| Intercept.CallWrapped | Luthier/scripts/hsa_intercept_gen.py:324-390 | The body of a wrapper gives exactly these events. |
| HipEnabling.EnablingExact | Luthier/scripts/hip_intercept_gen.py:327-387 | After any orderly run, enabling an op for the user or internally adds exactly it and puts its wrapper in, if the table is not frozen or the wrapper is there; every error otherwise, with nothing changed. |
| HipEnabling.DisablingExact | Luthier/scripts/hip_intercept_gen.py:348-407 | Disabling removes exactly the op, and takes the wrapper out if the table is not frozen and the op is not enabled internally after it. |
| HipEnabling.FreezingExact | Luthier/src/include/common/ROCmLibraryApiInterceptor.hpp:172-174 | Freezing and a call that meets its wrapper freeze the table, and change nothing else. |
| HipEnabling.EnabledIff | Luthier/scripts/hip_intercept_gen.py:327-407 | After any orderly run an op is enabled exactly when it was enabled once, when it could be, and not disabled since by the same side. |
| HipEnabling.CalledBackIff | Luthier/scripts/hip_intercept_gen.py:101-183 | A call makes the internal callbacks exactly if the op is so enabled, and the user's exactly if it is and its wrapper is still installed. |
| HipInterceptor.RunsAreSafe | Luthier/scripts/hip_intercept_gen.py:327-405 | In every run with one capture before freezing, each table entry is its wrapper or the original, every op enabled internally has its wrapper installed, and the saved table is the captured one. |
| HipInterceptor.FrozenTableStays | Luthier/scripts/hip_intercept_gen.py:340-343 | After freezing the table never changes again, and only ops whose wrapper is installed can be enabled. |
| HipInterceptor.UserInstalledIff | Luthier/scripts/hip_intercept_gen.py:389-405 | Throughout a run the ops enabled by the user have their wrappers, if and only if no call disables one of them internally before freezing. |
| HipInterceptor.UserStripped | Luthier/scripts/hip_intercept_gen.py:399-404 | A run in which that happens: the test after the erasure asks about the set just erased from. |
| HipInterceptor.FrozenUnlessCaptured | Luthier/src/include/common/ROCmLibraryApiInterceptor.hpp:172-174 | A frozen interceptor stays frozen if and only if no table is captured afterwards, since it freezes only once. |
| HipInterceptor.CallsReachTheRuntime | Luthier/scripts/hip_intercept_gen.py:101-183 | After any orderly run a call through the table reaches the captured function exactly once, with the callbacks of the ops enabled and installed. |
| HipInterceptor.HipRuntimeApiInterceptor.CaptureApiTable | Luthier/src/include/hip/HipRuntimeApiInterceptor.hpp:58-63 | The table is remembered and saved. |
| HipInterceptor.HipRuntimeApiInterceptor.FreezeRuntimeApiTable | Luthier/src/include/common/ROCmLibraryApiInterceptor.hpp:172-174 | Freezes the first time, does nothing later. |
| HipInterceptor.HipRuntimeApiInterceptor.EnableUserCallback | Luthier/scripts/hip_intercept_gen.py:327-346 | Takes the state to the one the step function gives, with its three errors. |
| HipInterceptor.HipRuntimeApiInterceptor.DisableUserCallback | Luthier/scripts/hip_intercept_gen.py:348-366 | The same for this call. |
| HipInterceptor.HipRuntimeApiInterceptor.EnableInternalCallback | Luthier/scripts/hip_intercept_gen.py:368-387 | The same for this call. |
| HipInterceptor.HipRuntimeApiInterceptor.DisableInternalCallback | Luthier/scripts/hip_intercept_gen.py:389-406 | The same for this call. |
| HipInterceptor.HipRuntimeApiInterceptor.InvokeThroughTable | Luthier/scripts/hip_intercept_gen.py:101-183 | The application's call gives the events stated, and freezes if it meets the wrapper. |
| HipInterceptor.HipRuntimeApiInterceptor.Destroy | Luthier/src/include/hip/HipRuntimeApiInterceptor.hpp:43-48 | After any orderly run, destruction leaves the runtime's table as it was captured. |
| HsaEnabling.EnablingExact | Luthier/scripts/hsa_intercept_gen.py:487-544 | After any orderly run, enabling adds exactly the op and returns no error if and only if the table is captured, the op in range, and the table not frozen, or the op the packet submission, or the wrapper installed; otherwise the error, and nothing changed. |
| HsaEnabling.DisablingExact | Luthier/scripts/hsa_intercept_gen.py:508-560 | Disabling removes exactly the op, and takes the wrapper out unless the user still has the function enabled. |
| HsaEnabling.CapturingExact | Luthier/src/include/hsa/HsaRuntimeInterceptor.hpp:84-97 | Capturing takes the table over with queue creation intercepted, or leaves it with the error of the loader query. |
| HsaEnabling.FreezingExact | Luthier/src/include/common/ROCmLibraryApiInterceptor.hpp:172-174 | Freezing, a submission and a call that meets its wrapper freeze the table, and change nothing else. |
| HsaEnabling.EnabledIff | Luthier/scripts/hsa_intercept_gen.py:487-560 | After any orderly run an op is enabled exactly when it was enabled once, when it could be, and not disabled since by the same side. |
| HsaEnabling.CalledBackIff | Luthier/scripts/hsa_intercept_gen.py:327-365 | So a call makes the user's callbacks exactly if the op is so enabled and not muted, and the internal ones if it is so enabled and has its wrapper. |
| HsaEnabling.SubmissionCallsBackIff | Luthier/scripts/hsa_intercept_gen.py:244-273 | A packet submission calls back exactly those who enabled it. |
| HsaInterceptor.RunsAreSafe | Luthier/scripts/hsa_intercept_gen.py:487-559 | In every run with one successful capture before freezing, functions enabled by the user have their wrappers, and no entry for `hsa_queue_create` is the raw function. |
| HsaInterceptor.InternalInstalledIff | Luthier/scripts/hsa_intercept_gen.py:508-522 | Functions enabled internally have their wrappers throughout a run, if and only if the user disables none of them. |
| HsaInterceptor.InternalStripped | Luthier/scripts/hsa_intercept_gen.py:518-521 | A run in which the user takes away the wrapper of a function enabled internally, although the table is frozen. |
| HsaInterceptor.FrozenTableChanges | Luthier/scripts/hsa_intercept_gen.py:518-521 | A call changes a frozen table if and only if it disables a function whose wrapper is installed and is not the internal disabling of one the user has enabled. |
| HsaInterceptor.QueuesAreIntercepted | Luthier/scripts/hsa_intercept_gen.py:276-294 | Whatever was called since the capture, creating a queue creates and registers an intercept queue, and every other function is called once as captured. |
| HsaInterceptor.UserIsCalledBack | Luthier/scripts/hsa_intercept_gen.py:327-365 | The user is called back exactly for enabled functions on threads that are not muted. |
| HsaInterceptor.SubmittedOnce | Luthier/scripts/hsa_intercept_gen.py:253-273 | A submission reaches the writer exactly once, with the packets as the enabled callbacks left them, the user's first. |
| HsaInterceptor.HsaRuntimeInterceptor.CaptureApiTable | Luthier/src/include/hsa/HsaRuntimeInterceptor.hpp:84-97 | Saves the table; without the loader table the status stays as it was, otherwise the queue interception is put in. |
| HsaInterceptor.HsaRuntimeInterceptor.FreezeRuntimeApiTable | Luthier/src/include/common/ROCmLibraryApiInterceptor.hpp:172-174 | Freezes the first time, does nothing later. |
| HsaInterceptor.HsaRuntimeInterceptor.EnableUserCallback | Luthier/scripts/hsa_intercept_gen.py:487-506 | Takes the state to the one the step function gives, the packet submission without any table entry. |
| HsaInterceptor.HsaRuntimeInterceptor.DisableUserCallback | Luthier/scripts/hsa_intercept_gen.py:508-522 | The same for this call. |
| HsaInterceptor.HsaRuntimeInterceptor.EnableInternalCallback | Luthier/scripts/hsa_intercept_gen.py:524-543 | The same for this call. |
| HsaInterceptor.HsaRuntimeInterceptor.DisableInternalCallback | Luthier/scripts/hsa_intercept_gen.py:545-559 | The same for this call. |
| HsaInterceptor.HsaRuntimeInterceptor.InvokeThroughTable | Luthier/scripts/hsa_intercept_gen.py:316-396 | The application's call gives the events stated, and freezes if it meets the wrapper. |
| HsaInterceptor.HsaRuntimeInterceptor.QueueSubmitWriteInterceptor | Luthier/scripts/hsa_intercept_gen.py:223-274 | Freezes the table and gives the events of a submission. |
| HsaInterceptor.HsaRuntimeInterceptor.UninstallApiTables | Luthier/src/include/hsa/HsaRuntimeInterceptor.hpp:45-56 | After any orderly run the tables are as captured. |
| ApiTables.GenerateTableIds | Luthier/scripts/hip_intercept_gen.py:211-226 | Consecutive ids for the functions of a table from its FIRST, up to its LAST. |
| ApiTables.GenerateIds | Luthier/scripts/hip_intercept_gen.py:207-227 | The ranges of all tables follow one another. |
| ApiTables.GenerateMap | Luthier/scripts/hip_intercept_gen.py:284-320 | The switch map and the check map list the same fields in order. |
| ApiTables.AlignedIff | Luthier/scripts/hip_intercept_gen.py:207-227 | Every id, less FIRST, indexes the maps at its own function, if and only if no function comes after a field named `size` whose type is not `size_t`. |
| ApiTables.StraysLastExact | Luthier/scripts/hip_intercept_gen.py:207-310 | That condition in the names and types of fields. |
| ApiTables.MapExtendsIds | Luthier/scripts/hip_intercept_gen.py:284-320 | Then a map has the functions with ids first. |
| ApiTables.RangesDisjoint | Luthier/scripts/hip_intercept_gen.py:207-227 | The ranges of different tables do not overlap. |
| ApiTables.HsaPlacesExact | Luthier/scripts/hsa_intercept_gen.py:115-131 | Every function of every table has exactly one number, in the order of tables and fields. |
| ApiTables.GenerateHsaIds | Luthier/scripts/hsa_intercept_gen.py:115-138 | The numbers run through all tables; the packet submission and LAST come next. |
| ApiTables.GenerateHsaMap | Luthier/scripts/hsa_intercept_gen.py:455-483 | The maps list the functions in the same order. |
| ApiTables.GenerateHsaAligned | Luthier/scripts/hsa_intercept_gen.py:115-138 | For any tables, an id in range other than the packet submission indexes the maps at its own function; the packet submission would be outside them. |
| Opcodeprof.OpcodeprofHistogram.Add | GTPin/OpcodeprofFiles/utils/opcodeprof_utils.cpp:38-47 | Adds to one value, wrapping at 64 bits, and to the total as much; a zero adds no entry. |
| Opcodeprof.OpcodeprofHistogram.AddAll | GTPin/OpcodeprofFiles/utils/opcodeprof_utils.cpp:28-36 | `+=` is addition of all values and of totals. |
| Opcodeprof.OpcodeprofHistogram.Total | GTPin/OpcodeprofFiles/utils/opcodeprof_utils.cpp:49-52 | The sum over all entries, wrapped at 64 bits, in any order of entries. |
| Opcodeprof.SumUpdate | GTPin/OpcodeprofFiles/utils/opcodeprof_utils.cpp:38-52 | Replacing one value changes the sum by the difference. |
| Opcodeprof.OpcodeprofKernelProfile.constructor | GTPin/OpcodeprofFiles/utils/opcodeprof_utils.cpp:132-145 | Counters start at zero, one to a block. |
| Opcodeprof.OpcodeprofKernelProfile.Accumulate | GTPin/OpcodeprofFiles/utils/opcodeprof_utils.cpp:172-176 | Adds to the counter of one block. |
| Opcodeprof.OpcodeprofKernelProfile.AddDynamicCountersTo | GTPin/OpcodeprofFiles/utils/opcodeprof_utils.cpp:178-200 | Every value rises by the counts of its instructions, and the instruction count returned is the rise of the total. |
| Opcodeprof.OpcodeprofKernelProfile.AddStaticCountersTo | GTPin/OpcodeprofFiles/utils/opcodeprof_utils.cpp:202-214 | The same with every instruction counted once. |
| OpcodeFacts.WrapExact | GTPin/OpcodeprofFiles/utils/opcodeprof_utils.cpp:172-176 | Counters wrap at 32 and at 64 bits, and nowhere else. |
| OpcodeFacts.WeightsExact | GTPin/OpcodeprofFiles/hlif_opcodeprof.cpp:88-118 | A block's weight: its instructions, those in range for the ranged form, or one for the block. |
| OpcodeFacts.CountsExact | GTPin/OpcodeprofFiles/utils/opcodeprof_utils.cpp:178-200 | Each instruction of a block counts once, with the frequency, at its own key. |
| OpcodeFacts.BucketSumStep | GTPin/OpcodeprofFiles/opcodeprof.cpp:159-173 | A bucket's counter is added if it can be read, and nothing is if not. |
| OpcodeFacts.MergedExactIff | GTPin/OpcodeprofFiles/utils/opcodeprof_utils.cpp:219-247 | Leaving out kernels with a total of 0 leaves no count out exactly when no kernel's total wraps to 0. |
| OpcodeCounting.OnKernelBuild | GTPin/OpcodeprofFiles/opcodeprof.cpp:56-88 | Running through a block adds its weight to its own record and nothing to others: its size when instructions are counted, else one. |
| OpcodeCounting.OnKernelBuildHli | GTPin/OpcodeprofFiles/hlif_opcodeprof.cpp:88-118 | The same for the direct increments, for what is in the ranges of ids. |
| OpcodeCounting.SameWeights | GTPin/OpcodeprofFiles/hlif_opcodeprof.cpp:88-118 | With full ranges both tools give blocks the same weights. |
| OpcodeCounting.CounterCounts | GTPin/OpcodeprofFiles/opcodeprof.cpp:56-88 | A 32-bit counter holds the weight for every run of its block by its bucket, wrapped. |
| OpcodeCounting.CompleteRecord | GTPin/OpcodeprofFiles/opcodeprof.cpp:159-173 | All readable buckets of a record are added to its block. |
| OpcodeCounting.OnKernelComplete | GTPin/OpcodeprofFiles/opcodeprof.cpp:135-175 | Every block gets the sum over its buckets; nothing without profiling. |
| OpcodeCounting.CompleteRun | GTPin/OpcodeprofFiles/opcodeprof.cpp:135-175 | Over all dispatches the profile holds the sum of all counters, wrapped at 64 bits. |
| OpcodeCounting.BucketsPartition | GTPin/OpcodeprofFiles/opcodeprof.cpp:50-54 | Every run through a block is counted in exactly one bucket. |
| OpcodeCounting.RunSumExactIff | GTPin/OpcodeprofFiles/opcodeprof.cpp:56-88 | The counters of a block add up to weight times runs, if and only if no 32-bit counter wraps in any dispatch. |
| OpcodeCounting.BucketedExactIff | GTPin/OpcodeprofFiles/opcodeprof.cpp:159-173 | The profile is exact if and only if no 32-bit counter of the form in use and no 64-bit counter of the profile wraps. |
| OpcodeCounting.SharedRunCounts | GTPin/OpcodeprofFiles/hlif_opcodeprof.cpp:88-118 | A counter the device adds to directly holds weight times runs, wrapped at 64 bits. |
| OpcodeCounting.DivisionExact | GTPin/OpcodeprofFiles/utils/opcodeprof_utils.cpp:189-193 | Dividing by the size of the block gives back the number of runs. |
| OpcodeCounting.CountsExecutedIff | GTPin/OpcodeprofFiles/utils/opcodeprof_utils.cpp:178-200 | Counters that are nowhere too high give the executed instructions in total if and only if each is exact. |
| OpcodeCounting.RunExecuted | GTPin/OpcodeprofFiles/utils/opcodeprof_utils.cpp:178-200 | Counts of block runs, by key or in total, are the executed instructions counted one by one. |
| OpcodeCounting.FormsAgree | GTPin/OpcodeprofFiles/utils/opcodeprof_utils.cpp:178-200 | Bucketed counters count what was executed, per block or per instruction, if and only if no counter of that form wraps, and direct counters if and only if none reaches 64 bits; then they do so for each key too. |
| OpcodeCounting.DumpProfile | GTPin/OpcodeprofFiles/utils/opcodeprof_utils.cpp:219-247 | Over any kernels the grand instruction count is the total of the merged histogram, whose values are the sums of the kernels' counts. |
| RegLowering.Lowering.ReadRegMIRProcessor | Luthier/src/lib/intrinsic/ReadReg.cpp:65-123 | Its errors, the instructions it emits for every width, and the register it makes. |
| RegLowering.Lowering.WriteRegMIRProcessor | Luthier/src/lib/intrinsic/WriteReg.cpp:68-132 | Its errors, the instructions it emits, the registers it makes, and the registers to be overwritten, where an entry from before stays. |
| RegLowering.ReadMeaning | Luthier/src/lib/intrinsic/ReadReg.cpp:92-120 | Running those instructions puts the halves of the register into the output in order. |
| RegLowering.WriteMeaning | Luthier/src/lib/intrinsic/WriteReg.cpp:104-130 | After the write each 16-bit half of any cell is the one written at its place, or what it was. |
| RegLowering.ReadAfterWrite | Luthier/src/lib/intrinsic/WriteReg.cpp:104-130 | Reading any register after a write gives the matching slice of what was written, and what was there before elsewhere. |
| RegLowering.RoundTrip | Luthier/src/lib/intrinsic/WriteReg.cpp:104-130 | Reading the register written gives the value written, for any width of 32n bits and for halves. |
| RegLowering.RoundTripIff | Luthier/src/lib/intrinsic/WriteReg.cpp:104-130 | With entries in the map before, it does so if and only if those entries hold the value already. |
| RegBlocks.ReadStep | Luthier/src/lib/tooling_common/IntrinsicMIRLoweringPass.cpp:165-222 | A lowered read puts the register's present value into its output and leaves every cell held where it was. |
| RegBlocks.WriteStep | Luthier/src/lib/tooling_common/IntrinsicMIRLoweringPass.cpp:165-222 | A lowered write and the update of the map of overwritten registers leave every cell held, the written halves with the new value. |
| RegBlocks.OtherStep | Luthier/src/lib/tooling_common/IntrinsicMIRLoweringPass.cpp:165-222 | Code between the intrinsics does on virtual registers what it did, and disturbs no cell. |
| RegBlocks.LoweredBlockRuns | Luthier/src/lib/tooling_common/IntrinsicMIRLoweringPass.cpp:165-222 | Any block of reads, writes and other code: the lowered code does on virtual registers what the block does on physical ones, each cell being held where the threaded map says. |
| RegBlocks.ReadsSeeLastWrites | Luthier/src/lib/tooling_common/IntrinsicMIRLoweringPass.cpp:165-222 | Every read of such a block returns, half by half, what the last write covering that half wrote, whatever stood between, or what the half was when the block began. |
| RegUses.BlockRun | Luthier/src/lib/tooling_common/IntrinsicMIRLoweringPass.cpp:214-222 | What a block of reads, a write and reads leaves in every register when its uses name any of the old and new holders of the cells. |
| RegUses.UsesOkIsRight | Luthier/src/lib/tooling_common/IntrinsicMIRLoweringPass.cpp:214-222 | If each use names a register that has the half it is for at that point, reads before the write return the old value, reads after it the new one, and all later code finds both. |
| RegUses.RedirectionRightIff | Luthier/src/lib/tooling_common/IntrinsicMIRLoweringPass.cpp:214-222 | Whichever uses were redirected, to whichever holder, shared ones included: the block is right for all values if and only if each use names a register that has the half it is for at that point. |
| RegWalks.WalkRightIff | Luthier/src/lib/tooling_common/IntrinsicMIRLoweringPass.cpp:214-222 | For any set of uses the loop reaches, every cell having a holder of its own: the block is right for all values if and only if it reaches no use in a read before the write, not the one in the write of a half, and every later use of a half that was replaced. |
| RegWalks.EveryUseReachedIff | Luthier/src/lib/tooling_common/IntrinsicMIRLoweringPass.cpp:214-222 | Where the loop reaches every use, and every cell has a holder of its own, the block is right for all values if and only if no half is written and nothing before the write reads a cell that is given another register. |
| RegUseInputs.EarlierReadRedirected | Luthier/src/lib/tooling_common/IntrinsicMIRLoweringPass.cpp:214-222 | A read followed by a write of the same register: once redirected, the read returns what is written after it. |
| RegUseInputs.OwnUseRedirected | Luthier/src/lib/tooling_common/IntrinsicMIRLoweringPass.cpp:214-222 | A write of a low half: once its own use is redirected, the high half is lost. |
| RegUseInputs.LaterUseForgotten | Luthier/src/lib/tooling_common/IntrinsicMIRLoweringPass.cpp:214-222 | A use after the write that the loop does not reach goes on reading the old value. |
| RegUseInputs.SharedHolderRedirected | Luthier/src/lib/tooling_common/IntrinsicMIRLoweringPass.cpp:214-222 | Two registers held by one virtual register, one of them written: once redirected, a read of the other returns what was written. |
| RegLowering.AssembledChannels | Luthier/src/lib/intrinsic/ReadReg.cpp:92-109 | The channels of the merged register are the sources, each at its own index. |
| RegLowering.CopiedChannel | Luthier/src/lib/intrinsic/WriteReg.cpp:104-117 | The copies of a wide write split the input into its channels. |
| Disassembly.Disassemble | Luthier/src/lib/common/Lift.cpp:12-39 | The windowed reads give the instructions and offsets of decoding the whole rest of the buffer each time, up to the first failure, whose offset is the error. |
| Disassembly.WindowEnough | Luthier/src/lib/common/Lift.cpp:22-29 | The window decodes like the rest of the buffer. |
| Disassembly.Tiles | Luthier/src/lib/common/Lift.cpp:21-37 | On success the first offset is the start, each next one is the last plus its size, and the last ends the buffer. |
| Disassembly.DecodesConcatenation | Luthier/src/lib/common/Lift.cpp:21-37 | Decoding encodings one after the other gives the instructions back, at the places where their encodings begin. |

## Left out

- VectorBuild.GetVectorCFG: the parts of a basic block and their edges are found on values, and the block objects made and linked from them; names and parents of blocks are not modelled, nor is a function that has an edge to a block of another one.
- Lane masks: every mask the analysis stores is the full one.
- The target's register description: `Registers.RegInfo` is any description in which parts of parts are parts and what overlaps a part overlaps the whole.
- Bytes of the object file: hash sections, symbols and strings are given as values, and sums of section sizes do not wrap at 64 bits.
- ElfHash.GetSymbolFromSysVHashTable: requires ranks that fall along the links followed, which the code does not ensure; without them the walk does not end and there is no answer to describe.
- ElfHash.HashLookup: requires of a section that passes the checks that its arrays are there and long enough for the linked symbols; what is read past a section is not described.
- SymbolKinds.CategorizeSymbols: requires that the outputs given are different vectors.
- Metadata parsing and the queries of executables: the note metadata is a list of descriptor names or absent.
- Cloning.CloneFrameInfo: the scalar fields of the frame information and the local frame-object map, and of a function the debug variables and properties, all copied by single assignments.
- Cloning.CloneMemOperands: memory operands are values, so that they are new objects in the clone is not stated; the program values they point at are opaque.
- Cloning.CloneFunction: requires that the target module has no machine function in the place yet, and ModuleCloning.CloneMMI that no two functions are mapped to one, as the insertion of the code generator does.
- ModuleCloning.CloneMMI: of the instruction map nothing is said when it held entries before, or when a function cannot be cloned.
- Locks, thread-local storage and once-flags: every call of an interceptor is one atomic step, and a muted thread is a parameter.
- The four HSA sub-tables are one table in the order of the ops, and are never null.
- Argument packing in the wrappers, and triggering HIP from the first packet submission.
- The text of the generated code, the check that all types parse, and clashes of generated names.
- OpcodeCounting.OnKernelBuild: blocks have the ids 0 to n-1, and nothing is left out by the ranges of the helper functions, which are not part of this model.
- OpcodeCounting.FormsAgree: blocks are run through as a whole.
- Timers, reports, percentages and assembly listings of the profiler.
- RegUses.RedirectionRightIff: the uses are those of one block with one write, in the lowered reads around it and in the write; how the list of uses changes while the loop walks over it is not modelled, so what it reaches is a parameter.
- RegBlocks.ReadsSeeLastWrites: uses are as lowered, none redirected; it requires that a virtual register is defined once, and that none which holds a cell or was written is defined again.
- Register classes and constraints of the intrinsics, and how `PhysicalRegAccessVirtualizationPass.cpp` chooses the registers that hold cells.
- Disassembly.Disassemble: requires that an instruction has at least one byte and does not depend on bytes past the longest instruction, as the decoder's interface promises.
- Error classes, handle wrappers, ISA names, kernel descriptor fields, packet layouts and table emitters: forwarding and single fields.
