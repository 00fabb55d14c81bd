# The analyses, the corpus and the codecs, proved

A Dafny model of the parts of this repository that carry state, loops and
arithmetic, with proofs of what they are for. Three groups:

**The condition extractor's graph and path analyses.** Strongly connected
components of the call graph by an iterative search; dominators and
post-dominators of inter-procedural basic blocks, where a return edge has two
heads; the transitive reduction of dominance by longest paths; the search for
definitions shared by parameters and stored values; access types, their
composition across calls, the set that collects them, and the worklist that
summarises a parameter; the strings by which types are told apart.

**The fuzzer's corpus.** `InputCorpus` with its feature tables, rare features,
local and global frequencies, weights, and whole histories of executions,
mutations and updates of the distribution; and the crossover of two inputs.

**Codecs.** The JSON reader and compact writer, with strings, UTF-8 and integers;
the streaming MD5.

The files follow the program. `Paths`, `Tarjan`, `LargestComponent`: components.
`Dominance`, `IBBG`, `NodeDominance`, `Dominators`, `NodeUnavoidability`,
`TransitiveReduction`, `DominanceTree`: dominance. `RootSearch`, `AccessTypes`,
`AccessTypeSets`, `AccessTypeObjects`, `Summaries`, `SummaryCalls`, `SummaryOrigins`,
`SummaryRuns`, `TypeStrings`, `TypeEquivalence`, `TypeMatcher`: access types and types.
`FeatureFreqs`, `CorpusModel`, `RareFeatures`, `CorpusRuns`, `CorpusHistory`,
`FrequencyHistory`, `FuzzerCorpus`, `FuzzerLoop`, `CrossOver`: the fuzzer.
`JsonNumbers`, `Utf8`, `JsonStrings`, `JsonText`, `JsonRoundTrip`, `JsonGrammar`,
`JsonReader`, `JsonWriter`, `JsonCodec`, `MD5`: codecs. `Bytes`, `Sequences` and `Wrappers` hold
small things.

Code that changes state is written as methods and classes, each proved against a
function of the old state or against what it computes; the laws are lemmas about
these functions.

Where the code does not do what one would expect, the model keeps the code, and a
lemma says exactly when it does. In brackets the lemma that shows an input where it
does not:

* `dominates` on ICFG nodes is antisymmetric exactly when at most one block is
  underivable, and transitive exactly when no underivable block with two nodes has
  an underivable neighbour (`WhenAntisymmetric`, `WhenTransitive`; on a cycle off the
  entry, `CycleBreaksTheOrder`). Strict dominance is a strict order under the first of
  these conditions (`WhenStrictOrder`); the edges that the transitive reduction adds
  into derivable blocks are right without it.
* Composition of access types is associative, definedness included, except for the
  kind and the type of the recorded parent; these agree exactly when `SameParent`
  holds (`GroupingsDiffer`).
* The nodes of an entry of an `AccessTypeSet` do not depend on the order of
  insertions exactly when the access types inserted with its key all lead to the
  same nodes (`NodesCommuteIff`): the first one brings its own nodes along, the
  later ones do not (`FirstNodesWin`).
* Quoting in the default mode is undone exactly for well-formed UTF-8
  (`JsonStrings.RoundTrip`; `StrayByte`).
* Reading a written value fails exactly when it nests deeper than the limit
  (`ParseWritten`; `NestedTooDeep`).
* An object may end in a comma exactly behind a member with an empty name
  (`TrailingComma`; `CommaBehindEmptyName`).
* Of the number tokens read as integers, exactly the lone minus and those with a
  needless zero in front are no numbers of section 6 of RFC 8259 (`LenientIntegers`;
  `LoneMinus`).
* Types get equal strings exactly when they are alike, a relation spelt out on the
  types themselves, as long as no record name has a closing bracket
  (`SameStringIsAlike`; `BracketsCollide`).
* A comment in `AddRareFeature` says that the count noted after an eviction is that of
  the next most abundant rare feature. It is exactly when the feature dropped was not
  the first in the vector and every one behind it is matched by one in front of it
  (`NotesTheNextIff`; `NotesAnother`). Too low a note makes the fuzzer skip rare
  features; nothing is skipped before 65535 occurrences as long as no more features
  showed than may stay rare, and one (`FewAreCountedFully`).
* Another one says that features below the threshold stay rare. A round of eviction
  drops a feature above the threshold exactly when there is one, which the loop does not
  look at (`DropsAboveThresholdIff`; `DropsBelowThreshold`).
* An input drawn uniformly may have been evicted: exactly when the run that added it
  was the first best run for some feature when it came and no longer is for any
  (`EvictedIff`, over all inputs `SomeEvictedIff`; `SmallerRunEvicts`). Without
  shrinking this never happens (`NoneEvictedUnlessShrinking`).

## Model

| member | source | states |
|---|---|---|
| `LargestComponent.LargestComponent` | condition_extractor/src/AccessTracker.h:253-345 | the result is the size of a largest strongly connected component of the kept call graph, `members` are exactly the ids of one such component, `cyclic` counts the components with two nodes or more; an empty graph leaves `members` alone |
| `Tarjan.SearchComponents` | condition_extractor/src/AccessTracker.h:282-343 | every component is popped once and whole: the popped sets are the classes of mutual reachability, pairwise disjoint, and cover all vertices |
| `Tarjan.SegmentIsComponent` | condition_extractor/src/AccessTracker.h:322-330 | when a vertex is closed with low equal to its number, what lies above it on the component stack is exactly its component |
| `Tarjan.PopKeeps` | condition_extractor/src/AccessTracker.h:322-330 | popping a component keeps the whole search invariant |
| `Tarjan.AdvanceKeeps` | condition_extractor/src/AccessTracker.h:303-315 | following one more edge keeps the bounds on the low links |
| `Tarjan.PopDownTo` | condition_extractor/src/AccessTracker.h:323-330 | pops exactly the vertices down to the closed one and unmarks these and no others |
| `LargestComponent.ComponentRenames` | condition_extractor/src/AccessTracker.h:257-265 | components of indices are components of ids: dense renumbering changes nothing |
| `LargestComponent.BuildAdjacency` | condition_extractor/src/AccessTracker.h:257-281 | the adjacency holds exactly the kept edges between listed nodes |
| `Dominance.DominanceIsUnavoidability` | condition_extractor/src/Dominators.cpp:26-185 | in the greatest solution a block is in the set of another iff no derivation from the roots avoids it, return edges with both heads included |
| `Dominance.DominanceIsAllWalks` | condition_extractor/src/Dominators.cpp:26-185 | without return edges this is: every walk from a root meets the block |
| `Dominance.GreatestIsUnique` | condition_extractor/src/Dominators.cpp:26-185 | the greatest solution is one, so the order of visits does not matter |
| `Dominance.DominanceIsTransitive` | condition_extractor/src/Dominators.cpp:188-221 | dominance of blocks is transitive on every graph |
| `Dominance.MutualDominance` | condition_extractor/src/Dominators.cpp:188-221 | two blocks dominate each other iff neither is derivable |
| `Dominators.Dominator.BuildDom` | condition_extractor/src/Dominators.cpp:26-185 | terminates for every order of visits with the greatest solution of the dominator equations, read off the edges: a block is dominated by itself and by what reaches it along every in-edge, from the source or, for a return, from where the call came |
| `Dominators.DominatorsSolveEdges` | condition_extractor/src/Dominators.cpp:12-21 | the equations solved are those of the edges, the second head of a return included |
| `Dominators.GreatestOfEdges` | condition_extractor/src/Dominators.cpp:26-185 | the greatest solution solves the equations of the edges and is above every other solution of them |
| `Dominators.Dominator.Round` | condition_extractor/src/Dominators.cpp:85-183 | a round keeps the sets above every solution and never below their equations, and a round that changes anything shrinks them |
| `Dominators.UpdateKeeps` | condition_extractor/src/Dominators.cpp:172-178 | overwriting one set in place with its right-hand side keeps the approximation and shrinks the sets if it changes one |
| `Dominators.MeetOverEdges` | condition_extractor/src/Dominators.cpp:111-161 | the intersection over the in-edges of the union over their heads |
| `Dominators.PostDominanceIsDual` | condition_extractor/src/PostDominators.cpp:3-28 | the equations of post-dominance are those of dominance from the exit on the reversed graph, calls and returns exchanged |
| `Dominators.PostDominator.BuildDom` | condition_extractor/src/PostDominators.cpp:30-186 | terminates with the greatest solution of the equations over the out-edges, for a call from the target or from where it returns to, which solves dominance on the reversed graph |
| `Dominators.PostDominatorsSolveEdges` | condition_extractor/src/PostDominators.cpp:17-27 | the equations solved are those of the out-edges, the second head of a call included |
| `Dominators.Dominator.CreateDom` | condition_extractor/src/GenericDominatorTy.cpp:10-31 | the analysis is done once; a second call changes nothing |
| `Dominators.Dominator.Dominates` | condition_extractor/src/Dominators.cpp:188-221 | the answer is node dominance: order inside a block, sets across blocks; for a node that can be reached it is yes iff the node cannot be reached without the other; no answer before the analysis was done |
| `Dominators.PostDominator.Dominates` | condition_extractor/src/PostDominators.cpp:188-227 | the answer is node dominance on the blocks listed backwards; for a node from which the exit can be reached it is yes iff the exit cannot be reached without the other |
| `NodeUnavoidability.DominatesIsUnavoidability` | condition_extractor/src/Dominators.cpp:188-221 | a node dominates another iff the other cannot be reached without it, except in a block that cannot be reached at all, where the later node does not dominate the earlier |
| `NodeDominance.DominatesIsPartialOrder` | condition_extractor/src/Dominators.cpp:188-221 | on nodes of derivable blocks `dominates` is reflexive, antisymmetric and transitive |
| `NodeDominance.WhenAntisymmetric` | condition_extractor/src/Dominators.cpp:188-221 | antisymmetric everywhere iff at most one block is underivable |
| `NodeDominance.WhenTransitive` | condition_extractor/src/Dominators.cpp:188-221 | transitive everywhere iff no underivable block with two nodes has another underivable block beside it |
| `NodeDominance.CycleBreaksTheOrder` | condition_extractor/src/Dominators.cpp:188-221 | with a cycle of two blocks off the entry, one of two nodes, `dominates` is neither antisymmetric nor transitive |
| `Dominators.PostDominatesIsPartialOrder` | condition_extractor/src/PostDominators.cpp:188-227 | on nodes of blocks derivable from the exit post-dominance is a partial order, and antisymmetric everywhere iff at most one block is not |
| `NodeDominance.MetFirst` | condition_extractor/src/Dominators.cpp:203-212 | the scan of the block list answers which node comes first |
| `NodeDominance.AfterIsBefore` | condition_extractor/src/PostDominators.cpp:205-216 | the scan from the back is the scan of the reversed list |
| `IBBG.IBBGraph.AddIBBNode` | condition_extractor/src/IBBG.cpp:3-26 | a new block takes all its nodes and no node that has a block; otherwise nothing changes |
| `IBBG.IBBGraph.GetIBBNode` | condition_extractor/src/IBBG.cpp:28-40 | the block of a node is the only block that lists it |
| `TransitiveReduction.GetLongestPath` | condition_extractor/src/GenericDominatorTy.cpp:913-956 | the length of a longest walk to every vertex that no cycle leads to, on an acyclic relation all of them, or -1 when there is none or an end is out of range; to other vertices the length of some walk |
| `TransitiveReduction.TopoSort` | condition_extractor/src/GenericDominatorTy.cpp:897-911 | every vertex reached is pushed once, after its successors where no cycle leads to them |
| `TransitiveReduction.LongestOneCovers` | condition_extractor/src/GenericDominatorTy.cpp:781-895 | where the relation is a strict order, a longest walk of length one marks exactly a covering pair |
| `TransitiveReduction.ClosureIsOrder` | condition_extractor/src/GenericDominatorTy.cpp:781-895 | the transitive closure of the covering pairs is the order |
| `TransitiveReduction.NoEdgeToSpare` | condition_extractor/src/GenericDominatorTy.cpp:781-895 | no covering pair can be left out, whatever else of the order is kept |
| `DominanceTree.BuildTransientReduction` | condition_extractor/src/GenericDominatorTy.cpp:781-895 | only pairs of strict dominance are added, and of those into a derivable block, or into any block if at most one is underivable, exactly the covering ones |
| `DominanceTree.BuildPostReduction` | condition_extractor/src/GenericDominatorTy.cpp:781-895 | the same for post-dominance |
| `DominanceTree.WhenStrictOrder` | condition_extractor/src/GenericDominatorTy.cpp:781-895 | strict dominance is a strict order iff at most one block is underivable |
| `DominanceTree.TreeIsDominance` | condition_extractor/src/GenericDominatorTy.cpp:781-895 | walks along the added edges to such a block are exactly dominance, and none of its edges can be dropped |
| `RootSearch.FindDefinitions` | condition_extractor/src/AccessType.cpp:888-914 | reports only in-edge-free ancestors of the sources, each once, all of them unless told to stop |
| `RootSearch.ExtractDependencies` | condition_extractor/src/AccessType.cpp:925-1003 | finds exactly the other parameters that share an in-edge-free ancestor with some stored value, the early exit included |
| `RootSearch.TallyIsFound` | condition_extractor/src/AccessType.cpp:979-995 | the flags mark exactly the parameters found, and the counter is their number |
| `RootSearch.EveryoneFound` | condition_extractor/src/AccessType.cpp:981-995 | when the search stops early no candidate is missing |
| `RootSearch.CollectRoots` | condition_extractor/src/AccessType.cpp:930-949 | a root maps to exactly the candidates whose definition it is, and the candidates are counted |
| `AccessTypes.MergeIsAssociative` | condition_extractor/src/AccessTracker.cpp:789-859 | composition is associative, definedness included, in all but the parent's kind and type, and in these exactly when `SameParent` holds |
| `AccessTypes.GroupingsDiffer` | condition_extractor/src/AccessTracker.cpp:835-859 | a read, a write without fields and one field are composed to different kinds of the parent |
| `AccessTypes.LimitsAreAssociative` | condition_extractor/src/AccessTracker.cpp:819-833 | the depth limit and the recursion limit are exceeded in one grouping iff in the other |
| `AccessTypeObjects.MergeAccessType` | condition_extractor/src/AccessTracker.cpp:789-859 | null exactly when the types do not fit, the fields are more than six together, or a counter exceeds the limit; else fields, kind, debug type, parent, nodes and counters of the new object in terms of the two |
| `AccessTypeObjects.AccessType.AppendPath` | condition_extractor/src/AccessType.h:187-198 | the path grows by the suffix, the parent becomes the path without its last field; an empty suffix changes nothing |
| `AccessTypeObjects.AccessType.AddField` | condition_extractor/src/AccessType.h:177-185 | as a suffix of one field, the parent's parts taken from the path itself |
| `AccessTypeObjects.AccessType.MergeVisitedMax` | condition_extractor/src/AccessType.h:143-149 | every counter becomes the larger of the two |
| `AccessTypeObjects.WithinRecursionLimit` | condition_extractor/src/AccessTracker.cpp:819-826 | true iff no counter of the suffix exceeds the limit on top of the prefix |
| `AccessTypeSets.InsertionsCommute` | condition_extractor/src/AccessType.h:290-323 | keys and counters are the same for every order and repetition of insertions, and so are the nodes when access types bring along none of their own |
| `AccessTypeSets.NodesCommuteIff` | condition_extractor/src/AccessType.h:290-323 | the exact condition under which the nodes of an entry do not depend on order or repetition |
| `AccessTypeSets.FirstNodesWin` | condition_extractor/src/AccessType.cpp:776-779 | of two access types of one key with a node of their own each, inserted with the same node, the first keeps its own and the other loses it |
| `AccessTypeSets.EntryIs` | condition_extractor/src/AccessType.h:290-323 | an entry is the first access type inserted with its key, with all nodes and the largest counters; its key never changes in place |
| `AccessTypeSets.OrderIsTotal` | condition_extractor/src/AccessType.h:262-271 | the comparison is a strict total order on keys, to which nodes and counters do not belong |
| `AccessTypeSets.FieldsLessMeans` | condition_extractor/src/AccessType.h:262-271 | paths are ordered by their first different field, a path in front of its extensions |
| `AccessTypeSets.AccessTypeSet.Insert` | condition_extractor/src/AccessType.h:290-302 | the new entries, with the node if there is one |
| `AccessTypeSets.AccessTypeSet.InsertNodes` | condition_extractor/src/AccessType.h:311-323 | the new entries, with all the nodes |
| `SummaryRuns.SummarizeFrom` | condition_extractor/src/AccessTracker.cpp:866-1051 | terminates on every graph, also for functions that call themselves; no key is expanded twice, popped paths have at most six fields and new effects at most seven; everything reachable is expanded or recorded, and nothing is that no earlier expansion led to; the result tells whether anything changed |
| `SummaryRuns.VisitedMeans` | condition_extractor/src/AccessTracker.cpp:544-554 | a place visited is one of a path expanded: node, fields, kind, debug type and memory |
| `SummaryRuns.UnchangedIsClosed` | condition_extractor/src/AccessTracker.cpp:1046-1051 | in a run that reports no new keys every call, of the function to itself included, saw the keys of effects and the exits that the summary has in the end |
| `SummaryRuns.Drain` | condition_extractor/src/AccessTracker.cpp:889-1035 | the worklist empties: with every pop a new key of the finite universe is visited or the worklist shrinks |
| `SummaryOrigins.StepIsFounded` | condition_extractor/src/AccessTracker.cpp:889-1035 | every path met, every new effect and every new exit still comes from an earlier expansion |
| `SummaryOrigins.ExpandedOnly` | condition_extractor/src/AccessTracker.cpp:924-1034 | an expansion adds no effect, exit or path but those its node, edges and callees account for, the callees as the summary was during this expansion |
| `SummaryOrigins.OwnOnly` | condition_extractor/src/AccessTracker.cpp:662-710 | every effect added by merging a summary into itself is composed from another effect of it |
| `SummaryCalls.ExpandedKeeps` | condition_extractor/src/AccessTracker.cpp:924-1034 | an expansion leaves everything the path asks for recorded or waiting, and what it pushes stays within the bounds |
| `SummaryCalls.Expand` | condition_extractor/src/AccessTracker.cpp:924-1034 | the whole new state: the effect of the node recorded and all edges followed in order, unless the path ends at a limit |
| `SummaryCalls.MergeSummary` | condition_extractor/src/AccessTracker.cpp:618-766 | the whole new state: what the handlers record and set, every defined composition with an effect of a callee, and on the worklist every one with an exit; `MergedCalleesKeep`, `CalleesOnly` and `ResumesOnly` say which these are |
| `Summaries.CompositionMeans` | condition_extractor/src/AccessTracker.cpp:789-859 | an effect is composed iff its type is compatible, it has no fields at a call of many targets, there are at most six fields together and no counter exceeds the limit; it then has the fields of both, its own kind and the type of the path |
| `SummaryCalls.MergedCalleesKeep` | condition_extractor/src/AccessTracker.cpp:682-766 | after a call every effect listed of a callee that can be composed is recorded under its key with its nodes and counters, and behind every such exit a path waits, with the fields of both and no memory |
| `SummaryOrigins.CalleesOnly` | condition_extractor/src/AccessTracker.cpp:618-766 | a call records a new key only for a handler or for an effect of a callee that can be composed to it |
| `SummaryOrigins.ResumesOnly` | condition_extractor/src/AccessTracker.cpp:747-765 | a call adds a path to the worklist only behind an exit of a callee that can be composed |
| `SummaryCalls.FlagsOfCall` | condition_extractor/src/AccessTracker.cpp:640-725 | a call sets what the handlers mark and what the callees' flags say, the latter only for the whole object, not its address, and not for many targets |
| `SummaryCalls.FlagsOfNode` | condition_extractor/src/AccessTracker.cpp:924-960 | a node sets what it marks and clears nothing but the array flag where it says so |
| `SummaryCalls.MergeOwn` | condition_extractor/src/AccessTracker.cpp:662-710 | the walk over the effects of the function itself ends although it adds to them, and leaves the state of the specification |
| `SummaryCalls.OwnGrows` | condition_extractor/src/AccessTracker.cpp:662-710 | every effect there at the beginning of that walk is composed with the path; entries only grow |
| `Summaries.SelfCallsAreWellBehaved` | condition_extractor/src/AccessTracker.cpp:728-765 | what is asked of a graph holds too when a site calls the function itself, with the effects and exits that its summary has so far |
| `Summaries.EqualSizesMeanEqual` | condition_extractor/src/AccessTracker.cpp:869-876 | because sets only grow, equal sizes mean equal sets |
| `Summaries.KeyIsKnown` | condition_extractor/src/AccessTracker.cpp:544-554 | the keys of paths within the depth limit form a finite universe |
| `TypeStrings.StringsAreUnambiguous` | condition_extractor/src/TypeMatcher.cpp:66-182 | types get equal strings iff their normal forms are equal, for record names without a closing bracket |
| `TypeEquivalence.SameStringIsAlike` | condition_extractor/src/TypeMatcher.cpp:66-182 | two types get the same string iff they are alike: qualifiers and members aside, pointers and references by pointee, arrays dimension by dimension, functions in result and parameters, records by name, floats by size, integers and enumerations all |
| `TypeEquivalence.AlikeIsNorm` | condition_extractor/src/TypeMatcher.cpp:66-182 | alike types are those of equal normal forms, whatever the names |
| `TypeEquivalence.LeafSpelling` | condition_extractor/src/TypeMatcher.cpp:74-133 | the letters of void, integers, records, empty records and unknown types |
| `TypeEquivalence.FloatSpelling` | condition_extractor/src/TypeMatcher.cpp:78-94 | the letters of the five sizes of floats, `long double` being the fourth |
| `TypeEquivalence.Spelling` | condition_extractor/src/TypeMatcher.cpp:108-182 | the brackets of pointers, functions with the number of their types in front, arrays and vectors, from the strings of their parts |
| `TypeStrings.BracketsCollide` | condition_extractor/src/TypeMatcher.cpp:128-158 | two functions of two records, one name of each with a closing bracket, have the same string |
| `TypeStrings.TextIsUnique` | condition_extractor/src/TypeMatcher.cpp:66-182 | no string of a type begins another one's |
| `TypeMatcher.UniqueString` | condition_extractor/src/TypeMatcher.cpp:66-139 | the string is that of the normal form, which `Spelling`, `LeafSpelling` and `FloatSpelling` spell out and `SameStringIsAlike` tells apart |
| `TypeMatcher.SubroutineString` | condition_extractor/src/TypeMatcher.cpp:141-158 | result first, parameters without a type skipped, their number in front |
| `TypeMatcher.ArrayString` | condition_extractor/src/TypeMatcher.cpp:163-182 | one dimension inside another, unknown counts as zero |
| `TypeMatcher.Peel` | condition_extractor/src/DebugInfoParser.cpp:439-458 | strips qualifiers and stops at a typedef, which has no string of its own |
| `TypeMatcher.Matcher.ComputeUniqueString` | condition_extractor/src/TypeMatcher.cpp:193-201 | the cache never changes an answer |
| `FeatureFreqs.DeleteForgets` | custom-libfuzzer/fuzzer/FuzzerCorpus.h:51-64 | deleting keeps the vector sorted and forgets one feature and nothing else |
| `FeatureFreqs.BumpCounts` | custom-libfuzzer/fuzzer/FuzzerCorpus.h:123-145 | counting keeps the vector sorted and adds one to one counter, in 16 bits |
| `FuzzerCorpus.FindLowerBound` | custom-libfuzzer/fuzzer/FuzzerCorpus.h:134-136 | bisection finds the first position not below the key |
| `CorpusModel.AddFeatureRuns` | custom-libfuzzer/fuzzer/FuzzerCorpus.h:415-441 | the assertion in `AddFeature` holds, `NumFeatures` stays the number of owned features, and the updates of a run count its features |
| `CorpusModel.OwnerExists` | custom-libfuzzer/fuzzer/FuzzerCorpus.h:421-424 | the owner to release is there and has features left |
| `CorpusModel.AccountsMove` | custom-libfuzzer/fuzzer/FuzzerCorpus.h:420-437 | taking over a feature moves one account by one |
| `CorpusRuns.History` | custom-libfuzzer/fuzzer/FuzzerLoop.cpp:544-595 | every history of runs, mutations and updates keeps all invariants: accounts, units, counters, weights |
| `CorpusRuns.RunOneKeeps` | custom-libfuzzer/fuzzer/FuzzerLoop.cpp:544-595 | one run keeps them |
| `CorpusRuns.AddKeeps` | custom-libfuzzer/fuzzer/FuzzerCorpus.h:209-248 | the input added with the number of updates owns exactly the features of its run |
| `CorpusRuns.WeightsArePlaced` | custom-libfuzzer/fuzzer/FuzzerCorpus.h:517-554 | only inputs with features get a positive weight, and one of them does if there are any |
| `CorpusRuns.WeightsMean` | custom-libfuzzer/fuzzer/FuzzerCorpus.h:495-554 | an update is skipped only when nothing changed, and by chance under the entropic schedule; if some energy that counts is positive the energies are the weights, else an input with features weighs as much as its place, a thousandfold for the focus function |
| `CorpusRuns.ChosenUnitIsNotEmpty` | custom-libfuzzer/fuzzer/FuzzerCorpus.h:302-323 | an input drawn with positive weight has a unit, although the weights may be older than the corpus |
| `CorpusHistory.SizesAreRecords` | custom-libfuzzer/fuzzer/FuzzerCorpus.h:415-441 | the recorded size of a feature is that of the smallest run that showed it when shrinking, else of the first; none iff no run did |
| `CorpusHistory.AddedCountsShown` | custom-libfuzzer/fuzzer/FuzzerCorpus.h:428-467 | the number of added features is the number of features ever shown |
| `CorpusHistory.ShownIsRepresented` | custom-libfuzzer/fuzzer/FuzzerCorpus.h:287-298 | a feature once shown has an owner with a unit, no longer than recorded |
| `CorpusHistory.EvictedStayEvicted` | custom-libfuzzer/fuzzer/FuzzerCorpus.h:352-361 | an evicted input stays empty, owns nothing and gets no weight, whatever follows |
| `CorpusHistory.HistoryLater` | custom-libfuzzer/fuzzer/FuzzerCorpus.h:415-441 | recorded sizes, feature counts and units never grow |
| `CorpusHistory.UnitOrigin` | custom-libfuzzer/fuzzer/FuzzerLoop.cpp:567-594 | the unit of an input not evicted is that of the run that added it, or of a later run of its mutation that showed the same features with fewer bytes |
| `CorpusHistory.InterestingMeans` | custom-libfuzzer/fuzzer/FuzzerLoop.cpp:567-594 | a run is interesting iff afterwards there is an input more or one has another unit |
| `CorpusHistory.EvictsLast` | custom-libfuzzer/fuzzer/FuzzerCorpus.h:420-430 | a feature evicts an input iff a smaller run takes it and it was the last one |
| `CorpusHistory.OwnerIsFirstBest` | custom-libfuzzer/fuzzer/FuzzerCorpus.h:415-441 | after every history a feature is owned by the input of the first of its best runs: the smallest ones that showed it when shrinking, else the first |
| `CorpusHistory.OwnsWhatItIsBestFor` | custom-libfuzzer/fuzzer/FuzzerCorpus.h:415-441 | an input owns exactly the features for which its run is the first best, and `NumFeatures` is their number |
| `CorpusHistory.EvictedIff` | custom-libfuzzer/fuzzer/FuzzerCorpus.h:308-316 | an input is evicted iff its run was first best for some feature when it came and is for none any more |
| `CorpusHistory.SomeEvictedIff` | custom-libfuzzer/fuzzer/FuzzerCorpus.h:308-316 | a history leaves an evicted input iff one of its runs is such |
| `CorpusHistory.SmallerRunEvicts` | custom-libfuzzer/fuzzer/FuzzerCorpus.h:352-361 | a run of two bytes and one of one byte that shows the same feature leave an evicted input |
| `CorpusHistory.NoneEvictedUnlessShrinking` | custom-libfuzzer/fuzzer/FuzzerCorpus.h:308-316 | without shrinking no input is evicted in any history |
| `RareFeatures.EvictKeepsTheRarest` | custom-libfuzzer/fuzzer/FuzzerCorpus.h:363-396 | eviction ends, does nothing below either limit, leaves at least as many rare features as are to stay, drops only features at least as frequent as all that stay, and keeps the frequency invariants |
| `RareFeatures.RoundDrops` | custom-libfuzzer/fuzzer/FuzzerCorpus.h:370-396 | a round drops the last of the most frequent rare features with all that was counted of it, and notes the highest count in front of it, or its own when it was the first |
| `RareFeatures.NotesTheNextIff` | custom-libfuzzer/fuzzer/FuzzerCorpus.h:393-395 | the count noted is that of the most frequent feature left iff the one dropped was not the first and every feature behind it is matched in front; it is not too low iff the second of these holds or it was the first |
| `RareFeatures.NotesAnother` | custom-libfuzzer/fuzzer/FuzzerCorpus.h:393-395 | with counts of 3, 5 and 4 the note is too low, with 5, 1 and 4 too high |
| `RareFeatures.DropsAboveThresholdIff` | custom-libfuzzer/fuzzer/FuzzerCorpus.h:364-368 | a round drops a feature above the threshold iff there is one, as there is when some rare feature has the count noted |
| `RareFeatures.DropsBelowThreshold` | custom-libfuzzer/fuzzer/FuzzerCorpus.h:364-368 | with counts of 5, 1 and 1 and a threshold of 3, a feature of count 1 is dropped |
| `RareFeatures.AddFeatureRare` | custom-libfuzzer/fuzzer/FuzzerCorpus.h:363-441 | rare features stay distinct and known, local frequencies sorted and of rare features only, their sum covered by the global counter |
| `RareFeatures.CountFeatureRare` | custom-libfuzzer/fuzzer/FuzzerCorpus.h:444-465 | counting a feature keeps all of this |
| `CorpusModel.CountFeatureMeans` | custom-libfuzzer/fuzzer/FuzzerCorpus.h:444-460 | counting a feature adds one to its global counter, up to 65535, and to no other, and to the note of the most abundant count when a rare feature has just that |
| `CorpusModel.CountFeatureLocally` | custom-libfuzzer/fuzzer/FuzzerCorpus.h:453-464 | for the input of the run the count of a rare feature rises by one unless it is more frequent than noted or full; every other count of every input stays |
| `FrequencyHistory.GlobalIsOccurrences` | custom-libfuzzer/fuzzer/FuzzerCorpus.h:444-450 | after every history the global count of a feature is the number of times runs showed it, up to 65535, and zero without the entropic schedule |
| `FrequencyHistory.LocalIsHeard` | custom-libfuzzer/fuzzer/FuzzerCorpus.h:452-464 | after every history an input's count of a rare feature is the number of times it showed in runs of the input's mutations, less the times it was skipped as full or more frequent than noted; what is not rare has no count |
| `FrequencyHistory.FewAreCountedFully` | custom-libfuzzer/fuzzer/FuzzerCorpus.h:363-413 | while no more features showed than may stay rare, and one, all shown are rare, and an input's count is the number of times runs of its mutations showed the feature, up to 65535 over all runs |
| `RareFeatures.BumpNeverWraps` | custom-libfuzzer/fuzzer/FuzzerCorpus.h:123-145 | the 16-bit local counter is never full when it is incremented |
| `RareFeatures.EnergySubtractionIsSafe` | custom-libfuzzer/fuzzer/FuzzerCorpus.h:86-89 | an input never has more frequencies than there are rare features |
| `RareFeatures.SumOfBumped` | custom-libfuzzer/fuzzer/FuzzerCorpus.h:462-464 | one local increment adds one to one sum |
| `FuzzerCorpus.InputCorpus.AddFeature` | custom-libfuzzer/fuzzer/FuzzerCorpus.h:415-441 | the whole new state and the result are those of the specification |
| `FuzzerCorpus.InputCorpus.AddRareFeature` | custom-libfuzzer/fuzzer/FuzzerCorpus.h:363-413 | evicts, admits and forgets exactly as specified |
| `FuzzerCorpus.InputCorpus.UpdateFeatureFrequency` | custom-libfuzzer/fuzzer/FuzzerCorpus.h:444-465 | the counters after it are those of the specification, which `CountFeatureMeans` and `CountFeatureLocally` say of every counter |
| `FuzzerCorpus.InputCorpus.AddToCorpus` | custom-libfuzzer/fuzzer/FuzzerCorpus.h:209-248 | one input more, with its unit, its number of features and its focus, not mutated yet and without frequencies |
| `FuzzerCorpus.InputCorpus.Replace` | custom-libfuzzer/fuzzer/FuzzerCorpus.h:287-298 | the unit is replaced and the weights become out of date, nothing else changes |
| `FuzzerCorpus.InputCorpus.ValidateFeatureSet` | custom-libfuzzer/fuzzer/FuzzerCorpus.h:476-488 | succeeds iff every `NumFeatures` is the number of owned features, and leaves no trace |
| `FuzzerCorpus.InputCorpus.UpdateCorpusDistribution` | custom-libfuzzer/fuzzer/FuzzerCorpus.h:495-566 | the new weights and the flag, or nothing when the update is skipped; `WeightsMean` says which weights |
| `FuzzerCorpus.InputCorpus.ChooseUnitToMutate` | custom-libfuzzer/fuzzer/FuzzerCorpus.h:302-306 | the unit chosen is not empty |
| `FuzzerCorpus.InputCorpus.ChooseUnitToCrossOverWith` | custom-libfuzzer/fuzzer/FuzzerCorpus.h:308-316 | the assertion on the chosen unit always holds when it is drawn by weight, and when drawn uniformly iff the run that added the input is not superseded |
| `FuzzerCorpus.InputCorpus.RecordMutation` | custom-libfuzzer/fuzzer/FuzzerLoop.cpp:799-800 | one mutation more of the input and in all |
| `FuzzerLoop.RunOne` | custom-libfuzzer/fuzzer/FuzzerLoop.cpp:544-595 | the corpus after a run is that of the specification, and the result is true iff the run added an input or replaced a unit |
| `CrossOver.CrossOver` | custom-libfuzzer/fuzzer/FuzzerCrossOver.cpp:19-49 | for all random numbers it ends, takes parts from both inputs in turn, the first input first, each part where the last one of its input ended, and has exactly the length chosen or that of both inputs together |
| `JsonNumbers.DecodeNumber` | condition_extractor/src/jsoncpp.cpp:785-826 | the integer branch is taken iff the value fits the 64-bit range, with the exact value and kind |
| `JsonNumbers.DecodeOurNumber` | condition_extractor/src/jsoncpp.cpp:1800-1878 | the same for the other reader, whose unsigned kind begins elsewhere |
| `JsonNumbers.Accumulate` | condition_extractor/src/jsoncpp.cpp:793-816 | the accumulator never exceeds the limit and ends with the value spelt |
| `JsonNumbers.ReadBackInt` | condition_extractor/src/jsoncpp.cpp:4168-4190 | every 64-bit integer is read back from its text, the smallest included |
| `JsonNumbers.UintToString` | condition_extractor/src/jsoncpp.cpp:167-173 | the digits of the value, at most twenty, so the buffer is never full |
| `JsonNumbers.ValueToString` | condition_extractor/src/jsoncpp.cpp:4168-4190 | sign and digits, shorter than the buffer |
| `Utf8.ValidIsRead` | condition_extractor/src/jsoncpp.cpp:4262-4311 | a well-formed character (section 3 of RFC 3629) is read as the code point that encodes to it |
| `Utf8.EncodingIsValid` | condition_extractor/src/jsoncpp.cpp:125-151 | the encoding of a scalar value is a well-formed character |
| `Utf8.NeverSurrogate` | condition_extractor/src/jsoncpp.cpp:4285-4310 | malformed input is never read as a surrogate |
| `JsonStrings.RoundTrip` | condition_extractor/src/jsoncpp.cpp:4349-4424 | decoding undoes quoting for every string when emitting UTF-8, and in default mode exactly for well-formed UTF-8 |
| `JsonStrings.StrayByte` | condition_extractor/src/jsoncpp.cpp:4262-4311 | a byte that begins no character does not come back in default mode |
| `JsonStrings.QuotingIsRead` | condition_extractor/src/jsoncpp.cpp:669-679 | tokenising passes over everything between the quotes, and decoding gives the rewritten string |
| `JsonStrings.RewriteIsValid` | condition_extractor/src/jsoncpp.cpp:4395-4418 | in default mode what comes back is well-formed whatever went in |
| `JsonStrings.PairIsRead` | condition_extractor/src/jsoncpp.cpp:919-942 | a surrogate pair (section 2.1 of RFC 2781) is read as its code point |
| `JsonStrings.HexRoundTrip` | condition_extractor/src/jsoncpp.cpp:944-968 | four digits written are the number read |
| `JsonStrings.ValueToQuotedString` | condition_extractor/src/jsoncpp.cpp:4349-4424 | the escaped string in quotes, the short cut for harmless strings included |
| `JsonRoundTrip.ParseWritten` | condition_extractor/src/jsoncpp.cpp:4447-4506 | parsing the compact text gives the value back with integers in canonical kinds, or throws iff it nests too deep |
| `JsonCodec.WriteThenRead` | condition_extractor/src/jsoncpp.cpp:4447-4453 | the writer's document parses to the same value up to the kinds of integers iff the value nests within the limit, else parsing throws |
| `JsonRoundTrip.NestedTooDeep` | condition_extractor/src/jsoncpp.cpp:394-395 | up to a thousand arrays in one another are read back, and more throw |
| `JsonRoundTrip.TrailingComma` | condition_extractor/src/jsoncpp.cpp:681-735 | members in any order with a comma behind the last one parse, within the limit, iff the last name is empty, and then as if there were no comma |
| `JsonRoundTrip.CommaBehindEmptyName` | condition_extractor/src/jsoncpp.cpp:693-694 | such an object, and the one with a longer name, which does not parse |
| `JsonRoundTrip.LoneMinus` | condition_extractor/src/jsoncpp.cpp:785-826 | a minus without digits is read as zero |
| `JsonRoundTrip.LenientIntegers` | condition_extractor/src/jsoncpp.cpp:785-826 | of the tokens read as integers those that are no numbers are the lone minus and those with a needless zero in front |
| `JsonRoundTrip.ZeroIsSkipped` | condition_extractor/src/jsoncpp.cpp:793-816 | such a zero does not change what is read |
| `JsonRoundTrip.ReadBack` | condition_extractor/src/jsoncpp.cpp:389-464 | wherever a written value is met it is read whole and nothing else is |
| `JsonRoundTrip.CanonicalIsSame` | condition_extractor/src/jsoncpp.cpp:817-824 | the canonical value has the same integers by value and is otherwise the same |
| `JsonRoundTrip.MembersAreRead` | condition_extractor/src/jsoncpp.cpp:681-735 | the members of a written object are read in order and put into the map |
| `JsonRoundTrip.ItemsAreRead` | condition_extractor/src/jsoncpp.cpp:737-773 | the items of a written array are read in order |
| `JsonGrammar.WhiteMakesNoDifference` | condition_extractor/src/jsoncpp.cpp:547-555 | white space of section 2 of RFC 8259 in front of a token, a value, an item or a member makes no difference |
| `JsonGrammar.NumbersAreTokens` | condition_extractor/src/jsoncpp.cpp:647-667 | every number of section 6 of RFC 8259 is one token, unless what follows continues it |
| `JsonGrammar.NumbersAreRead` | condition_extractor/src/jsoncpp.cpp:775-826 | such a number is read as the integer if it spells one of the 64-bit range, else as text left to floating-point conversion |
| `JsonGrammar.EscapesMean` | condition_extractor/src/jsoncpp.cpp:866-917 | the eight short escapes of section 7 of RFC 8259, and no other |
| `JsonGrammar.UnicodeEscapesMean` | condition_extractor/src/jsoncpp.cpp:919-968 | four hexadecimal digits are read as their code point; bad digits and a lone high surrogate are errors |
| `JsonGrammar.HexDigits` | condition_extractor/src/jsoncpp.cpp:952-965 | hexadecimal digits of both cases, and nothing else |
| `JsonGrammar.PutSets` | condition_extractor/src/jsoncpp.cpp:681-735 | a member takes the place of one with the same name, the others and their order stay |
| `JsonGrammar.LessMeans` | condition_extractor/src/jsoncpp.cpp:2721-2736 | names are ordered by their first different byte, a name in front of its extensions |
| `JsonGrammar.SampleObject` | condition_extractor/src/jsoncpp.cpp:4483-4500 | the text of an object of two members, byte by byte |
| `JsonGrammar.PairIsWritten` | condition_extractor/src/jsoncpp.cpp:4395-4418 | a code point beyond the basic plane is written as the pair of section 2.1 of RFC 2781; `SampleUnits` gives the digits of the example in section 5 |
| `JsonGrammar.SampleCharacters` | condition_extractor/src/jsoncpp.cpp:125-151 | the encodings of the characters in section 7 of RFC 3629 |
| `JsonReader.Reader.ReadValue` | condition_extractor/src/jsoncpp.cpp:389-464 | value, error or exception, and the place where reading stops, as specified |
| `JsonReader.Reader.ReadArray` | condition_extractor/src/jsoncpp.cpp:737-773 | the loop over items does what the specification of the rest of the array says |
| `JsonReader.Reader.ReadObject` | condition_extractor/src/jsoncpp.cpp:681-735 | the loop over members likewise |
| `JsonReader.Reader.ReadToken` | condition_extractor/src/jsoncpp.cpp:476-545 | kind, extent and rest of the next token |
| `JsonReader.Reader.ReadString` | condition_extractor/src/jsoncpp.cpp:669-679 | stops behind the first quote that is not escaped, or at the end of the document |
| `JsonReader.Reader.ReadNumber` | condition_extractor/src/jsoncpp.cpp:647-667 | passes digits, fraction and exponent, each possibly empty |
| `JsonReader.Reader.Match` | condition_extractor/src/jsoncpp.cpp:557-566 | advances over the pattern iff it is there |
| `JsonReader.DecodeText` | condition_extractor/src/jsoncpp.cpp:866-917 | the decoded string, or none for a bad escape |
| `JsonReader.ParseDocument` | condition_extractor/src/jsoncpp.cpp:350-387 | reads one value from the start of the document |
| `JsonWriter.FastWriter.Write` | condition_extractor/src/jsoncpp.cpp:4447-4453 | the document is the text of the value, with the line feed unless omitted |
| `JsonWriter.FastWriter.WriteValue` | condition_extractor/src/jsoncpp.cpp:4455-4506 | appends the text of the value and nothing else |
| `MD5.MD5.Add` | condition_extractor/src/md5.cpp:211-251 | appends to the message; the buffer holds what does not fill a block and is never full between calls |
| `MD5.MD5.GetHash` | condition_extractor/src/md5.cpp:342-363 | the digest of the message so far (sections 3.1 to 3.4 of RFC 1321), after which more can be added |
| `MD5.MD5.ProcessBuffer` | condition_extractor/src/md5.cpp:255-317 | the hash of the padded message, one or two last blocks |
| `MD5.MD5.PaddedLength` | condition_extractor/src/md5.cpp:263-276 | the padding computed in bits is the fewest zero bytes that leave room for the length |
| `MD5.LengthInBits` | condition_extractor/src/md5.cpp:293-294 | counting bytes modulo 2^64 loses nothing of the length in bits modulo 2^64 |
| `MD5.FinalOne` | condition_extractor/src/md5.cpp:312-313 | a padded rest of one block completes the digest |
| `MD5.FinalTwo` | condition_extractor/src/md5.cpp:312-316 | a padded rest of two blocks does |
| `MD5.SameBlocks` | condition_extractor/src/md5.cpp:236-243 | the hash after some blocks depends on these blocks only |
| `MD5.DigestOfPieces` | condition_extractor/src/md5.cpp:211-251 | for every way to cut a message, with the digest asked for after every piece, the last digest is that of the whole |
| `MD5.MD5.Apply` | condition_extractor/src/md5.cpp:367-372 | whatever came before, the digest of one message in hexadecimal |
| `MD5.MD5.GetHexHash` | condition_extractor/src/md5.cpp:321-338 | the digest in 32 lower-case hexadecimal digits |
| `MD5.HexMeans` | condition_extractor/src/md5.cpp:321-338 | two digits for every byte, the high one first |
| `MD5.InitialBytes` | condition_extractor/src/md5.cpp:23-34 | the initial words are the bytes of section 3.3 of RFC 1321, low-order first |

## Left out

- SVF and LLVM: points-to sets, value-flow and call graphs, labels and debug information are inputs; what a node does to a path, which edges a path may follow, and which callees a call has are parameters of `Summaries`.
- The formation of blocks by `inferSubGraph`, the map from return to call edges, and the pruning of functions: the block graph and the map are given.
- `SummaryRuns.SummarizeFrom`: the previous value and the counters of a path are not part of its key, so what is said of a key holds for the path that was expanded with it; the fixpoint over the functions of one component is left to the caller.
- `SummaryCalls.MergeSummary`: length sources with their call stacks, and the indices recorded beside them, are not modelled.
- `SummaryCalls.Expand`: the same of its node.
- `Dominators.Dominator.CreateDom`: pruning, block formation and the map between calls and returns come before it.
- `AccessTypes.MergeIsAssociative`: takes the verdict of the type comparison as given.
- `AccessTypeObjects.MergeAccessType`: the verdict of the comparison of types and the policy for `void` are inputs.
- `TypeStrings.StringsAreUnambiguous`: a record is known by the name that `unique_composite_name` computes for it; a typedef has the string of unknown types, as in the code.
- `RootSearch.ExtractDependencies`: the stored values are given as nodes; the names of the parameters found are left to the caller, and the callback is a function of the roots reported so far.
- Tarjan's vertex numbers and all counts are unbounded integers.
- The corpus: energies, execution times, hashes of units, files on disk, data-flow traces, the lists of unique features and statistics. That all features of an input showed up again, and the energies that floating-point arithmetic assigns, are inputs of a run; sums of sizes do not wrap.
- `FuzzerCorpus.InputCorpus.AddRareFeature`: does not smooth the energies, nor mark them for an update.
- `FuzzerCorpus.InputCorpus.UpdateFeatureFrequency`: does not mark the energy for an update.
- `FuzzerCorpus.InputCorpus.AddToCorpus`: energy, hash, list of features and trace of the new input are left out.
- `FuzzerCorpus.InputCorpus.Replace`: hashes, files and times are left out.
- `FuzzerCorpus.InputCorpus.UpdateCorpusDistribution`: the energies are inputs, because they are floating-point logarithms.
- `FuzzerCorpus.InputCorpus.ChooseUnitToMutate`: which index the random distribution draws is an input, of positive weight.
- JSON comments, error messages, the recovery after an error, styled writers, the options of the other reader, dropped null placeholders, numeric keys, and the YAML separator; arrays with holes.
- `JsonReader.Reader.ReadToken`: a comment is an error token.
- `JsonReader.Reader.ReadValue`: reads no comments.
- `JsonReader.Reader.ReadArray`: reads no comments, and ends at the first error instead of going on behind it.
- `JsonReader.Reader.ReadObject`: the same, and no numeric keys, which are off by default.
- `JsonReader.ParseDocument`: the root may be any value, as without the strict option.
- JSON numbers with a fraction or an exponent: the token goes to floating-point conversion as text, which never fails in the model.
- The 64 steps of the MD5 compression are one parameter; the claim is about cutting, padding and length.
- Logging, profiling, caches on disk, command lines, signals and the campaign scripts.
