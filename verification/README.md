# Verified model of the MicroP4 compiler

MicroP4 is a compiler for composable packet-processing programs, built on p4c. This project models the parts of it
that carry the most intricate behaviour, and proves what they are for:

- the IR traversal engine: rewriting of shared graphs with a memo (`ChangeTracker`, `Modifier`), detection of loops
  (`Inspector`), join flows that turn a depth-first walk into a topological one (`SetupJoinPoints`,
  `ControlFlowVisitor`), and the vectors whose elements are replaced in place while they are visited;
- the pass manager, in which a pass may throw a trigger and an earlier pass may accept it and start again;
- the packet-length analysis of composable packages, one walk that stands for a maximum over all execution paths;
- the library format: dumps of IR graphs with references by id, printed as JSON text and read again;
- the P4Runtime symbol table: ids by cyclic probing, and aliases from a tree of suffixes;
- the dynamic bit vector, whose word loops are set operations;
- two rewritings that keep their meaning: comparisons of compound values, and flat structs for nested ones.

## How it is organised

Code that changes state is modelled by classes and methods with the loops and the fields of the original. Each is
proved against a specification in the form of functions on values, and the properties are proved about these.

| files | what is in them |
|---|---|
| `IrGraph`, `Cycles` | graphs, their unfoldings, and cycles |
| `TreeRewriting`, `Memo`, `Modifier` | bottom-up rewriting, what the memo keeps, and the memoised visitor |
| `Inspector`, `JoinPoints`, `FlowRecord`, `JoinFlows` | visit-once traversal, in-degrees, and joining of flows |
| `Vectors`, `IndexedVectors` | in-place replacement of elements, and the index by name |
| `PassMachine`, `PassRecord`, `PassManager` | runs with backtracking as a state machine, the account of a run, and the loop that implements it |
| `PacketLength`, `PacketLengthAttained`, `PacketLengthExact`, `PacketLengthWalk` | paths, maxima and the walk, what of it paths attain, when the walk is exact, and the two interpreters |
| `JsonText`, `JsonRoundTrip`, `JsonLeniency`, `JsonWriter`, `JsonReader` | JSON text: escaping, reading, printing |
| `JsonGraph`, `JsonGraphRoundTrip`, `JsonGraphVectors`, `JsonGraphStreams` | graph dumps, and when graphs survive |
| `LibraryFile`, `FileFormat` | dumps as JSON objects, the library file as a whole, and its format in characters |
| `SymbolIds`, `SymbolHashes`, `SuffixSet`, `SymbolTable` | ids and the hashes they follow from, suffixes and aliases, and the table |
| `MachineWord`, `WordSets`, `Bitvec`, `BitRanges` | 64-bit words, sets of bits, the vector, and its ranges |
| `Comparison`, `FlattenStructs`, `ExplodeStructs`, `Decimals`, `Wrappers` | the two rewritings, and small helpers |

## Where the code does not do what it looks like

Some properties that one would state do not hold of the code. The model keeps the code as it is, a lemma gives an
input, and another one says when the property holds.

- A shared vector does not survive the library format, because the vector loaders bypass `node_refs`
  (`JsonGraphVectors.SharedVectorIsLost`). A graph survives if and only if no vector is null or shared
  (`SurvivesExactly`, and for the file as text `LibraryFiles.FileRoundTrip`).
- The actions of a table add up in `accumDecrPktLen`, although only one is executed
  (`PacketLengthExact.ActionsAccumulate`). `TableIsExact` says exactly when one table is exact.
- `ControlBlockInterpreter` has no handler for exit statements; `frontends/p4/frontend.cpp` only removes returns, and
  `RemoveExits` runs in other midends but not in that of MicroP4 (`extensions/csa/midend/csamidend.cpp`). So the walk
  goes on after an exit (`ExitIsIgnored`, `HeadersAfterExit`). `BlockIsExact` says exactly when a sequence is exact, and
  `WalkAttains` exactly when each length of a package is attained. They are bounds in every case (`WalkIsBound`).
- A comparison of structs with a field of tuple type makes the pass fail (`Comparison.TupleFieldFails`). The pass returns
  if and only if lists stand for everything of a tuple type that it takes apart (`ExplodesExactly`).
- A generated id is not always that of the hash of its name, even if no call claims it and no other name hashes to it
  (`SymbolHashes.MovedByNeighbour`): it is if and only if it is not taken (`OwnIdExactly`).
- Aliases of symbols with an empty component can coincide (`Suffixes.EmptyComponentCollision`). `AliasesEqual` says
  exactly when: empty components in front of a chosen suffix are lost as long as more than one component is left.
- Flat names can coincide (`FlattenStructs.CollidingNames`), and `FlatNamesCollide` says exactly when. Then, and only
  then, some value is lost (`ExplodeStructs.KeptExactly`).
- A shift right by 2^38 does nothing to a vector of several words (`BitVector.WideShiftIsLost`), because the word
  offset is kept in an `int`, which is exact if and only if the count is below 2^37 (`IntCastExact`). `ShiftIsExact`
  says for which members and counts the result is the shift nevertheless.
- A shift left that makes a vector larger than 2^31 words moves nothing, because the loop variable is an `int`
  (`BitVector.ShiftLeftIsExact`).
- `PassRepeated` makes `repeats` + 1 rounds. The comment on `bitvec::expand` promises sizes of at most 7*2^k, but the
  code rounds up to other sizes; the model rounds as the code does.

## Model

| member | source | states |
|---|---|---|
| Modifiers.Modifier.Apply | ir/visitor.cpp:233-259 | On every finite graph, cyclic or not, the traversal halts, and it reports an IR loop if and only if the root reaches a cycle. Without a loop memoised rewriting is tree rewriting: the graph that is returned unfolds to the bottom-up rewrite of the unfolding of the original, also when postorder puts new nodes into fields. Postorder is called once for each node that the root reaches, after its children, and for no other; each node has one result wherever it is shared, different nodes have different results, no original node is changed, and, when postorder leaves every child in its place, the root itself is given back if and only if the rewrite changes nothing |
| Modifiers.Modifier.ApplyVisitor | ir/visitor.cpp:233-259 | A visit of a null pointer, of a finished node or of a new one finds a cycle that the root reaches, or leaves the memo sound, keeps every earlier result and every earlier node, gives ids to new nodes that no node had, restores the stack of open visits and returns what the tracker records for the node from then on |
| Modifiers.Modifier.ForwardChildren | ir/visitor.cpp:222-230 | Before a node is visited its clone gets, for each child that is finished, the recorded result, and keeps every other child |
| Modifiers.Modifier.VisitChildren | ir/visitor.cpp:244-249 | Unless a cycle is found, the clone holds the recorded result of each original child after the children are visited, also of one that was forwarded and is visited a second time, in the original order |
| Modifiers.Modifier.EndVisit | ir/visitor.cpp:250-253 | Postorder and finish complete exactly the node at hand: what was done before stays done, and the result satisfies the equation between a node and its rewritten children; nodes that postorder makes get ids of their own, and no node that was there before is changed |
| Modifiers.Modifier.Place | frontends/p4/createBuiltins.cpp:22-36 | A field that postorder fills with a new node, or with one from below a child, gets a pointer to a node that looks as the edit says, and no node that was there before is changed |
| Modifiers.ChangeTracker.Start | ir/visitor.cpp:42-55 | A loop is reported exactly for a node whose visit is in progress; a node that is known keeps its entry, and a new one is in progress |
| Modifiers.ChangeTracker.Finish | ir/visitor.cpp:70-88 | The node is done; a removed node has a null result, an equal or identical result is forgotten in favour of the original node, and a different result is itself entered as done unless it is known |
| Memos.VisitedAll | ir/visitor.cpp:233-259 | When the root is done, the nodes that postorder saw are exactly those that the root reaches, each satisfies its equation, different nodes have different results, and the root reaches no cycle |
| Memos.AcyclicHasNoLoop | ir/visitor.cpp:42-55 | On an acyclic graph no loop is reported, and every way to rank the graph gives the same unfolding |
| TreeRewriting.MemoisedIsRewritten | ir/visitor.cpp:29-130 | Results that satisfy the equation of every done node unfold to the rewritten unfolding of the original: sharing does not change the meaning, for edits that keep, move and remove children and for edits that make new nodes around them |
| TreeRewriting.SameExactlyWhenUnchanged | ir/visitor.cpp:80-88 | For edits that leave children in their places and make no nodes, a node keeps its identity if and only if the rewritten tree equals the original tree |
| IrGraph.UnfoldFrame | ir/visitor.cpp:21-29 | Adding nodes to a store does not change what an older pointer unfolds to |
| Inspectors.Inspector.Apply | ir/visitor.cpp:261-285 | On every finite graph, cyclic or not, the traversal ends, and it reports an IR loop if and only if a cycle can be reached from the root. Without a loop it enters and leaves each reachable node exactly once, and leaves it after all its children |
| Inspectors.Inspector.ApplyVisitor | ir/visitor.cpp:261-285 | One visit either finds a cycle that the root reaches, or finishes the node and all below it and restores the stack of open visits; with each new entry the number of untracked nodes falls |
| Inspectors.Inspector.VisitChildren | ir/visitor.cpp:273-276 | All children are finished, or a cycle is found |
| Cycles.FoundCycle | ir/visitor.cpp:266-267 | An edge from the top of the stack of open visits to a node on the stack closes a cycle that the root reaches |
| Cycles.OrderedHaveNoCycle | ir/visitor.cpp:266-279 | A node that was left after all its children lies on no cycle: loops are never missed |
| Cycles.NoCycleBelow | ir/visitor.cpp:266-279 | A list in which children come before their parents, and which contains a node, contains all that the node reaches, and the node reaches no cycle |
| Inspectors.AllLeft | ir/visitor.cpp:261-285 | When the root is left, the nodes entered and the nodes left are both exactly the reachable ones, and no cycle is reachable |
| JoinPoints.SetupJoinPoints.Apply | ir/visitor.cpp:378-394 | The counter of every reachable node is the number of edges from reachable nodes that lead to it, and one more for the root; no other node has a counter |
| JoinPoints.SetupJoinPoints.ApplyVisitor | ir/visitor.cpp:378-385 | An edge that is followed is followed for the first time, counts for its target, and all edges below a target are followed at its first count |
| JoinPoints.AllCounted | ir/visitor.cpp:378-394 | When every counted node has all its edges followed, the counted nodes are the reachable ones and the followed edges all their edges |
| JoinFlows.JoinFlowInspector.Apply | ir/visitor.cpp:387-424 | With join flows on, every reachable node of an acyclic graph is entered exactly once and no other node is; it is entered only after all its parents, through the last of its in-edges; and the flow at its entry is the merge of the flows that were sent along its in-edges, each exactly once, in the order of arrival. What is sent along an edge is what preorder made of the entry of its parent or what came back from the child before, and what comes back is what postorder makes of the visit that the edge began, or the flow that was sent when the visit was put off |
| JoinFlows.JoinFlowInspector.InitJoinFlows | ir/visitor.cpp:387-400 | The join points are exactly the nodes with more than one in-edge, and the counter of each is its in-degree |
| JoinFlows.JoinFlowInspector.JoinsFlow | ir/visitor.cpp:402-424 | The visitor is put off unless it comes along the last edge; the accumulator is set by the first arrival, merged by later ones, and merged into the visitor by the last |
| JoinFlows.JoinFlowInspector.Arrive | ir/visitor.cpp:263-265 | An arrival keeps the invariant of the whole walk; the last arrival that is recorded at the node is the flow that the visitor came with, the node was not entered before, and it is entered now, with the flow that the visitor goes on with, exactly when the visitor is not put off |
| JoinFlows.JoinFlowInspector.ApplyVisitor | ir/visitor.cpp:261-285 | A visit along one edge follows that edge, and every edge below each node that it enters, and enters no node twice; the flow that it came with was sent along the edge, the flow that it leaves with came back, and every node that it entered passed its flow on through all its children |
| FlowRecords.PassedMore | ir/visitor.cpp:273-276 | The flow that came back from one child is the flow that is sent to the next one, and what was recorded for the children before stays |
| JoinFlows.PutOff | ir/visitor.cpp:410-422 | While an edge to the node is still to come the visitor is put off, its flow is recorded and the node is not entered |
| JoinFlows.Entered | ir/visitor.cpp:403-409 | At the last edge the node is entered with all flows merged, and all its parents were entered before |
| JoinFlows.Arrives | ir/visitor.cpp:402-424 | No visitor arrives at an entered node, the last arrival finds an accumulator, and every arrival keeps the invariant |
| JoinFlows.AllEntered | ir/visitor.cpp:402-424 | A walk that followed all edges of the nodes it entered has entered every reachable node: no counter is left waiting |
| JoinFlows.AllJoined | ir/visitor.cpp:402-424 | At the end each reachable node but the root was entered with the merge of exactly its in-edges |
| Vectors.Vector.VisitChildren | ir/ir-inline.h:42-71 | The loop that erases, inserts and overwrites in place visits each original element once, from left to right; the results fill the vector one after the other, without gaps: null for a non-null element leaves nothing, a node stands alone, and a vector stands with all its elements in order. The length is the sum of these sizes, no null is left when neither the elements nor the vectors returned have one, and it fails if and only if some result is of a wrong type |
| Vectors.Vector.ReplaceElement | ir/ir-inline.h:45-69 | Null for a non-null element erases it and stays in place, any other node takes its place, and a vector takes it with all its elements; the next position follows what was put in |
| Vectors.NoNullIsLeft | ir/ir-inline.h:45-69 | Whatever the loop leaves, its length is the sum of 0, 1 or the length of the vector for each result, and it has no null when none was there or returned in a vector |
| Vectors.Vector.Overwrite | ir/ir-inline.h:53-63 | A vector of another type takes the place of one element, in order, and the elements on both sides stay; an element of a wrong type makes it fail |
| IndexedVectors.IndexedVector.VisitChildren | ir/ir-inline.h:130-148 | The results fill the vector one after the other: nothing for null, a node alone, a vector with all its elements in order. No duplicate is reported if and only if the names were distinct after every single step, and then the name index is again the exact map from names to elements |
| IndexedVectors.IndexedVector.ReplaceElement | ir/ir-inline.h:133-146 | One result takes the place of one element: nothing, the node, or all elements of the vector; without an error the index stays exact |
| IndexedVectors.IndexedVector.Insert | ir/indexed_vector.h:117-119 | The element is in the vector in any case. The index stays exact if and only if its name was not taken, and an error is reported otherwise |
| IndexedVectors.IndexedVector.InsertAll | ir/indexed_vector.h:104-108 | A range is spliced in; an exact index stays exact without an error when the new names are distinct, and otherwise a duplicate is reported |
| IndexedVectors.IndexedVector.Erase | ir/indexed_vector.h:101-103 | An exact index never lacks the name of an element: erasing succeeds and the index stays exact |
| IndexedVectors.IndexedVector.Replace | ir/indexed_vector.h:109-113 | The index stays exact if and only if no other element has the new name, and otherwise a duplicate is reported |
| IndexedVectors.IndexedVector.InsertInMap | ir/indexed_vector.h:42-51 | The first declaration of a name stays in the index, and a second one is an error |
| IndexedVectors.IndexedVector.RemoveFromMap | ir/indexed_vector.h:52-60 | The name is taken out of the index, and it is an internal error when it is not there |
| IndexedVectors.IndexedVector.RemoveByName | ir/indexed_vector.h:123-132 | It removes one element of that name and nothing else, keeps the index exact, reports whether there was one, and leaves none |
| IndexedVectors.IndexedVector.GetDeclaration | ir/indexed_vector.h:87-91 | Null is returned if and only if no element has the name, otherwise an element of the vector with that name |
| IndexedVectors.IndexedVector.CheckValid | ir/indexed_vector.h:173-177 | The check passes if and only if every element is indexed under its name, so an exact index always passes |
| IndexedVectors.InsertIndexed | ir/indexed_vector.h:42-51 | A name is in an exact index if and only if some element has it; without a clash the updated index is exact for the longer vector, with a clash the names are no longer distinct |
| IndexedVectors.EraseIndexed | ir/indexed_vector.h:52-60 | Taking an element and its name away from a vector with an exact index leaves an exact index |
| IndexedVectors.ReplaceIndexed | ir/indexed_vector.h:109-113 | Removal of the old name followed by insertion of the new one indexes the updated vector exactly, or finds the clash |
| PassRecords.EveryRun | ir/pass_manager.cpp:21-74 | For all passes and all that they may do, a run has an account: its first invocation is that of the first pass with the initial program; after a program comes the next pass with it, after a trigger the nearest strictly earlier pass that accepts it, with the program that this pass was last entered with; and nothing comes after an outcome that ends the run. It ends with the input of the last invocation exactly when that one returned and the errors of all outcomes up to it add up to more than 0 (if errors stop it), otherwise with null when it returned null, otherwise with its program when early_exit() had been called, by rethrowing a trigger when every earlier pass refuses it, and with the program of the last pass otherwise. All the while backups, and the chain of last completed invocations, are as the invariant says |
| PassRecords.OneAccount | ir/pass_manager.cpp:21-74 | The passes and their outcomes decide which passes are invoked, with what programs, and how the run ends |
| PassRecords.StepAccounted | ir/pass_manager.cpp:33-71 | One invocation of any outcome continues the account, or ends it in the way that the account tells |
| PassMachine.CompletedOutcome | ir/pass_manager.cpp:45-71 | A pass that returns ends the run on errors, with the program it received; otherwise on null; otherwise, after early_exit(), with its program; and the run goes on with the next pass in no other case |
| PassMachine.StepKeeps | ir/pass_manager.cpp:33-71 | One invocation, whether it returns, stops the run or throws, keeps that invariant |
| PassMachine.TriggerOutcome | ir/pass_manager.cpp:51-66 | A trigger resumes at the nearest strictly earlier pass that accepts it, with the program that this pass received on its latest entry, and escapes only when all earlier passes that may backtrack refuse |
| PassMachine.TriggerKeeps | ir/pass_manager.cpp:51-66 | The state after backtracking is as good as any: the chain of completed invocations up to the resumed pass is unbroken |
| PassMachine.CompletedKeeps | ir/pass_manager.cpp:42-71 | A pass that returns extends the chain by its own invocation, on an error stop or null the chain up to the pass stays, and the run stops in exactly the three cases of the source |
| PassMachine.UnwindResult | ir/pass_manager.cpp:53-62 | The search only pops backups, stops at one before the throwing pass that accepts, and every backup it popped belonged to the throwing pass or to one that refused |
| PassMachine.UnwindNearest | ir/pass_manager.cpp:53-65 | The search finds the nearest accepting pass, and finds none only when there is none |
| PassMachine.ResumedInv | ir/pass_manager.cpp:57-62 | Resuming at a backup makes the whole invariant hold for the earlier position |
| PassMachine.ChainPrefix | ir/pass_manager.cpp:33-47 | The chain up to a pass contains the chain up to every earlier pass, ending in the program that the earlier pass received |
| PassManagers.PassManager.ApplyVisitor | ir/pass_manager.cpp:21-74 | The loop over `it`, `program` and `backup` returns null, returns a program or rethrows as the account of the run tells, which lists the invocations and is stated about the outcomes alone; it is the run of the state machine, and `running` is reset exactly when it returns |
| PassManagers.PassManager.Invoke | ir/pass_manager.cpp:33-71 | One turn of the loop is one step of the state machine. A pass that returns leaves the loop on errors with the program it received, returns null, or passes its program on, and leaves the loop after early_exit() |
| PassManagers.PassManager.Backtrack | ir/pass_manager.cpp:53-62 | The inner loop leaves the backups that the search of the state machine leaves, at the position and with the program of the last of them |
| PassManagers.ApplyRepeated | ir/pass_manager.cpp:99-117 | The repetition ends after the first round that reports errors, returns null, gives its program back unchanged or is one more than `repeats`, and after no earlier one; on errors it returns the program before the round |
| PacketLengthExact.WalkIsMaximum | midend/controlBlockInterpreter.cpp:70-279 | For every package in which no path ends at an exit and every table meets its condition, one linear walk computes a maximum over exponentially many paths, through nested packages: the increase and decrease of the packet are the largest total widths made valid and invalid on a path, and the extract length the largest sum, over paths and package calls, of what earlier callees made invalid and what the callee extracts; each is attained by a path |
| PacketLengthExact.WalkAttains | midend/controlBlockInterpreter.cpp:70-279 | For every package whose widths add up to less than 2^32, with exits and tables of any kind, each of the three lengths is attained by a path if and only if the body meets the condition for it, which is told from the structure of the body and what the walk finds for its parts, without looking at paths |
| PacketLengthExact.MaximumExactly | midend/controlBlockInterpreter.cpp:70-279 | What the walk finds for a package is the maximum in all its components if and only if the body meets all these conditions |
| PacketLengthAttained.GetsExactly | midend/controlBlockInterpreter.cpp:70-264 | For every statement, a path through it, or one that goes on after it, makes as much valid or invalid as the walk finds exactly under the condition: a sequence is passed when all its statements are, a path may leave behind only what counts nothing, one of the largest alternatives gets its own, and of the actions of a table only one has callees that make anything invalid |
| PacketLengthAttained.ExtractsExactly | midend/controlBlockInterpreter.cpp:70-279 | For every statement, a path through it extracts as much as the walk finds exactly under the condition: the longest counted extraction of a sequence comes after statements that a path passes with all that is counted for them, and that of a table is counted after nothing |
| PacketLengthExact.ExactEverywhere | midend/controlBlockInterpreter.cpp:70-279 | When no path ends at an exit, the walk is exact on every statement within a body if and only if every table in it meets its condition |
| PacketLengthExact.NoPathEnds | midend/controlBlockInterpreter.cpp:70-279 | In a body without exit statements, callees included, no path ends at one |
| PacketLengthExact.WalkIsBound | midend/controlBlockInterpreter.cpp:70-279 | For every body whose widths add up to less than 2^32, with tables and exits of any kind, the three lengths are bounds for every path; when no path ends at an exit the increase and the decrease are attained |
| PacketLength.BestIsMaximum | midend/controlBlockInterpreter.cpp:70-264 | The maxima of branches, sequences, cases and tables, kept apart for paths that go on and for paths that end at an exit, are the maxima of the sets of those paths; there is none exactly when there is no such path |
| PacketLength.OverallIsMaximum | midend/controlBlockInterpreter.cpp:70-264 | The larger of both is the maximum over all paths |
| PacketLength.CasesIsMaximum | midend/controlBlockInterpreter.cpp:123-160 | A switch of which each case is visited by itself has the maximum over entries at any case with fall-through, or at none |
| PacketLength.EntriesAreCases | midend/controlBlockInterpreter.cpp:123-165 | Fall-through adds no path that visiting each case by itself would miss |
| PacketLength.MaximumOfThen | midend/controlBlockInterpreter.cpp:266-279 | Maxima of two statements in sequence add up, also for the extract length, which depends on the decrease before it |
| PacketLength.BestOfCalls | midend/composablePackageInterpreter.cpp:52-91 | The maximum over the paths of a callee gives the maximum over the calls |
| PacketLength.WalkAddsSummary | midend/controlBlockInterpreter.cpp:70-279 | What the walk does to its four counters is to add the summary of the statement, below the wrap-around of 32-bit counters |
| PacketLengthAttained.WalkCovers | midend/controlBlockInterpreter.cpp:70-279 | What the walk finds is never less than the maximum, over paths that go on and over paths that end |
| PacketLengthExact.ActionsAccumulate | midend/controlBlockInterpreter.cpp:225-254 | Two actions of one table, the first with a callee that shrinks the packet by w, the second with one that extracts v: the walk finds w + v, although every path has at most v |
| PacketLengthExact.ParserBeforeCallees | midend/composablePackageInterpreter.cpp:52-91 | The extract length of a package is that of its parser and, after it, that of the package that its control calls |
| PacketLengthExact.TableIsExact | midend/controlBlockInterpreter.cpp:225-254 | On a table whose actions are each exact, the walk is exact if and only if at most one action can shrink the packet and some action extracts by itself as much as each action does after all actions before it |
| PacketLengthExact.BlockIsExact | midend/controlBlockInterpreter.cpp:88-264 | On any sequence the walk is exact if and only if, for each sum, a path passes the statements up to some one with all that is found for them, gets what is found there, and nothing that counts comes after it, and the statement with the longest counted extraction can be reached and can extract as much |
| PacketLengthExact.WithoutExits | midend/controlBlockInterpreter.cpp:70-279 | When no path ends at an exit, some path that goes on gets all the increase and all the decrease that the walk finds, whatever the tables are, and also the rest when every table meets its condition |
| PacketLengthExact.ExitIsIgnored | midend/controlBlockInterpreter.cpp:70-279 | A branch that shrinks the packet by w and exits, and after it an extraction of v: the walk finds w + v, although every path has at most v; the analysis has no handler for exit statements |
| PacketLengthExact.HeadersAfterExit | midend/controlBlockInterpreter.cpp:187-208 | A branch that makes one header valid and exits, and another header made valid after it: the walk adds both widths, although no path makes both valid |
| PacketLengthWalk.ControlBlockInterpreter.Visit | midend/controlBlockInterpreter.cpp:70-279 | Visiting a statement takes the fields `maxIncr`, `maxDecr`, `maxExtLen` and `accumDecrPktLen` to what the walk of the specification gives, for which the maximum is proved |
| PacketLengthWalk.ControlBlockInterpreter.VisitIf | midend/controlBlockInterpreter.cpp:70-121 | Saving, resetting and merging the fields around both branches is the walk of a conditional |
| PacketLengthWalk.ControlBlockInterpreter.VisitSwitch | midend/controlBlockInterpreter.cpp:123-160 | The loop over the cases, with its running maxima and resets, is the walk of all cases |
| PacketLengthWalk.ControlBlockInterpreter.VisitActionList | midend/controlBlockInterpreter.cpp:225-254 | The loop over the actions resets two of the fields and lets `accumDecrPktLen` run on |
| PacketLengthWalk.ControlBlockInterpreter.VisitPackage | midend/controlBlockInterpreter.cpp:266-280 | A callee is analysed by an interpreter of its own, and its lengths are combined with those of the caller |
| PacketLengthWalk.ComposablePackageInterpreter.VisitPackage | midend/composablePackageInterpreter.cpp:22-91 | The extract length of the parser and the lengths of the control become those of the package; a package without parser extracts only what its callees do |
| PacketLengthWalk.ComposablePackageInterpreter.Apply | midend/composablePackageInterpreter.cpp:22-91 | The three lengths of a fresh interpreter bound every path through the package; each is attained by a path if and only if the body meets the condition for it, which it does for the first two when no path ends at an exit, and for the third when besides every table meets its condition |
| JsonGraphRoundTrip.LoadsCopy | ir/json_loader.h:66-113 | Loading what the generator wrote gives, for every finite acyclic graph whose vectors are not shared and wherever the global counter of ids stands, an isomorphic graph with the same ids, types, fields and sharing and with no object beside it, and the next fresh id is above every loaded id |
| LibraryFiles.FileRoundTrip | ir/json_loader.h:66-113 | The round trip of a library file: a well-typed acyclic graph is written as JSON objects, as text with any white space; the reader consumes exactly that text, and what is loaded from it is a copy of the graph, with the same ids and the same sharing, if and only if no vector in it is null or has two parents. FileFormats says what the text is |
| FileFormats.KeysRead | ir/json_parser.cpp:21-33 | The id of a node is the number under Node_ID, or -1, and its type the string under Node_Type, or empty |
| FileFormats.NodeSeen | ir/json_loader.h:66-77 | An object that begins with Node_ID and Node_Type is seen as a node of that id and type |
| FileFormats.ReferenceSeen | ir/json_loader.h:66-77 | An object with Node_ID alone is seen as a reference to the node of that id |
| FileFormats.KeysWritten | ir/json_generator.h:209-222 | A node is written as an object that begins with Node_ID and Node_Type, and a reference as one with Node_ID alone |
| FileFormats.NodeText | ir/node.cpp:27-30 | The text of a node begins with a brace and the lines of its id and its type, character by character |
| FileFormats.ReferenceText | ir/json_generator.h:209-222 | The text of a reference is a brace, the line of the id and a brace |
| FileFormats.NodeTextSeen | ir/json_parser.cpp:86-166 | A text with the id and the type of a node is read in full and seen as a node of that id and type |
| LibraryFiles.SeesWritten | tools/ir-generator/methods.cpp:172-203 | Looking fields up by name in what was written gives back id, type, fields and children of every node: a child that may be null is missing when it is, and a mere reference has only its id |
| LibraryFiles.GeneratedShaped | ir/json_generator.h:209-222 | What the generator writes for a graph has the fields of the types of its nodes, and vectors of their static types in vector fields |
| LibraryFiles.WrittenPrintable | ir/node.cpp:27-30 | What is written has different keys in each object and only escaped strings, when names are escaped and fields can be printed |
| LibraryFiles.SomeFile | lib/json.cpp:68-190 | Every graph with printable fields has a file |
| JsonGraphVectors.SurvivesExactly | ir/json_loader.h:66-113 | A well-typed graph survives the round trip if and only if no vector in it is null or has two parents |
| JsonGraphVectors.SharedVectorIsLost | ir/json_loader.h:106-109 | Two fields that share one vector do not survive: the reference is read as a vector of its own |
| JsonGraphVectors.CopyOwnsVectors | ir/json_loader.h:106-113 | Whatever dump is loaded, a vector that was loaded into a field has that field as its only holder, so no shared vector can come out |
| JsonGraphVectors.LoadsOneWell | ir/json_loader.h:66-113 | Loading any dump keeps every object and every entry of `node_refs`, points only to objects that exist, and gives each vector field an object that nothing else points to |
| JsonGraphVectors.LoadedIdsBelow | ir/node.cpp:32-38 | For every dump, well formed or not, all ids of loaded nodes stay below the next fresh id, which never falls |
| JsonGraphRoundTrip.OneInSync | ir/json_loader.h:66-77 | Reading one pointer just where it was written keeps generator and loader in step: what is written already is found in `node_refs`, what is new is copied |
| JsonGraphRoundTrip.NewInSync | ir/json_generator.h:209-222 | A node that is written at its first occurrence is made with its id, type, fields and children, and is known from then on |
| JsonGraphRoundTrip.AllInSync | ir/json_loader.h:259-266 | Children that were written in order are read in the same order, each by the loader that its field asks for |
| JsonGraphRoundTrip.WrittenBefore | ir/json_generator.h:212-213 | A mere reference is read as the one object made for that id |
| JsonGraphStreams.JsonGenerator.Generate | ir/json_generator.h:209-222 | A node is written in full at its first occurrence and as a reference afterwards; `node_refs` grows by exactly the nodes written |
| JsonGraph.WrittenInOrder | ir/json_generator.h:209-222 | Children are written in order, each in full with its type and fields unless it is among the nodes written before it, of which every earlier child is one, and otherwise with its id alone |
| JsonGraphStreams.JsonLoader.Construct | ir/node.cpp:32-38 | A node keeps a non-negative id, otherwise it gets the id at which the counter stands; it is the next object, of the given type, and its children are loaded into fields |
| JsonGraphStreams.JsonLoader.LoadAll | ir/json_loader.h:259-266 | The fields are loaded in the order in which they were written |
| JsonGraphStreams.JsonLoader.LoadOne | ir/json_loader.h:106-113 | A vector field is made from the JSON at hand, and any other field by `get_node` |
| JsonGraphStreams.JsonLoader.GetNode | ir/json_loader.h:66-77 | A known id gives the known object and changes nothing, an unknown id gives a new object, entered under this id, of a type in the unpacker table, and anything else gives null |
| JsonWriters.PrintedIsReadBack | lib/json.cpp:68-190 | Reading the text that is printed for any value, at any indentation and whatever follows it, gives the same tree and consumes exactly that text, whenever strings and keys are escaped and keys differ; only a number must not be followed by a digit |
| JsonWriters.LaidIsDoc | lib/json.cpp:116-190 | The layout chosen by the printer stands for the printed value, and it is well formed if and only if strings and keys are escaped and keys differ |
| JsonWriters.Writer.Serialize | lib/json.cpp:68-86 | The text of a value is appended to the stream, nothing before it is changed, and the indentation is restored |
| JsonWriters.Writer.SerializeArray | lib/json.cpp:116-143 | Short arrays stand on one line and others are indented, as laid out; the loop with its `first` flag prints every element once, in order |
| JsonWriters.Writer.SerializeObject | lib/json.cpp:175-190 | Every entry is printed once, in order, on a line of its own |
| FileFormats.SmallArrayText | lib/json.cpp:116-143 | An array of two scalars is printed on one line, with a comma and a space between them |
| FileFormats.LargeArrayText | lib/json.cpp:116-143 | An element that is no scalar stands on a line of its own, two spaces deeper than the brackets |
| FileFormats.FieldText | lib/json.cpp:175-190 | A field stands on a line of its own: spaces, the quoted key, a colon between spaces, and the value |
| JsonWriters.Escape | lib/cstring.cpp:233-242 | The loop of `escapeJson` puts one backslash in front of every quote and every backslash and of nothing else: the result is longer by the number of quotes and backslashes, dropping each backslash and keeping the next character gives the string back, the result is well escaped, and a string with neither stays as it is |
| JsonText.EscapesExactly | lib/cstring.cpp:233-242 | Escaping adds one character for each quote and each backslash, unescaping undoes it, and a string with neither is not changed |
| JsonText.EscapedIsWellEscaped | lib/cstring.cpp:233-242 | In an escaped string every quote follows an odd run of backslashes, and the final run is even |
| JsonText.EscapeIsInjective | lib/cstring.cpp:233-242 | Different strings have different escaped forms |
| JsonRoundTrip.ReadBackExactly | ir/json_parser.cpp:127-140 | A string in quotes is read back as itself, whatever follows it, if and only if each of its quotes follows an odd run of backslashes and its final run is even |
| JsonRoundTrip.ReadsString | ir/json_parser.cpp:127-140 | The loop that looks for the closing quote goes on past escaped quotes and stops at the first other one |
| JsonRoundTrip.ReadsDoc | ir/json_parser.cpp:86-166 | For every way to lay out white space, and whatever follows, the reader takes exactly the text of a value and gives that value; only a number must not be followed by a digit |
| JsonRoundTrip.ReadsItems | ir/json_parser.cpp:109-126 | From any element on, the rest of an array is read as its remaining elements, up to and including the bracket |
| JsonRoundTrip.ReadsEntries | ir/json_parser.cpp:91-108 | From any entry on, the rest of an object is read as its remaining entries, in order, up to and including the brace |
| JsonRoundTrip.ReadsNumber | ir/json_parser.cpp:141-148 | A printed integer of any sign is read back when no digit follows it |
| JsonRoundTrip.PutNewKey | ir/json_parser.cpp:101 | A new key goes to the end of the ordered map |
| JsonReaders.Reader.ReadJson | ir/json_parser.cpp:86-166 | The reader over a stream with a position returns the value, or none, that the specification of the reader gives for the text that is left, leaves the same text and the same failure bit, and ends on every text |
| JsonReaders.Reader.ReadObject | ir/json_parser.cpp:91-108 | The loop over the entries, with its look at the character after each, reads what the specification reads; a repeated key overwrites the earlier value |
| JsonReaders.Reader.ReadVector | ir/json_parser.cpp:109-126 | The loop over the elements reads what the specification reads, and a comma before the bracket is let through |
| JsonLeniency.AnySeparator | ir/json_parser.cpp:109-126 | Any character but the bracket separates two elements, and one before the closing bracket is let through |
| JsonLeniency.UnclosedArray | ir/json_parser.cpp:109-126 | An array that is not closed has the elements that were read, and the stream fails |
| JsonLeniency.AnyColon | ir/json_parser.cpp:91-108 | Any character stands for the colon between key and value |
| JsonLeniency.PutAgain | ir/json_parser.cpp:101 | A key that occurs again gets its new value in its old place |
| JsonReaders.Reader.ReadStringValue | ir/json_parser.cpp:127-140 | The loop over `getline`, with its test of the backslash run, ends at the closing quote or at the end of the text |
| JsonReaders.Reader.ReadNumberValue | ir/json_parser.cpp:141-148 | A sign and digits are read as an integer; without digits the stream fails |
| JsonReaders.Reader.ReadToken | ir/json_parser.cpp:127-163 | Words are taken by their first letter and length, whatever their other letters are |
| FileFormats.WordRead | ir/json_parser.cpp:150-163 | A word that begins with t, f or n, in either case, is true, false or null with as many further letters as these words have; a character that begins no value is skipped |
| JsonReaders.TrailingBackslashes | ir/json_parser.cpp:131-132 | The count is the length of the final run of backslashes |
| SymbolIds.OrderIrrelevant | control-plane/p4RuntimeSerializer.cpp:359-389 | Any two orders of the same `add` calls, with no name repeated within a type and no explicit id claimed twice, lead to the same table of ids and the same set of assigned ids |
| SymbolHashes.CreatedFollowHashes | control-plane/p4RuntimeSerializer.cpp:446-487 | After any `add` calls every generated id follows from the name: it is the type in the top byte and below it the lower 16 bits of the hash, moved on in cyclic order to the first id that neither a call claims nor a generated name of the type that is smaller has; a name is left without id exactly when all are taken in this way. So names are served in their order, and types do not disturb each other |
| SymbolHashes.OwnIdExactly | control-plane/p4RuntimeSerializer.cpp:469-476 | The id of a generated name is that of its hash if and only if this id is not taken |
| SymbolHashes.OwnIds | control-plane/p4RuntimeSerializer.cpp:469-476 | When the hashes of a type differ in their lower 16 bits and lead to no claimed id, every generated id is the type and the hash |
| SymbolHashes.MovedByNeighbour | control-plane/p4RuntimeSerializer.cpp:469-476 | That nobody else claims or hashes to an id does not suffice: a claim can move one name to the id of another |
| SymbolIds.CreateOutcome | control-plane/p4RuntimeSerializer.cpp:359-371 | After any `add` calls and id assignment all ids over all types are distinct, all earlier ids are kept, every id that is generated is the type in the top byte and 16 bits below it, and a symbol is left without id only if all 65536 ids of its type are taken; which id it is, SymbolHashes says |
| SymbolIds.FirstClaimKept | control-plane/p4RuntimeSerializer.cpp:425-439 | The first explicit claim of a non-zero id is kept to the end |
| SymbolIds.IdAfterAdds | control-plane/p4RuntimeSerializer.cpp:380-389 | Of all calls for one name the first decides: the symbol has its explicit id if no earlier first call claimed it, and none otherwise |
| SymbolIds.AddKeepsDistinct | control-plane/p4RuntimeSerializer.cpp:380-389 | Adding a symbol changes no id that is there and keeps all ids distinct |
| SymbolHashes.NamesHaveFirstFree | control-plane/p4RuntimeSerializer.cpp:446-487 | Assignment for one type gives each pending name the first id in cyclic order from its hash that is neither in use nor given to a smaller name, and none when there is no such id |
| SymbolIds.AssignNamesOutcome | control-plane/p4RuntimeSerializer.cpp:446-487 | Assignment for one type keeps all ids distinct, touches only the pending symbols of the type, and gives each an id that was free or leaves it only when the type is full |
| SymbolIds.AssignKindsOutcome | control-plane/p4RuntimeSerializer.cpp:359-371 | Going through the types in order, what one type got is not disturbed by the next |
| SymbolIds.ProbeResult | control-plane/p4RuntimeSerializer.cpp:500-511 | Probing finds the first free id in cyclic order from the hash of the name, and finds none if and only if all 65536 ids of the type are taken |
| SymbolIds.KindsApart | control-plane/p4RuntimeSerializer.cpp:474-476 | An id is the type in the top byte and 16 bits below, never the invalid id, and ids of different types differ |
| SymbolIds.NoClashPermuted | control-plane/p4RuntimeSerializer.cpp:359-389 | Reordering calls creates no clash |
| SymbolTables.Create | control-plane/p4RuntimeSerializer.cpp:359-371 | The table that is built from a list of calls holds the ids of the specification, each generated one the first from the hash of its name that is not taken, and its suffix set holds exactly the names that were added |
| SymbolTables.SymbolTable.Add | control-plane/p4RuntimeSerializer.cpp:380-389 | A repeated call changes nothing; a new symbol gets its explicit id if that is free, and its name goes into the suffix set |
| SymbolTables.SymbolTable.TryToAssignId | control-plane/p4RuntimeSerializer.cpp:425-439 | An explicit id is granted once and stays taken; the invalid id is returned for a second claim and when there is no claim |
| SymbolTables.SymbolTable.ComputeIdsForSymbols | control-plane/p4RuntimeSerializer.cpp:446-487 | The loop over the pending names, in the order of names, gives each the first id from its hash that is neither in use nor given to a smaller name, as the specification does, and stops at the first name that finds none |
| SymbolTables.SymbolTable.ProbeForId | control-plane/p4RuntimeSerializer.cpp:500-511 | The loop over 32-bit values, which ends only when the value wraps around to where it began, returns the first free id or none, and always ends |
| Suffixes.AliasesEqual | control-plane/p4RuntimeSerializer.cpp:279-316 | Two symbols have the same alias if and only if the suffixes that are chosen for them are equal once empty components in front are dropped, as long as more than one component is left |
| Suffixes.AliasesDiffer | control-plane/p4RuntimeSerializer.cpp:279-316 | Different symbols have different aliases when the suffix chosen for each is one component or does not begin with an empty one |
| Suffixes.ChosenDiffer | control-plane/p4RuntimeSerializer.cpp:285-303 | Different symbols have different chosen suffixes |
| Suffixes.NoEmptyComponentIsPlain | control-plane/p4RuntimeSerializer.cpp:279-316 | The suffix that is chosen for a name without empty components loses nothing, so such names never share an alias |
| Suffixes.EmptyComponentCollision | control-plane/p4RuntimeSerializer.cpp:305-315 | With an empty component two symbols can get the same alias: `b` and `a..b` both become `b` |
| Suffixes.NeededResult | control-plane/p4RuntimeSerializer.cpp:285-303 | The suffix that is chosen belongs to one symbol only, or is the whole name, and no shorter suffix belongs to one symbol only |
| Suffixes.SerializeIsJoin | control-plane/p4RuntimeSerializer.cpp:305-315 | The components are put together with dots between them if and only if there is only one or the first one is not empty |
| Suffixes.JoinSplit | control-plane/p4RuntimeSerializer.cpp:256-259 | Splitting at dots loses nothing |
| Suffixes.SplitJoin | control-plane/p4RuntimeSerializer.cpp:256-259 | Joining components without dots and splitting again gives the components back |
| Suffixes.SuffixSet.AddSymbol | control-plane/p4RuntimeSerializer.cpp:239-277 | After any sequence of additions each node of the tree counts exactly the stored symbols that have the suffix on the path to it; a symbol that is there already changes nothing |
| Suffixes.SuffixSet.AddSuffixes | control-plane/p4RuntimeSerializer.cpp:269-276 | The walk along the components, with nodes made on the way, adds one to the count of every suffix of the symbol and to no other |
| Suffixes.SuffixSet.ShortestUniqueSuffix | control-plane/p4RuntimeSerializer.cpp:279-316 | For a stored symbol the walk down the tree returns its alias; for a name that leaves the tree before its suffix is unique it reports the internal error |
| BitVector.Bitvec.ShiftLeft | lib/bitvec.cpp:62-78 | With growth to as many words as needed the members become {i + n}, for every size and representation, as long as the vector ends with at most 2^31 words; in a larger one nothing moves, because the loop variable is an `int` |
| BitVector.ShiftLeftIsExact | lib/bitvec.cpp:62-78 | The result is the shift by the count if and only if the vector ends with at most 2^31 words, the count is 0 or the vector is empty |
| BitVector.Bitvec.ShiftRight | lib/bitvec.cpp:38-60 | For every size and every count the members become {i - m : i >= m}, where m is the count unless the word offset overflows the `int` that holds it, and none is left when that is negative; below 2^37 m is the count. The vector is trimmed to its last non-zero word, down to the one-word form |
| BitVector.ShiftIsExact | lib/bitvec.cpp:38-60 | The result is the shift by the count if and only if the count is below 2^37 or every member is below what is left of the count, or below the count itself when the offset is negative |
| WordSets.ShiftsInvert | lib/bitvec.cpp:38-78 | Shifting left and then right restores the set, and shifting right and then left removes exactly the members below n |
| WordSets.ShiftsCompose | lib/bitvec.cpp:38-78 | Shifting twice is shifting by the sum |
| WordSets.ShrRefines | lib/bitvec.cpp:47-53 | The word loop of `>>=`, which reads two neighbouring words for each, is the shift of the set |
| WordSets.ShlRefinesUp | lib/bitvec.cpp:70-76 | The word loop of `<<=`, which runs downwards, is the shift of the set when no member leaves the words |
| WordSets.Canonical | lib/bitvec.h:410-413 | Words are determined by the set that they stand for |
| BitVector.IntCastExact | lib/bitvec.cpp:45 | The cast of the word offset to `int` is exact if and only if the count is below 2^37 |
| BitVector.NegativeOffsetLosesAll | lib/bitvec.cpp:45-54 | From 2^37 up to 2^38 the offset is negative, and all members are lost |
| BitVector.WideShiftIsLost | lib/bitvec.cpp:45-51 | A shift right by 2^38 leaves every non-empty set of several words as it was, which is not the shift of the set |
| BitVector.Bitvec.Expand | lib/bitvec.h:451-474 | Growing keeps every word, fills with zeros and never ends below the size that was asked for, so the set is the same |
| BitVector.Bitvec.GetBit | lib/bitvec.h:266-267 | True exactly for members, also beyond the last word |
| BitVector.Bitvec.SetBit | lib/bitvec.h:182-188 | Exactly one bit is added, with growth where needed |
| BitVector.Bitvec.ClrBit | lib/bitvec.h:238-244 | Exactly one bit is removed, and nothing happens beyond the last word |
| BitVector.Bitvec.SetRange | lib/bitvec.h:189-204 | Exactly the bits in [idx, idx + sz) are added, for every alignment, word span and representation |
| BitVector.Bitvec.ClrRange | lib/bitvec.h:245-265 | Exactly the bits in [idx, idx + sz) are removed, also where the range passes the end of the vector |
| BitVector.Bitvec.GetRange | lib/bitvec.h:268-282 | The word that is returned has exactly the members of [idx, idx + sz), moved to 0 |
| BitVector.Bitvec.PutRange | lib/bitvec.h:283-301 | The bits in [idx, idx + sz) become those of the value, and all others stay |
| WordSets.FieldReadsBack | lib/bitvec.h:268-301 | What is read after a store is the stored value, masked to the width |
| BitVector.Bitvec.AndAssign | lib/bitvec.h:321-342 | Intersection; the result is true exactly when the set changed |
| BitVector.Bitvec.OrAssign | lib/bitvec.h:348-362 | Union; the result is true exactly when the set changed |
| BitVector.Bitvec.SubAssign | lib/bitvec.h:391-407 | Difference; the result is true exactly when the set changed |
| BitVector.Bitvec.Empty | lib/bitvec.h:316-319 | True exactly for the empty set |
| BitVector.Bitvec.PopCount | lib/bitvec.h:438-447 | The number of members |
| BitVector.Bitvec.Max | lib/bitvec.h:308-309 | The largest member, or -1 for the empty set |
| BitVector.Bitvec.FindFirstSet | lib/bitvec.cpp:107-123 | The least member from `start` on, or -1 when there is none |
| BitVector.Bitvec.FindFirstZero | lib/bitvec.cpp:125-140 | The least number from `start` on that is no member; the loop ends although it has no bound on the words |
| BitVector.Bitvec.IsContiguous | lib/bitvec.cpp:142-147 | True if and only if the set is one non-empty stretch: comparing a count with two ends decides it |
| BitVector.Bitvec.Next | lib/bitvec.h:85-99 | `++` goes to the next member, or to the end when there is none |
| BitVector.Bitvec.Prev | lib/bitvec.h:100-114 | `--` goes to the member before, from the end to the last one, or below 0 when there is none |
| BitVector.Bitvec.Ascending | lib/bitvec.h:85-99 | Iterating from `begin` lists exactly the members, ascending |
| BitVector.Bitvec.Descending | lib/bitvec.h:100-114 | Iterating backwards from the end lists exactly the members, descending |
| BitRanges.Ranges | lib/bitrange.h:26-49 | Iterating over ranges lists exactly the maximal stretches of members, in order, each separated from the next |
| BitRanges.RangeIter.Advance | lib/bitrange.h:31-37 | The range becomes the maximal stretch that begins at the iterator, which moves to the next stretch; at the end the iterator becomes invalid |
| BitRanges.ListsAllRuns | lib/bitrange.h:26-49 | A list of stretches that covers the set misses no maximal stretch and contains nothing else |
| WordSets.DenseIsRun | lib/bitvec.cpp:142-147 | A set between its least and its largest member is one stretch if and only if it has as many members as the stretch |
| Comparison.ExplodedIsEqual | midend/complexComparison.cpp:21-128 | For well-typed operands of any nesting of headers, structs, unions, stacks and lists, in either order, the comparison by fields evaluates to deep equality, and evaluation never reads a field of an invalid header |
| Comparison.HeadersEqual | midend/complexComparison.cpp:43-77 | Headers are equal when both are invalid, or both valid with equal fields; the validity tests come first and keep fields of invalid headers from being read |
| Comparison.StructsEqual | midend/complexComparison.cpp:78-98 | Structs and unions, also against lists, are equal when all fields are |
| Comparison.StacksEqual | midend/complexComparison.cpp:99-111 | Stacks are equal when all elements are |
| Comparison.TuplesEqual | midend/complexComparison.cpp:112-124 | Lists are equal when all components are, component by component in the same order |
| Comparison.RewrittenMeansTheSame | midend/complexComparison.cpp:130-142 | Whenever the pass returns an expression, it has the value of the comparison that it replaces, for equality and inequality |
| Comparison.ExplodesExactly | midend/complexComparison.cpp:36-128 | The pass returns if and only if lists stand for everything of a tuple type that it takes apart: at every depth, except for a tuple without components that is not on the left of another tuple |
| Comparison.TupleFieldFails | midend/complexComparison.cpp:112-119 | Two structs with a tuple for a field are comparable, but the pass does not return: a member of tuple type is taken for a list |
| Comparison.DeepEqualSymmetric | midend/complexComparison.cpp:36-41 | Equality does not depend on the order of the operands, which justifies the swap |
| FlattenStructs.StructTypeReplacement.constructor | midend/flattenInterfaceStructs.cpp:37-42 | The fields of the flat struct are the leaves in order, the keys of the name map are exactly the leaf paths, the keys of the struct map exactly the internal paths, and every path is mapped to its own flat name or struct |
| FlattenStructs.StructTypeReplacement.Flatten | midend/flattenInterfaceStructs.cpp:21-35 | Flattening a part adds its leaves, in order and after those before, and its internal paths, and overwrites no entry |
| FlattenStructs.LeavesDistinct | midend/flattenInterfaceStructs.cpp:21-35 | No two leaves of a struct with distinct field names have the same path |
| FlattenStructs.LeavesInOrder | midend/flattenInterfaceStructs.cpp:21-35 | Leaves come in the order of the fields, those of a nested struct in the place of its field |
| FlattenStructs.FlatNamesCollide | midend/flattenInterfaceStructs.cpp:31-32 | Two flat names are equal if and only if the longer number extends the shorter one to the left by digits with which the name of the other field ends |
| FlattenStructs.FlatNamesDiffer | midend/flattenInterfaceStructs.cpp:31-32 | Flat names differ when the field that comes first has no decimal digit at its end |
| FlattenStructs.CollidingNames | midend/flattenInterfaceStructs.cpp:31-32 | Field `a1` as leaf 1 and field `a` as leaf 11 get the same flat name |
| ExplodeStructs.FlattenThenExplode | midend/flattenInterfaceStructs.cpp:21-61 | Flattening a value and exploding it again gives the value back, whenever the flat names differ |
| ExplodeStructs.KeptExactly | midend/flattenInterfaceStructs.cpp:21-61 | Every value of a type comes back from flattening and exploding if and only if the flat names of the type differ |
| ExplodeStructs.ExplodedIsValue | midend/flattenInterfaceStructs.cpp:44-61 | Every nested field is read from its own flat field, at every level and under its own name |
| ExplodeStructs.NoLeafIsInternal | midend/flattenInterfaceStructs.cpp:51-57 | No path is both a leaf and an internal path, so the choice between the two maps is never ambiguous |
| ExplodeStructs.NoDigitsNamesDiffer | midend/flattenInterfaceStructs.cpp:31-32 | Flat names are pairwise distinct for every type in which no leaf field ends in a decimal digit |

## Left out

- BitVector.Bitvec.ShiftRight: vectors have fewer than 2^61 words, as many as the address space can hold.
- BitVector.Bitvec.ShiftLeft: vectors end with at most 2^32 words (32 GiB), beyond which the `int` loop variable and offset wrap around more than once, and an empty vector is not shifted by exactly 2^37, for which the loop reads beyond the words. For an empty one-word vector and a count of 64 the C++ shift of a word by its width is undefined; the model gives the empty set. That there is memory for a larger vector is taken for granted.
- BitVector.Bitvec.AndAssign: the other vector may be the same object, but two different vectors have words of their own.
- Positions and sizes of bits are mathematical integers; 32-bit and 64-bit overflow of `idx + sz` is not modelled. `getslice`, `setraw`, `^=` and the comparisons of bit vectors are left out.
- Modifiers.Modifier.Apply: the preorder is the identity, postorder is a function of the fields and the rewritten children, and each node is visited once (`visitDagOnce`); what postorder puts into fields is made of new nodes, of the rewritten children and of what lies below them. `revisit` callbacks, `refVisitOnce`, `revisit_visited`, `Transform`, and edits that depend on the context of a visit are left out.
- JoinFlows.JoinFlowInspector.Apply: no node is filtered out by `filter_join_point`, the preorder lets every node be visited, and the graph is acyclic. `parallel_visit` and the cloning of flows for branches are left out.
- Inspectors.Inspector.Apply: the variant in which nodes are visited again (`visitDagOnce` off) is modelled only in `SetupJoinPoints`.
- IndexedVectors.IndexedVector.Insert: all elements are declarations, and the order of entries in the index is not modelled.
- PassManagers.PassManager.ApplyVisitor: what passes do is arbitrary and comes from a script; a run that the script does not complete is unfinished. Debug hooks, `seqNo`, logging and garbage collection are left out, and so are nested managers' own `backtrack` and `never_backtracks`.
- PassManagers.ApplyRepeated: a script of rounds takes the place of the nested runs, so it may end before the repetition does; `PassRepeatUntil` is left out.
- PacketLengthExact.WalkIsMaximum: control bodies are trees (each table, action and package is entered once), no operations hide in conditions or selectors, and the sum of all widths is below 2^32, where the counters wrap around. Returns are removed by an earlier pass.
- The records of valid and invalid headers (`xoredHdrValidityOps`) are left out; nested branches mix records of different paths.
- JsonGraphRoundTrip.LoadsCopy: fields are known by their position (`LibraryFiles` gives them names), source positions are not modelled, ids are distinct and not negative, and graphs are acyclic.
- LibraryFiles.FileRoundTrip: the children of a node are fields and the elements of one array; objects whose keys are names of nodes, such as `declarations` and `symbols`, are left out. Fields without nodes are arbitrary JSON values.
- JsonWriters.PrintedIsReadBack: null pointers in arrays and objects, floating-point numbers and the printer of `JsonData` (which does not quote keys) are left out.
- JsonReaders.Reader.ReadJson: where the original leaves the result unset, for text that is no JSON, there is no value; an entry whose key is no string ends the reading of the object.
- SymbolTables.Create: the hash of names is an arbitrary function into 32 bits; type numbers of properties about distinct ids are 1 to 255.
- Protobuf messages, annotations and architectures around the symbol table are left out.
- Comparison.ExplodesExactly: fields are known by their position, and type and reference maps are taken as resolved; side effects in operands are left out.
- FlattenStructs.StructTypeReplacement.constructor: field names of one struct differ and contain no dot. The passes that find the types and replace them in declarations are left out, and so is the duplicate that the vector of fields reports when flat names coincide.
- Symbolic values and stack shifts of the interpreter, `DoCopyStructures`, the text form of `LTBitMatrix`, and simple passes are left out.
