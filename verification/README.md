# Aftermath core: a verified model

Aftermath analyses traces of parallel programs. This project models the parts of
its core library and of the call-graph reconstruction in its user interface that
carry the algorithmic weight, and proves what they promise for all inputs.

Each component comes in two layers. Pure functions say what an operation
computes, and lemmas prove properties of them: invariants over every run, least
fixpoints, round trips, conservation of time, permutation. Code that changes
things in place is a class or a method over arrays, sequences and maps with the
loops of the original; its contract ties the new state to the function, so that
the lemmas hold of it.

## Components

**Dataflow graphs and their scheduling** (`dfg_schedule.c`, `dfg_node.c`,
`dfg_node.h`). `Digraph` and `DataflowGraph` hold paths, cycles and graphs whose nodes
have typed ports with symmetric connections. `MaskNegotiation` is the worklist that
spreads port masks until nothing changes; it ends at the least assignment closed under
the four propagation rules, and `NegotiationLimits` shows that this does not depend on
the order of evaluation and fails exactly for nodes connected to themselves.
`DependencyCounters` relates the counters left behind to the activated inputs, and
`StaleCounters` says for which node types that can go wrong. `NodeScheduling`,
`ProcessingOrder` and `ProcessingRun` are the second worklist, which processes nodes
whose counter is zero, and `ListOrders` the order in which they wait;
`GraphScheduling` and `ComponentScheduling` put both together, for a whole graph and
for the component of one node. `Generations` follows the generations of data over runs
and passes, and `Freshness` says which requests for new data are served: exactly those
for which some generation differs. `NodeMarking` says exactly what the recursive
searches do to the markings of nodes, whatever these are; `SharedMarkings` says what
it means for them that the search for cycles uses the same field
(`dfg_node.h:725-726`), and `LeftOvers` what happens to a call whose reset leaves
nodes out. Class `Scheduler.Schedule` is the program itself, with fields for masks,
counters, generations, markings and the list.

**Cycles and changes of the graph** (`dfg_graph.c`). `CycleCheck` is the
three-coloured depth-first search with an extra and an ignored connection and the
path it returns; `GraphEditing` connects, disconnects and moves connections, and
shows that checking before connecting keeps a graph acyclic.

**Object notation** (`object_notation.c`, `parser.h`, `ansi_extras.c`,
`ansi_extras.h`). `Escaping` escapes strings and unescapes them in place,
`Numbers` converts decimal numbers with exact overflow checks, and `Lexing` holds
the tokens. `ObjectNotation` defines the printed form and the meaning of text,
`NotationRoundTrip` says exactly when they undo each other, and `ParsedTrees` what
loading, saving and loading again keeps. All this could hold of a parser and a printer
that agree on something else than the notation; therefore `NotationGrammar` states the
language without the parser, which reads exactly that, `NotationLayout` describes the
printed lines, `EscapeSequences` the meaning of each escape sequence, and `NumberTexts`
the texts that denote numbers. `NotationIO.Printer` and
`NotationParser.Parser` are the program, with an output stream and a position in
the text.

**Call graphs** (`AftermathSession.cpp`, with `PARSE_SFP` defined). `CallGraph`
is the stack machine over frames sorted by start, `CallGraphPeriods` the periods
that it cuts out of frames, and `CallGraphBuilder.Builder` the program with its
stack and maps.

**Generic algorithms.** `Sorting` (`qsort.h`, `qselect.h`), `IntervalSearch`
(`bsearch.h`, `interval_array.h`), `TreeWalk` (`dfs.h`, `circular_buffer.h`),
`Hierarchy` (`hierarchy.h`) and `Bits` (`bits.h`, the masks of `dfg_node.h`).
`Wrappers` holds an option type.

## Where the code does something else than one would expect

The model follows the code in each case.

- A change of a node's own masks while it is evaluated counts as propagated
  (`dfg_schedule.c:225`), so that a negotiation that succeeds can leave a rule
  violated. This happens exactly in graphs with a node connected to itself
  (`NegotiationLimits.ClosesIffNoSelfLoop`). The results on components therefore
  exclude such nodes: already the first promise, that the negotiation ends at masks
  that satisfy all rules, fails there (`NegotiationLimits.SelfLoopBreaksComponent`).
  The results on whole graphs do not rest on it.
- A counter is only computed when its node is evaluated. An input that pulls new
  but never old data can be activated later. Counters of a component are right for
  all graphs exactly if all inputs of the node types pull old data
  (`StaleCounters.ExactIffPullsOld`).
- Marking a component replaces its own visited mark (`dfg_schedule.c:76`), so that
  nodes are explored again along other paths. It ends nevertheless, and marks the
  whole component exactly if none of its nodes is being marked beforehand
  (`NodeMarking.MarksComponentIff`).
- The search for cycles uses the same field with other meanings for the numbers
  (`dfg_graph.c:240-244`, `dfg_schedule.c:23-33`) and does not clear it afterwards. A
  search that finds a cycle can leave nodes that the next reset of their component
  takes for reset ones and leaves out (`SharedMarkings.StaleAfterCheck`). The reset
  covers the component exactly if no node is stuck in this way
  (`NodeMarking.ResetsComponentIff`), and then all promises hold
  (`SharedMarkings.UnstuckRunKeepsPromises`). Otherwise counters that are left over
  break them (`LeftOvers.AlwaysNegotiatesIff`), and those of an earlier successful call
  make the next one fail or leave out nodes (`LeftOvers.SecondCallBreaks`). A search
  that finds no cycle does no harm, nor does the scheduler itself.
- Instances of nodes are allocated without being cleared, and neither markings nor
  counters are set (`dfg_node.c:659-710`). A fresh `Scheduler.Schedule` therefore
  starts with arbitrary ones.
- A node that requests new data is only processed itself if it feeds a consumer that
  has not seen its data, and otherwise its inputs keep their generations. In acyclic
  graphs a request for new data that has been served once is therefore served every
  time, with or without new data (`Freshness.SameRequestAgain`). As nothing is awaited
  in such a call, a node can be processed before its producer, and then the function
  of the producer is not called for it any more (`Freshness.LazyNodes`).
- A frame that starts at the instant at which another ends is recorded as its child
  (`AftermathSession.cpp:655`). Parents enclose their children exactly if in the
  sorted order of any two frames the first one encloses the second, or has ended
  before it starts (`CallGraph.ParentsEncloseIffLaminar`).
- Frames are sorted by their starts only, and the sort is not stable: of two frames
  that start together it puts the second one first (`CallGraphBuilder.SortFrames`). If
  that one ends first, it becomes the parent of the frame that encloses it
  (`CallGraph.EqualStarts`). The order makes no difference exactly if any two frames
  are apart or nested and frames that start together end together
  (`CallGraph.AlwaysLaminarIffNested`).
- Scheduling a graph makes all inputs pull old data and nothing else
  (`dfg_schedule.c:489-495`). An output without dependencies, as that of a constant
  (`bool_constant.h:53-63`), does not push then, so that its consumers and all that
  follows them are never processed, and the call succeeds nevertheless
  (`GraphScheduling.ConstantStarvesFunction`). Exactly the nodes on cycles, the nodes
  with such a producer and all nodes downstream of them are left out
  (`GraphScheduling.ScheduleGraphProcesses`).
- Comments at `dfg_graph.c:249` and `:343` allow the extra connection to be absent,
  but it is dereferenced unconditionally (`dfg_graph.c:281`); it is always present
  in the model.
- The test for roots of the cycle search (`dfg_node.c:774-777`) accepts every node
  but one whose input is the ignored destination and has another producer. The
  search is right nevertheless, but it returns no path for a cycle that is only found
  by the final look for unmarked nodes (`CycleCheck.PathIsLost`). A path is returned
  exactly if one is wanted and some node taken for a root leads to a cycle, which is
  always so if nothing is ignored, or a connection that exists
  (`CycleCheck.HasCycle`).
- If a connection cannot be moved, the old one is lost (`dfg_graph.c:206`).
- The searches over intervals (`bsearch.h:115-223`) only compare with the middle, and
  can miss overlaps if starts ascend but ends do not
  (`IntervalSearch.EnclosingIsMissed`). When they and the loop over both results are
  right for all queries is stated in `IntervalSearch.FirstIffDominated`,
  `LastIffShielded` and `LoopIffSearchable`; ends that ascend, as those of periods do,
  are sufficient.
- A push to an empty circular buffer leaves it empty (`circular_buffer.h:53-57`),
  so that the traversal always falls back to looking up child indexes. Its
  documentation lets depths start at zero (`dfs.h:48`), its code at one
  (`dfs.h:56`).
- Printing a string escapes characters from 128 on as negative numbers, of which the
  buffer keeps two digits (`ansi_extras.c:136`), so that all of them are read back as
  255. What is printed for infinite doubles cannot be parsed
  (`NotationRoundTrip.InfinityIsNotRead`). Parsing a printed tree gives the same tree
  exactly if all doubles are finite, no string holds a character from 128 to 254, and
  nothing follows that goes on a single double (`NotationRoundTrip.ParsePrintedIff`).
- Lists and groups may end with a comma, as in the shipped profiles
  (`aftermath/share/profiles/min/interface.amgui.in:20-21`), although comments on the
  parser show none (`NotationGrammar.ItemsExact`, `NotationGrammar.MembersExact`).
- Comments on the parsers of integers say that overflow is not checked
  (`object_notation.c:373`, `:400`); it is, and makes them fail. A lone minus sign
  converts to zero (`ansi_extras.h:334-367`), but no literal consists of one.

## Model

| member | source | states |
|---|---|---|
| `MaskNegotiation.ConvergeReachesLeastClosed` | libaftermath-core/src/dfg_schedule.c:445-454 | On a graph without self-loops the negotiation succeeds exactly if some well-typed assignment above the start satisfies all four propagation rules, and then ends at the least such assignment |
| `MaskNegotiation.ConvergeNegotiates` | libaftermath-core/src/dfg_schedule.c:136-238 | Every run keeps: propagated masks lie within negotiated ones, agree with them off the list and have been acted upon; nodes outside the component are not touched |
| `MaskNegotiation.StepNegotiates` | libaftermath-core/src/dfg_schedule.c:199-238 | One evaluation keeps that invariant, whichever listed node is evaluated |
| `MaskNegotiation.StepStartable` | libaftermath-core/src/dfg_schedule.c:445-454 | Why the loop ends: an evaluation either fills missing mask bits or shortens the list |
| `MaskNegotiation.ConvergeBelow` | libaftermath-core/src/dfg_schedule.c:136-238 | Every assignment that satisfies the rules and lies above the start bounds the whole run, and its existence alone keeps the run from failing |
| `MaskNegotiation.PropagateHonours` | libaftermath-core/src/dfg_schedule.c:136-195 | A propagation that succeeds has offered the masks of all connected ports; one that fails has met a port of the wrong direction |
| `MaskNegotiation.OfferGrows` | libaftermath-core/src/dfg_schedule.c:159-169 | An offer only adds bits, and a node whose mask grows is in the list afterwards |
| `MaskNegotiation.MaskOperations` | libaftermath-core/src/dfg_node.h:99-130 | Bit by bit, applying a mask is an or, the difference of two masks an exclusive or, and the subset test an implication |
| `NegotiationLimits.AnyOrderReachesLeastClosed` | libaftermath-core/src/dfg_schedule.c:445-454 | The result does not depend on the order in which listed nodes are evaluated |
| `NegotiationLimits.SelfLoopIsSwallowed` | libaftermath-core/src/dfg_schedule.c:225 | On every graph with a self-loop, pure-functional node types make the negotiation report success with a rule violated |
| `NegotiationLimits.ClosesIffNoSelfLoop` | libaftermath-core/src/dfg_schedule.c:199-238 | Whatever the masks, a successful negotiation satisfies every rule if and only if no node is connected to itself; so it is for masks built from definitions |
| `NegotiationLimits.SelfLoopBreaksComponent` | libaftermath-core/src/dfg_schedule.c:518-530 | So a call on a component with a self-loop can end its negotiation at masks that violate a rule, with pure-functional nodes and after a proper reset |
| `DependencyCounters.CountersExact` | libaftermath-core/src/dfg_schedule.c:227-235 | After a successful negotiation each counter equals the number of activated inputs, if all inputs are set to pull or the inputs of all types pull old data |
| `DependencyCounters.StepCounts` | libaftermath-core/src/dfg_schedule.c:227-235 | A counter lies between the surely awaited and the currently activated inputs of its node until the node is evaluated again |
| `StaleCounters.ExactIffPullsOld` | libaftermath-core/src/dfg_schedule.c:227-235 | For a node type, the counters are right in every graph built with it if and only if all its inputs pull old data when told of new or of old data |
| `StaleCounters.CounterIsStale` | libaftermath-core/src/dfg_schedule.c:225-235 | For every type with an input that does not, an acyclic graph in which the negotiation succeeds and an activated input leaves its counter at zero, whether or not its outputs push old data |
| `StaleCounters.ProcessingFails` | libaftermath-core/src/dfg_schedule.c:405-420 | In that graph processing then reports an error although no process function fails |
| `StaleCounters.ChainTypesAreBuilt` | libaftermath-core/src/dfg_node.c:328-373 | The other two nodes of that graph have port types that the program itself builds |
| `StaleCounters.StaleTypeIsBuilt` | libaftermath-core/src/dfg_node.c:307-323 | So is a type of the kind in question: a single input without dependencies |
| `NodeTypes.PureNodeGuarantees` | libaftermath-core/src/dfg_node.c:328-373 | Types with pure-functional dependencies name ports of the right direction, answer requests with old data and pull what they are told of, whatever explicit dependencies are added |
| `NodeTypes.PureGraphGuarantees` | libaftermath-core/src/dfg_node.c:328-373 | Graphs of such types meet all conditions of the scheduling results |
| `NodeTypes.BuiltMasks` | libaftermath-core/src/dfg_node.c:307-454 | Bit by bit, which ports the masks of a port name: those of its explicit dependencies, those of the default dependencies of pure functions, and, for an output asked for new data, itself |
| `DataflowGraph.OnlyProducer` | libaftermath-core/src/dfg_graph.c:142-150 | The output connected to an input is its only connection |
| `ProcessingOrder.DeliverKeeps` | libaftermath-core/src/dfg_schedule.c:405-423 | A delivery to a port not served before never meets a counter that is zero already, and each counter stays the number of activated inputs not yet served |
| `ProcessingRun.ProcessKeeps` | libaftermath-core/src/dfg_schedule.c:362-428 | A listed node can always be processed; only its own process function can fail; the invariant of processing is kept |
| `ProcessingRun.ScheduleNodesKeeps` | libaftermath-core/src/dfg_schedule.c:461-470 | Over a whole run no node is processed twice or before the producers of its activated inputs |
| `ProcessingRun.ScheduleNodesSyncs` | libaftermath-core/src/dfg_schedule.c:380-403 | At the end of a run all connected inputs that processed nodes pull, activated or not, carry the generation of their producers, and no output generation is zero |
| `ProcessingRun.NeededIsCalled` | libaftermath-core/src/dfg_schedule.c:384-398 | The process function of a node is called if it has an activated input, an output that pushes new data, or a consumer that pulls data of any age, and only if it has one of these or a consumer that pulls new data |
| `ProcessingRun.SuccessMeansNoFailure` | libaftermath-core/src/dfg_schedule.c:396-398 | A run that succeeds has processed no node whose process function fails and is called for one of the first three reasons |
| `ProcessingRun.FailureHasCause` | libaftermath-core/src/dfg_schedule.c:396-398 | A run that fails has come, with its invariant intact, to a ready node whose process function fails and that is called for one of the four |
| `ListOrders.FailureLeaves` | libaftermath-core/src/dfg_schedule.c:375-398 | A process function that fails leaves all counters, lists and generations as they were, but those of the outputs of its node that push new data |
| `ListOrders.ProcessOnTop` | libaftermath-core/src/dfg_schedule.c:405-423 | What processing a node makes ready comes before everything that has been listed |
| `ListOrders.ReadyNodesDescend` | libaftermath-core/src/dfg_schedule.c:500-502 | The nodes ready when a pass begins are listed from the last one of the graph to the first |
| `ListOrders.PushFrontOrder` | libaftermath-core/src/dfg_schedule.c:99-104 | Moving a node to the front of a list leaves the others in their order |
| `ProcessingRun.LeftOversAwait` | libaftermath-core/src/dfg_schedule.c:461-470 | A node left over awaits an input that no processed node serves |
| `NodeScheduling.ProcessLowers` | libaftermath-core/src/dfg_schedule.c:405-423 | Why processing ends: deliveries lower the sum of counters or change nothing |
| `SchedulerState.NextGeneration` | libaftermath-core/src/dfg_node.h:347-356 | Incrementing a generation gives a different 64-bit value that is never zero; Generations.RenewalsGoRound says that it is the next one of the cycle |
| `Generations.RenewalsGoRound` | libaftermath-core/src/dfg_node.h:347-356 | Repeated increments go round the numbers from 1 to the largest 64-bit number |
| `Generations.NoGenerationComesBack` | libaftermath-core/src/dfg_node.h:347-356 | Fewer increments than there are such numbers never give a generation a second time |
| `Generations.RunAdvances` | libaftermath-core/src/dfg_schedule.c:380-403 | Over a run exactly the outputs of processed nodes that push new data advance, each by one step of that cycle; all other outputs and all nodes that are not processed keep their generations |
| `Generations.PassAdvances` | libaftermath-core/src/dfg_schedule.c:480-509 | A pass that succeeds advances exactly the outputs that push new data of the nodes that are not blocked |
| `Generations.MasksIgnoreGenerations` | libaftermath-core/src/dfg_schedule.c:487-498 | The masks of a pass do not depend on generations |
| `Generations.PassesAdvance` | libaftermath-core/src/dfg_schedule.c:480-509 | After any number of passes without failures these outputs have advanced by that number of steps, and all other outputs by none |
| `Generations.PassesNeverRepeat` | libaftermath-core/src/dfg_schedule.c:480-509 | So no two of such passes leave the same generation at such an output, unless as many lie between them as there are generations |
| `Generations.GenerationsCountPasses` | libaftermath-core/src/dfg_node.c:659-710 | Counted from the instantiation of the graph, the generation is one more than the number of passes |
| `GraphScheduling.GraphCounters` | libaftermath-core/src/dfg_schedule.c:487-498 | For any well-typed masks and any connections, also of nodes with themselves, the negotiation of a whole graph succeeds and each counter equals the number of connected inputs |
| `GraphScheduling.StepPulls` | libaftermath-core/src/dfg_schedule.c:199-238 | One evaluation on a whole graph keeps: masks are well-typed, all inputs pull, pulls that count as propagated have been acted upon, and counters off the list are those of all connected inputs |
| `GraphScheduling.ScheduleGraphIsSafe` | libaftermath-core/src/dfg_schedule.c:480-509 | Scheduling a graph fails only if a process function fails; nodes are processed at most once and after the producers of all their connected inputs |
| `GraphScheduling.ScheduleGraphFailsIff` | libaftermath-core/src/dfg_schedule.c:480-509 | Scheduling a graph fails if and only if a process function fails of a node that is not blocked and has a connected input or a connected output that pushes |
| `GraphScheduling.ScheduleGraphProcesses` | libaftermath-core/src/dfg_schedule.c:480-509 | If it succeeds, for any well-typed masks and any connections exactly the nodes are processed that are not blocked: nodes on a cycle, nodes with a connected input whose producer does not push in the negotiated masks, and all nodes downstream of such a node wait for ever |
| `GraphScheduling.GraphMasksAreLeast` | libaftermath-core/src/dfg_schedule.c:487-498 | The negotiated masks of that condition are the least ones in which all inputs pull old data and all rules hold, if no node is connected to itself |
| `GraphScheduling.AnsweringGraphProcesses` | libaftermath-core/src/dfg_schedule.c:480-509 | If the outputs of all types push old data when asked for data of any age, exactly the nodes are processed that are neither on a cycle nor downstream of one |
| `GraphScheduling.ConstantStarvesFunction` | libaftermath-core/src/dfg_schedule.c:480-509 | Scheduling an acyclic graph in which a type without dependencies, such as a constant, feeds a pure function succeeds without ever processing the function |
| `GraphScheduling.PureAcyclicGraphIsFullyScheduled` | libaftermath-core/src/dfg_schedule.c:480-509 | On acyclic pure-functional graphs whose process functions succeed, every node is processed once, in topological order, and all connected inputs are up to date |
| `GraphScheduling.ScheduleGraphGenerations` | libaftermath-core/src/dfg_schedule.c:380-403 | Scheduling keeps generations valid and brings inputs of processed nodes up to date |
| `GraphScheduling.GenerationsOverPasses` | libaftermath-core/src/dfg_node.h:347-356 | Over any sequence of passes, with any failures and wrap-around, no output generation is zero, and a pass that succeeds brings inputs up to date |
| `ComponentScheduling.ComponentNegotiation` | libaftermath-core/src/dfg_schedule.c:518-530 | For a component with suitable port types the negotiation succeeds, ends at the least masks, leaves exact counters, and every node with a mask is within reach of the search for roots |
| `ComponentScheduling.ComponentProcessing` | libaftermath-core/src/dfg_schedule.c:532-544 | Processing a component, in any order of roots, fails only with the process function of a node that is reached and perhaps called, and succeeds only if no processed node has a process function that fails and is called for certain; exactly the roots and the nodes with an activated input that are not blocked along activated inputs are processed, once and in order |
| `ComponentScheduling.FoundRootsAreRoots` | libaftermath-core/src/dfg_schedule.c:262-297 | The search along ports in use finds exactly the roots of the component |
| `ComponentScheduling.PureAcyclicComponentIsFullyScheduled` | libaftermath-core/src/dfg_schedule.c:518-544 | On acyclic pure-functional graphs whose process functions succeed: if any node of the component has an activated input, the call succeeds and processes exactly the roots and the nodes with activated inputs, in order; it fails only if no node has one and there is no root |
| `ComponentScheduling.NoRootsNothingAwaited` | libaftermath-core/src/dfg_schedule.c:535-538 | If the search finds no root in an acyclic component, none of its nodes has an activated input |
| `ComponentScheduling.RootsRun` | libaftermath-core/src/dfg_schedule.c:241-258 | A root has no activated input, so that it is never blocked and always processed |
| `ComponentScheduling.RootsFoundAndProcessed` | libaftermath-core/src/dfg_schedule.c:532-544 | From the negotiated state on: without roots the call fails; otherwise processing has the outcome promised and keeps generations valid and inputs in step |
| `ComponentScheduling.ComponentRunKeepsPromises` | libaftermath-core/src/dfg_schedule.c:518-544 | Every call on a component with suitable port types negotiates the least masks, fails only without roots or with a process function, and otherwise processes exactly the roots and the nodes with activated inputs that are not blocked by a cycle of such inputs or by a producer that does not push, in order |
| `Freshness.ListedIffStale` | libaftermath-core/src/dfg_node.h:811-829 | A node that awaits nothing and whose only connected pushing output has old data, which no consumer pulls regardless of age, is listed and processed if and only if a consumer that pulls new data has another generation |
| `Freshness.PlainPureIsOnDemand` | libaftermath-core/src/dfg_node.c:328-373 | Pure-functional nodes without explicit dependencies answer requests for new data without pulling old data or pushing new data |
| `Freshness.OnDemandNegotiation` | libaftermath-core/src/dfg_schedule.c:199-238 | On such graphs a request for new data is negotiated without any pull for old data or push of new data in the component |
| `Freshness.ActivatedIffStale` | libaftermath-core/src/dfg_node.h:777-829 | Then an input is never activated, and an output exactly if one of its consumers pulls new data and has another generation |
| `Freshness.CalledIffStale` | libaftermath-core/src/dfg_schedule.c:384-398 | A process function is called exactly if its node feeds such a consumer |
| `Freshness.LazyNodes` | libaftermath-core/src/dfg_schedule.c:461-470 | A run processes exactly the listed nodes in their order and brings the inputs that they pull up to date; it fails if and only if some listed process function fails while its node feeds a stale input of a node not processed before |
| `Freshness.RequestIsAnswered` | libaftermath-core/src/dfg_schedule.c:518-544 | A request for new data is answered by exactly the nodes that feed a stale input, each once; it fails exactly if there are none, or a process function fails that is called |
| `Freshness.StaleRequestIsServed` | libaftermath-core/src/dfg_schedule.c:518-544 | If an input that a node requests has another generation than its producer, that producer is processed, and the call succeeds if no process function fails |
| `Freshness.FirstRequestIsServed` | libaftermath-core/src/dfg_node.c:659-710 | In a graph just instantiated the first request for new data from a connected input succeeds and processes its producer |
| `Freshness.UpToDateRequestFails` | libaftermath-core/src/dfg_schedule.c:535-538 | If all connected inputs of the component are up to date, a request for new data finds no root, fails and changes no generation |
| `Freshness.PassSettlesRequests` | libaftermath-core/src/dfg_schedule.c:535-538 | So it does right after a pass over an acyclic graph of pure functions |
| `Freshness.SameRequestAgain` | libaftermath-core/src/dfg_schedule.c:518-544 | A second request finds exactly the inputs stale whose nodes have not been processed; in acyclic graphs the last of them never is, so that a request served once is served every time, with or without new data |
| `Freshness.CallAdvances` | libaftermath-core/src/dfg_schedule.c:380-403 | A call that succeeds advances exactly the outputs that push new data of the nodes that it processes |
| `Freshness.NewDataIsNoticed` | libaftermath-core/src/dfg_schedule.c:380-403 | Once an input is up to date, calls that each renew its producer leave it stale, except after full rounds of all generations |
| `Freshness.NewConnectionIsStale` | libaftermath-core/src/dfg_node.c:117-122 | A connection that has just been made counts as new data |
| `NodeMarking.PaintingCompletes` | libaftermath-core/src/dfg_schedule.c:58-77 | Marking a node, painting its neighbours and painting the node paints all that is reachable past nodes being marked |
| `NodeMarking.MarksComponentIff` | libaftermath-core/src/dfg_schedule.c:58-77 | Marking gives the whole component the mark if and only if no node of it is being marked beforehand; nodes outside keep their marks, and so do nodes being marked |
| `NodeMarking.ExploredExactly` | libaftermath-core/src/dfg_schedule.c:262-288 | A search that stops at nodes seen before marks exactly the nodes reached by a walk around these |
| `NodeMarking.ResetsComponentIff` | libaftermath-core/src/dfg_schedule.c:305-320 | After the marking, the reset covers the component if and only if none of its nodes is stuck: still carries the number of reset nodes, because nodes being marked shield it |
| `NodeMarking.QuietIsUnstuck` | libaftermath-core/src/dfg_schedule.c:522-523 | If no node is being marked, as the scheduler itself leaves them, no node is stuck |
| `NodeMarking.ResetIsNotSeen` | libaftermath-core/src/dfg_schedule.c:292-297 | If no node of the component is stuck, the search for roots starts with none of its nodes visited |
| `SharedMarkings.UnstuckRunKeepsPromises` | libaftermath-core/src/dfg_schedule.c:518-544 | Scheduling a component in which no node is stuck keeps all promises, whatever markings earlier calls have left |
| `LeftOvers.AlwaysNegotiatesIff` | libaftermath-core/src/dfg_schedule.c:518-530 | On a component with suitable port types every call negotiates properly, whatever masks and counters earlier calls have left, if and only if no node is stuck |
| `LeftOvers.SecondCallBreaks` | libaftermath-core/src/dfg_schedule.c:518-544 | After a successful call, the same call with a node that is stuck and has an activated input leaves a wrong counter; then it fails, or does not process the producer of that input, although the first call did |
| `LeftOvers.FullNodesAreLeftAlone` | libaftermath-core/src/dfg_schedule.c:159-169 | A node that has all masks it can get is not evaluated again, so that its counter stays as it was left |
| `LeftOvers.RunMeetsZero` | libaftermath-core/src/dfg_schedule.c:414-415 | A run that succeeds has not processed the producer of an activated input whose counter was zero from the start |
| `SharedMarkings.AcyclicCheckIsHarmless` | libaftermath-core/src/dfg_graph.c:365-387 | A search for cycles that finds none leaves all nodes being marked: marking has no effect then, yet no node is stuck |
| `SharedMarkings.StackIsStuck` | libaftermath-core/src/dfg_graph.c:335-347 | A search that finds a cycle leaves the number of reset nodes on its stack, and a reset from a node that it had finished leaves out every node of the stack |
| `SharedMarkings.ForkSearch` | libaftermath-core/src/dfg_graph.c:365-379 | A graph and an extra connection for which the search finishes a node before it finds the cycle |
| `SharedMarkings.StaleAfterCheck` | libaftermath-core/src/dfg_schedule.c:522-523 | Scheduling the component of that node right after the search resets one of its three nodes only |
| `Scheduler.Schedule.constructor` | libaftermath-core/src/dfg_node.c:659-710 | A graph of fresh instances: masks are empty and generations valid, while markings and counters are arbitrary, as nothing sets them |
| `Scheduler.Schedule.Require` | aftermath/src/AftermathController.cpp:36-38 | Sets what a node requires and changes nothing else, so that the graph stays ready for a call |
| `Scheduler.Schedule.CheckCycle` | libaftermath-core/src/dfg_graph.c:351-387 | The search for cycles on the same markings: what it reports, and which markings it leaves |
| `Scheduler.Schedule.PropagateBits` | libaftermath-core/src/dfg_schedule.c:136-195 | Refines the propagation along one kind of ports, with its failure |
| `Scheduler.Schedule.OfferConnected` | libaftermath-core/src/dfg_schedule.c:155-170 | Refines the loop over connections |
| `Scheduler.Schedule.OfferPort` | libaftermath-core/src/dfg_schedule.c:156-169 | Refines one offer: the mask grows and the node moves to the front of the list |
| `Scheduler.Schedule.EvalDependencies` | libaftermath-core/src/dfg_schedule.c:199-238 | Refines one evaluation, including the early returns |
| `Scheduler.Schedule.CountActive` | libaftermath-core/src/dfg_schedule.c:227-235 | Counts exactly the activated inputs of the pull masks |
| `Scheduler.Schedule.PopFront` | libaftermath-core/src/dfg_schedule.c:117-129 | Takes the first node from the list |
| `Scheduler.Schedule.ConvergeDeps` | libaftermath-core/src/dfg_schedule.c:445-454 | Refines the negotiation; on success the list is empty |
| `Scheduler.Schedule.RenewOutputs` | libaftermath-core/src/dfg_schedule.c:380-382 | Increments the generations of exactly the outputs marked as new, in the cycle of generations that never repeats early |
| `Scheduler.Schedule.CatchUpInputs` | libaftermath-core/src/dfg_schedule.c:400-403 | Copies the generation of the producer to every requested connected input |
| `Scheduler.Schedule.MayOmit` | libaftermath-core/src/dfg_schedule.c:387-394 | Decides whether no requested port is activated |
| `Scheduler.Schedule.DeliverTo` | libaftermath-core/src/dfg_schedule.c:408-421 | Refines one delivery, with the error for a counter that is zero already |
| `Scheduler.Schedule.DeliverToAll` | libaftermath-core/src/dfg_schedule.c:407-422 | Refines the deliveries to all connections of a port |
| `Scheduler.Schedule.DeliverOutputs` | libaftermath-core/src/dfg_schedule.c:405-423 | Refines the loop over output ports |
| `Scheduler.Schedule.ProcessNode` | libaftermath-core/src/dfg_schedule.c:362-428 | Refines the processing of a node, including the return of the failure of its process function exactly if that is called |
| `Scheduler.Schedule.RunNodes` | libaftermath-core/src/dfg_schedule.c:461-470 | Refines the processing of the list |
| `Scheduler.Schedule.ResetNode` | libaftermath-core/src/dfg_schedule.c:80-95 | Clears the masks and the counter of a node |
| `Scheduler.Schedule.ResetGraph` | libaftermath-core/src/dfg_schedule.c:431-437 | Clears all nodes |
| `Scheduler.Schedule.RequireAllInputs` | libaftermath-core/src/dfg_schedule.c:489-495 | Sets every input to pull, and lists every node |
| `Scheduler.Schedule.ListReady` | libaftermath-core/src/dfg_schedule.c:500-502 | Lists exactly the nodes whose counter is zero |
| `Scheduler.Schedule.NegotiateGraph` | libaftermath-core/src/dfg_schedule.c:487-498 | Refines the reset and the negotiation of a whole graph |
| `Scheduler.Schedule.RunGraph` | libaftermath-core/src/dfg_schedule.c:480-509 | Refines scheduling of a graph, so that the results on it hold of the program; afterwards no node is being marked |
| `Scheduler.Schedule.MarkComponent` | libaftermath-core/src/dfg_schedule.c:58-77 | Terminates although it overwrites its own visited mark, and gives the mark to exactly the nodes reached past nodes being marked |
| `Scheduler.Schedule.MarkNeighbours` | libaftermath-core/src/dfg_schedule.c:71-73 | Paints all neighbours |
| `Scheduler.Schedule.MarkPort` | libaftermath-core/src/dfg_schedule.c:72-73 | Paints all nodes connected to a port |
| `Scheduler.Schedule.ResetComponent` | libaftermath-core/src/dfg_schedule.c:305-320 | Resets exactly the nodes newly marked, and all that are in reach |
| `Scheduler.Schedule.ResetNeighbours` | libaftermath-core/src/dfg_schedule.c:317-319 | Resets all neighbours and what they reach |
| `Scheduler.Schedule.ResetPort` | libaftermath-core/src/dfg_schedule.c:318-319 | Resets all nodes connected to a port and what they reach |
| `Scheduler.Schedule.IsSchedulingRoot` | libaftermath-core/src/dfg_schedule.c:241-258 | Decides whether a node awaits nothing and has an activated output |
| `Scheduler.Schedule.FindRoots` | libaftermath-core/src/dfg_schedule.c:262-288 | Adds exactly the roots among the nodes newly visited to the list, each once, in front of what has been listed, and the node itself before all others that it leads to |
| `Scheduler.Schedule.EnterNode` | libaftermath-core/src/dfg_schedule.c:272-278 | Marks a node as visited and puts it in front of the list exactly if it is a root |
| `Scheduler.Schedule.MarkEvaluated` | libaftermath-core/src/dfg_schedule.c:275 | Marks exactly this node as visited |
| `Scheduler.Schedule.ListIfRoot` | libaftermath-core/src/dfg_schedule.c:277-278 | Puts exactly this node in front of the list if it is a root |
| `Scheduler.Schedule.VisitNeighbours` | libaftermath-core/src/dfg_schedule.c:280-287 | Visits all neighbours over the ports in use |
| `Scheduler.Schedule.VisitPort` | libaftermath-core/src/dfg_schedule.c:286-287 | Visits all nodes connected to a port |
| `Scheduler.Schedule.PrepareComponent` | libaftermath-core/src/dfg_schedule.c:522-523 | Whatever the markings, resets exactly the nodes that the marking and the stuck nodes let it reach |
| `Scheduler.Schedule.ComponentFindRoots` | libaftermath-core/src/dfg_schedule.c:292-297 | Whatever the markings and masks, the list holds exactly the roots reached from the node over ports in use past nodes visited before |
| `Scheduler.Schedule.NegotiateComponent` | libaftermath-core/src/dfg_schedule.c:522-530 | Whatever the markings, starts from a state in which exactly the nodes in reach are reset and the node has what it requires, and refines the negotiation from there |
| `Scheduler.Schedule.RunComponent` | libaftermath-core/src/dfg_schedule.c:518-544 | Refines scheduling of a component for any graph, masks and markings: reset, negotiation with its failure, search for roots with the failure if there are none, and processing; only the order of the roots is left open |
| `Scheduler.Schedule.PortActivated` | libaftermath-core/src/dfg_node.h:777-829 | Decides whether a port is activated, for inputs and for outputs; for outputs with old data the generations of consumers decide, as Freshness says |
| `CycleCheck.HasCycle` | libaftermath-core/src/dfg_graph.c:351-387 | Reports a cycle exactly if the graph with the extra and without the ignored connection has one; a path that is returned is a simple cycle in reverse order, and one is returned exactly if it is wanted and a node taken for a root leads to a cycle, as it does if nothing is ignored, or a connection that exists |
| `CycleCheck.PathIsLost` | libaftermath-core/src/dfg_graph.c:365-387 | A graph, an extra and an ignored connection with a cycle for which no path is returned |
| `CycleCheck.AllAreLooseRoots` | libaftermath-core/src/dfg_node.c:767-784 | If nothing is ignored, or a connection that exists, every node is taken for a root |
| `CycleCheck.FinishedReachesNoCycle` | libaftermath-core/src/dfg_graph.c:335-337 | A node that the search has finished leads to no cycle |
| `CycleCheck.LoopsBackIsCycle` | libaftermath-core/src/dfg_graph.c:266-275 | When the search meets a node on its stack, its first node leads to a cycle |
| `CycleCheck.SearchRoots` | libaftermath-core/src/dfg_graph.c:367-378 | The loop over nodes taken for roots finishes all of them or finds a simple cycle |
| `CycleCheck.CycleSearch.Search` | libaftermath-core/src/dfg_graph.c:258-338 | The recursive search either finishes a node and all it leads to, or has found a cycle; legs are recorded only if they are wanted |
| `CycleCheck.CycleSearch.Enter` | libaftermath-core/src/dfg_graph.c:278 | A node is marked once, and joins the stack |
| `CycleCheck.CycleSearch.SearchExtra` | libaftermath-core/src/dfg_graph.c:280-297 | Follows the extra connection exactly from its source |
| `CycleCheck.CycleSearch.SearchOutputs` | libaftermath-core/src/dfg_graph.c:301-333 | The loop over outputs covers every considered connection of the node |
| `CycleCheck.CycleSearch.SearchPort` | libaftermath-core/src/dfg_graph.c:303-332 | The loop over connections covers every one that is not ignored |
| `CycleCheck.CycleSearch.AppendLeg` | libaftermath-core/src/dfg_graph.c:321-328 | Legs are appended until the ends of the path meet, which makes it a simple cycle |
| `CycleCheck.CycleSearch.Finish` | libaftermath-core/src/dfg_graph.c:335-337 | A node is finished only after everything it leads to |
| `CycleCheck.CycleSearch.IsRootIgnoring` | libaftermath-core/src/dfg_node.c:767-784 | The loose test for roots: inputs with one connection only block it if they are the ignored destination with another source |
| `CycleCheck.CycleSearch.constructor` | libaftermath-core/src/dfg_graph.c:361-362 | All nodes start unmarked |
| `CycleCheck.UnmarkedHasSelfLoop` | libaftermath-core/src/dfg_graph.c:380-384 | If the search from the loose roots leaves a node unmarked, there is a cycle, namely a node connected to itself |
| `CycleCheck.SimpleCycleIsCycle` | libaftermath-core/src/dfg_graph.c:288-297 | A path of that shape is a cycle of the considered connections |
| `CycleCheck.OpenPathGrows` | libaftermath-core/src/dfg_graph.c:321-328 | Prolonging the path keeps legs joined and nodes distinct until it closes |
| `CycleCheck.SettledIsAcyclic` | libaftermath-core/src/dfg_graph.c:335-337 | If all nodes are finished, each after what it leads to, there is no cycle |
| `GraphEditing.CheckForetellsConnect` | libaftermath-core/src/dfg_graph.c:351-387 | The search with the new connection as its extra one tells whether the graph will be cyclic after connecting |
| `GraphEditing.CheckForetellsReconnect` | libaftermath-core/src/dfg_graph.c:351-387 | The search with the new connection as its extra and the old one as its ignored one tells whether the graph will be cyclic after moving a connection |
| `GraphEditing.ConnectKeepsWellFormed` | libaftermath-core/src/dfg_graph.c:119-150 | Connecting keeps connections symmetric, without duplicates and single at inputs |
| `GraphEditing.DisconnectKeepsWellFormed` | libaftermath-core/src/dfg_node.c:172-188 | Disconnecting keeps connections symmetric, without duplicates and single at inputs |
| `GraphEditing.EditedGraph.constructor` | libaftermath-core/src/dfg_graph.c:22-28 | A graph to be edited |
| `GraphEditing.EditedGraph.ConnectOneSided` | libaftermath-core/src/dfg_node.c:95-125 | Appends one side of a connection; an input loses its generation |
| `GraphEditing.EditedGraph.ConnectPorts` | libaftermath-core/src/dfg_graph.c:119-189 | Connects exactly an output to an unconnected input of a compatible type, and changes nothing otherwise |
| `GraphEditing.EditedGraph.DisconnectOneSided` | libaftermath-core/src/dfg_node.c:132-167 | Removes the first matching side of a connection, or fails without effect |
| `GraphEditing.EditedGraph.DisconnectPorts` | libaftermath-core/src/dfg_node.c:172-188 | Removes both sides exactly if the ports are connected, whichever of them comes first |
| `GraphEditing.EditedGraph.ReconnectPorts` | libaftermath-core/src/dfg_graph.c:197-215 | Moves a connection; if the new one cannot be made, the old one is gone nevertheless, and only a connection that is made clears the generation of its input |
| `GraphEditing.ConnectUnlessCyclic` | libaftermath-core/src/dfg_graph.c:351-387 | Connections made only after the search has found no cycle keep the graph acyclic; the search refuses no other, and exactly then returns a simple cycle |
| `Escaping.UnescapeEscape` | libaftermath-core/src/ansi_extras.c:103-275 | Unescaping an escaped string gives the string back, for all 7-bit strings |
| `Escaping.UnescapeEscapeIff` | libaftermath-core/src/ansi_extras.c:103-275 | For any bytes unescaping succeeds, and gives the string back if and only if no character lies from 128 to 254 |
| `Escaping.UnescapeEscaped` | libaftermath-core/src/ansi_extras.c:103-275 | What it gives back is the string with all characters from 128 on replaced by 255 |
| `Escaping.EscapedIsPrintable` | libaftermath-core/src/ansi_extras.c:118-146 | Escaped text is printable ASCII |
| `Escaping.UnescapeEscapedChar` | libaftermath-core/src/ansi_extras.c:121-142 | One escaped character of any value is read back whatever follows it, as itself below 128 and as 255 otherwise |
| `Escaping.Replacement` | libaftermath-core/src/ansi_extras.c:121-129 | The loop over the table of replacements escapes one character |
| `Escaping.EscapeString` | libaftermath-core/src/ansi_extras.c:103-159 | The growing buffer ends up as the escaped string, for any bytes |
| `Escaping.ReadSequence` | libaftermath-core/src/ansi_extras.c:183-256 | Decodes hexadecimal, octal and table sequences exactly as specified, or fails |
| `Escaping.Collapse` | libaftermath-core/src/ansi_extras.c:202-207 | Replaces a sequence by one character and moves the rest down |
| `Escaping.ReplaceSequence` | libaftermath-core/src/ansi_extras.c:183-256 | Keeps the meaning of the text while it shrinks |
| `Escaping.UnescapeInPlace` | libaftermath-core/src/ansi_extras.c:170-275 | In place, the text is replaced by its meaning, and fails exactly if it has none |
| `EscapeSequences.ThreeOctalDigits` | libaftermath-core/src/ansi_extras.c:208-218 | A backslash and the three octal digits of a number stand for its lower eight bits, whatever follows |
| `EscapeSequences.TwoOctalDigits` | libaftermath-core/src/ansi_extras.c:219-223 | Two octal digits that no third one follows stand for their number |
| `EscapeSequences.OneOctalDigit` | libaftermath-core/src/ansi_extras.c:224-229 | So does a single one |
| `EscapeSequences.TwoHexDigits` | libaftermath-core/src/ansi_extras.c:184-207 | Two hexadecimal digits behind an x, in either case, stand for their number, whatever follows |
| `EscapeSequences.OneHexDigit` | libaftermath-core/src/ansi_extras.c:195-207 | So does a single one that no other follows |
| `EscapeSequences.Letter` | libaftermath-core/src/ansi_extras.c:240-252 | The nine letters and the characters they stand for |
| `EscapeSequences.NoSequence` | libaftermath-core/src/ansi_extras.c:183-256 | Other characters, and a backslash at the end, stay as they are; a backslash before anything else is an error |
| `EscapeSequences.EscapedForm` | libaftermath-core/src/ansi_extras.c:118-146 | How each byte is escaped: by its letter, as itself, by two hexadecimal digits in upper case, or, from 128 on, by two times F |
| `Numbers.UnsignedOfDigits` | libaftermath-core/src/ansi_extras.h:388-403 | Converting a printed unsigned number gives it back |
| `Numbers.SignedOfDigits` | libaftermath-core/src/ansi_extras.h:334-367 | Converting a printed signed number gives it back, including the smallest |
| `Numbers.SkipWhitespace` | libaftermath-core/src/ansi_extras.h:295-317 | Trims blanks on both sides |
| `Numbers.AtoU64` | libaftermath-core/src/ansi_extras.h:378-408 | The checks for overflow are exact: it fails exactly if the text denotes no unsigned 64-bit number, and no step leaves 64 bits |
| `Numbers.AtoI64` | libaftermath-core/src/ansi_extras.h:323-372 | The same for signed numbers, accumulated downwards if negative; a lone minus sign denotes zero |
| `NumberTexts.UnsignedTexts` | libaftermath-core/src/ansi_extras.h:378-408 | A text denotes an unsigned number if and only if it consists of decimal digits between blanks and their amount fits into 64 bits |
| `NumberTexts.SignedTexts` | libaftermath-core/src/ansi_extras.h:323-372 | A text denotes a signed number if and only if it consists of digits, or a minus sign and digits or nothing, between blanks, and the number fits into 64 bits |
| `NumberTexts.InfiniteTexts` | libaftermath-core/src/ansi_extras.h:487-499 | A literal of a double converts to infinity, which is an error, if and only if its digits before the dot amount to the largest double and half a unit in its last place, or more |
| `NumberTexts.WrittenDigits` | libaftermath-core/src/object_notation.c:942 | Numbers are written with decimal digits that amount to them, without zeros in front |
| `NumberTexts.WrittenSign` | libaftermath-core/src/object_notation.c:930 | Negative numbers are written with a minus sign before the digits |
| `Lexing.ReadQuoted` | libaftermath-core/src/parser.h:335-367 | A quoted escaped string is read as exactly that literal, whatever follows |
| `Lexing.ReadPrintedNumber` | libaftermath-core/src/parser.h:377-540 | A printed integer is read to the end of its suffix, is no double, and has no other suffix |
| `Lexing.ReadFixedPoint` | libaftermath-core/src/parser.h:504-540 | A printed double is read to its end if and only if no digit follows |
| `NotationRoundTrip.ParsePrinted` | libaftermath-core/src/object_notation.c:589-629 | Wherever a printed tree stands in a text, with any indentation and anything behind it that does not go on a single double, parsing gives the tree, with characters from 128 on as 255, and stops exactly after it, or fails if a double is not finite |
| `NotationRoundTrip.ParsePrintedIff` | libaftermath-core/src/object_notation.c:589-629 | Parsing a printed tree gives the same tree and stops after it if and only if all doubles are finite, no string holds a character from 128 to 254, and it is no single double that goes on |
| `NotationRoundTrip.PrintAlikeIff` | libaftermath-core/src/object_notation.c:1009-1044 | Two trees, of which one has finite doubles only, print to the same text if and only if they differ in characters from 128 on only |
| `NotationRoundTrip.InfinityIsNotRead` | libaftermath-core/src/object_notation.c:589-629 | Wherever a printed tree stands, parsing fails exactly if some double in it is infinite or no number, unless the tree is a single such word that goes on |
| `NotationRoundTrip.WordIsNotRead` | libaftermath-core/src/object_notation.c:589-629 | A word for an infinity is taken for the name of a group, and fails wherever no body follows |
| `NotationRoundTrip.PrintIsInjective` | libaftermath-core/src/object_notation.c:1009-1044 | Trees that print to the same text, whatever the indentation, differ in characters from 128 on only, if all doubles of one of them are finite |
| `NotationRoundTrip.ReadLeafReadsLeaves` | libaftermath-core/src/object_notation.c:606-620 | Printed strings, integers and doubles are read back |
| `NotationRoundTrip.ParsePrintedItems` | libaftermath-core/src/object_notation.c:296-336 | The loop over items reads back printed items in both layouts |
| `NotationRoundTrip.ParsePrintedMembers` | libaftermath-core/src/object_notation.c:504-546 | The loop over members reads back printed members |
| `NotationRoundTrip.ParseGroupBody` | libaftermath-core/src/object_notation.c:487-556 | Printed groups are read back |
| `ParsedTrees.ParsedIsPrintable` | libaftermath-core/src/object_notation.c:589-629 | A tree parsed from any bytes has finite doubles only, and can be saved exactly if they have the form that printing gives them |
| `ParsedTrees.LoadSaveLoad` | libaftermath-core/src/object_notation.c:643-653 | Loading, saving and loading again gives the same tree if and only if no string holds a character from 128 to 254, and otherwise that tree with such characters as 255 |
| `ParsedTrees.SecondRoundIsExact` | libaftermath-core/src/object_notation.c:643-653 | Whatever the first round has lost, the next one gives the same text and the same tree |
| `NotationGrammar.ClassesAreAlphabets` | libaftermath-core/src/parser.h:145-182 | The classes of blanks, digits, and characters of names are the alphabets listed |
| `NotationGrammar.LeafExact` | libaftermath-core/src/object_notation.c:606-620 | Strings, integers and doubles are read exactly where the language has one, up to its end |
| `NotationGrammar.StringsStopAtZero` | libaftermath-core/src/object_notation.c:219-237 | A string literal ends before its first zero byte, and so does the string that it stands for; it is an error exactly if its text up to there cannot be unescaped |
| `NotationGrammar.ItemsExact` | libaftermath-core/src/object_notation.c:296-336 | So are the items of a list, with blanks anywhere and a comma behind the last one if one likes |
| `NotationGrammar.MembersExact` | libaftermath-core/src/object_notation.c:504-546 | So are the members of a group |
| `NotationGrammar.ParsesTheLanguage` | libaftermath-core/src/object_notation.c:589-629 | Parsing gives a tree and a position if and only if, behind any blanks, the text up to there is that tree in a language that is defined without the parser, from alphabets, numbers and positions |
| `NotationGrammar.EmptyGroupIsRead` | libaftermath-core/src/object_notation.c:562-584 | A name over the alphabet of group names, blanks, and braces with blanks inside are read as that group, whatever follows |
| `NotationGrammar.ShippedGroup` | aftermath/share/profiles/min/graph.dfg:3-5 | A group of the shipped profiles, with colons in its name, is read as such |
| `NotationLayout.PrintedLines` | libaftermath-core/src/object_notation.c:796-898 | A printed tree is exactly the lines that a separate description of the layout lists, with their indentation |
| `NotationIO.Printer.constructor` | libaftermath-core/src/object_notation.c:1009-1010 | An empty stream |
| `NotationIO.Printer.PutIndented` | libaftermath-core/src/object_notation.c:802 | Writes a number of tabs and a text |
| `NotationIO.Printer.SaveLeaf` | libaftermath-core/src/object_notation.c:903-986 | Appends exactly the text of a string, an integer or a double |
| `NotationIO.Printer.SaveMember` | libaftermath-core/src/object_notation.c:828-839 | Appends exactly the text of a member |
| `NotationIO.Printer.SaveMembers` | libaftermath-core/src/object_notation.c:805-816 | The loop over members with its separators |
| `NotationIO.Printer.SaveGroup` | libaftermath-core/src/object_notation.c:796-822 | Appends exactly the text of a group |
| `NotationIO.Printer.SaveItems` | libaftermath-core/src/object_notation.c:874-884 | The loop over items with its separators |
| `NotationIO.Printer.SaveList` | libaftermath-core/src/object_notation.c:845-898 | Appends exactly the text of a list, on one line or on several |
| `NotationIO.Printer.Save` | libaftermath-core/src/object_notation.c:1009-1044 | Appends exactly the text of the tree to the stream |
| `NotationIO.Printer.FindComposite` | libaftermath-core/src/object_notation.h:403-414 | Finds out whether a list holds groups or lists |
| `NotationParser.CreateString` | libaftermath-core/src/object_notation.c:219-237 | The value of a string literal, if its escapes are well-formed |
| `NotationParser.Parser.constructor` | libaftermath-core/src/parser.h:107-113 | Starts at the beginning of the text |
| `NotationParser.Parser.SkipWs` | libaftermath-core/src/parser.h:145-152 | Stops at the first character that is no blank |
| `NotationParser.Parser.ReadRun` | libaftermath-core/src/parser.h:191-245 | Reads the longest name or number, and does not move otherwise |
| `NotationParser.Parser.ExpectChars` | libaftermath-core/src/parser.h:126-140 | Succeeds exactly if the text stands at the position, and then stops after it |
| `NotationParser.Parser.ReadNextChar` | libaftermath-core/src/parser.h:256-291 | Reads a character behind blanks |
| `NotationParser.Parser.ReadQuotedString` | libaftermath-core/src/parser.h:335-375 | Reads to the closing quote that is not escaped |
| `NotationParser.Parser.ReadNumber` | libaftermath-core/src/parser.h:381-426 | Reads digits and a suffix |
| `NotationParser.Parser.ReadSigned` | libaftermath-core/src/parser.h:404-435 | Reads a signed literal including its sign |
| `NotationParser.Parser.ReadUnsigned` | libaftermath-core/src/parser.h:439-456 | Reads an unsigned literal |
| `NotationParser.Parser.ReadReal` | libaftermath-core/src/parser.h:504-540 | Reads digits with exactly one dot |
| `NotationParser.Parser.PeekReal` | libaftermath-core/src/parser.h:551-561 | Tells whether a double follows, without moving |
| `NotationParser.Parser.PeekSigned` | libaftermath-core/src/parser.h:475-485 | Tells whether a signed literal follows, without moving |
| `NotationParser.Parser.ParseStringNode` | libaftermath-core/src/object_notation.c:358-369 | Refines the parsing of strings |
| `NotationParser.Parser.ParseInt64Node` | libaftermath-core/src/object_notation.c:375-396 | Refines the parsing of signed integers, with overflow as failure |
| `NotationParser.Parser.ParseUint64Node` | libaftermath-core/src/object_notation.c:402-423 | Refines the parsing of unsigned integers |
| `NotationParser.Parser.ParseDoubleNode` | libaftermath-core/src/object_notation.c:429-450 | Refines the recognition of doubles, which fail if the conversion overflows to infinity |
| `NotationParser.Parser.ParseLeafNode` | libaftermath-core/src/object_notation.c:606-620 | Takes the branch for the literal that follows |
| `NotationParser.Parser.ParseListNode` | libaftermath-core/src/object_notation.c:277-353 | Refines the parsing of lists, with its errors |
| `NotationParser.Parser.ParseMemberNode` | libaftermath-core/src/object_notation.c:454-481 | Refines the parsing of members |
| `NotationParser.Parser.ParseGroupBody` | libaftermath-core/src/object_notation.c:487-556 | Refines the parsing of group bodies |
| `NotationParser.Parser.ParseGroupNode` | libaftermath-core/src/object_notation.c:562-584 | Refines the parsing of groups |
| `NotationParser.Parser.ParseAnyNode` | libaftermath-core/src/object_notation.c:589-629 | The parser computes what the text means and stands right behind it, or fails exactly if it means nothing |
| `NotationParser.PrintThenParse` | libaftermath-core/src/object_notation.c:589-629 | The text written by the printer, followed by anything that does not go on a single double, is read back by the parser, which stops right behind it, or fails if a double is not finite; it reads the same tree if and only if all doubles are finite and no string holds a character from 128 to 254 besides |
| `CallGraph.ParentsEncloseIffLaminar` | aftermath/src/AftermathSession.cpp:649-737 | Every recorded parent encloses its child if and only if the frames are laminar: of two frames the first has ended before the second starts, or encloses it |
| `CallGraph.ParentIsInnermost` | aftermath/src/AftermathSession.cpp:722-727 | For laminar frames the parent is the innermost enclosing frame, and frames that nothing encloses have none |
| `CallGraph.DepthCountsEnclosing` | aftermath/src/AftermathSession.cpp:739 | For laminar frames the depth is the number of enclosing frames plus one |
| `CallGraph.BelowIsEnclosing` | aftermath/src/AftermathSession.cpp:649-683 | For laminar frames the stack below a new frame holds exactly the enclosing frames, outermost first |
| `CallGraph.RunStacked` | aftermath/src/AftermathSession.cpp:597-744 | Over every run each frame on the stack is the parent of the one above it, and frames are left only once they have ended |
| `CallGraph.TouchingSiblings` | aftermath/src/AftermathSession.cpp:655 | A frame that starts exactly when another ends is recorded as its child although it is not enclosed |
| `CallGraph.AlwaysLaminarIffNested` | aftermath/src/AftermathSession.cpp:583-589 | Every way to sort frames by their starts yields laminar ones if and only if any two frames, in either order, are apart or nested |
| `CallGraph.NestedStartsTogether` | aftermath/src/AftermathSession.cpp:583-589 | Then frames that start together end together |
| `CallGraph.EqualStarts` | aftermath/src/AftermathSession.cpp:655 | Of two frames that start together, the one that ends first is recorded as the parent of the other if it comes first |
| `CallGraph.KidsAre` | aftermath/src/AftermathSession.cpp:729-735 | Child lists are the inverse of the parent relation, in the order of starts |
| `CallGraphPeriods.PeriodsAreExclusive` | aftermath/src/AftermathSession.cpp:658-782 | Whatever the frames, the periods of a frame in rank order are its interval cut at its children |
| `CallGraphPeriods.RunOk` | aftermath/src/AftermathSession.cpp:597-744 | Over every run of the loop, closed periods of a frame are cut at its children so far and the open one starts at the end of the last period |
| `CallGraphPeriods.TimeIsConserved` | aftermath/src/AftermathSession.cpp:658-782 | The periods of a frame and all its descendants sum up to its duration |
| `CallGraphPeriods.PeriodsInOrder` | aftermath/src/AftermathSession.cpp:658-782 | Each recorded period starts at the end of the one before it or later |
| `CallGraphPeriods.ForwardIffLaminar` | aftermath/src/AftermathSession.cpp:655-710 | No recorded period is inverted if and only if the frames are laminar |
| `CallGraphPeriods.PeriodArrayIsSorted` | aftermath/src/AftermathSession.cpp:679-782 | For laminar frames the array of periods ascends by starts and by ends |
| `CallGraphPeriods.PeriodsCover` | aftermath/src/AftermathSession.cpp:658-782 | For laminar frames the periods of a frame cover exactly its half-open interval without those of its children |
| `CallGraphPeriods.InstantsBelongToInnermost` | aftermath/src/AftermathSession.cpp:658-782 | For laminar frames every instant at which a frame is active lies in exactly one period, which belongs to the innermost active frame |
| `CallGraphBuilder.Builder.constructor` | aftermath/src/AftermathSession.cpp:591-595 | Nothing on the stack, no periods and no children |
| `CallGraphBuilder.Builder.TracePeriod` | aftermath/src/AftermathSession.cpp:663-681 | Records a period of the top frame with the next rank, per frame and in the common array |
| `CallGraphBuilder.Builder.AddChild` | aftermath/src/AftermathSession.cpp:723-736 | Records a frame as child of its parent |
| `CallGraphBuilder.Builder.AddRoot` | aftermath/src/AftermathSession.cpp:722-739 | Frames on an empty stack have no parent |
| `CallGraphBuilder.Builder.PopFrame` | aftermath/src/AftermathSession.cpp:655-683 | Refines leaving the top frame |
| `CallGraphBuilder.Builder.RollBack` | aftermath/src/AftermathSession.cpp:649-720 | Refines the loop that leaves ended frames and closes the period of the frame found |
| `CallGraphBuilder.Builder.StartFrame` | aftermath/src/AftermathSession.cpp:598-744 | Refines one round of the loop over frames |
| `CallGraphBuilder.Builder.RollBackAll` | aftermath/src/AftermathSession.cpp:746-782 | Refines the final loop |
| `CallGraphBuilder.Builder.BuildCallGraph` | aftermath/src/AftermathSession.cpp:591-782 | Refines the reconstruction for one core; the maps list periods and children of every frame |
| `CallGraphBuilder.Reconstruct` | aftermath/src/AftermathSession.cpp:597-838 | Children invert parents, periods cut frames at their children, and parents enclose exactly for laminar frames |
| `CallGraphBuilder.ReconstructEvents` | aftermath/src/AftermathSession.cpp:578-838 | The same from unsorted events: they are sorted first without loss, and if any two events are apart or nested, parents are innermost and depths count enclosing frames; of two events that start together the second one comes first |
| `CallGraphBuilder.SortFrames` | aftermath/src/AftermathSession.cpp:583-589 | The frames in the order of their starts; of two that start together the second one comes first |
| `Sorting.Partition` | libaftermath-core/src/qsort.h:50-81 | The three-way partition: a permutation in place with smaller, equal and greater parts; the pivot pointer stays at the first equal element and the upper index never underflows; elements that all compare as equal stay where they are, but for the first and the middle one |
| `Sorting.ExchangeSmaller` | libaftermath-core/src/qsort.h:62-69 | A smaller element joins the smaller ones, and the pivot moves up with the elements equal to it; the part stays a permutation |
| `Sorting.ExchangeGreater` | libaftermath-core/src/qsort.h:70-77 | A greater element joins the greater ones, and the pivot stays where it is; the part stays a permutation |
| `Sorting.QuickSort` | libaftermath-core/src/qsort.h:35-85 | Sorts a part of an array for any total preorder and permutes nothing else |
| `Sorting.Sort` | libaftermath-core/src/qsort.h:96-99 | A whole array ends up as a sorted permutation; sorting is not stable, as of elements that compare as equal the first and the middle one are exchanged |
| `Sorting.QuickSelect` | libaftermath-core/src/qselect.h:37-107 | Permutes in place and returns the first position of the n-th smallest value: smaller elements before it, none smaller after; none if there are too few elements |
| `Sorting.SelectedIsSorted` | libaftermath-core/src/qselect.h:24-36 | The selected element is the one that sorting the same elements puts at position n |
| `IntervalSearch.SafeCenter` | libaftermath-core/src/bsearch.h:43-46 | The middle of two indexes without a sum that overflows |
| `IntervalSearch.SearchesFind` | libaftermath-core/src/bsearch.h:112-223 | If starts and ends ascend, the searches find the first and the last overlapping element, and exactly those between them overlap |
| `IntervalSearch.EnclosingIsMissed` | libaftermath-core/src/bsearch.h:115-159 | A family of queries for which the search misses the only overlap: the first of three or more intervals overlaps the query and all later ones end before it |
| `IntervalSearch.FirstIffDominated` | libaftermath-core/src/bsearch.h:115-159 | With ascending starts the first search is right for every query if and only if, along the positions it can look at, all that it gives up before a middle ends no later than the middle or than something given up before |
| `IntervalSearch.LastIffShielded` | libaftermath-core/src/bsearch.h:179-223 | With ascending starts the last search is right for every query if and only if each point that only intervals given up before a middle cover is covered behind the middle |
| `IntervalSearch.LoopIffSearchable` | libaftermath-core/src/interval_array.h:55-143 | With ascending starts the loop visits exactly the overlapping elements for every query if and only if both conditions hold and no interval ends before one that precedes it and before one that follows it |
| `IntervalSearch.PeriodsAreFound` | aftermath/src/AftermathSession.cpp:658-782 | The periods of laminar frames meet the condition of the search |
| `IntervalSearch.SearchFirst` | libaftermath-core/src/bsearch.h:115-159 | Refines the search for the first match |
| `IntervalSearch.SearchLast` | libaftermath-core/src/bsearch.h:179-223 | Refines the search for the last match |
| `IntervalSearch.ForEachOverlapping` | libaftermath-core/src/interval_array.h:55-143 | The loop visits exactly the positions from the first to the last match, each once, in order; if starts and ends ascend, these are the overlapping elements |
| `TreeWalk.Walk` | libaftermath-core/src/dfs.h:51-100 | The traversal makes exactly the callbacks of a recursive preorder traversal, with depths that start at one, for any size of the buffer |
| `TreeWalk.PreorderReaches` | libaftermath-core/src/dfs.h:51-100 | The nodes visited are those below the root, with their depths |
| `TreeWalk.PreorderOnce` | libaftermath-core/src/dfs.h:51-100 | No node is visited twice |
| `TreeWalk.PreorderInOrder` | libaftermath-core/src/dfs.h:51-100 | A node is visited before its children, and the subtrees of its children in their order: the nodes come in the lexicographic order of the ways that lead to them |
| `TreeWalk.CircularBuffer.Push` | libaftermath-core/src/circular_buffer.h:44-60 | A push to an empty buffer leaves it empty |
| `TreeWalk.CircularBuffer.Pop` | libaftermath-core/src/circular_buffer.h:62-80 | A pop from an empty buffer reports so and changes nothing |
| `TreeWalk.CircularBuffer.constructor` | libaftermath-core/src/circular_buffer.h:33-42 | An empty buffer |
| `TreeWalk.ChildIndex` | libaftermath-core/src/dfs.h:83-84 | The fallback index of a child |
| `Hierarchy.HierarchyNodes.constructor` | libaftermath-core/src/hierarchy.h:80-89 | Nodes without parents and descendants |
| `Hierarchy.HierarchyNodes.AddChild` | libaftermath-core/src/hierarchy.h:115-125 | Adding a tree to a node keeps every number of descendants exact |
| `Hierarchy.HierarchyNodes.Unparent` | libaftermath-core/src/hierarchy.h:130-139 | Detaching a subtree keeps every number of descendants exact, without underflow |
| `Hierarchy.HierarchyNodes.RaiseAncestors` | libaftermath-core/src/hierarchy.h:123-124 | The loop raises exactly a node and its ancestors |
| `Hierarchy.HierarchyNodes.LowerAncestors` | libaftermath-core/src/hierarchy.h:134-135 | The loop lowers exactly a node and its ancestors, and never below zero |
| `Hierarchy.LinkingCounts` | libaftermath-core/src/hierarchy.h:115-125 | Exact numbers stay exact when a tree is linked and the affected numbers are raised by its size |
| `Hierarchy.UnlinkingCounts` | libaftermath-core/src/hierarchy.h:130-139 | Exact numbers stay exact when a subtree is unlinked and the affected numbers are lowered by its size |
| `Hierarchy.VisitsMatchNumbers` | libaftermath-core/src/hierarchy.h:83 | A traversal from a node makes one callback more than its number of descendants |
| `Bits.MasksAreSets` | libaftermath-core/src/dfg_node.h:99-130 | Applying, comparing and testing port masks are union, symmetric difference and the subset test |
| `Bits.PositionsDecide` | libaftermath-core/src/dfg_node.h:29-84 | A 64-bit mask is determined by its set of ports |
| `Bits.FirstSetBit` | libaftermath-core/src/bits.h:34-87 | The index computed for the first set bit is the lowest position of the mask |
| `Bits.ForEachBit` | libaftermath-core/src/bits.h:92-96 | The iteration visits exactly the positions of the mask, in ascending order |
| `Bits.NumBitsIsCardinality` | libaftermath-core/src/bits.h:99-124 | The table-driven bit count is the size of the set |
| `Bits.ClearedList` | libaftermath-core/src/bits.h:92-96 | Clearing the bit just visited removes the first position |

## Left out

- Files, streams and memory: writing to a `FILE`, reading traces, allocation and its failure, and the texts of error messages. The printer appends to a string, and the parser yields a tree or nothing.
- Buffers of ports, reference counts, and connect and disconnect callbacks of nodes.
- Process functions: a set of nodes whose function fails is a parameter, and what they compute is not modelled.
- Nodes and ports are indexes instead of pointers, and the list of nodes to be scheduled is a sequence without duplicates. Entries that a failed call leaves in a list on its stack are not modelled.
- Port masks are sets of port indexes below 64 in the scheduler; `Bits` proves that 64-bit words stand for such sets under the operations used.
- Scheduler.Schedule.RunGraph: the graph is fixed while it is scheduled, as process functions do not change it.
- Scheduler.Schedule.RunComponent: its contract leaves the order in which roots are listed open; that of Scheduler.Schedule.FindRoots says that a root stands before all that were found earlier.
- GraphEditing.EditedGraph.ConnectPorts: whether the data types of two ports are compatible is a parameter in place of the type registry.
- Removing nodes from graphs, merging graphs and freeing them.
- NotationRoundTrip.ParsePrinted: a double in a tree stands for what `%f` writes for it, and a parsed double for its literal; the conversions between numbers and digits by `%f` and `strtod` are not modelled, but for overflow.
- NotationRoundTrip.PrintIsInjective: says nothing of two trees that both hold infinite doubles, as their texts cannot be parsed; so does NotationRoundTrip.PrintAlikeIff.
- NotationParser.Parser.ParseDoubleNode: the literal is kept in place of the number that `strtod` makes of it; only the failure for infinite numbers is modelled.
- Escaping.EscapeString: characters are taken to be signed bytes, and those from 128 on not to be printable.
- ParsedTrees.LoadSaveLoad: a double literal with six decimals is taken to be written as it was read, as `%f` does up to 15 significant digits; trees with other double literals are left out.
- Selection expressions of the object notation, and the functions that inspect trees.
- Function symbols and their counts in the call-graph reconstruction, the loop over cores, and the copies of the maps into arrays of frames.
- CallGraph.ParentIsInnermost: times are unbounded numbers, and frames end no earlier than they start; so for the other results on laminar frames.
- Sorting.Partition: exchanging an element with itself is no operation; sizes and strides of elements are not modelled.
- IntervalSearch.SearchFirst: arrays are sequences of intervals, without strides and offsets of fields.
- TreeWalk.Walk: trees are given by parents and lists of children of node indexes, and termination rests on a height.
- Hierarchy.HierarchyNodes.AddChild: only trees that have no parent are added, and never below themselves, as the code takes for granted.
- Bits.ForEachBit: the word with one bit at an index is built by repeated doubling instead of one shift; `am_extract_msb_u64` is not modelled.
- Bit vectors, merging of intervals, checked arithmetic, the simple binary search, interpolation of counters, red-black trees, registries, layout, drawing and the user interface.
- The lifting of tasks and loops in `processTrace`, which the source marks as temporary.
