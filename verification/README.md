# Common data structures of INET, modelled and proved

A Dafny model of core classes of the INET framework, most of them from its `src/inet/common`
directory, with proofs of what they are for. Each class of the source that updates fields in place is a class here, with the
same operations, branches and constants; the specifications are functions and predicates on values,
and the properties that span operations are lemmas about them.

- **Interval tree** (`IntervalTree*.dfy`, `RedBlack*.dfy`, `IntervalQueries.dfy`): a red-black tree
  over heap nodes with parent links, two sentinels and max_high fields. A ghost tree with a zipper
  says what the nodes in memory represent.
- **Shortest paths** (`ShortestPaths.dfy`, `PartitionedLinks.dfy`, `Dijkstra.dfy`): the label-setting
  search with lazily cleaned heap, route extraction and the search for bridges.
- **K routes** (`KShortestPaths.dfy`, `KShortestResults.dfy`, `DijkstraKShortest.dfy`): up to K labels
  per node, each with the node and index of its predecessor, for any order of extraction.
- **Hierarchical state machine** (`StateTrees.dfy`, `Macho.dfy`): entry and exit by recursion over
  parents, boxes, init chains, shallow and deep history, for arbitrary user handlers.
- **128-bit integer** (`WordArithmetic.dfy`, `NumberText.dfy`, `Int128.dfy`): two-word arithmetic with
  words as bounded integers that wrap explicitly.
- **Bit streams** (`BitStrings.dfy`, `FieldCodes.dfy`, `MemoryStreams.dfy`): a bit-packed writer and
  reader that undo each other at any alignment.
- **Initialization stages** (`StageOrders.dfy`, `InitStageRegistry.dfy`): numbering in repeated passes
  with cycle detection, and sorting.
- **JSON writer** (`JsonTexts.dfy`, `JsonWriter.dfy`): a printer driven by calls with a stack of open
  containers, and a reader of its text, lexer and parser, to compare it with.
- **Calendar** (`Calendar.dfy`): dates of the orbit model to Julian dates and back.

`Sequences.dfy` has what several of these need.

Outcomes that the source signals by exceptions or failed assertions are values of result datatypes.

## Model

| member | source | states |
|---|---|---|
| `IntervalTreeClass.IntervalTree.constructor` | src/inet/common/IntervalTree.cc:58-77 | a new tree is empty and well formed, its query stack holds the dummy entry only |
| `IntervalTreeClass.IntervalTree.Insert` | src/inet/common/IntervalTree.cc:188-240 | keeps the tree red-black, sorted by low end, with right parent links and max_high fields; the contents gain exactly the new interval, in a fresh node, behind all entries whose key is not greater |
| `IntervalTreeClass.IntervalTree.RecursiveInsert` | src/inet/common/IntervalTree.cc:158-178 | hangs the node where the descent by key ends, so that the key order is kept |
| `IntervalTreeClass.IntervalTree.FixupMaxHigh` | src/inet/common/IntervalTree.cc:180-186 | makes every max_high from a node up to the root right again, touching nothing else |
| `IntervalTreeClass.IntervalTree.InsertFixup` | src/inet/common/IntervalTree.cc:199-238 | repairs a red-red edge by recolouring and at most two rotations; the in-order contents and all max_high fields stay right |
| `IntervalTreeClass.IntervalTree.LeftRotate` | src/inet/common/IntervalTree.cc:110-132 | the heap then holds the left-rotated tree in the same place; contents and sentinels are unchanged |
| `IntervalTreeClass.IntervalTree.RightRotate` | src/inet/common/IntervalTree.cc:134-156 | the heap then holds the right-rotated tree in the same place; contents and sentinels are unchanged |
| `IntervalTreeClass.IntervalTree.DeleteNode` | src/inet/common/IntervalTree.cc:410-460 | keeps all tree invariants; the contents lose exactly the given node, every other interval stays in its own node |
| `IntervalTreeClass.IntervalTree.RemoveBySuccessor` | src/inet/common/IntervalTree.cc:415-452 | a node with two children is replaced by its successor node itself, not by a copied interval |
| `IntervalTreeClass.IntervalTree.SpliceOut` | src/inet/common/IntervalTree.cc:416-428 | a node with at most one child is replaced by that child |
| `IntervalTreeClass.IntervalTree.DeleteFixup` | src/inet/common/IntervalTree.cc:324-384 | restores equal black heights and the absence of red-red edges from one missing black node, in all eight cases |
| `IntervalTreeClass.IntervalTree.DeleteInterval` | src/inet/common/IntervalTree.cc:386-391 | removes the first node in preorder that stores the interval if there is one, otherwise changes nothing |
| `IntervalTreeClass.IntervalTree.RecursiveSearch` | src/inet/common/IntervalTree.cc:393-408 | finds the first node of the subtree, in preorder, that stores the interval, and nil exactly if there is none |
| `IntervalTreeClass.IntervalTree.GetMinimum` | src/inet/common/IntervalTree.cc:242-247 | nothing below the start node comes before the node found |
| `IntervalTreeClass.IntervalTree.GetMaximum` | src/inet/common/IntervalTree.cc:249-254 | nothing below the start node comes after the node found |
| `IntervalTreeClass.IntervalTree.GetSuccessor` | src/inet/common/IntervalTree.cc:256-270 | the next node of the in-order contents, the root sentinel after the last |
| `IntervalTreeClass.IntervalTree.GetPredecessor` | src/inet/common/IntervalTree.cc:272-286 | the previous node of the in-order contents, nil before the first |
| `IntervalTreeClass.IntervalTree.Query` | src/inet/common/IntervalTree.cc:473-514 | terminates with the stack top back at 1; for proper intervals and low above -MAX it returns each overlapping interval exactly as often as it is stored |
| `IntervalTreeClass.IntervalTree.Search` | src/inet/common/IntervalTree.cc:473-513 | the stack loop with its try_right_branch flags computes the recursive search `Visit` |
| `IntervalTreeClass.IntervalTree.PopOne` | src/inet/common/IntervalTree.cc:502-510 | one step of unwinding the stack: a node is dropped, or its right subtree is searched next |
| `IntervalTreeClass.IntervalTree.Push` | src/inet/common/IntervalTree.cc:487-498 | pushes a node with its parent index, doubling a full stack without losing entries |
| `IntervalQueries.OverlapMeaning` | src/inet/common/IntervalTree.cc:463-471 | for proper intervals the comparison holds exactly if the two have a point in common |
| `IntervalQueries.RightSkippable` | src/inet/common/IntervalTree.cc:484-510 | if the left subtree ends late enough but has no overlapping interval, neither has the right one |
| `IntervalQueries.LeftSkippable` | src/inet/common/IntervalTree.cc:486-501 | a subtree whose max_high is below the query has no overlapping interval |
| `IntervalQueries.VisitFindsAll` | src/inet/common/IntervalTree.cc:473-513 | skipping right branches behind fruitless left ones loses no answer |
| `IntervalQueries.VisitExact` | src/inet/common/IntervalTree.cc:473-513 | as multisets, the search result is the stored intervals filtered by overlap |
| `IntervalQueries.VisitAtSentinelTime` | src/inet/common/IntervalTree.cc:486-486 | at low == -MAX the test on nil misfires: the query is complete if and only if no node without left child has an answer to its right |
| `IntervalQueries.SentinelTimeMisses` | src/inet/common/IntervalTree.cc:486-486 | a well-formed tree of two intervals for which such a query misses one |
| `IntervalTrees.MaxHighIsMaximum` | src/inet/common/IntervalTree.cc:180-186 | right max_high fields are the maximum high end of the subtree, and one is attained |
| `IntervalTrees.RotLContents` | src/inet/common/IntervalTree.cc:110-132 | rotating left keeps the in-order contents |
| `IntervalTrees.RotRContents` | src/inet/common/IntervalTree.cc:134-156 | rotating right keeps the in-order contents |
| `IntervalTrees.RotLMax` | src/inet/common/IntervalTree.cc:110-132 | rotating left with the two recomputed fields keeps all max_high fields right |
| `IntervalTrees.RotRMax` | src/inet/common/IntervalTree.cc:134-156 | rotating right with the two recomputed fields keeps all max_high fields right |
| `RedBlackInsertion.RecolorKeeps` | src/inet/common/IntervalTree.cc:203-207 | recolouring moves the only possible red-red edge two levels up and keeps black heights |
| `RedBlackInsertion.InnerKeeps` | src/inet/common/IntervalTree.cc:210-213 | the inner rotation turns the inner case into the outer one |
| `RedBlackInsertion.OuterKeeps` | src/inet/common/IntervalTree.cc:214-216 | the outer recolouring and rotation ends with a red-black tree |
| `RedBlackInsertion.InsertionSorted` | src/inet/common/IntervalTree.cc:158-178 | the contents with the new entry at its place are sorted |
| `RedBlackDeletion.SiblingUpKeeps` | src/inet/common/IntervalTree.cc:334-340 | raising a red sibling keeps the state of one missing black node, now below a black sibling |
| `RedBlackDeletion.SiblingRedKeeps` | src/inet/common/IntervalTree.cc:341-344 | a black sibling with black children can turn red: the missing black node moves one level up |
| `RedBlackDeletion.NephewUpKeeps` | src/inet/common/IntervalTree.cc:346-351 | raising the near nephew leads to the case of a red far nephew |
| `RedBlackDeletion.FinalRepairs` | src/inet/common/IntervalTree.cc:352-357 | the last rotation ends with a red-black tree |
| `IntervalTreeRemoval.DirectRemoval` | src/inet/common/IntervalTree.cc:410-460 | removing a node with at most one child keeps order and max_high, and lacks at most one black node |
| `IntervalTreeRemoval.PromotedRemoval` | src/inet/common/IntervalTree.cc:410-460 | so does putting the successor in the place of a node with two children |
| `IntervalTreeRemoval.WithoutNode` | src/inet/common/IntervalTree.cc:410-460 | the contents without a node are those before it followed by those after it |
| `DijkstraClass.Dijkstra.SelectMin` | src/inet/common/DijktraKShortest.cc:1063-1090 | the first of the entries no other entry is preferred to, by the method in use |
| `DijkstraClass.Dijkstra.RunUntil` | src/inet/common/DijktraKShortest.cc:1043-1189 | terminates; throws only if the root or a node reached has no edge list; run to the end the labels are exactly the reachable nodes, each optimal; stopped at a target its label is optimal already; the target is labelled if and only if it is reachable |
| `DijkstraClass.Dijkstra.RelaxEdge` | src/inet/common/DijktraKShortest.cc:1113-1186 | keeps the whole search invariant; permanent labels and those of other nodes stay, a tentative label is then as good as the edge makes it, and a new label, and only that, comes with one heap entry of its cost |
| `DijkstraClass.Dijkstra.RunUntilTarget` | src/inet/common/DijktraKShortest.cc:1026-1029 | the same for the class's own graph and root |
| `DijkstraClass.Dijkstra.Run` | src/inet/common/DijktraKShortest.cc:1021-1024 | without a target: unless a node of the undefined address is reachable, exactly the reachable nodes are labelled, optimally |
| `DijkstraClass.Dijkstra.GetRoute` | src/inet/common/DijktraKShortest.cc:1216-1247 | terminates and returns a real route from the root, of exactly the labelled cost and width |
| `DijkstraClass.Dijkstra.RemoveEdge` | src/inet/common/DijktraKShortest.cc:965-979 | removes the first edge to the node and clears the routes, or changes nothing |
| `DijkstraClass.Dijkstra.AddEdge` | src/inet/common/DijktraKShortest.cc:942-956 | appends an edge, or gives the existing edge to that node the new cost |
| `DijkstraClass.Dijkstra.DiscoverAllPartitionedLinks` | src/inet/common/DijktraKShortest.cc:1351-1378 | every link reported is reported in both directions, once each, and one of them is needed to get from its one end to the other; every link needed in all directions it has is reported; where links go both ways, doubled or not, these are exactly the bridges; the working copy keeps its links, and without doubled ones its edges up to order |
| `DijkstraClass.Dijkstra.TestOnce` | src/inet/common/DijktraKShortest.cc:1360-1376 | a link not tested yet is tested in one direction and judged in both |
| `DijkstraClass.Dijkstra.Probe` | src/inet/common/DijktraKShortest.cc:1364-1374 | the search finds no way around exactly if the direction taken out is needed; afterwards it is back, merged with its double if it had one |
| `ShortestPaths.FirstIsRoot` | src/inet/common/DijktraKShortest.cc:1094-1104 | a heap entry is the root's exactly before the first expansion |
| `ShortestPaths.CheapestFirst` | src/inet/common/DijktraKShortest.cc:1063-1104 | an extracted live entry carries the least cost of all nodes not expanded yet |
| `ShortestPaths.RelaxKeeps` | src/inet/common/DijktraKShortest.cc:1111-1187 | relaxing one edge keeps chains, queue, settled edges and expansion order |
| `ShortestPaths.Exhausted` | src/inet/common/DijktraKShortest.cc:1062-1189 | an empty heap means reachability of exactly the labelled nodes and, for nonnegative costs (basic) or positive ones (widestshortest), least cost and then largest width |
| `ShortestPaths.TargetReached` | src/inet/common/DijktraKShortest.cc:1094-1107 | a target extracted from the heap has its least cost, and for widestshortest its largest width at that cost |
| `ShortestPaths.RouteOf` | src/inet/common/DijktraKShortest.cc:1216-1247 | every label is backed by a route of exactly its cost and width |
| `PartitionedLinks.CutOnceLinks` | src/inet/common/DijktraKShortest.cc:965-979 | taking an edge out parts its ends unless the link is doubled, and touches no other link |
| `PartitionedLinks.NeededInCopy` | src/inet/common/DijktraKShortest.cc:1364-1369 | what earlier tests did to the working copy does not change the outcome for a link not tested yet |
| `PartitionedLinks.PutBack` | src/inet/common/DijktraKShortest.cc:942-956 | an edge put back restores the copy, but for the double of a tested link |
| `PartitionedLinks.OneDirection` | src/inet/common/DijktraKShortest.cc:1364-1369 | where links go both ways, one direction of a link is needed exactly if the link is a bridge |
| `PartitionedLinks.BridgeBothWays` | src/inet/common/DijktraKShortest.cc:1369-1372 | a link is a bridge in one direction exactly if it is in the other |
| `PartitionedLinks.AllJudged` | src/inet/common/DijktraKShortest.cc:1351-1378 | with all links tested, the links found are those needed where that is unambiguous, and the bridges where links go both ways |
| `DijkstraKShortestClass.DijkstraKshortest.Run` | src/inet/common/DijktraKShortest.cc:375-564 | terminates for every order of extraction; throws only for a missing root or a node without edge list; ends with all routes simple, recorded and costed, and, without limits, finished |
| `DijkstraKShortestClass.DijkstraKshortest.Handle` | src/inet/common/DijktraKShortest.cc:399-488 | an entry is dropped, and nothing else changes, exactly if its label is permanent or its route is recorded for another label; otherwise its label is recorded and expanded |
| `DijkstraKShortestClass.DijkstraKshortest.Record` | src/inet/common/DijktraKShortest.cc:453-484 | adds the route of the label; there is always room among the K |
| `DijkstraKShortestClass.DijkstraKshortest.FollowEdges` | src/inet/common/DijktraKShortest.cc:490-562 | follows all edges of the label just expanded |
| `DijkstraKShortestClass.DijkstraKshortest.FollowEdge` | src/inet/common/DijktraKShortest.cc:495-562 | an edge that closes a cycle or breaks the limits is skipped, any other leads to a new, replaced or full label |
| `DijkstraKShortestClass.DijkstraKshortest.WorstTentative` | src/inet/common/DijktraKShortest.cc:532-541 | the tentative label chosen for replacement starts from the maximum cost |
| `DijkstraKShortestClass.DijkstraKshortest.EraseWorse` | src/inet/common/DijktraKShortest.cc:551-558 | at most one costlier entry of the replaced label goes |
| `DijkstraKShortestClass.DijkstraKshortest.GetRoute` | src/inet/common/DijktraKShortest.cc:700-726 | terminates and returns the k-th route, or false if there is none |
| `DijkstraKShortestClass.DijkstraKshortest.FollowBack` | src/inet/common/DijktraKShortest.cc:435-460 | the chain of predecessors and indices, reversed, is the route of the label |
| `KShortestPaths.ExpandRoutes` | src/inet/common/DijktraKShortest.cc:488-488 | making a label permanent changes no route |
| `KShortestPaths.LabelChains` | src/inet/common/DijktraKShortest.cc:515-560 | a new or replaced label extends a permanent predecessor by a real edge; permanent labels stay as they are |
| `KShortestPaths.LabelSimple` | src/inet/common/DijktraKShortest.cc:502-504 | routes stay simple and never come back to the root |
| `KShortestPaths.ExpandRecords` | src/inet/common/DijktraKShortest.cc:453-488 | recorded routes are those of the permanent labels, each once |
| `KShortestPaths.RoomLeft` | src/inet/common/DijktraKShortest.cc:478-482 | a node with a label still to be expanded has fewer records than labels |
| `KShortestPaths.SearchExpands` | src/inet/common/DijktraKShortest.cc:399-488 | expanding an entry keeps the whole invariant of the search |
| `KShortestPaths.SearchLabels` | src/inet/common/DijktraKShortest.cc:515-561 | so does giving a label |
| `KShortestResults.LabelCost` | src/inet/common/DijktraKShortest.cc:103-125 | a label's cost is the fold of addCost along the real edges of its route |
| `KShortestResults.RecordsAreSimpleRoutes` | src/inet/common/DijktraKShortest.cc:375-564 | each recorded route is a simple path of real edges from the root; at most K, all different |
| `KShortestResults.ExtensionRecorded` | src/inet/common/DijktraKShortest.cc:495-562 | a simple extension of a recorded route is recorded unless its end used up its K labels |
| `KShortestResults.AllSimpleRoutesRecorded` | src/inet/common/DijktraKShortest.cc:375-564 | if no node used up its labels, exactly the simple routes are recorded |
| `KShortestResults.LabelledAreReachable` | src/inet/common/DijktraKShortest.cc:375-564 | exactly the reachable nodes are labelled and, but for the root, have records |
| `MachoMachine.Machine.ExitState` | src/inet/common/Macho.cc:156-173 | exits, innermost first, exactly what is not kept, the target itself included; own boxes die with their states |
| `MachoMachine.Machine.EnterState` | src/inet/common/Macho.cc:139-153 | enters, outermost first, exactly what is not kept; entered states have boxes |
| `MachoMachine.Machine.SetHistorySuper` | src/inet/common/Macho.h:734-739 | every proper superstate with deep history gets the state left, with shallow history its substate on the way; no other history changes |
| `MachoMachine.Machine.SaveHistory` | src/inet/common/Macho.h:276-297 | the strategies of one state, bubbling up as long as any superstate keeps a history |
| `MachoMachine.Machine.Transit` | src/inet/common/Macho.cc:348-378 | one transition: the trace gains exactly the exits and entries between the two states; exactly the new state and its superstates are entered; histories are null or proper substates |
| `MachoMachine.Machine.GetInstance` | src/inet/common/Macho.h:2085-2096 | one instance per state, created after its superstates' |
| `MachoMachine.Machine.SetPendingState` | src/inet/common/Macho.h:1515-1525 | the requested state becomes pending, or, for an adapted alias with a saved history, exactly that history |
| `MachoMachine.Machine.InitState` | src/inet/common/Macho.cc:175-187 | goes to the history if wanted and there is one, runs init otherwise; the history is spent; a history transition always meets the proper-substate assertion |
| `MachoMachine.Machine.Step` | src/inet/common/Macho.cc:348-396 | one pass of the inner loop leaves fewer passes to come: each pending state lies deeper than the last |
| `MachoMachine.Machine.Settle` | src/inet/common/Macho.cc:348-396 | the inner loop terminates; it fails only where the user's own init method asks for a state that is no proper substate, or dispatches an event |
| `MachoMachine.Machine.RattleOn` | src/inet/common/Macho.cc:342-405 | every number of pending transitions and events keeps the invariants; going to the root cannot fail |
| `MachoMachine.Machine.HandleEvent` | src/inet/common/Macho.h:1897-1906 | an event handler may ask for any transition and one more event; afterwards the invariants hold again |
| `MachoMachine.Machine.Start` | src/inet/common/Macho.cc:248-265 | the invariants hold from the start on, a box given for the top state included |
| `MachoMachine.Machine.Shutdown` | src/inet/common/Macho.cc:268-278 | all states are exited and no box but persistent and empty ones is left |
| `MachoMachine.Machine.BoxLifetimes` | src/inet/common/Macho.cc:145-170 | a box that is neither empty nor persistent lives exactly while its state is entered |
| `StateTrees.BelowIsPrefix` | src/inet/common/Macho.h:789-792 | a state is a substate of another exactly if its path begins with the other's |
| `StateTrees.KeptByExit` | src/inet/common/Macho.cc:156-173 | the exit recursion stops exactly at the longest path kept |
| `StateTrees.KeptByEntry` | src/inet/common/Macho.cc:139-153 | and so does the entry recursion, from the other side |
| `StateTrees.ReplayMove` | src/inet/common/Macho.cc:348-378 | exits and entries of a transition continue a well-nested trace |
| `StateTrees.EnteredExactly` | src/inet/common/Macho.cc:342-405 | the states entered and not yet exited are exactly the non-root superstates-or-self of the current state |
| `StateTrees.Balanced` | src/inet/common/Macho.cc:139-173 | every state has been entered as often as exited, plus one if it is entered |
| `StateTrees.DepthBounded` | src/inet/common/Macho.cc:348-396 | no state lies deeper than there are states, which bounds the inner loop |
| `Int128Class.Int128.AddAssign` | src/inet/common/Int128.cc:202-212 | the sum modulo 2^128, also with itself |
| `Int128Class.Int128.Negated` | src/inet/common/Int128.cc:160-166 | the negation modulo 2^128 |
| `Int128Class.Int128.SubAssign` | src/inet/common/Int128.h:128-131 | the difference modulo 2^128, also with itself |
| `Int128Class.Int128.Increment` | src/inet/common/Int128.cc:168-175 | one more modulo 2^128 |
| `Int128Class.Int128.Decrement` | src/inet/common/Int128.cc:177-184 | one less modulo 2^128 |
| `Int128Class.Int128.ShiftLeftAssign` | src/inet/common/Int128.cc:350-378 | multiplication by 2^n modulo 2^128, for every n |
| `Int128Class.Int128.ShiftRightAssign` | src/inet/common/Int128.cc:319-348 | division by 2^n rounding down, for every n |
| `Int128Class.Int128.BitMeans` | src/inet/common/Int128.cc:289-298 | the bit read is that of the two's-complement pattern, the sign going on forever |
| `Int128Class.Int128.SetBit` | src/inet/common/Int128.cc:300-317 | adds or subtracts 2^n modulo 2^128 exactly if the bit was not as wanted |
| `Int128Class.Int128.MulAssign` | src/inet/common/Int128.cc:214-235 | the product modulo 2^128, also with itself |
| `Int128Class.Int128.Div` | src/inet/common/Int128.cc:237-287 | the truncated quotient and remainder, also if the remainder is the dividend or the divisor; the least number divided gives zero and itself |
| `Int128Class.Int128.LongDivision` | src/inet/common/Int128.cc:253-277 | both loops terminate, the shifted partial remainder never overflows, quotient and remainder are right |
| `Int128Class.Int128.FirstBits` | src/inet/common/Int128.cc:257-263 | the first loop ends in time although its counter may pass zero |
| `Int128Class.Int128.DivAssign` | src/inet/common/Int128.h:133-138 | the truncated quotient, also for x /= x; zero for the least number |
| `Int128Class.Int128.ModAssign` | src/inet/common/Int128.h:140-144 | the truncated remainder although it is written to the dividend; the least number stays |
| `Int128Class.Int128.LessMeans` | src/inet/common/Int128.cc:380-389 | the order is wrong exactly on two negative numbers with equal high words and low words of different top bits |
| `Int128Class.Int128.Str` | src/inet/common/Int128.cc:37-62 | the text of the number in a radix; the buffer never runs out |
| `Int128Class.Int128.Set` | src/inet/common/Int128.cc:64-107 | the number a text stands for, modulo 2^128 |
| `NumberText.DecimalRoundTrip` | src/inet/common/Int128.cc:37-107 | set(str(10)) gives the number back if and only if it is not the least one |
| `NumberText.HexadecimalRoundTrip` | src/inet/common/Int128.cc:37-107 | set of "0x" and str(16) gives the number back if and only if it is not negative |
| `NumberText.OctalRoundTrip` | src/inet/common/Int128.cc:37-107 | set of "0" and str(8) gives the number back if and only if it is not negative |
| `NumberText.DigitsRoundTrip` | src/inet/common/Int128.cc:64-107 | reading the digits of a number gives it back in every radix str can write |
| `WordArithmetic.TruncatedUnique` | src/inet/common/Int128.cc:237-287 | a truncated quotient and remainder are the only ones |
| `WordArithmetic.LeftHighSum` | src/inet/common/Int128.cc:363-375 | the masked bits of the low word are its upper part, joined to the shifted high word |
| `WordArithmetic.RightLowSum` | src/inet/common/Int128.cc:333-345 | the masked bits of the high word are its remainder, joined to the shifted low word |
| `MemoryStreams.MemoryOutputStream.WriteBit` | src/inet/common/MemoryOutputStream.h:114-123 | appends one bit, using a new byte at a boundary |
| `MemoryStreams.MemoryOutputStream.WriteByte` | src/inet/common/MemoryOutputStream.h:151-160 | appends eight bits at any alignment |
| `MemoryStreams.MemoryOutputStream.WriteBytes` | src/inet/common/MemoryOutputStream.h:187-201 | appends the bits of all bytes, aligned or not |
| `MemoryStreams.MemoryOutputStream.WriteEach` | src/inet/common/MemoryOutputStream.h:239-354 | appends the bits of the bytes of a multi-byte value in the order given |
| `MemoryStreams.MemoryOutputStream.WriteData` | src/inet/common/MemoryOutputStream.h:72-86 | appends exactly the requested slice of the bits of the source |
| `MemoryStreams.MemoryOutputStream.WriteUint2` | src/inet/common/MemoryOutputStream.h:209-213 | appends the two bits, the most significant first |
| `MemoryStreams.MemoryOutputStream.WriteUint4` | src/inet/common/MemoryOutputStream.h:219-225 | appends the four bits, the most significant first |
| `MemoryStreams.MemoryOutputStream.WriteString` | src/inet/common/MemoryOutputStream.h:389-392 | appends the bytes and a zero byte |
| `MemoryStreams.MemoryOutputStream.WriteNBits` | src/inet/common/MemoryOutputStream.h:398-406 | appends the low n bits, the most significant first, or refuses more than 64 |
| `MemoryStreams.MemoryOutputStream.WriteField` | src/inet/common/MemoryOutputStream.h:114-406 | appends the encoding of any field |
| `MemoryStreams.MemoryInputStream.ReadBit` | src/inet/common/MemoryInputStream.h:139-153 | takes the next bit, or sets the flag at the end |
| `MemoryStreams.MemoryInputStream.ReadByte` | src/inet/common/MemoryInputStream.h:185-205 | takes the next eight bits at any alignment; with fewer left it sets the flag and skips to the end |
| `MemoryStreams.MemoryInputStream.ReadBytes` | src/inet/common/MemoryInputStream.h:221-240 | takes the bits of the bytes returned, aligned or not; beyond the end what is left and the flag, or, if that is no whole bytes, throws and changes nothing |
| `MemoryStreams.MemoryInputStream.ReadEach` | src/inet/common/MemoryInputStream.h:300-430 | takes the bits of a multi-byte value byte by byte |
| `MemoryStreams.MemoryInputStream.ReadString` | src/inet/common/MemoryInputStream.h:468-473 | takes the bytes up to the first zero, or sets the flag if there is none |
| `MemoryStreams.MemoryInputStream.ReadNBits` | src/inet/common/MemoryInputStream.h:479-491 | takes n bits as a number, or refuses none and more than 64 |
| `MemoryStreams.MemoryInputStream.ReadField` | src/inet/common/MemoryInputStream.h:139-491 | takes a field of the given shape whenever the bits begin with one |
| `MemoryStreams.Transfer` | src/inet/common/MemoryInputStream.h:139-491 | any list of fields written and read back in order is the same list; reading ends at the stream length and never beyond |
| `FieldCodes.Decodable` | src/inet/common/MemoryInputStream.h:139-491 | the bits determine the field of a given shape that begins them, and what is left |
| `FieldCodes.RoundTripN` | src/inet/common/MemoryInputStream.h:479-491 | n bits read back are the value modulo 2^n |
| `FieldCodes.NInverse` | src/inet/common/MemoryInputStream.h:479-491 | the number read from n bits has exactly these bits |
| `BitStrings.AppendByteUnaligned` | src/inet/common/MemoryOutputStream.h:151-160 | a byte spread over the last byte and a new one continues the bits |
| `BitStrings.ByteUnaligned` | src/inet/common/MemoryInputStream.h:185-205 | the byte joined from two neighbours is the next eight bits |
| `InitStageRegistryClass.InitStageRegistry.AssignInitStageNumbers` | src/inet/common/InitStageRegistry.cc:61-98 | unknown stages are reported exactly if there are any, a circle exactly if the dependencies have a cycle; otherwise the stages are a permutation of the old ones, numbered 0 to n-1 in their new order, preceding stages lower; an order that fits already stays |
| `InitStageRegistryClass.InitStageRegistry.Link` | src/inet/common/InitStageRegistry.cc:64-74 | the lists of preceding stages say exactly what the dependencies say |
| `InitStageRegistryClass.InitStageRegistry.Pass` | src/inet/common/InitStageRegistry.cc:77-87 | one pass numbers at least one stage, or every stage left has to follow an unnumbered one |
| `InitStageRegistryClass.InitStageRegistry.NumberOne` | src/inet/common/InitStageRegistry.cc:79-85 | a stage gets the next number exactly if it has none and no preceding stage lacks one |
| `InitStageRegistryClass.InitStageRegistry.SortStages` | src/inet/common/InitStageRegistry.cc:91-93 | the sorted stages are a permutation, each at the place of its number |
| `InitStageRegistryClass.InitStageRegistry.EnsureInitStageNumbersAssigned` | src/inet/common/InitStageRegistry.cc:55-59 | numbers the stages at most once between changes |
| `InitStageRegistryClass.InitStageRegistry.GetNumber` | src/inet/common/InitStageRegistry.cc:46-53 | the number of the first stage of this declaration, the failures of numbering, or unknown exactly if no such stage has been added |
| `InitStageRegistryClass.InitStageRegistry.AddFollowingStage` | src/inet/common/InitStageRegistry.cc:28-38 | adding a stage that only has to follow others changes nobody else's number |
| `InitStageRegistryClass.SortedInOrder` | src/inet/common/InitStageRegistry.cc:91-93 | with different names, sorting leaves every stage behind those it has to follow |
| `StageOrders.StuckIsCyclic` | src/inet/common/InitStageRegistry.cc:88-89 | if every stage left has to follow another one, the dependencies have a cycle |
| `StageOrders.NumberedIsAcyclic` | src/inet/common/InitStageRegistry.cc:75-90 | numbers that respect the dependencies exclude cycles |
| `StageOrders.InOrderGrows` | src/inet/common/InitStageRegistry.cc:28-38 | a new stage that only follows others leaves an order in order |
| `JsonWriterClass.JsonWriter.Quotestr` | src/inet/common/JsonWriter.cc:16-41 | the string up to its first zero with its escapes, quoted; the buffer never overflows |
| `JsonWriterClass.JsonWriter.DoWriteSeparator` | src/inet/common/JsonWriter.cc:207-212 | a comma exactly if the container has an element already, then the line break |
| `JsonWriterClass.JsonWriter.DoWriteKeyEtc` | src/inet/common/JsonWriter.cc:203-214 | throws exactly outside an object, before writing anything; otherwise adds the comma, the key and the colon |
| `JsonWriterClass.JsonWriter.DoWriteArraySep` | src/inet/common/JsonWriter.cc:216-225 | throws exactly outside an array, before writing anything; otherwise adds the comma |
| `JsonWriterClass.JsonWriter.WriteValue` | src/inet/common/JsonWriter.cc:121-190 | adds the value to the innermost container, or throws and changes nothing; the text goes on being the tokens of the trees, the one flag right about the innermost container |
| `JsonWriterClass.JsonWriter.OpenContainer` | src/inet/common/JsonWriter.cc:235-285 | opens a container in the innermost one or at the top, or throws and changes nothing |
| `JsonWriterClass.JsonWriter.CloseContainer` | src/inet/common/JsonWriter.cc:255-299 | makes the innermost container an element of the one around it, or throws and changes nothing |
| `JsonWriterClass.JsonWriter.Document` | src/inet/common/JsonWriter.cc:121-299 | for every sequence of calls: throws exactly where the calls do not fit; if one value is complete, the text parses to the tree of the calls if and only if no string has a zero or a control character without escape |
| `JsonTexts.LexAppend` | src/inet/common/JsonWriter.cc:203-299 | text after text lexes to token after token, unless a number runs on |
| `JsonTexts.ReadBack` | src/inet/common/JsonWriter.cc:16-41 | an escaped string is read back |
| `JsonTexts.ReadSpoilt` | src/inet/common/JsonWriter.cc:30-31 | a control character written as \x spoils the string whatever follows |
| `JsonTexts.ParseBack` | src/inet/common/JsonWriter.cc:203-299 | the tokens of a value parse to the value and leave what follows |
| `JsonTexts.ElementsBack` | src/inet/common/JsonWriter.cc:203-299 | so do the elements of a container, comma by comma |
| `JsonWriterClass.ClosedTokens` | src/inet/common/JsonWriter.cc:255-265 | closing a container adds just its closing bracket to the tokens of the trees |
| `JsonWriterClass.DocumentReadBack` | src/inet/common/JsonWriter.cc:203-299 | a text with the tokens of one value parses to it exactly if its strings are clean |
| `Calendar.JDay` | src/3rdparty/sgp4/SGP4.cc:3070-3091 | the Julian date is that of the beginning of 1900 and the number of the day, the fraction the part of the day |
| `Calendar.Days2mdhms` | src/3rdparty/sgp4/SGP4.cc:3131-3162 | month, day and time of a day of the year; days beyond the year stay in December |
| `Calendar.InvJDay` | src/3rdparty/sgp4/SGP4.cc:3205-3248 | date and time add up to the Julian date, and the date exists if and only if the fraction does not lead past the end of a year; otherwise it is the 32nd of December |
| `Calendar.RoundTrip` | src/3rdparty/sgp4/SGP4.cc:3070-3248 | every date and time of every integer year comes back |
| `Calendar.NextDay` | src/3rdparty/sgp4/SGP4.cc:3070-3091 | from one day of the calendar to the next the number grows by one |
| `Calendar.SameDay` | src/3rdparty/sgp4/SGP4.cc:3070-3091 | different dates have different numbers |
| `Calendar.YearOfDay` | src/3rdparty/sgp4/SGP4.cc:3226-3232 | dividing by 365.25 finds the year of every day |

## Left out

- Null links before a node is linked are modelled as links to the nil sentinel, pointers to intervals as values in which a number tells different objects apart, simulation times as integers from -MAX to MAX.
- IntervalTreeClass.IntervalTree.DeleteNode: the pointer the source returns refers to an interval it has freed; no result is modelled, and freeing is the node's leaving the tree's memory.
- IntervalTreeClass.IntervalTree.Query: intervals whose high end is below their low end, and queries from before -MAX, are covered by `Visit` only.
- Printing the tree and failing reallocation.
- Costs and widths are exact numbers; the second pair of costs in states and heap entries is not modelled.
- DijkstraClass.Dijkstra.RunUntil: in shortestwidest mode no optimality is stated, because re-pushed entries have lost their width; reachability and real routes are.
- DijkstraClass.Dijkstra.DiscoverAllPartitionedLinks: links to unknown nodes, for which the search throws, are excluded; edges are values here; in the source the copy shares them with the caller's topology, where merging a doubled link changes one edge's cost and deletes the other, whose end is still read; the nodes are taken in any order.
- discoverPartitionedLinks, which advances the wrong iterator, getRoutes, getRoutesInfoList and building graphs from a topology.
- DijkstraKShortestClass.DijkstraKshortest.Run: no optimality of costs is stated, because the comparison of cost vectors is no order and replacement begins at the maximum cost; extraction is therefore in any order. The branches for a node all of whose labels are permanent and for a label index beyond the labels, both of which cannot be taken, are not modelled.
- DijkstraKShortestClass.DijkstraKshortest.EraseWorse: of several costlier entries of one label any may be the first.
- runUntil with a target in the K-routes search, getAllRoutes, which returns emptied paths, and setRouteMapK, whose loop never runs.
- MachoMachine.Machine.RattleOn: user handlers are arbitrary functions of all calls made so far; as they may raise events forever, a budget bounds the events of one call, and nothing is claimed about what happens after the budget beyond the invariants.
- MachoMachine.Machine.Settle: the assertions of the source are modelled as they act in debug builds, where entry and exit methods request nothing.
- Machine snapshots, deprecated box setters, clearing histories by hand, event parameters and box contents.
- Int128Class.Int128.Div: dividing by zero or by the least number, which does not terminate, is excluded.
- Int128Class.Int128.AddAssign: signed overflow of the high word is modelled as wrapping.
- Conversions from and to floating point, assignment from plain integers, and bitwise operators on whole numbers.
- MemoryStreams.MemoryOutputStream.WriteEach: the unrolled byte writes of the 16- to 64-bit writers are one loop over the same bytes; so are the reads in MemoryStreams.MemoryInputStream.ReadEach.
- Addresses as stream fields, repeated bits and bytes, copying stream data, seeking and vector capacity.
- InitStageRegistryClass.InitStageRegistry.SortStages: the library sort is modelled by its result.
- InitStageRegistryClass.InitStageRegistry.EnsureInitStageNumbersAssigned: after a circle has been reported the source keeps the count reached, so that the next call reports nothing; the model does the same.
- JsonWriterClass.JsonWriter.WriteValue: one method stands for the calls for booleans, integers and strings, with a key and without; doubles, raw values, other texts for true and false, and files are not modelled.
- JsonTexts.Lex: of the grammar of RFC 8259 numbers with fraction or exponent and escapes by code, which the writer never writes, are not read.
- Calendar.InvJDay: numbers are exact; Julian dates closer to midnight than 10^-8 but not at it, where the source takes the difference for rounding, are excluded.
- The orbit model itself, and the scripts that check and rewrite the change log.
