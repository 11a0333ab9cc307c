# ncode-common in Dafny

A model of the algorithmic cores of ncode-common, a C++ library for network
experiments, with proofs of what they promise. `dafny verify dfyconfig.toml`
checks all of it.

| file | what it models |
|---|---|
| `Basics`, `Words`, `Sorting` | options, bytes and 64-bit words, the contracts of sorting and binary search |
| `Graphs` | links, adjacency lists, exclusions, walks and delays |
| `Dijkstra` | the shortest path tree: a heap that keeps outdated entries, and an early exit |
| `Trie`, `Yen` | the K-shortest-paths generator with Lawler's start indices and its prefix tree |
| `VisitQuery`, `Constraints`, `Sanitizing`, `SpurVisits` | the waypoint query on a derived layered graph, the constraints it is called with and what the answer means for them, and where the generator starts it |
| `AllPairs` | in-place Floyd-Warshall with successor links |
| `Dfs`, `VisitOrder` | depth-first enumeration of paths, the test for visit constraints, and how it relates to the query |
| `Waypoints` | merging waypoint lists by cheapest insertion |
| `Flow`, `FlowOrders` | decomposition of link flows into paths, and what the order of the edge lists has to do with it |
| `ThreadRunner` | the batch processor as interleaved steps of a caller and workers |
| `Ranges`, `Intersection` | sets of indices as lists of ranges, and the sweep that intersects them |
| `IntervalTree`, `Columns` | the interval tree, and the two indices of an integer column |
| `PackedInts`, `RunLength`, `PackedUints` | three compressed integer stores |
| `Match`, `Actions` | the seven-level wildcard match tree, the rules that the matcher owns, and the choice among the actions of a rule |
| `Tcp`, `TcpSink` | the round-trip estimator and the reassembling sink |
| `CEscape`, `EscapeText`, `Base64`, `Base64Text` | text codecs, and what their texts look like |

Conventions. A link index and the record it names are identified. Perfect-hash
sets and maps are sets and maps; a priority queue is a multiset (or a set of
distinct entries) from which any smallest entry may come next, so results hold
for every way of breaking ties. Delays are natural numbers, flows are reals.
Fields that the code updates are class fields; buffers that a function fills
are sequences it returns, and an array where source and destination are the
same. A failing `CHECK` is a `None` or `false` result where
inputs can trigger it, an `assert` in the body where they cannot, and a
precondition where the code documents it as the caller's duty. Word width
appears where it matters: in `Tcp`, `PackedInts`, `RunLength`, `Actions`,
`CEscape` and `Base64` arithmetic is reduced to the width of the code.

Some promises turn out to be false of the code. Each comes with inputs that show
it and with the condition under which the promise holds, an exact one unless it
says otherwise:

- the range set constructor, and `Union` built on it, lose the rest of a range
  that contains a shorter one (`Ranges.NestedRangeIsLost`, `Ranges.CutCover`,
  `Ranges.Union`);
- packed integers of different signs that lie far apart do not come back
  (`PackedInts.FarApartIsLost`, `PackedInts.RoundTripIff`);
- deleting a match rule does not give a shared pattern back to the other rule
  (`Match.OverlapIsNotGivenBack`, `Match.NextKeepsServed`);
- the TCP sink steps over early segments with the size of the packet that closed
  the gap, so with unequal sizes it acknowledges bytes that never arrived or
  keeps a stale start (`TcpSink.SizesMustBeEqual`, `TcpSink.StaleStartStays`,
  `TcpSink.ReceiveIff`, `TcpSink.RunIff`);
- the all-pairs table loses a quick link behind a slow parallel one, crosses
  excluded nodes, and may hold a positive distance from a node to itself
  (`AllPairs.QuickParallelLinkIsLost`, `AllPairs.ExcludedNodeIsCrossed`,
  `AllPairs.SelfLinkHidesZero`, `AllPairs.ExactIffNothingLost`,
  `AllPairs.DiagonalIff`, `AllPairs.GetPath`);
- the flow decomposition leaves links behind, and emits lists of links that are no
  walks, when it runs into a cycle (`Flow.CycleBreaksPath`); no order of the edge
  lists makes it leave one behind exactly when no cycle can be reached from the
  source without leaving the sink (`FlowOrders.AcyclicIffNeverStrays`,
  `Flow.RecoverPaths`);
- traffic is not spread over the actions of a rule by weight when the sum of the
  weights wraps (`Actions.HalvesChooseNothing`, `Actions.FairIff`);
- the base64 decoder ignores a zero byte in the middle and takes one near the end
  for the end (`Base64.ZeroByteIsIgnored`, `Base64.ZeroByte`);
- escaping writes one byte behind the buffer when a numeric escape finds exactly
  four bytes of room (`CEscape.FourBytesOverrun`, `CEscape.CEscapeInternal`); the
  callers in the library always give it more (`CEscape.RoomyNeverOverruns`);
- the waypoint query, and with it the spur query, answers with walks that go
  back to an earlier set, which the enumeration does not accept
  (`VisitOrder.ZigzagIsAccepted`, `VisitOrder.ZigzagIsTheAnswer`,
  `VisitOrder.CompliesIffSegmented`, `SpurVisits.SpurIsShortestTail`).

One assumption turns out not to be needed: sanitized constraints are what the
waypoint query says it assumes exactly when no end point hides behind empty sets
(`Constraints.ReadyIff`), but the query answers rightly all the same
(`VisitQuery.ShortestPathStatic`), because its search never takes two links where
one from the source is as short (`Dijkstra.PathPrefersDirect`,
`VisitQuery.FirstLink`).

## Model

| member | source | states |
|---|---|---|
| Graphs.AdjacencyList.AddLinkAdds | src/net/net_common.h:427-432 | Adding a link keeps the lists well formed and adds exactly that link and its two ends. |
| Dijkstra.PopTop | src/net/algorithm.cc:370-371 | The heap hands out a least entry by delay, then node, and loses nothing else. |
| Dijkstra.LabelsBoundWalks | src/net/algorithm.cc:384-425 | With all links out of the done nodes relaxed, every walk either ends on a node labelled no higher than its delay or is at least as long as every label outside them. |
| Dijkstra.LabelsAreExact | src/net/algorithm.cc:395-400 | Both ways of leaving the loop, an empty heap or the early exit at the last destination, leave labels that no walk undercuts. |
| Dijkstra.SettleKeepsInv | src/net/algorithm.cc:384-400 | The node that is popped with its current label was not settled before, and settling it keeps the whole loop invariant, zero-delay links included. |
| Dijkstra.DropKeepsInv | src/net/algorithm.cc:390-393 | Skipping an outdated heap entry keeps the invariant. |
| Dijkstra.LowerKeepsInv | src/net/algorithm.cc:416-424 | A node whose label is lowered is never a settled one, and recording the new label, predecessor and heap entry keeps the invariant. |
| Dijkstra.RelaxNeighbors | src/net/algorithm.cc:402-425 | After the inner loop all admissible links out of the current node are relaxed and settled labels are unchanged. |
| Dijkstra.ComputePaths | src/net/algorithm.cc:365-427 | For every requested destination the label is the minimum over all admissible walks and is missing exactly when there is none; the predecessor links unfold, for every labelled node, to a simple walk of exactly that delay, and ties go to links from the source. |
| Dijkstra.RecoverPath | src/net/algorithm.cc:299-318 | Following predecessors terminates and yields the walk the tree stands for, or nothing for an unlabelled node. |
| Dijkstra.GetPath | src/net/algorithm.cc:320-330 | A simple walk of minimum delay with that delay, or nothing exactly when there is no walk or the ends coincide. |
| Dijkstra.GetPathDistance | src/net/algorithm.cc:332-343 | The minimum delay over all admissible walks, or the maximum exactly when there is none. |
| Dijkstra.PathPrefersDirect | src/net/algorithm.cc:384-425 | Where a link from the source reaches a node of the path as soon as the path does, the path took such a link: the source is relaxed first and ties replace nothing. |
| Trie.AddExtendsPrefixes | src/net/trie.h:42-118 | Storing a sequence appends its value to the answers for exactly its prefixes and leaves all other answers alone. |
| Trie.EmptyHoldsNothing | src/net/trie.h:49-57 | The empty tree answers every prefix with nothing. |
| Yen.TrieFinds | src/net/algorithm.cc:808-814 | The tree of the listed paths answers a prefix with exactly the indices of the paths that have it. |
| Yen.UnlistedHasSlot | src/net/algorithm.cc:694-720 | Every admissible path that is not listed leaves the listed ones right after some root of theirs, by a link none of them takes there. |
| Yen.SlotIsSearched | src/net/algorithm.cc:694-719 | The excluded nodes and links of a spur search do not hide the tail of any path that leaves the listed ones at that root, although links excluded for shorter roots are kept. |
| Yen.SpurStaysInSlot | src/net/algorithm.cc:705-714 | Root and spur path together form a simple path that leaves the listed ones right after the root. |
| Yen.NoSpurNoSlot | src/net/algorithm.cc:705-708 | A spur search without an answer means that no path leaves the listed ones there. |
| Yen.SpurIsCandidate | src/net/algorithm.cc:706-716 | A spur answer gives a shortest path among all those that leave the listed ones at that root. |
| Yen.FillKeepsInv | src/net/algorithm.cc:705-719 | Each round of the spur loop keeps: one candidate per searched root that still has unlisted paths, and none for unsearched roots. |
| Yen.TakenStable | src/net/algorithm.cc:686-703 | Listing a candidate changes the taken links at its own root only, so skipping the roots before its start index loses nothing. |
| Yen.ShortestCandidateIsNext | src/net/algorithm.cc:722-730 | With all roots searched, the least candidate is as short as any unlisted path. |
| Yen.AppendKeepsInv | src/net/algorithm.cc:726-730 | Listing the least candidate keeps the invariant with the roots from its start index on left to search. |
| Yen.ListedOutlastsRoot | src/net/algorithm.cc:808-814 | A listed path that begins with a root of the last path is longer than the root, so the length check never fires. |
| Yen.ExhaustedMeansComplete | src/net/algorithm.cc:722-724 | No candidate after a search means that every admissible path is listed. |
| Yen.KthIsKthShortest | src/net/algorithm.cc:733-746 | Nothing outside the first k listed paths is shorter than the k-th. |
| Yen.ShortestPath | src/net/algorithm.cc:656-666 | Without visit sets the generator's query is a shortest admissible walk, or nothing when there is none. |
| Yen.KShortestPathsGenerator.constructor | src/net/algorithm.h:314-320 | A new generator has listed nothing and satisfies the invariant. |
| Yen.KShortestPathsGenerator.GetLinkExclusionSet | src/net/algorithm.cc:797-815 | Adds exactly the links that listed paths take right after the root. |
| Yen.KShortestPathsGenerator.SearchSlots | src/net/algorithm.cc:686-720 | One pass over the last path, from its start index, leaves no root unsearched. |
| Yen.KShortestPathsGenerator.NextPath | src/net/algorithm.cc:674-731 | Finds a path exactly when some admissible simple path is not listed yet; then appends one that is not listed and as short as any such path. Otherwise the list is complete and stays as it is, now and on every later call. |
| Yen.KShortestPathsGenerator.PopTop | src/net/algorithm.cc:726-728 | Whichever least candidate is on top, taking it keeps the invariant and it may come next. |
| Yen.KShortestPathsGenerator.KthShortestPathOrNull | src/net/algorithm.cc:733-746 | The k-th path of the list, extended as needed without changing what was listed; nothing exactly when the complete list has no k-th path. |
| Yen.KShortestPathsGenerator.KforPath | src/net/algorithm.cc:748-760 | The index of an admissible path if it is among the first `limit`, else `limit`; neither the delay check nor the use of a missing path can fail. |
| VisitQuery.PathGraphMatches | src/net/algorithm.cc:553-620 | Every walk through the visit sets is matched by a walk of the derived graph that is no longer. |
| VisitQuery.PathGraphWalkClimbs | src/net/algorithm.cc:588-607 | From the segment of its first link on, a simple walk of the derived graph to the destination passes the layers one after another, so each of its links stands for one segment. |
| VisitQuery.ShortCut | src/net/algorithm.cc:553-612 | With the source in the first set, what two links of the derived graph reach through another node of that set one link reaches as soon. |
| VisitQuery.FirstLink | src/net/algorithm.cc:614-623 | So the path that is found starts with a link of the first segment or, with the source in the first set, of the second, whose tree is the one still there. |
| VisitQuery.SegmentIsNeeded | src/net/algorithm.cc:609-611 | A walk through the sets has a segment between any two consecutive layers, so a layer without one rules out every walk. |
| VisitQuery.AddDestinations | src/net/algorithm.cc:594-606 | Adds a link of the shortest delay to exactly the reachable nodes of the next layer, and reports whether there is one. |
| VisitQuery.AddSegment | src/net/algorithm.cc:553-612 | One round builds trees and links for all nodes of a layer, and reports whether the layer leads on. |
| VisitQuery.SubPathExists | src/net/algorithm.cc:632-635 | The path behind a link of the derived graph exists and has the link's delay, so the check on it never fails. |
| VisitQuery.Stitch | src/net/algorithm.cc:625-641 | The concatenated sub-paths form a walk through the sets with the delay of the derived path. |
| VisitQuery.PathGraphDecides | src/net/algorithm.cc:617-641 | A shortest path of the derived graph decides the query, in both directions. |
| VisitQuery.SegmentedIsVisits | src/net/algorithm.cc:553-612 | A walk splits into the segments of the query if and only if there are positions, one for each set and then the end, such that it stands on a node of the set there, on its way to a set stands on no node of any other but the one before, on the destination only after the last, and never on or over anything excluded. |
| VisitQuery.ShortestPathStatic | src/net/algorithm.cc:520-642 | A walk of minimum delay among all walks with such positions; nothing exactly when there is none. That holds for all non-empty disjoint sets, also where the source is in the first or the destination in the last. |
| Constraints.SanitizeConstraints | src/net/algorithm.cc:139-169 | Drops empty sets, a first set with the source and a last set with the destination; fails exactly when a set that is kept holds both end points. |
| Constraints.ReadyIff | src/net/algorithm.cc:139-169 | The result is what the query says it assumes exactly when no end point sits behind empty sets only; always when no set is empty. |
| Constraints.HiddenSource | src/net/algorithm.cc:139-169 | A set with the source behind an empty one is handed on, and the query meets it on the spot. |
| Constraints.HiddenDestination | src/net/algorithm.cc:139-169 | A set with only the destination before an empty one is handed on, and no walk meets it. |
| Constraints.ShortestPathWithConstraints | src/net/algorithm.cc:644-654 | For all disjoint sets, empty ones and end points in them included, the whole query answers with a shortest walk through the remaining sets, position by position, and aborts exactly when a set that is kept holds both end points. |
| Sanitizing.AcceptedVisitsAll | src/net/algorithm.cc:139-169 | A walk that the sanitized query accepts visits every set that the caller gave and that is not empty, in order. |
| Sanitizing.EnumerationNotShorter | src/net/algorithm.cc:139-169 | No simple path that the enumeration lists for the constraints as given is shorter than the answer for the sanitized ones, and without an answer there is none. |
| SpurVisits.ShortestPath | src/net/algorithm.cc:656-666 | The spur query with visit sets: a shortest walk from the spur node through the sets from the index that the root gives. For a root in step that is the number of sets it has met, for any other root the index to resume from. |
| SpurVisits.InStepMeets | src/net/algorithm.cc:55-92 | A root is in step by the indices it has visited exactly when it has met the first sets, those only, and never gone back. |
| SpurVisits.TailIff | src/net/algorithm.cc:656-666 | The tails with which a root in step complies, and which stand on the destination only after the last set, are exactly the walks of the spur query with which it does not go back. |
| SpurVisits.SpurIsShortestTail | src/net/algorithm.cc:656-666 | No complying tail of the root is shorter than the answer of the spur query, and there is none without an answer; the answer is itself one, and so a shortest, if and only if it does not go back. |
| AllPairs.FillDiagonal | src/net/algorithm.cc:456-464 | Exactly the nodes that are not excluded start with distance zero to themselves. |
| AllPairs.FillLinks | src/net/algorithm.cc:466-480 | Of parallel links the last one listed wins; excluded links leave no entry. |
| AllPairs.ThroughKeepsRowAndColumn | src/net/algorithm.cc:482-501 | A phase does not change the row and column that it reads. |
| AllPairs.Phase | src/net/algorithm.cc:482-501 | The in-place double loop computes the same table as updating all entries at once. |
| AllPairs.PhaseBounds | src/net/algorithm.cc:482-501 | After a phase no walk with inner nodes among those processed undercuts its entry. |
| AllPairs.PhaseRealizes | src/net/algorithm.cc:482-501 | After a phase every entry is the delay of some walk. |
| AllPairs.UpdatedSuccessor | src/net/algorithm.cc:492-498 | An improved entry takes over a successor link that lies on a walk of its delay and makes progress in a well-founded rank. |
| AllPairs.ComputePaths | src/net/algorithm.cc:452-502 | The table holds the exact distances of the graph formed by the surviving links, zero from every node that stands in it to itself, and successors that progress towards the destination. |
| AllPairs.SuccessorIsExact | src/net/algorithm.cc:437-442 | An entry is its successor link plus the entry behind that link, at a smaller rank. |
| AllPairs.GetPath | src/net/algorithm.cc:429-445 | Following successors terminates, also across zero-delay links, in a walk with the stored delay, and nothing exactly when there is no entry; the links have that delay if and only if the ends differ or the entry is zero. |
| AllPairs.DiagonalIff | src/net/algorithm.cc:456-480 | An entry from a node to itself is zero if and only if no self-link overwrote the zero of an open node, or the node lies on a cycle without delay. |
| AllPairs.SelfLinkHidesZero | src/net/algorithm.cc:456-480 | A node with a link to itself has that link's delay as its distance to itself. |
| AllPairs.WayAround | src/net/algorithm.cc:452-502 | If crossing blocked nodes is no shortcut, every surviving walk between open nodes has a walk of the query that is no longer: it is cut at its open nodes. |
| AllPairs.ExactIff | src/net/algorithm.cc:452-502 | Of any query and any table: exact between different open nodes if and only if overwriting lost no shortcut and crossing blocked nodes gives none. |
| AllPairs.ExactIffNothingLost | src/net/algorithm.cc:452-502 | The computed table holds the distances of the query, excluded nodes and links and all, between different open nodes if and only if every usable link between such nodes is matched by a surviving walk that is no longer, and every surviving walk that runs through blocked nodes only is matched by a walk of the query that is no longer. |
| AllPairs.NothingToCross | src/net/algorithm.cc:457-464 | Without excluded nodes the second condition always holds. |
| AllPairs.UniqueLinksSurvive | src/net/algorithm.cc:466-480 | With at most one usable link per ordered pair the first condition holds. |
| AllPairs.AgreesWithTree | src/net/algorithm.cc:452-502 | An exact table and a shortest path tree of the same query, excluded nodes and all, hold the same distances. |
| AllPairs.QuickParallelLinkIsLost | src/net/algorithm.cc:466-480 | A quick link listed before a slow parallel one is lost. |
| AllPairs.ExcludedNodeIsCrossed | src/net/algorithm.cc:457-464 | An excluded node still carries traffic in the table, where the query has no walk at all. |
| Dfs.MinVisit | src/net/algorithm.cc:55-92 | Returns the number of sets exactly for walks that visit the sets in order and each at least once, for every walk in step the number of sets it has visited, and for any other walk, at its first index out of step, one more than the smaller of that and the one before. |
| Dfs.CompletesCons | src/net/algorithm.cc:211-251 | Before the destination, completing a trail is taking an allowed unused link and completing the longer trail, limits included. |
| Dfs.CompletesAtEnd | src/net/algorithm.cc:191-200 | At the destination only the empty completion is left, under the hop limit and the visit constraints. |
| Dfs.Search.PathsRecursive | src/net/algorithm.cc:181-251 | Calls back exactly once for each completion of the current trail, with its delay, and restores all scratch state. |
| Dfs.Search.SearchLinks | src/net/algorithm.cc:218-246 | The loop over outgoing links finds each completion that starts with one of them exactly once. |
| Dfs.Paths | src/net/algorithm.cc:253-263 | Lists exactly the walks that satisfy the configuration and the constraints, each once, with their delays. |
| Dfs.DefaultListsAdmissible | src/net/algorithm.cc:181-263 | In the default mode without sets these are the paths that the shortest path generator is to list. |
| Dfs.SamePathsAsGenerator | src/net/algorithm.cc:181-263 | A run of the enumeration and a complete list of the generator hold the same paths. |
| VisitOrder.CompliesIs | src/net/algorithm.cc:55-92 | The test of the enumeration holds exactly for walks that meet all sets and never go back to an earlier one. |
| VisitOrder.SegmentedIff | src/net/algorithm.cc:553-612 | A walk that never goes back splits into the segments of the query if and only if it is a walk of the view that meets all sets and stands on the destination only after the last. |
| VisitOrder.CompliesIffSegmented | src/net/algorithm.cc:55-92 | The walks that the enumeration accepts and that stand on the destination only after the last set are exactly the walks of the query that never go back. |
| VisitOrder.ZigzagIsAccepted | src/net/algorithm.cc:553-612 | The query accepts a walk that goes from the first set to the second, back and on again, and the test of the enumeration rejects it. |
| VisitOrder.ZigzagIsTheAnswer | src/net/algorithm.cc:520-642 | That walk is what the query answers. |
| Waypoints.GetSpTrees | src/net/algorithm.cc:978-987 | A correct tree for every waypoint, whether or not they reach one another. |
| Waypoints.DelayOrDie | src/net/algorithm.cc:918-924 | The least delay of a walk, and an abort exactly when there is none. |
| Waypoints.Triangle | src/net/algorithm.cc:944-948 | Least delays obey the triangle inequality, so the check on the detour never fails. |
| Waypoints.ClosestTo | src/net/algorithm.cc:928-957 | The first position, from the start index on, at which the insertion costs the least; an abort exactly when there is no way over the waypoint at one of these positions. |
| Waypoints.Merge | src/net/algorithm.cc:960-975 | Keeps the ends, the order of both lists and all waypoints; the index handed on is always in range. Aborts exactly when a waypoint, each in turn at its cheapest position, misses a distance. |
| Waypoints.CombineWaypoints | src/net/algorithm.cc:989-1016 | The result is the list to which merging one list after another leads, each waypoint in turn at its cheapest position. Every input list is an ordered subsequence of it, and it holds exactly their waypoints; aborts exactly without lists or when a distance is missing that is asked for on the way. |
| Waypoints.OneCombination | src/net/algorithm.cc:928-1016 | There is only one such list. |
| Waypoints.ForwardIsEnough | src/net/algorithm.cc:989-1016 | Nothing is missing if the source and all waypoints reach all waypoints and the destination; no way back is needed. |
| Flow.SumLoses | src/lp/mc_flow.cc:482-485 | Paths take off the links at a node in sum what crosses them. |
| Flow.PathsBalance | src/lp/mc_flow.cc:470-530 | Paths enter and leave every interior node equally. |
| Flow.PushingConserves | src/lp/mc_flow.cc:470-530 | Taking paths off a conserved flow leaves a conserved flow. |
| Flow.NothingHandedBack | src/lp/mc_flow.cc:516-520 | On a conserved flow without cycles in reach a recursive call returns no remainder. |
| Flow.DrySourceSentAll | src/lp/mc_flow.cc:496-529 | When the links out of the source are dry, all flow that left the source has been emitted. |
| Flow.Recovery.Subtract | src/lp/mc_flow.cc:482-485 | Takes the flow off every link of the current path. |
| Flow.Recovery.RecoverPathsRecursive | src/lp/mc_flow.cc:470-530 | Computes the recursive function, state and all; emitted and returned flow add up to what the call was given, always; unless a link is left behind, the paths are proper and the remaining flow is what they have not taken; without a cycle in reach none is left behind, and if flow is conserved nothing is left over or the edges are dry. |
| Flow.Recovery.ServeEdge | src/lp/mc_flow.cc:496-514 | One edge of the loop keeps all of that, including the edge to a node already on the path. |
| Flow.Recovery.Visit | src/lp/mc_flow.cc:516-523 | Enters a neighbour, recurses and restores path and node set. |
| Flow.Recovery.Descend | src/lp/mc_flow.cc:504-523 | Takes what an edge and the rest of the flow allow, and keeps it. |
| Flow.RecoverPaths | src/lp/mc_flow.cc:532-577 | Emitted total plus remainder is the starting flow; without a cycle in reach of the source the paths run from source to sink, end there the first time, and take no more off any link than it has; with conservation a demand that leaves the source is met in full. |
| Flow.AcyclicHasNoCycle | src/lp/mc_flow.cc:496-530 | What that condition means: no closed walk starts at a node that can be reached from the source, if neither walk leaves the sink. |
| Flow.CycleBreaksPath | src/lp/mc_flow.cc:505-530 | On a conserved flow with a cycle, of any two amounts, the recursion emits a single list of links that is no walk. |
| FlowOrders.AcyclicIffNoCycle | src/lp/mc_flow.cc:496-530 | The ranking that the proofs ask for exists if and only if no closed walk can be reached from the source without leaving the sink. |
| FlowOrders.CycleStrays | src/lp/mc_flow.cc:496-530 | For every walk from the source that comes back there is an order of the edge lists in which the recursion leaves a link behind. |
| FlowOrders.AcyclicIffNeverStrays | src/lp/mc_flow.cc:470-530 | No cycle can be reached from the source without leaving the sink if and only if the recursion leaves no link behind, whatever the order of the edge lists. |
| ThreadRunner.StepInv | src/thread_runner.h:87-168 | Every step of caller, destructor or worker, spurious wake-ups included, keeps the protocol invariant. |
| ThreadRunner.RunInv | src/thread_runner.h:87-168 | It holds in every state of every run over any number of batches, up to and into the destructor. |
| ThreadRunner.AtMostOnce | src/thread_runner.h:139-168 | In every reachable state no argument has been passed on twice in its batch, and a worker that uses the batch pointers finds them set. |
| ThreadRunner.RecordCounts | src/thread_runner.h:111-168 | From the step that hands over a batch until its call is over, the batch is that one, and the record of calls counts the steps in which workers start and end them. |
| ThreadRunner.BatchIsComplete | src/thread_runner.h:111-135 | With at least one worker, when the call that handed over m arguments gets past its wait, the function has been started exactly once on each of them since, and on nothing else, all of it has ended, and no worker is on the batch. |
| ThreadRunner.DestructorWaits | src/thread_runner.h:99-109 | Past its last join every worker has returned, nobody holds the mutex and there is no batch. |
| ThreadRunner.NoDeadlock | src/thread_runner.h:99-168 | Inside a call, and inside the destructor until all workers are joined, some thread can always move without a spurious wake-up: neither the notification of a batch nor that of the kill flag is lost. |
| ThreadRunner.StepUsesUp | src/thread_runner.h:99-168 | Every productive step inside a batch or the destructor uses up some of a bounded amount of work. |
| ThreadRunner.BatchIsBounded | src/thread_runner.h:99-168 | So under every schedule the caller gets past its wait, or its last join, after a bounded number of productive steps. |
| ThreadRunner.CallCanReturn | src/thread_runner.h:111-168 | From every state inside a call, productive steps lead to its end. |
| ThreadRunner.IdleCanGoOn | src/thread_runner.h:99-135 | Between calls a batch of any size can be handed over, and the destructor can start, after at most one step of a worker. |
| ThreadRunner.NoWorkersNothingRun | src/thread_runner.h:87-97 | Without workers a call returns at once and runs nothing. |
| Ranges.CutOverlaps | src/num_col.h:727-742 | Cuts each range at the start of the next; the results do not overlap and the cut never exceeds a range. |
| Ranges.CutCover | src/num_col.h:727-742 | Cutting keeps the covered set if and only if no range reaches past a later one before another takes over. |
| Ranges.Stretch | src/num_col.h:747-764 | One maximal run of touching ranges; the overlap abort is never reached. |
| Ranges.MergeConsecutive | src/num_col.h:744-775 | The merged list is in normal form and covers the same indices. |
| Ranges.RangeSet | src/num_col.h:697-775 | The result is always sorted, non-empty, disjoint and non-adjacent, never covers more than its input, covers all of it exactly when nothing is cut away, and leaves a normal form as it is. |
| Ranges.GrowingEndsCutNothing | src/num_col.h:727-742 | Sorted ranges with non-decreasing ends lose nothing. |
| Ranges.NestedRangeIsLost | src/num_col.h:727-742 | A range inside a longer one makes the rest of the longer one disappear. |
| Ranges.Canonical | src/num_col.h:165-167 | Two normal forms that cover the same indices are equal. |
| Ranges.ContainsIndex | src/num_col.h:794-804 | True exactly for covered indices. |
| Ranges.Union | src/num_col.h:74-89 | Never too large; the union exactly for one set or when nothing is cut away from the concatenation. |
| Intersection.StartKeepsSweep | src/num_col.h:116-120 | A start event keeps: everything all sets cover left of the sweep line is in the output or in the open range. |
| Intersection.EndKeepsSweep | src/num_col.h:121-128 | An end event keeps the same and closes the open range with exactly what all sets cover. |
| Intersection.Advance | src/num_col.h:109-129 | Handles one event of the sweep with the count of open sets. |
| Intersection.SweepLine | src/num_col.h:97-137 | The sweep terminates and its output covers exactly the indices in all sets, touching ends and starts included, without empty ranges. |
| Intersection.Intersect | src/num_col.h:91-140 | An index is in the result exactly when it is in every one of at least one set; fails exactly when a set is empty. |
| IntervalTree.ContainingIntervalCount | src/interval_tree.h:33-47 | Counts the intervals that contain a point. |
| IntervalTree.PickPointForSplitting | src/interval_tree.h:49-90 | For any grid, the first of the grid points that lie in the most intervals or, if none lies in any, the first such midpoint; the point always lies in an interval, so the check on it never fails. |
| IntervalTree.Split | src/interval_tree.h:92-113 | Every interval goes to exactly one part, on its side of the point, and the middle part is not empty. |
| IntervalTree.BuildTree | src/interval_tree.h:310-322 | Terminates for any grid and holds exactly the given intervals in a valid tree. |
| IntervalTree.Lookup | src/interval_tree.h:142-181 | Reports exactly the intervals that contain the point, each as often as it was given. |
| IntervalTree.MakeTreeRoot | src/interval_tree.h:216-232 | The root has a valid tree of the indexed intervals and all their end points in order. |
| IntervalTree.ScanEnds | src/interval_tree.h:253-276 | The first pass reports, once each, the intervals with an end point in the range. |
| IntervalTree.LookupRange | src/interval_tree.h:247-292 | Reports every interval that overlaps the range exactly once and no other. |
| Columns.Get | src/num_col.h:823-858 | Tiles the column with monotone runs, none of which but the last could be extended; the first two values of a run decide its direction, and a single value goes on in the direction before. |
| Columns.Bound | src/num_col.h:860-892 | Binary search in both directions: the values passed over are exactly those below. |
| Columns.IndicesOfValuesInRange | src/num_col.h:894-907 | Exactly the indices of the run with values between the bounds. |
| Columns.MakeIntervalIndex | src/num_col.h:928-940 | The index over the runs of any column is valid. |
| Columns.ConsumeRanges | src/num_col.h:911-926 | The ranges are non-empty, disjoint and hold exactly the indices that a plain scan finds. |
| Columns.GroupIndices | src/num_col.h:1136-1140 | The ordered map holds for each value exactly its indices, in order. |
| Columns.RangesOfValue | src/num_col.h:1146-1152 | Touching indices of a value are merged and none is lost. |
| Columns.MakeBasicIndex | src/num_col.h:1134-1160 | Values in order, each with disjoint ranges that together hold every index under its value. |
| Columns.ConsumeBasic | src/num_col.h:1162-1181 | The ranges are non-empty, disjoint and hold exactly the indices that a plain scan finds. |
| Columns.ConsumeChunk | src/num_col.h:1094-1128 | A packed chunk answers by the extremes of the original values where these decide, and otherwise, with an index of either kind, like a scan of what is read back. |
| Columns.ChunkIff | src/num_col.h:1094-1128 | All queries of a chunk match a plain scan of the original values if and only if these come back. |
| PackedInts.ZigZagRoundTrip | src/num_col.cc:6-14 | Decoding undoes zigzag encoding on every 64-bit integer. |
| PackedInts.ZigZagShifts | src/num_col.cc:6-14 | The encoding is the word shifted left and complemented for negative values, the decoding the word shifted right and complemented for odd ones. |
| PackedInts.Rebase | src/num_col.cc:78-83 | Subtracts the smallest value in word arithmetic. |
| PackedInts.Width | src/num_col.cc:34-39 | The fewest bytes, at most eight, that hold the largest signed distance. |
| PackedInts.Init | src/num_col.cc:16-46 | What is stored for any vector of 64-bit integers, byte by byte. |
| PackedInts.RawValueAtIndex | src/num_col.cc:48-76 | The masked eight-byte load and the exact load give the same slot. |
| PackedInts.At | src/num_col.cc:85-92 | Reads the value of a slot. |
| PackedInts.WidthFits | src/num_col.cc:33-39 | The width chosen from signed distances holds all of them if and only if none has its top bit set or another one needs eight bytes. |
| PackedInts.RoundTripIff | src/num_col.cc:16-92 | Every value comes back if and only if the width is right in that sense. |
| PackedInts.UsualValuesComeBack | src/num_col.cc:16-92 | That is so for vectors without negative values and for values in [-2^62, 2^62). |
| PackedInts.FarApartIsLost | src/num_col.cc:16-46 | A negative value next to one of 2^62 breaks it. |
| PackedInts.PackThenRead | src/num_col.cc:16-92 | Packing such a vector and reading an index gives the value. |
| PackedInts.PackAndReadBack | src/num_col.cc:16-92 | Packs a vector and reads all of it back. |
| PackedInts.ReadBackIff | src/num_col.cc:16-92 | What is read back is the vector if and only if the width is right, said of the values alone. |
| RunLength.RLEField.Append | src/packer.h:160-187 | The stored sequence grows by exactly the value, in word arithmetic, by extending the last stride or adding one. |
| RunLength.FewestStrides | src/packer.h:121-187 | No other strides for the stored sequence are fewer, in word arithmetic. |
| RunLength.RLEField.Restore | src/packer.h:213-226 | Returns the appended integers in order. |
| RunLength.RLEField.At | src/packer.h:240-252 | Random access returns the appended integer; the search never lands before the first stride. |
| RunLength.RLEFieldIterator.Next | src/packer.h:301-315 | The k-th call returns the k-th integer, and nothing after the last, for good. |
| PackedUints.CodeRoundTrip | src/packer.cc:19-162 | A difference is read back from its bytes whatever follows, in the fewest bytes that hold it. |
| PackedUints.CodeIsNumber | src/packer.cc:19-91 | The bytes of a difference, read as one number with the highest byte first, are the difference with the number of further bytes in the three highest bits, and they are as few as can be. |
| PackedUints.PackedUintSeq.Append | src/packer.cc:19-91 | Accepts exactly values from the last one up to 2^61 above it, appends them, and reports the bytes that were added. |
| PackedUints.PackedUintSeq.DeflateSingleInteger | src/packer.cc:93-162 | Decodes the difference at an offset and its size. |
| PackedUints.PackedUintSeq.Restore | src/packer.cc:164-175 | Returns the appended integers in order. |
| PackedUints.PackedUintSeqIterator.Next | src/packer.cc:177-190 | The k-th call returns the k-th integer, and nothing after the last, for good. |
| Match.InsertAt | src/htsim/match.h:308-326 | Inserting changes the rule of exactly one pattern. |
| Match.ClearAt | src/htsim/match.h:274-283 | Clearing removes the rule from every pattern that has it and changes nothing else. |
| Match.LookupFindsBest | src/htsim/match.h:285-306 | A lookup returns the rule of the matching pattern that is preferred to every other, exact before wildcard field by field. |
| Match.LookupMissesNone | src/htsim/match.h:285-306 | A lookup fails only when no pattern of the tree matches. |
| Match.AcceptsIsMatches | src/htsim/match.cc:314-378 | A pattern matches a packet if and only if each of the seven fields that it names is that of the packet. |
| Match.OutranksIsPrefers | src/htsim/match.cc:314-378 | The preferred pattern names a field that the other leaves open, at their first difference in the order input port, tag, destination, source, protocol, source port, destination port. |
| Match.InForceIsServer | src/htsim/match.cc:254-282 | The rule that serves a pattern is the last that asks for its fields and whose key has not been used again. |
| Match.Matcher.constructor | src/htsim/match.h:421-458 | An empty matcher serves nothing. |
| Match.Matcher.AddRule | src/htsim/match.cc:254-282 | After any sequence of additions, replacements and deletions the tree serves each pattern by the last rule given for it whose key has not been used again, and the rule map holds the last rule of each key. |
| Match.Matcher.MatchOrNull | src/htsim/match.cc:242-252 | No rule exactly when no rule in force accepts the packet; otherwise the one that outranks all others in force that do, field by field, which the matcher owns, and the action of it that the hash chooses. |
| Match.ServerIsOwner | src/htsim/match.cc:254-282 | Every rule that serves a pattern is owned. |
| Match.NextKeepsServed | src/htsim/match.cc:254-282 | An addition or replacement keeps all owned rules in force; a deletion does if and only if the deleted rule shadows no pattern of another one. |
| Match.NoSharingAllServed | src/htsim/match.cc:254-282 | Without patterns shared between keys all owned rules are always in force. |
| Match.OverlapIsNotGivenBack | src/htsim/match.cc:254-282 | Deleting a rule that overlaps an earlier one leaves the earlier one owned but out of force. |
| Actions.AddWeight | src/htsim/match.cc:119-137 | The total is the sum of the weights in a 32-bit word. |
| Actions.ChooseOrNull | src/htsim/match.cc:164-190 | A single action always; otherwise nothing exactly when the total is zero, and else the action on whose stretch of the line the reduced hash falls. The abort behind the loop is never reached. |
| Actions.ChoiceIsStable | src/htsim/match.cc:164-190 | Equal hashes get the same action. |
| Actions.FairIff | src/htsim/match.cc:164-190 | Of the reduced hashes every action gets as many as its weight if and only if the sum of the weights does not wrap. |
| Actions.HalvesChooseNothing | src/htsim/match.cc:164-190 | With two weights of 2^31 no hash chooses an action. |
| Tcp.NextRtt | src/htsim/tcp.cc:102-107 | One sample keeps the scaled average among the samples. |
| Tcp.NextMdev | src/htsim/tcp.cc:109-119 | One sample keeps the mean deviation below max(2 hi, 4 (hi - lo) + 3). |
| Tcp.RunBounded | src/htsim/tcp.cc:102-125 | Both hold over every run of samples in [lo, hi], and no word comes near its width. |
| Tcp.NextSmooths | src/htsim/tcp.cc:102-123 | A sample does exactly this: seven eighths of the average and an eighth of the sample, three quarters of the deviation and the whole error, or 31 of 32 parts and an eighth of the error if it is early and more than a quarter of the deviation, each with less than one unit of rounding; the first sample sets both. |
| Tcp.ConstantSamplesSettle | src/htsim/tcp.cc:102-125 | With equal samples the average is exact and the deviation falls until it is below four. |
| Tcp.StepIsFollowed | src/htsim/tcp.cc:102-107 | After a step to a new constant sample the average moves towards it with every sample, never past it, and reaches it. |
| Tcp.Update | src/htsim/tcp.cc:104-119 | The mixed signed and unsigned 64-bit steps never wrap. |
| Tcp.TCPSource.ReceiveSample | src/htsim/tcp.cc:101-138 | Works in a sample just so, without wrapping; the timeout is average plus deviation, or 200 ms where that is less, or 2 s where it is more than 5 s. |
| TcpSink.TCPSink.ReceivePacket | src/htsim/tcp.cc:417-463 | The in-place list code computes the step function and acknowledges its cumulative number. |
| TcpSink.KeepContents | src/htsim/tcp.cc:446-460 | Keeping a segment adds it in order, once. |
| TcpSink.DrainIff | src/htsim/tcp.cc:432-444 | Stepping over the kept starts with one size leaves the sink in order if and only if every segment of the run has that size. |
| TcpSink.ReceiveIff | src/htsim/tcp.cc:424-460 | With segments of any positive sizes that lie end to end: one more packet, in any order and possibly a duplicate, leaves a sink in order if and only if it is neither the first nor the next expected segment, or comes with its own size, which for the next one must also be the size of every kept segment in the run behind it. |
| TcpSink.RunIff | src/htsim/tcp.cc:411-463 | In every run, with losses and duplicates, the sink is in order after each packet if and only if each packet satisfies that when it arrives. |
| TcpSink.AckIsLongestPrefix | src/htsim/tcp.cc:411-463 | So for equal-size segments the acknowledgement is always the longest contiguous prefix of what arrived since the last segment numbered 1, and the kept list is exactly the rest, strictly increasing and beyond the next expected byte. |
| TcpSink.AckInBytes | src/htsim/tcp.cc:411-463 | A sink in order acknowledges exactly the bytes up to the first that is missing. |
| TcpSink.SizesMustBeEqual | src/htsim/tcp.cc:432-444 | With a segment of 5 bytes early the acknowledgement is 30, although bytes 26 to 30 never arrived. |
| TcpSink.StaleStartStays | src/htsim/tcp.cc:432-444 | With two of them the number is right by chance and a stale start stays in the list. |
| CEscape.CEscapeInternal | src/strutil.cc:523-584 | Writes the escaped string in each of the modes; fails exactly when the buffer cannot hold it and a terminator; writes at most one byte behind the buffer, and that if and only if a numeric escape finds exactly four bytes of room. |
| CEscape.RoomyNeverOverruns | src/strutil.cc:523-584 | More than four bytes of buffer for each byte always keep the writing inside. |
| CEscape.FourBytesOverrun | src/strutil.cc:523-584 | One byte that is not printable and a buffer of four write behind it. |
| CEscape.EscapeLength | src/strutil.cc:523-584 | Escaping never shrinks a string and never makes it more than four times as long. |
| CEscape.CHexEscape | src/strutil.cc:698-705 | The buffer is always large enough, for the terminators of numeric escapes too. |
| CEscape.Utf8SafeCEscape | src/strutil.cc:689-696 | The buffer is always large enough, for the terminators of numeric escapes too. |
| CEscape.CEscapedLength | src/strutil.cc:589-620 | The table predicts the escaped length. |
| CEscape.CEscapeAndAppend | src/strutil.cc:629-679 | The faster octal form, with its shortcut, agrees with the general one. |
| CEscape.UnescapeCEscapeSequences | src/strutil.cc:329-475 | The pointer loops compute the unescaping function, and the output never outgrows the input. |
| CEscape.UnescapeInPlace | src/strutil.cc:329-475 | On a single buffer with a string that ends in a zero byte the output never overtakes the input: in the end the buffer holds the string unescaped and its terminator, whatever was behind the old end, where nothing has changed. |
| CEscape.ReadOctal | src/strutil.cc:381-395 | Up to three octal digits, added up in a byte. |
| CEscape.ReadHex | src/strutil.cc:396-419 | All hex digits that follow, added up in a 32-bit word. |
| CEscape.UnescapeByte | src/strutil.cc:338-472 | One escaped byte is read back as that byte, whatever may follow it. |
| CEscape.RoundTrip | src/strutil.cc:329-584 | Unescaping undoes escaping in every mode, for every byte string, despite greedy hex digits. |
| EscapeText.EscapeIs | src/strutil.cc:523-584 | A text is the escaped form of a string if and only if it consists of one piece for each byte: the pair for newline, return, tab, quotes and backslash, the character itself if it is printable or kept for UTF-8, else a backslash and three octal digits, or x and two hex digits, with the value of the byte; behind a hex escape hex digits are escaped as well. |
| EscapeText.UnescapeIs | src/strutil.cc:329-475 | The decoder writes exactly what the text says: eleven named escapes, one to three octal digits, any number of hex digits in either case, modulo 256, nothing for other escapes, and everything else as it is, up to a zero byte. |
| Base64.EncodeLength | src/strutil.cc:1717-1761 | The predicted length is the length of the encoding, padded or not. |
| Base64.Base64EscapeInternal | src/strutil.cc:2170-2267 | Encodes in groups of three; gives nothing exactly when the buffer is too small. |
| Base64.Base64Escape | src/strutil.cc:2284-2294 | The result has exactly the predicted length. |
| Base64.SlowGroup | src/strutil.cc:1814-1866 | Reads four digits across white space, or stops after fewer with their bits at the low end of the word. |
| Base64.DecodeGroups | src/strutil.cc:1837-1886 | The loop with its fast path agrees with reading one character at a time; it says where it stops and what is then left to read, at a zero byte, white space, padding or for lack of characters. |
| Base64.DecodeRest | src/strutil.cc:1911-1967 | The clean-up loop goes on from there, up to the padding, a zero byte or the end. |
| Base64.DecodeTail | src/strutil.cc:1969-2025 | The bytes of an incomplete group, and the right amount of padding up to a zero byte. |
| Base64.Base64UnescapeInternal | src/strutil.cc:1792-2025 | For every input the result is that of reading one character at a time, as far as it fits; a zero byte is stepped over by the first loop and ends the second. |
| Base64.ReadIsScan | src/strutil.cc:1792-2025 | Without zero bytes it makes no difference which loop reads what. |
| Base64.ZeroByte | src/strutil.cc:1814-1944 | A zero byte behind digits and white space is ignored if the group in which it is met could still be completed, and ends the digits otherwise. |
| Base64.ZeroByteIsIgnored | src/strutil.cc:1814-1944 | QUJD with a zero byte in the middle is read as ABC. |
| Base64.Base64Unescape | src/strutil.cc:2137-2160 | The buffer sized from the input is always large enough, for every input. |
| Base64.RoundTrip | src/strutil.cc:1792-2267 | Reading back an encoding gives the bytes, padded or not, in both alphabets. |
| Base64.EncodeThenDecode | src/strutil.cc:1792-2294 | So does the decoder applied to the output of the encoder. |
| Base64Text.StandsIs | src/strutil.cc:2056-2273 | The tables of both directions are those of the two alphabets. |
| Base64Text.EncodeIs | src/strutil.cc:2170-2267 | A text is the encoding of the bytes if and only if it spells their big-endian number with 64 digits of the alphabet, shifted to a multiple of six bits, with the padding that fills the last group. |
| Base64Text.DecodeIs | src/strutil.cc:1792-2025 | A text without zero bytes is decoded to some bytes if and only if it consists of digits and white space, then padding and white space, the padding is absent or fills the last group, and the bytes are the number of the digits without surplus bits. |

## Left out

- File, pcap, physical interface, logging, status plumbing, plot templates: input, output and wrappers.
- Linear programs (src/lp/lp.cc and the constraint building and binary searches of src/lp/mc_flow.cc): they rest on foreign solvers; only the flow decomposition is modelled.
- Yen.ShortestPath: the query without visit sets; SpurVisits.ShortestPath has the one with them.
- Yen.KShortestPathsGenerator.constructor: constraints without visit sets.
- Yen.KShortestPathsGenerator.NextPath: the list of the generator with visit sets is not modelled, only its spur query, because answers that go back leave the paths that it is to list.
- DisjunctKShortestPathsGenerator: it drops consecutive duplicates only, so equal delays can repeat a path.
- Dfs.Paths: no bound on the distance of listed walks follows from the distance limit, because the code tests it before the destination only; the model does the same.
- Flow.RecoverPaths: exact reals instead of floating point, and no one per cent tolerance check. With a cycle in reach nothing is promised about the paths, since it depends on the order of the edges whether one is met and on the rest of the run whether that spoils a path.
- ThreadRunner.RunInv: a function that throws is not modelled; a single thread makes the calls and, after them, runs the destructor.
- RunInParallel as a free function (src/thread_runner.h:19-80): the same loop without the hand-over that makes the protocol hard.
- IntervalTree.Lookup: consumers that stop early are not modelled; nor are floating-point grid values and the overflow of midpoints, since candidate points are arbitrary and integers unbounded.
- Intersection.SweepLine: indices are unbounded.
- Columns.Bound: the index below a run that starts at zero is -1 instead of the wrapped word; the range computed from it is the same.
- Columns.ConsumeChunk: chunks that keep run-length values are not modelled, because their extremes are never initialised in the code; neither are boolean and double columns.
- Storage over several chunks: offsets of chunk answers, would only add easy members.
- Match.InsertAt: nodes of the tree are values, so update in place and sharing between nodes are not captured; the class fields of the matcher are.
- Match.Matcher.MatchOrNull: the hash of a packet is a parameter; statistics are not modelled.
- Tcp.TCPSource.ReceiveSample: congestion window, retransmission and handshake are not modelled.
- TcpSink.AckIsLongestPrefix: tags, callbacks and the packet that carries the acknowledgement are not modelled.
- CEscape.UnescapeCEscapeSequences: source and destination are different buffers, UnescapeInPlace has them the same; errors are not reported, as in the code.
- Base64.Base64UnescapeInternal: the mode without a destination, which only counts, is not modelled.
- Bloom filter, circular array, perfect-hash sets, string concatenation, statistics, queues, animators, flow drivers: would only add easy members, or rest on randomness.
