# SPCD: placement, sharing detection, page hiding and the matrix record, in Dafny

SPCD is a kernel module that watches page faults to find out which threads of a parallel
program share memory, and moves threads that share much close to each other. This project
models its four parts and proves what they promise.

**Placement.** A uniform hardware tree is built in a vertex and edge arena, walked for its
level tables, and measured by an in-place shortest-path computation. A greedy algorithm groups
the threads bottom-up by communication, re-aggregating the matrix into two alternating,
uninitialised buffers, and lays the group tree out on the hardware tree. The end result:
every run, for every list of arities, every matrix and every number of threads up to the limits,
gives each thread a processing unit of the machine, loads the units evenly, and puts two
threads under the same vertex of a shared level exactly when they are in the same group of
that level. The placement is determined by the matrix alone, no accumulator overflows, no
unwritten cell is read, and every assertion of the mapping recursion holds.

**The whole module.** Starting from nothing, handlers and mapping rounds can follow each other in any
order; every round places as many threads as are active, greedily, by exactly what had been counted by then. The one
condition is that a round finds at most 128 active threads (`MAX_THREADS`, the size of the mapping's tables). Nothing in
the module ensures it: it always holds exactly if `max_threads` is at most 128 or the pid hash does not have 129
different values for positive pids, so with the default of 1024 threads the environment has to.

**Sharing detection.** A direct-mapped page table keeps the two most recent accessors of a page
and counts into a triangular matrix. It is compared with an unbounded history per page: cells
never exceed what the histories would count, and equal it as long as no page was evicted; two different threads that fault on
one page, one right after the other, are always counted. Around it,
the pid table and the handlers for processes, forks and faults form a session state machine whose
invariant holds after every sequence of events; it says, across resets too, which process every
counted access belongs to.

**Page hiding.** The scanner hides a present page per provoked fault, cycling through the eligible
memory areas from where it stopped. It is proved to hide the cyclically next page, exactly
as many as asked for and available, and to touch nothing else. This is false in one situation: the
32-bit walk counter overflows in the middle of a search. A call for `n` faults that starts with the
counter at `w` is safe from that, whatever the areas, pages and random jumps, exactly if
`w + min(n, 61) <= 2^32 - 1`; and a call moves the counter by at most `min(n, 61) + 4`. So over a whole life with new
threads and resets in between no call misses a page until the calls since the last reset could have used the counter up.

**Matrix record.** The encoding of the matrix is inverted by the decoding, both ways.

## How it is organised

- `Arithmetic`, `Lib`: number facts; powers of two and the two-dimensional table.
- `Matrices`, `Affinity`: the communication matrix; sums of communication and their conservation.
- `Graph`, `TreeShape`, `PuNumbers`, `Walk`, `Topology`: arena, the tree as a value, the ids of its units, preorder walk,
  builder and level tables.
- `ShortestPaths`, `Distances`, `TreePaths`, `Ultrametric`: shortest distances, their in-place computation, their closed form.
- `GreedyRule`, `Forest`: what a greedy grouping is, and the group forest as a value.
- `Greedy`, `Placement`, `Locality`, `Nearness`: the algorithm, and what its result guarantees.
- `Windows`, `Detector`: histories and windows, and the page table with the matrix.
- `Pids`, `Session`, `Pipeline`: pid table, handlers, and runs of the whole module.
- `PageRule`, `WalkCounter`, `PageScan`, `ScanLife`: which pages a scan hides, how far its counter moves, the scanner, and
  its whole life.
- `Codec`: the record.

State that the program changes in place is a class whose methods are proved against functions on
values (`Layout`, `CallEnd`, `StateAfter`, `SlotOf`, `Through`, `Encoded`); the guarantees are lemmas about
those functions. Pointers into the arenas are indices. An assertion of the original that can
only fail in a branch proved unreachable is `assert false` there.

Assumed of the callers: every arity is at least 1 and there is at least one level; the ids of the processing
units are distinct; `1 <= n <= min(MAX_THREADS, max_threads)` threads are mapped (the mapping thread itself checks
only `n >= 4`); process and fault handlers
see positive pids; `max_threads` is a power of two of at most 16384; the detection granularity is at most a page;
allocation succeeds.

## Model

| member | source | states |
|---|---|---|
| Placements.MapThread.constructor | map.c:18-33 | the topology is built, its level tables are made and the algorithm is initialised, all in fresh memory: everything a mapping round needs |
| Placements.MapThread.PlaceThreads | libmapping/mapping-greedy.c:275-320 | a round can always be run, again and again; the map it writes is the placement of a greedy forest of the matrix: a thread gets the id that the caller's table has for its leaf, or the leaf's number without a table; entries of other threads keep their value |
| Placements.EveryThreadPlaced | libmapping/mapping-greedy.c:108-152 | every thread gets a processing unit of the machine, the one its path of groups leads to: the map holds the entry of the caller's id table for it, or its number without a table |
| Placements.EvenLoad | libmapping/mapping-greedy.c:70-106 | every id of the table gets floor(n/P) or ceil(n/P) threads if n >= P, and at most one otherwise |
| Localities.GroupsShareVertices | libmapping/mapping-greedy.c:108-152 | locality: the units whose ids the map holds for two threads are vertices of the arena from which the same number of parent links leads to the same vertex iff the threads are in the same group of that vertex's level |
| Nearness.ThreadDistance | libmapping/topology.c:42-80 | two threads have a lowest level at which they share a group; the distance table holds for their units 0 if that is level 1, and otherwise min(65535, 2^(h+2) - 4), h being the height of the shared vertices of that level |
| Nearness.LowerIsNearer | libmapping/mapping-greedy.c:108-152 | the lower that level, the nearer the units |
| Localities.GroupsAreVertices | libmapping/mapping-greedy.c:108-152 | the same for the position of the vertex above a leaf |
| Localities.SameVertexAbove | libmapping/topology.c:158-197 | two leaves are below the same vertex of a depth iff they are in the same block of as many consecutive leaves |
| Localities.LeafVertex | libmapping/topology.c:166-173 | the lowest of these vertices is the arena's processing unit, and carries the id that the caller's table has for the leaf, or the leaf's number |
| Localities.ClimbsAbove | libmapping/topology.c:185-193 | following last links from there visits exactly these vertices |
| Placements.ThreadZeroLeftmost | libmapping/mapping-greedy.c:37-68 | thread 0 is always on the leftmost processing unit, the first of the id table |
| Placements.PlacementUnique | libmapping/mapping-greedy.c:275-320 | the map is a function of the matrix: two rounds whose matrices agree off the diagonal for the threads they place build the same forest and the same map |
| Pipeline.MapRound | map.c:39-46 | with at least four active threads the matrix exists, shows (mod 2^32) what the session counted, and the map is its greedy placement; with fewer nothing is mapped; session and mapping thread stay valid for what follows |
| Pipeline.TakeStep | map.c:35-63 | a handler step, or a mapping round that finds at most 128 active threads, can always be taken, and a round places as many threads as are active by what had been counted by then |
| Pipeline.RunModule | map.c:35-63 | a whole run from the start, for any sequence of such steps and any thread limit |
| Pipeline.AlwaysRoomExactly | map.c:39-46 | no sequence of handler steps can lead a round to more than 128 active threads iff the thread limit is at most 128 or the pid hash does not have 129 different values for positive pids |
| Pipeline.RoundUnique | map.c:39-46 | what was counted determines where a round places the threads |
| GreedyMapping.Mapper.Init | libmapping/mapping-greedy.c:208-264 | after initialisation there is one level more than shared levels, and the capacity of each level is the number of its hardware units |
| GreedyMapping.Mapper.DetectLevels | libmapping/mapping-greedy.c:180-223 | the two walks find the number of shared levels plus two and the arities of the shared levels in reverse |
| GreedyMapping.Mapper.ComputeCapacities | libmapping/mapping-greedy.c:225-231 | each repeated division is exact: level l has the product of the arities above it |
| GreedyMapping.Mapper.Truncate | libmapping/mapping-greedy.c:233-238 | exactly the levels above the first one with a single unit are dropped |
| GreedyMapping.Mapper.FindWinner | libmapping/mapping-greedy.c:45-62 | the winner is the lowest-numbered free element that communicates most with the group so far: no free element has a greater sum over the members, and no lower-numbered one as great a sum |
| GreedyMapping.Mapper.GenerateGroup | libmapping/mapping-greedy.c:37-68 | the group consists of successive greedy choices, the first being the lowest free element; its pointers, marks and winners agree, and other groups stay as they are |
| GreedyMapping.Mapper.FormGroups | libmapping/mapping-greedy.c:85-103 | the loop ends with exactly the computed number of groups, each greedy after the ones before it, and touches no other level |
| GreedyMapping.Mapper.GenerateGroups | libmapping/mapping-greedy.c:70-106 | the elements are partitioned into min(elements, units) groups whose sizes differ by at most one, larger ones first |
| GreedyMapping.Mapper.PairWeight | libmapping/mapping-greedy.c:168-173 | the double loop sums the communication over all member pairs of two groups, reading only written cells |
| GreedyMapping.Mapper.RecreateMatrix | libmapping/mapping-greedy.c:159-178 | the new matrix is the old one coarsened by the groups, mod 2^32, and all its off-diagonal cells are written; the buffer read is not the one written |
| GreedyMapping.Mapper.BuildLevel | libmapping/mapping-greedy.c:292-312 | one round adds a greedy level and hands over the matrix of exactly that level |
| GreedyMapping.Mapper.BuildForest | libmapping/mapping-greedy.c:281-312 | the bottom-up loop builds a forest in which every level is greedy for the aggregated original communication, across all buffer swaps |
| GreedyMapping.Mapper.MapToPu | libmapping/mapping-greedy.c:114-124 | at a processing unit the elements are threads and there is one; exactly they are sent to the unit |
| GreedyMapping.Mapper.MapElement | libmapping/mapping-greedy.c:127-135 | element i of a group goes to child i; the link that leads back is never met |
| GreedyMapping.Mapper.MapGroups | libmapping/mapping-greedy.c:108-152 | the recursion terminates with all its assertions true, and sends exactly the threads below the group to the leaf their ranks encode |
| GreedyMapping.Mapper.GreedyMap | libmapping/mapping-greedy.c:275-320 | the whole map is the layout of the greedy forest, with its root group, on the whole machine |
| GreedyMapping.SumsFit | libmapping/mapping-greedy.c:168-173 | no sum the algorithm forms overflows its 64-bit accumulator |
| GreedyRule.GreedyUnique | libmapping/mapping-greedy.c:37-68 | the greedy rule with its tie-breaking determines the grouping |
| GreedyRule.GreedyChoice | libmapping/mapping-greedy.c:45-62 | for every level of a greedy forest: no element taken up later, by the same group or a later one, communicates more with the members so far than the one taken next, and as much only with a higher number |
| GreedyRule.ForestUnique | libmapping/mapping-greedy.c:292-312 | the greedy rule determines the whole forest |
| GreedyRule.GreedyCongruent | libmapping/mapping-greedy.c:47-61 | the choice depends only on off-diagonal cells |
| GreedyRule.GreedyLevelsCongruent | libmapping/mapping-greedy.c:292-312 | a forest that is greedy for a matrix is greedy for every matrix that agrees off the diagonal |
| GreedyRule.ThreadsAreUp | libmapping/mapping-greedy.c:66-66 | following the groups down and following a thread up name the same members |
| GreedyRule.Aggregation | libmapping/mapping-greedy.c:159-178 | coarsening level by level gives the sums mod 2^32 of original cells over all thread pairs of two groups |
| GreedyRule.LevelSize | libmapping/mapping-greedy.c:76-81 | level l has min(threads, units of the level) groups, the units being the product of the arities above |
| GreedyRule.GroupFits | libmapping/mapping-greedy.c:126-126 | a group never has more elements than its vertex has children |
| GreedyRule.GroupsNonEmpty | libmapping/mapping-greedy.c:115-115 | no group is empty |
| GreedyRule.RootCompletes | libmapping/mapping-greedy.c:314-318 | with the group of all top-level groups the forest fits the machine |
| GreedyRule.FirstIsZero | libmapping/mapping-greedy.c:44-65 | the first element of the first group of every level is element 0 |
| Forest.OffsetSplit | libmapping/mapping-greedy.c:127-131 | the leaf of a thread splits into the unit of its level l group and the offset inside it |
| Forest.UnitIdentifiesGroup | libmapping/mapping-greedy.c:127-131 | two threads are in the same level l group iff those groups have the same unit |
| Forest.Locality | libmapping/mapping-greedy.c:108-152 | and iff their leaves have the same quotient by the leaves per unit |
| Forest.LeafInRange | libmapping/mapping-greedy.c:126-131 | the ranks of groups never lead outside the machine |
| Forest.SameLeafSameGroup | libmapping/mapping-greedy.c:120-123 | threads share a leaf iff they share a level 1 group |
| Forest.ElementIsChild | libmapping/mapping-greedy.c:127-135 | element r of a group is laid out on child r of the group's unit |
| Affinity.FlatPartition | libmapping/mapping-greedy.c:90-103 | groups that list every element once form a partition: each element has exactly one group and rank |
| Affinity.Conservation | libmapping/mapping-greedy.c:166-177 | total pairwise communication equals that inside groups plus that between groups |
| Affinity.ConservationExact | libmapping/mapping-greedy.c:166-177 | and exactly for the stored cells, if the old total is below 2^32 |
| Affinity.ConservationModulo | libmapping/mapping-greedy.c:166-177 | the same mod 2^32 for the cells as they are stored |
| Affinity.WrapIsModulo | libmapping/lib.h:107-113 | what a 32-bit cell keeps of a number is its remainder mod 2^32 |
| Matrices.IndexInRange | spcd.h:85-91 | the shifted index of a pair below max_threads is inside the buffer |
| Matrices.IndexInjective | spcd.h:85-91 | two pairs share a cell only if they are the same unordered pair |
| Matrices.UpperZeroAfter | spcd.h:95-107 | diagonal and upper triangle stay zero |
| Matrices.ReadingAfter | spcd.h:95-107 | changing the cell of a pair changes what is read for that pair, in both orders, and nothing else |
| Matrices.CommMatrix.Get | libmapping/lib.h:101-104 | a read is symmetric and only of a written cell |
| Matrices.CommMatrix.Set | libmapping/lib.h:107-113 | a write changes one unordered pair and marks it as written |
| Matrices.CommMatrix.Inc | spcd.h:95-107 | one cell is incremented, mod 2^32 |
| Graphs.Graph.constructor | libmapping/graph.c:15-43 | a fresh arena has all vertices at their positions and both cursors at the start |
| Graphs.Graph.ConnectVertices | libmapping/graph.c:66-88 | a new edge links two vertices both ways, as the newest link of each, and nothing else changes |
| Topologies.CountFakeTopology | libmapping/topology.c:143-156 | the recursion adds the product of the arities and the sum of the prefix products |
| TreeShape.LeavesIsProduct | libmapping/topology.c:143-156 | the number of leaves is the product of the arities |
| TreeShape.SizeIsSumOfLevels | libmapping/topology.c:143-156 | the number of vertices is the sum of the products of the first 0, 1, 2, ... arities |
| Topologies.Topology.CreateFakeTopology | libmapping/topology.c:158-197 | the builder makes a tree in a contiguous preorder range of vertices and edges, leaving the rest of the arena alone; the processing units in that range carry, in order, the next entries of the caller's id table, or the next numbers |
| Topologies.Topology.Build | map.c:18-25 | the arena is used up exactly: all vertices, one fewer edges, as many processing units as the product of the arities, carrying from the left exactly the entries of the id table, or 0, 1, 2, ... |
| PuNumbers.UnitsChosen | libmapping/topology.c:166-173 | the processing units of a built subtree carry, in the order of the arena, a stretch of the caller's id table, or consecutive numbers |
| TreePaths.EdgeOfPath | libmapping/topology.c:185-193 | the edge from any vertex to any of its children leads from the one to the other, with the caller's weight for that depth, or 2 to the number of levels below by default |
| Topologies.LinkWeightsChosen | libmapping/topology.c:185-193 | the weights met on the way down are the caller's, or powers of two that halve from level to level |
| Topologies.Topology.Analyse | libmapping/topology.c:443-505 | the level tables hold the arities, the caller's weights or the default ones from the root down, the ids of the units from the left, and the exact product of the arities above each level |
| Topologies.CountedPus | libmapping/topology.c:356-362 | folding the counting routine over a tree adds its number of leaves |
| Topologies.ListedPus | libmapping/topology.c:374-382 | the listing routine lists the unit ids from left to right |
| Topologies.ListedArities | libmapping/topology.c:384-401 | the walk that stops at the first unit lists the arities from the root down |
| Walks.Walk | libmapping/topology.c:105-121 | the walk feeds the routine the preorder of the tree and stops at its first refusal |
| Walks.PreorderPositions | libmapping/topology.c:105-121 | that preorder has every vertex exactly once, in the order of the arena |
| Walks.FoldOfUnstoppable | libmapping/topology.c:105-121 | a routine that always accepts sees all of it |
| Walks.StopAtFirstPu | libmapping/topology.c:105-121 | a routine that refuses exactly at processing units sees exactly the leftmost path |
| TreeShape.RoundDone | libmapping/topology.c:185-193 | building and linking a child keeps the finished children intact; the parent link stays last |
| Lib.SquareFits | libmapping/topology.c:30-40 | the square of the row length fits 32 bits iff there are at most 32768 rows |
| Lib.Grid.constructor | libmapping/topology.c:30-40 | a table of at most 32768 rows has the least sufficient power of two as row length, and at most 2^30 cells |
| Lib.NextPowerOfTwo | libmapping/lib.c:3-8 | the result is the least power of two that is not smaller |
| Lib.Log2 | libmapping/lib.c:10-15 | the result is the least exponent whose power is not smaller |
| ShortestPaths.PhaseKeepsPivot | libmapping/topology.c:55-66 | phase k leaves row and column k alone, so that updating in place is safe |
| ShortestPaths.NoPathIsShorter | libmapping/topology.c:55-66 | no path is shorter than the computed distance |
| ShortestPaths.SomePathAttains | libmapping/topology.c:55-66 | some path is exactly as short |
| ShortestPaths.Triangle | libmapping/topology.c:55-66 | the triangle inequality holds after every phase |
| Distances.RelaxRow | libmapping/topology.c:57-64 | the inner loop takes a row from phase k to k + 1 in place, and no sum overflows |
| Distances.DirectMeaning | libmapping/topology.c:42-53 | direct distances are the weights of links, 65535 without a link, and 0 for a vertex and itself |
| Distances.FloydWarshall | libmapping/topology.c:23-80 | the unit table holds the shortest distances of the direct-distance graph |
| Distances.ShortestOrUnlinked | libmapping/topology.c:42-66 | the result is the least length of a path along links, capped at 65535: no linked path is shorter, a smaller result is attained by one, and only a direct link can exceed the cap |
| Distances.TableIsMetric | libmapping/topology.c:42-66 | the result is zero on the diagonal, obeys the triangle inequality, and is symmetric if the weights are |
| TreePaths.NodeInjective | libmapping/topology.c:158-197 | different paths of child numbers lead to different vertices |
| TreePaths.NodeOnto | libmapping/topology.c:158-197 | every vertex of the subtree's range is reached by such a path |
| Ultrametric.PuDistance | libmapping/topology.c:55-80 | with default weights, units that part k levels below the root are at distance min(65535, 2^(h+2) - 4), h being the levels below their common ancestor |
| Ultrametric.CapReached | libmapping/topology.c:45-45 | the closed form is below the cap iff h is at most 14 |
| Ultrametric.BuildDistances | libmapping/topology.c:23-103 | builder, default weights and distance computation together give exactly that table, with 0 for a unit and itself, for every list of at most 30 arities whose tree fits the table |
| Windows.WindowStep | comm.c:15-52 | updating a two-entry window keeps it at the two most recent distinct accessors, most recent first |
| Windows.WindowMembers | comm.c:15-52 | the window holds exactly the accessors after whose last access at most one other accessor came |
| Windows.SeenIsPrefix | mem.c:22-38 | what a slot remembers of a page is a prefix of its ideal window |
| Windows.TableUndercounts | mem.c:22-38 | collisions never make a cell larger than unbounded histories would |
| Windows.TableExact | mem.c:22-38 | without a counted conflict every cell is exactly what unbounded histories give |
| Windows.NothingForgotten | mem.c:27-36 | without a counted conflict a slot remembers the whole history of its page |
| Detectors.IncrementsAreMeetings | comm.c:21-49 | the increments of the branches are one for every other member of the window |
| Detectors.Detector.MemInit | mem.c:41-54 | clearing the table forgets the run but keeps what the matrix has counted |
| Detectors.Detector.GetMemInit | mem.c:22-38 | the slot of a page is kept or taken over; a conflict is counted exactly if another page held it |
| Detectors.Detector.IncComm | spcd.h:95-107 | one meeting of two threads is added to what the matrix stands for |
| Detectors.Detector.UpdateWindow | comm.c:15-52 | one access counts its meetings and moves the window on |
| Detectors.Detector.CheckComm | comm.c:15-52 | the page is the address divided by 2^spcd_shift; the cell of two different threads is incremented (mod 2^32) exactly if one makes the access and the slot holds the page with the other as a sharer; the slot then has this thread first and the latest other one second; and table, conflict counter and matrix agree with the run extended by the access |
| Arithmetic.ShiftIsQuotient | mem.c:7-11 | the page number is the quotient of the address by a power of two |
| Sessions.PageOfFrame | probes.c:75-80 | a page is the frame number followed by the high bits of the offset, that is, the physical address divided by the page size of the granularity |
| Sessions.OnePage | mem.c:7-11 | two accesses are to one page exactly if they are to one part of one frame |
| Sessions.PageIsFrame | mem.c:7-11 | with the default granularity the page is the frame, whatever the offset |
| Sessions.SharingIsSeen | comm.c:15-52 | when two different tracked tasks fault on one page, one right after the other, the communication of their threads grows |
| Detectors.Detector.CommInit | comm.c:84-95 | the matrix is allocated once, and zeroed |
| Detectors.Detector.GetComm | spcd.h:84-91 | a cell read is what was counted mod 2^32, at most the ideal count, and equal to it without conflicts; zero for a thread with itself |
| Pids.AlwaysConsistent | pid.c:14-63 | after any adds, deletes and clears every slot holds a pid that hashes there under a number issued to it |
| Pids.LiveBijection | pid.c:66-77 | live pids and live thread ids determine each other |
| Pids.NeverReissued | pid.c:43-47 | without a clear, numbers keep their pid and are never issued again |
| Pids.ActiveAtMostIssued | pid.c:80-89 | there are never more live threads than numbers issued, nor more numbers than max_threads |
| Pids.AddTracks | pid.c:30-54 | while numbers are left and the slot is free, an add tracks the pid under the next number, makes one more active, and changes no other |
| Pids.AddFails | pid.c:30-54 | an add changes nothing exactly if the numbers are used up, the slot is taken, or the table was never cleared |
| Pids.DeleteUntracks | pid.c:14-27 | a delete untracks that pid only; its number stays used |
| Pids.PidTable.AddPid | pid.c:30-54 | the arrays and counters follow the table; with a number left and a free slot the result is the next number and one more is active, otherwise it is -1 and nothing changes; other pids keep their numbers |
| Pids.PidTable.DeletePid | pid.c:14-27 | the arrays and the active counter follow the table; the pid is untracked, one fewer is active if it was tracked, and other pids keep their numbers |
| Pids.PidTable.Clear | pid.c:57-63 | everything is empty |
| Pids.PidTable.GetTid | pid.c:71-77 | the number of a live pid, under which spcd_get_pid finds it again, and -1 for any other |
| Pids.PidTable.GetPid | pid.c:66-68 | the pid a number was issued to |
| Sessions.AlwaysSafe | probes.c:63-225 | after every sequence of handler steps: tracked pids imply a matrix, no active thread implies an empty page table, every counted access belongs to the process its thread id was issued to, and no cell exceeds the ideal count of the whole session |
| Sessions.SharersAreThreads | probes.c:63-84 | every thread in a slot is below spcd_num_threads, which is at most max_threads |
| Sessions.SessionExact | probes.c:183-210 | in a session that began with a process start and saw no reset, cells are the ideal counts until a page is evicted |
| Sessions.PageNotZero | probes.c:79-80 | a frame other than 0 never gives page number 0 |
| Sessions.CountingUndercounts | probes.c:74-81 | one counted access keeps every cell within the ideal count, even after resets |
| Sessions.Session.ProcessHandler | probes.c:183-210 | a tracked task that exits is untracked, one fewer is active, and if none is left the run is empty, the fault count 0 and the flag 1; a named untracked task that is not exiting becomes thread 0 of a new session with a zeroed matrix if nobody was active, and otherwise gets the next number if there is one and its slot is free; other tasks change nothing; other pids keep their numbers, new memory is fresh and a matrix once allocated stays |
| Sessions.Session.ThreadHandler | probes.c:213-225 | a successful fork in a named task sets the flag to 0, and gives the pid the next number, one more being active, exactly if a number is left and the slot is free; other pids keep their numbers, and page table, matrix and fault count stay |
| Sessions.Session.PteFaultHandler | probes.c:63-84 | an untracked task's fault changes nothing and one without a frame only the fault count; any other adds to the run exactly the access of the task's thread to the page, and increments exactly the cells of that thread and the other members of the page's window |
| Sessions.ForkMeaning | probes.c:213-225 | the same on states: what a fork does to the numbers, the counters and the flag |
| Sessions.JoinMeaning | probes.c:200-207 | a named untracked task joins under the next number, or alone as thread 0 in a session in which nothing has been counted |
| Sessions.ExitMeaning | probes.c:188-198 | an exit untracks that task alone; the last one resets page table, fault count and flag but not what was counted |
| Sessions.OthersIgnored | probes.c:188-207 | unnamed, exiting untracked and already tracked tasks are ignored |
| Sessions.FaultMeaning | probes.c:68-81 | what a fault adds to the run, and that a cell stands for one meeting more exactly if one of its threads makes the access and the other is in the window of the page |
| Sessions.Session.ResetStats | probes.c:10-17 | page table, fault count, conflicts and flag are cleared; what the matrix holds becomes the base of the next run |
| Sessions.Session.MatrixMeaning | spcd.h:84-91 | at every point a cell is what was counted mod 2^32, and what was counted is at most the ideal count |
| PageRule.NextVmaIsNearest | pagefault.c:70-89 | the area found is the nearest eligible one going round the list, none is found iff none is eligible, and the list head is passed once if that is needed to get there and twice in vain |
| PageRule.TargetsMeaning | pagefault.c:42-88 | a page may be hidden iff it is present and lies in an area that is shared, or in any area once the flag is 0 |
| PageRule.ChoiceIsNext | pagefault.c:120-140 | the page to hide is the first one from the cursor on, or the first of all if none is ahead |
| PageRule.GivenUpMeaning | pagefault.c:109-123 | a search in vain ends at the start of the first eligible area with the counter three passes on, or at zero on an overflow; without such an area two passes on |
| PageRule.HidesOnlyTargets | pagefault.c:42-60 | only present pages of eligible areas are hidden, each at most once |
| PageRule.HidesExactly | pagefault.c:107-142 | min(asked, present) pages are hidden iff no search meets the counter at its maximum with no page ahead |
| PageRule.OverflowHidesNothing | pagefault.c:109-123 | with the counter at its maximum and no page ahead of the cursor a call hides nothing at all |
| WalkCounter.NeverMissesExactly | pagefault.c:107-142 | the exact condition before a call: no call for n faults that starts with the counter at w can miss a page, whatever the areas, pages and jumps, iff w + min(n, 61) is at most 2^32 - 1 |
| WalkCounter.FarFromOverflow | pagefault.c:122-128 | for a given address space min(asked, present, 61) passes to spare suffice |
| WalkCounter.CanMiss | pagefault.c:122-128 | with fewer to spare there is an address space, a cursor and jumps for which a page is missed |
| WalkCounter.OverflowExample | pagefault.c:109-123 | a concrete address space and cursor where a present page is missed |
| WalkCounter.HideCounted | pagefault.c:127-133 | a target left alone over k passes had k - 1 pages hidden among the 60 before it |
| WalkCounter.WalksBound | pagefault.c:128-133 | hiding n pages moves the counter by at most min(n, 61) + 1 |
| PageScans.Scanner.FindNextVma | pagefault.c:70-89 | the loop returns the cyclically next eligible area and counts the passes of the list head |
| PageScans.Scanner.WalkPageRange | pagefault.c:42-60 | the first present page of the range is hidden, and nothing else; without one nothing changes |
| PageScans.Scanner.TryArea | pagefault.c:120-140 | an area is searched and left with the scan on course; what is hidden is what the specification chooses |
| PageScans.Scanner.HideOne | pagefault.c:107-140 | an iteration terminates; it hides the cyclically next page, and fails iff fewer than four threads are active, there is no page, or the counter is at its maximum and the list head must be passed; cursor and counter afterwards are given in every case |
| PageScans.Scanner.PfPagewalk | pagefault.c:92-145 | a call terminates and hides exactly the pages the specification hides: every page that changes was present in an area that is shared while only shared ones are eligible, and is only hidden; pages of private areas are then left alone; with enough active threads and room for the counter it hides min(asked, present), and leaves none present in those areas if enough are asked for; cursor and counter afterwards are given, and the counter moves by at most min(asked, 61) + 4 |
| PageScans.CallHides | pagefault.c:92-145 | with enough active threads a whole call hides min(asked, present) pages iff no search overflows the counter, and always with min(asked, present, 61) passes to spare |
| PageScans.CallWalks | pagefault.c:92-145 | the counter moves by at most min(asked, 61) + 4, whether the call fails or not |
| ScanLives.NextIsOk | pagefault.c:148-158 | a good position stays good through calls, through new threads, after which all areas are eligible, and through resets, after which only shared ones are and the position is cleared; the counter is bounded by the calls since the last reset |
| ScanLives.NeverMissesInLife | pagefault.c:92-164 | from a fresh scanner on, no call for at most n faults misses a page while calls * (min(n, 61) + 4) + min(n, 61) is at most 2^32 - 1, counting the calls since the last reset |
| PageScans.Scanner.Init | pagefault.c:148-158 | a reset clears position, counter and statistics |
| PageScans.GivesUp | pagefault.c:122-122 | the test of the 32-bit counter against its 64-bit start value fires after three passes or on an overflow |
| Codecs.RoundTrip | libspcd.c:3-62 | decoding what was encoded gives the record back, for every size and whatever follows in memory |
| Codecs.RoundTripBack | libspcd.c:3-62 | encoding what was decoded gives the bytes back, with the pointers cleared |
| Codecs.EncodingLayout | libspcd.c:13-29 | every encoding, byte by byte: 0x23, 0x16, 0x15, 0x48, the two counts, sixteen zero bytes, the pids in two's complement, the cells, each word with its lowest byte first |
| Codecs.MatrixEncode | libspcd.c:3-32 | the buffer filled piece by piece is the encoding |
| Codecs.MatrixDecode | libspcd.c:35-62 | the result is None exactly if the first four bytes are not the magic number; anything else is decoded, an encoding to its record |
| Codecs.SizeIsBytes | libspcd.c:13-16 | the allocated size is the number of bytes written |
| Codecs.MatrixSize | libspcd.c:65-72 | the size computed from an encoded record is the length of its encoding |
| Codecs.GetSmallMatrix | libspcd.c:75-87 | the rows of the used part are copied in reverse |
| Codecs.SmallEntry | libspcd.c:79-84 | row n-1-i, column j of the copy is the symmetric lookup of i and j |
| Codecs.IndexFitsInt | libspcd.c:81-81 | the index of a cell never overflows an int iff max_threads is at most 46340 |
| Codecs.SmallMatrixShows | libspcd.c:75-87 | which is what the detector's matrix reads for i and j |

## Left out

- Matrices.UpperZeroAfter: the matrix's buffer positions above the diagonal are shown to stay zero only for the detector's matrix; the two buffers of the mapping are uninitialised there and never read there.
- Sessions.AlwaysSafe: pids of process and fault events are positive. The kernel's idle task (pid 0) would read thread id 0 from the zeroed table of a fresh module.
- Detectors.Detector.CheckComm: the address is not on page 0, which the fault handler ensures; a zeroed slot looks like page 0 with two sharers.
- Ultrametric.BuildDistances: at most 30 levels, as the default weight `1 << nlevels` is computed in an `int`.
- Lib.Log2: exponents up to 30, because `1 << r` is an `int`.
- Distances.FloydWarshall: at most 32768 vertices and processing units. Beyond that the product of the table dimensions wraps to 0 in 32 bits and the table is not allocated (`Lib.SquareFits` gives the exact bound).
- Placements.MapThread.constructor: the distance table, which the topology analysis also makes, is modelled apart (`Distances.FloydWarshall`, `Ultrametric.BuildDistances`); the mapping never reads it, and a machine too large for it can still be mapped.
- Codecs.GetSmallMatrix: indices are unbounded numbers; above 46340 threads the `int` index can overflow (`Codecs.IndexFitsInt`).
- Placements.MapThread.PlaceThreads: the static counter of units starts at 0, one topology a run. The elements of freshly allocated groups are modelled as empty rather than uninitialised; only the first `nelements` are ever read.
- Graphs.Graph.ConnectVertices: `linked` is a sequence bounded by the number of vertices, and the used counts are the cursors.
- Codecs.EncodingLayout: the original writes in the byte order of the machine; the model fixes the lowest byte first, as on x86.
- Codecs.MatrixDecode: after a right magic number a buffer is as long as its header says and its counts are not negative; the original trusts it. The uninitialised fields after a wrong magic number are not modelled.
- Sessions.Session.PteFaultHandler: physical addresses are unbounded; the shift of a frame number by 12 does not overflow.
- Atomic steps: handlers, mapping rounds and scanner calls do not interleave inside; the data races on the matrix and on the pid table are not modelled.
- Which threads are mapped: the mapping thread takes the number of active threads for the thread ids below it, which leaves out threads once others have exited. Followed as it is.
- The scanner's `proc` array: one scanner object stands for one entry. Pages are static during a call and areas over the scanner's life, addresses are page numbers, and the counter `spcd_pf_extra` is unbounded.
- `spcd_addr_conflict`, `spcd_pf` and the access counts are unbounded numbers; `spcd_pte_fixes` and the repair of hidden entries on faults are left out.
- The time stamp `tsc`, the level and NUMA parameters of the builder and the NUMA tables: they affect no result proved here.
- Widths of arena sizes and positions: no wrap-around of `uint32_t` vertex counts.
- The second link of a non-shared inner vertex, taken when the first leads back: proved never to be taken.
- `optimize_topology_`: unreachable. Hardware discovery, hooks, kernel threads, sleeping, affinity calls, procfs, printing, page-table walks on unmapping: outside the model.
- C functions with nested loops are split into several methods, one per loop or round.
