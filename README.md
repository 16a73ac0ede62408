# Smart waste collection — a verified Dafny model

This project models the core of a smart city waste-collection system.

- **Bins** fill up over time. A bin is reported to a **priority heap** once it reaches 70 % of its capacity or is full.
- A **truck** empties the most urgent bins first.
- Trucks follow the shortest paths of a **road graph**, computed with Dijkstra's algorithm.
- Two desktop **portals** show the live state of the bins and exchange it through two text files:
  - the admin portal fills bins in a simulation and lists the user reports;
  - the driver portal records pickups and unloading trips.
- A **login** screen keeps, for each role, the registered users and their passwords.

The C parts are modelled imperatively:

- a `class PriorityQueue` over a fixed `array` of 100 heap nodes;
- a `class Bin`, a `class Truck` and a `class Graph` of adjacency lists;
- the `dist`/`prev`/`visited` arrays of Dijkstra;
- the route truck of `Graph.c` and its collection loop.

Each method is proved against functions and ghost predicates on sequences. In particular:

- the max-heap order;
- the multiset of heap nodes;
- the walks and costs of the graph, with the shortest-path property;
- the ids written by path reconstruction;
- the journey the route truck drives.

The Python portals are modelled as classes holding their dictionaries as `map` fields. Their file formats and read loops are functions over lines. The round-trip lemmas connect them: what one portal writes, the other reads back exactly.

Modules, one per file:

| module | file | models |
|---|---|---|
| `Text` | text.dfy | Python `strip`, `split`, `startswith`, `in`, line splitting, `str(int)` and `int(str)` |
| `CInt` | cint.dfy | C's truncating integer division |
| `BinTypes` | bin_types.dfy | bin.h and `create_bin` |
| `Priority` | priority.dfy | priority.h / priority.c |
| `BinOps` | bin_ops.dfy | the state machine of bin.c |
| `Trucks` | truck.dfy | truck.h / truck.c |
| `GraphSpec` | graph_spec.dfy | walks, costs and the invariants of Dijkstra |
| `PathFormat` | path_format.dfy | the `" -> "` path text |
| `CityGraph` | graph.dfy | graph.h / graph.c (the same code as in Graph.c) |
| `Routing` | route.dfy | the truck, `assignTruckToBin`, `returnToDepot` and `main` of Graph.c |
| `StatusFormat` | status_format.dfy | bin_status.txt and truck_status.txt |
| `Admin` | admin.dfy | admin_portal.py |
| `Driver` | driver.dfy | driver_portal.py |
| `Portals` | portals.dfy | the two portals talking through the files |
| `Login` | login.dfy | login.py |

Modelling choices:

- **Unreachable distance.** graph.h sets `INF` to 9 and Graph.c sets it to 999999. Dijkstra takes `INF` as a parameter: `CityGraph.ShortestPath` uses 9 and `Routing` uses 999999.
- **Ghost rank.** A ghost visit order (`rank`) shows that every `prev` link goes to a node visited earlier. This proves that `reconstructPath` terminates.
- **C division.** Integer division follows C and truncates toward zero (`CInt.CDiv`).
- **Random increments.** The random increments of bin.c and admin_portal.py, and the residual level of `mark_picked_up`, are parameters. So are the driver's answers read by `scanf` in Graph.c.
- **Files as values.** A file that the Python code opens is an `Option<string>` holding its text; `None` means the file does not exist. The text a writer produces is returned as a `string`.

## Model

| member | source | states |
|---|---|---|
| CInt.CDiv | priority.c:16 | C division truncating toward zero: for a non-negative dividend and positive divisor it is Dafny's division; the quotient is non-negative when the operands' signs agree; 0 divides to 0; the remainder `a - q*b` has the dividend's sign and is smaller than \|b\| |
| BinTypes.Percent | priority.c:15-17 | a bin's priority is `current_fill*100/capacity`, truncated as in C |
| BinTypes.PercentBounds | priority.c:15-17 | a fill within [0, capacity] gives a priority in [0, 100], and a full bin gives exactly 100 |
| BinTypes.StoredLocation | bin.c:12-13 | `strncpy` into the 50-byte buffer plus the forced terminator keeps a name shorter than 50 characters whole, and of a longer name exactly its first 49 characters |
| BinTypes.Bin.constructor | bin.c:7-15 | `create_bin`: the given id and capacity, fill 0, status EMPTY |
| BinOps.Clamped | bin.c:20-25 | the new fill is fill + inc, or the capacity when that is reached; it never exceeds the capacity and stays non-negative for non-negative inputs |
| BinOps.StatusAfterFill | bin.c:22-35 | URGENT exactly when the bin is full or at or above 70 %; FILLING when merely non-empty; otherwise the status is untouched |
| BinOps.ThresholdExact | bin.c:27 | the truncated percentage reaches 70 exactly when 100·fill ≥ 70·capacity |
| BinOps.ReportsMonotone | bin.c:22-31 | once reported, a bin stays reported under non-negative increments |
| BinOps.FullBinTopPriority | bin.c:22-26 | a bin that reaches its capacity is reported at priority 100 |
| BinOps.ReportBinFull | bin.c:38-42 | the bin becomes URGENT; the heap changes as `update_bin_priority` with the bin's percentage; the bin is then registered at that priority unless the heap was full; unique ids are kept; an ordered heap stays ordered when the bin's priority does not go down |
| BinOps.UpdateBinFill | bin.c:17-36 | the fill is Clamped; the status is StatusAfterFill; a reported bin goes through the heap update; an unreported bin leaves the heap's nodes unchanged; an ordered heap stays ordered when the bin's priority does not go down |
| BinOps.ResetBin | bin.c:44-49 | fill 0 and EMPTY; the bin's first node leaves the heap; heap order is kept; with unique ids the bin is absent afterwards |
| Priority.NodeFor | priority.c:34-36 | the node pushed for a bin carries that bin and its percentage, which is in [0, 100] for a fill within the capacity and 100 for a full bin |
| Priority.FindId | priority.c:82-83 | the first slot whose bin has the id, or -1 when no slot has it |
| Priority.FindBin | priority.c:106-110 | the first slot holding this very bin (compared by address, not by id), or -1 |
| Priority.RootIsMax | priority.c:50-56 | in a heap-ordered node sequence no node exceeds the root |
| Priority.PriorityQueue.constructor | priority.c:5 | the zero-initialised global heap: 100 slots and none in use |
| Priority.PriorityQueue.InitHeap | priority.c:19-21 | `init_heap` empties the heap |
| Priority.PriorityQueue.IsEmpty | priority.c:23-25 | true exactly when no node is in use |
| Priority.PriorityQueue.SwapNodes | priority.c:8-12 | exchanges two slots and nothing else; the multiset and unique ids are kept |
| Priority.PriorityQueue.SiftUp | priority.c:41-47 | a permutation of the nodes that repairs heap order broken only at slot i towards its parent |
| Priority.PriorityQueue.SiftDown | priority.c:61-76 | a permutation of the nodes that repairs heap order broken only at slot i towards its children |
| Priority.PriorityQueue.Push | priority.c:28-48 | on a full heap nothing changes; otherwise one node (the bin, its percentage) is added to the multiset; heap order is kept; unique ids are kept when the id was absent |
| Priority.PriorityQueue.IndexOfId | priority.c:82-83 | the linear search returns the slot FindId names, or `size` when there is none |
| Priority.PriorityQueue.IndexOfBin | priority.c:106-112 | the linear search returns the slot FindBin names, or `size` when there is none |
| Priority.PriorityQueue.MoveLast | priority.c:115-116 | removes exactly the node of slot i from the multiset; the only disorder left is at slot i |
| Priority.PriorityQueue.Resettle | priority.c:119-144 | sifting up or down from slot i (the parent of slot 0 being slot 0, as C's `(0-1)/2`) restores heap order |
| Priority.PriorityQueue.DeleteAt | priority.c:114-144 | size goes down by one; exactly the node of slot i leaves; heap order and unique ids are kept |
| Priority.PriorityQueue.Pop | priority.c:50-79 | an empty heap gives null and stays unchanged; otherwise the root's bin is returned, its node leaves, the root bounded every priority, and heap order is kept |
| Priority.PriorityQueue.SetPriority | priority.c:84-94 | rewrites exactly one node's priority; heap order is kept when the priority did not go down |
| Priority.PriorityQueue.Update | priority.c:81-101 | a present id has its first node's priority rewritten, and nothing is added; an absent id is pushed; heap order is kept when the priority did not decrease; unique ids are kept |
| Priority.PriorityQueue.Remove | priority.c:104-145 | an absent bin changes nothing; a present one loses exactly its first node; heap order is kept; with unique ids the bin is absent afterwards |
| Trucks.CollectCount | truck.c:15-17 | the number taken is at most the heap size and at most k; it falls short of the heap size only by stopping at k; it is 0 for k ≤ 0 |
| Trucks.CountReached | truck.c:15-17 | a loop that stopped at the limit or at an empty heap took exactly CollectCount bins |
| Trucks.Truck.constructor | truck.c:7-11 | `init_truck`: the given id and capacity, load 0 |
| Trucks.Truck.ResetTruckLoad | truck.c:31-33 | load 0 |
| Trucks.Truck.CollectBins | truck.c:14-28 | see below |
| Trucks.Truck.CollectRound | truck.c:16-24 | one pass keeps the loop's invariant: the popped node joins the collected ones, the load counts it, and only the popped bin changes; on an empty heap nothing is collected and the heap stays empty |
| Trucks.Truck.CollectNext | truck.c:16-24 | one pass: the root is popped and emptied and the load goes up by one; on an empty heap nothing changes |
| Trucks.CollectOne | truck.c:16-23 | pops the root and resets its bin; the bins collected before stay empty |
| Trucks.UniqueRound | truck.c:16-23 | with distinct ids, each pass removes exactly the popped node, and no collected bin returns to the heap |
| Trucks.OrderedRound | truck.c:16 | on a heap-ordered heap the popped priorities never go up, and the last one bounds everything left |
| GraphSpec.AddEdgeTo | graph.c:12-25 | the lists after `addEdge`: only src's and dest's lists change |
| GraphSpec.EmptySymmetric | graph.c:6-10 | graphs without edges are symmetric |
| GraphSpec.AddEdgeSymmetric | graph.c:12-25 | `addEdge` keeps the lists symmetric and adds (dest, w) to src's list |
| GraphSpec.AddedAt | graph.c:12-25 | each list after `addEdge` is its old multiset plus the new entries for that node |
| GraphSpec.ChainWalk | graph.c:46-51 | the prev chain of v is a walk whose cost is dist[v]; for dist[v] < INF it starts at the start node |
| GraphSpec.ShortestPaths | graph.c:27-53 | see below |
| GraphSpec.RelaxStep | graph.c:46-51 | one relaxation step keeps the relaxation effect: distances only go down, and each change comes with its prev link |
| GraphSpec.InitState | graph.c:29-33 | all nodes at INF with prev -1 and the start at 0 satisfy the main loop's invariant before the first round |
| GraphSpec.Round | graph.c:35-51 | selecting, marking and relaxing one node keeps the main loop's invariant |
| GraphSpec.RoundSettled | graph.c:36-51 | with non-negative weights the visited nodes are settled: no later node is closer, and no edge out of a visited node can still shorten a distance |
| GraphSpec.Finish | graph.c:35-43 | when the loop has run n-1 rounds, or only nodes at INF are left, the arrays satisfy DijkstraResult |
| CityGraph.Graph.constructor | graph.h:17-20 | a `Graph` value: 100 empty lists, no nodes |
| CityGraph.Graph.InitGraph | graph.c:6-10 | numNodes = n; the first n lists are empty; the slots beyond n are untouched |
| CityGraph.Graph.AddEdge | graph.c:12-25 | the lists become AddEdgeTo of the old lists |
| CityGraph.InitDist | graph.c:29-32 | every node is at INF with prev -1; other entries are untouched |
| CityGraph.SelectMin | graph.c:36-42 | the first unvisited node of least distance below INF, or -1 |
| CityGraph.Relax | graph.c:46-51 | the scan of u's list has the relaxation effect of u's edges |
| CityGraph.RelaxEdge | graph.c:47-50 | one edge lowers the distance of an unvisited destination exactly when it is shorter, and sets its prev to u |
| CityGraph.Dijkstra | graph.c:27-53 | the arrays satisfy DijkstraResult: the start at 0 with prev -1; every prev link an edge with dist[v] = dist[prev[v]] + w; a ghost rank ordering the prev chains; with non-negative weights, the distances are shortest |
| CityGraph.Start | graph.c:28-33 | the state before the main loop satisfies its invariant |
| CityGraph.Visit | graph.c:43-51 | marking and relaxing the selected node keeps the invariant with one more round |
| CityGraph.ReconstructPath | graph.c:55-67 | the text is the prev chain from its first node to the target, ids joined by " -> " |
| CityGraph.PushChain | graph.c:57-60 | the stack holds the prev chain from the target back to its first node |
| CityGraph.WriteStack | graph.c:61-66 | writing the stack from the top down gives the text of the reversed stack, with no trailing separator |
| CityGraph.RouteToSelf | graph.c:27-33 | with non-negative weights the route from a node to itself has distance 0 |
| CityGraph.Route | graph.c:69-75 | a route query reports a distance and a path satisfying ShortestRoute for the given INF |
| CityGraph.ShortestPath | graph.c:69-78 | `printShortestPath` without the printf: ShortestRoute with graph.h's INF = 9 |
| PathFormat.PathRoundTrip | graph.c:61-66 | a path text read back at its " -> " separators gives the same ids |
| PathFormat.OutText | graph.c:61-66 | once the whole stack is written, the text is that of the reversed stack |
| Routing.JourneyWalk | Graph.c:105-116 | a journey whose legs all reached their targets is one walk in the graph whose cost is the distance travelled |
| Routing.JourneyNonNeg | Graph.c:107 | with non-negative weights the distance travelled never goes negative |
| Routing.RouteTruck.constructor | Graph.c:153 | `{1, 3, 0, 0, 0}`: the given id and capacity, empty, at depot 0, distance 0 |
| Routing.RouteTruck.AssignToBin | Graph.c:101-121 | with room left: result 1; the truck drives a shortest route to the bin and its load goes up by one; the distance grows by that route's length. A full truck gives -1 and is unchanged |
| Routing.RouteTruck.ReturnToDepot | Graph.c:124-137 | the truck drives a shortest route to the depot, unloads, and adds that route's length |
| Routing.Step | Graph.c:168-194 | see below |
| Routing.PassKeeps | Graph.c:186-191 | a bin is marked collected only after the truck drove to it, and only bins of the list are marked |
| Routing.Pass | Graph.c:167-195 | one loop pass keeps the loop's invariants: the load bound, the journey, the bins behind the index collected; it also makes progress. The nodes it drives to, followed by Run from the new index, load and marks (one answer fewer when it read one), are Run from the old state |
| Routing.Run | Graph.c:153-195 | the reference run of main's loop on the driver's answers: it reads at most the answers given, and all of them when it stops early; every node driven to is the depot or a bin of the list |
| Routing.RunStep | Graph.c:166-195 | each case of Step is one unfolding of Run: the nodes driven to in the pass come first, then Run from the new index, load and marks, with one answer fewer when one was read |
| Routing.RunAtExit | Graph.c:166-184 | where the loop leaves, at the end of the bins or when an answer is needed and none is left, Run drives nowhere more |
| Routing.PickAllFinishes | Graph.c:186-191 | answering 2 at every stop, with at least one answer per remaining bin, deals with every bin |
| Routing.CityPickedInOrder | Graph.c:155-195 | three answers 2 drive to bins 3, 4 and 2 in turn and use all three answers |
| Routing.CityAnswers | Graph.c:155-198 | for main's bins, enough answers 2 finish the loop, and exactly three drive to 3, 4 and 2, then home |
| Routing.Stops | Graph.c:105-116 | the nodes driven to, one per leg, in order |
| Routing.StopsConcat | Graph.c:105-116 | the nodes driven to by two journeys in turn are those of the first, then those of the second |
| Routing.EndIsLastStop | Graph.c:105-116 | a journey ends at its last node driven to, or at the depot when it has no legs |
| Routing.Home | Graph.c:197-198 | the final `returnToDepot` leaves the truck at the depot |
| Routing.MainLoop | Graph.c:166-195 | the loop keeps the journey, the load bound and the collected marks; the nodes driven to, whether it reached the end of the bins and the answers read are those of Run |
| Routing.Simulate | Graph.c:153-200 | see below |
| Routing.CityWellFormed | Graph.c:145-151 | main's map leads only to its six nodes and has non-negative road lengths |
| Routing.CityBuilt | Graph.c:142-151 | the six `initGraph` lists after the seven `addEdge` calls are CITY |
| Routing.BuildCity | Graph.c:141-151 | builds the graph with six nodes whose lists are CITY |
| Routing.CityRun | Graph.c:140-200 | main: a journey from and back to the depot of non-negative total, collecting only bins 3, 4 and 2, and all of them when the loop finishes; the nodes driven to, the answers read and whether the loop finished are those of Run followed by the way home; at least three answers, all 2, finish the loop, and exactly three drive to 3, 4, 2 and the depot |
| Text.ParseIntToString | admin_portal.py:244 | `int(str(i)) == i` for every integer i |
| StatusFormat.TruckText | admin_portal.py:227 | truck_status.txt begins with `TruckAt:` and ends in a newline |
| StatusFormat.AdminParse | admin_portal.py:241-248 | reading lines keeps the set of known bins (unknown bins are never added) |
| StatusFormat.DriverParse | driver_portal.py:103-110 | reading lines keeps the set of known bins |
| StatusFormat.LineParts | admin_portal.py:243 | a written `b:lvl` line, stripped and split at ':', is exactly [b, str(lvl)] |
| StatusFormat.StatusTextLines | admin_portal.py:220-221 | the file written line by line splits back into the lines written |
| StatusFormat.ReadsLine | admin_portal.py:243-246 | a written line reads as its bin and its level |
| StatusFormat.AdminReadsAll | admin_portal.py:241-248 | lines naming every bin with its level set the levels to exactly those levels |
| StatusFormat.AdminRoundTrip | admin_portal.py:219-246 | reading the file `save_status_files` wrote restores the levels exactly, for ids without ':' or newlines |
| StatusFormat.DriverAgrees | driver_portal.py:103-108 | when the driver's reader reads the whole file it ends with the same levels as the admin's reader |
| StatusFormat.DriverStops | driver_portal.py:107-110 | the driver's reader stops only at a well-formed line of a known bin whose level is no integer; before that line everything was read |
| StatusFormat.DriverStaysStopped | driver_portal.py:101-110 | after the reader has stopped, no later line changes anything |
| StatusFormat.DriverReadsAll | driver_portal.py:103-108 | lines naming every bin with its level are read in full and give exactly those levels |
| StatusFormat.DriverRoundTrip | driver_portal.py:103-108 | the bin file as written is accepted in full by `load_bin_status` and restores the levels |
| StatusFormat.DriverCompletes | driver_portal.py:103-108 | no written line stops the driver's reader |
| StatusFormat.TruckValueAfterColon | driver_portal.py:118-119 | on a `TruckAt:` line the value taken is what follows the first colon of the stripped line |
| StatusFormat.LastTagged | driver_portal.py:117-119 | the index of the last line that starts with `TruckAt:`, or -1 |
| StatusFormat.TruckLastWins | driver_portal.py:116-119 | the last line starting with `TruckAt:` decides the position; with none the position is kept |
| StatusFormat.TruckRoundTrip | driver_portal.py:116-119 | truck_status.txt as written reads back as the position written |
| Admin.ColorForFill | admin_portal.py:314-317 | green exactly below 40, yellow exactly from 40 below 70, red exactly from 70 on |
| Admin.ColorMonotone | admin_portal.py:314-317 | a fuller bin is never shown in a calmer colour |
| Admin.Bumped | admin_portal.py:206 | `min(100, lvl + r)` is at most 100 and at most lvl + r, and is either 100 or lvl + r; for r ≥ 0 and lvl ≤ 100 it is not lower than lvl |
| Admin.Filled | admin_portal.py:205-206 | bumping the bins in order keeps the set of bins |
| Admin.FilledValue | admin_portal.py:205-206 | with distinct bins, the k-th listed bin ends at its level bumped by the k-th increment |
| Admin.FilledUnlisted | admin_portal.py:205-206 | a bin not in the list keeps its level |
| Admin.FilledAt | admin_portal.py:205-206 | with increments in [0, 7] a bumped bin ends at most 100, a bin at most 100 never goes down, a non-negative level stays non-negative, and an unlisted bin is unchanged |
| Admin.StepKeepsBounds | admin_portal.py:204-206 | a step keeps a level in [0, 100] and never lowers it |
| Admin.RequestStep | admin_portal.py:327-337 | reading one more line appends at most its entry and adds at most its urgent bin |
| Admin.UrgentMarked | admin_portal.py:332-334 | every urgent bin comes from a non-blank line containing `:URGENT` and is the text before that line's first colon |
| Admin.MarkedUrgent | admin_portal.py:332-334 | every bin such a line names is urgent |
| Admin.UrgentListed | admin_portal.py:332-335 | every urgent bin has its `<bin> - URGENT` entry in the list |
| Admin.NothingListed | admin_portal.py:328-340 | nothing is listed exactly when every line is blank |
| Admin.ReportLine | user_portal.py:166-168 | a report is one newline-terminated line, and it holds no colon when the bin id holds none |
| Admin.UserReportShown | user_portal.py:166-168 | a user's report line is non-blank, marks no bin urgent and is listed as written |
| Admin.ReadRequest | admin_portal.py:328-337 | one line: blank lines give no entry; otherwise the entry is Shown, and an urgent line also gives its bin |
| Admin.AdminPortal.constructor | admin_portal.py:138-159 | the ten bins in graph order, all at 0; the truck at B1; no urgent bins; the simulation running |
| Admin.AdminPortal.SaveStatusFiles | admin_portal.py:216-228 | one `b:lvl` line per bin in bin order, and one `TruckAt:pos` line |
| Admin.AdminPortal.SyncFromDriver | admin_portal.py:240-248 | the levels become AdminParse of the file's lines; nothing else changes |
| Admin.AdminPortal.MapColors | admin_portal.py:262-273 | one colour per bin in order: urgent red for urgent bins, otherwise ColorForFill of the level |
| Admin.AdminPortal.NodeSizes | admin_portal.py:275 | 980 exactly for the truck's bin, 700 for every other bin |
| Admin.AdminPortal.RefreshRequests | admin_portal.py:320-340 | the urgent bins are UrgentIds of the lines; the list is Listed, or `No requests yet.` when that is empty; without a file, no urgent bins and only that message |
| Admin.AdminPortal.SimulateStep | admin_portal.py:204-206 | while the simulation runs every bin is bumped by its increment (Filled); nothing else changes |
| Driver.LevelColor | driver_portal.py:198-203 | green exactly below 40, yellow exactly from 40 below 70, red exactly from 70 on |
| Driver.DriverPortal.constructor | driver_portal.py:26-70 | the ten bins at 0, no selection, the truck at B1, then both files read if they exist |
| Driver.DriverPortal.LoadBinStatus | driver_portal.py:98-110 | the levels and whether the file was read in full are DriverParse of its lines |
| Driver.DriverPortal.LoadTruckStatus | driver_portal.py:112-121 | the position is TruckParse of the file's lines |
| Driver.DriverPortal.SelectBin | driver_portal.py:134-135 | the selection is the chosen bin |
| Driver.DriverPortal.BinStatusFile | driver_portal.py:170-178 | one `b:lvl` line per bin, in the bins' order |
| Driver.DriverPortal.TruckStatusFile | driver_portal.py:180-187 | the single `TruckAt:pos` line |
| Driver.DriverPortal.MarkPickedUp | driver_portal.py:141-158 | without a selection nothing changes and nothing is written; otherwise only the selected bin is set to r, the truck moves there, the selection clears and both files are written |
| Driver.DriverPortal.TruckFull | driver_portal.py:160-162 | the truck goes to the depot and its file is written; the levels stay |
| Driver.DriverPortal.MapColors | driver_portal.py:192-203 | one colour per bin: the selected bin is highlighted whatever its level; otherwise LevelColor of the level, with a missing level counting as 0 |
| Driver.DriverPortal.NodeSizes | driver_portal.py:205 | 1000 exactly for the truck's bin, 700 for every other bin |
| Portals.SameBins | driver_portal.py:26 | both portals list the same ten bins in the same order |
| Portals.BinIdsPlain | admin_portal.py:170-173 | no bin id contains ':' or a newline, so every id survives the line format |
| Portals.DriverFileReachesAdmin | driver_portal.py:174-175 | the driver's bin file sets the admin's levels to exactly the driver's |
| Portals.AdminFileReachesDriver | admin_portal.py:220-221 | the admin's bin file is read in full by the driver and sets its levels to exactly the admin's |
| Portals.TruckFileReadsBack | admin_portal.py:227 | a truck position the portals write, a bin or the depot, reads back as itself |
| Login.InitialData | login.py:19-21 | the first table has exactly the roles User, Driver and Admin, all empty |
| Login.Register | login.py:240-252 | MissingFields exactly for an empty or placeholder entry; AlreadyExists exactly when the user is already under the role; neither changes the table; success adds the role |
| Login.RegisterAddsOne | login.py:251-252 | a successful registration adds exactly the new user with its password and changes no other user and no other role |
| Login.LoginOk | login.py:227 | a login succeeds exactly when the role is in the table, the stripped user name is registered under it and its stored password is the stripped password; a role absent from the table lets nobody in |
| Login.RegisterThenLogin | login.py:227 | after a successful registration the same role and entries log in |
| Login.RegisterKeepsOtherLogins | login.py:251-252 | every login of another role or another user is decided after a registration as before it |
| Login.RegisterTwice | login.py:248-250 | a second registration of the same user under the same role is refused and changes nothing |
| Login.PlaceholdersNeverStored | login.py:244-246 | neither the first table nor any registration stores an empty or placeholder name or password |
| Login.PlaceholderLoginFails | login.py:227 | in such a table the untouched fields `Username`/`Password` never log in |

Three rows above say "see below"; their contracts are:

- **Trucks.Truck.CollectBins.** It stops at k or at an empty heap: when fewer than k bins were collected, the heap is empty. The load grows by exactly the number collected. Every collected bin is empty with status EMPTY. The collected nodes and the heap together are within the original nodes. With unique ids:
  - exactly min(k, size) bins are taken;
  - the heap keeps all the others, and none of the collected bins.

  A bin of `bins` that was not collected keeps its fill and its status.

  When the heap was ordered, the priorities collected never go up.
- **GraphSpec.ShortestPaths.** With non-negative weights, dist[v] does not exceed the cost of any walk from the start to v. When dist[v] < INF, the prev chain is such a walk, starting at the start and costing dist[v]. Otherwise dist[v] = INF, prev[v] = -1, and the chain is v alone.
- **Routing.Step.**
  - An already collected bin is skipped.
  - A full truck goes to the depot and the same bin is tried again.
  - At the bin, the driver answers:
    - answer 1 sends the truck to the depot without advancing;
    - answer 2 marks the bin collected and advances;
    - any other answer keeps the index.

  The legs driven form a journey, and the load stays within capacity.
- **Routing.Simulate.** The legs form one journey from depot 0 back to depot 0. The total is that journey's length, and it is non-negative for non-negative weights. Every bin is collected when the loop finishes, and a bin is only marked collected after the truck drove to it. The nodes driven to are those of Run, followed by the depot when the truck is not already there. Whether the loop finished and how many answers it read are also those of Run.

## Left out

- Console and file I/O are not modelled:
  - `printf`, `print_heap`, `print_bin_status`;
  - the JSON `fprintf` records of Graph.c (the legs and `total` carry their values);
  - Python `print`;
  - reading and writing of files: a file is its text, and a writer returns the text it would write.
- The truck number and bin number in the driver's messages are not modelled.
- The `pathStr` buffers of 256 and 512 bytes, and the 10-byte `buf`, are not modelled. Distances and ids are unbounded integers, and 32-bit overflow of `dist[u] + weight` is not modelled. With `INF` = 999999 and small weights it does not arise.
- main.c, main2.c and main3.c are `scanf`/`printf` menu drivers and are not part of this model. include/bin.h is a stale header that matches no source and is not part of this model either. random.h is not part of this model: increments are parameters.
- Routing.Simulate stops early, with `finished` false, when the driver's answers run out. In Graph.c a `scanf` at end of input leaves the action unread, so the loop could spin forever.
- Routing.Simulate fixes capacity 3, as main does. Routing.Pass requires a positive capacity. With capacity ≤ 0, Graph.c would loop forever between depot and bin.
- `assignTruckToBin` also computes a full Dijkstra when the truck is full and leaves that result unused; the model, too, ignores it.
- `Text.ParseInt` models Python's `int()` only on ASCII digits, an optional sign and ASCII whitespace. Underscores, Unicode digits and Unicode whitespace are not modelled. `Text.Lines` splits at `\n` only, without universal-newline translation.
- The Tkinter, matplotlib and networkx drawing is not modelled: only the colour and size lists handed to `nx.draw` are. The same goes for message boxes, the login screen's image code, and the portal launches after a successful login.
- The polling threads, `time.sleep`, `os.path.getmtime`, `os.replace`, `root.after` and the `users.json` load and save are I/O and concurrency, and are not modelled. What they call is modelled as one call at a time.
- The `CDLL` backend of admin_portal.py:150-202 is a foreign library that is not shown. Only the no-backend simulation step is modelled.
- Admin.AdminPortal.SyncFromDriver: the admin portal defines no `load_truck_status`. So once truck_status.txt exists, the call at admin_portal.py:252 raises an exception, which is swallowed at admin_portal.py:255. As a result the admin never reads the truck position, and the `refresh_requests` call at admin_portal.py:254 never runs from that thread. The model covers only the bin-file part and adds no truck sync.
- Admin.AdminPortal.RefreshRequests: the `Error: {e}` entry of admin_portal.py:342-343 comes only from I/O failures, which are not modelled.
- Nearest-node click selection (driver_portal.py:124-139) needs floating point and `** 0.5`, so it is not modelled. Driver.DriverPortal.SelectBin takes the bin that the click would find.
- `blocked_edges` (driver_portal.py:37-40) only changes the drawn graph and is not modelled.
- user_portal.py is not modelled beyond the report line it appends (Admin.ReportLine).
- Driver.DriverPortal.BinStatusFile writes the bins in the order of `bins`. That is the order in which the source's dictionary was filled, so `items()` iterates in the same order.
- Driver.DriverPortal.MarkPickedUp: the residual `random.randint(0, 10)` is a parameter r with 0 ≤ r ≤ 10.
- Login.Register is a function from the table to the new table. `setdefault(role, {})[u] = p` on the loaded dictionary is its in-place form. The roles offered by the combobox (login.py:162-164) are not a restriction in the model: any role string is accepted.
- BinTypes.Percent, Priority.NodeFor, Priority.PriorityQueue.Push, Priority.PriorityQueue.Update, BinOps.StatusAfterFill, BinOps.Reports, BinOps.ReportBinFull and BinOps.UpdateBinFill require a non-zero capacity. `get_bin_priority` divides by the capacity without a check, so a bin of capacity 0 is undefined behaviour in C (a division by zero); the model excludes it.
- `Text.Strip` removes ASCII whitespace only, where Python's `str.strip` also removes Unicode whitespace.
- A bin's `location` is a string of characters, where bin.c copies bytes; multi-byte characters are not modelled.
- Trucks.Truck.CollectBins: `collect_bins` never compares the load with the capacity, and the model does not either.
