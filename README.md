# Critical-path scheduling and random-graph algorithms, in Dafny

This project models two laboratory programs and proves properties of the models.

**lab2 — the critical-path method (CPM) engine.** A network is a list of works
(arcs `start -> end` with a duration) over events `0 .. num_events`. It has two index
lists: `adj_list[e]` holds the works leaving event `e` and `pred_list[e]` the works
entering it. Three passes fill in, in place, each work's six time parameters:

- the forward pass computes early start and early finish;
- the backward pass computes late start and late finish, starting from the project
  length;
- the float pass computes total float and free float.

A greedy walk then follows zero-float works from event 1 to give a critical path.
`main.cpp`, `test.cpp` and `form.cpp` hold three copies of this engine. They differ
in the name of the class (`NetworkGraph` in `main.cpp` and `test.cpp`, `Graph` in
`form.cpp`) and in field names. `test.cpp` and `form.cpp` add a guard that makes
`calculateAll` do nothing on an empty network; `main.cpp` has none. Only the last two
have the file loaders. The model covers them once, as `NetworkGraph`:

- `cpm_spec.dfy` (module `CpmSpec`) holds the `Work` record and the specification of
  a schedule.
- `cpm_input.dfy` (`CpmInput`) holds the loaders' input, as already classified lines.
- `cpm_graph.dfy` (`Cpm`) holds the `NetworkGraph` class with the passes, the loaders
  and the walk.
- `cpm_example.dfy` (`CpmExample`) holds the seven-event example network.

**lab3 — the random-graph generator.** Only its integer algorithms are modelled:

- `graph_spec.dfy` (`GraphSpec`) defines adjacency lists, walks, shortest distances
  and the diameter.
- `graph.dfy` (`Graphs`) holds the `Graph` record. It covers `clear`, `getStats`, the
  candidate list and the add-edge-if-absent step of `generateGraph`, and the degree
  statistics of `printGraphInfo`.
- `graph_bfs.dfy` (`GraphDiameter`) covers the breadth-first search of
  `computeDiameter`.
- `graph_tree.dfy` (`SpanningTree`) covers the depth-limited breadth-first spanning
  tree of `buildTreeWithConstraints`.
- `depth_check.dfy` (`DepthCheck`) covers `dfs` and `checkDepthConstraint`.
- `dot_export.dfy` (`DotExport`) covers the parts of the Graphviz exporter that decide
  what is drawn: the sanitised name, the node colours and the set of edges.

The model takes the programs' own form:

- Objects whose fields change become classes with `modifies` clauses.
- Loops become methods with loop invariants, proved against ghost specification
  functions and predicates.
- The recursive `dfs` over a shared array becomes a recursive method over an `array`.
- Random choices become parameters: the drawn candidate indices, the start vertex and
  the shuffled neighbour lists.

## Model

| member | source | states |
|---|---|---|
| CpmSpec.EarlyNotAfterLate | lab2/main.cpp:37-84 | When event ids are a topological order (1 <= start < end <= n), no event's early time exceeds its late time, whatever the sign of the durations |
| CpmSpec.ScheduleFloats | lab2/main.cpp:87-105 | On a topologically numbered schedule every work has early finish <= late finish, total float >= 0 and 0 <= free float <= total float |
| CpmSpec.CriticalWorkIsTight | lab2/main.cpp:87-105 | A work whose total float is 0 has no slack at either end event, and its end time is its start time plus its duration |
| CpmSpec.EarlyTimesUnique | lab2/main.cpp:38-49 | The relaxation characterisation fixes the early-time vector: two vectors satisfying it coincide, so it is the longest-path maximum |
| CpmSpec.LateTimesUnique | lab2/main.cpp:66-77 | Likewise the late-time vector is fixed by the arcs and the project length |
| CpmSpec.ProjectLengthUnique | lab2/main.cpp:61-64 | The project length (the largest early finish, or 0) is unique |
| CpmSpec.FieldsDeterminedByTimes | lab2/main.cpp:52-55 | Works with the same arcs and the same event times carry identical derived fields |
| CpmSpec.ScheduleDeterminedByArcs | lab2/main.cpp:122-126 | Two schedules of the same topologically numbered arcs are equal, so running the three passes again changes nothing |
| CpmSpec.IndexAppend | lab2/main.cpp:114-119 | Appending a work and pushing its index onto the list of its start (or end) event keeps the successor (or predecessor) index exact |
| CpmSpec.IndexUnique | lab2/main.cpp:114-119 | The index lists are determined by the works: each lists exactly the works keyed to its event, in ascending order |
| CpmSpec.IndexedInRange | lab2/main.cpp:114-119 | A successor index and a predecessor index together keep every work's end points inside 0..n |
| CpmSpec.FirstCritical | lab2/main.cpp:195-206 | The scan of `adj_list[current]` returns None iff no listed work is zero-float, leaves current and ends unvisited; otherwise it returns the end of the first such work |
| CpmSpec.WalkExtend | lab2/main.cpp:193-208 | Taking the step the scan finds extends a walk prefix by an event not visited before |
| CpmSpec.CriticalWalkUnique | lab2/main.cpp:185-208 | The walk is deterministic: the works and lists fix the path |
| CpmSpec.CriticalWalkClimbs | lab2/main.cpp:195-203 | With topologically numbered events the walk climbs strictly in event id, whatever the event times, so it ends within n events |
| CpmSpec.CriticalWalkIsTight | lab2/main.cpp:185-208 | On a topologically numbered schedule the walk climbs strictly in event id (hence terminates), and every event on a walk of more than one event has early time = late time |
| CpmSpec.CriticalWalkStep | lab2/main.cpp:197-203 | Each step of the walk follows a critical work, so both of its events are tight and the id increases |
| CpmInput.TriplesAppend | lab2/test.cpp:133-149 | The kept triples of two inputs read one after the other are the concatenation of the kept triples of each: input order is kept |
| CpmInput.TriplesFromFields | lab2/test.cpp:135-148 | A triple is kept iff some line yields its three integers; blank, comment and unparsable lines contribute nothing |
| CpmInput.TriplesOfFields | lab2/test.cpp:137-148 | When every line yields three integers every line is kept, in order, stored as (predecessor, vertex, weight) |
| CpmInput.MaxEventIsMax | lab2/test.cpp:142-145 | The event count is at least 0, at least every vertex and every positive predecessor, and equal to one of them unless it is 0 |
| CpmInput.LoadedWorks | lab2/test.cpp:164-177 | One work per triple in input order; predecessor <= 0 becomes event 1 (so vertex 1 with predecessor 0 gives the arc 1 -> 1); all derived fields 0 |
| CpmInput.LoadedWorksInRange | lab2/test.cpp:158-177 | Under the loaders' precondition every loaded work starts at event >= 1 and both its ends fit the lists sized num_events + 1 |
| CpmInput.Decimal | lab2/test.cpp:222-225 | `to_string` of an id is a non-empty string of decimal digits with no leading zero |
| CpmInput.DecimalRoundTrip | lab2/test.cpp:222-225 | Reading back the decimal name of an id gives that id |
| CpmInput.DecimalInjective | lab2/test.cpp:222-225 | Distinct ids receive distinct names |
| CpmInput.NamedIds | lab2/test.cpp:222-225 | The named loader records only non-negative ids |
| CpmInput.NamedIdsAppend | lab2/test.cpp:222-225 | Each triple records its vertex and, when positive, its predecessor, and nothing else |
| CpmInput.ReadLines | lab2/test.cpp:128-149 | The reading loop yields exactly the kept triples, their largest event id and the decimal names of their ids |
| CpmInput.ReadLine | lab2/test.cpp:137-148 | One step of the reading loop appends what the line yields and updates the maximum and the names accordingly |
| Cpm.NetworkGraph.Sized | lab2/main.cpp:108-111 | A network with `events + 1` empty successor and predecessor lists and no works |
| Cpm.NetworkGraph.Empty | lab2/test.cpp:112 | A network with 0 events, no works and no lists, ready for a loader |
| Cpm.NetworkGraph.AddWork | lab2/main.cpp:114-119 | Appends `Work(i, j, d)` with all derived fields 0, pushes its index onto `adj_list[i]` and `pred_list[j]`, and changes nothing else |
| Cpm.NetworkGraph.LoadFromFile | lab2/test.cpp:115-184 | An unopenable file changes nothing and fails; otherwise the state is cleared first; with no triple the load fails leaving the lists empty; else the event count is the largest id and the works are the loaded triples, in order |
| Cpm.NetworkGraph.LoadFromFileWithNames | lab2/test.cpp:187-249 | As LoadFromFile on lines already classified by `iss >> int` (the token-level differences of `stoi` are listed under "Left out"), and the event names become the decimal spelling of every vertex and positive predecessor read |
| Cpm.NetworkGraph.Rebuild | lab2/test.cpp:158-177 | Sizing the lists for events 0..max and adding the triples' works gives a valid network holding exactly the loaded works |
| Cpm.NetworkGraph.SetEventName | lab2/test.cpp:260-262 | Records one event name and changes nothing else |
| Cpm.NetworkGraph.CalculateEarlyTimes | lab2/main.cpp:37-56 | Only early fields change; they are read off the event-time vector, which is >= 0 and, when ids are topological, the relaxed and attained longest-path times |
| Cpm.NetworkGraph.CalculateLateTimes | lab2/main.cpp:59-84 | Only late fields change; the project length is the largest early finish; every late time is <= it and, when ids are topological, the relaxed and attained latest times |
| Cpm.NetworkGraph.CalculateFloats | lab2/main.cpp:87-105 | Only floats change: total float = late start - early start; free float = least early start among works leaving the end event minus early finish, or 0 when none leaves |
| Cpm.NetworkGraph.CalculateAll | lab2/test.cpp:265-273 | With no works nothing changes and nothing is computed; otherwise the arcs stay, the three passes' results hold together, and under topological ids every float fact of ScheduleFloats holds |
| Cpm.NetworkGraph.FindCriticalPath | lab2/main.cpp:185-208 | The path is the critical walk from event 1; with topological ids it is strictly increasing, and on a schedule with topological ids it passes only through tight events |
| Cpm.NetworkGraph.CriticalPathLength | lab2/main.cpp:147-150 | The reported length is the project length |
| Cpm.ForwardPass | lab2/main.cpp:38-49 | The event-time loop yields times >= 0 which, under topological ids, satisfy every arc's relaxation and are each 0 or attained by an entering arc |
| Cpm.RelaxLeaving | lab2/main.cpp:42-48 | Relaxing the works leaving event i extends both forward invariants from events below i to events up to i |
| Cpm.RelaxStep | lab2/main.cpp:44-47 | One relaxation relaxes its arc, keeps the invariants, lowers no time and leaves every time up to event i alone |
| Cpm.SetEarlyFields | lab2/main.cpp:52-55 | Early start = early time of the start event, early finish = early start + duration, all else unchanged |
| Cpm.MaxEarlyFinish | lab2/main.cpp:61-64 | The running maximum from 0 is the project length |
| Cpm.BackwardPass | lab2/main.cpp:66-77 | The late-time loop from the vector filled with the project length yields times <= it which, under topological ids, satisfy every arc backwards and are each the length or attained by a leaving arc |
| Cpm.RelaxEntering | lab2/main.cpp:70-76 | Relaxing the works entering event i extends both backward invariants down to event i |
| Cpm.RelaxBackStep | lab2/main.cpp:72-75 | One backward relaxation relaxes its arc, keeps the invariants, raises no time and leaves every time from event i on alone |
| Cpm.SetLateFields | lab2/main.cpp:80-83 | Late finish = late time of the end event, late start = late finish - duration, all else unchanged |
| Cpm.MinEarlyStart | lab2/main.cpp:93-97 | The least early start among the listed works, None exactly when the list is empty (the role of the INT_MAX sentinel) |
| Cpm.FloatPass | lab2/main.cpp:88-104 | Every work receives the floats CalculateFloats states, computed against early starts the loop never writes |
| Cpm.PassesCompose | lab2/main.cpp:122-126 | Each pass rewrites only its own fields, so the earlier passes' results survive and the works form a schedule |
| Cpm.CriticalWalk | lab2/main.cpp:186-208 | The walk loop produces the critical walk over the works and successor lists |
| Cpm.NextCritical | lab2/main.cpp:195-206 | One scan of `adj_list[current]` with the visited array returns what FirstCritical specifies |
| Cpm.Advance | lab2/main.cpp:198-203 | Taking the found step appends its end to the path and marks it visited, keeping the array equal to the set of visited events |
| CpmExample.ExampleIsSchedule | lab2/main.cpp:221-241 | The hand-computed table is a schedule of the seven-event network with project length 18; work 1->2 gets (0, 4, 4, 8, 4, 0) and 4->6 free float 4 |
| CpmExample.SolvedExample | lab2/main.cpp:221-241 | Any schedule of the example's arcs is that table |
| CpmExample.ExampleWalk | lab2/main.cpp:185-208 | Over that table the critical walk is 1 -> 3 -> 5 -> 6 -> 7 |
| CpmExample.ExampleIndexUnique | lab2/main.cpp:233-239 | The successor lists of the example works are the ones the seven addWork calls build |
| CpmExample.BuildExample | lab2/main.cpp:221-239 | The seven addWork calls give the example's works and successor lists |
| CpmExample.SolveExample | lab2/main.cpp:241 | calculateAll on the example network yields the table |
| CpmExample.BuiltExample | lab2/main.cpp:221-242 | Building and solving the example gives the table and the path 1 -> 3 -> 5 -> 6 -> 7 |
| CpmExample.ExampleTriples | lab2/form.cpp:299-306 | The seven data lines, loaded, give 7 events and the example's works |
| CpmExample.LoadedExample | lab2/form.cpp:299-311 | Loading those lines and solving gives the same table and path |
| GraphSpec.EmptyLists | lab3/visual.cpp:29-31 | n vertices, every adjacency list empty |
| GraphSpec.EmptyIsSimple | lab3/visual.cpp:44-48 | A graph without edges is simple, with degree sum and largest degree 0 |
| GraphSpec.MaxDegreeIsMax | lab3/visual.cpp:56-58 | The largest degree bounds every degree and is attained (0 without vertices) |
| GraphSpec.WithEdgeSimple | lab3/visual.cpp:172-175 | Adding an edge between two distinct vertices keeps the graph symmetric, loop-free and duplicate-free, and adds exactly that adjacency |
| GraphSpec.WithEdgesSimple | lab3/visual.cpp:167-176 | Connecting i to any sequence of other vertices keeps the graph simple and adds exactly the edges to them |
| GraphSpec.DistUnique | lab3/visual.cpp:193-203 | A vertex has at most one shortest distance |
| GraphSpec.DistBound | lab3/visual.cpp:183-213 | A shortest distance is below the number of vertices |
| GraphSpec.LevelsAreDistances | lab3/visual.cpp:193-203 | Search levels closed up to a limit are exact shortest distances, and every vertex some walk of at most the limit reaches is reached no deeper than that walk |
| GraphSpec.BfsDistances | lab3/visual.cpp:187-203 | The BFS distance of a vertex is its shortest distance from the start, and -1 exactly when no walk reaches it |
| GraphSpec.DiameterBound | lab3/visual.cpp:183-213 | The diameter is 0 without vertices and at most n - 1 otherwise |
| GraphSpec.DiameterNoEdges | lab3/visual.cpp:183-213 | A graph without edges has diameter 0 |
| GraphSpec.DiameterUnique | lab3/visual.cpp:183-213 | The diameter is unique |
| Graphs.Graph.constructor | lab3/visual.cpp:29-31 | A graph of n vertices with empty lists, start node 0 and the given name |
| Graphs.Graph.Clear | lab3/visual.cpp:44-48 | Every adjacency list is emptied; n, start node and name stay |
| Graphs.Graph.GetStats | lab3/visual.cpp:51-66 | maxDegree is the largest list length and edgeCount half the sum of the lengths |
| Graphs.Graph.AddEdgeIfAbsent | lab3/visual.cpp:172-175 | j joins adj[i] and i joins adj[j] exactly when j was not in adj[i]; nothing else changes |
| Graphs.Graph.Candidates | lab3/visual.cpp:142-147 | The candidates are exactly the vertices other than i with positive probability, in increasing order |
| Graphs.Graph.ConnectPicks | lab3/visual.cpp:167-176 | The edge loop performs the add-edge step for each drawn candidate, in drawing order |
| Graphs.Picked | lab3/visual.cpp:168-169 | The drawn indices name candidates, in drawing order |
| Graphs.ConnectPicksSimple | lab3/visual.cpp:142-176 | Connecting a vertex to drawn candidates keeps a simple graph simple, adds only the edges to those candidates, and every drawn candidate ends up adjacent |
| Graphs.DegreeStats | lab3/main.cpp:258-264 | maxDegree is the largest list length and the accumulated sum is the degree sum |
| GraphDiameter.Discover | lab3/visual.cpp:197-200 | Giving an undiscovered neighbour of v the distance dist[v] + 1 keeps the distances a search-tree labelling rooted at the start |
| GraphDiameter.Expand | lab3/visual.cpp:197-202 | The neighbour loop discovers exactly the neighbours still at -1, each once, at dist[v] + 1, queues them in the order of `adj[v]` (the new queue tail is FirstUnreached of `adj[v]`) and leaves every other distance alone |
| GraphDiameter.ExpandKeepsQueue | lab3/visual.cpp:193-202 | After a round the queue is still ordered by distance across at most two levels and the vertices out of the queue are closed |
| GraphDiameter.Bfs | lab3/visual.cpp:187-203 | The search from start leaves dist[start] = 0 and distances that are sound and closed (IsBfsDist), hence shortest distances by BfsDistances |
| GraphDiameter.RaiseToMax | lab3/visual.cpp:205-209 | The max loop returns the largest of the running diameter and the distances |
| GraphDiameter.ComputeDiameter | lab3/visual.cpp:183-213 | The result is the largest shortest distance between two vertices, 0 when no pair is connected; main.cpp:147-177 holds the same loop |
| SpanningTree.InitialTree | lab3/main.cpp:211-215 | At the start only the root is visited, with parent -1 and depth 0, and the tree has no edge |
| SpanningTree.FoundParents | lab3/main.cpp:228-231 | Discovering u from v records v as u's parent, one level up, and leaves unvisited vertices at parent -1, depth 0 |
| SpanningTree.FoundAdjacency | lab3/main.cpp:234-235 | Pushing the edge at both ends keeps the tree lists exactly the parent edges, once each, with two more list entries per visited vertex |
| SpanningTree.Grow | lab3/main.cpp:227-237 | The neighbour loop visits each unvisited neighbour once, in the shuffled order, at depth depth[v] + 1 with parent v (every other parent entry unchanged), queues it and joins it to v in the tree; the new queue tail is FirstUnvisited of the shuffled list, so the queueing order is the shuffled order |
| SpanningTree.GrownKeepsQueue | lab3/main.cpp:217-237 | Expanding the head keeps the queue ordered by depth and every finished vertex above maxDepth closed |
| SpanningTree.SkipKeepsQueue | lab3/main.cpp:221 | Popping a vertex at depth >= maxDepth without expanding it keeps the same invariants |
| SpanningTree.Shuffled | lab3/main.cpp:224-225 | A shuffled neighbour list has the same members as the original |
| SpanningTree.BuildTreeWithConstraints | lab3/main.cpp:200-248 | Returns a fresh tree of n vertices, with parent and depth arrays forming a breadth-first tree closed below maxDepth, and allVisited iff every vertex was visited (the flag of main.cpp's warning). visual.cpp:216-256 is the same search without the parent array and the warning; the tree name and start vertex the model also records come from that copy alone (visual.cpp:216-223), since main.cpp's `Graph` has neither field |
| SpanningTree.TreeDepths | lab3/main.cpp:221-236 | For maxDepth >= 0 the visited vertices are exactly those within maxDepth of the start, each at its shortest distance, none deeper than maxDepth |
| SpanningTree.TreeEdgesInGraph | lab3/main.cpp:227-236 | In a symmetric graph every tree edge is a graph edge |
| SpanningTree.TreeShape | lab3/visual.cpp:243-251 | The tree is simple (hence symmetric), each visited non-root vertex is joined to its parent at both ends, and the edge count is the visited count minus 1 |
| SpanningTree.AllVisitedIff | lab3/main.cpp:240-247 | Every vertex is visited iff every vertex lies within maxDepth of the start iff the tree has n - 1 edges |
| DepthCheck.DfsVisit | lab3/main.cpp:180-189 | dfs only adds marks, and marks v iff depth <= maxDepth |
| DepthCheck.DfsEach | lab3/main.cpp:184-188 | The neighbour loop of dfs only adds marks |
| DepthCheck.Dfs | lab3/main.cpp:180-189 | The recursive dfs over the shared visited array leaves exactly the marks DfsVisit computes |
| DepthCheck.DfsMarks | lab3/main.cpp:193-194 | From all-unmarked, the start is marked iff maxDepth >= 0 |
| DepthCheck.DfsMarksWithin | lab3/main.cpp:180-189 | Every marked vertex is reachable from the start by a walk of at most maxDepth edges |
| DepthCheck.CheckDepthConstraintAsWritten | lab3/main.cpp:192-197 | Returns true iff dfs marked every vertex |
| DepthCheck.DfsMissesShortWalk | lab3/main.cpp:180-197 | On the graph 0-1, 1-2, 0-2, 2-3 with maxDepth 2, vertex 3 is within 2 edges of 0 but dfs leaves it unmarked |
| DepthCheck.CheckDepthConstraint | lab3/main.cpp:192-197 | Returns true iff every vertex lies within maxDepth edges of the start |
| DotExport.Replace | lab3/visual.cpp:266-268 | `std::replace` keeps the length and maps exactly the occurrences of a to b |
| DotExport.SanitizeName | lab3/visual.cpp:264-270 | Same length; each character mapped on its own: ' ' and '.' to '_', '=' to '-' |
| DotExport.SanitizeNameClean | lab3/visual.cpp:264-270 | The result holds no ' ', '=' or '.', and sanitising is idempotent |
| DotExport.SanitizeNameKeeps | lab3/visual.cpp:264-270 | Every other character stays in place |
| DotExport.DegreeColorGradient | lab3/visual.cpp:306-315 | Degrees 0 to 4 get five different colours; every degree of 4 or more gets skyblue |
| DotExport.NodeColorRule | lab3/visual.cpp:302-317 | A node is red iff the graph is a tree and the node is its start; otherwise its colour is the degree colour |
| DotExport.DotEdges | lab3/visual.cpp:323-330 | The edge loop collects exactly the pairs (i, j) with j in adj[i] and i < j |
| DotExport.DotEdgesOnce | lab3/visual.cpp:323-330 | In a symmetric graph the set holds each undirected edge once, as (smaller, larger), and never its reverse |
| DotExport.DotEdgeCount | lab3/visual.cpp:323-330 | In a simple graph the set has as many pairs as getStats counts edges |

## Left out

- Randomness in lab3 becomes parameters: `mt19937`, `uniform_int_distribution`,
  `discrete_distribution` and `shuffle` give the start vertex, the shuffled neighbour
  lists (any permutation) and the drawn candidate indices.
- Floating point is not modelled: points, `computeDistances`, the two probability
  formulas, normalisation, `avgDegree` and the distance statistics.
- The candidate list is therefore built from one Boolean per vertex, "probability is
  positive". The number of edges drawn is the length of the drawn-index sequence.
- lab1 is not part of this model; it is floating-point sampling and file output.
- File and console I/O are not modelled. The loaders read a sequence of lines that are
  already classified as blank, comment, unparsable or three integers; `None` stands for
  a file that cannot be opened.
- Also not modelled: the printed table and messages, `setw`, and the text of the DOT
  file beyond its edge set and node colours. The edge styles, the positions, `system`
  calls, `mkdir` and rendering are left out as well.
- `event_names` affects only printing. Its content is modelled; the printed work codes
  and path labels are not.
- The `INT_MAX` sentinel of the free-float loop is an `Option`.
- Machine-integer overflow of `int` sums is not modelled. All arithmetic is unbounded.
- Cpm.NetworkGraph.LoadFromFile: requires no negative vertex and some id >= 1. Without
  that, the source indexes outside the lists it sized, which is undefined behaviour. The
  same holds for LoadFromFileWithNames and Rebuild.
- CpmInput.ReadLines: requires non-negative vertices, because names are spelled only for
  non-negative ids, which the loader needs anyway.
- Cpm.NetworkGraph.FindCriticalPath: requires at least one event. With 0 events the
  source indexes `adj_list[1]` out of bounds.
- Cpm.NetworkGraph.CalculateEarlyTimes: the relaxation and attainment facts are stated
  only when ids are topological (1 <= start < end <= n). For other networks only the
  field formulas and non-negativity are stated. The same holds for CalculateLateTimes,
  ForwardPass and BackwardPass.
- SpanningTree.TreeDepths: stated for maxDepth >= 0. With a negative bound the root is
  visited but no vertex is within the bound. The program only calls the search with
  diameter / 2 >= 0. The same holds for SpanningTree.AllVisitedIff.
- `form.cpp`'s loader does not skip lines starting with '#'. Such a line never yields
  three integers, so it is skipped as unparsable and both filters agree.
- `main()` of lab3 applies the depth check to the tree from vertex 0, not from the
  tree's start; the model states the check for any start vertex.
- `std::all_of` is modelled as a quantified expression over the visited array.
- Cpm.NetworkGraph.LoadFromFileWithNames: both loaders are given the same classified
  lines, where "unparsable" means a line on which `iss >> int` fails for one of the
  three values. The names loader instead reads three string tokens and applies `stoi`
  to each (lab2/test.cpp:207-212), so it differs on two kinds of line the model does
  not separate. A three-token line with a token that has no leading number, such as
  "2 1 x", makes `stoi` throw `std::invalid_argument`, which nothing catches; the
  integer loader skips that line. A token with trailing junk after its digits, such as
  "2x 1 4" or "1 2x 3", is read by `stoi` as its digit prefix, so the names loader
  keeps the line while the integer loader skips it.

## Findings

| source | as written | input that shows it | evidently intended | confidence | as-written member | corrected member |
|---|---|---|---|---|---|---|
| lab3/main.cpp:180-197 | `dfs` prunes at `depth > maxDepth` but marks vertices in one shared `visited` array, so a vertex first reached by a long branch is never revisited along a shorter one | edges 0-1, 1-2, 0-2, 2-3 with `adj[0] = [1, 2]`, start 0, maxDepth 2: dfs reaches 2 through 1 at depth 2, so 3 would sit at depth 3 and is never marked, although 0-2-3 has 2 edges; the check answers false | true iff every vertex lies within maxDepth edges of the start | not executed; the program applies it only to trees, where every vertex has one path and the answer is exact | DepthCheck.DfsMissesShortWalk | DepthCheck.CheckDepthConstraint |
