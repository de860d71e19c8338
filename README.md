# Minimum spanning tree animator — a verified model

`script.js` draws a random weighted graph and animates Prim's or Kruskal's
algorithm on it. Both algorithms first run to completion and record a
*trace*: a list of steps (`message`, `considerEdge`, `addEdge`,
`showInvalid`). Each step carries a snapshot of the data structure it works
on: Prim's priority queue and visited nodes, or Kruskal's remaining sorted
edges and disjoint sets. A small playback engine then executes the trace
one step at a time. It is driven by an interval timer and by step
forward/backward, pause/resume and speed controls. The algorithm buttons
are locked while a run is in progress.

This project models those parts in Dafny and proves what they promise.

- **Graph** (`graph.dfy`). A graph is `n` nodes and a list of weighted
  edges. Every endpoint is a node index, there are no self-loops, and no two
  edges share an unordered pair. The module also defines walks, the
  connectivity relation, acyclicity, the `min-max` key that records an edge
  as processed, and the order-preserving `Array.from(new Set(...))`.
- **Trace** (`trace.dfy`). The step and snapshot records. `AddedEdges` and
  `ConsideredEdges` collect the edges of a trace. `TraceFits` holds when the
  added edges are graph edges that close no cycle.
- **Stable sort** (`sorting.dfy`). `Array.prototype.sort` with a
  weight-difference comparator, which is stable. It is modelled as a stable
  insertion sort by key.
- **Prim** (`prim.dfy`). `primsAlgorithm` is a method with a `while` loop
  over a sorted sequence standing for the `priorityQueue` array. One
  iteration either grows the tree or rejects the edge. Each iteration is
  specified as a block of steps; the whole trace is a run of such blocks.
  Every graph edge with exactly one visited end stays queued, so when the
  loop stops the visited nodes are exactly the nodes connected to node 0.
  The final state is a spanning tree of them: it starts at node 0, has one
  edge fewer than nodes, and is acyclic.
- **Cycle search** (`cycle.dfy`). `findActualCycle` is the breadth-first
  search over the current MST edges. Its report is either empty or the
  queried edge followed by a walk along MST edges from its `from` end back to
  its `to` end, and it is non-empty exactly when both ends are visited,
  distinct and joined by MST edges. Completeness rests on the search loop's
  invariant that every seen node is either expanded or still queued, and
  that every MST edge at an expanded node has both ends seen.
- **Union-find** (`unionfind.dfy`). The `parent`/`rank` arrays of
  `kruskalsAlgorithm` form a class with `find` (path compression),
  `union` (by rank), `getDisjointSets` and `findRoot`. Each is proved
  against `Root`, the root function over a copy of the arrays.
- **Kruskal** (`kruskal.dfy`). `kruskalsAlgorithm` keeps the stably sorted
  copy of the edges and scans it until `n - 1` edges are accepted or the
  edges run out. The trace proves the following:
  - the disjoint sets of every snapshot are exactly the connected
    components of the edges accepted so far;
  - an edge is accepted exactly when its endpoints are not yet connected;
  - the accepted edges are acyclic;
  - unless `n - 1` edges were accepted, they connect the endpoints of every
    graph edge.
- **Playback** (`playback.dfy`, `start.dfy`). The page's `graph` and
  `animationState` globals are split into two classes:
  - `Scene` holds what is drawn: `mstEdges`, the `isInMST` flags, the
    processed keys, the highlights and the side panels;
  - `Visualizer` holds the playback control: the trace, the position, the
    running flag, the timer, the speed, the active algorithm and its lock.

  Each handler is a method. What the scene shows is tied to `Replay`, the
  result of executing a stretch of the trace on a cleared graph. The
  playback invariant records where the scene was last cleared or rebuilt
  (`origin`, a ghost field): the graph shows the replay of the steps from
  there to the current position. Switching the algorithm clears the scene
  mid-trace, so the two can differ. `SceneMst` proves in every state the
  handlers keep that the shown MST edges are graph edges, none twice, with
  no cycle, flagged exactly when shown. Once the scene is in step with the
  whole prefix of the trace, `ShownMst` proves four facts:
  - the graph shows exactly the edges added so far, in order;
  - these are graph edges and form no cycle;
  - an edge is flagged `isInMST` exactly when it is shown;
  - the processed keys are those of the edges added or considered.

The model keeps these behaviours of the code as they are:
- no final message step is recorded;
- stepping backward clears the highlights rather than restoring them;
- stepping forward onto the end leaves the algorithm buttons locked;
- switching the algorithm clears the scene but keeps the old trace and
  position;
- Kruskal's generator leaves its sorted copy in the sorted-edge panel.

Both generators run right after the reset, when `graph.mstEdges` is empty.
Their cycle explanations therefore search an empty edge list.
`CycleSearch.NoMstNoCycle` shows that Prim's report is then empty.
`Kruskal.SameRoot` of an empty list is empty, so Kruskal's explanation is
the edge alone.

## Model

| member | source | states |
|---|---|---|
| Graph.Key | script.js:624 | the processed key of an edge is the ordered pair of its endpoints, smaller first |
| Graph.KeyIdentifiesPair | script.js:614-624 | two edges have the same key exactly when they join the same unordered pair |
| Graph.Dedup | script.js:909 | `Array.from(new Set(s))` has no duplicates and the same members as `s` |
| Graph.Endpoints | script.js:909 | the flattened `[from, to]` pairs of a list of edges, position by position |
| Trace.AddedEdgesAppend | script.js:588-606 | the added edges of two trace pieces concatenate |
| Trace.ConsideredEdgesAppend | script.js:624-627 | the considered edges of two trace pieces concatenate |
| StableSort.SortByKey | script.js:772 | the result is sorted by the key, is a permutation of the input, and keeps equal-key elements in input order |
| StableSort.InsertSorted | script.js:676 | inserting into a sorted list keeps it sorted |
| StableSort.InsertStable | script.js:727 | the inserted element lands before every element of equal key, as the earlier element does in a stable sort |
| Prim.Incident | script.js:667-674 | the edges first queued are exactly the graph edges touching node 0, without duplicates |
| Prim.Reseed | script.js:717-725 | the edges pushed when a node joins are exactly the graph edges from it to an unvisited node, without duplicates |
| Prim.Items | script.js:669-672 | each queued entry carries its edge's own weight |
| Prim.PrimIteration | script.js:686-761 | one iteration keeps the loop invariant and makes progress: either one more node is visited or the queue shrinks |
| Prim.PrimsAlgorithm | script.js:657-764 | the trace opens with the initial queue, consists of whole iterations, stops with the loop guard false, and its added edges span the visited nodes as an acyclic tree from node 0; the visited nodes are exactly the nodes connected to node 0, so the tree has one edge fewer than those; every snapshot's queue is sorted, no edge is considered twice, and every rejected edge has both ends visited |
| Prim.TreeGrows | script.js:693-735 | adding an edge from the tree to an unvisited node keeps a spanning tree of the larger visited set |
| Prim.CrossingNotConnected | script.js:689-694 | an edge with exactly one visited endpoint joins two nodes the tree does not connect |
| Prim.AddPreserves | script.js:693-735 | the accept branch records considerEdge, addEdge and the reseeded queue, and keeps the invariant: a sorted duplicate-free queue of edges touching the tree, and a spanning tree of the visited nodes |
| Prim.RejectPreserves | script.js:736-760 | the reject branch records considerEdge and showInvalid with the cycle report, and keeps the invariant with the visited set unchanged |
| Prim.InitialCut | script.js:667-674 | every graph edge with exactly one end at node 0 is in the initial queue |
| Prim.RejectCut | script.js:687-694 | dropping an entry whose edge has both ends visited leaves every edge leaving the tree queued |
| Prim.AddCut | script.js:717-727 | after a node joins and its edges to unvisited nodes are pushed, every graph edge with exactly one visited end is queued |
| Prim.PrimSpans | script.js:686-764 | when the loop stops, a node is visited exactly when the graph connects it to node 0: either all nodes are visited, or the queue is empty and no graph edge leaves the tree |
| Prim.PrimDone | script.js:686-764 | once the loop stops, the invariant yields the promised outcome |
| CycleSearch.VisitEdge | script.js:895-902 | one callback call: an MST edge leaving `current` towards an unseen node marks it seen and enqueues it with the walk extended by that edge; afterwards an edge at `current` has both ends seen, and the new queue entries are exactly the newly seen nodes |
| CycleSearch.ExpandNeighbours | script.js:895-903 | the queue keeps its old entries as a prefix, the entries appended are exactly the newly seen nodes, each reached by the walk queued with it, and every MST neighbour of `current` is seen afterwards |
| CycleSearch.ClosedWalk | script.js:886-904 | once every seen node has been expanded, no walk along MST edges from a seen node leaves the seen nodes |
| CycleSearch.SearchWalk | script.js:882-904 | the search finds a non-empty walk along MST edges from `edge.from` to `edge.to` exactly when the two are distinct and MST-connected |
| CycleSearch.FindActualCycle | script.js:877-914 | the report is empty when an endpoint is unvisited; otherwise it is empty or the edge followed by a walk along MST edges from its `from` end to its `to` end, with the cycle's nodes listed once in first-seen order; it is non-empty exactly when both ends are visited, distinct and MST-connected |
| CycleSearch.NoMstNoCycle | script.js:877-914 | with no MST edges there is no cycle to report |
| UnionFind.DisjointSet.constructor | script.js:775-780 | every node is its own parent with rank 0 |
| UnionFind.DisjointSet.Find | script.js:782-787 | returns the root of `u` and points `u` at it, while every node keeps its root |
| UnionFind.DisjointSet.Union | script.js:789-804 | merges exactly when the roots differ; the root of higher rank wins (`u`'s on a tie, whose rank grows by one); all other roots are unchanged |
| UnionFind.UnionRoots | script.js:792-801 | the linking write and the rank bump keep a forest and move both classes under the winner |
| UnionFind.DisjointSet.GetDisjointSets | script.js:806-814 | the sets group the nodes exactly by root, in increasing root order, and no root changes |
| UnionFind.NonEmptyBuckets | script.js:813 | `Object.values` of the buckets keeps the non-empty ones in key order |
| UnionFind.DisjointSet.FindRoot | script.js:935-940 | returns the root of the node without changing the arrays |
| Kruskal.SameRoot | script.js:925-927 | keeps exactly the MST edges whose `from` end has the given root, in MST order |
| Kruskal.SameRootLinked | script.js:925-927 | filtering by root equals filtering by connection to the node under the accepted edges |
| Kruskal.FindActualCycleForKruskal | script.js:916-933 | empty when the roots differ; otherwise the edge, then the MST edges of its component, then their nodes once each |
| Kruskal.UnionClasses | script.js:842-853 | after a union the root classes are the components of the accepted edges plus the new edge |
| Kruskal.AcceptEdge | script.js:842-853 | records `addEdge` with the sets before the union, then merges the two classes |
| Kruskal.RejectEdge | script.js:854-868 | records `showInvalid` with the cycle explanation and the sets, which no longer change |
| Kruskal.KruskalIteration | script.js:828-868 | records `considerEdge` and the verdict; accepts exactly when the endpoints have different roots |
| Kruskal.KruskalLoopBody | script.js:827-871 | one pass keeps the loop invariant and counts the accepted edges |
| Kruskal.KruskalScan | script.js:775-871 | the trace is the opening message and one block per scanned edge of a prefix of the sorted list; the accepted edges are acyclic, and either `n - 1` of them or every edge was scanned, each edge's ends being connected |
| Kruskal.ScanDone | script.js:827 | once the loop guard fails, the loop invariant yields the outcome |
| Kruskal.KruskalsAlgorithm | script.js:767-874 | the sorted copy is a stable permutation of the edges; the accepted edges are graph edges, and unless there are `n - 1` of them they connect the ends of every graph edge |
| Playback.AnimationDelay | script.js:329-331 | the period is 2000 ms at speed 1 and 200 ms at speed 10, within those bounds in between |
| Playback.FasterIsShorter | script.js:329-331 | each speed step shortens the period by at least 200 ms |
| Playback.IndexOfPair | script.js:614-617 | finds the first graph edge joining the same unordered pair, or reports none |
| Playback.FindsItself | script.js:614-617 | in a well-formed graph the lookup of a graph edge finds that edge itself |
| Playback.ReplayStepFrom | script.js:588-606 | replaying one more step from any starting point applies that step to the earlier replay |
| Playback.Apply | script.js:612-633 | only `addEdge` changes the MST view's edges and flags; only `addEdge` and `considerEdge` change anything |
| Playback.ReplayShowsAdded | script.js:975-993 | replaying a trace of graph edges shows exactly the added edges, in order |
| Playback.ReplayMarksAdded | script.js:975-993 | replaying flags an edge `isInMST` exactly when a step added it |
| Playback.ReplayProcessesSeen | script.js:975-993 | replaying records the keys of exactly the added and considered edges |
| Playback.HighlightsOf | script.js:609-633 | only `considerEdge` highlights an edge under consideration; only `showInvalid` shows invalid and cycle edges |
| Playback.Scene.constructor | script.js:16-20 | a new graph has no MST edge, highlight or panel |
| Playback.Scene.Clear | script.js:89-108 | clears the highlights, the panels, the processed keys and the shown MST |
| Playback.Scene.ApplyStep | script.js:608-634 | the MST view moves by `Apply` and the highlights become those of the step |
| Playback.Scene.ShowSnapshot | script.js:636-647 | the panels of the snapshot's algorithm show it; the other algorithm's panels are kept |
| Playback.Scene.ShowSorted | script.js:773 | the sorted-edge panel takes the given list and nothing else on the page changes |
| Playback.Scene.ExecuteStep | script.js:608-654 | both of the above, for one step |
| Playback.Scene.Rebuild | script.js:964-1009 | the MST view is the replay of the first `count` steps, highlights are cleared, and the panels show the last replayed snapshot or are emptied at step 0 |
| Playback.ReplaySteps | script.js:975-993 | the loop computes exactly the replay of the first `count` steps |
| Playback.Visualizer.constructor | script.js:22-42 | playback starts empty, stopped, unlocked, at speed 5, with Prim active |
| Playback.Visualizer.ResetAnimation | script.js:540-563 | stops the timer, forgets the trace, rewinds, unlocks and clears the scene, keeping the algorithm and speed |
| Playback.Visualizer.Load | script.js:578-585 | installs the trace; a non-empty one starts a run, locks the choice and arms the timer at the current period |
| Playback.Visualizer.SelectAlgorithm | script.js:110-138 | ignored while locked; otherwise switches algorithm and clears the scene, which from then on shows the steps executed after the switch |
| Playback.Visualizer.Advance | script.js:589-591 | executes the next step and moves past it: the MST view moves by `Apply`, the highlights and panels show the step, the other algorithm's panels are kept, and the playback invariant holds |
| Playback.Visualizer.AnimateStep | script.js:588-606 | before the end, executes the next step: the scene shows that step's snapshot and highlights, keeps the other algorithm's panels, and stays in step with the trace; at the end, stops and unlocks without changing the scene |
| Playback.Visualizer.StepForward | script.js:943-954 | before the end, stops the run and executes the next step, which the scene shows with its highlights while keeping the other algorithm's panels and the lock; at the end, does nothing |
| Playback.Visualizer.StepBackward | script.js:956-1015 | after the start, stops the run, moves back one step and shows exactly the replay of the remaining prefix; the panels show the last remaining step's snapshot, and the other algorithm's panels are kept |
| Playback.Visualizer.PauseResume | script.js:1017-1029 | pauses a run; otherwise resumes exactly when steps remain |
| Playback.Visualizer.ChangeSpeed | script.js:149-159 | sets the speed and re-arms a running timer at the new period |
| Playback.SceneMst | script.js:608-633 | in every state the handlers keep, the graph shows the edges added by the steps executed since the last clear, in order: graph edges, none twice, no cycle, flagged `isInMST` exactly when shown, and the processed keys are those of the edges added or considered since then |
| Playback.ShownMst | script.js:608-633 | whenever the scene is in step with the trace, it shows the added edges in order, graph edges with no cycle, flags exactly those, and records the keys of the added and considered edges |
| Visualize.Generate | script.js:572-576 | the active algorithm's trace fits the graph; Prim's is a complete run of its loop ending in a spanning tree from node 0 over exactly the nodes connected to node 0, with consistent snapshots and no edge considered twice; Kruskal's sorted list is a stable sort of the edges by weight, scanned in order into graph edges that span the graph or number `n - 1` |
| Visualize.StartVisualization | script.js:567-586 | resets, generates and loads the trace; the scene is cleared except the sorted-edge panel, and the run starts exactly when the trace is not empty |

## Left out

- The canvas, the DOM and all drawing are not modelled. This covers the
  step panel's HTML text, the statistics, the control-button states and the
  speed label.
- Random graph generation is not modelled, nor is node dragging. A graph is
  a parameter, assumed to satisfy `WellFormed`; that is what the generator
  guarantees.
- The interval timer is reduced to whether it is armed and with which
  period. Timer ticks are calls to `AnimateStep`.
- The completion message of `animateStep` is not modelled. It only writes
  text.
- `visitedNodes` is a `Set` in the code. It is modelled as the duplicate-free
  list it is built from, in insertion order.
- `isInMST` is a flag on each edge object. It is modelled as the set of
  indices of the flagged edges.
- The `step.x ||` and `if (step.x)` guards of `executeStep` depend on
  JavaScript truthiness. The model uses which snapshot a step carries: every
  Prim step carries a queue and a visited list, and every Kruskal step
  carries sorted edges and sets.
- Visualize.StartVisualization: when Prim is active on a graph with no
  nodes, the model leaves the reset state as it is. The code would then read
  node 0, which does not exist. The generator never produces such a graph.
- Visualize.Generate, Kruskal.KruskalsAlgorithm and
  Kruskal.FindActualCycleForKruskal require every `graph.mstEdges` entry to
  have its `from` end inside the graph. The code indexes `parent` with it.
  `Playback.SceneMst` shows that the entries are graph edges in every state
  the playback handlers keep.
- Prim.PrimsAlgorithm: the model proves that Prim's tree spans the nodes
  connected to node 0, not that its total weight is minimal. So it does not
  prove that Prim's and Kruskal's trees weigh the same on a connected graph.
  The cut and exchange argument behind minimality is not modelled.
- Playback.Visualizer.ChangeSpeed: the slider's value is passed as an
  integer. The parsing of the slider's string is not modelled.
