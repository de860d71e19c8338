/**
  The playback engine: the `graph` and `animationState` globals of the page
  as one object, and the handlers that change them — reset, algorithm
  switch, start, the timer tick, step forward, step backward, pause/resume
  and the speed slider. Drawing, the DOM and the text of the step panel are
  not modelled; the interval timer is reduced to whether it is armed and
  with which period.
 */
module Playback {
  import opened Wrappers
  import opened Graph
  import opened Trace

  /** The algorithm whose button is active. */
  datatype Algorithm = AlgoPrim | AlgoKruskal

  /** `getAnimationDelay()`: the timer period in milliseconds for a speed setting. */
  function AnimationDelay(speed: int): (d: int)
    ensures 1 <= speed <= 10 ==> 200 <= d <= 2000
    ensures speed == 1 ==> d == 2000
    ensures speed == 10 ==> d == 200
  {
    2200 - speed * 200
  }

  /** A higher speed setting never gives a longer period. */
  lemma FasterIsShorter(s1: int, s2: int)
    requires s1 < s2
    ensures AnimationDelay(s2) + 200 <= AnimationDelay(s1)
  {
  }

  /**
    `graph.edges.find(...)` as `executeStep` and `stepBackward` call it: the
    first graph edge joining the same unordered pair as `e`, if any.
   */
  function IndexOfPair(edges: seq<Edge>, e: Edge): (r: Option<nat>)
    ensures r.Some? ==> r.value < |edges| && SamePair(edges[r.value], e)
    ensures r.Some? ==> forall k :: 0 <= k < r.value ==> !SamePair(edges[k], e)
    ensures r.None? ==> forall k :: 0 <= k < |edges| ==> !SamePair(edges[k], e)
    decreases |edges|
  {
    if edges == [] then None
    else if SamePair(edges[0], e) then Some(0)
    else
      match IndexOfPair(edges[1..], e)
      case None => None
      case Some(k) => Some(k + 1)
  }

  /** In a graph without two edges on one pair, looking up a graph edge finds that edge itself. */
  lemma FindsItself(n: nat, edges: seq<Edge>, e: Edge)
    requires WellFormed(n, edges) && e in edges
    ensures IndexOfPair(edges, e).Some? && edges[IndexOfPair(edges, e).value] == e
  {
    var j :| 0 <= j < |edges| && edges[j] == e;
    var r := IndexOfPair(edges, e);
    assert SamePair(edges[j], e);
    assert SamePair(edges[r.value], edges[j]);
  }

  /** The keys `min-max` of a list of edges. */
  function Keys(es: seq<Edge>): (ks: set<(nat, nat)>)
    ensures forall e :: e in es ==> Key(e) in ks
    ensures forall k :: k in ks ==> exists e :: e in es && Key(e) == k
  {
    set e | e in es :: Key(e)
  }

  /**
    What the executed steps leave on the graph: `graph.mstEdges`, the
    indices of the edges whose `isInMST` is set, and `processedEdges`.
   */
  datatype MstView = MstView(mst: seq<Edge>, marked: set<nat>, processed: set<(nat, nat)>)

  /**
    The effect of one step on the MST view, as `executeStep` and the replay
    loop of `stepBackward` both apply it: an `addEdge` step whose pair is a
    graph edge marks and appends that graph edge and records its key; a
    `considerEdge` step records the key of its edge.
   */
  function Apply(edges: seq<Edge>, v: MstView, s: Step): (r: MstView)
    ensures !s.AddEdge? ==> r.mst == v.mst && r.marked == v.marked
    ensures !s.AddEdge? && !s.ConsiderEdge? ==> r == v
  {
    match s
    case AddEdge(e, _) =>
      (match IndexOfPair(edges, e)
       case None => v
       case Some(k) => MstView(v.mst + [edges[k]], v.marked + {k}, v.processed + {Key(edges[k])}))
    case ConsiderEdge(e, _) => v.(processed := v.processed + {Key(e)})
    case _ => v
  }

  /** The MST view after executing `steps` in order from a cleared graph. */
  function Replay(edges: seq<Edge>, steps: seq<Step>): (r: MstView)
    ensures forall k :: k in r.marked ==> k < |edges|
    decreases |steps|
  {
    if steps == [] then MstView([], {}, {})
    else Apply(edges, Replay(edges, steps[..|steps| - 1]), steps[|steps| - 1])
  }

  lemma ReplayStep(edges: seq<Edge>, steps: seq<Step>, i: nat)
    requires i < |steps|
    ensures Replay(edges, steps[..i + 1]) == Apply(edges, Replay(edges, steps[..i]), steps[i])
  {
    assert steps[..i + 1][..i] == steps[..i];
  }

  /** Executing one more step extends a replay that started at any position `o`. */
  lemma ReplayStepFrom(edges: seq<Edge>, steps: seq<Step>, o: nat, i: nat)
    requires o <= i < |steps|
    ensures Replay(edges, steps[o..i + 1]) == Apply(edges, Replay(edges, steps[o..i]), steps[i])
  {
    assert steps[o..i + 1][..i - o] == steps[o..i];
  }

  lemma KeysAppend(es: seq<Edge>, e: Edge)
    ensures Keys(es + [e]) == Keys(es) + {Key(e)}
  {
    assert forall x :: x in es + [e] <==> x in es || x == e;
  }

  /** A graph edge is found at its own index, and at no other. */
  lemma OnlyIndex(n: nat, edges: seq<Edge>, e: Edge)
    requires WellFormed(n, edges) && e in edges
    ensures IndexOfPair(edges, e).Some?
    ensures forall k :: 0 <= k < |edges| ==> (edges[k] == e <==> k == IndexOfPair(edges, e).value)
  {
    FindsItself(n, edges, e);
    var k0 := IndexOfPair(edges, e).value;
    forall k | 0 <= k < |edges| && k != k0
      ensures edges[k] != e
    {
      if k < k0 {
        assert !SamePair(edges[k], edges[k0]);
      } else {
        assert !SamePair(edges[k0], edges[k]);
      }
    }
  }

  /**
    When every `addEdge` step carries a graph edge, replaying a trace puts
    exactly its added edges, in order, into `mstEdges`.
   */
  lemma {:induction false} ReplayShowsAdded(n: nat, edges: seq<Edge>, steps: seq<Step>)
    requires WellFormed(n, edges)
    requires forall e :: e in AddedEdges(steps) ==> e in edges
    ensures Replay(edges, steps).mst == AddedEdges(steps)
    decreases |steps|
  {
    if steps != [] {
      var init, last := steps[..|steps| - 1], steps[|steps| - 1];
      ReplayShowsAdded(n, edges, init);
      if last.AddEdge? {
        assert AddedEdges(steps) == AddedEdges(init) + [last.edge];
        FindsItself(n, edges, last.edge);
      }
    }
  }

  /** ... and marks an edge `isInMST` exactly when a step added it. */
  lemma {:induction false} ReplayMarksAdded(n: nat, edges: seq<Edge>, steps: seq<Step>)
    requires WellFormed(n, edges)
    requires forall e :: e in AddedEdges(steps) ==> e in edges
    ensures forall k :: k in Replay(edges, steps).marked <==> 0 <= k < |edges| && edges[k] in AddedEdges(steps)
    decreases |steps|
  {
    if steps != [] {
      var init, last := steps[..|steps| - 1], steps[|steps| - 1];
      ReplayMarksAdded(n, edges, init);
      if last.AddEdge? {
        assert AddedEdges(steps) == AddedEdges(init) + [last.edge];
        OnlyIndex(n, edges, last.edge);
      }
    }
  }

  /** ... and records as processed the keys of exactly the added and the considered edges. */
  lemma {:induction false} ReplayProcessesSeen(n: nat, edges: seq<Edge>, steps: seq<Step>)
    requires WellFormed(n, edges)
    requires forall e :: e in AddedEdges(steps) ==> e in edges
    ensures Replay(edges, steps).processed == Keys(AddedEdges(steps)) + Keys(ConsideredEdges(steps))
    decreases |steps|
  {
    if steps != [] {
      var init, last := steps[..|steps| - 1], steps[|steps| - 1];
      ReplayProcessesSeen(n, edges, init);
      if last.AddEdge? {
        assert AddedEdges(steps) == AddedEdges(init) + [last.edge];
        FindsItself(n, edges, last.edge);
        KeysAppend(AddedEdges(init), last.edge);
      } else if last.ConsiderEdge? {
        assert ConsideredEdges(steps) == ConsideredEdges(init) + [last.edge];
        KeysAppend(ConsideredEdges(init), last.edge);
      }
    }
  }

  lemma AcyclicPrefix(es: seq<Edge>, c: nat)
    requires Acyclic(es) && c <= |es|
    ensures Acyclic(es[..c])
  {
    forall k | 0 <= k < c ensures !Connected(es[..c][..k], es[..c][k].from, es[..c][k].to) {
      assert es[..c][..k] == es[..k];
    }
  }

  /** The edges after position `c` of an acyclic list are acyclic too. */
  lemma AcyclicSuffix(es: seq<Edge>, c: nat)
    requires Acyclic(es) && c <= |es|
    ensures Acyclic(es[c..])
  {
    forall k | 0 <= k < |es| - c ensures !Connected(es[c..][..k], es[c..][k].from, es[c..][k].to) {
      assert es[c..][k] == es[c + k];
      if Connected(es[c..][..k], es[c + k].from, es[c + k].to) {
        ConnectedMono(es[c..][..k], es[..c + k], es[c + k].from, es[c + k].to);
      }
    }
  }

  /** An acyclic edge list holds no edge twice: the second copy would join connected nodes. */
  lemma AcyclicNoDup(es: seq<Edge>)
    requires Acyclic(es)
    ensures NoDup(es)
  {
    forall i, j | 0 <= i < j < |es| ensures es[i] != es[j] {
      if es[i] == es[j] {
        assert es[i] in es[..j];
        ConnectedByEdge(es[..j], es[i]);
      }
    }
  }

  /** What a step highlights: the edge under consideration, the invalid edges and the cycle explaining them. */
  function HighlightsOf(s: Step): (h: (Option<Edge>, seq<Edge>, seq<Edge>, seq<nat>))
    ensures h.0.Some? <==> s.ConsiderEdge?
    ensures !s.ShowInvalid? ==> h.1 == [] && h.2 == [] && h.3 == []
  {
    match s
    case ConsiderEdge(e, _) => (Some(e), [], [], [])
    case ShowInvalid(_, invalid, cycle, nodes, _) => (None, invalid, cycle, nodes)
    case _ => (None, [], [], [])
  }

  /** What the page shows: the MST view on the graph, the highlights and the side panels. */
  datatype Display = Display(
    view: MstView,
    consideringEdge: Option<Edge>, invalidEdges: seq<Edge>, cycleEdges: seq<Edge>, cycleNodes: seq<nat>,
    priorityQueue: seq<QueueItem>, visitedNodes: seq<nat>, disjointSets: seq<seq<nat>>, sortedEdges: Option<seq<Edge>>)

  /** The page with nothing highlighted, no panel filled and no edge in the MST. */
  function Cleared(): (d: Display)
    ensures d.view == MstView([], {}, {})
    ensures d.consideringEdge == None && d.invalidEdges == [] && d.cycleEdges == [] && d.cycleNodes == []
    ensures d.priorityQueue == [] && d.visitedNodes == [] && d.disjointSets == [] && d.sortedEdges == None
  {
    Display(MstView([], {}, {}), None, [], [], [], [], [], [], None)
  }

  /**
    What the page draws: the generated graph with `graph.mstEdges` and the
    `isInMST` flags of its edges, and the fields of `animationState` that
    the steps fill in — the highlights, the processed keys and the side
    panels.
   */
  class Scene {
    const n: nat
    const edges: seq<Edge>
    var mstEdges: seq<Edge>
    var inMst: set<nat>
    var processedEdges: set<(nat, nat)>
    var consideringEdge: Option<Edge>
    var invalidEdges: seq<Edge>
    var cycleEdges: seq<Edge>
    var cycleNodes: seq<nat>
    var priorityQueue: seq<QueueItem>
    var visitedNodes: seq<nat>
    var disjointSets: seq<seq<nat>>
    var sortedEdges: Option<seq<Edge>>

    ghost function View(): MstView
      reads this
    {
      MstView(mstEdges, inMst, processedEdges)
    }

    ghost function Shown(): Display
      reads this
    {
      Display(View(), consideringEdge, invalidEdges, cycleEdges, cycleNodes, priorityQueue, visitedNodes, disjointSets, sortedEdges)
    }

    /** The side panels show the snapshot `snap` carries. */
    ghost predicate Shows(snap: Snapshot)
      reads this
    {
      match snap
      case PrimSnap(q, v) => (priorityQueue, visitedNodes) == (q, v)
      case KruskalSnap(s, sets) => (sortedEdges, disjointSets) == (Some(s), sets)
    }

    /** The highlighted edge under consideration, the invalid edges, and the cycle explaining them. */
    ghost function Highlighted(): (Option<Edge>, seq<Edge>, seq<Edge>, seq<nat>)
      reads this
    {
      (consideringEdge, invalidEdges, cycleEdges, cycleNodes)
    }

    /** The side panels: Prim's queue and visited nodes, Kruskal's disjoint sets and sorted edges. */
    ghost function Panels(): (seq<QueueItem>, seq<nat>, seq<seq<nat>>, Option<seq<Edge>>)
      reads this
    {
      (priorityQueue, visitedNodes, disjointSets, sortedEdges)
    }

    /** A freshly generated graph: nothing in the MST, highlighted or in a panel. */
    constructor (n: nat, edges: seq<Edge>)
      ensures this.n == n && this.edges == edges
      ensures Shown() == Cleared()
    {
      this.n := n;
      this.edges := edges;
      mstEdges := [];
      inMst := {};
      processedEdges := {};
      consideringEdge := None;
      invalidEdges := [];
      cycleEdges := [];
      cycleNodes := [];
      priorityQueue := [];
      visitedNodes := [];
      disjointSets := [];
      sortedEdges := None;
    }

    /**
      `resetAnimationState()`: clears the highlights, the panels, the
      processed keys and the MST shown on the graph.
     */
    method Clear()
      modifies this
      ensures Shown() == Cleared()
    {
      consideringEdge := None;
      invalidEdges := [];
      cycleEdges := [];
      cycleNodes := [];
      priorityQueue := [];
      visitedNodes := [];
      disjointSets := [];
      processedEdges := {};
      sortedEdges := None;
      mstEdges := [];
      inMst := {};
    }

    /**
      The first half of `executeStep`: clears the highlights, then applies
      the step to the MST shown and highlights what the step names.
     */
    method ApplyStep(step: Step)
      modifies this`mstEdges, this`inMst, this`processedEdges, this`consideringEdge, this`invalidEdges, this`cycleEdges, this`cycleNodes
      ensures View() == Apply(edges, old(View()), step)
      ensures Highlighted() == HighlightsOf(step)
    {
      consideringEdge := None;
      invalidEdges := [];
      cycleEdges := [];
      cycleNodes := [];
      match step {
        case AddEdge(e, _) =>
          var found := IndexOfPair(edges, e);
          if found.Some? {
            var k := found.value;
            inMst := inMst + {k};
            mstEdges := mstEdges + [edges[k]];
            processedEdges := processedEdges + {Key(edges[k])};
          }
        case ConsiderEdge(e, _) =>
          consideringEdge := Some(e);
          processedEdges := processedEdges + {Key(e)};
        case ShowInvalid(_, invalid, cycle, nodes, _) =>
          invalidEdges := invalid;
          cycleEdges := cycle;
          cycleNodes := nodes;
        case Message(_) =>
      }
    }

    /**
      The second half of `executeStep`, also done by `stepBackward`: copies
      a snapshot into the panels of its algorithm and leaves the other
      algorithm's panels.
     */
    method ShowSnapshot(snap: Snapshot)
      modifies this`priorityQueue, this`visitedNodes, this`disjointSets, this`sortedEdges
      ensures Shows(snap)
      ensures snap.PrimSnap? ==> disjointSets == old(disjointSets) && sortedEdges == old(sortedEdges)
      ensures snap.KruskalSnap? ==> priorityQueue == old(priorityQueue) && visitedNodes == old(visitedNodes)
    {
      match snap {
        case PrimSnap(q, visited) =>
          priorityQueue := q;
          visitedNodes := visited;
        case KruskalSnap(sorted, sets) =>
          disjointSets := sets;
          sortedEdges := Some(sorted);
      }
    }

    /**
      `executeStep`: applies a step to the MST shown and the highlights,
      and copies its snapshot into the panels.
     */
    method ExecuteStep(step: Step)
      modifies this
      ensures View() == Apply(edges, old(View()), step)
      ensures Highlighted() == HighlightsOf(step) && Shows(step.snap)
      ensures step.snap.PrimSnap? ==> disjointSets == old(disjointSets) && sortedEdges == old(sortedEdges)
      ensures step.snap.KruskalSnap? ==> priorityQueue == old(priorityQueue) && visitedNodes == old(visitedNodes)
    {
      ApplyStep(step);
      ShowSnapshot(step.snap);
    }

    /**
      What `stepBackward` shows once the position has moved back to
      `count`: the highlights cleared (not restored), the MST rebuilt by
      replaying the first `count` steps on a cleared graph whatever was
      shown before, and the panels taken from the snapshot of the last
      replayed step — leaving the other algorithm's panels — or emptied at
      step 0.
     */
    method Rebuild(steps: seq<Step>, count: nat)
      requires count <= |steps|
      modifies this
      ensures View() == Replay(edges, steps[..count])
      ensures Highlighted() == (None, [], [], [])
      ensures count > 0 ==> Shows(steps[count - 1].snap)
      ensures count > 0 && steps[count - 1].snap.PrimSnap? ==> disjointSets == old(disjointSets) && sortedEdges == old(sortedEdges)
      ensures count > 0 && steps[count - 1].snap.KruskalSnap? ==> priorityQueue == old(priorityQueue) && visitedNodes == old(visitedNodes)
      ensures count == 0 ==> Panels() == ([], [], [], None)
    {
      ClearHighlights();
      mstEdges, inMst, processedEdges := ReplaySteps(edges, steps, count);
      if count > 0 {
        ShowSnapshot(steps[count - 1].snap);
      } else {
        ClearPanels();
      }
    }

    /** Kruskal's generator leaving its sorted copy in `animationState.sortedEdges`. */
    method ShowSorted(sorted: Option<seq<Edge>>)
      modifies this`sortedEdges
      ensures View() == old(View()) && Shown() == old(Shown()).(sortedEdges := sorted)
    {
      sortedEdges := sorted;
    }

    method ClearHighlights()
      modifies this`consideringEdge, this`invalidEdges, this`cycleEdges, this`cycleNodes
      ensures Highlighted() == (None, [], [], [])
    {
      consideringEdge := None;
      invalidEdges := [];
      cycleEdges := [];
      cycleNodes := [];
    }

    method ClearPanels()
      modifies this`priorityQueue, this`visitedNodes, this`disjointSets, this`sortedEdges
      ensures Panels() == ([], [], [], None)
    {
      priorityQueue := [];
      visitedNodes := [];
      disjointSets := [];
      sortedEdges := None;
    }
  }

  /**
    The playback state of `animationState` and the active algorithm
    button, over the scene it animates.
   */
  class Visualizer {
    const scene: Scene
    var algorithm: Algorithm
    var isRunning: bool
    var currentStep: nat
    var totalSteps: nat
    var steps: seq<Step>
    var speed: int
    // `intervalId`: whether a timer is armed, and with which period.
    var timerArmed: bool
    var timerDelay: int
    var algorithmLocked: bool
    // The position at which the scene was last cleared or rebuilt: the
    // graph shows the steps executed since then.
    ghost var origin: nat

    /**
      What every handler keeps: a position inside the trace, a timer armed
      exactly while running and at the period of the current speed, a run
      or a lock only over a non-empty trace, a trace that fits the graph,
      and a graph showing what executing the steps from `origin` up to the
      position leaves on a cleared graph.
     */
    ghost predicate Valid()
      reads this`steps, this`totalSteps, this`currentStep, this`timerArmed, this`isRunning, this`timerDelay, this`speed, this`algorithmLocked
      reads this`origin, scene`mstEdges, scene`inMst, scene`processedEdges
    {
      && TraceFits(scene.n, scene.edges, steps)
      && totalSteps == |steps| && currentStep <= totalSteps
      && origin <= currentStep
      && MstView(scene.mstEdges, scene.inMst, scene.processedEdges) == Replay(scene.edges, steps[origin..currentStep])
      && (timerArmed <==> isRunning)
      && (timerArmed ==> timerDelay == AnimationDelay(speed))
      && (isRunning ==> |steps| > 0)
      && (algorithmLocked ==> |steps| > 0)
    }

    /**
      The scene shows what executing the first `currentStep` steps from a
      cleared graph leaves, and the panels the snapshot of the last of them.
     */
    ghost predicate Synced()
      reads this`steps, this`currentStep, scene
    {
      && currentStep <= |steps|
      && scene.View() == Replay(scene.edges, steps[..currentStep])
      && (currentStep > 0 ==> scene.Shows(steps[currentStep - 1].snap))
    }

    /** Where playback stands in the trace. */
    ghost function Position(): (seq<Step>, nat, nat)
      reads this`steps, this`currentStep, this`totalSteps
    {
      (steps, currentStep, totalSteps)
    }

    /** The active algorithm and the lock on switching it. */
    ghost function Choice(): (Algorithm, bool)
      reads this`algorithm, this`algorithmLocked
    {
      (algorithm, algorithmLocked)
    }

    /** The initial `graph` and `animationState` for a generated graph. */
    constructor (n: nat, edges: seq<Edge>)
      requires WellFormed(n, edges)
      ensures scene.n == n && scene.edges == edges && fresh(scene)
      ensures Valid() && Synced()
      ensures Position() == ([], 0, 0) && Choice() == (AlgoPrim, false)
      ensures !isRunning && !timerArmed && speed == 5
      ensures scene.Shown() == Cleared()
    {
      scene := new Scene(n, edges);
      algorithm := AlgoPrim;
      isRunning := false;
      currentStep := 0;
      totalSteps := 0;
      steps := [];
      speed := 5;
      timerArmed := false;
      timerDelay := 0;
      algorithmLocked := false;
      origin := 0;
    }

    /**
      `resetAnimation()`: stops the timer, forgets the trace, rewinds to
      step 0, releases the lock and clears the scene; the active algorithm
      and the speed are kept.
     */
    method ResetAnimation()
      requires Valid()
      modifies this`timerArmed, this`isRunning, this`currentStep, this`totalSteps, this`steps, this`algorithmLocked, this`origin, scene
      ensures Valid() && Synced()
      ensures Position() == ([], 0, 0)
      ensures !isRunning && !timerArmed && !algorithmLocked
      ensures scene.Shown() == Cleared()
    {
      if timerArmed {
        timerArmed := false;
      }
      isRunning := false;
      currentStep := 0;
      totalSteps := 0;
      steps := [];
      algorithmLocked := false;
      scene.Clear();
      origin := 0;
    }

    /**
      The end of `startVisualization`, once the trace is generated on the
      reset state: the trace becomes the animation's, and when it is not
      empty the run starts, the algorithm choice is locked and the timer
      is armed at the current speed's period.
     */
    method Load(trace: seq<Step>)
      requires Valid() && Position() == ([], 0, 0) && !isRunning && !algorithmLocked
      requires TraceFits(scene.n, scene.edges, trace)
      modifies this`steps, this`totalSteps, this`isRunning, this`algorithmLocked, this`timerArmed, this`timerDelay
      ensures Valid()
      ensures Position() == (trace, 0, |trace|)
      ensures isRunning == algorithmLocked == timerArmed == (|trace| > 0)
    {
      steps := trace;
      if |trace| > 0 {
        isRunning := true;
        totalSteps := |trace|;
        algorithmLocked := true;
        timerArmed := true;
        timerDelay := AnimationDelay(speed);
      }
    }

    /**
      A click on an algorithm button: ignored while the lock is held;
      otherwise it activates the algorithm and clears the scene — but not
      the trace or the position, so a later step backward replays the
      previous algorithm's trace.
     */
    method SelectAlgorithm(a: Algorithm)
      requires Valid()
      modifies this`algorithm, this`origin, scene
      ensures Valid()
      ensures old(algorithmLocked) ==> algorithm == old(algorithm) && scene.Shown() == old(scene.Shown())
      ensures !old(algorithmLocked) ==> algorithm == a && scene.Shown() == Cleared()
    {
      if algorithmLocked {
        return;
      }
      algorithm := a;
      scene.Clear();
      origin := currentStep;
    }

    /**
      The common part of the timer callback and the step-forward button:
      `executeStep` on the next step, then `currentStep++`.
     */
    method Advance()
      requires Valid() && currentStep < totalSteps
      modifies this`currentStep, scene
      ensures Valid()
      ensures currentStep == old(currentStep) + 1
      ensures scene.View() == Apply(scene.edges, old(scene.View()), steps[currentStep - 1])
      ensures scene.Highlighted() == HighlightsOf(steps[currentStep - 1])
      ensures scene.Shows(steps[currentStep - 1].snap)
      ensures steps[currentStep - 1].snap.PrimSnap? ==>
        scene.disjointSets == old(scene.disjointSets) && scene.sortedEdges == old(scene.sortedEdges)
      ensures steps[currentStep - 1].snap.KruskalSnap? ==>
        scene.priorityQueue == old(scene.priorityQueue) && scene.visitedNodes == old(scene.visitedNodes)
      ensures old(Synced()) ==> Synced()
    {
      scene.ExecuteStep(steps[currentStep]);
      ReplayStep(scene.edges, steps, currentStep);
      ReplayStepFrom(scene.edges, steps, origin, currentStep);
      currentStep := currentStep + 1;
    }

    /**
      The timer callback `animateStep()`: executes the next step, or, past
      the last one, stops the timer and the run and releases the lock.
     */
    method AnimateStep()
      requires Valid()
      modifies this`currentStep, this`timerArmed, this`isRunning, this`algorithmLocked, scene
      ensures Valid()
      ensures old(currentStep < totalSteps) ==>
        && currentStep == old(currentStep) + 1
        && isRunning == old(isRunning) && timerArmed == old(timerArmed) && algorithmLocked == old(algorithmLocked)
        && scene.View() == Apply(scene.edges, old(scene.View()), steps[currentStep - 1])
        && scene.Highlighted() == HighlightsOf(steps[currentStep - 1])
        && scene.Shows(steps[currentStep - 1].snap)
        && (steps[currentStep - 1].snap.PrimSnap? ==>
              scene.disjointSets == old(scene.disjointSets) && scene.sortedEdges == old(scene.sortedEdges))
        && (steps[currentStep - 1].snap.KruskalSnap? ==>
              scene.priorityQueue == old(scene.priorityQueue) && scene.visitedNodes == old(scene.visitedNodes))
        && (old(Synced()) ==> Synced())
      ensures !old(currentStep < totalSteps) ==>
        && currentStep == old(currentStep)
        && !isRunning && !timerArmed && !algorithmLocked
        && scene.Shown() == old(scene.Shown())
    {
      if currentStep < totalSteps {
        Advance();
      } else {
        timerArmed := false;
        isRunning := false;
        algorithmLocked := false;
      }
    }

    /**
      The step-forward button: before the end, stops the run and the timer
      and executes the next step. The lock is not touched, so stepping to
      the end keeps the algorithm choice locked.
     */
    method StepForward()
      requires Valid()
      modifies this`currentStep, this`timerArmed, this`isRunning, scene
      ensures Valid()
      ensures !old(currentStep < totalSteps) ==>
        currentStep == old(currentStep) && isRunning == old(isRunning) && timerArmed == old(timerArmed) && scene.Shown() == old(scene.Shown())
      ensures old(currentStep < totalSteps) ==>
        && currentStep == old(currentStep) + 1
        && !isRunning && !timerArmed
        && scene.View() == Apply(scene.edges, old(scene.View()), steps[currentStep - 1])
        && scene.Highlighted() == HighlightsOf(steps[currentStep - 1])
        && scene.Shows(steps[currentStep - 1].snap)
        && (steps[currentStep - 1].snap.PrimSnap? ==>
              scene.disjointSets == old(scene.disjointSets) && scene.sortedEdges == old(scene.sortedEdges))
        && (steps[currentStep - 1].snap.KruskalSnap? ==>
              scene.priorityQueue == old(scene.priorityQueue) && scene.visitedNodes == old(scene.visitedNodes))
        && (old(Synced()) ==> Synced())
    {
      if currentStep < totalSteps {
        if timerArmed {
          timerArmed := false;
        }
        isRunning := false;
        Advance();
      }
    }

    /**
      The step-backward button: after the start, stops the run and the
      timer, moves back one step and rebuilds the scene for the new
      position.
     */
    method StepBackward()
      requires Valid()
      modifies this`currentStep, this`timerArmed, this`isRunning, this`origin, scene
      ensures Valid()
      ensures old(currentStep) == 0 ==>
        currentStep == 0 && isRunning == old(isRunning) && timerArmed == old(timerArmed) && scene.Shown() == old(scene.Shown())
      ensures old(currentStep) > 0 ==>
        && currentStep == old(currentStep) - 1
        && !isRunning && !timerArmed
        && Synced()
        && scene.Highlighted() == (None, [], [], [])
        && (currentStep == 0 ==> scene.Panels() == ([], [], [], None))
        && (currentStep > 0 && steps[currentStep - 1].snap.PrimSnap? ==>
              scene.disjointSets == old(scene.disjointSets) && scene.sortedEdges == old(scene.sortedEdges))
        && (currentStep > 0 && steps[currentStep - 1].snap.KruskalSnap? ==>
              scene.priorityQueue == old(scene.priorityQueue) && scene.visitedNodes == old(scene.visitedNodes))
    {
      if currentStep > 0 {
        if timerArmed {
          timerArmed := false;
        }
        isRunning := false;
        currentStep := currentStep - 1;
        scene.Rebuild(steps, currentStep);
        origin := 0;
        assert steps[0..currentStep] == steps[..currentStep];
      }
    }

    /**
      The pause/resume button: pauses a run, or resumes one when steps
      remain, arming the timer at the current speed's period.
     */
    method PauseResume()
      requires Valid()
      modifies this`isRunning, this`timerArmed, this`timerDelay
      ensures Valid()
      ensures old(isRunning) ==> !isRunning && !timerArmed
      ensures !old(isRunning) ==> (isRunning <==> currentStep < totalSteps)
    {
      if isRunning {
        timerArmed := false;
        isRunning := false;
      } else {
        if currentStep < totalSteps {
          isRunning := true;
          timerArmed := true;
          timerDelay := AnimationDelay(speed);
        }
      }
    }

    /**
      The speed slider: sets the speed and, during a run, re-arms the timer
      at the new period.
     */
    method ChangeSpeed(value: int)
      requires Valid()
      modifies this`speed, this`timerDelay
      ensures Valid()
      ensures speed == value
      ensures timerArmed ==> timerDelay == AnimationDelay(value)
    {
      speed := value;
      if isRunning && timerArmed {
        timerDelay := AnimationDelay(speed);
      }
    }
  }

  /**
    The replay loop of `stepBackward`: executes the `addEdge` and
    `considerEdge` steps among the first `count` steps on a cleared graph
    and returns `graph.mstEdges`, the `isInMST` flags and `processedEdges`
    it leaves.
   */
  method ReplaySteps(edges: seq<Edge>, steps: seq<Step>, count: nat) returns (mst: seq<Edge>, marked: set<nat>, processed: set<(nat, nat)>)
    requires count <= |steps|
    ensures MstView(mst, marked, processed) == Replay(edges, steps[..count])
  {
    mst, marked, processed := [], {}, {};
    var i := 0;
    while i < count
      invariant i <= count
      invariant MstView(mst, marked, processed) == Replay(edges, steps[..i])
    {
      var step := steps[i];
      if step.AddEdge? {
        var found := IndexOfPair(edges, step.edge);
        if found.Some? {
          var k := found.value;
          marked := marked + {k};
          mst := mst + [edges[k]];
          processed := processed + {Key(edges[k])};
        }
      } else if step.ConsiderEdge? {
        processed := processed + {Key(step.edge)};
      }
      ReplayStep(edges, steps, i);
      i := i + 1;
    }
  }

  /**
    In every state the handlers keep, whether or not the graph is in step
    with the trace: `mstEdges` holds the edges the steps executed since the
    last clear added, in order — graph edges, none twice, never a cycle —
    each marked `isInMST` exactly when listed, and the processed keys are
    those of the edges considered or added since then.
   */
  lemma SceneMst(v: Visualizer)
    requires v.Valid()
    ensures v.scene.mstEdges == AddedEdges(v.steps[v.origin..v.currentStep])
    ensures forall e :: e in v.scene.mstEdges ==> e in v.scene.edges
    ensures NoDup(v.scene.mstEdges) && Acyclic(v.scene.mstEdges)
    ensures forall k :: k in v.scene.inMst <==> 0 <= k < |v.scene.edges| && v.scene.edges[k] in v.scene.mstEdges
    ensures v.scene.processedEdges == Keys(v.scene.mstEdges) + Keys(ConsideredEdges(v.steps[v.origin..v.currentStep]))
  {
    var o, c := v.origin, v.currentStep;
    var s := v.steps;
    var n, edges := v.scene.n, v.scene.edges;
    assert s == s[..o] + s[o..c] + s[c..];
    AddedEdgesAppend(s[..o], s[o..c]);
    AddedEdgesAppend(s[..o] + s[o..c], s[c..]);
    var before, shown := AddedEdges(s[..o]), AddedEdges(s[o..c]);
    assert AddedEdges(s)[|before|..][..|shown|] == shown;
    ReplayShowsAdded(n, edges, s[o..c]);
    ReplayMarksAdded(n, edges, s[o..c]);
    ReplayProcessesSeen(n, edges, s[o..c]);
    AcyclicSuffix(AddedEdges(s), |before|);
    AcyclicPrefix(AddedEdges(s)[|before|..], |shown|);
    AcyclicNoDup(shown);
  }

  /**
    Whenever the graph is in step with the trace, it shows the edges the
    steps so far added, in order: graph edges, never a cycle, each marked
    `isInMST` exactly when shown, and the processed keys are those of the
    edges considered or added so far.
   */
  lemma ShownMst(v: Visualizer)
    requires v.Valid() && v.Synced()
    ensures v.scene.mstEdges == AddedEdges(v.steps[..v.currentStep])
    ensures forall e :: e in v.scene.mstEdges ==> e in v.scene.edges
    ensures Acyclic(v.scene.mstEdges)
    ensures forall k :: k in v.scene.inMst <==> 0 <= k < |v.scene.edges| && v.scene.edges[k] in v.scene.mstEdges
    ensures v.scene.processedEdges == Keys(v.scene.mstEdges) + Keys(ConsideredEdges(v.steps[..v.currentStep]))
  {
    var c := v.currentStep;
    var s := v.steps;
    var n, edges := v.scene.n, v.scene.edges;
    assert s == s[..c] + s[c..];
    AddedEdgesAppend(s[..c], s[c..]);
    var shown := AddedEdges(s[..c]);
    assert AddedEdges(s)[..|shown|] == shown;
    ReplayShowsAdded(n, edges, s[..c]);
    ReplayMarksAdded(n, edges, s[..c]);
    ReplayProcessesSeen(n, edges, s[..c]);
    AcyclicPrefix(AddedEdges(s), |shown|);
  }
}
