/**
  The Visualize button: reset, generate the trace of the active algorithm
  on the current graph, and start running it.
 */
module Visualize {
  import opened Wrappers
  import opened Graph
  import opened Trace
  import opened Playback
  import Prim
  import Kruskal

  /**
    What the trace generators promise, as `startVisualization` dispatches
    to them on a graph with at least one node: Prim's trace opens with its
    initial queue, is a complete run of its loop that grows a spanning tree
    from node 0 over exactly the nodes connected to node 0, keeps every
    snapshot consistent and considers no edge twice; Kruskal's returns the edge list stably sorted by weight, which it
    leaves in `animationState.sortedEdges`, and its trace scans that list in
    order, adding only graph edges and stopping with a spanning forest or
    `n - 1` edges.
   */
  ghost predicate Generated(algorithm: Algorithm, n: nat, edges: seq<Edge>, mstEdges: seq<Edge>, steps: seq<Step>, sorted: Option<seq<Edge>>)
  {
    match algorithm
    case AlgoPrim =>
      Prim.PrimOutcome(n, edges, mstEdges, steps) && sorted == None
    case AlgoKruskal =>
      sorted.Some? && Kruskal.KruskalOutcome(n, edges, mstEdges, steps, sorted.value)
  }

  /** The trace generator of the active algorithm; either trace fits the graph. */
  method Generate(algorithm: Algorithm, n: nat, edges: seq<Edge>, mstEdges: seq<Edge>) returns (steps: seq<Step>, sorted: Option<seq<Edge>>)
    requires WellFormed(n, edges) && (algorithm == AlgoPrim ==> n > 0)
    requires forall f :: f in mstEdges ==> f.from < n
    ensures TraceFits(n, edges, steps)
    ensures Generated(algorithm, n, edges, mstEdges, steps, sorted)
  {
    if algorithm == AlgoPrim {
      steps := Prim.PrimsAlgorithm(n, edges, mstEdges);
      sorted := None;
    } else {
      var s;
      steps, s := Kruskal.KruskalsAlgorithm(n, edges, mstEdges);
      sorted := Some(s);
    }
  }

  /**
    `startVisualization()`: resets, generates the trace of the active
    algorithm on the current graph, and, when the trace is not empty,
    starts running, locks the algorithm choice and arms the timer at the
    current speed's period. Kruskal's generator also fills the sorted-edge
    panel. Prim's generator cannot start on a graph without nodes (it
    reads node 0), so the reset state is then left as it is.
   */
  method StartVisualization(v: Visualizer)
    requires v.Valid()
    modifies v, v.scene
    ensures v.Valid() && v.Synced()
    ensures v.currentStep == 0 && v.algorithm == old(v.algorithm) && v.speed == old(v.speed)
    ensures v.isRunning == v.algorithmLocked == v.timerArmed == (|v.steps| > 0)
    ensures v.scene.Shown().(sortedEdges := None) == Cleared()
    ensures v.algorithm == AlgoPrim && v.scene.n == 0 ==> v.steps == [] && v.scene.sortedEdges == None
    ensures v.algorithm == AlgoKruskal || v.scene.n > 0 ==>
      Generated(v.algorithm, v.scene.n, v.scene.edges, [], v.steps, v.scene.sortedEdges)
  {
    v.ResetAnimation();
    if v.algorithm == AlgoPrim && v.scene.n == 0 {
      return;
    }
    var algorithm, n, edges := v.algorithm, v.scene.n, v.scene.edges;
    var generated, sorted := Generate(algorithm, n, edges, v.scene.mstEdges);
    assert Generated(algorithm, n, edges, [], generated, sorted);
    if algorithm == AlgoKruskal {
      v.scene.ShowSorted(sorted);
    }
    v.Load(generated);
  }
}
