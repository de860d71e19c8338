/**
  The step records both generators emit and the playback engine consumes.
  The HTML `description` (and the pseudocode line) of a step are display text
  only and are not part of this model.
 */
module Trace {
  import opened Graph

  /** An entry `{edge, weight}` of Prim's priority queue. */
  datatype QueueItem = QueueItem(edge: Edge, weight: int)

  /**
    The algorithm-internal state a step carries for the side panels: Prim's
    queue and visited nodes, or Kruskal's remaining sorted edges and disjoint sets.
   */
  datatype Snapshot =
    | PrimSnap(queue: seq<QueueItem>, visited: seq<nat>)
    | KruskalSnap(sorted: seq<Edge>, sets: seq<seq<nat>>)

  datatype Step =
    | Message(snap: Snapshot)
    | ConsiderEdge(edge: Edge, snap: Snapshot)
    | AddEdge(edge: Edge, snap: Snapshot)
    | ShowInvalid(edge: Edge, invalidEdges: seq<Edge>, cycleEdges: seq<Edge>, cycleNodes: seq<nat>, snap: Snapshot)

  function ItemWeight(q: QueueItem): int
  {
    q.weight
  }

  function EdgeWeight(e: Edge): int
  {
    e.weight
  }

  /** The edges of the `addEdge` steps of `s`, in order: what playback puts in the MST. */
  function AddedEdges(s: seq<Step>): (r: seq<Edge>)
    ensures |r| <= |s|
    decreases |s|
  {
    if s == [] then []
    else AddedEdges(s[..|s| - 1]) + (if s[|s| - 1].AddEdge? then [s[|s| - 1].edge] else [])
  }

  /** The edges of the `considerEdge` steps of `s`, in order. */
  function ConsideredEdges(s: seq<Step>): (r: seq<Edge>)
    ensures |r| <= |s|
    decreases |s|
  {
    if s == [] then []
    else ConsideredEdges(s[..|s| - 1]) + (if s[|s| - 1].ConsiderEdge? then [s[|s| - 1].edge] else [])
  }

  lemma {:induction false} AddedEdgesAppend(s: seq<Step>, t: seq<Step>)
    ensures AddedEdges(s + t) == AddedEdges(s) + AddedEdges(t)
    decreases |t|
  {
    if t == [] {
      assert s + t == s;
    } else {
      assert (s + t)[..|s + t| - 1] == s + t[..|t| - 1];
      AddedEdgesAppend(s, t[..|t| - 1]);
    }
  }

  lemma {:induction false} ConsideredEdgesAppend(s: seq<Step>, t: seq<Step>)
    ensures ConsideredEdges(s + t) == ConsideredEdges(s) + ConsideredEdges(t)
    decreases |t|
  {
    if t == [] {
      assert s + t == s;
    } else {
      assert (s + t)[..|s + t| - 1] == s + t[..|t| - 1];
      ConsideredEdgesAppend(s, t[..|t| - 1]);
    }
  }

  /**
    A trace fits a graph when the graph is well formed and the edges the
    trace adds are graph edges, no one of them closing a cycle.
   */
  ghost predicate TraceFits(n: nat, edges: seq<Edge>, steps: seq<Step>)
  {
    && WellFormed(n, edges)
    && (forall e :: e in AddedEdges(steps) ==> e in edges)
    && Acyclic(AddedEdges(steps))
  }

  // Sequence bookkeeping for traces built by appending steps.

  lemma SplitAppend<T>(s: seq<T>, t: seq<T>, k: nat)
    requires 0 < k <= |s|
    ensures (s + t)[..k] == s[..k] && (s + t)[k - 1] == s[k - 1] && (s + t)[k..] == s[k..] + t
  {
  }

  lemma AppendTwo<T>(s: seq<T>, a: T, b: T)
    ensures var t := s + [a] + [b]; t == s + [a, b] && t[|s|..] == [a, b]
  {
    assert s + [a] + [b] == s + [a, b];
  }

  lemma AppendThree<T>(s: seq<T>, a: T, b: T, c: T)
    ensures var t := s + [a] + [b] + [c]; t == s + [a, b, c] && t[|s|..] == [a, b, c]
  {
    assert s + [a] + [b] + [c] == s + [a, b, c];
  }

  lemma TailAppend<T>(s: seq<T>, t: seq<T>)
    requires |s| >= 1
    ensures (s + t)[0] == s[0] && (s + t)[1..] == s[1..] + t
  {
  }
}
