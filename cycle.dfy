/**
  `findActualCycle`: the breadth-first search Prim's generator runs, for an
  edge it rejects, over the edges currently marked as MST edges, to show the
  cycle the rejected edge would close.
 */
module CycleSearch {
  import opened Wrappers
  import opened Graph

  /**
    What a reported cycle is: nothing when an endpoint is unvisited; otherwise
    either nothing or the queried edge followed by a non-empty walk along
    `mstEdges` from its `from` end back to its `to` end, with the nodes of that
    cycle listed once each in first-seen order.
   */
  ghost predicate CycleReport(edge: Edge, visited: seq<nat>, mstEdges: seq<Edge>, cycleEdges: seq<Edge>, cycleNodes: seq<nat>)
  {
    && (edge.from !in visited || edge.to !in visited ==> cycleEdges == [] && cycleNodes == [])
    && (cycleEdges == [] <==> cycleNodes == [])
    && (cycleEdges != [] ==>
          && |cycleEdges| >= 2
          && cycleEdges[0] == edge
          && Within(cycleEdges[1..], mstEdges)
          && Walk(edge.from, cycleEdges[1..]) == Some(edge.to)
          && cycleNodes == Dedup([edge.from, edge.to] + Endpoints(cycleEdges[1..])))
  }

  /** With no MST edges there is no cycle to report. */
  lemma NoMstNoCycle(edge: Edge, visited: seq<nat>, cycleEdges: seq<Edge>, cycleNodes: seq<nat>)
    requires CycleReport(edge, visited, [], cycleEdges, cycleNodes)
    ensures cycleEdges == [] && cycleNodes == []
  {
  }

  /** Every queued node is reached from `start` by the walk queued with it. */
  ghost predicate Frontier(start: nat, mstEdges: seq<Edge>, queue: seq<(nat, seq<Edge>)>, seen: set<nat>)
  {
    forall k :: 0 <= k < |queue| ==>
      && queue[k].0 in seen
      && Within(queue[k].1, mstEdges)
      && Walk(start, queue[k].1) == Some(queue[k].0)
  }

  /** The nodes the search can ever mark as seen. */
  ghost function Reachable(start: nat, mstEdges: seq<Edge>): set<nat>
  {
    set x | x in [start] + Endpoints(mstEdges)
  }

  lemma EndpointsReachable(start: nat, mstEdges: seq<Edge>, j: nat)
    requires j < |mstEdges|
    ensures mstEdges[j].from in Reachable(start, mstEdges) && mstEdges[j].to in Reachable(start, mstEdges)
  {
    assert ([start] + Endpoints(mstEdges))[2 * j + 1] == mstEdges[j].from;
    assert ([start] + Endpoints(mstEdges))[2 * j + 2] == mstEdges[j].to;
  }

  /** Extending a walk that ends at `current` by an MST edge at `current` reaches its other end `x`. */
  lemma WalkStep(start: nat, path: seq<Edge>, mstEdges: seq<Edge>, current: nat, m: Edge, x: nat)
    requires Within(path, mstEdges) && Walk(start, path) == Some(current) && m in mstEdges
    requires (m.from == current && m.to == x) || (m.to == current && m.from == x)
    ensures Within(path + [m], mstEdges) && Walk(start, path + [m]) == Some(x)
  {
    assert (path + [m])[..|path + [m]| - 1] == path;
  }

  /** Marking a new candidate as seen and enqueueing it with its walk keeps the frontier. */
  lemma FrontierPush(start: nat, mstEdges: seq<Edge>, queue: seq<(nat, seq<Edge>)>, seen: set<nat>,
                     reach: set<nat>, x: nat, path: seq<Edge>)
    requires Frontier(start, mstEdges, queue, seen) && Within(path, mstEdges) && Walk(start, path) == Some(x)
    requires seen <= reach && x in reach && x !in seen
    ensures Frontier(start, mstEdges, queue + [(x, path)], seen + {x})
    ensures seen + {x} <= reach
  {
  }

  /** The nodes of the queue entries. */
  ghost function Nodes(queue: seq<(nat, seq<Edge>)>): set<nat>
  {
    set q | q in queue :: q.0
  }

  lemma NodesAppend(queue: seq<(nat, seq<Edge>)>, q: (nat, seq<Edge>))
    ensures Nodes(queue + [q]) == Nodes(queue) + {q.0}
  {
    assert forall r :: r in queue + [q] <==> r in queue || r == q;
  }

  lemma NodesSingle(q: (nat, seq<Edge>))
    ensures Nodes([q]) == {q.0} && Nodes([]) == {}
  {
    assert forall r :: r in [q] <==> r == q;
  }

  lemma NodesShift(queue: seq<(nat, seq<Edge>)>)
    requires |queue| > 0
    ensures Nodes(queue) == {queue[0].0} + Nodes(queue[1..])
  {
    assert forall r :: r in queue <==> r == queue[0] || r in queue[1..];
  }

  lemma NodesEmpty(queue: seq<(nat, seq<Edge>)>)
    ensures Nodes(queue) == {} ==> queue == []
  {
    if queue != [] {
      assert queue[0].0 in Nodes(queue);
    }
  }

  /** Every MST edge at a node of `done` has both ends in `seen`: the nodes of `done` have been expanded. */
  ghost predicate Expanded(mstEdges: seq<Edge>, done: set<nat>, seen: set<nat>)
  {
    forall j :: 0 <= j < |mstEdges| && (mstEdges[j].from in done || mstEdges[j].to in done) ==>
      mstEdges[j].from in seen && mstEdges[j].to in seen
  }

  /** A walk from a seen node along MST edges, when every seen node has been expanded, never leaves the seen nodes. */
  lemma {:induction false} ClosedWalk(mstEdges: seq<Edge>, seen: set<nat>, a: nat, p: seq<Edge>, b: nat)
    requires Expanded(mstEdges, seen, seen) && a in seen
    requires Within(p, mstEdges) && Walk(a, p) == Some(b)
    ensures b in seen
    decreases |p|
  {
    if p != [] {
      var p', m := p[..|p| - 1], p[|p| - 1];
      var c := Walk(a, p').value;
      assert Within(p', mstEdges);
      ClosedWalk(mstEdges, seen, a, p', c);
      var j :| 0 <= j < |mstEdges| && mstEdges[j] == m;
      assert Cross(c, m) == Some(b);
    }
  }

  lemma NodesConcat(queue: seq<(nat, seq<Edge>)>, more: seq<(nat, seq<Edge>)>)
    ensures Nodes(queue + more) == Nodes(queue) + Nodes(more)
  {
    assert forall r :: r in queue + more <==> r in queue || r in more;
  }

  /** Every MST edge before index `j` that touches `current` has both ends in `seen`. */
  ghost predicate NeighboursSeen(mstEdges: seq<Edge>, current: nat, j: nat, seen: set<nat>)
  {
    forall i :: 0 <= i < j && i < |mstEdges| && (mstEdges[i].from == current || mstEdges[i].to == current) ==>
      mstEdges[i].from in seen && mstEdges[i].to in seen
  }

  lemma NeighboursGrow(mstEdges: seq<Edge>, current: nat, j: nat, seen0: set<nat>, seen: set<nat>)
    requires j < |mstEdges| && NeighboursSeen(mstEdges, current, j, seen0) && seen0 <= seen
    requires mstEdges[j].from == current || mstEdges[j].to == current ==> mstEdges[j].from in seen && mstEdges[j].to in seen
    ensures NeighboursSeen(mstEdges, current, j + 1, seen)
  {
  }

  /**
    One call of the `forEach` callback, for the MST edge `mstEdges[j]`: if it
    leaves `current` towards a node not yet seen, that node is marked seen
    and enqueued with the walk extended by the edge. Afterwards, when the
    edge touches `current`, both its ends are seen.
   */
  method VisitEdge(start: nat, current: nat, path: seq<Edge>, mstEdges: seq<Edge>, j: nat, ghost reach: set<nat>,
                   queue0: seq<(nat, seq<Edge>)>, seen0: set<nat>)
    returns (queue: seq<(nat, seq<Edge>)>, seen: set<nat>, ghost pushed: seq<(nat, seq<Edge>)>)
    requires Within(path, mstEdges) && Walk(start, path) == Some(current) && j < |mstEdges|
    requires reach == Reachable(start, mstEdges) && seen0 <= reach && current in seen0
    requires Frontier(start, mstEdges, queue0, seen0)
    ensures seen0 <= seen <= reach
    ensures Frontier(start, mstEdges, queue, seen)
    ensures queue == queue0 + pushed && Nodes(pushed) == seen - seen0
    ensures mstEdges[j].from == current || mstEdges[j].to == current ==> mstEdges[j].from in seen && mstEdges[j].to in seen
  {
    var m := mstEdges[j];
    EndpointsReachable(start, mstEdges, j);
    queue, seen, pushed := queue0, seen0, [];
    if m.from == current && m.to !in seen0 {
      WalkStep(start, path, mstEdges, current, m, m.to);
      FrontierPush(start, mstEdges, queue0, seen0, reach, m.to, path + [m]);
      NodesSingle((m.to, path + [m]));
      seen := seen0 + {m.to};
      queue := queue0 + [(m.to, path + [m])];
      pushed := [(m.to, path + [m])];
    } else if m.to == current && m.from !in seen0 {
      WalkStep(start, path, mstEdges, current, m, m.from);
      FrontierPush(start, mstEdges, queue0, seen0, reach, m.from, path + [m]);
      NodesSingle((m.from, path + [m]));
      seen := seen0 + {m.from};
      queue := queue0 + [(m.from, path + [m])];
      pushed := [(m.from, path + [m])];
    } else {
      NodesSingle((current, path));
    }
  }

  /**
    The `mstEdges.forEach` pass over the neighbours of `current`: it appends
    to the queue, in MST order, every neighbour not yet seen, marking each as
    seen, so that afterwards every MST edge at `current` has both ends seen.
    The number of unseen candidates falls by exactly as many entries as the
    queue gains.
   */
  method ExpandNeighbours(start: nat, current: nat, path: seq<Edge>, mstEdges: seq<Edge>,
                          queue0: seq<(nat, seq<Edge>)>, seen0: set<nat>)
    returns (queue: seq<(nat, seq<Edge>)>, seen: set<nat>)
    requires Within(path, mstEdges) && Walk(start, path) == Some(current)
    requires current in seen0 && seen0 <= Reachable(start, mstEdges)
    requires Frontier(start, mstEdges, queue0, seen0)
    ensures seen0 <= seen <= Reachable(start, mstEdges)
    ensures Frontier(start, mstEdges, queue, seen)
    ensures |queue0| <= |queue| && queue[..|queue0|] == queue0
    ensures Nodes(queue[|queue0|..]) == seen - seen0
    ensures Expanded(mstEdges, {current}, seen)
  {
    ghost var reach := Reachable(start, mstEdges);
    queue, seen := queue0, seen0;
    ghost var added: seq<(nat, seq<Edge>)> := [];
    assert Nodes([]) == {};
    var j := 0;
    while j < |mstEdges|
      invariant 0 <= j <= |mstEdges|
      invariant seen0 <= seen <= reach
      invariant Frontier(start, mstEdges, queue, seen)
      invariant queue == queue0 + added && Nodes(added) == seen - seen0
      invariant NeighboursSeen(mstEdges, current, j, seen)
    {
      ghost var seen1, added1 := seen, added;
      ghost var pushed;
      queue, seen, pushed := VisitEdge(start, current, path, mstEdges, j, reach, queue, seen);
      added := added + pushed;
      assert queue == queue0 + added;
      NodesConcat(added1, pushed);
      NeighboursGrow(mstEdges, current, j, seen1, seen);
      j := j + 1;
    }
    assert queue[..|queue0|] == queue0 && queue[|queue0|..] == added;
  }

  /**
    The breadth-first search loop of `findActualCycle`, from `start` along
    the MST edges, stopping at the first dequeued entry for `target` that
    carries a non-empty walk. It succeeds exactly when the two nodes are
    distinct and joined by MST edges, and then returns such a walk.
   */
  method SearchWalk(start: nat, target: nat, mstEdges: seq<Edge>) returns (found: bool, foundPath: seq<Edge>)
    ensures found ==> |foundPath| > 0 && Within(foundPath, mstEdges) && Walk(start, foundPath) == Some(target)
    ensures found <==> start != target && Connected(mstEdges, start, target)
  {
    var queue: seq<(nat, seq<Edge>)> := [(start, [])];
    var seen: set<nat> := {start};
    found, foundPath := false, [];
    ghost var reach := Reachable(start, mstEdges);
    ghost var done: set<nat> := {};
    assert start in reach by {
      assert ([start] + Endpoints(mstEdges))[0] == start;
    }
    assert Nodes(queue) == {start} by {
      NodesAppend([], (start, []));
    }
    while |queue| > 0 && !found
      invariant seen <= reach && start in seen
      invariant Frontier(start, mstEdges, queue, seen)
      invariant found ==> |foundPath| > 0 && Within(foundPath, mstEdges) && Walk(start, foundPath) == Some(target)
      invariant found ==> start != target
      invariant forall k :: 0 <= k < |queue| && queue[k].1 != [] ==> queue[k].0 != start
      invariant seen <= done + Nodes(queue)
      invariant Expanded(mstEdges, done, seen)
      invariant start != target ==> target !in done
      decreases reach - seen, |queue|
    {
      var current := queue[0].0;
      var path := queue[0].1;
      NodesShift(queue);
      queue := queue[1..];
      if current == target && |path| > 0 {
        foundPath := path;
        found := true;
        break;
      }
      ghost var rest, seenBefore := queue, seen;
      queue, seen := ExpandNeighbours(start, current, path, mstEdges, queue, seen);
      assert queue == rest + queue[|rest|..];
      NodesConcat(rest, queue[|rest|..]);
      NodesEmpty(queue[|rest|..]);
      done := done + {current};
    }
    if !found {
      forall p | Within(p, mstEdges) && Walk(start, p) == Some(target)
        ensures start == target
      {
        ClosedWalk(mstEdges, seen, start, p, target);
      }
    }
  }

  /**
    `findActualCycle(edge, visited)`: nothing unless both ends of `edge` are
    visited; otherwise the search from `edge.from` for `edge.to`, reported as
    the edge followed by the walk found. Besides the shape of its report, it
    finds a cycle exactly when both endpoints are visited, distinct, and
    joined by MST edges.
   */
  method FindActualCycle(edge: Edge, visited: seq<nat>, mstEdges: seq<Edge>) returns (cycleEdges: seq<Edge>, cycleNodes: seq<nat>)
    ensures CycleReport(edge, visited, mstEdges, cycleEdges, cycleNodes)
    ensures cycleEdges != [] <==>
      edge.from in visited && edge.to in visited && edge.from != edge.to && Connected(mstEdges, edge.from, edge.to)
  {
    if edge.from !in visited || edge.to !in visited {
      return [], [];
    }
    var found, foundPath := SearchWalk(edge.from, edge.to, mstEdges);
    if found {
      cycleEdges := [edge] + foundPath;
      assert cycleEdges[1..] == foundPath;
      cycleNodes := Dedup([edge.from, edge.to] + Endpoints(foundPath));
      assert edge.from in cycleNodes;
    } else {
      cycleEdges, cycleNodes := [], [];
    }
  }
}
