/**
  `primsAlgorithm`: grows the visited set from node 0, keeps a priority list
  of `{edge, weight}` entries re-sorted (stably) by weight after every reseed,
  takes the front entry with `shift()`, and records every decision as steps
  carrying a snapshot of the queue and of the visited set.
 */
module Prim {
  import opened Wrappers
  import opened Graph
  import opened Counting
  import opened StableSort
  import opened Trace
  import opened CycleSearch

  /** The edges touching `v`, in graph order: how the queue is first seeded. */
  function Incident(edges: seq<Edge>, v: nat): (r: seq<Edge>)
    ensures forall e :: e in r <==> e in edges && Touches(e, v)
    ensures NoDup(edges) ==> NoDup(r)
    decreases |edges|
  {
    if edges == [] then []
    else
      assert edges == [edges[0]] + edges[1..];
      (if Touches(edges[0], v) then [edges[0]] else []) + Incident(edges[1..], v)
  }

  /** `e` leaves the newly visited node `w` towards a node outside `visited`. */
  predicate Leads(e: Edge, w: nat, visited: seq<nat>)
  {
    (e.from == w && e.to !in visited) || (e.to == w && e.from !in visited)
  }

  /** The edges, in graph order, pushed when `w` joins the visited set (`visited` already holds it). */
  function Reseed(edges: seq<Edge>, w: nat, visited: seq<nat>): (r: seq<Edge>)
    ensures forall e :: e in r <==> e in edges && Leads(e, w, visited)
    ensures NoDup(edges) ==> NoDup(r)
    decreases |edges|
  {
    if edges == [] then []
    else
      assert edges == [edges[0]] + edges[1..];
      (if Leads(edges[0], w, visited) then [edges[0]] else []) + Reseed(edges[1..], w, visited)
  }

  /** The `{edge, weight}` entries pushed for `es`. */
  function Items(es: seq<Edge>): (r: seq<QueueItem>)
    ensures |r| == |es|
    ensures forall i :: 0 <= i < |es| ==> r[i] == QueueItem(es[i], es[i].weight)
    ensures NoDup(es) ==> NoDup(r)
  {
    seq(|es|, i requires 0 <= i < |es| => QueueItem(es[i], es[i].weight))
  }

  predicate ExactlyOneVisited(e: Edge, visited: seq<nat>)
  {
    (e.from in visited && e.to !in visited) || (e.from !in visited && e.to in visited)
  }

  /** The snapshot of the opening message: queue seeded from node 0, visited = {0}. */
  function InitialSnap(edges: seq<Edge>): Snapshot
  {
    PrimSnap(SortByKey(Items(Incident(edges, 0)), ItemWeight), [0])
  }

  /** Queue and visited set once `w` has joined: reseeded from `w`, then re-sorted. */
  function Grown(edges: seq<Edge>, queue: seq<QueueItem>, visited: seq<nat>, w: nat): Snapshot
  {
    PrimSnap(SortByKey(queue + Items(Reseed(edges, w, visited + [w])), ItemWeight), visited + [w])
  }

  /** The loop guard: fewer nodes visited than exist, and a non-empty queue. */
  predicate Continues(n: nat, s: Snapshot)
  {
    s.PrimSnap? && |s.visited| < n && |s.queue| > 0
  }

  function BlockLen(s: Snapshot): nat
    requires s.PrimSnap? && |s.queue| > 0
  {
    if ExactlyOneVisited(s.queue[0].edge, s.visited) then 3 else 2
  }

  /**
    One loop iteration, from the state `before` to the state `after`: the
    front entry `e` is taken off the queue; if exactly one endpoint is visited
    the iteration emits considerEdge, addEdge (both showing the state before
    the new node joins) and a message with the reseeded queue; otherwise it
    emits considerEdge and showInvalid with `invalidEdges = [e]`, the cycle
    explanation, and an unchanged visited set.
   */
  ghost predicate PrimBlock(n: nat, edges: seq<Edge>, mstEdges: seq<Edge>, before: Snapshot, blk: seq<Step>, after: Snapshot)
  {
    && Continues(n, before)
    && var e, q, v := before.queue[0].edge, before.queue[1..], before.visited;
       if ExactlyOneVisited(e, v) then
         var w := if e.from in v then e.to else e.from;
         && after == Grown(edges, q, v, w)
         && blk == [ConsiderEdge(e, PrimSnap(q, v)), AddEdge(e, PrimSnap(q, v)), Message(after)]
       else
         && after == PrimSnap(q, v)
         && |blk| == 2
         && blk[0] == ConsiderEdge(e, after)
         && blk[1].ShowInvalid?
         && blk[1] == ShowInvalid(e, [e], blk[1].cycleEdges, blk[1].cycleNodes, after)
         && CycleReport(e, v, mstEdges, blk[1].cycleEdges, blk[1].cycleNodes)
  }

  /** `s` is a sequence of loop iterations leading from state `before` to state `after`. */
  ghost predicate PrimRun(n: nat, edges: seq<Edge>, mstEdges: seq<Edge>, before: Snapshot, s: seq<Step>, after: Snapshot)
    decreases |s|
  {
    if s == [] then before == after
    else
      && Continues(n, before)
      && var len := BlockLen(before);
         && |s| >= len
         && PrimBlock(n, edges, mstEdges, before, s[..len], s[len - 1].snap)
         && PrimRun(n, edges, mstEdges, s[len - 1].snap, s[len..], after)
  }

  /** The length of an iteration block and the state its last step shows. */
  lemma BlockShape(n: nat, edges: seq<Edge>, mstEdges: seq<Edge>, b: Snapshot, blk: seq<Step>, c: Snapshot)
    requires PrimBlock(n, edges, mstEdges, b, blk, c)
    ensures Continues(n, b) && |blk| == BlockLen(b) && blk[|blk| - 1].snap == c
  {
  }

  /** A single iteration block is a run. */
  lemma BlockRun(n: nat, edges: seq<Edge>, mstEdges: seq<Edge>, b: Snapshot, blk: seq<Step>, c: Snapshot)
    requires PrimBlock(n, edges, mstEdges, b, blk, c)
    ensures PrimRun(n, edges, mstEdges, b, blk, c)
  {
    BlockShape(n, edges, mstEdges, b, blk, c);
    assert blk[..|blk|] == blk && blk[|blk|..] == [];
  }

  lemma {:induction false} PrimRunExtend(n: nat, edges: seq<Edge>, mstEdges: seq<Edge>, a: Snapshot, s: seq<Step>, b: Snapshot, blk: seq<Step>, c: Snapshot)
    requires PrimRun(n, edges, mstEdges, a, s, b) && PrimBlock(n, edges, mstEdges, b, blk, c)
    ensures PrimRun(n, edges, mstEdges, a, s + blk, c)
    decreases |s|
  {
    if s == [] {
      BlockRun(n, edges, mstEdges, b, blk, c);
      assert s + blk == blk;
    } else {
      var len := BlockLen(a);
      var mid := s[len - 1].snap;
      PrimRunExtend(n, edges, mstEdges, mid, s[len..], b, blk, c);
      SplitAppend(s, blk, len);
    }
  }

  /** Appending one more iteration to a whole trace (whose first step is the opening message). */
  lemma {:induction false} TraceExtend(n: nat, edges: seq<Edge>, mstEdges: seq<Edge>, steps: seq<Step>, b: Snapshot, blk: seq<Step>, c: Snapshot)
    requires |steps| >= 1
    requires PrimRun(n, edges, mstEdges, steps[0].snap, steps[1..], b) && PrimBlock(n, edges, mstEdges, b, blk, c)
    ensures PrimRun(n, edges, mstEdges, (steps + blk)[0].snap, (steps + blk)[1..], c)
  {
    PrimRunExtend(n, edges, mstEdges, steps[0].snap, steps[1..], b, blk, c);
    TailAppend(steps, blk);
  }


  /**
    The added edges form a spanning tree of the reached nodes: node 0 first,
    no node twice, one edge fewer than nodes, every edge inside the reached
    set, no edge closing a cycle, and every reached node connected to 0.
   */
  ghost predicate PrimTree(n: nat, edges: seq<Edge>, added: seq<Edge>, reached: seq<nat>)
  {
    && |reached| >= 1 && reached[0] == 0 && NoDup(reached) && |reached| <= n
    && (forall x :: x in reached ==> x < n)
    && |added| == |reached| - 1
    && (forall e :: e in added ==> e in edges && e.from in reached && e.to in reached)
    && Acyclic(added)
    && (forall x :: x in reached ==> Connected(added, 0, x))
  }

  /** A queue entry holds a graph edge with that edge's weight, and the edge touches the visited set. */
  ghost predicate ItemOk(edges: seq<Edge>, it: QueueItem, visited: seq<nat>)
  {
    it.weight == it.edge.weight && it.edge in edges && (it.edge.from in visited || it.edge.to in visited)
  }

  /** The queue is sorted, holds no entry twice, and only holds graph edges touching the visited set. */
  ghost predicate QueueOk(edges: seq<Edge>, queue: seq<QueueItem>, visited: seq<nat>)
  {
    && SortedBy(queue, ItemWeight)
    && NoDup(queue)
    && (forall it :: it in queue ==> ItemOk(edges, it, visited))
  }

  /** No edge considered twice, and none still queued after being considered. */
  ghost predicate ConsideredOk(considered: seq<Edge>, queue: seq<QueueItem>, visited: seq<nat>)
  {
    && NoDup(considered)
    && (forall e :: e in considered ==> e.from in visited || e.to in visited)
    && (forall it :: it in queue ==> it.edge !in considered)
  }

  /** Every snapshot shows a sorted queue; every rejected edge has both endpoints visited. */
  ghost predicate SnapshotsOk(steps: seq<Step>)
  {
    forall i :: 0 <= i < |steps| ==>
      && steps[i].snap.PrimSnap?
      && SortedBy(steps[i].snap.queue, ItemWeight)
      && (steps[i].ShowInvalid? ==> steps[i].edge.from in steps[i].snap.visited && steps[i].edge.to in steps[i].snap.visited)
  }

  /** Every graph edge with exactly one visited endpoint is still queued. */
  ghost predicate CutQueued(edges: seq<Edge>, queue: seq<QueueItem>, visited: seq<nat>)
  {
    forall e :: e in edges && ExactlyOneVisited(e, visited) ==> QueueItem(e, e.weight) in queue
  }

  ghost predicate PrimInv(n: nat, edges: seq<Edge>, mstEdges: seq<Edge>, steps: seq<Step>, queue: seq<QueueItem>, visited: seq<nat>)
  {
    && WellFormed(n, edges)
    && |steps| >= 1 && steps[0] == Message(InitialSnap(edges))
    && steps[|steps| - 1].snap == PrimSnap(queue, visited)
    && PrimTree(n, edges, AddedEdges(steps), visited)
    && QueueOk(edges, queue, visited)
    && ConsideredOk(ConsideredEdges(steps), queue, visited)
    && CutQueued(edges, queue, visited)
    && SnapshotsOk(steps)
  }

  /** The loop invariant of `primsAlgorithm()`: the state invariant, and the trace so far is a run ending in the current state. */
  ghost predicate PrimLoop(n: nat, edges: seq<Edge>, mstEdges: seq<Edge>, steps: seq<Step>, queue: seq<QueueItem>, visited: seq<nat>)
  {
    && PrimInv(n, edges, mstEdges, steps, queue, visited)
    && PrimRun(n, edges, mstEdges, steps[0].snap, steps[1..], PrimSnap(queue, visited))
  }

  lemma WellFormedNoDup(n: nat, edges: seq<Edge>)
    requires WellFormed(n, edges)
    ensures NoDup(edges)
  {
    forall i, j | 0 <= i < j < |edges| ensures edges[i] != edges[j] {
      assert !SamePair(edges[i], edges[j]);
    }
  }

  lemma SortKeepsQueue(edges: seq<Edge>, q: seq<QueueItem>, visited: seq<nat>)
    requires NoDup(q) && forall it :: it in q ==> ItemOk(edges, it, visited)
    ensures QueueOk(edges, SortByKey(q, ItemWeight), visited)
    ensures forall it :: it in SortByKey(q, ItemWeight) ==> it in q
  {
    var r := SortByKey(q, ItemWeight);
    NoDupPermutation(q, r);
    forall it | it in r ensures it in q {
      assert it in multiset(r);
    }
  }

  lemma InitialQueue(n: nat, edges: seq<Edge>)
    requires WellFormed(n, edges)
    ensures QueueOk(edges, InitialSnap(edges).queue, [0])
  {
    WellFormedNoDup(n, edges);
    var es := Incident(edges, 0);
    var q := Items(es);
    forall it | it in q ensures ItemOk(edges, it, [0]) {
      var i :| 0 <= i < |q| && q[i] == it;
      assert es[i] in es;
    }
    SortKeepsQueue(edges, q, [0]);
  }

  lemma InitialInv(n: nat, edges: seq<Edge>, mstEdges: seq<Edge>, steps: seq<Step>, queue: seq<QueueItem>, visited: seq<nat>)
    requires 0 < n && WellFormed(n, edges)
    requires queue == InitialSnap(edges).queue && visited == [0] && steps == [Message(PrimSnap(queue, visited))]
    ensures PrimLoop(n, edges, mstEdges, steps, queue, visited)
  {
    OpeningEdges(steps);
    InitialQueue(n, edges);
    InitialCut(edges);
    InitialTree(n, edges);
    assert steps[1..] == [];
  }

  /** Every edge leaving node 0 is in the initial queue. */
  lemma InitialCut(edges: seq<Edge>)
    ensures CutQueued(edges, InitialSnap(edges).queue, [0])
  {
    var es := Incident(edges, 0);
    var q := Items(es);
    forall e | e in edges && ExactlyOneVisited(e, [0]) ensures QueueItem(e, e.weight) in InitialSnap(edges).queue {
      assert e in es;
      var i :| 0 <= i < |es| && es[i] == e;
      assert q[i] == QueueItem(e, e.weight);
      assert QueueItem(e, e.weight) in multiset(q);
    }
  }

  /** Rejecting the front entry, whose endpoints are both visited, leaves every cut edge queued. */
  lemma RejectCut(edges: seq<Edge>, queue: seq<QueueItem>, visited: seq<nat>)
    requires CutQueued(edges, queue, visited) && |queue| > 0 && !ExactlyOneVisited(queue[0].edge, visited)
    ensures CutQueued(edges, queue[1..], visited)
  {
    forall e | e in edges && ExactlyOneVisited(e, visited) ensures QueueItem(e, e.weight) in queue[1..] {
      var i :| 0 <= i < |queue| && queue[i] == QueueItem(e, e.weight);
      assert queue[1..][i - 1] == queue[i];
    }
  }

  /**
    When `w` joins over the front entry, every edge leaving the larger visited
    set is queued: either it was queued before and is not the front entry,
    or it leaves `w` and is reseeded.
   */
  lemma AddCut(edges: seq<Edge>, queue: seq<QueueItem>, visited: seq<nat>, w: nat)
    requires CutQueued(edges, queue, visited) && |queue| > 0 && w !in visited && Touches(queue[0].edge, w)
    ensures CutQueued(edges, Grown(edges, queue[1..], visited, w).queue, visited + [w])
  {
    var v', q := visited + [w], queue[1..];
    var es := Reseed(edges, w, v');
    var pushed := Items(es);
    forall e | e in edges && ExactlyOneVisited(e, v') ensures QueueItem(e, e.weight) in Grown(edges, q, visited, w).queue {
      if Touches(e, w) {
        assert Leads(e, w, v');
        var i :| 0 <= i < |es| && es[i] == e;
        assert pushed[i] == QueueItem(e, e.weight);
        assert (q + pushed)[|q| + i] == pushed[i];
      } else {
        assert ExactlyOneVisited(e, visited);
        var i :| 0 <= i < |queue| && queue[i] == QueueItem(e, e.weight);
        assert (q + pushed)[i - 1] == queue[i];
      }
      assert QueueItem(e, e.weight) in multiset(q + pushed);
    }
  }

  lemma OpeningEdges(steps: seq<Step>)
    requires |steps| == 1 && steps[0].Message?
    ensures AddedEdges(steps) == [] && ConsideredEdges(steps) == []
  {
    assert steps[..0] == [];
  }

  lemma InitialTree(n: nat, edges: seq<Edge>)
    requires 0 < n
    ensures PrimTree(n, edges, [], [0])
  {
    ConnectedRefl([], 0);
  }

  /** An edge with exactly one endpoint in a set that no tree edge leaves joins two unconnected nodes. */
  lemma CrossingNotConnected(n: nat, added: seq<Edge>, reached: seq<nat>, e: Edge)
    requires forall x :: x in reached ==> x < n
    requires forall f :: f in added ==> f.from in reached && f.to in reached
    requires e.from < n && e.to < n
    requires (e.from in reached) != (e.to in reached)
    ensures !Connected(added, e.from, e.to)
  {
    var tag := seq(n, x => x in reached);
    if Connected(added, e.from, e.to) {
      ConnectedKeepsLabel(added, tag, e.from, e.to);
    }
  }

  /** Node `w` reached over edge `e` from the tree node `u`: all reached nodes stay connected to 0. */
  lemma ReachGrows(added: seq<Edge>, reached: seq<nat>, e: Edge, u: nat, w: nat)
    requires forall x :: x in reached ==> Connected(added, 0, x)
    requires u in reached && ((e.from == u && e.to == w) || (e.to == u && e.from == w))
    ensures forall x :: x in reached + [w] ==> Connected(added + [e], 0, x)
  {
    var added' := added + [e];
    forall x | x in reached + [w] ensures Connected(added', 0, x) {
      ConnectedMono(added, added', 0, u);
      if x == w {
        ConnectedByEdge(added', e);
        ConnectedTrans(added', 0, u, w);
      } else {
        ConnectedMono(added, added', 0, x);
      }
    }
  }

  /** Node `w` joins over edge `e` from the tree: the tree stays a spanning tree of the larger set. */
  lemma TreeGrows(n: nat, edges: seq<Edge>, added: seq<Edge>, reached: seq<nat>, e: Edge, w: nat)
    requires WellFormed(n, edges) && PrimTree(n, edges, added, reached)
    requires e in edges && w !in reached && |reached| < n
    requires (e.from == w && e.to in reached) || (e.to == w && e.from in reached)
    ensures PrimTree(n, edges, added + [e], reached + [w])
  {
    var u := if e.from == w then e.to else e.from;
    CrossingNotConnected(n, added, reached, e);
    AcyclicExtend(added, e);
    ReachGrows(added, reached, e, u, w);
    assert NoDup(reached + [w]);
  }

  lemma AddBlockEdges(steps: seq<Step>, e: Edge, s1: Snapshot, s2: Snapshot, s3: Snapshot)
    ensures AddedEdges(steps + [ConsiderEdge(e, s1), AddEdge(e, s2), Message(s3)]) == AddedEdges(steps) + [e]
    ensures ConsideredEdges(steps + [ConsiderEdge(e, s1), AddEdge(e, s2), Message(s3)]) == ConsideredEdges(steps) + [e]
  {
    var t1 := steps + [ConsiderEdge(e, s1)];
    var t2 := t1 + [AddEdge(e, s2)];
    var t3 := t2 + [Message(s3)];
    assert t3 == steps + [ConsiderEdge(e, s1), AddEdge(e, s2), Message(s3)];
    assert t3[..|t3| - 1] == t2 && t2[..|t2| - 1] == t1 && t1[..|t1| - 1] == steps;
    assert AddedEdges(t1) == AddedEdges(steps) + [];
    assert AddedEdges(t2) == AddedEdges(t1) + [e];
    assert AddedEdges(t3) == AddedEdges(t2) + [];
    assert ConsideredEdges(t1) == ConsideredEdges(steps) + [e];
    assert ConsideredEdges(t2) == ConsideredEdges(t1) + [];
    assert ConsideredEdges(t3) == ConsideredEdges(t2) + [];
  }

  lemma RejectBlockEdges(steps: seq<Step>, e: Edge, s1: Snapshot, st: Step)
    requires st.ShowInvalid?
    ensures AddedEdges(steps + [ConsiderEdge(e, s1), st]) == AddedEdges(steps)
    ensures ConsideredEdges(steps + [ConsiderEdge(e, s1), st]) == ConsideredEdges(steps) + [e]
  {
    var t1 := steps + [ConsiderEdge(e, s1)];
    var t2 := t1 + [st];
    assert t2 == steps + [ConsiderEdge(e, s1), st];
    assert t2[..|t2| - 1] == t1 && t1[..|t1| - 1] == steps;
    assert AddedEdges(t1) == AddedEdges(steps) + [];
    assert AddedEdges(t2) == AddedEdges(t1) + [];
    assert ConsideredEdges(t1) == ConsideredEdges(steps) + [e];
    assert ConsideredEdges(t2) == ConsideredEdges(t1) + [];
  }

  /** The tail of the queue and the entries leading away from `w` are disjoint and all well formed. */
  lemma AddJoined(n: nat, edges: seq<Edge>, queue: seq<QueueItem>, visited: seq<nat>, w: nat)
    requires WellFormed(n, edges) && QueueOk(edges, queue, visited) && |queue| > 0 && w !in visited
    ensures var q, pushed := queue[1..], Items(Reseed(edges, w, visited + [w]));
      && NoDup(q + pushed)
      && (forall it :: it in q + pushed ==> ItemOk(edges, it, visited + [w]))
      && (forall it :: it in pushed ==> Leads(it.edge, w, visited + [w]))
  {
    var v' := visited + [w];
    var q, es := queue[1..], Reseed(edges, w, v');
    var pushed := Items(es);
    WellFormedNoDup(n, edges);
    forall it | it in pushed ensures ItemOk(edges, it, v') && Leads(it.edge, w, v') {
      var i :| 0 <= i < |pushed| && pushed[i] == it;
      assert es[i] in es;
    }
    forall i, j | 0 <= i < j < |q| ensures q[i] != q[j] {
      assert q[i] == queue[i + 1] && q[j] == queue[j + 1];
    }
    forall it | it in q ensures it in queue && it !in pushed {
      var i :| 0 <= i < |q| && q[i] == it;
      assert queue[i + 1] == it;
    }
    NoDupConcat(q, pushed);
  }

  /** The front entry of a duplicate-free queue is the only entry carrying its edge. */
  lemma FrontEdgeUnique(edges: seq<Edge>, queue: seq<QueueItem>, visited: seq<nat>)
    requires QueueOk(edges, queue, visited) && |queue| > 0
    ensures forall it :: it in queue[1..] ==> it.edge != queue[0].edge
  {
    assert queue[0] in queue;
    forall it | it in queue[1..] ensures it.edge != queue[0].edge {
      var i :| 0 <= i < |queue[1..]| && queue[1..][i] == it;
      assert queue[i + 1] == it && queue[i + 1] != queue[0] && queue[i + 1] in queue;
    }
  }

  /** Every entry of a permutation of `q + pushed` avoids `c`, when every entry of both parts does. */
  lemma UnconsideredAfterSort(c: seq<Edge>, q: seq<QueueItem>, pushed: seq<QueueItem>, r: seq<QueueItem>)
    requires forall it :: it in q ==> it.edge !in c
    requires forall it :: it in pushed ==> it.edge !in c
    requires forall it :: it in r ==> it in q + pushed
    ensures forall it :: it in r ==> it.edge !in c
  {
  }

  lemma AddQueue(n: nat, edges: seq<Edge>, c: seq<Edge>, queue: seq<QueueItem>, visited: seq<nat>, w: nat)
    requires WellFormed(n, edges) && QueueOk(edges, queue, visited) && ConsideredOk(c, queue, visited)
    requires |queue| > 0 && w !in visited && Touches(queue[0].edge, w)
    ensures var after := Grown(edges, queue[1..], visited, w);
      QueueOk(edges, after.queue, after.visited) && ConsideredOk(c + [queue[0].edge], after.queue, after.visited)
  {
    var v', e := visited + [w], queue[0].edge;
    var q, pushed := queue[1..], Items(Reseed(edges, w, v'));
    AddJoined(n, edges, queue, visited, w);
    SortKeepsQueue(edges, q + pushed, v');
    FrontEdgeUnique(edges, queue, visited);
    assert queue[0] in queue;
    forall it | it in q ensures it.edge !in c + [e] {
      assert it in queue;
    }
    forall it | it in pushed ensures it.edge !in c + [e] {
      assert Leads(it.edge, w, v');
    }
    UnconsideredAfterSort(c + [e], q, pushed, Grown(edges, q, visited, w).queue);
  }

  lemma RejectQueue(edges: seq<Edge>, c: seq<Edge>, queue: seq<QueueItem>, visited: seq<nat>)
    requires QueueOk(edges, queue, visited) && ConsideredOk(c, queue, visited) && |queue| > 0
    ensures QueueOk(edges, queue[1..], visited) && ConsideredOk(c + [queue[0].edge], queue[1..], visited)
  {
    var q := queue[1..];
    assert queue[0] in queue;
    forall i, j | 0 <= i < j < |q| ensures q[i] != q[j] {
      assert q[i] == queue[i + 1] && q[j] == queue[j + 1];
    }
    FrontEdgeUnique(edges, queue, visited);
    forall it | it in q ensures it in queue {
      var i :| 0 <= i < |q| && q[i] == it;
      assert queue[i + 1] == it;
    }
  }

  lemma AddSnapshots(steps: seq<Step>, q: seq<QueueItem>, visited: seq<nat>, e: Edge, after: Snapshot)
    requires SnapshotsOk(steps) && SortedBy(q, ItemWeight) && after.PrimSnap? && SortedBy(after.queue, ItemWeight)
    ensures SnapshotsOk(steps + [ConsiderEdge(e, PrimSnap(q, visited)), AddEdge(e, PrimSnap(q, visited)), Message(after)])
  {
    var steps' := steps + [ConsiderEdge(e, PrimSnap(q, visited)), AddEdge(e, PrimSnap(q, visited)), Message(after)];
    forall i | 0 <= i < |steps| ensures steps'[i] == steps[i] {
    }
  }

  lemma RejectSnapshots(steps: seq<Step>, q: seq<QueueItem>, visited: seq<nat>, e: Edge, cycleEdges: seq<Edge>, cycleNodes: seq<nat>)
    requires SnapshotsOk(steps) && SortedBy(q, ItemWeight) && e.from in visited && e.to in visited
    ensures var after := PrimSnap(q, visited);
      SnapshotsOk(steps + [ConsiderEdge(e, after), ShowInvalid(e, [e], cycleEdges, cycleNodes, after)])
  {
    var after := PrimSnap(q, visited);
    var steps' := steps + [ConsiderEdge(e, after), ShowInvalid(e, [e], cycleEdges, cycleNodes, after)];
    forall i | 0 <= i < |steps| ensures steps'[i] == steps[i] {
    }
  }

  lemma TailSorted(queue: seq<QueueItem>)
    requires SortedBy(queue, ItemWeight) && |queue| > 0
    ensures SortedBy(queue[1..], ItemWeight)
  {
    forall i, j | 0 <= i < j < |queue| - 1 ensures ItemWeight(queue[1..][i]) <= ItemWeight(queue[1..][j]) {
      assert queue[1..][i] == queue[i + 1] && queue[1..][j] == queue[j + 1];
    }
  }

  lemma AddPreserves(n: nat, edges: seq<Edge>, mstEdges: seq<Edge>, steps: seq<Step>, queue: seq<QueueItem>, visited: seq<nat>, w: nat)
    requires PrimInv(n, edges, mstEdges, steps, queue, visited)
    requires Continues(n, PrimSnap(queue, visited)) && ExactlyOneVisited(queue[0].edge, visited)
    requires w == if queue[0].edge.from in visited then queue[0].edge.to else queue[0].edge.from
    ensures var e, after := queue[0].edge, Grown(edges, queue[1..], visited, w);
      && PrimInv(n, edges, mstEdges,
                 steps + [ConsiderEdge(e, PrimSnap(queue[1..], visited)), AddEdge(e, PrimSnap(queue[1..], visited)), Message(after)],
                 after.queue, after.visited)
      && PrimBlock(n, edges, mstEdges, PrimSnap(queue, visited),
                   [ConsiderEdge(e, PrimSnap(queue[1..], visited)), AddEdge(e, PrimSnap(queue[1..], visited)), Message(after)], after)
  {
    var e, q := queue[0].edge, queue[1..];
    var after := Grown(edges, q, visited, w);
    assert queue[0] in queue;
    AddBlockEdges(steps, e, PrimSnap(q, visited), PrimSnap(q, visited), after);
    TreeGrows(n, edges, AddedEdges(steps), visited, e, w);
    AddQueue(n, edges, ConsideredEdges(steps), queue, visited, w);
    AddCut(edges, queue, visited, w);
    TailSorted(queue);
    AddSnapshots(steps, q, visited, e, after);
  }

  lemma RejectPreserves(n: nat, edges: seq<Edge>, mstEdges: seq<Edge>, steps: seq<Step>, queue: seq<QueueItem>, visited: seq<nat>,
                        cycleEdges: seq<Edge>, cycleNodes: seq<nat>)
    requires PrimInv(n, edges, mstEdges, steps, queue, visited)
    requires Continues(n, PrimSnap(queue, visited)) && !ExactlyOneVisited(queue[0].edge, visited)
    requires CycleReport(queue[0].edge, visited, mstEdges, cycleEdges, cycleNodes)
    ensures var e, after := queue[0].edge, PrimSnap(queue[1..], visited);
      && PrimInv(n, edges, mstEdges,
                 steps + [ConsiderEdge(e, after), ShowInvalid(e, [e], cycleEdges, cycleNodes, after)],
                 queue[1..], visited)
      && PrimBlock(n, edges, mstEdges, PrimSnap(queue, visited),
                   [ConsiderEdge(e, after), ShowInvalid(e, [e], cycleEdges, cycleNodes, after)], after)
  {
    var e, q := queue[0].edge, queue[1..];
    var after := PrimSnap(q, visited);
    assert queue[0] in queue;
    RejectBlockEdges(steps, e, after, ShowInvalid(e, [e], cycleEdges, cycleNodes, after));
    RejectQueue(edges, ConsideredEdges(steps), queue, visited);
    RejectCut(edges, queue, visited);
    TailSorted(queue);
    RejectSnapshots(steps, q, visited, e, cycleEdges, cycleNodes);
  }

  lemma LoopAdvance(n: nat, edges: seq<Edge>, mstEdges: seq<Edge>, steps: seq<Step>, queue: seq<QueueItem>, visited: seq<nat>,
                    blk: seq<Step>, queue': seq<QueueItem>, visited': seq<nat>)
    requires PrimLoop(n, edges, mstEdges, steps, queue, visited)
    requires PrimInv(n, edges, mstEdges, steps + blk, queue', visited')
    requires PrimBlock(n, edges, mstEdges, PrimSnap(queue, visited), blk, PrimSnap(queue', visited'))
    ensures PrimLoop(n, edges, mstEdges, steps + blk, queue', visited')
  {
    TraceExtend(n, edges, mstEdges, steps, PrimSnap(queue, visited), blk, PrimSnap(queue', visited'));
  }

  /**
    When the loop stops, the visited nodes are exactly those the graph
    connects to node 0: either all `n` nodes are visited, or the queue is
    empty and so no graph edge leaves the visited set.
   */
  lemma PrimSpans(n: nat, edges: seq<Edge>, added: seq<Edge>, queue: seq<QueueItem>, visited: seq<nat>)
    requires WellFormed(n, edges) && PrimTree(n, edges, added, visited) && CutQueued(edges, queue, visited)
    requires !(|visited| < n && |queue| > 0)
    ensures forall x: nat :: x in visited <==> x < n && Connected(edges, 0, x)
  {
    forall x: nat | x in visited ensures x < n && Connected(edges, 0, x) {
      ConnectedMono(added, edges, 0, x);
    }
    forall x: nat | x < n && Connected(edges, 0, x) ensures x in visited {
      if |visited| >= n {
        Pigeonhole(visited, n, x);
      } else {
        var tag := seq(n, y requires 0 <= y < n => y in visited);
        forall e | e in edges ensures e.from < |tag| && e.to < |tag| && tag[e.from] == tag[e.to] {
          var i :| 0 <= i < |edges| && edges[i] == e;
          assert !ExactlyOneVisited(e, visited);
        }
        assert visited[0] == 0;
        ConnectedKeepsLabel(edges, tag, 0, x);
      }
    }
  }

  /**
    What `primsAlgorithm()` produces: a trace opening with the initial
    queue and made of whole loop iterations, ending in a state where the
    loop guard fails; its added edges are a spanning tree from node 0 over
    the visited nodes, which are exactly the nodes the graph connects to
    node 0; every snapshot shows a sorted queue and no edge is considered
    twice.
   */
  ghost predicate PrimOutcome(n: nat, edges: seq<Edge>, mstEdges: seq<Edge>, steps: seq<Step>)
  {
    && |steps| >= 1 && steps[0] == Message(InitialSnap(edges))
    && SnapshotsOk(steps)
    && NoDup(ConsideredEdges(steps))
    && var last := steps[|steps| - 1].snap;
       && PrimRun(n, edges, mstEdges, steps[0].snap, steps[1..], last)
       && !Continues(n, last)
       && last.PrimSnap?
       && PrimTree(n, edges, AddedEdges(steps), last.visited)
       && (forall x: nat :: x in last.visited <==> x < n && Connected(edges, 0, x))
  }

  /** Once the loop stops, its invariant yields everything `PrimsAlgorithm` promises. */
  lemma PrimDone(n: nat, edges: seq<Edge>, mstEdges: seq<Edge>, steps: seq<Step>, queue: seq<QueueItem>, visited: seq<nat>)
    requires PrimLoop(n, edges, mstEdges, steps, queue, visited) && !(|visited| < n && |queue| > 0)
    ensures PrimOutcome(n, edges, mstEdges, steps)
  {
    PrimSpans(n, edges, AddedEdges(steps), queue, visited);
  }

  /**
    One pass of the `while` loop of `primsAlgorithm()`: shift the cheapest
    entry off the queue and either grow the tree by its unvisited endpoint or
    reject it with a cycle explanation. It keeps the loop invariant and
    appends exactly one iteration block to the trace.
   */
  method PrimIteration(n: nat, edges: seq<Edge>, mstEdges: seq<Edge>, steps: seq<Step>, queue: seq<QueueItem>, visited: seq<nat>)
    returns (steps': seq<Step>, queue': seq<QueueItem>, visited': seq<nat>)
    requires PrimLoop(n, edges, mstEdges, steps, queue, visited)
    requires |visited| < n && |queue| > 0
    ensures PrimLoop(n, edges, mstEdges, steps', queue', visited')
    ensures n - |visited'| < n - |visited| || (visited' == visited && |queue'| < |queue|)
  {
    var minEdge := queue[0].edge;
    var rest := queue[1..];
    var fromVisited := minEdge.from in visited;
    var toVisited := minEdge.to in visited;
    if (fromVisited && !toVisited) || (!fromVisited && toVisited) {
      var newNode := if fromVisited then minEdge.to else minEdge.from;
      steps' := steps + [ConsiderEdge(minEdge, PrimSnap(rest, visited))];
      steps' := steps' + [AddEdge(minEdge, PrimSnap(rest, visited))];
      visited' := visited + [newNode];
      queue' := SortByKey(rest + Items(Reseed(edges, newNode, visited')), ItemWeight);
      steps' := steps' + [Message(PrimSnap(queue', visited'))];
      AppendThree(steps, ConsiderEdge(minEdge, PrimSnap(rest, visited)), AddEdge(minEdge, PrimSnap(rest, visited)), Message(PrimSnap(queue', visited')));
      AddPreserves(n, edges, mstEdges, steps, queue, visited, newNode);
      LoopAdvance(n, edges, mstEdges, steps, queue, visited, steps'[|steps|..], queue', visited');
    } else {
      queue', visited' := rest, visited;
      var cycleEdges, cycleNodes := FindActualCycle(minEdge, visited, mstEdges);
      steps' := steps + [ConsiderEdge(minEdge, PrimSnap(rest, visited))];
      steps' := steps' + [ShowInvalid(minEdge, [minEdge], cycleEdges, cycleNodes, PrimSnap(rest, visited))];
      AppendTwo(steps, ConsiderEdge(minEdge, PrimSnap(rest, visited)), ShowInvalid(minEdge, [minEdge], cycleEdges, cycleNodes, PrimSnap(rest, visited)));
      RejectPreserves(n, edges, mstEdges, steps, queue, visited, cycleEdges, cycleNodes);
      LoopAdvance(n, edges, mstEdges, steps, queue, visited, steps'[|steps|..], queue', visited');
    }
  }

  /**
    `primsAlgorithm()` on a graph of `n > 0` nodes (it reads node 0, so an
    empty graph is the caller's concern). `mstEdges` is the list of edges
    currently marked as MST edges, which the cycle explanation searches.
   */
  method PrimsAlgorithm(n: nat, edges: seq<Edge>, mstEdges: seq<Edge>) returns (steps: seq<Step>)
    requires 0 < n && WellFormed(n, edges)
    ensures PrimOutcome(n, edges, mstEdges, steps)
  {
    var visited: seq<nat> := [0];
    var queue := SortByKey(Items(Incident(edges, 0)), ItemWeight);
    steps := [Message(PrimSnap(queue, visited))];
    InitialInv(n, edges, mstEdges, steps, queue, visited);
    while |visited| < n && |queue| > 0
      invariant PrimLoop(n, edges, mstEdges, steps, queue, visited)
      decreases n - |visited|, |queue|
    {
      steps, queue, visited := PrimIteration(n, edges, mstEdges, steps, queue, visited);
    }
    PrimDone(n, edges, mstEdges, steps, queue, visited);
  }
}
