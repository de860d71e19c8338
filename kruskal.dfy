/**
  `kruskalsAlgorithm`: sorts a copy of the edge list by weight (stably), runs
  through it with a disjoint-set structure, and records every decision as
  steps carrying the edges still to come and the current disjoint sets.

  The model tracks, next to the arrays, the list `acc` of accepted edges.
  The central fact is that two nodes have the same root exactly when `acc`
  connects them; from it follow that `acc` never closes a cycle and that the
  cycle explanation lists the MST edges of the rejected edge's component.
 */
module Kruskal {
  import opened Wrappers
  import opened Graph
  import opened StableSort
  import opened Trace
  import opened UnionFind

  /** Equal tags exactly for the pairs of nodes that `acc` connects. */
  ghost predicate SameClasses(n: nat, tag: seq<nat>, acc: seq<Edge>)
  {
    && |tag| == n
    && forall x, y {:trigger Connected(acc, x, y)} :: 0 <= x < n && 0 <= y < n ==> (tag[x] == tag[y] <==> Connected(acc, x, y))
  }

  /** `sets` lists the connected components of the edges `acc` over the nodes `0 .. n-1`. */
  ghost predicate Partition(n: nat, sets: seq<seq<nat>>, acc: seq<Edge>)
  {
    exists tag: seq<nat> :: SameClasses(n, tag, acc) && GroupsBy(n, sets, tag)
  }

  /** The accepted edges after `e` is processed: `e` joins them unless its endpoints are already connected. */
  ghost function Next(acc: seq<Edge>, e: Edge): seq<Edge>
  {
    if Connected(acc, e.from, e.to) then acc else acc + [e]
  }

  /** The MST edges, in order, whose `from` end `acc` connects to `v`. */
  ghost function Linked(mstEdges: seq<Edge>, acc: seq<Edge>, v: nat): seq<Edge>
    decreases |mstEdges|
  {
    if mstEdges == [] then []
    else
      var f := mstEdges[|mstEdges| - 1];
      Linked(mstEdges[..|mstEdges| - 1], acc, v) + (if Connected(acc, f.from, v) then [f] else [])
  }

  /** The MST edges, in order, whose `from` end has tag `r`. */
  function SameRoot(mstEdges: seq<Edge>, tag: seq<nat>, r: nat): (c: seq<Edge>)
    requires forall f :: f in mstEdges ==> f.from < |tag|
    ensures forall f :: f in c <==> f in mstEdges && tag[f.from] == r
    decreases |mstEdges|
  {
    if mstEdges == [] then []
    else
      var f := mstEdges[|mstEdges| - 1];
      SameRoot(mstEdges[..|mstEdges| - 1], tag, r) + (if tag[f.from] == r then [f] else [])
  }

  lemma {:induction false} SameRootLinked(n: nat, mstEdges: seq<Edge>, tag: seq<nat>, acc: seq<Edge>, v: nat)
    requires SameClasses(n, tag, acc) && v < n
    requires forall f :: f in mstEdges ==> f.from < n
    ensures SameRoot(mstEdges, tag, tag[v]) == Linked(mstEdges, acc, v)
    decreases |mstEdges|
  {
    if mstEdges != [] {
      var init := mstEdges[..|mstEdges| - 1];
      assert forall f :: f in init ==> f in mstEdges;
      SameRootLinked(n, init, tag, acc, v);
    }
  }

  /**
    One iteration of the `while` loop, from `idx` with accepted edges `acc`:
    considerEdge then addEdge or showInvalid for `sorted[idx]`, both showing
    the edges after it and the components of `acc` (before the union); the
    rejection lists the edge and the MST edges of its component.
   */
  ghost predicate KruskalBlock(n: nat, sorted: seq<Edge>, mstEdges: seq<Edge>, idx: nat, acc: seq<Edge>, blk: seq<Step>)
  {
    && idx < |sorted| && |acc| < n - 1
    && var e, rest := sorted[idx], sorted[idx + 1..];
       && |blk| == 2
       && blk[0].ConsiderEdge? && blk[0].edge == e
       && (blk[1].AddEdge? || blk[1].ShowInvalid?) && blk[1].edge == e
       && (forall k :: 0 <= k < 2 ==> blk[k].snap.KruskalSnap? && blk[k].snap.sorted == rest && Partition(n, blk[k].snap.sets, acc))
       && if Connected(acc, e.from, e.to) then
            && blk[1].ShowInvalid? && blk[1].invalidEdges == [e]
            && blk[1].cycleEdges == [e] + Linked(mstEdges, acc, e.from)
            && blk[1].cycleNodes == Dedup([e.from, e.to] + Endpoints(Linked(mstEdges, acc, e.from)))
          else
            blk[1].AddEdge?
  }

  /**
    The edges a greedy scan of `es` accepts: each edge in turn, unless the
    edges accepted before it already connect its endpoints.
   */
  ghost function Accepted(es: seq<Edge>): seq<Edge>
    decreases |es|
  {
    if es == [] then [] else Next(Accepted(es[..|es| - 1]), es[|es| - 1])
  }

  lemma AcceptedStep(sorted: seq<Edge>, idx: nat)
    requires idx < |sorted|
    ensures Accepted(sorted[..idx + 1]) == Next(Accepted(sorted[..idx]), sorted[idx])
  {
    assert sorted[..idx + 1][..idx] == sorted[..idx];
  }

  /** The two steps the `j`-th iteration of the loop recorded, after the opening message. */
  function Iteration(steps: seq<Step>, j: nat): (blk: seq<Step>)
    requires 3 + 2 * j <= |steps|
    ensures |blk| == 2 && blk[0] == steps[1 + 2 * j] && blk[1] == steps[2 + 2 * j]
  {
    steps[1 + 2 * j..3 + 2 * j]
  }

  /**
    The trace so far: the opening message showing all sorted edges and the
    singleton sets, then one block per iteration up to `idx`, each taken with
    the edges accepted before it; together they consider exactly the first
    `idx` sorted edges and add exactly the accepted ones.
   */
  ghost predicate KruskalTrace(n: nat, sorted: seq<Edge>, mstEdges: seq<Edge>, steps: seq<Step>, idx: nat, acc: seq<Edge>)
  {
    && idx <= |sorted| && |steps| == 1 + 2 * idx
    && steps[0].Message? && steps[0].snap.KruskalSnap? && steps[0].snap.sorted == sorted
    && Partition(n, steps[0].snap.sets, [])
    && acc == Accepted(sorted[..idx])
    && (forall j :: 0 <= j < idx ==> KruskalBlock(n, sorted, mstEdges, j, Accepted(sorted[..j]), Iteration(steps, j)))
    && ConsideredEdges(steps) == sorted[..idx]
    && AddedEdges(steps) == acc
  }

  /**
    The accepted edges form a forest over the nodes: drawn from the edges
    considered so far, no cycle, and they connect the endpoints of every
    edge considered so far.
   */
  ghost predicate KruskalForest(n: nat, sorted: seq<Edge>, idx: nat, acc: seq<Edge>)
  {
    && idx <= |sorted|
    && (forall e :: e in acc ==> e in sorted[..idx] && e.from < n && e.to < n)
    && Acyclic(acc)
    && AllJoined(acc, sorted[..idx])
  }

  /** `acc` connects the two endpoints of every edge of `es`. */
  ghost predicate AllJoined(acc: seq<Edge>, es: seq<Edge>)
    decreases |es|
  {
    es == [] || (AllJoined(acc, es[..|es| - 1]) && Connected(acc, es[|es| - 1].from, es[|es| - 1].to))
  }

  lemma {:induction false} AllJoinedMembers(acc: seq<Edge>, es: seq<Edge>, f: Edge)
    requires AllJoined(acc, es) && f in es
    ensures Connected(acc, f.from, f.to)
    decreases |es|
  {
    if f != es[|es| - 1] {
      assert es == es[..|es| - 1] + [es[|es| - 1]];
      AllJoinedMembers(acc, es[..|es| - 1], f);
    }
  }

  lemma {:induction false} AllJoinedMono(acc: seq<Edge>, e: Edge, es: seq<Edge>)
    requires AllJoined(acc, es)
    ensures AllJoined(acc + [e], es)
    decreases |es|
  {
    if es != [] {
      var last := es[|es| - 1];
      AllJoinedMono(acc, e, es[..|es| - 1]);
      ConnectedMono(acc, acc + [e], last.from, last.to);
    }
  }

  lemma ConnectedNone(x: nat, y: nat)
    requires Connected([], x, y)
    ensures x == y
  {
    var id := seq(x + y + 1, i => i);
    ConnectedKeepsLabel([], id, x, y);
  }

  /** Before any union every node is its own root, and no edge has been accepted. */
  lemma InitialClasses(n: nat, tag: seq<nat>)
    requires |tag| == n && forall x :: 0 <= x < n ==> tag[x] == x
    ensures SameClasses(n, tag, [])
  {
    forall x, y | 0 <= x < n && 0 <= y < n ensures tag[x] == tag[y] <==> Connected([], x, y) {
      if Connected([], x, y) {
        ConnectedNone(x, y);
      }
      if x == y {
        ConnectedRefl([], x);
      }
    }
  }

  /**
    `union` of the roots of `e`'s endpoints, which `acc` does not connect:
    with every member of the two classes now tagged `w`, the tags match the
    connectivity of `acc + [e]`.
   */
  lemma UnionClasses(n: nat, tag: seq<nat>, tag': seq<nat>, acc: seq<Edge>, e: Edge, w: nat)
    requires SameClasses(n, tag, acc) && e.from < n && e.to < n && tag[e.from] != tag[e.to]
    requires w == tag[e.from] || w == tag[e.to]
    requires |tag'| == n
    requires forall x :: 0 <= x < n ==> tag'[x] == if tag[x] == tag[e.from] || tag[x] == tag[e.to] then w else tag[x]
    requires forall f :: f in acc ==> f.from < n && f.to < n
    ensures SameClasses(n, tag', acc + [e])
  {
    var acc' := acc + [e];
    forall f | f in acc' ensures f.from < |tag'| && f.to < |tag'| && tag'[f.from] == tag'[f.to] {
      if f in acc {
        ConnectedByEdge(acc, f);
      }
    }
    forall x, y | 0 <= x < n && 0 <= y < n ensures tag'[x] == tag'[y] <==> Connected(acc', x, y) {
      if Connected(acc', x, y) {
        ConnectedKeepsLabel(acc', tag', x, y);
      }
      if tag'[x] == tag'[y] {
        MergedConnected(n, tag, acc, e, x, y);
      }
    }
  }

  lemma MergedConnected(n: nat, tag: seq<nat>, acc: seq<Edge>, e: Edge, x: nat, y: nat)
    requires SameClasses(n, tag, acc) && e.from < n && e.to < n && x < n && y < n
    requires tag[x] == tag[y] || ((tag[x] == tag[e.from] || tag[x] == tag[e.to]) && (tag[y] == tag[e.from] || tag[y] == tag[e.to]))
    ensures Connected(acc + [e], x, y)
  {
    var acc' := acc + [e];
    ConnectedByEdge(acc', e);
    if tag[x] == tag[y] {
      ConnectedMono(acc, acc', x, y);
    } else {
      // x and y sit on opposite sides of e
      var (a, b) := if tag[x] == tag[e.from] then (e.from, e.to) else (e.to, e.from);
      assert Connected(acc, x, a) && Connected(acc, b, y);
      ConnectedMono(acc, acc', x, a);
      ConnectedMono(acc, acc', b, y);
      ConnectedTrans(acc', x, a, b);
      ConnectedTrans(acc', x, b, y);
    }
  }

  lemma ForestAdvance(n: nat, sorted: seq<Edge>, idx: nat, acc: seq<Edge>)
    requires KruskalForest(n, sorted, idx, acc) && idx < |sorted| && sorted[idx].from < n && sorted[idx].to < n
    ensures KruskalForest(n, sorted, idx + 1, Next(acc, sorted[idx]))
  {
    if Connected(acc, sorted[idx].from, sorted[idx].to) {
      ForestSkip(n, sorted, idx, acc);
    } else {
      ForestAccept(n, sorted, idx, acc);
    }
  }

  lemma ForestSkip(n: nat, sorted: seq<Edge>, idx: nat, acc: seq<Edge>)
    requires KruskalForest(n, sorted, idx, acc) && idx < |sorted|
    requires Connected(acc, sorted[idx].from, sorted[idx].to)
    ensures KruskalForest(n, sorted, idx + 1, acc)
  {
    PrefixGrows(sorted, idx);
  }

  lemma ForestAccept(n: nat, sorted: seq<Edge>, idx: nat, acc: seq<Edge>)
    requires KruskalForest(n, sorted, idx, acc) && idx < |sorted| && sorted[idx].from < n && sorted[idx].to < n
    requires !Connected(acc, sorted[idx].from, sorted[idx].to)
    ensures KruskalForest(n, sorted, idx + 1, acc + [sorted[idx]])
  {
    var e := sorted[idx];
    assert Acyclic(acc + [e]) by {
      AcyclicExtend(acc, e);
    }
    assert AllJoined(acc + [e], sorted[..idx + 1]) by {
      ConnectedByEdge(acc + [e], e);
      AllJoinedMono(acc, e, sorted[..idx]);
      PrefixGrows(sorted, idx);
    }
    DrawnFrom(n, sorted, idx, acc);
  }

  lemma DrawnFrom(n: nat, sorted: seq<Edge>, idx: nat, acc: seq<Edge>)
    requires idx < |sorted| && sorted[idx].from < n && sorted[idx].to < n
    requires forall e :: e in acc ==> e in sorted[..idx] && e.from < n && e.to < n
    ensures forall e :: e in acc + [sorted[idx]] ==> e in sorted[..idx + 1] && e.from < n && e.to < n
  {
    PrefixGrows(sorted, idx);
  }

  lemma PrefixGrows(sorted: seq<Edge>, idx: nat)
    requires idx < |sorted|
    ensures forall e :: e in sorted[..idx] ==> e in sorted[..idx + 1]
    ensures sorted[..idx + 1][..idx] == sorted[..idx] && sorted[..idx + 1][idx] == sorted[idx]
  {
    assert sorted[..idx + 1] == sorted[..idx] + [sorted[idx]];
  }

  lemma AddBlockEdges(steps: seq<Step>, blk: seq<Step>)
    requires |blk| == 2 && blk[0].ConsiderEdge? && !blk[1].ConsiderEdge?
    ensures ConsideredEdges(steps + blk) == ConsideredEdges(steps) + [blk[0].edge]
    ensures AddedEdges(steps + blk) == AddedEdges(steps) + (if blk[1].AddEdge? then [blk[1].edge] else [])
  {
    AddedEdgesAppend(steps, blk);
    ConsideredEdgesAppend(steps, blk);
    assert blk[..1] == [blk[0]] && blk[..1][..0] == [];
  }

  lemma TraceAdvance(n: nat, sorted: seq<Edge>, mstEdges: seq<Edge>, steps: seq<Step>, idx: nat, acc: seq<Edge>, blk: seq<Step>)
    requires KruskalTrace(n, sorted, mstEdges, steps, idx, acc) && KruskalBlock(n, sorted, mstEdges, idx, acc, blk)
    ensures KruskalTrace(n, sorted, mstEdges, steps + blk, idx + 1, Next(acc, sorted[idx]))
  {
    BlocksAdvance(n, sorted, mstEdges, steps, idx, blk);
    EdgesAdvance(sorted, steps, idx, acc, blk);
    AcceptedStep(sorted, idx);
  }

  lemma BlocksAdvance(n: nat, sorted: seq<Edge>, mstEdges: seq<Edge>, steps: seq<Step>, idx: nat, blk: seq<Step>)
    requires idx < |sorted| && |steps| == 1 + 2 * idx && |blk| == 2
    requires forall j :: 0 <= j < idx ==> KruskalBlock(n, sorted, mstEdges, j, Accepted(sorted[..j]), Iteration(steps, j))
    requires KruskalBlock(n, sorted, mstEdges, idx, Accepted(sorted[..idx]), blk)
    ensures (steps + blk)[0] == steps[0]
    ensures forall j :: 0 <= j < idx + 1 ==> KruskalBlock(n, sorted, mstEdges, j, Accepted(sorted[..j]), Iteration(steps + blk, j))
  {
    forall j | 0 <= j < idx + 1
      ensures KruskalBlock(n, sorted, mstEdges, j, Accepted(sorted[..j]), Iteration(steps + blk, j))
    {
      if j < idx {
        assert Iteration(steps + blk, j) == Iteration(steps, j);
      } else {
        assert Iteration(steps + blk, j) == blk;
      }
    }
  }

  lemma EdgesAdvance(sorted: seq<Edge>, steps: seq<Step>, idx: nat, acc: seq<Edge>, blk: seq<Step>)
    requires idx < |sorted| && ConsideredEdges(steps) == sorted[..idx] && AddedEdges(steps) == acc
    requires |blk| == 2 && blk[0].ConsiderEdge? && blk[0].edge == sorted[idx]
    requires blk[1].AddEdge? || blk[1].ShowInvalid?
    requires blk[1].AddEdge? <==> !Connected(acc, sorted[idx].from, sorted[idx].to)
    requires blk[1].edge == sorted[idx]
    ensures ConsideredEdges(steps + blk) == sorted[..idx + 1] && AddedEdges(steps + blk) == Next(acc, sorted[idx])
  {
    AddBlockEdges(steps, blk);
    assert sorted[..idx + 1] == sorted[..idx] + [sorted[idx]];
  }

  /**
    `findActualCycleForKruskal(edge, parent)`: nothing when the endpoints have
    different roots; otherwise the edge followed by the MST edges (in MST
    order) whose `from` end shares the root, and the distinct nodes of those
    edges in order of first appearance.
   */
  method FindActualCycleForKruskal(edge: Edge, ds: DisjointSet, mstEdges: seq<Edge>) returns (cycleEdges: seq<Edge>, cycleNodes: seq<nat>)
    requires ds.Valid() && edge.from < ds.n && edge.to < ds.n
    requires forall f :: f in mstEdges ==> f.from < ds.n
    ensures ds.RootOf(edge.from) != ds.RootOf(edge.to) ==> cycleEdges == [] && cycleNodes == []
    ensures ds.RootOf(edge.from) == ds.RootOf(edge.to) ==>
      var component := SameRoot(mstEdges, Roots(ds.parent[..], ds.rank[..]), ds.RootOf(edge.from));
      && cycleEdges == [edge] + component
      && cycleNodes == Dedup([edge.from, edge.to] + Endpoints(component))
  {
    var rootFrom := ds.FindRoot(edge.from);
    var rootTo := ds.FindRoot(edge.to);
    if rootFrom != rootTo {
      return [], [];
    }
    ghost var tag := Roots(ds.parent[..], ds.rank[..]);
    var component: seq<Edge> := [];
    var i := 0;
    while i < |mstEdges|
      invariant 0 <= i <= |mstEdges|
      invariant forall f :: f in mstEdges[..i] ==> f in mstEdges
      invariant component == SameRoot(mstEdges[..i], tag, rootFrom)
    {
      var r := ds.FindRoot(mstEdges[i].from);
      assert mstEdges[..i + 1][..i] == mstEdges[..i];
      if r == rootFrom {
        component := component + [mstEdges[i]];
      }
      i := i + 1;
    }
    assert mstEdges[..i] == mstEdges;
    cycleEdges := [edge] + component;
    cycleNodes := Dedup([edge.from, edge.to] + Endpoints(component));
  }

  /**
    Everything the loop of `kruskalsAlgorithm` keeps, over the contents `p`,
    `rk` of the `parent` and `rank` arrays: the trace so far, the forest of
    accepted edges, and roots that agree with that forest's components.
   */
  ghost predicate KruskalState(n: nat, sorted: seq<Edge>, mstEdges: seq<Edge>, steps: seq<Step>, idx: nat, acc: seq<Edge>,
                               p: seq<nat>, rk: seq<nat>)
  {
    && |p| == n && |rk| == n && Forest(p, rk)
    && SameClasses(n, Roots(p, rk), acc)
    && (forall e :: e in sorted ==> e.from < n && e.to < n)
    && (forall f :: f in mstEdges ==> f.from < n)
    && KruskalTrace(n, sorted, mstEdges, steps, idx, acc)
    && KruskalForest(n, sorted, idx, acc)
  }

  /**
    The two steps recorded for `sorted[idx]` while the roots are `tag`:
    considerEdge, then addEdge when the endpoints' roots differ and
    showInvalid with the cycle explanation when they agree; both show the
    edges after `sorted[idx]` and the sets grouped by `tag`.
   */
  ghost predicate StepsFor(n: nat, sorted: seq<Edge>, mstEdges: seq<Edge>, idx: nat, tag: seq<nat>, s1: Step, s2: Step)
    requires idx < |sorted| && |tag| == n && sorted[idx].from < n && sorted[idx].to < n
    requires forall f :: f in mstEdges ==> f.from < n
  {
    var e, rest := sorted[idx], sorted[idx + 1..];
    && s1.ConsiderEdge? && s1.edge == e && s1.snap.KruskalSnap? && s1.snap.sorted == rest && GroupsBy(n, s1.snap.sets, tag)
    && s2.snap.KruskalSnap? && s2.snap.sorted == rest && GroupsBy(n, s2.snap.sets, tag)
    && if tag[e.from] == tag[e.to] then
         var component := SameRoot(mstEdges, tag, tag[e.from]);
         s2 == ShowInvalid(e, [e], [e] + component, Dedup([e.from, e.to] + Endpoints(component)), s2.snap)
       else
         s2 == AddEdge(e, s2.snap)
  }

  /** `tag'` is `tag` with the classes of `a` and `b` merged under one of their two tags. */
  ghost predicate Merged(n: nat, tag: seq<nat>, tag': seq<nat>, a: nat, b: nat)
    requires |tag| == n && |tag'| == n && a < n && b < n
  {
    && (tag'[a] == tag[a] || tag'[a] == tag[b])
    && forall x :: 0 <= x < n ==> tag'[x] == if tag[x] == tag[a] || tag[x] == tag[b] then tag'[a] else tag[x]
  }

  lemma MergedUnder(n: nat, tag: seq<nat>, tag': seq<nat>, a: nat, b: nat, w: nat)
    requires |tag| == n && |tag'| == n && a < n && b < n && (w == tag[a] || w == tag[b])
    requires forall x :: 0 <= x < n ==> tag'[x] == if tag[x] == tag[a] || tag[x] == tag[b] then w else tag[x]
    ensures Merged(n, tag, tag', a, b)
  {
    assert tag'[a] == w;
  }

  lemma BlockOk(n: nat, sorted: seq<Edge>, mstEdges: seq<Edge>, idx: nat, acc: seq<Edge>, tag: seq<nat>, s1: Step, s2: Step)
    requires idx < |sorted| && |acc| < n - 1 && sorted[idx].from < n && sorted[idx].to < n
    requires forall f :: f in mstEdges ==> f.from < n
    requires SameClasses(n, tag, acc) && StepsFor(n, sorted, mstEdges, idx, tag, s1, s2)
    ensures KruskalBlock(n, sorted, mstEdges, idx, acc, [s1, s2])
  {
    var e := sorted[idx];
    if tag[e.from] == tag[e.to] {
      SameRootLinked(n, mstEdges, tag, acc, e.from);
    }
  }

  /** One iteration's effect on the invariant, once its steps and the new roots are known. */
  lemma StateAdvance(n: nat, sorted: seq<Edge>, mstEdges: seq<Edge>, steps: seq<Step>, idx: nat, acc: seq<Edge>,
                     p: seq<nat>, rk: seq<nat>, blk: seq<Step>, p': seq<nat>, rk': seq<nat>)
    requires KruskalState(n, sorted, mstEdges, steps, idx, acc, p, rk)
    requires KruskalBlock(n, sorted, mstEdges, idx, acc, blk)
    requires |p'| == n && |rk'| == n && Forest(p', rk') && SameClasses(n, Roots(p', rk'), Next(acc, sorted[idx]))
    ensures KruskalState(n, sorted, mstEdges, steps + blk, idx + 1, Next(acc, sorted[idx]), p', rk')
  {
    TraceAdvance(n, sorted, mstEdges, steps, idx, acc, blk);
    ForestAdvance(n, sorted, idx, acc);
  }

  /** The loop invariant survives an iteration whose steps and root changes are as `KruskalIteration` promises. */
  lemma LoopAdvance(n: nat, sorted: seq<Edge>, mstEdges: seq<Edge>, steps: seq<Step>, idx: nat, acc: seq<Edge>,
                    p: seq<nat>, rk: seq<nat>, s1: Step, s2: Step, added: bool, p': seq<nat>, rk': seq<nat>)
    requires KruskalState(n, sorted, mstEdges, steps, idx, acc, p, rk) && idx < |sorted| && |acc| < n - 1
    requires StepsFor(n, sorted, mstEdges, idx, Roots(p, rk), s1, s2)
    requires |p'| == n && |rk'| == n && Forest(p', rk')
    requires var e := sorted[idx];
      && added == (Roots(p, rk)[e.from] != Roots(p, rk)[e.to])
      && (added ==> Merged(n, Roots(p, rk), Roots(p', rk'), e.from, e.to))
      && (!added ==> Roots(p', rk') == Roots(p, rk))
    ensures KruskalState(n, sorted, mstEdges, steps + [s1, s2], idx + 1, Next(acc, sorted[idx]), p', rk')
    ensures added <==> !Connected(acc, sorted[idx].from, sorted[idx].to)
  {
    var e, tag, tag' := sorted[idx], Roots(p, rk), Roots(p', rk');
    assert KruskalBlock(n, sorted, mstEdges, idx, acc, [s1, s2]) by {
      BlockOk(n, sorted, mstEdges, idx, acc, tag, s1, s2);
    }
    assert SameClasses(n, tag', Next(acc, e)) by {
      if added {
        UnionClasses(n, tag, tag', acc, e, tag'[e.from]);
      }
    }
    StateAdvance(n, sorted, mstEdges, steps, idx, acc, p, rk, [s1, s2], p', rk');
  }

  /**
    The body of the `while` loop for `sorted[idx]`: record the disjoint sets,
    find both roots, then either accept or reject the edge.
   */
  method KruskalIteration(sorted: seq<Edge>, mstEdges: seq<Edge>, ds: DisjointSet, idx: nat)
    returns (s1: Step, s2: Step, added: bool)
    requires ds.Valid() && idx < |sorted| && sorted[idx].from < ds.n && sorted[idx].to < ds.n
    requires forall f :: f in mstEdges ==> f.from < ds.n
    modifies ds.parent, ds.rank
    ensures ds.Valid()
    ensures StepsFor(ds.n, sorted, mstEdges, idx, old(Roots(ds.parent[..], ds.rank[..])), s1, s2)
    ensures var e, tag, tag' := sorted[idx], old(Roots(ds.parent[..], ds.rank[..])), Roots(ds.parent[..], ds.rank[..]);
      && added == (tag[e.from] != tag[e.to])
      && (added ==> Merged(ds.n, tag, tag', e.from, e.to))
      && (!added ==> tag' == tag)
  {
    var e := sorted[idx];
    var sets1 := ds.GetDisjointSets();
    s1 := ConsiderEdge(e, KruskalSnap(sorted[idx + 1..], sets1));
    var rootFrom := ds.Find(e.from);
    var rootTo := ds.Find(e.to);
    if rootFrom != rootTo {
      s2 := AcceptEdge(ds, e, sorted[idx + 1..]);
      added := true;
    } else {
      s2 := RejectEdge(ds, e, sorted[idx + 1..], mstEdges);
      added := false;
    }
  }

  /** The `addEdge` branch: record the sets as they are, then `union` the endpoints. */
  method AcceptEdge(ds: DisjointSet, e: Edge, rest: seq<Edge>) returns (s2: Step)
    requires ds.Valid() && e.from < ds.n && e.to < ds.n && ds.RootOf(e.from) != ds.RootOf(e.to)
    modifies ds.parent, ds.rank
    ensures ds.Valid()
    ensures s2.snap.KruskalSnap? && s2 == AddEdge(e, KruskalSnap(rest, s2.snap.sets)) && GroupsBy(ds.n, s2.snap.sets, old(Roots(ds.parent[..], ds.rank[..])))
    ensures Merged(ds.n, old(Roots(ds.parent[..], ds.rank[..])), Roots(ds.parent[..], ds.rank[..]), e.from, e.to)
  {
    ghost var tag := Roots(ds.parent[..], ds.rank[..]);
    var sets2 := ds.GetDisjointSets();
    s2 := AddEdge(e, KruskalSnap(rest, sets2));
    ghost var w := if ds.rank[tag[e.from]] >= ds.rank[tag[e.to]] then tag[e.from] else tag[e.to];
    label U:
    var merged := ds.Union(e.from, e.to);
    ghost var tag' := Roots(ds.parent[..], ds.rank[..]);
    forall x | 0 <= x < ds.n ensures tag'[x] == if tag[x] == tag[e.from] || tag[x] == tag[e.to] then w else tag[x] {
      assert tag'[x] == ds.RootOf(x);
      assert tag[x] == old@U(ds.RootOf(x));
    }
    MergedUnder(ds.n, tag, tag', e.from, e.to, w);
  }

  /** The `showInvalid` branch: the cycle explanation, then the sets, which no longer change. */
  method RejectEdge(ds: DisjointSet, e: Edge, rest: seq<Edge>, mstEdges: seq<Edge>) returns (s2: Step)
    requires ds.Valid() && e.from < ds.n && e.to < ds.n && ds.RootOf(e.from) == ds.RootOf(e.to)
    requires forall f :: f in mstEdges ==> f.from < ds.n
    modifies ds.parent
    ensures ds.Valid() && Roots(ds.parent[..], ds.rank[..]) == old(Roots(ds.parent[..], ds.rank[..]))
    ensures var tag := Roots(ds.parent[..], ds.rank[..]);
      var component := SameRoot(mstEdges, tag, tag[e.from]);
      && s2.snap.KruskalSnap?
      && s2 == ShowInvalid(e, [e], [e] + component, Dedup([e.from, e.to] + Endpoints(component)), KruskalSnap(rest, s2.snap.sets))
      && GroupsBy(ds.n, s2.snap.sets, tag)
  {
    var cycleEdges, cycleNodes := FindActualCycleForKruskal(e, ds, mstEdges);
    var sets2 := ds.GetDisjointSets();
    s2 := ShowInvalid(e, [e], cycleEdges, cycleNodes, KruskalSnap(rest, sets2));
  }

  /** The state right after the arrays are set up and the opening message is recorded. */
  lemma InitialState(n: nat, sorted: seq<Edge>, mstEdges: seq<Edge>, sets0: seq<seq<nat>>, p: seq<nat>, rk: seq<nat>)
    requires |p| == n && |rk| == n && Forest(p, rk)
    requires forall x :: 0 <= x < n ==> Roots(p, rk)[x] == x
    requires GroupsBy(n, sets0, Roots(p, rk))
    requires forall e :: e in sorted ==> e.from < n && e.to < n
    requires forall f :: f in mstEdges ==> f.from < n
    ensures KruskalState(n, sorted, mstEdges, [Message(KruskalSnap(sorted, sets0))], 0, [], p, rk)
  {
    InitialClasses(n, Roots(p, rk));
    var steps := [Message(KruskalSnap(sorted, sets0))];
    assert steps[1..] == [];
    assert steps[..0] == [];
  }

  /**
    What the recorded steps amount to once the loop over `sorted` stops:
    the opening message, one block per considered edge (a prefix of
    `sorted`), the greedy choice of edges, acyclic, and either `n - 1` edges
    or every edge considered, each with its endpoints joined by the choice.
   */
  ghost predicate ScanOutcome(n: nat, sorted: seq<Edge>, mstEdges: seq<Edge>, steps: seq<Step>)
  {
    var considered, added := ConsideredEdges(steps), AddedEdges(steps);
    && |steps| >= 1 && steps[0].Message? && steps[0].snap.KruskalSnap? && steps[0].snap.sorted == sorted
    && Partition(n, steps[0].snap.sets, [])
    && |considered| <= |sorted| && considered == sorted[..|considered|] && |steps| == 1 + 2 * |considered|
    && added == Accepted(considered)
    && (forall j :: 0 <= j < |considered| ==> KruskalBlock(n, sorted, mstEdges, j, Accepted(sorted[..j]), Iteration(steps, j)))
    && Acyclic(added)
    && (forall e :: e in added ==> e in sorted)
    && (|added| == n - 1 || considered == sorted)
    && (forall e :: e in considered ==> Connected(added, e.from, e.to))
  }

  /** With no nodes there is no edge whose endpoints are in range. */
  lemma NoNodesNoEdges(n: nat, sorted: seq<Edge>)
    requires forall e :: e in sorted ==> e.from < n && e.to < n
    ensures n == 0 ==> sorted == []
  {
    if sorted != [] {
      assert sorted[0] in sorted;
    }
  }

  lemma ScanDone(n: nat, sorted: seq<Edge>, mstEdges: seq<Edge>, steps: seq<Step>, idx: nat, acc: seq<Edge>, p: seq<nat>, rk: seq<nat>)
    requires KruskalState(n, sorted, mstEdges, steps, idx, acc, p, rk)
    requires n == 0 || |acc| <= n - 1
    requires !(|acc| < n - 1 && idx < |sorted|)
    ensures ScanOutcome(n, sorted, mstEdges, steps)
  {
    NoNodesNoEdges(n, sorted);
    assert forall e :: e in sorted[..idx] ==> e in sorted;
    forall e | e in sorted[..idx] ensures Connected(acc, e.from, e.to) {
      AllJoinedMembers(acc, sorted[..idx], e);
    }
  }

  /** The loop invariant of `kruskalsAlgorithm`, over the live disjoint-set arrays and the `edgesAdded` counter. */
  ghost predicate KruskalLoop(n: nat, sorted: seq<Edge>, mstEdges: seq<Edge>, ds: DisjointSet, steps: seq<Step>, idx: nat, acc: seq<Edge>, edgesAdded: int)
    reads ds, ds.parent, ds.rank
  {
    && ds.Valid() && ds.n == n
    && KruskalState(n, sorted, mstEdges, steps, idx, acc, ds.parent[..], ds.rank[..])
    && edgesAdded == |acc| && (n == 0 || edgesAdded <= n - 1)
  }

  /** One pass of the `while` loop: the two steps for `sorted[idx]`, and the counter bumped on an addition. */
  method KruskalLoopBody(n: nat, sorted: seq<Edge>, mstEdges: seq<Edge>, ds: DisjointSet, steps: seq<Step>, idx: nat,
                         ghost acc: seq<Edge>, edgesAdded: int)
    returns (steps': seq<Step>, ghost acc': seq<Edge>, edgesAdded': int)
    requires KruskalLoop(n, sorted, mstEdges, ds, steps, idx, acc, edgesAdded)
    requires edgesAdded < n - 1 && idx < |sorted|
    modifies ds.parent, ds.rank
    ensures KruskalLoop(n, sorted, mstEdges, ds, steps', idx + 1, acc', edgesAdded')
  {
    ghost var p, rk := ds.parent[..], ds.rank[..];
    assert sorted[idx] in sorted;
    var s1, s2, added := KruskalIteration(sorted, mstEdges, ds, idx);
    LoopAdvance(n, sorted, mstEdges, steps, idx, acc, p, rk, s1, s2, added, ds.parent[..], ds.rank[..]);
    steps' := steps + [s1, s2];
    edgesAdded' := if added then edgesAdded + 1 else edgesAdded;
    acc' := Next(acc, sorted[idx]);
  }

  /**
    The part of `kruskalsAlgorithm()` after the sort: set up `parent` and
    `rank`, record the opening message, and run the loop over `sorted`,
    which stops after `n - 1` accepted edges or when the edges run out; no
    final message follows.
   */
  method KruskalScan(n: nat, sorted: seq<Edge>, mstEdges: seq<Edge>) returns (steps: seq<Step>)
    requires forall e :: e in sorted ==> e.from < n && e.to < n
    requires forall f :: f in mstEdges ==> f.from < n
    ensures ScanOutcome(n, sorted, mstEdges, steps)
  {
    var ds := new DisjointSet(n);
    var sets0 := ds.GetDisjointSets();
    steps := [Message(KruskalSnap(sorted, sets0))];
    InitialState(n, sorted, mstEdges, sets0, ds.parent[..], ds.rank[..]);
    var edgesAdded := 0;
    var edgeIndex := 0;
    ghost var acc: seq<Edge> := [];
    while edgesAdded < n - 1 && edgeIndex < |sorted|
      invariant fresh(ds.parent) && fresh(ds.rank)
      invariant KruskalLoop(n, sorted, mstEdges, ds, steps, edgeIndex, acc, edgesAdded)
      decreases |sorted| - edgeIndex
    {
      steps, acc, edgesAdded := KruskalLoopBody(n, sorted, mstEdges, ds, steps, edgeIndex, acc, edgesAdded);
      edgeIndex := edgeIndex + 1;
    }
    ScanDone(n, sorted, mstEdges, steps, edgeIndex, acc, ds.parent[..], ds.rank[..]);
  }

  /**
    What `kruskalsAlgorithm()` produces: `sortedEdges` is the edge list
    stably sorted by weight, the trace scans it in order, and the accepted
    edges are graph edges without a cycle which, unless there are `n - 1`
    of them, join the endpoints of every graph edge.
   */
  ghost predicate KruskalOutcome(n: nat, edges: seq<Edge>, mstEdges: seq<Edge>, steps: seq<Step>, sortedEdges: seq<Edge>)
  {
    && multiset(sortedEdges) == multiset(edges) && SortedBy(sortedEdges, EdgeWeight) && StableBy(sortedEdges, edges, EdgeWeight)
    && ScanOutcome(n, sortedEdges, mstEdges, steps)
    && (forall e :: e in AddedEdges(steps) ==> e in edges)
    && (|AddedEdges(steps)| == n - 1 || forall e :: e in edges ==> Connected(AddedEdges(steps), e.from, e.to))
  }

  /**
    `kruskalsAlgorithm()`: the stably sorted copy of the edges (kept as
    `sortedEdges`) and the recorded steps.
   */
  method KruskalsAlgorithm(n: nat, edges: seq<Edge>, mstEdges: seq<Edge>) returns (steps: seq<Step>, sortedEdges: seq<Edge>)
    requires WellFormed(n, edges)
    requires forall f :: f in mstEdges ==> f.from < n
    ensures KruskalOutcome(n, edges, mstEdges, steps, sortedEdges)
  {
    sortedEdges := SortByKey(edges, EdgeWeight);
    assert forall e :: e in sortedEdges <==> e in edges by {
      forall e ensures e in sortedEdges <==> e in edges {
        assert e in sortedEdges <==> e in multiset(sortedEdges);
      }
    }
    steps := KruskalScan(n, sortedEdges, mstEdges);
  }
}
