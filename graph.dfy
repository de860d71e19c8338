/**
  The graph data model shared by both step generators and the playback engine:
  weighted undirected edges over node indices, the unordered-pair key the source
  builds as `min-max`, walks along edges, and the connectivity and acyclicity
  notions the generators' traces are judged by.
 */
module Graph {
  import opened Wrappers

  /** An edge `{from, to, weight}`; node ids are indices into the node list. */
  datatype Edge = Edge(from: nat, to: nat, weight: int)

  /** The two edges join the same unordered pair of nodes. */
  predicate SamePair(a: Edge, b: Edge)
  {
    (a.from == b.from && a.to == b.to) || (a.from == b.to && a.to == b.from)
  }

  /** The normalised `min-max` key under which an edge is recorded as processed. */
  function Key(e: Edge): (k: (nat, nat))
    ensures k.0 <= k.1
    ensures {k.0, k.1} == {e.from, e.to}
  {
    if e.from <= e.to then (e.from, e.to) else (e.to, e.from)
  }

  /** Two edges share a key exactly when they join the same unordered pair. */
  lemma KeyIdentifiesPair(a: Edge, b: Edge)
    ensures Key(a) == Key(b) <==> SamePair(a, b)
  {
    var ka, kb := Key(a), Key(b);
    assert {ka.0, ka.1} == {a.from, a.to} && {kb.0, kb.1} == {b.from, b.to};
    if Key(a) == Key(b) {
      assert {a.from, a.to} == {b.from, b.to};
      assert a.from in {b.from, b.to} && a.to in {b.from, b.to};
      assert b.from in {a.from, a.to} && b.to in {a.from, a.to};
    }
  }

  predicate Touches(e: Edge, v: nat)
  {
    e.from == v || e.to == v
  }

  /**
    What the graph generator guarantees and `executeStep` relies on: every
    endpoint is a node index, no edge is a self-loop and no unordered pair
    carries two edges.
   */
  ghost predicate WellFormed(n: nat, edges: seq<Edge>)
  {
    && (forall i :: 0 <= i < |edges| ==> edges[i].from < n && edges[i].to < n && edges[i].from != edges[i].to)
    && (forall i, j :: 0 <= i < j < |edges| ==> !SamePair(edges[i], edges[j]))
  }

  ghost predicate NoDup<T>(s: seq<T>)
  {
    forall i, j :: 0 <= i < j < |s| ==> s[i] != s[j]
  }

  /** `Array.from(new Set(s))`: the first occurrence of every element, in order. */
  function Dedup(s: seq<nat>): (r: seq<nat>)
    ensures NoDup(r)
    ensures forall x :: x in r <==> x in s
    decreases |s|
  {
    if s == [] then []
    else
      var d := Dedup(s[..|s| - 1]);
      var x := s[|s| - 1];
      assert s == s[..|s| - 1] + [x];
      if x in d then d else d + [x]
  }

  /** Both endpoints of every edge of `es`, in order. */
  function Endpoints(es: seq<Edge>): (r: seq<nat>)
    ensures |r| == 2 * |es|
    ensures forall i :: 0 <= i < |es| ==> r[2 * i] == es[i].from && r[2 * i + 1] == es[i].to
  {
    if es == [] then [] else [es[0].from, es[0].to] + Endpoints(es[1..])
  }

  /** Leaving node `c` along `e`: the far end, or nothing when `e` does not touch `c`. */
  function Cross(c: nat, e: Edge): (r: Option<nat>)
    ensures r.Some? <==> Touches(e, c)
    ensures r.Some? ==> Touches(e, r.value)
  {
    if e.from == c then Some(e.to) else if e.to == c then Some(e.from) else None
  }

  /** Where a walk from `a` along the edges of `p`, in order, ends, if it is a walk at all. */
  function Walk(a: nat, p: seq<Edge>): Option<nat>
    decreases |p|
  {
    if p == [] then Some(a)
    else
      match Walk(a, p[..|p| - 1])
      case None => None
      case Some(c) => Cross(c, p[|p| - 1])
  }

  function Reverse(p: seq<Edge>): (r: seq<Edge>)
    ensures |r| == |p|
    ensures forall i :: 0 <= i < |p| ==> r[i] == p[|p| - 1 - i]
    decreases |p|
  {
    if p == [] then [] else [p[|p| - 1]] + Reverse(p[..|p| - 1])
  }

  ghost predicate Within(p: seq<Edge>, es: seq<Edge>)
  {
    forall i :: 0 <= i < |p| ==> p[i] in es
  }

  /** Some walk along edges of `es` leads from `a` to `b`. */
  ghost predicate Connected(es: seq<Edge>, a: nat, b: nat)
  {
    exists p :: Within(p, es) && Walk(a, p) == Some(b)
  }

  /** No edge of `es` joins two nodes that the edges before it already connect. */
  ghost predicate Acyclic(es: seq<Edge>)
  {
    forall k :: 0 <= k < |es| ==> !Connected(es[..k], es[k].from, es[k].to)
  }

  lemma {:induction false} WalkAppend(a: nat, p: seq<Edge>, q: seq<Edge>)
    ensures Walk(a, p + q) == match Walk(a, p) case None => None case Some(b) => Walk(b, q)
    decreases |q|
  {
    if q == [] {
      assert p + q == p;
    } else {
      var q' := q[..|q| - 1];
      assert (p + q)[..|p + q| - 1] == p + q';
      assert (p + q)[|p + q| - 1] == q[|q| - 1];
      WalkAppend(a, p, q');
    }
  }

  lemma CrossBack(c: nat, e: Edge, b: nat)
    requires Cross(c, e) == Some(b)
    ensures Cross(b, e) == Some(c)
  {
  }

  /** A walk read backwards leads back to where it started. */
  lemma {:induction false} WalkReverse(a: nat, p: seq<Edge>, b: nat)
    requires Walk(a, p) == Some(b)
    ensures Walk(b, Reverse(p)) == Some(a)
    decreases |p|
  {
    if p != [] {
      var p', e := p[..|p| - 1], p[|p| - 1];
      var c := Walk(a, p').value;
      CrossBack(c, e, b);
      assert Reverse(p) == [e] + Reverse(p');
      WalkAppend(b, [e], Reverse(p'));
      assert Walk(b, [e]) == Some(c) by {
        assert [e][..0] == [];
      }
      WalkReverse(a, p', c);
    }
  }

  lemma ConnectedRefl(es: seq<Edge>, a: nat)
    ensures Connected(es, a, a)
  {
    assert Within([], es) && Walk(a, []) == Some(a);
  }

  lemma ConnectedByEdge(es: seq<Edge>, e: Edge)
    requires e in es
    ensures Connected(es, e.from, e.to) && Connected(es, e.to, e.from)
  {
    assert [e][..0] == [];
    assert Within([e], es) && Walk(e.from, [e]) == Some(e.to);
    assert Walk(e.to, [e]) == Cross(e.to, e);
  }

  lemma ConnectedSym(es: seq<Edge>, a: nat, b: nat)
    requires Connected(es, a, b)
    ensures Connected(es, b, a)
  {
    var p :| Within(p, es) && Walk(a, p) == Some(b);
    WalkReverse(a, p, b);
    assert Within(Reverse(p), es);
  }

  lemma ConnectedTrans(es: seq<Edge>, a: nat, b: nat, c: nat)
    requires Connected(es, a, b) && Connected(es, b, c)
    ensures Connected(es, a, c)
  {
    var p :| Within(p, es) && Walk(a, p) == Some(b);
    var q :| Within(q, es) && Walk(b, q) == Some(c);
    WalkAppend(a, p, q);
    assert Within(p + q, es);
  }

  /** Connectivity only grows when edges are added. */
  lemma ConnectedMono(es: seq<Edge>, fs: seq<Edge>, a: nat, b: nat)
    requires Connected(es, a, b)
    requires forall e :: e in es ==> e in fs
    ensures Connected(fs, a, b)
  {
    var p :| Within(p, es) && Walk(a, p) == Some(b);
    assert Within(p, fs);
  }

  /** Appending an edge whose endpoints are not yet connected keeps an edge sequence acyclic. */
  lemma AcyclicExtend(es: seq<Edge>, e: Edge)
    requires Acyclic(es) && !Connected(es, e.from, e.to)
    ensures Acyclic(es + [e])
  {
    var fs := es + [e];
    forall k | 0 <= k < |fs| ensures !Connected(fs[..k], fs[k].from, fs[k].to) {
      if k < |es| {
        assert fs[..k] == es[..k] && fs[k] == es[k];
      } else {
        assert fs[..k] == es;
      }
    }
  }

  /**
    A walk never leaves a class of a node labelling whose classes every edge
    stays inside: the fact behind "an edge between two classes closes no cycle".
   */
  lemma {:induction false} WalkKeepsLabel<T>(es: seq<Edge>, tag: seq<T>, a: nat, p: seq<Edge>)
    requires forall e :: e in es ==> e.from < |tag| && e.to < |tag| && tag[e.from] == tag[e.to]
    requires a < |tag| && Within(p, es) && Walk(a, p).Some?
    ensures Walk(a, p).value < |tag| && tag[Walk(a, p).value] == tag[a]
    decreases |p|
  {
    if p != [] {
      WalkKeepsLabel(es, tag, a, p[..|p| - 1]);
    }
  }

  lemma ConnectedKeepsLabel<T>(es: seq<Edge>, tag: seq<T>, a: nat, b: nat)
    requires forall e :: e in es ==> e.from < |tag| && e.to < |tag| && tag[e.from] == tag[e.to]
    requires a < |tag| && Connected(es, a, b)
    ensures b < |tag| && tag[b] == tag[a]
  {
    var p :| Within(p, es) && Walk(a, p) == Some(b);
    WalkKeepsLabel(es, tag, a, p);
  }
}
