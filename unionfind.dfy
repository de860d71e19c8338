/**
  The disjoint-set structure of Kruskal's generator: `parent` and `rank`
  arrays, `find` with path compression, `union` by rank, `getDisjointSets`
  and the non-mutating `findRoot`.

  `find` terminates because parent links form a forest: along every link the
  rank strictly increases. `Root` follows the links over a copy of the two
  arrays, so that facts about how one write changes the roots are plain
  lemmas over sequences.
 */
module UnionFind {

  /** Parent links stay inside the structure and climb strictly in rank. */
  ghost predicate Forest(p: seq<nat>, rk: seq<nat>)
  {
    && |p| == |rk|
    && (forall i :: 0 <= i < |p| ==> p[i] < |p|)
    && (forall i :: 0 <= i < |p| && p[i] != i ==> rk[i] < rk[p[i]])
  }

  function MaxRank(rk: seq<nat>): (m: nat)
    ensures forall i :: 0 <= i < |rk| ==> rk[i] <= m
    decreases |rk|
  {
    if rk == [] then 0
    else
      var m := MaxRank(rk[1..]);
      assert forall i :: 1 <= i < |rk| ==> rk[i] == rk[1..][i - 1];
      if rk[0] > m then rk[0] else m
  }

  /** The end of `x`'s parent chain: a node that is its own parent, of top rank on the chain. */
  ghost function Root(p: seq<nat>, rk: seq<nat>, x: nat): (r: nat)
    requires Forest(p, rk) && x < |p|
    ensures r < |p| && p[r] == r
    ensures r != x ==> rk[x] < rk[r]
    decreases MaxRank(rk) - rk[x]
  {
    if p[x] == x then x else Root(p, rk, p[x])
  }

  /** Ranks only bound the chains; which node is the root does not depend on them. */
  lemma {:induction false} RootIgnoresRank(p: seq<nat>, rk1: seq<nat>, rk2: seq<nat>, x: nat)
    requires Forest(p, rk1) && Forest(p, rk2) && x < |p|
    ensures Root(p, rk1, x) == Root(p, rk2, x)
    decreases MaxRank(rk1) - rk1[x]
  {
    if p[x] != x {
      RootIgnoresRank(p, rk1, rk2, p[x]);
    }
  }

  lemma {:induction false} CompressedRoot(p: seq<nat>, rk: seq<nat>, u: nat, x: nat)
    requires Forest(p, rk) && u < |p| && x < |p|
    requires Forest(p[u := Root(p, rk, u)], rk)
    ensures Root(p[u := Root(p, rk, u)], rk, x) == Root(p, rk, x)
    decreases MaxRank(rk) - rk[x]
  {
    var q := p[u := Root(p, rk, u)];
    if x == u {
      var r := Root(p, rk, u);
      if r != u {
        assert q[r] == r;
      }
    } else if p[x] != x {
      CompressedRoot(p, rk, u, p[x]);
    }
  }

  /** Path compression: pointing `u` straight at its root changes no node's root. */
  lemma CompressKeepsRoots(p: seq<nat>, rk: seq<nat>, u: nat)
    requires Forest(p, rk) && u < |p|
    ensures Forest(p[u := Root(p, rk, u)], rk)
    ensures forall x :: 0 <= x < |p| ==> Root(p[u := Root(p, rk, u)], rk, x) == Root(p, rk, x)
  {
    forall x | 0 <= x < |p| {
      CompressedRoot(p, rk, u, x);
    }
  }

  lemma {:induction false} LinkedRoot(p: seq<nat>, rk: seq<nat>, a: nat, b: nat, x: nat)
    requires Forest(p, rk) && a < |p| && b < |p| && x < |p|
    requires p[a] == a && p[b] == b && a != b && rk[b] < rk[a]
    ensures Forest(p[b := a], rk)
    ensures Root(p[b := a], rk, x) == if Root(p, rk, x) == b then a else Root(p, rk, x)
    decreases MaxRank(rk) - rk[x]
  {
    if x == b {
      assert p[b := a][a] == a;
    } else if p[x] != x {
      LinkedRoot(p, rk, a, b, p[x]);
    }
  }

  /** Linking root `b` under root `a` sends exactly the members of `b`'s tree to `a`. */
  lemma LinkRoots(p: seq<nat>, rk: seq<nat>, a: nat, b: nat)
    requires Forest(p, rk) && a < |p| && b < |p|
    requires p[a] == a && p[b] == b && a != b && rk[b] < rk[a]
    ensures Forest(p[b := a], rk)
    ensures forall x :: 0 <= x < |p| ==> Root(p[b := a], rk, x) == if Root(p, rk, x) == b then a else Root(p, rk, x)
  {
    forall x | 0 <= x < |p| {
      LinkedRoot(p, rk, a, b, x);
    }
  }

  /** Raising a root's rank keeps the forest and every root. */
  lemma BumpRank(p: seq<nat>, rk: seq<nat>, a: nat)
    requires Forest(p, rk) && a < |p| && p[a] == a
    ensures Forest(p, rk[a := rk[a] + 1])
    ensures forall x :: 0 <= x < |p| ==> Root(p, rk[a := rk[a] + 1], x) == Root(p, rk, x)
  {
    forall x | 0 <= x < |p| {
      RootIgnoresRank(p, rk[a := rk[a] + 1], rk, x);
    }
  }

  /** The root of every node, by index. */
  ghost function Roots(p: seq<nat>, rk: seq<nat>): (r: seq<nat>)
    requires Forest(p, rk)
    ensures |r| == |p| && forall x :: 0 <= x < |p| ==> r[x] == Root(p, rk, x)
  {
    seq(|p|, x requires 0 <= x < |p| => Root(p, rk, x))
  }

  /**
    `sets` partitions the nodes `0 .. n-1` into the classes of `tag`: every
    group is non-empty and lists, in increasing order, the nodes of one tag;
    groups come in increasing order of their tag, and every node is in one.
   */
  ghost predicate GroupsBy(n: nat, sets: seq<seq<nat>>, tag: seq<nat>)
    requires |tag| == n
  {
    && (forall k :: 0 <= k < |sets| ==> |sets[k]| > 0)
    && (forall k, j :: 0 <= k < |sets| && 0 <= j < |sets[k]| ==> sets[k][j] < n)
    && (forall k, j :: 0 <= k < |sets| && 0 <= j < |sets[k]| ==> tag[sets[k][j]] == tag[sets[k][0]])
    && (forall k1, k2 :: 0 <= k1 < k2 < |sets| ==> tag[sets[k1][0]] < tag[sets[k2][0]])
    && (forall k, j1, j2 :: 0 <= k < |sets| && 0 <= j1 < j2 < |sets[k]| ==> sets[k][j1] < sets[k][j2])
    && (forall x :: 0 <= x < n ==> InSomeGroup(sets, x))
  }

  ghost predicate InSomeGroup(sets: seq<seq<nat>>, x: nat)
  {
    exists k :: 0 <= k < |sets| && x in sets[k]
  }

  /**
    Bucket `r` lists, in increasing order, exactly the nodes below `upTo` whose
    tag is `r`: the object keyed by root that `getDisjointSets` fills.
   */
  ghost predicate Buckets(n: nat, buckets: seq<seq<nat>>, tag: seq<nat>, upTo: nat)
  {
    && |buckets| == n && |tag| == n && upTo <= n
    && (forall r, j :: 0 <= r < n && 0 <= j < |buckets[r]| ==> buckets[r][j] < upTo && tag[buckets[r][j]] == r)
    && (forall r, j1, j2 :: 0 <= r < n && 0 <= j1 < j2 < |buckets[r]| ==> buckets[r][j1] < buckets[r][j2])
    && (forall x :: 0 <= x < upTo ==> tag[x] < n && x in buckets[tag[x]])
  }

  lemma BucketsEmpty(n: nat, tag: seq<nat>)
    requires |tag| == n
    ensures Buckets(n, seq(n, _ => []), tag, 0)
  {
  }

  /** Appending node `i` to the bucket of its tag extends the bucketing to `i + 1`. */
  lemma BucketsPush(n: nat, buckets: seq<seq<nat>>, tag: seq<nat>, i: nat)
    requires Buckets(n, buckets, tag, i) && i < n && tag[i] < n
    ensures Buckets(n, buckets[tag[i] := buckets[tag[i]] + [i]], tag, i + 1)
  {
    var b' := buckets[tag[i] := buckets[tag[i]] + [i]];
    forall x | 0 <= x < i + 1 ensures x in b'[tag[x]] {
      if x < i && tag[x] == tag[i] {
        assert x in buckets[tag[x]];
      }
    }
  }

  /** The buckets at the increasing `keys`, which name every non-empty bucket, group the nodes by tag. */
  lemma BucketsGroup(n: nat, buckets: seq<seq<nat>>, tag: seq<nat>, keys: seq<nat>, sets: seq<seq<nat>>)
    requires Buckets(n, buckets, tag, n)
    requires |keys| == |sets|
    requires forall k :: 0 <= k < |keys| ==> keys[k] < n && buckets[keys[k]] != [] && sets[k] == buckets[keys[k]]
    requires forall k1, k2 :: 0 <= k1 < k2 < |keys| ==> keys[k1] < keys[k2]
    requires forall q :: 0 <= q < n && buckets[q] != [] ==> q in keys
    ensures GroupsBy(n, sets, tag)
  {
    forall x | 0 <= x < n ensures InSomeGroup(sets, x) {
      var k :| 0 <= k < |keys| && keys[k] == tag[x];
      assert x in sets[k];
    }
  }

  /** `Object.values(sets)`: the non-empty buckets in increasing key order. */
  method NonEmptyBuckets(n: nat, buckets: seq<seq<nat>>, ghost tag: seq<nat>) returns (sets: seq<seq<nat>>)
    requires Buckets(n, buckets, tag, n)
    ensures GroupsBy(n, sets, tag)
  {
    sets := [];
    ghost var keys: seq<nat> := [];
    var r := 0;
    while r < n
      invariant 0 <= r <= n && |keys| == |sets|
      invariant forall k :: 0 <= k < |keys| ==> keys[k] < r && buckets[keys[k]] != [] && sets[k] == buckets[keys[k]]
      invariant forall k1, k2 :: 0 <= k1 < k2 < |keys| ==> keys[k1] < keys[k2]
      invariant forall q :: 0 <= q < r && buckets[q] != [] ==> q in keys
    {
      if buckets[r] != [] {
        sets := sets + [buckets[r]];
        keys := keys + [r];
      }
      r := r + 1;
    }
    BucketsGroup(n, buckets, tag, keys, sets);
  }

  /**
    Linking two distinct roots by rank: the root of lower rank goes under the
    other, `ru` wins a tie and its rank grows by one. Every node of either
    tree ends up under the winner; no other root changes.
   */
  lemma UnionRoots(p: seq<nat>, rk: seq<nat>, ru: nat, rv: nat)
    requires Forest(p, rk) && ru < |p| && rv < |p| && p[ru] == ru && p[rv] == rv && ru != rv
    ensures var w := if rk[ru] >= rk[rv] then ru else rv;
      var l := if rk[ru] >= rk[rv] then rv else ru;
      var rk' := if rk[ru] == rk[rv] then rk[ru := rk[ru] + 1] else rk;
      && Forest(p[l := w], rk')
      && forall x :: 0 <= x < |p| ==>
           Root(p[l := w], rk', x) == if Root(p, rk, x) == ru || Root(p, rk, x) == rv then w else Root(p, rk, x)
  {
    if rk[ru] > rk[rv] {
      LinkRoots(p, rk, ru, rv);
    } else if rk[ru] < rk[rv] {
      LinkRoots(p, rk, rv, ru);
    } else {
      BumpRank(p, rk, ru);
      LinkRoots(p, rk[ru := rk[ru] + 1], ru, rv);
    }
  }

  class DisjointSet {
    const n: nat
    const parent: array<nat>
    const rank: array<nat>

    ghost predicate Valid()
      reads this, parent, rank
    {
      parent.Length == n && rank.Length == n && parent != rank && Forest(parent[..], rank[..])
    }

    ghost function RootOf(x: nat): nat
      reads this, parent, rank
      requires Valid() && x < n
    {
      Root(parent[..], rank[..], x)
    }

    /** Every node its own parent, every rank 0: `n` singleton sets. */
    constructor (n: nat)
      ensures Valid() && this.n == n && fresh(parent) && fresh(rank)
      ensures forall x :: 0 <= x < n ==> parent[x] == x && rank[x] == 0
      ensures forall x :: 0 <= x < n ==> RootOf(x) == x
    {
      this.n := n;
      parent := new nat[n];
      rank := new nat[n];
      new;
      var i := 0;
      while i < n
        invariant 0 <= i <= n
        invariant forall x :: 0 <= x < i ==> parent[x] == x && rank[x] == 0
      {
        parent[i] := i;
        rank[i] := 0;
        i := i + 1;
      }
    }

    /** `find(u)`: the root of `u`, with every node on the way re-pointed at it. */
    method Find(u: nat) returns (r: nat)
      requires Valid() && u < n
      modifies parent
      ensures Valid()
      ensures r == old(RootOf(u)) && parent[u] == r
      ensures forall x :: 0 <= x < n ==> RootOf(x) == old(RootOf(x))
      ensures Roots(parent[..], rank[..]) == old(Roots(parent[..], rank[..]))
      ensures forall x :: 0 <= x < n ==> parent[x] == old(parent[x]) || parent[x] == old(RootOf(x))
      decreases MaxRank(rank[..]) - rank[u]
    {
      if parent[u] != u {
        var r0 := Find(parent[u]);
        CompressKeepsRoots(parent[..], rank[..], u);
        parent[u] := r0;
      }
      r := parent[u];
    }

    /**
      `union(u, v)`: true exactly when `u` and `v` had different roots; then the
      root of lower rank is linked under the other (under `u`'s root on a tie,
      whose rank then grows by one) and the two sets become one.
     */
    method Union(u: nat, v: nat) returns (merged: bool)
      requires Valid() && u < n && v < n
      modifies parent, rank
      ensures Valid()
      ensures merged == (old(RootOf(u)) != old(RootOf(v)))
      ensures !merged ==> rank[..] == old(rank[..]) && forall x :: 0 <= x < n ==> RootOf(x) == old(RootOf(x))
      ensures merged ==>
        var ru, rv := old(RootOf(u)), old(RootOf(v));
        var w := if old(rank[ru]) >= old(rank[rv]) then ru else rv;
        && (forall x :: 0 <= x < n ==> RootOf(x) == if old(RootOf(x)) == ru || old(RootOf(x)) == rv then w else old(RootOf(x)))
        && rank[..] == if old(rank[ru]) == old(rank[rv]) then old(rank[..])[ru := old(rank[ru]) + 1] else old(rank[..])
    {
      var rootU := Find(u);
      var rootV := Find(v);
      ghost var p, rk := parent[..], rank[..];
      assert forall x :: 0 <= x < n ==> Root(p, rk, x) == old(RootOf(x));
      if rootU != rootV {
        UnionRoots(p, rk, rootU, rootV);
        if rank[rootU] > rank[rootV] {
          parent[rootV] := rootU;
        } else if rank[rootU] < rank[rootV] {
          parent[rootU] := rootV;
        } else {
          parent[rootV] := rootU;
          rank[rootU] := rank[rootU] + 1;
          assert rank[..] == rk[rootU := rk[rootU] + 1];
        }
        assert parent[..] == if rk[rootU] >= rk[rootV] then p[rootV := rootU] else p[rootU := rootV];
        return true;
      }
      return false;
    }

    /**
      `getDisjointSets()`: calls `find` on every node (compressing paths on the
      way) and groups the nodes by root. `Object.values` lists integer keys in
      increasing order, so the groups come ordered by their root.
     */
    method GetDisjointSets() returns (sets: seq<seq<nat>>)
      requires Valid()
      modifies parent
      ensures Valid()
      ensures forall x :: 0 <= x < n ==> RootOf(x) == old(RootOf(x))
      ensures Roots(parent[..], rank[..]) == old(Roots(parent[..], rank[..]))
      ensures GroupsBy(n, sets, Roots(parent[..], rank[..]))
    {
      ghost var tag := Roots(parent[..], rank[..]);
      var buckets: seq<seq<nat>> := seq(n, _ => []);
      BucketsEmpty(n, tag);
      var i := 0;
      while i < n
        invariant 0 <= i <= n
        invariant Valid()
        invariant forall x :: 0 <= x < n ==> RootOf(x) == old(RootOf(x)) == tag[x]
        invariant Buckets(n, buckets, tag, i)
      {
        var root := Find(i);
        BucketsPush(n, buckets, tag, i);
        buckets := buckets[root := buckets[root] + [i]];
        i := i + 1;
      }
      sets := NonEmptyBuckets(n, buckets, tag);
      assert Roots(parent[..], rank[..]) == tag;
    }

    /**
      `findRoot(node, parent)`: follows the parent links without changing them
      and arrives where `find` would.
     */
    method FindRoot(node: nat) returns (r: nat)
      requires Valid() && node < n
      ensures r == RootOf(node)
      ensures r < n && parent[r] == r
    {
      r := node;
      while parent[r] != r
        invariant r < n && RootOf(r) == RootOf(node)
        decreases MaxRank(rank[..]) - rank[r]
      {
        r := parent[r];
      }
    }
  }
}
