/** `DAGShortestPaths` (src/main/java/graph/dagsp/DAGShortestPaths.java):
    an adjacency list of weighted edges over vertices `0 .. n-1`, and
    single-source shortest and longest distances computed by relaxing the
    out-edges of each vertex of a caller-supplied order. Both methods are
    proved to compute the distances of the `Relaxation.Solve` pass; what
    that pass guarantees is proved in `Relaxation`, `Reachability` and
    `OrderedPass`. */
module DagShortestPaths {
  import opened Common
  import opened Relaxation

  /** `Math.min` for shortest and `Math.max` for longest distances: the
      candidate replaces the current value exactly when it is strictly
      better. */
  function Better(g: Goal, cur: int, cand: int): (r: int)
    ensures r == if Beats(g, cand, cur) then cand else cur
  {
    if g.Shortest? then Min(cur, cand) else Max(cur, cand)
  }

  /** The inner loop of both methods: relaxes the out-edges `es` of `u` in
      order, reading the distance of `u` afresh for each edge. */
  method RelaxOut(g: Goal, dist: array<int>, u: int, es: seq<(int, int)>, ghost t: Pass)
    requires Fits(dist.Length, t) && dist[..] == t.d && 0 <= u < dist.Length
    requires forall k :: 0 <= k < |es| ==> 0 <= es[k].0 < dist.Length
    modifies dist
    ensures dist[..] == RelaxEdges(g, t, u, es).d
  {
    var k := 0;
    while k < |es|
      invariant 0 <= k <= |es|
      invariant dist[..] == RelaxEdges(g, t, u, es[..k]).d
    {
      var v, w := es[k].0, es[k].1;
      RelaxEdgesNext(g, t, u, es, k);
      dist[v] := Better(g, dist[v], dist[u] + w);
      k := k + 1;
    }
    assert es[..k] == es;
  }

  class DAGShortestPaths {
    const n: nat
    /** `adj[u]` lists the out-edges of `u` as (target, weight) pairs, in
        insertion order. */
    var adj: Adj

    ghost predicate Valid()
      reads this
    {
      |adj| == n && ValidAdj(adj)
    }

    /** `n` vertices, no edges. */
    constructor(n: nat)
      ensures Valid() && this.n == n
      ensures adj == seq(n, _ => [])
    {
      this.n := n;
      adj := seq(n, _ => []);
    }

    /** Appends the edge `(v, w)` to the out-list of `u`. */
    method AddEdge(u: int, v: int, w: int)
      requires Valid() && 0 <= u < n && 0 <= v < n
      modifies this
      ensures Valid()
      ensures adj == old(adj)[u := old(adj)[u] + [(v, w)]]
    {
      adj := adj[u := adj[u] + [(v, w)]];
    }

    /** Distances from `src` over `topo`: `INF` marks a vertex the pass
        never reached; each reached vertex of the order relaxes its edges
        with `min`. */
    method ShortestPaths(src: int, topo: seq<int>) returns (dist: array<int>)
      requires Valid() && 0 <= src < n && InRange(topo, n)
      ensures fresh(dist)
      ensures dist[..] == Solve(Shortest, adj, src, topo).d
    {
      dist := new int[n](_ => INF);
      assert forall x :: 0 <= x < n ==> dist[x] == INF;
      dist[src] := 0;
      assert forall x :: 0 <= x < n ==> dist[..][x] == Start(Shortest, n, src).d[x];
      ghost var s := Start(Shortest, n, src);
      var i := 0;
      while i < |topo|
        invariant 0 <= i <= |topo|
        invariant Fits(n, s) && s == RelaxAll(Shortest, adj, Start(Shortest, n, src), topo[..i])
        invariant dist[..] == s.d
      {
        var u := topo[i];
        if dist[u] != INF {
          RelaxOut(Shortest, dist, u, adj[u], s);
        }
        s := Step(Shortest, adj, s, u);
        assert topo[..i + 1][..i] == topo[..i];
        i := i + 1;
      }
      assert topo[..i] == topo;
    }

    /** Distances from `src` over `topo`: `Integer.MIN_VALUE` marks a vertex
        the pass never reached; each reached vertex of the order relaxes its
        edges with `max`. */
    method LongestPaths(src: int, topo: seq<int>) returns (dist: array<int>)
      requires Valid() && 0 <= src < n && InRange(topo, n)
      ensures fresh(dist)
      ensures dist[..] == Solve(Longest, adj, src, topo).d
    {
      dist := new int[n](_ => MINF);
      assert forall x :: 0 <= x < n ==> dist[x] == MINF;
      dist[src] := 0;
      assert forall x :: 0 <= x < n ==> dist[..][x] == Start(Longest, n, src).d[x];
      ghost var s := Start(Longest, n, src);
      var i := 0;
      while i < |topo|
        invariant 0 <= i <= |topo|
        invariant Fits(n, s) && s == RelaxAll(Longest, adj, Start(Longest, n, src), topo[..i])
        invariant dist[..] == s.d
      {
        var u := topo[i];
        if dist[u] != MINF {
          RelaxOut(Longest, dist, u, adj[u], s);
        }
        s := Step(Longest, adj, s, u);
        assert topo[..i + 1][..i] == topo[..i];
        i := i + 1;
      }
      assert topo[..i] == topo;
    }
  }
}
