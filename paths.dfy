/** Path reconstruction in src/test/java/BatchJsonTests.java:
    `restorePath` walks parent links back from the best end, and
    `componentPathToVertexPath` turns a path of components into a vertex
    path by choosing, for each consecutive pair of components, the
    lexicographically smallest original edge between them. */
module Paths {
  import opened Common
  import opened Relaxation
  import opened OrderedPass

  // ---------------------------------------------------------------------
  // restorePath

  /** Every parent link is -1 or names a vertex of strictly smaller
      rank, so following parents always stops. */
  ghost predicate Ranked(parent: seq<int>, rank: seq<nat>) {
    |rank| == |parent| &&
    forall v :: 0 <= v < |parent| && parent[v] != -1 ==>
      0 <= parent[v] < |parent| && rank[parent[v]] < rank[v]
  }

  /** `path` is a non-empty list of vertices, each the parent of the next. */
  ghost predicate ParentChain(parent: seq<int>, path: seq<int>) {
    && |path| > 0
    && (forall i :: 0 <= i < |path| ==> 0 <= path[i] < |parent|)
    && (forall i :: 0 <= i < |path| - 1 ==> parent[path[i + 1]] == path[i])
  }

  /** `restorePath(parent, end)`: empty for a negative end; otherwise the
      vertices from the root of `end`'s parent chain (the vertex whose
      parent is -1) down to `end`, with ranks strictly increasing, so
      without repetitions. */
  method RestorePath(parent: seq<int>, end: int, ghost rank: seq<nat>) returns (path: seq<int>)
    requires Ranked(parent, rank) && end < |parent|
    ensures end < 0 ==> path == []
    ensures end >= 0 ==> ParentChain(parent, path) && path[|path| - 1] == end && parent[path[0]] == -1
    ensures forall i, j :: 0 <= i < j < |path| ==> rank[path[i]] < rank[path[j]]
  {
    if end < 0 {
      return [];
    }
    path := [];
    var v := end;
    while v != -1
      invariant v == -1 || 0 <= v < |parent|
      invariant path == [] ==> v == end
      invariant path != [] ==> ParentChain(parent, path) && path[|path| - 1] == end && parent[path[0]] == v
      invariant forall i, j :: 0 <= i < j < |path| ==> rank[path[i]] < rank[path[j]]
      invariant v != -1 ==> forall i :: 0 <= i < |path| ==> rank[v] < rank[path[i]]
      decreases if v == -1 then 0 else rank[v] + 1
    {
      path := [v] + path;
      v := parent[v];
    }
  }

  lemma RankedNoDup(path: seq<int>, rank: seq<nat>)
    requires forall i :: 0 <= i < |path| ==> 0 <= path[i] < |rank|
    requires forall i, j :: 0 <= i < j < |path| ==> rank[path[i]] < rank[path[j]]
    ensures NoDup(path)
  {
  }

  /** The parents of a pass over a topological order are ranked by the
      position of the vertex in the order. */
  lemma SolveRanked(g: Goal, adj: Adj, src: int, topo: seq<int>)
    requires ValidAdj(adj) && 0 <= src < |adj| && InRange(topo, |adj|) && TopoOrder(adj, topo)
    ensures Ranked(Solve(g, adj, src, topo).p, seq(|adj|, x => Rank(topo, x)))
  {
    SolveParentsInOrder(g, adj, src, topo);
  }

  /** A vertex without a parent that was reached is the source. */
  lemma RootIsSource(g: Goal, adj: Adj, src: int, topo: seq<int>, x: int)
    requires ValidAdj(adj) && 0 <= src < |adj| && InRange(topo, |adj|) && 0 <= x < |adj|
    requires var r := Solve(g, adj, src, topo); r.p[x] == -1 && r.d[x] != Sentinel(g)
    ensures x == src && Solve(g, adj, src, topo).d[src] == 0
  {
    SolveParents(g, adj, src, topo);
  }

  /** A vertex with a parent was reached through a tight edge from it. */
  lemma ParentStep(g: Goal, adj: Adj, src: int, topo: seq<int>, x: int)
    requires ValidAdj(adj) && 0 <= src < |adj| && InRange(topo, |adj|) && TopoOrder(adj, topo)
    requires 0 <= x < |adj| && Solve(g, adj, src, topo).p[x] != -1
    ensures var r := Solve(g, adj, src, topo);
      && 0 <= r.p[x] < |adj| && r.d[r.p[x]] != Sentinel(g)
      && TightEdge(adj[r.p[x]], r.d[r.p[x]], x, r.d[x])
  {
    SolveParentsInOrder(g, adj, src, topo);
  }

  /** A restored path of a reached vertex is a witness for its distance:
      it starts at the source, whose distance is 0, and each step follows
      an edge whose weight is exactly the difference of the two distances,
      so the distance of the end is the total weight of the path. */
  lemma RestoredPathWitness(g: Goal, adj: Adj, src: int, topo: seq<int>, path: seq<int>)
    requires ValidAdj(adj) && 0 <= src < |adj| && InRange(topo, |adj|) && TopoOrder(adj, topo)
    requires var r := Solve(g, adj, src, topo);
      ParentChain(r.p, path) && r.p[path[0]] == -1 && r.d[path[|path| - 1]] != Sentinel(g)
    ensures var r := Solve(g, adj, src, topo);
      && path[0] == src && r.d[src] == 0
      && forall i :: 0 <= i < |path| - 1 ==>
           TightEdge(adj[path[i]], r.d[path[i]], path[i + 1], r.d[path[i + 1]])
  {
    var r := Solve(g, adj, src, topo);
    forall i | 0 <= i < |path| - 1
      ensures TightEdge(adj[path[i]], r.d[path[i]], path[i + 1], r.d[path[i + 1]])
      ensures r.d[path[i]] != Sentinel(g)
    {
      ParentStep(g, adj, src, topo, path[i + 1]);
    }
    RootIsSource(g, adj, src, topo, path[0]);
  }

  // ---------------------------------------------------------------------
  // componentPathToVertexPath

  /** `(u, v)` comes strictly before `(u', v')` lexicographically. */
  predicate LexLess(u: int, v: int, u': int, v': int) {
    u < u' || (u == u' && v < v')
  }

  /** The lexicographically smallest `(u, v)` among the edges from `c1` to
      `c2`, in the scan order of the source (a later edge replaces the best
      so far only when it is strictly smaller). */
  function BestEdge(edges: seq<Edge>, compOf: seq<int>, c1: int, c2: int): Option<(int, int)>
    requires EdgesIn(edges, |compOf|)
  {
    if edges == [] then None
    else
      var b := BestEdge(edges[..|edges| - 1], compOf, c1, c2);
      var e := edges[|edges| - 1];
      if Crosses(e, compOf, c1, c2) && (b.None? || LexLess(e.0, e.1, b.value.0, b.value.1))
      then Some((e.0, e.1))
      else b
  }

  /** `BestEdge` is none exactly when no edge crosses; otherwise it is one
      of the crossing edges and no crossing edge is smaller. */
  lemma {:induction false} BestEdgeMinimal(edges: seq<Edge>, compOf: seq<int>, c1: int, c2: int)
    requires EdgesIn(edges, |compOf|)
    ensures var b := BestEdge(edges, compOf, c1, c2);
      && (b.None? <==> forall k :: 0 <= k < |edges| ==> !Crosses(edges[k], compOf, c1, c2))
      && (b.Some? ==>
            && (exists k :: 0 <= k < |edges| && Crosses(edges[k], compOf, c1, c2) &&
                 (edges[k].0, edges[k].1) == b.value)
            && (forall k :: 0 <= k < |edges| && Crosses(edges[k], compOf, c1, c2) ==>
                 !LexLess(edges[k].0, edges[k].1, b.value.0, b.value.1)))
  {
    if edges != [] {
      var init := edges[..|edges| - 1];
      BestEdgeMinimal(init, compOf, c1, c2);
      var b := BestEdge(edges, compOf, c1, c2);
      var b0 := BestEdge(init, compOf, c1, c2);
      assert forall k :: 0 <= k < |init| ==> edges[k] == init[k];
      if b0.Some? {
        var k :| 0 <= k < |init| && Crosses(init[k], compOf, c1, c2) && (init[k].0, init[k].1) == b0.value;
        assert Crosses(edges[k], compOf, c1, c2) && (edges[k].0, edges[k].1) == b0.value;
      }
      if b.Some? && b != b0 {
        assert Crosses(edges[|edges| - 1], compOf, c1, c2);
      }
    }
  }

  /** The scan for the smallest crossing edge (lines 308-311), with
      `bestU == -1` meaning none found yet. */
  method ScanBestEdge(edges: seq<Edge>, compOf: seq<int>, c1: int, c2: int) returns (bestU: int, bestV: int)
    requires EdgesIn(edges, |compOf|)
    ensures var b := BestEdge(edges, compOf, c1, c2);
      if b.None? then bestU == -1 else (bestU, bestV) == b.value && bestU >= 0
  {
    bestU, bestV := -1, -1;
    for k := 0 to |edges|
      invariant var b := BestEdge(edges[..k], compOf, c1, c2);
        if b.None? then bestU == -1 else (bestU, bestV) == b.value && bestU >= 0
    {
      assert edges[..k + 1][..k] == edges[..k];
      var e := edges[k];
      if compOf[e.0] == c1 && compOf[e.1] == c2 {
        if bestU == -1 || e.0 < bestU || (e.0 == bestU && e.1 < bestV) {
          bestU, bestV := e.0, e.1;
        }
      }
    }
    assert edges[..|edges|] == edges;
  }

  /** One step of the walk: when an edge `(u, v)` was found, `u` is added
      unless it is already the last vertex, then `v`. */
  function Extend(out: seq<int>, b: Option<(int, int)>): (r: seq<int>)
  {
    if b.None? then out
    else
      var u, v := b.value.0, b.value.1;
      (if out == [] || out[|out| - 1] != u then out + [u] else out) + [v]
  }

  /** The vertex path after the first `i` consecutive pairs of `compPath`. */
  function WalkUpTo(compPath: seq<int>, compOf: seq<int>, src: int, edges: seq<Edge>, i: nat): seq<int>
    requires EdgesIn(edges, |compOf|) && i < |compPath|
  {
    if i == 0 then [src]
    else Extend(WalkUpTo(compPath, compOf, src, edges, i - 1),
                BestEdge(edges, compOf, compPath[i - 1], compPath[i]))
  }

  /** The whole vertex path; empty for an empty component path. */
  function VertexPath(compPath: seq<int>, compOf: seq<int>, src: int, edges: seq<Edge>): seq<int>
    requires EdgesIn(edges, |compOf|)
  {
    if compPath == [] then [] else WalkUpTo(compPath, compOf, src, edges, |compPath| - 1)
  }

  /** `componentPathToVertexPath(compPath, compOf, src, edges)`. */
  method ComponentPathToVertexPath(compPath: seq<int>, compOf: seq<int>, src: int, edges: seq<Edge>)
    returns (out: seq<int>)
    requires EdgesIn(edges, |compOf|)
    ensures out == VertexPath(compPath, compOf, src, edges)
  {
    if compPath == [] {
      return [];
    }
    out := [src];
    var cur := src;
    var i := 0;
    while i + 1 < |compPath|
      invariant 0 <= i < |compPath|
      invariant out == WalkUpTo(compPath, compOf, src, edges, i)
    {
      var c1, c2 := compPath[i], compPath[i + 1];
      var bestU, bestV := ScanBestEdge(edges, compOf, c1, c2);
      if bestU != -1 {
        if out == [] || out[|out| - 1] != bestU {
          out := out + [bestU];
        }
        out := out + [bestV];
        cur := bestV;
      }
      i := i + 1;
    }
  }

  /** The shape of a vertex path: it starts at `src`, has at most two
      vertices per consecutive component pair beyond that, every later
      vertex lies in a component of the path, and when the last pair of
      components is joined by an edge, the path ends inside the last
      component. */
  lemma {:induction false} WalkShape(compPath: seq<int>, compOf: seq<int>, src: int, edges: seq<Edge>, i: nat)
    requires EdgesIn(edges, |compOf|) && i < |compPath|
    ensures var out := WalkUpTo(compPath, compOf, src, edges, i);
      && 1 <= |out| <= 1 + 2 * i && out[0] == src
      && (forall j :: 1 <= j < |out| ==>
            0 <= out[j] < |compOf| && exists c :: 0 <= c <= i && compOf[out[j]] == compPath[c])
      && (i > 0 && BestEdge(edges, compOf, compPath[i - 1], compPath[i]).Some? ==>
            compOf[out[|out| - 1]] == compPath[i])
  {
    if i > 0 {
      WalkShape(compPath, compOf, src, edges, i - 1);
      var prev := WalkUpTo(compPath, compOf, src, edges, i - 1);
      var b := BestEdge(edges, compOf, compPath[i - 1], compPath[i]);
      if b.Some? {
        BestEdgeMinimal(edges, compOf, compPath[i - 1], compPath[i]);
        var out := WalkUpTo(compPath, compOf, src, edges, i);
        forall j | 1 <= j < |out|
          ensures 0 <= out[j] < |compOf| && exists c :: 0 <= c <= i && compOf[out[j]] == compPath[c]
        {
          if j < |prev| {
            assert out[j] == prev[j];
            var c :| 0 <= c <= i - 1 && compOf[prev[j]] == compPath[c];
          } else if out[j] == b.value.1 {
            assert compOf[out[j]] == compPath[i];
          } else {
            assert compOf[out[j]] == compPath[i - 1];
          }
        }
      }
    }
  }

  lemma VertexPathShape(compPath: seq<int>, compOf: seq<int>, src: int, edges: seq<Edge>)
    requires EdgesIn(edges, |compOf|)
    ensures var out := VertexPath(compPath, compOf, src, edges);
      && (out == [] <==> compPath == [])
      && (compPath != [] ==> out[0] == src && |out| <= 2 * |compPath| - 1)
      && (forall j :: 1 <= j < |out| ==>
            0 <= out[j] < |compOf| && exists c :: 0 <= c < |compPath| && compOf[out[j]] == compPath[c])
      && (|compPath| >= 2 &&
          BestEdge(edges, compOf, compPath[|compPath| - 2], compPath[|compPath| - 1]).Some? ==>
            compOf[out[|out| - 1]] == compPath[|compPath| - 1])
  {
    if compPath != [] {
      WalkShape(compPath, compOf, src, edges, |compPath| - 1);
    }
  }
}
