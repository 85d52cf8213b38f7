/** What a relaxation pass guarantees when the order it follows is
    topological: every edge between two entries of the order points
    forward. Then a vertex's distance is final by the time its turn comes,
    so at the end every out-edge of a reached entry satisfies the
    relaxation inequality, every parent link follows a tight edge from
    an earlier entry, and the relaxation counter is the total out-degree of
    the reached entries. */
module OrderedPass {
  import opened Common
  import opened Relaxation

  /** Every edge between two entries of the order goes forward (so there
      is no self-loop on an entry either). */
  predicate TopoOrder(adj: Adj, topo: seq<int>)
    requires ValidAdj(adj) && InRange(topo, |adj|)
  {
    forall i, j, k :: 0 <= i < |topo| && 0 <= j < |topo| && 0 <= k < |adj[topo[i]]| ==>
      (adj[topo[i]][k].0 == topo[j] ==> i < j)
  }

  /** The total out-degree of the entries of the order whose distance in
      `d` is not the sentinel. */
  function ReachedDegree(g: Goal, adj: Adj, d: seq<int>, topo: seq<int>): nat
    requires InRange(topo, |adj|) && |d| == |adj|
  {
    if topo == [] then 0
    else
      var u := topo[|topo| - 1];
      ReachedDegree(g, adj, d, topo[..|topo| - 1]) + (if d[u] != Sentinel(g) then |adj[u]| else 0)
  }

  /** Out-edges of the first `i` entries satisfy the relaxation inequality
      when the entry is reached. */
  ghost predicate EdgesSettled(g: Goal, adj: Adj, topo: seq<int>, i: int, s: Pass)
    requires ValidAdj(adj) && InRange(topo, |adj|) && 0 <= i <= |topo| && Fits(|adj|, s)
  {
    forall j, k :: 0 <= j < i && 0 <= k < |adj[topo[j]]| && s.d[topo[j]] != Sentinel(g) ==>
      NoWorse(g, s.d[adj[topo[j]][k].0], s.d[topo[j]] + adj[topo[j]][k].1)
  }

  /** One of the edges in `es` leads to `x` and has weight `dx - du`. */
  predicate TightEdge(es: seq<(int, int)>, du: int, x: int, dx: int) {
    exists k :: 0 <= k < |es| && es[k].0 == x && dx == du + es[k].1
  }

  /** Every parent link names one of the first `i` entries, which was
      reached, with a tight edge to the vertex. */
  ghost predicate ParentsSettled(g: Goal, adj: Adj, topo: seq<int>, i: int, s: Pass)
    requires ValidAdj(adj) && InRange(topo, |adj|) && 0 <= i <= |topo| && Fits(|adj|, s)
  {
    forall x :: 0 <= x < |adj| && s.p[x] != -1 ==>
      && 0 <= s.p[x] < |adj| && Rank(topo, s.p[x]) < i && s.d[s.p[x]] != Sentinel(g)
      && TightEdge(adj[s.p[x]], s.d[s.p[x]], x, s.d[x])
  }

  // ---------------------------------------------------------------------
  // What one vertex's relaxations do

  /** Relaxing `u`'s edges only improves distances, and leaves distance and
      parent alone at every vertex that is not a target. */
  lemma {:induction false} RelaxEdgesLocal(g: Goal, s: Pass, u: int, es: seq<(int, int)>)
    requires |s.p| == |s.d| && 0 <= u < |s.d|
    requires forall k :: 0 <= k < |es| ==> 0 <= es[k].0 < |s.d|
    ensures var r := RelaxEdges(g, s, u, es);
      forall x :: 0 <= x < |s.d| ==>
        NoWorse(g, r.d[x], s.d[x]) &&
        ((forall k :: 0 <= k < |es| ==> es[k].0 != x) ==> r.d[x] == s.d[x] && r.p[x] == s.p[x])
  {
    if es != [] {
      RelaxEdgesLocal(g, s, u, es[..|es| - 1]);
    }
  }

  /** When `u` is not its own target, afterwards every edge of `es`
      satisfies the relaxation inequality from `u`'s unchanged distance. */
  lemma {:induction false} RelaxEdgesIneq(g: Goal, s: Pass, u: int, es: seq<(int, int)>)
    requires |s.p| == |s.d| && 0 <= u < |s.d|
    requires forall k :: 0 <= k < |es| ==> 0 <= es[k].0 < |s.d| && es[k].0 != u
    ensures var r := RelaxEdges(g, s, u, es);
      r.d[u] == s.d[u] &&
      forall k :: 0 <= k < |es| ==> NoWorse(g, r.d[es[k].0], s.d[u] + es[k].1)
  {
    if es != [] {
      var init := es[..|es| - 1];
      RelaxEdgesIneq(g, s, u, init);
      var t := RelaxEdges(g, s, u, init);
      RelaxEdgesLocal(g, t, u, [es[|es| - 1]]);
      assert RelaxEdges(g, t, u, [es[|es| - 1]]) == RelaxEdges(g, s, u, es) by {
        assert [es[|es| - 1]][..0] == [];
      }
    }
  }

  /** When `u` is not its own target, every vertex either kept its
      distance and parent, or got `u` as parent through a tight edge. */
  lemma {:induction false} RelaxEdgesTight(g: Goal, s: Pass, u: int, es: seq<(int, int)>)
    requires |s.p| == |s.d| && 0 <= u < |s.d|
    requires forall k :: 0 <= k < |es| ==> 0 <= es[k].0 < |s.d| && es[k].0 != u
    ensures var r := RelaxEdges(g, s, u, es);
      forall x :: 0 <= x < |s.d| ==>
        (r.d[x] == s.d[x] && r.p[x] == s.p[x]) || (r.p[x] == u && TightEdge(es, s.d[u], x, r.d[x]))
  {
    if es != [] {
      var init := es[..|es| - 1];
      RelaxEdgesTight(g, s, u, init);
      RelaxEdgesIneq(g, s, u, init);
      var t := RelaxEdges(g, s, u, init);
      var r := RelaxEdges(g, s, u, es);
      forall x | 0 <= x < |s.d| && !(r.d[x] == s.d[x] && r.p[x] == s.p[x])
        ensures r.p[x] == u && TightEdge(es, s.d[u], x, r.d[x])
      {
        if x == es[|es| - 1].0 {
          if r.d[x] != t.d[x] || r.p[x] != t.p[x] {
            assert es[|es| - 1].0 == x && r.d[x] == s.d[u] + es[|es| - 1].1;
          } else {
            var k :| 0 <= k < |init| && init[k].0 == x && t.d[x] == s.d[u] + init[k].1;
            assert es[k] == init[k];
          }
        } else {
          var k :| 0 <= k < |init| && init[k].0 == x && t.d[x] == s.d[u] + init[k].1;
          assert es[k] == init[k];
        }
      }
    }
  }

  // ---------------------------------------------------------------------
  // One turn of the outer loop over a topological order

  /** No entry at or before position `i` is a target of the entry at `i`. */
  lemma NoBackEdge(adj: Adj, topo: seq<int>, i: int)
    requires ValidAdj(adj) && InRange(topo, |adj|) && TopoOrder(adj, topo) && 0 <= i < |topo|
    ensures forall j, k :: 0 <= j <= i && 0 <= k < |adj[topo[i]]| ==> adj[topo[i]][k].0 != topo[j]
  {
  }

  /** The `i`-th turn keeps the distances and parents of the first `i + 1`
      entries and only improves the others. */
  lemma StepFrame(g: Goal, adj: Adj, topo: seq<int>, i: int, t: Pass)
    requires ValidAdj(adj) && InRange(topo, |adj|) && TopoOrder(adj, topo) && 0 <= i < |topo|
    requires Fits(|adj|, t)
    ensures var r := Step(g, adj, t, topo[i]);
      && (forall x :: 0 <= x < |adj| ==> NoWorse(g, r.d[x], t.d[x]))
      && (forall j :: 0 <= j <= i ==> r.d[topo[j]] == t.d[topo[j]] && r.p[topo[j]] == t.p[topo[j]])
  {
    var u := topo[i];
    if t.d[u] != Sentinel(g) {
      RelaxEdgesLocal(g, t, u, adj[u]);
      NoBackEdge(adj, topo, i);
    }
  }

  lemma StepEdges(g: Goal, adj: Adj, topo: seq<int>, i: int, t: Pass)
    requires ValidAdj(adj) && InRange(topo, |adj|) && TopoOrder(adj, topo) && 0 <= i < |topo|
    requires Fits(|adj|, t) && EdgesSettled(g, adj, topo, i, t)
    ensures EdgesSettled(g, adj, topo, i + 1, Step(g, adj, t, topo[i]))
  {
    var u := topo[i];
    var r := Step(g, adj, t, u);
    StepFrame(g, adj, topo, i, t);
    if t.d[u] != Sentinel(g) {
      NoBackEdge(adj, topo, i);
      RelaxEdgesIneq(g, t, u, adj[u]);
    }
    forall j, k | 0 <= j < i && 0 <= k < |adj[topo[j]]| && r.d[topo[j]] != Sentinel(g)
      ensures NoWorse(g, r.d[adj[topo[j]][k].0], r.d[topo[j]] + adj[topo[j]][k].1)
    {
      var x := adj[topo[j]][k].0;
      assert NoWorse(g, t.d[x], t.d[topo[j]] + adj[topo[j]][k].1);
    }
  }

  lemma StepParents(g: Goal, adj: Adj, topo: seq<int>, i: int, t: Pass)
    requires ValidAdj(adj) && InRange(topo, |adj|) && TopoOrder(adj, topo) && 0 <= i < |topo|
    requires Fits(|adj|, t) && ParentsSettled(g, adj, topo, i, t)
    ensures ParentsSettled(g, adj, topo, i + 1, Step(g, adj, t, topo[i]))
  {
    var u := topo[i];
    var r := Step(g, adj, t, u);
    StepFrame(g, adj, topo, i, t);
    if t.d[u] != Sentinel(g) {
      NoBackEdge(adj, topo, i);
      RelaxEdgesTight(g, t, u, adj[u]);
    }
    forall x | 0 <= x < |adj| && r.p[x] != -1
      ensures 0 <= r.p[x] < |adj| && Rank(topo, r.p[x]) < i + 1 && r.d[r.p[x]] != Sentinel(g)
      ensures TightEdge(adj[r.p[x]], r.d[r.p[x]], x, r.d[x])
    {
      if r.d[x] == t.d[x] && r.p[x] == t.p[x] {
        var y := t.p[x];
        assert topo[Rank(topo, y)] == y;
        assert r.d[y] == t.d[y];
      } else {
        assert r.d[u] == t.d[u];
        assert Rank(topo, u) <= i;
      }
    }
  }

  /** The processed reached out-degree depends only on the distances of
      the entries. */
  lemma {:induction false} ReachedDegreeFrame(g: Goal, adj: Adj, d: seq<int>, e: seq<int>, topo: seq<int>)
    requires InRange(topo, |adj|) && |d| == |adj| && |e| == |adj|
    requires forall j :: 0 <= j < |topo| ==> d[topo[j]] == e[topo[j]]
    ensures ReachedDegree(g, adj, d, topo) == ReachedDegree(g, adj, e, topo)
  {
    if topo != [] {
      ReachedDegreeFrame(g, adj, d, e, topo[..|topo| - 1]);
    }
  }

  lemma StepCount(g: Goal, adj: Adj, topo: seq<int>, i: int, t: Pass)
    requires ValidAdj(adj) && InRange(topo, |adj|) && TopoOrder(adj, topo) && 0 <= i < |topo|
    requires Fits(|adj|, t) && t.relax == ReachedDegree(g, adj, t.d, topo[..i])
    ensures var r := Step(g, adj, t, topo[i]);
      r.relax == ReachedDegree(g, adj, r.d, topo[..i + 1])
  {
    var u := topo[i];
    var r := Step(g, adj, t, u);
    StepFrame(g, adj, topo, i, t);
    if t.d[u] != Sentinel(g) {
      RelaxEdgesCounts(g, t, u, adj[u]);
    }
    assert topo[..i + 1][..i] == topo[..i];
    ReachedDegreeFrame(g, adj, r.d, t.d, topo[..i]);
  }

  lemma {:induction false} SolveSettled(g: Goal, adj: Adj, src: int, topo: seq<int>, i: int)
    requires ValidAdj(adj) && 0 <= src < |adj| && InRange(topo, |adj|) && TopoOrder(adj, topo)
    requires 0 <= i <= |topo|
    ensures var s := Solve(g, adj, src, topo[..i]);
      && EdgesSettled(g, adj, topo, i, s) && ParentsSettled(g, adj, topo, i, s)
      && s.relax == ReachedDegree(g, adj, s.d, topo[..i])
  {
    if i > 0 {
      SolveSettled(g, adj, src, topo, i - 1);
      var t := Solve(g, adj, src, topo[..i - 1]);
      assert topo[..i][..i - 1] == topo[..i - 1];
      assert Solve(g, adj, src, topo[..i]) == Step(g, adj, t, topo[i - 1]);
      StepEdges(g, adj, topo, i - 1, t);
      StepParents(g, adj, topo, i - 1, t);
      StepCount(g, adj, topo, i - 1, t);
    }
  }

  /** After a pass over a topological order, every out-edge `(v, w)` of
      a reached entry `u` satisfies `d[v] <= d[u] + w` for shortest and
      `d[v] >= d[u] + w` for longest paths. */
  lemma SolveEdges(g: Goal, adj: Adj, src: int, topo: seq<int>)
    requires ValidAdj(adj) && 0 <= src < |adj| && InRange(topo, |adj|) && TopoOrder(adj, topo)
    ensures var r := Solve(g, adj, src, topo);
      forall u, k :: 0 <= u < |adj| && u in topo && 0 <= k < |adj[u]| && r.d[u] != Sentinel(g) ==>
        NoWorse(g, r.d[adj[u][k].0], r.d[u] + adj[u][k].1)
  {
    var r := Solve(g, adj, src, topo);
    assert topo[..|topo|] == topo;
    SolveSettled(g, adj, src, topo, |topo|);
    forall u, k | 0 <= u < |adj| && u in topo && 0 <= k < |adj[u]| && r.d[u] != Sentinel(g)
      ensures NoWorse(g, r.d[adj[u][k].0], r.d[u] + adj[u][k].1)
    {
      var j := Rank(topo, u);
      assert topo[j] == u;
    }
  }

  /** After a pass over a topological order, every parent link names a
      reached entry of the order ranked strictly before the vertex, with a
      tight edge to the vertex. */
  lemma SolveParentsInOrder(g: Goal, adj: Adj, src: int, topo: seq<int>)
    requires ValidAdj(adj) && 0 <= src < |adj| && InRange(topo, |adj|) && TopoOrder(adj, topo)
    ensures var r := Solve(g, adj, src, topo);
      forall x :: 0 <= x < |adj| && r.p[x] != -1 ==>
        && 0 <= r.p[x] < |adj| && r.p[x] in topo && Rank(topo, r.p[x]) < Rank(topo, x)
        && r.d[r.p[x]] != Sentinel(g)
        && TightEdge(adj[r.p[x]], r.d[r.p[x]], x, r.d[x])
  {
    assert topo[..|topo|] == topo;
    SolveSettled(g, adj, src, topo, |topo|);
    var r := Solve(g, adj, src, topo);
    forall x | 0 <= x < |adj| && r.p[x] != -1
      ensures r.p[x] in topo && Rank(topo, r.p[x]) < Rank(topo, x)
    {
      EdgeRanks(adj, topo, r.p[x], x, r.d[r.p[x]], r.d[x]);
    }
  }

  /** Over a topological order, the source of an edge from an entry is
      ranked strictly before its target. */
  lemma EdgeRanks(adj: Adj, topo: seq<int>, y: int, x: int, dy: int, dx: int)
    requires ValidAdj(adj) && InRange(topo, |adj|) && TopoOrder(adj, topo)
    requires 0 <= y < |adj| && Rank(topo, y) < |topo| && TightEdge(adj[y], dy, x, dx)
    ensures y in topo && Rank(topo, y) < Rank(topo, x)
  {
    var j := Rank(topo, y);
    var k :| 0 <= k < |adj[y]| && adj[y][k].0 == x && dx == dy + adj[y][k].1;
    var rx := Rank(topo, x);
    if rx < |topo| {
      assert adj[topo[j]][k].0 == topo[rx];
    }
  }

  /** After a pass over a topological order, the relaxation counter is the
      total out-degree of the reached entries. */
  lemma SolveCount(g: Goal, adj: Adj, src: int, topo: seq<int>)
    requires ValidAdj(adj) && 0 <= src < |adj| && InRange(topo, |adj|) && TopoOrder(adj, topo)
    ensures var r := Solve(g, adj, src, topo);
      r.relax == ReachedDegree(g, adj, r.d, topo)
  {
    assert topo[..|topo|] == topo;
    SolveSettled(g, adj, src, topo, |topo|);
  }
}
