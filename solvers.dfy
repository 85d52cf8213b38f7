/** The condensation solvers `shortestOnDag` and `longestOnDag` of
    src/test/java/BatchJsonTests.java: the same relaxation pass as
    `DAGShortestPaths`, but also recording parents, counting scanned edges
    and strict improvements, and picking the best reached component. */
module CondensationSolvers {
  import opened Common
  import opened Relaxation

  /** `SPRes`: distances, parents (-1 for none), the best end and its
      value, and the relaxation and update counters. */
  datatype SPRes = SPRes(
    dist: seq<int>,
    parent: seq<int>,
    bestEnd: int,
    bestVal: int,
    relaxations: int,
    updated: int)

  /** `end` is the first position whose value is best among all values that
      beat the sentinel, and `val` that value; or no value beats the
      sentinel, `end` is -1 and `val` is the sentinel. */
  predicate BestOf(g: Goal, d: seq<int>, end: int, val: int) {
    if end == -1 then
      val == Sentinel(g) && forall i :: 0 <= i < |d| ==> !Beats(g, d[i], Sentinel(g))
    else
      && 0 <= end < |d| && val == d[end] && Beats(g, val, Sentinel(g))
      && (forall i :: 0 <= i < |d| ==> NoWorse(g, val, d[i]))
      && (forall i :: 0 <= i < end ==> Beats(g, val, d[i]))
  }

  /** The scan for the best end (lines 272-273 and 289-290): starting from
      (-1, sentinel), a strictly better value moves the best end. */
  method Best(g: Goal, d: seq<int>) returns (end: int, val: int)
    ensures BestOf(g, d, end, val)
  {
    end, val := -1, Sentinel(g);
    for i := 0 to |d|
      invariant BestOf(g, d[..i], end, val)
    {
      if Beats(g, d[i], val) {
        end, val := i, d[i];
      }
    }
    assert d[..|d|] == d;
  }

  /** Only one position and value satisfy `BestOf`. */
  lemma BestOfUnique(g: Goal, d: seq<int>, e1: int, v1: int, e2: int, v2: int)
    requires BestOf(g, d, e1, v1) && BestOf(g, d, e2, v2)
    ensures e1 == e2 && v1 == v2
  {
  }

  /** The inner loop of both solvers: every scanned edge counts as a
      relaxation; a strictly better candidate through the current distance
      of `u` stores it, records `u` as parent and counts as an update. */
  method ScanEdges(g: Goal, d: array<int>, p: array<int>, u: int, es: seq<(int, int)>,
                   relax0: int, upd0: int, ghost t: Pass)
    returns (relax: int, upd: int)
    requires d != p && d.Length == p.Length && d[..] == t.d && p[..] == t.p
    requires relax0 == t.relax && upd0 == t.upd && 0 <= u < d.Length
    requires forall k :: 0 <= k < |es| ==> 0 <= es[k].0 < d.Length
    modifies d, p
    ensures var r := RelaxEdges(g, t, u, es);
      d[..] == r.d && p[..] == r.p && relax == r.relax && upd == r.upd
  {
    relax, upd := relax0, upd0;
    var k := 0;
    while k < |es|
      invariant 0 <= k <= |es|
      invariant var r := RelaxEdges(g, t, u, es[..k]);
        d[..] == r.d && p[..] == r.p && relax == r.relax && upd == r.upd
    {
      assert es[..k + 1][..k] == es[..k];
      var v, w := es[k].0, es[k].1;
      relax := relax + 1;
      if Beats(g, d[u] + w, d[v]) {
        d[v] := d[u] + w;
        p[v] := u;
        upd := upd + 1;
      }
      k := k + 1;
    }
    assert es[..k] == es;
  }

  /** `shortestOnDag`: distances start at `INF` except 0 at `src`, parents
      at -1; a component whose distance is `>= INF` is skipped. The result
      is the `Solve` pass for shortest paths, and the best end is the first
      component with the smallest distance below `INF`. */
  method ShortestOnDag(dagW: Adj, topo: seq<int>, src: int) returns (r: SPRes)
    requires ValidAdj(dagW) && 0 <= src < |dagW| && InRange(topo, |dagW|)
    ensures var s := Solve(Shortest, dagW, src, topo);
      r.dist == s.d && r.parent == s.p && r.relaxations == s.relax && r.updated == s.upd
    ensures BestOf(Shortest, r.dist, r.bestEnd, r.bestVal)
  {
    var n := |dagW|;
    var d := new int[n](_ => INF);
    d[src] := 0;
    var p := new int[n](_ => -1);
    var relax, upd := 0, 0;
    assert d[..] == Start(Shortest, n, src).d && p[..] == Start(Shortest, n, src).p;
    ghost var s := Start(Shortest, n, src);
    for i := 0 to |topo|
      invariant s == RelaxAll(Shortest, dagW, Start(Shortest, n, src), topo[..i])
      invariant d[..] == s.d && p[..] == s.p && relax == s.relax && upd == s.upd
    {
      var u := topo[i];
      SolveParents(Shortest, dagW, src, topo[..i]);
      // distances never exceed INF, so `d[u] >= INF` means `d[u] == INF`
      if d[u] < INF {
        relax, upd := ScanEdges(Shortest, d, p, u, dagW[u], relax, upd, s);
      }
      s := Step(Shortest, dagW, s, u);
      assert topo[..i + 1][..i] == topo[..i];
    }
    assert topo[..|topo|] == topo;
    var bestEnd, bestVal := Best(Shortest, d[..]);
    r := SPRes(d[..], p[..], bestEnd, bestVal, relax, upd);
  }

  /** `longestOnDag`: distances start at `Integer.MIN_VALUE` except 0 at
      `src`, parents at -1; a component still at `MIN_VALUE` is skipped.
      The result is the `Solve` pass for longest paths, and the best end is
      the first component with the largest distance above `MIN_VALUE`. */
  method LongestOnDag(dagW: Adj, topo: seq<int>, src: int) returns (r: SPRes)
    requires ValidAdj(dagW) && 0 <= src < |dagW| && InRange(topo, |dagW|)
    ensures var s := Solve(Longest, dagW, src, topo);
      r.dist == s.d && r.parent == s.p && r.relaxations == s.relax && r.updated == s.upd
    ensures BestOf(Longest, r.dist, r.bestEnd, r.bestVal)
  {
    var n := |dagW|;
    var d := new int[n](_ => MINF);
    d[src] := 0;
    var p := new int[n](_ => -1);
    var relax, upd := 0, 0;
    assert d[..] == Start(Longest, n, src).d && p[..] == Start(Longest, n, src).p;
    ghost var s := Start(Longest, n, src);
    for i := 0 to |topo|
      invariant s == RelaxAll(Longest, dagW, Start(Longest, n, src), topo[..i])
      invariant d[..] == s.d && p[..] == s.p && relax == s.relax && upd == s.upd
    {
      var u := topo[i];
      if d[u] != MINF {
        relax, upd := ScanEdges(Longest, d, p, u, dagW[u], relax, upd, s);
      }
      s := Step(Longest, dagW, s, u);
      assert topo[..i + 1][..i] == topo[..i];
    }
    assert topo[..|topo|] == topo;
    var bestEnd, bestVal := Best(Longest, d[..]);
    r := SPRes(d[..], p[..], bestEnd, bestVal, relax, upd);
  }

  /** A pass from a valid source always has a best end: the source itself
      is at least as good as 0, which beats either sentinel. So the
      reported value is never the sentinel, and `max_distance` is never
      null. */
  lemma SolveHasBest(g: Goal, adj: Adj, src: int, topo: seq<int>, end: int, val: int)
    requires ValidAdj(adj) && 0 <= src < |adj| && InRange(topo, |adj|)
    requires BestOf(g, Solve(g, adj, src, topo).d, end, val)
    ensures 0 <= end < |adj| && val != Sentinel(g) && NoWorse(g, val, 0)
  {
    var d := Solve(g, adj, src, topo).d;
    SolveParents(g, adj, src, topo);
    if end == -1 {
      assert Beats(g, d[src], Sentinel(g));
      assert false;
    }
  }
}
