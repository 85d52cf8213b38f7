/** Which vertices a relaxation pass reaches. `Reached` follows the order
    like the pass does but tracks only a set of vertices, not distances.
    As long as no path sum can reach a sentinel, the pass leaves the
    sentinel exactly at the vertices outside that set. */
module Reachability {
  import opened Common
  import opened Relaxation

  /** The targets of a list of out-edges. */
  function Targets(es: seq<(int, int)>): set<int> {
    set k | 0 <= k < |es| :: es[k].0
  }

  /** The source, plus the out-neighbours of each entry of the order that
      was already reached when its turn came. */
  function Reached(adj: Adj, src: int, topo: seq<int>): set<int>
    requires InRange(topo, |adj|)
  {
    if topo == [] then {src}
    else
      var r := Reached(adj, src, topo[..|topo| - 1]);
      var u := topo[|topo| - 1];
      if u in r then r + Targets(adj[u]) else r
  }

  /** The total absolute weight of a list of out-edges. */
  function EdgeAbs(es: seq<(int, int)>): nat {
    if es == [] then 0
    else
      var w := es[|es| - 1].1;
      EdgeAbs(es[..|es| - 1]) + (if w < 0 then -w else w)
  }

  /** The total absolute weight of the out-edges of the entries of the
      order; no distance a pass computes can exceed it in absolute value. */
  function AbsSum(adj: Adj, topo: seq<int>): nat
    requires InRange(topo, |adj|)
  {
    if topo == [] then 0 else AbsSum(adj, topo[..|topo| - 1]) + EdgeAbs(adj[topo[|topo| - 1]])
  }

  /** The pass state marks exactly the vertices of `R` as reached, and
      every reached distance lies within `b` of 0. */
  ghost predicate Tracks(g: Goal, n: int, s: Pass, R: set<int>, b: int) {
    Fits(n, s) &&
    forall x :: 0 <= x < n ==>
      && NoWorse(g, s.d[x], Sentinel(g))
      && (s.d[x] != Sentinel(g) <==> x in R)
      && (s.d[x] != Sentinel(g) ==> -b <= s.d[x] <= b)
  }

  lemma {:induction false} RelaxEdgesTracks(g: Goal, n: int, s: Pass, R: set<int>, b: int, u: int, es: seq<(int, int)>)
    requires Tracks(g, n, s, R, b) && 0 <= u < n && u in R
    requires forall k :: 0 <= k < |es| ==> 0 <= es[k].0 < n
    requires 0 <= b && b + EdgeAbs(es) < INF
    ensures Tracks(g, n, RelaxEdges(g, s, u, es), R + Targets(es), b + EdgeAbs(es))
  {
    if es != [] {
      var init := es[..|es| - 1];
      RelaxEdgesTracks(g, n, s, R, b, u, init);
      TargetsSnoc(es);
    }
  }

  lemma TargetsSnoc(es: seq<(int, int)>)
    requires es != []
    ensures Targets(es) == Targets(es[..|es| - 1]) + {es[|es| - 1].0}
  {
    var init := es[..|es| - 1];
    forall x | x in Targets(es)
      ensures x in Targets(init) + {es[|es| - 1].0}
    {
      var k :| 0 <= k < |es| && es[k].0 == x;
      if k < |init| {
        assert init[k] == es[k];
      }
    }
    forall x | x in Targets(init)
      ensures x in Targets(es)
    {
      var k :| 0 <= k < |init| && init[k].0 == x;
      assert es[k] == init[k];
    }
  }

  lemma {:induction false} RelaxAllTracks(g: Goal, adj: Adj, src: int, topo: seq<int>)
    requires ValidAdj(adj) && 0 <= src < |adj| && InRange(topo, |adj|)
    requires AbsSum(adj, topo) < INF
    ensures Tracks(g, |adj|, Solve(g, adj, src, topo), Reached(adj, src, topo), AbsSum(adj, topo))
  {
    if topo != [] {
      var init := topo[..|topo| - 1];
      RelaxAllTracks(g, adj, src, init);
      var t := Solve(g, adj, src, init);
      var u := topo[|topo| - 1];
      if t.d[u] != Sentinel(g) {
        RelaxEdgesTracks(g, |adj|, t, Reached(adj, src, init), AbsSum(adj, init), u, adj[u]);
      }
    }
  }

  /** Relaxing `es` leaves the distance of a vertex no edge of `es` leads
      to unchanged. */
  lemma {:induction false} RelaxEdgesOff(g: Goal, s: Pass, u: int, es: seq<(int, int)>, x: int)
    requires |s.p| == |s.d| && 0 <= u < |s.d| && 0 <= x < |s.d|
    requires forall k :: 0 <= k < |es| ==> 0 <= es[k].0 < |s.d|
    requires x !in Targets(es)
    ensures RelaxEdges(g, s, u, es).d[x] == s.d[x]
  {
    if es != [] {
      TargetsSnoc(es);
      RelaxEdgesOff(g, s, u, es[..|es| - 1], x);
    }
  }

  /** Whatever the weights, a vertex the pass never reaches keeps its
      sentinel: only a vertex off the sentinel relaxes its edges, so
      nothing is written to a vertex outside `Reached`. */
  lemma {:induction false} UnreachedSentinel(g: Goal, adj: Adj, src: int, topo: seq<int>)
    requires ValidAdj(adj) && 0 <= src < |adj| && InRange(topo, |adj|)
    ensures forall x :: 0 <= x < |adj| && x !in Reached(adj, src, topo) ==>
      Solve(g, adj, src, topo).d[x] == Sentinel(g)
  {
    if topo != [] {
      var init := topo[..|topo| - 1];
      var u := topo[|topo| - 1];
      UnreachedSentinel(g, adj, src, init);
      var t := Solve(g, adj, src, init);
      assert Solve(g, adj, src, topo) == Step(g, adj, t, u);
      if t.d[u] != Sentinel(g) {
        forall x | 0 <= x < |adj| && x !in Reached(adj, src, topo)
          ensures Solve(g, adj, src, topo).d[x] == Sentinel(g)
        {
          RelaxEdgesOff(g, t, u, adj[u], x);
        }
      }
    }
  }

  /** While the total absolute weight along the order stays below `INF`, a
      vertex ends with a non-sentinel distance exactly when it is reached,
      and that distance lies strictly between `-INF` and `INF` (so also no
      Java `int` arithmetic on it can overflow). */
  lemma SolveReach(g: Goal, adj: Adj, src: int, topo: seq<int>)
    requires ValidAdj(adj) && 0 <= src < |adj| && InRange(topo, |adj|)
    requires AbsSum(adj, topo) < INF
    ensures var r := Solve(g, adj, src, topo);
      forall x :: 0 <= x < |adj| ==>
        (r.d[x] != Sentinel(g) <==> x in Reached(adj, src, topo)) &&
        (r.d[x] != Sentinel(g) ==> -INF < r.d[x] < INF)
  {
    RelaxAllTracks(g, adj, src, topo);
  }

  /** For the same source and order, shortest and longest distances leave
      their sentinels at exactly the same vertices. */
  lemma SentinelsAgree(adj: Adj, src: int, topo: seq<int>)
    requires ValidAdj(adj) && 0 <= src < |adj| && InRange(topo, |adj|)
    requires AbsSum(adj, topo) < INF
    ensures forall x :: 0 <= x < |adj| ==>
      (Solve(Shortest, adj, src, topo).d[x] == INF <==> Solve(Longest, adj, src, topo).d[x] == MINF)
  {
    SolveReach(Shortest, adj, src, topo);
    SolveReach(Longest, adj, src, topo);
  }
}
