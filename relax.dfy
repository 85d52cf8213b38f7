/** One relaxation pass over a caller-supplied vertex order, the engine
    shared by `DAGShortestPaths.shortestPaths/longestPaths`
    (src/main/java/graph/dagsp/DAGShortestPaths.java) and by the
    condensation solvers `shortestOnDag/longestOnDag`
    (src/test/java/BatchJsonTests.java). The pass is defined here as a pure
    fold over the order; the imperative versions are proved to compute it. */
module Relaxation {
  import opened Common

  /** The "unreached" sentinel of shortest distances. */
  const INF: int := 1_000_000_000
  /** `Integer.MIN_VALUE`, the "unreached" sentinel of longest distances. */
  const MINF: int := -0x8000_0000

  /** `adj[u]` lists the out-edges of `u` as (target, weight) pairs. */
  type Adj = seq<seq<(int, int)>>

  /** Every edge target is a vertex id. */
  predicate ValidAdj(adj: Adj) {
    forall u, k :: 0 <= u < |adj| && 0 <= k < |adj[u]| ==> 0 <= adj[u][k].0 < |adj|
  }

  datatype Goal = Shortest | Longest

  function Sentinel(g: Goal): int {
    if g.Shortest? then INF else MINF
  }

  /** `cand` strictly improves on `cur`. */
  predicate Beats(g: Goal, cand: int, cur: int) {
    if g.Shortest? then cand < cur else cand > cur
  }

  /** `a` is at least as good as `b`. */
  predicate NoWorse(g: Goal, a: int, b: int) {
    if g.Shortest? then a <= b else a >= b
  }

  /** The state of a pass: distances, parents (-1 for none), and the
      relaxation and update counters. */
  datatype Pass = Pass(d: seq<int>, p: seq<int>, relax: int, upd: int)

  predicate Fits(n: int, s: Pass) {
    |s.d| == n && |s.p| == n
  }

  /** Every distance at the sentinel except 0 at the source, no parents,
      both counters at 0. */
  function Start(g: Goal, n: nat, src: int): (s: Pass)
    requires 0 <= src < n
    ensures Fits(n, s) && s.relax == 0 && s.upd == 0
    ensures forall x :: 0 <= x < n ==> s.d[x] == (if x == src then 0 else Sentinel(g)) && s.p[x] == -1
  {
    Pass(seq(n, x => if x == src then 0 else Sentinel(g)), seq(n, _ => -1), 0, 0)
  }

  /** Relaxing the edges `es` out of `u` in order: each scan counts as a
      relaxation; a strict improvement through the current distance of `u`
      stores the new distance and `u` as parent and counts as an update. */
  function RelaxEdges(g: Goal, s: Pass, u: int, es: seq<(int, int)>): (r: Pass)
    requires |s.p| == |s.d| && 0 <= u < |s.d|
    requires forall k :: 0 <= k < |es| ==> 0 <= es[k].0 < |s.d|
    ensures |r.d| == |s.d| && |r.p| == |s.p|
  {
    if es == [] then s
    else
      var t := RelaxEdges(g, s, u, es[..|es| - 1]);
      var v, w := es[|es| - 1].0, es[|es| - 1].1;
      var cand := t.d[u] + w;
      if Beats(g, cand, t.d[v]) then Pass(t.d[v := cand], t.p[v := u], t.relax + 1, t.upd + 1)
      else t.(relax := t.relax + 1)
  }

  /** The distances after relaxing one more edge of a prefix of `es`. */
  lemma RelaxEdgesNext(g: Goal, s: Pass, u: int, es: seq<(int, int)>, k: int)
    requires |s.p| == |s.d| && 0 <= u < |s.d| && 0 <= k < |es|
    requires forall k :: 0 <= k < |es| ==> 0 <= es[k].0 < |s.d|
    ensures var d := RelaxEdges(g, s, u, es[..k]).d;
      var v, cand := es[k].0, d[u] + es[k].1;
      RelaxEdges(g, s, u, es[..k + 1]).d == d[v := if Beats(g, cand, d[v]) then cand else d[v]]
  {
    assert es[..k + 1][..k] == es[..k];
    var d := RelaxEdges(g, s, u, es[..k]).d;
    var v := es[k].0;
    assert d[v := d[v]] == d;
  }

  /** One turn of the outer loop: `u` relaxes all its out-edges if its
      distance is not the sentinel, and is skipped otherwise. */
  function Step(g: Goal, adj: Adj, s: Pass, u: int): (r: Pass)
    requires ValidAdj(adj) && Fits(|adj|, s) && 0 <= u < |adj|
    ensures Fits(|adj|, r)
  {
    if s.d[u] != Sentinel(g) then RelaxEdges(g, s, u, adj[u]) else s
  }

  /** The outer loop over the order. */
  function RelaxAll(g: Goal, adj: Adj, s: Pass, topo: seq<int>): (r: Pass)
    requires ValidAdj(adj) && Fits(|adj|, s) && InRange(topo, |adj|)
    ensures Fits(|adj|, r)
  {
    if topo == [] then s
    else Step(g, adj, RelaxAll(g, adj, s, topo[..|topo| - 1]), topo[|topo| - 1])
  }

  /** The whole pass from `src` over `topo`. */
  function Solve(g: Goal, adj: Adj, src: int, topo: seq<int>): Pass
    requires ValidAdj(adj) && 0 <= src < |adj| && InRange(topo, |adj|)
  {
    RelaxAll(g, adj, Start(g, |adj|, src), topo)
  }

  // ---------------------------------------------------------------------
  // Monotonicity, parents and counters

  /** Relative to a starting state `s0`: distances never got worse, and a
      vertex has a parent exactly when its distance changed. */
  ghost predicate ParentInv(g: Goal, n: int, s0: Pass, s: Pass) {
    Fits(n, s0) && Fits(n, s) &&
    forall x :: 0 <= x < n ==>
      -1 <= s.p[x] < n && NoWorse(g, s.d[x], s0.d[x]) && (s.p[x] == -1 <==> s.d[x] == s0.d[x])
  }

  lemma {:induction false} RelaxEdgesCounts(g: Goal, s: Pass, u: int, es: seq<(int, int)>)
    requires |s.p| == |s.d| && 0 <= u < |s.d|
    requires forall k :: 0 <= k < |es| ==> 0 <= es[k].0 < |s.d|
    ensures var r := RelaxEdges(g, s, u, es);
      r.relax == s.relax + |es| && s.upd <= r.upd <= s.upd + |es|
  {
    if es != [] {
      RelaxEdgesCounts(g, s, u, es[..|es| - 1]);
    }
  }

  lemma {:induction false} RelaxEdgesParents(g: Goal, n: int, s0: Pass, s: Pass, u: int, es: seq<(int, int)>)
    requires ParentInv(g, n, s0, s) && 0 <= u < n
    requires forall k :: 0 <= k < |es| ==> 0 <= es[k].0 < n
    ensures ParentInv(g, n, s0, RelaxEdges(g, s, u, es))
  {
    if es != [] {
      RelaxEdgesParents(g, n, s0, s, u, es[..|es| - 1]);
    }
  }

  lemma {:induction false} RelaxAllParents(g: Goal, adj: Adj, s0: Pass, s: Pass, topo: seq<int>)
    requires ValidAdj(adj) && InRange(topo, |adj|) && ParentInv(g, |adj|, s0, s)
    ensures ParentInv(g, |adj|, s0, RelaxAll(g, adj, s, topo))
  {
    if topo != [] {
      var t := RelaxAll(g, adj, s, topo[..|topo| - 1]);
      RelaxAllParents(g, adj, s0, s, topo[..|topo| - 1]);
      var u := topo[|topo| - 1];
      if t.d[u] != Sentinel(g) {
        RelaxEdgesParents(g, |adj|, s0, t, u, adj[u]);
      }
    }
  }

  /** The total out-degree of the entries of `topo`. */
  function OutDegree(adj: Adj, topo: seq<int>): nat
    requires InRange(topo, |adj|)
  {
    if topo == [] then 0 else OutDegree(adj, topo[..|topo| - 1]) + |adj[topo[|topo| - 1]]|
  }

  lemma {:induction false} RelaxAllCounts(g: Goal, adj: Adj, s: Pass, topo: seq<int>)
    requires ValidAdj(adj) && Fits(|adj|, s) && InRange(topo, |adj|)
    ensures var r := RelaxAll(g, adj, s, topo);
      s.relax <= r.relax <= s.relax + OutDegree(adj, topo) &&
      s.upd <= r.upd && r.upd - s.upd <= r.relax - s.relax
  {
    if topo != [] {
      var t := RelaxAll(g, adj, s, topo[..|topo| - 1]);
      RelaxAllCounts(g, adj, s, topo[..|topo| - 1]);
      var u := topo[|topo| - 1];
      if t.d[u] != Sentinel(g) {
        RelaxEdgesCounts(g, t, u, adj[u]);
      }
    }
  }

  /** A pass only ever improves distances, so every final distance is at
      least as good as the sentinel, the source's is at least as good as 0,
      and a vertex has a parent exactly when its distance left its starting
      value. At most every scanned edge updates, and at most every out-edge
      of the order is scanned. */
  lemma SolveParents(g: Goal, adj: Adj, src: int, topo: seq<int>)
    requires ValidAdj(adj) && 0 <= src < |adj| && InRange(topo, |adj|)
    ensures var r := Solve(g, adj, src, topo);
      && NoWorse(g, r.d[src], 0)
      && (forall x :: 0 <= x < |adj| ==> NoWorse(g, r.d[x], Sentinel(g)) && -1 <= r.p[x] < |adj|)
      && (forall x :: 0 <= x < |adj| && x != src ==> (r.p[x] == -1 <==> r.d[x] == Sentinel(g)))
      && (r.p[src] == -1 <==> r.d[src] == 0)
      && 0 <= r.upd <= r.relax <= OutDegree(adj, topo)
  {
    var s0 := Start(g, |adj|, src);
    RelaxAllParents(g, adj, s0, s0, topo);
    RelaxAllCounts(g, adj, s0, topo);
  }

  // ---------------------------------------------------------------------
  // Lower bounds from feasible potentials

  /** `pot` bounds every distance from `src` from the good side: at least
      as good as 0 at the source and consistent across every edge. For
      shortest distances this is a potential below every path cost, for
      longest ones above. */
  predicate Feasible(g: Goal, adj: Adj, src: int, pot: seq<int>)
    requires ValidAdj(adj)
  {
    && |pot| == |adj| && 0 <= src < |adj| && NoWorse(g, pot[src], 0)
    && forall u, k :: 0 <= u < |adj| && 0 <= k < |adj[u]| ==>
         NoWorse(g, pot[adj[u][k].0], pot[u] + adj[u][k].1)
  }

  /** Every non-sentinel distance is bounded by the potential, and no
      distance is worse than the sentinel. */
  ghost predicate Dominated(g: Goal, n: int, pot: seq<int>, s: Pass) {
    |pot| == n && Fits(n, s) &&
    forall x :: 0 <= x < n ==>
      NoWorse(g, s.d[x], Sentinel(g)) && (s.d[x] != Sentinel(g) ==> NoWorse(g, pot[x], s.d[x]))
  }

  lemma {:induction false} RelaxEdgesDominated(g: Goal, adj: Adj, src: int, pot: seq<int>, s: Pass, u: int, es: seq<(int, int)>)
    requires ValidAdj(adj) && Feasible(g, adj, src, pot) && Dominated(g, |adj|, pot, s)
    requires 0 <= u < |adj| && s.d[u] != Sentinel(g)
    requires es <= adj[u]
    ensures var r := RelaxEdges(g, s, u, es);
      Dominated(g, |adj|, pot, r) && r.d[u] != Sentinel(g)
  {
    if es != [] {
      var init := es[..|es| - 1];
      assert init <= adj[u];
      RelaxEdgesDominated(g, adj, src, pot, s, u, init);
      var t := RelaxEdges(g, s, u, init);
      var k := |es| - 1;
      assert es[k] == adj[u][k];
    }
  }

  lemma {:induction false} RelaxAllDominated(g: Goal, adj: Adj, src: int, pot: seq<int>, s: Pass, topo: seq<int>)
    requires ValidAdj(adj) && InRange(topo, |adj|) && Feasible(g, adj, src, pot)
    requires Dominated(g, |adj|, pot, s)
    ensures Dominated(g, |adj|, pot, RelaxAll(g, adj, s, topo))
  {
    if topo != [] {
      var t := RelaxAll(g, adj, s, topo[..|topo| - 1]);
      RelaxAllDominated(g, adj, src, pot, s, topo[..|topo| - 1]);
      var u := topo[|topo| - 1];
      if t.d[u] != Sentinel(g) {
        RelaxEdgesDominated(g, adj, src, pot, t, u, adj[u]);
      }
    }
  }

  /** Soundness of the pass, for any order: a reached vertex's distance is
      never better than any feasible potential allows, that is, never
      better than the cost of some path from the source. */
  lemma SolveDominated(g: Goal, adj: Adj, src: int, topo: seq<int>, pot: seq<int>)
    requires ValidAdj(adj) && InRange(topo, |adj|) && Feasible(g, adj, src, pot)
    ensures var r := Solve(g, adj, src, topo);
      forall x :: 0 <= x < |adj| && r.d[x] != Sentinel(g) ==> NoWorse(g, pot[x], r.d[x])
  {
    RelaxAllDominated(g, adj, src, pot, Start(g, |adj|, src), topo);
  }
}
