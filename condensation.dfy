/** The condensation glue of `processGraph` in
    src/test/java/BatchJsonTests.java: the vertex-to-component map, the
    collapse of cross-component edges to one minimum-weight edge per ordered
    pair, the component adjacency lists, the clamped source, the vertices
    listed in component order, and the null conversion of sentinel
    distances. */
module Condensation {
  import opened Common
  import opened Relaxation
  import opened Reachability
  import opened OrderedPass
  import opened Kahn

  // ---------------------------------------------------------------------
  // compOf (lines 38-39)

  /** The component `compOf[v]` ends up holding: the last one listing `v`,
      since a later component overwrites an earlier one, or 0, the initial
      value of a fresh Java `int` array, when no component lists it. */
  function Owner(comps: seq<seq<int>>, v: int): (r: int)
    ensures (exists c :: 0 <= c < |comps| && v in comps[c]) ==>
      (0 <= r < |comps| && v in comps[r] && forall c :: r < c < |comps| ==> v !in comps[c])
    ensures (forall c :: 0 <= c < |comps| ==> v !in comps[c]) ==> r == 0
  {
    if comps == [] then 0
    else if v in comps[|comps| - 1] then |comps| - 1
    else Owner(comps[..|comps| - 1], v)
  }

  /** On a partition of `0..n-1`, `Owner` names the one component holding
      each vertex. */
  lemma OwnerOfPartition(comps: seq<seq<int>>, n: int, v: int, c: int)
    requires IsPartition(comps, n) && 0 <= v < n && 0 <= c < |comps|
    ensures Owner(comps, v) == c <==> v in comps[c]
  {
    FlatMember(comps, v);
    var r := Owner(comps, v);
    if v in comps[c] {
      FlatDisjoint(comps, c, r, v);
    }
  }

  /** Lines 38-39: `compOf[v] = cid` for every member `v` of every
      component, in component order. */
  method ComponentMap(comps: seq<seq<int>>, n: nat) returns (compOf: seq<int>)
    requires forall c, k :: 0 <= c < |comps| && 0 <= k < |comps[c]| ==> 0 <= comps[c][k] < n
    ensures |compOf| == n && forall v :: 0 <= v < n ==> compOf[v] == Owner(comps, v)
  {
    var a := new int[n](_ => 0);
    for c := 0 to |comps|
      invariant forall v :: 0 <= v < n ==> a[v] == Owner(comps[..c], v)
    {
      assert comps[..c + 1][..c] == comps[..c];
      for k := 0 to |comps[c]|
        invariant forall v :: 0 <= v < n ==> a[v] == if v in comps[c][..k] then c else Owner(comps[..c], v)
      {
        assert comps[c][..k + 1] == comps[c][..k] + [comps[c][k]];
        a[comps[c][k]] := c;
      }
      assert comps[c][..|comps[c]|] == comps[c];
    }
    assert comps[..|comps|] == comps;
    compOf := a[..];
  }

  // ---------------------------------------------------------------------
  // mm (lines 41-46)

  /** Some input edge leads from component `a` to component `b`. */
  predicate HasCross(edges: seq<Edge>, compOf: seq<int>, a: int, b: int)
    requires EdgesIn(edges, |compOf|)
  {
    exists i :: 0 <= i < |edges| && Crosses(edges[i], compOf, a, b)
  }

  /** Some input edge from `a` to `b` weighs `w`. */
  predicate Attained(edges: seq<Edge>, compOf: seq<int>, a: int, b: int, w: int)
    requires EdgesIn(edges, |compOf|)
  {
    exists i :: 0 <= i < |edges| && Crosses(edges[i], compOf, a, b) && edges[i].2 == w
  }

  /** No input edge from `a` to `b` weighs less than `w`. */
  predicate Below(edges: seq<Edge>, compOf: seq<int>, a: int, b: int, w: int)
    requires EdgesIn(edges, |compOf|)
  {
    forall i :: 0 <= i < |edges| && Crosses(edges[i], compOf, a, b) ==> w <= edges[i].2
  }

  /** `mm[a]` maps exactly the components `b != a` that some edge leads to
      from `a`, each to the least weight among those edges. */
  ghost predicate Collapsed(edges: seq<Edge>, compOf: seq<int>, mm: seq<map<int, int>>)
    requires EdgesIn(edges, |compOf|)
  {
    forall a, b :: 0 <= a < |mm| ==>
      && (b in mm[a] <==> a != b && HasCross(edges, compOf, a, b))
      && (b in mm[a] ==> Attained(edges, compOf, a, b, mm[a][b]) && Below(edges, compOf, a, b, mm[a][b]))
  }

  /** `Map.merge(b, w, Math::min)`: `w` when `b` is absent, else the
      smaller of the two. */
  function Merge(m: map<int, int>, b: int, w: int): (r: map<int, int>)
    ensures r.Keys == m.Keys + {b} && (b in m ==> r[b] <= m[b]) && r[b] <= w
    ensures r[b] == w || (b in m && r[b] == m[b])
    ensures forall x :: x in m && x != b ==> r[x] == m[x]
  {
    m[b := if b in m && m[b] < w then m[b] else w]
  }

  /** One more edge keeps `mm` collapsed. */
  lemma CollapseStep(edges: seq<Edge>, compOf: seq<int>, mm: seq<map<int, int>>, i: int)
    requires EdgesIn(edges, |compOf|) && 0 <= i < |edges|
    requires Collapsed(edges[..i], compOf, mm)
    requires 0 <= compOf[edges[i].0] < |mm|
    ensures var cu, cv, w := compOf[edges[i].0], compOf[edges[i].1], edges[i].2;
      Collapsed(edges[..i + 1], compOf, if cu != cv then mm[cu := Merge(mm[cu], cv, w)] else mm)
  {
    var pre, cur := edges[..i], edges[..i + 1];
    var e := edges[i];
    var cu, cv, w := compOf[e.0], compOf[e.1], e.2;
    var mm' := if cu != cv then mm[cu := Merge(mm[cu], cv, w)] else mm;
    assert cur == pre + [e];
    assert cur[i] == e;
    forall a, b | 0 <= a < |mm'|
      ensures b in mm'[a] <==> a != b && HasCross(cur, compOf, a, b)
      ensures b in mm'[a] ==> Attained(cur, compOf, a, b, mm'[a][b]) && Below(cur, compOf, a, b, mm'[a][b])
    {
      if HasCross(pre, compOf, a, b) {
        var j :| 0 <= j < |pre| && Crosses(pre[j], compOf, a, b);
        assert cur[j] == pre[j];
      }
      if HasCross(cur, compOf, a, b) && !Crosses(e, compOf, a, b) {
        var j :| 0 <= j < |cur| && Crosses(cur[j], compOf, a, b);
        assert j < i && cur[j] == pre[j];
      }
      if b in mm'[a] {
        var v := mm'[a][b];
        if a == cu && b == cv && cu != cv {
          if b in mm[a] && mm[a][b] == v {
            var j :| 0 <= j < |pre| && Crosses(pre[j], compOf, a, b) && pre[j].2 == v;
            assert cur[j] == pre[j];
          } else {
            assert Crosses(cur[i], compOf, a, b) && cur[i].2 == v;
          }
          forall j | 0 <= j < |cur| && Crosses(cur[j], compOf, a, b) ensures v <= cur[j].2 {
            if j < i {
              assert cur[j] == pre[j];
            }
          }
        } else {
          assert b in mm[a] && v == mm[a][b];
          var j :| 0 <= j < |pre| && Crosses(pre[j], compOf, a, b) && pre[j].2 == v;
          assert cur[j] == pre[j];
          forall j | 0 <= j < |cur| && Crosses(cur[j], compOf, a, b) ensures v <= cur[j].2 {
            if j < i {
              assert cur[j] == pre[j];
            }
          }
        }
      }
    }
  }

  /** Lines 41-46: one empty map per component, then for every edge
      between distinct components a `merge` keeping the smaller weight. */
  method Collapse(edges: seq<Edge>, compOf: seq<int>, C: nat) returns (mm: seq<map<int, int>>)
    requires EdgesIn(edges, |compOf|)
    requires forall v :: 0 <= v < |compOf| ==> 0 <= compOf[v] < C
    ensures |mm| == C && Collapsed(edges, compOf, mm)
  {
    mm := seq(C, _ => map[]);
    for i := 0 to |edges|
      invariant |mm| == C && Collapsed(edges[..i], compOf, mm)
    {
      CollapseStep(edges, compOf, mm, i);
      var cu, cv, w := compOf[edges[i].0], compOf[edges[i].1], edges[i].2;
      if cu != cv {
        mm := mm[cu := Merge(mm[cu], cv, w)];
      }
    }
    assert edges[..|edges|] == edges;
  }

  // ---------------------------------------------------------------------
  // dag, dagW, dagM (lines 47-55)

  /** `row` lists each key of `m` once, and `rowW` pairs each with its
      value, in the same order. */
  ghost predicate Lists(m: map<int, int>, row: seq<int>, rowW: seq<(int, int)>) {
    && NoDup(row) && |row| == |m| && |rowW| == |row|
    && (forall b :: b in m <==> b in row)
    && (forall k :: 0 <= k < |row| ==> row[k] in m && rowW[k] == (row[k], m[row[k]]))
  }

  /** The number of keys over all maps. */
  function TotalKeys(mm: seq<map<int, int>>): nat {
    if mm == [] then 0 else TotalKeys(mm[..|mm| - 1]) + |mm[|mm| - 1]|
  }

  /** `keys` lists every key of `m` once: an iteration order of the map. */
  ghost predicate Enumerates(keys: seq<int>, m: map<int, int>) {
    && NoDup(keys)
    && (forall k :: 0 <= k < |keys| ==> keys[k] in m)
    && (forall b :: b in m ==> b in keys)
  }

  /** Line 51: the entries of one map, visited in the map's iteration
      order. The order of a Java `HashMap` is not specified, so it is an
      input here: every property below holds for any order. */
  method Entries(m: map<int, int>, keys: seq<int>) returns (row: seq<int>, rowW: seq<(int, int)>)
    requires Enumerates(keys, m)
    ensures Lists(m, row, rowW) && row == keys
  {
    row, rowW := [], [];
    for i := 0 to |keys|
      invariant row == keys[..i] && |rowW| == i
      invariant forall k :: 0 <= k < i ==> rowW[k] == (keys[k], m[keys[k]])
    {
      row, rowW := row + [keys[i]], rowW + [(keys[i], m[keys[i]])];
    }
    assert row == keys;
    DistinctCard(keys);
    forall x ensures x in (set y | y in keys) <==> x in m.Keys {
    }
    assert (set y | y in keys) == m.Keys;
  }

  /** Lines 47-55: component `u` lists the keys of `mm[u]` in `dag` and
      the key-weight pairs in `dagW`, in the same order (`keys[u]`, the
      iteration order of `mm[u]`); `dagM` counts them all. */
  method BuildDag(mm: seq<map<int, int>>, keys: seq<seq<int>>) returns (dag: seq<seq<int>>, dagW: Adj, dagM: int)
    requires |keys| == |mm| && forall u :: 0 <= u < |mm| ==> Enumerates(keys[u], mm[u])
    ensures |dag| == |mm| && |dagW| == |mm|
    ensures forall u :: 0 <= u < |mm| ==> Lists(mm[u], dag[u], dagW[u])
    ensures dagM == TotalKeys(mm)
  {
    dag, dagW, dagM := [], [], 0;
    for u := 0 to |mm|
      invariant |dag| == u && |dagW| == u
      invariant forall x :: 0 <= x < u ==> Lists(mm[x], dag[x], dagW[x])
      invariant dagM == TotalKeys(mm[..u])
    {
      assert mm[..u + 1][..u] == mm[..u];
      var row, rowW := Entries(mm[u], keys[u]);
      dag, dagW := dag + [row], dagW + [rowW];
      dagM := dagM + |row|;
    }
    assert mm[..|mm|] == mm;
  }

  /** The condensation lists, built from a collapsed `mm`: every listed
      successor of `u` is a component id other than `u`, some input edge
      leads from `u` to it, and its weight is the least such edge's; every
      such pair is listed exactly once; and `dag` and `dagW` agree, so
      Kahn's order over `dag` is a topological order of `dagW`. */
  lemma Condensed(edges: seq<Edge>, compOf: seq<int>, mm: seq<map<int, int>>,
                  dag: seq<seq<int>>, dagW: Adj)
    requires EdgesIn(edges, |compOf|) && Collapsed(edges, compOf, mm)
    requires forall v :: 0 <= v < |compOf| ==> 0 <= compOf[v] < |mm|
    requires |dag| == |mm| && |dagW| == |mm|
    requires forall u :: 0 <= u < |mm| ==> Lists(mm[u], dag[u], dagW[u])
    ensures ValidAdj(dagW) && DagValid(dag)
    ensures forall u :: 0 <= u < |dag| ==> |dagW[u]| == |dag[u]|
    ensures forall u, k :: 0 <= u < |dag| && 0 <= k < |dag[u]| ==>
      && dagW[u][k].0 == dag[u][k] && dag[u][k] != u
      && HasCross(edges, compOf, u, dag[u][k])
      && Attained(edges, compOf, u, dag[u][k], dagW[u][k].1)
      && Below(edges, compOf, u, dag[u][k], dagW[u][k].1)
    ensures forall u, b :: 0 <= u < |dag| && u != b && HasCross(edges, compOf, u, b) ==> b in dag[u]
  {
    forall u, k | 0 <= u < |dag| && 0 <= k < |dag[u]|
      ensures 0 <= dag[u][k] < |dag| && dagW[u][k].0 == dag[u][k]
    {
      var b := dag[u][k];
      assert b in mm[u];
      var i :| 0 <= i < |edges| && Crosses(edges[i], compOf, u, b);
    }
  }

  /** Kahn's order over `dag` is a topological order of the weighted lists
      `dagW` that mirror it. */
  lemma ForwardIsTopo(dag: seq<seq<int>>, dagW: Adj, order: seq<int>)
    requires ValidAdj(dagW) && |dag| == |dagW| && InRange(order, |dag|)
    requires forall u :: 0 <= u < |dag| ==> |dag[u]| == |dagW[u]|
    requires forall u, k :: 0 <= u < |dag| && 0 <= k < |dag[u]| ==> dagW[u][k].0 == dag[u][k]
    requires Forward(dag, order)
    ensures TopoOrder(dagW, order)
  {
  }

  // ---------------------------------------------------------------------
  // the clamped source (line 61)

  /** `Math.max(0, Math.min(source, n - 1))`: the source itself when it is
      a vertex, else the nearer end of `0..n-1`. With no vertex the lookup
      in `compOf` throws, so `n >= 1` is required. */
  function Clamp(source: int, n: int): (r: int)
    requires n >= 1
    ensures 0 <= r < n
    ensures 0 <= source < n ==> r == source
    ensures source < 0 ==> r == 0
    ensures source >= n ==> r == n - 1
  {
    var m := if source <= n - 1 then source else n - 1;
    if 0 >= m then 0 else m
  }

  // ---------------------------------------------------------------------
  // topo-order vertices (lines 74-79)

  predicate Sorted(s: seq<int>) {
    forall i, j :: 0 <= i < j < |s| ==> s[i] <= s[j]
  }

  /** Inserts `x` before the first entry not below it. */
  function Insert(x: int, s: seq<int>): seq<int> {
    if s == [] then [x]
    else if x <= s[0] then [x] + s
    else [s[0]] + Insert(x, s[1..])
  }

  /** `Collections.sort` on a list of ids, as an insertion sort. */
  function SortAsc(s: seq<int>): seq<int> {
    if s == [] then [] else Insert(s[|s| - 1], SortAsc(s[..|s| - 1]))
  }

  lemma SortedCons(h: int, t: seq<int>)
    requires Sorted(t) && forall y :: y in t ==> h <= y
    ensures Sorted([h] + t)
  {
    forall i, j | 0 <= i < j < |[h] + t| ensures ([h] + t)[i] <= ([h] + t)[j] {
      assert ([h] + t)[j] == t[j - 1] && t[j - 1] in t;
      if i > 0 {
        assert ([h] + t)[i] == t[i - 1];
      }
    }
  }

  lemma InsertAbove(s: seq<int>, x: int, t: seq<int>)
    requires Sorted(s) && s != [] && s[0] < x
    requires multiset(t) == multiset(s[1..]) + multiset{x}
    ensures forall y :: y in t ==> s[0] <= y
  {
    forall y | y in t ensures s[0] <= y {
      assert y in multiset(t);
      if y != x {
        assert y in s[1..];
      }
    }
  }

  /** Inserting into a sorted list keeps it sorted and adds one element. */
  lemma {:induction false} InsertSorted(x: int, s: seq<int>)
    requires Sorted(s)
    ensures Sorted(Insert(x, s)) && multiset(Insert(x, s)) == multiset(s) + multiset{x}
  {
    if s != [] {
      if x <= s[0] {
        SortedCons(x, s);
      } else {
        var t := Insert(x, s[1..]);
        InsertSorted(x, s[1..]);
        assert s == [s[0]] + s[1..];
        InsertAbove(s, x, t);
        SortedCons(s[0], t);
      }
    }
  }

  /** The sort is ascending and keeps exactly the same elements. */
  lemma {:induction false} SortAscSorted(s: seq<int>)
    ensures Sorted(SortAsc(s)) && multiset(SortAsc(s)) == multiset(s)
  {
    if s != [] {
      SortAscSorted(s[..|s| - 1]);
      InsertSorted(s[|s| - 1], SortAsc(s[..|s| - 1]));
      assert s == s[..|s| - 1] + [s[|s| - 1]];
    }
  }

  /** The members of each component of `order`, sorted. */
  function Blocks(comps: seq<seq<int>>, order: seq<int>): seq<seq<int>>
    requires InRange(order, |comps|)
  {
    seq(|order|, i requires 0 <= i < |order| => SortAsc(comps[order[i]]))
  }

  /** Block `i` is component `order[i]`, sorted ascending. */
  lemma BlocksSorted(comps: seq<seq<int>>, order: seq<int>, i: int)
    requires InRange(order, |comps|) && 0 <= i < |order|
    ensures |Blocks(comps, order)| == |order|
    ensures Sorted(Blocks(comps, order)[i])
    ensures multiset(Blocks(comps, order)[i]) == multiset(comps[order[i]])
  {
    SortAscSorted(comps[order[i]]);
  }

  /** Lines 74-79: the members of each component in `order`, each
      component sorted ascending, concatenated in `order`. */
  method TopoVertices(comps: seq<seq<int>>, order: seq<int>) returns (tv: seq<int>)
    requires InRange(order, |comps|)
    ensures tv == Flat(Blocks(comps, order))
  {
    ghost var done: seq<seq<int>> := [];
    tv := [];
    for i := 0 to |order|
      invariant |done| == i && tv == Flat(done)
      invariant forall j :: 0 <= j < i ==> done[j] == SortAsc(comps[order[j]])
    {
      var comp := SortAsc(comps[order[i]]);
      assert (done + [comp])[..i] == done;
      done := done + [comp];
      tv := tv + comp;
    }
    assert done == Blocks(comps, order);
  }

  /** A vertex is listed exactly when some component of the order holds
      it; so when Kahn's order holds every component of a partition of
      `0..n-1`, the list holds exactly the vertices. */
  lemma TopoVerticesCover(comps: seq<seq<int>>, order: seq<int>, n: int, v: int)
    requires InRange(order, |comps|)
    ensures v in Flat(Blocks(comps, order)) <==> exists i :: 0 <= i < |order| && v in comps[order[i]]
    ensures IsPartition(comps, n) && NoDup(order) && |order| == |comps| ==>
      (v in Flat(Blocks(comps, order)) <==> 0 <= v < n)
  {
    var b := Blocks(comps, order);
    FlatMember(b, v);
    forall i | 0 <= i < |order| ensures v in b[i] <==> v in comps[order[i]] {
      BlocksSorted(comps, order, i);
      assert v in b[i] <==> v in multiset(b[i]);
    }
    if IsPartition(comps, n) && NoDup(order) && |order| == |comps| {
      FlatMember(comps, v);
      Pigeonhole(order, |comps|);
      if v in Flat(comps) {
        var c, k :| 0 <= c < |comps| && 0 <= k < |comps[c]| && comps[c][k] == v;
        assert c in order;
        var i :| 0 <= i < |order| && order[i] == c;
        assert v in comps[order[i]];
      }
      if exists i :: 0 <= i < |order| && v in comps[order[i]] {
        var i :| 0 <= i < |order| && v in comps[order[i]];
        var k :| 0 <= k < |comps[order[i]]| && comps[order[i]][k] == v;
        FlatHas(comps, order[i], k);
      }
    }
  }

  // ---------------------------------------------------------------------
  // sentinels to null (lines 81-93, 144, 157, 159)

  /** Shortest distances: `null` for a value `>= INF`. */
  function ShortNull(d: int): Option<int> {
    if d >= INF then None else Some(d)
  }

  /** Longest distances: `null` for `Integer.MIN_VALUE`. */
  function LongNull(d: int): Option<int> {
    if d == MINF then None else Some(d)
  }

  /** Lines 81-87: each vertex takes its component's shortest distance,
      raw and as a nullable box. */
  method ShortVertexBoxes(dist: seq<int>, compOf: seq<int>) returns (distV: seq<int>, box: seq<Option<int>>)
    requires forall v :: 0 <= v < |compOf| ==> 0 <= compOf[v] < |dist|
    ensures |distV| == |compOf| && |box| == |compOf|
    ensures forall v :: 0 <= v < |compOf| ==>
      distV[v] == dist[compOf[v]] && (box[v].None? <==> dist[compOf[v]] >= INF)
      && (box[v].Some? ==> box[v].value == dist[compOf[v]])
  {
    var n := |compOf|;
    var a := new int[n];
    var b := new Option<int>[n](_ => None);
    for v := 0 to n
      invariant forall x :: 0 <= x < v ==> a[x] == dist[compOf[x]] && b[x] == ShortNull(dist[compOf[x]])
    {
      var d := dist[compOf[v]];
      a[v] := d;
      b[v] := ShortNull(d);
    }
    distV, box := a[..], b[..];
  }

  /** Lines 89-93: each vertex takes its component's longest distance as a
      nullable box. */
  method LongVertexBoxes(dist: seq<int>, compOf: seq<int>) returns (box: seq<Option<int>>)
    requires forall v :: 0 <= v < |compOf| ==> 0 <= compOf[v] < |dist|
    ensures |box| == |compOf|
    ensures forall v :: 0 <= v < |compOf| ==>
      (box[v].None? <==> dist[compOf[v]] == MINF) && (box[v].Some? ==> box[v].value == dist[compOf[v]])
  {
    var n := |compOf|;
    var b := new Option<int>[n](_ => None);
    for v := 0 to n
      invariant forall x :: 0 <= x < v ==> b[x] == LongNull(dist[compOf[x]])
    {
      b[v] := LongNull(dist[compOf[v]]);
    }
    box := b[..];
  }

  /** Without overflow, the shortest and longest outputs are null at
      exactly the same components, the ones the pass never reached; and
      every non-null value lies strictly between `-INF` and `INF`. */
  lemma NullsAgree(dagW: Adj, src: int, topo: seq<int>, c: int)
    requires ValidAdj(dagW) && 0 <= src < |dagW| && InRange(topo, |dagW|)
    requires AbsSum(dagW, topo) < INF && 0 <= c < |dagW|
    ensures var s, l := Solve(Shortest, dagW, src, topo).d[c], Solve(Longest, dagW, src, topo).d[c];
      && (ShortNull(s).None? <==> c !in Reached(dagW, src, topo))
      && (LongNull(l).None? <==> c !in Reached(dagW, src, topo))
      && (ShortNull(s).Some? ==> -INF < s < INF)
      && (LongNull(l).Some? ==> -INF < l < INF)
  {
    SolveReach(Shortest, dagW, src, topo);
    SolveReach(Longest, dagW, src, topo);
    SolveParents(Shortest, dagW, src, topo);
  }

  /** Whatever the weights, a component the pass never reached is `null`
      in both the shortest and the longest output. */
  lemma UnreachedNull(dagW: Adj, src: int, topo: seq<int>, c: int)
    requires ValidAdj(dagW) && 0 <= src < |dagW| && InRange(topo, |dagW|) && 0 <= c < |dagW|
    requires c !in Reached(dagW, src, topo)
    ensures ShortNull(Solve(Shortest, dagW, src, topo).d[c]).None?
    ensures LongNull(Solve(Longest, dagW, src, topo).d[c]).None?
  {
    UnreachedSentinel(Shortest, dagW, src, topo);
    UnreachedSentinel(Longest, dagW, src, topo);
  }
}
