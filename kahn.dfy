/** `topoKahn` of src/test/java/BatchJsonTests.java: Kahn's algorithm over an
    unweighted adjacency list. In-degrees are counted first, every vertex of
    in-degree 0 is queued in increasing id order, and the queue is served
    first in, first out; removing a vertex lowers the in-degree of each of
    its successors, and one that reaches 0 joins the queue. The result is
    the emitted order and the sum of the positive in-degrees left over. */
module Kahn {
  import opened Common

  /** Every successor is a vertex id. */
  predicate DagValid(dag: seq<seq<int>>) {
    forall u, k :: 0 <= u < |dag| && 0 <= k < |dag[u]| ==> 0 <= dag[u][k] < |dag|
  }

  /** How often `x` occurs in `s` (an out-list may repeat a successor). */
  function Count(s: seq<int>, x: int): (r: nat)
    ensures r == 0 <==> x !in s
  {
    if s == [] then 0
    else Count(s[..|s| - 1], x) + (if s[|s| - 1] == x then 1 else 0)
  }

  /** The edges into `x` whose source is below `m` and not yet emitted. */
  function InFrom(dag: seq<seq<int>>, x: int, order: seq<int>, m: nat): nat
    requires m <= |dag|
  {
    if m == 0 then 0
    else InFrom(dag, x, order, m - 1) + (if m - 1 in order then 0 else Count(dag[m - 1], x))
  }

  /** The in-degree of `x` once the vertices of `order` are removed. */
  function InDeg(dag: seq<seq<int>>, x: int, order: seq<int>): nat {
    InFrom(dag, x, order, |dag|)
  }

  /** Every edge into the `j`-th entry of `done` comes from an emitted
      vertex listed before position `j`. */
  ghost predicate EdgesBefore(dag: seq<seq<int>>, order: seq<int>, done: seq<int>) {
    forall j, u, k :: 0 <= j < |done| && 0 <= u < |dag| && 0 <= k < |dag[u]| && dag[u][k] == done[j]
      ==> u in order && Rank(done, u) < j
  }

  /** The state Kahn's loop keeps: the emitted vertices followed by the
      queue are distinct vertex ids; each in-degree counts the edges from
      vertices not yet emitted; a vertex is emitted or queued exactly when
      its in-degree is 0; and every edge points forward in that sequence. */
  ghost predicate Queued(dag: seq<seq<int>>, indeg: seq<int>, order: seq<int>, q: seq<int>) {
    && |indeg| == |dag|
    && NoDup(order + q) && InRange(order + q, |dag|)
    && (forall x :: 0 <= x < |dag| ==> indeg[x] == InDeg(dag, x, order))
    && (forall x :: 0 <= x < |dag| ==> (x in order + q <==> indeg[x] == 0))
    && EdgesBefore(dag, order, order + q)
  }

  /** Every vertex left out of `order` has an edge into it from another
      vertex left out: the left-out vertices are stuck on a cycle or
      behind one. */
  ghost predicate Stuck(dag: seq<seq<int>>, order: seq<int>) {
    forall v :: 0 <= v < |dag| && v !in order ==> BlockedAt(dag, order, v)
  }

  /** Some vertex left out of `order` has an edge into `v`. */
  ghost predicate BlockedAt(dag: seq<seq<int>>, order: seq<int>, v: int) {
    exists u, k :: 0 <= u < |dag| && u !in order && 0 <= k < |dag[u]| && dag[u][k] == v
  }

  /** Every edge between two emitted vertices points forward in `order`. */
  ghost predicate Forward(dag: seq<seq<int>>, order: seq<int>) {
    forall i, j, k ::
      (0 <= i < |order| && 0 <= j < |order| && 0 <= order[i] < |dag|
       && 0 <= k < |dag[order[i]]| && dag[order[i]][k] == order[j]) ==> i < j
  }

  lemma CountPrefix(s: seq<int>, k: int, x: int)
    requires 0 <= k < |s|
    ensures Count(s[..k + 1], x) == Count(s[..k], x) + (if s[k] == x then 1 else 0)
    ensures Count(s[..k + 1], x) <= Count(s, x)
  {
    assert s[..k + 1][..k] == s[..k];
    CountPrefixBound(s, k + 1, x);
  }

  lemma {:induction false} CountPrefixBound(s: seq<int>, j: int, x: int)
    requires 0 <= j <= |s|
    ensures Count(s[..j], x) <= Count(s, x)
  {
    if j < |s| {
      var init := s[..|s| - 1];
      CountPrefixBound(init, j, x);
      assert init[..j] == s[..j];
    } else {
      assert s[..j] == s;
    }
  }

  /** Emitting `u` removes exactly its out-edges from every in-degree. */
  lemma {:induction false} InFromEmit(dag: seq<seq<int>>, x: int, order: seq<int>, u: int, m: nat)
    requires m <= |dag| && 0 <= u < |dag| && u !in order
    ensures InFrom(dag, x, order, m) == InFrom(dag, x, order + [u], m) + (if u < m then Count(dag[u], x) else 0)
  {
    if m > 0 {
      InFromEmit(dag, x, order, u, m - 1);
      assert (m - 1 in order + [u]) <==> (m - 1 in order || m - 1 == u);
    }
  }

  /** The in-degree is 0 exactly when no edge into `x` comes from a vertex
      below `m` that has not been emitted. */
  lemma {:induction false} InFromZero(dag: seq<seq<int>>, x: int, order: seq<int>, m: nat)
    requires m <= |dag|
    ensures InFrom(dag, x, order, m) == 0 <==>
      forall u, k :: 0 <= u < m && u !in order && 0 <= k < |dag[u]| ==> dag[u][k] != x
  {
    if m > 0 {
      InFromZero(dag, x, order, m - 1);
      var u := m - 1;
      if u !in order && Count(dag[u], x) != 0 {
        var k :| 0 <= k < |dag[u]| && dag[u][k] == x;
      }
    }
  }

  lemma RankConcat(a: seq<int>, b: seq<int>, x: int)
    requires x in a
    ensures Rank(a + b, x) == Rank(a, x)
  {
    var r := Rank(a, x);
    assert (a + b)[r] == x;
  }

  lemma RankNoDup(s: seq<int>, i: int)
    requires NoDup(s) && 0 <= i < |s|
    ensures Rank(s, s[i]) == i
  {
  }

  /** Queuing `v` behind `done` keeps every edge pointing forward when all
      edges into `v` come from emitted vertices. */
  lemma EdgesBeforeExtend(dag: seq<seq<int>>, order: seq<int>, done: seq<int>, v: int)
    requires EdgesBefore(dag, order, done) && order <= done
    requires forall u, k :: 0 <= u < |dag| && u !in order && 0 <= k < |dag[u]| ==> dag[u][k] != v
    ensures EdgesBefore(dag, order, done + [v])
  {
    var done' := done + [v];
    forall j, u, k | 0 <= j < |done'| && 0 <= u < |dag| && 0 <= k < |dag[u]| && dag[u][k] == done'[j]
      ensures u in order && Rank(done', u) < j
    {
      if j < |done| {
        assert done'[j] == done[j];
      }
      assert u in order;
      assert done == order + done[|order|..];
      RankConcat(order, done[|order|..], u);
      RankConcat(done, [v], u);
    }
  }

  /** Line 244: `indeg[v]` counts the edges into `v`. */
  method CountInDegrees(dag: seq<seq<int>>) returns (indeg: array<int>)
    requires DagValid(dag)
    ensures fresh(indeg) && indeg.Length == |dag|
    ensures forall x :: 0 <= x < |dag| ==> indeg[x] == InDeg(dag, x, [])
  {
    indeg := new int[|dag|](_ => 0);
    for u := 0 to |dag|
      invariant forall x :: 0 <= x < |dag| ==> indeg[x] == InFrom(dag, x, [], u)
    {
      for k := 0 to |dag[u]|
        invariant forall x :: 0 <= x < |dag| ==> indeg[x] == InFrom(dag, x, [], u) + Count(dag[u][..k], x)
      {
        forall x | 0 <= x < |dag|
          ensures Count(dag[u][..k + 1], x) == Count(dag[u][..k], x) + (if dag[u][k] == x then 1 else 0)
        {
          CountPrefix(dag[u], k, x);
        }
        var v := dag[u][k];
        indeg[v] := indeg[v] + 1;
      }
      assert dag[u][..|dag[u]|] == dag[u];
    }
  }

  /** Emitting `u` after `order` removes exactly the edges out of `u`
      from each in-degree. */
  ghost predicate Emits(dag: seq<seq<int>>, order: seq<int>, u: int)
    requires 0 <= u < |dag|
  {
    forall x :: 0 <= x < |dag| ==> InDeg(dag, x, order) == InDeg(dag, x, order + [u]) + Count(dag[u], x)
  }

  /** Midway through the successors of `u` (after the first `k`): the
      in-degrees have lost the edges scanned so far, and `q` holds the
      queue with every vertex whose in-degree reached 0. */
  ghost predicate Releasing(dag: seq<seq<int>>, indeg: seq<int>, order: seq<int>, u: int, k: int, q: seq<int>)
    requires 0 <= u < |dag|
  {
    && |indeg| == |dag| && 0 <= k <= |dag[u]|
    && NoDup(order + [u] + q) && InRange(order + [u] + q, |dag|)
    && (forall x :: 0 <= x < |dag| ==> indeg[x] == InDeg(dag, x, order) - Count(dag[u][..k], x))
    && (forall x :: 0 <= x < |dag| ==> (x in order + [u] + q <==> indeg[x] == 0))
    && EdgesBefore(dag, order + [u], order + [u] + q)
  }

  /** One successor `v` of `u`: its in-degree drops by one, and it joins
      the queue when that leaves 0. */
  lemma ReleaseStep(dag: seq<seq<int>>, indeg: seq<int>, order: seq<int>, u: int, k: int, q: seq<int>,
                    d: seq<int>, q': seq<int>)
    requires DagValid(dag) && 0 <= u < |dag| && Releasing(dag, indeg, order, u, k, q) && k < |dag[u]|
    requires Emits(dag, order, u)
    requires d == indeg[dag[u][k] := indeg[dag[u][k]] - 1]
    requires q' == if d[dag[u][k]] == 0 then q + [dag[u][k]] else q
    ensures Releasing(dag, d, order, u, k + 1, q')
  {
    var n := |dag|;
    var emitted := order + [u];
    var v := dag[u][k];
    forall x | 0 <= x < n
      ensures Count(dag[u][..k + 1], x) == Count(dag[u][..k], x) + (if v == x then 1 else 0)
      ensures Count(dag[u][..k + 1], x) <= Count(dag[u], x)
    {
      CountPrefix(dag[u], k, x);
    }
    assert forall x :: 0 <= x < n ==> d[x] == InDeg(dag, x, order) - Count(dag[u][..k + 1], x);
    assert v !in emitted + q;
    if d[v] == 0 {
      InFromZero(dag, v, emitted, n);
      EdgesBeforeExtend(dag, emitted, emitted + q, v);
      NoDupConcat(emitted + q, [v]);
      assert emitted + q + [v] == emitted + q';
    }
    assert forall x :: 0 <= x < n ==> (x in emitted + q' <==> d[x] == 0);
  }

  /** The head `u` of the queue is not yet emitted, so emitting it removes
      its out-edges from the in-degrees. */
  lemma EmitsAfter(dag: seq<seq<int>>, indeg: seq<int>, order: seq<int>, u: int, rest: seq<int>)
    requires DagValid(dag) && Queued(dag, indeg, order, [u] + rest)
    ensures 0 <= u < |dag| && Emits(dag, order, u)
  {
    assert (order + ([u] + rest))[|order|] == u;
    forall i | 0 <= i < |order| ensures order[i] != u {
      assert (order + ([u] + rest))[i] == order[i];
    }
    forall x | 0 <= x < |dag|
      ensures InDeg(dag, x, order) == InDeg(dag, x, order + [u]) + Count(dag[u], x)
    {
      InFromEmit(dag, x, order, u, |dag|);
    }
  }

  /** Before the first successor of `u`: the queue without `u`. */
  lemma ReleaseBegin(dag: seq<seq<int>>, indeg: seq<int>, order: seq<int>, u: int, rest: seq<int>)
    requires DagValid(dag) && 0 <= u < |dag| && Queued(dag, indeg, order, [u] + rest)
    ensures Releasing(dag, indeg, order, u, 0, rest)
  {
    assert order + ([u] + rest) == order + [u] + rest;
    assert dag[u][..0] == [];
  }

  /** After the last successor: every edge out of `u` is accounted for. */
  lemma ReleaseEnd(dag: seq<seq<int>>, indeg: seq<int>, order: seq<int>, u: int, q: seq<int>)
    requires DagValid(dag) && 0 <= u < |dag| && Releasing(dag, indeg, order, u, |dag[u]|, q)
    requires Emits(dag, order, u)
    ensures Queued(dag, indeg, order + [u], q)
  {
    assert dag[u][..|dag[u]|] == dag[u];
  }

  /** One turn of the loop over the successors (line 251): `v`'s in-degree
      drops by one, and `v` joins the back of the queue when that leaves 0. */
  function DropOne(indeg: seq<int>, q: seq<int>, v: int): (seq<int>, seq<int>) {
    if 0 <= v < |indeg| then
      var d := indeg[v := indeg[v] - 1];
      (d, if d[v] == 0 then q + [v] else q)
    else (indeg, q)
  }

  /** The whole loop over the successors `succ`, in list order: the
      in-degrees and the queue it leaves. */
  function Released(succ: seq<int>, indeg: seq<int>, q: seq<int>): (seq<int>, seq<int>) {
    if succ == [] then (indeg, q)
    else
      var r := Released(succ[..|succ| - 1], indeg, q);
      DropOne(r.0, r.1, succ[|succ| - 1])
  }

  /** Releasing the first `k` successors of the polled `u` keeps the state
      of the successor loop. */
  lemma {:induction false} ReleasedPrefix(dag: seq<seq<int>>, indeg: seq<int>, order: seq<int>, u: int, rest: seq<int>, k: int)
    requires DagValid(dag) && 0 <= u < |dag| && Emits(dag, order, u)
    requires Releasing(dag, indeg, order, u, 0, rest) && 0 <= k <= |dag[u]|
    ensures var r := Released(dag[u][..k], indeg, rest);
      Releasing(dag, r.0, order, u, k, r.1)
  {
    if k == 0 {
      assert dag[u][..0] == [];
    } else {
      ReleasedPrefix(dag, indeg, order, u, rest, k - 1);
      var p := Released(dag[u][..k - 1], indeg, rest);
      var v := dag[u][k - 1];
      var d := p.0[v := p.0[v] - 1];
      var q' := if d[v] == 0 then p.1 + [v] else p.1;
      ReleaseStep(dag, p.0, order, u, k - 1, p.1, d, q');
      ReleasedSnoc(dag[u], indeg, rest, k);
      assert DropOne(p.0, p.1, v) == (d, q');
      ReleasingSame(dag, d, order, u, k, q', Released(dag[u][..k], indeg, rest));
    }
  }

  /** Releasing one more successor is one more `DropOne`. */
  lemma ReleasedSnoc(succ: seq<int>, indeg: seq<int>, q: seq<int>, k: int)
    requires 0 < k <= |succ|
    ensures var p := Released(succ[..k - 1], indeg, q);
      Released(succ[..k], indeg, q) == DropOne(p.0, p.1, succ[k - 1])
  {
    assert succ[..k][..k - 1] == succ[..k - 1];
  }

  lemma ReleasingSame(dag: seq<seq<int>>, indeg: seq<int>, order: seq<int>, u: int, k: int, q: seq<int>,
                      r: (seq<int>, seq<int>))
    requires 0 <= u < |dag| && Releasing(dag, indeg, order, u, k, q) && r == (indeg, q)
    ensures Releasing(dag, r.0, order, u, k, r.1)
  {
  }

  /** Polling `u` and releasing all its successors keeps the queue
      invariant, with `u` emitted. */
  lemma ReleasedQueued(dag: seq<seq<int>>, indeg: seq<int>, order: seq<int>, u: int, rest: seq<int>)
    requires DagValid(dag) && Queued(dag, indeg, order, [u] + rest)
    ensures 0 <= u < |dag|
    ensures var r := Released(dag[u], indeg, rest); Queued(dag, r.0, order + [u], r.1)
  {
    EmitsAfter(dag, indeg, order, u, rest);
    ReleaseBegin(dag, indeg, order, u, rest);
    ReleasedPrefix(dag, indeg, order, u, rest, |dag[u]|);
    assert dag[u][..|dag[u]|] == dag[u];
    var r := Released(dag[u], indeg, rest);
    ReleaseEnd(dag, r.0, order, u, r.1);
  }

  /** The queue only grows at its back while successors are released. */
  lemma {:induction false} ReleasedExtends(succ: seq<int>, indeg: seq<int>, q: seq<int>)
    ensures q <= Released(succ, indeg, q).1
    ensures |Released(succ, indeg, q).0| == |indeg|
  {
    if succ != [] {
      ReleasedExtends(succ[..|succ| - 1], indeg, q);
    }
  }

  /** The body of the loop over the successors of `u`, for the `k`-th. */
  method Decrement(indeg: array<int>, v: int, q: seq<int>) returns (q': seq<int>)
    requires 0 <= v < indeg.Length
    modifies indeg
    ensures (indeg[..], q') == DropOne(old(indeg[..]), q, v)
  {
    ghost var before := indeg[..];
    indeg[v] := indeg[v] - 1;
    assert indeg[..] == before[v := before[v] - 1];
    q' := if indeg[v] == 0 then q + [v] else q;
  }

  /** Line 251: emitting `u` (just taken off the queue) decrements the
      in-degree of each successor and queues every one that reaches 0. */
  method Release(dag: seq<seq<int>>, indeg: array<int>, u: int, ghost order: seq<int>, rest: seq<int>)
    returns (q: seq<int>)
    requires DagValid(dag) && Queued(dag, indeg[..], order, [u] + rest)
    modifies indeg
    ensures 0 <= u < |dag| && (indeg[..], q) == Released(dag[u], old(indeg[..]), rest)
    ensures Queued(dag, indeg[..], order + [u], q) && rest <= q
  {
    ghost var start := indeg[..];
    ReleasedQueued(dag, start, order, u, rest);
    q := rest;
    for k := 0 to |dag[u]|
      invariant (indeg[..], q) == Released(dag[u][..k], start, rest)
    {
      assert dag[u][..k + 1][..k] == dag[u][..k];
      ReleasedExtends(dag[u][..k], start, rest);
      q := Decrement(indeg, dag[u][k], q);
    }
    assert dag[u][..|dag[u]|] == dag[u];
    ReleasedExtends(dag[u], start, rest);
  }

  /** The positions below `i` that hold 0, in increasing order. */
  function Zeros(indeg: seq<int>, i: nat): seq<int>
    requires i <= |indeg|
  {
    if i == 0 then []
    else Zeros(indeg, i - 1) + (if indeg[i - 1] == 0 then [i - 1] else [])
  }

  /** `Zeros` lists exactly the zero positions below `i`, each once and in
      increasing order. */
  lemma {:induction false} ZerosExact(indeg: seq<int>, i: nat)
    requires i <= |indeg|
    ensures var z := Zeros(indeg, i);
      && (forall a, b :: 0 <= a < b < |z| ==> z[a] < z[b])
      && (forall j :: 0 <= j < |z| ==> 0 <= z[j] < i)
      && (forall x :: x in z <==> 0 <= x < i && indeg[x] == 0)
  {
    if i > 0 {
      ZerosExact(indeg, i - 1);
    }
  }

  /** Strictly increasing vertices of in-degree 0, covering every such
      vertex, form a valid first queue. */
  lemma SeedsQueued(dag: seq<seq<int>>, indeg: seq<int>, q: seq<int>)
    requires DagValid(dag) && |indeg| == |dag|
    requires forall x :: 0 <= x < |dag| ==> indeg[x] == InDeg(dag, x, [])
    requires forall a, b :: 0 <= a < b < |q| ==> q[a] < q[b]
    requires forall x :: x in q <==> 0 <= x < |dag| && indeg[x] == 0
    ensures Queued(dag, indeg, [], q)
  {
    forall j | 0 <= j < |q| ensures 0 <= q[j] < |dag| && InDeg(dag, q[j], []) == 0 {
      assert q[j] in q;
    }
    NoEdgesInto(dag, q);
    assert [] + q == q;
  }

  /** No edge at all enters a vertex of in-degree 0. */
  lemma NoEdgesInto(dag: seq<seq<int>>, q: seq<int>)
    requires forall j :: 0 <= j < |q| ==> 0 <= q[j] < |dag| && InDeg(dag, q[j], []) == 0
    ensures EdgesBefore(dag, [], q)
  {
    forall j, u, k | 0 <= j < |q| && 0 <= u < |dag| && 0 <= k < |dag[u]|
      ensures dag[u][k] != q[j]
    {
      InFromZero(dag, q[j], [], |dag|);
    }
  }

  /** Lines 246-247: the vertices of in-degree 0, in increasing id order,
      form the first queue. */
  method Seeds(dag: seq<seq<int>>, indeg: seq<int>) returns (q: seq<int>)
    requires DagValid(dag) && |indeg| == |dag|
    requires forall x :: 0 <= x < |dag| ==> indeg[x] == InDeg(dag, x, [])
    ensures Queued(dag, indeg, [], q)
    ensures forall i, j :: 0 <= i < j < |q| ==> q[i] < q[j]
    ensures q == Zeros(indeg, |dag|)
  {
    q := [];
    for i := 0 to |dag|
      invariant q == Zeros(indeg, i)
    {
      if indeg[i] == 0 {
        q := q + [i];
      }
    }
    ZerosExact(indeg, |dag|);
    SeedsQueued(dag, indeg, q);
  }

  /** The in-degree of every vertex before anything is emitted. */
  function InDegrees(dag: seq<seq<int>>): seq<int> {
    seq(|dag|, x => InDeg(dag, x, []))
  }

  /** Kahn's loop as a function: serve the queue first in, first out,
      emitting its head and releasing the head's successors in list order,
      at most `fuel` times. The result is the emitted order and the
      in-degrees left over. */
  function Serve(dag: seq<seq<int>>, indeg: seq<int>, q: seq<int>, order: seq<int>, fuel: nat): (seq<int>, seq<int>)
    decreases fuel
  {
    if q == [] || fuel == 0 then (order, indeg)
    else
      var u := q[0];
      var r := Released(if 0 <= u < |dag| then dag[u] else [], indeg, q[1..]);
      Serve(dag, r.0, r.1, order + [u], fuel - 1)
  }

  /** The one order Kahn's loop emits: the in-degree-0 vertices queued in
      increasing id order, then served first in, first out. */
  function KahnRun(dag: seq<seq<int>>): (seq<int>, seq<int>) {
    var d := InDegrees(dag);
    Serve(dag, d, Zeros(d, |dag|), [], |dag|)
  }

  /** One step of `Serve`: emit the head `u`, then release its successors. */
  lemma ServeStep(dag: seq<seq<int>>, indeg: seq<int>, u: int, rest: seq<int>, order: seq<int>, fuel: nat)
    requires fuel > 0 && 0 <= u < |dag|
    ensures var r := Released(dag[u], indeg, rest);
      Serve(dag, indeg, [u] + rest, order, fuel) == Serve(dag, r.0, r.1, order + [u], fuel - 1)
  {
    assert ([u] + rest)[1..] == rest;
  }

  /** From a valid state with a nonempty queue and enough fuel, `Serve`
      takes one step: the head is a vertex, releasing its successors gives
      a valid state whose queue extends the rest of the old one, and the
      fuel left still suffices. */
  lemma ServeNext(dag: seq<seq<int>>, indeg: seq<int>, order: seq<int>, q: seq<int>, fuel: nat)
    requires DagValid(dag) && Queued(dag, indeg, order, q) && q != [] && |order| + fuel >= |dag|
    ensures fuel > 0 && 0 <= q[0] < |dag|
    ensures var r := Released(dag[q[0]], indeg, q[1..]);
      && Queued(dag, r.0, order + [q[0]], r.1)
      && order + q <= order + [q[0]] + r.1
      && Serve(dag, indeg, q, order, fuel) == Serve(dag, r.0, r.1, order + [q[0]], fuel - 1)
  {
    Pigeonhole(order + q, |dag|);
    var u := q[0];
    assert q == [u] + q[1..];
    ReleasedQueued(dag, indeg, order, u, q[1..]);
    ReleasedExtends(dag[u], indeg, q[1..]);
    QueuePrefix(order, q, Released(dag[u], indeg, q[1..]).1);
    ServeStep(dag, indeg, u, q[1..], order, fuel);
  }

  /** Serving the head keeps the old queue as a prefix of what follows. */
  lemma QueuePrefix(order: seq<int>, q: seq<int>, q': seq<int>)
    requires q != [] && q[1..] <= q'
    ensures order + q <= order + [q[0]] + q'
  {
    var long := order + [q[0]] + q';
    forall i | 0 <= i < |order + q| ensures (order + q)[i] == long[i] {
      if i > |order| {
        assert (order + q)[i] == q[1..][i - |order| - 1];
      }
    }
  }

  /** Serving from a valid state with enough fuel empties the queue, keeps
      the loop state valid and emits the current queue, in queue order,
      right after the vertices already emitted. */
  lemma {:induction false} ServeDrains(dag: seq<seq<int>>, indeg: seq<int>, order: seq<int>, q: seq<int>, fuel: nat)
    requires DagValid(dag) && Queued(dag, indeg, order, q) && |order| + fuel >= |dag|
    ensures var r := Serve(dag, indeg, q, order, fuel); Queued(dag, r.1, r.0, [])
    ensures order + q <= Serve(dag, indeg, q, order, fuel).0
    decreases fuel
  {
    if q != [] {
      ServeNext(dag, indeg, order, q, fuel);
      var r := Released(dag[q[0]], indeg, q[1..]);
      ServeDrains(dag, r.0, order + [q[0]], r.1, fuel - 1);
      DrainedSame(dag, Serve(dag, indeg, q, order, fuel), Serve(dag, r.0, r.1, order + [q[0]], fuel - 1));
    } else {
      assert order + q == order;
    }
  }

  lemma DrainedSame(dag: seq<seq<int>>, a: (seq<int>, seq<int>), b: (seq<int>, seq<int>))
    requires a == b && Queued(dag, b.1, b.0, [])
    ensures Queued(dag, a.1, a.0, [])
  {
  }

  /** What Kahn's order is: duplicate-free, forward and closed, starting
      with the vertices of in-degree 0 in increasing id order; the left-out
      vertices are exactly those whose in-degree stays positive, and they
      are stuck; no in-degree stays positive exactly when every vertex is
      emitted. */
  lemma KahnRunSound(dag: seq<seq<int>>)
    requires DagValid(dag)
    ensures var order := KahnRun(dag).0;
      && NoDup(order) && InRange(order, |dag|)
      && Forward(dag, order) && Closed(dag, order) && Stuck(dag, order)
      && Zeros(InDegrees(dag), |dag|) <= order
    ensures |KahnRun(dag).1| == |dag|
    ensures forall x :: 0 <= x < |dag| ==> (x !in KahnRun(dag).0 <==> KahnRun(dag).1[x] > 0)
    ensures (forall x :: 0 <= x < |dag| ==> KahnRun(dag).1[x] <= 0) <==> |KahnRun(dag).0| == |dag|
  {
    var d := InDegrees(dag);
    var z := Zeros(d, |dag|);
    ZerosExact(d, |dag|);
    SeedsQueued(dag, d, z);
    ServeDrains(dag, d, [], z, |dag|);
    assert [] + z == z;
    var r := KahnRun(dag);
    Drained(dag, r.1, r.0);
  }

  /** On an acyclic graph Kahn's order emits every vertex. */
  lemma KahnRunComplete(dag: seq<seq<int>>, rank: seq<nat>)
    requires DagValid(dag) && Ranked(dag, rank)
    ensures |KahnRun(dag).0| == |dag|
  {
    KahnRunSound(dag);
    KahnCompleteOnAcyclic(dag, rank, KahnRun(dag).0);
  }

  /** Line 255: the sum of the positive entries, which is 0 exactly when
      no entry is positive. */
  method PositiveSum(a: array<int>) returns (s: int)
    ensures s >= 0 && (s == 0 <==> forall x :: 0 <= x < a.Length ==> a[x] <= 0)
  {
    s := 0;
    for x := 0 to a.Length
      invariant s >= 0 && (s == 0 <==> forall y :: 0 <= y < x ==> a[y] <= 0)
    {
      s := s + (if a[x] > 0 then a[x] else 0);
    }
  }

  /** Every edge into an emitted vertex comes from an emitted vertex. */
  ghost predicate Closed(dag: seq<seq<int>>, order: seq<int>) {
    forall j, u, k ::
      (0 <= j < |order| && 0 <= u < |dag| && 0 <= k < |dag[u]| && dag[u][k] == order[j]) ==> u in order
  }

  /** What an empty queue leaves: the order is duplicate-free, forward and
      closed; an in-degree stays positive exactly at a left-out vertex, all
      are 0 exactly when every vertex is emitted, and the left-out vertices
      are stuck. */
  lemma Drained(dag: seq<seq<int>>, indeg: seq<int>, order: seq<int>)
    requires DagValid(dag) && Queued(dag, indeg, order, [])
    ensures NoDup(order) && InRange(order, |dag|)
    ensures Forward(dag, order) && Closed(dag, order) && Stuck(dag, order)
    ensures forall x :: 0 <= x < |dag| ==> (x !in order <==> indeg[x] > 0)
    ensures (forall x :: 0 <= x < |dag| ==> indeg[x] <= 0) <==> |order| == |dag|
  {
    var n := |dag|;
    assert order + [] == order;
    forall i, j, k | 0 <= i < |order| && 0 <= j < |order| && 0 <= order[i] < n
      && 0 <= k < |dag[order[i]]| && dag[order[i]][k] == order[j]
      ensures i < j
    {
      RankNoDup(order, i);
    }
    Pigeonhole(order, n);
    forall v | 0 <= v < n && v !in order
      ensures BlockedAt(dag, order, v)
    {
      InFromZero(dag, v, order, n);
    }
  }

  /** `topoKahn`: the emitted order and the sum of the positive in-degrees
      left over. Each vertex is emitted at most once, every edge between
      emitted vertices points forward, every edge into an emitted vertex
      comes from an emitted one, and the sum is 0 exactly when all vertices
      are emitted; otherwise the left-out vertices are stuck. The order is
      the one `KahnRun` serves. */
  method TopoKahn(dag: seq<seq<int>>) returns (order: seq<int>, indegSum: int)
    requires DagValid(dag)
    ensures order == KahnRun(dag).0
    ensures NoDup(order) && InRange(order, |dag|)
    ensures Forward(dag, order) && Closed(dag, order) && Stuck(dag, order)
    ensures indegSum >= 0 && (indegSum == 0 <==> |order| == |dag|)
  {
    var n := |dag|;
    var indeg := CountInDegrees(dag);
    assert indeg[..] == InDegrees(dag);
    var q := Seeds(dag, indeg[..]);
    order := [];
    while q != []
      invariant Queued(dag, indeg[..], order, q) && |order| <= n
      invariant Serve(dag, indeg[..], q, order, n - |order|) == KahnRun(dag)
      decreases n - |order|
    {
      ghost var before, fuel := indeg[..], n - |order|;
      ServeNext(dag, before, order, q, fuel);
      var u, rest := q[0], q[1..];
      assert q == [u] + rest;
      q := Release(dag, indeg, u, order, rest);
      ghost var r := Released(dag[u], before, rest);
      assert indeg[..] == r.0 && q == r.1;
      order := order + [u];
    }
    assert (order, indeg[..]) == KahnRun(dag);
    KahnRunSound(dag);
    indegSum := PositiveSum(indeg);
  }

  /** An edge ranking: every edge leads to a strictly higher rank. A graph
      has one exactly when it is acyclic. */
  ghost predicate Ranked(dag: seq<seq<int>>, rank: seq<nat>) {
    && |rank| == |dag|
    && (forall u, k :: 0 <= u < |dag| && 0 <= k < |dag[u]| && 0 <= dag[u][k] < |dag|
          ==> rank[u] < rank[dag[u][k]])
  }

  lemma {:induction false} NotStuckAt(dag: seq<seq<int>>, rank: seq<nat>, order: seq<int>, v: int)
    requires DagValid(dag) && Ranked(dag, rank) && Stuck(dag, order) && 0 <= v < |dag|
    ensures v in order
    decreases rank[v]
  {
    if v !in order {
      assert BlockedAt(dag, order, v);
      var u, k :| 0 <= u < |dag| && u !in order && 0 <= k < |dag[u]| && dag[u][k] == v;
      NotStuckAt(dag, rank, order, u);
    }
  }

  /** On an acyclic graph Kahn's order is complete: no left-out vertex can
      be stuck, since following in-edges back among left-out vertices would
      lower the rank forever. So `indegSum` is 0. */
  lemma KahnCompleteOnAcyclic(dag: seq<seq<int>>, rank: seq<nat>, order: seq<int>)
    requires DagValid(dag) && Ranked(dag, rank)
    requires NoDup(order) && InRange(order, |dag|) && Stuck(dag, order)
    ensures |order| == |dag|
  {
    forall v | 0 <= v < |dag| ensures v in order {
      NotStuckAt(dag, rank, order, v);
    }
    Pigeonhole(order, |dag|);
  }
}
