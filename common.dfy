/** Shared vocabulary of the graph-analysis model: optional values (the
    source's nullable boxes), duplicate-free sequences, concatenation of
    vertex lists, and the partition invariant on a list of components. */
module Common {

  /** A Java reference that may be null, such as an `Integer` box or a
      JSON array entry holding `JSONObject.NULL`. */
  datatype Option<+T> = None | Some(value: T)

  /** `Math.min`: a lower bound of both arguments and one of them. */
  function Min(a: int, b: int): (r: int)
    ensures r <= a && r <= b && (r == a || r == b)
  {
    if a <= b then a else b
  }

  /** `Math.max`: an upper bound of both arguments and one of them. */
  function Max(a: int, b: int): (r: int)
    ensures r >= a && r >= b && (r == a || r == b)
  {
    if a >= b then a else b
  }

  /** No element occurs twice. */
  predicate NoDup<T(==)>(s: seq<T>) {
    forall i, j :: 0 <= i < j < |s| ==> s[i] != s[j]
  }

  /** The concatenation of a list of lists, first list first. */
  function Flat<T>(ss: seq<seq<T>>): seq<T> {
    if ss == [] then [] else Flat(ss[..|ss| - 1]) + ss[|ss| - 1]
  }

  /** Every entry of `topo` is a vertex id below `n`. */
  predicate InRange(topo: seq<int>, n: int) {
    forall i :: 0 <= i < |topo| ==> 0 <= topo[i] < n
  }

  /** An input edge `(u, v, w)`. */
  type Edge = (int, int, int)

  predicate EdgesIn(edges: seq<Edge>, n: int) {
    forall k :: 0 <= k < |edges| ==> 0 <= edges[k].0 < n && 0 <= edges[k].1 < n
  }

  /** The edge leads from component `c1` to component `c2`. */
  predicate Crosses(e: Edge, compOf: seq<int>, c1: int, c2: int)
    requires 0 <= e.0 < |compOf| && 0 <= e.1 < |compOf|
  {
    compOf[e.0] == c1 && compOf[e.1] == c2
  }

  /** The vertex ids 0..n-1 in increasing order. */
  function Range(n: nat): (r: seq<int>)
    ensures |r| == n && forall i :: 0 <= i < n ==> r[i] == i
  {
    seq(n, i => i)
  }

  /** `comps` partitions the vertex ids 0..n-1: every component is
      non-empty and every vertex id occurs exactly once overall. */
  ghost predicate IsPartition(comps: seq<seq<int>>, n: int) {
    && (forall c :: 0 <= c < |comps| ==> |comps[c]| > 0)
    && NoDup(Flat(comps))
    && (forall v :: v in Flat(comps) <==> 0 <= v < n)
  }

  lemma {:induction false} FlatMember<T>(ss: seq<seq<T>>, x: T)
    ensures x in Flat(ss) <==> exists c, k :: 0 <= c < |ss| && 0 <= k < |ss[c]| && ss[c][k] == x
  {
    if ss != [] {
      var init := ss[..|ss| - 1];
      FlatMember(init, x);
      if x in Flat(ss) {
        if x !in Flat(init) {
          var k :| 0 <= k < |ss[|ss| - 1]| && ss[|ss| - 1][k] == x;
        } else {
          var c, k :| 0 <= c < |init| && 0 <= k < |init[c]| && init[c][k] == x;
          assert ss[c][k] == x;
        }
      } else {
        forall c, k | 0 <= c < |ss| && 0 <= k < |ss[c]|
          ensures ss[c][k] != x
        {
          if c < |init| {
            assert init[c][k] == ss[c][k];
          } else {
            assert ss[c][k] in ss[|ss| - 1];
          }
        }
      }
    }
  }

  /** An element of a component is an element of the concatenation. */
  lemma FlatHas<T>(ss: seq<seq<T>>, c: int, k: int)
    requires 0 <= c < |ss| && 0 <= k < |ss[c]|
    ensures ss[c][k] in Flat(ss)
  {
    FlatMember(ss, ss[c][k]);
  }

  /** Under a duplicate-free concatenation, a value lies in at most one of
      the lists. */
  lemma {:induction false} FlatDisjoint<T>(ss: seq<seq<T>>, c1: int, c2: int, x: T)
    requires NoDup(Flat(ss)) && 0 <= c1 < |ss| && 0 <= c2 < |ss|
    requires x in ss[c1] && x in ss[c2]
    ensures c1 == c2
  {
    var init, last := ss[..|ss| - 1], ss[|ss| - 1];
    var fi := Flat(init);
    assert Flat(ss) == fi + last;
    assert NoDup(fi) by {
      forall i, j | 0 <= i < j < |fi| ensures fi[i] != fi[j] {
        assert Flat(ss)[i] == fi[i] && Flat(ss)[j] == fi[j];
      }
    }
    if c1 < |ss| - 1 && c2 < |ss| - 1 {
      assert init[c1] == ss[c1] && init[c2] == ss[c2];
      FlatDisjoint(init, c1, c2, x);
    } else if c1 != c2 {
      var c := if c1 < |ss| - 1 then c1 else c2;
      assert init[c] == ss[c];
      var k :| 0 <= k < |init[c]| && init[c][k] == x;
      FlatHas(init, c, k);
      ConcatDisjoint(fi, last);
      assert false;
    }
  }

  /** A non-empty sequence is its prefix followed by its last element. */
  lemma DropLast<T>(s: seq<T>)
    requires s != []
    ensures s[..|s| - 1] + [s[|s| - 1]] == s
  {
  }

  /** The two halves of a duplicate-free concatenation share no value. */
  lemma ConcatDisjoint<T>(a: seq<T>, b: seq<T>)
    requires NoDup(a + b)
    ensures forall x :: x in a ==> x !in b
  {
    forall i, j | 0 <= i < |a| && 0 <= j < |b| ensures a[i] != b[j] {
      assert (a + b)[i] == a[i] && (a + b)[|a| + j] == b[j];
    }
  }

  lemma {:induction false} FlatLength<T>(ss: seq<seq<T>>)
    ensures |Flat(ss)| == SumLengths(ss)
  {
    if ss != [] {
      FlatLength(ss[..|ss| - 1]);
    }
  }

  /** The total of the lengths of a list of lists. */
  function SumLengths<T>(ss: seq<seq<T>>): nat {
    if ss == [] then 0 else SumLengths(ss[..|ss| - 1]) + |ss[|ss| - 1]|
  }

  /** Two duplicate-free lists with no common element concatenate to a
      duplicate-free list. */
  lemma NoDupConcat<T>(a: seq<T>, b: seq<T>)
    requires NoDup(a) && NoDup(b)
    requires forall x :: x in a ==> x !in b
    ensures NoDup(a + b)
  {
    forall i, j | 0 <= i < j < |a + b|
      ensures (a + b)[i] != (a + b)[j]
    {
      if i < |a| && |a| <= j {
        assert (a + b)[i] in a;
        assert (a + b)[j] == b[j - |a|];
      }
    }
  }

  /** A duplicate-free list has as many distinct elements as entries. */
  lemma {:induction false} DistinctCard<T>(s: seq<T>)
    requires NoDup(s)
    ensures |set x | x in s| == |s|
  {
    if s != [] {
      var init := s[..|s| - 1];
      assert NoDup(init);
      DistinctCard(init);
      assert (set x | x in s) == (set x | x in init) + {s[|s| - 1]};
      assert s[|s| - 1] !in (set x | x in init);
    }
  }

  lemma RangeMember(n: nat, x: int)
    ensures x in Range(n) <==> 0 <= x < n
  {
    if 0 <= x < n {
      assert Range(n)[x] == x;
    }
  }

  /** Pigeonhole: a duplicate-free list of vertex ids below `n` has at most
      `n` entries, fewer if some id below `n` is missing, and exactly `n`
      if and only if it contains every id below `n`. */
  lemma Pigeonhole(s: seq<int>, n: nat)
    requires NoDup(s) && forall i :: 0 <= i < |s| ==> 0 <= s[i] < n
    ensures |s| <= n
    ensures (exists v :: 0 <= v < n && v !in s) ==> |s| < n
    ensures |s| == n <==> forall v :: 0 <= v < n ==> v in s
  {
    var elems := set x | x in s;
    var all := set x | x in Range(n);
    DistinctCard(s);
    DistinctCard(Range(n));
    forall x | x in elems
      ensures x in all
    {
      RangeMember(n, x);
    }
    assert elems <= all;
    SubsetCard(elems, all);
    if exists v :: 0 <= v < n && v !in s {
      var v :| 0 <= v < n && v !in s;
      RangeMember(n, v);
      assert elems <= all - {v};
      SubsetCard(elems, all - {v});
    }
    if forall v :: 0 <= v < n ==> v in s {
      forall x | x in all
        ensures x in elems
      {
        RangeMember(n, x);
      }
      assert elems == all;
    }
  }

  lemma SubsetCard<T>(a: set<T>, b: set<T>)
    requires a <= b
    ensures |a| <= |b|
  {
    assert b == a + (b - a);
  }

  /** The position of the first occurrence of `x` in `topo`, or the
      length of `topo` when `x` does not occur. */
  function Rank(topo: seq<int>, x: int): (r: nat)
    ensures r <= |topo| && (r < |topo| <==> x in topo)
    ensures r < |topo| ==> topo[r] == x
    ensures forall j :: 0 <= j < r ==> topo[j] != x
  {
    if topo == [] then 0
    else if topo[0] == x then 0
    else 1 + Rank(topo[1..], x)
  }
}
