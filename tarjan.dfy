/** Tarjan's strongly-connected-components decomposition
    (src/main/java/graph/scc/TarjanSCC.java): a recursive depth-first search
    over shared arrays that assigns discovery indices and low-links, keeps an
    explicit stack with on-stack flags, and emits a component, in stack-pop
    order, whenever a vertex's low-link equals its own index. */
module TarjanState {
  import opened Common

  /** The search state as values: the counter, the ghost discovery order,
      the three arrays as sequences, the stack (top LAST), the emitted
      components, and the ghost number of the component each vertex was
      emitted in (-1 while it has none). */
  datatype SearchState = SearchState(
    time: int,
    order: seq<int>,
    index: seq<int>,
    low: seq<int>,
    onStack: seq<bool>,
    stack: seq<int>,
    comps: seq<seq<int>>,
    cid: seq<int>)

  ghost predicate Sized(n: nat, s: SearchState) {
    |s.index| == n && |s.low| == n && |s.onStack| == n && |s.cid| == n
  }

  /** The root of a finished component is the vertex popped last. */
  function Root(comp: seq<int>): int
    requires |comp| > 0
  {
    comp[|comp| - 1]
  }

  /** `index[v] == -1` marks an unvisited vertex; `order[i]` is the vertex
      whose index is `i`, so visited vertices carry distinct indices below
      `time`; a visited vertex's low-link lies between 0 and its index. */
  ghost predicate Discovery(n: nat, s: SearchState)
    requires Sized(n, s)
  {
    && s.time == |s.order|
    && (forall i :: 0 <= i < |s.order| ==> 0 <= s.order[i] < n && s.index[s.order[i]] == i)
    && (forall v :: 0 <= v < n ==>
          -1 <= s.index[v] < s.time &&
          (s.index[v] != -1 ==> s.order[s.index[v]] == v && 0 <= s.low[v] <= s.index[v]))
  }

  /** The stack holds visited vertices in increasing index order, exactly
      the vertices flagged on-stack, and no vertex on it has a low-link
      below the index of the bottom of the stack. */
  ghost predicate StackShape(n: nat, s: SearchState)
    requires Sized(n, s)
  {
    && (forall i :: 0 <= i < |s.stack| ==> 0 <= s.stack[i] < n && s.index[s.stack[i]] != -1)
    && (forall i :: 0 <= i < |s.stack| ==> s.index[s.stack[0]] <= s.low[s.stack[i]])
    && (forall v :: 0 <= v < n ==> (s.onStack[v] <==> v in s.stack))
    && (forall i, j :: 0 <= i < j < |s.stack| ==> s.index[s.stack[i]] < s.index[s.stack[j]])
  }

  /** A vertex has been emitted exactly when it is visited and off the
      stack, and then it occurs in the component `cid` names. */
  ghost predicate EmittedVertices(n: nat, s: SearchState)
    requires Sized(n, s)
  {
    forall v :: 0 <= v < n ==>
      (s.cid[v] != -1 <==> s.index[v] != -1 && !s.onStack[v]) &&
      (s.cid[v] != -1 ==> 0 <= s.cid[v] < |s.comps| && v in s.comps[s.cid[v]])
  }

  /** Every component is non-empty and duplicate-free, and its root has a
      low-link equal to its index. */
  ghost predicate CompsRooted(n: nat, s: SearchState)
    requires Sized(n, s)
  {
    forall c :: 0 <= c < |s.comps| ==>
      |s.comps[c]| > 0 && NoDup(s.comps[c]) &&
      0 <= Root(s.comps[c]) < n && s.low[Root(s.comps[c])] == s.index[Root(s.comps[c])]
  }

  /** The members of a component carry its number, and none has an index
      below the root's. */
  ghost predicate CompsNumbered(n: nat, s: SearchState)
    requires Sized(n, s)
  {
    forall c, k :: 0 <= c < |s.comps| && 0 <= k < |s.comps[c]| ==>
      0 <= s.comps[c][k] < n && s.cid[s.comps[c][k]] == c &&
      0 <= Root(s.comps[c]) < n && s.index[Root(s.comps[c])] <= s.index[s.comps[c][k]]
  }

  ghost predicate Emitted(n: nat, s: SearchState)
    requires Sized(n, s)
  {
    EmittedVertices(n, s) && CompsRooted(n, s) && CompsNumbered(n, s)
  }

  /** The invariant that every step of the search keeps. */
  ghost predicate Good(n: nat, s: SearchState) {
    Sized(n, s) && Discovery(n, s) && StackShape(n, s) && Emitted(n, s)
  }

  /** The state `run()` starts from. */
  function Initial(n: nat): SearchState {
    SearchState(0, [], seq(n, _ => -1), seq(n, _ => 0), seq(n, _ => false), [], [], seq(n, _ => -1))
  }

  lemma InitGood(n: nat)
    ensures Good(n, Initial(n))
  {
  }

  /** The visit step of `dfs(v)`: `index[v] = lowlink[v] = time++`, push
      `v`, flag it on-stack. */
  function Visited(s: SearchState, v: int): SearchState
    requires 0 <= v < |s.index| && 0 <= v < |s.low| && 0 <= v < |s.onStack|
  {
    s.(time := s.time + 1, order := s.order + [v],
       index := s.index[v := s.time], low := s.low[v := s.time],
       onStack := s.onStack[v := true], stack := s.stack + [v])
  }

  /** `lowlink[v] = Math.min(lowlink[v], val)`. */
  function Lowered(s: SearchState, v: int, val: int): SearchState
    requires 0 <= v < |s.low|
  {
    s.(low := s.low[v := Min(s.low[v], val)])
  }

  /** The pop loop of `dfs`: everything above position `k` of the stack
      leaves it, in pop order, as one new component. */
  function Popped(s: SearchState, k: int): SearchState
    requires 0 <= k <= |s.stack|
  {
    s.(onStack := seq(|s.onStack|, x => x in s.stack[..k]),
       stack := s.stack[..k],
       comps := s.comps + [Reversed(s.stack[k..])],
       cid := seq(|s.cid|, x requires 0 <= x < |s.cid| => if x in s.stack[k..] then |s.comps| else s.cid[x]))
  }

  function Reversed(s: seq<int>): (r: seq<int>)
    ensures |r| == |s| && forall i :: 0 <= i < |r| ==> r[i] == s[|s| - 1 - i]
  {
    seq(|s|, i requires 0 <= i < |s| => s[|s| - 1 - i])
  }

  /** The stack part of the state holds distinct vertices below `n`, and a
      vertex is flagged on-stack exactly when it is on the stack. */
  ghost predicate PopReady(n: nat, t: SearchState) {
    Sized(n, t) && NoDup(t.stack) && InRange(t.stack, n)
    && forall x :: 0 <= x < n ==> (t.onStack[x] <==> x in t.stack)
  }

  /** One turn of the pop loop: `w = stack.pop(); onStack[w] = false`, and
      `w` joins the component being built. */
  function PopTop(t: SearchState): SearchState
    requires |t.stack| > 0
  {
    var w := t.stack[|t.stack| - 1];
    t.(stack := t.stack[..|t.stack| - 1],
       onStack := if 0 <= w < |t.onStack| then t.onStack[w := false] else t.onStack,
       cid := if 0 <= w < |t.cid| then t.cid[w := |t.comps|] else t.cid)
  }

  /** Midway through the pop loop that started in `s` and stops at stack
      position `k`: the stack is cut down to `t.stack`, and the popped
      vertices are in `comp` in pop order, unflagged and numbered with the
      new component. */
  ghost predicate Popping(n: nat, s: SearchState, t: SearchState, k: int, comp: seq<int>) {
    && PopReady(n, s) && Sized(n, t) && 0 <= k <= |t.stack| <= |s.stack| && t.stack == s.stack[..|t.stack|]
    && t.time == s.time && t.order == s.order && t.index == s.index && t.low == s.low && t.comps == s.comps
    && comp == Reversed(s.stack[|t.stack|..])
    && (forall x :: 0 <= x < n ==> (t.onStack[x] <==> x in t.stack))
    && (forall x :: 0 <= x < n ==> t.cid[x] == if x in s.stack[|t.stack|..] then |s.comps| else s.cid[x])
  }

  lemma GoodPopReady(n: nat, t: SearchState)
    requires Good(n, t)
    ensures PopReady(n, t)
  {
    StackFacts(n, t);
  }

  lemma PopStart(n: nat, s: SearchState, k: int)
    requires PopReady(n, s) && 0 <= k < |s.stack|
    ensures Popping(n, s, s, k, [])
  {
  }

  /** Popping the top keeps the loop state; the popped vertex is the one at
      position `k` exactly when the stack is then `k` deep. */
  lemma PopStep(n: nat, s: SearchState, t: SearchState, k: int, comp: seq<int>)
    requires Popping(n, s, t, k, comp) && |t.stack| > k
    ensures var w := t.stack[|t.stack| - 1];
      && Popping(n, s, PopTop(t), k, comp + [w])
      && (w == s.stack[k] <==> |t.stack| - 1 == k)
  {
    var m := |t.stack| - 1;
    var w := t.stack[m];
    assert w == s.stack[m];
    assert s.stack[m..] == [w] + s.stack[m + 1..];
    assert w !in s.stack[..m] by {
      forall i | 0 <= i < m ensures s.stack[i] != w {}
    }
    assert s.stack[..m] == t.stack[..m];
  }

  /** When the loop stops at depth `k`, appending `comp` gives the state
      the whole pop loop specifies. */
  lemma PopDone(n: nat, s: SearchState, t: SearchState, k: int, comp: seq<int>)
    requires Popping(n, s, t, k, comp) && |t.stack| == k
    ensures t.(comps := t.comps + [comp]) == Popped(s, k)
  {
    var u := Popped(s, k);
    assert t.onStack == u.onStack;
    assert t.cid == u.cid;
  }

  /** From `a` to `b` the search only moved forward: the counter did not
      decrease, the old stack is still at the bottom, earlier components are
      untouched, and every vertex visited in `a` keeps its index, low-link
      and on-stack flag. */
  ghost predicate Keeps(n: nat, a: SearchState, b: SearchState)
    requires Sized(n, a) && Sized(n, b)
  {
    && a.time <= b.time
    && |a.stack| <= |b.stack| && b.stack[..|a.stack|] == a.stack
    && |a.comps| <= |b.comps| && b.comps[..|a.comps|] == a.comps
    && forall x :: 0 <= x < n && a.index[x] != -1 ==>
         b.index[x] == a.index[x] && b.low[x] == a.low[x] && b.onStack[x] == a.onStack[x]
  }

  lemma KeepsTrans(n: nat, a: SearchState, b: SearchState, c: SearchState)
    requires Sized(n, a) && Sized(n, b) && Sized(n, c)
    requires Keeps(n, a, b) && Keeps(n, b, c)
    ensures Keeps(n, a, c)
  {
    assert c.stack[..|a.stack|] == c.stack[..|b.stack|][..|a.stack|];
    assert c.comps[..|a.comps|] == c.comps[..|b.comps|][..|a.comps|];
  }

  /** The stack lists distinct vertices, each flagged on-stack. */
  lemma StackFacts(n: nat, s: SearchState)
    requires Good(n, s)
    ensures NoDup(s.stack)
    ensures forall i :: 0 <= i < |s.stack| ==> 0 <= s.stack[i] < n && s.onStack[s.stack[i]] && s.cid[s.stack[i]] == -1
  {
    forall i, j | 0 <= i < j < |s.stack|
      ensures s.stack[i] != s.stack[j]
    {
      assert s.index[s.stack[i]] < s.index[s.stack[j]];
    }
  }

  /** No finished component contains a vertex that is unvisited or on
      the stack. */
  lemma NotEmitted(n: nat, s: SearchState, v: int)
    requires Good(n, s) && 0 <= v < n && (s.index[v] == -1 || s.onStack[v])
    ensures forall c :: 0 <= c < |s.comps| ==> Root(s.comps[c]) != v
    ensures forall c, k :: 0 <= c < |s.comps| && 0 <= k < |s.comps[c]| ==> s.comps[c][k] != v
  {
    forall c | 0 <= c < |s.comps|
      ensures Root(s.comps[c]) != v
    {
      assert s.cid[Root(s.comps[c])] == c;
    }
  }

  lemma VisitStack(n: nat, s: SearchState, v: int)
    requires Good(n, s) && 0 <= v < n && s.index[v] == -1
    ensures Sized(n, Visited(s, v)) && StackShape(n, Visited(s, v))
  {
    var t := Visited(s, v);
    assert v !in s.stack;
    forall i | 0 <= i < |t.stack|
      ensures t.index[t.stack[0]] <= t.low[t.stack[i]]
    {
      if i < |s.stack| {
        assert t.stack[i] == s.stack[i];
      }
    }
  }

  lemma VisitEmitted(n: nat, s: SearchState, v: int)
    requires Good(n, s) && 0 <= v < n && s.index[v] == -1
    ensures Sized(n, Visited(s, v)) && Emitted(n, Visited(s, v))
  {
    NotEmitted(n, s, v);
    var t := Visited(s, v);
    assert EmittedVertices(n, t);
    assert CompsRooted(n, t);
  }

  lemma VisitDiscovery(n: nat, s: SearchState, v: int)
    requires Good(n, s) && 0 <= v < n && s.index[v] == -1
    ensures Sized(n, Visited(s, v)) && Discovery(n, Visited(s, v))
  {
    var t := Visited(s, v);
    forall i | 0 <= i < |t.order|
      ensures 0 <= t.order[i] < n && t.index[t.order[i]] == i
    {
      if i < |s.order| {
        assert t.order[i] == s.order[i] != v;
      }
    }
  }

  lemma VisitKeeps(n: nat, s: SearchState, v: int)
    requires Good(n, s) && 0 <= v < n && s.index[v] == -1
    ensures Sized(n, Visited(s, v)) && Keeps(n, s, Visited(s, v))
  {
    var t := Visited(s, v);
    assert t.stack[..|s.stack|] == s.stack;
  }

  lemma VisitGood(n: nat, s: SearchState, v: int)
    requires Good(n, s) && 0 <= v < n && s.index[v] == -1
    ensures Good(n, Visited(s, v)) && Keeps(n, s, Visited(s, v))
  {
    VisitDiscovery(n, s, v);
    VisitStack(n, s, v);
    VisitEmitted(n, s, v);
    VisitKeeps(n, s, v);
  }

  /** Lowering the low-link of an on-stack vertex to a value not below the
      index of the stack bottom keeps the invariant. */
  lemma LowerGood(n: nat, s: SearchState, v: int, val: int)
    requires Good(n, s) && 0 <= v < n && s.onStack[v] && 0 <= val
    requires |s.stack| > 0 && s.index[s.stack[0]] <= val
    ensures Good(n, Lowered(s, v, val))
  {
    NotEmitted(n, s, v);
    var t := Lowered(s, v, val);
    assert CompsRooted(n, t);
  }

  /** Lowering the low-link of a vertex not yet visited in `a` keeps
      `Keeps(a, _)`. */
  lemma LowerKeeps(n: nat, a: SearchState, b: SearchState, v: int, val: int)
    requires Sized(n, a) && Sized(n, b) && Keeps(n, a, b)
    requires 0 <= v < n && a.index[v] == -1
    ensures Keeps(n, a, Lowered(b, v, val))
  {
  }

  /** What the popped block contributes: a duplicate-free component rooted
      at `v`, of visited vertices that are not among the remaining stack. */
  lemma PopBlock(n: nat, s: SearchState, v: int, k: int)
    requires Good(n, s) && 0 <= v < n
    requires 0 <= k < |s.stack| && s.stack[k] == v
    ensures var comp := Reversed(s.stack[k..]);
      && |comp| > 0 && Root(comp) == v && NoDup(comp)
      && (forall i :: 0 <= i < |comp| ==>
            0 <= comp[i] < n && s.index[v] <= s.index[comp[i]] && s.index[comp[i]] != -1 &&
            comp[i] !in s.stack[..k] && s.cid[comp[i]] == -1)
  {
    StackFacts(n, s);
    PopBlockShape(n, s, v, k);
  }

  /** The same, from the stack facts alone. */
  lemma PopBlockShape(n: nat, s: SearchState, v: int, k: int)
    requires Sized(n, s) && StackShape(n, s) && NoDup(s.stack)
    requires forall i :: 0 <= i < |s.stack| ==> s.cid[s.stack[i]] == -1
    requires 0 <= k < |s.stack| && s.stack[k] == v
    ensures var comp := Reversed(s.stack[k..]);
      && |comp| > 0 && Root(comp) == v && NoDup(comp)
      && (forall i :: 0 <= i < |comp| ==>
            0 <= comp[i] < n && s.index[v] <= s.index[comp[i]] && s.index[comp[i]] != -1 &&
            comp[i] !in s.stack[..k] && s.cid[comp[i]] == -1)
  {
    var comp := Reversed(s.stack[k..]);
    forall i, j | 0 <= i < j < |comp|
      ensures comp[i] != comp[j]
    {
      assert comp[i] == s.stack[|s.stack| - 1 - i];
    }
    forall i | 0 <= i < |comp|
      ensures s.index[v] <= s.index[comp[i]] && comp[i] !in s.stack[..k]
    {
      var j := |s.stack| - 1 - i;
      if j > k {
        assert s.index[s.stack[k]] < s.index[s.stack[j]];
      }
      forall m | 0 <= m < k
        ensures s.stack[m] != comp[i]
      {
      }
    }
  }

  lemma PopStack(n: nat, s: SearchState, k: int)
    requires Good(n, s) && 0 <= k < |s.stack|
    ensures Sized(n, Popped(s, k)) && StackShape(n, Popped(s, k))
  {
  }

  lemma PopVertices(n: nat, s: SearchState, k: int)
    requires Sized(n, s) && StackShape(n, s) && EmittedVertices(n, s) && NoDup(s.stack)
    requires 0 <= k < |s.stack|
    ensures Sized(n, Popped(s, k)) && EmittedVertices(n, Popped(s, k))
  {
    var t := Popped(s, k);
    forall x | 0 <= x < n
      ensures (t.cid[x] != -1 <==> t.index[x] != -1 && !t.onStack[x])
      ensures t.cid[x] != -1 ==> 0 <= t.cid[x] < |t.comps| && x in t.comps[t.cid[x]]
    {
      PopVertex(n, s, k, x);
    }
  }

  /** The emitted-vertex facts for one vertex `x` after the pop. */
  lemma PopVertex(n: nat, s: SearchState, k: int, x: int)
    requires Sized(n, s) && StackShape(n, s) && EmittedVertices(n, s) && NoDup(s.stack)
    requires 0 <= k < |s.stack| && 0 <= x < n
    ensures var t := Popped(s, k);
      && (t.cid[x] != -1 <==> t.index[x] != -1 && !t.onStack[x])
      && (t.cid[x] != -1 ==> 0 <= t.cid[x] < |t.comps| && x in t.comps[t.cid[x]])
  {
    var t := Popped(s, k);
    var top := s.stack[k..];
    if x in top {
      var j :| 0 <= j < |top| && top[j] == x;
      assert s.index[s.stack[k + j]] != -1;
      assert x !in s.stack[..k] by {
        forall i | 0 <= i < k ensures s.stack[i] != x {
          assert s.stack[k + j] == x;
        }
      }
      assert Reversed(top)[|top| - 1 - j] == x;
      assert t.comps[|s.comps|] == Reversed(top);
    } else {
      assert t.onStack[x] == s.onStack[x] by {
        assert s.stack == s.stack[..k] + top;
      }
      if s.cid[x] != -1 {
        assert t.comps[s.cid[x]] == s.comps[s.cid[x]];
      }
    }
  }

  lemma PopRooted(n: nat, s: SearchState, v: int, k: int)
    requires Good(n, s) && 0 <= v < n && s.low[v] == s.index[v]
    requires 0 <= k < |s.stack| && s.stack[k] == v
    ensures Sized(n, Popped(s, k)) && CompsRooted(n, Popped(s, k))
  {
    var t := Popped(s, k);
    PopBlock(n, s, v, k);
    forall c | 0 <= c < |t.comps|
      ensures |t.comps[c]| > 0 && NoDup(t.comps[c])
      ensures 0 <= Root(t.comps[c]) < n && t.low[Root(t.comps[c])] == t.index[Root(t.comps[c])]
    {
      if c < |s.comps| {
        assert t.comps[c] == s.comps[c];
      }
    }
  }

  lemma PopNumbered(n: nat, s: SearchState, v: int, k: int)
    requires Good(n, s) && 0 <= v < n
    requires 0 <= k < |s.stack| && s.stack[k] == v
    ensures Sized(n, Popped(s, k)) && CompsNumbered(n, Popped(s, k))
  {
    var t := Popped(s, k);
    var comp := Reversed(s.stack[k..]);
    var top := s.stack[k..];
    PopBlock(n, s, v, k);
    forall c, i | 0 <= c < |t.comps| && 0 <= i < |t.comps[c]|
      ensures 0 <= t.comps[c][i] < n && t.cid[t.comps[c][i]] == c && 0 <= Root(t.comps[c]) < n
      ensures t.index[Root(t.comps[c])] <= t.index[t.comps[c][i]]
    {
      if c == |s.comps| {
        assert t.comps[c] == comp;
        assert comp[i] == top[|top| - 1 - i];
      } else {
        assert t.comps[c] == s.comps[c];
        var x := s.comps[c][i];
        assert s.cid[x] == c;
        assert x !in top;
      }
    }
  }

  /** Popping the block above the root `v` keeps the invariant. */
  lemma PopGood(n: nat, s: SearchState, v: int, k: int)
    requires Good(n, s) && 0 <= v < n && s.low[v] == s.index[v]
    requires 0 <= k < |s.stack| && s.stack[k] == v
    ensures Good(n, Popped(s, k))
  {
    PopStack(n, s, k);
    StackFacts(n, s);
    PopVertices(n, s, k);
    PopRooted(n, s, v, k);
    PopNumbered(n, s, v, k);
  }

  /** Popping the block above position `|a.stack|` keeps `Keeps(a, _)`:
      no vertex of that block was visited in `a`. */
  lemma PopKeeps(n: nat, a: SearchState, b: SearchState, k: int)
    requires Good(n, a) && Good(n, b) && Keeps(n, a, b)
    requires k == |a.stack| < |b.stack|
    ensures Keeps(n, a, Popped(b, k))
  {
    var t := Popped(b, k);
    forall x | 0 <= x < n && a.index[x] != -1
      ensures t.onStack[x] == a.onStack[x]
    {
      assert b.stack[..k] == a.stack;
    }
    assert t.comps[..|a.comps|] == b.comps[..|a.comps|];
  }

  /** After the recursive call on the unvisited successor `to` of `v`, `v`
      is still where it was on the stack, and the low-link of `to` is not
      below the index of the stack bottom. */
  lemma ChildReturned(n: nat, s: SearchState, pre: SearchState, post: SearchState, v: int, to: int, depth: int)
    requires Sized(n, s) && Good(n, pre) && Good(n, post)
    requires Keeps(n, s, pre) && Keeps(n, pre, post)
    requires 0 <= v < n && 0 <= to < n && pre.index[v] != -1 && pre.onStack[v]
    requires 0 <= depth < |pre.stack| && pre.stack[depth] == v
    requires pre.index[to] == -1 && post.index[to] == pre.time
    requires !post.onStack[to] ==> post.low[to] == post.index[to]
    ensures Keeps(n, s, post)
    ensures post.onStack[v] && depth < |post.stack| && post.stack[depth] == v
    ensures 0 <= post.low[to] && post.index[post.stack[0]] <= post.low[to]
  {
    KeepsTrans(n, s, pre, post);
    assert post.stack[depth] == pre.stack[depth];
    assert post.stack[0] == pre.stack[0];
  }

  /** An on-stack successor has an index not below the stack bottom's. */
  lemma OnStackSuccessor(n: nat, s: SearchState, to: int)
    requires Good(n, s) && 0 <= to < n && s.onStack[to]
    ensures |s.stack| > 0 && 0 <= s.index[to] && s.index[s.stack[0]] <= s.index[to]
  {
    var j :| 0 <= j < |s.stack| && s.stack[j] == to;
    if j > 0 {
      assert s.index[s.stack[0]] < s.index[s.stack[j]];
    }
  }

  /** The bottom of the stack never has a low-link below its own index. */
  lemma BottomIsRoot(n: nat, s: SearchState)
    requires Good(n, s) && |s.stack| > 0
    ensures s.low[s.stack[0]] == s.index[s.stack[0]]
  {
  }

  /** The state inside `dfs(v)`'s successor loop, for a call that started
      in state `s` with the stack `depth` deep: the invariant holds, `s` is
      kept, `v` got the next index and is still on the stack at `depth`. */
  ghost predicate Exploring(n: nat, s: SearchState, t: SearchState, v: int, depth: int) {
    && 0 <= v < n && Sized(n, s) && s.index[v] == -1 && Good(n, t) && Keeps(n, s, t)
    && t.index[v] == s.time < t.time
    && t.onStack[v] && 0 <= depth < |t.stack| && t.stack[depth] == v
  }

  /** The state after `dfs(v)` returns: as `Exploring`, except that `v`
      may have been popped as the root of a component, in which case the
      stack is back to what it was when the call began. A call on an empty
      stack always returns an empty stack. */
  ghost predicate Concluded(n: nat, s: SearchState, t: SearchState, v: int, depth: int) {
    && 0 <= v < n && Sized(n, s) && Good(n, t) && Keeps(n, s, t)
    && t.index[v] == s.time < t.time
    && (t.onStack[v] ==> 0 <= depth < |t.stack| && t.stack[depth] == v)
    && (!t.onStack[v] ==> t.stack == s.stack && t.low[v] == t.index[v])
    && (s.stack == [] ==> t.stack == [])
  }

  /** Visiting an unvisited `v` enters the successor loop. */
  lemma ExploreStart(n: nat, s: SearchState, v: int)
    requires Good(n, s) && 0 <= v < n && s.index[v] == -1
    ensures Exploring(n, s, Visited(s, v), v, |s.stack|)
  {
    VisitGood(n, s, v);
  }

  /** After the recursive call on an unvisited successor `to`, folding its
      low-link into `v`'s stays in the successor loop. */
  lemma ChildStep(n: nat, s: SearchState, pre: SearchState, post: SearchState, v: int, to: int, depth: int)
    requires Exploring(n, s, pre, v, depth) && 0 <= to < n && pre.index[to] == -1
    requires Concluded(n, pre, post, to, |pre.stack|)
    ensures 0 <= v < |post.low| && Exploring(n, s, Lowered(post, v, post.low[to]), v, depth)
  {
    ChildReturned(n, s, pre, post, v, to, depth);
    LowerGood(n, post, v, post.low[to]);
    LowerKeeps(n, s, post, v, post.low[to]);
  }

  /** Folding the index of an on-stack successor `to` into `v`'s low-link
      stays in the successor loop. */
  lemma OnStackStep(n: nat, s: SearchState, t: SearchState, v: int, to: int, depth: int)
    requires Exploring(n, s, t, v, depth) && 0 <= to < n && t.onStack[to]
    ensures 0 <= v < |t.low| && Exploring(n, s, Lowered(t, v, t.index[to]), v, depth)
  {
    OnStackSuccessor(n, t, to);
    LowerGood(n, t, v, t.index[to]);
    LowerKeeps(n, s, t, v, t.index[to]);
  }

  /** Leaving the successor loop with `v`'s low-link equal to its index:
      popping the component rooted at `v` ends `dfs(v)`. */
  lemma PopConcludes(n: nat, s: SearchState, t: SearchState, v: int, depth: int)
    requires Exploring(n, s, t, v, depth)
    requires Good(n, s) && depth == |s.stack| && t.low[v] == t.index[v]
    ensures Concluded(n, s, Popped(t, depth), v, depth)
  {
    PopGood(n, t, v, depth);
    PopKeeps(n, s, t, depth);
    var u := Popped(t, depth);
    assert u.stack == s.stack by {
      assert t.stack[..|s.stack|] == s.stack;
    }
    assert !u.onStack[v] by {
      StackFacts(n, t);
      assert v !in t.stack[..depth];
    }
  }

  /** Leaving the successor loop with `v`'s low-link below its index ends
      `dfs(v)` with `v` still on the stack; this never happens at the
      bottom of the stack. */
  lemma StayConcludes(n: nat, s: SearchState, t: SearchState, v: int, depth: int)
    requires Exploring(n, s, t, v, depth)
    requires Good(n, s) && depth == |s.stack| && t.low[v] != t.index[v]
    ensures Concluded(n, s, t, v, depth)
  {
    if depth == 0 {
      BottomIsRoot(n, t);
    }
  }

  /** The loop of `run()` has passed the first `m` vertex ids: the stack
      is empty and each of them is visited. */
  ghost predicate Searched(n: nat, s: SearchState, m: int) {
    Good(n, s) && s.stack == [] && 0 <= m <= n && forall u :: 0 <= u < m ==> s.index[u] != -1
  }

  /** A search started by `run()` on an empty stack returns on an empty
      stack, with its start vertex and every earlier visit still visited. */
  lemma SearchStep(n: nat, s: SearchState, t: SearchState, v: int)
    requires Searched(n, s, v) && v < n && Concluded(n, s, t, v, 0)
    ensures Searched(n, t, v + 1)
  {
  }

  /** Visited vertices have distinct indices, so `order` has no
      duplicates; an unvisited vertex therefore leaves `time` below `n`. */
  lemma UnvisitedBound(n: nat, s: SearchState, v: int)
    requires Sized(n, s) && Discovery(n, s) && 0 <= v < n && s.index[v] == -1
    ensures s.time < n
  {
    forall i, j | 0 <= i < j < |s.order|
      ensures s.order[i] != s.order[j]
    {
      assert s.index[s.order[i]] == i;
    }
    Pigeonhole(s.order, n);
    assert v !in s.order;
  }

  /** There are never more visits than vertices. */
  lemma TimeBound(n: nat, s: SearchState)
    requires Sized(n, s) && Discovery(n, s)
    ensures s.time <= n
  {
    forall i, j | 0 <= i < j < |s.order|
      ensures s.order[i] != s.order[j]
    {
      assert s.index[s.order[i]] == i;
    }
    Pigeonhole(s.order, n);
  }

  /** Components that are each duplicate-free and whose members carry
      their own component's number concatenate without duplicates. */
  lemma {:induction false} FlatDistinct(n: nat, comps: seq<seq<int>>, cid: seq<int>)
    requires |cid| == n
    requires forall c :: 0 <= c < |comps| ==> NoDup(comps[c])
    requires forall c, k :: 0 <= c < |comps| && 0 <= k < |comps[c]| ==>
               0 <= comps[c][k] < n && cid[comps[c][k]] == c
    ensures NoDup(Flat(comps))
  {
    if comps != [] {
      var init := comps[..|comps| - 1];
      var last := comps[|comps| - 1];
      forall c, k | 0 <= c < |init| && 0 <= k < |init[c]|
        ensures 0 <= init[c][k] < n && cid[init[c][k]] == c
      {
        assert init[c] == comps[c];
      }
      FlatDistinct(n, init, cid);
      forall x | x in Flat(init)
        ensures x !in last
      {
        FlatMember(init, x);
        var c, k :| 0 <= c < |init| && 0 <= k < |init[c]| && init[c][k] == x;
        assert comps[c][k] == x;
        forall j | 0 <= j < |last|
          ensures last[j] != x
        {
          assert cid[comps[|comps| - 1][j]] == |comps| - 1;
        }
      }
      NoDupConcat(Flat(init), last);
    }
  }

  /** When the search is over (every vertex visited, stack empty), the
      components partition the vertices. */
  lemma FinalPartition(n: nat, s: SearchState)
    requires Good(n, s) && s.stack == []
    requires forall u :: 0 <= u < n ==> s.index[u] != -1
    ensures IsPartition(s.comps, n)
    ensures forall v :: 0 <= v < n ==> !s.onStack[v]
  {
    forall u | 0 <= u < n
      ensures u in Flat(s.comps)
    {
      var c := s.cid[u];
      var k :| 0 <= k < |s.comps[c]| && s.comps[c][k] == u;
      FlatHas(s.comps, c, k);
    }
    forall x | x in Flat(s.comps)
      ensures 0 <= x < n
    {
      FlatMember(s.comps, x);
    }
    FlatDistinct(n, s.comps, s.cid);
  }

  /** When the search is over, the indices are exactly 0..n-1. */
  lemma FinalIndices(n: nat, s: SearchState)
    requires Good(n, s)
    requires forall u :: 0 <= u < n ==> s.index[u] != -1
    ensures s.time == n
    ensures forall v :: 0 <= v < n ==> 0 <= s.index[v] < n && s.low[v] <= s.index[v]
    ensures forall v, w :: 0 <= v < w < n ==> s.index[v] != s.index[w]
  {
    forall i, j | 0 <= i < j < |s.order|
      ensures s.order[i] != s.order[j]
    {
      assert s.index[s.order[i]] == i;
    }
    forall u | 0 <= u < n
      ensures u in s.order
    {
      assert s.order[s.index[u]] == u;
    }
    Pigeonhole(s.order, n);
    forall v, w | 0 <= v < w < n
      ensures s.index[v] != s.index[w]
    {
      assert s.order[s.index[v]] == v;
    }
  }
}

/** The search itself, over the class's arrays. */
module TarjanScc {
  import opened Common
  import opened TarjanState

  class TarjanSCC {
    const n: nat
    var adj: seq<seq<int>>
    var time: int
    var index: array<int>
    var lowlink: array<int>
    var onStack: array<bool>
    /** The traversal stack; its top is the LAST element. */
    var stack: seq<int>
    var components: seq<seq<int>>
    /** The visited vertices in discovery order: `order[i]` has index `i`. */
    ghost var order: seq<int>
    /** The number of the component each vertex was emitted in, or -1. */
    ghost var cid: seq<int>

    /** Every adjacency list names vertices below `n`. */
    ghost predicate AdjValid()
      reads this
    {
      |adj| == n && forall u, k :: 0 <= u < n && 0 <= k < |adj[u]| ==> 0 <= adj[u][k] < n
    }

    /** The work arrays have one slot per vertex and do not alias. */
    ghost predicate Shape()
      reads this
    {
      index.Length == n && lowlink.Length == n && onStack.Length == n && index != lowlink
    }

    ghost function State(): SearchState
      reads this, index, lowlink, onStack
    {
      SearchState(time, order, index[..], lowlink[..], onStack[..], stack, components, cid)
    }

    ghost predicate Inv()
      reads this, index, lowlink, onStack
    {
      AdjValid() && Shape() && Good(n, State())
    }

    /** `new TarjanSCC(n)`: `n` empty adjacency lists. The work arrays are
        allocated by `Run`; until then they are empty. */
    constructor (n: nat)
      ensures this.n == n && adj == seq(n, _ => []) && AdjValid()
    {
      this.n := n;
      adj := seq(n, _ => []);
      time := 0;
      index := new int[0];
      lowlink := new int[0];
      onStack := new bool[0];
      stack := [];
      components := [];
      order := [];
      cid := [];
    }

    /** `addEdge(u, v)` appends `v` to the adjacency list of `u` and
        changes nothing else. */
    method AddEdge(u: int, v: int)
      requires AdjValid() && 0 <= u < n && 0 <= v < n
      modifies this`adj
      ensures AdjValid()
      ensures adj == old(adj)[u := old(adj)[u] + [v]]
    {
      adj := adj[u := adj[u] + [v]];
    }

    /** `run()`: resets all traversal state, starts a search from every
        still-unvisited vertex in increasing id order, and returns the
        components: they partition the vertices, every vertex got a
        distinct index, and each component's last vertex is its root. */
    method Run() returns (comps: seq<seq<int>>)
      requires AdjValid()
      modifies this
      ensures adj == old(adj) && Inv()
      ensures comps == components
      ensures IsPartition(comps, n)
      ensures stack == [] && time == n
      ensures forall v :: 0 <= v < n ==> 0 <= index[v] < n && !onStack[v]
      ensures forall v, w :: 0 <= v < w < n ==> index[v] != index[w]
      ensures forall v :: 0 <= v < n ==> lowlink[v] <= index[v]
      ensures forall c :: 0 <= c < |comps| ==>
                (|comps[c]| > 0 &&
                 lowlink[Root(comps[c])] == index[Root(comps[c])] &&
                 forall k :: 0 <= k < |comps[c]| ==> index[Root(comps[c])] <= index[comps[c][k]])
    {
      Reset();
      InitGood(n);
      SearchAll();
      Finished();
      comps := components;
    }

    /** The first lines of `run()`: `time = 0`, fresh arrays with every
        index at -1 and every flag cleared, an empty stack and no
        components. */
    method Reset()
      requires AdjValid()
      modifies this
      ensures adj == old(adj) && AdjValid() && Shape() && stack == []
      ensures fresh(index) && fresh(lowlink) && fresh(onStack)
      ensures State() == Initial(n)
    {
      var idx := new int[n](_ => -1);
      var low := new int[n](_ => 0);
      var on := new bool[n](_ => false);
      assert idx[..] == seq(n, _ => -1);
      assert low[..] == seq(n, _ => 0);
      assert on[..] == seq(n, _ => false);
      time, index, lowlink, onStack := 0, idx, low, on;
      stack := [];
      components := [];
      order := [];
      cid := seq(n, _ => -1);
    }

    /** The loop of `run()` over the vertex ids: a search starts from each
        vertex still unvisited when its turn comes. */
    method SearchAll()
      requires Inv() && stack == []
      modifies this`time, this`stack, this`components, this`order, this`cid, index, lowlink, onStack
      ensures Inv() && stack == []
      ensures forall u :: 0 <= u < n ==> index[u] != -1
    {
      var v := 0;
      while v < n
        invariant AdjValid() && Shape() && Searched(n, State(), v)
      {
        SearchFrom(v);
        v := v + 1;
      }
    }

    /** One turn of that loop: search from `v` if it is still unvisited. */
    method SearchFrom(v: int)
      requires AdjValid() && Shape() && Searched(n, State(), v) && v < n
      modifies this`time, this`stack, this`components, this`order, this`cid, index, lowlink, onStack
      ensures AdjValid() && Shape() && Searched(n, State(), v + 1)
    {
      if index[v] == -1 {
        ghost var before := State();
        Dfs(v);
        SearchStep(n, before, State(), v);
      }
    }

    /** Once every vertex is visited and the stack is empty, the components
        partition the vertices and the indices are exactly 0..n-1. */
    lemma Finished()
      requires Inv() && stack == []
      requires forall u :: 0 <= u < n ==> index[u] != -1
      ensures IsPartition(components, n) && time == n
      ensures forall v :: 0 <= v < n ==> 0 <= index[v] < n && !onStack[v]
      ensures forall v, w :: 0 <= v < w < n ==> index[v] != index[w]
      ensures forall v :: 0 <= v < n ==> lowlink[v] <= index[v]
      ensures forall c :: 0 <= c < |components| ==>
                (|components[c]| > 0 &&
                 lowlink[Root(components[c])] == index[Root(components[c])] &&
                 forall k :: 0 <= k < |components[c]| ==> index[Root(components[c])] <= index[components[c][k]])
    {
      var s := State();
      FinalPartition(n, s);
      FinalIndices(n, s);
      assert CompsRooted(n, s) && CompsNumbered(n, s);
    }

    /** `dfs(v)`: visit `v`, run the successor loop, and pop a component
        when `v` is a root. Vertices visited before the call keep their
        state; `v` gets the next index and is either still on the stack just
        above the old stack, or was popped as the root of a new component. */
    method Dfs(v: int)
      requires Inv() && 0 <= v < n && index[v] == -1
      modifies this`time, this`stack, this`components, this`order, this`cid, index, lowlink, onStack
      ensures AdjValid() && Shape() && Concluded(n, old(State()), State(), v, |old(stack)|)
      decreases n - time, 4
    {
      ghost var s := State();
      var depth := |stack|;
      UnvisitedBound(n, s, v);
      ExploreStart(n, s, v);
      Visit(v);
      ExploreAll(v, s, depth);
      Conclude(v, s, depth);
    }

    /** The successor loop of `dfs(v)`, over `adj[v]` in order. */
    method ExploreAll(v: int, ghost s: SearchState, depth: int)
      requires AdjValid() && Shape() && Exploring(n, s, State(), v, depth)
      modifies this`time, this`stack, this`components, this`order, this`cid, index, lowlink, onStack
      ensures AdjValid() && Shape() && Exploring(n, s, State(), v, depth)
      decreases n - s.time, 3
    {
      var k := 0;
      while k < |adj[v]|
        invariant 0 <= k <= |adj[v]|
        invariant AdjValid() && Shape() && Exploring(n, s, State(), v, depth)
        decreases |adj[v]| - k
      {
        TimeBound(n, State());
        Explore(v, adj[v][k], s, depth);
        k := k + 1;
      }
    }

    /** The last lines of `dfs(v)`: pop a component rooted at `v` when its
        low-link equals its index. */
    method Conclude(v: int, ghost s: SearchState, depth: int)
      requires AdjValid() && Shape() && Exploring(n, s, State(), v, depth)
      requires Good(n, s) && depth == |s.stack|
      modifies this`stack, this`components, this`cid, onStack
      ensures AdjValid() && Shape() && Concluded(n, s, State(), v, depth)
    {
      if lowlink[v] == index[v] {
        PopRoot(v, s, depth);
      } else {
        StayConcludes(n, s, State(), v, depth);
      }
    }

    /** `v` is the root of a component: pop everything down to it. */
    method PopRoot(v: int, ghost s: SearchState, depth: int)
      requires AdjValid() && Shape() && Exploring(n, s, State(), v, depth)
      requires Good(n, s) && depth == |s.stack| && lowlink[v] == index[v]
      modifies this`stack, this`components, this`cid, onStack
      ensures AdjValid() && Shape() && Concluded(n, s, State(), v, depth)
    {
      ghost var t := State();
      PopConcludes(n, s, t, v, depth);
      GoodPopReady(n, t);
      PopComponent(v, depth);
    }

    /** One turn of the successor loop of `dfs(v)`, for the edge `v -> to`:
        recurse into an unvisited `to` and fold its low-link into `v`'s, or
        fold in the index of an on-stack `to`; a `to` already finished is
        skipped. */
    method Explore(v: int, to: int, ghost s: SearchState, depth: int)
      requires AdjValid() && Shape() && 0 <= to < n
      requires Exploring(n, s, State(), v, depth)
      modifies this`time, this`stack, this`components, this`order, this`cid, index, lowlink, onStack
      ensures AdjValid() && Shape() && Exploring(n, s, State(), v, depth)
      decreases n - time, 6
    {
      if index[to] == -1 {
        ExploreChild(v, to, s, depth);
      } else if onStack[to] {
        ghost var t := State();
        OnStackStep(n, s, t, v, to, depth);
        LowerLowlink(v, index[to]);
      }
    }

    /** `dfs(to); lowlink[v] = Math.min(lowlink[v], lowlink[to])` for an
        unvisited successor `to`. */
    method ExploreChild(v: int, to: int, ghost s: SearchState, depth: int)
      requires AdjValid() && Shape() && 0 <= to < n && index[to] == -1
      requires Exploring(n, s, State(), v, depth)
      modifies this`time, this`stack, this`components, this`order, this`cid, index, lowlink, onStack
      ensures AdjValid() && Shape() && Exploring(n, s, State(), v, depth)
      decreases n - time, 5
    {
      ghost var pre := State();
      UnvisitedBound(n, pre, to);
      Dfs(to);
      ghost var post := State();
      ChildStep(n, s, pre, post, v, to, depth);
      LowerLowlink(v, lowlink[to]);
    }

    /** The first line of `dfs(v)`: `index[v] = lowlink[v] = time++`, then
        `v` is pushed and flagged on-stack. */
    method Visit(v: int)
      requires Shape() && 0 <= v < n
      modifies this`time, this`stack, this`order, index, lowlink, onStack
      ensures State() == Visited(old(State()), v)
    {
      index[v] := time;
      lowlink[v] := time;
      order := order + [v];
      time := time + 1;
      stack := stack + [v];
      onStack[v] := true;
    }

    /** `lowlink[v] = Math.min(lowlink[v], val)`: the caller passes the
        low-link of a child whose search just returned or the index of an
        on-stack successor. */
    method LowerLowlink(v: int, val: int)
      requires Shape() && 0 <= v < n
      modifies lowlink
      ensures State() == Lowered(old(State()), v, val)
    {
      lowlink[v] := Min(lowlink[v], val);
    }

    /** The do-while pop loop of `dfs`: pops the stack down to and including
        the root `v` at position `k`, clearing on-stack flags, and appends
        the popped vertices, in pop order, as a new component. */
    method PopComponent(v: int, k: int)
      requires Shape() && PopReady(n, State()) && 0 <= k < |stack| && stack[k] == v
      modifies this`stack, this`components, this`cid, onStack
      ensures State() == Popped(old(State()), k)
    {
      ghost var s := State();
      PopStart(n, s, k);
      var comp: seq<int> := [];
      var w := -1;
      while w != v
        invariant Shape() && Popping(n, s, State(), k, comp)
        invariant (w == v) == (|stack| == k)
        decreases |stack|
      {
        PopStep(n, s, State(), k, comp);
        w := PopOne();
        comp := comp + [w];
      }
      PopDone(n, s, State(), k, comp);
      components := components + [comp];
    }

    /** One turn of the pop loop: `w = stack.pop(); onStack[w] = false`,
        recording `w` in the component being built. */
    method PopOne() returns (w: int)
      requires Shape() && |stack| > 0 && 0 <= stack[|stack| - 1] < n
      modifies this`stack, this`cid, onStack
      ensures w == old(stack)[|old(stack)| - 1] && State() == PopTop(old(State()))
    {
      w := stack[|stack| - 1];
      stack := stack[..|stack| - 1];
      onStack[w] := false;
      cid := if 0 <= w < |cid| then cid[w := |components|] else cid;
    }
  }

}
