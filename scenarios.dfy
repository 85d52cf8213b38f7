/** The shortest-path scenario of src/test/java/GraphTests.java: the chain
    4 -> 5 -> 6 -> 7 with weights 2, 5, 1 inside 8 vertices, relaxed from 4
    over the order [4, 5, 6, 7]. The expected distances follow from the
    general guarantees: an upper bound from the relaxation inequality over
    a topological order, a lower bound from a feasible potential. */
module GraphScenarios {
  import opened Common
  import opened Relaxation
  import opened OrderedPass
  import opened DagShortestPaths

  const ChainAdj: Adj := [[], [], [], [], [(5, 2)], [(6, 5)], [(7, 1)], []]
  const ChainTopo: seq<int> := [4, 5, 6, 7]

  /** The distances of the chain pass from 4 at vertices 4 to 7. */
  lemma ChainDistances()
    ensures ValidAdj(ChainAdj) && InRange(ChainTopo, 8)
    ensures var d := Solve(Shortest, ChainAdj, 4, ChainTopo).d;
      d[4] == 0 && d[5] == 2 && d[6] == 7 && d[7] == 8
  {
    var adj, topo := ChainAdj, ChainTopo;
    assert ValidAdj(adj) by {
      forall u, k | 0 <= u < |adj| && 0 <= k < |adj[u]| ensures 0 <= adj[u][k].0 < |adj| {
        assert u == 4 || u == 5 || u == 6;
      }
    }
    assert TopoOrder(adj, topo) by {
      forall i, j, k | 0 <= i < |topo| && 0 <= j < |topo| && 0 <= k < |adj[topo[i]]|
        ensures adj[topo[i]][k].0 == topo[j] ==> i < j
      {
        assert i < 3 && k == 0 && adj[topo[i]][k].0 == topo[i + 1];
      }
    }
    var pot := [0, 0, 0, 0, 0, 2, 7, 8];
    assert Feasible(Shortest, adj, 4, pot) by {
      forall u, k | 0 <= u < |adj| && 0 <= k < |adj[u]|
        ensures NoWorse(Shortest, pot[adj[u][k].0], pot[u] + adj[u][k].1)
      {
        assert u == 4 || u == 5 || u == 6;
      }
    }
    var d := Solve(Shortest, adj, 4, topo).d;
    SolveParents(Shortest, adj, 4, topo);
    SolveEdges(Shortest, adj, 4, topo);
    SolveDominated(Shortest, adj, 4, topo, pot);
    assert adj[4][0] == (5, 2) && adj[5][0] == (6, 5) && adj[6][0] == (7, 1);
    assert 4 in topo && 5 in topo && 6 in topo;
  }

  /** `GraphTests.testShortestPaths`: builds the chain with `addEdge` and
      reads back the distances `shortestPaths(4, [4, 5, 6, 7])` returns. */
  method ChainShortestPaths() returns (d4: int, d5: int, d6: int, d7: int)
    ensures d4 == 0 && d5 == 2 && d6 == 7 && d7 == 8
  {
    var sp := new DAGShortestPaths(8);
    assert sp.adj == [[], [], [], [], [], [], [], []];
    sp.AddEdge(4, 5, 2);
    assert sp.adj[4] == [] + [(5, 2)] == [(5, 2)];
    sp.AddEdge(5, 6, 5);
    assert sp.adj[5] == [] + [(6, 5)] == [(6, 5)];
    sp.AddEdge(6, 7, 1);
    assert sp.adj[6] == [] + [(7, 1)] == [(7, 1)];
    assert sp.adj == ChainAdj;
    ChainDistances();
    var dist := sp.ShortestPaths(4, ChainTopo);
    assert dist[..] == Solve(Shortest, ChainAdj, 4, ChainTopo).d;
    d4, d5, d6, d7 := dist[4], dist[5], dist[6], dist[7];
  }
}
