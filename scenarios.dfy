/**
 Usage scenarios, stated as methods whose postconditions are the outcomes
 the scenarios check. Edge insertion in both modes and both searches on the
 undirected chain 1 - 2 - 3 - 4 restate the library's own tests;
 `UnreachableScenario` checks two cases the library's tests do not cover:
 a node no edge mentions, and a directed edge travelled backwards. `NewChain` is the shared setup: `new` followed by
 the three `add_edge` calls the chain tests begin with.
 */
module GraphScenarios {
  import opened PathSpec
  import opened Graphs

  /** `adj` is the undirected chain 1 - 2 - ... - n: exactly the arcs between
      consecutive numbers from 1 to n, in both directions. */
  ghost predicate IsChain(adj: map<int, set<int>>, n: int) {
    forall a, b :: Edge(adj, a, b) <==> 1 <= a <= n && 1 <= b <= n && (b == a + 1 || a == b + 1)
  }

  /** On a chain, a simple walk from 1 can only count upwards: its i-th node
      is i + 1, and so it stays within the chain. */
  lemma {:induction false} ChainWalk(adj: map<int, set<int>>, n: int, p: seq<int>, i: nat)
    requires IsChain(adj, n)
    requires |p| > 0 && p[0] == 1 && Distinct(p) && IsWalk(adj, p)
    requires i < |p|
    ensures p[i] == i + 1
    ensures |p| > 1 ==> p[i] <= n
  {
    if i > 0 {
      ChainWalk(adj, n, p, i - 1);
      assert Edge(adj, p[i - 1], p[i]);
      if i > 1 {
        ChainWalk(adj, n, p, i - 2);
      }
    } else if |p| > 1 {
      assert Edge(adj, p[0], p[1]);
    }
  }

  /** On the chain of n nodes, the only simple path from 1 to `e` is
      1, 2, ..., e, and there is none to a node outside the chain. */
  lemma ChainPaths(adj: map<int, set<int>>, n: int, e: int, p: seq<int>)
    requires IsChain(adj, n) && n >= 1
    ensures IsSimplePath(adj, 1, e, p) <==> 1 <= e <= n && p == seq(e, i => i + 1)
  {
    if IsSimplePath(adj, 1, e, p) {
      forall i | 0 <= i < |p|
        ensures p[i] == i + 1
      {
        ChainWalk(adj, n, p, i);
      }
      ChainWalk(adj, n, p, |p| - 1);
    }
    if 1 <= e <= n && p == seq(e, i => i + 1) {
      forall i | 0 <= i < |p| - 1
        ensures Edge(adj, p[i], p[i + 1])
      {
      }
    }
  }

  /** A sequence with no member is empty. */
  lemma NoMember<X>(s: seq<X>)
    ensures (forall x :: x !in s) ==> s == []
  {
    assert s != [] ==> s[0] in s;
  }

  /** A fresh graph holding the edges (1, 2), (2, 3), (3, 4): the undirected
      chain, or, when directed, only the arcs counting upwards. */
  method NewChain(directed: Option<bool>) returns (g: Graph<int>)
    ensures fresh(g) && g.Valid()
    ensures g.isDirected == (directed.Some? && directed.value)
    ensures !g.isDirected ==> IsChain(g.adjacency, 4)
    ensures g.isDirected ==> forall a, b :: Edge(g.adjacency, a, b) <==> 1 <= a <= 3 && b == a + 1
  {
    g := new Graph(directed);
    g.AddEdge(1, 2);
    g.AddEdge(2, 3);
    g.AddEdge(3, 4);
    if g.isDirected {
      DirectedChainArcs();
    }
  }

  /** Inserting (1, 2), (2, 3), (3, 4) as one-way edges into an empty map gives
      exactly the arcs counting upwards from 1 to 4. */
  lemma DirectedChainArcs()
    ensures var adj := WithEdge(WithEdge(WithEdge(map[], true, 1, 2), true, 2, 3), true, 3, 4);
            forall a, b :: Edge(adj, a, b) <==> 1 <= a <= 3 && b == a + 1
  {
    var one := WithEdge(map[], true, 1, 2);
    assert forall a, b :: Edge(one, a, b) <==> a == 1 && b == 2;
    var two := WithEdge(one, true, 2, 3);
    assert forall a, b :: Edge(two, a, b) <==> 1 <= a <= 2 && b == a + 1;
  }

  /** Inserting (1, 2) records 2 under 1 in both modes; in the undirected graph
      it also records 1 under 2, and it creates an entry for 2 only there. */
  method AddEdgeScenario() returns (undirected12: bool, undirectedHas2: bool, undirected21: bool,
                                    directed12: bool, directedHas2: bool)
    ensures undirected12 && undirectedHas2 && undirected21
    ensures directed12 && !directedHas2
  {
    var g := new Graph<int>(Some(false));
    g.AddEdge(1, 2);
    undirected12 := 1 in g.adjacency && 2 in g.adjacency[1];
    undirectedHas2 := 2 in g.adjacency;
    undirected21 := 2 in g.adjacency && 1 in g.adjacency[2];

    var h := new Graph<int>(Some(true));
    h.AddEdge(1, 2);
    directed12 := 1 in h.adjacency && 2 in h.adjacency[1];
    directedHas2 := 2 in h.adjacency;
  }

  /** On the undirected chain, the one path from 1 to 4 is 1, 2, 3, 4. */
  method FindAllPathsScenario() returns (paths: seq<seq<int>>)
    ensures paths == [[1, 2, 3, 4]]
  {
    var g := NewChain(Some(false));
    paths := g.FindAllPaths(1, 4);
    forall p
      ensures p in paths <==> p == [1, 2, 3, 4]
    {
      ChainPaths(g.adjacency, 4, 4, p);
    }
    SingleOccupant(paths, [1, 2, 3, 4]);
  }

  /** On the undirected chain, the four-node path from 1 to 4 is dropped under
      a limit of three nodes and kept under a limit of four. */
  method FindPathsWithMaxStepsScenario() returns (three: seq<seq<int>>, four: seq<seq<int>>)
    ensures three == []
    ensures four == [[1, 2, 3, 4]]
  {
    var g := NewChain(None);
    three := g.FindPathsWithMaxSteps(1, 4, 3);
    four := g.FindPathsWithMaxSteps(1, 4, 4);
    forall p
      ensures p !in three
      ensures p in four <==> p == [1, 2, 3, 4]
    {
      ChainPaths(g.adjacency, 4, 4, p);
    }
    NoMember(three);
    SingleOccupant(four, [1, 2, 3, 4]);
  }

  /** A node that no edge mentions is reached by no path, and a directed edge
      cannot be travelled backwards. */
  method UnreachableScenario() returns (isolated: seq<seq<int>>, backwards: seq<seq<int>>)
    ensures isolated == []
    ensures backwards == []
  {
    var g := NewChain(Some(false));
    isolated := g.FindAllPaths(1, 5);
    forall p
      ensures p !in isolated
    {
      ChainPaths(g.adjacency, 4, 5, p);
    }
    NoMember(isolated);

    var h := new Graph<int>(Some(true));
    h.AddEdge(1, 2);
    backwards := h.FindAllPaths(2, 1);
    assert 2 !in h.adjacency;
    forall p
      ensures !IsSimplePath(h.adjacency, 2, 1, p)
    {
      if |p| > 1 && p[0] == 2 {
        assert !Edge(h.adjacency, p[0], p[1]);
      }
    }
    NoMember(backwards);
  }
}
