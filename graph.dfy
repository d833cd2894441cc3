/**
 A generic graph stored as a map from each node to the set of its
 neighbours, directed or undirected, with backtracking depth-first
 enumeration of every simple path between two nodes, unbounded or limited
 to a number of nodes.
 */
module Graphs {
  import opened PathSpec

  datatype Option<T> = None | Some(value: T)

  /** The map after the neighbour set of `u` gains `v`, the set being created
      empty first when `u` has no entry. */
  function AddArc<T(==,!new)>(adj: map<T, set<T>>, u: T, v: T): (r: map<T, set<T>>)
    ensures r.Keys == adj.Keys + {u}
    ensures forall a, b :: Edge(r, a, b) <==> Edge(adj, a, b) || (a == u && b == v)
  {
    adj[u := (if u in adj then adj[u] else {}) + {v}]
  }

  /** The map after inserting the edge from `x` to `y`: one arc when the graph
      is directed, both arcs when it is not. */
  function WithEdge<T(==,!new)>(adj: map<T, set<T>>, directed: bool, x: T, y: T): (r: map<T, set<T>>)
    ensures Edge(r, x, y)
    ensures !directed ==> Edge(r, y, x)
    ensures r.Keys == adj.Keys + {x} + (if directed then {} else {y})
    ensures forall a, b :: Edge(r, a, b) <==> Edge(adj, a, b) || (a == x && b == y) || (!directed && a == y && b == x)
  {
    var r := AddArc(adj, x, y);
    if directed then r else AddArc(r, y, x)
  }

  /** `p` has at most `cap` nodes, when there is a cap. */
  ghost predicate Within<T>(p: seq<T>, cap: Option<nat>) {
    cap.None? || |p| <= cap.value
  }

  /** Every arc has its reverse. */
  ghost predicate Symmetric<T(!new)>(adj: map<T, set<T>>) {
    forall u, v :: Edge(adj, u, v) ==> Edge(adj, v, u)
  }

  /** Two maps with the same keys and the same arcs are the same map. */
  lemma SameArcsSameMap<T>(m: map<T, set<T>>, n: map<T, set<T>>)
    requires m.Keys == n.Keys
    requires forall a, b :: Edge(m, a, b) <==> Edge(n, a, b)
    ensures m == n
  {
    forall a | a in m
      ensures m[a] == n[a]
    {
      assert forall b :: b in m[a] <==> Edge(m, a, b);
      assert forall b :: b in n[a] <==> Edge(n, a, b);
    }
  }

  /** Inserting the same edge a second time leaves the map identical (the
      special case of `WithEdgeRepeat` where nothing was inserted between). */
  lemma WithEdgeIdempotent<T(!new)>(adj: map<T, set<T>>, directed: bool, x: T, y: T)
    ensures WithEdge(WithEdge(adj, directed, x, y), directed, x, y) == WithEdge(adj, directed, x, y)
  {
  }

  /** Inserting an edge the map already holds, in every direction the graph
      records it, leaves the map identical, whatever was inserted since. */
  lemma WithEdgeRepeat<T(!new)>(adj: map<T, set<T>>, directed: bool, x: T, y: T)
    requires Edge(adj, x, y) && (!directed ==> Edge(adj, y, x))
    ensures WithEdge(adj, directed, x, y) == adj
  {
    SameArcsSameMap(WithEdge(adj, directed, x, y), adj);
  }

  /** Inserting an edge never removes a key or a neighbour, and leaves the
      entry of every node other than its endpoints as it was. */
  lemma WithEdgeKeepsOthers<T(!new)>(adj: map<T, set<T>>, directed: bool, x: T, y: T, w: T)
    ensures w in adj ==> w in WithEdge(adj, directed, x, y) && adj[w] <= WithEdge(adj, directed, x, y)[w]
    ensures w in adj && w != x && (directed || w != y) ==> WithEdge(adj, directed, x, y)[w] == adj[w]
  {
  }

  /** Inserting an edge into an undirected graph keeps every arc paired with
      its reverse. */
  lemma WithEdgeSymmetric<T(!new)>(adj: map<T, set<T>>, x: T, y: T)
    requires Symmetric(adj)
    ensures Symmetric(WithEdge(adj, false, x, y))
  {
  }

  class Graph<T(==,!new)> {
    /** Fixed when the graph is built: whether edges are one-way. */
    const isDirected: bool
    /** For each node with recorded edges, the set of its neighbours. */
    var adjacency: map<T, set<T>>

    /** An undirected graph records every edge in both directions. */
    ghost predicate Valid()
      reads this
    {
      !isDirected ==> Symmetric(adjacency)
    }

    /** An empty graph; directedness defaults to undirected when absent. */
    constructor (isDirected: Option<bool>)
      ensures this.isDirected == (isDirected.Some? && isDirected.value)
      ensures adjacency == map[]
      ensures Valid()
    {
      this.isDirected := if isDirected.Some? then isDirected.value else false;
      adjacency := map[];
    }

    /** Records `y` as a neighbour of `x` and, in an undirected graph, `x` as a
        neighbour of `y`, creating missing entries. */
    method AddEdge(x: T, y: T)
      requires Valid()
      modifies this
      ensures Valid()
      ensures adjacency == WithEdge(old(adjacency), isDirected, x, y)
    {
      var xs := if x in adjacency then adjacency[x] else {};
      adjacency := adjacency[x := xs + {y}];

      if !isDirected {
        var ys := if y in adjacency then adjacency[y] else {};
        adjacency := adjacency[y := ys + {x}];
      }
      SameArcsSameMap(adjacency, WithEdge(old(adjacency), isDirected, x, y));
      if !isDirected {
        WithEdgeSymmetric(old(adjacency), x, y);
      }
    }

    /** Every simple path from `start` to `end`, each exactly once, in an
        unspecified order. */
    method FindAllPaths(start: T, end: T) returns (paths: seq<seq<T>>)
      ensures Distinct(paths)
      ensures forall p :: p in paths <==> IsSimplePath(adjacency, start, end, p)
      ensures start == end ==> paths == [[start]]
    {
      paths := [];
      var visited := {};
      var path := [];

      path := path + [start];
      visited := visited + {start};

      visited, path, paths := FindAllPathsHelper(start, end, visited, path, paths);

      forall p
        ensures p in paths <==> IsSimplePath(adjacency, start, end, p)
      {
        assert paths[0..] == paths;
        ExtendsFromStart(adjacency, start, end, p);
      }
      if start == end {
        forall p
          ensures p in paths <==> p == [start]
        {
          SelfPathOnly(adjacency, start, p);
        }
        SingleOccupant(paths, [start]);
      }
    }

    /** Backtracking step of `FindAllPaths`, standing on `path`, whose last node
        is `start`: appends to `paths` every extension of `path` ending at `end`,
        each once, and hands back `visited` and `path` as it received them. */
    method FindAllPathsHelper(start: T, end: T, visited: set<T>, path: seq<T>, paths: seq<seq<T>>)
      returns (visited': set<T>, path': seq<T>, paths': seq<seq<T>>)
      requires SearchState(adjacency, visited, path, start)
      ensures visited' == visited && path' == path
      ensures |paths| <= |paths'| && paths'[..|paths|] == paths
      ensures Distinct(paths'[|paths|..])
      ensures forall p :: p in paths'[|paths|..] <==> Extends(adjacency, end, path, p)
      decreases |Nodes(adjacency) - visited|
    {
      visited', path', paths' := visited, path, paths;
      if start == end {
        paths' := paths' + [path'];
        assert paths'[|paths|..] == [path];
        forall p
          ensures Extends(adjacency, end, path, p) <==> p == path
        {
          ExtendsAtEnd(adjacency, end, path, p);
        }
        return;
      }

      if start in adjacency {
        var neighbors := adjacency[start];
        var remaining := neighbors;
        while remaining != {}
          invariant remaining <= neighbors
          invariant visited' == visited && path' == path
          invariant |paths| <= |paths'| && paths'[..|paths|] == paths
          invariant Distinct(paths'[|paths|..])
          // `Within(p, None)` always holds; it lets `Merge` serve both searches.
          invariant forall p :: p in paths'[|paths|..] <==>
                      Extends(adjacency, end, path, p) && |p| > |path| && p[|path|] in neighbors - remaining && Within(p, None)
          decreases remaining
        {
          var neighbor :| neighbor in remaining;
          remaining := remaining - {neighbor};
          if neighbor !in visited' {
            visited' := visited' + {neighbor};
            path' := path' + [neighbor];
            ghost var before := paths';
            ChildState(start, neighbor, visited, path);
            visited', path', paths' := FindAllPathsHelper(neighbor, end, visited', path', paths');
            path' := path'[..|path'| - 1];
            visited' := visited' - {neighbor};
            Merge(path, paths, before, paths', end, None, neighbor, neighbors - remaining);
          } else {
            forall p | Extends(adjacency, end, path, p) && |p| > |path|
              ensures p[|path|] != neighbor
            {
              ExtendsNotVisited(adjacency, end, path, neighbor, p);
            }
          }
        }
      }
      forall p | Extends(adjacency, end, path, p)
        ensures start in adjacency && |p| > |path| && p[|path|] in adjacency[start]
      {
        ExtendsLeaveLast(adjacency, end, path, p);
      }
    }

    /** Every simple path from `start` to `end` with at most `maxSteps` nodes,
        each exactly once, in an unspecified order; the one-node path `[start]`
        is found when `start == end` whatever the limit. */
    method FindPathsWithMaxSteps(start: T, end: T, maxSteps: nat) returns (paths: seq<seq<T>>)
      ensures Distinct(paths)
      ensures forall p :: p in paths <==> IsSimplePath(adjacency, start, end, p) && (|p| <= maxSteps || p == [start])
      ensures start == end ==> paths == [[start]]
    {
      paths := [];
      var visited := {};
      var path := [];

      path := path + [start];
      visited := visited + {start};

      visited, path, paths := FindPathsWithMaxStepsHelper(start, end, maxSteps, visited, path, paths);

      forall p
        ensures p in paths <==> IsSimplePath(adjacency, start, end, p) && (|p| <= maxSteps || p == [start])
      {
        assert paths[0..] == paths;
        ExtendsFromStart(adjacency, start, end, p);
        if |p| == 1 && p[0] == start {
          assert p == [start];
        }
      }
      if start == end {
        forall p
          ensures p in paths <==> p == [start]
        {
          SelfPathOnly(adjacency, start, p);
        }
        SingleOccupant(paths, [start]);
      }
    }

    /** Backtracking step of `FindPathsWithMaxSteps`: as `FindAllPathsHelper`,
        except that a path of `maxSteps` nodes or more that has not reached
        `end` is abandoned; the path it stands on is still recorded when it
        ends at `end`, whatever its length. */
    method FindPathsWithMaxStepsHelper(start: T, end: T, maxSteps: nat, visited: set<T>, path: seq<T>, paths: seq<seq<T>>)
      returns (visited': set<T>, path': seq<T>, paths': seq<seq<T>>)
      requires SearchState(adjacency, visited, path, start)
      ensures visited' == visited && path' == path
      ensures |paths| <= |paths'| && paths'[..|paths|] == paths
      ensures Distinct(paths'[|paths|..])
      ensures forall p :: p in paths'[|paths|..] <==> Extends(adjacency, end, path, p) && (|p| == |path| || |p| <= maxSteps)
      decreases |Nodes(adjacency) - visited|
    {
      visited', path', paths' := visited, path, paths;
      if start == end {
        paths' := paths' + [path'];
        assert paths'[|paths|..] == [path];
        forall p
          ensures Extends(adjacency, end, path, p) <==> p == path
        {
          ExtendsAtEnd(adjacency, end, path, p);
        }
        return;
      }

      if |path'| >= maxSteps {
        assert paths'[|paths|..] == [];
        forall p | Extends(adjacency, end, path, p)
          ensures |p| > |path|
        {
          ExtendsLeaveLast(adjacency, end, path, p);
        }
        return;
      }

      ghost var cap := Some(maxSteps);
      if start in adjacency {
        var neighbors := adjacency[start];
        var remaining := neighbors;
        while remaining != {}
          invariant remaining <= neighbors
          invariant visited' == visited && path' == path
          invariant |paths| <= |paths'| && paths'[..|paths|] == paths
          invariant Distinct(paths'[|paths|..])
          invariant forall p :: p in paths'[|paths|..] <==>
                      Extends(adjacency, end, path, p) && |p| > |path| && p[|path|] in neighbors - remaining && Within(p, cap)
          decreases remaining
        {
          var neighbor :| neighbor in remaining;
          remaining := remaining - {neighbor};
          if neighbor !in visited' {
            visited' := visited' + {neighbor};
            path' := path' + [neighbor];
            ghost var before := paths';
            ChildState(start, neighbor, visited, path);
            visited', path', paths' := FindPathsWithMaxStepsHelper(neighbor, end, maxSteps, visited', path', paths');
            path' := path'[..|path'| - 1];
            visited' := visited' - {neighbor};
            Merge(path, paths, before, paths', end, cap, neighbor, neighbors - remaining);
          } else {
            forall p | Extends(adjacency, end, path, p) && |p| > |path|
              ensures p[|path|] != neighbor
            {
              ExtendsNotVisited(adjacency, end, path, neighbor, p);
            }
          }
        }
      }
      forall p | Extends(adjacency, end, path, p)
        ensures start in adjacency && |p| > |path| && p[|path|] in adjacency[start]
      {
        ExtendsLeaveLast(adjacency, end, path, p);
      }
    }

    /** Entering a neighbour not yet visited keeps the search state and shrinks
        the set of unvisited nodes. */
    lemma ChildState(start: T, neighbor: T, visited: set<T>, path: seq<T>)
      requires SearchState(adjacency, visited, path, start)
      requires Edge(adjacency, start, neighbor) && neighbor !in visited
      ensures SearchState(adjacency, visited + {neighbor}, path + [neighbor], neighbor)
      ensures |Nodes(adjacency) - (visited + {neighbor})| < |Nodes(adjacency) - visited|
    {
      var q := path + [neighbor];
      assert forall i :: 0 <= i < |path| ==> q[i] == path[i];
      assert neighbor in Nodes(adjacency);
      assert Nodes(adjacency) - (visited + {neighbor}) == (Nodes(adjacency) - visited) - {neighbor};
    }

    /** After a recursive call for `neighbor`, the paths recorded so far are
        exactly the extensions of `path` within `cap` that enter a processed
        neighbour, each once. */
    lemma Merge(path: seq<T>, paths: seq<seq<T>>, before: seq<seq<T>>, after: seq<seq<T>>,
                end: T, cap: Option<nat>, neighbor: T, done: set<T>)
      requires neighbor in done
      requires |paths| <= |before| && before[..|paths|] == paths
      requires |before| <= |after| && after[..|before|] == before
      requires Distinct(before[|paths|..]) && Distinct(after[|before|..])
      requires forall p :: p in before[|paths|..] <==>
                 Extends(adjacency, end, path, p) && |p| > |path| && p[|path|] in done - {neighbor} && Within(p, cap)
      requires forall p :: p in after[|before|..] <==> Extends(adjacency, end, path + [neighbor], p) && Within(p, cap)
      ensures |paths| <= |after| && after[..|paths|] == paths
      ensures Distinct(after[|paths|..])
      ensures forall p :: p in after[|paths|..] <==>
                Extends(adjacency, end, path, p) && |p| > |path| && p[|path|] in done && Within(p, cap)
    {
      assert after[|paths|..] == before[|paths|..] + after[|before|..];
      forall p
        ensures Extends(adjacency, end, path + [neighbor], p) <==>
                Extends(adjacency, end, path, p) && |p| > |path| && p[|path|] == neighbor
      {
        ExtendsChild(adjacency, end, path, neighbor, p);
      }
      DistinctConcat(before[|paths|..], after[|before|..]);
      assert after[..|paths|] == before[..|paths|];
    }
  }

  /** A duplicate-free sequence whose only element is `x` is `[x]`. */
  lemma SingleOccupant<X>(paths: seq<X>, x: X)
    requires Distinct(paths)
    requires forall p :: p in paths <==> p == x
    ensures paths == [x]
  {
    assert x in paths;
    forall i | 0 <= i < |paths|
      ensures paths[i] in {x}
    {
      assert paths[i] in paths;
    }
    DistinctBound(paths, {x});
  }
}
