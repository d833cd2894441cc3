/**
 The vocabulary the graph's operations are specified in: arcs of an
 adjacency map, walks, simple paths, and the extensions of a partial path
 that a depth-first search from that path can complete.
 */
module PathSpec {

  /** The adjacency map records an arc from `u` to `v`. */
  ghost predicate Edge<T>(adj: map<T, set<T>>, u: T, v: T) {
    u in adj && v in adj[u]
  }

  /** Every node the map mentions, as a key or inside a neighbour set. */
  ghost function Nodes<T>(adj: map<T, set<T>>): set<T> {
    adj.Keys + set u, v | u in adj && v in adj[u] :: v
  }

  /** No element occurs twice. */
  ghost predicate Distinct<X>(s: seq<X>) {
    forall i, j :: 0 <= i < j < |s| ==> s[i] != s[j]
  }

  /** Each consecutive pair of `p` is an arc of `adj`. */
  ghost predicate IsWalk<T>(adj: map<T, set<T>>, p: seq<T>) {
    forall i :: 0 <= i < |p| - 1 ==> Edge(adj, p[i], p[i + 1])
  }

  /** `p` is a simple path from `start` to `end`: it begins at `start`, ends at
      `end`, repeats no node and follows arcs of `adj`. */
  ghost predicate IsSimplePath<T>(adj: map<T, set<T>>, start: T, end: T, p: seq<T>) {
    |p| > 0 && p[0] == start && p[|p| - 1] == end && Distinct(p) && IsWalk(adj, p)
  }

  /** `p` is a simple walk of `adj` that ends at `end` and has `path` as a prefix:
      one of the results a search standing on `path` can still record. */
  ghost predicate Extends<T>(adj: map<T, set<T>>, end: T, path: seq<T>, p: seq<T>) {
    0 < |p| && |path| <= |p| && p[..|path|] == path && p[|p| - 1] == end && Distinct(p) && IsWalk(adj, p)
  }

  /** The state a search helper is entered with: a non-empty simple walk whose
      last node is the current one, and a visited set holding exactly its nodes. */
  ghost predicate SearchState<T>(adj: map<T, set<T>>, visited: set<T>, path: seq<T>, current: T) {
    && |path| > 0
    && path[|path| - 1] == current
    && Distinct(path)
    && IsWalk(adj, path)
    && (forall x | x in visited :: x in path)
    && (forall i | 0 <= i < |path| :: path[i] in visited)
  }

  /** The only simple path from a node to itself is that node alone. */
  lemma SelfPathOnly<T>(adj: map<T, set<T>>, s: T, p: seq<T>)
    ensures IsSimplePath(adj, s, s, p) <==> p == [s]
  {
  }

  /** The extensions of the one-node path `[start]` are exactly the simple paths
      from `start` to `end`. */
  lemma ExtendsFromStart<T>(adj: map<T, set<T>>, start: T, end: T, p: seq<T>)
    ensures Extends(adj, end, [start], p) <==> IsSimplePath(adj, start, end, p)
  {
  }

  /** A search standing on `end` can only record the path it stands on. */
  lemma ExtendsAtEnd<T>(adj: map<T, set<T>>, end: T, path: seq<T>, p: seq<T>)
    requires |path| > 0 && path[|path| - 1] == end
    requires Distinct(path) && IsWalk(adj, path)
    ensures Extends(adj, end, path, p) <==> p == path
  {
  }

  /** Every extension of a path that has not reached `end` leaves its last node
      along an arc. */
  lemma ExtendsLeaveLast<T>(adj: map<T, set<T>>, end: T, path: seq<T>, p: seq<T>)
    requires |path| > 0 && path[|path| - 1] != end
    requires Extends(adj, end, path, p)
    ensures |p| > |path| && Edge(adj, path[|path| - 1], p[|path|])
  {
  }

  /** The extensions of `path + [n]` are the extensions of `path` whose next
      node is `n`. */
  lemma ExtendsChild<T>(adj: map<T, set<T>>, end: T, path: seq<T>, n: T, p: seq<T>)
    ensures Extends(adj, end, path + [n], p) <==> Extends(adj, end, path, p) && |p| > |path| && p[|path|] == n
  {
  }

  /** No extension of a simple path steps back onto one of its nodes next. */
  lemma ExtendsNotVisited<T>(adj: map<T, set<T>>, end: T, path: seq<T>, n: T, p: seq<T>)
    requires n in path
    requires Extends(adj, end, path, p) && |p| > |path|
    ensures p[|path|] != n
  {
  }

  /** Concatenating two duplicate-free sequences with no common element gives a
      duplicate-free sequence. */
  lemma DistinctConcat<X>(a: seq<X>, b: seq<X>)
    requires Distinct(a) && Distinct(b)
    requires forall x :: x in a ==> x !in b
    ensures Distinct(a + b)
  {
    forall i, j | 0 <= i < j < |a + b|
      ensures (a + b)[i] != (a + b)[j]
    {
      if i < |a| && |a| <= j {
        assert (a + b)[i] in a && (a + b)[j] in b;
      }
    }
  }

  /** A duplicate-free sequence of elements of a set is no longer than the set. */
  lemma {:induction false} DistinctBound<X>(p: seq<X>, nodes: set<X>)
    requires Distinct(p)
    requires forall i :: 0 <= i < |p| ==> p[i] in nodes
    ensures |p| <= |nodes|
    decreases |p|
  {
    if |p| > 0 {
      var last := p[|p| - 1];
      var rest := p[..|p| - 1];
      forall i | 0 <= i < |rest|
        ensures rest[i] in nodes - {last}
      {
        assert rest[i] == p[i];
      }
      DistinctBound(rest, nodes - {last});
    }
  }

  /** A simple path visits each node at most once, so it has at most as many
      nodes as the graph mentions (the one-node path aside, whose node need not
      be mentioned at all). A step limit of that many nodes therefore cuts no
      path. */
  lemma SimplePathBound<T>(adj: map<T, set<T>>, start: T, end: T, p: seq<T>)
    requires IsSimplePath(adj, start, end, p)
    ensures |p| == 1 || |p| <= |Nodes(adj)|
  {
    if |p| > 1 {
      forall i | 0 <= i < |p|
        ensures p[i] in Nodes(adj)
      {
        if i < |p| - 1 {
          assert Edge(adj, p[i], p[i + 1]);
        } else {
          assert Edge(adj, p[i - 1], p[i]);
        }
      }
      DistinctBound(p, Nodes(adj));
    }
  }
}
