/**
 How the two searches' results relate on one graph: the step-limited
 search returns the unbounded search's paths filtered by length, a larger
 limit never loses a path, and a limit no smaller than the number of nodes
 the graph mentions loses none.
 */
module SearchRelations {
  import opened PathSpec
  import opened Graphs

  /** The step-limited result is the unbounded result with the paths of more
      than `maxSteps` nodes removed (the one-node path `[start]` is never removed). */
  method BoundedIsFilteredAll<T(==,!new)>(g: Graph<T>, start: T, end: T, maxSteps: nat)
    returns (all: seq<seq<T>>, bounded: seq<seq<T>>)
    ensures forall p :: p in bounded <==> p in all && (|p| <= maxSteps || p == [start])
    ensures forall p :: p in bounded ==> |p| <= maxSteps || (start == end && p == [start])
  {
    all := g.FindAllPaths(start, end);
    bounded := g.FindPathsWithMaxSteps(start, end, maxSteps);
  }

  /** Raising the limit keeps every path found under the lower one. */
  method LimitMonotonic<T(==,!new)>(g: Graph<T>, start: T, end: T, low: nat, high: nat)
    returns (fewer: seq<seq<T>>, more: seq<seq<T>>)
    requires low <= high
    ensures forall p :: p in fewer ==> p in more
    ensures forall p :: p in more && |p| <= low ==> p in fewer
  {
    fewer := g.FindPathsWithMaxSteps(start, end, low);
    more := g.FindPathsWithMaxSteps(start, end, high);
  }

  /** A limit of at least as many nodes as the graph mentions cuts nothing:
      the step-limited search then finds exactly the unbounded search's paths. */
  method LargeLimitCutsNothing<T(==,!new)>(g: Graph<T>, start: T, end: T, maxSteps: nat)
    returns (all: seq<seq<T>>, bounded: seq<seq<T>>)
    requires maxSteps >= |Nodes(g.adjacency)|
    ensures forall p :: p in bounded <==> p in all
  {
    all := g.FindAllPaths(start, end);
    bounded := g.FindPathsWithMaxSteps(start, end, maxSteps);
    forall p | p in all
      ensures p in bounded
    {
      SimplePathBound(g.adjacency, start, end, p);
      assert |p| == 1 ==> p == [start];
    }
  }
}
