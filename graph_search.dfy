/**
 * The graph's depth-first searches.  Both thread one explored set through the
 * recursion: the caller's set is extended in place, modelled here by passing
 * the set in and returning the extended one.  Vertices are looked up by
 * value in the adjacency map.
 */
module GraphSearch {
  import opened Wrappers
  import opened GraphInfo
  import opened Adjacency

  /** Every vertex explored by the search from `root` is reachable from `root`. */
  ghost predicate ExploredFrom(adj: AdjacencyMap, root: int, before: set<int>, after: set<int>)
  {
    before <= after && root in after &&
    forall x :: x in after && x !in before ==> Reachable(adj, root, x)
  }

  /** Every vertex the search explored had all its neighbours explored as well. */
  ghost predicate NewlyClosed(adj: AdjacencyMap, before: set<int>, after: set<int>)
    requires after <= adj.Keys
  {
    forall x, k :: x in after && x !in before && 0 <= k < |adj[x]| ==> adj[x][k].destination in after
  }

  /**
   * Explores everything reachable from `root` that the explored set does not
   * block, and returns the extended set and its size.
   */
  method DfsIsConnected(adj: AdjacencyMap, root: int, explored: set<int>) returns (extended: set<int>, count: nat)
    requires WellFormed(adj) && root in adj && root !in explored && explored <= adj.Keys
    ensures extended <= adj.Keys
    ensures ExploredFrom(adj, root, explored, extended)
    ensures NewlyClosed(adj, explored, extended)
    ensures count == |extended|
    decreases adj.Keys - explored
  {
    extended := explored + {root};
    ReachableFromItself(adj, root);
    var edges := adj[root];
    var i := 0;
    while i < |edges|
      invariant 0 <= i <= |edges|
      invariant extended <= adj.Keys
      invariant ExploredFrom(adj, root, explored, extended)
      invariant forall x, k :: x in extended && x !in explored && x != root && 0 <= k < |adj[x]| ==>
                  adj[x][k].destination in extended
      invariant forall k :: 0 <= k < i ==> edges[k].destination in extended
    {
      var destination := edges[i].destination;
      if destination !in extended {
        assert Linked(adj, root, destination);
        var before := extended;
        var ignored;
        extended, ignored := DfsIsConnected(adj, destination, extended);
        forall y | y in extended && y !in before
          ensures Reachable(adj, root, y)
        {
          ReachablePrepend(adj, root, destination, y);
        }
      }
      i := i + 1;
    }
    count := |extended|;
  }

  /**
   * Searches from `root` for `destination`.  A found destination is
   * reachable; when it is not found, the explored set has grown by a set
   * that contains `root`, not `destination`, and is closed under the edges.
   */
  method DfsIsReachable(adj: AdjacencyMap, root: int, destination: int, explored: set<int>)
    returns (result: bool, extended: set<int>)
    requires WellFormed(adj) && root in adj && destination in adj
    requires root !in explored && destination !in explored && explored <= adj.Keys
    ensures explored <= extended <= adj.Keys
    ensures result ==> Reachable(adj, root, destination)
    ensures !result ==> root in extended && destination !in extended && NewlyClosed(adj, explored, extended)
    decreases adj.Keys - explored
  {
    if root == destination {
      ReachableFromItself(adj, root);
      return true, explored;
    }
    extended := explored + {root};
    result := false;
    var edges := adj[root];
    var i := 0;
    while i < |edges|
      invariant 0 <= i <= |edges|
      invariant !result
      invariant explored + {root} <= extended <= adj.Keys
      invariant destination !in extended
      invariant forall x, k :: x in extended && x !in explored && x != root && 0 <= k < |adj[x]| ==>
                  adj[x][k].destination in extended
      invariant forall k :: 0 <= k < i ==> edges[k].destination in extended
    {
      var opposite := edges[i].destination;
      if opposite !in extended {
        var found;
        found, extended := DfsIsReachable(adj, opposite, destination, extended);
        result := result || found;
        if result {
          assert Linked(adj, root, opposite);
          ReachablePrepend(adj, root, opposite, destination);
          break;
        }
      }
      i := i + 1;
    }
  }

  /**
   * Reachability query: both vertices must exist; the answer is true exactly
   * when a path leads from `origin` to `destination`.
   */
  method IsReachable(adj: AdjacencyMap, origin: int, destination: int) returns (r: Result<bool, GraphError>)
    requires WellFormed(adj)
    ensures origin !in adj ==> r == Err(VertexNotFound(origin))
    ensures origin in adj && destination !in adj ==> r == Err(VertexNotFound(destination))
    ensures origin in adj && destination in adj ==> r.Ok? && (r.value <==> Reachable(adj, origin, destination))
  {
    if origin !in adj {
      return Err(VertexNotFound(origin));
    }
    if destination !in adj {
      return Err(VertexNotFound(destination));
    }
    var found, explored := DfsIsReachable(adj, origin, destination, {});
    if !found {
      assert ClosedUnder(adj, explored);
      if Reachable(adj, origin, destination) {
        ClosedHoldsReachable(adj, explored, origin, destination);
      }
    }
    return Ok(found);
  }

  lemma SubsetOfSameSize(a: set<int>, b: set<int>)
    requires a <= b && |a| == |b|
    ensures a == b
  {
    assert |b - a| == |b| - |a| == 0;
    assert b - a == {};
  }

  /**
   * A search from `root` that starts with nothing explored explores exactly
   * the vertices reachable from `root`; so its count equals the number of
   * vertices exactly when every vertex is reachable from `root`.
   */
  lemma FullSearchCount(adj: AdjacencyMap, root: int, extended: set<int>)
    requires WellFormed(adj) && root in adj && extended <= adj.Keys
    requires ExploredFrom(adj, root, {}, extended) && NewlyClosed(adj, {}, extended)
    ensures |extended| == |adj| <==> forall v :: v in adj ==> Reachable(adj, root, v)
  {
    assert ClosedUnder(adj, extended);
    if forall v :: v in adj ==> Reachable(adj, root, v) {
      forall v | v in adj
        ensures v in extended
      {
        ClosedHoldsReachable(adj, extended, root, v);
      }
      assert extended == adj.Keys;
    }
    if |extended| == |adj| {
      assert |adj.Keys| == |adj|;
      SubsetOfSameSize(extended, adj.Keys);
    }
  }
}
