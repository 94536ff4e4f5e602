/**
 * The undirected weighted graph: a map from vertex values to vertex objects,
 * plus the root vertex (the first vertex ever added), which the
 * connectivity search starts from.
 */
module Graphs {
  import opened Wrappers
  import opened GraphInfo
  import opened Adjacency
  import opened GraphSearch

  class UndirectedGraph {
    var adjacency: map<int, Vertex>
    var root: Option<int>

    constructor()
      ensures Valid() && adjacency == map[] && root == None
    {
      adjacency := map[];
      root := None;
    }

    /** The edges stored at each vertex, by vertex value. */
    function Adj(): (r: AdjacencyMap)
      reads this, adjacency.Values
      ensures r.Keys == adjacency.Keys
    {
      EdgesOf(adjacency)
    }

    /**
     * Each value maps to a vertex holding that value whose edges leave it;
     * every edge ends at a vertex of the graph; the root is set exactly when
     * the graph has a vertex, and is one of its vertices.
     */
    ghost predicate Valid()
      reads this, adjacency.Values
    {
      (forall v :: v in adjacency ==> adjacency[v].value == v && adjacency[v].Valid()) &&
      WellFormed(Adj()) &&
      (root.Some? <==> |adjacency| > 0) &&
      (root.Some? ==> root.value in adjacency)
    }

    /** Vertex lookup by value; an absent value is an error. */
    function Get(value: int): (r: Result<Vertex, GraphError>)
      reads this, adjacency.Values
      requires Valid()
      ensures r.Ok? <==> value in adjacency
      ensures r.Ok? ==> r.value.value == value && r.value.edges == Adj()[value]
      ensures r.Err? ==> r.error == VertexNotFound(value)
    {
      if value in adjacency then Ok(adjacency[value]) else Err(VertexNotFound(value))
    }

    /** The number of vertices; zero exactly when there is no root. */
    function Length(): (n: nat)
      reads this, adjacency.Values
      requires Valid()
      ensures n == |Adj().Keys|
      ensures n == 0 <==> root.None?
    {
      assert adjacency.Keys == Adj().Keys;
      |adjacency.Keys|
    }

    /** Truthiness: a graph is true exactly when it has a vertex. */
    predicate NonEmpty()
      reads this, adjacency.Values
      requires Valid()
      ensures NonEmpty() <==> root.Some?
    {
      Length() > 0
    }

    /** Membership by value: exactly the values that lookup finds. */
    predicate Contains(value: int)
      reads this, adjacency.Values
      requires Valid()
      ensures Contains(value) <==> Get(value).Ok?
    {
      value in adjacency
    }

    /** The stored vertex objects, each under its own value (the order of the list is not modelled). */
    function Vertices(): (vs: set<Vertex>)
      reads this, adjacency.Values
      requires Valid()
      ensures forall v :: v in vs ==> v.value in adjacency && adjacency[v.value] == v
      ensures forall value :: value in adjacency ==> adjacency[value] in vs
    {
      set value | value in adjacency :: adjacency[value]
    }

    /**
     * Adds an edge between two existing vertices: origin→destination to the
     * origin's edge set and destination→origin to the destination's.  Both
     * endpoints are looked up before anything changes.
     */
    method AddEdge(origin: int, destination: int, weight: int) returns (r: Outcome<GraphError>)
      requires Valid()
      modifies adjacency.Values
      ensures Valid()
      ensures adjacency == old(adjacency) && root == old(root)
      ensures origin !in adjacency ==> r == Fail(VertexNotFound(origin)) && Adj() == old(Adj())
      ensures origin in adjacency && destination !in adjacency ==>
                r == Fail(VertexNotFound(destination)) && Adj() == old(Adj())
      ensures origin in adjacency && destination in adjacency ==>
                r == Pass && Adj() == AddEdgeTo(old(Adj()), origin, destination, weight)
    {
      if origin !in adjacency {
        return Fail(VertexNotFound(origin));
      }
      if destination !in adjacency {
        return Fail(VertexNotFound(destination));
      }
      ghost var before := Adj();
      var from := adjacency[origin];
      var to := adjacency[destination];
      from.AddEdge(destination, weight);
      OneVertexChanged(adjacency, before, origin);
      ghost var middle := Adj();
      to.AddEdge(origin, weight);
      OneVertexChanged(adjacency, middle, destination);
      AddEdgeToAppends(before, origin, destination, weight);
      return Pass;
    }

    /**
     * Adds a vertex, reusing the vertex already stored under `value`.  The
     * root is set when the graph was empty.  With a destination, the
     * destination's entry is replaced by a fresh vertex (dropping the edges it
     * had, even when it existed) and an edge is added between the two.
     */
    method AddVertex(value: int, dst: Option<int>, weight: int)
      requires Valid()
      modifies this, adjacency.Values
      ensures Valid()
      ensures old(|adjacency|) == 0 ==> root == Some(value)
      ensures old(|adjacency|) > 0 ==> root == old(root)
      ensures dst.None? ==> adjacency.Keys == old(adjacency.Keys) + {value}
      ensures dst.Some? ==> adjacency.Keys == old(adjacency.Keys) + {value} + {dst.value}
      ensures dst.None? && value in old(adjacency) ==> adjacency == old(adjacency) && Adj() == old(Adj())
      ensures dst.None? && value !in old(adjacency) ==> Adj() == old(Adj())[value := []]
      ensures dst.Some? ==>
                var kept := if value in old(adjacency) then old(Adj())[value] else [];
                Adj() == AddEdgeTo(old(Adj())[value := kept][dst.value := []], value, dst.value, weight)
    {
      ghost var before := Adj();
      ghost var kept := if value in before then before[value] else [];
      ghost var vertices := adjacency;
      var placed := Place(value);
      ghost var middle := Adj();
      assert middle == before[value := kept];
      ghost var placedKeys := adjacency.Keys;
      assert placedKeys == vertices.Keys + {value};
      if value in vertices {
        assert adjacency == vertices;
        assert placed in vertices.Values;
      }
      if dst.Some? {
        UpdatedValues(vertices, value, placed);
        Attach(value, dst.value, weight);
        assert adjacency.Keys == placedKeys + {dst.value};
        assert Adj() == AddEdgeTo(middle[dst.value := []], value, dst.value, weight);
      }
    }

    /**
     * The destination half of adding a vertex: the destination's entry is
     * replaced by a fresh vertex, then the edge is added between the two.
     */
    method Attach(value: int, destination: int, weight: int)
      requires Valid() && value in adjacency
      modifies this, adjacency.Values
      ensures Valid()
      ensures root == old(root)
      ensures adjacency.Keys == old(adjacency.Keys) + {destination}
      ensures Adj() == AddEdgeTo(old(Adj())[destination := []], value, destination, weight)
    {
      ghost var vertices := adjacency;
      var reset := Reset(destination);
      UpdatedValues(vertices, destination, reset);
      var outcome := AddEdge(value, destination, weight);
    }

    /** Stores the vertex for `value`, reusing the one already stored; sets the root of an empty graph. */
    method Place(value: int) returns (placed: Vertex)
      requires Valid()
      modifies this
      ensures Valid()
      ensures old(|adjacency|) == 0 ==> root == Some(value)
      ensures old(|adjacency|) > 0 ==> root == old(root)
      ensures adjacency == old(adjacency)[value := placed]
      ensures value in old(adjacency) ==> placed == old(adjacency)[value]
      ensures value !in old(adjacency) ==> fresh(placed)
      ensures Adj() == if value in old(adjacency) then old(Adj()) else old(Adj())[value := []]
    {
      if value in adjacency {
        placed := adjacency[value];
        Store(value, placed);
        assert old(Adj())[value := placed.edges] == old(Adj());
      } else {
        placed := new Vertex(value);
        Store(value, placed);
      }
    }

    /**
     * The assignment of `placed` (the vertex already stored under `value`,
     * or one with no edges) under `value`, and the root of an empty graph.
     */
    method Store(value: int, placed: Vertex)
      requires Valid() && placed.value == value && placed.Valid()
      requires placed.edges == [] || (value in adjacency && placed == adjacency[value])
      modifies this
      ensures Valid()
      ensures old(|adjacency|) == 0 ==> root == Some(value)
      ensures old(|adjacency|) > 0 ==> root == old(root)
      ensures adjacency == old(adjacency)[value := placed]
      ensures Adj() == old(Adj())[value := placed.edges]
    {
      ghost var vertices := adjacency;
      if |adjacency| == 0 {
        root := Some(value);
      }
      adjacency := adjacency[value := placed];
      StoreVertex(vertices, value, placed);
    }

    /** Replaces the entry for `value` with a fresh vertex that has no edges. */
    method Reset(value: int) returns (reset: Vertex)
      requires Valid() && |adjacency| > 0
      modifies this
      ensures Valid()
      ensures root == old(root)
      ensures adjacency.Keys == old(adjacency.Keys) + {value}
      ensures Adj() == old(Adj())[value := []]
      ensures adjacency == old(adjacency)[value := reset] && fresh(reset)
    {
      reset := new Vertex(value);
      Store(value, reset);
    }

    /**
     * Connectivity: false for an empty graph; otherwise a search from the
     * root counts the vertices it explores, and the graph is connected when
     * that count is the number of vertices, that is, when every vertex is
     * reachable from the root.
     */
    method IsConnected() returns (r: bool)
      requires Valid()
      ensures |adjacency| == 0 ==> !r
      ensures |adjacency| > 0 ==> root.Some? && (r <==> forall v :: v in adjacency ==> Reachable(Adj(), root.value, v))
      ensures |adjacency| == 1 ==> r
    {
      if |adjacency| == 0 {
        return false;
      }
      var adj := Adj();
      var explored, count := DfsIsConnected(adj, root.value, {});
      FullSearchCount(adj, root.value, explored);
      assert |adj| == |adjacency| by {
        assert adj.Keys == adjacency.Keys;
        assert |adj| == |adj.Keys| && |adjacency| == |adjacency.Keys|;
      }
      SameKeysReachable(adj, adjacency, root.value);
      r := count == |adjacency|;
      if |adjacency| == 1 {
        forall v | v in adjacency
          ensures Reachable(adj, root.value, v)
        {
          OnlyKey(adjacency.Keys, root.value, v);
          ReachableFromItself(adj, v);
        }
      }
    }
  }

  /** The edges stored at each vertex of `vertices`, by vertex value. */
  function EdgesOf(vertices: map<int, Vertex>): (r: AdjacencyMap)
    reads vertices.Values
    ensures r.Keys == vertices.Keys
  {
    map v | v in vertices :: vertices[v].edges
  }

  /** Storing a vertex under `k` changes the edge map at `k` only. */
  lemma StoreVertex(vertices: map<int, Vertex>, k: int, x: Vertex)
    ensures EdgesOf(vertices[k := x]) == EdgesOf(vertices)[k := x.edges]
  {
  }

  /**
   * When only the vertex stored under `k` may have changed its edges, the
   * edge map differs from the earlier one at `k` only.
   */
  lemma OneVertexChanged(vertices: map<int, Vertex>, before: AdjacencyMap, k: int)
    requires k in vertices && before.Keys == vertices.Keys
    requires forall v :: v in vertices && v != k ==> vertices[v].edges == before[v]
    ensures EdgesOf(vertices) == before[k := vertices[k].edges]
  {
    var updated := before[k := vertices[k].edges];
    assert EdgesOf(vertices).Keys == updated.Keys;
    forall v | v in updated
      ensures EdgesOf(vertices)[v] == updated[v]
    {
    }
  }

  lemma SameKeysReachable(adj: AdjacencyMap, vertices: map<int, Vertex>, root: int)
    requires adj.Keys == vertices.Keys
    ensures (forall v :: v in adj ==> Reachable(adj, root, v)) <==> (forall v :: v in vertices ==> Reachable(adj, root, v))
  {
  }

  lemma UpdatedValues(m: map<int, Vertex>, k: int, v: Vertex)
    ensures m[k := v].Values <= m.Values + {v}
  {
    var updated := m[k := v];
    forall x | x in updated.Values
      ensures x in m.Values + {v}
    {
      if x != v {
        forall j | j in updated && updated[j] == x
          ensures x in m.Values
        {
          assert j != k && m[j] == x;
        }
      }
    }
  }

  lemma OnlyKey(keys: set<int>, a: int, b: int)
    requires |keys| == 1 && a in keys && b in keys
    ensures a == b
  {
    if a != b {
      assert {a, b} <= keys;
      assert |{a, b}| == 2;
      SubsetSize({a, b}, keys);
      assert false;
    }
  }

  lemma SubsetSize(a: set<int>, b: set<int>)
    requires a <= b
    ensures |a| <= |b|
  {
    assert b == a + (b - a);
  }
}
