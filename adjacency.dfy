/**
 * The graph's adjacency map seen as a value: each vertex value is mapped to
 * the edges stored in that vertex's edge set, in insertion order.  The
 * read-only graph queries (edges, edge counts, edge lookup) and the notion of
 * reachability the searches are specified against live here.
 */
module Adjacency {
  import opened Wrappers
  import opened GraphInfo

  type AdjacencyMap = map<int, seq<UndirectedEdge>>

  datatype GraphError = VertexNotFound(value: int) | NegativeWeightCycle

  /** Every stored edge leaves the vertex that stores it and ends at a vertex of the graph. */
  ghost predicate WellFormed(adj: AdjacencyMap)
  {
    forall v, k :: v in adj && 0 <= k < |adj[v]| ==> adj[v][k].origin == v && adj[v][k].destination in adj
  }

  /** Looking up an absent vertex value is an error. */
  function Lookup(adj: AdjacencyMap, v: int): (r: Result<seq<UndirectedEdge>, GraphError>)
    ensures r.Ok? <==> v in adj
    ensures r.Ok? ==> r.value == adj[v]
    ensures r.Err? ==> r.error == VertexNotFound(v)
  {
    if v in adj then Ok(adj[v]) else Err(VertexNotFound(v))
  }

  /*
   * Paths and reachability.
   */

  /** Some edge stored at `a` leads to `b`. */
  predicate Linked(adj: AdjacencyMap, a: int, b: int)
  {
    a in adj && exists k :: 0 <= k < |adj[a]| && adj[a][k].destination == b
  }

  ghost predicate IsPath(adj: AdjacencyMap, p: seq<int>)
  {
    |p| >= 1 &&
    (forall i :: 0 <= i < |p| ==> p[i] in adj) &&
    (forall i :: 0 <= i < |p| - 1 ==> Linked(adj, p[i], p[i + 1]))
  }

  ghost predicate Reachable(adj: AdjacencyMap, a: int, b: int)
  {
    exists p :: IsPath(adj, p) && p[0] == a && p[|p| - 1] == b
  }

  lemma ReachableFromItself(adj: AdjacencyMap, a: int)
    requires a in adj
    ensures Reachable(adj, a, a)
  {
    assert IsPath(adj, [a]);
  }

  lemma ReachablePrepend(adj: AdjacencyMap, a: int, b: int, c: int)
    requires Linked(adj, a, b) && Reachable(adj, b, c)
    ensures Reachable(adj, a, c)
  {
    var p :| IsPath(adj, p) && p[0] == b && p[|p| - 1] == c;
    var q := [a] + p;
    assert forall i :: 1 <= i < |q| ==> q[i] == p[i - 1];
    assert IsPath(adj, q);
  }

  lemma ReachableAppend(adj: AdjacencyMap, a: int, b: int, c: int)
    requires Reachable(adj, a, b) && Linked(adj, b, c) && c in adj
    ensures Reachable(adj, a, c)
  {
    var p :| IsPath(adj, p) && p[0] == a && p[|p| - 1] == b;
    var q := p + [c];
    assert forall i :: 0 <= i < |p| ==> q[i] == p[i];
    assert IsPath(adj, q);
  }

  /** No edge stored at a member of `s` leaves `s`. */
  ghost predicate ClosedUnder(adj: AdjacencyMap, s: set<int>)
  {
    forall x, k :: x in s && x in adj && 0 <= k < |adj[x]| ==> adj[x][k].destination in s
  }

  lemma {:induction false} PathStaysInside(adj: AdjacencyMap, s: set<int>, p: seq<int>)
    requires ClosedUnder(adj, s) && IsPath(adj, p) && p[0] in s
    ensures p[|p| - 1] in s
    decreases |p|
  {
    if |p| > 1 {
      assert Linked(adj, p[0], p[1]);
      var k :| 0 <= k < |adj[p[0]]| && adj[p[0]][k].destination == p[1];
      var q := p[1..];
      assert forall i :: 0 <= i < |q| ==> q[i] == p[i + 1];
      assert IsPath(adj, q);
      PathStaysInside(adj, s, q);
    }
  }

  /** A set closed under the edges holds everything reachable from its members. */
  lemma ClosedHoldsReachable(adj: AdjacencyMap, s: set<int>, a: int, b: int)
    requires ClosedUnder(adj, s) && a in s && Reachable(adj, a, b)
    ensures b in s
  {
    var p :| IsPath(adj, p) && p[0] == a && p[|p| - 1] == b;
    PathStaysInside(adj, s, p);
  }

  /*
   * Vertices in ascending order of value.
   */

  lemma Pick(s: set<int>) returns (y: int)
    requires s != {}
    ensures y in s
  {
    if forall x :: x !in s {
      assert false;
    }
    y :| y in s;
  }

  lemma MinimumExists(s: set<int>)
    requires s != {}
    ensures exists m :: m in s && forall x :: x in s ==> m <= x
    decreases |s|
  {
    var y := Pick(s);
    var rest := s - {y};
    if rest == {} {
      assert s == rest + {y};
    } else {
      MinimumExists(rest);
      var m :| m in rest && forall x :: x in rest ==> m <= x;
      var least := if y < m then y else m;
      assert forall x :: x in s ==> x == y || x in rest;
      assert least in s && forall x :: x in s ==> least <= x;
    }
  }

  function Minimum(s: set<int>): (m: int)
    requires s != {}
    ensures m in s && forall x :: x in s ==> m <= x
  {
    MinimumExists(s);
    var m :| m in s && forall x :: x in s ==> m <= x;
    m
  }

  /** The vertex values in ascending order. */
  function SortedValues(s: set<int>): (r: seq<int>)
    ensures |r| == |s|
    ensures forall x :: x in r <==> x in s
    ensures forall i, j :: 0 <= i < j < |r| ==> r[i] < r[j]
    decreases |s|
  {
    if s == {} then []
    else
      var m := Minimum(s);
      [m] + SortedValues(s - {m})
  }

  /*
   * The set of all edges: the union of every vertex's edge set, taken over the
   * vertices in ascending order of value.  An edge is added to the union unless
   * an equal edge (its reverse) is there already.
   */

  /** Adds the edges of `t` one at a time, as a set union does. */
  function UnionInto(acc: seq<UndirectedEdge>, t: seq<UndirectedEdge>): seq<UndirectedEdge>
    decreases |t|
  {
    if t == [] then acc else UnionInto(EdgeSetAdd(acc, t[0]), t[1..])
  }

  function UnionOver(adj: AdjacencyMap, values: seq<int>, acc: seq<UndirectedEdge>): seq<UndirectedEdge>
    requires forall i :: 0 <= i < |values| ==> values[i] in adj
    decreases |values|
  {
    if values == [] then acc else UnionOver(adj, values[1..], UnionInto(acc, adj[values[0]]))
  }

  /** `edges()`: the union of the edge sets, taken vertex by vertex in ascending order of value. */
  function Edges(adj: AdjacencyMap): seq<UndirectedEdge>
  {
    UnionOver(adj, SortedValues(adj.Keys), [])
  }

  /** The edge itself is in the union, or an edge equal to it is. */
  predicate Covers(r: seq<UndirectedEdge>, x: UndirectedEdge)
  {
    x in r || EdgeSetContains(r, x)
  }

  lemma CoversGrows(acc: seq<UndirectedEdge>, r: seq<UndirectedEdge>, x: UndirectedEdge)
    requires |acc| <= |r| && r[..|acc|] == acc && Covers(acc, x)
    ensures Covers(r, x)
  {
    if x in acc {
      var i :| 0 <= i < |acc| && acc[i] == x;
      assert r[i] == x;
    } else {
      var k :| 0 <= k < |acc| && EdgeEquals(acc[k], x);
      assert r[k] == acc[k];
    }
  }

  lemma {:induction false} UnionIntoFacts(acc: seq<UndirectedEdge>, t: seq<UndirectedEdge>)
    ensures NoEqualPair(acc) ==> NoEqualPair(UnionInto(acc, t))
    ensures forall x :: x in UnionInto(acc, t) ==> x in acc || x in t
    ensures |acc| <= |UnionInto(acc, t)| <= |acc| + |t|
    ensures UnionInto(acc, t)[..|acc|] == acc
    ensures forall x :: x in t ==> Covers(UnionInto(acc, t), x)
    decreases |t|
  {
    if t != [] {
      var next := EdgeSetAdd(acc, t[0]);
      var r := UnionInto(next, t[1..]);
      assert r == UnionInto(acc, t);
      UnionIntoFacts(next, t[1..]);
      if NoEqualPair(acc) {
        AddKeepsNoEqualPair(acc, t[0]);
      }
      assert next[..|acc|] == acc;
      assert r[..|acc|] == r[..|next|][..|acc|];
      assert Covers(next, t[0]) by {
        if !EdgeSetContains(acc, t[0]) {
          assert next[|acc|] == t[0];
        }
      }
      CoversGrows(next, r, t[0]);
      forall x | x in t
        ensures Covers(r, x)
      {
        if x != t[0] {
          assert x in t[1..];
        }
      }
    }
  }

  /** Every edge of the union is stored in the graph. */
  ghost predicate Stored(adj: AdjacencyMap, e: UndirectedEdge)
  {
    e.origin in adj && e in adj[e.origin]
  }

  lemma {:induction false} UnionOverFacts(adj: AdjacencyMap, values: seq<int>, acc: seq<UndirectedEdge>)
    requires WellFormed(adj)
    requires forall i :: 0 <= i < |values| ==> values[i] in adj
    ensures NoEqualPair(acc) ==> NoEqualPair(UnionOver(adj, values, acc))
    ensures forall x :: x in UnionOver(adj, values, acc) ==> x in acc || Stored(adj, x)
    ensures |acc| <= |UnionOver(adj, values, acc)|
    ensures UnionOver(adj, values, acc)[..|acc|] == acc
    ensures forall i, x :: 0 <= i < |values| && x in adj[values[i]] ==> Covers(UnionOver(adj, values, acc), x)
    decreases |values|
  {
    if values != [] {
      var v := values[0];
      var next := UnionInto(acc, adj[v]);
      var r := UnionOver(adj, values[1..], next);
      assert r == UnionOver(adj, values, acc);
      UnionIntoFacts(acc, adj[v]);
      UnionOverFacts(adj, values[1..], next);
      assert r[..|acc|] == r[..|next|][..|acc|];
      forall x | x in r
        ensures x in acc || Stored(adj, x)
      {
        if x !in acc && x in adj[v] {
          var k :| 0 <= k < |adj[v]| && adj[v][k] == x;
        }
      }
      forall i, x | 0 <= i < |values| && x in adj[values[i]]
        ensures Covers(r, x)
      {
        if i == 0 {
          CoversGrows(next, r, x);
        } else {
          assert values[i] == values[1..][i - 1];
        }
      }
    }
  }

  /** Every edge of `Edges` is stored at its origin. */
  lemma EdgesAreStored(adj: AdjacencyMap)
    requires WellFormed(adj)
    ensures forall x :: x in Edges(adj) ==> Stored(adj, x)
  {
    UnionOverFacts(adj, SortedValues(adj.Keys), []);
  }

  /**
   * `Edges` is a set (no two of its edges are equal), holds only stored
   * edges, and covers every stored edge: the edge itself or its reverse is
   * in it.  In particular it never holds both directions of an edge.
   */
  lemma EdgesIsUnion(adj: AdjacencyMap)
    requires WellFormed(adj)
    ensures NoEqualPair(Edges(adj))
    ensures forall x :: x in Edges(adj) ==> Stored(adj, x)
    ensures forall v, x :: v in adj && x in adj[v] ==> Covers(Edges(adj), x)
  {
    var values := SortedValues(adj.Keys);
    UnionOverFacts(adj, values, []);
    forall v, x | v in adj && x in adj[v]
      ensures Covers(Edges(adj), x)
    {
      var i :| 0 <= i < |values| && values[i] == v;
    }
  }

  /*
   * Edge counts and edge lookup.
   */

  function SizeSum(adj: AdjacencyMap, values: seq<int>): nat
    requires forall i :: 0 <= i < |values| ==> values[i] in adj
    decreases |values|
  {
    if values == [] then 0 else |adj[values[0]]| + SizeSum(adj, values[1..])
  }

  /**
   * With `unique`, the number of edges in the union of the edge sets;
   * otherwise the sum of the sizes of the edge sets.
   */
  function EdgeCount(adj: AdjacencyMap, unique: bool): nat
  {
    if unique then |Edges(adj)| else SizeSum(adj, SortedValues(adj.Keys))
  }

  lemma {:induction false} UnionOverSize(adj: AdjacencyMap, values: seq<int>, acc: seq<UndirectedEdge>)
    requires forall i :: 0 <= i < |values| ==> values[i] in adj
    ensures |UnionOver(adj, values, acc)| <= |acc| + SizeSum(adj, values)
    decreases |values|
  {
    if values != [] {
      UnionIntoFacts(acc, adj[values[0]]);
      UnionOverSize(adj, values[1..], UnionInto(acc, adj[values[0]]));
    }
  }

  /** Merging reverse copies never increases the count. */
  lemma UniqueCountAtMostTotal(adj: AdjacencyMap)
    ensures EdgeCount(adj, true) <= EdgeCount(adj, false)
  {
    UnionOverSize(adj, SortedValues(adj.Keys), []);
  }

  /**
   * Edge lookup: both endpoints must exist; then the edge is looked up in the
   * origin's edge set with edge equality.
   */
  function HasEdge(adj: AdjacencyMap, origin: int, destination: int, weight: int): (r: Result<bool, GraphError>)
    ensures r.Err? <==> origin !in adj || destination !in adj
    ensures origin !in adj ==> r == Err(VertexNotFound(origin))
    ensures origin in adj && destination !in adj ==> r == Err(VertexNotFound(destination))
  {
    if origin !in adj then Err(VertexNotFound(origin))
    else if destination !in adj then Err(VertexNotFound(destination))
    else Ok(EdgeSetContains(adj[origin], UndirectedEdge(origin, destination, weight)))
  }

  /**
   * Because the stored copies of an edge run in the same direction as the
   * edge looked up, the lookup succeeds only for loops: for a loop it is
   * true exactly when a loop of that weight is stored.
   */
  lemma HasEdgeFindsOnlyLoops(adj: AdjacencyMap, origin: int, destination: int, weight: int)
    requires WellFormed(adj)
    ensures HasEdge(adj, origin, destination, weight) == Ok(true) ==> origin == destination
    ensures origin in adj && origin == destination ==>
      (HasEdge(adj, origin, destination, weight) == Ok(true) <==> UndirectedEdge(origin, origin, weight) in adj[origin])
  {
    if HasEdge(adj, origin, destination, weight) == Ok(true) {
      var k :| 0 <= k < |adj[origin]| && EdgeEquals(adj[origin][k], UndirectedEdge(origin, destination, weight));
      assert adj[origin][k].origin == origin;
    }
    if origin in adj && origin == destination && UndirectedEdge(origin, origin, weight) in adj[origin] {
      var k :| 0 <= k < |adj[origin]| && adj[origin][k] == UndirectedEdge(origin, origin, weight);
      assert EdgeEquals(adj[origin][k], UndirectedEdge(origin, destination, weight));
    }
  }

  /*
   * The two mutations, on the adjacency value.
   */

  /** Adds the edge origin→destination to the origin's set and destination→origin to the destination's. */
  function AddEdgeTo(adj: AdjacencyMap, origin: int, destination: int, weight: int): (r: AdjacencyMap)
    requires origin in adj && destination in adj
    ensures r.Keys == adj.Keys
    ensures forall v :: v in adj && v != origin && v != destination ==> r[v] == adj[v]
  {
    var withOut := adj[origin := EdgeSetAdd(adj[origin], UndirectedEdge(origin, destination, weight))];
    withOut[destination := EdgeSetAdd(withOut[destination], UndirectedEdge(destination, origin, weight))]
  }

  /**
   * Both directions of a non-loop edge are appended, whatever the sets held
   * before; a loop is added once, and not at all when an equal loop is stored.
   */
  lemma AddEdgeToAppends(adj: AdjacencyMap, origin: int, destination: int, weight: int)
    requires WellFormed(adj) && origin in adj && destination in adj
    ensures WellFormed(AddEdgeTo(adj, origin, destination, weight))
    ensures origin != destination ==>
      AddEdgeTo(adj, origin, destination, weight)[origin] == adj[origin] + [UndirectedEdge(origin, destination, weight)] &&
      AddEdgeTo(adj, origin, destination, weight)[destination] == adj[destination] + [UndirectedEdge(destination, origin, weight)]
    ensures origin == destination ==>
      AddEdgeTo(adj, origin, destination, weight)[origin] == EdgeSetAdd(adj[origin], UndirectedEdge(origin, origin, weight))
  {
    var out := UndirectedEdge(origin, destination, weight);
    SameDirectionNotFound(adj[origin], out);
    SameDirectionNotFound(adj[destination], UndirectedEdge(destination, origin, weight));
    if origin == destination {
      var withOut := adj[origin := EdgeSetAdd(adj[origin], out)];
      if !EdgeSetContains(adj[origin], out) {
        assert EdgeEquals(withOut[origin][|adj[origin]|], out);
      }
      assert EdgeSetContains(withOut[origin], out);
    }
  }

  /**
   * A repeated edge insertion is not ignored: the second insertion of a
   * non-loop edge appends another copy to both edge sets.
   */
  lemma RepeatedAddEdgeAppends(adj: AdjacencyMap, origin: int, destination: int, weight: int)
    requires WellFormed(adj) && origin in adj && destination in adj && origin != destination
    ensures var once := AddEdgeTo(adj, origin, destination, weight);
            var twice := AddEdgeTo(once, origin, destination, weight);
            |twice[origin]| == |adj[origin]| + 2 && EdgeCount(twice, false) > EdgeCount(once, false)
  {
    var once := AddEdgeTo(adj, origin, destination, weight);
    AddEdgeToAppends(adj, origin, destination, weight);
    AddEdgeToAppends(once, origin, destination, weight);
    var twice := AddEdgeTo(once, origin, destination, weight);
    SizeSumGrows(once, twice, SortedValues(adj.Keys), origin);
  }

  lemma {:induction false} SizeSumGrows(small: AdjacencyMap, big: AdjacencyMap, values: seq<int>, v: int)
    requires small.Keys == big.Keys
    requires forall i :: 0 <= i < |values| ==> values[i] in small
    requires forall u :: u in small ==> |small[u]| <= |big[u]|
    requires v in values && |small[v]| < |big[v]|
    ensures SizeSum(small, values) < SizeSum(big, values)
    decreases |values|
  {
    if values[0] != v {
      assert v in values[1..];
      SizeSumGrows(small, big, values[1..], v);
    } else {
      SizeSumAtMost(small, big, values[1..]);
    }
  }

  lemma {:induction false} SizeSumAtMost(small: AdjacencyMap, big: AdjacencyMap, values: seq<int>)
    requires small.Keys == big.Keys
    requires forall i :: 0 <= i < |values| ==> values[i] in small
    requires forall u :: u in small ==> |small[u]| <= |big[u]|
    ensures SizeSum(small, values) <= SizeSum(big, values)
    decreases |values|
  {
    if values != [] {
      SizeSumAtMost(small, big, values[1..]);
    }
  }

  /** The triangle on the vertices 1, 2 and 3, built by three edge insertions. */
  function Triangle(): AdjacencyMap
  {
    var empty: AdjacencyMap := map[1 := [], 2 := [], 3 := []];
    AddEdgeTo(AddEdgeTo(AddEdgeTo(empty, 1, 2, 0), 2, 3, 0), 1, 3, 0)
  }

  lemma TriangleShape()
    ensures Triangle() == map[1 := [UndirectedEdge(1, 2, 0), UndirectedEdge(1, 3, 0)],
                              2 := [UndirectedEdge(2, 1, 0), UndirectedEdge(2, 3, 0)],
                              3 := [UndirectedEdge(3, 2, 0), UndirectedEdge(3, 1, 0)]]
  {
    var empty: AdjacencyMap := map[1 := [], 2 := [], 3 := []];
    var a := AddEdgeTo(empty, 1, 2, 0);
    AddEdgeToAppends(empty, 1, 2, 0);
    ThreeEntries(a, [UndirectedEdge(1, 2, 0)], [UndirectedEdge(2, 1, 0)], []);
    var b := AddEdgeTo(a, 2, 3, 0);
    TriangleSecondEdge(a);
    TriangleThirdEdge(b);
  }

  lemma TriangleSecondEdge(a: AdjacencyMap)
    requires a == map[1 := [UndirectedEdge(1, 2, 0)], 2 := [UndirectedEdge(2, 1, 0)], 3 := []]
    ensures AddEdgeTo(a, 2, 3, 0) == map[1 := [UndirectedEdge(1, 2, 0)],
                                          2 := [UndirectedEdge(2, 1, 0), UndirectedEdge(2, 3, 0)],
                                          3 := [UndirectedEdge(3, 2, 0)]]
  {
    AddEdgeToAppends(a, 2, 3, 0);
    ThreeEntries(AddEdgeTo(a, 2, 3, 0), [UndirectedEdge(1, 2, 0)],
                 [UndirectedEdge(2, 1, 0), UndirectedEdge(2, 3, 0)], [UndirectedEdge(3, 2, 0)]);
  }

  lemma TriangleThirdEdge(b: AdjacencyMap)
    requires b == map[1 := [UndirectedEdge(1, 2, 0)],
                      2 := [UndirectedEdge(2, 1, 0), UndirectedEdge(2, 3, 0)],
                      3 := [UndirectedEdge(3, 2, 0)]]
    ensures AddEdgeTo(b, 1, 3, 0) == map[1 := [UndirectedEdge(1, 2, 0), UndirectedEdge(1, 3, 0)],
                                          2 := [UndirectedEdge(2, 1, 0), UndirectedEdge(2, 3, 0)],
                                          3 := [UndirectedEdge(3, 2, 0), UndirectedEdge(3, 1, 0)]]
  {
    AddEdgeToAppends(b, 1, 3, 0);
    ThreeEntries(AddEdgeTo(b, 1, 3, 0), [UndirectedEdge(1, 2, 0), UndirectedEdge(1, 3, 0)],
                 [UndirectedEdge(2, 1, 0), UndirectedEdge(2, 3, 0)], [UndirectedEdge(3, 2, 0), UndirectedEdge(3, 1, 0)]);
  }

  lemma ThreeEntries(m: AdjacencyMap, x: seq<UndirectedEdge>, y: seq<UndirectedEdge>, z: seq<UndirectedEdge>)
    requires m.Keys == {1, 2, 3} && m[1] == x && m[2] == y && m[3] == z
    ensures m == map[1 := x, 2 := y, 3 := z]
  {
  }

  /** The triangle has 3 unique edges and 6 stored ones. */
  lemma TriangleCounts()
    ensures EdgeCount(Triangle(), true) == 3 && EdgeCount(Triangle(), false) == 6
  {
    TriangleShape();
    CountsOfTriangle(Triangle());
  }

  lemma CountsOfTriangle(t: AdjacencyMap)
    requires t.Keys == {1, 2, 3}
    requires t[1] == [UndirectedEdge(1, 2, 0), UndirectedEdge(1, 3, 0)]
    requires t[2] == [UndirectedEdge(2, 1, 0), UndirectedEdge(2, 3, 0)]
    requires t[3] == [UndirectedEdge(3, 2, 0), UndirectedEdge(3, 1, 0)]
    ensures EdgeCount(t, true) == 3 && EdgeCount(t, false) == 6
  {
    SortedOneTwoThree(t.Keys);
    TriangleUnion(t);
    TriangleSizes(t);
  }

  lemma TriangleSizes(t: AdjacencyMap)
    requires t.Keys == {1, 2, 3}
    requires t[1] == [UndirectedEdge(1, 2, 0), UndirectedEdge(1, 3, 0)]
    requires t[2] == [UndirectedEdge(2, 1, 0), UndirectedEdge(2, 3, 0)]
    requires t[3] == [UndirectedEdge(3, 2, 0), UndirectedEdge(3, 1, 0)]
    ensures SizeSum(t, [1, 2, 3]) == 6
  {
    assert [1, 2, 3][1..] == [2, 3] && [2, 3][1..] == [3] && [3][1..] == [];
    assert SizeSum(t, [3]) == 2;
    assert SizeSum(t, [2, 3]) == 4;
  }

  lemma TriangleUnion(t: AdjacencyMap)
    requires t.Keys == {1, 2, 3}
    requires t[1] == [UndirectedEdge(1, 2, 0), UndirectedEdge(1, 3, 0)]
    requires t[2] == [UndirectedEdge(2, 1, 0), UndirectedEdge(2, 3, 0)]
    requires t[3] == [UndirectedEdge(3, 2, 0), UndirectedEdge(3, 1, 0)]
    ensures UnionOver(t, [1, 2, 3], []) == [UndirectedEdge(1, 2, 0), UndirectedEdge(1, 3, 0), UndirectedEdge(2, 3, 0)]
  {
    var e12, e21 := UndirectedEdge(1, 2, 0), UndirectedEdge(2, 1, 0);
    var e23, e32 := UndirectedEdge(2, 3, 0), UndirectedEdge(3, 2, 0);
    var e13, e31 := UndirectedEdge(1, 3, 0), UndirectedEdge(3, 1, 0);
    var u1 := [e12, e13];
    assert UnionInto([], [e12, e13]) == u1 by {
      UnionIntoAppends([], e12, [e13]);
      UnionIntoAppends([e12], e13, []);
    }
    var u2 := [e12, e13, e23];
    assert UnionInto(u1, [e21, e23]) == u2 by {
      assert EdgeEquals(u1[0], e21);
      UnionIntoSkips(u1, e21, [e23]);
      UnionIntoAppends(u1, e23, []);
    }
    assert UnionInto(u2, [e32, e31]) == u2 by {
      assert EdgeEquals(u2[2], e32);
      assert EdgeEquals(u2[1], e31);
      UnionIntoSkips(u2, e32, [e31]);
      UnionIntoSkips(u2, e31, []);
    }
  }

  lemma UnionIntoAppends(acc: seq<UndirectedEdge>, x: UndirectedEdge, rest: seq<UndirectedEdge>)
    requires forall k :: 0 <= k < |acc| ==> !EdgeEquals(acc[k], x)
    ensures UnionInto(acc, [x] + rest) == UnionInto(acc + [x], rest)
  {
    assert ([x] + rest)[1..] == rest;
  }

  lemma UnionIntoSkips(acc: seq<UndirectedEdge>, x: UndirectedEdge, rest: seq<UndirectedEdge>)
    requires EdgeSetContains(acc, x)
    ensures UnionInto(acc, [x] + rest) == UnionInto(acc, rest)
  {
    assert ([x] + rest)[1..] == rest;
  }

  lemma SortedOneTwoThree(s: set<int>)
    requires s == {1, 2, 3}
    ensures SortedValues(s) == [1, 2, 3]
  {
    var r := SortedValues(s);
    assert r[0] in s && r[1] in s && r[2] in s;
    assert 1 in r && 2 in r && 3 in r;
  }
}
