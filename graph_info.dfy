/**
 * Vertices and undirected edges of the weighted graph.
 *
 * An edge refers to its endpoints by vertex value, and a vertex is equal to
 * another vertex exactly when their values are equal.  Python edges hold the
 * vertex objects themselves, so after a vertex object is replaced in the
 * graph an edge can still lead to the old object; by-value endpoints do not
 * capture that.
 * An edge's equality is the one the graph's edge sets are built on: an edge is
 * equal to its REVERSED copy, but a same-direction copy of a non-loop edge is
 * not equal to it.
 */
module GraphInfo {

  datatype UndirectedEdge = UndirectedEdge(origin: int, destination: int, weight: int)

  /** The edge with the same weight running the other way. */
  function Reversed(e: UndirectedEdge): (r: UndirectedEdge)
    ensures r.origin == e.destination && r.destination == e.origin && r.weight == e.weight
  {
    UndirectedEdge(e.destination, e.origin, e.weight)
  }

  /** Edge equality: the origin of one is the destination of the other, and the weights agree. */
  predicate EdgeEquals(e: UndirectedEdge, f: UndirectedEdge)
  {
    e.origin == f.destination && e.destination == f.origin && e.weight == f.weight
  }

  /**
   * The edge hash is a sum of the hash of the type name, of both endpoints and
   * of the weight.  The concrete hash functions are parameters.
   */
  function EdgeHash(typeHash: int, vertexHash: int -> int, weightHash: int -> int, e: UndirectedEdge): int
  {
    typeHash + vertexHash(e.origin) + vertexHash(e.destination) + weightHash(e.weight)
  }

  /** Equal edges hash equal (a set can find them), and an edge equals its reverse. */
  lemma EqualEdgesHashEqual(typeHash: int, vertexHash: int -> int, weightHash: int -> int,
                            e: UndirectedEdge, f: UndirectedEdge)
    ensures EdgeEquals(e, f) ==> EdgeHash(typeHash, vertexHash, weightHash, e)
                                  == EdgeHash(typeHash, vertexHash, weightHash, f)
    ensures EdgeEquals(e, Reversed(e)) && EdgeEquals(Reversed(e), e)
    ensures EdgeEquals(e, f) <==> EdgeEquals(f, e)
  {
  }

  /** A same-direction copy is equal to the edge only when the edge is a loop. */
  lemma SameDirectionCopy(e: UndirectedEdge)
    ensures EdgeEquals(e, e) <==> e.origin == e.destination
  {
  }

  /** The weight setter: only the weight changes. */
  function WithWeight(e: UndirectedEdge, weight: int): (r: UndirectedEdge)
    ensures r.origin == e.origin && r.destination == e.destination && r.weight == weight
  {
    e.(weight := weight)
  }

  /*
   * Edge sets.  A set of edges is a sequence in insertion order; membership is
   * decided by EdgeEquals, the equality the hash table uses.
   */

  predicate EdgeSetContains(s: seq<UndirectedEdge>, x: UndirectedEdge)
  {
    exists k :: 0 <= k < |s| && EdgeEquals(s[k], x)
  }

  /** Adding to an edge set keeps the set when an equal edge is stored, and appends otherwise. */
  function EdgeSetAdd(s: seq<UndirectedEdge>, x: UndirectedEdge): (r: seq<UndirectedEdge>)
    ensures EdgeSetContains(s, x) ==> r == s
    ensures !EdgeSetContains(s, x) ==> r == s + [x]
  {
    if EdgeSetContains(s, x) then s else s + [x]
  }

  /** No two stored edges are equal: the sequence is a faithful picture of a set. */
  predicate NoEqualPair(s: seq<UndirectedEdge>)
  {
    forall i, j :: 0 <= i < j < |s| ==> !EdgeEquals(s[i], s[j])
  }

  lemma AddKeepsNoEqualPair(s: seq<UndirectedEdge>, x: UndirectedEdge)
    requires NoEqualPair(s)
    ensures NoEqualPair(EdgeSetAdd(s, x))
  {
    var r := EdgeSetAdd(s, x);
    if !EdgeSetContains(s, x) {
      forall i, j | 0 <= i < j < |r|
        ensures !EdgeEquals(r[i], r[j])
      {
        if j == |s| {
          assert r[j] == x && r[i] == s[i];
        }
      }
    }
  }

  /**
   * When every stored edge leaves `origin`, an edge leaving `origin` for
   * another vertex is never found in the set: each of its stored copies runs
   * in the same direction.
   */
  lemma SameDirectionNotFound(s: seq<UndirectedEdge>, x: UndirectedEdge)
    requires forall k :: 0 <= k < |s| ==> s[k].origin == x.origin
    ensures EdgeSetContains(s, x) ==> x.origin == x.destination
  {
  }

  class Vertex {
    const value: int
    var edges: seq<UndirectedEdge>

    constructor(value: int)
      ensures this.value == value && edges == []
    {
      this.value := value;
      edges := [];
    }

    /** Every edge of the vertex leaves it, and the edges form a set. */
    ghost predicate Valid()
      reads this
    {
      (forall k :: 0 <= k < |edges| ==> edges[k].origin == value) && NoEqualPair(edges)
    }

    /** Truthiness follows the value: a vertex whose value is 0 is falsy. */
    predicate IsTruthy()
    {
      value != 0
    }

    function OutgoingEdges(): (r: seq<UndirectedEdge>)
      reads this
      ensures r == edges
    {
      edges
    }

    /** Every edge of an undirected vertex is incoming as well as outgoing. */
    function IncomingEdges(): (r: seq<UndirectedEdge>)
      reads this
      ensures r == edges
    {
      OutgoingEdges()
    }

    function Degree(): (d: nat)
      reads this
      ensures d == |edges|
    {
      |edges|
    }

    function OutDegree(): (d: nat)
      reads this
      ensures d == Degree()
    {
      |OutgoingEdges()|
    }

    function InDegree(): (d: nat)
      reads this
      ensures d == Degree() && d == OutDegree()
    {
      |IncomingEdges()|
    }

    /**
     * Adds the edge from this vertex to `destination`.  The destination
     * vertex is not touched.  A non-loop edge is always appended, even when
     * a copy with the same endpoints and weight is stored already.
     */
    method AddEdge(destination: int, weight: int)
      requires Valid()
      modifies this
      ensures Valid()
      ensures edges == EdgeSetAdd(old(edges), UndirectedEdge(value, destination, weight))
      ensures destination != value ==> edges == old(edges) + [UndirectedEdge(value, destination, weight)]
      ensures |old(edges)| <= |edges| <= |old(edges)| + 1
    {
      var e := UndirectedEdge(value, destination, weight);
      SameDirectionNotFound(edges, e);
      AddKeepsNoEqualPair(edges, e);
      edges := EdgeSetAdd(edges, e);
    }
  }

  /** Two vertices are equal when their values are. */
  predicate VertexEquals(a: Vertex, b: Vertex)
  {
    a.value == b.value
  }

  /** The vertex hash is a hash of the value's text; the hash function is a parameter. */
  function VertexHash(valueHash: int -> int, v: Vertex): int
  {
    valueHash(v.value)
  }

  lemma EqualVerticesHashEqual(valueHash: int -> int, a: Vertex, b: Vertex)
    ensures VertexEquals(a, b) ==> VertexHash(valueHash, a) == VertexHash(valueHash, b)
  {
  }
}
