/**
 * The graph's two single-source shortest-path loops, on the adjacency map as
 * a value.  Labels are distances extended with infinity, parents record the
 * vertex each label was last improved from, and the returned path follows the
 * parents back from the destination.
 */
module ShortestPaths {
  import opened Wrappers
  import opened GraphInfo
  import opened Adjacency

  /** A distance label: an integer or infinity. */
  datatype ExtInt = Inf | Fin(n: int)

  /** Adding an edge weight to a label; infinity absorbs every weight. */
  function Add(a: ExtInt, w: int): (r: ExtInt)
    ensures r.Inf? <==> a.Inf?
    ensures r.Fin? ==> r.n - w == a.n
  {
    match a
    case Inf => Inf
    case Fin(n) => Fin(n + w)
  }

  /** Strictly smaller: infinity is smaller than nothing and larger than every integer. */
  predicate Less(a: ExtInt, b: ExtInt)
  {
    a.Fin? && (b.Inf? || a.n < b.n)
  }

  predicate LessEq(a: ExtInt, b: ExtInt)
  {
    b.Inf? || (a.Fin? && a.n <= b.n)
  }

  /** The two comparisons form one total order. */
  lemma OrderFacts(a: ExtInt, b: ExtInt, c: ExtInt)
    ensures Less(a, b) <==> !LessEq(b, a)
    ensures LessEq(a, b) || LessEq(b, a)
    ensures LessEq(a, b) && LessEq(b, c) ==> LessEq(a, c)
    ensures Less(a, b) && LessEq(b, c) ==> Less(a, c)
  {
  }

  /** The start of both algorithms: 0 at the origin, infinity everywhere else. */
  function InitialLabels(adj: AdjacencyMap, origin: int): (r: map<int, ExtInt>)
    requires origin in adj
    ensures r.Keys == adj.Keys && r[origin] == Fin(0)
    ensures forall v :: v in r && v != origin ==> r[v] == Inf
  {
    (map v | v in adj :: Inf)[origin := Fin(0)]
  }

  function NoParents(adj: AdjacencyMap): (r: map<int, Option<int>>)
    ensures r.Keys == adj.Keys && forall v :: v in r ==> r[v] == None
  {
    map v | v in adj :: None
  }

  /**
   * What both algorithms keep true of their labels and parents: the origin's
   * label is finite; a finite label belongs to a vertex reachable from the
   * origin; a finite label other than the origin's has a parent; and a parent
   * has a finite label and an edge to its child.
   */
  ghost predicate LabelsSound(adj: AdjacencyMap, origin: int, labels: map<int, ExtInt>, parents: map<int, Option<int>>)
  {
    labels.Keys == adj.Keys && parents.Keys == adj.Keys && origin in adj && labels[origin].Fin? &&
    (forall v {:trigger labels[v]} :: v in adj && labels[v].Fin? ==> Reachable(adj, origin, v)) &&
    (forall v {:trigger parents[v]} :: v in adj && labels[v].Fin? ==> v == origin || parents[v].Some?) &&
    (forall v {:trigger parents[v]} :: v in adj && parents[v].Some? ==>
       labels[v].Fin? && parents[v].value in adj && labels[parents[v].value].Fin? && Linked(adj, parents[v].value, v))
  }

  lemma InitiallySound(adj: AdjacencyMap, origin: int)
    requires origin in adj
    ensures LabelsSound(adj, origin, InitialLabels(adj, origin), NoParents(adj))
  {
    ReachableFromItself(adj, origin);
  }

  /** The shape of a returned path: a path of the graph that ends at the destination. */
  ghost predicate EndsAt(adj: AdjacencyMap, path: seq<int>, destination: int)
  {
    IsPath(adj, path) && path[|path| - 1] == destination
  }

  /*
   * Walks.  A walk is a list of stored edges, each leaving the vertex where
   * the previous one ends; its weight is the sum of its edges' weights.
   */

  /** `es` is a walk from `a` to `b`. */
  ghost predicate IsWalk(adj: AdjacencyMap, a: int, b: int, es: seq<UndirectedEdge>)
    decreases |es|
  {
    if es == [] then a == b
    else a in adj && es[0] in adj[a] && IsWalk(adj, es[0].destination, b, es[1..])
  }

  function Weight(es: seq<UndirectedEdge>): int
  {
    if es == [] then 0 else es[0].weight + Weight(es[1..])
  }

  /** The vertices a walk from `a` passes through, in order. */
  function Trace(a: int, es: seq<UndirectedEdge>): (p: seq<int>)
    ensures |p| == |es| + 1 && p[0] == a
    decreases |es|
  {
    if es == [] then [a] else [a] + Trace(es[0].destination, es[1..])
  }

  /** `es` is a walk from `a` to `b` that weighs no more than any other. */
  ghost predicate ShortestWalk(adj: AdjacencyMap, a: int, b: int, es: seq<UndirectedEdge>)
  {
    IsWalk(adj, a, b, es) && forall other :: IsWalk(adj, a, b, other) ==> Weight(es) <= Weight(other)
  }

  /** Two shortest walks between the same vertices weigh the same. */
  lemma ShortestWalksWeighTheSame(adj: AdjacencyMap, a: int, b: int, es: seq<UndirectedEdge>, fs: seq<UndirectedEdge>)
    requires ShortestWalk(adj, a, b, es) && ShortestWalk(adj, a, b, fs)
    ensures Weight(es) == Weight(fs)
  {
  }

  ghost predicate NonNegative(adj: AdjacencyMap)
  {
    forall v, k :: v in adj && 0 <= k < |adj[v]| ==> adj[v][k].weight >= 0
  }

  /** No stored edge can lower its destination's label. */
  ghost predicate Calm(adj: AdjacencyMap, labels: map<int, ExtInt>)
    requires WellFormed(adj) && labels.Keys == adj.Keys
  {
    forall v, k :: v in adj && 0 <= k < |adj[v]| ==>
      LessEq(labels[adj[v][k].destination], Add(labels[v], adj[v][k].weight))
  }

  /** With calm labels, the label at the end of a walk is at most the label at its start plus its weight. */
  lemma {:induction false} CalmBound(adj: AdjacencyMap, labels: map<int, ExtInt>, a: int, b: int, es: seq<UndirectedEdge>)
    requires WellFormed(adj) && labels.Keys == adj.Keys && Calm(adj, labels)
    requires a in adj && IsWalk(adj, a, b, es)
    ensures b in adj && LessEq(labels[b], Add(labels[a], Weight(es)))
    decreases |es|
  {
    if es != [] {
      var k :| 0 <= k < |adj[a]| && adj[a][k] == es[0];
      var m := es[0].destination;
      CalmBound(adj, labels, m, b, es[1..]);
      OrderFacts(labels[b], Add(labels[m], Weight(es[1..])), Add(labels[a], Weight(es)));
    }
  }

  /** The parent edge of every vertex is stored at its parent, and the child's label is the parent's plus its weight. */
  ghost predicate ParentEdges(adj: AdjacencyMap, labels: map<int, ExtInt>, parents: map<int, Option<int>>,
                              via: map<int, UndirectedEdge>)
    requires labels.Keys == adj.Keys && parents.Keys == adj.Keys
  {
    forall v {:trigger parents[v]} :: v in adj && parents[v].Some? ==>
      v in via && parents[v].value in adj && via[v] in adj[parents[v].value] && via[v].destination == v &&
      labels[v] == Add(labels[parents[v].value], via[v].weight)
  }

  /** Consecutive vertices of `path` are parent and child. */
  ghost predicate ParentChain(adj: AdjacencyMap, parents: map<int, Option<int>>, path: seq<int>)
    requires parents.Keys == adj.Keys
  {
    |path| >= 1 && (forall i :: 0 <= i < |path| ==> path[i] in adj) &&
    forall i :: 0 <= i < |path| - 1 ==> parents[path[i + 1]] == Some(path[i])
  }

  /** The parent edges along a parent chain form a walk whose weight is the difference of the end labels. */
  lemma {:induction false} ParentWalk(adj: AdjacencyMap, labels: map<int, ExtInt>, parents: map<int, Option<int>>,
                                      via: map<int, UndirectedEdge>, path: seq<int>) returns (es: seq<UndirectedEdge>)
    requires labels.Keys == adj.Keys && parents.Keys == adj.Keys
    requires ParentEdges(adj, labels, parents, via) && ParentChain(adj, parents, path)
    ensures IsWalk(adj, path[0], path[|path| - 1], es) && Trace(path[0], es) == path
    ensures labels[path[|path| - 1]] == Add(labels[path[0]], Weight(es))
    decreases |path|
  {
    if |path| == 1 {
      es := [];
    } else {
      var rest := path[1..];
      assert parents[path[1]] == Some(path[0]);
      var tail := ParentWalk(adj, labels, parents, via, rest);
      es := [via[path[1]]] + tail;
      assert es[1..] == tail;
      assert path == [path[0]] + rest;
    }
  }

  /**
   * With calm labels and tight parent edges, the parent chain from a vertex
   * with a finite label traces a shortest walk to its end.
   */
  lemma ParentChainIsShortest(adj: AdjacencyMap, labels: map<int, ExtInt>, parents: map<int, Option<int>>,
                              via: map<int, UndirectedEdge>, path: seq<int>)
    requires WellFormed(adj) && labels.Keys == adj.Keys && parents.Keys == adj.Keys
    requires ParentEdges(adj, labels, parents, via) && ParentChain(adj, parents, path)
    requires Calm(adj, labels) && labels[path[0]].Fin?
    ensures exists es :: ShortestWalk(adj, path[0], path[|path| - 1], es) && Trace(path[0], es) == path
  {
    var a, b := path[0], path[|path| - 1];
    var es := ParentWalk(adj, labels, parents, via, path);
    forall other | IsWalk(adj, a, b, other)
      ensures Weight(es) <= Weight(other)
    {
      CalmBound(adj, labels, a, b, other);
    }
    assert ShortestWalk(adj, a, b, es);
  }

  /*
   * Dijkstra.  The priority queue holds the unsettled vertices ordered by
   * their current label; popping takes one with a least label.  A vertex
   * leaves the queue when it is popped and never returns, and only vertices
   * still in the queue are relaxed.
   */

  /** Parents were popped before their children; `rank` numbers the popped vertices in order. */
  ghost predicate RankedParents(adj: AdjacencyMap, table: set<int>, parents: map<int, Option<int>>, rank: map<int, nat>)
    requires parents.Keys == adj.Keys
  {
    rank.Keys == adj.Keys - table &&
    forall v {:trigger parents[v]} :: v in adj && parents[v].Some? ==>
      parents[v].value in rank && (v in table || rank[parents[v].value] < rank[v])
  }

  /** Once a vertex with an infinite label was popped, every vertex left in the queue has an infinite label. */
  ghost predicate InfinityLast(adj: AdjacencyMap, table: set<int>, labels: map<int, ExtInt>)
    requires labels.Keys == adj.Keys
  {
    forall u, v :: u in adj && u !in table && labels[u].Inf? && v in adj && v in table ==> labels[v].Inf?
  }

  /** Every neighbour of a settled vertex with a finite label has a finite label. */
  ghost predicate SettledClosed(adj: AdjacencyMap, settled: set<int>, labels: map<int, ExtInt>)
    requires WellFormed(adj) && labels.Keys == adj.Keys
  {
    forall u, k :: u in settled && u in adj && labels[u].Fin? && 0 <= k < |adj[u]| ==>
      labels[adj[u][k].destination].Fin?
  }

  lemma {:induction false} LeastLabelExists(table: set<int>, labels: map<int, ExtInt>)
    requires table != {} && table <= labels.Keys
    ensures exists m :: m in table && forall x :: x in table ==> LessEq(labels[m], labels[x])
    decreases |table|
  {
    var y := Pick(table);
    var rest := table - {y};
    if rest == {} {
      assert table == {y};
      assert forall x :: x in table ==> LessEq(labels[y], labels[x]);
    } else {
      LeastLabelExists(rest, labels);
      var m :| m in rest && forall x :: x in rest ==> LessEq(labels[m], labels[x]);
      assert table == rest + {y};
      if LessEq(labels[m], labels[y]) {
        assert forall x :: x in table ==> LessEq(labels[m], labels[x]);
      } else {
        assert forall x :: x in table ==> LessEq(labels[y], labels[x]);
      }
    }
  }

  /** Improving the label of `end` through the edge from `start` keeps the labels sound. */
  lemma ImproveKeepsSound(adj: AdjacencyMap, origin: int, labels: map<int, ExtInt>, parents: map<int, Option<int>>,
                          start: int, end: int, distance: ExtInt)
    requires LabelsSound(adj, origin, labels, parents)
    requires start in adj && labels[start].Fin? && Linked(adj, start, end) && end in adj && distance.Fin?
    ensures LabelsSound(adj, origin, labels[end := distance], parents[end := Some(start)])
  {
    ReachableAppend(adj, origin, start, end);
    var relaxed, linked := labels[end := distance], parents[end := Some(start)];
    forall v | v in adj && linked[v].Some?
      ensures relaxed[v].Fin? && linked[v].value in adj && relaxed[linked[v].value].Fin? && Linked(adj, linked[v].value, v)
    {
      if v != end {
        assert linked[v] == parents[v];
      }
    }
  }

  /** Popping `start` gives it the next rank; its parent, if any, was popped before. */
  lemma PopKeepsRanks(adj: AdjacencyMap, table: set<int>, start: int, parents: map<int, Option<int>>,
                      rank: map<int, nat>, counter: nat, ranked: map<int, nat>)
    requires parents.Keys == adj.Keys && table <= adj.Keys && start in table
    requires RankedParents(adj, table, parents, rank) && forall x :: x in rank ==> rank[x] < counter
    requires ranked == rank[start := counter]
    ensures RankedParents(adj, table - {start}, parents, ranked)
    ensures forall x :: x in ranked ==> ranked[x] < counter + 1
  {
    forall v | v in adj && parents[v].Some?
      ensures parents[v].value in ranked && (v in table - {start} || ranked[parents[v].value] < ranked[v])
    {
      var p := parents[v].value;
      assert p in rank && p != start;
      if v == start {
        assert ranked[p] == rank[p] < counter;
      }
    }
  }

  /**
   * The state while the edges of the popped vertex `start` are relaxed, from
   * `labels` and `parents` before the first edge to `relaxed` and `linked`
   * now: still sound and ranked, labels no larger than before, vertices out
   * of the queue untouched, nothing changed when `start`'s label is
   * infinite, and settled vertices still closed.
   */
  ghost predicate Relaxing(adj: AdjacencyMap, origin: int, table: set<int>, start: int,
                           labels: map<int, ExtInt>, parents: map<int, Option<int>>, rank: map<int, nat>,
                           relaxed: map<int, ExtInt>, linked: map<int, Option<int>>)
    requires WellFormed(adj) && labels.Keys == adj.Keys && parents.Keys == adj.Keys && start in adj
  {
    LabelsSound(adj, origin, relaxed, linked) &&
    RankedParents(adj, table, linked, rank) &&
    (forall v :: v in adj ==> LessEq(relaxed[v], labels[v])) &&
    (forall v :: v in adj && v !in table ==> relaxed[v] == labels[v]) &&
    (forall v {:trigger linked[v]} {:trigger parents[v]} :: v in adj && v !in table ==> linked[v] == parents[v]) &&
    (labels[start].Inf? ==> relaxed == labels && linked == parents) &&
    SettledClosed(adj, adj.Keys - table - {start}, relaxed)
  }

  /**
   * The weighted half of Dijkstra's invariant.  The origin's label stays 0,
   * and no label changes before the origin is popped; every parent edge is
   * stored at the parent and tight; and when no weight is negative, popped
   * labels are no larger than queued ones and no edge of a popped vertex can
   * lower its destination's label.
   */
  ghost predicate SettledWeights(adj: AdjacencyMap, origin: int, table: set<int>, labels: map<int, ExtInt>,
                                 parents: map<int, Option<int>>, via: map<int, UndirectedEdge>)
    requires WellFormed(adj) && labels.Keys == adj.Keys && parents.Keys == adj.Keys && origin in adj
  {
    labels[origin] == Fin(0) && (origin in table ==> labels == InitialLabels(adj, origin)) &&
    ParentEdges(adj, labels, parents, via) &&
    (NonNegative(adj) ==> SettledFirst(adj, table, labels) && SettledCalm(adj, table, labels))
  }

  /** Popped vertices have labels no larger than those still queued. */
  ghost predicate SettledFirst(adj: AdjacencyMap, table: set<int>, labels: map<int, ExtInt>)
    requires labels.Keys == adj.Keys
  {
    forall u, q :: u in adj && u !in table && q in adj && q in table ==> LessEq(labels[u], labels[q])
  }

  /** No edge of a popped vertex can lower its destination's label. */
  ghost predicate SettledCalm(adj: AdjacencyMap, table: set<int>, labels: map<int, ExtInt>)
    requires WellFormed(adj) && labels.Keys == adj.Keys
  {
    forall u, k :: u in adj && u !in table && 0 <= k < |adj[u]| ==>
      LessEq(labels[adj[u][k].destination], Add(labels[u], adj[u][k].weight))
  }

  /**
   * The weighted state after the first `done` edges of the popped vertex
   * `start` are relaxed: parent edges are still tight, and when no weight is
   * negative, queued labels are no smaller than `start`'s and the relaxed
   * edges into the queue cannot lower their destinations' labels.
   */
  ghost predicate RelaxingWeights(adj: AdjacencyMap, table: set<int>, start: int, labels: map<int, ExtInt>,
                                  relaxed: map<int, ExtInt>, linked: map<int, Option<int>>,
                                  via: map<int, UndirectedEdge>, done: nat)
    requires WellFormed(adj) && labels.Keys == adj.Keys && relaxed.Keys == adj.Keys && linked.Keys == adj.Keys
    requires start in adj && done <= |adj[start]|
  {
    ParentEdges(adj, relaxed, linked, via) &&
    (NonNegative(adj) ==>
       (forall q :: q in adj && q in table ==> LessEq(labels[start], relaxed[q])) &&
       (forall k :: 0 <= k < done && adj[start][k].destination in table ==>
          LessEq(relaxed[adj[start][k].destination], Add(labels[start], adj[start][k].weight))))
  }

  /** Relaxing the edge at index `i` of `start` extends the weighted state to the first `i + 1` edges. */
  lemma RelaxEdgeWeights(adj: AdjacencyMap, table: set<int>, start: int, labels: map<int, ExtInt>, rank: map<int, nat>,
                         relaxed: map<int, ExtInt>, linked: map<int, Option<int>>, via: map<int, UndirectedEdge>, i: nat,
                         relaxed': map<int, ExtInt>, linked': map<int, Option<int>>, via': map<int, UndirectedEdge>)
    requires WellFormed(adj) && labels.Keys == adj.Keys && relaxed.Keys == adj.Keys && linked.Keys == adj.Keys
    requires table <= adj.Keys && start in adj && start !in table && i < |adj[start]|
    requires relaxed[start] == labels[start] && RankedParents(adj, table, linked, rank)
    requires RelaxingWeights(adj, table, start, labels, relaxed, linked, via, i)
    requires var e := adj[start][i];
             (relaxed' == relaxed && linked' == linked && via' == via) ||
             (e.destination in table && relaxed' == relaxed[e.destination := Add(labels[start], e.weight)] &&
              linked' == linked[e.destination := Some(start)] && via' == via[e.destination := e])
    requires forall v :: v in adj ==> LessEq(relaxed'[v], relaxed[v])
    requires adj[start][i].destination in table ==>
               LessEq(relaxed'[adj[start][i].destination], Add(labels[start], adj[start][i].weight))
    ensures relaxed'.Keys == adj.Keys && linked'.Keys == adj.Keys
    ensures RelaxingWeights(adj, table, start, labels, relaxed', linked', via', i + 1)
  {
    var e := adj[start][i];
    var end := e.destination;
    assert end in adj;
    forall v | v in adj && linked'[v].Some?
      ensures v in via' && linked'[v].value in adj && via'[v] in adj[linked'[v].value] && via'[v].destination == v &&
              relaxed'[v] == Add(relaxed'[linked'[v].value], via'[v].weight)
    {
      if linked'[v] == linked[v] && via'[v] == via[v] && relaxed'[v] == relaxed[v] {
        var p := linked[v].value;
        assert p in rank;
        assert relaxed'[p] == relaxed[p];
      }
    }
    if NonNegative(adj) {
      forall q | q in adj && q in table
        ensures LessEq(labels[start], relaxed'[q])
      {
        assert LessEq(labels[start], relaxed[q]);
        if q == end && relaxed'[q] != relaxed[q] {
          assert e.weight >= 0;
        }
      }
      forall k | 0 <= k < i + 1 && adj[start][k].destination in table
        ensures LessEq(relaxed'[adj[start][k].destination], Add(labels[start], adj[start][k].weight))
      {
        var d := adj[start][k].destination;
        if k < i {
          OrderFacts(relaxed'[d], relaxed[d], Add(labels[start], adj[start][k].weight));
        }
      }
    }
  }

  /**
   * Once every edge of `start` is relaxed, the weighted invariant holds with
   * `start` out of the queue.  The origin is the first vertex popped, since
   * every other label is infinite until then.
   */
  lemma SettleWeights(adj: AdjacencyMap, origin: int, table: set<int>, start: int,
                      labels: map<int, ExtInt>, parents: map<int, Option<int>>, via: map<int, UndirectedEdge>,
                      relaxed: map<int, ExtInt>, linked: map<int, Option<int>>, via': map<int, UndirectedEdge>)
    requires WellFormed(adj) && origin in adj && table <= adj.Keys && start in table
    requires labels.Keys == adj.Keys && parents.Keys == adj.Keys && relaxed.Keys == adj.Keys && linked.Keys == adj.Keys
    requires forall x :: x in table ==> LessEq(labels[start], labels[x])
    requires SettledWeights(adj, origin, table, labels, parents, via)
    requires forall v :: v in adj ==> LessEq(relaxed[v], labels[v])
    requires forall v :: v in adj && v !in table - {start} ==> relaxed[v] == labels[v]
    requires RelaxingWeights(adj, table - {start}, start, labels, relaxed, linked, via', |adj[start]|)
    ensures SettledWeights(adj, origin, table - {start}, relaxed, linked, via')
  {
    var rest := table - {start};
    if origin in table {
      assert LessEq(labels[start], labels[origin]);
      assert start == origin;
    }
    assert origin !in rest;
    if NonNegative(adj) {
      forall u, q | u in adj && u !in rest && q in adj && q in rest
        ensures LessEq(relaxed[u], relaxed[q])
      {
        if u != start {
          OrderFacts(labels[u], labels[start], relaxed[q]);
        }
      }
      forall u, k | u in adj && u !in rest && 0 <= k < |adj[u]|
        ensures LessEq(relaxed[adj[u][k].destination], Add(relaxed[u], adj[u][k].weight))
      {
        var d, w := adj[u][k].destination, adj[u][k].weight;
        if u == start {
          if d !in rest && d != start {
            OrderFacts(labels[d], labels[start], Add(labels[start], w));
          }
        } else {
          OrderFacts(relaxed[d], labels[d], Add(labels[u], w));
        }
      }
    }
  }

  /**
   * Relaxes one edge `e` of the popped vertex `start`: when its destination
   * is still in the queue and `start`'s label plus the weight is smaller
   * than the destination's label, that sum becomes the destination's label
   * and `start` its parent.
   */
  method RelaxEdge(adj: AdjacencyMap, origin: int, table: set<int>, start: int,
                   labels: map<int, ExtInt>, parents: map<int, Option<int>>, ghost rank: map<int, nat>,
                   relaxed: map<int, ExtInt>, linked: map<int, Option<int>>, ghost via: map<int, UndirectedEdge>,
                   e: UndirectedEdge)
    returns (relaxed': map<int, ExtInt>, linked': map<int, Option<int>>, ghost via': map<int, UndirectedEdge>)
    requires WellFormed(adj) && labels.Keys == adj.Keys && parents.Keys == adj.Keys
    requires table <= adj.Keys && start in adj && start !in table && e in adj[start]
    requires Relaxing(adj, origin, table, start, labels, parents, rank, relaxed, linked)
    requires labels[start].Fin? ==> forall u :: u in adj && u !in table ==> labels[u].Fin?
    ensures relaxed'.Keys == adj.Keys
    ensures Relaxing(adj, origin, table, start, labels, parents, rank, relaxed', linked')
    ensures forall v :: v in adj && relaxed[v].Fin? ==> relaxed'[v].Fin?
    ensures labels[start].Fin? ==> relaxed'[e.destination].Fin?
    ensures forall v :: v in adj ==> LessEq(relaxed'[v], relaxed[v])
    ensures (relaxed' == relaxed && linked' == linked && via' == via) ||
            (e.destination in table && relaxed' == relaxed[e.destination := Add(labels[start], e.weight)] &&
             linked' == linked[e.destination := Some(start)] && via' == via[e.destination := e])
    ensures e.destination in table ==> LessEq(relaxed'[e.destination], Add(labels[start], e.weight))
  {
    relaxed', linked', via' := relaxed, linked, via;
    var end := e.destination;
    var k :| 0 <= k < |adj[start]| && adj[start][k] == e;
    assert end in adj;
    if end in table {
      var distance := Add(relaxed[start], e.weight);
      OrderFacts(distance, relaxed[end], labels[end]);
      if Less(distance, relaxed[end]) {
        assert Linked(adj, start, end);
        ImproveKeepsRelaxing(adj, origin, table, start, labels, parents, rank, relaxed, linked, end, distance);
        relaxed' := relaxed[end := distance];
        linked' := linked[end := Some(start)];
        via' := via[end := e];
        forall v | v in adj
          ensures LessEq(relaxed'[v], relaxed[v])
        {
          OrderFacts(relaxed'[v], relaxed[v], relaxed[v]);
        }
      }
    }
  }

  /** Improving the label of a queued neighbour of `start` keeps the relaxation invariant. */
  lemma ImproveKeepsRelaxing(adj: AdjacencyMap, origin: int, table: set<int>, start: int,
                             labels: map<int, ExtInt>, parents: map<int, Option<int>>, rank: map<int, nat>,
                             relaxed: map<int, ExtInt>, linked: map<int, Option<int>>, end: int, distance: ExtInt)
    requires WellFormed(adj) && labels.Keys == adj.Keys && parents.Keys == adj.Keys
    requires table <= adj.Keys && start in adj && start !in table && end in table
    requires Relaxing(adj, origin, table, start, labels, parents, rank, relaxed, linked)
    requires Linked(adj, start, end) && relaxed[start].Fin? && distance.Fin? && Less(distance, relaxed[end])
    ensures Relaxing(adj, origin, table, start, labels, parents, rank, relaxed[end := distance], linked[end := Some(start)])
  {
    var relaxed', linked' := relaxed[end := distance], linked[end := Some(start)];
    ImproveKeepsSound(adj, origin, relaxed, linked, start, end, distance);
    ImproveKeepsRanked(adj, table, start, linked, rank, end);
    ImproveKeepsClosed(adj, adj.Keys - table - {start}, relaxed, end, distance);
    assert forall v :: v in adj ==> LessEq(relaxed'[v], labels[v]) by {
      OrderFacts(distance, relaxed[end], labels[end]);
    }
    assert forall v :: v in adj && v !in table ==> relaxed'[v] == labels[v];
    assert forall v :: v in adj && v !in table ==> linked'[v] == parents[v];
    assert labels[start].Fin?;
  }

  /** Making a settled vertex the parent of a queued one keeps the parents ranked. */
  lemma ImproveKeepsRanked(adj: AdjacencyMap, table: set<int>, start: int,
                           linked: map<int, Option<int>>, rank: map<int, nat>, end: int)
    requires linked.Keys == adj.Keys && start in adj && start !in table && end in table && end in adj
    requires RankedParents(adj, table, linked, rank)
    ensures RankedParents(adj, table, linked[end := Some(start)], rank)
  {
    var linked' := linked[end := Some(start)];
    forall v | v in adj && linked'[v].Some?
      ensures linked'[v].value in rank && (v in table || rank[linked'[v].value] < rank[v])
    {
      if v != end {
        assert linked'[v] == linked[v];
      }
    }
  }

  /** Giving a vertex a finite label keeps every settled vertex's neighbours finite. */
  lemma ImproveKeepsClosed(adj: AdjacencyMap, settled: set<int>, relaxed: map<int, ExtInt>, end: int, distance: ExtInt)
    requires WellFormed(adj) && relaxed.Keys == adj.Keys && end in adj && distance.Fin?
    requires SettledClosed(adj, settled, relaxed) && end !in settled
    ensures SettledClosed(adj, settled, relaxed[end := distance])
  {
  }

  /** Relaxes every edge of the vertex `start` just popped from the queue, in stored order. */
  method RelaxNeighbours(adj: AdjacencyMap, origin: int, start: int, table: set<int>,
                         labels: map<int, ExtInt>, parents: map<int, Option<int>>, ghost rank: map<int, nat>,
                         ghost via: map<int, UndirectedEdge>)
    returns (relaxed: map<int, ExtInt>, linked: map<int, Option<int>>, ghost via': map<int, UndirectedEdge>)
    requires WellFormed(adj) && table <= adj.Keys && start in adj && start !in table
    requires LabelsSound(adj, origin, labels, parents) && ParentEdges(adj, labels, parents, via)
    requires RankedParents(adj, table, parents, rank)
    requires forall x :: x in table ==> LessEq(labels[start], labels[x])
    requires InfinityLast(adj, table + {start}, labels)
    requires SettledClosed(adj, adj.Keys - table - {start}, labels)
    ensures LabelsSound(adj, origin, relaxed, linked)
    ensures RankedParents(adj, table, linked, rank)
    ensures InfinityLast(adj, table, relaxed)
    ensures SettledClosed(adj, adj.Keys - table, relaxed)
    ensures forall v :: v in adj ==> LessEq(relaxed[v], labels[v])
    ensures forall v :: v in adj && v !in table ==> relaxed[v] == labels[v]
    ensures forall v {:trigger linked[v]} {:trigger parents[v]} :: v in adj && v !in table ==> linked[v] == parents[v]
    ensures relaxed.Keys == adj.Keys && linked.Keys == adj.Keys
    ensures RelaxingWeights(adj, table, start, labels, relaxed, linked, via', |adj[start]|)
  {
    assert labels[start].Fin? ==> forall u :: u in adj && u !in table ==> labels[u].Fin?;
    relaxed, linked, via' := RelaxEdges(adj, origin, start, table, labels, parents, rank, via);
    SettleStart(adj, origin, table, start, labels, parents, rank, relaxed, linked);
  }

  /** The loop of `RelaxNeighbours`: each edge of `start` in turn, keeping the relaxation invariant. */
  method RelaxEdges(adj: AdjacencyMap, origin: int, start: int, table: set<int>,
                    labels: map<int, ExtInt>, parents: map<int, Option<int>>, ghost rank: map<int, nat>,
                    ghost via: map<int, UndirectedEdge>)
    returns (relaxed: map<int, ExtInt>, linked: map<int, Option<int>>, ghost via': map<int, UndirectedEdge>)
    requires WellFormed(adj) && labels.Keys == adj.Keys && parents.Keys == adj.Keys
    requires table <= adj.Keys && start in adj && start !in table
    requires Relaxing(adj, origin, table, start, labels, parents, rank, labels, parents)
    requires labels[start].Fin? ==> forall u :: u in adj && u !in table ==> labels[u].Fin?
    requires RelaxingWeights(adj, table, start, labels, labels, parents, via, 0)
    ensures Relaxing(adj, origin, table, start, labels, parents, rank, relaxed, linked)
    ensures labels[start].Fin? ==> forall k :: 0 <= k < |adj[start]| ==> relaxed[adj[start][k].destination].Fin?
    ensures relaxed.Keys == adj.Keys && linked.Keys == adj.Keys
    ensures RelaxingWeights(adj, table, start, labels, relaxed, linked, via', |adj[start]|)
  {
    relaxed, linked, via' := labels, parents, via;
    var settledFinite := labels[start].Fin?;
    var edges := adj[start];
    var i := 0;
    while i < |edges|
      invariant 0 <= i <= |edges|
      invariant relaxed.Keys == adj.Keys
      invariant Relaxing(adj, origin, table, start, labels, parents, rank, relaxed, linked)
      invariant settledFinite ==> forall k :: 0 <= k < i ==> relaxed[edges[k].destination].Fin?
      invariant linked.Keys == adj.Keys
      invariant RelaxingWeights(adj, table, start, labels, relaxed, linked, via', i)
    {
      ghost var previous, previousLinks, previousVia := relaxed, linked, via';
      relaxed, linked, via' := RelaxEdge(adj, origin, table, start, labels, parents, rank, relaxed, linked, via', edges[i]);
      RelaxEdgeWeights(adj, table, start, labels, rank, previous, previousLinks, previousVia, i, relaxed, linked, via');
      if settledFinite {
        FinitePrefixGrows(adj, edges, i, previous, relaxed);
      }
      i := i + 1;
    }
  }

  lemma FinitePrefixGrows(adj: AdjacencyMap, edges: seq<UndirectedEdge>, i: nat,
                          previous: map<int, ExtInt>, relaxed: map<int, ExtInt>)
    requires i < |edges| && previous.Keys == adj.Keys && relaxed.Keys == adj.Keys
    requires forall k :: 0 <= k < |edges| ==> edges[k].destination in adj
    requires forall k :: 0 <= k < i ==> previous[edges[k].destination].Fin?
    requires forall v :: v in adj && previous[v].Fin? ==> relaxed[v].Fin?
    requires relaxed[edges[i].destination].Fin?
    ensures forall k :: 0 <= k < i + 1 ==> relaxed[edges[k].destination].Fin?
  {
    forall k | 0 <= k < i + 1
      ensures relaxed[edges[k].destination].Fin?
    {
      if k < i {
        assert previous[edges[k].destination].Fin?;
      }
    }
  }

  /**
   * Once every edge of `start` is relaxed, `start` joins the settled
   * vertices: the queue's labels are still no smaller than any popped
   * infinite label, and the settled vertices stay closed.
   */
  lemma SettleStart(adj: AdjacencyMap, origin: int, table: set<int>, start: int,
                    labels: map<int, ExtInt>, parents: map<int, Option<int>>, rank: map<int, nat>,
                    relaxed: map<int, ExtInt>, linked: map<int, Option<int>>)
    requires WellFormed(adj) && table <= adj.Keys && start in adj && start !in table
    requires labels.Keys == adj.Keys && parents.Keys == adj.Keys
    requires forall x :: x in table ==> LessEq(labels[start], labels[x])
    requires InfinityLast(adj, table + {start}, labels)
    requires Relaxing(adj, origin, table, start, labels, parents, rank, relaxed, linked)
    requires labels[start].Fin? ==> forall k :: 0 <= k < |adj[start]| ==> relaxed[adj[start][k].destination].Fin?
    ensures InfinityLast(adj, table, relaxed)
    ensures SettledClosed(adj, adj.Keys - table, relaxed)
  {
    forall u, v | u in adj && u !in table && relaxed[u].Inf? && v in adj && v in table
      ensures relaxed[v].Inf?
    {
      if u == start {
        OrderFacts(relaxed[v], labels[v], labels[v]);
      }
    }
  }

  /**
   * Dijkstra's algorithm from `origin` to `destination`.  A missing origin is
   * reported before anything is computed, a missing destination after the
   * labels are.  The path ends at the destination, each step follows an
   * edge, and it starts at the origin exactly when the destination is
   * reachable; an unreachable destination gives the one-vertex path.
   */
  method Dijkstra(adj: AdjacencyMap, origin: int, destination: int) returns (r: Result<seq<int>, GraphError>)
    requires WellFormed(adj)
    ensures origin !in adj ==> r == Err(VertexNotFound(origin))
    ensures origin in adj && destination !in adj ==> r == Err(VertexNotFound(destination))
    ensures origin in adj && destination in adj ==>
              r.Ok? && EndsAt(adj, r.value, destination) &&
              (r.value[0] == origin <==> Reachable(adj, origin, destination)) &&
              (!Reachable(adj, origin, destination) ==> r.value == [destination])
    ensures origin in adj && destination in adj && NonNegative(adj) && Reachable(adj, origin, destination) ==>
              r.Ok? && exists es :: ShortestWalk(adj, origin, destination, es) && Trace(origin, es) == r.value
  {
    if origin !in adj {
      return Err(VertexNotFound(origin));
    }
    var labels := InitialLabels(adj, origin);
    var parents := NoParents(adj);
    InitiallySound(adj, origin);
    var table := adj.Keys;
    ghost var rank: map<int, nat> := map[];
    ghost var counter: nat := 0;
    ghost var via: map<int, UndirectedEdge> := map[];
    while table != {}
      invariant table <= adj.Keys
      invariant LabelsSound(adj, origin, labels, parents)
      invariant RankedParents(adj, table, parents, rank)
      invariant forall x :: x in rank ==> rank[x] < counter
      invariant InfinityLast(adj, table, labels)
      invariant SettledClosed(adj, adj.Keys - table, labels)
      invariant SettledWeights(adj, origin, table, labels, parents, via)
      decreases |table|
    {
      table, labels, parents, rank, counter, via := SettleNearest(adj, origin, table, labels, parents, rank, counter, via);
    }
    if destination !in adj {
      return Err(VertexNotFound(destination));
    }
    assert adj.Keys - table == adj.Keys;
    FiniteExactlyReachable(adj, origin, labels, parents);
    var path := FollowParents(adj, origin, destination, labels, parents, rank);
    if NonNegative(adj) && Reachable(adj, origin, destination) {
      assert Calm(adj, labels);
      ParentChainIsShortest(adj, labels, parents, via, path);
    }
    return Ok(path);
  }

  /**
   * One pass of Dijkstra's loop: pops a vertex with a least label from the
   * queue, gives it the next rank, and relaxes its edges.
   */
  method SettleNearest(adj: AdjacencyMap, origin: int, table: set<int>,
                       labels: map<int, ExtInt>, parents: map<int, Option<int>>,
                       ghost rank: map<int, nat>, ghost counter: nat, ghost via: map<int, UndirectedEdge>)
    returns (table': set<int>, labels': map<int, ExtInt>, parents': map<int, Option<int>>,
             ghost rank': map<int, nat>, ghost counter': nat, ghost via': map<int, UndirectedEdge>)
    requires WellFormed(adj) && table != {} && table <= adj.Keys
    requires LabelsSound(adj, origin, labels, parents)
    requires RankedParents(adj, table, parents, rank)
    requires forall x :: x in rank ==> rank[x] < counter
    requires InfinityLast(adj, table, labels)
    requires SettledClosed(adj, adj.Keys - table, labels)
    requires SettledWeights(adj, origin, table, labels, parents, via)
    ensures table' <= table && |table'| < |table|
    ensures LabelsSound(adj, origin, labels', parents')
    ensures RankedParents(adj, table', parents', rank')
    ensures forall x :: x in rank' ==> rank'[x] < counter'
    ensures InfinityLast(adj, table', labels')
    ensures SettledClosed(adj, adj.Keys - table', labels')
    ensures SettledWeights(adj, origin, table', labels', parents', via')
  {
    LeastLabelExists(table, labels);
    var start :| start in table && forall x :: x in table ==> LessEq(labels[start], labels[x]);
    rank' := rank[start := counter];
    PopKeepsRanks(adj, table, start, parents, rank, counter, rank');
    table' := table - {start};
    assert table == table' + {start};
    assert |table| == |table'| + 1;
    assert adj.Keys - table' - {start} == adj.Keys - table;
    counter' := counter + 1;
    labels', parents', via' := RelaxNeighbours(adj, origin, start, table', labels, parents, rank', via);
    SettleWeights(adj, origin, table, start, labels, parents, via, labels', parents', via');
  }

  /**
   * When no vertex is left in the queue, a label is finite exactly when its
   * vertex is reachable from the origin.
   */
  lemma FiniteExactlyReachable(adj: AdjacencyMap, origin: int, labels: map<int, ExtInt>, parents: map<int, Option<int>>)
    requires WellFormed(adj) && LabelsSound(adj, origin, labels, parents)
    requires SettledClosed(adj, adj.Keys, labels)
    ensures forall v :: v in adj ==> (labels[v].Fin? <==> Reachable(adj, origin, v))
  {
    var finite := set v | v in adj && labels[v].Fin?;
    assert ClosedUnder(adj, finite);
    forall v | v in adj && Reachable(adj, origin, v)
      ensures labels[v].Fin?
    {
      ClosedHoldsReachable(adj, finite, origin, v);
    }
  }

  /**
   * Follows the parents back from `destination` until a vertex without one.
   * Every parent comes strictly before its child in the ghost `order`, so the
   * walk ends.
   */
  method FollowParents(adj: AdjacencyMap, origin: int, destination: int,
                       labels: map<int, ExtInt>, parents: map<int, Option<int>>, ghost order: map<int, nat>)
    returns (path: seq<int>)
    requires destination in adj && LabelsSound(adj, origin, labels, parents)
    requires order.Keys == adj.Keys
    requires forall v {:trigger parents[v]} :: v in adj && parents[v].Some? ==> order[parents[v].value] < order[v]
    ensures EndsAt(adj, path, destination)
    ensures labels[destination].Fin? ==> path[0] == origin
    ensures labels[destination].Inf? ==> path == [destination]
    ensures ParentChain(adj, parents, path) && parents[path[0]].None?
  {
    path := [destination];
    var current := destination;
    while parents[current].Some?
      invariant EndsAt(adj, path, destination)
      invariant current in adj && path[0] == current
      invariant labels[destination].Fin? ==> labels[current].Fin?
      invariant labels[destination].Inf? ==> path == [destination]
      invariant ParentChain(adj, parents, path)
      decreases order[current]
    {
      var p := parents[current].value;
      PrependParent(adj, origin, labels, parents, path, destination);
      path := [p] + path;
      current := p;
    }
  }

  /** Putting the parent of its first vertex in front of a parent chain keeps it a chain to the same end. */
  lemma PrependParent(adj: AdjacencyMap, origin: int, labels: map<int, ExtInt>, parents: map<int, Option<int>>,
                      path: seq<int>, destination: int)
    requires LabelsSound(adj, origin, labels, parents)
    requires EndsAt(adj, path, destination) && ParentChain(adj, parents, path) && parents[path[0]].Some?
    ensures EndsAt(adj, [parents[path[0]].value] + path, destination)
    ensures ParentChain(adj, parents, [parents[path[0]].value] + path)
  {
    var longer := [parents[path[0]].value] + path;
    assert forall i :: 1 <= i < |longer| ==> longer[i] == path[i - 1];
  }

  /**
   * A walk whose weight is exactly the difference of its end labels uses only
   * tight edges: its first edge raises the label by its weight, and the rest
   * of the walk again has exactly the difference as its weight.
   */
  lemma TightStep(adj: AdjacencyMap, labels: map<int, ExtInt>, a: int, b: int, es: seq<UndirectedEdge>)
    requires WellFormed(adj) && labels.Keys == adj.Keys && Calm(adj, labels)
    requires a in adj && b in adj && IsWalk(adj, a, b, es) && es != []
    requires labels[a].Fin? && labels[b] == Add(labels[a], Weight(es))
    ensures es[0].destination in adj && IsWalk(adj, es[0].destination, b, es[1..])
    ensures labels[es[0].destination] == Add(labels[a], es[0].weight)
    ensures labels[b] == Add(labels[es[0].destination], Weight(es[1..]))
  {
    var k :| 0 <= k < |adj[a]| && adj[a][k] == es[0];
    CalmBound(adj, labels, es[0].destination, b, es[1..]);
  }

  /*
   * The four-vertex example: vertices A, B, C, D numbered 1 to 4, edges A-B
   * of weight 1, B-C of weight 2, A-C of weight 4 and C-D of weight 1, added
   * in that order.
   */

  ghost predicate ExampleGraph(t: AdjacencyMap)
  {
    t.Keys == {1, 2, 3, 4} &&
    t[1] == [UndirectedEdge(1, 2, 1), UndirectedEdge(1, 3, 4)] &&
    t[2] == [UndirectedEdge(2, 1, 1), UndirectedEdge(2, 3, 2)] &&
    t[3] == [UndirectedEdge(3, 2, 2), UndirectedEdge(3, 1, 4), UndirectedEdge(3, 4, 1)] &&
    t[4] == [UndirectedEdge(4, 3, 1)]
  }

  /** The distances from A: 0, 1, 3 and 4. */
  ghost predicate ExampleDistances(d: map<int, ExtInt>)
  {
    d.Keys == {1, 2, 3, 4} && d[1] == Fin(0) && d[2] == Fin(1) && d[3] == Fin(3) && d[4] == Fin(4)
  }

  /** A walk from vertex `x` to D weighing exactly the distance between them passes every later vertex in turn. */
  lemma {:induction false} ExampleTightWalk(t: AdjacencyMap, d: map<int, ExtInt>, x: int, es: seq<UndirectedEdge>)
    requires ExampleGraph(t) && WellFormed(t) && ExampleDistances(d) && Calm(t, d)
    requires x in t && IsWalk(t, x, 4, es) && d[4] == Add(d[x], Weight(es))
    ensures Trace(x, es) == [1, 2, 3, 4][x - 1..]
    decreases |es|
  {
    if es != [] {
      TightStep(t, d, x, 4, es);
      var m := es[0].destination;
      var k :| 0 <= k < |t[x]| && t[x][k] == es[0];
      ExampleTightEdge(t, d, x, k);
      ExampleTightWalk(t, d, m, es[1..]);
      assert [1, 2, 3, 4][x - 1..] == [x] + [1, 2, 3, 4][x..];
    }
  }

  /** In the example the only edges that raise the distance by exactly their weight lead from a vertex to the next one. */
  lemma ExampleTightEdge(t: AdjacencyMap, d: map<int, ExtInt>, x: int, k: int)
    requires ExampleGraph(t) && ExampleDistances(d) && x in t && 0 <= k < |t[x]|
    requires t[x][k].destination in d && d[t[x][k].destination] == Add(d[x], t[x][k].weight)
    ensures t[x][k].destination == x + 1
  {
    if x == 1 {
      assert k == 0;
    } else if x == 2 {
      assert k == 1;
    } else {
      assert x == 3 && k == 2;
    }
  }

  /** In the example every shortest walk from A to D weighs 4 and passes A, B, C, D. */
  lemma ExampleShortestWalk(t: AdjacencyMap)
    requires ExampleGraph(t)
    ensures WellFormed(t) && NonNegative(t) && Reachable(t, 1, 4)
    ensures forall es :: ShortestWalk(t, 1, 4, es) ==> Weight(es) == 4 && Trace(1, es) == [1, 2, 3, 4]
  {
    var d := map[1 := Fin(0), 2 := Fin(1), 3 := Fin(3), 4 := Fin(4)];
    ExampleCalm(t, d);
    var direct := ExampleDirectWalk(t);
    forall es | ShortestWalk(t, 1, 4, es)
      ensures Weight(es) == 4 && Trace(1, es) == [1, 2, 3, 4]
    {
      assert Weight(es) <= Weight(direct);
      CalmBound(t, d, 1, 4, es);
      ExampleTightWalk(t, d, 1, es);
    }
  }

  /** The example's weights are non-negative and its distances from A are calm. */
  lemma ExampleCalm(t: AdjacencyMap, d: map<int, ExtInt>)
    requires ExampleGraph(t) && ExampleDistances(d)
    ensures WellFormed(t) && NonNegative(t) && Calm(t, d)
  {
    forall v, k | v in t && 0 <= k < |t[v]|
      ensures t[v][k].origin == v && t[v][k].destination in t && t[v][k].weight >= 0
      ensures LessEq(d[t[v][k].destination], Add(d[v], t[v][k].weight))
    {
      if v == 1 {
      } else if v == 2 {
      } else if v == 3 {
      } else {
      }
    }
  }

  /** A, B, C, D is a path of the example, and the walk along it weighs 4. */
  lemma ExampleDirectWalk(t: AdjacencyMap) returns (direct: seq<UndirectedEdge>)
    requires ExampleGraph(t)
    ensures IsWalk(t, 1, 4, direct) && Weight(direct) == 4 && Reachable(t, 1, 4)
  {
    var last := [t[3][2]];
    assert last[1..] == [] && last[0] == UndirectedEdge(3, 4, 1) && last[0] in t[3];
    assert IsWalk(t, 4, 4, last[1..]);
    assert IsWalk(t, 3, 4, last);
    assert Weight(last) == 1;
    var middle := [t[2][1]] + last;
    assert middle[1..] == last;
    direct := [t[1][0]] + middle;
    assert direct[1..] == middle;
    assert Linked(t, 1, 2) && Linked(t, 2, 3) && Linked(t, 3, 4);
    var path := [1, 2, 3, 4];
    assert IsPath(t, path) && path[0] == 1 && path[|path| - 1] == 4;
  }

  /** Dijkstra's algorithm from A to D in the example returns A, B, C, D. */
  method DijkstraExample(t: AdjacencyMap) returns (r: Result<seq<int>, GraphError>)
    requires ExampleGraph(t)
    ensures r == Ok([1, 2, 3, 4])
  {
    ExampleShortestWalk(t);
    r := Dijkstra(t, 1, 4);
  }

  /*
   * Bellman-Ford.  The rounds relax the edges of the graph's edge list, in
   * which each undirected edge appears once, in the direction it was first
   * met in; a round is a left-to-right pass over that list.
   */

  datatype Relaxation = Relaxation(labels: map<int, ExtInt>, parents: map<int, Option<int>>)

  /** The edges' endpoints all have labels and parents. */
  ghost predicate Labelled(s: Relaxation, edges: seq<UndirectedEdge>)
  {
    s.labels.Keys == s.parents.Keys &&
    forall k :: 0 <= k < |edges| ==> edges[k].origin in s.labels && edges[k].destination in s.labels
  }

  /** The edge can still improve its destination's label. */
  predicate Tense(labels: map<int, ExtInt>, e: UndirectedEdge)
    requires e.origin in labels && e.destination in labels
  {
    !LessEq(labels[e.destination], Add(labels[e.origin], e.weight))
  }

  /** Relaxing one edge: a smaller label through the edge replaces the destination's label and parent. */
  function Relax(s: Relaxation, e: UndirectedEdge): (r: Relaxation)
    requires s.labels.Keys == s.parents.Keys && e.origin in s.labels && e.destination in s.labels
    ensures r.labels.Keys == s.labels.Keys && r.parents.Keys == s.parents.Keys
    ensures forall v :: v in s.labels ==> LessEq(r.labels[v], s.labels[v])
    ensures Tense(s.labels, e) <==> r.labels != s.labels
    ensures !Tense(s.labels, e) ==> r == s
  {
    var distance := Add(s.labels[e.origin], e.weight);
    if Less(distance, s.labels[e.destination]) then
      OrderFacts(distance, s.labels[e.destination], s.labels[e.destination]);
      assert s.labels[e.destination := distance][e.destination] != s.labels[e.destination];
      Relaxation(s.labels[e.destination := distance], s.parents[e.destination := Some(e.origin)])
    else
      OrderFacts(distance, s.labels[e.destination], s.labels[e.destination]);
      s
  }

  /** One round: the edges relaxed in list order. */
  function Round(s: Relaxation, edges: seq<UndirectedEdge>): (r: Relaxation)
    requires Labelled(s, edges)
    ensures r.labels.Keys == s.labels.Keys && r.parents.Keys == s.parents.Keys
    decreases |edges|
  {
    if edges == [] then s
    else
      var init := edges[..|edges| - 1];
      assert forall k :: 0 <= k < |init| ==> init[k] == edges[k];
      Relax(Round(s, init), edges[|edges| - 1])
  }

  /** `n` rounds in a row. */
  function Rounds(s: Relaxation, edges: seq<UndirectedEdge>, n: nat): (r: Relaxation)
    requires Labelled(s, edges)
    ensures r.labels.Keys == s.labels.Keys && r.parents.Keys == s.parents.Keys
  {
    if n == 0 then s else Round(Rounds(s, edges, n - 1), edges)
  }

  lemma RoundsNext(s: Relaxation, edges: seq<UndirectedEdge>, n: nat)
    requires Labelled(s, edges)
    ensures Labelled(Rounds(s, edges, n), edges)
    ensures Rounds(s, edges, n + 1) == Round(Rounds(s, edges, n), edges)
  {
  }

  /** `after` is the state one round after `before`. */
  ghost predicate OneRound(before: Relaxation, after: Relaxation, edges: seq<UndirectedEdge>)
  {
    Labelled(before, edges) && after == Round(before, edges)
  }

  /**
   * `history` lists the state before the first round and after each round:
   * every entry is one round after the entry before it.
   */
  ghost predicate RoundHistory(start: Relaxation, edges: seq<UndirectedEdge>, history: seq<Relaxation>)
  {
    |history| >= 1 && history[0] == start &&
    forall j, k {:trigger OneRound(history[j], history[k], edges)} ::
      0 <= j && k == j + 1 && k < |history| ==> OneRound(history[j], history[k], edges)
  }

  /** Appending the state one round after the last entry keeps a round history. */
  lemma HistoryGrows(start: Relaxation, edges: seq<UndirectedEdge>, history: seq<Relaxation>, next: Relaxation)
    requires RoundHistory(start, edges, history)
    requires OneRound(history[|history| - 1], next, edges)
    ensures RoundHistory(start, edges, history + [next])
  {
    var longer := history + [next];
    forall j, k | 0 <= j && k == j + 1 && k < |longer|
      ensures OneRound(longer[j], longer[k], edges)
    {
      if k < |history| {
        assert longer[j] == history[j] && longer[k] == history[k];
        assert OneRound(history[j], history[k], edges);
      }
    }
  }

  /** The `n`-th entry of a round history is the state after `n` rounds. */
  lemma {:induction false} HistoryIsRounds(start: Relaxation, edges: seq<UndirectedEdge>, history: seq<Relaxation>, n: nat)
    requires Labelled(start, edges) && RoundHistory(start, edges, history) && n < |history|
    ensures history[n] == Rounds(start, edges, n)
  {
    if n > 0 {
      var before, after := history[n - 1], history[n];
      HistoryIsRounds(start, edges, history, n - 1);
      assert OneRound(before, after, edges);
      RoundAfterRounds(start, edges, n, before, after);
    }
  }

  /** One round after the state after `n - 1` rounds is the state after `n` rounds. */
  lemma RoundAfterRounds(start: Relaxation, edges: seq<UndirectedEdge>, n: nat, before: Relaxation, after: Relaxation)
    requires Labelled(start, edges) && n > 0 && before == Rounds(start, edges, n - 1) && OneRound(before, after, edges)
    ensures after == Rounds(start, edges, n)
  {
    RoundsNext(start, edges, n - 1);
  }

  /** The states before the first round and after each of `n` rounds form a round history. */
  lemma {:induction false} RecordRounds(start: Relaxation, edges: seq<UndirectedEdge>, n: nat)
    returns (history: seq<Relaxation>)
    requires Labelled(start, edges)
    ensures RoundHistory(start, edges, history) && |history| == n + 1 && history[n] == Rounds(start, edges, n)
  {
    if n == 0 {
      history := [start];
    } else {
      var shorter := RecordRounds(start, edges, n - 1);
      RoundsNext(start, edges, n - 1);
      HistoryGrows(start, edges, shorter, Rounds(start, edges, n));
      history := shorter + [Rounds(start, edges, n)];
    }
  }

  lemma EdgesLabelled(adj: AdjacencyMap, s: Relaxation)
    requires WellFormed(adj) && s.labels.Keys == adj.Keys && s.parents.Keys == adj.Keys
    ensures Labelled(s, Edges(adj))
  {
    EdgesAreStored(adj);
    StoredLabelled(adj, s, Edges(adj));
  }

  /** Stored edges have both endpoints labelled. */
  lemma StoredLabelled(adj: AdjacencyMap, s: Relaxation, edges: seq<UndirectedEdge>)
    requires WellFormed(adj) && s.labels.Keys == adj.Keys && s.parents.Keys == adj.Keys
    requires forall x :: x in edges ==> Stored(adj, x)
    ensures Labelled(s, edges)
  {
    forall k | 0 <= k < |edges|
      ensures edges[k].origin in s.labels && edges[k].destination in s.labels
    {
      var e := edges[k];
      assert Stored(adj, e);
      var j :| 0 <= j < |adj[e.origin]| && adj[e.origin][j] == e;
      assert e.destination in adj;
    }
  }

  /** The labels and parents after the graph's size less one rounds. */
  function FinalState(adj: AdjacencyMap, origin: int): (r: Relaxation)
    requires WellFormed(adj) && origin in adj
    ensures r.labels.Keys == adj.Keys && r.parents.Keys == adj.Keys
    ensures Labelled(r, Edges(adj))
  {
    var start := Relaxation(InitialLabels(adj, origin), NoParents(adj));
    EdgesLabelled(adj, start);
    Rounds(start, Edges(adj), |adj| - 1)
  }

  /** Some edge of the list is tense. */
  predicate HasTenseEdge(labels: map<int, ExtInt>, edges: seq<UndirectedEdge>)
    requires forall k :: 0 <= k < |edges| ==> edges[k].origin in labels && edges[k].destination in labels
  {
    exists k :: 0 <= k < |edges| && Tense(labels, edges[k])
  }

  /** A round never raises a label. */
  lemma {:induction false} RoundNeverRaises(s: Relaxation, edges: seq<UndirectedEdge>)
    requires Labelled(s, edges)
    ensures forall v :: v in s.labels ==> LessEq(Round(s, edges).labels[v], s.labels[v])
    decreases |edges|
  {
    if edges != [] {
      var init := edges[..|edges| - 1];
      assert forall k :: 0 <= k < |init| ==> init[k] == edges[k];
      RoundNeverRaises(s, init);
      forall v | v in s.labels
        ensures LessEq(Round(s, edges).labels[v], s.labels[v])
      {
        OrderFacts(Round(s, edges).labels[v], Round(s, init).labels[v], s.labels[v]);
      }
    }
  }

  /**
   * The negative-cycle check fails exactly when one more round would still
   * lower some label: with no tense edge a round changes nothing, and a tense
   * edge makes a round lower a label strictly.
   */
  lemma {:induction false} RoundFixedIff(s: Relaxation, edges: seq<UndirectedEdge>)
    requires Labelled(s, edges)
    ensures !HasTenseEdge(s.labels, edges) ==> Round(s, edges) == s
    ensures HasTenseEdge(s.labels, edges) ==> exists v :: v in s.labels && Less(Round(s, edges).labels[v], s.labels[v])
    decreases |edges|
  {
    if edges != [] {
      var init := edges[..|edges| - 1];
      var last := edges[|edges| - 1];
      assert forall k :: 0 <= k < |init| ==> init[k] == edges[k];
      RoundFixedIff(s, init);
      var before := Round(s, init);
      var after := Round(s, edges);
      assert after == Relax(before, last);
      if HasTenseEdge(s.labels, init) {
        var k :| 0 <= k < |init| && Tense(s.labels, init[k]);
        assert Tense(s.labels, edges[k]);
        var v :| v in s.labels && Less(before.labels[v], s.labels[v]);
        OrderFacts(after.labels[v], before.labels[v], s.labels[v]);
        assert Less(after.labels[v], s.labels[v]);
      } else if Tense(s.labels, last) {
        assert before == s;
        var v := last.destination;
        assert Tense(s.labels, edges[|edges| - 1]);
        OrderFacts(after.labels[v], s.labels[v], s.labels[v]);
        assert Less(after.labels[v], s.labels[v]);
      } else {
        assert before == s;
        assert after == s;
        assert !HasTenseEdge(s.labels, edges) by {
          forall k | 0 <= k < |edges|
            ensures !Tense(s.labels, edges[k])
          {
            if k < |init| {
              assert edges[k] == init[k];
            }
          }
        }
      }
    }
  }

  /** Relaxing an edge stored in the graph keeps the labels sound. */
  lemma RelaxKeepsSound(adj: AdjacencyMap, origin: int, s: Relaxation, e: UndirectedEdge)
    requires WellFormed(adj) && LabelsSound(adj, origin, s.labels, s.parents) && Stored(adj, e)
    ensures e.destination in adj
    ensures LabelsSound(adj, origin, Relax(s, e).labels, Relax(s, e).parents)
  {
    var k :| 0 <= k < |adj[e.origin]| && adj[e.origin][k] == e;
    if Tense(s.labels, e) {
      assert Linked(adj, e.origin, e.destination);
      ImproveKeepsSound(adj, origin, s.labels, s.parents, e.origin, e.destination, Add(s.labels[e.origin], e.weight));
    }
  }

  lemma {:induction false} RoundKeepsSound(adj: AdjacencyMap, origin: int, s: Relaxation, edges: seq<UndirectedEdge>)
    requires WellFormed(adj) && LabelsSound(adj, origin, s.labels, s.parents)
    requires forall k :: 0 <= k < |edges| ==> Stored(adj, edges[k])
    requires Labelled(s, edges)
    ensures LabelsSound(adj, origin, Round(s, edges).labels, Round(s, edges).parents)
    decreases |edges|
  {
    if edges != [] {
      var init := edges[..|edges| - 1];
      assert forall k :: 0 <= k < |init| ==> init[k] == edges[k];
      RoundKeepsSound(adj, origin, s, init);
      RelaxKeepsSound(adj, origin, Round(s, init), edges[|edges| - 1]);
    }
  }

  lemma {:induction false} RoundsKeepSound(adj: AdjacencyMap, origin: int, s: Relaxation, edges: seq<UndirectedEdge>, n: nat)
    requires WellFormed(adj) && LabelsSound(adj, origin, s.labels, s.parents)
    requires forall k :: 0 <= k < |edges| ==> Stored(adj, edges[k])
    requires Labelled(s, edges)
    ensures LabelsSound(adj, origin, Rounds(s, edges, n).labels, Rounds(s, edges, n).parents)
  {
    if n > 0 {
      var previous := Rounds(s, edges, n - 1);
      RoundsKeepSound(adj, origin, s, edges, n - 1);
      RoundsNext(s, edges, n - 1);
      RoundKeepsSound(adj, origin, previous, edges);
      SoundTransfer(adj, origin, Round(previous, edges), Rounds(s, edges, n));
    }
  }

  /** Soundness carries over to an equal relaxation state. */
  lemma SoundTransfer(adj: AdjacencyMap, origin: int, a: Relaxation, b: Relaxation)
    requires a == b && LabelsSound(adj, origin, a.labels, a.parents)
    ensures LabelsSound(adj, origin, b.labels, b.parents)
  {
  }

  /**
   * After the rounds, a finite label belongs to a vertex reachable from the
   * origin, and the parents lead along edges to vertices with finite labels.
   */
  lemma FinalStateSound(adj: AdjacencyMap, origin: int)
    requires WellFormed(adj) && origin in adj
    ensures LabelsSound(adj, origin, FinalState(adj, origin).labels, FinalState(adj, origin).parents)
  {
    var start := Relaxation(InitialLabels(adj, origin), NoParents(adj));
    var edges := Edges(adj);
    InitiallySound(adj, origin);
    EdgesAreStored(adj);
    assert forall k :: 0 <= k < |edges| ==> Stored(adj, edges[k]);
    EdgesLabelled(adj, start);
    var final := Rounds(start, edges, |adj| - 1);
    RoundsKeepSound(adj, origin, start, edges, |adj| - 1);
    assert FinalState(adj, origin) == final;
  }

  /**
   * The parent edges of the relaxation, with a ghost time of the last
   * improvement of each label: a parent's label plus the parent edge's weight
   * is at most the child's label, and when the two are equal the parent's
   * label was last improved before the child's.  Every parent edge is one of
   * the relaxed edges.
   */
  ghost predicate TimedParents(adj: AdjacencyMap, edges: seq<UndirectedEdge>,
                               labels: map<int, ExtInt>, parents: map<int, Option<int>>,
                               via: map<int, UndirectedEdge>, time: map<int, nat>, counter: nat)
    requires labels.Keys == adj.Keys && parents.Keys == adj.Keys
  {
    time.Keys == adj.Keys && (forall v :: v in time ==> time[v] < counter) &&
    forall v {:trigger parents[v]} :: v in adj && parents[v].Some? ==>
      v in via && via[v] in edges && via[v].origin == parents[v].value && via[v].destination == v &&
      parents[v].value in adj &&
      LessEq(Add(labels[parents[v].value], via[v].weight), labels[v]) &&
      (labels[v] == Add(labels[parents[v].value], via[v].weight) ==> time[parents[v].value] < time[v])
  }

  /** Improving the label of `e`'s destination at time `counter` keeps the parent edges timed. */
  lemma TimedImprove(adj: AdjacencyMap, edges: seq<UndirectedEdge>,
                     labels: map<int, ExtInt>, parents: map<int, Option<int>>,
                     via: map<int, UndirectedEdge>, time: map<int, nat>, counter: nat, e: UndirectedEdge)
    requires labels.Keys == adj.Keys && parents.Keys == adj.Keys
    requires TimedParents(adj, edges, labels, parents, via, time, counter)
    requires e in edges && e.origin in adj && e.destination in adj
    requires Less(Add(labels[e.origin], e.weight), labels[e.destination])
    ensures TimedParents(adj, edges, labels[e.destination := Add(labels[e.origin], e.weight)],
                         parents[e.destination := Some(e.origin)], via[e.destination := e],
                         time[e.destination := counter], counter + 1)
  {
    var t := e.destination;
    var labels', parents' := labels[t := Add(labels[e.origin], e.weight)], parents[t := Some(e.origin)];
    var via', time' := via[t := e], time[t := counter];
    forall v | v in adj && parents'[v].Some?
      ensures v in via' && via'[v] in edges && via'[v].origin == parents'[v].value && via'[v].destination == v &&
              parents'[v].value in adj &&
              LessEq(Add(labels'[parents'[v].value], via'[v].weight), labels'[v]) &&
              (labels'[v] == Add(labels'[parents'[v].value], via'[v].weight) ==> time'[parents'[v].value] < time'[v])
    {
      if v != t {
        var p := parents[v].value;
        if p == t {
          OrderFacts(Add(labels'[t], via[v].weight), Add(labels[t], via[v].weight), labels[v]);
        }
      }
    }
  }

  /** One relaxation step that also keeps the ghost parent edges and times. */
  method RelaxTimed(adj: AdjacencyMap, origin: int, edges: seq<UndirectedEdge>, s: Relaxation,
                    ghost via: map<int, UndirectedEdge>, ghost time: map<int, nat>, ghost counter: nat,
                    e: UndirectedEdge)
    returns (s': Relaxation, ghost via': map<int, UndirectedEdge>, ghost time': map<int, nat>, ghost counter': nat)
    requires WellFormed(adj) && LabelsSound(adj, origin, s.labels, s.parents)
    requires TimedParents(adj, edges, s.labels, s.parents, via, time, counter)
    requires e in edges && Stored(adj, e)
    ensures s' == Relax(s, e)
    ensures LabelsSound(adj, origin, s'.labels, s'.parents)
    ensures TimedParents(adj, edges, s'.labels, s'.parents, via', time', counter')
  {
    RelaxKeepsSound(adj, origin, s, e);
    var distance := Add(s.labels[e.origin], e.weight);
    if Less(distance, s.labels[e.destination]) {
      TimedImprove(adj, edges, s.labels, s.parents, via, time, counter, e);
      s' := Relaxation(s.labels[e.destination := distance], s.parents[e.destination := Some(e.origin)]);
      via', time', counter' := via[e.destination := e], time[e.destination := counter], counter + 1;
    } else {
      s', via', time', counter' := s, via, time, counter;
    }
  }

  /** One round over the edge list, as `Round` specifies it. */
  method RelaxRound(adj: AdjacencyMap, origin: int, edges: seq<UndirectedEdge>, s: Relaxation,
                    ghost via: map<int, UndirectedEdge>, ghost time: map<int, nat>, ghost counter: nat)
    returns (s': Relaxation, ghost via': map<int, UndirectedEdge>, ghost time': map<int, nat>, ghost counter': nat)
    requires WellFormed(adj) && LabelsSound(adj, origin, s.labels, s.parents)
    requires TimedParents(adj, edges, s.labels, s.parents, via, time, counter)
    requires forall k :: 0 <= k < |edges| ==> Stored(adj, edges[k])
    requires Labelled(s, edges)
    ensures s' == Round(s, edges)
    ensures LabelsSound(adj, origin, s'.labels, s'.parents)
    ensures TimedParents(adj, edges, s'.labels, s'.parents, via', time', counter')
  {
    s', via', time', counter' := s, via, time, counter;
    var j := 0;
    while j < |edges|
      invariant 0 <= j <= |edges|
      invariant Labelled(s, edges[..j])
      invariant s' == Round(s, edges[..j])
      invariant LabelsSound(adj, origin, s'.labels, s'.parents)
      invariant TimedParents(adj, edges, s'.labels, s'.parents, via', time', counter')
    {
      RoundStep(s, edges, j);
      s', via', time', counter' := RelaxTimed(adj, origin, edges, s', via', time', counter', edges[j]);
      j := j + 1;
    }
    assert edges[..|edges|] == edges;
  }

  lemma RoundStep(s: Relaxation, edges: seq<UndirectedEdge>, j: nat)
    requires Labelled(s, edges) && j < |edges|
    ensures Labelled(s, edges[..j]) && Labelled(s, edges[..j + 1])
    ensures Round(s, edges[..j + 1]) == Relax(Round(s, edges[..j]), edges[j])
  {
    assert edges[..j + 1][..j] == edges[..j];
    assert edges[..j + 1][j] == edges[j];
  }

  /**
   * `n` rounds from the initial labels; `history` records the state before
   * the first round and after each one, so its last entry, `s`, is the
   * state after `n` rounds (`HistoryIsRounds`).
   */
  method RunRounds(adj: AdjacencyMap, origin: int, edges: seq<UndirectedEdge>, n: nat)
    returns (s: Relaxation, ghost history: seq<Relaxation>,
             ghost via: map<int, UndirectedEdge>, ghost time: map<int, nat>, ghost counter: nat)
    requires WellFormed(adj) && origin in adj
    requires forall k :: 0 <= k < |edges| ==> Stored(adj, edges[k])
    requires Labelled(Relaxation(InitialLabels(adj, origin), NoParents(adj)), edges)
    ensures RoundHistory(Relaxation(InitialLabels(adj, origin), NoParents(adj)), edges, history)
    ensures |history| == n + 1 && s == history[n]
    ensures LabelsSound(adj, origin, s.labels, s.parents)
    ensures TimedParents(adj, edges, s.labels, s.parents, via, time, counter)
  {
    ghost var start := Relaxation(InitialLabels(adj, origin), NoParents(adj));
    s := Relaxation(InitialLabels(adj, origin), NoParents(adj));
    InitiallySound(adj, origin);
    via, time, counter := map[], map v | v in adj :: 0, 1;
    var i := 0;
    while i < n
      invariant 0 <= i <= n
      invariant s == Rounds(start, edges, i)
      invariant LabelsSound(adj, origin, s.labels, s.parents)
      invariant TimedParents(adj, edges, s.labels, s.parents, via, time, counter)
    {
      RoundsNext(start, edges, i);
      s, via, time, counter := RelaxRound(adj, origin, edges, s, via, time, counter);
      i := i + 1;
    }
    history := RecordRounds(start, edges, n);
  }


  /**
   * With no tense edge, every parent edge is tight, so each parent's label
   * was last improved before its child's: the parents form no cycle.
   */
  lemma CalmParentsOrdered(adj: AdjacencyMap, edges: seq<UndirectedEdge>,
                           labels: map<int, ExtInt>, parents: map<int, Option<int>>,
                           via: map<int, UndirectedEdge>, time: map<int, nat>, counter: nat)
    requires labels.Keys == adj.Keys && parents.Keys == adj.Keys
    requires TimedParents(adj, edges, labels, parents, via, time, counter)
    requires forall k :: 0 <= k < |edges| ==> edges[k].origin in labels && edges[k].destination in labels
    requires !HasTenseEdge(labels, edges)
    ensures forall v {:trigger parents[v]} :: v in adj && parents[v].Some? ==> time[parents[v].value] < time[v]
  {
    forall v | v in adj && parents[v].Some?
      ensures time[parents[v].value] < time[v]
    {
      var k :| 0 <= k < |edges| && edges[k] == via[v];
      assert !Tense(labels, edges[k]);
      OrderFacts(labels[v], Add(labels[parents[v].value], via[v].weight), labels[v]);
    }
  }

  /**
   * Bellman-Ford from `origin` to `destination`: the graph's size less one
   * rounds over the edge list, then the negative-cycle check, then the
   * parent path.  A missing origin is reported first, a tense edge after the
   * rounds next, a missing destination last.  The path ends at the
   * destination, each step follows an edge, and it starts at the origin
   * exactly when the destination's final label is finite.
   */
  method BellmanFord(adj: AdjacencyMap, origin: int, destination: int) returns (r: Result<seq<int>, GraphError>)
    requires WellFormed(adj)
    ensures origin !in adj ==> r == Err(VertexNotFound(origin))
    ensures origin in adj ==>
              var final := FinalState(adj, origin);
              (r == Err(NegativeWeightCycle) <==> HasTenseEdge(final.labels, Edges(adj))) &&
              (!HasTenseEdge(final.labels, Edges(adj)) && destination !in adj ==>
                 r == Err(VertexNotFound(destination))) &&
              (!HasTenseEdge(final.labels, Edges(adj)) && destination in adj ==>
                 r.Ok? && EndsAt(adj, r.value, destination) &&
                 (r.value[0] == origin <==> final.labels[destination].Fin?) &&
                 (final.labels[destination].Inf? ==> r.value == [destination]))
  {
    if origin !in adj {
      return Err(VertexNotFound(origin));
    }
    var edges := Edges(adj);
    EdgesAreStored(adj);
    var start := Relaxation(InitialLabels(adj, origin), NoParents(adj));
    EdgesLabelled(adj, start);
    var s: Relaxation;
    ghost var history: seq<Relaxation>;
    r, s, history := RoundsThenCheck(adj, origin, destination, edges);
    HistoryIsRounds(start, edges, history, |adj| - 1);
    assert s == FinalState(adj, origin);
  }

  /**
   * The rounds over `edges` followed by the negative-cycle check and the
   * parent path; `s` is the relaxation the rounds end in, the last entry of
   * the round `history`.
   */
  method RoundsThenCheck(adj: AdjacencyMap, origin: int, destination: int, edges: seq<UndirectedEdge>)
    returns (r: Result<seq<int>, GraphError>, s: Relaxation, ghost history: seq<Relaxation>)
    requires WellFormed(adj) && origin in adj
    requires forall x :: x in edges ==> Stored(adj, x)
    requires Labelled(Relaxation(InitialLabels(adj, origin), NoParents(adj)), edges)
    ensures RoundHistory(Relaxation(InitialLabels(adj, origin), NoParents(adj)), edges, history)
    ensures |history| == |adj| && s == history[|adj| - 1]
    ensures s.labels.Keys == adj.Keys
    ensures CheckOutcome(adj, origin, destination, edges, s.labels, r)
  {
    assert forall k :: 0 <= k < |edges| ==> Stored(adj, edges[k]);
    ghost var via: map<int, UndirectedEdge>, time: map<int, nat>, counter: nat;
    s, history, via, time, counter := RunRounds(adj, origin, edges, |adj| - 1);
    r := CheckAndTrace(adj, origin, destination, edges, s, via, time, counter);
  }

  /**
   * What the end of Bellman-Ford promises about its result `r` given the
   * final `labels`: the outcome of the check on the labels, and, when every
   * stored direction was relaxed, what that outcome says about the graph.
   */
  ghost predicate CheckOutcome(adj: AdjacencyMap, origin: int, destination: int, edges: seq<UndirectedEdge>,
                               labels: map<int, ExtInt>, r: Result<seq<int>, GraphError>)
    requires labels.Keys == adj.Keys
    requires forall k :: 0 <= k < |edges| ==> edges[k].origin in labels && edges[k].destination in labels
  {
    LabelOutcome(adj, origin, destination, edges, labels, r) && GraphOutcome(adj, origin, destination, edges, r)
  }

  /**
   * The negative-cycle error exactly when an edge is still tense; otherwise
   * a missing destination is reported, or a path that ends at the
   * destination and starts at the origin exactly when the destination's
   * label is finite.
   */
  ghost predicate LabelOutcome(adj: AdjacencyMap, origin: int, destination: int, edges: seq<UndirectedEdge>,
                               labels: map<int, ExtInt>, r: Result<seq<int>, GraphError>)
    requires labels.Keys == adj.Keys
    requires forall k :: 0 <= k < |edges| ==> edges[k].origin in labels && edges[k].destination in labels
  {
    (r == Err(NegativeWeightCycle) <==> HasTenseEdge(labels, edges)) &&
    (!HasTenseEdge(labels, edges) && destination !in adj ==> r == Err(VertexNotFound(destination))) &&
    (!HasTenseEdge(labels, edges) && destination in adj ==>
      r.Ok? && EndsAt(adj, r.value, destination) &&
      (r.value[0] == origin <==> labels[destination].Fin?) &&
      (labels[destination].Inf? ==> r.value == [destination]))
  }

  /**
   * When every stored direction was relaxed, a success means no negative
   * closed walk is reachable from the origin, and the path to a reachable
   * destination is a shortest walk.
   */
  ghost predicate GraphOutcome(adj: AdjacencyMap, origin: int, destination: int, edges: seq<UndirectedEdge>,
                               r: Result<seq<int>, GraphError>)
  {
    (AllDirections(adj, edges) && r != Err(NegativeWeightCycle) ==> NoNegativeCycleFrom(adj, origin)) &&
    (AllDirections(adj, edges) && r != Err(NegativeWeightCycle) && destination in adj ==>
      r.Ok? && EndsAt(adj, r.value, destination) &&
      (r.value[0] == origin <==> Reachable(adj, origin, destination)) &&
      (!Reachable(adj, origin, destination) ==> r.value == [destination]) &&
      (Reachable(adj, origin, destination) ==>
         exists es :: ShortestWalk(adj, origin, destination, es) && Trace(origin, es) == r.value))
  }


  /**
   * The end of Bellman-Ford once the rounds are done: an edge that is still
   * tense means a negative-weight cycle; otherwise the path to `destination`
   * is read off the parents.
   */
  method CheckAndTrace(adj: AdjacencyMap, origin: int, destination: int, edges: seq<UndirectedEdge>, s: Relaxation,
                       ghost via: map<int, UndirectedEdge>, ghost time: map<int, nat>, ghost counter: nat)
    returns (r: Result<seq<int>, GraphError>)
    requires WellFormed(adj) && Labelled(s, edges)
    requires forall k :: 0 <= k < |edges| ==> Stored(adj, edges[k])
    requires LabelsSound(adj, origin, s.labels, s.parents)
    requires TimedParents(adj, edges, s.labels, s.parents, via, time, counter)
    ensures CheckOutcome(adj, origin, destination, edges, s.labels, r)
  {
    var labels, parents := s.labels, s.parents;
    if forall k :: 0 <= k < |edges| ==> !Tense(labels, edges[k]) {
      if AllDirections(adj, edges) {
        CalmWhenNoTense(adj, edges, labels);
        CalmNoNegativeCycle(adj, origin, labels);
      }
      if destination !in adj {
        return Err(VertexNotFound(destination));
      }
      CalmParentsOrdered(adj, edges, labels, parents, via, time, counter);
      var path := FollowParents(adj, origin, destination, labels, parents, time);
      if AllDirections(adj, edges) {
        CalmParentsTight(adj, edges, labels, parents, via, time, counter);
        assert SettledClosed(adj, adj.Keys, labels);
        FiniteExactlyReachable(adj, origin, labels, parents);
        if Reachable(adj, origin, destination) {
          ParentChainIsShortest(adj, labels, parents, via, path);
        }
      }
      return Ok(path);
    } else {
      return Err(NegativeWeightCycle);
    }
  }

  /*
   * Relaxing every stored direction.  The edge list above holds one
   * direction of each undirected edge, so the rounds never relax an edge
   * from its destination back to its origin.  The lemmas below show what
   * that misses, and the variant after them relaxes both directions.
   */

  /** Every stored edge, in either direction, is in the list. */
  ghost predicate AllDirections(adj: AdjacencyMap, edges: seq<UndirectedEdge>)
  {
    forall x :: Stored(adj, x) ==> x in edges
  }

  /** No closed walk through a vertex that a walk from `origin` reaches has negative weight. */
  ghost predicate NoNegativeCycleFrom(adj: AdjacencyMap, origin: int)
  {
    forall v, p, c :: IsWalk(adj, origin, v, p) && IsWalk(adj, v, v, c) ==> Weight(c) >= 0
  }

  /** When no edge of a list holding every stored direction is tense, the labels are calm. */
  lemma CalmWhenNoTense(adj: AdjacencyMap, edges: seq<UndirectedEdge>, labels: map<int, ExtInt>)
    requires WellFormed(adj) && labels.Keys == adj.Keys
    requires forall k :: 0 <= k < |edges| ==> edges[k].origin in labels && edges[k].destination in labels
    requires AllDirections(adj, edges) && !HasTenseEdge(labels, edges)
    ensures Calm(adj, labels)
  {
    forall v, k | v in adj && 0 <= k < |adj[v]|
      ensures LessEq(labels[adj[v][k].destination], Add(labels[v], adj[v][k].weight))
    {
      var e := adj[v][k];
      assert Stored(adj, e);
      var j :| 0 <= j < |edges| && edges[j] == e;
      assert !Tense(labels, edges[j]);
    }
  }

  /** Calm labels with a finite label at the origin rule out a negative closed walk reachable from it. */
  lemma CalmNoNegativeCycle(adj: AdjacencyMap, origin: int, labels: map<int, ExtInt>)
    requires WellFormed(adj) && labels.Keys == adj.Keys && Calm(adj, labels)
    requires origin in adj && labels[origin].Fin?
    ensures NoNegativeCycleFrom(adj, origin)
  {
    forall v, p, c | IsWalk(adj, origin, v, p) && IsWalk(adj, v, v, c)
      ensures Weight(c) >= 0
    {
      CalmBound(adj, labels, origin, v, p);
      CalmBound(adj, labels, v, v, c);
    }
  }

  /** With calm labels, every timed parent edge over stored edges is tight. */
  lemma CalmParentsTight(adj: AdjacencyMap, edges: seq<UndirectedEdge>,
                         labels: map<int, ExtInt>, parents: map<int, Option<int>>,
                         via: map<int, UndirectedEdge>, time: map<int, nat>, counter: nat)
    requires WellFormed(adj) && labels.Keys == adj.Keys && parents.Keys == adj.Keys
    requires forall k :: 0 <= k < |edges| ==> Stored(adj, edges[k])
    requires TimedParents(adj, edges, labels, parents, via, time, counter) && Calm(adj, labels)
    ensures ParentEdges(adj, labels, parents, via)
  {
    forall v | v in adj && parents[v].Some?
      ensures v in via && parents[v].value in adj && via[v] in adj[parents[v].value] && via[v].destination == v &&
              labels[v] == Add(labels[parents[v].value], via[v].weight)
    {
      var p, e := parents[v].value, via[v];
      var j :| 0 <= j < |edges| && edges[j] == e;
      assert Stored(adj, edges[j]);
      var k :| 0 <= k < |adj[p]| && adj[p][k] == e;
      assert LessEq(labels[v], Add(labels[p], e.weight));
    }
  }

  /** The stored edges of the given vertices, vertex after vertex, each vertex's edges in stored order. */
  function Incidences(adj: AdjacencyMap, values: seq<int>): (r: seq<UndirectedEdge>)
    requires forall i :: 0 <= i < |values| ==> values[i] in adj
    ensures forall x :: x in r <==> exists i :: 0 <= i < |values| && x in adj[values[i]]
    decreases |values|
  {
    if values == [] then []
    else
      var later := values[1..];
      var rest := Incidences(adj, later);
      assert forall i :: 0 <= i < |later| ==> later[i] == values[i + 1];
      adj[values[0]] + rest
  }

  /** Every stored edge in both directions, the vertices taken in ascending order of value. */
  function AllIncidences(adj: AdjacencyMap): (r: seq<UndirectedEdge>)
    requires WellFormed(adj)
    ensures AllDirections(adj, r) && forall x :: x in r ==> Stored(adj, x)
  {
    var values := SortedValues(adj.Keys);
    var r := Incidences(adj, values);
    forall x | Stored(adj, x)
      ensures x in r
    {
      var i :| 0 <= i < |values| && values[i] == x.origin;
    }
    r
  }

  /** The labels and parents after the graph's size less one rounds over both directions of every edge. */
  function FinalStateAllDirections(adj: AdjacencyMap, origin: int): (r: Relaxation)
    requires WellFormed(adj) && origin in adj
    ensures r.labels.Keys == adj.Keys && r.parents.Keys == adj.Keys
    ensures Labelled(r, AllIncidences(adj))
  {
    var start := Relaxation(InitialLabels(adj, origin), NoParents(adj));
    StoredLabelled(adj, start, AllIncidences(adj));
    Rounds(start, AllIncidences(adj), |adj| - 1)
  }

  /**
   * Bellman-Ford relaxing both directions of every edge.  The outcome is
   * decided as in `BellmanFord`; in addition, a success means no negative
   * closed walk is reachable from the origin, a reachable negative closed
   * walk always gives the negative-cycle error, and the path returned to a
   * reachable destination is a shortest walk.
   */
  method BellmanFordAllDirections(adj: AdjacencyMap, origin: int, destination: int)
    returns (r: Result<seq<int>, GraphError>)
    requires WellFormed(adj)
    ensures origin !in adj ==> r == Err(VertexNotFound(origin))
    ensures origin in adj ==>
              var final := FinalStateAllDirections(adj, origin);
              (r == Err(NegativeWeightCycle) <==> HasTenseEdge(final.labels, AllIncidences(adj))) &&
              (!HasTenseEdge(final.labels, AllIncidences(adj)) && destination !in adj ==>
                 r == Err(VertexNotFound(destination)))
    ensures origin in adj && !NoNegativeCycleFrom(adj, origin) ==> r == Err(NegativeWeightCycle)
    ensures origin in adj && destination in adj && r != Err(NegativeWeightCycle) ==>
              r.Ok? && EndsAt(adj, r.value, destination) &&
              (r.value[0] == origin <==> Reachable(adj, origin, destination)) &&
              (!Reachable(adj, origin, destination) ==> r.value == [destination]) &&
              (Reachable(adj, origin, destination) ==>
                 exists es :: ShortestWalk(adj, origin, destination, es) && Trace(origin, es) == r.value)
  {
    if origin !in adj {
      return Err(VertexNotFound(origin));
    }
    var edges := AllIncidences(adj);
    var start := Relaxation(InitialLabels(adj, origin), NoParents(adj));
    StoredLabelled(adj, start, edges);
    var s: Relaxation;
    ghost var history: seq<Relaxation>;
    r, s, history := RoundsThenCheck(adj, origin, destination, edges);
    HistoryIsRounds(start, edges, history, |adj| - 1);
    assert s == FinalStateAllDirections(adj, origin);
  }

  /*
   * Two vertices 1 and 2 joined by one edge: the smallest graphs on which
   * relaxing one direction only goes wrong.
   */

  ghost predicate TwoVertexGraph(t: AdjacencyMap, w: int)
  {
    t.Keys == {1, 2} && t[1] == [UndirectedEdge(1, 2, w)] && t[2] == [UndirectedEdge(2, 1, w)]
  }

  /** The edge list of the two-vertex graph holds its edge once, from 1 to 2. */
  lemma TwoVertexEdges(t: AdjacencyMap, w: int)
    requires TwoVertexGraph(t, w)
    ensures WellFormed(t) && |t| == 2 && Edges(t) == [UndirectedEdge(1, 2, w)]
  {
    TwoVertexSorted(t, w);
    OneEdgeUnion(w);
    assert [1, 2][1..] == [2] && [2][1..] == [];
    assert Edges(t) == UnionOver(t, [2], UnionInto([], t[1]));
  }

  /** The union of the edge from 1 to 2 and its reverse holds the first only. */
  lemma OneEdgeUnion(w: int)
    ensures UnionInto(UnionInto([], [UndirectedEdge(1, 2, w)]), [UndirectedEdge(2, 1, w)]) == [UndirectedEdge(1, 2, w)]
  {
    var e12, e21 := UndirectedEdge(1, 2, w), UndirectedEdge(2, 1, w);
    UnionIntoAppends([], e12, []);
    assert [e12] + [] == [e12] && [] + [e12] == [e12] && [e21] + [] == [e21];
    assert UnionInto([], [e12]) == [e12];
    assert EdgeEquals([e12][0], e21);
    UnionIntoSkips([e12], e21, []);
  }

  /** The two-vertex graph is well formed, and its vertices in ascending order are 1 and 2. */
  lemma TwoVertexSorted(t: AdjacencyMap, w: int)
    requires TwoVertexGraph(t, w)
    ensures WellFormed(t) && |t| == 2 && SortedValues(t.Keys) == [1, 2]
  {
    var values := SortedValues(t.Keys);
    assert values[0] in t.Keys && values[1] in t.Keys && 1 in values && 2 in values;
    assert |t.Keys| == 2;
  }

  /** Both directions of the edge, 1 to 2 first. */
  lemma TwoVertexIncidences(t: AdjacencyMap, w: int)
    requires TwoVertexGraph(t, w)
    ensures WellFormed(t) && AllIncidences(t) == [UndirectedEdge(1, 2, w), UndirectedEdge(2, 1, w)]
  {
    TwoVertexSorted(t, w);
    assert [1, 2][1..] == [2] && [2][1..] == [];
    assert Incidences(t, [2]) == [UndirectedEdge(2, 1, w)];
  }

  /** One round over a one-edge list relaxes that edge. */
  lemma RoundOfOne(s: Relaxation, a: UndirectedEdge)
    requires Labelled(s, [a])
    ensures Rounds(s, [a], 1) == Relax(s, a)
  {
    assert [a][..0] == [];
    assert Rounds(s, [a], 0) == s && Round(s, []) == s;
  }

  /** One round over a two-edge list relaxes the first edge, then the second. */
  lemma RoundOfTwo(s: Relaxation, a: UndirectedEdge, b: UndirectedEdge)
    requires Labelled(s, [a, b])
    ensures Labelled(s, [a]) && Rounds(s, [a, b], 1) == Relax(Round(s, [a]), b)
  {
    assert [a, b][..1] == [a];
  }

  /**
   * Bellman-Ford from 2 over the edge 1-2 of weight 5: the list holds the
   * edge only from 1 to 2, so vertex 1 keeps an infinite label although it
   * is a neighbour of the origin, and no edge is left tense.
   */
  lemma ReverseDirectionNeverRelaxed(t: AdjacencyMap)
    requires TwoVertexGraph(t, 5)
    ensures WellFormed(t) && Reachable(t, 2, 1)
    ensures FinalState(t, 2).labels[1] == Inf && !HasTenseEdge(FinalState(t, 2).labels, Edges(t))
  {
    var labels := OneRoundLabels(t, 5, 2);
    OneEdgeCalm(labels, Edges(t), UndirectedEdge(1, 2, 5));
    TwoVertexLinked(t, 5);
  }

  /** A list of one edge that is not tense has no tense edge. */
  lemma OneEdgeCalm(labels: map<int, ExtInt>, edges: seq<UndirectedEdge>, e: UndirectedEdge)
    requires edges == [e] && e.origin in labels && e.destination in labels && !Tense(labels, e)
    ensures !HasTenseEdge(labels, edges)
  {
    assert forall k :: 0 <= k < |edges| ==> edges[k] == e;
  }

  /**
   * After the rounds on the two-vertex graph the edge list is the edge from
   * 1 to 2, relaxed once from the initial labels: vertex 2 gets the weight
   * when the origin is 1, and nothing changes when the origin is 2.
   */
  lemma OneRoundLabels(t: AdjacencyMap, w: int, origin: int) returns (labels: map<int, ExtInt>)
    requires TwoVertexGraph(t, w) && origin in t
    ensures WellFormed(t) && Edges(t) == [UndirectedEdge(1, 2, w)]
    ensures labels == FinalState(t, origin).labels
    ensures origin == 1 ==> labels[1] == Fin(0) && labels[2] == Fin(w)
    ensures origin == 2 ==> labels[1] == Inf && labels[2] == Fin(0)
  {
    var final := OneRoundFinal(t, w, origin);
    labels := final.labels;
    RelaxFromInitial(t, w, origin);
  }

  /** After the rounds on the two-vertex graph, the state is one relaxation of the edge from 1 to 2. */
  lemma OneRoundFinal(t: AdjacencyMap, w: int, origin: int) returns (final: Relaxation)
    requires TwoVertexGraph(t, w) && origin in t
    ensures WellFormed(t) && Edges(t) == [UndirectedEdge(1, 2, w)]
    ensures final == FinalState(t, origin)
    ensures final == Relax(Relaxation(InitialLabels(t, origin), NoParents(t)), UndirectedEdge(1, 2, w))
  {
    TwoVertexEdges(t, w);
    var start := Relaxation(InitialLabels(t, origin), NoParents(t));
    EdgesLabelled(t, start);
    RoundOfOne(start, UndirectedEdge(1, 2, w));
    final := FinalState(t, origin);
  }

  /** Relaxing the edge from 1 to 2 once from the initial labels of the two-vertex graph. */
  lemma RelaxFromInitial(t: AdjacencyMap, w: int, origin: int)
    requires TwoVertexGraph(t, w) && origin in t
    ensures var r := Relax(Relaxation(InitialLabels(t, origin), NoParents(t)), UndirectedEdge(1, 2, w));
            (origin == 1 ==> r.labels[1] == Fin(0) && r.labels[2] == Fin(w)) &&
            (origin == 2 ==> r.labels[1] == Inf && r.labels[2] == Fin(0))
  {
    var labels := InitialLabels(t, origin);
    assert origin == 1 ==> labels[2] == Inf;
    assert origin == 2 ==> labels[1] == Inf;
  }

  /** Each vertex of the two-vertex graph reaches the other. */
  lemma TwoVertexLinked(t: AdjacencyMap, w: int)
    requires TwoVertexGraph(t, w)
    ensures Reachable(t, 1, 2) && Reachable(t, 2, 1)
  {
    assert t[1][0].destination == 2 && t[2][0].destination == 1;
    assert Linked(t, 1, 2) && Linked(t, 2, 1);
    var there, back := [1, 2], [2, 1];
    assert IsPath(t, there) && there[0] == 1 && there[|there| - 1] == 2;
    assert IsPath(t, back) && back[0] == 2 && back[|back| - 1] == 1;
  }

  /** The graph method on that graph answers with the one-vertex path: no path from 2 to 1. */
  method ReverseDirectionExample(t: AdjacencyMap) returns (r: Result<seq<int>, GraphError>)
    requires TwoVertexGraph(t, 5)
    ensures r == Ok([1]) && Reachable(t, 2, 1)
  {
    ReverseDirectionNeverRelaxed(t);
    r := BellmanFord(t, 2, 1);
  }

  /**
   * Bellman-Ford from 1 over the edge 1-2 of weight -1: crossing the edge and
   * back is a closed walk of weight -2, yet after the rounds no edge of the
   * list is tense, so no negative-weight cycle is reported.
   */
  lemma NegativeEdgeNotDetected(t: AdjacencyMap)
    requires TwoVertexGraph(t, -1)
    ensures WellFormed(t) && !HasTenseEdge(FinalState(t, 1).labels, Edges(t))
  {
    var labels := OneRoundLabels(t, -1, 1);
    OneEdgeCalm(labels, Edges(t), UndirectedEdge(1, 2, -1));
  }

  /** Crossing the edge of weight -1 and coming back is a closed walk of weight -2 at the origin. */
  lemma NegativeClosedWalk(t: AdjacencyMap)
    requires TwoVertexGraph(t, -1)
    ensures !NoNegativeCycleFrom(t, 1)
  {
    var e12, e21 := UndirectedEdge(1, 2, -1), UndirectedEdge(2, 1, -1);
    var back := [e21];
    assert back[1..] == [] && IsWalk(t, 1, 1, back[1..]) && Weight(back[1..]) == 0;
    assert IsWalk(t, 2, 1, back) && Weight(back) == -1;
    var cycle := [e12] + back;
    assert cycle[1..] == back;
    assert IsWalk(t, 1, 1, cycle) && Weight(cycle) == -2 && IsWalk(t, 1, 1, []);
  }

  /** The graph method on that graph returns a path instead of reporting the cycle. */
  method NegativeEdgeExample(t: AdjacencyMap) returns (r: Result<seq<int>, GraphError>)
    requires TwoVertexGraph(t, -1)
    ensures r.Ok? && !NoNegativeCycleFrom(t, 1)
  {
    NegativeEdgeNotDetected(t);
    NegativeClosedWalk(t);
    r := BellmanFord(t, 1, 2);
  }

  /** Relaxing both directions, the negative edge is reported as a negative-weight cycle. */
  method NegativeEdgeAllDirectionsExample(t: AdjacencyMap) returns (r: Result<seq<int>, GraphError>)
    requires TwoVertexGraph(t, -1)
    ensures r == Err(NegativeWeightCycle)
  {
    TwoVertexSorted(t, -1);
    NegativeClosedWalk(t);
    r := BellmanFordAllDirections(t, 1, 2);
  }

  /** Relaxing both directions, vertex 1 is found from 2, and the path is a shortest walk. */
  method ReverseDirectionAllDirectionsExample(t: AdjacencyMap) returns (r: Result<seq<int>, GraphError>)
    requires TwoVertexGraph(t, 5)
    ensures r.Ok? && EndsAt(t, r.value, 1) && r.value[0] == 2
    ensures exists es :: ShortestWalk(t, 2, 1, es) && Trace(2, es) == r.value
  {
    ReverseDirectionNeverRelaxed(t);
    ReverseDirectionSettles(t);
    r := BellmanFordAllDirections(t, 2, 1);
  }

  /** On the two-vertex graph of weight 5, one round over both directions from 2 leaves no edge tense. */
  lemma ReverseDirectionSettles(t: AdjacencyMap)
    requires TwoVertexGraph(t, 5)
    ensures WellFormed(t) && !HasTenseEdge(FinalStateAllDirections(t, 2).labels, AllIncidences(t))
  {
    var e12, e21 := UndirectedEdge(1, 2, 5), UndirectedEdge(2, 1, 5);
    var final := BothDirectionsFinal(t, 5, 2);
    RelaxBothFromTwo(t);
    TwoEdgesCalm(final.labels, AllIncidences(t), e12, e21);
  }

  /** After the rounds over both directions on the two-vertex graph, the state is one relaxation of each, 1 to 2 first. */
  lemma BothDirectionsFinal(t: AdjacencyMap, w: int, origin: int) returns (final: Relaxation)
    requires TwoVertexGraph(t, w) && origin in t
    ensures WellFormed(t) && AllIncidences(t) == [UndirectedEdge(1, 2, w), UndirectedEdge(2, 1, w)]
    ensures final == FinalStateAllDirections(t, origin)
    ensures final == Relax(Relax(Relaxation(InitialLabels(t, origin), NoParents(t)), UndirectedEdge(1, 2, w)),
                           UndirectedEdge(2, 1, w))
  {
    TwoVertexSorted(t, w);
    TwoVertexIncidences(t, w);
    var e12, e21 := UndirectedEdge(1, 2, w), UndirectedEdge(2, 1, w);
    var start := Relaxation(InitialLabels(t, origin), NoParents(t));
    StoredLabelled(t, start, AllIncidences(t));
    RoundOfTwo(start, e12, e21);
    RoundOfOne(start, e12);
    assert Rounds(start, [e12], 1) == Round(start, [e12]);
    final := FinalStateAllDirections(t, origin);
  }

  /** From 2 with weight 5, the edge from 1 to 2 changes nothing and the edge from 2 to 1 labels 1 with 5. */
  lemma RelaxBothFromTwo(t: AdjacencyMap)
    requires TwoVertexGraph(t, 5)
    ensures var start := Relaxation(InitialLabels(t, 2), NoParents(t));
            var final := Relax(Relax(start, UndirectedEdge(1, 2, 5)), UndirectedEdge(2, 1, 5));
            final.labels.Keys == {1, 2} && final.labels[1] == Fin(5) && final.labels[2] == Fin(0)
  {
    var start := Relaxation(InitialLabels(t, 2), NoParents(t));
    assert start.labels[1] == Inf && start.labels[2] == Fin(0);
    assert Relax(start, UndirectedEdge(1, 2, 5)) == start;
  }

  /** A list of two edges neither of which is tense has no tense edge. */
  lemma TwoEdgesCalm(labels: map<int, ExtInt>, edges: seq<UndirectedEdge>, a: UndirectedEdge, b: UndirectedEdge)
    requires edges == [a, b] && a.origin in labels && a.destination in labels && b.origin in labels && b.destination in labels
    requires !Tense(labels, a) && !Tense(labels, b)
    ensures !HasTenseEdge(labels, edges)
  {
    assert forall k :: 0 <= k < |edges| ==> edges[k] == a || edges[k] == b;
  }
}
