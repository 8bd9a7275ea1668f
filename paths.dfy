/**
 * The shortest-path predecessor matrix of the original Steiner instance that
 * foreachEdge and foreachNode(id, pred, f) follow.  pred[u][v] is the last edge of
 * a shortest path from u to v, or nullptr; an original edge is a value (its id and
 * its two ends) and the matrix a map from (u, v), a missing pair being nullptr.
 * What makes these walks finite in OGDF is that each predecessor step comes closer
 * to u; the model carries that as a ghost rank that falls along every step.
 */
module ShortestPaths {
  import opened ComponentCopies

  datatype OEdge = OEdge(id: nat, src: ONode, tgt: ONode)

  /** e->opposite(v). */
  function OOpposite(e: OEdge, v: ONode): ONode
  {
    if v == e.src then e.tgt else e.src
  }

  predicate Incident(e: OEdge, v: ONode)
  {
    e.src == v || e.tgt == v
  }

  type PredMatrix = map<(ONode, ONode), OEdge>

  /** Every predecessor edge is incident to its node and leads to a pair of smaller rank. */
  ghost predicate Ranked(pred: PredMatrix, rank: map<(ONode, ONode), nat>)
  {
    forall k :: k in pred ==>
      Incident(pred[k], k.1) && k in rank &&
      (k.0, OOpposite(pred[k], k.1)) in rank && rank[(k.0, OOpposite(pred[k], k.1))] < rank[k]
  }

  /** One step v = pred[u][v]->opposite(v). */
  function Step(pred: PredMatrix, u: ONode, v: ONode): ONode
    requires (u, v) in pred
  {
    OOpposite(pred[(u, v)], v)
  }

  function RankOf(rank: map<(ONode, ONode), nat>, u: ONode, v: ONode): nat
  {
    if (u, v) in rank then rank[(u, v)] else 0
  }

  /** The edges for (v; pred[u][v]; v = pred[u][v]->opposite(v)) meets, from v towards u. */
  ghost function ChainEdges(pred: PredMatrix, rank: map<(ONode, ONode), nat>, u: ONode, v: ONode): seq<OEdge>
    requires Ranked(pred, rank)
    decreases RankOf(rank, u, v)
  {
    if (u, v) in pred then [pred[(u, v)]] + ChainEdges(pred, rank, u, Step(pred, u, v)) else []
  }

  /** The nodes the same loop meets: v and every node it steps to that still has a predecessor. */
  ghost function ChainNodes(pred: PredMatrix, rank: map<(ONode, ONode), nat>, u: ONode, v: ONode): seq<ONode>
    requires Ranked(pred, rank)
    decreases RankOf(rank, u, v)
  {
    if (u, v) in pred then [v] + ChainNodes(pred, rank, u, Step(pred, u, v)) else []
  }

  /** Where the loop stops: the first node without a predecessor. */
  ghost function ChainEnd(pred: PredMatrix, rank: map<(ONode, ONode), nat>, u: ONode, v: ONode): ONode
    requires Ranked(pred, rank)
    decreases RankOf(rank, u, v)
  {
    if (u, v) in pred then ChainEnd(pred, rank, u, Step(pred, u, v)) else v
  }

  /** Following pred from v gets to u. */
  ghost predicate Reaches(pred: PredMatrix, rank: map<(ONode, ONode), nat>, u: ONode, v: ONode)
    requires Ranked(pred, rank)
    decreases RankOf(rank, u, v)
  {
    v == u || ((u, v) in pred && Reaches(pred, rank, u, Step(pred, u, v)))
  }

  /** The nodes while (v != u) { v = pred[u][v]->opposite(v); f(v); } passes to f. */
  ghost function PathTo(pred: PredMatrix, rank: map<(ONode, ONode), nat>, u: ONode, v: ONode): seq<ONode>
    requires Ranked(pred, rank) && Reaches(pred, rank, u, v)
    decreases RankOf(rank, u, v)
  {
    if v == u then [] else [Step(pred, u, v)] + PathTo(pred, rank, u, Step(pred, u, v))
  }

  /**
   * The chain is a walk: it starts at v, every edge is incident to the node the
   * loop holds when it meets it and leads to the next one, and the walk ends at a
   * node without a predecessor.
   */
  lemma {:induction false} ChainWalk(pred: PredMatrix, rank: map<(ONode, ONode), nat>, u: ONode, v: ONode)
    requires Ranked(pred, rank)
    ensures var es, ns := ChainEdges(pred, rank, u, v), ChainNodes(pred, rank, u, v);
      |es| == |ns| && (ns != [] ==> ns[0] == v) &&
      (forall i :: 0 <= i < |es| ==> Incident(es[i], ns[i])) &&
      (forall i :: 0 <= i < |es| - 1 ==> ns[i + 1] == OOpposite(es[i], ns[i])) &&
      (es != [] ==> ChainEnd(pred, rank, u, v) == OOpposite(es[|es| - 1], ns[|ns| - 1])) &&
      (es == [] ==> ChainEnd(pred, rank, u, v) == v) &&
      (u, ChainEnd(pred, rank, u, v)) !in pred
    decreases RankOf(rank, u, v)
  {
    if (u, v) in pred {
      var w := Step(pred, u, v);
      ChainWalk(pred, rank, u, w);
      var es', ns' := ChainEdges(pred, rank, u, w), ChainNodes(pred, rank, u, w);
      var es, ns := ChainEdges(pred, rank, u, v), ChainNodes(pred, rank, u, v);
      assert es == [pred[(u, v)]] + es' && ns == [v] + ns';
      forall i | 0 <= i < |es| - 1
        ensures ns[i + 1] == OOpposite(es[i], ns[i])
      {
        if i > 0 {
          assert ns[i + 1] == ns'[i] && es[i] == es'[i - 1] && ns[i] == ns'[i - 1];
        }
      }
    }
  }

  /** A path to u ends at u and meets u nowhere before. */
  lemma {:induction false} PathToEnds(pred: PredMatrix, rank: map<(ONode, ONode), nat>, u: ONode, v: ONode)
    requires Ranked(pred, rank) && Reaches(pred, rank, u, v)
    ensures var p := PathTo(pred, rank, u, v);
      (v == u <==> p == []) && (p != [] ==> p[|p| - 1] == u) &&
      (forall i :: 0 <= i < |p| - 1 ==> p[i] != u)
    decreases RankOf(rank, u, v)
  {
    if v != u {
      var w := Step(pred, u, v);
      PathToEnds(pred, rank, u, w);
      var p' := PathTo(pred, rank, u, w);
      assert PathTo(pred, rank, u, v) == [w] + p';
    }
  }

  /**
   * Where u has no predecessor of its own, the two ways of walking agree: the nodes
   * of foreachNode(id, pred, f) and the ones of its three-terminal case cover the
   * same path.
   */
  lemma {:induction false} ChainMeetsPath(pred: PredMatrix, rank: map<(ONode, ONode), nat>, u: ONode, v: ONode)
    requires Ranked(pred, rank) && Reaches(pred, rank, u, v) && (u, u) !in pred
    ensures ChainNodes(pred, rank, u, v) + [u] == [v] + PathTo(pred, rank, u, v)
    decreases RankOf(rank, u, v)
  {
    if v != u {
      var w := Step(pred, u, v);
      ChainMeetsPath(pred, rank, u, w);
      assert ChainNodes(pred, rank, u, v) + [u] == [v] + (ChainNodes(pred, rank, u, w) + [u]);
    }
  }

  /** The loop of foreachEdge over one pair. */
  method WalkEdges(pred: PredMatrix, ghost rank: map<(ONode, ONode), nat>, u: ONode, v0: ONode) returns (es: seq<OEdge>)
    requires Ranked(pred, rank)
    ensures es == ChainEdges(pred, rank, u, v0)
  {
    es := [];
    var v := v0;
    while (u, v) in pred
      invariant es + ChainEdges(pred, rank, u, v) == ChainEdges(pred, rank, u, v0)
      decreases RankOf(rank, u, v)
    {
      assert es + ChainEdges(pred, rank, u, v) == (es + [pred[(u, v)]]) + ChainEdges(pred, rank, u, Step(pred, u, v));
      es := es + [pred[(u, v)]];
      v := OOpposite(pred[(u, v)], v);
    }
  }

  /** The loop of foreachNode(id, pred, f) over one pair. */
  method WalkNodes(pred: PredMatrix, ghost rank: map<(ONode, ONode), nat>, u: ONode, v0: ONode) returns (ns: seq<ONode>)
    requires Ranked(pred, rank)
    ensures ns == ChainNodes(pred, rank, u, v0)
  {
    ns := [];
    var v := v0;
    while (u, v) in pred
      invariant ns + ChainNodes(pred, rank, u, v) == ChainNodes(pred, rank, u, v0)
      decreases RankOf(rank, u, v)
    {
      assert ns + ChainNodes(pred, rank, u, v) == (ns + [v]) + ChainNodes(pred, rank, u, Step(pred, u, v));
      ns := ns + [v];
      v := OOpposite(pred[(u, v)], v);
    }
  }

  /** The loop of the three-terminal case: walk from v until u. */
  method WalkTo(pred: PredMatrix, ghost rank: map<(ONode, ONode), nat>, u: ONode, v0: ONode) returns (ns: seq<ONode>)
    requires Ranked(pred, rank) && Reaches(pred, rank, u, v0)
    ensures ns == PathTo(pred, rank, u, v0)
  {
    ns := [];
    var v := v0;
    while v != u
      invariant Reaches(pred, rank, u, v)
      invariant ns + PathTo(pred, rank, u, v) == PathTo(pred, rank, u, v0)
      decreases RankOf(rank, u, v)
    {
      var w := OOpposite(pred[(u, v)], v);
      assert ns + PathTo(pred, rank, u, v) == (ns + [w]) + PathTo(pred, rank, u, w);
      v := w;
      ns := ns + [v];
    }
  }
}
