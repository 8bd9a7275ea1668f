/**
 * The loss of a full component, as FullComponentWithLossStore computes it.  A
 * minimum spanning tree is taken of the store's graph with all terminals tied
 * together by zero-cost edges; the component edges it keeps are loss edges, the
 * others bridges.  The loss is the weight of the loss edges; each bridge's ends
 * are resolved to their loss terminal, the terminal reached by following the
 * tree's predecessor edges.
 */
module LossSteps {
  import opened Graphs
  import opened Shapes
  import opened Weights
  import opened ComponentCopies
  import opened StoreInvariants
  import opened Walks

  /** LossMetadata: the loss and the bridges of a component. */
  datatype LossMetadata = LossMetadata(loss: int, bridges: seq<EdgeId>)

  /** The edges of es outside the loss edges, in order. */
  function BridgesOf(es: seq<EdgeId>, isLossEdge: set<EdgeId>): (r: seq<EdgeId>)
  {
    if es == [] then []
    else BridgesOf(es[..|es| - 1], isLossEdge) + (if es[|es| - 1] in isLossEdge then [] else [es[|es| - 1]])
  }

  /** The loss edges among es, in order. */
  function LossEdgesOf(es: seq<EdgeId>, isLossEdge: set<EdgeId>): (r: seq<EdgeId>)
  {
    if es == [] then []
    else LossEdgesOf(es[..|es| - 1], isLossEdge) + (if es[|es| - 1] in isLossEdge then [es[|es| - 1]] else [])
  }

  /** One more edge goes to exactly one side, and its weight to the loss when it is a loss edge. */
  lemma {:induction false} FilterStep(g: Graph, es: seq<EdgeId>, e: EdgeId, isLossEdge: set<EdgeId>)
    requires e in g.edges
    ensures BridgesOf(es + [e], isLossEdge) == BridgesOf(es, isLossEdge) + (if e in isLossEdge then [] else [e])
    ensures LossEdgesOf(es + [e], isLossEdge) == LossEdgesOf(es, isLossEdge) + (if e in isLossEdge then [e] else [])
    ensures SumWeights(g, LossEdgesOf(es + [e], isLossEdge)) ==
      SumWeights(g, LossEdgesOf(es, isLossEdge)) + (if e in isLossEdge then g.edges[e].weight else 0)
  {
    assert (es + [e])[..|es|] == es;
    var l := LossEdgesOf(es, isLossEdge);
    if e in isLossEdge {
      assert LossEdgesOf(es + [e], isLossEdge) == l + [e];
      assert (l + [e])[..|l|] == l;
      assert SumWeights(g, l + [e]) == SumWeights(g, l) + g.edges[e].weight;
    } else {
      assert LossEdgesOf(es + [e], isLossEdge) == l + [];
      assert l + [] == l;
    }
  }

  /** A bridge goes to the bridges and adds nothing to the loss. */
  lemma {:induction false} BridgeAdded(g: Graph, es: seq<EdgeId>, e: EdgeId, isLossEdge: set<EdgeId>)
    requires e in g.edges && e !in isLossEdge
    ensures BridgesOf(es + [e], isLossEdge) == BridgesOf(es, isLossEdge) + [e]
    ensures SumWeights(g, LossEdgesOf(es + [e], isLossEdge)) == SumWeights(g, LossEdgesOf(es, isLossEdge))
  {
    FilterStep(g, es, e, isLossEdge);
  }

  /** A loss edge adds its weight to the loss and leaves the bridges alone. */
  lemma {:induction false} LossAdded(g: Graph, es: seq<EdgeId>, e: EdgeId, isLossEdge: set<EdgeId>)
    requires e in g.edges && e in isLossEdge
    ensures BridgesOf(es + [e], isLossEdge) == BridgesOf(es, isLossEdge)
    ensures SumWeights(g, LossEdgesOf(es + [e], isLossEdge)) == SumWeights(g, LossEdgesOf(es, isLossEdge)) + g.edges[e].weight
  {
    FilterStep(g, es, e, isLossEdge);
    assert BridgesOf(es, isLossEdge) + [] == BridgesOf(es, isLossEdge);
  }

  /** The bridges are edges of es that are not loss edges; the loss edges are edges of es that are. */
  lemma {:induction false} Sides(es: seq<EdgeId>, isLossEdge: set<EdgeId>)
    ensures forall e :: e in BridgesOf(es, isLossEdge) ==> e in es && e !in isLossEdge
    ensures forall e :: e in LossEdgesOf(es, isLossEdge) ==> e in es && e in isLossEdge
  {
    if es != [] {
      Sides(es[..|es| - 1], isLossEdge);
    }
  }

  /** Every edge goes to exactly one side: the two parts together are es again. */
  lemma {:induction false} Partition(es: seq<EdgeId>, isLossEdge: set<EdgeId>)
    ensures multiset(BridgesOf(es, isLossEdge)) + multiset(LossEdgesOf(es, isLossEdge)) == multiset(es)
  {
    if es != [] {
      var p, x := es[..|es| - 1], es[|es| - 1];
      var b, l := BridgesOf(p, isLossEdge), LossEdgesOf(p, isLossEdge);
      Partition(p, isLossEdge);
      assert multiset(es) == multiset(p) + multiset{x} by {
        assert es == p + [x];
      }
      assert multiset(BridgesOf(es, isLossEdge)) + multiset(LossEdgesOf(es, isLossEdge)) == multiset(b) + multiset(l) + multiset{x} by {
        if x in isLossEdge {
          assert LossEdgesOf(es, isLossEdge) == l + [x];
          assert multiset(l + [x]) == multiset(l) + multiset{x};
        } else {
          assert BridgesOf(es, isLossEdge) == b + [x];
          assert multiset(b + [x]) == multiset(b) + multiset{x};
        }
      }
    }
  }

  /**
   * Over the entries a walk of component t visits, bridges and loss edges are the
   * component's edges, each exactly once, and the loss plus the weight of the
   * bridges is the component's cost.
   */
  lemma {:induction false} ComponentPartition(g: Graph, t: RTree, isLossEdge: set<EdgeId>)
    ensures var es := EdgesOf(Visits([t]));
      multiset(BridgesOf(es, isLossEdge)) + multiset(LossEdgesOf(es, isLossEdge)) == multiset(EdgeSeq(t)) &&
      SumWeights(g, LossEdgesOf(es, isLossEdge)) + SumWeights(g, BridgesOf(es, isLossEdge)) == SumWeights(g, EdgeSeq(t))
  {
    var es := EdgesOf(Visits([t]));
    var b, l := BridgesOf(es, isLossEdge), LossEdgesOf(es, isLossEdge);
    Partition(es, isLossEdge);
    VisitEdges(t);
    SumWeightsAppend(g, l, b);
    assert multiset(l + b) == multiset(EdgeSeq(t));
    SumWeightsPerm(g, l + b, EdgeSeq(t));
  }

  /**
   * For a component whose loss record started empty, computeAllLosses leaves a
   * loss that together with the weight of the bridges is the component's cost, and
   * bridges that are edges of the component and not loss edges.
   */
  lemma {:induction false} FreshLosses(g: Graph, m: Metadata<LossMetadata>, t: RTree, isLossEdge: set<EdgeId>)
    requires m.cost == SumWeights(g, EdgeSeq(t)) && m.extra == LossMetadata(0, [])
    ensures var r := WithLosses(m, g, isLossEdge, EdgesOf(Visits([t])));
      r.extra.loss + SumWeights(g, r.extra.bridges) == m.cost &&
      multiset(r.extra.bridges) <= multiset(EdgeSeq(t)) &&
      (forall e :: e in r.extra.bridges ==> e in EdgeSeq(t) && e !in isLossEdge)
  {
    var es := EdgesOf(Visits([t]));
    var b := BridgesOf(es, isLossEdge);
    assert [] + b == b;
    ComponentPartition(g, t, isLossEdge);
    BridgesIn(es, isLossEdge, EdgeSeq(t));
  }

  lemma {:induction false} BridgesIn(es: seq<EdgeId>, isLossEdge: set<EdgeId>, all: seq<EdgeId>)
    requires multiset(BridgesOf(es, isLossEdge)) + multiset(LossEdgesOf(es, isLossEdge)) == multiset(all)
    ensures forall e :: e in BridgesOf(es, isLossEdge) ==> e in all && e !in isLossEdge
  {
    Sides(es, isLossEdge);
    forall e | e in BridgesOf(es, isLossEdge)
      ensures e in all
    {
      assert e in multiset(all);
    }
  }

  /** The record of a component after computeAllLosses has added the edges es to it. */
  function WithLosses(m: Metadata<LossMetadata>, g: Graph, isLossEdge: set<EdgeId>, es: seq<EdgeId>): Metadata<LossMetadata>
  {
    m.(extra := LossMetadata(m.extra.loss + SumWeights(g, LossEdgesOf(es, isLossEdge)),
                             m.extra.bridges + BridgesOf(es, isLossEdge)))
  }

  // ---------------------------------------------------------------------------
  // Loss terminals

  /**
   * What computeAllLosses needs of the predecessor edges computeMinST returns: at a
   * node that is not a terminal, the predecessor edge is a live edge at that node
   * and leads to a node of smaller rank (closer to the root).
   */
  ghost predicate PredRanked(g: Graph, terms: set<Node>, pred: map<Node, EdgeId>, rank: map<Node, nat>)
  {
    forall v :: v in pred && v !in terms ==>
      pred[v] in g.edges && Touches(g.edges[pred[v]], v) && v in rank &&
      Opposite(g.edges[pred[v]], v) in rank && rank[Opposite(g.edges[pred[v]], v)] < rank[v]
  }

  function NodeRank(rank: map<Node, nat>, u: Node): nat
  {
    if u in rank then rank[u] else 0
  }

  /** pred[u]->opposite(u). */
  function PredStep(g: Graph, terms: set<Node>, pred: map<Node, EdgeId>, ghost rank: map<Node, nat>, u: Node): (r: Node)
    requires PredRanked(g, terms, pred, rank) && u in pred && u !in terms
    ensures NodeRank(rank, r) < NodeRank(rank, u)
  {
    Opposite(g.edges[pred[u]], u)
  }

  /**
   * The loss terminal of u, defined without memoisation: the first terminal met
   * when following predecessor edges from u, or nullptr when the walk stops first.
   */
  ghost function NearestTerminal(g: Graph, terms: set<Node>, nodeOrig: map<Node, ONode>, pred: map<Node, EdgeId>,
                                 rank: map<Node, nat>, u: Node): Option<ONode>
    requires PredRanked(g, terms, pred, rank)
    decreases NodeRank(rank, u)
  {
    if u in terms then (if u in nodeOrig then Some(nodeOrig[u]) else None)
    else if u in pred then NearestTerminal(g, terms, nodeOrig, pred, rank, PredStep(g, terms, pred, rank, u))
    else None
  }

  /** The nodes from u up to the first terminal along predecessor edges. */
  ghost function PredChain(g: Graph, terms: set<Node>, pred: map<Node, EdgeId>, rank: map<Node, nat>, u: Node): set<Node>
    requires PredRanked(g, terms, pred, rank)
    decreases NodeRank(rank, u)
  {
    {u} + if u !in terms && u in pred then PredChain(g, terms, pred, rank, PredStep(g, terms, pred, rank, u)) else {}
  }

  /** m_lossTerminal as a memo: every terminal is set, and every set node holds its loss terminal. */
  ghost predicate Memo(g: Graph, terms: set<Node>, nodeOrig: map<Node, ONode>, pred: map<Node, EdgeId>,
                       rank: map<Node, nat>, lossTerminal: map<Node, ONode>)
    requires PredRanked(g, terms, pred, rank)
  {
    terms <= lossTerminal.Keys &&
    forall v :: v in lossTerminal ==> NearestTerminal(g, terms, nodeOrig, pred, rank, v) == Some(lossTerminal[v])
  }

  /** A node whose loss terminal exists has it recorded. */
  ghost predicate Resolved(g: Graph, terms: set<Node>, nodeOrig: map<Node, ONode>, pred: map<Node, EdgeId>,
                           rank: map<Node, nat>, lossTerminal: map<Node, ONode>, x: Node)
    requires PredRanked(g, terms, pred, rank)
  {
    NearestTerminal(g, terms, nodeOrig, pred, rank, x).Some? ==> x in lossTerminal
  }

  /** Both ends of every edge of es are resolved. */
  ghost predicate EndsResolved(g: Graph, terms: set<Node>, nodeOrig: map<Node, ONode>, pred: map<Node, EdgeId>,
                               rank: map<Node, nat>, lossTerminal: map<Node, ONode>, es: seq<EdgeId>)
    requires PredRanked(g, terms, pred, rank)
  {
    forall e :: e in es && e in g.edges ==>
      Resolved(g, terms, nodeOrig, pred, rank, lossTerminal, g.edges[e].src) &&
      Resolved(g, terms, nodeOrig, pred, rank, lossTerminal, g.edges[e].tgt)
  }

  /** Recording more loss terminals keeps what was resolved resolved. */
  lemma {:induction false} ResolvedGrows(g: Graph, terms: set<Node>, nodeOrig: map<Node, ONode>, pred: map<Node, EdgeId>,
                                         rank: map<Node, nat>, lt: map<Node, ONode>, lt2: map<Node, ONode>, es: seq<EdgeId>)
    requires PredRanked(g, terms, pred, rank) && lt.Keys <= lt2.Keys
    requires EndsResolved(g, terms, nodeOrig, pred, rank, lt, es)
    ensures EndsResolved(g, terms, nodeOrig, pred, rank, lt2, es)
  {
  }

  // ---------------------------------------------------------------------------
  // The zero-cost edges

  /**
   * Adding the zero-cost edges and deleting them again leaves a graph that differs
   * only in its next edge id: the store invariant and the predecessor ranking still
   * hold of it.
   */
  lemma {:induction false} IdsUsedUp<X>(isTerminal: set<ONode>, g0: Graph, g1: Graph, nodeCopy: map<ONode, Node>,
                                        nodeOrig: map<Node, ONode>, comps: seq<Metadata<X>>, shapes: seq<RTree>,
                                        pred: map<Node, EdgeId>, rank: map<Node, nat>, n: nat)
    requires StoreOk(isTerminal, g0, nodeCopy, nodeOrig, comps, shapes)
    requires PredRanked(g0, Terms(nodeOrig, isTerminal), pred, rank)
    requires g1 == g0.(edgeIds := g0.edgeIds + n)
    ensures StoreOk(isTerminal, g1, nodeCopy, nodeOrig, comps, shapes)
    ensures PredRanked(g1, Terms(nodeOrig, isTerminal), pred, rank)
  {
    var terms := Terms(nodeOrig, isTerminal);
    CopiesIdsUsedUp(isTerminal, g0, nodeCopy, nodeOrig, n);
    PredIdsUsedUp(g0, terms, pred, rank, n);
    RecordsIdsUsedUp(g0, terms, nodeOrig, comps, shapes, n);
  }

  lemma {:induction false} RecordsIdsUsedUp<X>(g0: Graph, terms: set<Node>, nodeOrig: map<Node, ONode>,
                                               comps: seq<Metadata<X>>, shapes: seq<RTree>, n: nat)
    requires Wf(g0) && ComponentsOk(g0, terms, comps, shapes) && TerminalsAllOk(g0, nodeOrig, comps, shapes)
    requires terms <= nodeOrig.Keys
    ensures ComponentsOk(g0.(edgeIds := g0.edgeIds + n), terms, comps, shapes)
    ensures TerminalsAllOk(g0.(edgeIds := g0.edgeIds + n), nodeOrig, comps, shapes)
  {
    var g1 := g0.(edgeIds := g0.edgeIds + n);
    assert g1.edges == g0.edges;
    assert Grows(g0, g1, terms);
    ComponentsKept(g0, g1, terms, comps, shapes);
    TerminalsKept(g0, g1, terms, nodeOrig, nodeOrig, comps, comps, shapes);
  }

  lemma {:induction false} PredIdsUsedUp(g0: Graph, terms: set<Node>, pred: map<Node, EdgeId>, rank: map<Node, nat>, n: nat)
    requires PredRanked(g0, terms, pred, rank)
    ensures PredRanked(g0.(edgeIds := g0.edgeIds + n), terms, pred, rank)
  {
    assert g0.(edgeIds := g0.edgeIds + n).edges == g0.edges;
  }

  lemma {:induction false} CopiesIdsUsedUp(isTerminal: set<ONode>, g0: Graph, nodeCopy: map<ONode, Node>, nodeOrig: map<Node, ONode>, n: nat)
    requires CopiesOk(isTerminal, g0, nodeCopy, nodeOrig)
    ensures CopiesOk(isTerminal, g0.(edgeIds := g0.edgeIds + n), nodeCopy, nodeOrig)
  {
    var g1 := g0.(edgeIds := g0.edgeIds + n);
    assert g1.nodes == g0.nodes && g1.nodeIds == g0.nodeIds && g1.edges == g0.edges;
  }

  /** A bridge whose two ends are resolved keeps the bridges' ends resolved. */
  lemma {:induction false} EndsResolvedAdd(g: Graph, terms: set<Node>, nodeOrig: map<Node, ONode>, pred: map<Node, EdgeId>,
                                           rank: map<Node, nat>, lt: map<Node, ONode>, es: seq<EdgeId>, e: EdgeId)
    requires PredRanked(g, terms, pred, rank) && e in g.edges
    requires EndsResolved(g, terms, nodeOrig, pred, rank, lt, es)
    requires Resolved(g, terms, nodeOrig, pred, rank, lt, g.edges[e].src)
    requires Resolved(g, terms, nodeOrig, pred, rank, lt, g.edges[e].tgt)
    ensures EndsResolved(g, terms, nodeOrig, pred, rank, lt, es + [e])
  {
    forall f | f in es + [e] && f in g.edges
      ensures Resolved(g, terms, nodeOrig, pred, rank, lt, g.edges[f].src)
      ensures Resolved(g, terms, nodeOrig, pred, rank, lt, g.edges[f].tgt)
    {
    }
  }

  /** m_lossTerminal after its terminal part is set: each terminal's node maps to the terminal. */
  function TerminalMemo(nodeCopy: map<ONode, Node>, ts: seq<ONode>): map<Node, ONode>
    requires forall t :: t in ts ==> t in nodeCopy
  {
    if ts == [] then map[]
    else
      var last := ts[|ts| - 1];
      assert forall t :: t in ts[..|ts| - 1] ==> t in ts;
      TerminalMemo(nodeCopy, ts[..|ts| - 1])[nodeCopy[last] := last]
  }

  /** The memo holds the node of every terminal of ts, each mapped to a terminal whose node it is. */
  lemma {:induction false} TerminalMemoHolds(nodeCopy: map<ONode, Node>, ts: seq<ONode>)
    requires forall t :: t in ts ==> t in nodeCopy
    ensures forall t :: t in ts ==> nodeCopy[t] in TerminalMemo(nodeCopy, ts)
    ensures forall v :: v in TerminalMemo(nodeCopy, ts) ==>
      exists t :: t in ts && nodeCopy[t] == v && TerminalMemo(nodeCopy, ts)[v] == t
  {
    if ts != [] {
      var ts' := ts[..|ts| - 1];
      assert forall t :: t in ts' ==> t in ts;
      TerminalMemoHolds(nodeCopy, ts');
      assert ts == ts' + [ts[|ts| - 1]];
    }
  }

  /** Initially every terminal node holds its own terminal, so the memo is right. */
  lemma {:induction false} TerminalMemoOk(isTerminal: set<ONode>, g: Graph, nodeCopy: map<ONode, Node>, nodeOrig: map<Node, ONode>,
                                          ts: seq<ONode>, pred: map<Node, EdgeId>, rank: map<Node, nat>)
    requires CopiesOk(isTerminal, g, nodeCopy, nodeOrig) && (forall t :: t in isTerminal <==> t in ts)
    requires PredRanked(g, Terms(nodeOrig, isTerminal), pred, rank)
    ensures Memo(g, Terms(nodeOrig, isTerminal), nodeOrig, pred, rank, TerminalMemo(nodeCopy, ts))
  {
    var terms := Terms(nodeOrig, isTerminal);
    var lt := TerminalMemo(nodeCopy, ts);
    TerminalMemoKeys(isTerminal, g, nodeCopy, nodeOrig, ts);
    TerminalMemoHolds(nodeCopy, ts);
    forall v | v in lt
      ensures NearestTerminal(g, terms, nodeOrig, pred, rank, v) == Some(lt[v])
    {
      var t :| t in ts && nodeCopy[t] == v && lt[v] == t;
      assert t in nodeCopy;
      assert nodeOrig[v] == t;
      assert v in terms;
    }
  }

  lemma {:induction false} TerminalMemoKeys(isTerminal: set<ONode>, g: Graph, nodeCopy: map<ONode, Node>, nodeOrig: map<Node, ONode>,
                                            ts: seq<ONode>)
    requires CopiesOk(isTerminal, g, nodeCopy, nodeOrig) && (forall t :: t in isTerminal <==> t in ts)
    ensures Terms(nodeOrig, isTerminal) <= TerminalMemo(nodeCopy, ts).Keys
  {
    TerminalMemoHolds(nodeCopy, ts);
    forall v | v in Terms(nodeOrig, isTerminal)
      ensures v in TerminalMemo(nodeCopy, ts)
    {
      assert nodeOrig[v] in ts;
      assert nodeCopy[nodeOrig[v]] == v;
    }
  }
}
