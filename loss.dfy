/**
 * OGDF's FullComponentWithLossStore: a full-component store whose extra payload
 * is a LossMetadata record, together with m_lossTerminal, which links store nodes
 * to the terminal their loss path leads to.  In OGDF the class derives from the
 * store; here it holds the store, whose graph and records its methods update.
 */
module LossStores {
  import opened Graphs
  import opened Shapes
  import opened Weights
  import opened ComponentCopies
  import opened StoreInvariants
  import opened Walks
  import opened LossSteps
  import opened Reports
  import opened FullComponents

  class FullComponentWithLossStore {
    /** The underlying store, its extra payload being the loss record. */
    const store: FullComponentStore<LossMetadata>
    /** m_lossTerminal: a node that is not a key holds nullptr. */
    var lossTerminal: map<Node, ONode>
    /** m_lossTerminal.valid(): computeAllLosses has initialised it. */
    var lossTerminalValid: bool

    ghost predicate Valid()
      reads this, store
    {
      store.Valid() && NoDup(store.terminalList) && (forall v :: v in store.isTerminal <==> v in store.terminalList)
    }

    /** The store nodes that stand for terminals. */
    function TermNodes(): set<Node>
      reads store
    {
      Terms(store.nodeOrig, store.isTerminal)
    }

    /** The inherited constructor: an empty store whose fresh records have loss 0 and no bridges. */
    constructor (terminals: seq<ONode>, isTerminal: set<ONode>)
      requires NoDup(terminals) && forall v :: v in isTerminal <==> v in terminals
      ensures Valid() && fresh(store) && store.components == [] && store.noExtra == LossMetadata(0, [])
      ensures lossTerminal == map[] && !lossTerminalValid
    {
      store := new FullComponentStore(terminals, isTerminal, LossMetadata(0, []));
      lossTerminal := map[];
      lossTerminalValid := false;
    }

    /**
     * findLossTerminal(u, pred): the loss terminal of u, memoised in m_lossTerminal.
     * The result is the first terminal on the predecessor walk from u; the nodes
     * newly recorded lie on that walk, and the memo stays right.
     */
    method FindLossTerminal(u: Node, pred: map<Node, EdgeId>, ghost rank: map<Node, nat>) returns (r: Option<ONode>)
      requires PredRanked(store.graph, TermNodes(), pred, rank)
      requires Memo(store.graph, TermNodes(), store.nodeOrig, pred, rank, lossTerminal)
      modifies this`lossTerminal
      ensures r == NearestTerminal(store.graph, TermNodes(), store.nodeOrig, pred, rank, u)
      ensures r.Some? ==> u in lossTerminal
      ensures Memo(store.graph, TermNodes(), store.nodeOrig, pred, rank, lossTerminal)
      ensures old(lossTerminal).Keys <= lossTerminal.Keys <= old(lossTerminal).Keys + PredChain(store.graph, TermNodes(), pred, rank, u)
      decreases NodeRank(rank, u)
    {
      if u !in lossTerminal && u in pred {
        var x := FindLossTerminal(Opposite(store.graph.edges[pred[u]], u), pred, rank);
        if x.Some? {
          lossTerminal := lossTerminal[u := x.value];
        }
      }
      r := if u in lossTerminal then Some(lossTerminal[u]) else None;
    }

    /**
     * computeAllLosses(): the graph gets back its edges (the zero-cost edges tying
     * the terminals together are gone again, their ids used up); every record adds
     * the weight of the loss edges among its component's edges to its loss and the
     * other edges, in walk order, to its bridges; both ends of every bridge have
     * their loss terminal recorded.  pred and isLossEdge are what computeMinST
     * returns for that graph, rooted at the first terminal; rank orders pred.
     */
    method ComputeAllLosses(pred: map<Node, EdgeId>, isLossEdge: set<EdgeId>, ghost rank: map<Node, nat>)
      requires Valid() && |store.terminalList| >= 1
      requires PredRanked(store.graph, TermNodes(), pred, rank)
      modifies store`graph, store`components, this`lossTerminal, this`lossTerminalValid
      ensures store.graph == old(store.graph).(edgeIds := old(store.graph).edgeIds + (|store.terminalList| - 1))
      ensures LossesUpTo(|old(store.components)|, old(store.components), pred, isLossEdge, rank)
    {
      PrepareLosses(pred, isLossEdge, rank);
      LossLoop(old(store.components), pred, isLossEdge, rank);
    }

    /** The loop over ids in computeAllLosses. */
    method LossLoop(ghost comps0: seq<Metadata<LossMetadata>>, pred: map<Node, EdgeId>,
                    isLossEdge: set<EdgeId>, ghost rank: map<Node, nat>)
      requires LossesUpTo(0, comps0, pred, isLossEdge, rank)
      modifies store`components, this`lossTerminal
      ensures LossesUpTo(|comps0|, comps0, pred, isLossEdge, rank)
      ensures store.graph == old(store.graph)
    {
      var id := 0;
      while id < store.Size()
        invariant LossesUpTo(id, comps0, pred, isLossEdge, rank)
        decreases |store.components| - id
      {
        LossStep(id, comps0, pred, isLossEdge, rank);
        id := id + 1;
      }
    }

    /**
     * What the loop over ids in computeAllLosses has done after the components
     * below n: their records carry their losses and bridges, the later ones are as
     * they were, the memo is right and the ends of the bridges found so far are
     * resolved.
     */
    ghost predicate LossesUpTo(n: int, comps0: seq<Metadata<LossMetadata>>, pred: map<Node, EdgeId>,
                               isLossEdge: set<EdgeId>, rank: map<Node, nat>)
      reads this, store
    {
      Valid() && lossTerminalValid && 0 <= n <= |store.components| == |comps0| &&
      PredRanked(store.graph, TermNodes(), pred, rank) &&
      (forall i :: 0 <= i < |comps0| ==>
        store.components[i] == (if i < n then WithLosses(comps0[i], store.graph, isLossEdge, EdgesOf(Visits([store.shapes[i]]))) else comps0[i])) &&
      Memo(store.graph, TermNodes(), store.nodeOrig, pred, rank, lossTerminal) &&
      (forall i :: 0 <= i < n ==>
        EndsResolved(store.graph, TermNodes(), store.nodeOrig, pred, rank, lossTerminal,
                     BridgesOf(EdgesOf(Visits([store.shapes[i]])), isLossEdge)))
    }

    /** One round of the loop over ids in computeAllLosses. */
    method LossStep(id: int, ghost comps0: seq<Metadata<LossMetadata>>, pred: map<Node, EdgeId>,
                    isLossEdge: set<EdgeId>, ghost rank: map<Node, nat>)
      requires LossesUpTo(id, comps0, pred, isLossEdge, rank) && id < |store.components|
      modifies store`components, this`lossTerminal
      ensures LossesUpTo(id + 1, comps0, pred, isLossEdge, rank)
    {
      ghost var terms := TermNodes();
      ghost var lt0 := lossTerminal;
      ComponentLosses(id, pred, isLossEdge, rank);
      assert TermNodes() == terms;
      forall i | 0 <= i < id
        ensures EndsResolved(store.graph, terms, store.nodeOrig, pred, rank, lossTerminal, BridgesOf(EdgesOf(Visits([store.shapes[i]])), isLossEdge))
      {
        ResolvedGrows(store.graph, terms, store.nodeOrig, pred, rank, lt0, lossTerminal, BridgesOf(EdgesOf(Visits([store.shapes[i]])), isLossEdge));
      }
    }

    /**
     * The part of computeAllLosses before the loop over ids: m_lossTerminal is
     * initialised to the terminals, the zero-cost edges come and go again, and only
     * their ids stay used up.
     */
    method PrepareLosses(pred: map<Node, EdgeId>, isLossEdge: set<EdgeId>, ghost rank: map<Node, nat>)
      requires Valid() && |store.terminalList| >= 1
      requires PredRanked(store.graph, TermNodes(), pred, rank)
      modifies store`graph, this`lossTerminal, this`lossTerminalValid
      ensures store.graph == old(store.graph).(edgeIds := old(store.graph).edgeIds + (|store.terminalList| - 1))
      ensures LossesUpTo(0, store.components, pred, isLossEdge, rank)
    {
      ghost var g0, nc, no, comps, shapes := store.graph, store.nodeCopy, store.nodeOrig, store.components, store.shapes;
      assert StoreOk(store.isTerminal, g0, nc, no, comps, shapes);
      assert forall t :: t in store.terminalList ==> t in store.nodeCopy;
      lossTerminalValid := true;
      var g1, memo := ZeroEdgeRound(store.graph, store.nodeCopy, store.terminalList);
      ghost var n: nat := |store.terminalList| - 1;
      assert g1 == g0.(edgeIds := g0.edgeIds + n);
      store.SetGraph(g1);
      lossTerminal := memo;
      Prepared(g0, n, nc, no, comps, shapes, pred, isLossEdge, rank);
    }

    /** The state PrepareLosses leaves satisfies the loop invariant with no component done. */
    lemma Prepared(g0: Graph, n: nat, nc: map<ONode, Node>, no: map<Node, ONode>, comps: seq<Metadata<LossMetadata>>,
                   shapes: seq<RTree>, pred: map<Node, EdgeId>, isLossEdge: set<EdgeId>, rank: map<Node, nat>)
      requires StoreOk(store.isTerminal, g0, nc, no, comps, shapes)
      requires NoDup(store.terminalList) && (forall v :: v in store.isTerminal <==> v in store.terminalList)
      requires PredRanked(g0, Terms(no, store.isTerminal), pred, rank)
      requires store.nodeCopy == nc && store.nodeOrig == no && store.components == comps && store.shapes == shapes
      requires store.graph == g0.(edgeIds := g0.edgeIds + n)
      requires lossTerminalValid && lossTerminal == TerminalMemo(nc, store.terminalList)
      ensures LossesUpTo(0, comps, pred, isLossEdge, rank)
    {
      IdsUsedUp(store.isTerminal, g0, store.graph, nc, no, comps, shapes, pred, rank, n);
      assert TermNodes() == Terms(no, store.isTerminal);
      TerminalMemoOk(store.isTerminal, store.graph, nc, no, store.terminalList, pred, rank);
    }

    /** The body of the loop over ids in computeAllLosses: component id gets its loss and bridges. */
    method ComponentLosses(id: int, pred: map<Node, EdgeId>, isLossEdge: set<EdgeId>, ghost rank: map<Node, nat>)
      requires Valid() && 0 <= id < |store.components|
      requires PredRanked(store.graph, TermNodes(), pred, rank)
      requires Memo(store.graph, TermNodes(), store.nodeOrig, pred, rank, lossTerminal)
      modifies store`components, this`lossTerminal
      ensures Valid()
      ensures store.components == old(store.components)[id :=
        WithLosses(old(store.components)[id], store.graph, isLossEdge, EdgesOf(Visits([store.shapes[id]])))]
      ensures Memo(store.graph, TermNodes(), store.nodeOrig, pred, rank, lossTerminal)
      ensures old(lossTerminal).Keys <= lossTerminal.Keys
      ensures EndsResolved(store.graph, TermNodes(), store.nodeOrig, pred, rank, lossTerminal,
                           BridgesOf(EdgesOf(Visits([store.shapes[id]])), isLossEdge))
    {
      var visits;
      ghost var peak;
      visits, peak := store.ForeachAdjEntry(id);
      store.VisitsKnown(id);
      var m := AddLosses(store.Extra(id), visits, pred, isLossEdge, rank);
      store.SetExtra(id, m);
    }

    /**
     * The callback of computeAllLosses over one component's visited entries: a
     * non-loss edge is appended to the bridges and both its ends get their loss
     * terminal; a loss edge adds its weight to the loss.  OGDF updates the record in
     * place; here it is returned and stored once per component.
     */
    method AddLosses(m: LossMetadata, visits: seq<AdjEntry>, pred: map<Node, EdgeId>, isLossEdge: set<EdgeId>,
                     ghost rank: map<Node, nat>) returns (r: LossMetadata)
      requires Known(store.graph, store.nodeOrig, visits)
      requires PredRanked(store.graph, TermNodes(), pred, rank)
      requires Memo(store.graph, TermNodes(), store.nodeOrig, pred, rank, lossTerminal)
      modifies this`lossTerminal
      ensures r == LossMetadata(m.loss + SumWeights(store.graph, LossEdgesOf(EdgesOf(visits), isLossEdge)),
                                m.bridges + BridgesOf(EdgesOf(visits), isLossEdge))
      ensures Memo(store.graph, TermNodes(), store.nodeOrig, pred, rank, lossTerminal)
      ensures old(lossTerminal).Keys <= lossTerminal.Keys
      ensures EndsResolved(store.graph, TermNodes(), store.nodeOrig, pred, rank, lossTerminal, BridgesOf(EdgesOf(visits), isLossEdge))
    {
      ghost var es: seq<EdgeId> := [];
      var loss, bridges := m.loss, m.bridges;
      var j := 0;
      while j < |visits|
        invariant 0 <= j <= |visits|
        invariant es == EdgesOf(visits[..j])
        invariant loss == m.loss + SumWeights(store.graph, LossEdgesOf(es, isLossEdge))
        invariant bridges == m.bridges + BridgesOf(es, isLossEdge)
        invariant Memo(store.graph, TermNodes(), store.nodeOrig, pred, rank, lossTerminal)
        invariant old(lossTerminal).Keys <= lossTerminal.Keys
        invariant EndsResolved(store.graph, TermNodes(), store.nodeOrig, pred, rank, lossTerminal, BridgesOf(es, isLossEdge))
      {
        var e := visits[j].edge;
        assert visits[j] in visits;
        EdgesOfPrefix(visits, j);
        loss, bridges := Tally(store.graph, e, loss, bridges, isLossEdge, es, m);
        if e !in isLossEdge {
          ResolveBridge(e, pred, rank, BridgesOf(es, isLossEdge));
        }
        es := es + [e];
        j := j + 1;
      }
      assert visits[..j] == visits;
      r := LossMetadata(loss, bridges);
    }

    /** A new bridge: its ends are resolved, the bridges before it stay resolved. */
    method ResolveBridge(e: EdgeId, pred: map<Node, EdgeId>, ghost rank: map<Node, nat>, ghost done: seq<EdgeId>)
      requires e in store.graph.edges
      requires PredRanked(store.graph, TermNodes(), pred, rank)
      requires Memo(store.graph, TermNodes(), store.nodeOrig, pred, rank, lossTerminal)
      requires EndsResolved(store.graph, TermNodes(), store.nodeOrig, pred, rank, lossTerminal, done)
      modifies this`lossTerminal
      ensures Memo(store.graph, TermNodes(), store.nodeOrig, pred, rank, lossTerminal)
      ensures old(lossTerminal).Keys <= lossTerminal.Keys
      ensures EndsResolved(store.graph, TermNodes(), store.nodeOrig, pred, rank, lossTerminal, done + [e])
    {
      ghost var lt0 := lossTerminal;
      ResolveEnds(e, pred, rank);
      ResolvedGrows(store.graph, TermNodes(), store.nodeOrig, pred, rank, lt0, lossTerminal, done);
      EndsResolvedAdd(store.graph, TermNodes(), store.nodeOrig, pred, rank, lossTerminal, done, e);
    }

    /** findLossTerminal on both ends of a bridge. */
    method ResolveEnds(e: EdgeId, pred: map<Node, EdgeId>, ghost rank: map<Node, nat>)
      requires e in store.graph.edges
      requires PredRanked(store.graph, TermNodes(), pred, rank)
      requires Memo(store.graph, TermNodes(), store.nodeOrig, pred, rank, lossTerminal)
      modifies this`lossTerminal
      ensures Memo(store.graph, TermNodes(), store.nodeOrig, pred, rank, lossTerminal)
      ensures old(lossTerminal).Keys <= lossTerminal.Keys
      ensures Resolved(store.graph, TermNodes(), store.nodeOrig, pred, rank, lossTerminal, store.graph.edges[e].src)
      ensures Resolved(store.graph, TermNodes(), store.nodeOrig, pred, rank, lossTerminal, store.graph.edges[e].tgt)
    {
      var x := FindLossTerminal(store.graph.edges[e].src, pred, rank);
      ghost var lt1 := lossTerminal;
      var y := FindLossTerminal(store.graph.edges[e].tgt, pred, rank);
      assert Resolved(store.graph, TermNodes(), store.nodeOrig, pred, rank, lt1, store.graph.edges[e].src);
    }

    /** loss(id). */
    function Loss(id: int): (r: int)
      reads this, store
      requires 0 <= id < |store.components|
      ensures r == store.components[id].extra.loss
    {
      store.Extra(id).loss
    }

    /** lossBridges(id). */
    function LossBridges(id: int): (r: seq<EdgeId>)
      reads this, store
      requires 0 <= id < |store.components|
      ensures r == store.components[id].extra.bridges
    {
      store.Extra(id).bridges
    }

    /** lossTerminal(v): the terminal recorded for v, or nullptr; m_lossTerminal must be initialised. */
    function LossTerminal(v: Node): (r: Option<ONode>)
      reads this
      requires lossTerminalValid
      ensures r.Some? <==> v in lossTerminal
      ensures r.Some? ==> r.value == lossTerminal[v]
    {
      if v in lossTerminal then Some(lossTerminal[v]) else None
    }
  }

  /**
   * What the callback of computeAllLosses books for one visited edge: a non-loss
   * edge is appended to the bridges, a loss edge adds its weight to the loss.
   */
  method Tally(g: Graph, e: EdgeId, loss0: int, bridges0: seq<EdgeId>, isLossEdge: set<EdgeId>,
               ghost es: seq<EdgeId>, ghost m: LossMetadata) returns (loss: int, bridges: seq<EdgeId>)
    requires e in g.edges
    requires loss0 == m.loss + SumWeights(g, LossEdgesOf(es, isLossEdge))
    requires bridges0 == m.bridges + BridgesOf(es, isLossEdge)
    ensures loss == m.loss + SumWeights(g, LossEdgesOf(es + [e], isLossEdge))
    ensures bridges == m.bridges + BridgesOf(es + [e], isLossEdge)
    ensures e !in isLossEdge ==> BridgesOf(es + [e], isLossEdge) == BridgesOf(es, isLossEdge) + [e]
    ensures e in isLossEdge ==> BridgesOf(es + [e], isLossEdge) == BridgesOf(es, isLossEdge)
  {
    if e !in isLossEdge {
      BridgeAdded(g, es, e, isLossEdge);
      loss, bridges := loss0, bridges0 + [e];
    } else {
      LossAdded(g, es, e, isLossEdge);
      loss, bridges := loss0 + g.edges[e].weight, bridges0;
    }
  }

  /**
   * The zero-cost edges of computeAllLosses: m_lossTerminal gets each terminal at
   * its node, and an edge of cost 0 joins the first terminal's node to every other
   * terminal's node, the edges taking the next ids in order.
   */
  method AddZeroEdges(g0: Graph, nodeCopy: map<ONode, Node>, ts: seq<ONode>)
    returns (g: Graph, zeroEdges: seq<EdgeId>, memo: map<Node, ONode>)
    requires |ts| >= 1 && forall t :: t in ts ==> t in nodeCopy
    requires forall id :: id in g0.edges ==> id < g0.edgeIds
    ensures memo == TerminalMemo(nodeCopy, ts)
    ensures |zeroEdges| == |ts| - 1 && forall j :: 0 <= j < |zeroEdges| ==> zeroEdges[j] == g0.edgeIds + j
    ensures g == g0.(edges := g.edges, edgeIds := g0.edgeIds + |zeroEdges|)
    ensures forall id :: id in g.edges <==> id in g0.edges || g0.edgeIds <= id < g.edgeIds
    ensures forall id :: id in g0.edges ==> g.edges[id] == g0.edges[id]
    ensures forall j :: 0 <= j < |zeroEdges| ==> g.edges[zeroEdges[j]] == Edge(nodeCopy[ts[0]], nodeCopy[ts[j + 1]], 0)
  {
    var sC := nodeCopy[ts[0]];
    memo := map[];
    memo := memo[sC := ts[0]];
    assert ts[..1][..0] == [];
    g := g0;
    zeroEdges := [];
    var k := 1;
    while k < |ts|
      invariant 1 <= k <= |ts|
      invariant memo == TerminalMemo(nodeCopy, ts[..k])
      invariant |zeroEdges| == k - 1 && forall j :: 0 <= j < k - 1 ==> zeroEdges[j] == g0.edgeIds + j
      invariant g == g0.(edges := g.edges, edgeIds := g0.edgeIds + k - 1)
      invariant forall id :: id in g.edges <==> id in g0.edges || g0.edgeIds <= id < g0.edgeIds + k - 1
      invariant forall id :: id in g0.edges ==> g.edges[id] == g0.edges[id]
      invariant forall j :: 0 <= j < k - 1 ==> g.edges[zeroEdges[j]] == Edge(sC, nodeCopy[ts[j + 1]], 0)
    {
      var v := ts[k];
      var vC := nodeCopy[v];
      memo := memo[vC := v];
      assert ts[..k + 1][..k] == ts[..k];
      var r := NewEdge(g, sC, vC, 0);
      g := r.0;
      zeroEdges := zeroEdges + [r.1];
      k := k + 1;
    }
    assert ts[..k] == ts;
  }

  /** delEdge on every edge of es: they are gone, nothing else changes. */
  method DeleteEdges(g0: Graph, es: seq<EdgeId>) returns (g: Graph)
    ensures g == g0.(edges := g.edges)
    ensures forall id :: id in g.edges <==> id in g0.edges && id !in es
    ensures forall id :: id in g.edges ==> g.edges[id] == g0.edges[id]
  {
    g := g0;
    var j := 0;
    while j < |es|
      invariant 0 <= j <= |es|
      invariant g == g0.(edges := g.edges)
      invariant forall id :: id in g.edges <==> id in g0.edges && id !in es[..j]
      invariant forall id :: id in g.edges ==> g.edges[id] == g0.edges[id]
    {
      assert es[..j + 1] == es[..j] + [es[j]];
      g := DelEdge(g, es[j]);
      j := j + 1;
    }
    assert es[..j] == es;
  }

  /** Deleting the zero-cost edges gives back the graph they were added to, with their ids used up. */
  lemma ZeroEdgesBack(g0: Graph, gz: Graph, zeroEdges: seq<EdgeId>, g1: Graph)
    requires forall id :: id in g0.edges ==> id < g0.edgeIds
    requires forall j :: 0 <= j < |zeroEdges| ==> zeroEdges[j] == g0.edgeIds + j
    requires gz == g0.(edges := gz.edges, edgeIds := g0.edgeIds + |zeroEdges|)
    requires forall id :: id in gz.edges <==> id in g0.edges || g0.edgeIds <= id < gz.edgeIds
    requires forall id :: id in g0.edges ==> gz.edges[id] == g0.edges[id]
    requires g1 == gz.(edges := g1.edges)
    requires forall id :: id in g1.edges <==> id in gz.edges && id !in zeroEdges
    requires forall id :: id in g1.edges ==> g1.edges[id] == gz.edges[id]
    ensures g1 == g0.(edgeIds := g0.edgeIds + |zeroEdges|)
  {
    forall id | g0.edgeIds <= id < gz.edgeIds
      ensures id in zeroEdges
    {
      assert zeroEdges[id - g0.edgeIds] == id;
    }
    assert g1.edges == g0.edges;
  }

  /**
   * The zero-cost edges of computeAllLosses from start to end: they are added for
   * computeMinST and deleted again, which leaves the graph as it was with their ids
   * used up and m_lossTerminal holding each terminal at its node.
   */
  method ZeroEdgeRound(g0: Graph, nodeCopy: map<ONode, Node>, ts: seq<ONode>) returns (g1: Graph, memo: map<Node, ONode>)
    requires |ts| >= 1 && forall t :: t in ts ==> t in nodeCopy
    requires forall id :: id in g0.edges ==> id < g0.edgeIds
    ensures g1 == g0.(edgeIds := g0.edgeIds + (|ts| - 1))
    ensures memo == TerminalMemo(nodeCopy, ts)
  {
    var gz, zeroEdges;
    gz, zeroEdges, memo := AddZeroEdges(g0, nodeCopy, ts);
    // computeMinST(sC, m_graph, weights, pred, isLossEdge) runs here; its results are parameters of computeAllLosses.
    g1 := DeleteEdges(gz, zeroEdges);
    ZeroEdgesBack(g0, gz, zeroEdges, g1);
  }
}
