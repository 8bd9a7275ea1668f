/**
 * What a FullComponentStore keeps true between operations, and the facts that
 * carry it across insert, remove and computeAllLosses.
 */
module StoreInvariants {
  import opened Graphs
  import opened Shapes
  import opened ArrayOps
  import opened Weights
  import opened ComponentCopies

  /** A metadata record: start entry, terminals sorted by index, cost, extra payload. */
  datatype Metadata<X> = Metadata(start: AdjEntry, terminals: seq<ONode>, cost: int, extra: X)

  /** The store nodes that stand for terminals (isTerminal(v) of the store). */
  function Terms(nodeOrig: map<Node, ONode>, isTerminal: set<ONode>): set<Node>
  {
    set v | v in nodeOrig && nodeOrig[v] in isTerminal
  }

  /** What a metadata record says about the tree t it describes. */
  ghost predicate CompOk<X>(g: Graph, terms: set<Node>, m: Metadata<X>, t: RTree)
  {
    ShapeOk(g, terms, t) && Unique(g, t) && m.start == t.entry && NodeOf(g, t.entry) in terms &&
    NoDup(EdgeSeq(t)) && |m.terminals| == LeafCount(t) + 1 && Sorted(m.terminals) &&
    m.cost == SumWeights(g, EdgeSeq(t))
  }

  /** Two stored components share neither Steiner nodes nor edges. */
  ghost predicate Apart(g: Graph, s: RTree, t: RTree)
  {
    InnerNodes(g, s) !! InnerNodes(g, t) && (forall e :: e in EdgeSeq(s) ==> e !in EdgeSeq(t))
  }

  /** m_nodeCopy maps exactly the terminals, inversely to m_nodeOrig on their nodes. */
  ghost predicate CopiesOk(isTerminal: set<ONode>, g: Graph, nodeCopy: map<ONode, Node>, nodeOrig: map<Node, ONode>)
  {
    Wf(g) &&
    nodeCopy.Keys == isTerminal &&
    (forall t :: t in nodeCopy ==> nodeCopy[t] in g.nodes && nodeCopy[t] in nodeOrig && nodeOrig[nodeCopy[t]] == t) &&
    (forall v: Node :: v in nodeOrig <==> v < g.nodeIds) &&
    (forall v :: v in nodeOrig && nodeOrig[v] in isTerminal ==> nodeCopy[nodeOrig[v]] == v)
  }

  ghost predicate ComponentsOk<X>(g: Graph, terms: set<Node>, comps: seq<Metadata<X>>, shapes: seq<RTree>)
  {
    |shapes| == |comps| &&
    (forall i {:trigger CompOk(g, terms, comps[i], shapes[i])} ::
      0 <= i < |comps| ==> CompOk(g, terms, comps[i], shapes[i])) &&
    (forall i, j {:trigger Apart(g, shapes[i], shapes[j])} ::
      0 <= i < j < |comps| ==> Apart(g, shapes[i], shapes[j]))
  }

  /** The originals of the store nodes in vs. */
  function Origs(nodeOrig: map<Node, ONode>, vs: set<Node>): set<ONode>
  {
    set v | v in vs && v in nodeOrig :: nodeOrig[v]
  }

  /** A record's terminals are, each once, the originals of its tree's terminal nodes. */
  ghost predicate TerminalsOk<X>(g: Graph, nodeOrig: map<Node, ONode>, m: Metadata<X>, t: RTree)
  {
    NoDup(m.terminals) && forall o :: o in m.terminals <==> o in Origs(nodeOrig, CompTerms(g, t))
  }

  ghost predicate TerminalsAllOk<X>(g: Graph, nodeOrig: map<Node, ONode>, comps: seq<Metadata<X>>, shapes: seq<RTree>)
  {
    |shapes| == |comps| &&
    forall i {:trigger TerminalsOk(g, nodeOrig, comps[i], shapes[i])} ::
      0 <= i < |comps| ==> TerminalsOk(g, nodeOrig, comps[i], shapes[i])
  }

  /** The invariant of a whole store: its copies maps and its component records. */
  ghost predicate StoreOk<X>(isTerminal: set<ONode>, g: Graph, nodeCopy: map<ONode, Node>, nodeOrig: map<Node, ONode>,
                             comps: seq<Metadata<X>>, shapes: seq<RTree>)
  {
    CopiesOk(isTerminal, g, nodeCopy, nodeOrig) && ComponentsOk(g, Terms(nodeOrig, isTerminal), comps, shapes) &&
    TerminalsAllOk(g, nodeOrig, comps, shapes)
  }

  /** The terminal nodes of a stored tree are terminals. */
  lemma {:induction false} CompTermsIn<X>(g: Graph, terms: set<Node>, m: Metadata<X>, t: RTree)
    requires CompOk(g, terms, m, t)
    ensures CompTerms(g, t) <= terms
  {
    LeafNodesIn(g, terms, t);
  }

  /**
   * In a valid store, the terminals of record id are exactly the terminals whose
   * nodes are terminal nodes of its tree.
   */
  lemma {:induction false} TerminalsMeaning<X>(isTerminal: set<ONode>, g: Graph, nodeCopy: map<ONode, Node>, nodeOrig: map<Node, ONode>,
                                               comps: seq<Metadata<X>>, shapes: seq<RTree>, id: nat)
    requires StoreOk(isTerminal, g, nodeCopy, nodeOrig, comps, shapes) && id < |comps|
    ensures NoDup(comps[id].terminals)
    ensures forall o :: o in comps[id].terminals <==> o in isTerminal && nodeCopy[o] in CompTerms(g, shapes[id])
  {
    var terms, m, t := Terms(nodeOrig, isTerminal), comps[id], shapes[id];
    assert CompOk(g, terms, m, t) && TerminalsOk(g, nodeOrig, m, t);
    CompTermsIn(g, terms, m, t);
    forall o ensures o in m.terminals <==> o in isTerminal && nodeCopy[o] in CompTerms(g, t) {
      if o in m.terminals {
        var v :| v in CompTerms(g, t) && v in nodeOrig && nodeOrig[v] == o;
        assert v in terms;
      }
      if o in isTerminal && nodeCopy[o] in CompTerms(g, t) {
        assert nodeCopy[o] in nodeOrig && nodeOrig[nodeCopy[o]] == o;
        assert o in Origs(nodeOrig, CompTerms(g, t));
      }
    }
  }

  /**
   * The records keep their terminals when neither the terminal nodes of their
   * trees nor the originals of those nodes change.
   */
  lemma {:induction false} TerminalsKept<X>(g0: Graph, g2: Graph, terms: set<Node>, no0: map<Node, ONode>, no2: map<Node, ONode>,
                                            comps: seq<Metadata<X>>, cs: seq<Metadata<X>>, shapes: seq<RTree>)
    requires ComponentsOk(g0, terms, comps, shapes) && TerminalsAllOk(g0, no0, comps, shapes)
    requires forall v :: v in terms ==> v in no0 && v in no2 && no2[v] == no0[v]
    requires forall i :: 0 <= i < |shapes| ==> CompTerms(g2, shapes[i]) == CompTerms(g0, shapes[i])
    requires |cs| == |comps| && forall i :: 0 <= i < |cs| ==> cs[i].terminals == comps[i].terminals
    ensures TerminalsAllOk(g2, no2, cs, shapes)
  {
    forall i | 0 <= i < |cs| ensures TerminalsOk(g2, no2, cs[i], shapes[i]) {
      assert CompOk(g0, terms, comps[i], shapes[i]) && TerminalsOk(g0, no0, comps[i], shapes[i]);
      CompTermsIn(g0, terms, comps[i], shapes[i]);
      assert Origs(no2, CompTerms(g2, shapes[i])) == Origs(no0, CompTerms(g0, shapes[i]));
    }
  }

  // ---------------------------------------------------------------------------
  // Growing the graph: new edges only at new nodes and at terminals

  /**
   * g2 holds g0 unchanged plus edges with fresh ids whose ends are new nodes or
   * terminals, as insert and the zero-cost edges of computeAllLosses add them.
   */
  ghost predicate Grows(g0: Graph, g2: Graph, terms: set<Node>)
  {
    g0.nodes <= g2.nodes && g0.edgeIds <= g2.edgeIds &&
    (forall id :: id in g0.edges ==> id in g2.edges && g2.edges[id] == g0.edges[id]) &&
    (forall id :: id in g2.edges && id !in g0.edges ==>
      id >= g0.edgeIds &&
      (g2.edges[id].src in g0.nodes ==> g2.edges[id].src in terms) &&
      (g2.edges[id].tgt in g0.nodes ==> g2.edges[id].tgt in terms))
  }

  lemma {:induction false} AdjKept(g0: Graph, g2: Graph, terms: set<Node>, x: Node)
    requires Wf(g0) && Grows(g0, g2, terms) && x in g0.nodes && x !in terms
    ensures Adj(g2, x) == Adj(g0, x)
  {
    forall id: nat | id < g0.edgeIds
      ensures Contribution(g0.edges, x, id) == Contribution(g2.edges, x, id)
    {
    }
    AdjUpToFrame(g0.edges, g2.edges, x, g0.edgeIds);
    forall id: nat | g0.edgeIds <= id < g2.edgeIds
      ensures Contribution(g2.edges, x, id) == []
    {
    }
    AdjUpToExtend(g2.edges, x, g0.edgeIds, g2.edgeIds);
  }

  lemma {:induction false} CompKept<X>(g0: Graph, g2: Graph, terms: set<Node>, m: Metadata<X>, t: RTree)
    requires Wf(g0) && Grows(g0, g2, terms) && CompOk(g0, terms, m, t)
    ensures CompOk(g2, terms, m, t) && InnerNodes(g2, t) == InnerNodes(g0, t) && CompTerms(g2, t) == CompTerms(g0, t)
  {
    Endpoints(g0, terms, t);
    InnerNodesLive(g0, terms, t);
    forall x | x in InnerNodes(g0, t)
      ensures Adj(g2, x) == Adj(g0, x)
    {
      AdjKept(g0, g2, terms, x);
    }
    ShapeFrame(g0, g2, terms, t);
    InnerFrame(g0, g2, t);
    assert t.entry in AllEntries(t);
    SumWeightsFrame(g0, g2, EdgeSeq(t));
  }

  lemma {:induction false} ComponentsKept<X>(g0: Graph, g2: Graph, terms: set<Node>, comps: seq<Metadata<X>>, shapes: seq<RTree>)
    requires Wf(g0) && Grows(g0, g2, terms) && ComponentsOk(g0, terms, comps, shapes)
    ensures ComponentsOk(g2, terms, comps, shapes)
    ensures forall i :: 0 <= i < |shapes| ==> InnerNodes(g2, shapes[i]) == InnerNodes(g0, shapes[i])
    ensures forall i :: 0 <= i < |shapes| ==> CompTerms(g2, shapes[i]) == CompTerms(g0, shapes[i])
  {
    forall i | 0 <= i < |comps|
      ensures CompOk(g2, terms, comps[i], shapes[i]) && InnerNodes(g2, shapes[i]) == InnerNodes(g0, shapes[i])
      ensures CompTerms(g2, shapes[i]) == CompTerms(g0, shapes[i])
    {
      assert CompOk(g0, terms, comps[i], shapes[i]);
      CompKept(g0, g2, terms, comps[i], shapes[i]);
    }
    forall i, j | 0 <= i < j < |comps|
      ensures Apart(g2, shapes[i], shapes[j])
    {
      assert Apart(g0, shapes[i], shapes[j]);
    }
  }

  // ---------------------------------------------------------------------------
  // The component insert adds

  /** The edge ids of a copied tree are the original ids shifted by base. */
  lemma {:induction false} EdgeSeqShift(t: RTree, base: nat)
    ensures EdgeSeq(ShiftTree(t, base)) == ShiftIds(EdgeSeq(t), base)
    ensures LeafCount(ShiftTree(t, base)) == LeafCount(t)
  {
    ShiftAllEntries(t, base);
  }

  lemma {:induction false} ShiftIdsNoDup(es: seq<EdgeId>, base: nat)
    requires NoDup(es)
    ensures NoDup(ShiftIds(es, base))
  {
  }

  /**
   * The record insert appends describes the copy of w: a full-component tree of
   * the store whose Steiner nodes are the copies of w's and whose edges are w's
   * with shifted ids.
   */
  lemma {:induction false} NewComponentOk<X>(comp: ComponentCopy, isTerminal: set<ONode>, w: RTree,
                                              g: Graph, c: seq<Node>, base: nat, terms: set<Node>, m: Metadata<X>)
    requires InputOk(comp, isTerminal, w)
    requires Embeds(InputGraph(comp), g, c, base, TermIdx(comp, isTerminal), terms) && Injective(c)
    requires m.start == ShiftEntry(w.entry, base) && Sorted(m.terminals)
    requires |m.terminals| == LeafCount(w) + 1 && m.cost == InputCost(comp.edges)
    ensures CompOk(g, terms, m, ShiftTree(w, base))
    ensures InnerNodes(g, ShiftTree(w, base)) == MapNodes(c, InnerNodes(InputGraph(comp), w))
    ensures EdgeSeq(ShiftTree(w, base)) == ShiftIds(EdgeSeq(w), base)
  {
    var G, termsG := InputGraph(comp), TermIdx(comp, isTerminal);
    InputWf(comp);
    ShiftShape(G, g, c, base, termsG, terms, w);
    ShiftUnique(G, g, c, base, termsG, terms, w);
    LowerShift(G, g, c, base, termsG, terms, w.entry);
    EdgeSeqShift(w, base);
    MultisetNoDup(EdgeSeq(w), Range(|comp.edges|));
    ShiftIdsNoDup(EdgeSeq(w), base);
    NewCost(comp, isTerminal, w, g, c, base, terms);
  }

  /**
   * The record insert appends lists the terminals of the copy, each once: the
   * originals of the copied tree's terminal nodes.
   */
  lemma {:induction false} NewTerminals<X>(comp: ComponentCopy, isTerminal: set<ONode>, w: RTree,
                                           g: Graph, c: seq<Node>, base: nat, terms: set<Node>, no: map<Node, ONode>, m: Metadata<X>)
    requires InputOk(comp, isTerminal, w)
    requires Embeds(InputGraph(comp), g, c, base, TermIdx(comp, isTerminal), terms)
    requires |c| == |comp.orig| && forall x :: 0 <= x < |c| ==> c[x] in no && no[c[x]] == comp.orig[x]
    requires m.terminals == SortByIndex(TerminalsOf(comp.orig, isTerminal))
    ensures TerminalsOk(g, no, m, ShiftTree(w, base))
  {
    var G, termsG, ts := InputGraph(comp), TermIdx(comp, isTerminal), TerminalsOf(comp.orig, isTerminal);
    InputWf(comp);
    ShiftCompTerms(G, g, c, base, termsG, terms, w);
    TerminalsOfMembers(comp.orig, isTerminal);
    TerminalsOfNoDup(comp.orig, isTerminal);
    MultisetNoDup(m.terminals, ts);
    var vs := MapNodes(c, termsG);
    forall o ensures o in m.terminals <==> o in Origs(no, vs) {
      if o in m.terminals {
        assert o in multiset(m.terminals);
        assert o in ts;
        var x :| 0 <= x < |comp.orig| && comp.orig[x] == o;
        assert x in termsG && c[x] in vs;
      }
      if o in Origs(no, vs) {
        var v :| v in vs && v in no && no[v] == o;
        var x :| x in termsG && x < |c| && c[x] == v;
        assert o in ts;
        assert o in multiset(ts);
      }
    }
  }

  /** The copied tree weighs what the input's edges weigh. */
  lemma {:induction false} NewCost(comp: ComponentCopy, isTerminal: set<ONode>, w: RTree,
                                   g: Graph, c: seq<Node>, base: nat, terms: set<Node>)
    requires InputOk(comp, isTerminal, w)
    requires Embeds(InputGraph(comp), g, c, base, TermIdx(comp, isTerminal), terms)
    ensures SumWeights(g, ShiftIds(EdgeSeq(w), base)) == InputCost(comp.edges)
  {
    var G, termsG := InputGraph(comp), TermIdx(comp, isTerminal);
    InputWf(comp);
    Endpoints(G, termsG, w);
    forall i | 0 <= i < |EdgeSeq(w)|
      ensures EdgeSeq(w)[i] in G.edges && EdgeSeq(w)[i] + base in g.edges &&
        g.edges[EdgeSeq(w)[i] + base].weight == G.edges[EdgeSeq(w)[i]].weight
    {
      assert AllEntries(w)[i] in AllEntries(w);
    }
    SumWeightsShift(G, g, EdgeSeq(w), base);
    SumWeightsPerm(G, EdgeSeq(w), Range(|comp.edges|));
    InputCostRange(comp, |comp.edges|);
    assert comp.edges[..|comp.edges|] == comp.edges;
  }

  /** Edge i of the input, for i below n, is stored between the copies of its ends under id base + i. */
  ghost predicate CopiedEdges(comp: ComponentCopy, h: map<EdgeId, Edge>, c: seq<Node>, base: nat, n: nat)
  {
    forall i :: 0 <= i < n ==> CopiedAt(comp, h, c, base, i)
  }

  /** Edge i of the input is stored between the copies of its ends under id base + i. */
  ghost predicate CopiedAt(comp: ComponentCopy, h: map<EdgeId, Edge>, c: seq<Node>, base: nat, i: int)
  {
    0 <= i < |comp.edges| && comp.edges[i].src < |c| && comp.edges[i].tgt < |c| &&
    base + i in h && h[base + i] == Edge(c[comp.edges[i].src], c[comp.edges[i].tgt], comp.edges[i].weight)
  }

  /** Storing edge n under a fresh id base + n extends the copied prefix by one. */
  lemma {:induction false} CopiedEdgesStep(comp: ComponentCopy, h: map<EdgeId, Edge>, c: seq<Node>, base: nat, n: nat)
    requires EdgesInRange(comp) && |c| == |comp.orig| && n < |comp.edges| && CopiedEdges(comp, h, c, base, n)
    ensures CopiedEdges(comp, h[base + n := Edge(c[comp.edges[n].src], c[comp.edges[n].tgt], comp.edges[n].weight)], c, base, n + 1)
  {
    var h2 := h[base + n := Edge(c[comp.edges[n].src], c[comp.edges[n].tgt], comp.edges[n].weight)];
    forall i | 0 <= i < n + 1
      ensures CopiedAt(comp, h2, c, base, i)
    {
      if i < n {
        assert CopiedAt(comp, h, c, base, i);
      }
    }
  }

  lemma {:induction false} CopiedEdgeAt(comp: ComponentCopy, h: map<EdgeId, Edge>, c: seq<Node>, base: nat, n: nat, k: nat)
    requires EdgesInRange(comp) && |c| == |comp.orig| && n <= |comp.edges| && CopiedEdges(comp, h, c, base, n) && k < n
    ensures comp.edges[k].src < |c| && comp.edges[k].tgt < |c|
    ensures base + k in h && h[base + k] == Edge(c[comp.edges[k].src], c[comp.edges[k].tgt], comp.edges[k].weight)
  {
    assert CopiedAt(comp, h, c, base, k);
  }

  /** What insert's two loops establish about the copy c of the input in the store's graph g2. */
  ghost predicate CopiedIn(comp: ComponentCopy, isTerminal: set<ONode>, g0: Graph, g2: Graph, c: seq<Node>, terms: set<Node>)
  {
    EdgesInRange(comp) && |c| == |comp.orig| && Injective(c) &&
    g2.edgeIds == g0.edgeIds + |comp.edges| &&
    CopiedEdges(comp, g2.edges, c, g0.edgeIds, |comp.edges|) &&
    (forall id :: id in g2.edges && id < g0.edgeIds ==> id in g0.edges && g2.edges[id] == g0.edges[id]) &&
    (forall x :: 0 <= x < |c| ==> (comp.orig[x] in isTerminal <==> c[x] in terms)) &&
    (forall x :: 0 <= x < |c| && comp.orig[x] !in isTerminal ==> c[x] !in g0.nodes)
  }

  /** One copied edge contributes at the copy of x what the original contributes at x. */
  lemma {:induction false} CopyContribution(id: EdgeId, e: Edge, j: EdgeId, E: Edge, c: seq<Node>, x: Node, base: nat)
    requires Injective(c) && x < |c| && E.src < |c| && E.tgt < |c|
    requires id == base + j && e == Edge(c[E.src], c[E.tgt], E.weight)
    ensures EntriesAt(id, e, c[x]) == Shifted(EntriesAt(j, E, x), base)
  {
  }

  lemma {:induction false} CopyEmbeds(comp: ComponentCopy, isTerminal: set<ONode>, g0: Graph, g2: Graph, c: seq<Node>, terms: set<Node>)
    requires Wf(g0) && CopiedIn(comp, isTerminal, g0, g2, c, terms)
    ensures Embeds(InputGraph(comp), g2, c, g0.edgeIds, TermIdx(comp, isTerminal), terms)
  {
    CopyEmbedsEdges(comp, g2.edges, c, g0.edgeIds);
    CopyEmbedsAdj(comp, isTerminal, g0, g2, c, terms);
  }

  lemma {:induction false} CopyEmbedsEdges(comp: ComponentCopy, h: map<EdgeId, Edge>, c: seq<Node>, base: nat)
    requires EdgesInRange(comp) && |c| == |comp.orig| && CopiedEdges(comp, h, c, base, |comp.edges|)
    ensures forall id :: id in InputGraph(comp).edges ==>
      InputGraph(comp).edges[id].src < |c| && InputGraph(comp).edges[id].tgt < |c| && base + id in h &&
      h[base + id] == Edge(c[InputGraph(comp).edges[id].src], c[InputGraph(comp).edges[id].tgt], InputGraph(comp).edges[id].weight)
  {
    forall id | id in InputGraph(comp).edges
      ensures InputGraph(comp).edges[id].src < |c| && InputGraph(comp).edges[id].tgt < |c| && base + id in h &&
        h[base + id] == Edge(c[InputGraph(comp).edges[id].src], c[InputGraph(comp).edges[id].tgt], InputGraph(comp).edges[id].weight)
    {
      assert InputGraph(comp).edges[id] == comp.edges[id];
      CopiedEdgeAt(comp, h, c, base, |comp.edges|, id);
    }
  }

  lemma {:induction false} CopyEmbedsAdj(comp: ComponentCopy, isTerminal: set<ONode>, g0: Graph, g2: Graph, c: seq<Node>, terms: set<Node>)
    requires Wf(g0) && CopiedIn(comp, isTerminal, g0, g2, c, terms)
    ensures forall x :: 0 <= x < |c| && x !in TermIdx(comp, isTerminal) ==>
      Adj(g2, c[x]) == Shifted(Adj(InputGraph(comp), x), g0.edgeIds)
  {
    forall x | 0 <= x < |c| && x !in TermIdx(comp, isTerminal)
      ensures Adj(g2, c[x]) == Shifted(Adj(InputGraph(comp), x), g0.edgeIds)
    {
      CopyAdjAt(comp, isTerminal, g0, g2, c, terms, x);
      AdjFromShifted(g2, c[x], InputGraph(comp), x, g0.edgeIds);
    }
  }

  lemma {:induction false} AdjFromShifted(g: Graph, v: Node, G: Graph, x: Node, base: nat)
    requires g.edgeIds == base + G.edgeIds && AdjShifted(g.edges, v, G.edges, x, base, G.edgeIds)
    ensures Adj(g, v) == Shifted(Adj(G, x), base)
  {
  }

  lemma {:induction false} CopyAdjAt(comp: ComponentCopy, isTerminal: set<ONode>, g0: Graph, g2: Graph, c: seq<Node>, terms: set<Node>, x: Node)
    requires Wf(g0) && CopiedIn(comp, isTerminal, g0, g2, c, terms)
    requires x < |c| && comp.orig[x] !in isTerminal
    ensures AdjShifted(g2.edges, c[x], EdgeMap(comp.edges), x, g0.edgeIds, |comp.edges|)
  {
    OldEdgesMiss(g0, g2.edges, c[x]);
    CopyAdj(comp, g2.edges, c, g0.edgeIds, x);
  }

  lemma {:induction false} CopyAdj(comp: ComponentCopy, h: map<EdgeId, Edge>, c: seq<Node>, base: nat, x: Node)
    requires EdgesInRange(comp) && |c| == |comp.orig| && Injective(c) && x < |c|
    requires CopiedEdges(comp, h, c, base, |comp.edges|)
    requires forall id: nat :: id < base ==> Contribution(h, c[x], id) == []
    ensures AdjShifted(h, c[x], EdgeMap(comp.edges), x, base, |comp.edges|)
  {
    CopyContributions(comp, h, c, base, x);
    AdjUpToShift(EdgeMap(comp.edges), h, x, c[x], base, |comp.edges|);
  }

  lemma {:induction false} CopyContributions(comp: ComponentCopy, h: map<EdgeId, Edge>, c: seq<Node>, base: nat, x: Node)
    requires EdgesInRange(comp) && |c| == |comp.orig| && Injective(c) && x < |c|
    requires CopiedEdges(comp, h, c, base, |comp.edges|)
    ensures ContributionsShifted(EdgeMap(comp.edges), h, x, c[x], base, |comp.edges|)
  {
    forall k: nat | k < |comp.edges|
      ensures ContributionShifted(EdgeMap(comp.edges), h, x, c[x], base, k)
    {
      CopyContributionAt(comp, h, c, base, x, k);
    }
  }

  lemma {:induction false} CopyContributionAt(comp: ComponentCopy, h: map<EdgeId, Edge>, c: seq<Node>, base: nat, x: Node, k: nat)
    requires EdgesInRange(comp) && |c| == |comp.orig| && Injective(c) && x < |c|
    requires CopiedEdges(comp, h, c, base, |comp.edges|) && k < |comp.edges|
    ensures ContributionShifted(EdgeMap(comp.edges), h, x, c[x], base, k)
  {
    CopiedEdgeAt(comp, h, c, base, |comp.edges|, k);
    CopyContribution(base + k, h[base + k], k, comp.edges[k], c, x, base);
  }

  /** A node that is not in g0 gets nothing from the edges g0 had. */
  lemma {:induction false} OldEdgesMiss(g0: Graph, h: map<EdgeId, Edge>, v: Node)
    requires Wf(g0) && v !in g0.nodes
    requires forall id :: id in h && id < g0.edgeIds ==> id in g0.edges && h[id] == g0.edges[id]
    ensures forall id: nat :: id < g0.edgeIds ==> Contribution(h, v, id) == []
  {
  }

  /** The new component shares nothing with the stored ones. */
  lemma {:induction false} FreshApart(g0: Graph, g2: Graph, terms: set<Node>, s: RTree, t: RTree)
    requires Wf(g0) && ShapeOk(g0, terms, s) && InnerNodes(g2, s) == InnerNodes(g0, s)
    requires forall x :: x in InnerNodes(g2, t) ==> x !in g0.nodes
    requires forall e :: e in EdgeSeq(t) ==> e >= g0.edgeIds
    ensures Apart(g2, s, t)
  {
    InnerNodesLive(g0, terms, s);
    forall e | e in EdgeSeq(s)
      ensures e !in EdgeSeq(t)
    {
      var b := EdgeSeqFind(s, e);
      Endpoints(g0, terms, s);
    }
  }

  // ---------------------------------------------------------------------------
  // insert keeps the invariant

  /** Appending a well-formed record apart from all stored ones keeps the records well-formed. */
  lemma {:induction false} AppendComponent<X>(g: Graph, terms: set<Node>, comps: seq<Metadata<X>>, shapes: seq<RTree>, m: Metadata<X>, t: RTree)
    requires ComponentsOk(g, terms, comps, shapes) && CompOk(g, terms, m, t)
    requires forall i :: 0 <= i < |shapes| ==> Apart(g, shapes[i], t)
    ensures ComponentsOk(g, terms, comps + [m], shapes + [t])
  {
    var cs, ss := comps + [m], shapes + [t];
    forall i | 0 <= i < |cs|
      ensures CompOk(g, terms, cs[i], ss[i])
    {
      if i < |comps| {
        assert cs[i] == comps[i] && ss[i] == shapes[i];
        assert CompOk(g, terms, comps[i], shapes[i]);
      }
    }
    forall i, j | 0 <= i < j < |cs|
      ensures Apart(g, ss[i], ss[j])
    {
      assert ss[i] == shapes[i];
      if j < |comps| {
        assert ss[j] == shapes[j];
        assert Apart(g, shapes[i], shapes[j]);
      }
    }
  }

  /** The nodes insert adds are Steiner nodes, so the terminal nodes stay the same. */
  lemma {:induction false} TermsKept(isTerminal: set<ONode>, g0: Graph, g2: Graph, no0: map<Node, ONode>, no2: map<Node, ONode>)
    requires forall v: Node :: v in no0 <==> v < g0.nodeIds
    requires forall v: Node :: v in no2 <==> v < g2.nodeIds
    requires g0.nodeIds <= g2.nodeIds
    requires forall v: Node :: v < g0.nodeIds ==> no2[v] == no0[v]
    requires forall v: Node :: g0.nodeIds <= v < g2.nodeIds ==> no2[v] !in isTerminal
    ensures Terms(no2, isTerminal) == Terms(no0, isTerminal)
  {
  }

  lemma {:induction false} CopiesKept(isTerminal: set<ONode>, g0: Graph, g2: Graph, nodeCopy: map<ONode, Node>, no0: map<Node, ONode>, no2: map<Node, ONode>)
    requires CopiesOk(isTerminal, g0, nodeCopy, no0) && Wf(g2) && g0.nodes <= g2.nodes
    requires forall v: Node :: v in no2 <==> v < g2.nodeIds
    requires g0.nodeIds <= g2.nodeIds
    requires forall v: Node :: v < g0.nodeIds ==> no2[v] == no0[v]
    requires forall v: Node :: g0.nodeIds <= v < g2.nodeIds ==> no2[v] !in isTerminal
    ensures CopiesOk(isTerminal, g2, nodeCopy, no2)
  {
    forall t | t in nodeCopy
      ensures nodeCopy[t] in g2.nodes && nodeCopy[t] in no2 && no2[nodeCopy[t]] == t
    {
      assert nodeCopy[t] in no0;
    }
    forall v: Node | v in no2 && no2[v] in isTerminal
      ensures nodeCopy[no2[v]] == v
    {
      assert v < g0.nodeIds && v in no0;
    }
  }

  /** The copied edges end at new nodes or at terminals. */
  lemma {:induction false} CopyGrows(comp: ComponentCopy, isTerminal: set<ONode>, g0: Graph, g2: Graph, c: seq<Node>, terms: set<Node>)
    requires Wf(g0) && Wf(g2) && g0.nodes <= g2.nodes && CopiedIn(comp, isTerminal, g0, g2, c, terms)
    requires forall id :: id in g0.edges ==> id in g2.edges
    ensures Grows(g0, g2, terms)
  {
    forall id | id in g2.edges && id !in g0.edges
      ensures id >= g0.edgeIds
      ensures g2.edges[id].src in g0.nodes ==> g2.edges[id].src in terms
      ensures g2.edges[id].tgt in g0.nodes ==> g2.edges[id].tgt in terms
    {
      var i := id - g0.edgeIds;
      CopiedEdgeAt(comp, g2.edges, c, g0.edgeIds, |comp.edges|, i);
    }
  }

  /** The Steiner nodes of the new component are fresh and its edge ids are new. */
  lemma {:induction false} NewIsFresh(comp: ComponentCopy, isTerminal: set<ONode>, w: RTree, g0: Graph, g2: Graph,
                                      c: seq<Node>, terms: set<Node>)
    requires EdgesInRange(comp) && ShapeOk(InputGraph(comp), TermIdx(comp, isTerminal), w)
    requires CopiedIn(comp, isTerminal, g0, g2, c, terms)
    requires InnerNodes(g2, ShiftTree(w, g0.edgeIds)) == MapNodes(c, InnerNodes(InputGraph(comp), w))
    requires EdgeSeq(ShiftTree(w, g0.edgeIds)) == ShiftIds(EdgeSeq(w), g0.edgeIds)
    ensures forall x :: x in InnerNodes(g2, ShiftTree(w, g0.edgeIds)) ==> x !in g0.nodes
    ensures forall e :: e in EdgeSeq(ShiftTree(w, g0.edgeIds)) ==> e >= g0.edgeIds
  {
    var G, termsG, base := InputGraph(comp), TermIdx(comp, isTerminal), g0.edgeIds;
    InputWf(comp);
    InnerNodesLive(G, termsG, w);
    forall x | x in MapNodes(c, InnerNodes(G, w))
      ensures x !in g0.nodes
    {
      var y :| y in InnerNodes(G, w) && y < |c| && c[y] == x;
      assert y !in termsG;
    }
    forall e | e in ShiftIds(EdgeSeq(w), base)
      ensures e >= base
    {
    }
  }

  /**
   * insert: g2 is g0 plus the copy c of the input, no2 extends no0 by the new
   * Steiner nodes; the store with the appended record is valid again.
   */
  lemma {:induction false} InsertValid<X>(comp: ComponentCopy, isTerminal: set<ONode>, w: RTree, g0: Graph, g2: Graph, c: seq<Node>,
                                          nodeCopy: map<ONode, Node>, no0: map<Node, ONode>, no2: map<Node, ONode>,
                                          comps: seq<Metadata<X>>, shapes: seq<RTree>, m: Metadata<X>,
                                          comps2: seq<Metadata<X>>, shapes2: seq<RTree>)
    requires StoreOk(isTerminal, g0, nodeCopy, no0, comps, shapes)
    requires InputOk(comp, isTerminal, w) && Wf(g2) && g0.nodes <= g2.nodes && g0.nodeIds <= g2.nodeIds
    requires forall id :: id in g0.edges ==> id in g2.edges
    requires CopiedIn(comp, isTerminal, g0, g2, c, Terms(no0, isTerminal))
    requires forall v: Node :: v in no2 <==> v < g2.nodeIds
    requires forall v: Node :: v < g0.nodeIds ==> no2[v] == no0[v]
    requires forall v: Node :: g0.nodeIds <= v < g2.nodeIds ==> no2[v] !in isTerminal
    requires forall x :: 0 <= x < |c| ==> c[x] in no2 && no2[c[x]] == comp.orig[x]
    requires m.start == ShiftEntry(w.entry, g0.edgeIds) && m.terminals == SortByIndex(TerminalsOf(comp.orig, isTerminal))
    requires m.cost == InputCost(comp.edges)
    requires comps2 == comps + [m] && shapes2 == shapes + [ShiftTree(w, g0.edgeIds)]
    ensures Terms(no2, isTerminal) == Terms(no0, isTerminal)
    ensures StoreOk(isTerminal, g2, nodeCopy, no2, comps2, shapes2)
  {
    var terms, base := Terms(no0, isTerminal), g0.edgeIds;
    var t := ShiftTree(w, base);
    TermsKept(isTerminal, g0, g2, no0, no2);
    CopiesKept(isTerminal, g0, g2, nodeCopy, no0, no2);
    CopyGrows(comp, isTerminal, g0, g2, c, terms);
    ComponentsKept(g0, g2, terms, comps, shapes);
    CopyEmbeds(comp, isTerminal, g0, g2, c, terms);
    assert |m.terminals| == |TerminalsOf(comp.orig, isTerminal)| by {
      assert |multiset(m.terminals)| == |multiset(TerminalsOf(comp.orig, isTerminal))|;
    }
    NewComponentOk(comp, isTerminal, w, g2, c, base, terms, m);
    NewIsFresh(comp, isTerminal, w, g0, g2, c, terms);
    forall i | 0 <= i < |shapes|
      ensures Apart(g2, shapes[i], t)
    {
      assert CompOk(g0, terms, comps[i], shapes[i]);
      FreshApart(g0, g2, terms, shapes[i], t);
    }
    AppendComponent(g2, terms, comps, shapes, m, t);
    InsertTerminals(comp, isTerminal, w, g0, g2, c, no0, no2, comps, shapes, m);
  }

  /** insert keeps the terminals of the stored records and lists those of the copy. */
  lemma {:induction false} InsertTerminals<X>(comp: ComponentCopy, isTerminal: set<ONode>, w: RTree, g0: Graph, g2: Graph, c: seq<Node>,
                                              no0: map<Node, ONode>, no2: map<Node, ONode>,
                                              comps: seq<Metadata<X>>, shapes: seq<RTree>, m: Metadata<X>)
    requires ComponentsOk(g0, Terms(no0, isTerminal), comps, shapes) && TerminalsAllOk(g0, no0, comps, shapes)
    requires forall i :: 0 <= i < |shapes| ==> CompTerms(g2, shapes[i]) == CompTerms(g0, shapes[i])
    requires forall v: Node :: v in no0 <==> v < g0.nodeIds
    requires forall v: Node :: v < g0.nodeIds ==> v in no2 && no2[v] == no0[v]
    requires InputOk(comp, isTerminal, w)
    requires Embeds(InputGraph(comp), g2, c, g0.edgeIds, TermIdx(comp, isTerminal), Terms(no0, isTerminal))
    requires |c| == |comp.orig| && forall x :: 0 <= x < |c| ==> c[x] in no2 && no2[c[x]] == comp.orig[x]
    requires m.terminals == SortByIndex(TerminalsOf(comp.orig, isTerminal))
    ensures TerminalsAllOk(g2, no2, comps + [m], shapes + [ShiftTree(w, g0.edgeIds)])
  {
    var terms := Terms(no0, isTerminal);
    NewTerminals(comp, isTerminal, w, g2, c, g0.edgeIds, terms, no2, m);
    TerminalsKept(g0, g2, terms, no0, no2, comps, comps, shapes);
    AppendTerminals(g2, no2, comps, shapes, m, ShiftTree(w, g0.edgeIds));
  }

  lemma {:induction false} AppendTerminals<X>(g: Graph, no: map<Node, ONode>, comps: seq<Metadata<X>>, shapes: seq<RTree>, m: Metadata<X>, t: RTree)
    requires TerminalsAllOk(g, no, comps, shapes) && TerminalsOk(g, no, m, t)
    ensures TerminalsAllOk(g, no, comps + [m], shapes + [t])
  {
    var cs, ss := comps + [m], shapes + [t];
    forall i | 0 <= i < |cs| ensures TerminalsOk(g, no, cs[i], ss[i]) {
      if i < |comps| {
        assert cs[i] == comps[i] && ss[i] == shapes[i];
        assert TerminalsOk(g, no, comps[i], shapes[i]);
      }
    }
  }
}
