/**
 * The bookkeeping of insert's loops (FullComponentStore::insert), stated on
 * values so that each loop step is one lemma: the node loop adds the Steiner
 * nodes, the edge loop copies the edges.
 */
module InsertSteps {
  import opened Graphs
  import opened Shapes
  import opened Weights
  import opened ComponentCopies
  import opened StoreInvariants

  /** c[x] is the store node of input node x, known to nc (by its original) and to no. */
  ghost predicate CopiesOf(orig: seq<ONode>, c: seq<Node>, g: Graph, nc: map<ONode, Node>, no: map<Node, ONode>)
  {
    |c| <= |orig| &&
    forall x :: 0 <= x < |c| ==>
      orig[x] in nc && c[x] == nc[orig[x]] && c[x] in g.nodes && c[x] in no && no[c[x]] == orig[x]
  }

  /**
   * The graph after some Steiner nodes were added: g0 plus nodes numbered from
   * g0.nodeIds, the new ones mapped by no to originals that are not terminals.
   */
  ghost predicate NodesGraph(isTerminal: set<ONode>, g0: Graph, no0: map<Node, ONode>, g: Graph, no: map<Node, ONode>)
  {
    Wf(g) && g.edges == g0.edges && g.edgeIds == g0.edgeIds && g0.nodeIds <= g.nodeIds &&
    (forall v: Node :: v in g.nodes <==> v in g0.nodes || g0.nodeIds <= v < g.nodeIds) &&
    (forall v: Node :: v in no <==> v < g.nodeIds) &&
    (forall v: Node :: v < g0.nodeIds ==> v in no0 && no[v] == no0[v]) &&
    (forall v: Node :: g0.nodeIds <= v < g.nodeIds ==> no[v] !in isTerminal)
  }

  /**
   * After the first i originals: tempUse and terminals list the Steiner and the
   * terminal ones, and nc maps the terminals as nc0 does plus the Steiner ones.
   */
  ghost predicate NodesListed(isTerminal: set<ONode>, orig: seq<ONode>, i: nat, nc0: map<ONode, Node>, nc: map<ONode, Node>,
                              tempUse: seq<ONode>, terminals: seq<ONode>)
  {
    i <= |orig| &&
    tempUse == SteinerOf(orig[..i], isTerminal) && terminals == TerminalsOf(orig[..i], isTerminal) &&
    (forall t :: t in nc <==> t in isTerminal || t in tempUse) &&
    (forall t :: t in isTerminal ==> t in nc0 && nc[t] == nc0[t])
  }

  /** Where the copies went: new nodes for Steiner nodes, permanent nodes for terminals. */
  ghost predicate NodesCopied(isTerminal: set<ONode>, orig: seq<ONode>, g0: Graph, nc0: map<ONode, Node>, g: Graph,
                              nc: map<ONode, Node>, no: map<Node, ONode>, c: seq<Node>)
  {
    CopiesOf(orig, c, g, nc, no) &&
    (forall x :: 0 <= x < |c| && orig[x] !in isTerminal ==> g0.nodeIds <= c[x]) &&
    (forall x :: 0 <= x < |c| && orig[x] in isTerminal ==> orig[x] in nc0 && c[x] == nc0[orig[x]])
  }

  /** The invariant of insert's node loop after its first i rounds. */
  ghost predicate NodesAdded(isTerminal: set<ONode>, orig: seq<ONode>, i: nat, g0: Graph, nc0: map<ONode, Node>,
                             no0: map<Node, ONode>, g: Graph, nc: map<ONode, Node>, no: map<Node, ONode>,
                             tempUse: seq<ONode>, terminals: seq<ONode>, c: seq<Node>)
  {
    |c| == i && NodesGraph(isTerminal, g0, no0, g, no) && NodesListed(isTerminal, orig, i, nc0, nc, tempUse, terminals) &&
    NodesCopied(isTerminal, orig, g0, nc0, g, nc, no, c)
  }

  lemma {:induction false} NodesAddedInit(isTerminal: set<ONode>, orig: seq<ONode>, g0: Graph, nc0: map<ONode, Node>, no0: map<Node, ONode>)
    requires CopiesOk(isTerminal, g0, nc0, no0)
    ensures NodesAdded(isTerminal, orig, 0, g0, nc0, no0, g0, nc0, no0, [], [], [])
  {
    assert orig[..0] == [];
  }

  /** The originals met so far extend by orig[i], which is new. */
  lemma {:induction false} PrefixStep(isTerminal: set<ONode>, orig: seq<ONode>, i: nat)
    requires NoDup(orig) && i < |orig|
    ensures orig[i] !in SteinerOf(orig[..i], isTerminal) && orig[i] !in TerminalsOf(orig[..i], isTerminal)
    ensures SteinerOf(orig[..i + 1], isTerminal) == SteinerOf(orig[..i], isTerminal) + (if orig[i] in isTerminal then [] else [orig[i]])
    ensures TerminalsOf(orig[..i + 1], isTerminal) == TerminalsOf(orig[..i], isTerminal) + (if orig[i] in isTerminal then [orig[i]] else [])
  {
    assert orig[..i + 1][..i] == orig[..i];
    assert orig[i] !in orig[..i];
    SteinerOfMembers(orig[..i], isTerminal);
    TerminalsOfMembers(orig[..i], isTerminal);
  }

  /** A Steiner node: a new node, remembered in nc, no and tempUse. */
  lemma {:induction false} NodesAddedSteiner(isTerminal: set<ONode>, orig: seq<ONode>, i: nat, g0: Graph, nc0: map<ONode, Node>,
                                             no0: map<Node, ONode>, g: Graph, nc: map<ONode, Node>, no: map<Node, ONode>,
                                             tempUse: seq<ONode>, terminals: seq<ONode>, c: seq<Node>,
                                             g': Graph, nc': map<ONode, Node>, no': map<Node, ONode>, tempUse': seq<ONode>, c': seq<Node>)
    requires NodesAdded(isTerminal, orig, i, g0, nc0, no0, g, nc, no, tempUse, terminals, c)
    requires NoDup(orig) && i < |orig| && orig[i] !in nc
    requires g' == NewNode(g).0 && nc' == nc[orig[i] := NewNode(g).1] && no' == no[NewNode(g).1 := orig[i]]
    requires tempUse' == tempUse + [orig[i]] && c' == c + [NewNode(g).1]
    ensures orig[i] !in isTerminal
    ensures NodesAdded(isTerminal, orig, i + 1, g0, nc0, no0, g', nc', no', tempUse', terminals, c')
  {
    PrefixStep(isTerminal, orig, i);
    var r := NewNode(g);
    SteinerGraph(isTerminal, g0, no0, g, no, orig[i]);
    SteinerListed(isTerminal, orig, i, nc0, nc, tempUse, terminals, r.1);
    SteinerCopied(isTerminal, orig, g0, nc0, g, nc, no, c);
  }

  lemma {:induction false} SteinerGraph(isTerminal: set<ONode>, g0: Graph, no0: map<Node, ONode>, g: Graph, no: map<Node, ONode>, vO: ONode)
    requires NodesGraph(isTerminal, g0, no0, g, no) && vO !in isTerminal
    ensures var r := NewNode(g); NodesGraph(isTerminal, g0, no0, r.0, no[r.1 := vO])
  {
  }

  lemma {:induction false} SteinerListed(isTerminal: set<ONode>, orig: seq<ONode>, i: nat, nc0: map<ONode, Node>, nc: map<ONode, Node>,
                                         tempUse: seq<ONode>, terminals: seq<ONode>, v: Node)
    requires NodesListed(isTerminal, orig, i, nc0, nc, tempUse, terminals) && i < |orig| && orig[i] !in isTerminal
    requires SteinerOf(orig[..i + 1], isTerminal) == tempUse + [orig[i]]
    requires TerminalsOf(orig[..i + 1], isTerminal) == terminals
    ensures NodesListed(isTerminal, orig, i + 1, nc0, nc[orig[i] := v], tempUse + [orig[i]], terminals)
  {
  }

  lemma {:induction false} SteinerCopied(isTerminal: set<ONode>, orig: seq<ONode>, g0: Graph, nc0: map<ONode, Node>, g: Graph,
                                         nc: map<ONode, Node>, no: map<Node, ONode>, c: seq<Node>)
    requires NodesCopied(isTerminal, orig, g0, nc0, g, nc, no, c) && NoDup(orig) && |c| < |orig|
    requires orig[|c|] !in isTerminal && g0.nodeIds <= g.nodeIds
    requires forall v: Node :: v in no <==> v < g.nodeIds
    ensures var r := NewNode(g);
      NodesCopied(isTerminal, orig, g0, nc0, r.0, nc[orig[|c|] := r.1], no[r.1 := orig[|c|]], c + [r.1])
  {
    NewNodeCopies(orig, c, g, nc, no, orig[|c|]);
  }

  lemma {:induction false} NewNodeCopies(orig: seq<ONode>, c: seq<Node>, g: Graph, nc: map<ONode, Node>, no: map<Node, ONode>, vO: ONode)
    requires CopiesOf(orig, c, g, nc, no) && |c| < |orig| && orig[|c|] == vO && NoDup(orig)
    requires forall v: Node :: v in no <==> v < g.nodeIds
    ensures var r := NewNode(g);
      CopiesOf(orig, c + [r.1], r.0, nc[vO := r.1], no[r.1 := vO])
  {
    var r := NewNode(g);
    forall x | 0 <= x < |c|
      ensures orig[x] != vO && c[x] != r.1
    {
    }
  }

  /** A terminal: its permanent node is its copy, and it joins terminals. */
  lemma {:induction false} NodesAddedTerminal(isTerminal: set<ONode>, orig: seq<ONode>, i: nat, g0: Graph, nc0: map<ONode, Node>,
                                              no0: map<Node, ONode>, g: Graph, nc: map<ONode, Node>, no: map<Node, ONode>,
                                              tempUse: seq<ONode>, terminals: seq<ONode>, c: seq<Node>,
                                              terminals': seq<ONode>, c': seq<Node>)
    requires CopiesOk(isTerminal, g0, nc0, no0)
    requires NodesAdded(isTerminal, orig, i, g0, nc0, no0, g, nc, no, tempUse, terminals, c)
    requires NoDup(orig) && i < |orig| && orig[i] in nc
    requires terminals' == terminals + [orig[i]] && c' == c + [nc[orig[i]]]
    ensures orig[i] in isTerminal
    ensures NodesAdded(isTerminal, orig, i + 1, g0, nc0, no0, g, nc, no, tempUse, terminals', c')
  {
    PrefixStep(isTerminal, orig, i);
    TerminalCopied(isTerminal, orig, g0, nc0, no0, g, nc, no, c);
  }

  lemma {:induction false} TerminalCopied(isTerminal: set<ONode>, orig: seq<ONode>, g0: Graph, nc0: map<ONode, Node>, no0: map<Node, ONode>,
                                          g: Graph, nc: map<ONode, Node>, no: map<Node, ONode>, c: seq<Node>)
    requires CopiesOk(isTerminal, g0, nc0, no0) && NodesGraph(isTerminal, g0, no0, g, no)
    requires NodesCopied(isTerminal, orig, g0, nc0, g, nc, no, c) && |c| < |orig|
    requires orig[|c|] in isTerminal && orig[|c|] in nc && nc[orig[|c|]] == nc0[orig[|c|]]
    ensures NodesCopied(isTerminal, orig, g0, nc0, g, nc, no, c + [nc[orig[|c|]]])
  {
    var vO := orig[|c|];
    assert nc0[vO] in g0.nodes && nc0[vO] < g0.nodeIds && no0[nc0[vO]] == vO;
  }

  /** After the first j edges of the input: g is g1 with edge i of the input as edge g1.edgeIds + i. */
  ghost predicate EdgesGraph(comp: ComponentCopy, j: nat, g1: Graph, g: Graph, c: seq<Node>)
  {
    Wf(g) && g.nodes == g1.nodes && g.nodeIds == g1.nodeIds && g.edgeIds == g1.edgeIds + j &&
    (forall id :: id in g.edges && id < g1.edgeIds ==> id in g1.edges && g.edges[id] == g1.edges[id]) &&
    (forall id :: id in g1.edges ==> id in g.edges) &&
    CopiedEdges(comp, g.edges, c, g1.edgeIds, j)
  }

  /** After the first j edges: cost is their weight and found the start entry so far, shifted by base. */
  ghost predicate EdgesTallied(comp: ComponentCopy, isTerminal: set<ONode>, j: nat, base: nat, found: Option<AdjEntry>, cost: int)
    requires EdgesInRange(comp) && j <= |comp.edges|
  {
    cost == InputCost(comp.edges[..j]) &&
    (found.Some? <==> StartUpTo(comp, isTerminal, j).Some?) &&
    (found.Some? ==> found.value == ShiftEntry(StartUpTo(comp, isTerminal, j).value, base))
  }

  /** The invariant of insert's edge loop after its first j rounds. */
  ghost predicate EdgesAdded(comp: ComponentCopy, isTerminal: set<ONode>, j: nat, g1: Graph, g: Graph, c: seq<Node>,
                             found: Option<AdjEntry>, cost: int)
  {
    EdgesInRange(comp) && j <= |comp.edges| &&
    EdgesGraph(comp, j, g1, g, c) && EdgesTallied(comp, isTerminal, j, g1.edgeIds, found, cost)
  }

  lemma {:induction false} EdgesAddedInit(comp: ComponentCopy, isTerminal: set<ONode>, g1: Graph, c: seq<Node>)
    requires EdgesInRange(comp) && Wf(g1)
    ensures EdgesAdded(comp, isTerminal, 0, g1, g1, c, None, 0)
  {
    assert comp.edges[..0] == [];
  }

  /** One round: edge j becomes edge g.edgeIds between the copies of its ends. */
  lemma {:induction false} EdgesAddedStep(comp: ComponentCopy, isTerminal: set<ONode>, j: nat, g1: Graph, g: Graph, c: seq<Node>,
                                          nc: map<ONode, Node>, no: map<Node, ONode>, found: Option<AdjEntry>, cost: int,
                                          found2: Option<AdjEntry>)
    requires EdgesAdded(comp, isTerminal, j, g1, g, c, found, cost) && j < |comp.edges|
    requires NoDup(comp.orig) && |c| == |comp.orig| && CopiesOf(comp.orig, c, g1, nc, no)
    requires var e := comp.edges[j];
      found2 == if comp.orig[e.src] in isTerminal then Some(AdjEntry(g.edgeIds, true))
                else if comp.orig[e.tgt] in isTerminal then Some(AdjEntry(g.edgeIds, false))
                else found
    ensures var e := comp.edges[j];
      comp.orig[e.src] in nc && comp.orig[e.tgt] in nc &&
      EdgesAdded(comp, isTerminal, j + 1, g1,
                 NewEdge(g, nc[comp.orig[e.src]], nc[comp.orig[e.tgt]], e.weight).0, c, found2, cost + e.weight)
  {
    EdgeCopied(comp, j, g1, g, c, nc, no);
    EdgeTallied(comp, isTerminal, j, g1.edgeIds, found, cost, found2);
  }

  lemma {:induction false} EdgeCopied(comp: ComponentCopy, j: nat, g1: Graph, g: Graph, c: seq<Node>, nc: map<ONode, Node>, no: map<Node, ONode>)
    requires EdgesInRange(comp) && j < |comp.edges| && EdgesGraph(comp, j, g1, g, c)
    requires NoDup(comp.orig) && |c| == |comp.orig| && CopiesOf(comp.orig, c, g1, nc, no)
    ensures var e := comp.edges[j];
      comp.orig[e.src] in nc && comp.orig[e.tgt] in nc &&
      EdgesGraph(comp, j + 1, g1, NewEdge(g, nc[comp.orig[e.src]], nc[comp.orig[e.tgt]], e.weight).0, c)
  {
    var e := comp.edges[j];
    var u, v := nc[comp.orig[e.src]], nc[comp.orig[e.tgt]];
    assert u == c[e.src] && v == c[e.tgt];
    assert no[u] != no[v];
    CopiedEdgesStep(comp, g.edges, c, g1.edgeIds, j);
  }

  lemma {:induction false} EdgeTallied(comp: ComponentCopy, isTerminal: set<ONode>, j: nat, base: nat, found: Option<AdjEntry>, cost: int,
                                       found2: Option<AdjEntry>)
    requires EdgesInRange(comp) && j < |comp.edges| && EdgesTallied(comp, isTerminal, j, base, found, cost)
    requires var e := comp.edges[j];
      found2 == if comp.orig[e.src] in isTerminal then Some(AdjEntry(base + j, true))
                else if comp.orig[e.tgt] in isTerminal then Some(AdjEntry(base + j, false))
                else found
    ensures EdgesTallied(comp, isTerminal, j + 1, base, found2, cost + comp.edges[j].weight)
  {
    assert comp.edges[..j + 1][..j] == comp.edges[..j];
  }

  /** After the node loop and the edge loop the store graph holds the copy c of the input. */
  lemma {:induction false} InsertCopied(comp: ComponentCopy, isTerminal: set<ONode>, g0: Graph, nc0: map<ONode, Node>, no0: map<Node, ONode>,
                                        g1: Graph, nc: map<ONode, Node>, no: map<Node, ONode>, tempUse: seq<ONode>, terminals: seq<ONode>,
                                        c: seq<Node>, g2: Graph, found: Option<AdjEntry>, cost: int)
    requires CopiesOk(isTerminal, g0, nc0, no0) && NoDup(comp.orig)
    requires NodesAdded(isTerminal, comp.orig, |comp.orig|, g0, nc0, no0, g1, nc, no, tempUse, terminals, c)
    requires EdgesAdded(comp, isTerminal, |comp.edges|, g1, g2, c, found, cost)
    ensures CopiedIn(comp, isTerminal, g0, g2, c, Terms(no0, isTerminal))
  {
    forall x, y | 0 <= x < |c| && 0 <= y < |c| && c[x] == c[y]
      ensures x == y
    {
      assert comp.orig[x] == no[c[x]] == comp.orig[y];
    }
    forall x | 0 <= x < |c|
      ensures comp.orig[x] in isTerminal <==> c[x] in Terms(no0, isTerminal)
    {
      if comp.orig[x] in isTerminal {
        assert c[x] == nc0[comp.orig[x]];
      }
    }
  }

  /** What insert reads off its two loops: the record's fields, the new graph, and how to forget the Steiner copies. */
  lemma {:induction false} LoopsDone(comp: ComponentCopy, isTerminal: set<ONode>, w: RTree, g0: Graph, nc0: map<ONode, Node>,
                                     no0: map<Node, ONode>, g1: Graph, nc: map<ONode, Node>, no: map<Node, ONode>,
                                     tempUse: seq<ONode>, terminals: seq<ONode>, c: seq<Node>, g2: Graph,
                                     found: Option<AdjEntry>, cost: int)
    requires CopiesOk(isTerminal, g0, nc0, no0) && InputOk(comp, isTerminal, w)
    requires NodesAdded(isTerminal, comp.orig, |comp.orig|, g0, nc0, no0, g1, nc, no, tempUse, terminals, c)
    requires EdgesAdded(comp, isTerminal, |comp.edges|, g1, g2, c, found, cost)
    ensures found == Some(ShiftEntry(w.entry, g0.edgeIds))
    ensures terminals == TerminalsOf(comp.orig, isTerminal) && cost == InputCost(comp.edges)
    ensures Wf(g2) && g0.nodes <= g2.nodes && g0.nodeIds <= g2.nodeIds && g2.edgeIds == g0.edgeIds + |comp.edges|
    ensures forall id :: id in g0.edges ==> id in g2.edges
    ensures forall v: Node :: v in g2.nodes <==> v in g0.nodes || g0.nodeIds <= v < g2.nodeIds
    ensures forall v: Node :: v in no <==> v < g2.nodeIds
    ensures forall v: Node :: v < g0.nodeIds ==> v in no0 && no[v] == no0[v]
    ensures forall v: Node :: g0.nodeIds <= v < g2.nodeIds ==> no[v] !in isTerminal
    ensures forall t :: t in nc <==> t in isTerminal || t in tempUse
    ensures forall t :: t in tempUse ==> t !in isTerminal
    ensures (map t | t in isTerminal :: nc[t]) == nc0
    ensures forall x :: 0 <= x < |c| ==> c[x] in g2.nodes && c[x] in no && no[c[x]] == comp.orig[x]
    ensures forall x :: 0 <= x < |c| && comp.orig[x] in isTerminal ==> c[x] == nc0[comp.orig[x]]
  {
    RecordDone(comp, isTerminal, w, g1.edgeIds, nc0, nc, tempUse, terminals, found, cost);
    GraphDone(comp, isTerminal, g0, no0, g1, no, c, g2);
    CopiesDone(isTerminal, comp.orig, nc0, no0, g0, nc, tempUse, terminals);
  }

  /** The record's start, terminals and cost. */
  lemma {:induction false} RecordDone(comp: ComponentCopy, isTerminal: set<ONode>, w: RTree, base: nat, nc0: map<ONode, Node>,
                                      nc: map<ONode, Node>, tempUse: seq<ONode>, terminals: seq<ONode>,
                                      found: Option<AdjEntry>, cost: int)
    requires InputOk(comp, isTerminal, w)
    requires NodesListed(isTerminal, comp.orig, |comp.orig|, nc0, nc, tempUse, terminals)
    requires EdgesTallied(comp, isTerminal, |comp.edges|, base, found, cost)
    ensures found == Some(ShiftEntry(w.entry, base))
    ensures terminals == TerminalsOf(comp.orig, isTerminal) && cost == InputCost(comp.edges)
  {
    assert comp.orig[..|comp.orig|] == comp.orig;
    assert comp.edges[..|comp.edges|] == comp.edges;
  }

  /** The graph after both loops, and where the copies sit in it. */
  lemma {:induction false} GraphDone(comp: ComponentCopy, isTerminal: set<ONode>, g0: Graph, no0: map<Node, ONode>,
                                     g1: Graph, no: map<Node, ONode>, c: seq<Node>, g2: Graph)
    requires NodesGraph(isTerminal, g0, no0, g1, no) && EdgesInRange(comp)
    requires EdgesGraph(comp, |comp.edges|, g1, g2, c)
    requires |c| <= |comp.orig| && forall x :: 0 <= x < |c| ==> c[x] in g1.nodes && c[x] in no && no[c[x]] == comp.orig[x]
    ensures Wf(g2) && g0.nodes <= g2.nodes && g0.nodeIds <= g2.nodeIds && g2.edgeIds == g0.edgeIds + |comp.edges|
    ensures forall id :: id in g0.edges ==> id in g2.edges
    ensures forall v: Node :: v in g2.nodes <==> v in g0.nodes || g0.nodeIds <= v < g2.nodeIds
    ensures forall v: Node :: v in no <==> v < g2.nodeIds
    ensures forall v: Node :: v < g0.nodeIds ==> v in no0 && no[v] == no0[v]
    ensures forall v: Node :: g0.nodeIds <= v < g2.nodeIds ==> no[v] !in isTerminal
    ensures |c| <= |comp.orig| && forall x :: 0 <= x < |c| ==> c[x] in g2.nodes && c[x] in no && no[c[x]] == comp.orig[x]
  {
  }

  /** tempUse holds the Steiner originals, and dropping them from nc gives back nc0. */
  lemma {:induction false} CopiesDone(isTerminal: set<ONode>, orig: seq<ONode>, nc0: map<ONode, Node>, no0: map<Node, ONode>,
                                      g0: Graph, nc: map<ONode, Node>, tempUse: seq<ONode>, terminals: seq<ONode>)
    requires CopiesOk(isTerminal, g0, nc0, no0)
    requires NodesListed(isTerminal, orig, |orig|, nc0, nc, tempUse, terminals)
    ensures forall t :: t in nc <==> t in isTerminal || t in tempUse
    ensures forall t :: t in tempUse ==> t !in isTerminal
    ensures (map t | t in isTerminal :: nc[t]) == nc0
  {
    assert orig[..|orig|] == orig;
    SteinerOfMembers(orig, isTerminal);
  }
}
