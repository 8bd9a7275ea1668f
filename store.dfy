/**
 * OGDF's FullComponentStore: full components of a Steiner tree instance kept in one
 * shared weighted graph.  Every terminal of the instance has one permanent node
 * in that graph; each stored component adds its own Steiner nodes and its edges,
 * and is described by a metadata record: the start adjacency entry (sitting at a
 * terminal; a walk over Steiner nodes from it yields the component), its terminals
 * sorted by index, its cost and an extra payload.  The extra payload of
 * FullComponentWithExtraStore is the type parameter X; the plain store is the case
 * X = ().
 */
module FullComponents {
  import opened Graphs
  import opened Shapes
  import opened ArrayOps
  import opened Weights
  import opened ComponentCopies
  import opened StoreInvariants
  import opened InsertSteps
  import opened RemoveSteps
  import opened Walks
  import opened ShortestPaths
  import opened Reports

  class FullComponentStore<X> {
    /** m_terminals and m_isTerminal of the instance. */
    const terminalList: seq<ONode>
    const isTerminal: set<ONode>
    /** The extra payload of a fresh metadata record. */
    const noExtra: X
    var graph: Graph
    var nodeCopy: map<ONode, Node>
    var nodeOrig: map<Node, ONode>
    var components: seq<Metadata<X>>
    /** The tree shape of each stored component. */
    ghost var shapes: seq<RTree>

    ghost predicate Valid()
      reads this
    {
      StoreOk(isTerminal, graph, nodeCopy, nodeOrig, components, shapes)
    }

    /** One permanent node per terminal, the k-th terminal getting node k. */
    constructor (terminals: seq<ONode>, isTerminal: set<ONode>, noExtra: X)
      requires NoDup(terminals) && forall v :: v in isTerminal <==> v in terminals
      ensures Valid() && components == []
      ensures terminalList == terminals && this.isTerminal == isTerminal && this.noExtra == noExtra
      ensures graph.edges == map[] && forall v: Node :: v in graph.nodes <==> v < |terminals|
      ensures forall k :: 0 <= k < |terminals| ==> nodeCopy[terminals[k]] == k && nodeOrig[k] == terminals[k]
    {
      var g := EmptyGraph();
      var nc: map<ONode, Node> := map[];
      var no: map<Node, ONode> := map[];
      var i := 0;
      while i < |terminals|
        invariant 0 <= i <= |terminals|
        invariant Wf(g) && g.edges == map[] && g.nodeIds == i && forall v: Node :: v in g.nodes <==> v < i
        invariant nc.Keys == set k | 0 <= k < i :: terminals[k]
        invariant forall k :: 0 <= k < i ==> nc[terminals[k]] == k
        invariant forall v: Node :: v in no <==> v < i
        invariant forall k :: 0 <= k < i ==> no[k] == terminals[k]
      {
        var v := terminals[i];
        var r := NewNode(g);
        g := r.0;
        nc := nc[v := r.1];
        no := no[r.1 := v];
        i := i + 1;
      }
      terminalList := terminals;
      this.isTerminal := isTerminal;
      this.noExtra := noExtra;
      graph := g;
      nodeCopy := nc;
      nodeOrig := no;
      components := [];
      shapes := [];
      new;
      assert nc.Keys == isTerminal;
      forall t | t in nc
        ensures nc[t] in g.nodes && nc[t] in no && no[nc[t]] == t
      {
        var k :| 0 <= k < |terminals| && terminals[k] == t;
      }
      forall v | v in no && no[v] in isTerminal
        ensures nc[no[v]] == v
      {
        var k :| 0 <= k < |terminals| && terminals[k] == no[v];
        assert no[k] == terminals[k];
      }
    }

    /**
     * insert(comp): copy the Steiner nodes and the edges of comp into the graph
     * (terminals reuse their permanent nodes) and append the record of the copy.
     * w is comp's tree seen from the start entry insert picks; c returns where
     * each node of comp went.
     */
    method Insert(comp: ComponentCopy, ghost w: RTree) returns (ghost c: seq<Node>)
      requires Valid() && InputOk(comp, isTerminal, w)
      modifies this
      ensures Valid()
      ensures components == old(components) +
        [Metadata(ShiftEntry(w.entry, old(graph).edgeIds), SortByIndex(TerminalsOf(comp.orig, isTerminal)), InputCost(comp.edges), noExtra)]
      ensures shapes == old(shapes) + [ShiftTree(w, old(graph).edgeIds)]
      ensures nodeCopy == old(nodeCopy)
      ensures CopiedIn(comp, isTerminal, old(graph), graph, c, Terms(nodeOrig, isTerminal))
      ensures forall x :: 0 <= x < |c| ==> c[x] in graph.nodes && c[x] in nodeOrig && nodeOrig[c[x]] == comp.orig[x]
      ensures forall v: Node :: v in graph.nodes <==> v in old(graph).nodes || old(graph).nodeIds <= v < graph.nodeIds
      ensures forall v: Node :: v in old(nodeOrig) ==> v in nodeOrig && nodeOrig[v] == old(nodeOrig)[v]
    {
      ghost var g0, no0, comps0, shapes0 := graph, nodeOrig, components, shapes;
      var terminals, start, cost;
      terminals, start, cost, c := CopyIn(comp, w);
      var data := Metadata(start, terminals, cost, noExtra);
      components := components + [data];
      shapes := shapes + [ShiftTree(w, g0.edgeIds)];
      Inserted(comp, w, g0, no0, comps0, shapes0, c, data);
    }

    /** The store after insert: the copy is in place, so the components with the new record are valid. */
    lemma Inserted(comp: ComponentCopy, w: RTree, g0: Graph, no0: map<Node, ONode>, comps0: seq<Metadata<X>>, shapes0: seq<RTree>,
                   c: seq<Node>, m: Metadata<X>)
      requires StoreOk(isTerminal, g0, nodeCopy, no0, comps0, shapes0) && InputOk(comp, isTerminal, w)
      requires Wf(graph) && g0.nodes <= graph.nodes && g0.nodeIds <= graph.nodeIds
      requires forall id :: id in g0.edges ==> id in graph.edges
      requires CopiedIn(comp, isTerminal, g0, graph, c, Terms(no0, isTerminal))
      requires forall v: Node :: v in nodeOrig <==> v < graph.nodeIds
      requires forall v: Node :: v < g0.nodeIds ==> v in no0 && nodeOrig[v] == no0[v]
      requires forall v: Node :: g0.nodeIds <= v < graph.nodeIds ==> nodeOrig[v] !in isTerminal
      requires forall x :: 0 <= x < |c| ==> c[x] in nodeOrig && nodeOrig[c[x]] == comp.orig[x]
      requires m.start == ShiftEntry(w.entry, g0.edgeIds) && m.terminals == SortByIndex(TerminalsOf(comp.orig, isTerminal))
      requires m.cost == InputCost(comp.edges)
      requires components == comps0 + [m] && shapes == shapes0 + [ShiftTree(w, g0.edgeIds)]
      ensures Valid() && Terms(nodeOrig, isTerminal) == Terms(no0, isTerminal)
    {
      InsertValid(comp, isTerminal, w, g0, graph, c, nodeCopy, no0, nodeOrig, comps0, shapes0, m, components, shapes);
    }

    /**
     * The copying part of insert: its three loops, with the terminals sorted in
     * between; start, terminals and cost are the fields of the new record.
     */
    method CopyIn(comp: ComponentCopy, ghost w: RTree) returns (terminals: seq<ONode>, start: AdjEntry, cost: int, ghost c: seq<Node>)
      requires CopiesOk(isTerminal, graph, nodeCopy, nodeOrig) && InputOk(comp, isTerminal, w)
      modifies this`graph, this`nodeCopy, this`nodeOrig
      ensures nodeCopy == old(nodeCopy)
      ensures start == ShiftEntry(w.entry, old(graph).edgeIds) && cost == InputCost(comp.edges)
      ensures terminals == SortByIndex(TerminalsOf(comp.orig, isTerminal))
      ensures Wf(graph) && old(graph).nodes <= graph.nodes && old(graph).nodeIds <= graph.nodeIds
      ensures forall id :: id in old(graph).edges ==> id in graph.edges
      ensures CopiedIn(comp, isTerminal, old(graph), graph, c, Terms(old(nodeOrig), isTerminal))
      ensures forall v: Node :: v in nodeOrig <==> v < graph.nodeIds
      ensures forall v: Node :: v < old(graph).nodeIds ==> v in old(nodeOrig) && nodeOrig[v] == old(nodeOrig)[v]
      ensures forall v: Node :: old(graph).nodeIds <= v < graph.nodeIds ==> nodeOrig[v] !in isTerminal
      ensures forall x :: 0 <= x < |c| ==> c[x] in graph.nodes && c[x] in nodeOrig && nodeOrig[c[x]] == comp.orig[x]
      ensures forall v: Node :: v in graph.nodes <==> v in old(graph).nodes || old(graph).nodeIds <= v < graph.nodeIds
    {
      ghost var g0, nc0, no0 := graph, nodeCopy, nodeOrig;
      var tempUse;
      tempUse, terminals, c := AddNodes(comp);
      ghost var g1, nc1, unsorted := graph, nodeCopy, terminals;
      terminals := SortByIndex(terminals);
      var found;
      found, cost := AddEdges(comp, c);
      InsertCopied(comp, isTerminal, g0, nc0, no0, g1, nc1, nodeOrig, tempUse, unsorted, c, graph, found, cost);
      LoopsDone(comp, isTerminal, w, g0, nc0, no0, g1, nc1, nodeOrig, tempUse, unsorted, c, graph, found, cost);
      ClearCopies(tempUse);
      start := found.value;
    }

    /** insert's first loop: a new node for every Steiner node of comp, terminals collected. */
    method AddNodes(comp: ComponentCopy) returns (tempUse: seq<ONode>, terminals: seq<ONode>, ghost c: seq<Node>)
      requires CopiesOk(isTerminal, graph, nodeCopy, nodeOrig) && NoDup(comp.orig)
      modifies this`graph, this`nodeCopy, this`nodeOrig
      ensures NodesAdded(isTerminal, comp.orig, |comp.orig|, old(graph), old(nodeCopy), old(nodeOrig),
                         graph, nodeCopy, nodeOrig, tempUse, terminals, c)
    {
      ghost var g0, nc0, no0 := graph, nodeCopy, nodeOrig;
      NodesAddedInit(isTerminal, comp.orig, g0, nc0, no0);
      tempUse, terminals, c := [], [], [];
      var i := 0;
      while i < |comp.orig|
        invariant i <= |comp.orig|
        invariant NodesAdded(isTerminal, comp.orig, i, g0, nc0, no0, graph, nodeCopy, nodeOrig, tempUse, terminals, c)
      {
        var vO := comp.orig[i];
        if vO !in nodeCopy {
          ghost var g, nc, no, tu, c0 := graph, nodeCopy, nodeOrig, tempUse, c;
          var r := NewNode(graph);
          graph, nodeCopy, nodeOrig := r.0, nodeCopy[vO := r.1], nodeOrig[r.1 := vO];
          tempUse, c := tempUse + [vO], c + [r.1];
          NodesAddedSteiner(isTerminal, comp.orig, i, g0, nc0, no0, g, nc, no, tu, terminals, c0, graph, nodeCopy, nodeOrig, tempUse, c);
        } else {
          ghost var ts, c0 := terminals, c;
          terminals, c := terminals + [vO], c + [nodeCopy[vO]];
          NodesAddedTerminal(isTerminal, comp.orig, i, g0, nc0, no0, graph, nodeCopy, nodeOrig, tempUse, ts, c0, terminals, c);
        }
        i := i + 1;
      }
    }

    /**
     * insert's second loop: edge j of comp becomes a new edge between the copies
     * of its ends; cost adds up the weights and start ends at the terminal end of
     * the last edge that has one, the source end winning (None while there is none).
     */
    method AddEdges(comp: ComponentCopy, ghost c: seq<Node>) returns (start: Option<AdjEntry>, cost: int)
      requires Wf(graph) && EdgesInRange(comp) && NoDup(comp.orig) && |c| == |comp.orig|
      requires CopiesOf(comp.orig, c, graph, nodeCopy, nodeOrig)
      modifies this`graph
      ensures nodeCopy == old(nodeCopy) && nodeOrig == old(nodeOrig)
      ensures EdgesAdded(comp, isTerminal, |comp.edges|, old(graph), graph, c, start, cost)
    {
      ghost var g1 := graph;
      EdgesAddedInit(comp, isTerminal, g1, c);
      start := None;
      cost := 0;
      var j := 0;
      while j < |comp.edges|
        invariant j <= |comp.edges|
        invariant nodeCopy == old(nodeCopy) && nodeOrig == old(nodeOrig)
        invariant EdgesAdded(comp, isTerminal, j, g1, graph, c, start, cost)
      {
        var e := comp.edges[j];
        var uO, vO := comp.orig[e.src], comp.orig[e.tgt];
        ghost var next := if uO in isTerminal then Some(AdjEntry(graph.edgeIds, true))
                          else if vO in isTerminal then Some(AdjEntry(graph.edgeIds, false))
                          else start;
        EdgesAddedStep(comp, isTerminal, j, g1, graph, c, nodeCopy, nodeOrig, start, cost, next);
        var r := NewEdge(graph, nodeCopy[uO], nodeCopy[vO], e.weight);
        graph := r.0;
        cost := cost + e.weight;
        if uO in isTerminal {
          start := Some(AdjEntry(r.1, true));
        } else if vO in isTerminal {
          start := Some(AdjEntry(r.1, false));
        }
        j := j + 1;
      }
    }

    /** insert's last loop: the temporary copies of the Steiner nodes are forgotten again. */
    method ClearCopies(tempUse: seq<ONode>)
      requires forall t :: t in nodeCopy <==> t in isTerminal || t in tempUse
      requires forall t :: t in tempUse ==> t !in isTerminal
      modifies this`nodeCopy
      ensures graph == old(graph) && nodeOrig == old(nodeOrig)
      ensures nodeCopy == map t | t in isTerminal :: old(nodeCopy)[t]
    {
      var k := 0;
      while k < |tempUse|
        invariant 0 <= k <= |tempUse|
        invariant forall t :: t in nodeCopy ==> t in isTerminal || t in tempUse[k..]
        invariant forall t :: t in isTerminal ==> t in nodeCopy
        invariant forall t :: t in nodeCopy ==> nodeCopy[t] == old(nodeCopy)[t]
      {
        nodeCopy := nodeCopy - {tempUse[k]};
        k := k + 1;
      }
    }

    /**
     * remove(id): deletes the component's edges and Steiner nodes from the graph
     * and moves the last record into slot id.  A two-terminal component is its
     * start edge alone; otherwise the start edge goes first and a node stack,
     * seeded with its far end, deletes each Steiner node after pushing the far
     * ends of the edges it still has.
     */
    method Remove(id: int)
      requires Valid() && 0 <= id < |components|
      modifies this`graph, this`components, this`shapes
      ensures Valid()
      ensures Removed(old(graph), old(shapes)[id], graph)
      ensures components == SwapPop(old(components), id) && shapes == SwapPop(old(shapes), id)
    {
      ghost var g0, terms, t := graph, Terms(nodeOrig, isTerminal), shapes[id];
      ghost var comps0, shapes0 := components, shapes;
      assert CompOk(graph, terms, components[id], t);
      var start := components[id].start;
      var size := |components[id].terminals|;
      if size == 2 {
        DeleteEdgeOnly(graph, terms, t);
        graph := DelEdge(graph, start.edge);
      } else {
        DeleteComponent(start, size, t);
      }
      if |components| == id + 1 {
        components := components[..id];
      } else {
        components := components[id := components[|components| - 1]][..|components| - 1];
      }
      shapes := SwapPop(shapes, id);
      RemoveValid(isTerminal, g0, graph, nodeCopy, nodeOrig, comps0, shapes0, id);
    }

    /** The deletion walk of remove for a component with k >= 3 terminals. */
    method DeleteComponent(start: AdjEntry, k: nat, ghost t: RTree)
      requires Removable(graph, Terms(nodeOrig, isTerminal), t) && start == t.entry && k == LeafCount(t) + 1
      requires forall v: Node :: v in nodeOrig <==> v < graph.nodeIds
      modifies this`graph
      ensures Wf(graph) && Removed(old(graph), t, graph)
    {
      ghost var g0, terms := graph, Terms(nodeOrig, isTerminal);
      var cap := 2 * k - 3;
      DeleteInit(g0, terms, t);
      var stack := [TwinNode(graph, start)];
      graph := DelEdge(graph, start.edge);
      ghost var f := [t];
      while stack != []
        invariant Pending(g0, terms, t, f, graph) && stack == Lowers(g0, f)
        invariant LeafCountF(f) <= LeafCount(t)
        decreases SizeF(f)
      {
        TopLive(g0, terms, t, f, graph);
        var v := stack[|stack| - 1];
        stack := stack[..|stack| - 1];
        if !IsTerminalNode(v) {
          ghost var m := PopSteiner(g0, terms, t, f, graph);
          stack := PushFars(v, stack, cap);
          graph := DelNode(graph, v);
          f := f[..|f| - 1] + Turned(f[|f| - 1].kids, m);
        } else {
          PopTerminal(g0, terms, t, f, graph);
          f := f[..|f| - 1];
        }
      }
      DeleteDone(g0, terms, t, graph);
    }

    /** for (adjEntry adj : v->adjEntries) stack.push(adj->twinNode()), on a BoundedStack of capacity cap. */
    method PushFars(v: Node, stack: seq<Node>, cap: int) returns (s: seq<Node>)
      requires Wf(graph) && |stack| + |Adj(graph, v)| <= cap
      ensures s == stack + Fars(graph, Adj(graph, v))
    {
      AdjSpec(graph, v);
      var adjs := Adj(graph, v);
      s := stack;
      var j := 0;
      while j < |adjs|
        invariant 0 <= j <= |adjs|
        invariant s == stack + Fars(graph, adjs)[..j]
      {
        assert |s| < cap;
        assert adjs[j] in adjs;
        s := s + [TwinNode(graph, adjs[j])];
        j := j + 1;
      }
    }

    /** size(). */
    function Size(): (r: nat)
      reads this
      ensures r == |components|
    {
      |components|
    }

    /** isEmpty(). */
    function IsEmpty(): (r: bool)
      reads this
      ensures r <==> Size() == 0
    {
      components == []
    }

    /**
     * terminals(id): the terminals of a component, each once and sorted by index:
     * those whose nodes are the component's start node and its leaves.
     */
    function Terminals(id: int): (r: seq<ONode>)
      reads this
      requires 0 <= id < |components|
      ensures r == components[id].terminals
      ensures Valid() ==> Sorted(r) && NoDup(r) && |r| == LeafCount(shapes[id]) + 1 && |r| >= 2
      ensures Valid() ==> forall t :: t in r <==> t in isTerminal && nodeCopy[t] in CompTerms(graph, shapes[id])
    {
      assert Valid() ==> CompOk(graph, Terms(nodeOrig, isTerminal), components[id], shapes[id]);
      assert Valid() ==> (NoDup(components[id].terminals) &&
        forall t :: t in components[id].terminals <==> t in isTerminal && nodeCopy[t] in CompTerms(graph, shapes[id])) by {
        if Valid() {
          TerminalsMeaning(isTerminal, graph, nodeCopy, nodeOrig, components, shapes, id);
        }
      }
      components[id].terminals
    }

    /** isTerminal(id, t): whether t is among the terminals of component id. */
    function IsComponentTerminal(id: int, t: ONode): (r: bool)
      reads this
      requires 0 <= id < |components|
      ensures r <==> t in components[id].terminals
      ensures Valid() ==> (r <==> t in isTerminal && nodeCopy[t] in CompTerms(graph, shapes[id]))
    {
      assert Valid() ==> (t in components[id].terminals <==> t in isTerminal && nodeCopy[t] in CompTerms(graph, shapes[id])) by {
        if Valid() {
          TerminalsMeaning(isTerminal, graph, nodeCopy, nodeOrig, components, shapes, id);
        }
      }
      LinearSearch(components[id].terminals, t) != -1
    }

    /** isTerminal(v): whether a store node stands for a terminal. */
    function IsTerminalNode(v: Node): (r: bool)
      reads this
      requires v in nodeOrig
      ensures Valid() ==> (r <==> v in nodeCopy.Values)
    {
      assert Valid() && nodeOrig[v] in isTerminal ==> nodeCopy[nodeOrig[v]] == v;
      nodeOrig[v] in isTerminal
    }

    /** cost(i): the sum of the weights of the component's edges. */
    function Cost(i: int): (r: int)
      reads this
      requires 0 <= i < |components|
      ensures Valid() ==> r == SumWeights(graph, EdgeSeq(shapes[i]))
    {
      assert Valid() ==> CompOk(graph, Terms(nodeOrig, isTerminal), components[i], shapes[i]);
      components[i].cost
    }

    /** start(i): an entry of the component sitting at a terminal. */
    function Start(i: int): (r: AdjEntry)
      reads this
      requires 0 <= i < |components|
      ensures Valid() ==> r == shapes[i].entry && r.edge in graph.edges && NodeOf(graph, r) in nodeCopy.Values
    {
      assert Valid() ==> CompOk(graph, Terms(nodeOrig, isTerminal), components[i], shapes[i]);
      components[i].start
    }

    /** original(v): the original of a store node; a terminal node is its terminal's copy. */
    function Original(v: Node): (r: ONode)
      reads this
      requires v in nodeOrig
      ensures Valid() && r in isTerminal ==> r in nodeCopy && nodeCopy[r] == v
    {
      nodeOrig[v]
    }

    /**
     * foreachAdjEntry(i, f): the entries f is called on, in order.  A two-terminal
     * component is a single edge and only the far side of start is visited;
     * otherwise a stack walk over the Steiner nodes visits, for every edge of the
     * component, its side away from start.  The stack never holds more than
     * 2k - 2 entries (peak), k the number of terminals.
     */
    method ForeachAdjEntry(i: int) returns (visits: seq<AdjEntry>, ghost peak: nat)
      requires Valid() && 0 <= i < |components|
      ensures visits == Visits([shapes[i]])
      ensures |components[i].terminals| == 2 ==> visits == [Twin(components[i].start)]
      ensures peak <= 2 * |components[i].terminals| - 2
    {
      ghost var terms := Terms(nodeOrig, isTerminal);
      ghost var w := shapes[i];
      assert CompOk(graph, terms, components[i], w);
      var start := components[i].start;
      var size := |components[i].terminals|;
      peak := 0;
      if size == 2 {
        assert w.kids == [];
        assert Visits([w]) == [Twin(w.entry)] + Visits([]) by {
          assert [w][..0] + w.kids == [];
        }
        visits := [Twin(start)];
        return;
      }
      var cap := 2 * size - 2;
      var stack := [start];
      peak := 1;
      ghost var f := [w];
      visits := [];
      assert LeafCountF([w]) == LeafCount(w) by {
        assert [w][..0] == [];
      }
      while stack != []
        invariant Wf(graph) && stack == Entries(f) && ShapeOkF(graph, terms, f)
        invariant visits + Visits(f) == Visits([w])
        invariant LeafCountF(f) <= LeafCount(w) && peak <= cap
        decreases SizeF(f)
      {
        ghost var next := f[..|f| - 1] + f[|f| - 1].kids;
        ghost var before := visits;
        PopCount(f);
        var back;
        back, stack := PopOnce(stack, f, cap);
        visits := visits + [back];
        peak := if |stack| > peak then |stack| else peak;
        f := next;
        assert visits + Visits(f) == before + ([back] + Visits(next));
      }
      assert Visits(f) == [];
    }

    /**
     * One round of the walk: pop the top entry, take its twin back and, when back
     * sits at a Steiner node, push the node's other entries in cyclic order.
     */
    method PopOnce(stack: seq<AdjEntry>, ghost f: seq<RTree>, cap: nat) returns (back: AdjEntry, s: seq<AdjEntry>)
      requires Valid() && f != [] && stack == Entries(f)
      requires ShapeOkF(graph, Terms(nodeOrig, isTerminal), f) && LeafCountF(f) <= cap
      ensures back == Twin(f[|f| - 1].entry)
      ensures s == Entries(f[..|f| - 1] + f[|f| - 1].kids) && |s| <= cap
      ensures ShapeOkF(graph, Terms(nodeOrig, isTerminal), f[..|f| - 1] + f[|f| - 1].kids)
    {
      ghost var terms := Terms(nodeOrig, isTerminal);
      ghost var t, rest := f[|f| - 1], f[..|f| - 1];
      PopCount(f);
      PopShape(graph, terms, f);
      back := Twin(stack[|stack| - 1]);
      s := stack[..|stack| - 1];
      NodeKnown(back);
      if !IsTerminalNode(NodeOf(graph, back)) {
        InnerAdj(graph, terms, t);
        RotationMembers(Adj(graph, NodeOf(graph, back)), IndexOf(Adj(graph, NodeOf(graph, back)), back));
        s := PushOthers(back, s, cap);
      } else {
        assert t.kids == [] && rest + t.kids == rest;
      }
    }

    /**
     * for (adj = back->cyclicSucc(); adj != back; adj = adj->cyclicSucc()) stack.push(adj),
     * on a BoundedStack of capacity cap.
     */
    method PushOthers(back: AdjEntry, stack: seq<AdjEntry>, cap: nat) returns (s: seq<AdjEntry>)
      requires Wf(graph) && back.edge in graph.edges && back in Adj(graph, NodeOf(graph, back))
      requires |stack| + |Adj(graph, NodeOf(graph, back))| - 1 <= cap
      ensures s == stack + CyclicOthers(graph, back)
    {
      ghost var r := CyclicOthers(graph, back);
      CyclicStart(graph, back);
      s := stack;
      var adj := CyclicSucc(graph, back);
      ghost var j := 0;
      while adj != back
        invariant 0 <= j <= |r|
        invariant adj == if j < |r| then r[j] else back
        invariant s == stack + r[..j]
        decreases |r| - j
      {
        assert |s| < cap;
        s := s + [adj];
        CyclicNext(graph, back, j);
        adj := CyclicSucc(graph, adj);
        j := j + 1;
      }
    }

    /**
     * foreachNode(id, f): the originals f is called on, in order: the terminal start
     * sits at, then the node of every entry foreachAdjEntry visits.  They are
     * terminals and the originals of the component's Steiner nodes, all of which
     * are met.
     */
    method ForeachNode(id: int) returns (nodes: seq<ONode>)
      requires Valid() && 0 <= id < |components|
      ensures nodes == [OrigOf(graph, nodeOrig, components[id].start)] + OrigsOf(graph, nodeOrig, Visits([shapes[id]]))
      ensures InnerNodes(graph, shapes[id]) <= nodeOrig.Keys
      ensures forall x :: x in InnerNodes(graph, shapes[id]) && x in nodeOrig ==> nodeOrig[x] in nodes[1..]
      ensures forall o :: o in nodes ==>
        o in isTerminal || exists x :: x in InnerNodes(graph, shapes[id]) && x in nodeOrig && nodeOrig[x] == o
    {
      var visits;
      ghost var peak;
      visits, peak := ForeachAdjEntry(id);
      VisitsKnown(id);
      var start := components[id].start;
      StartKnown(id);
      var rest := OriginalsAlong(graph, nodeOrig, visits);
      nodes := [nodeOrig[NodeOf(graph, start)]] + rest;
      assert nodes[1..] == rest;
      assert CompOk(graph, Terms(nodeOrig, isTerminal), components[id], shapes[id]);
      assert NodeOf(graph, start) in Terms(nodeOrig, isTerminal);
      NodesMet(graph, nodeOrig, isTerminal, shapes[id]);
    }

    /**
     * foreachEdge(id, pred, f): the original edges f is called on, in order: for
     * every entry back that foreachAdjEntry visits, the predecessor chain from
     * original(back->theNode()) towards original(back->twinNode()).
     */
    method ForeachEdge(id: int, pred: PredMatrix, ghost rank: map<(ONode, ONode), nat>) returns (edges: seq<OEdge>)
      requires Valid() && 0 <= id < |components| && Ranked(pred, rank)
      ensures edges == ChainsEdges(pred, rank, graph, nodeOrig, Visits([shapes[id]]))
    {
      var visits;
      ghost var peak;
      visits, peak := ForeachAdjEntry(id);
      VisitsKnown(id);
      edges := EdgesAlong(graph, nodeOrig, pred, rank, visits);
    }

    /**
     * foreachNode(id, pred, f): the original nodes f is called on, in order.  A
     * three-terminal component has one Steiner node c (the far end of start): it is
     * reported, then for every entry at c the path pred gives from c to the
     * terminal at its other end, without c.  Any other component reports the
     * terminal start sits at and, for every visited entry, the chain from its node
     * towards the node at its other end, without where the chain stops.
     */
    method ForeachNodeAlongPaths(id: int, pred: PredMatrix, ghost rank: map<(ONode, ONode), nat>) returns (nodes: seq<ONode>)
      requires Valid() && 0 <= id < |components| && Ranked(pred, rank)
      requires |components[id].terminals| == 3 ==>
        AllReach(pred, rank, graph, nodeOrig, Adj(graph, Lower(graph, components[id].start)), OrigOf(graph, nodeOrig, Twin(components[id].start)))
      ensures |components[id].terminals| == 3 ==>
        nodes == [OrigOf(graph, nodeOrig, Twin(components[id].start))] +
          PathsTo(pred, rank, graph, nodeOrig, Adj(graph, Lower(graph, components[id].start)), OrigOf(graph, nodeOrig, Twin(components[id].start)))
      ensures |components[id].terminals| != 3 ==>
        nodes == [OrigOf(graph, nodeOrig, components[id].start)] + ChainsNodes(pred, rank, graph, nodeOrig, Visits([shapes[id]]))
    {
      var start := components[id].start;
      StartKnown(id);
      if |components[id].terminals| == 3 {
        var c := TwinNode(graph, start);
        var cO := nodeOrig[c];
        AdjKnown(c);
        var rest := PathsToAll(graph, nodeOrig, pred, rank, Adj(graph, c), cO);
        nodes := [cO] + rest;
      } else {
        var visits;
        ghost var peak;
        visits, peak := ForeachAdjEntry(id);
        VisitsKnown(id);
        var rest := NodesAlong(graph, nodeOrig, pred, rank, visits);
        nodes := [nodeOrig[NodeOf(graph, start)]] + rest;
      }
    }

    lemma VisitsKnown(id: int)
      requires Valid() && 0 <= id < |components|
      ensures Known(graph, nodeOrig, Visits([shapes[id]]))
    {
      ghost var terms := Terms(nodeOrig, isTerminal);
      assert CompOk(graph, terms, components[id], shapes[id]);
      VisitsCover(graph, terms, shapes[id]);
      forall a | a in Visits([shapes[id]])
        ensures NodeOf(graph, a) in nodeOrig && TwinNode(graph, a) in nodeOrig
      {
        NodeKnown(a);
        NodeKnown(Twin(a));
      }
    }

    lemma StartKnown(id: int)
      requires Valid() && 0 <= id < |components|
      ensures var a := components[id].start;
        a.edge in graph.edges && NodeOf(graph, a) in nodeOrig && TwinNode(graph, a) in nodeOrig &&
        Lower(graph, a) == TwinNode(graph, a) && TwinNode(graph, a) in graph.nodes
    {
      assert CompOk(graph, Terms(nodeOrig, isTerminal), components[id], shapes[id]);
      NodeKnown(components[id].start);
      NodeKnown(Twin(components[id].start));
    }

    lemma AdjKnown(c: Node)
      requires Valid() && c in graph.nodes
      ensures Known(graph, nodeOrig, Adj(graph, c))
    {
      AdjSpec(graph, c);
      forall a | a in Adj(graph, c)
        ensures a.edge in graph.edges && NodeOf(graph, a) in nodeOrig && TwinNode(graph, a) in nodeOrig
      {
        NodeKnown(a);
        NodeKnown(Twin(a));
      }
    }

    /** extra(i): the payload stored with component i. */
    function Extra(i: int): (r: X)
      reads this
      requires 0 <= i < |components|
      ensures r == components[i].extra
    {
      components[i].extra
    }

    /** The graph changes as a whole; the owner proves the store still sound. */
    method SetGraph(g: Graph)
      modifies this`graph
      ensures graph == g
    {
      graph := g;
    }

    /**
     * Writing through the reference extra(i) returns: the payload of component i
     * becomes x and nothing else changes.
     */
    method SetExtra(i: int, x: X)
      requires Valid() && 0 <= i < |components|
      modifies this`components
      ensures Valid()
      ensures components == old(components)[i := old(components)[i].(extra := x)]
    {
      ghost var terms := Terms(nodeOrig, isTerminal);
      ghost var comps0 := components;
      components := components[i := components[i].(extra := x)];
      forall j | 0 <= j < |components|
        ensures CompOk(graph, terms, components[j], shapes[j])
      {
        assert CompOk(graph, terms, comps0[j], shapes[j]);
      }
      forall j | 0 <= j < |components|
        ensures TerminalsOk(graph, nodeOrig, components[j], shapes[j])
      {
        assert TerminalsOk(graph, nodeOrig, comps0[j], shapes[j]);
      }
    }

    lemma NodeKnown(a: AdjEntry)
      requires Valid() && a.edge in graph.edges
      ensures NodeOf(graph, a) in nodeOrig && NodeOf(graph, a) in graph.nodes
      ensures NodeOf(graph, a) in Terms(nodeOrig, isTerminal) <==> nodeOrig[NodeOf(graph, a)] in isTerminal
    {
    }
  }

  /**
   * One pop of a stack walk over the forest f: the top tree's far side is emitted
   * and its children replace it; sizes shrink and leaves add up.
   */
  lemma {:induction false} PopCount(f: seq<RTree>)
    requires f != []
    ensures var t, rest := f[|f| - 1], f[..|f| - 1];
      Visits(f) == [Twin(t.entry)] + Visits(rest + t.kids) &&
      SizeF(rest + t.kids) < SizeF(f) &&
      LeafCountF(rest + t.kids) <= LeafCountF(f) &&
      |rest| + |t.kids| <= LeafCountF(f)
  {
    var t, rest := f[|f| - 1], f[..|f| - 1];
    SizeFAppend(rest, t.kids);
    LeafCountFAppend(rest, t.kids);
    assert LeafCountF(f) == LeafCountF(rest) + LeafCount(t);
  }

  /** The popped tree and the forest left below it keep their shapes, as does what replaces it. */
  lemma {:induction false} PopShape(g: Graph, terms: set<Node>, f: seq<RTree>)
    requires f != [] && ShapeOkF(g, terms, f)
    ensures var t, rest := f[|f| - 1], f[..|f| - 1];
      ShapeOk(g, terms, t) && ShapeOkF(g, terms, rest) &&
      ShapeOkF(g, terms, rest + t.kids) &&
      Entries(f) == Entries(rest) + [t.entry] &&
      Entries(rest + t.kids) == Entries(rest) + Entries(t.kids)
  {
    var t, rest := f[|f| - 1], f[..|f| - 1];
    ShapeOkFSplit(g, terms, f);
    ShapeOkFAppend(g, terms, rest, t.kids);
    SplitLast(f);
    EntriesAppend(rest, [t]);
    assert Entries([t]) == [t.entry];
    EntriesAppend(rest, t.kids);
  }
}
