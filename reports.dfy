/**
 * What the callbacks of foreachNode and foreachEdge receive: originals of store
 * nodes, and the chains and paths the shortest-path predecessor matrix gives
 * between them.  The store's methods compute these through the loops below.
 */
module Reports {
  import opened Graphs
  import opened Shapes
  import opened ComponentCopies
  import opened StoreInvariants
  import opened Walks
  import opened ShortestPaths

  /** Entries that are live and whose two ends have originals. */
  ghost predicate Known(g: Graph, nodeOrig: map<Node, ONode>, s: seq<AdjEntry>)
  {
    forall a :: a in s ==> a.edge in g.edges && NodeOf(g, a) in nodeOrig && TwinNode(g, a) in nodeOrig
  }

  /** original(a->theNode()) for an entry of the store's graph; 0 for an entry that is not live. */
  function OrigOf(g: Graph, nodeOrig: map<Node, ONode>, a: AdjEntry): ONode
  {
    if a.edge in g.edges && NodeOf(g, a) in nodeOrig then nodeOrig[NodeOf(g, a)] else 0
  }

  function OrigsOf(g: Graph, nodeOrig: map<Node, ONode>, s: seq<AdjEntry>): (r: seq<ONode>)
    ensures |r| == |s| && forall i :: 0 <= i < |s| ==> r[i] == OrigOf(g, nodeOrig, s[i])
  {
    seq(|s|, i requires 0 <= i < |s| => OrigOf(g, nodeOrig, s[i]))
  }

  /** Per entry back of s, the predecessor chain of edges from back's node towards its twin's. */
  ghost function ChainsEdges(pred: PredMatrix, rank: map<(ONode, ONode), nat>, g: Graph, nodeOrig: map<Node, ONode>,
                             s: seq<AdjEntry>): seq<OEdge>
    requires Ranked(pred, rank)
  {
    if s == [] then []
    else
      var back := s[|s| - 1];
      ChainsEdges(pred, rank, g, nodeOrig, s[..|s| - 1]) +
        ChainEdges(pred, rank, OrigOf(g, nodeOrig, Twin(back)), OrigOf(g, nodeOrig, back))
  }

  /** Per entry back of s, the nodes of the same chain. */
  ghost function ChainsNodes(pred: PredMatrix, rank: map<(ONode, ONode), nat>, g: Graph, nodeOrig: map<Node, ONode>,
                             s: seq<AdjEntry>): seq<ONode>
    requires Ranked(pred, rank)
  {
    if s == [] then []
    else
      var back := s[|s| - 1];
      ChainsNodes(pred, rank, g, nodeOrig, s[..|s| - 1]) +
        ChainNodes(pred, rank, OrigOf(g, nodeOrig, Twin(back)), OrigOf(g, nodeOrig, back))
  }

  /** From c, pred leads to the original at the far end of every entry of s. */
  ghost predicate AllReach(pred: PredMatrix, rank: map<(ONode, ONode), nat>, g: Graph, nodeOrig: map<Node, ONode>,
                           s: seq<AdjEntry>, c: ONode)
    requires Ranked(pred, rank)
  {
    forall a :: a in s ==> Reaches(pred, rank, OrigOf(g, nodeOrig, Twin(a)), c)
  }

  /** Per entry adj of s, the path from c to the original at adj's far end. */
  ghost function PathsTo(pred: PredMatrix, rank: map<(ONode, ONode), nat>, g: Graph, nodeOrig: map<Node, ONode>,
                         s: seq<AdjEntry>, c: ONode): seq<ONode>
    requires Ranked(pred, rank) && AllReach(pred, rank, g, nodeOrig, s, c)
  {
    if s == [] then []
    else
      assert s[|s| - 1] in s;
      PathsTo(pred, rank, g, nodeOrig, s[..|s| - 1], c) + PathTo(pred, rank, OrigOf(g, nodeOrig, Twin(s[|s| - 1])), c)
  }

  /** The originals of the nodes the entries of s sit at. */
  method OriginalsAlong(g: Graph, nodeOrig: map<Node, ONode>, s: seq<AdjEntry>) returns (r: seq<ONode>)
    requires Known(g, nodeOrig, s)
    ensures r == OrigsOf(g, nodeOrig, s)
  {
    r := [];
    var j := 0;
    while j < |s|
      invariant 0 <= j <= |s|
      invariant r == OrigsOf(g, nodeOrig, s[..j])
    {
      assert s[j] in s;
      assert OrigsOf(g, nodeOrig, s[..j + 1]) == OrigsOf(g, nodeOrig, s[..j]) + [OrigOf(g, nodeOrig, s[j])];
      r := r + [nodeOrig[NodeOf(g, s[j])]];
      j := j + 1;
    }
    assert s[..j] == s;
  }

  /** The loop of foreachEdge over the visited entries s. */
  method EdgesAlong(g: Graph, nodeOrig: map<Node, ONode>, pred: PredMatrix, ghost rank: map<(ONode, ONode), nat>,
                    s: seq<AdjEntry>) returns (edges: seq<OEdge>)
    requires Known(g, nodeOrig, s) && Ranked(pred, rank)
    ensures edges == ChainsEdges(pred, rank, g, nodeOrig, s)
  {
    edges := [];
    var j := 0;
    while j < |s|
      invariant 0 <= j <= |s|
      invariant edges == ChainsEdges(pred, rank, g, nodeOrig, s[..j])
    {
      var back := s[j];
      assert back in s;
      var path := WalkEdges(pred, rank, nodeOrig[TwinNode(g, back)], nodeOrig[NodeOf(g, back)]);
      assert s[..j + 1][..j] == s[..j];
      edges := edges + path;
      j := j + 1;
    }
    assert s[..j] == s;
  }

  /** The loop of foreachNode(id, pred, f) over the visited entries s. */
  method NodesAlong(g: Graph, nodeOrig: map<Node, ONode>, pred: PredMatrix, ghost rank: map<(ONode, ONode), nat>,
                    s: seq<AdjEntry>) returns (nodes: seq<ONode>)
    requires Known(g, nodeOrig, s) && Ranked(pred, rank)
    ensures nodes == ChainsNodes(pred, rank, g, nodeOrig, s)
  {
    nodes := [];
    var j := 0;
    while j < |s|
      invariant 0 <= j <= |s|
      invariant nodes == ChainsNodes(pred, rank, g, nodeOrig, s[..j])
    {
      var back := s[j];
      assert back in s;
      var path := WalkNodes(pred, rank, nodeOrig[TwinNode(g, back)], nodeOrig[NodeOf(g, back)]);
      assert s[..j + 1][..j] == s[..j];
      nodes := nodes + path;
      j := j + 1;
    }
    assert s[..j] == s;
  }

  /** The three-terminal case: for every entry adj at c, walk from c to the far end of adj. */
  method PathsToAll(g: Graph, nodeOrig: map<Node, ONode>, pred: PredMatrix, ghost rank: map<(ONode, ONode), nat>,
                    s: seq<AdjEntry>, c: ONode) returns (nodes: seq<ONode>)
    requires Known(g, nodeOrig, s) && Ranked(pred, rank) && AllReach(pred, rank, g, nodeOrig, s, c)
    ensures nodes == PathsTo(pred, rank, g, nodeOrig, s, c)
  {
    nodes := [];
    var j := 0;
    while j < |s|
      invariant 0 <= j <= |s|
      invariant AllReach(pred, rank, g, nodeOrig, s[..j], c)
      invariant nodes == PathsTo(pred, rank, g, nodeOrig, s[..j], c)
    {
      assert s[j] in s;
      var path := WalkTo(pred, rank, nodeOrig[TwinNode(g, s[j])], c);
      assert s[..j + 1][..j] == s[..j];
      nodes := nodes + path;
      j := j + 1;
    }
    assert s[..j] == s;
  }

  /**
   * The nodes a walk over t reports are terminals or Steiner nodes of t, and every
   * Steiner node of t is reported.
   */
  lemma {:induction false} NodesMet(g: Graph, nodeOrig: map<Node, ONode>, isTerminal: set<ONode>, t: RTree)
    requires Wf(g) && ShapeOk(g, Terms(nodeOrig, isTerminal), t) && Known(g, nodeOrig, Visits([t]))
    requires forall v :: v in g.nodes ==> v in nodeOrig
    ensures InnerNodes(g, t) <= nodeOrig.Keys
    ensures forall x :: x in InnerNodes(g, t) && x in nodeOrig ==> nodeOrig[x] in OrigsOf(g, nodeOrig, Visits([t]))
    ensures forall o :: o in OrigsOf(g, nodeOrig, Visits([t])) ==>
      o in isTerminal || exists x :: x in InnerNodes(g, t) && x in nodeOrig && nodeOrig[x] == o
  {
    var terms := Terms(nodeOrig, isTerminal);
    var visits := Visits([t]);
    var r := OrigsOf(g, nodeOrig, visits);
    VisitsCover(g, terms, t);
    InnerNodesLive(g, terms, t);
    forall x | x in InnerNodes(g, t) && x in nodeOrig
      ensures nodeOrig[x] in r
    {
      var a :| a in visits && a.edge in g.edges && NodeOf(g, a) == x;
      var i :| 0 <= i < |visits| && visits[i] == a;
      assert r[i] == nodeOrig[x];
    }
    forall o | o in r
      ensures o in isTerminal || exists x :: x in InnerNodes(g, t) && x in nodeOrig && nodeOrig[x] == o
    {
      var i :| 0 <= i < |r| && r[i] == o;
      assert visits[i] in visits;
    }
  }
}
