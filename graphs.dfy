/**
 * The weighted graph the full-component store keeps (OGDF's EdgeWeightedGraph),
 * modelled as a value.  Nodes and edges are ids handed out by counters that are
 * never reused; an edge is a record (source, target, weight).  Adjacency lists are
 * derived: the entries of a node are those of its incident edges in increasing edge
 * id, the source end of an edge before its target end.  This is the order OGDF
 * keeps, because a new edge is appended to the adjacency lists of both its ends and
 * deleting an edge leaves the order of the others alone.
 */
module Graphs {
  type Node = nat
  type EdgeId = nat

  datatype Edge = Edge(src: Node, tgt: Node, weight: int)

  /** An edge seen from one of its ends: the source end (adjSource) or the target end. */
  datatype AdjEntry = AdjEntry(edge: EdgeId, atSource: bool)

  /**
   * nodes: the live nodes; edges: the live edges by id;
   * nodeIds, edgeIds: the next id the graph hands out.
   */
  datatype Graph = Graph(nodes: set<Node>, edges: map<EdgeId, Edge>, nodeIds: nat, edgeIds: nat)

  /** Ids below the counters, edge ends are live nodes and no edge is a self-loop. */
  ghost predicate Wf(g: Graph)
  {
    (forall v :: v in g.nodes ==> v < g.nodeIds) &&
    (forall id :: id in g.edges ==>
      id < g.edgeIds && g.edges[id].src in g.nodes && g.edges[id].tgt in g.nodes &&
      g.edges[id].src != g.edges[id].tgt)
  }

  function EmptyGraph(): (g: Graph)
    ensures Wf(g) && g.nodes == {} && g.edges == map[]
  {
    Graph({}, map[], 0, 0)
  }

  /** newNode: a fresh node, nothing else changes. */
  function NewNode(g: Graph): (r: (Graph, Node))
    ensures Wf(g) ==> Wf(r.0) && r.1 !in g.nodes
    ensures r.0.nodes == g.nodes + {r.1} && r.0.edges == g.edges && r.0.edgeIds == g.edgeIds
    ensures r.0.nodeIds == r.1 + 1 && r.1 == g.nodeIds
  {
    (g.(nodes := g.nodes + {g.nodeIds}, nodeIds := g.nodeIds + 1), g.nodeIds)
  }

  /** newEdge(u, v, w): a fresh edge from u to v of weight w. */
  function NewEdge(g: Graph, u: Node, v: Node, w: int): (r: (Graph, EdgeId))
    ensures Wf(g) && u in g.nodes && v in g.nodes && u != v ==> Wf(r.0) && r.1 !in g.edges
    ensures r.0.edges == g.edges[r.1 := Edge(u, v, w)] && r.0.nodes == g.nodes && r.0.nodeIds == g.nodeIds
    ensures r.1 == g.edgeIds && r.0.edgeIds == r.1 + 1
  {
    (g.(edges := g.edges[g.edgeIds := Edge(u, v, w)], edgeIds := g.edgeIds + 1), g.edgeIds)
  }

  /** delEdge: the edge disappears, nothing else changes. */
  function DelEdge(g: Graph, id: EdgeId): (r: Graph)
    ensures Wf(g) ==> Wf(r)
    ensures r.edges == g.edges - {id} && r.nodes == g.nodes
    ensures r.nodeIds == g.nodeIds && r.edgeIds == g.edgeIds
  {
    g.(edges := g.edges - {id})
  }

  predicate Touches(e: Edge, v: Node)
  {
    e.src == v || e.tgt == v
  }

  /** delNode: the node disappears together with every edge incident to it. */
  function DelNode(g: Graph, v: Node): (r: Graph)
    ensures Wf(g) ==> Wf(r)
    ensures r.nodes == g.nodes - {v} && r.nodeIds == g.nodeIds && r.edgeIds == g.edgeIds
    ensures forall id :: id in r.edges <==> id in g.edges && !Touches(g.edges[id], v)
    ensures forall id :: id in r.edges ==> r.edges[id] == g.edges[id]
  {
    g.(nodes := g.nodes - {v}, edges := map id | id in g.edges && !Touches(g.edges[id], v) :: g.edges[id])
  }

  function End(e: Edge, atSource: bool): Node
  {
    if atSource then e.src else e.tgt
  }

  /** theNode(): the node an adjacency entry sits at. */
  function NodeOf(g: Graph, a: AdjEntry): Node
    requires a.edge in g.edges
  {
    End(g.edges[a.edge], a.atSource)
  }

  /** twin(): the entry at the other end of the same edge. */
  function Twin(a: AdjEntry): AdjEntry
  {
    AdjEntry(a.edge, !a.atSource)
  }

  /** twinNode(): the node at the other end. */
  function TwinNode(g: Graph, a: AdjEntry): Node
    requires a.edge in g.edges
  {
    NodeOf(g, Twin(a))
  }

  /** opposite(v): the other end of an edge. */
  function Opposite(e: Edge, v: Node): Node
  {
    if v == e.src then e.tgt else e.src
  }

  function EntriesAt(id: EdgeId, e: Edge, v: Node): seq<AdjEntry>
  {
    (if e.src == v then [AdjEntry(id, true)] else []) + (if e.tgt == v then [AdjEntry(id, false)] else [])
  }

  /** What edge id contributes to the adjacency list of v. */
  function Contribution(edges: map<EdgeId, Edge>, v: Node, id: EdgeId): seq<AdjEntry>
  {
    if id in edges then EntriesAt(id, edges[id], v) else []
  }

  /** The adjacency list of v restricted to edge ids below n. */
  function AdjUpTo(edges: map<EdgeId, Edge>, v: Node, n: nat): seq<AdjEntry>
  {
    if n == 0 then [] else AdjUpTo(edges, v, n - 1) + Contribution(edges, v, n - 1)
  }

  /** v->adjEntries. */
  function Adj(g: Graph, v: Node): seq<AdjEntry>
  {
    AdjUpTo(g.edges, v, g.edgeIds)
  }

  ghost predicate NoDup<T>(s: seq<T>)
  {
    forall i, j :: 0 <= i < j < |s| ==> s[i] != s[j]
  }

  ghost predicate IncreasingEdges(s: seq<AdjEntry>)
  {
    forall i, j :: 0 <= i < j < |s| ==> s[i].edge < s[j].edge
  }

  /** The position of x in s (the first one). */
  function IndexOf<T(==)>(s: seq<T>, x: T): (r: nat)
    requires x in s
    ensures r < |s| && s[r] == x && x !in s[..r]
  {
    if s[0] == x then 0 else
      var r := 1 + IndexOf(s[1..], x);
      assert s[..r] == [s[0]] + s[1..][..r - 1];
      r
  }

  /** cyclicSucc(): the next entry around the node, wrapping to the first. */
  function CyclicSucc(g: Graph, a: AdjEntry): AdjEntry
    requires a.edge in g.edges && a in Adj(g, NodeOf(g, a))
  {
    var s := Adj(g, NodeOf(g, a));
    s[(IndexOf(s, a) + 1) % |s|]
  }

  /** The entries met when going once around position k of s, k itself excluded. */
  function Rotation<T>(s: seq<T>, k: nat): seq<T>
    requires k < |s|
  {
    s[k + 1..] + s[..k]
  }

  /** The other entries of the node of a in the order cyclicSucc visits them from a. */
  ghost function CyclicOthers(g: Graph, a: AdjEntry): seq<AdjEntry>
    requires a.edge in g.edges && a in Adj(g, NodeOf(g, a))
  {
    var s := Adj(g, NodeOf(g, a));
    Rotation(s, IndexOf(s, a))
  }

  /** Keeps the entries of s whose edge is in keep. */
  function KeepEdges(s: seq<AdjEntry>, keep: set<EdgeId>): seq<AdjEntry>
  {
    if s == [] then [] else
      KeepEdges(s[..|s| - 1], keep) + (if s[|s| - 1].edge in keep then [s[|s| - 1]] else [])
  }

  // ---------------------------------------------------------------------------
  // Adjacency lists

  /** An entry is in the adjacency list of v exactly when its edge is live and v is its end. */
  lemma {:induction false} AdjUpToSpec(edges: map<EdgeId, Edge>, v: Node, n: nat)
    ensures forall a :: a in AdjUpTo(edges, v, n) <==>
      a.edge < n && a.edge in edges && End(edges[a.edge], a.atSource) == v
  {
    if n > 0 {
      AdjUpToSpec(edges, v, n - 1);
    }
  }

  lemma {:induction false} AdjSpec(g: Graph, v: Node)
    requires Wf(g)
    ensures forall a :: a in Adj(g, v) <==> a.edge in g.edges && NodeOf(g, a) == v
  {
    AdjUpToSpec(g.edges, v, g.edgeIds);
  }

  /** Without self-loops an adjacency list has strictly increasing edge ids. */
  lemma {:induction false} AdjUpToIncreasing(edges: map<EdgeId, Edge>, v: Node, n: nat)
    requires forall id :: id in edges ==> edges[id].src != edges[id].tgt
    ensures IncreasingEdges(AdjUpTo(edges, v, n))
    ensures forall a :: a in AdjUpTo(edges, v, n) ==> a.edge < n
  {
    if n > 0 {
      AdjUpToIncreasing(edges, v, n - 1);
      AdjUpToSpec(edges, v, n - 1);
      var p := AdjUpTo(edges, v, n - 1);
      var c := Contribution(edges, v, n - 1);
      assert |c| <= 1;
      assert forall i :: 0 <= i < |p| ==> p[i] in p;
      assert forall i :: 0 <= i < |c| ==> c[i].edge == n - 1;
    }
  }

  lemma {:induction false} IncreasingNoDup(s: seq<AdjEntry>)
    requires IncreasingEdges(s)
    ensures NoDup(s)
  {
  }

  lemma {:induction false} AdjIncreasing(g: Graph, v: Node)
    requires Wf(g)
    ensures IncreasingEdges(Adj(g, v)) && NoDup(Adj(g, v))
  {
    AdjUpToIncreasing(g.edges, v, g.edgeIds);
  }

  /** Adjacency lists depend only on what the edges contribute at that node. */
  lemma {:induction false} AdjUpToFrame(e1: map<EdgeId, Edge>, e2: map<EdgeId, Edge>, v: Node, n: nat)
    requires forall id: nat :: id < n ==> Contribution(e1, v, id) == Contribution(e2, v, id)
    ensures AdjUpTo(e1, v, n) == AdjUpTo(e2, v, n)
  {
    if n > 0 {
      AdjUpToFrame(e1, e2, v, n - 1);
    }
  }

  /** Ids between n and m that are not live do not change an adjacency list. */
  lemma {:induction false} AdjUpToExtend(edges: map<EdgeId, Edge>, v: Node, n: nat, m: nat)
    requires n <= m
    requires forall id: nat :: n <= id < m ==> Contribution(edges, v, id) == []
    ensures AdjUpTo(edges, v, m) == AdjUpTo(edges, v, n)
  {
    if n < m {
      AdjUpToExtend(edges, v, n, m - 1);
    }
  }

  lemma {:induction false} KeepEdgesAppend(s: seq<AdjEntry>, t: seq<AdjEntry>, keep: set<EdgeId>)
    ensures KeepEdges(s + t, keep) == KeepEdges(s, keep) + KeepEdges(t, keep)
    decreases |t|
  {
    if t != [] {
      assert (s + t)[..|s + t| - 1] == s + t[..|t| - 1];
      KeepEdgesAppend(s, t[..|t| - 1], keep);
    } else {
      assert s + t == s;
    }
  }

  /** Deleting edges filters every adjacency list and keeps its order. */
  lemma {:induction false} AdjUpToSubgraph(e1: map<EdgeId, Edge>, e2: map<EdgeId, Edge>, v: Node, n: nat)
    requires forall id :: id in e2 ==> id in e1 && e2[id] == e1[id]
    ensures AdjUpTo(e2, v, n) == KeepEdges(AdjUpTo(e1, v, n), e2.Keys)
  {
    if n > 0 {
      var p := AdjUpTo(e1, v, n - 1);
      var c := Contribution(e1, v, n - 1);
      AdjUpToSubgraph(e1, e2, v, n - 1);
      assert AdjUpTo(e1, v, n) == p + c;
      assert AdjUpTo(e2, v, n) == AdjUpTo(e2, v, n - 1) + Contribution(e2, v, n - 1);
      KeepEdgesAppend(p, c, e2.Keys);
      ContributionEdges(e1, v, n - 1);
      if n - 1 in e2 {
        KeepAllIn(c, e2.Keys);
        assert e2[n - 1] == e1[n - 1];
        assert Contribution(e2, v, n - 1) == c;
      } else {
        KeepNone(c, e2.Keys);
        assert Contribution(e2, v, n - 1) == [];
      }
    }
  }

  lemma {:induction false} ContributionEdges(edges: map<EdgeId, Edge>, v: Node, id: EdgeId)
    ensures forall i :: 0 <= i < |Contribution(edges, v, id)| ==> Contribution(edges, v, id)[i].edge == id
  {
  }

  lemma {:induction false} AdjSubgraph(g1: Graph, g2: Graph, v: Node)
    requires forall id :: id in g2.edges ==> id in g1.edges && g2.edges[id] == g1.edges[id]
    requires g1.edgeIds == g2.edgeIds
    ensures Adj(g2, v) == KeepEdges(Adj(g1, v), g2.edges.Keys)
  {
    AdjUpToSubgraph(g1.edges, g2.edges, v, g1.edgeIds);
  }

  /** Filtering out exactly the edge of position k removes that position only. */
  lemma {:induction false} KeepAllButOne(s: seq<AdjEntry>, k: nat, keep: set<EdgeId>)
    requires k < |s| && s[k].edge !in keep
    requires forall i :: 0 <= i < |s| && i != k ==> s[i].edge in keep
    ensures KeepEdges(s, keep) == s[..k] + s[k + 1..]
  {
    KeepAllIn(s[..k], keep);
    KeepAllIn(s[k + 1..], keep);
    assert s == s[..k] + [s[k]] + s[k + 1..];
    KeepEdgesAppend(s[..k] + [s[k]], s[k + 1..], keep);
    KeepEdgesAppend(s[..k], [s[k]], keep);
    assert KeepEdges([s[k]], keep) == [] by {
      assert [s[k]][..0] == [];
    }
  }

  lemma {:induction false} KeepAllIn(s: seq<AdjEntry>, keep: set<EdgeId>)
    requires forall i :: 0 <= i < |s| ==> s[i].edge in keep
    ensures KeepEdges(s, keep) == s
  {
    if s != [] {
      KeepAllIn(s[..|s| - 1], keep);
    }
  }

  lemma {:induction false} KeepNone(s: seq<AdjEntry>, keep: set<EdgeId>)
    requires forall i :: 0 <= i < |s| ==> s[i].edge !in keep
    ensures KeepEdges(s, keep) == []
  {
    if s != [] {
      KeepNone(s[..|s| - 1], keep);
    }
  }

  /** Going round the node from position i one step. */
  lemma {:induction false} CyclicSuccAt(g: Graph, v: Node, i: nat)
    requires Wf(g) && i < |Adj(g, v)|
    ensures Adj(g, v)[i].edge in g.edges && NodeOf(g, Adj(g, v)[i]) == v
    ensures CyclicSucc(g, Adj(g, v)[i]) == Adj(g, v)[(i + 1) % |Adj(g, v)|]
  {
    var s := Adj(g, v);
    AdjSpec(g, v);
    assert s[i] in s;
    AdjIncreasing(g, v);
    var k := IndexOf(s, s[i]);
    assert k == i;
  }

  /** The t-th step around the node from position k, for 1 <= t < |s|. */
  lemma {:induction false} RotationAt<T>(s: seq<T>, k: nat, t: nat)
    requires k < |s| && 1 <= t < |s|
    ensures Rotation(s, k)[t - 1] == s[(k + t) % |s|]
  {
    var n, r := |s|, Rotation(s, k);
    if k + t < n {
      assert r[t - 1] == s[k + 1..][t - 1];
      ModBelow(k + t, n);
    } else {
      assert r[t - 1] == s[..k][t - 1 - (n - k - 1)];
      ModWrap(k + t, n);
    }
  }

  lemma {:induction false} ModBelow(x: nat, n: nat)
    requires x < n
    ensures x % n == x
  {
  }

  lemma {:induction false} ModWrap(x: nat, n: nat)
    requires 0 < n <= x < 2 * n
    ensures x % n == x - n
  {
  }

  /** cyclicSucc from a first meets the other entries of its node, or a itself when there are none. */
  lemma {:induction false} CyclicStart(g: Graph, a: AdjEntry)
    requires Wf(g) && a.edge in g.edges && a in Adj(g, NodeOf(g, a))
    ensures |CyclicOthers(g, a)| == |Adj(g, NodeOf(g, a))| - 1 && a !in CyclicOthers(g, a)
    ensures CyclicSucc(g, a) == if CyclicOthers(g, a) == [] then a else CyclicOthers(g, a)[0]
  {
    var x := NodeOf(g, a);
    var s := Adj(g, x);
    var k := IndexOf(s, a);
    AdjIncreasing(g, x);
    RotationNoDup(s, k);
    assert |Rotation(s, k)| == |s| - 1;
    if |s| > 1 {
      RotationAt(s, k, 1);
    } else {
      assert (k + 1) % |s| == k;
    }
  }

  /** cyclicSucc moves from the t-th of the other entries to the next one, and back to a after the last. */
  lemma {:induction false} CyclicNext(g: Graph, a: AdjEntry, t: nat)
    requires Wf(g) && a.edge in g.edges && a in Adj(g, NodeOf(g, a))
    requires t < |Adj(g, NodeOf(g, a))| - 1
    ensures var r := CyclicOthers(g, a);
      |r| == |Adj(g, NodeOf(g, a))| - 1 &&
      r[t].edge in g.edges && NodeOf(g, r[t]) == NodeOf(g, a) && r[t] in Adj(g, NodeOf(g, r[t])) &&
      CyclicSucc(g, r[t]) == if t + 1 < |r| then r[t + 1] else a
  {
    var x := NodeOf(g, a);
    var s := Adj(g, x);
    var k := IndexOf(s, a);
    var r := Rotation(s, k);
    var n := |s|;
    var j := if k + 1 + t < n then k + 1 + t else k + 1 + t - n;
    assert r[t] == s[j];
    CyclicSuccAt(g, x, j);
    var j' := if j + 1 < n then j + 1 else 0;
    ModStep(j, n);
    if t + 1 < |r| {
      assert r[t + 1] == s[j'];
    } else {
      assert j' == k;
    }
  }

  lemma {:induction false} RotationNoDup<T>(s: seq<T>, k: nat)
    requires k < |s| && NoDup(s)
    ensures s[k] !in Rotation(s, k)
  {
    forall i | 0 <= i < |Rotation(s, k)|
      ensures Rotation(s, k)[i] != s[k]
    {
      if i < |s| - k - 1 {
        assert Rotation(s, k)[i] == s[k + 1 + i];
      } else {
        assert Rotation(s, k)[i] == s[i - (|s| - k - 1)];
      }
    }
  }

  lemma {:induction false} ModStep(j: nat, n: nat)
    requires j < n
    ensures (j + 1) % n == if j + 1 < n then j + 1 else 0
  {
    if j + 1 == n {
      assert (j + 1) % n == n % n;
    }
  }

  lemma {:induction false} AdjAt(g: Graph, v: Node, n: nat)
    requires g.edgeIds == n
    ensures Adj(g, v) == AdjUpTo(g.edges, v, n)
  {
  }
}
