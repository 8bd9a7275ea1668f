/**
 * The shape of a full component inside the store's graph, as a ghost rooted tree.
 * A tree hangs from an adjacency entry `entry` that sits at its parent's node; the
 * node of the tree itself is the other end of that edge.  A tree whose node is a
 * terminal is a leaf; the node of any other tree is a Steiner node, and its
 * children are hung from the other entries of that node in the order cyclicSucc
 * meets them, starting after the entry back to the parent.  This is exactly the
 * structure the stack walks of foreachAdjEntry and remove traverse.
 */
module Shapes {
  import opened Graphs

  datatype RTree = RTree(entry: AdjEntry, kids: seq<RTree>)

  function Size(t: RTree): nat
    decreases t, 1
  {
    1 + SizeF(t.kids)
  }

  function SizeF(f: seq<RTree>): nat
    decreases f, 0
  {
    if f == [] then 0 else SizeF(f[..|f| - 1]) + Size(f[|f| - 1])
  }

  /** The entries the trees of a forest hang from (what a stack of them holds). */
  function Entries(f: seq<RTree>): (r: seq<AdjEntry>)
    ensures |r| == |f| && forall i :: 0 <= i < |f| ==> r[i] == f[i].entry
  {
    seq(|f|, i requires 0 <= i < |f| => f[i].entry)
  }

  /** Every entry of every tree of a forest, each tree's own entry before those below it. */
  function AllEntries(t: RTree): seq<AdjEntry>
    decreases t, 1
  {
    [t.entry] + AllEntriesF(t.kids)
  }

  function AllEntriesF(f: seq<RTree>): seq<AdjEntry>
    decreases f, 0
  {
    if f == [] then [] else AllEntriesF(f[..|f| - 1]) + AllEntries(f[|f| - 1])
  }

  function EdgesOf(s: seq<AdjEntry>): (r: seq<EdgeId>)
    ensures |r| == |s| && forall i :: 0 <= i < |s| ==> r[i] == s[i].edge
  {
    seq(|s|, i requires 0 <= i < |s| => s[i].edge)
  }

  function Twins(s: seq<AdjEntry>): (r: seq<AdjEntry>)
    ensures |r| == |s| && forall i :: 0 <= i < |s| ==> r[i] == Twin(s[i])
  {
    seq(|s|, i requires 0 <= i < |s| => Twin(s[i]))
  }

  /** The edges of a component, one per tree of its shape. */
  function EdgeSeq(t: RTree): seq<EdgeId>
  {
    EdgesOf(AllEntries(t))
  }

  /** A leaf counts for one terminal; a Steiner node contributes its children's leaves. */
  function LeafCount(t: RTree): (r: nat)
    ensures r >= 1
    decreases t, 1
  {
    if t.kids == [] then 1 else LeafCountF(t.kids)
  }

  function LeafCountF(f: seq<RTree>): (r: nat)
    ensures r >= |f|
    decreases f, 0
  {
    if f == [] then 0 else LeafCountF(f[..|f| - 1]) + LeafCount(f[|f| - 1])
  }

  /**
   * The sequence of entries a stack walk emits when the stack holds the entries of f
   * (top last): pop the top tree, emit the entry at its node facing back to the
   * parent, push its children.
   */
  function Visits(f: seq<RTree>): seq<AdjEntry>
    decreases SizeF(f)
  {
    if f == [] then [] else
      var t := f[|f| - 1];
      SizeFAppend(f[..|f| - 1], t.kids);
      assert SizeF(f) == SizeF(f[..|f| - 1]) + 1 + SizeF(t.kids);
      [Twin(t.entry)] + Visits(f[..|f| - 1] + t.kids)
  }

  /** The node a tree hangs to, i.e. the far end of its entry. */
  function Lower(g: Graph, a: AdjEntry): Node
  {
    if a.edge in g.edges then TwinNode(g, a) else 0
  }

  /** The Steiner nodes of a tree: the nodes of its inner subtrees. */
  function InnerNodes(g: Graph, t: RTree): set<Node>
    decreases t, 1
  {
    if t.kids == [] then {} else {Lower(g, t.entry)} + InnerNodesF(g, t.kids)
  }

  function InnerNodesF(g: Graph, f: seq<RTree>): set<Node>
    decreases f, 0
  {
    if f == [] then {} else InnerNodesF(g, f[..|f| - 1]) + InnerNodes(g, f[|f| - 1])
  }

  /** The terminals a tree reaches: the nodes of its leaves. */
  function LeafNodes(g: Graph, t: RTree): set<Node>
    decreases t, 1
  {
    if t.kids == [] then {Lower(g, t.entry)} else LeafNodesF(g, t.kids)
  }

  function LeafNodesF(g: Graph, f: seq<RTree>): set<Node>
    decreases f, 0
  {
    if f == [] then {} else LeafNodesF(g, f[..|f| - 1]) + LeafNodes(g, f[|f| - 1])
  }

  /** The node an entry sits at, i.e. the near end of its edge. */
  function Upper(g: Graph, a: AdjEntry): Node
  {
    if a.edge in g.edges then NodeOf(g, a) else 0
  }

  /** The terminal nodes of a full component: the node its start entry sits at and its leaves. */
  function CompTerms(g: Graph, t: RTree): set<Node>
  {
    {Upper(g, t.entry)} + LeafNodes(g, t)
  }

  /** The nodes the trees of a forest hang to (what remove's node stack holds). */
  function Lowers(g: Graph, f: seq<RTree>): (r: seq<Node>)
    ensures |r| == |f| && forall i :: 0 <= i < |f| ==> r[i] == Lower(g, f[i].entry)
  {
    seq(|f|, i requires 0 <= i < |f| => Lower(g, f[i].entry))
  }

  /**
   * t is the full-component tree below its entry in g: leaves exactly at terminal
   * nodes, and every Steiner node has at least two children, hung from its other
   * entries in cyclic order after the entry back to the parent.
   */
  ghost predicate ShapeOk(g: Graph, terms: set<Node>, t: RTree)
    decreases t, 1
  {
    t.entry.edge in g.edges &&
    var x := TwinNode(g, t.entry);
    if x in terms then t.kids == []
    else
      Twin(t.entry) in Adj(g, x) && |t.kids| >= 2 &&
      Entries(t.kids) == CyclicOthers(g, Twin(t.entry)) &&
      ShapeOkF(g, terms, t.kids)
  }

  ghost predicate ShapeOkF(g: Graph, terms: set<Node>, f: seq<RTree>)
    decreases f, 0
  {
    forall i :: 0 <= i < |f| ==> ShapeOk(g, terms, f[i])
  }

  // ---------------------------------------------------------------------------
  // Forest bookkeeping

  lemma {:induction false} SizeFAppend(a: seq<RTree>, b: seq<RTree>)
    ensures SizeF(a + b) == SizeF(a) + SizeF(b)
    decreases |b|
  {
    if b != [] {
      assert (a + b)[..|a + b| - 1] == a + b[..|b| - 1];
      SizeFAppend(a, b[..|b| - 1]);
    } else {
      assert a + b == a;
    }
  }

  lemma {:induction false} AllEntriesFAppend(a: seq<RTree>, b: seq<RTree>)
    ensures AllEntriesF(a + b) == AllEntriesF(a) + AllEntriesF(b)
    decreases |b|
  {
    if b != [] {
      assert (a + b)[..|a + b| - 1] == a + b[..|b| - 1];
      AllEntriesFAppend(a, b[..|b| - 1]);
    } else {
      assert a + b == a;
    }
  }

  lemma {:induction false} LeafCountFAppend(a: seq<RTree>, b: seq<RTree>)
    ensures LeafCountF(a + b) == LeafCountF(a) + LeafCountF(b)
    decreases |b|
  {
    if b != [] {
      assert (a + b)[..|a + b| - 1] == a + b[..|b| - 1];
      LeafCountFAppend(a, b[..|b| - 1]);
    } else {
      assert a + b == a;
    }
  }

  lemma {:induction false} InnerNodesFAppend(g: Graph, a: seq<RTree>, b: seq<RTree>)
    ensures InnerNodesF(g, a + b) == InnerNodesF(g, a) + InnerNodesF(g, b)
    decreases |b|
  {
    if b != [] {
      assert (a + b)[..|a + b| - 1] == a + b[..|b| - 1];
      InnerNodesFAppend(g, a, b[..|b| - 1]);
    } else {
      assert a + b == a;
    }
  }

  lemma {:induction false} ShapeOkFAppend(g: Graph, terms: set<Node>, a: seq<RTree>, b: seq<RTree>)
    ensures ShapeOkF(g, terms, a + b) <==> ShapeOkF(g, terms, a) && ShapeOkF(g, terms, b)
  {
    if ShapeOkF(g, terms, a) && ShapeOkF(g, terms, b) {
      forall i | 0 <= i < |a + b|
        ensures ShapeOk(g, terms, (a + b)[i])
      {
        if i < |a| {
          assert (a + b)[i] == a[i];
        } else {
          assert (a + b)[i] == b[i - |a|];
        }
      }
    }
    if ShapeOkF(g, terms, a + b) {
      forall i | 0 <= i < |b|
        ensures ShapeOk(g, terms, b[i])
      {
        assert (a + b)[|a| + i] == b[i];
      }
      forall i | 0 <= i < |a|
        ensures ShapeOk(g, terms, a[i])
      {
        assert (a + b)[i] == a[i];
      }
    }
  }

  /** The entries of the i-th tree belong to those of its forest. */
  lemma {:induction false} AllEntriesFMember(f: seq<RTree>, i: nat)
    requires i < |f|
    ensures forall a :: a in AllEntries(f[i]) ==> a in AllEntriesF(f)
    ensures InnerNodesFMemberHolds(f, i)
  {
    if i < |f| - 1 {
      AllEntriesFMember(f[..|f| - 1], i);
      assert f[..|f| - 1][i] == f[i];
    }
  }

  ghost predicate InnerNodesFMemberHolds(f: seq<RTree>, i: nat)
    requires i < |f|
  {
    forall g :: InnerNodes(g, f[i]) <= InnerNodesF(g, f)
  }

  /** The stack walk emits, in some order, the far side of every entry of the forest. */
  lemma {:induction false} VisitsAreTwins(f: seq<RTree>)
    ensures multiset(Visits(f)) == multiset(Twins(AllEntriesF(f)))
    decreases SizeF(f)
  {
    if f != [] {
      var t := f[|f| - 1];
      var rest := f[..|f| - 1];
      SizeFAppend(rest, t.kids);
      assert SizeF(f) == SizeF(rest) + 1 + SizeF(t.kids);
      VisitsAreTwins(rest + t.kids);
      var a, k := AllEntriesF(rest), AllEntriesF(t.kids);
      AllEntriesFAppend(rest, t.kids);
      TwinsAppend(a, k);
      TwinsAppend(a, AllEntries(t));
      TwinsAppend([t.entry], k);
      calc {
        multiset(Visits(f));
        multiset([Twin(t.entry)] + Visits(rest + t.kids));
        multiset{Twin(t.entry)} + multiset(Twins(a + k));
        multiset{Twin(t.entry)} + multiset(Twins(a) + Twins(k));
        multiset(Twins(a) + ([Twin(t.entry)] + Twins(k)));
        { assert Twins([t.entry]) == [Twin(t.entry)];
          assert Twins(a + AllEntries(t)) == Twins(a) + ([Twin(t.entry)] + Twins(k)); }
        multiset(Twins(a + AllEntries(t)));
      }
    }
  }

  lemma {:induction false} TwinsAppend(a: seq<AdjEntry>, b: seq<AdjEntry>)
    ensures Twins(a + b) == Twins(a) + Twins(b)
  {
  }

  lemma {:induction false} EdgesOfAppend(a: seq<AdjEntry>, b: seq<AdjEntry>)
    ensures EdgesOf(a + b) == EdgesOf(a) + EdgesOf(b)
  {
  }

  lemma {:induction false} EdgesOfPrefix(s: seq<AdjEntry>, j: nat)
    requires j < |s|
    ensures EdgesOf(s[..j + 1]) == EdgesOf(s[..j]) + [s[j].edge]
  {
    assert s[..j + 1] == s[..j] + [s[j]];
    EdgesOfAppend(s[..j], [s[j]]);
  }

  lemma {:induction false} EdgesOfTwins(s: seq<AdjEntry>)
    ensures EdgesOf(Twins(s)) == EdgesOf(s)
  {
  }

  /** Finds the tree of a forest an entry comes from. */
  lemma {:induction false} AllEntriesFFind(f: seq<RTree>, a: AdjEntry) returns (i: nat)
    requires a in AllEntriesF(f)
    ensures i < |f| && a in AllEntries(f[i])
  {
    if a in AllEntries(f[|f| - 1]) {
      i := |f| - 1;
    } else {
      i := AllEntriesFFind(f[..|f| - 1], a);
      assert f[..|f| - 1][i] == f[i];
    }
  }

  /** Finds the tree of a forest a Steiner node comes from. */
  lemma {:induction false} InnerNodesFFind(g: Graph, f: seq<RTree>, x: Node) returns (i: nat)
    requires x in InnerNodesF(g, f)
    ensures i < |f| && x in InnerNodes(g, f[i])
  {
    if x in InnerNodes(g, f[|f| - 1]) {
      i := |f| - 1;
    } else {
      i := InnerNodesFFind(g, f[..|f| - 1], x);
      assert f[..|f| - 1][i] == f[i];
    }
  }

  lemma {:induction false} RotationMembers<T>(s: seq<T>, k: nat)
    requires k < |s|
    ensures forall x :: x in s <==> x == s[k] || x in Rotation(s, k)
    ensures |Rotation(s, k)| == |s| - 1
  {
    assert s == s[..k] + [s[k]] + s[k + 1..];
  }

  /**
   * At a Steiner node of a tree the adjacency list holds exactly the entry back to
   * the parent and the entries the children hang from.
   */
  lemma {:induction false} InnerAdj(g: Graph, terms: set<Node>, t: RTree)
    requires Wf(g) && ShapeOk(g, terms, t) && t.kids != []
    ensures forall a :: a in Adj(g, TwinNode(g, t.entry)) <==> a == Twin(t.entry) || a in Entries(t.kids)
    ensures Twin(t.entry) !in Entries(t.kids)
    ensures forall a :: a in Entries(t.kids) ==> a.edge in g.edges && NodeOf(g, a) == TwinNode(g, t.entry)
  {
    var x := TwinNode(g, t.entry);
    var s := Adj(g, x);
    var k := IndexOf(s, Twin(t.entry));
    RotationMembers(s, k);
    AdjIncreasing(g, x);
    RotationNoDup(s, k);
    AdjSpec(g, x);
  }

  /** The Steiner nodes of a tree are live non-terminal nodes. */
  lemma {:induction false} InnerNodesLive(g: Graph, terms: set<Node>, t: RTree)
    requires Wf(g) && ShapeOk(g, terms, t)
    ensures forall x :: x in InnerNodes(g, t) ==> x in g.nodes && x !in terms
    decreases t, 1
  {
    if t.kids != [] {
      InnerNodesLiveF(g, terms, t.kids);
    }
  }

  lemma {:induction false} InnerNodesLiveF(g: Graph, terms: set<Node>, f: seq<RTree>)
    requires Wf(g) && ShapeOkF(g, terms, f)
    ensures forall x :: x in InnerNodesF(g, f) ==> x in g.nodes && x !in terms
    decreases f, 0
  {
    if f != [] {
      InnerNodesLive(g, terms, f[|f| - 1]);
      InnerNodesLiveF(g, terms, f[..|f| - 1]);
    }
  }

  /** The leaves of a tree are terminals. */
  lemma {:induction false} LeafNodesIn(g: Graph, terms: set<Node>, t: RTree)
    requires ShapeOk(g, terms, t)
    ensures LeafNodes(g, t) <= terms
    decreases t, 1
  {
    if t.kids != [] {
      LeafNodesInF(g, terms, t.kids);
    }
  }

  lemma {:induction false} LeafNodesInF(g: Graph, terms: set<Node>, f: seq<RTree>)
    requires ShapeOkF(g, terms, f)
    ensures LeafNodesF(g, f) <= terms
    decreases f, 0
  {
    if f != [] {
      ShapeOkFSplit(g, terms, f);
      LeafNodesIn(g, terms, f[|f| - 1]);
      LeafNodesInF(g, terms, f[..|f| - 1]);
    }
  }

  /**
   * Where the edges of a tree end: at the node its root entry sits at, at its
   * Steiner nodes or at terminals.
   */
  lemma {:induction false} Endpoints(g: Graph, terms: set<Node>, t: RTree)
    requires Wf(g) && ShapeOk(g, terms, t)
    ensures forall a :: a in AllEntries(t) ==> (a.edge in g.edges &&
      (NodeOf(g, a) == NodeOf(g, t.entry) || NodeOf(g, a) in InnerNodes(g, t)) &&
      (TwinNode(g, a) in InnerNodes(g, t) || TwinNode(g, a) in terms))
    ensures forall a :: a in AllEntriesF(t.kids) ==> a.edge in g.edges && NodeOf(g, a) in InnerNodes(g, t)
    decreases t, 1
  {
    var x := TwinNode(g, t.entry);
    if t.kids != [] {
      InnerAdj(g, terms, t);
      forall a | a in AllEntriesF(t.kids)
        ensures a.edge in g.edges && NodeOf(g, a) in InnerNodes(g, t) &&
          (TwinNode(g, a) in InnerNodes(g, t) || TwinNode(g, a) in terms)
      {
        var i := AllEntriesFFind(t.kids, a);
        var k := t.kids[i];
        assert ShapeOk(g, terms, k);
        Endpoints(g, terms, k);
        AllEntriesFMember(t.kids, i);
        assert InnerNodes(g, k) <= InnerNodesF(g, t.kids);
        assert k.entry in Entries(t.kids);
      }
    }
  }

  /** Every edge at a Steiner node of a tree is an edge of the tree. */
  lemma {:induction false} InnerEdgesOwned(g: Graph, terms: set<Node>, t: RTree, x: Node)
    requires Wf(g) && ShapeOk(g, terms, t) && x in InnerNodes(g, t)
    ensures forall a :: a in Adj(g, x) ==> a.edge in EdgeSeq(t)
    decreases t
  {
    if x == TwinNode(g, t.entry) {
      InnerAdj(g, terms, t);
      forall a | a in Adj(g, x)
        ensures a.edge in EdgeSeq(t)
      {
        RootOrKidEdge(t, a);
      }
    } else {
      var i := InnerNodesFFind(g, t.kids, x);
      assert ShapeOk(g, terms, t.kids[i]);
      InnerEdgesOwned(g, terms, t.kids[i], x);
      forall a | a in Adj(g, x)
        ensures a.edge in EdgeSeq(t)
      {
        KidEdge(t, i, a.edge);
      }
    }
  }

  lemma {:induction false} RootOrKidEdge(t: RTree, a: AdjEntry)
    requires a == Twin(t.entry) || a in Entries(t.kids)
    ensures a.edge in EdgeSeq(t)
  {
    if a != Twin(t.entry) {
      var i :| 0 <= i < |t.kids| && Entries(t.kids)[i] == a;
      AllEntriesFMember(t.kids, i);
      assert a in AllEntries(t.kids[i]);
      assert a in AllEntries(t);
    } else {
      assert t.entry in AllEntries(t);
    }
    EdgeInEdgeSeq(t, a);
  }

  lemma {:induction false} KidEdge(t: RTree, i: nat, e: EdgeId)
    requires i < |t.kids| && e in EdgeSeq(t.kids[i])
    ensures e in EdgeSeq(t)
  {
    var b := EdgeSeqFind(t.kids[i], e);
    AllEntriesFMember(t.kids, i);
    assert b in AllEntries(t);
    EdgeInEdgeSeq(t, b);
  }

  lemma {:induction false} EdgeInEdgeSeq(t: RTree, a: AdjEntry)
    requires a in AllEntries(t) || Twin(a) in AllEntries(t)
    ensures a.edge in EdgeSeq(t)
  {
    var s := AllEntries(t);
    if a in s {
      var i :| 0 <= i < |s| && s[i] == a;
      assert EdgeSeq(t)[i] == a.edge;
    } else {
      var i :| 0 <= i < |s| && s[i] == Twin(a);
      assert EdgeSeq(t)[i] == a.edge;
    }
  }

  lemma {:induction false} EdgeSeqFind(t: RTree, e: EdgeId) returns (b: AdjEntry)
    requires e in EdgeSeq(t)
    ensures b in AllEntries(t) && b.edge == e
  {
    var i :| 0 <= i < |EdgeSeq(t)| && EdgeSeq(t)[i] == e;
    b := AllEntries(t)[i];
  }

  /**
   * A tree keeps its shape in another graph that keeps its edges and the adjacency
   * lists of its Steiner nodes.
   */
  lemma {:induction false} ShapeFrame(g: Graph, h: Graph, terms: set<Node>, t: RTree)
    requires ShapeOk(g, terms, t)
    requires forall a :: a in AllEntries(t) ==> a.edge in g.edges && a.edge in h.edges && h.edges[a.edge] == g.edges[a.edge]
    requires forall x :: x in InnerNodes(g, t) ==> Adj(h, x) == Adj(g, x)
    ensures ShapeOk(h, terms, t) && InnerNodes(h, t) == InnerNodes(g, t)
    decreases t, 1
  {
    assert t.entry in AllEntries(t);
    if t.kids != [] {
      ShapeFrameF(g, h, terms, t.kids);
    }
  }

  lemma {:induction false} ShapeFrameF(g: Graph, h: Graph, terms: set<Node>, f: seq<RTree>)
    requires ShapeOkF(g, terms, f)
    requires forall a :: a in AllEntriesF(f) ==> a.edge in g.edges && a.edge in h.edges && h.edges[a.edge] == g.edges[a.edge]
    requires forall x :: x in InnerNodesF(g, f) ==> Adj(h, x) == Adj(g, x)
    ensures ShapeOkF(h, terms, f) && InnerNodesF(h, f) == InnerNodesF(g, f)
    decreases f, 0
  {
    if f != [] {
      var n := |f| - 1;
      var p, t := f[..n], f[n];
      SplitLast(f);
      ShapeOkFAppend(g, terms, p, [t]);
      assert ShapeOk(g, terms, [t][0]);
      var ep, et := AllEntriesF(p), AllEntries(t);
      assert AllEntriesF(f) == ep + et;
      assert forall a :: a in ep ==> a in ep + et;
      assert forall a :: a in et ==> a in ep + et;
      assert InnerNodesF(g, f) == InnerNodesF(g, p) + InnerNodes(g, t);
      ShapeFrameF(g, h, terms, p);
      ShapeFrame(g, h, terms, t);
      assert InnerNodesF(h, f) == InnerNodesF(h, p) + InnerNodes(h, t);
      ShapeOkFAppend(h, terms, p, [t]);
    }
  }

  lemma {:induction false} EntriesAppend(a: seq<RTree>, b: seq<RTree>)
    ensures Entries(a + b) == Entries(a) + Entries(b)
  {
    var l, r := Entries(a + b), Entries(a) + Entries(b);
    forall i | 0 <= i < |l|
      ensures l[i] == r[i]
    {
      if i < |a| {
        assert (a + b)[i] == a[i];
      } else {
        assert (a + b)[i] == b[i - |a|];
      }
    }
  }

  lemma {:induction false} SplitLast(f: seq<RTree>)
    requires f != []
    ensures f == f[..|f| - 1] + [f[|f| - 1]]
  {
  }

  /**
   * Every Steiner node occurs once in the tree: a node is not met again below
   * itself, and siblings share no Steiner node.
   */
  ghost predicate Unique(g: Graph, t: RTree)
    decreases t, 1
  {
    t.kids == [] || (Lower(g, t.entry) !in InnerNodesF(g, t.kids) && UniqueF(g, t.kids))
  }

  ghost predicate UniqueF(g: Graph, f: seq<RTree>)
    decreases f, 0
  {
    (forall i :: 0 <= i < |f| ==> Unique(g, f[i])) &&
    (forall i, j :: 0 <= i < |f| && 0 <= j < |f| && i != j ==> InnerNodes(g, f[i]) !! InnerNodes(g, f[j]))
  }

  /** Steiner nodes depend only on the records of the tree's own edges. */
  lemma {:induction false} InnerFrame(g: Graph, h: Graph, t: RTree)
    requires forall a :: a in AllEntries(t) ==> a.edge in g.edges && a.edge in h.edges && h.edges[a.edge] == g.edges[a.edge]
    ensures InnerNodes(h, t) == InnerNodes(g, t) && (Unique(h, t) <==> Unique(g, t))
    ensures LeafNodes(h, t) == LeafNodes(g, t) && CompTerms(h, t) == CompTerms(g, t)
    decreases t, 1
  {
    assert t.entry in AllEntries(t);
    if t.kids != [] {
      InnerFrameF(g, h, t.kids);
    }
  }

  lemma {:induction false} InnerFrameF(g: Graph, h: Graph, f: seq<RTree>)
    requires forall a :: a in AllEntriesF(f) ==> a.edge in g.edges && a.edge in h.edges && h.edges[a.edge] == g.edges[a.edge]
    ensures InnerNodesF(h, f) == InnerNodesF(g, f) && LeafNodesF(h, f) == LeafNodesF(g, f)
    ensures forall i :: 0 <= i < |f| ==> InnerNodes(h, f[i]) == InnerNodes(g, f[i]) && (Unique(h, f[i]) <==> Unique(g, f[i]))
    ensures UniqueF(h, f) <==> UniqueF(g, f)
    decreases f, 0
  {
    forall i | 0 <= i < |f|
      ensures InnerNodes(h, f[i]) == InnerNodes(g, f[i]) && (Unique(h, f[i]) <==> Unique(g, f[i]))
      ensures LeafNodes(h, f[i]) == LeafNodes(g, f[i])
    {
      AllEntriesFMember(f, i);
      InnerFrame(g, h, f[i]);
    }
    if f != [] {
      var n := |f| - 1;
      assert AllEntriesF(f) == AllEntriesF(f[..n]) + AllEntries(f[n]);
      InnerFrameF(g, h, f[..n]);
    }
  }

  // ---------------------------------------------------------------------------
  // Copying a tree into another graph

  /** The entry of the copy of an edge whose id is shifted by base. */
  function ShiftEntry(a: AdjEntry, base: nat): AdjEntry
  {
    AdjEntry(a.edge + base, a.atSource)
  }

  function Shifted(s: seq<AdjEntry>, base: nat): (r: seq<AdjEntry>)
    ensures |r| == |s| && forall i :: 0 <= i < |s| ==> r[i] == ShiftEntry(s[i], base)
  {
    seq(|s|, i requires 0 <= i < |s| => ShiftEntry(s[i], base))
  }

  function ShiftTree(t: RTree, base: nat): RTree
    decreases t, 1
  {
    RTree(ShiftEntry(t.entry, base), ShiftForest(t.kids, base))
  }

  function ShiftForest(f: seq<RTree>, base: nat): seq<RTree>
    decreases f, 0
  {
    if f == [] then [] else ShiftForest(f[..|f| - 1], base) + [ShiftTree(f[|f| - 1], base)]
  }

  lemma {:induction false} ShiftForestAt(f: seq<RTree>, base: nat)
    ensures |ShiftForest(f, base)| == |f|
    ensures forall i :: 0 <= i < |f| ==> ShiftForest(f, base)[i] == ShiftTree(f[i], base)
  {
    if f != [] {
      ShiftForestAt(f[..|f| - 1], base);
    }
  }

  function MapNodes(c: seq<Node>, xs: set<Node>): set<Node>
  {
    set x | x in xs && x < |c| :: c[x]
  }

  /**
   * g holds a copy of G: edge id of G is edge base + id of g, between the copies
   * c[u], c[v] of its ends and of the same weight; terminals are copied to
   * terminals; and the adjacency list of the copy of a non-terminal is the
   * shifted adjacency list of the original.
   */
  ghost predicate Embeds(G: Graph, g: Graph, c: seq<Node>, base: nat, termsG: set<Node>, terms: set<Node>)
  {
    (forall id :: id in G.edges ==>
      G.edges[id].src < |c| && G.edges[id].tgt < |c| && base + id in g.edges &&
      g.edges[base + id] == Edge(c[G.edges[id].src], c[G.edges[id].tgt], G.edges[id].weight)) &&
    (forall x :: 0 <= x < |c| ==> (x in termsG <==> c[x] in terms)) &&
    (forall x :: 0 <= x < |c| && x !in termsG ==> Adj(g, c[x]) == Shifted(Adj(G, x), base))
  }

  lemma {:induction false} ShiftedIndexOf(s: seq<AdjEntry>, b: AdjEntry, base: nat)
    requires b in s
    ensures ShiftEntry(b, base) in Shifted(s, base)
    ensures IndexOf(Shifted(s, base), ShiftEntry(b, base)) == IndexOf(s, b)
  {
    var r := IndexOf(s, b);
    assert Shifted(s, base)[r] == ShiftEntry(b, base);
    var r' := IndexOf(Shifted(s, base), ShiftEntry(b, base));
    assert Shifted(s, base)[r'] == ShiftEntry(s[r'], base);
  }

  lemma {:induction false} ShiftedRotation(s: seq<AdjEntry>, k: nat, base: nat)
    requires k < |s|
    ensures Shifted(Rotation(s, k), base) == Rotation(Shifted(s, base), k)
  {
  }

  lemma {:induction false} LowerShift(G: Graph, g: Graph, c: seq<Node>, base: nat, termsG: set<Node>, terms: set<Node>, a: AdjEntry)
    requires Embeds(G, g, c, base, termsG, terms) && a.edge in G.edges
    ensures ShiftEntry(a, base).edge in g.edges
    ensures TwinNode(G, a) < |c| && TwinNode(g, ShiftEntry(a, base)) == c[TwinNode(G, a)]
    ensures NodeOf(G, a) < |c| && NodeOf(g, ShiftEntry(a, base)) == c[NodeOf(G, a)]
  {
  }

  /** The copy of a full-component tree of G is a full-component tree of g. */
  lemma {:induction false} ShiftShape(G: Graph, g: Graph, c: seq<Node>, base: nat, termsG: set<Node>, terms: set<Node>, t: RTree)
    requires Embeds(G, g, c, base, termsG, terms) && ShapeOk(G, termsG, t)
    ensures ShapeOk(g, terms, ShiftTree(t, base))
    ensures InnerNodes(g, ShiftTree(t, base)) == MapNodes(c, InnerNodes(G, t))
    decreases t, 1
  {
    if t.kids != [] {
      ShiftShapeF(G, g, c, base, termsG, terms, t.kids);
    }
    LowerShift(G, g, c, base, termsG, terms, t.entry);
    var x := TwinNode(G, t.entry);
    if x !in termsG {
      EmbedsAdj(G, g, c, base, termsG, terms, x);
    }
    ShiftNode(G, g, terms, termsG, base, t, c[x]);
    ShiftInner(G, g, c, base, termsG, terms, t);
  }

  /** One level of ShiftShape: the root of the copy, given the copies of the children. */
  lemma {:induction false} ShiftNode(G: Graph, g: Graph, terms: set<Node>, termsG: set<Node>, base: nat, t: RTree, y: Node)
    requires ShapeOk(G, termsG, t)
    requires ShiftEntry(t.entry, base).edge in g.edges
    requires TwinNode(g, ShiftEntry(t.entry, base)) == y
    requires y in terms <==> TwinNode(G, t.entry) in termsG
    requires TwinNode(G, t.entry) !in termsG ==> Adj(g, y) == Shifted(Adj(G, TwinNode(G, t.entry)), base)
    requires ShapeOkF(g, terms, ShiftForest(t.kids, base))
    ensures ShapeOk(g, terms, ShiftTree(t, base))
  {
    var t' := ShiftTree(t, base);
    var x := TwinNode(G, t.entry);
    ShiftForestAt(t.kids, base);
    if t.kids != [] {
      var b := Twin(t.entry);
      var s := Adj(G, x);
      ShiftedIndexOf(s, b, base);
      ShiftedRotation(s, IndexOf(s, b), base);
      assert Twin(t'.entry) == ShiftEntry(b, base);
      assert CyclicOthers(g, Twin(t'.entry)) == Shifted(CyclicOthers(G, b), base);
      assert Entries(t'.kids) == Shifted(Entries(t.kids), base);
    }
  }

  lemma {:induction false} ShiftInner(G: Graph, g: Graph, c: seq<Node>, base: nat, termsG: set<Node>, terms: set<Node>, t: RTree)
    requires Embeds(G, g, c, base, termsG, terms) && t.entry.edge in G.edges
    requires InnerNodesF(g, ShiftForest(t.kids, base)) == MapNodes(c, InnerNodesF(G, t.kids))
    ensures InnerNodes(g, ShiftTree(t, base)) == MapNodes(c, InnerNodes(G, t))
  {
    LowerShift(G, g, c, base, termsG, terms, t.entry);
    ShiftForestAt(t.kids, base);
    if t.kids != [] {
      var x := TwinNode(G, t.entry);
      assert MapNodes(c, {x} + InnerNodesF(G, t.kids)) == {c[x]} + MapNodes(c, InnerNodesF(G, t.kids));
    }
  }

  lemma {:induction false} EmbedsAdj(G: Graph, g: Graph, c: seq<Node>, base: nat, termsG: set<Node>, terms: set<Node>, x: Node)
    requires Embeds(G, g, c, base, termsG, terms) && x < |c| && x !in termsG
    ensures Adj(g, c[x]) == Shifted(Adj(G, x), base)
  {
  }

  lemma {:induction false} ShiftShapeF(G: Graph, g: Graph, c: seq<Node>, base: nat, termsG: set<Node>, terms: set<Node>, f: seq<RTree>)
    requires Embeds(G, g, c, base, termsG, terms) && ShapeOkF(G, termsG, f)
    ensures ShapeOkF(g, terms, ShiftForest(f, base))
    ensures InnerNodesF(g, ShiftForest(f, base)) == MapNodes(c, InnerNodesF(G, f))
    decreases f, 0
  {
    if f != [] {
      var n := |f| - 1;
      ShapeOkFSplit(G, termsG, f);
      ShiftShapeF(G, g, c, base, termsG, terms, f[..n]);
      ShiftShape(G, g, c, base, termsG, terms, f[n]);
      ShiftForestSnoc(f, base);
      ShapeOkFAppend(g, terms, ShiftForest(f[..n], base), [ShiftTree(f[n], base)]);
      MapNodesUnion(c, InnerNodesF(G, f[..n]), InnerNodes(G, f[n]));
    }
  }

  /** The terminal nodes of the copy of a tree are the copies of the tree's terminal nodes. */
  lemma {:induction false} ShiftCompTerms(G: Graph, g: Graph, c: seq<Node>, base: nat, termsG: set<Node>, terms: set<Node>, t: RTree)
    requires Embeds(G, g, c, base, termsG, terms) && ShapeOk(G, termsG, t)
    ensures CompTerms(g, ShiftTree(t, base)) == MapNodes(c, CompTerms(G, t))
  {
    LowerShift(G, g, c, base, termsG, terms, t.entry);
    ShiftLeaves(G, g, c, base, termsG, terms, t);
    MapNodesUnion(c, {Upper(G, t.entry)}, LeafNodes(G, t));
  }

  lemma {:induction false} ShiftLeaves(G: Graph, g: Graph, c: seq<Node>, base: nat, termsG: set<Node>, terms: set<Node>, t: RTree)
    requires Embeds(G, g, c, base, termsG, terms) && ShapeOk(G, termsG, t)
    ensures LeafNodes(g, ShiftTree(t, base)) == MapNodes(c, LeafNodes(G, t))
    decreases t, 1
  {
    ShiftForestAt(t.kids, base);
    if t.kids == [] {
      LowerShift(G, g, c, base, termsG, terms, t.entry);
    } else {
      ShiftLeavesF(G, g, c, base, termsG, terms, t.kids);
    }
  }

  lemma {:induction false} ShiftLeavesF(G: Graph, g: Graph, c: seq<Node>, base: nat, termsG: set<Node>, terms: set<Node>, f: seq<RTree>)
    requires Embeds(G, g, c, base, termsG, terms) && ShapeOkF(G, termsG, f)
    ensures LeafNodesF(g, ShiftForest(f, base)) == MapNodes(c, LeafNodesF(G, f))
    decreases f, 0
  {
    if f != [] {
      var n := |f| - 1;
      ShapeOkFSplit(G, termsG, f);
      ShiftLeavesF(G, g, c, base, termsG, terms, f[..n]);
      ShiftLeaves(G, g, c, base, termsG, terms, f[n]);
      ShiftForestSnoc(f, base);
      MapNodesUnion(c, LeafNodesF(G, f[..n]), LeafNodes(G, f[n]));
    }
  }

  lemma {:induction false} ShapeOkFSplit(g: Graph, terms: set<Node>, f: seq<RTree>)
    requires f != [] && ShapeOkF(g, terms, f)
    ensures ShapeOkF(g, terms, f[..|f| - 1]) && ShapeOk(g, terms, f[|f| - 1])
  {
    var p := f[..|f| - 1];
    forall i | 0 <= i < |p| ensures ShapeOk(g, terms, p[i]) {
      assert p[i] == f[i];
    }
  }

  lemma {:induction false} ShiftForestSnoc(f: seq<RTree>, base: nat)
    requires f != []
    ensures ShiftForest(f, base) == ShiftForest(f[..|f| - 1], base) + [ShiftTree(f[|f| - 1], base)]
    ensures ShiftForest(f, base)[..|ShiftForest(f, base)| - 1] == ShiftForest(f[..|f| - 1], base)
    ensures ShiftForest(f, base)[|ShiftForest(f, base)| - 1] == ShiftTree(f[|f| - 1], base)
  {
  }

  lemma {:induction false} MapNodesUnion(c: seq<Node>, a: set<Node>, b: set<Node>)
    ensures MapNodes(c, a + b) == MapNodes(c, a) + MapNodes(c, b)
  {
  }

  lemma {:induction false} ShiftAllEntries(t: RTree, base: nat)
    ensures AllEntries(ShiftTree(t, base)) == Shifted(AllEntries(t), base)
    ensures LeafCount(ShiftTree(t, base)) == LeafCount(t)
    decreases t, 1
  {
    ShiftAllEntriesF(t.kids, base);
    ShiftForestAt(t.kids, base);
  }

  lemma {:induction false} ShiftAllEntriesF(f: seq<RTree>, base: nat)
    ensures AllEntriesF(ShiftForest(f, base)) == Shifted(AllEntriesF(f), base)
    ensures LeafCountF(ShiftForest(f, base)) == LeafCountF(f)
    decreases f, 0
  {
    if f != [] {
      var n := |f| - 1;
      ShiftAllEntriesF(f[..n], base);
      ShiftAllEntries(f[n], base);
      ShiftForestSnoc(f, base);
      ShiftedAppend(AllEntriesF(f[..n]), AllEntries(f[n]), base);
    }
  }

  lemma {:induction false} ShiftedAppend(a: seq<AdjEntry>, b: seq<AdjEntry>, base: nat)
    ensures Shifted(a + b, base) == Shifted(a, base) + Shifted(b, base)
  {
  }

  ghost predicate Injective(c: seq<Node>)
  {
    forall i, j :: 0 <= i < |c| && 0 <= j < |c| && c[i] == c[j] ==> i == j
  }

  lemma {:induction false} MapNodesMiss(c: seq<Node>, x: Node, a: set<Node>)
    requires Injective(c) && x < |c| && x !in a
    ensures c[x] !in MapNodes(c, a)
  {
  }

  lemma {:induction false} MapNodesDisjoint(c: seq<Node>, a: set<Node>, b: set<Node>)
    requires Injective(c) && a !! b
    ensures MapNodes(c, a) !! MapNodes(c, b)
  {
  }

  /** Copying along an injective node map keeps every Steiner node unique. */
  lemma {:induction false} ShiftUnique(G: Graph, g: Graph, c: seq<Node>, base: nat, termsG: set<Node>, terms: set<Node>, t: RTree)
    requires Embeds(G, g, c, base, termsG, terms) && Injective(c)
    requires ShapeOk(G, termsG, t) && Unique(G, t)
    ensures Unique(g, ShiftTree(t, base))
    decreases t, 1
  {
    if t.kids != [] {
      ShiftUniqueF(G, g, c, base, termsG, terms, t.kids);
      ShiftShapeF(G, g, c, base, termsG, terms, t.kids);
      LowerShift(G, g, c, base, termsG, terms, t.entry);
      MapNodesMiss(c, TwinNode(G, t.entry), InnerNodesF(G, t.kids));
    }
  }

  lemma {:induction false} ShiftUniqueF(G: Graph, g: Graph, c: seq<Node>, base: nat, termsG: set<Node>, terms: set<Node>, f: seq<RTree>)
    requires Embeds(G, g, c, base, termsG, terms) && Injective(c)
    requires ShapeOkF(G, termsG, f) && UniqueF(G, f)
    ensures UniqueF(g, ShiftForest(f, base))
    decreases f, 0
  {
    var sf := ShiftForest(f, base);
    ShiftForestAt(f, base);
    forall i | 0 <= i < |f|
      ensures Unique(g, sf[i]) && InnerNodes(g, sf[i]) == MapNodes(c, InnerNodes(G, f[i]))
    {
      ShiftUnique(G, g, c, base, termsG, terms, f[i]);
      ShiftShape(G, g, c, base, termsG, terms, f[i]);
    }
    forall i, j | 0 <= i < |f| && 0 <= j < |f| && i != j
      ensures InnerNodes(g, sf[i]) !! InnerNodes(g, sf[j])
    {
      MapNodesDisjoint(c, InnerNodes(G, f[i]), InnerNodes(G, f[j]));
    }
  }

  /** The adjacency of v below base + n is that of x below n, shifted by base. */
  ghost predicate AdjShifted(h: map<EdgeId, Edge>, v: Node, E: map<EdgeId, Edge>, x: Node, base: nat, n: nat)
  {
    AdjUpTo(h, v, base + n) == Shifted(AdjUpTo(E, x, n), base)
  }

  /** Edge base + k contributes at v what edge k contributes at x, shifted, for every k below n. */
  ghost predicate ContributionsShifted(e1: map<EdgeId, Edge>, e2: map<EdgeId, Edge>, v1: Node, v2: Node, base: nat, n: nat)
  {
    forall k: nat :: k < n ==> ContributionShifted(e1, e2, v1, v2, base, k)
  }

  /** Edge base + k contributes at v2 what edge k contributes at v1, shifted. */
  ghost predicate ContributionShifted(e1: map<EdgeId, Edge>, e2: map<EdgeId, Edge>, v1: Node, v2: Node, base: nat, k: nat)
  {
    Contribution(e2, v2, base + k) == Shifted(Contribution(e1, v1, k), base)
  }

  /** An adjacency list built from shifted contributions is the shifted list. */
  lemma {:induction false} AdjUpToShift(e1: map<EdgeId, Edge>, e2: map<EdgeId, Edge>, v1: Node, v2: Node, base: nat, n: nat)
    requires forall id: nat :: id < base ==> Contribution(e2, v2, id) == []
    requires ContributionsShifted(e1, e2, v1, v2, base, n)
    ensures AdjShifted(e2, v2, e1, v1, base, n)
  {
    if n == 0 {
      AdjUpToExtend(e2, v2, 0, base);
      assert Shifted([], base) == [];
    } else {
      AdjUpToShift(e1, e2, v1, v2, base, n - 1);
      assert ContributionShifted(e1, e2, v1, v2, base, n - 1);
      ShiftedAppend(AdjUpTo(e1, v1, n - 1), Contribution(e1, v1, n - 1), base);
    }
  }
}
