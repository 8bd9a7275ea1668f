/**
 * What the entries of one foreachAdjEntry walk are: the far sides of the
 * component's entries, so each of its edges once, sitting at its Steiner nodes and
 * at terminals.
 */
module Walks {
  import opened Graphs
  import opened Shapes
  import opened Weights

  /** A Steiner node of a tree is the far end of one of the tree's entries. */
  lemma {:induction false} InnerHang(g: Graph, terms: set<Node>, t: RTree, x: Node) returns (b: AdjEntry)
    requires ShapeOk(g, terms, t) && x in InnerNodes(g, t)
    ensures b in AllEntries(t) && b.edge in g.edges && TwinNode(g, b) == x
    decreases t
  {
    if x == Lower(g, t.entry) {
      b := t.entry;
    } else {
      var i := InnerNodesFFind(g, t.kids, x);
      assert ShapeOk(g, terms, t.kids[i]);
      b := InnerHang(g, terms, t.kids[i], x);
      AllEntriesFMember(t.kids, i);
    }
  }

  lemma {:induction false} SingleForest(t: RTree)
    ensures AllEntriesF([t]) == AllEntries(t)
  {
    assert [t][..0] == [];
  }

  /** An entry a walk over t emits is the twin of an entry of t, and conversely. */
  lemma {:induction false} VisitIsTwin(t: RTree, a: AdjEntry) returns (b: AdjEntry)
    requires a in Visits([t])
    ensures b in AllEntries(t) && a == Twin(b)
  {
    var all := AllEntries(t);
    VisitsAreTwins([t]);
    SingleForest(t);
    assert a in multiset(Twins(all));
    var i := IndexOf(Twins(all), a);
    b := all[i];
  }

  lemma {:induction false} TwinVisited(t: RTree, b: AdjEntry)
    requires b in AllEntries(t)
    ensures Twin(b) in Visits([t])
  {
    var all := AllEntries(t);
    VisitsAreTwins([t]);
    SingleForest(t);
    var i :| 0 <= i < |all| && all[i] == b;
    assert Twins(all)[i] == Twin(b);
    assert Twin(b) in multiset(Twins(all));
  }

  /**
   * The entries a walk over t emits are live, sit at Steiner nodes of t or at
   * terminals, and every Steiner node of t is the node of one of them.
   */
  lemma {:induction false} VisitsCover(g: Graph, terms: set<Node>, t: RTree)
    requires Wf(g) && ShapeOk(g, terms, t)
    ensures forall a :: a in Visits([t]) ==>
      a.edge in g.edges && (NodeOf(g, a) in InnerNodes(g, t) || NodeOf(g, a) in terms)
    ensures forall x :: x in InnerNodes(g, t) ==>
      exists a :: a in Visits([t]) && a.edge in g.edges && NodeOf(g, a) == x
  {
    Endpoints(g, terms, t);
    forall a | a in Visits([t])
      ensures a.edge in g.edges && (NodeOf(g, a) in InnerNodes(g, t) || NodeOf(g, a) in terms)
    {
      var b := VisitIsTwin(t, a);
    }
    forall x | x in InnerNodes(g, t)
      ensures exists a :: a in Visits([t]) && a.edge in g.edges && NodeOf(g, a) == x
    {
      var b := InnerHang(g, terms, t, x);
      TwinVisited(t, b);
      assert Twin(b).edge in g.edges && NodeOf(g, Twin(b)) == x;
    }
  }

  /** Taking the edges keeps a permutation a permutation. */
  lemma {:induction false} EdgesOfPerm(a: seq<AdjEntry>, b: seq<AdjEntry>)
    requires multiset(a) == multiset(b)
    ensures multiset(EdgesOf(a)) == multiset(EdgesOf(b))
    decreases |a|
  {
    if a == [] {
      assert |b| == |multiset(b)| == 0;
    } else {
      var x := a[|a| - 1];
      var a' := a[..|a| - 1];
      assert a == a' + [x];
      assert x in multiset(b);
      var j :| 0 <= j < |b| && b[j] == x;
      var b' := b[..j] + b[j + 1..];
      assert b == b[..j] + [x] + b[j + 1..];
      assert multiset(b) == multiset(b[..j]) + multiset{x} + multiset(b[j + 1..]);
      assert multiset(a) == multiset(a') + multiset{x};
      assert multiset(b') == multiset(b[..j]) + multiset(b[j + 1..]);
      MultisetCancel(multiset(a'), multiset(b'), x);
      EdgesOfPerm(a', b');
      EdgesOfAppend(a', [x]);
      EdgesOfAppend(b[..j], [x]);
      EdgesOfAppend(b[..j] + [x], b[j + 1..]);
      EdgesOfAppend(b[..j], b[j + 1..]);
    }
  }

  /** A walk over t meets every edge of t exactly as often as t has it. */
  lemma {:induction false} VisitEdges(t: RTree)
    ensures multiset(EdgesOf(Visits([t]))) == multiset(EdgeSeq(t))
  {
    VisitsAreTwins([t]);
    SingleForest(t);
    EdgesOfPerm(Visits([t]), Twins(AllEntries(t)));
    EdgesOfTwins(AllEntries(t));
  }
}
