/**
 * The facts behind FullComponentStore::remove.  Deleting a component takes its
 * start edge away and then deletes its Steiner nodes one by one, each after its
 * remaining neighbours have been pushed on a node stack.  The ghost forest f
 * names the subtrees whose lower nodes the stack holds; every such subtree hangs
 * from an edge that is already gone, and everything below it is still there.
 */
module RemoveSteps {
  import opened Graphs
  import opened Shapes
  import opened ArrayOps
  import opened Weights
  import opened ComponentCopies
  import opened StoreInvariants

  /** The far ends of a sequence of entries, in order. */
  function Fars(g: Graph, s: seq<AdjEntry>): (r: seq<Node>)
    ensures |r| == |s| && forall i :: 0 <= i < |s| ==> r[i] == Lower(g, s[i])
  {
    seq(|s|, i requires 0 <= i < |s| => Lower(g, s[i]))
  }

  /** The component t as remove leaves the graph: its edges and Steiner nodes are gone, nothing else changed. */
  ghost predicate Removed(g0: Graph, t: RTree, g: Graph)
  {
    g.nodes == g0.nodes - InnerNodes(g0, t) && g.nodeIds == g0.nodeIds && g.edgeIds == g0.edgeIds &&
    (forall id :: id in g.edges <==> id in g0.edges && id !in EdgeSeq(t)) &&
    (forall id :: id in g.edges ==> g.edges[id] == g0.edges[id])
  }

  predicate TouchesAny(e: Edge, D: set<Node>)
  {
    e.src in D || e.tgt in D
  }

  /** g0 after delEdge(start) and delNode(v) for every v of D. */
  ghost predicate DeletedFrom(g0: Graph, start: EdgeId, D: set<Node>, g: Graph)
  {
    g.nodes == g0.nodes - D && g.nodeIds == g0.nodeIds && g.edgeIds == g0.edgeIds &&
    (forall id :: id in g.edges <==> id in g0.edges && id != start && !TouchesAny(g0.edges[id], D)) &&
    (forall id :: id in g.edges ==> g.edges[id] == g0.edges[id])
  }

  /** What remove relies on of the component it deletes (its record's invariant, with terminals at the root). */
  ghost predicate Removable(g0: Graph, terms: set<Node>, t: RTree)
  {
    Wf(g0) && ShapeOk(g0, terms, t) && Unique(g0, t) && NoDup(EdgeSeq(t)) && NodeOf(g0, t.entry) in terms
  }

  /** A pending subtree hangs from a deleted edge, and the start edge is not below it. */
  ghost predicate Detached(g0: Graph, start: EdgeId, D: set<Node>, s: RTree)
  {
    s.entry.edge in g0.edges &&
    (s.entry.edge == start || NodeOf(g0, s.entry) in D) &&
    (forall a :: a in AllEntriesF(s.kids) ==> a.edge != start)
  }

  /**
   * The state of the deletion walk of t: the Steiner nodes outside the pending
   * forest f are the deleted ones, the pending subtrees are disjoint and detached.
   */
  ghost predicate Pending(g0: Graph, terms: set<Node>, t: RTree, f: seq<RTree>, g: Graph)
  {
    var D := InnerNodes(g0, t) - InnerNodesF(g0, f);
    Wf(g) && DeletedFrom(g0, t.entry.edge, D, g) &&
    InnerNodesF(g0, f) <= InnerNodes(g0, t) &&
    ShapeOkF(g0, terms, f) && UniqueF(g0, f) &&
    (forall i :: 0 <= i < |f| ==> Detached(g0, t.entry.edge, D, f[i]))
  }

  // ---------------------------------------------------------------------------
  // Forest facts

  lemma {:induction false} UniqueFAppend(g: Graph, a: seq<RTree>, b: seq<RTree>)
    ensures UniqueF(g, a + b) <==> UniqueF(g, a) && UniqueF(g, b) && InnerNodesF(g, a) !! InnerNodesF(g, b)
  {
    var ab := a + b;
    forall i | 0 <= i < |a| ensures ab[i] == a[i] && InnerNodes(g, a[i]) <= InnerNodesF(g, a) {
      AllEntriesFMember(a, i);
    }
    forall i | 0 <= i < |b| ensures ab[|a| + i] == b[i] && InnerNodes(g, b[i]) <= InnerNodesF(g, b) {
      AllEntriesFMember(b, i);
    }
    if UniqueF(g, a + b) {
      assert UniqueF(g, a) by {
        forall i, j | 0 <= i < |a| && 0 <= j < |a| && i != j ensures InnerNodes(g, a[i]) !! InnerNodes(g, a[j]) {
          assert ab[i] == a[i] && ab[j] == a[j];
        }
      }
      assert UniqueF(g, b) by {
        forall i, j | 0 <= i < |b| && 0 <= j < |b| && i != j ensures InnerNodes(g, b[i]) !! InnerNodes(g, b[j]) {
          assert ab[|a| + i] == b[i] && ab[|a| + j] == b[j];
        }
      }
      forall x | x in InnerNodesF(g, a) ensures x !in InnerNodesF(g, b) {
        var i := InnerNodesFFind(g, a, x);
        if x in InnerNodesF(g, b) {
          var j := InnerNodesFFind(g, b, x);
          assert false;
        }
      }
    }
    if UniqueF(g, a) && UniqueF(g, b) && InnerNodesF(g, a) !! InnerNodesF(g, b) {
      forall i | 0 <= i < |ab| ensures Unique(g, ab[i]) {
        if i >= |a| {
          assert ab[i] == b[i - |a|];
        }
      }
      forall i, j | 0 <= i < |ab| && 0 <= j < |ab| && i != j ensures InnerNodes(g, ab[i]) !! InnerNodes(g, ab[j]) {
        if i >= |a| {
          assert ab[i] == b[i - |a|];
        }
        if j >= |a| {
          assert ab[j] == b[j - |a|];
        }
      }
    }
  }

  /** The ordered pair condition of Apart holds either way round. */
  lemma {:induction false} ApartSym(g: Graph, s: RTree, t: RTree)
    requires Apart(g, s, t)
    ensures Apart(g, t, s)
  {
  }

  /** The kids of an inner tree split at m, the part after m first. */
  function Turned(kids: seq<RTree>, m: nat): seq<RTree>
    requires m <= |kids|
  {
    kids[m..] + kids[..m]
  }

  lemma {:induction false} TurnedSums(g: Graph, kids: seq<RTree>, m: nat)
    requires m <= |kids|
    ensures InnerNodesF(g, Turned(kids, m)) == InnerNodesF(g, kids)
    ensures SizeF(Turned(kids, m)) == SizeF(kids) && LeafCountF(Turned(kids, m)) == LeafCountF(kids)
  {
    var k1, k2 := kids[..m], kids[m..];
    assert kids == k1 + k2;
    InnerNodesFAppend(g, k1, k2);
    InnerNodesFAppend(g, k2, k1);
    SizeFAppend(k1, k2);
    SizeFAppend(k2, k1);
    LeafCountFAppend(k1, k2);
    LeafCountFAppend(k2, k1);
  }

  lemma {:induction false} TurnedShapes(g: Graph, terms: set<Node>, kids: seq<RTree>, m: nat)
    requires m <= |kids| && ShapeOkF(g, terms, kids) && UniqueF(g, kids)
    ensures ShapeOkF(g, terms, Turned(kids, m)) && UniqueF(g, Turned(kids, m))
  {
    var k1, k2 := kids[..m], kids[m..];
    assert kids == k1 + k2;
    InnerNodesFAppend(g, k1, k2);
    InnerNodesFAppend(g, k2, k1);
    ShapeOkFAppend(g, terms, k1, k2);
    ShapeOkFAppend(g, terms, k2, k1);
    UniqueFAppend(g, k1, k2);
    UniqueFAppend(g, k2, k1);
  }

  // ---------------------------------------------------------------------------
  // The walk

  /** The first entry of a tree's list is its own; the start edge occurs once. */
  lemma {:induction false} StartOnce(t: RTree)
    requires NoDup(EdgeSeq(t))
    ensures forall a :: a in AllEntriesF(t.kids) ==> a.edge != t.entry.edge
  {
    var all := AllEntries(t);
    forall a | a in AllEntriesF(t.kids) ensures a.edge != t.entry.edge {
      var q :| 0 <= q < |AllEntriesF(t.kids)| && AllEntriesF(t.kids)[q] == a;
      assert all[q + 1] == a && all[0] == t.entry;
      assert EdgeSeq(t)[q + 1] == a.edge && EdgeSeq(t)[0] == t.entry.edge;
    }
  }

  /** After delEdge(start) the stack holds twinNode(start) and the whole tree is pending. */
  lemma {:induction false} DeleteInit(g0: Graph, terms: set<Node>, t: RTree)
    requires Removable(g0, terms, t)
    ensures Pending(g0, terms, t, [t], DelEdge(g0, t.entry.edge))
    ensures Lowers(g0, [t]) == [TwinNode(g0, t.entry)]
    ensures LeafCountF([t]) == LeafCount(t)
  {
    assert [t][..0] == [];
    assert InnerNodesF(g0, [t]) == InnerNodes(g0, t);
    StartOnce(t);
    assert Detached(g0, t.entry.edge, {}, [t][0]);
  }

  /** The node on top of the stack is a live node of g0. */
  lemma {:induction false} TopLive(g0: Graph, terms: set<Node>, t: RTree, f: seq<RTree>, g: Graph)
    requires Removable(g0, terms, t) && Pending(g0, terms, t, f, g) && f != []
    ensures Lower(g0, f[|f| - 1].entry) in g0.nodes
  {
    assert ShapeOk(g0, terms, f[|f| - 1]);
  }

  /** Popping a terminal changes nothing but the stack. */
  lemma {:induction false} PopTerminal(g0: Graph, terms: set<Node>, t: RTree, f: seq<RTree>, g: Graph)
    requires Removable(g0, terms, t) && Pending(g0, terms, t, f, g) && f != []
    requires Lower(g0, f[|f| - 1].entry) in terms
    ensures Pending(g0, terms, t, f[..|f| - 1], g)
    ensures Lowers(g0, f[..|f| - 1]) == Lowers(g0, f)[..|f| - 1]
    ensures SizeF(f[..|f| - 1]) < SizeF(f) && LeafCountF(f[..|f| - 1]) <= LeafCountF(f)
  {
    var n := |f| - 1;
    var p, s := f[..n], f[n];
    assert ShapeOk(g0, terms, s);
    assert s.kids == [];
    assert InnerNodesF(g0, f) == InnerNodesF(g0, p);
    assert f == p + [s];
    UniqueFAppend(g0, p, [s]);
    ShapeOkFAppend(g0, terms, p, [s]);
    forall i | 0 <= i < |p| ensures Detached(g0, t.entry.edge, InnerNodes(g0, t) - InnerNodesF(g0, p), p[i]) {
      assert p[i] == f[i];
    }
  }

  /** The pending forest splits into the popped subtree s and the rest p. */
  lemma {:induction false} PopSplit(g0: Graph, terms: set<Node>, t: RTree, f: seq<RTree>, g: Graph)
    requires Pending(g0, terms, t, f, g) && f != []
    ensures var p, s := f[..|f| - 1], f[|f| - 1];
      ShapeOk(g0, terms, s) && Unique(g0, s) && ShapeOkF(g0, terms, p) && UniqueF(g0, p) &&
      InnerNodesF(g0, f) == InnerNodesF(g0, p) + InnerNodes(g0, s) &&
      InnerNodesF(g0, p) !! InnerNodes(g0, s) &&
      SizeF(f) == SizeF(p) + Size(s) && LeafCountF(f) == LeafCountF(p) + LeafCount(s)
  {
    var n := |f| - 1;
    var p, s := f[..n], f[n];
    assert f == p + [s];
    assert [s][..0] == [];
    UniqueFAppend(g0, p, [s]);
    ShapeOkFAppend(g0, terms, p, [s]);
    InnerNodesFAppend(g0, p, [s]);
    assert InnerNodesF(g0, [s]) == InnerNodes(g0, s);
    assert UniqueF(g0, [s]);
    assert Unique(g0, [s][0]);
    assert ShapeOkF(g0, terms, [s]);
    assert ShapeOk(g0, terms, [s][0]);
  }

  /**
   * At a popped Steiner node v all entries but the one back to the parent are
   * still there, and they lead to the children: in the order of v's adjacency
   * list, the children from position m on come first.
   */
  lemma {:induction false} PopAdj(g0: Graph, terms: set<Node>, s: RTree, start: EdgeId, D: set<Node>, g: Graph) returns (m: nat)
    requires Wf(g0) && Wf(g) && ShapeOk(g0, terms, s) && TwinNode(g0, s.entry) !in terms
    requires Detached(g0, start, D, s) && DeletedFrom(g0, start, D, g)
    requires InnerNodes(g0, s) !! D && forall x :: x in D ==> x !in terms
    ensures var v := TwinNode(g0, s.entry);
      m <= |s.kids| && v in g.nodes && Entries(Turned(s.kids, m)) == Adj(g, v) &&
      Fars(g, Adj(g, v)) == Lowers(g0, Turned(s.kids, m))
  {
    var v := TwinNode(g0, s.entry);
    assert v in InnerNodes(g0, s);
    var A := Adj(g0, v);
    var k := IndexOf(A, Twin(s.entry));
    m := |A| - 1 - k;
    TurnedRotation(s.kids, A, k);
    KidEdgesLive(g0, terms, s, start, D, g);
    AdjAfterPop(g0, terms, s, g);
    var T := Turned(s.kids, m);
    forall j | 0 <= j < |T| ensures Fars(g, Adj(g, v))[j] == Lowers(g0, T)[j] {
      assert Adj(g, v)[j] == T[j].entry;
      assert T[j].entry in Entries(s.kids) by {
        TurnedMembers(s.kids, m);
        assert T[j] in s.kids;
      }
    }
  }

  lemma {:induction false} TurnedMembers(kids: seq<RTree>, m: nat)
    requires m <= |kids|
    ensures forall x :: x in Turned(kids, m) <==> x in kids
    ensures forall x :: x in kids ==> x.entry in Entries(kids)
  {
    assert kids == kids[..m] + kids[m..];
    forall x | x in kids ensures x.entry in Entries(kids) {
      var j :| 0 <= j < |kids| && kids[j] == x;
      assert Entries(kids)[j] == x.entry;
    }
  }

  /** Children listed by a rotation of A from k, turned at m, are A without position k. */
  lemma {:induction false} TurnedRotation(kids: seq<RTree>, A: seq<AdjEntry>, k: nat)
    requires k < |A| && Entries(kids) == Rotation(A, k)
    ensures |A| - 1 - k <= |kids| && Entries(Turned(kids, |A| - 1 - k)) == A[..k] + A[k + 1..]
  {
    var m := |A| - 1 - k;
    var K1, K2 := kids[..m], kids[m..];
    assert Entries(K1) == A[k + 1..] by {
      forall j | 0 <= j < m ensures Entries(K1)[j] == A[k + 1..][j] {
        assert Entries(kids)[j] == Entries(K1)[j];
      }
    }
    assert Entries(K2) == A[..k] by {
      forall j | 0 <= j < k ensures Entries(K2)[j] == A[..k][j] {
        assert Entries(kids)[m + j] == Entries(K2)[j];
      }
    }
    EntriesAppend(K2, K1);
  }

  /** With the parent edge gone and the children's edges there, v's list is its old one without the parent entry. */
  lemma {:induction false} AdjAfterPop(g0: Graph, terms: set<Node>, s: RTree, g: Graph)
    requires Wf(g0) && ShapeOk(g0, terms, s) && TwinNode(g0, s.entry) !in terms
    requires s.entry.edge !in g.edges && g.edgeIds == g0.edgeIds
    requires forall id :: id in g.edges ==> id in g0.edges && g.edges[id] == g0.edges[id]
    requires forall a :: a in Entries(s.kids) ==> a.edge in g.edges
    ensures var A := Adj(g0, TwinNode(g0, s.entry)); var k := IndexOf(A, Twin(s.entry));
      Adj(g, TwinNode(g0, s.entry)) == A[..k] + A[k + 1..]
  {
    var v := TwinNode(g0, s.entry);
    var A := Adj(g0, v);
    var k := IndexOf(A, Twin(s.entry));
    InnerAdj(g0, terms, s);
    AdjIncreasing(g0, v);
    forall i | 0 <= i < |A| && i != k ensures A[i].edge in g.edges {
      assert A[i] != A[k];
      assert A[i] in A;
    }
    AdjSubgraph(g0, g, v);
    KeepAllButOne(A, k, g.edges.Keys);
  }

  /** The edges to the children of a popped Steiner node are all still there. */
  lemma {:induction false} KidEdgesLive(g0: Graph, terms: set<Node>, s: RTree, start: EdgeId, D: set<Node>, g: Graph)
    requires Wf(g0) && ShapeOk(g0, terms, s) && TwinNode(g0, s.entry) !in terms
    requires Detached(g0, start, D, s) && DeletedFrom(g0, start, D, g)
    requires InnerNodes(g0, s) !! D && forall x :: x in D ==> x !in terms
    ensures forall a :: a in Entries(s.kids) ==> a.edge in g.edges && g.edges[a.edge] == g0.edges[a.edge]
  {
    InnerAdj(g0, terms, s);
    var v := TwinNode(g0, s.entry);
    assert v in InnerNodes(g0, s);
    assert ShapeOkF(g0, terms, s.kids);
    forall a | a in Entries(s.kids) ensures a.edge in g.edges {
      var j :| 0 <= j < |s.kids| && Entries(s.kids)[j] == a;
      var kid := s.kids[j];
      AllEntriesFMember(s.kids, j);
      assert a in AllEntries(kid);
      assert ShapeOk(g0, terms, kid);
      var y := TwinNode(g0, a);
      if y !in terms {
        assert y in InnerNodes(g0, kid);
        assert InnerNodesFMemberHolds(s.kids, j);
        assert y in InnerNodes(g0, s);
      }
      var e := g0.edges[a.edge];
      assert e.src == v || e.tgt == v;
      assert e.src == y || e.tgt == y;
      assert !TouchesAny(e, D);
    }
  }

  /**
   * Popping a Steiner node v: after delNode(v) the children of the popped subtree
   * are pending in its place, in the order their far ends were pushed.
   */
  lemma {:induction false} PopSteiner(g0: Graph, terms: set<Node>, t: RTree, f: seq<RTree>, g: Graph) returns (m: nat)
    requires Removable(g0, terms, t) && Pending(g0, terms, t, f, g) && f != []
    requires Lower(g0, f[|f| - 1].entry) !in terms
    ensures var s, v := f[|f| - 1], Lower(g0, f[|f| - 1].entry);
      m <= |s.kids| && v in g.nodes &&
      Lowers(g0, f[..|f| - 1] + Turned(s.kids, m)) == Lowers(g0, f)[..|f| - 1] + Fars(g, Adj(g, v)) &&
      Pending(g0, terms, t, f[..|f| - 1] + Turned(s.kids, m), DelNode(g, v)) &&
      SizeF(f[..|f| - 1] + Turned(s.kids, m)) < SizeF(f) &&
      LeafCountF(f[..|f| - 1] + Turned(s.kids, m)) <= LeafCountF(f)
  {
    var n := |f| - 1;
    var p, s := f[..n], f[n];
    var D := InnerNodes(g0, t) - InnerNodesF(g0, f);
    PopSplit(g0, terms, t, f, g);
    assert Detached(g0, t.entry.edge, D, f[n]);
    forall i | 0 <= i < |p| ensures Detached(g0, t.entry.edge, D, p[i]) {
      assert p[i] == f[i];
    }
    m := PopSteinerAt(g0, terms, t, p, s, g);
    assert Lowers(g0, f)[..n] == Lowers(g0, p);
  }

  /** PopSteiner with the pending forest given as the rest p and the popped subtree s. */
  lemma {:induction false} PopSteinerAt(g0: Graph, terms: set<Node>, t: RTree, p: seq<RTree>, s: RTree, g: Graph) returns (m: nat)
    requires Removable(g0, terms, t) && Wf(g) && ShapeOk(g0, terms, s) && TwinNode(g0, s.entry) !in terms
    requires InnerNodesF(g0, p) + InnerNodes(g0, s) <= InnerNodes(g0, t)
    requires DeletedFrom(g0, t.entry.edge, InnerNodes(g0, t) - (InnerNodesF(g0, p) + InnerNodes(g0, s)), g)
    requires ShapeOk(g0, terms, s) && Unique(g0, s) && ShapeOkF(g0, terms, p) && UniqueF(g0, p)
    requires InnerNodesF(g0, p) !! InnerNodes(g0, s)
    requires Detached(g0, t.entry.edge, InnerNodes(g0, t) - (InnerNodesF(g0, p) + InnerNodes(g0, s)), s)
    requires forall i :: 0 <= i < |p| ==>
      Detached(g0, t.entry.edge, InnerNodes(g0, t) - (InnerNodesF(g0, p) + InnerNodes(g0, s)), p[i])
    ensures var v := TwinNode(g0, s.entry);
      m <= |s.kids| && v in g.nodes &&
      Lowers(g0, p + Turned(s.kids, m)) == Lowers(g0, p) + Fars(g, Adj(g, v)) &&
      Pending(g0, terms, t, p + Turned(s.kids, m), DelNode(g, v)) &&
      SizeF(p + Turned(s.kids, m)) == SizeF(p) + Size(s) - 1 &&
      LeafCountF(p + Turned(s.kids, m)) == LeafCountF(p) + LeafCount(s)
  {
    var start := t.entry.edge;
    var v := TwinNode(g0, s.entry);
    var I := InnerNodes(g0, t);
    var D := I - (InnerNodesF(g0, p) + InnerNodes(g0, s));
    InnerNodesLive(g0, terms, t);
    m := PopAdj(g0, terms, s, start, D, g);
    var T := Turned(s.kids, m);
    ForestCounts(g0, p, s, m);
    ForestShapes(g0, terms, p, s, m);
    assert InnerNodes(g0, s) == {v} + InnerNodesF(g0, s.kids) && v !in InnerNodesF(g0, s.kids);
    SetStep(I, InnerNodesF(g0, p), InnerNodesF(g0, s.kids), v);
    DetachedStep(g0, terms, start, D, v, p, s, T);
    DeleteStep(g0, start, D, g, v);
  }

  lemma {:induction false} SetStep(I: set<Node>, P: set<Node>, K: set<Node>, v: Node)
    requires v !in P && v !in K && P + ({v} + K) <= I
    ensures (I - (P + ({v} + K))) + {v} == I - (P + K) && P + K <= I
  {
  }

  /** Replacing the popped subtree by its children, turned at m: what is counted. */
  lemma {:induction false} ForestCounts(g0: Graph, p: seq<RTree>, s: RTree, m: nat)
    requires s.kids != [] && m <= |s.kids|
    ensures var T := Turned(s.kids, m);
      InnerNodesF(g0, p + T) == InnerNodesF(g0, p) + InnerNodesF(g0, s.kids) &&
      SizeF(p + T) == SizeF(p) + Size(s) - 1 && LeafCountF(p + T) == LeafCountF(p) + LeafCount(s) &&
      Lowers(g0, p + T) == Lowers(g0, p) + Lowers(g0, T)
  {
    var T := Turned(s.kids, m);
    TurnedSums(g0, s.kids, m);
    SizeFAppend(p, T);
    LeafCountFAppend(p, T);
    InnerNodesFAppend(g0, p, T);
    assert Size(s) == 1 + SizeF(s.kids) && LeafCount(s) == LeafCountF(s.kids);
    LowersAppend(g0, p, T);
  }

  lemma {:induction false} LowersAppend(g: Graph, a: seq<RTree>, b: seq<RTree>)
    ensures Lowers(g, a + b) == Lowers(g, a) + Lowers(g, b)
  {
    var l, r := Lowers(g, a + b), Lowers(g, a) + Lowers(g, b);
    forall i | 0 <= i < |l|
      ensures l[i] == r[i]
    {
      if i < |a| {
        assert (a + b)[i] == a[i];
      } else {
        assert (a + b)[i] == b[i - |a|];
      }
    }
  }

  /** Replacing the popped subtree by its children, turned at m: shapes and disjointness. */
  lemma {:induction false} ForestShapes(g0: Graph, terms: set<Node>, p: seq<RTree>, s: RTree, m: nat)
    requires ShapeOkF(g0, terms, p) && UniqueF(g0, p) && ShapeOk(g0, terms, s) && Unique(g0, s)
    requires s.kids != [] && m <= |s.kids| && InnerNodesF(g0, p) !! InnerNodes(g0, s)
    ensures ShapeOkF(g0, terms, p + Turned(s.kids, m)) && UniqueF(g0, p + Turned(s.kids, m))
  {
    var T := Turned(s.kids, m);
    assert TwinNode(g0, s.entry) !in terms;
    assert ShapeOkF(g0, terms, s.kids) && UniqueF(g0, s.kids);
    TurnedShapes(g0, terms, s.kids, m);
    TurnedSums(g0, s.kids, m);
    assert InnerNodesF(g0, T) <= InnerNodes(g0, s);
    ShapeOkFAppend(g0, terms, p, T);
    UniqueFAppend(g0, p, T);
  }

  /** The pending subtrees stay detached once the popped node is deleted. */
  lemma {:induction false} DetachedStep(g0: Graph, terms: set<Node>, start: EdgeId, D: set<Node>, v: Node,
                                        p: seq<RTree>, s: RTree, T: seq<RTree>)
    requires Wf(g0) && ShapeOk(g0, terms, s) && s.kids != [] && v == TwinNode(g0, s.entry)
    requires Detached(g0, start, D, s)
    requires forall i :: 0 <= i < |p| ==> Detached(g0, start, D, p[i])
    requires exists m :: 0 <= m <= |s.kids| && T == Turned(s.kids, m)
    ensures forall i :: 0 <= i < |p + T| ==> Detached(g0, start, D + {v}, (p + T)[i])
  {
    var f' := p + T;
    forall i | 0 <= i < |f'| ensures Detached(g0, start, D + {v}, f'[i]) {
      if i < |p| {
        assert f'[i] == p[i];
        assert Detached(g0, start, D, p[i]);
      } else {
        var m :| 0 <= m <= |s.kids| && T == Turned(s.kids, m);
        var j := i - |p|;
        assert T[j] == if j < |s.kids| - m then s.kids[m + j] else s.kids[j - (|s.kids| - m)];
        assert f'[i] == T[j];
        KidDetached(g0, terms, s, T[i - |p|], start, D + {v});
      }
    }
  }

  /** delNode(v) adds v to the deleted nodes. */
  lemma {:induction false} DeleteStep(g0: Graph, start: EdgeId, D: set<Node>, g: Graph, v: Node)
    requires DeletedFrom(g0, start, D, g)
    ensures DeletedFrom(g0, start, D + {v}, DelNode(g, v))
  {
  }

  /** A child of the popped subtree hangs from the node just deleted. */
  lemma {:induction false} KidDetached(g0: Graph, terms: set<Node>, s: RTree, kid: RTree, start: EdgeId, D: set<Node>)
    requires Wf(g0) && ShapeOk(g0, terms, s) && s.kids != [] && kid in s.kids
    requires TwinNode(g0, s.entry) in D
    requires forall a :: a in AllEntriesF(s.kids) ==> a.edge != start
    ensures Detached(g0, start, D, kid)
  {
    var j :| 0 <= j < |s.kids| && s.kids[j] == kid;
    AllEntriesFMember(s.kids, j);
    InnerAdj(g0, terms, s);
    assert kid.entry == Entries(s.kids)[j];
    assert ShapeOk(g0, terms, kid);
    forall a | a in AllEntriesF(kid.kids) ensures a in AllEntries(kid) {
    }
  }

  /** The walk is over: exactly the component's edges and Steiner nodes are gone. */
  lemma {:induction false} DeleteDone(g0: Graph, terms: set<Node>, t: RTree, g: Graph)
    requires Removable(g0, terms, t) && Pending(g0, terms, t, [], g)
    ensures Wf(g) && Removed(g0, t, g)
  {
    var start := t.entry.edge;
    var I := InnerNodes(g0, t);
    assert DeletedFrom(g0, start, I, g);
    Endpoints(g0, terms, t);
    assert EdgeSeq(t)[0] == start;
    forall id | id in g0.edges ensures (id != start && !TouchesAny(g0.edges[id], I)) <==> id !in EdgeSeq(t) {
      var e := g0.edges[id];
      if id in EdgeSeq(t) && id != start {
        var b := EdgeSeqFind(t, id);
        var q :| 0 <= q < |AllEntries(t)| && AllEntries(t)[q] == b;
        if q != 0 {
          assert b == AllEntriesF(t.kids)[q - 1];
          assert NodeOf(g0, b) in I;
        }
      }
      if id !in EdgeSeq(t) && TouchesAny(e, I) {
        var x := if e.src in I then e.src else e.tgt;
        var a := AdjEntry(id, e.src == x);
        AdjSpec(g0, x);
        assert a in Adj(g0, x);
        InnerEdgesOwned(g0, terms, t, x);
      }
    }
  }

  /** A two-terminal component is its start edge alone. */
  lemma {:induction false} DeleteEdgeOnly(g0: Graph, terms: set<Node>, t: RTree)
    requires Removable(g0, terms, t) && LeafCount(t) == 1
    ensures Wf(DelEdge(g0, t.entry.edge)) && Removed(g0, t, DelEdge(g0, t.entry.edge))
  {
    assert t.kids == [];
    assert AllEntries(t) == [t.entry];
    assert EdgeSeq(t) == [t.entry.edge];
  }

  // ---------------------------------------------------------------------------
  // The store after remove

  /** remove's swap-and-pop: the last record moves into slot id, the last slot goes. */
  function SwapPop<T>(s: seq<T>, id: nat): (r: seq<T>)
    requires id < |s|
    ensures |r| == |s| - 1
  {
    if id == |s| - 1 then s[..id] else s[id := s[|s| - 1]][..|s| - 1]
  }

  /** Where slot i of the shrunk sequence comes from. */
  function SwapPopFrom(n: nat, id: nat, i: nat): int
  {
    if i == id then n - 1 else i
  }

  lemma {:induction false} SwapPopAt<T>(s: seq<T>, id: nat)
    requires id < |s|
    ensures forall i :: 0 <= i < |s| - 1 ==> SwapPop(s, id)[i] == s[SwapPopFrom(|s|, id, i)]
    ensures forall i :: 0 <= i < |s| - 1 ==> 0 <= SwapPopFrom(|s|, id, i) < |s| && SwapPopFrom(|s|, id, i) != id
  {
  }

  /** Exactly the element at id leaves; every other one stays. */
  lemma {:induction false} SwapPopMultiset<T>(s: seq<T>, id: nat)
    requires id < |s|
    ensures multiset(SwapPop(s, id)) == multiset(s) - multiset{s[id]}
  {
    var n := |s| - 1;
    assert s == s[..id] + [s[id]] + s[id + 1..];
    if id < n {
      assert s[id + 1..] == s[id + 1..n] + [s[n]];
      assert SwapPop(s, id) == s[..id] + [s[n]] + s[id + 1..n];
    } else {
      assert SwapPop(s, id) == s[..id];
    }
  }

  /** Another component survives the removal of t unchanged. */
  lemma {:induction false} CompSurvives<X>(g0: Graph, g: Graph, terms: set<Node>, m: Metadata<X>, s: RTree, t: RTree)
    requires Wf(g0) && CompOk(g0, terms, m, s) && Apart(g0, s, t) && Removed(g0, t, g)
    ensures CompOk(g, terms, m, s) && InnerNodes(g, s) == InnerNodes(g0, s) && CompTerms(g, s) == CompTerms(g0, s)
  {
    Endpoints(g0, terms, s);
    forall a | a in AllEntries(s) ensures a.edge in g.edges {
      EdgeInEdgeSeq(s, a);
    }
    InnerNodesLive(g0, terms, s);
    forall x | x in InnerNodes(g0, s) ensures Adj(g, x) == Adj(g0, x) {
      InnerEdgesOwned(g0, terms, s, x);
      AdjSpec(g0, x);
      AdjSubgraph(g0, g, x);
      KeepAllIn(Adj(g0, x), g.edges.Keys);
    }
    ShapeFrame(g0, g, terms, s);
    InnerFrame(g0, g, s);
    assert s.entry in AllEntries(s);
    forall i | 0 <= i < |EdgeSeq(s)| ensures EdgeSeq(s)[i] in g.edges {
      assert AllEntries(s)[i] in AllEntries(s);
    }
    SumWeightsFrame(g0, g, EdgeSeq(s));
  }

  /** Every other record of a valid store still describes its tree once component id is gone. */
  lemma {:induction false} Survivors<X>(g0: Graph, g: Graph, terms: set<Node>, nodeOrig: map<Node, ONode>,
                                        comps: seq<Metadata<X>>, shapes: seq<RTree>, id: nat)
    requires Wf(g0) && ComponentsOk(g0, terms, comps, shapes) && TerminalsAllOk(g0, nodeOrig, comps, shapes)
    requires id < |comps| && Removed(g0, shapes[id], g)
    ensures forall j :: 0 <= j < |comps| && j != id ==>
      CompOk(g, terms, comps[j], shapes[j]) && InnerNodes(g, shapes[j]) == InnerNodes(g0, shapes[j]) &&
      TerminalsOk(g, nodeOrig, comps[j], shapes[j])
  {
    var t := shapes[id];
    forall j | 0 <= j < |comps| && j != id
      ensures CompOk(g, terms, comps[j], shapes[j]) && InnerNodes(g, shapes[j]) == InnerNodes(g0, shapes[j])
      ensures TerminalsOk(g, nodeOrig, comps[j], shapes[j])
    {
      assert CompOk(g0, terms, comps[j], shapes[j]) && TerminalsOk(g0, nodeOrig, comps[j], shapes[j]);
      if j < id {
        assert Apart(g0, shapes[j], t);
      } else {
        assert Apart(g0, t, shapes[j]);
        ApartSym(g0, t, shapes[j]);
      }
      CompSurvives(g0, g, terms, comps[j], shapes[j], t);
    }
  }

  /** Removing component id from a valid store leaves a valid store of the others. */
  lemma {:induction false} RemoveValid<X>(isTerminal: set<ONode>, g0: Graph, g: Graph, nodeCopy: map<ONode, Node>,
                                          nodeOrig: map<Node, ONode>, comps: seq<Metadata<X>>, shapes: seq<RTree>, id: nat)
    requires StoreOk(isTerminal, g0, nodeCopy, nodeOrig, comps, shapes) && id < |comps|
    requires Wf(g) && Removed(g0, shapes[id], g)
    ensures StoreOk(isTerminal, g, nodeCopy, nodeOrig, SwapPop(comps, id), SwapPop(shapes, id))
  {
    var terms := Terms(nodeOrig, isTerminal);
    var n := |comps|;
    Survivors(g0, g, terms, nodeOrig, comps, shapes, id);
    var cs, ss := SwapPop(comps, id), SwapPop(shapes, id);
    SwapPopAt(comps, id);
    SwapPopAt(shapes, id);
    forall i | 0 <= i < |cs| ensures CompOk(g, terms, cs[i], ss[i]) && TerminalsOk(g, nodeOrig, cs[i], ss[i]) {
      var j := SwapPopFrom(n, id, i);
      assert cs[i] == comps[j] && ss[i] == shapes[j];
    }
    forall i, j | 0 <= i < j < |cs| ensures Apart(g, ss[i], ss[j]) {
      var i', j' := SwapPopFrom(n, id, i), SwapPopFrom(n, id, j);
      assert ss[i] == shapes[i'] && ss[j] == shapes[j'];
      if i' < j' {
        assert Apart(g0, shapes[i'], shapes[j']);
      } else {
        assert Apart(g0, shapes[j'], shapes[i']);
        ApartSym(g0, shapes[j'], shapes[i']);
      }
    }
    assert CompOk(g0, terms, comps[id], shapes[id]);
    InnerNodesLive(g0, terms, shapes[id]);
    assert CopiesOk(isTerminal, g, nodeCopy, nodeOrig);
  }
}
