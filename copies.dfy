/**
 * The full component insert receives: an EdgeWeightedGraphCopy of part of the
 * original Steiner instance.  Its nodes are numbered 0 .. |orig| - 1 in the order
 * comp.nodes lists them and orig[x] is the original of node x; edge i, in the
 * order comp.edges lists them, joins two of those nodes.
 */
module ComponentCopies {
  import opened Graphs
  import opened Shapes
  import opened Weights

  /** A node of the original Steiner instance, by index. */
  type ONode = nat

  datatype Option<T> = None | Some(value: T)

  datatype ComponentCopy = ComponentCopy(orig: seq<ONode>, edges: seq<Edge>)

  function NodesBelow(n: nat): (s: set<Node>)
    ensures forall v: Node :: v in s <==> v < n
  {
    if n == 0 then {} else NodesBelow(n - 1) + {n - 1}
  }

  function EdgeMap(es: seq<Edge>): (m: map<EdgeId, Edge>)
    ensures forall id: EdgeId :: id in m <==> id < |es|
    ensures forall id: EdgeId :: id < |es| ==> m[id] == es[id]
  {
    if es == [] then map[] else EdgeMap(es[..|es| - 1])[|es| - 1 := es[|es| - 1]]
  }

  /** The copy as a graph of its own: node x, edge i. */
  function InputGraph(comp: ComponentCopy): Graph
  {
    Graph(NodesBelow(|comp.orig|), EdgeMap(comp.edges), |comp.orig|, |comp.edges|)
  }

  /** Edges join two distinct nodes of the copy. */
  ghost predicate EdgesInRange(comp: ComponentCopy)
  {
    forall i :: 0 <= i < |comp.edges| ==>
      comp.edges[i].src < |comp.orig| && comp.edges[i].tgt < |comp.orig| && comp.edges[i].src != comp.edges[i].tgt
  }

  lemma {:induction false} InputWf(comp: ComponentCopy)
    requires EdgesInRange(comp)
    ensures Wf(InputGraph(comp))
  {
  }

  /** The nodes of the copy whose originals are terminals. */
  function TermIdx(comp: ComponentCopy, isTerminal: set<ONode>): set<Node>
  {
    set x | 0 <= x < |comp.orig| && comp.orig[x] in isTerminal
  }

  /** The originals that are terminals, in the order of the copy's nodes. */
  function TerminalsOf(orig: seq<ONode>, isTerminal: set<ONode>): (r: seq<ONode>)
    ensures |r| <= |orig|
  {
    if orig == [] then [] else
      var last := orig[|orig| - 1];
      TerminalsOf(orig[..|orig| - 1], isTerminal) + (if last in isTerminal then [last] else [])
  }

  /** The originals that are not terminals, in the order of the copy's nodes. */
  function SteinerOf(orig: seq<ONode>, isTerminal: set<ONode>): (r: seq<ONode>)
    ensures |r| <= |orig|
  {
    if orig == [] then [] else
      var last := orig[|orig| - 1];
      SteinerOf(orig[..|orig| - 1], isTerminal) + (if last in isTerminal then [] else [last])
  }

  /** TerminalsOf keeps exactly the originals that are terminals. */
  lemma {:induction false} TerminalsOfMembers(orig: seq<ONode>, isTerminal: set<ONode>)
    ensures forall t :: t in TerminalsOf(orig, isTerminal) <==> t in orig && t in isTerminal
  {
    if orig != [] {
      var init := orig[..|orig| - 1];
      TerminalsOfMembers(init, isTerminal);
      assert orig == init + [orig[|orig| - 1]];
    }
  }

  /** Distinct originals give distinct terminals. */
  lemma {:induction false} TerminalsOfNoDup(orig: seq<ONode>, isTerminal: set<ONode>)
    requires NoDup(orig)
    ensures NoDup(TerminalsOf(orig, isTerminal))
  {
    if orig != [] {
      var init, last := orig[..|orig| - 1], orig[|orig| - 1];
      assert NoDup(init) by {
        forall i, j | 0 <= i < j < |init| ensures init[i] != init[j] {
          assert init[i] == orig[i] && init[j] == orig[j];
        }
      }
      TerminalsOfNoDup(init, isTerminal);
      TerminalsOfMembers(init, isTerminal);
      assert last !in init by {
        forall i | 0 <= i < |init| ensures init[i] != last {
          assert init[i] == orig[i];
        }
      }
    }
  }

  /** SteinerOf keeps exactly the originals that are not terminals. */
  lemma {:induction false} SteinerOfMembers(orig: seq<ONode>, isTerminal: set<ONode>)
    ensures forall t :: t in SteinerOf(orig, isTerminal) <==> t in orig && t !in isTerminal
  {
    if orig != [] {
      var init := orig[..|orig| - 1];
      SteinerOfMembers(init, isTerminal);
      assert orig == init + [orig[|orig| - 1]];
    }
  }

  /**
   * The start entry insert settles on after its first n edges: the entry at the
   * terminal end of the last of them that has one, the source end winning.
   */
  function StartUpTo(comp: ComponentCopy, isTerminal: set<ONode>, n: nat): (r: Option<AdjEntry>)
    requires n <= |comp.edges| && EdgesInRange(comp)
    ensures r.Some? ==> r.value.edge < n && NodeOf(InputGraph(comp), r.value) in TermIdx(comp, isTerminal)
  {
    if n == 0 then None
    else
      var e := comp.edges[n - 1];
      if comp.orig[e.src] in isTerminal then Some(AdjEntry(n - 1, true))
      else if comp.orig[e.tgt] in isTerminal then Some(AdjEntry(n - 1, false))
      else StartUpTo(comp, isTerminal, n - 1)
  }

  /** The sum of the weights of a sequence of edges. */
  function InputCost(es: seq<Edge>): int
  {
    if es == [] then 0 else InputCost(es[..|es| - 1]) + es[|es| - 1].weight
  }

  /** The input's cost is the sum of the weights of all its edges as a graph. */
  lemma {:induction false} InputCostRange(comp: ComponentCopy, n: nat)
    requires n <= |comp.edges|
    ensures InputCost(comp.edges[..n]) == SumWeights(InputGraph(comp), Range(n))
  {
    if n > 0 {
      InputCostRange(comp, n - 1);
      assert comp.edges[..n][..n - 1] == comp.edges[..n - 1];
      assert Range(n)[..n - 1] == Range(n - 1);
    }
  }

  /**
   * What insert takes for granted about its input (comp is a tree whose leaves
   * are exactly its terminals), given as the ghost tree w of comp seen from the
   * start entry insert picks: the originals are distinct; w has the full
   * component shape; it uses every edge once and meets every Steiner node once;
   * comp has one more terminal than w has leaves; and its terminal nodes are
   * exactly the node w starts at and the leaves of w.
   */
  ghost predicate InputOk(comp: ComponentCopy, isTerminal: set<ONode>, w: RTree)
  {
    NoDup(comp.orig) && EdgesInRange(comp) &&
    ShapeOk(InputGraph(comp), TermIdx(comp, isTerminal), w) &&
    Unique(InputGraph(comp), w) &&
    StartUpTo(comp, isTerminal, |comp.edges|) == Some(w.entry) &&
    multiset(EdgeSeq(w)) == multiset(Range(|comp.edges|)) &&
    |TerminalsOf(comp.orig, isTerminal)| == LeafCount(w) + 1 &&
    CompTerms(InputGraph(comp), w) == TermIdx(comp, isTerminal)
  }
}
