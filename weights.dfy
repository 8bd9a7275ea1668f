/**
 * Sums of edge weights.  OGDF keeps weights as T (in practice double); the model
 * uses integers, so sums are exact and their order does not matter.
 */
module Weights {
  import opened Graphs

  /** The sum of the weights of the live edges among es. */
  function SumWeights(g: Graph, es: seq<EdgeId>): int
  {
    if es == [] then 0
    else SumWeights(g, es[..|es| - 1]) + (if es[|es| - 1] in g.edges then g.edges[es[|es| - 1]].weight else 0)
  }

  /** The ids 0 .. n - 1 in order. */
  function Range(n: nat): (r: seq<EdgeId>)
    ensures |r| == n && forall i :: 0 <= i < n ==> r[i] == i
  {
    seq(n, i requires 0 <= i < n => i)
  }

  lemma {:induction false} SumWeightsAppend(g: Graph, a: seq<EdgeId>, b: seq<EdgeId>)
    ensures SumWeights(g, a + b) == SumWeights(g, a) + SumWeights(g, b)
    decreases |b|
  {
    if b == [] {
      assert a + b == a;
    } else {
      assert (a + b)[..|a + b| - 1] == a + b[..|b| - 1];
      SumWeightsAppend(g, a, b[..|b| - 1]);
    }
  }

  /** A sum of weights does not depend on the order of the ids. */
  lemma {:induction false} SumWeightsPerm(g: Graph, a: seq<EdgeId>, b: seq<EdgeId>)
    requires multiset(a) == multiset(b)
    ensures SumWeights(g, a) == SumWeights(g, b)
    decreases |a|
  {
    if a != [] {
      var x := a[|a| - 1];
      var a' := a[..|a| - 1];
      assert a == a' + [x];
      assert x in multiset(b);
      var j :| 0 <= j < |b| && b[j] == x;
      var b' := b[..j] + b[j + 1..];
      assert b == b[..j] + [x] + b[j + 1..];
      assert multiset(b) == multiset(b[..j]) + multiset{x} + multiset(b[j + 1..]);
      assert multiset(a) == multiset(a') + multiset{x};
      assert multiset(b') == multiset(b[..j]) + multiset(b[j + 1..]);
      MultisetCancel(multiset(a'), multiset(b'), x);
      SumWeightsPerm(g, a', b');
      SumWeightsAppend(g, b[..j] + [x], b[j + 1..]);
      SumWeightsAppend(g, b[..j], [x]);
      SumWeightsAppend(g, b[..j], b[j + 1..]);
      assert SumWeights(g, [x]) == SumWeights(g, a) - SumWeights(g, a') by {
        assert [x][..0] == [];
      }
    }
  }

  lemma {:induction false} MultisetCancel<T>(m: multiset<T>, n: multiset<T>, x: T)
    requires m + multiset{x} == n + multiset{x}
    ensures m == n
  {
    forall y
      ensures m[y] == n[y]
    {
      assert (m + multiset{x})[y] == m[y] + multiset{x}[y];
      assert (n + multiset{x})[y] == n[y] + multiset{x}[y];
    }
  }

  /** Sums over edges whose records agree in two graphs agree. */
  lemma {:induction false} SumWeightsFrame(g: Graph, h: Graph, es: seq<EdgeId>)
    requires forall i :: 0 <= i < |es| ==> es[i] in g.edges && es[i] in h.edges && h.edges[es[i]].weight == g.edges[es[i]].weight
    ensures SumWeights(h, es) == SumWeights(g, es)
  {
    if es != [] {
      SumWeightsFrame(g, h, es[..|es| - 1]);
    }
  }

  /** Ids shifted by base, as insert renumbers a component's edges. */
  function ShiftIds(es: seq<EdgeId>, base: nat): (r: seq<EdgeId>)
    ensures |r| == |es| && forall i :: 0 <= i < |es| ==> r[i] == es[i] + base
  {
    seq(|es|, i requires 0 <= i < |es| => es[i] + base)
  }

  lemma {:induction false} SumWeightsShift(g: Graph, h: Graph, es: seq<EdgeId>, base: nat)
    requires forall i :: 0 <= i < |es| ==> es[i] in g.edges && es[i] + base in h.edges && h.edges[es[i] + base].weight == g.edges[es[i]].weight
    ensures SumWeights(h, ShiftIds(es, base)) == SumWeights(g, es)
  {
    if es != [] {
      SumWeightsShift(g, h, es[..|es| - 1], base);
      assert ShiftIds(es, base)[..|es| - 1] == ShiftIds(es[..|es| - 1], base);
    }
  }

  /** A sequence with the multiset of a duplicate-free one has no duplicates either. */
  lemma {:induction false} MultisetNoDup<T>(a: seq<T>, b: seq<T>)
    requires multiset(a) == multiset(b) && NoDup(b)
    ensures NoDup(a)
  {
    NoDupCount(b);
    forall i, j | 0 <= i < j < |a|
      ensures a[i] != a[j]
    {
      assert a == a[..j] + a[j..];
      assert a[..j][i] == a[i] && a[j..][0] == a[j];
      assert multiset(a)[a[j]] == multiset(a[..j])[a[j]] + multiset(a[j..])[a[j]];
    }
  }

  lemma {:induction false} NoDupCount<T>(s: seq<T>)
    requires NoDup(s)
    ensures forall x :: multiset(s)[x] <= 1
  {
    if s != [] {
      var p := s[..|s| - 1];
      assert s == p + [s[|s| - 1]];
      assert NoDup(p);
      NoDupCount(p);
      assert s[|s| - 1] !in p;
    }
  }
}
