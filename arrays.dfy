/**
 * The two OGDF Array helpers the store relies on: sorting nodes by their index
 * (quicksort with an IndexComparer) and linearSearch.  Nodes are represented by
 * their index, so sorting by index is sorting the numbers.  The sort is specified
 * by its result (sorted, same elements); the model computes it by insertion.
 */
module ArrayOps {
  ghost predicate Sorted(s: seq<nat>)
  {
    forall i, j :: 0 <= i < j < |s| ==> s[i] <= s[j]
  }

  function InsertSorted(x: nat, s: seq<nat>): (r: seq<nat>)
    requires Sorted(s)
    ensures Sorted(r) && multiset(r) == multiset(s) + multiset{x}
  {
    if s == [] then [x]
    else if x <= s[0] then [x] + s
    else
      var rest := InsertSorted(x, s[1..]);
      assert s == [s[0]] + s[1..];
      BoundKept(s[0], x, s[1..], rest);
      [s[0]] + rest
  }

  /** A lower bound of t and of x bounds every reordering of t with x added. */
  lemma BoundKept(y: nat, x: nat, t: seq<nat>, r: seq<nat>)
    requires y <= x && (forall k :: 0 <= k < |t| ==> y <= t[k])
    requires multiset(r) == multiset(t) + multiset{x}
    ensures forall k :: 0 <= k < |r| ==> y <= r[k]
  {
    forall k | 0 <= k < |r|
      ensures y <= r[k]
    {
      assert r[k] in multiset(r);
      if r[k] != x {
        assert r[k] in t;
      }
    }
  }

  /** data.terminals.quicksort(IndexComparer<node>()): the same nodes, ascending by index. */
  function SortByIndex(s: seq<nat>): (r: seq<nat>)
    ensures Sorted(r) && multiset(r) == multiset(s)
  {
    if s == [] then []
    else
      assert s == s[..|s| - 1] + [s[|s| - 1]];
      InsertSorted(s[|s| - 1], SortByIndex(s[..|s| - 1]))
  }

  /** Array::linearSearch: a position holding x (here the first), or -1 when there is none. */
  function LinearSearch(s: seq<nat>, x: nat): (r: int)
    ensures -1 <= r < |s|
    ensures r == -1 <==> x !in s
    ensures r >= 0 ==> s[r] == x && x !in s[..r]
  {
    if s == [] then -1
    else if s[0] == x then 0
    else
      var r := LinearSearch(s[1..], x);
      assert s == [s[0]] + s[1..];
      if r == -1 then -1
      else
        assert s[..r + 1] == [s[0]] + s[1..][..r];
        r + 1
  }
}
