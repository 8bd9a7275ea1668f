/**
 * The pair chains of the well-separated pair decomposition (WSPD).
 *
 * Pairs live in a fixed-size array, appended one after another.  Every
 * quadtree node threads the pairs it belongs to onto an intrusive singly
 * linked chain: its record holds the number of its pairs and the first and
 * last pair of the chain, and every pair holds, for each of its two nodes,
 * the index of the next pair in that node's chain.
 */
module WellSeparatedPairs {

  /** The source's `uint32_t`. */
  newtype u32 = x: int | 0 <= x < 0x1_0000_0000

  /** Per-node record: how many pairs contain the node, and the ends of its chain. */
  datatype NodeInfo = NodeInfo(numWSNodes: u32, firstEntry: u32, lastEntry: u32)

  /** Per-pair record: the two nodes and the next pair in the chain of each. */
  datatype PairInfo = PairInfo(a: u32, b: u32, aNext: u32, bNext: u32)

  predicate InPair(p: (u32, u32), v: u32)
  {
    p.0 == v || p.1 == v
  }

  /** The chain link that `nextPair` follows for node `v` in pair record `p`. */
  function NextIn(p: PairInfo, v: u32): u32
  {
    if p.a == v then p.aNext else p.bNext
  }

  /**
   * The indices of the pairs of `log` that contain `v`, in insertion order:
   * what the chain of `v` is meant to list.
   */
  function PairsOf(log: seq<(u32, u32)>, v: u32): (r: seq<nat>)
    ensures |r| <= |log|
  {
    if log == [] then []
    else PairsOf(log[..|log| - 1], v) + (if InPair(log[|log| - 1], v) then [|log| - 1] else [])
  }

  /** The indices in `occ` strictly increase. */
  ghost predicate Increasing(occ: seq<nat>)
  {
    forall j, k :: 0 <= j < k < |occ| ==> occ[j] < occ[k]
  }

  /**
   * Each index `PairsOf(log, v)` lists is a pair of `log` containing `v`,
   * and the indices increase.
   */
  lemma {:induction false} PairsOfSpec(log: seq<(u32, u32)>, v: u32)
    ensures var r := PairsOf(log, v);
      && (forall j :: 0 <= j < |r| ==> r[j] < |log| && InPair(log[r[j]], v))
      && Increasing(r)
  {
    if log != [] {
      PairsOfSpec(log[..|log| - 1], v);
    }
  }

  /** Every pair of `log` containing `v` is listed by `PairsOf(log, v)`. */
  lemma {:induction false} PairsOfComplete(log: seq<(u32, u32)>, v: u32, i: nat)
    requires i < |log| && InPair(log[i], v)
    ensures i in PairsOf(log, v)
  {
    var init := log[..|log| - 1];
    if i < |log| - 1 {
      assert init[i] == log[i];
      PairsOfComplete(init, v, i);
    }
  }

  /**
   * The chain of `v` is consistent with the pairs added so far: the node
   * record counts them, points at the first and the last, and every pair but
   * the last links to the next one.
   */
  ghost predicate ChainOk(ps: seq<PairInfo>, info: NodeInfo, log: seq<(u32, u32)>, v: u32)
  {
    var occ := PairsOf(log, v);
    && info.numWSNodes as int == |occ| <= |log|
    && (|occ| > 0 ==> info.firstEntry as int == occ[0] && info.lastEntry as int == occ[|occ| - 1] < |log|)
    && Linked(ps, occ, v)
  }

  /** The chain of every node is consistent. */
  ghost predicate ChainsOk(ps: seq<PairInfo>, infos: seq<NodeInfo>, log: seq<(u32, u32)>)
  {
    forall v: u32 {:trigger ChainOk(ps, infos[v], log, v)} :: v as int < |infos| ==> ChainOk(ps, infos[v], log, v)
  }

  /** Each pair of `occ` but the last links, for node `v`, to the one after it. */
  ghost predicate Linked(ps: seq<PairInfo>, occ: seq<nat>, v: u32)
  {
    forall j, k :: 0 <= j < k < |occ| && k == j + 1 ==> occ[j] < |ps| && NextIn(ps[occ[j]], v) as int == occ[k]
  }

  /** The last pair containing `v`, or -1 when there is none. */
  function TailOf(log: seq<(u32, u32)>, v: u32): (t: int)
    ensures -1 <= t < |log|
    ensures t >= 0 ==> InPair(log[t], v)
  {
    PairsOfSpec(log, v);
    var occ := PairsOf(log, v);
    if |occ| > 0 then occ[|occ| - 1] else -1
  }

  /** `a_e.a_next = e` or `a_e.b_next = e`, whichever slot of `p` holds `v`. */
  function SetLink(p: PairInfo, v: u32, e: u32): PairInfo
  {
    if v == p.a then p.(aNext := e) else p.(bNext := e)
  }

  /** `e.a = a; e.b = b`: pair record `e` gets its two nodes. */
  function WritePair(ps: seq<PairInfo>, e: u32, a: u32, b: u32): seq<PairInfo>
    requires e as int < |ps|
  {
    ps[e := ps[e].(a := a, b := b)]
  }

  /**
   * The pair records after pair `e` is linked behind the last pair of `v`'s
   * chain, when `v`'s record `ni[v]` says it has one.
   */
  function LinkStep(ps: seq<PairInfo>, ni: seq<NodeInfo>, v: u32, e: u32): seq<PairInfo>
    requires v as int < |ni| && (ni[v].numWSNodes != 0 ==> ni[v].lastEntry as int < |ps|)
  {
    if ni[v].numWSNodes != 0 then
      var last := ni[v].lastEntry;
      ps[last := SetLink(ps[last], v, e)]
    else ps
  }

  /** `v`'s record once pair `e` starts its chain, if it had no pair. */
  function StartChain(ni: seq<NodeInfo>, v: u32, e: u32): seq<NodeInfo>
    requires v as int < |ni|
  {
    if ni[v].numWSNodes != 0 then ni else ni[v := ni[v].(firstEntry := e)]
  }

  /** `v`'s record once pair `e` ends its chain, which is one pair longer. */
  function EndChain(ni: seq<NodeInfo>, v: u32, e: u32): seq<NodeInfo>
    requires v as int < |ni| && ni[v].numWSNodes < 0xFFFF_FFFF
  {
    ni[v := ni[v].(lastEntry := e, numWSNodes := ni[v].numWSNodes + 1)]
  }

  /** Ghost guard shared by `AfterAdd` and `InfoAfterAdd`. */
  ghost predicate CanAdd(ps: seq<PairInfo>, ni: seq<NodeInfo>, e: u32, a: u32, b: u32)
  {
    && e as int < |ps| && a as int < |ni| && b as int < |ni| && a != b
    && (ni[a].numWSNodes != 0 ==> ni[a].lastEntry as int < |ps|)
    && (ni[b].numWSNodes != 0 ==> ni[b].lastEntry as int < |ps|)
    && ni[a].numWSNodes < 0xFFFF_FFFF && ni[b].numWSNodes < 0xFFFF_FFFF
  }

  /** The pair records after `addWSP(a, b)` has written and linked pair `e`. */
  ghost function AfterAdd(ps: seq<PairInfo>, ni: seq<NodeInfo>, e: u32, a: u32, b: u32): seq<PairInfo>
    requires CanAdd(ps, ni, e, a, b)
  {
    LinkStep(LinkStep(WritePair(ps, e, a, b), ni, a, e), StartChain(ni, a, e), b, e)
  }

  /** The node records after `addWSP(a, b)` has appended pair `e`. */
  ghost function InfoAfterAdd(ni: seq<NodeInfo>, e: u32, a: u32, b: u32): seq<NodeInfo>
    requires a as int < |ni| && b as int < |ni| && a != b
    requires ni[a].numWSNodes < 0xFFFF_FFFF && ni[b].numWSNodes < 0xFFFF_FFFF
  {
    EndChain(EndChain(StartChain(StartChain(ni, a, e), b, e), a, e), b, e)
  }

  /** Records `ps` hold the endpoints of `log`, and no logged pair is a loop. */
  ghost predicate Holds(ps: seq<PairInfo>, log: seq<(u32, u32)>)
  {
    && |log| <= |ps|
    && forall i :: 0 <= i < |log| ==> ps[i].a == log[i].0 && ps[i].b == log[i].1 && log[i].0 != log[i].1
  }

  /** Node `v`'s record agrees with `log` about the tail of its chain. */
  ghost predicate TailAgrees(ni: seq<NodeInfo>, log: seq<(u32, u32)>, v: u32)
  {
    && v as int < |ni|
    && ni[v].numWSNodes as int <= |log|
    && (ni[v].numWSNodes == 0 <==> TailOf(log, v) == -1)
    && (ni[v].numWSNodes != 0 ==> ni[v].lastEntry as int == TailOf(log, v))
  }

  /** What `addWSP` reads off a consistent chain: the count is bounded, and the tail is the last pair. */
  lemma TailFacts(ps: seq<PairInfo>, ni: seq<NodeInfo>, log: seq<(u32, u32)>, v: u32)
    requires v as int < |ni| && ChainOk(ps, ni[v], log, v)
    ensures TailAgrees(ni, log, v)
  {
    PairsOfSpec(log, v);
  }

  /** After `addWSP`, a logged pair's link for one of its nodes is redirected exactly when it was that node's tail. */
  lemma LinkAfterAdd(ps: seq<PairInfo>, ni: seq<NodeInfo>, log: seq<(u32, u32)>, a: u32, b: u32, i: nat, w: u32)
    requires Holds(ps, log) && |log| < |ps| && |log| < 0xFFFF_FFFF && a != b
    requires TailAgrees(ni, log, a) && TailAgrees(ni, log, b)
    requires i < |log| && InPair(log[i], w)
    ensures var ps' := AfterAdd(ps, ni, |log| as u32, a, b);
      && ps'[i].a == ps[i].a && ps'[i].b == ps[i].b
      && NextIn(ps'[i], w) ==
         if (w == a && i == TailOf(log, a)) || (w == b && i == TailOf(log, b)) then |log| as u32 else NextIn(ps[i], w)
  {
    var ta, tb := TailOf(log, a), TailOf(log, b);
    assert ta >= 0 ==> InPair(log[ta], a);
    assert tb >= 0 ==> InPair(log[tb], b);
  }

  /**
   * `ps'` is `ps` after appending pair `|log|` = (a, b): the logged pairs keep
   * their nodes, and a logged pair's link for one of its nodes now points at
   * the new pair exactly when that pair was the node's tail.
   */
  ghost predicate Redirected(ps: seq<PairInfo>, ps': seq<PairInfo>, log: seq<(u32, u32)>, a: u32, b: u32)
    requires |log| < 0x1_0000_0000
  {
    && |ps'| == |ps| && |log| <= |ps|
    && forall i, w :: 0 <= i < |log| && InPair(log[i], w) ==>
         NextIn(ps'[i], w) == if (w == a && i == TailOf(log, a)) || (w == b && i == TailOf(log, b)) then |log| as u32 else NextIn(ps[i], w)
  }

  lemma AfterAddRedirects(ps: seq<PairInfo>, ni: seq<NodeInfo>, log: seq<(u32, u32)>, a: u32, b: u32)
    requires Holds(ps, log) && |log| < |ps| && |log| < 0xFFFF_FFFF && a != b
    requires TailAgrees(ni, log, a) && TailAgrees(ni, log, b)
    ensures Redirected(ps, AfterAdd(ps, ni, |log| as u32, a, b), log, a, b)
  {
    forall i, w | 0 <= i < |log| && InPair(log[i], w) {
      LinkAfterAdd(ps, ni, log, a, b, i, w);
    }
  }

  lemma PairsOfAppend(log: seq<(u32, u32)>, p: (u32, u32), v: u32)
    ensures PairsOf(log + [p], v) == PairsOf(log, v) + (if InPair(p, v) then [|log|] else [])
  {
    assert (log + [p])[..|log|] == log;
  }

  /**
   * A chain `occ` whose links in `ps'` are those of `ps` except that its
   * last pair now links to `n`: `occ + [n]` is linked.
   */
  lemma LinkedAppend(ps: seq<PairInfo>, ps': seq<PairInfo>, occ: seq<nat>, v: u32, n: nat)
    requires Linked(ps, occ, v) && Increasing(occ) && |ps'| == |ps|
    requires forall j :: 0 <= j < |occ| ==> occ[j] < |ps|
    requires forall j :: 0 <= j < |occ| ==>
      NextIn(ps'[occ[j]], v) as int == if j == |occ| - 1 then n else NextIn(ps[occ[j]], v) as int
    ensures Linked(ps', occ + [n], v)
  {
    var occ' := occ + [n];
    forall j, k | 0 <= j < k < |occ'| && k == j + 1
      ensures occ'[j] < |ps'| && NextIn(ps'[occ'[j]], v) as int == occ'[k]
    {
      assert occ'[j] == occ[j];
      if k < |occ| {
        assert occ'[k] == occ[k];
      }
    }
  }

  /** A chain `occ` whose links in `ps'` are those of `ps` stays linked. */
  lemma LinkedUnchanged(ps: seq<PairInfo>, ps': seq<PairInfo>, occ: seq<nat>, v: u32)
    requires Linked(ps, occ, v) && |ps'| == |ps|
    requires forall j :: 0 <= j < |occ| ==> occ[j] < |ps| && NextIn(ps'[occ[j]], v) == NextIn(ps[occ[j]], v)
    ensures Linked(ps', occ, v)
  {
    forall j, k | 0 <= j < k < |occ| && k == j + 1
      ensures occ[j] < |ps'| && NextIn(ps'[occ[j]], v) as int == occ[k]
    {
    }
  }

  /** For a node of the new pair, only the link of its old tail moves, to the new pair. */
  lemma RedirectedTailAt(ps: seq<PairInfo>, ps': seq<PairInfo>, log: seq<(u32, u32)>, a: u32, b: u32, v: u32, j: nat)
    requires |log| < 0x1_0000_0000 && a != b && (v == a || v == b)
    requires Redirected(ps, ps', log, a, b)
    requires j < |PairsOf(log, v)|
    ensures var occ := PairsOf(log, v);
      occ[j] < |ps| && NextIn(ps'[occ[j]], v) as int == if j == |occ| - 1 then |log| else NextIn(ps[occ[j]], v) as int
  {
    var occ := PairsOf(log, v);
    PairsOfSpec(log, v);
    var i := occ[j];
    assert InPair(log[i], v);
    if j < |occ| - 1 {
      assert i < occ[|occ| - 1];
    }
  }

  lemma RedirectedTail(ps: seq<PairInfo>, ps': seq<PairInfo>, log: seq<(u32, u32)>, a: u32, b: u32, v: u32)
    requires |log| < 0x1_0000_0000 && a != b && (v == a || v == b)
    requires Redirected(ps, ps', log, a, b)
    ensures var occ := PairsOf(log, v);
      forall j :: 0 <= j < |occ| ==>
        occ[j] < |ps| && NextIn(ps'[occ[j]], v) as int == if j == |occ| - 1 then |log| else NextIn(ps[occ[j]], v) as int
  {
    forall j | 0 <= j < |PairsOf(log, v)| {
      RedirectedTailAt(ps, ps', log, a, b, v, j);
    }
  }

  /** For any other node, no link of its chain moves. */
  lemma RedirectedElsewhere(ps: seq<PairInfo>, ps': seq<PairInfo>, log: seq<(u32, u32)>, a: u32, b: u32, v: u32)
    requires |log| < 0x1_0000_0000 && v != a && v != b
    requires Redirected(ps, ps', log, a, b)
    ensures var occ := PairsOf(log, v);
      forall j :: 0 <= j < |occ| ==> occ[j] < |ps| && NextIn(ps'[occ[j]], v) == NextIn(ps[occ[j]], v)
  {
    var occ := PairsOf(log, v);
    PairsOfSpec(log, v);
    forall j | 0 <= j < |occ|
      ensures occ[j] < |ps| && NextIn(ps'[occ[j]], v) == NextIn(ps[occ[j]], v)
    {
      assert InPair(log[occ[j]], v);
    }
  }

  /** `addWSP(a, b)` keeps the chain of every node `v` consistent. */
  lemma {:induction false} ChainAfterAdd(ps: seq<PairInfo>, ps': seq<PairInfo>, info: NodeInfo, info': NodeInfo,
                                         log: seq<(u32, u32)>, a: u32, b: u32, v: u32)
    requires |log| < |ps| && |log| < 0x1_0000_0000 && a != b
    requires Redirected(ps, ps', log, a, b)
    requires ChainOk(ps, info, log, v)
    requires v != a && v != b ==> info' == info
    requires v == a || v == b ==>
      && info'.numWSNodes as int == info.numWSNodes as int + 1
      && info'.firstEntry as int == (if info.numWSNodes == 0 then |log| else info.firstEntry as int)
      && info'.lastEntry as int == |log|
    ensures ChainOk(ps', info', log + [(a, b)], v)
  {
    var occ := PairsOf(log, v);
    PairsOfAppend(log, (a, b), v);
    PairsOfSpec(log, v);
    if v == a || v == b {
      RedirectedTail(ps, ps', log, a, b, v);
      LinkedAppend(ps, ps', occ, v, |log|);
    } else {
      RedirectedElsewhere(ps, ps', log, a, b, v);
      LinkedUnchanged(ps, ps', occ, v);
    }
  }

  /**
   * The pair records `ps` and node records `ni` describe the pairs added so
   * far, `log`: every logged pair is stored with its two distinct nodes, and
   * every node's chain lists exactly its pairs.
   */
  ghost predicate Consistent(ps: seq<PairInfo>, ni: seq<NodeInfo>, log: seq<(u32, u32)>)
  {
    && Holds(ps, log)
    && (forall i :: 0 <= i < |log| ==> log[i].0 as int < |ni| && log[i].1 as int < |ni|)
    && ChainsOk(ps, ni, log)
  }

  /** Node `v`'s record after `addWSP(a, b)` has appended pair `e`. */
  lemma InfoAfterAddAt(ni: seq<NodeInfo>, e: u32, a: u32, b: u32, v: u32)
    requires a as int < |ni| && b as int < |ni| && a != b
    requires ni[a].numWSNodes < 0xFFFF_FFFF && ni[b].numWSNodes < 0xFFFF_FFFF
    requires v as int < |ni|
    ensures var ni' := InfoAfterAdd(ni, e, a, b);
      && |ni'| == |ni|
      && ni'[v] == if v == a || v == b then
           NodeInfo(ni[v].numWSNodes + 1, if ni[v].numWSNodes == 0 then e else ni[v].firstEntry, e)
         else ni[v]
  {
  }

  /** `addWSP(a, b)` keeps every node's chain consistent. */
  lemma ChainsAfterAdd(ps: seq<PairInfo>, ni: seq<NodeInfo>, log: seq<(u32, u32)>, a: u32, b: u32)
    requires Holds(ps, log) && ChainsOk(ps, ni, log)
    requires |log| < |ps| && |log| < 0xFFFF_FFFF && a != b
    requires TailAgrees(ni, log, a) && TailAgrees(ni, log, b)
    ensures ChainsOk(AfterAdd(ps, ni, |log| as u32, a, b), InfoAfterAdd(ni, |log| as u32, a, b), log + [(a, b)])
  {
    var ps' := AfterAdd(ps, ni, |log| as u32, a, b);
    var ni' := InfoAfterAdd(ni, |log| as u32, a, b);
    AfterAddRedirects(ps, ni, log, a, b);
    assert |ni'| == |ni|;
    forall v: u32 | v as int < |ni'|
      ensures ChainOk(ps', ni'[v], log + [(a, b)], v)
    {
      InfoAfterAddAt(ni, |log| as u32, a, b, v);
      assert ChainOk(ps, ni[v], log, v);
      ChainAfterAdd(ps, ps', ni[v], ni'[v], log, a, b, v);
    }
  }

  /** `addWSP(a, b)` stores the new pair with its nodes and keeps the others. */
  lemma HoldsAfterAdd(ps: seq<PairInfo>, ni: seq<NodeInfo>, log: seq<(u32, u32)>, a: u32, b: u32)
    requires Holds(ps, log)
    requires |log| < |ps| && |log| < 0xFFFF_FFFF && a != b
    requires TailAgrees(ni, log, a) && TailAgrees(ni, log, b)
    ensures Holds(AfterAdd(ps, ni, |log| as u32, a, b), log + [(a, b)])
  {
    var ps' := AfterAdd(ps, ni, |log| as u32, a, b);
    var log' := log + [(a, b)];
    forall i | 0 <= i < |log'|
      ensures ps'[i].a == log'[i].0 && ps'[i].b == log'[i].1 && log'[i].0 != log'[i].1
    {
      if i < |log| {
        LinkAfterAdd(ps, ni, log, a, b, i, log[i].0);
      }
    }
  }

  /** `addWSP(a, b)` keeps pair and node records consistent with the pairs added. */
  lemma ConsistentAfterAdd(ps: seq<PairInfo>, ni: seq<NodeInfo>, log: seq<(u32, u32)>, a: u32, b: u32)
    requires Consistent(ps, ni, log)
    requires |log| < |ps| && |log| < 0xFFFF_FFFF
    requires a as int < |ni| && b as int < |ni| && a != b
    ensures TailAgrees(ni, log, a) && TailAgrees(ni, log, b)
    ensures Consistent(AfterAdd(ps, ni, |log| as u32, a, b), InfoAfterAdd(ni, |log| as u32, a, b), log + [(a, b)])
  {
    assert ChainOk(ps, ni[a], log, a) && ChainOk(ps, ni[b], log, b);
    TailFacts(ps, ni, log, a);
    TailFacts(ps, ni, log, b);
    ChainsAfterAdd(ps, ni, log, a, b);
    HoldsAfterAdd(ps, ni, log, a, b);
  }

  /**
   * What `addWSP(a, b)` does to the records, field by field: the new pair
   * stores (a, b); both nodes count one more pair and end their chains at
   * it; a node that had no pair starts its chain there, otherwise its old
   * tail links to it; every other node record and every other pair record
   * is unchanged.
   */
  lemma AddEffects(ps: seq<PairInfo>, ni: seq<NodeInfo>, log: seq<(u32, u32)>, a: u32, b: u32)
    requires Consistent(ps, ni, log)
    requires |log| < |ps| && |log| < 0xFFFF_FFFF
    requires a as int < |ni| && b as int < |ni| && a != b
    ensures CanAdd(ps, ni, |log| as u32, a, b)
    ensures var e := |log| as u32;
      var ps', ni' := AfterAdd(ps, ni, e, a, b), InfoAfterAdd(ni, e, a, b);
      && |ps'| == |ps| && |ni'| == |ni|
      && ps'[e].a == a && ps'[e].b == b
      && ni'[a].numWSNodes == ni[a].numWSNodes + 1 && ni'[b].numWSNodes == ni[b].numWSNodes + 1
      && ni'[a].lastEntry == e && ni'[b].lastEntry == e
      && (ni[a].numWSNodes == 0 ==> ni'[a].firstEntry == e)
      && (ni[a].numWSNodes != 0 ==> ni'[a].firstEntry == ni[a].firstEntry && NextIn(ps'[ni[a].lastEntry], a) == e)
      && (ni[b].numWSNodes == 0 ==> ni'[b].firstEntry == e)
      && (ni[b].numWSNodes != 0 ==> ni'[b].firstEntry == ni[b].firstEntry && NextIn(ps'[ni[b].lastEntry], b) == e)
      && (forall v: u32 :: v as int < |ni| && v != a && v != b ==> ni'[v] == ni[v])
      && (forall i :: (0 <= i < |ps| && i != e as int
                       && !(ni[a].numWSNodes != 0 && i == ni[a].lastEntry as int)
                       && !(ni[b].numWSNodes != 0 && i == ni[b].lastEntry as int)) ==> ps'[i] == ps[i])
  {
    ConsistentAfterAdd(ps, ni, log, a, b);
    var e := |log| as u32;
    InfoAfterAddAt(ni, e, a, b, a);
    InfoAfterAddAt(ni, e, a, b, b);
    forall v: u32 | v as int < |ni| && v != a && v != b
      ensures InfoAfterAdd(ni, e, a, b)[v] == ni[v]
    {
      InfoAfterAddAt(ni, e, a, b, v);
    }
    var ta, tb := TailOf(log, a), TailOf(log, b);
    if ta >= 0 {
      LinkAfterAdd(ps, ni, log, a, b, ta, a);
    }
    if tb >= 0 {
      LinkAfterAdd(ps, ni, log, a, b, tb, b);
    }
  }

  /** In a consistent chain, the link of a chained pair leads to the next pair of the chain. */
  lemma ChainNext(ps: seq<PairInfo>, info: NodeInfo, log: seq<(u32, u32)>, v: u32, i: nat)
    requires i < |ps|
    ensures ChainOk(ps, info, log, v) ==> var occ := PairsOf(log, v);
      forall j :: 0 <= j < |occ| - 1 && occ[j] == i ==> NextIn(ps[i], v) as int == occ[j + 1]
  {
    var occ := PairsOf(log, v);
    if ChainOk(ps, info, log, v) {
      forall j | 0 <= j < |occ| - 1 && occ[j] == i
        ensures NextIn(ps[i], v) as int == occ[j + 1]
      {
        assert Linked(ps, occ, v);
      }
    }
  }

  /** The pairs met when starting at pair `i` and following `v`'s links for `k` pairs. */
  ghost function Walk(ps: seq<PairInfo>, v: u32, i: u32, k: nat): seq<nat>
    decreases k
  {
    if k == 0 || i as int >= |ps| then [] else [i as nat] + Walk(ps, v, NextIn(ps[i], v), k - 1)
  }

  lemma {:induction false} WalkSuffix(ps: seq<PairInfo>, occ: seq<nat>, v: u32, j: nat)
    requires |ps| < 0x1_0000_0000 && Linked(ps, occ, v)
    requires forall k :: 0 <= k < |occ| ==> occ[k] < |ps|
    requires j < |occ|
    ensures Walk(ps, v, occ[j] as u32, |occ| - j) == occ[j..]
    decreases |occ| - j
  {
    var i := occ[j] as u32;
    if j + 1 < |occ| {
      WalkSuffix(ps, occ, v, j + 1);
      assert NextIn(ps[i], v) as int == occ[j + 1];
      assert occ[j..] == [occ[j]] + occ[j + 1..];
    } else {
      assert Walk(ps, v, NextIn(ps[i], v), 0) == [];
    }
  }

  /**
   * The chain invariant read off: starting at `firstPairEntry(v)` and
   * following `nextPair(., v)` for `numWSNodes(v)` pairs lists exactly the
   * pairs containing `v`, in the order they were added.
   */
  lemma {:induction false} ChainListsPairs(ps: seq<PairInfo>, info: NodeInfo, log: seq<(u32, u32)>, v: u32)
    requires |log| <= |ps| < 0x1_0000_0000 && ChainOk(ps, info, log, v)
    ensures Walk(ps, v, info.firstEntry, info.numWSNodes as nat) == PairsOf(log, v)
  {
    var occ := PairsOf(log, v);
    PairsOfSpec(log, v);
    if |occ| > 0 {
      WalkSuffix(ps, occ, v, 0);
      assert occ[0..] == occ;
    }
  }

  class WSPD {
    const maxNumNodes: u32
    const maxNumPairs: u32
    /** m_nodeInfo: one record per quadtree node. */
    const nodeInfo: array<NodeInfo>
    /** m_pairs: the pair records, the first `numPairs` in use. */
    const pairs: array<PairInfo>
    var numPairs: u32
    /** The pairs added so far, in order. */
    ghost var log: seq<(u32, u32)>

    ghost predicate Valid()
      reads this, nodeInfo, pairs
    {
      && nodeInfo.Length == maxNumNodes as int
      && pairs.Length == maxNumPairs as int
      && |log| == numPairs as int <= maxNumPairs as int
      && Consistent(pairs[..], nodeInfo[..], log)
    }

    /**
     * The state `addWSP` starts from: no pairs, and every node with an
     * empty chain.  (The allocating constructor and `clear` are not part
     * of this model; this constructor stands for the cleared store.)
     */
    constructor (maxNumNodes: u32, maxNumPairs: u32)
      ensures Valid() && this.maxNumNodes == maxNumNodes && this.maxNumPairs == maxNumPairs
      ensures numPairs == 0 && log == []
      ensures forall v :: 0 <= v < nodeInfo.Length ==> nodeInfo[v].numWSNodes == 0
      ensures fresh(nodeInfo) && fresh(pairs)
    {
      this.maxNumNodes := maxNumNodes;
      this.maxNumPairs := maxNumPairs;
      nodeInfo := new NodeInfo[maxNumNodes as int](_ => NodeInfo(0, 0, 0));
      pairs := new PairInfo[maxNumPairs as int](_ => PairInfo(0, 0, 0, 0));
      numPairs := 0;
      log := [];
    }

    /** numWSNodes(a): the number of pairs containing `a`. */
    function NumWSNodes(a: u32): (r: u32)
      reads this, nodeInfo, pairs
      requires a as int < nodeInfo.Length
      ensures Valid() ==> r as int == |PairsOf(log, a)|
    {
      assert Valid() ==> ChainOk(pairs[..], nodeInfo[..][a], log, a);
      nodeInfo[a].numWSNodes
    }

    /** numPairs(): the number of pairs added. */
    function NumPairs(): (r: u32)
      reads this, nodeInfo, pairs
      ensures Valid() ==> r as int == |log|
    {
      numPairs
    }

    /** firstPairEntry(v): the first pair added that contains `v`. */
    function FirstPairEntry(v: u32): (r: u32)
      reads this, nodeInfo, pairs
      requires v as int < nodeInfo.Length
      ensures Valid() && |PairsOf(log, v)| > 0 ==> r as int == PairsOf(log, v)[0]
    {
      assert Valid() ==> ChainOk(pairs[..], nodeInfo[..][v], log, v);
      nodeInfo[v].firstEntry
    }

    /** nextPair(i, a): the pair after `i` in the chain of `a`. */
    function NextPair(currPairIndex: u32, a: u32): (r: u32)
      reads this, nodeInfo, pairs
      requires currPairIndex as int < pairs.Length
      ensures r == NextIn(pairs[currPairIndex], a)
      ensures Valid() && a < maxNumNodes ==>
        forall j :: 0 <= j < |PairsOf(log, a)| - 1 && PairsOf(log, a)[j] == currPairIndex as int ==>
          r as int == PairsOf(log, a)[j + 1]
    {
      var currInfo := pairs[currPairIndex];
      if a as int < nodeInfo.Length then
        ChainNext(pairs[..], nodeInfo[..][a], log, a, currPairIndex as nat);
        if currInfo.a == a then currInfo.aNext else currInfo.bNext
      else
        if currInfo.a == a then currInfo.aNext else currInfo.bNext
    }

    /** wsNodeOfPair(i, a): the node that `a` is paired with in pair `i`. */
    function WsNodeOfPair(currPairIndex: u32, a: u32): (r: u32)
      reads this, nodeInfo, pairs
      requires currPairIndex as int < pairs.Length
      ensures Valid() && currPairIndex < numPairs && InPair(log[currPairIndex], a) ==>
        r != a && InPair(log[currPairIndex], r)
    {
      var currInfo := pairs[currPairIndex];
      if currInfo.a == a then currInfo.b else currInfo.a
    }

    /**
     * One half of `addWSP`: pair `e` goes behind the last pair of `v`'s
     * chain, or becomes the first one when `v` has no pair yet.
     */
    method LinkBehindTail(v: u32, e: u32)
      requires v as int < nodeInfo.Length && e as int < pairs.Length
      requires nodeInfo[v].numWSNodes != 0 ==> nodeInfo[v].lastEntry as int < pairs.Length
      modifies pairs, nodeInfo
      ensures pairs[..] == LinkStep(old(pairs[..]), old(nodeInfo[..]), v, e)
      ensures nodeInfo[..] == StartChain(old(nodeInfo[..]), v, e)
    {
      if nodeInfo[v].numWSNodes != 0 {
        // adjust the link of the slot that holds v
        var last := nodeInfo[v].lastEntry;
        pairs[last] := SetLink(pairs[last], v, e);
      } else {
        // this pair is the first for v
        nodeInfo[v] := nodeInfo[v].(firstEntry := e);
      }
    }

    /** The other half of `addWSP`: pair `e` ends `v`'s chain, which is one pair longer. */
    method EndChainAt(v: u32, e: u32)
      requires v as int < nodeInfo.Length && nodeInfo[v].numWSNodes < 0xFFFF_FFFF
      modifies nodeInfo
      ensures nodeInfo[..] == EndChain(old(nodeInfo[..]), v, e)
    {
      nodeInfo[v] := nodeInfo[v].(lastEntry := e, numWSNodes := nodeInfo[v].numWSNodes + 1);
    }

    /**
     * addWSP(a, b): append the pair (a, b) and hang it at the end of the
     * chains of `a` and of `b`.  The source has no capacity check, so the
     * caller must leave room; it also aliases the two node records when
     * `a == b`, which the model rules out.
     */
    method AddWSP(a: u32, b: u32)
      requires Valid()
      requires a < maxNumNodes && b < maxNumNodes && a != b
      requires numPairs < maxNumPairs
      modifies this, pairs, nodeInfo
      ensures Valid()
      ensures numPairs == old(numPairs) + 1 && log == old(log) + [(a, b)]
      ensures CanAdd(old(pairs[..]), old(nodeInfo[..]), old(numPairs), a, b)
      ensures pairs[..] == AfterAdd(old(pairs[..]), old(nodeInfo[..]), old(numPairs), a, b)
      ensures nodeInfo[..] == InfoAfterAdd(old(nodeInfo[..]), old(numPairs), a, b)
    {
      ghost var ps0, ni0, log0 := pairs[..], nodeInfo[..], log;
      ConsistentAfterAdd(ps0, ni0, log0, a, b);
      // get the index of a free element
      var eIndex := numPairs;
      numPairs := numPairs + 1;
      log := log + [(a, b)];

      // (a, b) is the pair we are adding
      pairs[eIndex] := pairs[eIndex].(a := a, b := b);
      ghost var ps1 := pairs[..];
      assert ps1 == WritePair(ps0, eIndex, a, b);

      // link the new pair behind the old tail of a's chain, or start the chain
      LinkBehindTail(a, eIndex);
      ghost var ps2, ni2 := pairs[..], nodeInfo[..];

      // the same for b
      LinkBehindTail(b, eIndex);
      ghost var ni3 := nodeInfo[..];
      assert ni3[a].numWSNodes == ni0[a].numWSNodes && ni3[b].numWSNodes == ni0[b].numWSNodes;
      assert pairs[..] == LinkStep(ps2, ni2, b, eIndex) == AfterAdd(ps0, ni0, eIndex, a, b);

      // the new pair ends both chains, which are one pair longer
      EndChainAt(a, eIndex);
      EndChainAt(b, eIndex);
      assert nodeInfo[..] == EndChain(EndChain(ni3, a, eIndex), b, eIndex) == InfoAfterAdd(ni0, eIndex, a, b);
    }
  }
}
