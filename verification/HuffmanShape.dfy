/** The shape of a Huffman tree given by the parents of its nodes, and the code lengths it gives: they are sorted
    like the symbols and use up the code space exactly. */
module HuffmanShape {
  import opened Powers

  /** First internal node; leaves have smaller numbers. */
  const START: nat := 256
  const NODES: nat := 511

  // ---------------------------------------------------------------- the shape of the tree

  /** Exactly `a` and `b` have the parent `k`. */
  ghost predicate Kids(p: seq<nat>, k: nat, a: nat, b: nat) {
    && a != b && a < k && b < k < |p| && p[a] == k && p[b] == k
    && forall c :: 0 <= c < |p| && p[c] == k ==> c == a || c == b
  }

  ghost predicate HasKids(p: seq<nat>, k: nat) { exists a: nat, b: nat :: Kids(p, k, a, b) }

  /** All nodes below `top` have their two children. */
  ghost predicate KidsBelow(p: seq<nat>, top: nat) { forall k :: START <= k < top ==> HasKids(p, k) }

  /** Leaves above `lowS` and nodes below `lowN` have a parent, at most `top`. */
  ghost predicate Assigned(p: seq<nat>, leaves: nat, lowS: int, lowN: nat, top: nat) {
    && |p| == NODES && -1 <= lowS < leaves <= START <= lowN <= top < NODES
    && forall c :: 0 <= c < |p| ==>
      if lowS < c < leaves then START <= p[c] <= top else if START <= c < lowN then c < p[c] <= top else p[c] == 0
  }

  /** Both queues hand their members on in order. */
  ghost predicate Ordered(p: seq<nat>, leaves: nat, lowS: int, lowN: nat)
    requires leaves <= START <= lowN <= |p| && -1 <= lowS
  {
    && (forall i, j :: lowS < i < j < leaves ==> p[i] >= p[j])
    && (forall i, j :: START <= i < j < lowN ==> p[i] <= p[j])
  }

  lemma {:induction false} TakeLeaf(p: seq<nat>, leaves: nat, lowS: int, lowN: nat, top: nat)
    requires 0 <= lowS && START <= top && Assigned(p, leaves, lowS, lowN, top) && Ordered(p, leaves, lowS, lowN)
    ensures Assigned(p[lowS := top], leaves, lowS - 1, lowN, top) && Ordered(p[lowS := top], leaves, lowS - 1, lowN)
  {}

  lemma {:induction false} TakeNode(p: seq<nat>, leaves: nat, lowS: int, lowN: nat, top: nat)
    requires lowN < top && Assigned(p, leaves, lowS, lowN, top) && Ordered(p, leaves, lowS, lowN)
    ensures Assigned(p[lowN := top], leaves, lowS, lowN + 1, top) && Ordered(p[lowN := top], leaves, lowS, lowN + 1)
  {}

  /** The two nodes taken become the children of the new one. */
  lemma {:induction false} NextKids(p: seq<nat>, top: nat, a: nat, b: nat)
    requires KidsBelow(p, top) && a != b && a < top && b < top < |p| && 0 < top && p[a] == 0 && p[b] == 0
    requires forall c :: 0 <= c < |p| ==> p[c] < top
    ensures KidsBelow(p[a := top][b := top], top + 1)
  {
    var q := p[a := top][b := top];
    forall k | START <= k < top + 1 ensures HasKids(q, k) {
      if k == top {
        assert Kids(q, top, a, b);
      } else {
        assert HasKids(p, k);
        var x: nat, y: nat :| Kids(p, k, x, y);
        assert Kids(q, k, x, y);
      }
    }
  }

  /** The finished tree: every leaf and every node but the root has a parent. */
  ghost predicate Tree(p: seq<nat>, leaves: nat) {
    && 2 <= leaves <= START
    && Assigned(p, leaves, -1, Root(leaves), Root(leaves)) && Ordered(p, leaves, -1, Root(leaves)) && KidsBelow(p, Root(leaves) + 1)
  }

  function Root(leaves: nat): nat
    requires leaves >= 2
  {
    START + leaves - 2
  }

  // ---------------------------------------------------------------- depths

  /** `d` gives every node and every leaf its depth. */
  ghost predicate Depths(p: seq<nat>, leaves: nat, d: seq<nat>)
    requires Tree(p, leaves)
  {
    && |d| == NODES && d[Root(leaves)] == 0
    && (forall c :: START <= c < Root(leaves) ==> d[c] == d[p[c]] + 1)
    && (forall c :: 0 <= c < leaves ==> d[c] == d[p[c]] + 1)
  }

  /** Nodes made earlier lie deeper. */
  lemma {:induction false} NodesSorted(p: seq<nat>, leaves: nat, d: seq<nat>, i: nat, j: nat)
    requires Tree(p, leaves) && Depths(p, leaves, d) && START <= i <= j <= Root(leaves)
    ensures d[i] >= d[j]
    decreases Root(leaves) - i
  {
    if i < j < Root(leaves) { NodesSorted(p, leaves, d, p[i], p[j]); }
  }

  /** Less frequent leaves lie deeper. */
  lemma {:induction false} LeavesSorted(p: seq<nat>, leaves: nat, d: seq<nat>, i: nat, j: nat)
    requires Tree(p, leaves) && Depths(p, leaves, d) && i <= j < leaves
    ensures 1 <= d[i] <= d[j]
  {
    hide KidsBelow;
    assert START <= p[j] <= p[i] <= Root(leaves);
    NodesSorted(p, leaves, d, p[j], p[i]);
    assert d[i] == d[p[i]] + 1 && d[j] == d[p[j]] + 1;
  }

  // ---------------------------------------------------------------- the code space

  /** Share of a code of `x` bits in a code space of `2^m`. */
  function Share(m: nat, x: nat): nat { if x <= m then Pow2(m - x) else 0 }

  /** Code space taken by the first `n` codes. */
  function KraftSum(d: seq<nat>, m: nat, n: nat): nat
    requires n <= |d|
  {
    if n == 0 then 0 else KraftSum(d, m, n - 1) + Share(m, d[n - 1])
  }

  /** Shares of everything below `n` whose parent is `t` or above. */
  function Frontier(p: seq<nat>, d: seq<nat>, m: nat, n: nat, t: nat): nat
    requires n <= |d| && n <= |p|
  {
    if n == 0 then 0 else Frontier(p, d, m, n - 1, t) + if p[n - 1] >= t then Share(m, d[n - 1]) else 0
  }

  /** Shares of the children of `k` below `n`. */
  function Children(p: seq<nat>, d: seq<nat>, m: nat, n: nat, k: nat): nat
    requires n <= |d| && n <= |p|
  {
    if n == 0 then 0 else Children(p, d, m, n - 1, k) + if p[n - 1] == k then Share(m, d[n - 1]) else 0
  }

  lemma {:induction false} FrontierSplit(p: seq<nat>, d: seq<nat>, m: nat, n: nat, t: nat)
    requires n <= |d| && n <= |p|
    ensures Frontier(p, d, m, n, t) == Frontier(p, d, m, n, t + 1) + Children(p, d, m, n, t)
  {
    hide Share;
    if n > 0 { FrontierSplit(p, d, m, n - 1, t); }
  }

  lemma {:induction false} TwoChildren(p: seq<nat>, d: seq<nat>, m: nat, n: nat, k: nat, a: nat, b: nat)
    requires Kids(p, k, a, b) && n <= |d| && n <= |p| && |p| == |d|
    ensures Children(p, d, m, n, k) == (if a < n then Share(m, d[a]) else 0) + (if b < n then Share(m, d[b]) else 0)
  {
    hide Share;
    if n > 0 { TwoChildren(p, d, m, n - 1, k, a, b); }
  }

  /** Opening node `t`: it leaves the frontier and its two children enter, with half its share each. */
  lemma {:induction false} FrontierStep(p: seq<nat>, leaves: nat, d: seq<nat>, m: nat, t: nat)
    requires Tree(p, leaves) && Depths(p, leaves, d) && START <= t <= Root(leaves)
    requires forall c :: START <= c < Root(leaves) ==> d[c] < m
    requires 0 < m
    ensures Frontier(p, d, m, t, t) == Frontier(p, d, m, t, t + 1) + Share(m, d[t])
  {
    hide Frontier, Children;
    assert HasKids(p, t);
    var a: nat, b: nat :| Kids(p, t, a, b);
    FrontierSplit(p, d, m, t, t);
    TwoChildren(p, d, m, t, t, a, b);
    assert d[a] == d[t] + 1 && d[b] == d[t] + 1;
    assert d[t] < m;
    TwicePow2(m - d[t] - 1);
  }

  /** The frontier always fills the code space. */
  lemma {:induction false} FrontierFull(p: seq<nat>, leaves: nat, d: seq<nat>, m: nat, t: nat)
    requires Tree(p, leaves) && Depths(p, leaves, d) && START <= t <= Root(leaves)
    requires 0 < m && forall c :: START <= c < Root(leaves) ==> d[c] < m
    ensures Frontier(p, d, m, t, t) == Pow2(m)
    decreases Root(leaves) - t
  {
    hide Frontier;
    FrontierStep(p, leaves, d, m, t);
    if t == Root(leaves) {
      NothingAbove(p, leaves, d, m, t);
    } else {
      FrontierFull(p, leaves, d, m, t + 1);
      FrontierLast(p, d, m, t, t + 1);
    }
  }

  lemma {:induction false} FrontierLast(p: seq<nat>, d: seq<nat>, m: nat, n: nat, t: nat)
    requires n < |p| && n < |d| && p[n] >= t
    ensures Frontier(p, d, m, n + 1, t) == Frontier(p, d, m, n, t) + Share(m, d[n])
  {}

  lemma {:induction false} NothingAbove(p: seq<nat>, leaves: nat, d: seq<nat>, m: nat, n: nat)
    requires Tree(p, leaves) && |d| == NODES && n <= |p|
    ensures Frontier(p, d, m, n, Root(leaves) + 1) == 0
  {
    hide Share;
    if n > 0 { NothingAbove(p, leaves, d, m, n - 1); }
  }

  lemma {:induction false} FrontierIsLeaves(p: seq<nat>, leaves: nat, d: seq<nat>, m: nat, n: nat)
    requires Tree(p, leaves) && |d| == NODES && n <= START
    ensures Frontier(p, d, m, n, START) == KraftSum(d, m, if n <= leaves then n else leaves)
  {
    hide Share;
    if n > 0 { FrontierIsLeaves(p, leaves, d, m, n - 1); }
  }

  /** Kraft equality: with the longest code's length as unit the leaves' codes fill the code space. */
  lemma {:induction false} TreeFillsSpace(p: seq<nat>, leaves: nat, d: seq<nat>)
    requires Tree(p, leaves) && Depths(p, leaves, d) && p[leaves - 1] == START
    ensures forall i :: 0 <= i < leaves ==> 1 <= d[i] <= d[leaves - 1]
    ensures KraftSum(d, d[leaves - 1], leaves) == Pow2(d[leaves - 1])
  {
    hide Frontier, KraftSum;
    var m := d[leaves - 1];
    forall i | 0 <= i < leaves ensures 1 <= d[i] <= m { LeavesSorted(p, leaves, d, i, leaves - 1); }
    forall c | START <= c < Root(leaves) ensures d[c] < m { NodesSorted(p, leaves, d, START, c); }
    FrontierFull(p, leaves, d, m, START);
    FrontierIsLeaves(p, leaves, d, m, START);
  }
}
