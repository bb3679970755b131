/** Building the Huffman tree with two queues. */
module HuffmanTree {
  import opened Powers
  import opened HuffmanShape
  import opened HuffmanOptimal
  import opened HuffmanDepth

  const NOT_YET: nat := 0x4000_0000
  const BARRIER: nat := 0x8000_0000

  // ---------------------------------------------------------------- the lightest roots

  /** Nodes already joined, and roots of the forest. */
  predicate Joined(leaves: nat, lowS: int, lowN: nat, c: nat) { lowS < c < leaves || START <= c < lowN }

  predicate InForest(lowS: int, lowN: nat, next: nat, c: nat) { c <= lowS || lowN <= c < next }

  /** A root lighter than no other. */
  ghost predicate Lightest(w: seq<nat>, lowS: int, lowN: nat, next: nat, n: nat) {
    && lowS < |w| && next <= |w| && n < |w| && InForest(lowS, lowN, next, n)
    && forall c :: 0 <= c < |w| && InForest(lowS, lowN, next, c) ==> w[n] <= w[c]
  }

  /** Leaves come in descending order, nodes in ascending order. */
  ghost predicate Queues(w: seq<nat>, leaves: nat, next: nat) {
    && leaves <= START <= next <= |w| == NODES
    && (forall i, j :: 0 <= i <= j < leaves ==> w[i] >= w[j])
    && (forall i, j :: START <= i <= j < next ==> w[i] <= w[j])
  }

  lemma {:induction false} HeadsAreLightest(w: seq<nat>, leaves: nat, lowS: int, lowN: nat, next: nat, n: nat)
    requires Queues(w, leaves, next) && -1 <= lowS < leaves && START <= lowN && (n == lowS || n == lowN < next)
    requires lowS >= 0 ==> w[n] <= w[lowS]
    requires lowN < next ==> w[n] <= w[lowN]
    ensures Lightest(w, lowS, lowN, next, n)
  {}

  /** A root at the time node `t` was made: it is joined later or not at all yet. */
  predicate Later(p: seq<nat>, leaves: nat, t: nat, c: nat) { c < |p| && (c < leaves || START <= c < t) && (p[c] == 0 || p[c] > t) }

  ghost predicate Joining(p: seq<nat>, w: seq<nat>, leaves: nat, t: nat, a: nat, b: nat) {
    && |w| == |p| && Kids(p, t, a, b) && w[t] == w[a] + w[b]
    && forall c :: 0 <= c < |p| && Later(p, leaves, t, c) ==> w[a] <= w[c] && w[b] <= w[c]
  }

  ghost predicate JoinedLightest(p: seq<nat>, w: seq<nat>, leaves: nat, t: nat) { exists a: nat, b: nat :: Joining(p, w, leaves, t, a, b) }

  /** The forest has grown greedily, and nothing joined is heavier than a root. */
  ghost predicate Growing(p: seq<nat>, w: seq<nat>, leaves: nat, lowS: int, lowN: nat, next: nat) {
    && |p| == |w| == NODES && Queues(w, leaves, next)
    && (forall x, y :: 0 <= x < NODES && 0 <= y < NODES && Joined(leaves, lowS, lowN, x) && InForest(lowS, lowN, next, y) ==> w[x] <= w[y])
    && forall t :: START <= t < next ==> JoinedLightest(p, w, leaves, t)
  }

  /** The next node joins the two lightest roots. */
  lemma {:induction false} GrowStep(p: seq<nat>, w: seq<nat>, leaves: nat, lowS: int, lowN: nat, next: nat, n1: nat, s1: int, m1: nat, n2: nat, s2: int, m2: nat)
    requires Growing(p, w, leaves, lowS, lowN, next) && Forest(p, leaves, lowS, lowN, next) && next <= Root(leaves)
    requires (n1 == lowS && s1 == lowS - 1 && m1 == lowN) || (n1 == lowN < next && s1 == lowS && m1 == lowN + 1)
    requires (n2 == s1 && s2 == s1 - 1 && m2 == m1) || (n2 == m1 < next && s2 == s1 && m2 == m1 + 1)
    requires s1 >= -1 && s2 >= -1 && Lightest(w, lowS, lowN, next, n1) && Lightest(w, s1, m1, next, n2)
    ensures Growing(p[n1 := next][n2 := next], w[next := w[n1] + w[n2]], leaves, s2, m2, next + 1)
  {
    hide JoinedLightest, Kids;
    var p', w' := p[n1 := next][n2 := next], w[next := w[n1] + w[n2]];
    ForestRange(p, leaves, lowS, lowN, next);
    NodeHeavier(p, w, leaves, lowS, lowN, next, n1, n2);
    forall t | START <= t < next + 1 ensures JoinedLightest(p', w', leaves, t) {
      if t == next {
        NewJoin(p, w, leaves, lowS, lowN, next, n1, s1, m1, n2, s2, m2);
      } else {
        OldJoin(p, w, leaves, lowS, lowN, next, n1, n2, t);
      }
    }
  }

  /** The new node is not lighter than the one before it, whose children were not heavier. */
  lemma {:induction false} NodeHeavier(p: seq<nat>, w: seq<nat>, leaves: nat, lowS: int, lowN: nat, next: nat, n1: nat, n2: nat)
    requires Growing(p, w, leaves, lowS, lowN, next) && Forest(p, leaves, lowS, lowN, next)
    requires n1 < NODES && n2 < NODES && InForest(lowS, lowN, next, n1) && InForest(lowS, lowN, next, n2)
    ensures w[next - 1] <= w[n1] + w[n2]
  {
    assert JoinedLightest(p, w, leaves, next - 1);
    var a: nat, b: nat :| Joining(p, w, leaves, next - 1, a, b);
    assert Joined(leaves, lowS, lowN, a) && Joined(leaves, lowS, lowN, b);
  }

  lemma {:induction false} NewJoin(p: seq<nat>, w: seq<nat>, leaves: nat, lowS: int, lowN: nat, next: nat, n1: nat, s1: int, m1: nat, n2: nat, s2: int, m2: nat)
    requires |w| == NODES && Forest(p, leaves, lowS, lowN, next) && next <= Root(leaves)
    requires (n1 == lowS && s1 == lowS - 1 && m1 == lowN) || (n1 == lowN < next && s1 == lowS && m1 == lowN + 1)
    requires (n2 == s1 && s2 == s1 - 1 && m2 == m1) || (n2 == m1 < next && s2 == s1 && m2 == m1 + 1)
    requires s1 >= -1 && s2 >= -1 && Lightest(w, lowS, lowN, next, n1) && Lightest(w, s1, m1, next, n2)
    ensures JoinedLightest(p[n1 := next][n2 := next], w[next := w[n1] + w[n2]], leaves, next)
  {
    hide KidsBelow, Ordered;
    assert Joining(p[n1 := next][n2 := next], w[next := w[n1] + w[n2]], leaves, next, n1, n2);
  }

  lemma {:induction false} OldJoin(p: seq<nat>, w: seq<nat>, leaves: nat, lowS: int, lowN: nat, next: nat, n1: nat, n2: nat, t: nat)
    requires |w| == NODES && Forest(p, leaves, lowS, lowN, next) && next <= Root(leaves) && START <= t < next
    requires n1 < NODES && n2 < NODES && InForest(lowS, lowN, next, n1)
    requires InForest(lowS, lowN, next, n2) && JoinedLightest(p, w, leaves, t)
    ensures JoinedLightest(p[n1 := next][n2 := next], w[next := w[n1] + w[n2]], leaves, t)
  {
    hide KidsBelow, Ordered;
    var a: nat, b: nat :| Joining(p, w, leaves, t, a, b);
    assert Joining(p[n1 := next][n2 := next], w[next := w[n1] + w[n2]], leaves, t, a, b);
  }

  /** Of the leaves joined so far each was lighter than the nodes that were roots then and stayed roots. */
  ghost predicate LeavesLighter(p: seq<nat>, w: seq<nat>, leaves: nat, lowS: int) {
    && leaves <= |p| == |w|
    && forall i, c :: 0 <= i < leaves && lowS < i && START <= c < |p| && c < p[i] && (p[c] == 0 || p[c] > p[i]) ==> w[i] < w[c]
  }

  lemma {:induction false} StillLighter(p: seq<nat>, w: seq<nat>, leaves: nat, lowS: int, lowN: nat, next: nat, n1: nat, s1: int, m1: nat,
                                        n2: nat, s2: int, m2: nat, x: nat)
    requires LeavesLighter(p, w, leaves, lowS) && Forest(p, leaves, lowS, lowN, next) && next <= Root(leaves)
    requires (n1 == lowS && s1 == lowS - 1 && m1 == lowN) || (n1 == lowN < next && s1 == lowS && m1 == lowN + 1)
    requires (n2 == s1 && s2 == s1 - 1 && m2 == m1) || (n2 == m1 < next && s2 == s1 && m2 == m1 + 1)
    requires n1 == lowS ==> forall c :: lowN <= c < next ==> w[n1] < w[c]
    requires n2 == s1 ==> forall c :: m1 <= c < next ==> w[n2] < w[c]
    ensures n1 < |p| && n2 < |p| && LeavesLighter(p[n1 := next][n2 := next], w[next := x], leaves, s2)
  {
    hide KidsBelow, Ordered;
    var q, v := p[n1 := next][n2 := next], w[next := x];
    forall i, c | 0 <= i < leaves && s2 < i && START <= c < |q| && c < q[i] && (q[c] == 0 || q[c] > q[i]) ensures v[i] < v[c] {
      assert i <= lowS ==> i == n1 || i == n2;
    }
  }

  /** A forest of one tree. */
  lemma {:induction false} GrownGreedily(p: seq<nat>, w: seq<nat>, leaves: nat, lowS: int, lowN: nat)
    requires Tree(p, leaves) && Growing(p, w, leaves, lowS, lowN, Root(leaves) + 1)
    ensures Greedy(p, w, leaves)
  {
    hide KidsBelow, Ordered, JoinedLightest, Joins, Queues;
    forall t | START <= t <= Root(leaves) ensures JoinsLightest(p, w, t) {
      assert JoinedLightest(p, w, leaves, t);
      JoiningJoins(p, w, leaves, t);
    }
  }

  lemma {:induction false} JoiningJoins(p: seq<nat>, w: seq<nat>, leaves: nat, t: nat)
    requires Tree(p, leaves) && START <= t <= Root(leaves) && JoinedLightest(p, w, leaves, t)
    ensures JoinsLightest(p, w, t)
  {
    hide KidsBelow, Ordered;
    var a: nat, b: nat :| Joining(p, w, leaves, t, a, b);
    assert Joins(p, w, t, a, b);
  }

  lemma {:induction false} AllLighter(p: seq<nat>, w: seq<nat>, leaves: nat, lowS: int)
    requires LeavesLighter(p, w, leaves, lowS) && lowS < 0
    ensures NodesFirst(p, w, leaves)
  {}

  // ---------------------------------------------------------------- the two queues

  /** Sum of the entries from `i` up to `j`. */
  function Sum(c: seq<nat>, i: nat, j: nat): nat
    requires i <= j <= |c|
  {
    if i == j then 0 else Sum(c, i, j - 1) + c[j - 1]
  }

  lemma {:induction false} SumFirst(c: seq<nat>, i: nat, j: nat)
    requires i < j <= |c|
    ensures Sum(c, i, j) == c[i] + Sum(c, i + 1, j)
    decreases j
  {
    if i + 1 < j { SumFirst(c, i, j - 1); }
  }

  lemma {:induction false} SumSame(c: seq<nat>, d: seq<nat>, i: nat, j: nat)
    requires i <= j <= |c| && j <= |d| && forall k :: i <= k < j ==> c[k] == d[k]
    ensures Sum(c, i, j) == Sum(d, i, j)
  {
    if i < j { SumSame(c, d, i, j - 1); }
  }

  /** Counts, shifted by one place for the barrier in front: the roots of the forest sum to `rest`, and
      nodes not made yet have a count above any root's. */
  ghost predicate Counted(c: seq<nat>, leaves: nat, lowS: int, lowN: nat, next: nat, rest: nat) {
    && |c| == NODES + 1 && c[0] == BARRIER && rest < NOT_YET
    && -1 <= lowS < leaves && 2 <= leaves <= START <= lowN <= next <= Root(leaves) + 1
    && Sum(c, 1, lowS + 2) + Sum(c, lowN + 1, next + 1) == rest
    && forall k :: next + 1 <= k <= Root(leaves) + 1 ==> c[k] == NOT_YET
  }

  /** Takes the smaller one of the two queues' heads; the barriers keep both queues from running dry. */
  method Take(count: array<nat>, lowS: int, lowN: nat, ghost leaves: nat, ghost next: nat, ghost rest: nat)
    returns (n: nat, lowS': int, lowN': nat)
    requires Counted(count[..], leaves, lowS, lowN, next, rest) && next <= Root(leaves) && (lowS >= 0 || lowN < next)
    requires Queues(count[1..], leaves, next)
    ensures Lightest(count[1..], lowS, lowN, next, n)
    ensures (n == lowS && lowS' == lowS - 1 && lowN' == lowN) || (n == lowN < next && lowS' == lowS && lowN' == lowN + 1)
    ensures n < next && count[n + 1] <= rest && Counted(count[..], leaves, lowS', lowN', next, rest - count[n + 1])
    ensures n == lowS ==> forall c :: lowN <= c < next ==> count[1..][n] < count[1..][c]
  {
    ghost var c := count[..];
    if lowN < next { SumFirst(c, lowN + 1, next + 1); }
    if count[lowS + 1] < count[lowN + 1] {
      assert lowS >= 0;
      n, lowS', lowN' := lowS, lowS - 1, lowN;
    } else {
      n, lowS', lowN' := lowN, lowS, lowN + 1;
    }
    HeadsAreLightest(count[1..], leaves, lowS, lowN, next, n);
  }

  /** A new root. */
  lemma {:induction false} NewRoot(c: seq<nat>, leaves: nat, lowS: int, lowN: nat, next: nat, rest: nat, x: nat)
    requires Counted(c, leaves, lowS, lowN, next, rest) && next <= Root(leaves) && rest + x < NOT_YET
    ensures Counted(c[next + 1 := x], leaves, lowS, lowN, next + 1, rest + x)
  {
    var c' := c[next + 1 := x];
    SumSame(c, c', 1, lowS + 2);
    SumSame(c, c', lowN + 1, next + 1);
  }

  /** One round of the loop that creates the parents. */
  method Merge(count: array<nat>, parent: array<nat>, lowS: int, lowN: nat, next: nat, ghost leaves: nat, ghost total: nat)
    returns (lowS': int, lowN': nat)
    requires count != parent && Counted(count[..], leaves, lowS, lowN, next, total) && next <= Root(leaves)
    requires Forest(parent[..], leaves, lowS, lowN, next) && Growing(parent[..], count[1..], leaves, lowS, lowN, next)
    modifies count, parent
    ensures Counted(count[..], leaves, lowS', lowN', next + 1, total) && Forest(parent[..], leaves, lowS', lowN', next + 1)
    ensures Growing(parent[..], count[1..], leaves, lowS', lowN', next + 1)
    ensures old(LeavesLighter(parent[..], count[1..], leaves, lowS)) ==> LeavesLighter(parent[..], count[1..], leaves, lowS')
    ensures forall k :: 0 <= k <= START ==> count[k] == old(count[k])
    ensures old(parent[leaves - 1]) == START ==> parent[leaves - 1] == START
  {
    hide Counted, Kids, Sum, Assigned, Ordered, KidsBelow, Queues, JoinedLightest, Lightest, LeavesLighter;
    ForestRange(parent[..], leaves, lowS, lowN, next);
    ghost var c: seq<nat>, p: seq<nat> := count[..], parent[..];
    CountedSizes(c, leaves, lowS, lowN, next, total);
    var n1, s1, m1 := Take(count, lowS, lowN, leaves, next, total);
    var n2: nat;
    n2, lowS', lowN' := Take(count, s1, m1, leaves, next, total - count[n1 + 1]);
    var sum := count[n1 + 1] + count[n2 + 1];
    NewRoot(c, leaves, lowS', lowN', next, total - sum, sum);
    ForestStep(p, leaves, lowS, lowN, next, n1, s1, m1, n2, lowS', lowN');
    GrowStep(p, c[1..], leaves, lowS, lowN, next, n1, s1, m1, n2, lowS', lowN');
    if LeavesLighter(p, c[1..], leaves, lowS) { StillLighter(p, c[1..], leaves, lowS, lowN, next, n1, s1, m1, n2, lowS', lowN', sum); }
    count[next + 1] := sum;
    parent[n1], parent[n2] := next, next;
    assert count[..] == c[next + 1 := sum];
    assert count[1..] == c[1..][next := sum];
    assert parent[..] == p[n1 := next][n2 := next];
  }

  /** The parents while the tree grows; as many roots are left as symbols less merges. */
  ghost predicate Forest(p: seq<nat>, leaves: nat, lowS: int, lowN: nat, next: nat) {
    && 2 <= leaves <= START < next <= Root(leaves) + 1 && lowN < next
    && Assigned(p, leaves, lowS, lowN, next - 1) && Ordered(p, leaves, lowS, lowN) && KidsBelow(p, next)
    && lowS + 1 + (next - lowN) == leaves - (next - START)
  }

  lemma {:induction false} ForestRange(p: seq<nat>, leaves: nat, lowS: int, lowN: nat, next: nat)
    requires Forest(p, leaves, lowS, lowN, next)
    ensures |p| == NODES && 2 <= leaves <= START && -1 <= lowS < leaves && START <= lowN < next <= Root(leaves) + 1
    ensures lowS + 1 + (next - lowN) == leaves - (next - START)
  {}

  lemma {:induction false} CountedSizes(c: seq<nat>, leaves: nat, lowS: int, lowN: nat, next: nat, rest: nat)
    requires Counted(c, leaves, lowS, lowN, next, rest)
    ensures |c| == NODES + 1 && rest < NOT_YET
  {}

  lemma {:induction false} ForestStep(p: seq<nat>, leaves: nat, lowS: int, lowN: nat, next: nat, n1: nat, s1: int, m1: nat, n2: nat, s2: int, m2: nat)
    requires Forest(p, leaves, lowS, lowN, next) && next <= Root(leaves)
    requires (n1 == lowS && s1 == lowS - 1 && m1 == lowN) || (n1 == lowN < next && s1 == lowS && m1 == lowN + 1)
    requires (n2 == s1 && s2 == s1 - 1 && m2 == m1) || (n2 == m1 < next && s2 == s1 && m2 == m1 + 1)
    requires s1 >= -1 && s2 >= -1
    ensures n1 < |p| && n2 < |p| && Forest(p[n1 := next][n2 := next], leaves, s2, m2, next + 1)
    ensures p[leaves - 1] == START ==> p[n1 := next][n2 := next][leaves - 1] == START
  {
    hide Kids, Ordered, KidsBelow;
    assert Assigned(p, leaves, lowS, lowN, next);
    NextKids(p, next, n1, n2);
    if n1 == lowS { TakeLeaf(p, leaves, lowS, lowN, next); } else { TakeNode(p, leaves, lowS, lowN, next); }
    var q := p[n1 := next];
    if n2 == s1 { TakeLeaf(q, leaves, s1, m1, next); } else { TakeNode(q, leaves, s1, m1, next); }
  }

  // ---------------------------------------------------------------- the whole tree

  lemma {:induction false} FirstForest(p: seq<nat>, leaves: nat)
    requires |p| == NODES && 2 <= leaves <= START && forall c :: 0 <= c < NODES ==> p[c] == 0
    ensures Forest(p[leaves - 1 := START][leaves - 2 := START], leaves, leaves - 3, START, START + 1)
  {
    hide Kids, KidsBelow;
    assert KidsBelow(p, START) by { NoKidsYet(p); }
    NextKids(p, START, leaves - 1, leaves - 2);
  }

  lemma {:induction false} NoKidsYet(p: seq<nat>)
    ensures KidsBelow(p, START)
  {}

  lemma {:induction false} FirstGrowing(p: seq<nat>, w: seq<nat>, leaves: nat)
    requires |p| == |w| == NODES && 2 <= leaves <= START && (forall c :: 0 <= c < NODES ==> p[c] == 0)
    requires (forall i, j :: 0 <= i <= j < leaves ==> w[i] >= w[j]) && w[START] == w[leaves - 1] + w[leaves - 2]
    ensures Growing(p[leaves - 1 := START][leaves - 2 := START], w, leaves, leaves - 3, START, START + 1)
  {
    assert Joining(p[leaves - 1 := START][leaves - 2 := START], w, leaves, START, leaves - 1, leaves - 2);
  }

  /** Nodes that are not made yet weigh more than any other, and so does what lies before the first leaf. */
  method SetBarriers(count: array<nat>, leaves: nat)
    requires count.Length == NODES + 1 && 2 <= leaves <= START
    modifies count
    ensures count[0] == BARRIER && forall k :: 1 <= k <= START + 1 ==> count[k] == old(count[k])
    ensures forall k :: START + 2 <= k < START + leaves ==> count[k] == NOT_YET
  {
    var n: nat := START + 1;
    while n <= START + leaves - 2
      invariant START + 1 <= n <= START + leaves - 1
      invariant forall k :: 1 <= k <= START + 1 ==> count[k] == old(count[k])
      invariant forall k :: START + 2 <= k < n + 1 ==> count[k] == NOT_YET
    {
      count[n + 1] := NOT_YET;
      n := n + 1;
    }
    count[0] := BARRIER;
  }

  /** The first merge, of the two least frequent symbols, and the barriers. */
  method FirstMerge(count: array<nat>, parent: array<nat>, leaves: nat) returns (lowS: int, lowN: nat, next: nat, ghost total: nat)
    requires count != parent && count.Length == NODES + 1 && parent.Length == NODES && 2 <= leaves <= START
    requires Sum(count[..], 1, leaves + 1) < NOT_YET && forall c :: 0 <= c < NODES ==> parent[c] == 0
    requires forall i, j :: 1 <= i <= j <= leaves ==> count[i] >= count[j]
    modifies count, parent
    ensures next == START + 1 && lowS == leaves - 3 && lowN == START && total == Sum(old(count[..]), 1, leaves + 1)
    ensures Growing(parent[..], count[1..], leaves, lowS, lowN, next) && forall k :: 1 <= k <= START ==> count[k] == old(count[k])
    ensures Counted(count[..], leaves, lowS, lowN, next, total) && Forest(parent[..], leaves, lowS, lowN, next)
    ensures parent[leaves - 1] == START && LeavesLighter(parent[..], count[1..], leaves, lowS)
  {
    hide Forest, Kids, KidsBelow;
    ghost var c: seq<nat>, p: seq<nat> := count[..], parent[..];
    total := Sum(c, 1, leaves + 1);
    lowS, lowN := leaves - 1, START;
    count[START + 1] := count[lowS + 1] + count[lowS];
    parent[lowS], parent[lowS - 1] := START, START;
    assert parent[..] == p[leaves - 1 := START][leaves - 2 := START];
    FirstForest(p, leaves);
    ghost var q := parent[..];
    next, lowS := START + 1, lowS - 2;
    SetBarriers(count, leaves);
    assert parent[..] == q;
    SumSame(c, count[..], 1, lowS + 2);
    SumOne(count[..], START + 1);
    FirstGrowing(p, count[1..], leaves);
  }

  lemma {:induction false} SumOne(c: seq<nat>, i: nat)
    requires i < |c|
    ensures Sum(c, i, i + 1) == c[i]
  {
    assert Sum(c, i, i) == 0;
  }

  /** The last root weighs what all symbols weigh. */
  lemma {:induction false} LastRoot(c: seq<nat>, leaves: nat, lowS: int, lowN: nat, next: nat, total: nat)
    requires Counted(c, leaves, lowS, lowN, next, total) && next == Root(leaves) + 1 && lowN < next && lowS + 1 + (next - lowN) == 1
    ensures c[Root(leaves) + 1] == total
  {
    SumOne(c, Root(leaves) + 1);
  }

  /** The queues are merged until one root is left. */
  method BuildTree(count: array<nat>, parent: array<nat>, leaves: nat)
    requires count != parent && count.Length == NODES + 1 && parent.Length == NODES && 2 <= leaves <= START
    requires Sum(count[..], 1, leaves + 1) < NOT_YET && forall c :: 0 <= c < NODES ==> parent[c] == 0
    requires forall i, j :: 1 <= i <= j <= leaves ==> count[i] >= count[j]
    modifies count, parent
    ensures Greedy(parent[..], count[1..], leaves) && NodesFirst(parent[..], count[1..], leaves) && parent[leaves - 1] == START
    ensures count[Root(leaves) + 1] == Sum(old(count[..]), 1, leaves + 1)
    ensures forall k :: 1 <= k <= START ==> count[k] == old(count[k])
  {
    hide Counted, Kids, Assigned, Ordered, KidsBelow, Sum, Growing, Joins, JoinsLightest, LeavesLighter;
    var lowS, lowN, next;
    ghost var total;
    lowS, lowN, next, total := FirstMerge(count, parent, leaves);
    var nodeRoot := next + leaves - 3;
    while next <= nodeRoot
      invariant START < next <= nodeRoot + 1 == Root(leaves) + 1 && parent.Length == NODES
      invariant Counted(count[..], leaves, lowS, lowN, next, total) && Forest(parent[..], leaves, lowS, lowN, next)
      invariant parent[leaves - 1] == START && Growing(parent[..], count[1..], leaves, lowS, lowN, next)
      invariant LeavesLighter(parent[..], count[1..], leaves, lowS)
      invariant forall k :: 1 <= k <= START ==> count[k] == old(count[k])
    {
      lowS, lowN := Merge(count, parent, lowS, lowN, next, leaves, total);
      next := next + 1;
    }
    ForestRange(parent[..], leaves, lowS, lowN, next);
    LastRoot(count[..], leaves, lowS, lowN, next, total);
    GrownGreedily(parent[..], count[1..], leaves, lowS, lowN);
    AllLighter(parent[..], count[1..], leaves, lowS);
  }

  /** Depths from the root down: first the nodes, then the leaves. */
  method Distribute(parent: array<nat>, nbBits: array<nat>, leaves: nat)
    requires parent != nbBits && nbBits.Length == NODES && 2 <= leaves <= START && Tree(parent[..], leaves)
    modifies nbBits
    ensures Depths(parent[..], leaves, nbBits[..])
  {
    hide Kids, KidsBelow, Ordered;
    ghost var p := parent[..];
    var nodeRoot := START + leaves - 2;
    nbBits[nodeRoot] := 0;
    var n := nodeRoot;
    while n > START
      invariant START <= n <= nodeRoot && nbBits[nodeRoot] == 0
      invariant forall c :: n <= c < nodeRoot ==> nbBits[c] == nbBits[p[c]] + 1
    {
      n := n - 1;
      nbBits[n] := nbBits[parent[n]] + 1;
    }
    n := 0;
    while n < leaves
      invariant n <= leaves && nbBits[nodeRoot] == 0
      invariant forall c :: START <= c < nodeRoot ==> nbBits[c] == nbBits[p[c]] + 1
      invariant forall c :: 0 <= c < n ==> nbBits[c] == nbBits[p[c]] + 1
    {
      nbBits[n] := nbBits[parent[n]] + 1;
      n := n + 1;
    }
  }

  /** Unlimited code lengths of symbols in rank order: they never get shorter, fill the code space, and no lengths
      that satisfy Kraft's inequality take fewer bits in all. */
  method CodeLengths(count: array<nat>, parent: array<nat>, nbBits: array<nat>, leaves: nat)
    requires count != parent && count != nbBits && parent != nbBits
    requires count.Length == NODES + 1 && parent.Length == NODES && nbBits.Length == NODES && 2 <= leaves <= START
    requires Sum(count[..], 1, leaves + 1) < NOT_YET && forall c :: 0 <= c < NODES ==> parent[c] == 0
    requires forall i, j :: 1 <= i <= j <= leaves ==> count[i] >= count[j]
    modifies count, parent, nbBits
    ensures forall i, j :: 0 <= i <= j < leaves ==> 1 <= nbBits[i] <= nbBits[j]
    ensures KraftSum(nbBits[..], nbBits[leaves - 1], leaves) == Pow2(nbBits[leaves - 1])
    ensures Cheapest(old(count[1..]), nbBits[..], leaves)
    ensures HuffmanDepths(old(count[1..leaves + 1]), Sum(old(count[..]), 1, leaves + 1), nbBits[..])
  {
    hide Tree, Depths, KraftSum, TotalBits, JoinsLightest, Sum;
    ghost var w: seq<nat>, freq: seq<nat> := count[1..], count[1..leaves + 1];
    BuildTree(count, parent, leaves);
    Distribute(parent, nbBits, leaves);
    TreeFillsSpace(parent[..], leaves, nbBits[..]);
    forall i, j | 0 <= i <= j < leaves ensures 1 <= nbBits[i] <= nbBits[j] {
      LeavesSorted(parent[..], leaves, nbBits[..], i, j);
    }
    GreedyIsCheapest(parent[..], count[1..], w, leaves, nbBits[..]);
    assert DepthsIn(freq, count[1..][Root(leaves)], nbBits[..], parent[..], count[1..]);
  }
}
