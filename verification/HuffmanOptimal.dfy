/** Merging the two lightest roots first gives the cheapest of all codes: no lengths that satisfy Kraft's
    inequality cost less. */
module HuffmanOptimal {
  import opened Powers
  import opened HuffmanShape

  // ---------------------------------------------------------------- sums over the frontier

  /** The sum of `f` over the nodes below `n` whose parent is `t` or above; for `n == t` these are the roots
      before node `t` is made. */
  function Over(p: seq<nat>, f: (nat, nat) -> nat, e: seq<nat>, n: nat, t: nat): nat
    requires n <= |e| && n <= |p|
  {
    if n == 0 then 0 else Over(p, f, e, n - 1, t) + if p[n - 1] >= t then f(n - 1, e[n - 1]) else 0
  }

  lemma {:induction false} OverUpdate(p: seq<nat>, f: (nat, nat) -> nat, e: seq<nat>, n: nat, t: nat, i: nat, x: nat)
    requires n <= |e| && n <= |p| && i < |e| && i < |p|
    ensures i < n && p[i] >= t ==> Over(p, f, e[i := x], n, t) == Over(p, f, e, n, t) - f(i, e[i]) + f(i, x)
    ensures i < n && p[i] >= t ==> Over(p, f, e, n, t) >= f(i, e[i])
    ensures !(i < n && p[i] >= t) ==> Over(p, f, e[i := x], n, t) == Over(p, f, e, n, t)
  {
    if n > 0 { OverUpdate(p, f, e, n - 1, t, i, x); }
  }

  /** Two different roots are part of the sum. */
  lemma {:induction false} OverTwo(p: seq<nat>, f: (nat, nat) -> nat, e: seq<nat>, n: nat, t: nat, i: nat, j: nat)
    requires i < j < n <= |e| && n <= |p| && p[i] >= t && p[j] >= t
    ensures Over(p, f, e, n, t) >= f(i, e[i]) + f(j, e[j])
  {
    if j < n - 1 { OverTwo(p, f, e, n - 1, t, i, j); } else { OverUpdate(p, f, e, n - 1, t, i, 0); }
  }

  /** Making node `t`: its two children leave the frontier. */
  lemma {:induction false} OverKids(p: seq<nat>, f: (nat, nat) -> nat, e: seq<nat>, n: nat, t: nat, a: nat, b: nat)
    requires Kids(p, t, a, b) && n <= |e| == |p|
    ensures Over(p, f, e, n, t) == Over(p, f, e, n, t + 1) + (if a < n then f(a, e[a]) else 0) + (if b < n then f(b, e[b]) else 0)
  {
    if n > 0 { OverKids(p, f, e, n - 1, t, a, b); }
  }

  /** And it enters. */
  lemma {:induction false} OverNext(p: seq<nat>, f: (nat, nat) -> nat, e: seq<nat>, t: nat, a: nat, b: nat)
    requires Kids(p, t, a, b) && t < |e| == |p|
    ensures Over(p, f, e, t, t) == Over(p, f, e, t, t + 1) + f(a, e[a]) + f(b, e[b])
    ensures Over(p, f, e, t + 1, t + 1) == Over(p, f, e, t, t + 1) + if p[t] >= t + 1 then f(t, e[t]) else 0
  {
    OverKids(p, f, e, t, t, a, b);
  }

  function ShareOf(m: nat): (nat, nat) -> nat { (k: nat, x: nat) => Share(m, x) }

  function IsMax(m: nat): (nat, nat) -> nat { (k: nat, x: nat) => if x == m then 1 else 0 }

  function Times(n: nat, x: nat): nat { n * x }

  function CostOf(w: seq<nat>): (nat, nat) -> nat { (k: nat, x: nat) => if k < |w| then Times(w[k], x) else 0 }

  /** Code space the roots take. */
  function Space(p: seq<nat>, e: seq<nat>, m: nat, t: nat): nat
    requires t <= |e| && t <= |p|
  {
    Over(p, ShareOf(m), e, t, t)
  }

  /** What the code lengths of the roots cost. */
  function Cost(p: seq<nat>, w: seq<nat>, e: seq<nat>, t: nat): nat
    requires t <= |e| && t <= |p|
  {
    Over(p, CostOf(w), e, t, t)
  }

  ghost predicate IsRoot(p: seq<nat>, t: nat, c: nat) { c < t && c < |p| && p[c] >= t }

  /** Lengths up to `m` for the roots that satisfy Kraft's inequality. */
  ghost predicate Fits(p: seq<nat>, e: seq<nat>, m: nat, t: nat) {
    && t <= |p| == |e|
    && (forall c :: 0 <= c < t && IsRoot(p, t, c) ==> e[c] <= m)
    && Space(p, e, m, t) <= Pow2(m)
  }

  // ---------------------------------------------------------------- two longest codes

  /** With one bit less in the unit all shares are halved. */
  lemma {:induction false} SpaceHalves(p: seq<nat>, e: seq<nat>, m: nat, n: nat, t: nat)
    requires n <= |e| && n <= |p| && forall c :: 0 <= c < n && p[c] >= t ==> e[c] <= m
    ensures Over(p, ShareOf(m + 1), e, n, t) == 2 * Over(p, ShareOf(m), e, n, t)
  {
    if n > 0 {
      SpaceHalves(p, e, m, n - 1, t);
      if p[n - 1] >= t { TwicePow2(m - e[n - 1]); }
    }
  }

  lemma {:induction false} Rescale(p: seq<nat>, e: seq<nat>, m: nat, t: nat)
    requires Fits(p, e, m + 1, t) && forall c :: 0 <= c < t && IsRoot(p, t, c) ==> e[c] <= m
    ensures Fits(p, e, m, t)
  {
    hide Over, Pow2;
    SpaceHalves(p, e, m, t, t);
    TwicePow2(m);
  }

  /** Only the longest codes take an odd share. */
  lemma {:induction false} Parity(p: seq<nat>, e: seq<nat>, m: nat, n: nat, t: nat) returns (q: nat)
    requires n <= |e| && n <= |p| && forall c :: 0 <= c < n && p[c] >= t ==> e[c] <= m
    ensures Over(p, ShareOf(m), e, n, t) == Over(p, IsMax(m), e, n, t) + 2 * q
  {
    if n == 0 {
      q := 0;
    } else {
      q := Parity(p, e, m, n - 1, t);
      if p[n - 1] >= t && e[n - 1] < m {
        TwicePow2(m - e[n - 1] - 1);
        q := q + Pow2(m - e[n - 1] - 1);
      }
    }
  }

  /** The last of the longest codes. */
  lemma {:induction false} LastMax(p: seq<nat>, e: seq<nat>, m: nat, n: nat, t: nat) returns (u: nat)
    requires n <= |e| && n <= |p| && Over(p, IsMax(m), e, n, t) > 0
    ensures u < n && p[u] >= t && e[u] == m && Over(p, IsMax(m), e, u, t) == Over(p, IsMax(m), e, n, t) - 1
  {
    if p[n - 1] >= t && e[n - 1] == m { u := n - 1; } else { u := LastMax(p, e, m, n - 1, t); }
  }

  lemma {:induction false} NoMax(p: seq<nat>, e: seq<nat>, m: nat, n: nat, t: nat, c: nat)
    requires n <= |e| && n <= |p| && Over(p, IsMax(m), e, n, t) == 0 && c < n && p[c] >= t
    ensures e[c] != m
  {
    if c < n - 1 { NoMax(p, e, m, n - 1, t, c); }
  }

  /** Lengths that cost no more, two of which are the longest. */
  lemma {:induction false} TwoLongest(p: seq<nat>, w: seq<nat>, e: seq<nat>, m: nat, t: nat, a: nat, b: nat)
    returns (e': seq<nat>, m': nat, u: nat, v: nat)
    requires Fits(p, e, m, t) && IsRoot(p, t, a) && IsRoot(p, t, b) && a < b
    ensures Fits(p, e', m', t) && Cost(p, w, e', t) <= Cost(p, w, e, t)
    ensures u != v && IsRoot(p, t, u) && IsRoot(p, t, v) && e'[u] == e'[v] == m'
    decreases m
  {
    hide Over, Pow2;
    var longest := Over(p, IsMax(m), e, t, t);
    if m == 0 { OverTwo(p, IsMax(0), e, t, t, a, b); }
    if longest >= 2 {
      u := LastMax(p, e, m, t, t);
      v := LastMax(p, e, m, u, t);
      e', m' := e, m;
    } else if longest == 0 {
      forall c | 0 <= c < t && IsRoot(p, t, c) ensures e[c] <= m - 1 { NoMax(p, e, m, t, t, c); }
      Rescale(p, e, m - 1, t);
      e', m', u, v := TwoLongest(p, w, e, m - 1, t, a, b);
    } else {
      u := LastMax(p, e, m, t, t);
      var e1 := e[u := m - 1];
      Shorten(p, w, e, m, t, u);
      e', m', u, v := TwoLongest(p, w, e1, m - 1, t, a, b);
    }
  }

  lemma {:induction false} SmallPowers()
    ensures Pow2(0) == 1 && Pow2(1) == 2
  {}

  /** A lone longest code can be shortened. */
  lemma {:induction false} Shorten(p: seq<nat>, w: seq<nat>, e: seq<nat>, m: nat, t: nat, u: nat)
    requires Fits(p, e, m, t) && IsRoot(p, t, u) && e[u] == m > 0 && Over(p, IsMax(m), e, t, t) == 1
    ensures Fits(p, e[u := m - 1], m - 1, t) && Cost(p, w, e[u := m - 1], t) <= Cost(p, w, e, t)
  {
    hide Over, Pow2;
    var e1 := e[u := m - 1];
    var q := Parity(p, e, m, t, t);
    OverUpdate(p, ShareOf(m), e, t, t, u, m - 1);
    OverUpdate(p, IsMax(m), e, t, t, u, m - 1);
    OverUpdate(p, CostOf(w), e, t, t, u, m - 1);
    TimesMono(if u < |w| then w[u] else 0, m - 1, m);
    TwicePow2(m - 1);
    SmallPowers();
    forall c | 0 <= c < t && IsRoot(p, t, c) ensures e1[c] <= m - 1 { NoMax(p, e1, m, t, t, c); }
    assert Fits(p, e1, m, t);
    Rescale(p, e1, m - 1, t);
  }

  lemma {:induction false} TimesMono(n: nat, x: nat, y: nat)
    requires x <= y
    ensures Times(n, x) <= Times(n, y)
  {}

  // ---------------------------------------------------------------- the lightest roots get the longest codes

  lemma {:induction false} Exchange(p: seq<nat>, w: seq<nat>, e: seq<nat>, m: nat, t: nat, a: nat, u: nat) returns (e': seq<nat>)
    requires Fits(p, e, m, t) && t <= |w| && IsRoot(p, t, a) && IsRoot(p, t, u) && e[u] == m && w[a] <= w[u]
    ensures Fits(p, e', m, t) && Cost(p, w, e', t) <= Cost(p, w, e, t)
    ensures e' == e[a := m][u := if a == u then m else e[a]]
  {
    hide Over, Pow2;
    e' := e[a := m][u := if a == u then m else e[a]];
    OverUpdate(p, ShareOf(m), e, t, t, a, m);
    OverUpdate(p, ShareOf(m), e[a := m], t, t, u, if a == u then m else e[a]);
    OverUpdate(p, CostOf(w), e, t, t, a, m);
    OverUpdate(p, CostOf(w), e[a := m], t, t, u, if a == u then m else e[a]);
    LighterLonger(w[a], w[u], e[a], m);
  }

  lemma {:induction false} LighterLonger(wa: nat, wu: nat, x: nat, m: nat)
    requires wa <= wu && x <= m
    ensures Times(wa, m) + Times(wu, x) <= Times(wa, x) + Times(wu, m)
  {
    assert (wu - wa) * (m - x) >= 0;
  }

  /** Among lengths that cost no more there are some that give both children of node `t` the greatest length. */
  lemma {:induction false} LightestLongest(p: seq<nat>, w: seq<nat>, e: seq<nat>, m: nat, t: nat, a: nat, b: nat) returns (e': seq<nat>, m': nat)
    requires Fits(p, e, m, t) && t <= |w| && Kids(p, t, a, b)
    requires forall c :: 0 <= c < t && IsRoot(p, t + 1, c) ==> w[a] <= w[c] && w[b] <= w[c]
    ensures Fits(p, e', m', t) && Cost(p, w, e', t) <= Cost(p, w, e, t) && e'[a] == e'[b] == m' >= 1
  {
    hide Over, Pow2;
    var u, v;
    if a < b { e', m', u, v := TwoLongest(p, w, e, m, t, a, b); } else { e', m', u, v := TwoLongest(p, w, e, m, t, b, a); }
    if u == b { u, v := v, u; }
    if u != a && e'[a] != m' {
      assert IsRoot(p, t + 1, u);
      e' := Exchange(p, w, e', m', t, a, u);
      assert e'[v] == m';
    } else if v == a {
      u, v := v, u;
    }
    if e'[b] != m' {
      if v == a { v := u; }
      assert v != a && v != b && IsRoot(p, t + 1, v);
      e' := Exchange(p, w, e', m', t, b, v);
    }
    if m' == 0 {
      if a < b { OverTwo(p, ShareOf(0), e', t, t, a, b); } else { OverTwo(p, ShareOf(0), e', t, t, b, a); }
      PowerZero();
    }
  }

  lemma {:induction false} PowerZero()
    ensures Pow2(0) == 1
  {}

  // ---------------------------------------------------------------- the bound

  /** Node `t` joins two roots that are lighter than all others, and weighs what they weigh together. */
  ghost predicate Joins(p: seq<nat>, w: seq<nat>, t: nat, a: nat, b: nat) {
    && |w| == |p| && Kids(p, t, a, b) && w[t] == w[a] + w[b]
    && forall c :: 0 <= c < t && IsRoot(p, t + 1, c) ==> w[a] <= w[c] && w[b] <= w[c]
  }

  ghost predicate JoinsLightest(p: seq<nat>, w: seq<nat>, t: nat) { exists a: nat, b: nat :: Joins(p, w, t, a, b) }

  /** A tree grown greedily. */
  ghost predicate Greedy(p: seq<nat>, w: seq<nat>, leaves: nat) {
    Tree(p, leaves) && |w| == |p| && forall t :: START <= t <= Root(leaves) ==> JoinsLightest(p, w, t)
  }

  /** Weights of the nodes from `t` up to the root. */
  function Above(w: seq<nat>, t: nat, root: nat): nat
    requires t <= root < |w|
    decreases root - t
  {
    w[t] + if t == root then 0 else Above(w, t + 1, root)
  }

  /** Both children of `t` one bit longer than `t` itself. */
  lemma {:induction false} JoinCost(w: seq<nat>, a: nat, b: nat, t: nat, x: nat)
    requires a < |w| && b < |w| && t < |w| && w[t] == w[a] + w[b]
    ensures Times(w[a], x + 1) + Times(w[b], x + 1) == Times(w[t], x) + w[t]
  {}

  /** Whatever lengths the roots get, they cost at least the weight of the nodes still to be made. */
  lemma {:induction false} Bound(p: seq<nat>, w: seq<nat>, leaves: nat, e: seq<nat>, m: nat, t: nat)
    requires Greedy(p, w, leaves) && START <= t <= Root(leaves) && Fits(p, e, m, t)
    ensures Cost(p, w, e, t) >= Above(w, t, Root(leaves))
    decreases Root(leaves) - t
  {
    hide Over, Pow2, Kids, Above;
    assert JoinsLightest(p, w, t);
    var a: nat, b: nat :| Joins(p, w, t, a, b);
    KidsRange(p, t, a, b);
    var e2, m2 := LightestLongest(p, w, e, m, t, a, b);
    JoinCost(w, a, b, t, m2 - 1);
    OverNext(p, CostOf(w), e2, t, a, b);
    AboveStep(w, t, Root(leaves));
    if t < Root(leaves) {
      var e3 := e2[t := m2 - 1];
      FitsNext(p, e2, m2, t, a, b);
      OverUpdate(p, CostOf(w), e2, t, t + 1, t, m2 - 1);
      OverNext(p, CostOf(w), e3, t, a, b);
      Bound(p, w, leaves, e3, m2, t + 1);
    }
  }

  lemma {:induction false} KidsRange(p: seq<nat>, t: nat, a: nat, b: nat)
    requires Kids(p, t, a, b)
    ensures a < t < |p| && b < t && a != b && p[a] == p[b] == t
  {}

  lemma {:induction false} AboveStep(w: seq<nat>, t: nat, root: nat)
    requires t <= root < |w|
    ensures Above(w, t, root) == w[t] + if t == root then 0 else Above(w, t + 1, root)
  {}

  /** Replacing two longest codes by one that is a bit shorter. */
  lemma {:induction false} FitsNext(p: seq<nat>, e: seq<nat>, m: nat, t: nat, a: nat, b: nat)
    requires Fits(p, e, m, t) && Kids(p, t, a, b) && e[a] == e[b] == m >= 1 && p[t] >= t + 1
    ensures Fits(p, e[t := m - 1], m, t + 1)
  {
    hide Over, Pow2;
    var e3 := e[t := m - 1];
    OverNext(p, ShareOf(m), e, t, a, b);
    OverNext(p, ShareOf(m), e3, t, a, b);
    OverUpdate(p, ShareOf(m), e, t, t + 1, t, m - 1);
    assert Pow2(0) == 1 && Pow2(1) == 2 by { TwicePow2(0); PowerZero(); }
    forall c | 0 <= c < t + 1 && IsRoot(p, t + 1, c) ensures e3[c] <= m { if c < t { assert IsRoot(p, t, c); } }
  }

  /** The depths in the tree cost exactly that. */
  lemma {:induction false} Achieved(p: seq<nat>, w: seq<nat>, leaves: nat, d: seq<nat>, t: nat)
    requires Greedy(p, w, leaves) && Depths(p, leaves, d) && START <= t <= Root(leaves)
    ensures Cost(p, w, d, t) == Above(w, t, Root(leaves))
    decreases Root(leaves) - t
  {
    hide Over, Kids, Above;
    assert JoinsLightest(p, w, t);
    var a: nat, b: nat :| Joins(p, w, t, a, b);
    KidsRange(p, t, a, b);
    ParentIn(p, leaves, a, t);
    ParentIn(p, leaves, b, t);
    assert d[a] == d[t] + 1 && d[b] == d[t] + 1;
    JoinCost(w, a, b, t, d[t]);
    OverNext(p, CostOf(w), d, t, a, b);
    AboveStep(w, t, Root(leaves));
    if t == Root(leaves) {
      OverNone(p, CostOf(w), d, leaves, t);
    } else {
      Achieved(p, w, leaves, d, t + 1);
    }
  }

  lemma {:induction false} ParentIn(p: seq<nat>, leaves: nat, c: nat, t: nat)
    requires Tree(p, leaves) && c < |p| && p[c] == t >= START
    ensures c < leaves || START <= c < Root(leaves)
  {}

  lemma {:induction false} OverNone(p: seq<nat>, f: (nat, nat) -> nat, e: seq<nat>, leaves: nat, n: nat)
    requires Tree(p, leaves) && n <= |e| && n <= |p|
    ensures Over(p, f, e, n, Root(leaves) + 1) == 0
  {
    if n > 0 { OverNone(p, f, e, leaves, n - 1); }
  }

  // ---------------------------------------------------------------- the symbols' codes

  /** What code lengths cost for symbols that occur this often. */
  function TotalBits(counts: seq<nat>, e: seq<nat>, n: nat): nat
    requires n <= |counts| && n <= |e|
  {
    if n == 0 then 0 else TotalBits(counts, e, n - 1) + Times(counts[n - 1], e[n - 1])
  }

  /** Before the first node is made the roots are the leaves. */
  lemma {:induction false} LeavesAreRoots(p: seq<nat>, w: seq<nat>, leaves: nat, e: seq<nat>, m: nat, n: nat)
    requires Tree(p, leaves) && n <= START && |e| == |p| <= |w|
    ensures
      var k := if n <= leaves then n else leaves;
      && Over(p, ShareOf(m), e, n, START) == KraftSum(e, m, k)
      && Over(p, CostOf(w), e, n, START) == TotalBits(w, e, k)
  {
    if n > 0 { LeavesAreRoots(p, w, leaves, e, m, n - 1); }
  }

  lemma {:induction false} SameLengths(w: seq<nat>, e: seq<nat>, f: seq<nat>, m: nat, n: nat)
    requires n <= |e| && n <= |f| && n <= |w| && forall i :: 0 <= i < n ==> e[i] == f[i]
    ensures KraftSum(e, m, n) == KraftSum(f, m, n) && TotalBits(w, e, n) == TotalBits(w, f, n)
  {
    if n > 0 { SameLengths(w, e, f, m, n - 1); }
  }

  /** No prefix code is cheaper: any lengths that satisfy Kraft's inequality cost at least as much as the depths. */
  lemma {:induction false} HuffmanIsOptimal(p: seq<nat>, w: seq<nat>, leaves: nat, d: seq<nat>, e: seq<nat>, m: nat)
    requires Greedy(p, w, leaves) && Depths(p, leaves, d)
    requires leaves <= |e| && (forall i :: 0 <= i < leaves ==> e[i] <= m) && KraftSum(e, m, leaves) <= Pow2(m)
    ensures leaves <= |w| && leaves <= |d| && TotalBits(w, d, leaves) <= TotalBits(w, e, leaves)
  {
    hide Over, Pow2, KraftSum, TotalBits, Ordered, KidsBelow;
    var f: seq<nat> := seq(NODES, i requires 0 <= i < NODES => if i < leaves then e[i] else 0);
    SameLengths(w, e, f, m, leaves);
    LeavesAreRoots(p, w, leaves, f, m, START);
    LeavesAreRoots(p, w, leaves, d, m, START);
    forall c | 0 <= c < START && IsRoot(p, START, c) ensures f[c] <= m {}
    Bound(p, w, leaves, f, m, START);
    Achieved(p, w, leaves, d, START);
  }

  /** No lengths that satisfy Kraft's inequality take fewer bits. */
  ghost predicate Cheapest(counts: seq<nat>, d: seq<nat>, n: nat)
    requires n <= |counts| && n <= |d|
  {
    forall e: seq<nat>, m: nat {:trigger KraftSum(e, m, n)} ::
      n <= |e| && (forall i :: 0 <= i < n ==> e[i] <= m) && KraftSum(e, m, n) <= Pow2(m) ==> TotalBits(counts, d, n) <= TotalBits(counts, e, n)
  }

  lemma {:induction false} GreedyIsCheapest(p: seq<nat>, w: seq<nat>, counts: seq<nat>, leaves: nat, d: seq<nat>)
    requires Greedy(p, w, leaves) && Depths(p, leaves, d) && leaves <= |counts| <= |w| && forall i :: 0 <= i < leaves ==> counts[i] == w[i]
    ensures leaves <= |d| && Cheapest(counts, d, leaves)
  {
    hide Greedy, KraftSum, TotalBits;
    assert Tree(p, leaves) by { GreedyTree(p, w, leaves); }
    forall e: seq<nat>, m: nat {:trigger KraftSum(e, m, leaves)}
      | leaves <= |e| && (forall i :: 0 <= i < leaves ==> e[i] <= m) && KraftSum(e, m, leaves) <= Pow2(m)
      ensures TotalBits(counts, d, leaves) <= TotalBits(counts, e, leaves)
    {
      HuffmanIsOptimal(p, w, leaves, d, e, m);
      SameCounts(counts, w, d, leaves);
      SameCounts(counts, w, e, leaves);
    }
  }

  lemma {:induction false} GreedyTree(p: seq<nat>, w: seq<nat>, leaves: nat)
    requires Greedy(p, w, leaves)
    ensures Tree(p, leaves)
  {}

  lemma {:induction false} SameCounts(v: seq<nat>, w: seq<nat>, e: seq<nat>, n: nat)
    requires n <= |v| && n <= |w| && n <= |e| && forall i :: 0 <= i < n ==> v[i] == w[i]
    ensures TotalBits(v, e, n) == TotalBits(w, e, n)
  {
    if n > 0 { SameCounts(v, w, e, n - 1); }
  }
}
