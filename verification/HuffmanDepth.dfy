/** How deep a Huffman tree gets: a tree of a certain depth weighs at least a Fibonacci number, and Fibonacci numbers
    as frequencies give the deepest trees. */
module HuffmanDepth {
  import opened HuffmanShape
  import opened HuffmanOptimal

  function Fib(n: nat): nat { if n < 2 then n else Fib(n - 1) + Fib(n - 2) }

  lemma {:induction false} FibMono(a: nat, b: nat)
    requires a <= b
    ensures Fib(a) <= Fib(b)
    decreases b
  {
    if a < b { FibMono(a, b - 1); }
  }

  lemma {:induction false} FibStrict(a: nat, b: nat)
    requires 2 <= a < b
    ensures Fib(a) < Fib(b)
  {
    FibMono(a + 1, b);
    FibPositive(a - 1);
  }

  lemma {:induction false} FibPositive(n: nat)
    requires n >= 1
    ensures Fib(n) >= 1
  {
    FibMono(1, n);
  }

  lemma {:induction false} FibNext(n: nat)
    ensures Fib(n + 2) == Fib(n + 1) + Fib(n)
  {}

  // ---------------------------------------------------------------- the weight of deep trees

  lemma {:induction false} ParentAbove(p: seq<nat>, leaves: nat, c: nat)
    requires Tree(p, leaves) && (c < leaves || START <= c < Root(leaves))
    ensures START <= p[c] <= Root(leaves) && c < p[c]
  {
    hide Ordered, KidsBelow;
  }

  /** Whatever is joined later than `v`, or made later, is not lighter. */
  lemma {:induction false} NotLighter(p: seq<nat>, w: seq<nat>, leaves: nat, u: nat, v: nat, c: nat)
    requires Greedy(p, w, leaves) && START <= u <= Root(leaves) && v < |p| && p[v] == u
    requires c <= Root(leaves) && (c >= u || p[c] > u)
    ensures w[v] <= w[c]
    decreases c
  {
    hide Tree;
    assert JoinsLightest(p, w, u);
    var a: nat, b: nat :| Joins(p, w, u, a, b);
    KidsRange(p, u, a, b);
    if c < u {
      assert IsRoot(p, u + 1, c);
    } else if c > u {
      assert JoinsLightest(p, w, c);
      var a2: nat, b2: nat :| Joins(p, w, c, a2, b2);
      KidsRange(p, c, a2, b2);
      NotLighter(p, w, leaves, u, v, a2);
    }
  }

  /** A node weighs at least as much as its child and a child of that together. */
  lemma {:induction false} Uncle(p: seq<nat>, w: seq<nat>, leaves: nat, v: nat)
    requires Greedy(p, w, leaves) && v < |p| && START <= p[v] < Root(leaves)
    ensures START <= p[p[v]] <= Root(leaves) && w[p[p[v]]] >= w[p[v]] + w[v]
  {
    var u := p[v];
    ParentAbove(p, leaves, u);
    hide Tree;
    var g := p[u];
    assert JoinsLightest(p, w, g);
    var a: nat, b: nat :| Joins(p, w, g, a, b);
    KidsRange(p, g, a, b);
    NotLighter(p, w, leaves, u, v, if a == u then b else a);
  }

  /** From a node `v` whose weight and whose parent's weight are Fibonacci numbers at least, up to the root. */
  lemma {:induction false} Rise(p: seq<nat>, w: seq<nat>, leaves: nat, d: seq<nat>, v: nat, h: nat)
    requires Greedy(p, w, leaves) && Depths(p, leaves, d) && (v < leaves || START <= v < Root(leaves))
    requires START <= p[v] <= Root(leaves) && w[v] >= Fib(h + 2) && w[p[v]] >= Fib(h + 3)
    ensures w[Root(leaves)] >= Fib(h + 2 + d[v])
    decreases d[v]
  {
    hide Ordered, KidsBelow, Kids, JoinsLightest, Fib;
    ParentAbove(p, leaves, v);
    if p[v] < Root(leaves) {
      Uncle(p, w, leaves, v);
      FibNext(h + 2);
      Rise(p, w, leaves, d, p[v], h + 1);
    }
  }

  lemma {:induction false} Positive(p: seq<nat>, w: seq<nat>, leaves: nat, c: nat)
    requires Greedy(p, w, leaves) && (forall i :: 0 <= i < leaves ==> w[i] >= 1) && (c < leaves || START <= c <= Root(leaves))
    ensures w[c] >= 1
  {
    if c >= leaves {
      assert JoinsLightest(p, w, c);
      var a: nat, b: nat :| Joins(p, w, c, a, b);
      KidsRange(p, c, a, b);
      KidOf(p, leaves, a);
      Positive(p, w, leaves, a);
    }
  }

  lemma {:induction false} KidOf(p: seq<nat>, leaves: nat, c: nat)
    requires Tree(p, leaves) && c < |p| && p[c] >= START
    ensures c < leaves || START <= c < Root(leaves)
  {
    hide Ordered, KidsBelow;
  }

  /** A leaf at depth `d` makes the tree weigh the Fibonacci number of `d + 2` at least. */
  lemma {:induction false} DeepIsHeavy(p: seq<nat>, w: seq<nat>, leaves: nat, d: seq<nat>, v: nat)
    requires Greedy(p, w, leaves) && Depths(p, leaves, d) && v < leaves && forall i :: 0 <= i < leaves ==> w[i] >= 1
    ensures w[Root(leaves)] >= Fib(d[v] + 2)
  {
    ParentAbove(p, leaves, v);
    hide Tree;
    assert JoinsLightest(p, w, p[v]);
    var a: nat, b: nat :| Joins(p, w, p[v], a, b);
    KidsRange(p, p[v], a, b);
    var s := if a == v then b else a;
    KidOf(p, leaves, s);
    Positive(p, w, leaves, s);
    assert Fib(2) == 1 && Fib(3) == 2;
    Rise(p, w, leaves, d, v, 0);
  }

  /** A leaf has gone before a node only if it is lighter: of equally heavy roots nodes are taken first. */
  ghost predicate NodesFirst(p: seq<nat>, w: seq<nat>, leaves: nat) {
    && leaves <= |p| == |w|
    && forall i, c :: 0 <= i < leaves && START <= c < |p| && c < p[i] < p[c] ==> w[i] < w[c]
  }

  /** The Huffman tree of these frequencies, `total` in all, with these depths of its leaves. */
  ghost predicate DepthsIn(freq: seq<nat>, total: nat, d: seq<nat>, p: seq<nat>, w: seq<nat>) {
    && Greedy(p, w, |freq|) && NodesFirst(p, w, |freq|) && Depths(p, |freq|, d) && w[Root(|freq|)] == total
    && forall i :: 0 <= i < |freq| ==> w[i] == freq[i]
  }

  ghost predicate HuffmanDepths(freq: seq<nat>, total: nat, d: seq<nat>) {
    exists p: seq<nat>, w: seq<nat> :: DepthsIn(freq, total, d, p, w)
  }

  /** Deep trees are heavy: a code of length `d` takes a total of at least the Fibonacci number of `d + 2`. */
  lemma {:induction false} DepthBound(freq: seq<nat>, total: nat, d: seq<nat>, i: nat)
    requires HuffmanDepths(freq, total, d) && (forall k :: 0 <= k < |freq| ==> freq[k] >= 1) && i < |freq|
    ensures i < |d| && Fib(d[i] + 2) <= total
  {
    hide Fib;
    var p: seq<nat>, w: seq<nat> :| DepthsIn(freq, total, d, p, w);
    DeepIsHeavy(p, w, |freq|, d, i);
  }

  // ---------------------------------------------------------------- Fibonacci numbers as frequencies

  ghost predicate FibonacciWeights(w: seq<nat>, n: nat) { n <= |w| && forall r :: 0 <= r < n ==> w[r] == Fib(n - r) }

  /** Each node joins the one before it and the next leaf. */
  ghost predicate Chained(p: seq<nat>, w: seq<nat>, n: nat, i: nat)
    requires n >= 2
  {
    START + i < |p| == |w| && i + 2 <= n && n <= START && w[START + i] + 1 == Fib(i + 4) && p[n - 2 - i] == START + i
    && p[if i == 0 then n - 1 else START + i - 1] == START + i
  }

  lemma {:induction false} Chain(p: seq<nat>, w: seq<nat>, n: nat, i: nat)
    requires Greedy(p, w, n) && FibonacciWeights(w, n) && 2 <= n <= START && i <= n - 2
    ensures forall j :: 0 <= j <= i ==> Chained(p, w, n, j)
  {
    hide Fib;
    if i > 0 { Chain(p, w, n, i - 1); }
    var t := START + i;
    assert JoinsLightest(p, w, t);
    var a: nat, b: nat :| Joins(p, w, t, a, b);
    KidsRange(p, t, a, b);
    KidOf(p, n, a);
    KidOf(p, n, b);
    Candidates(p, w, n, i, a);
    Candidates(p, w, n, i, b);
    ParentAbove(p, n, n - 2 - i);
    if i == 0 {
      FirstPair(p, w, n, a, b);
    } else {
      assert Chained(p, w, n, i - 1);
      ParentAbove(p, n, START + i - 1);
      NotTaken(p, w, n, i, i);
      NextPair(p, w, n, i, a, b);
    }
  }

  /** The next leaf is not a child of an earlier node, since each has two others. */
  lemma {:induction false} NotTaken(p: seq<nat>, w: seq<nat>, n: nat, i: nat, k: nat)
    requires Greedy(p, w, n) && 2 <= n <= START && k <= i <= n - 2 && (forall j :: 0 <= j < i ==> Chained(p, w, n, j))
    ensures p[n - 2 - i] >= START + k
  {
    hide Fib, Tree;
    if k == 0 {
      ParentAbove(p, n, n - 2 - i);
    } else {
      NotTaken(p, w, n, i, k - 1);
      assert Chained(p, w, n, k - 1);
      assert JoinsLightest(p, w, START + k - 1);
      var a: nat, b: nat :| Joins(p, w, START + k - 1, a, b);
    }
  }

  /** What is left to be joined at node `i`: the leaves not yet taken, and the node before it. */
  lemma {:induction false} Candidates(p: seq<nat>, w: seq<nat>, n: nat, i: nat, c: nat)
    requires Tree(p, n) && 2 <= n <= START && i <= n - 2 && (forall j :: 0 <= j < i ==> Chained(p, w, n, j))
    requires c < START + i && (c < n || c >= START)
    ensures p[c] < START + i || c <= n - 2 - i || (i == 0 && c == n - 1) || (i > 0 && c == START + i - 1)
  {
    hide Ordered, KidsBelow, Fib;
    if n - 1 - i <= c < n {
      if c == n - 1 { assert i > 0 ==> Chained(p, w, n, 0); } else { assert Chained(p, w, n, n - 2 - c); }
    } else if START <= c < START + i - 1 {
      assert Chained(p, w, n, c - START + 1);
    }
  }

  lemma {:induction false} SmallFib()
    ensures Fib(1) == 1 && Fib(2) == 1 && Fib(3) == 2 && Fib(4) == 3
  {}

  lemma {:induction false} FirstPair(p: seq<nat>, w: seq<nat>, n: nat, a: nat, b: nat)
    requires Tree(p, n) && FibonacciWeights(w, n) && 2 <= n <= START && Joins(p, w, START, a, b) && a < n && b < n
    ensures Chained(p, w, n, 0)
  {
    hide Fib, Ordered, KidsBelow;
    SmallFib();
    if a < n - 2 { FibMono(3, n - a); }
    if b < n - 2 { FibMono(3, n - b); }
    assert w[n - 1] == Fib(1) && w[n - 2] == Fib(2);
    assert IsRoot(p, START + 1, n - 1) || p[n - 1] == START;
    assert IsRoot(p, START + 1, n - 2) || p[n - 2] == START;
  }

  lemma {:induction false} NextPair(p: seq<nat>, w: seq<nat>, n: nat, i: nat, a: nat, b: nat)
    requires Tree(p, n) && FibonacciWeights(w, n) && 2 <= n <= START && 0 < i <= n - 2 && Joins(p, w, START + i, a, b)
    requires w[START + i - 1] + 1 == Fib(i + 3) && START + i - 1 < |p| && p[START + i - 1] >= START + i && p[n - 2 - i] >= START + i
    requires (a <= n - 2 - i || a == START + i - 1) && (b <= n - 2 - i || b == START + i - 1)
    ensures Chained(p, w, n, i)
  {
    hide Fib, Tree;
    var x, y, t := START + i - 1, n - 2 - i, START + i;
    KidsRange(p, t, a, b);
    FibNext(i + 2);
    FibStrict(i + 2, i + 3);
    if a < y { FibMono(i + 3, n - a); }
    if b < y { FibMono(i + 3, n - b); }
    assert w[y] == Fib(i + 2);
    assert IsRoot(p, t + 1, x) || p[x] == t;
    assert IsRoot(p, t + 1, y) || p[y] == t;
  }

  /** Their codes have all lengths from one up, the greatest one twice. */
  lemma {:induction false} FibonacciDepths(p: seq<nat>, w: seq<nat>, n: nat, d: seq<nat>)
    requires Greedy(p, w, n) && FibonacciWeights(w, n) && 2 <= n <= START && Depths(p, n, d)
    ensures forall r :: 0 <= r < n ==> d[r] == if r == n - 1 then n - 1 else r + 1
  {
    hide Fib, Tree;
    Chain(p, w, n, n - 2);
    forall r | 0 <= r < n ensures d[r] == if r == n - 1 then n - 1 else r + 1 {
      var i := if r == n - 1 then 0 else n - 2 - r;
      assert Chained(p, w, n, i);
      NodeDepth(p, w, n, d, i);
    }
  }

  lemma {:induction false} NodeDepth(p: seq<nat>, w: seq<nat>, n: nat, d: seq<nat>, i: nat)
    requires Tree(p, n) && 2 <= n <= START && Depths(p, n, d) && i <= n - 2 && forall j :: 0 <= j <= n - 2 ==> Chained(p, w, n, j)
    ensures d[START + i] == n - 2 - i
    decreases n - 2 - i
  {
    hide Fib, Tree;
    if i < n - 2 {
      assert Chained(p, w, n, i + 1);
      NodeDepth(p, w, n, d, i + 1);
    }
  }

  /** The bound is tight up to one: with the first `n` Fibonacci numbers as frequencies. */
  lemma {:induction false} FibonacciLengths(freq: seq<nat>, total: nat, d: seq<nat>)
    requires HuffmanDepths(freq, total, d) && FibonacciWeights(freq, |freq|) && 2 <= |freq| <= START
    ensures |d| == NODES && forall r :: 0 <= r < |freq| ==> d[r] == if r == |freq| - 1 then |freq| - 1 else r + 1
  {
    hide Fib;
    var p: seq<nat>, w: seq<nat> :| DepthsIn(freq, total, d, p, w);
    FibonacciDepths(p, w, |freq|, d);
  }

  // ---------------------------------------------------------------- some Fibonacci numbers

  lemma {:induction false} TwentyFib()
    ensures Fib(19) == 4181 && Fib(20) == 6765 && Fib(26) == 121393 && Fib(27) == 196418
  {
    assert Fib(8) == 21 && Fib(9) == 34 && Fib(10) == 55 && Fib(11) == 89 && Fib(12) == 144 && Fib(13) == 233;
    assert Fib(14) == 377 && Fib(15) == 610 && Fib(16) == 987 && Fib(17) == 1597 && Fib(18) == 2584 && Fib(19) == 4181;
    assert Fib(20) == 6765 && Fib(21) == 10946 && Fib(22) == 17711 && Fib(23) == 28657 && Fib(24) == 46368 && Fib(25) == 75025;
  }

  lemma {:induction false} SomeFib()
    ensures Fib(27) == 196418 && Fib(43) == 433494437
  {
    hide Fib;
    TwentyFib();
    FibNext(26);
    FibNext(27);
    FibNext(28);
    FibNext(29);
    FibNext(30);
    FibNext(31);
    FibNext(32);
    FibNext(33);
    FibNext(34);
    FibNext(35);
    FibNext(36);
    FibNext(37);
    FibNext(38);
    FibNext(39);
    FibNext(40);
    FibNext(41);
  }
}
