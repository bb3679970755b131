/** The code book of a text is determined by its counts and the limit: order of the symbols, tree, limited lengths and weights. */
module HuffmanUnique {
  import opened Counting
  import opened HuffmanShape
  import opened HuffmanOptimal
  import opened HuffmanDepth
  import opened HuffmanBook
  import opened HuffmanBuild
  import HuffmanLimit

  // ---------------------------------------------------------------- the order of the symbols

  lemma {:induction false} OrdersAgree(count: seq<nat>, x: seq<nat>, y: seq<nat>, k: nat)
    requires Permutation(x) && Permutation(y) && InOrder(count, x) && InOrder(count, y) && k <= |count|
    ensures x[..k] == y[..k]
  {
    if k > 0 {
      OrdersAgree(count, x, y, k - 1);
      assert forall i :: 0 <= i < k - 1 ==> x[i] == x[..k - 1][i] == y[..k - 1][i] == y[i];
      var i := InjectiveOnto(y, x[k - 1]);
      var j := InjectiveOnto(x, y[k - 1]);
      assert i >= k - 1 && j >= k - 1;
    }
  }

  // ---------------------------------------------------------------- the tree

  /** Two trees of the same leaves agree on what has been joined before node `t` was made. */
  ghost predicate Agree(p: seq<nat>, w: seq<nat>, q: seq<nat>, v: seq<nat>, leaves: nat, t: nat) {
    && |p| == |w| == |q| == |v| && leaves <= START <= t <= |p|
    && (forall c :: 0 <= c < t && (c < leaves || c >= START) ==> w[c] == v[c])
    && (forall c :: 0 <= c < t && (c < leaves || c >= START) && (p[c] < t || q[c] < t) ==> p[c] == q[c])
  }

  ghost predicate Grown(p: seq<nat>, w: seq<nat>, leaves: nat) { Greedy(p, w, leaves) && NodesFirst(p, w, leaves) }

  /** Where one tree joins `x` and the other `y`, both would be lighter than the other, or earlier in their queue. */
  lemma {:induction false} SameChild(p: seq<nat>, w: seq<nat>, q: seq<nat>, v: seq<nat>, leaves: nat, t: nat, x: nat, y: nat)
    requires Grown(p, w, leaves) && Grown(q, v, leaves) && Agree(p, w, q, v, leaves, t) && START <= t <= Root(leaves)
    requires x < t && y < t && (x < leaves || x >= START) && (y < leaves || y >= START)
    requires p[x] == t < p[y] && q[y] == t
    ensures q[x] == t
  {
    hide KidsBelow, Kids;
    if q[x] > t {
      NotLighter(p, w, leaves, t, x, y);
      NotLighter(q, v, leaves, t, y, x);
    }
  }

  lemma {:induction false} ChildOfNext(p: seq<nat>, w: seq<nat>, leaves: nat, t: nat) returns (a: nat, b: nat)
    requires Grown(p, w, leaves) && START <= t <= Root(leaves)
    ensures Joins(p, w, t, a, b) && (a < leaves || START <= a < t) && (b < leaves || START <= b < t)
  {
    hide Tree;
    assert JoinsLightest(p, w, t);
    a, b :| Joins(p, w, t, a, b);
    KidOf(p, leaves, a);
    KidOf(p, leaves, b);
  }

  lemma {:induction false} JoinSame(p: seq<nat>, w: seq<nat>, q: seq<nat>, v: seq<nat>, leaves: nat, t: nat)
    requires Grown(p, w, leaves) && Grown(q, v, leaves) && Agree(p, w, q, v, leaves, t) && START <= t <= Root(leaves)
    ensures Agree(p, w, q, v, leaves, t + 1)
  {
    var a, b := ChildOfNext(p, w, leaves, t);
    var x, y := ChildOfNext(q, v, leaves, t);
    hide Tree, Greedy, NodesFirst, JoinsLightest;
    if p[x] > t { SameChild(q, v, p, w, leaves, t, x, a); }
  }

  lemma {:induction false} TreesAgree(p: seq<nat>, w: seq<nat>, q: seq<nat>, v: seq<nat>, leaves: nat, t: nat)
    requires Grown(p, w, leaves) && Grown(q, v, leaves) && (forall i :: 0 <= i < leaves ==> w[i] == v[i]) && START <= t <= Root(leaves) + 1
    ensures Agree(p, w, q, v, leaves, t)
    decreases t
  {
    if t == START {
      hide Ordered, KidsBelow, NodesFirst, JoinsLightest;
      forall c | 0 <= c < leaves ensures p[c] >= START && q[c] >= START {
        ParentAbove(p, leaves, c);
        ParentAbove(q, leaves, c);
      }
    } else {
      hide Greedy, NodesFirst;
      TreesAgree(p, w, q, v, leaves, t - 1);
      JoinSame(p, w, q, v, leaves, t - 1);
    }
  }

  lemma {:induction false} DepthsAgree(p: seq<nat>, w: seq<nat>, q: seq<nat>, v: seq<nat>, leaves: nat, d: seq<nat>, e: seq<nat>, c: nat)
    requires Tree(p, leaves) && Tree(q, leaves) && Agree(p, w, q, v, leaves, Root(leaves) + 1)
    requires Depths(p, leaves, d) && Depths(q, leaves, e) && (c < leaves || START <= c <= Root(leaves))
    ensures d[c] == e[c]
    decreases |p| - (if c < leaves then p[c] - 1 else c)
  {
    if c != Root(leaves) {
      ParentAbove(p, leaves, c);
      hide Ordered, KidsBelow;
      DepthsAgree(p, w, q, v, leaves, d, e, p[c]);
    }
  }

  /** The depths of the leaves of the tree are determined by the frequencies. */
  lemma {:induction false} LengthsAreUnique(freq: seq<nat>, total: nat, total': nat, d: seq<nat>, e: seq<nat>)
    requires HuffmanDepths(freq, total, d) && HuffmanDepths(freq, total', e)
    ensures |d| == |e| == NODES && |freq| <= NODES && d[..|freq|] == e[..|freq|]
  {
    var p: seq<nat>, w: seq<nat> :| DepthsIn(freq, total, d, p, w);
    var q: seq<nat>, v: seq<nat> :| DepthsIn(freq, total', e, q, v);
    var n := |freq|;
    TreesAgree(p, w, q, v, n, Root(n) + 1);
    forall c | 0 <= c < n ensures d[c] == e[c] { DepthsAgree(p, w, q, v, n, d, e, c); }
  }

  // ---------------------------------------------------------------- the whole book

  lemma {:induction false} RanksAgree(count: seq<nat>, x: seq<nat>, f: seq<nat>, y: seq<nat>, g: seq<nat>)
    requires Ranking(count, x, f, |f|) && Ranking(count, y, g, |g|)
    ensures x == y && f == g
  {
    OrdersAgree(count, x, y, |count|);
    assert x[..|count|] == x && y[..|count|] == y;
    MorePresent(count, x, f, g);
    MorePresent(count, x, g, f);
  }

  lemma {:induction false} MorePresent(count: seq<nat>, x: seq<nat>, f: seq<nat>, g: seq<nat>)
    requires Ranking(count, x, f, |f|) && Ranking(count, x, g, |g|)
    ensures |f| >= |g|
  {
    if |f| < |count| { assert count[x[|f|]] == 0; }
  }

  lemma {:induction false} SameLimited(tree: seq<nat>, tree': seq<nat>, freq: seq<nat>, m: nat, c: seq<nat>, d: seq<nat>)
    requires |freq| <= |tree| && |freq| <= |tree'| && tree[..|freq|] == tree'[..|freq|]
    requires HuffmanLimit.LimitedTo(tree, freq, m, c) && HuffmanLimit.LimitedTo(tree', freq, m, d)
    ensures c == d && tree[|freq| - 1] == tree'[|freq| - 1]
  {
    var t, t' := tree[..|freq|], tree'[..|freq|];
    assert t[|freq| - 1] == t'[|freq| - 1];
    HuffmanLimit.LimitedIsUnique(tree, freq, m, c, d);
  }

  /** Counts and limit determine the weights and the size of the code space. */
  lemma {:induction false} BookIsUnique(count: seq<nat>, m: nat, tree: seq<nat>, ws: seq<nat>, bits: nat, tree': seq<nat>, ws': seq<nat>, bits': nat)
    requires LimitedBook(count, tree, m, ws, bits) && LimitedBook(count, tree', m, ws', bits')
    ensures ws == ws' && bits == bits'
  {
    hide Plain, HuffmanDepths, Permutation, InOrder, HuffmanLimit.LimitedTo;
    var x: seq<nat>, f: seq<nat>, c: seq<nat> :| LimitedAlong(count, x, f, tree, m, c, ws, bits);
    var y: seq<nat>, g: seq<nat>, d: seq<nat> :| LimitedAlong(count, y, g, tree', m, d, ws', bits');
    RanksAgree(count, x, f, y, g);
    LengthsAreUnique(f, Plain(count, |count|), Plain(count, |count|), tree, tree');
    SameLimited(tree, tree', f, m, c, d);
    RankingSizes(count, x, f, |f|);
    forall s | 0 <= s < |count| ensures ws[s] == ws'[s] { SameWeight(count, x, f, c, ws, ws', bits, s); }
  }

  lemma {:induction false} SameWeight(count: seq<nat>, symbols: seq<nat>, freq: seq<nat>, c: seq<nat>, ws: seq<nat>, ws': seq<nat>, bits: nat, s: nat)
    requires Ranking(count, symbols, freq, |freq|) && s < |count|
    requires LengthsKept(count, symbols, freq, c, ws, bits) && LengthsKept(count, symbols, freq, c, ws', bits)
    requires count[s] == 0 ==> ws[s] == 0 && ws'[s] == 0
    ensures ws[s] == ws'[s]
  {
    var i := InjectiveOnto(symbols, s);
  }
}
