/** From frequencies to a code book: sorting, the tree, the limit and the weights, put together. */
module HuffmanBuild {
  import opened Powers
  import opened Counting
  import opened HuffmanShape
  import opened HuffmanDepth
  import opened HuffmanOptimal
  import opened HuffmanSort
  import opened HuffmanTable
  import opened HuffmanBook
  import HuffmanTree
  import HuffmanLimit

  // ---------------------------------------------------------------- sums in another order

  function Plain(f: seq<nat>, n: nat): nat
    requires n <= |f|
  {
    if n == 0 then 0 else Plain(f, n - 1) + f[n - 1]
  }

  lemma {:induction false} PlainUpdate(f: seq<nat>, n: nat, i: nat, x: nat)
    requires i < n <= |f|
    ensures Plain(f[i := x], n) == Plain(f, n) - f[i] + x
    ensures f[i] <= Plain(f, n)
  {
    if i < n - 1 { PlainUpdate(f, n - 1, i, x); } else { PlainSame(f, f[i := x], n - 1); }
  }

  lemma {:induction false} PlainSame(f: seq<nat>, g: seq<nat>, n: nat)
    requires n <= |f| && n <= |g| && forall i :: 0 <= i < n ==> f[i] == g[i]
    ensures Plain(f, n) == Plain(g, n)
  {
    if n > 0 { PlainSame(f, g, n - 1); }
  }

  /** Nothing is added behind `m`. */
  lemma {:induction false} PlainZeros(f: seq<nat>, m: nat, n: nat)
    requires m <= n <= |f| && forall i :: m <= i < n ==> f[i] == 0
    ensures Plain(f, m) == Plain(f, n)
    decreases n
  {
    if m < n { PlainZeros(f, m, n - 1); }
  }

  function Permuted(f: seq<nat>, symbols: seq<nat>): (g: seq<nat>)
    requires forall i :: 0 <= i < |symbols| ==> symbols[i] < |f|
    ensures |g| == |symbols| && forall i :: 0 <= i < |g| ==> g[i] == f[symbols[i]]
  {
    seq(|symbols|, i requires 0 <= i < |symbols| => f[symbols[i]])
  }

  /** `f` at the first `n` of the symbols, zero elsewhere. */
  function Masked(f: seq<nat>, symbols: seq<nat>, n: nat): (g: seq<nat>)
    requires Permutation(symbols) && |f| == |symbols| && n <= |f|
    ensures |g| == |f|
  {
    if n == 0 then seq(|f|, _ => 0) else Masked(f, symbols, n - 1)[symbols[n - 1] := f[symbols[n - 1]]]
  }

  lemma {:induction false} MaskedAt(f: seq<nat>, symbols: seq<nat>, n: nat, s: nat)
    requires Permutation(symbols) && |f| == |symbols| && n <= |f| && s < |f|
    ensures Masked(f, symbols, n)[s] == if exists i :: 0 <= i < n && symbols[i] == s then f[s] else 0
  {
    if n > 0 { MaskedAt(f, symbols, n - 1, s); }
  }

  lemma {:induction false} MaskedSum(f: seq<nat>, symbols: seq<nat>, n: nat)
    requires Permutation(symbols) && |f| == |symbols| && n <= |f|
    ensures Plain(Masked(f, symbols, n), |f|) == Plain(Permuted(f, symbols), n)
  {
    hide Plain;
    if n == 0 {
      PlainZeros(Masked(f, symbols, 0), 0, |f|);
      PlainNothing(Masked(f, symbols, 0));
      PlainNothing(Permuted(f, symbols));
    } else {
      MaskedSum(f, symbols, n - 1);
      MaskedAt(f, symbols, n - 1, symbols[n - 1]);
      PlainUpdate(Masked(f, symbols, n - 1), |f|, symbols[n - 1], f[symbols[n - 1]]);
      PlainNext(Permuted(f, symbols), n - 1);
    }
  }

  lemma {:induction false} PlainNothing(f: seq<nat>)
    ensures Plain(f, 0) == 0
  {}

  lemma {:induction false} PlainNext(f: seq<nat>, n: nat)
    requires n < |f|
    ensures Plain(f, n + 1) == Plain(f, n) + f[n]
  {}

  /** A sum does not depend on the order. */
  lemma {:induction false} PermutedSum(f: seq<nat>, symbols: seq<nat>)
    requires Permutation(symbols) && |f| == |symbols|
    ensures Plain(Permuted(f, symbols), |f|) == Plain(f, |f|)
  {
    hide Plain;
    MaskedSum(f, symbols, |f|);
    forall s | 0 <= s < |f| ensures Masked(f, symbols, |f|)[s] == f[s] {
      var i := InjectiveOnto(symbols, s);
      MaskedAt(f, symbols, |f|, s);
    }
    assert Masked(f, symbols, |f|) == f;
  }

  // ---------------------------------------------------------------- cost of a text

  function Presence(count: seq<nat>): seq<nat> { seq(|count|, s requires 0 <= s < |count| => if count[s] > 0 then 1 else 0) }

  /** Symbols that occur. */
  function Present(count: seq<nat>): nat { Plain(Presence(count), |count|) }

  function Costs(count: seq<nat>, e: seq<nat>): (g: seq<nat>)
    requires |count| <= |e|
    ensures |g| == |count| && forall s :: 0 <= s < |g| ==> g[s] == Times(count[s], e[s])
  {
    seq(|count|, s requires 0 <= s < |count| => Times(count[s], e[s]))
  }

  function Spaces(count: seq<nat>, e: seq<nat>, m: nat): (g: seq<nat>)
    requires |count| <= |e|
    ensures |g| == |count| && forall s :: 0 <= s < |g| ==> g[s] == if count[s] > 0 then Share(m, e[s]) else 0
  {
    seq(|count|, s requires 0 <= s < |count| => if count[s] > 0 then Share(m, e[s]) else 0)
  }

  /** Bits of a text in which symbols occur this often. */
  function TextBits(count: seq<nat>, e: seq<nat>): nat
    requires |count| <= |e|
  {
    Plain(Costs(count, e), |count|)
  }

  /** Lengths up to `m` of a prefix code for the symbols that occur. */
  ghost predicate PrefixCode(count: seq<nat>, e: seq<nat>, m: nat) {
    && |e| == |count|
    && (forall s :: 0 <= s < |e| && count[s] > 0 ==> e[s] <= m)
    && Plain(Spaces(count, e, m), |count|) <= Pow2(m)
  }

  /** More frequent symbols come first, of equally frequent ones the smaller. */
  predicate Precedes(count: seq<nat>, s: nat, t: nat)
    requires s < |count| && t < |count|
  {
    count[s] > count[t] || (count[s] == count[t] && s < t)
  }

  ghost predicate InOrder(count: seq<nat>, symbols: seq<nat>) {
    && |symbols| == |count| && (forall i :: 0 <= i < |symbols| ==> symbols[i] < |count|)
    && forall i, j :: 0 <= i < j < |symbols| ==> Precedes(count, symbols[i], symbols[j])
  }

  /** Rank `i` is held by symbol `symbols[i]`; the first `leaves` of them occur. */
  ghost predicate Ranking(count: seq<nat>, symbols: seq<nat>, freq: seq<nat>, leaves: nat) {
    && Permutation(symbols) && InOrder(count, symbols) && leaves == |freq| <= |count|
    && (forall i :: 0 <= i < leaves ==> freq[i] == count[symbols[i]] > 0)
    && (forall i :: leaves <= i < |count| ==> count[symbols[i]] == 0)
  }

  /** Cost and code space are the same in rank order. */
  lemma {:induction false} InRankOrder(count: seq<nat>, symbols: seq<nat>, freq: seq<nat>, leaves: nat, e: seq<nat>, f: seq<nat>, m: nat)
    requires Ranking(count, symbols, freq, leaves) && |e| == |count| && leaves <= |f| && forall i :: 0 <= i < leaves ==> f[i] == e[symbols[i]]
    ensures TotalBits(freq, f, leaves) == TextBits(count, e)
    ensures KraftSum(f, m, leaves) == Plain(Spaces(count, e, m), |count|)
  {
    hide Plain, TotalBits, KraftSum, Share;
    var g, h := Permuted(Costs(count, e), symbols), Permuted(Spaces(count, e, m), symbols);
    PermutedSum(Costs(count, e), symbols);
    PermutedSum(Spaces(count, e, m), symbols);
    forall i | leaves <= i < |count| ensures g[i] == h[i] == 0 { TimesZero(e[symbols[i]]); }
    PlainZeros(g, leaves, |count|);
    PlainZeros(h, leaves, |count|);
    RankSums(freq, f, m, g, h, leaves);
  }

  lemma {:induction false} TimesZero(x: nat)
    ensures Times(0, x) == 0
  {}

  lemma {:induction false} RankSums(freq: seq<nat>, f: seq<nat>, m: nat, g: seq<nat>, h: seq<nat>, n: nat)
    requires n <= |freq| && n <= |f| && n <= |g| && n <= |h|
    requires forall i :: 0 <= i < n ==> g[i] == Times(freq[i], f[i]) && h[i] == Share(m, f[i])
    ensures TotalBits(freq, f, n) == Plain(g, n) && KraftSum(f, m, n) == Plain(h, n)
  {
    hide Times, Share;
    if n > 0 { RankSums(freq, f, m, g, h, n - 1); }
  }

  /** No prefix code makes the text shorter. */
  ghost predicate Shortest(count: seq<nat>, bits: seq<nat>)
    requires |count| == |bits|
  {
    forall e: seq<nat>, m: nat {:trigger PrefixCode(count, e, m)} :: PrefixCode(count, e, m) ==> TextBits(count, bits) <= TextBits(count, e)
  }

  lemma {:induction false} CheapestIsShortest(count: seq<nat>, symbols: seq<nat>, freq: seq<nat>, leaves: nat, bits: seq<nat>, nbBits: seq<nat>)
    requires Ranking(count, symbols, freq, leaves) && |bits| == |count| && leaves <= |nbBits| && Cheapest(freq, nbBits, leaves)
    requires forall i :: 0 <= i < leaves ==> nbBits[i] == bits[symbols[i]]
    ensures Shortest(count, bits)
  {
    hide TotalBits, KraftSum, Plain, Permutation;
    forall e: seq<nat>, m: nat {:trigger PrefixCode(count, e, m)} | PrefixCode(count, e, m) ensures TextBits(count, bits) <= TextBits(count, e) {
      ByRank(count, symbols, freq, leaves);
      var f := seq(leaves, i requires 0 <= i < leaves => e[symbols[i]]);
      InRankOrder(count, symbols, freq, leaves, e, f, m);
      InRankOrder(count, symbols, freq, leaves, bits, nbBits, m);
      assert KraftSum(f, m, leaves) <= Pow2(m);
    }
  }

  lemma {:induction false} ByRank(count: seq<nat>, symbols: seq<nat>, freq: seq<nat>, leaves: nat)
    requires Ranking(count, symbols, freq, leaves)
    ensures forall i :: 0 <= i < leaves ==> symbols[i] < |count| && count[symbols[i]] > 0
  {}

  // ---------------------------------------------------------------- buildCTable

  lemma {:induction false} SmallCounts(count: seq<nat>)
    requires Plain(count, |count|) < HuffmanTree.NOT_YET
    ensures Small(count)
  {
    hide Plain;
    assert Pow2(30) == HuffmanTree.NOT_YET by { TenPowers(); }
    forall k | 0 <= k < |count| ensures Rank(count[k]) < 31 {
      PlainUpdate(count, |count|, k, 0);
      TwicePow2(30);
      HighBitBelow(count[k] + 1, 31);
    }
  }

  lemma {:induction false} TenPowers()
    ensures Pow2(30) == 0x4000_0000
  {
    assert Pow2(8) == 256 && Pow2(16) == 65536 && Pow2(24) == 0x100_0000;
  }

  function SymbolsOf(h: seq<Node>): (symbols: seq<nat>)
    ensures |symbols| == |h| && forall k :: 0 <= k < |h| ==> symbols[k] == h[k].symbol
  {
    seq(|h|, k requires 0 <= k < |h| => h[k].symbol)
  }

  function CountsOf(h: seq<Node>, n: nat): (freq: seq<nat>)
    requires n <= |h|
    ensures |freq| == n && forall k :: 0 <= k < n ==> freq[k] == h[k].count
  {
    seq(n, k requires 0 <= k < n => h[k].count)
  }

  /** What the sorted nodes say about the symbols. */
  lemma {:induction false} RankedIsRanking(h: seq<Node>, count: seq<nat>, leaves: nat)
    requires |h| == |count| && Ranked(h, count) && leaves <= |h|
    requires (leaves > 0 ==> h[leaves - 1].count > 0) && forall k :: leaves <= k < |h| ==> h[k].count == 0
    ensures Ranking(count, SymbolsOf(h), CountsOf(h, leaves), leaves)
    ensures leaves == Present(count) && Plain(CountsOf(h, leaves), leaves) == Plain(count, |count|)
  {
    hide Plain;
    var symbols, freq := SymbolsOf(h), CountsOf(h, leaves);
    PermutedSum(count, symbols);
    PermutedSum(Presence(count), symbols);
    var g := Permuted(count, symbols);
    PlainZeros(g, leaves, |count|);
    PlainSame(g, freq, leaves);
    var q := Permuted(Presence(count), symbols);
    PlainZeros(q, leaves, |count|);
    PlainOnes(q, leaves);
  }

  lemma {:induction false} PlainOnes(f: seq<nat>, n: nat)
    requires n <= |f| && forall i :: 0 <= i < n ==> f[i] == 1
    ensures Plain(f, n) == n
  {
    if n > 0 { PlainOnes(f, n - 1); }
  }

  lemma {:induction false} SumIsPlain(c: seq<nat>, freq: seq<nat>, n: nat)
    requires n <= |freq| && n + 1 <= |c| && forall i :: 0 <= i < n ==> c[i + 1] == freq[i]
    ensures HuffmanTree.Sum(c, 1, n + 1) == Plain(freq, n)
  {
    if n > 0 { SumIsPlain(c, freq, n - 1); }
  }

  /** Code lengths that go with the weights. */
  function BitsOfAll(weights: seq<nat>, limit: nat): (bits: seq<nat>)
    requires forall s :: 0 <= s < |weights| ==> weights[s] <= limit + 1
    ensures |bits| == |weights| && forall s :: 0 <= s < |bits| ==> bits[s] == BitsOf(weights[s], limit)
  {
    seq(|weights|, s requires 0 <= s < |weights| => BitsOf(weights[s], limit))
  }

  /** Symbols and their frequencies in rank order. */
  method RankSymbols(count: seq<nat>) returns (symbols: seq<nat>, freq: seq<nat>)
    requires Plain(count, |count|) < HuffmanTree.NOT_YET
    ensures Ranking(count, symbols, freq, |freq|) && |freq| == Present(count) && Plain(freq, |freq|) == Plain(count, |count|)
    ensures forall i, j :: 0 <= i <= j < |freq| ==> freq[i] >= freq[j]
  {
    hide Plain, Ranked, Present, Ranking;
    SmallCounts(count);
    var huffNode := Sort(count);
    var leaves := LastPresent(huffNode, count);
    ghost var h: seq<Node> := huffNode[..];
    symbols, freq := SymbolsOf(huffNode[..]), CountsOf(huffNode[..], leaves);
    RankedIsRanking(h, count, leaves);
    RankedFalls(h, count, leaves);
  }

  /** The tree of the symbols that occur, in the order of their frequencies. */
  ghost predicate TreeOf(count: seq<nat>, tree: seq<nat>, leaves: nat) {
    exists symbols: seq<nat>, freq: seq<nat> :: |freq| == leaves && TreeAlong(count, symbols, freq, tree)
  }

  ghost predicate TreeAlong(count: seq<nat>, symbols: seq<nat>, freq: seq<nat>, tree: seq<nat>) {
    && Ranking(count, symbols, freq, |freq|) && (forall i, j :: 0 <= i <= j < |freq| ==> freq[i] >= freq[j])
    && HuffmanDepths(freq, Plain(count, |count|), tree)
  }

  /** The weights of the symbols are those of the tree's lengths, in a code space of `bits` bits. */
  ghost predicate Uncut(count: seq<nat>, tree: seq<nat>, ws: seq<nat>, bits: nat) {
    exists symbols: seq<nat>, freq: seq<nat> :: TreeAlong(count, symbols, freq, tree) && LengthsKept(count, symbols, freq, tree, ws, bits)
  }

  ghost predicate LengthsKept(count: seq<nat>, symbols: seq<nat>, freq: seq<nat>, tree: seq<nat>, ws: seq<nat>, bits: nat)
    requires Ranking(count, symbols, freq, |freq|)
  {
    |count| == |ws| && |freq| <= |tree| && forall n :: 0 <= n < |freq| ==> ws[symbols[n]] + tree[n] == bits + 1
  }

  /** The weights of the symbols are those of the tree's lengths limited to `m`, in a code space of `bits` bits. */
  ghost predicate LimitedBook(count: seq<nat>, tree: seq<nat>, m: nat, ws: seq<nat>, bits: nat) {
    exists symbols: seq<nat>, freq: seq<nat>, c: seq<nat> :: LimitedAlong(count, symbols, freq, tree, m, c, ws, bits)
  }

  ghost predicate LimitedAlong(count: seq<nat>, symbols: seq<nat>, freq: seq<nat>, tree: seq<nat>, m: nat, c: seq<nat>, ws: seq<nat>, bits: nat) {
    && TreeAlong(count, symbols, freq, tree) && HuffmanLimit.LimitedTo(tree, freq, m, c) && LengthsKept(count, symbols, freq, c, ws, bits)
    && (forall s :: 0 <= s < |count| && count[s] == 0 ==> ws[s] == 0)
    && 0 < |freq| <= |tree| && bits == if tree[|freq| - 1] <= m then tree[|freq| - 1] else m
  }

  /** PBC_HUF_buildCTable_wksp up to the code lengths. If cutting the tree's code lengths costs less than 2^31, exactly
      the symbols that occur get codes, the codes fill a code space of `limit` bits, and unless the limit was reached no
      prefix code makes the text shorter. If it costs more, there is no result or the weights do not fill the table.
      A total below the Fibonacci number of the limit plus 26 excludes that. */
  method BuildCTable(count: seq<nat>, maxNbBits: nat) returns (weights: array<nat>, r: HuffmanLimit.Limited, ghost tree: seq<nat>)
    requires |count| <= 256 && Plain(count, |count|) < HuffmanTree.NOT_YET
    requires 1 <= maxNbBits <= TABLELOG_MAX && 2 <= Present(count) <= Pow2(maxNbBits)
    ensures fresh(weights) && weights.Length == |count| && |tree| == NODES && TreeOf(count, tree, Present(count))
    ensures r.Limit? && Weights(weights[..], r.bits) <==> HuffmanLimit.CutFits(tree, Present(count), maxNbBits)
    ensures Plain(count, |count|) < Fib(maxNbBits + 26) ==> r.Limit? && Weights(weights[..], r.bits)
    ensures tree[Present(count) - 1] <= maxNbBits ==> r == HuffmanLimit.Limit(tree[Present(count) - 1]) && Uncut(count, tree, weights[..], r.bits)
    ensures Plain(count, |count|) < Fib(maxNbBits + 2) ==> tree[Present(count) - 1] < maxNbBits
    ensures r.Limit? ==> r.bits <= maxNbBits && forall s :: 0 <= s < |count| ==> weights[s] <= r.bits && (weights[s] > 0 <==> count[s] > 0)
    ensures r.Limit? ==> LimitedBook(count, tree, maxNbBits, weights[..], r.bits)
    ensures r.Limit? ==> r.bits == if tree[Present(count) - 1] <= maxNbBits then tree[Present(count) - 1] else maxNbBits
    ensures r == HuffmanLimit.UndefinedShift <==> tree[Present(count) - 1] > maxNbBits + 30
    ensures r.Limit? && Weights(weights[..], r.bits) ==> CountOf(weights[..], 1) >= 2
    ensures r.Limit? && r.bits < maxNbBits ==> Shortest(count, BitsOfAll(weights[..], r.bits))
  {
    hide Plain, Pow2, Shortest, Cheapest, CountOf, WeightSum, HuffmanTree.Sum, Present, KraftSum, Permutation;
    hide HuffmanLimit.CutFits, HuffmanDepths, Fib, Weights, Ranking, Uncut, HuffmanLimit.LimitedTo;
    var symbols, freq := RankSymbols(count);
    var leaves := |freq|;
    RankingSizes(count, symbols, freq, leaves);
    var counts := new nat[NODES + 1](i => if 1 <= i <= |freq| then freq[i - 1] else 0);
    var parent, nbBits := new nat[NODES](_ => 0), new nat[NODES](_ => 0);
    SumIsPlain(counts[..], freq, leaves);
    assert counts[1..leaves + 1] == freq;
    ghost var gap;
    r, tree, gap := HuffmanLimit.LimitedLengths(counts, parent, nbBits, freq, maxNbBits);
    NotDeep(freq, Plain(count, |count|), tree, maxNbBits);
    assert TreeAlong(count, symbols, freq, tree);
    hide TreeAlong;
    if r == HuffmanLimit.UndefinedShift {
      weights := new nat[|count|](_ => 0);
      return;
    }
    weights := SymbolWeights(nbBits[..], symbols, leaves, r.bits, gap);
    ghost var ws: seq<nat>, lengths: seq<nat> := weights[..], nbBits[..];
    WeightsByRank(count, symbols, freq, leaves, ws, lengths, r.bits, gap);
    if tree[leaves - 1] <= maxNbBits { UncutWeights(count, symbols, freq, tree, ws, r.bits); }
    LimitedWeights(count, symbols, freq, tree, maxNbBits, lengths, ws, r.bits);
    if r.bits < maxNbBits {
      CheapestIsShortest(count, symbols, freq, leaves, BitsOfAll(ws, r.bits), lengths);
    }
  }

  /** A light tree is not deep. */
  lemma {:induction false} NotDeep(freq: seq<nat>, total: nat, tree: seq<nat>, m: nat)
    requires HuffmanDepths(freq, total, tree) && freq != [] && |freq| <= |tree| && forall i :: 0 <= i < |freq| ==> freq[i] >= 1
    ensures total < Fib(m + 2) ==> tree[|freq| - 1] < m
  {
    hide Fib, HuffmanDepths;
    DepthBound(freq, total, tree, |freq| - 1);
    if tree[|freq| - 1] >= m { FibMono(m + 2, tree[|freq| - 1] + 2); }
  }

  lemma {:induction false} UncutWeights(count: seq<nat>, symbols: seq<nat>, freq: seq<nat>, tree: seq<nat>, ws: seq<nat>, bits: nat)
    requires Ranking(count, symbols, freq, |freq|) && (forall i, j :: 0 <= i <= j < |freq| ==> freq[i] >= freq[j])
    requires HuffmanDepths(freq, Plain(count, |count|), tree) && |count| == |ws| && |freq| <= |tree|
    requires forall n :: 0 <= n < |freq| ==> tree[n] <= bits + 1 && ws[symbols[n]] == bits + 1 - tree[n]
    ensures Uncut(count, tree, ws, bits)
  {
    hide Plain, HuffmanDepths, Permutation;
    assert TreeAlong(count, symbols, freq, tree) && LengthsKept(count, symbols, freq, tree, ws, bits);
  }

  lemma {:induction false} LimitedWeights(count: seq<nat>, symbols: seq<nat>, freq: seq<nat>, tree: seq<nat>, m: nat, lengths: seq<nat>,
                                          ws: seq<nat>, bits: nat)
    requires TreeAlong(count, symbols, freq, tree) && |count| == |ws| && |freq| <= |lengths|
    requires HuffmanLimit.LimitedTo(tree, freq, m, lengths[..|freq|])
    requires 0 < |freq| <= |tree| && bits == if tree[|freq| - 1] <= m then tree[|freq| - 1] else m
    requires forall n :: 0 <= n < |freq| ==> lengths[n] <= bits + 1 && ws[symbols[n]] == bits + 1 - lengths[n]
    requires forall s :: 0 <= s < |count| ==> (ws[s] > 0 <==> count[s] > 0)
    ensures LimitedBook(count, tree, m, ws, bits)
  {
    hide Plain, HuffmanDepths, Permutation, HuffmanLimit.LimitedTo, InOrder;
    assert LimitedAlong(count, symbols, freq, tree, m, lengths[..|freq|], ws, bits);
  }

  lemma {:induction false} RankingSizes(count: seq<nat>, symbols: seq<nat>, freq: seq<nat>, leaves: nat)
    requires Ranking(count, symbols, freq, leaves)
    ensures |symbols| == |count| && leaves == |freq| <= |count| && Permutation(symbols) && forall n :: 0 <= n < |symbols| ==> symbols[n] < |symbols|
    ensures forall i :: 0 <= i < leaves ==> freq[i] >= 1
  {}

  /** The number of ranks whose symbols occur. */
  method LastPresent(huffNode: array<Node>, ghost count: seq<nat>) returns (leaves: nat)
    requires huffNode.Length == |count| && Ranked(huffNode[..], count)
    ensures leaves <= |count| && (leaves > 0 ==> huffNode[leaves - 1].count > 0)
    ensures forall k :: leaves <= k < |count| ==> huffNode[k].count == 0
  {
    leaves := huffNode.Length;
    while leaves > 0 && huffNode[leaves - 1].count == 0
      invariant leaves <= |count| && forall k :: leaves <= k < |count| ==> huffNode[k].count == 0
    {
      leaves := leaves - 1;
    }
  }

  lemma {:induction false} RankedFalls(h: seq<Node>, count: seq<nat>, leaves: nat)
    requires Ranked(h, count) && leaves <= |count| <= |h|
    ensures forall i, j :: 0 <= i <= j < leaves ==> CountsOf(h, leaves)[i] >= CountsOf(h, leaves)[j]
  {}

  /** Weights and lengths by symbol. */
  lemma {:induction false} WeightsByRank(count: seq<nat>, symbols: seq<nat>, freq: seq<nat>, leaves: nat, ws: seq<nat>, nbBits: seq<nat>, limit: nat,
                                         gap: nat)
    requires Ranking(count, symbols, freq, leaves) && |ws| == |count| && HuffmanLimit.Overdrawn(nbBits, leaves, limit, gap)
    requires forall n :: 0 <= n < |symbols| ==> ws[symbols[n]] == if n < leaves then limit + 1 - nbBits[n] else 0
    ensures forall s :: 0 <= s < |count| ==> ws[s] <= limit && (ws[s] > 0 <==> count[s] > 0)
    ensures forall i :: 0 <= i < leaves ==> nbBits[i] == BitsOf(ws[symbols[i]], limit)
  {
    hide KraftSum;
    forall s | 0 <= s < |count| ensures ws[s] <= limit && (ws[s] > 0 <==> count[s] > 0) {
      var i := InjectiveOnto(symbols, s);
    }
  }
}
