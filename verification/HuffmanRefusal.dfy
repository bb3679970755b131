/** A text whose description the decoder refuses: 13 symbols that occur as often as the Fibonacci numbers say. */
module HuffmanRefusal {
  import opened Bytes
  import opened Counting
  import opened FseTables
  import opened HuffmanDepth
  import opened HuffmanBuild
  import opened HuffmanText
  import HuffmanLimit
  import HuffmanShape

  // ---------------------------------------------------------------- a text with given counts

  /** Each symbol as often as its count says. */
  function TextOf(counts: seq<nat>): Word
    requires |counts| <= 256
  {
    if counts == [] then [] else var n := |counts| - 1; TextOf(counts[..n]) + seq(counts[n], _ => n)
  }

  lemma {:induction false} CountRun(k: nat, x: Byte, s: nat)
    ensures Count(seq(k, _ => x), s) == if x == s then k else 0
  {
    if k > 0 {
      CountRun(k - 1, x, s);
      assert seq(k, _ => x)[..k - 1] == seq(k - 1, _ => x);
    }
  }

  lemma {:induction false} CountBoth(a: Word, b: Word, s: nat)
    ensures Count(a + b, s) == Count(a, s) + Count(b, s)
  {
    if b == [] {
      assert a + b == a;
    } else {
      CountBoth(a, b[..|b| - 1], s);
      assert (a + b)[..|a + b| - 1] == a + b[..|b| - 1];
    }
  }

  lemma {:induction false} CountInText(counts: seq<nat>, s: nat)
    requires |counts| <= 256
    ensures Count(TextOf(counts), s) == if s < |counts| then counts[s] else 0
    ensures |TextOf(counts)| == Plain(counts, |counts|)
  {
    hide Count;
    if counts == [] {
      assert TextOf(counts) == seq(0, _ => 0);
      CountRun(0, 0, s);
    } else {
      var n := |counts| - 1;
      var front, run := TextOf(counts[..n]), seq(counts[n], _ => n);
      CountInText(counts[..n], s);
      CountRun(counts[n], n, s);
      CountBoth(front, run, s);
      PlainSame(counts, counts[..n], n);
    }
  }

  // ---------------------------------------------------------------- ranking what is sorted

  /** Among `i + 1` different numbers one is at least `i`. */
  lemma {:induction false} OneBehind(f: seq<nat>, i: nat) returns (j: nat)
    requires i < |f| && forall i, j :: 0 <= i < j < |f| ==> f[i] != f[j]
    ensures j <= i && f[j] >= i
  {
    if forall j :: 0 <= j <= i ==> f[j] < i {
      ImageSize(f, i + 1);
      RangeSize(i);
      forall q | q in Image(f, i + 1) ensures q in Range(i) { ImageMember(f, i + 1, q); }
      SubsetSize(Image(f, i + 1), Range(i));
      assert false;
    }
    j :| 0 <= j <= i && f[j] >= i;
  }

  /** Counts that fall are ranked as they stand. */
  lemma {:induction false} RankedInPlace(count: seq<nat>, symbols: seq<nat>, freq: seq<nat>)
    requires Ranking(count, symbols, freq, |count|) && |freq| == |count|
    requires (forall i, j :: 0 <= i <= j < |freq| ==> freq[i] >= freq[j]) && forall i, j :: 0 <= i <= j < |count| ==> count[i] >= count[j]
    ensures freq == count
  {
    hide Plain;
    forall i | 0 <= i < |count| ensures freq[i] <= count[i] {
      var j := OneBehind(symbols, i);
      assert freq[i] <= freq[j] == count[symbols[j]] <= count[i];
    }
    PermutedSum(count, symbols);
    assert Permuted(count, symbols) == freq;
    SumsEqual(freq, count, |count|);
  }

  lemma {:induction false} PlainAtMost(f: seq<nat>, g: seq<nat>, n: nat)
    requires n <= |f| && n <= |g| && forall i :: 0 <= i < n ==> f[i] <= g[i]
    ensures Plain(f, n) <= Plain(g, n)
  {
    if n > 0 { PlainAtMost(f, g, n - 1); }
  }

  lemma {:induction false} SumsEqual(f: seq<nat>, g: seq<nat>, n: nat)
    requires n <= |f| && n <= |g| && (forall i :: 0 <= i < n ==> f[i] <= g[i]) && Plain(f, n) == Plain(g, n)
    ensures forall i :: 0 <= i < n ==> f[i] == g[i]
  {
    if n > 0 {
      PlainAtMost(f, g, n - 1);
      SumsEqual(f, g, n - 1);
    }
  }

  // ---------------------------------------------------------------- the text

  lemma {:induction false} FibonacciPlain(f: seq<nat>, n: nat, k: nat)
    requires FibonacciWeights(f, n) && k <= n
    ensures Plain(f, k) + Fib(n + 2 - k) == Fib(n + 2)
  {
    hide Fib;
    if k > 0 {
      FibonacciPlain(f, n, k - 1);
      FibNext(n + 1 - k);
    }
  }

  lemma {:induction false} SmallFibs()
    ensures Fib(1) == Fib(2) == 1 && Fib(12) == 144 && Fib(13) == 233 && Fib(15) == 610 && Fib(16) == 987
  {
    assert Fib(5) == 5 && Fib(6) == 8;
    assert Fib(8) == 21 && Fib(9) == 34;
    assert Fib(11) == 89;
  }

  /** What there is in the text. */
  ghost predicate FibonacciText(src: Word, f: seq<nat>) {
    && |src| == 609 && |f| == 13 && FibonacciWeights(f, 13) && Alphabet(src) == 13
    && forall s :: 0 <= s < 256 ==> Count(src, s) == if s < 13 then f[s] else 0
  }

  lemma {:induction false} TextOfFibonaccis(f: seq<nat>)
    requires |f| == 13 && FibonacciWeights(f, 13)
    ensures FibonacciText(TextOf(f), f)
  {
    hide Fib, Plain, Count;
    var src := TextOf(f);
    forall s | 0 <= s < 256 ensures Count(src, s) == if s < 13 then f[s] else 0 { CountInText(f, s); }
    CountInText(f, 0);
    SmallFibs();
    FibonacciPlain(f, 13, 13);
    var q := Presence(CountsIn(src));
    forall s | 0 <= s < 13 ensures q[s] == 1 { FibPositive(13 - s); }
    PlainOnes(q, 13);
    PlainZeros(q, 13, 256);
  }

  /** The ranks of the 13 symbols. */
  lemma {:induction false} FibonacciRanks(f: seq<nat>, symbols: seq<nat>, freq: seq<nat>)
    requires |f| == 13 && FibonacciWeights(f, 13) && Ranking(f, symbols, freq, |freq|) && |freq| == 13
    requires forall i, j :: 0 <= i <= j < |freq| ==> freq[i] >= freq[j]
    ensures freq == f && |symbols| == 13 && symbols[0] == 0
  {
    FibonaccisFall(f);
    RankedInPlace(f, symbols, freq);
    FirstIsLargest(f, symbols, freq);
  }

  lemma {:induction false} FibonaccisFall(f: seq<nat>)
    requires |f| == 13 && FibonacciWeights(f, 13)
    ensures forall i, j :: 0 <= i <= j < |f| ==> f[i] >= f[j]
  {
    hide Fib;
    forall i, j | 0 <= i <= j < 13 ensures f[i] >= f[j] { FibMono(13 - j, 13 - i); }
  }

  lemma {:induction false} FirstIsLargest(f: seq<nat>, symbols: seq<nat>, freq: seq<nat>)
    requires |f| == 13 && FibonacciWeights(f, 13) && Ranking(f, symbols, freq, |freq|) && freq == f
    ensures |symbols| == 13 && symbols[0] == 0
  {
    hide Fib;
    SmallFibs();
    var k := symbols[0];
    assert f[k] == freq[0] == f[0] == 233;
  }

  /** The tree is a chain of twelve. */
  lemma {:induction false} ChainOfTwelve(f: seq<nat>, tree: seq<nat>)
    requires |f| == 13 && FibonacciWeights(f, 13) && TreeOf(f, tree, 13)
    ensures |tree| == HuffmanShape.NODES && tree[0] == 1 && tree[12] == 12
  {
    hide Fib, Plain, HuffmanDepths, Ranking, FibonacciWeights;
    var symbols: seq<nat>, freq: seq<nat> :| |freq| == 13 && TreeAlong(f, symbols, freq, tree);
    RankingSizes(f, symbols, freq, 13);
    FibonacciRanks(f, symbols, freq);
    FibonacciLengths(freq, Plain(f, |f|), tree);
  }

  /** The first symbol, which is the most frequent one, gets the length of the first leaf. */
  lemma {:induction false} FirstWeight(f: seq<nat>, tree: seq<nat>, ws: seq<nat>, limit: nat)
    requires |f| == 13 && FibonacciWeights(f, 13) && Uncut(f, tree, ws, limit)
    ensures |ws| == 13 && tree != [] && ws[0] + tree[0] == limit + 1
  {
    hide Fib, Plain, HuffmanDepths, Ranking, FibonacciWeights;
    var symbols: seq<nat>, freq: seq<nat> :| TreeAlong(f, symbols, freq, tree) && LengthsKept(f, symbols, freq, tree, ws, limit);
    RankingSizes(f, symbols, freq, |freq|);
    AllRanked(f, symbols, freq);
    FibonacciRanks(f, symbols, freq);
  }

  /** So the weights begin with twelve. */
  lemma {:induction false} BeginsWithTwelve(src: Word, f: seq<nat>, weights: seq<nat>, limit: nat, tree: seq<nat>)
    requires FibonacciText(src, f) && BookSays(src, 12, weights, limit, tree)
    ensures |weights| == 13 && weights[0] == 12
  {
    hide Fib, Count, Alphabet, TreeOf, Uncut;
    forall s | 0 <= s < 13 ensures Count(src, s) > 0 { FibPositive(13 - s); }
    var largest, last := Count(src, 12), Count(src, |weights| - 1);
    assert |weights| == 13;
    assert CountsIn(src)[..13] == f;
    ChainOfTwelve(f, tree);
    FirstWeight(f, tree, weights, limit);
  }

  /** If all symbols occur, all are ranked. */
  lemma {:induction false} AllRanked(f: seq<nat>, symbols: seq<nat>, freq: seq<nat>)
    requires |f| == 13 && FibonacciWeights(f, 13) && Ranking(f, symbols, freq, |freq|)
    ensures |freq| == 13
  {
    hide Fib;
    if |freq| < 13 { FibPositive(13 - symbols[|freq|]); }
  }

  /** A text of 609 bytes is refused with the limit of twelve bits, though every part of its description is right. */
  method RefusedText(buffer: array<Byte>, dst: array<Byte>) returns (src: Word, outcome: Outcome)
    requires buffer != dst && 609 <= dst.Length
    modifies buffer, dst
    ensures |src| == 609 && outcome == Refused
  {
    hide Fib, Count, TextOf, Alphabet, BookSays, Description, HuffmanLimit.CutFits;
    var f := HuffmanLimit.Fibonaccis(13);
    src := TextOf(f);
    TextOfFibonaccis(f);
    SmallFibs();
    FibMono(16, 38);
    HuffmanLimit.TwelveBits();
    forall s | 0 <= s < 256 ensures Count(src, s) != 609 { if s < 13 { FibMono(13 - s, 13); } }
    var ok, weights, limit;
    ghost var tree;
    outcome, ok, weights, limit, tree := RoundTripText(src, 12, buffer, dst);
    BeginsWithTwelve(src, f, weights, limit, tree);
  }
}
