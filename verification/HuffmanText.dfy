/** A whole text through the Huffman coder: its statistics, the code book they give, the stream, and back with the
    table that is read from the weights. */
module HuffmanText {
  import opened Powers
  import opened Bytes
  import opened FseTables
  import opened FseNormalize
  import opened HuffmanDepth
  import opened HuffmanTable
  import opened HuffmanReaders
  import opened Statistics
  import HuffmanBook
  import HuffmanBuild
  import HuffmanCodec
  import HuffmanLimit
  import HuffmanShape
  import HuffmanTree

  const TEXT_LIMIT: nat := HuffmanTree.NOT_YET

  lemma {:induction false} PlainIsSum(f: seq<nat>, n: nat)
    requires n <= |f|
    ensures HuffmanBuild.Plain(f, n) == Sum(f[..n])
  {
    if n > 0 {
      PlainIsSum(f, n - 1);
      assert f[..n][..n - 1] == f[..n - 1];
    }
  }

  /** How often each of the 256 symbols occurs. */
  ghost function CountsIn(src: Word): (count: seq<nat>)
    ensures |count| == 256 && forall s :: 0 <= s < 256 ==> count[s] == Count(src, s)
  {
    seq(256, s requires 0 <= s < 256 => Count(src, s))
  }

  /** The number of different symbols. */
  ghost function Alphabet(src: Word): nat { HuffmanBuild.Present(CountsIn(src)) }

  /** Symbols behind the last one that occurs add nothing. */
  lemma {:induction false} Trimmed(count: seq<nat>, m: nat)
    requires m <= |count| && forall s :: m <= s < |count| ==> count[s] == 0
    ensures HuffmanBuild.Plain(count[..m], m) == Sum(count) && HuffmanBuild.Present(count[..m]) == HuffmanBuild.Present(count)
  {
    hide Sum, HuffmanBuild.Plain;
    PlainIsSum(count[..m], m);
    assert count[..m][..m] == count[..m];
    SumZeros(count, m);
    var all, part := HuffmanBuild.Presence(count), HuffmanBuild.Presence(count[..m]);
    HuffmanBuild.PlainZeros(all, m, |count|);
    HuffmanBuild.PlainSame(all, part, m);
  }

  /** Not a single symbol only. */
  lemma {:induction false} TwoSymbols(src: Word, count: seq<nat>, m: nat)
    requires |count| == 256 && IsHistogram(count, src) && m <= 256 && src != [] && forall s :: 0 <= s < 256 ==> count[s] != |src|
    ensures HuffmanBuild.Present(count) >= 2
  {
    hide Sum, HuffmanBuild.Plain, Count;
    HistogramTotal(count, src);
    var q := HuffmanBuild.Presence(count);
    if forall s :: 0 <= s < 256 ==> count[s] == 0 { SumZeros(count, 0); SumNothing(count[..0]); }
    var s :| 0 <= s < 256 && count[s] > 0;
    if forall t :: 0 <= t < 256 && t != s ==> count[t] == 0 { SumOnly(count, s); }
    var t :| 0 <= t < 256 && t != s && count[t] > 0;
    HuffmanBuild.PlainUpdate(q, 256, s, 0);
    HuffmanBuild.PlainUpdate(q[s := 0], 256, t, 0);
  }

  /** Weights that fill a table, the last one of a symbol that occurs. */
  ghost predicate Description(ws: seq<nat>, limit: nat) {
    0 < |ws| <= 256 && Weights(ws, limit) && CountOf(ws, 1) >= 2 && ws[|ws| - 1] > 0
  }

  /** A symbol in front of the last one has a code of one bit in a code space of twelve. */
  predicate OneBitInTwelve(ws: seq<nat>) { exists i :: 0 <= i < |ws| - 1 && ws[i] == TABLELOG_MAX }

  /** Such a description is refused, and no other. */
  lemma {:induction false} SentUnlessOneBit(ws: seq<nat>, limit: nat)
    requires Description(ws, limit)
    ensures Sent(ws[..|ws| - 1], ws[|ws| - 1], limit) <==> !OneBitInTwelve(ws)
    ensures OneBitInTwelve(ws) ==> limit == TABLELOG_MAX
  {
    hide WeightSum, CountOf, Pow2;
    HuffmanBook.BookCanBeSent(ws, limit);
  }

  /** The decoder's side: the weights without the last one are completed and give the table. */
  method ReadTable(sent: seq<nat>, ghost last: nat, ghost tableLog: nat) returns (ok: bool, dtByte: array<nat>, dtBits: array<nat>, log: nat)
    requires Description(sent + [last], tableLog)
    ensures fresh(dtByte) && fresh(dtBits) && (ok <==> Sent(sent, last, tableLog))
    ensures ok ==> log == tableLog && Laid(dtByte[..], dtBits[..], sent + [last], tableLog, |sent| + 1)
  {
    hide Laid, Weights, Counts, Pow2, CountOf;
    var weights := new nat[|sent| + 1](i => if 0 <= i < |sent| then sent[i] else 0);
    var rankStats := new nat[RANKS];
    assert weights[..|sent|] == sent;
    ok, log := ReadStats(weights, |sent|, rankStats);
    if !ok {
      dtByte, dtBits := new nat[0], new nat[0];
      return;
    }
    assert Sent(weights[..|sent|], last, tableLog);
    assert weights[..|sent| + 1] == sent + [last];
    SentWeights(sent, last, tableLog);
    dtByte, dtBits := new nat[Pow2(log)], new nat[Pow2(log)];
    FillTable(dtByte, dtBits, rankStats, weights, |sent| + 1, log);
  }

  lemma {:induction false} SentWeights(sent: seq<nat>, last: nat, tableLog: nat)
    requires Sent(sent, last, tableLog)
    ensures Weights(sent + [last], tableLog)
  {}

  datatype Outcome = Size(size: nat) | OneSymbol | Broken | Refused

  /** What the tree builder says of a text with these counts. */
  ghost predicate BookSays(src: Word, maxNbBits: nat, weights: seq<nat>, limit: nat, tree: seq<nat>) {
    && |tree| == HuffmanShape.NODES && 2 <= Alphabet(src) <= 256 && 0 < |weights| <= 256
    && Count(src, |weights| - 1) > 0 && (forall s :: |weights| <= s < 256 ==> Count(src, s) == 0)
    && HuffmanBuild.TreeOf(CountsIn(src)[..|weights|], tree, Alphabet(src))
    && (|src| < Fib(maxNbBits + 2) ==> tree[Alphabet(src) - 1] < maxNbBits)
    && (tree[Alphabet(src) - 1] <= maxNbBits ==>
          limit == tree[Alphabet(src) - 1] && HuffmanBuild.Uncut(CountsIn(src)[..|weights|], tree, weights, limit))
    && HuffmanBuild.LimitedBook(CountsIn(src)[..|weights|], tree, maxNbBits, weights, limit)
  }

  /** The code book of a text. */
  method BookOf(src: Word, maxNbBits: nat) returns (outcome: Outcome, weights: seq<nat>, limit: nat, ghost tree: seq<nat>)
    requires 1 < |src| < TEXT_LIMIT && 1 <= maxNbBits <= TABLELOG_MAX && Alphabet(src) <= Pow2(maxNbBits)
    ensures outcome != Refused && (outcome == OneSymbol <==> exists s :: 0 <= s < 256 && Count(src, s) == |src|)
    ensures outcome != OneSymbol ==> |tree| == HuffmanShape.NODES && 2 <= Alphabet(src) <= 256
    ensures outcome != OneSymbol ==> (outcome == Broken <==> !HuffmanLimit.CutFits(tree, Alphabet(src), maxNbBits))
    ensures |src| < Fib(maxNbBits + 26) ==> outcome != Broken
    ensures outcome.Size? ==> Description(weights, limit) && limit <= maxNbBits && HuffmanCodec.Codable(src, weights)
    ensures outcome.Size? ==> BookSays(src, maxNbBits, weights, limit, tree)
  {
    hide Count, Sum, HuffmanBuild.Plain, HuffmanBuild.Present, HuffmanLimit.CutFits, Fib, Pow2, Weights, Sent;
    hide HuffmanBuild.TreeOf, HuffmanBuild.Shortest, HuffmanBuild.Uncut, HuffmanBuild.LimitedBook, CountOf;
    weights, limit, tree := [], 0, [];
    var count, maxSymbol, largest := Histogram(src);
    ghost var all: seq<nat> := count[..];
    assert all == CountsIn(src);
    HistogramTotal(all, src);
    OneSymbolOnly(src, all, largest);
    if largest == |src| { return OneSymbol, weights, limit, tree; }
    TwoSymbols(src, all, maxSymbol);
    Trimmed(all, maxSymbol + 1);
    assert count[..maxSymbol + 1] == all[..maxSymbol + 1];
    AlphabetSize(all);
    var ws, r;
    ws, r, tree := HuffmanBuild.BuildCTable(count[..maxSymbol + 1], maxNbBits);
    if r == HuffmanLimit.UndefinedShift { return Broken, weights, limit, tree; }
    var fills := FillsTable(ws[..], r.bits);
    if !fills { return Broken, weights, limit, tree; }
    weights, limit := ws[..], r.bits;
    OccurringCodable(src, all, weights, maxSymbol);
    outcome := Size(0);
  }

  lemma {:induction false} OneSymbolOnly(src: Word, count: seq<nat>, largest: nat)
    requires |count| == 256 && IsHistogram(count, src) && Sum(count) == |src| > 1
    requires (forall s :: 0 <= s < 256 ==> count[s] <= largest) && exists s :: 0 <= s < 256 && count[s] == largest
    ensures largest == |src| <==> exists s :: 0 <= s < 256 && Count(src, s) == |src|
    ensures largest != |src| ==> forall s :: 0 <= s < 256 ==> count[s] != |src|
  {
    hide Count, Sum;
    var top :| 0 <= top < 256 && count[top] == largest;
    SumEntry(count, top);
    assert Count(src, top) == largest;
  }

  lemma {:induction false} AlphabetSize(count: seq<nat>)
    ensures HuffmanBuild.Present(count) <= |count|
  {
    PresenceAtMost(HuffmanBuild.Presence(count), |count|);
  }

  lemma {:induction false} PresenceAtMost(f: seq<nat>, n: nat)
    requires n <= |f| && forall i :: 0 <= i < n ==> f[i] <= 1
    ensures HuffmanBuild.Plain(f, n) <= n
  {
    if n > 0 { PresenceAtMost(f, n - 1); }
  }

  /** Whether the weights fill the table. The code does not ask; here a book that is none is not followed further. */
  method FillsTable(ws: seq<nat>, limit: nat) returns (fills: bool)
    requires 1 <= limit <= TABLELOG_MAX && |ws| <= 256 && forall i :: 0 <= i < |ws| ==> ws[i] <= limit
    ensures fills <==> Weights(ws, limit)
  {
    hide Half, Pow2;
    var total: nat := 0;
    var n: nat := 0;
    assert ws[..0] == [];
    while n < |ws|
      invariant n <= |ws| && total == WeightSum(ws[..n])
    {
      assert ws[..n + 1][..n] == ws[..n];
      total := total + Half(ws[n]);
      n := n + 1;
    }
    assert ws[..n] == ws;
    fills := total == Pow2(limit);
  }

  lemma {:induction false} OccurringCodable(src: Word, count: seq<nat>, weights: seq<nat>, maxSymbol: nat)
    requires |count| == 256 && IsHistogram(count, src) && |weights| == maxSymbol + 1 <= 256 && forall s :: maxSymbol < s < 256 ==> count[s] == 0
    requires forall s :: 0 <= s <= maxSymbol ==> (weights[s] > 0 <==> count[s] > 0)
    ensures HuffmanCodec.Codable(src, weights)
  {
    hide Count;
    assert src[..|src|] == src;
    forall k | 0 <= k < |src| ensures src[k] < |weights| && weights[src[k]] > 0 { Occurs(src, |src|, k); }
  }

  /** A code of twelve bits takes a text of 377 bytes. */
  lemma {:induction false} ShortTextNotRefused(src: Word, maxNbBits: nat, weights: seq<nat>, limit: nat, tree: seq<nat>)
    requires BookSays(src, maxNbBits, weights, limit, tree) && Description(weights, limit)
    requires maxNbBits <= TABLELOG_MAX && limit <= maxNbBits
    ensures maxNbBits < TABLELOG_MAX || |src| < 377 ==> !OneBitInTwelve(weights)
  {
    hide Fib, HuffmanBuild.Uncut, HuffmanBuild.LimitedBook, HuffmanBuild.TreeOf, WeightSum, CountOf, Pow2, Alphabet, CountsIn, Count;
    FourteenthFib();
    SentUnlessOneBit(weights, limit);
  }

  lemma {:induction false} FourteenthFib()
    ensures Fib(14) == 377
  {
    assert Fib(5) == 5 && Fib(6) == 8;
    assert Fib(8) == 21 && Fib(9) == 34;
    assert Fib(11) == 89 && Fib(12) == 144;
  }

  /** From a text to the same text: whenever the cut of its tree does not wrap around, the description is not refused and the
      stream fits, the decoder, which is given the weights but the last and the size, restores the text. The description is
      refused if and only if the limit is twelve and a symbol in front of the last one has a code of one bit. */
  method RoundTripText(src: Word, maxNbBits: nat, buffer: array<Byte>, dst: array<Byte>)
    returns (outcome: Outcome, ok: bool, weights: seq<nat>, limit: nat, ghost tree: seq<nat>)
    requires 1 < |src| < TEXT_LIMIT && 1 <= maxNbBits <= TABLELOG_MAX && Alphabet(src) <= Pow2(maxNbBits)
    requires buffer != dst && |src| <= dst.Length
    modifies buffer, dst
    ensures outcome == OneSymbol <==> exists s :: 0 <= s < 256 && Count(src, s) == |src|
    ensures outcome != OneSymbol ==> |tree| == HuffmanShape.NODES && 2 <= Alphabet(src) <= 256
    ensures outcome != OneSymbol ==> (outcome == Broken <==> !HuffmanLimit.CutFits(tree, Alphabet(src), maxNbBits))
    ensures |src| < Fib(maxNbBits + 26) ==> outcome != Broken
    ensures outcome == Refused || outcome.Size? ==>
      && Description(weights, limit) && limit <= maxNbBits && BookSays(src, maxNbBits, weights, limit, tree)
      && (outcome == Refused <==> OneBitInTwelve(weights))
    ensures maxNbBits < TABLELOG_MAX || |src| < 377 ==> outcome != Refused
    ensures outcome.Size? && outcome.size != 0 ==> ok && dst[..|src|] == src
    ensures outcome.Size? && 2 * |src| + 16 <= buffer.Length ==> outcome.size != 0
  {
    hide Count, HuffmanLimit.CutFits, Fib, Pow2, Weights, Sent, Laid, Coded, HuffmanCodec.Codable, Alphabet, BookSays, CountOf, OneBitInTwelve;
    ok := false;
    outcome, weights, limit, tree := BookOf(src, maxNbBits);
    if !outcome.Size? { return; }
    ShortTextNotRefused(src, maxNbBits, weights, limit, tree);
    SentUnlessOneBit(weights, limit);
    var n := |weights| - 1;
    assert weights[..n] + [weights[n]] == weights;
    var read, dtByte, dtBits, log := ReadTable(weights[..n], weights[n], limit);
    if !read {
      outcome := Refused;
      return;
    }
    var nbBits, val := new nat[|weights|], new nat[|weights|];
    ReadCodes(nbBits, val, weights, limit);
    var book := HuffmanCodec.Book(limit, nbBits[..], val[..], dtByte[..], dtBits[..]);
    var size;
    size, ok := HuffmanCodec.RoundTrip(buffer, dst, src, book, weights);
    outcome := Size(size);
  }
}
