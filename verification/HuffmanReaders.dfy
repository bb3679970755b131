/** Reading a Huffman table description: the weights with the implied last one, the encoder's codes and
    the decoder's table. */
module HuffmanReaders {
  import opened Powers
  import opened HuffmanTable

  const RANKS: nat := 13

  // ---------------------------------------------------------------- readStats

  /** `ws` are the stored weights of a description whose last weight `last` is left out. */
  ghost predicate Sent(ws: seq<nat>, last: nat, tableLog: nat) {
    && (forall i :: 0 <= i < |ws| ==> ws[i] < TABLELOG_MAX)
    && 1 <= last && Weights(ws + [last], tableLog) && CountOf(ws + [last], 1) >= 2
  }

  ghost predicate Counts(rankStats: seq<nat>, ws: seq<nat>) {
    |rankStats| == RANKS && forall w :: 0 <= w < RANKS ==> rankStats[w] == CountOf(ws, w)
  }

  lemma {:induction false} CountsAppended(rankStats: seq<nat>, ws: seq<nat>, x: nat)
    requires Counts(rankStats, ws) && x < RANKS
    ensures Counts(rankStats[x := rankStats[x] + 1], ws + [x])
  {
    hide CountOf;
    forall w | 0 <= w < RANKS ensures CountOf(ws + [x], w) == CountOf(ws, w) + if x == w then 1 else 0 {
      Appended(ws, x, w);
    }
  }

  /** A weight takes no more than all of them. */
  lemma {:induction false} WeightsBounded(ws: seq<nat>, i: nat)
    requires i < |ws|
    ensures Half(ws[i]) <= WeightSum(ws)
  {
    if i < |ws| - 1 { WeightsBounded(ws[..|ws| - 1], i); }
  }

  lemma {:induction false} HalfBelow(w: nat, tableLog: nat)
    requires Half(w) < Pow2(tableLog) && tableLog >= 1
    ensures w <= tableLog
  {
    if w > tableLog { Pow2Mono(tableLog, w - 1); }
  }

  /** What is missing to the next power of two gives the last weight. */
  lemma {:induction false} LastWeight(ws: seq<nat>, total: nat, tableLog: nat, last: nat)
    requires total == WeightSum(ws) > 0 && tableLog == HighBit(total) + 1 <= TABLELOG_MAX && |ws| < 256
    requires last >= 1 && Pow2(tableLog) - total == Pow2(last - 1)
    ensures Weights(ws + [last], tableLog) && last <= tableLog
  {
    hide Pow2, HighBit, WeightSum;
    Appended(ws, last, 0);
    forall i | 0 <= i < |ws| ensures ws[i] <= tableLog {
      WeightsBounded(ws, i);
      HalfBelow(ws[i], tableLog);
    }
    HalfBelow(last, tableLog);
  }

  /** Conversely the sum of the stored weights determines the table's width and the last weight. */
  lemma {:induction false} SentDetermines(ws: seq<nat>, last: nat, tableLog: nat)
    requires Sent(ws, last, tableLog)
    ensures
      var total := WeightSum(ws);
      && total > 0 && tableLog == HighBit(total) + 1
      && Pow2(tableLog) - total == Pow2(last - 1) && HighBit(Pow2(tableLog) - total) == last - 1
      && CountOf(ws + [last], 1) % 2 == 0
  {
    hide Pow2, HighBit, WeightSum, CountOf;
    Appended(ws, last, 0);
    assert (ws + [last])[|ws|] == last;
    TwicePow2(tableLog - 1);
    Pow2Mono(last - 1, tableLog - 1);
    TwicePow2(last - 1);
    HighBitUnique(WeightSum(ws), tableLog - 1);
    HighBitUnique(Pow2(last - 1), last - 1);
    ShortestEven(ws + [last], tableLog);
  }

  /** Codes of full length come in pairs. */
  lemma {:induction false} ShortestEven(ws: seq<nat>, tableLog: nat)
    requires Weights(ws, tableLog)
    ensures CountOf(ws, 1) % 2 == 0
  {
    var q := StartAligned(ws, tableLog, 2);
    TwiceByShift(q);
    assert StartOf(ws, 2) == CountOf(ws, 1) by { StartStep(ws, 1); assert StartOf(ws, 1) == 0; }
  }

  /** PBC_HUF_readStats, on decoded weights: accepts exactly what is a description without its last
      weight, and restores that weight and the table's width. */
  method ReadStats(weights: array<nat>, size: nat, rankStats: array<nat>) returns (ok: bool, tableLog: nat)
    requires weights != rankStats && size < weights.Length <= 256 && rankStats.Length == RANKS
    modifies weights, rankStats
    ensures weights[..size] == old(weights[..size])
    ensures ok ==> Sent(weights[..size], weights[size], tableLog) && Counts(rankStats[..], weights[..size + 1])
    ensures forall last: nat, log: nat :: Sent(weights[..size], last, log) ==> ok && weights[size] == last && tableLog == log
  {
    hide Pow2, HighBit, WeightSum, CountOf, Weights, Half, Counts;
    ghost var ws: seq<nat> := weights[..size];
    tableLog := 0;
    forall w | 0 <= w < RANKS { rankStats[w] := 0; }
    assert weights[..size] == ws;
    NoCounts(rankStats[..]);
    assert ws[..0] == [];
    var total := 0;
    var n: nat := 0;
    while n < size
      invariant n <= size && weights[..size] == ws && total == WeightSum(ws[..n]) && Counts(rankStats[..], ws[..n])
      invariant forall i :: 0 <= i < n ==> ws[i] < TABLELOG_MAX
      modifies rankStats
    {
      assert weights[n] == ws[n];
      if weights[n] >= TABLELOG_MAX {
        return false, 0;
      }
      ghost var ranks: seq<nat> := rankStats[..];
      assert ws[..n + 1] == ws[..n] + [ws[n]];
      Appended(ws[..n], ws[n], 0);
      CountsAppended(ranks, ws[..n], ws[n]);
      rankStats[weights[n]] := rankStats[weights[n]] + 1;
      assert rankStats[..] == ranks[ws[n] := (ranks[ws[n]] + 1) as nat];
      total := total + Half(weights[n]);
      n := n + 1;
    }
    assert ws[..size] == ws;
    ok, tableLog := ImplyLast(weights, size, rankStats, total);
  }

  lemma {:induction false} NoCounts(rankStats: seq<nat>)
    requires |rankStats| == RANKS && forall w :: 0 <= w < RANKS ==> rankStats[w] == 0
    ensures Counts(rankStats, []) && WeightSum([]) == 0
  {}

  /** The second half of readStats. */
  method ImplyLast(weights: array<nat>, size: nat, rankStats: array<nat>, total: nat) returns (ok: bool, tableLog: nat)
    requires weights != rankStats && size < weights.Length <= 256 && rankStats.Length == RANKS
    requires total == WeightSum(weights[..size]) && Counts(rankStats[..], weights[..size])
    requires forall i :: 0 <= i < size ==> weights[i] < TABLELOG_MAX
    modifies weights, rankStats
    ensures weights[..size] == old(weights[..size])
    ensures ok ==> Sent(weights[..size], weights[size], tableLog) && Counts(rankStats[..], weights[..size + 1])
    ensures forall last: nat, log: nat :: Sent(weights[..size], last, log) ==> ok && weights[size] == last && tableLog == log
  {
    hide Pow2, HighBit, WeightSum, CountOf, Half;
    ghost var ws: seq<nat> := weights[..size];
    forall last: nat, log: nat | Sent(ws, last, log)
      ensures total > 0 && log == HighBit(total) + 1 <= TABLELOG_MAX && Pow2(log) - total == Pow2(last - 1)
      ensures HighBit(Pow2(log) - total) == last - 1 && CountOf(ws + [last], 1) % 2 == 0
    {
      SentDetermines(ws, last, log);
    }
    tableLog := 0;
    if total == 0 { return false, 0; }
    tableLog := HighBit(total) + 1;
    if tableLog > TABLELOG_MAX { return false, tableLog; }
    var rest := Pow2(tableLog) - total;
    var lastWeight := HighBit(rest) + 1;
    if Pow2(HighBit(rest)) != rest { return false, tableLog; }
    LastWeight(ws, total, tableLog, lastWeight);
    ghost var ranks: seq<nat> := rankStats[..];
    CountsAppended(ranks, ws, lastWeight);
    weights[size] := lastWeight;
    rankStats[lastWeight] := rankStats[lastWeight] + 1;
    assert weights[..size] == ws && weights[..size + 1] == ws + [lastWeight];
    assert rankStats[..] == ranks[lastWeight := (ranks[lastWeight] + 1) as nat];
    ok := !(rankStats[1] < 2 || rankStats[1] % 2 == 1);
    if ok { assert Sent(ws, lastWeight, tableLog); }
  }

  // ---------------------------------------------------------------- readDTableX1

  /** Turns the counts per weight into first slots. */
  method RankStarts(rankVal: array<nat>, tableLog: nat, ghost ws: seq<nat>)
    requires rankVal.Length == RANKS && Counts(rankVal[..], ws) && tableLog < RANKS
    modifies rankVal
    ensures forall w :: 1 <= w <= tableLog ==> rankVal[w] == StartOf(ws, w)
  {
    hide StartOf, CountOf, Shl;
    var next: nat := 0;
    var n: nat := 1;
    assert StartOf(ws, 1) == 0 by { FirstStart(ws); }
    while n < tableLog + 1
      invariant 1 <= n <= tableLog + 1 && next == StartOf(ws, n)
      invariant forall w :: 1 <= w < n ==> rankVal[w] == StartOf(ws, w)
      invariant forall w :: n <= w < RANKS ==> rankVal[w] == CountOf(ws, w)
    {
      StartStep(ws, n);
      var current := next;
      next := next + Shl(rankVal[n], n - 1);
      rankVal[n] := current;
      n := n + 1;
    }
  }

  lemma {:induction false} FirstStart(ws: seq<nat>)
    ensures StartOf(ws, 1) == 0
  {}

  /** One symbol's slots: one at a time if they are few, else four at a time. */
  method FillSlots(dtByte: array<nat>, dtBits: array<nat>, start: nat, length: nat, symbol: nat, bits: nat)
    requires dtByte != dtBits && dtByte.Length == dtBits.Length && start + length <= dtByte.Length && (length < 4 || length % 4 == 0)
    modifies dtByte, dtBits
    ensures forall u :: 0 <= u < dtByte.Length ==>
      if start <= u < start + length then dtByte[u] == symbol && dtBits[u] == bits
      else dtByte[u] == old(dtByte[u]) && dtBits[u] == old(dtBits[u])
  {
    if length < 4 {
      var u: nat := 0;
      while u < length
        invariant u <= length
        invariant forall v :: 0 <= v < dtByte.Length ==>
          if start <= v < start + u then dtByte[v] == symbol && dtBits[v] == bits
          else dtByte[v] == old(dtByte[v]) && dtBits[v] == old(dtBits[v])
      {
        dtByte[start + u], dtBits[start + u] := symbol, bits;
        u := u + 1;
      }
    } else {
      var u: nat := start;
      while u < start + length
        invariant start <= u <= start + length && (u - start) % 4 == 0
        invariant forall v :: 0 <= v < dtByte.Length ==>
          if start <= v < u then dtByte[v] == symbol && dtBits[v] == bits
          else dtByte[v] == old(dtByte[v]) && dtBits[v] == old(dtBits[v])
      {
        dtByte[u], dtBits[u] := symbol, bits;
        dtByte[u + 1], dtBits[u + 1] := symbol, bits;
        dtByte[u + 2], dtBits[u + 2] := symbol, bits;
        dtByte[u + 3], dtBits[u + 3] := symbol, bits;
        u := u + 4;
      }
    }
  }

  lemma {:induction false} PowersByFour(w: nat)
    ensures Half(w) < 4 || Half(w) % 4 == 0
  {
    if w >= 3 {
      TwicePow2(w - 2);
      TwicePow2(w - 3);
    }
  }

  /** The slots of the first `n` symbols hold their symbol and its number of bits. */
  ghost predicate Laid(dtByte: seq<nat>, dtBits: seq<nat>, ws: seq<nat>, tableLog: nat, n: nat) {
    && |dtByte| == |dtBits| >= Pow2(tableLog) && n <= |ws| && (forall i :: 0 <= i < |ws| ==> ws[i] <= tableLog)
    && forall s, u :: 0 <= s < n && 0 <= u < Pow2(tableLog) && InSlot(ws, s, u) ==> dtByte[u] == s && dtBits[u] == BitsOf(ws[s], tableLog)
  }

  /** Next free slot of each weight before symbol `n`. */
  ghost predicate NextSlots(rankVal: seq<nat>, ws: seq<nat>, tableLog: nat, n: nat) {
    |rankVal| == RANKS && n <= |ws| && forall w :: 1 <= w <= tableLog < RANKS ==> rankVal[w] == StartOf(ws, w) + Shl(CountOf(ws[..n], w), w - 1)
  }

  lemma {:induction false} NextSlot(rankVal: seq<nat>, ws: seq<nat>, tableLog: nat, n: nat)
    requires NextSlots(rankVal, ws, tableLog, n) && n < |ws| && Weights(ws, tableLog)
    ensures ws[n] > 0 ==> rankVal[ws[n]] == SlotStart(ws, n) && SlotStart(ws, n) + Half(ws[n]) <= Pow2(tableLog)
    ensures NextSlots(rankVal[ws[n] := rankVal[ws[n]] + Half(ws[n])], ws, tableLog, n + 1)
  {
    hide StartOf, CountOf, Shl, Pow2, WeightSum;
    var x := ws[n];
    assert ws[..n + 1] == ws[..n] + [x];
    forall w | 1 <= w <= tableLog ensures CountOf(ws[..n + 1], w) == CountOf(ws[..n], w) + if x == w then 1 else 0 {
      Appended(ws[..n], x, w);
    }
    if x > 0 {
      ShlAdd(CountOf(ws[..n], x), 1, x - 1);
      ShlOne(x - 1);
      SlotEnd(ws, n);
      StartMono(ws, x + 1, tableLog + 1);
      StartTotal(ws, tableLog + 1);
    }
  }

  lemma {:induction false} LaidNext(dtByte: seq<nat>, dtBits: seq<nat>, ws: seq<nat>, tableLog: nat, n: nat, dtByte': seq<nat>, dtBits': seq<nat>)
    requires Weights(ws, tableLog) && Laid(dtByte, dtBits, ws, tableLog, n) && n < |ws| && |dtByte'| == |dtByte| == |dtBits'|
    requires forall u :: 0 <= u < |dtByte| ==>
      if InSlot(ws, n, u) then dtByte'[u] == n && dtBits'[u] == BitsOf(ws[n], tableLog)
      else dtByte'[u] == dtByte[u] && dtBits'[u] == dtBits[u]
    ensures Laid(dtByte', dtBits', ws, tableLog, n + 1)
  {
    hide InSlot, Pow2, WeightSum;
    forall s, u | 0 <= s < n + 1 && 0 <= u < Pow2(tableLog) && InSlot(ws, s, u)
      ensures dtByte'[u] == s && dtBits'[u] == BitsOf(ws[s], tableLog)
    {
      if InSlot(ws, n, u) { SlotsDisjoint(ws, s, n, u); }
    }
  }

  lemma {:induction false} HalfPositive(w: nat, tableLog: nat)
    requires w <= tableLog + 1
    ensures Half(w) > 0 <==> w > 0
    ensures w > 0 ==> BitsOf(w, tableLog) == tableLog + 1 - w
    ensures Half(w) < 4 || Half(w) % 4 == 0
  {
    PowersByFour(w);
  }

  lemma {:induction false} Beginning(rankVal: seq<nat>, dtByte: seq<nat>, dtBits: seq<nat>, ws: seq<nat>, tableLog: nat)
    requires Weights(ws, tableLog) && |dtByte| == |dtBits| >= Pow2(tableLog) && |rankVal| == RANKS
    requires forall w :: 1 <= w <= tableLog ==> rankVal[w] == StartOf(ws, w)
    ensures NextSlots(rankVal, ws, tableLog, 0) && Laid(dtByte, dtBits, ws, tableLog, 0)
  {
    hide StartOf, Pow2, WeightSum, Shl;
    assert ws[..0] == [];
    forall w | 1 <= w <= tableLog ensures Shl(CountOf(ws[..0], w), w - 1) == 0 { ShlOne(w - 1); }
  }

  /** One round of the filling loop. */
  method FillSymbol(dtByte: array<nat>, dtBits: array<nat>, rankVal: array<nat>, w: nat, n: nat, tableLog: nat, ghost ws: seq<nat>)
    requires dtByte != dtBits && rankVal != dtByte && rankVal != dtBits
    requires Weights(ws, tableLog) && n < |ws| && w == ws[n] && dtByte.Length == dtBits.Length >= Pow2(tableLog)
    requires NextSlots(rankVal[..], ws, tableLog, n) && Laid(dtByte[..], dtBits[..], ws, tableLog, n)
    modifies dtByte, dtBits, rankVal
    ensures NextSlots(rankVal[..], ws, tableLog, n + 1) && Laid(dtByte[..], dtBits[..], ws, tableLog, n + 1)
  {
    hide StartOf, CountOf, Shl, Pow2, WeightSum, Half, Laid, BitsOf, SlotStart;
    ghost var ranks: seq<nat>, bytes: seq<nat>, bits: seq<nat> := rankVal[..], dtByte[..], dtBits[..];
    NextSlot(ranks, ws, tableLog, n);
    HalfPositive(w, tableLog);
    var length := Half(w);
    var uStart := rankVal[w];
    rankVal[w] := uStart + length;
    assert rankVal[..] == ranks[w := (ranks[w] + length) as nat];
    assert dtByte[..] == bytes && dtBits[..] == bits;
    FillSlots(dtByte, dtBits, if w == 0 then 0 else uStart, length, n, tableLog + 1 - w);
    LaidNext(bytes, bits, ws, tableLog, n, dtByte[..], dtBits[..]);
  }

  /** The table of PBC_HUF_readDTableX1_wksp, once the weights are known. */
  method FillTable(dtByte: array<nat>, dtBits: array<nat>, rankVal: array<nat>, weights: array<nat>, nbSymbols: nat, tableLog: nat)
    requires dtByte != dtBits && rankVal != dtByte && rankVal != dtBits && weights != dtByte && weights != dtBits && weights != rankVal
    requires nbSymbols <= weights.Length && Weights(weights[..nbSymbols], tableLog) && Counts(rankVal[..], weights[..nbSymbols])
    requires dtByte.Length == dtBits.Length >= Pow2(tableLog)
    modifies dtByte, dtBits, rankVal
    ensures weights[..nbSymbols] == old(weights[..nbSymbols])
    ensures Laid(dtByte[..], dtBits[..], weights[..nbSymbols], tableLog, nbSymbols)
  {
    hide StartOf, CountOf, Shl, Pow2, WeightSum, Counts, Laid, NextSlots;
    ghost var ws: seq<nat> := weights[..nbSymbols];
    assert rankVal.Length == RANKS by { CountsSize(rankVal[..], ws); }
    RankStarts(rankVal, tableLog, ws);
    assert weights[..nbSymbols] == ws;
    Beginning(rankVal[..], dtByte[..], dtBits[..], ws, tableLog);
    var n: nat := 0;
    while n < nbSymbols
      invariant n <= nbSymbols && weights[..nbSymbols] == ws
      invariant NextSlots(rankVal[..], ws, tableLog, n) && Laid(dtByte[..], dtBits[..], ws, tableLog, n)
    {
      assert weights[n] == ws[n];
      FillSymbol(dtByte, dtBits, rankVal, weights[n], n, tableLog, ws);
      n := n + 1;
    }
  }

  lemma {:induction false} CountsSize(rankVal: seq<nat>, ws: seq<nat>)
    requires Counts(rankVal, ws)
    ensures |rankVal| == RANKS
  {}

  // ---------------------------------------------------------------- readCTable

  /** The encoder's side of the same weights: number of bits and code of every symbol. */
  ghost predicate Coded(nbBits: seq<nat>, val: seq<nat>, ws: seq<nat>, tableLog: nat) {
    && |nbBits| >= |ws| && |val| >= |ws| && (forall i :: 0 <= i < |ws| ==> ws[i] <= tableLog)
    && forall s :: 0 <= s < |ws| ==> nbBits[s] == BitsOf(ws[s], tableLog) && (ws[s] > 0 ==> val[s] == CodeOf(ws, s))
  }

  /** Counts per number of bits. */
  ghost predicate PerRank(nbPerRank: seq<nat>, ws: seq<nat>, tableLog: nat) {
    |nbPerRank| == RANKS + 1 && forall w :: 1 <= w <= tableLog <= TABLELOG_MAX ==> nbPerRank[tableLog + 1 - w] == CountOf(ws, w)
  }

  lemma {:induction false} PerRankNext(nbPerRank: seq<nat>, ws: seq<nat>, x: nat, tableLog: nat)
    requires PerRank(nbPerRank, ws, tableLog) && x <= tableLog <= TABLELOG_MAX && 1 <= tableLog
    ensures BitsOf(x, tableLog) < |nbPerRank|
    ensures PerRank(nbPerRank[BitsOf(x, tableLog) := nbPerRank[BitsOf(x, tableLog)] + 1], ws + [x], tableLog)
  {
    hide CountOf;
    forall w | 1 <= w <= tableLog ensures CountOf(ws + [x], w) == CountOf(ws, w) + if x == w then 1 else 0 {
      Appended(ws, x, w);
    }
  }

  /** PBC_HUF_readCTable, once the weights are known; the encoder's own tables are numbered the same way. */
  method ReadCodes(nbBits: array<nat>, val: array<nat>, weights: seq<nat>, tableLog: nat)
    requires nbBits != val && nbBits.Length == val.Length >= |weights| && Weights(weights, tableLog)
    modifies nbBits, val
    ensures Coded(nbBits[..], val[..], weights, tableLog)
  {
    hide CountOf, FirstCode, WeightSum, Pow2, PerRank;
    var n: nat := 0;
    while n < |weights|
      invariant n <= |weights|
      invariant forall s :: 0 <= s < n ==> nbBits[s] == BitsOf(weights[s], tableLog)
    {
      nbBits[n] := if weights[n] != 0 then tableLog + 1 - weights[n] else 0;
      n := n + 1;
    }
    var nbPerRank := CountBits(nbBits, weights, tableLog);
    var valPerRank := FirstCodes(nbPerRank, weights, tableLog);
    n := 0;
    while n < |weights|
      invariant n <= |weights| && valPerRank.Length == RANKS + 1
      invariant forall s :: 0 <= s < |weights| ==> nbBits[s] == BitsOf(weights[s], tableLog)
      invariant forall s :: 0 <= s < n && weights[s] > 0 ==> val[s] == CodeOf(weights, s)
      invariant forall w :: 1 <= w <= tableLog ==> valPerRank[tableLog + 1 - w] == FirstCode(weights, w) + CountOf(weights[..n], w)
    {
      assert weights[..n + 1] == weights[..n] + [weights[n]];
      forall w | 1 <= w <= tableLog ensures CountOf(weights[..n + 1], w) == CountOf(weights[..n], w) + if weights[n] == w then 1 else 0 {
        Appended(weights[..n], weights[n], w);
      }
      val[n] := valPerRank[nbBits[n]];
      valPerRank[nbBits[n]] := valPerRank[nbBits[n]] + 1;
      n := n + 1;
    }
  }

  method CountBits(nbBits: array<nat>, weights: seq<nat>, tableLog: nat) returns (nbPerRank: array<nat>)
    requires nbBits.Length >= |weights| && Weights(weights, tableLog)
    requires forall s :: 0 <= s < |weights| ==> nbBits[s] == BitsOf(weights[s], tableLog)
    ensures fresh(nbPerRank) && PerRank(nbPerRank[..], weights, tableLog)
  {
    hide CountOf, WeightSum, Pow2;
    nbPerRank := new nat[RANKS + 1](_ => 0);
    assert weights[..0] == [];
    NoRanks(nbPerRank[..], tableLog);
    var n: nat := 0;
    while n < |weights|
      invariant n <= |weights| && PerRank(nbPerRank[..], weights[..n], tableLog)
    {
      ghost var was: seq<nat> := nbPerRank[..];
      assert weights[..n + 1] == weights[..n] + [weights[n]];
      PerRankNext(was, weights[..n], weights[n], tableLog);
      nbPerRank[nbBits[n]] := nbPerRank[nbBits[n]] + 1;
      assert nbPerRank[..] == was[nbBits[n] := (was[nbBits[n]] + 1) as nat];
      n := n + 1;
    }
    assert weights[..n] == weights;
  }

  lemma {:induction false} NoRanks(nbPerRank: seq<nat>, tableLog: nat)
    requires |nbPerRank| == RANKS + 1 && forall r :: 0 <= r < RANKS + 1 ==> nbPerRank[r] == 0
    ensures PerRank(nbPerRank, [], tableLog)
  {}

  /** From the longest codes to the shortest: every rank starts where halving the previous one's end leads. */
  method FirstCodes(nbPerRank: array<nat>, ghost weights: seq<nat>, tableLog: nat) returns (valPerRank: array<nat>)
    requires PerRank(nbPerRank[..], weights, tableLog) && 1 <= tableLog <= TABLELOG_MAX
    ensures fresh(valPerRank) && valPerRank.Length == RANKS + 1
    ensures forall w :: 1 <= w <= tableLog ==> valPerRank[tableLog + 1 - w] == FirstCode(weights, w)
  {
    hide CountOf;
    valPerRank := new nat[RANKS + 1](_ => 0);
    var min: nat := 0;
    var n := tableLog;
    while n > 0
      invariant 0 <= n <= tableLog && min == FirstCode(weights, tableLog + 1 - n)
      invariant forall w :: 1 <= w <= tableLog - n ==> valPerRank[tableLog + 1 - w] == FirstCode(weights, w)
    {
      var w := tableLog + 1 - n;
      assert nbPerRank[..][tableLog + 1 - w] == CountOf(weights, w);
      valPerRank[n] := min;
      min := (min + nbPerRank[n]) / 2;
      n := n - 1;
    }
  }

  // ---------------------------------------------------------------- the two readers agree

  /** decodeSymbolX1 undoes encodeSymbol: the table entry at any index that begins with a symbol's code
      names that symbol and its number of bits; and every index begins with exactly one symbol's code. */
  lemma {:induction false} TablesAgree(dtByte: seq<nat>, dtBits: seq<nat>, nbBits: seq<nat>, val: seq<nat>, ws: seq<nat>, tableLog: nat, u: nat)
    requires Weights(ws, tableLog) && Laid(dtByte, dtBits, ws, tableLog, |ws|)
    requires Coded(nbBits, val, ws, tableLog) && u < Pow2(tableLog)
    ensures forall s :: 0 <= s < |ws| && ws[s] > 0 ==> nbBits[s] <= tableLog
    ensures forall s :: 0 <= s < |ws| && ws[s] > 0 ==>
      (Shr(u, tableLog - nbBits[s]) == val[s] <==> dtByte[u] == s)
    ensures 0 <= dtByte[u] < |ws| && ws[dtByte[u]] > 0 && dtBits[u] == nbBits[dtByte[u]]
  {
    hide Pow2, Shr, InSlot, CodeOf, WeightSum;
    var owner := SlotsCover(ws, tableLog, u);
    SlotRange(ws, owner, u);
    forall s | 0 <= s < |ws| && ws[s] > 0 ensures Shr(u, tableLog - nbBits[s]) == val[s] <==> dtByte[u] == s {
      CodesAgree(ws, tableLog, s, u);
    }
  }

  lemma {:induction false} SlotRange(ws: seq<nat>, s: nat, u: nat)
    requires InSlot(ws, s, u)
    ensures s < |ws| && ws[s] > 0
  {}
}
