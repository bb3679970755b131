/** Limiting the length of Huffman codes: too long codes are cut to the limit, and the code space this
    overdraws is repaid by lengthening others. The lengths stay sorted and fill the code space again, provided that
    what cutting overdraws, in units of the longest code, stays below 2^31; beyond that its 32-bit sum wraps around. */
module HuffmanLimit {
  import opened Powers
  import opened Bytes
  import opened HuffmanShape
  import opened HuffmanDepth
  import opened HuffmanOptimal
  import opened HuffmanTree
  import opened HuffmanTable
  import opened HuffmanRounds

  const NO_SYMBOL: nat := 0xF0F0_F0F0

  // ---------------------------------------------------------------- sums over code lengths

  lemma {:induction false} KraftUpdate(b: seq<nat>, m: nat, n: nat, i: nat, x: nat)
    requires i < n <= |b|
    ensures KraftSum(b[i := x], m, n) == KraftSum(b, m, n) - Share(m, b[i]) + Share(m, x)
    ensures KraftSum(b, m, n) >= Share(m, b[i])
  {
    hide Share;
    if i < n - 1 { KraftUpdate(b, m, n - 1, i, x); } else { KraftSame(b, b[i := x], m, n - 1); }
  }

  lemma {:induction false} KraftSame(b: seq<nat>, c: seq<nat>, m: nat, n: nat)
    requires n <= |b| && n <= |c| && forall i :: 0 <= i < n ==> b[i] == c[i]
    ensures KraftSum(b, m, n) == KraftSum(c, m, n)
  {
    hide Share;
    if n > 0 { KraftSame(b, c, m, n - 1); }
  }

  /** Number of codes of the greatest length. */
  function CountMax(b: seq<nat>, m: nat, n: nat): (k: nat)
    requires n <= |b|
    ensures k <= n
  {
    if n == 0 then 0 else CountMax(b, m, n - 1) + if b[n - 1] == m then 1 else 0
  }

  lemma {:induction false} CountUpdate(b: seq<nat>, m: nat, n: nat, i: nat, x: nat)
    requires i < n <= |b|
    ensures CountMax(b[i := x], m, n) == CountMax(b, m, n) - (if b[i] == m then 1 else 0) + if x == m then 1 else 0
    ensures b[i] == m ==> CountMax(b, m, n) >= 1
  {
    if i < n - 1 { CountUpdate(b, m, n - 1, i, x); } else { CountSame(b, b[i := x], m, n - 1); }
  }

  lemma {:induction false} CountSame(b: seq<nat>, c: seq<nat>, m: nat, n: nat)
    requires n <= |b| && n <= |c| && forall i :: 0 <= i < n ==> b[i] == c[i]
    ensures CountMax(b, m, n) == CountMax(c, m, n)
  {
    if n > 0 { CountSame(b, c, m, n - 1); }
  }

  /** A finer unit scales the sum. */
  lemma {:induction false} KraftScale(b: seq<nat>, m: nat, k: nat, n: nat)
    requires n <= |b| && forall i :: 0 <= i < n ==> b[i] <= m
    ensures KraftSum(b, m + k, n) == Shl(KraftSum(b, m, n), k)
  {
    hide Shl, Pow2;
    if n > 0 {
      KraftScale(b, m, k, n - 1);
      ShlAdd(KraftSum(b, m, n - 1), Share(m, b[n - 1]), k);
      ShlPow2(m - b[n - 1], k);
    } else {
      ShlOne(k);
    }
  }

  /** If no code length lies within `r` of the limit, all other codes take multiples of `2^r`. */
  lemma {:induction false} KraftMultiple(b: seq<nat>, m: nat, r: nat, n: nat) returns (q: nat)
    requires n <= |b| && forall i :: 0 <= i < n ==> b[i] == m || b[i] + r <= m
    ensures KraftSum(b, m, n) == CountMax(b, m, n) + Shl(q, r)
  {
    hide Shl, Pow2;
    if n == 0 {
      q := 0;
      ShlOne(r);
    } else {
      q := KraftMultiple(b, m, r, n - 1);
      if b[n - 1] == m {
        assert Pow2(0) == 1 by { TwoToZero(); }
      } else {
        var x := Pow2(m - b[n - 1] - r);
        ShlPow2(m - b[n - 1] - r, r);
        ShlAdd(q, x, r);
        q := q + x;
      }
    }
  }

  lemma {:induction false} TwoToZero()
    ensures Pow2(0) == 1 && Pow2(1) == 2
  {}

  // ---------------------------------------------------------------- state of the repayment

  ghost predicate Sorted(b: seq<nat>, n: nat)
    requires n <= |b|
  {
    forall i, j :: 0 <= i <= j < n ==> b[i] <= b[j]
  }

  /** Sorted lengths up to the limit `m` that overdraw the code space by `debt`. */
  ghost predicate Owing(b: seq<nat>, m: nat, n: nat, debt: int) {
    && n <= |b| && 1 <= m <= TABLELOG_MAX && 2 <= n <= Pow2(m) && n <= START
    && Sorted(b, n) && (forall i :: 0 <= i < n ==> 1 <= b[i] <= m)
    && KraftSum(b, m, n) == Pow2(m) + debt
  }

  /** `last` is the last symbol whose code is `r` bits below the limit, or none. */
  ghost predicate RankLast(last: nat, b: seq<nat>, m: nat, n: nat, r: nat)
    requires n <= |b|
  {
    if last == NO_SYMBOL then forall i :: 0 <= i < n ==> b[i] + r != m
    else last < n && b[last] + r == m && forall i :: last < i < n ==> b[i] + r != m
  }

  ghost predicate Ranks(rl: seq<nat>, b: seq<nat>, m: nat, n: nat)
    requires n <= |b|
  {
    |rl| == TABLELOG_MAX + 2 && forall r :: 1 <= r < |rl| ==> RankLast(rl[r], b, m, n, r)
  }

  /** As long as code space is owed, some code is below the limit. */
  lemma {:induction false} SomeRank(rl: seq<nat>, b: seq<nat>, m: nat, n: nat, debt: int) returns (r: nat)
    requires Owing(b, m, n, debt) && debt > 0 && Ranks(rl, b, m, n)
    ensures 1 <= r < TABLELOG_MAX && rl[r] != NO_SYMBOL
  {
    AllMax(b, m, n);
    var i :| 0 <= i < n && b[i] != m;
    r := m - b[i];
    assert RankLast(rl[r], b, m, n, r);
  }

  lemma {:induction false} AllMax(b: seq<nat>, m: nat, n: nat)
    requires n <= |b|
    ensures (forall i :: 0 <= i < n ==> b[i] == m) ==> KraftSum(b, m, n) == n
  {
    if n > 0 { AllMax(b, m, n - 1); }
  }

  /** Lengthening the last code of rank `r` repays `2^(r-1)`. */
  lemma {:induction false} Lengthen(b: seq<nat>, m: nat, n: nat, debt: int, p: nat, r: nat)
    requires Owing(b, m, n, debt) && r >= 1 && p < n && RankLast(p, b, m, n, r) && p != NO_SYMBOL
    ensures Owing(b[p := b[p] + 1], m, n, debt - Pow2(r - 1))
    ensures CountMax(b[p := b[p] + 1], m, n) == CountMax(b, m, n) + if r == 1 then 1 else 0
  {
    hide KraftSum, CountMax;
    KraftUpdate(b, m, n, p, b[p] + 1);
    CountUpdate(b, m, n, p, b[p] + 1);
    assert Share(m, b[p]) == 2 * Share(m, b[p] + 1);
  }

  /** The table of last symbols after that. */
  lemma {:induction false} RanksAfter(rl: seq<nat>, b: seq<nat>, m: nat, n: nat, p: nat, r: nat, rl': seq<nat>)
    requires n <= |b| && n <= START && Sorted(b, n) && Ranks(rl, b, m, n) && 1 <= r < |rl| && rl[r] == p != NO_SYMBOL && |rl'| == |rl|
    requires forall q :: 1 <= q < |rl| && q != r && q != r - 1 ==> rl'[q] == rl[q]
    requires r > 1 ==> rl'[r - 1] == if rl[r - 1] == NO_SYMBOL then p else rl[r - 1]
    requires p < n ==> rl'[r] == if p > 0 && b[p - 1] + r == m then p - 1 else NO_SYMBOL
    ensures p < n && Ranks(rl', b[p := b[p] + 1], m, n)
  {
    assert RankLast(rl[r], b, m, n, r);
    var c := b[p := b[p] + 1];
    forall q | 1 <= q < |rl'| ensures RankLast(rl'[q], c, m, n, q) {
      assert RankLast(rl[q], b, m, n, q);
    }
  }

  // ---------------------------------------------------------------- overshooting

  /** Enough longest codes are left to give back what one step has repaid too much. */
  lemma {:induction false} EnoughToGiveBack(b: seq<nat>, m: nat, n: nat, debt: int, r: nat)
    requires Owing(b, m, n, debt) && 0 < debt < CountMax(b, m, n) && 1 <= r < m
    requires forall i :: 0 <= i < n ==> b[i] == m || b[i] + r <= m
    ensures CountMax(b, m, n) >= debt + Pow2(r)
  {
    hide KraftSum, CountMax, Shl, Pow2;
    var q := KraftMultiple(b, m, r, n);
    ShlPow2(m - r, r);
    var over := CountMax(b, m, n) - debt;
    assert over + Shl(q, r) == Shl(Pow2(m - r), r);
    if q >= Pow2(m - r) { ShlMono(Pow2(m - r), q, r); }
    ShlAdd(q, Pow2(m - r) - q, r);
    ShlMono(1, Pow2(m - r) - q, r);
    ShlOne(r);
  }

  /** Shortening the first of the longest codes gives back one unit. */
  lemma {:induction false} Shorten(b: seq<nat>, m: nat, n: nat, debt: int, p: nat)
    requires Owing(b, m, n, debt) && p < n && b[p] == m && m > 1 && (p > 0 ==> b[p - 1] < m)
    ensures Owing(b[p := m - 1], m, n, debt + 1) && CountMax(b[p := m - 1], m, n) == CountMax(b, m, n) - 1
    ensures RankLast(p, b[p := m - 1], m, n, 1)
  {
    hide KraftSum, CountMax;
    KraftUpdate(b, m, n, p, m - 1);
    CountUpdate(b, m, n, p, m - 1);
    TwoToZero();
  }

  /** Behind the last shorter code all codes have the greatest length, and there is one. */
  lemma {:induction false} FirstMax(b: seq<nat>, m: nat, n: nat, debt: int, p: nat)
    requires Owing(b, m, n, debt) && CountMax(b, m, n) > 0 && p < n && b[p] < m && forall i :: p < i < n ==> b[i] == m
    ensures p + 1 < n && b[p + 1] == m
  {
    NoMax(b, m, p + 1);
  }

  lemma {:induction false} NoMax(b: seq<nat>, m: nat, n: nat)
    requires n <= |b| && forall i :: 0 <= i < n ==> b[i] < m
    ensures CountMax(b, m, n) == 0
  {
    if n > 0 { NoMax(b, m, n - 1); }
  }

  // ---------------------------------------------------------------- choosing a rank

  lemma {:induction false} StartRange(debt: nat)
    requires 0 < debt < START
    ensures HighBit(debt) < 8
  {
    assert Pow2(8) == 256;
    HighBitBelow(debt, 8);
  }

  /** What the table of last symbols says about a rank. */
  lemma {:induction false} RankSeen(rl: seq<nat>, b: seq<nat>, m: nat, n: nat, r: nat)
    requires n <= |b| && Ranks(rl, b, m, n) && 1 <= r < |rl|
    ensures if rl[r] == NO_SYMBOL then NoneAt(b[..n], m, r) else LastAt(b[..n], m, r, rl[r])
    ensures rl[r] == NO_SYMBOL <==> NoneAt(b[..n], m, r)
  {
    assert RankLast(rl[r], b, m, n, r);
    if rl[r] != NO_SYMBOL { assert b[..n][rl[r]] + r == m; }
  }

  /** Passing a rank, told by the table. */
  lemma {:induction false} PassedSeen(rl: seq<nat>, b: seq<nat>, count: seq<nat>, m: nat, r: nat)
    requires |count| <= |b| && Ranks(rl, b, m, |count|) && 2 <= r < |rl|
    ensures rl[r] != NO_SYMBOL ==> rl[r] < |count|
    ensures rl[r - 1] != NO_SYMBOL ==> rl[r - 1] < |count|
    ensures Passed(b[..|count|], count, m, r)
      <==> rl[r] == NO_SYMBOL || (rl[r - 1] != NO_SYMBOL && count[rl[r]] > 2 * count[rl[r - 1]])
  {
    hide Ranks, NoneAt;
    RankSizes(rl, b, m, |count|);
    RankSeen(rl, b, m, |count|, r);
    RankSeen(rl, b, m, |count|, r - 1);
    if rl[r - 1] == NO_SYMBOL { NoLast(b[..|count|], m, r - 1); }
  }

  lemma {:induction false} NoLast(b: seq<nat>, m: nat, r: nat)
    requires NoneAt(b, m, r)
    ensures forall l: nat :: !LastAt(b, m, r, l)
  {}

  /** Looks downward for a rank that is worth lengthening: ends at a rank that is not empty, or at rank 1
      with all ranks passed being empty or more expensive. */
  method WorthwhileRank(rankLast: array<nat>, count: seq<nat>, start: nat, ghost b: seq<nat>, ghost m: nat) returns (r: nat)
    requires |count| <= |b| && 1 <= start <= 8 && Ranks(rankLast[..], b, m, |count|)
    ensures 1 <= r <= start && (rankLast[r] != NO_SYMBOL || (r == 1 && forall q :: 1 < q <= start ==> rankLast[q] == NO_SYMBOL))
    ensures StopsAt(b[..|count|], count, m, start, r)
  {
    hide Ranks, Passed;
    ghost var rl: seq<nat> := rankLast[..];
    RankSizes(rl, b, m, |count|);
    r := start;
    while r > 1
      invariant 1 <= r <= start
      invariant rankLast[r] != NO_SYMBOL || forall q :: r < q <= start ==> rankLast[q] == NO_SYMBOL
      invariant forall q :: r < q <= start ==> Passed(b[..|count|], count, m, q)
    {
      PassedSeen(rl, b, count, m, r);
      var highPos, lowPos := rankLast[r], rankLast[r - 1];
      if highPos != NO_SYMBOL {
        if lowPos == NO_SYMBOL { break; }
        if count[highPos] <= 2 * count[lowPos] { break; }
      }
      r := r - 1;
    }
  }

  /** The rank whose last code is lengthened: not above what is still to be repaid, unless all lower ranks are empty.
      At least that much is owed. */
  method ChooseRank(rankLast: array<nat>, count: seq<nat>, debt: nat, ghost b: seq<nat>, ghost m: nat, ghost gap: nat) returns (r: nat)
    requires Owing(b, m, |count|, debt + gap) && 0 < debt && debt + gap < CountMax(b, m, |count|) && Ranks(rankLast[..], b, m, |count|)
    ensures 1 <= r < TABLELOG_MAX && rankLast[r] != NO_SYMBOL
    ensures Pow2(r - 1) <= debt || forall q :: 1 <= q < r ==> rankLast[q] == NO_SYMBOL
    ensures Chosen(b[..|count|], count, m, debt, r)
  {
    hide KraftSum, CountMax, RankLast, Sorted, HighBit, Pow2, StopsAt, NoneAt;
    StartRange(debt);
    r := WorthwhileRank(rankLast, count, HighBit(debt) + 1, b, m);
    ghost var some := SomeRank(rankLast[..], b, m, |count|, debt + gap);
    Pow2Mono(r - 1, HighBit(debt));
    assert Pow2(HighBit(debt)) <= debt;
    ghost var down, empty := r, rankLast[r] == NO_SYMBOL;
    while r <= TABLELOG_MAX && rankLast[r] == NO_SYMBOL
      invariant if empty then 1 <= r <= some && forall q :: 1 <= q < r ==> rankLast[q] == NO_SYMBOL else r == down
      invariant down <= r && forall q :: down <= q < r ==> rankLast[q] == NO_SYMBOL
      decreases TABLELOG_MAX - r
    {
      r := r + 1;
    }
    ghost var rl: seq<nat> := rankLast[..];
    forall q | down <= q <= r ensures NoneAt(b[..|count|], m, q) <==> q < r { RankSeen(rl, b, m, |count|, q); }
    assert FoundAbove(b[..|count|], m, down, r);
  }

  /** Lengthens the last code of rank `r` and brings the table of last symbols up to date. */
  method LengthenLast(nbBits: array<nat>, rankLast: array<nat>, r: nat, m: nat, ghost n: nat)
    requires nbBits != rankLast && n <= nbBits.Length && n <= START && Sorted(nbBits[..], n)
    requires Ranks(rankLast[..], nbBits[..], m, n) && 1 <= r < rankLast.Length && rankLast[r] != NO_SYMBOL
    modifies nbBits, rankLast
    ensures
      var p := old(rankLast[r]);
      p < n && nbBits[..] == old(nbBits[..])[p := old(nbBits[p]) + 1] && Ranks(rankLast[..], nbBits[..], m, n)
  {
    hide Ranks, RankLast, Sorted;
    ghost var b: seq<nat>, rl: seq<nat> := nbBits[..], rankLast[..];
    var p := rankLast[r];
    RankHere(rl, b, m, n, r);
    if rankLast[r - 1] == NO_SYMBOL { rankLast[r - 1] := p; }
    nbBits[p] := nbBits[p] + 1;
    if rankLast[r] == 0 {
      rankLast[r] := NO_SYMBOL;
    } else {
      rankLast[r] := rankLast[r] - 1;
      if nbBits[rankLast[r]] + r != m { rankLast[r] := NO_SYMBOL; }
    }
    assert nbBits[..] == b[p := b[p] + 1];
    RanksAfter(rl, b, m, n, p, r, rankLast[..]);
  }

  /** One round of the first repayment loop; `gap` is owed beyond what the sum says. */
  method RepayOnce(nbBits: array<nat>, rankLast: array<nat>, count: seq<nat>, debt: nat, m: nat, ghost gap: nat) returns (debt': int, ghost below: nat)
    requires nbBits != rankLast && Owing(nbBits[..], m, |count|, debt + gap)
    requires 0 < debt && debt + gap < CountMax(nbBits[..], m, |count|)
    requires Ranks(rankLast[..], nbBits[..], m, |count|)
    modifies nbBits, rankLast
    ensures debt' < debt && Owing(nbBits[..], m, |count|, debt' + gap) && Ranks(rankLast[..], nbBits[..], m, |count|)
    ensures debt' + gap < CountMax(nbBits[..], m, |count|) && -debt' < CountMax(nbBits[..], m, |count|)
    ensures below < |count| && (debt' < 0 ==> nbBits[below] < m)
    ensures forall i :: 0 <= i < |count| && old(nbBits[i]) == m ==> nbBits[i] == m
    ensures |count| <= nbBits.Length && Round(Owed(old(nbBits[..])[..|count|], debt), Owed(nbBits[..|count|], debt'), count, m)
  {
    hide KraftSum, CountMax, Owing, Ranks, Pow2, RankLast, Sorted, Chosen, LastAt, NoneAt;
    ghost var b: seq<nat>, rl: seq<nat>, n := nbBits[..], rankLast[..], |count|;
    OwingSizes(b, m, n, debt + gap);
    RankSizes(rl, b, m, n);
    var r := ChooseRank(rankLast, count, debt, b, m, gap);
    below := rankLast[r];
    RankHere(rl, b, m, n, r);
    Lengthen(b, m, n, debt + gap, below, r);
    if Pow2(r - 1) > debt { RanksEmpty(rl, b, m, n, debt + gap, r); }
    RankOne(r);
    LengthenLast(nbBits, rankLast, r, m, n);
    debt' := debt - Pow2(r - 1);
    RankSeen(rl, b, m, n, r);
    assert nbBits[..n] == b[..n][below := b[below] + 1];
    assert Lengthened(Owed(b[..n], debt), Owed(nbBits[..n], debt'), m, r, below);
  }

  lemma {:induction false} RankOne(r: nat)
    requires r >= 1
    ensures r == 1 ==> Pow2(r - 1) == 1
  {}

  lemma {:induction false} OwingSizes(b: seq<nat>, m: nat, n: nat, debt: int)
    requires Owing(b, m, n, debt)
    ensures n <= |b| && n <= START && 2 <= n && 1 <= m <= TABLELOG_MAX && Sorted(b, n) && forall i :: 0 <= i < n ==> 1 <= b[i] <= m
  {}

  lemma {:induction false} RankSizes(rl: seq<nat>, b: seq<nat>, m: nat, n: nat)
    requires n <= |b| && Ranks(rl, b, m, n)
    ensures |rl| == TABLELOG_MAX + 2
  {}

  lemma {:induction false} RankHere(rl: seq<nat>, b: seq<nat>, m: nat, n: nat, r: nat)
    requires n <= |b| && Ranks(rl, b, m, n) && 1 <= r < |rl| && rl[r] != NO_SYMBOL
    ensures RankLast(rl[r], b, m, n, r) && rl[r] < n && b[rl[r]] + r == m
  {
    assert RankLast(rl[r], b, m, n, r);
  }

  lemma {:induction false} EmptyRank(rl: seq<nat>, b: seq<nat>, m: nat, n: nat, q: nat, i: nat)
    requires n <= |b| && Ranks(rl, b, m, n) && 1 <= q < |rl| && rl[q] == NO_SYMBOL && i < n
    ensures b[i] + q != m
  {
    assert RankLast(rl[q], b, m, n, q);
  }

  /** What overshoots is covered by longest codes. */
  lemma {:induction false} RanksEmpty(rl: seq<nat>, b: seq<nat>, m: nat, n: nat, debt: int, r: nat)
    requires Owing(b, m, n, debt) && 0 < debt < CountMax(b, m, n) && Ranks(rl, b, m, n) && 1 <= r < |rl| && rl[r] != NO_SYMBOL
    requires forall q :: 1 <= q < r ==> rl[q] == NO_SYMBOL
    ensures CountMax(b, m, n) >= debt + Pow2(r) && Pow2(r) == 2 * Pow2(r - 1)
  {
    hide KraftSum, CountMax;
    assert RankLast(rl[r], b, m, n, r);
    forall i | 0 <= i < n ensures b[i] == m || b[i] + r <= m {
      if b[i] < m && m - b[i] < r { EmptyRank(rl, b, m, n, m - b[i], i); }
    }
    EnoughToGiveBack(b, m, n, debt, r);
  }

  /** The first repayment loop. */
  method Repay(nbBits: array<nat>, rankLast: array<nat>, count: seq<nat>, owed: int, m: nat, ghost last: int, ghost gap: nat, ghost start: nat)
    returns (debt: int, ghost below: nat, ghost run: seq<Owed>)
    requires nbBits != rankLast && Owing(nbBits[..], m, |count|, owed + gap) && owed + gap < CountMax(nbBits[..], m, |count|)
    requires -owed < CountMax(nbBits[..], m, |count|) && start < |count| && nbBits[start] < m
    requires Ranks(rankLast[..], nbBits[..], m, |count|) && -1 <= last
    requires forall i :: last < i < |count| ==> nbBits[i] == m
    modifies nbBits, rankLast
    ensures debt <= 0 && Owing(nbBits[..], m, |count|, debt + gap) && Ranks(rankLast[..], nbBits[..], m, |count|)
    ensures -debt < CountMax(nbBits[..], m, |count|)
    ensures debt < 0 ==> below < |count| && nbBits[below] < m
    ensures forall i :: last < i < |count| ==> nbBits[i] == m
    ensures |count| <= nbBits.Length && Rounds(run, count, m)
    ensures run[0] == Owed(old(nbBits[..])[..|count|], owed) && run[|run| - 1] == Owed(nbBits[..|count|], debt)
  {
    hide KraftSum, CountMax, Owing, Ranks, Round;
    debt, below := owed, start;
    OwingSizes(nbBits[..], m, |count|, debt + gap);
    run := [Owed(nbBits[..|count|], debt)];
    while debt > 0
      invariant Rounds(run, count, m) && run[0] == Owed(old(nbBits[..])[..|count|], owed) && run[|run| - 1] == Owed(nbBits[..|count|], debt)
      invariant |count| <= nbBits.Length && Owing(nbBits[..], m, |count|, debt + gap) && Ranks(rankLast[..], nbBits[..], m, |count|)
      invariant debt + gap < CountMax(nbBits[..], m, |count|) && -debt < CountMax(nbBits[..], m, |count|)
      invariant below < |count| && (debt < 0 ==> nbBits[below] < m)
      invariant forall i :: last < i < |count| ==> nbBits[i] == m
    {
      debt, below := RepayOnce(nbBits, rankLast, count, debt, m, gap);
      OneRoundMore(run, Owed(nbBits[..|count|], debt), count, m);
      run := run + [Owed(nbBits[..|count|], debt)];
    }
  }

  /** Shortens the code behind `p`, the first of the longest ones. */
  method ShortenNext(nbBits: array<nat>, p: nat, m: nat, ghost symbols: nat, ghost debt: int)
    requires Owing(nbBits[..], m, symbols, debt) && CountMax(nbBits[..], m, symbols) > 0 && m > 1
    requires p < symbols && nbBits[p] < m && forall i :: p < i < symbols ==> nbBits[i] == m
    modifies nbBits
    ensures Owing(nbBits[..], m, symbols, debt + 1) && CountMax(nbBits[..], m, symbols) == CountMax(old(nbBits[..]), m, symbols) - 1
    ensures p + 1 < symbols && RankLast(p + 1, nbBits[..], m, symbols, 1) && nbBits[..] == old(nbBits[..])[p + 1 := m - 1]
  {
    hide KraftSum, CountMax, Owing, RankLast;
    ghost var b: seq<nat> := nbBits[..];
    OwingSizes(b, m, symbols, debt);
    FirstMax(b, m, symbols, debt, p);
    Shorten(b, m, symbols, debt, p + 1);
    nbBits[p + 1] := nbBits[p + 1] - 1;
    assert nbBits[..] == b[p + 1 := (m - 1) as nat];
  }

  /** What the table of last symbols says about the rank next to the limit. */
  lemma {:induction false} RankOneLast(last: nat, b: seq<nat>, m: nat, n: nat)
    requires n <= |b| && Sorted(b, n) && RankLast(last, b, m, n, 1) && last != NO_SYMBOL && forall i :: 0 <= i < n ==> b[i] <= m
    ensures last < n && b[last] < m && forall i :: last < i < n ==> b[i] == m
  {}

  /** The second loop: codes of the greatest length are shortened until nothing is overpaid. */
  method GiveBack(nbBits: array<nat>, rankLast: array<nat>, ghost symbols: nat, overpaid: int, m: nat, last: int, ghost below: nat, ghost gap: nat)
    requires nbBits != rankLast && rankLast.Length > 1 && overpaid <= 0 && Owing(nbBits[..], m, symbols, overpaid + gap)
    requires -overpaid < CountMax(nbBits[..], m, symbols) && RankLast(rankLast[1], nbBits[..], m, symbols, 1)
    requires overpaid < 0 ==> below < symbols && nbBits[below] < m
    requires -1 <= last < symbols && forall i :: last < i < symbols ==> nbBits[i] == m
    modifies nbBits, rankLast
    ensures Owing(nbBits[..], m, symbols, gap) && 0 < CountMax(nbBits[..], m, symbols)
    ensures symbols <= nbBits.Length && GivenBack(old(nbBits[..])[..symbols], nbBits[..symbols], m, -overpaid)
  {
    hide KraftSum, CountMax, Owing, Pow2, RankLast, Sorted, FirstLongest, ShortenedFrom;
    var debt, n := overpaid, last;
    OwingSizes(nbBits[..], m, symbols, debt + gap);
    ghost var b0: seq<nat> := nbBits[..symbols];
    SortedFront(nbBits[..], symbols);
    ghost var first := SomeFirst(b0, m);
    NothingShortened(b0, m, first);
    while debt < 0
      invariant symbols <= nbBits.Length && FirstLongest(b0, m, first) && first + (debt - overpaid) <= symbols == |b0|
      invariant ShortenedFrom(b0, nbBits[..symbols], m, first, first + (debt - overpaid))
      invariant debt <= 0 && symbols <= nbBits.Length && Owing(nbBits[..], m, symbols, debt + gap) && -debt < CountMax(nbBits[..], m, symbols)
      invariant RankLast(rankLast[1], nbBits[..], m, symbols, 1) && -1 <= n < symbols
      invariant debt < 0 ==> below < symbols && nbBits[below] < m
      invariant rankLast[1] == NO_SYMBOL ==> forall i :: n < i < symbols ==> nbBits[i] == m
      modifies nbBits, rankLast
    {
      ghost var b: seq<nat> := nbBits[..];
      OwingSizes(b, m, symbols, debt + gap);
      var p: nat;
      if rankLast[1] == NO_SYMBOL {
        n := PassLimit(nbBits, symbols, m, n);
        p := n;
      } else {
        p := rankLast[1];
        RankOneLast(p, b, m, symbols);
      }
      ShortenNext(nbBits, p, m, symbols, debt + gap);
      rankLast[1] := p + 1;
      assert nbBits[..] == b[p + 1 := (m - 1) as nat];
      assert nbBits[..symbols] == b[..symbols][p + 1 := (m - 1) as nat];
      ShortenedNext(b0, b[..symbols], m, first, first + (debt - overpaid), p + 1);
      debt := debt + 1;
    }
  }

  lemma {:induction false} SortedFront(b: seq<nat>, n: nat)
    requires n <= |b| && Sorted(b, n)
    ensures Sorted(b[..n], n)
  {}

  lemma {:induction false} SomeFirst(b: seq<nat>, m: nat) returns (first: nat)
    requires Sorted(b, |b|) && forall i :: 0 <= i < |b| ==> b[i] <= m
    ensures FirstLongest(b, m, first)
  {
    first := |b|;
    while first > 0 && b[first - 1] == m
      invariant first <= |b| && forall i :: first <= i < |b| ==> b[i] == m
    {
      first := first - 1;
    }
  }

  lemma {:induction false} NothingShortened(b: seq<nat>, m: nat, first: nat)
    ensures ShortenedFrom(b, b, m, first, first)
  {}

  /** The first of the longest codes is behind those already shortened. */
  lemma {:induction false} ShortenedNext(b: seq<nat>, c: seq<nat>, m: nat, first: nat, to: nat, p: nat)
    requires FirstLongest(b, m, first) && first <= to <= |b| == |c| && ShortenedFrom(b, c, m, first, to) && m > 1
    requires 0 < p < |c| && c[p - 1] < m && forall i :: p <= i < |c| ==> c[i] == m
    ensures p == to && ShortenedFrom(b, c[p := m - 1], m, first, to + 1)
  {
    BehindShortened(b, c, m, first, to, p);
  }

  lemma {:induction false} BehindShortened(b: seq<nat>, c: seq<nat>, m: nat, first: nat, to: nat, p: nat)
    requires FirstLongest(b, m, first) && first <= to <= |b| == |c| && ShortenedFrom(b, c, m, first, to) && m > 1
    requires 0 < p < |c| && c[p - 1] < m && forall i :: p <= i < |c| ==> c[i] == m
    ensures p == to
  {
    assert c[p] == m;
  }

  // ---------------------------------------------------------------- cutting to the limit

  /** Codes behind `n` have been cut to the limit, which overdraws the code space by `cost`, in the unit
      of the longest code. */
  ghost predicate Cutting(b: seq<nat>, was: seq<nat>, m: nat, longest: nat, symbols: nat, n: int, cost: int) {
    && 1 <= m < longest && 2 <= symbols <= |was| == |b| && -1 <= n < symbols
    && Sorted(was, symbols) && (forall i :: 0 <= i < symbols ==> 1 <= was[i] <= longest)
    && (forall i :: 0 <= i <= n ==> b[i] == was[i]) && (forall i :: n < i < symbols ==> b[i] == m < was[i])
    && KraftSum(b, longest, symbols) == Pow2(longest) + cost
    && cost + (symbols - 1 - n) <= Shl(symbols - 1 - n, longest - m)
  }

  lemma {:induction false} CutOne(b: seq<nat>, was: seq<nat>, m: nat, longest: nat, symbols: nat, n: int, cost: int)
    requires Cutting(b, was, m, longest, symbols, n, cost) && 0 <= n && b[n] > m
    ensures Cutting(b[n := m], was, m, longest, symbols, n - 1, cost + (Pow2(longest - m) - Pow2(longest - b[n])))
  {
    hide KraftSum, Pow2, Shl;
    KraftUpdate(b, longest, symbols, n, m);
    ShlAdd(symbols - 1 - n, 1, longest - m);
    ShlOne(longest - m);
  }

  lemma {:induction false} CuttingRange(b: seq<nat>, was: seq<nat>, m: nat, longest: nat, symbols: nat, n: int, cost: int)
    requires Cutting(b, was, m, longest, symbols, n, cost)
    ensures |was| == |b| && forall i :: n < i < symbols ==> b[i] == m
  {}

  lemma {:induction false} CutLengths(b: seq<nat>, was: seq<nat>, m: nat, longest: nat, symbols: nat, n: int, cost: int)
    requires Cutting(b, was, m, longest, symbols, n, cost) && (n >= 0 ==> b[n] <= m)
    ensures b[..symbols] == CutTo(was[..symbols], m)
  {
    hide KraftSum, Pow2, Shl;
  }

  /** All codes above the limit have been cut: in units of the limit the debt is a whole number, less
      than the number of codes cut. */
  lemma {:induction false} CutDone(b: seq<nat>, was: seq<nat>, m: nat, longest: nat, symbols: nat, n: int, cost: int) returns (debt: nat)
    requires Cutting(b, was, m, longest, symbols, n, cost) && (n >= 0 ==> b[n] <= m) && cost >= 0
    requires m <= TABLELOG_MAX && symbols <= Pow2(m) && symbols <= START && n < symbols - 1
    ensures Owing(b, m, symbols, debt) && cost == Shl(debt, longest - m) && debt < CountMax(b, m, symbols) && (cost > 0 ==> debt > 0)
  {
    hide KraftSum, Pow2, Shl, Shr, CountMax;
    var k := longest - m;
    KraftScale(b, m, k, symbols);
    var sum := KraftSum(b, m, symbols);
    ShlPow2(m, k);
    if sum < Pow2(m) {
      ShlAdd(sum, Pow2(m) - sum, k);
      ShlMono(1, Pow2(m) - sum, k);
      ShlOne(k);
    }
    debt := sum - Pow2(m);
    ShlAdd(Pow2(m), debt, k);
    ShlOne(k);
    CutCount(b, m, symbols, n);
    if debt >= symbols - 1 - n { ShlMono(symbols - 1 - n, debt, k); }
  }

  lemma {:induction false} CutCount(b: seq<nat>, m: nat, symbols: nat, n: int)
    requires -1 <= n < symbols <= |b| && forall i :: n < i < symbols ==> b[i] == m
    ensures CountMax(b, m, symbols) >= symbols - 1 - n
    decreases symbols
  {
    if n < symbols - 1 { CutCount(b, m, symbols - 1, n); }
  }

  /** What cutting the codes among the first `n` overdraws, in units of the longest code. */
  function CutCost(b: seq<nat>, m: nat, longest: nat, n: nat): int
    requires n <= |b|
  {
    if n == 0 then 0
    else CutCost(b, m, longest, n - 1) + if m < b[n - 1] <= longest then Pow2(longest - m) - Pow2(longest - b[n - 1]) else 0
  }

  lemma {:induction false} CutNothing(b: seq<nat>, m: nat, longest: nat, n: nat)
    requires n <= |b| && forall i :: 0 <= i < n ==> b[i] <= m
    ensures CutCost(b, m, longest, n) == 0
  {
    if n > 0 { CutNothing(b, m, longest, n - 1); }
  }

  lemma {:induction false} CutMore(b: seq<nat>, m: nat, longest: nat, n: nat)
    requires n < |b| && m < b[n] <= longest
    ensures CutCost(b, m, longest, n + 1) == CutCost(b, m, longest, n) + Pow2(longest - m) - Pow2(longest - b[n])
  {}

  /** Conversion to the 32-bit int of the sum. */
  function ToInt32(x: int): int { if x % WORD < WORD / 2 then x % WORD else x % WORD - WORD }

  lemma {:induction false} WrapAdd(x: int, y: int)
    ensures ToInt32(ToInt32(x) + y) == ToInt32(x + y)
  {}

  /** The debt as the 32-bit sum has it, in units of the limit, rounded down. */
  function SeenDebt(b: seq<nat>, n: nat, m: nat): int
    requires 0 < n <= |b| && b[n - 1] >= m
  {
    ToInt32(CutCost(b, m, b[n - 1], n)) / Pow2(b[n - 1] - m)
  }

  /** Lengths up to the limit stay, longer ones become it. */
  function CutTo(b: seq<nat>, m: nat): (c: seq<nat>)
    ensures |c| == |b| && forall i :: 0 <= i < |b| ==> c[i] == if b[i] > m then m else b[i]
  {
    seq(|b|, i requires 0 <= i < |b| => if b[i] > m then m else b[i])
  }

  /** What is left of the debt after the wrapped sum has been scaled: all of it below 2^31, too little beyond. */
  lemma {:induction false} WrappedDebt(debt: nat, k: nat, seen: int)
    requires k <= 30 && seen == ToInt32(Shl(debt, k)) / Pow2(k)
    ensures seen <= debt && -seen <= debt
    ensures seen == debt <==> Shl(debt, k) < WORD / 2
  {
    hide Pow2, Shl;
    var p := Pow2(k);
    PowersOfWord();
    TwicePow2(30);
    Pow2Split(k);
    ShlMul(debt, k);
    var x, y := debt * p, ToInt32(debt * p);
    DivBounds(y, p);
    if x < WORD / 2 {
      SmallMod(x);
      MulDiv(debt, p);
    } else {
      assert y <= x - WORD by { WrapBelow(x); }
      if seen >= debt { MulLe(debt, seen, p); }
      assert (-seen) * p == -(seen * p) && (debt + 1) * p == x + p;
      CancelLess(-seen, debt + 1, p);
    }
  }

  lemma {:induction false} CancelLess(a: int, b: int, p: int)
    requires p > 0 && a * p < b * p
    ensures a < b
  {
    if b <= a { MulLe(b, a, p); }
  }

  lemma {:induction false} MulDiv(a: nat, p: nat)
    requires p > 0
    ensures a * p / p == a
  {
    DivModUnique(a * p, p, a, 0);
  }

  lemma {:induction false} SmallMod(x: int)
    requires 0 <= x < WORD / 2
    ensures ToInt32(x) == x
  {}

  lemma {:induction false} WrapBelow(x: int)
    requires x >= WORD / 2
    ensures ToInt32(x) <= x - WORD && ToInt32(x) >= -WORD / 2
  {}

  /** The floor of a quotient. */
  lemma {:induction false} DivBounds(y: int, p: int)
    requires p > 0
    ensures (y / p) * p <= y < (y / p) * p + p
  {
    assert y == p * (y / p) + y % p;
  }

  lemma {:induction false} PowersOfWord()
    ensures Pow2(30) == 0x4000_0000
  {
    assert Pow2(8) == 256 && Pow2(16) == 65536 && Pow2(24) == 0x100_0000;
  }

  lemma {:induction false} Pow2Split(k: nat)
    requires k <= 30
    ensures Pow2(k) <= Pow2(30)
  {
    Pow2Mono(k, 30);
  }

  /** Codes of just the limit's length are passed over. */
  method PassLimit(nbBits: array<nat>, ghost symbols: nat, m: nat, last0: int) returns (last: int)
    requires symbols <= nbBits.Length && -1 <= last0 < symbols && forall i :: 0 <= i < symbols ==> nbBits[i] <= m
    requires forall i :: last0 < i < symbols ==> nbBits[i] == m
    ensures -1 <= last < symbols && (last >= 0 ==> nbBits[last] < m) && forall i :: last < i < symbols ==> nbBits[i] == m
  {
    last := last0;
    while last >= 0 && nbBits[last] == m
      invariant -1 <= last < symbols && forall i :: last < i < symbols ==> nbBits[i] == m
    {
      last := last - 1;
    }
  }

  /** Codes above the limit are cut, which is charged in 32 bits. */
  method CutCodes(nbBits: array<nat>, symbols: nat, m: nat) returns (last: int, totalCost: int, ghost cost: nat)
    requires 2 <= symbols <= START && symbols <= nbBits.Length && 1 <= m
    requires Sorted(nbBits[..], symbols) && (forall i :: 0 <= i < symbols ==> 1 <= nbBits[i]) && m < nbBits[symbols - 1]
    requires KraftSum(nbBits[..], nbBits[symbols - 1], symbols) == Pow2(nbBits[symbols - 1])
    modifies nbBits
    ensures -1 <= last < symbols - 1 && cost > 0 && (last >= 0 ==> nbBits[last] <= m)
    ensures Cutting(nbBits[..], old(nbBits[..]), m, old(nbBits[symbols - 1]), symbols, last, cost)
    ensures totalCost == ToInt32(cost) && cost == CutCost(old(nbBits[..]), m, old(nbBits[symbols - 1]), symbols)
  {
    hide KraftSum, Pow2, Shl, ToInt32, CutCost;
    var largestBits := nbBits[symbols - 1];
    ghost var was: seq<nat> := nbBits[..];
    totalCost, cost := 0, 0;
    var baseCost := Pow2(largestBits - m);
    last := symbols - 1;
    ShlOne(largestBits - m);
    SmallMod(0);
    while last >= 0 && nbBits[last] > m
      invariant Cutting(nbBits[..], was, m, largestBits, symbols, last, cost)
      invariant totalCost == ToInt32(cost) && cost + CutCost(was, m, largestBits, last + 1) == CutCost(was, m, largestBits, symbols)
      invariant if last == symbols - 1 then nbBits[last] > m else cost > 0
      decreases last
    {
      ghost var b: seq<nat> := nbBits[..];
      CutOne(b, was, m, largestBits, symbols, last, cost);
      CutMore(was, m, largestBits, last);
      Pow2Mono(largestBits - nbBits[last], largestBits - m - 1);
      TwicePow2(largestBits - m - 1);
      WrapAdd(cost, baseCost - Pow2(largestBits - nbBits[last]));
      cost := cost + (baseCost - Pow2(largestBits - nbBits[last]));
      totalCost := ToInt32(totalCost + (baseCost - Pow2(largestBits - nbBits[last])));
      nbBits[last] := m;
      assert nbBits[..] == b[last := m];
      last := last - 1;
    }
    CutNothing(was, m, largestBits, last + 1);
  }

  /** The first phase of setMaxHeight. The sum is kept in 32 bits, so part of the debt may be lost. */
  method CutToLimit(nbBits: array<nat>, symbols: nat, m: nat) returns (last: int, seen: int, ghost debt: nat)
    requires 2 <= symbols <= START && symbols <= nbBits.Length && 1 <= m <= TABLELOG_MAX && symbols <= Pow2(m)
    requires Sorted(nbBits[..], symbols) && (forall i :: 0 <= i < symbols ==> 1 <= nbBits[i]) && m < nbBits[symbols - 1] <= m + 30
    requires KraftSum(nbBits[..], nbBits[symbols - 1], symbols) == Pow2(nbBits[symbols - 1])
    modifies nbBits
    ensures 0 < debt < CountMax(nbBits[..], m, symbols) && Owing(nbBits[..], m, symbols, debt)
    ensures seen <= debt && -seen <= debt
    ensures seen == debt <==> CutCost(old(nbBits[..]), m, old(nbBits[symbols - 1]), symbols) < WORD / 2
    ensures seen == SeenDebt(old(nbBits[..]), symbols, m) && nbBits[..symbols] == CutTo(old(nbBits[..])[..symbols], m)
    ensures -1 <= last < symbols && (last >= 0 ==> nbBits[last] < m) && forall i :: last < i < symbols ==> nbBits[i] == m
  {
    hide KraftSum, Pow2, Shl, Shr, CountMax, Owing, ToInt32, CutCost, Sorted, Cutting, CutTo;
    var largestBits := nbBits[symbols - 1];
    ghost var was: seq<nat> := nbBits[..];
    var totalCost;
    ghost var cost;
    last, totalCost, cost := CutCodes(nbBits, symbols, m);
    ghost var cut: seq<nat> := nbBits[..];
    CuttingRange(cut, was, m, largestBits, symbols, last, cost);
    debt := CutDone(cut, was, m, largestBits, symbols, last, cost);
    CutLengths(cut, was, m, largestBits, symbols, last, cost);
    OwingSizes(cut, m, symbols, debt);
    last := PassLimit(nbBits, symbols, m, last);
    seen := totalCost / Pow2(largestBits - m);
    WrappedDebt(debt, largestBits - m, seen);
  }

  /** The positions of the last symbols, rank by rank. */
  method FillRanks(rankLast: array<nat>, nbBits: array<nat>, ghost symbols: nat, m: nat, last: int)
    requires rankLast != nbBits && rankLast.Length == TABLELOG_MAX + 2 && symbols <= START && symbols <= nbBits.Length
    requires Sorted(nbBits[..], symbols) && 1 <= m <= TABLELOG_MAX && forall i :: 0 <= i < symbols ==> 1 <= nbBits[i] <= m
    requires -1 <= last < symbols && (last >= 0 ==> nbBits[last] < m) && forall i :: last < i < symbols ==> nbBits[i] == m
    modifies rankLast
    ensures Ranks(rankLast[..], nbBits[..], m, symbols)
  {
    ghost var b: seq<nat> := nbBits[..];
    forall r | 0 <= r < rankLast.Length { rankLast[r] := NO_SYMBOL; }
    assert nbBits[..] == b;
    var current := m;
    var pos := last;
    while pos >= 0
      invariant -1 <= pos <= last && current <= m && nbBits[..] == b
      invariant forall i :: 0 <= i <= pos ==> b[i] <= current
      invariant forall i :: pos < i < symbols ==> current <= b[i]
      invariant current < m ==> pos < last
      invariant forall r :: 1 <= r < rankLast.Length ==>
        if current + r <= m then RankLast(rankLast[r], b, m, symbols, r) else rankLast[r] == NO_SYMBOL
    {
      if nbBits[pos] < current {
        current := nbBits[pos];
        rankLast[m - current] := pos;
      }
      pos := pos - 1;
    }
  }

  // ---------------------------------------------------------------- setMaxHeight

  /** Sorted code lengths from 1 to `limit`, the last one exactly `limit`, that fill the code space. */
  ghost predicate Complete(b: seq<nat>, n: nat, limit: nat) {
    && 2 <= n <= |b| && Sorted(b, n) && (forall i :: 0 <= i < n ==> 1 <= b[i] <= limit) && b[n - 1] == limit
    && KraftSum(b, limit, n) == Pow2(limit)
  }

  /** The same, but for `gap` by which the code space is overdrawn. */
  ghost predicate Overdrawn(b: seq<nat>, n: nat, limit: nat, gap: nat) {
    && 2 <= n <= |b| && Sorted(b, n) && (forall i :: 0 <= i < n ==> 1 <= b[i] <= limit) && b[n - 1] == limit
    && KraftSum(b, limit, n) == Pow2(limit) + gap
  }

  /** A shift of the int 1 by 31 or more places is undefined. */
  datatype Limited = Limit(bits: nat) | UndefinedShift

  /** Cutting overdraws less than 2^31 units of the longest code. */
  ghost predicate CutFits(b: seq<nat>, n: nat, m: nat)
    requires 0 < n <= |b|
  {
    b[n - 1] <= m || CutCost(b, m, b[n - 1], n) < WORD / 2
  }

  /** The lengths that a tree's lengths for these frequencies are limited to. */
  ghost predicate LimitedTo(tree: seq<nat>, count: seq<nat>, m: nat, c: seq<nat>) {
    && 0 < |count| <= |tree|
    && var t := tree[..|count|];
       if t[|t| - 1] <= m then c == t else Repaid(CutTo(t, m), SeenDebt(t, |t|, m), count, m, c)
  }

  lemma {:induction false} SeenFront(b: seq<nat>, n: nat, m: nat)
    requires 0 < n <= |b| && b[n - 1] >= m
    ensures SeenDebt(b[..n], n, m) == SeenDebt(b, n, m)
  {
    hide CutCost, Pow2, ToInt32;
    CutFront(b, b[..n], m, b[n - 1], n);
  }

  lemma {:induction false} CutFront(b: seq<nat>, c: seq<nat>, m: nat, longest: nat, n: nat)
    requires n <= |b| && n <= |c| && forall i :: 0 <= i < n ==> b[i] == c[i]
    ensures CutCost(b, m, longest, n) == CutCost(c, m, longest, n)
  {
    hide Pow2;
    if n > 0 { CutFront(b, c, m, longest, n - 1); }
  }

  /** There is one way only. */
  lemma {:induction false} LimitedIsUnique(tree: seq<nat>, count: seq<nat>, m: nat, c: seq<nat>, d: seq<nat>)
    requires LimitedTo(tree, count, m, c) && LimitedTo(tree, count, m, d)
    ensures c == d
  {
    hide Repaid;
    var t := tree[..|count|];
    if t[|t| - 1] > m { RepaidIsUnique(CutTo(t, m), SeenDebt(t, |t|, m), count, m, c, d); }
  }

  /** PBC_HUF_setMaxHeight. `count` are the symbols' frequencies, which only guide which codes are
      lengthened. The result is the length of the longest code. The code space is filled exactly if and only if the cost
      of the cut is below 2^31. */
  method SetMaxHeight(nbBits: array<nat>, count: seq<nat>, maxNbBits: nat) returns (r: Limited, ghost gap: nat)
    requires |count| <= START && 1 <= maxNbBits <= TABLELOG_MAX && |count| <= Pow2(maxNbBits)
    requires 2 <= |count| <= nbBits.Length && Complete(nbBits[..], |count|, nbBits[|count| - 1])
    modifies nbBits
    ensures r == UndefinedShift <==> old(nbBits[|count| - 1]) > maxNbBits + 30
    ensures r.Limit? ==> r.bits == if old(nbBits[|count| - 1]) <= maxNbBits then old(nbBits[|count| - 1]) else maxNbBits
    ensures r.Limit? ==> Overdrawn(nbBits[..], |count|, r.bits, gap)
    ensures r.Limit? && gap == 0 <==> old(CutFits(nbBits[..], |count|, maxNbBits))
    ensures old(nbBits[|count| - 1]) <= maxNbBits ==> nbBits[..] == old(nbBits[..])
    ensures r.Limit? ==> LimitedTo(old(nbBits[..]), count, maxNbBits, nbBits[..|count|])
  {
    hide KraftSum, CountMax, Owing, Ranks, Pow2, SeenDebt, Rounds, GivenBack, CutTo, Sorted, RankLast;
    ghost var tree: seq<nat> := nbBits[..];
    var symbols := |count|;
    var largestBits := nbBits[symbols - 1];
    gap := 0;
    if largestBits <= maxNbBits { return Limit(largestBits), gap; }
    if largestBits - maxNbBits > 30 {
      DeepCutCosts(nbBits[..], symbols, maxNbBits);
      return UndefinedShift, gap;
    }
    ghost var owed;
    var last, debt: int;
    last, debt, owed := CutToLimit(nbBits, symbols, maxNbBits);
    gap := owed - debt;
    ghost var cut: seq<nat> := nbBits[..];
    OwingSizes(cut, maxNbBits, symbols, owed);
    ghost var below := SomeShorter(cut, maxNbBits, symbols, owed);
    var rankLast := new nat[TABLELOG_MAX + 2];
    FillRanks(rankLast, nbBits, symbols, maxNbBits, last);
    ghost var run;
    debt, below, run := Repay(nbBits, rankLast, count, debt, maxNbBits, last, gap, below);
    RankOneKnown(rankLast[..], nbBits[..], maxNbBits, symbols);
    GiveBack(nbBits, rankLast, symbols, debt, maxNbBits, last, below, gap);
    LongestIsLast(nbBits[..], maxNbBits, symbols, gap);
    SeenFront(tree, symbols, maxNbBits);
    assert RepaidBy(run, CutTo(tree[..symbols], maxNbBits), SeenDebt(tree[..symbols], symbols, maxNbBits), count, maxNbBits, nbBits[..symbols]);
    r := Limit(maxNbBits);
  }

  /** When space is owed some code is below the limit. */
  lemma {:induction false} SomeShorter(b: seq<nat>, m: nat, n: nat, debt: int) returns (i: nat)
    requires Owing(b, m, n, debt) && debt > 0
    ensures i < n && b[i] < m
  {
    AllMax(b, m, n);
    i :| 0 <= i < n && b[i] != m;
  }

  /** Cutting a code that is 31 bits too long already costs 2^31. */
  lemma {:induction false} DeepCutCosts(b: seq<nat>, n: nat, m: nat)
    requires 2 <= n <= |b| && n <= START && 1 <= m <= TABLELOG_MAX && n <= Pow2(m) && Complete(b, n, b[n - 1]) && b[n - 1] > m + 30
    ensures !CutFits(b, n, m)
  {
    hide KraftSum, Pow2;
    var cut := CutAll(b, n, m, n);
    PowersOfWord();
    TwicePow2(30);
    Pow2Mono(31, b[n - 1] - m);
    var longest := b[n - 1];
    KraftScale(cut, m, longest - m, n);
    ShlPow2(m, longest - m);
    var sum := KraftSum(cut, m, n);
    CutCostPositive(b, n, m);
    if sum <= Pow2(m) {
      ShlMono(sum, Pow2(m), longest - m);
    } else {
      ShlMono(Pow2(m) + 1, sum, longest - m);
      ShlAdd(Pow2(m), 1, longest - m);
      ShlOne(longest - m);
    }
  }

  /** All codes among the first `k` cut to the limit. */
  lemma {:induction false} CutAll(b: seq<nat>, n: nat, m: nat, k: nat) returns (c: seq<nat>)
    requires k <= n <= |b| && 0 < n && Sorted(b, n) && b[n - 1] >= m
    ensures |c| == |b| && (forall i :: 0 <= i < k ==> c[i] == if b[i] > m then m else b[i]) && forall i :: k <= i < n ==> c[i] == b[i]
    ensures KraftSum(c, b[n - 1], n) == KraftSum(b, b[n - 1], n) + CutCost(b, m, b[n - 1], k)
  {
    hide KraftSum, Pow2;
    if k == 0 {
      c := b;
    } else {
      c := CutAll(b, n, m, k - 1);
      if b[k - 1] > m {
        KraftUpdate(c, b[n - 1], n, k - 1, m);
        c := c[k - 1 := m];
      }
    }
  }

  lemma {:induction false} CutCostPositive(b: seq<nat>, n: nat, m: nat)
    requires 0 < n <= |b| && b[n - 1] > m && Sorted(b, n)
    ensures CutCost(b, m, b[n - 1], n) > 0
  {
    CutCostNat(b, n - 1, m, b[n - 1]);
    TwicePow2(b[n - 1] - m - 1);
  }

  lemma {:induction false} CutCostNat(b: seq<nat>, n: nat, m: nat, longest: nat)
    requires n <= |b|
    ensures CutCost(b, m, longest, n) >= 0
  {
    hide Pow2;
    if n > 0 {
      CutCostNat(b, n - 1, m, longest);
      if m < b[n - 1] <= longest { Pow2Mono(longest - b[n - 1], longest - m); }
    }
  }

  lemma {:induction false} RankOneKnown(rl: seq<nat>, b: seq<nat>, m: nat, n: nat)
    requires n <= |b| && Ranks(rl, b, m, n)
    ensures |rl| > 1 && RankLast(rl[1], b, m, n, 1)
  {}

  lemma {:induction false} LongestIsLast(b: seq<nat>, m: nat, n: nat, gap: nat)
    requires Owing(b, m, n, gap) && 0 < CountMax(b, m, n)
    ensures Overdrawn(b, n, m, gap)
  {
    hide KraftSum, Pow2;
    if b[n - 1] < m { NoMax(b, m, n); }
  }

  /** Lengths of a whole code book: the tree's, limited. As long as the limit is not reached no prefix code for these
      frequencies is shorter. The lengths are right if and only if cutting the tree's costs less than 2^31, and it does
      when the frequencies add up to less than the Fibonacci number of the limit plus 26. */
  method LimitedLengths(count: array<nat>, parent: array<nat>, nbBits: array<nat>, freq: seq<nat>, maxNbBits: nat)
    returns (r: Limited, ghost tree: seq<nat>, ghost gap: nat)
    requires count != parent && count != nbBits && parent != nbBits
    requires count.Length == NODES + 1 && parent.Length == NODES && nbBits.Length == NODES && 2 <= |freq| <= START
    requires count[1..|freq| + 1] == freq && Sum(count[..], 1, |freq| + 1) < NOT_YET && forall c :: 0 <= c < NODES ==> parent[c] == 0
    requires 1 <= maxNbBits <= TABLELOG_MAX && |freq| <= Pow2(maxNbBits)
    requires forall i, j :: 0 <= i <= j < |freq| ==> freq[i] >= freq[j]
    modifies count, parent, nbBits
    ensures HuffmanDepths(freq, Sum(old(count[..]), 1, |freq| + 1), tree)
    ensures |tree| == NODES && Complete(tree, |freq|, tree[|freq| - 1])
    ensures r.Limit? && gap == 0 <==> CutFits(tree, |freq|, maxNbBits)
    ensures r == UndefinedShift <==> tree[|freq| - 1] > maxNbBits + 30
    ensures r.Limit? && tree[|freq| - 1] > maxNbBits ==> r.bits == maxNbBits
    ensures tree[|freq| - 1] <= maxNbBits ==> r == Limit(tree[|freq| - 1]) && nbBits[..] == tree
    ensures r.Limit? ==> r.bits <= maxNbBits && Overdrawn(nbBits[..], |freq|, r.bits, gap)
    ensures r.Limit? ==> LimitedTo(tree, freq, maxNbBits, nbBits[..|freq|])
    ensures r.Limit? && r.bits < maxNbBits ==> gap == 0 && Cheapest(freq, nbBits[..], |freq|)
    ensures (forall i :: 0 <= i < |freq| ==> freq[i] >= 1) && Sum(old(count[..]), 1, |freq| + 1) < Fib(maxNbBits + 26) ==> r.Limit? && gap == 0
  {
    hide KraftSum, Pow2, Sum, TotalBits, Cheapest, CutFits, Fib, CutCost, HuffmanDepths, LimitedTo;
    var n := |freq|;
    ghost var w: seq<nat>, total: nat := count[1..], Sum(count[..], 1, n + 1);
    forall i | 1 <= i <= n ensures count[i] == freq[i - 1] { assert count[1..n + 1][i - 1] == freq[i - 1]; }
    CodeLengths(count, parent, nbBits, n);
    tree := nbBits[..];
    SameCheapest(freq, w, tree, n);
    if (forall i :: 0 <= i < n ==> freq[i] >= 1) && total < Fib(maxNbBits + 26) { ShallowFits(freq, total, tree, maxNbBits); }
    NotCut(tree, n, maxNbBits);
    r, gap := SetMaxHeight(nbBits, freq, maxNbBits);
  }

  lemma {:induction false} NotCut(tree: seq<nat>, n: nat, m: nat)
    requires 0 < n <= |tree|
    ensures tree[n - 1] <= m ==> CutFits(tree, n, m)
  {}

  lemma {:induction false} CutCostBound(b: seq<nat>, m: nat, longest: nat, n: nat)
    requires n <= |b| && m <= longest
    ensures CutCost(b, m, longest, n) <= n * (Pow2(longest - m) - 1)
  {
    hide Pow2;
    if n > 0 {
      CutCostBound(b, m, longest, n - 1);
      assert n * (Pow2(longest - m) - 1) == (n - 1) * (Pow2(longest - m) - 1) + (Pow2(longest - m) - 1);
    }
  }

  /** Light trees are not deep enough for the sum to wrap around: at most 256 codes are cut by at most 23 bits. */
  lemma {:induction false} ShallowFits(freq: seq<nat>, total: nat, tree: seq<nat>, m: nat)
    requires HuffmanDepths(freq, total, tree) && (forall i :: 0 <= i < |freq| ==> freq[i] >= 1) && 2 <= |freq| <= START
    requires |freq| <= |tree| && total < Fib(m + 26)
    ensures CutFits(tree, |freq|, m)
  {
    hide Fib, Pow2, CutCost, HuffmanDepths;
    var n := |freq|;
    DepthBound(freq, total, tree, n - 1);
    if tree[n - 1] + 2 >= m + 26 { FibMono(m + 26, tree[n - 1] + 2); }
    if tree[n - 1] > m {
      var k := tree[n - 1] - m;
      CutCostBound(tree, m, tree[n - 1], n);
      Pow2Mono(k, 23);
      PowersOfWord();
      TwentyThree();
      MulLe(n, 256, Pow2(k) - 1);
    }
  }

  lemma {:induction false} TwentyThree()
    ensures Pow2(23) == 0x80_0000
  {
    assert Pow2(8) == 256 && Pow2(16) == 65536;
  }

  /** A text of at most 128 KiB is not long enough to make the sum wrap around. */
  lemma {:induction false} BlockIsLight(total: nat, m: nat)
    requires total <= 131_072 && m >= 1
    ensures total < Fib(m + 26)
  {
    hide Fib;
    SomeFib();
    FibMono(27, m + 26);
  }

  // ---------------------------------------------------------------- a tree whose cut does not fit

  /** The cost of cutting the lengths 1, 2, ..., n - 1, n - 1 by up to `k` bits. */
  lemma {:induction false} FibonacciCut(d: seq<nat>, n: nat, m: nat, j: nat)
    requires 2 <= n <= |d| && m < n - 1 && m <= j <= n - 1 && forall r :: 0 <= r < n ==> d[r] == if r == n - 1 then n - 1 else r + 1
    ensures CutCost(d, m, n - 1, j) == (j - m) * Pow2(n - 1 - m) - Pow2(n - 1 - m) + Pow2(n - 1 - j)
  {
    hide Pow2;
    if j == m {
      CutNothing(d, m, n - 1, m);
    } else {
      FibonacciCut(d, n, m, j - 1);
      TwicePow2(n - 1 - j);
      assert (j - m) * Pow2(n - 1 - m) == (j - 1 - m) * Pow2(n - 1 - m) + Pow2(n - 1 - m);
    }
  }

  /** For Fibonacci frequencies the cut fits if and only if `k` times `2^k` is below 2^31. */
  lemma {:induction false} FibonacciFits(freq: seq<nat>, total: nat, tree: seq<nat>, m: nat)
    requires HuffmanDepths(freq, total, tree) && FibonacciWeights(freq, |freq|) && 2 <= |freq| <= START && m < |freq| - 1
    ensures |freq| <= |tree| && (CutFits(tree, |freq|, m) <==> (|freq| - 1 - m) * Pow2(|freq| - 1 - m) < WORD / 2)
  {
    hide Fib, Pow2, HuffmanDepths;
    var n := |freq|;
    FibonacciLengths(freq, total, tree);
    FibonacciCut(tree, n, m, n - 1);
    NoPower();
  }

  lemma {:induction false} NoPower()
    ensures Pow2(0) == 1
  {}

  /** The numbers from `Fib(n)` down to `Fib(1)`, shifted by one place. */
  function Fibonaccis(n: nat): (freq: seq<nat>)
    ensures |freq| == n && forall r :: 0 <= r < n ==> freq[r] == Fib(n - r)
  {
    seq(n, r requires 0 <= r < n => Fib(n - r))
  }

  lemma {:induction false} FibonacciSum(c: seq<nat>, n: nat, k: nat)
    requires k <= n && n + 1 <= |c| && forall i :: 1 <= i <= n ==> c[i] == Fib(n + 1 - i)
    ensures Sum(c, n + 1 - k, n + 1) == Fib(k + 2) - 1 && Fib(k + 2) >= 1
  {
    hide Fib;
    if k == 0 {
      SmallFib();
    } else {
      FibonacciSum(c, n, k - 1);
      SumFirst(c, n + 1 - k, n + 1);
      FibNext(k);
    }
  }

  /** The frequencies are in order and not too large for the barriers. */
  lemma {:induction false} FibonaccisReady(c: seq<nat>, freq: seq<nat>)
    requires freq == Fibonaccis(41) && |c| == NODES + 1 && forall i :: 1 <= i <= 41 ==> c[i] == freq[i - 1]
    ensures c[1..42] == freq && Sum(c, 1, 42) == 433494436 && forall i, j :: 0 <= i <= j < 41 ==> freq[i] >= freq[j]
    ensures FibonacciWeights(freq, 41)
  {
    hide Fib, Sum;
    FibonacciSum(c, 41, 41);
    SomeFib();
    forall i, j | 0 <= i <= j < 41 ensures freq[i] >= freq[j] { FibMono(41 - j, 41 - i); }
  }

  lemma {:induction false} FibonacciDeep(freq: seq<nat>, total: nat, tree: seq<nat>)
    requires HuffmanDepths(freq, total, tree) && FibonacciWeights(freq, 41) && |freq| == 41
    ensures |tree| == NODES && tree[40] == 40 && !CutFits(tree, 41, 12)
  {
    hide Fib, Pow2, HuffmanDepths, CutFits, CutCost;
    TwelveBits();
    FibonacciFits(freq, total, tree, 12);
    FibonacciLengths(freq, total, tree);
  }

  /** Forty-one symbols with the first Fibonacci numbers as frequencies, 433494436 in all, and codes of at most twelve
      bits: the lengths that come out overdraw the code space. */
  method FibonacciOverdraws() returns (nbBits: array<nat>, r: Limited, ghost gap: nat)
    ensures fresh(nbBits) && r == Limit(12) && gap > 0 && Overdrawn(nbBits[..], 41, 12, gap)
  {
    hide Fib, Pow2, Sum, KraftSum, HuffmanDepths, CutFits, Cheapest, CutCost, Complete, Overdrawn, FibonacciWeights, Fibonaccis;
    var freq := Fibonaccis(41);
    var count := new nat[NODES + 1](i => if 1 <= i <= 41 then freq[i - 1] else 0);
    var parent := new nat[NODES](_ => 0);
    nbBits := new nat[NODES](_ => 0);
    FibonaccisReady(count[..], freq);
    TwelveBits();
    ghost var total := Sum(count[..], 1, 42);
    ghost var tree;
    r, tree, gap := LimitedLengths(count, parent, nbBits, freq, 12);
    FibonacciDeep(freq, total, tree);
  }

  lemma {:induction false} TwelveBits()
    ensures Pow2(12) == 4096 && Pow2(28) == 0x1000_0000
  {
    assert Pow2(4) == 16 && Pow2(8) == 256 && Pow2(16) == 65536 && Pow2(20) == 0x10_0000 && Pow2(24) == 0x100_0000;
  }

  lemma {:induction false} SameCheapest(v: seq<nat>, w: seq<nat>, d: seq<nat>, n: nat)
    requires n <= |v| && n <= |w| && n <= |d| && (forall i :: 0 <= i < n ==> v[i] == w[i]) && Cheapest(w, d, n)
    ensures Cheapest(v, d, n)
  {
    hide TotalBits, KraftSum;
    forall e: seq<nat>, m: nat {:trigger KraftSum(e, m, n)}
      | n <= |e| && (forall i :: 0 <= i < n ==> e[i] <= m) && KraftSum(e, m, n) <= Pow2(m)
      ensures TotalBits(v, d, n) <= TotalBits(v, e, n)
    {
      SameCounts(v, w, d, n);
      SameCounts(v, w, e, n);
    }
  }
}
