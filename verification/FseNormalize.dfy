/** Normalizing symbol counts to a power of two: whenever a table size is returned, the normalized
    counts are exactly what the table builders need. */
module FseNormalize {
  import opened Powers
  import opened FseTables
  import opened FseShares

  const DEFAULT_TABLELOG: nat := 11
  /** 2^62 and 2^31 */
  const WHOLE: nat := 0x4000_0000_0000_0000
  const TOTAL_LIMIT: nat := 0x8000_0000
  const NOT_YET_ASSIGNED := -2

  const RTB_TABLE: seq<nat> := [0, 473195, 504333, 520860, 550000, 700000, 750000, 830000]

  function Sum(count: seq<nat>): nat {
    if count == [] then 0 else Sum(count[..|count| - 1]) + count[|count| - 1]
  }

  /** Smallest table size that represents a distribution safely. */
  function MinTableLog(srcSize: nat, maxSymbolValue: nat): nat
    requires srcSize > 1 && maxSymbolValue > 0
  {
    var minBitsSrc := HighBit(srcSize) + 1;
    var minBitsSymbols := HighBit(maxSymbolValue) + 2;
    if minBitsSrc < minBitsSymbols then minBitsSrc else minBitsSymbols
  }

  /** What the caller supplies. */
  ghost predicate Counted(count: seq<nat>, total: nat) {
    2 <= |count| <= MAX_SYMBOL_VALUE + 1 && total == Sum(count) && 1 < total < TOTAL_LIMIT
  }

  ghost predicate SafeLog(count: seq<nat>, total: nat, tableLog: nat)
    requires Counted(count, total)
  {
    MIN_TABLELOG <= tableLog <= MAX_TABLELOG && MinTableLog(total, |count| - 1) <= tableLog
  }

  // ---------------------------------------------------------------- arithmetic of the scaling

  lemma {:induction false} WholeSplit(tableLog: nat)
    requires tableLog <= MAX_TABLELOG
    ensures Pow2(tableLog) * Pow2(62 - tableLog) == WHOLE
    ensures Pow2(62 - tableLog) >= 0x4_0000_0000_0000
  {
    ShlMul(Pow2(tableLog), 62 - tableLog);
    ShlPow2(tableLog, 62 - tableLog);
    Power62();
    Pow2Mono(50, 62 - tableLog);
  }

  /** A count above the low threshold is scaled to at least one cell, and none to more than all. */
  lemma {:induction false} ScaledRange(count: nat, total: nat, tableLog: nat)
    requires count <= total && 1 < total < TOTAL_LIMIT && tableLog <= MAX_TABLELOG
    requires count > Shr(total, tableLog)
    ensures 1 <= Shr(count * (WHOLE / total), 62 - tableLog) <= Pow2(tableLog)
  {
    hide Pow2, Shr;
    WholeSplit(tableLog);
    ShiftMeaning(total, tableLog);
    ScaledWithin(count, total, Pow2(tableLog), Pow2(62 - tableLog));
    ShrWithin(count * (WHOLE / total), 62 - tableLog, Pow2(tableLog));
  }

  lemma {:induction false} ShrWithin(v: nat, n: nat, p: nat)
    requires Pow2(n) <= v <= p * Pow2(n)
    ensures 1 <= Shr(v, n) <= p
  {
    hide Pow2, Shr;
    ShiftMeaning(v, n);
    QuotientRange(v, Pow2(n), p);
  }

  lemma {:induction false} ScaledWithin(count: nat, total: nat, p: nat, s: nat)
    requires p > 0 && s > 0 && p * s == WHOLE && count <= total && 1 < total < TOTAL_LIMIT
    requires count > total / p
    ensures s <= count * (WHOLE / total) <= p * s
  {
    var step := WHOLE / total;
    AboveThreshold(count, total, p);
    AtLeastOne(count, total, p, s, step);
    MulLe(count, total, step);
    assert total * step <= WHOLE;
  }

  lemma {:induction false} AboveThreshold(count: nat, total: nat, p: nat)
    requires p > 0 && count > total / p
    ensures count * p >= total + 1
  {
    MulLe(total / p + 1, count, p);
    assert total == (total / p) * p + total % p;
  }

  lemma {:induction false} AtLeastOne(count: nat, total: nat, p: nat, s: nat, step: nat)
    requires p > 0 && s > 0 && p * s == WHOLE && 1 < total < TOTAL_LIMIT && step == WHOLE / total
    requires count * p >= total + 1
    ensures count * step >= s
  {
    assert step * total == WHOLE - WHOLE % total;
    SquareBound(total);
    CancelMul(total, step + 1, total);
    MulLe(total + 1, count * p, step);
    assert (total + 1) * step == step * total + step;
    assert (count * p) * step == (count * step) * p;
    CancelMul(s, count * step, p);
  }

  lemma {:induction false} CancelMul(a: nat, b: nat, c: nat)
    requires c > 0 && a * c <= b * c
    ensures a <= b
  {
    if b < a { MulLe(b + 1, a, c); }
  }

  lemma {:induction false} SquareBound(total: nat)
    requires total < TOTAL_LIMIT
    ensures total * total < WHOLE
  {
    MulLe(total, TOTAL_LIMIT - 1, total);
    MulLe(total, TOTAL_LIMIT - 1, TOTAL_LIMIT - 1);
  }

  lemma {:induction false} QuotientRange(v: nat, s: nat, p: nat)
    requires s > 0 && s <= v <= p * s
    ensures 1 <= v / s <= p
  {
    var q := v / s;
    assert v == q * s + v % s;
    if q > p { MulLe(p + 1, q, s); }
  }

  // ---------------------------------------------------------------- why some symbol is not low

  lemma {:induction false} SumBound(count: seq<nat>, b: nat)
    requires forall s :: 0 <= s < |count| ==> count[s] <= b
    ensures Sum(count) <= |count| * b
  {
    if count != [] {
      SumBound(count[..|count| - 1], b);
      assert |count| * b == (|count| - 1) * b + b;
    }
  }

  lemma {:induction false} SumEntry(count: seq<nat>, s: nat)
    requires s < |count|
    ensures count[s] <= Sum(count)
  {
    if s < |count| - 1 { SumEntry(count[..|count| - 1], s); }
  }

  function Present(count: seq<nat>): (n: nat)
    ensures n <= |count|
  {
    if count == [] then 0 else Present(count[..|count| - 1]) + if count[|count| - 1] > 0 then 1 else 0
  }

  lemma {:induction false} PresentBound(count: seq<nat>)
    ensures Present(count) <= Sum(count)
  {
    if count != [] { PresentBound(count[..|count| - 1]); }
  }

  /** The minimal table size leaves more cells than present symbols, and the symbols together have
      more than they would if all were low. */
  lemma {:induction false} EnoughCells(count: seq<nat>, total: nat, tableLog: nat)
    requires Counted(count, total) && SafeLog(count, total, tableLog)
    ensures Present(count) < Pow2(tableLog)
    ensures |count| * Shr(total, tableLog) < total
  {
    hide Pow2, Shr, Sum, Present, HighBit;
    PresentBound(count);
    var n := |count|;
    ShiftMeaning(total, tableLog);
    if HighBit(total) + 1 <= tableLog {
      Pow2Mono(HighBit(total) + 1, tableLog);
      LowSmall(total, tableLog);
    } else {
      Pow2Mono(HighBit(n - 1) + 2, tableLog);
      TwicePow2(HighBit(n - 1) + 1);
      LowShare(n, total, Pow2(tableLog));
    }
  }

  lemma {:induction false} LowShare(n: nat, total: nat, p: nat)
    requires 0 < 2 * n <= p && 0 < total
    ensures n * (total / p) < total
  {
    var low := total / p;
    MulLe(2 * n, p, low);
    assert total == p * low + total % p;
    assert 2 * (n * low) == (2 * n) * low;
  }

  /** Some symbol lies above the low threshold. */
  lemma {:induction false} SomeHigh(count: seq<nat>, total: nat, tableLog: nat) returns (m: nat)
    requires Counted(count, total) && SafeLog(count, total, tableLog)
    ensures m < |count| && count[m] > Shr(total, tableLog)
  {
    hide Pow2, Shr, Sum, SafeLog;
    EnoughCells(count, total, tableLog);
    var low := Shr(total, tableLog);
    if forall s :: 0 <= s < |count| ==> count[s] <= low {
      SumBound(count, low);
    }
    m :| 0 <= m < |count| && count[m] > low;
  }

  // ---------------------------------------------------------------- the normalized counts

  /** Cells of the assigned symbols, and counts of the unassigned ones. */
  function Assigned(norm: seq<int>): nat {
    if norm == [] then 0
    else Assigned(norm[..|norm| - 1]) + if norm[|norm| - 1] == NOT_YET_ASSIGNED then 0 else Cells(norm[|norm| - 1])
  }

  function Rest(norm: seq<int>, count: seq<nat>): nat
    requires |norm| == |count|
  {
    if norm == [] then 0
    else
      Rest(norm[..|norm| - 1], count[..|count| - 1]) +
      if norm[|norm| - 1] == NOT_YET_ASSIGNED then count[|count| - 1] else 0
  }

  function Weight(n: int): nat { if n == NOT_YET_ASSIGNED then 0 else Cells(n) }

  function Waiting(n: int, c: nat): nat { if n == NOT_YET_ASSIGNED then c else 0 }

  lemma {:induction false} AssignedUpdate(norm: seq<int>, s: nat, n: int)
    requires s < |norm|
    ensures Assigned(norm[s := n]) == Assigned(norm) - Weight(norm[s]) + Weight(n)
    ensures Assigned(norm) >= Weight(norm[s])
  {
    var k := |norm| - 1;
    if s < k {
      AssignedUpdate(norm[..k], s, n);
      assert norm[s := n][..k] == norm[..k][s := n];
    } else {
      assert norm[s := n][..k] == norm[..k];
    }
  }

  lemma {:induction false} RestUpdate(norm: seq<int>, count: seq<nat>, s: nat, n: int)
    requires s < |norm| == |count|
    ensures Rest(norm[s := n], count) == Rest(norm, count) - Waiting(norm[s], count[s]) + Waiting(n, count[s])
    ensures Rest(norm, count) >= Waiting(norm[s], count[s])
  {
    var k := |norm| - 1;
    if s < k {
      RestUpdate(norm[..k], count[..k], s, n);
      assert norm[s := n][..k] == norm[..k][s := n];
    } else {
      assert norm[s := n][..k] == norm[..k];
    }
  }

  lemma {:induction false} AssignedIsBase(norm: seq<int>, k: nat)
    requires k <= |norm| && forall s :: 0 <= s < |norm| ==> norm[s] != NOT_YET_ASSIGNED
    ensures Assigned(norm[..k]) == Base(norm, k)
  {
    if k > 0 {
      AssignedIsBase(norm, k - 1);
      assert norm[..k][..k - 1] == norm[..k - 1];
    }
  }

  /** What a successful normalization has produced. */
  ghost predicate Normalized(norm: seq<int>, count: seq<nat>, tableLog: nat) {
    && |norm| == |count|
    && (forall s :: 0 <= s < |norm| ==> -1 <= norm[s] && (norm[s] == 0 <==> count[s] == 0))
    && Base(norm, |norm|) == Pow2(tableLog)
  }

  /** With at least two symbols present, none owns the whole table, so the tables can be built. */
  lemma {:induction false} NormalizedIsValid(norm: seq<int>, count: seq<nat>, tableLog: nat, s1: nat, s2: nat)
    requires Normalized(norm, count, tableLog)
    requires MIN_TABLELOG <= tableLog <= MAX_TABLELOG && 1 <= |norm| <= MAX_SYMBOL_VALUE + 1
    requires s1 < s2 < |count| && count[s1] > 0 && count[s2] > 0
    ensures ValidNorm(norm, tableLog)
  {
    hide Pow2;
    forall s | 0 <= s < |norm| ensures norm[s] < Pow2(tableLog) {
      var a, b := if s == s1 then s else s1, if s == s1 then s2 else s;
      if s < s1 { TwoShares(norm, s, s1); } else { TwoShares(norm, s1, if s == s1 then s2 else s); }
    }
  }

  lemma {:induction false} TwoShares(norm: seq<int>, a: nat, b: nat)
    requires a < b < |norm|
    ensures Cells(norm[a]) + Cells(norm[b]) <= Base(norm, |norm|)
  {
    CountsMono(norm, 0, a);
    CountsMono(norm, a + 1, b);
    CountsMono(norm, b + 1, |norm|);
  }

  // ---------------------------------------------------------------- secondary method

  /** While the secondary method runs: present symbols are at one cell or still waiting. */
  ghost predicate Sorted1(n: int, c: nat, lowThreshold: nat) {
    if c == 0 then n == 0 else n == 1 || n == NOT_YET_ASSIGNED || (n == -1 && c <= lowThreshold)
  }

  ghost predicate Sharing(norm: seq<int>, count: seq<nat>, lowThreshold: nat, distributed: nat, total: int) {
    && |norm| == |count|
    && (forall s :: 0 <= s < |norm| ==> Sorted1(norm[s], count[s], lowThreshold))
    && distributed == Assigned(norm) && total == Rest(norm, count)
  }

  /** Symbols still waiting have more than `limit`. */
  ghost predicate WaitingAbove(norm: seq<int>, count: seq<nat>, limit: int)
    requires |norm| == |count|
  {
    forall s :: 0 <= s < |norm| && norm[s] == NOT_YET_ASSIGNED ==> count[s] > limit
  }

  lemma {:induction false} SharingPresent(norm: seq<int>, count: seq<nat>, lowThreshold: nat)
    requires |norm| == |count| && forall s :: 0 <= s < |norm| ==> Sorted1(norm[s], count[s], lowThreshold)
    ensures Assigned(norm) <= Present(count)
  {
    if norm != [] { SharingPresent(norm[..|norm| - 1], count[..|norm| - 1], lowThreshold); }
  }

  /** The state between the passes: symbols up to the limit have their cell, the others wait. */
  ghost predicate Given(norm: seq<int>, count: seq<nat>, low: nat, limit: nat) {
    |norm| == |count| && forall s :: 0 <= s < |count| ==> norm[s] == if count[s] > limit then NOT_YET_ASSIGNED else Single(count[s], low)
  }

  lemma {:induction false} GivenSums(norm: seq<int>, count: seq<nat>, low: nat, limit: nat)
    requires Given(norm, count, low, limit)
    ensures Assigned(norm) == Singles(count, limit) && Rest(norm, count) == Above(count, limit)
  {
    if norm != [] { GivenSums(norm[..|norm| - 1], count[..|count| - 1], low, limit); }
  }

  /** First pass: low symbols get their one cell. */
  method ShareLow(norm: array<int>, count: seq<nat>, total0: nat, lowThreshold: nat, lowOne: nat)
    returns (distributed: nat, total: nat)
    requires norm.Length == |count| && total0 == Sum(count) && lowThreshold <= lowOne
    modifies norm
    ensures Sharing(norm[..], count, lowThreshold, distributed, total) && total + distributed <= total0
    ensures WaitingAbove(norm[..], count, lowOne) && Given(norm[..], count, lowThreshold, lowOne)
  {
    hide Assigned, Rest, Sum;
    distributed := 0;
    var left: int := total0;
    var s: nat := 0;
    NothingShared();
    assert norm[..0] == [] && count[..0] == [];
    while s < |count|
      invariant s <= |count|
      invariant forall i :: 0 <= i < s ==> Sorted1(norm[i], count[i], lowThreshold)
      invariant forall i :: 0 <= i < s && norm[i] == NOT_YET_ASSIGNED ==> count[i] > lowOne
      invariant forall i :: 0 <= i < s ==> norm[i] == if count[i] > lowOne then NOT_YET_ASSIGNED else Single(count[i], lowThreshold)
      invariant distributed == Assigned(norm[..s]) && left + distributed <= total0
      invariant left == total0 - Sum(count[..s]) + Rest(norm[..s], count[..s])
    {
      ghost var was := norm[..s];
      if count[s] == 0 {
        norm[s] := 0;
      } else if count[s] <= lowThreshold {
        norm[s] := -1;
        distributed := distributed + 1;
        left := left - count[s];
      } else if count[s] <= lowOne {
        norm[s] := 1;
        distributed := distributed + 1;
        left := left - count[s];
      } else {
        norm[s] := NOT_YET_ASSIGNED;
      }
      assert norm[..s + 1][..s] == was;
      SharedNext(norm[..s + 1], count, s);
      s := s + 1;
    }
    assert norm[..s] == norm[..] && count[..s] == count;
    total := left;
  }

  lemma {:induction false} NothingShared()
    ensures Assigned([]) == 0 && Rest([], []) == 0 && Sum([]) == 0
  {}

  lemma {:induction false} SharedNext(norm: seq<int>, count: seq<nat>, s: nat)
    requires s < |count| && |norm| == s + 1
    ensures Assigned(norm) == Assigned(norm[..s]) + Weight(norm[s])
    ensures Rest(norm, count[..s + 1]) == Rest(norm[..s], count[..s]) + Waiting(norm[s], count[s])
    ensures Sum(count[..s + 1]) == Sum(count[..s]) + count[s]
  {
    assert count[..s + 1][..s] == count[..s];
  }

  /** Second pass, with a raised limit. */
  method ShareOnes(norm: array<int>, count: seq<nat>, lowThreshold: nat, lowOne: nat, distributed0: nat, total0: nat, ghost limit0: nat)
    returns (distributed: nat, total: nat)
    requires Sharing(norm[..], count, lowThreshold, distributed0, total0)
    requires Given(norm[..], count, lowThreshold, limit0) && lowThreshold <= limit0 <= lowOne
    modifies norm
    ensures Sharing(norm[..], count, lowThreshold, distributed, total) && distributed0 <= distributed && total <= total0
    ensures WaitingAbove(norm[..], count, lowOne) && Given(norm[..], count, lowThreshold, lowOne)
  {
    hide Assigned, Rest;
    distributed, total := distributed0, total0;
    var s: nat := 0;
    while s < |count|
      invariant s <= |count| && norm.Length == |count|
      invariant Sharing(norm[..], count, lowThreshold, distributed, total) && distributed0 <= distributed && total <= total0
      invariant forall i :: 0 <= i < s && norm[i] == NOT_YET_ASSIGNED ==> count[i] > lowOne
      invariant forall i :: 0 <= i < |count| ==>
        norm[i] == if count[i] > (if i < s then lowOne else limit0) then NOT_YET_ASSIGNED else Single(count[i], lowThreshold)
    {
      ghost var was := norm[..];
      if norm[s] == NOT_YET_ASSIGNED && count[s] <= lowOne {
        AssignedUpdate(was, s, 1);
        RestUpdate(was, count, s, 1);
        norm[s] := 1;
        assert norm[..] == was[s := 1];
        distributed := distributed + 1;
        total := total - count[s];
      }
      s := s + 1;
    }
  }

  /** Every cell count is at most one; if they add up to the number of symbols, all are one. */
  lemma {:induction false} AllShared(norm: seq<int>, count: seq<nat>, lowThreshold: nat)
    requires |norm| == |count| && forall s :: 0 <= s < |norm| ==> Sorted1(norm[s], count[s], lowThreshold)
    ensures Assigned(norm) <= |norm|
    ensures Assigned(norm) == |norm| ==>
      forall s :: 0 <= s < |norm| ==> norm[s] == 1 || (norm[s] == -1 && 0 < count[s] <= lowThreshold)
  {
    if norm != [] {
      var k := |norm| - 1;
      AllShared(norm[..k], count[..k], lowThreshold);
    }
  }

  /** The first of the most frequent symbols. */
  method FindMax(count: seq<nat>) returns (maxV: nat)
    requires count != []
    ensures MostFrequent(count, maxV)
  {
    maxV := 0;
    var maxC, s: nat := 0, 0;
    while s < |count|
      invariant s <= |count| && maxV < |count| && (maxC == count[maxV] || (maxC == 0 && maxV == 0))
      invariant forall i :: 0 <= i < s ==> count[i] <= maxC
      invariant forall i :: 0 <= i < maxV ==> count[i] < maxC
    {
      if count[s] > maxC { maxV, maxC := s, count[s]; }
      s := s + 1;
    }
  }

  /** All symbols were low: everything left goes to the largest. */
  method GiveToLargest(norm: array<int>, count: seq<nat>, tableLog: nat, lowThreshold: nat, distributed: nat,
                       ghost total: nat, ghost m: nat)
    returns (ghost v: nat)
    requires MIN_TABLELOG <= tableLog <= MAX_TABLELOG
    requires norm.Length == |count| && m < |count| && count[m] > lowThreshold && distributed < Pow2(tableLog)
    requires Sharing(norm[..], count, lowThreshold, distributed, total) && distributed == |count|
    modifies norm
    ensures Normalized(norm[..], count, tableLog)
    ensures MostFrequent(count, v) && norm[..] == old(norm[..])[v := old(norm[..])[v] + (Pow2(tableLog) - distributed)]
  {
    hide Assigned, Rest, Pow2, Base;
    AllShared(norm[..], count, lowThreshold);
    var maxV := FindMax(count);
    v := maxV;
    ghost var was := norm[..];
    norm[maxV] := norm[maxV] + (Pow2(tableLog) - distributed);
    assert norm[..] == was[maxV := was[maxV] + (Pow2(tableLog) - distributed)];
    AssignedUpdate(was, maxV, norm[maxV]);
    AssignedIsBase(norm[..], |count|);
    assert norm[..][..|count|] == norm[..];
  }

  /** No count is left, but cells are: they go round the symbols above low probability. */
  method RoundRobin(norm: array<int>, count: seq<nat>, tableLog: nat, lowThreshold: nat, distributed: nat, ghost m: nat)
    requires MIN_TABLELOG <= tableLog <= MAX_TABLELOG
    requires norm.Length == |count| && m < |count| && count[m] > lowThreshold && distributed <= Pow2(tableLog)
    requires Sharing(norm[..], count, lowThreshold, distributed, 0)
    modifies norm
    ensures Normalized(norm[..], count, tableLog)
    ensures exists full: nat, s: nat :: HandedOut(old(norm[..]), norm[..], full, s)
  {
    hide Assigned, Rest, Pow2, Base, Sorted1;
    RoundRobinStart(norm[..], count, lowThreshold, m);
    var toDistribute: nat := Pow2(tableLog) - distributed;
    var s: nat := 0;
    ghost var n0: seq<int>, full: nat := norm[..], 0;
    while toDistribute > 0
      invariant s < |count| && norm.Length == |count|
      invariant forall i :: 0 <= i < |count| ==> -1 <= norm[i] && (norm[i] == 0 <==> count[i] == 0)
      invariant norm[m] > 0 && HandedOut(n0, norm[..], full, s)
      invariant Assigned(norm[..]) + toDistribute == Pow2(tableLog)
      decreases toDistribute, if s <= m then m - s else |count| + m - s
    {
      if norm[s] > 0 {
        ghost var was := norm[..];
        toDistribute := toDistribute - 1;
        norm[s] := norm[s] + 1;
        assert norm[..] == was[s := was[s] + 1];
        AssignedUpdate(was, s, was[s] + 1);
      }
      WrapNext(s, |count|);
      if s + 1 == |count| { full := full + 1; }
      s := (s + 1) % |count|;
    }
    AssignedIsBase(norm[..], |count|);
    assert norm[..][..|count|] == norm[..];
  }

  /** Each symbol of positive cells has got one in each full turn, and the first `s` one more. */
  ghost predicate HandedOut(n0: seq<int>, norm: seq<int>, full: nat, s: nat) {
    && |norm| == |n0|
    && forall i :: 0 <= i < |n0| ==> norm[i] == if n0[i] > 0 then n0[i] + full + (if i < s then 1 else 0) else n0[i]
  }

  lemma {:induction false} RoundRobinStart(norm: seq<int>, count: seq<nat>, lowThreshold: nat, m: nat)
    requires |norm| == |count| && m < |count| && count[m] > lowThreshold && Rest(norm, count) == 0
    requires forall s :: 0 <= s < |norm| ==> Sorted1(norm[s], count[s], lowThreshold)
    ensures norm[m] > 0
    ensures forall s :: 0 <= s < |count| ==> -1 <= norm[s] && (norm[s] == 0 <==> count[s] == 0)
  {
    hide Rest;
    RestZero(norm, count);
  }

  lemma {:induction false} WrapNext(s: nat, n: nat)
    requires s < n
    ensures (s + 1) % n == if s + 1 == n then 0 else s + 1
  {
    if s + 1 < n { DivModUnique(s + 1, n, 0, s + 1); }
  }

  lemma {:induction false} RestZero(norm: seq<int>, count: seq<nat>)
    requires |norm| == |count| && Rest(norm, count) == 0
    ensures forall s :: 0 <= s < |norm| && norm[s] == NOT_YET_ASSIGNED ==> count[s] == 0
  {
    forall s | 0 <= s < |norm| && norm[s] == NOT_YET_ASSIGNED ensures count[s] == 0 {
      RestUpdate(norm, count, s, norm[s]);
    }
  }

  /** Every waiting symbol is due at least one of the cells that are left. */
  ghost predicate AllDue(norm: seq<int>, count: seq<nat>, toDistribute: nat, total: nat)
    requires |norm| == |count|
  {
    forall s :: 0 <= s < |norm| && norm[s] == NOT_YET_ASSIGNED ==> total <= Times(toDistribute, count[s])
  }

  /** A share in units of `2^v`, rounded down or up. */
  predicate Rounded(w: int, share: nat, v: nat) { Shr(share, v) <= w <= Shr(share, v) + 1 }

  /** Between two rounded running totals lies a rounded share. */
  lemma {:induction false} RoundedBetween(start: nat, share: nat, v: nat)
    ensures Rounded(Shr(start + share, v) - Shr(start, v), share, v)
  {
    hide Low, Shr, Shl, Pow2;
    LowShr(start, v);
    LowShr(share, v);
    ShlAdd(Shr(start, v), Shr(share, v), v);
    var low, high := Low(start, v) + Low(share, v), Shr(start, v) + Shr(share, v);
    if low < Pow2(v) {
      SplitUnique(low, high, v);
    } else {
      ShlAdd(high, 1, v);
      ShlOne(v);
      SplitUnique(low - Pow2(v), high + 1, v);
    }
  }

  /** Scaling the counts that are left: the rounded running totals telescope to exactly the cells
      that are left. It fails when a symbol would get none, and no symbol does that is due one. */
  method GiveScaled(norm: array<int>, count: seq<nat>, tableLog: nat, lowThreshold: nat, distributed: nat, total: nat)
    returns (ok: bool)
    requires MIN_TABLELOG <= tableLog <= MAX_TABLELOG
    requires norm.Length == |count| && distributed < Pow2(tableLog) && 0 < total < TOTAL_LIMIT
    requires Sharing(norm[..], count, lowThreshold, distributed, total)
    modifies norm
    ensures ok ==> Normalized(norm[..], count, tableLog)
    ensures ok ==> forall s :: 0 <= s < |count| ==>
      if old(norm[s]) != NOT_YET_ASSIGNED then norm[s] == old(norm[s])
      else Rounded(norm[s], Times(ScaleStep(Pow2(tableLog) - distributed, 62 - tableLog, total), count[s]), 62 - tableLog)
    ensures old(AllDue(norm[..], count, Pow2(tableLog) - distributed, total)) ==> ok
  {
    hide Assigned, Rest, Pow2, Base, Sorted1, Shr, Shl, Times, ScaleStep, Rounded;
    var toDistribute := Pow2(tableLog) - distributed;
    var vStepLog: nat := 62 - tableLog;
    var mid: nat := Pow2(vStepLog - 1) - 1;
    var rStep := ScaleStep(toDistribute, vStepLog, total);
    ghost var n0 := norm[..];
    MidBelow(vStepLog);
    var tmpTotal: nat := mid;
    var s: nat := 0;
    NothingShared();
    assert n0[..0] == [] && count[..0] == [];
    TimesSum(rStep, 0, 0);
    while s < |count|
      invariant s <= |count| && norm.Length == |count|
      invariant forall i :: s <= i < |count| ==> norm[i] == n0[i]
      invariant forall i :: 0 <= i < s ==>
        if n0[i] == NOT_YET_ASSIGNED then norm[i] >= 1 && Rounded(norm[i], Times(rStep, count[i]), vStepLog) else norm[i] == n0[i]
      invariant tmpTotal == mid + Times(rStep, Rest(n0[..s], count[..s]))
      invariant Assigned(norm[..]) == distributed + Shr(tmpTotal, vStepLog)
    {
      SharedNext(n0[..s + 1], count, s);
      assert n0[..s + 1][..s] == n0[..s];
      TimesSum(rStep, Rest(n0[..s], count[..s]), Waiting(n0[s], count[s]));
      if norm[s] == NOT_YET_ASSIGNED {
        var end := tmpTotal + Times(rStep, count[s]);
        ShrMono(tmpTotal, end, vStepLog);
        var sStart, sEnd := Shr(tmpTotal, vStepLog), Shr(end, vStepLog);
        var weight := sEnd - sStart;
        if weight < 1 {
          if AllDue(n0, count, toDistribute, total) { DueGets(toDistribute, vStepLog, total, count[s], tmpTotal); }
          return false;
        }
        RoundedBetween(tmpTotal, Times(rStep, count[s]), vStepLog);
        ghost var was := norm[..];
        AssignedUpdate(was, s, weight);
        norm[s] := weight;
        assert norm[..] == was[s := weight];
        tmpTotal := end;
      }
      s := s + 1;
    }
    assert n0[..s] == n0 && count[..s] == count;
    Telescopes(toDistribute, vStepLog, total);
    ScaledSound(norm[..], n0, count, lowThreshold);
    AssignedIsBase(norm[..], |count|);
    assert norm[..][..|count|] == norm[..];
    return true;
  }

  /** A symbol that is due a cell gets one: its scaled count is a whole unit of the fixed point. */
  lemma {:induction false} DueGets(toDistribute: nat, v: nat, total: nat, c: nat, start: nat)
    requires 50 <= v && 0 < total < TOTAL_LIMIT && total <= Times(toDistribute, c)
    ensures Shr(start + Times(ScaleStep(toDistribute, v, total), c), v) > Shr(start, v)
  {
    hide Pow2, Shr, Shl;
    var r := ScaleStep(toDistribute, v, total);
    TwicePow2(v - 1);
    Pow2Mono(49, v - 1);
    Power62();
    TwicePow2(49);
    ShlMul(toDistribute, v);
    UnitReached(toDistribute, Pow2(v), total, c, Pow2(v - 1) - 1, r);
    ShrMono(start + Pow2(v), start + Times(r, c), v);
    LowShr(start, v);
    ShlOne(v);
    ShlAdd(Shr(start, v), 1, v);
    SplitUnique(Low(start, v), Shr(start, v) + 1, v);
  }

  lemma {:induction false} UnitReached(d: nat, unit: nat, total: nat, c: nat, mid: nat, r: nat)
    requires 0 < total <= mid + 1 && total <= Times(d, c) && r == (d * unit + mid) / total
    ensures unit <= Times(r, c)
  {
    var x := d * unit + mid;
    assert x == total * r + x % total;
    assert d * unit <= r * total;
    MulLe(d * unit, r * total, c);
    MulLe(total, d * c, unit);
    assert (d * unit) * c == (d * c) * unit;
    assert (r * total) * c == (r * c) * total;
    assert unit * total == total * unit;
    CancelMul(unit, r * c, total);
  }

  function Times(r: nat, a: nat): nat { r * a }

  lemma {:induction false} TimesSum(r: nat, a: nat, b: nat)
    ensures Times(r, a + b) == Times(r, a) + Times(r, b) && Times(r, 0) == 0
  {}

  lemma {:induction false} MidBelow(v: nat)
    requires v >= 1
    ensures Shr(Pow2(v - 1) - 1, v) == 0
  {
    hide Pow2, Shr;
    TwicePow2(v - 1);
    LowSmall(Pow2(v - 1) - 1, v);
  }

  /** Cells per count in fixed point. */
  function ScaleStep(toDistribute: nat, v: nat, total: nat): nat
    requires total > 0 && v >= 1
  {
    (Shl(toDistribute, v) + (Pow2(v - 1) - 1)) / total
  }

  /** Half a unit of slack on both sides absorbs the rounding of the scale. */
  lemma {:induction false} Telescopes(toDistribute: nat, v: nat, total: nat)
    requires 50 <= v && 0 < total < TOTAL_LIMIT
    ensures Shr(Pow2(v - 1) - 1 + Times(ScaleStep(toDistribute, v, total), total), v) == toDistribute
  {
    hide Pow2, Shr, Shl;
    var mid: nat := Pow2(v - 1) - 1;
    var r := Remainder(Shl(toDistribute, v) + mid, total);
    TwicePow2(v - 1);
    Pow2Mono(50, v);
    Power62();
    SplitUnique(2 * mid - r, toDistribute, v);
  }

  lemma {:induction false} Remainder(x: nat, total: nat) returns (r: nat)
    requires total > 0
    ensures r < total && Times(x / total, total) == x - r
  {
    r := x % total;
  }

  lemma {:induction false} ScaledSound(norm: seq<int>, n0: seq<int>, count: seq<nat>, lowThreshold: nat)
    requires |norm| == |n0| == |count|
    requires forall s :: 0 <= s < |n0| ==> Sorted1(n0[s], count[s], lowThreshold)
    requires forall s :: 0 <= s < |n0| ==> if n0[s] == NOT_YET_ASSIGNED then norm[s] >= 1 else norm[s] == n0[s]
    ensures forall s :: 0 <= s < |count| ==> -1 <= norm[s] && (norm[s] == 0 <==> count[s] == 0)
  {}

  /** Waiting symbols above the average are due a cell. */
  lemma {:induction false} PlainDue(norm: seq<int>, count: seq<nat>, total0: nat, tableLog: nat, toDistribute: nat, total: nat, lowOne: nat)
    requires |norm| == |count| && toDistribute > 0 && !AverageAbove(total, toDistribute, lowOne) && WaitingAbove(norm, count, lowOne)
    ensures AllDue(norm, count, toDistribute, total)
  {
    forall s | 0 <= s < |norm| && norm[s] == NOT_YET_ASSIGNED ensures total <= Times(toDistribute, count[s]) {
      AboveQuotient(total, toDistribute, count[s]);
    }
  }

  lemma {:induction false} AboveQuotient(a: nat, d: nat, c: nat)
    requires d > 0 && a / d < c
    ensures a < d * c
  {
    MulLe(a / d + 1, c, d);
    assert a == d * (a / d) + a % d;
  }

  /** The average can only be above one and a half times the overall average when more than a third of the cells are
      given out. Then the raised limit is high enough, because half of the cells stay with the waiting symbols. */
  lemma {:induction false} RaisedDue(norm: seq<int>, count: seq<nat>, total0: nat, tableLog: nat, lowThreshold: nat, distributed: nat,
                                     total: nat, total1: nat, toDistribute1: nat)
    requires Counted(count, total0) && SafeLog(count, total0, tableLog)
    requires Sharing(norm, count, lowThreshold, distributed, total) && distributed < Pow2(tableLog)
    requires toDistribute1 > 0 && total <= total1 && total1 + (Pow2(tableLog) - toDistribute1) <= total0
    requires toDistribute1 <= Pow2(tableLog)
    requires AverageAbove(total1, toDistribute1, Shr(3 * total0, tableLog + 1))
    requires WaitingAbove(norm, count, LimitFor(total1, toDistribute1))
    ensures AllDue(norm, count, Pow2(tableLog) - distributed, total)
  {
    hide Pow2, Shr, Sum, Present, Assigned, Rest, HighBit, Times, Sorted1;
    var d := Pow2(tableLog) - distributed;
    ShiftMeaning(3 * total0, tableLog + 1);
    TwicePow2(tableLog);
    assert AverageAbove(total1, toDistribute1, 3 * total0 / (2 * Pow2(tableLog)));
    FewGivenOut(total0, total1, toDistribute1, Pow2(tableLog));
    SharingPresent(norm, count, lowThreshold);
    HalfTheCells(count, total0, tableLog, total1, toDistribute1);
    assert 2 * toDistribute1 <= 3 * d;
    forall s | 0 <= s < |norm| && norm[s] == NOT_YET_ASSIGNED ensures total <= Times(d, count[s]) {
      OneAndAHalf(total1, toDistribute1, d, count[s]);
    }
  }

  lemma {:induction false} OneAndAHalf(total1: nat, d1: nat, d: nat, c: nat)
    requires d1 > 0 && 2 * d1 <= 3 * d && c > LimitFor(total1, d1)
    ensures total1 <= Times(d, c)
  {
    AboveQuotient(3 * total1, 2 * d1, c);
    MulLe(2 * d1, 3 * d, c);
    assert (3 * d) * c == 3 * (d * c);
  }

  /** There are at most half as many symbols as cells, since otherwise there are more cells than counts. */
  lemma {:induction false} HalfTheCells(count: seq<nat>, total0: nat, tableLog: nat, total1: nat, d: nat)
    requires Counted(count, total0) && SafeLog(count, total0, tableLog)
    requires d <= Pow2(tableLog) && total1 + (Pow2(tableLog) - d) <= total0 && d <= total1
    ensures 2 * |count| <= Pow2(tableLog)
  {
    hide Pow2, Sum, HighBit;
    if HighBit(total0) + 1 <= tableLog {
      Pow2Mono(HighBit(total0) + 1, tableLog);
      assert false;
    }
    Pow2Mono(HighBit(|count| - 1) + 2, tableLog);
    TwicePow2(HighBit(|count| - 1) + 1);
  }

  lemma {:induction false} FewGivenOut(total0: nat, total1: nat, d: nat, p: nat)
    requires 0 < d && 0 < p && total1 <= total0 && total1 / d > (3 * total0) / (2 * p)
    ensures 3 * d < 2 * p && total1 >= d
  {
    var q := total1 / d;
    QuotientBelow(total1, d);
    AboveQuotient(3 * total0, 2 * p, q);
    if 3 * d >= 2 * p { MulLe(2 * p, 3 * d, q); }
    if total1 < d { DivModUnique(total1, d, 0, total1); }
  }

  lemma {:induction false} QuotientBelow(a: nat, d: nat)
    requires d > 0
    ensures (3 * d) * (a / d) <= 3 * a
  {
    assert a == d * (a / d) + a % d;
  }

  // ---------------------------------------------------------------- what the secondary method gives

  /** Both limits as quotients, in order. */
  lemma {:induction false} LimitsAre(total: nat, tableLog: nat)
    ensures Shr(total, tableLog) == Quotient(total, Pow2(tableLog)) <= LimitFor(total, Pow2(tableLog)) == Shr(3 * total, tableLog + 1)
  {
    hide Pow2, Shr, LimitFor;
    ShiftMeaning(total, tableLog);
    LowIsBelow(total, Pow2(tableLog));
    FirstLimit(total, tableLog);
  }

  lemma {:induction false} FirstLimit(total: nat, tableLog: nat)
    ensures LimitFor(total, Pow2(tableLog)) == Shr(3 * total, tableLog + 1)
  {
    hide Pow2, Shr;
    ShiftMeaning(3 * total, tableLog + 1);
    TwicePow2(tableLog);
  }

  lemma {:induction false} ToppedUpOne(n0: seq<int>, norm: seq<int>, count: seq<nat>, low: nat, limit: nat, left: nat, v: nat)
    requires Given(n0, count, low, limit) && AllLow(count, limit) && MostFrequent(count, v) && norm == n0[v := n0[v] + left]
    ensures ToppedUp(norm, count, low, left)
  {}

  lemma {:induction false} HandedEvenly(n0: seq<int>, norm: seq<int>, count: seq<nat>, low: nat, limit: nat, full: nat, s: nat)
    requires Given(n0, count, low, limit) && NoneAbove(count, limit) && HandedOut(n0, norm, full, s)
    ensures Evenly(norm, count, low)
  {}

  /** A rounded share in fixed point is in proportion. */
  lemma {:induction false} RoundedShare(w: nat, c: nat, left: nat, rest: nat, v: nat)
    requires w >= 1 && 50 <= v && 0 < rest < TOTAL_LIMIT && Rounded(w, Times(ScaleStep(left, v, rest), c), v)
    ensures Proportional(w, c, left, rest)
  {
    hide Pow2, Shr, Shl, Proportional;
    var r, x := ScaleStep(left, v, rest), Pow2(v);
    ShlMul(left, v);
    TwicePow2(v - 1);
    Pow2Mono(49, v - 1);
    Power62();
    TwicePow2(49);
    StepOfScale(left, x, rest, r);
    ShiftMeaning(Times(r, c), v);
    QuotientBounds(Times(r, c), x);
    ShareBounds(w, Times(r, c) / x, c, left, rest, x, r);
  }

  lemma {:induction false} StepOfScale(left: nat, x: nat, rest: nat, r: nat)
    requires 0 < rest < TOTAL_LIMIT <= x / 2 && x % 2 == 0 && r == (left * x + (x / 2 - 1)) / rest
    ensures Times(left, x) <= Times(r, rest) && 2 * Times(r, rest) <= 2 * Times(left, x) + x
  {
    QuotientBounds(left * x + (x / 2 - 1), rest);
    TimesSumLeft(r, 1, rest);
    assert Times(1, rest) == rest;
  }

  lemma {:induction false} ShareBounds(w: nat, q: nat, c: nat, left: nat, rest: nat, x: nat, r: nat)
    requires w >= 1 && x > 0 && rest > 0 && q <= w <= q + 1 && Times(q, x) <= Times(r, c) < Times(q + 1, x)
    requires Times(left, x) <= Times(r, rest) && 2 * Times(r, rest) <= 2 * Times(left, x) + x
    ensures Proportional(w, c, left, rest)
  {
    hide Times;
    // from below
    TimesMono(q + 1, w + 1, x);
    TimesStrict(Times(r, c), Times(w + 1, x), rest);
    TimesSwap(r, c, rest);
    TimesMono(Times(left, x), Times(r, rest), c);
    TimesSwap(left, x, c);
    TimesSwap(w + 1, x, rest);
    TimesLess(Times(left, c), Times(w + 1, rest), x);
    // from above
    TimesMono(w - 1, q, x);
    TimesMono(Times(w - 1, x), Times(r, c), rest);
    TimesSwap(w - 1, x, rest);
    TimesMono(2 * Times(r, rest), 2 * Times(left, x) + x, c);
    TwiceTimes(Times(r, rest), c);
    TwiceTimes(Times(left, x), c);
    TimesSumLeft(2 * Times(left, x), x, c);
    TwiceTimes(Times(left, c), x);
    TwiceTimes(Times(w - 1, rest), x);
    TimesSumLeft(2 * Times(left, c), c, x);
    TimesCommute(x, c);
    TimesCancel(2 * Times(w - 1, rest), 2 * Times(left, c) + c, x);
    InProportion(w, c, left, rest);
  }

  lemma {:induction false} InProportion(w: nat, c: nat, left: nat, rest: nat)
    requires w >= 1 && Times(left, c) < Times(w + 1, rest) && 2 * Times(w - 1, rest) <= 2 * Times(left, c) + c
    ensures Proportional(w, c, left, rest)
  {
    assert c * (2 * left + 1) == 2 * (left * c) + c;
  }

  lemma {:induction false} TimesStrict(a: nat, b: nat, c: nat)
    requires a < b && c > 0
    ensures Times(a, c) < Times(b, c)
  {
    MulLe(a + 1, b, c);
  }

  lemma {:induction false} TimesLess(a: nat, b: nat, c: nat)
    requires Times(a, c) < Times(b, c)
    ensures a < b
  {
    if b <= a { MulLe(b, a, c); }
  }

  lemma {:induction false} TwiceTimes(a: nat, b: nat)
    ensures Times(2 * a, b) == 2 * Times(a, b)
  {}

  lemma {:induction false} TimesCommute(a: nat, b: nat)
    ensures Times(a, b) == Times(b, a)
  {}

  /** Scaled counts are in proportion. */
  lemma {:induction false} ScaledShares(n0: seq<int>, norm: seq<int>, count: seq<nat>, tableLog: nat, low: nat, limit: nat, left: nat, rest: nat)
    requires Given(n0, count, low, limit) && low <= limit && |norm| == |count| && tableLog <= MAX_TABLELOG && 0 < rest < TOTAL_LIMIT
    requires forall s :: 0 <= s < |count| ==> -1 <= norm[s] && (norm[s] == 0 <==> count[s] == 0)
    requires forall s :: 0 <= s < |count| ==>
      if n0[s] != NOT_YET_ASSIGNED then norm[s] == n0[s]
      else Rounded(norm[s], Times(ScaleStep(left, 62 - tableLog, rest), count[s]), 62 - tableLog)
    ensures SinglesGiven(norm, count, low, limit) && Proportionally(norm, count, limit, left, rest)
  {
    hide Pow2, Shr, Shl, Times, ScaleStep, Proportional;
    var r, v := ScaleStep(left, 62 - tableLog, rest), 62 - tableLog;
    forall s | 0 <= s < |count| && count[s] > limit ensures norm[s] >= 1 && Proportional(norm[s], count[s], left, rest) {
      RoundedShare(norm[s], count[s], left, rest, v);
    }
    forall s, t | 0 <= s < |count| && 0 <= t < |count| && count[s] > limit && count[s] >= count[t] ensures norm[s] >= norm[t] - 1 {
      TimesMono(count[t], count[s], r);
      ShrMono(Times(r, count[t]), Times(r, count[s]), v);
    }
  }

  /** normalizeM2, used when the primary method would take too much from the largest symbol. It never fails. Symbols up to a limit
      get a single cell. The others share the cells left in proportion to their counts; if there are none, the most frequent symbol
      takes all or the symbols above the low threshold take them in turn. */
  method NormalizeM2(norm: array<int>, tableLog: nat, count: seq<nat>, total0: nat) returns (ok: bool)
    requires Counted(count, total0) && SafeLog(count, total0, tableLog) && norm.Length == |count|
    modifies norm
    ensures ok && Normalized(norm[..], count, tableLog)
    ensures SecondShares(norm[..], count, total0, Pow2(tableLog))
  {
    hide Assigned, Rest, Pow2, Base, Sorted1, Shr, Shl, Sum, Present, MinTableLog, Sharing, AverageAbove, LimitFor, AllDue, WaitingAbove;
    hide Singles, Above, Quotient, Given, ToppedUp, Evenly, Proportionally, SinglesGiven, HandedOut, AllLow, NoneAbove, Rounded, Normalized, Times;
    hide ScaleStep, MostFrequent;
    LimitsAre(total0, tableLog);
    var lowThreshold := Shr(total0, tableLog);
    var lowOne := Shr(3 * total0, tableLog + 1);
    var distributed, total := ShareLow(norm, count, total0, lowThreshold, lowOne);
    GivenSums(norm[..], count, lowThreshold, lowOne);
    SumsOf(norm[..], count, lowThreshold, distributed, total);
    ghost var m := SomeHigh(count, total0, tableLog);
    SharedBounds(norm[..], count, total0, tableLog, lowThreshold, distributed, total);
    var toDistribute := Pow2(tableLog) - distributed;
    if toDistribute == 0 {
      assert false;
    }
    if AverageAbove(total, toDistribute, lowOne) {
      // risk of rounding to zero
      ghost var total1, toDistribute1: nat, limit0 := total, toDistribute, lowOne;
      lowOne := LimitFor(total, toDistribute);
      RaisedIsHigher(total, toDistribute, limit0);
      distributed, total := ShareOnes(norm, count, lowThreshold, lowOne, distributed, total, limit0);
      GivenSums(norm[..], count, lowThreshold, lowOne);
      SumsOf(norm[..], count, lowThreshold, distributed, total);
      SharedBounds(norm[..], count, total0, tableLog, lowThreshold, distributed, total);
      toDistribute := Pow2(tableLog) - distributed;
      RaisedDue(norm[..], count, total0, tableLog, lowThreshold, distributed, total, total1, toDistribute1);
    } else {
      PlainDue(norm[..], count, total0, tableLog, toDistribute, total, lowOne);
    }
    assert lowOne == Limit(count, total0, Pow2(tableLog));
    SinglesMeaning(count, lowOne);
    ghost var n0: seq<int> := norm[..];
    if distributed == |count| {
      ghost var v := GiveToLargest(norm, count, tableLog, lowThreshold, distributed, total, m);
      ToppedUpOne(n0, norm[..], count, lowThreshold, lowOne, toDistribute, v);
      return true;
    }
    if total == 0 {
      RoundRobin(norm, count, tableLog, lowThreshold, distributed, m);
      ghost var full: nat, s: nat :| HandedOut(n0, norm[..], full, s);
      HandedEvenly(n0, norm[..], count, lowThreshold, lowOne, full, s);
      return true;
    }
    ok := GiveScaled(norm, count, tableLog, lowThreshold, distributed, total);
    NormalizedSigns(norm[..], count, tableLog);
    ScaledShares(n0, norm[..], count, tableLog, lowThreshold, lowOne, toDistribute, total);
  }

  lemma {:induction false} SumsOf(norm: seq<int>, count: seq<nat>, low: nat, distributed: nat, total: int)
    requires Sharing(norm, count, low, distributed, total)
    ensures |norm| == |count| && distributed == Assigned(norm) && total == Rest(norm, count)
  {}

  lemma {:induction false} NormalizedSigns(norm: seq<int>, count: seq<nat>, tableLog: nat)
    requires Normalized(norm, count, tableLog)
    ensures |norm| == |count| && forall s :: 0 <= s < |count| ==> -1 <= norm[s] && (norm[s] == 0 <==> count[s] == 0)
  {}

  /** Cells remain to be distributed, so the early exit for none is never taken. */
  lemma {:induction false} SharedBounds(norm: seq<int>, count: seq<nat>, total0: nat, tableLog: nat,
                                        lowThreshold: nat, distributed: nat, total: nat)
    requires Counted(count, total0) && SafeLog(count, total0, tableLog)
    requires Sharing(norm, count, lowThreshold, distributed, total)
    ensures distributed < Pow2(tableLog) && total < TOTAL_LIMIT
  {
    hide Pow2, Sum, Rest, Assigned, Present, MinTableLog;
    EnoughCells(count, total0, tableLog);
    SharingPresent(norm, count, lowThreshold);
    RestAtMost(norm, count);
  }

  lemma {:induction false} RestAtMost(norm: seq<int>, count: seq<nat>)
    requires |norm| == |count|
    ensures Rest(norm, count) <= Sum(count)
  {
    if norm != [] { RestAtMost(norm[..|norm| - 1], count[..|count| - 1]); }
  }

  // ---------------------------------------------------------------- primary method

  datatype NormResult = TableLog(tableLog: nat) | Rle | Failed

  lemma {:induction false} BasePrefix(norm: seq<int>, s: nat)
    requires s < |norm|
    ensures Base(norm, s + 1) == Base(norm[..s], s) + Cells(norm[s])
  {
    BaseSame(norm, norm[..s], s);
  }

  lemma {:induction false} BaseSame(a: seq<int>, b: seq<int>, k: nat)
    requires k <= |a| && k <= |b| && a[..k] == b[..k]
    ensures Base(a, k) == Base(b, k)
  {
    if k > 0 {
      assert a[..k - 1] == a[..k][..k - 1];
      assert b[..k - 1] == b[..k][..k - 1];
      BaseSame(a, b, k - 1);
      assert a[k - 1] == a[..k][k - 1];
      assert b[k - 1] == b[..k][k - 1];
    }
  }

  /** Scaled share of a symbol above the low threshold, with its rounding for small shares. */
  function Proba(count: nat, total: nat, tableLog: nat): nat
    requires total > 0 && tableLog <= MAX_TABLELOG
  {
    var scale, step := 62 - tableLog, WHOLE / total;
    var proba := Shr(count * step, scale);
    if proba < 8 then
      var restToBeat := Pow2(scale - 20) * RTB_TABLE[proba];
      proba + if count * step - Shl(proba, scale) > restToBeat then 1 else 0
    else proba
  }

  lemma {:induction false} ProbaPositive(count: nat, total: nat, tableLog: nat)
    requires count <= total && 1 < total < TOTAL_LIMIT && tableLog <= MAX_TABLELOG
    requires count > Shr(total, tableLog)
    ensures Proba(count, total, tableLog) >= 1
  {
    hide Pow2, Shr, Shl;
    ScaledRange(count, total, tableLog);
  }

  /** From what part of a cell on, in parts of 2^20, a share of `q` cells is rounded up: not at all from eight cells on. */
  function RoundUpFrom(q: nat): nat {
    match q
    case 0 => 0 case 1 => 473195 case 2 => 504333 case 3 => 520860
    case 4 => 550000 case 5 => 700000 case 6 => 750000 case 7 => 830000
    case _ => 0x10_0000
  }

  lemma {:induction false} ShareRounds(count: nat, total: nat, tableLog: nat, q: nat, part: nat)
    requires total > 0 && tableLog <= MAX_TABLELOG && part < Pow2(62 - tableLog)
    requires Times(count, WHOLE / total) == Times(q, Pow2(62 - tableLog)) + part
    ensures Proba(count, total, tableLog) == q + if Times(part, 0x10_0000) > Times(Pow2(62 - tableLog), RoundUpFrom(q)) then 1 else 0
  {
    hide Pow2, Shr, Shl, Times, Proba;
    ProbaSplit(count, total, tableLog, q, part);
    TwentyBits(62 - tableLog);
    var w := Pow2(42 - tableLog);
    if q < 8 {
      ScaleBoth(part, Times(w, RTB_TABLE[q]));
      TimesSwap(w, RTB_TABLE[q], 0x10_0000);
      TableIs(q);
    } else {
      TimesStrict(part, Pow2(62 - tableLog), 0x10_0000);
    }
  }

  lemma {:induction false} TableIs(q: nat)
    requires q < 8
    ensures RTB_TABLE[q] == RoundUpFrom(q)
  {}

  lemma {:induction false} ProbaSplit(count: nat, total: nat, tableLog: nat, q: nat, part: nat)
    requires total > 0 && tableLog <= MAX_TABLELOG && part < Pow2(62 - tableLog)
    requires Times(count, WHOLE / total) == Times(q, Pow2(62 - tableLog)) + part
    ensures Proba(count, total, tableLog) == q + if q < 8 && part > Times(Pow2(42 - tableLog), RTB_TABLE[q]) then 1 else 0
  {
    hide Pow2, Shr, Shl;
    ShiftMeaning(q, 62 - tableLog);
    SplitUnique(part, q, 62 - tableLog);
  }

  lemma {:induction false} ScaleBoth(a: nat, b: nat)
    ensures a > b <==> Times(a, 0x10_0000) > Times(b, 0x10_0000)
  {}

  lemma {:induction false} TwentyBits(n: nat)
    requires n >= 20
    ensures Pow2(n) == Times(Pow2(n - 20), 0x10_0000)
  {
    hide Pow2;
    ShlPow2(n - 20, 20);
    ShlMul(Pow2(n - 20), 20);
    assert Pow2(20) == 0x10_0000 by { TwentyIs(); }
  }

  lemma {:induction false} TwentyIs()
    ensures Pow2(20) == 0x10_0000
  {
    assert Pow2(10) == 1024;
  }

  /** What the primary method gives a symbol before the largest one takes the difference. */
  function Share(count: nat, total: nat, tableLog: nat): int
    requires total > 0 && tableLog <= MAX_TABLELOG
  {
    if count == 0 then 0 else if count <= Shr(total, tableLog) then -1 else Proba(count, total, tableLog)
  }

  function Shares(count: seq<nat>, total: nat, tableLog: nat): (norm: seq<int>)
    requires total > 0 && tableLog <= MAX_TABLELOG
    ensures |norm| == |count| && forall s :: 0 <= s < |count| ==> norm[s] == Share(count[s], total, tableLog)
  {
    seq(|count|, s requires 0 <= s < |count| => Share(count[s], total, tableLog))
  }

  /** Proportional to the count, up to one cell and the rounding of the fixed point. */
  predicate Fair(cells: int, total: nat, exact: nat) { (cells - 1) * total <= exact < (cells + 1) * total + 4096 }

  lemma {:induction false} ShareIsFair(count: nat, total: nat, tableLog: nat)
    requires 0 < count <= total && 1 < total < TOTAL_LIMIT && tableLog <= MAX_TABLELOG
    ensures Fair(Cells(Share(count, total, tableLog)), total, count * Pow2(tableLog))
  {
    hide Pow2, Shr, Shl, Fair, Proba;
    if count <= Shr(total, tableLog) {
      ShiftMeaning(total, tableLog);
      LowIsFair(count, total, Pow2(tableLog));
    } else {
      ScaledIsFair(count, total, tableLog);
    }
  }

  lemma {:induction false} ScaledIsFair(count: nat, total: nat, tableLog: nat)
    requires 0 < count <= total && 1 < total < TOTAL_LIMIT && tableLog <= MAX_TABLELOG
    ensures Fair(Proba(count, total, tableLog), total, count * Pow2(tableLog))
  {
    hide Pow2, Fair, Proba;
    WholeSplit(tableLog);
    TableAtMost(tableLog);
    var q := ProbaRounds(count, total, tableLog);
    ScaledFair(count, total, Pow2(tableLog), Pow2(62 - tableLog), q);
    FairEitherWay(q, Proba(count, total, tableLog), total, count * Pow2(tableLog));
  }

  lemma {:induction false} ProbaRounds(count: nat, total: nat, tableLog: nat) returns (q: nat)
    requires total > 0 && tableLog <= MAX_TABLELOG
    ensures Pow2(62 - tableLog) > 0 && q == count * (WHOLE / total) / Pow2(62 - tableLog)
    ensures Proba(count, total, tableLog) == q || Proba(count, total, tableLog) == q + 1
  {
    hide Pow2, Shr, Shl;
    ShiftMeaning(count * (WHOLE / total), 62 - tableLog);
    q := Shr(count * (WHOLE / total), 62 - tableLog);
  }

  lemma {:induction false} TableAtMost(tableLog: nat)
    requires tableLog <= MAX_TABLELOG
    ensures Pow2(tableLog) <= 4096
  {
    assert Pow2(12) == 4096 by { assert Pow2(4) == 16 && Pow2(8) == 256; }
    Pow2Mono(tableLog, 12);
  }

  lemma {:induction false} LowIsFair(count: nat, total: nat, p: nat)
    requires p > 0 && 0 < total && count <= total / p
    ensures Fair(1, total, count * p)
  {
    MulLe(count, total / p, p);
  }

  /** The rounding down of the step loses less than 4096 of the total. */
  lemma {:induction false} ScaledFair(count: nat, total: nat, p: nat, s: nat, q: nat)
    requires 0 < p <= 4096 && s > 0 && p * s == WHOLE && 0 < count <= total < TOTAL_LIMIT && q == count * (WHOLE / total) / s
    ensures q * total <= count * p < (q + 1) * total + 4096
  {
    var step := WHOLE / total;
    QuotientBounds(count * step, s);
    QuotientBounds(WHOLE, total);
    StepUp(count, step, total, p, s, q);
    StepDown(count, step, total, p, s, q);
  }

  lemma {:induction false} QuotientBounds(v: nat, d: nat)
    requires d > 0
    ensures Times(v / d, d) <= v < Times(v / d + 1, d)
  {
    assert v == d * (v / d) + v % d;
  }

  lemma {:induction false} StepUp(count: nat, step: nat, total: nat, p: nat, s: nat, q: nat)
    requires s > 0 && Times(p, s) == WHOLE && Times(q, s) <= Times(count, step) && Times(step, total) <= WHOLE
    ensures Times(q, total) <= Times(count, p)
  {
    hide Times;
    TimesSwap(q, total, s);
    TimesMono(Times(q, s), Times(count, step), total);
    TimesAssoc(count, step, total);
    TimesMono(Times(step, total), WHOLE, count);
    TimesAssoc(count, p, s);
    TimesCancel(Times(q, total), Times(count, p), s);
  }

  lemma {:induction false} StepDown(count: nat, step: nat, total: nat, p: nat, s: nat, q: nat)
    requires 0 < p <= 4096 && s > 0 && Times(p, s) == WHOLE && Times(count, step) < Times(q + 1, s) && WHOLE < Times(step + 1, total)
    requires 0 < count <= total < TOTAL_LIMIT
    ensures Times(count, p) < Times(q + 1, total) + 4096
  {
    hide Times;
    var x, y := Times(count, p), Times(q + 1, total);
    TimesAssoc(count, p, s);
    TimesMono(WHOLE, Times(step + 1, total), count);
    TimesAssoc(count, step + 1, total);
    TimesSum(count, step, 1);
    TimesOne(count);
    TimesSumLeft(Times(count, step), count, total);
    TimesMono(Times(count, step), Times(q + 1, s), total);
    TimesSwap(q + 1, s, total);
    TimesMono(count, total, total);
    SquareTimes(total);
    TimesMono(p, 4096, s);
    TimesSumLeft(y, 4096, s);
    if x >= y + 4096 { TimesMono(y + 4096, x, s); }
  }

  lemma {:induction false} TimesOne(a: nat)
    ensures Times(a, 1) == a
  {}

  lemma {:induction false} TimesSwap(a: nat, b: nat, c: nat)
    ensures Times(Times(a, b), c) == Times(Times(a, c), b)
  {}

  lemma {:induction false} TimesAssoc(a: nat, b: nat, c: nat)
    ensures Times(Times(a, b), c) == Times(a, Times(b, c))
  {}

  lemma {:induction false} TimesMono(a: nat, b: nat, c: nat)
    requires a <= b
    ensures Times(a, c) <= Times(b, c) && Times(c, a) <= Times(c, b)
  {
    MulLe(a, b, c);
  }

  lemma {:induction false} TimesSumLeft(a: nat, b: nat, c: nat)
    ensures Times(a + b, c) == Times(a, c) + Times(b, c)
  {}

  lemma {:induction false} TimesCancel(a: nat, b: nat, c: nat)
    requires c > 0 && Times(a, c) <= Times(b, c)
    ensures a <= b
  {
    CancelMul(a, b, c);
  }

  lemma {:induction false} SquareTimes(total: nat)
    requires total < TOTAL_LIMIT
    ensures Times(total, total) < WHOLE
  {
    SquareBound(total);
  }

  lemma {:induction false} FairEitherWay(q: nat, proba: nat, total: nat, exact: nat)
    requires q * total <= exact < (q + 1) * total + 4096 && (proba == q || proba == q + 1)
    ensures Fair(proba, total, exact)
  {}

  /** One symbol at a time: low symbols get one cell, the others their scaled share. */
  method Spread(norm: array<int>, tableLog: nat, count: seq<nat>, total: nat, lowThreshold: nat)
    returns (rle: bool, stillToDistribute: int, largest: nat, largestP: nat)
    requires Counted(count, total) && norm.Length == |count|
    requires MIN_TABLELOG <= tableLog <= MAX_TABLELOG && lowThreshold == Shr(total, tableLog)
    modifies norm
    ensures rle <==> exists s :: 0 <= s < |count| && count[s] == total
    ensures !rle ==> Spreaded(norm[..], count, tableLog, total, stillToDistribute, largest, largestP)
    ensures !rle ==> norm[..] == Shares(count, total, tableLog) && forall s :: 0 <= s < |count| ==> norm[s] <= largestP
    ensures !rle ==> forall s :: 0 <= s < |count| && count[s] > lowThreshold ==> largestP >= 1
    ensures !rle && largestP >= 1 ==> forall s :: 0 <= s < largest ==> norm[s] < largestP
  {
    hide Pow2, Base, Shr, Shl, Sum, Proba;
    rle, stillToDistribute, largest, largestP := false, Pow2(tableLog), 0, 0;
    var s: nat := 0;
    NoBase(norm[..0]);
    while s < |count|
      invariant s <= |count| && largest < |count|
      invariant forall i :: 0 <= i < s ==> -1 <= norm[i] && (norm[i] == 0 <==> count[i] == 0) && count[i] != total
      invariant forall i :: 0 <= i < s ==> norm[i] == Share(count[i], total, tableLog) && norm[i] <= largestP
      invariant stillToDistribute == Pow2(tableLog) - Base(norm[..s], s)
      invariant largestP > 0 ==> largest < s && norm[largest] == largestP
      invariant forall i :: 0 <= i < s && count[i] > lowThreshold ==> largestP >= 1
      invariant largestP >= 1 ==> forall i :: 0 <= i < largest ==> norm[i] < largestP
    {
      ghost var was := norm[..s];
      if count[s] == total { return true, stillToDistribute, largest, largestP; }
      if count[s] == 0 {
        norm[s] := 0;
      } else if count[s] <= lowThreshold {
        norm[s] := -1;
        stillToDistribute := stillToDistribute - 1;
      } else {
        SumEntry(count, s);
        ProbaPositive(count[s], total, tableLog);
        var proba := Proba(count[s], total, tableLog);
        if proba > largestP { largestP, largest := proba, s; }
        norm[s] := proba;
        stillToDistribute := stillToDistribute - proba;
      }
      assert norm[..s + 1][..s] == was;
      BasePrefix(norm[..s + 1], s);
      s := s + 1;
    }
    assert norm[..s] == norm[..];
  }

  lemma {:induction false} NoBase(norm: seq<int>)
    ensures Base(norm, 0) == 0
  {}

  ghost predicate Spreaded(norm: seq<int>, count: seq<nat>, tableLog: nat, total: nat, still: int, largest: nat, largestP: nat) {
    && |norm| == |count| && largest < |count|
    && (forall s :: 0 <= s < |count| ==> -1 <= norm[s] && (norm[s] == 0 <==> count[s] == 0) && count[s] != total)
    && still == Pow2(tableLog) - Base(norm, |norm|)
    && (largestP > 0 ==> norm[largest] == largestP)
  }

  /** The largest symbol takes the difference and keeps more than half its cells. */
  lemma {:induction false} Topped(norm: seq<int>, count: seq<nat>, tableLog: nat, total: nat, still: int, largest: nat, largestP: nat)
    requires Spreaded(norm, count, tableLog, total, still, largest, largestP) && largestP >= 1
    requires -still < norm[largest] / 2
    ensures Normalized(norm[largest := norm[largest] + still], count, tableLog)
  {
    hide Pow2;
    BaseUpdate(norm, largest, norm[largest] + still, |norm|);
  }

  lemma {:induction false} BaseUpdate(norm: seq<int>, s: nat, n: int, k: nat)
    requires s < k <= |norm|
    ensures Base(norm[s := n], k) == Base(norm, k) - Cells(norm[s]) + Cells(n)
  {
    if s < k - 1 {
      BaseUpdate(norm, s, n, k - 1);
    } else {
      BaseSame(norm[s := n], norm, k - 1);
    }
  }

  lemma {:induction false} TwoPresent(count: seq<nat>, total: nat) returns (s1: nat, s2: nat)
    requires Counted(count, total) && forall s :: 0 <= s < |count| ==> count[s] != total
    ensures s1 < s2 < |count| && count[s1] > 0 && count[s2] > 0
  {
    hide Sum;
    if forall s :: 0 <= s < |count| ==> count[s] == 0 { SumBound(count, 0); }
    s1 :| 0 <= s1 < |count| && count[s1] > 0;
    if forall s :: 0 <= s < |count| && s != s1 ==> count[s] == 0 { SumOnly(count, s1); }
    s2 :| 0 <= s2 < |count| && s2 != s1 && count[s2] > 0;
    if s2 < s1 { s1, s2 := s2, s1; }
  }

  lemma {:induction false} SumOnly(count: seq<nat>, s1: nat)
    requires s1 < |count| && forall s :: 0 <= s < |count| && s != s1 ==> count[s] == 0
    ensures Sum(count) == count[s1]
  {
    var k := |count| - 1;
    if s1 < k {
      SumOnly(count[..k], s1);
    } else {
      SumBound(count[..k], 0);
    }
  }

  ghost predicate FirstLargest(shares: seq<int>, v: nat) {
    v < |shares| && forall s :: 0 <= s < |shares| ==> if s < v then shares[s] < shares[v] else shares[s] <= shares[v]
  }

  /** The difference to the table's size would cost the symbol `v` at least half its share. */
  predicate TooMuchFor(shares: seq<int>, tableLog: nat, v: nat)
    requires v < |shares|
  {
    Base(shares, |shares|) - Pow2(tableLog) >= shares[v] / 2
  }

  /** The normalized counts: each symbol has its share but for the difference, which the first of those with the largest share takes,
      unless that is too much for it. */
  ghost predicate NormOf(norm: seq<int>, count: seq<nat>, total: nat, tableLog: nat)
    requires total > 0 && tableLog <= MAX_TABLELOG
  {
    && Normalized(norm, count, tableLog)
    && exists v: nat :: FirstLargest(Shares(count, total, tableLog), v) && NormWith(norm, count, total, tableLog, v)
  }

  ghost predicate NormWith(norm: seq<int>, count: seq<nat>, total: nat, tableLog: nat, v: nat)
    requires total > 0 && tableLog <= MAX_TABLELOG && v < |count| == |norm|
  {
    var shares := Shares(count, total, tableLog);
    if TooMuchFor(shares, tableLog, v) then SecondShares(norm, count, total, Pow2(tableLog))
    else forall s :: 0 <= s < |count| && s != v ==> norm[s] == shares[s]
  }

  /** normalizeCount. An unsupported table size is refused, a lone symbol is left to run-length coding. A returned
      table size comes with counts the table builders accept, in which exactly the present symbols have cells: each
      its share, but for the difference that a symbol with the largest share takes, unless that would cost
      this symbol half its cells or more and the secondary method is used. */
  method NormalizeCount(norm: array<int>, tableLog0: nat, count: seq<nat>, total: nat)
    returns (r: NormResult, ghost secondary: bool, ghost largest: nat)
    requires Counted(count, total) && norm.Length == |count|
    modifies norm
    ensures r.TableLog? ==> Normalized(norm[..], count, r.tableLog) && ValidNorm(norm[..], r.tableLog)
    ensures r.Rle? <==> SafeLog(count, total, Wanted(tableLog0)) && exists s :: 0 <= s < |count| && count[s] == total
    ensures r.TableLog? ==> r.tableLog == Wanted(tableLog0)
    ensures r.Failed? <==> !SafeLog(count, total, Wanted(tableLog0))
    ensures r.TableLog? || secondary ==> SafeLog(count, total, Wanted(tableLog0)) && largest < |count|
    ensures r.TableLog? ==> NormOf(norm[..], count, total, r.tableLog)
    ensures r.TableLog? || secondary ==>
      var shares := Shares(count, total, Wanted(tableLog0));
      && FirstLargest(shares, largest) && (secondary <==> TooMuchFor(shares, Wanted(tableLog0), largest))
      && (r.TableLog? && !secondary ==> forall s :: 0 <= s < |count| && s != largest ==> norm[s] == shares[s])
  {
    hide Pow2, Base, Shr, Shl, Sum, MinTableLog, Proba, Share, Normalized, ValidNorm, SecondShares;
    secondary, largest := false, 0;
    var tableLog := if tableLog0 == 0 then DEFAULT_TABLELOG else tableLog0;
    if tableLog < MIN_TABLELOG { r := Failed; return; }
    if tableLog > MAX_TABLELOG { r := Failed; return; }
    if tableLog < MinTableLog(total, |count| - 1) { r := Failed; return; }
    var lowThreshold := Shr(total, tableLog);
    var rle, stillToDistribute, top, largestP := Spread(norm, tableLog, count, total, lowThreshold);
    largest := top;
    if rle { r := Rle; return; }
    ghost var m := SomeHigh(count, total, tableLog);
    ghost var was := norm[..];
    if -stillToDistribute >= norm[top] / 2 {
      // corner case, need another normalization method
      secondary := true;
      var ok := NormalizeM2(norm, tableLog, count, total);
      if !ok { r := Failed; return; }
    } else {
      norm[top] := norm[top] + stillToDistribute;
      assert norm[..] == was[top := was[top] + stillToDistribute];
      Topped(was, count, tableLog, total, stillToDistribute, top, largestP);
    }
    ghost var s1, s2 := TwoPresent(count, total);
    NormalizedIsValid(norm[..], count, tableLog, s1, s2);
    NormalizedSigns(norm[..], count, tableLog);
    assert NormWith(norm[..], count, total, tableLog, largest);
    r := TableLog(tableLog);
  }

  /** The table size asked for. */
  function Wanted(tableLog0: nat): nat { if tableLog0 == 0 then DEFAULT_TABLELOG else tableLog0 }
}
