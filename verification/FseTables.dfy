/** The two coding tables of the finite state entropy coder (tANS). The encoder and the decoder
    each spread the symbols over the table on their own; both are proved to build the table that
    `IsSpread` determines, and one encoding step is proved to be undone by one table cell. */
module FseTables {
  import opened Powers
  import opened Counting

  const MIN_TABLELOG: nat := 5
  const MAX_TABLELOG: nat := 12
  const MAX_SYMBOL_VALUE: nat := 255

  // ---------------------------------------------------------------- normalized counts

  /** Table cells a normalized count stands for: -1 marks a low-probability symbol with one cell. */
  function Cells(n: int): nat { if n < 0 then -n else n }

  /** Cells of the first `k` symbols; where symbol `k` starts when cells are sorted by symbol. */
  function Base(norm: seq<int>, k: nat): nat
    requires k <= |norm|
  {
    if k == 0 then 0 else Base(norm, k - 1) + Cells(norm[k - 1])
  }

  /** Low-probability symbols among the first `k`. */
  function LowCount(norm: seq<int>, k: nat): (n: nat)
    requires k <= |norm|
    ensures n <= k
  {
    if k == 0 then 0 else LowCount(norm, k - 1) + if norm[k - 1] == -1 then 1 else 0
  }

  /** Cells given out by the walk to the first `k` symbols. */
  function WalkCount(norm: seq<int>, k: nat): nat
    requires k <= |norm|
  {
    if k == 0 then 0 else WalkCount(norm, k - 1) + if norm[k - 1] > 0 then norm[k - 1] else 0
  }

  ghost predicate ValidNorm(norm: seq<int>, tableLog: nat) {
    && MIN_TABLELOG <= tableLog <= MAX_TABLELOG
    && 1 <= |norm| <= MAX_SYMBOL_VALUE + 1
    && (forall s :: 0 <= s < |norm| ==> -1 <= norm[s] < Pow2(tableLog))
    && Base(norm, |norm|) == Pow2(tableLog)
  }

  lemma {:induction false} CountsAddUp(norm: seq<int>, k: nat)
    requires k <= |norm|
    requires forall s :: 0 <= s < |norm| ==> -1 <= norm[s]
    ensures Base(norm, k) == WalkCount(norm, k) + LowCount(norm, k)
  {
    if k > 0 { CountsAddUp(norm, k - 1); }
  }

  lemma {:induction false} CountsMono(norm: seq<int>, j: nat, k: nat)
    requires j <= k <= |norm|
    ensures Base(norm, j) <= Base(norm, k)
    ensures WalkCount(norm, j) <= WalkCount(norm, k)
    ensures LowCount(norm, j) <= LowCount(norm, k)
    decreases k
  {
    if j < k { CountsMono(norm, j, k - 1); }
  }

  /** Symbols own disjoint ranges of sorted cells. */
  lemma {:induction false} BaseSeparates(norm: seq<int>, s: nat, s': nat)
    requires s < s' < |norm|
    ensures Base(norm, s) + Cells(norm[s]) <= Base(norm, s')
  {
    CountsMono(norm, s + 1, s');
  }

  // ---------------------------------------------------------------- the walk

  function TableStep(tableLog: nat): nat {
    var tableSize := Pow2(tableLog);
    tableSize / 2 + tableSize / 8 + 3
  }

  /** Last cell open to the walk; the cells above belong to low-probability symbols. */
  function HighThreshold(norm: seq<int>, tableLog: nat): int {
    Pow2(tableLog) - 1 - LowCount(norm, |norm|)
  }

  /** Position after `k` unfiltered steps. */
  function Visit(tableLog: nat, k: nat): (p: nat)
    ensures p < Pow2(tableLog)
  {
    if k == 0 then 0
    else
      LowShr(Visit(tableLog, k - 1) + TableStep(tableLog), tableLog);
      Low(Visit(tableLog, k - 1) + TableStep(tableLog), tableLog)
  }

  /** Open cells among the first `k` positions of the walk. */
  function Opened(tableLog: nat, high: int, k: nat): nat {
    if k == 0 then 0
    else Opened(tableLog, high, k - 1) + if Visit(tableLog, k - 1) <= high then 1 else 0
  }

  /** The step is five eighths of the table and three. */
  lemma {:induction false} StepMeaning(tableLog: nat)
    requires 3 <= tableLog
    ensures TableStep(tableLog) == 5 * Pow2(tableLog - 3) + 3 && Pow2(tableLog) == 8 * Pow2(tableLog - 3)
  {
    hide Pow2;
    TwicePow2(tableLog - 3);
    TwicePow2(tableLog - 2);
    TwicePow2(tableLog - 1);
    EighthsOf(Pow2(tableLog), Pow2(tableLog - 3));
  }

  lemma {:induction false} EighthsOf(size: nat, q: nat)
    requires size == 8 * q
    ensures size / 2 + size / 8 == 5 * q
  {
    DivModUnique(size, 2, 4 * q, 0);
    DivModUnique(size, 8, q, 0);
  }

  lemma {:induction false} StepOdd(tableLog: nat)
    requires MIN_TABLELOG <= tableLog
    ensures TableStep(tableLog) % 2 == 1
  {
    hide Pow2;
    TwicePow2(tableLog - 4);
    TwicePow2(tableLog - 3);
    TwicePow2(tableLog - 2);
    TwicePow2(tableLog - 1);
    StepShape(Pow2(tableLog), Pow2(tableLog - 4));
  }

  lemma {:induction false} StepShape(size: nat, q: nat)
    requires size == 16 * q
    ensures (size / 2 + size / 8 + 3) % 2 == 1
  {
    DivModUnique(size, 2, 8 * q, 0);
    DivModUnique(size, 8, 2 * q, 0);
    DivModUnique(8 * q + 2 * q + 3, 2, 5 * q + 1, 1);
  }

  /** Multiplying by an odd number keeps nonzero low parts nonzero. */
  lemma {:induction false} OddScale(d: nat, step: nat, n: nat)
    requires step % 2 == 1 && Low(d * step, n) == 0
    ensures Low(d, n) == 0
  {
    if n > 0 {
      OddTimes(d, step);
      OddScale(d / 2, step, n - 1);
    }
  }

  lemma {:induction false} OddTimes(d: nat, step: nat)
    requires step % 2 == 1
    ensures (d * step) % 2 == d % 2
    ensures d % 2 == 0 ==> (d * step) / 2 == (d / 2) * step
  {
    var e, q := d / 2, step / 2;
    assert d * step == 2 * (d * q) + d by { assert step == 2 * q + 1; }
    if d % 2 == 0 { assert d * step == 2 * (e * step); }
  }

  lemma {:induction false} LowAddLow(v: nat, w: nat, n: nat)
    ensures Low(Low(v, n) + w, n) == Low(v + w, n)
  {
    hide Low, Shr, Shl;
    LowShr(v, n);
    AddAbove(Low(v, n) + w, Shr(v, n), n);
  }

  lemma {:induction false} VisitClosedForm(tableLog: nat, k: nat)
    ensures Visit(tableLog, k) == Low(k * TableStep(tableLog), tableLog)
  {
    hide Low, TableStep;
    var step := TableStep(tableLog);
    if k == 0 {
      assert 0 * step == 0;
      LowSmall(0, tableLog);
    } else {
      VisitClosedForm(tableLog, k - 1);
      LowAddLow((k - 1) * step, step, tableLog);
      assert (k - 1) * step + step == k * step;
    }
  }

  /** The walk returns to zero after exactly one turn and meets no cell twice before. */
  lemma {:induction false} VisitInjective(tableLog: nat, a: nat, b: nat)
    requires MIN_TABLELOG <= tableLog && a < b <= Pow2(tableLog)
    requires Visit(tableLog, a) == Visit(tableLog, b)
    ensures a == 0 && b == Pow2(tableLog)
  {
    hide Low, Shr, Shl, Pow2, TableStep;
    var step, d := TableStep(tableLog), b - a;
    VisitClosedForm(tableLog, a);
    VisitClosedForm(tableLog, b);
    assert b * step == a * step + d * step by { assert b == a + d; }
    LowDiff(a * step, d * step, tableLog);
    StepOdd(tableLog);
    OddScale(d, step, tableLog);
    if d < Pow2(tableLog) { LowSmall(d, tableLog); }
  }

  lemma {:induction false} LowDiff(v: nat, w: nat, n: nat)
    requires Low(v, n) == Low(v + w, n)
    ensures Low(w, n) == 0
  {
    if n > 0 {
      var c := (v % 2 + w % 2) / 2;
      assert w % 2 == 0;
      assert (v + w) / 2 == v / 2 + w / 2;
      LowDiff(v / 2, w / 2, n - 1);
    }
  }

  lemma {:induction false} VisitTurn(tableLog: nat)
    ensures Visit(tableLog, Pow2(tableLog)) == 0
  {
    hide Low, Pow2, TableStep;
    VisitClosedForm(tableLog, Pow2(tableLog));
    ShlMul(TableStep(tableLog), tableLog);
    assert TableStep(tableLog) * Pow2(tableLog) == Pow2(tableLog) * TableStep(tableLog);
    AddAbove(0, TableStep(tableLog), tableLog);
    LowSmall(0, tableLog);
  }

  // ---------------------------------------------------------------- the spread table

  /** What the finished table holds: the low-probability symbols downwards from the top in symbol
      order, and below them the other symbols, each `norm` times, along the walk. */
  ghost predicate IsSpread(t: seq<nat>, norm: seq<int>, tableLog: nat)
    requires MIN_TABLELOG <= tableLog
  {
    && |t| == Pow2(tableLog)
    && LowLaid(t, norm, tableLog, |norm|)
    && WalkLaid(t, norm, tableLog, Pow2(tableLog))
  }

  ghost predicate LowLaid(t: seq<nat>, norm: seq<int>, tableLog: nat, k: nat)
    requires k <= |norm| && |t| == Pow2(tableLog)
  {
    forall s {:trigger LowCount(norm, s)} :: 0 <= s < k && norm[s] == -1 ==>
      LowCount(norm, s) < |t| && t[|t| - 1 - LowCount(norm, s)] == s
  }

  ghost predicate WalkLaid(t: seq<nat>, norm: seq<int>, tableLog: nat, k: nat)
    requires |t| == Pow2(tableLog)
  {
    var high := HighThreshold(norm, tableLog);
    forall i, s {:trigger Visit(tableLog, i), WalkCount(norm, s)} ::
      0 <= i < k && 0 <= s < |norm| && Visit(tableLog, i) <= high
      && WalkCount(norm, s) <= Opened(tableLog, high, i) < WalkCount(norm, s) + norm[s]
      ==> t[Visit(tableLog, i)] == s
  }

  // ---------------------------------------------------------------- the walk covers every open cell

  /** Open cells met in the first `k` steps. */
  ghost function Seen(tableLog: nat, high: int, k: nat): set<nat> {
    if k == 0 then {}
    else Seen(tableLog, high, k - 1) + if Visit(tableLog, k - 1) <= high then {Visit(tableLog, k - 1)} else {}
  }

  lemma {:induction false} SeenNext(tableLog: nat, high: int, k: nat)
    ensures k == 0 ==> Seen(tableLog, high, k) == {} && Opened(tableLog, high, k) == 0
    ensures k > 0 ==>
      if Visit(tableLog, k - 1) <= high then
        && Seen(tableLog, high, k) == Seen(tableLog, high, k - 1) + {Visit(tableLog, k - 1)}
        && Opened(tableLog, high, k) == Opened(tableLog, high, k - 1) + 1
      else
        && Seen(tableLog, high, k) == Seen(tableLog, high, k - 1)
        && Opened(tableLog, high, k) == Opened(tableLog, high, k - 1)
  {
    hide Visit;
  }

  lemma {:induction false} SeenMember(tableLog: nat, high: int, k: nat, p: nat)
    ensures p in Seen(tableLog, high, k) <==> exists i :: 0 <= i < k && Visit(tableLog, i) == p && p <= high
  {
    hide Visit, Seen, Opened;
    SeenNext(tableLog, high, k);
    if k > 0 {
      SeenMember(tableLog, high, k - 1, p);
      if p in Seen(tableLog, high, k - 1) {
        var i :| 0 <= i < k - 1 && Visit(tableLog, i) == p && p <= high;
        assert 0 <= i < k && Visit(tableLog, i) == p && p <= high;
      } else if p == Visit(tableLog, k - 1) && p <= high {
        assert 0 <= k - 1 < k && Visit(tableLog, k - 1) == p && p <= high;
      } else {
        assert p !in Seen(tableLog, high, k);
      }
    }
  }

  lemma {:induction false} SeenFresh(tableLog: nat, high: int, k: nat)
    requires MIN_TABLELOG <= tableLog && k < Pow2(tableLog)
    ensures Visit(tableLog, k) !in Seen(tableLog, high, k)
  {
    hide Visit, Pow2, Seen;
    var p := Visit(tableLog, k);
    SeenMember(tableLog, high, k, p);
    if p in Seen(tableLog, high, k) {
      var i :| 0 <= i < k && Visit(tableLog, i) == p;
      VisitInjective(tableLog, i, k);
    }
  }

  lemma {:induction false} SeenSize(tableLog: nat, high: int, k: nat)
    requires MIN_TABLELOG <= tableLog && k <= Pow2(tableLog)
    ensures |Seen(tableLog, high, k)| == Opened(tableLog, high, k)
  {
    hide Visit, Pow2, Seen, Opened;
    SeenNext(tableLog, high, k);
    if k > 0 {
      SeenSize(tableLog, high, k - 1);
      SeenFresh(tableLog, high, k - 1);
    }
  }

  lemma {:induction false} OpenedAll(tableLog: nat, k: nat)
    ensures Opened(tableLog, Pow2(tableLog) - 1, k) == k
  {
    if k > 0 { OpenedAll(tableLog, k - 1); }
  }

  /** One turn visits every cell. */
  lemma {:induction false} VisitSurjective(tableLog: nat, p: nat) returns (i: nat)
    requires MIN_TABLELOG <= tableLog && p < Pow2(tableLog)
    ensures i < Pow2(tableLog) && Visit(tableLog, i) == p
  {
    hide Visit, Opened, Seen, Range, Pow2;
    var n := Pow2(tableLog);
    SeenSize(tableLog, n - 1, n);
    OpenedAll(tableLog, n);
    RangeSize(n);
    forall q | q in Seen(tableLog, n - 1, n) ensures q in Range(n) {
      SeenMember(tableLog, n - 1, n, q);
    }
    SubsetSameSize(Seen(tableLog, n - 1, n), Range(n));
    assert p in Range(n);
    SeenMember(tableLog, n - 1, n, p);
    i :| 0 <= i < n && Visit(tableLog, i) == p;
  }

  /** One turn meets each open cell exactly once. */
  lemma {:induction false} OpenedTurn(tableLog: nat, high: int)
    requires MIN_TABLELOG <= tableLog && -1 <= high < Pow2(tableLog)
    ensures Opened(tableLog, high, Pow2(tableLog)) == high + 1
  {
    hide Visit, Opened, Seen, Range, Pow2;
    var n := Pow2(tableLog);
    SeenSize(tableLog, high, n);
    RangeSize(high + 1);
    forall p: nat ensures p in Range(high + 1) <==> p in Seen(tableLog, high, n) {
      SeenMember(tableLog, high, n, p);
      if p <= high { var i := VisitSurjective(tableLog, p); }
    }
    assert Seen(tableLog, high, n) == Range(high + 1);
  }

  lemma {:induction false} OpenedMono(tableLog: nat, high: int, j: nat, k: nat)
    requires j <= k
    ensures Opened(tableLog, high, j) <= Opened(tableLog, high, k)
    decreases k
  {
    if j < k { OpenedMono(tableLog, high, j, k - 1); }
  }

  /** While open cells are left the turn is not over; when none is left it is exactly over. */
  lemma {:induction false} TurnOver(norm: seq<int>, tableLog: nat, k: nat)
    requires ValidNorm(norm, tableLog) && k <= Pow2(tableLog)
    ensures
      var high := HighThreshold(norm, tableLog);
      && WalkCount(norm, |norm|) == high + 1
      && (Opened(tableLog, high, k) < high + 1 ==> k < Pow2(tableLog))
      && (Opened(tableLog, high, k) == high + 1 && Visit(tableLog, k) <= high ==> k == Pow2(tableLog))
  {
    hide Visit, Pow2;
    var high := HighThreshold(norm, tableLog);
    CountsAddUp(norm, |norm|);
    OpenedTurn(tableLog, high);
    if k < Pow2(tableLog) { OpenedMono(tableLog, high, k + 1, Pow2(tableLog)); }
  }

  // ---------------------------------------------------------------- laying the symbols

  lemma {:induction false} PlaceStep(t: seq<nat>, norm: seq<int>, tableLog: nat, k: nat, s: nat)
    requires ValidNorm(norm, tableLog) && k < |t| == Pow2(tableLog) && s < |norm|
    requires WalkLaid(t, norm, tableLog, k) && LowLaid(t, norm, tableLog, |norm|)
    requires
      var high := HighThreshold(norm, tableLog);
      && Visit(tableLog, k) <= high
      && WalkCount(norm, s) <= Opened(tableLog, high, k) < WalkCount(norm, s) + norm[s]
    ensures
      var t' := t[Visit(tableLog, k) := s];
      WalkLaid(t', norm, tableLog, k + 1) && LowLaid(t', norm, tableLog, |norm|)
  {
    hide Visit, Pow2, Base, Opened;
    var high := HighThreshold(norm, tableLog);
    var p := Visit(tableLog, k);
    var t' := t[p := s];
    forall i, s' {:trigger Visit(tableLog, i), WalkCount(norm, s')} |
      0 <= i < k + 1 && 0 <= s' < |norm| && Visit(tableLog, i) <= high
      && WalkCount(norm, s') <= Opened(tableLog, high, i) < WalkCount(norm, s') + norm[s']
      ensures t'[Visit(tableLog, i)] == s'
    {
      if i == k {
        if s < s' { CountsMono(norm, s + 1, s'); }
        if s' < s { CountsMono(norm, s' + 1, s); }
      } else if Visit(tableLog, i) == p {
        VisitInjective(tableLog, i, k);
      }
    }
    forall s' {:trigger LowCount(norm, s')} | 0 <= s' < |norm| && norm[s'] == -1
      ensures LowCount(norm, s') < |t| && t'[|t| - 1 - LowCount(norm, s')] == s'
    {
      CountsMono(norm, s' + 1, |norm|);
      assert LowCount(norm, s' + 1) == LowCount(norm, s') + 1;
    }
  }

  /** Steps over closed cells lay nothing. */
  lemma {:induction false} SkipSteps(t: seq<nat>, norm: seq<int>, tableLog: nat, k: nat, k': nat)
    requires |t| == Pow2(tableLog) && k <= k'
    requires WalkLaid(t, norm, tableLog, k)
    requires forall i :: k <= i < k' ==> Visit(tableLog, i) > HighThreshold(norm, tableLog)
    ensures WalkLaid(t, norm, tableLog, k')
  {
    hide Visit, Pow2;
  }

  /** One advance of the walk past the low-probability area. */
  method NextPosition(tableLog: nat, highThreshold: int, position: nat, ghost k: nat)
    returns (next: nat, ghost k': nat)
    requires MIN_TABLELOG <= tableLog && 0 <= highThreshold && k < Pow2(tableLog) && position == Visit(tableLog, k)
    ensures k < k' <= Pow2(tableLog)
    ensures next == Visit(tableLog, k') && next <= highThreshold
    ensures forall i :: k < i < k' ==> Visit(tableLog, i) > highThreshold
    ensures Opened(tableLog, highThreshold, k') == Opened(tableLog, highThreshold, k + 1)
  {
    hide Pow2, Low, TableStep;
    next, k' := Low(position + TableStep(tableLog), tableLog), k + 1;
    while next > highThreshold
      invariant k < k' <= Pow2(tableLog) && next == Visit(tableLog, k')
      invariant forall i :: k < i < k' ==> Visit(tableLog, i) > highThreshold
      invariant Opened(tableLog, highThreshold, k') == Opened(tableLog, highThreshold, k + 1)
      decreases Pow2(tableLog) - k'
    {
      if k' == Pow2(tableLog) { VisitTurn(tableLog); }
      next, k' := Low(next + TableStep(tableLog), tableLog), k' + 1;
    }
  }

  // ---------------------------------------------------------------- how often a symbol occurs

  /** Occurrences of `s`; for `t[..u]` also the rank of an occurrence at `u`. */
  function Count(t: seq<nat>, s: nat): (n: nat)
    ensures n <= |t|
  {
    if t == [] then 0 else Count(t[..|t| - 1], s) + if t[|t| - 1] == s then 1 else 0
  }

  ghost function Where(t: seq<nat>, s: nat, from: nat, to: nat): set<nat>
    requires to <= |t|
  {
    set u: nat | from <= u < to && t[u] == s
  }

  lemma {:induction false} CountIsSize(t: seq<nat>, s: nat, n: nat)
    requires n <= |t|
    ensures Count(t[..n], s) == |Where(t, s, 0, n)|
  {
    if n > 0 {
      CountIsSize(t, s, n - 1);
      assert t[..n][..n - 1] == t[..n - 1];
      var w := Where(t, s, 0, n - 1);
      assert Where(t, s, 0, n) == if t[n - 1] == s then w + {n - 1} else w;
    } else {
      assert Where(t, s, 0, 0) == {};
    }
  }

  /** The range of walk counts a number falls into. */
  lemma {:induction false} WalkOwner(norm: seq<int>, k: nat, j: nat) returns (s: nat)
    requires k <= |norm| && j < WalkCount(norm, k)
    ensures s < k && WalkCount(norm, s) <= j < WalkCount(norm, s) + norm[s]
  {
    if j < WalkCount(norm, k - 1) {
      s := WalkOwner(norm, k - 1, j);
    } else {
      s := k - 1;
    }
  }

  lemma {:induction false} LowOwner(norm: seq<int>, k: nat, r: nat) returns (s: nat)
    requires k <= |norm| && r < LowCount(norm, k)
    ensures s < k && norm[s] == -1 && LowCount(norm, s) == r
  {
    if r < LowCount(norm, k - 1) {
      s := LowOwner(norm, k - 1, r);
    } else {
      s := k - 1;
    }
  }

  /** Cells the walk gives to symbol `s` in its first `k` steps. */
  ghost function Given(norm: seq<int>, tableLog: nat, high: int, s: nat, k: nat): set<nat>
    requires s < |norm|
  {
    if k == 0 then {}
    else
      Given(norm, tableLog, high, s, k - 1) +
      if Visit(tableLog, k - 1) <= high
         && WalkCount(norm, s) <= Opened(tableLog, high, k - 1) < WalkCount(norm, s) + norm[s]
      then {Visit(tableLog, k - 1)} else {}
  }

  lemma {:induction false} GivenMembers(norm: seq<int>, tableLog: nat, high: int, s: nat, k: nat, p: nat)
    requires s < |norm|
    ensures p in Given(norm, tableLog, high, s, k) <==>
      exists i :: 0 <= i < k && Visit(tableLog, i) == p && p <= high
        && WalkCount(norm, s) <= Opened(tableLog, high, i) < WalkCount(norm, s) + norm[s]
  {
    hide Visit, Opened, WalkCount;
    if k > 0 {
      GivenMembers(norm, tableLog, high, s, k - 1, p);
      if p in Given(norm, tableLog, high, s, k - 1) {
        var i :| 0 <= i < k - 1 && Visit(tableLog, i) == p && p <= high
        && WalkCount(norm, s) <= Opened(tableLog, high, i) < WalkCount(norm, s) + norm[s];
        assert 0 <= i < k;
      } else if p in Given(norm, tableLog, high, s, k) {
        assert Visit(tableLog, k - 1) == p && p <= high
          && WalkCount(norm, s) <= Opened(tableLog, high, k - 1) < WalkCount(norm, s) + norm[s];
      }
    }
  }

  lemma {:induction false} GivenFresh(norm: seq<int>, tableLog: nat, high: int, s: nat, k: nat)
    requires MIN_TABLELOG <= tableLog && s < |norm| && k < Pow2(tableLog)
    ensures Visit(tableLog, k) !in Given(norm, tableLog, high, s, k)
  {
    hide Visit, Pow2, Given, WalkCount, Opened;
    var p := Visit(tableLog, k);
    GivenMembers(norm, tableLog, high, s, k, p);
    if p in Given(norm, tableLog, high, s, k) {
      var i :| 0 <= i < k && Visit(tableLog, i) == p;
      VisitInjective(tableLog, i, k);
    }
  }

  lemma {:induction false} GivenSize(norm: seq<int>, tableLog: nat, high: int, s: nat, k: nat)
    requires MIN_TABLELOG <= tableLog && s < |norm| && k <= Pow2(tableLog)
    ensures
      var o, w, n := Opened(tableLog, high, k), WalkCount(norm, s), if norm[s] > 0 then norm[s] else 0;
      |Given(norm, tableLog, high, s, k)| == if o <= w then 0 else if o <= w + n then o - w else n
  {
    hide Visit, WalkCount, Pow2, Given, Opened, Seen;
    SeenNext(tableLog, high, k);
    GivenNext(norm, tableLog, high, s, k);
    if k > 0 {
      GivenSize(norm, tableLog, high, s, k - 1);
      GivenFresh(norm, tableLog, high, s, k - 1);
    }
  }

  lemma {:induction false} GivenNext(norm: seq<int>, tableLog: nat, high: int, s: nat, k: nat)
    requires s < |norm|
    ensures k == 0 ==> Given(norm, tableLog, high, s, k) == {}
    ensures k > 0 ==>
      if Visit(tableLog, k - 1) <= high
         && WalkCount(norm, s) <= Opened(tableLog, high, k - 1) < WalkCount(norm, s) + norm[s]
      then Given(norm, tableLog, high, s, k) == Given(norm, tableLog, high, s, k - 1) + {Visit(tableLog, k - 1)}
      else Given(norm, tableLog, high, s, k) == Given(norm, tableLog, high, s, k - 1)
  {
    hide Visit, Opened, WalkCount;
  }

  /** In the open cells a symbol sits exactly where the walk put it. */
  lemma {:induction false} WalkedCells(t: seq<nat>, norm: seq<int>, tableLog: nat, s: nat)
    requires ValidNorm(norm, tableLog) && s < |norm| && IsSpread(t, norm, tableLog)
    ensures
      var high := HighThreshold(norm, tableLog);
      && 0 <= high + 1 <= |t|
      && Where(t, s, 0, high + 1) == Given(norm, tableLog, high, s, |t|)
  {
    hide Visit, Opened, Pow2, Base;
    var high := HighThreshold(norm, tableLog);
    TurnOver(norm, tableLog, 0);
    forall p: nat | p <= high
      ensures t[p] == s <==> p in Given(norm, tableLog, high, s, |t|)
    {
      var i := VisitSurjective(tableLog, p);
      GivenMembers(norm, tableLog, high, s, |t|, p);
      OpenedBelow(tableLog, high, i);
      var s' := WalkOwner(norm, |norm|, Opened(tableLog, high, i));
      assert t[p] == s';
      if p in Given(norm, tableLog, high, s, |t|) {
        var i' :| 0 <= i' < |t| && Visit(tableLog, i') == p
        && WalkCount(norm, s) <= Opened(tableLog, high, i') < WalkCount(norm, s) + norm[s];
        assert t[p] == s;
      }
    }
    forall p | p in Given(norm, tableLog, high, s, |t|) ensures p <= high {
      GivenMembers(norm, tableLog, high, s, |t|, p);
    }
  }

  lemma {:induction false} OpenedBelow(tableLog: nat, high: int, i: nat)
    requires MIN_TABLELOG <= tableLog && -1 <= high < Pow2(tableLog)
    requires i < Pow2(tableLog) && Visit(tableLog, i) <= high
    ensures Opened(tableLog, high, i) < high + 1
  {
    hide Visit, Pow2;
    OpenedMono(tableLog, high, i + 1, Pow2(tableLog));
    OpenedTurn(tableLog, high);
  }

  lemma {:induction false} LowsDistinct(norm: seq<int>, s: nat, s': nat)
    requires s < |norm| && s' < |norm|
    ensures norm[s] == -1 && norm[s'] == -1 && LowCount(norm, s) == LowCount(norm, s') ==> s == s'
  {
    if s < s' { CountsMono(norm, s + 1, s'); }
    if s' < s { CountsMono(norm, s' + 1, s); }
  }

  lemma {:induction false} LowCells(t: seq<nat>, norm: seq<int>, tableLog: nat, s: nat)
    requires ValidNorm(norm, tableLog) && s < |norm| && IsSpread(t, norm, tableLog)
    ensures
      var high := HighThreshold(norm, tableLog);
      && 0 <= high + 1 <= |t|
      && Where(t, s, high + 1, |t|) == if norm[s] == -1 then {|t| - 1 - LowCount(norm, s)} else {}
  {
    hide Pow2, Base;
    var high := HighThreshold(norm, tableLog);
    TurnOver(norm, tableLog, 0);
    forall u: nat | high + 1 <= u < |t|
      ensures t[u] == s <==> norm[s] == -1 && u == |t| - 1 - LowCount(norm, s)
    {
      var s' := LowOwner(norm, |norm|, |t| - 1 - u);
      assert t[u] == s';
      LowsDistinct(norm, s, s');
    }
    if norm[s] == -1 { CountsMono(norm, s + 1, |norm|); }
  }

  /** Symbol spreading is a permutation: every symbol gets exactly its cells. */
  lemma {:induction false} SpreadCount(t: seq<nat>, norm: seq<int>, tableLog: nat, s: nat)
    requires ValidNorm(norm, tableLog) && s < |norm| && IsSpread(t, norm, tableLog)
    ensures Count(t, s) == Cells(norm[s])
  {
    hide Visit, Opened, Pow2, Base, Given, LowLaid, WalkLaid;
    var high := HighThreshold(norm, tableLog);
    WalkedCells(t, norm, tableLog, s);
    LowCells(t, norm, tableLog, s);
    GivenAll(norm, tableLog, s);
    CountSplit(t, s, high + 1);
  }

  lemma {:induction false} GivenAll(norm: seq<int>, tableLog: nat, s: nat)
    requires ValidNorm(norm, tableLog) && s < |norm|
    ensures |Given(norm, tableLog, HighThreshold(norm, tableLog), s, Pow2(tableLog))| == if norm[s] > 0 then norm[s] else 0
  {
    hide Visit, Opened, Pow2, Base, Given;
    var high := HighThreshold(norm, tableLog);
    TurnOver(norm, tableLog, 0);
    OpenedTurn(tableLog, high);
    GivenSize(norm, tableLog, high, s, Pow2(tableLog));
    CountsMono(norm, s + 1, |norm|);
  }

  lemma {:induction false} CountSplit(t: seq<nat>, s: nat, mid: nat)
    requires mid <= |t|
    ensures Count(t, s) == |Where(t, s, 0, mid)| + |Where(t, s, mid, |t|)|
  {
    CountIsSize(t, s, |t|);
    assert t[..|t|] == t;
    var w, l := Where(t, s, 0, mid), Where(t, s, mid, |t|);
    assert Where(t, s, 0, |t|) == w + l && w !! l;
  }

  /** Every cell of the table holds a symbol that owns cells. */
  lemma {:induction false} SpreadSymbol(t: seq<nat>, norm: seq<int>, tableLog: nat, u: nat)
    requires ValidNorm(norm, tableLog) && IsSpread(t, norm, tableLog) && u < |t|
    ensures t[u] < |norm| && norm[t[u]] != 0
  {
    hide Visit, Opened, Pow2, Base;
    var high := HighThreshold(norm, tableLog);
    TurnOver(norm, tableLog, 0);
    if u <= high {
      var i := VisitSurjective(tableLog, u);
      OpenedBelow(tableLog, high, i);
      var s := WalkOwner(norm, |norm|, Opened(tableLog, high, i));
    } else {
      var s := LowOwner(norm, |norm|, |t| - 1 - u);
    }
  }

  /** Encoder and decoder cannot disagree: the description determines the table. */
  lemma {:induction false} SpreadUnique(t: seq<nat>, t': seq<nat>, norm: seq<int>, tableLog: nat)
    requires ValidNorm(norm, tableLog) && IsSpread(t, norm, tableLog) && IsSpread(t', norm, tableLog)
    ensures t == t'
  {
    hide Visit, Opened, Pow2, Base;
    var high := HighThreshold(norm, tableLog);
    TurnOver(norm, tableLog, 0);
    forall u | 0 <= u < |t| ensures t[u] == t'[u] {
      if u <= high {
        var i := VisitSurjective(tableLog, u);
        OpenedBelow(tableLog, high, i);
        var s := WalkOwner(norm, |norm|, Opened(tableLog, high, i));
      } else {
        var s := LowOwner(norm, |norm|, |t| - 1 - u);
      }
    }
  }
}
