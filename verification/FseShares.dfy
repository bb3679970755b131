/** What the secondary normalization gives each symbol, told by the counts alone. */
module FseShares {
  import opened Powers

  // ---------------------------------------------------------------- symbols of one cell

  /** Symbols that occur, at most `limit` times. */
  function Singles(count: seq<nat>, limit: nat): (k: nat)
    ensures k <= |count|
  {
    if count == [] then 0
    else Singles(count[..|count| - 1], limit) + if 0 < count[|count| - 1] <= limit then 1 else 0
  }

  /** How often the others occur. */
  function Above(count: seq<nat>, limit: nat): nat {
    if count == [] then 0
    else Above(count[..|count| - 1], limit) + if count[|count| - 1] > limit then count[|count| - 1] else 0
  }

  /** All symbols occur, at most `limit` times. */
  ghost predicate AllLow(count: seq<nat>, limit: nat) { forall s :: 0 <= s < |count| ==> 0 < count[s] <= limit }

  ghost predicate NoneAbove(count: seq<nat>, limit: nat) { forall s :: 0 <= s < |count| ==> count[s] <= limit }

  lemma {:induction false} SinglesMeaning(count: seq<nat>, limit: nat)
    ensures Singles(count, limit) == |count| <==> AllLow(count, limit)
    ensures Above(count, limit) == 0 <==> NoneAbove(count, limit)
  {
    if count != [] {
      var k := |count| - 1;
      SinglesMeaning(count[..k], limit);
      assert AllLow(count, limit) <==> AllLow(count[..k], limit) && 0 < count[k] <= limit;
      assert NoneAbove(count, limit) <==> NoneAbove(count[..k], limit) && count[k] <= limit;
    }
  }

  function Quotient(a: nat, b: nat): nat
    requires b > 0
  {
    a / b
  }

  /** One and a half times what each of the cells stands for. */
  function LimitFor(total: nat, cells: nat): nat
    requires cells > 0
  {
    Quotient(3 * total, 2 * cells)
  }

  predicate AverageAbove(total: nat, cells: nat, limit: nat)
    requires cells > 0
  {
    Quotient(total, cells) > limit
  }

  /** The limit up to which symbols get single cells: raised if the cells that are then left stand for more than the first limit. */
  function Limit(count: seq<nat>, total: nat, cells: nat): nat
    requires cells > 0
  {
    var first := LimitFor(total, cells);
    var left, rest: nat := cells - Singles(count, first), Above(count, first);
    if left > 0 && AverageAbove(rest, left, first) then LimitFor(rest, left) else first
  }

  /** It is never lowered. */
  lemma {:induction false} RaisedIsHigher(rest: nat, left: nat, first: nat)
    requires left > 0 && AverageAbove(rest, left, first)
    ensures first < LimitFor(rest, left)
  {
    var q := rest / left;
    assert rest == left * q + rest % left;
    assert 3 * rest >= (2 * left) * q;
    QuotientAtLeast(3 * rest, 2 * left, q);
  }

  lemma {:induction false} QuotientAtLeast(a: nat, d: nat, q: nat)
    requires d > 0 && d * q <= a
    ensures q <= Quotient(a, d)
  {
    var r := a / d;
    assert a == d * r + a % d;
    if r < q { MulLe(r + 1, q, d); }
  }

  /** Nor is the first limit below the low threshold. */
  lemma {:induction false} LowIsBelow(total: nat, cells: nat)
    requires cells > 0
    ensures Quotient(total, cells) <= LimitFor(total, cells)
  {
    var q := total / cells;
    assert total == cells * q + total % cells;
    assert (2 * cells) * q == 2 * (cells * q);
    QuotientAtLeast(3 * total, 2 * cells, q);
  }

  // ---------------------------------------------------------------- what the method leaves behind

  /** Symbols up to the limit: one cell, marked as low up to the low threshold. */
  function Single(c: nat, low: nat): int { if c == 0 then 0 else if c <= low then -1 else 1 }

  ghost predicate SinglesGiven(norm: seq<int>, count: seq<nat>, low: nat, limit: nat) {
    |norm| == |count| && forall s :: 0 <= s < |count| && count[s] <= limit ==> norm[s] == Single(count[s], low)
  }

  /** The first of the most frequent symbols has `left` cells more than one. */
  ghost predicate ToppedUp(norm: seq<int>, count: seq<nat>, low: nat, left: nat) {
    && |norm| == |count|
    && exists v: nat :: MostFrequent(count, v) && forall s :: 0 <= s < |count| ==> norm[s] == Single(count[s], low) + if s == v then left else 0
  }

  ghost predicate MostFrequent(count: seq<nat>, v: nat) {
    v < |count| && forall s :: 0 <= s < |count| ==> if s < v then count[s] < count[v] else count[s] <= count[v]
  }

  /** Symbols above the low threshold share the cells evenly; those that come first have one more. */
  ghost predicate Evenly(norm: seq<int>, count: seq<nat>, low: nat) {
    && |norm| == |count|
    && (forall s :: 0 <= s < |count| && count[s] <= low ==> norm[s] == Single(count[s], low))
    && forall s, t :: 0 <= s < t < |count| && count[s] > low && count[t] > low ==> norm[t] <= norm[s] <= norm[t] + 1
  }

  /** Symbols above the limit share `left` cells in proportion to their counts, `rest` in all: up to one cell, and the rounding of
      the fixed point, half a cell at most. */
  predicate Proportional(n: int, c: nat, left: nat, rest: nat) { (n + 1) * rest > c * left && 2 * ((n - 1) * rest) <= c * (2 * left + 1) }

  ghost predicate Proportionally(norm: seq<int>, count: seq<nat>, limit: nat, left: nat, rest: nat) {
    && |norm| == |count|
    && (forall s :: 0 <= s < |count| && count[s] > limit ==> norm[s] >= 1 && Proportional(norm[s], count[s], left, rest))
    && forall s, t :: 0 <= s < |count| && 0 <= t < |count| && count[s] > limit && count[s] >= count[t] ==> norm[s] >= norm[t] - 1
  }

  /** What the secondary method makes of the counts. */
  ghost predicate SecondShares(norm: seq<int>, count: seq<nat>, total: nat, cells: nat)
    requires cells > 0
  {
    var low, limit := Quotient(total, cells), Limit(count, total, cells);
    var left, rest := cells - Singles(count, limit), Above(count, limit);
    && |norm| == |count| && left > 0
    && if AllLow(count, limit) then ToppedUp(norm, count, low, left)
       else if NoneAbove(count, limit) then Evenly(norm, count, low)
       else SinglesGiven(norm, count, low, limit) && Proportionally(norm, count, limit, left, rest)
  }
}
