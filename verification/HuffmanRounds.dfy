/** Which codes are lengthened when the limited lengths overdraw the code space: the rounds of the repayment, told by the lengths
    and frequencies alone. They determine the limited lengths. */
module HuffmanRounds {
  import opened Powers

  // ---------------------------------------------------------------- ranks

  /** No code is `r` bits shorter than the limit `m`. */
  ghost predicate NoneAt(b: seq<nat>, m: nat, r: nat) { forall i :: 0 <= i < |b| ==> b[i] + r != m }

  /** The last, that is, least frequent symbol whose code is. */
  ghost predicate LastAt(b: seq<nat>, m: nat, r: nat, p: nat) {
    p < |b| && b[p] + r == m && forall i :: p < i < |b| ==> b[i] + r != m
  }

  /** Two codes of rank `q - 1` are lengthened rather than one of rank `q`: there is none, or it would cost more. */
  ghost predicate Passed(b: seq<nat>, count: seq<nat>, m: nat, q: nat)
    requires |count| == |b| && q >= 1
  {
    NoneAt(b, m, q) || exists p: nat, l: nat :: LastAt(b, m, q, p) && LastAt(b, m, q - 1, l) && count[p] > 2 * count[l]
  }

  /** The descent from `top` stops at `stop`: the first rank that is not passed, or rank 1. */
  ghost predicate StopsAt(b: seq<nat>, count: seq<nat>, m: nat, top: nat, stop: nat)
    requires |count| == |b|
  {
    1 <= stop <= top && (forall q :: stop < q <= top ==> Passed(b, count, m, q)) && (stop > 1 ==> !Passed(b, count, m, stop))
  }

  /** The rank lengthened while `debt` units are owed: where the descent from the largest useful rank stops, or the next one above
      that is not empty. */
  ghost predicate Chosen(b: seq<nat>, count: seq<nat>, m: nat, debt: nat, r: nat)
    requires |count| == |b| && debt > 0
  {
    ChosenFrom(b, count, m, HighBit(debt) + 1, r)
  }

  ghost predicate ChosenFrom(b: seq<nat>, count: seq<nat>, m: nat, top: nat, r: nat)
    requires |count| == |b|
  {
    exists stop: nat :: StopsAt(b, count, m, top, stop) && FoundAbove(b, m, stop, r)
  }

  ghost predicate FoundAbove(b: seq<nat>, m: nat, stop: nat, r: nat) {
    stop <= r && !NoneAt(b, m, r) && forall q :: stop <= q < r ==> NoneAt(b, m, q)
  }

  /** Lengths, and the units still owed; fewer than none if too much has been repaid. */
  datatype Owed = Owed(bits: seq<nat>, debt: int)

  /** The last code of the rank chosen becomes one bit longer. */
  ghost predicate Lengthened(s: Owed, s': Owed, m: nat, r: nat, p: nat) {
    r >= 1 && LastAt(s.bits, m, r, p) && s' == Owed(s.bits[p := s.bits[p] + 1], s.debt - Pow2(r - 1))
  }

  ghost predicate Round(s: Owed, s': Owed, count: seq<nat>, m: nat) {
    && |count| == |s.bits| && s.debt > 0
    && exists r: nat, p: nat :: Chosen(s.bits, count, m, s.debt, r) && Lengthened(s, s', m, r, p)
  }

  ghost predicate Rounds(run: seq<Owed>, count: seq<nat>, m: nat) {
    run != [] && forall k :: 0 <= k < |run| - 1 ==> Round(run[k], run[k + 1], count, m)
  }

  /** The first `k` of the longest codes have become one bit shorter. */
  ghost predicate GivenBack(b: seq<nat>, c: seq<nat>, m: nat, k: nat) {
    && |b| == |c|
    && exists first: nat :: FirstLongest(b, m, first) && first + k <= |b| && ShortenedFrom(b, c, m, first, first + k)
  }

  ghost predicate FirstLongest(b: seq<nat>, m: nat, first: nat) {
    first <= |b| && (forall i :: 0 <= i < first ==> b[i] < m) && forall i :: first <= i < |b| ==> b[i] == m
  }

  ghost predicate ShortenedFrom(b: seq<nat>, c: seq<nat>, m: nat, from: nat, to: nat)
    requires |b| == |c|
  {
    forall i :: 0 <= i < |b| ==> if from <= i < to then b[i] == m && c[i] + 1 == m else c[i] == b[i]
  }

  /** Rounds from the lengths `b` with the debt `debt` until nothing is owed any more, and what has been repaid too much given back. */
  ghost predicate Repaid(b: seq<nat>, debt: int, count: seq<nat>, m: nat, c: seq<nat>) {
    exists run: seq<Owed> :: RepaidBy(run, b, debt, count, m, c)
  }

  ghost predicate RepaidBy(run: seq<Owed>, b: seq<nat>, debt: int, count: seq<nat>, m: nat, c: seq<nat>) {
    && Rounds(run, count, m) && run[0] == Owed(b, debt)
    && run[|run| - 1].debt <= 0 && GivenBack(run[|run| - 1].bits, c, m, -run[|run| - 1].debt)
  }

  // ---------------------------------------------------------------- they leave no choice

  lemma {:induction false} LastIsUnique(b: seq<nat>, m: nat, r: nat, p: nat, p': nat)
    requires LastAt(b, m, r, p) && LastAt(b, m, r, p')
    ensures p == p'
  {}

  lemma {:induction false} ChoiceIsUnique(b: seq<nat>, count: seq<nat>, m: nat, debt: nat, r: nat, r': nat)
    requires |count| == |b| && debt > 0 && Chosen(b, count, m, debt, r) && Chosen(b, count, m, debt, r')
    ensures r == r'
  {
    hide Passed, NoneAt;
    var top := HighBit(debt) + 1;
    var s: nat :| StopsAt(b, count, m, top, s) && FoundAbove(b, m, s, r);
    var s': nat :| StopsAt(b, count, m, top, s') && FoundAbove(b, m, s', r');
    assert s == s';
  }

  lemma {:induction false} RoundIsUnique(s: Owed, x: Owed, y: Owed, count: seq<nat>, m: nat)
    requires Round(s, x, count, m) && Round(s, y, count, m)
    ensures x == y
  {
    hide Chosen, LastAt;
    var r: nat, p: nat :| Chosen(s.bits, count, m, s.debt, r) && Lengthened(s, x, m, r, p);
    var r': nat, p': nat :| Chosen(s.bits, count, m, s.debt, r') && Lengthened(s, y, m, r', p');
    ChoiceIsUnique(s.bits, count, m, s.debt, r, r');
    LastIsUnique(s.bits, m, r, p, p');
  }

  lemma {:induction false} RunsAgree(x: seq<Owed>, y: seq<Owed>, count: seq<nat>, m: nat, k: nat)
    requires Rounds(x, count, m) && Rounds(y, count, m) && x[0] == y[0] && k < |x| && k < |y|
    ensures x[k] == y[k]
  {
    hide Round;
    if k > 0 {
      RunsAgree(x, y, count, m, k - 1);
      assert Round(x[k - 1], x[k - 1 + 1], count, m) && Round(y[k - 1], y[k - 1 + 1], count, m);
      RoundIsUnique(x[k - 1], x[k], y[k], count, m);
    }
  }

  /** A run that is not at its end yet still owes something. */
  lemma {:induction false} OwesBefore(x: seq<Owed>, count: seq<nat>, m: nat, k: nat)
    requires Rounds(x, count, m) && k < |x| - 1
    ensures x[k].debt > 0
  {
    assert Round(x[k], x[k + 1], count, m);
  }

  lemma {:induction false} BackIsUnique(b: seq<nat>, c: seq<nat>, d: seq<nat>, m: nat, k: nat)
    requires GivenBack(b, c, m, k) && GivenBack(b, d, m, k)
    ensures c == d
  {
    var f: nat :| FirstLongest(b, m, f) && f + k <= |b| && ShortenedFrom(b, c, m, f, f + k);
    var g: nat :| FirstLongest(b, m, g) && g + k <= |b| && ShortenedFrom(b, d, m, g, g + k);
    assert (f < |b| ==> b[f] == m) && (g < |b| ==> b[g] == m);
    forall i | 0 <= i < |b| ensures c[i] == d[i] {}
  }

  /** So the lengths that come out are determined. */
  lemma {:induction false} RepaidIsUnique(b: seq<nat>, debt: int, count: seq<nat>, m: nat, c: seq<nat>, d: seq<nat>)
    requires Repaid(b, debt, count, m, c) && Repaid(b, debt, count, m, d)
    ensures c == d
  {
    hide Rounds, GivenBack;
    var x: seq<Owed> :| RepaidBy(x, b, debt, count, m, c);
    var y: seq<Owed> :| RepaidBy(y, b, debt, count, m, d);
    RunNotEmpty(x, count, m);
    RunNotEmpty(y, count, m);
    if |x| < |y| {
      RunsAgree(x, y, count, m, |x| - 1);
      OwesBefore(y, count, m, |x| - 1);
    } else if |y| < |x| {
      RunsAgree(x, y, count, m, |y| - 1);
      OwesBefore(x, count, m, |y| - 1);
    } else {
      RunsAgree(x, y, count, m, |x| - 1);
    }
    BackIsUnique(x[|x| - 1].bits, c, d, m, -x[|x| - 1].debt);
  }

  lemma {:induction false} RunNotEmpty(x: seq<Owed>, count: seq<nat>, m: nat)
    requires Rounds(x, count, m)
    ensures x != []
  {}

  lemma {:induction false} OneRoundMore(run: seq<Owed>, s: Owed, count: seq<nat>, m: nat)
    requires Rounds(run, count, m) && Round(run[|run| - 1], s, count, m)
    ensures Rounds(run + [s], count, m)
  {
    hide Round;
  }
}
