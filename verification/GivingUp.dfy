/** What is lost when the search for a merge is given up after the first row of the table. */
module GivingUp {
  import opened Patterns
  import opened PatternMerge
  import opened PatternTables

  function Least(x: int, y: int): int { if x < y then x else y }

  /** How an entry comes from one of its neighbours; a step over a token lowers the value only by a wildcard. */
  lemma {:induction false} Step(a: Pattern, b: Pattern, m: nat, n: nat, i: nat, j: nat)
    requires 0 < i <= |a| && j <= |b|
    ensures
      var e := Entry(a, b, m, n, i, j);
      || (j > 0 && e.pat && e.state == Entry(a, b, m, n, i - 1, j - 1).state && Same(a[i - 1], b[j - 1]))
      || e.state >= UpdateState(Entry(a, b, m, n, i - 1, j).state, Entry(a, b, m, n, i - 1, j).pat, a[i - 1].Wild?, m, n)
      || (j > 0 && e.state >= UpdateState(Entry(a, b, m, n, i, j - 1).state, Entry(a, b, m, n, i, j - 1).pat, b[j - 1].Wild?, n, m))
  {}

  /** No entry behind a row that is given up lies below the threshold or the row's first entry, but for what wildcards pay back. */
  lemma {:induction false} BehindFirstRow(a: Pattern, b: Pattern, m: nat, n: nat, threshold: int, i: nat, j: nat)
    requires GivesUp(a, b, m, n, threshold) && 0 < i <= |a| && j <= |b|
    ensures Entry(a, b, m, n, i, j).state
         >= Least(threshold, Entry(a, b, m, n, 1, 0).state) - Times(m, Wilds(a[..i])) - Times(n, Wilds(b[..j]))
    decreases i + j
  {
    hide Entry, Times, Wilds;
    TimesMono(m, 0, Wilds(a[..i]));
    TimesMono(n, 0, Wilds(b[..j]));
    TimesStep(m, 0);
    TimesStep(n, 0);
    if i > 1 {
      Step(a, b, m, n, i, j);
      Taken(a, i);
      TimesStep(m, Wilds(a[..i - 1]));
      BehindFirstRow(a, b, m, n, threshold, i - 1, j);
      if j > 0 {
        Taken(b, j);
        TimesStep(n, Wilds(b[..j - 1]));
        BehindFirstRow(a, b, m, n, threshold, i, j - 1);
        BehindFirstRow(a, b, m, n, threshold, i - 1, j - 1);
      }
    }
  }

  // ---------------------------------------------------------------- patterns without wildcards and escapes

  predicate Plain(p: Pattern) { p != [] && NoEscapes(p) && Wild !in p }

  /** Plain tokens are taken for the same exactly when they are. */
  lemma {:induction false} PlainSame(a: Pattern, b: Pattern, i: nat, j: nat)
    requires Plain(a) && Plain(b) && 0 < i <= |a| && 0 < j <= |b|
    ensures a[i - 1].Lit? && b[j - 1].Lit? && (Same(a[i - 1], b[j - 1]) <==> a[i - 1] == b[j - 1])
  {
    assert a[i - 1] in a && b[j - 1] in b;
  }

  /** The first column: one wildcard, and every literal. */
  lemma {:induction false} FirstColumn(a: Pattern, b: Pattern, m: nat, n: nat, i: nat)
    requires Plain(a) && 0 < i <= |a|
    ensures Entry(a, b, m, n, i, 0) == Cell(false, Times(m, i + 1) + n, Esc)
  {
    hide Times;
    assert a[i - 1] in a && !Escaped(a[i - 1]);
    TimesStep(m, i);
    if i > 1 {
      FirstColumn(a, b, m, n, i - 1);
    } else {
      TimesStep(m, 0);
      TimesStep(m, 1);
      assert Border(a, 0, m, n) == Cell(true, 0, Esc) && Border(a, 1, m, n) == Cell(false, 2 * m + n, Esc);
    }
  }

  /** The first entry that counts is at most two wildcards. */
  lemma {:induction false} FirstRowAtMost(a: Pattern, b: Pattern, m: nat, n: nat)
    requires Plain(a) && Plain(b)
    ensures Entry(a, b, m, n, 1, 1).state <= 2 * m + 2 * n
  {
    assert a[0] in a && b[0] in b;
    assert Border(b, 1, n, m) == Cell(false, m + 2 * n, Esc);
  }

  /** The first `i` tokens of `a` end in the first `j` of `b`, and all that is paid for is what comes before. */
  ghost predicate OnlyTail(a: Pattern, b: Pattern, m: nat, n: nat, i: nat, j: nat)
    requires i <= |a| && j <= |b|
  {
    && j < i && a[i - j..i] == b[..j]
    && Entry(a, b, m, n, i, j).state == Times(m, i - j + 1) + n
    && (j > 0 ==> Entry(a, b, m, n, i, j).pat)
  }

  /** Where the first row is given up, only such entries stay below the threshold. */
  lemma {:induction false} BelowThreshold(a: Pattern, b: Pattern, m: nat, n: nat, threshold: int, i: nat, j: nat)
    requires Plain(a) && Plain(b) && GivesUp(a, b, m, n, threshold) && 0 < i <= |a| && j <= |b|
    ensures Entry(a, b, m, n, i, j).state >= threshold || OnlyTail(a, b, m, n, i, j)
    decreases i + j
  {
    hide Entry, Times, NoEscapes;
    FirstRowAtMost(a, b, m, n);
    if j == 0 {
      FirstColumn(a, b, m, n, i);
      assert a[i..i] == b[..0];
    } else if i > 1 {
      PlainSame(a, b, i, j);
      Step(a, b, m, n, i, j);
      BelowThreshold(a, b, m, n, threshold, i - 1, j);
      BelowThreshold(a, b, m, n, threshold, i, j - 1);
      BelowThreshold(a, b, m, n, threshold, i - 1, j - 1);
      TailCost(m, n, i - j);
      TailCost(m, n, i - j - 1);
      TailCost(m, n, i - j + 1);
      if a[i - 1] == b[j - 1] && OnlyTail(a, b, m, n, i - 1, j - 1) {
        assert a[i - j..i] == a[i - j..i - 1] + [a[i - 1]] && b[..j] == b[..j - 1] + [b[j - 1]];
      }
    }
  }

  lemma {:induction false} TailCost(m: nat, n: nat, k: int)
    ensures k >= 1 ==> Times(m, k + 1) + n >= 2 * m + n
  {
    if k >= 1 { TimesMono(m, 2, k + 1); assert Times(m, 2) == 2 * m; }
  }

  /** Along equal tokens an entry does not grow. */
  lemma {:induction false} TailAtMost(a: Pattern, b: Pattern, m: nat, n: nat, k: nat, j: nat)
    requires Plain(a) && Plain(b) && 0 < k && k + j <= |a| && j <= |b| && a[k..k + j] == b[..j]
    ensures Entry(a, b, m, n, k + j, j).state <= Times(m, k + 1) + n
  {
    hide Times, NoEscapes;
    if j == 0 {
      FirstColumn(a, b, m, n, k);
    } else {
      assert a[k..k + j][j - 1] == b[..j][j - 1];
      assert a[k..k + (j - 1)] == a[k..k + j][..j - 1] && b[..j - 1] == b[..j][..j - 1];
      PlainSame(a, b, k + j, j);
      TailAtMost(a, b, m, n, k, j - 1);
    }
  }

  predicate EndsIn(a: Pattern, b: Pattern) { |b| < |a| && a[|a| - |b|..] == b }

  /** Exactly when giving up loses a merge cheaper than the threshold: when the second pattern is the end of the first, and one
      wildcard for what comes before costs less. */
  lemma {:induction false} LostMerges(a: Pattern, b: Pattern, m: nat, n: nat, threshold: int)
    requires Plain(a) && Plain(b) && GivesUp(a, b, m, n, threshold)
    ensures Entry(a, b, m, n, |a|, |b|).state < threshold <==> EndsIn(a, b) && Times(m, |a| - |b| + 1) + n < threshold
    ensures Entry(a, b, m, n, |a|, |b|).state < threshold ==> Entry(a, b, m, n, |a|, |b|).state == Times(m, |a| - |b| + 1) + n
  {
    hide Entry, Times, NoEscapes;
    BelowThreshold(a, b, m, n, threshold, |a|, |b|);
    assert b[..|b|] == b && a[|a| - |a|..] == a;
    if EndsIn(a, b) {
      assert a[|a| - |b|..|a|] == a[|a| - |b|..];
      TailAtMost(a, b, m, n, |a| - |b|, |b|);
    }
    if OnlyTail(a, b, m, n, |a|, |b|) { assert a[|a| - |b|..|a|] == a[|a| - |b|..]; }
  }
}
