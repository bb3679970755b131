/** Which way the alignment takes to an entry: the cheapest of the ways from its three neighbours, and which one when two cost
    the same. So a merge is told by the merges of shorter patterns. */
module PatternChoice {
  import opened Bytes
  import opened Patterns
  import opened PatternMerge
  import opened PatternTrace

  /** What it costs to come to an entry past a token of `a`, and past one of `b`. */
  function PastA(a: Pattern, b: Pattern, numA: nat, numB: nat, i: nat, j: nat): int
    requires 0 < i <= |a| && 0 < j <= |b|
  {
    var from := Entry(a, b, numA, numB, i - 1, j);
    UpdateState(from.state, from.pat, a[i - 1].Wild? && !Same(a[i - 1], b[j - 1]), numA, numB)
  }

  function PastB(a: Pattern, b: Pattern, numA: nat, numB: nat, i: nat, j: nat): int
    requires 0 < i <= |a| && 0 < j <= |b|
  {
    var from := Entry(a, b, numA, numB, i, j - 1);
    UpdateState(from.state, from.pat, b[j - 1].Wild? && !Same(a[i - 1], b[j - 1]), numB, numA)
  }

  /** Each entry costs what the cheapest way to it costs. Tokens are kept only if that is cheaper than both other ways, and of
      these the one past the second pattern is taken unless the other is cheaper. */
  lemma {:induction false} EntryIsLeast(a: Pattern, b: Pattern, numA: nat, numB: nat, i: nat, j: nat)
    requires 0 < i <= |a| && 0 < j <= |b|
    ensures
      var e, same := Entry(a, b, numA, numB, i, j), Same(a[i - 1], b[j - 1]);
      var x, y, kept := PastA(a, b, numA, numB, i, j), PastB(a, b, numA, numB, i, j), Entry(a, b, numA, numB, i - 1, j - 1).state;
      && e.state <= x && e.state <= y && (same ==> e.state <= kept)
      && (e.state == x || e.state == y || (same && e.state == kept))
      && (e.source == UpperLeft <==> e.pat) && (e.source == UpperLeft <==> same && kept < x && kept < y)
      && (e.source == UpPos <==> y <= x && !(same && kept < y))
      && (e.source == LeftPos <==> x < y && !(same && kept < x))
      && e.source != Esc
  {
    hide Same, UpdateState;
  }

  /** A run of equal literals is free. */
  lemma {:induction false} EqualRunIsFree(a: Pattern, b: Pattern, numA: nat, numB: nat, i: nat, j: nat, k: nat)
    requires i + k <= |a| && j + k <= |b| && a[i..i + k] == b[j..j + k] && forall l :: i <= l < i + k ==> a[l].Lit?
    ensures Entry(a, b, numA, numB, i + k, j + k).state <= Entry(a, b, numA, numB, i, j).state
  {
    hide Entry, PastA, PastB;
    if k > 0 {
      assert a[i..i + (k - 1)] == a[i..i + k][..k - 1] && b[j..j + (k - 1)] == b[j..j + k][..k - 1];
      EqualRunIsFree(a, b, numA, numB, i, j, k - 1);
      assert a[i..i + k][k - 1] == b[j..j + k][k - 1];
      SameMeans(a[i + k - 1], b[j + k - 1]);
      EntryIsLeast(a, b, numA, numB, i + k, j + k);
    }
  }

  // ---------------------------------------------------------------- merges of shorter patterns

  /** An entry is a matter of the tokens before it. */
  lemma {:induction false} SamePrefixes(a: Pattern, b: Pattern, c: Pattern, d: Pattern, numA: nat, numB: nat, i: nat, j: nat)
    requires i <= |a| && i <= |c| && a[..i] == c[..i] && j <= |b| && j <= |d| && b[..j] == d[..j]
    ensures Entry(a, b, numA, numB, i, j) == Entry(c, d, numA, numB, i, j)
    ensures Merged(a, b, numA, numB, i, j) == Merged(c, d, numA, numB, i, j)
    ensures Clashes(a, b, numA, numB, i, j) == Clashes(c, d, numA, numB, i, j)
    decreases i + j
  {
    hide UpdateState, Choose, Same, AddWild;
    if i > 0 { Shorter(a, c, i); }
    if j > 0 { Shorter(b, d, j); }
    if i == 0 {
      SameBorder(b, d, numB, numA, j);
    } else if j == 0 {
      SameBorder(a, c, numA, numB, i);
    } else {
      SamePrefixes(a, b, c, d, numA, numB, i - 1, j);
      SamePrefixes(a, b, c, d, numA, numB, i, j - 1);
      SamePrefixes(a, b, c, d, numA, numB, i - 1, j - 1);
    }
  }

  lemma {:induction false} Shorter(p: Pattern, q: Pattern, k: nat)
    requires 0 < k <= |p| && k <= |q| && p[..k] == q[..k]
    ensures p[..k - 1] == q[..k - 1] && p[k - 1] == q[k - 1]
  {
    assert p[..k - 1] == p[..k][..k - 1] && q[..k - 1] == q[..k][..k - 1];
    assert p[k - 1] == p[..k][k - 1] && q[k - 1] == q[..k][k - 1];
  }

  lemma {:induction false} SameBorder(p: Pattern, q: Pattern, numP: nat, numQ: nat, k: nat)
    requires k <= |p| && k <= |q| && p[..k] == q[..k]
    ensures Border(p, k, numP, numQ) == Border(q, k, numP, numQ)
  {
    if k > 0 {
      Shorter(p, q, k);
      SameBorder(p, q, numP, numQ, k - 1);
    }
  }

  /** The last entry of a merge. */
  function Last(a: Pattern, b: Pattern, numA: nat, numB: nat): Cell { Entry(a, b, numA, numB, |a|, |b|) }

  function MergedAll(a: Pattern, b: Pattern, numA: nat, numB: nat): Pattern { Merged(a, b, numA, numB, |a|, |b|) }

  /** The value and the string MergePattern finds for two patterns, from those of the patterns without their last tokens. */
  lemma {:induction false} MergeFromShorter(p: Pattern, s: Token, q: Pattern, t: Token, numA: nat, numB: nat)
    ensures
      var a, b, same := p + [s], q + [t], Same(s, t);
      var (fromA, fromB, kept) := (Last(p, b, numA, numB), Last(a, q, numA, numB), Last(p, q, numA, numB).state);
      var x := UpdateState(fromA.state, fromA.pat, s.Wild? && !same, numA, numB);
      var y := UpdateState(fromB.state, fromB.pat, t.Wild? && !same, numB, numA);
      var keeps := same && kept < x && kept < y;
      && Last(a, b, numA, numB).state == (if keeps then kept else if y <= x then y else x)
      && (Clashes(a, b, numA, numB, |a|, |b|) == 0 ==> MergeString(a, b, numA, numB) == Render(
           if keeps then MergedAll(p, q, numA, numB) + [s]
           else if y <= x then AddWild(MergedAll(a, q, numA, numB))
           else AddWild(MergedAll(p, b, numA, numB))))
  {
    hide Entry, Same, Render, AddWild, Clashes, MergeString, UpdateState;
    var a, b := p + [s], q + [t];
    var i, j := |a|, |b|;
    assert a[..i - 1] == p[..i - 1] == p && b[..j - 1] == q[..j - 1] == q;
    EntryIsLeast(a, b, numA, numB, i, j);
    SamePrefixes(a, b, p, b, numA, numB, i - 1, j);
    SamePrefixes(a, b, a, q, numA, numB, i, j - 1);
    SamePrefixes(a, b, p, q, numA, numB, i - 1, j - 1);
    if Clashes(a, b, numA, numB, i, j) == 0 { MergeStringIsMerged(a, b, numA, numB); }
  }
}
