/** Merging two patterns: the alignment table, the path traced back through it, and what the merged
    pattern matches and costs. */
module PatternMerge {
  import opened Bytes
  import opened Patterns

  datatype Source = LeftPos | UpPos | UpperLeft | Esc

  /** One cell: whether its suffix is in the pattern, the cost so far, and where the cost came from. */
  datatype Cell = Cell(pat: bool, state: int, source: Source)

  function UpdateState(cur: int, pat: bool, wildcard: bool, numA: nat, numB: nat): int {
    var entered := cur + if pat then numA + numB else 0;
    if wildcard then entered - numA else entered + numA
  }

  /** First row and column. Behind an escaped character the type is left at its initial value. */
  function Border(p: Pattern, k: nat, numA: nat, numB: nat): Cell
    requires k <= |p|
  {
    if k == 0 then Cell(true, 0, Esc)
    else
      var prev := Border(p, k - 1, numA, numB);
      Cell(Escaped(p[k - 1]), UpdateState(prev.state, prev.pat, p[k - 1].Wild?, numA, numB), Esc)
  }

  /** The comparison of two tokens by their last characters. */
  predicate Same(a: Token, b: Token) {
    var ca, cb := if a.Wild? then STAR else a.c, if b.Wild? then STAR else b.c;
    ca == cb && (ca != STAR || Escaped(a))
  }

  function Choose(same: bool, up: int, left: int, diagonal: int): Cell {
    if same && up > diagonal && left > diagonal then Cell(true, diagonal, UpperLeft)
    else if up >= left then Cell(false, left, UpPos)
    else Cell(false, up, LeftPos)
  }

  /** The table entry for the first `i` tokens of `a` and the first `j` of `b`. */
  function Entry(a: Pattern, b: Pattern, numA: nat, numB: nat, i: nat, j: nat): Cell
    requires i <= |a| && j <= |b|
    decreases i + j
  {
    if i == 0 then Border(b, j, numB, numA)
    else if j == 0 then Border(a, i, numA, numB)
    else
      var same := Same(a[i - 1], b[j - 1]);
      var above, before := Entry(a, b, numA, numB, i - 1, j), Entry(a, b, numA, numB, i, j - 1);
      Choose(same,
             UpdateState(above.state, above.pat, !same && a[i - 1].Wild?, numA, numB),
             UpdateState(before.state, before.pat, !same && b[j - 1].Wild?, numB, numA),
             Entry(a, b, numA, numB, i - 1, j - 1).state)
  }

  // ---------------------------------------------------------------- the merged pattern

  function AddWild(p: Pattern): Pattern {
    if p != [] && p[|p| - 1].Wild? then p else p + [Wild]
  }

  /** The pattern along the path that leads to an entry. */
  function Merged(a: Pattern, b: Pattern, numA: nat, numB: nat, i: nat, j: nat): Pattern
    requires i <= |a| && j <= |b|
    decreases i + j
  {
    if i == 0 && j == 0 then []
    else if i == 0 || j == 0 then [Wild]
    else
      match Entry(a, b, numA, numB, i, j).source
      case UpperLeft => Merged(a, b, numA, numB, i - 1, j - 1) + [a[i - 1]]
      case UpPos => AddWild(Merged(a, b, numA, numB, i, j - 1))
      case _ => AddWild(Merged(a, b, numA, numB, i - 1, j))
  }

  /** An escaped star of `a` would be taken for a wildcard of `b`. */
  predicate Clash(a: Pattern, b: Pattern) { Lit(STAR) in a && Wild in b }

  /** How often the path to an entry keeps an escaped star of `a` where `b` has a wildcard. */
  function Clashes(a: Pattern, b: Pattern, numA: nat, numB: nat, i: nat, j: nat): nat
    requires i <= |a| && j <= |b|
    decreases i + j
  {
    if i == 0 || j == 0 then 0
    else
      match Entry(a, b, numA, numB, i, j).source
      case UpperLeft => Clashes(a, b, numA, numB, i - 1, j - 1) + if b[j - 1].Wild? then 1 else 0
      case UpPos => Clashes(a, b, numA, numB, i, j - 1)
      case _ => Clashes(a, b, numA, numB, i - 1, j)
  }

  /** How often the path to an entry takes a wildcard of `b` for an escaped star of `a`, whether it keeps the star or not. */
  function Mistakes(a: Pattern, b: Pattern, numA: nat, numB: nat, i: nat, j: nat): nat
    requires i <= |a| && j <= |b|
    decreases i + j
  {
    if i == 0 || j == 0 then 0
    else
      var mistaken := if b[j - 1].Wild? && a[i - 1] == Lit(STAR) then 1 else 0;
      match Entry(a, b, numA, numB, i, j).source
      case UpperLeft => Mistakes(a, b, numA, numB, i - 1, j - 1) + mistaken
      case UpPos => Mistakes(a, b, numA, numB, i, j - 1) + mistaken
      case _ => Mistakes(a, b, numA, numB, i - 1, j)
  }

  /** Without an escaped star on one side or a wildcard on the other there is none. */
  lemma {:induction false} NoClashes(a: Pattern, b: Pattern, numA: nat, numB: nat, i: nat, j: nat)
    requires !Clash(a, b) && i <= |a| && j <= |b|
    ensures Clashes(a, b, numA, numB, i, j) == 0 && Mistakes(a, b, numA, numB, i, j) == 0
    decreases i + j
  {
    hide Entry;
    if i > 0 && j > 0 {
      SourceSet(a, b, numA, numB, i, j);
      NoClashes(a, b, numA, numB, i - 1, j - 1);
      NoClashes(a, b, numA, numB, i, j - 1);
      NoClashes(a, b, numA, numB, i - 1, j);
      SameMeans(a[i - 1], b[j - 1]);
    }
  }

  /** Tokens taken for the same are exactly a literal of both, and an escaped star with a wildcard. */
  lemma {:induction false} SameMeans(a: Token, b: Token)
    ensures Same(a, b) <==> a.Lit? && (a == b || (a == Lit(STAR) && b == Wild))
  {}

  lemma {:induction false} SourceSet(a: Pattern, b: Pattern, numA: nat, numB: nat, i: nat, j: nat)
    requires 0 < i <= |a| && 0 < j <= |b|
    ensures
      var e := Entry(a, b, numA, numB, i, j);
      && e.source != Esc && (e.pat <==> e.source == UpperLeft)
      && (e.source == UpperLeft ==> Same(a[i - 1], b[j - 1]))
  {
    hide UpdateState;
  }

  lemma {:induction false} MatchesAddWild(p: Pattern, s: Word, k: nat)
    requires k <= |s| && Matches(p, s[..k])
    ensures Matches(AddWild(p), s)
  {
    if p != [] && p[|p| - 1].Wild? {
      var m :| 0 <= m <= k && Matches(p[..|p| - 1], s[..k][..m]);
      assert s[..k][..m] == s[..m];
    } else {
      assert (p + [Wild])[..|p|] == p;
    }
  }

  /** What is matched without its last token is matched by a prefix. */
  lemma {:induction false} MatchesPrefix(p: Pattern, i: nat, s: Word) returns (k: nat)
    requires 0 < i <= |p| && Matches(p[..i], s)
    ensures k <= |s| && Matches(p[..i - 1], s[..k])
    ensures p[i - 1].Lit? ==> s != [] && k == |s| - 1 && s[k] == p[i - 1].c
  {
    assert p[..i][..i - 1] == p[..i - 1];
    if p[i - 1].Wild? {
      k :| 0 <= k <= |s| && Matches(p[..i - 1], s[..k]);
    } else {
      k := |s| - 1;
    }
  }

  lemma {:induction false} MatchesWild(s: Word)
    ensures Matches([Wild], s)
  {
    assert [Wild][..0] == [] && s[..0] == [];
    assert Matches([], s[..0]);
  }

  lemma {:induction false} MatchesLit(p: Pattern, c: Byte, s: Word)
    requires s != [] && s[|s| - 1] == c && Matches(p, s[..|s| - 1])
    ensures Matches(p + [Lit(c)], s)
  {
    assert (p + [Lit(c)])[..|p|] == p;
  }

  /** The merged pattern matches whatever either of the two patterns matches, if no escaped star has been kept for a wildcard. */
  lemma {:induction false} MergeGeneralises(a: Pattern, b: Pattern, numA: nat, numB: nat, i: nat, j: nat, s: Word)
    requires i <= |a| && j <= |b| && Clashes(a, b, numA, numB, i, j) == 0
    requires Matches(a[..i], s) || Matches(b[..j], s)
    ensures Matches(Merged(a, b, numA, numB, i, j), s)
    decreases i + j
  {
    hide Entry, Matches, AddWild;
    if i == 0 && j == 0 {
      assert a[..0] == b[..0] == [];
    } else if i == 0 || j == 0 {
      MatchesWild(s);
    } else {
      var e := Entry(a, b, numA, numB, i, j);
      SourceSet(a, b, numA, numB, i, j);
      SameMeans(a[i - 1], b[j - 1]);
      if e.source == UpperLeft {
        var k: nat;
        if Matches(a[..i], s) { k := MatchesPrefix(a, i, s); } else { k := MatchesPrefix(b, j, s); }
        MergeGeneralises(a, b, numA, numB, i - 1, j - 1, s[..k]);
        MatchesLit(Merged(a, b, numA, numB, i - 1, j - 1), a[i - 1].c, s);
      } else if e.source == UpPos {
        StepBack(b, a, j, i, s);
        var k: nat :| k <= |s| && (Matches(a[..i], s[..k]) || Matches(b[..j - 1], s[..k]));
        MergeGeneralises(a, b, numA, numB, i, j - 1, s[..k]);
        MatchesAddWild(Merged(a, b, numA, numB, i, j - 1), s, k);
      } else {
        StepBack(a, b, i, j, s);
        var k: nat :| k <= |s| && (Matches(a[..i - 1], s[..k]) || Matches(b[..j], s[..k]));
        MergeGeneralises(a, b, numA, numB, i - 1, j, s[..k]);
        MatchesAddWild(Merged(a, b, numA, numB, i - 1, j), s, k);
      }
    }
  }

  lemma {:induction false} StepBack(p: Pattern, q: Pattern, i: nat, j: nat, s: Word)
    requires 0 < i <= |p| && j <= |q| && (Matches(p[..i], s) || Matches(q[..j], s))
    ensures exists k: nat :: k <= |s| && (Matches(p[..i - 1], s[..k]) || Matches(q[..j], s[..k]))
  {
    hide Matches;
    if Matches(p[..i], s) {
      var k := MatchesPrefix(p, i, s);
    } else {
      assert s[..|s|] == s;
    }
  }

  lemma {:induction false} WildsApart(p: Pattern, t: Token)
    requires NoAdjacentWilds(p)
    ensures t.Lit? ==> NoAdjacentWilds(p + [t])
    ensures NoAdjacentWilds(AddWild(p))
  {}

  lemma {:induction false} MergeNoAdjacentWilds(a: Pattern, b: Pattern, numA: nat, numB: nat, i: nat, j: nat)
    requires i <= |a| && j <= |b|
    ensures NoAdjacentWilds(Merged(a, b, numA, numB, i, j))
    decreases i + j
  {
    hide Entry, NoAdjacentWilds, AddWild;
    if i == 0 || j == 0 {
      FewTokens(Merged(a, b, numA, numB, i, j));
    } else {
      SourceSet(a, b, numA, numB, i, j);
      var source := Entry(a, b, numA, numB, i, j).source;
      if source == UpperLeft {
        SameMeans(a[i - 1], b[j - 1]);
        MergeNoAdjacentWilds(a, b, numA, numB, i - 1, j - 1);
        WildsApart(Merged(a, b, numA, numB, i - 1, j - 1), a[i - 1]);
      } else if source == UpPos {
        MergeNoAdjacentWilds(a, b, numA, numB, i, j - 1);
        WildsApart(Merged(a, b, numA, numB, i, j - 1), Wild);
      } else {
        MergeNoAdjacentWilds(a, b, numA, numB, i - 1, j);
        WildsApart(Merged(a, b, numA, numB, i - 1, j), Wild);
      }
    }
  }

  lemma {:induction false} FewTokens(p: Pattern)
    requires |p| <= 1
    ensures NoAdjacentWilds(p)
  {}

  // ---------------------------------------------------------------- what the table's value means

  function Times(n: nat, x: int): int { n * x }

  lemma {:induction false} TimesStep(n: nat, x: int)
    ensures Times(n, x + 1) == Times(n, x) + n && Times(n, x - 1) == Times(n, x) - n && Times(n, 0) == 0
  {}

  /** Each record of a cluster pays for the literals that turn into gap content, is paid back for the
      wildcards it had, and pays for every wildcard of the merged pattern. */
  function MergeCost(a: Pattern, b: Pattern, numA: nat, numB: nat, m: Pattern): int {
    Times(numA, Lits(a) - Lits(m) - Wilds(a)) + Times(numB, Lits(b) - Lits(m) - Wilds(b)) + Times(numA + numB, Wilds(m))
  }

  lemma {:induction false} Taken(p: Pattern, i: nat)
    requires 0 < i <= |p|
    ensures p[..i][..i - 1] == p[..i - 1]
    ensures Lits(p[..i]) == Lits(p[..i - 1]) + if p[i - 1].Lit? then 1 else 0
    ensures Wilds(p[..i]) == Wilds(p[..i - 1]) + if p[i - 1].Wild? then 1 else 0
  {
    assert p[..i][..i - 1] == p[..i - 1];
  }

  lemma {:induction false} CountsAppended(p: Pattern, t: Token)
    ensures Lits(p + [t]) == Lits(p) + if t.Lit? then 1 else 0
    ensures Wilds(p + [t]) == Wilds(p) + if t.Wild? then 1 else 0
  {
    assert (p + [t])[..|p|] == p;
  }

  predicate EndsWild(p: Pattern) { p != [] && p[|p| - 1].Wild? }

  lemma {:induction false} CountsAddWild(p: Pattern)
    ensures EndsWild(AddWild(p)) && Lits(AddWild(p)) == Lits(p)
    ensures Wilds(AddWild(p)) == Wilds(p) + if EndsWild(p) then 0 else 1
  {
    CountsAppended(p, Wild);
  }

  /** Skipping a token of `p` on the way to the merged pattern `m` costs what UpdateState adds. */
  lemma {:induction false} SkipCost(p: Pattern, i: nat, q: Pattern, numP: nat, numQ: nat, m: Pattern)
    requires 0 < i <= |p|
    ensures MergeCost(p[..i], q, numP, numQ, AddWild(m))
         == UpdateState(MergeCost(p[..i - 1], q, numP, numQ, m), !EndsWild(m), p[i - 1].Wild?, numP, numQ)
  {
    hide Times, Lits, Wilds, AddWild, EndsWild;
    Taken(p, i);
    CountsAddWild(m);
    TimesStep(numP, Lits(p[..i - 1]) - Lits(m) - Wilds(p[..i - 1]));
    TimesStep(numP + numQ, Wilds(m));
  }

  lemma {:induction false} CostSymmetric(a: Pattern, b: Pattern, numA: nat, numB: nat, m: Pattern)
    ensures MergeCost(a, b, numA, numB, m) == MergeCost(b, a, numB, numA, m)
  {
    hide Times;
    assert numA + numB == numB + numA;
  }

  /** Escaped tokens among the first `k`. */
  function EscapedCount(p: Pattern, k: nat): nat
    requires k <= |p|
  {
    if k == 0 then 0 else EscapedCount(p, k - 1) + if Escaped(p[k - 1]) then 1 else 0
  }

  /** On the border the wildcard is charged once, and once more for each escaped token that another one follows. */
  lemma {:induction false} BorderCost(p: Pattern, k: nat, numP: nat, numQ: nat)
    requires k <= |p|
    ensures
      var m: Pattern := if k == 0 then [] else [Wild];
      var e := Border(p, k, numP, numQ);
      && e.state == MergeCost(p[..k], [], numP, numQ, m) + Times(numP + numQ, if k == 0 then 0 else EscapedCount(p, k - 1))
      && (e.pat <==> k == 0 || Escaped(p[k - 1]))
  {
    hide Times, MergeCost, Lits, Wilds;
    if k == 0 {
      CostOfNothing(numP, numQ);
      TimesStep(numP + numQ, 0);
      assert p[..0] == [];
    } else {
      BorderCost(p, k - 1, numP, numQ);
      var m: Pattern := if k == 1 then [] else [Wild];
      assert AddWild(m) == [Wild];
      SkipCost(p, k, [], numP, numQ, m);
      if k > 1 { TimesStep(numP + numQ, EscapedCount(p, k - 2)); }
      TimesStep(numP + numQ, 0);
    }
  }

  lemma {:induction false} CostOfNothing(numA: nat, numB: nat)
    ensures MergeCost([], [], numA, numB, []) == 0
  {}

  /** How often the path to an entry is charged a second time for the wildcard at its start: whenever it goes on from an
      escaped token on the border, unless by keeping a literal. */
  function Surcharges(a: Pattern, b: Pattern, numA: nat, numB: nat, i: nat, j: nat): nat
    requires i <= |a| && j <= |b|
    decreases i + j
  {
    if i == 0 then if j == 0 then 0 else EscapedCount(b, j - 1)
    else if j == 0 then EscapedCount(a, i - 1)
    else
      match Entry(a, b, numA, numB, i, j).source
      case UpperLeft => Surcharges(a, b, numA, numB, i - 1, j - 1)
      case UpPos => Surcharges(a, b, numA, numB, i, j - 1) + if j == 1 && Escaped(a[i - 1]) then 1 else 0
      case _ => Surcharges(a, b, numA, numB, i - 1, j) + if i == 1 && Escaped(b[j - 1]) then 1 else 0
  }

  predicate NoEscapes(p: Pattern) { forall k :: 0 <= k < |p| ==> !Escaped(p[k]) }

  lemma {:induction false} NoneEscaped(p: Pattern, k: nat)
    requires k <= |p| && NoEscapes(p)
    ensures EscapedCount(p, k) == 0
  {
    if k > 0 { NoneEscaped(p, k - 1); }
  }

  /** Without escaped characters there is no surcharge. */
  lemma {:induction false} NoSurcharges(a: Pattern, b: Pattern, numA: nat, numB: nat, i: nat, j: nat)
    requires i <= |a| && j <= |b| && NoEscapes(a) && NoEscapes(b)
    ensures Surcharges(a, b, numA, numB, i, j) == 0
    decreases i + j
  {
    hide Entry;
    if i == 0 {
      if j > 0 { NoneEscaped(b, j - 1); }
    } else if j == 0 {
      NoneEscaped(a, i - 1);
    } else {
      match Entry(a, b, numA, numB, i, j).source
      case UpperLeft => NoSurcharges(a, b, numA, numB, i - 1, j - 1);
      case UpPos => NoSurcharges(a, b, numA, numB, i, j - 1);
      case _ => NoSurcharges(a, b, numA, numB, i - 1, j);
    }
  }

  /** The suffix of an entry is in the pattern when the merged pattern ends in a literal, and also, though it ends in a
      wildcard, behind an escaped token on the border. */
  predicate InPattern(a: Pattern, b: Pattern, i: nat, j: nat, m: Pattern)
    requires i <= |a| && j <= |b|
  {
    !EndsWild(m) || (j == 0 && i > 0 && Escaped(a[i - 1])) || (i == 0 && j > 0 && Escaped(b[j - 1]))
  }

  /** The value of an entry: the cost of its merged pattern, the surcharges, and two for each record of the second cluster
      whenever one of its wildcards has been taken for a character. */
  ghost predicate Costed(a: Pattern, b: Pattern, numA: nat, numB: nat, i: nat, j: nat)
    requires i <= |a| && j <= |b|
  {
    var m := Merged(a, b, numA, numB, i, j);
    var e := Entry(a, b, numA, numB, i, j);
    && e.state == MergeCost(a[..i], b[..j], numA, numB, m) + Times(numA + numB, Surcharges(a, b, numA, numB, i, j))
         + Times(numB, 2 * Mistakes(a, b, numA, numB, i, j))
    && (e.pat <==> InPattern(a, b, i, j, m))
  }

  /** The value of every entry. */
  lemma {:induction false} EntryIsCost(a: Pattern, b: Pattern, numA: nat, numB: nat, i: nat, j: nat)
    requires i <= |a| && j <= |b|
    ensures Costed(a, b, numA, numB, i, j)
    decreases i + j
  {
    hide Times, MergeCost, AddWild, Border, EscapedCount;
    TimesStep(numB, 0);
    if i == 0 {
      BorderCost(b, j, numB, numA);
      CostSymmetric([], b[..j], numA, numB, if j == 0 then [] else [Wild]);
      assert a[..0] == [] && numA + numB == numB + numA;
    } else if j == 0 {
      BorderCost(a, i, numA, numB);
      assert b[..0] == [];
    } else {
      EntryIsCost(a, b, numA, numB, i - 1, j);
      EntryIsCost(a, b, numA, numB, i, j - 1);
      EntryIsCost(a, b, numA, numB, i - 1, j - 1);
      InnerCost(a, b, numA, numB, i, j);
    }
  }

  lemma {:induction false} TwoMore(n: nat, x: int)
    ensures Times(n, 2 * (x + 1)) == Times(n, 2 * x) + 2 * n
  {}

  lemma {:induction false} InnerCost(a: Pattern, b: Pattern, numA: nat, numB: nat, i: nat, j: nat)
    requires 0 < i <= |a| && 0 < j <= |b|
    requires Costed(a, b, numA, numB, i - 1, j) && Costed(a, b, numA, numB, i, j - 1) && Costed(a, b, numA, numB, i - 1, j - 1)
    ensures Costed(a, b, numA, numB, i, j)
  {
    hide Times, MergeCost, AddWild, Border, EscapedCount;
    SkippedCost(a, b, numA, numB, i, j);
    SameMeans(a[i - 1], b[j - 1]);
    SourceSet(a, b, numA, numB, i, j);
    var n := numA + numB;
    TimesStep(n, Surcharges(a, b, numA, numB, i, j - 1));
    TimesStep(n, Surcharges(a, b, numA, numB, i - 1, j));
    if Same(a[i - 1], b[j - 1]) { MatchCost(a, b, numA, numB, i, j, Merged(a, b, numA, numB, i - 1, j - 1)); }
    TwoMore(numB, Mistakes(a, b, numA, numB, i - 1, j - 1));
    TwoMore(numB, Mistakes(a, b, numA, numB, i, j - 1));
  }

  /** Skipping a token of either pattern on the way to an entry costs what UpdateState adds. */
  lemma {:induction false} SkippedCost(a: Pattern, b: Pattern, numA: nat, numB: nat, i: nat, j: nat)
    requires 0 < i <= |a| && 0 < j <= |b|
    ensures
      var above, before := Merged(a, b, numA, numB, i - 1, j), Merged(a, b, numA, numB, i, j - 1);
      && MergeCost(a[..i], b[..j], numA, numB, AddWild(above))
         == UpdateState(MergeCost(a[..i - 1], b[..j], numA, numB, above), !EndsWild(above), a[i - 1].Wild?, numA, numB)
      && MergeCost(a[..i], b[..j], numA, numB, AddWild(before))
         == UpdateState(MergeCost(a[..i], b[..j - 1], numA, numB, before), !EndsWild(before), b[j - 1].Wild?, numB, numA)
      && EndsWild(AddWild(above)) && EndsWild(AddWild(before))
  {
    hide Times, UpdateState, MergeCost, AddWild, Entry, Merged;
    var above, before := Merged(a, b, numA, numB, i - 1, j), Merged(a, b, numA, numB, i, j - 1);
    SkipCost(a, i, b[..j], numA, numB, above);
    SkipCost(b, j, a[..i], numB, numA, before);
    CostSymmetric(a[..i], b[..j], numA, numB, AddWild(before));
    CostSymmetric(a[..i], b[..j - 1], numA, numB, before);
    CountsAddWild(above);
    CountsAddWild(before);
  }

  /** Keeping a common literal costs nothing; a literal kept for a wildcard is two less for the second cluster. */
  lemma {:induction false} MatchCost(a: Pattern, b: Pattern, numA: nat, numB: nat, i: nat, j: nat, m: Pattern)
    requires 0 < i <= |a| && 0 < j <= |b| && a[i - 1].Lit?
    ensures MergeCost(a[..i], b[..j], numA, numB, m + [a[i - 1]])
         == MergeCost(a[..i - 1], b[..j - 1], numA, numB, m) - if b[j - 1].Wild? then 2 * numB else 0
  {
    hide Times, Lits, Wilds;
    Taken(a, i);
    Taken(b, j);
    CountsAppended(m, a[i - 1]);
    var x := Lits(b[..j - 1]) - Lits(m) - Wilds(b[..j - 1]);
    var y := Lits(b[..j]) - Lits(m + [a[i - 1]]) - Wilds(b[..j]);
    TimesStep(numB, x);
    TimesStep(numB, x - 1);
    assert y == if b[j - 1].Wild? then x - 1 - 1 else x;
    assert Times(numB, y) == Times(numB, x) - if b[j - 1].Wild? then 2 * numB else 0;
    assert Lits(a[..i]) - Lits(m + [a[i - 1]]) - Wilds(a[..i]) == Lits(a[..i - 1]) - Lits(m) - Wilds(a[..i - 1]);
  }

  // ---------------------------------------------------------------- the one-gram bound

  function Min(x: nat, y: nat): nat { if x < y then x else y }

  /** Common characters of two patterns, counted over the first `n` byte values. */
  function Common(a: Pattern, b: Pattern, n: nat): nat {
    if n == 0 then 0 else Common(a, b, n - 1) + Min(Count(a, n - 1), Count(b, n - 1))
  }

  /** No byte is kept more often than it occurs in either pattern. */
  lemma {:induction false} KeptCounts(a: Pattern, b: Pattern, numA: nat, numB: nat, i: nat, j: nat, c: nat)
    requires i <= |a| && j <= |b| && Clashes(a, b, numA, numB, i, j) == 0
    ensures Count(Merged(a, b, numA, numB, i, j), c) <= Min(Count(a[..i], c), Count(b[..j], c))
    decreases i + j
  {
    hide Entry, Count;
    CountTaken(a, i, c);
    CountTaken(b, j, c);
    if i == 0 || j == 0 {
      CountAppended([], Wild, c);
      assert [] + [Wild] == [Wild];
    } else {
      var e := Entry(a, b, numA, numB, i, j);
      SourceSet(a, b, numA, numB, i, j);
      SameMeans(a[i - 1], b[j - 1]);
      if e.source == UpperLeft {
        KeptCounts(a, b, numA, numB, i - 1, j - 1, c);
        CountAppended(Merged(a, b, numA, numB, i - 1, j - 1), a[i - 1], c);
      } else if e.source == UpPos {
        KeptCounts(a, b, numA, numB, i, j - 1, c);
        CountAppended(Merged(a, b, numA, numB, i, j - 1), Wild, c);
      } else {
        KeptCounts(a, b, numA, numB, i - 1, j, c);
        CountAppended(Merged(a, b, numA, numB, i - 1, j), Wild, c);
      }
    }
  }

  lemma {:induction false} CountTaken(p: Pattern, i: nat, c: nat)
    requires i <= |p|
    ensures i == 0 ==> p[..i] == [] && Count(p[..i], c) == 0
    ensures i > 0 ==> Count(p[..i], c) == Count(p[..i - 1], c) + if p[i - 1].Lit? && p[i - 1].c == c then 1 else 0
  {
    if i > 0 { assert p[..i][..i - 1] == p[..i - 1]; }
  }

  lemma {:induction false} CountAppended(p: Pattern, t: Token, c: nat)
    ensures Count(p + [t], c) == Count(p, c) + if t.Lit? && t.c == c then 1 else 0
    ensures Count([], c) == 0
  {
    assert (p + [t])[..|p|] == p;
  }

  /** The literals of a pattern, summed over byte values. */
  function CountSum(p: Pattern, n: nat): nat { if n == 0 then 0 else CountSum(p, n - 1) + Count(p, n - 1) }

  lemma {:induction false} CountSumAppended(p: Pattern, t: Token, n: nat)
    ensures CountSum(p + [t], n) == CountSum(p, n) + if t.Lit? && t.c < n then 1 else 0
  {
    hide Count;
    if n > 0 {
      CountSumAppended(p, t, n - 1);
      CountAppended(p, t, n - 1);
    }
  }

  lemma {:induction false} CountSumEmpty(n: nat)
    ensures CountSum([], n) == 0
  {
    if n > 0 { CountSumEmpty(n - 1); }
  }

  lemma {:induction false} LitsAreCounts(p: Pattern)
    ensures Lits(p) == CountSum(p, 256)
  {
    hide CountSum;
    if p == [] {
      CountSumEmpty(256);
    } else {
      LitsAreCounts(p[..|p| - 1]);
      CountSumAppended(p[..|p| - 1], p[|p| - 1], 256);
      assert p == p[..|p| - 1] + [p[|p| - 1]];
    }
  }

  lemma {:induction false} KeptAtMostCommon(a: Pattern, b: Pattern, numA: nat, numB: nat, n: nat)
    requires Clashes(a, b, numA, numB, |a|, |b|) == 0
    ensures CountSum(Merged(a, b, numA, numB, |a|, |b|), n) <= Common(a, b, n)
  {
    hide Merged, Count, Clashes;
    if n > 0 {
      KeptAtMostCommon(a, b, numA, numB, n - 1);
      KeptCounts(a, b, numA, numB, |a|, |b|, n - 1);
      assert a[..|a|] == a && b[..|b|] == b;
    }
  }

  lemma {:induction false} TimesMono(n: nat, x: int, y: int)
    requires x <= y
    ensures Times(n, x) <= Times(n, y)
  {
    assert Times(n, y) - Times(n, x) == n * (y - x);
  }

  lemma {:induction false} AllLits(p: Pattern)
    requires Wild !in p
    ensures Lits(p) == |p| && Wilds(p) == 0
  {
    if p != [] { AllLits(p[..|p| - 1]); }
  }

  /** The bound from character frequencies: a merge costs at least the literals that cannot be kept and the wildcards of the
      merged pattern, less what is paid back for the wildcards there were. */
  lemma {:induction false} OneGramBound(a: Pattern, b: Pattern, numA: nat, numB: nat)
    requires !Clash(a, b)
    ensures
      var common, m := Common(a, b, 256), Merged(a, b, numA, numB, |a|, |b|);
      Times(numA, Lits(a) - common) + Times(numB, Lits(b) - common) + Times(numA + numB, Wilds(m))
        <= Entry(a, b, numA, numB, |a|, |b|).state + Times(numA, Wilds(a)) + Times(numB, Wilds(b))
  {
    hide Times, Lits, Wilds, Common, CountSum, Entry, Merged, Surcharges, Clashes, Mistakes;
    var m := Merged(a, b, numA, numB, |a|, |b|);
    EntryIsCost(a, b, numA, numB, |a|, |b|);
    NoClashes(a, b, numA, numB, |a|, |b|);
    TimesMono(numA + numB, 0, Surcharges(a, b, numA, numB, |a|, |b|));
    TimesStep(numA + numB, 0);
    TimesStep(numB, 0);
    assert a[..|a|] == a && b[..|b|] == b;
    KeptAtMostCommon(a, b, numA, numB, 256);
    LitsAreCounts(m);
    TimesLess(numA, Lits(a) - Lits(m), Wilds(a));
    TimesLess(numB, Lits(b) - Lits(m), Wilds(b));
    TimesMono(numA, Lits(a) - Common(a, b, 256), Lits(a) - Lits(m));
    TimesMono(numB, Lits(b) - Common(a, b, 256), Lits(b) - Lits(m));
  }

  lemma {:induction false} TimesLess(n: nat, x: int, y: int)
    ensures Times(n, x - y) == Times(n, x) - Times(n, y)
  {}

  // ---------------------------------------------------------------- where the conditions are needed

  /** Behind an escaped character at the border the wildcard is charged twice: two records of two
      characters each without a common one cost 8 instead of 6. */
  lemma {:induction false} EscapeOvercharges()
    ensures
      var a, b := [Lit(STAR), Lit(1)], [Lit(BACKSLASH), Lit(2)];
      Merged(a, b, 1, 1, 2, 2) == [Wild] && Entry(a, b, 1, 1, 2, 2).state == 8 && MergeCost(a, b, 1, 1, [Wild]) == 6
  {
    var a, b := [Lit(STAR), Lit(1)], [Lit(BACKSLASH), Lit(2)];
    assert Border(a, 1, 1, 1) == Cell(true, 3, Esc) && Border(b, 1, 1, 1) == Cell(true, 3, Esc);
    assert Border(a, 2, 1, 1) == Cell(false, 6, Esc) && Border(b, 2, 1, 1) == Cell(false, 6, Esc);
    assert Entry(a, b, 1, 1, 1, 1) == Cell(false, 6, UpPos);
    assert Entry(a, b, 1, 1, 1, 2) == Cell(false, 7, UpPos);
    assert Entry(a, b, 1, 1, 2, 1) == Cell(false, 7, UpPos);
    assert Entry(a, b, 1, 1, 2, 2) == Cell(false, 8, UpPos);
    assert Merged(a, b, 1, 1, 2, 0) == [Wild] && Merged(a, b, 1, 1, 1, 0) == [Wild] && Merged(a, b, 1, 1, 0, 1) == [Wild];
    AllLits(a);
    AllLits(b);
    CountsAppended([], Wild);
    assert [] + [Wild] == [Wild];
  }

  /** Giving up when a whole row of the table reaches the threshold is not safe: two records xy and y, and the
      threshold 4. The only entry of the first row is 4, the last entry, which follows from the border, is 3. */
  lemma {:induction false} GivingUpLosesMerges()
    ensures
      var a, b := [Lit(120), Lit(121)], [Lit(121)];
      && (forall j :: 1 <= j <= |b| ==> Entry(a, b, 1, 1, 1, j).state >= 4)
      && Entry(a, b, 1, 1, |a|, |b|).state == 3
  {
    var a, b := [Lit(120), Lit(121)], [Lit(121)];
    assert Entry(a, b, 1, 1, 1, 0) == Cell(false, 3, Esc) && Entry(a, b, 1, 1, 2, 0) == Cell(false, 4, Esc) && Entry(a, b, 1, 1, 0, 1) == Cell(false, 3, Esc);
    assert Entry(a, b, 1, 1, 1, 1) == Cell(false, 4, UpPos);
    assert Entry(a, b, 1, 1, 2, 1) == Cell(true, 3, UpperLeft);
  }
}
