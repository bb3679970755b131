/** Merging when the path keeps escaped stars for wildcards: what the traced string is then, and exactly when it still
    matches what the two patterns match. */
module PatternClash {
  import opened Bytes
  import opened Patterns
  import opened PatternMerge
  import opened PatternTrace
  import opened PatternParsing

  // ---------------------------------------------------------------- the traced string is a stored form

  function Backslashes(k: nat): Word { if k == 0 then [] else [BACKSLASH] + Backslashes(k - 1) }

  /** Whatever number of backslashes comes to stand in front of a star, the string can be read: as escaped backslashes, and an
      escaped star if the number is odd. */
  function StarBehind(k: nat, q: Pattern): (p: Pattern)
    ensures Render(p) == Backslashes(k) + ([STAR] + Render(q))
  {
    hide Render;
    if k == 0 then
      RenderPrepend(Wild, q);
      [Wild] + q
    else if k == 1 then
      RenderPrepend(Lit(STAR), q);
      assert Backslashes(1) == [BACKSLASH] + Backslashes(0) == [BACKSLASH];
      [Lit(STAR)] + q
    else
      var p := StarBehind(k - 2, q);
      RenderPrepend(Lit(BACKSLASH), p);
      assert Backslashes(k) == [BACKSLASH, BACKSLASH] + Backslashes(k - 2);
      [Lit(BACKSLASH)] + p
  }

  /** Behind a kept character the inner loops put backslashes in front; else they leave the string alone. */
  lemma {:induction false} SlidePrepends(a: Pattern, b: Pattern, numA: nat, numB: nat, t: Trace, dx: nat, dy: nat) returns (k: nat)
    requires dx <= 1 && dy <= 1 && dx + dy > 0
    ensures Slide(a, b, numA, numB, t, dx, dy).str == Backslashes(k) + t.str
    ensures !t.last ==> k == 0
    ensures Slide(a, b, numA, numB, t, dx, dy).last == t.last
    decreases t.x + t.y
  {
    hide SourceAt;
    if t.x > 0 && t.y > 0 && SourceAt(a, b, numA, numB, t.x, t.y) == Esc {
      k := SlidePrepends(a, b, numA, numB, Trace(t.x - dx, t.y - dy, t.last, if t.last then [BACKSLASH] + t.str else t.str), dx, dy);
      if t.last {
        OneMore(k, t.str);
        k := k + 1;
      }
    } else {
      k := 0;
      assert Backslashes(0) + t.str == t.str;
    }
  }

  lemma {:induction false} OneMore(k: nat, s: Word)
    ensures Backslashes(k) + ([BACKSLASH] + s) == Backslashes(k + 1) + s
  {
    if k > 0 {
      OneMore(k - 1, s);
      assert Backslashes(k) + ([BACKSLASH] + s) == [BACKSLASH] + (Backslashes(k - 1) + ([BACKSLASH] + s));
      assert Backslashes(k + 1) + s == [BACKSLASH] + (Backslashes(k) + s);
    } else {
      assert Backslashes(0) == [] && Backslashes(1) == [BACKSLASH] + Backslashes(0) == [BACKSLASH];
    }
  }

  /** One round keeps the string a stored form. */
  lemma {:induction false} StepStaysStored(a: Pattern, b: Pattern, numA: nat, numB: nat, t: Trace, q: Pattern) returns (q': Pattern)
    requires 0 < t.x <= |Render(a)| && t.y > 0 && SourceAt(a, b, numA, numB, t.x, t.y) != Esc && t.str == Render(q)
    ensures TraceStep(a, b, numA, numB, t).str == Render(q')
  {
    hide Entry, Render, Pos, Slide, IndexAt;
    var i, j := IndexAt(a, t.x), IndexAt(b, t.y);
    SourceSet(a, b, numA, numB, i, j);
    SameMeans(a[i - 1], b[j - 1]);
    if Entry(a, b, numA, numB, i, j).source == UpperLeft {
      if a[i - 1] == b[j - 1] {
        SlideKept(a, b, numA, numB, i, j, t.str);
        RenderPrepend(a[i - 1], q);
        q' := [a[i - 1]] + q;
        assert TraceStep(a, b, numA, numB, t).str == Render(q');
      } else {
        LastOf(a, i);
        var k := SlidePrepends(a, b, numA, numB, Trace(t.x - 1, t.y - 1, true, [STAR] + t.str), 1, 1);
        q' := StarBehind(k, q);
        assert TraceStep(a, b, numA, numB, t).str == Render(q');
      }
    } else {
      RenderPrepend(Wild, q);
      q' := if t.last then [Wild] + q else q;
      var up := Entry(a, b, numA, numB, i, j).source == UpPos;
      var from := if up then Trace(t.x, t.y - 1, false, Skipped(t)) else Trace(t.x - 1, t.y, false, Skipped(t));
      var k := SlidePrepends(a, b, numA, numB, from, if up then 0 else 1, if up then 1 else 0);
      assert Backslashes(0) + from.str == from.str;
    }
  }

  lemma {:induction false} LastOf(p: Pattern, k: nat)
    requires 0 < k <= |p| && p[k - 1].Lit?
    ensures 0 < Pos(p, k) <= |Render(p)| && Render(p)[Pos(p, k) - 1] == p[k - 1].c
  {
    hide Render, Pos;
    TokenSize(p, k - 1);
    ReadToken(p, k - 1);
  }

  lemma {:induction false} BackStaysStored(a: Pattern, b: Pattern, numA: nat, numB: nat, t: Trace, q: Pattern) returns (q': Pattern)
    requires t.x <= |Render(a)| && (t.x == 0 || t.y == 0 || SourceAt(a, b, numA, numB, t.x, t.y) != Esc) && t.str == Render(q)
    ensures TraceBack(a, b, numA, numB, t).str == Render(q')
    decreases t.x + t.y
  {
    hide Render, SourceAt, TraceStep;
    if t.x > 0 && t.y > 0 {
      q' := StepStaysStored(a, b, numA, numB, t, q);
      q' := BackStaysStored(a, b, numA, numB, TraceStep(a, b, numA, numB, t), q');
    } else {
      q' := q;
    }
  }

  /** MergePattern returns the stored form of some pattern, whatever it is given. */
  lemma {:induction false} MergeIsStored(a: Pattern, b: Pattern, numA: nat, numB: nat) returns (m: Pattern)
    ensures MergeString(a, b, numA, numB) == Render(m)
  {
    hide Render, TraceBack, Entry, SourceAt;
    RenderOne(Wild);
    var t := TraceStart(a, b, numA, numB);
    m := BackStaysStored(a, b, numA, numB, t, if t.str == [] then [] else [Wild]);
    RenderPrepend(Wild, m);
    var last := TraceBack(a, b, numA, numB, t);
    if last.x != last.y && !(last.str != [] && last.str[0] == STAR) { m := [Wild] + m; }
  }

  lemma {:induction false} MergeIsRead(a: Pattern, b: Pattern, numA: nat, numB: nat)
    ensures ParseFrom(MergeString(a, b, numA, numB), 0).Some?
  {
    hide Render, MergeString;
    var s := MergeString(a, b, numA, numB);
    var p := MergeIsStored(a, b, numA, numB);
    assert s[0..] == s;
    ParseInvertsRender(p, s, 0);
  }

  /** That pattern. */
  function MergedPattern(a: Pattern, b: Pattern, numA: nat, numB: nat): (m: Pattern)
    ensures Render(m) == MergeString(a, b, numA, numB)
  {
    hide Render, MergeString;
    var s := MergeString(a, b, numA, numB);
    MergeIsRead(a, b, numA, numB);
    assert s[0..] == s;
    ParseFrom(s, 0).value
  }

  /** Without a clash it is the pattern of the alignment. */
  lemma {:induction false} MergedWithoutClash(a: Pattern, b: Pattern, numA: nat, numB: nat)
    requires Clashes(a, b, numA, numB, |a|, |b|) == 0
    ensures MergedPattern(a, b, numA, numB) == Merged(a, b, numA, numB, |a|, |b|)
  {
    hide Render, MergeString, Merged, Clashes;
    var s := MergeString(a, b, numA, numB);
    MergeStringIsMerged(a, b, numA, numB);
    assert s[0..] == s;
    ParseInvertsRender(MergedPattern(a, b, numA, numB), s, 0);
    ParseInvertsRender(Merged(a, b, numA, numB, |a|, |b|), s, 0);
  }

  // ---------------------------------------------------------------- when one pattern matches what another matches

  /** A pattern's literals, with `x` for each wildcard. */
  function Filled(p: Pattern, x: Byte): (s: Word)
    ensures |s| == |p|
  {
    seq(|p|, i requires 0 <= i < |p| => if p[i].Lit? then p[i].c else x)
  }

  lemma {:induction false} MatchesFilled(p: Pattern, x: Byte)
    ensures Matches(p, Filled(p, x))
  {
    if p != [] {
      var q := p[..|p| - 1];
      MatchesFilled(q, x);
      assert Filled(p, x)[..|q|] == Filled(q, x);
    }
  }

  /** Cutting a matched string where a prefix of the pattern ends. */
  lemma {:induction false} CutMatched(p: Pattern, k: nat, s: Word) returns (l: nat)
    requires k <= |p| && Matches(p, s)
    ensures l <= |s| && Matches(p[..k], s[..l])
    decreases |p|
  {
    hide Matches;
    assert p[..|p|] == p && s[..|s|] == s;
    if k == |p| {
      l := |s|;
    } else {
      var n := MatchesPrefix(p, |p|, s);
      assert p[..|p| - 1][..k] == p[..k];
      l := CutMatched(p[..|p| - 1], k, s[..n]);
      assert s[..n][..l] == s[..l];
    }
  }

  /** One string decides whether `m` matches all that `p` matches. */
  lemma {:induction false} FilledSuffices(m: Pattern, p: Pattern, x: Byte, s: Word)
    requires Lit(x) !in m && Matches(m, Filled(p, x)) && Matches(p, s)
    ensures Matches(m, s)
    decreases |m|
  {
    hide Matches;
    var f := Filled(p, x);
    if m == [] {
      EmptyMatches(f);
      EmptyMatches(s);
    } else {
      assert m[..|m|] == m && p[..|p|] == p;
      var n := MatchesPrefix(m, |m|, f);
      assert f[..n] == Filled(p[..n], x);
      if m[|m| - 1].Lit? {
        var l := MatchesPrefix(p, |p|, s);
        FilledSuffices(m[..|m| - 1], p[..n], x, s[..l]);
        MatchesLit(m[..|m| - 1], m[|m| - 1].c, s);
        assert m == m[..|m| - 1] + [Lit(m[|m| - 1].c)];
      } else {
        var l := CutMatched(p, n, s);
        FilledSuffices(m[..|m| - 1], p[..n], x, s[..l]);
        MatchesEnd(m, s, l);
      }
    }
  }

  lemma {:induction false} EmptyMatches(s: Word)
    ensures Matches([], s) <==> s == []
  {}

  lemma {:induction false} MatchesEnd(m: Pattern, s: Word, l: nat)
    requires m != [] && m[|m| - 1].Wild? && l <= |s| && Matches(m[..|m| - 1], s[..l])
    ensures Matches(m, s)
  {}

  /** For any byte `x` that the merged pattern does not hold: it matches whatever one of the two patterns matches if and
      only if it matches the two strings in which `x` stands for each wildcard. */
  lemma {:induction false} MergeKeepsExactly(a: Pattern, b: Pattern, numA: nat, numB: nat, x: Byte)
    requires Lit(x) !in MergedPattern(a, b, numA, numB)
    ensures
      var m := MergedPattern(a, b, numA, numB);
      (forall s :: Matches(a, s) || Matches(b, s) ==> Matches(m, s)) <==> Matches(m, Filled(a, x)) && Matches(m, Filled(b, x))
  {
    hide Matches, MergedPattern, Filled;
    var m := MergedPattern(a, b, numA, numB);
    MatchesFilled(a, x);
    MatchesFilled(b, x);
    if Matches(m, Filled(a, x)) && Matches(m, Filled(b, x)) {
      forall s | Matches(a, s) || Matches(b, s) ensures Matches(m, s) {
        if Matches(a, s) { FilledSuffices(m, a, x, s); } else { FilledSuffices(m, b, x, s); }
      }
    }
  }

  // ---------------------------------------------------------------- a clash may lose strings, but need not

  lemma {:induction false} StarAndWildcard()
    ensures Entry([Lit(STAR)], [Wild], 1, 1, 1, 1) == Cell(true, 0, UpperLeft)
  {
    var a, b := [Lit(STAR)], [Wild];
    assert Border(a, 0, 1, 1) == Border(b, 0, 1, 1) == Cell(true, 0, Esc);
    assert Border(a, 1, 1, 1) == Cell(true, 3, Esc);
    assert Border(b, 1, 1, 1) == Cell(false, 1, Esc);
  }

  /** The record of one star and the pattern of one wildcard merge to that wildcard, which matches everything. */
  lemma {:induction false} ClashKeepsStrings()
    ensures Clashes([Lit(STAR)], [Wild], 1, 1, 1, 1) == 1 && MergeString([Lit(STAR)], [Wild], 1, 1) == Render([Wild])
    ensures forall s :: Matches([Wild], s)
  {
    StarAndWildcard();
    hide IndexAt, Render, Matches, Entry;
    var a, b := [Lit(STAR)], [Wild];
    RenderOne(Lit(STAR));
    RenderOne(Wild);
    assert a[..1] == a && b[..1] == b;
    IndexFound(a, 1);
    IndexFound(b, 1);
    var t := TraceStart(a, b, 1, 1);
    assert t == Trace(2, 1, true, []);
    assert [Render(a)[1]] + t.str == [STAR];
    assert TraceStep(a, b, 1, 1, t) == Trace(1, 0, true, [STAR]);
    forall s ensures Matches([Wild], s) { MatchesWild(s); }
  }

  /** An escaped star that is kept for a wildcard: the record x* and the pattern x followed by a wildcard
      merge to a wildcard followed by a star, which no longer matches x. */
  lemma {:induction false} ClashLosesStrings(x: Byte)
    requires x == 120
    ensures
      var a, b, m := [Lit(x), Lit(STAR)], [Lit(x), Wild], [Wild, Lit(STAR)];
      Clashes(a, b, 1, 1, 2, 2) == 1 && MergeString(a, b, 1, 1) == Render(m) && Matches(b, [x]) && !Matches(m, [x])
  {
    var a, b, m := [Lit(x), Lit(STAR)], [Lit(x), Wild], [Wild, Lit(STAR)];
    ClashEntries(x);
    ClashTrace(x);
    RenderPrepend(Wild, [Lit(STAR)]);
    RenderOne(Lit(STAR));
    assert m == [Wild] + [Lit(STAR)];
    assert b == [Lit(x)] + [Wild] && b[..1] == [Lit(x)] && [x][..1] == [x] && [x][..0] == [];
    assert [Lit(x)][..0] == [];
    assert Matches([], []);
    assert Matches([Lit(x)], [x]);
    assert Matches(b[..1], [x][..1]);
  }

  lemma {:induction false} ClashEntries(x: Byte)
    requires x == 120
    ensures Entry([Lit(x), Lit(STAR)], [Lit(x), Wild], 1, 1, 2, 2) == Cell(true, 0, UpperLeft)
  {
    var a, b := [Lit(x), Lit(STAR)], [Lit(x), Wild];
    assert Border(a, 1, 1, 1) == Cell(false, 3, Esc) && Border(b, 1, 1, 1) == Cell(false, 3, Esc);
    assert Border(a, 2, 1, 1) == Cell(true, 4, Esc) && Border(b, 2, 1, 1) == Cell(false, 2, Esc);
    assert Entry(a, b, 1, 1, 1, 1) == Cell(true, 0, UpperLeft);
    assert Entry(a, b, 1, 1, 1, 2) == Cell(false, 1, UpPos);
    assert Entry(a, b, 1, 1, 2, 1) == Cell(false, 3, LeftPos);
  }

  lemma {:induction false} ClashPositions(x: Byte)
    requires x == 120
    ensures
      var a, b := [Lit(x), Lit(STAR)], [Lit(x), Wild];
      && Render(a) == [x, BACKSLASH, STAR] && Render(b) == [x, STAR]
      && IndexAt(a, 3) == 2 && IndexAt(b, 2) == 2 && IndexAt(a, 2) == -1
  {
    hide IndexAt;
    var a, b := [Lit(x), Lit(STAR)], [Lit(x), Wild];
    RenderOne(Lit(x));
    RenderAppend([Lit(x)], Lit(STAR));
    RenderAppend([Lit(x)], Wild);
    assert a == [Lit(x)] + [Lit(STAR)] && b == [Lit(x)] + [Wild];
    assert a[..2] == a && b[..2] == b && a[..1] == [Lit(x)];
    IndexFound(a, 2);
    IndexFound(b, 2);
    IndexInside(a, 1);
  }

  lemma {:induction false} ClashTrace(x: Byte)
    requires x == 120 && Entry([Lit(x), Lit(STAR)], [Lit(x), Wild], 1, 1, 2, 2) == Cell(true, 0, UpperLeft)
    ensures MergeString([Lit(x), Lit(STAR)], [Lit(x), Wild], 1, 1) == [STAR, BACKSLASH, STAR]
  {
    hide Entry, IndexAt, Render;
    ClashPositions(x);
    var a, b := [Lit(x), Lit(STAR)], [Lit(x), Wild];
    var t := TraceStart(a, b, 1, 1);
    assert t == Trace(3, 2, true, []);
    assert [Render(a)[2]] + t.str == [STAR] && [BACKSLASH] + [STAR] == [BACKSLASH, STAR];
    SlideOnce(a, b, 1, 1, Trace(2, 1, true, [STAR]), 1, 1);
    assert Slide(a, b, 1, 1, Trace(1, 0, true, [BACKSLASH, STAR]), 1, 1) == Trace(1, 0, true, [BACKSLASH, STAR]);
    assert TraceStep(a, b, 1, 1, t) == Trace(1, 0, true, [BACKSLASH, STAR]);
  }
}
