/** Tracing the merged pattern back through the table, on the characters of the stored strings. */
module PatternTrace {
  import opened Bytes
  import opened Patterns
  import opened PatternMerge

  // ---------------------------------------------------------------- tokens and positions

  /** Where token `k` starts in the stored string. */
  function Pos(p: Pattern, k: nat): nat
    requires k <= |p|
  {
    |Render(p[..k])|
  }

  lemma {:induction false} PosStep(p: Pattern, k: nat)
    requires k < |p|
    ensures Pos(p, 0) == 0
    ensures Pos(p, k + 1) == Pos(p, k) + |RenderToken(p[k])|
    ensures Render(p[..k + 1]) == Render(p[..k]) + RenderToken(p[k])
  {
    assert p[..k + 1] == p[..k] + [p[k]];
    RenderAppend(p[..k], p[k]);
  }

  lemma {:induction false} PosMono(p: Pattern, k: nat, l: nat)
    requires k <= l <= |p|
    ensures Pos(p, k) + (l - k) <= Pos(p, l) && Render(p[..k]) <= Render(p[..l])
    decreases l
  {
    if k < l {
      PosMono(p, k, l - 1);
      PosStep(p, l - 1);
    }
  }

  /** The stored string, read at the start of a token. */
  lemma {:induction false} ReadToken(p: Pattern, k: nat)
    requires k < |p|
    ensures Pos(p, |p|) == |Render(p)| && Pos(p, k) < Pos(p, k + 1) <= |Render(p)|
    ensures Render(p)[Pos(p, k)..Pos(p, k + 1)] == RenderToken(p[k])
    ensures Render(p)[Pos(p, k)] == RenderToken(p[k])[0]
    ensures Escaped(p[k]) ==> Pos(p, k) + 1 < Pos(p, k + 1) && Render(p)[Pos(p, k) + 1] == p[k].c
  {
    PosStep(p, k);
    PosMono(p, k + 1, |p|);
    assert p[..|p|] == p;
    var s, n := Render(p), Pos(p, k + 1);
    assert s[..n] == Render(p[..k]) + RenderToken(p[k]);
    assert s[Pos(p, k)..n] == s[..n][Pos(p, k)..];
    assert s[Pos(p, k)] == s[..n][Pos(p, k)];
    if Escaped(p[k]) { assert s[Pos(p, k) + 1] == s[..n][Pos(p, k) + 1]; }
  }

  /** Number of tokens that end at a position, -1 inside an escaped token. */
  function IndexAt(p: Pattern, pos: nat): (k: int)
    ensures -1 <= k <= |p|
    ensures k >= 0 ==> Pos(p, k) == pos
  {
    assert p[..|p|] == p;
    if pos == |Render(p)| then |p|
    else if p == [] then -1
    else
      var k := IndexAt(p[..|p| - 1], pos);
      assert k >= 0 ==> p[..|p| - 1][..k] == p[..k];
      k
  }

  lemma {:induction false} IndexIsUnique(p: Pattern, k: nat, l: nat)
    requires k <= |p| && l <= |p| && Pos(p, k) == Pos(p, l)
    ensures k == l
  {
    if k < l { PosMono(p, k, l); } else { PosMono(p, l, k); }
  }

  lemma {:induction false} IndexFound(p: Pattern, k: nat)
    requires k <= |p|
    ensures IndexAt(p, Pos(p, k)) == k
  {
    if k < |p| {
      PosMono(p, k, |p|);
      assert p[..|p|] == p && p[..|p| - 1][..k] == p[..k];
      IndexFound(p[..|p| - 1], k);
    } else {
      assert p[..|p|] == p;
    }
  }

  lemma {:induction false} IndexInside(p: Pattern, k: nat)
    requires k < |p| && Escaped(p[k])
    ensures IndexAt(p, Pos(p, k) + 1) == -1
  {
    PosStep(p, k);
    var l := IndexAt(p, Pos(p, k) + 1);
    if l >= 0 {
      if l <= k { PosMono(p, l, k); } else { PosMono(p, k + 1, l); }
    }
  }

  // ---------------------------------------------------------------- the trace

  /** The source recorded for two positions; only pairs of token ends have one. */
  function SourceAt(a: Pattern, b: Pattern, numA: nat, numB: nat, x: nat, y: nat): Source {
    var i, j := IndexAt(a, x), IndexAt(b, y);
    if i > 0 && j > 0 then Entry(a, b, numA, numB, i, j).source else Esc
  }

  /** State of the loop: both positions, whether the last character is in the pattern, the string so far. */
  datatype Trace = Trace(x: nat, y: nat, last: bool, str: Word)

  /** The inner loops: over the positions inside escaped tokens. */
  function Slide(a: Pattern, b: Pattern, numA: nat, numB: nat, t: Trace, dx: nat, dy: nat): (t': Trace)
    requires dx <= 1 && dy <= 1 && dx + dy > 0
    ensures t'.x <= t.x && t'.y <= t.y
    ensures t'.x == 0 || t'.y == 0 || SourceAt(a, b, numA, numB, t'.x, t'.y) != Esc
    decreases t.x + t.y
  {
    if t.x > 0 && t.y > 0 && SourceAt(a, b, numA, numB, t.x, t.y) == Esc then
      Slide(a, b, numA, numB, Trace(t.x - dx, t.y - dy, t.last, if t.last then [BACKSLASH] + t.str else t.str), dx, dy)
    else t
  }

  function Skipped(t: Trace): Word { if t.last then [STAR] + t.str else t.str }

  /** One round of the trace. */
  function TraceStep(a: Pattern, b: Pattern, numA: nat, numB: nat, t: Trace): (t': Trace)
    requires 0 < t.x <= |Render(a)| && t.y > 0 && SourceAt(a, b, numA, numB, t.x, t.y) != Esc
    ensures t'.x <= t.x && t'.y <= t.y && t'.x + t'.y < t.x + t.y
    ensures t'.x == 0 || t'.y == 0 || SourceAt(a, b, numA, numB, t'.x, t'.y) != Esc
  {
    var source := SourceAt(a, b, numA, numB, t.x, t.y);
    if source == UpperLeft then
      Slide(a, b, numA, numB, Trace(t.x - 1, t.y - 1, true, [Render(a)[t.x - 1]] + t.str), 1, 1)
    else if source == UpPos then
      Slide(a, b, numA, numB, Trace(t.x, t.y - 1, false, Skipped(t)), 0, 1)
    else
      Slide(a, b, numA, numB, Trace(t.x - 1, t.y, false, Skipped(t)), 1, 0)
  }

  function TraceBack(a: Pattern, b: Pattern, numA: nat, numB: nat, t: Trace): Trace
    requires t.x <= |Render(a)| && (t.x == 0 || t.y == 0 || SourceAt(a, b, numA, numB, t.x, t.y) != Esc)
    decreases t.x + t.y
  {
    if t.x > 0 && t.y > 0 then TraceBack(a, b, numA, numB, TraceStep(a, b, numA, numB, t)) else t
  }

  /** A pair of final positions has a source, so the trace always starts and ends. */
  function TraceStart(a: Pattern, b: Pattern, numA: nat, numB: nat): (t: Trace)
    ensures t.x == |Render(a)| && t.y == |Render(b)|
    ensures (t.x == 0 || t.y == 0 || SourceAt(a, b, numA, numB, t.x, t.y) != Esc)
  {
    EndsHaveSource(a, b, numA, numB);
    var pat := Entry(a, b, numA, numB, |a|, |b|).pat;
    Trace(|Render(a)|, |Render(b)|, pat, if pat then [] else [STAR])
  }

  lemma {:induction false} EndsHaveSource(a: Pattern, b: Pattern, numA: nat, numB: nat)
    ensures |Render(a)| == 0 || |Render(b)| == 0 || SourceAt(a, b, numA, numB, |Render(a)|, |Render(b)|) != Esc
  {
    assert a[..|a|] == a && b[..|b|] == b;
    IndexFound(a, |a|);
    IndexFound(b, |b|);
    if a != [] && b != [] {
      SourceSet(a, b, numA, numB, |a|, |b|);
    }
  }

  function TraceEnd(t: Trace): Word {
    if t.x != t.y && !(t.str != [] && t.str[0] == STAR) then [STAR] + t.str else t.str
  }

  /** What MergePattern returns for any two patterns. */
  function MergeString(a: Pattern, b: Pattern, numA: nat, numB: nat): Word {
    TraceEnd(TraceBack(a, b, numA, numB, TraceStart(a, b, numA, numB)))
  }

  // ---------------------------------------------------------------- the trace finds the merged pattern

  predicate StartsWild(p: Pattern) { p != [] && p[0].Wild? }

  /** `p` continued by `q`, two meeting wildcards being one. */
  function Join(p: Pattern, q: Pattern): Pattern {
    if EndsWild(p) && StartsWild(q) then p + q[1..] else p + q
  }

  lemma {:induction false} JoinSkip(p: Pattern, q: Pattern)
    ensures Join(AddWild(p), q) == Join(p, if StartsWild(q) then q else [Wild] + q)
  {
    if EndsWild(p) {
      assert AddWild(p) == p && ([Wild] + q)[1..] == q;
    } else if StartsWild(q) {
      assert q == [Wild] + q[1..];
      Reassociate(p, [Wild], q[1..]);
    } else {
      Reassociate(p, [Wild], q);
    }
  }

  lemma {:induction false} Reassociate(p: Pattern, q: Pattern, r: Pattern)
    ensures (p + q) + r == p + (q + r)
  {}

  lemma {:induction false} JoinKeep(p: Pattern, t: Token, q: Pattern)
    requires t.Lit?
    ensures Join(p + [t], q) == Join(p, [t] + q)
  {
    assert (p + [t]) + q == p + ([t] + q);
  }

  lemma {:induction false} StaysAtTokenEnds(a: Pattern, b: Pattern, numA: nat, numB: nat, i: nat, j: nat, t: Trace, dx: nat, dy: nat)
    requires i <= |a| && j <= |b| && t.x == Pos(a, i) && t.y == Pos(b, j) && dx <= 1 && dy <= 1 && dx + dy > 0
    ensures Slide(a, b, numA, numB, t, dx, dy) == t
  {
    hide Entry;
    IndexFound(a, i);
    IndexFound(b, j);
    PosZero(a, i);
    PosZero(b, j);
    if i > 0 && j > 0 { SourceSet(a, b, numA, numB, i, j); }
  }

  lemma {:induction false} PosZero(p: Pattern, k: nat)
    requires k <= |p|
    ensures Pos(p, k) == 0 <==> k == 0
  {
    PosMono(p, 0, k);
    assert p[..0] == [];
  }

  lemma {:induction false} SlideOnce(a: Pattern, b: Pattern, numA: nat, numB: nat, t: Trace, dx: nat, dy: nat)
    requires dx <= 1 && dy <= 1 && dx + dy > 0 && t.x > 0 && t.y > 0 && (IndexAt(a, t.x) == -1 || IndexAt(b, t.y) == -1)
    ensures Slide(a, b, numA, numB, t, dx, dy)
         == Slide(a, b, numA, numB, Trace(t.x - dx, t.y - dy, t.last, if t.last then [BACKSLASH] + t.str else t.str), dx, dy)
  {
    hide IndexAt, Entry;
  }

  /** A kept literal: its character, and its backslash if it has one. */
  lemma {:induction false} SlideKept(a: Pattern, b: Pattern, numA: nat, numB: nat, i: nat, j: nat, str: Word)
    requires 0 < i <= |a| && 0 < j <= |b| && a[i - 1].Lit? && a[i - 1] == b[j - 1]
    ensures Pos(a, i) > 0 && Pos(b, j) > 0 && Pos(a, i) <= |Render(a)|
    ensures Slide(a, b, numA, numB, Trace(Pos(a, i) - 1, Pos(b, j) - 1, true, [Render(a)[Pos(a, i) - 1]] + str), 1, 1)
         == Trace(Pos(a, i - 1), Pos(b, j - 1), true, RenderToken(a[i - 1]) + str)
  {
    hide Entry, Render, Pos, Slide, IndexAt, RenderToken;
    TokenSize(a, i - 1);
    TokenSize(b, j - 1);
    ReadToken(a, i - 1);
    var c := a[i - 1].c;
    StaysAtTokenEnds(a, b, numA, numB, i - 1, j - 1, Trace(Pos(a, i - 1), Pos(b, j - 1), true, RenderToken(a[i - 1]) + str), 1, 1);
    KeptString(a[i - 1], str);
    if Escaped(a[i - 1]) {
      IndexInside(a, i - 1);
      SlideOnce(a, b, numA, numB, Trace(Pos(a, i) - 1, Pos(b, j) - 1, true, [c] + str), 1, 1);
    }
  }

  lemma {:induction false} KeptString(t: Token, str: Word)
    requires t.Lit?
    ensures RenderToken(t) + str == if Escaped(t) then [BACKSLASH] + ([t.c] + str) else [t.c] + str
    ensures !Escaped(t) ==> RenderToken(t)[0] == t.c
  {}

  lemma {:induction false} TokenSize(p: Pattern, k: nat)
    requires k < |p|
    ensures Pos(p, k + 1) == Pos(p, k) + if Escaped(p[k]) then 2 else 1
  {
    PosStep(p, k);
  }

  lemma {:induction false} SlideUp(a: Pattern, b: Pattern, numA: nat, numB: nat, i: nat, j: nat, str: Word)
    requires 0 < i <= |a| && 0 < j <= |b|
    ensures Pos(b, j) > 0
    ensures Slide(a, b, numA, numB, Trace(Pos(a, i), Pos(b, j) - 1, false, str), 0, 1) == Trace(Pos(a, i), Pos(b, j - 1), false, str)
  {
    hide Entry, Render, Pos, Slide, IndexAt, RenderToken;
    TokenSize(b, j - 1);
    PosZero(a, i);
    StaysAtTokenEnds(a, b, numA, numB, i, j - 1, Trace(Pos(a, i), Pos(b, j - 1), false, str), 0, 1);
    if Escaped(b[j - 1]) {
      IndexInside(b, j - 1);
      SlideOnce(a, b, numA, numB, Trace(Pos(a, i), Pos(b, j) - 1, false, str), 0, 1);
    }
  }

  lemma {:induction false} SlideLeft(a: Pattern, b: Pattern, numA: nat, numB: nat, i: nat, j: nat, str: Word)
    requires 0 < i <= |a| && 0 < j <= |b|
    ensures Pos(a, i) > 0
    ensures Slide(a, b, numA, numB, Trace(Pos(a, i) - 1, Pos(b, j), false, str), 1, 0) == Trace(Pos(a, i - 1), Pos(b, j), false, str)
  {
    hide Entry, Render, Pos, Slide, IndexAt, RenderToken;
    TokenSize(a, i - 1);
    PosZero(b, j);
    StaysAtTokenEnds(a, b, numA, numB, i - 1, j, Trace(Pos(a, i - 1), Pos(b, j), false, str), 1, 0);
    if Escaped(a[i - 1]) {
      IndexInside(a, i - 1);
      SlideOnce(a, b, numA, numB, Trace(Pos(a, i) - 1, Pos(b, j), false, str), 1, 0);
    }
  }

  /** The trace has reached the ends of tokens `i` and `j` with the pattern `q` behind it. */
  predicate Reached(a: Pattern, b: Pattern, i: nat, j: nat, t: Trace, q: Pattern) {
    i <= |a| && j <= |b| && t == Trace(Pos(a, i), Pos(b, j), !StartsWild(q), Render(q))
  }

  lemma {:induction false} SourceAtEnds(a: Pattern, b: Pattern, numA: nat, numB: nat, i: nat, j: nat, t: Trace, q: Pattern)
    requires Reached(a, b, i, j, t, q)
    ensures t.x <= |Render(a)| && (t.x == 0 <==> i == 0) && (t.y == 0 <==> j == 0)
    ensures SourceAt(a, b, numA, numB, t.x, t.y) == if i > 0 && j > 0 then Entry(a, b, numA, numB, i, j).source else Esc
  {
    hide Entry;
    PosMono(a, i, |a|);
    assert a[..|a|] == a;
    PosZero(a, i);
    PosZero(b, j);
    IndexFound(a, i);
    IndexFound(b, j);
  }

  /** One round of the trace goes back over one token of `a`, of `b`, or of both. */
  lemma {:induction false} StepMerges(a: Pattern, b: Pattern, numA: nat, numB: nat, i: nat, j: nat, t: Trace, q: Pattern)
    requires 0 < i && 0 < j && Reached(a, b, i, j, t, q) && Clashes(a, b, numA, numB, i, j) == 0
    ensures 0 < t.x <= |Render(a)| && t.y > 0 && SourceAt(a, b, numA, numB, t.x, t.y) == Entry(a, b, numA, numB, i, j).source != Esc
    ensures
      var t' := TraceStep(a, b, numA, numB, t);
      var q' := if StartsWild(q) then q else [Wild] + q;
      match Entry(a, b, numA, numB, i, j).source
      case UpperLeft => Reached(a, b, i - 1, j - 1, t', [a[i - 1]] + q)
      case UpPos => Reached(a, b, i, j - 1, t', q')
      case LeftPos => Reached(a, b, i - 1, j, t', q')
      case Esc => false
  {
    hide Entry, Render, Pos, Slide, IndexAt, SourceAt;
    SourceAtEnds(a, b, numA, numB, i, j, t, q);
    SourceSet(a, b, numA, numB, i, j);
    SameMeans(a[i - 1], b[j - 1]);
    RenderPrepend(Wild, q);
    if Entry(a, b, numA, numB, i, j).source == UpperLeft {
      RenderPrepend(a[i - 1], q);
      SlideKept(a, b, numA, numB, i, j, t.str);
    } else if Entry(a, b, numA, numB, i, j).source == UpPos {
      SlideUp(a, b, numA, numB, i, j, Skipped(t));
    } else {
      SlideLeft(a, b, numA, numB, i, j, Skipped(t));
    }
  }

  /** From token ends on, the trace prepends the merged pattern of the prefixes to what it has. */
  lemma {:induction false} TraceMerges(a: Pattern, b: Pattern, numA: nat, numB: nat, i: nat, j: nat, t: Trace, q: Pattern)
    requires Reached(a, b, i, j, t, q) && Clashes(a, b, numA, numB, i, j) == 0
    ensures t.x <= |Render(a)| && (t.x == 0 || t.y == 0 || SourceAt(a, b, numA, numB, t.x, t.y) != Esc)
    ensures TraceEnd(TraceBack(a, b, numA, numB, t)) == Render(Join(Merged(a, b, numA, numB, i, j), q))
    decreases i + j
  {
    hide Entry, Render, Pos, Slide, IndexAt, SourceAt, TraceStep, Join, AddWild, StartsWild;
    SourceAtEnds(a, b, numA, numB, i, j, t, q);
    if i > 0 && j > 0 {
      StepMerges(a, b, numA, numB, i, j, t, q);
      var t' := TraceStep(a, b, numA, numB, t);
      var q' := if StartsWild(q) then q else [Wild] + q;
      SourceSet(a, b, numA, numB, i, j);
      if Entry(a, b, numA, numB, i, j).source == UpperLeft {
        TraceMerges(a, b, numA, numB, i - 1, j - 1, t', [a[i - 1]] + q);
        SameMeans(a[i - 1], b[j - 1]);
        JoinKeep(Merged(a, b, numA, numB, i - 1, j - 1), a[i - 1], q);
      } else if Entry(a, b, numA, numB, i, j).source == UpPos {
        TraceMerges(a, b, numA, numB, i, j - 1, t', q');
        JoinSkip(Merged(a, b, numA, numB, i, j - 1), q);
      } else {
        TraceMerges(a, b, numA, numB, i - 1, j, t', q');
        JoinSkip(Merged(a, b, numA, numB, i - 1, j), q);
      }
    } else {
      TraceStops(a, b, numA, numB, i, j, t, q);
    }
  }

  lemma {:induction false} TraceStops(a: Pattern, b: Pattern, numA: nat, numB: nat, i: nat, j: nat, t: Trace, q: Pattern)
    requires Reached(a, b, i, j, t, q) && (i == 0 || j == 0)
    requires (t.x == 0 <==> i == 0) && (t.y == 0 <==> j == 0)
    ensures TraceEnd(t) == Render(Join(Merged(a, b, numA, numB, i, j), q))
  {
    hide Pos;
    StartOf(q);
    RenderPrepend(Wild, q);
    if i == 0 && j == 0 {
      assert Join([], q) == q;
    } else if StartsWild(q) {
      assert Join([Wild], q) == q;
    } else {
      assert Join([Wild], q) == [Wild] + q;
    }
  }

  /** A stored string begins with a star exactly when its pattern begins with a wildcard. */
  lemma {:induction false} StartOf(q: Pattern)
    ensures StartsWild(q) <==> Render(q) != [] && Render(q)[0] == STAR
  {
    if q != [] {
      RenderPrepend(q[0], q[1..]);
      assert q == [q[0]] + q[1..];
    }
  }

  /** MergePattern's string is the stored form of the merged pattern. */
  lemma {:induction false} MergeStringIsMerged(a: Pattern, b: Pattern, numA: nat, numB: nat)
    requires Clashes(a, b, numA, numB, |a|, |b|) == 0
    ensures MergeString(a, b, numA, numB) == Render(Merged(a, b, numA, numB, |a|, |b|))
  {
    hide Entry, IndexAt, SourceAt, TraceStep, TraceBack, TraceEnd;
    assert a[..|a|] == a && b[..|b|] == b;
    var t := TraceStart(a, b, numA, numB);
    var m := Merged(a, b, numA, numB, |a|, |b|);
    RenderOne(Wild);
    if Entry(a, b, numA, numB, |a|, |b|).pat {
      TraceMerges(a, b, numA, numB, |a|, |b|, t, []);
      assert Join(m, []) == m;
    } else {
      TraceMerges(a, b, numA, numB, |a|, |b|, t, [Wild]);
      EndsInGap(a, b, numA, numB);
      assert Join(m, [Wild]) == m;
    }
  }

  /** A last entry in a gap belongs to a merged pattern that ends in a wildcard. */
  lemma {:induction false} EndsInGap(a: Pattern, b: Pattern, numA: nat, numB: nat)
    requires !Entry(a, b, numA, numB, |a|, |b|).pat
    ensures EndsWild(Merged(a, b, numA, numB, |a|, |b|))
  {
    hide UpdateState;
    if a != [] && b != [] { SourceSet(a, b, numA, numB, |a|, |b|); }
  }

  // ---------------------------------------------------------------- main result

  /** The string MergePattern returns is well escaped, has no two adjacent wildcards and matches every
      string that either input matches. */
  lemma {:induction false} MergeTheorem(a: Pattern, b: Pattern, numA: nat, numB: nat) returns (m: Pattern)
    requires Clashes(a, b, numA, numB, |a|, |b|) == 0
    ensures MergeString(a, b, numA, numB) == Render(m) && NoAdjacentWilds(m)
    ensures forall s :: Matches(a, s) || Matches(b, s) ==> Matches(m, s)
  {
    hide Clashes, Matches, Merged, MergeString;
    m := Merged(a, b, numA, numB, |a|, |b|);
    MergeStringIsMerged(a, b, numA, numB);
    MergeNoAdjacentWilds(a, b, numA, numB, |a|, |b|);
    assert a[..|a|] == a && b[..|b|] == b;
    forall s | Matches(a, s) || Matches(b, s) ensures Matches(m, s) {
      MergeGeneralises(a, b, numA, numB, |a|, |b|, s);
    }
  }
}
