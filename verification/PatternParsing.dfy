/** Reading stored patterns: each is unescaped into the literal data of its segments and their positions. */
module PatternParsing {
  import opened Bytes
  import opened Patterns
  import opened PatternMerge
  import opened RecordFormat
  import opened RecordCodec

  const DOT: Byte := 46

  // ---------------------------------------------------------------- the grammar of stored patterns

  /** The tokens of a stored string from position `i` on; a backslash must precede a backslash or a star. */
  function ParseFrom(s: Word, i: nat): (r: Option<Pattern>)
    requires i <= |s|
    ensures r.Some? ==> Render(r.value) == s[i..]
    decreases |s| - i
  {
    if i == |s| then Some([])
    else if s[i] == BACKSLASH then
      if i + 1 == |s| || (s[i + 1] != BACKSLASH && s[i + 1] != STAR) then None
      else
        ParseAppend(s, i, Lit(s[i + 1]), i + 2);
        Prepend(Lit(s[i + 1]), ParseFrom(s, i + 2))
    else
      var t := if s[i] == STAR then Wild else Lit(s[i]);
      ParseAppend(s, i, t, i + 1);
      Prepend(t, ParseFrom(s, i + 1))
  }

  function Prepend(t: Token, r: Option<Pattern>): Option<Pattern> {
    if r.Some? then Some([t] + r.value) else None
  }

  lemma {:induction false} ParseAppend(s: Word, i: nat, t: Token, j: nat)
    requires i <= j <= |s| && s[i..j] == RenderToken(t)
    ensures forall p :: Render(p) == s[j..] ==> Render([t] + p) == s[i..]
  {
    forall p | Render(p) == s[j..] ensures Render([t] + p) == s[i..] {
      RenderPrepend(t, p);
      assert s[i..] == s[i..j] + s[j..];
    }
  }

  /** Exactly the stored forms of patterns are accepted, and each belongs to one pattern. */
  lemma {:induction false} ParseInvertsRender(p: Pattern, s: Word, i: nat)
    requires i <= |s| && s[i..] == Render(p)
    ensures ParseFrom(s, i) == Some(p)
    decreases |p|
  {
    hide Render;
    if p == [] {
      RenderOne(Wild);
    } else {
      RenderPrepend(p[0], p[1..]);
      assert p == [p[0]] + p[1..];
      var t := RenderToken(p[0]);
      assert s[i..] == t + Render(p[1..]);
      assert s[i] == s[i..][0] && s[i + |t|..] == s[i..][|t|..] == Render(p[1..]);
      ParseInvertsRender(p[1..], s, i + |t|);
      if Escaped(p[0]) { assert s[i + 1] == s[i..][1]; }
    }
  }

  // ---------------------------------------------------------------- building the segments

  /** The fields of patternInfo for the tokens read so far; the last segment is still open. */
  ghost predicate Building(num: nat, pos: seq<nat>, data: Word, p: Pattern) {
    && num == Wilds(p) && |pos| == num + 1 && pos[0] == 0
    && (forall k :: 0 <= k < num ==> SegmentAt(PatternInfo(num, pos, data), k, Segments(p)[k]))
    && pos[num] <= |data| && data[pos[num]..] == Segments(p)[num]
  }

  lemma {:induction false} AppendLit(num: nat, pos: seq<nat>, data: Word, p: Pattern, c: Byte)
    requires Building(num, pos, data, p)
    ensures Building(num, pos, data + [c], p + [Lit(c)])
  {
    assert (p + [Lit(c)])[..|p|] == p;
    var segs, segs' := Segments(p), Segments(p + [Lit(c)]);
    assert segs' == segs[..num] + [segs[num] + [c]];
    forall k | 0 <= k < num ensures SegmentAt(PatternInfo(num, pos, data + [c]), k, segs'[k]) {
      assert SegmentAt(PatternInfo(num, pos, data), k, segs[k]);
      assert (data + [c])[pos[k]..pos[k + 1]] == data[pos[k]..pos[k + 1]];
    }
    assert (data + [c])[pos[num]..] == data[pos[num]..] + [c];
  }

  lemma {:induction false} AppendWild(num: nat, pos: seq<nat>, data: Word, p: Pattern)
    requires Building(num, pos, data, p)
    ensures Building(num + 1, pos + [|data|], data, p + [Wild])
  {
    assert (p + [Wild])[..|p|] == p;
    var segs, segs' := Segments(p), Segments(p + [Wild]);
    var pos' := pos + [|data|];
    forall k | 0 <= k < num + 1 ensures SegmentAt(PatternInfo(num + 1, pos', data), k, segs'[k]) {
      if k < num { assert SegmentAt(PatternInfo(num, pos, data), k, segs[k]); }
    }
  }

  lemma {:induction false} Finish(num: nat, pos: seq<nat>, data: Word, p: Pattern)
    requires Building(num, pos, data, p)
    ensures InfoOf(PatternInfo(num + 1, pos + [|data|], data), Segments(p))
  {
    var info := PatternInfo(num + 1, pos + [|data|], data);
    forall k | 0 <= k < num + 1 ensures SegmentAt(info, k, Segments(p)[k]) {
      if k < num { assert SegmentAt(PatternInfo(num, pos, data), k, Segments(p)[k]); }
    }
  }

  // ---------------------------------------------------------------- the parser

  const CARET: Byte := 94

  /** Characters that are escaped in the expression for the matcher. */
  const SPECIAL: seq<Byte> := [36, 40, 41, 91, 93, 123, 125, 63, 94, 46, 43, 42, 124, 45, 61, 58, 47]

  /** The expression so far shows whether the last token was a wildcard. */
  ghost predicate Shows(hs: Word, p: Pattern) {
    if p == [] then hs == [] || hs == [CARET]
    else |hs| >= 1 && if EndsWild(p) then |hs| >= 2 && hs[|hs| - 1] == STAR && hs[|hs| - 2] == DOT
    else hs[|hs| - 1] != STAR || (|hs| >= 2 && hs[|hs| - 2] != DOT)
  }

  /** A plain character in the expression. */
  function Quote(c: Byte): Word {
    (if c in SPECIAL then [BACKSLASH] else []) + if c == 0 then [BACKSLASH, 48] else [c]
  }

  /** A token in the expression. */
  function TokenText(t: Token): Word {
    if t.Wild? then [DOT, STAR] else if Escaped(t) then [BACKSLASH, t.c] else Quote(t.c)
  }

  /** The expression for a pattern, without what may stand in front of it. */
  function Expression(p: Pattern): Word {
    if p == [] then [] else Expression(p[..|p| - 1]) + TokenText(p[|p| - 1])
  }

  /** It begins at the start of a record, unless it begins with a wildcard. */
  function Anchor(first: Byte): Word { if first != STAR then [CARET] else [] }

  lemma {:induction false} ExpressionNext(front: Word, p: Pattern, t: Token)
    ensures front + Expression(p + [t]) == (front + Expression(p)) + TokenText(t) && front + Expression([]) == front
  {
    assert (p + [t])[..|p|] == p;
  }

  lemma {:induction false} ShowsNext(hs: Word, p: Pattern, c: Byte)
    requires Shows(hs, p)
    ensures Shows(hs + [DOT, STAR], p + [Wild])
    ensures c == STAR || c == BACKSLASH ==> Shows(hs + [BACKSLASH, c], p + [Lit(c)])
    ensures c != STAR && c != BACKSLASH ==> Shows(hs + Quote(c), p + [Lit(c)])
  {}

  lemma {:induction false} ShowsEnd(hs: Word, p: Pattern)
    requires Shows(hs, p) && hs != []
    ensures hs != [] && (EndsWild(p) <==> !(hs[|hs| - 1] != STAR || (|hs| > 1 && hs[|hs| - 2] != DOT)))
  {}

  /** The first `i` characters have been read as the pattern `p`: its segments, and the expression for the matcher. */
  ghost predicate Parsing(s: Word, first: Byte, i: nat, p: Pattern, num: nat, pos: seq<nat>, data: Word, hs: Word) {
    && i <= |s| && Building(num, pos, data, p) && Shows(hs, p) && (hs == [] <==> i == 0 && first == STAR)
    && hs == Anchor(first) + Expression(p)
    && ParseFrom(s, 0) == Continue(p, ParseFrom(s, i))
  }

  lemma {:induction false} StartParsing(s: Word, first: Byte)
    ensures Parsing(s, first, 0, [], 0, [0], [], if first != STAR then [CARET] else [])
  {
    hide ParseFrom, Building, Shows, Continue, Expression;
    NothingBuilt(if first != STAR then [CARET] else [], s);
    ExpressionNext(Anchor(first), [], Wild);
  }

  lemma {:induction false} ParseEscaped(s: Word, first: Byte, i: nat, p: Pattern, num: nat, pos: seq<nat>, data: Word, hs: Word)
    requires Parsing(s, first, i, p, num, pos, data, hs) && i < |s| && s[i] == BACKSLASH
    ensures
      if i == |s| - 1 || (s[i + 1] != BACKSLASH && s[i + 1] != STAR) then ParseFrom(s, 0).None?
      else Parsing(s, first, i + 2, p + [Lit(s[i + 1])], num, pos, data + [s[i + 1]], hs + [BACKSLASH, s[i + 1]])
  {
    hide ParseFrom, Building, Shows, Continue, Quote, Expression;
    ParseStep(s, i, p);
    if i < |s| - 1 && (s[i + 1] == BACKSLASH || s[i + 1] == STAR) {
      AppendLit(num, pos, data, p, s[i + 1]);
      ShowsNext(hs, p, s[i + 1]);
      ExpressionNext(Anchor(first), p, Lit(s[i + 1]));
    }
  }

  lemma {:induction false} ParseStar(s: Word, first: Byte, i: nat, p: Pattern, num: nat, pos: seq<nat>, data: Word, hs: Word)
    requires Parsing(s, first, i, p, num, pos, data, hs) && i < |s| && s[i] == STAR
    ensures Parsing(s, first, i + 1, p + [Wild], num + 1, pos + [|data|], data, hs + [DOT, STAR])
  {
    hide ParseFrom, Building, Shows, Continue, Quote, Expression;
    ParseStep(s, i, p);
    AppendWild(num, pos, data, p);
    ShowsNext(hs, p, STAR);
    ExpressionNext(Anchor(first), p, Wild);
  }

  lemma {:induction false} ParsePlain(s: Word, first: Byte, i: nat, p: Pattern, num: nat, pos: seq<nat>, data: Word, hs: Word)
    requires Parsing(s, first, i, p, num, pos, data, hs) && i < |s| && s[i] != STAR && s[i] != BACKSLASH
    ensures Parsing(s, first, i + 1, p + [Lit(s[i])], num, pos, data + [s[i]], hs + Quote(s[i]))
  {
    hide ParseFrom, Building, Shows, Continue, Expression;
    ParseStep(s, i, p);
    AppendLit(num, pos, data, p, s[i]);
    ShowsNext(hs, p, s[i]);
    ExpressionNext(Anchor(first), p, Lit(s[i]));
  }

  lemma {:induction false} EndExpression(first: Byte, p: Pattern, hs: Word)
    requires Shows(hs, p) && hs != [] && hs == Anchor(first) + Expression(p)
    ensures
      Anchor(first) + Expression(Closed(p)) == if hs[|hs| - 1] != STAR || (|hs| > 1 && hs[|hs| - 2] != DOT) then hs + [DOT, STAR] else hs
  {
    hide Shows, Expression, Anchor, EndsWild, Closed;
    ShowsEnd(hs, p);
    ExpressionNext(Anchor(first), p, Wild);
    ClosedIs(p, p);
    ClosedIs(p, p + [Wild]);
  }

  /** At the end a wildcard is added unless there is one. */
  lemma {:induction false} EndSegments(p: Pattern, num: nat, pos: seq<nat>, data: Word, hs: Word)
    requires Building(num, pos, data, p) && Shows(hs, p) && hs != []
    ensures
      InfoOf(if hs[|hs| - 1] != STAR || (|hs| > 1 && hs[|hs| - 2] != DOT) then PatternInfo(num + 2, pos + [|data|] + [|data|], data)
             else PatternInfo(num + 1, pos + [|data|], data), Segments(Closed(p)))
  {
    hide Building, Shows, InfoOf, Segments, Closed, EndsWild;
    ShowsEnd(hs, p);
    if EndsWild(p) {
      Finish(num, pos, data, p);
      ClosedIs(p, p);
    } else {
      AppendWild(num, pos, data, p);
      Finish(num + 1, pos + [|data|], data, p + [Wild]);
      ClosedIs(p, p + [Wild]);
    }
  }

  lemma {:induction false} EndParsing(s: Word, first: Byte, p: Pattern, num: nat, pos: seq<nat>, data: Word, hs: Word)
    requires Parsing(s, first, |s|, p, num, pos, data, hs)
    ensures ParseFrom(s, 0) == Some(p) && Building(num, pos, data, p) && Shows(hs, p) && hs == Anchor(first) + Expression(p)
  {
    hide ParseFrom, Building, Shows, Continue, Expression, Anchor;
    ParseDone(s, p);
  }

  /** An entry of the list, an error, or the last character of an empty expression, which is not tested for. */
  datatype Parsed = Listed(info: PatternInfo) | Malformed | NoLastCharacter

  /** One pattern of ReadPattern: refused exactly if it is no stored form, otherwise closed by a wildcard and cut into segments.
      `first` is the byte where the pattern begins, which belongs to what follows if the pattern is empty. */
  method ParsePattern(s: Word, first: Byte) returns (parsed: Parsed, hs: Word)
    requires s != [] ==> first == s[0]
    ensures parsed == Malformed <==> ParseFrom(s, 0).None?
    ensures parsed == NoLastCharacter <==> s == [] && first == STAR
    ensures parsed.Listed? ==> InfoOf(parsed.info, Segments(Closed(ParseFrom(s, 0).value)))
    ensures parsed.Listed? ==> hs == Anchor(first) + Expression(Closed(ParseFrom(s, 0).value))
  {
    hide Parsing, Segments, ParseFrom, InfoOf, Quote, Closed, Expression, Anchor, Building, Shows;
    var num: nat, pos: seq<nat>, data: Word := 0, [0], [];
    hs := if first != STAR then [CARET] else [];
    ghost var p: Pattern := [];
    StartParsing(s, first);
    var i: nat := 0;
    while i < |s|
      invariant i <= |s| && Parsing(s, first, i, p, num, pos, data, hs)
      decreases |s| - i
    {
      if s[i] == BACKSLASH {
        ParseEscaped(s, first, i, p, num, pos, data, hs);
        if i == |s| - 1 || (s[i + 1] != BACKSLASH && s[i + 1] != STAR) { return Malformed, hs; }
        hs, data, p := hs + [BACKSLASH, s[i + 1]], data + [s[i + 1]], p + [Lit(s[i + 1])];
        i := i + 2;
      } else if s[i] == STAR {
        ParseStar(s, first, i, p, num, pos, data, hs);
        hs, num, pos, p := hs + [DOT, STAR], num + 1, pos + [|data|], p + [Wild];
        i := i + 1;
      } else {
        ParsePlain(s, first, i, p, num, pos, data, hs);
        hs, data, p := hs + Quote(s[i]), data + [s[i]], p + [Lit(s[i])];
        i := i + 1;
      }
    }
    EndParsing(s, first, p, num, pos, data, hs);
    NoExpression(s, first, p, num, pos, data, hs);
    if hs == [] { return NoLastCharacter, hs; }
    EndSegments(p, num, pos, data, hs);
    EndExpression(first, p, hs);
    if hs[|hs| - 1] != STAR || (|hs| > 1 && hs[|hs| - 2] != DOT) {
      hs, num, pos := hs + [DOT, STAR], num + 1, pos + [|data|];
    }
    parsed := Listed(PatternInfo(num + 1, pos + [|data|], data));
  }

  lemma {:induction false} NoExpression(s: Word, first: Byte, p: Pattern, num: nat, pos: seq<nat>, data: Word, hs: Word)
    requires Parsing(s, first, |s|, p, num, pos, data, hs)
    ensures hs == [] <==> s == [] && first == STAR
  {}

  lemma {:induction false} ClosedIs(p: Pattern, q: Pattern)
    ensures q == (if EndsWild(p) then p else p + [Wild]) ==> Closed(p) == q
  {}

  function Continue(p: Pattern, r: Option<Pattern>): Option<Pattern> { if r.Some? then Some(p + r.value) else None }

  lemma {:induction false} NothingBuilt(hs: Word, s: Word)
    ensures Building(0, [0], [], []) && Continue([], ParseFrom(s, 0)) == ParseFrom(s, 0)
    ensures hs == [] || hs == [CARET] ==> Shows(hs, [])
  {
    var r := ParseFrom(s, 0);
    if r.Some? { assert [] + r.value == r.value; }
  }

  lemma {:induction false} ParseStep(s: Word, i: nat, p: Pattern)
    requires i < |s|
    ensures
      if s[i] == BACKSLASH then
        if i == |s| - 1 || (s[i + 1] != BACKSLASH && s[i + 1] != STAR) then Continue(p, ParseFrom(s, i)).None?
        else Continue(p, ParseFrom(s, i)) == Continue(p + [Lit(s[i + 1])], ParseFrom(s, i + 2))
      else Continue(p, ParseFrom(s, i)) == Continue(p + [if s[i] == STAR then Wild else Lit(s[i])], ParseFrom(s, i + 1))
  {
    hide Render;
    var j := if s[i] == BACKSLASH then i + 2 else i + 1;
    if j <= |s| && ParseFrom(s, j).Some? {
      var t := if s[i] == BACKSLASH then Lit(s[i + 1]) else if s[i] == STAR then Wild else Lit(s[i]);
      var q := ParseFrom(s, j).value;
      assert (p + [t]) + q == p + ([t] + q);
    }
  }

  lemma {:induction false} ParseDone(s: Word, p: Pattern)
    ensures Continue(p, ParseFrom(s, |s|)) == Some(p)
  {
    assert p + [] == p;
  }
}
