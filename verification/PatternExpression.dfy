/** The expression that a stored pattern is handed to the matcher as: read by the rules of Perl compatible regular expressions
    it is the closed pattern again, but for a zero byte in front of an octal digit, and it selects the records that the pattern
    matches. */
module PatternExpression {
  import opened Bytes
  import opened Patterns
  import opened PatternMerge
  import opened PatternTrace
  import opened RecordFormat
  import opened RecordCodec
  import opened PatternParsing

  // ---------------------------------------------------------------- reading an expression

  const ZERO: Byte := 48

  predicate Octal(c: nat) { 48 <= c <= 55 }

  predicate Alphanumeric(c: Byte) { 48 <= c <= 57 || 65 <= c <= 90 || 97 <= c <= 122 }

  /** Characters with a meaning of their own: \ ^ $ . [ | ( ) ? * + { */
  predicate Meta(c: Byte) { c in [92, 94, 36, 46, 91, 124, 40, 41, 63, 42, 43, 123] }

  /** At most two octal digits belong to a backslash and a zero. */
  function Digits(e: Word): (n: nat)
    ensures n <= 2 && n <= |e|
  {
    if e == [] || !Octal(e[0]) then 0 else if |e| == 1 || !Octal(e[1]) then 1 else 2
  }

  function OctalValue(e: Word, n: nat): Byte
    requires n <= Digits(e)
  {
    if n == 0 then 0 else if n == 1 then e[0] - 48 else 8 * (e[0] - 48) + (e[1] - 48)
  }

  /** The literals and the repeated dots of an expression that has nothing else. */
  function ReadExpression(e: Word): Option<Pattern>
    decreases |e|
  {
    if e == [] then Some([])
    else if e[0] == BACKSLASH then
      if |e| == 1 then None
      else if e[1] == ZERO then
        var n := Digits(e[2..]);
        Prepend(Lit(OctalValue(e[2..], n)), ReadExpression(e[2 + n..]))
      else if Alphanumeric(e[1]) then None
      else Prepend(Lit(e[1]), ReadExpression(e[2..]))
    else if e[0] == DOT then if |e| > 1 && e[1] == STAR then Prepend(Wild, ReadExpression(e[2..])) else None
    else if Meta(e[0]) then None
    else Prepend(Lit(e[0]), ReadExpression(e[1..]))
  }

  // ---------------------------------------------------------------- there and back

  lemma {:induction false} ExpressionPrepend(t: Token, p: Pattern)
    ensures Expression([t] + p) == TokenText(t) + Expression(p)
  {
    hide TokenText;
    if p == [] {
      assert [t] + p == [t] && [t][..0] == [];
    } else {
      var q, u := p[..|p| - 1], p[|p| - 1];
      assert p == q + [u] && [t] + p == ([t] + q) + [u];
      ExpressionPrepend(t, q);
      assert ([t] + p)[..|p|] == [t] + q;
      Regroup(TokenText(t), Expression(q), TokenText(u));
    }
  }

  /** A zero byte and an octal digit behind it. */
  ghost predicate ZeroThenDigit(p: Pattern, i: nat) { i + 1 < |p| && p[i] == Lit(0) && p[i + 1].Lit? && Octal(p[i + 1].c) }

  ghost predicate Unambiguous(p: Pattern) { forall i: nat :: !ZeroThenDigit(p, i) }

  lemma {:induction false} UnambiguousRest(t: Token, p: Pattern)
    ensures Unambiguous([t] + p) <==> Unambiguous(p) && !ZeroThenDigit([t] + p, 0)
  {
    forall i: nat ensures ZeroThenDigit(p, i) <==> ZeroThenDigit([t] + p, i + 1) {}
    if Unambiguous(p) && !ZeroThenDigit([t] + p, 0) {
      forall i: nat ensures !ZeroThenDigit([t] + p, i) {
        assert i > 0 ==> !ZeroThenDigit(p, i - 1);
      }
    }
  }

  /** A token other than a zero byte is read as itself. */
  lemma {:induction false} ReadNext(t: Token, e: Word)
    requires t != Lit(0)
    ensures ReadExpression(TokenText(t) + e) == Prepend(t, ReadExpression(e))
  {
    var text := TokenText(t);
    assert (text + e)[|text|..] == e;
  }

  /** How the expression for `p` begins. */
  lemma {:induction false} FirstCharacter(p: Pattern)
    ensures Expression(p) == [] <==> p == []
    ensures p != [] ==> (Octal(Expression(p)[0]) <==> p[0].Lit? && Octal(p[0].c)) && (Octal(Expression(p)[0]) ==> Expression(p)[0] == p[0].c)
    ensures p != [] && Octal(Expression(p)[0]) ==> Expression(p)[1..] == Expression(p[1..])
  {
    hide Expression, TokenText, Octal;
    if p != [] {
      assert p == [p[0]] + p[1..];
      ExpressionPrepend(p[0], p[1..]);
      FirstOfToken(p[0]);
    } else {
      NoTokens();
    }
  }

  lemma {:induction false} FirstOfToken(t: Token)
    ensures TokenText(t) != [] && (Octal(TokenText(t)[0]) <==> t.Lit? && Octal(t.c)) && (Octal(TokenText(t)[0]) ==> TokenText(t) == [t.c])
  {}

  lemma {:induction false} NoTokens()
    ensures Expression([]) == []
  {}

  /** An expression is read as its pattern exactly if no zero byte stands in front of an octal digit; then it is read as fewer tokens. */
  lemma {:induction false} ReadsBack(p: Pattern)
    ensures ReadExpression(Expression(p)).Some? && |ReadExpression(Expression(p)).value| <= |p|
    ensures ReadExpression(Expression(p)) == Some(p) <==> Unambiguous(p)
    decreases |p|
  {
    hide Expression, TokenText, ReadExpression, Octal;
    if p == [] {
      EmptyExpression();
    } else {
      var t, r := p[0], p[1..];
      assert p == [t] + r;
      ExpressionPrepend(t, r);
      UnambiguousRest(t, r);
      ReadsBack(r);
      if t != Lit(0) {
        ReadNext(t, Expression(r));
      } else {
        var n := DigitsOf(r);
        ReadZero(Expression(r), n);
        ReadsBack(r[n..]);
      }
    }
  }

  /** The zero byte and the digit 7 are read as the byte 7. */
  lemma {:induction false} ZeroSevenMisread()
    ensures ReadExpression(Expression([Lit(0), Lit(55)])) == Some([Lit(7)])
  {
    hide Expression, ReadExpression;
    EmptyExpression();
    NoTokens();
    ExpressionPrepend(Lit(55), []);
    ExpressionPrepend(Lit(0), [Lit(55)]);
    assert [Lit(55)] + [] == [Lit(55)] && [Lit(0)] + [Lit(55)] == [Lit(0), Lit(55)];
    assert Expression([Lit(55)]) == [55] && [55][1..] == [];
    ReadZero([55], 1);
    assert [Lit(7)] + [] == [Lit(7)];
  }

  lemma {:induction false} EmptyExpression()
    ensures ReadExpression(Expression([])) == Some([])
  {}

  /** The octal digits behind a zero byte are literals of the pattern. */
  lemma {:induction false} DigitsOf(r: Pattern) returns (n: nat)
    ensures n <= |r| && n == Digits(Expression(r)) && Expression(r)[n..] == Expression(r[n..])
    ensures n == 0 <==> !ZeroThenDigit([Lit(0)] + r, 0)
  {
    hide Expression;
    n := Digits(Expression(r));
    FirstCharacter(r);
    if n > 0 {
      FirstCharacter(r[1..]);
      if n == 2 {
        assert Expression(r)[2..] == Expression(r)[1..][1..] && r[2..] == r[1..][1..];
      }
    } else {
      assert Expression(r)[0..] == Expression(r) && r[0..] == r;
    }
  }

  lemma {:induction false} ReadZero(e: Word, n: nat)
    requires n == Digits(e)
    ensures ReadExpression(TokenText(Lit(0)) + e) == Prepend(Lit(OctalValue(e, n)), ReadExpression(e[n..]))
  {
    var f := TokenText(Lit(0)) + e;
    assert f[2..] == e && f[2 + n..] == e[n..];
  }

  // ---------------------------------------------------------------- what an expression selects

  /** A dot stands for any character but a newline. */
  ghost predicate LineMatches(p: Pattern, s: Word) {
    if p == [] then s == []
    else
      var q := p[..|p| - 1];
      match p[|p| - 1]
      case Lit(c) => s != [] && s[|s| - 1] == c && LineMatches(q, s[..|s| - 1])
      case Wild => exists k :: 0 <= k <= |s| && LineMatches(q, s[..k]) && NEWLINE !in s[k..]
  }

  /** The matcher finds the expression somewhere in the record, at its start if there is a caret. */
  ghost predicate Selects(p: Pattern, s: Word) {
    exists i: nat, j: nat :: FoundAt(p, s, i, j)
  }

  ghost predicate FoundAt(p: Pattern, s: Word, i: nat, j: nat) {
    i <= j <= |s| && (StartsWild(p) || i == 0) && LineMatches(p, s[i..j])
  }

  lemma {:induction false} LineIsMatch(p: Pattern, s: Word)
    requires LineMatches(p, s)
    ensures Matches(p, s)
  {
    if p != [] {
      var q := p[..|p| - 1];
      if p[|p| - 1].Lit? {
        LineIsMatch(q, s[..|s| - 1]);
      } else {
        var k :| 0 <= k <= |s| && LineMatches(q, s[..k]) && NEWLINE !in s[k..];
        LineIsMatch(q, s[..k]);
      }
    }
  }

  lemma {:induction false} MatchIsLine(p: Pattern, s: Word)
    requires Matches(p, s) && NEWLINE !in s
    ensures LineMatches(p, s)
  {
    if p != [] {
      var q := p[..|p| - 1];
      if p[|p| - 1].Lit? {
        MatchIsLine(q, s[..|s| - 1]);
      } else {
        var k :| 0 <= k <= |s| && Matches(q, s[..k]);
        MatchIsLine(q, s[..k]);
        assert NEWLINE !in s[k..];
      }
    }
  }

  /** What a first wildcard matches may be longer. */
  lemma {:induction false} LongerFront(p: Pattern, x: Word, s: Word)
    requires StartsWild(p) && Matches(p, s)
    ensures Matches(p, x + s)
  {
    hide Matches;
    assert p[..|p|] == p;
    if |p| == 1 {
      MatchesWild(x + s);
      assert p == [Wild];
    } else {
      var k := MatchesPrefix(p, |p|, s);
      LongerFront(p[..|p| - 1], x, s[..k]);
      assert (x + s)[..|x| + k] == x + s[..k];
      if p[|p| - 1].Lit? {
        MatchesLit(p[..|p| - 1], p[|p| - 1].c, x + s);
        assert p == p[..|p| - 1] + [p[|p| - 1]];
      } else {
        LongerEnd(p, x + s, |x| + k);
      }
    }
  }

  lemma {:induction false} LongerEnd(p: Pattern, s: Word, k: nat)
    requires EndsWild(p) && k <= |s| && Matches(p[..|p| - 1], s[..k])
    ensures Matches(p, s)
  {}

  /** A record that the matcher selects is matched by the closed pattern, and a record without newlines that the pattern matches
      is selected. */
  lemma {:induction false} SelectsWhatMatches(p: Pattern, s: Word)
    ensures Selects(Closed(p), s) ==> Matches(Closed(p), s)
    ensures NEWLINE !in s ==> (Selects(Closed(p), s) <==> Matches(Closed(p), s))
  {
    hide Matches, LineMatches;
    var q := Closed(p);
    assert EndsWild(q);
    if Selects(q, s) {
      var i: nat, j: nat :| FoundAt(q, s, i, j);
      LineIsMatch(q, s[i..j]);
      assert q[..|q|] == q;
      var k := MatchesPrefix(q, |q|, s[i..j]);
      assert s[i..j][..k] == s[i..][..k];
      LongerEnd(q, s[i..], k);
      assert s == s[..i] + s[i..] && s[0..] == s;
      if StartsWild(q) { LongerFront(q, s[..i], s[i..]); }
    }
    if NEWLINE !in s && Matches(q, s) {
      MatchIsLine(q, s);
      assert s[0..|s|] == s;
      assert FoundAt(q, s, 0, |s|);
    }
  }

  /** The caret stands where the closed pattern begins with no wildcard. */
  lemma {:induction false} CaretOfPattern(s: Word, p: Pattern)
    requires s != [] && ParseFrom(s, 0) == Some(p)
    ensures Anchor(s[0]) == if StartsWild(Closed(p)) then [] else [CARET]
  {
    hide Render;
    assert s[0..] == s;
    StartOf(p);
    RenderOne(Wild);
    assert p != [];
    assert StartsWild(Closed(p)) <==> StartsWild(p);
  }
}
