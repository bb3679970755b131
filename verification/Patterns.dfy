/** Patterns of the trainer: literal bytes and wildcards, written as escaped strings. */
module Patterns {
  import opened Bytes

  const STAR: Byte := 42
  const BACKSLASH: Byte := 92

  datatype Token = Lit(c: Byte) | Wild

  type Pattern = seq<Token>

  predicate Escaped(t: Token) { t.Lit? && (t.c == STAR || t.c == BACKSLASH) }

  function RenderToken(t: Token): Word {
    if t.Wild? then [STAR] else if Escaped(t) then [BACKSLASH, t.c] else [t.c]
  }

  /** The string a pattern is stored as. */
  function Render(p: Pattern): Word {
    if p == [] then [] else Render(p[..|p| - 1]) + RenderToken(p[|p| - 1])
  }

  lemma {:induction false} RenderAppend(p: Pattern, t: Token)
    ensures Render(p + [t]) == Render(p) + RenderToken(t)
  {
    assert (p + [t])[..|p|] == p;
  }

  lemma {:induction false} RenderOne(t: Token)
    ensures Render([t]) == RenderToken(t) && Render([]) == []
  {
    RenderAppend([], t);
    assert [] + [t] == [t];
  }

  lemma {:induction false} RenderPrepend(t: Token, p: Pattern)
    ensures Render([t] + p) == RenderToken(t) + Render(p)
  {
    hide Render, RenderToken;
    RenderOne(t);
    if p == [] {
      assert [t] + p == [t];
    } else {
      var q, u := p[..|p| - 1], p[|p| - 1];
      assert p == q + [u] && [t] + p == ([t] + q) + [u];
      RenderPrepend(t, q);
      RenderAppend([t] + q, u);
      RenderAppend(q, u);
      Regroup(RenderToken(t), Render(q), RenderToken(u));
    }
  }

  ghost predicate NoAdjacentWilds(p: Pattern) {
    forall i :: 0 <= i < |p| - 1 ==> !(p[i].Wild? && p[i + 1].Wild?)
  }

  /** A wildcard stands for any string, the empty one included. */
  ghost predicate Matches(p: Pattern, s: Word) {
    if p == [] then s == []
    else
      var q := p[..|p| - 1];
      match p[|p| - 1]
      case Lit(c) => s != [] && s[|s| - 1] == c && Matches(q, s[..|s| - 1])
      case Wild => exists k :: 0 <= k <= |s| && Matches(q, s[..k])
  }

  function Lits(p: Pattern): nat {
    if p == [] then 0 else Lits(p[..|p| - 1]) + if p[|p| - 1].Lit? then 1 else 0
  }

  function Wilds(p: Pattern): nat {
    if p == [] then 0 else Wilds(p[..|p| - 1]) + if p[|p| - 1].Wild? then 1 else 0
  }

  /** How often a byte occurs as a literal. */
  function Count(p: Pattern, c: nat): nat {
    if p == [] then 0 else Count(p[..|p| - 1], c) + if p[|p| - 1].Lit? && p[|p| - 1].c == c then 1 else 0
  }

  // ---------------------------------------------------------------- raw records

  /** A record is a pattern without wildcards. */
  function Raw(s: Word): (p: Pattern)
    ensures |p| == |s|
  {
    seq(|s|, i requires 0 <= i < |s| => Lit(s[i]))
  }

  /** One character, escaped if need be. */
  method PutEscaped(r: array<Byte>, len: nat, c: Byte) returns (len': nat)
    requires len + 2 <= r.Length
    modifies r
    ensures len' <= len + 2 && r[..len'] == old(r[..len]) + RenderToken(Lit(c))
  {
    len' := len;
    if c == STAR || c == BACKSLASH {
      r[len'] := BACKSLASH;
      len' := len' + 1;
    }
    r[len'] := c;
    len' := len' + 1;
  }

  /** AddEscapeChar: the stored form of a record. */
  method AddEscapeChar(s: Word) returns (r: array<Byte>, len: nat)
    ensures r.Length == 3 * |s| && len <= r.Length && r[..len] == Render(Raw(s))
  {
    hide Render, RenderToken;
    r := new Byte[3 * |s|];
    len := 0;
    var i: nat := 0;
    RenderNothing(Raw(s));
    while i < |s|
      invariant i <= |s| && len <= 2 * i
      invariant r[..len] == Render(Raw(s)[..i])
    {
      assert Raw(s)[..i + 1] == Raw(s)[..i] + [Lit(s[i])];
      RenderAppend(Raw(s)[..i], Lit(s[i]));
      len := PutEscaped(r, len, s[i]);
      i := i + 1;
    }
    assert Raw(s)[..i] == Raw(s);
  }

  lemma {:induction false} RenderNothing(p: Pattern)
    ensures Render(p[..0]) == []
  {}

  /** A record's pattern matches the record and nothing else. */
  lemma {:induction false} RawMatches(s: Word, t: Word)
    ensures Matches(Raw(s), t) <==> s == t
    decreases |s|
  {
    if s != [] {
      var q := s[..|s| - 1];
      assert Raw(s)[..|s| - 1] == Raw(q);
      if t != [] {
        RawMatches(q, t[..|t| - 1]);
        assert s == q + [s[|s| - 1]] && t == t[..|t| - 1] + [t[|t| - 1]];
      }
    }
  }
}
