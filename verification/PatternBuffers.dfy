/** Whether the string of a merged pattern fits the buffer of the cluster it is stored in, which was made for a record: three
    bytes for each of its characters. */
module PatternBuffers {
  import opened Bytes
  import opened Patterns
  import opened PatternMerge
  import opened PatternTrace
  import opened Clusters
  import opened TrainerCost
  import opened Training
  import Agglomeration

  /** A pattern's string: its literals, their escapes and its wildcards. */
  lemma {:induction false} RenderSize(p: Pattern)
    ensures |Render(p)| == Lits(p) + EscapedCount(p, |p|) + Wilds(p)
  {
    if p != [] {
      var q := p[..|p| - 1];
      RenderSize(q);
      SameEscapes(p, q, |q|);
    }
  }

  lemma {:induction false} SameEscapes(p: Pattern, q: Pattern, k: nat)
    requires k <= |p| && k <= |q| && p[..k] == q[..k]
    ensures EscapedCount(p, k) == EscapedCount(q, k)
  {
    if k > 0 {
      assert p[..k - 1] == p[..k][..k - 1] == q[..k][..k - 1] == q[..k - 1] && p[k - 1] == p[..k][k - 1] == q[..k][k - 1] == q[k - 1];
      SameEscapes(p, q, k - 1);
    }
  }

  /** Backslashes and stars are escaped. */
  lemma {:induction false} EscapesCounted(p: Pattern, k: nat)
    requires k <= |p|
    ensures EscapedCount(p, k) == Count(p[..k], BACKSLASH) + Count(p[..k], STAR)
  {
    hide Count;
    CountTaken(p, k, BACKSLASH);
    CountTaken(p, k, STAR);
    if k > 0 { EscapesCounted(p, k - 1); }
  }

  /** A pattern has no byte more often than the strings it matches. */
  lemma {:induction false} BytesOfMatch(p: Pattern, s: Word, c: nat)
    requires Matches(p, s)
    ensures Count(p, c) <= Count(Raw(s), c)
  {
    hide Matches, Count;
    CountTaken(p, |p|, c);
    assert p[..|p|] == p;
    if p != [] {
      var k := MatchesPrefix(p, |p|, s);
      BytesOfMatch(p[..|p| - 1], s[..k], c);
      BytesOfFront(s, k, c);
    }
  }

  lemma {:induction false} BytesOfFront(s: Word, k: nat, c: nat)
    requires k <= |s|
    ensures Count(Raw(s[..k]), c) + (if k < |s| && s[|s| - 1] == c then 1 else 0) <= Count(Raw(s), c)
    decreases |s| - k
  {
    hide Count;
    if k < |s| {
      CountTaken(Raw(s[..k + 1]), k + 1, c);
      assert Raw(s[..k + 1])[..k] == Raw(s[..k]) && Raw(s[..k + 1])[..k + 1] == Raw(s[..k + 1]);
      BytesOfFront(s, k + 1, c);
      if k + 1 == |s| { assert s[..k + 1] == s; }
    } else {
      assert s[..k] == s;
    }
  }

  /** The end of the string, and the zero behind it, lie in the buffer. */
  predicate Fits(p: Pattern, record: Word) { |Render(p)| < 3 * |record| }

  /** A pattern of a record does not fit if and only if it keeps all of the record's characters and has almost twice as many
      escapes and wildcards; it passes the end by at most two bytes. */
  lemma {:induction false} FitsExactly(records: seq<Word>, p: Pattern, i: nat)
    requires FitsRecord(records, p, i)
    ensures
      var n := |records[i]|;
      && (Fits(p, records[i]) <==> !(Lits(p) == n && EscapedCount(p, |p|) + Wilds(p) >= 2 * n))
      && |Render(p)| + 1 <= 3 * n + 2
  {
    hide Matches, Lits, Wilds, Render, EscapedCount;
    RenderSize(p);
    PatternAtMost(p, records[i]);
    EscapesAtMost(p, |p|);
    assert p[..|p|] == p;
  }

  lemma {:induction false} EscapesAtMost(p: Pattern, k: nat)
    requires k <= |p|
    ensures EscapedCount(p, k) <= Lits(p[..k])
  {
    if k > 0 {
      EscapesAtMost(p, k - 1);
      Taken(p, k);
    } else {
      assert p[..0] == [];
    }
  }

  predicate TwoPlain(record: Word) { Count(Raw(record), BACKSLASH) + Count(Raw(record), STAR) + 2 <= |record| }

  /** So a record with two characters that are neither backslashes nor stars has room for all of its patterns. */
  lemma {:induction false} TwoPlainSuffice(records: seq<Word>, p: Pattern, i: nat)
    requires FitsRecord(records, p, i) && TwoPlain(records[i])
    ensures Fits(p, records[i])
  {
    hide Matches, Lits, Wilds, Render, EscapedCount, Count;
    FitsExactly(records, p, i);
    PatternAtMost(p, records[i]);
    EscapesCounted(p, |p|);
    assert p[..|p|] == p;
    BytesOfMatch(p, records[i], BACKSLASH);
    BytesOfMatch(p, records[i], STAR);
  }

  /** In every state of the merge loop the patterns of the live clusters then fit where they are stored. */
  lemma {:induction false} BuffersSuffice(records: seq<Word>, s: Agglomeration.State<Info>, i: nat)
    requires Agglomeration.Kept(Fitting(records), s) && i < |s.ids| && s.ids[i] == i && |s.ids| == |records|
    requires TwoPlain(records[i])
    ensures Fits(s.patterns[i].pattern, records[i])
  {
    hide FitsRecord, TwoPlain;
    LiveIsRoot(s.ids, i);
    assert InfoFits(records, s.patterns[Root(s.ids, i)], i);
    TwoPlainSuffice(records, s.patterns[i].pattern, i);
  }

  /** The record of one backslash has not: merged with the record of a backslash and a b it makes a string of three characters. */
  lemma {:induction false} BackslashDoesNotFit()
    ensures !Fits(MergePatterns(Raw([BACKSLASH]), 1, Raw([BACKSLASH, 98]), 1), [BACKSLASH])
  {
    hide Clashes, Merged, MergePatterns, MergeString, Render;
    var a, b := Raw([BACKSLASH]), Raw([BACKSLASH, 98]);
    BackslashMerge(a, b);
    MergePatternsIsStored(a, 1, b, 1);
    RenderOne(Lit(BACKSLASH));
    RenderAppend([Lit(BACKSLASH)], Wild);
  }

  lemma {:induction false} BackslashMerge(a: Pattern, b: Pattern)
    requires a == [Lit(BACKSLASH)] && b == [Lit(BACKSLASH), Lit(98)]
    ensures Merged(a, b, 1, 1, 1, 2) == [Lit(BACKSLASH)] + [Wild]
  {
    assert Border(a, 0, 1, 1) == Border(b, 0, 1, 1) == Cell(true, 0, Esc) && Border(a, 1, 1, 1) == Cell(true, 3, Esc);
    assert Border(b, 1, 1, 1) == Cell(true, 3, Esc) && Border(b, 2, 1, 1) == Cell(false, 6, Esc);
    assert Entry(a, b, 1, 1, 1, 1) == Cell(true, 0, UpperLeft);
    assert Entry(a, b, 1, 1, 1, 2) == Cell(false, 3, UpPos);
    assert Merged(a, b, 1, 1, 0, 0) == [];
    assert Merged(a, b, 1, 1, 1, 1) == [] + [Lit(BACKSLASH)] == [Lit(BACKSLASH)];
  }
}
