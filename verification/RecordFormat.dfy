/** How a record is cut along the literal segments of a pattern, and the bytes that store the gaps. */
module RecordFormat {
  import opened Bytes
  import opened Patterns
  import opened PatternMerge
  import opened Varint

  // ---------------------------------------------------------------- segments

  /** The literal text between wildcards. */
  function Segments(p: Pattern): (segs: seq<Word>)
    ensures |segs| == Wilds(p) + 1
  {
    if p == [] then [[]]
    else
      var segs, t := Segments(p[..|p| - 1]), p[|p| - 1];
      if t.Wild? then segs + [[]] else segs[..|segs| - 1] + [segs[|segs| - 1] + [t.c]]
  }

  /** A parsed pattern always ends in a wildcard. */
  function Closed(p: Pattern): (q: Pattern)
    ensures EndsWild(q)
  {
    AddWild(p)
  }

  /** The record with the given gaps, one between any two segments. */
  function Interleave(segs: seq<Word>, gaps: seq<Word>): Word
    requires |segs| == |gaps| + 1
  {
    if gaps == [] then segs[0]
    else Interleave(segs[..|gaps|], gaps[..|gaps| - 1]) + gaps[|gaps| - 1] + segs[|gaps|]
  }

  lemma {:induction false} InterleaveAppend(segs: seq<Word>, gaps: seq<Word>, gap: Word, seg: Word)
    requires |segs| == |gaps| + 1
    ensures Interleave(segs + [seg], gaps + [gap]) == Interleave(segs, gaps) + gap + seg
  {
    assert (segs + [seg])[..|gaps| + 1] == segs && (gaps + [gap])[..|gaps|] == gaps;
  }

  lemma {:induction false} InterleaveLast(segs: seq<Word>, gaps: seq<Word>, c: Byte)
    requires |segs| == |gaps| + 1
    ensures Interleave(segs[..|gaps|] + [segs[|gaps|] + [c]], gaps) == Interleave(segs, gaps) + [c]
  {
    var segs' := segs[..|gaps|] + [segs[|gaps|] + [c]];
    assert segs'[..|gaps|] == segs[..|gaps|];
    if gaps != [] {
      var front := Interleave(segs[..|gaps|], gaps[..|gaps| - 1]) + gaps[|gaps| - 1];
      Regroup(front, segs[|gaps|], [c]);
    }
  }

  /** A pattern matches exactly the strings that its segments interleave to. */
  lemma {:induction false} MatchHasGaps(p: Pattern, s: Word) returns (gaps: seq<Word>)
    requires Matches(p, s)
    ensures |gaps| == Wilds(p) && Interleave(Segments(p), gaps) == s
  {
    hide Interleave;
    if p == [] {
      gaps := [];
      NoGaps(Segments(p));
    } else {
      var q, t := p[..|p| - 1], p[|p| - 1];
      if t.Wild? {
        var k :| 0 <= k <= |s| && Matches(q, s[..k]);
        var front := MatchHasGaps(q, s[..k]);
        gaps := front + [s[k..]];
        InterleaveAppend(Segments(q), front, s[k..], []);
        assert s == s[..k] + s[k..] + [];
      } else {
        gaps := MatchHasGaps(q, s[..|s| - 1]);
        InterleaveLast(Segments(q), gaps, t.c);
        assert s == s[..|s| - 1] + [t.c];
      }
    }
  }

  lemma {:induction false} NoGaps(segs: seq<Word>)
    requires |segs| == 1
    ensures Interleave(segs, []) == segs[0]
  {}

  lemma {:induction false} GapsMatch(p: Pattern, gaps: seq<Word>)
    requires |gaps| == Wilds(p)
    ensures Matches(p, Interleave(Segments(p), gaps))
  {
    hide Interleave;
    if p == [] {
      NoGaps(Segments(p));
      assert gaps == [];
    } else {
      var q, t := p[..|p| - 1], p[|p| - 1];
      if t.Wild? {
        var front, gap := gaps[..|gaps| - 1], gaps[|gaps| - 1];
        GapsMatch(q, front);
        InterleaveAppend(Segments(q), front, gap, []);
        var s := Interleave(Segments(q), front);
        assert gaps == front + [gap];
        assert (s + gap + [])[..|s|] == s;
      } else {
        GapsMatch(q, gaps);
        InterleaveLast(Segments(q), gaps, t.c);
        var s := Interleave(Segments(q), gaps);
        assert (s + [t.c])[..|s|] == s;
      }
    }
  }

  // ---------------------------------------------------------------- leftmost search

  /** Leftmost occurrence from `start` on, or -1. */
  function Find(s: Word, w: Word, start: nat): (r: int)
    ensures r == -1 || start <= r <= |s| - |w|
    ensures r >= 0 ==> s[r..r + |w|] == w
    decreases |s| - start
  {
    if start + |w| > |s| then -1
    else if s[start..start + |w|] == w then start
    else Find(s, w, start + 1)
  }

  lemma {:induction false} FindIsLeftmost(s: Word, w: Word, start: nat, r: nat)
    requires start <= r && r + |w| <= |s| && s[r..r + |w|] == w
    ensures 0 <= Find(s, w, start) <= r
    decreases |s| - start
  {
    if start < r { FindIsLeftmost(s, w, start + 1, r); }
  }

  /** Where segment `k` ends in a record with the given gaps. */
  function EndOf(segs: seq<Word>, gaps: seq<Word>, k: nat): nat
    requires |segs| == |gaps| + 1 && k < |segs|
  {
    |Interleave(segs[..k + 1], gaps[..k])|
  }

  lemma {:induction false} EndStep(segs: seq<Word>, gaps: seq<Word>, k: nat)
    requires |segs| == |gaps| + 1 && k < |gaps|
    ensures Interleave(segs[..k + 2], gaps[..k + 1]) == Interleave(segs[..k + 1], gaps[..k]) + gaps[k] + segs[k + 1]
    ensures EndOf(segs, gaps, k + 1) == EndOf(segs, gaps, k) + |gaps[k]| + |segs[k + 1]|
  {
    assert segs[..k + 2] == segs[..k + 1] + [segs[k + 1]] && gaps[..k + 1] == gaps[..k] + [gaps[k]];
    InterleaveAppend(segs[..k + 1], gaps[..k], gaps[k], segs[k + 1]);
  }

  lemma {:induction false} PrefixOfRecord(segs: seq<Word>, gaps: seq<Word>, k: nat)
    requires |segs| == |gaps| + 1 && k < |segs|
    ensures Interleave(segs[..k + 1], gaps[..k]) <= Interleave(segs, gaps)
    decreases |segs| - k
  {
    if k == |gaps| {
      assert segs[..k + 1] == segs && gaps[..k] == gaps;
    } else {
      EndStep(segs, gaps, k);
      PrefixOfRecord(segs, gaps, k + 1);
    }
  }

  /** Segment `k` stands where it ends. */
  lemma {:induction false} SegmentThere(segs: seq<Word>, gaps: seq<Word>, s: Word, k: nat)
    requires |segs| == |gaps| + 1 && k < |segs| && s == Interleave(segs, gaps)
    ensures var e := EndOf(segs, gaps, k); |segs[k]| <= e <= |s| && s[e - |segs[k]|..e] == segs[k]
    ensures k == 0 ==> EndOf(segs, gaps, k) == |segs[0]|
    ensures k > 0 ==> EndOf(segs, gaps, k - 1) + |segs[k]| <= EndOf(segs, gaps, k)
  {
    hide Interleave;
    PrefixOfRecord(segs, gaps, k);
    if k == 0 {
      assert gaps[..0] == [];
      NoGaps(segs[..1]);
    } else {
      EndStep(segs, gaps, k - 1);
    }
  }

  /** A search that is not behind the given record's segments finds the next segment, and not behind
      where the record has it. */
  lemma {:induction false} SearchSucceeds(segs: seq<Word>, gaps: seq<Word>, s: Word, k: nat, start: nat)
    requires |segs| == |gaps| + 1 && k < |segs| && s == Interleave(segs, gaps)
    requires if k == 0 then start == 0 else start <= EndOf(segs, gaps, k - 1)
    ensures 0 <= Find(s, segs[k], start) && Find(s, segs[k], start) + |segs[k]| <= EndOf(segs, gaps, k) <= |s|
    ensures k == 0 ==> Find(s, segs[k], start) == 0
  {
    hide Interleave, EndOf;
    SegmentThere(segs, gaps, s, k);
    FindIsLeftmost(s, segs[k], start, EndOf(segs, gaps, k) - |segs[k]|);
  }

  // ---------------------------------------------------------------- stored gaps

  /** A gap as it is stored: its length, then its bytes. */
  function Field(gap: Word): Word { VarintBytes(|gap|) + gap }

  function Fields(gaps: seq<Word>): Word {
    if gaps == [] then [] else Fields(gaps[..|gaps| - 1]) + Field(gaps[|gaps| - 1])
  }

  lemma {:induction false} FieldsAppend(gaps: seq<Word>, gap: Word)
    ensures Fields(gaps + [gap]) == Fields(gaps) + Field(gap)
  {
    assert (gaps + [gap])[..|gaps|] == gaps;
  }

  const LIMIT: nat := 0x20_0000

  lemma {:induction false} ShortVarint(v: nat)
    requires v < LIMIT
    ensures |VarintBytes(v)| <= 3 && Storable(v)
  {
    VarintParts(v);
  }

  /** All lengths are ones that a variable-length integer brings back. */
  ghost predicate AllStorable(gaps: seq<Word>) { forall i :: 0 <= i < |gaps| ==> |gaps[i]| < WORD && Storable(|gaps[i]|) }

  lemma {:induction false} GapSizes(segs: seq<Word>, gaps: seq<Word>)
    requires |segs| == |gaps| + 1
    ensures forall i :: 0 <= i < |gaps| ==> |gaps[i]| <= |Interleave(segs, gaps)|
    decreases |gaps|
  {
    if gaps != [] { GapSizes(segs[..|gaps|], gaps[..|gaps| - 1]); }
  }

  /** As are those below 2^21. */
  lemma {:induction false} ShortAreStorable(gaps: seq<Word>)
    requires forall i :: 0 <= i < |gaps| ==> |gaps[i]| < LIMIT
    ensures AllStorable(gaps)
  {
    forall i | 0 <= i < |gaps| ensures Storable(|gaps[i]|) { ShortVarint(|gaps[i]|); }
  }

  /** No two wildcards meet, so no segment between two others is empty. */
  ghost predicate InteriorFull(segs: seq<Word>) { forall k :: 0 < k < |segs| - 1 ==> segs[k] != [] }

  lemma {:induction false} LastSegmentEmpty(p: Pattern)
    ensures Segments(p)[|Segments(p)| - 1] == [] <==> p == [] || EndsWild(p)
  {}

  lemma {:induction false} ApartMeansFull(p: Pattern)
    requires NoAdjacentWilds(p)
    ensures InteriorFull(Segments(p))
  {
    if p != [] {
      ApartMeansFull(p[..|p| - 1]);
      LastSegmentEmpty(p[..|p| - 1]);
    }
  }

  /** A pattern without adjacent wildcards, as every merge yields, can store all records it matches: its
      interior segments are not empty, and the records have gaps to store. */
  lemma {:induction false} MergedIsEncodable(p: Pattern, s: Word) returns (gaps: seq<Word>)
    requires NoAdjacentWilds(p) && Matches(Closed(p), s)
    ensures InteriorFull(Segments(Closed(p))) && |gaps| + 1 == |Segments(Closed(p))| >= 2 && Interleave(Segments(Closed(p)), gaps) == s
  {
    hide Matches, Interleave;
    WildsApart(p, Wild);
    ApartMeansFull(Closed(p));
    gaps := MatchHasGaps(Closed(p), s);
    assert Wilds(Closed(p)) >= 1;
  }
}
