/** Storing a record as the gaps between a pattern's segments, and restoring it. */
module RecordCodec {
  import opened Bytes
  import opened Varint
  import opened RecordFormat

  const NEWLINE: Byte := 10

  /** patternInfo: `num` segments, cut out of `data` at the positions `pos`. */
  datatype PatternInfo = PatternInfo(num: nat, pos: seq<nat>, data: Word)

  ghost predicate InfoOf(info: PatternInfo, segs: seq<Word>) {
    && info.num == |segs| && |info.pos| == info.num + 1 && info.pos[0] == 0 && info.pos[info.num] == |info.data|
    && forall k :: 0 <= k < info.num ==> SegmentAt(info, k, segs[k])
  }

  ghost predicate SegmentAt(info: PatternInfo, k: nat, seg: Word)
    requires k + 1 < |info.pos|
  {
    info.pos[k] <= info.pos[k + 1] <= |info.data| && info.data[info.pos[k]..info.pos[k + 1]] == seg
  }

  // ---------------------------------------------------------------- encoding

  /** std::string::find, for a search that starts within the text. */
  method FindMethod(s: Word, w: Word, start: nat) returns (r: int)
    requires start <= |s|
    ensures r == Find(s, w, start)
  {
    var i: nat := start;
    while i + |w| <= |s| && s[i..i + |w|] != w
      invariant start <= i && Find(s, w, i) == Find(s, w, start)
      decreases |s| - i
    {
      i := i + 1;
    }
    r := if i + |w| <= |s| then i else -1;
  }

  method PutText(src: Word, from: nat, size: nat, out: array<Byte>, pos: nat)
    requires from + size <= |src| && pos + size <= out.Length
    modifies out
    ensures out[..pos + size] == old(out[..pos]) + src[from..from + size]
  {
    forall i | 0 <= i < size { out[pos + i] := src[from + i]; }
  }

  /** The bytes a length may take. */
  function LengthBytes(size: nat): nat { if size < LIMIT then 3 else 5 }

  lemma {:induction false} LengthBytesSuffice(size: nat, v: nat)
    requires v <= size < WORD
    ensures |VarintBytes(v)| <= LengthBytes(size)
  {
    VarintParts(v);
  }

  /** Appends one stored gap; the code writes a lone zero for an empty one. */
  method PutGap(s: Word, from: nat, to: nat, out: array<Byte>, len: nat) returns (len': nat)
    requires from <= to <= |s| < 0x8000_0000 && len + LengthBytes(|s|) + (to - from) <= out.Length
    modifies out
    ensures len' <= len + LengthBytes(|s|) + (to - from) && out[..len'] == old(out[..len]) + Field(s[from..to])
  {
    hide VarintBytes, VarintTail;
    LengthBytesSuffice(|s|, to - from);
    VarintParts(to - from);
    if to == from {
      out[len] := 0;
      len' := len + 1;
      assert Field(s[from..to]) == [0];
    } else {
      len' := WriteVarint(to - from, out, len);
      PutText(s, from, to - from, out, len');
      Regroup(old(out[..len]), VarintBytes(to - from), s[from..to]);
      len' := len' + (to - from);
    }
  }

  /** The first `k` segments have been found and the gaps between them stored. */
  ghost predicate Cutting(segs: seq<Word>, s: Word, k: nat, start: nat, gaps: seq<Word>) {
    && k <= |segs| && start <= |s|
    && (if k == 0 then gaps == [] && start == 0 else |gaps| == k - 1 && Interleave(segs[..k], gaps) == s[..start])
  }

  lemma {:induction false} CuttingStep(segs: seq<Word>, s: Word, k: nat, start: nat, gaps: seq<Word>, match_: nat)
    requires Cutting(segs, s, k, start, gaps) && k < |segs|
    requires start <= match_ <= match_ + |segs[k]| <= |s| && s[match_..match_ + |segs[k]|] == segs[k]
    requires k == 0 ==> match_ == 0
    ensures Cutting(segs, s, k + 1, match_ + |segs[k]|, if k == 0 then [] else gaps + [s[start..match_]])
  {
    hide Interleave;
    var seg := segs[k];
    if k == 0 {
      NoGaps(segs[..1]);
    } else {
      assert segs[..k + 1] == segs[..k] + [seg];
      InterleaveAppend(segs[..k], gaps, s[start..match_], seg);
      assert s[..start] + s[start..match_] + s[match_..match_ + |seg|] == s[..match_ + |seg|];
    }
  }

  /** The gaps that the leftmost search leaves, from segment `k` on. A first segment that is not found at once is preceded by a
      gap too. The last segment of a parsed pattern is empty. */
  function Cut(segs: seq<Word>, s: Word, k: nat, start: nat): Option<seq<Word>>
    requires k < |segs| && start <= |s|
    decreases |segs| - k
  {
    if k == |segs| - 1 then Some([s[start..]])
    else if segs[k] == [] then if k != 0 then None else Cut(segs, s, 1, start)
    else
      var at := Find(s, segs[k], start);
      if at < 0 then None else Behind(if k == 0 && at == start then [] else [s[start..at]], Cut(segs, s, k + 1, at + |segs[k]|))
  }

  function Behind(front: seq<Word>, cut: Option<seq<Word>>): Option<seq<Word>> {
    match cut
    case None => None
    case Some(gaps) => Some(front + gaps)
  }

  lemma {:induction false} BehindBoth(front: seq<Word>, next: seq<Word>, cut: Option<seq<Word>>)
    ensures Behind(front, Behind(next, cut)) == Behind(front + next, cut)
  {
    if cut.Some? { assert front + (next + cut.value) == (front + next) + cut.value; }
  }

  /** Finds the next segment and stores the gap before it; before the first segment there is none. */
  method StoreSegment(seg: Word, s: Word, num: nat, start: nat, out: array<Byte>, pos: nat,
                      ghost segs: seq<Word>, ghost done: seq<Word>, ghost head: Word)
    returns (found: bool, start': nat, pos': nat, ghost done': seq<Word>)
    requires |s| < 0x8000_0000 && num < |segs| - 1 && seg == segs[num] != [] && start <= |s|
    requires pos + LengthBytes(|s|) + (|s| - start) < out.Length && out[..pos] == head + Fields(done)
    modifies out
    ensures !found ==> Cut(segs, s, num, start).None?
    ensures found ==>
      && start <= start' <= |s| && pos' <= pos + LengthBytes(|s|) + (start' - start) && pos' <= out.Length
      && out[..pos'] == head + Fields(done')
      && Behind(done, Cut(segs, s, num, start)) == Behind(done', Cut(segs, s, num + 1, start'))
  {
    hide Fields, Field, Find, LengthBytes;
    var matchPos := FindMethod(s, seg, start);
    start', pos', done', found := start, pos, done, true;
    if matchPos == -1 { return false, start', pos', done'; }
    if matchPos == start {
      if num > 0 {
        pos' := PutGap(s, start, start, out, pos);
      }
    } else {
      pos' := PutGap(s, start, matchPos, out, pos);
    }
    ghost var gap := if num == 0 && matchPos == start then [] else [s[start..matchPos]];
    if gap != [] {
      FieldsAppend(done, s[start..matchPos]);
      Regroup(head, Fields(done), Field(s[start..matchPos]));
    } else {
      assert done + gap == done;
    }
    done' := done + gap;
    BehindBoth(done, gap, Cut(segs, s, num + 1, matchPos + |seg|));
    start' := matchPos + |seg|;
  }

  /** FillingSubsequences: refuses the record if the leftmost search does not find a segment, or the pattern if an inner segment
      is empty; otherwise it stores the gaps the search leaves. */
  method FillingSubsequences(info: PatternInfo, s: Word, out: array<Byte>, base: nat, ghost segs: seq<Word>) returns (len: int)
    requires InfoOf(info, segs) && |segs| >= 2 && segs[|segs| - 1] == [] && |s| < 0x8000_0000
    requires base + 2 + |s| + LengthBytes(|s|) * info.num < out.Length
    modifies out
    ensures len < 0 <==> Cut(segs, s, 0, 0).None?
    ensures len >= 0 ==> base + len < out.Length && out[base + len] == 0
    ensures len >= 0 ==> out[..base + len] == old(out[..base + 2]) + Fields(Cut(segs, s, 0, 0).value)
  {
    hide Fields, Field, Cut;
    ghost var head := out[..base + 2];
    var pos: nat, start: nat, num: nat := base + 2, 0, 0;
    ghost var done: seq<Word> := [];
    Nothing(segs, s);
    while num < info.num
      invariant num <= info.num && start <= |s|
      invariant base + 2 <= pos <= base + 2 + start + LengthBytes(|s|) * num
      invariant num < info.num ==> Cut(segs, s, 0, 0) == Behind(done, Cut(segs, s, num, start))
      invariant num == info.num ==> Cut(segs, s, 0, 0) == Behind(done, Cut(segs, s, num - 1, start)) && pos <= base + 2 + start + LengthBytes(|s|) * (num - 1)
      invariant out[..pos] == head + Fields(done)
    {
      assert SegmentAt(info, num, segs[num]);
      OneMore(LengthBytes(|s|), num);
      var length := info.pos[num + 1] - info.pos[num];
      if length == 0 {
        EmptySegment(segs, s, num, start);
        if num != 0 && num != info.num - 1 { return -1; }
      } else {
        OneMore(LengthBytes(|s|), info.num - 1);
        TimesGrow(LengthBytes(|s|), num, info.num - 1);
        var found;
        found, start, pos, done := StoreSegment(info.data[info.pos[num]..info.pos[num + 1]], s, num, start, out, pos, segs, done, head);
        if !found { return -1; }
      }
      num := num + 1;
    }
    OneMore(LengthBytes(|s|), info.num - 1);
    EmptySegment(segs, s, num - 1, start);
    pos := StoreRest(s, start, out, pos, done, head);
    out[pos] := 0;
    len := pos - base;
  }

  lemma {:induction false} Nothing(segs: seq<Word>, s: Word)
    requires segs != []
    ensures Cut(segs, s, 0, 0) == Behind([], Cut(segs, s, 0, 0)) && Fields([]) == []
  {
    hide Cut;
    var cut := Cut(segs, s, 0, 0);
    if cut.Some? { assert [] + cut.value == cut.value; }
  }

  lemma {:induction false} OneMore(n: nat, k: int)
    ensures n * (k + 1) == n * k + n
  {}

  lemma {:induction false} TimesGrow(n: nat, k: nat, l: nat)
    requires k <= l
    ensures n * k <= n * l
  {}

  lemma {:induction false} EmptySegment(segs: seq<Word>, s: Word, k: nat, start: nat)
    requires k < |segs| && start <= |s| && segs[k] == []
    ensures Cut(segs, s, k, start) ==
      if k == |segs| - 1 then Some([s[start..]]) else if k == 0 then Cut(segs, s, 1, start) else None
  {}

  /** The last gap reaches to the end of the record. */
  method StoreRest(s: Word, start: nat, out: array<Byte>, pos: nat, ghost done: seq<Word>, ghost head: Word) returns (pos': nat)
    requires start <= |s| < 0x8000_0000
    requires pos + LengthBytes(|s|) + (|s| - start) < out.Length && out[..pos] == head + Fields(done)
    modifies out
    ensures pos' < out.Length && out[..pos'] == head + Fields(done + [s[start..]])
  {
    hide Fields, Field, LengthBytes;
    pos' := PutGap(s, start, |s|, out, pos);
    FieldsAppend(done, s[start..]);
    Regroup(head, Fields(done), Field(s[start..]));
    assert s[start..|s|] == s[start..];
  }

  // ---------------------------------------------------------------- what the stored gaps are

  /** A record that is the segments with some gaps between them. */
  ghost predicate Along(segs: seq<Word>, s: Word) { exists gaps: seq<Word> :: GapsOf(segs, gaps, s) }

  ghost predicate GapsOf(segs: seq<Word>, gaps: seq<Word>, s: Word) { |gaps| + 1 == |segs| && Interleave(segs, gaps) == s }

  /** The gaps found behind those of the first `k` segments complete the record. */
  lemma {:induction false} CutCompletes(segs: seq<Word>, s: Word, k: nat, start: nat, gaps: seq<Word>)
    requires |segs| >= 2 && segs[|segs| - 1] == [] && k < |segs| && Cutting(segs, s, k, start, gaps) && Cut(segs, s, k, start).Some?
    requires k == 0 ==> segs[0] == [] || Find(s, segs[0], 0) == 0
    ensures GapsOf(segs, gaps + Cut(segs, s, k, start).value, s)
    decreases |segs| - k
  {
    hide Interleave, Find;
    CuttingRange(segs, s, k, start, gaps);
    if k == |segs| - 1 {
      assert segs == segs[..k] + [[]];
      InterleaveAppend(segs[..k], gaps, s[start..], []);
      hide Cutting;
      assert s[..start] + s[start..] + [] == s by { assert s[..start] + s[start..] == s; }
      CuttingText(segs, s, k, start, gaps);
    } else if segs[k] == [] {
      CuttingStep(segs, s, 0, 0, gaps, 0);
      CutCompletes(segs, s, 1, 0, []);
      assert [] + Cut(segs, s, 1, 0).value == gaps + Cut(segs, s, 0, 0).value;
    } else {
      var at := Find(s, segs[k], start);
      FindFinds(s, segs[k], start);
      CuttingStep(segs, s, k, start, gaps, at);
      var next := if k == 0 then [] else gaps + [s[start..at]];
      CutCompletes(segs, s, k + 1, at + |segs[k]|, next);
      assert gaps + Cut(segs, s, k, start).value == next + Cut(segs, s, k + 1, at + |segs[k]|).value;
    }
  }

  lemma {:induction false} CuttingText(segs: seq<Word>, s: Word, k: nat, start: nat, gaps: seq<Word>)
    requires Cutting(segs, s, k, start, gaps) && k > 0
    ensures |gaps| + 1 == k && Interleave(segs[..k], gaps) == s[..start]
  {}

  lemma {:induction false} FindFinds(s: Word, w: Word, start: nat)
    requires Find(s, w, start) >= 0
    ensures start <= Find(s, w, start) <= |s| - |w| && s[Find(s, w, start)..Find(s, w, start) + |w|] == w
  {}

  /** Along its segments a record is cut, if no inner segment is empty. */
  lemma {:induction false} CutSucceeds(segs: seq<Word>, given: seq<Word>, s: Word, k: nat, start: nat)
    requires |segs| >= 2 && segs[|segs| - 1] == [] && GapsOf(segs, given, s) && k < |segs| && start <= |s|
    requires if k == 0 then start == 0 else start <= EndOf(segs, given, k - 1)
    ensures Cut(segs, s, k, start).Some? <==> forall i :: k <= i < |segs| - 1 && i > 0 ==> segs[i] != []
    ensures k == 0 ==> segs[0] == [] || Find(s, segs[0], 0) == 0
    decreases |segs| - k
  {
    hide Interleave, EndOf, Find;
    if k < |segs| - 1 {
      SearchSucceeds(segs, given, s, k, start);
      if segs[k] == [] {
        if k == 0 { CutSucceeds(segs, given, s, 1, 0); }
      } else {
        CutSucceeds(segs, given, s, k + 1, Find(s, segs[k], start) + |segs[k]|);
      }
    }
  }

  /** A record along the pattern's segments is stored as gaps that give it back, unless an inner segment is empty. */
  lemma {:induction false} CutRestores(segs: seq<Word>, s: Word)
    requires |segs| >= 2 && segs[|segs| - 1] == [] && Along(segs, s)
    ensures Cut(segs, s, 0, 0).Some? <==> InteriorFull(segs)
    ensures Cut(segs, s, 0, 0).Some? ==> GapsOf(segs, Cut(segs, s, 0, 0).value, s)
  {
    hide Interleave, Cut, Find;
    var given :| GapsOf(segs, given, s);
    CutSucceeds(segs, given, s, 0, 0);
    StartCutting(segs, s);
    if Cut(segs, s, 0, 0).Some? {
      CutCompletes(segs, s, 0, 0, []);
      assert [] + Cut(segs, s, 0, 0).value == Cut(segs, s, 0, 0).value;
    }
  }

  /** Any other record is refused, unless it only begins too early: then one field too many is stored. */
  lemma {:induction false} CutOfOthers(segs: seq<Word>, s: Word)
    requires |segs| >= 2 && segs[|segs| - 1] == [] && !Along(segs, s) && Cut(segs, s, 0, 0).Some?
    ensures segs[0] != [] && Find(s, segs[0], 0) > 0 && |Cut(segs, s, 0, 0).value| == |segs|
  {
    hide Interleave, Find;
    StartCutting(segs, s);
    if segs[0] == [] || Find(s, segs[0], 0) == 0 {
      CutCompletes(segs, s, 0, 0, []);
    } else {
      var at := Find(s, segs[0], 0);
      FindFinds(s, segs[0], 0);
      CutLength(segs, s, 1, at + |segs[0]|);
    }
  }

  lemma {:induction false} CutLength(segs: seq<Word>, s: Word, k: nat, start: nat)
    requires 0 < k < |segs| && start <= |s| && Cut(segs, s, k, start).Some?
    ensures |Cut(segs, s, k, start).value| == |segs| - k
    decreases |segs| - k
  {
    hide Find;
    if k < |segs| - 1 {
      FindFinds(s, segs[k], start);
      CutLength(segs, s, k + 1, Find(s, segs[k], start) + |segs[k]|);
    }
  }

  lemma {:induction false} StartCutting(segs: seq<Word>, s: Word)
    ensures Cutting(segs, s, 0, 0, []) && Fields([]) == []
  {}

  lemma {:induction false} CuttingRange(segs: seq<Word>, s: Word, k: nat, start: nat, gaps: seq<Word>)
    requires Cutting(segs, s, k, start, gaps)
    ensures start <= |s| && (k == 0 ==> start == 0 && gaps == []) && (k > 0 ==> |gaps| == k - 1)
  {}
}
