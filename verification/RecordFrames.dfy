/** Records with a type byte in front and an optional second coder behind the pattern coder. */
module RecordFrames {
  import opened Bytes
  import opened Varint
  import opened RecordFormat
  import opened RecordDecoding

  // CompressTypeFlag
  const NOT_COMPRESS: Byte := 0x1b
  const PBC_ONLY: Byte := 0x1c
  const SECONDARY_ONLY: Byte := 0x1d
  const PBC_COMBINED: Byte := 0x1e

  /** The second coder; an empty result stands for a size of zero, that is, for failure. */
  datatype Coder = Coder(encode: Word -> Word, decode: Word -> Word)

  ghost predicate Lossless(coder: Coder) {
    forall s :: coder.encode(s) != [] ==> coder.decode(coder.encode(s)) == s
  }

  /** CompressUsingPattern: `id` is the pattern the matcher chose, `e` its stored form of the record. The
      second coder's result is kept only if it is shorter. */
  function CompressFramed(matched: bool, s: Word, e: Word, coder: Coder): Word {
    var plain := if matched then e else s;
    var c := coder.encode(plain);
    if c == [] || |c| >= |plain| then [if matched then PBC_ONLY else NOT_COMPRESS] + plain
    else [if matched then PBC_COMBINED else SECONDARY_ONLY] + c
  }

  /** A record, a refusal, a pattern number that is not in the list, or a copy from behind the working buffer: the last two are
      not tested for. */
  datatype Unframed = Text(value: Word) | Failure | NoSuchPattern | PastBuffer

  /** The decoder's loop without checks against the input's length; `buf` is the whole working buffer. */
  function DecodeUnchecked(segs: seq<Word>, buf: Word, i: nat, p: nat, acc: Word): Unframed
    requires i <= |segs|
    decreases |segs| - i
  {
    if i == |segs| then Text(acc)
    else if segs[i] == [] then
      if i != 0 && i != |segs| - 1 then Failure else DecodeUnchecked(segs, buf, i + 1, p, acc)
    else if i == |segs| - 1 then DecodeUnchecked(segs, buf, i + 1, p, acc + segs[i])
    else
      var (size, used) := ReadVarint(buf, p);
      var q := p + used;
      if q + size > |buf| then PastBuffer else DecodeUnchecked(segs, buf, i + 1, q + size, acc + segs[i] + buf[q..q + size])
  }

  /** pattern_info.data: all segments in a row. */
  function Data(segs: seq<Word>): Word { if segs == [] then [] else Data(segs[..|segs| - 1]) + segs[|segs| - 1] }

  /** The gaps of a record; a buffer of three bytes is taken to hold none but an empty one. */
  function DecodeGaps(segs: seq<Word>, buf: Word, length: nat): Unframed
    requires segs != []
  {
    if length == 3 then Text(Data(segs))
    else if segs[0] == [] then
      var (size, used) := ReadVarint(buf, 2);
      var q := 2 + used;
      if q + size > |buf| then PastBuffer else DecodeUnchecked(segs, buf, 0, q + size, buf[q..q + size])
    else DecodeUnchecked(segs, buf, 0, 2, [])
  }

  /** DecompressUsingPattern; `stale` is what the working buffer holds behind the record. The length compared with three
      counts the type byte only for records that the second coder has left alone. */
  function DecompressFramed(table: seq<seq<Word>>, input: Word, coder: Coder, stale: Word): Unframed
    requires forall id :: 0 <= id < |table| ==> table[id] != []
  {
    if |input| < 2 then Failure
    else if input[0] == NOT_COMPRESS then Text(input[1..])
    else if input[0] != PBC_ONLY && input[0] != SECONDARY_ONLY && input[0] != PBC_COMBINED then Failure
    else if |input| < 3 && input[0] != SECONDARY_ONLY then Failure
    else if input[0] == SECONDARY_ONLY then
      var s := coder.decode(input[1..]);
      if s == [] then Failure else Text(s)
    else
      var e := if input[0] == PBC_COMBINED then coder.decode(input[1..]) else input[1..];
      var length := if input[0] == PBC_COMBINED then |e| else |input|;
      var id := PatternNumber(ByteAt(e + stale, 0), ByteAt(e + stale, 1));
      if e == [] then Failure else if id >= |table| then NoSuchPattern else DecodeGaps(table[id], e + stale, length)
  }

  lemma {:induction false} ChecksPass(segs: seq<Word>, buf: Word, len: nat, i: nat, p: nat, acc: Word)
    requires i <= |segs| && len < |buf| && DecodeFrom(segs, buf, len, i, p, acc).Restored?
    ensures DecodeUnchecked(segs, buf, i, p, acc) == Text(DecodeFrom(segs, buf, len, i, p, acc).text)
    decreases |segs| - i
  {
    hide ReadVarint;
    if i < |segs| {
      if segs[i] == [] {
        ChecksPass(segs, buf, len, i + 1, p, acc);
      } else if i == |segs| - 1 {
        ChecksPass(segs, buf, len, i + 1, p, acc + segs[i]);
      } else {
        var (size, used) := ReadVarint(buf, p);
        ChecksPass(segs, buf, len, i + 1, p + used + size, acc + segs[i] + buf[p + used..p + used + size]);
      }
    }
  }

  lemma {:induction false} StoredIsNotShort(table: seq<seq<Word>>, id: nat, s: Word, gaps: seq<Word>, e: Word)
    requires IsEncoding(table, id, s, gaps, e) && GoodTable(table) && id < |table|
    ensures |e| >= 3
    ensures |e| == 3 ==> Data(table[id]) == s
  {
    var segs := table[id];
    assert gaps == gaps[..|gaps| - 1] + [gaps[|gaps| - 1]];
    var front, gap := Fields(gaps[..|gaps| - 1]), gaps[|gaps| - 1];
    FieldsAppend(gaps[..|gaps| - 1], gap);
    assert |Field(gap)| >= 1 + |gap|;
    if |e| == 3 {
      if |gaps| > 1 { FieldsNotEmpty(gaps[..|gaps| - 1]); }
      assert |gaps| == 1 && gap == [] && |segs| == 2;
      DataOfTwo(segs);
      NoGaps(segs[..1]);
      assert gaps[..0] == [];
      assert Interleave(segs, gaps) == Interleave(segs[..1], gaps[..0]) + gap + segs[1];
    }
  }

  lemma {:induction false} FieldsNotEmpty(gaps: seq<Word>)
    requires gaps != []
    ensures |Fields(gaps)| >= 1
  {}

  lemma {:induction false} DataOfTwo(segs: seq<Word>)
    requires |segs| == 2 && segs[1] == []
    ensures Data(segs) == segs[0]
  {
    assert segs[..1][..0] == [];
    assert Data(segs[..1]) == Data(segs[..1][..0]) + segs[..1][0];
  }

  lemma {:induction false} GapsRestored(table: seq<seq<Word>>, id: nat, s: Word, gaps: seq<Word>, e: Word, stale: Word, length: nat)
    requires GoodTable(table) && IsEncoding(table, id, s, gaps, e) && id < |table|
    requires AllStorable(gaps) && stale != [] && |e| < MAX_LENGTH
    requires length == |e| || length == |e| + 1
    ensures DecodeGaps(table[id], e + stale, length) == Text(s)
  {
    hide Fields, Interleave, ReadVarint, Data;
    StoredIsNotShort(table, id, s, gaps, e);
    var segs, buf := table[id], e + stale;
    RecordRoundTrip(table, id, s, gaps, e, stale);
    EncodingHolds(table, id, s, gaps, e, buf);
    assert DecodeSegments(segs, buf, |e|) == Restored(s);
    if segs[0] == [] {
      var (size, used) := ReadVarint(buf, 2);
      ChecksPass(segs, buf, |e|, 0, 2 + used + size, buf[2 + used..2 + used + size]);
    } else {
      ChecksPass(segs, buf, |e|, 0, 2, []);
    }
  }

  /** A frame is one byte longer than the shorter of the plain form and a nonempty result of the second coder, the plain form if
      they are as long; its type tells which one it holds, and whether a pattern fits. */
  lemma {:induction false} FrameIsShortest(matched: bool, s: Word, e: Word, coder: Coder)
    ensures
      var plain, f := if matched then e else s, CompressFramed(matched, s, e, coder);
      var c := coder.encode(plain);
      && 1 <= |f| <= |plain| + 1 && (c != [] ==> |f| <= |c| + 1)
      && (f[1..] == plain || (c != [] && f[1..] == c))
      && (f[0] == PBC_COMBINED || f[0] == SECONDARY_ONLY <==> c != [] && |c| < |plain|)
      && (f[0] == PBC_COMBINED || f[0] == SECONDARY_ONLY <==> f[1..] == c && |f| <= |plain| && c != [])
      && (f[0] == PBC_ONLY || f[0] == PBC_COMBINED <==> matched) && (f[0] == NOT_COMPRESS || f[0] == SECONDARY_ONLY <==> !matched)
  {
    var plain := if matched then e else s;
    var f, c := CompressFramed(matched, s, e, coder), coder.encode(plain);
    assert f[1..] == if c == [] || |c| >= |plain| then plain else c;
  }

  /** With a lossless second coder a record comes back, with two exceptions: a matched record whose stored
      form the second coder turns into a single byte, since the frame is then taken for too short, and an
      empty record that no pattern fits. */
  lemma {:induction false} FramedRoundTrip(table: seq<seq<Word>>, id: nat, s: Word, gaps: seq<Word>, e: Word, coder: Coder, stale: Word)
    requires GoodTable(table) && IsEncoding(table, id, s, gaps, e) && (id < |table| ==> AllStorable(gaps))
    requires Lossless(coder) && stale != [] && |e| < MAX_LENGTH
    ensures
      DecompressFramed(table, CompressFramed(id < |table|, s, e, coder), coder, stale) == Text(s)
      <==> if id < |table| then |coder.encode(e)| != 1 else s != []
  {
    hide Fields, Interleave, ReadVarint, DecodeGaps;
    var framed := CompressFramed(id < |table|, s, e, coder);
    if id < |table| {
      StoredIsNotShort(table, id, s, gaps, e);
      EncodingHolds(table, id, s, gaps, e, e + stale);
      var c := coder.encode(e);
      assert ByteAt(e + stale, 0) == (e + stale)[0] && ByteAt(e + stale, 1) == (e + stale)[1];
      if c == [] || |c| >= |e| {
        assert framed[1..] == e;
        GapsRestored(table, id, s, gaps, e, stale, |e| + 1);
      } else {
        assert framed[1..] == c && coder.decode(framed[1..]) == e;
        GapsRestored(table, id, s, gaps, e, stale, |e|);
      }
    } else {
      var c := coder.encode(s);
      assert framed[1..] == if c == [] || |c| >= |s| then s else c;
    }
  }

  /** Without empty inner segments the loop refuses nothing. */
  lemma {:induction false} LoopRefusesNothing(segs: seq<Word>, buf: Word, i: nat, p: nat, acc: Word)
    requires i <= |segs| && InteriorFull(segs)
    ensures DecodeUnchecked(segs, buf, i, p, acc) != Failure
    decreases |segs| - i
  {
    hide ReadVarint;
    if i < |segs| {
      if segs[i] == [] {
        LoopRefusesNothing(segs, buf, i + 1, p, acc);
      } else if i == |segs| - 1 {
        LoopRefusesNothing(segs, buf, i + 1, p, acc + segs[i]);
      } else {
        var (size, used) := ReadVarint(buf, p);
        if p + used + size <= |buf| { LoopRefusesNothing(segs, buf, i + 1, p + used + size, acc + segs[i] + buf[p + used..p + used + size]); }
      }
    }
  }

  /** Which frames are refused: those of fewer than two bytes, or of two if they hold a pattern, those of unknown types, and those
      of which the second coder makes nothing. */
  lemma {:induction false} FrameRefused(table: seq<seq<Word>>, input: Word, coder: Coder, stale: Word)
    requires GoodTable(table)
    ensures DecompressFramed(table, input, coder, stale) == Failure <==>
      || |input| < 2 || input[0] !in {NOT_COMPRESS, PBC_ONLY, SECONDARY_ONLY, PBC_COMBINED}
      || (|input| == 2 && input[0] in {PBC_ONLY, PBC_COMBINED})
      || (input[0] in {SECONDARY_ONLY, PBC_COMBINED} && coder.decode(input[1..]) == [])
  {
    hide ReadVarint, DecodeUnchecked;
    if |input| >= 3 && input[0] in {PBC_ONLY, PBC_COMBINED} {
      var e := if input[0] == PBC_COMBINED then coder.decode(input[1..]) else input[1..];
      var id := PatternNumber(ByteAt(e + stale, 0), ByteAt(e + stale, 1));
      if id < |table| { GapsRefuseNothing(table[id], e + stale, if input[0] == PBC_COMBINED then |e| else |input|); }
    }
  }

  lemma {:induction false} GapsRefuseNothing(segs: seq<Word>, buf: Word, length: nat)
    requires segs != [] && InteriorFull(segs)
    ensures DecodeGaps(segs, buf, length) != Failure
  {
    hide ReadVarint, DecodeUnchecked;
    var (size, used) := ReadVarint(buf, 2);
    if segs[0] != [] {
      LoopRefusesNothing(segs, buf, 0, 2, []);
    } else if 2 + used + size <= |buf| {
      LoopRefusesNothing(segs, buf, 0, 2 + used + size, buf[2 + used..2 + used + size]);
    }
  }

  /** What the decoder with checks restores the one without restores, too. */
  lemma {:induction false} GapsAgree(segs: seq<Word>, buf: Word, len: nat, length: nat, t: Word)
    requires segs != [] && len < |buf| && length != 3 && DecodeSegments(segs, buf, len) == Restored(t)
    ensures DecodeGaps(segs, buf, length) == Text(t)
  {
    hide ReadVarint, DecodeUnchecked, DecodeFrom;
    if segs[0] == [] {
      var (size, used) := ReadVarint(buf, 2);
      ChecksPass(segs, buf, len, 0, 2 + used + size, buf[2 + used..2 + used + size]);
    } else {
      ChecksPass(segs, buf, len, 0, 2, []);
    }
  }

  /** Any bytes that the decoder without frames restores to a record are restored to it in a frame. */
  lemma {:induction false} FrameAgrees(table: seq<seq<Word>>, e: Word, coder: Coder, stale: Word, t: Word)
    requires GoodTable(table) && stale != [] && |e| > 3 && PatternNumber(e[0], e[1]) < |table|
    requires DecodeRecord(table, e + stale, |e|) == Restored(t)
    ensures DecompressFramed(table, [PBC_ONLY] + e, coder, stale) == Text(t)
  {
    hide DecodeGaps, DecodeSegments;
    var input, buf := [PBC_ONLY] + e, e + stale;
    assert input[1..] == e && buf[0] == e[0] && buf[1] == e[1];
    GapsAgree(table[PatternNumber(e[0], e[1])], buf, |e|, |input|, t);
  }

  /** A frame of the encoder names a pattern of the list; any other that the coder lets through is taken at its word. */
  lemma {:induction false} NumberOutsideList(table: seq<seq<Word>>, high: Byte, low: Byte, rest: Word, coder: Coder, stale: Word)
    requires forall id :: 0 <= id < |table| ==> table[id] != []
    ensures DecompressFramed(table, [PBC_ONLY, high, low] + rest, coder, stale) == NoSuchPattern <==> PatternNumber(high, low) >= |table|
  {
    hide DecodeGaps;
    var input := [PBC_ONLY, high, low] + rest;
    assert (input[1..] + stale)[0] == high && (input[1..] + stale)[1] == low;
    if PatternNumber(high, low) < |table| { GapsNamePattern(table[PatternNumber(high, low)], input[1..] + stale, |input|); }
  }

  lemma {:induction false} GapsNamePattern(segs: seq<Word>, buf: Word, length: nat)
    requires segs != []
    ensures DecodeGaps(segs, buf, length) != NoSuchPattern
  {
    hide ReadVarint, DecodeUnchecked;
    var (size, used) := ReadVarint(buf, 2);
    if segs[0] != [] {
      LoopNamesPattern(segs, buf, 0, 2, []);
    } else if 2 + used + size <= |buf| {
      LoopNamesPattern(segs, buf, 0, 2 + used + size, buf[2 + used..2 + used + size]);
    }
  }

  lemma {:induction false} LoopNamesPattern(segs: seq<Word>, buf: Word, i: nat, p: nat, acc: Word)
    requires i <= |segs|
    ensures DecodeUnchecked(segs, buf, i, p, acc) != NoSuchPattern
    decreases |segs| - i
  {
    hide ReadVarint;
    if i < |segs| {
      if segs[i] == [] {
        LoopNamesPattern(segs, buf, i + 1, p, acc);
      } else if i == |segs| - 1 {
        LoopNamesPattern(segs, buf, i + 1, p, acc + segs[i]);
      } else {
        var (size, used) := ReadVarint(buf, p);
        var q := p + used;
        if q + size <= |buf| { LoopNamesPattern(segs, buf, i + 1, q + size, acc + segs[i] + buf[q..q + size]); }
      }
    }
  }
}
