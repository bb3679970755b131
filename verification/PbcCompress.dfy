/** The record compressor: its pattern list, and compressing and decompressing one record. */
module PbcCompress {
  import opened Bytes
  import opened Patterns
  import opened Varint
  import opened RecordFormat
  import opened RecordCodec
  import opened RecordDecoding
  import opened PatternParsing

  // ---------------------------------------------------------------- stored pattern lists

  function Le32(n: nat): (w: Word)
    requires n < 0x8000_0000
    ensures |w| == 4
  {
    [n % 256, n / 256 % 256, n / 0x1_0000 % 256, n / 0x100_0000]
  }

  function ReadLe32(data: Word, i: nat): nat
    requires i + 4 <= |data|
  {
    Weigh(data[i], data[i + 1], data[i + 2], data[i + 3])
  }

  function Weigh(b0: nat, b1: nat, b2: nat, b3: nat): nat { b0 + 256 * b1 + 0x1_0000 * b2 + 0x100_0000 * b3 }

  lemma {:induction false} Le32Inverts(n: nat, data: Word, i: nat)
    requires n < 0x8000_0000 && i + 4 <= |data| && data[i..i + 4] == Le32(n)
    ensures ReadLe32(data, i) == n
  {
    var b := data[i..i + 4];
    assert data[i] == b[0] && data[i + 1] == b[1] && data[i + 2] == b[2] && data[i + 3] == b[3];
    var n1, n2 := n / 256, n / 0x1_0000;
    assert n1 / 256 == n2 && n2 / 256 == n / 0x100_0000;
  }

  /** Each string behind its length. */
  function StoredList(strs: seq<Word>): Word
    requires Sizes(strs)
  {
    if strs == [] then []
    else var s := strs[|strs| - 1]; StoredList(strs[..|strs| - 1]) + (Le32(|s|) + s)
  }

  ghost predicate Sizes(strs: seq<Word>) { forall k :: 0 <= k < |strs| ==> |strs[k]| < 0x8000_0000 }

  lemma {:induction false} StoredStep(strs: seq<Word>, k: nat)
    requires Sizes(strs) && k < |strs|
    ensures StoredList(strs[..k + 1]) == StoredList(strs[..k]) + (Le32(|strs[k]|) + strs[k])
    ensures StoredList(strs[..k + 1]) <= StoredList(strs)
    decreases |strs| - k
  {
    assert strs[..k + 1][..k] == strs[..k];
    if k + 1 < |strs| {
      StoredStep(strs, k + 1);
    } else {
      assert strs[..k + 1] == strs;
    }
  }

  /** String `k` of the list, where it is stored. */
  lemma {:induction false} StoredAt(strs: seq<Word>, data: Word, k: nat)
    requires Sizes(strs) && k < |strs| && |strs| < 0x8000_0000
    requires Le32(|strs|) + StoredList(strs) <= data
    ensures
      var i := 4 + |StoredList(strs[..k])|;
      && i + 4 + |strs[k]| == 4 + |StoredList(strs[..k + 1])| <= |data|
      && ReadLe32(data, i) == |strs[k]| && data[i + 4..i + 4 + |strs[k]|] == strs[k]
  {
    hide StoredList, Le32, ReadLe32;
    StoredStep(strs, k);
    var all, upTo, s := StoredList(strs), StoredList(strs[..k + 1]), strs[k];
    var from := |StoredList(strs[..k])|;
    assert data[4..4 + |all|] == all;
    SubSlice(data, 4, all, from, Le32(|s|) + s, upTo);
    var part := data[4 + from..4 + from + 4 + |s|];
    assert part[..4] == Le32(|s|) && part[4..] == s;
    assert data[4 + from..4 + from + 4] == part[..4] && data[4 + from + 4..4 + from + 4 + |s|] == part[4..];
    Le32Inverts(|s|, data, 4 + from);
  }

  /** One entry of the list, stored at `at`. */
  method ReadOne(data: Word, at: nat, ghost strs: seq<Word>, ghost k: nat) returns (parsed: Parsed, hs: Word, at': nat)
    requires Sizes(strs) && k < |strs| < 65536 && Le32(|strs|) + StoredList(strs) <= data && at == 4 + |StoredList(strs[..k])|
    ensures at' == 4 + |StoredList(strs[..k + 1])|
    ensures parsed == NoLastCharacter <==> EmptyBeforeStar(strs, data, k)
    ensures parsed == Malformed <==> ParseFrom(strs[k], 0).None?
    ensures parsed.Listed? ==> InfoOf(parsed.info, Segments(Closed(ParseFrom(strs[k], 0).value))) && ExpressionOf(strs[k], hs)
  {
    hide Le32, StoredList, ReadLe32, ParseFrom, Segments, Closed, InfoOf, EmptyBeforeStar, ExpressionOf, Expression, Anchor, Sizes;
    StoredAt(strs, data, k);
    var length := ReadLe32(data, at);
    at' := at + 4;
    FirstByte(strs, data, k, at');
    ghost var first := ByteAt(data, at');
    parsed, hs := ParsePattern(data[at'..at' + length], ByteAt(data, at'));
    if parsed.Listed? { ExpressionKept(strs[k], first, hs); }
    at' := at' + length;
  }

  // ---------------------------------------------------------------- the compressor

  class Compressor {
    var patternNum: nat
    var patternList: seq<PatternInfo>
    /** What the matcher is to look for. */
    var expressions: seq<Word>
    /** The segments of each pattern. */
    ghost var table: seq<seq<Word>>

    ghost predicate Valid()
      reads this
    {
      && patternNum == |patternList| == |table| == |expressions| < 65536
      && (forall id :: 0 <= id < |table| ==> InfoOf(patternList[id], table[id]))
      && (forall id :: 0 <= id < |table| ==> |table[id]| >= 2 && table[id][|table[id]| - 1] == [])
    }

    constructor ()
      ensures Valid() && table == []
    {
      patternNum, patternList, table, expressions := 0, [], [], [];
    }

    /** ReadPattern: takes the segments of every stored pattern, or fails at the first that is malformed; `lost` tells that
        before that it has come to an empty pattern with a star behind it. */
    method ReadPattern(data: Word, ghost strs: seq<Word>) returns (ptr: int, lost: bool)
      requires Sizes(strs) && |strs| < 65536 && Le32(|strs|) + StoredList(strs) <= data
      modifies this
      ensures lost <==> exists k :: 0 <= k < |strs| && EmptyBeforeStar(strs, data, k) && WellFormed(strs, k)
      ensures ptr < 0 <==> lost || !WellFormed(strs, |strs|)
      ensures ptr >= 0 ==> Valid() && ptr == 4 + |StoredList(strs)| && |table| == |strs|
      ensures ptr >= 0 ==> forall k :: 0 <= k < |strs| ==> ParseFrom(strs[k], 0).Some? && table[k] == Segments(Closed(ParseFrom(strs[k], 0).value))
      ensures ptr >= 0 ==> forall k :: 0 <= k < |strs| ==> ExpressionOf(strs[k], expressions[k])
    {
      hide Le32, StoredList, ReadLe32, ParseFrom, Segments, Closed, InfoOf, EmptyBeforeStar, ExpressionOf, AllRead, WellFormed;
      lost := false;
      CountAt(strs, data);
      var num := ReadLe32(data, 0);
      var at: nat := 4;
      patternNum, patternList, table, expressions := num, [], [], [];
      var k: nat := 0;
      NothingRead(strs);
      while k < num
        invariant k <= num == |strs| == patternNum && at == 4 + |StoredList(strs[..k])|
        invariant AllRead(strs, patternList, table, expressions, k)
        invariant !lost && WellFormed(strs, k) && forall id :: 0 <= id < k ==> !EmptyBeforeStar(strs, data, id)
      {
        var parsed, hs;
        parsed, hs, at := ReadOne(data, at, strs, k);
        OneMoreFormed(strs, k);
        if parsed == NoLastCharacter { return -1, true; }
        if parsed == Malformed {
          NotFormed(strs, k);
          return -1, false;
        }
        var info := parsed.info;
        ghost var segs := Segments(Closed(ParseFrom(strs[k], 0).value));
        OneMoreRead(strs, patternList, table, expressions, k, info, segs, hs);
        patternList, table, expressions := patternList + [info], table + [segs], expressions + [hs];
        k := k + 1;
      }
      assert strs[..k] == strs;
      ListIsRead(strs, patternList, table, expressions);
      return at, false;
    }

    /** CompressUsingPatternWithLength, with the pattern the matcher chose (`patternNum` for none). */
    method CompressUsingPatternWithLength(id: nat, s: Word, out: array<Byte>) returns (len: int)
      requires Valid() && id <= patternNum && |s| < 0x8000_0000
      requires out.Length > 2 + LengthBytes(|s|) + |s| + if id < patternNum then LengthBytes(|s|) * patternList[id].num else 0
      modifies out
      ensures id == patternNum ==> 0 <= len <= out.Length && IsEncoding(table, id, s, [s], out[..len])
      ensures id < patternNum ==> (len < 0 <==> Cut(table[id], s, 0, 0).None?)
      ensures id < patternNum && len >= 0 ==> len <= out.Length && out[..len] == [id / 256, id % 256] + Fields(Cut(table[id], s, 0, 0).value)
      ensures id < patternNum && Along(table[id], s) ==>
        && (len < 0 <==> !InteriorFull(table[id]))
        && (len >= 0 ==> IsEncoding(table, id, s, Cut(table[id], s, 0, 0).value, out[..len]))
    {
      hide Interleave, Fields, Field, InfoOf, VarintBytes, Cut, LengthBytes, Along, InteriorFull, Storable, AllStorable;
      out[0], out[1] := id / 256, id % 256;
      assert out[..2] == [id / 256, id % 256];
      if id < patternNum {
        len := FillingSubsequences(patternList[id], s, out, 0, table[id]);
        if Along(table[id], s) { CutRestores(table[id], s); }
      } else {
        len := PutGap(s, 0, |s|, out, 2);
        assert s[0..|s|] == s;
        OneField(s);
      }
    }

    /** DecompressUsingPatternWithLength. The buffer must reach six bytes beyond the input, for a length
        that is read across its end. */
    method DecompressUsingPatternWithLength(buf: Word, len: nat, out: array<Byte>) returns (result: Answer)
      requires Valid() && len + 6 <= |buf| && len + 1 < out.Length && len < MAX_LENGTH
      requires forall id :: 0 <= id < patternNum ==> |patternList[id].data| + len + 1 < out.Length
      modifies out
      ensures Restores(DecodeRecord(table, buf, len), result, out[..])
    {
      hide InfoOf, DecodeSegments, ReadVarint;
      if len < 2 { return Failed; }
      var id := PatternNumber(buf[0], buf[1]);
      if id == patternNum {
        var (size, used) := ReadVarint(buf, 2);
        if 2 + used + size > len + 1 { return Failed; }
        PutText(buf, 2 + used, size, out, 0);
        assert out[..][..size] == buf[2 + used..2 + used + size];
        return Length(size);
      } else if id > patternNum {
        return Failed;
      }
      result := DecompressSegments(patternList[id], buf, len, out, table[id]);
    }

    /** The record of one pattern. */
    method DecompressSegments(info: PatternInfo, buf: Word, len: nat, out: array<Byte>, ghost segs: seq<Word>) returns (result: Answer)
      requires InfoOf(info, segs) && |segs| >= 2 && 2 <= len < MAX_LENGTH && len + 6 <= |buf| && |info.data| + len + 1 < out.Length
      modifies out
      ensures Restores(DecodeSegments(segs, buf, len), result, out[..])
    {
      hide ReadVarint, DecodeFrom, EndsBehind;
      assert SegmentAt(info, 0, segs[0]);
      var n: nat, p: nat := 0, 2;
      if info.pos[1] - info.pos[0] == 0 {
        var (size, used) := ReadVarint(buf, p);
        VarintRange(buf, p);
        p := p + used;
        TestOfEnd(p, size, len);
        if EndsBehind(p, size, len) { return Failed; }
        if p + size >= WORD { return CopiesPastInput; }
        PutText(buf, p, size, out, n);
        n := size;
        p := p + size;
      }
      assert out[..n] == if segs[0] == [] then buf[p - n..p] else [];
      var i: nat := 0;
      while i < info.num
        invariant i <= info.num && p <= len + 1 && info.pos[i] <= |info.data| && n <= info.pos[i] + p
        invariant DecodeFrom(segs, buf, len, i, p, out[..n]) == DecodeSegments(segs, buf, len)
      {
        var round;
        round, n, p := DecompressSegment(info, buf, len, i, p, out, n, segs);
        if round != Length(0) { return round; }
        i := i + 1;
      }
      DecodeEnd(segs, buf, len, p, out[..n]);
      ghost var text := out[..n];
      out[n] := 0;
      assert out[..][..n] == text;
      return Length(n);
    }

    /** One round: a segment, and the gap behind it unless it is the last. */
    method DecompressSegment(info: PatternInfo, buf: Word, len: nat, i: nat, p: nat, out: array<Byte>, n: nat, ghost segs: seq<Word>)
      returns (round: Answer, n': nat, p': nat)
      requires InfoOf(info, segs) && i < |segs| && 2 <= len < MAX_LENGTH && len + 6 <= |buf| && |info.data| + len + 1 < out.Length
      requires p <= len + 1 && n <= info.pos[i] + p && info.pos[i] <= |info.data|
      modifies out
      ensures round == Length(0) || round == Failed || round == CopiesPastInput
      ensures round == Failed ==> DecodeFrom(segs, buf, len, i, p, old(out[..n])) == Refused
      ensures round == CopiesPastInput ==> DecodeFrom(segs, buf, len, i, p, old(out[..n])) == PastInput
      ensures round.Length? ==> p' <= len + 1 && info.pos[i + 1] <= |info.data| && n' <= info.pos[i + 1] + p'
      ensures round.Length? ==> DecodeFrom(segs, buf, len, i, p, old(out[..n])) == DecodeFrom(segs, buf, len, i + 1, p', out[..n'])
    {
      hide ReadVarint, DecodeFrom, EndsBehind;
      assert SegmentAt(info, i, segs[i]);
      DecodeNext(segs, buf, len, i, p, out[..n]);
      n', p' := n, p;
      var from, to := info.pos[i], info.pos[i + 1];
      if to - from == 0 {
        return if i != 0 && i != info.num - 1 then Failed else Length(0), n', p';
      }
      PutText(info.data, from, to - from, out, n');
      n' := n' + (to - from);
      if i != info.num - 1 {
        var (size, used) := ReadVarint(buf, p');
        VarintRange(buf, p');
        p' := p' + used;
        TestOfEnd(p', size, len);
        if EndsBehind(p', size, len) || p' > len { return Failed, n', p'; }
        if p' + size >= WORD { return CopiesPastInput, n', p'; }
        PutText(buf, p', size, out, n');
        n' := n' + size;
        p' := p' + size;
      }
      round := Length(0);
    }
  }

  /** The length of the record, an error, or the report of a copy that goes beyond the input. */
  datatype Answer = Length(value: nat) | Failed | CopiesPastInput

  /** The decoder's answer and what it has written. */
  ghost predicate Restores(expected: Decoded, result: Answer, out: Word) {
    match result
    case Length(n) => n <= |out| && expected == Restored(out[..n])
    case Failed => expected == Refused
    case CopiesPastInput => expected == PastInput
  }

  lemma {:induction false} DecodeNext(segs: seq<Word>, buf: Word, len: nat, i: nat, p: nat, acc: Word)
    requires i < |segs| && len < |buf|
    ensures DecodeFrom(segs, buf, len, i, p, acc) ==
      if segs[i] == [] then if i != 0 && i != |segs| - 1 then Refused else DecodeFrom(segs, buf, len, i + 1, p, acc)
      else if i == |segs| - 1 then DecodeFrom(segs, buf, len, i + 1, p, acc + segs[i])
      else
        var (size, used) := ReadVarint(buf, p);
        var q := p + used;
        if EndsBehind(q, size, len) || q > len then Refused
        else if q + size >= WORD || q + size > |buf| then PastInput
        else DecodeFrom(segs, buf, len, i + 1, q + size, acc + segs[i] + buf[q..q + size])
  {}

  lemma {:induction false} DecodeEnd(segs: seq<Word>, buf: Word, len: nat, p: nat, acc: Word)
    requires len < |buf|
    ensures DecodeFrom(segs, buf, len, |segs|, p, acc) == Restored(acc)
  {}

  ghost predicate WellFormed(strs: seq<Word>, k: nat)
    requires k <= |strs|
  {
    forall id :: 0 <= id < k ==> ParseFrom(strs[id], 0).Some?
  }

  /** Pattern `k` is empty, and what follows begins with a star. */
  ghost predicate EmptyBeforeStar(strs: seq<Word>, data: Word, k: nat)
    requires Sizes(strs) && k < |strs|
  {
    strs[k] == [] && ByteAt(data, 4 + |StoredList(strs[..k + 1])|) == STAR
  }

  lemma {:induction false} FirstByte(strs: seq<Word>, data: Word, k: nat, at: nat)
    requires Sizes(strs) && k < |strs| && at + |strs[k]| == 4 + |StoredList(strs[..k + 1])| <= |data|
    requires data[at..at + |strs[k]|] == strs[k]
    ensures strs[k] != [] ==> ByteAt(data, at) == strs[k][0]
    ensures EmptyBeforeStar(strs, data, k) <==> strs[k] == [] && ByteAt(data, at) == STAR
  {}

  /** The list entry read from one stored pattern. */
  ghost predicate ReadInto(s: Word, info: PatternInfo, segs: seq<Word>) {
    ParseFrom(s, 0).Some? && InfoOf(info, segs) && segs == Segments(Closed(ParseFrom(s, 0).value))
  }

  /** The entries read from the first `k` stored patterns. */
  ghost predicate AllRead(strs: seq<Word>, infos: seq<PatternInfo>, table: seq<seq<Word>>, hs: seq<Word>, k: nat) {
    && k <= |strs| && |infos| == |table| == |hs| == k
    && forall id :: 0 <= id < k ==> ReadInto(strs[id], infos[id], table[id]) && ExpressionOf(strs[id], hs[id])
  }

  lemma {:induction false} NothingRead(strs: seq<Word>)
    ensures AllRead(strs, [], [], [], 0) && WellFormed(strs, 0)
  {}

  lemma {:induction false} OneMoreFormed(strs: seq<Word>, k: nat)
    requires k < |strs| && WellFormed(strs, k)
    ensures WellFormed(strs, k + 1) <==> ParseFrom(strs[k], 0).Some?
    ensures forall l: nat :: l <= k ==> WellFormed(strs, l)
  {
    hide ParseFrom;
  }

  lemma {:induction false} NotFormed(strs: seq<Word>, k: nat)
    requires k < |strs| && ParseFrom(strs[k], 0).None?
    ensures forall l: nat :: k < l <= |strs| ==> !WellFormed(strs, l)
  {
    hide ParseFrom;
  }

  lemma {:induction false} OneMoreRead(strs: seq<Word>, infos: seq<PatternInfo>, table: seq<seq<Word>>, hs: seq<Word>, k: nat,
                                       info: PatternInfo, segs: seq<Word>, h: Word)
    requires AllRead(strs, infos, table, hs, k) && k < |strs| && ParseFrom(strs[k], 0).Some? && InfoOf(info, segs)
    requires segs == Segments(Closed(ParseFrom(strs[k], 0).value)) && ExpressionOf(strs[k], h)
    ensures AllRead(strs, infos + [info], table + [segs], hs + [h], k + 1)
  {
    hide ParseFrom, InfoOf, Segments, Closed, ExpressionOf;
  }

  lemma {:induction false} ListIsRead(strs: seq<Word>, infos: seq<PatternInfo>, table: seq<seq<Word>>, hs: seq<Word>)
    requires AllRead(strs, infos, table, hs, |strs|)
    ensures |infos| == |table| == |hs| == |strs| && forall id :: 0 <= id < |strs| ==> InfoOf(infos[id], table[id]) && ExpressionOf(strs[id], hs[id])
    ensures forall id :: 0 <= id < |strs| ==> ParseFrom(strs[id], 0).Some? && table[id] == Segments(Closed(ParseFrom(strs[id], 0).value))
    ensures forall id :: 0 <= id < |table| ==> |table[id]| >= 2 && table[id][|table[id]| - 1] == []
  {
    hide ParseFrom, InfoOf, Segments, Closed, ExpressionOf;
    forall id | 0 <= id < |table| ensures |table[id]| >= 2 && table[id][|table[id]| - 1] == [] {
      assert ReadInto(strs[id], infos[id], table[id]);
      ClosedSegments(ParseFrom(strs[id], 0).value);
    }
  }

  /** The expression for one stored pattern. */
  ghost predicate ExpressionOf(s: Word, hs: Word) {
    ParseFrom(s, 0).Some? && (s != [] ==> hs == Anchor(s[0]) + Expression(Closed(ParseFrom(s, 0).value)))
  }

  lemma {:induction false} ExpressionKept(s: Word, first: Byte, hs: Word)
    requires ParseFrom(s, 0).Some? && (s != [] ==> first == s[0]) && hs == Anchor(first) + Expression(Closed(ParseFrom(s, 0).value))
    ensures ExpressionOf(s, hs)
  {}

  lemma {:induction false} OneField(s: Word)
    ensures Fields([s]) == Field(s)
  {
    FieldsAppend([], s);
    assert [] + [s] == [s];
    assert [] + Field(s) == Field(s);
  }

  lemma {:induction false} CountAt(strs: seq<Word>, data: Word)
    requires Sizes(strs) && |strs| < 65536 && Le32(|strs|) + StoredList(strs) <= data
    ensures |data| >= 4 && ReadLe32(data, 0) == |strs| && StoredList(strs[..0]) == []
  {
    assert data[0..4] == Le32(|strs|);
    Le32Inverts(|strs|, data, 0);
  }

  lemma {:induction false} ClosedSegments(p: Pattern)
    ensures var segs := Segments(Closed(p)); |segs| >= 2 && segs[|segs| - 1] == []
  {
    var q := Closed(p);
    LastSegmentEmpty(q);
    assert Wilds(q) >= 1;
  }
}
