/** Restoring records: the decoder undoes the encoder, and refuses an encoding that is cut at a newline. */
module RecordDecoding {
  import opened Bytes
  import opened Varint
  import opened RecordFormat
  import opened RecordCodec

  // ---------------------------------------------------------------- what the decoder computes

  /** A record, a refusal, or a copy of some four thousand million bytes that the test of the length has let through. */
  datatype Decoded = Restored(text: Word) | Refused | PastInput

  /** Lengths are ints, and one is added to them. */
  const MAX_LENGTH: nat := 0x7FFF_FFFF

  /** The test for the end of the input adds in 32 bits without sign. */
  predicate EndsBehind(q: nat, size: nat, len: nat) { (q + size) % WORD > len + 1 }

  /** The loop over the segments from number `i` on: `acc` is written, the next field is at `p`. Bytes
      behind `len` are in the buffer but do not belong to the input. */
  function DecodeFrom(segs: seq<Word>, buf: Word, len: nat, i: nat, p: nat, acc: Word): Decoded
    requires i <= |segs| && len < |buf|
    decreases |segs| - i
  {
    if i == |segs| then Restored(acc)
    else if segs[i] == [] then
      if i != 0 && i != |segs| - 1 then Refused else DecodeFrom(segs, buf, len, i + 1, p, acc)
    else if i == |segs| - 1 then DecodeFrom(segs, buf, len, i + 1, p, acc + segs[i])
    else
      var (size, used) := ReadVarint(buf, p);
      var q := p + used;
      if EndsBehind(q, size, len) || q > len then Refused
      else if q + size >= WORD || q + size > |buf| then PastInput
      else DecodeFrom(segs, buf, len, i + 1, q + size, acc + segs[i] + buf[q..q + size])
  }

  /** A record of a pattern: a first segment that is empty is preceded by a field of its own. */
  function DecodeSegments(segs: seq<Word>, buf: Word, len: nat): Decoded
    requires segs != [] && len < |buf|
  {
    if segs[0] == [] then
      var (size, used) := ReadVarint(buf, 2);
      var q := 2 + used;
      if EndsBehind(q, size, len) then Refused
      else if q + size >= WORD || q + size > |buf| then PastInput
      else DecodeFrom(segs, buf, len, 0, q + size, buf[q..q + size])
    else DecodeFrom(segs, buf, len, 0, 2, [])
  }

  /** A record without a pattern: one field, whose end is computed in 64 bits. */
  function DecodeRaw(buf: Word, len: nat): Decoded
    requires len < |buf|
  {
    var (size, used) := ReadVarint(buf, 2);
    var q := 2 + used;
    if q + size > len + 1 then Refused else Restored(buf[q..q + size])
  }

  // ---------------------------------------------------------------- lengths that wrap around

  /** Below 2^31 bytes of input the test is right unless the sum of position and length reaches 2^32. */
  lemma {:induction false} TestOfEnd(q: nat, size: nat, len: nat)
    requires size < WORD && q <= len + 6 && len < MAX_LENGTH
    ensures q + size < WORD ==> (EndsBehind(q, size, len) <==> q + size > len + 1)
    ensures q + size >= WORD && q <= len ==> !EndsBehind(q, size, len)
  {}

  lemma {:induction false} VarintRange(buf: Word, p: nat)
    ensures ReadVarint(buf, p).0 < WORD && ReadVarint(buf, p).1 <= 5
  {}

  /** A field that is reached, behind fields that fit, has a length that ends at 2^32 or beyond. */
  predicate Overlong(segs: seq<Word>, buf: Word, len: nat, i: nat, p: nat)
    requires i <= |segs|
    decreases |segs| - i
  {
    i < |segs| &&
    if segs[i] == [] then (i == 0 || i == |segs| - 1) && Overlong(segs, buf, len, i + 1, p)
    else
      i < |segs| - 1 &&
      var (size, used) := ReadVarint(buf, p);
      p + used <= len &&
      (p + used + size >= WORD || (p + used + size <= len + 1 && Overlong(segs, buf, len, i + 1, p + used + size)))
  }

  /** The decoder copies past its input if and only if such a field is reached. */
  lemma {:induction false} PastInputExactly(segs: seq<Word>, buf: Word, len: nat, i: nat, p: nat, acc: Word)
    requires i <= |segs| && len < |buf| && p <= len + 1 && len < MAX_LENGTH
    ensures DecodeFrom(segs, buf, len, i, p, acc) == PastInput <==> Overlong(segs, buf, len, i, p)
    decreases |segs| - i
  {
    hide ReadVarint, EndsBehind;
    if i < |segs| {
      if segs[i] == [] {
        if i == 0 || i == |segs| - 1 { PastInputExactly(segs, buf, len, i + 1, p, acc); }
      } else if i == |segs| - 1 {
        PastInputExactly(segs, buf, len, i + 1, p, acc + segs[i]);
      } else {
        var (size, used) := ReadVarint(buf, p);
        VarintRange(buf, p);
        TestOfEnd(p + used, size, len);
        if p + used <= len && p + used + size <= len + 1 {
          PastInputExactly(segs, buf, len, i + 1, p + used + size, acc + segs[i] + buf[p + used..p + used + size]);
        }
      }
    }
  }

  /** A length that is so large takes five bytes, and all bits of the last one are set. */
  lemma {:induction false} OverlongBytes(buf: Word, p: nat, len: nat)
    requires p + ReadVarint(buf, p).1 <= len + 6 && len < 0x1000_0000 - 6 && p + ReadVarint(buf, p).1 + ReadVarint(buf, p).0 >= WORD
    ensures ReadVarint(buf, p).1 == 5 && ByteAt(buf, p + 4) == 15
  {}

  /** So an input without a byte 15 behind its first six is never copied past, up to a quarter of a gibibyte. */
  lemma {:induction false} NoFifteenNoOverrun(segs: seq<Word>, buf: Word, len: nat, i: nat, p: nat)
    requires i <= |segs| && 2 <= p <= len + 1 && len < 0x1000_0000 - 6 && forall k :: 6 <= k < |buf| ==> buf[k] != 15
    ensures !Overlong(segs, buf, len, i, p)
    decreases |segs| - i
  {
    hide ReadVarint;
    if i < |segs| {
      if segs[i] == [] {
        if i == 0 || i == |segs| - 1 { NoFifteenNoOverrun(segs, buf, len, i + 1, p); }
      } else {
        var (size, used) := ReadVarint(buf, p);
        VarintRange(buf, p);
        if p + used <= len {
          if p + used + size >= WORD { OverlongBytes(buf, p, len); }
          if p + used + size <= len + 1 { NoFifteenNoOverrun(segs, buf, len, i + 1, p + used + size); }
        }
      }
    }
  }

  /** The length 2^32 - 1 in five bytes, behind the number of a pattern that begins with a wildcard. */
  lemma {:induction false} LengthWraps(segs: seq<Word>, rest: Word)
    requires |segs| >= 2 && segs[0] == [] && rest != []
    ensures DecodeSegments(segs, [0, 0, 255, 255, 255, 255, 15] + rest, 7) == PastInput
  {
    var buf := [0, 0, 255, 255, 255, 255, 15] + rest;
    assert ReadVarint(buf, 2) == (0xFFFF_FFFF, 5);
  }

  // ---------------------------------------------------------------- positions of the fields

  function FieldAt(gaps: seq<Word>, i: nat): nat
    requires i <= |gaps|
  {
    2 + |Fields(gaps[..i])|
  }

  /** The buffer holds all fields behind the two bytes of the pattern number. */
  ghost predicate Holds(buf: Word, gaps: seq<Word>) {
    && |buf| >= FieldAt(gaps, |gaps|) && FieldAt(gaps, |gaps|) < WORD
    && buf[2..FieldAt(gaps, |gaps|)] == Fields(gaps)
    && AllStorable(gaps)
  }

  lemma {:induction false} FieldsPrefix(gaps: seq<Word>, i: nat)
    requires i < |gaps|
    ensures Fields(gaps[..i + 1]) == Fields(gaps[..i]) + Field(gaps[i])
    ensures Fields(gaps[..i + 1]) <= Fields(gaps)
    decreases |gaps| - i
  {
    assert gaps[..i + 1] == gaps[..i] + [gaps[i]];
    FieldsAppend(gaps[..i], gaps[i]);
    if i + 1 < |gaps| {
      FieldsPrefix(gaps, i + 1);
    } else {
      assert gaps[..i + 1] == gaps;
    }
  }

  /** Reading field `i` yields its length and leads to its bytes. */
  lemma {:induction false} ReadField(buf: Word, gaps: seq<Word>, i: nat)
    requires Holds(buf, gaps) && i < |gaps|
    ensures
      var p, n := FieldAt(gaps, i), |VarintBytes(|gaps[i]|)|;
      && ReadVarint(buf, p) == (|gaps[i]|, n)
      && p + n + |gaps[i]| == FieldAt(gaps, i + 1) <= FieldAt(gaps, |gaps|) <= |buf|
      && buf[p..p + n] == VarintBytes(|gaps[i]|) && buf[p + n..p + n + |gaps[i]|] == gaps[i]
  {
    hide Fields, VarintBytes, ReadVarint, Storable;
    var p, v := FieldAt(gaps, i), VarintBytes(|gaps[i]|);
    FieldsPrefix(gaps, i);
    assert gaps[..|gaps|] == gaps;
    var all, upTo := Fields(gaps), Fields(gaps[..i + 1]);
    assert all[..|upTo|] == upTo;
    SubSlice(buf, 2, all, p - 2, Field(gaps[i]), upTo);
    assert Field(gaps[i])[..|v|] == v && Field(gaps[i])[|v|..] == gaps[i];
    assert buf[p..p + |v|] == buf[p..p + |Field(gaps[i])|][..|v|];
    assert buf[p + |v|..p + |v| + |gaps[i]|] == buf[p..p + |Field(gaps[i])|][|v|..];
    VarintRoundTrip(|gaps[i]|, buf, p);
  }

  /** The 32-bit test is right for a stored field. */
  lemma {:induction false} FieldTest(buf: Word, gaps: seq<Word>, i: nat, len: nat)
    requires Holds(buf, gaps) && i < |gaps| && FieldAt(gaps, i) <= len < MAX_LENGTH
    ensures
      var q := FieldAt(gaps, i) + |VarintBytes(|gaps[i]|)|;
      q + |gaps[i]| < WORD && (EndsBehind(q, |gaps[i]|, len) <==> q + |gaps[i]| > len + 1)
  {
    hide Fields, VarintBytes, ReadVarint, EndsBehind;
    ReadField(buf, gaps, i);
    VarintRange(buf, FieldAt(gaps, i));
    TestOfEnd(FieldAt(gaps, i) + |VarintBytes(|gaps[i]|)|, |gaps[i]|, len);
  }

  lemma {:induction false} SubSlice(buf: Word, from: nat, all: Word, i: nat, part: Word, upTo: Word)
    requires from + |all| <= |buf| && buf[from..from + |all|] == all
    requires upTo <= all && i <= |upTo| && upTo[i..] == part
    ensures buf[from + i..from + i + |part|] == part
  {
    forall k | 0 <= k < |part| ensures buf[from + i + k] == part[k] {
      assert part[k] == upTo[i + k] == all[i + k] == buf[from..from + |all|][i + k];
    }
  }

  // ---------------------------------------------------------------- whole and cut encodings

  /** The first `f` fields lie within the input; if that is not all, the input ends within the length
      bytes of the next one, whose gap is not empty. */
  ghost predicate CutAfter(gaps: seq<Word>, len: nat, f: nat) {
    && f <= |gaps| && FieldAt(gaps, f) <= len
    && (f < |gaps| ==> gaps[f] != [] && len < FieldAt(gaps, f) + |VarintBytes(|gaps[f]|)|)
  }

  lemma {:induction false} FieldsBefore(gaps: seq<Word>, i: nat, f: nat)
    requires i <= f <= |gaps|
    ensures FieldAt(gaps, i) <= FieldAt(gaps, f)
    decreases f
  {
    hide Fields;
    if i < f {
      FieldsPrefix(gaps, f - 1);
      FieldsBefore(gaps, i, f - 1);
    }
  }

  /** From segment `i` on the decoder writes the rest of the record, or stops at the cut. */
  lemma {:induction false} DecodeRun(segs: seq<Word>, gaps: seq<Word>, buf: Word, len: nat, f: nat, i: nat, acc: Word)
    requires |segs| == |gaps| + 1 >= 2 && InteriorFull(segs) && segs[|gaps|] == []
    requires Holds(buf, gaps) && len < |buf| && len < MAX_LENGTH && CutAfter(gaps, len, f)
    requires 1 <= i <= |gaps| && i <= f && acc == Interleave(segs[..i], gaps[..i - 1]) + gaps[i - 1]
    ensures DecodeFrom(segs, buf, len, i, FieldAt(gaps, i), acc) == if f == |gaps| then Restored(Interleave(segs, gaps)) else Refused
    decreases |segs| - i
  {
    hide Fields, VarintBytes, ReadVarint, Interleave, Holds;
    if i == |gaps| {
      assert segs == segs[..i] + [[]] && gaps == gaps[..i - 1] + [gaps[i - 1]];
      InterleaveAppend(segs[..i], gaps[..i - 1], gaps[i - 1], []);
      assert acc + [] == acc;
      assert DecodeFrom(segs, buf, len, |segs|, FieldAt(gaps, i), acc) == Restored(acc);
    } else {
      ReadField(buf, gaps, i);
      FieldsBefore(gaps, i, f);
      FieldTest(buf, gaps, i, len);
      if i < f {
        FieldsBefore(gaps, i + 1, f);
        assert segs[..i + 1] == segs[..i] + [segs[i]] && gaps[..i] == gaps[..i - 1] + [gaps[i - 1]];
        InterleaveAppend(segs[..i], gaps[..i - 1], gaps[i - 1], segs[i]);
        DecodeRun(segs, gaps, buf, len, f, i + 1, acc + segs[i] + gaps[i]);
      }
    }
  }

  lemma {:induction false} DecodeStart(segs: seq<Word>, gaps: seq<Word>, buf: Word, len: nat, f: nat)
    requires |segs| == |gaps| + 1 >= 2 && InteriorFull(segs) && segs[|gaps|] == []
    requires Holds(buf, gaps) && len < |buf| && len < MAX_LENGTH && CutAfter(gaps, len, f)
    ensures DecodeSegments(segs, buf, len) == if f == |gaps| then Restored(Interleave(segs, gaps)) else Refused
  {
    hide Fields, VarintBytes, ReadVarint, Interleave, Holds;
    FirstField(gaps);
    ReadField(buf, gaps, 0);
    FieldsBefore(gaps, 0, f);
    FieldTest(buf, gaps, 0, len);
    NoGaps(segs[..1]);
    assert gaps[..0] == [] && segs[..1] == [segs[0]];
    if f > 0 {
      FieldsBefore(gaps, 1, f);
      DecodeRun(segs, gaps, buf, len, f, 1, segs[0] + gaps[0]);
      assert [] + segs[0] + gaps[0] == segs[0] + gaps[0];
      assert segs[0] == [] ==> segs[0] + gaps[0] == gaps[0];
    }
  }

  lemma {:induction false} FirstField(gaps: seq<Word>)
    ensures FieldAt(gaps, 0) == 2
  {
    assert gaps[..0] == [];
  }

  // ---------------------------------------------------------------- cuts at a newline

  ghost predicate NoNewline(s: Word) { NEWLINE !in s }

  lemma {:induction false} GapsWithoutNewline(segs: seq<Word>, gaps: seq<Word>)
    requires |segs| == |gaps| + 1 && NoNewline(Interleave(segs, gaps))
    ensures forall i :: 0 <= i < |gaps| ==> NoNewline(gaps[i])
    ensures forall i :: 0 <= i < |gaps| ==> |gaps[i]| <= |Interleave(segs, gaps)|
    decreases |gaps|
  {
    if gaps != [] {
      var front := Interleave(segs[..|gaps|], gaps[..|gaps| - 1]);
      var gap, seg := gaps[|gaps| - 1], segs[|gaps|];
      assert Interleave(segs, gaps) == front + gap + seg;
      GapsWithoutNewline(segs[..|gaps|], gaps[..|gaps| - 1]);
    }
  }

  /** Among the stored fields of newline-free gaps a newline can only be part of a length, and not of
      the length zero. */
  lemma {:induction false} NewlineIsInLength(gaps: seq<Word>, c: nat) returns (f: nat)
    requires forall i :: 0 <= i < |gaps| ==> NoNewline(gaps[i])
    requires 2 <= c < FieldAt(gaps, |gaps|) && Fields(gaps[..|gaps|])[c - 2] == NEWLINE
    ensures f < |gaps| && CutAfter(gaps, c, f)
    decreases |gaps|
  {
    assert gaps[..|gaps|] == gaps;
    var n := |gaps| - 1;
    FieldsPrefix(gaps, n);
    var front, gap := Fields(gaps[..n]), gaps[n];
    if c - 2 < |front| {
      assert gaps[..n][..n] == gaps[..n];
      f := NewlineIsInLength(gaps[..n], c);
      assert gaps[..n][..f] == gaps[..f];
    } else {
      f := n;
      var at := c - 2 - |front|;
      assert Field(gap)[at] == NEWLINE;
      LengthByte(gap, at);
    }
  }

  lemma {:induction false} LengthByte(gap: Word, at: nat)
    requires NoNewline(gap) && at < |Field(gap)| && Field(gap)[at] == NEWLINE
    ensures gap != [] && at < |VarintBytes(|gap|)|
  {
    forall k | |VarintBytes(|gap|)| <= k < |Field(gap)| ensures Field(gap)[k] != NEWLINE {
      assert Field(gap)[k] in gap;
    }
  }

  // ---------------------------------------------------------------- records

  /** Stored form of a record: the pattern number, then the gaps; a record that no pattern fits is one gap. */
  ghost predicate IsEncoding(table: seq<seq<Word>>, id: nat, s: Word, gaps: seq<Word>, e: Word) {
    && id <= |table| < 65536
    && e == [id / 256, id % 256] + Fields(gaps)
    && if id == |table| then gaps == [s] else |table[id]| == |gaps| + 1 >= 2 && Interleave(table[id], gaps) == s
  }

  function PatternNumber(high: nat, low: nat): nat { high * 256 + low }

  ghost predicate GoodTable(table: seq<seq<Word>>) {
    forall id :: 0 <= id < |table| ==> |table[id]| >= 2 && InteriorFull(table[id]) && table[id][|table[id]| - 1] == []
  }

  /** DecompressUsingPatternWithLength, on a buffer that goes on behind the input. */
  function DecodeRecord(table: seq<seq<Word>>, buf: Word, len: nat): Decoded
    requires len < |buf| && forall id :: 0 <= id < |table| ==> table[id] != []
  {
    if len < 2 then Refused
    else
      var id := PatternNumber(buf[0], buf[1]);
      if id == |table| then DecodeRaw(buf, len)
      else if id > |table| then Refused
      else DecodeSegments(table[id], buf, len)
  }

  /** A record in which an overlong field is reached; the field in front of the first segment is overlong only if the
      sum, having wrapped around, stays within the input. */
  predicate OverlongRecord(table: seq<seq<Word>>, buf: Word, len: nat)
    requires 2 <= len < |buf|
  {
    var id := PatternNumber(buf[0], buf[1]);
    id < |table| && table[id] != [] &&
    if table[id][0] == [] then
      var (size, used) := ReadVarint(buf, 2);
      var end := 2 + used + size;
      WORD <= end <= WORD + len + 1 || (end <= len + 1 && Overlong(table[id], buf, len, 0, end))
    else Overlong(table[id], buf, len, 0, 2)
  }

  /** The decoder copies past its input exactly for these inputs. */
  lemma {:induction false} PastInputRecord(table: seq<seq<Word>>, buf: Word, len: nat)
    requires len < |buf| && len < MAX_LENGTH && forall id :: 0 <= id < |table| ==> table[id] != []
    ensures DecodeRecord(table, buf, len) == PastInput <==> len >= 2 && OverlongRecord(table, buf, len)
  {
    hide ReadVarint, EndsBehind, Overlong;
    if len >= 2 {
      var id := PatternNumber(buf[0], buf[1]);
      if id < |table| {
        var segs := table[id];
        if segs[0] == [] {
          var (size, used) := ReadVarint(buf, 2);
          VarintRange(buf, 2);
          TestOfEnd(2 + used, size, len);
          if 2 + used + size >= WORD { WrappedTest(2 + used, size, len); }
          if 2 + used + size <= len + 1 { PastInputExactly(segs, buf, len, 0, 2 + used + size, buf[2 + used..2 + used + size]); }
        } else {
          PastInputExactly(segs, buf, len, 0, 2, []);
        }
      }
    }
  }

  /** A record of no pattern of the list is refused exactly if it is too short for its number, its number is behind the one for such
      records, or its length ends more than a byte behind the input; otherwise it is restored. */
  lemma {:induction false} RawRecord(table: seq<seq<Word>>, buf: Word, len: nat)
    requires len < |buf| && |buf| >= 2 && PatternNumber(buf[0], buf[1]) >= |table| && forall id :: 0 <= id < |table| ==> table[id] != []
    ensures
      var (size, used) := ReadVarint(buf, 2);
      if len < 2 || PatternNumber(buf[0], buf[1]) > |table| || 2 + used + size > len + 1 then DecodeRecord(table, buf, len) == Refused
      else DecodeRecord(table, buf, len) == Restored(buf[2 + used..2 + used + size])
  {
    hide ReadVarint;
  }

  /** Without a byte 15 behind the first six it never does, whatever the record. */
  lemma {:induction false} NoFifteenRecord(table: seq<seq<Word>>, buf: Word, len: nat)
    requires len < |buf| && len < 0x1000_0000 - 6
    requires (forall id :: 0 <= id < |table| ==> table[id] != []) && forall k :: 6 <= k < |buf| ==> buf[k] != 15
    ensures DecodeRecord(table, buf, len) != PastInput
  {
    hide ReadVarint, Overlong, DecodeRecord;
    PastInputRecord(table, buf, len);
    if len >= 2 && PatternNumber(buf[0], buf[1]) < |table| {
      var segs := table[PatternNumber(buf[0], buf[1])];
      if segs[0] == [] {
        var (size, used) := ReadVarint(buf, 2);
        VarintRange(buf, 2);
        if 2 + used + size >= WORD { OverlongBytes(buf, 2, len); }
        if 2 + used + size <= len + 1 { NoFifteenNoOverrun(segs, buf, len, 0, 2 + used + size); }
      } else {
        NoFifteenNoOverrun(segs, buf, len, 0, 2);
      }
    }
  }

  lemma {:induction false} WrappedTest(q: nat, size: nat, len: nat)
    requires q <= 8 && size < WORD && len < MAX_LENGTH && q + size >= WORD
    ensures EndsBehind(q, size, len) <==> q + size > WORD + len + 1
  {}

  lemma {:induction false} EncodingHolds(table: seq<seq<Word>>, id: nat, s: Word, gaps: seq<Word>, e: Word, buf: Word)
    requires GoodTable(table) && IsEncoding(table, id, s, gaps, e) && AllStorable(gaps) && e <= buf && |e| < MAX_LENGTH
    ensures Holds(buf, gaps) && |e| == FieldAt(gaps, |gaps|) && gaps != []
    ensures NoNewline(s) ==> forall i :: 0 <= i < |gaps| ==> NoNewline(gaps[i])
    ensures |e| >= 2 && PatternNumber(buf[0], buf[1]) == id
  {
    hide Fields, Interleave;
    assert gaps[..|gaps|] == gaps;
    assert buf[2..|e|] == e[2..] == Fields(gaps);
    if id < |table| && NoNewline(s) { GapsWithoutNewline(table[id], gaps); }
  }

  /** Decoding whole or cut: the record comes back, or nothing. */
  lemma {:induction false} DecodeCut(table: seq<seq<Word>>, id: nat, s: Word, gaps: seq<Word>, e: Word, buf: Word, len: nat, f: nat)
    requires GoodTable(table) && IsEncoding(table, id, s, gaps, e) && AllStorable(gaps) && e <= buf
    requires |e| < MAX_LENGTH && len < |buf| && len < MAX_LENGTH && CutAfter(gaps, len, f)
    ensures DecodeRecord(table, buf, len) == if f == |gaps| then Restored(s) else Refused
  {
    hide Fields, Interleave, VarintBytes, ReadVarint, Holds;
    EncodingHolds(table, id, s, gaps, e, buf);
    FirstField(gaps);
    FieldsBefore(gaps, 0, f);
    if id == |table| {
      ReadField(buf, gaps, 0);
    } else {
      DecodeStart(table[id], gaps, buf, len, f);
    }
  }

  /** A record comes back from its stored form, whatever follows in the buffer. */
  lemma {:induction false} RecordRoundTrip(table: seq<seq<Word>>, id: nat, s: Word, gaps: seq<Word>, e: Word, rest: Word)
    requires GoodTable(table) && IsEncoding(table, id, s, gaps, e) && AllStorable(gaps) && rest != []
    requires |e| < MAX_LENGTH
    ensures DecodeRecord(table, e + rest, |e|) == Restored(s)
  {
    hide Fields, Interleave;
    EncodingHolds(table, id, s, gaps, e, e + rest);
    DecodeCut(table, id, s, gaps, e, e + rest, |e|, |gaps|);
  }

  /** For a record without newlines every cut of the stored form at one of its newline bytes is refused,
      as long as the bytes behind the cut are still in the buffer. */
  lemma {:induction false} CutIsRefused(table: seq<seq<Word>>, id: nat, s: Word, gaps: seq<Word>, e: Word, rest: Word, c: nat)
    requires GoodTable(table) && IsEncoding(table, id, s, gaps, e) && AllStorable(gaps) && NoNewline(s)
    requires c < |e| < MAX_LENGTH && e[c] == NEWLINE
    ensures DecodeRecord(table, e + rest, c) == Refused
  {
    if c >= 2 {
      hide Fields, Interleave;
      EncodingHolds(table, id, s, gaps, e, e + rest);
      assert gaps[..|gaps|] == gaps && e[c] == Fields(gaps)[c - 2];
      var f := NewlineIsInLength(gaps, c);
      DecodeCut(table, id, s, gaps, e, e + rest, c, f);
    }
  }

  /** Without those bytes it is not: ten characters that fit no pattern, cut at their length byte with a
      zero behind it, decode to the empty record. */
  lemma {:induction false} CutNeedsFollowingBytes(table: seq<seq<Word>>, s: Word)
    requires |table| == 0 && |s| == 10
    ensures IsEncoding(table, 0, s, [s], [0, 0, NEWLINE] + s)
    ensures DecodeRecord(table, [0, 0, 0], 2) == Restored([])
  {
    assert [s][..0] == [];
    assert Fields([s]) == Fields([]) + Field(s);
    assert Field(s) == [NEWLINE] + s;
    assert ReadVarint([0, 0, 0], 2) == (0, 1);
    assert [0, 0, 0][3..3] == [];
  }
}
