/** A stored record cut at a newline byte, with other bytes behind the cut than those of the record. */
module RecordCuts {
  import opened Bytes
  import opened Varint
  import opened RecordFormat
  import opened RecordCodec
  import opened RecordDecoding

  /** The bytes of a length but the last are continued, and there are at most four of them. */
  lemma {:induction false} ContinuedBytes(v: nat, k: nat)
    requires v < WORD && k < |VarintBytes(v)|
    ensures k <= 4 && forall l :: 0 <= l < k ==> VarintBytes(v)[l] >= 128
  {
    VarintParts(v);
  }

  /** So whatever follows, the length that is read ends behind the cut, or has five bytes the last of which is too large. */
  lemma {:induction false} ReadsOn(buf: Word, p: nat, c: nat)
    requires p <= c <= p + 4 && c <= |buf| && forall k :: p <= k < c ==> buf[k] >= 128
    ensures ReadVarint(buf, p) == (0, 0) || p + ReadVarint(buf, p).1 > c
  {
    assert c > p ==> ByteAt(buf, p) >= 128;
    assert c > p + 1 ==> ByteAt(buf, p + 1) >= 128;
    assert c > p + 2 ==> ByteAt(buf, p + 2) >= 128;
    assert c > p + 3 ==> ByteAt(buf, p + 3) >= 128;
  }

  /** A length whose fifth byte is too large is read as zero, again and again: all gaps that are left are empty. */
  lemma {:induction false} EmptyRun(segs: seq<Word>, buf: Word, len: nat, i: nat, p: nat, acc: Word)
    requires 1 <= i <= |segs| && InteriorFull(segs) && segs[|segs| - 1] == [] && p <= len < |buf| && len < MAX_LENGTH
    requires ReadVarint(buf, p) == (0, 0)
    ensures DecodeFrom(segs, buf, len, i, p, acc).Restored?
    decreases |segs| - i
  {
    hide ReadVarint;
    if i < |segs| {
      TestOfEnd(p, 0, len);
      EmptyRun(segs, buf, len, i + 1, p, acc + segs[i] + if segs[i] == [] then [] else buf[p..p]);
      assert segs[i] == [] ==> acc + segs[i] + [] == acc;
    }
  }

  /** At the cut a field behind a segment is refused unless its length has such a fifth byte. */
  lemma {:induction false} FieldAtCut(segs: seq<Word>, buf: Word, len: nat, i: nat, p: nat, acc: Word)
    requires i < |segs| - 1 && InteriorFull(segs) && segs[|segs| - 1] == [] && segs[i] != [] && p <= len < |buf| && len < MAX_LENGTH
    requires ReadVarint(buf, p) == (0, 0) || p + ReadVarint(buf, p).1 > len
    ensures DecodeFrom(segs, buf, len, i, p, acc).Restored? <==> ReadVarint(buf, p) == (0, 0)
  {
    hide ReadVarint;
    if ReadVarint(buf, p) == (0, 0) {
      TestOfEnd(p, 0, len);
      EmptyRun(segs, buf, len, i + 1, p, acc + segs[i] + buf[p..p]);
    }
  }

  /** The field in front of an empty first segment may also be read as the length zero that ends one behind the cut, and this
      is all there is. */
  lemma {:induction false} FirstFieldAtCut(segs: seq<Word>, buf: Word, len: nat)
    requires |segs| >= 2 && InteriorFull(segs) && segs[|segs| - 1] == [] && segs[0] == [] && 2 <= len < |buf| && len < MAX_LENGTH
    requires ReadVarint(buf, 2) == (0, 0) || 2 + ReadVarint(buf, 2).1 > len
    ensures DecodeSegments(segs, buf, len).Restored? <==> ReadVarint(buf, 2) == (0, 0) || (ReadVarint(buf, 2) == (0, len - 1) && |segs| == 2)
  {
    hide ReadVarint;
    var (size, used) := ReadVarint(buf, 2);
    VarintRange(buf, 2);
    TestOfEnd(2 + used, size, len);
    if (size, used) == (0, 0) {
      EmptyRun(segs, buf, len, 1, 2, []);
      assert buf[2..2] == [];
    } else if (size, used) == (0, len - 1) {
      assert buf[len + 1..len + 1] == [];
      SecondField(segs, buf, len);
    } else if 2 + used + size < WORD {
      assert 2 + used + size > len + 1;
    }
  }

  lemma {:induction false} SecondField(segs: seq<Word>, buf: Word, len: nat)
    requires |segs| >= 2 && InteriorFull(segs) && segs[|segs| - 1] == [] && segs[0] == [] && len < |buf| && len < MAX_LENGTH
    ensures DecodeFrom(segs, buf, len, 0, len + 1, []).Restored? <==> |segs| == 2
  {
    hide ReadVarint;
    if |segs| == 2 {
      assert DecodeFrom(segs, buf, len, 2, len + 1, []) == Restored([]);
    } else {
      var (size, used) := ReadVarint(buf, len + 1);
      assert segs[1] != [] && len + 1 + used > len;
      assert DecodeFrom(segs, buf, len, 1, len + 1, []) == Refused;
    }
  }

  /** Up to the field that is cut the decoder goes on as with the whole record. */
  lemma {:induction false} ReachesCut(segs: seq<Word>, gaps: seq<Word>, buf: Word, len: nat, f: nat, i: nat, acc: Word) returns (acc': Word)
    requires |segs| == |gaps| + 1 && InteriorFull(segs) && f < |gaps| && Holds(buf, gaps[..f])
    requires FieldAt(gaps, f) <= len < |buf| && len < MAX_LENGTH && i <= f && (i == 0 ==> segs[0] != [])
    ensures DecodeFrom(segs, buf, len, i, FieldAt(gaps, i), acc) == DecodeFrom(segs, buf, len, f, FieldAt(gaps, f), acc')
    decreases f - i
  {
    hide Fields, VarintBytes, ReadVarint, Holds;
    acc' := acc;
    if i < f {
      assert gaps[..f][..i] == gaps[..i] && gaps[..f][..i + 1] == gaps[..i + 1] && gaps[..f][..f] == gaps[..f];
      FieldsBefore(gaps[..f], i, f);
      FieldsBefore(gaps[..f], i + 1, f);
      ReadField(buf, gaps[..f], i);
      FieldTest(buf, gaps[..f], i, len);
      assert segs[i] != [];
      acc' := ReachesCut(segs, gaps, buf, len, f, i + 1, acc + segs[i] + gaps[i]);
    }
  }

  /** The length of the field that is cut, as it is read. */
  function LengthAtCut(gaps: seq<Word>, buf: Word, f: nat): (nat, nat)
    requires f <= |gaps|
  {
    ReadVarint(buf, FieldAt(gaps, f))
  }

  lemma {:induction false} PrefixHolds(gaps: seq<Word>, e: Word, buf: Word, c: nat, f: nat)
    requires Holds(e, gaps) && f < |gaps| && CutAfter(gaps, c, f) && c < |e| && c <= |buf| && buf[..c] == e[..c]
    ensures Holds(buf, gaps[..f])
    ensures LengthAtCut(gaps, buf, f) == (0, 0) || FieldAt(gaps, f) + LengthAtCut(gaps, buf, f).1 > c
  {
    hide Fields, VarintBytes, ReadVarint, AllStorable;
    var p := FieldAt(gaps, f);
    FieldsBefore(gaps, f, |gaps|);
    ReadField(e, gaps, f);
    FrontHolds(gaps, e, f);
    SameFront(e, buf, c, 2, p);
    assert gaps[..f][..f] == gaps[..f];
    AllStorableFront(gaps, f);
    ContinuedBytes(|gaps[f]|, c - p);
    LengthGoesOn(e, buf, c, p, VarintBytes(|gaps[f]|));
    ReadsOn(buf, p, c);
  }

  lemma {:induction false} FrontHolds(gaps: seq<Word>, e: Word, f: nat)
    requires Holds(e, gaps) && f < |gaps|
    ensures FieldAt(gaps, f) <= |e| && e[2..FieldAt(gaps, f)] == Fields(gaps[..f])
  {
    hide Fields;
    FieldsBefore(gaps, f, |gaps|);
    FrontOfFields(gaps, f);
    assert gaps[..|gaps|] == gaps;
    assert e[2..FieldAt(gaps, |gaps|)][..FieldAt(gaps, f) - 2] == e[2..FieldAt(gaps, f)];
  }

  lemma {:induction false} FrontOfFields(gaps: seq<Word>, f: nat)
    requires f < |gaps|
    ensures Fields(gaps[..f]) <= Fields(gaps)
  {
    hide Fields;
    FieldsPrefix(gaps, f);
  }

  lemma {:induction false} AllStorableFront(gaps: seq<Word>, f: nat)
    requires AllStorable(gaps) && f < |gaps|
    ensures AllStorable(gaps[..f]) && |gaps[f]| < WORD
  {}

  lemma {:induction false} SameFront(e: Word, buf: Word, c: nat, from: nat, to: nat)
    requires from <= to <= c <= |e| && c <= |buf| && buf[..c] == e[..c]
    ensures buf[from..to] == e[from..to]
  {
    assert buf[from..to] == buf[..c][from..to] && e[from..to] == e[..c][from..to];
  }

  lemma {:induction false} LengthGoesOn(e: Word, buf: Word, c: nat, p: nat, v: Word)
    requires p <= c <= |e| && c <= |buf| && buf[..c] == e[..c] && p + |v| <= |e| && e[p..p + |v|] == v && c < p + |v|
    requires forall l :: 0 <= l < c - p ==> v[l] >= 128
    ensures forall k :: p <= k < c ==> buf[k] >= 128
  {
    forall k | p <= k < c ensures buf[k] >= 128 {
      assert buf[k] == buf[..c][k] == e[..c][k] == e[p..p + |v|][k - p] == v[k - p];
    }
  }

  /** A cut at a newline byte, with any bytes behind it: something is restored if and only if the bytes behind make the length
      that is cut one whose fifth byte is too large, or zero, one byte behind the cut, in a record that is a single gap. */
  lemma {:induction false} CutWithOtherBytes(table: seq<seq<Word>>, id: nat, s: Word, gaps: seq<Word>, e: Word, rest: Word, c: nat) returns (f: nat)
    requires GoodTable(table) && IsEncoding(table, id, s, gaps, e) && AllStorable(gaps) && NoNewline(s)
    requires 2 <= c < |e| < MAX_LENGTH && e[c] == NEWLINE && rest != []
    ensures f < |gaps| && CutAfter(gaps, c, f)
    ensures
      var buf := e[..c] + rest;
      DecodeRecord(table, buf, c).Restored? <==>
        || LengthAtCut(gaps, buf, f) == (0, 0)
        || (LengthAtCut(gaps, buf, f) == (0, c - 1) && f == 0 && |gaps| == 1 && (id == |table| || table[id][0] == []))
  {
    hide Fields, Interleave, VarintBytes, ReadVarint, Holds, DecodeFrom, CutAfter;
    var buf := e[..c] + rest;
    EncodingHolds(table, id, s, gaps, e, e);
    assert gaps[..|gaps|] == gaps && e[c] == Fields(gaps)[c - 2];
    f := NewlineIsInLength(gaps, c);
    PrefixHolds(gaps, e, buf, c, f);
    FirstField(gaps);
    assert PatternNumber(buf[0], buf[1]) == id;
    if id < |table| {
      CutInPattern(table[id], gaps, buf, c, f);
    }
  }

  lemma {:induction false} CutInPattern(segs: seq<Word>, gaps: seq<Word>, buf: Word, c: nat, f: nat)
    requires |segs| == |gaps| + 1 >= 2 && InteriorFull(segs) && segs[|segs| - 1] == [] && 2 <= c < |buf| && c < MAX_LENGTH
    requires f < |gaps| && CutAfter(gaps, c, f) && Holds(buf, gaps[..f])
    requires LengthAtCut(gaps, buf, f) == (0, 0) || FieldAt(gaps, f) + LengthAtCut(gaps, buf, f).1 > c
    ensures DecodeSegments(segs, buf, c).Restored? <==>
      || LengthAtCut(gaps, buf, f) == (0, 0)
      || (LengthAtCut(gaps, buf, f) == (0, c - 1) && f == 0 && |gaps| == 1 && segs[0] == [])
  {
    hide Fields, VarintBytes, ReadVarint, DecodeFrom, Holds, EndsBehind;
    FirstField(gaps);
    var p := FieldAt(gaps, f);
    if f == 0 && segs[0] == [] {
      FirstFieldAtCut(segs, buf, c);
    } else {
      var acc: Word := [];
      if segs[0] == [] {
        FirstGap(segs, gaps, buf, c, f);
        acc := ReachesCut(segs, gaps, buf, c, f, 1, gaps[0]);
      } else {
        acc := ReachesCut(segs, gaps, buf, c, f, 0, []);
      }
      FieldAtCut(segs, buf, c, f, p, acc);
    }
  }

  lemma {:induction false} FirstGap(segs: seq<Word>, gaps: seq<Word>, buf: Word, c: nat, f: nat)
    requires |segs| == |gaps| + 1 >= 2 && segs[0] == [] && 0 < f < |gaps|
    requires Holds(buf, gaps[..f]) && FieldAt(gaps, f) <= c < |buf| && c < MAX_LENGTH
    ensures DecodeSegments(segs, buf, c) == DecodeFrom(segs, buf, c, 1, FieldAt(gaps, 1), gaps[0])
  {
    hide Fields, VarintBytes, ReadVarint, Holds;
    FirstField(gaps);
    assert gaps[..f][..0] == gaps[..0] && gaps[..f][..1] == gaps[..1] && gaps[..f][..f] == gaps[..f];
    FieldsBefore(gaps[..f], 0, f);
    FieldsBefore(gaps[..f], 1, f);
    ReadField(buf, gaps[..f], 0);
    FieldTest(buf, gaps[..f], 0, c);
  }
}
