/** What is written is read back when a byte follows the header, and when no symbol is absent; in a buffer that the
    header fills, exactly when no run of absent symbols is stale in front of bits in the last byte. */
module NCountRoundTrip {
  import opened Powers
  import opened Bytes
  import opened BitStream
  import opened FseTables
  import opened NCountFormat
  import opened NCountWriter
  import opened NCountBound
  import opened NCountRuns
  import opened NCountReader

  /** Counts whose header is misread from a buffer that it fills. */
  ghost predicate Unreadable(norm: seq<int>, tableLog: nat)
    requires Summed(norm, tableLog)
  {
    var size := (Len(Header(norm, tableLog)) + 7) / 8;
    size > 0 && Misread(Value(Header(norm, tableLog)), size, norm, tableLog, 0, false, 4)
  }

  /** Writing counts and reading them back from a buffer where `tail` follows the header. */
  method RoundTrip(norm: seq<int>, tableLog: nat, out: array<Byte>, tail: seq<Byte>, counts: array<int>)
    returns (written: Result, read: ReadResult)
    requires Summed(norm, tableLog) && 1 <= |norm| <= counts.Length
    modifies out, counts
    ensures written.Ok? <==> Touched(Header(norm, tableLog)) <= out.Length
    ensures written.Ok? && tail == [] ==> (Recovered(read, counts[..], norm, tableLog) <==> !Unreadable(norm, tableLog))
    ensures written.Ok? && tail != [] ==> Recovered(read, counts[..], norm, tableLog)
    ensures written.Ok? && (forall s :: 0 <= s < |norm| ==> norm[s] != 0) ==> Recovered(read, counts[..], norm, tableLog)
  {
    hide Len, Value, Header, HeaderBytes, Summed, Misread, Recovered;
    SummedRange(norm, tableLog);
    SummedFrom(norm, tableLog);
    written := WriteNCount(out, norm, tableLog);
    if !written.Ok? { return written, Corruption; }
    var buf := out[..written.size] + tail;
    assert buf[..written.size] == out[..written.size];
    HeaderBytesSize(out[..written.size], Header(norm, tableLog));
    read := ReadNCount(buf, counts.Length - 1, counts, norm, tableLog);
    if tail != [] { ByteFollows(buf, norm, tableLog); } else { assert buf == out[..written.size]; }
    if buf != [] && forall s :: 0 <= s < |norm| ==> norm[s] != 0 { NoRunNotMisread(FromLE(buf), |buf|, norm, tableLog, 0, 4); }
  }

  lemma {:induction false} SummedFrom(norm: seq<int>, tableLog: nat)
    requires Summed(norm, tableLog)
    ensures forall s :: 0 <= s < |norm| ==> -1 <= norm[s]
  {}

  // ---------------------------------------------------------------- headers that are never misread

  /** Without absent symbols there are no runs. */
  lemma {:induction false} NoRunNotMisread(v: nat, n: nat, norm: seq<int>, tableLog: nat, i: nat, p: nat)
    requires n > 0 && i <= |norm| && forall s :: 0 <= s < |norm| ==> -1 <= norm[s] && norm[s] != 0
    ensures !Misread(v, n, norm, tableLog, i, false, p)
    decreases |norm| - i
  {
    hide Base, Pow2, CountField, LastByteBelow, StageEnd, StaleRun;
    if Remaining(norm, tableLog, i) > 1 && i < |norm| {
      NoRunNotMisread(v, n, norm, tableLog, i + 1, StageEnd(norm, tableLog, i, false, p));
    }
  }

  /** A header that ends before the last byte has no bits there. */
  lemma {:induction false} EndsBefore(v: nat, n: nat, norm: seq<int>, tableLog: nat, i: nat, previous0: bool, p: nat)
    requires n > 0 && Summed(norm, tableLog) && i <= |norm| && p + Len(FieldsFrom(norm, tableLog, i, previous0)) <= 8 * (n - 1)
    ensures !Misread(v, n, norm, tableLog, i, previous0, p)
    decreases |norm| - i
  {
    hide Base, Pow2, HighBit, CountField, StaleRun, FieldsFrom, Len, NextNonzero, ZeroRun, Summed, LastByteBelow;
    var j := CountedNext(norm, i, previous0);
    SummedFrom(norm, tableLog);
    if Remaining(norm, tableLog, i) > 1 && j < |norm| {
      NextFields(norm, tableLog, i, previous0);
      var f, rest := CountField(norm[j], Remaining(norm, tableLog, i)), FieldsFrom(norm, tableLog, j + 1, norm[j] == 0);
      LenParts(if previous0 then ZeroRun(j - i) else [], f, rest);
      if previous0 { RunLengthBits(j - i); }
      NothingThere(v, n, StageEnd(norm, tableLog, i, previous0, p));
      EndsBefore(v, n, norm, tableLog, j + 1, norm[j] == 0, StageEnd(norm, tableLog, i, previous0, p));
    }
  }

  lemma {:induction false} NothingThere(v: nat, n: nat, q: nat)
    requires n > 0 && q <= 8 * (n - 1)
    ensures LastByteBelow(v, n, q) == 0
  {
    hide Low, Shr;
    LowShr(v, q);
    Pow2Mono(q, 8 * (n - 1));
    LowSmall(Low(v, q), 8 * (n - 1));
  }

  /** When a byte follows the header it is read right. */
  lemma {:induction false} ByteFollows(buf: seq<Byte>, norm: seq<int>, tableLog: nat)
    requires HasHeader(buf, norm, tableLog) && (Len(Header(norm, tableLog)) + 7) / 8 < |buf|
    ensures !HeaderMisread(buf, norm, tableLog)
  {
    hide Base, Pow2, FieldsFrom, Len, Value, FromLE, Misread;
    LenParts([], Field(tableLog - MIN_TABLELOG, 4), FieldsFrom(norm, tableLog, 0, false));
    assert [] + Header(norm, tableLog) == Header(norm, tableLog);
    EndsBefore(FromLE(buf), |buf|, norm, tableLog, 0, false, 4);
  }

  // ---------------------------------------------------------------- a header that is misread

  /** Two symbols with cells, 31 absent ones between them. */
  function WideGap(): (norm: seq<int>)
    ensures |norm| == 33 && norm[0] == 1 && norm[32] == 31 && forall s :: 1 <= s < 32 ==> norm[s] == 0
  {
    [1] + seq(31, i => 0) + [31]
  }

  lemma {:induction false} WideGapSums()
    ensures Summed(WideGap(), 5)
    ensures Remaining(WideGap(), 5, 0) == 33 && Remaining(WideGap(), 5, 1) == Remaining(WideGap(), 5, 2) == 32
    ensures Remaining(WideGap(), 5, 33) == 1
  {
    var norm := WideGap();
    assert Pow2(5) == 32;
    assert Base(norm, 0) == 0 && Base(norm, 1) == 1;
    ZerosTakeNothing(norm, 1, 2);
    ZerosTakeNothing(norm, 2, 32);
    assert Base(norm, 33) == 32;
  }

  lemma {:induction false} WideGapCodes()
    ensures CountField(1, 33) == Field(2, 5) && CountField(0, 32) == Field(1, 5) && CountField(31, 32) == Field(63, 6)
    ensures ZeroRun(30) == [Field(0xFFFF, 16), Field(3, 2), Field(3, 2), Field(0, 2)]
  {
    HighBitUnique(33, 5);
    HighBitUnique(32, 5);
    assert ZeroRun(30) == [Field(0xFFFF, 16)] + ZeroRun(6) && ZeroRun(6) == [Field(3, 2)] + ZeroRun(3);
  }

  lemma {:induction false} WideGapHeader()
    ensures Summed(WideGap(), 5)
    ensures FieldsFrom(WideGap(), 5, 2, true) == ZeroRun(30) + [Field(63, 6)]
    ensures Header(WideGap(), 5) == [Field(0, 4), Field(2, 5), Field(1, 5)] + FieldsFrom(WideGap(), 5, 2, true)
  {
    hide Base, ZeroRun, CountField, Remaining;
    var norm := WideGap();
    WideGapSums();
    WideGapCodes();
    assert NextNonzero(norm, 2) == 32;
    assert FieldsFrom(norm, 5, 33, false) == [];
    assert FieldsFrom(norm, 5, 2, true) == ZeroRun(30) + ([Field(63, 6)] + []);
    assert FieldsFrom(norm, 5, 1, false) == [] + ([Field(1, 5)] + FieldsFrom(norm, 5, 2, true));
    assert FieldsFrom(norm, 5, 0, false) == [] + ([Field(2, 5)] + FieldsFrom(norm, 5, 1, false));
  }

  lemma {:induction false} ValueStep(f: Field, fs: seq<Field>)
    ensures Value([f] + fs) == f.value + Value(fs) * Pow2(f.width) && Len([f] + fs) == f.width + Len(fs)
  {
    assert ([f] + fs)[1..] == fs;
    ShiftMeaning(Value(fs), f.width);
  }

  /** The run and the count after it, as a number. */
  lemma {:induction false} WideGapRun()
    ensures Value([Field(0xFFFF, 16), Field(3, 2), Field(3, 2), Field(0, 2), Field(63, 6)]) == 265289727
    ensures Len([Field(0xFFFF, 16), Field(3, 2), Field(3, 2), Field(0, 2), Field(63, 6)]) == 28
  {
    hide Value, Len, Pow2;
    LiteralPowers();
    var f63, f0, f3 := [Field(63, 6)], [Field(0, 2)], [Field(3, 2)];
    OneField(63, 6);
    ValueStep(Field(0, 2), f63);
    ValueStep(Field(3, 2), f0 + f63);
    ValueStep(Field(3, 2), f3 + (f0 + f63));
    ValueStep(Field(0xFFFF, 16), f3 + (f3 + (f0 + f63)));
    assert [Field(0xFFFF, 16)] + (f3 + (f3 + (f0 + f63))) == [Field(0xFFFF, 16), Field(3, 2), Field(3, 2), Field(0, 2), Field(63, 6)];
  }

  lemma {:induction false} LiteralPowers()
    ensures Pow2(2) == 4 && Pow2(4) == 16 && Pow2(5) == 32 && Pow2(6) == 64 && Pow2(8) == 256 && Pow2(14) == 16384 && Pow2(16) == 65536
    ensures Pow2(18) == 0x40000 && Pow2(20) == 0x100000 && Pow2(22) == 0x400000 && Pow2(24) == 0x1000000
    ensures Pow2(26) == 0x4000000 && Pow2(28) == 0x10000000 && Pow2(32) == 0x1_0000_0000 && Pow2(36) == 0x10_0000_0000
  {
    assert Pow2(10) == 1024 && Pow2(12) == 4096 && Pow2(30) == 0x40000000 && Pow2(34) == 0x4_0000_0000;
  }

  lemma {:induction false} WideGapValue()
    requires Summed(WideGap(), 5)
    ensures Value(Header(WideGap(), 5)) == 4346506887712 && Len(Header(WideGap(), 5)) == 42
  {
    hide Value, Len, Pow2, FieldsFrom, ZeroRun, Header;
    WideGapHeader();
    WideGapCodes();
    WideGapRun();
    LiteralPowers();
    var run := FieldsFrom(WideGap(), 5, 2, true);
    assert run == [Field(0xFFFF, 16), Field(3, 2), Field(3, 2), Field(0, 2), Field(63, 6)];
    ValueStep(Field(1, 5), run);
    ValueStep(Field(2, 5), [Field(1, 5)] + run);
    ValueStep(Field(0, 4), [Field(2, 5)] + ([Field(1, 5)] + run));
    assert Header(WideGap(), 5) == [Field(0, 4)] + ([Field(2, 5)] + ([Field(1, 5)] + run));
  }

  /** Without a byte after it this header is misread. The run of absent symbols starts in byte 1 of the six, so the
      register is not moved on but shifted; byte 5 stays out of it, where the last count has two of its bits. */
  lemma {:induction false} WideGapMisread()
    ensures Summed(WideGap(), 5) && Unreadable(WideGap(), 5)
  {
    hide Base, Len, Value, Header, ZeroRun, CountField, LastByteBelow, HighBit, WideGap, Summed, Misread;
    WideGapSums();
    WideGapValue();
    WideGapLastByte();
    WideGapStages(4346506887712);
  }

  /** So the counts are written, and what is read is something else. */
  method WideGapLost(out: array<Byte>, counts: array<int>) returns (written: Result, read: ReadResult)
    requires out.Length >= 25 && counts.Length >= 33
    modifies out, counts
    ensures Summed(WideGap(), 5) && written.Ok? && !Recovered(read, counts[..], WideGap(), 5)
  {
    hide Summed, Unreadable, Header, Touched, Recovered, Misread;
    WideGapMisread();
    BoundAndTwo(WideGap(), 5);
    assert WriteBound(|WideGap()|, 5) == 23;
    written, read := RoundTrip(WideGap(), 5, out, [], counts);
  }

  lemma {:induction false} WideGapStages(v: nat)
    requires Summed(WideGap(), 5) && LastByteBelow(v, 6, 42) != 0
    ensures Misread(v, 6, WideGap(), 5, 0, false, 4)
  {
    hide Base, CountField, LastByteBelow, HighBit, WideGap, Summed;
    var norm := WideGap();
    SummedFrom(norm, 5);
    WideGapSums();
    WideGapCodes();
    assert NextNonzero(norm, 2) == 32;
    assert BadStage(v, 6, norm, 5, 2, true, 14);
    assert Misread(v, 6, norm, 5, 2, true, 14);
    assert Misread(v, 6, norm, 5, 1, false, 9);
  }

  lemma {:induction false} WideGapLastByte()
    ensures LastByteBelow(4346506887712, 6, 42) == 3
  {
    hide Low, Shr, Pow2;
    LiteralPowers();
    LargePowers();
    LowSmall(4346506887712, 42);
    ShiftMeaning(4346506887712, 40);
  }

  lemma {:induction false} LargePowers()
    ensures Pow2(40) == 0x100_0000_0000 && Pow2(42) == 0x400_0000_0000
  {
    LiteralPowers();
    assert Pow2(38) == 4 * Pow2(36);
  }
}
