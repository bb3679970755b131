/** Writing normalized counts: a register of at most 32 bits, spilled two bytes at a time. */
module NCountWriter {
  import opened Powers
  import opened Bytes
  import opened BitStream
  import opened FseTables
  import opened NCountFormat

  /** `PastEnd` reports that an unwatched store has gone beyond the buffer. */
  datatype Result = Ok(size: nat) | DstSizeTooSmall | Generic | TableLogTooLarge | PastEnd

  class Writer {
    const out: array<Byte>
    var pos: nat
    var bitStream: nat
    var bitCount: nat
    /** All fields written so far. */
    ghost var done: seq<Field>

    constructor (out: array<Byte>)
      ensures Valid() && this.out == out && done == [] && bitCount == 0
    {
      this.out := out;
      pos, bitStream, bitCount, done := 0, 0, 0, [];
      new;
      EmptyStream(out[..0]);
      ShlZeroBits(0);
    }

    ghost predicate Valid()
      reads this, out
    {
      && pos <= out.Length && pos % 2 == 0 && bitStream < Pow2(bitCount) && bitCount <= 32
      && 8 * pos + bitCount == Len(done)
      && FromLE(out[..pos]) + Shl(bitStream, 8 * pos) == Value(done)
    }

    method Add(value: nat, width: nat)
      requires Valid() && value < Pow2(width) && bitCount + width <= 32
      modifies this`bitStream, this`bitCount, this`done
      ensures Valid() && done == old(done) + [Field(value, width)] && bitCount == old(bitCount) + width
    {
      hide Pow2, Shl, FromLE, Value, Len;
      Concat(done, [Field(value, width)]);
      OneField(value, width);
      ShlAdd(bitStream, Shl(value, bitCount), 8 * pos);
      ShlShl(value, bitCount, 8 * pos);
      ShlBound(value, width, bitCount);
      bitStream := bitStream + Shl(value, bitCount);
      bitCount := bitCount + width;
      done := done + [Field(value, width)];
    }

    /** Spills two bytes if there is room. Where there is none, the watched mode refuses and the unwatched mode stores
        behind the buffer; both end the run here. */
    method Spill() returns (ok: bool)
      requires Valid() && bitCount >= 16
      modifies this`pos, this`bitStream, this`bitCount, out
      ensures ok <==> old(pos) + 2 <= out.Length
      ensures ok ==> Valid() && bitCount == old(bitCount) - 16
    {
      hide Pow2, Shl, Shr, Low, FromLE, ToLE, Value, Len;
      if pos + 2 > out.Length { return false; }
      Take2(out, pos, bitStream);
      SpillValue(out[..], old(out[..pos]), pos, bitStream, bitCount);
      pos := pos + 2;
      bitStream := Shr(bitStream, 16);
      bitCount := bitCount - 16;
      ok := true;
    }

    /** What has been written and what is still to be written make up the header. */
    ghost predicate Writing(rest: seq<Field>, header: seq<Field>)
      reads this, out
    {
      Valid() && done + rest == header
    }

    /** Adds the next field. */
    method AddNext(value: nat, width: nat, ghost rest: seq<Field>, ghost header: seq<Field>)
      requires Writing([Field(value, width)] + rest, header) && value < Pow2(width) && bitCount + width <= 32
      modifies this`bitStream, this`bitCount, this`done
      ensures Writing(rest, header) && bitCount == old(bitCount) + width
    {
      hide Valid;
      assert done + ([Field(value, width)] + rest) == (done + [Field(value, width)]) + rest;
      Add(value, width);
    }

    method SpillNext(ghost rest: seq<Field>, ghost header: seq<Field>) returns (ok: bool)
      requires Writing(rest, header) && bitCount > 16
      modifies this`pos, this`bitStream, this`bitCount, out
      ensures ok ==> Writing(rest, header) && bitCount == old(bitCount) - 16
      ensures !ok ==> Touched(header) > out.Length
    {
      hide Value, Len, Pow2, FromLE, Shl;
      Concat(done, rest);
      ok := Spill();
    }

    /** The code of a run of `k` absent symbols. */
    method WriteZeroRun(k: nat, ghost rest: seq<Field>, ghost header: seq<Field>) returns (ok: bool)
      requires Writing(ZeroRun(k) + rest, header) && 1 <= bitCount <= 16
      modifies this`pos, this`bitStream, this`bitCount, this`done, out
      ensures ok ==> Writing(rest, header) && 1 <= bitCount <= 16
      ensures !ok ==> Touched(header) > out.Length
    {
      hide Writing, Pow2;
      SixteenBits();
      TwoBits();
      var left: nat := k;
      while left >= 24
        invariant left <= k && Writing(ZeroRun(left) + rest, header) && 1 <= bitCount <= 16
      {
        assert ZeroRun(left) + rest == [Field(0xFFFF, 16)] + (ZeroRun(left - 24) + rest);
        AddNext(0xFFFF, 16, ZeroRun(left - 24) + rest, header);
        ok := SpillNext(ZeroRun(left - 24) + rest, header);
        if !ok { return; }
        left := left - 24;
      }
      while left >= 3
        invariant left < 24 && Writing(ZeroRun(left) + rest, header) && bitCount + 2 * (left / 3) + 2 <= 32
      {
        assert ZeroRun(left) + rest == [Field(3, 2)] + (ZeroRun(left - 3) + rest);
        AddNext(3, 2, ZeroRun(left - 3) + rest, header);
        left := left - 3;
      }
      AddNext(left, 2, rest, header);
      ok := true;
      if bitCount > 16 {
        ok := SpillNext(rest, header);
      }
    }

    /** The code of one count; `threshold` and `nbBits` go with what remains. */
    method WriteCount(c: int, remaining: nat, threshold: nat, nbBits: nat, ghost rest: seq<Field>, ghost header: seq<Field>) returns (ok: bool)
      requires -1 <= c < remaining && 1 <= remaining <= 4097
      requires nbBits == HighBit(remaining) + 1 && threshold == Pow2(HighBit(remaining))
      requires Writing([CountField(c, remaining)] + rest, header) && 1 <= bitCount <= 16
      modifies this`pos, this`bitStream, this`bitCount, this`done, out
      ensures ok ==> Writing(rest, header) && 1 <= bitCount <= 16
      ensures !ok ==> Touched(header) > out.Length
    {
      hide Writing, Pow2, HighBit;
      CountFits(c, remaining);
      ThirteenBits(remaining);
      var max := 2 * threshold - 1 - remaining;
      var count := c + 1;
      if count >= threshold { count := count + max; }
      var width := if count < max then nbBits - 1 else nbBits;
      assert CountField(c, remaining) == Field(count, width);
      AddNext(count, width, rest, header);
      ok := true;
      if bitCount > 16 {
        ok := SpillNext(rest, header);
      }
    }

    /** Writes what is left in the register; the two bytes are stored, as many of them counted as are used. */
    method Finish(ghost header: seq<Field>) returns (r: Result)
      requires Writing([], header) && 1 <= bitCount <= 16 && Fit(header)
      modifies this, out
      ensures if Touched(header) > out.Length then r == DstSizeTooSmall
        else r.Ok? && r.size <= out.Length && HeaderBytes(out[..r.size], header)
    {
      hide Value, Len, Pow2, FromLE, Shl, Shr, Low, ToLE;
      assert done == header by { assert done + [] == done; }
      if pos + 2 > out.Length { return DstSizeTooSmall; }
      ghost var front := out[..pos];
      Take2(out, pos, bitStream);
      Pow2Mono(bitCount, 16);
      SpillLast(out[..], front, pos, bitStream, bitCount, header);
      r := Ok(pos + (bitCount + 7) / 8);
    }
  }

  /** Bytes of the buffer that writing the header stores to: always two at a time, the last two whenever any bit is
      left for them. */
  function Touched(header: seq<Field>): nat { 2 * ((Len(header) - 1) / 16) + 2 }

  lemma {:induction false} ThirteenBits(r: nat)
    requires 1 <= r <= 4097
    ensures HighBit(r) <= 12
  {
    assert Pow2(13) == 8192 by { SixteenBits(); }
    HighBitBelow(r, 13);
  }

  /** The header's bits in whole bytes. */
  ghost predicate HeaderBytes(bytes: seq<Byte>, header: seq<Field>) {
    FromLE(bytes) == Value(header) && |bytes| == (Len(header) + 7) / 8
  }

  lemma {:induction false} HeaderBytesSize(bytes: seq<Byte>, header: seq<Field>)
    requires HeaderBytes(bytes, header)
    ensures FromLE(bytes) == Value(header) && |bytes| == (Len(header) + 7) / 8
  {}

  lemma {:induction false} SpillLast(buf: seq<Byte>, front: seq<Byte>, pos: nat, bitStream: nat, bitCount: nat, header: seq<Field>)
    requires pos + 2 <= |buf| && buf[..pos] == front && buf[pos..pos + 2] == ToLE(bitStream, 2)
    requires bitCount <= 16 && bitStream < Pow2(bitCount) && bitStream < Pow2(16) && Fit(header)
    requires Len(header) == 8 * pos + bitCount && Value(header) == FromLE(front) + Shl(bitStream, 8 * pos)
    ensures HeaderBytes(buf[..pos + (bitCount + 7) / 8], header)
  {
    hide Value, Len, Pow2, FromLE, Shl, Shr, Low, ToLE;
    assert buf[..pos + 2] == buf[..pos] + buf[pos..pos + 2];
    FromLEConcat(buf[..pos], buf[pos..pos + 2]);
    FromToLE(bitStream, 2);
    LowSmall(bitStream, 16);
    var size := pos + (bitCount + 7) / 8;
    FromLEPrefix(buf[..pos + 2], size);
    assert buf[..pos + 2][..size] == buf[..size];
    ValueBound(header);
    Pow2Mono(Len(header), 8 * size);
    LowSmall(Value(header), 8 * size);
  }

  lemma {:induction false} TwoBits()
    ensures Pow2(2) == 4
  {}

  /** The low sixteen bits, lowest byte first. */
  method Take2(out: array<Byte>, pos: nat, bitStream: nat)
    requires pos + 2 <= out.Length
    modifies out
    ensures out[..pos] == old(out[..pos]) && out[pos..pos + 2] == ToLE(bitStream, 2)
  {
    hide Shr, Low, Pow2;
    LowByteBound(bitStream);
    LowByteBound(Shr(bitStream, 8));
    out[pos] := Low(bitStream, 8);
    out[pos + 1] := Low(Shr(bitStream, 8), 8);
    TwoBytes(bitStream);
    assert out[pos..pos + 2] == [out[pos], out[pos + 1]];
  }

  lemma {:induction false} LowByteBound(v: nat)
    ensures Low(v, 8) < 256
  {
    LowShr(v, 8);
    ByteBound();
  }

  lemma {:induction false} TwoBytes(v: nat)
    ensures Low(v, 8) < 256 && Low(Shr(v, 8), 8) < 256 && ToLE(v, 2) == [Low(v, 8), Low(Shr(v, 8), 8)]
  {
    hide Low, Shr;
    LowByteBound(v);
    LowByteBound(Shr(v, 8));
    assert ToLE(Shr(v, 8), 1) == [Low(Shr(v, 8), 8)] + ToLE(Shr(Shr(v, 8), 8), 0);
  }

  lemma {:induction false} EmptyStream(s: seq<Byte>)
    requires s == []
    ensures FromLE(s) == 0 && Value([]) == 0 && Len([]) == 0
  {}

  lemma {:induction false} OneField(value: nat, width: nat)
    ensures Value([Field(value, width)]) == value && Len([Field(value, width)]) == width
  {
    assert Value([]) == 0 && [Field(value, width)][1..] == [];
    ShlOne(width);
  }

  /** Two bytes more in the buffer, sixteen bits less in the register. */
  lemma {:induction false} SpillValue(buf: seq<Byte>, front: seq<Byte>, pos: nat, bitStream: nat, bitCount: nat)
    requires pos + 2 <= |buf| && buf[..pos] == front && buf[pos..pos + 2] == ToLE(bitStream, 2)
    requires bitCount >= 16 && bitStream < Pow2(bitCount)
    ensures FromLE(buf[..pos + 2]) + Shl(Shr(bitStream, 16), 8 * (pos + 2)) == FromLE(front) + Shl(bitStream, 8 * pos)
    ensures Shr(bitStream, 16) < Pow2(bitCount - 16)
  {
    hide Pow2, Shl, Shr, Low, FromLE, ToLE;
    assert buf[..pos + 2] == buf[..pos] + buf[pos..pos + 2];
    FromLEConcat(buf[..pos], buf[pos..pos + 2]);
    FromToLE(bitStream, 2);
    LowShr(bitStream, 16);
    ShlAdd(Low(bitStream, 16), Shl(Shr(bitStream, 16), 16), 8 * pos);
    ShlShl(Shr(bitStream, 16), 16, 8 * pos);
    ShrBound(bitStream, 16, bitCount - 16);
  }

  // ---------------------------------------------------------------- writeNCount

  /** The symbols from `symbol` on are still to be written. */
  ghost predicate Next(w: Writer, norm: seq<int>, tableLog: nat, symbol: nat, previousIs0: bool, remaining: int)
    requires Summed(norm, tableLog)
    reads w, w.out
  {
    && symbol <= |norm| && remaining == Remaining(norm, tableLog, symbol) >= 1 && remaining <= 4097
    && w.Writing(FieldsFrom(norm, tableLog, symbol, previousIs0), Header(norm, tableLog)) && 1 <= w.bitCount <= 16
  }

  /** Keeps the threshold at the highest power of two not above what remains. */
  method Lower(remaining: nat, threshold: nat, nbBits: nat) returns (threshold': nat, nbBits': nat)
    requires 1 <= remaining && 1 <= nbBits && threshold == Pow2(nbBits - 1) && remaining < 2 * threshold
    ensures 1 <= nbBits' && nbBits' == HighBit(remaining) + 1 && threshold' == Pow2(HighBit(remaining))
  {
    hide Pow2, HighBit;
    threshold', nbBits' := threshold, nbBits;
    OneIsPower();
    while remaining < threshold'
      invariant 1 <= nbBits' && threshold' == Pow2(nbBits' - 1) && remaining < 2 * threshold'
      decreases nbBits'
    {
      HalfPower(nbBits' - 1);
      nbBits' := nbBits' - 1;
      threshold' := threshold' / 2;
    }
    TwicePow2(nbBits' - 1);
    HighBitUnique(remaining, nbBits' - 1);
  }

  lemma {:induction false} OneIsPower()
    ensures Pow2(0) == 1
  {}

  lemma {:induction false} HalfPower(n: nat)
    ensures n > 0 ==> Pow2(n) / 2 == Pow2(n - 1) && Pow2(n) == 2 * Pow2(n - 1)
    ensures n == 0 ==> Pow2(n) == 1
  {}

  lemma {:induction false} StartWriting(w: Writer, norm: seq<int>, tableLog: nat)
    requires Summed(norm, tableLog) && w.Valid() && w.done == []
    ensures w.Writing([Field(tableLog - MIN_TABLELOG, 4)] + FieldsFrom(norm, tableLog, 0, false), Header(norm, tableLog))
    ensures tableLog - MIN_TABLELOG < Pow2(4)
  {
    hide Len, Value, FieldsFrom;
    assert [] + Header(norm, tableLog) == Header(norm, tableLog);
    assert Pow2(4) == 16;
  }

  lemma {:induction false} FirstHighBit(tableLog: nat)
    requires MIN_TABLELOG <= tableLog <= MAX_TABLELOG
    ensures HighBit(Pow2(tableLog) + 1) == tableLog && 1 < Pow2(tableLog) <= 4096
  {
    hide HighBit;
    SixteenBits();
    assert Pow2(12) == 4096 by { assert Pow2(4) == 16; assert Pow2(8) == 256; }
    Pow2Mono(tableLog, 12);
    Pow2Mono(1, tableLog);
    TwicePow2(tableLog);
    HighBitUnique(Pow2(tableLog) + 1, tableLog);
  }

  /** The fields of the next symbol with a count of its own, and of the absent ones before it. */
  lemma {:induction false} NextFields(norm: seq<int>, tableLog: nat, i: nat, previous0: bool)
    requires Summed(norm, tableLog) && i <= |norm| && Remaining(norm, tableLog, i) > 1
    ensures
      var j := if previous0 then NextNonzero(norm, i) else i;
      && j < |norm| && -1 <= norm[j]
      && FieldsFrom(norm, tableLog, i, previous0) == (if previous0 then ZeroRun(j - i) else [])
           + ([CountField(norm[j], Remaining(norm, tableLog, i))] + FieldsFrom(norm, tableLog, j + 1, norm[j] == 0))
  {
    hide CountField, ZeroRun, Base, Pow2;
    NextCount(norm, tableLog, i, previous0);
  }

  /** One round of the loop: a run of absent symbols if the one before was absent, then a count. */
  method WriteSymbol(w: Writer, norm: seq<int>, tableLog: nat, symbol: nat, previousIs0: bool, remaining: nat, threshold: nat, nbBits: nat)
    returns (ok: bool, symbol': nat, previousIs0': bool, remaining': nat)
    requires Summed(norm, tableLog) && Next(w, norm, tableLog, symbol, previousIs0, remaining) && symbol < |norm| && remaining > 1
    requires nbBits == HighBit(remaining) + 1 && threshold == Pow2(HighBit(remaining))
    modifies w, w.out
    ensures ok ==> symbol < symbol' && remaining' <= remaining && Next(w, norm, tableLog, symbol', previousIs0', remaining')
    ensures !ok ==> Touched(Header(norm, tableLog)) > w.out.Length
  {
    hide Value, Len, Pow2, HighBit, Header, FieldsFrom, CountField, ZeroRun, Base;
    ghost var header := Header(norm, tableLog);
    NextCount(norm, tableLog, symbol, previousIs0);
    NextFields(norm, tableLog, symbol, previousIs0);
    ghost var j := if previousIs0 then NextNonzero(norm, symbol) else symbol;
    ghost var field := CountField(norm[j], remaining);
    ghost var rest := FieldsFrom(norm, tableLog, j + 1, norm[j] == 0);
    symbol', previousIs0', remaining' := symbol, previousIs0, remaining;
    if previousIs0 {
      var start := symbol';
      while symbol' < |norm| && norm[symbol'] == 0
        invariant start <= symbol' <= j
      {
        symbol' := symbol' + 1;
      }
      ok := w.WriteZeroRun(symbol' - start, [field] + rest, header);
      if !ok { return; }
    } else {
      assert [] + ([field] + rest) == [field] + rest;
    }
    var c := norm[symbol'];
    ok := w.WriteCount(c, remaining, threshold, nbBits, rest, header);
    if !ok { return; }
    remaining' := remaining - Cells(c);
    previousIs0' := c == 0;
    symbol' := symbol' + 1;
  }

  lemma {:induction false} StartNext(w: Writer, norm: seq<int>, tableLog: nat)
    requires Summed(norm, tableLog) && w.Writing(FieldsFrom(norm, tableLog, 0, false), Header(norm, tableLog)) && 1 <= w.bitCount <= 16
    requires Pow2(tableLog) <= 4096
    ensures Next(w, norm, tableLog, 0, false, Pow2(tableLog) + 1)
  {}

  lemma {:induction false} NextRange(w: Writer, norm: seq<int>, tableLog: nat, symbol: nat, previousIs0: bool, remaining: int)
    requires Summed(norm, tableLog) && Next(w, norm, tableLog, symbol, previousIs0, remaining)
    ensures symbol <= |norm| && remaining >= 1
  {}

  lemma {:induction false} AllWritten(w: Writer, norm: seq<int>, tableLog: nat, symbol: nat, previousIs0: bool, remaining: int)
    requires Summed(norm, tableLog) && Next(w, norm, tableLog, symbol, previousIs0, remaining) && (symbol == |norm| || remaining <= 1)
    ensures remaining == 1 && w.Writing([], Header(norm, tableLog)) && 1 <= w.bitCount <= 16
  {
    hide Len, Value, Header, Pow2, Base;
  }

  const NCOUNT_BOUND: nat := 512

  /** PBC_FSE_NCountWriteBound: from this size on the room is not watched. */
  function WriteBound(symbols: nat, tableLog: nat): nat {
    if symbols <= 1 then NCOUNT_BOUND else symbols * tableLog / 8 + 3
  }

  /** PBC_FSE_writeNCount: the header of counts that sum to the table size. With a table size in range it succeeds
      exactly when the buffer has the bytes that are stored to; where it has not, it is refused below the
      bound, and from the bound on its end is passed. */
  method WriteNCount(out: array<Byte>, norm: seq<int>, tableLog: nat) returns (r: Result)
    requires tableLog <= MAX_TABLELOG && tableLog >= MIN_TABLELOG ==> Summed(norm, tableLog)
    modifies out
    ensures r == TableLogTooLarge <==> tableLog > MAX_TABLELOG
    ensures r == Generic <==> tableLog < MIN_TABLELOG
    ensures MIN_TABLELOG <= tableLog <= MAX_TABLELOG ==>
      if Touched(Header(norm, tableLog)) <= out.Length then r.Ok? && r.size <= out.Length && HeaderBytes(out[..r.size], Header(norm, tableLog))
      else r == if out.Length < WriteBound(|norm|, tableLog) then DstSizeTooSmall else PastEnd
  {
    hide Value, Len, Pow2, HighBit, Fit, Header, FieldsFrom, Base, FromLE, Next, Touched;
    if tableLog > MAX_TABLELOG { return TableLogTooLarge; }
    if tableLog < MIN_TABLELOG { return Generic; }
    var writeIsSafe := out.Length >= WriteBound(|norm|, tableLog);
    r := WriteGeneric(out, norm, tableLog);
    if writeIsSafe && r == DstSizeTooSmall { r := PastEnd; }
  }

  /** PBC_FSE_writeNCount_generic */
  method WriteGeneric(out: array<Byte>, norm: seq<int>, tableLog: nat) returns (r: Result)
    requires Summed(norm, tableLog)
    modifies out
    ensures if Touched(Header(norm, tableLog)) > out.Length then r == DstSizeTooSmall
      else r.Ok? && r.size <= out.Length && HeaderBytes(out[..r.size], Header(norm, tableLog))
  {
    hide Value, Len, Pow2, HighBit, Fit, Header, FieldsFrom, Base, FromLE, Next, Touched;
    SummedRange(norm, tableLog);
    var w := new Writer(out);
    HeaderFits(norm, tableLog);
    StartWriting(w, norm, tableLog);
    w.AddNext(tableLog - MIN_TABLELOG, 4, FieldsFrom(norm, tableLog, 0, false), Header(norm, tableLog));
    var remaining: nat, threshold: nat, nbBits: nat := Pow2(tableLog) + 1, Pow2(tableLog), tableLog + 1;
    var symbol: nat := 0;
    var previousIs0 := false;
    FirstHighBit(tableLog);
    StartNext(w, norm, tableLog);
    while symbol < |norm| && remaining > 1
      invariant symbol <= |norm| && remaining >= 1 && Next(w, norm, tableLog, symbol, previousIs0, remaining)
      invariant nbBits == HighBit(remaining) + 1 && threshold == Pow2(HighBit(remaining))
      decreases |norm| - symbol
    {
      var ok;
      TwicePow2(HighBit(remaining));
      ok, symbol, previousIs0, remaining := WriteSymbol(w, norm, tableLog, symbol, previousIs0, remaining, threshold, nbBits);
      if !ok { return DstSizeTooSmall; }
      NextRange(w, norm, tableLog, symbol, previousIs0, remaining);
      threshold, nbBits := Lower(remaining, threshold, nbBits);
    }
    AllWritten(w, norm, tableLog, symbol, previousIs0, remaining);
    r := w.Finish(Header(norm, tableLog));
  }

  lemma {:induction false} SummedRange(norm: seq<int>, tableLog: nat)
    requires Summed(norm, tableLog)
    ensures MIN_TABLELOG <= tableLog <= MAX_TABLELOG
  {}
}
