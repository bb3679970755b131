/** Coding a block with the FSE tables: two interleaved states write into one bit stream from the
    last symbol to the first, and the decoder reads it back from the first symbol to the last,
    noticing the end of the data only by running out of bits. */
module FseCodec {
  import opened Powers
  import opened Bytes
  import opened BitStream
  import opened FseTables
  import opened FseBuild

  // ---------------------------------------------------------------- what is written

  /** The coder after coding `src[i..]`: `cur` is the state that names `src[i]`, `other` the one
      that names `src[i + 1]`. */
  datatype Coder = Coder(cur: nat, other: nat, bits: Bits)

  /** Every symbol of the source owns cells. */
  ghost predicate Codable(src: seq<Byte>, norm: seq<int>) {
    forall k :: 0 <= k < |src| ==> src[k] < |norm| && norm[src[k]] != 0
  }

  function StateAt(ct: CTable, i: int): nat {
    if 0 <= i < |ct.stateTable| then ct.stateTable[i] else 0
  }

  function Encoded(ct: CTable, src: seq<Byte>, i: nat): Coder
    requires i + 2 <= |src| && forall k :: 0 <= k < |src| ==> src[k] < |ct.symbolTT|
    decreases |src| - i
  {
    if i + 2 == |src| then
      Coder(StateAt(ct, InitIndex(ct, src[i])), StateAt(ct, InitIndex(ct, src[i + 1])), EMPTY)
    else
      var e := Encoded(ct, src, i + 1);
      Coder(StateAt(ct, NextIndex(ct, e.other, src[i])), e.cur, e.bits.Push(e.other, NbBitsOut(ct, e.other, src[i])))
  }

  /** The whole stream: the coded bits under the two final states. */
  function Stream(ct: CTable, src: seq<Byte>): Bits
    requires 2 <= |src| && forall k :: 0 <= k < |src| ==> src[k] < |ct.symbolTT|
  {
    var e := Encoded(ct, src, 0);
    e.bits.Push(e.other, ct.tableLog).Push(e.cur, ct.tableLog)
  }

  /** A matching pair of tables. */
  ghost predicate Tables(ct: CTable, dt: DTable, t: seq<nat>, norm: seq<int>) {
    && ValidNorm(norm, ct.tableLog) && dt.tableLog == ct.tableLog
    && IsCTable(ct, t, norm) && IsDTable(dt, t, norm)
  }

  ghost predicate Names(ct: CTable, dt: DTable, x: nat, s: nat) {
    IsState(ct.tableLog, x) && |dt.cells| == Pow2(ct.tableLog) && dt.cells[x - Pow2(ct.tableLog)].symbol == s
  }

  /** Along the way both states name their symbols and every step costs at most `tableLog` bits. */
  lemma {:induction false} EncodedOk(ct: CTable, dt: DTable, t: seq<nat>, norm: seq<int>, src: seq<Byte>, i: nat)
    requires Tables(ct, dt, t, norm) && Codable(src, norm) && i + 2 <= |src|
    ensures
      var e := Encoded(ct, src, i);
      && Names(ct, dt, e.cur, src[i]) && Names(ct, dt, e.other, src[i + 1])
      && e.bits.Valid() && (i + 2 == |src| ==> e.bits == EMPTY)
    ensures i + 2 < |src| ==>
      var e := Encoded(ct, src, i + 1);
      && Encoded(ct, src, i).bits.len <= e.bits.len + ct.tableLog
      && e.bits.len <= Encoded(ct, src, i).bits.len
    decreases |src| - i
  {
    hide Pow2, LowLaid, WalkLaid, StatesFilled, TransformsFilled, IsCell, ValidNorm, NbBitsOut, InitIndex, NextIndex;
    if i + 2 == |src| {
      InitNeedsBit(ct, dt, t, norm, src[i]);
      InitNeedsBit(ct, dt, t, norm, src[i + 1]);
      EmptyValid();
    } else {
      EncodedOk(ct, dt, t, norm, src, i + 1);
      var e := Encoded(ct, src, i + 1);
      StepInverse(ct, dt, t, norm, e.other, src[i]);
      PopPush(e.bits, e.other, NbBitsOut(ct, e.other, src[i]));
    }
  }

  /** Decoding `src[i]` from its state pops exactly what coding it pushed. */
  lemma {:induction false} DecodeUndoes(ct: CTable, dt: DTable, t: seq<nat>, norm: seq<int>, src: seq<Byte>, i: nat)
    requires Tables(ct, dt, t, norm) && Codable(src, norm) && i + 2 < |src|
    ensures
      var e, e' := Encoded(ct, src, i), Encoded(ct, src, i + 1);
      && Names(ct, dt, e.cur, src[i]) && IsState(ct.tableLog, e'.cur) && IsState(ct.tableLog, e'.other)
      && var cell := dt.cells[e.cur - Pow2(ct.tableLog)];
      && cell.nbBits <= e.bits.len
      && e.bits.Pop(cell.nbBits) == e'.bits
      && cell.newState + e.bits.Top(cell.nbBits) == e'.other - Pow2(ct.tableLog)
      && e.other == e'.cur
  {
    hide Pow2, LowLaid, WalkLaid, StatesFilled, TransformsFilled, IsCell, ValidNorm, NbBitsOut, InitIndex, NextIndex;
    EncodedOk(ct, dt, t, norm, src, i);
    EncodedOk(ct, dt, t, norm, src, i + 1);
    var e := Encoded(ct, src, i + 1);
    StepInverse(ct, dt, t, norm, e.other, src[i]);
    PopPush(e.bits, e.other, NbBitsOut(ct, e.other, src[i]));
  }

  /** After the last coded bit the state of the next symbol still asks for one. */
  lemma {:induction false} LastNeedsBit(ct: CTable, dt: DTable, t: seq<nat>, norm: seq<int>, src: seq<Byte>)
    requires Tables(ct, dt, t, norm) && Codable(src, norm) && 2 <= |src|
    ensures
      var e := Encoded(ct, src, |src| - 2);
      && e.bits == EMPTY && Names(ct, dt, e.cur, src[|src| - 2])
      && dt.cells[e.cur - Pow2(ct.tableLog)].nbBits >= 1
  {
    hide Pow2, LowLaid, WalkLaid, StatesFilled, TransformsFilled, IsCell, ValidNorm, InitIndex;
    InitNeedsBit(ct, dt, t, norm, src[|src| - 2]);
    EncodedOk(ct, dt, t, norm, src, |src| - 2);
  }

  lemma {:induction false} EncodedMono(ct: CTable, dt: DTable, t: seq<nat>, norm: seq<int>, src: seq<Byte>, i: nat)
    requires Tables(ct, dt, t, norm) && Codable(src, norm) && i + 2 <= |src|
    ensures Encoded(ct, src, i).bits.len <= Encoded(ct, src, 0).bits.len
  {
    hide Tables, Names, Encoded;
    if i > 0 {
      EncodedOk(ct, dt, t, norm, src, i - 1);
      EncodedMono(ct, dt, t, norm, src, i - 1);
    }
  }

  // ---------------------------------------------------------------- encoder

  /** Everything the encoder's loop keeps: the two states and the stream are those of `Encoded`,
      the first state serving the even and the second the odd positions. */
  ghost predicate Encoding(ct: CTable, src: seq<Byte>, i: nat, value1: nat, value2: nat, bits: Bits)
    requires forall k :: 0 <= k < |src| ==> src[k] < |ct.symbolTT|
  {
    && i + 2 <= |src|
    && var e := Encoded(ct, src, i);
    && bits == e.bits
    && (if i % 2 == 0 then value1 == e.cur && value2 == e.other else value2 == e.cur && value1 == e.other)
  }

  /** initCState2 */
  method InitCState2(ct: CTable, symbol: nat) returns (value: nat)
    requires symbol < |ct.symbolTT| && 0 <= InitIndex(ct, symbol) < |ct.stateTable|
    ensures value == StateAt(ct, InitIndex(ct, symbol))
  {
    var nbBitsOut := InitBits(ct, symbol);
    var start := Shl(nbBitsOut, 16) - ct.symbolTT[symbol].deltaNbBits;
    value := ct.stateTable[Shr(start, nbBitsOut) + ct.symbolTT[symbol].deltaFindState];
  }

  /** encodeSymbol */
  method EncodeSymbol(bitC: CStream, ct: CTable, state: nat, symbol: nat) returns (value: nat)
    requires symbol < |ct.symbolTT| && 0 <= NextIndex(ct, state, symbol) < |ct.stateTable|
    requires bitC.Valid() && NbBitsOut(ct, state, symbol) <= MAX_TABLELOG
    requires bitC.bitPos + NbBitsOut(ct, state, symbol) < REGISTER_BITS
    modifies bitC
    ensures value == StateAt(ct, NextIndex(ct, state, symbol))
    ensures bitC.Valid() && bitC.clamped == old(bitC.clamped)
    ensures bitC.bits == old(bitC.bits).Push(state, NbBitsOut(ct, state, symbol))
    ensures bitC.bitPos == old(bitC.bitPos) + NbBitsOut(ct, state, symbol)
  {
    hide Shl, Shr, Low, Pow2;
    var nbBitsOut := NbBitsOut(ct, state, symbol);
    bitC.AddBits(state, nbBitsOut);
    value := ct.stateTable[Shr(state, nbBitsOut) + ct.symbolTT[symbol].deltaFindState];
  }

  lemma {:induction false} EncodingStep(ct: CTable, dt: DTable, t: seq<nat>, norm: seq<int>, src: seq<Byte>,
                                        i: nat, value1: nat, value2: nat, bits: Bits)
    requires Tables(ct, dt, t, norm) && Codable(src, norm)
    requires Encoding(ct, src, i, value1, value2, bits) && 0 < i
    ensures
      var state := if i % 2 == 0 then value2 else value1;
      var nb, index := NbBitsOut(ct, state, src[i - 1]), NextIndex(ct, state, src[i - 1]);
      && nb <= ct.tableLog <= MAX_TABLELOG && 0 <= index < |ct.stateTable|
      && Encoding(ct, src, i - 1, if i % 2 == 0 then value1 else StateAt(ct, index),
                  if i % 2 == 0 then StateAt(ct, index) else value2, bits.Push(state, nb))
  {
    hide Pow2, LowLaid, WalkLaid, StatesFilled, TransformsFilled, IsCell, NbBitsOut, InitIndex, NextIndex;
    hide IsDTable;
    EncodedOk(ct, dt, t, norm, src, i);
    var e := Encoded(ct, src, i);
    StepInverse(ct, dt, t, norm, e.other, src[i - 1]);
  }

  /** The state a position uses, and one step of the encoder's loop. */
  method Step(bitC: CStream, ct: CTable, src: seq<Byte>, i: nat, state: nat,
              ghost value1: nat, ghost value2: nat, ghost dt: DTable, ghost t: seq<nat>, ghost norm: seq<int>)
    returns (value: nat)
    requires Tables(ct, dt, t, norm) && Codable(src, norm)
    requires Encoding(ct, src, i, value1, value2, bitC.bits) && 0 < i
    requires state == if i % 2 == 0 then value2 else value1
    requires bitC.Valid() && bitC.bitPos + ct.tableLog < 64
    modifies bitC
    ensures bitC.Valid() && bitC.clamped == old(bitC.clamped)
    ensures bitC.bitPos <= old(bitC.bitPos) + ct.tableLog
    ensures i % 2 == 0 ==> Encoding(ct, src, i - 1, value1, value, bitC.bits)
    ensures i % 2 != 0 ==> Encoding(ct, src, i - 1, value, value2, bitC.bits)
  {
    hide Tables, Encoded, NbBitsOut, NextIndex, StateAt, Codable;
    EncodingStep(ct, dt, t, norm, src, i, value1, value2, bitC.bits);
    SymbolFits(ct, dt, t, norm, src);
    value := EncodeSymbol(bitC, ct, state, src[i - 1]);
  }

  lemma {:induction false} SymbolFits(ct: CTable, dt: DTable, t: seq<nat>, norm: seq<int>, src: seq<Byte>)
    requires Tables(ct, dt, t, norm) && Codable(src, norm)
    ensures forall k :: 0 <= k < |src| ==> src[k] < |ct.symbolTT|
    ensures 5 <= ct.tableLog <= 12
  {}

  /** PBC_FSE_FLUSHBITS. Only the unchecked flush can leave the destination. */
  method Flush(bitC: CStream, fast: bool) returns (inside: bool)
    requires bitC.Valid() && (fast ==> !bitC.clamped)
    modifies bitC, bitC.dst
    ensures inside <==> fast ==> old(bitC.bits).len / 8 <= bitC.endPtr
    ensures inside ==> bitC.Valid() && bitC.bits == old(bitC.bits) && bitC.bitPos < 8 && (fast ==> !bitC.clamped)
  {
    if fast {
      inside := bitC.FlushBitsFast();
    } else {
      bitC.FlushBits();
      inside := true;
    }
  }

  /** Two symbols, one for each state. */
  method Pair(bitC: CStream, ct: CTable, src: seq<Byte>, ip: nat, start1: nat, start2: nat,
              ghost dt: DTable, ghost t: seq<nat>, ghost norm: seq<int>) returns (value1: nat, value2: nat)
    requires Tables(ct, dt, t, norm) && Codable(src, norm)
    requires ip % 2 == 0 && 2 <= ip && Encoding(ct, src, ip, start1, start2, bitC.bits)
    requires bitC.Valid() && bitC.bitPos + 2 * ct.tableLog < 64
    modifies bitC
    ensures Encoding(ct, src, ip - 2, value1, value2, bitC.bits)
    ensures bitC.Valid() && bitC.clamped == old(bitC.clamped)
    ensures bitC.bitPos <= old(bitC.bitPos) + 2 * ct.tableLog
  {
    hide Tables, Encoded, Encoding, Codable;
    value2 := Step(bitC, ct, src, ip, start2, start1, start2, dt, t, norm);
    value1 := Step(bitC, ct, src, ip - 1, start1, start1, value2, dt, t, norm);
  }

  /** The coded bits of the source, without the two states that follow them. */
  ghost function CodedBits(ct: CTable, src: seq<Byte>): nat
    requires 2 <= |src| && forall k :: 0 <= k < |src| ==> src[k] < |ct.symbolTT|
  {
    Encoded(ct, src, 0).bits.len
  }

  /** What the encoder has done between two flushes. While it stays inside, the destination is in order; when it has
      not, the coded bits as a whole reach beyond `endPtr`. */
  ghost predicate Progress(ct: CTable, src: seq<Byte>, ip: nat, value1: nat, value2: nat, bitC: CStream, fast: bool, inside: bool)
    requires 2 <= |src| && forall k :: 0 <= k < |src| ==> src[k] < |ct.symbolTT|
    reads bitC, bitC.dst
  {
    if inside then Encoding(ct, src, ip, value1, value2, bitC.bits) && bitC.Valid() && bitC.bitPos < 8
        && (fast ==> !bitC.clamped && bitC.bits.len / 8 <= bitC.endPtr)
    else fast && CodedBits(ct, src) / 8 > bitC.endPtr
  }

  /** The last two symbols choose the states; then up to three symbols are coded so that a multiple
      of four is left. */
  method EncodeStart(bitC: CStream, src: seq<Byte>, ct: CTable, fast: bool,
                     ghost dt: DTable, ghost t: seq<nat>, ghost norm: seq<int>)
    returns (ip: nat, value1: nat, value2: nat, inside: bool)
    requires Tables(ct, dt, t, norm) && Codable(src, norm) && |src| > 2
    requires bitC.Valid() && bitC.bits == EMPTY && bitC.bitPos == 0 && !bitC.clamped
    modifies bitC, bitC.dst
    ensures Progress(ct, src, ip, value1, value2, bitC, fast, inside) && ip % 4 == 0
  {
    hide Tables, Encoded, Encoding, NbBitsOut, NextIndex, StateAt, Codable, InitIndex, Shl, Low, Pow2, Stream;
    SymbolFits(ct, dt, t, norm, src);
    EncodingStart(ct, dt, t, norm, src);
    inside := true;
    if |src| % 2 == 1 {
      value1 := InitCState2(ct, src[|src| - 1]);
      value2 := InitCState2(ct, src[|src| - 2]);
      ip := |src| - 2;
      value1 := Step(bitC, ct, src, ip, value1, value1, value2, dt, t, norm);
      ip := ip - 1;
      PartOfCoded(ct, dt, t, norm, src, ip, value1, value2, bitC.bits);
      inside := Flush(bitC, fast);
      if !inside { return 0, value1, value2, false; }
    } else {
      value2 := InitCState2(ct, src[|src| - 1]);
      value1 := InitCState2(ct, src[|src| - 2]);
      ip := |src| - 2;
    }
    // join to mod 4
    ip, value1, value2, inside := Join(bitC, src, ip, value1, value2, ct, fast, dt, t, norm);
  }

  /** Codes two symbols if that leaves a multiple of four. */
  method Join(bitC: CStream, src: seq<Byte>, start: nat, start1: nat, start2: nat, ct: CTable, fast: bool,
              ghost dt: DTable, ghost t: seq<nat>, ghost norm: seq<int>)
    returns (ip: nat, value1: nat, value2: nat, inside: bool)
    requires Tables(ct, dt, t, norm) && Codable(src, norm) && |src| > 2
    requires Progress(ct, src, start, start1, start2, bitC, fast, true) && start % 2 == 0
    modifies bitC, bitC.dst
    ensures Progress(ct, src, ip, value1, value2, bitC, fast, inside) && ip % 4 == 0
  {
    hide Tables, Encoded, Encoding, NbBitsOut, NextIndex, StateAt, Codable, InitIndex, Shl, Low, Pow2, Stream, CStream.Valid, FromLE, Shr, CodedBits;
    SymbolFits(ct, dt, t, norm, src);
    ip, value1, value2, inside := start, start1, start2, true;
    if ip % 4 == 2 {
      value1, value2 := Pair(bitC, ct, src, ip, value1, value2, dt, t, norm);
      ip := ip - 2;
      PartOfCoded(ct, dt, t, norm, src, ip, value1, value2, bitC.bits);
      inside := Flush(bitC, fast);
    }
  }

  /** One round of the main loop: four symbols, then a flush. */
  method EncodeFour(bitC: CStream, ct: CTable, src: seq<Byte>, ip: nat, start1: nat, start2: nat, fast: bool,
                    ghost dt: DTable, ghost t: seq<nat>, ghost norm: seq<int>) returns (value1: nat, value2: nat, inside: bool)
    requires Tables(ct, dt, t, norm) && Codable(src, norm) && |src| > 2
    requires Progress(ct, src, ip, start1, start2, bitC, fast, true) && ip % 2 == 0 && 4 <= ip
    modifies bitC, bitC.dst
    ensures Progress(ct, src, ip - 4, value1, value2, bitC, fast, inside)
  {
    hide Tables, Encoded, Encoding, NbBitsOut, NextIndex, StateAt, Codable, InitIndex, Shl, Low, Pow2, Stream, CStream.Valid, FromLE, Shr, CodedBits;
    SymbolFits(ct, dt, t, norm, src);
    value1, value2 := Pair(bitC, ct, src, ip, start1, start2, dt, t, norm);
    value1, value2 := Pair(bitC, ct, src, ip - 2, value1, value2, dt, t, norm);
    PartOfCoded(ct, dt, t, norm, src, ip - 4, value1, value2, bitC.bits);
    inside := Flush(bitC, fast);
  }

  /** The main loop. */
  method EncodeFours(bitC: CStream, ct: CTable, src: seq<Byte>, start: nat, start1: nat, start2: nat, fast: bool,
                     ghost dt: DTable, ghost t: seq<nat>, ghost norm: seq<int>) returns (value1: nat, value2: nat, inside: bool)
    requires Tables(ct, dt, t, norm) && Codable(src, norm) && |src| > 2
    requires Progress(ct, src, start, start1, start2, bitC, fast, true) && start % 4 == 0
    modifies bitC, bitC.dst
    ensures Progress(ct, src, 0, value1, value2, bitC, fast, inside)
  {
    hide Tables, Encoded, Encoding, NbBitsOut, NextIndex, StateAt, Codable, InitIndex, Shl, Low, Pow2, Stream, CStream.Valid, FromLE, Shr, Progress;
    SymbolFits(ct, dt, t, norm, src);
    value1, value2, inside := start1, start2, true;
    var ip := start;
    while ip > 0
      invariant ip % 4 == 0 && inside && Progress(ct, src, ip, value1, value2, bitC, fast, true)
    {
      value1, value2, inside := EncodeFour(bitC, ct, src, ip, value1, value2, fast, dt, t, norm);
      if !inside { OutsideIs(ct, src, ip - 4, 0, value1, value2, bitC, fast); return; }
      ip := ip - 4;
    }
  }

  lemma {:induction false} OutsideIs(ct: CTable, src: seq<Byte>, ip: nat, ip': nat, value1: nat, value2: nat, bitC: CStream, fast: bool)
    requires 2 <= |src| && forall k :: 0 <= k < |src| ==> src[k] < |ct.symbolTT|
    requires Progress(ct, src, ip, value1, value2, bitC, fast, false)
    ensures Progress(ct, src, ip', value1, value2, bitC, fast, false)
  {}

  /** The result of coding: a size, or the report that a store has gone beyond the destination. */
  datatype Coded = Closed(size: nat) | Overran

  /** compress_usingCTable_generic: returns 0 for fewer than three symbols, for a destination no larger than
      the register, and exactly when the stream reaches the last eight bytes of the destination;
      any other result is the size of a prefix that is the stream. With `fast` the destination is
      not checked while coding, and its end is passed exactly when the coded bits reach into its last eight bytes. */
  method CompressGeneric(dst: array<Byte>, src: seq<Byte>, ct: CTable, fast: bool,
                             ghost dt: DTable, ghost t: seq<nat>, ghost norm: seq<int>) returns (r: Coded)
    requires Tables(ct, dt, t, norm) && Codable(src, norm)
    modifies dst
    ensures r == Overran <==>
      fast && 2 < |src| && REGISTER_BYTES < dst.Length && CodedBits(ct, src) / 8 > dst.Length - REGISTER_BYTES
    ensures r != Overran ==> (r == Closed(0) <==>
      || |src| <= 2
      || dst.Length <= REGISTER_BYTES
      || (Stream(ct, src).len + 1) / 8 >= dst.Length - REGISTER_BYTES)
    ensures r.Closed? && r.size != 0 ==> r.size <= dst.Length && IsStreamOf(dst[..r.size], Stream(ct, src))
  {
    hide Tables, Encoded, Encoding, NbBitsOut, NextIndex, StateAt, Codable, InitIndex, Shl, Low, Pow2, Stream, FromLE, Shr;
    if |src| <= 2 { return Closed(0); }
    SymbolFits(ct, dt, t, norm, src);
    var bitC := new CStream(dst);
    if dst.Length <= REGISTER_BYTES { return Closed(0); }
    var ip, value1, value2, inside := EncodeStart(bitC, src, ct, fast, dt, t, norm);
    if !inside { return Overran; }
    value1, value2, inside := EncodeFours(bitC, ct, src, ip, value1, value2, fast, dt, t, norm);
    if !inside { return Overran; }
    AllCoded(ct, src, value1, value2, bitC.bits);
    // the states close the stream
    StreamIs(ct, src, value1, value2, bitC.bits);
    bitC.AddBits(value2, ct.tableLog);
    bitC.FlushBits();
    bitC.AddBits(value1, ct.tableLog);
    bitC.FlushBits();
    var size := bitC.Close();
    r := Closed(size);
  }

  lemma {:induction false} AllCoded(ct: CTable, src: seq<Byte>, value1: nat, value2: nat, bits: Bits)
    requires 2 <= |src| && forall k :: 0 <= k < |src| ==> src[k] < |ct.symbolTT|
    requires Encoding(ct, src, 0, value1, value2, bits)
    ensures bits.len == CodedBits(ct, src)
  {
    hide Encoded;
  }

  /** The last two symbols only choose the starting states. */
  lemma {:induction false} EncodingStart(ct: CTable, dt: DTable, t: seq<nat>, norm: seq<int>, src: seq<Byte>)
    requires Tables(ct, dt, t, norm) && Codable(src, norm) && 2 <= |src|
    ensures
      var n := |src|;
      && 0 <= InitIndex(ct, src[n - 1]) < |ct.stateTable|
      && 0 <= InitIndex(ct, src[n - 2]) < |ct.stateTable|
      && var last, prev := StateAt(ct, InitIndex(ct, src[n - 1])), StateAt(ct, InitIndex(ct, src[n - 2]));
      && (n % 2 == 0 ==> Encoding(ct, src, n - 2, prev, last, EMPTY))
      && (n % 2 == 1 ==> Encoding(ct, src, n - 2, last, prev, EMPTY))
  {
    hide Pow2, LowLaid, WalkLaid, StatesFilled, TransformsFilled, IsCell, ValidNorm, InitIndex;
    InitNeedsBit(ct, dt, t, norm, src[|src| - 1]);
    InitNeedsBit(ct, dt, t, norm, src[|src| - 2]);
  }

  lemma {:induction false} PartOfCoded(ct: CTable, dt: DTable, t: seq<nat>, norm: seq<int>, src: seq<Byte>, ip: nat,
                                       value1: nat, value2: nat, bits: Bits)
    requires Tables(ct, dt, t, norm) && Codable(src, norm) && |src| > 2
    requires Encoding(ct, src, ip, value1, value2, bits)
    ensures bits.len <= CodedBits(ct, src)
  {
    hide Tables, Codable, Encoded;
    EncodedMono(ct, dt, t, norm, src, ip);
  }

  lemma {:induction false} StreamIs(ct: CTable, src: seq<Byte>, value1: nat, value2: nat, bits: Bits)
    requires forall k :: 0 <= k < |src| ==> src[k] < |ct.symbolTT|
    requires Encoding(ct, src, 0, value1, value2, bits)
    ensures |src| >= 2 && bits.Push(value2, ct.tableLog).Push(value1, ct.tableLog) == Stream(ct, src)
  {
    hide Encoded;
  }

  // ---------------------------------------------------------------- decoder

  datatype Decoded = Ok(size: nat) | SourceWrong | DestinationTooSmall

  /** Everything the decoder's loop keeps while it reads the stream of `src`: after `op` symbols the
      bits that remain and the two states are those of `Encoded`. */
  ghost predicate Decoding(ct: CTable, src: seq<Byte>, op: nat, state1: nat, state2: nat, remaining: Bits)
    requires forall k :: 0 <= k < |src| ==> src[k] < |ct.symbolTT|
  {
    && op + 2 <= |src|
    && var e, base := Encoded(ct, src, op), Pow2(ct.tableLog);
    && remaining == e.bits
    && (if op % 2 == 0 then state1 + base == e.cur && state2 + base == e.other
        else state2 + base == e.cur && state1 + base == e.other)
  }

  /** decodeSymbol and decodeSymbolFast */
  method DecodeSymbol(bitD: DStream, dt: DTable, state: nat, fast: bool,
                      ghost t: seq<nat>, ghost norm: seq<int>) returns (symbol: Byte, next: nat)
    requires ValidNorm(norm, dt.tableLog) && IsDTable(dt, t, norm) && (fast ==> dt.fastMode)
    requires bitD.Valid() && state < |dt.cells|
    modifies bitD`bitsConsumed
    ensures symbol == dt.cells[state].symbol && next < |dt.cells|
    ensures bitD.Valid() && bitD.ptr == old(bitD.ptr)
    ensures bitD.bitsConsumed == old(bitD.bitsConsumed) + dt.cells[state].nbBits
    ensures dt.cells[state].nbBits <= dt.tableLog
    ensures !bitD.Overrun() ==> var nb := dt.cells[state].nbBits;
      && nb <= old(bitD.Remaining()).len && bitD.Remaining() == old(bitD.Remaining()).Pop(nb)
      && next == dt.cells[state].newState + old(bitD.Remaining()).Top(nb)
  {
    hide Pow2, LowLaid, WalkLaid, IsCell, Shr, Low;
    SymbolIsByte(dt, t, norm, state);
    CellBounds(dt, t, norm, state, 0);
    var info := dt.cells[state];
    var lowBits;
    if fast {
      lowBits := bitD.ReadBitsFast(info.nbBits);
    } else {
      lowBits := bitD.ReadBits(info.nbBits);
    }
    CellBounds(dt, t, norm, state, lowBits);
    symbol, next := info.symbol, info.newState + lowBits;
  }

  lemma {:induction false} SymbolIsByte(dt: DTable, t: seq<nat>, norm: seq<int>, u: nat)
    requires ValidNorm(norm, dt.tableLog) && IsDTable(dt, t, norm) && u < |dt.cells|
    ensures dt.cells[u].symbol < 256 && dt.tableLog <= MAX_TABLELOG
  {
    hide Pow2, LowLaid, WalkLaid, Base;
    assert IsCell(dt.cells[u], t, norm, dt.tableLog, u);
  }

  /** One symbol further, as long as more than two symbols were left. */
  lemma {:induction false} DecodingStep(ct: CTable, dt: DTable, t: seq<nat>, norm: seq<int>, src: seq<Byte>,
                                        op: nat, state1: nat, state2: nat, remaining: Bits)
    requires Tables(ct, dt, t, norm) && Codable(src, norm)
    requires Decoding(ct, src, op, state1, state2, remaining)
    ensures
      var state := if op % 2 == 0 then state1 else state2;
      && state < |dt.cells| && dt.cells[state].symbol == src[op]
      && var nb := dt.cells[state].nbBits;
      && (op + 2 == |src| ==> remaining.len == 0 && nb >= 1)
      && (op + 2 < |src| ==>
            && nb <= remaining.len
            && var next := dt.cells[state].newState + remaining.Top(nb);
            && Decoding(ct, src, op + 1, if op % 2 == 0 then next else state1, if op % 2 == 0 then state2 else next,
                        remaining.Pop(nb)))
  {
    hide LowLaid, WalkLaid, StatesFilled, TransformsFilled, IsCell, ValidNorm, NbBitsOut, InitIndex, NextIndex,
      Pow2, Encoded, Shr, Low, StateAt;
    EncodedOk(ct, dt, t, norm, src, op);
    if op + 2 < |src| {
      DecodeUndoes(ct, dt, t, norm, src, op);
    } else {
      LastNeedsBit(ct, dt, t, norm, src);
    }
  }

  /** The state that was not used last names the very last symbol. */
  lemma {:induction false} LastSymbol(ct: CTable, dt: DTable, t: seq<nat>, norm: seq<int>, src: seq<Byte>,
                                      state1: nat, state2: nat, remaining: Bits)
    requires Tables(ct, dt, t, norm) && Codable(src, norm) && 2 <= |src|
    requires Decoding(ct, src, |src| - 2, state1, state2, remaining)
    ensures
      var state := if |src| % 2 == 0 then state2 else state1;
      state < |dt.cells| && dt.cells[state].symbol == src[|src| - 1]
  {
    hide LowLaid, WalkLaid, StatesFilled, TransformsFilled, IsCell, ValidNorm, InitIndex, Pow2, Encoded, StateAt;
    EncodedOk(ct, dt, t, norm, src, |src| - 2);
  }

  /** The lower bits of a state are its place in the table. */
  lemma {:induction false} StateBits(tableLog: nat, x: nat)
    requires IsState(tableLog, x)
    ensures Low(x, tableLog) == x - Pow2(tableLog)
  {
    hide Low, Pow2;
    ShlOne(tableLog);
    SplitUnique(x - Pow2(tableLog), 1, tableLog);
  }

  /** Reading the two closing states gives the decoder's start. */
  lemma {:induction false} DecodingStart(ct: CTable, dt: DTable, t: seq<nat>, norm: seq<int>, src: seq<Byte>)
    requires Tables(ct, dt, t, norm) && Codable(src, norm) && 2 <= |src|
    ensures
      var b, tl := Stream(ct, src), ct.tableLog;
      && tl <= b.len && tl <= b.Pop(tl).len
      && Decoding(ct, src, 0, b.Top(tl), b.Pop(tl).Top(tl), b.Pop(tl).Pop(tl))
  {
    hide Low, Shr, Shl, Pow2, Encoded, Tables;
    SymbolFits(ct, dt, t, norm, src);
    EncodedOk(ct, dt, t, norm, src, 0);
    var e, tl := Encoded(ct, src, 0), ct.tableLog;
    PopPush(e.bits, e.other, tl);
    PopPush(e.bits.Push(e.other, tl), e.cur, tl);
    StateBits(tl, e.other);
    StateBits(tl, e.cur);
  }

  /** What the decoder knows between two symbols when the source is the stream of `src`. */
  ghost predicate OnTrack(ct: CTable, src: seq<Byte>, op: nat, state1: nat, state2: nat, bitD: DStream)
    requires forall k :: 0 <= k < |src| ==> src[k] < |ct.symbolTT|
    reads bitD
  {
    && !bitD.Overrun() && Decoding(ct, src, op, state1, state2, bitD.Remaining())
  }

  /** One symbol of the decoder's loops. On the last but one symbol the register overruns, on every
      earlier one it does not. */
  method Get(bitD: DStream, dt: DTable, state: nat, fast: bool, ghost ct: CTable, ghost t: seq<nat>,
             ghost norm: seq<int>, ghost src: seq<Byte>, ghost good: bool, ghost op: nat,
             ghost state1: nat, ghost state2: nat) returns (symbol: Byte, next: nat)
    requires Tables(ct, dt, t, norm) && Codable(src, norm) && (fast ==> dt.fastMode)
    requires bitD.Valid() && state < |dt.cells|
    requires state == if op % 2 == 0 then state1 else state2
    requires good ==> OnTrack(ct, src, op, state1, state2, bitD)
    requires good ==> bitD.bitsConsumed + dt.tableLog <= REGISTER_BITS || bitD.ptr == 0
    modifies bitD`bitsConsumed
    ensures bitD.Valid() && next < |dt.cells| && bitD.ptr == old(bitD.ptr)
    ensures bitD.bitsConsumed <= old(bitD.bitsConsumed) + dt.tableLog
    ensures good ==> op + 2 <= |src| && symbol == src[op]
    ensures good && op + 2 == |src| ==> bitD.Overrun() && old(bitD.Remaining()).len == 0
    ensures good && op + 2 < |src| ==>
      OnTrack(ct, src, op + 1, if op % 2 == 0 then next else state1, if op % 2 == 0 then state2 else next, bitD)
  {
    hide Low, Shr, Pow2, Encoded;
    if good {
      DecodingStep(ct, dt, t, norm, src, op, state1, state2, bitD.Remaining());
    }
    hide Decoding;
    symbol, next := DecodeSymbol(bitD, dt, state, fast, t, norm);
  }

  /** decompress_usingDTable_generic: a source that is the stream of `src` is decoded to exactly `src` when
      the destination has room for it, and refused for lack of room otherwise. The decoder is not
      told how many symbols there are. */
  method DecompressGeneric(dst: array<Byte>, cSrc: seq<Byte>, dt: DTable, fast: bool,
                               ghost ct: CTable, ghost t: seq<nat>, ghost norm: seq<int>, ghost src: seq<Byte>)
    returns (r: Decoded)
    requires Tables(ct, dt, t, norm) && Codable(src, norm) && (fast ==> dt.fastMode)
    modifies dst
    ensures 2 <= |src| && IsStreamOf(cSrc, Stream(ct, src)) ==>
      if |src| <= dst.Length then r == Ok(|src|) && dst[..|src|] == src else r == DestinationTooSmall
    ensures r.Ok? ==> r.size <= dst.Length
  {
    hide Tables, Codable, Decoding, Stream, Low, Shr, Pow2;
    SymbolFits(ct, dt, t, norm, src);
    ghost var good := 2 <= |src| && IsStreamOf(cSrc, Stream(ct, src));
    var bitD := new DStream(cSrc);
    var ok := bitD.Init();
    if good { StreamNonEmpty(ct, src, cSrc); }
    if !ok { return SourceWrong; }
    var op: nat, state1: nat, state2: nat;
    state1, state2 := InitDecoderStates(bitD, dt, ct, t, norm, src, good);
    op, state1, state2 := DecodeFours(bitD, dst, dt, state1, state2, fast, ct, t, norm, src, good);
    r := DecodeTail(bitD, dst, op, dt, state1, state2, fast, ct, t, norm, src, good);
  }

  /** The main loop: four symbols after a reload that filled the register. */
  method DecodeFours(bitD: DStream, dst: array<Byte>, dt: DTable, start1: nat, start2: nat, fast: bool,
                     ghost ct: CTable, ghost t: seq<nat>, ghost norm: seq<int>, ghost src: seq<Byte>, ghost good: bool)
    returns (op: nat, state1: nat, state2: nat)
    requires Tables(ct, dt, t, norm) && Codable(src, norm) && (fast ==> dt.fastMode)
    requires bitD.Valid() && start1 < |dt.cells| && start2 < |dt.cells|
    requires good ==> OnTrack(ct, src, 0, start1, start2, bitD)
    modifies bitD, dst
    ensures op <= dst.Length && bitD.Valid() && state1 < |dt.cells| && state2 < |dt.cells|
    ensures good ==> OnTrack(ct, src, op, state1, state2, bitD) && (bitD.bitsConsumed < 8 || bitD.ptr == 0)
    ensures op % 2 == 0
    ensures good ==> op <= |src| && dst[..op] == src[..op]
  {
    hide Tables, Codable, Decoding, Stream, Low, Shr, Pow2;
    SymbolFits(ct, dt, t, norm, src);
    state1, state2 := start1, start2;
    var max := dst.Length;
    op := 0;
    var status;
    while true
      invariant op <= max && bitD.Valid() && state1 < |dt.cells| && state2 < |dt.cells|
      invariant op % 4 == 0
      invariant good ==> OnTrack(ct, src, op, state1, state2, bitD)
      invariant good ==> op <= |src| && dst[..op] == src[..op]
      decreases max - op
    {
      status := bitD.Reload();
      if !(status == Unfinished && op < max - 3) { break; }
      state1, state2 := DecodeFour(bitD, dst, op, dt, state1, state2, fast, ct, t, norm, src, good);
      op := op + 4;
    }
  }

  method DecodeFour(bitD: DStream, dst: array<Byte>, op: nat, dt: DTable, start1: nat, start2: nat, fast: bool,
                    ghost ct: CTable, ghost t: seq<nat>, ghost norm: seq<int>, ghost src: seq<Byte>, ghost good: bool)
    returns (state1: nat, state2: nat)
    requires Tables(ct, dt, t, norm) && Codable(src, norm) && (fast ==> dt.fastMode)
    requires bitD.Valid() && start1 < |dt.cells| && start2 < |dt.cells| && op + 4 <= dst.Length
    requires bitD.bitsConsumed < 8
    requires op % 2 == 0
    requires good ==> OnTrack(ct, src, op, start1, start2, bitD)
    requires good ==> op <= |src| && dst[..op] == src[..op]
    modifies bitD, dst
    ensures bitD.Valid() && state1 < |dt.cells| && state2 < |dt.cells|
    ensures good ==> OnTrack(ct, src, op + 4, state1, state2, bitD)
    ensures good ==> op + 4 <= |src| && dst[..op + 4] == src[..op + 4]
  {
    hide Tables, Codable, Decoding, Stream, Low, Shr, Pow2;
    SymbolFits(ct, dt, t, norm, src);
    LogFits(ct, dt, t, norm);
    var c0, c1, c2, c3;
    c0, state1 := Get(bitD, dt, start1, fast, ct, t, norm, src, good, op, start1, start2);
    c1, state2 := Get(bitD, dt, start2, fast, ct, t, norm, src, good, op + 1, state1, start2);
    c2, state1 := Get(bitD, dt, state1, fast, ct, t, norm, src, good, op + 2, state1, state2);
    c3, state2 := Get(bitD, dt, state2, fast, ct, t, norm, src, good, op + 3, state1, state2);
    dst[op], dst[op + 1], dst[op + 2], dst[op + 3] := c0, c1, c2, c3;
  }

  lemma {:induction false} LogFits(ct: CTable, dt: DTable, t: seq<nat>, norm: seq<int>)
    requires Tables(ct, dt, t, norm)
    ensures dt.tableLog <= MAX_TABLELOG && IsDTable(dt, t, norm) && ValidNorm(norm, dt.tableLog)
  {}

  /** The tail: one symbol at a time until the register overruns; then the other state still holds
      the last symbol. */
  method DecodeTail(bitD: DStream, dst: array<Byte>, start: nat, dt: DTable, start1: nat, start2: nat, fast: bool,
                    ghost ct: CTable, ghost t: seq<nat>, ghost norm: seq<int>, ghost src: seq<Byte>, ghost good: bool)
    returns (r: Decoded)
    requires Tables(ct, dt, t, norm) && Codable(src, norm) && (fast ==> dt.fastMode)
    requires start <= dst.Length && bitD.Valid() && start1 < |dt.cells| && start2 < |dt.cells|
    requires good ==> OnTrack(ct, src, start, start1, start2, bitD) && (bitD.bitsConsumed < 8 || bitD.ptr == 0)
    requires start % 2 == 0
    requires good ==> start <= |src| && dst[..start] == src[..start]
    modifies bitD, dst
    ensures good ==>
      if |src| <= dst.Length then r == Ok(|src|) && dst[..|src|] == src else r == DestinationTooSmall
    ensures r.Ok? ==> r.size <= dst.Length
  {
    hide Tables, Codable, Decoding, Stream, Low, Shr, Pow2;
    SymbolFits(ct, dt, t, norm, src);
    LogFits(ct, dt, t, norm);
    var state1: nat, state2: nat, op: nat := start1, start2, start;
    var tail;
    while true
      invariant op <= dst.Length && bitD.Valid() && state1 < |dt.cells| && state2 < |dt.cells|
      invariant op % 2 == 0
      invariant good ==> OnTrack(ct, src, op, state1, state2, bitD) && (bitD.bitsConsumed < 8 || bitD.ptr == 0)
      invariant good ==> op <= |src| && dst[..op] == src[..op]
      decreases dst.Length - op
    {
      tail := TailStep(bitD, dst, op, dt, state1, state2, fast, ct, t, norm, src, good);
      match tail
      case Done(result) => return result;
      case More(next) => state1, op := next, op + 1;
      tail := TailStep(bitD, dst, op, dt, state2, state1, fast, ct, t, norm, src, good);
      match tail
      case Done(result) => return result;
      case More(next) => state2, op := next, op + 1;
    }
  }

  datatype Tail = More(next: nat) | Done(r: Decoded)

  /** One symbol of the tail: `state` names it, and `other` names the one after it. */
  method TailStep(bitD: DStream, dst: array<Byte>, op: nat, dt: DTable, state: nat, other: nat, fast: bool,
                  ghost ct: CTable, ghost t: seq<nat>, ghost norm: seq<int>, ghost src: seq<Byte>, ghost good: bool)
    returns (tail: Tail)
    requires Tables(ct, dt, t, norm) && Codable(src, norm) && (fast ==> dt.fastMode)
    requires op <= dst.Length && bitD.Valid() && state < |dt.cells| && other < |dt.cells|
    requires good ==> OnTrack(ct, src, op, if op % 2 == 0 then state else other, if op % 2 == 0 then other else state, bitD)
    requires good ==> bitD.bitsConsumed < 8 || bitD.ptr == 0
    requires good ==> op <= |src| && dst[..op] == src[..op]
    modifies bitD, dst
    ensures match tail
      case More(next) =>
        && op + 1 <= dst.Length && bitD.Valid() && next < |dt.cells|
        && (good ==>
              && OnTrack(ct, src, op + 1, if op % 2 == 0 then next else other, if op % 2 == 0 then other else next, bitD)
              && (bitD.bitsConsumed < 8 || bitD.ptr == 0)
              && op + 1 <= |src| && dst[..op + 1] == src[..op + 1])
      case Done(r) =>
        && (good ==> if |src| <= dst.Length then r == Ok(|src|) && dst[..|src|] == src else r == DestinationTooSmall)
        && (r.Ok? ==> r.size <= dst.Length)
  {
    hide Tables, Codable, Decoding, Stream, Low, Shr, Pow2;
    SymbolFits(ct, dt, t, norm, src);
    LogFits(ct, dt, t, norm);
    ghost var state1, state2 := if op % 2 == 0 then state else other, if op % 2 == 0 then other else state;
    if good { TrackedEnd(ct, dt, t, norm, src, op, state1, state2, bitD); }
    if op > dst.Length - 2 { return Done(DestinationTooSmall); }
    var symbol, next := Get(bitD, dt, state, fast, ct, t, norm, src, good, op, state1, state2);
    dst[op] := symbol;
    var status := bitD.Reload();
    if status == Overflow {
      symbol, next := DecodeSymbol(bitD, dt, other, fast, t, norm);
      dst[op + 1] := symbol;
      return Done(Ok(op + 2));
    }
    return More(next);
  }

  /** At least two symbols are left, and if exactly two, the second is named by the other state. */
  lemma {:induction false} TrackedEnd(ct: CTable, dt: DTable, t: seq<nat>, norm: seq<int>, src: seq<Byte>,
                                      op: nat, state1: nat, state2: nat, bitD: DStream)
    requires Tables(ct, dt, t, norm) && Codable(src, norm)
    requires OnTrack(ct, src, op, state1, state2, bitD)
    ensures op + 2 <= |src|
    ensures op + 2 == |src| ==>
      var state := if op % 2 == 0 then state2 else state1;
      state < |dt.cells| && dt.cells[state].symbol == src[op + 1]
  {
    hide Tables, Codable, Encoded;
    if op + 2 == |src| {
      LastSymbol(ct, dt, t, norm, src, state1, state2, bitD.Remaining());
    }
  }

  lemma {:induction false} StreamNonEmpty(ct: CTable, src: seq<Byte>, cSrc: seq<Byte>)
    requires 2 <= |src| && forall k :: 0 <= k < |src| ==> src[k] < |ct.symbolTT|
    requires IsStreamOf(cSrc, Stream(ct, src))
    ensures cSrc != [] && cSrc[|cSrc| - 1] != 0
  {
    hide Stream, Low, Shr, Pow2, FromLE;
    StreamLastByte(cSrc, Stream(ct, src));
  }

  method InitDecoderStates(bitD: DStream, dt: DTable, ghost ct: CTable, ghost t: seq<nat>, ghost norm: seq<int>,
                           ghost src: seq<Byte>, ghost good: bool) returns (state1: nat, state2: nat)
    requires Tables(ct, dt, t, norm) && Codable(src, norm)
    requires bitD.Valid() && !bitD.Overrun() && (bitD.bitsConsumed <= 8 || bitD.ptr == 0)
    requires good ==> 2 <= |src| && bitD.Remaining() == Stream(ct, src)
    modifies bitD
    ensures bitD.Valid() && state1 < |dt.cells| && state2 < |dt.cells|
    ensures good ==> OnTrack(ct, src, 0, state1, state2, bitD)
  {
    hide Decoding, Stream, Low, Shr, Pow2;
    if good { DecodingStart(ct, dt, t, norm, src); }
    state1 := bitD.ReadBits(dt.tableLog);
    var status := bitD.Reload();
    state2 := bitD.ReadBits(dt.tableLog);
    status := bitD.Reload();
  }

  // ---------------------------------------------------------------- the round trip

  /** Destination size from which the encoder stops checking the destination while coding. */
  function BlockBound(size: nat): nat { size + size / 128 + 4 + REGISTER_BYTES }

  /** No symbol costs more than `tableLog` bits. */
  lemma {:induction false} EncodedLen(ct: CTable, dt: DTable, t: seq<nat>, norm: seq<int>, src: seq<Byte>, i: nat)
    requires Tables(ct, dt, t, norm) && Codable(src, norm) && i + 2 <= |src|
    ensures Encoded(ct, src, i).bits.len <= ct.tableLog * (|src| - 2 - i)
    decreases |src| - i
  {
    hide Tables, Codable, Encoded, Names;
    EncodedOk(ct, dt, t, norm, src, i);
    if i + 2 < |src| {
      EncodedLen(ct, dt, t, norm, src, i + 1);
      assert ct.tableLog * (|src| - 2 - i) == ct.tableLog * (|src| - 2 - (i + 1)) + ct.tableLog;
    }
  }

  /** The coded bits of a source this long fit in front of the last eight bytes, whatever the symbols are. */
  predicate Fits(tableLog: nat, srcSize: nat, dstSize: nat) {
    tableLog * (srcSize - 2) < 8 * (dstSize - REGISTER_BYTES + 1)
  }

  /** With at most eight bits per symbol the unchecked mode is chosen only when the bits fit. */
  lemma {:induction false} NarrowTablesFit(tableLog: nat, srcSize: nat, dstSize: nat)
    requires tableLog <= 8 && 2 <= srcSize && BlockBound(srcSize) <= dstSize
    ensures Fits(tableLog, srcSize, dstSize)
  {
    MulLe(tableLog, 8, srcSize - 2);
  }

  /** The unchecked mode is chosen, and the coded bits do not fit in front of the last eight bytes. */
  ghost predicate PassesEnd(ct: CTable, src: seq<Byte>, dstSize: nat)
    requires 2 < |src| ==> forall k :: 0 <= k < |src| ==> src[k] < |ct.symbolTT|
  {
    2 < |src| && BlockBound(|src|) <= dstSize && CodedBits(ct, src) / 8 > dstSize - REGISTER_BYTES
  }

  /** The destination's end is never passed when its size is enough for `tableLog` bits a symbol. */
  lemma {:induction false} FittingStays(ct: CTable, dt: DTable, t: seq<nat>, norm: seq<int>, src: seq<Byte>, dstSize: nat)
    requires Tables(ct, dt, t, norm) && Codable(src, norm)
    requires 2 < |src| && BlockBound(|src|) <= dstSize ==> Fits(ct.tableLog, |src|, dstSize)
    ensures !PassesEnd(ct, src, dstSize)
  {
    hide Tables, Codable, Encoded;
    SymbolFits(ct, dt, t, norm, src);
    if 2 < |src| { EncodedLen(ct, dt, t, norm, src, 0); }
  }

  /** A symbol with a single cell costs `tableLog` bits each time. */
  lemma {:induction false} SingleCellCost(ct: CTable, dt: DTable, t: seq<nat>, norm: seq<int>, src: seq<Byte>, i: nat)
    requires Tables(ct, dt, t, norm) && Codable(src, norm) && i + 2 <= |src|
    requires forall k :: 0 <= k < |src| ==> Cells(norm[src[k]]) == 1
    ensures Encoded(ct, src, i).bits.len == ct.tableLog * (|src| - 2 - i)
    decreases |src| - i
  {
    hide Tables, Encoded, IsState, NbBitsOut, Cells, Pow2;
    SymbolFits(ct, dt, t, norm, src);
    if i + 2 < |src| {
      SingleCellCost(ct, dt, t, norm, src, i + 1);
      EncodedOk(ct, dt, t, norm, src, i + 1);
      SingleCellBits(ct, dt, t, norm, Encoded(ct, src, i + 1).other, src[i]);
      EncodedStep(ct, src, i);
      assert ct.tableLog * (|src| - 2 - i) == ct.tableLog * (|src| - 2 - (i + 1)) + ct.tableLog;
    } else {
      EncodedOk(ct, dt, t, norm, src, i);
    }
  }

  lemma {:induction false} EncodedStep(ct: CTable, src: seq<Byte>, i: nat)
    requires i + 2 < |src| && forall k :: 0 <= k < |src| ==> src[k] < |ct.symbolTT|
    ensures Encoded(ct, src, i).bits.len == Encoded(ct, src, i + 1).bits.len + NbBitsOut(ct, Encoded(ct, src, i + 1).other, src[i])
  {}

  lemma {:induction false} SingleCellBits(ct: CTable, dt: DTable, t: seq<nat>, norm: seq<int>, x: nat, s: nat)
    requires Tables(ct, dt, t, norm) && IsState(ct.tableLog, x) && s < |norm| && Cells(norm[s]) == 1
    ensures NbBitsOut(ct, x, s) == ct.tableLog
  {
    hide Pow2, Base, LowLaid, WalkLaid, StatesFilled, TransformsFilled, IsCell, Shr, NbBitsOut, Low;
    var nb := NbBitsOut(ct, x, s);
    BitsOut(ct, t, norm, x, s);
    LowShr(x, nb);
    ShlOne(nb);
    if nb < ct.tableLog {
      TwicePow2(nb);
      Pow2Mono(nb + 1, ct.tableLog);
    }
  }

  /** So the unchecked mode does pass the end: a text of one such symbol is long enough for the unchecked mode and
      too long for the destination exactly when its size lies between two bounds that have nothing to do with
      each other once `tableLog` is above eight. */
  lemma {:induction false} SingleCellText(ct: CTable, dt: DTable, t: seq<nat>, norm: seq<int>, src: seq<Byte>, dstSize: nat)
    requires Tables(ct, dt, t, norm) && Codable(src, norm) && 2 < |src|
    requires forall k :: 0 <= k < |src| ==> Cells(norm[src[k]]) == 1
    ensures PassesEnd(ct, src, dstSize) <==> |src| + |src| / 128 + 12 <= dstSize && 8 * (dstSize - 7) <= ct.tableLog * (|src| - 2)
  {
    hide Tables, Codable, Encoded;
    SymbolFits(ct, dt, t, norm, src);
    SingleCellCost(ct, dt, t, norm, src, 0);
  }

  /** compress_usingCTable: the destination is watched unless it is as large as the bound for blocks. */
  method CompressUsingCTable(dst: array<Byte>, src: seq<Byte>, ct: CTable,
                             ghost dt: DTable, ghost t: seq<nat>, ghost norm: seq<int>) returns (r: Coded)
    requires Tables(ct, dt, t, norm) && Codable(src, norm)
    modifies dst
    ensures r == Overran <==> PassesEnd(ct, src, dst.Length)
    ensures r != Overran ==> (r == Closed(0) <==>
      || |src| <= 2
      || dst.Length <= REGISTER_BYTES
      || (Stream(ct, src).len + 1) / 8 >= dst.Length - REGISTER_BYTES)
    ensures r.Closed? && r.size != 0 ==> r.size <= dst.Length && IsStreamOf(dst[..r.size], Stream(ct, src))
  {
    hide Tables, Codable, Encoded, Stream;
    r := CompressGeneric(dst, src, ct, dst.Length >= BlockBound(|src|), dt, t, norm);
  }

  /** The buffer that records are coded into has a mebibyte. A record of 700000 times a byte with a single one of 4096
      cells is short enough for the unwatched mode, and its bits do not fit. */
  method RareByteOverruns(buffer: array<Byte>) returns (r: Coded)
    requires buffer.Length == 1_048_576
    modifies buffer
    ensures r == Overran
  {
    hide Tables, IsCTable, IsDTable, PassesEnd;
    var norm, src := [1, 4095], seq(700_000, i => 0);
    RareNorm();
    ghost var t, t';
    var ct, dt, ok;
    ct, t := BuildCTable(norm, 12);
    ok, dt, t' := BuildDTable(norm, 12);
    TablesAgree(ct, t, dt, t', norm);
    SingleCellText(ct, dt, t, norm, src, buffer.Length);
    r := CompressUsingCTable(buffer, src, ct, dt, t, norm);
  }

  lemma {:induction false} RareNorm()
    ensures ValidNorm([1, 4095], 12)
  {
    assert Pow2(12) == 4096 by { assert Pow2(4) == 16 && Pow2(8) == 256; }
    var norm := [1, 4095];
    assert Base(norm, 1) == 1 && Base(norm, 2) == 4096;
  }

  method DecompressUsingDTable(dst: array<Byte>, cSrc: seq<Byte>, dt: DTable,
                               ghost ct: CTable, ghost t: seq<nat>, ghost norm: seq<int>, ghost src: seq<Byte>)
    returns (r: Decoded)
    requires Tables(ct, dt, t, norm) && Codable(src, norm)
    modifies dst
    ensures 2 <= |src| && IsStreamOf(cSrc, Stream(ct, src)) ==>
      if |src| <= dst.Length then r == Ok(|src|) && dst[..|src|] == src else r == DestinationTooSmall
    ensures r.Ok? ==> r.size <= dst.Length
  {
    hide Tables, Codable, Stream;
    r := DecompressGeneric(dst, cSrc, dt, dt.fastMode, ct, t, norm, src);
  }

  /** Encoder and decoder, each with the table it built for itself from the same normalized counts:
      what is compressed to a nonzero size is decompressed to exactly the source. With a destination for
      `tableLog` bits a symbol and the closing bits, compression succeeds. */
  method RoundTrip(norm: seq<int>, tableLog: nat, src: seq<Byte>, buffer: array<Byte>, dst: array<Byte>)
    returns (coded: Coded, r: Decoded, ghost ct: CTable)
    requires ValidNorm(norm, tableLog) && Codable(src, norm) && buffer != dst
    modifies buffer, dst
    ensures coded.Closed? && coded.size != 0 && |src| <= dst.Length ==> r == Ok(|src|) && dst[..|src|] == src
    ensures coded.Closed? && coded.size != 0 && |src| > dst.Length ==> r == DestinationTooSmall
    ensures coded == Overran ==> tableLog > 8 && 2 < |src| && BlockBound(|src|) <= buffer.Length && !Fits(tableLog, |src|, buffer.Length)
    ensures 2 < |src| && tableLog * |src| + 8 <= 8 * (buffer.Length - REGISTER_BYTES) ==> coded.Closed? && coded.size != 0
  {
    hide ValidNorm, Codable, Encoded, IsCTable, IsDTable, PassesEnd;
    ghost var t, t';
    var table, dt, ok;
    table, t := BuildCTable(norm, tableLog);
    ct := table;
    ok, dt, t' := BuildDTable(norm, tableLog);
    TablesAgree(ct, t, dt, t', norm);
    if 2 < |src| {
      EncodedLen(ct, dt, t, norm, src, 0);
      assert tableLog * |src| == tableLog * (|src| - 2) + 2 * tableLog;
      if tableLog <= 8 && BlockBound(|src|) <= buffer.Length { NarrowTablesFit(tableLog, |src|, buffer.Length); }
    }
    FitsOrPasses(ct, dt, t, norm, src, buffer.Length);
    coded := CompressUsingCTable(buffer, src, table, dt, t, norm);
    r := SourceWrong;
    if coded.Closed? && coded.size != 0 {
      r := DecompressUsingDTable(dst, buffer[..coded.size], dt, table, t, norm, src);
    }
  }

  lemma {:induction false} FitsOrPasses(ct: CTable, dt: DTable, t: seq<nat>, norm: seq<int>, src: seq<Byte>, dstSize: nat)
    requires Tables(ct, dt, t, norm) && Codable(src, norm)
    ensures PassesEnd(ct, src, dstSize) ==> 2 < |src| && BlockBound(|src|) <= dstSize && !Fits(ct.tableLog, |src|, dstSize)
  {
    hide Tables, Codable, CodedBits, Fits;
    SymbolFits(ct, dt, t, norm, src);
    if 2 < |src| && BlockBound(|src|) <= dstSize && Fits(ct.tableLog, |src|, dstSize) { FittingStays(ct, dt, t, norm, src, dstSize); }
  }

  lemma {:induction false} TablesAgree(ct: CTable, t: seq<nat>, dt: DTable, t': seq<nat>, norm: seq<int>)
    requires ValidNorm(norm, ct.tableLog) && dt.tableLog == ct.tableLog
    requires IsCTable(ct, t, norm) && IsDTable(dt, t', norm)
    ensures t == t' && Tables(ct, dt, t, norm)
  {
    hide ValidNorm, LowLaid, WalkLaid;
    SpreadUnique(t, t', norm, ct.tableLog);
  }
}
