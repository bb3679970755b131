/** Huffman streams: symbols are written last to first, so that the decoder, which reads the stream from
    its end, meets them in order. */
module HuffmanCodec {
  import opened Powers
  import opened Bytes
  import opened BitStream
  import opened HuffmanTable
  import opened HuffmanReaders

  /** A code book: numbers of bits and codes of the encoder, byte and number of bits of the decoder. */
  datatype Book = Book(tableLog: nat, nbBits: seq<nat>, val: seq<nat>, dtByte: seq<nat>, dtBits: seq<nat>)

  ghost predicate Agreed(book: Book, ws: seq<nat>) {
    && Weights(ws, book.tableLog)
    && Coded(book.nbBits, book.val, ws, book.tableLog)
    && Laid(book.dtByte, book.dtBits, ws, book.tableLog, |ws|)
  }

  /** Every symbol of the source has a code. */
  ghost predicate Codable(src: Word, ws: seq<nat>) { forall k :: 0 <= k < |src| ==> src[k] < |ws| && ws[src[k]] > 0 }

  /** The bits of a text: the first symbol on top. */
  function TextBits(book: Book, src: Word): Bits
    requires forall k :: 0 <= k < |src| ==> src[k] < |book.nbBits| && src[k] < |book.val|
    decreases |src|
  {
    if src == [] then EMPTY else TextBits(book, src[1..]).Push(book.val[src[0]], book.nbBits[src[0]])
  }

  lemma {:induction false} AgreedSizes(book: Book, ws: seq<nat>, src: Word)
    requires Agreed(book, ws) && Codable(src, ws)
    ensures 1 <= book.tableLog <= 12 && |ws| <= 256
    ensures forall k :: 0 <= k < |src| ==> src[k] < |book.nbBits| && src[k] < |book.val| && src[k] < |ws| && 1 <= book.nbBits[src[k]] <= book.tableLog
  {
    hide WeightSum, CodeOf, Laid, Pow2;
  }

  lemma {:induction false} TextBitsValid(book: Book, ws: seq<nat>, src: Word)
    requires Agreed(book, ws) && Codable(src, ws)
    ensures forall k :: 0 <= k < |src| ==> src[k] < |book.nbBits| && src[k] < |book.val|
    ensures TextBits(book, src).Valid()
    decreases |src|
  {
    hide Agreed;
    AgreedSizes(book, ws, src);
    if src != [] {
      TextBitsValid(book, ws, src[1..]);
      PopPush(TextBits(book, src[1..]), book.val[src[0]], book.nbBits[src[0]]);
    }
  }

  /** The codes fit their numbers of bits. */
  lemma {:induction false} CodeFits(book: Book, ws: seq<nat>, s: nat)
    requires Agreed(book, ws) && s < |ws| && ws[s] > 0
    ensures s < |book.val| && s < |book.nbBits| && book.val[s] < Pow2(book.nbBits[s])
  {
    hide Pow2, Shr, WeightSum, Laid, InSlot, CodeOf;
    var nb := book.nbBits[s];
    SlotBelow(ws, book.tableLog, s);
    CodesAgree(ws, book.tableLog, s, SlotStart(ws, s));
    ShrBound(SlotStart(ws, s), book.tableLog - nb, nb);
  }

  lemma {:induction false} SlotBelow(ws: seq<nat>, tableLog: nat, s: nat)
    requires Weights(ws, tableLog) && s < |ws| && ws[s] > 0
    ensures InSlot(ws, s, SlotStart(ws, s)) && SlotStart(ws, s) < Pow2(tableLog)
  {
    hide StartOf, WeightSum, Shl;
    SlotEnd(ws, s);
    StartMono(ws, ws[s] + 1, tableLog + 1);
    StartTotal(ws, tableLog + 1);
  }

  // ---------------------------------------------------------------- encoding

  /** The suffix from `i` on has been written. */
  ghost predicate Written(bitC: CStream, book: Book, src: Word, i: nat)
    reads bitC, bitC.dst
  {
    && i <= |src| && (forall k :: 0 <= k < |src| ==> src[k] < |book.nbBits| && src[k] < |book.val|)
    && bitC.Valid() && bitC.bits == TextBits(book, src[i..])
  }

  method EncodeSymbol(bitC: CStream, book: Book, ghost src: Word, symbol: Byte, ghost i: nat, ghost ws: seq<nat>)
    requires Agreed(book, ws) && Codable(src, ws) && Written(bitC, book, src, i) && 0 < i && symbol == src[i - 1]
    requires bitC.bitPos + 12 < REGISTER_BITS
    modifies bitC
    ensures Written(bitC, book, src, i - 1) && bitC.bitPos <= old(bitC.bitPos) + 12
  {
    hide Agreed, Coded, TextBits;
    AgreedSizes(book, ws, src);
    bitC.AddBits(book.val[symbol], book.nbBits[symbol]);
    NextBits(book, src, i - 1);
  }

  lemma {:induction false} NextBits(book: Book, src: Word, i: nat)
    requires i < |src| && forall k :: 0 <= k < |src| ==> src[k] < |book.nbBits| && src[k] < |book.val|
    ensures TextBits(book, src[i..]) == TextBits(book, src[i + 1..]).Push(book.val[src[i]], book.nbBits[src[i]])
  {
    assert src[i..][1..] == src[i + 1..];
  }

  /** The last symbols, up to a multiple of four. */
  method EncodeLast(bitC: CStream, book: Book, src: Word, ghost ws: seq<nat>) returns (n: nat)
    requires Agreed(book, ws) && Codable(src, ws) && Written(bitC, book, src, |src|) && bitC.bitPos == 0
    modifies bitC, bitC.dst
    ensures n % 4 == 0 && n <= |src| && Written(bitC, book, src, n) && bitC.bitPos < 8
  {
    hide Agreed, Codable, TextBits, Written;
    n := |src| - |src| % 4;
    if |src| % 4 >= 3 { EncodeSymbol(bitC, book, src, src[n + 2], n + 3, ws); }
    if |src| % 4 >= 2 { EncodeSymbol(bitC, book, src, src[n + 1], n + 2, ws); }
    if |src| % 4 >= 1 {
      EncodeSymbol(bitC, book, src, src[n], n + 1, ws);
      Flush(bitC, book, src, n);
    }
  }

  method EncodeFour(bitC: CStream, book: Book, src: Word, n: nat, ghost ws: seq<nat>)
    requires Agreed(book, ws) && Codable(src, ws) && 4 <= n <= |src| && Written(bitC, book, src, n) && bitC.bitPos < 8
    modifies bitC, bitC.dst
    ensures Written(bitC, book, src, n - 4) && bitC.bitPos < 8
  {
    hide Agreed, Codable, TextBits, Written;
    EncodeSymbol(bitC, book, src, src[n - 1], n, ws);
    EncodeSymbol(bitC, book, src, src[n - 2], n - 1, ws);
    EncodeSymbol(bitC, book, src, src[n - 3], n - 2, ws);
    EncodeSymbol(bitC, book, src, src[n - 4], n - 3, ws);
    Flush(bitC, book, src, n - 4);
  }

  /** PBC_HUF_compress1X: up to three symbols so that a multiple of four is left, then four between two
      flushes; four codes and a started byte fit the register. */
  method Compress1X(dst: array<Byte>, src: Word, book: Book, ghost ws: seq<nat>) returns (size: nat)
    requires Agreed(book, ws) && Codable(src, ws)
    modifies dst
    ensures forall k :: 0 <= k < |src| ==> src[k] < |book.nbBits| && src[k] < |book.val|
    ensures size == 0 <==> dst.Length <= REGISTER_BYTES || (TextBits(book, src).len + 1) / 8 >= dst.Length - REGISTER_BYTES
    ensures size != 0 ==> size <= dst.Length && IsStreamOf(dst[..size], TextBits(book, src))
  {
    hide Agreed, Codable, TextBits, Written;
    AgreedSizes(book, ws, src);
    if dst.Length < 8 { return 0; }
    var bitC := new CStream(dst);
    if dst.Length <= REGISTER_BYTES { return 0; }
    NothingWritten(bitC, book, src);
    var n: nat;
    n := EncodeLast(bitC, book, src, ws);
    while n > 0
      invariant n % 4 == 0 && n <= |src| && Written(bitC, book, src, n) && bitC.bitPos < 8
      decreases n
    {
      EncodeFour(bitC, book, src, n, ws);
      n := n - 4;
    }
    WrittenMeans(bitC, book, src, 0);
    assert src[0..] == src;
    size := bitC.Close();
  }

  method Flush(bitC: CStream, ghost book: Book, ghost src: Word, ghost i: nat)
    requires Written(bitC, book, src, i)
    modifies bitC, bitC.dst
    ensures Written(bitC, book, src, i) && bitC.bitPos < 8
  {
    hide TextBits;
    bitC.FlushBits();
  }

  lemma {:induction false} NothingWritten(bitC: CStream, book: Book, src: Word)
    requires bitC.Valid() && bitC.bits == EMPTY && forall k :: 0 <= k < |src| ==> src[k] < |book.nbBits| && src[k] < |book.val|
    ensures Written(bitC, book, src, |src|)
  {
    assert src[|src|..] == [];
  }

  lemma {:induction false} WrittenMeans(bitC: CStream, book: Book, src: Word, i: nat)
    requires Written(bitC, book, src, i)
    ensures i <= |src| && (forall k :: 0 <= k < |src| ==> src[k] < |book.nbBits| && src[k] < |book.val|)
    ensures bitC.Valid() && bitC.bits == TextBits(book, src[i..])
  {}

  // ---------------------------------------------------------------- decoding

  /** What remains to be read is the text from symbol `i` on. */
  ghost predicate Reading(bitD: DStream, book: Book, src: Word, i: nat)
    reads bitD
  {
    && i <= |src| && (forall k :: 0 <= k < |src| ==> src[k] < |book.nbBits| && src[k] < |book.val|)
    && !bitD.Overrun() && bitD.Remaining() == TextBits(book, src[i..])
  }

  /** Every entry of the decoder's table names a symbol; one that begins with a code names its owner. */
  lemma {:induction false} EntryNames(book: Book, ws: seq<nat>, u: nat)
    requires Agreed(book, ws) && u < Pow2(book.tableLog)
    ensures u < |book.dtByte| && u < |book.dtBits| && book.dtByte[u] < |ws| <= 256 && 1 <= book.dtBits[u] <= 12
    ensures forall s :: 0 <= s < |ws| && ws[s] > 0 ==> s < |book.nbBits| && s < |book.val| && book.nbBits[s] <= book.tableLog
    ensures forall s :: 0 <= s < |ws| && ws[s] > 0 && Shr(u, book.tableLog - book.nbBits[s]) == book.val[s] ==>
      book.dtByte[u] == s && book.dtBits[u] == book.nbBits[s]
  {
    hide Pow2, Shr, WeightSum, InSlot, CodeOf;
    TablesAgree(book.dtByte, book.dtBits, book.nbBits, book.val, ws, book.tableLog, u);
  }

  /** decodeSymbolX1. The look may reach beyond the text's end; the bits of the next code are right. */
  method DecodeSymbol(bitD: DStream, book: Book, ghost src: Word, ghost i: nat, ghost ws: seq<nat>, ghost good: bool) returns (symbol: Byte)
    requires Agreed(book, ws) && Codable(src, ws) && bitD.Valid()
    requires good ==> Reading(bitD, book, src, i) && i < |src| && (bitD.ptr == 0 || bitD.bitsConsumed + 12 <= REGISTER_BITS)
    modifies bitD`bitsConsumed
    ensures bitD.Valid() && bitD.ptr == old(bitD.ptr) && bitD.bitsConsumed <= old(bitD.bitsConsumed) + 12
    ensures good ==> symbol == src[i] && Reading(bitD, book, src, i + 1)
  {
    hide Agreed, TextBits, Pow2, Shr, Low;
    AgreedSizes(book, ws, src);
    var u := bitD.LookBitsFast(book.tableLog);
    EntryNames(book, ws, u);
    symbol := book.dtByte[u];
    if good {
      ghost var s := src[i];
      NextBits(book, src, i);
      TextBitsValid(book, ws, src[i + 1..]);
      CodeFits(book, ws, s);
      PopPush(TextBits(book, src[i + 1..]), book.val[s], book.nbBits[s]);
      LowSmall(book.val[s], book.nbBits[s]);
      EnoughBits(bitD, book.nbBits[s]);
      bitD.LookWider(book.nbBits[s], book.tableLog);
    }
    bitD.SkipBits(book.dtBits[u]);
  }

  lemma {:induction false} EnoughBits(bitD: DStream, nb: nat)
    requires bitD.Valid() && !bitD.Overrun() && (bitD.ptr == 0 || bitD.bitsConsumed + 12 <= REGISTER_BITS) && nb <= 12
    requires bitD.Remaining().len >= nb
    ensures bitD.bitsConsumed + nb <= REGISTER_BITS
  {}

  /** decodeStreamX1: four symbols between two refills, and the last ones from what the register holds. */
  method DecodeStream(bitD: DStream, dst: array<Byte>, size: nat, book: Book, ghost src: Word, ghost ws: seq<nat>, ghost good: bool)
    requires Agreed(book, ws) && Codable(src, ws) && bitD.Valid() && size <= dst.Length
    requires good ==> Reading(bitD, book, src, 0) && |src| == size
    modifies bitD, dst
    ensures bitD.Valid()
    ensures good ==> Reading(bitD, book, src, size) && dst[..size] == src
  {
    hide Agreed, TextBits, Codable, Reading;
    var p: nat := 0;
    var status := Refill(bitD, book, src, p, good);
    while status == Unfinished && p + 3 < size
      invariant p <= size && bitD.Valid() && (status == Unfinished ==> bitD.bitsConsumed < 8)
      invariant good ==> Reading(bitD, book, src, p) && dst[..p] == src[..p] && (bitD.ptr == 0 || status == Unfinished)
      decreases size - p
    {
      p := DecodeOne(bitD, dst, p, book, src, ws, good);
      p := DecodeOne(bitD, dst, p, book, src, ws, good);
      p := DecodeOne(bitD, dst, p, book, src, ws, good);
      p := DecodeOne(bitD, dst, p, book, src, ws, good);
      status := Refill(bitD, book, src, p, good);
    }
    ghost var rest := size - p;
    assert status == Unfinished ==> rest <= 3;
    ghost var k: nat := 0;
    while p < size
      invariant p <= size && bitD.Valid() && k == rest - (size - p)
      invariant status == Unfinished ==> bitD.bitsConsumed < 8 + 12 * k
      invariant good ==> Reading(bitD, book, src, p) && dst[..p] == src[..p] && (bitD.ptr == 0 || status == Unfinished)
    {
      p := DecodeOne(bitD, dst, p, book, src, ws, good);
      k := k + 1;
    }
    if good { assert src[..size] == src; }
  }

  method Refill(bitD: DStream, ghost book: Book, ghost src: Word, ghost i: nat, ghost good: bool) returns (status: Status)
    requires bitD.Valid() && (good ==> Reading(bitD, book, src, i))
    modifies bitD
    ensures bitD.Valid() && (status == Unfinished ==> bitD.bitsConsumed < 8)
    ensures good ==> Reading(bitD, book, src, i) && (bitD.ptr == 0 || status == Unfinished)
  {
    hide TextBits;
    status := bitD.Reload();
  }

  method DecodeOne(bitD: DStream, dst: array<Byte>, p: nat, book: Book, ghost src: Word, ghost ws: seq<nat>, ghost good: bool) returns (p': nat)
    requires Agreed(book, ws) && Codable(src, ws) && bitD.Valid() && p < dst.Length
    requires good ==> p < |src| && Reading(bitD, book, src, p) && dst[..p] == src[..p] && (bitD.ptr == 0 || bitD.bitsConsumed + 12 <= REGISTER_BITS)
    modifies bitD`bitsConsumed, dst
    ensures p' == p + 1 && bitD.Valid() && bitD.ptr == old(bitD.ptr) && bitD.bitsConsumed <= old(bitD.bitsConsumed) + 12
    ensures good ==> Reading(bitD, book, src, p') && dst[..p'] == src[..p']
  {
    hide Agreed, TextBits, Codable, Reading;
    dst[p] := DecodeSymbol(bitD, book, src, p, ws, good);
    p' := p + 1;
  }

  /** PBC_HUF_decompress1X1: a stream of the text gives the text back, and ends where the text does. */
  method Decompress1X1(dst: array<Byte>, size: nat, cSrc: Word, book: Book, ghost src: Word, ghost ws: seq<nat>) returns (ok: bool)
    requires Agreed(book, ws) && Codable(src, ws) && size <= dst.Length
    modifies dst
    ensures forall k :: 0 <= k < |src| ==> src[k] < |book.nbBits| && src[k] < |book.val|
    ensures IsStreamOf(cSrc, TextBits(book, src)) && |src| == size ==> ok && dst[..size] == src
  {
    hide Agreed, TextBits, Codable;
    AgreedSizes(book, ws, src);
    ghost var good := IsStreamOf(cSrc, TextBits(book, src)) && |src| == size;
    if good { StreamLastByte(cSrc, TextBits(book, src)); }
    var bitD := new DStream(cSrc);
    var started := bitD.Init();
    if !started { return false; }
    assert src[0..] == src;
    DecodeStream(bitD, dst, size, book, src, ws, good);
    if good { TextEnd(book, src); }
    ok := bitD.EndOfDStream();
  }

  lemma {:induction false} TextEnd(book: Book, src: Word)
    requires forall k :: 0 <= k < |src| ==> src[k] < |book.nbBits| && src[k] < |book.val|
    ensures TextBits(book, src[|src|..]) == EMPTY
  {}

  /** No code takes more bits than the table has. */
  lemma {:induction false} TextLength(book: Book, ws: seq<nat>, src: Word)
    requires Agreed(book, ws) && Codable(src, ws)
    ensures forall k :: 0 <= k < |src| ==> src[k] < |book.nbBits| && src[k] < |book.val|
    ensures TextBits(book, src).len <= 12 * |src|
    decreases |src|
  {
    hide Agreed;
    AgreedSizes(book, ws, src);
    if src != [] { TextLength(book, ws, src[1..]); }
  }

  /** Compressing with a code book and decompressing with the table read from the same weights. */
  method RoundTrip(buffer: array<Byte>, dst: array<Byte>, src: Word, book: Book, ghost ws: seq<nat>) returns (size: nat, ok: bool)
    requires Agreed(book, ws) && Codable(src, ws) && buffer != dst && |src| <= dst.Length
    modifies buffer, dst
    ensures size != 0 ==> ok && dst[..|src|] == src
    ensures 2 * |src| + 16 <= buffer.Length ==> size != 0
  {
    hide Agreed, TextBits, Codable, IsStreamOf;
    ok := false;
    TextLength(book, ws, src);
    size := Compress1X(buffer, src, book, ws);
    if size == 0 { return; }
    ok := Decompress1X1(dst, |src|, buffer[..size], book, src, ws);
  }
}
