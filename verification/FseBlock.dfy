/** A whole block of the finite state entropy coder: statistics, normalized counts, their header, and the coded
    symbols; and back. */
module FseBlock {
  import opened Powers
  import opened Bytes
  import opened BitStream
  import opened FseTables
  import opened FseBuild
  import opened FseCodec
  import opened FseNormalize
  import opened NCountFormat
  import NCountBound
  import NCountWriter
  import NCountReader
  import NCountRoundTrip
  import opened Statistics

  // ---------------------------------------------------------------- the table's size

  /** PBC_FSE_optimalTableLog; the subtraction wraps around for tiny sources. */
  function OptimalTableLog(maxTableLog: nat, srcSize: nat, maxSymbol: nat): nat
    requires srcSize > 1 && maxSymbol > 0
  {
    var h := HighBit(srcSize - 1);
    var maxBitsSrc := if h >= 2 then h - 2 else h + 0xFFFF_FFFE;
    var minBits := MinTableLog(srcSize, maxSymbol);
    var wanted := if maxTableLog == 0 then DEFAULT_TABLELOG else maxTableLog;
    var reduced := if maxBitsSrc < wanted then maxBitsSrc else wanted;
    var enough := if minBits > reduced then minBits else reduced;
    if enough < MIN_TABLELOG then MIN_TABLELOG else if enough > MAX_TABLELOG then MAX_TABLELOG else enough
  }

  /** The chosen table size is supported and not below the minimum, so it is never the reason for a failure. */
  lemma {:induction false} OptimalIsSafe(maxTableLog: nat, count: seq<nat>, total: nat)
    requires Counted(count, total)
    ensures SafeLog(count, total, OptimalTableLog(maxTableLog, total, |count| - 1))
    ensures Wanted(OptimalTableLog(maxTableLog, total, |count| - 1)) == OptimalTableLog(maxTableLog, total, |count| - 1)
  {
    hide HighBit, Sum;
    assert Pow2(8) == 256;
    HighBitBelow(|count| - 1, 8);
  }

  /** The minimal size is the first one with more cells than the source has symbols, or than twice the largest symbol. */
  lemma {:induction false} MinimumMeans(srcSize: nat, maxSymbol: nat, x: nat)
    requires srcSize > 1 && maxSymbol > 0
    ensures MinTableLog(srcSize, maxSymbol) <= x <==> Pow2(x) > srcSize || Pow2(x) > 2 * maxSymbol
  {
    hide Pow2, HighBit;
    HighBitAtMost(srcSize, x);
    TwicePow2(HighBit(maxSymbol));
    TwicePow2(HighBit(maxSymbol) + 1);
    if HighBit(maxSymbol) + 2 <= x { Pow2Mono(HighBit(maxSymbol) + 2, x); } else { Pow2Mono(x, HighBit(maxSymbol) + 1); }
  }

  lemma {:induction false} HighBitAtMost(v: nat, x: nat)
    requires v > 0
    ensures HighBit(v) + 1 <= x <==> Pow2(x) > v
  {
    if HighBit(v) + 1 <= x { Pow2Mono(HighBit(v) + 1, x); } else { Pow2Mono(x, HighBit(v)); }
  }

  /** The size chosen is the largest one that is wanted and has no more cells than a quarter of the source less one, unless that is
      below what is needed or supported. */
  lemma {:induction false} OptimalIsLargest(maxTableLog: nat, srcSize: nat, maxSymbol: nat, x: nat)
    requires srcSize > 4 && 0 < maxSymbol < 256 && MIN_TABLELOG <= x <= MAX_TABLELOG
    ensures
      var wanted := if maxTableLog == 0 then 11 else maxTableLog;
      x <= OptimalTableLog(maxTableLog, srcSize, maxSymbol)
      <==> x == MIN_TABLELOG || x <= MinTableLog(srcSize, maxSymbol) || (x <= wanted && 4 * Pow2(x) <= srcSize - 1)
  {
    hide Pow2, HighBit, MinTableLog;
    HighBitAtMost(srcSize - 1, x + 2);
    TwicePow2(x);
    TwicePow2(x + 1);
    assert HighBit(srcSize - 1) >= 2 by { FourBits(srcSize - 1); }
  }

  lemma {:induction false} FourBits(v: nat)
    requires v >= 4
    ensures HighBit(v) >= 2
  {
    HighBitMono(4, v);
    assert HighBit(4) == 2;
  }

  /** What the statistics of a source with at least two different symbols are good for. */
  lemma {:induction false} StatisticsCounted(count: seq<nat>, src: seq<Byte>, maxSymbol: nat, largest: nat)
    requires |count| == 256 && IsHistogram(count, src) && 1 < |src| < TOTAL_LIMIT
    requires maxSymbol < 256 && count[maxSymbol] > 0 && forall s :: maxSymbol < s < 256 ==> count[s] == 0
    requires (forall s :: 0 <= s < 256 ==> count[s] <= largest) && (exists s :: 0 <= s < 256 && count[s] == largest) && largest != |src|
    ensures Counted(count[..maxSymbol + 1], |src|)
    ensures forall s :: 0 <= s <= maxSymbol ==> count[s] != |src|
    ensures forall k :: 0 <= k < |src| ==> src[k] <= maxSymbol && count[src[k]] > 0
  {
    hide Sum, Count;
    HistogramTotal(count, src);
    SumZeros(count, maxSymbol + 1);
    var top :| 0 <= top < 256 && count[top] == largest;
    SumEntry(count, top);
    if maxSymbol == 0 { SumOne(count[..1]); }
    assert src[..|src|] == src;
    forall k | 0 <= k < |src| ensures src[k] <= maxSymbol && count[src[k]] > 0 { Occurs(src, |src|, k); }
  }

  lemma {:induction false} SumOne(f: seq<nat>)
    requires |f| == 1
    ensures Sum(f) == f[0]
  {
    assert f[..0] == [];
  }

  // ---------------------------------------------------------------- compressing a block

  /** `PastEnd` reports that a store has gone beyond the destination. */
  datatype Outcome = Size(size: nat) | Refused | PastEnd

  /** A header, and behind it the stream of the source coded with the table that the header describes. */
  ghost predicate IsBlock(block: seq<Byte>, header: nat, src: seq<Byte>, norm: seq<int>, tableLog: nat, ct: CTable, t: seq<nat>) {
    && ValidNorm(norm, tableLog) && norm[|norm| - 1] != 0 && Codable(src, norm) && ct.tableLog == tableLog && IsCTable(ct, t, norm)
    && header <= |block| && NCountWriter.HeaderBytes(block[..header], Header(norm, tableLog))
    && 2 < |src| && IsStreamOf(block[header..], Stream(ct, src))
  }

  /** Copies a finished part behind what is there. */
  method Append(dst: array<Byte>, at: nat, part: array<Byte>, size: nat)
    requires size <= part.Length && at + size <= dst.Length && dst != part
    modifies dst
    ensures dst[..at] == old(dst[..at]) && dst[at..at + size] == old(part[..size])
  {
    var i: nat := 0;
    while i < size
      invariant i <= size && dst[..at] == old(dst[..at])
      invariant forall k :: 0 <= k < i ==> dst[at + k] == part[k]
    {
      dst[at + i] := part[i];
      i := i + 1;
    }
  }

  /** Bytes of the header. */
  ghost function HeaderSize(norm: seq<int>, tableLog: nat): nat
    requires Summed(norm, tableLog)
  {
    (Len(Header(norm, tableLog)) + 7) / 8
  }

  /** The table that belongs to the counts, and a source that can be coded with it. */
  ghost predicate Codes(src: seq<Byte>, norm: seq<int>, tableLog: nat, ct: CTable, t: seq<nat>) {
    && ValidNorm(norm, tableLog) && Summed(norm, tableLog) && Codable(src, norm) && ct.tableLog == tableLog && IsCTable(ct, t, norm)
    && |src| > 1 && forall k :: 0 <= k < |src| ==> src[k] < |ct.symbolTT|
  }

  /** Where a destination of this size is left: by the header, or by a stream behind it that is not watched. */
  ghost predicate BlockPassesEnd(src: seq<Byte>, norm: seq<int>, tableLog: nat, ct: CTable, t: seq<nat>, dstSize: nat)
    requires Codes(src, norm, tableLog, ct, t)
  {
    if NCountWriter.Touched(Header(norm, tableLog)) > dstSize then NCountWriter.WriteBound(|norm|, tableLog) <= dstSize
    else PassesEnd(ct, src, dstSize - HeaderSize(norm, tableLog))
  }

  /** Where it is too small: the stream reaches the last eight bytes, or there is none for so short a source. */
  ghost predicate StreamTooLong(src: seq<Byte>, norm: seq<int>, tableLog: nat, ct: CTable, t: seq<nat>, dstSize: nat)
    requires Codes(src, norm, tableLog, ct, t)
  {
    |src| <= 2 || (Stream(ct, src).len + 1) / 8 >= dstSize - HeaderSize(norm, tableLog) - REGISTER_BYTES
  }

  /** Header and stream, once the normalized counts are known. */
  method WriteBlock(dst: array<Byte>, src: seq<Byte>, norm: seq<int>, tableLog: nat)
    returns (result: Outcome, ghost header: nat, ghost ct: CTable, ghost t: seq<nat>)
    requires ValidNorm(norm, tableLog) && norm[|norm| - 1] != 0 && Codable(src, norm) && |src| > 1
    modifies dst
    ensures Codes(src, norm, tableLog, ct, t)
    ensures result == PastEnd <==> BlockPassesEnd(src, norm, tableLog, ct, t, dst.Length)
    ensures result == Refused <==>
      NCountWriter.Touched(Header(norm, tableLog)) > dst.Length && !BlockPassesEnd(src, norm, tableLog, ct, t, dst.Length)
    ensures result == PastEnd ==> !RoomForAll(|src|, dst.Length)
    ensures result == PastEnd && tableLog <= 8 ==> dst.Length < NCountWriter.WriteBound(|norm|, tableLog) + 2
    ensures result.Size? ==> (result == Size(0) <==> StreamTooLong(src, norm, tableLog, ct, t, dst.Length))
    ensures result.Size? && result.size > 0 ==>
      && result.size == HeaderSize(norm, tableLog) + Stream(ct, src).len / 8 + 1 <= dst.Length
      && IsBlock(dst[..result.size], header, src, norm, tableLog, ct, t)
  {
    hide Codable, Header, NCountWriter.HeaderBytes, NCountWriter.Touched, Tables, IsCTable, Stream, Base, Pow2, PassesEnd, Len, RoomForAll, Codes;
    header := 0;
    var written := NCountWriter.WriteNCount(dst, norm, tableLog);
    var table;
    ghost var dt;
    table, dt, t := EncoderTable(norm, tableLog);
    ct := table;
    CodesWith(src, norm, tableLog, ct, dt, t);
    Rooms(src, norm, tableLog, ct, dt, t, dst.Length);
    if written == NCountWriter.PastEnd { return PastEnd, header, ct, t; }
    if !written.Ok? { return Refused, header, ct, t; }
    header := written.size;
    NCountWriter.HeaderBytesSize(dst[..header], Header(norm, tableLog));
    ghost var front := dst[..header];
    var rest := new Byte[dst.Length - written.size];
    var coded := CompressUsingCTable(rest, src, table, dt, t, norm);
    if coded == Overran { return PastEnd, header, ct, t; }
    if coded == Closed(0) { return Size(0), header, ct, t; }
    StreamSize(rest[..coded.size], ct, src);
    Append(dst, written.size, rest, coded.size);
    ghost var block := dst[..header + coded.size];
    assert block[..header] == front && block[header..] == rest[..coded.size];
    result := Size(written.size + coded.size);
  }

  /** The encoder's table, with the decoder's for the proofs. */
  method EncoderTable(norm: seq<int>, tableLog: nat) returns (ct: CTable, ghost dt: DTable, ghost t: seq<nat>)
    requires ValidNorm(norm, tableLog)
    ensures Tables(ct, dt, t, norm) && ct.tableLog == tableLog
  {
    hide ValidNorm, IsCTable, IsDTable;
    ghost var t';
    var ok, built;
    ct, t := BuildCTable(norm, tableLog);
    ok, built, t' := BuildDTable(norm, tableLog);
    dt := built;
    TablesAgree(ct, t, dt, t', norm);
  }

  /** What is known of the room for a block. */
  lemma {:induction false} Rooms(src: seq<Byte>, norm: seq<int>, tableLog: nat, ct: CTable, dt: DTable, t: seq<nat>, dstSize: nat)
    requires Codes(src, norm, tableLog, ct, t) && Tables(ct, dt, t, norm)
    ensures BlockPassesEnd(src, norm, tableLog, ct, t, dstSize) ==> !RoomForAll(|src|, dstSize)
    ensures BlockPassesEnd(src, norm, tableLog, ct, t, dstSize) && tableLog <= 8 ==> dstSize < NCountWriter.WriteBound(|norm|, tableLog) + 2
  {
    hide Codable, Header, IsCTable, IsDTable, Base, Pow2, PassesEnd, Len, BlockPassesEnd;
    if RoomForAll(|src|, dstSize) { RoomForBlock(src, norm, tableLog, ct, dt, t, dstSize); }
    if tableLog <= 8 && NCountWriter.WriteBound(|norm|, tableLog) + 2 <= dstSize { NarrowBlock(src, norm, tableLog, ct, dt, t, dstSize); }
  }

  lemma {:induction false} CodesWith(src: seq<Byte>, norm: seq<int>, tableLog: nat, ct: CTable, dt: DTable, t: seq<nat>)
    requires Codable(src, norm) && |src| > 1 && ct.tableLog == tableLog && Tables(ct, dt, t, norm)
    ensures Codes(src, norm, tableLog, ct, t) && Summed(norm, tableLog) && IsCTable(ct, t, norm)
    ensures forall k :: 0 <= k < |src| ==> src[k] < |ct.symbolTT|
  {
    hide Base, Pow2;
  }

  lemma {:induction false} StreamSize(bytes: seq<Byte>, ct: CTable, src: seq<Byte>)
    requires 2 <= |src| && (forall k :: 0 <= k < |src| ==> src[k] < |ct.symbolTT|) && IsStreamOf(bytes, Stream(ct, src))
    ensures |bytes| == Stream(ct, src).len / 8 + 1
  {
    hide Stream;
  }

  /** One and a half bytes for each symbol, and four hundred for the header. */
  predicate RoomForAll(srcSize: nat, dstSize: nat) { srcSize + srcSize / 2 + 400 <= dstSize }

  /** A destination with so much room is never left. */
  lemma {:induction false} RoomForBlock(src: seq<Byte>, norm: seq<int>, tableLog: nat, ct: CTable, dt: DTable, t: seq<nat>, dstSize: nat)
    requires Codes(src, norm, tableLog, ct, t) && dt.tableLog == tableLog && IsDTable(dt, t, norm)
    requires RoomForAll(|src|, dstSize)
    ensures !BlockPassesEnd(src, norm, tableLog, ct, t, dstSize)
  {
    hide Codable, Header, IsCTable, IsDTable, Base, Pow2, PassesEnd, Len;
    HeaderAtMost(norm, tableLog);
    MulLe(tableLog, MAX_TABLELOG, |src| - 2);
    FittingStays(ct, dt, t, norm, src, dstSize - HeaderSize(norm, tableLog));
  }

  lemma {:induction false} HeaderAtMost(norm: seq<int>, tableLog: nat)
    requires Summed(norm, tableLog) && |norm| <= 256
    ensures HeaderSize(norm, tableLog) <= 387 && NCountWriter.Touched(Header(norm, tableLog)) <= 388
  {
    hide Header, Base, Pow2, Len;
    NCountBound.HeaderLength(norm, tableLog);
    MulLe(tableLog, MAX_TABLELOG, |norm| + 1);
    MulLe(|norm| + 1, 257, MAX_TABLELOG);
  }

  /** With tables of at most eight bits only a buffer that ends within two bytes of the bound for headers is left. */
  lemma {:induction false} NarrowBlock(src: seq<Byte>, norm: seq<int>, tableLog: nat, ct: CTable, dt: DTable, t: seq<nat>, dstSize: nat)
    requires Codes(src, norm, tableLog, ct, t) && dt.tableLog == tableLog && IsDTable(dt, t, norm)
    requires tableLog <= 8 && NCountWriter.WriteBound(|norm|, tableLog) + 2 <= dstSize
    ensures !BlockPassesEnd(src, norm, tableLog, ct, t, dstSize)
  {
    hide Codable, Header, IsCTable, IsDTable, Base, Pow2, PassesEnd, Len;
    NCountBound.BoundAndTwo(norm, tableLog);
    var left: int := dstSize - HeaderSize(norm, tableLog);
    if left >= 0 {
      if 2 < |src| && BlockBound(|src|) <= left { NarrowTablesFit(tableLog, |src|, left); }
      FittingStays(ct, dt, t, norm, src, left);
    }
  }

  // ---------------------------------------------------------------- a whole block

  /** Sources that are not worth coding: tiny ones, and those in which no symbol is frequent. */
  ghost predicate NotWorthIt(src: seq<Byte>) {
    |src| <= 1 || (forall s :: 0 <= s < 256 ==> Count(src, s) <= 1) || (forall s :: 0 <= s < 256 ==> Count(src, s) < |src| / 128)
  }

  ghost predicate OneSymbol(src: seq<Byte>) { |src| > 1 && exists s :: 0 <= s < 256 && Count(src, s) == |src| }

  /** How often each of the first `n` bytes occurs. */
  function Occurrences(src: seq<Byte>, n: nat): (count: seq<nat>)
    ensures |count| == n && forall s :: 0 <= s < n ==> count[s] == Count(src, s)
  {
    seq(n, s requires 0 <= s < n => Count(src, s))
  }

  /** The counts of a block: those up to the largest byte that occurs, normalized to the table size chosen for them. */
  ghost predicate CountsOfBlock(src: seq<Byte>, maxTableLog: nat, norm: seq<int>, tableLog: nat) {
    && 1 < |norm| <= 256 && Count(src, |norm| - 1) > 0 && (forall s :: |norm| <= s < 256 ==> Count(src, s) == 0)
    && |src| > 1 && tableLog == OptimalTableLog(maxTableLog, |src|, |norm| - 1) <= MAX_TABLELOG
    && NormOf(norm, Occurrences(src, |norm|), |src|, tableLog)
  }

  datatype Worth = Single | Nothing | Counts

  /** The first part of PBC_FSE_compress_wksp: is the source worth coding, and with which counts? */
  method CountBlock(src: seq<Byte>, maxTableLog: nat) returns (worth: Worth, norm: seq<int>, tableLog: nat)
    requires |src| < TOTAL_LIMIT
    ensures worth == Single <==> OneSymbol(src)
    ensures worth == Nothing <==> NotWorthIt(src) && !OneSymbol(src)
    ensures worth == Counts ==>
      ValidNorm(norm, tableLog) && norm[|norm| - 1] != 0 && Codable(src, norm) && |src| > 1 && CountsOfBlock(src, maxTableLog, norm, tableLog)
  {
    hide Count, Sum, HighBit, Base, Pow2, MinTableLog, ValidNorm, Codable, Share, NormOf;
    norm, tableLog := [], 0;
    if |src| <= 1 { return Nothing, norm, tableLog; }
    var count, maxSymbol, largest := Histogram(src);
    assert forall s :: 0 <= s < 256 ==> count[s] == Count(src, s);
    if largest == |src| { return Single, norm, tableLog; }
    LargestBelow(count[..], src, largest);
    if largest == 1 { return Nothing, norm, tableLog; }
    if largest < |src| / 128 { return Nothing, norm, tableLog; }
    ghost var all: seq<nat> := count[..];
    var counts: seq<nat> := count[..maxSymbol + 1];
    StatisticsCounted(all, src, maxSymbol, largest);
    assert counts == all[..maxSymbol + 1];
    var log := OptimalTableLog(maxTableLog, |src|, maxSymbol);
    OptimalIsSafe(maxTableLog, counts, |src|);
    var normalized := new int[maxSymbol + 1];
    ghost var secondary, top;
    var r;
    r, secondary, top := NormalizeCount(normalized, log, counts, |src|);
    norm, tableLog := normalized[..], r.tableLog;
    assert counts == Occurrences(src, maxSymbol + 1);
    CodableSource(all, src, counts, norm, tableLog, maxSymbol);
    worth := Counts;
  }

  /** PBC_FSE_compress_wksp for sources below 2^31 bytes. 0 stands for a source that is not worth it, 1 for one that
      repeats a single symbol; anything above is the size of a block that is shorter than the source. */
  method CompressBlock(dst: array<Byte>, src: seq<Byte>, maxTableLog: nat)
    returns (result: Outcome, ghost header: nat, ghost norm: seq<int>, ghost tableLog: nat, ghost ct: CTable, ghost t: seq<nat>)
    requires |src| < TOTAL_LIMIT
    modifies dst
    ensures result == Size(1) <==> OneSymbol(src)
    ensures NotWorthIt(src) && !OneSymbol(src) ==> result == Size(0)
    ensures !NotWorthIt(src) && !OneSymbol(src) ==>
      && Codes(src, norm, tableLog, ct, t)
      && (result == PastEnd <==> BlockPassesEnd(src, norm, tableLog, ct, t, dst.Length))
      && (result == Refused <==>
            NCountWriter.Touched(Header(norm, tableLog)) > dst.Length && !BlockPassesEnd(src, norm, tableLog, ct, t, dst.Length))
      && (result == PastEnd && tableLog <= 8 ==> dst.Length < NCountWriter.WriteBound(|norm|, tableLog) + 2)
      && (result.Size? ==> (result == Size(0) <==>
            || StreamTooLong(src, norm, tableLog, ct, t, dst.Length)
            || HeaderSize(norm, tableLog) + Stream(ct, src).len / 8 + 1 >= |src| - 1))
      && CountsOfBlock(src, maxTableLog, norm, tableLog)
    ensures result == PastEnd ==> !RoomForAll(|src|, dst.Length)
    ensures result.Size? && result.size > 1 ==>
      result.size < |src| - 1 && result.size <= dst.Length && IsBlock(dst[..result.size], header, src, norm, tableLog, ct, t)
  {
    hide Count, Base, Pow2, ValidNorm, Codable, IsBlock, Codes, BlockPassesEnd, StreamTooLong, HeaderSize, CountsOfBlock, NotWorthIt, OneSymbol;
    hide NCountWriter.Touched, Header, Stream, RoomForAll;
    header, ct, t := 0, CTable(0, [], []), [];
    var worth, counts, log := CountBlock(src, maxTableLog);
    norm, tableLog := counts, log;
    if worth == Single { result := Size(1); return; }
    if worth == Nothing { result := Size(0); return; }
    result, header, ct, t := WriteBlock(dst, src, counts, log);
    if result.Size? && result.size > 0 && result.size >= |src| - 1 { result := Size(0); }
    if result == Size(1) { BlockSize(dst[..1], header, src, norm, tableLog, ct, t); }
  }

  /** A largest count below the size belongs to a source with at least two symbols. */
  lemma {:induction false} LargestBelow(count: seq<nat>, src: seq<Byte>, largest: nat)
    requires |count| == 256 && IsHistogram(count, src) && |src| > 1
    requires (forall s :: 0 <= s < 256 ==> count[s] <= largest) && (exists s :: 0 <= s < 256 && count[s] == largest) && largest != |src|
    ensures !OneSymbol(src)
    ensures NotWorthIt(src) <==> largest == 1 || largest < |src| / 128
  {
    hide Count, Sum;
    HistogramTotal(count, src);
    var top :| 0 <= top < 256 && count[top] == largest;
    SumEntry(count, top);
    if largest == 0 { SumZeros(count, 0); SumNothing(count[..0]); }
    assert Count(src, top) == largest;
  }

  lemma {:induction false} CodableSource(count: seq<nat>, src: seq<Byte>, counts: seq<nat>, norm: seq<int>, tableLog: nat, maxSymbol: nat)
    requires |count| == 256 && maxSymbol < 256 && counts == count[..maxSymbol + 1] && Normalized(norm, counts, tableLog)
    requires count[maxSymbol] > 0 && forall k :: 0 <= k < |src| ==> src[k] <= maxSymbol && count[src[k]] > 0
    ensures |norm| == maxSymbol + 1 && norm[maxSymbol] != 0 && Codable(src, norm)
  {
    hide Base, Pow2;
    assert counts[maxSymbol] == count[maxSymbol];
    forall k | 0 <= k < |src| ensures src[k] < |norm| && norm[src[k]] != 0 { assert counts[src[k]] == count[src[k]]; }
  }

  /** A block is longer than one byte. */
  lemma {:induction false} BlockSize(block: seq<Byte>, header: nat, src: seq<Byte>, norm: seq<int>, tableLog: nat, ct: CTable, t: seq<nat>)
    requires IsBlock(block, header, src, norm, tableLog, ct, t)
    ensures |block| > 1
  {
    hide Stream, FieldsFrom, IsCTable, Value, Codable;
  }

  // ---------------------------------------------------------------- decompressing a block

  /** PBC_FSE_decompress_wksp on a block. */
  method DecompressBlock(dst: array<Byte>, cSrc: seq<Byte>, ghost header: nat, ghost src: seq<Byte>, ghost norm: seq<int>, ghost tableLog: nat,
                         ghost ct: CTable, ghost t: seq<nat>)
    returns (r: Decoded)
    requires IsBlock(cSrc, header, src, norm, tableLog, ct, t)
    modifies dst
    ensures if |src| <= dst.Length then r == Ok(|src|) && dst[..|src|] == src else r == DestinationTooSmall
  {
    hide Codable, Header, Stream, IsCTable, IsDTable, Base, Pow2, NCountWriter.HeaderBytes;
    var counting := new int[256](_ => 0);
    BlockReadable(cSrc, header, src, norm, tableLog, ct, t);
    NCountRoundTrip.ByteFollows(cSrc, norm, tableLog);
    var n := NCountReader.ReadNCount(cSrc, 255, counting, norm, tableLog);
    CountsRead(counting[..], norm, n.maxSymbol);
    assert counting[..n.maxSymbol + 1] == norm;
    var ok, dt;
    ghost var t';
    ok, dt, t' := BuildDTable(counting[..n.maxSymbol + 1], n.tableLog);
    TablesAgree(ct, t, dt, t', norm);
    r := DecompressUsingDTable(dst, cSrc[n.size..], dt, ct, t, norm, src);
  }

  lemma {:induction false} BlockReadable(block: seq<Byte>, header: nat, src: seq<Byte>, norm: seq<int>, tableLog: nat, ct: CTable, t: seq<nat>)
    requires IsBlock(block, header, src, norm, tableLog, ct, t)
    ensures NCountReader.HasHeader(block, norm, tableLog) && (Len(Header(norm, tableLog)) + 7) / 8 == header < |block|
    ensures |norm| <= 256
  {
    hide Stream, FieldsFrom, IsCTable, Value, Codable, Header, Len;
  }

  /** The last symbol read is the last one of the counts. */
  lemma {:induction false} CountsRead(counts: seq<int>, norm: seq<int>, maxSymbol: nat)
    requires 0 < |norm| <= |counts| && norm[|norm| - 1] != 0 && maxSymbol < |counts|
    requires forall s :: 0 <= s < |counts| ==> counts[s] == NCountReader.Expected(norm, s)
    requires counts[maxSymbol] != 0 && forall s :: maxSymbol < s < |counts| ==> counts[s] == 0
    ensures maxSymbol + 1 == |norm| && counts[..maxSymbol + 1] == norm
  {
    assert counts[|norm| - 1] != 0;
  }

  // ---------------------------------------------------------------- there and back

  /** Whatever is compressed to more than one byte is decompressed to exactly the source. A buffer in which no block
      fits is passed only when it has less than one and a half bytes for each symbol and four hundred more. */
  method RoundTripBlock(src: seq<Byte>, maxTableLog: nat, buffer: array<Byte>, dst: array<Byte>) returns (result: Outcome, r: Decoded)
    requires |src| < TOTAL_LIMIT && buffer != dst
    modifies buffer, dst
    ensures result == PastEnd ==> !RoomForAll(|src|, buffer.Length)
    ensures result == Size(1) <==> OneSymbol(src)
    ensures result.Size? && result.size > 1 ==>
      && result.size < |src| - 1
      && if |src| <= dst.Length then r == Ok(|src|) && dst[..|src|] == src else r == DestinationTooSmall
  {
    hide IsBlock, Codes, BlockPassesEnd, StreamTooLong, HeaderSize, NotWorthIt;
    ghost var header, norm, tableLog, ct, t;
    r := SourceWrong;
    result, header, norm, tableLog, ct, t := CompressBlock(buffer, src, maxTableLog);
    if result.Size? && result.size > 1 {
      r := DecompressBlock(dst, buffer[..result.size], header, src, norm, tableLog, ct, t);
    }
  }
}
