/** Decompressing a string: four codes at a time while the output has room, then at most three more
    without a loop, then byte by byte with truncation. */
module FsstDecoder {
  import opened Bytes
  import opened FsstCodec

  // ---------------------------------------------------------------- the escape mask

  /** Four bytes loaded as one little-endian word. */
  function Load(b0: bv32, b1: bv32, b2: bv32, b3: bv32): bv32 { b0 | (b1 << 8) | (b2 << 16) | (b3 << 24) }

  function EscapeMask(block: bv32): bv32 {
    (block & 0x80808080) & ((((!block) & 0x7F7F7F7F) + 0x7F7F7F7F) ^ 0x80808080)
  }

  /** Number of zero bits below the lowest one bit. */
  function TrailingZeros(x: bv32): nat
    requires x != 0
    decreases x
  {
    if x & 1 == 1 then 0 else 1 + TrailingZeros(x >> 1)
  }

  lemma {:induction false} ByteBits(b: Byte)
    ensures (b as bv32) & 0xFFFFFF00 == 0
    ensures (b as bv32) == 0xFF <==> b == 255
  {}

  lemma {:induction false} MaskBits(b0: bv32, b1: bv32, b2: bv32, b3: bv32)
    requires b0 & 0xFFFFFF00 == 0 && b1 & 0xFFFFFF00 == 0 && b2 & 0xFFFFFF00 == 0 && b3 & 0xFFFFFF00 == 0
    ensures
      EscapeMask(Load(b0, b1, b2, b3)) ==
        (if b0 == 0xFF then 0x80 else 0) | (if b1 == 0xFF then 0x8000 else 0)
        | (if b2 == 0xFF then 0x800000 else 0) | (if b3 == 0xFF then 0x80000000 else 0)
  {}

  lemma {:induction false} ZerosBelow(x: bv32)
    requires x != 0
    ensures x & 1 == 0 ==> x >> 1 != 0 && TrailingZeros(x) == 1 + TrailingZeros(x >> 1)
    ensures x & 1 == 1 ==> TrailingZeros(x) == 0
  {}

  lemma {:induction false} FourZeros(x: bv32)
    requires x & 0xF == 0 && x != 0
    ensures x >> 4 != 0 && TrailingZeros(x) == 4 + TrailingZeros(x >> 4)
  {
    ZerosBelow(x);
    ZerosBelow(x >> 1);
    ZerosBelow((x >> 1) >> 1);
    ZerosBelow(((x >> 1) >> 1) >> 1);
    assert (((x >> 1) >> 1) >> 1) >> 1 == x >> 4;
  }

  lemma {:induction false} EightZeros(x: bv32)
    requires x & 0xFF == 0 && x != 0
    ensures x >> 8 != 0 && TrailingZeros(x) == 8 + TrailingZeros(x >> 8)
  {
    hide TrailingZeros;
    FourZeros(x);
    FourZeros(x >> 4);
    assert (x >> 4) >> 4 == x >> 8;
  }

  lemma {:induction false} OneZero(x: bv32, k: nat)
    requires x & 1 == 0 && x >> 1 != 0 && TrailingZeros(x >> 1) == k
    ensures x != 0 && TrailingZeros(x) == k + 1
  {}

  lemma {:induction false} FourthBit(y: bv32)
    requires y & 0xF == 0x8
    ensures y & 1 == 0 && y >> 1 != 0 && (y >> 1) & 1 == 0 && (y >> 1) >> 1 != 0
    ensures ((y >> 1) >> 1) & 1 == 0 && ((y >> 1) >> 1) >> 1 != 0 && (((y >> 1) >> 1) >> 1) & 1 == 1
  {}

  lemma {:induction false} ThreeZeros(y: bv32)
    requires y & 0xF == 0x8
    ensures y != 0 && TrailingZeros(y) == 3
  {
    FourthBit(y);
    var a := y >> 1;
    var b := a >> 1;
    var c := b >> 1;
    assert TrailingZeros(c) == 0;
    OneZero(b, 0);
    OneZero(a, 1);
    OneZero(y, 2);
  }

  lemma {:induction false} TopBit(x: bv32)
    requires x & 0x7F == 0 && x & 0x80 != 0
    ensures TrailingZeros(x) == 7
  {
    hide TrailingZeros;
    FourZeros(x);
    ThreeZeros(x >> 4);
  }

  /** Position of the first escape among four codes, four if there is none. */
  function FirstEscape(codes: Word, i: nat): (k: nat)
    requires i + 4 <= |codes|
    ensures k <= 4
  {
    if codes[i] == ESCAPE then 0 else if codes[i + 1] == ESCAPE then 1
    else if codes[i + 2] == ESCAPE then 2 else if codes[i + 3] == ESCAPE then 3 else 4
  }

  /** The mask has the top bit of exactly the bytes that are escapes, so counting its trailing zeros
      finds the first of them. */
  lemma {:induction false} MaskFindsEscape(codes: Word, i: nat)
    requires i + 4 <= |codes|
    ensures
      var mask := EscapeMask(Load(codes[i] as bv32, codes[i + 1] as bv32, codes[i + 2] as bv32, codes[i + 3] as bv32));
      if mask == 0 then FirstEscape(codes, i) == 4 else TrailingZeros(mask) / 8 == FirstEscape(codes, i) < 4
  {
    hide TrailingZeros, EscapeMask, Load;
    ByteBits(codes[i]);
    ByteBits(codes[i + 1]);
    ByteBits(codes[i + 2]);
    ByteBits(codes[i + 3]);
    MaskPosition(codes[i] as bv32, codes[i + 1] as bv32, codes[i + 2] as bv32, codes[i + 3] as bv32);
  }

  lemma {:induction false} MaskPosition(b0: bv32, b1: bv32, b2: bv32, b3: bv32)
    requires b0 & 0xFFFFFF00 == 0 && b1 & 0xFFFFFF00 == 0 && b2 & 0xFFFFFF00 == 0 && b3 & 0xFFFFFF00 == 0
    ensures
      var mask := EscapeMask(Load(b0, b1, b2, b3));
      if mask == 0 then b0 != 0xFF && b1 != 0xFF && b2 != 0xFF && b3 != 0xFF
      else TrailingZeros(mask) / 8 == if b0 == 0xFF then 0 else if b1 == 0xFF then 1 else if b2 == 0xFF then 2 else 3
    ensures EscapeMask(Load(b0, b1, b2, b3)) != 0 ==> b0 == 0xFF || b1 == 0xFF || b2 == 0xFF || b3 == 0xFF
  {
    hide TrailingZeros, EscapeMask, Load;
    MaskBits(b0, b1, b2, b3);
    var mask := EscapeMask(Load(b0, b1, b2, b3));
    if b0 == 0xFF {
      TopBit(mask);
    } else if b1 == 0xFF {
      EightZeros(mask);
      TopBit(mask >> 8);
    } else if b2 == 0xFF {
      EightZeros(mask);
      EightZeros(mask >> 8);
      TopBit((mask >> 8) >> 8);
    } else if b3 == 0xFF {
      EightZeros(mask);
      EightZeros(mask >> 8);
      EightZeros((mask >> 8) >> 8);
      TopBit(((mask >> 8) >> 8) >> 8);
    }
  }

  // ---------------------------------------------------------------- state of a run

  class Decoder {
    const len: array<nat>
    /** All eight bytes of a symbol's slot; the first `len` of them are the symbol. */
    const symbol: array<Word>

    constructor ()
      ensures fresh(len) && fresh(symbol) && len.Length == symbol.Length == 255
    {
      len := new nat[255](_ => 0);
      symbol := new Word[255](_ => []);
    }
  }

  ghost predicate Means(decoder: Decoder, dict: seq<Word>)
    reads decoder.len, decoder.symbol
  {
    && decoder.len.Length == decoder.symbol.Length == |dict| == ESCAPE
    && (forall c :: 0 <= c < ESCAPE ==> |decoder.symbol[c]| == 8 && 1 <= decoder.len[c] <= 8)
    && (forall c :: 0 <= c < ESCAPE ==> dict[c] == decoder.symbol[c][..decoder.len[c]])
  }

  /** After the first `i` code bytes exactly their words have been written. */
  ghost predicate Progress(dict: seq<Word>, codes: Word, i: nat, written: Word)
    requires |dict| == ESCAPE
  {
    i <= |codes| && Complete(codes[i..]) && written + Decode(dict, codes[i..]) == Decode(dict, codes)
  }

  lemma {:induction false} CodeProgress(dict: seq<Word>, codes: Word, i: nat, written: Word)
    requires |dict| == ESCAPE && Progress(dict, codes, i, written) && i < |codes|
    ensures codes[i] < ESCAPE ==> Progress(dict, codes, i + 1, written + dict[codes[i]])
    ensures codes[i] == ESCAPE ==> i + 2 <= |codes| && Progress(dict, codes, i + 2, written + [codes[i + 1]])
  {
    hide Decode, Complete;
    var rest := codes[i..];
    CodeFirst(rest);
    if codes[i] < ESCAPE {
      assert rest[1..] == codes[i + 1..];
      DecodeCode(dict, codes[i], codes[i + 1..]);
      assert written + (dict[codes[i]] + Decode(dict, codes[i + 1..])) == (written + dict[codes[i]]) + Decode(dict, codes[i + 1..]);
    } else {
      assert rest[2..] == codes[i + 2..];
      DecodeEscape(dict, codes[i + 1], codes[i + 2..]);
      assert written + ([codes[i + 1]] + Decode(dict, codes[i + 2..])) == (written + [codes[i + 1]]) + Decode(dict, codes[i + 2..]);
    }
  }

  /** The unaligned store writes all eight bytes of the slot, whatever the symbol's length. */
  method Store(out: array<Byte>, pos: nat, w: Word)
    requires |w| == 8 && pos + 8 <= out.Length
    modifies out
    ensures out[..] == old(out[..pos]) + w + old(out[pos + 8..])
  {
    forall i | 0 <= i < 8 { out[pos + i] := w[i]; }
  }

  /** Decodes one code that is not an escape. */
  method PutCode(decoder: Decoder, ghost dict: seq<Word>, codes: Word, i: nat, out: array<Byte>, pos: nat) returns (i': nat, pos': nat)
    requires Means(decoder, dict) && i < |codes| && codes[i] < ESCAPE && pos + 8 <= out.Length && Progress(dict, codes, i, out[..pos])
    modifies out
    ensures i' == i + 1 && pos < pos' <= pos + 8 && Progress(dict, codes, i', out[..pos']) && Means(decoder, dict)
  {
    hide Progress;
    CodeProgress(dict, codes, i, out[..pos]);
    var c := codes[i];
    Store(out, pos, decoder.symbol[c]);
    i', pos' := i + 1, pos + decoder.len[c];
    assert out[..pos'] == old(out[..pos]) + dict[c];
  }

  /** Decodes an escaped byte. */
  method PutEscaped(ghost dict: seq<Word>, codes: Word, i: nat, out: array<Byte>, pos: nat) returns (i': nat, pos': nat)
    requires |dict| == ESCAPE && i < |codes| && codes[i] == ESCAPE && pos < out.Length && Progress(dict, codes, i, out[..pos])
    modifies out
    ensures i' == i + 2 <= |codes| && pos' == pos + 1 && Progress(dict, codes, i', out[..pos'])
  {
    hide Progress;
    CodeProgress(dict, codes, i, out[..pos]);
    i', pos' := i + 2, pos + 1;
    out[pos] := codes[i' - 1];
    assert out[..pos'] == old(out[..pos]) + [codes[i + 1]];
  }

  // ---------------------------------------------------------------- blocks of four codes

  /** Where a block starting at `i` ends: after four codes, or after the first escaped byte. */
  function AfterBlock(codes: Word, i: nat): (i': nat)
    requires i + 4 <= |codes|
    ensures i + 2 <= i' <= i + 5
  {
    var k := FirstEscape(codes, i);
    if k == 4 then i + 4 else i + k + 2
  }

  /** Codes `i` up to `i + k` are no escapes. */
  predicate Plain(codes: Word, i: nat, k: nat) {
    i + k <= |codes| && forall j :: i <= j < i + k ==> codes[j] < ESCAPE
  }

  lemma {:induction false} EscapeAt(codes: Word, i: nat)
    requires i + 4 <= |codes|
    ensures Plain(codes, i, FirstEscape(codes, i))
    ensures FirstEscape(codes, i) < 4 ==> codes[i + FirstEscape(codes, i)] == ESCAPE
  {}

  method Block(decoder: Decoder, ghost dict: seq<Word>, codes: Word, i: nat, out: array<Byte>, pos: nat) returns (i': nat, pos': nat)
    requires |dict| == ESCAPE && Means(decoder, dict) && i + 4 <= |codes|
    requires pos + 32 <= out.Length && Progress(dict, codes, i, out[..pos])
    modifies out
    ensures i' == AfterBlock(codes, i) <= |codes| && pos' <= out.Length
    ensures Means(decoder, dict) && Progress(dict, codes, i', out[..pos'])
  {
    hide Progress, Means, EscapeMask, Load, TrailingZeros, FirstEscape, Plain;
    MaskFindsEscape(codes, i);
    EscapeAt(codes, i);
    var mask := EscapeMask(Load(codes[i] as bv32, codes[i + 1] as bv32, codes[i + 2] as bv32, codes[i + 3] as bv32));
    if mask == 0 {
      i', pos' := PutFour(decoder, dict, codes, i, out, pos);
    } else {
      i', pos' := PutUpToEscape(decoder, dict, codes, i, out, pos, TrailingZeros(mask) / 8);
    }
  }

  method PutFour(decoder: Decoder, ghost dict: seq<Word>, codes: Word, i: nat, out: array<Byte>, pos: nat) returns (i': nat, pos': nat)
    requires |dict| == ESCAPE && Means(decoder, dict) && Plain(codes, i, 4)
    requires pos + 32 <= out.Length && Progress(dict, codes, i, out[..pos])
    modifies out
    ensures i' == i + 4 <= |codes| && pos' <= out.Length && Means(decoder, dict) && Progress(dict, codes, i', out[..pos'])
  {
    hide Progress, Means;
    i', pos' := PutCode(decoder, dict, codes, i, out, pos);
    i', pos' := PutCode(decoder, dict, codes, i', out, pos');
    i', pos' := PutCode(decoder, dict, codes, i', out, pos');
    i', pos' := PutCode(decoder, dict, codes, i', out, pos');
  }

  /** The switch whose cases fall through: `k` plain codes, then the escaped byte. */
  method PutUpToEscape(decoder: Decoder, ghost dict: seq<Word>, codes: Word, i: nat, out: array<Byte>, pos: nat, k: nat)
    returns (i': nat, pos': nat)
    requires |dict| == ESCAPE && Means(decoder, dict) && k < 4 && Plain(codes, i, k) && i + k < |codes| && codes[i + k] == ESCAPE
    requires pos + 32 <= out.Length && Progress(dict, codes, i, out[..pos])
    modifies out
    ensures i' == i + k + 2 <= |codes| && pos' <= out.Length && Means(decoder, dict) && Progress(dict, codes, i', out[..pos'])
  {
    hide Progress, Means;
    i', pos' := i, pos;
    if k >= 3 { i', pos' := PutCode(decoder, dict, codes, i', out, pos'); }
    if k >= 2 { i', pos' := PutCode(decoder, dict, codes, i', out, pos'); }
    if k >= 1 { i', pos' := PutCode(decoder, dict, codes, i', out, pos'); }
    i', pos' := PutEscaped(dict, codes, i', out, pos');
  }

  /** Output size after the first `i` code bytes. */
  function Written(dict: seq<Word>, codes: Word, i: nat): int
    requires |dict| == ESCAPE && i <= |codes|
  {
    |Decode(dict, codes)| - |Decode(dict, codes[i..])|
  }

  /** Where the block loop stops. */
  function BlocksEnd(dict: seq<Word>, codes: Word, i: nat, size: nat): (j: nat)
    requires |dict| == ESCAPE && i <= |codes| && Complete(codes[i..])
    ensures j <= |codes| && Complete(codes[j..])
    ensures Written(dict, codes, j) + 32 > size || j + 4 > |codes|
    decreases |codes| - i
  {
    if Written(dict, codes, i) + 32 <= size && i + 4 <= |codes| then
      BlockAligned(codes, i);
      BlocksEnd(dict, codes, AfterBlock(codes, i), size)
    else i
  }

  lemma {:induction false} Aligned(codes: Word, i: nat)
    requires i < |codes| && Complete(codes[i..])
    ensures codes[i] < ESCAPE ==> Complete(codes[i + 1..])
    ensures codes[i] == ESCAPE ==> i + 2 <= |codes| && Complete(codes[i + 2..])
  {
    var rest := codes[i..];
    assert rest[1..] == codes[i + 1..];
    if rest[0] == ESCAPE {
      assert rest[2..] == codes[i + 2..];
    }
  }

  lemma {:induction false} BlockAligned(codes: Word, i: nat)
    requires i + 4 <= |codes| && Complete(codes[i..])
    ensures AfterBlock(codes, i) <= |codes| && Complete(codes[AfterBlock(codes, i)..])
  {
    hide Complete;
    var k := FirstEscape(codes, i);
    Aligned(codes, i);
    if k >= 1 { Aligned(codes, i + 1); }
    if k >= 2 { Aligned(codes, i + 2); }
    if k >= 3 { Aligned(codes, i + 3); }
  }

  /** Position of the code that the tail takes last, as it takes it for a symbol. */
  function TailLast(codes: Word, i: nat): nat {
    if i + 2 > |codes| then i
    else if codes[i] < ESCAPE && codes[i + 1] == ESCAPE then i + 3
    else i + 2
  }

  /** The tail runs although codes are left beyond it, and meets an escape where it expects the last
      code: it would read symbol number 255. */
  predicate Overruns(dict: seq<Word>, codes: Word, size: nat)
    requires |dict| == ESCAPE && Complete(codes)
  {
    assert codes[0..] == codes;
    var i := BlocksEnd(dict, codes, 0, size);
    var last := TailLast(codes, i);
    Written(dict, codes, i) + 24 <= size && last < |codes| && codes[last] == ESCAPE
  }

  /** With 32 bytes more than the output takes, the block loop leaves at most three code bytes. */
  lemma {:induction false} RoomSuffices(dict: seq<Word>, codes: Word, size: nat)
    requires |dict| == ESCAPE && Complete(codes) && size >= |Decode(dict, codes)| + 32
    ensures !Overruns(dict, codes, size)
  {
    hide Complete, BlocksEnd;
    assert codes[0..] == codes;
    var i := BlocksEnd(dict, codes, 0, size);
    if i < |codes| {
      Aligned(codes, i);
      if codes[i] < ESCAPE && i + 2 <= |codes| {
        Aligned(codes, i + 1);
      }
      var last := TailLast(codes, i);
      if last < |codes| { Aligned(codes, last); }
    }
  }

  /** A buffer six times as large as the output does not suffice. */
  lemma {:induction false} RoomNeeded(dict: seq<Word>, codes: Word)
    requires |dict| == ESCAPE && dict[0] == [97] && codes == [0, 0, 255, 7, 0]
    ensures Complete(codes) && Decode(dict, codes) == [97, 97, 7, 97] && Overruns(dict, codes, 24)
  {
    assert codes[0..] == codes;
    var c1, c2, c3, c4: Word := [0, 255, 7, 0], [255, 7, 0], [0], [];
    assert codes[1..] == c1 && c1[1..] == c2 && c2[2..] == c3 && c3[1..] == c4;
    assert Complete(c4) && Complete(c3) && Complete(c2) && Complete(c1);
    assert Decode(dict, c4) == [];
    assert Decode(dict, c3) == [97];
    assert Decode(dict, c2) == [7, 97];
    assert Decode(dict, c1) == [97, 7, 97];
  }

  // ---------------------------------------------------------------- the decoder

  method Tail(decoder: Decoder, ghost dict: seq<Word>, codes: Word, i: nat, out: array<Byte>, pos: nat)
    returns (overrun: bool, i': nat, pos': nat)
    requires |dict| == ESCAPE && Means(decoder, dict) && pos + 24 <= out.Length && Progress(dict, codes, i, out[..pos]) && i <= |codes|
    modifies out
    ensures overrun <==> TailLast(codes, i) < |codes| && codes[TailLast(codes, i)] == ESCAPE
    ensures !overrun ==> pos' <= out.Length && Means(decoder, dict) && Progress(dict, codes, i', out[..pos'])
  {
    hide Progress, Means;
    i', pos' := i, pos;
    if i + 2 <= |codes| {
      ghost var before := out[..pos];
      out[pos] := codes[i + 1];
      assert out[..pos] == before;
      if codes[i] != ESCAPE {
        i', pos' := PutCode(decoder, dict, codes, i', out, pos');
        if codes[i'] != ESCAPE {
          i', pos' := PutCode(decoder, dict, codes, i', out, pos');
        } else {
          i', pos' := PutEscaped(dict, codes, i', out, pos');
        }
      } else {
        i', pos' := PutEscaped(dict, codes, i', out, pos');
      }
    }
    if i' < |codes| {
      if codes[i'] == ESCAPE { return true, i', pos'; }
      i', pos' := PutCode(decoder, dict, codes, i', out, pos');
    }
    overrun := false;
  }

  /** As much of the decoded text as has been reached and fits. */
  ghost predicate Truncated(dict: seq<Word>, codes: Word, i: nat, out: Word, pos: nat)
    requires |dict| == ESCAPE
  {
    && i <= |codes| && Complete(codes[i..]) && pos <= |Decode(dict, codes)|
    && pos + |Decode(dict, codes[i..])| == |Decode(dict, codes)|
    && Decode(dict, codes)[pos..] == Decode(dict, codes[i..])
    && (if pos <= |out| then out[..pos] == Decode(dict, codes)[..pos] else out == Decode(dict, codes)[..|out|])
  }

  /** One more word `w`, of which `n` bytes still fit. */
  lemma {:induction false} TruncatedStep(dict: seq<Word>, codes: Word, i: nat, out: Word, pos: nat, i': nat, w: Word, out': Word)
    requires |dict| == ESCAPE && Truncated(dict, codes, i, out, pos) && |out'| == |out|
    requires i <= i' <= |codes| && Complete(codes[i'..]) && Decode(dict, codes[i..]) == w + Decode(dict, codes[i'..])
    requires
      var kept := if pos <= |out| then pos else |out|;
      var end := if pos + |w| <= |out| then pos + |w| else |out|;
      kept <= end && out'[..kept] == out[..kept] && (pos <= |out| ==> out'[pos..end] == w[..end - pos])
    ensures Truncated(dict, codes, i', out', pos + |w|)
  {
    hide Decode, Complete;
    var text := Decode(dict, codes);
    assert text[pos..] == w + Decode(dict, codes[i'..]);
    assert text[pos..pos + |w|] == text[pos..][..|w|] == w;
    assert text[pos + |w|..] == text[pos..][|w|..];
    if pos + |w| <= |out| {
      assert out'[..pos + |w|] == out'[..pos] + out'[pos..pos + |w|];
      assert text[..pos + |w|] == text[..pos] + text[pos..pos + |w|];
    } else if pos <= |out| {
      assert out' == out'[..pos] + out'[pos..|out|];
      assert text[..|out|] == text[..pos] + text[pos..pos + |w|][..|out| - pos];
    } else {
      assert out' == out'[..|out|] == out[..|out|] == out;
    }
  }

  /** Writes as much of the first `length` bytes as fits. */
  method PutClipped(out: array<Byte>, pos: nat, slot: Word, length: nat)
    requires length <= |slot|
    modifies out
    ensures
      var kept := if pos <= out.Length then pos else out.Length;
      var end := if pos + length <= out.Length then pos + length else out.Length;
      && kept <= end && out[..][..kept] == old(out[..])[..kept]
      && (pos <= out.Length ==> out[..][pos..end] == slot[..length][..end - pos])
  {
    var end := pos + length;
    if end > out.Length { end := out.Length; }
    forall k | pos <= k < end { out[k] := slot[k - pos]; }
  }

  /** The byte loop: writes what fits and counts everything. */
  method ByteLoop(decoder: Decoder, ghost dict: seq<Word>, codes: Word, start: nat, out: array<Byte>, from: nat) returns (pos: nat)
    requires |dict| == ESCAPE && Means(decoder, dict) && Truncated(dict, codes, start, out[..], from)
    modifies out
    ensures Truncated(dict, codes, |codes|, out[..], pos)
  {
    hide Decode, Complete, Truncated;
    var i: nat := start;
    pos := from;
    TruncatedRange(dict, codes, i, out[..], pos);
    while i < |codes|
      invariant i <= |codes| && Means(decoder, dict) && Truncated(dict, codes, i, out[..], pos)
    {
      ghost var was := out[..];
      TruncatedRange(dict, codes, i, was, pos);
      DecodeNext(dict, codes, i);
      if codes[i] < ESCAPE {
        var c := codes[i];
        PutClipped(out, pos, decoder.symbol[c], decoder.len[c]);
        TruncatedStep(dict, codes, i, was, pos, i + 1, dict[c], out[..]);
        pos := pos + decoder.len[c];
        i := i + 1;
      } else {
        if pos < out.Length { out[pos] := codes[i + 1]; }
        TruncatedStep(dict, codes, i, was, pos, i + 2, [codes[i + 1]], out[..]);
        pos := pos + 1;
        i := i + 2;
      }
      TruncatedRange(dict, codes, i, out[..], pos);
    }
  }

  lemma {:induction false} TruncatedRange(dict: seq<Word>, codes: Word, i: nat, out: Word, pos: nat)
    requires |dict| == ESCAPE && Truncated(dict, codes, i, out, pos)
    ensures i <= |codes| && Complete(codes[i..])
  {}

  lemma {:induction false} DecodeNext(dict: seq<Word>, codes: Word, i: nat)
    requires |dict| == ESCAPE && i < |codes| && Complete(codes[i..])
    ensures
      if codes[i] < ESCAPE then
        Complete(codes[i + 1..]) && Decode(dict, codes[i..]) == dict[codes[i]] + Decode(dict, codes[i + 1..])
      else
        i + 2 <= |codes| && Complete(codes[i + 2..]) && Decode(dict, codes[i..]) == [codes[i + 1]] + Decode(dict, codes[i + 2..])
  {
    hide Decode, Complete;
    var rest := codes[i..];
    CodeFirst(rest);
    if codes[i] < ESCAPE {
      assert rest[1..] == codes[i + 1..];
      DecodeCode(dict, codes[i], codes[i + 1..]);
    } else {
      assert rest[2..] == codes[i + 2..];
      DecodeEscape(dict, codes[i + 1], codes[i + 2..]);
    }
  }

  lemma {:induction false} ProgressMeans(dict: seq<Word>, codes: Word, i: nat, out: Word, pos: nat)
    requires |dict| == ESCAPE && pos <= |out| && Progress(dict, codes, i, out[..pos])
    ensures i <= |codes| && Complete(codes[i..]) && pos == Written(dict, codes, i) && Truncated(dict, codes, i, out, pos)
  {
    hide Decode, Complete;
    assert Decode(dict, codes) == out[..pos] + Decode(dict, codes[i..]);
  }

  /** The block loop stops where BlocksEnd says. */
  method Blocks(decoder: Decoder, ghost dict: seq<Word>, codes: Word, out: array<Byte>) returns (i: nat, pos: nat)
    requires |dict| == ESCAPE && Means(decoder, dict) && Complete(codes)
    modifies out
    ensures Complete(codes[0..]) && i == BlocksEnd(dict, codes, 0, out.Length) && pos <= out.Length
    ensures Means(decoder, dict) && Progress(dict, codes, i, out[..pos])
  {
    hide Means, AfterBlock, Decode, Complete, Written;
    i, pos := 0, 0;
    assert codes[0..] == codes && out[..0] == [];
    ProgressMeans(dict, codes, i, out[..], pos);
    while pos + 32 <= out.Length && i + 4 <= |codes|
      invariant i <= |codes| && pos <= out.Length && Means(decoder, dict) && Progress(dict, codes, i, out[..pos])
      invariant pos == Written(dict, codes, i)
      invariant BlocksEnd(dict, codes, i, out.Length) == BlocksEnd(dict, codes, 0, out.Length)
      decreases |codes| - i
    {
      BlockAligned(codes, i);
      i, pos := Block(decoder, dict, codes, i, out, pos);
      assert out[..][..pos] == out[..pos];
      ProgressMeans(dict, codes, i, out[..], pos);
    }
  }

  /** Decompresses a complete code sequence, unless the tail would read past the symbols, which it does
      exactly for the inputs `Overruns` describes. The result is the size of the whole text, of which as
      much is written as fits. */
  method Decompress(decoder: Decoder, ghost dict: seq<Word>, codes: Word, out: array<Byte>) returns (overrun: bool, size: nat)
    requires |dict| == ESCAPE && Means(decoder, dict) && Complete(codes)
    modifies out
    ensures overrun <==> Overruns(dict, codes, out.Length)
    ensures !overrun ==> size == |Decode(dict, codes)|
    ensures !overrun && size <= out.Length ==> out[..size] == Decode(dict, codes)
    ensures !overrun && size > out.Length ==> out[..] == Decode(dict, codes)[..out.Length]
  {
    hide Progress, Means, BlocksEnd, Decode, Complete, Written, TailLast;
    size := 0;
    var i, pos := Blocks(decoder, dict, codes, out);
    assert out[..][..pos] == out[..pos];
    ProgressMeans(dict, codes, i, out[..], pos);
    if pos + 24 <= out.Length {
      overrun, i, pos := Tail(decoder, dict, codes, i, out, pos);
      if overrun { return; }
      assert out[..][..pos] == out[..pos];
      ProgressMeans(dict, codes, i, out[..], pos);
    }
    overrun := false;
    size := ByteLoop(decoder, dict, codes, i, out, pos);
    NothingLeft(dict, codes);
  }

  lemma {:induction false} NothingLeft(dict: seq<Word>, codes: Word)
    requires |dict| == ESCAPE
    ensures Decode(dict, codes[|codes|..]) == []
  {}
}
