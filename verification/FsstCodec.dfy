/** Compressing strings with a finished symbol table. All three variants of the inner loop emit the
    bytes of the greedy longest-match encoding, and decoding that encoding gives the string back. */
module FsstCodec {
  import opened Bytes
  import opened FsstTable
  import opened FsstFinal

  const ESCAPE: Byte := 255
  const CHUNK: nat := 511

  // ---------------------------------------------------------------- what is emitted

  /** Greedy encoding: the longest symbol that fits, or an escaped byte. */
  function EncodeChunk(fin: seq<Word>, s: Word): Word
    requires WordLengths(fin) && |fin| <= ESCAPE
    decreases |s|
  {
    if s == [] then []
    else
      var c := Longest(fin, s);
      if c >= 0 then [c] + EncodeChunk(fin, s[|fin[c]|..])
      else [ESCAPE, s[0]] + EncodeChunk(fin, s[1..])
  }

  /** Strings are encoded in chunks. */
  function EncodeLine(fin: seq<Word>, s: Word): Word
    requires WordLengths(fin) && |fin| <= ESCAPE
    decreases |s|
  {
    if |s| <= CHUNK then EncodeChunk(fin, s) else EncodeChunk(fin, s[..CHUNK]) + EncodeLine(fin, s[CHUNK..])
  }

  /** Byte by byte: a code stands for its word, the escape for the byte after it. */
  function Decode(dict: seq<Word>, codes: Word): Word
    requires |dict| == ESCAPE
    decreases |codes|
  {
    if codes == [] then []
    else if codes[0] < ESCAPE then dict[codes[0]] + Decode(dict, codes[1..])
    else if |codes| >= 2 then [codes[1]] + Decode(dict, codes[2..])
    else []
  }

  /** No code sequence ends in the middle of an escape. */
  predicate Complete(codes: Word)
    decreases |codes|
  {
    if codes == [] then true
    else if codes[0] < ESCAPE then Complete(codes[1..])
    else |codes| >= 2 && Complete(codes[2..])
  }

  lemma {:induction false} DecodeCode(dict: seq<Word>, c: Byte, rest: Word)
    requires |dict| == ESCAPE && c < ESCAPE
    ensures Decode(dict, [c] + rest) == dict[c] + Decode(dict, rest)
    ensures Complete([c] + rest) <==> Complete(rest)
  {
    assert ([c] + rest)[1..] == rest;
  }

  lemma {:induction false} DecodeEscape(dict: seq<Word>, b: Byte, rest: Word)
    requires |dict| == ESCAPE
    ensures Decode(dict, [ESCAPE, b] + rest) == [b] + Decode(dict, rest)
    ensures Complete([ESCAPE, b] + rest) <==> Complete(rest)
  {
    assert ([ESCAPE, b] + rest)[2..] == rest;
  }

  lemma {:induction false} CodeFirst(codes: Word)
    requires codes != [] && Complete(codes)
    ensures codes[0] < ESCAPE ==> codes == [codes[0]] + codes[1..] && Complete(codes[1..])
    ensures codes[0] == ESCAPE ==> |codes| >= 2 && codes == [ESCAPE, codes[1]] + codes[2..] && Complete(codes[2..])
  {}

  lemma {:induction false} DecodeConcat(dict: seq<Word>, a: Word, b: Word)
    requires |dict| == ESCAPE && Complete(a)
    ensures Decode(dict, a + b) == Decode(dict, a) + Decode(dict, b)
    ensures Complete(b) ==> Complete(a + b)
    decreases |a|, 1
  {
    if a == [] {
      assert a + b == b;
    } else {
      hide Decode, Complete;
      CodeFirst(a);
      if a[0] < ESCAPE {
        ConcatAfterCode(dict, a[0], a[1..], b);
      } else {
        ConcatAfterEscape(dict, a[1], a[2..], b);
      }
    }
  }

  lemma {:induction false} ConcatAfterCode(dict: seq<Word>, c: Byte, rest: Word, b: Word)
    requires |dict| == ESCAPE && c < ESCAPE && Complete(rest)
    ensures Decode(dict, ([c] + rest) + b) == Decode(dict, [c] + rest) + Decode(dict, b)
    ensures Complete(b) ==> Complete(([c] + rest) + b)
    decreases |rest| + 1, 0
  {
    hide Decode, Complete;
    Regroup([c], rest, b);
    DecodeCode(dict, c, rest);
    DecodeCode(dict, c, rest + b);
    DecodeConcat(dict, rest, b);
    Regroup(dict[c], Decode(dict, rest), Decode(dict, b));
  }

  lemma {:induction false} ConcatAfterEscape(dict: seq<Word>, e: Byte, rest: Word, b: Word)
    requires |dict| == ESCAPE && Complete(rest)
    ensures Decode(dict, ([ESCAPE, e] + rest) + b) == Decode(dict, [ESCAPE, e] + rest) + Decode(dict, b)
    ensures Complete(b) ==> Complete(([ESCAPE, e] + rest) + b)
    decreases |rest| + 1, 0
  {
    hide Decode, Complete;
    Regroup([ESCAPE, e], rest, b);
    DecodeEscape(dict, e, rest);
    DecodeEscape(dict, e, rest + b);
    DecodeConcat(dict, rest, b);
    Regroup([e], Decode(dict, rest), Decode(dict, b));
  }

  lemma {:induction false} DecodeEncodeChunk(fin: seq<Word>, dict: seq<Word>, s: Word)
    requires WordLengths(fin) && |fin| <= ESCAPE == |dict| && fin <= dict
    ensures Complete(EncodeChunk(fin, s)) && Decode(dict, EncodeChunk(fin, s)) == s
    decreases |s|
  {
    if s != [] {
      hide Longest, Decode, Complete;
      var c := Longest(fin, s);
      if c >= 0 {
        var rest := s[|fin[c]|..];
        DecodeEncodeChunk(fin, dict, rest);
        DecodeCode(dict, c, EncodeChunk(fin, rest));
        assert dict[c] == fin[c] && s == fin[c] + rest;
      } else {
        DecodeEncodeChunk(fin, dict, s[1..]);
        DecodeEscape(dict, s[0], EncodeChunk(fin, s[1..]));
      }
    }
  }

  /** The coding is lossless, whatever the chunks. */
  lemma {:induction false} DecodeEncodeLine(fin: seq<Word>, dict: seq<Word>, s: Word)
    requires WordLengths(fin) && |fin| <= ESCAPE == |dict| && fin <= dict
    ensures Complete(EncodeLine(fin, s)) && Decode(dict, EncodeLine(fin, s)) == s
    decreases |s|
  {
    hide EncodeChunk, Decode, Complete;
    if |s| <= CHUNK {
      DecodeEncodeChunk(fin, dict, s);
    } else {
      DecodeEncodeChunk(fin, dict, s[..CHUNK]);
      DecodeEncodeLine(fin, dict, s[CHUNK..]);
      DecodeConcat(dict, EncodeChunk(fin, s[..CHUNK]), EncodeLine(fin, s[CHUNK..]));
      assert s == s[..CHUNK] + s[CHUNK..];
    }
  }

  // ---------------------------------------------------------------- one decision of the inner loop

  /** No symbol has the terminator behind its first byte. */
  ghost predicate TerminatorFree(fin: seq<Word>, terminator: Byte) {
    forall c, k :: 0 <= c < |fin| && 1 <= k < |fin[c]| ==> fin[c][k] != terminator
  }

  /** The eight bytes loaded at a position decide like the text up to the end of the chunk: a match
      that ran past the end would contain the terminator that was put there. */
  lemma {:induction false} WindowSame(fin: seq<Word>, word: Word, text: Word, terminator: Byte)
    requires WordLengths(fin) && TerminatorFree(fin, terminator) && Distinct(fin)
    requires |word| == MAX_LENGTH && text != []
    requires |text| < MAX_LENGTH ==> word[..|text|] == text && word[|text|] == terminator
    requires |text| >= MAX_LENGTH ==> text[..MAX_LENGTH] == word
    ensures Longest(fin, word) == Longest(fin, text)
  {
    hide Longest;
    forall i | 0 <= i < |fin| ensures fin[i] <= word <==> fin[i] <= text {
      if |fin[i]| > |text| {
        assert fin[i][|text|] != word[|text|];
      } else {
        assert text[..|fin[i]|] == word[..|fin[i]|];
      }
    }
    SameLongest(fin, word, text);
  }

  lemma {:induction false} SameLongest(fin: seq<Word>, a: Word, b: Word)
    requires Distinct(fin)
    requires forall i :: 0 <= i < |fin| ==> (fin[i] <= a <==> fin[i] <= b)
    ensures Longest(fin, a) == Longest(fin, b)
  {
    hide Longest;
    var c := Longest(fin, a);
    if c >= 0 {
      forall i | 0 <= i < |fin| && fin[i] <= b ensures |fin[i]| <= |fin[c]| {
        LongestIsMaximal(fin, a, i);
      }
      LongestIsUnique(fin, b, c);
    } else {
      forall i | 0 <= i < |fin| ensures !(fin[i] <= b) {
        if fin[i] <= a { LongestIsMaximal(fin, a, i); }
      }
      NoneFits(fin, b);
    }
  }

  /** The short code of two bytes, taken apart. */
  ghost predicate ShortMeans(fin: seq<Word>, word: Word, code: nat, byteLim: nat, suffixLim: nat)
    requires |word| == MAX_LENGTH
  {
    var d, e := IndexIn(fin, [word[0], word[1]]), IndexIn(fin, [word[0]]);
    if d >= 0 then
      code == d + 2 * LEN_UNIT && d < byteLim && (d < suffixLim ==> NoneLonger(fin, word, 2))
    else if e >= 0 then
      code == e + LEN_UNIT && byteLim <= e && suffixLim <= e
    else
      code == ESCAPE_CODE + LEN_UNIT
  }

  lemma {:induction false} ShortCode(codes: seq<nat>, fin: seq<Word>, h: seq<nat>, suffixLim: nat, word: Word)
    requires FinalShorts(codes, fin) && Grouped(fin, h, suffixLim) && |fin| <= ESCAPE && |word| == MAX_LENGTH
    ensures ShortMeans(fin, word, codes[Pair(word[0], word[1])], Start(h, 1), suffixLim)
    ensures suffixLim <= Start(h, 1) <= |fin|
  {
    hide IndexIn, Pair, Start;
    var d, e := IndexIn(fin, [word[0], word[1]]), IndexIn(fin, [word[0]]);
    assert codes[Pair(word[0], word[1])] == FinalShort(fin, word[0], word[1]);
    LimitsOrdered(fin, h, suffixLim);
    if d >= 0 {
      OneByteGroup(fin, h, suffixLim, d);
      forall i | 0 <= i < |fin| && fin[i] <= word && |fin[i]| > 2 ensures Extended(fin, d) {
        assert fin[i][0] == word[0] && fin[i][1] == word[1];
        assert First2(fin[i]) == First2(fin[d]) && i != d;
      }
    } else if e >= 0 {
      OneByteGroup(fin, h, suffixLim, e);
    }
  }

  lemma {:induction false} OneByteGroup(fin: seq<Word>, h: seq<nat>, suffixLim: nat, c: nat)
    requires Grouped(fin, h, suffixLim) && c < |fin|
    ensures |fin[c]| == 1 <==> Start(h, 1) <= c
    ensures c < suffixLim ==> |fin[c]| == 2 && !Extended(fin, c)
  {
    hide Start, Extended;
  }

  lemma {:induction false} LimitsOrdered(fin: seq<Word>, h: seq<nat>, suffixLim: nat)
    requires Grouped(fin, h, suffixLim)
    ensures suffixLim <= Start(h, 1) <= |fin|
  {
    hide Start, Extended;
    if suffixLim > Start(h, 1) {
      OneByteGroup(fin, h, suffixLim, suffixLim - 1);
    }
  }

  /** When no longer symbol fits, the short code decides. */
  lemma {:induction false} ShortDecides(fin: seq<Word>, word: Word, code: nat, byteLim: nat, suffixLim: nat)
    requires Distinct(fin) && |word| == MAX_LENGTH && |fin| <= ESCAPE
    requires ShortMeans(fin, word, code, byteLim, suffixLim) && NoneLonger(fin, word, 2) && WordLengths(fin)
    ensures
      var d, e := IndexIn(fin, [word[0], word[1]]), IndexIn(fin, [word[0]]);
      Longest(fin, word) == if d >= 0 then d else e
  {
    hide IndexIn, Longest;
    var d, e := IndexIn(fin, [word[0], word[1]]), IndexIn(fin, [word[0]]);
    if d >= 0 {
      assert word[..2] == [word[0], word[1]];
      LongestIsUnique(fin, word, d);
    } else {
      forall i | 0 <= i < |fin| && fin[i] <= word ensures fin[i] == [word[0]] && e >= 0 {
        if |fin[i]| == 2 {
          assert fin[i] == word[..2] == [word[0], word[1]];
          IndexOf(fin, i);
        }
        assert fin[i] == word[..1] == [word[0]];
        IndexOf(fin, i);
      }
      if e >= 0 {
        assert word[..1] == [word[0]];
        LongestIsUnique(fin, word, e);
      } else {
        NoneFits(fin, word);
      }
    }
  }

  lemma {:induction false} BucketOwner(fin: seq<Word>, c: nat, j: nat)
    requires NoCollision(fin) && c < |fin| && j < |fin| && |fin[c]| >= 3 && |fin[j]| >= 3
    ensures Bucket(fin[c]) == Bucket(fin[j]) ==> c == j
  {
    hide Bucket;
  }

  /** The hash slot of the word answers for all longer symbols. */
  lemma {:induction false} SlotDecides(slots: seq<Symbol>, fin: seq<Word>, word: Word)
    requires FinalSlots(slots, fin) && NoCollision(fin) && Distinct(fin) && |fin| <= ESCAPE && |word| == MAX_LENGTH
    ensures
      var s := slots[Bucket(word)];
      if s.icl < ICL_FREE && s.bytes <= word
      then Longest(fin, word) >= 0 && CodeOf(s.icl) == Longest(fin, word) && LengthOf(s.icl) == |fin[Longest(fin, word)]|
      else NoneLonger(fin, word, 2)
  {
    hide Bucket, Icl, CodeOf, LengthOf, Longest;
    var s := slots[Bucket(word)];
    assert FinalSlot(s, fin, Bucket(word));
    forall j | 0 <= j < |fin| && fin[j] <= word && |fin[j]| >= 3 ensures Bucket(fin[j]) == Bucket(word) {
      SameBucket(fin[j], word);
    }
    if s != FREE_SLOT {
      var c :| 0 <= c < |fin| && |fin[c]| >= 3 && Bucket(fin[c]) == Bucket(word) && s == Symbol(fin[c], Icl(|fin[c]|, c));
      IclFields(|fin[c]|, c);
      forall j | 0 <= j < |fin| && fin[j] <= word && |fin[j]| >= 3 ensures j == c {
        BucketOwner(fin, c, j);
      }
      if fin[c] <= word {
        LongestIsUnique(fin, word, c);
      }
    }
  }

  lemma {:induction false} TableSizes(st: SymbolTable, fin: seq<Word>)
    requires FinalTable(st, fin)
    ensures st.shortCodes.Length == 65536 && st.hashTab.Length == HASH_SIZE && st.lenHisto.Length >= 8
    ensures |fin| == st.nSymbols <= ESCAPE && st.nSymbols <= st.symbols.Length && WordLengths(fin) && Distinct(fin)
  {
    hide Extended, Start, Bucket, Icl;
  }

  /** Everything the table's lookups say about one window. */
  lemma {:induction false} TableDecides(st: SymbolTable, fin: seq<Word>, word: Word, code: nat, s: Symbol)
    requires FinalTable(st, fin) && |word| == MAX_LENGTH
    requires st.shortCodes.Length == 65536 && code == st.shortCodes[Pair(word[0], word[1])]
    requires st.hashTab.Length == HASH_SIZE && s == st.hashTab[Bucket(word)]
    ensures st.lenHisto.Length >= 8 && st.lenHisto[0] <= st.nSymbols
    ensures
      var byteLim := st.nSymbols - st.lenHisto[0];
      && st.suffixLim <= byteLim < CODE_BASE
      && Decided(fin, word, code, s, byteLim, st.suffixLim)
  {
    hide Bucket, Icl, CodeOf, LengthOf, Longest, Pair, Start, ShortMeans, FinalShorts, FinalSlots, Decided;
    var h := st.lenHisto[..];
    ShortCode(st.shortCodes[..], fin, h, st.suffixLim, word);
    SlotDecides(st.hashTab[..], fin, word);
    StepDecided(fin, word, code, s, Start(h, 1), st.suffixLim);
  }

  function LowByte(code: nat): Byte { code % 256 }
  function EscapeBit(code: nat): (b: nat)
    ensures b < 2
  {
    code / 256 % 2
  }

  function ShortLength(code: nat): nat { code / LEN_UNIT }

  /** The three tests of the inner loop, each with what it establishes: the two-byte test taken first,
      the hash slot, and the short code once the slot has missed. */
  ghost predicate Decided(fin: seq<Word>, word: Word, code: nat, s: Symbol, byteLim: nat, suffixLim: nat) {
    var c := Longest(fin, word);
    && (LowByte(code) < suffixLim ==> Names(fin, word, c, LowByte(code), 2))
    && (s.icl < ICL_FREE && s.bytes <= word ==> Names(fin, word, c, LowByte(CodeOf(s.icl)), LengthOf(s.icl)))
    && (!(s.icl < ICL_FREE && s.bytes <= word) ==>
          && (LowByte(code) < byteLim ==> Names(fin, word, c, LowByte(code), 2))
          && (EscapeBit(code) == 0 ==> Names(fin, word, c, LowByte(code), ShortLength(code)))
          && (LowByte(code) >= byteLim ==> ShortLength(code) == 1)
          && (EscapeBit(code) == 1 ==> c == -1 && LowByte(code) == ESCAPE && ShortLength(code) == 1))
  }

  ghost predicate Names(fin: seq<Word>, word: Word, c: int, code: nat, length: nat) {
    0 <= c < |fin| <= ESCAPE && c == code && length == |fin[c]| && fin[c] <= word
  }

  lemma {:induction false} StepDecided(fin: seq<Word>, word: Word, code: nat, s: Symbol, byteLim: nat, suffixLim: nat)
    requires Distinct(fin) && WordLengths(fin) && |fin| <= ESCAPE && |word| == MAX_LENGTH
    requires ShortMeans(fin, word, code, byteLim, suffixLim) && suffixLim <= byteLim <= |fin|
    requires
      if s.icl < ICL_FREE && s.bytes <= word
      then Longest(fin, word) >= 0 && CodeOf(s.icl) == Longest(fin, word) && LengthOf(s.icl) == |fin[Longest(fin, word)]|
      else NoneLonger(fin, word, 2)
    ensures Decided(fin, word, code, s, byteLim, suffixLim)
  {
    hide CodeOf, LengthOf, Longest, IndexIn;
    var d, e := IndexIn(fin, [word[0], word[1]]), IndexIn(fin, [word[0]]);
    assert d >= 0 ==> LowByte(code) == d && ShortLength(code) == 2 && EscapeBit(code) == 0;
    assert d < 0 && e >= 0 ==> LowByte(code) == e && ShortLength(code) == 1 && EscapeBit(code) == 0;
    assert d < 0 && e < 0 ==> LowByte(code) == ESCAPE && ShortLength(code) == 1 && EscapeBit(code) == 1;
    if NoneLonger(fin, word, 2) {
      ShortDecides(fin, word, code, byteLim, suffixLim);
    }
  }

  // ---------------------------------------------------------------- the inner loop

  /** One round of compressVariant: whichever variant runs, it emits the longest symbol of the chunk's
      remaining text or escapes one byte. */
  method CompressStep(st: SymbolTable, ghost fin: seq<Word>, buf: array<Byte>, chunk: nat, cur: nat, out: array<Byte>, pos: nat,
                      noSuffixOpt: bool, avoidBranch: bool)
    returns (cur': nat, pos': nat)
    requires FinalTable(st, fin) && TerminatorFree(fin, st.terminator) && out != buf
    requires buf.Length == CHUNK + 8 && cur < chunk <= CHUNK && buf[chunk] == st.terminator && pos + 1 < out.Length
    modifies out
    ensures cur' <= chunk && pos < pos' <= pos + 2 && pos' <= out.Length && FinalTable(st, fin)
    ensures
      var text := buf[cur..chunk];
      var c := Longest(fin, text);
      if c >= 0 then cur' == cur + |fin[c]| && c < ESCAPE && out[..pos'] == old(out[..pos]) + [c as Byte]
      else cur' == cur + 1 && out[..pos'] == old(out[..pos]) + [ESCAPE, text[0]]
  {
    hide Bucket, Icl, CodeOf, LengthOf, Longest, Pair, FinalTable, TerminatorFree, Distinct, WordLengths, LowByte, EscapeBit, ShortLength;
    TableSizes(st, fin);
    var word := buf[cur..cur + MAX_LENGTH];
    var code := st.shortCodes[Pair(word[0], word[1])];
    var s := st.hashTab[Bucket(word)];
    var byteLim := st.nSymbols - st.lenHisto[0];
    TableDecides(st, fin, word, code, s);
    WindowSame(fin, word, buf[cur..chunk], st.terminator);
    if noSuffixOpt && LowByte(code) < st.suffixLim {
      out[pos] := LowByte(code);
      cur', pos' := cur + 2, pos + 1;
    } else {
      out[pos + 1] := word[0];
      if s.icl < ICL_FREE && s.bytes <= word {
        out[pos] := LowByte(CodeOf(s.icl));
        cur', pos' := cur + LengthOf(s.icl), pos + 1;
      } else if avoidBranch {
        out[pos] := LowByte(code);
        cur', pos' := cur + ShortLength(code), pos + 1 + EscapeBit(code);
      } else if LowByte(code) < byteLim {
        out[pos] := LowByte(code);
        cur', pos' := cur + 2, pos + 1;
      } else {
        out[pos] := LowByte(code);
        cur', pos' := cur + 1, pos + 1 + EscapeBit(code);
      }
    }
  }

  /** compressVariant: whatever the two switches say, the chunk's greedy encoding is appended. */
  method CompressVariant(st: SymbolTable, ghost fin: seq<Word>, buf: array<Byte>, chunk: nat, out: array<Byte>, start: nat,
                         noSuffixOpt: bool, avoidBranch: bool)
    returns (pos: nat)
    requires FinalTable(st, fin) && WordLengths(fin) && |fin| <= ESCAPE && TerminatorFree(fin, st.terminator) && out != buf
    requires buf.Length == CHUNK + 8 && chunk <= CHUNK && buf[chunk] == st.terminator && start + 2 * chunk <= out.Length
    modifies out
    ensures start <= pos <= start + 2 * chunk && FinalTable(st, fin)
    ensures out[..pos] == old(out[..start]) + EncodeChunk(fin, buf[..chunk])
  {
    hide Longest, FinalTable, TerminatorFree, WordLengths, EncodeChunk, Distinct;
    var cur: nat := 0;
    pos := start;
    ghost var done: Word := [];
    assert buf[..chunk] == buf[0..chunk];
    while cur < chunk
      invariant cur <= chunk && start <= pos <= start + 2 * cur && FinalTable(st, fin)
      invariant out[..pos] == old(out[..start]) + done
      invariant done + EncodeChunk(fin, buf[cur..chunk]) == EncodeChunk(fin, buf[..chunk])
      decreases chunk - cur
    {
      ghost var text, was := buf[cur..chunk], cur;
      ghost var before := out[..pos];
      EncodeFirst(fin, text);
      cur, pos := CompressStep(st, fin, buf, chunk, cur, out, pos, noSuffixOpt, avoidBranch);
      ghost var emitted := if Longest(fin, text) >= 0 then [Longest(fin, text) as Byte] else [ESCAPE, text[0]];
      assert text[cur - was..] == buf[cur..chunk];
      assert done + (emitted + EncodeChunk(fin, buf[cur..chunk])) == (done + emitted) + EncodeChunk(fin, buf[cur..chunk]);
      assert out[..pos] == before + emitted;
      done := done + emitted;
    }
    EncodeNothing(fin, buf[chunk..chunk]);
  }

  lemma {:induction false} EncodeFirst(fin: seq<Word>, text: Word)
    requires WordLengths(fin) && |fin| <= ESCAPE && text != []
    ensures
      var c := Longest(fin, text);
      if c >= 0 then 0 < |fin[c]| <= |text| && EncodeChunk(fin, text) == [c as Byte] + EncodeChunk(fin, text[|fin[c]|..])
      else EncodeChunk(fin, text) == [ESCAPE, text[0]] + EncodeChunk(fin, text[1..])
  {
    hide Longest;
  }

  lemma {:induction false} EncodeNothing(fin: seq<Word>, text: Word)
    requires WordLengths(fin) && |fin| <= ESCAPE
    ensures text == [] ==> EncodeChunk(fin, text) == []
  {}

  // ---------------------------------------------------------------- lines

  method LoadChunk(buf: array<Byte>, line: Word, off: nat, chunk: nat, terminator: Byte)
    requires off + chunk <= |line| && chunk < buf.Length
    modifies buf
    ensures buf[..chunk] == line[off..off + chunk] && buf[chunk] == terminator
  {
    forall i | 0 <= i < chunk { buf[i] := line[off + i]; }
    buf[chunk] := terminator;
  }

  predicate ChunkStart(line: Word, off: nat) { off % CHUNK == 0 && (off == 0 || off < |line|) }

  /** Room for twice the chunk that begins at `off` and seven bytes, behind what has been written by then. */
  predicate ChunkFits(fin: seq<Word>, line: Word, room: int, off: nat)
    requires WordLengths(fin) && |fin| <= ESCAPE && off <= |line|
  {
    var chunk := if |line| - off > CHUNK then CHUNK else |line| - off;
    2 * chunk + 7 <= room - |EncodeLine(fin, line[..off])|
  }

  predicate LineFits(fin: seq<Word>, line: Word, room: int)
    requires WordLengths(fin) && |fin| <= ESCAPE
  {
    forall off: nat :: off <= |line| && ChunkStart(line, off) ==> ChunkFits(fin, line, room, off)
  }

  lemma {:induction false} FrontEncoded(fin: seq<Word>, line: Word, off: nat, chunk: nat)
    requires WordLengths(fin) && |fin| <= ESCAPE && off % CHUNK == 0 && chunk <= CHUNK && off + chunk <= |line| && (chunk == 0 ==> off == 0)
    ensures EncodeLine(fin, line[..off + chunk]) == EncodeLine(fin, line[..off]) + EncodeChunk(fin, line[off..off + chunk])
    decreases off
  {
    hide EncodeChunk;
    var s := line[..off + chunk];
    if off == 0 {
      EncodeNothing(fin, line[..off]);
      assert line[off..off + chunk] == s;
    } else {
      var rest := line[CHUNK..];
      FrontEncoded(fin, rest, off - CHUNK, chunk);
      assert s[..CHUNK] == line[..CHUNK] == line[..off][..CHUNK] && s[CHUNK..] == rest[..off - CHUNK + chunk];
      assert line[..off][CHUNK..] == rest[..off - CHUNK] && rest[off - CHUNK..off - CHUNK + chunk] == line[off..off + chunk];
      EncodeNothing(fin, rest[..off - CHUNK]);
    }
  }

  /** The next chunk begins behind this one. */
  lemma {:induction false} NextStart(line: Word, off: nat, chunk: nat)
    requires ChunkStart(line, off) && off <= |line| && chunk == if |line| - off > CHUNK then CHUNK else |line| - off
    ensures off + chunk < |line| ==> ChunkStart(line, off + chunk)
    ensures forall l: nat :: ChunkStart(line, l) && l < off + chunk ==> l <= off
    ensures off + chunk >= |line| ==> forall l: nat :: ChunkStart(line, l) ==> l <= off
    ensures chunk == 0 ==> off == 0
  {}

  /** The chunks of one line; refused exactly when one of them might not fit in the room left for it. */
  method CompressLine(st: SymbolTable, ghost fin: seq<Word>, line: Word, buf: array<Byte>, out: array<Byte>, start: nat,
                      noSuffixOpt: bool, avoidBranch: bool)
    returns (ok: bool, pos: nat)
    requires FinalTable(st, fin) && WordLengths(fin) && |fin| <= ESCAPE && TerminatorFree(fin, st.terminator)
    requires buf.Length == CHUNK + 8 && out != buf && start <= out.Length
    modifies out, buf
    ensures FinalTable(st, fin) && out[..start] == old(out[..start])
    ensures ok ==> start <= pos <= out.Length && out[..pos] == old(out[..start]) + EncodeLine(fin, line)
    ensures ok ==> pos <= start + 2 * |line|
    ensures ok <==> LineFits(fin, line, out.Length - start)
    ensures !ok ==> out.Length < start + 2 * |line| + 7
  {
    hide FinalTable, TerminatorFree, WordLengths, EncodeChunk, EncodeLine, ChunkStart;
    var off: nat := 0;
    pos := start;
    assert line[..0] == [];
    NothingEncoded(fin);
    assert ChunkStart(line, 0) by { StartsAtZero(line); }
    while true
      invariant off <= |line| && start <= pos <= start + 2 * off && pos <= out.Length && FinalTable(st, fin)
      invariant out[..pos] == old(out[..start]) + EncodeLine(fin, line[..off]) && ChunkStart(line, off)
      invariant forall l: nat :: l < off && ChunkStart(line, l) ==> ChunkFits(fin, line, out.Length - start, l)
      decreases |line| - off
    {
      var chunk := if |line| - off > CHUNK then CHUNK else |line| - off;
      NextStart(line, off, chunk);
      if 2 * chunk + 7 > out.Length - pos {
        assert out[..start] == out[..pos][..start];
        assert !ChunkFits(fin, line, out.Length - start, off);
        return false, pos;
      }
      ghost var before := out[..pos];
      LoadChunk(buf, line, off, chunk, st.terminator);
      assert out[..pos] == before;
      StartDivides(line, off);
      FrontEncoded(fin, line, off, chunk);
      pos := CompressVariant(st, fin, buf, chunk, out, pos, noSuffixOpt, avoidBranch);
      Regroup(old(out[..start]), EncodeLine(fin, line[..off]), EncodeChunk(fin, line[off..off + chunk]));
      off := off + chunk;
      if off >= |line| {
        assert out[..start] == out[..pos][..start];
        assert line[..off] == line;
        return true, pos;
      }
    }
  }

  lemma {:induction false} NothingEncoded(fin: seq<Word>)
    requires WordLengths(fin) && |fin| <= ESCAPE
    ensures EncodeLine(fin, []) == []
  {}

  lemma {:induction false} StartsAtZero(line: Word)
    ensures ChunkStart(line, 0)
  {}

  lemma {:induction false} StartDivides(line: Word, off: nat)
    requires ChunkStart(line, off)
    ensures off % CHUNK == 0
  {}

  function TotalLength(lines: seq<Word>): nat {
    if lines == [] then 0 else TotalLength(lines[..|lines| - 1]) + |lines[|lines| - 1]|
  }

  lemma {:induction false} TotalGrows(lines: seq<Word>, k: nat)
    requires k < |lines|
    ensures TotalLength(lines[..k + 1]) == TotalLength(lines[..k]) + |lines[k]|
    ensures TotalLength(lines[..k + 1]) <= TotalLength(lines)
    decreases |lines| - k
  {
    assert lines[..k + 1][..k] == lines[..k];
    if k + 1 < |lines| { TotalGrows(lines, k + 1); } else { assert lines[..k + 1] == lines; }
  }

  /** All lines encoded one behind the other. */
  function EncodeAll(fin: seq<Word>, lines: seq<Word>): Word
    requires WordLengths(fin) && |fin| <= ESCAPE
  {
    if lines == [] then [] else EncodeAll(fin, lines[..|lines| - 1]) + EncodeLine(fin, lines[|lines| - 1])
  }

  lemma {:induction false} OneMoreLine(fin: seq<Word>, lines: seq<Word>, k: nat)
    requires WordLengths(fin) && |fin| <= ESCAPE && k < |lines|
    ensures EncodeAll(fin, lines[..k + 1]) == EncodeAll(fin, lines[..k]) + EncodeLine(fin, lines[k])
  {
    assert lines[..k + 1][..k] == lines[..k];
  }

  /** Line `k` is found where the outputs say. */
  ghost predicate LineAt(fin: seq<Word>, line: Word, out: Word, from: nat, length: nat)
    requires WordLengths(fin) && |fin| <= ESCAPE
  {
    from + length <= |out| && out[from..from + length] == EncodeLine(fin, line)
  }

  /** The first `n` lines have been written, and where each begins and how long it is. */
  ghost predicate Placed(fin: seq<Word>, lines: seq<Word>, out: Word, starts: seq<nat>, lengths: seq<nat>, n: nat)
    requires WordLengths(fin) && |fin| <= ESCAPE
  {
    && n <= |lines| && n <= |starts| && n <= |lengths| && EncodeAll(fin, lines[..n]) <= out
    && forall k :: 0 <= k < n ==> starts[k] == |EncodeAll(fin, lines[..k])| && lengths[k] == |EncodeLine(fin, lines[k])|
  }

  /** A line more, in front of which all is as before. */
  lemma {:induction false} PlacedNext(fin: seq<Word>, lines: seq<Word>, was: Word, out: Word, starts: seq<nat>, lengths: seq<nat>, n: nat,
                                      pos: nat, length: nat)
    requires WordLengths(fin) && |fin| <= ESCAPE && Placed(fin, lines, was, starts, lengths, n)
    requires n < |lines| && n < |starts| && n < |lengths| && pos == |EncodeAll(fin, lines[..n])|
    requires pos <= |was| && pos + length <= |out| && out[..pos + length] == was[..pos] + EncodeLine(fin, lines[n])
    ensures Placed(fin, lines, out, starts[n := pos], lengths[n := length], n + 1) && pos + length == |EncodeAll(fin, lines[..n + 1])|
  {
    hide EncodeAll, EncodeLine;
    OneMoreLine(fin, lines, n);
  }

  lemma {:induction false} PlacedStill(fin: seq<Word>, lines: seq<Word>, was: Word, out: Word, starts: seq<nat>, lengths: seq<nat>, n: nat, pos: nat)
    requires WordLengths(fin) && |fin| <= ESCAPE && Placed(fin, lines, was, starts, lengths, n)
    requires n < |starts| && pos == |EncodeAll(fin, lines[..n])| && pos <= |was| && pos <= |out| && out[..pos] == was[..pos]
    ensures Placed(fin, lines, out, starts[n := pos], lengths, n)
  {
    hide EncodeAll, EncodeLine;
  }

  lemma {:induction false} NothingPlaced(fin: seq<Word>, lines: seq<Word>, out: Word, starts: seq<nat>, lengths: seq<nat>)
    requires WordLengths(fin) && |fin| <= ESCAPE
    ensures Placed(fin, lines, out, starts, lengths, 0) && EncodeAll(fin, lines[..0]) == []
  {}

  lemma {:induction false} EarlierLines(fin: seq<Word>, lines: seq<Word>, k: nat, n: nat)
    requires WordLengths(fin) && |fin| <= ESCAPE && k <= n <= |lines|
    ensures EncodeAll(fin, lines[..k]) <= EncodeAll(fin, lines[..n])
    decreases n
  {
    hide EncodeAll, EncodeLine;
    if k < n {
      EarlierLines(fin, lines, k, n - 1);
      OneMoreLine(fin, lines, n - 1);
    }
  }

  /** So each line is where it is said to be. */
  lemma {:induction false} PlacedLines(fin: seq<Word>, lines: seq<Word>, out: Word, starts: seq<nat>, lengths: seq<nat>, n: nat)
    requires WordLengths(fin) && |fin| <= ESCAPE && Placed(fin, lines, out, starts, lengths, n)
    ensures forall k :: 0 <= k < n ==> LineAt(fin, lines[k], out, starts[k], lengths[k])
  {
    hide EncodeAll, EncodeLine;
    forall k | 0 <= k < n ensures LineAt(fin, lines[k], out, starts[k], lengths[k]) {
      OneMoreLine(fin, lines, k);
      EarlierLines(fin, lines, k + 1, n);
      var all := EncodeAll(fin, lines[..k + 1]);
      assert all == out[..|all|] && out[starts[k]..|all|] == all[starts[k]..];
    }
  }

  /** compressBulk: encodes the lines one behind the other until one is refused, and returns how many there are and where
      each went. The documented room of seven
      bytes more than twice the input suffices for all. */
  method CompressBulk(st: SymbolTable, ghost fin: seq<Word>, lines: seq<Word>, out: array<Byte>, lenOut: array<nat>, strOut: array<nat>,
                      noSuffixOpt: bool, avoidBranch: bool)
    returns (n: nat)
    requires FinalTable(st, fin) && WordLengths(fin) && |fin| <= ESCAPE && TerminatorFree(fin, st.terminator)
    requires lenOut.Length >= |lines| && strOut.Length >= |lines| && lenOut != strOut
    requires {lenOut, strOut} !! {st.shortCodes, st.byteCodes, st.lenHisto}
    modifies out, lenOut, strOut
    ensures n <= |lines| && FinalTable(st, fin)
    ensures forall k :: 0 <= k < n ==> LineAt(fin, lines[k], out[..], strOut[k], lenOut[k])
    ensures forall k :: 0 <= k < n ==> strOut[k] == |EncodeAll(fin, lines[..k])| && lenOut[k] == |EncodeLine(fin, lines[k])|
    ensures EncodeAll(fin, lines[..n]) <= out[..]
    ensures n < |lines| ==> !LineFits(fin, lines[n], out.Length - |EncodeAll(fin, lines[..n])|)
    ensures 7 + 2 * TotalLength(lines) <= out.Length ==> n == |lines|
  {
    hide FinalTable, TerminatorFree, WordLengths, EncodeLine, EncodeAll, LineAt, TotalLength, LineFits, Placed;
    var buf := new Byte[CHUNK + 8](_ => 0);
    var pos: nat := 0;
    n := 0;
    NothingPlaced(fin, lines, out[..], strOut[..], lenOut[..]);
    assert TotalLength(lines[..0]) >= 0;
    while n < |lines|
      invariant n <= |lines| && pos <= out.Length && pos <= 2 * TotalLength(lines[..n]) && FinalTable(st, fin)
      invariant Placed(fin, lines, out[..], strOut[..], lenOut[..], n) && pos == |EncodeAll(fin, lines[..n])|
    {
      TotalGrows(lines, n);
      ghost var starts, lengths, was := strOut[..], lenOut[..], out[..];
      strOut[n] := pos;
      assert strOut[..] == starts[n := pos];
      var ok, pos' := CompressLine(st, fin, lines[n], buf, out, pos, noSuffixOpt, avoidBranch);
      assert was[..pos] == out[..pos];
      if !ok {
        PlacedStill(fin, lines, was, out[..], starts, lengths, n, pos);
        break;
      }
      lenOut[n] := pos' - pos;
      assert lenOut[..] == lengths[n := (pos' - pos) as nat];
      PlacedNext(fin, lines, was, out[..], starts, lengths, n, pos, pos' - pos);
      pos := pos';
      n := n + 1;
    }
    PlacedLines(fin, lines, out[..], strOut[..], lenOut[..], n);
    PlacedMeans(fin, lines, out[..], strOut[..], lenOut[..], n);
  }

  lemma {:induction false} PlacedMeans(fin: seq<Word>, lines: seq<Word>, out: Word, starts: seq<nat>, lengths: seq<nat>, n: nat)
    requires WordLengths(fin) && |fin| <= ESCAPE && Placed(fin, lines, out, starts, lengths, n)
    ensures n <= |lines| && n <= |starts| && n <= |lengths| && EncodeAll(fin, lines[..n]) <= out
    ensures forall k :: 0 <= k < n ==> starts[k] == |EncodeAll(fin, lines[..k])| && lengths[k] == |EncodeLine(fin, lines[k])|
  {}
}
