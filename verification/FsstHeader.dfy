/** Writing the finished table into a compact header, and reading a decoder back from it. */
module FsstHeader {
  import opened Bytes
  import opened FsstTable
  import opened FsstFinal
  import opened FsstCodec
  import opened FsstDecoder

  const FIXED: nat := 17

  /** FSST_VERSION, lowest byte first. */
  const VERSION: Word := [0x0A, 0x14, 0x34, 0x01]

  /** What fills a slot without a symbol. */
  const CORRUPT: Word := [99, 111, 114, 114, 117, 112, 116, 0]

  function Flatten(words: seq<Word>): (s: Word) {
    if words == [] then [] else Flatten(words[..|words| - 1]) + words[|words| - 1]
  }

  lemma {:induction false} FlattenStep(words: seq<Word>, c: nat)
    requires c < |words|
    ensures Flatten(words[..c + 1]) == Flatten(words[..c]) + words[c]
    ensures |Flatten(words[..c + 1])| <= |Flatten(words)|
    ensures Flatten(words[..c + 1]) <= Flatten(words)
    decreases |words| - c
  {
    assert words[..c + 1][..c] == words[..c];
    if c + 1 < |words| {
      FlattenStep(words, c + 1);
      assert words[..c + 2][..c + 1] == words[..c + 1];
    } else {
      assert words[..c + 1] == words;
    }
  }

  /** The fixed part: version word, a zero byte for strings that are not zero-terminated, the histogram. */
  ghost predicate IsFixed(bytes: Word, h: seq<nat>) {
    && |bytes| == FIXED && |h| >= 8 && bytes[4..8] == VERSION && bytes[8] == 0
    && forall i :: 0 <= i < 8 ==> bytes[9 + i] == h[i]
  }

  /** The header of a table: the fixed part, then the symbols in code order. */
  ghost predicate IsHeader(bytes: Word, fin: seq<Word>, h: seq<nat>) {
    |bytes| == FIXED + |Flatten(fin)| && IsFixed(bytes[..FIXED], h) && bytes[FIXED..] == Flatten(fin)
  }

  lemma {:induction false} FixedBytes(bytes: Word, h: seq<nat>)
    requires |bytes| == FIXED && |h| >= 8 && bytes[8] == 0 && forall i :: 0 <= i < 8 ==> bytes[9 + i] == h[i]
    requires bytes[4] == VERSION[0] && bytes[5] == VERSION[1] && bytes[6] == VERSION[2] && bytes[7] == VERSION[3]
    ensures IsFixed(bytes, h)
  {
    assert bytes[4..8] == VERSION;
  }

  /** The version word. */
  method PutVersion(buf: array<Byte>, nSymbols: Byte, terminator: Byte, suffixLim: Byte)
    requires buf.Length >= FIXED
    modifies buf
    ensures buf[0] == 1 && buf[1] == nSymbols && buf[2] == terminator && buf[3] == suffixLim
    ensures buf[4] == VERSION[0] && buf[5] == VERSION[1] && buf[6] == VERSION[2] && buf[7] == VERSION[3]
  {
    buf[0], buf[1], buf[2], buf[3] := 1, nSymbols, terminator, suffixLim;
    buf[4], buf[5], buf[6], buf[7] := VERSION[0], VERSION[1], VERSION[2], VERSION[3];
  }

  method ExportFixed(st: SymbolTable, ghost fin: seq<Word>, buf: array<Byte>)
    requires FinalTable(st, fin) && buf.Length >= FIXED
    modifies buf
    ensures FinalTable(st, fin) && IsFixed(buf[..FIXED], st.lenHisto[..])
    ensures buf[0] == 1 && buf[1] == |fin| && buf[2] == st.terminator && buf[3] == st.suffixLim
  {
    hide FinalTable, IsFixed;
    HeaderFields(st, fin);
    PutVersion(buf, st.nSymbols, st.terminator, st.suffixLim);
    buf[8] := 0;
    forall i | 0 <= i < 8 { buf[9 + i] := st.lenHisto[i]; }
    FixedBytes(buf[..FIXED], st.lenHisto[..]);
  }

  /** pbc_fsst_export: writes the header and returns its size. */
  method Export(st: SymbolTable, ghost fin: seq<Word>, buf: array<Byte>) returns (pos: nat)
    requires FinalTable(st, fin) && buf.Length >= FIXED + |Flatten(fin)|
    modifies buf
    ensures pos <= buf.Length && IsHeader(buf[..pos], fin, st.lenHisto[..])
    ensures buf[0] == 1 && buf[1] == |fin| && buf[2] == st.terminator && buf[3] == st.suffixLim
  {
    hide FinalTable, Flatten, IsFixed, LengthOf, Icl;
    ExportFixed(st, fin, buf);
    TableSizes(st, fin);
    ghost var fixed := buf[..FIXED];
    assert fixed[0] == 1 && fixed[1] == |fin| && fixed[2] == st.terminator && fixed[3] == st.suffixLim;
    pos := FIXED;
    var i: nat := 0;
    FlattenNothing(fin);
    while i < st.nSymbols
      invariant i <= st.nSymbols && pos == FIXED + |Flatten(fin[..i])| && pos <= buf.Length
      invariant buf[..FIXED] == fixed && buf[FIXED..pos] == Flatten(fin[..i]) && FinalTable(st, fin)
    {
      FlattenStep(fin, i);
      SymbolAt(st, fin, i);
      pos := WriteWord(buf, pos, st.symbols[i].bytes, LengthOf(st.symbols[i].icl), FIXED);
      i := i + 1;
    }
    assert fin[..i] == fin;
    assert buf[..pos][FIXED..] == buf[FIXED..pos];
    assert buf[..pos][..FIXED] == fixed;
  }

  lemma {:induction false} SymbolAt(st: SymbolTable, fin: seq<Word>, i: nat)
    requires FinalTable(st, fin) && i < |fin|
    ensures i < st.symbols.Length && st.symbols[i].bytes == fin[i] && LengthOf(st.symbols[i].icl) == |fin[i]|
  {
    hide LengthOf, Icl;
    IclFields(|fin[i]|, i);
  }

  method WriteWord(buf: array<Byte>, pos: nat, w: Word, length: nat, ghost from: nat) returns (pos': nat)
    requires length == |w| && from <= pos && pos + |w| <= buf.Length
    modifies buf
    ensures pos' == pos + |w| && buf[..from] == old(buf[..from]) && buf[from..pos'] == old(buf[from..pos]) + w
  {
    forall j | 0 <= j < length { buf[pos + j] := w[j]; }
    pos' := pos + length;
  }

  lemma {:induction false} FlattenNothing(words: seq<Word>)
    ensures Flatten(words[..0]) == []
  {}

  lemma {:induction false} HeaderFields(st: SymbolTable, fin: seq<Word>)
    requires FinalTable(st, fin)
    ensures st.nSymbols == |fin| < CODE_BASE && st.suffixLim <= |fin|
    ensures st.lenHisto.Length >= 8 && forall i :: 0 <= i < 8 ==> st.lenHisto[i] < 256
  {
    hide Distinct, NoCollision, FinalSymbols, FinalShorts, FinalSlots, Start, Extended;
    HistoSmall(st.lenHisto[..], fin, st.suffixLim);
  }

  lemma {:induction false} HistoSmall(h: seq<nat>, fin: seq<Word>, suffixLim: nat)
    requires Grouped(fin, h, suffixLim) && |fin| < CODE_BASE
    ensures forall i :: 0 <= i < 8 ==> h[i] < 256
  {
    hide Extended;
    assert Start(h, 3) == h[1];
    assert Start(h, 4) == h[1] + h[2];
    assert Start(h, 5) == h[1] + h[2] + h[3];
    assert Start(h, 6) == h[1] + h[2] + h[3] + h[4];
    assert Start(h, 7) == h[1] + h[2] + h[3] + h[4] + h[5];
    assert Start(h, 8) == h[1] + h[2] + h[3] + h[4] + h[5] + h[6];
  }

  // ---------------------------------------------------------------- reading

  /** A symbol in its eight-byte slot. */
  function Pad(w: Word): (p: Word)
    requires |w| <= 8
  {
    w + seq(8 - |w|, _ => 0)
  }

  /** What the decoder means once it is read: the table's symbols under their codes, and a filler for
      every unused code. */
  function Dictionary(fin: seq<Word>): (dict: seq<Word>)
    requires |fin| <= ESCAPE
    ensures |dict| == ESCAPE && fin <= dict
    ensures forall c :: |fin| <= c < ESCAPE ==> dict[c] == CORRUPT
  {
    fin + seq(ESCAPE - |fin|, _ => CORRUPT)
  }

  ghost predicate Filled(decoder: Decoder, words: seq<Word>)
    reads decoder.len, decoder.symbol
  {
    && decoder.len.Length == decoder.symbol.Length == ESCAPE && |words| <= ESCAPE
    && forall c :: 0 <= c < |words| ==> 1 <= |words[c]| <= 8 && decoder.len[c] == |words[c]| && decoder.symbol[c] == Pad(words[c])
  }

  /** Reads one symbol into the slot of its code, byte by byte into zeros. */
  method ReadSymbol(decoder: Decoder, ghost words: seq<Word>, w: Word, code: nat)
    requires Filled(decoder, words) && code == |words| < ESCAPE && 1 <= |w| <= 8
    modifies decoder.len, decoder.symbol
    ensures Filled(decoder, words + [w])
  {
    hide Pad;
    decoder.len[code] := |w|;
    var slot: Word := [0, 0, 0, 0, 0, 0, 0, 0];
    var j: nat := 0;
    while j < |w|
      invariant j <= |w| && |slot| == 8
      invariant slot == w[..j] + seq(8 - j, _ => 0)
    {
      slot := slot[j := w[j]];
      j := j + 1;
    }
    assert slot == Pad(w) by { PadIs(w, slot); }
    ghost var symbols, lengths := decoder.symbol[..], decoder.len[..];
    decoder.symbol[code] := slot;
    forall c | 0 <= c < code ensures decoder.symbol[c] == symbols[c] && decoder.len[c] == lengths[c] {}
  }

  lemma {:induction false} PadIs(w: Word, slot: Word)
    requires |w| <= 8 && slot == w[..|w|] + seq(8 - |w|, _ => 0)
    ensures slot == Pad(w)
  {
    assert w[..|w|] == w;
  }

  /** In the order of reading, groups follow each other without a gap. */
  lemma {:induction false} NextGroup(h: seq<nat>, l: nat)
    requires |h| >= 8 && 1 <= l <= 8
    ensures Start(h, 2) == 0
    ensures Start(h, l % 8 + 1) + h[l % 8] == if l == 8 then End(h, 1) else Start(h, (l + 1) % 8 + 1)
  {}

  lemma {:induction false} Within(s: Word, a: nat, n: nat, i: nat, j: nat)
    requires a + n <= |s| && i <= j <= n
    ensures s[a + i..a + j] == s[a..a + n][i..j]
  {
    var t, u := s[a + i..a + j], s[a..a + n][i..j];
    assert |t| == |u|;
    forall k | 0 <= k < |t| ensures t[k] == u[k] {
      assert u[k] == s[a..a + n][i + k] == s[a + (i + k)];
    }
  }

  /** The next symbol of the body, cut by the length of its group. */
  lemma {:induction false} NextSymbol(buf: Word, fin: seq<Word>, h: seq<nat>, suffixLim: nat, code: nat, length: nat)
    requires |buf| >= FIXED + |Flatten(fin)| && buf[FIXED..FIXED + |Flatten(fin)|] == Flatten(fin)
    requires Grouped(fin, h, suffixLim) && 1 <= length <= 8 && Start(h, length) <= code < End(h, length)
    ensures End(h, length) <= |fin|
    ensures |fin[code]| == length
    ensures
      var pos := FIXED + |Flatten(fin[..code])|;
      pos + length <= |buf| && buf[pos..pos + length] == fin[code]
      && pos + length == FIXED + |Flatten(fin[..code + 1])| && fin[..code + 1] == fin[..code] + [fin[code]]
  {
    hide Flatten, Start, Extended;
    if length > 1 { GroupsOrdered(h, length, 1); }
    FlattenStep(fin, code);
    var from := |Flatten(fin[..code])|;
    var body, upTo := Flatten(fin), Flatten(fin[..code + 1]);
    Within(buf, FIXED, |body|, from, from + length);
    assert body[..|upTo|] == upTo && upTo[from..] == fin[code];
    Within(body, 0, |upTo|, from, from + length);
    assert body[0..|upTo|] == upTo;
  }

  /** The groups of symbols, in the order of lengths 2 to 8, then 1. */
  method ReadSymbols(decoder: Decoder, buf: Word, ghost fin: seq<Word>, ghost h: seq<nat>, ghost suffixLim: nat) returns (code: nat, pos: nat)
    requires Grouped(fin, h, suffixLim) && |fin| <= ESCAPE
    requires |buf| >= FIXED + |Flatten(fin)| && IsHeader(buf[..FIXED + |Flatten(fin)|], fin, h)
    requires decoder.len.Length == decoder.symbol.Length == ESCAPE
    modifies decoder.len, decoder.symbol
    ensures code == |fin| && pos == FIXED + |Flatten(fin)| && Filled(decoder, fin)
  {
    hide Grouped, Flatten, Filled, Start;
    HistogramRead(buf, fin, h);
    FlattenNothing(fin);
    FilledNothing(decoder, fin);
    NextGroup(h, 1);
    GroupsEnd(fin, h, suffixLim);
    code, pos := 0, FIXED;
    var l: nat := 1;
    while l <= 8
      invariant 1 <= l <= 9
      invariant code == (if l == 9 then |fin| else Start(h, l % 8 + 1)) && code <= |fin|
      invariant pos == FIXED + |Flatten(fin[..code])| && Filled(decoder, fin[..code])
    {
      var length := l % 8 + 1;
      NextGroup(h, l);
      var i: nat := 0;
      while i < buf[9 + l % 8]
        invariant i <= buf[9 + l % 8] == h[l % 8] && code == Start(h, length) + i <= |fin|
        invariant pos == FIXED + |Flatten(fin[..code])| && Filled(decoder, fin[..code])
      {
        NextSymbol(buf, fin, h, suffixLim, code, length);
        ReadSymbol(decoder, fin[..code], buf[pos..pos + length], code);
        pos, code, i := pos + length, code + 1, i + 1;
      }
      l := l + 1;
    }
    assert fin[..code] == fin;
  }

  lemma {:induction false} HistogramRead(buf: Word, fin: seq<Word>, h: seq<nat>)
    requires |buf| >= FIXED + |Flatten(fin)| && IsHeader(buf[..FIXED + |Flatten(fin)|], fin, h)
    ensures |h| >= 8 && forall i :: 0 <= i < 8 ==> buf[9 + i] == h[i]
    ensures buf[FIXED..FIXED + |Flatten(fin)|] == Flatten(fin)
    ensures buf[4..8] == VERSION
  {
    hide Flatten;
    var bytes := buf[..FIXED + |Flatten(fin)|];
    assert bytes[..FIXED] == buf[..FIXED];
    assert buf[..FIXED][4..8] == buf[4..8];
    assert bytes[FIXED..] == buf[FIXED..FIXED + |Flatten(fin)|];
  }

  lemma {:induction false} FilledNothing(decoder: Decoder, fin: seq<Word>)
    requires decoder.len.Length == decoder.symbol.Length == ESCAPE
    ensures Filled(decoder, fin[..0])
  {}

  lemma {:induction false} GroupsEnd(fin: seq<Word>, h: seq<nat>, suffixLim: nat)
    requires Grouped(fin, h, suffixLim)
    ensures |h| >= 8 && End(h, 1) == |fin|
    ensures forall l :: 1 <= l <= 8 ==> End(h, l) <= |fin|
  {
    hide Start, Extended;
    forall l | 1 <= l <= 8 ensures End(h, l) <= |fin| {
      if l > 1 { GroupsOrdered(h, l, 1); }
    }
  }

  /** pbc_fsst_import. A header of another version is refused; from a table's header the decoder gets
      every symbol of the table under its code. */
  method Import(decoder: Decoder, buf: Word, ghost fin: seq<Word>, ghost h: seq<nat>, ghost suffixLim: nat) returns (size: nat)
    requires |buf| >= 8 && decoder.len.Length == decoder.symbol.Length == ESCAPE
    requires buf[4..8] == VERSION ==>
      && Grouped(fin, h, suffixLim) && |fin| <= ESCAPE
      && |buf| >= FIXED + |Flatten(fin)| && IsHeader(buf[..FIXED + |Flatten(fin)|], fin, h)
    modifies decoder.len, decoder.symbol
    ensures buf[4..8] != VERSION ==> size == 0 && decoder.len[..] == old(decoder.len[..]) && decoder.symbol[..] == old(decoder.symbol[..])
    ensures buf[4..8] == VERSION ==> size == FIXED + |Flatten(fin)| && Means(decoder, Dictionary(fin))
  {
    hide Grouped, Flatten, IsHeader, Filled, Dictionary, Means;
    if buf[4..8] != VERSION { return 0; }
    var code;
    code, size := ReadSymbols(decoder, buf, fin, h, suffixLim);
    ghost var words := fin;
    while code < ESCAPE
      invariant code == |words| <= ESCAPE && Filled(decoder, words)
      invariant words + seq(ESCAPE - |words|, _ => CORRUPT) == Dictionary(fin)
    {
      ReadSymbol(decoder, words, CORRUPT, code);
      words, code := words + [CORRUPT], code + 1;
    }
    FilledMeans(decoder, words);
    assert words == Dictionary(fin);
  }

  lemma {:induction false} FilledMeans(decoder: Decoder, words: seq<Word>)
    requires Filled(decoder, words) && |words| == ESCAPE
    ensures Means(decoder, words)
  {}

  // ---------------------------------------------------------------- there and back

  /** A compressed line, decompressed with the imported dictionary into a buffer with 32 spare bytes, is
      the line. */
  method RoundTrip(decoder: Decoder, ghost fin: seq<Word>, ghost line: Word, codes: Word, out: array<Byte>) returns (size: nat)
    requires WordLengths(fin) && |fin| <= ESCAPE && Means(decoder, Dictionary(fin))
    requires codes == EncodeLine(fin, line) && out.Length >= |line| + 32
    modifies out
    ensures size == |line| && out[..size] == line
  {
    hide EncodeLine, Decode, Complete, Overruns, Means, Dictionary;
    ghost var dict := Dictionary(fin);
    DecodeEncodeLine(fin, dict, line);
    RoomSuffices(dict, codes, out.Length);
    var overrun;
    overrun, size := Decompress(decoder, dict, codes, out);
  }
}
