/** The symbol table of the string coder while it is being trained: one-byte, two-byte and longer
    symbols live in three lookup structures, which together find what a naive search over all
    symbols finds. */
module FsstTable {
  import opened Powers
  import opened Bytes

  const CODE_BASE: nat := 256
  const CODE_MAX: nat := 512
  const LEN_UNIT: nat := 4096
  const HASH_SIZE: nat := 1024
  const MAX_LENGTH: nat := 8

  // ---------------------------------------------------------------- naive search

  /** Index of the longest symbol that begins `s`, or -1. */
  function Longest(syms: seq<Word>, s: Word): (c: int)
    ensures -1 <= c < |syms|
    ensures c >= 0 ==> syms[c] <= s
  {
    if syms == [] then -1
    else
      var n := |syms| - 1;
      var c := Longest(syms[..n], s);
      if syms[n] <= s && (c == -1 || |syms[c]| < |syms[n]|) then n else c
  }

  ghost predicate Distinct(syms: seq<Word>) {
    forall i, j :: 0 <= i < j < |syms| ==> syms[i] != syms[j]
  }

  lemma {:induction false} LongestIsMaximal(syms: seq<Word>, s: Word, i: nat)
    requires i < |syms| && syms[i] <= s
    ensures Longest(syms, s) >= 0 && |syms[i]| <= |syms[Longest(syms, s)]|
  {
    var n := |syms| - 1;
    if i < n { LongestIsMaximal(syms[..n], s, i); }
  }

  /** Among distinct symbols the longest one is unique. */
  lemma {:induction false} LongestIsUnique(syms: seq<Word>, s: Word, c: nat)
    requires Distinct(syms) && c < |syms| && syms[c] <= s
    requires forall i :: 0 <= i < |syms| && syms[i] <= s ==> |syms[i]| <= |syms[c]|
    ensures Longest(syms, s) == c
  {
    LongestIsMaximal(syms, s, c);
    var d := Longest(syms, s);
    assert syms[d] == s[..|syms[d]|] && syms[c] == s[..|syms[c]|];
    assert syms[c] == syms[d];
  }

  lemma {:induction false} NoneFits(syms: seq<Word>, s: Word)
    requires forall i :: 0 <= i < |syms| ==> !(syms[i] <= s)
    ensures Longest(syms, s) == -1
  {}

  // ---------------------------------------------------------------- entries of the structures

  /** `icl` packs code and length so that one comparison orders entries by length. */
  function Icl(length: nat, code: nat): nat
    requires length <= MAX_LENGTH
  {
    length * 0x1000_0000 + code * 0x1_0000 + (MAX_LENGTH - length) * 8
  }

  const ICL_FREE: nat := 15 * 0x1000_0000 + 511 * 0x1_0000

  function CodeOf(icl: nat): nat { icl / 0x1_0000 % CODE_MAX }
  function LengthOf(icl: nat): nat { icl / 0x1000_0000 }

  /** The first bytes of the symbol's 64-bit value that count, and the packed code and length. */
  datatype Symbol = Symbol(bytes: Word, icl: nat)

  const FREE_SLOT := Symbol([], ICL_FREE)

  lemma {:induction false} IclFields(length: nat, code: nat)
    requires length <= MAX_LENGTH && code < CODE_MAX
    ensures CodeOf(Icl(length, code)) == code && LengthOf(Icl(length, code)) == length
    ensures Icl(length, code) < ICL_FREE
  {
    assert Icl(length, code) / 0x1_0000 == length * 0x1000 + code;
    assert (length * 0x1000 + code) % 512 == code;
  }

  /** The low byte is the number of bits that do not count. */
  lemma {:induction false} IgnoredBits(length: nat, code: nat)
    requires length <= MAX_LENGTH
    ensures Icl(length, code) % 256 == 64 - 8 * length
  {
    DivModUnique(Icl(length, code), 256, length * 0x10_0000 + code * 256, 64 - 8 * length);
  }

  /** A stored entry passes the length test of a lookup exactly when it is not longer than the query. */
  lemma {:induction false} IclOrder(length: nat, code: nat, queryLength: nat)
    requires length <= MAX_LENGTH && code < CODE_MAX && queryLength <= MAX_LENGTH
    ensures Icl(length, code) <= Icl(queryLength, CODE_MAX) <==> length <= queryLength
    ensures ICL_FREE > Icl(queryLength, CODE_MAX)
  {}

  function At(s: Word, i: nat): Byte { if i < |s| then s[i] else 0 }

  /** Low `n` bits of an exclusive or. */
  function XorLow(a: nat, b: nat, n: nat): nat {
    if n == 0 then 0 else (a + b) % 2 + 2 * XorLow(a / 2, b / 2, n - 1)
  }

  lemma {:induction false} XorLowBound(a: nat, b: nat, n: nat)
    ensures XorLow(a, b, n) < Pow2(n)
  {
    if n > 0 { XorLowBound(a / 2, b / 2, n - 1); }
  }

  /** Bucket of the next three bytes. */
  function Bucket(s: Word): (h: nat)
    ensures h < HASH_SIZE
  {
    var w := At(s, 0) + 256 * At(s, 1) + 65536 * At(s, 2);
    var p := Low(w * 2971215073, 64);
    XorLowBound(p, Shr(p, 15), 10);
    XorLow(p, Shr(p, 15), 10)
  }

  lemma {:induction false} SameBucket(w: Word, s: Word)
    requires 3 <= |w| && w <= s
    ensures Bucket(w) == Bucket(s)
  {
    assert w == s[..|w|];
    assert w[0] == s[0] && w[1] == s[1] && w[2] == s[2];
  }

  function First2(w: Word): nat { At(w, 0) + 256 * At(w, 1) }

  lemma {:induction false} First2Means(v: Word, w: Word)
    requires |v| >= 2 && |w| >= 2
    ensures First2(v) == First2(w) <==> v[0] == w[0] && v[1] == w[1]
  {}

  /** Index of the last symbol equal to `w`, or -1. */
  function IndexIn(syms: seq<Word>, w: Word): (c: int)
    ensures -1 <= c < |syms|
    ensures c >= 0 ==> syms[c] == w
  {
    if syms == [] then -1
    else if syms[|syms| - 1] == w then |syms| - 1
    else IndexIn(syms[..|syms| - 1], w)
  }

  lemma {:induction false} IndexOf(syms: seq<Word>, i: nat)
    requires i < |syms|
    ensures IndexIn(syms, syms[i]) >= i
  {
    var n := |syms| - 1;
    if i < n { IndexOf(syms[..n], i); }
  }

  function ByteEntry(syms: seq<Word>, b: Byte): nat {
    var c := IndexIn(syms, [b]);
    if c >= 0 then CODE_BASE + c + LEN_UNIT else LEN_UNIT + b
  }

  function ShortEntry(syms: seq<Word>, b0: Byte, b1: Byte): nat {
    var c := IndexIn(syms, [b0, b1]);
    if c >= 0 then CODE_BASE + c + 2 * LEN_UNIT else LEN_UNIT + b0
  }

  function SlotEntry(syms: seq<Word>, h: nat): Symbol
    requires WordLengths(syms)
  {
    if syms == [] then FREE_SLOT
    else
      var n := |syms| - 1;
      if |syms[n]| >= 3 && Bucket(syms[n]) == h then Symbol(syms[n], Icl(|syms[n]|, CODE_BASE + n))
      else SlotEntry(syms[..n], h)
  }

  ghost predicate NoCollision(syms: seq<Word>) {
    forall i, j :: 0 <= i < j < |syms| && |syms[i]| >= 3 && |syms[j]| >= 3 ==> Bucket(syms[i]) != Bucket(syms[j])
  }

  lemma {:induction false} SlotOwner(syms: seq<Word>, h: nat) returns (i: int)
    requires WordLengths(syms)
    ensures -1 <= i < |syms|
    ensures i == -1 ==> SlotEntry(syms, h) == FREE_SLOT
    ensures i >= 0 ==>
      && |syms[i]| >= 3 && Bucket(syms[i]) == h
      && SlotEntry(syms, h) == Symbol(syms[i], Icl(|syms[i]|, CODE_BASE + i))
  {
    hide Bucket;
    if syms == [] {
      i := -1;
    } else {
      var n := |syms| - 1;
      if |syms[n]| >= 3 && Bucket(syms[n]) == h {
        i := n;
      } else {
        i := SlotOwner(syms[..n], h);
      }
    }
  }

  lemma {:induction false} SlotTaken(syms: seq<Word>, i: nat)
    requires WordLengths(syms) && i < |syms| && |syms[i]| >= 3
    ensures SlotEntry(syms, Bucket(syms[i])) != FREE_SLOT
  {
    hide Bucket;
    var n := |syms| - 1;
    if |syms[n]| >= 3 && Bucket(syms[n]) == Bucket(syms[i]) {
    } else {
      SlotTaken(syms[..n], i);
    }
  }

  function CountLength(syms: seq<Word>, l: nat): (n: nat)
    ensures n <= |syms|
  {
    if syms == [] then 0
    else CountLength(syms[..|syms| - 1], l) + if |syms[|syms| - 1]| == l then 1 else 0
  }

  // ---------------------------------------------------------------- contents of the structures

  ghost predicate WordLengths(syms: seq<Word>) {
    forall i :: 0 <= i < |syms| ==> 1 <= |syms[i]| <= MAX_LENGTH
  }

  ghost predicate BytesOk(codes: seq<nat>, syms: seq<Word>) {
    |codes| == 256 && forall b: Byte :: codes[b] == ByteEntry(syms, b)
  }

  ghost predicate ShortsOk(codes: seq<nat>, syms: seq<Word>) {
    |codes| == 65536 && forall b0: Byte, b1: Byte {:trigger ShortEntry(syms, b0, b1)} ::
      codes[Pair(b0, b1)] == ShortEntry(syms, b0, b1)
  }

  ghost predicate SlotsOk(slots: seq<Symbol>, syms: seq<Word>) {
    |slots| == HASH_SIZE && WordLengths(syms) && forall h :: 0 <= h < HASH_SIZE ==> slots[h] == SlotEntry(syms, h)
  }

  ghost predicate HistoOk(histo: seq<nat>, syms: seq<Word>) {
    |histo| == 9 && forall l :: 1 <= l <= 9 ==> histo[l - 1] == CountLength(syms, l)
  }

  ghost predicate SymbolsOk(table: seq<Symbol>, syms: seq<Word>) {
    && |table| == CODE_MAX && |syms| <= CODE_BASE && WordLengths(syms)
    && forall i :: 0 <= i < |syms| ==> table[CODE_BASE + i] == Symbol(syms[i], Icl(|syms[i]|, CODE_BASE + i))
  }

  /** Index of a pair of bytes, first byte lowest. */
  function Pair(b0: nat, b1: nat): (x: nat)
    ensures b0 < 256 && b1 < 256 ==> x < 65536 && x % 256 == b0 && x / 256 == b1
  {
    b0 + 256 * b1
  }

  lemma {:induction false} PairInjective(a0: Byte, a1: Byte, b0: Byte, b1: Byte)
    ensures Pair(a0, a1) == Pair(b0, b1) <==> a0 == b0 && a1 == b1
  {}

  lemma {:induction false} LastSymbol(syms: seq<Word>, w: Word)
    ensures (syms + [w])[..|syms|] == syms
  {}

  lemma {:induction false} BytesAppended(codes: seq<nat>, syms: seq<Word>, w: Word)
    requires BytesOk(codes, syms)
    ensures |w| == 1 ==> BytesOk(codes[w[0] := CODE_BASE + |syms| + LEN_UNIT], syms + [w])
    ensures |w| != 1 ==> BytesOk(codes, syms + [w])
  {
    LastSymbol(syms, w);
  }

  lemma {:induction false} ShortsAppended(codes: seq<nat>, syms: seq<Word>, w: Word)
    requires ShortsOk(codes, syms)
    ensures |w| == 2 ==> ShortsOk(codes[Pair(w[0], w[1]) := CODE_BASE + |syms| + 2 * LEN_UNIT], syms + [w])
    ensures |w| != 2 ==> ShortsOk(codes, syms + [w])
  {
    LastSymbol(syms, w);
    if |w| == 2 {
      hide Pair;
      var codes' := codes[Pair(w[0], w[1]) := CODE_BASE + |syms| + 2 * LEN_UNIT];
      forall b0: Byte, b1: Byte {:trigger ShortEntry(syms + [w], b0, b1)}
        ensures codes'[Pair(b0, b1)] == ShortEntry(syms + [w], b0, b1)
      {
        PairInjective(b0, b1, w[0], w[1]);
        assert codes[Pair(b0, b1)] == ShortEntry(syms, b0, b1);
      }
    } else {
      forall b0: Byte, b1: Byte {:trigger ShortEntry(syms + [w], b0, b1)}
        ensures codes[Pair(b0, b1)] == ShortEntry(syms + [w], b0, b1)
      {
        assert codes[Pair(b0, b1)] == ShortEntry(syms, b0, b1);
      }
    }
  }

  lemma {:induction false} SlotsAppended(slots: seq<Symbol>, syms: seq<Word>, w: Word)
    requires SlotsOk(slots, syms) && 1 <= |w| <= MAX_LENGTH
    ensures |w| >= 3 ==> SlotsOk(slots[Bucket(w) := Symbol(w, Icl(|w|, CODE_BASE + |syms|))], syms + [w])
    ensures |w| < 3 ==> SlotsOk(slots, syms + [w])
  {
    hide Bucket, Icl;
    LastSymbol(syms, w);
  }

  lemma {:induction false} HistoAppended(histo: seq<nat>, syms: seq<Word>, w: Word)
    requires HistoOk(histo, syms) && 1 <= |w| <= MAX_LENGTH
    ensures HistoOk(histo[|w| - 1 := histo[|w| - 1] + 1], syms + [w])
  {
    LastSymbol(syms, w);
  }

  /** A bucket is free exactly when no longer symbol hashes to it. */
  lemma {:induction false} BucketFree(syms: seq<Word>, w: Word)
    requires WordLengths(syms) && |syms| <= CODE_BASE
    ensures SlotEntry(syms, Bucket(w)).icl >= ICL_FREE <==>
      forall i :: 0 <= i < |syms| && |syms[i]| >= 3 ==> Bucket(syms[i]) != Bucket(w)
  {
    hide Bucket, Icl;
    var i := SlotOwner(syms, Bucket(w));
    if i >= 0 {
      IclFields(|syms[i]|, CODE_BASE + i);
    }
    forall j | 0 <= j < |syms| && |syms[j]| >= 3 && Bucket(syms[j]) == Bucket(w)
      ensures SlotEntry(syms, Bucket(w)).icl < ICL_FREE
    {
      SlotTaken(syms, j);
    }
  }

  // ---------------------------------------------------------------- the table

  class SymbolTable {
    const shortCodes: array<nat>
    const byteCodes: array<nat>
    const symbols: array<Symbol>
    const hashTab: array<Symbol>
    const lenHisto: array<nat>
    var nSymbols: nat
    /** Set by the renumbering only: codes below it are two-byte symbols without a longer extension. */
    var suffixLim: nat
    /** Byte that occurs in no symbol of several bytes. */
    var terminator: Byte
    /** The real symbols in code order. */
    ghost var syms: seq<Word>

    ghost predicate Valid()
      reads this, shortCodes, byteCodes, symbols, hashTab, lenHisto
    {
      && shortCodes != byteCodes && shortCodes != lenHisto && byteCodes != lenHisto && symbols != hashTab
      && nSymbols == |syms|
      && NoCollision(syms)
      && Indexed(syms)
      && SymbolsOk(symbols[..], syms)
    }

    /** The lookup structures hold exactly what `s` calls for. */
    ghost predicate Indexed(s: seq<Word>)
      reads this, shortCodes, byteCodes, hashTab, lenHisto
    {
      BytesOk(byteCodes[..], s) && ShortsOk(shortCodes[..], s) && SlotsOk(hashTab[..], s) && HistoOk(lenHisto[..], s)
    }

    /** The empty table: every lookup ends in the pseudo code of an escaped byte. */
    constructor ()
      ensures Valid() && syms == [] && forall b: Byte :: symbols[b] == Symbol([b], Icl(1, b))
      ensures fresh(shortCodes) && fresh(byteCodes) && fresh(symbols) && fresh(hashTab) && fresh(lenHisto)
    {
      nSymbols, suffixLim, terminator, syms := 0, CODE_MAX, 0, [];
      shortCodes := new nat[65536](i => LEN_UNIT + i % 256);
      byteCodes := new nat[256](i => LEN_UNIT + i);
      symbols := new Symbol[CODE_MAX](i => if 0 <= i < 256 then Symbol([i], Icl(1, i)) else Symbol([0], Icl(1, CODE_MAX - 1)));
      hashTab := new Symbol[HASH_SIZE](_ => FREE_SLOT);
      lenHisto := new nat[9](_ => 0);
    }

    /** hashInsert: refuses an occupied bucket. */
    method HashInsert(s: Symbol) returns (ok: bool)
      requires hashTab.Length == HASH_SIZE && s.icl < ICL_FREE
      modifies hashTab
      ensures ok <==> old(hashTab[Bucket(s.bytes)]).icl >= ICL_FREE
      ensures hashTab[..] == if ok then old(hashTab[..])[Bucket(s.bytes) := s] else old(hashTab[..])
    {
      hide Bucket;
      var h := Bucket(s.bytes);
      if hashTab[h].icl < ICL_FREE { return false; }
      hashTab[h] := s;
      return true;
    }

    /** Enters a symbol into the lookup structure for its length. */
    method Enter(s: Symbol, code: nat) returns (ok: bool)
      requires Valid() && |syms| < CODE_BASE && code == CODE_BASE + nSymbols
      requires 1 <= |s.bytes| <= MAX_LENGTH && s == Symbol(s.bytes, Icl(|s.bytes|, code))
      modifies shortCodes, byteCodes, hashTab
      ensures ok <==> |s.bytes| < 3 || forall i :: 0 <= i < |syms| && |syms[i]| >= 3 ==> Bucket(syms[i]) != Bucket(s.bytes)
      ensures ok ==> BytesOk(byteCodes[..], syms + [s.bytes]) && ShortsOk(shortCodes[..], syms + [s.bytes])
      ensures ok ==> SlotsOk(hashTab[..], syms + [s.bytes])
      ensures lenHisto[..] == old(lenHisto[..]) && symbols[..] == old(symbols[..])
      ensures !ok ==> byteCodes[..] == old(byteCodes[..]) && shortCodes[..] == old(shortCodes[..]) && hashTab[..] == old(hashTab[..])
    {
      hide Bucket, Icl, LengthOf, CodeOf, SlotEntry, BytesOk, ShortsOk, SlotsOk, HistoOk, Pair;
      var w := s.bytes;
      IclFields(|w|, code);
      SlotSizes(byteCodes[..], shortCodes[..], hashTab[..], lenHisto[..], syms);
      BytesAppended(byteCodes[..], syms, w);
      ShortsAppended(shortCodes[..], syms, w);
      SlotsAppended(hashTab[..], syms, w);
      if |w| == 1 {
        ghost var was := byteCodes[..];
        byteCodes[w[0]] := code + LEN_UNIT;
        assert byteCodes[..] == was[w[0] := (code + LEN_UNIT) as nat];
      } else if |w| == 2 {
        ghost var was := shortCodes[..];
        shortCodes[Pair(w[0], w[1])] := code + 2 * LEN_UNIT;
        assert shortCodes[..] == was[Pair(w[0], w[1]) := (code + 2 * LEN_UNIT) as nat];
      } else {
        BucketFree(syms, w);
        var free := HashInsert(s);
        if !free { return false; }
      }
      return true;
    }

    /** Adds a symbol under the next code; a longer symbol whose bucket is taken is refused. */
    method Add(w: Word) returns (ok: bool)
      requires Valid() && 1 <= |w| <= MAX_LENGTH && |syms| < CODE_BASE
      modifies this, shortCodes, byteCodes, symbols, hashTab, lenHisto
      ensures Valid()
      ensures syms == if ok then old(syms) + [w] else old(syms)
      ensures ok <==> |w| < 3 || forall i :: 0 <= i < |old(syms)| && |old(syms)[i]| >= 3 ==> Bucket(old(syms)[i]) != Bucket(w)
    {
      hide Bucket, Icl, BytesOk, ShortsOk, SlotsOk;
      var s := Symbol(w, Icl(|w|, CODE_BASE + nSymbols));
      HistoAppended(lenHisto[..], syms, w);
      var entered := Enter(s, CODE_BASE + nSymbols);
      if !entered { return false; }
      ghost var table, histo := symbols[..], lenHisto[..];
      symbols[CODE_BASE + nSymbols] := s;
      assert symbols[..] == table[CODE_BASE + nSymbols := s];
      nSymbols := nSymbols + 1;
      lenHisto[|w| - 1] := lenHisto[|w| - 1] + 1;
      assert lenHisto[..] == histo[|w| - 1 := histo[|w| - 1] + 1];
      syms := syms + [w];
      return true;
    }

    /** findLongestSymbol, for a text of which at most eight bytes matter. */
    method FindLongestSymbol(s: Word) returns (code: nat)
      requires Valid() && Distinct(syms) && s != []
      ensures FindsLongest(syms, s, code)
    {
      hide Bucket, Icl, SlotEntry, ByteEntry, ShortEntry, Pair, CodeOf, Longest;
      var length := if |s| >= MAX_LENGTH then MAX_LENGTH else |s|;
      var slot := hashTab[Bucket(s)];
      LookupLong(hashTab[..], syms, s, slot);
      if slot.icl <= Icl(length, CODE_MAX) {
        if slot.bytes <= s { return CodeOf(slot.icl); }
      }
      if length >= 2 {
        code := shortCodes[Pair(s[0], s[1])] % CODE_MAX;
        LookupShort(shortCodes[..], syms, s);
        if code >= CODE_BASE { return; }
      }
      LookupByte(byteCodes[..], syms, s);
      code := byteCodes[s[0]] % CODE_MAX;
    }

    /** Erases the used positions only, which brings every structure back to its first state. */
    method Clear()
      requires Valid()
      modifies this, shortCodes, byteCodes, hashTab, lenHisto
      ensures Valid() && syms == []
    {
      hide Bucket, Icl, SlotEntry, ByteEntry, ShortEntry, BytesOk, ShortsOk, SlotsOk, Pair, Erasing;
      SlotSizes(byteCodes[..], shortCodes[..], hashTab[..], lenHisto[..], syms);
      EraseStart(byteCodes[..], shortCodes[..], hashTab[..], syms);
      ghost var bytes0, shorts0, slots0 := byteCodes[..], shortCodes[..], hashTab[..];
      forall l | 0 <= l < 9 { lenHisto[l] := 0; }
      assert byteCodes[..] == bytes0 && shortCodes[..] == shorts0 && hashTab[..] == slots0;
      var i: nat := 0;
      while i < nSymbols
        modifies byteCodes, shortCodes, hashTab
        invariant i <= nSymbols && byteCodes.Length == 256 && shortCodes.Length == 65536 && hashTab.Length == HASH_SIZE
        invariant Erasing(byteCodes[..], shortCodes[..], hashTab[..], syms, i)
      {
        var w := symbols[CODE_BASE + i].bytes;
        assert w == syms[i];
        ghost var bytes, shorts, slots := byteCodes[..], shortCodes[..], hashTab[..];
        if LengthOf(symbols[CODE_BASE + i].icl) == 1 {
          IclFields(|w|, CODE_BASE + i);
          byteCodes[w[0]] := LEN_UNIT + w[0];
          assert byteCodes[..] == bytes[w[0] := (LEN_UNIT + w[0]) as nat];
        } else if LengthOf(symbols[CODE_BASE + i].icl) == 2 {
          IclFields(|w|, CODE_BASE + i);
          shortCodes[Pair(w[0], w[1])] := LEN_UNIT + w[0];
          assert shortCodes[..] == shorts[Pair(w[0], w[1]) := (LEN_UNIT + w[0]) as nat];
        } else {
          IclFields(|w|, CODE_BASE + i);
          hashTab[Bucket(w)] := FREE_SLOT;
          assert hashTab[..] == slots[Bucket(w) := FREE_SLOT];
        }
        EraseStep(bytes, shorts, slots, syms, i);
        i := i + 1;
      }
      EraseEnd(byteCodes[..], shortCodes[..], hashTab[..], syms);
      nSymbols, syms := 0, [];
    }
  }

  /** Every entry is already empty, or is still the right one and belongs to no erased symbol. */
  ghost predicate Erasing(bytes: seq<nat>, shorts: seq<nat>, slots: seq<Symbol>, syms: seq<Word>, k: nat) {
    && |bytes| == 256 && |shorts| == 65536 && |slots| == HASH_SIZE && WordLengths(syms) && k <= |syms|
    && (forall b: Byte :: bytes[b] == LEN_UNIT + b || (bytes[b] == ByteEntry(syms, b) && [b] !in syms[..k]))
    && (forall b0: Byte, b1: Byte {:trigger Pair(b0, b1)} ::
          || shorts[Pair(b0, b1)] == LEN_UNIT + b0
          || (shorts[Pair(b0, b1)] == ShortEntry(syms, b0, b1) && [b0, b1] !in syms[..k]))
    && (forall h :: 0 <= h < HASH_SIZE ==>
          || slots[h] == FREE_SLOT
          || (slots[h] == SlotEntry(syms, h) && forall i :: 0 <= i < k && |syms[i]| >= 3 ==> Bucket(syms[i]) != h))
  }

  lemma {:induction false} EraseStart(bytes: seq<nat>, shorts: seq<nat>, slots: seq<Symbol>, syms: seq<Word>)
    requires BytesOk(bytes, syms) && ShortsOk(shorts, syms) && SlotsOk(slots, syms)
    ensures Erasing(bytes, shorts, slots, syms, 0)
  {
    hide Bucket, Icl, SlotEntry, ByteEntry, Pair;
    forall b0: Byte, b1: Byte {:trigger Pair(b0, b1)} ensures shorts[Pair(b0, b1)] == ShortEntry(syms, b0, b1) {}
  }

  lemma {:induction false} EraseStep(bytes: seq<nat>, shorts: seq<nat>, slots: seq<Symbol>, syms: seq<Word>, k: nat)
    requires Erasing(bytes, shorts, slots, syms, k) && k < |syms|
    ensures
      var w := syms[k];
      && (|w| == 1 ==> Erasing(bytes[w[0] := LEN_UNIT + w[0]], shorts, slots, syms, k + 1))
      && (|w| == 2 ==> Erasing(bytes, shorts[Pair(w[0], w[1]) := LEN_UNIT + w[0]], slots, syms, k + 1))
      && (|w| >= 3 ==> Erasing(bytes, shorts, slots[Bucket(w) := FREE_SLOT], syms, k + 1))
  {
    hide Bucket, Icl, SlotEntry, ByteEntry, ShortEntry, Pair;
    var w := syms[k];
    assert syms[..k + 1] == syms[..k] + [w];
    if |w| == 2 {
      forall b0: Byte, b1: Byte {:trigger Pair(b0, b1)}
        ensures Pair(b0, b1) == Pair(w[0], w[1]) <==> [b0, b1] == w
      {
        PairInjective(b0, b1, w[0], w[1]);
      }
    }
  }

  lemma {:induction false} EraseEnd(bytes: seq<nat>, shorts: seq<nat>, slots: seq<Symbol>, syms: seq<Word>)
    requires Erasing(bytes, shorts, slots, syms, |syms|)
    ensures BytesOk(bytes, []) && ShortsOk(shorts, []) && SlotsOk(slots, [])
  {
    hide Bucket, Icl, Pair;
    assert syms[..|syms|] == syms;
    forall h | 0 <= h < HASH_SIZE ensures slots[h] == FREE_SLOT {
      var i := SlotOwner(syms, h);
    }
  }

  // ---------------------------------------------------------------- lookup

  /** The lookups decide like the naive search: a code from 256 up names the longest symbol that
      begins the text, a smaller one is the text's first byte and no symbol begins the text. */
  ghost predicate FindsLongest(syms: seq<Word>, s: Word, code: nat)
    requires s != []
  {
    var c := Longest(syms, s);
    if c >= 0 then code == CODE_BASE + c else code == s[0]
  }

  /** No symbol longer than `l` begins the text. */
  ghost predicate NoneLonger(syms: seq<Word>, s: Word, l: nat) {
    forall i :: 0 <= i < |syms| && syms[i] <= s ==> |syms[i]| <= l
  }

  /** The hash table answers for all symbols of three and more bytes: any that begins the text shares
      the text's bucket. */
  lemma {:induction false} LookupLong(slots: seq<Symbol>, syms: seq<Word>, s: Word, slot: Symbol)
    requires SlotsOk(slots, syms) && NoCollision(syms) && Distinct(syms) && |syms| <= CODE_BASE && s != []
    requires slot == slots[Bucket(s)]
    ensures
      var length := if |s| >= MAX_LENGTH then MAX_LENGTH else |s|;
      if slot.icl <= Icl(length, CODE_MAX) && slot.bytes <= s
      then Longest(syms, s) >= 0 && CodeOf(slot.icl) == CODE_BASE + Longest(syms, s)
      else NoneLonger(syms, s, 2)
  {
    hide Bucket, Icl, SlotEntry, CodeOf, Longest;
    var length := if |s| >= MAX_LENGTH then MAX_LENGTH else |s|;
    var i := SlotOwner(syms, Bucket(s));
    forall j | 0 <= j < |syms| && syms[j] <= s && |syms[j]| >= 3 ensures i == j {
      SameBucket(syms[j], s);
      SlotTaken(syms, j);
    }
    if i >= 0 {
      IclFields(|syms[i]|, CODE_BASE + i);
      IclOrder(|syms[i]|, CODE_BASE + i, length);
      if syms[i] <= s {
        assert |syms[i]| <= length;
        LongestIsUnique(syms, s, i);
      }
    } else {
      IclOrder(0, 0, length);
    }
  }

  lemma {:induction false} LookupShort(codes: seq<nat>, syms: seq<Word>, s: Word)
    requires ShortsOk(codes, syms) && Distinct(syms) && |syms| <= CODE_BASE && |s| >= 2 && NoneLonger(syms, s, 2)
    ensures
      var code := codes[Pair(s[0], s[1])] % CODE_MAX;
      if code >= CODE_BASE then Longest(syms, s) >= 0 && code == CODE_BASE + Longest(syms, s)
      else NoneLonger(syms, s, 1)
  {
    hide Longest, Pair, IndexIn;
    var w := [s[0], s[1]];
    assert codes[Pair(s[0], s[1])] == ShortEntry(syms, s[0], s[1]);
    var c := IndexIn(syms, w);
    if c >= 0 {
      assert s[..2] == w;
      LongestIsUnique(syms, s, c);
    } else {
      forall i | 0 <= i < |syms| && syms[i] <= s ensures |syms[i]| <= 1 {
        if |syms[i]| == 2 {
          assert syms[i] == s[..2] == w;
          IndexOf(syms, i);
        }
      }
    }
  }

  lemma {:induction false} LookupByte(codes: seq<nat>, syms: seq<Word>, s: Word)
    requires BytesOk(codes, syms) && WordLengths(syms) && Distinct(syms) && |syms| <= CODE_BASE
    requires s != [] && NoneLonger(syms, s, 1)
    ensures FindsLongest(syms, s, codes[s[0]] % CODE_MAX)
  {
    hide Longest, IndexIn;
    var w := [s[0]];
    assert codes[s[0]] == ByteEntry(syms, s[0]);
    var c := IndexIn(syms, w);
    if c >= 0 {
      assert s[..1] == w;
      LongestIsUnique(syms, s, c);
    } else {
      forall i | 0 <= i < |syms| ensures !(syms[i] <= s) {
        if syms[i] <= s {
          assert syms[i] == s[..1] == w;
          IndexOf(syms, i);
        }
      }
      NoneFits(syms, s);
    }
  }

  lemma {:induction false} SlotSizes(byteCodes: seq<nat>, shortCodes: seq<nat>, slots: seq<Symbol>, histo: seq<nat>, syms: seq<Word>)
    requires BytesOk(byteCodes, syms) && ShortsOk(shortCodes, syms) && SlotsOk(slots, syms) && HistoOk(histo, syms)
    ensures |byteCodes| == 256 && |shortCodes| == 65536 && |slots| == HASH_SIZE && |histo| == 9
    ensures forall h :: 0 <= h < HASH_SIZE ==> slots[h] == SlotEntry(syms, h)
  {}
}
