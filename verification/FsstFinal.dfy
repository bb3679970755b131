/** Renumbering the finished symbol table: codes become single bytes grouped by symbol length, and
    the two-byte table takes over the role of the one-byte table. */
module FsstFinal {
  import opened Bytes
  import opened Counting
  import opened FsstTable

  const ESCAPE_CODE: nat := 511

  // ---------------------------------------------------------------- groups of codes

  /** First code of the symbols of length `l`; the order of lengths is 2, 3, ..., 8, 1. */
  function Start(h: seq<nat>, l: nat): nat
    requires |h| >= 8 && 1 <= l <= 8
    decreases if l == 1 then 9 else l
  {
    if l == 2 then 0 else if l == 1 then Start(h, 8) + h[7] else Start(h, l - 1) + h[l - 2]
  }

  function End(h: seq<nat>, l: nat): nat
    requires |h| >= 8 && 1 <= l <= 8
  {
    Start(h, l) + h[l - 1]
  }

  function Rank(l: nat): nat { if l == 1 then 9 else l }

  lemma {:induction false} GroupsOrdered(h: seq<nat>, a: nat, b: nat)
    requires |h| >= 8 && 1 <= a <= 8 && 1 <= b <= 8 && Rank(a) < Rank(b)
    ensures End(h, a) <= Start(h, b)
    decreases Rank(b)
  {
    if b == 1 {
      if a < 8 { GroupsOrdered(h, a, 8); }
    } else if a < b - 1 {
      GroupsOrdered(h, a, b - 1);
    }
  }

  lemma {:induction false} LengthsAddUp(syms: seq<Word>)
    requires WordLengths(syms)
    ensures CountLength(syms, 1) + CountLength(syms, 2) + CountLength(syms, 3) + CountLength(syms, 4)
          + CountLength(syms, 5) + CountLength(syms, 6) + CountLength(syms, 7) + CountLength(syms, 8) == |syms|
  {
    if syms != [] { LengthsAddUp(syms[..|syms| - 1]); }
  }

  lemma {:induction false} GroupsTotal(h: seq<nat>, syms: seq<Word>)
    requires HistoOk(h, syms) && WordLengths(syms)
    ensures End(h, 1) == |syms|
  {
    LengthsAddUp(syms);
    assert Start(h, 3) == h[1];
    assert Start(h, 4) == h[1] + h[2];
    assert Start(h, 5) == h[1] + h[2] + h[3];
    assert Start(h, 6) == h[1] + h[2] + h[3] + h[4];
    assert Start(h, 7) == h[1] + h[2] + h[3] + h[4] + h[5];
    assert Start(h, 8) == h[1] + h[2] + h[3] + h[4] + h[5] + h[6];
  }

  lemma {:induction false} CountGrows(syms: seq<Word>, l: nat, m: nat, n: nat)
    requires m <= n <= |syms|
    ensures CountLength(syms[..m], l) <= CountLength(syms[..n], l)
    decreases n
  {
    if m < n {
      assert syms[..n][..n - 1] == syms[..n - 1];
      CountGrows(syms, l, m, n - 1);
    }
  }

  /** Before symbol `i` its length group is not yet full. */
  lemma {:induction false} GroupNotFull(syms: seq<Word>, i: nat)
    requires i < |syms|
    ensures CountLength(syms[..i], |syms[i]|) < CountLength(syms, |syms[i]|)
    ensures forall l: nat {:trigger CountLength(syms[..i + 1], l)} ::
      CountLength(syms[..i + 1], l) == CountLength(syms[..i], l) + if |syms[i]| == l then 1 else 0
  {
    assert syms[..i + 1][..i] == syms[..i];
    CountGrows(syms, |syms[i]|, i + 1, |syms|);
    assert syms[..|syms|] == syms;
  }

  // ---------------------------------------------------------------- the renumbered table

  /** Some other symbol of several bytes begins with the same two bytes. */
  ghost predicate Extended(syms: seq<Word>, i: nat)
    requires i < |syms| && |syms[i]| == 2
  {
    exists k :: 0 <= k < |syms| && k != i && |syms[k]| > 1 && syms[k][0] == syms[i][0] && syms[k][1] == syms[i][1]
  }

  ghost predicate FinalSymbols(table: seq<Symbol>, fin: seq<Word>) {
    && |fin| <= |table| && WordLengths(fin)
    && forall c :: 0 <= c < |fin| ==> table[c] == Symbol(fin[c], Icl(|fin[c]|, c))
  }

  function FinalByte(fin: seq<Word>, b: Byte): nat {
    var c := IndexIn(fin, [b]);
    if c >= 0 then c + LEN_UNIT else ESCAPE_CODE + LEN_UNIT
  }

  function FinalShort(fin: seq<Word>, b0: Byte, b1: Byte): nat {
    var c := IndexIn(fin, [b0, b1]);
    if c >= 0 then c + 2 * LEN_UNIT else FinalByte(fin, b0)
  }

  ghost predicate FinalShorts(codes: seq<nat>, fin: seq<Word>) {
    |codes| == 65536 && forall b0: Byte, b1: Byte {:trigger Pair(b0, b1)} ::
      codes[Pair(b0, b1)] == FinalShort(fin, b0, b1)
  }

  ghost predicate FinalSlot(slot: Symbol, fin: seq<Word>, h: nat)
    requires WordLengths(fin)
  {
    if slot == FREE_SLOT then forall c :: 0 <= c < |fin| && |fin[c]| >= 3 ==> Bucket(fin[c]) != h
    else exists c :: 0 <= c < |fin| && |fin[c]| >= 3 && Bucket(fin[c]) == h && slot == Symbol(fin[c], Icl(|fin[c]|, c))
  }

  ghost predicate FinalSlots(slots: seq<Symbol>, fin: seq<Word>) {
    |slots| == HASH_SIZE && WordLengths(fin) && forall h :: 0 <= h < HASH_SIZE ==> FinalSlot(slots[h], fin, h)
  }

  /** Codes are grouped by length, and `suffixLim` cuts the two-byte group. */
  ghost predicate Grouped(fin: seq<Word>, h: seq<nat>, suffixLim: nat) {
    && |h| >= 8 && |fin| == End(h, 1) && suffixLim <= |fin| && WordLengths(fin)
    && (forall c, l :: 0 <= c < |fin| && 1 <= l <= 8 ==> (|fin[c]| == l <==> Start(h, l) <= c < End(h, l)))
    && (forall c :: 0 <= c < |fin| ==> (c < suffixLim <==> |fin[c]| == 2 && !Extended(fin, c)))
  }

  /** The same symbols under new codes. */
  ghost predicate Renamed(syms: seq<Word>, fin: seq<Word>, newCode: seq<nat>) {
    && |newCode| == |fin| == |syms|
    && (forall i :: 0 <= i < |syms| ==> newCode[i] < |syms|)
    && (forall i, j :: 0 <= i < j < |syms| ==> newCode[i] != newCode[j])
    && (forall i :: 0 <= i < |syms| ==> fin[newCode[i]] == syms[i])
  }

  // ---------------------------------------------------------------- assigning the codes

  /** What the renumbering loop keeps after the first `i` symbols. */
  ghost predicate Numbering(syms: seq<Word>, h: seq<nat>, i: nat, newCode: seq<nat>, rsum: seq<nat>, suffixLim: nat, j: nat)
    requires WordLengths(syms) && |h| >= 8
  {
    && i <= |syms| <= |newCode| && |rsum| == 8
    && suffixLim <= j <= h[1] && suffixLim + (h[1] - j) == CountLength(syms[..i], 2)
    && (forall l :: 1 <= l <= 8 && l != 2 ==> rsum[l - 1] == Start(h, l) + CountLength(syms[..i], l))
    && (forall a :: 0 <= a < i ==> Placed(syms, h, a, newCode[a], rsum, suffixLim, j))
    && (forall a, b :: 0 <= a < b < i ==> newCode[a] != newCode[b])
  }

  ghost predicate Placed(syms: seq<Word>, h: seq<nat>, a: nat, code: nat, rsum: seq<nat>, suffixLim: nat, j: nat)
    requires WordLengths(syms) && |h| >= 8 && a < |syms| && |rsum| == 8
  {
    var l := |syms[a]|;
    if l == 2 then if Extended(syms, a) then j <= code < h[1] else code < suffixLim
    else Start(h, l) <= code < rsum[l - 1]
  }

  /** The code given to symbol `i` is unused and lies in the symbol's group. */
  lemma {:induction false} NumberingStep(syms: seq<Word>, h: seq<nat>, i: nat, newCode: seq<nat>, rsum: seq<nat>, suffixLim: nat, j: nat)
    requires HistoOk(h, syms) && WordLengths(syms) && i < |syms|
    requires Numbering(syms, h, i, newCode, rsum, suffixLim, j)
    ensures
      var l := |syms[i]|;
      if l != 2 then
        && rsum[l - 1] < End(h, l)
        && Numbering(syms, h, i + 1, newCode[i := rsum[l - 1]], rsum[l - 1 := rsum[l - 1] + 1], suffixLim, j)
      else if Extended(syms, i) then
        0 < j && Numbering(syms, h, i + 1, newCode[i := j - 1], rsum, suffixLim, j - 1)
      else
        suffixLim < j && Numbering(syms, h, i + 1, newCode[i := suffixLim], rsum, suffixLim + 1, j)
  {
    hide CountLength, Start, Extended;
    GroupNotFull(syms, i);
    var l := |syms[i]|;
    if l != 2 {
      var code := rsum[l - 1];
      forall a | 0 <= a < i ensures newCode[a] != code {
        OtherGroup(syms, h, i, a, newCode[a], rsum, suffixLim, j, l);
      }
    } else {
      forall a | 0 <= a < i && |syms[a]| != 2 ensures newCode[a] >= h[1] {
        GroupStart2(h);
        GroupsOrdered(h, 2, |syms[a]|);
      }
    }
  }

  /** Symbols of one length keep their order, but for two-byte symbols with an extension, which come in reverse behind the others. */
  ghost predicate InTurn(syms: seq<Word>, newCode: seq<nat>, i: nat)
    requires i <= |syms| && i <= |newCode|
  {
    forall a, b :: 0 <= a < b < i && |syms[a]| == |syms[b]| ==>
      if |syms[a]| == 2 && Extended(syms, b) then newCode[b] < newCode[a] <==> Extended(syms, a)
      else newCode[a] < newCode[b] <==> |syms[a]| != 2 || !Extended(syms, a)
  }

  lemma {:induction false} TurnStep(syms: seq<Word>, h: seq<nat>, i: nat, newCode: seq<nat>, rsum: seq<nat>, suffixLim: nat, j: nat, code: nat)
    requires WordLengths(syms) && |h| >= 8 && i < |syms| && Numbering(syms, h, i, newCode, rsum, suffixLim, j) && InTurn(syms, newCode, i)
    requires |syms[i]| == 2 ==> suffixLim < j
    requires code == if |syms[i]| != 2 then rsum[|syms[i]| - 1] else if Extended(syms, i) then j - 1 else suffixLim
    ensures InTurn(syms, newCode[i := code], i + 1)
  {
    hide CountLength, Start, Extended;
    forall a | 0 <= a < i && |syms[a]| == |syms[i]| ensures Placed(syms, h, a, newCode[a], rsum, suffixLim, j) {}
  }

  lemma {:induction false} RoomInPairs(syms: seq<Word>, h: seq<nat>, i: nat, newCode: seq<nat>, rsum: seq<nat>, suffixLim: nat, j: nat)
    requires HistoOk(h, syms) && WordLengths(syms) && i < |syms| && Numbering(syms, h, i, newCode, rsum, suffixLim, j)
    ensures |h| >= 8 && |rsum| == 8 && (|syms[i]| == 2 ==> suffixLim < j)
  {
    hide CountLength, Start, Extended, Placed;
    GroupNotFull(syms, i);
  }

  lemma {:induction false} GroupStart2(h: seq<nat>)
    requires |h| >= 8
    ensures Start(h, 2) == 0 && End(h, 2) == h[1]
  {}

  lemma {:induction false} OtherGroup(syms: seq<Word>, h: seq<nat>, i: nat, a: nat, code: nat, rsum: seq<nat>, suffixLim: nat, j: nat, l: nat)
    requires HistoOk(h, syms) && WordLengths(syms) && a < i < |syms| && |rsum| == 8 && l != 2 && l == |syms[i]|
    requires suffixLim <= h[1]
    requires forall l :: 1 <= l <= 8 && l != 2 ==> rsum[l - 1] == Start(h, l) + CountLength(syms[..i], l)
    requires Placed(syms, h, a, code, rsum, suffixLim, j)
    ensures code != rsum[l - 1]
  {
    hide CountLength, Start, Extended;
    GroupStart2(h);
    GroupNotFull(syms, i);
    var m := |syms[a]|;
    if m != 2 {
      CountGrows(syms, m, i, |syms|);
      assert syms[..|syms|] == syms;
      if Rank(m) < Rank(l) { GroupsOrdered(h, m, l); }
      if Rank(l) < Rank(m) { GroupsOrdered(h, l, m); }
    } else {
      GroupsOrdered(h, 2, l);
    }
  }

  /** After the last symbol every group is full and the two ends of the two-byte group have met. */
  lemma {:induction false} NumberingDone(syms: seq<Word>, h: seq<nat>, newCode: seq<nat>, rsum: seq<nat>, suffixLim: nat, j: nat, a: nat)
    requires HistoOk(h, syms) && WordLengths(syms) && a < |syms|
    requires Numbering(syms, h, |syms|, newCode, rsum, suffixLim, j)
    ensures
      var l := |syms[a]|;
      && Start(h, l) <= newCode[a] < End(h, l) <= |syms|
      && (newCode[a] < suffixLim <==> l == 2 && !Extended(syms, a))
  {
    hide CountLength, Start, Extended;
    assert syms[..|syms|] == syms;
    GroupStart2(h);
    GroupsTotal(h, syms);
    var l := |syms[a]|;
    if l != 1 { GroupsOrdered(h, l, 1); }
    if l != 2 { GroupsOrdered(h, 2, l); }
    assert Placed(syms, h, a, newCode[a], rsum, suffixLim, j);
  }

  /** The symbols in the order of the lower half of the symbol array. */
  ghost function Heads(table: seq<Symbol>, n: nat): seq<Word>
    requires n <= |table|
  {
    seq(n, c requires 0 <= c < n => table[c].bytes)
  }

  lemma {:induction false} OldCode(syms: seq<Word>, fin: seq<Word>, newCode: seq<nat>, c: nat) returns (i: nat)
    requires Renamed(syms, fin, newCode) && c < |fin|
    ensures i < |syms| && newCode[i] == c && fin[c] == syms[i]
  {
    i := InjectiveOnto(newCode, c);
  }

  lemma {:induction false} RenamedDistinct(syms: seq<Word>, fin: seq<Word>, newCode: seq<nat>)
    requires Renamed(syms, fin, newCode) && Distinct(syms)
    ensures Distinct(fin)
  {
    forall c, d | 0 <= c < d < |fin| ensures fin[c] != fin[d] {
      var i := OldCode(syms, fin, newCode, c);
      var j := OldCode(syms, fin, newCode, d);
      if i < j { assert syms[i] != syms[j]; } else { assert syms[j] != syms[i]; }
    }
  }

  /** A word keeps its meaning: it is found under its symbol's new code, or not found at all. */
  lemma {:induction false} RenamedIndex(syms: seq<Word>, fin: seq<Word>, newCode: seq<nat>, w: Word)
    requires Renamed(syms, fin, newCode) && Distinct(syms)
    ensures IndexIn(fin, w) == if IndexIn(syms, w) >= 0 then newCode[IndexIn(syms, w)] else -1
  {
    hide IndexIn;
    var c, d := IndexIn(syms, w), IndexIn(fin, w);
    if c >= 0 { IndexOf(fin, newCode[c]); }
    if d >= 0 {
      var i := OldCode(syms, fin, newCode, d);
      IndexOf(syms, i);
    }
  }

  lemma {:induction false} RenamedExtended(syms: seq<Word>, fin: seq<Word>, newCode: seq<nat>, i: nat)
    requires Renamed(syms, fin, newCode) && i < |syms| && |syms[i]| == 2
    ensures Extended(fin, newCode[i]) <==> Extended(syms, i)
  {
    if Extended(syms, i) {
      var k :| 0 <= k < |syms| && k != i && |syms[k]| > 1 && syms[k][0] == syms[i][0] && syms[k][1] == syms[i][1];
      assert newCode[k] != newCode[i];
      assert fin[newCode[k]] == syms[k];
    }
    if Extended(fin, newCode[i]) {
      var c :| 0 <= c < |fin| && c != newCode[i] && |fin[c]| > 1 && fin[c][0] == fin[newCode[i]][0] && fin[c][1] == fin[newCode[i]][1];
      var k := OldCode(syms, fin, newCode, c);
    }
  }

  /** The codes form a bijection onto the first codes, grouped by length. */
  lemma {:induction false} NumberingGrouped(table: seq<Symbol>, syms: seq<Word>, h: seq<nat>, newCode: seq<nat>,
                                            rsum: seq<nat>, suffixLim: nat, j: nat)
    returns (fin: seq<Word>)
    requires HistoOk(h, syms) && SymbolsMoved(table, syms, newCode, |syms|) && |syms| < CODE_BASE
    requires Numbering(syms, h, |syms|, newCode, rsum, suffixLim, j)
    ensures Renamed(syms, fin, newCode[..|syms|]) && FinalSymbols(table, fin) && Grouped(fin, h, suffixLim)
  {
    hide CountLength, Start, Extended, Placed, Icl;
    var codes := newCode[..|syms|];
    forall a | 0 <= a < |syms| ensures codes[a] < |syms| {
      NumberingDone(syms, h, newCode, rsum, suffixLim, j, a);
    }
    fin := Heads(table, |syms|);
    GroupsTotal(h, syms);
    GroupStart2(h);
    GroupsOrdered(h, 2, 1);
    forall c | 0 <= c < |fin|
      ensures 1 <= |fin[c]| <= MAX_LENGTH && table[c] == Symbol(fin[c], Icl(|fin[c]|, c)) && Start(h, |fin[c]|) <= c < End(h, |fin[c]|)
      ensures c < suffixLim <==> |fin[c]| == 2 && !Extended(fin, c)
    {
      var a := OldCode(syms, fin, codes, c);
      assert table[c] == Symbol(fin[c], Icl(|fin[c]|, c));
      NumberingDone(syms, h, newCode, rsum, suffixLim, j, a);
      if |fin[c]| == 2 { RenamedExtended(syms, fin, codes, a); }
    }
    forall c, l | 0 <= c < |fin| && 1 <= l <= 8 ensures |fin[c]| == l <==> Start(h, l) <= c < End(h, l) {
      if Rank(l) < Rank(|fin[c]|) { GroupsOrdered(h, l, |fin[c]|); }
      if Rank(|fin[c]|) < Rank(l) { GroupsOrdered(h, |fin[c]|, l); }
    }
  }

  // ---------------------------------------------------------------- renumbering the structures

  /** Starting offsets for each length. */
  method RunningSums(h: seq<nat>, nSymbols: nat, rsum: array<nat>)
    requires |h| == 9 && rsum.Length == 8 && nSymbols == End(h, 1)
    modifies rsum
    ensures rsum[1] == 0 && forall l :: 1 <= l <= 8 ==> rsum[l - 1] == Start(h, l)
  {
    rsum[0] := nSymbols - h[0];
    rsum[1] := 0;
    var i := 1;
    while i < 7
      invariant 1 <= i <= 7 && rsum[0] == Start(h, 1)
      invariant forall l :: 2 <= l <= i + 1 ==> rsum[l - 1] == Start(h, l)
    {
      rsum[i + 1] := rsum[i] + h[i];
      i := i + 1;
    }
  }

  /** Tests whether no other symbol of several bytes begins with the same two bytes. */
  method HasNoSuffix(st: SymbolTable, i: nat, w: Word) returns (opt: bool)
    requires SymbolsKept(st.symbols[..], st.syms) && i < |st.syms| && |st.syms[i]| == 2 && w == st.syms[i] && st.nSymbols == |st.syms|
    ensures opt <==> !Extended(st.syms, i)
  {
    hide Icl, CodeOf, LengthOf, First2;
    opt := true;
    var k: nat := 0;
    while k < st.nSymbols && opt
      invariant k <= st.nSymbols
      invariant opt <==> forall k' :: 0 <= k' < k && k' != i && |st.syms[k']| > 1 ==>
        st.syms[k'][0] != st.syms[i][0] || st.syms[k'][1] != st.syms[i][1]
    {
      var s2 := st.symbols[CODE_BASE + k];
      assert s2 == Symbol(st.syms[k], Icl(|st.syms[k]|, CODE_BASE + k));
      IclFields(|st.syms[k]|, CODE_BASE + k);
      if |st.syms[k]| > 1 { First2Means(s2.bytes, w); }
      if k != i && LengthOf(s2.icl) > 1 && First2(s2.bytes) == First2(w) { opt := false; }
      k := k + 1;
    }
  }

  /** The upper half of the symbol array still holds the symbols under their old codes. */
  ghost predicate SymbolsKept(table: seq<Symbol>, syms: seq<Word>) {
    && |table| == CODE_MAX && |syms| < CODE_BASE && WordLengths(syms)
    && forall i :: 0 <= i < |syms| ==> table[CODE_BASE + i] == Symbol(syms[i], Icl(|syms[i]|, CODE_BASE + i))
  }

  /** The lower half holds the first `i` symbols under their new codes. */
  ghost predicate SymbolsMoved(table: seq<Symbol>, syms: seq<Word>, newCode: seq<nat>, i: nat) {
    && |table| == CODE_MAX && i <= |syms| <= |newCode| && WordLengths(syms)
    && forall a :: 0 <= a < i ==>
      newCode[a] < CODE_BASE && table[newCode[a]] == Symbol(syms[a], Icl(|syms[a]|, newCode[a]))
  }

  lemma {:induction false} MoveStep(table: seq<Symbol>, syms: seq<Word>, h: seq<nat>, newCode: seq<nat>, i: nat, code: nat,
                                    newCode': seq<nat>, table': seq<Symbol>)
    requires SymbolsKept(table, syms) && SymbolsMoved(table, syms, newCode, i) && i < |syms| && code < CODE_BASE
    requires newCode' == newCode[i := code] && forall a :: 0 <= a < i ==> newCode'[a] != code
    requires table' == table[code := Symbol(syms[i], Icl(|syms[i]|, code))]
    ensures SymbolsKept(table', syms) && SymbolsMoved(table', syms, newCode', i + 1)
  {
    hide Icl;
  }

  lemma {:induction false} NumberingStart(syms: seq<Word>, h: seq<nat>, table: seq<Symbol>, newCode: seq<nat>, rsum: seq<nat>)
    requires HistoOk(h, syms) && SymbolsKept(table, syms) && |rsum| == 8 && |newCode| == 256
    requires forall l :: 1 <= l <= 8 ==> rsum[l - 1] == Start(h, l)
    ensures Numbering(syms, h, 0, newCode, rsum, 0, rsum[2]) && SymbolsMoved(table, syms, newCode, 0)
  {
    assert syms[..0] == [];
    assert Start(h, 3) == h[1];
    forall l | 1 <= l <= 8 ensures CountLength(syms[..0], l) == 0 {}
  }

  /** The code just given out is a new one and fits the lower half. */
  lemma {:induction false} NumberingFresh(syms: seq<Word>, h: seq<nat>, i: nat, newCode: seq<nat>, rsum: seq<nat>, suffixLim: nat, j: nat)
    requires HistoOk(h, syms) && WordLengths(syms) && i < |syms|
    requires Numbering(syms, h, i + 1, newCode, rsum, suffixLim, j)
    ensures newCode[i] < |syms|
    ensures forall a :: 0 <= a < i ==> newCode[a] != newCode[i]
  {
    hide CountLength, Start, Extended;
    GroupStart2(h);
    GroupsTotal(h, syms);
    GroupsOrdered(h, 2, 1);
    assert Placed(syms, h, i, newCode[i], rsum, suffixLim, j);
    var l := |syms[i]|;
    if l != 2 {
      CountGrows(syms, l, i + 1, |syms|);
      assert syms[..|syms|] == syms;
      if l != 1 { GroupsOrdered(h, l, 1); }
    }
  }

  /** The new code of symbol `i`, and the symbol under it. */
  method NumberNext(st: SymbolTable, newCode: array<nat>, rsum: array<nat>, i: nat, suffixLim: nat, j: nat, ghost h: seq<nat>)
    returns (suffixLim': nat, j': nat)
    requires st.nSymbols == |st.syms| && i < |st.syms| && newCode.Length == 256 && rsum.Length == 8 && newCode != rsum
    requires HistoOk(h, st.syms) && SymbolsKept(st.symbols[..], st.syms) && SymbolsMoved(st.symbols[..], st.syms, newCode[..], i)
    requires Numbering(st.syms, h, i, newCode[..], rsum[..], suffixLim, j) && InTurn(st.syms, newCode[..], i)
    modifies st.symbols, newCode, rsum
    ensures SymbolsKept(st.symbols[..], st.syms) && SymbolsMoved(st.symbols[..], st.syms, newCode[..], i + 1)
    ensures Numbering(st.syms, h, i + 1, newCode[..], rsum[..], suffixLim', j') && InTurn(st.syms, newCode[..], i + 1)
  {
    hide InTurn, Icl, LengthOf, CodeOf, CountLength, Start, Extended, Placed, Numbering, SymbolsMoved, HistoOk;
    ghost var syms := st.syms;
    var s1 := st.symbols[CODE_BASE + i];
    var w := s1.bytes;
    assert s1 == Symbol(syms[i], Icl(|syms[i]|, CODE_BASE + i));
    IclFields(|w|, CODE_BASE + i);
    var length := LengthOf(s1.icl);
    ghost var codes, sums, table := newCode[..], rsum[..], st.symbols[..];
    NumberingStep(syms, h, i, codes, sums, suffixLim, j);
    RoomInPairs(syms, h, i, codes, sums, suffixLim, j);
    TurnStep(syms, h, i, codes, sums, suffixLim, j, if |w| != 2 then sums[|w| - 1] else if Extended(syms, i) then j - 1 else suffixLim);
    suffixLim', j' := suffixLim, j;
    if length == 2 {
      var opt := HasNoSuffix(st, i, w);
      if opt {
        newCode[i] := suffixLim;
        suffixLim' := suffixLim + 1;
      } else {
        j' := j - 1;
        newCode[i] := j';
      }
      assert newCode[..] == codes[i := newCode[i]];
      assert rsum[..] == sums;
    } else {
      newCode[i] := rsum[length - 1];
      rsum[length - 1] := rsum[length - 1] + 1;
      assert newCode[..] == codes[i := newCode[i]];
      assert rsum[..] == sums[length - 1 := sums[length - 1] + 1];
    }
    NumberingFresh(syms, h, i, newCode[..], rsum[..], suffixLim', j');
    st.symbols[newCode[i]] := Symbol(w, Icl(|w|, newCode[i]));
    assert st.symbols[..] == table[newCode[i] := Symbol(w, Icl(|w|, newCode[i]))];
    MoveStep(table, syms, h, codes, i, newCode[i], newCode[..], st.symbols[..]);
  }

  /** The loop that gives out the new codes. */
  method NumberCodes(st: SymbolTable, newCode: array<nat>) returns (suffixLim: nat, ghost fin: seq<Word>)
    requires st.Valid() && |st.syms| < CODE_BASE && newCode.Length == 256
    requires newCode != st.byteCodes && newCode != st.shortCodes && newCode != st.lenHisto
    modifies st.symbols, newCode
    ensures Renamed(st.syms, fin, newCode[..|st.syms|]) && Grouped(fin, st.lenHisto[..], suffixLim)
    ensures FinalSymbols(st.symbols[..], fin) && InTurn(st.syms, newCode[..|st.syms|], |st.syms|)
    ensures st.Indexed(st.syms)
  {
    hide Icl, LengthOf, CodeOf, BytesOk, ShortsOk, CountLength, Start, Extended, Placed, Numbering, SymbolsMoved, NoCollision, Bucket, SlotEntry;
    ghost var syms := st.syms;
    var h := st.lenHisto[..];
    var rsum := new nat[8];
    GroupsTotal(h, syms);
    GroupStart2(h);
    RunningSums(h, st.nSymbols, rsum);
    suffixLim := rsum[1];
    newCode[0] := 0;
    st.symbols[0] := st.symbols[CODE_BASE];
    NumberingStart(syms, h, st.symbols[..], newCode[..], rsum[..]);
    var i: nat, j: nat := 0, rsum[2];
    while i < st.nSymbols
      modifies st.symbols, newCode, rsum
      invariant i <= st.nSymbols && rsum.Length == 8
      invariant SymbolsKept(st.symbols[..], syms) && SymbolsMoved(st.symbols[..], syms, newCode[..], i)
      invariant Numbering(syms, h, i, newCode[..], rsum[..], suffixLim, j) && InTurn(syms, newCode[..], i)
    {
      suffixLim, j := NumberNext(st, newCode, rsum, i, suffixLim, j, h);
      i := i + 1;
    }
    fin := NumberingGrouped(st.symbols[..], syms, h, newCode[..], rsum[..], suffixLim, j);
    assert InTurn(syms, newCode[..|syms|], |syms|) by { assert InTurn(syms, newCode[..], |syms|); }
  }

  // ---------------------------------------------------------------- one entry at a time

  /** Real codes are looked up in the renumbering, all others become the escape. */
  lemma {:induction false} RenumberByte(syms: seq<Word>, fin: seq<Word>, newCode: seq<nat>, b: Byte)
    requires Renamed(syms, fin, newCode) && Distinct(syms) && |syms| < CODE_BASE
    ensures
      var e := ByteEntry(syms, b);
      if e % CODE_MAX >= CODE_BASE
      then e % 256 < |syms| && FinalByte(fin, b) == newCode[e % 256] + LEN_UNIT
      else FinalByte(fin, b) == ESCAPE_CODE + LEN_UNIT
  {
    hide IndexIn;
    RenamedIndex(syms, fin, newCode, [b]);
  }

  lemma {:induction false} RenumberShort(syms: seq<Word>, fin: seq<Word>, newCode: seq<nat>, b0: Byte, b1: Byte)
    requires Renamed(syms, fin, newCode) && Distinct(syms) && |syms| < CODE_BASE
    ensures
      var e := ShortEntry(syms, b0, b1);
      if e % CODE_MAX >= CODE_BASE
      then e % 256 < |syms| && FinalShort(fin, b0, b1) == newCode[e % 256] + e / LEN_UNIT % 16 * LEN_UNIT
      else FinalShort(fin, b0, b1) == FinalByte(fin, b0)
  {
    hide IndexIn, FinalByte;
    RenamedIndex(syms, fin, newCode, [b0, b1]);
  }

  lemma {:induction false} RenumberSlot(syms: seq<Word>, fin: seq<Word>, newCode: seq<nat>, table: seq<Symbol>, h: nat)
    requires Renamed(syms, fin, newCode) && WordLengths(syms) && |syms| < CODE_BASE && FinalSymbols(table, fin)
    ensures
      var e := SlotEntry(syms, h);
      if e.icl < ICL_FREE
      then CodeOf(e.icl) % 256 < |syms| && newCode[CodeOf(e.icl) % 256] < |table|
           && FinalSlot(table[newCode[CodeOf(e.icl) % 256]], fin, h)
      else e == FREE_SLOT && FinalSlot(e, fin, h)
  {
    hide Bucket, Icl, CodeOf, SlotEntry;
    var i := SlotOwner(syms, h);
    if i >= 0 {
      IclFields(|syms[i]|, CODE_BASE + i);
      assert (CODE_BASE + i) % 256 == i;
      var c := newCode[i];
      IclFields(|fin[c]|, c);
      assert table[c] == Symbol(fin[c], Icl(|fin[c]|, c));
    } else {
      forall c | 0 <= c < |fin| && |fin[c]| >= 3 && Bucket(fin[c]) == h ensures false {
        var a := OldCode(syms, fin, newCode, c);
        SlotTaken(syms, a);
      }
    }
  }

  lemma {:induction false} RenamedCollisions(syms: seq<Word>, fin: seq<Word>, newCode: seq<nat>)
    requires Renamed(syms, fin, newCode) && NoCollision(syms)
    ensures NoCollision(fin)
  {
    hide Bucket;
    forall c, d | 0 <= c < d < |fin| && |fin[c]| >= 3 && |fin[d]| >= 3 ensures Bucket(fin[c]) != Bucket(fin[d]) {
      var i := OldCode(syms, fin, newCode, c);
      var j := OldCode(syms, fin, newCode, d);
      if i < j { assert Bucket(syms[i]) != Bucket(syms[j]); } else { assert Bucket(syms[j]) != Bucket(syms[i]); }
    }
  }

  // ---------------------------------------------------------------- finalize

  /** What compression and export work on. */
  ghost predicate FinalTable(st: SymbolTable, fin: seq<Word>)
    reads st, st.shortCodes, st.symbols, st.hashTab, st.lenHisto
  {
    && st.nSymbols == |fin| < CODE_BASE
    && Distinct(fin) && NoCollision(fin)
    && FinalSymbols(st.symbols[..], fin)
    && FinalShorts(st.shortCodes[..], fin)
    && FinalSlots(st.hashTab[..], fin)
    && Grouped(fin, st.lenHisto[..], st.suffixLim)
  }

  /** finalize, for strings that are not zero-terminated: renumbers every symbol, byte, byte pair and
      hash slot so that the table means the same symbols under their new codes. */
  method Finalize(st: SymbolTable) returns (ghost fin: seq<Word>, ghost renaming: seq<nat>)
    requires st.Valid() && Distinct(st.syms) && |st.syms| < CODE_BASE
    modifies st, st.shortCodes, st.byteCodes, st.symbols, st.hashTab
    ensures FinalTable(st, fin) && Renamed(old(st.syms), fin, renaming) && InTurn(old(st.syms), renaming, |old(st.syms)|)
  {
    hide Icl, Bucket, BytesOk, ShortsOk, SlotsOk, HistoOk, Extended, FinalSymbols, FinalShorts, FinalSlots, Grouped, SymbolsOk, CodeOf, InTurn;
    ghost var syms := st.syms;
    var newCode := new nat[256];
    var suffixLim;
    suffixLim, fin := NumberCodes(st, newCode);
    renaming := newCode[..|syms|];
    RenamedDistinct(syms, fin, renaming);
    RenamedCollisions(syms, fin, renaming);
    ghost var bytes := st.byteCodes[..];
    RenumberBytes(st.byteCodes, newCode, syms, fin);
    RenumberShorts(st.shortCodes, st.byteCodes, newCode, syms, fin);
    RenumberSlots(st.hashTab, st.symbols, newCode, syms, fin);
    st.suffixLim := suffixLim;
  }

  method RenumberBytes(byteCodes: array<nat>, newCode: array<nat>, ghost syms: seq<Word>, ghost fin: seq<Word>)
    requires BytesOk(byteCodes[..], syms) && |syms| < CODE_BASE && Distinct(syms) && newCode.Length == 256
    requires Renamed(syms, fin, newCode[..|syms|]) && newCode != byteCodes
    modifies byteCodes
    ensures byteCodes.Length == 256 && forall b: Byte :: byteCodes[b] == FinalByte(fin, b)
  {
    hide ByteEntry, FinalByte;
    ghost var codes := newCode[..|syms|];
    var i: nat := 0;
    while i < 256
      invariant i <= 256 == byteCodes.Length && newCode[..|syms|] == codes
      invariant forall b: Byte :: b < i ==> byteCodes[b] == FinalByte(fin, b)
      invariant forall b: Byte :: b >= i ==> byteCodes[b] == ByteEntry(syms, b)
    {
      RenumberByte(syms, fin, codes, i);
      if byteCodes[i] % CODE_MAX >= CODE_BASE {
        byteCodes[i] := newCode[byteCodes[i] % 256] + LEN_UNIT;
      } else {
        byteCodes[i] := ESCAPE_CODE + LEN_UNIT;
      }
      i := i + 1;
    }
  }

  method RenumberShorts(shortCodes: array<nat>, byteCodes: array<nat>, newCode: array<nat>, ghost syms: seq<Word>, ghost fin: seq<Word>)
    requires ShortsOk(shortCodes[..], syms) && |syms| < CODE_BASE && Distinct(syms) && newCode.Length == 256
    requires Renamed(syms, fin, newCode[..|syms|]) && newCode != shortCodes && byteCodes != shortCodes
    requires byteCodes.Length == 256 && forall b: Byte :: byteCodes[b] == FinalByte(fin, b)
    modifies shortCodes
    ensures FinalShorts(shortCodes[..], fin)
  {
    hide ShortEntry, FinalByte, FinalShort, Pair;
    ghost var codes := newCode[..|syms|];
    ShortsAsPairs(shortCodes[..], syms);
    var i: nat := 0;
    while i < 65536
      invariant i <= 65536 == shortCodes.Length && newCode[..|syms|] == codes
      invariant forall b0: Byte, b1: Byte {:trigger Pair(b0, b1)} ::
        shortCodes[Pair(b0, b1)] == if Pair(b0, b1) < i then FinalShort(fin, b0, b1) else ShortEntry(syms, b0, b1)
    {
      var b0, b1 := i % 256, i / 256;
      PairOf(i);
      RenumberShort(syms, fin, codes, b0, b1);
      assert shortCodes[Pair(b0, b1)] == ShortEntry(syms, b0, b1);
      forall a0: Byte, a1: Byte {:trigger Pair(a0, a1)} ensures Pair(a0, a1) == i <==> a0 == b0 && a1 == b1 {
        PairInjective(a0, a1, b0, b1);
      }
      if shortCodes[i] % CODE_MAX >= CODE_BASE {
        shortCodes[i] := newCode[shortCodes[i] % 256] + shortCodes[i] / LEN_UNIT % 16 * LEN_UNIT;
      } else {
        shortCodes[i] := byteCodes[b0];
      }
      i := i + 1;
    }
    forall b0: Byte, b1: Byte {:trigger Pair(b0, b1)} ensures Pair(b0, b1) < 65536 {}
  }

  lemma {:induction false} ShortsAsPairs(codes: seq<nat>, syms: seq<Word>)
    requires ShortsOk(codes, syms)
    ensures |codes| == 65536 && forall b0: Byte, b1: Byte {:trigger Pair(b0, b1)} :: codes[Pair(b0, b1)] == ShortEntry(syms, b0, b1)
  {
    hide ShortEntry, Pair;
    forall b0: Byte, b1: Byte {:trigger Pair(b0, b1)} ensures codes[Pair(b0, b1)] == ShortEntry(syms, b0, b1) {}
  }

  lemma {:induction false} PairOf(i: nat)
    requires i < 65536
    ensures i / 256 < 256 && Pair(i % 256, i / 256) == i
  {}

  method RenumberSlots(hashTab: array<Symbol>, symbols: array<Symbol>, newCode: array<nat>, ghost syms: seq<Word>, ghost fin: seq<Word>)
    requires SlotsOk(hashTab[..], syms) && |syms| < CODE_BASE && newCode.Length == 256 && hashTab != symbols
    requires Renamed(syms, fin, newCode[..|syms|]) && FinalSymbols(symbols[..], fin)
    modifies hashTab
    ensures FinalSlots(hashTab[..], fin)
  {
    hide SlotEntry, FinalSlot, Bucket, Icl, CodeOf;
    ghost var codes, table := newCode[..|syms|], symbols[..];
    var i: nat := 0;
    while i < HASH_SIZE
      invariant i <= HASH_SIZE == hashTab.Length && newCode[..|syms|] == codes && symbols[..] == table
      invariant forall h :: 0 <= h < i ==> FinalSlot(hashTab[h], fin, h)
      invariant forall h :: i <= h < HASH_SIZE ==> hashTab[h] == SlotEntry(syms, h)
    {
      RenumberSlot(syms, fin, codes, table, i);
      if hashTab[i].icl < ICL_FREE {
        hashTab[i] := symbols[newCode[CodeOf(hashTab[i].icl) % 256]];
      }
      i := i + 1;
    }
  }
}
