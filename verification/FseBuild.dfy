/** Building the encoding and the decoding table, and the theorem that ties them together: the
    table cell an encoding step leads to makes the decoder undo that step. */
module FseBuild {
  import opened Powers
  import opened FseTables

  datatype Transform = Transform(deltaFindState: int, deltaNbBits: nat)
  datatype CTable = CTable(tableLog: nat, stateTable: seq<nat>, symbolTT: seq<Transform>)

  datatype Cell = Cell(newState: nat, symbol: nat, nbBits: nat)
  datatype DTable = DTable(tableLog: nat, fastMode: bool, cells: seq<Cell>)

  // ---------------------------------------------------------------- what the tables hold

  /** Most bits a symbol with `c` cells can cost. */
  function MaxBits(tableLog: nat, c: nat): nat
    requires 1 <= c
  {
    if c == 1 then tableLog
    else if HighBit(c - 1) <= tableLog then tableLog - HighBit(c - 1) else 0
  }

  /** A symbol's cells, in table order, fill its range of the state table. */
  ghost predicate StatesFilled(states: seq<nat>, t: seq<nat>, norm: seq<int>, n: nat)
    requires n <= |t|
  {
    forall u :: 0 <= u < n ==>
      && t[u] < |norm|
      && Base(norm, t[u]) + Count(t[..u], t[u]) < |states|
      && states[Base(norm, t[u]) + Count(t[..u], t[u])] == |t| + u
  }

  ghost predicate IsTransform(x: Transform, norm: seq<int>, tableLog: nat, s: nat)
    requires s < |norm|
  {
    if norm[s] == 0 then x.deltaNbBits == Shl(tableLog + 1, 16) - Pow2(tableLog)
    else
      var c := Cells(norm[s]);
      var mb := MaxBits(tableLog, c);
      x.deltaFindState == Base(norm, s) - c && x.deltaNbBits == Shl(mb, 16) - Shl(c, mb)
  }

  ghost predicate TransformsFilled(tt: seq<Transform>, norm: seq<int>, tableLog: nat, n: nat)
    requires n <= |norm| && n <= |tt|
  {
    forall s :: 0 <= s < n ==> IsTransform(tt[s], norm, tableLog, s)
  }

  ghost predicate IsCTable(ct: CTable, t: seq<nat>, norm: seq<int>) {
    && ct.tableLog >= MIN_TABLELOG && IsSpread(t, norm, ct.tableLog)
    && |ct.stateTable| == |t| && StatesFilled(ct.stateTable, t, norm, |t|)
    && |ct.symbolTT| == |norm| && TransformsFilled(ct.symbolTT, norm, ct.tableLog, |norm|)
  }

  /** Sub-state of cell `u`: its symbol's cells are numbered from `Cells` up in table order. */
  function NextState(t: seq<nat>, norm: seq<int>, u: nat): nat
    requires u < |t| && t[u] < |norm|
  {
    Cells(norm[t[u]]) + Count(t[..u], t[u])
  }

  ghost predicate IsCell(c: Cell, t: seq<nat>, norm: seq<int>, tableLog: nat, u: nat)
    requires u < |t|
  {
    && t[u] < |norm| && c.symbol == t[u]
    && var next := NextState(t, norm, u);
    && next > 0 && HighBit(next) <= tableLog
    && c.nbBits == tableLog - HighBit(next)
    && c.newState == Shl(next, c.nbBits) - Pow2(tableLog)
  }

  ghost predicate IsDTable(dt: DTable, t: seq<nat>, norm: seq<int>) {
    && dt.tableLog >= MIN_TABLELOG && IsSpread(t, norm, dt.tableLog)
    && |dt.cells| == |t|
    && (forall u :: 0 <= u < |t| ==> IsCell(dt.cells[u], t, norm, dt.tableLog, u))
    && (dt.fastMode <==> forall s :: 0 <= s < |norm| ==> norm[s] < Pow2(dt.tableLog - 1))
  }

  // ---------------------------------------------------------------- encoding table

  /** Symbol start positions, laying the low-probability symbols on the way. */
  method StartPositions(norm: seq<int>, tableLog: nat, tableSymbol: array<nat>, cumul: array<nat>)
    returns (highThreshold: int)
    requires ValidNorm(norm, tableLog)
    requires tableSymbol.Length == Pow2(tableLog) && cumul.Length == |norm| + 1 && cumul != tableSymbol
    modifies tableSymbol, cumul
    ensures highThreshold == HighThreshold(norm, tableLog)
    ensures LowLaid(tableSymbol[..], norm, tableLog, |norm|)
    ensures forall s :: 0 <= s < |norm| ==> cumul[s] == Base(norm, s)
  {
    hide Pow2, Base, LowLaid;
    highThreshold := Pow2(tableLog) - 1;
    cumul[0] := 0;
    ZeroSymbols(tableSymbol[..], norm, tableLog);
    var u: nat := 1;
    while u <= |norm|
      invariant 1 <= u <= |norm| + 1
      invariant highThreshold == Pow2(tableLog) - 1 - LowCount(norm, u - 1)
      invariant LowLaid(tableSymbol[..], norm, tableLog, u - 1)
      invariant forall s :: 0 <= s < u ==> cumul[s] == Base(norm, s)
    {
      NextBase(norm, u - 1);
      LowStep(tableSymbol[..], norm, tableLog, u - 1);
      if norm[u - 1] == -1 {
        cumul[u] := cumul[u - 1] + 1;
        ghost var was := tableSymbol[..];
        tableSymbol[highThreshold] := u - 1;
        assert tableSymbol[..] == was[highThreshold := (u - 1) as nat];
        highThreshold := highThreshold - 1;
      } else {
        cumul[u] := cumul[u - 1] + norm[u - 1];
      }
      u := u + 1;
    }
    cumul[|norm|] := Pow2(tableLog) + 1;
  }

  lemma {:induction false} ZeroSymbols(t: seq<nat>, norm: seq<int>, tableLog: nat)
    requires |t| == Pow2(tableLog)
    ensures LowLaid(t, norm, tableLog, 0) && Base(norm, 0) == 0
  {}

  /** The next low-probability symbol goes right below the ones laid before. */
  lemma {:induction false} LowStep(t: seq<nat>, norm: seq<int>, tableLog: nat, s: nat)
    requires ValidNorm(norm, tableLog) && |t| == Pow2(tableLog) && s < |norm|
    requires LowLaid(t, norm, tableLog, s)
    ensures norm[s] == -1 ==> LowCount(norm, s) < |t| && LowLaid(t[|t| - 1 - LowCount(norm, s) := s], norm, tableLog, s + 1)
    ensures norm[s] != -1 ==> LowLaid(t, norm, tableLog, s + 1)
  {
    hide Pow2;
    if norm[s] == -1 {
      LowFits(norm, tableLog, s);
      LowsDiffer(norm, s);
    }
  }

  lemma {:induction false} LowFits(norm: seq<int>, tableLog: nat, s: nat)
    requires ValidNorm(norm, tableLog) && s < |norm| && norm[s] == -1
    ensures LowCount(norm, s) < Pow2(tableLog)
  {
    hide Pow2;
    CountsAddUp(norm, |norm|);
    CountsMono(norm, s + 1, |norm|);
  }

  lemma {:induction false} LowsDiffer(norm: seq<int>, s: nat)
    requires s < |norm|
    ensures forall s' :: 0 <= s' < s && norm[s'] == -1 ==> LowCount(norm, s') < LowCount(norm, s)
  {
    forall s' | 0 <= s' < s && norm[s'] == -1 ensures LowCount(norm, s') < LowCount(norm, s) {
      CountsMono(norm, s' + 1, s);
    }
  }

  /** Lays every symbol of positive count along the walk; the walk ends where it began. */
  method SpreadSymbols(norm: seq<int>, tableLog: nat, highThreshold: int, tableSymbol: array<nat>)
    returns (position: nat)
    requires ValidNorm(norm, tableLog) && tableSymbol.Length == Pow2(tableLog)
    requires highThreshold == HighThreshold(norm, tableLog) && LowLaid(tableSymbol[..], norm, tableLog, |norm|)
    modifies tableSymbol
    ensures position == 0 && IsSpread(tableSymbol[..], norm, tableLog)
  {
    hide Pow2, Visit, Opened, Base, LowLaid, WalkLaid, HighThreshold;
    position := 0;
    ghost var k := 0;
    WalkStart(tableSymbol[..], norm, tableLog);
    var symbol: nat := 0;
    while symbol < |norm|
      invariant symbol <= |norm|
      invariant Walking(tableSymbol[..], norm, tableLog, k, position)
      invariant Opened(tableLog, highThreshold, k) == WalkCount(norm, symbol)
    {
      var nbOccurrences: nat := 0;
      while nbOccurrences < norm[symbol]
        invariant nbOccurrences == 0 || nbOccurrences <= norm[symbol]
        invariant Walking(tableSymbol[..], norm, tableLog, k, position)
        invariant Opened(tableLog, highThreshold, k) == WalkCount(norm, symbol) + nbOccurrences
        decreases norm[symbol] - nbOccurrences
      {
        CanPlace(tableSymbol[..], norm, tableLog, k, position, symbol, nbOccurrences);
        ghost var was := tableSymbol[..];
        tableSymbol[position] := symbol;
        assert tableSymbol[..] == was[position := symbol];
        ghost var k';
        position, k' := NextPosition(tableLog, highThreshold, position, k);
        Placed(was, norm, tableLog, k, k', symbol, nbOccurrences);
        k := k';
        nbOccurrences := nbOccurrences + 1;
      }
      symbol := symbol + 1;
    }
    WalkEnd(tableSymbol[..], norm, tableLog, k, position);
  }

  /** State of the walk between two placements: `k` steps were taken. */
  ghost predicate Walking(t: seq<nat>, norm: seq<int>, tableLog: nat, k: nat, position: nat)
    requires |t| == Pow2(tableLog)
  {
    && k <= Pow2(tableLog) && position == Visit(tableLog, k)
    && (if HighThreshold(norm, tableLog) >= 0 then position <= HighThreshold(norm, tableLog) else k == 0)
    && WalkLaid(t, norm, tableLog, k) && LowLaid(t, norm, tableLog, |norm|)
  }

  lemma {:induction false} WalkStart(t: seq<nat>, norm: seq<int>, tableLog: nat)
    requires |t| == Pow2(tableLog) && LowLaid(t, norm, tableLog, |norm|)
    ensures Walking(t, norm, tableLog, 0, 0) && Opened(tableLog, HighThreshold(norm, tableLog), 0) == 0
  {}

  lemma {:induction false} CanPlace(t: seq<nat>, norm: seq<int>, tableLog: nat, k: nat, position: nat, s: nat, n: nat)
    requires ValidNorm(norm, tableLog) && |t| == Pow2(tableLog) && s < |norm| && n < norm[s]
    requires Walking(t, norm, tableLog, k, position)
    requires Opened(tableLog, HighThreshold(norm, tableLog), k) == WalkCount(norm, s) + n
    ensures k < Pow2(tableLog) && 0 <= HighThreshold(norm, tableLog) && position < |t|
  {
    hide Pow2, Visit, Opened, Base;
    TurnOver(norm, tableLog, k);
    CountsMono(norm, s + 1, |norm|);
    assert WalkCount(norm, s + 1) == WalkCount(norm, s) + norm[s];
  }

  lemma {:induction false} Placed(t: seq<nat>, norm: seq<int>, tableLog: nat, k: nat, k': nat, s: nat, n: nat)
    requires ValidNorm(norm, tableLog) && |t| == Pow2(tableLog) && s < |norm| && n < norm[s]
    requires k < k' <= Pow2(tableLog) && Walking(t, norm, tableLog, k, Visit(tableLog, k))
    requires
      var high := HighThreshold(norm, tableLog);
      && 0 <= high
      && Opened(tableLog, high, k) == WalkCount(norm, s) + n
      && Opened(tableLog, high, k') == Opened(tableLog, high, k + 1)
      && (forall i :: k < i < k' ==> Visit(tableLog, i) > high)
      && Visit(tableLog, k') <= high
    ensures Walking(t[Visit(tableLog, k) := s], norm, tableLog, k', Visit(tableLog, k'))
    ensures Opened(tableLog, HighThreshold(norm, tableLog), k') == WalkCount(norm, s) + n + 1
  {
    hide Pow2, Visit, Base, LowLaid, WalkLaid, WalkCount;
    PlaceStep(t, norm, tableLog, k, s);
    SkipSteps(t[Visit(tableLog, k) := s], norm, tableLog, k + 1, k');
  }

  lemma {:induction false} WalkEnd(t: seq<nat>, norm: seq<int>, tableLog: nat, k: nat, position: nat)
    requires ValidNorm(norm, tableLog) && |t| == Pow2(tableLog)
    requires Walking(t, norm, tableLog, k, position)
    requires Opened(tableLog, HighThreshold(norm, tableLog), k) == WalkCount(norm, |norm|)
    ensures position == 0 && IsSpread(t, norm, tableLog)
  {
    hide Pow2, Base;
    var high := HighThreshold(norm, tableLog);
    TurnOver(norm, tableLog, k);
    if high >= 0 {
      VisitTurn(tableLog);
    }
  }

  lemma {:induction false} NoneFilled(st: seq<nat>, t: seq<nat>, norm: seq<int>)
    requires |st| == |t|
    ensures StatesFilled(st, t, norm, 0) && forall s :: Count(t[..0], s) == 0
  {}

  /** Lists each symbol's cells in table order. */
  method FillStates(t: array<nat>, norm: seq<int>, tableLog: nat, cumul: array<nat>, tableU16: array<nat>)
    requires ValidNorm(norm, tableLog) && t.Length == tableU16.Length == Pow2(tableLog)
    requires IsSpread(t[..], norm, tableLog)
    requires cumul.Length == |norm| + 1 && forall s :: 0 <= s < |norm| ==> cumul[s] == Base(norm, s)
    requires t != tableU16 && t != cumul && cumul != tableU16
    modifies cumul, tableU16
    ensures StatesFilled(tableU16[..], t[..], norm, t.Length)
  {
    hide Pow2, Base, LowLaid, WalkLaid, IsSpread, StatesFilled, Count;
    ghost var syms := t[..];
    NoneFilled(tableU16[..], syms, norm);
    var u: nat := 0;
    while u < t.Length
      invariant u <= t.Length && t[..] == syms
      invariant forall s :: 0 <= s < |norm| ==> cumul[s] == Base(norm, s) + Count(syms[..u], s)
      invariant StatesFilled(tableU16[..], syms, norm, u)
    {
      var s := t[u];
      StateSlot(syms, norm, tableLog, u);
      CountNext(syms, norm, u);
      NewSlot(syms, norm, tableLog, u, tableU16[..], tableU16.Length + u);
      tableU16[cumul[s]] := tableU16.Length + u;
      cumul[s] := cumul[s] + 1;
      u := u + 1;
    }
  }

  lemma {:induction false} CountNext(t: seq<nat>, norm: seq<int>, u: nat)
    requires u < |t|
    ensures forall s :: 0 <= s < |norm| ==> Count(t[..u + 1], s) == Count(t[..u], s) + if t[u] == s then 1 else 0
  {
    assert t[..u + 1][..u] == t[..u];
  }

  lemma {:induction false} CountMono(t: seq<nat>, s: nat, m: nat, n: nat)
    requires m <= n <= |t|
    ensures Count(t[..m], s) <= Count(t[..n], s)
    decreases n
  {
    if m < n {
      assert t[..n][..n - 1] == t[..n - 1];
      CountMono(t, s, m, n - 1);
    }
  }

  lemma {:induction false} RankBound(t: seq<nat>, norm: seq<int>, tableLog: nat, u: nat)
    requires ValidNorm(norm, tableLog) && IsSpread(t, norm, tableLog) && u < |t|
    ensures t[u] < |norm| && norm[t[u]] != 0 && Count(t[..u], t[u]) < Cells(norm[t[u]])
  {
    hide Pow2, Base, LowLaid, WalkLaid;
    SpreadSymbol(t, norm, tableLog, u);
    SpreadCount(t, norm, tableLog, t[u]);
    CountNext(t, norm, u);
    CountMono(t, t[u], u + 1, |t|);
    assert t[..|t|] == t;
  }

  lemma {:induction false} StateSlot(t: seq<nat>, norm: seq<int>, tableLog: nat, u: nat)
    requires ValidNorm(norm, tableLog) && IsSpread(t, norm, tableLog) && u < |t|
    ensures t[u] < |norm| && Base(norm, t[u]) + Count(t[..u], t[u]) < |t|
  {
    hide Pow2, LowLaid, WalkLaid;
    RankBound(t, norm, tableLog, u);
    CountsMono(norm, t[u] + 1, |norm|);
  }

  /** The next slot is none of the slots filled before. */
  lemma {:induction false} NewSlot(t: seq<nat>, norm: seq<int>, tableLog: nat, u: nat, states: seq<nat>, v: nat)
    requires ValidNorm(norm, tableLog) && IsSpread(t, norm, tableLog) && u < |t| == |states| && v == |t| + u
    requires StatesFilled(states, t, norm, u)
    requires t[u] < |norm| && Base(norm, t[u]) + Count(t[..u], t[u]) < |t|
    ensures StatesFilled(states[Base(norm, t[u]) + Count(t[..u], t[u]) := v], t, norm, u + 1)
  {
    hide Pow2, Base, LowLaid, WalkLaid, Count;
    var slot := Base(norm, t[u]) + Count(t[..u], t[u]);
    forall u' | 0 <= u' < u
      ensures t[u'] < |norm| && Base(norm, t[u']) + Count(t[..u'], t[u']) != slot
    {
      RankBound(t, norm, tableLog, u');
      RankBound(t, norm, tableLog, u);
      if t[u'] == t[u] {
        CountNext(t, norm, u');
        CountMono(t, t[u], u' + 1, u);
      } else if t[u'] < t[u] {
        BaseSeparates(norm, t[u'], t[u]);
      } else {
        BaseSeparates(norm, t[u], t[u']);
      }
    }
  }

  /** The symbol transformation table. */
  method FillTransforms(norm: seq<int>, tableLog: nat, symbolTT: array<Transform>)
    requires ValidNorm(norm, tableLog) && symbolTT.Length == |norm|
    modifies symbolTT
    ensures TransformsFilled(symbolTT[..], norm, tableLog, |norm|)
  {
    hide Pow2, Shl, HighBit, MaxBits, TransformsFilled, Base;
    var total: nat := 0;
    var s: nat := 0;
    NoTransforms(symbolTT[..], norm, tableLog);
    while s < |norm|
      invariant s <= |norm| && total == Base(norm, s)
      invariant TransformsFilled(symbolTT[..], norm, tableLog, s)
    {
      ghost var was := symbolTT[..];
      var x := symbolTT[s];
      if norm[s] == 0 {
        ZeroTransform(tableLog);
        x := x.(deltaNbBits := Shl(tableLog + 1, 16) - Shl(1, tableLog));
      } else if norm[s] == -1 || norm[s] == 1 {
        OneTransform(tableLog);
        x := Transform(total - 1, Shl(tableLog, 16) - Shl(1, tableLog));
      } else {
        BigTransform(norm[s], tableLog);
        var maxBitsOut := tableLog - HighBit(norm[s] - 1);
        var minStatePlus := Shl(norm[s], maxBitsOut);
        x := Transform(total - norm[s], Shl(maxBitsOut, 16) - minStatePlus);
      }
      symbolTT[s] := x;
      assert symbolTT[..] == was[s := x];
      NextTransform(was, norm, tableLog, s, x);
      total := total + if norm[s] < 0 then 1 else norm[s];
      NextBase(norm, s);
      s := s + 1;
    }
  }

  lemma {:induction false} NextBase(norm: seq<int>, s: nat)
    requires s < |norm|
    ensures Base(norm, s + 1) == Base(norm, s) + Cells(norm[s])
  {}

  lemma {:induction false} NoTransforms(tt: seq<Transform>, norm: seq<int>, tableLog: nat)
    ensures TransformsFilled(tt, norm, tableLog, 0) && Base(norm, 0) == 0
  {}

  lemma {:induction false} NextTransform(tt: seq<Transform>, norm: seq<int>, tableLog: nat, s: nat, x: Transform)
    requires s < |norm| == |tt| && TransformsFilled(tt, norm, tableLog, s) && IsTransform(x, norm, tableLog, s)
    ensures TransformsFilled(tt[s := x], norm, tableLog, s + 1)
  {
    hide IsTransform;
  }

  lemma {:induction false} ZeroTransform(tableLog: nat)
    requires tableLog <= MAX_TABLELOG
    ensures Shl(1, tableLog) == Pow2(tableLog) && Shl(tableLog + 1, 16) >= Pow2(tableLog)
  {
    hide Pow2;
    ShlOne(tableLog);
    SixteenUp(tableLog + 1);
    SmallPowers(tableLog);
  }

  lemma {:induction false} OneTransform(tableLog: nat)
    requires MIN_TABLELOG <= tableLog <= MAX_TABLELOG
    ensures MaxBits(tableLog, 1) == tableLog && Shl(tableLog, 16) >= Shl(1, tableLog)
  {
    ZeroTransform(tableLog);
    SixteenUp(tableLog);
    SmallPowers(tableLog);
  }

  lemma {:induction false} SixteenUp(v: nat)
    ensures Shl(v, 16) == 65536 * v && Pow2(16) == 65536
  {
    hide Shl;
    ShlMul(v, 16);
    assert Pow2(16) == 16 * Pow2(12) && Pow2(12) == 4096;
  }

  lemma {:induction false} SmallPowers(n: nat)
    requires n <= MAX_TABLELOG
    ensures Pow2(n) <= 4096
  {
    Pow2Mono(n, 12);
    assert Pow2(12) == 4096;
  }

  /** The smallest shifted count lies just above the table size. */
  lemma {:induction false} BigTransform(c: nat, tableLog: nat)
    requires 2 <= c < Pow2(tableLog) && tableLog <= MAX_TABLELOG
    ensures HighBit(c - 1) < tableLog
    ensures MaxBits(tableLog, c) == tableLog - HighBit(c - 1)
    ensures Pow2(tableLog) < Shl(c, MaxBits(tableLog, c)) <= 2 * Pow2(tableLog)
    ensures Shl(c, MaxBits(tableLog, c) - 1) <= Pow2(tableLog)
    ensures Shl(MaxBits(tableLog, c), 16) >= Shl(c, MaxBits(tableLog, c))
  {
    hide Pow2, Shl;
    var h := HighBit(c - 1);
    if h >= tableLog { Pow2Mono(tableLog, h); }
    var mb := tableLog - h;
    ShlMono(Pow2(h) + 1, c, mb);
    ShlAdd(Pow2(h), 1, mb);
    ShlOne(mb);
    ShlPow2(h, mb);
    ShlMono(c, Pow2(h + 1), mb);
    ShlPow2(h + 1, mb);
    ShlMono(c, Pow2(h + 1), mb - 1);
    ShlPow2(h + 1, mb - 1);
    TwicePow2(tableLog);
    SixteenUp(mb);
    SmallPowers(tableLog);
  }

  /** The encoder's table builder. */
  method BuildCTable(norm: seq<int>, tableLog: nat) returns (ct: CTable, ghost t: seq<nat>)
    requires ValidNorm(norm, tableLog)
    ensures ct.tableLog == tableLog && IsCTable(ct, t, norm)
  {
    hide Pow2, Base, LowLaid, WalkLaid, StatesFilled, TransformsFilled;
    var tableSize := Pow2(tableLog);
    var tableSymbol := new nat[tableSize];
    var tableU16 := new nat[tableSize];
    var cumul := new nat[|norm| + 1];
    var symbolTT := new Transform[|norm|](_ => Transform(0, 0));
    var highThreshold := StartPositions(norm, tableLog, tableSymbol, cumul);
    var position := SpreadSymbols(norm, tableLog, highThreshold, tableSymbol);
    FillStates(tableSymbol, norm, tableLog, cumul, tableU16);
    FillTransforms(norm, tableLog, symbolTT);
    t := tableSymbol[..];
    ct := CTable(tableLog, tableU16[..], symbolTT[..]);
  }

  // ---------------------------------------------------------------- decoding table

  function Symbols(cells: seq<Cell>): (t: seq<nat>)
    ensures |t| == |cells| && forall u :: 0 <= u < |t| ==> t[u] == cells[u].symbol
  {
    seq(|cells|, u requires 0 <= u < |cells| => cells[u].symbol)
  }

  lemma {:induction false} SymbolsUpdate(cells: seq<Cell>, u: nat, c: Cell)
    requires u < |cells|
    ensures Symbols(cells[u := c]) == Symbols(cells)[u := c.symbol]
  {}

  /** Lays down the low-probability symbols, counts the sub-states and decides the fast mode. */
  method InitDecoder(norm: seq<int>, tableLog: nat, tableDecode: array<Cell>, symbolNext: array<nat>)
    returns (highThreshold: int, fastMode: bool)
    requires ValidNorm(norm, tableLog)
    requires tableDecode.Length == Pow2(tableLog) && symbolNext.Length == |norm|
    modifies tableDecode, symbolNext
    ensures highThreshold == HighThreshold(norm, tableLog)
    ensures LowLaid(Symbols(tableDecode[..]), norm, tableLog, |norm|)
    ensures forall s :: 0 <= s < |norm| ==> symbolNext[s] == Cells(norm[s])
    ensures fastMode <==> forall s :: 0 <= s < |norm| ==> norm[s] < Pow2(tableLog - 1)
  {
    hide Pow2, Base, LowLaid, Symbols;
    highThreshold, fastMode := Pow2(tableLog) - 1, true;
    var largeLimit := Pow2(tableLog - 1);
    ZeroSymbols(Symbols(tableDecode[..]), norm, tableLog);
    var s: nat := 0;
    while s < |norm|
      invariant s <= |norm|
      invariant highThreshold == Pow2(tableLog) - 1 - LowCount(norm, s)
      invariant LowLaid(Symbols(tableDecode[..]), norm, tableLog, s)
      invariant forall s' :: 0 <= s' < s ==> symbolNext[s'] == Cells(norm[s'])
      invariant fastMode <==> forall s' :: 0 <= s' < s ==> norm[s'] < largeLimit
    {
      LowStep(Symbols(tableDecode[..]), norm, tableLog, s);
      if norm[s] == -1 {
        ghost var was := tableDecode[..];
        SymbolsUpdate(was, highThreshold, tableDecode[highThreshold].(symbol := s));
        tableDecode[highThreshold] := tableDecode[highThreshold].(symbol := s);
        assert tableDecode[..] == was[highThreshold := was[highThreshold].(symbol := s)];
        highThreshold := highThreshold - 1;
        symbolNext[s] := 1;
      } else {
        if norm[s] >= largeLimit { fastMode := false; }
        symbolNext[s] := norm[s];
      }
      s := s + 1;
    }
  }

  /** The decoder's own walk, over the symbol fields of its cells. */
  method SpreadDecoder(norm: seq<int>, tableLog: nat, highThreshold: int, tableDecode: array<Cell>)
    returns (position: nat)
    requires ValidNorm(norm, tableLog) && tableDecode.Length == Pow2(tableLog)
    requires highThreshold == HighThreshold(norm, tableLog)
    requires LowLaid(Symbols(tableDecode[..]), norm, tableLog, |norm|)
    modifies tableDecode
    ensures position == 0 && IsSpread(Symbols(tableDecode[..]), norm, tableLog)
  {
    hide Pow2, Visit, Opened, Base, LowLaid, WalkLaid, HighThreshold, Symbols, IsSpread;
    position := 0;
    ghost var k := 0;
    WalkStart(Symbols(tableDecode[..]), norm, tableLog);
    var s: nat := 0;
    while s < |norm|
      invariant s <= |norm|
      invariant Walking(Symbols(tableDecode[..]), norm, tableLog, k, position)
      invariant Opened(tableLog, highThreshold, k) == WalkCount(norm, s)
    {
      var i: nat := 0;
      while i < norm[s]
        invariant i == 0 || i <= norm[s]
        invariant Walking(Symbols(tableDecode[..]), norm, tableLog, k, position)
        invariant Opened(tableLog, highThreshold, k) == WalkCount(norm, s) + i
        decreases norm[s] - i
      {
        CanPlace(Symbols(tableDecode[..]), norm, tableLog, k, position, s, i);
        ghost var was, at := tableDecode[..], position;
        SymbolsUpdate(was, position, tableDecode[position].(symbol := s));
        tableDecode[position] := tableDecode[position].(symbol := s);
        assert tableDecode[..] == was[at := was[at].(symbol := s)];
        ghost var k';
        position, k' := NextPosition(tableLog, highThreshold, position, k);
        Placed(Symbols(was), norm, tableLog, k, k', s, i);
        k := k';
        i := i + 1;
      }
      s := s + 1;
    }
    WalkEnd(Symbols(tableDecode[..]), norm, tableLog, k, position);
  }

  /** Numbers each symbol's cells and derives the bits to read and the state to move to. */
  method FillDecoder(norm: seq<int>, tableLog: nat, tableDecode: array<Cell>, symbolNext: array<nat>)
    requires ValidNorm(norm, tableLog) && tableDecode.Length == Pow2(tableLog) && symbolNext.Length == |norm|
    requires IsSpread(Symbols(tableDecode[..]), norm, tableLog)
    requires forall s :: 0 <= s < |norm| ==> symbolNext[s] == Cells(norm[s])
    modifies tableDecode, symbolNext
    ensures Symbols(tableDecode[..]) == old(Symbols(tableDecode[..]))
    ensures forall u :: 0 <= u < tableDecode.Length ==>
      IsCell(tableDecode[u], Symbols(tableDecode[..]), norm, tableLog, u)
  {
    hide Pow2, Base, IsSpread, HighBit, Shl, Count, Symbols;
    ghost var t := Symbols(tableDecode[..]);
    EmptyCount(t, norm);
    var u: nat := 0;
    while u < tableDecode.Length
      invariant u <= tableDecode.Length && Symbols(tableDecode[..]) == t
      invariant forall s :: 0 <= s < |norm| ==> symbolNext[s] == Cells(norm[s]) + Count(t[..u], s)
      invariant forall u' :: 0 <= u' < u ==> IsCell(tableDecode[u'], t, norm, tableLog, u')
    {
      var symbol := tableDecode[u].symbol;
      SubState(t, norm, tableLog, u);
      CountNext(t, norm, u);
      var nextState := symbolNext[symbol];
      symbolNext[symbol] := symbolNext[symbol] + 1;
      var nbBits := tableLog - HighBit(nextState);
      var newState := Shl(nextState, nbBits) - Pow2(tableLog);
      ghost var was := tableDecode[..];
      tableDecode[u] := Cell(newState, symbol, nbBits);
      assert tableDecode[..] == was[u := Cell(newState, symbol, nbBits)];
      SymbolsUpdate(was, u, tableDecode[u]);
      assert t[u := symbol] == t;
      u := u + 1;
    }
  }

  lemma {:induction false} EmptyCount(t: seq<nat>, norm: seq<int>)
    ensures forall s :: 0 <= s < |norm| ==> Count(t[..0], s) == 0
  {}

  /** Sub-states fit the table and shifting them up to the table size stays above it. */
  lemma {:induction false} SubState(t: seq<nat>, norm: seq<int>, tableLog: nat, u: nat)
    requires ValidNorm(norm, tableLog) && IsSpread(t, norm, tableLog) && u < |t|
    ensures t[u] < |norm|
    ensures
      var next := NextState(t, norm, u);
      && 0 < next < 2 * Cells(norm[t[u]])
      && HighBit(next) <= tableLog
      && Shl(next, tableLog - HighBit(next)) >= Pow2(tableLog)
  {
    hide Pow2, IsSpread, Base, Count, Shl, HighBit;
    RankBound(t, norm, tableLog, u);
    var next := NextState(t, norm, u);
    var h := HighBit(next);
    TwicePow2(tableLog);
    if h > tableLog { Pow2Mono(tableLog + 1, h); }
    ShlMono(Pow2(h), next, tableLog - h);
    ShlPow2(h, tableLog - h);
  }

  /** The decoder's table builder; it fails on too large a table or an incomplete walk. */
  method BuildDTable(norm: seq<int>, tableLog: nat) returns (ok: bool, dt: DTable, ghost t: seq<nat>)
    requires ValidNorm(norm, tableLog)
    ensures ok && dt.tableLog == tableLog && IsDTable(dt, t, norm)
  {
    hide Pow2, Base, LowLaid, WalkLaid;
    dt, t := DTable(0, false, []), [];
    if |norm| - 1 > MAX_SYMBOL_VALUE || tableLog > MAX_TABLELOG { return false, dt, t; }
    var tableSize := Pow2(tableLog);
    var tableDecode := new Cell[tableSize](_ => Cell(0, 0, 0));
    var symbolNext := new nat[|norm|];
    var highThreshold, fastMode := InitDecoder(norm, tableLog, tableDecode, symbolNext);
    var position := SpreadDecoder(norm, tableLog, highThreshold, tableDecode);
    if position != 0 { return false, dt, t; }
    FillDecoder(norm, tableLog, tableDecode, symbolNext);
    return true, DTable(tableLog, fastMode, tableDecode[..]), Symbols(tableDecode[..]);
  }

  // ---------------------------------------------------------------- one coding step

  /** The i-th occurrence of a symbol. */
  lemma {:induction false} Occurrence(t: seq<nat>, s: nat, n: nat, i: nat) returns (u: nat)
    requires n <= |t| && i < Count(t[..n], s)
    ensures u < n && t[u] == s && Count(t[..u], s) == i
    decreases n
  {
    assert t[..n][..n - 1] == t[..n - 1];
    if i < Count(t[..n - 1], s) {
      u := Occurrence(t, s, n - 1, i);
    } else {
      u := n - 1;
    }
  }

  /** The state table finds the cell with a wanted sub-state. */
  lemma {:induction false} FindCell(ct: CTable, t: seq<nat>, norm: seq<int>, s: nat, y: nat) returns (u: nat)
    requires ValidNorm(norm, ct.tableLog) && IsCTable(ct, t, norm)
    requires s < |norm| && norm[s] != 0 && Cells(norm[s]) <= y < 2 * Cells(norm[s])
    ensures u < |t| && t[u] == s && NextState(t, norm, u) == y
    ensures 0 <= y + ct.symbolTT[s].deltaFindState < |ct.stateTable|
    ensures ct.stateTable[y + ct.symbolTT[s].deltaFindState] == Pow2(ct.tableLog) + u
  {
    hide Pow2, Base, LowLaid, WalkLaid, Shl, MaxBits;
    SpreadCount(t, norm, ct.tableLog, s);
    assert t[..|t|] == t;
    u := Occurrence(t, s, |t|, y - Cells(norm[s]));
    assert IsTransform(ct.symbolTT[s], norm, ct.tableLog, s);
  }

  /** encodeSymbol: the bits to write, and the state to move to. */
  function NbBitsOut(ct: CTable, state: nat, symbol: nat): nat
    requires symbol < |ct.symbolTT|
  {
    Shr(state + ct.symbolTT[symbol].deltaNbBits, 16)
  }

  function NextIndex(ct: CTable, state: nat, symbol: nat): int
    requires symbol < |ct.symbolTT|
  {
    Shr(state, NbBitsOut(ct, state, symbol)) + ct.symbolTT[symbol].deltaFindState
  }

  /** States of the encoder. */
  ghost predicate IsState(tableLog: nat, x: nat) { Pow2(tableLog) <= x < 2 * Pow2(tableLog) }

  /** The number of bits brings the state into the symbol's range of sub-states. */
  lemma {:induction false} BitsOut(ct: CTable, t: seq<nat>, norm: seq<int>, x: nat, s: nat)
    requires ValidNorm(norm, ct.tableLog) && IsCTable(ct, t, norm)
    requires s < |norm| && norm[s] != 0 && IsState(ct.tableLog, x)
    ensures
      var nb, c := NbBitsOut(ct, x, s), Cells(norm[s]);
      nb <= ct.tableLog && c <= Shr(x, nb) < 2 * c
  {
    hide Pow2, Base, LowLaid, WalkLaid, Shl, Shr, StatesFilled, MaxBits;
    var tl, c := ct.tableLog, Cells(norm[s]);
    var mb := MaxBits(tl, c);
    assert IsTransform(ct.symbolTT[s], norm, tl, s);
    CellsBelowTable(norm, tl, s);
    SmallestState(tl, c);
    SmallPowers(tl);
    SixteenUp(mb);
    if x >= Shl(c, mb) {
      SplitUnique(x - Shl(c, mb), mb, 16);
      ShlDouble(c, mb);
      ShrRange(x, c, mb);
    } else {
      SixteenUp(mb - 1);
      SplitUnique(65536 - (Shl(c, mb) - x), mb - 1, 16);
      ShlDouble(c, mb - 1);
      ShrRange(x, c, mb - 1);
    }
  }

  lemma {:induction false} CellsBelowTable(norm: seq<int>, tableLog: nat, s: nat)
    requires ValidNorm(norm, tableLog) && s < |norm| && norm[s] != 0
    ensures 1 <= Cells(norm[s]) < Pow2(tableLog)
  {
    assert Pow2(tableLog) >= 2;
  }

  lemma {:induction false} SmallestState(tableLog: nat, c: nat)
    requires MIN_TABLELOG <= tableLog <= MAX_TABLELOG && 1 <= c < Pow2(tableLog)
    ensures 1 <= MaxBits(tableLog, c) <= tableLog
    ensures Pow2(tableLog) <= Shl(c, MaxBits(tableLog, c)) <= 2 * Pow2(tableLog)
    ensures Shl(c, MaxBits(tableLog, c)) > Pow2(tableLog) ==> Shl(c, MaxBits(tableLog, c) - 1) <= Pow2(tableLog)
    ensures 2 * Shl(c, MaxBits(tableLog, c) - 1) == Shl(c, MaxBits(tableLog, c))
  {
    hide Pow2;
    if c == 1 {
      ShlOne(tableLog);
    } else {
      BigTransform(c, tableLog);
    }
  }

  lemma {:induction false} ShrRange(x: nat, c: nat, nb: nat)
    requires Shl(c, nb) <= x < Shl(2 * c, nb)
    ensures c <= Shr(x, nb) < 2 * c
  {
    LowShr(x, nb);
    var y := Shr(x, nb);
    ShlOne(nb);
    if y < c {
      ShlMono(y + 1, c, nb);
      ShlAdd(y, 1, nb);
    }
    if y >= 2 * c { ShlMono(2 * c, y, nb); }
  }

  /** A step of the encoder is undone by one table cell: from state `x`, coding `s` writes `nb` bits
      and moves to a state whose cell names `s`, reads `nb` bits and leads back to `x`. */
  lemma {:induction false} StepInverse(ct: CTable, dt: DTable, t: seq<nat>, norm: seq<int>, x: nat, s: nat)
    requires ValidNorm(norm, ct.tableLog) && dt.tableLog == ct.tableLog
    requires IsCTable(ct, t, norm) && IsDTable(dt, t, norm)
    requires s < |norm| && norm[s] != 0 && IsState(ct.tableLog, x)
    ensures 0 <= NextIndex(ct, x, s) < |ct.stateTable|
    ensures IsState(ct.tableLog, ct.stateTable[NextIndex(ct, x, s)])
    ensures
      var nb, cell := NbBitsOut(ct, x, s), dt.cells[ct.stateTable[NextIndex(ct, x, s)] - Pow2(ct.tableLog)];
      && cell.symbol == s && cell.nbBits == nb <= ct.tableLog
      && cell.newState + Low(x, nb) == x - Pow2(ct.tableLog)
  {
    hide Pow2, Base, LowLaid, WalkLaid, Shl, Shr, Low, StatesFilled, HighBit;
    var tl, nb := ct.tableLog, NbBitsOut(ct, x, s);
    BitsOut(ct, t, norm, x, s);
    var y := Shr(x, nb);
    var u := FindCell(ct, t, norm, s, y);
    assert IsCell(dt.cells[u], t, norm, tl, u);
    TwicePow2(tl);
    HighBitUnique(x, tl);
    LowShr(x, nb);
    HighBitShl(Low(x, nb), y, nb);
  }

  /** initCState2: the state for the symbol that will be decoded last. */
  function InitBits(ct: CTable, symbol: nat): nat
    requires symbol < |ct.symbolTT|
  {
    Shr(ct.symbolTT[symbol].deltaNbBits + 32768, 16)
  }

  function InitIndex(ct: CTable, symbol: nat): int
    requires symbol < |ct.symbolTT|
  {
    var value := Shl(InitBits(ct, symbol), 16) - ct.symbolTT[symbol].deltaNbBits;
    if value >= 0 then Shr(value, InitBits(ct, symbol)) + ct.symbolTT[symbol].deltaFindState else -1
  }

  /** The initial state names its symbol, and decoding it asks for at least one more bit, which is
      what lets the decoder notice the end of the stream. */
  lemma {:induction false} InitNeedsBit(ct: CTable, dt: DTable, t: seq<nat>, norm: seq<int>, s: nat)
    requires ValidNorm(norm, ct.tableLog) && dt.tableLog == ct.tableLog
    requires IsCTable(ct, t, norm) && IsDTable(dt, t, norm)
    requires s < |norm| && norm[s] != 0
    ensures 0 <= InitIndex(ct, s) < |ct.stateTable| && InitIndex(ct, s) == Base(norm, s)
    ensures IsState(ct.tableLog, ct.stateTable[InitIndex(ct, s)])
    ensures
      var cell := dt.cells[ct.stateTable[InitIndex(ct, s)] - Pow2(ct.tableLog)];
      cell.symbol == s && 1 <= cell.nbBits <= ct.tableLog
  {
    hide Pow2, Base, LowLaid, WalkLaid, Shl, Shr, StatesFilled, HighBit, MaxBits;
    var tl, c := ct.tableLog, Cells(norm[s]);
    var mb := MaxBits(tl, c);
    assert IsTransform(ct.symbolTT[s], norm, tl, s);
    CellsBelowTable(norm, tl, s);
    SmallestState(tl, c);
    SmallPowers(tl);
    SixteenUp(mb);
    SplitUnique(32768 - Shl(c, mb), mb, 16);
    ShrShlBack(c, mb);
    var u := FindCell(ct, t, norm, s, c);
    assert IsCell(dt.cells[u], t, norm, tl, u);
    if HighBit(c) >= tl { Pow2Mono(tl, HighBit(c)); }
  }

  /** It is the first of the symbol's cells. */
  lemma {:induction false} InitIsFirst(ct: CTable, dt: DTable, t: seq<nat>, norm: seq<int>, s: nat)
    requires ValidNorm(norm, ct.tableLog) && dt.tableLog == ct.tableLog
    requires IsCTable(ct, t, norm) && IsDTable(dt, t, norm)
    requires s < |norm| && norm[s] != 0
    ensures 0 <= InitIndex(ct, s) < |ct.stateTable| && |t| <= ct.stateTable[InitIndex(ct, s)] < 2 * |t|
    ensures
      var u := ct.stateTable[InitIndex(ct, s)] - |t|;
      t[u] == s && forall v :: 0 <= v < u ==> t[v] != s
  {
    hide Pow2, Base, LowLaid, WalkLaid, InitIndex, ValidNorm, IsDTable;
    InitNeedsBit(ct, dt, t, norm, s);
    FirstCell(ct, t, norm, s);
  }

  lemma {:induction false} FirstCell(ct: CTable, t: seq<nat>, norm: seq<int>, s: nat)
    requires ValidNorm(norm, ct.tableLog) && IsCTable(ct, t, norm) && s < |norm| && norm[s] != 0
    ensures Base(norm, s) < |ct.stateTable|
    ensures
      var u: int := ct.stateTable[Base(norm, s)] - |t|;
      0 <= u < |t| && t[u] == s && forall v :: 0 <= v < u ==> t[v] != s
  {
    hide Pow2, Base, LowLaid, WalkLaid, ValidNorm;
    SpreadCount(t, norm, ct.tableLog, s);
    assert t[..|t|] == t;
    var u := Occurrence(t, s, |t|, 0);
    forall v | 0 <= v < u ensures t[v] != s { NotCounted(t[..u], s, v); }
  }

  lemma {:induction false} NotCounted(t: seq<nat>, s: nat, v: nat)
    requires Count(t, s) == 0 && v < |t|
    ensures t[v] != s
  {
    if v < |t| - 1 { NotCounted(t[..|t| - 1], s, v); }
  }

  lemma {:induction false} ShrShlBack(v: nat, n: nat)
    ensures Shr(Shl(v, n), n) == v
  {
    SplitUnique(0, v, n);
  }

  /** Every cell stays inside the table, and in fast mode every cell reads at least one bit. */
  lemma {:induction false} CellBounds(dt: DTable, t: seq<nat>, norm: seq<int>, u: nat, lowBits: nat)
    requires ValidNorm(norm, dt.tableLog) && IsDTable(dt, t, norm)
    requires u < |dt.cells| && lowBits < Pow2(dt.cells[u].nbBits)
    ensures |dt.cells| == Pow2(dt.tableLog) && dt.cells[u].nbBits <= dt.tableLog
    ensures dt.cells[u].newState + lowBits < |dt.cells|
    ensures dt.fastMode ==> dt.cells[u].nbBits >= 1
  {
    hide Pow2, Base, LowLaid, WalkLaid, Shl, HighBit;
    var tl := dt.tableLog;
    SubState(t, norm, tl, u);
    assert IsCell(dt.cells[u], t, norm, tl, u);
    var next := NextState(t, norm, u);
    var h := HighBit(next);
    ShlBound(next, h + 1, tl - h);
    TwicePow2(tl);
    if dt.fastMode {
      TwicePow2(tl - 1);
      OneBelowHalf(tl);
      assert Cells(norm[t[u]]) < Pow2(tl - 1);
      HighBitBelow(next, tl);
    }
  }

  lemma {:induction false} OneBelowHalf(tableLog: nat)
    requires MIN_TABLELOG <= tableLog
    ensures 1 < Pow2(tableLog - 1)
  {}
}
