/** From weights to codes and to the decoding table: both readers lay out the code space alike. */
module HuffmanTable {
  import opened Powers

  const TABLELOG_MAX: nat := 12

  // ---------------------------------------------------------------- weights

  /** Code space of a symbol of weight `w`: `(1 << w) >> 1`. */
  function Half(w: nat): nat { if w == 0 then 0 else Pow2(w - 1) }

  function WeightSum(ws: seq<nat>): nat {
    if ws == [] then 0 else WeightSum(ws[..|ws| - 1]) + Half(ws[|ws| - 1])
  }

  function CountOf(ws: seq<nat>, w: nat): (n: nat)
    ensures n <= |ws|
  {
    if ws == [] then 0 else CountOf(ws[..|ws| - 1], w) + if ws[|ws| - 1] == w then 1 else 0
  }

  lemma {:induction false} Appended(ws: seq<nat>, x: nat, w: nat)
    ensures WeightSum(ws + [x]) == WeightSum(ws) + Half(x)
    ensures CountOf(ws + [x], w) == CountOf(ws, w) + if x == w then 1 else 0
  {
    assert (ws + [x])[..|ws|] == ws;
  }

  lemma {:induction false} CountPrefix(ws: seq<nat>, w: nat, i: nat, j: nat)
    requires i <= j <= |ws|
    ensures CountOf(ws[..i], w) <= CountOf(ws[..j], w)
    decreases j
  {
    if i < j {
      CountPrefix(ws, w, i, j - 1);
      assert ws[..j] == ws[..j - 1] + [ws[j - 1]];
      Appended(ws[..j - 1], ws[j - 1], w);
    }
  }

  /** Weights that fill a code space of `2^tableLog`. */
  ghost predicate Weights(ws: seq<nat>, tableLog: nat) {
    && 1 <= tableLog <= TABLELOG_MAX && |ws| <= 256
    && (forall i :: 0 <= i < |ws| ==> ws[i] <= tableLog)
    && WeightSum(ws) == Pow2(tableLog)
  }

  // ---------------------------------------------------------------- layout by weight

  /** Where the slots of weight `w` start: behind all slots of smaller weights. */
  function StartOf(ws: seq<nat>, w: nat): nat {
    if w <= 1 then 0 else StartOf(ws, w - 1) + Shl(CountOf(ws, w - 1), w - 2)
  }

  lemma {:induction false} StartMono(ws: seq<nat>, v: nat, w: nat)
    requires 1 <= v <= w
    ensures StartOf(ws, v) <= StartOf(ws, w)
    decreases w
  {
    if v < w { StartMono(ws, v, w - 1); }
  }

  lemma {:induction false} StartAppended(ws: seq<nat>, x: nat, w: nat)
    ensures StartOf(ws + [x], w) == StartOf(ws, w) + if 1 <= x < w then Half(x) else 0
  {
    hide Shl;
    if w > 1 {
      StartAppended(ws, x, w - 1);
      Appended(ws, x, w - 1);
      if x == w - 1 {
        ShlAdd(CountOf(ws, x), 1, w - 2);
        ShlOne(w - 2);
      }
    }
  }

  /** All slots together. */
  lemma {:induction false} StartTotal(ws: seq<nat>, m: nat)
    requires forall i :: 0 <= i < |ws| ==> ws[i] < m
    ensures StartOf(ws, m) == WeightSum(ws)
  {
    hide Shl;
    if ws == [] {
      NoSlots(m);
    } else {
      var front, x := ws[..|ws| - 1], ws[|ws| - 1];
      StartTotal(front, m);
      StartAppended(front, x, m);
      assert ws == front + [x];
    }
  }

  lemma {:induction false} NoSlots(m: nat)
    ensures StartOf([], m) == 0
  {
    hide Shl;
    if m > 1 {
      NoSlots(m - 1);
      ShlOne(m - 2);
    }
  }

  /** First slot of symbol `s`: symbols of one weight follow in their own order. */
  function SlotStart(ws: seq<nat>, s: nat): nat
    requires s < |ws| && ws[s] > 0
  {
    StartOf(ws, ws[s]) + Shl(CountOf(ws[..s], ws[s]), ws[s] - 1)
  }

  ghost predicate InSlot(ws: seq<nat>, s: nat, u: nat) {
    s < |ws| && ws[s] > 0 && SlotStart(ws, s) <= u < SlotStart(ws, s) + Half(ws[s])
  }

  /** A slot ends before the slots of the next weight start. */
  lemma {:induction false} SlotWithin(ws: seq<nat>, s: nat, k: nat)
    requires s < |ws| && ws[s] > 0 && s < k <= |ws|
    ensures SlotStart(ws, s) + Half(ws[s]) <= StartOf(ws, ws[s]) + Shl(CountOf(ws[..k], ws[s]), ws[s] - 1)
  {
    hide Shl, StartOf;
    var w := ws[s];
    assert ws[..s + 1] == ws[..s] + [w];
    Appended(ws[..s], w, w);
    CountPrefix(ws, w, s + 1, k);
    ShlAdd(CountOf(ws[..s], w), 1, w - 1);
    ShlOne(w - 1);
    ShlMono(CountOf(ws[..s], w) + 1, CountOf(ws[..k], w), w - 1);
  }

  lemma {:induction false} SlotEnd(ws: seq<nat>, s: nat)
    requires s < |ws| && ws[s] > 0
    ensures SlotStart(ws, s) + Half(ws[s]) <= StartOf(ws, ws[s] + 1)
  {
    hide Shl;
    SlotWithin(ws, s, |ws|);
    assert ws[..|ws|] == ws;
  }

  /** No slot is in two symbols' hands. */
  lemma {:induction false} SlotsDisjoint(ws: seq<nat>, s: nat, t: nat, u: nat)
    requires InSlot(ws, s, u) && InSlot(ws, t, u)
    ensures s == t
  {
    hide Shl, StartOf;
    if ws[s] < ws[t] {
      SlotEnd(ws, s);
      StartMono(ws, ws[s] + 1, ws[t]);
    } else if ws[t] < ws[s] {
      SlotEnd(ws, t);
      StartMono(ws, ws[t] + 1, ws[s]);
    } else if s < t {
      SlotWithin(ws, s, t);
    } else if t < s {
      SlotWithin(ws, t, s);
    }
  }

  /** Every slot of the table belongs to some symbol. */
  lemma {:induction false} SlotsCover(ws: seq<nat>, tableLog: nat, u: nat) returns (s: nat)
    requires Weights(ws, tableLog) && u < Pow2(tableLog)
    ensures InSlot(ws, s, u)
  {
    hide Shl, Pow2, StartOf;
    StartTotal(ws, tableLog + 1);
    var w := WeightOfSlot(ws, tableLog + 1, u);
    StartStep(ws, w);
    assert ws[..|ws|] == ws;
    s := SymbolOfSlot(ws, w, u, |ws|);
  }

  lemma {:induction false} StartStep(ws: seq<nat>, w: nat)
    requires w >= 1
    ensures StartOf(ws, w + 1) == StartOf(ws, w) + Shl(CountOf(ws, w), w - 1)
  {}

  lemma {:induction false} WeightOfSlot(ws: seq<nat>, m: nat, u: nat) returns (w: nat)
    requires u < StartOf(ws, m)
    ensures 1 <= w < m && StartOf(ws, w) <= u < StartOf(ws, w + 1)
  {
    hide Shl;
    if u < StartOf(ws, m - 1) { w := WeightOfSlot(ws, m - 1, u); } else { w := m - 1; }
  }

  lemma {:induction false} SymbolOfSlot(ws: seq<nat>, w: nat, u: nat, n: nat) returns (s: nat)
    requires w >= 1 && n <= |ws| && StartOf(ws, w) <= u < StartOf(ws, w) + Shl(CountOf(ws[..n], w), w - 1)
    ensures s < n && ws[s] == w && InSlot(ws, s, u)
    decreases n
  {
    hide Shl, StartOf;
    ShlOne(w - 1);
    assert CountOf(ws[..0], w) == 0;
    assert n > 0;
    assert ws[..n] == ws[..n - 1] + [ws[n - 1]];
    Appended(ws[..n - 1], ws[n - 1], w);
    if u < StartOf(ws, w) + Shl(CountOf(ws[..n - 1], w), w - 1) {
      s := SymbolOfSlot(ws, w, u, n - 1);
    } else {
      s := n - 1;
      ShlAdd(CountOf(ws[..n - 1], w), 1, w - 1);
    }
  }

  // ---------------------------------------------------------------- canonical codes

  /** First code of the symbols of weight `w`, which have `tableLog + 1 - w` bits. */
  function FirstCode(ws: seq<nat>, w: nat): nat {
    if w <= 1 then 0 else (FirstCode(ws, w - 1) + CountOf(ws, w - 1)) / 2
  }

  /** All slots from weight `w` on. */
  function RestOf(ws: seq<nat>, w: nat, m: nat): nat
    requires 1 <= w <= m
  {
    if w == m then 0 else RestOf(ws, w, m - 1) + Shl(CountOf(ws, m - 1), m - 2)
  }

  lemma {:induction false} StartAndRest(ws: seq<nat>, w: nat, m: nat)
    requires 1 <= w <= m
    ensures StartOf(ws, m) == StartOf(ws, w) + RestOf(ws, w, m)
    decreases m
  {
    hide Shl;
    if w < m { StartAndRest(ws, w, m - 1); }
  }

  lemma {:induction false} RestIsMultiple(ws: seq<nat>, w: nat, m: nat) returns (q: nat)
    requires 1 <= w <= m
    ensures RestOf(ws, w, m) == Shl(q, w - 1)
    decreases m
  {
    hide Shl;
    if w == m {
      q := 0;
      ShlOne(w - 1);
    } else {
      var r := RestIsMultiple(ws, w, m - 1);
      var x := Shl(CountOf(ws, m - 1), m - 1 - w);
      ShlShl(CountOf(ws, m - 1), m - 1 - w, w - 1);
      ShlAdd(r, x, w - 1);
      q := r + x;
    }
  }

  lemma {:induction false} ShlInjective(a: nat, b: nat, n: nat)
    requires Shl(a, n) == Shl(b, n)
    ensures a == b
  {
    if n > 0 { ShlInjective(a, b, n - 1); }
  }

  /** The slots of weight `w` start on a multiple of their size. */
  lemma {:induction false} StartAligned(ws: seq<nat>, tableLog: nat, w: nat) returns (q: nat)
    requires Weights(ws, tableLog) && 1 <= w <= tableLog + 1
    ensures StartOf(ws, w) == Shl(q, w - 1)
  {
    hide Shl, Pow2, StartOf, WeightSum;
    StartTotal(ws, tableLog + 1);
    StartAndRest(ws, w, tableLog + 1);
    var r := RestIsMultiple(ws, w, tableLog + 1);
    ShlPow2(tableLog + 1 - w, w - 1);
    var whole := Pow2(tableLog + 1 - w);
    assert StartOf(ws, w) + Shl(r, w - 1) == Shl(whole, w - 1);
    if r > whole {
      ShlMono(whole + 1, r, w - 1);
      ShlAdd(whole, 1, w - 1);
      ShlOne(w - 1);
    }
    q := whole - r;
    ShlAdd(q, r, w - 1);
  }

  /** First codes, shifted to the table's width, are first slots: no code space is lost by halving. */
  lemma {:induction false} FirstCodeIsStart(ws: seq<nat>, tableLog: nat, w: nat)
    requires Weights(ws, tableLog) && 1 <= w <= tableLog
    ensures Shl(FirstCode(ws, w), w - 1) == StartOf(ws, w)
  {
    hide Shl, WeightSum;
    if w == 1 {
      ShlOne(0);
    } else {
      FirstCodeIsStart(ws, tableLog, w - 1);
      var q := StartAligned(ws, tableLog, w);
      var sum := FirstCode(ws, w - 1) + CountOf(ws, w - 1);
      ShlAdd(FirstCode(ws, w - 1), CountOf(ws, w - 1), w - 2);
      assert StartOf(ws, w) == Shl(sum, w - 2);
      ShlShl(q, 1, w - 2);
      assert Shl(q, 1) == 2 * q by { TwiceByShift(q); }
      ShlInjective(sum, 2 * q, w - 2);
    }
  }

  lemma {:induction false} TwiceByShift(q: nat)
    ensures Shl(q, 1) == 2 * q
  {
    assert Shl(q, 0) == q;
  }

  /** Code of symbol `s`. */
  function CodeOf(ws: seq<nat>, s: nat): nat
    requires s < |ws|
  {
    FirstCode(ws, ws[s]) + CountOf(ws[..s], ws[s])
  }

  function BitsOf(w: nat, tableLog: nat): nat
    requires w <= tableLog + 1
  {
    if w == 0 then 0 else tableLog + 1 - w
  }

  /** A table index belongs to a symbol exactly if its leading bits are the symbol's code. */
  lemma {:induction false} CodesAgree(ws: seq<nat>, tableLog: nat, s: nat, u: nat)
    requires Weights(ws, tableLog) && s < |ws| && ws[s] > 0 && u < Pow2(tableLog)
    ensures InSlot(ws, s, u) <==> Shr(u, tableLog - BitsOf(ws[s], tableLog)) == CodeOf(ws, s)
  {
    hide Shl, Shr, Low, Pow2, StartOf, FirstCode, WeightSum;
    var w := ws[s];
    var k := CountOf(ws[..s], w);
    FirstCodeIsStart(ws, tableLog, w);
    ShlAdd(FirstCode(ws, w), k, w - 1);
    assert SlotStart(ws, s) == Shl(CodeOf(ws, s), w - 1);
    LowShr(u, w - 1);
    if InSlot(ws, s, u) {
      SplitUnique(u - SlotStart(ws, s), CodeOf(ws, s), w - 1);
    }
  }
}
