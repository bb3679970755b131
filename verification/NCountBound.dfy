/** How long the header of normalized counts can get. The bound the code computes is missed by a little when absent
    symbols alternate with others; a slightly larger one holds always. */
module NCountBound {
  import opened Powers
  import opened BitStream
  import opened FseTables
  import opened NCountFormat
  import opened NCountRuns
  import opened NCountWriter

  /** Bits by which the counts still to come may exceed `tableLog` bits a symbol when `given` cells are given out.
      Near the start small counts cost `tableLog` bits and the end of a run two more; later a count that costs a
      bit too much doubles what is given out. */
  function Surplus(tableLog: nat, given: nat): nat {
    if given <= 3 then tableLog + 7 - 2 * given
    else if given <= Pow2(tableLog) / 2 + 1 && HighBit(given - 3) < tableLog then tableLog - 1 - HighBit(given - 3)
    else 0
  }

  /** The same in the middle of a run of absent symbols. */
  function SurplusInRun(tableLog: nat, given: nat): nat {
    if given <= 3 then Surplus(tableLog, given) else Surplus(tableLog, given) + 1
  }

  lemma {:induction false} Halves(tableLog: nat)
    requires MIN_TABLELOG <= tableLog <= MAX_TABLELOG
    ensures Pow2(tableLog) == 2 * Pow2(tableLog - 1) && Pow2(tableLog - 1) == 2 * Pow2(tableLog - 2) && Pow2(tableLog - 2) >= 8
  {
    TwicePow2(tableLog - 1);
    TwicePow2(tableLog - 2);
    Pow2Mono(3, tableLog - 2);
    assert Pow2(3) == 8;
  }

  /** The width of a count while `given` cells are given out. */
  lemma {:induction false} Width(tableLog: nat, given: nat, c: int)
    requires MIN_TABLELOG <= tableLog <= MAX_TABLELOG && given < Pow2(tableLog) && -1 <= c < Pow2(tableLog) + 1 - given
    ensures
      var w := CountField(c, Pow2(tableLog) + 1 - given).width;
      if given <= 1 then w == tableLog + if c + 1 >= Pow2(tableLog) - 2 + given then 1 else 0
      else if given <= Pow2(tableLog) / 2 + 1 then w == tableLog - 1 + if c + 1 >= given - 2 then 1 else 0
      else w <= tableLog - 1
  {
    hide Pow2, HighBit;
    Halves(tableLog);
    var r := Pow2(tableLog) + 1 - given;
    TwicePow2(HighBit(r));
    if given <= 1 {
      TwicePow2(tableLog);
      HighBitUnique(r, tableLog);
    } else if given <= Pow2(tableLog) / 2 + 1 {
      HighBitUnique(r, tableLog - 1);
    } else {
      HighBitBelow(r, tableLog - 1);
    }
  }

  lemma {:induction false} SurplusMono(tableLog: nat, given: nat, more: nat)
    requires MIN_TABLELOG <= tableLog <= MAX_TABLELOG && given <= more
    ensures Surplus(tableLog, more) <= Surplus(tableLog, given)
    ensures 3 < given && 2 * given - 3 <= more && given <= Pow2(tableLog) / 2 + 1 ==> Surplus(tableLog, more) + 1 <= Surplus(tableLog, given)
  {
    hide Pow2, HighBit;
    Halves(tableLog);
    if given <= 3 {
      if more > 3 { HighBitMono(1, more - 3); }
    } else {
      HighBitMono(given - 3, more - 3);
      if given <= Pow2(tableLog) / 2 + 1 { HighBitBelow(given - 3, tableLog - 1); }
      TwicePow2(HighBit(given - 3));
      TwicePow2(HighBit(given - 3) + 1);
      HighBitUnique(2 * (given - 3), HighBit(given - 3) + 1);
      if 2 * given - 3 <= more { HighBitMono(2 * (given - 3), more - 3); }
    }
  }

  /** One count pays for itself out of the surplus. */
  lemma {:induction false} CountCost(tableLog: nat, given: nat, c: int)
    requires MIN_TABLELOG <= tableLog <= MAX_TABLELOG && given < Pow2(tableLog) && -1 <= c < Pow2(tableLog) + 1 - given
    ensures
      var w := CountField(c, Pow2(tableLog) + 1 - given).width;
      && (c == 0 ==> w + SurplusInRun(tableLog, given) <= tableLog + Surplus(tableLog, given))
      && (c != 0 ==> w + Surplus(tableLog, given + Cells(c)) <= tableLog + Surplus(tableLog, given))
      && (c != 0 ==> 2 + w + Surplus(tableLog, given + Cells(c)) <= tableLog + SurplusInRun(tableLog, given))
  {
    hide Pow2, HighBit, CountField;
    Halves(tableLog);
    Width(tableLog, given, c);
    SurplusMono(tableLog, given, given + Cells(c));
    SurplusMono(tableLog, given, given + 1);
    if c != 0 { SurplusMono(tableLog, given + 1, given + Cells(c)); }
  }

  /** `tableLog` bits for each of `symbols` symbols. */
  function Share(tableLog: nat, symbols: nat): nat { tableLog * symbols }

  lemma {:induction false} Shares(tableLog: nat, n: nat, i: nat, j: nat)
    requires i <= j < n
    ensures Share(tableLog, n - i) == Share(tableLog, n - (j + 1)) + tableLog + Share(tableLog, j - i)
  {}

  /** The length of the fields from symbol `i` on, in terms of the symbol `j` with the next count. */
  lemma {:induction false} NextLength(norm: seq<int>, tableLog: nat, i: nat, previous0: bool) returns (j: nat, w: nat)
    requires Summed(norm, tableLog) && i <= |norm| && Remaining(norm, tableLog, i) > 1
    ensures i <= j < |norm| && (previous0 ==> norm[j] != 0) && (!previous0 ==> j == i)
    ensures -1 <= norm[j] < Remaining(norm, tableLog, i) && Base(norm, j + 1) == Base(norm, i) + Cells(norm[j])
    ensures w == CountField(norm[j], Remaining(norm, tableLog, i)).width
    ensures Len(FieldsFrom(norm, tableLog, i, previous0)) <=
      (if previous0 then Share(tableLog, j - i) + 2 else 0) + w + Len(FieldsFrom(norm, tableLog, j + 1, norm[j] == 0))
  {
    hide Pow2, HighBit, CountField, ZeroRun, Base, FieldsFrom, Len;
    NextCount(norm, tableLog, i, previous0);
    NextFields(norm, tableLog, i, previous0);
    j := if previous0 then NextNonzero(norm, i) else i;
    if previous0 { RunLengthBits(j - i); RunShare(tableLog, j - i); NoZeroThere(norm, tableLog, i, j); }
    w := CountField(norm[j], Remaining(norm, tableLog, i)).width;
    LenParts(if previous0 then ZeroRun(j - i) else [], CountField(norm[j], Remaining(norm, tableLog, i)),
             FieldsFrom(norm, tableLog, j + 1, norm[j] == 0));
  }

  /** A run costs two bits on top of `tableLog` bits for each of its symbols. */
  lemma {:induction false} RunShare(tableLog: nat, k: nat)
    requires tableLog >= 1
    ensures RunBits(k) <= Share(tableLog, k) + 2
  {
    MulLe(1, tableLog, k);
  }

  lemma {:induction false} NoZeroThere(norm: seq<int>, tableLog: nat, i: nat, j: nat)
    requires i <= |norm| && j == NextNonzero(norm, i) < |norm|
    ensures norm[j] != 0
  {}

  /** The fields from symbol `i` on take at most `tableLog` bits a symbol and the surplus. */
  lemma {:induction false} FieldsLength(norm: seq<int>, tableLog: nat, i: nat, previous0: bool)
    requires Summed(norm, tableLog) && i <= |norm|
    ensures Len(FieldsFrom(norm, tableLog, i, previous0)) <=
      Share(tableLog, |norm| - i) + if previous0 then SurplusInRun(tableLog, Base(norm, i)) else Surplus(tableLog, Base(norm, i))
    decreases |norm| - i
  {
    hide Pow2, HighBit, CountField, Surplus, SurplusInRun, Base, Summed, FieldsFrom, Len, Share;
    SummedRange(norm, tableLog);
    if Remaining(norm, tableLog, i) > 1 {
      var j, w := NextLength(norm, tableLog, i, previous0);
      FieldsLength(norm, tableLog, j + 1, norm[j] == 0);
      CountCost(tableLog, Base(norm, i), norm[j]);
      Shares(tableLog, |norm|, i, j);
    } else {
      NothingLeft(norm, tableLog, i, previous0);
      SurplusNonnegative(tableLog, Base(norm, i));
    }
  }

  lemma {:induction false} NothingLeft(norm: seq<int>, tableLog: nat, i: nat, previous0: bool)
    requires Summed(norm, tableLog) && i <= |norm| && Remaining(norm, tableLog, i) <= 1
    ensures Len(FieldsFrom(norm, tableLog, i, previous0)) == 0
  {
    hide Pow2, Base;
  }

  lemma {:induction false} SurplusNonnegative(tableLog: nat, given: nat)
    ensures Surplus(tableLog, given) >= 0 && SurplusInRun(tableLog, given) >= 0
  {}

  lemma {:induction false} HeaderParts(norm: seq<int>, tableLog: nat)
    requires Summed(norm, tableLog)
    ensures Len(Header(norm, tableLog)) == 4 + Len(FieldsFrom(norm, tableLog, 0, false)) && Base(norm, 0) == 0
  {
    hide FieldsFrom, Pow2;
    LenParts([], Field(tableLog - MIN_TABLELOG, 4), FieldsFrom(norm, tableLog, 0, false));
    assert [] + Header(norm, tableLog) == Header(norm, tableLog);
  }

  /** The length of any header. */
  lemma {:induction false} HeaderLength(norm: seq<int>, tableLog: nat)
    requires Summed(norm, tableLog)
    ensures Len(Header(norm, tableLog)) <= tableLog * (|norm| + 1) + 11
  {
    hide FieldsFrom, Pow2, Len, Base, Header;
    FieldsLength(norm, tableLog, 0, false);
    HeaderParts(norm, tableLog);
    assert tableLog * (|norm| + 1) == tableLog * |norm| + tableLog;
  }

  /** Two bytes more than the code's bound are enough for any header, so its writing never passes the end of such a buffer. */
  lemma {:induction false} BoundAndTwo(norm: seq<int>, tableLog: nat)
    requires Summed(norm, tableLog)
    ensures Touched(Header(norm, tableLog)) <= WriteBound(|norm|, tableLog) + 2
  {
    hide Header, Len, Pow2, Base;
    HeaderLength(norm, tableLog);
    assert tableLog * (|norm| + 1) == tableLog * |norm| + tableLog;
    if |norm| <= 1 { MulLe(|norm| + 1, 2, tableLog); }
  }

  /** Without absent symbols a header takes at most `tableLog` bits a symbol, and one more. */
  lemma {:induction false} NoAbsentLength(norm: seq<int>, tableLog: nat, i: nat)
    requires Summed(norm, tableLog) && i <= |norm| && forall s :: i <= s < |norm| ==> norm[s] != 0
    ensures Len(FieldsFrom(norm, tableLog, i, false)) <= Share(tableLog, |norm| - i) + if Base(norm, i) <= 1 then 1 else 0
    decreases |norm| - i
  {
    hide Pow2, HighBit, CountField, Base, Summed, FieldsFrom, Len, Share;
    SummedRange(norm, tableLog);
    if Remaining(norm, tableLog, i) > 1 {
      var j, w := NextLength(norm, tableLog, i, false);
      NoAbsentLength(norm, tableLog, i + 1);
      Halves(tableLog);
      Width(tableLog, Base(norm, i), norm[i]);
      Shares(tableLog, |norm|, i, i);
      NoShare(tableLog);
    } else {
      NothingLeft(norm, tableLog, i, false);
    }
  }

  lemma {:induction false} NoShare(tableLog: nat)
    ensures Share(tableLog, 0) == 0
  {}

  /** So for such counts the code's bound suffices. */
  lemma {:induction false} BoundWithoutAbsent(norm: seq<int>, tableLog: nat)
    requires Summed(norm, tableLog) && forall s :: 0 <= s < |norm| ==> norm[s] != 0
    ensures Touched(Header(norm, tableLog)) <= WriteBound(|norm|, tableLog)
  {
    hide FieldsFrom, Pow2, Len, Base, Header;
    NoAbsentLength(norm, tableLog, 0);
    HeaderParts(norm, tableLog);
    SummedRange(norm, tableLog);
    if |norm| <= 1 { MulLe(|norm|, 1, tableLog); }
  }

  /** Ten symbols of which every other one is absent, and one with the rest of the 32 cells. */
  function Alternating(): (norm: seq<int>)
    ensures |norm| == 11 && norm[10] == 27 && forall i :: 0 <= i < 10 ==> norm[i] == i % 2
  {
    [0, 1, 0, 1, 0, 1, 0, 1, 0, 1, 27]
  }

  lemma {:induction false} AlternatingGiven(i: nat)
    requires i <= 11
    ensures Base(Alternating(), i) == if i == 11 then 32 else i / 2
    ensures Pow2(5) == 32
  {
    hide Alternating;
    if i > 0 { AlternatingGiven(i - 1); }
  }

  lemma {:induction false} AlternatingSums()
    ensures Summed(Alternating(), 5)
  {
    AlternatingGiven(11);
  }

  /** An absent symbol, the end of its run, and the symbol after it. */
  lemma {:induction false} AlternatingPair(i: nat)
    requires i < 10 && i % 2 == 0 && Summed(Alternating(), 5)
    ensures Len(FieldsFrom(Alternating(), 5, i, false)) == (if i == 8 then 11 else 12) + Len(FieldsFrom(Alternating(), 5, i + 2, false))
  {
    hide Pow2, HighBit, Base, FieldsFrom, CountField, Alternating, Len, Summed, ZeroRun;
    var norm := Alternating();
    AlternatingGiven(i);
    AlternatingGiven(i + 1);
    Width(5, i / 2, 0);
    Width(5, i / 2, 1);
    assert norm[i] == 0 && norm[i + 1] == 1;
    NextFields(norm, 5, i, false);
    NextFields(norm, 5, i + 1, true);
    assert NextNonzero(norm, i + 1) == i + 1;
    NoRun();
    LenParts([], CountField(0, 33 - i / 2), FieldsFrom(norm, 5, i + 1, true));
    LenParts(ZeroRun(0), CountField(1, 33 - i / 2), FieldsFrom(norm, 5, i + 2, false));
  }

  lemma {:induction false} NoRun()
    ensures Len(ZeroRun(0)) == 2
  {
    RunLengthBits(0);
  }

  lemma {:induction false} AlternatingEnd()
    requires Summed(Alternating(), 5)
    ensures Len(FieldsFrom(Alternating(), 5, 10, false)) == 5
  {
    hide Pow2, Base, FieldsFrom, CountField, Alternating, Len;
    AlternatingGiven(10);
    AlternatingGiven(11);
    Width(5, 5, 27);
    NextFields(Alternating(), 5, 10, false);
    LenParts([], CountField(27, 28), FieldsFrom(Alternating(), 5, 11, false));
    NothingLeft(Alternating(), 5, 11, false);
  }

  /** For these counts the code's bound is nine bytes, but the stores reach ten: in a buffer of nine bytes the room is
      not watched and its end is passed. */
  lemma {:induction false} BoundMissed()
    ensures Summed(Alternating(), 5) && WriteBound(|Alternating()|, 5) == 9 && Touched(Header(Alternating(), 5)) == 10
  {
    hide FieldsFrom, Len, Header, Alternating;
    AlternatingSums();
    HeaderParts(Alternating(), 5);
    AlternatingPair(0);
    AlternatingPair(2);
    AlternatingPair(4);
    AlternatingPair(6);
    AlternatingPair(8);
    AlternatingEnd();
  }
}
