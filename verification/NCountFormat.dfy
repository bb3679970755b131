/** The bit format of normalized counts: each count takes as few bits as the cells still to be given out
    allow, and runs of absent symbols are shortened. */
module NCountFormat {
  import opened Powers
  import opened BitStream
  import opened FseTables

  // ---------------------------------------------------------------- fields, lowest bits first

  function Len(fs: seq<Field>): nat {
    if fs == [] then 0 else fs[0].width + Len(fs[1..])
  }

  function Value(fs: seq<Field>): nat {
    if fs == [] then 0 else fs[0].value + Shl(Value(fs[1..]), fs[0].width)
  }

  ghost predicate Fit(fs: seq<Field>) { forall k :: 0 <= k < |fs| ==> fs[k].value < Pow2(fs[k].width) }

  lemma {:induction false} ValueBound(fs: seq<Field>)
    requires Fit(fs)
    ensures Value(fs) < Pow2(Len(fs))
  {
    hide Pow2, Shl;
    if fs == [] {
      assert Pow2(0) >= 1;
    } else {
      ValueBound(fs[1..]);
      ShlBound(Value(fs[1..]), Len(fs[1..]), fs[0].width);
    }
  }

  lemma {:induction false} Concat(fs: seq<Field>, gs: seq<Field>)
    ensures Len(fs + gs) == Len(fs) + Len(gs)
    ensures Value(fs + gs) == Value(fs) + Shl(Value(gs), Len(fs))
    decreases |fs|
  {
    hide Shl;
    if fs == [] {
      assert fs + gs == gs;
      ShlZeroBits(Value(gs));
    } else {
      assert (fs + gs)[1..] == fs[1..] + gs;
      Concat(fs[1..], gs);
      ShlAdd(Value(fs[1..]), Shl(Value(gs), Len(fs[1..])), fs[0].width);
      ShlShl(Value(gs), Len(fs[1..]), fs[0].width);
    }
  }

  lemma {:induction false} LenParts(run: seq<Field>, f: Field, rest: seq<Field>)
    ensures Len(run + ([f] + rest)) == Len(run) + f.width + Len(rest) && Len([]) == 0
  {
    Concat(run, [f] + rest);
    assert ([f] + rest)[1..] == rest;
  }

  lemma {:induction false} ShlZeroBits(v: nat)
    ensures Shl(v, 0) == v && Shr(v, 0) == v && Low(v, 0) == 0
  {}

  /** The bits of `v` begin with the fields. */
  ghost predicate Begins(v: nat, fs: seq<Field>) { Low(v, Len(fs)) == Value(fs) }

  /** Reading the first field leaves the others. */
  lemma {:induction false} ReadFirst(v: nat, fs: seq<Field>)
    requires Begins(v, fs) && Fit(fs) && fs != []
    ensures Low(v, fs[0].width) == fs[0].value
    ensures Begins(Shr(v, fs[0].width), fs[1..]) && Fit(fs[1..])
  {
    hide Pow2, Shl, Low, Shr;
    var w := fs[0].width;
    SplitUnique(fs[0].value, Value(fs[1..]), w);
    LowLow(v, w, Len(fs));
    ShrLow(v, w, Len(fs[1..]));
  }

  // ---------------------------------------------------------------- one count

  /** The code of a count while `r - 1` cells are left: values below `max` take one bit less. */
  function CountField(c: int, r: nat): Field
    requires -1 <= c && r >= 1
  {
    var th := Pow2(HighBit(r));
    var max := 2 * th - 1 - r;
    var v := if c + 1 >= th then c + 1 + max else c + 1;
    Field(v, if v < max then HighBit(r) else HighBit(r) + 1)
  }

  /** Reading a count from the bits `x`: the count and the number of bits. */
  function ReadCount(x: nat, r: nat): (int, nat)
    requires r >= 1
  {
    var h := HighBit(r);
    var th := Pow2(h);
    var max := 2 * th - 1 - r;
    if Low(x, h) < max then (Low(x, h) - 1, h)
    else
      var v := Low(x, h + 1);
      ((if v >= th then v - max else v) - 1, h + 1)
  }

  lemma {:induction false} CountInverse(c: int, r: nat, x: nat)
    requires -1 <= c < r && r >= 1 && Low(x, CountField(c, r).width) == CountField(c, r).value
    ensures ReadCount(x, r) == (c, CountField(c, r).width)
  {
    hide Pow2, Low;
    var h := HighBit(r);
    var f := CountField(c, r);
    TwicePow2(h);
    if f.width == h + 1 {
      LowLow(x, h, h + 1);
      if f.value < Pow2(h) {
        LowSmall(f.value, h);
      } else {
        ShlOne(h);
        SplitUnique(f.value - Pow2(h), 1, h);
      }
    }
  }

  lemma {:induction false} CountFits(c: int, r: nat)
    requires -1 <= c < r && r >= 1
    ensures CountField(c, r).value < Pow2(CountField(c, r).width)
    ensures HighBit(r) <= CountField(c, r).width <= HighBit(r) + 1
  {
    hide Pow2;
    TwicePow2(HighBit(r));
  }

  // ---------------------------------------------------------------- runs of absent symbols

  /** `k` further symbols without cells. */
  function ZeroRun(k: nat): (fs: seq<Field>)
    ensures fs != []
  {
    if k >= 24 then [Field(0xFFFF, 16)] + ZeroRun(k - 24)
    else if k >= 3 then [Field(3, 2)] + ZeroRun(k - 3)
    else [Field(k, 2)]
  }

  lemma {:induction false} ZeroRunFits(k: nat)
    ensures Fit(ZeroRun(k))
  {
    assert Pow2(16) == 0x10000 by { SixteenBits(); }
    assert Pow2(2) == 4;
    if k >= 24 { ZeroRunFits(k - 24); } else if k >= 3 { ZeroRunFits(k - 3); }
  }

  lemma {:induction false} SixteenBits()
    ensures Pow2(16) == 0x10000
  {
    assert Pow2(4) == 16 && Pow2(8) == 256 && Pow2(12) == 4096;
  }

  // ---------------------------------------------------------------- the whole header

  /** One more than the cells not yet given out before symbol `i`. */
  function Remaining(norm: seq<int>, tableLog: nat, i: nat): int
    requires i <= |norm|
  {
    Pow2(tableLog) + 1 - Base(norm, i)
  }

  function NextNonzero(norm: seq<int>, i: nat): (j: nat)
    requires i <= |norm|
    ensures i <= j <= |norm| && (j < |norm| ==> norm[j] != 0) && forall k :: i <= k < j ==> norm[k] == 0
    decreases |norm| - i
  {
    if i == |norm| || norm[i] != 0 then i else NextNonzero(norm, i + 1)
  }

  lemma {:induction false} ZerosTakeNothing(norm: seq<int>, i: nat, j: nat)
    requires i <= j <= |norm| && forall k :: i <= k < j ==> norm[k] == 0
    ensures Base(norm, i) == Base(norm, j)
    decreases j
  {
    if i < j { ZerosTakeNothing(norm, i, j - 1); }
  }

  /** Counts that sum to the table size. */
  ghost predicate Summed(norm: seq<int>, tableLog: nat) {
    && MIN_TABLELOG <= tableLog <= MAX_TABLELOG
    && (forall s :: 0 <= s < |norm| ==> -1 <= norm[s])
    && Base(norm, |norm|) == Pow2(tableLog)
  }

  /** The fields from symbol `i` on; `previous0` tells that the symbol before has no cells. */
  function FieldsFrom(norm: seq<int>, tableLog: nat, i: nat, previous0: bool): seq<Field>
    requires Summed(norm, tableLog) && i <= |norm|
    decreases |norm| - i
  {
    var r := Remaining(norm, tableLog, i);
    var j := if previous0 then NextNonzero(norm, i) else i;
    if r <= 1 || j == |norm| then []
    else (if previous0 then ZeroRun(j - i) else []) + ([CountField(norm[j], r)] + FieldsFrom(norm, tableLog, j + 1, norm[j] == 0))
  }

  /** tableLog in four bits, then the counts up to the last symbol with cells. */
  function Header(norm: seq<int>, tableLog: nat): seq<Field>
    requires Summed(norm, tableLog)
  {
    [Field(tableLog - MIN_TABLELOG, 4)] + FieldsFrom(norm, tableLog, 0, false)
  }

  /** Facts about the symbol whose count comes next. */
  lemma {:induction false} NextCount(norm: seq<int>, tableLog: nat, i: nat, previous0: bool)
    requires Summed(norm, tableLog) && i <= |norm| && Remaining(norm, tableLog, i) > 1
    ensures
      var r := Remaining(norm, tableLog, i);
      var j := if previous0 then NextNonzero(norm, i) else i;
      && j < |norm| && Remaining(norm, tableLog, j) == r && -1 <= norm[j] < r
      && Remaining(norm, tableLog, j + 1) == r - Cells(norm[j]) >= 1
      && r <= Pow2(tableLog) + 1
  {
    hide Pow2;
    var j := if previous0 then NextNonzero(norm, i) else i;
    ZerosTakeNothing(norm, i, j);
    CountsMono(norm, j, |norm|);
    if j < |norm| { CountsMono(norm, j + 1, |norm|); }
  }

  lemma {:induction false} FieldsFit(norm: seq<int>, tableLog: nat, i: nat, previous0: bool)
    requires Summed(norm, tableLog) && i <= |norm|
    ensures Fit(FieldsFrom(norm, tableLog, i, previous0))
    decreases |norm| - i
  {
    hide Pow2, HighBit, Fit, CountField, Base;
    FitNone();
    var r := Remaining(norm, tableLog, i);
    if r > 1 {
      NextCount(norm, tableLog, i, previous0);
      var j := if previous0 then NextNonzero(norm, i) else i;
      FieldsFit(norm, tableLog, j + 1, norm[j] == 0);
      CountFits(norm[j], r);
      ZeroRunFits(j - i);
      var f, rest := CountField(norm[j], r), FieldsFrom(norm, tableLog, j + 1, norm[j] == 0);
      FitOne(f);
      FitConcat([f], rest);
      if previous0 { FitConcat(ZeroRun(j - i), [f] + rest); } else { FitConcat([], [f] + rest); }
    }
  }

  lemma {:induction false} FitNone()
    ensures Fit([])
  {}

  lemma {:induction false} FitOne(f: Field)
    requires f.value < Pow2(f.width)
    ensures Fit([f])
  {}

  lemma {:induction false} FitConcat(fs: seq<Field>, gs: seq<Field>)
    requires Fit(fs) && Fit(gs)
    ensures Fit(fs + gs)
  {}

  lemma {:induction false} HeaderFits(norm: seq<int>, tableLog: nat)
    requires Summed(norm, tableLog)
    ensures Fit(Header(norm, tableLog))
  {
    FieldsFit(norm, tableLog, 0, false);
    assert Pow2(4) == 16;
  }
}
