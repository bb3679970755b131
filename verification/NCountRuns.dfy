/** What bits mean to the reader of normalized counts: a run of absent symbols is read pair by pair, and eight pairs
    of ones may as well be taken at once. */
module NCountRuns {
  import opened Powers
  import opened BitStream
  import opened NCountFormat

  /** Symbols in the run that the bits of `x` begin with: three for each pair of ones, and the pair that ends it. */
  function RunLength(x: nat): nat
    decreases x
  {
    if Low(x, 2) == 3 then ShiftSmaller2(x); 3 + RunLength(Shr(x, 2)) else Low(x, 2)
  }

  /** Bits of the code of a run. */
  function RunBits(k: nat): nat { 2 * (k / 3) + 2 }

  lemma {:induction false} ShiftSmaller2(v: nat)
    requires Low(v, 2) == 3
    ensures Shr(v, 2) < v
  {
    assert Shr(v, 2) == Shr(v / 2, 1) == v / 2 / 2;
  }

  lemma {:induction false} PairBelow(x: nat)
    ensures Low(x, 2) < 4
  {
    LowShr(x, 2);
    assert Pow2(2) == 4;
  }

  lemma {:induction false} ShrZero(v: nat)
    ensures Shr(v, 0) == v && Low(v, 0) == 0
  {}

  lemma {:induction false} RunLengthBits(k: nat)
    ensures Len(ZeroRun(k)) == RunBits(k)
  {
    hide Len;
    if k >= 24 {
      RunLengthBits(k - 24);
      LenOneMore(Field(0xFFFF, 16), ZeroRun(k - 24));
    } else if k >= 3 {
      RunLengthBits(k - 3);
      LenOneMore(Field(3, 2), ZeroRun(k - 3));
    } else {
      LenOneMore(Field(k, 2), []);
      assert [Field(k, 2)] + [] == [Field(k, 2)];
    }
  }

  lemma {:induction false} LenOneMore(f: Field, rest: seq<Field>)
    ensures Len([f] + rest) == f.width + Len(rest) && Len([]) == 0
  {
    LenParts([], f, rest);
    assert [] + ([f] + rest) == [f] + rest;
  }

  // ---------------------------------------------------------------- pairs of ones

  /** Ones so far, and two more. */
  lemma {:induction false} OnesGrow(v: nat, a: nat)
    ensures Low(v, a + 2) == Pow2(a + 2) - 1 <==> Low(v, a) == Pow2(a) - 1 && Low(Shr(v, a), 2) == 3
  {
    if a > 0 {
      OnesGrow(v / 2, a - 1);
      LowShr(v / 2, a - 1);
      LowShr(v / 2, a + 1);
    } else {
      ShrZero(v);
      assert Pow2(2) == 4;
    }
  }

  /** `m` pairs of ones are three symbols each. */
  lemma {:induction false} OnesRun(x: nat, m: nat)
    requires Low(x, 2 * m) == Pow2(2 * m) - 1
    ensures RunLength(x) == 3 * m + RunLength(Shr(x, 2 * m))
  {
    hide Low, Shr, Pow2;
    if m == 0 {
      ShrZero(x);
    } else {
      OnesGrow(x, 2 * (m - 1));
      OnesRun(x, m - 1);
      ShrShr(x, 2 * (m - 1), 2);
    }
  }

  /** A long run begins with pairs of ones. */
  lemma {:induction false} RunOnes(x: nat, m: nat)
    requires RunLength(x) >= 3 * m
    ensures Low(x, 2 * m) == Pow2(2 * m) - 1
  {
    hide Low, Shr, Pow2;
    if m == 0 {
      ShrZero(x);
      NoOnes();
    } else {
      RunOnes(x, m - 1);
      OnesRun(x, m - 1);
      PairBelow(Shr(x, 2 * (m - 1)));
      OnesGrow(x, 2 * (m - 1));
    }
  }

  lemma {:induction false} NoOnes()
    ensures Pow2(0) == 1
  {}

  /** Sixteen ones are twenty-four symbols, in both directions. */
  lemma {:induction false} TestFor24(x: nat)
    ensures Low(x, 16) == 0xFFFF <==> RunLength(x) >= 24
    ensures Low(x, 16) == 0xFFFF ==> RunLength(x) == 24 + RunLength(Shr(x, 16)) && Shr(x, 16) < x
  {
    hide Low, Shr, Pow2;
    SixteenBits();
    if Low(x, 16) == 0xFFFF {
      OnesRun(x, 8);
      LowShr(x, 16);
      ShlAtLeast(Shr(x, 16), 16);
    }
    if RunLength(x) >= 24 { RunOnes(x, 8); }
  }

  lemma {:induction false} ShlAtLeast(v: nat, n: nat)
    ensures Shl(v, n) >= v
  {
    if n > 0 { ShlAtLeast(v, n - 1); }
  }

  // ---------------------------------------------------------------- runs depend on their own bits only

  lemma {:induction false} RunPrefix(x: nat, y: nat, w: nat)
    requires Low(x, w) == Low(y, w) && RunBits(RunLength(x)) <= w
    ensures RunLength(y) == RunLength(x)
    decreases w
  {
    hide Low, Shr;
    PairBelow(x);
    LowLow(x, 2, w);
    LowLow(y, 2, w);
    if Low(x, 2) == 3 {
      ShrLow(x, 2, w - 2);
      ShrLow(y, 2, w - 2);
      RunPrefix(Shr(x, 2), Shr(y, 2), w - 2);
    }
  }

  lemma {:induction false} SameRun(x: nat, y: nat)
    requires RunLength(x) == RunLength(y)
    ensures Low(x, RunBits(RunLength(x))) == Low(y, RunBits(RunLength(x)))
    decreases x
  {
    hide Low, Shr;
    PairBelow(x);
    PairBelow(y);
    if RunLength(x) >= 3 {
      ShiftSmaller2(x);
      SameRun(Shr(x, 2), Shr(y, 2));
      var n := RunBits(RunLength(Shr(x, 2)));
      LowSplit(x, 2, n);
      LowSplit(y, 2, n);
    }
  }

  /** The low bits are the lowest and those above them. */
  lemma {:induction false} LowSplit(x: nat, a: nat, b: nat)
    ensures Low(x, a + b) == Low(x, a) + Shl(Low(Shr(x, a), b), a)
  {
    hide Low, Shr, Shl;
    LowShr(Low(x, a + b), a);
    LowLow(x, a, a + b);
    ShrLow(x, a, b);
  }

  lemma {:induction false} LongRunBits(k: nat, s: nat)
    ensures RunBits(24 * s + k) == 16 * s + RunBits(k)
  {}

  /** The first field of a coded run, and what follows it. */
  lemma {:induction false} RunParts(k: nat, rest: seq<Field>)
    ensures k >= 24 ==> ZeroRun(k) + rest == [Field(0xFFFF, 16)] + (ZeroRun(k - 24) + rest) && RunBits(k) == 16 + RunBits(k - 24)
    ensures 3 <= k < 24 ==> ZeroRun(k) + rest == [Field(3, 2)] + (ZeroRun(k - 3) + rest) && RunBits(k) == 2 + RunBits(k - 3)
    ensures k < 3 ==> ZeroRun(k) + rest == [Field(k, 2)] + rest && RunBits(k) == 2
  {}

  /** The code of a run reads as that run. */
  lemma {:induction false} RunOfFields(y: nat, k: nat, rest: seq<Field>)
    requires Begins(y, ZeroRun(k) + rest) && Fit(ZeroRun(k) + rest)
    ensures RunLength(y) == k && Begins(Shr(y, RunBits(k)), rest) && Fit(rest)
    ensures Len(ZeroRun(k) + rest) == RunBits(k) + Len(rest)
    decreases k
  {
    hide Low, Shr, Begins, Pow2, Fit, ZeroRun, RunBits, Len;
    RunParts(k, rest);
    ReadFirst(y, ZeroRun(k) + rest);
    if k >= 24 {
      hide RunLength;
      var others := ZeroRun(k - 24) + rest;
      LenOneMore(Field(0xFFFF, 16), others);
      assert ([Field(0xFFFF, 16)] + others)[1..] == others;
      RunOfFields(Shr(y, 16), k - 24, rest);
      TestFor24(y);
      ShrShr(y, 16, RunBits(k - 24));
    } else if k >= 3 {
      var others := ZeroRun(k - 3) + rest;
      LenOneMore(Field(3, 2), others);
      assert ([Field(3, 2)] + others)[1..] == others;
      RunOfFields(Shr(y, 2), k - 3, rest);
      ShrShr(y, 2, RunBits(k - 3));
    } else {
      LenOneMore(Field(k, 2), rest);
      assert ([Field(k, 2)] + rest)[1..] == rest;
    }
  }

  // ---------------------------------------------------------------- counts depend on their own bits only

  lemma {:induction false} CountPrefix(x: nat, y: nat, r: nat, w: nat)
    requires r >= 1 && Low(x, w) == Low(y, w) && HighBit(r) + 1 <= w
    ensures ReadCount(x, r) == ReadCount(y, r)
  {
    hide Low, HighBit, Pow2;
    LowLow(x, HighBit(r), w);
    LowLow(y, HighBit(r), w);
    LowLow(x, HighBit(r) + 1, w);
    LowLow(y, HighBit(r) + 1, w);
  }

  /** A count has one code only. */
  lemma {:induction false} SameCount(x: nat, y: nat, r: nat)
    requires r >= 1 && ReadCount(x, r).0 == ReadCount(y, r).0
    ensures ReadCount(x, r) == ReadCount(y, r) && Low(x, ReadCount(x, r).1) == Low(y, ReadCount(x, r).1)
  {
    hide Low, HighBit, Pow2;
    var h := HighBit(r);
    TwicePow2(h);
    TopBit(x, h);
    TopBit(y, h);
  }

  lemma {:induction false} TopBit(x: nat, h: nat)
    ensures Low(x, h) < Pow2(h) && (Low(x, h + 1) == Low(x, h) || Low(x, h + 1) == Low(x, h) + Pow2(h))
  {
    if h > 0 { TopBit(x / 2, h - 1); }
  }

  /** Without any bits set a count reads as a low-probability symbol. */
  lemma {:induction false} CountOfNothing(r: nat)
    requires r > 1
    ensures ReadCount(0, r).0 == -1
  {
    hide HighBit, Pow2, Low;
    LowSmall(0, HighBit(r));
    LowSmall(0, HighBit(r) + 1);
  }

  // ---------------------------------------------------------------- a run and its count from a register that is too short

  /** Code of a run of `k` symbols and of the count `c` after it. */
  function StageBits(k: nat, c: int, r: nat): nat
    requires -1 <= c && r >= 1
  {
    RunBits(k) + CountField(c, r).width
  }

  /** From the low `w` bits of `y` the run and the count are read right exactly when the other bits of their code are
      zero. When they are not, the first symbol that is read wrong gets a count it does not have. */
  lemma {:induction false} ShortStage(y: nat, w: nat, k: nat, c: int, r: nat, rest: seq<Field>)
    requires r > 1 && -1 <= c < r && RunLength(y) == k
    requires Begins(Shr(y, RunBits(k)), [CountField(c, r)] + rest) && Fit([CountField(c, r)] + rest)
    ensures
      var x := Low(y, w);
      var k' := RunLength(x);
      var c' := ReadCount(Shr(x, RunBits(k')), r).0;
      if Shr(Low(y, StageBits(k, c, r)), w) == 0 then k' == k && c' == c
      else k' > k || (k' == k && c' != c) || (k' < k && c' == -1)
  {
    hide Low, Shr, Pow2, Begins, Fit, HighBit, CountField, ZeroRun;
    var x, f := Low(y, w), CountField(c, r);
    var n := RunBits(k);
    FirstCount(Shr(y, n), c, r, rest);
    var k' := RunLength(x);
    LowOfLow(y, w);
    if Shr(Low(y, n + f.width), w) == 0 {
      HighZero(y, n + f.width, w);
      RunPrefix(y, x, n + f.width);
      LowSplit(x, n, f.width);
      LowSplit(y, n, f.width);
      SameUpper(x, y, n, f.width);
      CountInverse(c, r, Shr(x, n));
    } else if k' == k && ReadCount(Shr(x, n), r).0 == c {
      SameRun(x, y);
      SameCount(Shr(x, n), Shr(y, n), r);
      LowSplit(x, n, f.width);
      LowSplit(y, n, f.width);
      HighOfLow(y, w, n + f.width);
      assert false;
    } else if k' < k {
      if RunBits(k') <= w { RunPrefix(x, y, w); }
      HighOfLow(y, w, RunBits(k'));
      ShrTooFar(y, w, RunBits(k'));
      CountOfNothing(r);
    }
  }

  lemma {:induction false} FirstCount(z: nat, c: int, r: nat, rest: seq<Field>)
    requires r >= 1 && -1 <= c < r && Begins(z, [CountField(c, r)] + rest) && Fit([CountField(c, r)] + rest)
    ensures Low(z, CountField(c, r).width) == CountField(c, r).value && ReadCount(z, r) == (c, CountField(c, r).width)
  {
    hide Low, Shr, Begins, CountField, Fit, HighBit, Pow2;
    ReadFirst(z, [CountField(c, r)] + rest);
    CountInverse(c, r, z);
  }

  lemma {:induction false} LowOfLow(y: nat, w: nat)
    ensures Low(Low(y, w), w) == Low(y, w)
  {
    hide Low;
    LowLow(y, w, w);
  }

  lemma {:induction false} SameUpper(x: nat, y: nat, n: nat, b: nat)
    requires Low(x, n + b) == Low(y, n + b)
    ensures Low(Shr(x, n), b) == Low(Shr(y, n), b)
  {
    hide Low, Shr;
    ShrLow(x, n, b);
    ShrLow(y, n, b);
  }

  /** Bits beyond `w` that are zero are not missed. */
  lemma {:induction false} HighZero(y: nat, n: nat, w: nat)
    requires Shr(Low(y, n), w) == 0
    ensures Low(Low(y, w), n) == Low(y, n)
  {
    hide Low, Shr, Shl;
    if n <= w {
      LowLow(y, n, w);
    } else {
      LowShr(Low(y, n), w);
      ShlOne(w);
      LowLow(y, w, n);
      LowShr(y, w);
      Pow2Mono(w, n);
      LowSmall(Low(y, w), n);
    }
  }

  /** The low `w` bits have nothing beyond `w`. */
  lemma {:induction false} HighOfLow(y: nat, w: nat, n: nat)
    ensures Shr(Low(Low(y, w), n), w) == 0
  {
    hide Low, Shr;
    LowShr(y, w);
    LowShr(Low(y, w), n);
    LowAtMost(Low(y, w), n);
    LowSmall(Low(Low(y, w), n), w);
  }

  lemma {:induction false} LowAtMost(v: nat, n: nat)
    ensures Low(v, n) <= v
  {
    if n > 0 { LowAtMost(v / 2, n - 1); }
  }

  lemma {:induction false} ShrTooFar(y: nat, w: nat, n: nat)
    requires w <= n
    ensures Shr(Low(y, w), n) == 0
  {
    hide Low, Shr;
    LowShr(y, w);
    Pow2Mono(w, n);
    LowSmall(Low(y, w), n);
  }
}
