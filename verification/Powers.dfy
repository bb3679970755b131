/** Shifts, masks and the integer logarithm on unbounded naturals. Shifting and masking are
    defined one bit at a time, so that reasoning about them stays linear. */
module Powers {

  function Pow2(n: nat): (p: nat)
    ensures p >= 1
  {
    if n == 0 then 1 else 2 * Pow2(n - 1)
  }

  /** `v << n` without truncation. */
  function Shl(v: nat, n: nat): nat {
    if n == 0 then v else 2 * Shl(v, n - 1)
  }

  /** `v >> n`. */
  function Shr(v: nat, n: nat): nat {
    if n == 0 then v else Shr(v / 2, n - 1)
  }

  /** The low `n` bits, `v & ((1 << n) - 1)`. */
  function Low(v: nat, n: nat): nat {
    if n == 0 then 0 else v % 2 + 2 * Low(v / 2, n - 1)
  }

  /** Position of the highest set bit. */
  function HighBit(v: nat): (b: nat)
    requires v > 0
    ensures Pow2(b) <= v < Pow2(b + 1)
  {
    if v == 1 then 0 else HighBit(v / 2) + 1
  }

  lemma {:induction false} Pow2Mono(a: nat, b: nat)
    requires a <= b
    ensures Pow2(a) <= Pow2(b)
    decreases b
  {
    if a < b {
      Pow2Mono(a, b - 1);
    }
  }

  lemma {:induction false} TwicePow2(n: nat)
    ensures Pow2(n + 1) == 2 * Pow2(n)
  {}

  lemma {:induction false} Power62()
    ensures Pow2(50) == 0x4_0000_0000_0000 && Pow2(62) == 0x4000_0000_0000_0000
  {
    assert Pow2(10) == 1024;
    assert Pow2(20) == 1024 * Pow2(10);
    assert Pow2(30) == 1024 * Pow2(20);
    assert Pow2(40) == 1024 * Pow2(30);
    assert Pow2(50) == 1024 * Pow2(40);
    assert Pow2(62) == 4096 * Pow2(50);
  }

  lemma {:induction false} HighBitUnique(v: nat, k: nat)
    requires v > 0 && Pow2(k) <= v < Pow2(k + 1)
    ensures HighBit(v) == k
  {
    var b := HighBit(v);
    if b < k { Pow2Mono(b + 1, k); }
    if k < b { Pow2Mono(k + 1, b); }
  }

  lemma {:induction false} HighBitBelow(v: nat, n: nat)
    requires 0 < v < Pow2(n)
    ensures HighBit(v) < n
  {
    if HighBit(v) >= n { Pow2Mono(n, HighBit(v)); }
  }

  lemma {:induction false} HighBitMono(v: nat, w: nat)
    requires 0 < v <= w
    ensures HighBit(v) <= HighBit(w)
  {
    if HighBit(w) < HighBit(v) { Pow2Mono(HighBit(w) + 1, HighBit(v)); }
  }

  lemma {:induction false} ShlAdd(v: nat, w: nat, n: nat)
    ensures Shl(v + w, n) == Shl(v, n) + Shl(w, n)
  {
    if n > 0 { ShlAdd(v, w, n - 1); }
  }

  lemma {:induction false} ShlShl(v: nat, a: nat, b: nat)
    ensures Shl(Shl(v, a), b) == Shl(v, a + b)
  {
    if b > 0 { ShlShl(v, a, b - 1); }
  }

  lemma {:induction false} ShlOne(n: nat)
    ensures Shl(1, n) == Pow2(n) && Shl(0, n) == 0
  {
    if n > 0 { ShlOne(n - 1); }
  }

  lemma {:induction false} ShlPow2(a: nat, n: nat)
    ensures Shl(Pow2(a), n) == Pow2(a + n)
  {
    if n > 0 { ShlPow2(a, n - 1); }
  }

  lemma {:induction false} ShlMono(v: nat, w: nat, n: nat)
    requires v <= w
    ensures Shl(v, n) <= Shl(w, n)
  {
    if n > 0 { ShlMono(v, w, n - 1); }
  }

  /** Room for `n` more bits below. */
  lemma {:induction false} ShlBound(v: nat, a: nat, n: nat)
    requires v < Pow2(a)
    ensures Shl(v, n) + Pow2(n) <= Pow2(a + n)
  {
    ShlAdd(v, 1, n);
    ShlOne(n);
    ShlMono(v + 1, Pow2(a), n);
    ShlPow2(a, n);
  }

  /** Doubling commutes with shifting. */
  lemma {:induction false} ShlDouble(v: nat, n: nat)
    ensures Shl(2 * v, n) == 2 * Shl(v, n)
  {
    if n > 0 { ShlDouble(v, n - 1); }
  }

  /** A number is its low part plus its shifted high part. */
  lemma {:induction false} LowShr(v: nat, n: nat)
    ensures v == Low(v, n) + Shl(Shr(v, n), n)
    ensures Low(v, n) < Pow2(n)
  {
    if n > 0 { LowShr(v / 2, n - 1); }
  }

  lemma {:induction false} ShrBound(v: nat, a: nat, b: nat)
    requires v < Pow2(a + b)
    ensures Shr(v, a) < Pow2(b)
  {
    if a > 0 { ShrBound(v / 2, a - 1, b); }
  }

  lemma {:induction false} ShrMono(v: nat, w: nat, n: nat)
    requires v <= w
    ensures Shr(v, n) <= Shr(w, n)
  {
    if n > 0 { ShrMono(v / 2, w / 2, n - 1); }
  }

  /** The two parts determine the number and are determined by it. */
  lemma {:induction false} SplitUnique(lo: nat, hi: nat, n: nat)
    requires lo < Pow2(n)
    ensures Low(lo + Shl(hi, n), n) == lo && Shr(lo + Shl(hi, n), n) == hi
  {
    if n > 0 {
      SplitUnique(lo / 2, hi, n - 1);
      assert (lo + Shl(hi, n)) / 2 == lo / 2 + Shl(hi, n - 1);
    }
  }

  lemma {:induction false} LowSmall(v: nat, n: nat)
    requires v < Pow2(n)
    ensures Low(v, n) == v && Shr(v, n) == 0
  {
    ShlOne(n);
    SplitUnique(v, 0, n);
  }

  lemma {:induction false} ShrShr(v: nat, a: nat, b: nat)
    ensures Shr(Shr(v, a), b) == Shr(v, a + b)
  {
    if a > 0 { ShrShr(v / 2, a - 1, b); }
  }

  lemma {:induction false} ShrLow(v: nat, a: nat, b: nat)
    ensures Shr(Low(v, a + b), a) == Low(Shr(v, a), b)
  {
    if a > 0 { ShrLow(v / 2, a - 1, b); }
  }

  lemma {:induction false} LowLow(v: nat, a: nat, b: nat)
    requires a <= b
    ensures Low(Low(v, b), a) == Low(v, a)
  {
    if a > 0 { LowLow(v / 2, a - 1, b - 1); }
  }

  /** Adding above bit `a` leaves the bits below alone. */
  lemma {:induction false} AddAbove(v: nat, w: nat, a: nat)
    ensures Low(v + Shl(w, a), a) == Low(v, a)
    ensures Shr(v + Shl(w, a), a) == Shr(v, a) + w
  {
    if a > 0 {
      AddAbove(v / 2, w, a - 1);
      assert (v + Shl(w, a)) / 2 == v / 2 + Shl(w, a - 1);
    }
  }

  /** What the three operations mean in terms of multiplication and division. */
  lemma {:induction false} ShiftMeaning(v: nat, n: nat)
    ensures Shl(v, n) == v * Pow2(n)
    ensures Shr(v, n) == v / Pow2(n)
    ensures Low(v, n) == v % Pow2(n)
  {
    ShlMul(v, n);
    ShlMul(Shr(v, n), n);
    LowShr(v, n);
    DivModUnique(v, Pow2(n), Shr(v, n), Low(v, n));
  }

  lemma {:induction false} ShlMul(v: nat, n: nat)
    ensures Shl(v, n) == v * Pow2(n)
  {
    if n > 0 { ShlMul(v, n - 1); }
  }

  /** The highest bit of a number with lower bits put under it. */
  lemma {:induction false} HighBitShl(lo: nat, hi: nat, n: nat)
    requires lo < Pow2(n) && hi > 0
    ensures lo + Shl(hi, n) > 0 && HighBit(lo + Shl(hi, n)) == n + HighBit(hi)
  {
    hide Pow2, Shl, HighBit;
    var h := HighBit(hi);
    ShlBound(hi, h + 1, n);
    ShlMono(Pow2(h), hi, n);
    ShlPow2(h, n);
    HighBitUnique(lo + Shl(hi, n), n + h);
  }

  lemma {:induction false} MulLe(a: int, b: int, c: int)
    requires a <= b && 0 <= c
    ensures a * c <= b * c
  {}

  /** Quotient and remainder are determined by the division equation. */
  lemma {:induction false} DivModUnique(x: int, d: int, q: int, r: int)
    requires d > 0 && 0 <= r < d && x == q * d + r
    ensures x / d == q && x % d == r
  {
    var q', r' := x / d, x % d;
    assert x == d * q' + r';
    if q' < q { MulLe(q' + 1, q, d); }
    if q < q' { MulLe(q + 1, q', d); }
  }
}
