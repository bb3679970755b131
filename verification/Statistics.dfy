/** How often each symbol occurs in a text. */
module Statistics {
  import opened Bytes
  import opened FseTables
  import opened FseNormalize

  /** How often each symbol occurs. */
  ghost predicate IsHistogram(count: seq<nat>, src: seq<Byte>) {
    forall s :: 0 <= s < |count| ==> count[s] == Count(src, s)
  }

  lemma {:induction false} CountPush(src: seq<Byte>, k: nat, s: nat)
    requires k < |src|
    ensures Count(src[..k + 1], s) == Count(src[..k], s) + if src[k] == s then 1 else 0
  {
    assert src[..k + 1][..k] == src[..k];
  }

  lemma {:induction false} CountsNothing(src: seq<Byte>)
    ensures forall s: nat :: Count(src[..0], s) == 0
  {}

  /** PBC_HIST_count_simple, for symbols up to 255: the counts, the largest symbol that occurs and the largest count. */
  method Histogram(src: seq<Byte>) returns (count: array<nat>, maxSymbol: nat, largest: nat)
    requires src != []
    ensures fresh(count) && count.Length == 256 && IsHistogram(count[..], src)
    ensures maxSymbol < 256 && count[maxSymbol] > 0 && forall s :: maxSymbol < s < 256 ==> count[s] == 0
    ensures (forall s :: 0 <= s < 256 ==> count[s] <= largest) && exists s :: 0 <= s < 256 && count[s] == largest
  {
    hide Count;
    count := new nat[256](_ => 0);
    CountsNothing(src);
    var i: nat := 0;
    while i < |src|
      invariant i <= |src| && forall s :: 0 <= s < 256 ==> count[s] == Count(src[..i], s)
      invariant i > 0 ==> exists s :: 0 <= s < 256 && count[s] > 0
    {
      forall s | 0 <= s < 256 ensures Count(src[..i + 1], s) == Count(src[..i], s) + if src[i] == s then 1 else 0 { CountPush(src, i, s); }
      count[src[i]] := count[src[i]] + 1;
      assert count[src[i]] > 0;
      i := i + 1;
    }
    assert src[..i] == src;
    maxSymbol := 255;
    while count[maxSymbol] == 0
      invariant maxSymbol < 256 && forall s :: maxSymbol < s < 256 ==> count[s] == 0
      decreases maxSymbol
    {
      maxSymbol := maxSymbol - 1;
    }
    largest := 0;
    var s: nat := 0;
    while s <= maxSymbol
      invariant s <= maxSymbol + 1
      invariant forall k :: 0 <= k < s ==> count[k] <= largest
      invariant if s == 0 then largest == 0 else exists k :: 0 <= k < s && count[k] == largest
    {
      if count[s] > largest { largest := count[s]; }
      assert count[s] == largest || s > 0;
      s := s + 1;
    }
  }

  lemma {:induction false} SumUpdate(f: seq<nat>, i: nat, x: nat)
    requires i < |f|
    ensures Sum(f[i := x]) == Sum(f) - f[i] + x
  {
    var n := |f| - 1;
    if i < n {
      SumUpdate(f[..n], i, x);
      assert f[i := x][..n] == f[..n][i := x];
    } else {
      assert f[i := x][..n] == f[..n];
    }
  }

  lemma {:induction false} SumZeros(f: seq<nat>, m: nat)
    requires m <= |f| && forall i :: m <= i < |f| ==> f[i] == 0
    ensures Sum(f) == Sum(f[..m])
    decreases |f|
  {
    if m < |f| {
      SumZeros(f[..|f| - 1], m);
      assert f[..|f| - 1][..m] == f[..m];
    } else {
      assert f[..m] == f;
    }
  }

  /** Every byte is counted once. */
  lemma {:induction false} HistogramTotal(count: seq<nat>, src: seq<Byte>)
    requires |count| == 256 && IsHistogram(count, src)
    ensures Sum(count) == |src|
    decreases |src|
  {
    hide Sum, Count;
    if src == [] {
      CountsNothing(src);
      assert src[..0] == src;
      SumZeros(count, 0);
      SumNothing(count[..0]);
    } else {
      var n, last := |src| - 1, src[|src| - 1];
      assert src[..n + 1] == src;
      CountPush(src, n, last);
      var before := count[last := count[last] - 1];
      forall s | 0 <= s < 256 ensures before[s] == Count(src[..n], s) { CountPush(src, n, s); }
      HistogramTotal(before, src[..n]);
      SumUpdate(before, last, count[last]);
      assert before[last := count[last]] == count;
    }
  }

  lemma {:induction false} SumNothing(f: seq<nat>)
    requires f == []
    ensures Sum(f) == 0
  {}

  /** A byte that occurs is counted. */
  lemma {:induction false} Occurs(src: seq<Byte>, n: nat, k: nat)
    requires k < n <= |src|
    ensures Count(src[..n], src[k]) > 0
  {
    hide Count;
    CountPush(src, n - 1, src[k]);
    if k < n - 1 { Occurs(src, n - 1, k); }
  }
}
