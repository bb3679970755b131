/** From limited code lengths in rank order to the weights of the symbols, which the reader accepts. */
module HuffmanBook {
  import opened Powers
  import opened HuffmanShape
  import HuffmanLimit
  import opened HuffmanTable
  import opened HuffmanReaders

  /** Each symbol stands at one rank. */
  ghost predicate Permutation(symbols: seq<nat>) {
    && (forall n :: 0 <= n < |symbols| ==> symbols[n] < |symbols|)
    && forall i, j :: 0 <= i < j < |symbols| ==> symbols[i] != symbols[j]
  }

  lemma {:induction false} WeightUpdate(ws: seq<nat>, i: nat, x: nat)
    requires i < |ws|
    ensures WeightSum(ws[i := x]) == WeightSum(ws) - Half(ws[i]) + Half(x)
    ensures WeightSum(ws) >= Half(ws[i])
  {
    hide Half;
    var n := |ws| - 1;
    if i < n {
      WeightUpdate(ws[..n], i, x);
      assert ws[i := x][..n] == ws[..n][i := x];
    } else {
      assert ws[i := x][..n] == ws[..n];
    }
  }

  lemma {:induction false} CountSet(ws: seq<nat>, i: nat, x: nat, w: nat)
    requires i < |ws|
    ensures CountOf(ws[i := x], w) == CountOf(ws, w) - (if ws[i] == w then 1 else 0) + if x == w then 1 else 0
    ensures ws[i] == w ==> CountOf(ws, w) >= 1
  {
    var n := |ws| - 1;
    if i < n {
      CountSet(ws[..n], i, x, w);
      assert ws[i := x][..n] == ws[..n][i := x];
    } else {
      assert ws[i := x][..n] == ws[..n];
    }
  }

  lemma {:induction false} Zeros(ws: seq<nat>)
    requires forall i :: 0 <= i < |ws| ==> ws[i] == 0
    ensures WeightSum(ws) == 0
  {
    if ws != [] { Zeros(ws[..|ws| - 1]); }
  }

  /** Pushes the code lengths from the ranks to the symbols, as weights. Symbols that do not occur stand
      at the last ranks and have no code. The weights fill the table if the lengths fill the code space. */
  method SymbolWeights(nbBits: seq<nat>, symbols: seq<nat>, leaves: nat, limit: nat, ghost gap: nat) returns (weights: array<nat>)
    requires HuffmanLimit.Overdrawn(nbBits, leaves, limit, gap) && leaves <= |symbols| <= 256 && limit <= 12
    requires Permutation(symbols)
    ensures fresh(weights) && weights.Length == |symbols| && (Weights(weights[..], limit) <==> gap == 0)
    ensures WeightSum(weights[..]) == Pow2(limit) + gap && forall s :: 0 <= s < |symbols| ==> weights[s] <= limit
    ensures forall n :: 0 <= n < |symbols| ==> weights[symbols[n]] == if n < leaves then limit + 1 - nbBits[n] else 0
    ensures gap == 0 ==> CountOf(weights[..], 1) >= 2
  {
    hide KraftSum, WeightSum, Pow2, Half, Share, CountOf;
    weights := new nat[|symbols|](_ => 0);
    Zeros(weights[..]);
    NoCodes(nbBits, limit);
    var n: nat := 0;
    while n < |symbols|
      invariant n <= |symbols|
      invariant forall i :: 0 <= i < n ==> weights[symbols[i]] == if i < leaves then limit + 1 - nbBits[i] else 0
      invariant forall i :: n <= i < |symbols| ==> weights[symbols[i]] == 0
      invariant forall s :: 0 <= s < |symbols| ==> weights[s] <= limit
      invariant WeightSum(weights[..]) == KraftSum(nbBits, limit, if n < leaves then n else leaves)
      invariant n >= leaves ==> CountOf(weights[..], 1) >= 1
    {
      ghost var was: seq<nat> := weights[..];
      var w: nat := if n < leaves then limit + 1 - nbBits[n] else 0;
      WeightUpdate(was, symbols[n], w);
      HalfIsShare(w, limit, if n < leaves then nbBits[n] else 0);
      CountSet(was, symbols[n], w, 1);
      if n < leaves { NextKraft(nbBits, limit, n); }
      weights[symbols[n]] := w;
      assert weights[..] == was[symbols[n] := w];
      n := n + 1;
    }
    if gap == 0 { ShortestEven(weights[..], limit); }
  }

  lemma {:induction false} NoCodes(nbBits: seq<nat>, limit: nat)
    ensures KraftSum(nbBits, limit, 0) == 0
  {}

  lemma {:induction false} NextKraft(nbBits: seq<nat>, limit: nat, n: nat)
    requires n < |nbBits|
    ensures KraftSum(nbBits, limit, n + 1) == KraftSum(nbBits, limit, n) + Share(limit, nbBits[n])
  {}

  lemma {:induction false} HalfIsShare(w: nat, limit: nat, nb: nat)
    requires w == 0 || (1 <= nb <= limit && w == limit + 1 - nb)
    ensures Half(0) == 0
    ensures w > 0 ==> Half(w) == Share(limit, nb)
  {}

  /** What the tree builder makes can be sent: the reader accepts the weights without the last one,
      provided none of them is twelve, and restores it. */
  lemma {:induction false} BookCanBeSent(ws: seq<nat>, limit: nat)
    requires Weights(ws, limit) && CountOf(ws, 1) >= 2 && ws[|ws| - 1] > 0
    ensures Sent(ws[..|ws| - 1], ws[|ws| - 1], limit) <==> forall i :: 0 <= i < |ws| - 1 ==> ws[i] < 12
  {
    hide WeightSum, CountOf, Pow2;
    assert ws[..|ws| - 1] + [ws[|ws| - 1]] == ws;
  }
}
