/** Sorting the symbols by frequency: one bucket for each size class, insertion within a bucket. */
module HuffmanSort {
  import opened Powers

  const RANKS: nat := 32

  datatype Node = Node(count: nat, symbol: nat)

  /** Size class of a frequency. */
  function Rank(c: nat): nat { HighBit(c + 1) }

  /** Symbols among the first `n` in class `r`. */
  function InRank(count: seq<nat>, r: nat, n: nat): (k: nat)
    requires n <= |count|
    ensures k <= n
  {
    if n == 0 then 0 else InRank(count, r, n - 1) + if Rank(count[n - 1]) == r then 1 else 0
  }

  /** All symbols in class `r` or above: where the bucket of the class below starts. */
  function From(count: seq<nat>, r: nat): nat
    decreases RANKS - r
  {
    if r >= RANKS then 0 else InRank(count, r, |count|) + From(count, r + 1)
  }

  ghost predicate Small(count: seq<nat>) { forall k :: 0 <= k < |count| ==> Rank(count[k]) < RANKS - 1 }

  lemma {:induction false} InRankGrows(count: seq<nat>, r: nat, m: nat, n: nat)
    requires m <= n <= |count|
    ensures InRank(count, r, m) <= InRank(count, r, n)
    decreases n
  {
    if m < n { InRankGrows(count, r, m, n - 1); }
  }

  lemma {:induction false} FromFalls(count: seq<nat>, q: nat, r: nat)
    requires q <= r
    ensures From(count, q) >= From(count, r)
    decreases r - q
  {
    if q < r { FromFalls(count, q + 1, r); }
  }

  /** Sum over all classes from `r` on of the symbols among the first `n`. */
  function Upto(count: seq<nat>, r: nat, n: nat): nat
    requires n <= |count|
    decreases RANKS - r
  {
    if r >= RANKS then 0 else InRank(count, r, n) + Upto(count, r + 1, n)
  }

  lemma {:induction false} UptoStep(count: seq<nat>, r: nat, n: nat)
    requires n < |count| && Rank(count[n]) < RANKS
    ensures Upto(count, r, n + 1) == Upto(count, r, n) + if Rank(count[n]) >= r then 1 else 0
    decreases RANKS - r
  {
    hide Rank;
    if r < RANKS { UptoStep(count, r + 1, n); }
  }

  lemma {:induction false} UptoAll(count: seq<nat>, n: nat)
    requires n <= |count| && Small(count)
    ensures Upto(count, 0, n) == n
  {
    hide Rank, Upto, InRank;
    if n == 0 { UptoNone(count, 0); } else { UptoAll(count, n - 1); UptoStep(count, 0, n - 1); }
  }

  lemma {:induction false} UptoNone(count: seq<nat>, r: nat)
    ensures Upto(count, r, 0) == 0
    decreases RANKS - r
  {
    if r < RANKS { UptoNone(count, r + 1); }
  }

  lemma {:induction false} FromIsUpto(count: seq<nat>, r: nat)
    ensures From(count, r) == Upto(count, r, |count|)
    decreases RANKS - r
  {
    if r < RANKS { FromIsUpto(count, r + 1); }
  }

  /** The buckets take up all places. */
  lemma {:induction false} FromAll(count: seq<nat>)
    requires Small(count)
    ensures From(count, 0) == |count|
  {
    FromIsUpto(count, 0);
    UptoAll(count, |count|);
  }

  // ---------------------------------------------------------------- one bucket

  /** More frequent symbols come first, of equally frequent ones the smaller. */
  predicate Before(x: Node, y: Node) { x.count > y.count || (x.count == y.count && x.symbol < y.symbol) }

  ghost predicate Descending(h: seq<Node>, lo: nat, hi: nat)
    requires hi <= |h|
  {
    forall i, j :: lo <= i < j < hi ==> Before(h[i], h[j])
  }

  /** Puts a symbol, larger than all of its bucket, behind those that are not less frequent. */
  method Insert(h: array<Node>, lo: nat, cur: nat, c: nat, n: nat) returns (ghost at: nat)
    requires lo <= cur < h.Length && Descending(h[..], lo, cur) && forall k :: lo <= k < cur ==> h[k].symbol < n
    modifies h
    ensures lo <= at <= cur && Descending(h[..], lo, cur + 1) && h[at] == Node(c, n)
    ensures forall k :: 0 <= k < at ==> h[k] == old(h[k])
    ensures forall k :: at < k <= cur ==> h[k] == old(h[k - 1])
    ensures forall k :: cur < k < h.Length ==> h[k] == old(h[k])
  {
    hide Descending;
    ghost var was: seq<Node> := h[..];
    var pos := cur;
    while pos > lo && c > h[pos - 1].count
      invariant lo <= pos <= cur
      invariant forall k :: 0 <= k <= pos ==> h[k] == was[k]
      invariant forall k :: pos < k <= cur ==> h[k] == was[k - 1]
      invariant forall k :: cur < k < h.Length ==> h[k] == was[k]
      invariant forall k :: pos <= k < cur ==> was[k].count < c
    {
      h[pos] := h[pos - 1];
      pos := pos - 1;
    }
    h[pos] := Node(c, n);
    at := pos;
    StillDescending(was, h[..], lo, cur, at);
  }

  lemma {:induction false} StillDescending(was: seq<Node>, h: seq<Node>, lo: nat, cur: nat, at: nat)
    requires lo <= at <= cur < |h| == |was| && Descending(was, lo, cur)
    requires (forall k :: 0 <= k < at ==> h[k] == was[k]) && forall k :: at < k <= cur ==> h[k] == was[k - 1]
    requires (forall k :: at <= k < cur ==> was[k].count < h[at].count) && (at > lo ==> h[at].count <= h[at - 1].count)
    requires forall k :: lo <= k < cur ==> was[k].symbol < h[at].symbol
    ensures Descending(h, lo, cur + 1)
  {
    forall k | lo <= k < at ensures Before(h[k], h[at]) {
      assert h[k] == was[k] && (k < at - 1 ==> Before(was[k], was[at - 1]));
    }
  }

  // ---------------------------------------------------------------- all buckets

  /** The filled part of bucket `r` after the first `n` symbols: they are in it, each once, in descending order. */
  ghost predicate Bucket(h: seq<Node>, count: seq<nat>, r: nat, n: nat)
    requires n <= |count|
  {
    var lo, hi := From(count, r + 1), From(count, r + 1) + InRank(count, r, n);
    && hi <= |h| && Descending(h, lo, hi)
    && (forall k :: lo <= k < hi ==> h[k].symbol < n && h[k].count == count[h[k].symbol] && Rank(h[k].count) == r)
    && (forall i, j :: lo <= i < j < hi ==> h[i].symbol != h[j].symbol)
  }

  ghost predicate Buckets(h: seq<Node>, count: seq<nat>, n: nat)
    requires n <= |count|
  {
    forall r :: 0 <= r < RANKS - 1 ==> Bucket(h, count, r, n)
  }

  /** Symbol `n` goes into its own bucket and moves nothing in the others. */
  lemma {:induction false} BucketNext(h: seq<Node>, h': seq<Node>, count: seq<nat>, r: nat, n: nat, at: nat)
    requires n < |count| && |h| == |h'| && r < RANKS - 1 && Bucket(h, count, r, n) && Rank(count[n]) < RANKS - 1
    requires
      var q := Rank(count[n]);
      var lo, cur := From(count, q + 1), From(count, q + 1) + InRank(count, q, n);
      && lo <= at <= cur < |h| && Descending(h', lo, cur + 1) && h'[at] == Node(count[n], n)
      && (forall k :: 0 <= k < at ==> h'[k] == h[k])
      && (forall k :: at < k <= cur ==> h'[k] == h[k - 1])
      && (forall k :: cur < k < |h| ==> h'[k] == h[k])
    ensures Bucket(h', count, r, n + 1)
  {
    hide Rank, InRank, From;
    var q := Rank(count[n]);
    Apart(count, q, r, n);
    InRankNext(count, r, n);
  }

  lemma {:induction false} InRankNext(count: seq<nat>, r: nat, n: nat)
    requires n < |count|
    ensures InRank(count, r, n + 1) == InRank(count, r, n) + if Rank(count[n]) == r then 1 else 0
  {}

  /** Buckets do not overlap. */
  lemma {:induction false} Apart(count: seq<nat>, q: nat, r: nat, n: nat)
    requires n < |count| && q < RANKS && r < RANKS && Rank(count[n]) == q
    ensures From(count, q + 1) + InRank(count, q, n) < From(count, q)
    ensures From(count, r + 1) + InRank(count, r, n) <= From(count, r)
    ensures q < r ==> From(count, r) <= From(count, q + 1)
    ensures r < q ==> From(count, q) <= From(count, r + 1)
  {
    hide Rank;
    InRankGrows(count, q, n + 1, |count|);
    InRankGrows(count, r, n, |count|);
    if q < r { FromFalls(count, q + 1, r); }
    if r < q { FromFalls(count, r + 1, q); }
  }

  /** Which bucket a place belongs to. */
  lemma {:induction false} PlaceOf(count: seq<nat>, k: nat, top: nat) returns (r: nat)
    requires k < From(count, top) && top < RANKS
    ensures top <= r < RANKS && From(count, r + 1) <= k < From(count, r)
    decreases RANKS - top
  {
    if k < From(count, top + 1) { r := PlaceOf(count, k, top + 1); } else { r := top; }
  }

  // ---------------------------------------------------------------- sorted symbols

  /** The symbols by falling frequency, each once, equally frequent ones by number. */
  ghost predicate Ranked(h: seq<Node>, count: seq<nat>) {
    && |h| >= |count|
    && (forall k :: 0 <= k < |count| ==> h[k].symbol < |count| && h[k].count == count[h[k].symbol])
    && (forall i, j :: 0 <= i < j < |count| ==> h[i].symbol != h[j].symbol)
    && (forall i, j :: 0 <= i < j < |count| ==> Before(h[i], h[j]))
  }

  lemma {:induction false} BucketsRanked(h: seq<Node>, count: seq<nat>)
    requires Small(count) && |h| >= |count| && Buckets(h, count, |count|)
    ensures Ranked(h, count)
  {
    hide Rank, InRank, From, Bucket;
    FromAll(count);
    forall k | 0 <= k < |count| ensures h[k].symbol < |count| && h[k].count == count[h[k].symbol] {
      var r := FullPlace(h, count, k);
    }
    forall i, j | 0 <= i < j < |count| ensures h[i].symbol != h[j].symbol && Before(h[i], h[j]) {
      var q := FullPlace(h, count, i);
      var r := FullPlace(h, count, j);
      SameBucket(h, count, q, i, j);
      if q < r { FromFalls(count, q + 1, r); }
      if r < q { HigherRank(h[i].count, h[j].count); }
      if q != r { assert r < q; }
    }
  }

  lemma {:induction false} HigherRank(a: nat, b: nat)
    ensures Rank(a) > Rank(b) ==> a > b
  {
    if a <= b { HighBitMono(a + 1, b + 1); }
  }

  lemma {:induction false} SameBucket(h: seq<Node>, count: seq<nat>, r: nat, i: nat, j: nat)
    requires Bucket(h, count, r, |count|) && r < RANKS && From(count, r + 1) <= i < j
    ensures j < From(count, r) ==> j < |h| && h[i].symbol != h[j].symbol && Before(h[i], h[j])
  {}

  /** At the end every place is taken. */
  lemma {:induction false} FullPlace(h: seq<Node>, count: seq<nat>, k: nat) returns (r: nat)
    requires Small(count) && |h| >= |count| && Buckets(h, count, |count|) && k < From(count, 0) == |count|
    ensures r < RANKS - 1 && From(count, r + 1) <= k < From(count, r) && Bucket(h, count, r, |count|)
    ensures h[k].symbol < |count| && h[k].count == count[h[k].symbol] && Rank(h[k].count) == r
  {
    r := PlaceOf(count, k, 0);
    if r == RANKS - 1 { NoneInLast(count, |count|); }
  }

  lemma {:induction false} NoneInLast(count: seq<nat>, n: nat)
    requires Small(count) && n <= |count|
    ensures InRank(count, RANKS - 1, n) == 0
  {
    hide Rank;
    if n > 0 { NoneInLast(count, n - 1); }
  }

  // ---------------------------------------------------------------- the method

  /** Fills the table of bucket starts. */
  method CountRanks(count: seq<nat>, base: array<nat>)
    requires Small(count) && base.Length == RANKS
    modifies base
    ensures forall r :: 0 <= r < RANKS ==> base[r] == From(count, r)
  {
    hide From, InRank, Rank;
    forall r | 0 <= r < RANKS { base[r] := 0; }
    NoneYet(count);
    var n: nat := 0;
    while n < |count|
      invariant n <= |count| && forall r :: 0 <= r < RANKS ==> base[r] == InRank(count, r, n)
    {
      forall r | 0 <= r < RANKS ensures InRank(count, r, n + 1) == InRank(count, r, n) + if Rank(count[n]) == r then 1 else 0 {
        InRankNext(count, r, n);
      }
      var r := Rank(count[n]);
      base[r] := base[r] + 1;
      n := n + 1;
    }
    n := RANKS - 2;
    NoneInLast(count, |count|);
    FromStep(count, RANKS - 1);
    FromStep(count, RANKS);
    while n > 0
      invariant n <= RANKS - 2
      invariant forall r :: 0 <= r < n ==> base[r] == InRank(count, r, |count|)
      invariant base[n] == if n == RANKS - 2 then InRank(count, n, |count|) else From(count, n)
      invariant forall r :: n < r < RANKS ==> base[r] == From(count, r)
    {
      FromStep(count, n);
      FromStep(count, n - 1);
      base[n - 1] := base[n - 1] + base[n];
      n := n - 1;
    }
  }

  lemma {:induction false} NoneYet(count: seq<nat>)
    ensures forall r :: 0 <= r < RANKS ==> InRank(count, r, 0) == 0
  {}

  lemma {:induction false} FromStep(count: seq<nat>, r: nat)
    ensures From(count, r) == if r >= RANKS then 0 else InRank(count, r, |count|) + From(count, r + 1)
  {}

  /** Each bucket's next free place. */
  ghost predicate Next(current: seq<nat>, count: seq<nat>, n: nat)
    requires n <= |count|
  {
    |current| == RANKS && forall r :: 1 <= r < RANKS ==> current[r] == From(count, r) + InRank(count, r - 1, n)
  }

  lemma {:induction false} NextPlace(current: seq<nat>, count: seq<nat>, n: nat)
    requires n < |count| && Rank(count[n]) < RANKS - 1 && Next(current, count, n)
    ensures current[Rank(count[n]) + 1] == From(count, Rank(count[n]) + 1) + InRank(count, Rank(count[n]), n)
    ensures Next(current[Rank(count[n]) + 1 := current[Rank(count[n]) + 1] + 1], count, n + 1)
  {
    hide From, InRank, Rank;
    var r := Rank(count[n]) + 1;
    forall q | 1 <= q < RANKS ensures current[r := current[r] + 1][q] == From(count, q) + InRank(count, q - 1, n + 1) {
      InRankNext(count, q - 1, n);
    }
  }

  /** One symbol more. */
  method Place(h: array<Node>, count: seq<nat>, n: nat, start: nat, pos: nat)
    requires Small(count) && n < |count| == h.Length && Buckets(h[..], count, n)
    requires var r := Rank(count[n]); start == From(count, r + 1) && pos == start + InRank(count, r, n)
    modifies h
    ensures Buckets(h[..], count, n + 1)
  {
    hide From, InRank, Rank, Bucket;
    ghost var r := Rank(count[n]);
    Apart(count, r, 0, n);
    FromAtMost(count, r);
    ghost var was: seq<Node> := h[..];
    BucketSorted(was, count, r, n);
    ghost var at := Insert(h, start, pos, count[n], n);
    ghost var now: seq<Node>, next: nat := h[..], n + 1;
    forall q | 0 <= q < RANKS - 1 ensures Bucket(now, count, q, next) {
      BucketNext(was, now, count, q, n, at);
    }
  }

  /** PBC_HUF_sort. */
  method Sort(count: seq<nat>) returns (huffNode: array<Node>)
    requires Small(count)
    ensures fresh(huffNode) && huffNode.Length == |count| && Ranked(huffNode[..], count)
  {
    hide From, InRank, Rank, Bucket, Buckets, Ranked;
    huffNode := new Node[|count|](_ => Node(0, 0));
    var base := new nat[RANKS];
    CountRanks(count, base);
    ghost var starts: seq<nat> := base[..];
    var current := new nat[RANKS](r requires 0 <= r < RANKS reads base => if r < base.Length then base[r] else 0);
    EmptyBuckets(huffNode[..], count);
    NoneYet(count);
    var n: nat := 0;
    while n < |count|
      invariant n <= |count| && Buckets(huffNode[..], count, n) && Next(current[..], count, n) && base[..] == starts
      modifies huffNode, current
    {
      var c := count[n];
      var r := Rank(c) + 1;
      ghost var places: seq<nat> := current[..];
      NextPlace(places, count, n);
      Place(huffNode, count, n, base[r], current[r]);
      current[r] := current[r] + 1;
      assert current[..] == places[r := (places[r] + 1) as nat];
      n := n + 1;
    }
    BucketsRanked(huffNode[..], count);
  }

  lemma {:induction false} EmptyBuckets(h: seq<Node>, count: seq<nat>)
    requires |h| == |count| && Small(count)
    ensures Buckets(h, count, 0)
  {
    hide From;
    forall r | 0 <= r < RANKS - 1 ensures Bucket(h, count, r, 0) { FromAtMost(count, r + 1); }
  }

  lemma {:induction false} FromAtMost(count: seq<nat>, r: nat)
    requires Small(count)
    ensures From(count, r) <= |count|
  {
    hide From;
    FromAll(count);
    FromFalls(count, 0, r);
  }

  lemma {:induction false} BucketSorted(h: seq<Node>, count: seq<nat>, r: nat, n: nat)
    requires n <= |count| && Bucket(h, count, r, n)
    ensures From(count, r + 1) + InRank(count, r, n) <= |h|
    ensures Descending(h, From(count, r + 1), From(count, r + 1) + InRank(count, r, n))
    ensures forall k :: From(count, r + 1) <= k < From(count, r + 1) + InRank(count, r, n) ==> h[k].symbol < n
  {}
}
