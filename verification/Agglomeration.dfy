/** The merge loop of the trainer over its table of nearest neighbours. The alignment is any pair of
    functions, one that merges two patterns and one that reports the cost of a merge under a threshold. */
module Agglomeration {
  import opened Bytes
  import opened Clusters

  const NONE: int := -1

  /** Cost of a merge of two patterns with their numbers of records, under a threshold: it may be anything
      not below the threshold when the search was given up. */
  type Cost<!P> = (P, nat, P, nat, int) -> int

  // ---------------------------------------------------------------- what a recorded value means

  /** `v` has been reported for the merge, under a threshold above it. */
  ghost predicate Reported<P>(cost: Cost<P>, p: P, m: nat, q: P, n: nat, v: int) {
    exists th :: v < th <= INT_MAX && cost(p, m, q, n, th) == v
  }

  /** Under some threshold not below `v` nothing smaller than `v` has been reported. */
  ghost predicate NotBelow<P>(cost: Cost<P>, p: P, m: nat, q: P, n: nat, v: int) {
    exists th :: v <= th <= INT_MAX && v <= cost(p, m, q, n, th)
  }

  /** min_value_key. */
  datatype Nearest = Nearest(value: int, key: int)

  /** All clusters: who has been merged into whom, the patterns, and the numbers of records. */
  datatype State<P> = State(ids: seq<nat>, patterns: seq<P>, sizes: seq<nat>)

  ghost predicate Shaped<P>(s: State<P>) { |s.ids| == |s.patterns| == |s.sizes| }

  predicate Live<P>(s: State<P>, i: int) { 0 <= i < |s.ids| && s.ids[i] == i }

  ghost predicate PairReported<P>(cost: Cost<P>, s: State<P>, i: nat, j: nat, v: int)
    requires Shaped(s) && i < |s.ids| && j < |s.ids|
  {
    Reported(cost, s.patterns[i], s.sizes[i], s.patterns[j], s.sizes[j], v)
  }

  ghost predicate PairNotBelow<P>(cost: Cost<P>, s: State<P>, i: nat, j: nat, v: int)
    requires Shaped(s) && i < |s.ids| && j < |s.ids|
  {
    NotBelow(cost, s.patterns[i], s.sizes[i], s.patterns[j], s.sizes[j], v)
  }

  /** `m` is none, or a live cluster behind `i` with the reported cost of merging the two as they are now. */
  ghost predicate Candidate<P>(cost: Cost<P>, s: State<P>, i: nat, m: Nearest)
    requires Shaped(s) && i < |s.ids|
  {
    m == Nearest(INT_MAX, NONE) || (m.value < INT_MAX && i < m.key && Live(s, m.key) && PairReported(cost, s, i, m.key, m.value))
  }

  /** No live cluster behind `i` but perhaps `skip` has been reported to be cheaper. */
  ghost predicate NoneCheaper<P>(cost: Cost<P>, s: State<P>, i: nat, v: int, skip: int)
    requires Shaped(s) && i < |s.ids|
  {
    forall j :: i < j < |s.ids| && Live(s, j) && j != skip ==> PairNotBelow(cost, s, i, j, v)
  }

  /** The entry of `i` in the table of nearest neighbours is up to date. */
  ghost predicate UpToDate<P>(cost: Cost<P>, s: State<P>, i: nat, m: Nearest)
    requires Shaped(s) && i < |s.ids|
  {
    Candidate(cost, s, i, m) && NoneCheaper(cost, s, i, m.value, NONE)
  }

  function Merged<P>(merge: (P, nat, P, nat) -> P, s: State<P>, a: nat, b: nat): State<P>
    requires Shaped(s) && a < |s.ids| && b < |s.ids|
  {
    State(s.ids[b := a], s.patterns[a := merge(s.patterns[a], s.sizes[a], s.patterns[b], s.sizes[b])], s.sizes[a := s.sizes[a] + s.sizes[b]])
  }

  /** A merge of `b` into `a` leaves the entries that name neither in force, except for the new `a`. */
  lemma {:induction false} StillUpToDate<P>(cost: Cost<P>, merge: (P, nat, P, nat) -> P, s: State<P>, a: nat, b: nat, i: nat, m: Nearest)
    requires Shaped(s) && a < b < |s.ids| && Live(s, a) && Live(s, b) && i != a && i != b && Live(s, i) && UpToDate(cost, s, i, m)
    ensures m.key != a && m.key != b ==> Candidate(cost, Merged(merge, s, a, b), i, m)
    ensures NoneCheaper(cost, Merged(merge, s, a, b), i, m.value, a)
  {
    hide Reported, NotBelow;
    var s' := Merged(merge, s, a, b);
    forall j | i < j < |s.ids| && Live(s', j) && j != a ensures PairNotBelow(cost, s', i, j, m.value) {
      assert Live(s, j) && PairNotBelow(cost, s, i, j, m.value);
    }
  }

  lemma {:induction false} MergedLive<P>(merge: (P, nat, P, nat) -> P, s: State<P>, a: nat, b: nat, k: nat)
    requires Shaped(s) && a < b < |s.ids| && Live(s, a) && k < |s.ids|
    ensures |Merged(merge, s, a, b).ids| == |s.ids| && (Live(Merged(merge, s, a, b), k) <==> k != b && Live(s, k))
  {}

  lemma {:induction false} KeyIsBehind<P>(cost: Cost<P>, s: State<P>, i: nat, m: Nearest)
    requires Shaped(s) && i < |s.ids| && UpToDate(cost, s, i, m)
    ensures m.key == NONE || m.key > i
  {}

  // ---------------------------------------------------------------- the closest pair

  /** Among all pairs of live clusters none is cheaper than `a` and `b`, as far as costs are reported, and none that begins before `a`
      is as cheap. */
  ghost predicate Closest<P>(cost: Cost<P>, s: State<P>, a: nat, b: nat, v: int)
    requires Shaped(s)
  {
    && a < b && Live(s, a) && Live(s, b) && PairReported(cost, s, a, b, v)
    && forall i, j :: 0 <= i < j < |s.ids| && Live(s, i) && Live(s, j) ==> PairNotBelow(cost, s, i, j, if i < a then v + 1 else v)
  }

  /** Whatever is not below a value is not below a smaller one. */
  lemma {:induction false} NotBelowLess<P>(cost: Cost<P>, s: State<P>, i: nat, j: nat, v: int, w: int)
    requires Shaped(s) && i < |s.ids| && j < |s.ids| && PairNotBelow(cost, s, i, j, w) && v <= w
    ensures PairNotBelow(cost, s, i, j, v)
  {}

  /** The first smallest entry names a closest pair. */
  lemma {:induction false} PairIsClosest<P>(cost: Cost<P>, s: State<P>, a: nat, b: nat, v: int, nearest: seq<Nearest>)
    requires Shaped(s) && |nearest| == |s.ids| && a < |s.ids| - 1 && Live(s, a) && nearest[a] == Nearest(v, b) && v < INT_MAX
    requires forall i :: 0 <= i < |s.ids| - 1 && Live(s, i) ==> UpToDate(cost, s, i, nearest[i]) && nearest[i].value >= if i < a then v + 1 else v
    ensures Closest(cost, s, a, b, v)
  {
    hide Reported, NotBelow;
    forall i, j | 0 <= i < j < |s.ids| && Live(s, i) && Live(s, j) ensures PairNotBelow(cost, s, i, j, if i < a then v + 1 else v) {
      NotBelowLess(cost, s, i, j, if i < a then v + 1 else v, nearest[i].value);
    }
  }

  lemma {:induction false} CloseIsLive<P>(cost: Cost<P>, s: State<P>, a: nat, b: nat, v: int)
    requires Shaped(s) && Closest(cost, s, a, b, v)
    ensures a < b < |s.ids| && Live(s, a) && Live(s, b)
  {}

  /** Each state comes from the one before by merging a closest pair. */
  ghost predicate GreedyRun<P(!new)>(cost: Cost<P>, merge: (P, nat, P, nat) -> P, run: seq<State<P>>) {
    && run != []
    && forall k :: 0 <= k < |run| - 1 ==> Greedy(cost, merge, run[k], run[k + 1])
  }

  ghost predicate Greedy<P(!new)>(cost: Cost<P>, merge: (P, nat, P, nat) -> P, s: State<P>, s': State<P>) {
    Shaped(s) && exists a: nat, b: nat, v :: Closest(cost, s, a, b, v) && s' == Merged(merge, s, a, b)
  }

  /** The pair merged in a step. */
  lemma {:induction false} GreedyPair<P(!new)>(cost: Cost<P>, merge: (P, nat, P, nat) -> P, s: State<P>, s': State<P>)
    returns (a: nat, b: nat, v: int)
    requires Greedy(cost, merge, s, s')
    ensures Shaped(s) && Closest(cost, s, a, b, v) && a < b < |s.ids| && Live(s, a) && Live(s, b) && s' == Merged(merge, s, a, b)
    ensures Reported(cost, s.patterns[a], s.sizes[a], s.patterns[b], s.sizes[b], v)
  {
    a, b, v :| Closest(cost, s, a, b, v) && s' == Merged(merge, s, a, b);
  }

  lemma {:induction false} GreedyStep<P(!new)>(cost: Cost<P>, merge: (P, nat, P, nat) -> P, run: seq<State<P>>, s: State<P>, a: nat, b: nat, v: int)
    requires GreedyRun(cost, merge, run) && Shaped(run[|run| - 1]) && Closest(cost, run[|run| - 1], a, b, v)
    requires a < |run[|run| - 1].ids| && b < |run[|run| - 1].ids| && s == Merged(merge, run[|run| - 1], a, b)
    ensures GreedyRun(cost, merge, run + [s])
  {
    hide Closest, Merged;
  }

  /** No cost below the largest threshold is reported for a pair. */
  ghost predicate Hopeless<P>(cost: Cost<P>, s: State<P>, i: nat, j: nat)
    requires Shaped(s) && i < |s.ids| && j < |s.ids|
  {
    cost(s.patterns[i], s.sizes[i], s.patterns[j], s.sizes[j], INT_MAX) >= INT_MAX
  }

  lemma {:induction false} EmptyIsHopeless<P>(cost: Cost<P>, s: State<P>, i: nat, j: nat)
    requires Shaped(s) && i < j < |s.ids| && Live(s, j) && UpToDate(cost, s, i, Nearest(INT_MAX, NONE))
    ensures Hopeless(cost, s, i, j)
  {
    assert PairNotBelow(cost, s, i, j, INT_MAX);
  }

  // ---------------------------------------------------------------- what the patterns are for

  /** Every record fits the pattern of the cluster it is in. */
  ghost predicate AllFit<P>(fits: (P, nat) -> bool, ids: seq<nat>, patterns: seq<P>)
    requires Downward(ids) && |ids| == |patterns|
  {
    forall i {:trigger Root(ids, i)} :: 0 <= i < |ids| ==> fits(patterns[Root(ids, i)], i)
  }

  /** The state of a trainer whose patterns fit their records. */
  ghost predicate Kept<P>(fits: (P, nat) -> bool, s: State<P>) {
    Shaped(s) && Downward(s.ids) && AllFit(fits, s.ids, s.patterns)
  }

  /** A merged pattern fits whatever fits one of the two, if each of them fits anything at all. */
  ghost predicate Generalises<P(!new)>(fits: (P, nat) -> bool, merge: (P, nat, P, nat) -> P) {
    forall p, m, q, n, x, y {:trigger fits(p, x), fits(q, y), merge(p, m, q, n)} ::
      fits(p, x) && fits(q, y) ==> fits(merge(p, m, q, n), x) && fits(merge(p, m, q, n), y)
  }

  /** The same for two patterns that are merged. */
  ghost predicate GeneralisesBoth<P(!new)>(fits: (P, nat) -> bool, p: P, q: P, merged: P) {
    forall x, y {:trigger fits(p, x), fits(q, y)} :: fits(p, x) && fits(q, y) ==> fits(merged, x) && fits(merged, y)
  }

  /** The records of `b` move to the merged pattern of `a`. */
  lemma {:induction false} FitsAfterMerge<P(!new)>(fits: (P, nat) -> bool, merge: (P, nat, P, nat) -> P, s: State<P>, a: nat, b: nat)
    requires Shaped(s) && Downward(s.ids) && a < b < |s.ids| && Live(s, a) && Live(s, b)
    requires GeneralisesBoth(fits, s.patterns[a], s.patterns[b], merge(s.patterns[a], s.sizes[a], s.patterns[b], s.sizes[b]))
    requires AllFit(fits, s.ids, s.patterns)
    ensures Downward(s.ids[b := a]) && AllFit(fits, s.ids[b := a], Merged(merge, s, a, b).patterns)
  {
    assert Root(s.ids, a) == a && Root(s.ids, b) == b;
    hide Root;
    var ids, patterns := s.ids[b := a], Merged(merge, s, a, b).patterns;
    var p := merge(s.patterns[a], s.sizes[a], s.patterns[b], s.sizes[b]);
    RootAfter(s.ids, a, b, a);
    forall i | 0 <= i < |ids| ensures fits(patterns[Root(ids, i)], i) {
      RootAfter(s.ids, a, b, i);
      assert fits(s.patterns[Root(s.ids, i)], i);
    }
  }

  // ---------------------------------------------------------------- the trainer's table

  class Trainer<P(!new)> {
    const total: nat
    const cost: Cost<P>
    const merge: (P, nat, P, nat) -> P
    const clusterId: array<nat>
    const recordNum: array<nat>
    const nearest: array<Nearest>
    var pattern: seq<P>
    /** How often each of the distinct records occurs, and which patterns fit which record. */
    ghost const counts: seq<nat>
    ghost const fits: (P, nat) -> bool

    ghost function Now(): (s: State<P>)
      reads this, clusterId, recordNum
    {
      State(clusterId[..], pattern, recordNum[..])
    }

    ghost predicate Allocated()
      reads this, clusterId, recordNum
    {
      && clusterId != recordNum && clusterId.Length == recordNum.Length == nearest.Length == total
      && |pattern| == |counts| == total
    }

    /** The bookkeeping: sizes count members, and every record fits its cluster's pattern. */
    ghost predicate Booked()
      requires Allocated()
      reads this, clusterId, recordNum
    {
      && Downward(clusterId[..]) && Sized(clusterId[..], counts, recordNum[..])
      && AllFit(fits, clusterId[..], pattern)
    }

    /** The invariant of the merge loop. */
    ghost predicate Valid()
      reads this, clusterId, recordNum, nearest
    {
      && Allocated() && Booked()
      && forall i :: 0 <= i < total - 1 && Live(Now(), i) ==> UpToDate(cost, Now(), i, nearest[i])
    }

    /** GetMinValue: a cheapest of the live clusters behind `id`, the first of equal ones. */
    method GetMinValue(id: nat, skipMerged: bool) returns (result: Nearest)
      requires Allocated() && id < total && (!skipMerged ==> forall j :: 0 <= j < total ==> clusterId[j] == j)
      ensures UpToDate(cost, Now(), id, result)
      ensures forall j :: id < j < result.key && Live(Now(), j) ==> PairNotBelow(cost, Now(), id, j, result.value + 1)
    {
      result := Nearest(INT_MAX, NONE);
      var minValue := INT_MAX;
      var j := id + 1;
      while j < total
        invariant id < j <= total && minValue == result.value && Candidate(cost, Now(), id, result) && result.key < j
        invariant forall k :: id < k < j && Live(Now(), k) ==> PairNotBelow(cost, Now(), id, k, minValue)
        invariant forall k :: id < k < result.key && Live(Now(), k) ==> PairNotBelow(cost, Now(), id, k, minValue + 1)
      {
        if !(skipMerged && clusterId[j] != j) {
          var value := cost(pattern[id], recordNum[id], pattern[j], recordNum[j], minValue);
          if value < minValue {
            result := Nearest(value, j);
            minValue := value;
          }
        }
        j := j + 1;
      }
    }

    /** ComputeTotalMinValueTable: the neighbours of all clusters, none of which has been merged yet. */
    method ComputeTotalMinValueTable()
      requires Allocated() && forall k :: 0 <= k < total ==> clusterId[k] == k
      modifies nearest
      ensures forall k :: 0 <= k < total - 1 ==> UpToDate(cost, Now(), k, nearest[k])
    {
      hide UpToDate;
      var i: nat := 0;
      while i + 1 < total
        invariant forall k :: 0 <= k < i && k < total - 1 ==> UpToDate(cost, Now(), k, nearest[k])
      {
        nearest[i] := GetMinValue(i, false);
        i := i + 1;
      }
    }

    /** Every record is its own cluster, and the table of nearest neighbours is computed. */
    constructor (records: seq<P>, counts: seq<nat>, cost: Cost<P>, merge: (P, nat, P, nat) -> P, ghost fits: (P, nat) -> bool)
      requires |records| == |counts| && forall i :: 0 <= i < |records| ==> fits(records[i], i)
      ensures Valid() && this.counts == counts && this.cost == cost && this.merge == merge && this.fits == fits
      ensures fresh(clusterId) && fresh(recordNum) && fresh(nearest)
      ensures total == |records| && LiveCount(clusterId[..], total) == total
      ensures pattern == records && forall i :: 0 <= i < total ==> clusterId[i] == i
    {
      var n := |records|;
      total := n;
      this.cost, this.merge, this.counts, this.fits := cost, merge, counts, fits;
      pattern := records;
      clusterId := new nat[n](i => i);
      recordNum := new nat[n](i requires 0 <= i < n => counts[i]);
      nearest := new Nearest[n](_ => Nearest(INT_MAX, NONE));
      new;
      hide LiveCount, Members, UpToDate;
      assert recordNum[..] == counts;
      ghost var ids: seq<nat> := clusterId[..];
      Separate(ids, counts);
      forall k | 0 <= k < n ensures Root(ids, k) == k {}
      ComputeTotalMinValueTable();
      assert clusterId[..] == ids && recordNum[..] == counts;
    }

    /** GetClosestCluster: no two live clusters are closer than the pair it finds; it finds none if and only if no
        live cluster has a neighbour. */
    method GetClosestCluster() returns (a: int, b: int)
      requires Valid()
      ensures a == NONE <==> forall i :: 0 <= i < total - 1 && Live(Now(), i) ==> nearest[i] == Nearest(INT_MAX, NONE)
      ensures a != NONE ==> 0 <= a < b < total && b == nearest[a].key && Closest(cost, Now(), a, b, nearest[a].value)
      ensures a != NONE ==> forall i :: 0 <= i < total - 1 && Live(Now(), i) ==>
        if i < a then nearest[i].value > nearest[a].value else nearest[i].value >= nearest[a].value
    {
      hide NoneCheaper, PairReported, Closest;
      a, b := NONE, NONE;
      var cur := INT_MAX;
      var i: nat := 0;
      while i + 1 < total
        invariant i <= total
        invariant a == NONE ==> cur == INT_MAX
        invariant a != NONE ==> 0 <= a < i && Live(Now(), a) && nearest[a] == Nearest(cur, b) && cur < INT_MAX && Candidate(cost, Now(), a, nearest[a])
        invariant forall k :: 0 <= k < i && k < total - 1 && Live(Now(), k) ==> cur <= nearest[k].value && UpToDate(cost, Now(), k, nearest[k])
        invariant forall k :: 0 <= k < a && Live(Now(), k) ==> cur < nearest[k].value
      {
        if clusterId[i] == i && nearest[i].value < cur {
          a, b, cur := i, nearest[i].key, nearest[i].value;
        }
        i := i + 1;
      }
      if a != NONE { PairIsClosest(cost, Now(), a, b, cur, nearest[..]); }
    }

    /** UpdateMinValueTable, after cluster `b` has gone into `a`. */
    method UpdateMinValueTable(id: nat, a: nat, b: nat)
      requires Allocated() && id < total - 1 && a < b < total && Live(Now(), a) && id != a
      requires nearest[id].key != a && nearest[id].key != b ==> Candidate(cost, Now(), id, nearest[id])
      requires NoneCheaper(cost, Now(), id, nearest[id].value, a)
      modifies nearest
      ensures UpToDate(cost, Now(), id, nearest[id])
      ensures old(nearest[id].key) != a && old(nearest[id].key) != b ==>
        nearest[id] == old(nearest[id]) || (nearest[id].key == a && nearest[id].value < old(nearest[id].value))
      ensures forall i :: 0 <= i < total && i != id ==> nearest[i] == old(nearest[i])
    {
      if nearest[id].key == a || nearest[id].key == b {
        nearest[id] := GetMinValue(id, true);
      } else if id < a {
        var value := cost(pattern[id], recordNum[id], pattern[a], recordNum[a], nearest[id].value);
        if value < nearest[id].value {
          nearest[id] := Nearest(value, a);
        }
      }
    }

    /** All clusters before `b` look for their nearest neighbour again if they need to. */
    method UpdateNeighbours(a: nat, b: nat)
      requires Allocated() && a < b < total && Live(Now(), a) && !Live(Now(), b)
      requires forall k :: 0 <= k < total - 1 && k != a && Live(Now(), k) ==>
        && (nearest[k].key != a && nearest[k].key != b ==> Candidate(cost, Now(), k, nearest[k]))
        && NoneCheaper(cost, Now(), k, nearest[k].value, a)
      requires forall k :: b < k < total - 1 && Live(Now(), k) ==> Candidate(cost, Now(), k, nearest[k])
      modifies nearest
      ensures forall k :: 0 <= k < total - 1 && k != a && Live(Now(), k) ==> UpToDate(cost, Now(), k, nearest[k])
    {
      hide PairNotBelow, PairReported;
      var i: nat := 0;
      while i < b
        invariant i <= b
        invariant forall k :: 0 <= k < i && k != a && Live(Now(), k) ==> UpToDate(cost, Now(), k, nearest[k])
        invariant forall k :: i <= k < total - 1 && k != a ==> nearest[k] == old(nearest[k])
      {
        if clusterId[i] == i && i != a {
          UpdateMinValueTable(i, a, b);
        }
        i := i + 1;
      }
    }

    /** The merge itself: `b` goes into `a`. */
    method Absorb(a: nat, b: nat)
      requires Valid() && Generalises(fits, merge) && a < b < total && Live(Now(), a) && Live(Now(), b)
      modifies this`pattern, clusterId, recordNum
      ensures Allocated() && Booked() && Now() == Merged(merge, old(Now()), a, b)
      ensures LiveCount(clusterId[..], total) == LiveCount(old(clusterId[..]), total) - 1
      ensures forall i :: 0 <= i < total ==> Root(clusterId[..], i) == if Root(old(clusterId[..]), i) == b then a else Root(old(clusterId[..]), i)
    {
      hide Root, Members, LiveCount, UpToDate, Sized, AllFit;
      ghost var was := Now();
      AfterMerge(was.ids, counts, was.sizes, a, b);
      var merged := merge(pattern[a], recordNum[a], pattern[b], recordNum[b]);
      assert GeneralisesBoth(fits, pattern[a], pattern[b], merged);
      FitsAfterMerge(fits, merge, was, a, b);
      clusterId[b] := a;
      pattern := pattern[a := merged];
      recordNum[a] := recordNum[a] + recordNum[b];
      assert Now() == Merged(merge, was, a, b);
    }

    /** One iteration of the merge loop, for a pair of live clusters. */
    method MergeStep(a: nat, b: nat)
      requires Valid() && Generalises(fits, merge) && a < b < total && Live(Now(), a) && Live(Now(), b)
      modifies this`pattern, clusterId, recordNum, nearest
      ensures Valid() && Now() == Merged(merge, old(Now()), a, b)
      ensures LiveCount(clusterId[..], total) == LiveCount(old(clusterId[..]), total) - 1
      ensures forall i :: 0 <= i < total ==> Root(clusterId[..], i) == if Root(old(clusterId[..]), i) == b then a else Root(old(clusterId[..]), i)
    {
      hide Root, LiveCount, UpToDate, Candidate, NoneCheaper, Booked, Merged;
      ghost var was := Now();
      Absorb(a, b);
      ghost var now := Now();
      forall k | 0 <= k < total - 1 && k != a && Live(now, k)
        ensures nearest[k].key != a && nearest[k].key != b ==> Candidate(cost, now, k, nearest[k])
        ensures NoneCheaper(cost, now, k, nearest[k].value, a)
        ensures b < k ==> Candidate(cost, now, k, nearest[k])
      {
        MergedLive(merge, was, a, b, k);
        StillUpToDate(cost, merge, was, a, b, k, nearest[k]);
        KeyIsBehind(cost, was, k, nearest[k]);
      }
      MergedLive(merge, was, a, b, a);
      MergedLive(merge, was, a, b, b);
      UpdateNeighbours(a, b);
      nearest[a] := GetMinValue(a, true);
      assert Now() == now;
    }

    /** The merge loop of TrainPattern, down to `k` clusters; every step merges a closest pair. `stuck` tells that
        no pair could be found any more, which the loop does not test for: no pair of clusters was left, or none with a
        cost below the largest threshold. */
    method Merge(k: nat) returns (stuck: bool, ghost run: seq<State<P>>)
      requires Valid() && Generalises(fits, merge) && LiveCount(clusterId[..], total) == total
      modifies this`pattern, clusterId, recordNum, nearest
      ensures Valid() && GreedyRun(cost, merge, run) && run[0] == old(Now()) && run[|run| - 1] == Now()
      ensures forall l :: 0 <= l < |run| ==> Kept(fits, run[l]) && |run[l].ids| == total
      ensures LiveSum(clusterId[..], recordNum[..], total) == Total(counts, total)
      ensures LiveCount(clusterId[..], total) + |run| - 1 == total
      ensures !stuck ==> LiveCount(clusterId[..], total) == if total <= k then total else k
      ensures stuck ==> LiveCount(clusterId[..], total) > k
      ensures stuck ==> forall i, j :: 0 <= i < j < total && Live(Now(), i) && Live(Now(), j) ==> Hopeless(cost, Now(), i, j)
    {
      hide Members, LiveCount, LiveSum, Root, Total, UpToDate, AllFit, Closest, Merged, Sized, Hopeless;
      var endNum := total;
      run := [Now()];
      stuck := false;
      while endNum > k
        invariant Valid() && LiveCount(clusterId[..], total) == endNum <= total
        invariant if total <= k then endNum == total else endNum >= k
        invariant GreedyRun(cost, merge, run) && run[0] == old(Now()) && run[|run| - 1] == Now() && endNum + |run| - 1 == total
        invariant forall l :: 0 <= l < |run| ==> Kept(fits, run[l]) && |run[l].ids| == total
        decreases endNum
      {
        var a, b := GetClosestCluster();
        if a == NONE {
          stuck := true;
          forall i, j | 0 <= i < j < total && Live(Now(), i) && Live(Now(), j) ensures Hopeless(cost, Now(), i, j) {
            EmptyIsHopeless(cost, Now(), i, j);
          }
          break;
        }
        CloseIsLive(cost, Now(), a, b, nearest[a].value);
        ghost var was := Now();
        ghost var value := nearest[a].value;
        MergeStep(a, b);
        GreedyStep(cost, merge, run, Now(), a, b, value);
        run := run + [Now()];
        endNum := endNum - 1;
      }
      MembersTotal(clusterId[..], counts, recordNum[..]);
    }
  }
}
