/** Clusters as the trainer numbers them: a merged cluster points to the one it went into. */
module Clusters {

  /** Merged clusters point to the cluster they went into, which has a smaller number. */
  ghost predicate Downward(ids: seq<nat>) { forall i :: 0 <= i < |ids| ==> ids[i] <= i }

  /** The cluster that record `i` has ended up in. */
  function Root(ids: seq<nat>, i: nat): (r: nat)
    requires Downward(ids) && i < |ids|
    ensures r <= i && ids[r] == r
    decreases i
  {
    if ids[i] == i then i else Root(ids, ids[i])
  }

  /** How often the first `n` records occur. */
  function Total(counts: seq<nat>, n: nat): nat
    requires n <= |counts|
  {
    if n == 0 then 0 else Total(counts, n - 1) + counts[n - 1]
  }

  /** How often those among the first `n` records occur that are in cluster `r`. */
  function Members(ids: seq<nat>, counts: seq<nat>, r: nat, n: nat): nat
    requires Downward(ids) && n <= |ids| == |counts|
  {
    if n == 0 then 0 else Members(ids, counts, r, n - 1) + if Root(ids, n - 1) == r then counts[n - 1] else 0
  }

  function LiveCount(ids: seq<nat>, n: nat): (k: nat)
    requires n <= |ids|
    ensures k <= n
  {
    if n == 0 then 0 else LiveCount(ids, n - 1) + if ids[n - 1] == n - 1 then 1 else 0
  }

  /** Sizes of the live clusters among the first `n`. */
  function LiveSum(ids: seq<nat>, sizes: seq<nat>, n: nat): nat
    requires n <= |ids| && n <= |sizes|
  {
    if n == 0 then 0 else LiveSum(ids, sizes, n - 1) + if ids[n - 1] == n - 1 then sizes[n - 1] else 0
  }

  /** Live clusters are as large as their members are many. */
  ghost predicate Sized(ids: seq<nat>, counts: seq<nat>, sizes: seq<nat>)
    requires Downward(ids) && |ids| == |counts| == |sizes|
  {
    forall i :: 0 <= i < |ids| && ids[i] == i ==> sizes[i] == Members(ids, counts, i, |ids|)
  }

  // ---------------------------------------------------------------- merging two clusters

  /** Merging cluster `b` into `a` moves exactly the records of `b`. */
  lemma {:induction false} RootAfter(ids: seq<nat>, a: nat, b: nat, i: nat)
    requires Downward(ids) && a < b < |ids| && i < |ids| && ids[a] == a && ids[b] == b
    ensures Downward(ids[b := a])
    ensures Root(ids[b := a], i) == if Root(ids, i) == b then a else Root(ids, i)
    decreases i
  {
    if ids[i] != i { RootAfter(ids, a, b, ids[i]); }
  }

  lemma {:induction false} MembersAfter(ids: seq<nat>, counts: seq<nat>, a: nat, b: nat, r: nat, n: nat)
    requires Downward(ids) && a < b < |ids| == |counts| && n <= |ids| && ids[a] == a && ids[b] == b
    ensures Downward(ids[b := a])
    ensures Members(ids[b := a], counts, r, n)
         == if r == b then 0 else Members(ids, counts, r, n) + if r == a then Members(ids, counts, b, n) else 0
  {
    hide Root;
    RootAfter(ids, a, b, 0);
    if n > 0 {
      MembersAfter(ids, counts, a, b, r, n - 1);
      RootAfter(ids, a, b, n - 1);
    }
  }

  lemma {:induction false} LiveAfter(ids: seq<nat>, a: nat, b: nat, n: nat)
    requires a < b < |ids| && n <= |ids| && ids[b] == b
    ensures LiveCount(ids[b := a], n) == LiveCount(ids, n) - if b < n then 1 else 0
    ensures b < n ==> LiveCount(ids, n) >= 1
  {
    if n > 0 { LiveAfter(ids, a, b, n - 1); }
  }

  /** One cluster less, its members added to the other's. */
  lemma {:induction false} AfterMerge(ids: seq<nat>, counts: seq<nat>, sizes: seq<nat>, a: nat, b: nat)
    requires Downward(ids) && |ids| == |counts| == |sizes| && a < b < |ids| && ids[a] == a && ids[b] == b
    requires Sized(ids, counts, sizes)
    ensures Downward(ids[b := a]) && Sized(ids[b := a], counts, sizes[a := sizes[a] + sizes[b]])
    ensures LiveCount(ids[b := a], |ids|) == LiveCount(ids, |ids|) - 1
    ensures forall i :: 0 <= i < |ids| ==> Root(ids[b := a], i) == if Root(ids, i) == b then a else Root(ids, i)
  {
    hide Root, Members, LiveCount;
    LiveAfter(ids, a, b, |ids|);
    forall i | 0 <= i < |ids| ensures Downward(ids[b := a]) && Root(ids[b := a], i) == if Root(ids, i) == b then a else Root(ids, i) {
      RootAfter(ids, a, b, i);
    }
    forall i | 0 <= i < |ids|
      ensures Downward(ids[b := a])
      ensures Members(ids[b := a], counts, i, |ids|)
           == if i == b then 0 else Members(ids, counts, i, |ids|) + if i == a then Members(ids, counts, b, |ids|) else 0
    {
      MembersAfter(ids, counts, a, b, i, |ids|);
    }
  }

  /** Before the first merge. */
  lemma {:induction false} Separate(ids: seq<nat>, counts: seq<nat>)
    requires |ids| == |counts| && forall i :: 0 <= i < |ids| ==> ids[i] == i
    ensures Downward(ids) && Sized(ids, counts, counts) && LiveCount(ids, |ids|) == |ids|
  {
    hide LiveCount, Members;
    AllLive(ids, |ids|);
    forall i | 0 <= i < |ids| ensures Members(ids, counts, i, |ids|) == counts[i] { OwnMember(ids, counts, i, |ids|); }
  }

  lemma {:induction false} OwnMember(ids: seq<nat>, counts: seq<nat>, r: nat, n: nat)
    requires Downward(ids) && n <= |ids| == |counts| && r < |ids| && forall i :: 0 <= i < |ids| ==> ids[i] == i
    ensures Members(ids, counts, r, n) == if r < n then counts[r] else 0
  {
    if n > 0 { OwnMember(ids, counts, r, n - 1); }
  }

  lemma {:induction false} AllLive(ids: seq<nat>, n: nat)
    requires n <= |ids| && forall i :: 0 <= i < n ==> ids[i] == i
    ensures LiveCount(ids, n) == n
  {
    if n > 0 { AllLive(ids, n - 1); }
  }

  // ---------------------------------------------------------------- no record is lost

  /** The live clusters' sizes add up to all records. */
  lemma {:induction false} MembersTotal(ids: seq<nat>, counts: seq<nat>, sizes: seq<nat>)
    requires Downward(ids) && |ids| == |counts| == |sizes| && Sized(ids, counts, sizes)
    ensures LiveSum(ids, sizes, |ids|) == Total(counts, |ids|)
  {
    hide Members;
    SumOfMembers(ids, counts, |ids|, |ids|);
    SameSums(ids, counts, sizes, |ids|);
  }

  /** Members of all roots below `n`, counted over the first `m` records. */
  function RootSum(ids: seq<nat>, counts: seq<nat>, n: nat, m: nat): nat
    requires Downward(ids) && n <= |ids| == |counts| && m <= |ids|
  {
    if n == 0 then 0 else RootSum(ids, counts, n - 1, m) + if ids[n - 1] == n - 1 then Members(ids, counts, n - 1, m) else 0
  }

  lemma {:induction false} SameSums(ids: seq<nat>, counts: seq<nat>, sizes: seq<nat>, n: nat)
    requires Downward(ids) && |ids| == |counts| == |sizes| && n <= |ids| && Sized(ids, counts, sizes)
    ensures LiveSum(ids, sizes, n) == RootSum(ids, counts, n, |ids|)
  {
    hide Members;
    if n > 0 { SameSums(ids, counts, sizes, n - 1); }
  }

  /** One more record is in one more root. */
  lemma {:induction false} OneMoreRecord(ids: seq<nat>, counts: seq<nat>, n: nat, m: nat)
    requires Downward(ids) && n <= |ids| == |counts| && m < |ids|
    ensures RootSum(ids, counts, n, m + 1) == RootSum(ids, counts, n, m) + if Root(ids, m) < n then counts[m] else 0
  {
    hide Root;
    if n > 0 { OneMoreRecord(ids, counts, n - 1, m); }
  }

  lemma {:induction false} SumOfMembers(ids: seq<nat>, counts: seq<nat>, n: nat, m: nat)
    requires Downward(ids) && m <= n == |ids| == |counts|
    ensures RootSum(ids, counts, n, m) == Total(counts, m)
    decreases m
  {
    hide Root;
    if m == 0 {
      NoRecords(ids, counts, n);
    } else {
      SumOfMembers(ids, counts, n, m - 1);
      OneMoreRecord(ids, counts, n, m - 1);
    }
  }

  lemma {:induction false} NoRecords(ids: seq<nat>, counts: seq<nat>, n: nat)
    requires Downward(ids) && n <= |ids| == |counts|
    ensures RootSum(ids, counts, n, 0) == 0
  {
    if n > 0 { NoRecords(ids, counts, n - 1); }
  }

  // ---------------------------------------------------------------- live clusters

  /** There is a cluster as long as there are records. */
  lemma {:induction false} OneLive(ids: seq<nat>, n: nat)
    requires Downward(ids) && 0 < n <= |ids|
    ensures LiveCount(ids, n) >= 1
  {
    if n > 1 { OneLive(ids, n - 1); }
  }

  lemma {:induction false} LiveIsRoot(ids: seq<nat>, i: nat)
    requires Downward(ids) && i < |ids| && ids[i] == i
    ensures Root(ids, i) == i
  {}

  lemma {:induction false} FindLive(ids: seq<nat>, n: nat) returns (i: nat)
    requires n <= |ids| && LiveCount(ids, n) >= 1
    ensures i < n && ids[i] == i && LiveCount(ids, i) == LiveCount(ids, n) - 1
  {
    if ids[n - 1] == n - 1 { i := n - 1; } else { i := FindLive(ids, n - 1); }
  }

  /** No two live clusters have more records than there are. */
  lemma {:induction false} PairAtMost(ids: seq<nat>, sizes: seq<nat>, i: nat, j: nat, n: nat)
    requires i < j < |ids| && ids[i] == i && ids[j] == j && n <= |ids| <= |sizes|
    ensures LiveSum(ids, sizes, n) >= (if i < n then sizes[i] else 0) + if j < n then sizes[j] else 0
  {
    if n > 0 { PairAtMost(ids, sizes, i, j, n - 1); }
  }
}
