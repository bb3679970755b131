/** Counting arguments on finite sets of naturals. */
module Counting {

  ghost function Range(n: nat): set<nat> { if n == 0 then {} else Range(n - 1) + {n - 1} }

  lemma {:induction false} RangeSize(n: nat)
    ensures |Range(n)| == n
    ensures forall u: nat :: u in Range(n) <==> u < n
  {
    if n > 0 {
      RangeSize(n - 1);
      assert n - 1 !in Range(n - 1);
    }
  }

  lemma {:induction false} SubsetSameSize(a: set<nat>, b: set<nat>)
    requires a <= b && |a| == |b|
    ensures a == b
  {
    assert b == a + (b - a);
    assert |b| == |a| + |b - a|;
  }

  lemma {:induction false} SubsetSize(a: set<nat>, b: set<nat>)
    requires a <= b
    ensures |a| <= |b|
  {
    assert b == a + (b - a);
    assert |b| == |a| + |b - a|;
  }

  /** Distinct places, as many as there are: each place is taken. */
  lemma {:induction false} InjectiveOnto(f: seq<nat>, p: nat) returns (i: nat)
    requires forall i :: 0 <= i < |f| ==> f[i] < |f|
    requires forall i, j :: 0 <= i < j < |f| ==> f[i] != f[j]
    requires p < |f|
    ensures i < |f| && f[i] == p
  {
    ImageSize(f, |f|);
    RangeSize(|f|);
    forall q | q in Image(f, |f|) ensures q in Range(|f|) {
      ImageMember(f, |f|, q);
    }
    SubsetSameSize(Image(f, |f|), Range(|f|));
    ImageMember(f, |f|, p);
    i :| 0 <= i < |f| && f[i] == p;
  }

  ghost function Image(f: seq<nat>, n: nat): set<nat>
    requires n <= |f|
  {
    if n == 0 then {} else Image(f, n - 1) + {f[n - 1]}
  }

  lemma {:induction false} ImageMember(f: seq<nat>, n: nat, q: nat)
    requires n <= |f|
    ensures q in Image(f, n) <==> exists i :: 0 <= i < n && f[i] == q
  {
    if n > 0 { ImageMember(f, n - 1, q); }
  }

  lemma {:induction false} ImageSize(f: seq<nat>, n: nat)
    requires n <= |f| && forall i, j :: 0 <= i < j < |f| ==> f[i] != f[j]
    ensures |Image(f, n)| == n
  {
    if n > 0 {
      ImageSize(f, n - 1);
      ImageMember(f, n - 1, f[n - 1]);
    }
  }
}
