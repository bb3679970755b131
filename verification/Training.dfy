/** Training as a whole: unless a merge keeps an escaped star for a wildcard the loop ends with patterns that match the
    records of their clusters, and that can store and restore them. */
module Training {
  import opened Bytes
  import opened Patterns
  import opened PatternMerge
  import opened PatternTrace
  import opened PatternClash
  import opened TrainerCost
  import opened Clusters
  import opened RecordFormat
  import opened RecordDecoding
  import Agglomeration

  /** What MergePattern makes of two clusters' patterns. */
  function MergePatterns(a: Pattern, m: nat, b: Pattern, n: nat): Pattern { MergedPattern(a, b, m, n) }

  function MergeInfos(p: Info, m: nat, q: Info, n: nat): Info { MergedInfo(MergePatterns(p.pattern, m, q.pattern, n)) }

  predicate NoStar(p: Pattern) { Lit(STAR) !in p }

  predicate StarFree(records: seq<Word>) { forall i :: 0 <= i < |records| ==> STAR !in records[i] }

  /** A pattern for record `i`. */
  ghost predicate FitsRecord(records: seq<Word>, p: Pattern, i: nat) {
    i < |records| && NoAdjacentWilds(p) && Matches(p, records[i])
  }

  /** The characters of a pattern have been counted. */
  ghost predicate Sound(p: Info) { p.freq <= 2 * |p.pattern| && (NoEscapes(p.pattern) ==> Counted(p)) }

  ghost predicate InfoFits(records: seq<Word>, p: Info, i: nat) { FitsRecord(records, p.pattern, i) && Sound(p) }

  ghost function Fitting(records: seq<Word>): (Info, nat) -> bool { (p: Info, i: nat) => InfoFits(records, p, i) }

  /** What all patterns have: they are counted, and without stars if the records are. */
  ghost predicate Common(records: seq<Word>, p: Info) { Sound(p) && (StarFree(records) ==> NoStar(p.pattern)) }

  /** MergePattern's string is the stored form of that pattern, which is the one of the alignment unless its path keeps an
      escaped star for a wildcard. */
  lemma {:induction false} MergePatternsIsStored(a: Pattern, m: nat, b: Pattern, n: nat)
    ensures MergeString(a, b, m, n) == Render(MergePatterns(a, m, b, n))
    ensures Clashes(a, b, m, n, |a|, |b|) == 0 ==> MergePatterns(a, m, b, n) == Merged(a, b, m, n, |a|, |b|)
    ensures NoStar(a) ==> Clashes(a, b, m, n, |a|, |b|) == 0
  {
    hide Merged, MergeString, Render, Clashes, MergedPattern;
    if Clashes(a, b, m, n, |a|, |b|) == 0 { MergedWithoutClash(a, b, m, n); }
    if NoStar(a) { NoClashes(a, b, m, n, |a|, |b|); }
  }

  /** Merging keeps literals of the first pattern only. */
  lemma {:induction false} MergedNoStar(a: Pattern, b: Pattern, m: nat, n: nat, i: nat, j: nat)
    requires NoStar(a) && i <= |a| && j <= |b|
    ensures NoStar(Merged(a, b, m, n, i, j))
  {
    hide Entry;
    if i > 0 && j > 0 {
      match Entry(a, b, m, n, i, j).source
      case UpperLeft => MergedNoStar(a, b, m, n, i - 1, j - 1);
      case UpPos => MergedNoStar(a, b, m, n, i, j - 1);
      case _ => MergedNoStar(a, b, m, n, i - 1, j);
    }
  }

  lemma {:induction false} MergedIsSound(merged: Pattern)
    ensures Sound(MergedInfo(merged)) && MergedInfo(merged).pattern == merged
  {
    hide Counted, NoEscapes;
    FreqAtMost(merged);
    if NoEscapes(merged) { MergedIsCounted(merged); }
  }

  lemma {:induction false} MergedIsCommon(records: seq<Word>, p: Info, m: nat, q: Info, n: nat)
    requires Common(records, p)
    ensures Common(records, MergeInfos(p, m, q, n))
  {
    hide Merged, Clashes, MergedInfo, Sound, StarFree, MergePatterns;
    MergedIsSound(MergePatterns(p.pattern, m, q.pattern, n));
    MergePatternsIsStored(p.pattern, m, q.pattern, n);
    if StarFree(records) { MergedNoStar(p.pattern, q.pattern, m, n, |p.pattern|, |q.pattern|); }
  }

  /** A pattern merged from two without a clash fits the records of both. */
  lemma {:induction false} MergedFits(records: seq<Word>, p: Pattern, m: nat, q: Pattern, n: nat, x: nat, y: nat)
    requires FitsRecord(records, p, x) && FitsRecord(records, q, y) && Clashes(p, q, m, n, |p|, |q|) == 0
    ensures FitsRecord(records, MergePatterns(p, m, q, n), x) && FitsRecord(records, MergePatterns(p, m, q, n), y)
  {
    hide Merged, Matches, NoAdjacentWilds, Clashes, MergedPattern;
    assert p[..|p|] == p && q[..|q|] == q;
    MergePatternsIsStored(p, m, q, n);
    MergeNoAdjacentWilds(p, q, m, n, |p|, |q|);
    MergeGeneralises(p, q, m, n, |p|, |q|, records[x]);
    MergeGeneralises(p, q, m, n, |p|, |q|, records[y]);
  }

  lemma {:induction false} MergedInfoFits(records: seq<Word>, p: Info, m: nat, q: Info, n: nat)
    requires Clashes(p.pattern, q.pattern, m, n, |p.pattern|, |q.pattern|) == 0
    ensures Agglomeration.GeneralisesBoth(Fitting(records), p, q, MergeInfos(p, m, q, n))
  {
    hide FitsRecord, Clashes, MergePatterns, MergedInfo, Sound;
    var fits := Fitting(records);
    MergedIsSound(MergePatterns(p.pattern, m, q.pattern, n));
    forall x, y | fits(p, x) && fits(q, y) ensures fits(MergeInfos(p, m, q, n), x) && fits(MergeInfos(p, m, q, n), y) {
      MergedFits(records, p.pattern, m, q.pattern, n, x, y);
    }
  }

  /** The stored form of a record is a pattern for it. */
  lemma {:induction false} RawFits(records: seq<Word>, i: nat)
    requires i < |records|
    ensures InfoFits(records, RecordInfo(records[i]), i) && Common(records, RecordInfo(records[i]))
  {
    hide Matches, Counted;
    RawMatches(records[i], records[i]);
    RecordIsCounted(records[i]);
  }

  // ---------------------------------------------------------------- runs of the merge loop

  /** A step whose alignment keeps no escaped star for a wildcard. */
  ghost predicate CleanStep(s: Agglomeration.State<Info>, s': Agglomeration.State<Info>) {
    Agglomeration.Shaped(s) && forall a: nat, b: nat :: a < b && Agglomeration.Live(s, a) && Agglomeration.Live(s, b) ==> CleanPair(s, s', a, b)
  }

  ghost predicate CleanPair(s: Agglomeration.State<Info>, s': Agglomeration.State<Info>, a: nat, b: nat)
    requires Agglomeration.Shaped(s) && a < |s.ids| && b < |s.ids|
  {
    var p, q := s.patterns[a].pattern, s.patterns[b].pattern;
    s' == Agglomeration.Merged(MergeInfos, s, a, b) ==> Clashes(p, q, s.sizes[a], s.sizes[b], |p|, |q|) == 0
  }

  ghost predicate CleanRun(run: seq<Agglomeration.State<Info>>) { forall l :: 0 <= l < |run| - 1 ==> CleanStep(run[l], run[l + 1]) }

  /** Without stars in the records every step is one. */
  lemma {:induction false} StarFreeIsClean(records: seq<Word>, s: Agglomeration.State<Info>, s': Agglomeration.State<Info>)
    requires StarFree(records) && Agglomeration.Kept((p: Info, i: nat) => Common(records, p), s)
    ensures CleanStep(s, s')
  {
    hide Sound, Clashes, StarFree;
    forall a: nat, b: nat | a < b && Agglomeration.Live(s, a) && Agglomeration.Live(s, b) ensures CleanPair(s, s', a, b) {
      LiveIsRoot(s.ids, a);
      assert Common(records, s.patterns[Root(s.ids, a)]);
      MergePatternsIsStored(s.patterns[a].pattern, s.sizes[a], s.patterns[b].pattern, s.sizes[b]);
    }
  }

  /** Along such steps the records keep fitting the patterns of their clusters. */
  lemma {:induction false} CleanRunFits(records: seq<Word>, cost: Agglomeration.Cost<Info>, run: seq<Agglomeration.State<Info>>, l: nat)
    requires Agglomeration.GreedyRun(cost, MergeInfos, run) && CleanRun(run) && l < |run|
    requires Agglomeration.Kept(Fitting(records), run[0])
    ensures Agglomeration.Kept(Fitting(records), run[l])
  {
    hide Agglomeration.Closest, Agglomeration.AllFit, Clashes;
    if l > 0 {
      CleanRunFits(records, cost, run, l - 1);
      var s := run[l - 1];
      assert Agglomeration.Greedy(cost, MergeInfos, s, run[l - 1 + 1]) && CleanStep(s, run[l - 1 + 1]);
      var a, b, v := Agglomeration.GreedyPair(cost, MergeInfos, s, run[l]);
      assert CleanPair(s, run[l], a, b);
      MergedInfoFits(records, s.patterns[a], s.sizes[a], s.patterns[b], s.sizes[b]);
      Agglomeration.FitsAfterMerge(Fitting(records), MergeInfos, s, a, b);
    }
  }

  lemma {:induction false} StartFits(records: seq<Word>, s: Agglomeration.State<Info>)
    requires Agglomeration.Shaped(s) && |s.ids| == |records|
    requires forall i :: 0 <= i < |records| ==> s.ids[i] == i && s.patterns[i] == RecordInfo(records[i])
    ensures Agglomeration.Kept(Fitting(records), s)
  {
    hide InfoFits;
    forall i | 0 <= i < |s.ids| ensures InfoFits(records, s.patterns[Root(s.ids, i)], i) { RawFits(records, i); }
  }

  /** TrainPattern on distinct records that occur `counts` times, for any cost function. */
  method Train(records: seq<Word>, counts: seq<nat>, k: nat, cost: Agglomeration.Cost<Info>)
    returns (ids: seq<nat>, infos: seq<Info>, sizes: seq<nat>, stuck: bool, ghost run: seq<Agglomeration.State<Info>>)
    requires |records| == |counts|
    ensures |ids| == |infos| == |sizes| == |records| && Downward(ids)
    ensures CleanRun(run) ==> forall i :: 0 <= i < |records| ==> InfoFits(records, infos[Root(ids, i)], i)
    ensures StarFree(records) ==> CleanRun(run)
    ensures LiveSum(ids, sizes, |ids|) == Total(counts, |ids|)
    ensures !stuck ==> LiveCount(ids, |ids|) == if |ids| <= k then |ids| else k
    ensures
      var s := Agglomeration.State(ids, infos, sizes);
      && Agglomeration.GreedyRun(cost, MergeInfos, run) && run[|run| - 1] == s && LiveCount(ids, |ids|) + |run| - 1 == |ids|
      && (forall l :: 0 <= l < |run| ==> |run[l].ids| == |records|)
      && (CleanRun(run) ==> forall l :: 0 <= l < |run| ==> Agglomeration.Kept(Fitting(records), run[l]))
      && (stuck ==> LiveCount(ids, |ids|) > k)
      && (stuck ==> forall i, j :: 0 <= i < j < |ids| && ids[i] == i && ids[j] == j ==> Agglomeration.Hopeless(cost, s, i, j))
  {
    hide InfoFits, Root, LiveSum, LiveCount, MergedPattern, Members, Sized, Agglomeration.Hopeless, Agglomeration.Greedy, Common, CleanStep, StarFree;
    ghost var common := (p: Info, i: nat) => Common(records, p);
    var raw := seq(|records|, i requires 0 <= i < |records| => RecordInfo(records[i]));
    forall i | 0 <= i < |raw| ensures common(raw[i], i) { RawFits(records, i); }
    forall p, m, q, n, x, y {:trigger common(p, x), common(q, y), MergeInfos(p, m, q, n)} | common(p, x) && common(q, y)
      ensures common(MergeInfos(p, m, q, n), x) && common(MergeInfos(p, m, q, n), y)
    {
      MergedIsCommon(records, p, m, q, n);
    }
    var trainer := new Agglomeration.Trainer(raw, counts, cost, MergeInfos, common);
    StartFits(records, trainer.Now());
    stuck, run := trainer.Merge(k);
    ids, infos, sizes := trainer.clusterId[..], trainer.pattern, trainer.recordNum[..];
    if StarFree(records) {
      forall l | 0 <= l < |run| - 1 ensures CleanStep(run[l], run[l + 1]) { StarFreeIsClean(records, run[l], run[l + 1]); }
    }
    if CleanRun(run) {
      forall l | 0 <= l < |run| ensures Agglomeration.Kept(Fitting(records), run[l]) { CleanRunFits(records, cost, run, l); }
      forall i | 0 <= i < |records| ensures InfoFits(records, infos[Root(ids, i)], i) {
        assert Fitting(records)(infos[Root(ids, i)], i);
      }
    }
  }

  // ---------------------------------------------------------------- with the trainer's own cost

  function Longest(records: seq<Word>): (k: nat)
    ensures forall i :: 0 <= i < |records| ==> |records[i]| <= k
  {
    if records == [] then 0
    else
      var last, others := |records[|records| - 1]|, Longest(records[..|records| - 1]);
      if last < others then others else last
  }

  /** Even a merge of all records cannot cost more than an int holds. */
  predicate InRange(records: seq<Word>, counts: seq<nat>) {
    Times(Total(counts, |counts|), 8 * Longest(records) + 4) < INT_MAX
  }

  /** A pattern has at most one wildcard more than literals, and at most as many literals as a record it matches. */
  lemma {:induction false} PatternAtMost(p: Pattern, s: Word)
    requires Matches(p, s) && NoAdjacentWilds(p)
    ensures Lits(p) <= |s| && |p| == Lits(p) + Wilds(p) && |p| <= 2 * Lits(p) + (if EndsWild(p) then 1 else 0) && (s != [] ==> p != [])
  {
    if p != [] {
      assert p[..|p|] == p;
      var k := MatchesPrefix(p, |p|, s);
      PatternAtMost(p[..|p| - 1], s[..k]);
    }
  }

  /** So no pair of clusters is hopeless. */
  lemma {:induction false} NotHopeless(records: seq<Word>, counts: seq<nat>, s: Agglomeration.State<Info>, i: nat, j: nat)
    requires Agglomeration.Shaped(s) && |s.ids| == |records| == |counts| && i < j < |s.ids| && s.ids[i] == i && s.ids[j] == j
    requires InfoFits(records, s.patterns[i], i) && InfoFits(records, s.patterns[j], j) && records[i] != [] && records[j] != []
    requires InRange(records, counts) && LiveSum(s.ids, s.sizes, |s.ids|) == Total(counts, |counts|)
    ensures !Agglomeration.Hopeless(EncodingLength, s, i, j)
  {
    hide Times, Matches, Lits, NoAdjacentWilds, LiveSum, Total, Counted;
    var p, q := s.patterns[i], s.patterns[j];
    PatternAtMost(p.pattern, records[i]);
    PatternAtMost(q.pattern, records[j]);
    PairAtMost(s.ids, s.sizes, i, j, |s.ids|);
    var (n, k, longest) := (s.sizes[i] + s.sizes[j], 2 * (|p.pattern| + |q.pattern|), 8 * Longest(records) + 4);
    TimesMono(n, k, longest);
    TimesWider(n, Total(counts, |counts|), longest);
    Affordable(p, s.sizes[i], q, s.sizes[j]);
  }

  lemma {:induction false} TimesWider(m: nat, n: nat, k: nat)
    requires m <= n
    ensures Times(m, k) <= Times(n, k)
  {
    assert Times(n, k) - Times(m, k) == (n - m) * k;
  }

  /** The pair merged in a step, and what it is cheaper than. */
  ghost predicate Chosen(s: Agglomeration.State<Info>, s': Agglomeration.State<Info>, a: nat, b: nat) {
    && Agglomeration.Shaped(s) && a < b && Agglomeration.Live(s, a) && Agglomeration.Live(s, b)
    && s' == Agglomeration.Merged(MergeInfos, s, a, b)
    && forall i, j :: 0 <= i < j < |s.ids| && Agglomeration.Live(s, i) && Agglomeration.Live(s, j) ==>
         PairNotCheaper(s, i, j, Exact(s.patterns[a], s.sizes[a], s.patterns[b], s.sizes[b]))
  }

  ghost predicate PairNotCheaper(s: Agglomeration.State<Info>, i: nat, j: nat, v: int)
    requires Agglomeration.Shaped(s) && i < |s.ids| && j < |s.ids|
  {
    var p, q := s.patterns[i], s.patterns[j];
    NoEscapes(p.pattern) && NoEscapes(q.pattern) ==> p.pattern != [] && NotCheaper(p, s.sizes[i], q, s.sizes[j], v)
  }

  ghost predicate CheapestStep(s: Agglomeration.State<Info>, s': Agglomeration.State<Info>) { exists a: nat, b: nat :: Chosen(s, s', a, b) }

  /** Each step of the merge loop merges a cheapest pair, but for those that are missed. */
  lemma {:induction false} GreedyIsCheapest(records: seq<Word>, s: Agglomeration.State<Info>, s': Agglomeration.State<Info>)
    requires Agglomeration.Greedy(EncodingLength, MergeInfos, s, s')
    requires Agglomeration.Kept(Fitting(records), s) && |s.ids| == |records|
    requires forall i :: 0 <= i < |records| ==> records[i] != []
    ensures CheapestStep(s, s')
  {
    hide Agglomeration.Closest, Agglomeration.Merged, InfoFits, NotCheaper, Exact, NoEscapes;
    var a, b, v := Agglomeration.GreedyPair(EncodingLength, MergeInfos, s, s');
    ReportedIsExact(s.patterns[a], s.sizes[a], s.patterns[b], s.sizes[b], v);
    forall i, j | 0 <= i < j < |s.ids| && Agglomeration.Live(s, i) && Agglomeration.Live(s, j) ensures PairNotCheaper(s, i, j, v) {
      assert Root(s.ids, i) == i && Root(s.ids, j) == j;
      FitsAreComparable(records, s.patterns[i], i, s.patterns[j], j);
      if NoEscapes(s.patterns[i].pattern) && NoEscapes(s.patterns[j].pattern) {
        ClosestIsCheapest(s, a, b, v, i, j);
      }
    }
    assert Chosen(s, s', a, b);
  }

  lemma {:induction false} FitsAreComparable(records: seq<Word>, p: Info, i: nat, q: Info, j: nat)
    requires InfoFits(records, p, i) && InfoFits(records, q, j) && records[i] != [] && records[j] != []
    ensures NoEscapes(p.pattern) && NoEscapes(q.pattern) ==> Comparable(p, q)
  {
    hide Counted, Matches, NoAdjacentWilds;
    PatternAtMost(p.pattern, records[i]);
    PatternAtMost(q.pattern, records[j]);
  }

  lemma {:induction false} FitsPattern(records: seq<Word>, p: Info, i: nat)
    requires InfoFits(records, p, i)
    ensures NoAdjacentWilds(p.pattern) && Matches(p.pattern, records[i])
  {}

  /** TrainPattern. It finds a pair to merge until `k` clusters are left, unless that is none. */
  method TrainPattern(records: seq<Word>, counts: seq<nat>, k: nat)
    returns (ids: seq<nat>, patterns: seq<Pattern>, sizes: seq<nat>, stuck: bool, ghost run: seq<Agglomeration.State<Info>>)
    requires |records| == |counts| && forall i :: 0 <= i < |records| ==> records[i] != []
    ensures |ids| == |patterns| == |sizes| == |records| && Downward(ids)
    ensures LiveSum(ids, sizes, |ids|) == Total(counts, |ids|)
    ensures !stuck ==> LiveCount(ids, |ids|) == if |ids| <= k then |ids| else k
    ensures |run| + LiveCount(ids, |ids|) == |ids| + 1 && run[|run| - 1].ids == ids && run[|run| - 1].sizes == sizes
    ensures StarFree(records) ==> CleanRun(run)
    ensures CleanRun(run) ==> forall i :: 0 <= i < |records| ==>
      NoAdjacentWilds(patterns[Root(ids, i)]) && Matches(patterns[Root(ids, i)], records[i])
    ensures CleanRun(run) && InRange(records, counts) ==> (stuck <==> k == 0 && records != [])
    ensures CleanRun(run) ==> forall l :: 0 <= l < |run| - 1 ==> CheapestStep(run[l], run[l + 1])
  {
    hide InfoFits, Root, LiveSum, LiveCount, InRange, Total, Agglomeration.Hopeless, Agglomeration.Greedy, CheapestStep, CleanRun, StarFree;
    var infos;
    ids, infos, sizes, stuck, run := Train(records, counts, k, EncodingLength);
    patterns := seq(|infos|, i requires 0 <= i < |infos| => infos[i].pattern);
    if records != [] { OneLive(ids, |ids|); }
    if CleanRun(run) {
      forall i | 0 <= i < |records| ensures NoAdjacentWilds(patterns[Root(ids, i)]) && Matches(patterns[Root(ids, i)], records[i]) {
        FitsPattern(records, infos[Root(ids, i)], i);
      }
      forall l | 0 <= l < |run| - 1 ensures CheapestStep(run[l], run[l + 1]) {
        GreedyIsCheapest(records, run[l], run[l + 1]);
      }
      if InRange(records, counts) && stuck && LiveCount(ids, |ids|) > 1 {
        var j := FindLive(ids, |ids|);
        var i := FindLive(ids, j);
        LiveIsRoot(ids, i);
        LiveIsRoot(ids, j);
        NotHopeless(records, counts, run[|run| - 1], i, j);
      }
    }
  }

  // ---------------------------------------------------------------- using what was trained

  /** The segments the compressor reads from the stored patterns. */
  function TableOf(patterns: seq<Pattern>): (table: seq<seq<Word>>)
    ensures |table| == |patterns| && forall id :: 0 <= id < |table| ==> table[id] == Segments(Closed(patterns[id]))
  {
    seq(|patterns|, id requires 0 <= id < |patterns| => Segments(Closed(patterns[id])))
  }

  lemma {:induction false} TrainedTable(patterns: seq<Pattern>)
    requires forall id :: 0 <= id < |patterns| ==> NoAdjacentWilds(patterns[id])
    ensures GoodTable(TableOf(patterns))
  {
    hide Segments;
    forall id | 0 <= id < |patterns|
      ensures |TableOf(patterns)[id]| >= 2 && InteriorFull(TableOf(patterns)[id])
      ensures TableOf(patterns)[id][|TableOf(patterns)[id]| - 1] == []
    {
      var q := Closed(patterns[id]);
      WildsApart(patterns[id], Wild);
      ApartMeansFull(q);
      LastSegmentEmpty(q);
    }
  }

  /** Any record that a trained pattern matches is stored and comes back. */
  lemma {:induction false} TrainedRoundTrip(patterns: seq<Pattern>, id: nat, s: Word, rest: Word) returns (gaps: seq<Word>, e: Word)
    requires |patterns| < 65536 && id < |patterns| && forall id :: 0 <= id < |patterns| ==> NoAdjacentWilds(patterns[id])
    requires Matches(patterns[id], s) && rest != []
    ensures IsEncoding(TableOf(patterns), id, s, gaps, e) && GoodTable(TableOf(patterns))
    ensures |s| < LIMIT ==> AllStorable(gaps)
    ensures |e| < MAX_LENGTH && AllStorable(gaps) ==> DecodeRecord(TableOf(patterns), e + rest, |e|) == Restored(s)
  {
    hide Matches, Segments, Fields, DecodeRecord, Interleave, AllStorable;
    var table := TableOf(patterns);
    TrainedTable(patterns);
    assert s[..|s|] == s;
    MatchesAddWild(patterns[id], s, |s|);
    gaps := MergedIsEncodable(patterns[id], s);
    e := [id / 256, id % 256] + Fields(gaps);
    GapSizes(table[id], gaps);
    if |s| < LIMIT { ShortAreStorable(gaps); }
    if |e| < MAX_LENGTH && AllStorable(gaps) { RecordRoundTrip(table, id, s, gaps, e, rest); }
  }
}
