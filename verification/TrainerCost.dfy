/** What the trainer takes a merge to cost: first a bound from character frequencies, then the alignment, which may be
    given up. When that finds the cheapest merge, and when it does not. */
module TrainerCost {
  import opened Bytes
  import opened Patterns
  import opened PatternMerge
  import opened PatternTables
  import opened GivingUp
  import Agglomeration

  type Grams = g: seq<nat> | |g| == 256 witness seq(256, _ => 0)

  /** A cluster's pattern_buffer, one_gram_table and char_freq. */
  datatype Info = Info(pattern: Pattern, grams: Grams, freq: nat)

  // ---------------------------------------------------------------- counting characters

  /** Of a merged pattern's string an escape character or wildcard is left out, but not at its start nor behind a backslash. */
  predicate Counts(s: Word, i: nat)
    requires i < |s|
  {
    !(i > 0 && s[i - 1] != BACKSLASH && (s[i] == BACKSLASH || s[i] == STAR))
  }

  function Seen(s: Word, c: nat, n: nat): nat
    requires n <= |s|
  {
    if n == 0 then 0 else Seen(s, c, n - 1) + if Counts(s, n - 1) && s[n - 1] == c then 1 else 0
  }

  function SeenInAll(s: Word, n: nat): (k: nat)
    requires n <= |s|
    ensures k <= n
  {
    if n == 0 then 0 else SeenInAll(s, n - 1) + if Counts(s, n - 1) then 1 else 0
  }

  /** What is kept of a merged pattern. */
  function MergedInfo(p: Pattern): Info {
    var s := Render(p);
    Info(p, seq(256, c requires 0 <= c < 256 => Seen(s, c, |s|)), SeenInAll(s, |s|))
  }

  /** What is kept of a record. */
  function RecordInfo(s: Word): Info {
    Info(Raw(s), seq(256, c requires 0 <= c < 256 => Count(Raw(s), c)), |s|)
  }

  /** The loop after MergePattern. */
  method CountGrams(s: Word) returns (grams: array<nat>, freq: nat)
    ensures fresh(grams) && grams.Length == 256 && forall c :: 0 <= c < 256 ==> grams[c] == Seen(s, c, |s|)
    ensures freq == SeenInAll(s, |s|)
  {
    grams := new nat[256](_ => 0);
    freq := |s|;
    for i := 0 to |s|
      invariant forall c :: 0 <= c < 256 ==> grams[c] == Seen(s, c, i)
      invariant freq == |s| - i + SeenInAll(s, i)
    {
      grams[s[i]] := grams[s[i]] + 1;
      if s[i] == BACKSLASH && i > 0 && s[i - 1] != BACKSLASH {
        grams[s[i]] := grams[s[i]] - 1;
        freq := freq - 1;
      }
      if s[i] == STAR && i > 0 && s[i - 1] != BACKSLASH {
        grams[s[i]] := grams[s[i]] - 1;
        freq := freq - 1;
      }
    }
  }

  // ---------------------------------------------------------------- the cost

  function Shared(g: Grams, h: Grams, n: nat): nat
    requires n <= 256
  {
    if n == 0 then 0 else Shared(g, h, n - 1) + Min(g[n - 1], h[n - 1])
  }

  function Filter(p: Info, m: nat, q: Info, n: nat): int {
    var common := Shared(p.grams, q.grams, 256);
    Times(m, p.freq - common) + Times(n, q.freq - common)
  }

  // ---------------------------------------------------------------- what the filter counts

  lemma {:induction false} CountIsMultiplicity(s: Word, c: Byte)
    ensures Count(Raw(s), c) == multiset(s)[c]
  {
    if s != [] {
      var k := |s| - 1;
      CountIsMultiplicity(s[..k], c);
      assert Raw(s)[..k] == Raw(s[..k]) && s == s[..k] + [s[k]];
    }
  }

  /** The bytes below `n` that two records have in common. */
  lemma {:induction false} CommonBelow(s: Word, t: Word, n: nat) returns (common: multiset<Byte>)
    requires n <= 256
    ensures |common| == Shared(RecordInfo(s).grams, RecordInfo(t).grams, n)
    ensures forall c: Byte :: common[c] == if c < n then Min(multiset(s)[c], multiset(t)[c]) else 0
  {
    if n == 0 {
      common := multiset{};
    } else {
      common := CommonBelow(s, t, n - 1);
      var c: Byte := n - 1;
      CountIsMultiplicity(s, c);
      CountIsMultiplicity(t, c);
      var more: multiset<Byte> := multiset{}[c := Min(multiset(s)[c], multiset(t)[c])];
      assert |more| == Min(multiset(s)[c], multiset(t)[c]);
      common := common + more;
    }
  }

  /** For two records it counts, each time it occurs, every character of one that has no counterpart in the other. */
  lemma {:induction false} FilterOfRecords(s: Word, m: nat, t: Word, n: nat)
    ensures
      var common := multiset(s) * multiset(t);
      Filter(RecordInfo(s), m, RecordInfo(t), n) == Times(m, |multiset(s) - common|) + Times(n, |multiset(t) - common|)
  {
    hide Times, Shared, Count, Raw;
    var common := CommonBelow(s, t, 256);
    assert common == multiset(s) * multiset(t);
    RestSize(s, common);
    RestSize(t, common);
  }

  lemma {:induction false} RestSize(s: Word, common: multiset<Byte>)
    requires common <= multiset(s)
    ensures |multiset(s) - common| == |s| - |common|
  {
    assert |multiset(s)| == |s|;
    assert multiset(s) == common + (multiset(s) - common);
  }

  /** The value of the whole alignment. */
  function Exact(p: Info, m: nat, q: Info, n: nat): int { Entry(p.pattern, q.pattern, m, n, |p.pattern|, |q.pattern|).state }

  /** What is reported for a merge under a threshold. */
  function EncodingLength(p: Info, m: nat, q: Info, n: nat, threshold: int): int {
    if Filter(p, m, q, n) >= threshold || GivesUp(p.pattern, q.pattern, m, n, threshold) then INT_MAX else Exact(p, m, q, n)
  }

  method MinEncodingLength(strA: Word, strB: Word, numA: nat, numB: nat, threshold: int, ghost a: Pattern, ghost b: Pattern)
    returns (value: int)
    requires strA == Render(a) && strB == Render(b) && threshold <= INT_MAX
    ensures value == if GivesUp(a, b, numA, numB, threshold) then INT_MAX else Entry(a, b, numA, numB, |a|, |b|).state
  {
    var tables := new Tables(|strA|, |strB|);
    value := tables.ConstructTables(strA, strB, numA, numB, threshold, a, b);
  }

  method GetMinEncodingLength(p: Info, m: nat, q: Info, n: nat, threshold: int) returns (value: int)
    requires threshold <= INT_MAX
    ensures value == EncodingLength(p, m, q, n, threshold)
  {
    hide Entry, GivesUp, Render;
    var common := 0;
    for k := 0 to 256
      invariant common == Shared(p.grams, q.grams, k)
    {
      common := common + Min(p.grams[k], q.grams[k]);
    }
    if (p.freq - common) * m + (q.freq - common) * n >= threshold {
      return INT_MAX;
    }
    value := MinEncodingLength(Render(p.pattern), Render(q.pattern), m, n, threshold, p.pattern, q.pattern);
  }

  /** What is reported below a threshold is the value of the whole alignment. */
  lemma {:induction false} ReportedIsExact(p: Info, m: nat, q: Info, n: nat, v: int)
    ensures Agglomeration.Reported(EncodingLength, p, m, q, n, v) ==> v == Exact(p, m, q, n)
  {
    hide Entry, GivesUp, Filter;
  }

  // ---------------------------------------------------------------- the bound from character frequencies

  /** Characters are counted as they are, and a wildcard at the start as a star. */
  ghost predicate Counted(p: Info) {
    && p.freq == Lits(p.pattern) + Leading(p.pattern)
    && forall c :: 0 <= c < 256 ==> p.grams[c] == Count(p.pattern, c) + if c == STAR then Leading(p.pattern) else 0
  }

  function Leading(p: Pattern): nat { if p != [] && p[0].Wild? then 1 else 0 }

  lemma {:induction false} RecordIsCounted(s: Word)
    ensures Counted(RecordInfo(s)) && RecordInfo(s).freq <= 2 * |Raw(s)|
  {
    AllLits(Raw(s));
  }

  /** Without escaped characters merged patterns are counted like records. */
  lemma {:induction false} MergedIsCounted(p: Pattern)
    requires NoEscapes(p)
    ensures Counted(MergedInfo(p))
  {
    forall c | 0 <= c < 256 ensures Seen(Render(p), c, |Render(p)|) == Count(p, c) + if c == STAR then Leading(p) else 0 {
      SeenIsCount(p, c);
    }
    SeenIsCount(p, 0);
  }

  lemma {:induction false} SeenIsCount(p: Pattern, c: nat)
    requires NoEscapes(p)
    ensures Seen(Render(p), c, |Render(p)|) == Count(p, c) + if c == STAR then Leading(p) else 0
    ensures SeenInAll(Render(p), |Render(p)|) == Lits(p) + Leading(p)
    ensures BACKSLASH !in Render(p) && |Render(p)| == |p|
  {
    hide Seen, SeenInAll, Counts, RenderToken;
    if p == [] {
      SeenInNothing(c);
    } else {
      hide Count, Lits;
      var q, t := p[..|p| - 1], p[|p| - 1];
      SeenIsCount(q, c);
      PlainRender(t);
      SeenOneMore(Render(q), RenderToken(t)[0], c);
      assert p == q + [t];
      CountAppended(q, t, c);
      CountsAppended(q, t);
    }
  }

  lemma {:induction false} SeenInNothing(c: nat)
    ensures Seen([], c, 0) == SeenInAll([], 0) == 0
  {}

  lemma {:induction false} PlainRender(t: Token)
    requires !Escaped(t)
    ensures RenderToken(t) == [if t.Wild? then STAR else t.c] && BACKSLASH !in RenderToken(t)
  {}

  lemma {:induction false} SeenOneMore(s: Word, x: Byte, c: nat)
    requires BACKSLASH !in s && x != BACKSLASH
    ensures Seen(s + [x], c, |s| + 1) == Seen(s, c, |s|) + if (s == [] || x != STAR) && x == c then 1 else 0
    ensures SeenInAll(s + [x], |s| + 1) == SeenInAll(s, |s|) + if s == [] || x != STAR then 1 else 0
  {
    SeenInPart(s, [x], c, |s|);
  }

  lemma {:induction false} SeenInPart(s: Word, t: Word, c: nat, n: nat)
    requires n <= |s|
    ensures Seen(s + t, c, n) == Seen(s, c, n) && SeenInAll(s + t, n) == SeenInAll(s, n)
  {
    if n > 0 { SeenInPart(s, t, c, n - 1); }
  }

  /** No pattern is counted to have more characters than its string. */
  lemma {:induction false} FreqAtMost(p: Pattern)
    ensures MergedInfo(p).freq <= 2 * |p|
  {
    RenderAtMost(p);
  }

  lemma {:induction false} RenderAtMost(p: Pattern)
    ensures |Render(p)| <= 2 * |p|
  {
    if p != [] { RenderAtMost(p[..|p| - 1]); }
  }

  lemma {:induction false} SharedAtLeast(p: Info, q: Info, n: nat)
    requires Counted(p) && Counted(q) && n <= 256
    ensures Shared(p.grams, q.grams, n) >= Common(p.pattern, q.pattern, n)
  {
    hide Count;
    if n > 0 { SharedAtLeast(p, q, n - 1); }
  }

  /** Whoever skips a token leaves a wildcard. */
  lemma {:induction false} SkipLeavesWild(a: Pattern, b: Pattern, numA: nat, numB: nat, i: nat, j: nat)
    requires 0 < i <= |a| && 0 < j <= |b| && Entry(a, b, numA, numB, i, j).source != UpperLeft
    ensures Wilds(Merged(a, b, numA, numB, i, j)) >= 1
  {
    hide Entry, Wilds, AddWild;
    CountsAddWild(Merged(a, b, numA, numB, i, j - 1));
    CountsAddWild(Merged(a, b, numA, numB, i - 1, j));
    SomeWild(Merged(a, b, numA, numB, i, j));
  }

  lemma {:induction false} BorderWild(a: Pattern, b: Pattern, numA: nat, numB: nat, i: nat, j: nat)
    requires i <= |a| && j <= |b| && (i == 0 || j == 0) && i + j > 0
    ensures Wilds(Merged(a, b, numA, numB, i, j)) == 1
  {
    CountsAppended([], Wild);
    assert [] + [Wild] == [Wild];
  }

  /** A wildcard at the start of either pattern makes one in the merged pattern. */
  lemma {:induction false} LeadingStays(a: Pattern, b: Pattern, numA: nat, numB: nat, i: nat, j: nat)
    requires i <= |a| && j <= |b| && !Clash(a, b)
    requires (i > 0 && a[0].Wild?) || (j > 0 && b[0].Wild?)
    ensures Wilds(Merged(a, b, numA, numB, i, j)) >= 1
    decreases i + j
  {
    hide Entry, Wilds, AddWild;
    if i == 0 || j == 0 {
      BorderWild(a, b, numA, numB, i, j);
    } else if Entry(a, b, numA, numB, i, j).source == UpperLeft {
      SourceSet(a, b, numA, numB, i, j);
      SameMeans(a[i - 1], b[j - 1]);
      LeadingStays(a, b, numA, numB, i - 1, j - 1);
      CountsAppended(Merged(a, b, numA, numB, i - 1, j - 1), a[i - 1]);
    } else {
      SkipLeavesWild(a, b, numA, numB, i, j);
    }
  }

  lemma {:induction false} SomeWild(p: Pattern)
    requires EndsWild(p)
    ensures Wilds(p) >= 1
  {}

  /** The bound from character frequencies exceeds the value of the alignment at most by what the clusters are paid back for
      their wildcards. */
  lemma {:induction false} FilterBound(p: Info, m: nat, q: Info, n: nat)
    requires Counted(p) && Counted(q) && !Clash(p.pattern, q.pattern)
    ensures Filter(p, m, q, n) <= Exact(p, m, q, n) + Times(m, Wilds(p.pattern)) + Times(n, Wilds(q.pattern))
  {
    hide Times, Entry, Lits, Wilds, Count, Shared, Merged, Common;
    var a, b := p.pattern, q.pattern;
    var common, shared := Common(a, b, 256), Shared(p.grams, q.grams, 256);
    SharedAtLeast(p, q, 256);
    OneGramBound(a, b, m, n);
    TimesMono(m, p.freq - shared, Lits(a) - common + Leading(a));
    TimesMono(n, q.freq - shared, Lits(b) - common + Leading(b));
    LeadingPaid(a, b, m, n);
    TimesStep(m, Lits(a) - common);
    TimesStep(n, Lits(b) - common);
  }

  lemma {:induction false} LeadingPaid(a: Pattern, b: Pattern, m: nat, n: nat)
    requires !Clash(a, b)
    ensures Times(m + n, Wilds(Merged(a, b, m, n, |a|, |b|))) >= m * Leading(a) + n * Leading(b)
  {
    hide Merged, Wilds;
    if Leading(a) + Leading(b) > 0 {
      LeadingStays(a, b, m, n, |a|, |b|);
      TimesMono(m + n, 1, Wilds(Merged(a, b, m, n, |a|, |b|)));
      assert Times(m + n, 1) == m + n;
    }
  }

  // ---------------------------------------------------------------- when the cheapest merge is found

  /** A pair whose characters have been counted, and whose patterns no escaped star of one and wildcard of the other confuse. */
  ghost predicate Comparable(p: Info, q: Info) {
    Counted(p) && Counted(q) && p.pattern != [] && q.pattern != [] && !Clash(p.pattern, q.pattern)
  }

  /** A merge given up under a threshold costs no less than the threshold or one wildcard for the first token of the first
      pattern, but for what the clusters are paid back for their wildcards. */
  lemma {:induction false} GivenUp(p: Info, m: nat, q: Info, n: nat, v: int)
    requires Comparable(p, q) && Agglomeration.NotBelow(EncodingLength, p, m, q, n, v)
    ensures Exact(p, m, q, n) + Times(m, Wilds(p.pattern)) + Times(n, Wilds(q.pattern))
         >= Least(v, Entry(p.pattern, q.pattern, m, n, 1, 0).state)
  {
    hide Entry, Times, Wilds, Filter, Counted, GivesUp;
    var a, b := p.pattern, q.pattern;
    var th :| v <= th <= INT_MAX && v <= EncodingLength(p, m, q, n, th);
    TimesMono(m, 0, Wilds(a));
    TimesMono(n, 0, Wilds(b));
    TimesStep(m, 0);
    TimesStep(n, 0);
    FilterBound(p, m, q, n);
    if GivesUp(a, b, m, n, th) {
      BehindFirstRow(a, b, m, n, th, |a|, |b|);
      assert a[..|a|] == a && b[..|b|] == b;
    }
  }

  /** For patterns without wildcards and escapes a reported value is missed only if the second pattern is the end of the first. */
  ghost predicate Missed(p: Info, m: nat, q: Info, n: nat, v: int) {
    && GivesUp(p.pattern, q.pattern, m, n, v) && EndsIn(p.pattern, q.pattern)
    && Exact(p, m, q, n) == Times(m, |p.pattern| - |q.pattern| + 1) + n
  }

  lemma {:induction false} PlainGivenUp(p: Info, m: nat, q: Info, n: nat, v: int)
    requires Counted(p) && Counted(q) && Plain(p.pattern) && Plain(q.pattern)
    requires Agglomeration.NotBelow(EncodingLength, p, m, q, n, v)
    ensures Exact(p, m, q, n) >= v || Missed(p, m, q, n, v)
  {
    hide Entry, Times, Filter, Counted, Plain;
    var a, b := p.pattern, q.pattern;
    var th :| v <= th <= INT_MAX && v <= EncodingLength(p, m, q, n, th);
    PlainIsLits(a);
    PlainIsLits(b);
    TimesStep(m, 0);
    TimesStep(n, 0);
    FilterBound(p, m, q, n);
    if GivesUp(a, b, m, n, th) {
      assert GivesUp(a, b, m, n, v);
      LostMerges(a, b, m, n, v);
    }
  }

  lemma {:induction false} PlainIsLits(p: Pattern)
    requires Plain(p)
    ensures Wild !in p && Wilds(p) == 0
  {
    AllLits(p);
  }

  /** What a merge costs that has not been reported to cost less than `v`: for plain patterns no less, unless it has been missed;
      for others no less than that or than one wildcard for the first token of the first pattern, but for what the clusters are
      paid back for their wildcards. */
  ghost predicate NotCheaper(p: Info, m: nat, q: Info, n: nat, v: int)
    requires p.pattern != []
  {
    && (Plain(p.pattern) && Plain(q.pattern) ==> Exact(p, m, q, n) >= v || Missed(p, m, q, n, v))
    && Exact(p, m, q, n) + Times(m, Wilds(p.pattern)) + Times(n, Wilds(q.pattern))
         >= Least(v, Entry(p.pattern, q.pattern, m, n, 1, 0).state)
  }

  /** The pair the trainer merges costs what is reported, and no other pair is cheaper but in the ways above. */
  lemma {:induction false} ClosestIsCheapest(s: Agglomeration.State<Info>, a: nat, b: nat, v: int, i: nat, j: nat)
    requires Agglomeration.Shaped(s) && Agglomeration.Closest(EncodingLength, s, a, b, v)
    requires i < j < |s.ids| && Agglomeration.Live(s, i) && Agglomeration.Live(s, j) && Comparable(s.patterns[i], s.patterns[j])
    ensures a < b < |s.ids| && Exact(s.patterns[a], s.sizes[a], s.patterns[b], s.sizes[b]) == v
    ensures NotCheaper(s.patterns[i], s.sizes[i], s.patterns[j], s.sizes[j], v)
  {
    hide Agglomeration.Reported, Agglomeration.NotBelow, Exact, Entry, Times, Wilds, Counted, Plain, Missed, EncodingLength;
    ReportedIsExact(s.patterns[a], s.sizes[a], s.patterns[b], s.sizes[b], v);
    var (p, m, q, n) := (s.patterns[i], s.sizes[i], s.patterns[j], s.sizes[j]);
    Agglomeration.NotBelowLess(EncodingLength, s, i, j, v, if i < a then v + 1 else v);
    GivenUp(p, m, q, n, v);
    if Plain(p.pattern) && Plain(q.pattern) { PlainGivenUp(p, m, q, n, v); }
  }

  // ---------------------------------------------------------------- a merge is always found

  /** Within the range of an int every merge is below the largest threshold. */
  lemma {:induction false} Affordable(p: Info, m: nat, q: Info, n: nat)
    requires p.pattern != [] && q.pattern != [] && p.freq <= 2 * |p.pattern| && q.freq <= 2 * |q.pattern|
    requires Times(m + n, 2 * (|p.pattern| + |q.pattern|)) < INT_MAX
    ensures EncodingLength(p, m, q, n, INT_MAX) < INT_MAX
  {
    hide Entry, Times, Shared;
    var a, b := p.pattern, q.pattern;
    var common, k := Shared(p.grams, q.grams, 256), 2 * (|a| + |b|);
    FirstEntrySmall(a, b, m, n);
    NoOverflow(a, b, m, n, |a|, |b|);
    TimesMono(m, p.freq - common, k);
    TimesMono(n, q.freq - common, k);
    TimesSum(m, n, k);
  }

  lemma {:induction false} TimesSum(m: nat, n: nat, k: int)
    ensures Times(m + n, k) == Times(m, k) + Times(n, k)
  {}

  // ---------------------------------------------------------------- the cheapest merge missed

  /** Three records xy, xz and y, each of them once. */
  function ThreeRecords(): Agglomeration.State<Info> {
    Agglomeration.State([0, 1, 2], [RecordInfo([120, 121]), RecordInfo([120, 122]), RecordInfo([121])], [1, 1, 1])
  }

  /** Entries of the alignments of a record of two characters with another record. */
  lemma {:induction false} ThreeAlignments()
    ensures
      var (xy, xz, y) := (Raw([120, 121]), Raw([120, 122]), Raw([121]));
      && Entry(xy, xz, 1, 1, 1, 1).state == 0 && Entry(xy, xz, 1, 1, 2, 2).state == 4
      && Entry(xy, y, 1, 1, 1, 1).state == 4 && Entry(xy, y, 1, 1, 2, 1).state == 3
      && Entry(xz, y, 1, 1, 1, 1).state == 4 && Entry(xz, y, 1, 1, 2, 1).state == 5
  {
    var (xy, xz, y) := (Raw([120, 121]), Raw([120, 122]), Raw([121]));
    ColumnOfTwo(xy, xz);
    ColumnOfTwo(xy, y);
    ColumnOfTwo(xz, y);
    assert Entry(xy, xz, 1, 1, 0, 1) == Cell(false, 3, Esc) && Entry(xy, xz, 1, 1, 0, 2) == Cell(false, 4, Esc);
    assert Entry(xy, xz, 1, 1, 1, 1) == Cell(true, 0, UpperLeft);
    assert Entry(xy, xz, 1, 1, 1, 2) == Cell(false, 3, UpPos) && Entry(xy, xz, 1, 1, 2, 1) == Cell(false, 3, LeftPos);
    assert Entry(xy, y, 1, 1, 0, 1) == Entry(xz, y, 1, 1, 0, 1) == Cell(false, 3, Esc);
    assert Entry(xy, y, 1, 1, 1, 1) == Entry(xz, y, 1, 1, 1, 1) == Cell(false, 4, UpPos);
  }

  lemma {:induction false} ColumnOfTwo(a: Pattern, b: Pattern)
    requires |a| == 2 && a[0].Lit? && a[1].Lit? && !Escaped(a[0]) && !Escaped(a[1])
    ensures Entry(a, b, 1, 1, 0, 0) == Cell(true, 0, Esc)
    ensures Entry(a, b, 1, 1, 1, 0) == Cell(false, 3, Esc) && Entry(a, b, 1, 1, 2, 0) == Cell(false, 4, Esc)
  {
    assert Border(a, 1, 1, 1) == Cell(false, 3, Esc);
  }

  /** What is reported for them, with the thresholds in force. */
  lemma {:induction false} ThreeReports()
    ensures
      var (xy, xz, y) := (RecordInfo([120, 121]), RecordInfo([120, 122]), RecordInfo([121]));
      && EncodingLength(xy, 1, xz, 1, INT_MAX) == 4 && EncodingLength(xy, 1, y, 1, 4) == INT_MAX
      && EncodingLength(xz, 1, y, 1, INT_MAX) == 5 && Exact(xy, 1, y, 1) == 3
  {
    hide Entry, Shared, Count;
    ThreeAlignments();
  }

  /** The trainer merges xy with xz at 4, though to merge xy with y costs 3: that search is given up under the threshold 4. */
  lemma {:induction false} ClosestIsNotCheapest()
    ensures
      var s := ThreeRecords();
      && Agglomeration.Shaped(s) && Agglomeration.Closest(EncodingLength, s, 0, 1, 4)
      && Agglomeration.Live(s, 2) && Exact(s.patterns[0], 1, s.patterns[2], 1) == 3
  {
    hide EncodingLength, RecordInfo, Exact;
    ThreeReports();
    var s := ThreeRecords();
    assert Agglomeration.PairReported(EncodingLength, s, 0, 1, 4);
    assert Agglomeration.PairNotBelow(EncodingLength, s, 0, 1, 4) && Agglomeration.PairNotBelow(EncodingLength, s, 0, 2, 4)
        && Agglomeration.PairNotBelow(EncodingLength, s, 1, 2, 4);
  }
}
