/** Reading normalized counts back, four bytes at a time. The reader inverts the writer, unless a run of absent symbols
    leaves its register one byte before the end of the buffer and a bit of the next count lies in that byte. */
module NCountReader {
  import opened Powers
  import opened Bytes
  import opened BitStream
  import opened FseTables
  import opened NCountFormat
  import opened NCountRuns
  import opened NCountWriter

  const ABSOLUTE_MAX: nat := 15

  // ---------------------------------------------------------------- the register

  /** Four bytes of the number `v` from byte `ip` on, without the `skip` lowest bits. */
  function Window(v: nat, ip: nat, skip: nat): nat { Shr(Low(Shr(v, 8 * ip), 32), skip) }

  lemma {:induction false} WindowIs(v: nat, ip: nat, skip: nat)
    requires skip <= 32
    ensures Window(v, ip, skip) == Low(Shr(v, 8 * ip + skip), 32 - skip)
  {
    hide Low, Shr;
    ShrLow(Shr(v, 8 * ip), skip, 32 - skip);
    ShrShr(v, 8 * ip, skip);
  }

  lemma {:induction false} WindowShift(v: nat, ip: nat, skip: nat, n: nat)
    ensures Shr(Window(v, ip, skip), n) == Window(v, ip, skip + n)
  {
    hide Low, Shr;
    ShrShr(Low(Shr(v, 8 * ip), 32), skip, n);
  }

  // ---------------------------------------------------------------- what is expected

  /** At bit `p` of the number the fields `fs` begin, which end at bit `end`. */
  ghost predicate Expects(v: nat, p: nat, fs: seq<Field>, end: nat) {
    Fit(fs) && p + Len(fs) == end && Begins(Shr(v, p), fs)
  }

  lemma {:induction false} ExpectsFirst(v: nat, p: nat, fs: seq<Field>, end: nat)
    requires Expects(v, p, fs, end) && fs != []
    ensures Low(Shr(v, p), fs[0].width) == fs[0].value && Expects(v, p + fs[0].width, fs[1..], end)
  {
    hide Low, Shr, Value, Pow2;
    ReadFirst(Shr(v, p), fs);
    ShrShr(v, p, fs[0].width);
  }

  /** A run of `k` absent symbols whose code begins at bit `p` of `n` bytes. The register stops one byte before the end,
      two of its bytes are read before the run is over, and then it is not moved on. */
  predicate StaleRun(p: nat, k: nat, n: nat) {
    && n >= 5 && p / 8 <= n - 5 && (n - 5 - p / 8) % 2 == 0
    && (n - 5 - p / 8) / 2 <= k / 24 && p + RunBits(k) >= 8 * (n - 5) + 16
  }

  /** Bits of the last of `n` bytes that lie below bit `q`. */
  function LastByteBelow(v: nat, n: nat, q: nat): nat
    requires n > 0
  {
    Shr(Low(v, q), 8 * (n - 1))
  }

  /** The symbol that the next count belongs to. */
  function CountedNext(norm: seq<int>, i: nat, previous0: bool): (j: nat)
    requires i <= |norm|
    ensures i <= j <= |norm|
  {
    if previous0 then NextNonzero(norm, i) else i
  }

  /** Where the code of that count ends, when it or the run before it begins at bit `p`. */
  function StageEnd(norm: seq<int>, tableLog: nat, i: nat, previous0: bool, p: nat): nat
    requires i <= |norm| && CountedNext(norm, i, previous0) < |norm| && -1 <= norm[CountedNext(norm, i, previous0)]
    requires Remaining(norm, tableLog, i) >= 1
  {
    var j := CountedNext(norm, i, previous0);
    p + (if previous0 then RunBits(j - i) else 0) + CountField(norm[j], Remaining(norm, tableLog, i)).width
  }

  /** A stale run, and behind it a count with bits in the last byte. */
  predicate BadStage(v: nat, n: nat, norm: seq<int>, tableLog: nat, i: nat, previous0: bool, p: nat)
    requires n > 0 && i <= |norm| && CountedNext(norm, i, previous0) < |norm| && -1 <= norm[CountedNext(norm, i, previous0)]
    requires Remaining(norm, tableLog, i) >= 1
  {
    && previous0 && StaleRun(p, CountedNext(norm, i, previous0) - i, n)
    && LastByteBelow(v, n, StageEnd(norm, tableLog, i, previous0, p)) != 0
  }

  /** There is such a stage from symbol `i` on, whose code begins at bit `p`. */
  predicate Misread(v: nat, n: nat, norm: seq<int>, tableLog: nat, i: nat, previous0: bool, p: nat)
    requires n > 0 && i <= |norm| && forall s :: 0 <= s < |norm| ==> -1 <= norm[s]
    decreases |norm| - i
  {
    var j := CountedNext(norm, i, previous0);
    Remaining(norm, tableLog, i) > 1 && j < |norm| &&
    (BadStage(v, n, norm, tableLog, i, previous0, p)
     || Misread(v, n, norm, tableLog, j + 1, norm[j] == 0, StageEnd(norm, tableLog, i, previous0, p)))
  }

  // ---------------------------------------------------------------- the reader

  datatype ReadResult = Counts(size: nat, maxSymbol: nat, tableLog: nat) | TableLogTooLarge | MaxSymbolTooSmall | Corruption

  class Reader {
    const buf: seq<Byte>
    var ip: nat
    var bitStream: nat
    var bitCount: nat

    constructor (buf: seq<Byte>)
      requires |buf| >= 4
      ensures Settled() && this.buf == buf && ip == 0 && bitCount == 0
    {
      this.buf := buf;
      ip, bitCount := 0, 0;
      bitStream := ReadLE(buf, 0, 4);
      new;
      ReadIsWindow(buf, 0, 0);
      ShrZero(bitStream);
    }

    /** The register lies inside the buffer. */
    ghost predicate Valid()
      reads this
    {
      ip + 4 <= |buf|
    }

    /** Bits read so far. */
    ghost function Pos(): nat
      reads this
    {
      8 * ip + bitCount
    }

    /** The register shows what comes next, and unless it is at the end of the buffer most of it is unread. */
    ghost predicate Settled()
      reads this
    {
      && Valid() && (bitCount <= 7 || ip + 4 == |buf|)
      && (bitCount < 32 ==> bitStream == Window(FromLE(buf), ip, bitCount))
    }

    /** The codes of 24 absent symbols each. While the register can be moved on by two bytes it is; after that it is
        only shifted. `moved` symbols are counted before it stops. */
    method ReadLongRuns(n: nat) returns (n0: nat, ghost moved: nat)
      requires Settled()
      modifies this
      ensures Valid() && n0 >= n && Low(bitStream, 16) != 0xFFFF && (bitCount <= 7 || ip + 5 >= |buf|)
      ensures old(bitCount) < 32 ==> LongRunsRead(old(ip), old(bitCount), moved, n0 - n)
    {
      hide Low, Shr, FromLE, Window, Pow2, RunLength;
      n0, moved := n, 0;
      ShrZero(bitStream);
      while Low(bitStream, 16) == 0xFFFF
        invariant Valid() && n0 >= n && (bitCount <= 7 || ip + 5 >= |buf|)
        invariant old(bitCount) < 32 ==> LongRunsRead(old(ip), old(bitCount), moved, n0 - n)
        decreases |buf| - ip, bitStream
      {
        hide RunsRead;
        TestFor24(bitStream);
        if ip + 5 < |buf| {
          if old(bitCount) < 32 { RunsMoved(FromLE(buf), |buf|, old(ip), old(bitCount), moved, n0 - n, ip, bitCount, bitStream); }
          n0 := n0 + 24;
          ip := ip + 2;
          moved := moved + 24;
          ReadIsWindow(buf, ip, bitCount);
          bitStream := Shr(ReadLE(buf, ip, 4), bitCount);
        } else {
          if old(bitCount) < 32 { RunsShifted(FromLE(buf), |buf|, old(ip), old(bitCount), moved, n0 - n, ip, bitCount, bitStream); }
          n0 := n0 + 24;
          bitStream := Shr(bitStream, 16);
          bitCount := bitCount + 16;
        }
      }
    }

    /** What is known after codes for 24 symbols each, starting with `skip` bits of the register read: `moved` symbols
        while the register was moved on, and `count` in all. */
    ghost predicate LongRunsRead(start: nat, skip: nat, moved: nat, count: nat)
      reads this
    {
      RunsRead(FromLE(buf), |buf|, start, skip, moved, count, ip, bitCount, bitStream)
    }

    /** The codes of three absent symbols each, and the last code of the run, whose bits stay in the register. */
    method ReadShortRuns(n: nat) returns (n0: nat)
      requires Valid() && Low(bitStream, 16) != 0xFFFF && (bitCount <= 7 || ip + 5 >= |buf|)
      modifies this`bitStream, this`bitCount
      ensures n0 == n + RunLength(old(bitStream)) && bitCount == old(bitCount) + RunBits(RunLength(old(bitStream)))
      ensures bitStream == Shr(old(bitStream), RunBits(RunLength(old(bitStream))) - 2)
      ensures Valid() && (bitCount <= 23 || ip + 5 >= |buf|)
    {
      hide Low, Shr, Pow2;
      n0 := n;
      TestFor24(bitStream);
      ghost var pairs: nat := 0;
      ShrZero(bitStream);
      while Low(bitStream, 2) == 3
        invariant n0 == n + 3 * pairs && bitCount == old(bitCount) + 2 * pairs
        invariant bitStream == Shr(old(bitStream), 2 * pairs) && RunLength(old(bitStream)) == 3 * pairs + RunLength(bitStream)
        decreases bitStream
      {
        ShiftSmaller2(bitStream);
        ShrShr(old(bitStream), 2 * pairs, 2);
        n0 := n0 + 3;
        bitStream := Shr(bitStream, 2);
        bitCount := bitCount + 2;
        pairs := pairs + 1;
      }
      PairBelow(bitStream);
      n0 := n0 + Low(bitStream, 2);
      bitCount := bitCount + 2;
    }

    /** What is known after all codes of a run of `count` symbols. */
    ghost predicate RunRead(start: nat, skip: nat, moved: nat, count: nat)
      reads this
    {
      var v, x := FromLE(buf), Window(FromLE(buf), ip, skip);
      && moved % 24 == 0 && ip == start + moved / 12 && (moved > 0 ==> skip <= 7) && (skip <= 7 || ip + 4 == |buf|)
      && moved + RunLength(Shr(v, 8 * ip + skip)) == RunLength(Shr(v, 8 * start + skip))
      && count == moved + RunLength(x) && bitCount == skip + RunBits(RunLength(x))
      && bitStream == Shr(x, RunBits(RunLength(x)) - 2) && (ip + 5 < |buf| ==> RunLength(x) < 24)
    }

    /** All codes of a run. */
    method ReadRun(n: nat) returns (n0: nat, ghost moved: nat)
      requires Settled()
      modifies this
      ensures Valid() && n0 >= n && (bitCount <= 23 || ip + 5 >= |buf|)
      ensures old(bitCount) < 32 ==> RunRead(old(ip), old(bitCount), moved, n0 - n)
    {
      hide Low, Shr, FromLE, Window, Pow2, RunLength;
      n0, moved := ReadLongRuns(n);
      ghost var shown, count := bitStream, n0 - n;
      TestFor24(shown);
      if old(bitCount) < 32 {
        LongRunBits(RunLength(shown), (count - moved) / 24);
        ShrShr(Window(FromLE(buf), ip, old(bitCount)), 16 * ((count - moved) / 24), RunBits(RunLength(shown)) - 2);
      }
      n0 := ReadShortRuns(n0);
    }

    /** Loads the register anew after a run, unless that would take it beyond the end of the buffer. */
    method Refill()
      requires Valid() && (bitCount <= 23 || ip + 5 >= |buf|)
      modifies this
      ensures Valid() && Pos() == old(Pos()) && (bitCount <= 7 || ip + 5 >= |buf|)
      ensures if old(ip + 7 <= |buf| || ip + bitCount / 8 + 4 <= |buf|) then Settled()
        else ip == old(ip) && bitStream == Shr(old(bitStream), 2)
    {
      hide Low, Shr, Window, FromLE;
      if ip + 7 <= |buf| || ip + bitCount / 8 + 4 <= |buf| {
        ip := ip + bitCount / 8;
        bitCount := bitCount % 8;
        bitStream := Shr(ReadLE(buf, ip, 4), bitCount);
        ReadIsWindow(buf, ip, bitCount);
      } else {
        bitStream := Shr(bitStream, 2);
      }
    }

    /** Takes one count from the register. */
    method TakeCount(remaining: nat, threshold: nat, nbBits: nat) returns (count: int)
      requires Valid() && (bitCount <= 7 || ip + 5 >= |buf|)
      requires 1 < remaining && nbBits == HighBit(remaining) + 1 <= 16 && threshold == Pow2(HighBit(remaining))
      modifies this`bitCount
      ensures (count, bitCount - old(bitCount)) == ReadCount(bitStream, remaining) && -1 <= count < remaining
      ensures Valid() && bitCount >= old(bitCount) && (bitCount <= 23 || ip + 5 >= |buf|)
    {
      hide Low, Shr, Pow2, HighBit;
      var max := 2 * threshold - 1 - remaining;
      TwicePow2(HighBit(remaining));
      LowShr(bitStream, nbBits - 1);
      LowShr(bitStream, nbBits);
      if Low(bitStream, nbBits - 1) < max {
        count := Low(bitStream, nbBits - 1);
        bitCount := bitCount + nbBits - 1;
      } else {
        count := Low(bitStream, nbBits);
        if count >= threshold { count := count - max; }
        bitCount := bitCount + nbBits;
      }
      count := count - 1;
    }

    /** Moves the register to the next count. */
    method Reposition()
      requires Valid() && (bitCount <= 23 || ip + 5 >= |buf|)
      modifies this
      ensures Settled() && Pos() == old(Pos())
    {
      hide Low, Shr, Window, FromLE;
      if ip + 7 <= |buf| || ip + bitCount / 8 + 4 <= |buf| {
        ip := ip + bitCount / 8;
        bitCount := bitCount % 8;
      } else {
        bitCount := bitCount - 8 * (|buf| - 4 - ip);
        ip := |buf| - 4;
      }
      bitStream := Shr(ReadLE(buf, ip, 4), bitCount % 32);
      ReadIsWindow(buf, ip, bitCount % 32);
    }
  }

  /** Four bytes loaded and shifted. */
  lemma {:induction false} ReadIsWindow(buf: seq<Byte>, ip: nat, skip: nat)
    requires ip + 4 <= |buf|
    ensures Shr(ReadLE(buf, ip, 4), skip) == Window(FromLE(buf), ip, skip)
  {
    hide Low, Shr, FromLE;
    FromLEPrefix(buf, ip);
    FromLEPrefix(buf[ip..], 4);
    assert buf[ip..][..4] == buf[ip..ip + 4];
  }

  /** Sixteen ones in the register are sixteen ones in the buffer. */
  lemma {:induction false} RunMovesOn(v: nat, ip: nat, skip: nat)
    requires Low(Window(v, ip, skip), 16) == 0xFFFF
    ensures skip <= 7 ==> RunLength(Shr(v, 8 * ip + skip)) == 24 + RunLength(Shr(v, 8 * (ip + 2) + skip))
  {
    hide Low, Shr, Window, RunLength;
    if skip <= 7 {
      WindowIs(v, ip, skip);
      LowLow(Shr(v, 8 * ip + skip), 16, 32 - skip);
      TestFor24(Shr(v, 8 * ip + skip));
      ShrShr(v, 8 * ip + skip, 16);
    }
  }

  /** What has been read of a run with the register at `ip`: `moved` symbols by moving it on, the others by shifting it. */
  ghost predicate RunsRead(v: nat, n: nat, start: nat, skip: nat, moved: nat, count: nat, ip: nat, bitCount: nat, bitStream: nat) {
    && moved % 24 == 0 && ip == start + moved / 12 && count >= moved && (count - moved) % 24 == 0
    && bitCount == skip + 16 * ((count - moved) / 24) && (count > moved ==> ip + 5 >= n)
    && (moved > 0 ==> skip <= 7) && (skip <= 7 || ip + 4 == n)
    && moved + RunLength(Shr(v, 8 * ip + skip)) == RunLength(Shr(v, 8 * start + skip))
    && bitStream == Shr(Window(v, ip, skip), bitCount - skip)
    && RunLength(Window(v, ip, skip)) == count - moved + RunLength(bitStream)
  }

  lemma {:induction false} RunsMoved(v: nat, n: nat, start: nat, skip: nat, moved: nat, count: nat, ip: nat, bitCount: nat, bitStream: nat)
    requires RunsRead(v, n, start, skip, moved, count, ip, bitCount, bitStream) && Low(bitStream, 16) == 0xFFFF && ip + 5 < n
    ensures RunsRead(v, n, start, skip, moved + 24, count + 24, ip + 2, bitCount, Window(v, ip + 2, bitCount))
  {
    hide Low, Shr, Window, Pow2, RunLength;
    assert count == moved && bitCount == skip;
    ShrZero(Window(v, ip, skip));
    ShrZero(Window(v, ip + 2, skip));
    RunMovesOn(v, ip, skip);
  }

  lemma {:induction false} RunsShifted(v: nat, n: nat, start: nat, skip: nat, moved: nat, count: nat, ip: nat, bitCount: nat, bitStream: nat)
    requires RunsRead(v, n, start, skip, moved, count, ip, bitCount, bitStream) && Low(bitStream, 16) == 0xFFFF && ip + 5 >= n
    ensures RunsRead(v, n, start, skip, moved, count + 24, ip, bitCount + 16, Shr(bitStream, 16))
  {
    hide Low, Shr, Window, Pow2, RunLength;
    TestFor24(bitStream);
    ShrShr(Window(v, ip, skip), bitCount - skip, 16);
  }

  // ---------------------------------------------------------------- one round of the reader

  /** Counts read so far: those from `charnum` on are still zero, and `remaining` cells less one are left. */
  ghost predicate Filled(counts: seq<int>, tableLog: nat, charnum: nat, remaining: int) {
    && charnum <= |counts|
    && (forall s :: 0 <= s < |counts| ==> -1 <= counts[s] && (s >= charnum ==> counts[s] == 0))
    && remaining + Base(counts, charnum) == Pow2(tableLog) + 1 && remaining >= 1
    && (remaining == 1 ==> charnum > 0 && counts[charnum - 1] != 0)
  }

  lemma {:induction false} BaseOfPrefix(a: seq<int>, b: seq<int>, k: nat)
    requires k <= |a| && k <= |b| && a[..k] == b[..k]
    ensures Base(a, k) == Base(b, k)
  {
    if k > 0 {
      assert a[k - 1] == a[..k][k - 1] == b[..k][k - 1] == b[k - 1];
      assert a[..k - 1] == a[..k][..k - 1] == b[..k][..k - 1] == b[..k - 1];
      BaseOfPrefix(a, b, k - 1);
    }
  }

  lemma {:induction false} FillZeros(counts: seq<int>, tableLog: nat, i: nat, j: nat, remaining: int)
    requires Filled(counts, tableLog, i, remaining) && remaining > 1 && i <= j <= |counts|
    ensures Filled(counts, tableLog, j, remaining)
  {
    hide Base, Pow2;
    ZerosTakeNothing(counts, i, j);
  }

  lemma {:induction false} FillCount(counts: seq<int>, tableLog: nat, i: nat, remaining: int, c: int)
    requires Filled(counts, tableLog, i, remaining) && i < |counts| && remaining > 1 && -1 <= c < remaining
    ensures Filled(counts[i := c], tableLog, i + 1, remaining - Cells(c))
  {
    hide Pow2;
    BaseOfPrefix(counts[i := c], counts, i);
  }

  /** Behind a run: the register is stale if it still stops one byte before the end of the buffer and two of its bytes
      are used up; otherwise it shows what comes next. */
  ghost predicate AfterRun(r: Reader, ip: nat, skip: nat)
    reads r
  {
    var x := Window(FromLE(r.buf), ip, skip);
    && r.Valid() && r.Pos() == 8 * ip + skip + RunBits(RunLength(x))
    && if ip + 5 == |r.buf| && skip + RunBits(RunLength(x)) >= 16 then r.ip == ip && r.bitStream == Shr(x, RunBits(RunLength(x)))
       else r.Settled()
  }

  lemma {:induction false} RefilledIs(r: Reader, ip: nat, skip: nat, bits: nat, x: nat)
    requires ip + 4 <= |r.buf| && r.Valid() && x == Window(FromLE(r.buf), ip, skip)
    requires bits == RunBits(RunLength(x)) && r.Pos() == 8 * ip + skip + bits
    requires skip <= 7 || ip + 4 == |r.buf|
    requires ip + 5 < |r.buf| ==> RunLength(x) < 24
    requires if ip + 7 <= |r.buf| || ip + (skip + bits) / 8 + 4 <= |r.buf| then r.Settled() else r.ip == ip && r.bitStream == Shr(x, bits)
    ensures AfterRun(r, ip, skip)
  {
    hide Low, Shr, Window, FromLE, RunLength;
    if ip + 4 == |r.buf| { WindowShift(FromLE(r.buf), ip, skip, bits); }
  }

  /** How a run was read that begins in the register at `start` behind `skip` bits. */
  ghost predicate Skipped(v: nat, n: nat, start: nat, skip: nat, moved: nat, count: nat) {
    var ip := start + moved / 12;
    && moved % 24 == 0 && (moved > 0 ==> skip <= 7) && (skip <= 7 || ip + 4 == n) && ip + 4 <= n
    && moved + RunLength(Shr(v, 8 * ip + skip)) == RunLength(Shr(v, 8 * start + skip))
    && count == moved + RunLength(Window(v, ip, skip)) && (ip + 5 < n ==> RunLength(Window(v, ip, skip)) < 24)
  }

  /** The symbols without cells before the next count. */
  method SkipAbsent(r: Reader, counts: array<int>, maxSV: nat, charnum: nat, remaining: nat, ghost tableLog: nat)
    returns (ok: bool, charnum': nat, ghost n0: nat, ghost moved: nat)
    requires counts.Length == maxSV + 1 && charnum <= maxSV && Filled(counts[..], tableLog, charnum, remaining) && remaining > 1
    requires r.Settled()
    modifies r, counts
    ensures counts[..] == old(counts[..]) && n0 >= charnum && (ok <==> n0 <= maxSV)
    ensures old(r.bitCount) < 32 ==> Skipped(FromLE(r.buf), |r.buf|, old(r.ip), old(r.bitCount), moved, n0 - charnum)
    ensures ok ==> charnum' == n0 && Filled(counts[..], tableLog, n0, remaining) && r.Valid() && (r.bitCount <= 7 || r.ip + 5 >= |r.buf|)
    ensures ok && old(r.bitCount) < 32 ==> AfterRun(r, old(r.ip) + moved / 12, old(r.bitCount))
  {
    hide Pow2, Base, Window, Shr, Low, FromLE, RunLength;
    charnum' := charnum;
    var next;
    next, moved := r.ReadRun(charnum);
    n0 := next;
    if next > maxSV { return false, charnum, n0, moved; }
    FillZeros(counts[..], tableLog, charnum, next, remaining);
    while charnum' < next
      invariant charnum <= charnum' <= next && counts[..] == old(counts[..])
      modifies counts
    {
      counts[charnum'] := 0;
      charnum' := charnum' + 1;
    }
    ghost var ip, skip := r.ip, old(r.bitCount);
    ghost var x := Window(FromLE(r.buf), ip, skip);
    r.Refill();
    if skip < 32 {
      ShrShr(x, RunBits(RunLength(x)) - 2, 2);
      RefilledIs(r, ip, skip, RunBits(RunLength(x)), x);
    }
    ok := true;
  }

  /** A run that is not stale is over before two bytes of the last register but one are used up. */
  lemma {:induction false} NotStale(start: nat, skip: nat, moved: nat, k: nat, n: nat)
    requires skip <= 7 && moved % 24 == 0 && start + moved / 12 + 5 == n && !StaleRun(8 * start + skip, moved + k, n)
    ensures skip + RunBits(k) < 16
  {
    var s := moved / 24;
    assert moved == 24 * s && moved / 12 == 2 * s;
    LongRunBits(k, s);
  }

  /** A run that is not stale is read as it stands in the buffer, and the register is in order behind it. */
  lemma {:induction false} RunIsRight(v: nat, n: nat, start: nat, skip: nat, moved: nat, count: nat, k: nat)
    requires Skipped(v, n, start, skip, moved, count) && skip < 32 && RunLength(Shr(v, 8 * start + skip)) == k && (skip <= 7 || start + 4 == n)
    requires v < Pow2(8 * n) && !StaleRun(8 * start + skip, k, n)
    ensures count == k && !(start + moved / 12 + 5 == n && skip + RunBits(RunLength(Window(v, start + moved / 12, skip))) >= 16)
  {
    hide Low, Shr, Window, RunLength, Pow2, StaleRun;
    var ip := start + moved / 12;
    var y, x, w := Shr(v, 8 * ip + skip), Window(v, ip, skip), 32 - skip;
    WindowIs(v, ip, skip);
    LowOfLow(y, w);
    if ip + 4 == n {
      ShrBound(v, 8 * ip + skip, w);
      LowSmall(y, w);
    } else if ip + 5 == n {
      NotStale(start, skip, moved, k - moved, n);
      RunPrefix(y, x, w);
    } else {
      RunPrefix(x, y, w);
    }
  }

  /** Where the register stands in a stale run: whole steps of two bytes behind its start. */
  lemma {:induction false} StalePlace(start: nat, skip: nat, moved: nat, k: nat, n: nat)
    requires StaleRun(8 * start + skip, k, n) && (skip <= 7 || start + 4 == n) && moved % 24 == 0 && moved <= k && start + moved / 12 + 4 <= n
    ensures skip <= 7 && start + moved / 12 + 5 <= n
    ensures start + moved / 12 + 5 < n ==> k - moved >= 24
    ensures start + moved / 12 + 5 == n ==> skip + RunBits(k - moved) >= 16
  {
    var j := moved / 24;
    assert (8 * start + skip) / 8 >= start;
    assert skip <= 7 && (8 * start + skip) / 8 == start;
    assert moved == 24 * j && moved / 12 == 2 * j;
    LongRunBits(k - moved, j);
    var s := (n - 5 - start) / 2;
    assert n - 5 - start == 2 * s;
    if j < s { assert k >= 24 * (k / 24) >= 24 * s; }
  }

  /** In a stale run what is read comes from the part of the bits that the register holds. */
  lemma {:induction false} RunIsStale(v: nat, n: nat, start: nat, skip: nat, moved: nat, count: nat, k: nat)
    requires Skipped(v, n, start, skip, moved, count) && RunLength(Shr(v, 8 * start + skip)) == k && (skip <= 7 || start + 4 == n)
    requires StaleRun(8 * start + skip, k, n)
    ensures skip <= 7 && start + moved / 12 + 5 == n && moved <= k && moved % 24 == 0
    ensures skip + RunBits(RunLength(Window(v, start + moved / 12, skip))) >= 16
    ensures RunLength(Shr(v, 8 * (start + moved / 12) + skip)) == k - moved
    ensures count == moved + RunLength(Window(v, start + moved / 12, skip))
  {
    hide Low, Shr, Window, RunLength, Pow2, StaleRun;
    var ip := start + moved / 12;
    var y, x, w := Shr(v, 8 * ip + skip), Window(v, ip, skip), 32 - skip;
    StalePlace(start, skip, moved, k, n);
    WindowIs(v, ip, skip);
    LowOfLow(y, w);
    if RunBits(RunLength(x)) <= w { RunPrefix(x, y, w); }
  }

  /** A count is read as it stands in the buffer when the register is in order. */
  lemma {:induction false} CountIsRight(v: nat, n: nat, ip: nat, skip: nat, c: int, r: nat, rest: seq<Field>, end: nat)
    requires 1 < r <= 4097 && -1 <= c < r && Expects(v, 8 * ip + skip, [CountField(c, r)] + rest, end)
    requires (skip <= 7 || ip + 4 == n) && skip < 32 && v < Pow2(8 * n)
    ensures ReadCount(Window(v, ip, skip), r) == (c, CountField(c, r).width)
    ensures Expects(v, 8 * ip + skip + CountField(c, r).width, rest, end)
  {
    hide Low, Shr, Window, Pow2, HighBit, CountField, Begins, Fit, Len;
    var y, w, fs := Shr(v, 8 * ip + skip), 32 - skip, [CountField(c, r)] + rest;
    ExpectsFirst(v, 8 * ip + skip, fs, end);
    assert fs[1..] == rest;
    FirstCount(y, c, r, rest);
    WindowIs(v, ip, skip);
    ThirteenBits(r);
    if ip + 4 == n {
      ShrBound(v, 8 * ip + skip, w);
      LowSmall(y, w);
    } else {
      LowOfLow(y, w);
      CountPrefix(y, Low(y, w), r, w);
    }
  }

  lemma {:induction false} SamePlace(start: nat, skip: nat, moved: nat, k: nat)
    requires moved % 24 == 0 && moved <= k
    ensures 8 * (start + moved / 12) + skip + RunBits(k - moved) == 8 * start + skip + RunBits(k)
  {
    assert moved == 24 * (moved / 24) && moved / 12 == 2 * (moved / 24);
    LongRunBits(k - moved, moved / 24);
  }

  /** The run and the count after it in the stale case: right exactly when the code has no bits in the last byte. */
  lemma {:induction false} StaleStage(v: nat, n: nat, start: nat, skip: nat, moved: nat, count: nat, k: nat, c: int, r: nat,
                                      rest: seq<Field>, end: nat)
    requires Skipped(v, n, start, skip, moved, count) && (skip <= 7 || start + 4 == n) && StaleRun(8 * start + skip, k, n)
    requires 1 < r <= 4097 && -1 <= c < r && Expects(v, 8 * start + skip, ZeroRun(k) + ([CountField(c, r)] + rest), end)
    ensures
      var x := Window(v, start + moved / 12, skip);
      var q, read := 8 * start + skip + StageBits(k, c, r), ReadCount(Shr(x, RunBits(RunLength(x))), r);
      if LastByteBelow(v, n, q) == 0 then count == k && read == (c, CountField(c, r).width) && Expects(v, q, rest, end)
      else count > k || (count == k && read.0 != c) || (count < k && read.0 == -1)
  {
    hide Low, Shr, Window, RunLength, Pow2, HighBit, CountField, ZeroRun, Expects, StaleRun, Len, Skipped, ReadCount, LastByteBelow, RunBits;
    var ip, p, f := start + moved / 12, 8 * start + skip, CountField(c, r);
    var at, w := 8 * ip + skip, 32 - skip;
    RunThere(v, p, k, [f] + rest, end);
    RunIsStale(v, n, start, skip, moved, count, k);
    SamePlace(start, skip, moved, k);
    WindowIs(v, ip, skip);
    BehindRun(v, p, k, [f] + rest, end);
    ExpectsFirst(v, p + RunBits(k), [f] + rest, end);
    assert ([f] + rest)[1..] == rest;
    ShortCase(Shr(v, at), w, k - moved, c, r, v, RunBits(k - moved), at, rest, end);
    LastByteOf(v, n, at, StageBits(k - moved, c, r), w);
  }

  lemma {:induction false} BehindRun(v: nat, p: nat, k: nat, rest: seq<Field>, end: nat)
    requires Expects(v, p, ZeroRun(k) + rest, end)
    ensures Expects(v, p + RunBits(k), rest, end)
  {
    hide Low, Shr, ZeroRun, Fit, Begins, Len;
    RunOfFields(Shr(v, p), k, rest);
    ShrShr(v, p, RunBits(k));
  }

  lemma {:induction false} LastByteOf(v: nat, n: nat, at: nat, bits: nat, w: nat)
    requires n > 0 && at + w == 8 * (n - 1)
    ensures LastByteBelow(v, n, at + bits) == Shr(Low(Shr(v, at), bits), w)
  {
    hide Low, Shr;
    ShrLow(v, at, bits);
    ShrShr(Low(v, at + bits), at, w);
  }

  /** The short stage with the fields known from behind the run. */
  lemma {:induction false} ShortCase(y: nat, w: nat, k: nat, c: int, r: nat, v: nat, bits: nat, at: nat, rest: seq<Field>, end: nat)
    requires r > 1 && -1 <= c < r && y == Shr(v, at) && bits == RunBits(k) && RunLength(y) == k
    requires Expects(v, at + bits, [CountField(c, r)] + rest, end)
    ensures
      var x := Low(y, w);
      var read := ReadCount(Shr(x, RunBits(RunLength(x))), r);
      if Shr(Low(y, StageBits(k, c, r)), w) == 0 then RunLength(x) == k && read == (c, CountField(c, r).width)
      else RunLength(x) > k || (RunLength(x) == k && read.0 != c) || (RunLength(x) < k && read.0 == -1)
  {
    hide Low, Shr, RunLength, Pow2, HighBit, CountField, ZeroRun, Begins, Fit, Len;
    ShrShr(v, at, bits);
    ShortStage(y, w, k, c, r, rest);
    FirstCount(Shr(y, bits), c, r, rest);
    var x := Low(y, w);
    if RunLength(x) == k && ReadCount(Shr(x, bits), r).0 == c { SameCount(Shr(x, bits), Shr(y, bits), r); }
  }

  // ---------------------------------------------------------------- the outcome of one round

  /** The reader is at symbol `charnum` of a header of `norm` and has read all counts before it. */
  ghost predicate Reading(r: Reader, norm: seq<int>, tableLog: nat, charnum: nat, previous0: bool, remaining: int, counts: seq<int>)
    requires Summed(norm, tableLog)
    reads r
  {
    && charnum <= |norm| <= |counts| && remaining == Remaining(norm, tableLog, charnum)
    && Expects(FromLE(r.buf), r.Pos(), FieldsFrom(norm, tableLog, charnum, previous0), Len(Header(norm, tableLog)))
    && Len(Header(norm, tableLog)) <= 8 * |r.buf| && counts[..charnum] == norm[..charnum]
  }

  /** One of the first `n` counts is not that of `norm`. */
  ghost predicate Wrong(counts: seq<int>, norm: seq<int>, n: nat) {
    exists s :: 0 <= s < n && s < |counts| && counts[s] != Expected(norm, s)
  }

  function Expected(norm: seq<int>, s: nat): int { if s < |norm| then norm[s] else 0 }

  /** What a round with a run has read: `count0` symbols, then a count and its bits. Behind a run that is not stale the
      register holds what stands at `ip` behind `late` bits. */
  ghost predicate RunRoundRead(v: nat, n: nat, start: nat, skip: nat, moved: nat, count0: nat, r: nat, count: int, bits: nat, ip: nat, late: nat)
    requires r >= 1
  {
    var x := Window(v, start + moved / 12, skip);
    var m := RunBits(RunLength(x));
    Skipped(v, n, start, skip, moved, count0) &&
    if start + moved / 12 + 5 == n && skip + m >= 16 then (count, bits) == ReadCount(Shr(x, m), r)
    else
      && (late <= 7 || ip + 4 == n) && 8 * ip + late == 8 * (start + moved / 12) + skip + m
      && (late < 32 ==> (count, bits) == ReadCount(Window(v, ip, late), r))
  }

  lemma {:induction false} RunRound(v: nat, n: nat, start: nat, skip: nat, moved: nat, count0: nat, count: int, bits: nat, ip: nat, late: nat,
                                    k: nat, c: int, r: nat, rest: seq<Field>, end: nat)
    requires 1 < r <= 4097 && -1 <= c < r && v < Pow2(8 * n) && n >= 4 && end <= 8 * n && skip < 32
    requires Expects(v, 8 * start + skip, ZeroRun(k) + ([CountField(c, r)] + rest), end)
    requires (skip <= 7 || start + 4 == n) && RunRoundRead(v, n, start, skip, moved, count0, r, count, bits, ip, late)
    ensures
      var q := 8 * start + skip + StageBits(k, c, r);
      if StaleRun(8 * start + skip, k, n) && LastByteBelow(v, n, q) != 0 then
        count0 > k || (count0 == k && count != c) || (count0 < k && count == -1)
      else count0 == k && count == c && bits == CountField(c, r).width && Expects(v, q, rest, end)
  {
    hide Low, Shr, Window, RunLength, Pow2, HighBit, CountField, ZeroRun, StaleRun, Expects, LastByteBelow, ReadCount;
    var p := 8 * start + skip;
    BehindRun(v, p, k, [CountField(c, r)] + rest, end);
    RunThere(v, p, k, [CountField(c, r)] + rest, end);
    if StaleRun(p, k, n) {
      RunIsStale(v, n, start, skip, moved, count0, k);
      StaleStage(v, n, start, skip, moved, count0, k, c, r, rest, end);
    } else {
      RunIsRight(v, n, start, skip, moved, count0, k);
      PosBehindRun(start, skip, moved, RunLength(Window(v, start + moved / 12, skip)));
      BitsLeft(v, p + RunBits(k), c, r, rest, end);
      assert 8 * ip + late == p + RunBits(k);
      CountIsRight(v, n, ip, late, c, r, rest, end);
    }
  }

  lemma {:induction false} PosBehindRun(start: nat, skip: nat, moved: nat, k: nat)
    requires moved % 24 == 0
    ensures 8 * (start + moved / 12) + skip + RunBits(k) == 8 * start + skip + RunBits(moved + k)
  {
    assert moved == 24 * (moved / 24) && moved / 12 == 2 * (moved / 24);
    LongRunBits(k, moved / 24);
  }

  /** The fields of one round, and some bits that are left for them. */
  lemma {:induction false} RoundFields(v: nat, n: nat, p: nat, norm: seq<int>, tableLog: nat, i: nat, previous0: bool, end: nat)
    returns (j: nat, c: int, rest: seq<Field>)
    requires Summed(norm, tableLog) && i <= |norm| && Remaining(norm, tableLog, i) > 1
    requires Expects(v, p, FieldsFrom(norm, tableLog, i, previous0), end) && end <= 8 * n
    ensures j == CountedNext(norm, i, previous0) < |norm| && c == norm[j] && -1 <= c < Remaining(norm, tableLog, i) <= 4097
    ensures previous0 ==> c != 0 && forall s :: i <= s < j ==> norm[s] == 0
    ensures rest == FieldsFrom(norm, tableLog, j + 1, norm[j] == 0) && p < 8 * n
    ensures Remaining(norm, tableLog, j + 1) == Remaining(norm, tableLog, i) - Cells(c)
    ensures
      var f := CountField(c, Remaining(norm, tableLog, i));
      if previous0 then Expects(v, p, ZeroRun(j - i) + ([f] + rest), end) else Expects(v, p, [f] + rest, end)
  {
    hide Pow2, HighBit, Base, CountField, ZeroRun, FieldsFrom, Begins, Fit, Len, Header;
    NextCount(norm, tableLog, i, previous0);
    NextFields(norm, tableLog, i, previous0);
    j := CountedNext(norm, i, previous0);
    c, rest := norm[j], FieldsFrom(norm, tableLog, j + 1, norm[j] == 0);
    SomeBits(norm, tableLog, i, previous0);
    SummedRange(norm, tableLog);
    FirstHighBit(tableLog);
    var f := CountField(c, Remaining(norm, tableLog, i));
    assert [] + ([f] + rest) == [f] + rest;
  }

  /** What a round has read: the symbol `n0` of the next count, the count and its bits. */
  ghost predicate RoundRead(v: nat, n: nat, start: nat, skip: nat, previous0: bool, moved: nat, i: nat, n0: nat, r: nat,
                            count: int, bits: nat, ip: nat, late: nat)
    requires r >= 1
  {
    if previous0 then i <= n0 && RunRoundRead(v, n, start, skip, moved, n0 - i, r, count, bits, ip, late)
    else n0 == i && (count, bits) == ReadCount(Window(v, start, skip), r)
  }

  /** A round that is not bad reads the symbol and the count that are there; a bad one gives a count to a symbol
      that does not have it. */
  lemma {:induction false} RoundOutcome(v: nat, n: nat, start: nat, skip: nat, previous0: bool, moved: nat, i: nat, n0: nat,
                                        count: int, bits: nat, ip: nat, late: nat, norm: seq<int>, tableLog: nat, end: nat)
    returns (j: nat)
    requires Summed(norm, tableLog) && i <= |norm| && Remaining(norm, tableLog, i) > 1 && v < Pow2(8 * n) && n >= 4
    requires Expects(v, 8 * start + skip, FieldsFrom(norm, tableLog, i, previous0), end) && end <= 8 * n
    requires (skip <= 7 || start + 4 == n) && RoundRead(v, n, start, skip, previous0, moved, i, n0, Remaining(norm, tableLog, i), count, bits, ip, late)
    ensures j == CountedNext(norm, i, previous0) < |norm| && -1 <= norm[j] < Remaining(norm, tableLog, i)
    ensures Remaining(norm, tableLog, j + 1) == Remaining(norm, tableLog, i) - Cells(norm[j])
    ensures previous0 ==> norm[j] != 0 && forall s :: i <= s < j ==> norm[s] == 0
    ensures BadStage(v, n, norm, tableLog, i, previous0, 8 * start + skip) ==>
      previous0 && (n0 > j || (n0 == j && count != norm[j]) || (n0 < j && count == -1))
    ensures !BadStage(v, n, norm, tableLog, i, previous0, 8 * start + skip) ==>
      && n0 == j && count == norm[j]
      && 8 * start + skip + (if previous0 then RunBits(j - i) else 0) + bits == StageEnd(norm, tableLog, i, previous0, 8 * start + skip)
      && Expects(v, StageEnd(norm, tableLog, i, previous0, 8 * start + skip), FieldsFrom(norm, tableLog, j + 1, norm[j] == 0), end)
  {
    hide Low, Shr, Window, RunLength, Pow2, HighBit, CountField, ZeroRun, StaleRun, Expects, FieldsFrom, Base, Summed, NextNonzero, LastByteBelow;
    hide RunRoundRead;
    var p, r := 8 * start + skip, Remaining(norm, tableLog, i);
    var c, rest;
    j, c, rest := RoundFields(v, n, p, norm, tableLog, i, previous0, end);
    if previous0 {
      RunRound(v, n, start, skip, moved, n0 - i, count, bits, ip, late, j - i, c, r, rest, end);
    } else {
      CountIsRight(v, n, start, skip, c, r, rest, end);
    }
  }

  lemma {:induction false} RunThere(v: nat, p: nat, k: nat, rest: seq<Field>, end: nat)
    requires Expects(v, p, ZeroRun(k) + rest, end)
    ensures RunLength(Shr(v, p)) == k
  {
    hide Low, Shr, ZeroRun, Fit, Begins, Len;
    RunOfFields(Shr(v, p), k, rest);
  }

  lemma {:induction false} HighBitOfTwo()
    ensures HighBit(2) == 1
  {}

  lemma {:induction false} BitsLeft(v: nat, p: nat, c: int, r: nat, rest: seq<Field>, end: nat)
    requires 1 < r && -1 <= c < r && Expects(v, p, [CountField(c, r)] + rest, end)
    ensures p < end
  {
    hide CountField, Begins, Fit, Shr, HighBit;
    CountFits(c, r);
    FirstWidth([CountField(c, r)] + rest);
    HighBitMono(2, r);
    HighBitOfTwo();
  }

  /** Fields still to come take at least one bit. */
  lemma {:induction false} SomeBits(norm: seq<int>, tableLog: nat, i: nat, previous0: bool)
    requires Summed(norm, tableLog) && i <= |norm|
    ensures FieldsFrom(norm, tableLog, i, previous0) != [] ==> Len(FieldsFrom(norm, tableLog, i, previous0)) > 0
  {
    hide Base;
    var r := Remaining(norm, tableLog, i);
    if r > 1 {
      NextFields(norm, tableLog, i, previous0);
      NextCount(norm, tableLog, i, previous0);
      var j := if previous0 then NextNonzero(norm, i) else i;
      var f := CountField(norm[j], r);
      CountFits(norm[j], r);
      assert HighBit(r) >= 1;
      if previous0 {
        FirstWidth(ZeroRun(j - i) + ([f] + FieldsFrom(norm, tableLog, j + 1, norm[j] == 0)));
      } else {
        FirstWidth([f] + FieldsFrom(norm, tableLog, j + 1, norm[j] == 0));
      }
    }
  }

  lemma {:induction false} FirstWidth(fs: seq<Field>)
    requires fs != [] && fs[0].width > 0
    ensures Len(fs) > 0
  {}

  /** Misread, for a reader that is at symbol `i`. */
  ghost predicate Ahead(r: Reader, norm: seq<int>, tableLog: nat, i: nat, previous0: bool)
    requires Summed(norm, tableLog) && i <= |norm| && r.buf != []
    reads r
  {
    Misread(FromLE(r.buf), |r.buf|, norm, tableLog, i, previous0, r.Pos())
  }

  /** A count that a bad round gives to a symbol stays there. */
  lemma {:induction false} BadCount(before: seq<int>, counts: seq<int>, norm: seq<int>, tableLog: nat, i: nat, j: nat, n0: nat, count: int, remaining: int)
    requires Filled(before, tableLog, i, remaining) && i <= n0 < |before| == |counts|
    requires counts == before[n0 := count] && i <= j < |norm| <= |counts|
    requires norm[j] != 0 && forall s :: i <= s < j ==> norm[s] == 0
    requires n0 > j || (n0 == j && count != norm[j]) || (n0 < j && count == -1)
    ensures Wrong(counts, norm, n0 + 1)
  {
    hide Base, Pow2;
    var s := if n0 > j then j else n0;
    assert counts[s] != Expected(norm, s);
  }

  /** A good round brings the reader to the next symbol. */
  lemma {:induction false} GoodCount(before: seq<int>, counts: seq<int>, norm: seq<int>, tableLog: nat, i: nat, previous0: bool, j: nat, remaining: int)
    requires Summed(norm, tableLog) && i <= |norm| <= |before| && before[..i] == norm[..i]
    requires i <= j == CountedNext(norm, i, previous0) < |norm|
    requires Filled(before, tableLog, i, remaining) && counts == before[j := norm[j]]
    ensures counts[..j + 1] == norm[..j + 1]
  {
    hide Base, Pow2, Summed;
    forall s | 0 <= s < j + 1 ensures counts[s] == norm[s] {
      if s < i { assert before[..i][s] == norm[..i][s]; }
    }
  }

  /** What the register holds before the count is taken. */
  lemma {:induction false} BeforeCount(r: Reader, start: nat, skip: nat, previous0: bool, moved: nat, i: nat, n0: nat, remaining: nat)
    requires remaining >= 1 && skip < 32 && i <= n0
    requires if previous0 then Skipped(FromLE(r.buf), |r.buf|, start, skip, moved, n0 - i) && AfterRun(r, start + moved / 12, skip)
      else r.Settled() && r.ip == start && r.bitCount == skip && n0 == i
    ensures r.Pos() == 8 * start + skip + if previous0 then RunBits(n0 - i) else 0
    ensures
      var read := ReadCount(r.bitStream, remaining);
      read.1 >= 0 && RoundRead(FromLE(r.buf), |r.buf|, start, skip, previous0, moved, i, n0, remaining, read.0, read.1, r.ip, r.bitCount)
  {
    hide Window, Shr, Low, FromLE, RunLength, HighBit, Pow2, ReadCount;
    NoNegativeWidth(r.bitStream, remaining);
    if previous0 {
      LongRunBits(RunLength(Window(FromLE(r.buf), start + moved / 12, skip)), moved / 24);
    }
  }

  lemma {:induction false} NoNegativeWidth(x: nat, r: nat)
    requires r >= 1
    ensures ReadCount(x, r).1 >= 0
  {}

  /** What a round comes to. */
  lemma {:induction false} RoundDone(r: Reader, start: nat, skip: nat, previous0: bool, moved: nat, i: nat, n0: nat, count: int, bits: nat,
                                     ip: nat, late: nat, norm: seq<int>, tableLog: nat, before: seq<int>, counts: seq<int>)
    requires Summed(norm, tableLog) && i <= |norm| <= |before| && before[..i] == norm[..i] && |r.buf| >= 4
    requires Remaining(norm, tableLog, i) > 1 && Filled(before, tableLog, i, Remaining(norm, tableLog, i))
    requires Expects(FromLE(r.buf), 8 * start + skip, FieldsFrom(norm, tableLog, i, previous0), Len(Header(norm, tableLog)))
    requires Len(Header(norm, tableLog)) <= 8 * |r.buf| && (skip <= 7 || start + 4 == |r.buf|)
    requires RoundRead(FromLE(r.buf), |r.buf|, start, skip, previous0, moved, i, n0, Remaining(norm, tableLog, i), count, bits, ip, late)
    requires r.Pos() == 8 * start + skip + (if previous0 then RunBits(n0 - i) else 0) + bits
    requires n0 < |before| && counts == before[n0 := count]
    ensures
      var bad := Misread(FromLE(r.buf), |r.buf|, norm, tableLog, i, previous0, 8 * start + skip);
      || (bad && Wrong(counts, norm, n0 + 1))
      || (Reading(r, norm, tableLog, n0 + 1, count == 0, Remaining(norm, tableLog, i) - Cells(count), counts)
          && (bad <==> Ahead(r, norm, tableLog, n0 + 1, count == 0)))
  {
    hide Len, Pow2, HighBit, Header, FieldsFrom, CountField, ZeroRun, Base, Fit, Expects, Window, Shr, Low, FromLE, RunLength, Begins;
    hide BadStage, StaleRun, LastByteBelow, CountedNext, StageEnd, Filled, RunRoundRead, Wrong;
    var v, n, p := FromLE(r.buf), |r.buf|, 8 * start + skip;
    FromLEBound(r.buf);
    var j := RoundOutcome(v, n, start, skip, previous0, moved, i, n0, count, bits, ip, late, norm, tableLog, Len(Header(norm, tableLog)));
    if BadStage(v, n, norm, tableLog, i, previous0, p) {
      BadCount(before, counts, norm, tableLog, i, j, n0, count, Remaining(norm, tableLog, i));
    } else {
      GoodCount(before, counts, norm, tableLog, i, previous0, j, Remaining(norm, tableLog, i));
    }
  }

  /** Either all counts so far are those of `norm`, or one is not and will stay so. `misread` tells whether a round is bad. */
  ghost predicate OnCourse(r: Reader, norm: seq<int>, tableLog: nat, i: nat, previous0: bool, remaining: int, counts: seq<int>, misread: bool)
    requires Summed(norm, tableLog) && r.buf != []
    reads r
  {
    || (misread && Wrong(counts, norm, i))
    || (Reading(r, norm, tableLog, i, previous0, remaining, counts) && (misread <==> Ahead(r, norm, tableLog, i, previous0)))
  }

  lemma {:induction false} WrongStays(before: seq<int>, counts: seq<int>, norm: seq<int>, n: nat, n': nat)
    requires Wrong(before, norm, n) && n <= n' && n <= |before| == |counts| && before[..n] == counts[..n]
    ensures Wrong(counts, norm, n')
  {
    var s :| 0 <= s < n && s < |before| && before[s] != Expected(norm, s);
    assert before[..n][s] == counts[..n][s];
    assert counts[s] != Expected(norm, s);
  }

  /** One round of the loop. As long as the reader has read what is there, it goes on doing so until a bad round. */
  method ReadSymbol(r: Reader, counts: array<int>, maxSV: nat, charnum: nat, previous0: bool, remaining: nat, threshold: nat, nbBits: nat,
                    ghost good: bool, ghost norm: seq<int>, ghost tableLog: nat, ghost misread: bool)
    returns (ok: bool, charnum': nat, previous0': bool, remaining': nat)
    requires counts.Length == maxSV + 1 && charnum <= maxSV && Filled(counts[..], tableLog, charnum, remaining) && remaining > 1
    requires r.Settled() && |r.buf| >= 4 && nbBits == HighBit(remaining) + 1 <= 16 && threshold == Pow2(HighBit(remaining))
    requires good ==> Summed(norm, tableLog) && OnCourse(r, norm, tableLog, charnum, previous0, remaining, counts[..], misread)
    modifies r, counts
    ensures ok ==> charnum < charnum' <= maxSV + 1 && Filled(counts[..], tableLog, charnum', remaining') && r.Settled() && remaining' <= remaining
    ensures good && ok ==> OnCourse(r, norm, tableLog, charnum', previous0', remaining', counts[..], misread)
    ensures good && !ok ==> misread
  {
    hide Value, Len, Pow2, HighBit, Header, FieldsFrom, CountField, ZeroRun, Base, Fit, Expects, Window, Shr, Low, FromLE, RunLength, Begins;
    hide BadStage, StaleRun, LastByteBelow, CountedNext, StageEnd, Filled, RoundRead, Skipped, AfterRun, ReadCount, Summed, Wrong, Misread;
    ghost var v, n, start, skip := FromLE(r.buf), |r.buf|, r.ip, r.bitCount;
    ghost var n0, moved: nat, end, before := charnum, 0, 0, counts[..];
    ghost var sound := good && !(misread && Wrong(before, norm, charnum));
    charnum', previous0', remaining' := charnum, previous0, remaining;
    if sound {
      end := Len(Header(norm, tableLog));
      FromLEBound(r.buf);
      StartOfRound(r, norm, tableLog, charnum, previous0, end);
    }
    if previous0 {
      ok, charnum', n0, moved := SkipAbsent(r, counts, maxSV, charnum, remaining, tableLog);
      if !ok {
        if sound { TooFar(v, n, start, skip, moved, charnum, n0, norm, tableLog, end); }
        return;
      }
    }
    ghost var ip, late := r.ip, r.bitCount;
    if sound { BeforeCount(r, start, skip, previous0, moved, charnum, n0, remaining); }
    var count := r.TakeCount(remaining, threshold, nbBits);
    ghost var bits := r.bitCount - late;
    remaining' := remaining - Cells(count);
    counts[charnum'] := count;
    assert counts[..] == before[charnum' := count];
    FillCount(before, tableLog, charnum', remaining, count);
    charnum' := charnum' + 1;
    previous0' := count == 0;
    r.Reposition();
    ok := true;
    if sound {
      RoundDone(r, start, skip, previous0, moved, charnum, n0, count, bits, ip, late, norm, tableLog, before, counts[..]);
    } else if good {
      WrongStays(before, counts[..], norm, charnum, charnum');
    }
  }

  lemma {:induction false} StartOfRound(r: Reader, norm: seq<int>, tableLog: nat, i: nat, previous0: bool, end: nat)
    requires Summed(norm, tableLog) && i <= |norm| && Remaining(norm, tableLog, i) > 1 && r.Settled()
    requires Expects(FromLE(r.buf), r.Pos(), FieldsFrom(norm, tableLog, i, previous0), end) && end <= 8 * |r.buf|
    ensures r.bitCount < 32
  {
    hide FromLE, Expects, FieldsFrom, Base, Pow2, Window;
    var j, c, rest := RoundFields(FromLE(r.buf), |r.buf|, r.Pos(), norm, tableLog, i, previous0, end);
  }

  /** A run that is read as reaching beyond the last symbol. */
  lemma {:induction false} TooFar(v: nat, n: nat, start: nat, skip: nat, moved: nat, i: nat, n0: nat, norm: seq<int>, tableLog: nat, end: nat)
    requires Summed(norm, tableLog) && i <= |norm| <= n0 && Remaining(norm, tableLog, i) > 1 && v < Pow2(8 * n) && n >= 4 && skip < 32
    requires Expects(v, 8 * start + skip, FieldsFrom(norm, tableLog, i, true), end) && end <= 8 * n
    requires (skip <= 7 || start + 4 == n) && Skipped(v, n, start, skip, moved, n0 - i)
    ensures Misread(v, n, norm, tableLog, i, true, 8 * start + skip)
  {
    hide Low, Shr, Window, RunLength, Pow2, HighBit, CountField, ZeroRun, StaleRun, Expects, FieldsFrom, Base, Summed, LastByteBelow;
    var r := Remaining(norm, tableLog, i);
    var x := Window(v, start + moved / 12, skip);
    var m := RunBits(RunLength(x));
    var pos := 8 * (start + moved / 12) + skip + m;
    var ip := if pos / 8 + 4 <= n then pos / 8 else n - 4;
    var read := if start + moved / 12 + 5 == n && skip + m >= 16 then ReadCount(Shr(x, m), r) else ReadCount(Window(v, ip, pos - 8 * ip), r);
    if start + moved / 12 + 5 != n || skip + m < 16 { assert ip + 4 == n || pos - 8 * ip <= 7; }
    CountBits(if start + moved / 12 + 5 == n && skip + m >= 16 then Shr(x, m) else Window(v, ip, pos - 8 * ip), r);
    var j := RoundOutcome(v, n, start, skip, true, moved, i, n0, read.0, read.1, ip, pos - 8 * ip, norm, tableLog, end);
  }

  lemma {:induction false} CountBits(x: nat, r: nat)
    requires r >= 1
    ensures ReadCount(x, r).1 >= 0
  {}

  // ---------------------------------------------------------------- readNCount

  /** The buffer starts with the header of `norm`. */
  ghost predicate HasHeader(buf: seq<Byte>, norm: seq<int>, tableLog: nat) {
    && Summed(norm, tableLog)
    && var size := (Len(Header(norm, tableLog)) + 7) / 8;
    size <= |buf| && HeaderBytes(buf[..size], Header(norm, tableLog))
  }

  /** Some round of reading it is bad. Its fields begin at bit 4. */
  ghost predicate HeaderMisread(buf: seq<Byte>, norm: seq<int>, tableLog: nat)
    requires Summed(norm, tableLog)
  {
    buf != [] && Misread(FromLE(buf), |buf|, norm, tableLog, 0, false, 4)
  }

  /** All counts, followed by zeros, and the size of the header have been read. */
  ghost predicate Recovered(result: ReadResult, counts: seq<int>, norm: seq<int>, tableLog: nat)
    requires Summed(norm, tableLog)
  {
    && result.Counts? && result.size == (Len(Header(norm, tableLog)) + 7) / 8 && result.tableLog == tableLog
    && forall s :: 0 <= s < |counts| ==> counts[s] == Expected(norm, s)
  }

  lemma {:induction false} HeaderComesFirst(buf: seq<Byte>, norm: seq<int>, tableLog: nat)
    requires HasHeader(buf, norm, tableLog)
    ensures Low(FromLE(buf), 4) + MIN_TABLELOG == tableLog && Len(Header(norm, tableLog)) <= 8 * |buf|
    ensures Expects(FromLE(buf), 4, FieldsFrom(norm, tableLog, 0, false), Len(Header(norm, tableLog)))
  {
    hide Len, Value, FieldsFrom, FromLE, Low, Shr, Pow2;
    var header := Header(norm, tableLog);
    var size := (Len(header) + 7) / 8;
    HeaderFits(norm, tableLog);
    FromLEPrefix(buf, size);
    LowLow(FromLE(buf), Len(header), 8 * size);
    ValueBound(header);
    LowSmall(Value(header), Len(header));
    ShrZero(FromLE(buf));
    ExpectsFirst(FromLE(buf), 0, header, Len(header));
    assert header[1..] == FieldsFrom(norm, tableLog, 0, false);
  }

  lemma {:induction false} ZeroPadded(buf: seq<Byte>, padding: seq<Byte>, norm: seq<int>, tableLog: nat)
    requires |buf| < 4 && |buf + padding| == 4 && HasHeader(buf, norm, tableLog)
    ensures HasHeader(buf + padding, norm, tableLog)
  {
    hide Len, Value, Header, HeaderBytes;
    var size := (Len(Header(norm, tableLog)) + 7) / 8;
    assert (buf + padding)[..size] == buf[..size];
  }

  /** Buffers of at most four bytes are read in one go. */
  lemma {:induction false} ShortNotStale(v: nat, n: nat, norm: seq<int>, tableLog: nat, i: nat, previous0: bool, p: nat)
    requires 0 < n <= 4 && i <= |norm| && forall s :: 0 <= s < |norm| ==> -1 <= norm[s]
    ensures !Misread(v, n, norm, tableLog, i, previous0, p)
    decreases |norm| - i
  {
    hide Base, Pow2, CountField, LastByteBelow, CountedNext, StageEnd;
    var j := CountedNext(norm, i, previous0);
    if Remaining(norm, tableLog, i) > 1 && j < |norm| {
      ShortNotStale(v, n, norm, tableLog, j + 1, norm[j] == 0, StageEnd(norm, tableLog, i, previous0, p));
    }
  }

  lemma {:induction false} FromLEPadded(buf: seq<Byte>, padding: seq<Byte>)
    requires forall i :: 0 <= i < |padding| ==> padding[i] == 0
    ensures FromLE(buf + padding) == FromLE(buf)
  {
    hide FromLE, Shl;
    FromLEConcat(buf, padding);
    FromLEZeros(padding);
    ShlOne(8 * |buf|);
  }

  lemma {:induction false} FromLEZeros(s: seq<Byte>)
    requires forall i :: 0 <= i < |s| ==> s[i] == 0
    ensures FromLE(s) == 0
  {
    if s != [] {
      FromLEZeros(s[1..]);
      ShlOne(8);
    }
  }

  /** When no cells are left, the counts read are all of `norm` but trailing zeros, and the header is over. */
  lemma {:induction false} AllRead(r: Reader, norm: seq<int>, tableLog: nat, charnum: nat, previous0: bool, remaining: int, counts: seq<int>)
    requires Summed(norm, tableLog) && Reading(r, norm, tableLog, charnum, previous0, remaining, counts) && r.Settled()
    requires remaining <= 1 || charnum == |counts|
    requires Filled(counts, tableLog, charnum, remaining)
    ensures remaining == 1 && r.bitCount <= 32
    ensures r.Pos() == Len(Header(norm, tableLog))
    ensures forall s :: 0 <= s < |counts| ==> counts[s] == Expected(norm, s)
  {
    hide Header, Base, Pow2, FromLE, Shr, Low, Fit, Window, Begins;
    CountsMono(norm, charnum, |norm|);
    assert FieldsFrom(norm, tableLog, charnum, previous0) == [];
    forall s | 0 <= s < |counts| ensures counts[s] == Expected(norm, s) {
      if s < charnum {
        assert counts[s] == counts[..charnum][s] == norm[..charnum][s];
      } else if s < |norm| {
        CountsMono(norm, charnum, s);
        CountsMono(norm, s + 1, |norm|);
        BaseStep(norm, s);
      }
    }
  }

  lemma {:induction false} ReadingEnds(r: Reader, norm: seq<int>, tableLog: nat, charnum: nat, previous0: bool, remaining: int, counts: seq<int>, misread: bool)
    requires Summed(norm, tableLog) && r.buf != []
    requires OnCourse(r, norm, tableLog, charnum, previous0, remaining, counts, misread) && r.Settled()
    requires (remaining <= 1 || charnum == |counts|) && Filled(counts, tableLog, charnum, remaining)
    ensures misread ==> !forall s :: 0 <= s < |counts| ==> counts[s] == Expected(norm, s)
    ensures !misread ==> remaining == 1 && r.bitCount <= 32 && r.Pos() == Len(Header(norm, tableLog))
    ensures !misread ==> forall s :: 0 <= s < |counts| ==> counts[s] == Expected(norm, s)
  {
    hide Header, Base, Pow2, FromLE, Expects, Window, Len;
    if !(misread && Wrong(counts, norm, charnum)) { AllRead(r, norm, tableLog, charnum, previous0, remaining, counts); }
  }

  lemma {:induction false} BaseStep(norm: seq<int>, s: nat)
    requires s < |norm|
    ensures Base(norm, s + 1) == Base(norm, s) + Cells(norm[s])
  {}

  /** A table that the counts of an accepted header describe. */
  ghost predicate Accepted(counts: seq<int>, maxSymbol: nat, tableLog: nat) {
    && MIN_TABLELOG <= tableLog <= ABSOLUTE_MAX && maxSymbol < |counts|
    && (forall s :: 0 <= s < |counts| ==> -1 <= counts[s] && (s > maxSymbol ==> counts[s] == 0))
    && counts[maxSymbol] != 0 && Base(counts, maxSymbol + 1) == Pow2(tableLog)
  }

  lemma {:induction false} StartReading(r: Reader, norm: seq<int>, tableLog: nat, counts: seq<int>, misread: bool)
    requires HasHeader(r.buf, norm, tableLog) && |norm| <= |counts| && r.Pos() == 4 && r.buf != []
    requires misread <==> HeaderMisread(r.buf, norm, tableLog)
    ensures OnCourse(r, norm, tableLog, 0, false, Pow2(tableLog) + 1, counts, misread)
  {
    hide Pow2, Header, FieldsFrom, Expects, FromLE;
    HeaderComesFirst(r.buf, norm, tableLog);
  }

  /** PBC_FSE_readNCount into an array for the symbols up to maxSV. Whatever the bytes are, counts that are
      accepted fill the table exactly and no byte outside the buffer is read; and the header of `norm` is
      read back as `norm` if and only if no round of reading it is bad. */
  method ReadNCount(buf: seq<Byte>, maxSV: nat, counts: array<int>, ghost norm: seq<int>, ghost tableLog: nat) returns (result: ReadResult)
    requires counts.Length == maxSV + 1
    modifies counts
    ensures result == ReadResult.TableLogTooLarge <==> Low(FromLE(buf), 4) + MIN_TABLELOG > ABSOLUTE_MAX
    ensures result.Counts? ==> result.size <= |buf| && Accepted(counts[..], result.maxSymbol, result.tableLog)
    ensures HasHeader(buf, norm, tableLog) && |norm| <= maxSV + 1 ==>
      (Recovered(result, counts[..], norm, tableLog) <==> !HeaderMisread(buf, norm, tableLog))
    decreases if |buf| < 4 then 1 else 0
  {
    hide Value, Len, Pow2, HighBit, Header, FieldsFrom, Base, Window, Low, FromLE, Misread, OnCourse, HasHeader, Shr;
    ghost var good := HasHeader(buf, norm, tableLog) && |norm| <= maxSV + 1;
    if good { HeaderSummed(buf, norm, tableLog); }
    if |buf| < 4 {
      var padding := seq(4 - |buf|, i => 0);
      if good {
        ZeroPadded(buf, padding, norm, tableLog);
        if buf != [] { ShortNotStale(FromLE(buf), |buf|, norm, tableLog, 0, false, 4); }
        ShortNotStale(FromLE(buf + padding), 4, norm, tableLog, 0, false, 4);
      }
      FromLEPadded(buf, padding);
      result := ReadNCount(buf + padding, maxSV, counts, norm, tableLog);
      if result.Counts? && result.size > |buf| { result := Corruption; }
      return;
    }
    forall i | 0 <= i <= maxSV { counts[i] := 0; }
    var r := new Reader(buf);
    var nbBits := Low(r.bitStream, 4) + MIN_TABLELOG;
    WindowIs(FromLE(buf), 0, 0);
    LowLow(FromLE(buf), 4, 32);
    ShrZero(FromLE(buf));
    if good { HeaderComesFirst(buf, norm, tableLog); }
    if nbBits > ABSOLUTE_MAX { return ReadResult.TableLogTooLarge; }
    r.bitStream := Shr(r.bitStream, 4);
    r.bitCount := 4;
    WindowShift(FromLE(buf), 0, 0, 4);
    var readLog := nbBits;
    var charnum: nat, previous0: bool, remaining: nat, threshold: nat := 0, false, Pow2(nbBits) + 1, Pow2(nbBits);
    StartFilled(counts[..], readLog);
    ReadHighBit(readLog);
    nbBits := nbBits + 1;
    ghost var misread := good && HeaderMisread(buf, norm, tableLog);
    if good { StartReading(r, norm, tableLog, counts[..], misread); }
    while remaining > 1 && charnum <= maxSV
      invariant charnum <= maxSV + 1 && remaining >= 1 && Filled(counts[..], readLog, charnum, remaining) && r.Settled()
      invariant nbBits == HighBit(remaining) + 1 <= readLog + 1 && threshold == Pow2(HighBit(remaining))
      invariant good ==> OnCourse(r, norm, tableLog, charnum, previous0, remaining, counts[..], misread)
      decreases maxSV + 1 - charnum
    {
      var ok;
      ghost var before: nat := remaining;
      ok, charnum, previous0, remaining := ReadSymbol(r, counts, maxSV, charnum, previous0, remaining, threshold, nbBits, good, norm, readLog, misread);
      if !ok { return MaxSymbolTooSmall; }
      TwicePow2(HighBit(before));
      HighBitMono(remaining, before);
      threshold, nbBits := Lower(remaining, threshold, nbBits);
    }
    if good { ReadingEnds(r, norm, tableLog, charnum, previous0, remaining, counts[..], misread); }
    if remaining != 1 { return Corruption; }
    if r.bitCount > 32 { return Corruption; }
    result := Counts(r.ip + (r.bitCount + 7) / 8, charnum - 1, readLog);
  }

  lemma {:induction false} HeaderSummed(buf: seq<Byte>, norm: seq<int>, tableLog: nat)
    requires HasHeader(buf, norm, tableLog)
    ensures Summed(norm, tableLog) && (Len(Header(norm, tableLog)) + 7) / 8 <= |buf|
  {}

  lemma {:induction false} StartFilled(counts: seq<int>, tableLog: nat)
    requires forall s :: 0 <= s < |counts| ==> counts[s] == 0
    ensures Filled(counts, tableLog, 0, Pow2(tableLog) + 1) && Pow2(tableLog) + 1 > 1
  {
    hide Pow2;
  }

  lemma {:induction false} ReadHighBit(tableLog: nat)
    requires tableLog >= 1
    ensures HighBit(Pow2(tableLog) + 1) == tableLog
  {
    hide HighBit;
    Pow2Mono(1, tableLog);
    TwicePow2(tableLog);
    HighBitUnique(Pow2(tableLog) + 1, tableLog);
  }
}
