/** Two pools on top of each other, as the trainer uses them: the main thread gives jobs to the outer
    pool, every job gives parts to the inner pool and waits for their results, and the main thread waits
    for the jobs. Nothing ever stalls, and every run comes to its end with each task run once. */
module NestedPools {
  import opened ThreadPool

  /** Part number `part` of job number `job`. */
  datatype Part = Part(job: nat, part: nat)

  datatype System = System(
    outer: Pool<nat>,
    inner: Pool<Part>,
    /** Jobs the main thread has submitted, and jobs whose results it has got. */
    submitted: nat,
    awaited: nat,
    /** For each job the parts it has submitted, and those whose results it has got. */
    sent: seq<nat>,
    got: seq<nat>)

  datatype Step =
    | MainSubmit | MainWait
    | OuterNotify(i: nat) | OuterCheck(i: nat) | JobSubmit(i: nat, t: nat) | JobWait(i: nat, t: nat) | JobDone(i: nat, t: nat)
    | InnerNotify(i: nat) | InnerCheck(i: nat) | InnerFinish(i: nat)
    | OuterSpurious(i: nat) | InnerSpurious(i: nat)

  /** The job that worker `i` of the outer pool is running. */
  ghost predicate Runs(jobs: seq<nat>, s: System, i: nat, t: nat) {
    i < |s.outer.workers| && s.outer.workers[i] == Running(t) && t < |jobs| == |s.sent| == |s.got|
  }

  /** One step of the system. `jobs` are the numbers of parts. */
  ghost predicate Does(jobs: seq<nat>, s: System, s': System, step: Step) {
    match step
    case MainSubmit =>
      s.submitted < |jobs| && Push(s.outer, s'.outer, s.submitted) && s' == s.(outer := s'.outer, submitted := s.submitted + 1)
    case MainWait =>
      && s.submitted == |jobs| && s.awaited < |jobs| && s.awaited in s.outer.finished
      && s' == s.(awaited := s.awaited + 1)
    case OuterNotify(i) => Notify(s.outer, s'.outer, i) && s' == s.(outer := s'.outer)
    case OuterCheck(i) => Check(s.outer, s'.outer, i) && s' == s.(outer := s'.outer)
    case JobSubmit(i, t) =>
      && Runs(jobs, s, i, t) && s.sent[t] < jobs[t] && Push(s.inner, s'.inner, Part(t, s.sent[t]))
      && s' == s.(inner := s'.inner, sent := s.sent[t := s.sent[t] + 1])
    case JobWait(i, t) =>
      && Runs(jobs, s, i, t) && s.sent[t] == jobs[t] && s.got[t] < jobs[t] && Part(t, s.got[t]) in s.inner.finished
      && s' == s.(got := s.got[t := s.got[t] + 1])
    case JobDone(i, t) =>
      && Runs(jobs, s, i, t) && s.sent[t] == jobs[t] == s.got[t] && Finish(s.outer, s'.outer, i)
      && s' == s.(outer := s'.outer)
    case InnerNotify(i) => Notify(s.inner, s'.inner, i) && s' == s.(inner := s'.inner)
    case InnerCheck(i) => Check(s.inner, s'.inner, i) && s' == s.(inner := s'.inner)
    case InnerFinish(i) => Finish(s.inner, s'.inner, i) && s' == s.(inner := s'.inner)
    case OuterSpurious(i) => Spurious(s.outer, s'.outer, i) && s' == s.(outer := s'.outer)
    case InnerSpurious(i) => Spurious(s.inner, s'.inner, i) && s' == s.(inner := s'.inner)
  }

  predicate Lucky(step: Step) { step.OuterSpurious? || step.InnerSpurious? }

  ghost predicate Begin(jobs: seq<nat>, s: System) {
    && Start(s.outer) && Start(s.inner) && s.submitted == s.awaited == 0
    && |s.sent| == |s.got| == |jobs| && forall t :: 0 <= t < |jobs| ==> s.sent[t] == s.got[t] == 0
  }

  // ---------------------------------------------------------------- invariant

  /** The outer pool: each job is pushed once, ends with all its results, and is awaited after it. */
  ghost predicate JobsOk(jobs: seq<nat>, outer: Pool<nat>, submitted: nat, awaited: nat, got: seq<nat>) {
    && Inv(outer) && !outer.stop && |got| == |jobs| && awaited <= submitted <= |jobs|
    && (forall t: nat :: outer.pushed[t] == if t < submitted then 1 else 0)
    && (forall t: nat :: t in outer.finished ==> t < |jobs| && got[t] == jobs[t])
    && (forall t: nat :: t < awaited ==> t in outer.finished)
  }

  /** The inner pool: each part is pushed once, and is got after it has run. */
  ghost predicate PartsOk(jobs: seq<nat>, inner: Pool<Part>, sent: seq<nat>, got: seq<nat>) {
    && Inv(inner) && !inner.stop && |sent| == |got| == |jobs|
    && (forall t :: 0 <= t < |jobs| ==> got[t] <= sent[t] <= jobs[t])
    && (forall x: Part :: inner.pushed[x] == if x.job < |jobs| && x.part < sent[x.job] then 1 else 0)
    && (forall x: Part :: x.job < |jobs| && x.part < got[x.job] ==> x in inner.finished)
  }

  ghost predicate SystemInv(jobs: seq<nat>, s: System) {
    JobsOk(jobs, s.outer, s.submitted, s.awaited, s.got) && PartsOk(jobs, s.inner, s.sent, s.got)
  }

  lemma {:induction false} BeginInv(jobs: seq<nat>, s: System)
    requires Begin(jobs, s)
    ensures SystemInv(jobs, s)
  {
    hide Inv;
    StartInv(s.outer);
    StartInv(s.inner);
  }

  lemma {:induction false} OuterInv(jobs: seq<nat>, s: System, s': System, step: Step)
    requires JobsOk(jobs, s.outer, s.submitted, s.awaited, s.got) && Does(jobs, s, s', step)
    requires step.OuterNotify? || step.OuterCheck? || step.OuterSpurious? || step.MainSubmit? || step.MainWait?
    ensures JobsOk(jobs, s'.outer, s'.submitted, s'.awaited, s'.got)
  {
    hide Inv;
    match step
    case MainSubmit => PushInv(s.outer, s'.outer, s.submitted);
    case OuterNotify(i) => NotifyInv(s.outer, s'.outer, i);
    case OuterCheck(i) => CheckInv(s.outer, s'.outer, i);
    case OuterSpurious(i) => SpuriousInv(s.outer, s'.outer, i);
    case _ =>
  }

  lemma {:induction false} InnerInv(jobs: seq<nat>, s: System, s': System, step: Step)
    requires PartsOk(jobs, s.inner, s.sent, s.got) && Does(jobs, s, s', step)
    requires step.InnerNotify? || step.InnerCheck? || step.InnerSpurious? || step.InnerFinish?
    ensures PartsOk(jobs, s'.inner, s'.sent, s'.got)
  {
    hide Inv;
    match step
    case InnerNotify(i) => NotifyInv(s.inner, s'.inner, i);
    case InnerCheck(i) => CheckInv(s.inner, s'.inner, i);
    case InnerSpurious(i) => SpuriousInv(s.inner, s'.inner, i);
    case InnerFinish(i) => FinishInv(s.inner, s'.inner, i);
    case _ =>
  }

  lemma {:induction false} SubmitInv(jobs: seq<nat>, s: System, s': System, i: nat, t: nat)
    requires SystemInv(jobs, s) && Does(jobs, s, s', JobSubmit(i, t))
    ensures SystemInv(jobs, s')
  {
    hide Inv, JobsOk;
    PushInv(s.inner, s'.inner, Part(t, s.sent[t]));
  }

  lemma {:induction false} WaitInv(jobs: seq<nat>, s: System, s': System, i: nat, t: nat)
    requires SystemInv(jobs, s) && Does(jobs, s, s', JobWait(i, t))
    ensures SystemInv(jobs, s')
  {
    hide Inv;
  }

  lemma {:induction false} DoneInv(jobs: seq<nat>, s: System, s': System, i: nat, t: nat)
    requires SystemInv(jobs, s) && Does(jobs, s, s', JobDone(i, t))
    ensures SystemInv(jobs, s')
  {
    hide Inv, PartsOk;
    FinishInv(s.outer, s'.outer, i);
  }

  lemma {:induction false} StepInv(jobs: seq<nat>, s: System, s': System, step: Step)
    requires SystemInv(jobs, s) && Does(jobs, s, s', step)
    ensures SystemInv(jobs, s')
  {
    match step
    case JobSubmit(i, t) => SubmitInv(jobs, s, s', i, t);
    case JobWait(i, t) => WaitInv(jobs, s, s', i, t);
    case JobDone(i, t) => DoneInv(jobs, s, s', i, t);
    case InnerNotify(_) => PartStepInv(jobs, s, s', step);
    case InnerCheck(_) => PartStepInv(jobs, s, s', step);
    case InnerFinish(_) => PartStepInv(jobs, s, s', step);
    case InnerSpurious(_) => PartStepInv(jobs, s, s', step);
    case _ => JobStepInv(jobs, s, s', step);
  }

  lemma {:induction false} PartStepInv(jobs: seq<nat>, s: System, s': System, step: Step)
    requires SystemInv(jobs, s) && Does(jobs, s, s', step)
    requires step.InnerNotify? || step.InnerCheck? || step.InnerSpurious? || step.InnerFinish?
    ensures SystemInv(jobs, s')
  {
    hide JobsOk, PartsOk, Notify, Check, Finish, Spurious;
    InnerInv(jobs, s, s', step);
  }

  lemma {:induction false} JobStepInv(jobs: seq<nat>, s: System, s': System, step: Step)
    requires SystemInv(jobs, s) && Does(jobs, s, s', step)
    requires step.OuterNotify? || step.OuterCheck? || step.OuterSpurious? || step.MainSubmit? || step.MainWait?
    ensures SystemInv(jobs, s')
  {
    hide JobsOk, PartsOk, Notify, Check, Finish, Spurious, Push;
    OuterInv(jobs, s, s', step);
  }

  // ---------------------------------------------------------------- no stall

  lemma {:induction false} BagHas<T>(ws: seq<Worker<T>>, i: nat)
    requires i < |ws| && ws[i].Running?
    ensures ws[i].task in RunningBag(ws)
  {
    if i < |ws| - 1 { BagHas(ws[..|ws| - 1], i); }
  }

  /** A pool with work left can take a step by itself or is running a task. */
  lemma {:induction false} PoolMoves<T(!new)>(p: Pool<T>) returns (i: nat)
    requires Inv(p) && !p.stop && (p.queue != [] || RunningBag(p.workers) != multiset{})
    ensures
      || (i < |p.workers| && p.workers[i].Running?)
      || (exists q :: Check(p, q, i))
      || (exists q :: Notify(p, q, i))
  {
    hide RunningBag, CountWoken;
    if k: nat :| k < |p.workers| && p.workers[k] != Waiting && p.workers[k] != Done {
      i := k;
      if !p.workers[k].Running? {
        var q := if p.queue != [] then p.(queue := p.queue[1..], workers := p.workers[k := Worker.Running(p.queue[0])])
                 else p.(workers := p.workers[k := Waiting]);
        assert Check(p, q, k);
      }
    } else {
      NoneRunning(p.workers);
      NoneWoken(p.workers);
      assert p.workers[0] in p.workers;
      i :| i < |p.workers| && p.workers[i] == Waiting;
      assert Notify(p, p.(notifies := p.notifies - 1, workers := p.workers[i := Woken]), i);
    }
  }

  ghost predicate CanStep(jobs: seq<nat>, s: System) { exists s', step :: Does(jobs, s, s', step) && !Lucky(step) }

  /** A running job submits, waits for a part that has run, ends, or the inner pool moves. */
  lemma {:induction false} JobMoves(jobs: seq<nat>, s: System, i: nat, t: nat)
    requires SystemInv(jobs, s) && Runs(jobs, s, i, t)
    ensures CanStep(jobs, s)
  {
    hide Inv, RunningBag;
    if s.sent[t] < jobs[t] {
      var x := Part(t, s.sent[t]);
      var inner := s.inner.(queue := s.inner.queue + [x], notifies := s.inner.notifies + 1, pushed := s.inner.pushed + multiset{x});
      assert Does(jobs, s, s.(inner := inner, sent := s.sent[t := s.sent[t] + 1]), JobSubmit(i, t));
    } else if s.got[t] == jobs[t] {
      var outer := s.outer.(workers := s.outer.workers[i := Checking], finished := s.outer.finished + multiset{t});
      assert Does(jobs, s, s.(outer := outer), JobDone(i, t));
    } else if Part(t, s.got[t]) in s.inner.finished {
      assert Does(jobs, s, s.(got := s.got[t := s.got[t] + 1]), JobWait(i, t));
    } else {
      PartPending(jobs, s, Part(t, s.got[t]));
      InnerMoves(jobs, s);
    }
  }

  /** A part that is submitted and has not run is queued or running. */
  lemma {:induction false} PartPending(jobs: seq<nat>, s: System, x: Part)
    requires SystemInv(jobs, s) && x.job < |jobs| && x.part < s.sent[x.job] && x !in s.inner.finished
    ensures s.inner.queue != [] || RunningBag(s.inner.workers) != multiset{}
  {
    hide RunningBag, CountWoken, JobsOk;
    assert s.inner.pushed[x] == 1;
    if s.inner.queue == [] { assert multiset(s.inner.queue)[x] == 0; }
  }

  lemma {:induction false} InnerMoves(jobs: seq<nat>, s: System)
    requires SystemInv(jobs, s) && (s.inner.queue != [] || RunningBag(s.inner.workers) != multiset{})
    ensures CanStep(jobs, s)
  {
    hide Inv, RunningBag, Check, Notify, JobsOk;
    var i := PoolMoves(s.inner);
    if i < |s.inner.workers| && s.inner.workers[i].Running? {
      var q := s.inner.(workers := s.inner.workers[i := Checking], finished := s.inner.finished + multiset{s.inner.workers[i].task});
      assert Does(jobs, s, s.(inner := q), InnerFinish(i));
    } else if q :| Check(s.inner, q, i) {
      assert Does(jobs, s, s.(inner := q), InnerCheck(i));
    } else {
      var q :| Notify(s.inner, q, i);
      assert Does(jobs, s, s.(inner := q), InnerNotify(i));
    }
  }

  lemma {:induction false} OuterMoves(jobs: seq<nat>, s: System)
    requires SystemInv(jobs, s) && (s.outer.queue != [] || RunningBag(s.outer.workers) != multiset{})
    ensures CanStep(jobs, s)
  {
    hide RunningBag, Check, Notify, CountWoken, PartsOk;
    var i := PoolMoves(s.outer);
    if i < |s.outer.workers| && s.outer.workers[i].Running? {
      var t := s.outer.workers[i].task;
      BagHas(s.outer.workers, i);
      assert s.outer.pushed[t] > 0;
      SentSize(jobs, s);
      JobMoves(jobs, s, i, t);
    } else if q :| Check(s.outer, q, i) {
      assert Does(jobs, s, s.(outer := q), OuterCheck(i));
    } else {
      var q :| Notify(s.outer, q, i);
      assert Does(jobs, s, s.(outer := q), OuterNotify(i));
    }
  }

  lemma {:induction false} SentSize(jobs: seq<nat>, s: System)
    requires SystemInv(jobs, s)
    ensures |s.sent| == |s.got| == |jobs|
  {}

  /** Until the main thread has all results some step is possible that needs no luck. */
  lemma {:induction false} NeverStalls(jobs: seq<nat>, s: System)
    requires SystemInv(jobs, s) && s.awaited < |jobs|
    ensures CanStep(jobs, s)
  {
    hide RunningBag, CountWoken, PartsOk, CanStep;
    if s.submitted < |jobs| {
      MainSubmits(jobs, s);
    } else if s.awaited in s.outer.finished {
      MainWaits(jobs, s);
    } else {
      assert s.outer.pushed[s.awaited] == 1;
      if s.outer.queue == [] { assert multiset(s.outer.queue)[s.awaited] == 0; }
      OuterMoves(jobs, s);
    }
  }

  lemma {:induction false} MainSubmits(jobs: seq<nat>, s: System)
    requires !s.outer.stop && s.submitted < |jobs|
    ensures CanStep(jobs, s)
  {
    var t := s.submitted;
    var outer := s.outer.(queue := s.outer.queue + [t], notifies := s.outer.notifies + 1, pushed := s.outer.pushed + multiset{t});
    assert Does(jobs, s, s.(outer := outer, submitted := t + 1), MainSubmit);
  }

  lemma {:induction false} MainWaits(jobs: seq<nat>, s: System)
    requires s.submitted == |jobs| && s.awaited < |jobs| && s.awaited in s.outer.finished
    ensures CanStep(jobs, s)
  {
    assert Does(jobs, s, s.(awaited := s.awaited + 1), MainWait);
  }

  // ---------------------------------------------------------------- every run ends

  function Weight<T>(w: Worker<T>): nat {
    match w
    case Waiting => 0
    case Done => 0
    case Running(_) => 3
    case _ => 1
  }

  function Weights<T>(ws: seq<Worker<T>>): nat {
    if ws == [] then 0 else Weights(ws[..|ws| - 1]) + Weight(ws[|ws| - 1])
  }

  lemma {:induction false} WeightsUpdate<T>(ws: seq<Worker<T>>, i: nat, w: Worker<T>)
    requires i < |ws|
    ensures Weights(ws[i := w]) + Weight(ws[i]) == Weights(ws) + Weight(w)
  {
    hide Weight;
    var n := |ws| - 1;
    if i < n {
      WeightsUpdate(ws[..n], i, w);
      assert ws[i := w][..n] == ws[..n][i := w];
    } else {
      assert ws[i := w][..n] == ws[..n];
    }
  }

  /** What a pool still has to do. */
  function PoolWeight<T>(p: Pool<T>): nat { 3 * |p.queue| + 2 * p.notifies + Weights(p.workers) }

  function Left(all: int, done: int): int { all - done }

  /** What jobs still have to submit and to wait for. */
  function Owed(jobs: seq<nat>, sent: seq<nat>, got: seq<nat>, n: nat): int
    requires n <= |jobs| && n <= |sent| && n <= |got|
  {
    if n == 0 then 0 else Owed(jobs, sent, got, n - 1) + 6 * Left(jobs[n - 1], sent[n - 1]) + Left(jobs[n - 1], got[n - 1])
  }

  function Measure(jobs: seq<nat>, s: System): int
    requires |s.sent| == |s.got| == |jobs|
  {
    PoolWeight(s.outer) + PoolWeight(s.inner) + 6 * (|jobs| - s.submitted) + (|jobs| - s.awaited) + Owed(jobs, s.sent, s.got, |jobs|)
  }

  lemma {:induction false} OwedUpdate(jobs: seq<nat>, sent: seq<nat>, got: seq<nat>, n: nat, t: nat)
    requires n <= |jobs| == |sent| == |got| && t < |jobs|
    ensures Owed(jobs, sent[t := sent[t] + 1], got, n) == Owed(jobs, sent, got, n) - if t < n then 6 else 0
    ensures Owed(jobs, sent, got[t := got[t] + 1], n) == Owed(jobs, sent, got, n) - if t < n then 1 else 0
  {
    if n > 0 { OwedUpdate(jobs, sent, got, n - 1, t); }
  }

  lemma {:induction false} OwedIsNat(jobs: seq<nat>, sent: seq<nat>, got: seq<nat>, n: nat)
    requires n <= |jobs| == |sent| == |got| && forall t :: 0 <= t < |jobs| ==> got[t] <= sent[t] <= jobs[t]
    ensures Owed(jobs, sent, got, n) >= 0
  {
    if n > 0 { OwedIsNat(jobs, sent, got, n - 1); }
  }

  lemma {:induction false} MeasureIsNat(jobs: seq<nat>, s: System)
    requires SystemInv(jobs, s)
    ensures Measure(jobs, s) >= 0
  {
    hide Inv;
    OwedIsNat(jobs, s.sent, s.got, |jobs|);
  }

  /** A pool's own steps lighten it; pushing a task weighs five. */
  lemma {:induction false} PoolStepWeight<T(!new)>(p: Pool<T>, q: Pool<T>, i: nat)
    ensures Notify(p, q, i) || Check(p, q, i) || Finish(p, q, i) ==> PoolWeight(q) < PoolWeight(p)
  {
    hide Weights;
    if Notify(p, q, i) && Waiting in p.workers { WeightsUpdate(p.workers, i, Woken); }
    if Check(p, q, i) { WeightsUpdate(p.workers, i, q.workers[i]); }
    if Finish(p, q, i) { WeightsUpdate(p.workers, i, Checking); }
  }

  /** Every step that needs no luck brings the end nearer. */
  lemma {:induction false} StepDecreases(jobs: seq<nat>, s: System, s': System, step: Step)
    requires SystemInv(jobs, s) && Does(jobs, s, s', step) && !Lucky(step)
    ensures |s'.sent| == |s'.got| == |jobs| && Measure(jobs, s') < Measure(jobs, s)
  {
    hide Inv, Weights, Owed, Notify, Check, Finish;
    SentSize(jobs, s);
    match step
    case OuterNotify(i) => PoolStepWeight(s.outer, s'.outer, i);
    case OuterCheck(i) => PoolStepWeight(s.outer, s'.outer, i);
    case JobSubmit(i, t) => OwedUpdate(jobs, s.sent, s.got, |jobs|, t);
    case JobWait(i, t) => OwedUpdate(jobs, s.sent, s.got, |jobs|, t);
    case JobDone(i, t) => PoolStepWeight(s.outer, s'.outer, i);
    case InnerNotify(i) => PoolStepWeight(s.inner, s'.inner, i);
    case InnerCheck(i) => PoolStepWeight(s.inner, s'.inner, i);
    case InnerFinish(i) => PoolStepWeight(s.inner, s'.inner, i);
    case _ =>
  }

  /** A spurious wake-up adds one check. */
  lemma {:induction false} LuckyAddsOne(jobs: seq<nat>, s: System, s': System, step: Step)
    requires SystemInv(jobs, s) && Does(jobs, s, s', step) && Lucky(step)
    ensures |s'.sent| == |s'.got| == |jobs| && Measure(jobs, s') == Measure(jobs, s) + 1
  {
    hide Inv, Weights, Owed;
    SentSize(jobs, s);
    match step
    case OuterSpurious(i) => WeightsUpdate(s.outer.workers, i, Woken);
    case InnerSpurious(i) => WeightsUpdate(s.inner.workers, i, Woken);
    case _ =>
  }

  // ---------------------------------------------------------------- main results

  /** A run: states, and the steps between them. */
  ghost predicate SystemRun(jobs: seq<nat>, states: seq<System>, steps: seq<Step>) {
    && |states| == |steps| + 1 && Begin(jobs, states[0])
    && forall k :: 0 <= k < |steps| ==> Does(jobs, states[k], states[k + 1], steps[k])
  }

  lemma {:induction false} RunKeepsInv(jobs: seq<nat>, states: seq<System>, steps: seq<Step>, k: nat)
    requires SystemRun(jobs, states, steps) && k < |states|
    ensures SystemInv(jobs, states[k])
  {
    hide SystemInv, Does, Begin;
    if k == 0 {
      BeginInv(jobs, states[0]);
    } else {
      RunKeepsInv(jobs, states, steps, k - 1);
      assert Does(jobs, states[k - 1], states[k], steps[k - 1]);
      StepInv(jobs, states[k - 1], states[k], steps[k - 1]);
    }
  }

  /** No run can come to a halt before the main thread has all its results. */
  lemma {:induction false} RunNeverStalls(jobs: seq<nat>, states: seq<System>, steps: seq<Step>)
    requires SystemRun(jobs, states, steps) && states[|steps|].awaited < |jobs|
    ensures CanStep(jobs, states[|steps|])
  {
    hide SystemInv, Does, Begin, CanStep;
    RunKeepsInv(jobs, states, steps, |steps|);
    NeverStalls(jobs, states[|steps|]);
  }

  function LuckySteps(steps: seq<Step>, k: nat): nat
    requires k <= |steps|
  {
    if k == 0 then 0 else LuckySteps(steps, k - 1) + if Lucky(steps[k - 1]) then 1 else 0
  }

  /** A run has no more steps than the work at its start amounts to, and two more for each spurious wake-up. */
  lemma {:induction false} RunIsShort(jobs: seq<nat>, states: seq<System>, steps: seq<Step>, k: nat)
    requires SystemRun(jobs, states, steps) && k <= |steps|
    ensures |states[0].sent| == |states[0].got| == |states[k].sent| == |states[k].got| == |jobs|
    ensures 0 <= Measure(jobs, states[k]) <= Measure(jobs, states[0]) + 2 * LuckySteps(steps, k) - k
  {
    hide SystemInv, Does, Begin, Measure, Lucky;
    RunKeepsInv(jobs, states, steps, 0);
    RunKeepsInv(jobs, states, steps, k);
    SentSize(jobs, states[0]);
    SentSize(jobs, states[k]);
    MeasureIsNat(jobs, states[k]);
    if k > 0 {
      RunIsShort(jobs, states, steps, k - 1);
      RunKeepsInv(jobs, states, steps, k - 1);
      assert Does(jobs, states[k - 1], states[k], steps[k - 1]);
      if Lucky(steps[k - 1]) {
        LuckyAddsOne(jobs, states[k - 1], states[k], steps[k - 1]);
      } else {
        StepDecreases(jobs, states[k - 1], states[k], steps[k - 1]);
      }
    }
  }

  function Parts(jobs: seq<nat>, n: nat): nat
    requires n <= |jobs|
  {
    if n == 0 then 0 else Parts(jobs, n - 1) + jobs[n - 1]
  }

  lemma {:induction false} OwedAtStart(jobs: seq<nat>, zeros: seq<nat>, n: nat)
    requires n <= |jobs| == |zeros| && forall t :: 0 <= t < |jobs| ==> zeros[t] == 0
    ensures Owed(jobs, zeros, zeros, n) == 7 * Parts(jobs, n)
  {
    if n > 0 { OwedAtStart(jobs, zeros, n - 1); }
  }

  lemma {:induction false} WeightsAtStart<T>(ws: seq<Worker<T>>)
    requires forall i :: 0 <= i < |ws| ==> ws[i] == Checking
    ensures Weights(ws) == |ws|
  {
    if ws != [] { WeightsAtStart(ws[..|ws| - 1]); }
  }

  /** The work at the start: one check by each worker, and seven steps for each job and each part of a job. */
  lemma {:induction false} WorkAtStart(jobs: seq<nat>, s: System)
    requires Begin(jobs, s)
    ensures Measure(jobs, s) == |s.outer.workers| + |s.inner.workers| + 7 * |jobs| + 7 * Parts(jobs, |jobs|)
  {
    hide Weights, Owed, Parts;
    WeightsAtStart(s.outer.workers);
    WeightsAtStart(s.inner.workers);
    assert s.sent == s.got;
    OwedAtStart(jobs, s.sent, |jobs|);
  }

  /** When the main thread has all its results, every job and every part of every job has run exactly once. */
  lemma {:induction false} EachTaskOnce(jobs: seq<nat>, states: seq<System>, steps: seq<Step>)
    requires SystemRun(jobs, states, steps) && states[|steps|].awaited == |jobs|
    ensures forall t: nat :: states[|steps|].outer.finished[t] == if t < |jobs| then 1 else 0
    ensures forall x: Part :: states[|steps|].inner.finished[x] == if x.job < |jobs| && x.part < jobs[x.job] then 1 else 0
  {
    hide Does, Begin, RunningBag, CountWoken;
    var s := states[|steps|];
    RunKeepsInv(jobs, states, steps, |steps|);
    forall t: nat ensures s.outer.finished[t] == if t < |jobs| then 1 else 0 {
      assert s.outer.pushed[t] >= s.outer.finished[t];
      assert t < |jobs| ==> t in s.outer.finished;
    }
    forall x: Part ensures s.inner.finished[x] == if x.job < |jobs| && x.part < jobs[x.job] then 1 else 0 {
      assert s.inner.pushed[x] >= s.inner.finished[x];
      if x.job < |jobs| {
        assert x.job in s.outer.finished;
        assert s.got[x.job] == jobs[x.job] == s.sent[x.job];
      }
    }
  }
}
