/** The thread pool as a state machine: every lock-protected section is one step, and so is every
    notification, which is sent after the lock has been released. */
module ThreadPool {

  /** Where a worker is: about to look at the queue, blocked on the condition, woken but not yet holding
      the lock again, running a task, or gone. */
  datatype Worker<T> = Checking | Waiting | Woken | Running(task: T) | Done

  datatype Pool<T> = Pool(
    queue: seq<T>,
    stop: bool,
    workers: seq<Worker<T>>,
    /** Tasks pushed whose notification has not been sent yet. */
    notifies: nat,
    /** The destructor has set `stop` and not notified yet. */
    notifyAll: bool,
    /** All tasks ever pushed, and those that have run to their end, with multiplicity. */
    pushed: multiset<T>,
    finished: multiset<T>)

  ghost predicate Start<T>(p: Pool<T>) {
    && p.queue == [] && !p.stop && p.notifies == 0 && !p.notifyAll && p.pushed == p.finished == multiset{}
    && p.workers != [] && forall i :: 0 <= i < |p.workers| ==> p.workers[i] == Checking
  }

  // ---------------------------------------------------------------- steps

  /** SubmitTask under the lock; on a stopped pool it throws. */
  ghost predicate Push<T>(p: Pool<T>, q: Pool<T>, t: T) {
    && !p.stop
    && q == p.(queue := p.queue + [t], notifies := p.notifies + 1, pushed := p.pushed + multiset{t})
  }

  /** notify_one: wakes some waiting worker if there is one. */
  ghost predicate Notify<T>(p: Pool<T>, q: Pool<T>, i: nat) {
    && p.notifies > 0
    && if Waiting in p.workers
       then i < |p.workers| && p.workers[i] == Waiting && q == p.(notifies := p.notifies - 1, workers := p.workers[i := Woken])
       else q == p.(notifies := p.notifies - 1)
  }

  /** A worker holds the lock and evaluates the condition of its wait. */
  ghost predicate Check<T>(p: Pool<T>, q: Pool<T>, i: nat) {
    && i < |p.workers| && (p.workers[i] == Checking || p.workers[i] == Woken)
    && q == if p.queue != [] then p.(queue := p.queue[1..], workers := p.workers[i := Running(p.queue[0])])
            else if p.stop then p.(workers := p.workers[i := Done])
            else p.(workers := p.workers[i := Waiting])
  }

  ghost predicate Finish<T>(p: Pool<T>, q: Pool<T>, i: nat) {
    && i < |p.workers| && p.workers[i].Running?
    && q == p.(workers := p.workers[i := Checking], finished := p.finished + multiset{p.workers[i].task})
  }

  /** Conditions may wake without being notified. */
  ghost predicate Spurious<T>(p: Pool<T>, q: Pool<T>, i: nat) {
    i < |p.workers| && p.workers[i] == Waiting && q == p.(workers := p.workers[i := Woken])
  }

  ghost predicate Stop<T>(p: Pool<T>, q: Pool<T>) { !p.stop && q == p.(stop := true, notifyAll := true) }

  ghost predicate NotifyAll<T>(p: Pool<T>, q: Pool<T>) {
    p.notifyAll && q == p.(notifyAll := false, workers := WakeAll(p.workers))
  }

  function WakeAll<T>(ws: seq<Worker<T>>): (r: seq<Worker<T>>)
    ensures |r| == |ws|
    ensures forall i :: 0 <= i < |ws| ==> r[i] == if ws[i] == Waiting then Woken else ws[i]
  {
    seq(|ws|, i requires 0 <= i < |ws| => if ws[i] == Waiting then Woken else ws[i])
  }

  ghost predicate Next<T(!new)>(p: Pool<T>, q: Pool<T>) {
    || (exists t :: Push(p, q, t))
    || (exists i :: Notify(p, q, i) || Check(p, q, i) || Finish(p, q, i) || Spurious(p, q, i))
    || Stop(p, q) || NotifyAll(p, q)
  }

  // ---------------------------------------------------------------- invariant

  function CountWoken<T(==)>(ws: seq<Worker<T>>): (k: nat)
    ensures k <= |ws|
  {
    if ws == [] then 0 else CountWoken(ws[..|ws| - 1]) + if ws[|ws| - 1] == Woken then 1 else 0
  }

  function TaskBag<T(==)>(w: Worker<T>): multiset<T> { if w.Running? then multiset{w.task} else multiset{} }

  function RunningBag<T(==)>(ws: seq<Worker<T>>): multiset<T> {
    if ws == [] then multiset{} else RunningBag(ws[..|ws| - 1]) + TaskBag(ws[|ws| - 1])
  }

  lemma {:induction false} CountUpdate<T>(ws: seq<Worker<T>>, i: nat, w: Worker<T>)
    requires i < |ws|
    ensures CountWoken(ws[i := w]) == CountWoken(ws) - (if ws[i] == Woken then 1 else 0) + if w == Woken then 1 else 0
    ensures ws[i] == Woken ==> CountWoken(ws) >= 1
  {
    var n := |ws| - 1;
    if i < n {
      CountUpdate(ws[..n], i, w);
      assert ws[i := w][..n] == ws[..n][i := w];
    } else {
      assert ws[i := w][..n] == ws[..n];
    }
  }

  lemma {:induction false} Shuffle<T>(a: multiset<T>, x: multiset<T>, b: multiset<T>, y: multiset<T>, c: multiset<T>)
    requires a + x == b + y
    ensures (a + c) + x == (b + c) + y
  {
    assert (a + c) + x == (a + x) + c;
    assert (b + c) + y == (b + y) + c;
  }

  lemma {:induction false} BagUpdate<T>(ws: seq<Worker<T>>, i: nat, w: Worker<T>)
    requires i < |ws|
    ensures RunningBag(ws[i := w]) + TaskBag(ws[i]) == RunningBag(ws) + TaskBag(w)
  {
    hide TaskBag;
    var n := |ws| - 1;
    if i < n {
      BagUpdate(ws[..n], i, w);
      assert ws[i := w][..n] == ws[..n][i := w];
      Shuffle(RunningBag(ws[..n][i := w]), TaskBag(ws[i]), RunningBag(ws[..n]), TaskBag(w), TaskBag(ws[n]));
    } else {
      assert ws[i := w][..n] == ws[..n];
    }
  }

  /** A worker that starts, ends or does neither. */
  lemma {:induction false} BagStep<T>(ws: seq<Worker<T>>, i: nat, w: Worker<T>)
    requires i < |ws|
    ensures !ws[i].Running? && !w.Running? ==> RunningBag(ws[i := w]) == RunningBag(ws)
    ensures !ws[i].Running? && w.Running? ==> RunningBag(ws[i := w]) == RunningBag(ws) + multiset{w.task}
    ensures ws[i].Running? && !w.Running? ==> RunningBag(ws[i := w]) + multiset{ws[i].task} == RunningBag(ws)
  {
    BagUpdate(ws, i, w);
    assert RunningBag(ws[i := w]) + multiset{} == RunningBag(ws[i := w]);
    assert RunningBag(ws) + multiset{} == RunningBag(ws);
  }

  /** While a worker waits, every queued task has a worker on its way or a notification to come; a worker
      leaves only when nothing is left; and no task is lost or run twice. */
  ghost predicate Inv<T>(p: Pool<T>) {
    && p.workers != []
    && (Waiting in p.workers ==> |p.queue| <= CountWoken(p.workers) + p.notifies)
    && (p.stop && Waiting in p.workers ==> p.notifyAll)
    && (Done in p.workers ==> p.stop && p.queue == [])
    && p.pushed == multiset(p.queue) + RunningBag(p.workers) + p.finished
  }

  lemma {:induction false} StartInv<T>(p: Pool<T>)
    requires Start(p)
    ensures Inv(p)
  {
    NoneRunning(p.workers);
    assert multiset(p.queue) == multiset{};
  }

  lemma {:induction false} NoneRunning<T>(ws: seq<Worker<T>>)
    requires forall i :: 0 <= i < |ws| ==> !ws[i].Running?
    ensures RunningBag(ws) == multiset{}
  {
    if ws != [] { NoneRunning(ws[..|ws| - 1]); }
  }

  lemma {:induction false} PushInv<T>(p: Pool<T>, q: Pool<T>, t: T)
    requires Inv(p) && Push(p, q, t)
    ensures Inv(q)
  {
    hide CountWoken, RunningBag;
    assert multiset(p.queue + [t]) == multiset(p.queue) + multiset{t};
  }

  lemma {:induction false} NotifyInv<T>(p: Pool<T>, q: Pool<T>, i: nat)
    requires Inv(p) && Notify(p, q, i)
    ensures Inv(q)
  {
    hide CountWoken, RunningBag;
    if Waiting in p.workers {
      CountUpdate(p.workers, i, Woken);
      BagStep(p.workers, i, Woken);
      StillIn(p.workers, i, Woken);
    }
  }

  /** Where the other workers are does not change. */
  lemma {:induction false} StillIn<T>(ws: seq<Worker<T>>, i: nat, w: Worker<T>)
    requires i < |ws|
    ensures forall x :: x in ws[i := w] ==> x == w || x in ws
  {
    forall x | x in ws[i := w] ensures x == w || x in ws {
      var k :| 0 <= k < |ws| && ws[i := w][k] == x;
      if k != i { assert ws[k] == x; }
    }
  }

  lemma {:induction false} CheckInv<T>(p: Pool<T>, q: Pool<T>, i: nat)
    requires Inv(p) && Check(p, q, i)
    ensures Inv(q)
  {
    hide CountWoken, RunningBag;
    if p.queue != [] {
      TakeInv(p, q, i);
    } else {
      var w: Worker<T> := if p.stop then Done else Waiting;
      CountUpdate(p.workers, i, w);
      BagStep(p.workers, i, w);
      StillIn(p.workers, i, w);
    }
  }

  lemma {:induction false} TakeInv<T>(p: Pool<T>, q: Pool<T>, i: nat)
    requires Inv(p) && Check(p, q, i) && p.queue != []
    ensures Inv(q)
  {
    hide CountWoken, RunningBag;
    var t, rest := p.queue[0], p.queue[1..];
    CountUpdate(p.workers, i, Running(t));
    BagStep(p.workers, i, Running(t));
    StillIn(p.workers, i, Running(t));
    assert p.queue == [t] + rest;
    MoveTask(multiset(rest), RunningBag(p.workers), p.finished, t);
    assert multiset(p.queue) == multiset{t} + multiset(rest);
  }

  lemma {:induction false} MoveTask<T>(rest: multiset<T>, running: multiset<T>, finished: multiset<T>, t: T)
    ensures (multiset{t} + rest) + running + finished == rest + (running + multiset{t}) + finished
  {}

  lemma {:induction false} FinishInv<T>(p: Pool<T>, q: Pool<T>, i: nat)
    requires Inv(p) && Finish(p, q, i)
    ensures Inv(q)
  {
    hide CountWoken, RunningBag;
    CountUpdate(p.workers, i, Checking);
    BagStep(p.workers, i, Checking);
    StillIn(p.workers, i, Checking);
  }

  lemma {:induction false} SpuriousInv<T>(p: Pool<T>, q: Pool<T>, i: nat)
    requires Inv(p) && Spurious(p, q, i)
    ensures Inv(q)
  {
    hide CountWoken, RunningBag;
    CountUpdate(p.workers, i, Woken);
    BagStep(p.workers, i, Woken);
    StillIn(p.workers, i, Woken);
    assert p.workers[i] in p.workers;
  }

  lemma {:induction false} WakeAllBag<T>(ws: seq<Worker<T>>)
    ensures RunningBag(WakeAll(ws)) == RunningBag(ws)
  {
    if ws != [] {
      WakeAllBag(ws[..|ws| - 1]);
      assert WakeAll(ws)[..|ws| - 1] == WakeAll(ws[..|ws| - 1]);
    }
  }

  lemma {:induction false} NextInv<T(!new)>(p: Pool<T>, q: Pool<T>)
    requires Inv(p) && Next(p, q)
    ensures Inv(q)
  {
    hide Inv, Push, Notify, Check, Finish, Spurious;
    if t :| Push(p, q, t) {
      PushInv(p, q, t);
    } else if Stop(p, q) {
      StopInv(p, q);
    } else if NotifyAll(p, q) {
      NotifyAllInv(p, q);
    } else {
      var i: nat :| Notify(p, q, i) || Check(p, q, i) || Finish(p, q, i) || Spurious(p, q, i);
      if Notify(p, q, i) { NotifyInv(p, q, i); }
      else if Check(p, q, i) { CheckInv(p, q, i); }
      else if Finish(p, q, i) { FinishInv(p, q, i); }
      else { SpuriousInv(p, q, i); }
    }
  }

  lemma {:induction false} StopInv<T>(p: Pool<T>, q: Pool<T>)
    requires Inv(p) && Stop(p, q)
    ensures Inv(q)
  {}

  lemma {:induction false} NotifyAllInv<T>(p: Pool<T>, q: Pool<T>)
    requires Inv(p) && NotifyAll(p, q)
    ensures Inv(q)
  {
    hide CountWoken, RunningBag;
    WakeAllBag(p.workers);
    assert Waiting !in q.workers;
    if Done in q.workers {
      var k :| 0 <= k < |q.workers| && q.workers[k] == Done;
      assert p.workers[k] == Done;
    }
  }

  // ---------------------------------------------------------------- runs

  /** Any number of steps. */
  ghost predicate Run<T(!new)>(states: seq<Pool<T>>) {
    states != [] && Start(states[0]) && forall k :: 0 <= k < |states| - 1 ==> Next(states[k], states[k + 1])
  }

  lemma {:induction false} RunInv<T(!new)>(states: seq<Pool<T>>, k: nat)
    requires Run(states) && k < |states|
    ensures Inv(states[k])
  {
    hide Inv, Next, Start;
    if k == 0 {
      StartInv(states[0]);
    } else {
      RunInv(states, k - 1);
      assert Next(states[k - 1], states[k]);
      NextInv(states[k - 1], states[k]);
    }
  }

  /** In every run: while a worker waits, queued tasks are covered by woken workers and notifications to come. */
  lemma {:induction false} NoLostWakeup<T(!new)>(states: seq<Pool<T>>, k: nat)
    requires Run(states) && k < |states| && Waiting in states[k].workers
    ensures |states[k].queue| <= CountWoken(states[k].workers) + states[k].notifies
  {
    RunInv(states, k);
  }

  /** A step that needs no luck: anything but a spurious wake-up or a new task. */
  ghost predicate Enabled<T(!new)>(p: Pool<T>) {
    || (exists q, i :: Notify(p, q, i) || Check(p, q, i) || Finish(p, q, i))
    || (exists q :: NotifyAll(p, q))
  }

  /** Something of the pool's work is left. */
  ghost predicate Unfinished<T>(p: Pool<T>) {
    p.queue != [] || RunningBag(p.workers) != multiset{} || (p.stop && exists i :: 0 <= i < |p.workers| && p.workers[i] != Done)
  }

  /** As long as a task is queued or running, or a stopped pool still has workers, something can happen. */
  lemma {:induction false} PoolNeverStalls<T(!new)>(states: seq<Pool<T>>, k: nat)
    requires Run(states) && k < |states| && Unfinished(states[k])
    ensures Enabled(states[k])
  {
    RunInv(states, k);
    WorkIsEnabled(states[k]);
  }

  lemma {:induction false} WorkIsEnabled<T(!new)>(p: Pool<T>)
    requires Inv(p) && Unfinished(p)
    ensures Enabled(p)
  {
    hide Inv, Unfinished, Enabled;
    if i :| 0 <= i < |p.workers| && p.workers[i] != Waiting && p.workers[i] != Done {
      BusyIsEnabled(p, i);
    } else {
      IdleIsNotified(p);
      NotifiedIsEnabled(p);
    }
  }

  lemma {:induction false} IdleIsNotified<T(!new)>(p: Pool<T>)
    requires Inv(p) && Unfinished(p) && forall i :: 0 <= i < |p.workers| ==> p.workers[i] == Waiting || p.workers[i] == Done
    ensures p.notifyAll || (p.notifies > 0 && Waiting in p.workers)
  {
    hide CountWoken, RunningBag;
    NoneRunning(p.workers);
    NoneWoken(p.workers);
    assert p.workers[0] in p.workers;
  }

  lemma {:induction false} NotifiedIsEnabled<T(!new)>(p: Pool<T>)
    requires p.notifyAll || (p.notifies > 0 && Waiting in p.workers)
    ensures Enabled(p)
  {
    if p.notifyAll {
      var q := p.(notifyAll := false, workers := WakeAll(p.workers));
      assert NotifyAll(p, q);
    } else {
      var i: nat :| i < |p.workers| && p.workers[i] == Waiting;
      var q := p.(notifies := p.notifies - 1, workers := p.workers[i := Woken]);
      assert Notify(p, q, i);
    }
  }

  lemma {:induction false} BusyIsEnabled<T(!new)>(p: Pool<T>, i: nat)
    requires i < |p.workers| && p.workers[i] != Waiting && p.workers[i] != Done
    ensures Enabled(p)
  {
    if p.workers[i].Running? {
      assert Finish(p, p.(workers := p.workers[i := Checking], finished := p.finished + multiset{p.workers[i].task}), i);
    } else {
      var q := if p.queue != [] then p.(queue := p.queue[1..], workers := p.workers[i := Running(p.queue[0])])
               else if p.stop then p.(workers := p.workers[i := Done]) else p.(workers := p.workers[i := Waiting]);
      assert Check(p, q, i);
    }
  }

  lemma {:induction false} NoneWoken<T>(ws: seq<Worker<T>>)
    requires forall i :: 0 <= i < |ws| ==> ws[i] != Woken
    ensures CountWoken(ws) == 0
  {
    if ws != [] { NoneWoken(ws[..|ws| - 1]); }
  }

  /** What the destructor waits for: once all workers are gone, every task ever pushed has run exactly as
      often as it was pushed. */
  lemma {:induction false} Drained<T(!new)>(states: seq<Pool<T>>, k: nat)
    requires Run(states) && k < |states| && forall i :: 0 <= i < |states[k].workers| ==> states[k].workers[i] == Done
    ensures states[k].finished == states[k].pushed && states[k].queue == []
  {
    RunInv(states, k);
    var p := states[k];
    NoneRunning(p.workers);
    assert p.workers[0] == Done;
    assert multiset(p.queue) == multiset{};
  }
}
