/**
 * Whole runs of the thread pool: what holds in every reachable state, and that runs without new work end and end
 * drained.
 */
module ThreadPoolRuns {
  import opened Sums
  import opened ThreadPool

  /** `steps` can be taken one after the other from `s`. */
  predicate Runs(s: State, steps: seq<Step>)
    decreases steps
  {
    steps == [] || (Enabled(s, steps[0]) && Runs(Apply(s, steps[0]), steps[1..]))
  }

  function After(s: State, steps: seq<Step>): State
    requires Runs(s, steps)
    decreases steps
  {
    if steps == [] then s else After(Apply(s, steps[0]), steps[1..])
  }

  /** `s` can be reached by a pool of n workers and m callers of thpool_wait, with any number of pushers. */
  ghost predicate Reachable(n: nat, m: nat, s: State) {
    exists steps: seq<Step> :: Runs(Init(n, m), steps) && s == After(Init(n, m), steps)
  }

  lemma InitInv(n: nat, m: nat)
    ensures Inv(Init(n, m)) && WaiterSafe(Init(n, m))
  {
    var s := Init(n, m);
    SumZero(s.workers, BusyWeight);
    forall j: nat ensures InHand(s.workers, j) == 0 {
      SumZero(s.workers, Holds(j));
    }
  }

  lemma {:induction false} InvAfter(s: State, steps: seq<Step>)
    requires Inv(s) && WaiterSafe(s) && Runs(s, steps)
    ensures Inv(After(s, steps)) && WaiterSafe(After(s, steps))
    ensures |After(s, steps).workers| == |s.workers| && |After(s, steps).waiters| == |s.waiters|
    decreases steps
  {
    if steps != [] {
      InvKept(s, steps[0]);
      WaiterSafeKept(s, steps[0]);
      SameThreads(s, steps[0]);
      hide Inv;
      hide WaiterSafe;
      hide Enabled;
      hide Apply;
      InvAfter(Apply(s, steps[0]), steps[1..]);
    }
  }

  lemma ReachableInv(n: nat, m: nat, s: State)
    requires Reachable(n, m, s)
    ensures Inv(s) && WaiterSafe(s) && |s.workers| == n && |s.waiters| == m
  {
    var steps: seq<Step> :| Runs(Init(n, m), steps) && s == After(Init(n, m), steps);
    InitInv(n, m);
    InvAfter(Init(n, m), steps);
  }

  // ------------------------------------------------------------------ what the invariant means

  lemma {:induction false} UptoMultiplicity(n: nat, j: nat)
    ensures multiset(Upto(n))[j] == if j < n then 1 else 0
  {
    if n > 0 {
      UptoMultiplicity(n - 1, j);
      assert Upto(n) == Upto(n - 1) + [n - 1];
    }
  }

  /**
   * Jobs are pulled in the order they were pushed, each once; a pulled job is in one worker's hand or finished once.
   */
  lemma EachJobOnce(n: nat, m: nat, s: State, j: nat)
    requires Reachable(n, m, s)
    ensures s.pulled == Upto(|s.pulled|) && |s.pulled| + |s.queue| == s.added
    ensures InHand(s.workers, j) + multiset(s.finished)[j] == if j < |s.pulled| then 1 else 0
  {
    ReachableInv(n, m, s);
    assert |s.pulled + s.queue| == s.added;
    assert s.pulled == (s.pulled + s.queue)[..|s.pulled|] == Upto(|s.pulled|);
    UptoMultiplicity(|s.pulled|, j);
    assert JobAccounted(s, j);
  }

  /** When thpool_wait returns, everything pushed before it read the empty queue has finished. */
  lemma WaitMeansFinished(n: nat, m: nat, s: State, w: nat, j: nat)
    requires Reachable(n, m, s) && w < m && WaiterIn(s, w) && s.waiters[w].Returned? && j < s.waiters[w].pushed
    ensures multiset(s.finished)[j] == 1
  {
    ReachableInv(n, m, s);
    assert Informed(s, s.waiters[w]);
    EachJobOnce(n, m, s, j);
  }

  // ------------------------------------------------------------------ runs without new work end, and end drained

  /** Steps of the pool itself: neither new work, nor new waiters, nor spurious wakeups. */
  predicate Internal(st: Step) { !st.Insert? && !st.Call? && !st.Spurious? && !st.SpuriousWaiter? }

  function WorkerCost(n: nat, m: nat): Worker -> nat {
    (w: Worker) =>
      match w
      case Idle => 1
      case Asleep => 0
      case Woken => 1
      case Took => 3 * m + 5
      case Counted => 3 * m + 4
      case Posting(_) => 6 * m + n + 9
      case Running(_) => 3 * m + 3
      case Done => 3 * m + 2
  }

  function WaiterCost(w: Waiter): nat {
    match w
    case Outside => 0
    case Ready => 3
    case SawEmpty(_) => 2
    case MustSleep => 1
    case Resting => 0
    case Returned(_) => 0
  }

  function Times(c: nat, k: nat): nat { if k == 0 then 0 else c + Times(c, k - 1) }

  /** Bounds the internal steps still to be taken. */
  function Potential(s: State): nat {
    var n, m := |s.workers|, |s.waiters|;
    Sum(s.workers, WorkerCost(n, m)) + Sum(s.waiters, WaiterCost) + (if s.v then 3 * m + 5 else 0)
    + (if s.rw == Adder then 3 * m + n + 6 else 0) + Times(3 * m + n + 6, |s.queue|)
  }

  lemma WakeWorkersCost(ws: seq<Worker>, wake: set<nat>, m: nat)
    requires forall i :: i in wake ==> i < |ws| && ws[i].Asleep?
    ensures Sum(WakeWorkers(ws, wake), WorkerCost(|ws|, m)) <= Sum(ws, WorkerCost(|ws|, m)) + |ws|
  {
    SumPointwise(WakeWorkers(ws, wake), ws, WorkerCost(|ws|, m), 1);
    SumConst(ws, 1);
  }

  lemma WakeWaitersCost(ws: seq<Waiter>, wake: set<nat>)
    ensures Sum(WakeWaiters(ws, wake), WaiterCost) <= Sum(ws, WaiterCost) + 3 * |ws|
  {
    SumPointwise(WakeWaiters(ws, wake), ws, WaiterCost, 3);
    SumConst(ws, 3);
  }

  lemma PostCosts(s: State, st: Step)
    requires Enabled(s, st) && (st.InsertPost? || st.PullPost?)
    ensures Potential(Apply(s, st)) < Potential(s)
  {
    hide Times;
    var ws, us := s.workers, s.waiters;
    WakeWorkersCost(ws, st.wake, |us|);
    if st.PullPost? {
      SumUpdate(WakeWorkers(ws, st.wake), st.worker, Running(ws[st.worker].job), WorkerCost(|ws|, |us|));
    }
  }

  lemma WaiterCosts(s: State, st: Step)
    requires Enabled(s, st) && (st.ReadLength? || st.ReadWorking? || st.Rest?)
    ensures Potential(Apply(s, st)) < Potential(s)
  {
    hide Times;
    hide SignalsWorkers;
    hide SignalsWaiters;
    hide LockFree;
    SumUpdate(s.waiters, st.waiter, Apply(s, st).waiters[st.waiter], WaiterCost);
  }

  lemma UncountCosts(s: State, st: Step)
    requires Enabled(s, st) && st.Uncount?
    ensures Potential(Apply(s, st)) < Potential(s)
  {
    hide Times;
    SumUpdate(s.workers, st.worker, Idle, WorkerCost(|s.workers|, |s.waiters|));
    WakeWaitersCost(s.waiters, st.wake);
  }

  lemma WorkerCostMoves(ws: seq<Worker>, i: nat, w: Worker, n: nat, m: nat)
    requires i < |ws|
    ensures Sum(ws[i := w], WorkerCost(n, m))
      == Sum(ws, WorkerCost(n, m)) - WorkerCost(n, m)(ws[i]) + WorkerCost(n, m)(w)
  {
    SumUpdate(ws, i, w, WorkerCost(n, m));
  }

  function PulledBy(s: State): Worker {
    if s.queue == [] then Done else if |s.queue| == 1 then Running(s.queue[0]) else Posting(s.queue[0])
  }

  lemma PullShape(s: State, i: nat)
    requires WorkerIn(s, i) && s.rw == Free
    ensures var t := PullFrom(s, i);
      && t.workers == s.workers[i := PulledBy(s)] && t.waiters == s.waiters && t.v == s.v && t.rw != Adder
      && |t.queue| == if |s.queue| == 0 then 0 else |s.queue| - 1
  {
  }

  lemma PullCosts(s: State, st: Step)
    requires Enabled(s, st) && st.Pull?
    ensures Potential(Apply(s, st)) < Potential(s)
  {
    hide LockFree;
    hide Potential;
    hide PullFrom;
    PullShape(s, st.worker);
    PulledCheaper(s, Apply(s, st), st.worker);
  }

  /** The worker that pulled has less to do than the job it took off the queue cost there. */
  lemma PulledCheaper(s: State, t: State, i: nat)
    requires WorkerIn(s, i) && s.workers[i].Counted? && s.rw == Free
    requires t.workers == s.workers[i := PulledBy(s)] && t.waiters == s.waiters && t.v == s.v && t.rw != Adder
    requires |t.queue| == if |s.queue| == 0 then 0 else |s.queue| - 1
    ensures Potential(t) < Potential(s)
  {
    var n, m := |s.workers|, |s.waiters|;
    WorkerCostMoves(s.workers, i, PulledBy(s), n, m);
    hide Sum;
    TimesStep(3 * m + n + 6, |s.queue|);
    hide Times;
  }

  lemma TimesStep(c: nat, k: nat)
    ensures Times(c, k) == if k == 0 then 0 else c + Times(c, k - 1)
  {
  }

  lemma WorkerCosts(s: State, st: Step)
    requires Enabled(s, st) && (st.Try? || st.Count? || st.Execute?)
    ensures Potential(Apply(s, st)) < Potential(s)
  {
    hide SignalsWorkers;
    hide SignalsWaiters;
    hide LockFree;
    var w := if st.Execute? then Done else if st.Count? then Counted else if s.v then Took else Asleep;
    SumUpdate(s.workers, st.worker, w, WorkerCost(|s.workers|, |s.waiters|));
    hide Sum;
    assert Apply(s, st).workers == s.workers[st.worker := w];
  }

  lemma StepCosts(s: State, st: Step)
    requires Enabled(s, st) && Internal(st)
    ensures Potential(Apply(s, st)) < Potential(s)
  {
    hide Potential;
    hide Apply;
    hide LockFree;
    hide SignalsWorkers;
    hide SignalsWaiters;
    if st.InsertPost? || st.PullPost? { PostCosts(s, st); }
    else if st.ReadLength? || st.ReadWorking? || st.Rest? { WaiterCosts(s, st); }
    else if st.Uncount? { UncountCosts(s, st); }
    else if st.Pull? { PullCosts(s, st); }
    else { WorkerCosts(s, st); }
  }

  /** However the pool is scheduled, it takes at most `Potential` steps before it needs new work. */
  lemma {:induction false} RunIsBounded(s: State, steps: seq<Step>)
    requires Runs(s, steps) && forall i :: 0 <= i < |steps| ==> Internal(steps[i])
    ensures |steps| <= Potential(s)
    decreases steps
  {
    if steps != [] {
      StepCosts(s, steps[0]);
      RunIsBounded(Apply(s, steps[0]), steps[1..]);
    }
  }

  ghost predicate Quiet(s: State) { forall st: Step :: Internal(st) ==> !Enabled(s, st) }

  /** Nobody holds a mutex in a quiet state. */
  lemma QuietMutexes(s: State)
    requires Mutexes(s) && Quiet(s)
    ensures s.rw == Free
    ensures forall w :: 0 <= w < |s.waiters| ==>
      s.waiters[w].Outside? || s.waiters[w].Resting? || s.waiters[w].Returned?
  {
    var sleepers := set i: nat | i < |s.workers| && s.workers[i].Asleep?;
    assert SignalsWorkers(s, sleepers) by {
      if i :| 0 <= i < |s.workers| && s.workers[i].Asleep? { assert i in sleepers; }
    }
    hide SignalsWorkers;
    assert s.rw == Adder ==> Enabled(s, InsertPost(sleepers));
    assert s.rw.Puller? ==> Enabled(s, PullPost(s.rw.worker, sleepers));
    forall w | 0 <= w < |s.waiters| ensures !Locking(s.waiters[w]) {
      assert !Enabled(s, ReadWorking(w)) && !Enabled(s, Rest(w));
    }
    forall w | 0 <= w < |s.waiters| ensures !s.waiters[w].Ready? {
      assert !Enabled(s, ReadLength(w));
    }
  }

  lemma QuietWorkers(s: State)
    requires Inv(s) && Quiet(s)
    ensures s.rw == Free && forall i :: 0 <= i < |s.workers| ==> s.workers[i].Asleep?
    ensures forall w :: 0 <= w < |s.waiters| ==>
      s.waiters[w].Outside? || s.waiters[w].Resting? || s.waiters[w].Returned?
  {
    QuietMutexes(s);
    assert LockFree(s);
    var resting := set w: nat | w < |s.waiters| && s.waiters[w].Resting?;
    assert SignalsWaiters(s, resting) by {
      if w :| 0 <= w < |s.waiters| && s.waiters[w].Resting? { assert w in resting; }
    }
    hide SignalsWaiters;
    hide LockFree;
    forall i | 0 <= i < |s.workers| ensures s.workers[i].Asleep? {
      assert !Enabled(s, Try(i)) && !Enabled(s, Count(i)) && !Enabled(s, Pull(i)) && !Enabled(s, Execute(i));
      SumAtLeast(s.workers, i, BusyWeight);
      assert s.workers[i].Done? ==> Enabled(s, Uncount(i, if s.working == 1 then resting else {}));
    }
  }

  /**
   * No wakeup is ever lost: a pool with a worker that can do nothing more has run every job, and a lone waiter has
   * returned.
   */
  lemma QuietMeansDrained(n: nat, m: nat, s: State)
    requires Reachable(n, m, s) && Quiet(s) && n > 0
    ensures s.queue == [] && s.working == 0 && AllFinished(s, s.added)
    ensures |s.waiters| == m && (m == 1 ==> s.waiters[0].Outside? || s.waiters[0].Returned?)
  {
    ReachableInv(n, m, s);
    QuietWorkers(s);
    assert s.workers[0].Asleep?;
    SumZero(s.workers, BusyWeight);
    EmptyAndIdle(s);
  }

  // ------------------------------------------------------------------ more than one waiter

  lemma {:induction false} RunsAppend(s: State, steps: seq<Step>, st: Step)
    requires Runs(s, steps) && Enabled(After(s, steps), st)
    ensures Runs(s, steps + [st]) && After(s, steps + [st]) == Apply(After(s, steps), st)
    decreases steps
  {
    if steps == [] {
      assert [st][1..] == [];
    } else {
      assert (steps + [st])[1..] == steps[1..] + [st];
      RunsAppend(Apply(s, steps[0]), steps[1..], st);
    }
  }

  lemma ReachNext(n: nat, m: nat, s: State, st: Step) returns (next: State)
    requires Reachable(n, m, s) && Enabled(s, st)
    ensures next == Apply(s, st) && Reachable(n, m, next)
  {
    var steps: seq<Step> :| Runs(Init(n, m), steps) && s == After(Init(n, m), steps);
    RunsAppend(Init(n, m), steps, st);
    next := Apply(s, st);
  }

  /** The state in which one worker is about to pull the only job. */
  function OneJob(n: nat, m: nat): State
    requires n > 0
  {
    Init(n, m).(queue := [0], added := 1, working := 1, workers := Init(n, m).workers[0 := Counted])
  }

  lemma OneJobReached(n: nat, m: nat)
    requires n > 0
    ensures Reachable(n, m, OneJob(n, m))
  {
    var s := Init(n, m);
    assert Runs(s, []) && s == After(s, []);
    hide Reachable;
    s := ReachNext(n, m, s, Insert);
    s := ReachNext(n, m, s, InsertPost({}));
    assert s.workers == Init(n, m).workers;
    s := ReachNext(n, m, s, Try(0));
    s := ReachNext(n, m, s, Count(0));
    assert s == OneJob(n, m);
  }

  /** Two callers sleep while the last job runs; its one signal wakes only the first. */
  lemma TwoWaiters(n: nat, m: nat) returns (s: State)
    requires n > 0 && m > 1
    ensures Reachable(n, m, s) && WaiterIn(s, 1) && Stranded(s, 1)
  {
    OneJobReached(n, m);
    hide Reachable;
    s := OneJob(n, m);
    s := SleepNow(n, m, s, 0);
    s := SleepNow(n, m, s, 1);
    s := FinishJob(n, m, s);
  }

  lemma FinishJob(n: nat, m: nat, s: State) returns (next: State)
    requires n > 0 && m > 1 && Reachable(n, m, s) && LockFree(s)
    requires |s.workers| == n && s.queue == [0] && s.working == 1 && s.rw == Free && s.workers[0].Counted?
    requires |s.waiters| == m && s.waiters[0].Resting? && s.waiters[1].Resting?
    ensures Reachable(n, m, next) && WaiterIn(next, 1) && Stranded(next, 1)
  {
    hide Reachable;
    hide Stranded;
    next := ReachNext(n, m, s, Pull(0));
    next := ReachNext(n, m, next, Execute(0));
    assert next.waiters == s.waiters && next.workers[0] == Done && next.queue == [] && next.working == 1;
    assert LockFree(next);
    next := Signalled(n, m, next);
  }

  /** The worker that counts itself down to nobody wakes the first sleeper only. */
  lemma Signalled(n: nat, m: nat, s: State) returns (next: State)
    requires Reachable(n, m, s) && LockFree(s) && |s.workers| > 0 && s.workers[0].Done? && s.queue == []
    requires s.working == 1
    requires |s.waiters| > 1 && s.waiters[0].Resting? && s.waiters[1].Resting?
    ensures Reachable(n, m, next) && WaiterIn(next, 1) && Stranded(next, 1)
  {
    hide Reachable;
    hide LockFree;
    next := ReachNext(n, m, s, Uncount(0, {0}));
  }

  lemma SleepNow(n: nat, m: nat, s: State, w: nat) returns (next: State)
    requires Reachable(n, m, s) && WaiterIn(s, w) && s.waiters[w].Outside? && s.queue != [] && LockFree(s)
    ensures next == s.(waiters := s.waiters[w := Resting]) && Reachable(n, m, next) && LockFree(next)
  {
    next := ReachNext(n, m, s, Call(w));
    next := ReachNext(n, m, next, ReadLength(w));
    next := ReachNext(n, m, next, Rest(w));
    assert next.waiters == s.waiters[w := Resting];
  }

  ghost predicate NeverStranded(n: nat, m: nat) {
    forall s: State, w: nat :: Reachable(n, m, s) && WaiterIn(s, w) ==> !Stranded(s, w)
  }

  /** thpool_wait is safe from being left asleep exactly when at most one thread uses it (or no worker exists). */
  lemma WaitIsForOneCaller(n: nat, m: nat)
    ensures NeverStranded(n, m) <==> m <= 1 || n == 0
  {
    if m <= 1 || n == 0 {
      forall s: State, w: nat | Reachable(n, m, s) && WaiterIn(s, w) ensures !Stranded(s, w) {
        ReachableInv(n, m, s);
      }
    } else {
      var s := TwoWaiters(n, m);
      assert WaiterIn(s, 1) && Stranded(s, 1);
    }
  }
}
