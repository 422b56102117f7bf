/**
  The thread pool as interleaved steps.  A step is one critical section of the source, or the part of
  one that ends where another mutex is taken: pushing a job and posting the semaphore are separate
  steps because a worker may take the semaphore in between, and `thpool_wait` reads the queue length
  and the working counter one after the other because pushers do not take its lock.
  Jobs are named by the order in which they were pushed.
 */
module ThreadPool {
  import opened Sums

  /** Where a worker is in `thread_do`. */
  datatype Worker =
    | Idle                // about to test the semaphore in bsem_wait
    | Asleep              // in pthread_cond_wait, not signalled
    | Woken               // signalled, has to test the semaphore again
    | Took                // set the semaphore to 0, not yet counted as working
    | Counted             // num_threads_working incremented, about to pull
    | Posting(job: nat)   // pulled, left jobs behind, holds rwmutex and must post
    | Running(job: nat)   // executing the job
    | Done                // no job in hand (finished, or pulled from an empty queue)

  /** Where a caller of `thpool_wait` is. */
  datatype Waiter =
    | Outside
    | Ready                  // about to take thcount_lock and read the queue length
    | SawEmpty(pushed: nat)  // holds the lock, read length 0 when `pushed` jobs had been pushed
    | MustSleep              // holds the lock, about to wait on threads_all_idle
    | Resting                // in pthread_cond_wait, not signalled
    | Returned(pushed: nat)

  datatype RwHolder = Free | Adder | Puller(worker: nat)

  datatype State = State(
    queue: seq<nat>,      // jobqueue, front first
    added: nat,           // jobs pushed so far
    pulled: seq<nat>,     // history of successful pulls
    finished: seq<nat>,   // history of completed jobs
    v: bool,              // the binary semaphore
    rw: RwHolder,         // jobqueue.rwmutex
    working: nat,         // num_threads_working
    workers: seq<Worker>,
    waiters: seq<Waiter>)

  datatype Step =
    | Insert                                   // jobqueue_push up to len++
    | InsertPost(wake: set<nat>)               // its bsem_post and unlock
    | Try(worker: nat)                         // one test of bsem_wait
    | Spurious(worker: nat)                    // spurious wakeup
    | Count(worker: nat)                       // num_threads_working++
    | Pull(worker: nat)                        // jobqueue_pull up to its bsem_post
    | PullPost(worker: nat, wake: set<nat>)    // that bsem_post and unlock
    | Execute(worker: nat)                     // the job returns
    | Uncount(worker: nat, wake: set<nat>)     // num_threads_working--, signal when it reaches 0
    | Call(waiter: nat)                        // thpool_wait is called
    | ReadLength(waiter: nat)
    | ReadWorking(waiter: nat)
    | Rest(waiter: nat)
    | SpuriousWaiter(waiter: nat)

  function Init(workers: nat, waiters: nat): State {
    State([], 0, [], [], false, Free, 0, seq(workers, _ => Idle), seq(waiters, _ => Outside))
  }

  predicate Busy(w: Worker) { w.Counted? || w.Posting? || w.Running? || w.Done? }

  function BusyWeight(w: Worker): nat { if Busy(w) then 1 else 0 }

  predicate Locking(w: Waiter) { w.SawEmpty? || w.MustSleep? }

  /** thcount_lock can be taken. */
  predicate LockFree(s: State) { forall w :: 0 <= w < |s.waiters| ==> !Locking(s.waiters[w]) }

  /** pthread_cond_signal wakes at least one sleeper if there is one. */
  predicate SignalsWorkers(s: State, wake: set<nat>) {
    && (forall i :: i in wake ==> i < |s.workers| && s.workers[i].Asleep?)
    && ((exists i :: 0 <= i < |s.workers| && s.workers[i].Asleep?) ==> wake != {})
  }

  predicate SignalsWaiters(s: State, wake: set<nat>) {
    && (forall i :: i in wake ==> i < |s.waiters| && s.waiters[i].Resting?)
    && ((exists i :: 0 <= i < |s.waiters| && s.waiters[i].Resting?) ==> wake != {})
  }

  function WakeWorkers(ws: seq<Worker>, wake: set<nat>): (r: seq<Worker>)
    ensures |r| == |ws|
  {
    seq(|ws|, i requires 0 <= i < |ws| => if i in wake then Woken else ws[i])
  }

  function WakeWaiters(ws: seq<Waiter>, wake: set<nat>): (r: seq<Waiter>)
    ensures |r| == |ws|
  {
    seq(|ws|, i requires 0 <= i < |ws| => if i in wake then Ready else ws[i])
  }

  predicate WorkerIn(s: State, i: nat) { i < |s.workers| }
  predicate WaiterIn(s: State, i: nat) { i < |s.waiters| }

  predicate Enabled(s: State, st: Step) {
    match st
    case Insert => s.rw == Free
    case InsertPost(wake) => s.rw == Adder && SignalsWorkers(s, wake)
    case Try(i) => WorkerIn(s, i) && (s.workers[i].Idle? || s.workers[i].Woken?)
    case Spurious(i) => WorkerIn(s, i) && s.workers[i].Asleep?
    case Count(i) => WorkerIn(s, i) && s.workers[i].Took? && LockFree(s)
    case Pull(i) => WorkerIn(s, i) && s.workers[i].Counted? && s.rw == Free
    case PullPost(i, wake) => WorkerIn(s, i) && s.workers[i].Posting? && s.rw == Puller(i) && SignalsWorkers(s, wake)
    case Execute(i) => WorkerIn(s, i) && s.workers[i].Running?
    case Uncount(i, wake) =>
      && WorkerIn(s, i) && s.workers[i].Done? && LockFree(s) && s.working > 0
      && (if s.working == 1 then SignalsWaiters(s, wake) else wake == {})
    case Call(w) => WaiterIn(s, w) && (s.waiters[w].Outside? || s.waiters[w].Returned?)
    case ReadLength(w) => WaiterIn(s, w) && s.waiters[w].Ready? && LockFree(s)
    case ReadWorking(w) => WaiterIn(s, w) && s.waiters[w].SawEmpty?
    case Rest(w) => WaiterIn(s, w) && s.waiters[w].MustSleep?
    case SpuriousWaiter(w) => WaiterIn(s, w) && s.waiters[w].Resting?
  }

  /** The switch on `len` in jobqueue_pull: nothing, the last job, or one of several. */
  function PullFrom(s: State, i: nat): State
    requires WorkerIn(s, i)
  {
    if |s.queue| == 0 then s.(workers := s.workers[i := Done])
    else if |s.queue| == 1 then
      s.(queue := [], pulled := s.pulled + [s.queue[0]], workers := s.workers[i := Running(s.queue[0])])
    else
      s.(queue := s.queue[1..], pulled := s.pulled + [s.queue[0]], rw := Puller(i),
         workers := s.workers[i := Posting(s.queue[0])])
  }

  function Apply(s: State, st: Step): State
    requires Enabled(s, st)
  {
    match st
    case Insert => s.(queue := s.queue + [s.added], added := s.added + 1, rw := Adder)
    case InsertPost(wake) => s.(v := true, rw := Free, workers := WakeWorkers(s.workers, wake))
    case Try(i) =>
      if s.v then s.(v := false, workers := s.workers[i := Took])
      else s.(workers := s.workers[i := Asleep])
    case Spurious(i) => s.(workers := s.workers[i := Woken])
    case Count(i) => s.(working := s.working + 1, workers := s.workers[i := Counted])
    case Pull(i) => PullFrom(s, i)
    case PullPost(i, wake) =>
      s.(v := true, rw := Free, workers := WakeWorkers(s.workers, wake)[i := Running(s.workers[i].job)])
    case Execute(i) => s.(finished := s.finished + [s.workers[i].job], workers := s.workers[i := Done])
    case Uncount(i, wake) =>
      s.(working := s.working - 1, workers := s.workers[i := Idle], waiters := WakeWaiters(s.waiters, wake))
    case Call(w) => s.(waiters := s.waiters[w := Ready])
    case ReadLength(w) =>
      s.(waiters := s.waiters[w := if s.queue == [] then SawEmpty(s.added) else MustSleep])
    case ReadWorking(w) =>
      s.(waiters := s.waiters[w := if s.working == 0 then Returned(s.waiters[w].pushed) else MustSleep])
    case Rest(w) => s.(waiters := s.waiters[w := Resting])
    case SpuriousWaiter(w) => s.(waiters := s.waiters[w := Ready])
  }

  // ------------------------------------------------------------------ invariants

  /** Mutexes are held by whom the program counters say; at most one waiter is in thcount_lock. */
  predicate Mutexes(s: State) {
    && (forall i :: 0 <= i < |s.workers| && s.workers[i].Posting? ==> s.rw == Puller(i))
    && (s.rw.Puller? ==> s.rw.worker < |s.workers| && s.workers[s.rw.worker].Posting?)
    && (forall w, u :: 0 <= w < |s.waiters| && 0 <= u < |s.waiters| ==>
          Locking(s.waiters[w]) && Locking(s.waiters[u]) ==> w == u)
  }

  /** num_threads_working counts the busy workers. */
  predicate Counter(s: State) { s.working == Sum(s.workers, BusyWeight) }

  /** No lost job: a queue that is not empty has a post standing, on its way, or taken by a worker that will pull. */
  predicate JobsAnnounced(s: State) {
    s.queue != [] ==>
      s.v || s.rw != Free || exists i :: 0 <= i < |s.workers| && (s.workers[i].Took? || s.workers[i].Counted?)
  }

  /** No lost wakeup: with the semaphore up, a sleeper is left unsignalled only if another is signalled. */
  predicate PostHeard(s: State) {
    s.v && (exists i :: 0 <= i < |s.workers| && s.workers[i].Asleep?) ==>
      exists i :: 0 <= i < |s.workers| && s.workers[i].Woken?
  }

  function Upto(n: nat): (r: seq<nat>)
    ensures |r| == n && forall k :: 0 <= k < n ==> r[k] == k
  {
    seq(n, i requires i >= 0 => i)
  }

  function Holds(j: nat): Worker -> nat {
    (w: Worker) => if (w.Posting? || w.Running?) && w.job == j then 1 else 0
  }

  /** How many workers hold job j: it was pulled and has not finished. */
  function InHand(ws: seq<Worker>, j: nat): nat { Sum(ws, Holds(j)) }

  /** Job j was pulled as often as it is in hand or finished. */
  predicate JobAccounted(s: State, j: nat) {
    multiset(s.pulled)[j] == InHand(s.workers, j) + multiset(s.finished)[j]
  }

  /**
   * FIFO and conservation: pulled and queued jobs are the pushed ones in order; pulled ones are in hand or finished.
   */
  ghost predicate Accounted(s: State) {
    && s.pulled + s.queue == Upto(s.added)
    && forall j: nat :: JobAccounted(s, j)
  }

  predicate AllFinished(s: State, n: nat) { forall j :: 0 <= j < n ==> j in multiset(s.finished) }

  /** What a waiter has learnt is true: once it has seen an empty queue and nobody working, all is finished. */
  predicate Informed(s: State, w: Waiter) {
    && (w.SawEmpty? && s.working == 0 ==> AllFinished(s, w.pushed))
    && (w.Returned? ==> AllFinished(s, w.pushed))
  }

  predicate WaitersInformed(s: State) { forall w :: 0 <= w < |s.waiters| ==> Informed(s, s.waiters[w]) }

  ghost predicate Inv(s: State) {
    Mutexes(s) && Counter(s) && JobsAnnounced(s) && PostHeard(s) && Accounted(s) && WaitersInformed(s)
  }

  /** A waiter sleeps unsignalled although the queue is empty and nobody is working. */
  predicate Stranded(s: State, w: nat)
    requires WaiterIn(s, w)
  {
    s.waiters[w].Resting? && s.queue == [] && s.working == 0
  }

  /** A lone waiter that is asleep, or has decided to sleep, still has a signal coming. */
  predicate WaiterSafe(s: State) {
    |s.waiters| <= 1 || |s.workers| == 0 ==>
      forall w :: 0 <= w < |s.waiters| && (s.waiters[w].Resting? || s.waiters[w].MustSleep?) ==>
        s.queue != [] || s.working > 0
  }

  // ------------------------------------------------------------------ bookkeeping lemmas

  /** No counted worker means no busy worker, hence nothing in hand. */
  lemma NobodyWorking(s: State)
    requires Counter(s) && s.working == 0
    ensures forall i :: 0 <= i < |s.workers| ==> !Busy(s.workers[i])
    ensures forall j: nat :: InHand(s.workers, j) == 0
  {
    forall i | 0 <= i < |s.workers| ensures !Busy(s.workers[i]) {
      SumAtLeast(s.workers, i, BusyWeight);
    }
    forall j: nat ensures InHand(s.workers, j) == 0 {
      SumZero(s.workers, Holds(j));
    }
  }

  // ------------------------------------------------------------------ every step keeps the invariants

  lemma MutexesKept(s: State, st: Step)
    requires Mutexes(s) && Enabled(s, st)
    ensures Mutexes(Apply(s, st))
  {
    hide SignalsWorkers;
    hide SignalsWaiters;
    if st.Uncount? || st.Call? || st.ReadLength? || st.ReadWorking? || st.Rest? || st.SpuriousWaiter? {
    } else {
      hide LockFree;
    }
  }

  /** A worker step changes one worker and the counter with it. */
  lemma CounterMoves(s: State, st: Step)
    requires Counter(s) && Enabled(s, st)
    requires st.Try? || st.Spurious? || st.Count? || st.Pull? || st.Execute? || st.Uncount?
    ensures Counter(Apply(s, st))
  {
    hide SignalsWorkers;
    hide SignalsWaiters;
    hide LockFree;
    var w := Apply(s, st).workers[st.worker];
    SumUpdate(s.workers, st.worker, w, BusyWeight);
    assert Apply(s, st).workers == s.workers[st.worker := w];
    hide Sum;
  }

  lemma WakeBusy(ws: seq<Worker>, wake: set<nat>)
    requires forall i :: i in wake ==> i < |ws| && ws[i].Asleep?
    ensures Sum(WakeWorkers(ws, wake), BusyWeight) == Sum(ws, BusyWeight)
  {
    SumEqual(WakeWorkers(ws, wake), ws, BusyWeight);
  }

  lemma CounterKept(s: State, st: Step)
    requires Counter(s) && Enabled(s, st)
    ensures Counter(Apply(s, st))
  {
    if st.InsertPost? || st.PullPost? {
      var vs := WakeWorkers(s.workers, st.wake);
      WakeBusy(s.workers, st.wake);
      if st.PullPost? {
        SumUpdate(vs, st.worker, Running(s.workers[st.worker].job), BusyWeight);
      }
      hide Sum;
    } else if st.Try? || st.Spurious? || st.Count? || st.Pull? || st.Execute? || st.Uncount? {
      CounterMoves(s, st);
    }
    hide SignalsWorkers;
    hide SignalsWaiters;
    hide LockFree;
    hide WakeWorkers;
  }

  lemma JobsAnnouncedKept(s: State, st: Step)
    requires JobsAnnounced(s) && Mutexes(s) && Enabled(s, st)
    ensures JobsAnnounced(Apply(s, st))
  {
    var s' := Apply(s, st);
    if s'.queue != [] && !s'.v && s'.rw == Free {
      if s.queue != [] && !s.v && s.rw == Free {
        var i :| 0 <= i < |s.workers| && (s.workers[i].Took? || s.workers[i].Counted?);
        assert s'.workers[i].Took? || s'.workers[i].Counted?;
      } else if s.v {
        assert st.Try? && s'.workers[st.worker].Took?;
      }
    }
  }

  lemma PostHeardKept(s: State, st: Step)
    requires PostHeard(s) && Enabled(s, st)
    ensures PostHeard(Apply(s, st))
  {
    var s' := Apply(s, st);
    if i :| s'.v && 0 <= i < |s'.workers| && s'.workers[i].Asleep? {
      assert s.workers[i].Asleep?;
      if st.InsertPost? || st.PullPost? {
        var k :| k in st.wake;
        assert s'.workers[k].Woken?;
      } else {
        var k :| 0 <= k < |s.workers| && s.workers[k].Woken?;
        assert s'.workers[k].Woken?;
      }
    }
  }

  lemma OrderKept(s: State, st: Step)
    requires s.pulled + s.queue == Upto(s.added) && Enabled(s, st)
    ensures Apply(s, st).pulled + Apply(s, st).queue == Upto(Apply(s, st).added)
  {
    hide SignalsWorkers;
    hide SignalsWaiters;
    hide LockFree;
    var s' := Apply(s, st);
    if st.Insert? {
      assert s'.pulled + s'.queue == Upto(s.added) + [s.added];
    } else if st.Pull? && s.queue != [] {
      assert s.queue == [s.queue[0]] + s.queue[1..];
      assert s'.pulled + s'.queue == s.pulled + s.queue;
    }
  }

  lemma WakeHolds(ws: seq<Worker>, wake: set<nat>, j: nat)
    requires forall i :: i in wake ==> i < |ws| && ws[i].Asleep?
    ensures InHand(WakeWorkers(ws, wake), j) == InHand(ws, j)
  {
    SumEqual(WakeWorkers(ws, wake), ws, Holds(j));
  }

  lemma PostAccounts(s: State, st: Step, j: nat)
    requires JobAccounted(s, j) && Enabled(s, st) && (st.InsertPost? || st.PullPost?)
    ensures JobAccounted(Apply(s, st), j)
  {
    var ws, vs := s.workers, WakeWorkers(s.workers, st.wake);
    WakeHolds(ws, st.wake, j);
    if st.PullPost? {
      assert vs[st.worker].Posting? && vs[st.worker].job == ws[st.worker].job;
      SumUpdate(vs, st.worker, Running(ws[st.worker].job), Holds(j));
    }
    hide SignalsWorkers;
    hide SignalsWaiters;
    hide LockFree;
    hide WakeWorkers;
    hide Sum;
  }

  /** A job that leaves the queue is in a worker's hand. */
  lemma HandsOver(ws: seq<Worker>, i: nat, x: nat, w: Worker, pulled: seq<nat>, j: nat)
    requires i < |ws| && ws[i].Counted? && (w == Posting(x) || w == Running(x))
    ensures InHand(ws[i := w], j) == InHand(ws, j) + (if x == j then 1 else 0)
    ensures multiset(pulled + [x])[j] == multiset(pulled)[j] + (if x == j then 1 else 0)
    ensures InHand(ws[i := Done], j) == InHand(ws, j)
  {
    SumUpdate(ws, i, w, Holds(j));
    SumUpdate(ws, i, Done, Holds(j));
    hide Sum;
  }

  lemma PullAccounts(s: State, st: Step, j: nat)
    requires JobAccounted(s, j) && Enabled(s, st) && st.Pull?
    ensures JobAccounted(Apply(s, st), j)
  {
    hide LockFree;
    var i := st.worker;
    var x := if s.queue == [] then 0 else s.queue[0];
    HandsOver(s.workers, i, x, if |s.queue| == 1 then Running(x) else Posting(x), s.pulled, j);
    hide InHand;
    hide Enabled;
  }

  lemma WorkerAccounts(s: State, st: Step, j: nat)
    requires JobAccounted(s, j) && Enabled(s, st)
    requires st.Try? || st.Spurious? || st.Count? || st.Execute? || st.Uncount?
    ensures JobAccounted(Apply(s, st), j)
  {
    hide SignalsWorkers;
    hide SignalsWaiters;
    hide LockFree;
    var w := if st.Execute? then Done else if st.Uncount? then Idle else if st.Count? then Counted
      else if st.Spurious? then Woken else if s.v then Took else Asleep;
    SumUpdate(s.workers, st.worker, w, Holds(j));
    hide Sum;
    hide PullFrom;
    assert Apply(s, st).workers == s.workers[st.worker := w] && Apply(s, st).pulled == s.pulled;
    assert Apply(s, st).finished == if st.Execute? then s.finished + [s.workers[st.worker].job] else s.finished;
    assert Enabled(s, st) && st.Execute? ==> s.workers[st.worker].Running?;
    assert !st.Execute? ==> Holds(j)(s.workers[st.worker]) == 0;
    hide Enabled;
    hide Apply;
  }

  lemma JobAccountedKept(s: State, st: Step, j: nat)
    requires JobAccounted(s, j) && Enabled(s, st)
    ensures JobAccounted(Apply(s, st), j)
  {
    hide SignalsWorkers;
    hide SignalsWaiters;
    hide LockFree;
    if st.InsertPost? || st.PullPost? {
      PostAccounts(s, st, j);
    } else if st.Pull? {
      PullAccounts(s, st, j);
    } else if st.Try? || st.Spurious? || st.Count? || st.Execute? || st.Uncount? {
      WorkerAccounts(s, st, j);
    }
  }

  lemma AccountedKept(s: State, st: Step)
    requires Accounted(s) && Enabled(s, st)
    ensures Accounted(Apply(s, st))
  {
    OrderKept(s, st);
    hide Enabled;
    hide Apply;
    forall j: nat ensures JobAccounted(Apply(s, st), j) {
      assert JobAccounted(s, j);
      JobAccountedKept(s, st, j);
    }
  }

  /** At the moment an empty queue is read with nobody working, every job pushed has finished. */
  lemma EmptyAndIdle(s: State)
    requires Counter(s) && Accounted(s) && s.queue == []
    ensures |s.pulled| == s.added
    ensures s.working == 0 ==> AllFinished(s, s.added)
  {
    assert s.pulled == Upto(s.added);
    if s.working == 0 {
      NobodyWorking(s);
      forall j | 0 <= j < s.added ensures j in multiset(s.finished) {
        assert s.pulled[j] == j;
        assert j in multiset(s.pulled) && JobAccounted(s, j);
      }
    }
  }

  lemma HistoryGrows(s: State, st: Step)
    requires Enabled(s, st)
    ensures s.pulled <= Apply(s, st).pulled && s.finished <= Apply(s, st).finished && s.added <= Apply(s, st).added
    ensures forall n: nat :: AllFinished(s, n) ==> AllFinished(Apply(s, st), n)
  {
    assert multiset(s.finished) <= multiset(Apply(s, st).finished);
  }

  lemma WaiterInformedKept(s: State, st: Step, w: nat)
    requires WaiterIn(s, w) && Informed(s, s.waiters[w])
    requires Mutexes(s) && Counter(s) && Accounted(s) && Enabled(s, st)
    ensures Informed(Apply(s, st), Apply(s, st).waiters[w])
  {
    hide SignalsWorkers;
    hide SignalsWaiters;
    HistoryGrows(s, st);
    if st.ReadLength? && s.queue == [] {
      EmptyAndIdle(s);
    }
    hide Mutexes;
    hide Counter;
    hide Accounted;
    hide AllFinished;
    if !st.Uncount? {
      hide LockFree;
    }
  }

  lemma WaitersInformedKept(s: State, st: Step)
    requires Mutexes(s) && Counter(s) && Accounted(s) && WaitersInformed(s) && Enabled(s, st)
    ensures WaitersInformed(Apply(s, st))
  {
    forall w | 0 <= w < |s.waiters| ensures Informed(Apply(s, st), Apply(s, st).waiters[w]) {
      WaiterInformedKept(s, st, w);
    }
  }

  /** The invariant holds in every reachable state: it holds at the start and every step keeps it. */
  lemma InvKept(s: State, st: Step)
    requires Inv(s) && Enabled(s, st)
    ensures Inv(Apply(s, st))
  {
    MutexesKept(s, st);
    CounterKept(s, st);
    JobsAnnouncedKept(s, st);
    PostHeardKept(s, st);
    AccountedKept(s, st);
    WaitersInformedKept(s, st);
  }

  lemma WaiterSafeKept(s: State, st: Step)
    requires Counter(s) && WaiterSafe(s) && Enabled(s, st)
    ensures WaiterSafe(Apply(s, st))
  {
    if st.Pull? {
      SumAtLeast(s.workers, st.worker, BusyWeight);
    }
  }

  lemma SameThreads(s: State, st: Step)
    requires Enabled(s, st)
    ensures |Apply(s, st).workers| == |s.workers| && |Apply(s, st).waiters| == |s.waiters|
  {
    hide SignalsWorkers;
    hide SignalsWaiters;
    hide LockFree;
  }
}
