/**
 * The bounded blocking queue as interleaved steps of any number of putting and getting threads.  The code from taking
 * the mutex to giving it up, by unlocking or by waiting on a condition, is one step.
 */
module BlockingQueue {
  import opened Sums

  datatype Thread =
    | Outside
    | ToPut(item: nat)    // about to take the mutex, for the first time in this call
    | ToGet
    | PutAsleep(item: nat)  // in pthread_cond_wait, not signalled
    | GetAsleep
    | PutWoken(item: nat)   // signalled, has to take the mutex again
    | GetWoken

  datatype State = State(queue: seq<nat>, max: nat, threads: seq<Thread>,
                         put: seq<nat>,   // history of items accepted
                         got: seq<nat>)   // history of items handed out

  datatype Step =
    | CallPut(thread: nat, item: nat)
    | CallGet(thread: nat)
    | Put(thread: nat, wake: set<nat>)  // one pass of the loop in msg_que_put_with_type
    | Get(thread: nat, wake: set<nat>)  // one pass of the loop in msg_que_get_with_type
    | Spurious(thread: nat)

  function Init(max: nat, threads: nat): State { State([], max, seq(threads, _ => Outside), [], []) }

  /** pthread_cond_signal wakes at least one sleeper if there is one. */
  predicate SignalsGetters(s: State, wake: set<nat>) {
    && (forall i :: i in wake ==> i < |s.threads| && s.threads[i].GetAsleep?)
    && (GetterAsleep(s) ==> wake != {})
  }

  predicate SignalsPutters(s: State, wake: set<nat>) {
    && (forall i :: i in wake ==> i < |s.threads| && s.threads[i].PutAsleep?)
    && (PutterAsleep(s) ==> wake != {})
  }

  predicate GetterAsleep(s: State) { exists i :: 0 <= i < |s.threads| && s.threads[i].GetAsleep? }

  predicate PutterAsleep(s: State) { exists i :: 0 <= i < |s.threads| && s.threads[i].PutAsleep? }

  function Woken(t: Thread): Thread {
    match t
    case GetAsleep => GetWoken
    case PutAsleep(item) => PutWoken(item)
    case _ => t
  }

  function Wake(ts: seq<Thread>, wake: set<nat>): (r: seq<Thread>)
    ensures |r| == |ts|
  {
    seq(|ts|, i requires 0 <= i < |ts| => if i in wake then Woken(ts[i]) else ts[i])
  }

  predicate HasRoom(s: State) { |s.queue| < s.max }

  predicate Putting(t: Thread) { t.ToPut? || t.PutWoken? }

  predicate Getting(t: Thread) { t.ToGet? || t.GetWoken? }

  predicate Enabled(s: State, st: Step) {
    && st.thread < |s.threads|
    && var t := s.threads[st.thread];
       match st
       case CallPut(_, _) => t.Outside?
       case CallGet(_) => t.Outside?
       case Put(_, wake) => Putting(t) && if HasRoom(s) then SignalsGetters(s, wake) else wake == {}
       case Get(_, wake) => Getting(t) && if s.queue != [] then SignalsPutters(s, wake) else wake == {}
       case Spurious(_) => t.GetAsleep? || t.PutAsleep?
  }

  function Apply(s: State, st: Step): State
    requires Enabled(s, st)
  {
    var i := st.thread;
    match st
    case CallPut(_, item) => s.(threads := s.threads[i := ToPut(item)])
    case CallGet(_) => s.(threads := s.threads[i := ToGet])
    case Put(_, wake) =>
      var item := s.threads[i].item;
      if HasRoom(s) then
        s.(queue := s.queue + [item], put := s.put + [item], threads := Wake(s.threads[i := Outside], wake))
      else s.(threads := s.threads[i := PutAsleep(item)])
    case Get(_, wake) =>
      if s.queue != [] then
        s.(queue := s.queue[1..], got := s.got + [s.queue[0]], threads := Wake(s.threads[i := Outside], wake))
      else s.(threads := s.threads[i := GetAsleep])
    case Spurious(_) => s.(threads := s.threads[i := Woken(s.threads[i])])
  }

  // ------------------------------------------------------------------ invariants

  function GetWokenWeight(t: Thread): nat { if t.GetWoken? then 1 else 0 }

  function PutWokenWeight(t: Thread): nat { if t.PutWoken? then 1 else 0 }

  function GettersWoken(s: State): nat { Sum(s.threads, GetWokenWeight) }

  function PuttersWoken(s: State): nat { Sum(s.threads, PutWokenWeight) }

  /** Items leave in the order they came, and no more are kept than the queue has room for. */
  ghost predicate Fifo(s: State) { s.put == s.got + s.queue && |s.queue| <= s.max }

  /** While a getter sleeps, as many woken getters are on their way as there are items. */
  ghost predicate ItemsCovered(s: State) { GetterAsleep(s) ==> |s.queue| <= GettersWoken(s) }

  /** While a putter sleeps, as many woken putters are on their way as there are free places. */
  ghost predicate RoomCovered(s: State) { PutterAsleep(s) ==> s.max - |s.queue| <= PuttersWoken(s) }

  ghost predicate Inv(s: State) { Fifo(s) && ItemsCovered(s) && RoomCovered(s) }

  lemma InitHolds(max: nat, threads: nat)
    ensures Inv(Init(max, threads))
  {
  }

  lemma FifoKept(s: State, st: Step)
    requires Fifo(s) && Enabled(s, st)
    ensures Fifo(Apply(s, st))
  {
    var t := Apply(s, st);
    if st.Put? && HasRoom(s) {
      assert t.got + t.queue == s.got + s.queue + [s.threads[st.thread].item];
    } else if st.Get? && s.queue != [] {
      assert s.queue == [s.queue[0]] + s.queue[1..];
      assert t.got + t.queue == s.got + s.queue;
    }
  }

  /** Waking never lowers a count of woken threads. */
  lemma {:induction false} WakeCounts(ts: seq<Thread>, wake: set<nat>, f: Thread -> nat)
    requires f == GetWokenWeight || f == PutWokenWeight
    ensures Sum(Wake(ts, wake), f) >= Sum(ts, f)
  {
    forall i | 0 <= i < |ts| ensures f(ts[i]) <= f(Wake(ts, wake)[i]) + 0 {
    }
    SumPointwise(ts, Wake(ts, wake), f, 0);
    SumConst(Wake(ts, wake), 0);
  }

  /** Waking a sleeper raises it. */
  lemma WakeRaises(ts: seq<Thread>, wake: set<nat>, i: nat, f: Thread -> nat)
    requires i in wake && i < |ts|
    requires (f == GetWokenWeight && ts[i].GetAsleep?) || (f == PutWokenWeight && ts[i].PutAsleep?)
    ensures Sum(Wake(ts, wake), f) >= Sum(ts, f) + 1
  {
    var one := ts[i := Woken(ts[i])];
    SumUpdate(ts, i, Woken(ts[i]), f);
    assert Wake(one, wake) == Wake(ts, wake);
    WakeCounts(one, wake, f);
  }

  /** Whoever sleeps after a step slept before it, but for the thread that took the step. */
  lemma SleepersOld(s: State, st: Step, j: nat)
    requires Enabled(s, st) && j < |s.threads| && j != st.thread
    ensures Apply(s, st).threads[j].GetAsleep? ==> s.threads[j].GetAsleep?
    ensures Apply(s, st).threads[j].PutAsleep? ==> s.threads[j].PutAsleep?
    ensures st.Put? && HasRoom(s) && Apply(s, st).threads[j].GetAsleep? ==> j !in st.wake
  {
  }

  lemma ItemsCoveredKept(s: State, st: Step)
    requires Fifo(s) && ItemsCovered(s) && Enabled(s, st)
    ensures ItemsCovered(Apply(s, st))
  {
    var t := Apply(s, st);
    if GetterAsleep(t) {
      var j :| 0 <= j < |t.threads| && t.threads[j].GetAsleep?;
      var i := st.thread;
      if st.Put? && HasRoom(s) {
        SleepersOld(s, st, j);
        assert GetterAsleep(s);
        var k :| k in st.wake;
        SumUpdate(s.threads, i, Outside, GetWokenWeight);
        WakeRaises(s.threads[i := Outside], st.wake, k, GetWokenWeight);
      } else if st.Get? && s.queue != [] {
        SleepersOld(s, st, j);
        assert GetterAsleep(s);
        SumUpdate(s.threads, i, Outside, GetWokenWeight);
        WakeCounts(s.threads[i := Outside], st.wake, GetWokenWeight);
      } else if !st.Get? {
        SumUpdate(s.threads, i, t.threads[i], GetWokenWeight);
        assert j != i && s.threads[j].GetAsleep?;
      }
    }
  }

  lemma RoomCoveredKept(s: State, st: Step)
    requires Fifo(s) && RoomCovered(s) && Enabled(s, st)
    ensures RoomCovered(Apply(s, st))
  {
    var t := Apply(s, st);
    if PutterAsleep(t) {
      var j :| 0 <= j < |t.threads| && t.threads[j].PutAsleep?;
      var i := st.thread;
      if st.Get? && s.queue != [] {
        SleepersOld(s, st, j);
        assert PutterAsleep(s);
        var k :| k in st.wake;
        SumUpdate(s.threads, i, Outside, PutWokenWeight);
        WakeRaises(s.threads[i := Outside], st.wake, k, PutWokenWeight);
      } else if st.Put? && HasRoom(s) {
        SleepersOld(s, st, j);
        assert PutterAsleep(s);
        SumUpdate(s.threads, i, Outside, PutWokenWeight);
        WakeCounts(s.threads[i := Outside], st.wake, PutWokenWeight);
      } else if !st.Put? {
        SumUpdate(s.threads, i, t.threads[i], PutWokenWeight);
        assert j != i && s.threads[j].PutAsleep?;
      }
    }
  }

  lemma InvKept(s: State, st: Step)
    requires Inv(s) && Enabled(s, st)
    ensures Inv(Apply(s, st))
  {
    FifoKept(s, st);
    ItemsCoveredKept(s, st);
    RoomCoveredKept(s, st);
  }

  // ------------------------------------------------------------------ whole runs

  /** The steps can be taken one after the other and lead from s to t. */
  ghost predicate Leads(s: State, steps: seq<Step>, t: State)
    decreases |steps|
  {
    if steps == [] then s == t
    else Enabled(s, steps[0]) && Leads(Apply(s, steps[0]), steps[1..], t)
  }

  lemma {:induction false} InvAfter(s: State, steps: seq<Step>, t: State)
    requires Inv(s) && Leads(s, steps, t)
    ensures Inv(t) && t.max == s.max && |t.threads| == |s.threads|
    decreases |steps|
  {
    if steps != [] {
      InvKept(s, steps[0]);
      hide Inv;
      InvAfter(Apply(s, steps[0]), steps[1..], t);
    }
  }

  /** Nobody is about to take the mutex: the queue moves only when another call is made. */
  predicate Quiet(s: State) {
    forall i :: 0 <= i < |s.threads| ==> !Putting(s.threads[i]) && !Getting(s.threads[i])
  }

  lemma QuietCounts(s: State)
    requires Quiet(s)
    ensures GettersWoken(s) == 0 && PuttersWoken(s) == 0
  {
    SumZero(s.threads, GetWokenWeight);
    SumZero(s.threads, PutWokenWeight);
  }

  /**
   * In every run, with any number of threads: no wakeup is lost on either side, and items come out in the order they
   * went in.
   */
  lemma NoLostWakeup(max: nat, threads: nat, steps: seq<Step>, t: State)
    requires Leads(Init(max, threads), steps, t)
    ensures t.put == t.got + t.queue && |t.queue| <= max
    ensures Quiet(t) && GetterAsleep(t) ==> t.queue == []
    ensures Quiet(t) && PutterAsleep(t) ==> |t.queue| == max
  {
    InitHolds(max, threads);
    InvAfter(Init(max, threads), steps, t);
    if Quiet(t) {
      QuietCounts(t);
    }
  }

  predicate BothStuck(s: State) { Quiet(s) && GetterAsleep(s) && PutterAsleep(s) }

  /** Two threads, one of them putting. */
  function Meeting(): seq<Step> {
    [CallPut(0, 7), Put(0, {}), CallGet(1), Get(1, {})]
  }

  /** Some run ends with getters and putters stuck at the same time. */
  ghost predicate CanGetStuck(max: nat) {
    exists threads: nat, steps: seq<Step>, t: State :: LeadsToStuck(max, threads, steps, t)
  }

  ghost predicate LeadsToStuck(max: nat, threads: nat, steps: seq<Step>, t: State) {
    Leads(Init(max, threads), steps, t) && BothStuck(t)
  }

  /** That happens exactly when the queue was created without room. */
  lemma StuckIffNoRoom(max: nat)
    ensures CanGetStuck(max) <==> max == 0
  {
    if CanGetStuck(max) {
      var threads: nat, steps: seq<Step>, t: State :| LeadsToStuck(max, threads, steps, t);
      NoLostWakeup(max, threads, steps, t);
    }
    if max == 0 {
      var t := MeetingEnds();
      assert LeadsToStuck(0, 2, Meeting(), t);
    }
  }

  lemma MeetingEnds() returns (t: State)
    ensures Leads(Init(0, 2), Meeting(), t) && BothStuck(t)
  {
    var s := Init(0, 2);
    var steps := Meeting();
    var s1 := Apply(s, steps[0]);
    var s2 := Apply(s1, steps[1]);
    var s3 := Apply(s2, steps[2]);
    t := Apply(s3, steps[3]);
    assert t.threads[0].PutAsleep? && t.threads[1].GetAsleep?;
    assert Leads(t, steps[1..][1..][1..][1..], t);
    assert Leads(s3, steps[1..][1..][1..], t);
    assert Leads(s2, steps[1..][1..], t);
    assert Leads(s1, steps[1..], t);
  }

  // ------------------------------------------------------------------ flushing

  /** msg_que_flush empties the queue and signals nobody. */
  function Flush(s: State): State { s.(queue := [], got := s.put) }

  /** A flush keeps the invariants exactly when every place it empties has a putter on its way, or no putter sleeps. */
  lemma FlushKeeps(s: State)
    requires Inv(s)
    ensures Inv(Flush(s)) <==> !PutterAsleep(s) || s.max <= PuttersWoken(s)
  {
    assert s.put == s.put + [];
  }

  /**
   * When nobody is on the move: a flush leaves a putter asleep beside free places exactly when one sleeps and there is
   * room at all.
   */
  lemma FlushStrands(s: State)
    requires Inv(s) && Quiet(s)
    ensures var t := Flush(s);
      && Quiet(t) && (PutterAsleep(t) && HasRoom(t) <==> PutterAsleep(s) && s.max > 0)
      && (Inv(t) <==> !(PutterAsleep(t) && HasRoom(t)))
  {
    QuietCounts(s);
    FlushKeeps(s);
  }

  /** One thread that puts n times. */
  function Puts(n: nat): seq<Step> {
    if n == 0 then [] else [CallPut(0, 7), Put(0, {})] + Puts(n - 1)
  }

  predicate Single(s: State) { |s.threads| == 1 && s.threads[0] == Outside && |s.queue| <= s.max }

  lemma {:induction false} Filling(s: State, n: nat) returns (t: State)
    requires Single(s) && |s.queue| + n == s.max + 1
    ensures Leads(s, Puts(n), t) && Quiet(t) && PutterAsleep(t) && t.max == s.max
    decreases n
  {
    var s1 := Apply(s, CallPut(0, 7));
    var s2 := Apply(s1, Put(0, {}));
    var steps := Puts(n);
    assert steps[0] == CallPut(0, 7) && steps[1..][0] == Put(0, {}) && steps[1..][1..] == Puts(n - 1);
    if n == 1 {
      t := s2;
      assert t.threads[0].PutAsleep?;
    } else {
      t := Filling(s2, n - 1);
    }
    assert Leads(s2, steps[1..][1..], t);
    assert Leads(s1, steps[1..], t);
  }

  /** Every queue with room has a run after which a flush leaves a putter asleep for good. */
  lemma FlushCanStrand(max: nat)
    requires max > 0
    ensures exists steps: seq<Step>, t: State ::
      Leads(Init(max, 1), steps, t) && Quiet(Flush(t)) && PutterAsleep(Flush(t)) && HasRoom(Flush(t))
  {
    var t := Filling(Init(max, 1), max + 1);
    InitHolds(max, 1);
    InvAfter(Init(max, 1), Puts(max + 1), t);
    FlushStrands(t);
  }
}
