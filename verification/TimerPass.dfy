/** One pass over the timers that are due: which of them fire, and what is left. */
module TimerPass {
  import opened Words
  import opened Sequences
  import opened Timers

  // ------------------------------------------------------------------ what is due

  /** The timers at the front whose time has come. */
  function Due(s: seq<Timer>, now: Word): (n: nat)
    ensures n <= |s| && (forall j :: 0 <= j < n ==> s[j].msec <= now) && (n < |s| ==> s[n].msec > now)
  {
    if s == [] || s[0].msec > now then 0 else 1 + Due(s[1..], now)
  }

  /** Timers of the running list count milliseconds only. */
  ghost predicate Running(s: seq<Timer>) { forall i :: 0 <= i < |s| ==> s[i].sec == 0 && s[i].kind != Day }

  ghost predicate Planned(s: seq<Timer>) { forall i :: 0 <= i < |s| ==> s[i].msec == 0 && s[i].kind == Day }

  /** In an ordered list those are all the timers that are due. */
  lemma DueAreAll(s: seq<Timer>, now: Word, i: nat)
    requires Ordered(s) && Running(s) && i < |s|
    ensures s[i].msec <= now <==> i < Due(s, now)
  {
    var n := Due(s, now);
    if n < i {
      assert Le(s[n], s[i]);
    }
  }

  function Again(t: Timer, now: Word): Timer { t.(sec := 0, msec := (now + t.interval) % WRAP) }

  /** Timers that come again, with their next time. */
  function Armed(due: seq<Timer>, now: Word): seq<Timer> {
    if due == [] then []
    else Armed(due[..|due| - 1], now) + if due[|due| - 1].kind == Keep then [Again(due[|due| - 1], now)] else []
  }

  ghost predicate Later(s: seq<Timer>, now: Word) { forall i :: 0 <= i < |s| ==> s[i].msec > now }

  /** No interval carries the clock over its end. */
  ghost predicate NoWrap(s: seq<Timer>, now: Word) {
    forall i :: 0 <= i < |s| ==> s[i].kind == Keep ==> s[i].interval < WRAP - now
  }

  predicate AtOnce(t: Timer) { t.kind == Keep && t.interval == 0 }

  /** Timers that come again at once, the last one first. */
  function Zeros(s: seq<Timer>, now: Word): (r: seq<Timer>)
    ensures |r| <= |s| && forall i :: 0 <= i < |r| ==> AtOnce(r[i]) && r[i].sec == 0 && r[i].msec == now
  {
    if s == [] then []
    else (if AtOnce(s[|s| - 1]) then [Again(s[|s| - 1], now)] else []) + Zeros(s[..|s| - 1], now)
  }

  /** The rest of the list, with the timers that come again later put into it one after the other. */
  function Waiting(rest: seq<Timer>, due: seq<Timer>, now: Word): seq<Timer> {
    if due == [] then rest
    else
      var r, t := Waiting(rest, due[..|due| - 1], now), due[|due| - 1];
      if t.kind == Keep && !AtOnce(t) then Insert(r, Again(t, now)) else r
  }

  /** In order, and all of them later than now. */
  ghost predicate Behind(r: seq<Timer>, now: Word) { Ordered(r) && Later(r, now) && Running(r) }

  /** In order, none of them earlier than now, and just the timers not due and the armed ones. */
  ghost predicate PassedOver(r: seq<Timer>, rest: seq<Timer>, due: seq<Timer>, now: Word) {
    && Ordered(r) && Running(r) && (forall i :: 0 <= i < |r| ==> r[i].msec >= now)
    && multiset(r) == multiset(rest) + multiset(Armed(due, now))
  }

  lemma WaitingStep(rest: seq<Timer>, front: seq<Timer>, t: Timer, now: Word)
    ensures var w := Waiting(rest, front, now);
      Waiting(rest, front + [t], now) == if t.kind == Keep && !AtOnce(t) then Insert(w, Again(t, now)) else w
  {
    assert (front + [t])[..|front|] == front;
  }

  lemma ArmedStep(front: seq<Timer>, t: Timer, now: Word)
    ensures Armed(front + [t], now) == if t.kind == Keep then Armed(front, now) + [Again(t, now)] else Armed(front, now)
  {
    assert (front + [t])[..|front|] == front;
    assert Armed(front, now) + [] == Armed(front, now);
  }

  lemma ZerosStep(front: seq<Timer>, t: Timer, now: Word)
    ensures Zeros(front + [t], now) == if AtOnce(t) then [Again(t, now)] + Zeros(front, now) else Zeros(front, now)
  {
    assert (front + [t])[..|front|] == front;
    assert [] + Zeros(front, now) == Zeros(front, now);
  }

  /** Arming again for later keeps the order. */
  lemma {:induction false} WaitingBehind(rest: seq<Timer>, due: seq<Timer>, now: Word)
    requires Behind(rest, now) && Running(due) && NoWrap(due, now)
    ensures Behind(Waiting(rest, due, now), now)
  {
    if due != [] {
      var front, t := due[..|due| - 1], due[|due| - 1];
      WaitingBehind(rest, front, now);
      var r, u := Waiting(rest, front, now), Again(t, now);
      InsertOrdered(r, u);
      if t.kind == Keep && !AtOnce(t) {
        forall j | 0 <= j < |r| + 1 ensures Insert(r, u)[j].msec > now && Insert(r, u)[j].sec == 0
          && Insert(r, u)[j].kind != Day {
          InsertAt(r, u, j);
        }
      }
    }
  }

  /** Nothing is lost by arming again, at once or for later. */
  lemma {:induction false} ArmedAll(rest: seq<Timer>, due: seq<Timer>, now: Word)
    ensures multiset(Zeros(due, now)) + multiset(Waiting(rest, due, now)) == multiset(rest) + multiset(Armed(due, now))
  {
    hide *;
    if due == [] {
      ArmedNone(rest, now);
    } else {
      var front, t := due[..|due| - 1], due[|due| - 1];
      ArmedAll(rest, front, now);
      WaitingStep(rest, front, t, now);
      ArmedStep(front, t, now);
      ZerosStep(front, t, now);
      OnceOrKeep(t);
      assert due == front + [t];
      InsertOne(Waiting(rest, front, now), Again(t, now));
      OneMore(Zeros(front, now), Waiting(rest, front, now), rest, Armed(front, now), Again(t, now));
    }
  }

  lemma ArmedNone(rest: seq<Timer>, now: Word)
    ensures Zeros([], now) == Armed([], now) == [] && Waiting(rest, [], now) == rest
  {
  }

  lemma OnceOrKeep(t: Timer)
    ensures AtOnce(t) ==> t.kind == Keep
  {
  }

  lemma OneMore(z: seq<Timer>, w: seq<Timer>, rest: seq<Timer>, a: seq<Timer>, u: Timer)
    requires multiset(z) + multiset(w) == multiset(rest) + multiset(a)
    ensures multiset([u] + z) + multiset(w) == multiset(rest) + multiset(a + [u])
    ensures multiset(z) + (multiset(w) + multiset{u}) == multiset(rest) + multiset(a + [u])
  {
    assert multiset([u] + z) == multiset{u} + multiset(z) && multiset(a + [u]) == multiset(a) + multiset{u};
    assert multiset{u} + multiset(z) + multiset(w) == multiset{u} + (multiset(z) + multiset(w));
    assert multiset(rest) + (multiset(a) + multiset{u}) == multiset{u} + (multiset(rest) + multiset(a));
  }

  // ------------------------------------------------------------------ the pass, timer by timer

  /** How many timers at the front are past their time. */
  function Past(s: seq<Timer>, now: Word): (n: nat)
    ensures n <= Due(s, now) && (forall j :: 0 <= j < n ==> s[j].msec < now) && (n < |s| ==> s[n].msec >= now)
  {
    if s == [] || s[0].msec >= now then 0 else 1 + Past(s[1..], now)
  }

  /** The timers armed at once while one that is past its time is still to come: they will be met again. */
  function Early(s: seq<Timer>, now: Word): (r: seq<Timer>)
    ensures |r| <= Past(s, now)
    ensures forall i :: 0 <= i < |r| ==> AtOnce(r[i]) && r[i].sec == 0 && r[i].msec == now
  {
    Zeros(s[..Front(Past(s, now))], now)
  }

  function Front(l: nat): (b: nat)
    ensures b <= l
  {
    if l == 0 then 0 else l - 1
  }

  /** The timers that fire, in this order. */
  function Fires(s: seq<Timer>, now: Word): (r: seq<Timer>)
    ensures |r| == Due(s, now) + |Early(s, now)|
  {
    s[..Past(s, now)] + Early(s, now) + s[Past(s, now)..Due(s, now)]
  }

  /** The list after the timer at p fired. */
  function NextRun(run: seq<Timer>, p: nat, now: Word): (r: seq<Timer>)
    requires p < |run|
    ensures |r| >= |run| - 1
  {
    if run[p].kind == Keep then Insert(Without(run, p), Again(run[p], now)) else Without(run, p)
  }

  /** Where the timer stands that was behind the one at p. */
  function NextPlace(run: seq<Timer>, p: nat, now: Word): (q: nat)
    requires p < |run|
    ensures q <= |NextRun(run, p, now)|
  {
    if run[p].kind == Keep && Place(Without(run, p), Again(run[p], now)) <= p then p + 1 else p
  }

  lemma FireOnce(pre: seq<Timer>, t: Timer, post: seq<Timer>, now: Word)
    requires t.kind != Keep
    ensures NextRun(pre + [t] + post, |pre|, now) == pre + post && NextPlace(pre + [t] + post, |pre|, now) == |pre|
  {
    assert Without(pre + [t] + post, |pre|) == pre + post;
  }

  lemma FireKeep(pre: seq<Timer>, t: Timer, post: seq<Timer>, now: Word, k: nat)
    requires t.kind == Keep && k == Place(pre + post, Again(t, now))
    ensures NextRun(pre + [t] + post, |pre|, now) == (pre + post)[..k] + [Again(t, now)] + (pre + post)[k..]
    ensures NextPlace(pre + [t] + post, |pre|, now) == if k <= |pre| then |pre| + 1 else |pre|
  {
    assert Without(pre + [t] + post, |pre|) == pre + post;
  }

  /** All of the timers that come again later stand behind those that are due. */
  lemma InsertBehind(due: seq<Timer>, r: seq<Timer>, t: Timer, now: Word)
    requires Quiet(due, now) && t.sec == 0 && t.msec > now
    ensures Insert(due + r, t) == due + Insert(r, t) && Place(due + r, t) == |due| + Place(r, t)
  {
    var k := Place(r, t);
    PlaceUnique(due + r, t, |due| + k);
    hide Place;
    assert (due + r)[..|due| + k] == due + r[..k] && (due + r)[|due| + k..] == r[k..];
    Assoc(due, r[..k], [t]);
    Assoc(due, r[..k] + [t], r[k..]);
  }

  /** One firing: `pre` has been passed, and `post` is still due, with `r` behind it. */
  lemma FireOne(pre: seq<Timer>, t: Timer, post: seq<Timer>, r: seq<Timer>, now: Word)
    requires t.kind == Keep ==> t.interval < WRAP - now
    requires !AtOnce(t) && Quiet(pre, now) && Quiet(post, now)
    ensures var run, w := pre + [t] + (post + r), Waiting(r, [t], now);
      && NextRun(run, |pre|, now) == pre + (post + w)
      && NextPlace(run, |pre|, now) >= |pre| && (post != [] ==> NextPlace(run, |pre|, now) == |pre|)
  {
    var u := Again(t, now);
    assert u.sec == 0 && (t.kind == Keep ==> u.msec > now);
    hide Waiting;
    hide Place;
    hide NextRun;
    hide NextPlace;
    hide Again;
    hide Quiet;
    QuietCat(pre, post, now);
    WaitingOne(r, t, now);
    assert pre + (post + r) == (pre + post) + r;
    if t.kind != Keep {
      FireOnce(pre, t, post + r, now);
    } else {
      InsertBehind(pre + post, r, u, now);
      var k := Place(r, u);
      FireKeep(pre, t, post + r, now, |pre + post| + k);
      Spliced(pre, post, r, u, k);
    }
  }

  lemma Spliced(pre: seq<Timer>, post: seq<Timer>, r: seq<Timer>, u: Timer, k: nat)
    requires k <= |r|
    ensures var all, at := pre + (post + r), |pre + post| + k;
      all[..at] + [u] + all[at..] == pre + (post + (r[..k] + [u] + r[k..]))
  {
  }

  lemma WaitingOne(r: seq<Timer>, t: Timer, now: Word)
    ensures Waiting(r, [t], now) == if t.kind == Keep && !AtOnce(t) then Insert(r, Again(t, now)) else r
  {
    assert [t][..0] == [];
  }

  // A timer armed at once is put in front of the first one that is not past its time.

  lemma FireEarly(t: Timer, mid: seq<Timer>, tail: seq<Timer>, now: Word)
    requires AtOnce(t) && (forall j :: 0 <= j < |mid| ==> mid[j].sec == 0 && mid[j].msec < now)
    requires tail != [] ==> tail[0].sec == 0 && tail[0].msec >= now
    ensures NextRun([] + [t] + (mid + tail), 0, now) == mid + [Again(t, now)] + tail
    ensures NextPlace([] + [t] + (mid + tail), 0, now) == if mid == [] then 1 else 0
  {
    hide Place;
    hide NextRun;
    hide NextPlace;
    assert [] + (mid + tail) == mid + tail;
    PlaceUnique(mid + tail, Again(t, now), |mid|);
    assert t.kind == Keep;
    hide *;
    FireKeep([], t, mid + tail, now, |mid|);
    assert (mid + tail)[..|mid|] == mid && (mid + tail)[|mid|..] == tail;
  }

  lemma FireLate(pre: seq<Timer>, t: Timer, tail: seq<Timer>, now: Word)
    requires AtOnce(t) && (pre + tail != [] ==> (pre + tail)[0].sec == 0 && (pre + tail)[0].msec >= now)
    ensures NextRun(pre + [t] + tail, |pre|, now) == [Again(t, now)] + pre + tail
    ensures NextPlace(pre + [t] + tail, |pre|, now) == |pre| + 1
  {
    hide Place;
    hide NextRun;
    hide NextPlace;
    PlaceUnique(pre + tail, Again(t, now), 0);
    assert t.kind == Keep;
    hide *;
    FireKeep(pre, t, tail, now, 0);
    assert (pre + tail)[..0] + [Again(t, now)] + (pre + tail)[0..] == [Again(t, now)] + pre + tail;
  }

  /** A list in pieces. */
  function Row(a: seq<Timer>, z: seq<Timer>, d: seq<Timer>, w: seq<Timer>): (r: seq<Timer>)
    ensures |r| == |a| + |z| + |d| + |w| && (a != [] ==> r[0] == a[0])
  {
    a + (z + d + w)
  }

  // The list after f firings: while timers past their time are still to come, and from then on.

  ghost function Stage1(s: seq<Timer>, now: Word, f: nat): seq<Timer>
    requires f <= Past(s, now)
  {
    var l, n := Past(s, now), Due(s, now);
    Row(s[f..l], Zeros(s[..f], now), s[l..n], Waiting(s[n..], s[..f], now))
  }

  ghost function Stage2(s: seq<Timer>, now: Word, f: nat): seq<Timer>
    requires Past(s, now) <= f <= |Fires(s, now)|
  {
    Row(Passed(s, now, f), Fires(s, now)[f..], [], Waiting(s[Due(s, now)..], Fires(s, now)[..f], now))
  }

  /** The timers armed at once that will not be met again, after f firings. */
  ghost function Passed(s: seq<Timer>, now: Word, f: nat): (r: seq<Timer>)
    requires Past(s, now) <= f <= |Fires(s, now)|
    ensures forall i :: 0 <= i < |r| ==> AtOnce(r[i]) && r[i].sec == 0 && r[i].msec == now
  {
    Zeros(Fires(s, now)[Front(Past(s, now))..f], now)
  }

  ghost function Stage(s: seq<Timer>, now: Word, f: nat): seq<Timer>
    requires f <= |Fires(s, now)|
  {
    if f < Past(s, now) then Stage1(s, now, f) else Stage2(s, now, f)
  }

  /** Where the iteration stands then. */
  ghost function StagePlace(s: seq<Timer>, now: Word, f: nat): nat
    requires f <= |Fires(s, now)|
  {
    if f < Past(s, now) then 0 else |Passed(s, now, f)|
  }

  lemma FiresAre(s: seq<Timer>, now: Word)
    ensures var f, l := Fires(s, now), Past(s, now);
      f[..l] == s[..l] && f[l..] == Early(s, now) + s[l..Due(s, now)] && f[Front(l)..l] == s[Front(l)..l]
  {
    hide Early;
    hide Past;
    hide Due;
  }

  lemma ZerosEmpty(now: Word)
    ensures Zeros([], now) == []
  {
  }

  lemma {:induction false} ZerosCat(x: seq<Timer>, y: seq<Timer>, now: Word)
    ensures Zeros(x + y, now) == Zeros(y, now) + Zeros(x, now)
  {
    hide *;
    if y == [] {
      ZerosEmpty(now);
      assert x + y == x && [] + Zeros(x, now) == Zeros(x, now);
    } else {
      var front, t := y[..|y| - 1], y[|y| - 1];
      ZerosCat(x, front, now);
      ZerosStep(x + front, t, now);
      ZerosStep(front, t, now);
      Assoc(x, front, [t]);
      assert y == front + [t];
      Assoc([Again(t, now)], Zeros(front, now), Zeros(x, now));
    }
  }

  lemma StageTurns(s: seq<Timer>, now: Word)
    ensures Stage1(s, now, Past(s, now)) == Stage2(s, now, Past(s, now))
  {
    hide Zeros;
    hide Waiting;
    hide Past;
    hide Due;
    hide Fires;
    var l, n, b := Past(s, now), Due(s, now), Front(Past(s, now));
    FiresAre(s, now);
    ZerosCat(s[..b], s[b..l], now);
    assert s[..b] + s[b..l] == s[..l];
    hide Early;
    var y, z, d, w := Zeros(s[b..l], now), Zeros(s[..b], now), s[l..n], Waiting(s[n..], s[..l], now);
    assert s[l..l] + (y + z + d + w) == y + (z + d + w);
  }

  lemma WaitingNone(rest: seq<Timer>, now: Word)
    ensures Waiting(rest, [], now) == rest
  {
  }

  lemma RowWhole(s: seq<Timer>, l: nat, n: nat)
    requires l <= n <= |s|
    ensures Row(s[0..l], [], s[l..n], s[n..]) == s
  {
  }

  lemma StageStarts(s: seq<Timer>, now: Word)
    ensures Stage(s, now, 0) == s && StagePlace(s, now, 0) == 0
  {
    hide Fires;
    hide Past;
    hide Due;
    hide Early;
    hide Zeros;
    hide Waiting;
    hide Row;
    var l, n := Past(s, now), Due(s, now);
    ZerosEmpty(now);
    WaitingNone(s[n..], now);
    assert s[..0] == [] && Fires(s, now)[0..0] == [];
    RowWhole(s, l, n);
    if l == 0 {
      StageTurns(s, now);
    }
  }

  /** What one firing does: f timers have fired, and `f + 1` is next. */
  ghost predicate Advances(s: seq<Timer>, now: Word, f: nat)
    requires f < |Fires(s, now)|
  {
    var m, p := Stage(s, now, f), StagePlace(s, now, f);
    && p < |m| && m[p] == Fires(s, now)[f] && NextRun(m, p, now) == Stage(s, now, f + 1)
    && NextPlace(m, p, now) >= StagePlace(s, now, f + 1)
    && (f + 1 < |Fires(s, now)| ==> NextPlace(m, p, now) == StagePlace(s, now, f + 1))
  }

  /** Of an ordered list the timers past their time, those due just now and those behind. */
  lemma Parts(s: seq<Timer>, now: Word)
    requires Ordered(s) && Running(s)
    ensures var l, n := Past(s, now), Due(s, now);
      && (forall j :: 0 <= j < l ==> s[j].msec < now) && (forall j :: l <= j < n ==> s[j].msec == now)
      && Behind(s[n..], now)
  {
    hide Past;
    hide Due;
    var l, n := Past(s, now), Due(s, now);
    forall j | l <= j < n ensures s[j].msec == now {
      assert j > l ==> Le(s[l], s[j]);
    }
    forall j | 0 <= j < |s[n..]| ensures s[n..][j].msec > now {
      DueAreAll(s, now, n + j);
    }
  }

  /** What waits is behind, after any of the due timers have been armed. */
  lemma WaitingIsBehind(s: seq<Timer>, due: seq<Timer>, now: Word)
    requires Ordered(s) && Running(s) && Running(due) && NoWrap(due, now)
    ensures Behind(Waiting(s[Due(s, now)..], due, now), now)
  {
    Parts(s, now);
    WaitingBehind(s[Due(s, now)..], due, now);
  }

  lemma Slices(s: seq<Timer>, b: nat, f: nat, l: nat)
    requires b <= f < l <= |s|
    ensures s[f..l] == [s[f]] + s[f + 1..l] && s[..f + 1] == s[..f] + [s[f]] && s[b..f + 1] == s[b..f] + [s[f]]
  {
  }

  /** The list before a timer past its time fires, and after it. */
  lemma EarlyPieces(s: seq<Timer>, now: Word, f: nat)
    requires f < Past(s, now)
    ensures var l, n, t := Past(s, now), Due(s, now), s[f];
      var mid, z, d, w := s[f + 1..l], Zeros(s[..f], now), s[l..n], Waiting(s[n..], s[..f], now);
      && Stage1(s, now, f) == Row([t] + mid, z, d, w)
      && Stage1(s, now, f + 1) == Row(mid, if AtOnce(t) then [Again(t, now)] + z else z, d, Waiting(w, [t], now))
  {
    hide Zeros;
    hide Waiting;
    hide Insert;
    hide Past;
    hide Due;
    hide Again;
    hide AtOnce;
    hide Row;
    var l, n, t := Past(s, now), Due(s, now), s[f];
    WaitingStep(s[n..], s[..f], t, now);
    ZerosStep(s[..f], t, now);
    WaitingOne(Waiting(s[n..], s[..f], now), t, now);
    Slices(s, 0, f, l);
  }

  /** All of them are due. */
  ghost predicate Quiet(s: seq<Timer>, now: Word) { forall j :: 0 <= j < |s| ==> s[j].sec == 0 && s[j].msec <= now }

  /** The first one is not past its time. */
  ghost predicate Starts(s: seq<Timer>, now: Word) { s != [] ==> s[0].sec == 0 && s[0].msec >= now }

  lemma QuietCat(a: seq<Timer>, b: seq<Timer>, now: Word)
    requires Quiet(a, now) && Quiet(b, now)
    ensures Quiet(a + b, now)
  {
  }

  lemma StartsCat(a: seq<Timer>, b: seq<Timer>, now: Word)
    requires Starts(a, now) && Starts(b, now)
    ensures Starts(a + b, now)
  {
  }

  lemma QuietPart(s: seq<Timer>, a: nat, b: nat, now: Word)
    requires a <= b <= |s| && forall j :: a <= j < b ==> s[j].sec == 0 && s[j].msec <= now
    ensures Quiet(s[a..b], now)
    ensures (forall j :: a <= j < b ==> s[j].msec == now) ==> Starts(s[a..b], now)
    ensures (forall j :: a <= j < b ==> s[j].msec < now) ==> forall j :: 0 <= j < b - a ==> s[a..b][j].msec < now
  {
  }

  lemma BehindStarts(w: seq<Timer>, now: Word)
    requires Behind(w, now)
    ensures Starts(w, now)
  {
  }

  lemma ZerosQuiet(s: seq<Timer>, now: Word)
    ensures Quiet(Zeros(s, now), now) && Starts(Zeros(s, now), now)
  {
  }

  lemma FrontRuns(s: seq<Timer>, n: nat, now: Word)
    requires n <= |s| && Running(s) && NoWrap(s, now)
    ensures Running(s[..n]) && NoWrap(s[..n], now)
  {
  }

  /** What is behind a timer past its time. */
  lemma EarlyFacts(s: seq<Timer>, now: Word, f: nat)
    requires Ordered(s) && Running(s) && NoWrap(s, now) && f < Past(s, now)
    ensures var l, n := Past(s, now), Due(s, now);
      var mid, z, d, w := s[f + 1..l], Zeros(s[..f], now), s[l..n], Waiting(s[n..], s[..f], now);
      && Quiet(mid, now) && (forall j :: 0 <= j < |mid| ==> mid[j].msec < now)
      && Quiet(z, now) && Starts(z, now) && Quiet(d, now) && Starts(d, now) && Starts(w, now)
  {
    var l, n := Past(s, now), Due(s, now);
    Parts(s, now);
    assert forall j :: 0 <= j < |s| ==> s[j].sec == 0;
    hide *;
    FrontRuns(s, f, now);
    WaitingIsBehind(s, s[..f], now);
    BehindStarts(Waiting(s[n..], s[..f], now), now);
    ZerosQuiet(s[..f], now);
    QuietPart(s, f + 1, l, now);
    QuietPart(s, l, n, now);
  }

  /** There is one, as long as any is still to fire. */
  lemma EarlyNext(s: seq<Timer>, now: Word, f: nat)
    requires f < Past(s, now)
    ensures var l, n := Past(s, now), Due(s, now);
      f + 1 < |Fires(s, now)| ==> s[f + 1..l] + (Zeros(s[..f], now) + s[l..n]) != []
  {
    hide Zeros;
    hide Due;
    hide Past;
  }

  lemma AdvanceEarly(s: seq<Timer>, now: Word, f: nat)
    requires Ordered(s) && Running(s) && NoWrap(s, now) && f < Past(s, now)
    ensures var m, p := Stage1(s, now, f), if f + 1 == Past(s, now) && AtOnce(s[f]) then 1 else 0;
      && m != [] && m[0] == s[f] && NextRun(m, 0, now) == Stage1(s, now, f + 1)
      && NextPlace(m, 0, now) >= p && (f + 1 < |Fires(s, now)| ==> NextPlace(m, 0, now) == p)
  {
    var l, n, t := Past(s, now), Due(s, now), s[f];
    assert t.kind == Keep ==> t.interval < WRAP - now;
    hide *;
    EarlyFacts(s, now, f);
    EarlyNext(s, now, f);
    EarlyPieces(s, now, f);
    var mid, z, d, w := s[f + 1..l], Zeros(s[..f], now), s[l..n], Waiting(s[n..], s[..f], now);
    if AtOnce(t) {
      WaitingAtOnce(w, t, now);
      EarlyAtOnce(t, mid, z, d, w, now);
    } else {
      EarlyOther(t, mid, z, d, w, now);
    }
  }

  lemma WaitingAtOnce(r: seq<Timer>, t: Timer, now: Word)
    requires AtOnce(t)
    ensures Waiting(r, [t], now) == r
  {
    WaitingOne(r, t, now);
  }

  /** A timer armed at once, with the pieces of the list named. */
  lemma EarlyAtOnce(t: Timer, mid: seq<Timer>, z: seq<Timer>, d: seq<Timer>, w: seq<Timer>, now: Word)
    requires AtOnce(t) && Quiet(mid, now) && (forall j :: 0 <= j < |mid| ==> mid[j].msec < now)
    requires Starts(z, now) && Starts(d, now) && Starts(w, now)
    ensures NextRun(Row([t] + mid, z, d, w), 0, now) == Row(mid, [Again(t, now)] + z, d, w)
    ensures NextPlace(Row([t] + mid, z, d, w), 0, now) == if mid == [] then 1 else 0
  {
    hide NextRun;
    hide NextPlace;
    hide Again;
    StartsCat(z, d, now);
    StartsCat(z + d, w, now);
    var tail := z + d + w;
    FireEarly(t, mid, tail, now);
    assert [] + [t] + (mid + tail) == [t] + mid + tail;
    RowAtOnce(Again(t, now), mid, z, d, w);
  }

  lemma RowAtOnce(u: Timer, mid: seq<Timer>, z: seq<Timer>, d: seq<Timer>, w: seq<Timer>)
    ensures Row(mid, [u] + z, d, w) == mid + [u] + (z + d + w)
  {
  }

  /** Any other timer. */
  lemma EarlyOther(t: Timer, mid: seq<Timer>, z: seq<Timer>, d: seq<Timer>, w: seq<Timer>, now: Word)
    requires !AtOnce(t) && (t.kind == Keep ==> t.interval < WRAP - now) && Quiet(mid, now) && Quiet(z, now)
      && Quiet(d, now)
    ensures NextRun(Row([t] + mid, z, d, w), 0, now) == Row(mid, z, d, Waiting(w, [t], now))
    ensures mid + (z + d) != [] ==> NextPlace(Row([t] + mid, z, d, w), 0, now) == 0
  {
    hide NextRun;
    hide NextPlace;
    hide Waiting;
    QuietCat(z, d, now);
    QuietCat(mid, z + d, now);
    var post := mid + (z + d);
    FireOne([], t, post, w, now);
    hide Quiet;
    RowOther(t, mid, z, d, w);
    RowOther(t, mid, z, d, Waiting(w, [t], now));
  }

  lemma RowOther(t: Timer, mid: seq<Timer>, z: seq<Timer>, d: seq<Timer>, w: seq<Timer>)
    ensures Row([t] + mid, z, d, w) == [] + [t] + (mid + (z + d) + w)
    ensures Row(mid, z, d, w) == [] + (mid + (z + d) + w)
  {
  }

  /** The list before a timer due just now fires, and after it. */
  lemma LatePieces(s: seq<Timer>, now: Word, f: nat)
    requires Past(s, now) <= f < |Fires(s, now)|
    ensures var all := Fires(s, now); var t, pre, post, w := all[f], Passed(s, now, f), all[f + 1..],
      Waiting(s[Due(s, now)..], all[..f], now);
      && Stage2(s, now, f) == Row(pre, [t] + post, [], w)
      && Passed(s, now, f + 1) == (if AtOnce(t) then [Again(t, now)] + pre else pre)
      && Stage2(s, now, f + 1) == Row(Passed(s, now, f + 1), post, [], Waiting(w, [t], now))
  {
    hide Zeros;
    hide Waiting;
    hide Insert;
    hide Past;
    hide Due;
    hide Again;
    hide AtOnce;
    hide Row;
    hide Fires;
    var all, b, rest := Fires(s, now), Front(Past(s, now)), s[Due(s, now)..];
    var t := all[f];
    WaitingStep(rest, all[..f], t, now);
    ZerosStep(all[b..f], t, now);
    WaitingOne(Waiting(rest, all[..f], now), t, now);
    assert all[f..] == all[f..|all|] && all[f + 1..] == all[f + 1..|all|];
    Slices(all, b, f, |all|);
  }

  // The timer at the place of the iteration fires.

  lemma LateAtOnce(pre: seq<Timer>, t: Timer, post: seq<Timer>, w: seq<Timer>, now: Word)
    requires AtOnce(t) && Starts(pre, now) && Starts(post, now) && Starts(w, now)
    ensures NextRun(Row(pre, [t] + post, [], w), |pre|, now) == Row([Again(t, now)] + pre, post, [], w)
    ensures NextPlace(Row(pre, [t] + post, [], w), |pre|, now) == |pre| + 1
  {
    hide NextRun;
    hide NextPlace;
    hide Again;
    StartsCat(post, w, now);
    StartsCat(pre, post + w, now);
    FireLate(pre, t, post + w, now);
    assert Row(pre, [t] + post, [], w) == pre + [t] + (post + w);
    assert Row([Again(t, now)] + pre, post, [], w) == [Again(t, now)] + pre + (post + w);
  }

  lemma LateOther(pre: seq<Timer>, t: Timer, post: seq<Timer>, w: seq<Timer>, now: Word)
    requires !AtOnce(t) && (t.kind == Keep ==> t.interval < WRAP - now)
    requires Quiet(pre, now) && Quiet(post, now)
    ensures var m := Row(pre, [t] + post, [], w);
      && NextRun(m, |pre|, now) == Row(pre, post, [], Waiting(w, [t], now))
      && NextPlace(m, |pre|, now) >= |pre| && (post != [] ==> NextPlace(m, |pre|, now) == |pre|)
  {
    hide NextRun;
    hide NextPlace;
    hide Waiting;
    FireOne(pre, t, post, w, now);
    assert Row(pre, [t] + post, [], w) == pre + [t] + (post + w);
    assert Row(pre, post, [], Waiting(w, [t], now)) == pre + (post + Waiting(w, [t], now));
  }

  lemma AdvanceLate(s: seq<Timer>, now: Word, f: nat)
    requires Ordered(s) && Running(s) && NoWrap(s, now) && Past(s, now) <= f < |Fires(s, now)|
    ensures var m, p, q := Stage2(s, now, f), |Passed(s, now, f)|, |Passed(s, now, f + 1)|;
      && p < |m| && m[p] == Fires(s, now)[f] && NextRun(m, p, now) == Stage2(s, now, f + 1)
      && NextPlace(m, p, now) >= q && (f + 1 < |Fires(s, now)| ==> NextPlace(m, p, now) == q)
  {
    var all := Fires(s, now);
    var t, pre, post, w := all[f], Passed(s, now, f), all[f + 1..], Waiting(s[Due(s, now)..], all[..f], now);
    LateFacts(s, now, f);
    hide *;
    LatePieces(s, now, f);
    if AtOnce(t) {
      WaitingAtOnce(w, t, now);
      LateAtOnce(pre, t, post, w, now);
    } else {
      LateOther(pre, t, post, w, now);
    }
    RowAt(pre, t, post, w);
  }

  lemma RowAt(pre: seq<Timer>, t: Timer, post: seq<Timer>, w: seq<Timer>)
    ensures Row(pre, [t] + post, [], w)[|pre|] == t
  {
  }

  /** What is around a timer due just now. */
  lemma LateFacts(s: seq<Timer>, now: Word, f: nat)
    requires Ordered(s) && Running(s) && NoWrap(s, now) && Past(s, now) <= f < |Fires(s, now)|
    ensures var all := Fires(s, now); var t, pre, post, w := all[f], Passed(s, now, f), all[f + 1..],
      Waiting(s[Due(s, now)..], all[..f], now);
      && (t.kind == Keep ==> t.interval < WRAP - now)
      && Quiet(pre, now) && Starts(pre, now) && Quiet(post, now) && Starts(post, now) && Starts(w, now)
  {
    var all, b := Fires(s, now), Front(Past(s, now));
    hide *;
    LateRuns(s, now, f);
    WaitingIsBehind(s, all[..f], now);
    BehindStarts(Waiting(s[Due(s, now)..], all[..f], now), now);
    ZerosQuiet(all[b..f], now);
    assert all[f + 1..] == all[f + 1..|all|];
  }

  lemma LateRuns(s: seq<Timer>, now: Word, f: nat)
    requires Ordered(s) && Running(s) && NoWrap(s, now) && Past(s, now) <= f < |Fires(s, now)|
    ensures var all := Fires(s, now);
      && Quiet(all[f + 1..|all|], now) && Starts(all[f + 1..|all|], now)
      && Running(all[..f]) && NoWrap(all[..f], now) && (all[f].kind == Keep ==> all[f].interval < WRAP - now)
      && Passed(s, now, f) == Zeros(all[Front(Past(s, now))..f], now)
  {
    hide Fires;
    hide Past;
    hide Due;
    hide Early;
    hide Zeros;
    hide Ordered;
    FiresRun(s, now);
    FrontRuns(Fires(s, now), f, now);
    QuietPart(Fires(s, now), f + 1, |Fires(s, now)|, now);
  }

  /** All that fire are running and due, those behind the timers past their time just now. */
  lemma FiresRun(s: seq<Timer>, now: Word)
    requires Ordered(s) && Running(s) && NoWrap(s, now)
    ensures Running(Fires(s, now)) && NoWrap(Fires(s, now), now)
    ensures forall j :: Past(s, now) <= j < |Fires(s, now)| ==> Fires(s, now)[j].msec == now
  {
    Parts(s, now);
    hide Past;
    hide Due;
    hide Early;
    hide Ordered;
    hide Fires;
    var all, l, n := Fires(s, now), Past(s, now), Due(s, now);
    forall j | 0 <= j < |all| ensures var t := all[j];
      t.sec == 0 && t.kind != Day && (t.kind == Keep ==> t.interval < WRAP - now) && (j >= l ==> t.msec == now)
    {
      FiresAt(s, now, j);
    }
  }

  lemma FiresAt(s: seq<Timer>, now: Word, j: nat)
    requires j < |Fires(s, now)|
    ensures var l, e := Past(s, now), Early(s, now);
      Fires(s, now)[j] == if j < l then s[j] else if j < l + |e| then e[j - l] else s[j - |e|]
  {
    hide Past;
    hide Due;
    hide Early;
  }

  lemma {:induction false} PassedTurn(s: seq<Timer>, now: Word)
    requires Past(s, now) > 0
    ensures |Passed(s, now, Past(s, now))| == if AtOnce(s[Past(s, now) - 1]) then 1 else 0
  {
    var l := Past(s, now);
    FiresAre(s, now);
    assert s[l - 1..l] == [] + [s[l - 1]];
    ZerosStep([], s[l - 1], now);
  }

  /** Each firing leads from one stage to the next. */
  lemma Advance(s: seq<Timer>, now: Word, f: nat)
    requires Ordered(s) && Running(s) && NoWrap(s, now) && f < |Fires(s, now)|
    ensures Advances(s, now, f)
  {
    hide Stage1;
    hide Stage2;
    hide NextRun;
    hide NextPlace;
    hide Ordered;
    hide Running;
    hide NoWrap;
    FiresAre(s, now);
    hide Fires;
    hide Past;
    if f < Past(s, now) {
      AdvanceEarly(s, now, f);
      assert Fires(s, now)[f] == s[f];
      if f + 1 == Past(s, now) {
        StageTurns(s, now);
        PassedTurn(s, now);
      }
      hide Passed;
    } else {
      hide Passed;
      AdvanceLate(s, now, f);
    }
  }

  // ------------------------------------------------------------------ what is left, and when each fires once

  /** Timers armed at once do not wait. */
  lemma {:induction false} WaitingSkips(rest: seq<Timer>, x: seq<Timer>, e: seq<Timer>, y: seq<Timer>, now: Word)
    requires forall i :: 0 <= i < |e| ==> AtOnce(e[i])
    ensures Waiting(rest, x + e + y, now) == Waiting(rest, x + y, now)
    decreases |e| + |y|
  {
    hide *;
    if y != [] {
      var front, t := y[..|y| - 1], y[|y| - 1];
      WaitingSkips(rest, x, e, front, now);
      WaitingStep(rest, x + e + front, t, now);
      WaitingStep(rest, x + front, t, now);
      assert x + e + y == (x + e + front) + [t] && x + y == (x + front) + [t];
    } else if e != [] {
      var front, t := e[..|e| - 1], e[|e| - 1];
      WaitingSkips(rest, x, front, y, now);
      WaitingStep(rest, x + front, t, now);
      assert x + e + y == (x + front) + [t] && x + front + y == x + front;
    } else {
      assert x + e + y == x + y;
    }
  }

  /** Arming at once a second time changes nothing. */
  lemma {:induction false} ZerosAgain(e: seq<Timer>, now: Word)
    requires forall i :: 0 <= i < |e| ==> AtOnce(e[i]) && e[i].sec == 0 && e[i].msec == now
    ensures multiset(Zeros(e, now)) == multiset(e)
  {
    hide *;
    if e == [] {
      ZerosEmpty(now);
    } else {
      var front, t := e[..|e| - 1], e[|e| - 1];
      ZerosAgain(front, now);
      ZerosStep(front, t, now);
      AgainSame(t, now);
      assert e == front + [t];
      assert multiset([t] + Zeros(front, now)) == multiset{t} + multiset(Zeros(front, now));
    }
  }

  lemma AgainSame(t: Timer, now: Word)
    requires AtOnce(t) && t.sec == 0 && t.msec == now
    ensures Again(t, now) == t
  {
  }

  lemma FiresSplit(s: seq<Timer>, now: Word)
    ensures var all, l, n, b := Fires(s, now), Past(s, now), Due(s, now), Front(Past(s, now));
      && all == s[..l] + Early(s, now) + s[l..n] && all[b..|all|] == s[b..l] + Early(s, now) + s[l..n]
      && s[..n] == s[..b] + s[b..l] + s[l..n] && s[..n] == s[..l] + s[l..n]
  {
    hide Past;
    hide Due;
    hide Early;
    hide Front;
    var l, n, b := Past(s, now), Due(s, now), Front(Past(s, now));
    Halves(s, b, l, n);
    assert Fires(s, now) == s[..l] + Early(s, now) + s[l..n];
    hide Fires;
    Behind3(s, b, l, n, Early(s, now));
  }

  lemma Halves(s: seq<Timer>, b: nat, l: nat, n: nat)
    requires b <= l <= n <= |s|
    ensures s[..n] == s[..b] + s[b..l] + s[l..n] && s[..n] == s[..l] + s[l..n]
  {
  }

  lemma Behind3(s: seq<Timer>, b: nat, l: nat, n: nat, e: seq<Timer>)
    requires b <= l <= n <= |s|
    ensures var all := s[..l] + e + s[l..n]; all[b..|all|] == s[b..l] + e + s[l..n]
  {
  }

  /** The timers armed at once that are left after the pass are all of them. */
  lemma PassedAll(s: seq<Timer>, now: Word)
    ensures multiset(Passed(s, now, |Fires(s, now)|)) == multiset(Zeros(s[..Due(s, now)], now))
  {
    var l, n, b, e := Past(s, now), Due(s, now), Front(Past(s, now)), Early(s, now);
    FiresSplit(s, now);
    hide Past;
    hide Due;
    hide Fires;
    hide Zeros;
    ZerosAgain(e, now);
    ZerosCat(s[b..l] + e, s[l..n], now);
    ZerosCat(s[b..l], e, now);
    ZerosCat(s[..b] + s[b..l], s[l..n], now);
    ZerosCat(s[..b], s[b..l], now);
    Reorder(Zeros(s[l..n], now), Zeros(e, now), Zeros(s[b..l], now), e);
  }

  lemma Reorder(a: seq<Timer>, z: seq<Timer>, b: seq<Timer>, e: seq<Timer>)
    requires multiset(z) == multiset(e)
    ensures multiset(a + (z + b)) == multiset(a + (b + e))
  {
    assert multiset(a + (z + b)) == multiset(a) + (multiset(z) + multiset(b));
    assert multiset(a + (b + e)) == multiset(a) + (multiset(b) + multiset(e));
  }

  /** The list after the pass. */
  lemma StageEndIs(s: seq<Timer>, now: Word)
    ensures var f, n := |Fires(s, now)|, Due(s, now);
      && Stage(s, now, f) == Passed(s, now, f) + Waiting(s[n..], s[..n], now)
        && StagePlace(s, now, f) == |Passed(s, now, f)|
  {
    var all, n, l := Fires(s, now), Due(s, now), Past(s, now);
    FiresSplit(s, now);
    hide Fires;
    hide Early;
    hide Past;
    hide Due;
    hide Waiting;
    hide Passed;
    WaitingSkips(s[n..], s[..l], Early(s, now), s[l..n], now);
    assert all[..|all|] == all && all[|all|..] == [];
    assert [] + Waiting(s[n..], all, now) == Waiting(s[n..], all, now);
  }

  /**
   * After the pass nothing is lost, the list is in order, and what is left in front of the iteration was armed at once.
   */
  lemma StageEnds(s: seq<Timer>, now: Word)
    requires Ordered(s) && Running(s) && NoWrap(s, now)
    ensures var f, n := |Fires(s, now)|, Due(s, now);
      && PassedOver(Stage(s, now, f), s[n..], s[..n], now)
      && forall j :: StagePlace(s, now, f) <= j < |Stage(s, now, f)| ==> Stage(s, now, f)[j].msec > now
  {
    hide *;
    var f, n := |Fires(s, now)|, Due(s, now);
    StageEndIs(s, now);
    FrontRuns(s, n, now);
    WaitingIsBehind(s, s[..n], now);
    ArmedAll(s[n..], s[..n], now);
    PassedAll(s, now);
    EndOver(Passed(s, now, f), Waiting(s[n..], s[..n], now), s[n..], s[..n], now);
  }


  lemma EndOver(z: seq<Timer>, w: seq<Timer>, rest: seq<Timer>, due: seq<Timer>, now: Word)
    requires Behind(w, now) && forall i :: 0 <= i < |z| ==> AtOnce(z[i]) && z[i].sec == 0 && z[i].msec == now
    requires multiset(z) + multiset(w) == multiset(rest) + multiset(Armed(due, now))
    ensures PassedOver(z + w, rest, due, now) && forall i :: |z| <= i < |z + w| ==> (z + w)[i].msec > now
  {
    hide Armed;
    assert multiset(z + w) == multiset(z) + multiset(w);
  }

  lemma {:induction false} ZerosNone(s: seq<Timer>, now: Word)
    ensures Zeros(s, now) == [] <==> forall i :: 0 <= i < |s| ==> !AtOnce(s[i])
  {
    hide *;
    if s == [] {
      ZerosEmpty(now);
    } else {
      var front, t := s[..|s| - 1], s[|s| - 1];
      ZerosNone(front, now);
      ZerosStep(front, t, now);
      assert s == front + [t];
    }
  }

  /** No timer armed at once has one behind it that is past its time. */
  predicate NoneTwice(s: seq<Timer>, now: Word) {
    forall i :: 0 <= i < Due(s, now) && AtOnce(s[i]) ==> i + 1 == Due(s, now) || s[i + 1].msec == now
  }

  /**
   * The pass fires just the due timers, each once and in order, if and only if every one with interval 0 is the last of
   * them or the one behind it is due this very moment.
   */
  lemma OnceExactly(s: seq<Timer>, now: Word)
    requires Ordered(s) && Running(s)
    ensures Fires(s, now) == s[..Due(s, now)] <==> NoneTwice(s, now)
  {
    hide Fires;
    hide Zeros;
    hide Past;
    hide Due;
    hide Early;
    hide AtOnce;
    hide Ordered;
    hide Running;
    EarlyNone(s, now);
    ZerosNone(s[..Front(Past(s, now))], now);
    Parts(s, now);
    TwiceIn(s, Past(s, now), Due(s, now), now);
  }

  lemma TwiceIn(s: seq<Timer>, l: nat, n: nat, now: Word)
    requires l <= n <= |s| && (forall j :: 0 <= j < l ==> s[j].msec < now)
      && (forall j :: l <= j < n ==> s[j].msec == now)
    ensures (forall i :: 0 <= i < |s[..Front(l)]| ==> !AtOnce(s[..Front(l)][i]))
      <==> forall i :: 0 <= i < n && AtOnce(s[i]) ==> i + 1 == n || s[i + 1].msec == now
  {
    hide AtOnce;
    var front := s[..Front(l)];
    assert forall i :: 0 <= i < |front| ==> front[i] == s[i];
    if i :| 0 <= i < |front| && AtOnce(front[i]) {
      assert AtOnce(s[i]) && i + 1 < l && s[i + 1].msec < now;
    } else {
      assert forall i :: 0 <= i < Front(l) ==> !AtOnce(front[i]);
      assert forall i :: 0 <= i < Front(l) ==> !AtOnce(s[i]);
    }
  }

  lemma EarlyNone(s: seq<Timer>, now: Word)
    ensures Fires(s, now) == s[..Due(s, now)] <==> Early(s, now) == []
    ensures Early(s, now) == Zeros(s[..Front(Past(s, now))], now)
  {
    FiresSplit(s, now);
    hide Past;
    hide Due;
    hide Zeros;
    if Early(s, now) == [] {
      assert s[..Past(s, now)] + [] == s[..Past(s, now)];
    } else {
      assert |Fires(s, now)| > |s[..Due(s, now)]|;
    }
  }

  /** Then, if no interval is 0 at all, what is left is later than now. */
  lemma {:induction false} ArmedLater(due: seq<Timer>, now: Word, x: Timer)
    requires NoWrap(due, now) && (forall i :: 0 <= i < |due| ==> !AtOnce(due[i])) && x in Armed(due, now)
    ensures x.msec > now
  {
    if due != [] && x in Armed(due[..|due| - 1], now) {
      ArmedLater(due[..|due| - 1], now, x);
    }
  }

  /** A timer left by the pass is later than now unless its interval is 0. */
  lemma LeftLater(r: seq<Timer>, s: seq<Timer>, now: Word)
    requires Ordered(s) && Running(s) && NoWrap(s, now) && PassedOver(r, s[Due(s, now)..], s[..Due(s, now)], now)
    requires forall i :: 0 <= i < Due(s, now) ==> !AtOnce(s[i])
    ensures Later(r, now)
  {
    var rest, due := s[Due(s, now)..], s[..Due(s, now)];
    Parts(s, now);
    forall i | 0 <= i < |r| ensures r[i].msec > now {
      assert r[i] in multiset(r);
      if r[i] in rest {
      } else {
        assert r[i] in Armed(due, now);
        ArmedLater(due, now, r[i]);
      }
    }
  }

  /**
   * What the pass leaves are the timers that were not due and the keep-timers that were, each of these at one interval
   * from now.
   */
  lemma LeftAre(r: seq<Timer>, s: seq<Timer>, now: Word, x: Timer)
    requires NoWrap(s, now) && PassedOver(r, s[Due(s, now)..], s[..Due(s, now)], now)
    ensures x in r <==>
      (x in s[Due(s, now)..]
       || exists i :: 0 <= i < Due(s, now) && s[i].kind == Keep && x == s[i].(sec := 0, msec := now + s[i].interval))
  {
    var n := Due(s, now);
    hide Due;
    ArmedAre(s[..n], now, x);
    hide Armed;
    Together(r, s[n..], Armed(s[..n], now), x);
    hide PassedOver;
    hide NoWrap;
    if i :| 0 <= i < n && s[i].kind == Keep && x == s[i].(sec := 0, msec := now + s[i].interval) {
      assert s[..n][i] == s[i];
    }
    if i :| 0 <= i < n && s[..n][i].kind == Keep && x == s[..n][i].(sec := 0, msec := now + s[..n][i].interval) {
      assert s[i] == s[..n][i];
    }
  }

  lemma Together(r: seq<Timer>, a: seq<Timer>, b: seq<Timer>, x: Timer)
    requires multiset(r) == multiset(a) + multiset(b)
    ensures x in r <==> x in a || x in b
  {
    assert x in r <==> x in multiset(r);
  }

  lemma {:induction false} ArmedAre(due: seq<Timer>, now: Word, x: Timer)
    requires NoWrap(due, now)
    ensures x in Armed(due, now)
      <==> exists i :: 0 <= i < |due| && due[i].kind == Keep && x == due[i].(sec := 0, msec := now + due[i].interval)
  {
    if due != [] {
      var front, t := due[..|due| - 1], due[|due| - 1];
      ArmedAre(front, now, x);
      assert t.kind == Keep ==> Again(t, now) == t.(sec := 0, msec := now + t.interval);
      assert forall i :: 0 <= i < |front| ==> front[i] == due[i];
    }
  }

  /** With positive intervals every due timer fires once, and everything left is later than now. */
  lemma PositiveOnce(s: seq<Timer>, now: Word)
    requires Ordered(s) && Running(s) && forall i :: 0 <= i < |s| ==> !AtOnce(s[i])
    ensures Fires(s, now) == s[..Due(s, now)]
  {
    OnceExactly(s, now);
  }

  /** A timer with interval 0 in front of one past its time fires twice. */
  lemma ZeroIntervalTwice(a: Timer, b: Timer, now: Word)
    requires AtOnce(a) && a.sec == b.sec == 0 && a.msec <= b.msec < now
    ensures Fires([a, b], now) == [a, b, a.(msec := now)]
  {
    var s := [a, b];
    assert s[1..] == [b] && [b][1..] == [];
    assert Due(s, now) == 2 && Past(s, now) == 2;
    assert s[..1] == [a] && [a][..0] == [] && s[..2] == s && s[2..2] == [];
  }
}
