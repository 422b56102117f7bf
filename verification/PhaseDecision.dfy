/** Passes 4 and 5 of the phase lock: which envelope segments constrain the frequency, and the new frequency. */
module PhaseDecision {
  import opened Words
  import opened Envelope
  import opened PhaseLock

  const MIN_INIT := 20.0
  const MAX_C := 250 * 65536

  function Min(a: real, b: real): real { if b < a then b else a }

  function Max(a: real, b: real): real { if b > a then b else a }

  /** find_shift: how far a point is from the target line, 0 when it is on the right side of it. */
  function FindShift(slope: real, offset: real): (r: real)
    ensures r >= 0.0
    ensures r == 0.0 <==> slope - offset / 600.0 <= 0.0 || slope + 0.3 - offset / 6000.0 <= 0.0
  {
    var shift := Min(slope - offset / 600.0, slope + 0.3 - offset / 6000.0);
    if shift < 0.0 then 0.0 else shift
  }

  /** The shift a point asks for, to the left or to the right. */
  function ShiftOf(l: Line, left: bool): (r: real)
    ensures r >= 0.0
  {
    if left then FindShift(-l.slope, l.offset) else FindShift(l.slope, -l.offset)
  }

  /** The least shift of all points, at most MIN_INIT. */
  function Least(points: seq<Line>, left: bool): (r: real)
    ensures 0.0 <= r <= MIN_INIT
  {
    if points == [] then MIN_INIT else Min(Least(points[..|points| - 1], left), ShiftOf(points[|points| - 1], left))
  }

  /** It is a lower bound of all shifts, and one of them unless all are larger than MIN_INIT. */
  lemma {:induction false} LeastIsAttained(points: seq<Line>, left: bool)
    ensures forall i :: 0 <= i < |points| ==> Least(points, left) <= ShiftOf(points[i], left)
    ensures Least(points, left) == MIN_INIT
      || exists i :: 0 <= i < |points| && Least(points, left) == ShiftOf(points[i], left)
  {
    hide ShiftOf;
    if points != [] {
      var front := points[..|points| - 1];
      LeastIsAttained(front, left);
      forall i | 0 <= i < |points| ensures Least(points, left) <= ShiftOf(points[i], left) {
        assert i < |front| ==> points[i] == front[i];
      }
      if Least(points, left) == Least(front, left) != MIN_INIT {
        var i :| 0 <= i < |front| && Least(front, left) == ShiftOf(front[i], left);
        assert points[i] == front[i];
      }
    }
  }

  class Polygon {
    var lMin: real
    var rMin: real

    /** polygon_reset */
    constructor ()
      ensures lMin == Least([], true) && rMin == Least([], false)
    {
      lMin, rMin := MIN_INIT, MIN_INIT;
    }

    /** The shifts that the points seen so far leave. */
    ghost predicate Seen(points: seq<Line>)
      reads this
    {
      lMin == Least(points, true) && rMin == Least(points, false)
    }

    /** polygon_point */
    method Point(s: Line, ghost points: seq<Line>)
      requires Seen(points)
      modifies this
      ensures Seen(points + [s])
    {
      assert (points + [s])[..|points|] == points;
      var l := FindShift(-s.slope, s.offset);
      var r := FindShift(s.slope, -s.offset);
      if l < lMin {
        lMin := l;
      }
      if r < rMin {
        rMin := r;
      }
    }
  }

  // ------------------------------------------------------------------ splicing

  /** Further along the envelope: slopes rise along the lower one and fall along the upper one. */
  predicate Beyond(up: bool, a: real, b: real) { if up then a > b else a < b }

  /** Segments 1..n never go back. */
  ghost predicate Monotone(segs: seq<Line>, n: nat, up: bool) {
    n <= |segs| && forall c, e :: 1 <= c <= e < n ==> !Beyond(up, segs[c].slope, segs[e].slope)
  }

  predicate Within(up: bool, l: Line, enter: real, leave: real) {
    Beyond(up, l.slope, enter) && !Beyond(up, l.slope, leave)
  }

  /** The segments 1..n behind the one slope and not behind the other. */
  function Taken(segs: seq<Line>, n: nat, up: bool, enter: real, leave: real): seq<Line>
    requires n <= |segs|
  {
    if n <= 1 then []
    else Taken(segs, n - 1, up, enter, leave) + if Within(up, segs[n - 1], enter, leave) then [segs[n - 1]] else []
  }

  /** Exactly the segments whose slope lies between the two are taken. */
  lemma {:induction false} TakenAreWithin(segs: seq<Line>, n: nat, up: bool, enter: real, leave: real, l: Line)
    requires n <= |segs|
    ensures l in Taken(segs, n, up, enter, leave)
      <==> exists c :: 1 <= c < n && segs[c] == l && Within(up, l, enter, leave)
  {
    if n > 1 {
      TakenAreWithin(segs, n - 1, up, enter, leave, l);
    }
  }

  lemma {:induction false} NoneAfter(segs: seq<Line>, c: nat, n: nat, up: bool, enter: real, leave: real)
    requires 1 <= c <= n <= |segs| && Monotone(segs, n, up) && (c < n ==> Beyond(up, segs[c].slope, leave))
    ensures Taken(segs, n, up, enter, leave) == Taken(segs, c, up, enter, leave)
  {
    if c < n {
      NoneAfter(segs, c, n - 1, up, enter, leave);
      assert Beyond(up, segs[n - 1].slope, leave);
    }
  }

  /** The first of the segments c..n that is behind a slope, or n. */
  function FirstBeyond(segs: seq<Line>, n: nat, up: bool, slope: real, c: nat): (r: nat)
    requires c <= n <= |segs|
    ensures c <= r <= n
    decreases n - c
  {
    if c == n || Beyond(up, segs[c].slope, slope) then c else FirstBeyond(segs, n, up, slope, c + 1)
  }

  lemma {:induction false} FirstBeyondIs(segs: seq<Line>, n: nat, up: bool, slope: real, c: nat)
    requires c <= n <= |segs|
    ensures var r := FirstBeyond(segs, n, up, slope, c);
      && (r < n ==> Beyond(up, segs[r].slope, slope))
      && forall e :: c <= e < r ==> !Beyond(up, segs[e].slope, slope)
    decreases n - c
  {
    if c < n {
      FirstBeyondIs(segs, n, up, slope, c + 1);
    }
  }

  /** The loop comes to a segment behind `enter` before it has passed one behind `leave`. */
  predicate Entered(segs: seq<Line>, n: nat, up: bool, enter: real, leave: real)
    requires 1 <= n <= |segs|
  {
    var e := FirstBeyond(segs, n, up, enter, 1);
    e < n && e <= FirstBeyond(segs, n, up, leave, 1)
  }

  /** The envelope with the two lines put in: the first at a slot before the segments taken, the last behind them. */
  function Spliced(segs: seq<Line>, n: nat, up: bool, enter: Line, leave: Line, last: Line): (r: seq<Line>)
    requires 1 <= n < |segs|
    ensures |r| == |segs|
  {
    var entered := Entered(segs, n, up, enter.slope, leave.slope);
    var slot := if up then FirstBeyond(segs, n, up, enter.slope, 1) - 1 else 0;
    (if entered then segs[slot := enter] else segs)[FirstBeyond(segs, n, up, leave.slope, 1) := last]
  }

  /**
   * Where some segment is taken, the loop was entered; and on an envelope only a segment behind both slopes leaves
   * none.
   */
  lemma EnteredWhenTaken(segs: seq<Line>, n: nat, up: bool, enter: real, leave: real, c: nat)
    requires n <= |segs| && Monotone(segs, n, up) && 1 <= c < n && Within(up, segs[c], enter, leave)
    ensures Entered(segs, n, up, enter, leave)
  {
    hide Monotone;
    var l := FirstBeyond(segs, n, up, leave, 1);
    FirstBeyondIs(segs, n, up, leave, 1);
    FirstBeyondIs(segs, n, up, enter, 1);
    if l < c {
      NeverBack(segs, n, up, l, c);
    }
  }

  lemma NeverBack(segs: seq<Line>, n: nat, up: bool, c: nat, e: nat)
    requires Monotone(segs, n, up) && 1 <= c <= e < n
    ensures !Beyond(up, segs[c].slope, segs[e].slope)
  {
  }

  /**
   * One of the two loops of pass 4.  The lower envelope keeps the slot before the first segment taken for the line it
   * starts with; the upper one always uses slot 0.
   */
  method Splice(segs: array<Line>, avail: nat, up: bool, enter: Line, leave: Line, last: Line, p: Polygon,
                ghost points: seq<Line>)
    returns (ok: bool)
    requires 1 <= avail < segs.Length && Monotone(segs[..], avail, up) && p.Seen(points)
    modifies segs, p
    ensures p.Seen(points + Taken(old(segs[..]), avail, up, enter.slope, leave.slope))
    ensures ok <==> Entered(old(segs[..]), avail, up, enter.slope, leave.slope)
    ensures segs[..] == Spliced(old(segs[..]), avail, up, enter, leave, last)
  {
    ghost var s := segs[..];
    var c;
    ghost var start;
    ok, c, start := TakeSegments(segs, avail, up, enter, leave, p, points);
    SpliceEnds(points, s, avail, up, enter, leave, last, c, ok);
    segs[c] := last;
  }

  /** The first line has been put in, or not, once the loop has come to segment c. */
  ghost predicate Midway(now: seq<Line>, s: seq<Line>, n: nat, up: bool, enter: Line, leave: Line, c: nat, ok: bool,
                         start: nat)
    requires 1 <= n < |s|
  {
    && start == FirstBeyond(s, n, up, enter.slope, 1)
    && 1 <= c <= FirstBeyond(s, n, up, leave.slope, 1) && (if ok then start < c else c <= start)
    && now == Marked(s, ok, if up then start - 1 else 0, enter)
  }

  /** What the loop leaves. */
  ghost predicate LoopDone(now: seq<Line>, s: seq<Line>, n: nat, up: bool, enter: Line, leave: Line, c: nat, ok: bool,
                           start: nat)
    requires 1 <= n < |s|
  {
    && start == FirstBeyond(s, n, up, enter.slope, 1)
    && c == FirstBeyond(s, n, up, leave.slope, 1) && (if ok then start < n && start <= c else c < start || start == n)
    && now == Marked(s, ok, if up then start - 1 else 0, enter)
  }

  /** The loop of a splice: where it ends, and whether the first line was put in. */
  method TakeSegments(segs: array<Line>, avail: nat, up: bool, enter: Line, leave: Line, p: Polygon,
                      ghost points: seq<Line>)
    returns (ok: bool, c: nat, ghost start: nat)
    requires 1 <= avail < segs.Length && Monotone(segs[..], avail, up) && p.Seen(points)
    modifies segs, p
    ensures c <= avail && LoopDone(segs[..], old(segs[..]), avail, up, enter, leave, c, ok, start)
    ensures p.Seen(Gathered(points, old(segs[..]), c, up, enter.slope, leave.slope))
  {
    ghost var s := segs[..];
    start := FirstBeyond(s, avail, up, enter.slope, 1);
    ok, c := false, 1;
    GatheredNone(points, s, up, enter.slope, leave.slope);
    hide Gathered;
    hide FirstBeyond;
    hide Polygon.Seen;
    hide Monotone;
    var stop := false;
    while c < avail && !stop
      invariant 1 <= c <= avail
      invariant p.Seen(Gathered(points, s, c, up, enter.slope, leave.slope))
      invariant if stop then LoopDone(segs[..], s, avail, up, enter, leave, c, ok, start)
        else Midway(segs[..], s, avail, up, enter, leave, c, ok, start)
      decreases avail - c, !stop
    {
      hide Midway;
      hide LoopDone;
      ok, stop := TakeOne(segs, c, avail, up, enter, leave, p, ok, s, start, points);
      if !stop {
        c := c + 1;
      }
    }
  }

  /** One segment: the first line goes in when it is behind `enter`, and the loop ends when it is behind `leave`. */
  method TakeOne(segs: array<Line>, c: nat, avail: nat, up: bool, enter: Line, leave: Line, p: Polygon, was: bool,
                 ghost s: seq<Line>, ghost start: nat, ghost points: seq<Line>)
    returns (ok: bool, stop: bool)
    requires 1 <= c < avail < segs.Length && |s| == segs.Length && Monotone(s, avail, up)
    requires Midway(segs[..], s, avail, up, enter, leave, c, was, start)
    requires p.Seen(Gathered(points, s, c, up, enter.slope, leave.slope))
    modifies segs, p
    ensures p.Seen(Gathered(points, s, if stop then c else c + 1, up, enter.slope, leave.slope))
    ensures if stop then LoopDone(segs[..], s, avail, up, enter, leave, c, ok, start)
      else Midway(segs[..], s, avail, up, enter, leave, c + 1, ok, start)
  {
    ghost var slot := if up then start - 1 else 0;
    Turn(s, avail, up, enter.slope, leave.slope, c, was);
    GatheredStep(points, s, c, up, enter.slope, leave.slope);
    MarkedAt(s, was, slot, enter, c);
    MarkedIs(s, slot, enter);
    hide Gathered;
    hide FirstBeyond;
    hide Polygon.Seen;
    hide Monotone;
    hide Marked;
    hide Beyond;
    var seg := segs[..][c];
    ok, stop := was, false;
    if !ok && Beyond(up, seg.slope, enter.slope) {
      MarkAt(segs, if up then c - 1 else 0, enter);
      ok := true;
    }
    if Beyond(up, seg.slope, leave.slope) {
      stop := true;
    } else if ok {
      p.Point(seg, Gathered(points, s, c, up, enter.slope, leave.slope));
    }
  }

  method MarkAt(segs: array<Line>, slot: nat, enter: Line)
    requires slot < segs.Length
    modifies segs
    ensures segs[..] == old(segs[..])[slot := enter]
  {
    segs[slot] := enter;
  }

  function Marked(segs: seq<Line>, ok: bool, slot: int, enter: Line): (r: seq<Line>)
    requires ok ==> 0 <= slot < |segs|
    ensures |r| == |segs|
  {
    if ok then segs[slot := enter] else segs
  }

  lemma MarkedIs(segs: seq<Line>, slot: int, enter: Line)
    ensures Marked(segs, false, slot, enter) == segs
    ensures 0 <= slot < |segs| ==> Marked(segs, true, slot, enter) == segs[slot := enter]
  {
  }

  lemma MarkedAt(segs: seq<Line>, ok: bool, slot: int, enter: Line, c: nat)
    requires c < |segs| && (ok ==> 0 <= slot < c)
    ensures Marked(segs, ok, slot, enter)[c] == segs[c]
  {
  }

  /** At segment c, whether it is behind each of the slopes, given whether one before it was behind `enter`. */
  lemma Turn(segs: seq<Line>, n: nat, up: bool, enter: real, leave: real, c: nat, ok: bool)
    requires 1 <= c < n <= |segs| && Monotone(segs, n, up) && c <= FirstBeyond(segs, n, up, leave, 1)
    requires var start := FirstBeyond(segs, n, up, enter, 1); if ok then start < c else c <= start
    ensures Beyond(up, segs[c].slope, enter) <==> ok || c == FirstBeyond(segs, n, up, enter, 1)
    ensures Beyond(up, segs[c].slope, leave) <==> c == FirstBeyond(segs, n, up, leave, 1)
  {
    FirstBeyondIs(segs, n, up, leave, 1);
    FirstBeyondIs(segs, n, up, enter, 1);
    if ok {
      StaysEntered(segs, c, FirstBeyond(segs, n, up, enter, 1), n, up, enter);
    }
  }

  /** What the loop leaves is the spliced envelope but for its last line. */
  lemma SpliceEnds(points: seq<Line>, segs: seq<Line>, n: nat, up: bool, enter: Line, leave: Line, last: Line, c: nat,
                   ok: bool)
    requires 1 <= n < |segs| && Monotone(segs, n, up) && c == FirstBeyond(segs, n, up, leave.slope, 1)
    requires var start := FirstBeyond(segs, n, up, enter.slope, 1);
      if ok then start < n && start <= c else c < start || start == n
    ensures ok <==> Entered(segs, n, up, enter.slope, leave.slope)
    ensures var slot := if up then FirstBeyond(segs, n, up, enter.slope, 1) - 1 else 0;
      Spliced(segs, n, up, enter, leave, last) == Marked(segs, ok, slot, enter)[c := last]
    ensures points + Taken(segs, n, up, enter.slope, leave.slope)
      == Gathered(points, segs, c, up, enter.slope, leave.slope)
  {
    FirstBeyondIs(segs, n, up, leave.slope, 1);
    NoneAfter(segs, c, n, up, enter.slope, leave.slope);
  }

  /** Behind one segment that is behind `enter` all are. */
  lemma StaysEntered(segs: seq<Line>, c: nat, start: nat, n: nat, up: bool, enter: real)
    requires 1 <= start <= c < n && Monotone(segs, n, up) && Beyond(up, segs[start].slope, enter)
    ensures Beyond(up, segs[c].slope, enter)
  {
    assert !Beyond(up, segs[start].slope, segs[c].slope);
  }

  /** The points seen when the loop has come to segment c. */
  function Gathered(points: seq<Line>, segs: seq<Line>, c: nat, up: bool, enter: real, leave: real): seq<Line>
    requires c <= |segs|
  {
    points + Taken(segs, c, up, enter, leave)
  }

  lemma GatheredNone(points: seq<Line>, segs: seq<Line>, up: bool, enter: real, leave: real)
    requires 1 <= |segs|
    ensures Gathered(points, segs, 1, up, enter, leave) == points
  {
  }

  lemma GatheredStep(points: seq<Line>, segs: seq<Line>, c: nat, up: bool, enter: real, leave: real)
    requires 1 <= c < |segs|
    ensures var so := Gathered(points, segs, c, up, enter, leave);
      Gathered(points, segs, c + 1, up, enter, leave)
      == if Beyond(up, segs[c].slope, enter) && !Beyond(up, segs[c].slope, leave) then so + [segs[c]] else so
  {
    var t := Taken(segs, c, up, enter, leave);
    assert t + [] == t;
  }

  // ------------------------------------------------------------------ the new frequency

  /** find_df: the shift to make when only one side asks for it. */
  function FindDf(l: real, r: real): (df: real)
    ensures df > 0.0 <==> l > 0.0 && r == 0.0
    ensures df < 0.0 <==> l == 0.0 && r > 0.0
    ensures df in [0.0, l, -r]
    requires l >= 0.0 && r >= 0.0
  {
    if l == 0.0 then (if r == 0.0 then 0.0 else -r) else (if r == 0.0 then l else 0.0)
  }

  /** The offset slides to 0 in 600 seconds at the one slope, in 1800 at the other. */
  function Slide(offset: real, time: real): real
    requires time > 0.0
  {
    -offset / time
  }

  /** The sum that find_df_center divides 1000 by. */
  function Spread(min: Line, max: Line): real { 1000.0 + (max.offset - min.offset) + (max.slope - min.slope) * 1200.0 }

  /** How far the slope is from the nearer end of the range between the two slides, 0 inside. */
  function ToRange(slope: real, offset: real): (delta: real)
    ensures var a, b := Slide(offset, 600.0), Slide(offset, 1800.0);
      && Min(a, b) <= slope + delta <= Max(a, b)
      && (delta != 0.0 ==> slope + delta == if (offset < 0.0) == (delta > 0.0) then b else a)
  {
    var delta1, delta2 := Slide(offset, 600.0) - slope, Slide(offset, 1800.0) - slope;
    if offset < 0.0 then (if delta1 < 0.0 then delta1 else if delta2 > 0.0 then delta2 else 0.0)
    else (if delta2 < 0.0 then delta2 else if delta1 > 0.0 then delta1 else 0.0)
  }

  /**
   * find_df_center: part of the way from the middle of the two lines to that range, unless all offsets are large.
   * `byZero` is what 1000 divided by 0 gives.
   */
  function FindDfCenter(min: Line, max: Line, gross: real, byZero: real): real {
    var slope, offset := 0.5 * (max.slope + min.slope) + gross, 0.5 * (max.offset + min.offset);
    var spread := Spread(min, max);
    var factor := if spread == 0.0 then byZero else 1000.0 / spread;
    if max.offset < -1000.0 || min.offset > 1000.0 then 0.0 else factor * ToRange(slope, offset)
  }

  /**
   * Between lines in order nothing is divided by 0, and the shift goes towards the range and never past its nearer end:
   * all of the way only when the two lines are the same.
   */
  lemma CenterApproaches(min: Line, max: Line, gross: real, byZero: real)
    requires min.slope <= max.slope && min.offset <= max.offset
    ensures Spread(min, max) >= 1000.0
    ensures var delta := ToRange(0.5 * (max.slope + min.slope) + gross, 0.5 * (max.offset + min.offset));
      var center := FindDfCenter(min, max, gross, byZero);
      if max.offset < -1000.0 || min.offset > 1000.0 then center == 0.0
      else if delta >= 0.0 then 0.0 <= center <= delta
        && (delta > 0.0 ==> center > 0.0 && (center == delta <==> min == max))
      else delta <= center < 0.0 && (center == delta <==> min == max)
  {
    hide ToRange;
    hide Spread;
    SpreadOrdered(min, max);
    var spread := Spread(min, max);
    var delta := ToRange(0.5 * (max.slope + min.slope) + gross, 0.5 * (max.offset + min.offset));
    Share(delta, spread);
    assert FindDfCenter(min, max, gross, byZero)
        == if max.offset < -1000.0 || min.offset > 1000.0 then 0.0 else (1000.0 / spread) * delta;
  }

  lemma SpreadOrdered(min: Line, max: Line)
    requires min.slope <= max.slope && min.offset <= max.offset
    ensures Spread(min, max) >= 1000.0
    ensures Spread(min, max) == 1000.0 <==> min == max
  {
  }

  /** A share of at most the whole. */
  lemma Share(delta: real, spread: real)
    requires spread >= 1000.0
    ensures var part := (1000.0 / spread) * delta;
      if delta >= 0.0 then 0.0 <= part <= delta && (delta > 0.0 ==> part > 0.0 && (part == delta <==> spread == 1000.0))
      else delta <= part < 0.0 && (part == delta <==> spread == 1000.0)
  {
    var factor := 1000.0 / spread;
    assert 0.0 < factor <= 1.0 && (factor == 1.0 <==> spread == 1000.0);
    assert (1.0 - factor) * delta == delta - factor * delta;
  }

  /** A double cast to int. */
  function Truncate(x: real): int { if x >= 0.0 then x.Floor else -(-x).Floor }

  function Clamp(f: int): int { if f < -MAX_C then -MAX_C else if f > MAX_C then MAX_C else f }

  /** The lines that constrain the frequency: both crossing lines, and the envelope segments between their slopes. */
  function Constraints(maxs: seq<Line>, maxAvail: nat, mins: seq<Line>, minAvail: nat, saveMin: Line, saveMax: Line)
    : seq<Line>
    requires maxAvail <= |maxs| && minAvail <= |mins|
  {
    [saveMin] + Taken(maxs, maxAvail, true, saveMin.slope, saveMax.slope) + [saveMax]
    + Taken(mins, minAvail, false, saveMax.slope, saveMin.slope)
  }

  /**
   * The new frequency: the old one unless both loops are entered, and otherwise moved by the shift that all constraints
   * ask for.
   */
  function Decision(freq: int, maxs: seq<Line>, maxAvail: nat, mins: seq<Line>, minAvail: nat, consistent: bool,
                    saveMin: Line, saveMax: Line, byZero: real): int
    requires 1 <= maxAvail <= |maxs| && 1 <= minAvail <= |mins|
  {
    var ok := consistent && Entered(maxs, maxAvail, true, saveMin.slope, saveMax.slope)
      && Entered(mins, minAvail, false, saveMax.slope, saveMin.slope);
    var points := Constraints(maxs, maxAvail, mins, minAvail, saveMin, saveMax);
    if ok then Steered(freq, Least(points, true), Least(points, false), saveMin, saveMax, byZero) else freq
  }

  /**
   * The frequency moved by the shift to the left or the right that is asked for, and towards the middle of the two
   * lines.
   */
  function Steered(freq: int, left: real, right: real, saveMin: Line, saveMax: Line, byZero: real): (r: int)
    requires left >= 0.0 && right >= 0.0
    ensures -MAX_C <= r <= MAX_C
  {
    var gross := FindDf(left, right);
    Clamp(freq - Truncate((gross + FindDfCenter(saveMin, saveMax, gross, byZero)) * 65536.0 + 0.5))
  }

  /** Passes 4 and 5. */
  method Decide(freq: int, maxseg: array<Line>, maxAvail: nat, minseg: array<Line>, minAvail: nat, consistent: bool,
                saveMin: Line, saveMax: Line, byZero: real)
    returns (computed: int)
    requires 1 <= maxAvail < maxseg.Length && Monotone(maxseg[..], maxAvail, true)
    requires 1 <= minAvail < minseg.Length && Monotone(minseg[..], minAvail, false) && maxseg != minseg
    modifies maxseg, minseg
    ensures computed
      == Decision(freq, old(maxseg[..]), maxAvail, old(minseg[..]), minAvail, consistent, saveMin, saveMax, byZero)
    ensures maxseg[..]
      == if consistent then Spliced(old(maxseg[..]), maxAvail, true, saveMin, saveMax, saveMax) else old(maxseg[..])
    ensures minseg[..]
      == if consistent then Spliced(old(minseg[..]), minAvail, false, saveMax, saveMin, saveMax) else old(minseg[..])
  {
    if !consistent {
      return freq;
    }
    ghost var maxs, mins := maxseg[..], minseg[..];
    ghost var upper := Taken(maxs, maxAvail, true, saveMin.slope, saveMax.slope);
    var p := new Polygon();
    hide Least;
    hide Taken;
    hide FindDf;
    hide FindDfCenter;
    hide Entered;
    hide Monotone;
    hide Spliced;
    p.Point(saveMin, []);
    assert [] + [saveMin] == [saveMin];
    var okMax := Splice(maxseg, maxAvail, true, saveMin, saveMax, saveMax, p, [saveMin]);
    p.Point(saveMax, [saveMin] + upper);
    var okMin := Splice(minseg, minAvail, false, saveMax, saveMin, saveMax, p, [saveMin] + upper + [saveMax]);
    if !okMax || !okMin {
      return freq;
    }
    var deltaF := FindDf(p.lMin, p.rMin);
    deltaF := deltaF + FindDfCenter(saveMin, saveMax, deltaF, byZero);
    computed := Clamp(freq - Truncate(deltaF * 65536.0 + 0.5));
  }

  /** Slopes along the two envelopes that passes 2 and 3 leave. */
  lemma EnvelopesMonotone(segs: seq<Line>, chain: seq<nat>, t: seq<real>, y: seq<real>)
    requires |t| == |y| && LowerChain(segs, chain, t, y)
    ensures Monotone(segs, |chain|, true)
  {
  }

  lemma MirrorMonotone(segs: seq<Line>, chain: seq<nat>, t: seq<real>, y: seq<real>)
    requires |t| == |y| && LowerChain(MirrorLines(segs), chain, t, y)
    ensures Monotone(segs, |chain|, false)
  {
    forall c, e | 1 <= c <= e < |chain| ensures segs[c].slope >= segs[e].slope {
      assert MirrorLines(segs)[c].slope <= MirrorLines(segs)[e].slope;
    }
  }

  /** The frequency is what passes 4 and 5 make of sound results of passes 2 and 3. */
  ghost predicate DecidedBy(d: seq<Datum>, rp: nat, freq: int, byZero: real, computed: int, maxs: seq<Line>,
                            maxChain: seq<nat>, mins: seq<Line>, minChain: seq<nat>, foundMin: bool, saveMin: Line,
                            foundMax: bool, saveMax: Line)
    requires Full(d, rp)
  {
    && 1 <= |maxChain| <= |maxs| && 1 <= |minChain| <= |mins|
    && maxChain[|maxChain| - 1] == minChain[|minChain| - 1] == RING_SIZE - 1
    && PassSound(maxs, maxChain, Times(d, rp), Values(d, rp, false), Values(d, rp, true), foundMin, saveMin, true)
    && MinSound(mins, minChain, Times(d, rp), Values(d, rp, false), Values(d, rp, true), foundMax, saveMax)
    && computed == Decision(freq, maxs, |maxChain|, mins, |minChain|, foundMin && foundMax, saveMin, saveMax, byZero)
  }

  ghost predicate Decided(d: seq<Datum>, rp: nat, freq: int, byZero: real, computed: int)
    requires Full(d, rp)
  {
    exists maxs, maxChain, mins, minChain, foundMin, saveMin, foundMax, saveMax ::
      DecidedBy(d, rp, freq, byZero, computed, maxs, maxChain, mins, minChain, foundMin, saveMin, foundMax, saveMax)
  }

  /** Passes 1 to 5 on a full ring. */
  method Consider(ring: Ring, freq: int, byZero: real) returns (computed: int)
    requires ring.Valid() && ring.valid == RING_SIZE && ring.Ordered()
    modifies ring.d, ring.maxseg, ring.minseg
    ensures forall k :: 0 <= k < RING_SIZE ==> ring.d[Place(ring.rp, k)] == Corrected(old(ring.d[..]), ring.rp, freq, k)
    ensures Decided(ring.d[..], ring.rp, freq, byZero, computed)
    ensures computed == freq || -MAX_C <= computed <= MAX_C
  {
    hide Rise;
    hide Times;
    hide Values;
    hide Corrected;
    hide Consistent;
    hide LowerChain;
    hide Increasing;
    hide Picked;
    hide Crossing;
    hide Entered;
    hide Monotone;
    hide Constraints;
    hide Least;
    hide FindDf;
    hide Spliced;
    var maxAvail, minAvail, foundMin, saveMin, foundMax, saveMax;
    ghost var maxChain, minChain;
    maxAvail, minAvail, foundMin, saveMin, foundMax, saveMax, maxChain, minChain := ring.Envelopes(freq);
    ghost var t, hi, lo := Times(ring.d[..], ring.rp), Values(ring.d[..], ring.rp, true),
      Values(ring.d[..], ring.rp, false);
    ghost var maxs, mins := ring.maxseg[..], ring.minseg[..];
    EnvelopesMonotone(maxs, maxChain, t, hi);
    MirrorMonotone(mins, minChain, t, Mirror(lo));
    hide PassSound;
    hide MinSound;
    computed := Decide(freq, ring.maxseg, maxAvail, ring.minseg, minAvail, foundMin && foundMax,
                       saveMin, saveMax, byZero);
    DecisionBounds(freq, maxs, maxAvail, mins, minAvail, foundMin && foundMax, saveMin, saveMax, byZero);
    hide Decision;
    assert DecidedBy(ring.d[..], ring.rp, freq, byZero, computed, maxs, maxChain, mins, minChain, foundMin, saveMin,
      foundMax, saveMax);
  }

  lemma DecisionBounds(freq: int, maxs: seq<Line>, maxAvail: nat, mins: seq<Line>, minAvail: nat, consistent: bool,
                       saveMin: Line, saveMax: Line, byZero: real)
    requires 1 <= maxAvail <= |maxs| && 1 <= minAvail <= |mins|
    ensures var computed := Decision(freq, maxs, maxAvail, mins, minAvail, consistent, saveMin, saveMax, byZero);
      computed == freq || -MAX_C <= computed <= MAX_C
  {
  }

  /** Correcting the error bars leaves what was recorded. */
  lemma HistoryKept(was: seq<Datum>, d: seq<Datum>, rp: nat, freq: int)
    requires Full(was, rp) && Full(d, rp)
    requires forall k :: 0 <= k < RING_SIZE ==> d[Place(rp, k)] == Corrected(was, rp, freq, k)
    ensures History(d, rp) == History(was, rp)
  {
    hide Drift;
    hide Place;
  }

  /** Every error bar is where pass 1 puts it. */
  ghost predicate CorrectedAll(d: seq<Datum>, rp: nat, freq: int)
    requires Full(d, rp)
  {
    forall k :: 0 <= k < RING_SIZE ==> d[Place(rp, k)] == Corrected(d, rp, freq, k)
  }

  /** Correcting again changes nothing. */
  lemma CorrectionKept(was: seq<Datum>, d: seq<Datum>, rp: nat, freq: int)
    requires Full(was, rp) && Full(d, rp)
    requires forall k :: 0 <= k < RING_SIZE ==> d[Place(rp, k)] == Corrected(was, rp, freq, k)
    ensures CorrectedAll(d, rp, freq)
  {
    PlaceDistinct(rp);
    hide Place;
    hide Drift;
    forall k | 0 <= k < RING_SIZE ensures d[Place(rp, k)] == Corrected(d, rp, freq, k) {
      DriftKept(was, rp, d, rp, freq, k);
    }
  }

  /** The drift depends on the times and frequencies alone, wherever the ring starts. */
  lemma {:induction false} DriftKept(was: seq<Datum>, rp': nat, d: seq<Datum>, rp: nat, freq: int, k: nat)
    requires Full(was, rp') && Full(d, rp) && k < RING_SIZE
    requires forall i :: 0 <= i < RING_SIZE ==>
      d[Place(rp, i)].absolute == was[Place(rp', i)].absolute && d[Place(rp, i)].freq == was[Place(rp', i)].freq
    ensures Drift(d, rp, freq, k) == Drift(was, rp', freq, k)
    decreases RING_SIZE - k
  {
    PlaceDistinct(rp);
    PlaceDistinct(rp');
    hide Place;
    if k < RING_SIZE - 1 {
      DriftKept(was, rp', d, rp, freq, k + 1);
      WanderKept(d[Place(rp, k + 1)], was[Place(rp', k + 1)], d[Place(rp, k)], was[Place(rp', k)], freq);
    }
    hide Wander;
  }

  lemma WanderKept(a: Datum, a': Datum, b: Datum, b': Datum, freq: int)
    requires a.absolute == a'.absolute && a.freq == a'.freq && b.absolute == b'.absolute
    ensures Wander(a, b, freq) == Wander(a', b', freq)
  {
  }

  /** A measurement as contemplate_data stores it: what an earlier pass 1 left of the error bar stays in the slot. */
  function Stored(slot: Datum, absolute: Word, skew: real, errorbar: real, freq: int, minDelay: real): Datum {
    slot.(absolute := absolute, skew := skew, errorbar := errorbar - minDelay, freq := freq)
  }

  /**
   * contemplate_data: a measurement goes in for the oldest one; once the ring is full the passes decide on the
   * frequency. Times need to increase only then.
   */
  method Contemplate(ring: Ring, absolute: Word, skew: real, errorbar: real, freq: int, minDelay: real, byZero: real)
    returns (computed: int)
    requires ring.Valid()
    requires ring.valid >= RING_SIZE - 1 ==>
      Increasing(Times(ring.d[..][ring.rp := Stored(ring.d[ring.rp], absolute, skew, errorbar, freq, minDelay)],
        ring.rp))
    modifies ring, ring.d, ring.maxseg, ring.minseg
    ensures ring.Valid() && NextDn(ring.rp) == old(ring.rp)
    ensures ring.valid == if old(ring.valid) < RING_SIZE then old(ring.valid) + 1 else RING_SIZE
    ensures History(ring.d[..], old(ring.rp)) == History(old(ring.d[..]), NextDn(old(ring.rp)))[1..]
      + [Datum(absolute, skew, errorbar - minDelay, freq, 0.0, 0.0)]
    ensures ring.valid < RING_SIZE ==> computed == freq
    ensures ring.valid == RING_SIZE ==>
      && Increasing(Times(ring.d[..], old(ring.rp))) && CorrectedAll(ring.d[..], old(ring.rp), freq)
      && Decided(ring.d[..], old(ring.rp), freq, byZero, computed)
    ensures computed == freq || -MAX_C <= computed <= MAX_C
  {
    hide Times;
    hide Increasing;
    hide History;
    hide Decided;
    hide Corrected;
    hide NextDn;
    hide CorrectedAll;
    computed := freq;
    var datum := Stored(ring.d[ring.rp], absolute, skew, errorbar, freq, minDelay);
    ring.Record(datum);
    if ring.valid == RING_SIZE {
      ghost var was := ring.d[..];
      computed := Consider(ring, freq, byZero);
      TimesKept(was, ring.d[..], ring.rp, freq);
      HistoryKept(was, ring.d[..], ring.rp, freq);
      CorrectionKept(was, ring.d[..], ring.rp, freq);
    }
    ring.Advance();
  }
}
