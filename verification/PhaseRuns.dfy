/**
 * The phase lock as a whole: what the five passes decide, said of the measurements alone, and runs from an empty ring.
 */
module PhaseRuns {
  import opened Words
  import opened Envelope
  import opened PhaseLock
  import opened PhaseFound
  import opened PhaseDecision

  // ------------------------------------------------------------------ what counts are consistent lines

  /** No error bar is negative. */
  predicate Proper(lo: seq<real>, hi: seq<real>)
    requires |lo| == |hi|
  {
    forall k :: 0 <= k < |lo| ==> lo[k] <= hi[k]
  }

  /** The consistent lines of least and of greatest slope. */
  ghost predicate Outermost(a: Line, b: Line, t: seq<real>, lo: seq<real>, hi: seq<real>)
    requires |t| == |lo| == |hi|
  {
    Consistent(a, t, lo, hi) && Consistent(b, t, lo, hi) && forall l :: Consistent(l, t, lo, hi) ==>
      a.slope <= l.slope <= b.slope
  }

  /** A segment of the envelope with a slope between those of two consistent lines is consistent. */
  lemma SegmentConsistent(segs: seq<Line>, chain: seq<nat>, t: seq<real>, lo: seq<real>, hi: seq<real>, a: Line,
                          b: Line, c: nat)
    requires |t| == |lo| == |hi| && Increasing(t) && LowerChain(segs, chain, t, hi) && 1 <= c < |chain|
    requires Consistent(a, t, lo, hi) && Consistent(b, t, lo, hi) && a.slope <= segs[c].slope <= b.slope
    ensures Consistent(segs[c], t, lo, hi)
  {
    hide Rise;
    ChainFacts(segs, chain, t, hi, c);
    var p, seg := chain[c], segs[c];
    forall k | 0 <= k < |t| ensures lo[k] <= At(seg, t, k) {
      var l := if k < p then b else a;
      Difference(seg, t, k, p);
      Difference(l, t, k, p);
      Difference(seg, t, p, k);
      Difference(l, t, p, k);
      if k < p {
        Climbs(seg.slope, b.slope, t[p] - t[k]);
      } else if k > p {
        Climbs(a.slope, seg.slope, t[k] - t[p]);
      }
    }
  }

  /** Every line that pass 4 looks at is consistent with the measurements. */
  lemma ConstraintsConsistent(maxs: seq<Line>, maxChain: seq<nat>, mins: seq<Line>, minChain: seq<nat>, a: Line,
                              b: Line, t: seq<real>, lo: seq<real>, hi: seq<real>, l: Line)
    requires |t| == |lo| == |hi| && Increasing(t) && Consistent(a, t, lo, hi) && Consistent(b, t, lo, hi)
    requires LowerChain(maxs, maxChain, t, hi) && LowerChain(MirrorLines(mins), minChain, t, Mirror(lo))
    requires |maxChain| <= |maxs| && |minChain| <= |mins| && l in Constraints(maxs, |maxChain|, mins, |minChain|, a, b)
    ensures Consistent(l, t, lo, hi)
  {
    hide Consistent;
    hide LowerChain;
    hide Increasing;
    hide Taken;
    if l in Taken(maxs, |maxChain|, true, a.slope, b.slope) {
      TakenAreWithin(maxs, |maxChain|, true, a.slope, b.slope, l);
      var c: nat :| 1 <= c < |maxChain| && maxs[c] == l && Within(true, l, a.slope, b.slope);
      SegmentConsistent(maxs, maxChain, t, lo, hi, a, b, c);
    } else if l in Taken(mins, |minChain|, false, b.slope, a.slope) {
      TakenAreWithin(mins, |minChain|, false, b.slope, a.slope, l);
      var c: nat :| 1 <= c < |minChain| && mins[c] == l && Within(false, l, b.slope, a.slope);
      MirrorConsistent(a, t, lo, hi);
      MirrorConsistent(b, t, lo, hi);
      SegmentConsistent(MirrorLines(mins), minChain, t, Mirror(hi), Mirror(lo), MirrorLine(b), MirrorLine(a), c);
      MirrorConsistent(l, t, lo, hi);
    }
  }

  // ------------------------------------------------------------------ and only the two outermost ones matter

  /** A crossing line has the least offset of all consistent lines, too, and in the mirror the greatest. */
  lemma CrossingOffset(a: Line, t: seq<real>, lo: seq<real>, hi: seq<real>, l: Line)
    requires |t| == |lo| == |hi| && Increasing(t) && Crossing(a, t, lo, hi) && Consistent(l, t, lo, hi)
    ensures a.slope <= l.slope && a.offset <= l.offset
  {
    hide Rise;
    var j: nat, n: nat :| j < n < |t| && CrossingAt(a, t, lo, hi, j, n);
    CrossingSlope(a, t, lo, hi, l, j, n);
    StaysAhead(a, l, t, n);
  }

  lemma MirroredOffset(b: Line, t: seq<real>, lo: seq<real>, hi: seq<real>, l: Line)
    requires |t| == |lo| == |hi| && Increasing(t) && Crossing(MirrorLine(b), t, Mirror(hi), Mirror(lo))
      && Consistent(l, t, lo, hi)
    ensures l.slope <= b.slope && l.offset <= b.offset
  {
    hide Crossing;
    hide Consistent;
    MirrorConsistent(l, t, lo, hi);
    CrossingOffset(MirrorLine(b), t, Mirror(hi), Mirror(lo), MirrorLine(l));
  }

  /** A flatter and lower line asks for more of a shift to the left, and a steeper and higher one to the right. */
  lemma ShiftsMonotone(a: Line, b: Line)
    requires a.slope <= b.slope && a.offset <= b.offset
    ensures ShiftOf(b, true) <= ShiftOf(a, true) && ShiftOf(a, false) <= ShiftOf(b, false)
  {
  }

  lemma LeastIs(points: seq<Line>, left: bool, p: Line)
    requires p in points && forall q :: q in points ==> ShiftOf(p, left) <= ShiftOf(q, left)
    ensures Least(points, left) == Min(MIN_INIT, ShiftOf(p, left))
  {
    hide ShiftOf;
    hide Least;
    LeastIsAttained(points, left);
    var i :| 0 <= i < |points| && points[i] == p;
  }

  /**
   * The least shift of all lines that pass 4 looks at, and of all consistent lines, is that of one of the two crossing
   * lines: to the left that of the steepest, to the right that of the flattest.
   */
  lemma OnlyCrossingsMatter(maxs: seq<Line>, maxChain: seq<nat>, mins: seq<Line>, minChain: seq<nat>, a: Line, b: Line,
                            t: seq<real>, lo: seq<real>, hi: seq<real>)
    requires |t| == |lo| == |hi| && Increasing(t) && Consistent(a, t, lo, hi) && Consistent(b, t, lo, hi)
    requires Crossing(a, t, lo, hi) && Crossing(MirrorLine(b), t, Mirror(hi), Mirror(lo))
    requires LowerChain(maxs, maxChain, t, hi) && LowerChain(MirrorLines(mins), minChain, t, Mirror(lo))
    requires |maxChain| <= |maxs| && |minChain| <= |mins|
    ensures var points := Constraints(maxs, |maxChain|, mins, |minChain|, a, b);
      && Least(points, true) == Min(MIN_INIT, ShiftOf(b, true))
      && Least(points, false) == Min(MIN_INIT, ShiftOf(a, false))
    ensures forall l :: Consistent(l, t, lo, hi) ==>
      ShiftOf(b, true) <= ShiftOf(l, true) && ShiftOf(a, false) <= ShiftOf(l, false)
  {
    hide Consistent;
    hide Crossing;
    hide LowerChain;
    hide Increasing;
    hide ShiftOf;
    hide Least;
    forall l | Consistent(l, t, lo, hi) ensures ShiftOf(b, true) <= ShiftOf(l, true)
      && ShiftOf(a, false) <= ShiftOf(l, false) {
      CrossingOffset(a, t, lo, hi, l);
      MirroredOffset(b, t, lo, hi, l);
      ShiftsMonotone(l, b);
      ShiftsMonotone(a, l);
    }
    var points := Constraints(maxs, |maxChain|, mins, |minChain|, a, b);
    assert a in points && b in points;
    hide Constraints;
    forall q | q in points ensures Consistent(q, t, lo, hi) {
      ConstraintsConsistent(maxs, maxChain, mins, minChain, a, b, t, lo, hi, q);
    }
    LeastIs(points, true, b);
    LeastIs(points, false, a);
  }

  // ------------------------------------------------------------------ the decision, said of the measurements

  /** Some line is consistent with all measurements, and neither pass misses its crossing line. */
  ghost predicate Usable(t: seq<real>, lo: seq<real>, hi: seq<real>)
    requires |t| == |lo| == |hi| > 0
  {
    && (exists l :: Consistent(l, t, lo, hi))
    && !Grazed(t, lo, hi) && !TooFlat(t, lo, hi)
    && !Grazed(t, Mirror(hi), Mirror(lo)) && !TooFlat(t, Mirror(hi), Mirror(lo))
  }

  /** The frequency that the two outermost consistent lines ask for. */
  function Asked(freq: int, a: Line, b: Line, byZero: real): int {
    Steered(freq, Min(MIN_INIT, ShiftOf(b, true)), Min(MIN_INIT, ShiftOf(a, false)), a, b, byZero)
  }

  /** Usable measurements steer the frequency by their two outermost lines; all others leave it alone. */
  ghost predicate Settled(t: seq<real>, lo: seq<real>, hi: seq<real>, freq: int, byZero: real, computed: int)
    requires |t| == |lo| == |hi| > 0
  {
    if Usable(t, lo, hi) then
      && (exists a, b :: Outermost(a, b, t, lo, hi))
      && forall a, b :: Outermost(a, b, t, lo, hi) ==>
        computed == Asked(freq, a, b, byZero) && Spread(a, b) >= 1000.0 && a.offset <= b.offset
    else
      computed == freq
  }

  /** A loop of pass 4 comes to a segment behind its first line. */
  lemma EnteredWhenBehind(segs: seq<Line>, n: nat, up: bool, enter: real, leave: real, c: nat)
    requires n <= |segs| && 1 <= c < n && Beyond(up, segs[c].slope, enter) && !Beyond(up, enter, leave)
    ensures Entered(segs, n, up, enter, leave)
  {
    FirstBeyondIs(segs, n, up, enter, 1);
    FirstBeyondIs(segs, n, up, leave, 1);
  }

  /** With both lines found, both loops of pass 4 are entered: its own tests for inconsistency never fail. */
  lemma BothEntered(maxs: seq<Line>, maxChain: seq<nat>, mins: seq<Line>, minChain: seq<nat>, a: Line, b: Line,
                    t: seq<real>, lo: seq<real>, hi: seq<real>)
    requires |t| == |lo| == |hi| && |maxChain| <= |maxs| && |minChain| <= |mins| && a.slope <= b.slope
    requires Picked(maxs, maxChain, t, lo, hi, true, a, true)
    requires Picked(MirrorLines(mins), minChain, t, Mirror(hi), Mirror(lo), true, MirrorLine(b), false)
    ensures |maxChain| > 0 && Entered(maxs, |maxChain|, true, a.slope, b.slope)
    ensures |minChain| > 0 && Entered(mins, |minChain|, false, b.slope, a.slope)
  {
    var c: nat :| Accepts(maxs, maxChain, t, lo, hi, c, a);
    EnteredWhenBehind(maxs, |maxChain|, true, a.slope, b.slope, c);
    var e: nat :| Accepts(MirrorLines(mins), minChain, t, Mirror(hi), Mirror(lo), e, MirrorLine(b));
    EnteredWhenBehind(mins, |minChain|, false, b.slope, a.slope, e);
  }

  /** Passes 2 and 3 both find their line exactly when the measurements are usable. */
  lemma BothFound(maxs: seq<Line>, maxChain: seq<nat>, mins: seq<Line>, minChain: seq<nat>, foundMin: bool, a: Line,
                  foundMax: bool, b: Line, t: seq<real>, lo: seq<real>, hi: seq<real>)
    requires |t| == |lo| == |hi| && |t| > 1 && Increasing(t) && Proper(lo, hi)
    requires PassSound(maxs, maxChain, t, lo, hi, foundMin, a, true) && MinSound(mins, minChain, t, lo, hi, foundMax, b)
    requires maxChain[|maxChain| - 1] == minChain[|minChain| - 1] == |t| - 1
    ensures foundMin && foundMax <==> Usable(t, lo, hi)
  {
    hide Consistent;
    hide Crossing;
    hide Picked;
    hide LowerChain;
    hide Increasing;
    hide Grazed;
    hide TooFlat;
    if foundMin && foundMax {
      CrossingsAgree(a, b, t, lo, hi);
    }
    if l :| Consistent(l, t, lo, hi) {
      MirrorConsistent(l, t, lo, hi);
      FoundExactly(maxs, maxChain, t, lo, hi, foundMin, a, true, l);
      FoundExactly(MirrorLines(mins), minChain, t, Mirror(hi), Mirror(lo), foundMax, MirrorLine(b), false,
        MirrorLine(l));
    }
  }

  lemma CrossingsOutermost(a: Line, b: Line, t: seq<real>, lo: seq<real>, hi: seq<real>)
    requires |t| == |lo| == |hi| && Increasing(t) && Proper(lo, hi)
    requires Crossing(a, t, lo, hi) && Crossing(MirrorLine(b), t, Mirror(hi), Mirror(lo))
    ensures Outermost(a, b, t, lo, hi) && a.slope <= b.slope && a.offset <= b.offset && Spread(a, b) >= 1000.0
    ensures forall a', b' :: Outermost(a', b', t, lo, hi) ==> a' == a && b' == b
  {
    hide Consistent;
    hide Crossing;
    hide Increasing;
    CrossingsAgree(a, b, t, lo, hi);
    forall l | Consistent(l, t, lo, hi) ensures a.slope <= l.slope <= b.slope {
      CrossingIsExtreme(a, t, lo, hi, l);
      MirroredCrossingIsExtreme(b, t, lo, hi, l);
    }
    forall a', b' | Outermost(a', b', t, lo, hi) ensures a' == a && b' == b {
      CrossingIsOnly(a, t, lo, hi, a');
      MirrorConsistent(b', t, lo, hi);
      CrossingIsOnly(MirrorLine(b), t, Mirror(hi), Mirror(lo), MirrorLine(b'));
    }
  }

  /** What sound results of passes 2 and 3 lead to. */
  lemma SoundSettles(maxs: seq<Line>, maxChain: seq<nat>, mins: seq<Line>, minChain: seq<nat>, foundMin: bool, a: Line,
                     foundMax: bool, b: Line, t: seq<real>, lo: seq<real>, hi: seq<real>, freq: int, byZero: real)
    requires |t| == |lo| == |hi| && |t| > 1 && Increasing(t) && Proper(lo, hi)
    requires 1 <= |maxChain| <= |maxs| && 1 <= |minChain| <= |mins|
    requires PassSound(maxs, maxChain, t, lo, hi, foundMin, a, true) && MinSound(mins, minChain, t, lo, hi, foundMax, b)
    requires maxChain[|maxChain| - 1] == minChain[|minChain| - 1] == |t| - 1
    ensures var computed := Decision(freq, maxs, |maxChain|, mins, |minChain|, foundMin && foundMax, a, b, byZero);
      Settled(t, lo, hi, freq, byZero, computed)
  {
    hide Consistent;
    hide Crossing;
    hide Picked;
    hide LowerChain;
    hide Increasing;
    hide Proper;
    hide Usable;
    hide Entered;
    hide Steered;
    hide Least;
    hide Constraints;
    hide ShiftOf;
    hide Min;
    hide Spread;
    BothFound(maxs, maxChain, mins, minChain, foundMin, a, foundMax, b, t, lo, hi);
    if foundMin && foundMax {
      CrossingsOutermost(a, b, t, lo, hi);
      hide Outermost;
      BothEntered(maxs, maxChain, mins, minChain, a, b, t, lo, hi);
      OnlyCrossingsMatter(maxs, maxChain, mins, minChain, a, b, t, lo, hi);
    }
  }

  /**
   * All five passes, where no error bar is negative: measurements that no line is consistent with leave the frequency
   * alone, and all that count of the others are the two outermost lines.
   */
  lemma DecisionSettles(d: seq<Datum>, rp: nat, freq: int, byZero: real, computed: int)
    requires Full(d, rp) && Increasing(Times(d, rp)) && Proper(Values(d, rp, false), Values(d, rp, true))
    requires Decided(d, rp, freq, byZero, computed)
    ensures Settled(Times(d, rp), Values(d, rp, false), Values(d, rp, true), freq, byZero, computed)
  {
    hide Times;
    hide Values;
    hide PassSound;
    hide MinSound;
    hide Increasing;
    hide Proper;
    hide Decision;
    hide Settled;
    var maxs, maxChain, mins, minChain, foundMin, a, foundMax, b :|
      DecidedBy(d, rp, freq, byZero, computed, maxs, maxChain, mins, minChain, foundMin, a, foundMax, b);
    var t, lo, hi := Times(d, rp), Values(d, rp, false), Values(d, rp, true);
    SoundSettles(maxs, maxChain, mins, minChain, foundMin, a, foundMax, b, t, lo, hi, freq, byZero);
  }

  /**
   * Both crossing lines can be found of measurements that no line is consistent with: exactly if an error bar is
   * negative.
   */
  lemma CrossingsExactly(a: Line, b: Line, t: seq<real>, lo: seq<real>, hi: seq<real>)
    requires |t| == |lo| == |hi| && Increasing(t)
    requires Crossing(a, t, lo, hi) && Crossing(MirrorLine(b), t, Mirror(hi), Mirror(lo))
    ensures (exists l :: Consistent(l, t, lo, hi)) <==> Proper(lo, hi)
  {
    hide Crossing;
    hide Increasing;
    if Proper(lo, hi) {
      CrossingsAgree(a, b, t, lo, hi);
    }
    if l :| Consistent(l, t, lo, hi) {
      forall k | 0 <= k < |t| ensures lo[k] <= hi[k] {
        assert lo[k] <= At(l, t, k) <= hi[k];
      }
    }
  }

  /** Sixteen measurements one second apart, the oldest of which has its error bar the wrong way round. */
  function Inverted(upper: bool): (y: seq<real>)
    ensures |y| == RING_SIZE && forall k :: 0 <= k < RING_SIZE ==> y[k] == if (k == 0) == upper then -10.0 else 10.0
  {
    seq(RING_SIZE, k => if (k == 0) == upper then -10.0 else 10.0)
  }

  /** Pass 2 finds its line, and so does pass 3, for which the measurements are the same; but no line is consistent. */
  lemma InvertedAccepted(segs: seq<Line>, chain: seq<nat>, found: bool, save: Line, least: bool)
    requires var t := seq(RING_SIZE, i => i as real);
      LowerEnvelope(segs, chain, t, Inverted(true))
        && Picked(segs, chain, t, Inverted(false), Inverted(true), found, save, least)
    ensures found && Mirror(Inverted(true)) == Inverted(false) && !Proper(Inverted(false), Inverted(true))
  {
    var t, lo, hi := seq(RING_SIZE, i => i as real), Inverted(false), Inverted(true);
    var a := Line(0.0, -10.0);
    CheckFound(a, t, lo, hi, 0, 1);
    hide IsCheck;
    FirstPlace(segs, chain, t, hi);
    ChainFacts(segs, chain, t, hi, 1);
    hide LowerChain;
    Difference(segs[1], t, 0, chain[1]);
    if segs[1].slope <= 0.0 {
      Climbs(segs[1].slope, 0.0, t[chain[1]] - t[0]);
    }
    assert Accepts(segs, chain, t, lo, hi, 1, a);
    assert Mirror(hi) == lo;
    assert lo[0] > hi[0];
  }

  // ------------------------------------------------------------------ runs

  /** What contemplate_data is called with. */
  datatype Measurement = Measurement(absolute: Word, skew: real, errorbar: real, freq: int) {
    function Entry(minDelay: real): Datum { Datum(absolute, skew, errorbar - minDelay, freq, 0.0, 0.0) }
  }

  /** The last sixteen of the first i measurements, as they are recorded. */
  function Window(ms: seq<Measurement>, i: nat, minDelay: real): (h: seq<Datum>)
    requires RING_SIZE <= i <= |ms|
    ensures |h| == RING_SIZE && forall k :: 0 <= k < RING_SIZE ==> h[k] == ms[i - RING_SIZE + k].Entry(minDelay)
  {
    seq(RING_SIZE, k requires 0 <= k < RING_SIZE => ms[i - RING_SIZE + k].Entry(minDelay))
  }

  /** The place of the newest measurement in such a window. */
  const LAST: nat := RING_SIZE - 1

  /** Times since the oldest of sixteen recorded measurements. */
  function Ages(h: seq<Datum>): (t: seq<real>)
    requires |h| == RING_SIZE
    ensures |t| == RING_SIZE
  {
    Times(h, LAST)
  }

  /** The lower or the upper ends of their error bars, corrected to the frequency. */
  function Ends(h: seq<Datum>, freq: int, upper: bool): (y: seq<real>)
    requires |h| == RING_SIZE
    ensures |y| == RING_SIZE
    ensures forall k :: 0 <= k < RING_SIZE ==> y[k] == Corrected(h, LAST, freq, k).Curve(upper)
  {
    seq(RING_SIZE, k requires 0 <= k < RING_SIZE => Corrected(h, LAST, freq, k).Curve(upper))
  }

  lemma HistoryTimes(d: seq<Datum>, rp: nat)
    requires Full(d, rp)
    ensures Times(d, rp) == Ages(History(d, rp))
  {
    PlaceDistinct(rp);
    assert forall k :: 0 <= k < RING_SIZE ==> Place(LAST, k) == k;
    hide Place;
    hide Sub32;
    var h := History(d, rp);
    forall k | 0 <= k < RING_SIZE ensures Times(d, rp)[k] == Times(h, LAST)[k] {
      assert h[k].absolute == d[Place(rp, k)].absolute && h[0].absolute == d[Place(rp, 0)].absolute;
    }
  }

  lemma HistoryEnds(d: seq<Datum>, rp: nat, freq: int, upper: bool)
    requires Full(d, rp) && CorrectedAll(d, rp, freq)
    ensures Values(d, rp, upper) == Ends(History(d, rp), freq, upper)
  {
    PlaceDistinct(rp);
    assert forall k :: 0 <= k < RING_SIZE ==> Place(LAST, k) == k;
    hide Place;
    hide Drift;
    var h := History(d, rp);
    forall k | 0 <= k < RING_SIZE ensures Values(d, rp, upper)[k] == Ends(h, freq, upper)[k] {
      DriftKept(h, LAST, d, rp, freq, k);
    }
  }

  lemma BarsProper(h: seq<Datum>, freq: int)
    requires |h| == RING_SIZE && forall k :: 0 <= k < RING_SIZE ==> h[k].errorbar >= 0.0
    ensures Proper(Ends(h, freq, false), Ends(h, freq, true))
  {
    assert forall k :: 0 <= k < RING_SIZE ==> Place(LAST, k) == k;
    hide Place;
    hide Drift;
  }

  /** The frequency after sixteen measurements or more. */
  ghost predicate Judged(h: seq<Datum>, freq: int, byZero: real, computed: int)
    requires |h| == RING_SIZE
  {
    && (computed == freq || -MAX_C <= computed <= MAX_C)
    && ((forall k :: 0 <= k < RING_SIZE ==> h[k].errorbar >= 0.0) ==>
         Settled(Ages(h), Ends(h, freq, false), Ends(h, freq, true), freq, byZero, computed))
  }

  lemma DecidedIsJudged(d: seq<Datum>, rp: nat, freq: int, byZero: real, computed: int)
    requires Full(d, rp) && Increasing(Times(d, rp)) && CorrectedAll(d, rp, freq)
      && Decided(d, rp, freq, byZero, computed)
    requires computed == freq || -MAX_C <= computed <= MAX_C
    ensures Judged(History(d, rp), freq, byZero, computed)
  {
    hide Times;
    hide Values;
    hide CorrectedAll;
    hide Decided;
    hide Settled;
    hide Increasing;
    hide Proper;
    hide Corrected;
    HistoryTimes(d, rp);
    HistoryEnds(d, rp, freq, false);
    HistoryEnds(d, rp, freq, true);
    var h := History(d, rp);
    if forall k :: 0 <= k < RING_SIZE ==> h[k].errorbar >= 0.0 {
      BarsProper(h, freq);
      DecisionSettles(d, rp, freq, byZero, computed);
    }
  }

  /** The newest measurements in the ring are the last ones taken. */
  ghost predicate Holds(h: seq<Datum>, valid: nat, ms: seq<Measurement>, i: nat, minDelay: real)
    requires |h| == RING_SIZE && i <= |ms|
  {
    && valid == (if i < RING_SIZE then i else RING_SIZE)
    && forall k :: RING_SIZE - valid <= k < RING_SIZE ==> h[k] == ms[i - RING_SIZE + k].Entry(minDelay)
  }

  lemma HoldsNone(h: seq<Datum>, ms: seq<Measurement>, minDelay: real)
    requires |h| == RING_SIZE
    ensures Holds(h, 0, ms, 0, minDelay)
  {
  }

  lemma HoldsNext(h: seq<Datum>, valid: nat, ms: seq<Measurement>, i: nat, minDelay: real)
    requires |h| == RING_SIZE && i < |ms| && Holds(h, valid, ms, i, minDelay)
    ensures var h' := h[1..] + [ms[i].Entry(minDelay)];
      && Holds(h', if valid < RING_SIZE then valid + 1 else RING_SIZE, ms, i + 1, minDelay)
      && (i + 1 >= RING_SIZE ==> h' == Window(ms, i + 1, minDelay))
  {
  }

  /** The time of a measurement reaches the passes through the ring. */
  lemma StoredTimes(d: seq<Datum>, rp: nat, datum: Datum)
    requires Full(d, rp)
    ensures Times(d[rp := datum], rp) == Ages(History(d, NextDn(rp))[1..] + [Raw(datum)])
  {
    hide Times;
    hide History;
    hide NextDn;
    Shift(d, rp, datum);
    HistoryTimes(d[rp := datum], rp);
  }

  lemma NextDnIn(rp: nat)
    requires rp < RING_SIZE
    ensures NextDn(rp) < RING_SIZE
  {
  }

  /**
   * One call after the other, from the start: the first fifteen leave the frequency alone, and from the sixteenth on
   * the last sixteen measurements decide.
   */
  method Run(ms: seq<Measurement>, minDelay: real, byZero: real) returns (freqs: seq<int>)
    requires forall i :: RING_SIZE <= i <= |ms| ==> Increasing(Ages(Window(ms, i, minDelay)))
    ensures |freqs| == |ms|
    ensures forall i :: 0 <= i < |ms| && i < RING_SIZE - 1 ==> freqs[i] == ms[i].freq
    ensures forall i :: RING_SIZE - 1 <= i < |ms| ==> Judged(Window(ms, i + 1, minDelay), ms[i].freq, byZero, freqs[i])
  {
    hide Times;
    hide Increasing;
    hide History;
    hide Decided;
    hide CorrectedAll;
    hide Judged;
    hide Holds;
    hide Window;
    hide Ages;
    hide NextDn;
    hide Stored;
    var ring := new Ring();
    NextDnIn(ring.rp);
    HoldsNone(History(ring.d[..], NextDn(ring.rp)), ms, minDelay);
    freqs := [];
    var i := 0;
    while i < |ms|
      invariant 0 <= i <= |ms| && |freqs| == i
      invariant ring.Valid() && NextDn(ring.rp) < RING_SIZE && fresh(ring) && fresh(ring.d) && fresh(ring.maxseg)
        && fresh(ring.minseg)
      invariant Holds(History(ring.d[..], NextDn(ring.rp)), ring.valid, ms, i, minDelay)
      invariant forall k :: 0 <= k < i && k < RING_SIZE - 1 ==> freqs[k] == ms[k].freq
      invariant forall k :: RING_SIZE - 1 <= k < i ==> Judged(Window(ms, k + 1, minDelay), ms[k].freq, byZero, freqs[k])
    {
      var m := ms[i];
      HoldsNext(History(ring.d[..], NextDn(ring.rp)), ring.valid, ms, i, minDelay);
      StoredIs(ring.d[ring.rp], m, minDelay);
      StoredTimes(ring.d[..], ring.rp, Stored(ring.d[ring.rp], m.absolute, m.skew, m.errorbar, m.freq, minDelay));
      var computed := Contemplate(ring, m.absolute, m.skew, m.errorbar, m.freq, minDelay, byZero);
      if ring.valid == RING_SIZE {
        DecidedIsJudged(ring.d[..], NextDn(ring.rp), m.freq, byZero, computed);
      }
      NextDnIn(ring.rp);
      freqs := freqs + [computed];
      i := i + 1;
    }
  }

  lemma StoredIs(slot: Datum, m: Measurement, minDelay: real)
    ensures Raw(Stored(slot, m.absolute, m.skew, m.errorbar, m.freq, minDelay)) == m.Entry(minDelay)
  {
  }
}
