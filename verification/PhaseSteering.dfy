/** What the new frequency does to the measurements: which way it moves their consistent lines, and how far. */
module PhaseSteering {
  import opened Words
  import opened Envelope
  import opened PhaseLock
  import opened PhaseDecision
  import opened PhaseRuns

  // ------------------------------------------------------------------ another frequency

  /** A line seen at another frequency, which runs in units of 1/65536. */
  function Tilted(l: Line, from: int, to: int): Line { Line(l.slope + (from - to) as real / 65536.0, l.offset) }

  lemma WanderChanges(a: Datum, b: Datum, f: int, g: int)
    ensures Wander(a, b, g) - Wander(a, b, f)
      == Rise((f - g) as real / 65536.0, Sub32(a.absolute, b.absolute) as real)
  {
    var dt, x, y := Sub32(a.absolute, b.absolute) as real, (a.freq - g) as real, (a.freq - f) as real;
    assert dt * x - dt * y == dt * (x - y);
  }

  lemma PlaceInHistory(k: nat)
    requires k < RING_SIZE
    ensures Place(LAST, k) == k
  {
  }

  /** At another frequency the drift differs by the time to the newest measurement. */
  lemma {:induction false} DriftChanges(h: seq<Datum>, f: int, g: int, k: nat)
    requires |h| == RING_SIZE && k < RING_SIZE && Increasing(Ages(h))
    ensures Drift(h, LAST, g, k) - Drift(h, LAST, f, k)
      == Rise((f - g) as real / 65536.0, Ages(h)[RING_SIZE - 1] - Ages(h)[k])
    decreases RING_SIZE - k
  {
    hide Drift;
    hide Wander;
    hide Rise;
    hide Sub32;
    hide Ages;
    hide Increasing;
    hide Place;
    if k == RING_SIZE - 1 {
      DriftNewest(h, LAST, f);
      DriftNewest(h, LAST, g);
      RiseNone((f - g) as real / 65536.0, Ages(h)[k]);
    } else {
      DriftChanges(h, f, g, k + 1);
      DriftStep(h, f, k);
      DriftStep(h, g, k);
      WanderChanges(h[k + 1], h[k], f, g);
      TimeBetween(h, k);
      RiseOn((f - g) as real / 65536.0, Ages(h)[k], Ages(h)[k + 1], Ages(h)[RING_SIZE - 1]);
    }
  }

  lemma DriftStep(h: seq<Datum>, f: int, k: nat)
    requires |h| == RING_SIZE && k < RING_SIZE - 1
    ensures Drift(h, LAST, f, k) == Drift(h, LAST, f, k + 1) + Wander(h[k + 1], h[k], f)
  {
    PlaceInHistory(k);
    PlaceInHistory(k + 1);
    hide Place;
    hide Wander;
  }

  lemma TimeBetween(h: seq<Datum>, k: nat)
    requires |h| == RING_SIZE && k < RING_SIZE - 1 && Increasing(Ages(h))
    ensures Sub32(h[k + 1].absolute, h[k].absolute) as real == Ages(h)[k + 1] - Ages(h)[k]
  {
    PlaceInHistory(k);
    PlaceInHistory(k + 1);
    hide Place;
    hide Sub32;
    Elapsed(h, LAST, k, k + 1);
  }

  lemma RiseNone(slope: real, t: real)
    ensures Rise(slope, t - t) == 0.0
  {
  }

  lemma RiseOn(slope: real, t: real, u: real, v: real)
    ensures Rise(slope, v - u) + Rise(slope, u - t) == Rise(slope, v - t)
  {
    assert slope * (v - u) + slope * (u - t) == slope * (v - t);
  }

  /** So a line is consistent with the error bars at one frequency exactly when its tilt is at the other. */
  lemma TiltedConsistent(h: seq<Datum>, f: int, g: int, l: Line)
    requires |h| == RING_SIZE && Increasing(Ages(h))
    ensures Consistent(l, Ages(h), Ends(h, f, false), Ends(h, f, true))
      <==> Consistent(Tilted(l, f, g), Ages(h), Ends(h, g, false), Ends(h, g, true))
  {
    hide Ends;
    hide At;
    hide Increasing;
    hide Tilted;
    forall k | 0 <= k < RING_SIZE
      ensures At(Tilted(l, f, g), Ages(h), k) - At(l, Ages(h), k) == Ends(h, g, true)[k] - Ends(h, f, true)[k]
      ensures Ends(h, g, false)[k] - Ends(h, f, false)[k] == Ends(h, g, true)[k] - Ends(h, f, true)[k]
    {
      TiltedAt(h, f, g, l, k);
    }
  }

  /** Line and error bar move alike. */
  lemma TiltedAt(h: seq<Datum>, f: int, g: int, l: Line, k: nat)
    requires |h| == RING_SIZE && Increasing(Ages(h)) && k < RING_SIZE
    ensures At(Tilted(l, f, g), Ages(h), k) - At(l, Ages(h), k) == Ends(h, g, true)[k] - Ends(h, f, true)[k]
    ensures Ends(h, g, false)[k] - Ends(h, f, false)[k] == Ends(h, g, true)[k] - Ends(h, f, true)[k]
  {
    hide Ends;
    hide Drift;
    hide Ages;
    hide Increasing;
    DriftChanges(h, f, g, k);
    EndsAre(h, f, k);
    EndsAre(h, g, k);
    TiltRises(l.slope, (f - g) as real / 65536.0, Ages(h)[RING_SIZE - 1] - Ages(h)[k]);
    hide Rise;
  }

  lemma EndsAre(h: seq<Datum>, f: int, k: nat)
    requires |h| == RING_SIZE && k < RING_SIZE
    ensures Ends(h, f, true)[k] == h[k].skew - Drift(h, LAST, f, k) + h[k].errorbar
    ensures Ends(h, f, false)[k] == h[k].skew - Drift(h, LAST, f, k) - h[k].errorbar
  {
    PlaceInHistory(k);
    hide Drift;
    hide Place;
  }

  lemma TiltRises(slope: real, tilt: real, dt: real)
    ensures Rise(slope + tilt, dt) == Rise(slope, dt) + Rise(tilt, dt)
  {
  }

  lemma TiltedBack(l: Line, f: int, g: int)
    ensures Tilted(Tilted(l, f, g), g, f) == l
  {
  }

  /** And the outermost lines stay the outermost ones. */
  lemma TiltedOutermost(h: seq<Datum>, f: int, g: int, a: Line, b: Line)
    requires |h| == RING_SIZE && Increasing(Ages(h))
    requires Outermost(a, b, Ages(h), Ends(h, f, false), Ends(h, f, true))
    ensures Outermost(Tilted(a, f, g), Tilted(b, f, g), Ages(h), Ends(h, g, false), Ends(h, g, true))
  {
    hide Consistent;
    TiltedConsistent(h, f, g, a);
    TiltedConsistent(h, f, g, b);
    forall l | Consistent(l, Ages(h), Ends(h, g, false), Ends(h, g, true))
      ensures Tilted(a, f, g).slope <= l.slope <= Tilted(b, f, g).slope
    {
      TiltedConsistent(h, g, f, l);
      TiltedBack(l, g, f);
    }
  }

  // ------------------------------------------------------------------ what the error bars are about

  /**
   * A clock whose skew grows by `rate` of itself, and by 1/65536 less for every unit of the frequency it runs at, which
   * is recorded with the next measurement.
   */
  ghost predicate Grows(h: seq<Datum>, rate: real)
    requires |h| == RING_SIZE
  {
    forall k :: 0 <= k < RING_SIZE - 1 ==>
      h[k + 1].skew - h[k].skew == Rise(rate - h[k + 1].freq as real / 65536.0, Ages(h)[k + 1] - Ages(h)[k])
  }

  /**
   * Whatever frequencies it ran at, at each frequency its error bars are about the line it would have followed there.
   */
  lemma {:induction false} BarsAboutLine(h: seq<Datum>, rate: real, freq: int, k: nat)
    requires |h| == RING_SIZE && k < RING_SIZE && Increasing(Ages(h)) && Grows(h, rate)
    ensures var l := Line(rate - freq as real / 65536.0, h[RING_SIZE - 1].skew);
      && Ends(h, freq, true)[k] == At(l, Ages(h), k) + h[k].errorbar
      && Ends(h, freq, false)[k] == At(l, Ages(h), k) - h[k].errorbar
  {
    hide Ends;
    hide Drift;
    hide Ages;
    hide Increasing;
    hide Rise;
    hide Grows;
    EndsAre(h, freq, k);
    DriftFollows(h, rate, freq, k);
  }

  lemma {:induction false} DriftFollows(h: seq<Datum>, rate: real, freq: int, k: nat)
    requires |h| == RING_SIZE && k < RING_SIZE && Increasing(Ages(h)) && Grows(h, rate)
    ensures h[RING_SIZE - 1].skew - h[k].skew + Drift(h, LAST, freq, k)
      == Rise(rate - freq as real / 65536.0, Ages(h)[RING_SIZE - 1] - Ages(h)[k])
    decreases RING_SIZE - k
  {
    hide Drift;
    hide Wander;
    hide Rise;
    hide Sub32;
    hide Ages;
    hide Increasing;
    hide Place;
    if k == RING_SIZE - 1 {
      DriftNewest(h, LAST, freq);
      RiseNone(rate - freq as real / 65536.0, Ages(h)[k]);
    } else {
      DriftFollows(h, rate, freq, k + 1);
      DriftStep(h, freq, k);
      TimeBetween(h, k);
      var dt := Ages(h)[k + 1] - Ages(h)[k];
      assert h[k + 1].skew - h[k].skew == Rise(rate - h[k + 1].freq as real / 65536.0, dt);
      WanderRises(h[k + 1], h[k], rate, freq);
      RiseOn(rate - freq as real / 65536.0, Ages(h)[k], Ages(h)[k + 1], Ages(h)[RING_SIZE - 1]);
    }
  }

  lemma WanderRises(a: Datum, b: Datum, rate: real, freq: int)
    ensures var dt := Sub32(a.absolute, b.absolute) as real;
      Rise(rate - a.freq as real / 65536.0, dt) + Wander(a, b, freq) == Rise(rate - freq as real / 65536.0, dt)
  {
    WanderIs(Sub32(a.absolute, b.absolute) as real, a.freq as real, freq as real, rate);
    assert (a.freq - freq) as real == a.freq as real - freq as real;
    hide Sub32;
  }

  lemma WanderIs(dt: real, f: real, g: real, rate: real)
    ensures Rise(rate - f / 65536.0, dt) + dt * (f - g) / 65536.0 == Rise(rate - g / 65536.0, dt)
  {
    var x, y := f / 65536.0, g / 65536.0;
    assert dt * (f - g) / 65536.0 == dt * ((f - g) / 65536.0);
    assert (f - g) / 65536.0 == x - y;
    assert (rate - x) * dt + dt * (x - y) == (rate - y) * dt;
  }

  // ------------------------------------------------------------------ the shift and the step towards the middle

  /** A value, or the nearer end of a range that it is not in. */
  function Nearest(x: real, low: real, high: real): real { if x < low then low else if x > high then high else x }

  /**
   * The step towards the middle, unless all offsets are large: from the middle of the two lines, shifted, towards the
   * nearest slope that takes the middle offset to 0 in 600 to 1800 seconds; the less of it the further apart they are.
   */
  lemma CenterExactly(a: Line, b: Line, gross: real, byZero: real)
    requires a.slope <= b.slope && a.offset <= b.offset
    ensures var slope, offset := (a.slope + b.slope) / 2.0 + gross, (a.offset + b.offset) / 2.0;
      var one, three := -offset / 600.0, -offset / 1800.0;
      var to := if offset < 0.0 then Nearest(slope, three, one) else Nearest(slope, one, three);
      FindDfCenter(a, b, gross, byZero) * (1000.0 + (b.offset - a.offset) + (b.slope - a.slope) * 1200.0)
      == if b.offset < -1000.0 || a.offset > 1000.0 then 0.0 else 1000.0 * (to - slope)
  {
    var slope, offset := 0.5 * (b.slope + a.slope) + gross, 0.5 * (b.offset + a.offset);
    var spread, delta := Spread(a, b), ToRange(slope, offset);
    ToNearest(slope, offset);
    hide ToRange;
    assert spread >= 1000.0;
    Divided(spread, delta);
  }

  lemma ToNearest(slope: real, offset: real)
    ensures var one, three := -offset / 600.0, -offset / 1800.0;
      ToRange(slope, offset)
      == (if offset < 0.0 then Nearest(slope, three, one) else Nearest(slope, one, three)) - slope
  {
  }

  lemma Divided(spread: real, delta: real)
    requires spread >= 1000.0
    ensures (1000.0 / spread * delta) * spread == 1000.0 * delta
  {
    var q := 1000.0 / spread;
    assert q * spread == 1000.0;
    assert (q * delta) * spread == (q * spread) * delta;
  }

  /** Moved by s towards a target line, a line asks for s less, until it asks for nothing. */
  lemma ShiftLeft(l: Line, s: real)
    requires s >= 0.0
    ensures ShiftOf(Line(l.slope + s, l.offset), true) == Max(0.0, ShiftOf(l, true) - s)
    ensures ShiftOf(Line(l.slope - s, l.offset), false) == Max(0.0, ShiftOf(l, false) - s)
  {
  }

  /** Where nothing is asked for: at one of two target lines or to the left of it, and in the mirror to the right. */
  lemma OnTarget(l: Line)
    ensures ShiftOf(l, true) == 0.0 <==> l.slope >= -l.offset / 600.0 || l.slope >= 0.3 - l.offset / 6000.0
    ensures ShiftOf(l, false) == 0.0 <==> l.slope <= -l.offset / 600.0 || l.slope <= -0.3 - l.offset / 6000.0
  {
  }

  /** When all lines are to go to the left, the step towards the middle does not take any of it back. */
  lemma CenterAgrees(a: Line, b: Line, l: real, r: real, byZero: real)
    requires a.slope <= b.slope && a.offset <= b.offset && l >= 0.0 && r >= 0.0
    requires l == Min(MIN_INIT, ShiftOf(b, true)) && r == Min(MIN_INIT, ShiftOf(a, false))
    ensures l > 0.0 ==> FindDfCenter(a, b, l, byZero) >= 0.0
    ensures r > 0.0 ==> FindDfCenter(a, b, -r, byZero) <= 0.0
  {
    CenterApproaches(a, b, l, byZero);
    CenterApproaches(a, b, -r, byZero);
    hide FindDfCenter;
    hide Spread;
    var slope, offset := 0.5 * (b.slope + a.slope), 0.5 * (b.offset + a.offset);
    assert offset <= b.offset && a.offset <= offset && slope <= b.slope && a.slope <= slope;
    if l > 0.0 {
      LeftOfSlide(b, l, slope, offset);
    }
    if r > 0.0 {
      RightOfSlide(a, r, slope, offset);
    }
  }

  lemma LeftOfSlide(b: Line, l: real, slope: real, offset: real)
    requires 0.0 < l <= ShiftOf(b, true) && slope <= b.slope && offset <= b.offset
    ensures ToRange(slope + l, offset) >= 0.0
  {
    assert l <= -b.slope - b.offset / 600.0;
  }

  lemma RightOfSlide(a: Line, r: real, slope: real, offset: real)
    requires 0.0 < r <= ShiftOf(a, false) && slope >= a.slope && offset >= a.offset
    ensures ToRange(slope - r, offset) <= 0.0
  {
    assert r <= a.slope + a.offset / 600.0;
  }

  // ------------------------------------------------------------------ the correction

  /** How far the lines are tilted when the frequency goes from `from` to `to`. */
  function Moved(from: int, to: int): real { (from - to) as real / 65536.0 }

  /** Half a unit of frequency, as a slope. */
  const HALF := 0.5 / 65536.0

  /** The shift that both sides agree on: to the left, to the right, or none. */
  function Agreed(l: real, r: real): real {
    if l > 0.0 && r == 0.0 then l else if r > 0.0 && l == 0.0 then -r else 0.0
  }

  /** The cast after adding a half is within half a unit of the step, but one unit more for a negative one. */
  lemma Rounded(step: real)
    ensures var n := Truncate(step * 65536.0 + 0.5);
      && step - HALF < n as real / 65536.0 < step + 3.0 * HALF
      && (step >= -HALF ==> n as real / 65536.0 <= step + HALF)
      && (step == 0.0 ==> n == 0)
  {
    var x, n := step * 65536.0 + 0.5, Truncate(step * 65536.0 + 0.5);
    assert if x >= 0.0 then x - 1.0 < n as real <= x else x <= n as real < x + 1.0;
    assert (step * 65536.0) / 65536.0 == step;
    Scaled(step * 65536.0 - 0.5, n as real);
    Scaled(n as real, step * 65536.0 + 1.5);
    Scaled(n as real, step * 65536.0 + 0.5);
  }

  lemma Scaled(x: real, y: real)
    ensures x < y <==> x / 65536.0 < y / 65536.0
  {
  }

  /**
   * On usable measurements the lines are tilted by the agreed shift and the step towards the middle, but for rounding
   * and for the limits of the frequency.
   */
  ghost predicate Tilts(freq: int, computed: int, step: real) {
    && (computed > -MAX_C ==> Moved(freq, computed) > step - HALF)
    && (computed < MAX_C ==> Moved(freq, computed) < step + 3.0 * HALF)
    && (computed < MAX_C && step >= -HALF ==> Moved(freq, computed) <= step + HALF)
    && (step == 0.0 && -MAX_C <= freq <= MAX_C ==> computed == freq)
  }

  lemma SteeredTilts(freq: int, l: real, r: real, a: Line, b: Line, byZero: real)
    requires l >= 0.0 && r >= 0.0
    ensures var step := Agreed(l, r) + FindDfCenter(a, b, Agreed(l, r), byZero);
      Tilts(freq, Steered(freq, l, r, a, b, byZero), step)
  {
    hide FindDfCenter;
    var step := Agreed(l, r) + FindDfCenter(a, b, Agreed(l, r), byZero);
    var n, computed := Truncate(step * 65536.0 + 0.5), Steered(freq, l, r, a, b, byZero);
    assert FindDf(l, r) == Agreed(l, r);
    Rounded(step);
    assert computed == Clamp(freq - n);
    hide Steered;
    hide Truncate;
    if computed > -MAX_C {
      assert freq - computed >= n;
      Larger(n, freq - computed);
    }
    if computed < MAX_C {
      assert freq - computed <= n;
      Larger(freq - computed, n);
    }
  }

  lemma Larger(m: int, n: int)
    requires m <= n
    ensures m as real / 65536.0 <= n as real / 65536.0
  {
  }

  lemma JudgedLines(h: seq<Datum>, freq: int, byZero: real, computed: int, a: Line, b: Line)
    requires |h| == RING_SIZE && Increasing(Ages(h)) && forall k :: 0 <= k < RING_SIZE ==> h[k].errorbar >= 0.0
    requires Judged(h, freq, byZero, computed) && Usable(Ages(h), Ends(h, freq, false), Ends(h, freq, true))
    requires Outermost(a, b, Ages(h), Ends(h, freq, false), Ends(h, freq, true))
    ensures a.slope <= b.slope && a.offset <= b.offset
    ensures computed == Steered(freq, Min(MIN_INIT, ShiftOf(b, true)), Min(MIN_INIT, ShiftOf(a, false)), a, b, byZero)
  {
    hide Usable;
    hide Consistent;
    hide Ages;
    hide Ends;
    hide ShiftOf;
    hide Steered;
    hide Spread;
  }

  /**
   * The new frequency, where no error bar is negative and the measurements are usable: seen at it the consistent lines
   * are the old ones, all tilted alike, by the shift that the outermost two agree on and the step towards the middle.
   * When all have to go to the left the slopes grow by that shift at least, and fall by it when all have to go to the
   * right.
   */
  lemma Steers(h: seq<Datum>, freq: int, byZero: real, computed: int, a: Line, b: Line)
    requires |h| == RING_SIZE && Increasing(Ages(h)) && forall k :: 0 <= k < RING_SIZE ==> h[k].errorbar >= 0.0
    requires Judged(h, freq, byZero, computed) && Usable(Ages(h), Ends(h, freq, false), Ends(h, freq, true))
    requires Outermost(a, b, Ages(h), Ends(h, freq, false), Ends(h, freq, true))
    ensures Outermost(Tilted(a, freq, computed), Tilted(b, freq, computed), Ages(h), Ends(h, computed, false),
      Ends(h, computed, true))
    ensures var l, r := Min(MIN_INIT, ShiftOf(b, true)), Min(MIN_INIT, ShiftOf(a, false));
      && Tilts(freq, computed, Agreed(l, r) + FindDfCenter(a, b, Agreed(l, r), byZero))
      && (l > 0.0 && r == 0.0 && computed > -MAX_C ==> Moved(freq, computed) > l - HALF)
      && (r > 0.0 && l == 0.0 && computed < MAX_C ==> Moved(freq, computed) < -r + 3.0 * HALF)
  {
    var l, r := Min(MIN_INIT, ShiftOf(b, true)), Min(MIN_INIT, ShiftOf(a, false));
    TiltedOutermost(h, freq, computed, a, b);
    JudgedLines(h, freq, byZero, computed, a, b);
    CenterAgrees(a, b, l, r, byZero);
    SteeredTilts(freq, l, r, a, b, byZero);
    hide Usable;
    hide Outermost;
    hide Judged;
    hide Increasing;
    hide Ages;
    hide Ends;
    hide FindDfCenter;
    hide ShiftOf;
    hide Steered;
  }

  /** So the line that had to go least far to a target line is there, but for rounding. */
  lemma Arrives(h: seq<Datum>, freq: int, byZero: real, computed: int, a: Line, b: Line)
    requires |h| == RING_SIZE && Increasing(Ages(h)) && forall k :: 0 <= k < RING_SIZE ==> h[k].errorbar >= 0.0
    requires Judged(h, freq, byZero, computed) && Usable(Ages(h), Ends(h, freq, false), Ends(h, freq, true))
    requires Outermost(a, b, Ages(h), Ends(h, freq, false), Ends(h, freq, true)) && -MAX_C < computed < MAX_C
    ensures 0.0 < ShiftOf(b, true) <= MIN_INIT && ShiftOf(a, false) == 0.0 ==>
      ShiftOf(Tilted(b, freq, computed), true) <= HALF
    ensures 0.0 < ShiftOf(a, false) <= MIN_INIT && ShiftOf(b, true) == 0.0 ==>
      ShiftOf(Tilted(a, freq, computed), false) <= 3.0 * HALF
  {
    Steers(h, freq, byZero, computed, a, b);
    hide Judged;
    hide Outermost;
    hide Usable;
    hide Ages;
    hide Ends;
    hide ShiftOf;
    var moved := Moved(freq, computed);
    if 0.0 < ShiftOf(b, true) <= MIN_INIT && ShiftOf(a, false) == 0.0 {
      ShiftLeft(b, Max(0.0, moved));
      MoreHelps(b, moved);
    }
    if 0.0 < ShiftOf(a, false) <= MIN_INIT && ShiftOf(b, true) == 0.0 {
      ShiftLeft(a, Max(0.0, -moved));
      MoreHelps(a, moved);
    }
  }

  /** A line tilted the wrong way asks for as much more. */
  lemma MoreHelps(l: Line, moved: real)
    ensures moved < 0.0 ==> ShiftOf(Line(l.slope + moved, l.offset), true) <= ShiftOf(l, true) - moved
    ensures moved > 0.0 ==> ShiftOf(Line(l.slope + moved, l.offset), false) <= ShiftOf(l, false) + moved
  {
  }

  lemma TruncatedUp(x: real)
    ensures Truncate(x) as real <= x <==> x >= 0.0 || x.Floor as real == x
  {
    if x < 0.0 {
      Negated(x, (-x).Floor, x.Floor);
    }
  }

  lemma Negated(x: real, f: int, g: int)
    requires f as real <= -x < f as real + 1.0 && g as real <= x < g as real + 1.0
    ensures -(f as real) <= x <==> g as real == x
  {
    assert (-f) as real == -(f as real);
    if -(f as real) <= x {
      assert g <= -f < g + 1;
    }
    if g as real == x {
      assert f <= -g < f + 1;
    }
  }

  /** A cast cuts off towards 0: a negative step is rounded to the nearest unit only if half a unit is left exactly. */
  lemma NearestExactly(step: real)
    ensures var n := Truncate(step * 65536.0 + 0.5) as real / 65536.0;
      (step - HALF <= n <= step + HALF)
      <==> (step >= -HALF || (step * 65536.0 + 0.5).Floor as real == step * 65536.0 + 0.5)
  {
    var x, n := step * 65536.0 + 0.5, Truncate(step * 65536.0 + 0.5);
    Rounded(step);
    Scaled(x, n as real);
    assert x / 65536.0 == step + HALF;
    TruncatedUp(x);
    hide Truncate;
  }
}
