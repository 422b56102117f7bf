/** The ring of time measurements and the two gift-wrapping passes of the phase lock loop. */
module PhaseLock {
  import opened Words
  import opened Envelope

  const RING_SIZE := 16
  const MAX_CORRECT := 250.0

  /** One measurement; smin and smax are its error bar after pass 1. */
  datatype Datum = Datum(absolute: Word, skew: real, errorbar: real, freq: int, smin: real, smax: real) {
    function Curve(s: bool): real { if s then smax else smin }
  }

  function Sub32(a: Word, b: Word): Word { (a - b) % WRAP }

  function NextUp(i: nat): nat
    requires i < RING_SIZE
  {
    if i + 1 >= RING_SIZE then 0 else i + 1
  }

  function NextDn(i: nat): nat
    requires i < RING_SIZE
  {
    if i - 1 < 0 then RING_SIZE - 1 else i - 1
  }

  /** Where the k-th oldest datum is when the newest is at rp. */
  function Place(rp: nat, k: nat): nat { (rp + 1 + k) % RING_SIZE }

  lemma PlaceIs(rp: nat, k: nat)
    requires rp < RING_SIZE && k <= RING_SIZE
    ensures Place(rp, k) == if rp + 1 + k < RING_SIZE then rp + 1 + k else (rp + 1 + k - RING_SIZE) % RING_SIZE
    ensures k < RING_SIZE && rp + 1 + k >= RING_SIZE ==> Place(rp, k) == rp + 1 + k - RING_SIZE
  {
  }

  lemma PlaceNext(rp: nat, i: nat)
    requires rp < RING_SIZE && i <= RING_SIZE
    ensures Place(rp, i) < RING_SIZE
    ensures i < RING_SIZE ==> NextUp(Place(rp, i)) == Place(rp, i + 1)
    ensures i > 0 ==> (Place(rp, i) == NextUp(rp) <==> i == RING_SIZE)
  {
  }

  lemma PlaceBack(rp: nat, k: nat)
    requires rp < RING_SIZE && k < RING_SIZE
    ensures k > 0 ==> NextDn(Place(rp, k)) == Place(rp, k - 1) != rp
    ensures k == 0 ==> NextDn(Place(rp, k)) == rp
  {
    PlaceIs(rp, k);
    if k > 0 {
      PlaceIs(rp, k - 1);
    }
    hide Place;
  }

  lemma PlaceDistinct(rp: nat)
    requires rp < RING_SIZE
    ensures Place(rp, RING_SIZE - 1) == rp
    ensures forall i :: 0 <= i < RING_SIZE ==> 0 <= Place(rp, i) < RING_SIZE
    ensures forall i, j :: 0 <= i < j < RING_SIZE ==> Place(rp, i) != Place(rp, j)
  {
  }

  predicate Full(d: seq<Datum>, rp: nat) { |d| == RING_SIZE && rp < RING_SIZE }

  /** Time since the oldest datum, oldest first; a wrap of the 32-bit clock inside the ring does not show. */
  function Times(d: seq<Datum>, rp: nat): (t: seq<real>)
    requires Full(d, rp)
    ensures |t| == RING_SIZE
    ensures forall k :: 0 <= k < RING_SIZE ==> t[k] == Sub32(d[Place(rp, k)].absolute, d[Place(rp, 0)].absolute) as real
  {
    seq(RING_SIZE, k requires 0 <= k < RING_SIZE => Sub32(d[Place(rp, k)].absolute, d[Place(rp, 0)].absolute) as real)
  }

  function Values(d: seq<Datum>, rp: nat, s: bool): (y: seq<real>)
    requires Full(d, rp)
    ensures |y| == RING_SIZE
    ensures forall k :: 0 <= k < RING_SIZE ==> y[k] == d[Place(rp, k)].Curve(s)
  {
    seq(RING_SIZE, k requires 0 <= k < RING_SIZE => d[Place(rp, k)].Curve(s))
  }

  lemma Sub32Cases(a: Word, b: Word)
    ensures Sub32(a, b) == if a >= b then a - b else a - b + WRAP
  {
  }

  lemma Sub32Between(a: Word, b: Word, o: Word)
    requires Sub32(b, o) <= Sub32(a, o)
    ensures Sub32(a, b) == Sub32(a, o) - Sub32(b, o)
  {
    Sub32Cases(a, b);
    Sub32Cases(a, o);
    Sub32Cases(b, o);
  }

  lemma Elapsed(d: seq<Datum>, rp: nat, j: nat, n: nat)
    requires Full(d, rp) && j < RING_SIZE && n < RING_SIZE && Times(d, rp)[j] <= Times(d, rp)[n]
    ensures Sub32(d[Place(rp, n)].absolute, d[Place(rp, j)].absolute) as real == Times(d, rp)[n] - Times(d, rp)[j]
  {
    Sub32Between(d[Place(rp, n)].absolute, d[Place(rp, j)].absolute, d[Place(rp, 0)].absolute);
  }

  /** The line from (t[k], from[k]) to (t[m], to[m]). */
  predicate Joins(l: Line, t: seq<real>, from: seq<real>, to: seq<real>, k: nat, m: nat)
    requires |t| == |from| == |to| && k < |t| && m < |t|
  {
    Touches(l, t, from, k) && Touches(l, t, to, m)
  }

  /** No later point up to `end` is under the line (or over it, when `largest`). */
  predicate Extreme(l: Line, t: seq<real>, from: seq<real>, to: seq<real>, k: nat, end: nat, largest: bool)
    requires |t| == |from| == |to| && k < end <= |t|
  {
    forall n :: k < n < end ==>
      if largest then to[n] - from[k] <= Rise(l.slope, t[n] - t[k]) else Rise(l.slope, t[n] - t[k]) <= to[n] - from[k]
  }

  predicate Rises(l: Line, t: seq<real>, from: seq<real>, to: seq<real>, k: nat, i: nat)
    requires |t| == |from| == |to| && k < |t| && i < |t|
  {
    Rise(l.slope, t[i] - t[k]) == to[i] - from[k]
  }

  lemma AgeBetween(d: seq<Datum>, rp: nat, k: nat, i: nat)
    requires Full(d, rp) && Increasing(Times(d, rp)) && k < i < RING_SIZE
    ensures Times(d, rp)[k] < Times(d, rp)[i]
    ensures Sub32(d[Place(rp, i)].absolute, d[Place(rp, k)].absolute) as real == Times(d, rp)[i] - Times(d, rp)[k]
    ensures Sub32(d[rp].absolute, d[Place(rp, i)].absolute) as real == Times(d, rp)[RING_SIZE - 1] - Times(d, rp)[i]
  {
    hide Sub32;
    var t := Times(d, rp);
    assert t[k] < t[i] <= t[RING_SIZE - 1];
    Elapsed(d, rp, k, i);
    Elapsed(d, rp, i, RING_SIZE - 1);
    assert Place(rp, RING_SIZE - 1) == rp;
  }

  function Quotient(dy: real, dt: real): real
    requires dt != 0.0
  {
    dy / dt
  }

  lemma LineThrough(l: Line, t: seq<real>, from: seq<real>, to: seq<real>, k: nat, i: nat)
    requires |t| == |from| == |to| && k < i < |t| && t[k] < t[i]
    requires l.slope == Quotient(to[i] - from[k], t[i] - t[k])
    requires l.offset == to[i] + Rise(l.slope, t[|t| - 1] - t[i])
    ensures Joins(l, t, from, to, k, i) && Rises(l, t, from, to, k, i)
  {
    assert Rise(l.slope, t[i] - t[k]) == to[i] - from[k];
    hide Rise;
    Difference(l, t, k, i);
  }

  /** Comparing slopes: keeping the better of the line so far and the one to point i keeps the extreme. */
  lemma BetterOf(l: Line, line: Line, t: seq<real>, from: seq<real>, to: seq<real>, k: nat, i: nat, largest: bool)
    requires |t| == |from| == |to| && k < i < |t| && Increasing(t) && Extreme(l, t, from, to, k, i, largest)
    requires Rises(line, t, from, to, k, i)
    ensures Extreme(if (line.slope < l.slope) != largest then line else l, t, from, to, k, i + 1, largest)
  {
    hide Rise;
    var m := if (line.slope < l.slope) != largest then line else l;
    forall n | k < n < i + 1 ensures
        if largest then to[n] - from[k] <= Rise(m.slope, t[n] - t[k]) else Rise(m.slope, t[n] - t[k]) <= to[n] - from[k]
    {
      var was := if n == i then line else l;
      if largest {
        Climbs(was.slope, m.slope, t[n] - t[k]);
      } else {
        Climbs(m.slope, was.slope, t[n] - t[k]);
      }
    }
  }

  lemma FirstOf(l: Line, t: seq<real>, from: seq<real>, to: seq<real>, k: nat, largest: bool)
    requires |t| == |from| == |to| && k + 1 < |t| && Rises(l, t, from, to, k, k + 1)
    ensures Extreme(l, t, from, to, k, k + 2, largest)
  {
  }

  lemma MirrorJoins(l: Line, t: seq<real>, from: seq<real>, to: seq<real>, k: nat, m: nat)
    requires |t| == |from| == |to| && k < |t| && m < |t| && Joins(l, t, from, to, k, m)
    ensures Joins(MirrorLine(l), t, Mirror(from), Mirror(to), k, m)
  {
    MirrorAt(l, t, k);
    MirrorAt(l, t, m);
  }

  lemma MirrorExtreme(l: Line, t: seq<real>, from: seq<real>, to: seq<real>, k: nat, largest: bool)
    requires |t| == |from| == |to| && k < |t| && Extreme(l, t, from, to, k, |t|, largest)
    ensures Extreme(MirrorLine(l), t, Mirror(from), Mirror(to), k, |t|, !largest)
  {
    forall n | k < n < |t| ensures Rise(-l.slope, t[n] - t[k]) == -Rise(l.slope, t[n] - t[k]) {
      var dt := t[n] - t[k];
      assert (-l.slope) * dt == -(l.slope * dt);
    }
  }

  /**
   * A check line flatter than the segment that leaves chain point j and steeper than the one that reaches it is a
   * crossing.
   */
  lemma CrossingFound(check: Line, next: Line, before: Line, t: seq<real>, lo: seq<real>, hi: seq<real>, j: nat, n: nat)
    requires |t| == |lo| == |hi| && Increasing(t) && j < n < |t|
    requires Joins(check, t, hi, lo, j, n) && Extreme(check, t, hi, lo, j, |t|, true)
    requires Extreme(next, t, hi, hi, j, |t|, false) && check.slope < next.slope
    requires j > 0 ==> before.slope < check.slope && Touches(before, t, hi, j) && Below(before, t, hi)
    ensures Crossing(check, t, lo, hi)
  {
    hide Rise;
    forall k | j < k < |t| ensures Rise(check.slope, t[k] - t[j]) <= hi[k] - hi[j] && lo[k] <= At(check, t, k) {
      Climbs(check.slope, next.slope, t[k] - t[j]);
      Difference(check, t, j, k);
    }
    StaysBelow(check, t, hi, j, before);
    assert CrossingAt(check, t, lo, hi, j, n);
  }

  lemma {:induction false} ChainIsShort(chain: seq<nat>, i: nat)
    requires i < |chain| && forall a, b :: 0 <= a < b < |chain| ==> chain[a] < chain[b]
    ensures i <= chain[i]
  {
    if i > 0 {
      ChainIsShort(chain, i - 1);
    }
  }

  lemma OnePoint(segs: seq<Line>, t: seq<real>, y: seq<real>)
    requires |t| == |y| && |t| > 0 && |segs| > 0
    ensures LowerChain(segs, [0], t, y)
  {
  }

  lemma PlaceNewest(rp: nat, m: nat)
    requires rp < RING_SIZE && m < RING_SIZE
    ensures Place(rp, m) == rp <==> m == RING_SIZE - 1
  {
  }

  /** One round of a pass: the found segment extends the chain. */
  lemma ChainStep(segs: seq<Line>, chain: seq<nat>, t: seq<real>, y: seq<real>, seg: Line, k: nat, m: nat)
    requires |t| == |y| && Increasing(t) && LowerChain(segs, chain, t, y) && |chain| < |segs|
    requires k == chain[|chain| - 1] < m < |t|
    requires Joins(seg, t, y, y, k, m) && Extreme(seg, t, y, y, k, |t|, false)
    ensures LowerChain(segs[|chain| := seg], chain + [m], t, y)
    ensures |chain| <= m
  {
    hide Rise;
    ChainGrows(segs, chain, t, y, seg, m);
    ChainIsShort(chain + [m], |chain|);
  }

  /** One round of a pass: an accepted check line is a crossing. */
  lemma CrossingStep(segs: seq<Line>, chain: seq<nat>, t: seq<real>, lo: seq<real>, hi: seq<real>, seg: Line,
                     check: Line, k: nat, n: nat)
    requires |t| == |lo| == |hi| && Increasing(t) && LowerChain(segs, chain, t, hi)
    requires k == chain[|chain| - 1] < n < |t|
    requires Extreme(seg, t, hi, hi, k, |t|, false)
    requires Joins(check, t, hi, lo, k, n) && Extreme(check, t, hi, lo, k, |t|, true)
    requires check.slope < seg.slope && (|chain| > 1 ==> check.slope > segs[|chain| - 1].slope)
    ensures Crossing(check, t, lo, hi)
  {
    hide Rise;
    if |chain| == 1 {
      assert k == 0;
    }
    CrossingFound(check, seg, segs[|chain| - 1], t, lo, hi, k, n);
  }

  // ------------------------------------------------------------------ which check line a pass keeps

  /** The steepest line from the upper end at k to a later lower end. */
  ghost predicate IsCheck(l: Line, t: seq<real>, lo: seq<real>, hi: seq<real>, k: nat)
    requires |t| == |lo| == |hi| && k < |t|
  {
    Extreme(l, t, hi, lo, k, |t|, true) && exists n :: k < n < |t| && Joins(l, t, hi, lo, k, n)
  }

  lemma CheckUnique(l: Line, m: Line, t: seq<real>, lo: seq<real>, hi: seq<real>, k: nat)
    requires |t| == |lo| == |hi| && k < |t| && Increasing(t) && IsCheck(l, t, lo, hi, k) && IsCheck(m, t, lo, hi, k)
    ensures l.slope == m.slope
  {
    hide Rise;
    NotSteeper(l, m, t, lo, hi, k);
    NotSteeper(m, l, t, lo, hi, k);
  }

  lemma NotSteeper(l: Line, m: Line, t: seq<real>, lo: seq<real>, hi: seq<real>, k: nat)
    requires |t| == |lo| == |hi| && k < |t| && Increasing(t) && IsCheck(l, t, lo, hi, k) && IsCheck(m, t, lo, hi, k)
    ensures l.slope <= m.slope
  {
    hide Rise;
    var n :| k < n < |t| && Joins(l, t, hi, lo, k, n);
    Difference(l, t, k, n);
    ClimbsBack(l.slope, m.slope, t[n] - t[k]);
  }

  /** Steeper than the segment before, or than the limit at the oldest point. */
  predicate Over(segs: seq<Line>, c: nat, slope: real)
    requires 1 <= c <= |segs|
  {
    slope > if c == 1 then -2.0 * MAX_CORRECT else segs[c - 1].slope
  }

  /** The check line at the start of segment c lies strictly between the two segments that meet there. */
  ghost predicate Accepts(segs: seq<Line>, chain: seq<nat>, t: seq<real>, lo: seq<real>, hi: seq<real>, c: nat,
                          check: Line)
    requires |t| == |lo| == |hi|
  {
    && 1 <= c < |chain| && c < |segs| && chain[c - 1] < |t| && IsCheck(check, t, lo, hi, chain[c - 1])
    && check.slope < segs[c].slope && Over(segs, c, check.slope)
  }

  /**
   * A check line was found exactly when one is accepted, and the flattest (or, not `least`, steepest) of them was kept.
   */
  ghost predicate Picked(segs: seq<Line>, chain: seq<nat>, t: seq<real>, lo: seq<real>, hi: seq<real>, found: bool,
                         save: Line, least: bool)
    requires |t| == |lo| == |hi|
  {
    && (found ==> exists c: nat :: Accepts(segs, chain, t, lo, hi, c, save))
    && forall c: nat, check :: Accepts(segs, chain, t, lo, hi, c, check) ==>
         found && if least then save.slope <= check.slope else check.slope <= save.slope
  }

  lemma PickStep(segs: seq<Line>, chain: seq<nat>, t: seq<real>, lo: seq<real>, hi: seq<real>, found: bool, save: Line,
                 least: bool, seg: Line, m: nat, check: Line)
    requires |t| == |lo| == |hi| && Increasing(t) && 1 <= |chain| < |segs| && chain[|chain| - 1] < |t|
    requires Picked(segs, chain, t, lo, hi, found, save, least) && IsCheck(check, t, lo, hi, chain[|chain| - 1])
    ensures var accepted := check.slope < seg.slope && Over(segs, |chain|, check.slope);
      var better := !found || (if least then check.slope < save.slope else check.slope > save.slope);
      Picked(segs[|chain| := seg], chain + [m], t, lo, hi, found || accepted,
             if accepted && better then check else save, least)
  {
    hide IsCheck;
    hide Increasing;
    var segs', chain' := segs[|chain| := seg], chain + [m];
    var accepted := check.slope < seg.slope && Over(segs, |chain|, check.slope);
    var better := !found || (if least then check.slope < save.slope else check.slope > save.slope);
    var save' := if accepted && better then check else save;
    forall c: nat, l | Accepts(segs', chain', t, lo, hi, c, l)
      ensures (found || accepted) && if least then save'.slope <= l.slope else l.slope <= save'.slope
    {
      if c < |chain| {
        assert Accepts(segs, chain, t, lo, hi, c, l);
      } else {
        CheckUnique(l, check, t, lo, hi, chain[|chain| - 1]);
      }
    }
    if accepted && better {
      assert Accepts(segs', chain', t, lo, hi, |chain|, check);
    } else if found {
      var c: nat :| Accepts(segs, chain, t, lo, hi, c, save);
      assert Accepts(segs', chain', t, lo, hi, c, save);
    }
  }

  lemma NonePicked(segs: seq<Line>, t: seq<real>, lo: seq<real>, hi: seq<real>, save: Line, least: bool)
    requires |t| == |lo| == |hi|
    ensures Picked(segs, [0], t, lo, hi, false, save, least)
  {
  }

  lemma CheckFound(check: Line, t: seq<real>, lo: seq<real>, hi: seq<real>, k: nat, n: nat)
    requires |t| == |lo| == |hi| && k < n < |t| && Joins(check, t, hi, lo, k, n)
      && Extreme(check, t, hi, lo, k, |t|, true)
    ensures IsCheck(check, t, lo, hi, k)
  {
  }

  function MirrorLines(segs: seq<Line>): (r: seq<Line>)
    ensures |r| == |segs| && forall i :: 0 <= i < |segs| ==> r[i] == MirrorLine(segs[i])
  {
    seq(|segs|, i requires 0 <= i < |segs| => MirrorLine(segs[i]))
  }

  /**
   * What a pass has found so far: the chain wraps the points it has come to, and the check line kept is the one to
   * keep.
   */
  ghost predicate PassSound(segs: seq<Line>, chain: seq<nat>, t: seq<real>, lo: seq<real>, hi: seq<real>, found: bool,
                            save: Line, least: bool)
    requires |t| == |lo| == |hi|
  {
    && LowerChain(segs, chain, t, hi) && Picked(segs, chain, t, lo, hi, found, save, least)
    && (found ==> Crossing(save, t, lo, hi))
  }

  lemma PassStarts(segs: seq<Line>, t: seq<real>, lo: seq<real>, hi: seq<real>, save: Line, least: bool)
    requires |t| == |lo| == |hi| > 0 && |segs| > 0
    ensures PassSound(segs, [0], t, lo, hi, false, save, least)
  {
    OnePoint(segs, t, hi);
    NonePicked(segs, t, lo, hi, save, least);
  }

  /**
   * One round of a pass: the segment found extends the chain, and the check line is kept if it is accepted and better.
   */
  lemma PassRound(segs: seq<Line>, chain: seq<nat>, t: seq<real>, lo: seq<real>, hi: seq<real>, found: bool, save: Line,
                  least: bool, seg: Line, check: Line, m: nat, n: nat)
    requires |t| == |lo| == |hi| && Increasing(t) && PassSound(segs, chain, t, lo, hi, found, save, least)
    requires 1 <= |chain| < |segs| && chain[|chain| - 1] < m < |t| && chain[|chain| - 1] < n < |t|
    requires Joins(seg, t, hi, hi, chain[|chain| - 1], m) && Extreme(seg, t, hi, hi, chain[|chain| - 1], |t|, false)
    requires Joins(check, t, hi, lo, chain[|chain| - 1], n) && Extreme(check, t, hi, lo, chain[|chain| - 1], |t|, true)
    ensures |chain| <= m
    ensures var accepted := check.slope < seg.slope && Over(segs, |chain|, check.slope);
      var better := !found || (if least then check.slope < save.slope else check.slope > save.slope);
      PassSound(segs[|chain| := seg], chain + [m], t, lo, hi, found || accepted,
             if accepted && better then check else save, least)
  {
    hide Rise;
    hide Increasing;
    hide LowerChain;
    hide Picked;
    hide IsCheck;
    hide Joins;
    hide Extreme;
    hide Crossing;
    var k := chain[|chain| - 1];
    CheckFound(check, t, lo, hi, k, n);
    PickStep(segs, chain, t, lo, hi, found, save, least, seg, m, check);
    ChainStep(segs, chain, t, hi, seg, k, m);
    if check.slope < seg.slope && Over(segs, |chain|, check.slope) {
      CrossingStep(segs, chain, t, lo, hi, seg, check, k, n);
    }
  }

  // The state of pass 3 is that of a pass over the mirror image.

  ghost predicate MinSound(segs: seq<Line>, chain: seq<nat>, t: seq<real>, lo: seq<real>, hi: seq<real>, found: bool,
                           save: Line)
    requires |t| == |lo| == |hi|
  {
    PassSound(MirrorLines(segs), chain, t, Mirror(hi), Mirror(lo), found, MirrorLine(save), false)
  }

  lemma MinStarts(segs: seq<Line>, t: seq<real>, lo: seq<real>, hi: seq<real>, save: Line)
    requires |t| == |lo| == |hi| > 0 && |segs| > 0
    ensures MinSound(segs, [0], t, lo, hi, false, save)
  {
    PassStarts(MirrorLines(segs), t, Mirror(hi), Mirror(lo), MirrorLine(save), false);
  }

  lemma MinRound(segs: seq<Line>, chain: seq<nat>, t: seq<real>, lo: seq<real>, hi: seq<real>, found: bool, save: Line,
                 seg: Line, check: Line, m: nat, n: nat)
    requires |t| == |lo| == |hi| && Increasing(t) && MinSound(segs, chain, t, lo, hi, found, save)
    requires 1 <= |chain| < |segs| && chain[|chain| - 1] < m < |t| && chain[|chain| - 1] < n < |t|
    requires Joins(seg, t, lo, lo, chain[|chain| - 1], m) && Extreme(seg, t, lo, lo, chain[|chain| - 1], |t|, true)
    requires Joins(check, t, lo, hi, chain[|chain| - 1], n) && Extreme(check, t, lo, hi, chain[|chain| - 1], |t|, false)
    ensures |chain| <= m
    ensures var accepted := check.slope > seg.slope
      && check.slope < if |chain| == 1 then 2.0 * MAX_CORRECT else segs[|chain| - 1].slope;
      MinSound(segs[|chain| := seg], chain + [m], t, lo, hi, found || accepted,
               if accepted && (!found || check.slope < save.slope) then check else save)
  {
    hide Rise;
    hide Increasing;
    hide PassSound;
    hide Joins;
    hide Extreme;
    var k := chain[|chain| - 1];
    MirrorJoins(seg, t, lo, lo, k, m);
    MirrorExtreme(seg, t, lo, lo, k, true);
    MirrorJoins(check, t, lo, hi, k, n);
    MirrorExtreme(check, t, lo, hi, k, false);
    PassRound(MirrorLines(segs), chain, t, Mirror(hi), Mirror(lo), found, MirrorLine(save), false, MirrorLine(seg),
      MirrorLine(check), m, n);
    assert MirrorLines(segs[|chain| := seg]) == MirrorLines(segs)[|chain| := MirrorLine(seg)];
  }

  lemma WanderReads(a: Datum, b: Datum, c: Datum, freq: int)
    requires a.absolute == b.absolute && a.freq == b.freq
    ensures Wander(a, c, freq) == Wander(b, c, freq)
  {
  }

  /** The skew that setting the clock to a's frequency instead of `freq` caused between data b and a. */
  function Wander(a: Datum, b: Datum, freq: int): real {
    (Sub32(a.absolute, b.absolute) as real) * ((a.freq - freq) as real) / 65536.0
  }

  /** What the newer frequency settings have added to the skew of the k-th oldest datum, relative to `freq`. */
  function Drift(d: seq<Datum>, rp: nat, freq: int, k: nat): real
    requires Full(d, rp) && k < RING_SIZE
    decreases RING_SIZE - k
  {
    if k == RING_SIZE - 1 then 0.0
    else
      Drift(d, rp, freq, k + 1) + Wander(d[Place(rp, k + 1)], d[Place(rp, k)], freq)
  }

  /** The error bar about the skew less the drift. */
  function Centered(was: Datum, drift: real): (r: Datum)
    ensures r.absolute == was.absolute && r.freq == was.freq
  {
    was.(smax := was.skew - drift + was.errorbar, smin := was.skew - drift - was.errorbar)
  }

  function Corrected(d: seq<Datum>, rp: nat, freq: int, k: nat): Datum
    requires Full(d, rp) && k < RING_SIZE
  {
    Centered(d[Place(rp, k)], Drift(d, rp, freq, k))
  }

  lemma CorrectedIs(d: seq<Datum>, rp: nat, freq: int, k: nat, cum: real)
    requires Full(d, rp) && k < RING_SIZE && cum == Drift(d, rp, freq, k)
    ensures Corrected(d, rp, freq, k) == Centered(d[Place(rp, k)], cum)
    ensures k > 0 ==> Drift(d, rp, freq, k - 1) == cum + Wander(d[Place(rp, k)], d[Place(rp, k - 1)], freq)
  {
  }

  lemma DriftNewest(d: seq<Datum>, rp: nat, freq: int)
    requires Full(d, rp)
    ensures Drift(d, rp, freq, RING_SIZE - 1) == 0.0
  {
  }

  lemma TimesKept(was: seq<Datum>, d: seq<Datum>, rp: nat, freq: int)
    requires Full(was, rp) && Full(d, rp)
    requires forall k :: 0 <= k < RING_SIZE ==> d[Place(rp, k)] == Corrected(was, rp, freq, k)
    ensures Times(d, rp) == Times(was, rp)
  {
    hide Drift;
    hide Sub32;
    PlaceDistinct(rp);
    forall k | 0 <= k < RING_SIZE ensures Times(d, rp)[k] == Times(was, rp)[k] {
      assert d[Place(rp, k)].absolute == was[Place(rp, k)].absolute;
      assert d[Place(rp, 0)].absolute == was[Place(rp, 0)].absolute;
    }
  }

  /** A measurement as it was recorded. */
  function Raw(x: Datum): Datum { x.(smin := 0.0, smax := 0.0) }

  /** The recorded measurements, oldest first. */
  function History(d: seq<Datum>, rp: nat): (h: seq<Datum>)
    requires Full(d, rp)
    ensures |h| == RING_SIZE && forall k :: 0 <= k < RING_SIZE ==> h[k] == Raw(d[Place(rp, k)])
  {
    seq(RING_SIZE, k requires 0 <= k < RING_SIZE => Raw(d[Place(rp, k)]))
  }

  lemma Shift(d: seq<Datum>, rp: nat, datum: Datum)
    requires Full(d, rp)
    ensures History(d[rp := datum], rp) == History(d, NextDn(rp))[1..] + [Raw(datum)]
  {
    PlaceDistinct(rp);
    forall k | 0 <= k < RING_SIZE - 1 ensures Place(rp, k) == Place(NextDn(rp), k + 1) {
    }
    hide Place;
    var h := History(d[rp := datum], rp);
    forall k | 0 <= k < RING_SIZE ensures h[k] == (History(d, NextDn(rp))[1..] + [Raw(datum)])[k] {
    }
  }

  class Ring {
    const d: array<Datum>
    const maxseg: array<Line>
    const minseg: array<Line>
    var rp: nat
    var valid: nat

    ghost predicate Valid()
      reads this
    {
      d.Length == RING_SIZE && maxseg.Length == minseg.Length == RING_SIZE + 1 && maxseg != minseg && rp < RING_SIZE
        && valid <= RING_SIZE
    }

    ghost predicate Ordered()
      requires Valid()
      reads this, d
    {
      Increasing(Times(d[..], rp))
    }

    /** The slope and offset of the segment from datum j on curve s1 to datum n on curve s0. */
    method SegmentTo(n: nat, j: nat, s0: bool, s1: bool, ghost k: nat, ghost i: nat) returns (line: Line)
      requires Valid() && Ordered() && k < i < RING_SIZE && j == Place(rp, k) && n == Place(rp, i)
      ensures Joins(line, Times(d[..], rp), Values(d[..], rp, s1), Values(d[..], rp, s0), k, i)
      ensures Rises(line, Times(d[..], rp), Values(d[..], rp, s1), Values(d[..], rp, s0), k, i)
    {
      hide Joins;
      hide Rises;
      hide Increasing;
      AgeBetween(d[..], rp, k, i);
      PlaceNext(rp, k);
      PlaceNext(rp, i);
      hide Place;
      hide Sub32;
      hide Rise;
      hide Quotient;
      var dt := Sub32(d[n].absolute, d[j].absolute) as real;
      var slope := Quotient(d[n].Curve(s0) - d[j].Curve(s1), dt);
      line := Line(slope, d[n].Curve(s0) + Rise(slope, Sub32(d[rp].absolute, d[n].absolute) as real));
      LineThrough(line, Times(d[..], rp), Values(d[..], rp, s1), Values(d[..], rp, s0), k, i);
    }

    /**
     * The scan over the later points: least slope when `sign` is false (first one wins), greatest when it is true (last
     * one wins).
     */
    method Search(j: nat, s0: bool, s1: bool, sign: bool, ghost k: nat) returns (nextj: nat, answer: Line, ghost m: nat)
      requires Valid() && Ordered() && k < RING_SIZE - 1 && j == Place(rp, k)
      ensures k < m < RING_SIZE && nextj == Place(rp, m)
      ensures Joins(answer, Times(d[..], rp), Values(d[..], rp, s1), Values(d[..], rp, s0), k, m)
      ensures Extreme(answer, Times(d[..], rp), Values(d[..], rp, s1), Values(d[..], rp, s0), k, RING_SIZE, sign)
    {
      hide Joins;
      hide Extreme;
      hide Rises;
      hide Place;
      hide Times;
      hide Values;
      hide Increasing;
      hide NextUp;
      PlaceNext(rp, k);
      ghost var ds := d[..];
      ghost var t, from, to := Times(ds, rp), Values(ds, rp, s1), Values(ds, rp, s0);
      nextj := 0;
      answer := Line(0.0, 0.0);
      m := k;
      var cinit := true;
      var n := NextUp(j);
      ghost var i := k + 1;
      PlaceNext(rp, i);
      while n != NextUp(rp)
        invariant k < i <= RING_SIZE && n == Place(rp, i)
        invariant cinit <==> i == k + 1
        invariant !cinit ==> k < m < i && nextj == Place(rp, m)
        invariant !cinit ==> Joins(answer, t, from, to, k, m)
        invariant !cinit ==> Extreme(answer, t, from, to, k, i, sign)
        decreases RING_SIZE - i
      {
        PlaceNext(rp, i);
        PlaceNext(rp, i + 1);
        var line := SegmentTo(n, j, s0, s1, k, i);
        if cinit {
          FirstOf(line, t, from, to, k, sign);
        } else {
          BetterOf(answer, line, t, from, to, k, i, sign);
        }
        if cinit || (line.slope < answer.slope) != sign {
          answer := line;
          cinit := false;
          nextj := n;
          m := i;
        }
        n := NextUp(n);
        i := i + 1;
      }
      PlaceNext(rp, i);
    }

    /** Pass 2: the lower envelope of smax, segment c joining chain points c - 1 and c. */
    method PassMax() returns (avail: nat, found: bool, saveMin: Line, ghost chain: seq<nat>)
      requires Valid() && Ordered()
      modifies maxseg
      ensures 1 <= avail == |chain| <= RING_SIZE && chain[avail - 1] == RING_SIZE - 1
      ensures PassSound(maxseg[..], chain, Times(d[..], rp), Values(d[..], rp, false), Values(d[..], rp, true), found,
        saveMin, true)
    {
      hide Times;
      hide Values;
      hide PassSound;
      hide Joins;
      hide Extreme;
      hide Increasing;
      ghost var t, lo, hi := Times(d[..], rp), Values(d[..], rp, false), Values(d[..], rp, true);
      found := false;
      saveMin := Line(0.0, 0.0);
      var lastSlope := -2.0 * MAX_CORRECT;
      var c, j := 1, NextUp(rp);
      PlaceNext(rp, 0);
      chain := [0];
      PassStarts(maxseg[..], t, lo, hi, saveMin, true);
      hide Place;
      while true
        invariant 1 <= c == |chain| < RING_SIZE
        invariant chain[c - 1] < RING_SIZE - 1 && j == Place(rp, chain[c - 1])
        invariant lastSlope == if c == 1 then -2.0 * MAX_CORRECT else maxseg[c - 1].slope
        invariant PassSound(maxseg[..], chain, t, lo, hi, found, saveMin, true)
        decreases RING_SIZE - c
      {
        ghost var k := chain[c - 1];
        ghost var segs := maxseg[..];
        var nextj, seg, n, check;
        ghost var m, m';
        nextj, seg, m := Search(j, true, true, false, k);
        n, check, m' := Search(j, false, true, true, k);
        PassRound(segs, chain, t, lo, hi, found, saveMin, true, seg, check, m, m');
        if check.slope < seg.slope && check.slope > lastSlope && (!found || check.slope < saveMin.slope) {
          found := true;
          saveMin := check;
        }
        PlaceNewest(rp, m);
        maxseg[c] := seg;
        assert maxseg[..] == segs[c := seg];
        lastSlope := seg.slope;
        chain := chain + [m];
        c := c + 1;
        if nextj == rp {
          break;
        }
        j := nextj;
      }
      avail := c;
    }

    /** Pass 3: the upper envelope of smin, the mirror image of pass 2 but for the check line it keeps. */
    method PassMin() returns (avail: nat, found: bool, saveMax: Line, ghost chain: seq<nat>)
      requires Valid() && Ordered()
      modifies minseg
      ensures 1 <= avail == |chain| <= RING_SIZE && chain[avail - 1] == RING_SIZE - 1
      ensures MinSound(minseg[..], chain, Times(d[..], rp), Values(d[..], rp, false), Values(d[..], rp, true), found,
        saveMax)
    {
      hide Times;
      hide Values;
      hide MinSound;
      hide Joins;
      hide Extreme;
      hide Increasing;
      ghost var t, lo, hi := Times(d[..], rp), Values(d[..], rp, false), Values(d[..], rp, true);
      found := false;
      saveMax := Line(0.0, 0.0);
      var lastSlope := 2.0 * MAX_CORRECT;
      var c, j := 1, NextUp(rp);
      PlaceNext(rp, 0);
      chain := [0];
      MinStarts(minseg[..], t, lo, hi, saveMax);
      hide Place;
      while true
        invariant 1 <= c == |chain| < RING_SIZE
        invariant chain[c - 1] < RING_SIZE - 1 && j == Place(rp, chain[c - 1])
        invariant lastSlope == if c == 1 then 2.0 * MAX_CORRECT else minseg[c - 1].slope
        invariant MinSound(minseg[..], chain, t, lo, hi, found, saveMax)
        decreases RING_SIZE - c
      {
        ghost var k := chain[c - 1];
        ghost var segs := minseg[..];
        var nextj, seg, n, check;
        ghost var m, m';
        nextj, seg, m := Search(j, false, false, true, k);
        n, check, m' := Search(j, true, false, false, k);
        MinRound(segs, chain, t, lo, hi, found, saveMax, seg, check, m, m');
        if check.slope > seg.slope && check.slope < lastSlope && (!found || check.slope < saveMax.slope) {
          found := true;
          saveMax := check;
        }
        PlaceNewest(rp, m);
        minseg[c] := seg;
        assert minseg[..] == segs[c := seg];
        lastSlope := seg.slope;
        chain := chain + [m];
        c := c + 1;
        if nextj == rp {
          break;
        }
        j := nextj;
      }
      avail := c;
    }

    /** Pass 1: put each error bar where it would be had the frequency always been `freq`. */
    method Correct(freq: int)
      requires Valid()
      modifies d
      ensures forall k :: 0 <= k < RING_SIZE ==> d[Place(rp, k)] == Corrected(old(d[..]), rp, freq, k)
    {
      hide Wander;
      hide Drift;
      hide Corrected;
      hide Centered;
      PlaceDistinct(rp);
      hide Place;
      ghost var was := d[..];
      DriftNewest(was, rp, freq);
      var cum := 0.0;
      var j := rp;
      ghost var k := RING_SIZE - 1;
      while true
        invariant 0 <= k < RING_SIZE && j == Place(rp, k)
        invariant cum == Drift(was, rp, freq, k)
        invariant forall i :: k < i < RING_SIZE ==> d[Place(rp, i)] == Corrected(was, rp, freq, i)
        invariant forall i :: 0 <= i <= k ==> d[Place(rp, i)] == was[Place(rp, i)]
        decreases k
      {
        CorrectedIs(was, rp, freq, k, cum);
        d[j] := Centered(d[j], cum);
        var n := NextDn(j);
        PlaceBack(rp, k);
        if n == rp {
          break;
        }
        WanderReads(d[j], was[j], d[n], freq);
        cum := cum + Wander(d[j], d[n], freq);
        j := n;
        k := k - 1;
      }
    }

    constructor ()
      ensures Valid() && valid == 0 && fresh(d) && fresh(maxseg) && fresh(minseg)
    {
      d := new Datum[RING_SIZE](i => Datum(0, 0.0, 0.0, 0, 0.0, 0.0));
      maxseg := new Line[RING_SIZE + 1](i => Line(0.0, 0.0));
      minseg := new Line[RING_SIZE + 1](i => Line(0.0, 0.0));
      rp, valid := 0, 0;
    }

    /** Records a measurement in the oldest slot. */
    method Record(datum: Datum)
      requires Valid()
      modifies d, `valid
      ensures Valid() && d[..] == old(d[..])[rp := datum]
      ensures valid == if old(valid) < RING_SIZE then old(valid) + 1 else RING_SIZE
      ensures History(d[..], rp) == History(old(d[..]), NextDn(rp))[1..] + [Raw(datum)]
    {
      ghost var was := d[..];
      d[rp] := datum;
      if valid < RING_SIZE {
        valid := valid + 1;
      }
      Shift(was, rp, datum);
    }

    /** The slot after the newest measurement is the oldest one. */
    method Advance()
      requires Valid()
      modifies `rp
      ensures Valid() && NextDn(rp) == old(rp)
    {
      rp := (rp + 1) % RING_SIZE;
    }

    /** Passes 1 to 3 on a full ring.  If some line is consistent with every corrected error bar, the two lines
        handed on to pass 4 are the consistent lines of least and of greatest slope. */
    method Envelopes(freq: int)
        returns (maxAvail: nat, minAvail: nat, foundMin: bool, saveMin: Line, foundMax: bool, saveMax: Line,
                 ghost maxChain: seq<nat>, ghost minChain: seq<nat>)
      requires Valid() && valid == RING_SIZE && Ordered()
      modifies d, maxseg, minseg
      ensures forall k :: 0 <= k < RING_SIZE ==> d[Place(rp, k)] == Corrected(old(d[..]), rp, freq, k)
      ensures 1 <= maxAvail <= RING_SIZE && 1 <= minAvail <= RING_SIZE
      ensures maxAvail == |maxChain| && minAvail == |minChain|
      ensures maxChain[maxAvail - 1] == RING_SIZE - 1 && minChain[minAvail - 1] == RING_SIZE - 1
      ensures PassSound(maxseg[..], maxChain, Times(d[..], rp), Values(d[..], rp, false), Values(d[..], rp, true),
        foundMin, saveMin, true)
      ensures MinSound(minseg[..], minChain, Times(d[..], rp), Values(d[..], rp, false), Values(d[..], rp, true),
        foundMax, saveMax)
      ensures forall other: Line :: Consistent(other, Times(d[..], rp), Values(d[..], rp, false),
        Values(d[..], rp, true)) ==>
        && (foundMin ==>
              && saveMin.slope <= other.slope
              && Consistent(saveMin, Times(d[..], rp), Values(d[..], rp, false), Values(d[..], rp, true)))
        && (foundMax ==>
              && other.slope <= saveMax.slope
              && Consistent(saveMax, Times(d[..], rp), Values(d[..], rp, false), Values(d[..], rp, true)))
    {
      hide Rise;
      hide Increasing;
      hide Consistent;
      hide LowerChain;
      hide Crossing;
      hide Picked;
      ghost var was := d[..];
      Correct(freq);
      TimesKept(was, d[..], rp, freq);
      hide Times;
      hide Values;
      hide Corrected;
      ghost var t, lo, hi := Times(d[..], rp), Values(d[..], rp, false), Values(d[..], rp, true);
      maxAvail, foundMin, saveMin, maxChain := PassMax();
      minAvail, foundMax, saveMax, minChain := PassMin();
      forall other: Line | Consistent(other, t, lo, hi) ensures
        && (foundMin ==> saveMin.slope <= other.slope && Consistent(saveMin, t, lo, hi))
        && (foundMax ==> other.slope <= saveMax.slope && Consistent(saveMax, t, lo, hi))
      {
        if foundMin {
          CrossingIsExtreme(saveMin, t, lo, hi, other);
        }
        if foundMax {
          MirroredCrossingIsExtreme(saveMax, t, lo, hi, other);
        }
      }
    }
  }
}
