/** Lines under a set of points given in order of time, and how a chain of least slopes wraps them. */
module Envelope {

  /** A line by its slope and its value at the last time, as the phase lock stores it. */
  datatype Line = Line(slope: real, offset: real)

  predicate Increasing(t: seq<real>) { forall i, j :: 0 <= i < j < |t| ==> t[i] < t[j] }

  /** How far a line of that slope climbs in the time dt. */
  function Rise(slope: real, dt: real): real { slope * dt }

  function At(l: Line, t: seq<real>, k: nat): real
    requires k < |t|
  {
    l.offset - Rise(l.slope, t[|t| - 1] - t[k])
  }

  predicate Touches(l: Line, t: seq<real>, y: seq<real>, k: nat)
    requires |t| == |y| && k < |t|
  {
    At(l, t, k) == y[k]
  }

  /** The line is at or below every point. */
  predicate Below(l: Line, t: seq<real>, y: seq<real>)
    requires |t| == |y|
  {
    forall k :: 0 <= k < |t| ==> At(l, t, k) <= y[k]
  }

  predicate Above(l: Line, t: seq<real>, y: seq<real>)
    requires |t| == |y|
  {
    forall k :: 0 <= k < |t| ==> At(l, t, k) >= y[k]
  }

  /** The values mirrored in the time axis; turns upper envelopes into lower ones. */
  function Mirror(y: seq<real>): (r: seq<real>)
    ensures |r| == |y| && forall k :: 0 <= k < |y| ==> r[k] == -y[k]
  {
    seq(|y|, i requires 0 <= i < |y| => -y[i])
  }

  function MirrorLine(l: Line): Line { Line(-l.slope, -l.offset) }

  lemma MirrorAt(l: Line, t: seq<real>, k: nat)
    requires k < |t|
    ensures At(MirrorLine(l), t, k) == -At(l, t, k)
  {
    var d := t[|t| - 1] - t[k];
    assert (-l.slope) * d == -(l.slope * d);
  }

  lemma MirrorBelow(l: Line, t: seq<real>, y: seq<real>)
    requires |t| == |y|
    ensures Below(MirrorLine(l), t, Mirror(y)) <==> Above(l, t, y)
  {
    hide Rise;
    forall k | 0 <= k < |t| ensures At(MirrorLine(l), t, k) == -At(l, t, k) {
      MirrorAt(l, t, k);
    }
  }

  lemma Difference(l: Line, t: seq<real>, i: nat, j: nat)
    requires i < |t| && j < |t|
    ensures At(l, t, j) - At(l, t, i) == Rise(l.slope, t[j] - t[i])
  {
    var e := t[|t| - 1];
    assert l.slope * (e - t[i]) - l.slope * (e - t[j]) == l.slope * (t[j] - t[i]);
  }

  /** The steeper of two lines climbs at least as far. */
  lemma Climbs(a: real, b: real, dt: real)
    requires a <= b && dt >= 0.0
    ensures Rise(a, dt) <= Rise(b, dt)
  {
    assert (b - a) * dt >= 0.0;
  }

  lemma ClimbsBack(a: real, b: real, dt: real)
    requires Rise(a, dt) <= Rise(b, dt) && dt > 0.0
    ensures a <= b
  {
    assert a > b ==> (a - b) * dt > 0.0;
  }

  /** A line through j that rises no faster than every later point, and no slower than a line already known
      to be below the earlier points and to meet j from below, is below all of them. */
  lemma StaysBelow(l: Line, t: seq<real>, y: seq<real>, j: nat, before: Line)
    requires |t| == |y| && Increasing(t) && j < |t| && Touches(l, t, y, j)
    requires forall k :: j < k < |t| ==> Rise(l.slope, t[k] - t[j]) <= y[k] - y[j]
    requires j > 0 ==> before.slope <= l.slope && Touches(before, t, y, j) && Below(before, t, y)
    ensures Below(l, t, y)
  {
    hide Rise;
    forall k | 0 <= k < |t| ensures At(l, t, k) <= y[k] {
      Difference(l, t, j, k);
      if k < j {
        Difference(before, t, k, j);
        Difference(l, t, k, j);
        Climbs(before.slope, l.slope, t[j] - t[k]);
      }
    }
  }

  /** The next segment of the chain, from j to k', is steeper than the last one. */
  lemma Steeper(l: Line, t: seq<real>, y: seq<real>, j: nat, k': nat, before: Line)
    requires |t| == |y| && Increasing(t) && j < k' < |t|
    requires Touches(l, t, y, j) && Touches(l, t, y, k') && Touches(before, t, y, j) && Below(before, t, y)
    ensures before.slope <= l.slope
  {
    hide Rise;
    Difference(l, t, j, k');
    Difference(before, t, j, k');
    ClimbsBack(before.slope, l.slope, t[k'] - t[j]);
  }

  /**
   * Segments seg[1..] of a chain of points: consecutive chain points are joined, no point is under a segment, slopes do
   * not fall.
   */
  ghost predicate LowerChain(seg: seq<Line>, chain: seq<nat>, t: seq<real>, y: seq<real>)
    requires |t| == |y|
  {
    && 0 < |chain| <= |seg|
    && chain[0] == 0
    && (forall i :: 0 <= i < |chain| ==> chain[i] < |t|)
    && (forall i, j :: 0 <= i < j < |chain| ==> chain[i] < chain[j])
    && (forall c :: 1 <= c < |chain| ==>
      Touches(seg[c], t, y, chain[c - 1]) && Touches(seg[c], t, y, chain[c]) && Below(seg[c], t, y))
    && (forall c, e :: 1 <= c <= e < |chain| ==> seg[c].slope <= seg[e].slope)
  }

  /** The lower convex envelope: such a chain from the oldest point to the newest. */
  ghost predicate LowerEnvelope(seg: seq<Line>, chain: seq<nat>, t: seq<real>, y: seq<real>)
    requires |t| == |y| && |t| > 0
  {
    LowerChain(seg, chain, t, y) && chain[|chain| - 1] == |t| - 1
  }

  lemma ChainGrows(seg: seq<Line>, chain: seq<nat>, t: seq<real>, y: seq<real>, l: Line, k': nat)
    requires |t| == |y| && Increasing(t) && LowerChain(seg, chain, t, y) && |chain| < |seg|
    requires chain[|chain| - 1] < k' < |t|
    requires Touches(l, t, y, chain[|chain| - 1]) && Touches(l, t, y, k')
    requires forall k :: chain[|chain| - 1] < k < |t| ==>
      Rise(l.slope, t[k] - t[chain[|chain| - 1]]) <= y[k] - y[chain[|chain| - 1]]
    ensures LowerChain(seg[|chain| := l], chain + [k'], t, y)
  {
    hide Rise;
    var c := |chain|;
    var j := chain[c - 1];
    if c > 1 {
      Steeper(l, t, y, j, k', seg[c - 1]);
      StaysBelow(l, t, y, j, seg[c - 1]);
    } else {
      StaysBelow(l, t, y, j, l);
    }
  }

  /** The line's value at any time x. */
  function Value(l: Line, t: seq<real>, x: real): real
    requires |t| > 0
  {
    l.offset - Rise(l.slope, t[|t| - 1] - x)
  }

  /** A line under another at two times is under it in between. */
  lemma Between(l: Line, m: Line, a: real, b: real, e: real, x: real)
    requires a <= x <= b
    requires l.offset - Rise(l.slope, e - a) <= m.offset - Rise(m.slope, e - a)
    requires l.offset - Rise(l.slope, e - b) <= m.offset - Rise(m.slope, e - b)
    ensures l.offset - Rise(l.slope, e - x) <= m.offset - Rise(m.slope, e - x)
  {
    var p, q := m.slope - l.slope, m.offset - l.offset;
    assert q - p * (e - x) - (q - p * (e - a)) == p * (x - a);
    assert q - p * (e - b) - (q - p * (e - x)) == p * (b - x);
    if p >= 0.0 {
      assert p * (x - a) >= 0.0;
    } else {
      assert p * (b - x) <= 0.0;
    }
  }

  /** No line under all the points is above the envelope anywhere on a segment: it is the greatest convex minorant. */
  lemma EnvelopeIsGreatest(seg: seq<Line>, chain: seq<nat>, t: seq<real>, y: seq<real>, c: nat, other: Line, x: real)
    requires |t| == |y| && Increasing(t) && LowerChain(seg, chain, t, y) && 1 <= c < |chain|
    requires Below(other, t, y)
    requires t[chain[c - 1]] <= x <= t[chain[c]]
    ensures Value(other, t, x) <= Value(seg[c], t, x)
  {
    var a, b := chain[c - 1], chain[c];
    Between(other, seg[c], t[a], t[b], t[|t| - 1], x);
  }

  // ------------------------------------------------------------------ lines between two curves

  /** The line passes between the two curves everywhere: it is consistent with every measurement. */
  predicate Consistent(l: Line, t: seq<real>, lo: seq<real>, hi: seq<real>)
    requires |t| == |lo| == |hi|
  {
    Above(l, t, lo) && Below(l, t, hi)
  }

  /** What a search for the crossing line at chain point j finds: it leaves hi at j, meets lo later, and is under hi. */
  ghost predicate Crossing(l: Line, t: seq<real>, lo: seq<real>, hi: seq<real>)
    requires |t| == |lo| == |hi|
  {
    exists j, n :: 0 <= j < n < |t| && CrossingAt(l, t, lo, hi, j, n)
  }

  predicate CrossingAt(l: Line, t: seq<real>, lo: seq<real>, hi: seq<real>, j: nat, n: nat)
    requires |t| == |lo| == |hi| && j < n < |t|
  {
    && Touches(l, t, hi, j) && Touches(l, t, lo, n) && Below(l, t, hi)
    && forall k :: j < k < |t| ==> lo[k] <= At(l, t, k)
  }

  lemma CrossingSlope(l: Line, t: seq<real>, lo: seq<real>, hi: seq<real>, other: Line, j: nat, n: nat)
    requires |t| == |lo| == |hi| && Increasing(t) && j < n < |t|
    requires Touches(l, t, hi, j) && Touches(l, t, lo, n) && Consistent(other, t, lo, hi)
    ensures l.slope <= other.slope
  {
    hide Rise;
    Difference(l, t, j, n);
    Difference(other, t, j, n);
    assert At(other, t, j) <= hi[j] && lo[n] <= At(other, t, n);
    ClimbsBack(l.slope, other.slope, t[n] - t[j]);
  }

  lemma CrossingAbove(l: Line, t: seq<real>, lo: seq<real>, hi: seq<real>, other: Line, j: nat, k: nat)
    requires |t| == |lo| == |hi| && Increasing(t) && k <= j < |t|
    requires Touches(l, t, hi, j) && Consistent(other, t, lo, hi) && l.slope <= other.slope
    ensures At(l, t, k) >= lo[k]
  {
    hide Rise;
    Difference(l, t, k, j);
    Difference(other, t, k, j);
    assert At(other, t, j) <= hi[j] && lo[k] <= At(other, t, k);
    if k < j {
      Climbs(l.slope, other.slope, t[j] - t[k]);
    }
  }

  /** If any line is consistent with the measurements, the crossing line is the consistent line of least slope. */
  lemma CrossingIsExtreme(l: Line, t: seq<real>, lo: seq<real>, hi: seq<real>, other: Line)
    requires |t| == |lo| == |hi| && Increasing(t) && Crossing(l, t, lo, hi) && Consistent(other, t, lo, hi)
    ensures Consistent(l, t, lo, hi) && l.slope <= other.slope
  {
    hide Rise;
    var j: nat, n: nat :| j < n < |t| && CrossingAt(l, t, lo, hi, j, n);
    CrossingSlope(l, t, lo, hi, other, j, n);
    forall k | 0 <= k < |t| ensures At(l, t, k) >= lo[k] {
      if k <= j {
        CrossingAbove(l, t, lo, hi, other, j, k);
      }
    }
  }

  lemma MirrorConsistent(l: Line, t: seq<real>, lo: seq<real>, hi: seq<real>)
    requires |t| == |lo| == |hi|
    ensures Consistent(MirrorLine(l), t, Mirror(hi), Mirror(lo)) <==> Consistent(l, t, lo, hi)
  {
    hide Rise;
    MirrorBelow(l, t, lo);
    MirrorBelow(MirrorLine(l), t, Mirror(hi));
    assert Mirror(Mirror(hi)) == hi && MirrorLine(MirrorLine(l)) == l;
  }

  /** The mirror image: the crossing line of the other sense is the consistent line of greatest slope. */
  lemma MirroredCrossingIsExtreme(l: Line, t: seq<real>, lo: seq<real>, hi: seq<real>, other: Line)
    requires |t| == |lo| == |hi| && Increasing(t) && Consistent(other, t, lo, hi)
    requires Crossing(MirrorLine(l), t, Mirror(hi), Mirror(lo))
    ensures Consistent(l, t, lo, hi) && other.slope <= l.slope
  {
    hide Rise;
    MirrorConsistent(other, t, lo, hi);
    CrossingIsExtreme(MirrorLine(l), t, Mirror(hi), Mirror(lo), MirrorLine(other));
    MirrorConsistent(l, t, lo, hi);
  }

  // ------------------------------------------------------------------ both crossing lines together

  /** What a crossing line of the other sense is, without the mirror. */
  lemma Unmirrored(l: Line, t: seq<real>, lo: seq<real>, hi: seq<real>) returns (j: nat, n: nat)
    requires |t| == |lo| == |hi| && Crossing(MirrorLine(l), t, Mirror(hi), Mirror(lo))
    ensures j < n < |t| && Touches(l, t, lo, j) && Touches(l, t, hi, n) && Above(l, t, lo)
    ensures forall k :: j < k < |t| ==> At(l, t, k) <= hi[k]
  {
    hide Rise;
    j, n :| 0 <= j < n < |t| && CrossingAt(MirrorLine(l), t, Mirror(hi), Mirror(lo), j, n);
    forall k | 0 <= k < |t| ensures At(MirrorLine(l), t, k) == -At(l, t, k) {
      MirrorAt(l, t, k);
    }
    MirrorBelow(l, t, lo);
  }

  /** A line that comes from below another one and ends above it is the steeper one. */
  lemma Overtakes(a: Line, b: Line, t: seq<real>, i: nat, k: nat)
    requires i < k < |t| && Increasing(t) && At(b, t, i) <= At(a, t, i) && At(a, t, k) <= At(b, t, k)
    ensures a.slope <= b.slope
    ensures At(b, t, i) < At(a, t, i) ==> a.slope < b.slope
  {
    hide Rise;
    Difference(a, t, i, k);
    Difference(b, t, i, k);
    ClimbsBack(a.slope, b.slope, t[k] - t[i]);
  }

  lemma NewestAt(l: Line, t: seq<real>)
    requires |t| > 0
    ensures At(l, t, |t| - 1) == l.offset
  {
  }

  lemma StaysAhead(a: Line, b: Line, t: seq<real>, n: nat)
    requires n < |t| && Increasing(t) && At(a, t, n) <= At(b, t, n) && a.slope <= b.slope
    ensures a.offset <= b.offset
  {
    hide Rise;
    NewestAt(a, t);
    NewestAt(b, t);
    Difference(a, t, n, |t| - 1);
    Difference(b, t, n, |t| - 1);
    Climbs(a.slope, b.slope, t[|t| - 1] - t[n]);
  }

  /** Where no error bar is negative, the two crossing lines are in order: each meets the later ends of the other. */
  lemma CrossingsMeet(a: Line, b: Line, t: seq<real>, lo: seq<real>, hi: seq<real>) returns (m: nat)
    requires |t| == |lo| == |hi| && Increasing(t) && Crossing(a, t, lo, hi)
      && Crossing(MirrorLine(b), t, Mirror(hi), Mirror(lo))
    requires forall k :: 0 <= k < |t| ==> lo[k] <= hi[k]
    ensures a.slope <= b.slope && a.offset <= b.offset
    ensures m < |t| && At(b, t, m) <= At(a, t, m)
    ensures forall k :: m < k < |t| ==> lo[k] <= At(a, t, k) && At(b, t, k) <= hi[k]
    ensures lo[m] <= At(a, t, m) && At(b, t, m) <= hi[m]
  {
    hide Rise;
    var j: nat, n: nat :| j < n < |t| && CrossingAt(a, t, lo, hi, j, n);
    var j', n' := Unmirrored(b, t, lo, hi);
    m := if j >= j' then j else j';
    Overtakes(a, b, t, m, if j >= j' then n else n');
    StaysAhead(a, b, t, if j >= j' then n else n');
  }

  /** And both are consistent: two crossing lines are found only if the measurements are consistent with each other. */
  lemma CrossingsAgree(a: Line, b: Line, t: seq<real>, lo: seq<real>, hi: seq<real>)
    requires |t| == |lo| == |hi| && Increasing(t) && Crossing(a, t, lo, hi)
      && Crossing(MirrorLine(b), t, Mirror(hi), Mirror(lo))
    requires forall k :: 0 <= k < |t| ==> lo[k] <= hi[k]
    ensures Consistent(a, t, lo, hi) && Consistent(b, t, lo, hi)
    ensures a.slope <= b.slope && a.offset <= b.offset
  {
    hide Rise;
    var m := CrossingsMeet(a, b, t, lo, hi);
    var j, n := Unmirrored(b, t, lo, hi);
    forall k | 0 <= k < |t| ensures lo[k] <= At(a, t, k) && At(b, t, k) <= hi[k] {
      if k < m && At(a, t, k) < At(b, t, k) {
        Overtakes(b, a, t, k, m);
      }
    }
  }

  /** There is only one consistent line of the slope of a crossing line. */
  lemma CrossingIsOnly(a: Line, t: seq<real>, lo: seq<real>, hi: seq<real>, l: Line)
    requires |t| == |lo| == |hi| && Crossing(a, t, lo, hi) && Consistent(l, t, lo, hi) && l.slope == a.slope
    ensures l == a
  {
    hide Rise;
    var j: nat, n: nat :| j < n < |t| && CrossingAt(a, t, lo, hi, j, n);
    assert At(l, t, j) <= hi[j] && lo[n] <= At(l, t, n);
  }
}
