/**
 * Exactly when the passes find the lines that bound the frequency, given that some line is consistent with the
 * measurements.
 */
module PhaseFound {
  import opened Envelope
  import opened PhaseLock

  // ------------------------------------------------------------------ every point but the newest has a check line

  lemma {:induction false} CheckUpTo(t: seq<real>, lo: seq<real>, hi: seq<real>, k: nat, end: nat)
    returns (l: Line, n: nat)
    requires |t| == |lo| == |hi| && Increasing(t) && k + 1 < end <= |t|
    ensures k < n < end && Joins(l, t, hi, lo, k, n) && Extreme(l, t, hi, lo, k, end, true)
    decreases end
  {
    hide Rise;
    hide Extreme;
    var i := end - 1;
    var slope := Quotient(lo[i] - hi[k], t[i] - t[k]);
    var line := Line(slope, lo[i] + Rise(slope, t[|t| - 1] - t[i]));
    LineThrough(line, t, hi, lo, k, i);
    if end == k + 2 {
      FirstOf(line, t, hi, lo, k, true);
      l, n := line, i;
    } else {
      l, n := CheckUpTo(t, lo, hi, k, i);
      BetterOf(l, line, t, hi, lo, k, i, true);
      if line.slope >= l.slope {
        l, n := line, i;
      }
    }
  }

  lemma CheckExists(t: seq<real>, lo: seq<real>, hi: seq<real>, k: nat) returns (l: Line)
    requires |t| == |lo| == |hi| && Increasing(t) && k + 1 < |t|
    ensures IsCheck(l, t, lo, hi, k)
  {
    var n;
    l, n := CheckUpTo(t, lo, hi, k, |t|);
    CheckFound(l, t, lo, hi, k, n);
  }

  // ------------------------------------------------------------------ when none is accepted

  /** An envelope segment is itself the check line of the point it starts at: the strict comparisons pass it over. */
  ghost predicate Grazes(segs: seq<Line>, chain: seq<nat>, t: seq<real>, lo: seq<real>, hi: seq<real>, c: nat)
    requires |t| == |lo| == |hi|
  {
    1 <= c < |chain| && c < |segs| && chain[c - 1] < |t| && IsCheck(segs[c], t, lo, hi, chain[c - 1])
  }

  /** The check line of the oldest point would do, but is beyond the limit. */
  ghost predicate Barred(segs: seq<Line>, t: seq<real>, lo: seq<real>, hi: seq<real>)
    requires |t| == |lo| == |hi| > 0
  {
    |segs| > 1 && exists l :: IsCheck(l, t, lo, hi, 0) && l.slope <= -2.0 * MAX_CORRECT && l.slope < segs[1].slope
  }

  /** Slopes and places along the chain. */
  lemma ChainFacts(segs: seq<Line>, chain: seq<nat>, t: seq<real>, hi: seq<real>, c: nat)
    requires |t| == |hi| && LowerChain(segs, chain, t, hi) && 1 <= c < |chain|
    ensures chain[c - 1] < chain[c] < |t| && Below(segs[c], t, hi)
    ensures Touches(segs[c], t, hi, chain[c - 1]) && Touches(segs[c], t, hi, chain[c])
    ensures c == 1 ==> chain[c - 1] == 0
  {
  }

  lemma FirstPlace(segs: seq<Line>, chain: seq<nat>, t: seq<real>, hi: seq<real>)
    requires |t| == |hi| && LowerChain(segs, chain, t, hi)
    ensures chain != [] && chain[0] == 0
  {
  }

  lemma SlopesRise(segs: seq<Line>, chain: seq<nat>, t: seq<real>, hi: seq<real>, c: nat, e: nat)
    requires |t| == |hi| && LowerChain(segs, chain, t, hi) && 1 <= c <= e < |chain|
    ensures segs[c].slope <= segs[e].slope
  {
  }

  /** A check line that is not accepted is steeper than its segment, unless one of the two exceptions applies. */
  lemma NotAccepted(segs: seq<Line>, chain: seq<nat>, t: seq<real>, lo: seq<real>, hi: seq<real>, c: nat, l: Line)
    requires |t| == |lo| == |hi| && LowerChain(segs, chain, t, hi) && 1 <= c < |chain|
    requires chain[c - 1] < |t| && IsCheck(l, t, lo, hi, chain[c - 1]) && !Accepts(segs, chain, t, lo, hi, c, l)
    requires !Grazes(segs, chain, t, lo, hi, c) && !Barred(segs, t, lo, hi)
    requires c > 1 ==> l.slope > segs[c - 1].slope
    ensures l.slope > segs[c].slope
  {
    hide Rise;
    hide Extreme;
    ChainFacts(segs, chain, t, hi, c);
    SameLine(l, segs[c], t, hi, chain[c - 1]);
  }

  lemma SameLine(l: Line, m: Line, t: seq<real>, y: seq<real>, k: nat)
    requires |t| == |y| && k < |t| && Touches(l, t, y, k) && Touches(m, t, y, k)
    ensures l.slope == m.slope ==> l == m
  {
  }

  /** Over a steeper check line the next one is steeper than the segment too, and there is a next one. */
  lemma NextSteeper(segs: seq<Line>, chain: seq<nat>, t: seq<real>, lo: seq<real>, hi: seq<real>, c: nat, l: Line,
                    other: Line)
    returns (next: Line)
    requires |t| == |lo| == |hi| && |t| > 0 && Increasing(t) && LowerEnvelope(segs, chain, t, hi) && 1 <= c < |chain|
    requires chain[c - 1] < |t| && IsCheck(l, t, lo, hi, chain[c - 1]) && l.slope > segs[c].slope
    requires Consistent(other, t, lo, hi)
    ensures c + 1 < |chain| && chain[c] < |t| && IsCheck(next, t, lo, hi, chain[c]) && next.slope > segs[c].slope
  {
    ChainFacts(segs, chain, t, hi, c);
    var k, k' := chain[c - 1], chain[c];
    var n :| k < n < |t| && Joins(l, t, hi, lo, k, n);
    AboveSegment(segs[c], l, t, lo, hi, k, n);
    hide Rise;
    if n <= k' {
      UnderSegment(segs[c], other, t, lo, hi, k, k', n);
    }
    next := CheckExists(t, lo, hi, k');
    Difference(segs[c], t, k', n);
    if next.slope <= segs[c].slope {
      Climbs(next.slope, segs[c].slope, t[n] - t[k']);
    }
  }

  lemma AboveSegment(seg: Line, l: Line, t: seq<real>, lo: seq<real>, hi: seq<real>, k: nat, n: nat)
    requires |t| == |lo| == |hi| && Increasing(t) && k < n < |t| && Joins(l, t, hi, lo, k, n)
    requires Touches(seg, t, hi, k) && l.slope > seg.slope
    ensures At(seg, t, n) < lo[n]
  {
    Difference(seg, t, k, n);
    Difference(l, t, k, n);
    assert (l.slope - seg.slope) * (t[n] - t[k]) > 0.0;
  }

  lemma UnderSegment(seg: Line, other: Line, t: seq<real>, lo: seq<real>, hi: seq<real>, k: nat, k': nat, n: nat)
    requires |t| == |lo| == |hi| && Increasing(t) && k < n <= k' < |t| && Consistent(other, t, lo, hi)
    requires Touches(seg, t, hi, k) && Touches(seg, t, hi, k')
    ensures lo[n] <= At(seg, t, n)
  {
    hide Rise;
    var e := t[|t| - 1];
    assert At(other, t, k) <= hi[k] == At(seg, t, k) && At(other, t, k') <= hi[k'] == At(seg, t, k');
    Between(other, seg, t[k], t[k'], e, t[n]);
    assert lo[n] <= At(other, t, n);
  }

  ghost predicate NoneAccepted(segs: seq<Line>, chain: seq<nat>, t: seq<real>, lo: seq<real>, hi: seq<real>)
    requires |t| == |lo| == |hi|
  {
    forall c: nat, l :: !Accepts(segs, chain, t, lo, hi, c, l)
  }

  ghost predicate NoneGrazes(segs: seq<Line>, chain: seq<nat>, t: seq<real>, lo: seq<real>, hi: seq<real>)
    requires |t| == |lo| == |hi|
  {
    forall c: nat :: !Grazes(segs, chain, t, lo, hi, c)
  }

  /** Going along the chain, a check line must be accepted before the newest point is reached. */
  lemma {:induction false} Unaccepted(segs: seq<Line>, chain: seq<nat>, t: seq<real>, lo: seq<real>, hi: seq<real>,
                                      c: nat, l: Line, other: Line)
    requires |t| == |lo| == |hi| && |t| > 0 && Increasing(t) && LowerEnvelope(segs, chain, t, hi) && 1 <= c < |chain|
    requires chain[c - 1] < |t| && IsCheck(l, t, lo, hi, chain[c - 1]) && (c > 1 ==> l.slope > segs[c - 1].slope)
    requires Consistent(other, t, lo, hi)
    requires NoneAccepted(segs, chain, t, lo, hi) && NoneGrazes(segs, chain, t, lo, hi) && !Barred(segs, t, lo, hi)
    ensures false
    decreases |chain| - c
  {
    hide IsCheck;
    hide Increasing;
    hide Consistent;
    hide Barred;
    assert !Accepts(segs, chain, t, lo, hi, c, l) && !Grazes(segs, chain, t, lo, hi, c);
    NotAccepted(segs, chain, t, lo, hi, c, l);
    var next := NextSteeper(segs, chain, t, lo, hi, c, l, other);
    Unaccepted(segs, chain, t, lo, hi, c + 1, next, other);
  }

  // ------------------------------------------------------------------ when one is

  /** A segment under all points rises no faster than any of them. */
  lemma SegmentIsLeast(seg: Line, t: seq<real>, hi: seq<real>, k: nat)
    requires |t| == |hi| && k < |t| && Touches(seg, t, hi, k) && Below(seg, t, hi)
    ensures Extreme(seg, t, hi, hi, k, |t|, false)
  {
    hide Rise;
    forall n | k < n < |t| ensures Rise(seg.slope, t[n] - t[k]) <= hi[n] - hi[k] {
      Difference(seg, t, k, n);
    }
  }

  lemma CheckCrosses(segs: seq<Line>, chain: seq<nat>, t: seq<real>, lo: seq<real>, hi: seq<real>, c: nat, l: Line)
    requires |t| == |lo| == |hi| && Increasing(t) && LowerChain(segs, chain, t, hi) && 1 <= c < |chain|
    requires chain[c - 1] < |t| && IsCheck(l, t, lo, hi, chain[c - 1]) && l.slope < segs[c].slope
    requires c > 1 ==> l.slope > segs[c - 1].slope
    ensures Crossing(l, t, lo, hi)
  {
    hide Rise;
    hide Extreme;
    ChainFacts(segs, chain, t, hi, c);
    SegmentIsLeast(segs[c], t, hi, chain[c - 1]);
    if c > 1 {
      ChainFacts(segs, chain, t, hi, c - 1);
    }
    var n: nat :| chain[c - 1] < n < |t| && Joins(l, t, hi, lo, chain[c - 1], n);
    hide LowerChain;
    CrossingFound(l, segs[c], segs[c - 1], t, lo, hi, chain[c - 1], n);
  }

  lemma GrazingCrosses(segs: seq<Line>, chain: seq<nat>, t: seq<real>, lo: seq<real>, hi: seq<real>, c: nat)
    requires |t| == |lo| == |hi| && LowerChain(segs, chain, t, hi) && Grazes(segs, chain, t, lo, hi, c)
    ensures Crossing(segs[c], t, lo, hi)
  {
    hide Rise;
    ChainFacts(segs, chain, t, hi, c);
    var k := chain[c - 1];
    var n: nat :| k < n < |t| && Joins(segs[c], t, hi, lo, k, n);
    forall i | k < i < |t| ensures lo[i] <= At(segs[c], t, i) {
      Difference(segs[c], t, k, i);
    }
    assert CrossingAt(segs[c], t, lo, hi, k, n);
  }

  lemma SameSlope(l: Line, m: Line, t: seq<real>, lo: seq<real>, hi: seq<real>, other: Line)
    requires |t| == |lo| == |hi| && Increasing(t) && Crossing(l, t, lo, hi) && Crossing(m, t, lo, hi)
      && Consistent(other, t, lo, hi)
    ensures l.slope == m.slope
  {
    hide Crossing;
    hide Consistent;
    CrossingIsExtreme(l, t, lo, hi, other);
    CrossingIsExtreme(m, t, lo, hi, l);
    CrossingIsExtreme(l, t, lo, hi, m);
  }

  /** An accepted check line excludes both exceptions. */
  lemma AcceptedExcludes(segs: seq<Line>, chain: seq<nat>, t: seq<real>, lo: seq<real>, hi: seq<real>, c: nat, l: Line,
                         other: Line)
    requires |t| == |lo| == |hi| && |t| > 0 && Increasing(t) && LowerChain(segs, chain, t, hi)
    requires Accepts(segs, chain, t, lo, hi, c, l) && Consistent(other, t, lo, hi)
    ensures NoneGrazes(segs, chain, t, lo, hi) && !Barred(segs, t, lo, hi)
  {
    hide IsCheck;
    hide Consistent;
    hide Crossing;
    hide LowerChain;
    CheckCrosses(segs, chain, t, lo, hi, c, l);
    forall e: nat ensures !Grazes(segs, chain, t, lo, hi, e) {
      if Grazes(segs, chain, t, lo, hi, e) {
        GrazingCrosses(segs, chain, t, lo, hi, e);
        SameSlope(l, segs[e], t, lo, hi, other);
        if c <= e {
          SlopesRise(segs, chain, t, hi, c, e);
        } else {
          SlopesRise(segs, chain, t, hi, e, c - 1);
        }
      }
    }
    if Barred(segs, t, lo, hi) {
      var m :| IsCheck(m, t, lo, hi, 0) && m.slope <= -2.0 * MAX_CORRECT && m.slope < segs[1].slope;
      FirstPlace(segs, chain, t, hi);
      CheckCrosses(segs, chain, t, lo, hi, 1, m);
      SameSlope(l, m, t, lo, hi, other);
      if c > 1 {
        SlopesRise(segs, chain, t, hi, 1, c - 1);
      }
    }
  }

  /**
   * On consistent measurements a pass finds its line exactly when no segment grazes a lower end and the limit bars
   * none.
   */
  lemma FoundOnChain(segs: seq<Line>, chain: seq<nat>, t: seq<real>, lo: seq<real>, hi: seq<real>, found: bool,
                     save: Line, least: bool, other: Line)
    requires |t| == |lo| == |hi| && |t| > 1 && Increasing(t) && LowerEnvelope(segs, chain, t, hi)
    requires Picked(segs, chain, t, lo, hi, found, save, least) && Consistent(other, t, lo, hi)
    ensures found <==> NoneGrazes(segs, chain, t, lo, hi) && !Barred(segs, t, lo, hi)
  {
    hide IsCheck;
    hide Consistent;
    hide Barred;
    if found {
      var c: nat :| Accepts(segs, chain, t, lo, hi, c, save);
      AcceptedExcludes(segs, chain, t, lo, hi, c, save, other);
    } else {
      assert NoneAccepted(segs, chain, t, lo, hi);
      assert |chain| > 1 && chain[0] == 0;
      var l := CheckExists(t, lo, hi, 0);
      if NoneGrazes(segs, chain, t, lo, hi) && !Barred(segs, t, lo, hi) {
        Unaccepted(segs, chain, t, lo, hi, 1, l, other);
      }
    }
  }

  // ------------------------------------------------------------------ the same, of the measurements alone

  /**
   * A line under all upper ends that touches two of them, and behind the first is over all lower ends and meets one.
   */
  ghost predicate GrazedAt(l: Line, t: seq<real>, lo: seq<real>, hi: seq<real>, j: nat, m: nat, n: nat)
    requires |t| == |lo| == |hi|
  {
    && j < m < |t| && Touches(l, t, hi, j) && Touches(l, t, hi, m) && Below(l, t, hi)
    && j < n < |t| && Touches(l, t, lo, n) && forall k :: j < k < |t| ==> lo[k] <= At(l, t, k)
  }

  ghost predicate Grazed(t: seq<real>, lo: seq<real>, hi: seq<real>)
    requires |t| == |lo| == |hi|
  {
    exists l, j, m, n :: GrazedAt(l, t, lo, hi, j, m, n)
  }

  /**
   * The steepest line from the oldest upper end to a later lower end is beyond the limit, and under all later upper
   * ends.
   */
  ghost predicate TooFlat(t: seq<real>, lo: seq<real>, hi: seq<real>)
    requires |t| == |lo| == |hi| > 0
  {
    exists l :: IsCheck(l, t, lo, hi, 0) && l.slope <= -2.0 * MAX_CORRECT && forall k :: 0 < k < |t| ==>
      At(l, t, k) < hi[k]
  }

  /** A line from the upper end at j rises faster than every later lower end exactly when it is over them. */
  lemma OverLater(l: Line, t: seq<real>, lo: seq<real>, hi: seq<real>, j: nat)
    requires |t| == |lo| == |hi| && j < |t| && Touches(l, t, hi, j)
    ensures Extreme(l, t, hi, lo, j, |t|, true) <==> forall k :: j < k < |t| ==> lo[k] <= At(l, t, k)
  {
    hide Rise;
    forall k | j < k < |t| ensures lo[k] - hi[j] <= Rise(l.slope, t[k] - t[j]) <==> lo[k] <= At(l, t, k) {
      Difference(l, t, j, k);
    }
  }

  lemma GrazesIsGrazed(segs: seq<Line>, chain: seq<nat>, t: seq<real>, lo: seq<real>, hi: seq<real>, c: nat)
    requires |t| == |lo| == |hi| && LowerChain(segs, chain, t, hi) && Grazes(segs, chain, t, lo, hi, c)
    ensures Grazed(t, lo, hi)
  {
    hide At;
    hide Extreme;
    hide Below;
    ChainFacts(segs, chain, t, hi, c);
    var k := chain[c - 1];
    var n: nat :| k < n < |t| && Joins(segs[c], t, hi, lo, k, n);
    OverLater(segs[c], t, lo, hi, k);
    assert GrazedAt(segs[c], t, lo, hi, k, chain[c], n);
  }

  /** The segment that starts at or before a point and ends behind it. */
  lemma {:induction false} Covering(segs: seq<Line>, chain: seq<nat>, t: seq<real>, hi: seq<real>, j: nat, e: nat)
    returns (c: nat)
    requires |t| == |hi| && LowerChain(segs, chain, t, hi) && 1 <= e < |chain| && j < chain[e]
    ensures 1 <= c <= e && chain[c - 1] <= j < chain[c]
    decreases e
  {
    if chain[e - 1] <= j {
      c := e;
    } else {
      c := Covering(segs, chain, t, hi, j, e - 1);
    }
  }

  /** A line under all upper ends that touches the upper ends j and m is the envelope's segment over j. */
  lemma GrazingIsSegment(seg: Line, l: Line, t: seq<real>, hi: seq<real>, a: nat, b: nat, j: nat, m: nat)
    requires |t| == |hi| && Increasing(t) && a <= j < b < |t| && j < m < |t|
    requires Touches(seg, t, hi, a) && Touches(seg, t, hi, b) && Below(seg, t, hi)
    requires Touches(l, t, hi, j) && Touches(l, t, hi, m) && Below(l, t, hi)
    ensures l == seg
  {
    hide Rise;
    Between(l, seg, t[a], t[b], t[|t| - 1], t[j]);
    assert At(l, t, j) <= At(seg, t, j);
    assert At(seg, t, m) <= At(l, t, m);
    Difference(l, t, j, m);
    Difference(seg, t, j, m);
    ClimbsBack(seg.slope, l.slope, t[m] - t[j]);
    Difference(l, t, j, b);
    Difference(seg, t, j, b);
    ClimbsBack(l.slope, seg.slope, t[b] - t[j]);
  }

  /**
   * Grazing shows on the envelope: the line is one of its segments, and the check line of the point where that starts.
   */
  lemma GrazedIsGrazes(segs: seq<Line>, chain: seq<nat>, t: seq<real>, lo: seq<real>, hi: seq<real>, l: Line, j: nat,
                       m: nat, n: nat, other: Line)
    requires |t| == |lo| == |hi| && |t| > 0 && Increasing(t) && LowerEnvelope(segs, chain, t, hi)
    requires GrazedAt(l, t, lo, hi, j, m, n) && Consistent(other, t, lo, hi)
    ensures !NoneGrazes(segs, chain, t, lo, hi)
  {
    hide Rise;
    var c := Covering(segs, chain, t, hi, j, |chain| - 1);
    var a, b := chain[c - 1], chain[c];
    GrazingIsSegment(segs[c], l, t, hi, a, b, j, m);
    forall k | a < k < |t| ensures lo[k] <= At(l, t, k) {
      if k <= j {
        UnderSegment(segs[c], other, t, lo, hi, a, b, k);
      }
    }
    OverLater(l, t, lo, hi, a);
    CheckFound(l, t, lo, hi, a, n);
    assert Grazes(segs, chain, t, lo, hi, c);
  }

  /** From a common point, the steeper line is over the other. */
  lemma FlatterIsUnder(a: Line, b: Line, t: seq<real>, i: nat, k: nat)
    requires i < k < |t| && Increasing(t) && At(a, t, i) == At(b, t, i)
    ensures a.slope < b.slope <==> At(a, t, k) < At(b, t, k)
  {
    hide Rise;
    Difference(a, t, i, k);
    Difference(b, t, i, k);
    if a.slope < b.slope {
      Climbs(a.slope, b.slope, t[k] - t[i]);
      if Rise(a.slope, t[k] - t[i]) == Rise(b.slope, t[k] - t[i]) {
        ClimbsBack(b.slope, a.slope, t[k] - t[i]);
      }
    } else {
      Climbs(b.slope, a.slope, t[k] - t[i]);
    }
  }

  /** The limit bars the check line of the oldest point: of the envelope, and of the measurements. */
  lemma BarredIsTooFlat(segs: seq<Line>, chain: seq<nat>, t: seq<real>, lo: seq<real>, hi: seq<real>)
    requires |t| == |lo| == |hi| && |t| > 1 && Increasing(t) && LowerEnvelope(segs, chain, t, hi)
    ensures Barred(segs, t, lo, hi) <==> TooFlat(t, lo, hi)
  {
    hide At;
    hide Extreme;
    FirstPlace(segs, chain, t, hi);
    ChainFacts(segs, chain, t, hi, 1);
    var b := chain[1];
    forall l | IsCheck(l, t, lo, hi, 0) ensures l.slope < segs[1].slope
      <==> forall k :: 0 < k < |t| ==> At(l, t, k) < hi[k] {
      FlatterIsUnder(l, segs[1], t, 0, b);
      if l.slope < segs[1].slope {
        forall k | 0 < k < |t| ensures At(l, t, k) < hi[k] {
          FlatterIsUnder(l, segs[1], t, 0, k);
        }
      }
    }
  }

  /** On consistent measurements a pass finds its line exactly when no line grazes them and the limit bars none. */
  lemma FoundExactly(segs: seq<Line>, chain: seq<nat>, t: seq<real>, lo: seq<real>, hi: seq<real>, found: bool,
                     save: Line, least: bool, other: Line)
    requires |t| == |lo| == |hi| && |t| > 1 && Increasing(t) && LowerEnvelope(segs, chain, t, hi)
    requires Picked(segs, chain, t, lo, hi, found, save, least) && Consistent(other, t, lo, hi)
    ensures found <==> !Grazed(t, lo, hi) && !TooFlat(t, lo, hi)
  {
    hide LowerChain;
    hide Picked;
    hide Consistent;
    hide Barred;
    hide TooFlat;
    hide Increasing;
    hide GrazedAt;
    hide Grazes;
    FoundOnChain(segs, chain, t, lo, hi, found, save, least, other);
    BarredIsTooFlat(segs, chain, t, lo, hi);
    if Grazed(t, lo, hi) {
      var l, j, m, n :| GrazedAt(l, t, lo, hi, j, m, n);
      GrazedIsGrazes(segs, chain, t, lo, hi, l, j, m, n, other);
    }
    if !NoneGrazes(segs, chain, t, lo, hi) {
      var c: nat :| Grazes(segs, chain, t, lo, hi, c);
      GrazesIsGrazed(segs, chain, t, lo, hi, c);
    }
  }

  /** Measurements without error that lie on one line are grazed by it, though it is consistent with them. */
  lemma ExactDataGrazed(l: Line, t: seq<real>, y: seq<real>)
    requires |t| == |y| && |t| > 1 && forall k :: 0 <= k < |t| ==> y[k] == At(l, t, k)
    ensures Consistent(l, t, y, y) && Grazed(t, y, y)
  {
    hide At;
    assert GrazedAt(l, t, y, y, 0, 1, 1);
  }

  /** Sixteen measurements without error, one second apart, are consistent, and the pass finds nothing. */
  lemma NothingFound(segs: seq<Line>, chain: seq<nat>, found: bool, save: Line, least: bool)
    requires var t, y := seq(RING_SIZE, i => i as real), seq(RING_SIZE, i => 0.0);
      LowerEnvelope(segs, chain, t, y) && Picked(segs, chain, t, y, y, found, save, least)
    ensures !found
  {
    var t, y := seq(RING_SIZE, i => i as real), seq(RING_SIZE, i => 0.0);
    var l := Line(0.0, 0.0);
    assert Increasing(t);
    ExactDataGrazed(l, t, y);
    FoundExactly(segs, chain, t, y, y, found, save, least, l);
  }
}
