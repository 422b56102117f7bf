/**
 * Which number a numeral stands for: sign, whole digits, fraction and exponent, as section 6 of RFC 8259 writes them.
 */
module JsonNumbers {
  import opened JsonText
  import opened JsonSyntax
  import opened JsonRoundTrip

  function Ones(c: char): nat
    requires IsDigit(c)
  {
    c as int - 48
  }

  /** Digits in front of the point: each is worth ten times what it would be one place further on. */
  function WholeOf(d: string): nat
    requires AllDigits(d)
  {
    if d == "" then 0 else 10 * WholeOf(d[..|d| - 1]) + Ones(d[|d| - 1])
  }

  /** Digits behind the point: each is worth a tenth of what it would be one place before. */
  function FractionOf(d: string): real
    requires AllDigits(d)
  {
    if d == "" then 0.0 else (Ones(d[0]) as real + FractionOf(d[1..])) / 10.0
  }

  /** A number with its point moved e places. */
  function Moved(x: real, e: int): real
    decreases if e < 0 then -e else e
  {
    if e == 0 then x else if e > 0 then 10.0 * Moved(x, e - 1) else Moved(x, e + 1) / 10.0
  }

  /** A numeral; without a fraction or an exponent these are empty. */
  datatype Numeral = Numeral(neg: bool, whole: string, fraction: string, mark: char, sign: string, exponent: string) {
    predicate Valid() {
      && AllDigits(whole) && whole != "" && (whole[0] == '0' ==> |whole| == 1)
      && AllDigits(fraction) && AllDigits(exponent) && mark in "eE" && sign in {"", "+", "-"}
    }

    function Minus(): string { if neg then "-" else "" }

    function Point(): string { if fraction == "" then "" else "." + fraction }

    function Power(): string { if exponent == "" then "" else [mark] + sign + exponent }

    function Text(): string { Minus() + (whole + (Point() + Power())) }

    function Value(): real
      requires Valid()
    {
      var e: int := WholeOf(exponent);
      var x := Moved(WholeOf(whole) as real + FractionOf(fraction), if sign == "-" then -e else e);
      if neg then -x else x
    }
  }

  // ------------------------------------------------------------------ digits

  lemma {:induction false} ValueIsWhole(d: string)
    requires AllDigits(d)
    ensures ValueOf(d, 0) == WholeOf(d)
    decreases |d|
  {
    if d != "" {
      var front := d[..|d| - 1];
      assert d == front + [d[|d| - 1]];
      ValueOfAppend(front, d[|d| - 1], 0);
      ValueIsWhole(front);
    }
  }

  lemma PowNext(m: int)
    ensures Pow10(m + 1) == 10.0 * Pow10(m)
  {
  }

  /** Digits read on behind the point, and the point moved back over them. */
  lemma {:induction false} FractionRead(n: nat, d: string)
    requires AllDigits(d)
    ensures ValueOf(d, n) as real * Pow10(-|d|) == n as real + FractionOf(d)
    decreases |d|
  {
    if d == "" {
      assert Pow10(0) == 1.0;
    } else {
      var m, rest := n * 10 + Ones(d[0]), d[1..];
      FractionRead(m, rest);
      PowNext(-|d|);
      assert -|d| + 1 == -|rest|;
      FractionStep(n, Ones(d[0]), ValueOf(rest, m) as real, Pow10(-|d|), FractionOf(rest));
    }
  }

  lemma FractionStep(n: nat, digit: nat, x: real, p: real, y: real)
    requires x * (10.0 * p) == (n * 10 + digit) as real + y
    ensures x * p == n as real + (digit as real + y) / 10.0
  {
    Tenth(x, 10.0 * p, p, (n * 10 + digit) as real + y);
    assert (n * 10 + digit) as real == 10.0 * n as real + digit as real;
  }

  lemma Tenth(x: real, q: real, p: real, y: real)
    requires q == 10.0 * p && x * q == y
    ensures x * p == y / 10.0
  {
    assert x * (10.0 * p) == 10.0 * (x * p);
  }

  function Times(x: real, p: real): real { x * p }

  lemma MovedUp(x: real, p: real, y: real, e: int)
    requires e > 0 && Times(x, p) == Moved(y, e - 1)
    ensures Times(x, 10.0 * p) == Moved(y, e)
  {
    assert x * (10.0 * p) == 10.0 * (x * p);
  }

  lemma MovedDown(x: real, p: real, y: real, e: int)
    requires e < 0 && Times(x, 10.0 * p) == Moved(y, e + 1)
    ensures Times(x, p) == Moved(y, e)
  {
    Tenth(x, 10.0 * p, p, Moved(y, e + 1));
  }

  lemma {:induction false} MovedIs(x: real, a: int, e: int, y: real)
    requires y == Times(x, Pow10(a))
    ensures Times(x, Pow10(a + e)) == Moved(y, e)
    decreases if e < 0 then -e else e
  {
    hide Times;
    if e > 0 {
      MovedIs(x, a, e - 1, y);
      PowNext(a + e - 1);
      MovedUp(x, Pow10(a + e - 1), y, e);
    } else if e < 0 {
      MovedIs(x, a, e + 1, y);
      PowNext(a + e);
      MovedDown(x, Pow10(a + e), y, e);
    }
  }

  // ------------------------------------------------------------------ the parts of a numeral

  /** Where the parts of a numeral are. */
  lemma Parts(t: string, i: nat, n: Numeral) returns (w: nat, f: nat, e: nat)
    requires n.Valid() && Here(t, i, n.Text()) && Ends(At(t, i + |n.Text()|))
    ensures w == i + |n.Minus()| && f == w + |n.whole| && e == f + |n.Point()| && e + |n.Power()| == i + |n.Text()|
    ensures (At(t, i) == '-') == n.neg
    ensures Here(t, w, n.whole) && Here(t, f, n.Point()) && Here(t, e, n.Power())
    ensures At(t, w) == n.whole[0] && !IsDigit(At(t, f)) && !IsDigit(At(t, e))
    ensures n.fraction == "" ==> At(t, f) != '.'
    ensures n.exponent == "" ==> Ends(At(t, e))
  {
    hide Here;
    hide At;
    w, f, e := i + |n.Minus()|, i + |n.Minus()| + |n.whole|, i + |n.Minus()| + |n.whole| + |n.Point()|;
    HereSplit(t, i, n.Minus(), n.whole + (n.Point() + n.Power()));
    HereSplit(t, w, n.whole, n.Point() + n.Power());
    HereSplit(t, f, n.Point(), n.Power());
    HereFirst(t, i, n.Minus());
    HereFirst(t, w, n.whole);
    HereFirst(t, f, n.Point());
    HereFirst(t, e, n.Power());
  }

  lemma DigitsAreWhole(t: string, i: nat, d: string)
    requires AllDigits(d) && Here(t, i, d) && !IsDigit(At(t, i + |d|))
    ensures ReadDigits(t, i, 0) == (WholeOf(d), i + |d|)
  {
    ValueIsWhole(d);
    DigitsAreRead(t, i, d, 0);
    hide ReadDigits;
    hide Here;
    hide At;
  }

  /** The whole digits, a zero in front included. */
  lemma WholeRead(t: string, w: nat, d: string)
    requires AllDigits(d) && d != "" && (d[0] == '0' ==> |d| == 1)
    requires Here(t, w, d) && At(t, w) == d[0] && !IsDigit(At(t, w + |d|))
    ensures var i2 := if At(t, w) == '0' then w + 1 else w;
      (if '1' <= At(t, i2) <= '9' then ReadDigits(t, i2, 0) else (0, i2)) == (WholeOf(d), w + |d|)
  {
    ValueIsWhole(d);
    DigitsAreRead(t, w, d, 0);
    hide ReadDigits;
    if d[0] == '0' {
      assert d[..0] == "";
      assert WholeOf(d) == 0;
    }
  }

  lemma PointRead(t: string, f: nat, d: string, n: nat)
    requires AllDigits(d) && Here(t, f, if d == "" then "" else "." + d) && (d == "" ==> At(t, f) != '.')
    requires !IsDigit(At(t, f + if d == "" then 0 else 1 + |d|))
    ensures (if At(t, f) == '.' && IsDigit(At(t, f + 1)) then ReadDigits(t, f + 1, n) else (n, f))
      == (ValueOf(d, n), f + if d == "" then 0 else 1 + |d|)
  {
    if d != "" {
      HereSplit(t, f, ".", d);
      HereFirst(t, f, ".");
      HereFirst(t, f + 1, d);
      DigitsAreRead(t, f + 1, d, n);
      hide ReadDigits;
    }
  }

  /** Where the parts of an exponent are. */
  lemma PowerParts(t: string, e: nat, n: Numeral)
    requires n.Valid() && n.exponent != "" && Here(t, e, n.Power())
    ensures (At(t, e) == 'e' || At(t, e) == 'E') && |n.Power()| == 1 + |n.sign| + |n.exponent|
    ensures At(t, e + 1) == '-' <==> n.sign == "-"
    ensures |n.sign| == if At(t, e + 1) == '+' || At(t, e + 1) == '-' then 1 else 0
    ensures Here(t, e + 1 + |n.sign|, n.exponent)
  {
    hide Here;
    hide At;
    assert n.Power() == [n.mark] + (n.sign + n.exponent);
    HereSplit(t, e, [n.mark], n.sign + n.exponent);
    HereSplit(t, e + 1, n.sign, n.exponent);
    HereFirst(t, e, [n.mark]);
    HereFirst(t, e + 1, n.sign);
    HereFirst(t, e + 1 + |n.sign|, n.exponent);
  }

  lemma NoPower(t: string, e: nat, n: Numeral)
    requires n.Valid() && n.exponent == "" && Ends(At(t, e))
    ensures At(t, e) != 'e' && At(t, e) != 'E' && WholeOf(n.exponent) == 0 && |n.Power()| == 0
  {
  }

  /** A numeral in a text is read as the number it stands for, and all of it is consumed. */
  lemma NumeralRead(t: string, i: nat, n: Numeral)
    requires n.Valid() && Here(t, i, n.Text()) && Ends(At(t, i + |n.Text()|))
    ensures ParseNumber(t, i) == Ok(Number(n.Value()), i + |n.Text()|)
  {
    hide Here;
    hide At;
    hide ReadDigits;
    hide WholeOf;
    hide FractionOf;
    hide ValueOf;
    hide Moved;
    var w, f, e := Parts(t, i, n);
    WholeRead(t, w, n.whole);
    PointRead(t, f, n.fraction, WholeOf(n.whole));
    if n.exponent == "" {
      NoPower(t, e, n);
    } else {
      PowerParts(t, e, n);
      DigitsAreWhole(t, e + 1 + |n.sign|, n.exponent);
    }
    NumeralScaled(n);
    hide Scaled;
  }

  /** Sign, digits and point put together. */
  lemma NumeralScaled(n: Numeral)
    requires n.Valid()
    ensures var e: int := WholeOf(n.exponent);
      Scaled(n.neg, ValueOf(n.fraction, WholeOf(n.whole)), -|n.fraction| + (if n.sign == "-" then -e else e))
      == n.Value()
  {
    hide Pow10;
    hide Moved;
    hide WholeOf;
    hide ValueOf;
    hide FractionOf;
    var power: int := WholeOf(n.exponent);
    var e, m := if n.sign == "-" then -power else power, ValueOf(n.fraction, WholeOf(n.whole));
    FractionRead(WholeOf(n.whole), n.fraction);
    MovedIs(m as real, -|n.fraction|, e, WholeOf(n.whole) as real + FractionOf(n.fraction));
    Signed(m as real, Pow10(-|n.fraction| + e));
  }

  lemma Signed(x: real, p: real)
    ensures -1.0 * x * p == -(x * p) && 1.0 * x * p == x * p
  {
  }
}
