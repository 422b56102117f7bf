/** Powers of two, and the bit-smearing round-up the print buffer grows by. */
module Bits {
  function Pow2(k: nat): (r: nat)
    ensures r > 0
  {
    if k == 0 then 1 else 2 * Pow2(k - 1)
  }

  /** Bitwise or. */
  function Or(a: nat, b: nat): nat {
    if a == 0 && b == 0 then 0
    else 2 * Or(a / 2, b / 2) + (if a % 2 == 1 || b % 2 == 1 then 1 else 0)
  }

  /** Right shift. */
  function Shr(x: nat, n: nat): nat {
    if n == 0 then x else Shr(x / 2, n - 1)
  }

  /** The top n of p bits are set (all of them when n >= p), and no bit above. */
  predicate TopSet(x: nat, p: nat, n: nat) {
    if p == 0 then x == 0
    else if p <= n then x % 2 == 1 && TopSet(x / 2, p - 1, n)
    else TopSet(x / 2, p - 1, n)
  }

  lemma {:induction false} ShrHalf(x: nat, n: nat)
    ensures Shr(x, n) / 2 == Shr(x / 2, n)
  {
    if n > 0 {
      ShrHalf(x / 2, n - 1);
    }
  }

  lemma {:induction false} ShrTop(x: nat, p: nat, n: nat, i: nat)
    requires TopSet(x, p, n)
    ensures p - n <= i < p ==> Shr(x, i) % 2 == 1
    ensures i >= p ==> Shr(x, i) == 0
  {
    if p == 0 {
      if i > 0 {
        ShrTop(x, p, n, i - 1);
        ShrHalf(x, i - 1);
      }
    } else if i > 0 {
      ShrTop(x / 2, p - 1, n, i - 1);
    }
  }

  /** Or-ing a number with itself shifted by n doubles the run of set top bits. */
  lemma {:induction false} Smear(x: nat, p: nat, n: nat)
    requires TopSet(x, p, n)
    ensures TopSet(Or(x, Shr(x, n)), p, 2 * n)
    decreases p
  {
    hide Shr;
    hide Or;
    ShrTop(x, p, n, n);
    OrStep(x, Shr(x, n));
    if p > 0 {
      ShrHalf(x, n);
      Smear(x / 2, p - 1, n);
    }
  }

  lemma OrStep(a: nat, b: nat)
    ensures Or(a, b) / 2 == Or(a / 2, b / 2) && (Or(a, b) % 2 == 1 <==> a % 2 == 1 || b % 2 == 1)
    ensures a == b == 0 ==> Or(a, b) == 0
  {
  }

  lemma {:induction false} AllSet(x: nat, p: nat, n: nat)
    requires TopSet(x, p, n) && p <= n
    ensures x == Pow2(p) - 1
    decreases p
  {
    if p > 0 {
      AllSet(x / 2, p - 1, n);
    }
  }

  /** The number of bits of x, and that its top one is set. */
  lemma {:induction false} TopBit(x: nat, k: nat) returns (p: nat)
    requires x < Pow2(k)
    ensures p <= k && TopSet(x, p, 1) && x < Pow2(p) && (p > 0 ==> Pow2(p - 1) <= x)
  {
    if x == 0 {
      p := 0;
    } else {
      p := TopBit(x / 2, k - 1);
      p := p + 1;
    }
  }

  /** pow2gt: the least power of two that is not below x. */
  method Pow2Gt(x: nat) returns (r: nat, ghost k: nat)
    requires 1 <= x <= Pow2(30)
    ensures r == Pow2(k) && x <= r && (k > 0 ==> Pow2(k - 1) < x)
  {
    hide Or;
    hide Shr;
    hide TopSet;
    var y := x - 1;
    k := TopBit(y, 30);
    Smear(y, k, 1);
    y := Or(y, Shr(y, 1));
    Smear(y, k, 2);
    y := Or(y, Shr(y, 2));
    Smear(y, k, 4);
    y := Or(y, Shr(y, 4));
    Smear(y, k, 8);
    y := Or(y, Shr(y, 8));
    Smear(y, k, 16);
    y := Or(y, Shr(y, 16));
    AllSet(y, k, 32);
    r := y + 1;
  }
}
