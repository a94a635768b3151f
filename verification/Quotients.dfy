/** Facts about division by a variable. */
module Quotients {

  lemma MulMono(a: nat, b: nat, d: nat)
    requires a <= b
    ensures a * d <= b * d
  {
  }

  lemma QuotientBounds(x: nat, d: nat)
    requires d > 0
    ensures x / d * d <= x < (x / d + 1) * d
  {
  }

  lemma {:induction false} QuotientBelow(x: nat, q: nat, d: nat)
    requires d > 0
    ensures x / d < q <==> x < q * d
  {
    QuotientBounds(x, d);
    var k := x / d;
    if k < q {
      MulMono(k + 1, q, d);
    } else {
      MulMono(q, k, d);
    }
  }

  lemma {:induction false} QuotientIs(x: nat, q: nat, d: nat)
    requires d > 0 && q * d <= x < (q + 1) * d
    ensures x / d == q
  {
    QuotientBelow(x, q, d);
    QuotientBelow(x, q + 1, d);
  }

  lemma {:induction false} HalfQuotient(x: nat, d: nat)
    requires d > 0
    ensures x / d / 2 == x / (2 * d)
  {
    var q := x / d;
    var h := q / 2;
    QuotientBounds(x, d);
    MulMono(2 * h, q, d);
    MulMono(q + 1, 2 * h + 2, d);
    assert h * (2 * d) == 2 * h * d && (h + 1) * (2 * d) == (2 * h + 2) * d;
    QuotientIs(x, h, 2 * d);
  }

  lemma Remainder(x: nat, d: nat)
    requires d > 0
    ensures x % d == x - x / d * d
  {
  }

  lemma {:induction false} RemainderDoubled(x: nat, d: nat)
    requires d > 0
    ensures x % (2 * d) == x % d + if x / d % 2 == 1 then d else 0
  {
    var q := x / d;
    var h := q / 2;
    HalfQuotient(x, d);
    Remainder(x, d);
    Remainder(x, 2 * d);
    assert h * (2 * d) == 2 * h * d;
    assert q == if q % 2 == 1 then 2 * h + 1 else 2 * h;
  }

  lemma {:induction false} QuotientOfHalf(x: nat, d: nat)
    requires d > 0
    ensures x / 2 / d == x / (2 * d)
  {
    var h := x / 2;
    var q := h / d;
    QuotientBounds(h, d);
    assert q * (2 * d) == 2 * (q * d) && (q + 1) * (2 * d) == 2 * ((q + 1) * d);
    QuotientIs(x, q, 2 * d);
  }

  function Pow2(b: nat): (p: nat)
    ensures p > 0
  {
    if b == 0 then 1 else 2 * Pow2(b - 1)
  }

  lemma {:induction false} PowGrows(b: nat, c: nat)
    requires b <= c
    ensures Pow2(b) <= Pow2(c)
  {
    if b < c {
      PowGrows(b, c - 1);
    }
  }

  lemma PowFour()
    ensures Pow2(4) == 16
  {
  }

  lemma PowTen()
    ensures Pow2(10) == 1024
  {
    assert Pow2(5) == 32;
  }

  lemma {:induction false} PowSum(a: nat, b: nat)
    ensures Pow2(a + b) == Pow2(a) * Pow2(b)
  {
    if b > 0 {
      PowSum(a, b - 1);
    }
  }
}
