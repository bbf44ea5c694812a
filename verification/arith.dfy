/**
  Powers of two and the few facts about division by them that the address
  masks, the 136-bit counter and the aggregation thresholds rely on.
*/
module Arith {

  /** b^k */
  function Pow(b: nat, k: nat): (r: nat)
    ensures b > 0 ==> r > 0
  {
    if k == 0 then 1 else b * Pow(b, k - 1)
  }

  /** 2^n as an unbounded natural. */
  function Pow2(n: nat): (r: nat)
    ensures r >= 1
  {
    if n == 0 then 1 else 2 * Pow2(n - 1)
  }

  lemma Pow2Of8()
    ensures Pow2(8) == 256
  {
    assert Pow2(2) == 4;
    assert Pow2(4) == 16;
    assert Pow2(6) == 64;
  }

  lemma Pow2Of32()
    ensures Pow2(16) == 0x1_0000
    ensures Pow2(32) == 0x1_0000_0000
  {
    Pow2Of8();
    Pow2Add(8, 8);
    Pow2Add(16, 16);
  }

  /** 2^(m + n) == 2^m * 2^n. */
  lemma {:induction false} Pow2Add(m: nat, n: nat)
    ensures Pow2(m + n) == Pow2(m) * Pow2(n)
  {
    if m > 0 {
      Pow2Add(m - 1, n);
      assert Pow2(m + n) == 2 * Pow2(m - 1 + n);
    }
  }

  /** 2^m <= 2^n when m <= n. */
  lemma {:induction false} Pow2Monotone(m: nat, n: nat)
    requires m <= n
    ensures Pow2(m) <= Pow2(n)
  {
    if m < n {
      Pow2Monotone(m, n - 1);
    }
  }

  /** The quotient of a division is the unique q with q * d <= a < q * d + d. */
  lemma DivUnique(a: int, d: int, q: int)
    requires d > 0
    requires q * d <= a < q * d + d
    ensures a / d == q
  {
    var q0 := a / d;
    assert q0 * d <= a < q0 * d + d;
    if q0 < q {
      MulLe(q0 + 1, q, d);
    } else if q < q0 {
      MulLe(q + 1, q0, d);
    }
  }

  /** The quotient of a natural number by a positive one is natural. */
  lemma DivNonNegative(a: int, d: int)
    requires a >= 0 && d > 0
    ensures a / d >= 0
  {
    var q := a / d;
    assert a == q * d + a % d;
    if q < 0 {
      MulLe(q, -1, d);
    }
  }

  /** The quotient brackets the dividend. */
  lemma DivBracket(a: nat, d: nat)
    requires d > 0
    ensures (a / d) * d <= a < (a / d) * d + d
  {
    assert a == (a / d) * d + a % d;
  }

  /** The largest multiple of d not above a is a multiple of d, within d of a. */
  lemma FloorMultiple(a: nat, d: nat)
    requires d > 0
    ensures (a / d) * d <= a < (a / d) * d + d
    ensures ((a / d) * d) % d == 0
  {
    DivBracket(a, d);
    DivUnique((a / d) * d, d, a / d);
  }

  /** A number whose remainder by d is zero is its quotient times d. */
  lemma MultipleOf(m: nat, d: nat)
    requires d > 0 && m % d == 0
    ensures m == (m / d) * d
  {
    assert m == (m / d) * d + m % d;
  }

  /** A positive factor cancels. */
  lemma MulCancel(p: int, q: int, d: int)
    requires d > 0 && p * d == q * d
    ensures p == q
  {
    if p < q {
      MulLe(p + 1, q, d);
    } else if q < p {
      MulLe(q + 1, p, d);
    }
  }

  /** Multiplication by a positive factor is monotone. */
  lemma MulLe(p: int, q: int, d: int)
    requires p <= q
    requires d > 0
    ensures p * d <= q * d
  {
    assert q * d - p * d == (q - p) * d;
  }

  /** Dividing by x * y is dividing by x, then by y. */
  lemma DivDiv(a: nat, x: nat, y: nat)
    requires x > 0 && y > 0
    ensures a / (x * y) == (a / x) / y
  {
    var q := (a / x) / y;
    var r1 := a % x;
    var r2 := (a / x) % y;
    assert a == (a / x) * x + r1;
    assert a / x == q * y + r2;
    assert a == (q * y + r2) * x + r1;
    assert (q * y + r2) * x == q * (x * y) + r2 * x;
    assert r2 * x + r1 < x * y by {
      MulLe(r2 + 1, y, x);
      assert (r2 + 1) * x == r2 * x + x;
    }
    DivUnique(a, x * y, q);
  }

  /**
    If block i (of size bs) lies in the coarse block q made of rr such blocks,
    then its end lies in (q * bs * rr, (q + 1) * bs * rr].
  */
  lemma ScaleBracket(q: nat, rr: nat, i: nat, bs: nat)
    requires rr > 0 && bs > 0
    requires q * rr <= i < q * rr + rr
    ensures q * (bs * rr) < i * bs + bs <= q * (bs * rr) + bs * rr
  {
    MulLe(q * rr, i, bs);
    MulLe(i + 1, q * rr + rr, bs);
    assert (i + 1) * bs == i * bs + bs;
    assert (q * rr + rr) * bs == q * (bs * rr) + bs * rr;
    assert q * rr * bs == q * (bs * rr);
  }

  /** Block i of size bs ends within the coarse block i / rr of size bs * rr. */
  lemma ScaleQuotient(i: nat, rr: nat, bs: nat)
    requires rr > 0 && bs > 0
    ensures (i / rr) * (bs * rr) < i * bs + bs <= (i / rr) * (bs * rr) + bs * rr
  {
    DivNonNegative(i, rr);
    DivBracket(i, rr);
    ScaleBracket(i / rr, rr, i, bs);
  }

  /** Distinct multiples of d lie at least d apart. */
  lemma MultiplesApart(p: int, q: int, d: int)
    requires d > 0 && p * d < q * d
    ensures p * d + d <= q * d
  {
    if q <= p {
      MulLe(q, p, d);
    }
    MulLe(p + 1, q, d);
  }
}
