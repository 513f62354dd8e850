/**
 * Python's built-in round() applied to the exact rational n / d.
 * Python rounds to the nearest integer and breaks ties towards the even neighbour.
 */
module Rounding {

  /** A closest integer to n / d, and the even one of the two candidates on a tie. */
  ghost predicate IsRoundHalfEven(n: int, d: int, r: int)
    requires d > 0
  {
    && -d <= 2 * (n - r * d) <= d
    && ((2 * (n - r * d) == d || 2 * (n - r * d) == -d) ==> r % 2 == 0)
  }

  function RoundHalfEven(n: int, d: int): (r: int)
    requires d > 0
    ensures -d <= 2 * (n - r * d) <= d
    ensures (2 * (n - r * d) == d || 2 * (n - r * d) == -d) ==> r % 2 == 0
  {
    var q, m := n / d, n % d;
    assert n == q * d + m;
    if 2 * m < d then q
    else if 2 * m > d then q + 1
    else if q % 2 == 0 then q
    else q + 1
  }

  lemma {:induction false} MulMonotone(a: int, b: int, d: int)
    requires a <= b && d >= 0
    ensures a * d <= b * d
  {
  }

  lemma {:induction false} Distribute(n: int, d: int, r: int, k: int)
    ensures (n - k * d) - (n - r * d) == (r - k) * d
  {
  }

  /** The rounding rule has exactly one answer: RoundHalfEven is it. */
  lemma {:induction false} RoundHalfEvenUnique(n: int, d: int, k: int)
    requires d > 0
    requires IsRoundHalfEven(n, d, k)
    ensures k == RoundHalfEven(n, d)
  {
    var r := RoundHalfEven(n, d);
    var ek, er := n - k * d, n - r * d;
    Distribute(n, d, r, k);
    var t := r - k;
    assert ek - er == t * d;
    if t >= 2 {
      MulMonotone(2, t, d);
      assert false;
    } else if t <= -2 {
      MulMonotone(t, -2, d);
      assert false;
    } else if t == 1 {
      assert false;
    } else if t == -1 {
      assert false;
    }
  }

  /** A quotient that is already an integer is left unchanged. */
  lemma {:induction false} RoundExact(k: int, d: int)
    requires d > 0
    ensures RoundHalfEven(k * d, d) == k
  {
    RoundHalfEvenUnique(k * d, d, k);
  }

  /** Rounding keeps a quotient that lies in [0, c] inside [0, c]. */
  lemma {:induction false} RoundInRange(n: int, d: int, c: int)
    requires d > 0 && c >= 0
    requires 0 <= n <= c * d
    ensures 0 <= RoundHalfEven(n, d) <= c
  {
    var r := RoundHalfEven(n, d);
    if r < 0 {
      MulMonotone(r, -1, d);
      assert false;
    }
    if r > c {
      MulMonotone(c + 1, r, d);
      assert false;
    }
  }
}
