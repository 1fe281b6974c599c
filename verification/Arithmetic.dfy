/** The few facts of arithmetic that several modules need. */
module Arithmetic {
  function Max(a: nat, b: nat): nat {
    if a < b then b else a
  }

  function Abs(x: real): real {
    if x < 0.0 then -x else x
  }

  /** A multiple smaller than what it is a multiple of is zero. */
  lemma SmallMultiple(d: int, e: int)
    requires 0 < d
    ensures -d < d * e < d ==> e == 0
  {
    if e >= 1 {
      assert d * e >= d;
    } else if e <= -1 {
      assert d * e + d <= 0;
    }
  }

  lemma Regroup(a: int, b: int, c: int)
    ensures a * b * c == a * (b * c) && a * b * c == a * c * b
  {}

  lemma Distribute(a: int, b: int, c: int)
    ensures (a + b) * c == a * c + b * c && (a - b) * c == a * c - b * c
  {}

  lemma QuotientIs(n: int, d: int, q: int, r: int)
    requires n == d * q + r && 0 <= r < d
    ensures n / d == q && n % d == r
  {
    var k := n / d;
    assert n == d * k + n % d;
    assert d * (k - q) == d * k - d * q;
    SmallMultiple(d, k - q);
  }

  lemma MoreSteps(a: nat, b: nat, d: nat)
    requires a <= b
    ensures a * d <= b * d
  {
    assert b * d == a * d + (b - a) * d;
  }

  /** So many whole steps of `d` fit in `room` exactly when there are at most as many as the quotient. */
  lemma StepsFit(a: nat, d: nat, room: nat)
    requires 0 < d
    ensures a * d <= room <==> a <= room / d
  {
    var q := room / d;
    assert room == d * q + room % d;
    Regroup(1, d, q);
    if a <= q {
      MoreSteps(a, q, d);
    } else {
      MoreSteps(q + 1, a, d);
      Distribute(q, 1, d);
    }
  }
}
