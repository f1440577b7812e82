/** Facts about multiplication and remainders by a variable divisor that the solver does not find alone. */
module Arith {

  /** A nonzero multiple of a positive `m` is at least `m` away from zero. */
  lemma {:induction false} MulBounds(m: int, d: int)
    requires m >= 1
    ensures d >= 1 ==> m * d >= m
    ensures d <= -1 ==> m * d <= -m
    decreases if d < 0 then -d else d
  {
    if d > 1 {
      MulBounds(m, d - 1);
      assert m * d == m * (d - 1) + m;
    } else if d < -1 {
      MulBounds(m, d + 1);
      assert m * d == m * (d + 1) - m;
    }
  }

  lemma MulSub(m: int, a: int, b: int)
    ensures m * a - m * b == m * (a - b)
  {
  }

  /** Adding the divisor keeps the remainder. */
  lemma RemainderAddDivisor(x: int, m: int)
    requires m >= 1
    ensures (x + m) % m == x % m
  {
    var q, q2 := x / m, (x + m) / m;
    MulSub(m, q + 1, q2);
    assert m * (q + 1) == m * q + m;
    MulBounds(m, q + 1 - q2);
  }

  /** Adding the divisor adds one to the quotient. */
  lemma QuotientAddDivisor(x: int, m: int)
    requires m >= 1
    ensures (x + m) / m == x / m + 1
  {
    RemainderAddDivisor(x, m);
    var q, q2 := x / m, (x + m) / m;
    MulSub(m, q2, q);
    assert m * (q2 - q) == m;
    MulBounds(m, q2 - q - 1);
  }

  /** Divisibility by `m` does not depend on the sign of `m`. */
  lemma RemainderSign(k: int, m: int)
    requires m >= 1
    ensures (k % -m == 0) == (k % m == 0)
  {
    var q1, q2 := k / -m, k / m;
    assert k == -m * q1 + k % -m;
    assert k == m * q2 + k % m;
    MulSub(m, -q1, q2);
    assert -m * q1 == m * -q1;
    MulBounds(m, -q1 - q2);
  }

  /**
    `i` modulo `m` by repeated subtraction: the position of index `i` within
    its row of an `m`-wide grid. RemIsMod shows it is `i % m`.
  */
  function Rem(i: nat, m: int): (r: nat)
    requires m >= 1
    ensures r < m && r <= i
    decreases i
  {
    if i < m then i else Rem(i - m, m)
  }

  /** Rem is the remainder of Euclidean division. */
  lemma {:induction false} RemIsMod(i: nat, m: int)
    requires m >= 1
    ensures Rem(i, m) == i % m
    decreases i
  {
    if i >= m {
      RemIsMod(i - m, m);
      RemainderAddDivisor(i - m, m);
    }
  }

  /** Two indices with the same remainder are at least `m` apart. */
  lemma {:induction false} SameRemGap(x: nat, y: nat, m: int)
    requires m >= 1 && x < y && Rem(x, m) == Rem(y, m)
    ensures x + m <= y
    decreases x
  {
    if x >= m {
      SameRemGap(x - m, y - m, m);
    }
  }
}
