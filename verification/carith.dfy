/** Integer division as C performs it on `int`.

    Dafny's `/` and `%` are Euclidean; C truncates the quotient toward zero and
    gives the remainder the sign of the dividend. The two agree on non-negative
    dividends, so only the sign-sensitive call sites use these. */
module CArith {

  /** C's `a / b` for a positive divisor: the quotient truncated toward zero.
      On a non-negative dividend that is the Euclidean quotient, and negating
      the dividend negates the quotient. */
  function Quot(a: int, b: int): (q: int)
    requires b > 0
    ensures a >= 0 ==> q == a / b
    ensures a < 0 ==> q == -Quot(-a, b)
    decreases if a < 0 then 1 else 0
  {
    if a >= 0 then a / b else -((-a) / b)
  }

  /** C's `a % b` for a positive divisor: on a non-negative dividend the
      Euclidean remainder, and negating the dividend negates the remainder,
      so it takes the sign of `a`. */
  function Rem(a: int, b: int): (r: int)
    requires b > 0
    ensures a >= 0 ==> r == a % b
    ensures a < 0 ==> -b < r <= 0
    ensures a < 0 ==> r == -Rem(-a, b)
    decreases if a < 0 then 1 else 0
  {
    if a >= 0 then a % b else -((-a) % b)
  }

  /** Euclidean quotient and remainder are the only pair with the remainder in 0..b-1. */
  lemma DivisionUnique(x: int, b: int, k: int, r: int)
    requires b > 0 && 0 <= r < b && x == b * k + r
    ensures x / b == k && x % b == r
  {
    var q, m := x / b, x % b;
    var d := q - k;
    assert b * d == r - m by {
      assert x == b * q + m;
      assert b * q - b * k == b * d;
    }
    // `b * d` lies strictly between `-b` and `b`, which no non-zero `d` allows.
    if d >= 1 {
      assert false;
    } else if d <= -1 {
      assert false;
    }
  }

  /** For a negative dividend, truncation toward zero rounds the exact
      quotient up, and the remainder still differs from the dividend by a
      multiple of the divisor. */
  lemma {:induction false} NegativeDividend(a: int, b: int)
    requires b > 0 && a < 0
    ensures Quot(a, b) == (a + b - 1) / b
    ensures (a - Rem(a, b)) % b == 0
  {
    var q, m := (-a) / b, (-a) % b;
    assert -a == b * q + m && 0 <= m < b;
    DivisionUnique(a + b - 1, b, -q, b - 1 - m);
    DivisionUnique(a + m, b, -q, 0);
  }

  /** C's division identity `(a / b) * b + a % b == a`, with the quotient
      truncated toward zero: for a negative dividend the product `b * q` lies
      at or above `a` and less than `b` above it. */
  lemma DivisionIdentity(a: int, b: int)
    requires b > 0
    ensures a == b * Quot(a, b) + Rem(a, b)
    ensures a < 0 ==> -b < a - b * Quot(a, b) <= 0
  {
  }

  /** C's remainder may stand in for its dividend under a Euclidean `% b`. */
  lemma RemCongruent(a: int, b: int, c: int)
    requires b > 0
    ensures (Rem(a, b) + c) % b == (a + c) % b
  {
    DivisionIdentity(a, b);
    var q, r := Quot(a, b), Rem(a, b);
    var k, m := (r + c) / b, (r + c) % b;
    assert a + c == b * (q + k) + m;
    DivisionUnique(a + c, b, q + k, m);
  }
}
