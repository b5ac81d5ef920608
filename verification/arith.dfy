/** Facts about integer division and remainder with a symbolic divisor, and
    the remainder operator of JavaScript. */
module Arith {

  function Abs(x: int): nat
  {
    if x < 0 then -x else x
  }

  /** JavaScript's `%`: the remainder of truncating division. It differs
      from the dividend by a multiple of the divisor, is smaller than the
      divisor in magnitude and takes the sign of the dividend, unlike
      Dafny's Euclidean `%`. */
  function JsRem(a: int, b: int): (r: int)
    requires b != 0
    ensures (a - r) % Abs(b) == 0 && -(Abs(b) as int) < r < Abs(b)
    ensures a >= 0 ==> r >= 0
    ensures a < 0 ==> r <= 0
  {
    var m := Abs(b);
    DividesGap(a, m);
    if a >= 0 then a % m else -((-a) % m)
  }

  /** The dividend and its remainder of truncating division differ by a
      multiple of the divisor. */
  lemma DividesGap(a: int, m: int)
    requires m > 0
    ensures (a - (if a >= 0 then a % m else -((-a) % m))) % m == 0
  {
    if a >= 0 {
      DivModBasics(a, m);
      DivModUnique((a / m) * m, m, a / m, 0);
    } else {
      DivModBasics(-a, m);
      assert a + (-a) % m == -((-a) / m) * m;
      DivModUnique(-((-a) / m) * m, m, -((-a) / m), 0);
    }
  }

  /** On a non-negative dividend and a positive divisor JavaScript's `%`
      agrees with Dafny's. */
  lemma JsRemNonNegative(a: int, b: int)
    requires a >= 0 && b > 0
    ensures JsRem(a, b) == a % b
  {
  }

  lemma MulAtLeast(d: int, n: int)
    requires d >= 1 && n > 0
    ensures d * n >= n
  {
  }

  lemma DivModBasics(x: int, n: int)
    requires n > 0
    ensures x == (x / n) * n + x % n
    ensures 0 <= x % n < n
  {
  }

  /** Quotient and remainder are determined by the division equation. */
  lemma DivModUnique(x: int, n: int, q: int, r: int)
    requires n > 0 && 0 <= r < n && x == q * n + r
    ensures x / n == q && x % n == r
  {
    DivModBasics(x, n);
    var d := q - x / n;
    assert d * n == x % n - r by {
      assert q * n - (x / n) * n == (q - x / n) * n;
    }
    if d >= 1 {
      MulAtLeast(d, n);
    } else if d <= -1 {
      MulAtLeast(-d, n);
    }
  }

  /** Stepping the dividend by one moves the remainder one place round the
      cycle, carrying into the quotient on wrap-around. */
  lemma DivModNext(i: int, n: int)
    requires n > 0
    ensures (i + 1) % n == if i % n + 1 == n then 0 else i % n + 1
    ensures (i + 1) / n == if i % n + 1 == n then i / n + 1 else i / n
  {
    DivModBasics(i, n);
    if i % n + 1 == n {
      DivModUnique(i + 1, n, i / n + 1, 0);
    } else {
      DivModUnique(i + 1, n, i / n, i % n + 1);
    }
  }

  /** Two numbers less than `n` apart with the same remainder are equal. */
  lemma ModInjective(a: int, b: int, n: int)
    requires n > 0 && a <= b < a + n && a % n == b % n
    ensures a == b
  {
    DivModBasics(a, n);
    DivModBasics(b, n);
    var d := b / n - a / n;
    assert d * n == b - a by {
      assert (b / n) * n - (a / n) * n == (b / n - a / n) * n;
    }
    if d >= 1 {
      MulAtLeast(d, n);
    } else if d <= -1 {
      MulAtLeast(-d, n);
    }
  }

  /** Taking the remainder before adding one changes nothing. */
  lemma ModSucc(x: int, n: int)
    requires n > 0
    ensures (x % n + 1) % n == (x + 1) % n
  {
    DivModNext(x, n);
    DivModBasics(x, n);
    if x % n + 1 == n {
      DivModUnique(n, n, 1, 0);
    } else {
      DivModUnique(x % n + 1, n, 0, x % n + 1);
    }
  }
}
