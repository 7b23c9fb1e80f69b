/** Integer and rational arithmetic shared by the timecode conversions:
    Python's round(), int() and % on rationals, and facts about division. */
module Numbers {

  /** Python's round(): the nearest integer, ties to the even one. */
  function Round(x: real): (r: int)
    ensures x - 0.5 <= r as real <= x + 0.5
    ensures r as real - x == 0.5 || x - r as real == 0.5 ==> r % 2 == 0
  {
    var f := x.Floor;
    var d := x - f as real;
    if d < 0.5 then f else if d > 0.5 then f + 1 else if f % 2 == 0 then f else f + 1
  }

  lemma RoundIdempotent(x: real)
    ensures Round(Round(x) as real) == Round(x)
  {
  }

  /** `framerate or fallback`: a rate of 0 is falsy and gives way. */
  function EffectiveRate(framerate: real, fallback: real): (r: real)
    ensures r == framerate || (framerate == 0.0 && r == fallback)
  {
    if framerate != 0.0 then framerate else fallback
  }

  /** Ties go to the even neighbour, so shifting by an even integer commutes
      with rounding. */
  lemma RoundShiftEven(n: int, x: real)
    requires n % 2 == 0
    ensures Round(n as real + x) == n + Round(x)
  {
    var r := Round(x);
    var y := n as real + x;
    assert y - 0.5 <= (n + r) as real <= y + 0.5;
    assert (n + r) as real - y == 0.5 || y - (n + r) as real == 0.5 ==> (n + r) % 2 == 0;
    RoundUnique(y, n + r);
  }

  /** The two conditions of Round's contract single out one integer. */
  lemma RoundUnique(x: real, k: int)
    requires x - 0.5 <= k as real <= x + 0.5
    requires k as real - x == 0.5 || x - k as real == 0.5 ==> k % 2 == 0
    ensures Round(x) == k
  {
  }

  /** int() of a rational: truncation toward zero. */
  function Trunc(x: real): (n: int)
    ensures x >= 0.0 ==> n == x.Floor
    ensures x < 0.0 ==> x <= n as real < x + 1.0
  {
    if x >= 0.0 then x.Floor else -((-x).Floor)
  }

  /** Python's x % m for a positive modulus: the remainder after flooring. */
  function PyMod(x: real, m: real): (r: real)
    requires m > 0.0
    ensures 0.0 <= r < m
  {
    var y := x / m;
    var q := y.Floor as real;
    assert x == m * y;
    RealMulMono(m, q, y);
    assert y < q + 1.0;
    RealMulStrict(m, y, q + 1.0);
    assert m * y < m * (q + 1.0);
    assert m * (q + 1.0) == m * q + m;
    assert x < m * q + m;
    x - m * q
  }

  lemma RealMulMono(m: real, a: real, b: real)
    requires m > 0.0 && a <= b
    ensures m * a <= m * b
  {
  }

  lemma RealMulStrict(m: real, a: real, b: real)
    requires m > 0.0 && a < b
    ensures m * a < m * b
  {
  }

  /** The floor of x / n for a whole n is the integer quotient of x's floor. */
  lemma FloorDiv(x: real, n: int)
    requires x >= 0.0 && n > 0
    ensures (x / n as real).Floor == x.Floor / n
  {
    var w := x.Floor;
    var q, r := w / n, w % n;
    DivMod(w, n);
    assert w == q * n + r;
    var y := x / n as real;
    assert x == y * n as real;
    assert (q * n) as real == q as real * n as real;
    assert q as real * n as real <= y * n as real;
    assert q as real <= y;
    assert y * n as real < (q + 1) as real * n as real by {
      assert x < (w + 1) as real;
      assert w + 1 <= q * n + n;
      assert ((q + 1) * n) as real == (q + 1) as real * n as real;
    }
    assert y < (q + 1) as real;
  }

  // ---------------------------------------------------------------------------
  // Integer division

  lemma MulMono(b: int, x: int, y: int)
    requires b >= 0 && x <= y
    ensures b * x <= b * y
  {
  }

  lemma DivMod(a: int, b: int)
    requires b > 0
    ensures a - (a / b) * b == a % b && 0 <= a % b < b
  {
  }

  lemma DivUnique(a: int, b: int, q: int, r: int)
    requires b > 0 && a == q * b + r && 0 <= r < b
    ensures a / b == q && a % b == r
  {
    var q' := a / b;
    DivMod(a, b);
    if q' > q {
      MulMono(b, q + 1, q');
    } else if q' < q {
      MulMono(b, q' + 1, q);
    }
  }

  lemma DivNonneg(a: int, b: int)
    requires a >= 0 && b > 0
    ensures a / b >= 0
  {
  }

  /** a < q * b bounds the quotient: a / b < q. */
  lemma DivBelow(a: int, b: int, q: int)
    requires 0 <= a && b > 0 && a < q * b
    ensures a / b < q
  {
  }

  lemma DivDiv(a: int, b: int, c: int)
    requires b > 0 && c > 0
    ensures a / b / c == a / (b * c)
  {
    var q := a / b;
    var q2 := q / c;
    DivMod(a, b);
    DivMod(q, c);
    var r := (q % c) * b + a % b;
    assert a == q2 * (b * c) + r by {
      assert a == q * b + a % b;
      assert q == q2 * c + q % c;
      assert q * b == q2 * c * b + (q % c) * b;
    }
    assert r < b * c by {
      MulMono(b, q % c, c - 1);
      assert (q % c) * b <= b * c - b;
    }
    assert 0 <= (q % c) * b by { MulMono(b, 0, q % c); }
    DivUnique(a, b * c, q2, r);
  }

}
