/**
 Polynomial identities over the integers that the curve formulas rest on.
 Each is split so that the arithmetic solver meets one small expansion at a time.
 */
module Identities {

  function Cubic(a: int, x: int): int {
    x * x * x + a * x * x + x
  }

  lemma Vieta(x1: int, x2: int, x3: int, z: int)
    ensures (z - x1) * (z - x2) * (z - x3)
         == z * z * z - (x1 + x2 + x3) * (z * z) + (x1 * x2 + x1 * x3 + x2 * x3) * z - x1 * x2 * x3
  {
    var q := z * z - (x1 + x2) * z + x1 * x2;
    assert (z - x1) * (z - x2) == q;
    assert q * (z - x3) == q * z - q * x3;
  }

  lemma LineSquare(b: int, m: int, c: int, z: int)
    ensures b * ((m * z + c) * (m * z + c)) == b * (m * m) * (z * z) + (2 * b * m * c) * z + b * (c * c)
  {
    assert (m * z + c) * (m * z + c) == (m * m) * (z * z) + 2 * m * c * z + c * c;
  }

  /** The curve equation on the line y = m*z + c, less the cubic with roots x1, x2, x3. */
  lemma LineResidue(a: int, b: int, m: int, c: int, x1: int, x2: int, x3: int, z: int)
    ensures Cubic(a, z) - b * ((m * z + c) * (m * z + c)) - (z - x1) * (z - x2) * (z - x3)
            - ((1 - 2 * b * m * c - (x1 * x2 + x1 * x3 + x2 * x3)) * z + (x1 * x2 * x3 - b * (c * c)))
         == (z * z) * (x3 - (b * (m * m) - a - x1 - x2))
  {
    Vieta(x1, x2, x3, z);
    LineSquare(b, m, c, z);
    var k, e1, e2 := 2 * b * m * c, x1 + x2 + x3, x1 * x2 + x1 * x3 + x2 * x3;
    assert (1 - k - e2) * z == z - k * z - e2 * z;
    assert (z * z) * (x3 - (b * (m * m) - a - x1 - x2)) == e1 * (z * z) - b * (m * m) * (z * z) + a * (z * z);
  }

  lemma SumOfCubes(x: int, y: int)
    ensures x * x * x + y * y * y == (x + y) * (x + y) * (x + y) - 3 * (x * y) * (x + y)
  {
    var s := x + y;
    assert s * s == x * x + 2 * (x * y) + y * y;
    assert s * s * s == (x * x + 2 * (x * y) + y * y) * x + (x * x + 2 * (x * y) + y * y) * y;
  }

  lemma DifferenceOfCubes(x: int, y: int)
    ensures y * y * y - x * x * x == (y - x) * ((x + y) * (x + y) - x * y)
  {
    var d, q := y - x, x * x + x * y + y * y;
    assert (x + y) * (x + y) - x * y == q;
    assert d * q == y * q - x * q;
  }

  lemma DifferenceOfSquares(a: int, x: int, y: int)
    ensures a * y * y - a * x * x == a * ((y - x) * (x + y))
  {
  }

  lemma SpreadDifference(d: int, s: int, a: int, p: int)
    ensures d * (s * (a + s) + (1 - p)) == d * (s * s - p) + a * (d * s) + d
  {
  }

  lemma SumOfCubics(a: int, x1: int, x2: int, t: int, s: int, p: int)
    requires s == x1 + x2 && p == x1 * x2 && t == a + s
    ensures Cubic(a, x1) + Cubic(a, x2) == s * s * t - 2 * p * t + s * (1 - p)
  {
    SumOfCubes(x1, x2);
    assert x1 * x1 + x2 * x2 == s * s - 2 * p;
    assert a * x1 * x1 + a * x2 * x2 == a * (x1 * x1 + x2 * x2);
    assert s * s * t == s * s * a + s * s * s;
    assert p * t == p * a + p * s;
  }

  lemma DifferenceOfCubics(a: int, x1: int, x2: int)
    ensures Cubic(a, x2) - Cubic(a, x1) == (x2 - x1) * ((x1 + x2) * (a + (x1 + x2)) + (1 - x1 * x2))
  {
    DifferenceOfCubes(x1, x2);
    SpreadDifference(x2 - x1, x1 + x2, a, x1 * x2);
    DifferenceOfSquares(a, x1, x2);
  }

  lemma DifferenceSquared(x: int, y: int)
    ensures (y - x) * (y - x) == (x + y) * (x + y) - 4 * (x * y)
  {
  }

  lemma QuarticKernel(s: int, t: int, q: int)
    ensures (s * t + q) * (s * t + q) - 2 * t * (s * s * t - 2 * (1 - q) * t + s * q) + (s * s - 4 * (1 - q)) * (t * t)
         == q * q
  {
    assert (s * t + q) * (s * t + q) == s * s * t * t + 2 * (s * t * q) + q * q;
  }

  lemma SquareOut(d: int, g: int, t: int, sum: int)
    ensures (d * g) * (d * g) - 2 * (d * d) * t * sum + (d * d) * (d * d) * (t * t)
         == (d * d) * (g * g - 2 * t * sum + (d * d) * (t * t))
  {
    var k := d * d;
    assert (d * g) * (d * g) == k * (g * g);
    assert k * (g * g - 2 * t * sum + k * (t * t)) == k * (g * g) - 2 * k * t * sum + k * k * (t * t);
  }

  lemma QuarticCore(s: int, t: int, p: int, d: int, sum: int, diff: int)
    requires d * d == s * s - 4 * p
    requires sum == s * s * t - 2 * p * t + s * (1 - p) && diff == d * (s * t + (1 - p))
    ensures diff * diff - 2 * (d * d) * t * sum + (d * d) * (d * d) * (t * t) == (d * d) * ((p - 1) * (p - 1))
  {
    QuarticKernel(s, t, 1 - p);
    SquareOut(d, s * t + (1 - p), t, sum);
  }

  lemma RegroupSquare(k: int, t: int, sum: int)
    ensures 2 * k * t * sum == 2 * (k * t) * sum && k * k * (t * t) == (k * t) * (k * t)
  {
  }

  /** The identity behind differential addition. */
  lemma DifferentialIdentity(a: int, x1: int, x2: int, sum: int, diff: int)
    requires sum == Cubic(a, x1) + Cubic(a, x2) && diff == Cubic(a, x2) - Cubic(a, x1)
    ensures var d, t := x2 - x1, a + (x1 + x2);
      diff * diff - 2 * ((d * d) * t) * sum + ((d * d) * t) * ((d * d) * t)
      == (d * d) * ((x1 * x2 - 1) * (x1 * x2 - 1))
  {
    var s, p := x1 + x2, x1 * x2;
    SumOfCubics(a, x1, x2, a + s, s, p);
    DifferenceOfCubics(a, x1, x2);
    DifferenceSquared(x1, x2);
    QuarticCore(s, a + s, p, x2 - x1, sum, diff);
    RegroupSquare((x2 - x1) * (x2 - x1), a + s, sum);
  }

  /** The identity behind doubling. */
  lemma DoublingIdentity(a: int, x: int)
    ensures (3 * (x * x) + 2 * a * x + 1) * (3 * (x * x) + 2 * a * x + 1) - 4 * Cubic(a, x) * (a + 2 * x)
         == (x * x - 1) * (x * x - 1)
  {
    assert (3 * (x * x) + 2 * a * x + 1) * (3 * (x * x) + 2 * a * x + 1)
           - 4 * (x * x * x + a * x * x + x) * (a + 2 * x) == (x * x - 1) * (x * x - 1);
  }

  lemma TangentSquare(b: int, m: int, y: int)
    ensures 4 * (b * (m * m)) * (b * (y * y)) == (m * (2 * b * y)) * (m * (2 * b * y))
  {
  }

  lemma DoublingTerms(f: int, q: int, k: int)
    ensures 4 * f * (q - k) == 4 * q * f - 4 * f * k
  {
  }

  lemma SecantTerms(b: int, m: int, d: int, t: int)
    ensures (d * d) * (b * (m * m) - t) == b * ((m * d) * (m * d)) - (d * d) * t
  {
  }

  lemma NegatedSquare(w: int)
    ensures (-w) * (-w) == w * w
  {
  }

  /** The two secant squares multiply to a square and add up to a multiple of two. */
  lemma SecantProduct(b: int, y1: int, y2: int, k: int)
    ensures (b * ((y2 - y1) * (y2 - y1)) - k) * (b * ((y2 + y1) * (y2 + y1)) - k)
         == (b * (y2 * y2) - b * (y1 * y1)) * (b * (y2 * y2) - b * (y1 * y1))
            - 2 * k * (b * (y1 * y1) + b * (y2 * y2)) + k * k
  {
    var m, n := (y2 - y1) * (y2 - y1), (y2 + y1) * (y2 + y1);
    assert m + n == 2 * (y1 * y1) + 2 * (y2 * y2);
    assert m * n == (y2 * y2 - y1 * y1) * (y2 * y2 - y1 * y1);
    assert (b * m - k) * (b * n - k) == b * b * (m * n) - k * (b * (m + n)) + k * k;
    assert b * b * ((y2 * y2 - y1 * y1) * (y2 * y2 - y1 * y1))
        == (b * (y2 * y2 - y1 * y1)) * (b * (y2 * y2 - y1 * y1));
  }
}
