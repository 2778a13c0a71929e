/**
 The x-only formulas of the Montgomery ladder, derived from the affine addition of
 Curve: doubling, differential addition, and what projective pairs (X : Z) stand for.
 */
module XOnly {
  import opened NumberTheory
  import opened Field
  import opened Identities
  import opened Curve

  // ----- Affine x-coordinates of sums -----

  /** x(2s) * 4F(x) = (x^2 - 1)^2. */
  lemma DoubleX(b: int, m: int, x: int, y: int, x3: int)
    requires Eq(m * (2 * b * y), TangentRise(x)) && Eq(b * (y * y), F(x))
    requires Eq(x3, b * (m * m) - A - x - x)
    ensures Eq(4 * F(x) * x3, (x * x - 1) * (x * x - 1))
  {
    hide Residue;
    var f, n, t := F(x), TangentRise(x), m * (2 * b * y);
    var q, k := b * (m * m), A + 2 * x;
    CongScale(x3, q - k, 4 * f, P);
    CongScale(b * (y * y), f, 4 * q, P);
    CongMul(t, n, t, n, P);
    TangentSquare(b, m, y);
    DoublingTerms(f, q, k);
    CongSub(4 * q * f, n * n, 4 * f * k, 4 * f * k, P);
    DoublingIdentity(A, x);
  }

  /** d^2 * x3 = b * rise^2 - d^2 * t for a secant of run d. */
  lemma SecantX(b: int, m: int, d: int, rise: int, t: int, x3: int)
    requires Eq(m * d, rise) && Eq(x3, b * (m * m) - t)
    ensures Eq((d * d) * x3, b * (rise * rise) - (d * d) * t)
  {
    hide Residue;
    CongScale(x3, b * (m * m) - t, d * d, P);
    SquareEq(b, m * d, rise);
    SecantTerms(b, m, d, t);
    CongSub(b * ((m * d) * (m * d)), b * (rise * rise), (d * d) * t, (d * d) * t, P);
  }

  /** The sum and the difference of the curve equations of two points. */
  lemma CurvePair(b: int, x1: int, y1: int, x2: int, y2: int, k: int)
    requires Eq(b * (y1 * y1), F(x1)) && Eq(b * (y2 * y2), F(x2))
    ensures var sum, diff := F(x1) + F(x2), F(x2) - F(x1);
      Eq((b * ((y2 - y1) * (y2 - y1)) - k) * (b * ((y2 + y1) * (y2 + y1)) - k),
         diff * diff - 2 * k * sum + k * k)
  {
    hide Residue;
    var v, w := b * (y1 * y1), b * (y2 * y2);
    var sum, diff := F(x1) + F(x2), F(x2) - F(x1);
    SecantProduct(b, y1, y2, k);
    CongAdd(v, F(x1), w, F(x2), P);
    CongSub(w, F(x2), v, F(x1), P);
    CongMul(w - v, diff, w - v, diff, P);
    CongScale(v + w, sum, 2 * k, P);
    CongSub((w - v) * (w - v), diff * diff, 2 * k * (v + w), 2 * k * sum, P);
    CongAdd((w - v) * (w - v) - 2 * k * (v + w), diff * diff - 2 * k * sum, k * k, k * k, P);
  }

  lemma RegroupProduct(k: int, a: int, c: int)
    ensures (k * a) * (k * c) == k * ((a * c) * k)
  {
  }

  /** x(s + t) * x(t - s) * (x1 - x2)^2 = (x1*x2 - 1)^2. */
  lemma DifferentialX(b: int, x1: int, y1: int, x2: int, y2: int, plus: int, minus: int)
    requires IsPrime(P) && !Eq(x1, x2)
    requires Eq(b * (y1 * y1), F(x1)) && Eq(b * (y2 * y2), F(x2))
    requires var d, t := x2 - x1, A + x1 + x2;
             Eq((d * d) * plus, b * ((y2 - y1) * (y2 - y1)) - (d * d) * t) &&
             Eq((d * d) * minus, b * ((y2 + y1) * (y2 + y1)) - (d * d) * t)
    ensures Eq((plus * minus) * ((x2 - x1) * (x2 - x1)), (x1 * x2 - 1) * (x1 * x2 - 1))
  {
    hide Residue;
    var d, t := x2 - x1, A + x1 + x2;
    var k, g := (d * d) * t, (x1 * x2 - 1) * (x1 * x2 - 1);
    CongMul((d * d) * plus, b * ((y2 - y1) * (y2 - y1)) - k, (d * d) * minus, b * ((y2 + y1) * (y2 + y1)) - k, P);
    CurvePair(b, x1, y1, x2, y2, k);
    DifferentialIdentity(A, x1, x2, F(x1) + F(x2), F(x2) - F(x1));
    RegroupProduct(d * d, plus, minus);
    EqDifference(x2, x1);
    ZeroProduct(d, d);
    Cancel(d * d, (plus * minus) * (d * d), g, P);
  }

  /** Doubling, on points. */
  lemma DoublePoint(b: int, s: Point)
    requires IsPrime(P) && !Eq(b, 0) && OnCurve(b, s) && s.Affine?
    ensures var r := AddPoints(b, s, s);
      if Mod(s.y + s.y) == 0 then r == Infinity && Eq(F(s.x), 0)
      else r.Affine? && !Eq(F(s.x), 0) && Eq(4 * F(s.x) * r.x, (s.x * s.x - 1) * (s.x * s.x - 1))
  {
    hide Residue;
    var Affine(x, y) := s;
    ModIffEq(y + y, 0);
    Reduced(0);
    assert y + y == 2 * y;
    SmallNonZero(2);
    ZeroProduct(2, y);
    ZeroProduct(y, y);
    ZeroProduct(b, y * y);
    if Mod(y + y) != 0 {
      var m := Div(TangentRise(x), 2 * b * y);
      NonzeroDouble(b, y);
      DivCorrect(TangentRise(x), 2 * b * y);
      ModIsRemainder(b * (m * m) - A - x - x);
      DoubleX(b, m, x, y, Mod(b * (m * m) - A - x - x));
    }
  }

  lemma SecantPoint(b: int, s: Point, t: Point)
    requires IsPrime(P) && OnCurve(b, s) && OnCurve(b, t) && s.Affine? && t.Affine? && s.x != t.x
    ensures var r, d := AddPoints(b, s, t), t.x - s.x;
      r.Affine? &&
      Eq((d * d) * r.x, b * ((t.y - s.y) * (t.y - s.y)) - (d * d) * (A + s.x + t.x))
  {
    hide Residue;
    var d, rise := t.x - s.x, t.y - s.y;
    var m := Div(rise, d);
    Canonical(s.x, t.x);
    EqDifference(t.x, s.x);
    DivCorrect(rise, d);
    ModIsRemainder(b * (m * m) - A - s.x - t.x);
    SecantX(b, m, d, rise, A + s.x + t.x, Mod(b * (m * m) - A - s.x - t.x));
  }

  /** Differential addition, on points with different x-coordinates. */
  lemma AddSubtractPoints(b: int, s: Point, t: Point)
    requires IsPrime(P) && !Eq(b, 0) && OnCurve(b, s) && OnCurve(b, t)
    requires s.Affine? && t.Affine? && s.x != t.x
    ensures var plus, minus := AddPoints(b, s, t), AddPoints(b, t, Negate(s));
      plus.Affine? && minus.Affine? &&
      Eq((plus.x * minus.x) * ((t.x - s.x) * (t.x - s.x)), (s.x * t.x - 1) * (s.x * t.x - 1))
  {
    hide Residue;
    var z := Mod(-s.y);
    var minus := AddPoints(b, t, Negate(s));
    var d, rise := t.x - s.x, z - t.y;
    NegateOnCurve(b, s);
    SecantPoint(b, s, t);
    SecantPoint(b, t, Negate(s));
    NegatedSquare(d);
    ModIsRemainder(-s.y);
    CongSub(z, -s.y, t.y, t.y, P);
    SquareEq(b, rise, -(t.y + s.y));
    NegatedSquare(t.y + s.y);
    var k := (d * d) * (A + s.x + t.x);
    CongSub(b * (rise * rise), b * ((t.y + s.y) * (t.y + s.y)), k, k, P);
    Canonical(s.x, t.x);
    DifferentialX(b, s.x, s.y, t.x, t.y, AddPoints(b, s, t).x, minus.x);
  }

  // ----- Projective pairs -----

  /** (x : z) stands for the x-coordinate of s. */
  ghost predicate Represents(x: int, z: int, s: Point) {
    match s
    case Infinity => Eq(z, 0) && !Eq(x, 0)
    case Affine(a, _) => !Eq(z, 0) && Eq(x, a * z)
  }

  function DoubledX(x: int, z: int): int {
    (x * x - z * z) * (x * x - z * z)
  }

  function DoubledZ(x: int, z: int): int {
    4 * (x * z) * (x * x + A * (x * z) + z * z)
  }

  function SumX(x2: int, z2: int, x3: int, z3: int): int {
    4 * ((x2 * x3 - z2 * z3) * (x2 * x3 - z2 * z3))
  }

  function SumZ(u: int, x2: int, z2: int, x3: int, z3: int): int {
    4 * u * ((x2 * z3 - z2 * x3) * (x2 * z3 - z2 * x3))
  }

  lemma DoubledEq(x: int, x': int, z: int, z': int)
    requires Eq(x, x') && Eq(z, z')
    ensures Eq(DoubledX(x, z), DoubledX(x', z')) && Eq(DoubledZ(x, z), DoubledZ(x', z'))
  {
    hide Residue;
    CongMul(x, x', x, x', P);
    CongMul(z, z', z, z', P);
    CongMul(x, x', z, z', P);
    CongSub(x * x, x' * x', z * z, z' * z', P);
    CongMul(x * x - z * z, x' * x' - z' * z', x * x - z * z, x' * x' - z' * z', P);
    CongScale(x * z, x' * z', A, P);
    CongAdd(x * x, x' * x', A * (x * z), A * (x' * z'), P);
    CongAdd(x * x + A * (x * z), x' * x' + A * (x' * z'), z * z, z' * z', P);
    CongScale(x * z, x' * z', 4, P);
    CongMul(4 * (x * z), 4 * (x' * z'), x * x + A * (x * z) + z * z, x' * x' + A * (x' * z') + z' * z', P);
  }

  lemma SumEq(u: int, u': int, x2: int, x2': int, z2: int, z2': int, x3: int, x3': int, z3: int, z3': int)
    requires Eq(u, u') && Eq(x2, x2') && Eq(z2, z2') && Eq(x3, x3') && Eq(z3, z3')
    ensures Eq(SumX(x2, z2, x3, z3), SumX(x2', z2', x3', z3'))
    ensures Eq(SumZ(u, x2, z2, x3, z3), SumZ(u', x2', z2', x3', z3'))
  {
    hide Residue;
    CongMul(x2, x2', x3, x3', P);
    CongMul(z2, z2', z3, z3', P);
    CongMul(x2, x2', z3, z3', P);
    CongMul(z2, z2', x3, x3', P);
    CongSub(x2 * x3, x2' * x3', z2 * z3, z2' * z3', P);
    CongSub(x2 * z3, x2' * z3', z2 * x3, z2' * x3', P);
    SquareEq(4, x2 * x3 - z2 * z3, x2' * x3' - z2' * z3');
    CongScale(u, u', 4, P);
    var d, d' := x2 * z3 - z2 * x3, x2' * z3' - z2' * x3';
    CongMul(d, d', d, d', P);
    CongMul(4 * u, 4 * u', d * d, d' * d', P);
  }

  lemma DoubledHomogeneous(a: int, z: int)
    ensures var k := z * z;
      DoubledX(a * z, z) == (k * k) * ((a * a - 1) * (a * a - 1)) && DoubledZ(a * z, z) == (k * k) * (4 * F(a))
  {
    hide Residue;
    var k := z * z;
    assert (a * z) * (a * z) - k == k * (a * a - 1);
    assert (a * z) * z == k * a;
    assert (a * z) * (a * z) + A * (k * a) + k == k * (a * a + A * a + 1);
    assert (k * a) * (k * (a * a + A * a + 1)) == (k * k) * (a * (a * a + A * a + 1));
    assert a * (a * a + A * a + 1) == F(a);
  }

  lemma SumHomogeneous(u: int, a: int, z2: int, c: int, z3: int)
    ensures var k := (z2 * z3) * (z2 * z3);
      SumX(a * z2, z2, c * z3, z3) == (4 * k) * ((a * c - 1) * (a * c - 1)) &&
      SumZ(u, a * z2, z2, c * z3, z3) == (4 * k) * (u * ((c - a) * (c - a)))
  {
    hide Residue;
    var w := z2 * z3;
    assert (a * z2) * (c * z3) - z2 * z3 == w * (a * c - 1);
    assert (a * z2) * z3 - z2 * (c * z3) == w * (a - c);
    assert (w * (a * c - 1)) * (w * (a * c - 1)) == (w * w) * ((a * c - 1) * (a * c - 1));
    assert (w * (a - c)) * (w * (a - c)) == (w * w) * ((c - a) * (c - a));
  }

  lemma RepresentsEq(x: int, x': int, z: int, z': int, s: Point)
    requires Represents(x, z, s) && Eq(x, x') && Eq(z, z')
    ensures Represents(x', z', s)
  {
    hide Residue;
    if s.Affine? { CongScale(z, z', s.x, P); }
  }

  /** The curve is not singular: x^2 = 1 is not a root of the cubic, since A^2 is not 4. */
  lemma NonSingular(a: int)
    requires IsPrime(P) && Eq(F(a), 0)
    ensures !Eq(a * a - 1, 0)
  {
    hide Residue;
    SmallNonZero(1);
    SmallNonZero(A * A - 4);
    if Eq(a * a - 1, 0) {
      var h, k := a * a - 1, a * a + A * a + 1;
      assert a * k == F(a);
      ZeroProduct(a, k);
      if Eq(a, 0) {
        CongScale(a, 0, a, P);
        EqDifference(a * a, 1);
        assert false;
      }
      SingularCombination(a, h, k);
      CongSub(k, 0, h, 0, P);
      Combination(A * A - 4, 0, -(A * A), h, A * a - 2, k - h);
      assert false;
    }
  }

  lemma SingularCombination(a: int, h: int, k: int)
    requires h == a * a - 1 && k == a * a + A * a + 1
    ensures A * A - 4 == -(A * A) * h + (A * a - 2) * (k - h)
  {
    hide Residue;
    assert k - h == A * a + 2;
    assert (A * a - 2) * (A * a + 2) == A * A * (a * a) - 4;
  }

  lemma DoubleRepresents(b: int, s: Point, x: int, z: int)
    requires IsPrime(P) && !Eq(b, 0) && OnCurve(b, s) && Represents(x, z, s)
    ensures Represents(DoubledX(x, z), DoubledZ(x, z), AddPoints(b, s, s))
  {
    hide Residue;
    if s.Infinity? {
      DoubledEq(x, x, z, 0);
      ZeroProduct(x, x);
      ZeroProduct(x * x, x * x);
    } else {
      var a := s.x;
      var k, f, g := z * z, F(a), (a * a - 1) * (a * a - 1);
      DoubledEq(x, a * z, z, z);
      DoubledHomogeneous(a, z);
      DoublePoint(b, s);
      ZeroProduct(z, z);
      ZeroProduct(k, k);
      SmallNonZero(4);
      ZeroProduct(4, f);
      ZeroProduct(k * k, 4 * f);
      if Eq(f, 0) {
        NonSingular(a);
        ZeroProduct(a * a - 1, a * a - 1);
        ZeroProduct(k * k, g);
      } else {
        var r := AddPoints(b, s, s);
        CongScale(4 * f * r.x, g, k * k, P);
        Regroup(k * k, 4 * f, r.x);
        CongScale(DoubledZ(x, z), (k * k) * (4 * f), r.x, P);
      }
    }
  }

  lemma Regroup(k: int, f: int, r: int)
    ensures k * (f * r) == r * (k * f) && k * (r * f) == r * (k * f)
  {
  }

  /** Differential addition when one of the points is infinity; the other then has the base's x. */
  lemma SumWithInfinity(u: int, x2: int, z2: int, x3: int, z3: int)
    requires IsPrime(P) && !Eq(u, 0) && Eq(z2, 0) && !Eq(x2, 0) && !Eq(z3, 0) && Eq(x3, u * z3)
    ensures !Eq(SumZ(u, x2, z2, x3, z3), 0) && Eq(SumX(x2, z2, x3, z3), u * SumZ(u, x2, z2, x3, z3))
    ensures !Eq(SumZ(u, x3, z3, x2, z2), 0) && Eq(SumX(x3, z3, x2, z2), u * SumZ(u, x3, z3, x2, z2))
  {
    hide Residue;
    var w := x2 * z3;
    SumEq(u, u, x2, x2, z2, 0, x3, u * z3, z3, z3);
    SumEq(u, u, x3, u * z3, z3, z3, x2, x2, z2, 0);
    InfinityTerms(u, x2, z3);
    ZeroProduct(x2, z3);
    ZeroProduct(w, w);
    SmallNonZero(4);
    ZeroProduct(4, u);
    ZeroProduct(4 * u, w * w);
    CongScale(SumZ(u, x2, z2, x3, z3), 4 * u * (w * w), u, P);
    CongScale(SumZ(u, x3, z3, x2, z2), 4 * u * (w * w), u, P);
  }

  lemma InfinityTerms(u: int, x2: int, z3: int)
    ensures var w := x2 * z3;
      SumZ(u, x2, 0, u * z3, z3) == 4 * u * (w * w) && SumZ(u, u * z3, z3, x2, 0) == 4 * u * (w * w) &&
      SumX(x2, 0, u * z3, z3) == u * (4 * u * (w * w)) && SumX(u * z3, z3, x2, 0) == u * (4 * u * (w * w))
  {
    hide Residue;
    var w := x2 * z3;
    assert x2 * (u * z3) - 0 * z3 == u * w && (u * z3) * x2 - z3 * 0 == u * w;
    assert 4 * ((u * w) * (u * w)) == u * (4 * u * (w * w));
    assert x2 * z3 - 0 * (u * z3) == w && (u * z3) * 0 - z3 * x2 == -w;
    NegatedSquare(w);
  }

  /** A ratio g : w scaled by a nonzero k represents what the ratio does. */
  lemma RatioRepresents(k: int, g: int, w: int, r: Point, x: int, z: int)
    requires IsPrime(P) && !Eq(k, 0) && Eq(x, k * g) && Eq(z, k * w)
    requires if r.Infinity? then Eq(w, 0) && !Eq(g, 0) else !Eq(w, 0) && Eq(r.x * w, g)
    ensures Represents(x, z, r)
  {
    hide Residue;
    ZeroProduct(k, w);
    ZeroProduct(k, g);
    if r.Affine? {
      CongScale(r.x * w, g, k, P);
      Regroup(k, w, r.x);
      CongScale(z, k * w, r.x, P);
    }
  }

  lemma SumScaled(u: int, a: int, c: int, x2: int, z2: int, x3: int, z3: int, k: int)
    requires IsPrime(P) && !Eq(z2, 0) && !Eq(z3, 0) && Eq(x2, a * z2) && Eq(x3, c * z3)
    requires k == 4 * ((z2 * z3) * (z2 * z3))
    ensures !Eq(k, 0)
    ensures Eq(SumX(x2, z2, x3, z3), k * ((a * c - 1) * (a * c - 1)))
    ensures Eq(SumZ(u, x2, z2, x3, z3), k * (u * ((c - a) * (c - a))))
  {
    hide Residue;
    SumEq(u, u, x2, a * z2, z2, z2, x3, c * z3, z3, z3);
    SumHomogeneous(u, a, z2, c, z3);
    ZeroProduct(z2, z3);
    ZeroProduct(z2 * z3, z2 * z3);
    SmallNonZero(4);
    ZeroProduct(4, (z2 * z3) * (z2 * z3));
  }

  lemma SumRepresents(b: int, q: Point, s: Point, t: Point, x2: int, z2: int, x3: int, z3: int)
    requires IsPrime(P) && !Eq(b, 0) && OnCurve(b, q) && OnCurve(b, s) && OnCurve(b, t)
    requires q.Affine? && !Eq(q.x, 0) && t == AddPoints(b, s, q) && AddPoints(b, t, Negate(s)) == q
    requires Represents(x2, z2, s) && Represents(x3, z3, t)
    ensures Represents(SumX(x2, z2, x3, z3), SumZ(q.x, x2, z2, x3, z3), AddPoints(b, s, t))
  {
    hide Residue;
    var u := q.x;
    if s.Infinity? {
      SumWithInfinity(u, x2, z2, x3, z3);
    } else if t.Infinity? {
      SumWithInfinity(u, x3, z3, x2, z2);
    } else {
      SumScaled(u, s.x, t.x, x2, z2, x3, z3, 4 * ((z2 * z3) * (z2 * z3)));
      AffineSum(b, q, s, t, 4 * ((z2 * z3) * (z2 * z3)), SumX(x2, z2, x3, z3), SumZ(u, x2, z2, x3, z3));
    }
  }

  lemma AffineSum(b: int, q: Point, s: Point, t: Point, k: int, x: int, z: int)
    requires IsPrime(P) && !Eq(b, 0) && OnCurve(b, q) && OnCurve(b, s) && OnCurve(b, t)
    requires q.Affine? && !Eq(q.x, 0) && AddPoints(b, t, Negate(s)) == q && s.Affine? && t.Affine?
    requires !Eq(k, 0) && Eq(x, k * ((s.x * t.x - 1) * (s.x * t.x - 1)))
    requires Eq(z, k * (q.x * ((t.x - s.x) * (t.x - s.x))))
    ensures Represents(x, z, AddPoints(b, s, t))
  {
    hide Residue;
    if s.x != t.x {
      DistinctSum(b, q, s, t);
    } else {
      OppositeSum(b, q, s, t);
      ZeroProduct(s.x * s.x - 1, s.x * s.x - 1);
      SquareOfZero(q.x);
    }
    RatioRepresents(k, (s.x * t.x - 1) * (s.x * t.x - 1), q.x * ((t.x - s.x) * (t.x - s.x)), AddPoints(b, s, t), x, z);
  }

  lemma DistinctSum(b: int, q: Point, s: Point, t: Point)
    requires IsPrime(P) && !Eq(b, 0) && OnCurve(b, s) && OnCurve(b, t)
    requires q.Affine? && !Eq(q.x, 0) && AddPoints(b, t, Negate(s)) == q
    requires s.Affine? && t.Affine? && s.x != t.x
    ensures var r, d := AddPoints(b, s, t), (t.x - s.x) * (t.x - s.x);
      r.Affine? && !Eq(q.x * d, 0) && Eq(r.x * (q.x * d), (s.x * t.x - 1) * (s.x * t.x - 1))
  {
    hide Residue;
    var e := t.x - s.x;
    AddSubtractPoints(b, s, t);
    Canonical(t.x, s.x);
    EqDifference(t.x, s.x);
    ZeroProduct(e, e);
    ZeroProduct(q.x, e * e);
    Associate(AddPoints(b, s, t).x, q.x, e * e);
  }

  lemma SquareOfZero(u: int)
    ensures u * (0 * 0) == 0
  {
  }

  /** With equal x-coordinates t can only be -s; then q = -2s, and the sum is infinity. */
  lemma OppositeSum(b: int, q: Point, s: Point, t: Point)
    requires IsPrime(P) && !Eq(b, 0) && OnCurve(b, s) && OnCurve(b, t)
    requires q.Affine? && !Eq(q.x, 0) && AddPoints(b, t, Negate(s)) == q
    requires s.Affine? && t.Affine? && s.x == t.x
    ensures AddPoints(b, s, t) == Infinity && !Eq(s.x * s.x - 1, 0)
  {
    hide Residue;
    var n := Negate(s);
    NegateOnCurve(b, s);
    SameX(b, s, t);
    assert t == n;
    DoublePoint(b, n);
    var f := F(n.x);
    SmallNonZero(4);
    ZeroProduct(4, f);
    ZeroProduct(4 * f, q.x);
    ZeroProduct(n.x * n.x - 1, n.x * n.x - 1);
  }
}
