/**
 The Montgomery curves b*y^2 = x^3 + A*x^2 + x over the field of X25519, A = 486662,
 with the affine chord-and-tangent addition. b = 1 is Curve25519; the other
 nonzero b give its twists, so that every u is the coordinate of a point of one of them.
 */
module Curve {
  import opened NumberTheory
  import opened Field
  import opened Identities

  const A: int := 486662

  datatype Point = Infinity | Affine(x: int, y: int)

  /** Right-hand side of the curve equation. */
  function F(x: int): int {
    Cubic(A, x)
  }

  ghost predicate OnCurve(b: int, s: Point) {
    match s
    case Infinity => true
    case Affine(x, y) => 0 <= x < P && 0 <= y < P && Eq(b * (y * y), F(x))
  }

  function Negate(s: Point): Point {
    match s
    case Infinity => Infinity
    case Affine(x, y) => Affine(x, Mod(-y))
  }

  /** Third intersection of the line through (x, y) of slope m, reflected. */
  function Chord(b: int, m: int, x: int, y: int, x': int): Point {
    var x3 := Mod(b * (m * m) - A - x - x');
    Affine(x3, Mod(m * (x - x3) - y))
  }

  function AddPoints(b: int, s: Point, t: Point): Point {
    if s.Infinity? then t
    else if t.Infinity? then s
    else if s.x != t.x then Chord(b, Div(t.y - s.y, t.x - s.x), s.x, s.y, t.x)
    else if Mod(s.y + t.y) == 0 then Infinity
    else Chord(b, Div(TangentRise(s.x), 2 * b * s.y), s.x, s.y, t.x)
  }

  ghost predicate AssociatesAt(b: int, s: Point, t: Point, r: Point) {
    OnCurve(b, s) && OnCurve(b, t) && OnCurve(b, r) ==>
      AddPoints(b, AddPoints(b, s, t), r) == AddPoints(b, s, AddPoints(b, t, r))
  }

  /** The curve group law that is taken as a hypothesis: addition is associative. */
  ghost predicate Associative(b: int) {
    forall s, t, r :: AssociatesAt(b, s, t, r)
  }

  function Times(b: int, m: nat, q: Point): Point {
    if m == 0 then Infinity else AddPoints(b, Times(b, m - 1, q), q)
  }

  /** The x-coordinate, with zero at infinity. */
  function X0(s: Point): int {
    if s.Infinity? then 0 else s.x
  }

  // ----- Closure -----

  function Alpha(b: int, m: int, c: int, x1: int, x2: int, x3: int): int {
    1 - 2 * b * m * c - (x1 * x2 + x1 * x3 + x2 * x3)
  }

  function Beta(b: int, c: int, x1: int, x2: int, x3: int): int {
    x1 * x2 * x3 - b * (c * c)
  }

  /**
   Along the line y = m*z + c the curve equation, less the cubic with roots x1, x2, x3,
   is linear in z once x3 is the third intersection.
   */
  lemma ResidueAtRoot(b: int, m: int, c: int, x1: int, x2: int, x3: int, z: int)
    requires Eq(x3, b * (m * m) - A - x1 - x2) && (z == x1 || z == x2 || z == x3)
    ensures var w := m * z + c;
      Eq(F(z) - b * (w * w), Alpha(b, m, c, x1, x2, x3) * z + Beta(b, c, x1, x2, x3))
  {
    hide Residue;
    var w := m * z + c;
    var e := F(z) - b * (w * w);
    var l := Alpha(b, m, c, x1, x2, x3) * z + Beta(b, c, x1, x2, x3);
    var k := x3 - (b * (m * m) - A - x1 - x2);
    LineResidue(A, b, m, c, x1, x2, x3, z);
    assert (z - x1) * (z - x2) * (z - x3) == 0;
    assert e - l == (z * z) * k;
    EqDifference(x3, b * (m * m) - A - x1 - x2);
    Combination(e, l, z * z, k, 0, 0);
  }

  lemma SquareEq(b: int, v: int, w: int)
    requires Eq(v, w)
    ensures Eq(b * (v * v), b * (w * w))
  {
    hide Residue;
    CongMul(v, w, v, w, P);
    CongScale(v * v, w * w, b, P);
  }

  /** A point of the curve on the line is a root of the linear residue. */
  lemma RootOfResidue(b: int, m: int, c: int, x1: int, x2: int, x3: int, z: int, y: int)
    requires Eq(x3, b * (m * m) - A - x1 - x2) && (z == x1 || z == x2)
    requires Eq(b * (y * y), F(z)) && Eq(m * z + c, y)
    ensures Eq(Alpha(b, m, c, x1, x2, x3) * z + Beta(b, c, x1, x2, x3), 0)
  {
    hide Residue;
    ResidueAtRoot(b, m, c, x1, x2, x3, z);
    var w := m * z + c;
    SquareEq(b, w, y);
    EqDifference(F(z), b * (w * w));
  }

  lemma Reflect(m: int, x1: int, y1: int, x3: int)
    ensures m * (x1 - x3) - y1 == -(m * x3 + (y1 - m * x1))
  {
  }

  /** If the residue vanishes at x3, the reflected third intersection is on the curve. */
  lemma ThirdPoint(b: int, m: int, x1: int, y1: int, x2: int)
    requires var x3 := Mod(b * (m * m) - A - x1 - x2); var c := y1 - m * x1;
             Eq(Alpha(b, m, c, x1, x2, x3) * x3 + Beta(b, c, x1, x2, x3), 0)
    ensures OnCurve(b, Chord(b, m, x1, y1, x2))
  {
    hide Residue;
    var c := y1 - m * x1;
    var Affine(x3, y3) := Chord(b, m, x1, y1, x2);
    ModIsRemainder(b * (m * m) - A - x1 - x2);
    ModIsRemainder(m * (x1 - x3) - y1);
    ResidueAtRoot(b, m, c, x1, x2, x3, x3);
    var w := m * x3 + c;
    EqDifference(F(x3), b * (w * w));
    Reflect(m, x1, y1, x3);
    SquareEq(b, y3, -w);
    NegatedSquare(w);
  }

  /** A polynomial of degree at most one with two roots is zero. */
  lemma LinearRoots(alpha: int, beta: int, x1: int, x2: int, x3: int)
    requires IsPrime(P) && !Eq(x1, x2)
    requires Eq(alpha * x1 + beta, 0) && Eq(alpha * x2 + beta, 0)
    ensures Eq(alpha * x3 + beta, 0)
  {
    hide Residue;
    CongSub(alpha * x1 + beta, 0, alpha * x2 + beta, 0, P);
    assert (alpha * x1 + beta) - (alpha * x2 + beta) == alpha * (x1 - x2);
    EqDifference(x1, x2);
    ZeroProduct(alpha, x1 - x2);
    LinearZero(alpha, beta, x1, x3);
  }

  lemma LinearZero(alpha: int, beta: int, x1: int, x3: int)
    requires Eq(alpha, 0) && Eq(alpha * x1 + beta, 0)
    ensures Eq(alpha * x3 + beta, 0)
  {
    hide Residue;
    Combination(alpha * x3 + beta, 0, x3 - x1, alpha, 1, alpha * x1 + beta);
  }

  lemma SecantResidue(b: int, m: int, x1: int, y1: int, x2: int, y2: int, x3: int)
    requires IsPrime(P) && !Eq(x1, x2) && Eq(m * (x2 - x1), y2 - y1)
    requires Eq(b * (y1 * y1), F(x1)) && Eq(b * (y2 * y2), F(x2)) && Eq(x3, b * (m * m) - A - x1 - x2)
    ensures var c := y1 - m * x1; Eq(Alpha(b, m, c, x1, x2, x3) * x3 + Beta(b, c, x1, x2, x3), 0)
  {
    hide Residue;
    var c := y1 - m * x1;
    assert m * x1 + c == y1;
    RootOfResidue(b, m, c, x1, x2, x3, x1, y1);
    assert m * x2 + c == m * (x2 - x1) + y1;
    CongAdd(m * (x2 - x1), y2 - y1, y1, y1, P);
    RootOfResidue(b, m, c, x1, x2, x3, x2, y2);
    LinearRoots(Alpha(b, m, c, x1, x2, x3), Beta(b, c, x1, x2, x3), x1, x2, x3);
  }

  function TangentRise(x: int): int {
    3 * (x * x) + 2 * A * x + 1
  }

  /** At a tangent the linear residue has no slope. */
  lemma TangentAlpha(b: int, m: int, x: int, y: int, x3: int)
    requires Eq(m * (2 * b * y), TangentRise(x)) && Eq(x3, b * (m * m) - A - x - x)
    ensures Eq(Alpha(b, m, y - m * x, x, x, x3), 0)
  {
    hide Residue;
    var h, k := TangentRise(x) - m * (2 * b * y), x3 - (b * (m * m) - A - x - x);
    EqDifference(TangentRise(x), m * (2 * b * y));
    EqDifference(x3, b * (m * m) - A - x - x);
    TangentIdentity(b, m, x, y, x3);
    Combination(Alpha(b, m, y - m * x, x, x, x3), 0, 1, h, -2 * x, k);
  }

  lemma TangentIdentity(b: int, m: int, x: int, y: int, x3: int)
    ensures Alpha(b, m, y - m * x, x, x, x3)
         == (TangentRise(x) - m * (2 * b * y)) + (-2 * x) * (x3 - (b * (m * m) - A - x - x))
  {
    TangentSlopeTerm(b, m, x, y);
    TangentRootTerm(b * (m * m), x, x3);
  }

  lemma TangentSlopeTerm(b: int, m: int, x: int, y: int)
    ensures 2 * b * m * (y - m * x) == m * (2 * b * y) - 2 * x * (b * (m * m))
  {
  }

  lemma TangentRootTerm(q: int, x: int, x3: int)
    ensures (-2 * x) * (x3 - (q - A - x - x)) == -2 * (x * x3) + 2 * x * q - 2 * A * x - 4 * (x * x)
  {
  }

  lemma TangentResidue(b: int, m: int, x: int, y: int, x3: int)
    requires Eq(m * (2 * b * y), TangentRise(x)) && Eq(b * (y * y), F(x)) && Eq(x3, b * (m * m) - A - x - x)
    ensures var c := y - m * x; Eq(Alpha(b, m, c, x, x, x3) * x3 + Beta(b, c, x, x, x3), 0)
  {
    hide Residue;
    var c := y - m * x;
    assert m * x + c == y;
    RootOfResidue(b, m, c, x, x, x3, x, y);
    TangentAlpha(b, m, x, y, x3);
    LinearZero(Alpha(b, m, c, x, x, x3), Beta(b, c, x, x, x3), x, x3);
  }

  lemma EqualOrOpposite(b: int, y: int, z: int)
    requires IsPrime(P) && !Eq(b, 0) && Eq(b * (y * y), b * (z * z))
    ensures Eq(y, z) || Eq(y + z, 0)
  {
    hide Residue;
    EqDifference(b * (y * y), b * (z * z));
    assert b * (y * y) - b * (z * z) == b * ((y - z) * (y + z));
    ZeroProduct(b, (y - z) * (y + z));
    ZeroProduct(y - z, y + z);
    EqDifference(y, z);
  }

  /** Two points with the same x-coordinate are equal or opposite. */
  lemma SameX(b: int, s: Point, t: Point)
    requires IsPrime(P) && !Eq(b, 0) && OnCurve(b, s) && OnCurve(b, t)
    requires s.Affine? && t.Affine? && s.x == t.x
    ensures s == t || Mod(s.y + t.y) == 0
    ensures Mod(s.y + t.y) == 0 <==> t == Negate(s)
  {
    hide Residue, Mod, F;
    var y, z := s.y, t.y;
    EqualOrOpposite(b, y, z);
    Canonical(y, z);
    ModIffEq(y + z, 0);
    Reduced(0);
    ModIsRemainder(-y);
    Reduced(z);
    ModIffEq(z, -y);
    EqDifference(z, -y);
    assert z - (-y) == y + z;
  }

  lemma NonzeroDouble(b: int, y: int)
    requires IsPrime(P) && !Eq(b, 0) && !Eq(y + y, 0)
    ensures !Eq(2 * b * y, 0)
  {
    hide Residue;
    assert 2 * b * y == b * (y + y);
    ZeroProduct(b, y + y);
  }

  /** Addition stays on the curve. */
  lemma AddOnCurve(b: int, s: Point, t: Point)
    requires IsPrime(P) && !Eq(b, 0) && OnCurve(b, s) && OnCurve(b, t)
    ensures OnCurve(b, AddPoints(b, s, t))
  {
    hide Residue;
    if s.Affine? && t.Affine? {
      if s.x != t.x {
        var m := Div(t.y - s.y, t.x - s.x);
        Canonical(s.x, t.x);
        EqDifference(t.x, s.x);
        DivCorrect(t.y - s.y, t.x - s.x);
        ModIsRemainder(b * (m * m) - A - s.x - t.x);
        SecantResidue(b, m, s.x, s.y, t.x, t.y, Mod(b * (m * m) - A - s.x - t.x));
        ThirdPoint(b, m, s.x, s.y, t.x);
      } else if Mod(s.y + t.y) != 0 {
        SameX(b, s, t);
        ModIffEq(s.y + s.y, 0);
        Reduced(0);
        NonzeroDouble(b, s.y);
        var m := Div(TangentRise(s.x), 2 * b * s.y);
        DivCorrect(TangentRise(s.x), 2 * b * s.y);
        ModIsRemainder(b * (m * m) - A - s.x - s.x);
        TangentResidue(b, m, s.x, s.y, Mod(b * (m * m) - A - s.x - s.x));
        ThirdPoint(b, m, s.x, s.y, s.x);
      }
    }
  }

  lemma NegateOnCurve(b: int, s: Point)
    requires OnCurve(b, s)
    ensures OnCurve(b, Negate(s)) && AddPoints(b, s, Negate(s)) == Infinity == AddPoints(b, Negate(s), s)
  {
    hide Residue;
    if s.Affine? {
      var y, z := s.y, Mod(-s.y);
      ModIsRemainder(-y);
      SquareEq(b, z, -y);
      NegatedSquare(y);
      CongAdd(z, -y, y, y, P);
      ModIffEq(z + y, 0);
      Reduced(0);
    }
  }
}
