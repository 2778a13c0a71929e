/**
 Curves that differ by a square factor of b have the same group, and every nonzero b is a square or
 twice a square. So the group law need be assumed of two curves only: Curve25519, b = 1, and its
 twist b = 2.
 */
module Twists {
  import opened NumberTheory
  import opened Bits
  import opened Field
  import opened Curve
  import opened Encoding
  import opened LadderCorrectness

  // ----- The curves of b and of b * c^2 -----

  /** The y-coordinate multiplied by c takes the curve of b * c^2 to that of b. */
  function Scale(c: int, s: Point): Point {
    match s
    case Infinity => Infinity
    case Affine(x, y) => Affine(x, Mod(c * y))
  }

  lemma ScaleEq(c: int, y: int)
    ensures 0 <= Mod(c * y) < P && Eq(Mod(c * y), c * y)
  {
    hide Residue, Mod;
    ModIsRemainder(c * y);
  }

  lemma ScaledSquare(b: int, d: int, c: int, y: int, z: int)
    requires Eq(d, b * (c * c)) && Eq(z, c * y)
    ensures Eq(b * (z * z), d * (y * y))
  {
    hide Residue;
    SquareEq(b, z, c * y);
    CongScale(d, b * (c * c), y * y, P);
    assert b * ((c * y) * (c * y)) == (b * (c * c)) * (y * y);
  }

  lemma ScaleOnCurve(b: int, d: int, c: int, s: Point)
    requires Eq(d, b * (c * c)) && OnCurve(d, s)
    ensures OnCurve(b, Scale(c, s))
  {
    hide Residue, Mod, F;
    if s.Affine? {
      ScaleEq(c, s.y);
      ScaledSquare(b, d, c, s.y, Mod(c * s.y));
    }
  }

  lemma ScaleInjective(b: int, c: int, s: Point, t: Point)
    requires IsPrime(P) && !Eq(c, 0) && OnCurve(b, s) && OnCurve(b, t) && Scale(c, s) == Scale(c, t)
    ensures s == t
  {
    hide Residue, Mod, F;
    if s.Affine? {
      ModIffEq(c * s.y, c * t.y);
      Cancel(c, s.y, t.y, P);
      Canonical(s.y, t.y);
    }
  }

  lemma ChordScales(b: int, d: int, c: int, m: int, n: int, x: int, y: int, x': int)
    requires Eq(d, b * (c * c)) && Eq(n, c * m)
    ensures Scale(c, Chord(d, m, x, y, x')) == Chord(b, n, x, Mod(c * y), x')
  {
    hide Residue, Mod;
    var k := A + x + x';
    ScaledSquare(b, d, c, m, n);
    CongSub(d * (m * m), b * (n * n), k, k, P);
    ModIffEq(d * (m * m) - A - x - x', b * (n * n) - A - x - x');
    var x3 := Mod(d * (m * m) - A - x - x');
    var w, y3 := m * (x - x3) - y, Mod(m * (x - x3) - y);
    ModIsRemainder(w);
    CongScale(y3, w, c, P);
    ScaleEq(c, y);
    CongScale(n, c * m, x - x3, P);
    CongSub(n * (x - x3), (c * m) * (x - x3), Mod(c * y), c * y, P);
    Distribute(c, m, x - x3, y);
    ModIffEq(c * y3, n * (x - x3) - Mod(c * y));
  }

  lemma Distribute(c: int, m: int, e: int, y: int)
    ensures (c * m) * e - c * y == c * (m * e - y)
  {
  }

  lemma SlopeOfSecant(c: int, rise: int, rise': int, run: int)
    requires IsPrime(P) && !Eq(run, 0) && Eq(rise', c * rise)
    ensures Eq(Div(rise', run), c * Div(rise, run))
  {
    hide Residue, Mod, Div;
    var m, n := Div(rise, run), Div(rise', run);
    DivCorrect(rise, run);
    DivCorrect(rise', run);
    CongScale(m * run, rise, c, P);
    assert c * (m * run) == run * (c * m) && n * run == run * n;
    Cancel(run, n, c * m, P);
  }

  lemma SlopeOfTangent(b: int, d: int, c: int, rise: int, y: int, z: int)
    requires IsPrime(P) && Eq(d, b * (c * c)) && Eq(z, c * y) && !Eq(2 * d * y, 0) && !Eq(2 * b * z, 0)
    ensures Eq(Div(rise, 2 * b * z), c * Div(rise, 2 * d * y))
  {
    hide Residue, Mod, Div;
    var m, n := Div(rise, 2 * d * y), Div(rise, 2 * b * z);
    DivCorrect(rise, 2 * d * y);
    DivCorrect(rise, 2 * b * z);
    TangentRun(b, d, c, y, z, m);
    assert n * (2 * b * z) == (2 * b * z) * n;
    Cancel(2 * b * z, n, c * m, P);
  }

  lemma TangentRun(b: int, d: int, c: int, y: int, z: int, m: int)
    requires Eq(d, b * (c * c)) && Eq(z, c * y)
    ensures Eq((2 * b * z) * (c * m), m * (2 * d * y))
  {
    hide Residue;
    CongScale(z, c * y, 2 * b * (c * m), P);
    CongScale(d, b * (c * c), 2 * (m * y), P);
    assert (2 * b * z) * (c * m) == z * (2 * b * (c * m));
    assert (c * y) * (2 * b * (c * m)) == (b * (c * c)) * (2 * (m * y)) by { Regroup(b, c, m, y); }
    assert m * (2 * d * y) == d * (2 * (m * y));
  }

  lemma Regroup(b: int, c: int, m: int, y: int)
    ensures (c * y) * (2 * b * (c * m)) == (b * (c * c)) * (2 * (m * y))
  {
    assert (c * y) * (2 * b * (c * m)) == 2 * ((c * y) * (b * (c * m)));
    assert (c * y) * (b * (c * m)) == (b * (c * c)) * (m * y);
  }

  lemma ScaleOfSum(c: int, y: int, z: int)
    ensures c * y + c * z == c * (y + z)
  {
  }

  lemma OppositeScales(c: int, y: int, z: int)
    requires IsPrime(P) && !Eq(c, 0)
    ensures Mod(Mod(c * y) + Mod(c * z)) == 0 <==> Mod(y + z) == 0
  {
    hide Residue, Mod;
    var v, w := Mod(c * y), Mod(c * z);
    ScaleEq(c, y);
    ScaleEq(c, z);
    Reduced(0);
    CongAdd(v, c * y, w, c * z, P);
    ScaleOfSum(c, y, z);
    ZeroProduct(c, y + z);
    ModIffEq(v + w, 0);
    ModIffEq(y + z, 0);
  }

  lemma SecantScales(b: int, d: int, c: int, s: Point, t: Point)
    requires IsPrime(P) && Eq(d, b * (c * c)) && OnCurve(d, s) && OnCurve(d, t)
    requires s.Affine? && t.Affine? && s.x != t.x
    ensures Scale(c, AddPoints(d, s, t)) == AddPoints(b, Scale(c, s), Scale(c, t))
  {
    hide Residue, Mod, F, Div, Chord;
    var rise, rise' := t.y - s.y, Mod(c * t.y) - Mod(c * s.y);
    Canonical(s.x, t.x);
    EqDifference(t.x, s.x);
    ScaleEq(c, s.y);
    ScaleEq(c, t.y);
    CongSub(Mod(c * t.y), c * t.y, Mod(c * s.y), c * s.y, P);
    assert c * t.y - c * s.y == c * rise;
    SlopeOfSecant(c, rise, rise', t.x - s.x);
    ChordScales(b, d, c, Div(rise, t.x - s.x), Div(rise', t.x - s.x), s.x, s.y, t.x);
  }

  lemma TangentScales(b: int, d: int, c: int, s: Point, t: Point)
    requires IsPrime(P) && !Eq(b, 0) && !Eq(c, 0) && !Eq(d, 0) && Eq(d, b * (c * c)) && OnCurve(d, s) && OnCurve(d, t)
    requires s.Affine? && t.Affine? && s.x == t.x && Mod(s.y + t.y) != 0
    ensures Scale(c, AddPoints(d, s, t)) == AddPoints(b, Scale(c, s), Scale(c, t))
  {
    hide Residue, Mod, F, Div, Chord, TangentRise;
    var y, z := s.y, Mod(c * s.y);
    SameX(d, s, t);
    OppositeScales(c, y, y);
    Reduced(0);
    ModIffEq(y + y, 0);
    ModIffEq(z + z, 0);
    NonzeroDouble(d, y);
    NonzeroDouble(b, z);
    ScaleEq(c, y);
    SlopeOfTangent(b, d, c, TangentRise(s.x), y, z);
    ChordScales(b, d, c, Div(TangentRise(s.x), 2 * d * y), Div(TangentRise(s.x), 2 * b * z), s.x, y, t.x);
  }

  /** Scaling is a homomorphism. */
  lemma ScaleAdds(b: int, d: int, c: int, s: Point, t: Point)
    requires IsPrime(P) && !Eq(b, 0) && !Eq(c, 0) && !Eq(d, 0) && Eq(d, b * (c * c)) && OnCurve(d, s) && OnCurve(d, t)
    ensures Scale(c, AddPoints(d, s, t)) == AddPoints(b, Scale(c, s), Scale(c, t))
  {
    hide Residue, Mod, F, Div, Chord;
    if s.Affine? && t.Affine? {
      if s.x != t.x {
        SecantScales(b, d, c, s, t);
      } else if Mod(s.y + t.y) != 0 {
        TangentScales(b, d, c, s, t);
      } else {
        OppositeScales(c, s.y, t.y);
      }
    }
  }

  lemma AssociatesCarries(b: int, d: int, c: int, s: Point, t: Point, r: Point)
    requires IsPrime(P) && !Eq(b, 0) && !Eq(c, 0) && !Eq(d, 0) && Eq(d, b * (c * c)) && Associative(b)
    requires OnCurve(d, s) && OnCurve(d, t) && OnCurve(d, r)
    ensures AddPoints(d, AddPoints(d, s, t), r) == AddPoints(d, s, AddPoints(d, t, r))
  {
    hide Residue, Mod, F, AddPoints, OnCurve, Scale;
    var st, tr := AddPoints(d, s, t), AddPoints(d, t, r);
    AddOnCurve(d, s, t);
    AddOnCurve(d, t, r);
    AddOnCurve(d, st, r);
    AddOnCurve(d, s, tr);
    ScaleAdds(b, d, c, s, t);
    ScaleAdds(b, d, c, st, r);
    ScaleAdds(b, d, c, t, r);
    ScaleAdds(b, d, c, s, tr);
    ScaleOnCurve(b, d, c, s);
    ScaleOnCurve(b, d, c, t);
    ScaleOnCurve(b, d, c, r);
    Reassociate(b, Scale(c, s), Scale(c, t), Scale(c, r));
    ScaleInjective(d, c, AddPoints(d, st, r), AddPoints(d, s, tr));
  }

  /** Associativity carries over from the curve of b to that of b times a square. */
  lemma AssociativeCarries(b: int, d: int, c: int)
    requires GroupHypotheses(b) && !Eq(c, 0) && !Eq(d, 0) && Eq(d, b * (c * c))
    ensures GroupHypotheses(d)
  {
    hide Residue, Mod, F, AddPoints, OnCurve;
    forall s, t, r ensures AssociatesAt(d, s, t, r) {
      if OnCurve(d, s) && OnCurve(d, t) && OnCurve(d, r) {
        AssociatesCarries(b, d, c, s, t, r);
      }
    }
  }

  // ----- Every number is a square or twice a square -----

  // a square root of -1
  const ROOT: int := 0x2b832480_4fc1df0b_2b4d0099_3dfbd7a7_2f431806_ad2fe478_c4ee1b27_4a0ea0b0

  // (P - 1) / 4
  const QUARTER: nat := 0x1fffffff_ffffffff_ffffffff_ffffffff_ffffffff_ffffffff_ffffffff_fffffffb

  lemma PrimeValue()
    ensures P == 0x7fffffff_ffffffff_ffffffff_ffffffff_ffffffff_ffffffff_ffffffff_ffffffed == 4 * QUARTER + 1 && QUARTER % 2 == 1
  {
    hide Pow2;
    PowersOfTwo();
  }

  lemma RootIsRoot()
    ensures Eq(ROOT * ROOT, -1)
  {
    hide Pow2, Residue;
    PrimeValue();
    var k := 0xecaa2e2_f6a2302c_cedb31ac_05720688_238ced20_78f3eb0e_c9f22e8f_621972e5;
    assert ROOT * ROOT == -1 + k * 0x7fffffff_ffffffff_ffffffff_ffffffff_ffffffff_ffffffff_ffffffff_ffffffed;
    CongAddMultiple(-1, k, P);
  }

  lemma {:induction false} PowAdd(a: int, i: nat, j: nat)
    ensures Pow(a, i + j) == Pow(a, i) * Pow(a, j)
  {
    if i > 0 {
      PowAdd(a, i - 1, j);
      Associate(a, Pow(a, i - 1), Pow(a, j));
    }
  }

  lemma {:induction false} PowProduct(a: int, b: int, e: nat)
    ensures Pow(a * b, e) == Pow(a, e) * Pow(b, e)
  {
    if e > 0 {
      PowProduct(a, b, e - 1);
      Interchange(a, b, Pow(a, e - 1), Pow(b, e - 1));
    }
  }

  lemma Interchange(a: int, b: int, c: int, d: int)
    ensures (a * b) * (c * d) == (a * c) * (b * d)
  {
    assert (a * b) * (c * d) == a * (b * (c * d));
    assert b * (c * d) == c * (b * d);
    assert (a * c) * (b * d) == a * (c * (b * d));
  }

  lemma {:induction false} OddPowerOfMinusOne(e: nat)
    ensures Pow(-1, e) == if e % 2 == 0 then 1 else -1
  {
    if e > 0 { OddPowerOfMinusOne(e - 1); }
  }

  lemma {:induction false} FermatPower(a: int)
    requires IsPrime(P) && !Eq(a, 0)
    ensures Eq(Pow(a, P - 1), 1)
  {
    hide Residue;
    FermatInverse(a, P);
    assert Pow(a, P - 1) == a * Pow(a, P - 2);
  }

  /** A root of unity of order two is 1 or -1. */
  lemma PlusOrMinusOne(e: int)
    requires IsPrime(P) && Eq(e * e, 1)
    ensures Eq(e, 1) || Eq(e, -1)
  {
    hide Residue;
    EqDifference(e * e, 1);
    assert e * e - 1 == (e - 1) * (e + 1);
    ZeroProduct(e - 1, e + 1);
    EqDifference(e, 1);
    EqDifference(e, -1);
    assert e - -1 == e + 1;
  }

  lemma RootNonzero()
    requires IsPrime(P)
    ensures !Eq(ROOT, 0) && !Eq(1 + ROOT, 0) && Eq((1 + ROOT) * (1 + ROOT), 2 * ROOT)
  {
    hide Residue;
    var i := ROOT;
    RootIsRoot();
    SmallNonZero(1);
    SmallNonZero(2);
    if Eq(i, 0) {
      CongScale(i, 0, i, P);
      CongScale(-1, 0, -1, P);
    }
    assert (1 + i) * (1 + i) == (1 + 2 * i) + i * i;
    CongAdd(1 + 2 * i, 1 + 2 * i, i * i, -1, P);
    if Eq(1 + i, 0) {
      CongScale(1 + i, 0, 1 + i, P);
      ZeroProduct(2, i);
    }
  }

  lemma {:induction false} HalfPower(a: int)
    ensures Pow(a, 2 * QUARTER) == Pow(a, QUARTER) * Pow(a, QUARTER) == Pow(a * a, QUARTER)
    ensures Pow(a, P - 1) == Pow(a, 2 * QUARTER) * Pow(a, 2 * QUARTER)
  {
    hide Pow, Pow2;
    PrimeValue();
    PowAdd(a, QUARTER, QUARTER);
    PowSquare(a, QUARTER);
    PowAdd(a, 2 * QUARTER, 2 * QUARTER);
  }

  /** 2 is not a square: its power by (P - 1) / 2 is -1, as (1 + i)^2 = 2i shows. */
  lemma TwoIsNoSquare()
    requires IsPrime(P)
    ensures Eq(Pow(2, 2 * QUARTER), -1)
  {
    hide Residue, Pow;
    PrimeValue();
    RootNonzero();
    RootIsRoot();
    FermatPower(1 + ROOT);
    PowerOfTwo(ROOT, QUARTER);
  }

  lemma {:induction false} PowerOfRoot(i: int, e: nat)
    requires Eq(i * i, -1) && e % 2 == 1
    ensures Eq(Pow(i, 2 * e), -1)
  {
    hide Residue, Pow;
    PowSquare(i, e);
    CongPow(i * i, -1, e, P);
    OddPowerOfMinusOne(e);
  }

  lemma {:induction false} PowerOfTwo(i: int, e: nat)
    requires Eq(i * i, -1) && e % 2 == 1 && Eq((1 + i) * (1 + i), 2 * i) && Eq(Pow(1 + i, 4 * e), 1)
    ensures Eq(Pow(2, 2 * e), -1)
  {
    hide Residue, Pow;
    var w, two := 1 + i, Pow(2, 2 * e);
    PowSquare(w, 2 * e);
    CongPow(w * w, 2 * i, 2 * e, P);
    PowProduct(2, i, 2 * e);
    PowerOfRoot(i, e);
    CongScale(Pow(i, 2 * e), -1, two, P);
    CongScale(two * -1, 1, -1, P);
  }

  /** A number whose power by (P - 1) / 2 is 1 has a square root. */
  lemma RootOf(a: int) returns (c: int)
    requires IsPrime(P) && Eq(Pow(a, 2 * QUARTER), 1)
    ensures Eq(a, c * c)
  {
    hide Residue, Pow;
    var r, k := Pow(a, QUARTER), (QUARTER + 1) / 2;
    var d := Pow(a, k);
    PrimeValue();
    HalfPower(a);
    PlusOrMinusOne(r);
    PowAdd(a, k, k);
    PowAdd(a, 1, QUARTER);
    PowerOne(a);
    assert d * d == a * r;
    if Eq(r, 1) {
      CongScale(r, 1, a, P);
      c := d;
    } else {
      c := ROOT * d;
      CongScale(r, -1, a, P);
      RootIsRoot();
      CongMul(ROOT * ROOT, -1, d * d, a * -1, P);
      Interchange(ROOT, d, ROOT, d);
    }
  }

  lemma {:induction false} PowerOne(a: int)
    ensures Pow(a, 1) == a
  {
  }

  /** Every nonzero number is a square or twice a square. */
  lemma SquareOrTwice(a: int) returns (c: int)
    requires IsPrime(P) && !Eq(a, 0)
    ensures Eq(a, 1 * (c * c)) || Eq(a, 2 * (c * c))
  {
    hide Residue, Pow;
    var h := 2 * QUARTER;
    var e := Pow(a, h);
    HalfPower(a);
    FermatPower(a);
    PlusOrMinusOne(e);
    if Eq(e, 1) {
      c := RootOf(a);
    } else {
      TwoIsNoSquare();
      PowProduct(2, a, h);
      CongMul(Pow(2, h), -1, e, -1, P);
      var d := RootOf(2 * a);
      c := d * ((P + 1) / 2);
      Halve(a, d);
    }
  }

  lemma Halve(a: int, d: int)
    requires Eq(2 * a, d * d)
    ensures var c := d * ((P + 1) / 2); Eq(a, 2 * (c * c))
  {
    hide Residue, Pow2;
    PrimeValue();
    var f := (P + 1) / 2;
    assert 2 * f == 1 + 1 * P;
    CongAddMultiple(1, 1, P);
    Interchange(d, f, d, f);
    var x := d * d;
    CongScale(x, 2 * a, 2 * (f * f), P);
    assert 2 * ((d * f) * (d * f)) == x * (2 * (f * f));
    assert (2 * a) * (2 * (f * f)) == a * ((2 * f) * (2 * f)) by { FourHalves(a, f); }
    CongMul(2 * f, 1, 2 * f, 1, P);
    CongScale((2 * f) * (2 * f), 1, a, P);
  }

  lemma FourHalves(a: int, f: int)
    ensures (2 * a) * (2 * (f * f)) == a * ((2 * f) * (2 * f))
  {
    assert (2 * f) * (2 * f) == 4 * (f * f);
  }

  // ----- Two curves suffice -----

  /** The group law on Curve25519 and on one twist. */
  ghost predicate TwoGroups() {
    IsPrime(P) && Associative(1) && Associative(2)
  }

  lemma TwoCurvesSuffice(b: int)
    requires TwoGroups() && !Eq(b, 0)
    ensures GroupHypotheses(b)
  {
    hide Residue, Associative;
    SmallNonZero(1);
    SmallNonZero(2);
    var c := SquareOrTwice(b);
    NonzeroRoot(b, c);
    if Eq(b, 1 * (c * c)) {
      AssociativeCarries(1, b, c);
    } else {
      AssociativeCarries(2, b, c);
    }
  }

  lemma NonzeroRoot(b: int, c: int)
    requires IsPrime(P) && !Eq(b, 0) && (Eq(b, 1 * (c * c)) || Eq(b, 2 * (c * c)))
    ensures !Eq(c, 0)
  {
    hide Residue;
    if Eq(c, 0) {
      ZeroProduct(c, c);
      ZeroProduct(1, c * c);
      ZeroProduct(2, c * c);
    }
  }

  // the y-coordinate of the base point, section 4.1 of RFC 7748
  const BASE_Y: int := 0x20ae19a1_b8a086b4_e01edd2c_7748d14c_923d4d7e_6d7c61b2_29e9c5a2_7eced3d9

  lemma BaseOnCurve()
    ensures Eq(F(9), 1 * (BASE_Y * BASE_Y))
  {
    hide Pow2, Residue;
    PrimeValue();
    var k := 0x857f99e_9120303a_de9095a8_bedf36f5_1aa76f4d_de596373_919923c6_5b40bdad;
    assert F(9) == 39420360;
    assert BASE_Y * BASE_Y == 39420360 + k * 0x7fffffff_ffffffff_ffffffff_ffffffff_ffffffff_ffffffff_ffffffff_ffffffed;
    CongAddMultiple(39420360, k, P);
  }

  /** For the base point the group law on Curve25519 is enough. */
  lemma BaseIsOnCurve25519()
    requires GroupHypotheses(1)
    ensures GroupHypotheses(Twist(9))
  {
    hide Residue, Associative, Mod, F;
    LiftOnCurve(9);
    BaseOnCurve();
    TwistOfBase();
    NonzeroRoot(F(9), BASE_Y);
    AssociativeCarries(1, F(9), BASE_Y);
  }

  lemma TwistOfBase()
    ensures Twist(9) == F(9) && !Eq(F(9), 0)
  {
    Reduced(9);
    assert F(9) == 39420360;
    Reduced(39420360);
    SmallNonZero(39420360);
  }
}
