/**
 What the ladder computes: the x-coordinate of a multiple of a point, for every u.
 The hypotheses are that P is prime and that addition on the curve is associative.
 */
module LadderCorrectness {
  import opened NumberTheory
  import opened Bits
  import opened Field
  import opened Curve
  import opened XOnly
  import opened Ladder

  ghost predicate GroupHypotheses(b: int) {
    IsPrime(P) && !Eq(b, 0) && Associative(b)
  }

  // ----- Multiples of a point -----

  lemma {:induction false} TimesOnCurve(b: int, m: nat, q: Point)
    requires GroupHypotheses(b) && OnCurve(b, q)
    ensures OnCurve(b, Times(b, m, q))
  {
    hide Residue, AddPoints;
    if m > 0 {
      TimesOnCurve(b, m - 1, q);
      AddOnCurve(b, Times(b, m - 1, q), q);
    }
  }

  lemma AddInfinity(b: int, s: Point)
    ensures AddPoints(b, s, Infinity) == s == AddPoints(b, Infinity, s)
  {
  }

  lemma Reassociate(b: int, s: Point, t: Point, r: Point)
    requires GroupHypotheses(b) && OnCurve(b, s) && OnCurve(b, t) && OnCurve(b, r)
    ensures AddPoints(b, AddPoints(b, s, t), r) == AddPoints(b, s, AddPoints(b, t, r))
  {
    hide Residue, AddPoints;
    assert AssociatesAt(b, s, t, r);
  }

  lemma {:induction false} TimesAdd(b: int, i: nat, j: nat, q: Point)
    requires GroupHypotheses(b) && OnCurve(b, q)
    ensures AddPoints(b, Times(b, i, q), Times(b, j, q)) == Times(b, i + j, q)
  {
    hide Residue, AddPoints;
    AddInfinity(b, Times(b, i, q));
    if j > 0 {
      TimesAdd(b, i, j - 1, q);
      TimesOnCurve(b, i, q);
      TimesOnCurve(b, j - 1, q);
      Reassociate(b, Times(b, i, q), Times(b, j - 1, q), q);
    }
  }

  lemma {:induction false} TimesTimes(b: int, i: nat, j: nat, q: Point)
    requires GroupHypotheses(b) && OnCurve(b, q)
    ensures Times(b, i, Times(b, j, q)) == Times(b, i * j, q)
  {
    hide Residue, AddPoints;
    if i > 0 {
      TimesTimes(b, i - 1, j, q);
      TimesAdd(b, (i - 1) * j, j, q);
      assert (i - 1) * j + j == i * j;
    }
  }

  // ----- The ladder invariant -----

  lemma DoubledRepresents(b: int, s: Point, x: int, z: int)
    requires IsPrime(P) && !Eq(b, 0) && OnCurve(b, s) && Represents(x, z, s)
    ensures Represents(Doubled(x, z).0, Doubled(x, z).1, AddPoints(b, s, s))
  {
    hide Residue, AddPoints, Mod, DoubledX, DoubledZ, Represents;
    DoubleRepresents(b, s, x, z);
    ModIsRemainder(DoubledX(x, z));
    ModIsRemainder(DoubledZ(x, z));
    RepresentsEq(DoubledX(x, z), Doubled(x, z).0, DoubledZ(x, z), Doubled(x, z).1, AddPoints(b, s, s));
  }

  lemma SummedRepresents(b: int, q: Point, u: int, s: Point, t: Point, p: State)
    requires IsPrime(P) && !Eq(b, 0) && OnCurve(b, q) && OnCurve(b, s) && OnCurve(b, t)
    requires q.Affine? && Eq(u, q.x) && !Eq(u, 0)
    requires t == AddPoints(b, s, q) && AddPoints(b, t, Negate(s)) == q
    requires Represents(p.x2, p.z2, s) && Represents(p.x3, p.z3, t)
    ensures Represents(Summed(u, p).0, Summed(u, p).1, AddPoints(b, s, t))
  {
    hide Residue, AddPoints, Mod, SumX, SumZ, Represents;
    var State(x2, z2, x3, z3) := p;
    SumRepresents(b, q, s, t, x2, z2, x3, z3);
    SumEq(q.x, u, x2, x2, z2, z2, x3, x3, z3, z3);
    ModIsRemainder(SumX(x2, z2, x3, z3));
    ModIsRemainder(SumZ(u, x2, z2, x3, z3));
    RepresentsEq(SumX(x2, z2, x3, z3), Summed(u, p).0, SumZ(q.x, x2, z2, x3, z3), Summed(u, p).1,
                 AddPoints(b, s, t));
  }

  /** After n bits with value m the two pairs stand for mq and (m + 1)q. */
  lemma {:induction false} LadderInvariant(b: int, q: Point, m: nat, n: nat, u: int)
    requires GroupHypotheses(b) && OnCurve(b, q) && q.Affine? && Eq(u, q.x) && !Eq(u, 0) && m < Pow2(n)
    ensures Represents(Textbook(m, n, u).x2, Textbook(m, n, u).z2, Times(b, m, q))
    ensures Represents(Textbook(m, n, u).x3, Textbook(m, n, u).z3, Times(b, m + 1, q))
  {
    if n == 0 {
      LadderStart(b, q, u);
    } else {
      LadderInvariant(b, q, m / 2, n - 1, u);
      LadderTurn(b, q, m / 2, m % 2, u, Textbook(m / 2, n - 1, u));
    }
  }

  lemma {:induction false} LadderStart(b: int, q: Point, u: int)
    requires GroupHypotheses(b) && OnCurve(b, q) && q.Affine? && Eq(u, q.x)
    ensures Represents(1, 0, Times(b, 0, q)) && Represents(u, 1, Times(b, 1, q))
  {
    hide Residue, AddPoints;
    SmallNonZero(1);
    AddInfinity(b, q);
    assert Times(b, 1, q) == AddPoints(b, Times(b, 0, q), q);
  }

  lemma LadderTurn(b: int, q: Point, h: nat, bit: nat, u: int, p: State)
    requires GroupHypotheses(b) && OnCurve(b, q) && q.Affine? && Eq(u, q.x) && !Eq(u, 0) && bit < 2
    requires Represents(p.x2, p.z2, Times(b, h, q)) && Represents(p.x3, p.z3, Times(b, h + 1, q))
    ensures var r := TextbookStep(u, p, bit);
      Represents(r.x2, r.z2, Times(b, 2 * h + bit, q)) && Represents(r.x3, r.z3, Times(b, 2 * h + bit + 1, q))
  {
    hide Residue, AddPoints, Represents, Doubled, Summed;
    var s, t := Times(b, h, q), Times(b, h + 1, q);
    TimesOnCurve(b, h, q);
    TimesOnCurve(b, h + 1, q);
    assert AddPoints(b, t, Negate(s)) == q by {  // t = q + s
      NegateOnCurve(b, s);
      TimesAdd(b, 1, h, q);
      AddInfinity(b, q);
      assert Times(b, 1, q) == AddPoints(b, Times(b, 0, q), q);
      Reassociate(b, q, s, Negate(s));
    }
    TimesAdd(b, h, h, q);
    TimesAdd(b, h, h + 1, q);
    TimesAdd(b, h + 1, h + 1, q);
    SummedRepresents(b, q, u, s, t, p);
    DoubledRepresents(b, s, p.x2, p.z2);
    DoubledRepresents(b, t, p.x3, p.z3);
  }

  /** The final division recovers the x-coordinate, with zero for infinity. */
  lemma Normalise(x: int, z: int, b: int, s: Point)
    requires IsPrime(P) && Represents(x, z, s) && OnCurve(b, s)
    ensures Mul(x, Inverse(z)) == X0(s)
  {
    hide Residue, Mod, Inverse;
    var i := Inverse(z);
    InverseCorrect(z);
    Reduced(0);
    if s.Affine? {
      CongScale(x, s.x * z, i, P);
      CongScale(z * i, 1, s.x, P);
      Associate(s.x, z, i);
      ModIffEq(x * i, s.x);
      Reduced(s.x);
    }
  }

  // ----- The base u = 0 -----

  /** Every pair of the ladder on zero has a vanishing coordinate, so its value is zero. */
  lemma {:induction false} ZeroLadder(m: nat, n: nat, u: int)
    requires IsPrime(P) && Eq(u, 0)
    ensures var s := Textbook(m, n, u); Eq(s.x2 * s.z2, 0) && Eq(s.x3 * s.z3, 0)
  {
    hide Residue, Mod;
    if n > 0 {
      var s := Textbook(m / 2, n - 1, u);
      ZeroLadder(m / 2, n - 1, u);
      ZeroDouble(s.x2, s.z2);
      ZeroDouble(s.x3, s.z3);
      ZeroSum(u, s);
    } else {
      CongScale(u, 0, 1, P);
    }
  }

  lemma ZeroDouble(x: int, z: int)
    requires IsPrime(P) && Eq(x * z, 0)
    ensures Eq(Doubled(x, z).0 * Doubled(x, z).1, 0)
  {
    hide Residue, Mod;
    ZeroProduct(4, x * z);
    ZeroProduct(4 * (x * z), x * x + A * (x * z) + z * z);
    ModIsRemainder(DoubledZ(x, z));
    ZeroProduct(Doubled(x, z).0, Doubled(x, z).1);
  }

  lemma ZeroSum(u: int, s: State)
    requires IsPrime(P) && Eq(u, 0)
    ensures Eq(Summed(u, s).0 * Summed(u, s).1, 0)
  {
    hide Residue, Mod;
    var d := s.x2 * s.z3 - s.z2 * s.x3;
    ZeroProduct(4, u);
    ZeroProduct(4 * u, d * d);
    ModIsRemainder(SumZ(u, s.x2, s.z2, s.x3, s.z3));
    ZeroProduct(Summed(u, s).0, Summed(u, s).1);
  }

  lemma ZeroLadderValue(k: nat, u: int)
    requires IsPrime(P) && Eq(u, 0)
    ensures LadderValue(k, u) == 0
  {
    hide Residue, Mod, Inverse;
    var s := Textbook(k, WIDTH, u);
    ZeroLadder(k, WIDTH, u);
    ZeroProduct(s.x2, s.z2);
    InverseCorrect(s.z2);
    ZeroProduct(s.x2, Inverse(s.z2));
    ModIffEq(s.x2 * Inverse(s.z2), 0);
    Reduced(0);
  }

  /** The multiples of the point (0, 0) are itself and infinity. */
  lemma {:induction false} ZeroTimes(b: int, m: nat, q: Point)
    requires IsPrime(P) && !Eq(b, 0) && OnCurve(b, q) && q.Affine? && q.x == 0
    ensures Times(b, m, q) == Infinity || Times(b, m, q) == q
  {
    if m > 0 {
      ZeroTimes(b, m - 1, q);
      ZeroProduct(b, q.y * q.y);
      ZeroProduct(q.y, q.y);
      Canonical(q.y, 0);
    }
  }

  // ----- Main results -----

  /** The ladder returns the x-coordinate of kq for every point q over u, infinity giving zero. */
  lemma {:induction false} LadderComputesMultiple(b: int, q: Point, k: nat, u: int)
    requires GroupHypotheses(b) && OnCurve(b, q) && q.Affine? && Eq(u, q.x) && k < Pow2(WIDTH)
    ensures LadderValue(k, u) == X0(Times(b, k, q))
  {
    hide Residue, AddPoints, Represents, Inverse;
    if Eq(u, 0) {
      Canonical(q.x, 0);
      ZeroLadderValue(k, u);
      ZeroTimes(b, k, q);
    } else {
      LadderInvariant(b, q, k, WIDTH, u);
      TimesOnCurve(b, k, q);
      Normalise(Textbook(k, WIDTH, u).x2, Textbook(k, WIDTH, u).z2, b, Times(b, k, q));
    }
  }

  /** A twist and a point over u. */
  function Twist(u: int): int {
    if Mod(F(Mod(u))) == 0 then 1 else F(Mod(u))
  }

  function Lift(u: int): Point {
    Affine(Mod(u), if Mod(F(Mod(u))) == 0 then 0 else 1)
  }

  /** Every u is the x-coordinate of a point on one of the curves. */
  lemma LiftOnCurve(u: int)
    ensures !Eq(Twist(u), 0) && Lift(u).Affine? && OnCurve(Twist(u), Lift(u)) && Eq(u, Lift(u).x)
  {
    ModIsRemainder(u);
    ModIsRemainder(F(Mod(u)));
    Reduced(0);
    SmallNonZero(1);
    ModIffEq(F(Mod(u)), 0);
  }

  /** One ladder on the value of another: the multiple by the product. */
  lemma {:induction false} NestedLadder(u: int, i: nat, j: nat, m: nat)
    requires GroupHypotheses(Twist(u)) && i < Pow2(WIDTH) && j < Pow2(WIDTH) && m == i * j
    ensures LadderValue(i, LadderValue(j, u)) == X0(Times(Twist(u), m, Lift(u)))
  {
    hide Residue, AddPoints, Mod, Pow2, LadderValue, Lift, Twist, Times;
    var b, q := Twist(u), Lift(u);
    LiftOnCurve(u);
    LadderComputesMultiple(b, q, j, u);
    TimesOnCurve(b, j, q);
    TimesTimes(b, i, j, q);
    LadderOnX0(b, Times(b, j, q), i);
  }

  /** The ladder on the x-coordinate of a point, including infinity. */
  lemma {:induction false} LadderOnX0(b: int, r: Point, i: nat)
    requires GroupHypotheses(b) && OnCurve(b, r) && i < Pow2(WIDTH)
    ensures LadderValue(i, X0(r)) == X0(Times(b, i, r))
  {
    hide Residue, AddPoints, Mod, Pow2, LadderValue, Times;
    if r.Affine? {
      LadderComputesMultiple(b, r, i, r.x);
    } else {
      ZeroLadderValue(i, 0);
      TimesInfinity(b, i);
    }
  }

  lemma {:induction false} TimesInfinity(b: int, m: nat)
    ensures Times(b, m, Infinity) == Infinity
  {
    if m > 0 { TimesInfinity(b, m - 1); }
  }

  /** Ladders commute, which is key agreement for every base u. */
  lemma LaddersCommute(u: int, i: nat, j: nat)
    requires GroupHypotheses(Twist(u)) && i < Pow2(WIDTH) && j < Pow2(WIDTH)
    ensures LadderValue(i, LadderValue(j, u)) == LadderValue(j, LadderValue(i, u))
  {
    ProductNonNegative(i, j);
    NestedLadder(u, i, j, i * j);
    NestedLadder(u, j, i, i * j);
  }

  // ----- Unconditional properties -----

  lemma TextbookStepEq(u: int, u': int, s: State, s': State, bit: nat)
    requires Eq(u, u') && Eq(s.x2, s'.x2) && Eq(s.z2, s'.z2) && Eq(s.x3, s'.x3) && Eq(s.z3, s'.z3)
    ensures TextbookStep(u, s, bit) == TextbookStep(u', s', bit)
  {
    hide Residue, Mod, DoubledX, DoubledZ, SumX, SumZ;
    DoubledEq(s.x2, s'.x2, s.z2, s'.z2);
    DoubledEq(s.x3, s'.x3, s.z3, s'.z3);
    SumEq(u, u', s.x2, s'.x2, s.z2, s'.z2, s.x3, s'.x3, s.z3, s'.z3);
    ModIffEq(DoubledX(s.x2, s.z2), DoubledX(s'.x2, s'.z2));
    ModIffEq(DoubledZ(s.x2, s.z2), DoubledZ(s'.x2, s'.z2));
    ModIffEq(DoubledX(s.x3, s.z3), DoubledX(s'.x3, s'.z3));
    ModIffEq(DoubledZ(s.x3, s.z3), DoubledZ(s'.x3, s'.z3));
    ModIffEq(SumX(s.x2, s.z2, s.x3, s.z3), SumX(s'.x2, s'.z2, s'.x3, s'.z3));
    ModIffEq(SumZ(u, s.x2, s.z2, s.x3, s.z3), SumZ(u', s'.x2, s'.z2, s'.x3, s'.z3));
  }

  /** Non-canonical inputs: the value depends on u only modulo P, and is always reduced. */
  lemma LadderDependsOnResidue(k: nat, u: int, u': int)
    requires Eq(u, u')
    ensures LadderValue(k, u) == LadderValue(k, u') && 0 <= LadderValue(k, u) < P
  {
    hide Residue, Mod, Inverse, TextbookStep;
    var s := Textbook(k, WIDTH, u);
    ModIsRemainder(s.x2 * Inverse(s.z2));
    TextbookEq(k / 2, WIDTH - 1, u, u');
    TextbookStepEq(u, u', Textbook(k / 2, WIDTH - 1, u), Textbook(k / 2, WIDTH - 1, u'), k % 2);
  }

  lemma {:induction false} TextbookEq(m: nat, n: nat, u: int, u': int)
    requires Eq(u, u')
    ensures var s, s' := Textbook(m, n, u), Textbook(m, n, u');
      Eq(s.x2, s'.x2) && Eq(s.z2, s'.z2) && Eq(s.x3, s'.x3) && Eq(s.z3, s'.z3)
  {
    hide Residue, TextbookStep;
    if n > 0 {
      TextbookEq(m / 2, n - 1, u, u');
      TextbookStepEq(u, u', Textbook(m / 2, n - 1, u), Textbook(m / 2, n - 1, u'), m % 2);
    }
  }

  /** Scaling the pairs by l and n scales the doubled pair by l^4 and the sum by (l*n)^2. */
  lemma StepScales(u: int, s: State, l: int, n: int)
    ensures var t, r := Step(u, State(l * s.x2, l * s.z2, n * s.x3, n * s.z3)), Step(u, s);
      var c, d := (l * l) * (l * l), (l * n) * (l * n);
      t == State(Mul(c, r.x2), Mul(c, r.z2), Mul(d, r.x3), Mul(d, r.z3))
  {
    hide Residue, Mod, Step;
    var State(x2, z2, x3, z3) := s;
    var s' := State(l * x2, l * z2, n * x3, n * z3);
    var c, d := (l * l) * (l * l), (l * n) * (l * n);
    StepDoubles(u, s);
    StepSums(u, s);
    StepDoubles(u, s');
    StepSums(u, s');
    DoubledScales(l, x2, z2);
    SumScales(u, l, n, x2, z2, x3, z3);
    ScaledMod(c, DoubledX(x2, z2));
    ScaledMod(c, DoubledZ(x2, z2));
    ScaledMod(d, SumX(x2, z2, x3, z3));
    ScaledMod(d, SumZ(u, x2, z2, x3, z3));
  }

  lemma ScaledMod(c: int, v: int)
    ensures Mod(c * v) == Mul(c, Mod(v))
  {
    hide Residue, Mod;
    ModIsRemainder(v);
    CongScale(Mod(v), v, c, P);
    ModIffEq(c * v, c * Mod(v));
  }

  lemma DoubledScales(l: int, x: int, z: int)
    ensures var c := (l * l) * (l * l);
      DoubledX(l * x, l * z) == c * DoubledX(x, z) && DoubledZ(l * x, l * z) == c * DoubledZ(x, z)
  {
    var k, g, h := l * l, x * x - z * z, x * x + A * (x * z) + z * z;
    assert (l * x) * (l * x) - (l * z) * (l * z) == k * g;
    SquareOfProduct(k, g);
    assert (k * g) * (k * g) == (k * k) * (g * g);
    assert (l * x) * (l * z) == k * (x * z);
    assert (l * x) * (l * x) + A * (k * (x * z)) + (l * z) * (l * z) == k * h;
    assert 4 * (k * (x * z)) * (k * h) == (k * k) * (4 * (x * z) * h);
  }

  lemma SumScales(u: int, l: int, n: int, x2: int, z2: int, x3: int, z3: int)
    ensures var d := (l * n) * (l * n);
      SumX(l * x2, l * z2, n * x3, n * z3) == d * SumX(x2, z2, x3, z3) &&
      SumZ(u, l * x2, l * z2, n * x3, n * z3) == d * SumZ(u, x2, z2, x3, z3)
  {
    var w, g, h := l * n, x2 * x3 - z2 * z3, x2 * z3 - z2 * x3;
    assert (l * x2) * (n * x3) - (l * z2) * (n * z3) == w * g;
    assert (l * x2) * (n * z3) - (l * z2) * (n * x3) == w * h;
    assert 4 * ((w * g) * (w * g)) == (w * w) * (4 * (g * g));
    assert 4 * u * ((w * h) * (w * h)) == (w * w) * (4 * u * (h * h));
  }

  /** The affine value of a pair is unchanged by scaling. */
  lemma AffineValueScales(c: int, x: int, z: int)
    requires IsPrime(P) && !Eq(c, 0)
    ensures Mul(Mul(c, x), Inverse(Mul(c, z))) == Mul(x, Inverse(z))
  {
    hide Residue, Mod, Inverse;
    var v, i, j := Mul(c, z), Inverse(Mul(c, z)), Inverse(z);
    ModIsRemainder(c * z);
    ModIsRemainder(c * x);
    ZeroProduct(c, z);
    InverseCorrect(v);
    InverseCorrect(z);
    CongScale(Mul(c, x), c * x, i, P);
    if Eq(z, 0) {
      ZeroProduct(x, j);
      ZeroProduct(Mul(c, x), i);
    } else {
      // z * (c * x * i) = x * (c * z * i) = x = z * (x * j)
      CongScale(v, c * z, i, P);
      CongScale(v * i, 1, x, P);
      CongScale((c * z) * i, 1, x, P);
      CongScale(z * j, 1, x, P);
      ScaleTerms(c, x, z, i, j);
      CongScale(Mul(c, x) * i, (c * x) * i, z, P);
      Cancel(z, Mul(c, x) * i, x * j, P);
    }
    ModIffEq(Mul(c, x) * i, x * j);
  }

  /** Nonzero scalings of the two pairs leave the affine values after a step unchanged. */
  lemma StepKeepsAffineValues(u: int, s: State, l: int, n: int)
    requires IsPrime(P) && !Eq(l, 0) && !Eq(n, 0)
    ensures var t, r := Step(u, State(l * s.x2, l * s.z2, n * s.x3, n * s.z3)), Step(u, s);
      Mul(t.x2, Inverse(t.z2)) == Mul(r.x2, Inverse(r.z2)) && Mul(t.x3, Inverse(t.z3)) == Mul(r.x3, Inverse(r.z3))
  {
    hide Residue, Mod, Inverse, Step;
    var r := Step(u, s);
    StepScales(u, s, l, n);
    ZeroProduct(l, l);
    ZeroProduct(l * l, l * l);
    ZeroProduct(l, n);
    ZeroProduct(l * n, l * n);
    AffineValueScales((l * l) * (l * l), r.x2, r.z2);
    AffineValueScales((l * n) * (l * n), r.x3, r.z3);
  }

  lemma ScaleTerms(c: int, x: int, z: int, i: int, j: int)
    ensures z * ((c * x) * i) == x * ((c * z) * i) && z * (x * j) == x * (z * j)
  {
  }

  // ----- Scaling at any moment of a run -----

  /** The textbook ladder from state s through the n low bits of m. */
  function Continue(s: State, m: nat, n: nat, u: int): State {
    if n == 0 then s else TextbookStep(u, Continue(s, m / 2, n - 1, u), m % 2)
  }

  lemma {:induction false} ShiftHalf(m: nat, j: nat)
    requires j > 0
    ensures ShiftRight(m / 2, j - 1) == ShiftRight(m, j)
  {
    if j > 1 { ShiftHalf(m, j - 1); }
  }

  /** A run stops after its high bits and continues with the j low ones. */
  lemma {:induction false} TextbookContinues(m: nat, n: nat, u: int, j: nat)
    requires j <= n
    ensures Textbook(m, n, u) == Continue(Textbook(ShiftRight(m, j), n - j, u), m, j, u)
  {
    hide TextbookStep;
    if j > 0 {
      ShiftHalf(m, j);
      TextbookContinues(m / 2, n - 1, u, j - 1);
    }
  }

  function ScaledState(s: State, l: int, n: int): State {
    State(l * s.x2, l * s.z2, n * s.x3, n * s.z3)
  }

  /** t is s with its pairs scaled by nonzero factors, up to congruence. */
  ghost predicate Scaled(s: State, t: State, l: int, n: int) {
    && !Eq(l, 0) && !Eq(n, 0)
    && Eq(t.x2, l * s.x2) && Eq(t.z2, l * s.z2) && Eq(t.x3, n * s.x3) && Eq(t.z3, n * s.z3)
  }

  lemma PairScales(l: int, x: int, z: int)
    ensures var c := (l * l) * (l * l);
      Eq(Doubled(l * x, l * z).0, c * Doubled(x, z).0) && Eq(Doubled(l * x, l * z).1, c * Doubled(x, z).1)
  {
    hide Residue, Mod, DoubledX, DoubledZ;
    var c := (l * l) * (l * l);
    DoubledScales(l, x, z);
    ScaledMod(c, DoubledX(x, z));
    ScaledMod(c, DoubledZ(x, z));
    ModIsRemainder(c * Mod(DoubledX(x, z)));
    ModIsRemainder(c * Mod(DoubledZ(x, z)));
  }

  lemma SumsScale(u: int, s: State, l: int, n: int)
    ensures var d := (l * n) * (l * n); var r, t := Summed(u, s), Summed(u, ScaledState(s, l, n));
      Eq(t.0, d * r.0) && Eq(t.1, d * r.1)
  {
    hide Residue, Mod, SumX, SumZ;
    var d := (l * n) * (l * n);
    var State(x2, z2, x3, z3) := s;
    SumScales(u, l, n, x2, z2, x3, z3);
    ScaledMod(d, SumX(x2, z2, x3, z3));
    ScaledMod(d, SumZ(u, x2, z2, x3, z3));
    ModIsRemainder(d * Mod(SumX(x2, z2, x3, z3)));
    ModIsRemainder(d * Mod(SumZ(u, x2, z2, x3, z3)));
  }

  lemma NonzeroFactors(l: int, n: int)
    requires IsPrime(P) && !Eq(l, 0) && !Eq(n, 0)
    ensures !Eq((l * l) * (l * l), 0) && !Eq((n * n) * (n * n), 0) && !Eq((l * n) * (l * n), 0)
  {
    hide Residue;
    ZeroProduct(l, l);
    ZeroProduct(l * l, l * l);
    ZeroProduct(n, n);
    ZeroProduct(n * n, n * n);
    ZeroProduct(l, n);
    ZeroProduct(l * n, l * n);
  }

  lemma StepStaysScaled(u: int, s: State, t: State, l: int, n: int, bit: nat) returns (l': int, n': int)
    requires IsPrime(P) && Scaled(s, t, l, n)
    ensures Scaled(TextbookStep(u, s, bit), TextbookStep(u, t, bit), l', n')
  {
    hide Residue, Mod, Doubled, Summed;
    TextbookStepEq(u, u, t, ScaledState(s, l, n), bit);
    NonzeroFactors(l, n);
    PairScales(l, s.x2, s.z2);
    PairScales(n, s.x3, s.z3);
    SumsScale(u, s, l, n);
    if bit == 0 {
      l', n' := (l * l) * (l * l), (l * n) * (l * n);
    } else {
      l', n' := (l * n) * (l * n), (n * n) * (n * n);
    }
  }

  lemma {:induction false} RunStaysScaled(s: State, t: State, l: int, n: int, m: nat, j: nat, u: int)
    returns (l': int, n': int)
    requires IsPrime(P) && Scaled(s, t, l, n)
    ensures Scaled(Continue(s, m, j, u), Continue(t, m, j, u), l', n')
  {
    hide TextbookStep, Scaled;
    if j == 0 {
      l', n' := l, n;
    } else {
      var k, o := RunStaysScaled(s, t, l, n, m / 2, j - 1, u);
      l', n' := StepStaysScaled(u, Continue(s, m / 2, j - 1, u), Continue(t, m / 2, j - 1, u), k, o, m % 2);
    }
  }

  /**
   Nonzero scalings of the two pairs before any step leave the final value unchanged: with j bits still to
   come, the ladder may go on from any scaling of its state.
   */
  lemma {:induction false} ScalingKeepsLadderValue(k: nat, u: int, j: nat, l: int, n: int)
    requires IsPrime(P) && !Eq(l, 0) && !Eq(n, 0) && j <= WIDTH
    ensures var t := Continue(ScaledState(Textbook(ShiftRight(k, j), WIDTH - j, u), l, n), k, j, u);
      Mul(t.x2, Inverse(t.z2)) == LadderValue(k, u)
  {
    hide Residue, Mod, Inverse, Textbook, Continue;
    var s := Textbook(ShiftRight(k, j), WIDTH - j, u);
    TextbookContinues(k, WIDTH, u, j);
    var l', n' := RunStaysScaled(s, ScaledState(s, l, n), l, n, k, j, u);
    ScaledValue(Continue(s, k, j, u), Continue(ScaledState(s, l, n), k, j, u), l', n');
  }

  lemma ScaledValue(s: State, t: State, l: int, n: int)
    requires IsPrime(P) && Scaled(s, t, l, n)
    ensures Mul(t.x2, Inverse(t.z2)) == Mul(s.x2, Inverse(s.z2))
  {
    hide Residue, Mod, Inverse;
    AffineValueScales(l, s.x2, s.z2);
    ModIsRemainder(l * s.x2);
    ModIsRemainder(l * s.z2);
    InverseEq(t.z2, Mul(l, s.z2));
    CongScale(t.x2, Mul(l, s.x2), Inverse(t.z2), P);
    ModIffEq(t.x2 * Inverse(t.z2), Mul(l, s.x2) * Inverse(t.z2));
  }
}
