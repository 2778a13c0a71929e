/**
 The Montgomery ladder of lib/x25519.js, lines 31 to 77: the loop with lazy conditional
 swaps computes the textbook ladder, and the textbook ladder computes multiples of points.
 */
module Ladder {
  import opened NumberTheory
  import opened Bits
  import opened Field
  import opened Identities
  import opened XOnly

  // (A - 2) / 4
  const A24: int := 121665

  datatype State = State(x2: int, z2: int, x3: int, z3: int)

  function Swap(s: State): State {
    State(s.x3, s.z3, s.x2, s.z2)
  }

  /** One pass of the loop body, after the conditional swap. */
  function Step(x1: int, s: State): State {
    var State(x2, z2, x3, z3) := s;
    var a := Add(x2, z2);
    var aa := Mul(a, a);
    var b := Sub(x2, z2);
    var bb := Mul(b, b);
    var e := Sub(aa, bb);
    var c := Add(x3, z3);
    var d := Sub(x3, z3);
    var da := Mul(d, a);
    var cb := Mul(c, b);
    State(Mul(aa, bb), Mul(e, Add(aa, Mul(A24, e))),
          Mul(Add(da, cb), Add(da, cb)), Mul(x1, Mul(Sub(da, cb), Sub(da, cb))))
  }

  // ----- The textbook ladder -----

  function Doubled(x: int, z: int): (int, int) {
    (Mod(DoubledX(x, z)), Mod(DoubledZ(x, z)))
  }

  function Summed(u: int, s: State): (int, int) {
    (Mod(SumX(s.x2, s.z2, s.x3, s.z3)), Mod(SumZ(u, s.x2, s.z2, s.x3, s.z3)))
  }

  /** A branch on each bit: the pair on the side of the bit is doubled, the other becomes the sum. */
  function TextbookStep(u: int, s: State, bit: nat): State {
    var sum := Summed(u, s);
    if bit == 0 then
      var double := Doubled(s.x2, s.z2);
      State(double.0, double.1, sum.0, sum.1)
    else
      var double := Doubled(s.x3, s.z3);
      State(sum.0, sum.1, double.0, double.1)
  }

  /** The ladder after the n low bits of m, taken from the highest. */
  function Textbook(m: nat, n: nat, u: int): State {
    if n == 0 then State(1, 0, u, 1) else TextbookStep(u, Textbook(m / 2, n - 1, u), m % 2)
  }

  function LadderValue(k: nat, u: int): int {
    var s := Textbook(k, WIDTH, u);
    Mul(s.x2, Inverse(s.z2))
  }

  // ----- The loop body is Montgomery doubling and differential addition -----

  lemma StepDoubles(x1: int, s: State)
    ensures (Step(x1, s).x2, Step(x1, s).z2) == Doubled(s.x2, s.z2)
  {
    hide Residue, Mod;
    var x, z := s.x2, s.z2;
    var a, b := Add(x, z), Sub(x, z);
    var aa, bb := Mul(a, a), Mul(b, b);
    var e := Sub(aa, bb);
    var p, q := (x + z) * (x + z), (x - z) * (x - z);
    AddEq(x, x, z, z);
    SubEq(x, x, z, z);
    MulEq(a, x + z, a, x + z);
    MulEq(b, x - z, b, x - z);
    SubEq(aa, p, bb, q);
    MulEq(A24, A24, e, p - q);
    AddEq(aa, p, Mul(A24, e), A24 * (p - q));
    CongMul(aa, p, bb, q, P);
    CongMul(e, p - q, Add(aa, Mul(A24, e)), p + A24 * (p - q), P);
    DoublingForm(x, z);
    ModIffEq(aa * bb, DoubledX(x, z));
    ModIffEq(e * Add(aa, Mul(A24, e)), DoubledZ(x, z));
  }

  lemma DoublingForm(x: int, z: int)
    ensures var p, q := (x + z) * (x + z), (x - z) * (x - z);
      p * q == DoubledX(x, z) && (p - q) * (p + A24 * (p - q)) == DoubledZ(x, z)
  {
    var p, q := (x + z) * (x + z), (x - z) * (x - z);
    assert (x + z) * (x - z) == x * x - z * z;
    SquareOfProduct(x + z, x - z);
    assert p - q == 4 * (x * z);
    assert p == x * x + 2 * (x * z) + z * z;
  }

  lemma SquareOfProduct(a: int, b: int)
    ensures (a * a) * (b * b) == (a * b) * (a * b)
  {
  }

  lemma StepSums(x1: int, s: State)
    ensures (Step(x1, s).x3, Step(x1, s).z3) == Summed(x1, s)
  {
    hide Residue, Mod;
    var State(x2, z2, x3, z3) := s;
    var a, b, c, d := Add(x2, z2), Sub(x2, z2), Add(x3, z3), Sub(x3, z3);
    var da, cb := Mul(d, a), Mul(c, b);
    var p, q := (x3 - z3) * (x2 + z2), (x3 + z3) * (x2 - z2);
    AddEq(x2, x2, z2, z2);
    SubEq(x2, x2, z2, z2);
    AddEq(x3, x3, z3, z3);
    SubEq(x3, x3, z3, z3);
    MulEq(d, x3 - z3, a, x2 + z2);
    MulEq(c, x3 + z3, b, x2 - z2);
    AddEq(da, p, cb, q);
    SubEq(da, p, cb, q);
    CongMul(Add(da, cb), p + q, Add(da, cb), p + q, P);
    MulEq(Sub(da, cb), p - q, Sub(da, cb), p - q);
    CongScale(Mul(Sub(da, cb), Sub(da, cb)), (p - q) * (p - q), x1, P);
    SumForm(x1, x2, z2, x3, z3);
    ModIffEq(Add(da, cb) * Add(da, cb), SumX(x2, z2, x3, z3));
    ModIffEq(x1 * Mul(Sub(da, cb), Sub(da, cb)), SumZ(x1, x2, z2, x3, z3));
  }

  lemma SumForm(u: int, x2: int, z2: int, x3: int, z3: int)
    ensures var p, q := (x3 - z3) * (x2 + z2), (x3 + z3) * (x2 - z2);
      (p + q) * (p + q) == SumX(x2, z2, x3, z3) && u * ((p - q) * (p - q)) == SumZ(u, x2, z2, x3, z3)
  {
    var p, q := (x3 - z3) * (x2 + z2), (x3 + z3) * (x2 - z2);
    var g, h := x2 * x3 - z2 * z3, x2 * z3 - z2 * x3;
    assert p + q == 2 * g;
    assert p - q == -2 * h;
    FourSquares(g);
    FourSquares(h);
    assert u * (4 * (h * h)) == 4 * u * (h * h);
  }

  lemma FourSquares(g: int)
    ensures (2 * g) * (2 * g) == 4 * (g * g) && (-2 * g) * (-2 * g) == 4 * (g * g)
  {
  }

  lemma SumSymmetric(u: int, x2: int, z2: int, x3: int, z3: int)
    ensures SumX(x3, z3, x2, z2) == SumX(x2, z2, x3, z3) && SumZ(u, x3, z3, x2, z2) == SumZ(u, x2, z2, x3, z3)
  {
    var h := x2 * z3 - z2 * x3;
    assert x3 * x2 == x2 * x3 && z3 * z2 == z2 * z3;
    assert x3 * z2 - z3 * x2 == -h;
    NegatedSquare(h);
  }

  /** Differential addition does not depend on the order of its two pairs. */
  lemma SummedSymmetric(u: int, s: State)
    ensures Summed(u, Swap(s)) == Summed(u, s)
  {
    hide Residue, Mod, SumX, SumZ;
    SumSymmetric(u, s.x2, s.z2, s.x3, s.z3);
  }

  /** The loop body on the swapped state is the textbook step of a one bit, swapped. */
  lemma StepIsTextbook(u: int, s: State)
    ensures Step(u, s) == TextbookStep(u, s, 0)
    ensures Swap(Step(u, Swap(s))) == TextbookStep(u, s, 1)
  {
    hide Residue, Mod;
    StepDoubles(u, s);
    StepSums(u, s);
    StepDoubles(u, Swap(s));
    StepSums(u, Swap(s));
    SummedSymmetric(u, s);
  }

  /** The ladder of the source, with its deferred swaps, computes the textbook ladder. */
  method MontgomeryLadder(k: nat, u: int) returns (r: int)
    ensures r == LadderValue(k, u)
  {
    hide Residue, Mod, TextbookStep;
    var x1, x2, z2, x3, z3, swap := u, 1, 0, u, 1, 0;
    var t := 254;
    while t >= 0
      invariant -1 <= t <= 254 && x1 == u
      invariant swap == if t == 254 then 0 else ShiftRight(k, t + 1) % 2
      invariant Textbook(ShiftRight(k, t + 1), 254 - t, u)
             == if swap == 0 then State(x2, z2, x3, z3) else State(x3, z3, x2, z2)
    {
      var kt := BitAnd(ShiftRight(k, t), 1);
      AndOne(ShiftRight(k, t));
      XorOfBits(swap, kt);
      swap := BitXor(swap, kt);
      ghost var before := Textbook(ShiftRight(k, t + 1), 254 - t, u);
      if swap != 0 {
        x2, x3 := x3, x2;
        z2, z3 := z3, z2;
      }
      assert State(x2, z2, x3, z3) == if kt == 0 then before else Swap(before);
      StepIsTextbook(u, before);
      ghost var swapped := State(x2, z2, x3, z3);

      var A := Add(x2, z2);
      var AA := Mul(A, A);
      var B := Sub(x2, z2);
      var BB := Mul(B, B);
      var E := Sub(AA, BB);
      var C := Add(x3, z3);
      var D := Sub(x3, z3);
      var DA := Mul(D, A);
      var CB := Mul(C, B);

      var X3 := Mul(Add(DA, CB), Add(DA, CB));
      var Z3 := Mul(x1, Mul(Sub(DA, CB), Sub(DA, CB)));
      var X2 := Mul(AA, BB);
      var Z2 := Mul(E, Add(AA, Mul(A24, E)));

      x3, z3, x2, z2 := X3, Z3, X2, Z2;
      assert State(x2, z2, x3, z3) == Step(x1, swapped);
      swap := kt;
      t := t - 1;
    }
    if swap != 0 {
      x2, x3 := x3, x2;
      z2, z3 := z3, z2;
    }
    var i := Inv(z2);
    r := Mul(x2, i);
  }
}
