/**
 Arithmetic in the prime field of X25519 (lib/x25519.js, lines 3 to 27).
 */
module Field {
  import opened NumberTheory
  import opened Bits

  // The number of bits of a field element.
  const WIDTH: nat := 255

  /** Moduli large enough for the small constants of the curve to be distinct. */
  type Modulus = p: int | 0x100_0000_0000 < p witness 0x100_0000_0001

  // 2^255 - 19
  const P: Modulus := (WidthIsLarge(); Pow2(WIDTH) - 19)

  lemma WidthIsLarge()
    ensures Pow2(WIDTH) >= 0x200_0000_0000
  {
    hide Pow2;
    SmallPowers();
    PowerOfSum(16, 16);
    PowerOfSum(32, 16);
    PowerGrows(48, WIDTH);
  }

  /** JavaScript's `%`, which truncates toward zero: the result has the sign of a. */
  function JsRemainder(a: int, m: int): int
    requires m > 0
  {
    if a >= 0 then Residue(a, m) else -Residue(-a, m)
  }

  function Mod(a: int): int {
    var r := JsRemainder(a, P);
    if r >= 0 then r else r + P
  }

  function Add(a: int, b: int): int { Mod(a + b) }
  function Sub(a: int, b: int): int { Mod(a - b) }
  function Mul(a: int, b: int): int { Mod(a * b) }

  ghost predicate Eq(a: int, b: int) {
    Cong(a, b, P)
  }

  /** The truncating remainder, corrected by one P, is the Euclidean one. */
  lemma {:induction false} ModIsRemainder(a: int)
    ensures Mod(a) == Residue(a, P) && 0 <= Mod(a) < P && Eq(Mod(a), a)
  {
    CongMod(a, P);
    if a < 0 {
      CongMod(-a, P);
      CongScale(Residue(-a, P), -a, -1, P);
      Canonical(Mod(a), Residue(a, P));
    }
  }

  /** Congruent reduced numbers are equal. */
  lemma Canonical(x: int, y: int)
    requires 0 <= x < P && 0 <= y < P
    ensures Eq(x, y) <==> x == y
  {
  }

  lemma ModIffEq(a: int, b: int)
    ensures Mod(a) == Mod(b) <==> Eq(a, b)
  {
    hide Residue;
    ModIsRemainder(a);
    ModIsRemainder(b);
  }

  lemma Reduced(a: int)
    requires 0 <= a < P
    ensures Mod(a) == a
  {
  }

  lemma SmallNonZero(c: int)
    requires 0 < c < P
    ensures !Eq(c, 0)
  {
  }

  // ----- Congruence steps -----

  lemma AddEq(a: int, a': int, b: int, b': int)
    requires Eq(a, a') && Eq(b, b')
    ensures Eq(Add(a, b), a' + b')
  {
    hide Residue;
    ModIsRemainder(a + b);
    CongAdd(a, a', b, b', P);
  }

  lemma SubEq(a: int, a': int, b: int, b': int)
    requires Eq(a, a') && Eq(b, b')
    ensures Eq(Sub(a, b), a' - b')
  {
    hide Residue;
    ModIsRemainder(a - b);
    CongSub(a, a', b, b', P);
  }

  lemma MulEq(a: int, a': int, b: int, b': int)
    requires Eq(a, a') && Eq(b, b')
    ensures Eq(Mul(a, b), a' * b')
  {
    hide Residue;
    ModIsRemainder(a * b);
    CongMul(a, a', b, b', P);
  }

  /** If e and f differ by a combination of multiples of P, they are congruent. */
  lemma Combination(e: int, f: int, c: int, h: int, d: int, k: int)
    requires Eq(h, 0) && Eq(k, 0) && e - f == c * h + d * k
    ensures Eq(e, f)
  {
    hide Residue;
    CongScale(h, 0, c, P);
    CongScale(k, 0, d, P);
    CongAdd(c * h, 0, d * k, 0, P);
    CongDifference(e, f, P);
  }

  lemma EqDifference(a: int, b: int)
    ensures Eq(a, b) <==> Eq(a - b, 0)
  {
    hide Residue;
    CongDifference(a, b, P);
  }

  /** In a field a product vanishes only with one of its factors. */
  lemma ZeroProduct(a: int, b: int)
    requires IsPrime(P)
    ensures Eq(a * b, 0) <==> Eq(a, 0) || Eq(b, 0)
  {
    hide Residue;
    if Eq(a * b, 0) { Euclid(a, b, P); }
    if Eq(a, 0) { CongScale(a, 0, b, P); }
    if Eq(b, 0) { CongScale(b, 0, a, P); }
  }

  // ----- Inversion -----

  /** a^(P-2) reduced, the value that inversion computes. */
  function Inverse(a: int): int {
    Mod(Pow(a, P - 2))
  }

  /**
   Square and multiply, from the low bit of P - 2.
   */
  method Inv(a: int) returns (r: int)
    ensures r == Inverse(a)
  {
    r := 1;
    var x := Mod(a);
    var e := P - 2;
    ModIsRemainder(a);
    CongPow(x, a, P - 2, P);
    while e > 0
      invariant e >= 0 && 0 <= r < P
      invariant Eq(r * Pow(x, e), Pow(a, P - 2))
    {
      ghost var r0, x0, e0 := r, x, e;
      if e % 2 == 1 {
        r := Mul(r, x);
      }
      x := Mul(x, x);
      e := e / 2;
      PowerStep(r0, x0, e0);
    }
    ModIsRemainder(r);
    ModIffEq(r, Pow(a, P - 2));
    Reduced(r);
  }

  /** One turn of the loop keeps r * x^e up to congruence. */
  lemma {:induction false} PowerStep(r: int, x: int, e: int)
    requires e > 0
    ensures 0 <= Mul(r, x) < P
    ensures Eq((if e % 2 == 1 then Mul(r, x) else r) * Pow(Mul(x, x), e / 2), r * Pow(x, e))
  {
    hide Residue;
    var h := e / 2;
    var y := Pow(Mul(x, x), h);
    ModIsRemainder(r * x);
    MulEq(x, x, x, x);
    CongPow(Mul(x, x), x * x, h, P);
    PowSquare(x, h);
    if e % 2 == 1 {
      assert Pow(x, e) == x * Pow(x, 2 * h);
      CongMul(Mul(r, x), r * x, y, Pow(x, 2 * h), P);
      Associate(r, x, Pow(x, 2 * h));
    } else {
      CongScale(y, Pow(x, e), r, P);
    }
  }

  lemma Associate(a: int, b: int, c: int)
    ensures (a * b) * c == a * (b * c)
  {
  }

  /** Inversion: the multiplicative inverse away from zero, and zero at zero. */
  lemma InverseCorrect(a: int)
    requires IsPrime(P)
    ensures 0 <= Inverse(a) < P
    ensures !Eq(a, 0) ==> Eq(a * Inverse(a), 1)
    ensures Eq(a, 0) <==> Inverse(a) == 0
  {
    hide Residue;
    var w := Pow(a, P - 2);
    ModIsRemainder(w);
    CongScale(Inverse(a), w, a, P);
    Reduced(0);
    if Eq(a, 0) {
      CongScale(a, 0, Pow(a, P - 3), P);
      assert w == a * Pow(a, P - 3);
      ModIffEq(w, 0);
    } else {
      FermatInverse(a, P);
      SmallNonZero(1);
      if Eq(w, 0) {
        CongScale(w, 0, a, P);
      }
    }
  }

  lemma InverseEq(a: int, b: int)
    requires Eq(a, b)
    ensures Inverse(a) == Inverse(b)
  {
    hide Residue;
    CongPow(a, b, P - 2, P);
    ModIffEq(Pow(a, P - 2), Pow(b, P - 2));
  }

  /** The quotient n / d. */
  function Div(n: int, d: int): int {
    Mul(n, Inverse(d))
  }

  lemma DivCorrect(n: int, d: int)
    requires IsPrime(P) && !Eq(d, 0)
    ensures Eq(Div(n, d) * d, n)
  {
    hide Residue;
    var i := Inverse(d);
    InverseCorrect(d);
    ModIsRemainder(n * i);
    CongScale(Div(n, d), n * i, d, P);
    CongScale(d * i, 1, n, P);
    assert (n * i) * d == n * (d * i);
  }
}
