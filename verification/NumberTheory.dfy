/**
 Congruences modulo a positive number, Euclid's lemma and Fermat's little theorem.
 Two numbers are congruent when their (Euclidean) remainders are equal, so that
 congruence is reflexive, symmetric and transitive by plain equality.
 */
module NumberTheory {

  ghost predicate IsPrime(p: int) {
    2 <= p && forall m :: 2 <= m < p ==> p % m != 0
  }

  /** The remainder of a by p, in [0, p); defined by steps of p so that proofs see no division. */
  function Residue(a: int, p: int): int
    requires p > 0
    decreases if a < 0 then p - a else a
  {
    if a < 0 then Residue(a + p, p) else if a < p then a else Residue(a - p, p)
  }

  ghost predicate Cong(a: int, b: int, p: int)
    requires p > 0
  {
    Residue(a, p) == Residue(b, p)
  }

  function Pow(a: int, e: nat): int {
    if e == 0 then 1 else a * Pow(a, e - 1)
  }

  // ----- Congruences -----

  lemma {:induction false} ResidueIsRemainder(a: int, p: int)
    requires p > 0
    ensures Residue(a, p) == a % p
    decreases if a < 0 then p - a else a
  {
    if a < 0 {
      ResidueIsRemainder(a + p, p);
      RemainderUnique(a / p + 1, a % p, p);
      assert (a / p + 1) * p + a % p == a + p;
    } else if a < p {
      RemainderUnique(0, a, p);
    } else {
      ResidueIsRemainder(a - p, p);
      RemainderUnique(a / p - 1, a % p, p);
      assert (a / p - 1) * p + a % p == a - p;
    }
  }

  lemma ProductNonNegative(a: nat, b: nat)
    ensures a * b >= 0
  {
  }

  lemma MultipleIsLarge(d: int, p: int)
    requires p > 0 && d != 0
    ensures d * p >= p || d * p <= -p
  {
    if d > 0 { ProductNonNegative(d - 1, p); } else { ProductNonNegative(-d - 1, p); }
  }

  /** x is the remainder of k * p + x. */
  lemma RemainderUnique(k: int, x: int, p: int)
    requires 0 <= x < p
    ensures (k * p + x) % p == x
  {
    var y := k * p + x;
    var d := y / p - k;
    assert d * p == x - y % p;
    if d != 0 { MultipleIsLarge(d, p); }
  }

  lemma CongAddMultiple(a: int, k: int, p: int)
    requires p > 0
    ensures Cong(a + k * p, a, p)
  {
    var q := a / p;
    assert a + k * p == (q + k) * p + a % p;
    RemainderUnique(q + k, a % p, p);
    ResidueIsRemainder(a, p);
    ResidueIsRemainder(a + k * p, p);
  }

  /** Congruent numbers differ by a multiple of p. */
  lemma CongQuotient(a: int, b: int, p: int) returns (k: int)
    requires p > 0 && Cong(a, b, p)
    ensures a == b + k * p
  {
    ResidueIsRemainder(a, p);
    ResidueIsRemainder(b, p);
    k := a / p - b / p;
    assert a == (a / p) * p + a % p && b == (b / p) * p + b % p;
  }

  lemma CongDifference(a: int, b: int, p: int)
    requires p > 0
    ensures Cong(a, b, p) <==> Cong(a - b, 0, p)
  {
    if Cong(a, b, p) {
      var k := CongQuotient(a, b, p);
      CongAddMultiple(0, k, p);
    }
    if Cong(a - b, 0, p) {
      var k := CongQuotient(a - b, 0, p);
      CongAddMultiple(b, k, p);
    }
  }

  lemma {:induction false} CongMod(a: int, p: int)
    requires p > 0
    ensures Cong(Residue(a, p), a, p) && 0 <= Residue(a, p) < p
  {
    ResidueIsRemainder(a, p);
    assert a % p == a + (-(a / p)) * p;
    CongAddMultiple(a, -(a / p), p);
  }

  lemma CongAdd(a: int, a': int, b: int, b': int, p: int)
    requires p > 0 && Cong(a, a', p) && Cong(b, b', p)
    ensures Cong(a + b, a' + b', p)
  {
    var i := CongQuotient(a, a', p);
    var j := CongQuotient(b, b', p);
    assert a + b == a' + b' + (i + j) * p;
    CongAddMultiple(a' + b', i + j, p);
  }

  lemma CongSub(a: int, a': int, b: int, b': int, p: int)
    requires p > 0 && Cong(a, a', p) && Cong(b, b', p)
    ensures Cong(a - b, a' - b', p)
  {
    var i := CongQuotient(a, a', p);
    var j := CongQuotient(b, b', p);
    assert a - b == a' - b' + (i - j) * p;
    CongAddMultiple(a' - b', i - j, p);
  }

  lemma CongScale(a: int, a': int, c: int, p: int)
    requires p > 0 && Cong(a, a', p)
    ensures Cong(a * c, a' * c, p) && Cong(c * a, c * a', p)
  {
    var i := CongQuotient(a, a', p);
    assert a * c == a' * c + (i * c) * p;
    CongAddMultiple(a' * c, i * c, p);
  }

  lemma CongMul(a: int, a': int, b: int, b': int, p: int)
    requires p > 0 && Cong(a, a', p) && Cong(b, b', p)
    ensures Cong(a * b, a' * b', p)
  {
    CongScale(a, a', b, p);
    CongScale(b, b', a', p);
  }

  lemma {:induction false} CongPow(a: int, b: int, e: nat, p: int)
    requires p > 0 && Cong(a, b, p)
    ensures Cong(Pow(a, e), Pow(b, e), p)
  {
    if e > 0 {
      CongPow(a, b, e - 1, p);
      CongMul(a, b, Pow(a, e - 1), Pow(b, e - 1), p);
    }
  }

  lemma {:induction false} PowSquare(a: int, e: nat)
    ensures Pow(a * a, e) == Pow(a, 2 * e)
  {
    if e > 0 {
      PowSquare(a, e - 1);
      assert Pow(a, 2 * e) == a * (a * Pow(a, 2 * e - 2));
      assert a * (a * Pow(a, 2 * e - 2)) == (a * a) * Pow(a, 2 * e - 2);
    }
  }

  // ----- Euclid's lemma -----

  /** Descent on a: the remainder of p by a is a smaller witness. */
  lemma {:induction false} EuclidDescent(a: int, b: int, p: int)
    requires IsPrime(p) && 0 < a < p && Cong(a * b, 0, p)
    ensures Cong(b, 0, p)
    decreases a
  {
    if a > 1 {
      var q, r := p / a, p % a;
      assert r * b == p * b - q * (a * b);
      CongAddMultiple(0, b, p);
      CongScale(a * b, 0, q, p);
      CongSub(p * b, 0, q * (a * b), 0, p);
      EuclidDescent(r, b, p);
    }
  }

  lemma Euclid(a: int, b: int, p: int)
    requires IsPrime(p) && Cong(a * b, 0, p)
    ensures Cong(a, 0, p) || Cong(b, 0, p)
  {
    var r := Residue(a, p);
    CongMod(a, p);
    CongScale(r, a, b, p);
    if r != 0 {
      EuclidDescent(r, b, p);
    }
  }

  lemma Cancel(c: int, a: int, b: int, p: int)
    requires IsPrime(p) && Cong(c * a, c * b, p) && !Cong(c, 0, p)
    ensures Cong(a, b, p)
  {
    assert c * a - c * b == c * (a - b);
    CongDifference(c * a, c * b, p);
    Euclid(c, a - b, p);
    CongDifference(a, b, p);
  }

  // ----- Fermat's little theorem, by the binomial theorem -----

  function Choose(n: nat, k: nat): nat {
    if k == 0 then 1 else if n == 0 then 0 else Choose(n - 1, k - 1) + Choose(n - 1, k)
  }

  /** Sum of Choose(n, i) * a^i over i <= k. */
  function BinomialSum(a: int, n: nat, k: nat): int {
    Choose(n, k) * Pow(a, k) + if k == 0 then 0 else BinomialSum(a, n, k - 1)
  }

  lemma {:induction false} ChooseBeyond(n: nat, k: nat)
    requires k > n
    ensures Choose(n, k) == 0
  {
    if n > 0 {
      ChooseBeyond(n - 1, k - 1);
      ChooseBeyond(n - 1, k);
    }
  }

  lemma {:induction false} ChooseDiagonal(n: nat)
    ensures Choose(n, n) == 1
  {
    if n > 0 {
      ChooseDiagonal(n - 1);
      ChooseBeyond(n - 1, n);
    }
  }

  lemma {:induction false} Absorption(n: nat, k: nat)
    requires n > 0 && k > 0
    ensures k * Choose(n, k) == n * Choose(n - 1, k - 1)
  {
    if n == 1 {
      if k > 1 { ChooseBeyond(1, k); ChooseBeyond(0, k - 1); }
    } else {
      var c, d := Choose(n - 1, k - 1), Choose(n - 1, k);
      Absorption(n - 1, k);
      if k > 1 {
        Absorption(n - 1, k - 1);
        AbsorptionSum(n, k, c, d, Choose(n - 2, k - 2), Choose(n - 2, k - 1));
      }
    }
  }

  lemma AbsorptionSum(n: int, k: int, c: int, d: int, e: int, f: int)
    requires k * d == (n - 1) * f && (k - 1) * c == (n - 1) * e && c == e + f
    ensures k * (c + d) == n * c
  {
    assert k * (c + d) == c + (k - 1) * c + k * d;
    assert (n - 1) * (e + f) == (n - 1) * e + (n - 1) * f;
  }

  lemma {:induction false} BinomialStep(a: int, n: nat, k: nat)
    ensures BinomialSum(a, n + 1, k + 1) == BinomialSum(a, n, k + 1) + a * BinomialSum(a, n, k)
  {
    var c, d := Choose(n, k), Choose(n, k + 1);
    if k == 0 {
      BinomialTerms(c, d, a, 1, 0);
      assert Pow(a, 1) == a * Pow(a, 0);
    } else {
      BinomialStep(a, n, k - 1);
      BinomialTerms(c, d, a, Pow(a, k), BinomialSum(a, n, k - 1));
      assert Choose(n + 1, k + 1) == c + d && Pow(a, k + 1) == a * Pow(a, k);
    }
  }

  lemma BinomialTerms(c: int, d: int, a: int, x: int, s: int)
    ensures (c + d) * (a * x) + a * s == d * (a * x) + a * (c * x + s)
  {
    assert c * (a * x) == a * (c * x);
  }

  lemma {:induction false} BinomialTheorem(a: int, n: nat)
    ensures Pow(a + 1, n) == BinomialSum(a, n, n)
  {
    if n > 0 {
      var s := BinomialSum(a, n - 1, n - 1);
      BinomialTheorem(a, n - 1);
      BinomialStep(a, n - 1, n - 1);
      ChooseBeyond(n - 1, n);
      assert BinomialSum(a, n - 1, n) == 0 * Pow(a, n) + s == s;
      assert (a + 1) * s == s + a * s;
    }
  }

  lemma FactorOfMultiple(p: int, k: int, c: int, d: int)
    requires IsPrime(p) && 0 < k < p && k * c == d * p
    ensures Cong(c, 0, p)
  {
    hide Residue;
    CongAddMultiple(0, d, p);
    EuclidDescent(k, c, p);
  }

  lemma {:induction false} ChoosePrime(p: int, k: nat)
    requires IsPrime(p) && 0 < k < p
    ensures Cong(Choose(p, k), 0, p)
  {
    Absorption(p, k);
    FactorOfMultiple(p, k, Choose(p, k), Choose(p - 1, k - 1));
  }

  lemma {:induction false} InnerTermsVanish(a: int, p: int, k: nat)
    requires IsPrime(p) && k < p
    ensures Cong(BinomialSum(a, p, k), 1, p)
  {
    if k > 0 {
      InnerTermsVanish(a, p, k - 1);
      ChoosePrime(p, k);
      CongScale(Choose(p, k), 0, Pow(a, k), p);
      CongAdd(Choose(p, k) * Pow(a, k), 0, BinomialSum(a, p, k - 1), 1, p);
    }
  }

  lemma {:induction false} FermatNat(a: nat, p: int)
    requires IsPrime(p)
    ensures Cong(Pow(a, p), a, p)
  {
    if a == 0 {
      assert Pow(0, p) == 0;
    } else {
      var b := a - 1;
      FermatNat(b, p);
      BinomialTheorem(b, p);
      InnerTermsVanish(b, p, p - 1);
      ChooseDiagonal(p);
      CongAdd(Pow(b, p), b, BinomialSum(b, p, p - 1), 1, p);
    }
  }

  /** Fermat: a^(p-2) is the inverse of every a that p does not divide. */
  lemma {:induction false} FermatInverse(a: int, p: int)
    requires IsPrime(p) && !Cong(a, 0, p)
    ensures Cong(a * Pow(a, p - 2), 1, p)
  {
    CongMod(a, p);
    FermatNat(Residue(a, p), p);
    CongPow(Residue(a, p), a, p, p);
    assert Pow(a, p) == a * (a * Pow(a, p - 2));
    Cancel(a, a * Pow(a, p - 2), 1, p);
  }
}
