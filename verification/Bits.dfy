/**
 The bit operators of JavaScript on non-negative integers (bigints and bytes).
 */
module Bits {
  import opened NumberTheory

  function Pow2(n: nat): (r: nat)
    ensures r >= 1
  {
    if n == 0 then 1 else 2 * Pow2(n - 1)
  }

  lemma {:induction false} PowerOfSum(m: nat, n: nat)
    ensures Pow2(m + n) == Pow2(m) * Pow2(n)
  {
    if m > 0 { PowerOfSum(m - 1, n); }
  }

  lemma {:induction false} PowerGrows(m: nat, n: nat)
    requires m <= n
    ensures Pow2(m) <= Pow2(n)
  {
    if m < n { PowerGrows(m, n - 1); }
  }

  lemma SmallPowers()
    ensures Pow2(5) == 32 && Pow2(6) == 64 && Pow2(7) == 128 && Pow2(8) == 256 && Pow2(16) == 0x1_0000
  {
  }

  /** a & b */
  function BitAnd(a: nat, b: nat): nat {
    if a == 0 || b == 0 then 0 else 2 * BitAnd(a / 2, b / 2) + (if a % 2 == 1 && b % 2 == 1 then 1 else 0)
  }

  /** a | b */
  function BitOr(a: nat, b: nat): nat {
    if a == 0 then b else if b == 0 then a else 2 * BitOr(a / 2, b / 2) + (if a % 2 == 1 || b % 2 == 1 then 1 else 0)
  }

  /** a ^ b */
  function BitXor(a: nat, b: nat): nat {
    if a == 0 then b else if b == 0 then a else 2 * BitXor(a / 2, b / 2) + (if a % 2 != b % 2 then 1 else 0)
  }

  /** a << n */
  function ShiftLeft(a: nat, n: nat): nat {
    if n == 0 then a else 2 * ShiftLeft(a, n - 1)
  }

  /** a >> n */
  function ShiftRight(a: nat, n: nat): nat {
    if n == 0 then a else ShiftRight(a, n - 1) / 2
  }

  lemma {:induction false} BitAndStep(a: nat, b: nat)
    requires a > 0 && b > 0
    ensures BitAnd(a, b) == 2 * BitAnd(a / 2, b / 2) + (if a % 2 == 1 && b % 2 == 1 then 1 else 0)
  {
  }

  lemma {:induction false} AndOne(a: nat)
    ensures BitAnd(a, 1) == a % 2
  {
    if a > 0 { assert BitAnd(a / 2, 0) == 0; }
  }

  lemma {:induction false} XorOfBits(a: nat, b: nat)
    requires a < 2 && b < 2
    ensures BitXor(a, b) == if a == b then 0 else 1
  {
  }

  lemma {:induction false} ShiftLeftIsTimes(a: nat, n: nat)
    ensures ShiftLeft(a, n) == a * Pow2(n)
  {
    if n > 0 { ShiftLeftIsTimes(a, n - 1); }
  }

  /** Masking with 2^n - 1 is the remainder by 2^n. */
  lemma {:induction false} AndMask(a: nat, n: nat)
    ensures BitAnd(a, Pow2(n) - 1) == a % Pow2(n)
    decreases n
  {
    if a == 0 {
      Remainder(0, Pow2(n), 0, 0);
    } else if n > 0 {
      AndMask(a / 2, n - 1);
      AndMaskStep(a, Pow2(n - 1));
    }
  }

  lemma {:induction false} AndMaskStep(a: nat, m: nat)
    requires a > 0 && m > 0 && BitAnd(a / 2, m - 1) == (a / 2) % m
    ensures BitAnd(a, 2 * m - 1) == a % (2 * m)
  {
    hide BitAnd;
    BitAndStep(a, 2 * m - 1);
    HalfOfMask(m);
    HalfRemainder(a, m);
  }

  lemma HalfOfMask(m: nat)
    requires m > 0
    ensures (2 * m - 1) / 2 == m - 1 && (2 * m - 1) % 2 == 1
  {
  }

  lemma HalfRemainder(a: nat, m: nat)
    requires m > 0
    ensures a % (2 * m) == 2 * ((a / 2) % m) + a % 2
  {
    var h, c := a / 2, a % 2;
    var q, r := h / m, h % m;
    var x := 2 * r + c;
    assert h == m * q + r;
    assert a == (2 * m) * q + x;
    assert 0 <= x < 2 * m;
    Remainder(a, 2 * m, q, x);
  }

  lemma Remainder(a: nat, d: nat, q: nat, r: nat)
    requires d > 0 && a == d * q + r && r < d
    ensures a % d == r && a / d == q
  {
    var e := a / d - q;
    RemainderUnique(q, r, d);
    assert e * d == 0;
    if e != 0 { MultipleIsLarge(e, d); }
  }

  /** Shifting right by n divides by 2^n. */
  lemma {:induction false} ShiftRightIsDiv(a: nat, n: nat)
    ensures ShiftRight(a, n) == a / Pow2(n)
  {
    if n > 0 {
      ShiftRightIsDiv(a, n - 1);
      HalfQuotient(a, Pow2(n - 1));
    }
  }

  lemma HalfQuotient(a: nat, d: nat)
    requires d > 0
    ensures (a / d) / 2 == a / (2 * d)
  {
    var q, r := a / d, a % d;
    var h := q / 2;
    assert a == d * q + r;
    if q % 2 == 0 {
      EvenSplit(d, h);
      Remainder(a, 2 * d, h, r);
    } else {
      EvenSplit(d, h);
      Remainder(a, 2 * d, h, d + r);
    }
  }

  lemma EvenSplit(d: nat, h: nat)
    ensures d * (2 * h) == (2 * d) * h && d * (2 * h + 1) == (2 * d) * h + d
  {
  }

  /** OR of numbers without common bits is their sum. */
  lemma {:induction false} OrIsSum(a: nat, b: nat, n: nat)
    requires a < Pow2(n)
    ensures BitOr(a, b * Pow2(n)) == a + b * Pow2(n)
    decreases n
  {
    if n > 0 && a > 0 && b > 0 {
      var m := Pow2(n - 1);
      assert b * (2 * m) == 2 * (b * m);
      OrIsSum(a / 2, b, n - 1);
      assert (2 * (b * m)) / 2 == b * m && (2 * (b * m)) % 2 == 0;
      ProductNonNegative(b, m);
    }
  }
}
