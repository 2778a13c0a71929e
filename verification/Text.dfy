/**
 ASCII text as code units, and decimal numerals.
 */
module Text {

  /** A UTF-16 code unit; ASCII code units are also UTF-8 bytes. */
  type Unit = c: int | 0 <= c < 0x1_0000

  /** The code units of a literal; the literals used are ASCII. */
  function Ascii(s: string): (r: seq<Unit>)
    ensures |r| == |s| && forall i :: 0 <= i < |r| ==> r[i] < 128 && (s[i] < 128 as char ==> r[i] == s[i] as int)
  {
    seq(|s|, i requires 0 <= i < |s| => if s[i] < 128 as char then s[i] as int else 63)
  }

  const ZERO: Unit := 48
  const NINE: Unit := 57
  const MINUS: Unit := 45

  predicate IsDigit(c: Unit) {
    ZERO <= c <= NINE
  }

  predicate AllDigits(s: seq<Unit>) {
    forall i :: 0 <= i < |s| ==> IsDigit(s[i])
  }

  /** The decimal numeral of n, without leading zeros. */
  function Decimal(n: nat): (r: seq<Unit>)
    ensures r != [] && AllDigits(r)
  {
    if n < 10 then [ZERO + n] else Decimal(n / 10) + [ZERO + n % 10]
  }

  /** The value of a string of digits. */
  function Numeral(s: seq<Unit>): nat
    requires AllDigits(s)
  {
    if s == [] then 0 else 10 * Numeral(s[..|s| - 1]) + (s[|s| - 1] - ZERO)
  }

  lemma {:induction false} NumeralOfDecimal(n: nat)
    ensures Numeral(Decimal(n)) == n
  {
    var d := Decimal(n);
    if n < 10 {
      assert d[..0] == [];
    } else {
      NumeralOfDecimal(n / 10);
      assert d[..|d| - 1] == Decimal(n / 10);
    }
  }

  lemma {:induction false} DecimalInjective(m: nat, n: nat)
    requires Decimal(m) == Decimal(n)
    ensures m == n
  {
    NumeralOfDecimal(m);
    NumeralOfDecimal(n);
  }

  /** n without its last i decimal digits. */
  function Leading(n: nat, i: nat): nat {
    if i == 0 then n else Leading(n / 10, i - 1)
  }

  /** Counted from the end, digit i of the numeral is the one of place value 10^i, in ASCII. */
  lemma {:induction false} DecimalDigit(n: nat, i: nat)
    requires i < |Decimal(n)|
    ensures Decimal(n)[|Decimal(n)| - 1 - i] == Ascii("0123456789")[Leading(n, i) % 10]
  {
    if i > 0 { DecimalDigit(n / 10, i - 1); }
  }

  /** The numeral has all digits of n and does not start with zero, unless n is 0. */
  lemma {:induction false} DecimalLength(n: nat)
    ensures Leading(n, |Decimal(n)|) == 0 && (n > 0 ==> Leading(n, |Decimal(n)| - 1) > 0)
    ensures n == 0 ==> Decimal(n) == Ascii("0")
  {
    if n >= 10 { DecimalLength(n / 10); }
  }
}
