/**
 Little-endian coding, scalar clamping and u-coordinate masking
 (lib/x25519.js, lines 81 to 119).
 */
module Encoding {
  import opened NumberTheory
  import opened Bits
  import opened Results

  type Byte = b: int | 0 <= b < 256

  /** The base-256 value of a little-endian byte string. */
  function Value(bytes: seq<Byte>): nat {
    if bytes == [] then 0 else bytes[0] + 256 * Value(bytes[1..])
  }

  /** The size low bytes of x, least significant first. */
  function Digits(x: nat, size: nat): (r: seq<Byte>)
    ensures |r| == size
  {
    if size == 0 then [] else [x % 256] + Digits(x / 256, size - 1)
  }

  lemma {:induction false} NextByte(n: nat)
    ensures Pow2(8 * (n + 1)) == 256 * Pow2(8 * n)
  {
    PowerOfSum(8, 8 * n);
    assert Pow2(8) == 256;
  }

  lemma {:induction false} ValueBound(bytes: seq<Byte>)
    ensures Value(bytes) < Pow2(8 * |bytes|)
  {
    if bytes != [] {
      ValueBound(bytes[1..]);
      NextByte(|bytes| - 1);
    }
  }

  lemma {:induction false} ValueAppend(bytes: seq<Byte>, b: Byte)
    ensures Value(bytes + [b]) == Value(bytes) + b * Pow2(8 * |bytes|)
  {
    if bytes == [] {
      assert [b][1..] == [];
    } else {
      assert (bytes + [b])[1..] == bytes[1..] + [b];
      ValueAppend(bytes[1..], b);
      NextByte(|bytes| - 1);
      Regroup256(b, Pow2(8 * (|bytes| - 1)));
    }
  }

  lemma Regroup256(b: int, p: int)
    ensures 256 * (b * p) == b * (256 * p)
  {
  }

  /** The OR of the shifted bytes is the base-256 value. */
  method BytesToBigIntLE(bytes: seq<Byte>) returns (r: nat)
    ensures r == Value(bytes)
  {
    r := 0;
    for i := 0 to |bytes|
      invariant r == Value(bytes[..i])
    {
      ValueBound(bytes[..i]);
      ShiftLeftIsTimes(bytes[i], 8 * i);
      OrIsSum(r, bytes[i], 8 * i);
      ValueAppend(bytes[..i], bytes[i]);
      assert bytes[..i + 1] == bytes[..i] + [bytes[i]];
      r := BitOr(r, ShiftLeft(bytes[i], 8 * i));
    }
    assert bytes[..|bytes|] == bytes;
  }

  method BigIntToBytesLE(x: nat, size: nat) returns (out: array<Byte>)
    ensures fresh(out) && out[..] == Digits(x, size)
  {
    out := new Byte[size](_ => 0);
    var v := x;
    for i := 0 to size
      invariant out[..i] + Digits(v, size - i) == Digits(x, size)
    {
      AndMask(v, 8);
      assert Pow2(8) == 256;
      ghost var tail := Digits(v / 256, size - i - 1);
      out[i] := BitAnd(v, 0xFF);
      ShiftRightIsDiv(v, 8);
      assert out[..i + 1] + tail == out[..i] + ([v % 256] + tail);
      v := ShiftRight(v, 8);
    }
    assert out[..] == out[..size];
  }

  // ----- Round trips -----

  lemma {:induction false} ValueOfDigits(x: nat, size: nat)
    ensures Value(Digits(x, size)) == x % Pow2(8 * size)
  {
    if size > 0 {
      var p := Pow2(8 * (size - 1));
      ValueOfDigits(x / 256, size - 1);
      NextByte(size - 1);
      assert Digits(x, size)[1..] == Digits(x / 256, size - 1);
      ByteRemainder(x, p);
    }
  }

  lemma ByteRemainder(x: nat, p: nat)
    requires p > 0
    ensures x % (256 * p) == x % 256 + 256 * ((x / 256) % p)
  {
    var h := x / 256;
    var q, r := h / p, h % p;
    assert h == p * q + r;
    assert x == 256 * (p * q + r) + x % 256;
    assert 256 * (p * q) == (256 * p) * q;
    Remainder(x, 256 * p, q, 256 * r + x % 256);
  }

  lemma {:induction false} DigitsOfValue(bytes: seq<Byte>)
    ensures Digits(Value(bytes), |bytes|) == bytes
  {
    if bytes != [] {
      DigitsOfValue(bytes[1..]);
      var v := Value(bytes[1..]);
      assert (bytes[0] + 256 * v) / 256 == v && (bytes[0] + 256 * v) % 256 == bytes[0];
    }
  }

  // ----- Clamping and masking -----

  /** The clamped scalar: low three bits cleared, top bit cleared, bit 254 set. */
  function Clamped(k: seq<Byte>): seq<Byte>
    requires |k| == 32
  {
    k[0 := k[0] - k[0] % 8][31 := k[31] % 64 + 64]
  }

  function Masked(u: seq<Byte>): seq<Byte>
    requires |u| == 32
  {
    u[31 := u[31] % 128]
  }

  function ClampScalar(k: seq<Byte>): Result<nat> {
    if |k| != 32 then Failure("X25519 scalar must be 32 bytes") else Ok(Value(Clamped(k)))
  }

  function DecodeU(u: seq<Byte>): Result<nat> {
    if |u| != 32 then Failure("X25519 u-coordinate must be 32 bytes") else Ok(Value(Masked(u)))
  }

  lemma {:induction false} AndEven(a: nat, m: nat)
    ensures BitAnd(a, 2 * m) == 2 * BitAnd(a / 2, m)
  {
    assert (2 * m) / 2 == m && (2 * m) % 2 == 0;
    if a != 0 && m != 0 { BitAndStep(a, 2 * m); }
  }

  lemma {:induction false} And248(b: Byte)
    ensures BitAnd(b, 248) == b - b % 8
  {
    hide BitAnd, Pow2;
    SmallPowers();
    AndEven(b, 124);
    AndEven(b / 2, 62);
    AndEven(b / 4, 31);
    AndMask(b / 8, 5);
  }

  lemma {:induction false} OrTopBit(c: nat, n: nat)
    requires c < Pow2(n + 1)
    ensures BitOr(c, Pow2(n)) == c % Pow2(n) + Pow2(n)
  {
    if n > 0 {
      OrTopBit(c / 2, n - 1);
      HalfRemainder(c, Pow2(n - 1));
    }
  }

  lemma {:induction false} ClampedLastByte(b: Byte)
    ensures BitAnd(b, 127) == b % 128 && BitOr(b % 128, 64) == b % 64 + 64
  {
    hide BitAnd, BitOr, Pow2;
    SmallPowers();
    AndMask(b, 7);
    OrTopBit(b % 128, 6);
  }

  method ClampScalarBytes(kBytes: seq<Byte>) returns (r: Result<nat>)
    ensures r == ClampScalar(kBytes)
  {
    hide BitAnd, BitOr, Value;
    if |kBytes| != 32 {
      return Failure("X25519 scalar must be 32 bytes");
    }
    var k := new Byte[32](i requires 0 <= i < 32 => kBytes[i]);
    assert k[..] == kBytes;
    And248(k[0]);
    k[0] := BitAnd(k[0], 248);
    ClampedLastByte(k[31]);
    k[31] := BitAnd(k[31], 127);
    k[31] := BitOr(k[31], 64);
    assert k[..] == Clamped(kBytes);
    var v := BytesToBigIntLE(k[..]);
    r := Ok(v);
  }

  method DecodeUCoordinateBytes(uBytes: seq<Byte>) returns (r: Result<nat>)
    ensures r == DecodeU(uBytes)
  {
    if |uBytes| != 32 {
      return Failure("X25519 u-coordinate must be 32 bytes");
    }
    var u := new Byte[32](i requires 0 <= i < 32 => uBytes[i]);
    assert u[..] == uBytes;
    ClampedLastByte(u[31]);
    u[31] := BitAnd(u[31], 0x7F);
    assert u[..] == Masked(uBytes);
    var v := BytesToBigIntLE(u[..]);
    r := Ok(v);
  }

  lemma {:induction false} TopByte(bytes: seq<Byte>)
    requires |bytes| == 32
    ensures Value(bytes) == Value(bytes[..31]) + bytes[31] * Pow2(248)
    ensures Value(bytes[..31]) < Pow2(248)
  {
    assert bytes == bytes[..31] + [bytes[31]];
    ValueAppend(bytes[..31], bytes[31]);
    ValueBound(bytes[..31]);
  }

  lemma TopPowers()
    ensures Pow2(254) == 64 * Pow2(248) && Pow2(255) == 128 * Pow2(248) && Pow2(256) == 256 * Pow2(248)
  {
    PowerOfSum(6, 248);
    PowerOfSum(7, 248);
    PowerOfSum(8, 248);
    SmallPowers();
    hide Pow2;
  }

  lemma LowPowers()
    ensures Pow2(248) == 8 * Pow2(245) && Pow2(251) == 64 * Pow2(245) && Pow2(254) == 512 * Pow2(245)
  {
    SmallPowers();
    assert Pow2(3) == 8 && Pow2(9) == 512;
    hide Pow2;
    PowerOfSum(3, 245);
    PowerOfSum(6, 245);
    PowerOfSum(9, 245);
  }

  /** The bits of low + top * 8 * m from bit 3 up to the sixth of top. */
  lemma MiddleBits(low: nat, top: nat, m: nat)
    requires low < 8 * m
    ensures ((low + top * (8 * m)) / 8) % (64 * m) == low / 8 + (top % 64) * m
  {
    var q, r := top / 64, top % 64;
    var x := low / 8 + r * m;
    assert top * (8 * m) == 8 * (top * m);
    assert (low + 8 * (top * m)) / 8 == low / 8 + top * m;
    assert top * m == (64 * q + r) * m == (64 * m) * q + r * m;
    ByteRange(r, 0, 63, m);
    Remainder(low / 8 + top * m, 64 * m, q, x);
  }

  lemma {:induction false} ClearLowBits(k: seq<Byte>)
    requires k != []
    ensures Value(k[0 := k[0] - k[0] % 8]) == 8 * (Value(k) / 8)
  {
    var v := Value(k[1..]);
    assert k[0 := k[0] - k[0] % 8][1..] == k[1..];
    assert Value(k) == 8 * (k[0] / 8 + 32 * v) + k[0] % 8;
  }

  /**
   The clamped scalar in terms of the number coded: bits 3 to 253 are kept, bit 254 is set and all others
   are clear (section 5 of RFC 7748).
   */
  lemma {:induction false} ClampedValue(k: seq<Byte>)
    requires |k| == 32
    ensures Value(Clamped(k)) == Pow2(254) + 8 * ((Value(k) / 8) % Pow2(251))
  {
    hide Value, Pow2, Clamped;
    var c, m, low := Clamped(k), Pow2(245), Value(k[..31]);
    ClampedParts(k);
    ClearLowBits(k[..31]);
    LowPowers();
    TopByte(k);
    TopByte(c);
    MiddleBits(low, k[31], m);
    SplitTop(k[31] % 64, m);
  }

  lemma ClampedParts(k: seq<Byte>)
    requires |k| == 32
    ensures |Clamped(k)| == 32 && Clamped(k)[31] == k[31] % 64 + 64
    ensures Clamped(k)[..31] == k[..31][0 := k[..31][0] - k[..31][0] % 8]
  {
  }

  lemma SplitTop(r: int, m: int)
    ensures (r + 64) * (8 * m) == 512 * m + 8 * (r * m)
  {
  }

  /** The masked coordinate is the number coded without its highest bit. */
  lemma {:induction false} MaskedValue(u: seq<Byte>)
    requires |u| == 32
    ensures Value(Masked(u)) == Value(u) % Pow2(255)
  {
    var low, m := Value(u[..31]), Pow2(248);
    assert Masked(u)[..31] == u[..31];
    hide Value, Pow2;
    TopPowers();
    TopByte(u);
    TopByte(Masked(u));
    DropTopBit(low, u[31], m);
  }

  lemma DropTopBit(low: nat, top: nat, m: nat)
    requires low < m
    ensures (low + top * m) % (128 * m) == low + (top % 128) * m
  {
    var q, r := top / 128, top % 128;
    assert top * m == (128 * q + r) * m == (128 * m) * q + r * m;
    ByteRange(r, 0, 127, m);
    Remainder(low + top * m, 128 * m, q, low + r * m);
  }

  lemma {:induction false} LowByte(bytes: seq<Byte>)
    requires bytes != []
    ensures Value(bytes) % 8 == bytes[0] % 8
  {
    assert Value(bytes) == bytes[0] + 8 * (32 * Value(bytes[1..]));
  }

  lemma ClampedBytes(k: seq<Byte>)
    requires |k| == 32
    ensures |Clamped(k)| == 32 && 64 <= Clamped(k)[31] <= 127 && Clamped(k)[0] % 8 == 0
  {
  }

  lemma MaskedClear(d: seq<Byte>)
    requires |d| == 32 && d[31] < 128
    ensures Masked(d) == d
  {
  }

  /** Bounds from the top byte of 32. */
  lemma {:induction false} TopByteBounds(bytes: seq<Byte>, lo: int, hi: int)
    requires |bytes| == 32 && lo <= bytes[31] <= hi
    ensures lo * Pow2(248) <= Value(bytes) < (hi + 1) * Pow2(248)
  {
    hide Pow2, Value;
    TopByte(bytes);
    ByteRange(bytes[31], lo, hi, Pow2(248));
  }

  /** A clamped scalar is a multiple of 8 in [2^254, 2^255). */
  lemma ClampedRange(k: seq<Byte>)
    requires |k| == 32
    ensures Pow2(254) <= Value(Clamped(k)) < Pow2(255) && Value(Clamped(k)) % 8 == 0
  {
    hide Pow2, Value, Clamped;
    var c := Clamped(k);
    ClampedBytes(k);
    TopPowers();
    TopByteBounds(c, 64, 127);
    LowByte(c);
  }

  lemma ByteRange(b: int, lo: int, hi: int, p: nat)
    requires lo <= b <= hi
    ensures lo * p <= b * p <= hi * p
  {
    ProductNonNegative(b - lo, p);
    ProductNonNegative(hi - b, p);
  }

  /** Clamping again, after coding, changes nothing. */
  lemma ClampIdempotent(k: seq<Byte>)
    requires |k| == 32
    ensures ClampScalar(Digits(Value(Clamped(k)), 32)) == ClampScalar(k)
  {
    DigitsOfValue(Clamped(k));
    assert Clamped(Clamped(k)) == Clamped(k);
  }

  // The order of the prime subgroup, section 4.1 of RFC 7748.
  const SUBGROUP_ORDER: nat := 0x1000_0000_0000_0000_0000_0000_0000_0000_14de_f9de_a2f7_9cd6_5812_631a_5cf5_d3ed

  lemma PowersOfTwo()
    ensures Pow2(255) == 0x80000000_00000000_00000000_00000000_00000000_00000000_00000000_00000000
  {
    hide Pow2;
    SmallPowers();
    PowerOfSum(16, 16);
    PowerOfSum(32, 32);
    PowerOfSum(64, 64);
    PowerOfSum(128, 64);
    PowerOfSum(192, 32);
    PowerOfSum(224, 16);
    PowerOfSum(240, 8);
    PowerOfSum(248, 7);
  }

  /** A clamped scalar is never a multiple of the subgroup order. */
  lemma ClampedNotMultipleOfOrder(k: seq<Byte>, m: nat)
    requires |k| == 32
    ensures Value(Clamped(k)) != m * SUBGROUP_ORDER
  {
    hide Pow2, Value;
    var v := Value(Clamped(k));
    ClampedRange(k);
    PowersOfTwo();
    TopPowers();
    if v == m * SUBGROUP_ORDER {
      OddFactor(m, SUBGROUP_ORDER);
    }
  }

  lemma OddFactor(m: nat, odd: nat)
    requires odd % 8 == 5 && (m * odd) % 8 == 0
    ensures m % 8 == 0
  {
    var i, j := m / 8, odd / 8;
    assert m == 8 * i + m % 8 && odd == 8 * j + 5;
    assert m * odd == 8 * (i * odd + (m % 8) * j) + 5 * (m % 8);
  }

  /** A value below 2^255, such as a reduced u-coordinate, is coded with a clear top bit and decodes to itself. */
  lemma {:induction false} DecodedValue(x: nat)
    requires x < Pow2(255)
    ensures Masked(Digits(x, 32)) == Digits(x, 32) && Value(Digits(x, 32)) == x
  {
    hide Pow2, Value, Masked, Digits;
    var d := Digits(x, 32);
    ValueOfDigits(x, 32);
    TopPowers();
    Remainder(x, Pow2(256), 0, x);
    if d[31] >= 128 {
      TopByteBounds(d, 128, 255);
    }
    MaskedClear(d);
  }
}
