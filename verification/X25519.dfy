/**
 The public functions of lib/x25519.js, lines 123 to 134, and key agreement.
 */
module X25519 {
  import opened NumberTheory
  import opened Bits
  import opened Results
  import opened Field
  import opened Curve
  import opened Ladder
  import opened LadderCorrectness
  import opened Twists
  import opened Encoding

  /** The shared secret, or the error of the first argument of wrong length. */
  function Shared(scalar: seq<Byte>, u: seq<Byte>): Result<seq<Byte>> {
    if |scalar| != 32 then Failure("X25519 scalar must be 32 bytes")
    else if |u| != 32 then Failure("X25519 u-coordinate must be 32 bytes")
    else Ok(Public(Value(Clamped(scalar)), Value(Masked(u))))
  }

  /** The coded ladder value of a scalar and a u-coordinate. */
  function Public(k: nat, u: nat): seq<Byte> {
    LadderDependsOnResidue(k, u, u);
    Digits(LadderValue(k, u), 32)
  }

  function SharedBase(scalar: seq<Byte>): Result<seq<Byte>> {
    if |scalar| != 32 then Failure("X25519 scalar must be 32 bytes")
    else Ok(Public(Value(Clamped(scalar)), 9))
  }

  method Apply(scalarBytes: seq<Byte>, uBytes: seq<Byte>) returns (r: Result<seq<Byte>>)
    ensures r == Shared(scalarBytes, uBytes)
  {
    hide Value, LadderValue, Clamped, Masked;
    var k := ClampScalarBytes(scalarBytes);
    if k.Failure? { return Failure(k.error); }
    var u := DecodeUCoordinateBytes(uBytes);
    if u.Failure? { return Failure(u.error); }
    var v := MontgomeryLadder(k.value, u.value);
    LadderDependsOnResidue(k.value, u.value, u.value);
    var out := BigIntToBytesLE(v, 32);
    r := Ok(out[..]);
  }

  method ApplyBase(scalarBytes: seq<Byte>) returns (r: Result<seq<Byte>>)
    ensures r == SharedBase(scalarBytes)
  {
    hide Value, LadderValue, Clamped;
    var k := ClampScalarBytes(scalarBytes);
    if k.Failure? { return Failure(k.error); }
    var v := MontgomeryLadder(k.value, 9);
    LadderDependsOnResidue(k.value, 9, 9);
    var out := BigIntToBytesLE(v, 32);
    r := Ok(out[..]);
  }

  /** The coded base point: 9 and thirty-one zeros. */
  function BasePoint(): seq<Byte> {
    Digits(9, 32)
  }

  lemma FieldBelowTop()
    ensures P < Pow2(WIDTH)
  {
    hide Pow2;
    PowersOfTwo();
  }

  /** The base-point function is the general one on the coded 9. */
  lemma BaseIsNine(scalar: seq<Byte>)
    ensures SharedBase(scalar) == Shared(scalar, BasePoint())
  {
    hide Pow2, Value, LadderValue, Digits, Masked;
    PowersOfTwo();
    DecodedValue(9);
    assert |BasePoint()| == 32;
  }

  /**
   The result is the coded x-coordinate of kq, where k is the clamped scalar and q any point
   over the masked u-coordinate; infinity is coded as zero.
   */
  lemma {:induction false} SharedIsMultiple(b: int, q: Point, scalar: seq<Byte>, u: seq<Byte>)
    requires |scalar| == 32 && |u| == 32
    requires GroupHypotheses(b) && OnCurve(b, q) && q.Affine? && Eq(Value(Masked(u)), q.x)
    ensures var r := Shared(scalar, u);
      r.Ok? && |r.value| == 32 && Value(r.value) == X0(Times(b, Value(Clamped(scalar)), q)) < P
  {
    hide Pow2, Residue, Value, LadderValue, Clamped, Masked, AddPoints, Times;
    var k, v := Value(Clamped(scalar)), Value(Masked(u));
    ClampedRange(scalar);
    LadderComputesMultiple(b, q, k, v);
    LadderDependsOnResidue(k, v, v);
    FieldBelowTop();
    ValueOfDigits(LadderValue(k, v), 32);
    TopPowers();
    Remainder(LadderValue(k, v), Pow2(256), 0, LadderValue(k, v));
  }

  /** Decoding a result gives back the ladder value: the result is reduced and its top bit clear. */
  lemma ResultDecodes(scalar: seq<Byte>, u: seq<Byte>)
    requires |scalar| == 32 && |u| == 32
    ensures var r := Shared(scalar, u); r.Ok? && |r.value| == 32 && Masked(r.value) == r.value
    ensures Value(Shared(scalar, u).value) == LadderValue(Value(Clamped(scalar)), Value(Masked(u)))
  {
    hide Pow2, Value, LadderValue, Clamped, Residue;
    var k, v := Value(Clamped(scalar)), Value(Masked(u));
    LadderDependsOnResidue(k, v, v);
    FieldBelowTop();
    DecodedValue(LadderValue(k, v));
  }

  /** Both orders of the two scalars give the same secret when the group law holds on the curve of the base. */
  lemma AgreementOn(a: seq<Byte>, b: seq<Byte>, u: seq<Byte>)
    requires |a| == 32 && |b| == 32 && |u| == 32
    requires GroupHypotheses(Twist(Value(Masked(u))))
    ensures Shared(a, u).Ok? && Shared(b, u).Ok?
    ensures Shared(a, Shared(b, u).value) == Shared(b, Shared(a, u).value)
  {
    hide Pow2, Value, LadderValue, Clamped, Masked, Residue, AddPoints;
    var i, j, v := Value(Clamped(a)), Value(Clamped(b)), Value(Masked(u));
    ClampedRange(a);
    ClampedRange(b);
    ResultDecodes(a, u);
    ResultDecodes(b, u);
    LaddersCommute(v, i, j);
  }

  /** Key agreement on every base: the group laws of Curve25519 and of one twist are enough. */
  lemma Agreement(a: seq<Byte>, b: seq<Byte>, u: seq<Byte>)
    requires |a| == 32 && |b| == 32 && |u| == 32 && TwoGroups()
    ensures Shared(a, u).Ok? && Shared(b, u).Ok?
    ensures Shared(a, Shared(b, u).value) == Shared(b, Shared(a, u).value)
  {
    hide Pow2, Value, LadderValue, Clamped, Masked, Residue, AddPoints, Twist, Lift;
    LiftOnCurve(Value(Masked(u)));
    TwoCurvesSuffice(Twist(Value(Masked(u))));
    AgreementOn(a, b, u);
  }

  /** Key agreement: x25519(a, x25519Base(b)) = x25519(b, x25519Base(a)), by the group law of Curve25519 alone. */
  lemma KeyAgreement(a: seq<Byte>, b: seq<Byte>)
    requires |a| == 32 && |b| == 32 && GroupHypotheses(1)
    ensures SharedBase(a).Ok? && SharedBase(b).Ok?
    ensures Shared(a, SharedBase(b).value) == Shared(b, SharedBase(a).value)
    ensures Shared(a, SharedBase(b).value).Ok? && |Shared(a, SharedBase(b).value).value| == 32
  {
    hide Pow2, Value, LadderValue, Clamped, Residue, AddPoints;
    BaseIsNine(a);
    BaseIsNine(b);
    PowersOfTwo();
    DecodedValue(9);
    BaseIsOnCurve25519();
    AgreementOn(a, b, BasePoint());
  }

  /**
   The whole function on the numbers coded: the scalar keeps bits 3 to 253 and gets bit 254, the coordinate
   loses its highest bit, and the result is the x-coordinate of the multiple of any point over it.
   */
  lemma {:induction false} SharedEndToEnd(b: int, q: Point, scalar: seq<Byte>, u: seq<Byte>)
    requires |scalar| == 32 && |u| == 32
    requires GroupHypotheses(b) && OnCurve(b, q) && q.Affine? && Eq(Value(u) % Pow2(255), q.x)
    ensures var r := Shared(scalar, u);
      r.Ok? && |r.value| == 32 &&
      Value(r.value) == X0(Times(b, Pow2(254) + 8 * ((Value(scalar) / 8) % Pow2(251)), q)) < P
  {
    hide Pow2, Residue, Value, LadderValue, Clamped, Masked, AddPoints, Times;
    ClampedValue(scalar);
    MaskedValue(u);
    SharedIsMultiple(b, q, scalar, u);
  }

  /** The base point of section 4.1 of RFC 7748. */
  function Base(): Point {
    Affine(9, BASE_Y)
  }

  /** The base-point function gives the x-coordinate of the multiple of the base point on Curve25519. */
  lemma {:induction false} SharedBaseEndToEnd(scalar: seq<Byte>)
    requires |scalar| == 32 && GroupHypotheses(1)
    ensures var r := SharedBase(scalar);
      r.Ok? && |r.value| == 32 &&
      Value(r.value) == X0(Times(1, Pow2(254) + 8 * ((Value(scalar) / 8) % Pow2(251)), Base())) < P
  {
    hide Residue, Value, LadderValue, Clamped, Masked, AddPoints, Times;
    BaseIsNine(scalar);
    BaseOnCurve();
    BaseReduced();
    PowersOfTwo();
    DecodedValue(9);
    assert Value(BasePoint()) % Pow2(255) == 9;
    SharedEndToEnd(1, Base(), scalar, BasePoint());
  }

  lemma BaseReduced()
    ensures 0 <= BASE_Y < P
  {
    hide Pow2;
    PrimeValue();
  }

  /** The errors of arguments of wrong length, the scalar's first. */
  lemma LengthErrors(scalar: seq<Byte>, u: seq<Byte>)
    ensures Shared(scalar, u).Ok? <==> |scalar| == 32 && |u| == 32
    ensures |scalar| != 32 ==> Shared(scalar, u) == SharedBase(scalar) == Failure("X25519 scalar must be 32 bytes")
    ensures |scalar| == 32 != |u| ==> Shared(scalar, u) == Failure("X25519 u-coordinate must be 32 bytes")
  {
  }
}
