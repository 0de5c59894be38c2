/** Sign-magnitude fixed-point numbers of the kernel library (lib/kernel/real.c).

    A `Real` is one 32-bit C `int`: bit 0 holds the sign (0 = positive,
    1 = negative) and the remaining 31 bits, read by an arithmetic shift,
    hold the magnitude scaled by 2^Q with Q = 14.  All C operations are
    written out on unbounded integers: `<<` wraps to 32 bits, `>>` on a
    signed value is floor division by a power of two, `/` truncates toward
    zero, and a `long long` result stored into an `int` wraps. */
module Real {
  import opened Machine

  const Q: nat := 14
  /** 2^Q, the scale of the fixed-point magnitude. */
  const F: int := 16384

  /** C division of two integers, which truncates toward zero. */
  function CDiv(a: int, b: int): (q: int)
    requires b != 0
    ensures a >= 0 && b > 0 ==> q == a / b
  {
    var m := (if a < 0 then -a else a) / (if b < 0 then -b else b);
    if (a < 0) != (b < 0) then -m else m
  }

  datatype Real = Real(bits: Int32)

  /** `value_of_real`: `bits >> 1`, an arithmetic shift. */
  function ValueOf(v: Real): int
  {
    v.bits / 2
  }

  /** `sign_of_real`: `bits & 1`. */
  function SignOf(v: Real): int
  {
    v.bits % 2
  }

  /** `real_of_value_sign`: `(value << 1) ^ sign`; the shifted value is even,
      so XOR with a sign of 0 or 1 adds it. */
  function OfValueSign(value: Int32, sign: int): Real
    requires sign == 0 || sign == 1
  {
    var shifted := Wrap32(value * 2);
    Real(shifted + sign)
  }

  /** The number a Real stands for, as an integer multiple of 2^-Q. */
  function Signed(v: Real): int
  {
    if SignOf(v) == 0 then ValueOf(v) else -ValueOf(v)
  }

  /** A Real whose magnitude is not negative, as every Real built by
      `real_of_int` is. */
  predicate WellFormed(v: Real)
  {
    ValueOf(v) >= 0
  }

  function RealOfInt(x: Int32): Real
  {
    var a: int := x;
    var v := Wrap32(if a > 0 then a else -a);
    var sign := if x > 0 then 0 else 1;
    OfValueSign(Wrap32(v * F), sign)
  }

  function IntOfReal(v: Real): Int32
  {
    if SignOf(v) == 0 then ValueOf(v) / F else -(ValueOf(v) / F)
  }

  function RealAdd(lhs: Real, rhs: Real): Real
  {
    if SignOf(lhs) == SignOf(rhs) then
      OfValueSign(Wrap32(ValueOf(lhs) + ValueOf(rhs)), SignOf(lhs))
    else
      OfValueSign(Wrap32(ValueOf(lhs) - ValueOf(rhs)), SignOf(lhs))
  }

  function RealMinus(v: Real): Real
  {
    OfValueSign(ValueOf(v), 1 - SignOf(v))
  }

  function RealSub(lhs: Real, rhs: Real): Real
  {
    RealAdd(lhs, RealMinus(rhs))
  }

  /** The product of two magnitudes is formed in 64 bits (it cannot
      overflow there), shifted right by Q and stored back into an `int`. */
  function RealMult(lhs: Real, rhs: Real): Real
  {
    OfValueSign(Wrap32((ValueOf(lhs) * ValueOf(rhs)) / F),
                (SignOf(lhs) + SignOf(rhs)) % 2)
  }

  /** Division by a zero magnitude is undefined behaviour in C. */
  function RealDiv(lhs: Real, rhs: Real): Real
    requires ValueOf(rhs) != 0
  {
    OfValueSign(Wrap32(CDiv(ValueOf(lhs) * F, ValueOf(rhs))),
                (SignOf(lhs) + SignOf(rhs)) % 2)
  }

  /** `real_less_func` as written: for two negative operands the magnitude
      comparison is negated, which turns `<` into `>=`. */
  function RealLess(lhs: Real, rhs: Real): bool
  {
    if SignOf(lhs) != SignOf(rhs) then SignOf(lhs) == 1
    else if SignOf(lhs) == 0 then ValueOf(lhs) < ValueOf(rhs)
    else !(ValueOf(lhs) < ValueOf(rhs))
  }

  /** The comparison the function evidently means: for two negative
      operands the larger magnitude is the smaller number. */
  function RealLessCorrected(lhs: Real, rhs: Real): (r: bool)
    ensures lhs == rhs ==> !r
    ensures WellFormed(lhs) && WellFormed(rhs) && (ValueOf(lhs) != 0 || ValueOf(rhs) != 0) ==>
              (r <==> Signed(lhs) < Signed(rhs))
  {
    if SignOf(lhs) != SignOf(rhs) then SignOf(lhs) == 1
    else if SignOf(lhs) == 0 then ValueOf(lhs) < ValueOf(rhs)
    else ValueOf(rhs) < ValueOf(lhs)
  }

  // ---------------------------------------------------------------------
  // Encoding

  /** Packing a magnitude that fits in 31 bits with a sign, then unpacking,
      gives both back. */
  lemma EncodeDecode(value: Int32, sign: int)
    requires -0x4000_0000 <= value < 0x4000_0000
    requires sign == 0 || sign == 1
    ensures ValueOf(OfValueSign(value, sign)) == value
    ensures SignOf(OfValueSign(value, sign)) == sign
  {
    var r := OfValueSign(value, sign);
    assert r.bits == value * 2 + sign;
  }

  /** Every 32-bit pattern is the packing of its own magnitude and sign. */
  lemma DecodeEncode(v: Real)
    ensures -0x4000_0000 <= ValueOf(v) < 0x4000_0000
    ensures OfValueSign(ValueOf(v), SignOf(v)) == v
  {
    assert v.bits == ValueOf(v) * 2 + SignOf(v);
  }

  // ---------------------------------------------------------------------
  // Conversion from and to int

  /** `real_of_int` stores `|x| << Q` and a sign that is 0 exactly when x is
      positive, so zero is stored as a negative zero. */
  lemma RealOfIntParts(x: Int32)
    requires -0x1_0000 < x < 0x1_0000
    ensures ValueOf(RealOfInt(x)) == (if x > 0 then x else -x) * F
    ensures SignOf(RealOfInt(x)) == 0 <==> x > 0
    ensures WellFormed(RealOfInt(x))
    ensures Signed(RealOfInt(x)) == x * F
  {
    var v := if x > 0 then x else -x;
    assert 0 <= v * F < 0x4000_0000;
    EncodeDecode(v * F, if x > 0 then 0 else 1);
  }

  /** Converting an int to a Real and back gives the int back whenever
      `|x| << 15` fits in an `int`. */
  lemma IntOfRealOfInt(x: Int32)
    requires -0x1_0000 < x < 0x1_0000
    ensures IntOfReal(RealOfInt(x)) == x
  {
    RealOfIntParts(x);
    var v := if x > 0 then x else -x;
    assert (v * F) / F == v;
  }

  /** The bound above is tight: 65536 << 15 overflows and comes back
      negated. */
  lemma IntOfRealOfIntOverflows()
    ensures IntOfReal(RealOfInt(0x1_0000)) == -0x1_0000
  {
    var r := RealOfInt(0x1_0000);
    assert Wrap32(0x1_0000 * F) == 0x4000_0000;
    assert Wrap32(0x4000_0000 * 2) == -0x8000_0000;
    assert r.bits == -0x8000_0000;
    assert ValueOf(r) == -0x4000_0000;
    assert SignOf(r) == 0;
  }

  // ---------------------------------------------------------------------
  // Negation, addition and subtraction

  /** `real_minus` keeps the magnitude, flips the sign, and negates the
      number. */
  lemma RealMinusParts(v: Real)
    ensures ValueOf(RealMinus(v)) == ValueOf(v)
    ensures SignOf(RealMinus(v)) == 1 - SignOf(v)
    ensures Signed(RealMinus(v)) == -Signed(v)
  {
    DecodeEncode(v);
    EncodeDecode(ValueOf(v), 1 - SignOf(v));
  }

  /** Applying `real_minus` twice is the identity on every bit pattern. */
  lemma RealMinusInvolution(v: Real)
    ensures RealMinus(RealMinus(v)) == v
  {
    RealMinusParts(v);
    DecodeEncode(v);
    assert RealMinus(RealMinus(v)) == OfValueSign(ValueOf(v), SignOf(v));
  }

  /** `real_add` with equal signs adds the magnitudes and keeps the sign;
      with different signs it subtracts the right magnitude from the left
      and keeps the left sign.  Either way the number denoted is the sum,
      as long as the magnitude computed stays within 31 bits. */
  lemma RealAddParts(lhs: Real, rhs: Real)
    requires SignOf(lhs) == SignOf(rhs) ==> -0x4000_0000 <= ValueOf(lhs) + ValueOf(rhs) < 0x4000_0000
    requires SignOf(lhs) != SignOf(rhs) ==> -0x4000_0000 <= ValueOf(lhs) - ValueOf(rhs) < 0x4000_0000
    ensures SignOf(RealAdd(lhs, rhs)) == SignOf(lhs)
    ensures ValueOf(RealAdd(lhs, rhs)) ==
              if SignOf(lhs) == SignOf(rhs) then ValueOf(lhs) + ValueOf(rhs)
              else ValueOf(lhs) - ValueOf(rhs)
    ensures Signed(RealAdd(lhs, rhs)) == Signed(lhs) + Signed(rhs)
  {
    if SignOf(lhs) == SignOf(rhs) {
      EncodeDecode(ValueOf(lhs) + ValueOf(rhs), SignOf(lhs));
    } else {
      EncodeDecode(ValueOf(lhs) - ValueOf(rhs), SignOf(lhs));
    }
  }

  /** A mixed-sign addition whose right magnitude is larger leaves a
      negative magnitude under the left sign (the number is still right). */
  lemma RealAddNegativeMagnitude()
    ensures var r := RealAdd(RealOfInt(1), RealOfInt(-2));
            !WellFormed(r) && SignOf(r) == 0 && Signed(r) == -F
  {
    RealOfIntParts(1);
    RealOfIntParts(-2);
    RealAddParts(RealOfInt(1), RealOfInt(-2));
  }

  /** `real_sub` denotes the difference of the two numbers, as long as the
      magnitude it computes (the difference for equal signs, the sum
      otherwise) stays within 31 bits. */
  lemma RealSubSigned(lhs: Real, rhs: Real)
    requires SignOf(lhs) == SignOf(rhs) ==> -0x4000_0000 <= ValueOf(lhs) - ValueOf(rhs) < 0x4000_0000
    requires SignOf(lhs) != SignOf(rhs) ==> -0x4000_0000 <= ValueOf(lhs) + ValueOf(rhs) < 0x4000_0000
    ensures Signed(RealSub(lhs, rhs)) == Signed(lhs) - Signed(rhs)
  {
    RealMinusParts(rhs);
    RealAddParts(lhs, RealMinus(rhs));
  }

  // ---------------------------------------------------------------------
  // Multiplication and division

  /** `real_mult` takes magnitude `(a * b) >> Q` and the XOR of the signs,
      whenever that magnitude fits the 31 bits of a Real. */
  lemma RealMultParts(lhs: Real, rhs: Real)
    requires -0x4000_0000 <= (ValueOf(lhs) * ValueOf(rhs)) / F < 0x4000_0000
    ensures ValueOf(RealMult(lhs, rhs)) == (ValueOf(lhs) * ValueOf(rhs)) / F
    ensures SignOf(RealMult(lhs, rhs)) == (if SignOf(lhs) == SignOf(rhs) then 0 else 1)
  {
    EncodeDecode((ValueOf(lhs) * ValueOf(rhs)) / F, (SignOf(lhs) + SignOf(rhs)) % 2);
  }

  /** `real_div` takes magnitude `(a << Q) / b`, truncated toward zero, and
      the XOR of the signs, whenever that magnitude fits the 31 bits of a
      Real. */
  lemma RealDivParts(lhs: Real, rhs: Real)
    requires ValueOf(rhs) != 0
    requires -0x4000_0000 <= CDiv(ValueOf(lhs) * F, ValueOf(rhs)) < 0x4000_0000
    ensures ValueOf(RealDiv(lhs, rhs)) == CDiv(ValueOf(lhs) * F, ValueOf(rhs))
    ensures SignOf(RealDiv(lhs, rhs)) == (if SignOf(lhs) == SignOf(rhs) then 0 else 1)
  {
    EncodeDecode(CDiv(ValueOf(lhs) * F, ValueOf(rhs)), (SignOf(lhs) + SignOf(rhs)) % 2);
  }

  // ---------------------------------------------------------------------
  // Comparison

  /** As written, `real_less_func` calls every negative Real less than
      itself. */
  lemma RealLessReflexiveOnNegatives(v: Real)
    requires SignOf(v) == 1
    ensures RealLess(v, v)
  {
  }

  /** In particular the Real made from 0 (a negative zero) is less than
      itself. */
  lemma RealLessZeroZero()
    ensures RealLess(RealOfInt(0), RealOfInt(0))
  {
    RealOfIntParts(0);
  }

  /** Where the operands differ in sign, or are positive, the function as
      written and the corrected one agree. */
  lemma RealLessAgreesOffNegatives(lhs: Real, rhs: Real)
    requires SignOf(lhs) == 0 || SignOf(rhs) == 0
    ensures RealLess(lhs, rhs) == RealLessCorrected(lhs, rhs)
  {
  }
}
