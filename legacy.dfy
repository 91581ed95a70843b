/** The older overflow predicates: the same questions as the reporting
    operations, answered with a flag alone (or, for the addition, with the
    native wrapped sum, not brought into the width). */
module LegacyMethods {
  import opened Math
  import opened Bits
  import opened Native
  import opened Descriptor
  import opened Arithmetic

  // ---------------------------------------------------------------- shift

  /** `leftShiftReportingOverflow(_:by:)`: a zero value or a shift count of
      at most 0 never overflows; otherwise the count is compared with the
      width less the sign bit, and whatever lies above the bits that stay
      in range must be 0. */
  function LeftShiftReportingOverflow(c: CustomInteger, k: Kind, value: int, shift: int): (b: bool)
    requires c.Valid() && InNative(k, value) && InNative(k, shift)
    ensures value == 0 || shift <= 0 ==> !b
    ensures value < 0 && shift > 0 ==> b
  {
    if !(value != 0 && shift > 0) then false
    else
      var adjustedBitWidth := if k == Signed then c.bitWidth - 1 else c.bitWidth;
      if shift >= adjustedBitWidth then true
      else
        NegativeShiftedRight(value, adjustedBitWidth - shift);
        ShiftRight(value, adjustedBitWidth - shift) != 0
  }

  /** An arithmetic right shift keeps a negative value negative. */
  lemma NegativeShiftedRight(value: int, n: int)
    requires n >= 0
    ensures value < 0 ==> ShiftRight(value, n) < 0
  {
    if value < 0 {
      var p := Pow2(n);
      var q := value / p;
      assert value == q * p + value % p;
      MulAtLeast(q, p);
    }
  }

  /** For a non-negative value of the width the flag says exactly whether
      value * 2^shift leaves the range. */
  lemma LeftShiftExact(c: CustomInteger, k: Kind, value: int, shift: int)
    requires c.Valid() && InNative(k, value) && InNative(k, shift)
    requires Fits(k, c.bitWidth, value) && value >= 0 && shift >= 0
    ensures LeftShiftReportingOverflow(c, k, value, shift) <==> !Fits(k, c.bitWidth, value * Pow2(shift))
  {
    var w := c.bitWidth;
    if value == 0 || shift == 0 {
      assert value * Pow2(shift) == value;
    } else if shift >= w {
      ShiftedPastWidth(k, w, value, shift);
    } else if k == Unsigned {
      ShiftUnsignedWithinWidth(w, value, shift);
    } else if shift == w - 1 {
      assert !Fits(Signed, w, value * Pow2(shift)) by {
        MulAtLeast(value, Pow2(shift));
      }
    } else {
      ShiftSignedWithinWidth(w, value, shift);
    }
  }

  /** A documented difference from the reporting shift: the legacy flag
      asks whether any bit at all, the sign copies included, lies above the
      bits that are kept, so a negative value with a positive shift is
      always flagged, -1 << 1 (which is -2) included. */
  lemma LeftShiftOfNegative(c: CustomInteger)
    requires c.Valid() && c.bitWidth >= 2
    ensures LeftShiftReportingOverflow(c, Signed, -1, 1)
    ensures Fits(Signed, c.bitWidth, -1 * Pow2(1))
  {
    Pow2Monotone(1, c.bitWidth - 1);
  }

  /** The legacy flag next to `shiftLeftReportingOverflow`'s flag: for a
      non-negative value of the width they agree, and for a negative value
      with a positive shift they differ exactly when the product still fits,
      which only the reporting shift's sign-fill test lets through. */
  lemma LeftShiftAgainstReporting(c: CustomInteger, k: Kind, value: int, shift: int)
    requires c.Valid() && InNative(k, value) && InNative(k, shift)
    requires Fits(k, c.bitWidth, value) && shift >= 0
    ensures value >= 0 ==>
      LeftShiftReportingOverflow(c, k, value, shift) == ShiftLeftReportingOverflow(c, k, value, shift).overflow
    ensures value < 0 && shift > 0 ==>
      ((LeftShiftReportingOverflow(c, k, value, shift) != ShiftLeftReportingOverflow(c, k, value, shift).overflow)
       <==> Fits(k, c.bitWidth, value * Pow2(shift)))
  {
    ShiftLeftExact(c, k, value, shift);
    if value >= 0 {
      LeftShiftExact(c, k, value, shift);
    }
  }

  // ------------------------------------------------------------------ add

  /** `addingReportOverflow`: the native wrapped sum, not brought into the
      width, with the sign-based test (there is no zero guard here); an
      unsigned sum past the maximum gives (0, true). */
  function AddingReportOverflow(c: CustomInteger, k: Kind, lhs: int, rhs: int): (r: Reported)
    requires c.Valid() && InNative(k, lhs) && InNative(k, rhs)
    ensures InNative(k, r.partialValue)
    ensures r.partialValue == (if k == Unsigned && r.overflow then 0 else Wrap(k, lhs + rhs))
  {
    if k == Signed then
      Reported(Wrap(Signed, lhs + rhs), AddingReportSignedOverflow(c, lhs, rhs))
    else if rhs > Wrap(Unsigned, c.ranges.unsigned.upperBound - lhs) then
      Reported(0, true)
    else
      Reported(Wrap(Unsigned, lhs + rhs), false)
  }

  /** The signed test of the legacy addition. */
  function AddingReportSignedOverflow(c: CustomInteger, lhs: int, rhs: int): (b: bool)
    requires c.Valid() && InNative(Signed, lhs) && InNative(Signed, rhs)
    ensures (lhs < 0) != (rhs < 0) ==> !b
  {
    XorSign(lhs, rhs);
    if !(Xor(lhs, rhs) >= 0) then false
    else if lhs > 0 && lhs > Wrap(Signed, c.ranges.signed.upperBound - rhs) then true
    else if lhs < 0 && lhs < Wrap(Signed, c.ranges.signed.lowerBound - rhs) then true
    else false
  }

  /** For operands of the width the flag is exact and, without overflow,
      the value is the sum itself: the same answer as the reporting addition. */
  lemma AddingReportExact(c: CustomInteger, k: Kind, lhs: int, rhs: int)
    requires c.Valid() && InNative(k, lhs) && InNative(k, rhs)
    requires Fits(k, c.bitWidth, lhs) && Fits(k, c.bitWidth, rhs)
    ensures var r := AddingReportOverflow(c, k, lhs, rhs);
      (r.overflow <==> !Fits(k, c.bitWidth, lhs + rhs))
      && (!r.overflow ==> r.partialValue == lhs + rhs)
      && r.overflow == AddingReportingOverflow(c, k, lhs, rhs).overflow
  {
    if k == Signed {
      AddingReportSignedExact(c, lhs, rhs);
    } else {
      AddingReportUnsignedExact(c, lhs, rhs);
    }
  }

  lemma AddingReportSignedExact(c: CustomInteger, lhs: int, rhs: int)
    requires c.Valid() && Fits(Signed, c.bitWidth, lhs) && Fits(Signed, c.bitWidth, rhs)
    ensures InNative(Signed, lhs) && InNative(Signed, rhs)
    ensures var r := AddingReportOverflow(c, Signed, lhs, rhs);
      (r.overflow <==> !Fits(Signed, c.bitWidth, lhs + rhs))
      && (!r.overflow ==> r.partialValue == lhs + rhs)
      && r.overflow == AddingReportingOverflow(c, Signed, lhs, rhs).overflow
  {
    AddingSignedExact(c, lhs, rhs);
    LegacyAddingSignedExact(c, lhs, rhs);
    if Fits(Signed, c.bitWidth, lhs + rhs) {
      FitsNative(Signed, c.bitWidth, lhs + rhs);
      WrapIdentity(Signed, lhs + rhs);
    }
  }

  lemma AddingReportUnsignedExact(c: CustomInteger, lhs: int, rhs: int)
    requires c.Valid() && Fits(Unsigned, c.bitWidth, lhs) && Fits(Unsigned, c.bitWidth, rhs)
    ensures InNative(Unsigned, lhs) && InNative(Unsigned, rhs)
    ensures var r := AddingReportOverflow(c, Unsigned, lhs, rhs);
      (r.overflow <==> !Fits(Unsigned, c.bitWidth, lhs + rhs))
      && (!r.overflow ==> r.partialValue == lhs + rhs)
      && r.overflow == AddingReportingOverflow(c, Unsigned, lhs, rhs).overflow
  {
    AddingUnsignedFlag(c, lhs, rhs);
    if Fits(Unsigned, c.bitWidth, lhs + rhs) {
      FitsNative(Unsigned, c.bitWidth, lhs + rhs);
      WrapIdentity(Unsigned, lhs + rhs);
    }
  }

  lemma LegacyAddingSignedExact(c: CustomInteger, lhs: int, rhs: int)
    requires c.Valid() && Fits(Signed, c.bitWidth, lhs) && Fits(Signed, c.bitWidth, rhs)
    ensures InNative(Signed, lhs) && InNative(Signed, rhs)
    ensures AddingReportSignedOverflow(c, lhs, rhs) <==> !Fits(Signed, c.bitWidth, lhs + rhs)
  {
    Bounds(c);
    var sMin, sMax := c.ranges.signed.lowerBound, c.ranges.signed.upperBound;
    if lhs >= 0 && rhs >= 0 {
      LegacyAddingCase(c, lhs, rhs, sMax - rhs);
    } else if lhs < 0 && rhs < 0 {
      LegacyAddingCase(c, lhs, rhs, sMin - rhs);
    } else {
      XorSign(lhs, rhs);
    }
  }

  /** One same-sign case of the legacy addition: the bound does not wrap. */
  lemma LegacyAddingCase(c: CustomInteger, lhs: int, rhs: int, bound: int)
    requires c.Valid() && InNative(Signed, lhs) && InNative(Signed, rhs) && InNative(Signed, bound)
    requires (lhs >= 0 && rhs >= 0 && bound == c.ranges.signed.upperBound - rhs)
      || (lhs < 0 && rhs < 0 && bound == c.ranges.signed.lowerBound - rhs)
    ensures AddingReportSignedOverflow(c, lhs, rhs) == (if lhs > 0 then lhs > bound else lhs < 0 && lhs < bound)
  {
    XorSign(lhs, rhs);
    WrapIdentity(Signed, bound);
  }

  // ------------------------------------------------------------- subtract

  /** `subtractionReportOverflow`: the signed test of the reporting
      subtraction without its rhs == 0 guard, or lhs < rhs when unsigned. */
  function SubtractionReportOverflow(c: CustomInteger, k: Kind, lhs: int, rhs: int): (b: bool)
    requires c.Valid() && InNative(k, lhs) && InNative(k, rhs)
    ensures k == Unsigned ==> (b <==> lhs < rhs)
    ensures k == Signed && (lhs < 0) == (rhs < 0) ==> !b
  {
    XorSign(lhs, rhs);
    if k == Signed then
      if !(Xor(lhs, rhs) < 0) then false
      else if lhs > 0 && lhs > Wrap(Signed, c.ranges.signed.upperBound + rhs) then true
      else if lhs < 0 && lhs < Wrap(Signed, c.ranges.signed.lowerBound + rhs) then true
      else false
    else lhs < rhs
  }

  /** The legacy subtraction gives the reporting subtraction's flag, so it
      also misses 0 - sMin. */
  lemma SubtractionReportExact(c: CustomInteger, k: Kind, lhs: int, rhs: int)
    requires c.Valid() && InNative(k, lhs) && InNative(k, rhs)
    requires Fits(k, c.bitWidth, lhs) && Fits(k, c.bitWidth, rhs)
    ensures SubtractionReportOverflow(c, k, lhs, rhs) == SubtractingReportingOverflow(c, k, lhs, rhs).overflow
    ensures SubtractionReportOverflow(c, k, lhs, rhs)
      <==> !Fits(k, c.bitWidth, lhs - rhs) && !(k == Signed && lhs == 0 && rhs == c.ranges.signed.lowerBound)
  {
    SubtractingExact(c, k, lhs, rhs);
    if k == Signed {
      LegacySubtractingSignedFlag(c, lhs, rhs);
    }
  }

  /** Without the rhs == 0 guard the signed test still agrees: lhs - 0
      compared with sMin + 0 is false for every lhs of the width. */
  lemma LegacySubtractingSignedFlag(c: CustomInteger, lhs: int, rhs: int)
    requires c.Valid() && InNative(Signed, lhs) && InNative(Signed, rhs) && Fits(Signed, c.bitWidth, lhs)
    ensures SubtractionReportOverflow(c, Signed, lhs, rhs) == SubtractingSignedOverflow(c, lhs, rhs)
  {
    if rhs == 0 {
      Bounds(c);
      WrapIdentity(Signed, c.ranges.signed.lowerBound);
      assert c.ranges.signed.lowerBound + rhs == c.ranges.signed.lowerBound;
    }
  }

  /** The legacy subtraction with the zero minuend included, as in
      `Arithmetic.SubtractingCorrected`. */
  function SubtractionReportCorrected(c: CustomInteger, k: Kind, lhs: int, rhs: int): (b: bool)
    requires c.Valid() && InNative(k, lhs) && InNative(k, rhs)
    ensures k == Signed && lhs == 0 && rhs == c.ranges.signed.lowerBound ==> b
  {
    SubtractionReportOverflow(c, k, lhs, rhs) || (k == Signed && lhs == 0 && rhs == c.ranges.signed.lowerBound)
  }

  lemma SubtractionReportCorrectedExact(c: CustomInteger, k: Kind, lhs: int, rhs: int)
    requires c.Valid() && InNative(k, lhs) && InNative(k, rhs)
    requires Fits(k, c.bitWidth, lhs) && Fits(k, c.bitWidth, rhs)
    ensures SubtractionReportCorrected(c, k, lhs, rhs) <==> !Fits(k, c.bitWidth, lhs - rhs)
  {
    SubtractionReportExact(c, k, lhs, rhs);
    if k == Signed && lhs == 0 && rhs == c.ranges.signed.lowerBound {
      MinNegated(c);
    }
  }

  // ------------------------------------------------------------- multiply

  /** `multiplicationReportOverflow`, with None where Swift traps: the
      positive-times-negative test divides sMin by rhs, which at 64 bits
      is Int64.min / -1 when rhs == -1. */
  function MultiplicationReportOverflow(c: CustomInteger, k: Kind, lhs: int, rhs: int): (r: Option<bool>)
    requires c.Valid() && InNative(k, lhs) && InNative(k, rhs)
    ensures r.None? <==> k == Signed && lhs > 0 && rhs == -1 && c.ranges.signed.lowerBound == I64Min
    ensures lhs == 0 || rhs == 0 ==> r == Some(false)
  {
    var sMin, sMax := c.ranges.signed.lowerBound, c.ranges.signed.upperBound;
    XorSign(lhs, rhs);
    if !(lhs != 0 && rhs != 0) then Some(false)
    else if k == Signed then
      if Xor(lhs, rhs) >= 0 then
        Some((lhs > 0 && rhs > 0 && lhs > TruncDiv(sMax, rhs)) || (lhs < 0 && rhs < 0 && lhs < TruncDiv(sMax, rhs)))
      else if lhs > 0 && rhs < 0 then
        if DivisionTraps(Signed, sMin, rhs) then None else Some(lhs > TruncDiv(sMin, rhs))
      else
        Some(lhs < 0 && rhs > 0 && lhs < TruncDiv(sMin, rhs))
    else
      Some(lhs > c.ranges.unsigned.upperBound / rhs)
  }

  /** Where it does not trap, the legacy multiplication flag is exact for
      operands of the width. */
  lemma MultiplicationReportExact(c: CustomInteger, k: Kind, lhs: int, rhs: int)
    requires c.Valid() && InNative(k, lhs) && InNative(k, rhs)
    requires Fits(k, c.bitWidth, lhs) && Fits(k, c.bitWidth, rhs)
    ensures var r := MultiplicationReportOverflow(c, k, lhs, rhs);
      r.Some? ==> (r.value <==> !Fits(k, c.bitWidth, lhs * rhs))
  {
    Bounds(c);
    var h := -c.ranges.signed.lowerBound;
    if lhs == 0 || rhs == 0 {
      assert lhs * rhs == 0;
    } else if k == Unsigned {
      ProductAboveBound(lhs, rhs, c.ranges.unsigned.upperBound, lhs * rhs);
    } else if (lhs < 0) == (rhs < 0) {
      XorSign(lhs, rhs);
      SameSignsCore(lhs, rhs, h, lhs * rhs);
    } else {
      XorSign(lhs, rhs);
      LegacyOppositeSignsCore(lhs, rhs, h, lhs * rhs);
    }
  }

  /** The legacy opposite-signs comparisons against sMin == -h: a positive
      lhs is compared with sMin / rhs, a negative one likewise. */
  lemma LegacyOppositeSignsCore(lhs: int, rhs: int, h: int, p: int)
    requires h > 0 && lhs != 0 && rhs != 0 && (lhs < 0) != (rhs < 0) && p == lhs * rhs
    ensures p < 0
    ensures lhs > 0 ==> (lhs > TruncDiv(-h, rhs) <==> p < -h)
    ensures lhs < 0 ==> (lhs < TruncDiv(-h, rhs) <==> p < -h)
  {
    TruncDivSigns(-h, rhs);
    if lhs > 0 {
      assert lhs * (-rhs) == -p;
      ProductAboveBound(lhs, -rhs, h, -p);
      MulPositive(lhs, -rhs);
    } else {
      assert (-lhs) * rhs == -p;
      ProductAboveBound(-lhs, rhs, h, -p);
      MulPositive(-lhs, rhs);
    }
  }

  /** At 64 bits, 1 * -1 == -1 fits, yet the legacy test traps on it. */
  lemma MultiplicationTrapsAtWidest()
    ensures Init(64).Some?
    ensures MultiplicationReportOverflow(Init(64).value, Signed, 1, -1).None?
    ensures Fits(Signed, 64, 1 * -1)
  {
    InitWidest();
  }

  /** The legacy multiplication with the positive-times-negative test
      dividing sMin by the positive operand, as
      `Arithmetic.OppositeSignsOverflow` does: it never traps. */
  function MultiplicationReportCorrected(c: CustomInteger, k: Kind, lhs: int, rhs: int): (b: bool)
    requires c.Valid() && InNative(k, lhs) && InNative(k, rhs)
    ensures lhs == 0 || rhs == 0 ==> !b
  {
    if k == Signed && lhs > 0 && rhs < 0 then OppositeSignsOverflow(c, lhs, rhs)
    else MultiplicationReportOverflow(c, k, lhs, rhs).value
  }

  /** The corrected legacy multiplication is exact for operands of the width. */
  lemma MultiplicationReportCorrectedExact(c: CustomInteger, k: Kind, lhs: int, rhs: int)
    requires c.Valid() && InNative(k, lhs) && InNative(k, rhs)
    requires Fits(k, c.bitWidth, lhs) && Fits(k, c.bitWidth, rhs)
    ensures MultiplicationReportCorrected(c, k, lhs, rhs) <==> !Fits(k, c.bitWidth, lhs * rhs)
  {
    if k == Signed && lhs > 0 && rhs < 0 {
      OppositeSignsExact(c, lhs, rhs);
    } else {
      MultiplicationReportExact(c, k, lhs, rhs);
    }
  }

  // -------------------------------------------------- divide and remainder

  /** `divisionReportOverflow`: a zero divisor, or sMin / -1 when signed. */
  function DivisionReportOverflow(c: CustomInteger, k: Kind, lhs: int, rhs: int): (b: bool)
    ensures rhs == 0 ==> b
    ensures c.Valid() && Fits(k, c.bitWidth, lhs) && InNative(k, rhs) && rhs != 0
      ==> (b <==> !Fits(k, c.bitWidth, TruncDiv(lhs, rhs)))
  {
    if !(rhs != 0) then true
    else
      var b := k == Signed && lhs == c.ranges.signed.lowerBound && rhs == -1;
      if c.Valid() && Fits(k, c.bitWidth, lhs) && InNative(k, rhs) then
        QuotientFits(c, k, lhs, rhs);
        b
      else b
  }

  /** The legacy division flag is the reporting division's flag, and for
      operands of the width it says whether the quotient can be formed in
      the range. */
  lemma DivisionReportExact(c: CustomInteger, k: Kind, lhs: int, rhs: int)
    requires c.Valid() && DivisionOperands(c, k, lhs, rhs)
    requires Fits(k, c.bitWidth, lhs) && Fits(k, c.bitWidth, rhs)
    ensures DivisionReportOverflow(c, k, lhs, rhs) == DividedReportingOverflow(c, k, lhs, rhs).overflow
    ensures DivisionReportOverflow(c, k, lhs, rhs) <==> rhs == 0 || !Fits(k, c.bitWidth, TruncDiv(lhs, rhs))
  {
    DividedExact(c, k, lhs, rhs);
  }

  /** `remainderReportOverflow`: the same two cases as the division. */
  function RemainderReportOverflow(c: CustomInteger, k: Kind, lhs: int, rhs: int): (b: bool)
    ensures rhs == 0 ==> b
    ensures c.Valid() && Fits(k, c.bitWidth, lhs) && InNative(k, rhs) && rhs != 0
      ==> (b <==> !Fits(k, c.bitWidth, TruncDiv(lhs, rhs)))
  {
    if !(rhs != 0) then true
    else
      var b := k == Signed && lhs == c.ranges.signed.lowerBound && rhs == -1;
      if c.Valid() && Fits(k, c.bitWidth, lhs) && InNative(k, rhs) then
        QuotientFits(c, k, lhs, rhs);
        b
      else b
  }

  /** The legacy remainder flag is the reporting remainder's flag: the
      remainder overflows where the quotient it rests on does. */
  lemma RemainderReportExact(c: CustomInteger, k: Kind, lhs: int, rhs: int)
    requires c.Valid() && DivisionOperands(c, k, lhs, rhs)
    requires Fits(k, c.bitWidth, lhs) && Fits(k, c.bitWidth, rhs)
    ensures RemainderReportOverflow(c, k, lhs, rhs) == RemainderReportingOverflow(c, k, lhs, rhs).overflow
    ensures RemainderReportOverflow(c, k, lhs, rhs) <==> rhs == 0 || !Fits(k, c.bitWidth, TruncDiv(lhs, rhs))
  {
    DividedExact(c, k, lhs, rhs);
  }
}
