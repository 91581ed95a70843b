/** The overflow-reporting operations: each returns the result brought back
    into the width together with a flag saying whether the exact result left
    the range of the operand kind. Operands are native values of the kind;
    the flag is exact for operands that lie in the range of the width. */
module Arithmetic {
  import opened Math
  import opened Bits
  import opened Native
  import opened Descriptor
  import opened Inlinable

  /** The `(partialValue, overflow)` tuple of the reporting operations. */
  datatype Reported = Reported(partialValue: int, overflow: bool)

  /** Truncating a wrapped native result to the width gives the truncation
      of the exact result: 2^w divides 2^64. */
  lemma TruncateWrapped(k: Kind, w: nat, y: int, x: int)
    requires 1 <= w <= 64 && Congruent(y, x, NativeModulus)
    ensures WrapTo(k, w, y) == WrapTo(k, w, x)
  {
    Pow2Add(w, 64 - w);
    NativeIsWidth64(k, x);
    CongruentCoarser(y, x, Pow2(w), Pow2(64 - w));
    WrapToCongruent(k, w, y, x);
  }

  /** Shifting zero, or shifting by zero, leaves the value. */
  lemma ShiftLeftTrivial(k: Kind, x: int, n: nat)
    requires InNative(k, x) && (x == 0 || n == 0)
    ensures ShiftLeft(k, x, n) == x
  {
    if n < 64 {
      assert x * Pow2(n) == x;
      WrapIdentity(k, x);
    }
  }

  // ---------------------------------------------------------------- shift

  /** `shiftLeftReportingOverflow` for a shift count of at least 0. */
  function ShiftLeftReportingOverflow(c: CustomInteger, k: Kind, lhs: int, rhs: int): (r: Reported)
    requires c.Valid() && InNative(k, lhs) && InNative(k, rhs) && rhs >= 0
    ensures InNative(k, r.partialValue)
    ensures lhs == 0 || rhs == 0 ==> r == Reported(lhs, false)
  {
    if !(lhs != 0 && rhs != 0) then
      ShiftLeftTrivial(k, lhs, rhs);
      Reported(ShiftLeft(k, lhs, rhs), false)
    else if !(rhs < c.bitWidth) then
      Reported(0, true)
    else if k == Signed then
      FitsNative(Signed, c.bitWidth, ToSignedBitWidth(c, ShiftLeft(Signed, lhs, rhs)));
      Reported(ToSignedBitWidth(c, ShiftLeft(Signed, lhs, rhs)),
               ShiftRight(lhs, c.bitWidth - 1 - rhs) != (if lhs < 0 then -1 else 0))
    else
      FitsNative(Unsigned, c.bitWidth, ToUnsignedBitWidth(c, ShiftLeft(Unsigned, lhs, rhs)));
      Reported(ToUnsignedBitWidth(c, ShiftLeft(Unsigned, lhs, rhs)),
               ShiftRight(lhs, c.bitWidth - rhs) != 0)
  }

  /** For a value of the width, the shift reports the exact product
      value * 2^shift truncated to the width, and overflow exactly when that
      product leaves the range; so -1 << (w-1) == sMin is no overflow. */
  lemma ShiftLeftExact(c: CustomInteger, k: Kind, lhs: int, rhs: int)
    requires c.Valid() && InNative(k, lhs) && InNative(k, rhs) && rhs >= 0
    requires Fits(k, c.bitWidth, lhs)
    ensures var r := ShiftLeftReportingOverflow(c, k, lhs, rhs);
      r.partialValue == WrapTo(k, c.bitWidth, lhs * Pow2(rhs))
      && (r.overflow <==> !Fits(k, c.bitWidth, lhs * Pow2(rhs)))
  {
    if lhs == 0 || rhs == 0 {
      assert lhs * Pow2(rhs) == lhs;
      WrapToFits(k, c.bitWidth, lhs);
    } else if rhs >= c.bitWidth {
      ShiftedPastWidth(k, c.bitWidth, lhs, rhs);
    } else {
      ShiftLeftWithinWidth(c, k, lhs, rhs);
    }
  }

  /** The shift of a non-zero value by 0 < shift < w. */
  lemma ShiftLeftWithinWidth(c: CustomInteger, k: Kind, lhs: int, rhs: int)
    requires c.Valid() && InNative(k, lhs) && InNative(k, rhs) && lhs != 0 && 0 < rhs < c.bitWidth
    requires Fits(k, c.bitWidth, lhs)
    ensures var r := ShiftLeftReportingOverflow(c, k, lhs, rhs);
      r.partialValue == WrapTo(k, c.bitWidth, lhs * Pow2(rhs))
      && (r.overflow <==> !Fits(k, c.bitWidth, lhs * Pow2(rhs)))
  {
    var w := c.bitWidth;
    var v := lhs * Pow2(rhs);
    var r := ShiftLeftReportingOverflow(c, k, lhs, rhs);
    if k == Signed {
      assert r.partialValue == WrapTo(k, w, v) by {
        SignedShiftBranch(c, lhs, rhs);
        TruncateWrapped(k, w, ShiftLeft(k, lhs, rhs), v);
      }
      assert r.overflow <==> !Fits(k, w, v) by {
        SignedShiftBranch(c, lhs, rhs);
        ShiftSignedWithinWidth(w, lhs, rhs);
      }
    } else {
      assert r.partialValue == WrapTo(k, w, v) by {
        UnsignedShiftBranch(c, lhs, rhs);
        TruncateWrapped(k, w, ShiftLeft(k, lhs, rhs), v);
      }
      assert r.overflow <==> !Fits(k, w, v) by {
        UnsignedShiftBranch(c, lhs, rhs);
        ShiftUnsignedWithinWidth(w, lhs, rhs);
      }
    }
  }

  /** Unfolding step for ShiftLeftWithinWidth: the signed branch taken for a
      non-zero value and 0 < shift < w. Kept apart so that the unfolding is
      not proved next to the products above. */
  lemma SignedShiftBranch(c: CustomInteger, lhs: int, rhs: int)
    requires c.Valid() && InNative(Signed, lhs) && InNative(Signed, rhs) && lhs != 0 && 0 < rhs < c.bitWidth
    ensures var r := ShiftLeftReportingOverflow(c, Signed, lhs, rhs);
      r.partialValue == WrapTo(Signed, c.bitWidth, ShiftLeft(Signed, lhs, rhs))
      && r.overflow == (ShiftRight(lhs, c.bitWidth - 1 - rhs) != (if lhs < 0 then -1 else 0))
  {
  }

  /** Unfolding step for ShiftLeftWithinWidth: the unsigned branch. */
  lemma UnsignedShiftBranch(c: CustomInteger, lhs: int, rhs: int)
    requires c.Valid() && InNative(Unsigned, lhs) && InNative(Unsigned, rhs) && lhs != 0 && 0 < rhs < c.bitWidth
    ensures var r := ShiftLeftReportingOverflow(c, Unsigned, lhs, rhs);
      r.partialValue == WrapTo(Unsigned, c.bitWidth, ShiftLeft(Unsigned, lhs, rhs))
      && r.overflow == (ShiftRight(lhs, c.bitWidth - rhs) != 0)
  {
  }

  /** A non-zero value shifted by w or more is a non-zero multiple of 2^w:
      it truncates to 0 and lies outside every w-bit range. */
  lemma ShiftedPastWidth(k: Kind, w: nat, x: int, n: nat)
    requires 1 <= w <= n && x != 0
    ensures WrapTo(k, w, x * Pow2(n)) == 0 && !Fits(k, w, x * Pow2(n))
  {
    var W := Pow2(w);
    var v := x * Pow2(n);
    var m := x * Pow2(n - w);
    assert v == m * W by {
      MulPow2Split(x, w, n - w);
    }
    assert WrapTo(k, w, v) == 0 by {
      MultipleCongruentZero(m, W);
      Pow2Add(1, w - 1);
      WrapToUnique(k, w, v, 0);
    }
    assert v >= W || v <= -W by {
      NonZeroMultiple(x, Pow2(n - w), W);
    }
    Pow2Add(1, w - 1);
  }

  /** A non-zero multiple (x * d) * W has magnitude at least W. */
  lemma NonZeroMultiple(x: int, d: int, W: int)
    requires x != 0 && d > 0 && W > 0
    ensures (x * d) * W >= W || (x * d) * W <= -W
  {
    var m := x * d;
    if x > 0 {
      MulPositive(x, d);
      MulAtLeast(m, W);
    } else {
      MulPositive(-x, d);
      assert (-x) * d == -m;
      MulAtLeast(-m, W);
      assert (-m) * W == -(m * W);
    }
  }

  /** Signed, 0 < n < w: the bits of x from w-1-n upwards are all copies of
      the sign exactly when x * 2^n still fits in w bits. */
  lemma ShiftSignedWithinWidth(w: nat, x: int, n: nat)
    requires 0 < n < w && Fits(Signed, w, x)
    ensures ShiftRight(x, w - 1 - n) != (if x < 0 then -1 else 0) <==> !Fits(Signed, w, x * Pow2(n))
  {
    var S := Pow2(w - 1 - n);
    var R := Pow2(n);
    assert Pow2(w - 1) == S * R by {
      Pow2Add(w - 1 - n, n);
    }
    SignedShiftCore(x, S, R, S * R, x / S, x * R);
  }

  /** The quotient x / S is x's sign exactly when x * R lies in [-S*R, S*R). */
  lemma SignedShiftCore(x: int, S: int, R: int, H: int, q: int, v: int)
    requires S > 0 && R > 0 && H == S * R && q == x / S && v == x * R
    ensures q != (if x < 0 then -1 else 0) <==> !(-H <= v <= H - 1)
  {
    FloorQuotientSmall(x, S);
    if x >= 0 {
      assert v >= 0 by {
        MulAtLeast(x, R);
      }
      assert v < H <==> x < S by {
        MulCompare(x, S, R);
      }
    } else {
      assert v < 0 by {
        MulPositive(-x, R);
        assert (-x) * R == -v;
      }
      assert v < -H <==> x < -S by {
        MulCompare(x, -S, R);
        assert (-S) * R == -H;
      }
    }
  }

  /** Unsigned, 0 < n < w: nothing is left of x above bit w-n exactly when
      x * 2^n still fits in w bits. */
  lemma ShiftUnsignedWithinWidth(w: nat, x: int, n: nat)
    requires 0 < n < w && Fits(Unsigned, w, x)
    ensures ShiftRight(x, w - n) != 0 <==> !Fits(Unsigned, w, x * Pow2(n))
  {
    var S := Pow2(w - n);
    var R := Pow2(n);
    var v := x * R;
    assert Pow2(w) == S * R by {
      Pow2Add(w - n, n);
    }
    FloorQuotientSmall(x, S);
    assert v >= 0 by {
      MulAtLeast(x, R);
    }
    assert v < S * R <==> x < S by {
      MulCompare(x, S, R);
    }
  }

  // ------------------------------------------------------------------ add

  /** `addingReportingOverflow`: a signed sum is truncated to the width and
      flagged from the operand signs; an unsigned sum that passes the
      maximum gives (0, true). */
  function AddingReportingOverflow(c: CustomInteger, k: Kind, lhs: int, rhs: int): (r: Reported)
    requires c.Valid() && InNative(k, lhs) && InNative(k, rhs)
    ensures Fits(k, c.bitWidth, r.partialValue)
    ensures k == Signed ==> r.partialValue == WrapTo(Signed, c.bitWidth, lhs + rhs)
    ensures k == Unsigned ==> r.partialValue == (if r.overflow then 0 else WrapTo(Unsigned, c.bitWidth, lhs + rhs))
  {
    if k == Signed then
      WrapToNarrower(Signed, Signed, c.bitWidth, lhs + rhs);
      Reported(ToSignedBitWidth(c, Wrap(Signed, lhs + rhs)), AddingSignedOverflow(c, lhs, rhs))
    else if rhs > Wrap(Unsigned, c.ranges.unsigned.upperBound - lhs) then
      Reported(0, true)
    else
      WrapToNarrower(Unsigned, Unsigned, c.bitWidth, lhs + rhs);
      Reported(ToUnsignedBitWidth(c, Wrap(Unsigned, lhs + rhs)), false)
  }

  /** The signed overflow test of the addition: operands of opposite signs,
      or a zero operand, cannot overflow; otherwise lhs is compared with
      sMax - rhs or sMin - rhs. */
  function AddingSignedOverflow(c: CustomInteger, lhs: int, rhs: int): (b: bool)
    requires c.Valid() && InNative(Signed, lhs) && InNative(Signed, rhs)
    ensures (lhs < 0) != (rhs < 0) ==> !b
  {
    XorSign(lhs, rhs);
    if !(Xor(lhs, rhs) >= 0) then false
    else if !(lhs != 0 && rhs != 0) then false
    else if lhs > 0 && lhs > Wrap(Signed, c.ranges.signed.upperBound - rhs) then true
    else if lhs < 0 && lhs < Wrap(Signed, c.ranges.signed.lowerBound - rhs) then true
    else false
  }

  /** For operands of the width, the flag says exactly whether the sum left
      the range, and without overflow the value is the sum itself. */
  lemma AddingExact(c: CustomInteger, k: Kind, lhs: int, rhs: int)
    requires c.Valid() && InNative(k, lhs) && InNative(k, rhs)
    requires Fits(k, c.bitWidth, lhs) && Fits(k, c.bitWidth, rhs)
    ensures var r := AddingReportingOverflow(c, k, lhs, rhs);
      (r.overflow <==> !Fits(k, c.bitWidth, lhs + rhs))
      && (!r.overflow ==> r.partialValue == lhs + rhs)
  {
    if k == Signed {
      AddingSignedExact(c, lhs, rhs);
    } else {
      AddingUnsignedFlag(c, lhs, rhs);
    }
    if Fits(k, c.bitWidth, lhs + rhs) {
      WrapToFits(k, c.bitWidth, lhs + rhs);
    }
  }

  /** The signed test is exact for operands of the width. */
  lemma AddingSignedExact(c: CustomInteger, lhs: int, rhs: int)
    requires c.Valid() && Fits(Signed, c.bitWidth, lhs) && Fits(Signed, c.bitWidth, rhs)
    ensures InNative(Signed, lhs) && InNative(Signed, rhs)
    ensures AddingSignedOverflow(c, lhs, rhs) <==> !Fits(Signed, c.bitWidth, lhs + rhs)
  {
    Bounds(c);
    var sMin, sMax := c.ranges.signed.lowerBound, c.ranges.signed.upperBound;
    if lhs > 0 && rhs > 0 {
      AddingSignedCase(c, lhs, rhs, sMax - rhs);
    } else if lhs < 0 && rhs < 0 {
      AddingSignedCase(c, lhs, rhs, sMin - rhs);
    } else {
      XorSign(lhs, rhs);
    }
  }

  /** One same-sign case of the addition: the bound the source compares lhs
      with, sMax - rhs or sMin - rhs, is a native value and does not wrap. */
  lemma AddingSignedCase(c: CustomInteger, lhs: int, rhs: int, bound: int)
    requires c.Valid() && InNative(Signed, lhs) && InNative(Signed, rhs) && InNative(Signed, bound)
    requires (lhs > 0 && rhs > 0 && bound == c.ranges.signed.upperBound - rhs)
      || (lhs < 0 && rhs < 0 && bound == c.ranges.signed.lowerBound - rhs)
    ensures AddingSignedOverflow(c, lhs, rhs) == (if lhs > 0 then lhs > bound else lhs < bound)
  {
    XorSign(lhs, rhs);
    WrapIdentity(Signed, bound);
  }

  /** The unsigned test rhs > uMax - lhs is exact: uMax - lhs does not wrap. */
  lemma AddingUnsignedFlag(c: CustomInteger, lhs: int, rhs: int)
    requires c.Valid() && Fits(Unsigned, c.bitWidth, lhs) && Fits(Unsigned, c.bitWidth, rhs)
    ensures InNative(Unsigned, lhs) && InNative(Unsigned, rhs)
    ensures rhs > Wrap(Unsigned, c.ranges.unsigned.upperBound - lhs) <==> !Fits(Unsigned, c.bitWidth, lhs + rhs)
  {
    Bounds(c);
    WrapIdentity(Unsigned, c.ranges.unsigned.upperBound - lhs);
  }

  // ------------------------------------------------------------- subtract

  /** `subtractingReportingOverflow`: the difference truncated to the width,
      with the signed or the unsigned overflow test. */
  function SubtractingReportingOverflow(c: CustomInteger, k: Kind, lhs: int, rhs: int): (r: Reported)
    requires c.Valid() && InNative(k, lhs) && InNative(k, rhs)
    ensures Fits(k, c.bitWidth, r.partialValue)
    ensures r.partialValue == WrapTo(k, c.bitWidth, lhs - rhs)
    ensures k == Unsigned ==> (r.overflow <==> lhs < rhs)
  {
    WrapToNarrower(k, k, c.bitWidth, lhs - rhs);
    if k == Signed then
      Reported(ToSignedBitWidth(c, Wrap(Signed, lhs - rhs)), SubtractingSignedOverflow(c, lhs, rhs))
    else
      Reported(ToUnsignedBitWidth(c, Wrap(Unsigned, lhs - rhs)), lhs < rhs)
  }

  /** The signed overflow test of the subtraction: operands of the same
      sign, or rhs == 0, cannot overflow; otherwise a positive lhs is
      compared with sMax + rhs and a negative one with sMin + rhs. */
  function SubtractingSignedOverflow(c: CustomInteger, lhs: int, rhs: int): (b: bool)
    requires c.Valid() && InNative(Signed, lhs) && InNative(Signed, rhs)
    ensures (lhs < 0) == (rhs < 0) ==> !b
  {
    XorSign(lhs, rhs);
    if !(Xor(lhs, rhs) < 0) then false
    else if !(rhs != 0) then false
    else if lhs > 0 && lhs > Wrap(Signed, c.ranges.signed.upperBound + rhs) then true
    else if lhs < 0 && lhs < Wrap(Signed, c.ranges.signed.lowerBound + rhs) then true
    else false
  }

  /** For operands of the width the flag is exact except for 0 - sMin: the
      positive-overflow test starts at lhs > 0, so a zero minuend is never
      checked although -sMin lies above sMax. */
  lemma SubtractingExact(c: CustomInteger, k: Kind, lhs: int, rhs: int)
    requires c.Valid() && InNative(k, lhs) && InNative(k, rhs)
    requires Fits(k, c.bitWidth, lhs) && Fits(k, c.bitWidth, rhs)
    ensures var r := SubtractingReportingOverflow(c, k, lhs, rhs);
      (r.overflow <==> !Fits(k, c.bitWidth, lhs - rhs) && !(k == Signed && lhs == 0 && rhs == c.ranges.signed.lowerBound))
      && (Fits(k, c.bitWidth, lhs - rhs) ==> r.partialValue == lhs - rhs)
  {
    if k == Signed {
      SubtractingSignedExact(c, lhs, rhs);
    } else {
      assert Fits(Unsigned, c.bitWidth, lhs - rhs) <==> lhs >= rhs by {
        Bounds(c);
      }
    }
    if Fits(k, c.bitWidth, lhs - rhs) {
      WrapToFits(k, c.bitWidth, lhs - rhs);
    }
  }

  lemma SubtractingSignedExact(c: CustomInteger, lhs: int, rhs: int)
    requires c.Valid() && Fits(Signed, c.bitWidth, lhs) && Fits(Signed, c.bitWidth, rhs)
    ensures InNative(Signed, lhs) && InNative(Signed, rhs)
    ensures SubtractingSignedOverflow(c, lhs, rhs)
      <==> !Fits(Signed, c.bitWidth, lhs - rhs) && !(lhs == 0 && rhs == c.ranges.signed.lowerBound)
  {
    Bounds(c);
    var sMin, sMax := c.ranges.signed.lowerBound, c.ranges.signed.upperBound;
    if lhs > 0 && rhs < 0 {
      SubtractingSignedCase(c, lhs, rhs, sMax + rhs);
    } else if lhs < 0 && rhs > 0 {
      SubtractingSignedCase(c, lhs, rhs, sMin + rhs);
    } else {
      XorSign(lhs, rhs);
    }
  }

  /** One opposite-sign case of the subtraction: the bound the source
      compares lhs with, sMax + rhs or sMin + rhs, does not wrap. */
  lemma SubtractingSignedCase(c: CustomInteger, lhs: int, rhs: int, bound: int)
    requires c.Valid() && InNative(Signed, lhs) && InNative(Signed, rhs) && InNative(Signed, bound)
    requires (lhs > 0 && rhs < 0 && bound == c.ranges.signed.upperBound + rhs)
      || (lhs < 0 && rhs > 0 && bound == c.ranges.signed.lowerBound + rhs)
    ensures SubtractingSignedOverflow(c, lhs, rhs) == (if lhs > 0 then lhs > bound else lhs < bound)
  {
    XorSign(lhs, rhs);
    WrapIdentity(Signed, bound);
  }

  /** 0 - sMin is reported as no overflow, although sMax < -sMin. */
  lemma SubtractingZeroMinusMin(c: CustomInteger)
    requires c.Valid()
    ensures InNative(Signed, c.ranges.signed.lowerBound)
    ensures SubtractingReportingOverflow(c, Signed, 0, c.ranges.signed.lowerBound)
      == Reported(c.ranges.signed.lowerBound, false)
    ensures !Fits(Signed, c.bitWidth, 0 - c.ranges.signed.lowerBound)
  {
    MinNegated(c);
  }

  /** -sMin lies one above sMax and truncates back to sMin. */
  lemma MinNegated(c: CustomInteger)
    requires c.Valid()
    ensures InNative(Signed, c.ranges.signed.lowerBound)
    ensures WrapTo(Signed, c.bitWidth, 0 - c.ranges.signed.lowerBound) == c.ranges.signed.lowerBound
    ensures !Fits(Signed, c.bitWidth, 0 - c.ranges.signed.lowerBound)
  {
    Bounds(c);
    var sMin := c.ranges.signed.lowerBound;
    var m := Pow2(c.bitWidth);
    assert Congruent(sMin, 0 - sMin, m) by {
      CongruentShift(0 - sMin, -1, m);
      assert 0 - sMin + -1 * m == sMin;
    }
    WrapToUnique(Signed, c.bitWidth, 0 - sMin, sMin);
  }

  /** The subtraction with the zero minuend included in the positive
      overflow test (`lhs >= 0` where the source has `lhs > 0`). */
  function SubtractingCorrected(c: CustomInteger, k: Kind, lhs: int, rhs: int): (r: Reported)
    requires c.Valid() && InNative(k, lhs) && InNative(k, rhs)
    ensures r.partialValue == WrapTo(k, c.bitWidth, lhs - rhs)
  {
    var r := SubtractingReportingOverflow(c, k, lhs, rhs);
    if k == Signed && lhs == 0 && rhs == c.ranges.signed.lowerBound then Reported(r.partialValue, true) else r
  }

  /** The corrected subtraction flags exactly the differences that leave the range. */
  lemma SubtractingCorrectedExact(c: CustomInteger, k: Kind, lhs: int, rhs: int)
    requires c.Valid() && InNative(k, lhs) && InNative(k, rhs)
    requires Fits(k, c.bitWidth, lhs) && Fits(k, c.bitWidth, rhs)
    ensures var r := SubtractingCorrected(c, k, lhs, rhs);
      (r.overflow <==> !Fits(k, c.bitWidth, lhs - rhs))
      && (!r.overflow ==> r.partialValue == lhs - rhs)
  {
    SubtractingExact(c, k, lhs, rhs);
    if k == Signed && lhs == 0 && rhs == c.ranges.signed.lowerBound {
      SubtractingZeroMinusMin(c);
    }
  }

  // ------------------------------------------------------------- multiply

  /** `multipliedReportingOverflow`: a zero operand gives (0, false);
      otherwise the wrapped product truncated to the width, with the signed
      test below or, unsigned, lhs > uMax / rhs. */
  function MultipliedReportingOverflow(c: CustomInteger, k: Kind, lhs: int, rhs: int): (r: Reported)
    requires c.Valid() && InNative(k, lhs) && InNative(k, rhs)
    ensures Fits(k, c.bitWidth, r.partialValue)
    ensures r.partialValue == WrapTo(k, c.bitWidth, lhs * rhs)
    ensures lhs == 0 || rhs == 0 ==> !r.overflow
  {
    if !(lhs != 0 && rhs != 0) then
      assert lhs * rhs == 0;
      WrapToFits(k, c.bitWidth, 0);
      Reported(0, false)
    else if k == Signed then
      WrapToNarrower(Signed, Signed, c.bitWidth, lhs * rhs);
      Reported(ToSignedBitWidth(c, Wrap(Signed, lhs * rhs)), MultipliedSignedOverflow(c, lhs, rhs))
    else
      WrapToNarrower(Unsigned, Unsigned, c.bitWidth, lhs * rhs);
      Reported(ToUnsignedBitWidth(c, Wrap(Unsigned, lhs * rhs)), lhs > c.ranges.unsigned.upperBound / rhs)
  }

  /** The signed overflow test of the multiplication, for non-zero operands:
      sMin * -1 and -1 * sMin are singled out, operands of the same sign are
      compared with sMax / rhs, and operands of opposite signs go through
      the bit tests of `OppositeSignsAsWritten`. */
  function MultipliedSignedOverflow(c: CustomInteger, lhs: int, rhs: int): (b: bool)
    requires c.Valid() && lhs != 0 && rhs != 0
    ensures (lhs < 0) != (rhs < 0) ==> b == OppositeSignsAsWritten(c, lhs, rhs)
  {
    XorSign(lhs, rhs);
    var sMin, sMax := c.ranges.signed.lowerBound, c.ranges.signed.upperBound;
    (Xor(lhs, rhs) >= 0 && And(lhs, c.masks.signedBit) != 0
     && ((Not(lhs) == 0 && rhs == sMin) || (Not(rhs) == 0 && lhs == sMin)))
    || (if Xor(lhs, rhs) >= 0 then
          (Or(lhs, rhs) > 0 && lhs > TruncDiv(sMax, rhs)) || (Or(lhs, rhs) < 0 && lhs < TruncDiv(sMax, rhs))
        else OppositeSignsAsWritten(c, lhs, rhs))
  }

  /** The opposite-signs test as the source writes it. `&&` binds tighter
      than `||`, and `lhs & ~rhs > 0` and `~lhs & rhs > 0` are not the sign
      tests they stand for; the first comparison also points the wrong way.
      A negative lhs is flagged only when the product really passes sMin, but
      a positive lhs is flagged only when it does not. */
  function OppositeSignsAsWritten(c: CustomInteger, lhs: int, rhs: int): (b: bool)
    requires lhs != 0 && rhs != 0
    ensures c.Valid() && lhs < 0 && rhs > 0 && b ==> lhs * rhs < c.ranges.signed.lowerBound
    ensures c.Valid() && lhs > 0 && rhs < 0 && b ==> lhs * rhs >= c.ranges.signed.lowerBound
  {
    var sMin := c.ranges.signed.lowerBound;
    AndSign(lhs, Not(rhs));
    AndSign(Not(lhs), rhs);
    var b := (Xor(lhs, rhs) != -2 && And(lhs, Not(rhs)) > 0 && rhs > TruncDiv(sMin, lhs))
      || (And(Not(lhs), rhs) > 0 && lhs < TruncDiv(sMin, rhs));
    if c.Valid() && (lhs < 0) != (rhs < 0) then
      Bounds(c);
      OppositeSignsCore(lhs, rhs, -sMin, lhs * rhs);
      b
    else b
  }

  /** The opposite-signs test as the truth table means it: the product lies
      below sMin exactly when the negative operand lies below sMin divided
      by the positive one. */
  function OppositeSignsOverflow(c: CustomInteger, lhs: int, rhs: int): bool
    requires lhs != 0 && rhs != 0
  {
    var sMin := c.ranges.signed.lowerBound;
    (lhs > 0 && rhs < TruncDiv(sMin, lhs)) || (lhs < 0 && lhs < TruncDiv(sMin, rhs))
  }

  /** The multiplication with the opposite-signs test replaced by
      `OppositeSignsOverflow`. */
  function MultipliedCorrected(c: CustomInteger, k: Kind, lhs: int, rhs: int): (r: Reported)
    requires c.Valid() && InNative(k, lhs) && InNative(k, rhs)
    ensures r.partialValue == WrapTo(k, c.bitWidth, lhs * rhs)
  {
    var r := MultipliedReportingOverflow(c, k, lhs, rhs);
    if k == Signed && lhs != 0 && rhs != 0 && Xor(lhs, rhs) < 0 then
      Reported(r.partialValue, OppositeSignsOverflow(c, lhs, rhs))
    else r
  }

  /** The corrected multiplication flags exactly the products that leave the
      range, and without overflow its value is the product. */
  lemma MultipliedCorrectedExact(c: CustomInteger, k: Kind, lhs: int, rhs: int)
    requires c.Valid() && InNative(k, lhs) && InNative(k, rhs)
    requires Fits(k, c.bitWidth, lhs) && Fits(k, c.bitWidth, rhs)
    ensures var r := MultipliedCorrected(c, k, lhs, rhs);
      (r.overflow <==> !Fits(k, c.bitWidth, lhs * rhs))
      && (!r.overflow ==> r.partialValue == lhs * rhs)
  {
    var w := c.bitWidth;
    if lhs == 0 || rhs == 0 {
      assert lhs * rhs == 0;
    } else if k == Unsigned {
      MultipliedUnsignedExact(c, lhs, rhs);
    } else {
      XorSign(lhs, rhs);
      if (lhs < 0) == (rhs < 0) {
        MultipliedSameSignsExact(c, lhs, rhs);
      } else {
        OppositeSignsExact(c, lhs, rhs);
      }
    }
    if Fits(k, w, lhs * rhs) {
      WrapToFits(k, w, lhs * rhs);
    }
  }

  /** The unsigned test lhs > uMax / rhs is exact. */
  lemma MultipliedUnsignedExact(c: CustomInteger, lhs: int, rhs: int)
    requires c.Valid() && InNative(Unsigned, lhs) && InNative(Unsigned, rhs) && lhs != 0 && rhs != 0
    ensures MultipliedReportingOverflow(c, Unsigned, lhs, rhs).overflow <==> !Fits(Unsigned, c.bitWidth, lhs * rhs)
  {
    Bounds(c);
    ProductAboveBound(lhs, rhs, c.ranges.unsigned.upperBound, lhs * rhs);
  }

  /** For b > 0 and a >= 0: a > m / b exactly when the product a * b passes m. */
  lemma ProductAboveBound(a: int, b: int, m: int, p: int)
    requires a >= 0 && b > 0 && p == a * b
    ensures (a > m / b <==> p > m) && p >= 0
  {
    MulAboveQuotient(a, b, m);
    MulAtLeast(a, b);
  }

  /** For operands of the width and of the same sign the signed test is exact. */
  lemma MultipliedSameSignsExact(c: CustomInteger, lhs: int, rhs: int)
    requires c.Valid() && Fits(Signed, c.bitWidth, lhs) && Fits(Signed, c.bitWidth, rhs)
    requires lhs != 0 && rhs != 0 && (lhs < 0) == (rhs < 0)
    ensures MultipliedSignedOverflow(c, lhs, rhs) <==> !Fits(Signed, c.bitWidth, lhs * rhs)
  {
    Bounds(c);
    XorSign(lhs, rhs);
    OrSign(lhs, rhs);
    SignBitTest(c, lhs) by {
      FitsNative(Signed, c.bitWidth, lhs);
    }
    var h := -c.ranges.signed.lowerBound;
    SameSignsCore(lhs, rhs, h, lhs * rhs);
  }

  /** The same-signs comparison against sMax == h - 1, with the product p
      passed in: it is positive, and it passes h - 1 exactly when the test
      fires; sMin * -1 and -1 * sMin give h. */
  lemma SameSignsCore(lhs: int, rhs: int, h: int, p: int)
    requires h > 0 && lhs != 0 && rhs != 0 && (lhs < 0) == (rhs < 0) && p == lhs * rhs
    ensures p > 0
    ensures lhs > 0 ==> (lhs > TruncDiv(h - 1, rhs) <==> p > h - 1)
    ensures lhs < 0 ==> (lhs < TruncDiv(h - 1, rhs) <==> p > h - 1)
    ensures (lhs == -1 && rhs == -h) || (rhs == -1 && lhs == -h) ==> p == h
  {
    TruncDivSigns(h - 1, rhs);
    if lhs > 0 {
      ProductAboveBound(lhs, rhs, h - 1, p);
      MulPositive(lhs, rhs);
    } else {
      assert (-lhs) * (-rhs) == p;
      ProductAboveBound(-lhs, -rhs, h - 1, p);
      MulPositive(-lhs, -rhs);
    }
  }

  /** For operands of the width and of opposite signs the corrected test is exact. */
  lemma OppositeSignsExact(c: CustomInteger, lhs: int, rhs: int)
    requires c.Valid() && Fits(Signed, c.bitWidth, lhs) && Fits(Signed, c.bitWidth, rhs)
    requires lhs != 0 && rhs != 0 && (lhs < 0) != (rhs < 0)
    ensures OppositeSignsOverflow(c, lhs, rhs) <==> !Fits(Signed, c.bitWidth, lhs * rhs)
  {
    Bounds(c);
    OppositeSignsCore(lhs, rhs, -c.ranges.signed.lowerBound, lhs * rhs);
  }

  /** The opposite-signs comparison against sMin == -h, with the product p
      passed in: it is negative, and it lies below -h exactly when the
      negative operand lies below -h divided by the positive one. */
  lemma OppositeSignsCore(lhs: int, rhs: int, h: int, p: int)
    requires h > 0 && lhs != 0 && rhs != 0 && (lhs < 0) != (rhs < 0) && p == lhs * rhs
    ensures p < 0
    ensures (lhs > 0 && rhs < TruncDiv(-h, lhs)) || (lhs < 0 && lhs < TruncDiv(-h, rhs)) <==> p < -h
  {
    if lhs > 0 {
      TruncDivSigns(-h, lhs);
      assert (-rhs) * lhs == -p;
      ProductAboveBound(-rhs, lhs, h, -p);
      MulPositive(-rhs, lhs);
    } else {
      TruncDivSigns(-h, rhs);
      assert (-lhs) * rhs == -p;
      ProductAboveBound(-lhs, rhs, h, -p);
      MulPositive(-lhs, rhs);
    }
  }

  /** At width 8 the source's opposite-signs test reports 3 * -2 == -6 as an
      overflow, and misses -2 * 66 == -132 < -128. */
  lemma OppositeSignsMisreported()
    ensures Init(8).Some?
    ensures var c := Init(8).value;
      MultipliedReportingOverflow(c, Signed, 3, -2) == Reported(-6, true)
      && Fits(Signed, 8, -6)
      && MultipliedReportingOverflow(c, Signed, -2, 66) == Reported(124, false)
      && !Fits(Signed, 8, -132)
  {
    var c := Init(8).value;
    assert Pow2(7) == 128 && Pow2(8) == 256;
    assert c.ranges.signed.lowerBound == -128;
    assert Xor(3, -2) == -3 && And(3, Not(-2)) == 1 && TruncDiv(-128, 3) == -42;
    assert Xor(-2, 66) == -68 && And(-2, Not(66)) < 0 && And(Not(-2), 66) == 0;
    WrapToUnique(Signed, 8, 3 * -2, -6);
    WrapToUnique(Signed, 8, -2 * 66, 124) by {
      CongruentShift(-132, 1, 256);
    }
  }

  // -------------------------------------------------- divide and remainder

  /** The operands the division and remainder accept: Swift traps on
      Int64.min / -1 unless the check for sMin / -1 catches it first, which
      happens only at 64 bits. */
  predicate DivisionOperands(c: CustomInteger, k: Kind, lhs: int, rhs: int)
  {
    InNative(k, lhs) && InNative(k, rhs)
    && (DivisionTraps(k, lhs, rhs) ==> lhs == c.ranges.signed.lowerBound)
  }

  /** `dividedReportingOverflow`: division by zero gives (0, true),
      sMin / -1 gives (sMin, true), anything else the truncated quotient
      brought into the width. */
  function DividedReportingOverflow(c: CustomInteger, k: Kind, lhs: int, rhs: int): (r: Reported)
    requires c.Valid() && DivisionOperands(c, k, lhs, rhs)
    ensures Fits(k, c.bitWidth, r.partialValue)
    ensures rhs == 0 ==> r == Reported(0, true)
    ensures rhs != 0 ==> r.partialValue == WrapTo(k, c.bitWidth, TruncDiv(lhs, rhs))
  {
    if !(rhs != 0) then
      WrapToFits(k, c.bitWidth, 0);
      Reported(0, true)
    else if k == Signed && lhs == c.ranges.signed.lowerBound && rhs == -1 then
      MinNegated(c);
      TruncDivByUnit(lhs, rhs);
      Reported(c.ranges.signed.lowerBound, true)
    else
      TruncDivNative(k, lhs, rhs);
      Reported(Truncated(c, k, TruncDiv(lhs, rhs)), false)
  }

  /** `toSignedBitWidth` or `toUnsignedBitWidth`, after the kind. */
  function Truncated(c: CustomInteger, k: Kind, x: int): (r: int)
    requires c.Valid() && InNative(k, x)
    ensures r == WrapTo(k, c.bitWidth, x)
  {
    if k == Signed then ToSignedBitWidth(c, x) else ToUnsignedBitWidth(c, x)
  }

  /** For operands of the width, the division overflows exactly on a zero
      divisor and on a quotient outside the range, which is sMin / -1 only;
      otherwise the value is the truncated quotient itself. */
  lemma DividedExact(c: CustomInteger, k: Kind, lhs: int, rhs: int)
    requires c.Valid() && DivisionOperands(c, k, lhs, rhs)
    requires Fits(k, c.bitWidth, lhs) && Fits(k, c.bitWidth, rhs)
    ensures var r := DividedReportingOverflow(c, k, lhs, rhs);
      (r.overflow <==> rhs == 0 || !Fits(k, c.bitWidth, TruncDiv(lhs, rhs)))
      && (r.overflow <==> rhs == 0 || (k == Signed && lhs == c.ranges.signed.lowerBound && rhs == -1))
      && (!r.overflow ==> r.partialValue == TruncDiv(lhs, rhs))
  {
    if rhs != 0 {
      QuotientFits(c, k, lhs, rhs);
      if Fits(k, c.bitWidth, TruncDiv(lhs, rhs)) {
        WrapToFits(k, c.bitWidth, TruncDiv(lhs, rhs));
      }
    }
  }

  /** A quotient of values of the width is again of the width, except sMin / -1. */
  lemma QuotientFits(c: CustomInteger, k: Kind, lhs: int, rhs: int)
    requires c.Valid() && rhs != 0 && Fits(k, c.bitWidth, lhs) && InNative(k, rhs)
    ensures Fits(k, c.bitWidth, TruncDiv(lhs, rhs))
      <==> !(k == Signed && lhs == c.ranges.signed.lowerBound && rhs == -1)
  {
    Bounds(c);
    var q := TruncDiv(lhs, rhs);
    DivAtMost(Abs(lhs), Abs(rhs));
    assert Abs(q) == Abs(lhs) / Abs(rhs);
    if rhs == 1 || rhs == -1 {
      TruncDivByUnit(lhs, rhs);
    } else if lhs != 0 {
      TruncDivShrinks(lhs, rhs);
    }
  }

  /** `remainderReportingOverflow`: a zero divisor gives (0, true),
      sMin % -1 gives (sMin, true), anything else the truncated remainder. */
  function RemainderReportingOverflow(c: CustomInteger, k: Kind, lhs: int, rhs: int): (r: Reported)
    requires c.Valid() && DivisionOperands(c, k, lhs, rhs)
    ensures Fits(k, c.bitWidth, r.partialValue)
    ensures rhs == 0 ==> r == Reported(0, true)
    ensures rhs != 0 && !(k == Signed && lhs == c.ranges.signed.lowerBound && rhs == -1)
      ==> r == Reported(WrapTo(k, c.bitWidth, TruncRem(lhs, rhs)), false)
  {
    if !(rhs != 0) then
      WrapToFits(k, c.bitWidth, 0);
      Reported(0, true)
    else if k == Signed && lhs == c.ranges.signed.lowerBound && rhs == -1 then
      MinNegated(c);
      Reported(c.ranges.signed.lowerBound, true)
    else
      TruncDivNative(k, lhs, rhs);
      Reported(Truncated(c, k, TruncRem(lhs, rhs)), false)
  }

  /** sMin % -1 is 0, which fits, yet the source reports sMin; Swift's own
      `remainderReportingOverflow` gives (0, true) there. */
  lemma RemainderOfMinByMinusOne(c: CustomInteger)
    requires c.Valid()
    ensures InNative(Signed, c.ranges.signed.lowerBound)
    ensures RemainderReportingOverflow(c, Signed, c.ranges.signed.lowerBound, -1)
      == Reported(c.ranges.signed.lowerBound, true)
    ensures TruncRem(c.ranges.signed.lowerBound, -1) == 0 && c.ranges.signed.lowerBound != 0
  {
    MinNegated(c);
    TruncRemBetween(c.ranges.signed.lowerBound, -1);
  }

  /** The remainder with sMin % -1 giving (0, true). */
  function RemainderCorrected(c: CustomInteger, k: Kind, lhs: int, rhs: int): (r: Reported)
    requires c.Valid() && DivisionOperands(c, k, lhs, rhs)
    ensures rhs != 0 ==> r.partialValue == WrapTo(k, c.bitWidth, TruncRem(lhs, rhs))
  {
    if k == Signed && lhs == c.ranges.signed.lowerBound && rhs == -1 then
      TruncRemBetween(lhs, rhs);
      WrapToFits(k, c.bitWidth, 0);
      Reported(0, true)
    else RemainderReportingOverflow(c, k, lhs, rhs)
  }

  /** For operands of the width the corrected remainder's value is the
      truncated remainder itself whenever the divisor is not zero, and the
      flag is raised on a zero divisor and on sMin % -1 only. */
  lemma RemainderCorrectedExact(c: CustomInteger, k: Kind, lhs: int, rhs: int)
    requires c.Valid() && DivisionOperands(c, k, lhs, rhs)
    requires Fits(k, c.bitWidth, lhs)
    ensures var r := RemainderCorrected(c, k, lhs, rhs);
      (r.overflow <==> rhs == 0 || (k == Signed && lhs == c.ranges.signed.lowerBound && rhs == -1))
      && (rhs != 0 ==> r.partialValue == TruncRem(lhs, rhs))
  {
    if rhs != 0 {
      TruncRemBetween(lhs, rhs);
      WrapToFits(k, c.bitWidth, TruncRem(lhs, rhs));
    }
  }
}
