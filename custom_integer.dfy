/** The width descriptor: a CustomInteger records a bit width between 1 and
    64, the signed and unsigned value ranges of that width and three masks,
    all computed once when it is created. The sign and range predicates
    beside it take the operand kind (Swift's `T.isSigned`) as a parameter. */
module Descriptor {
  import opened Math
  import opened Bits
  import opened Native

  datatype Option<T> = None | Some(value: T)

  /** Swift's `ClosedRange`: both bounds included. */
  datatype ClosedRange = ClosedRange(lowerBound: int, upperBound: int)
  {
    predicate Contains(x: int)
    {
      lowerBound <= x <= upperBound
    }
  }

  datatype Ranges = Ranges(signed: ClosedRange, unsigned: ClosedRange)

  /** `signed` and `signedBit` are stored as Int64 values, `unsigned` as a UInt64 value. */
  datatype Masks = Masks(signed: int, signedBit: int, unsigned: int)

  /** `Int.bitWidth`, the widest width supported. */
  const NativeBitWidth: int := 64

  datatype CustomInteger = CustomInteger(bitWidth: int, ranges: Ranges, masks: Masks)
  {
    /** The fields as creation leaves them, in closed form: the signed range
        is [-2^(w-1), 2^(w-1)-1], the unsigned one [0, 2^w-1], the unsigned
        mask 2^w-1, and the Int64 masks 2^w-1 and 2^(w-1) below 64 bits but
        -1 and Int64.min at 64 bits, where those patterns have bit 63 set
        (`MaskPatterns` restates them as bit patterns). */
    predicate Valid()
    {
      1 <= bitWidth <= NativeBitWidth
      && ranges.signed == ClosedRange(MinOf(Signed, bitWidth), MaxOf(Signed, bitWidth))
      && ranges.unsigned == ClosedRange(MinOf(Unsigned, bitWidth), MaxOf(Unsigned, bitWidth))
      && masks.unsigned == Pow2(bitWidth) - 1
      && masks.signed == (if bitWidth < 64 then Pow2(bitWidth) - 1 else -1)
      && masks.signedBit == (if bitWidth < 64 then Pow2(bitWidth - 1) else I64Min)
    }

    /** The value lies in the range of its kind at this width. */
    function IsInRange(k: Kind, value: int): (b: bool)
      requires Valid()
      ensures b <==> Fits(k, bitWidth, value)
    {
      if k == Signed then ranges.signed.Contains(value) else ranges.unsigned.Contains(value)
    }

    /** Whether the sign bit of the width is set; despite its name this
        answers "is the value negative" for in-range signed values. */
    function IsSigned(k: Kind, value: int): (b: bool)
      requires Valid() && InNative(k, value)
      ensures k == Unsigned ==> !b
      ensures k == Signed ==> (b <==> value / Pow2(bitWidth - 1) % 2 == 1)
      ensures k == Signed && Fits(Signed, bitWidth, value) ==> (b <==> value < 0)
    {
      k == Signed && (SignBitTest(this, value); And(value, masks.signedBit) != 0)
    }

    /** Both operands of a signed kind, with exactly one of them negative. */
    function IsOppositeSigns(k: Kind, lhs: int, rhs: int): (b: bool)
      ensures b <==> k == Signed && (lhs < 0) != (rhs < 0)
    {
      XorSign(lhs, rhs);
      k == Signed && Xor(lhs, rhs) < 0
    }

    /** An unsigned kind, or operands on the same side of zero. */
    function IsSameSigns(k: Kind, lhs: int, rhs: int): (b: bool)
      ensures b <==> !IsOppositeSigns(k, lhs, rhs)
      ensures b <==> k == Unsigned || (lhs < 0) == (rhs < 0)
    {
      XorSign(lhs, rhs);
      k != Signed || Xor(lhs, rhs) >= 0
    }
  }

  /** `init?(for:)`: a descriptor for 1 to 64 bits, nil otherwise. The
      bounds and masks are computed with Swift's overflowing shifts and
      wrapping subtraction, exactly as the initializer writes them. */
  function Init(bits: int): (r: Option<CustomInteger>)
    ensures r.Some? <==> 1 <= bits <= NativeBitWidth
    ensures r.Some? ==> r.value.bitWidth == bits && r.value.Valid()
  {
    if !(bits >= 1 && bits <= NativeBitWidth) then
      None
    else
      InitShifts(bits);
      Some(CustomInteger(
        bits,
        Ranges(
          ClosedRange(Wrap(Signed, 0 - ShiftLeft(Signed, 1, bits - 1)),
                      Wrap(Signed, ShiftLeft(Signed, 1, bits - 1) - 1)),
          ClosedRange(0, Wrap(Unsigned, ShiftLeft(Unsigned, 1, bits) - 1))),
        Masks(
          Wrap(Signed, ShiftLeft(Signed, 1, bits) - 1),
          ShiftLeft(Signed, 1, bits - 1),
          Wrap(Unsigned, ShiftLeft(Unsigned, 1, bits) - 1))))
  }

  /** The shifted-and-wrapped expressions of the initializer have the closed
      forms of `Valid`, including at 64 bits where `1 << 64` is 0 and
      `1 << 63` is Int64.min. */
  lemma InitShifts(w: int)
    requires 1 <= w <= 64
    ensures Wrap(Signed, 0 - ShiftLeft(Signed, 1, w - 1)) == MinOf(Signed, w)
    ensures Wrap(Signed, ShiftLeft(Signed, 1, w - 1) - 1) == MaxOf(Signed, w)
    ensures Wrap(Unsigned, ShiftLeft(Unsigned, 1, w) - 1) == MaxOf(Unsigned, w)
    ensures Wrap(Signed, ShiftLeft(Signed, 1, w) - 1) == (if w < 64 then Pow2(w) - 1 else -1)
    ensures ShiftLeft(Signed, 1, w - 1) == (if w < 64 then Pow2(w - 1) else I64Min)
  {
    InitSignedBounds(w);
    InitUnsignedBound(w);
    InitSignedMasks(w);
  }

  lemma InitSignedBounds(w: int)
    requires 1 <= w <= 64
    ensures Wrap(Signed, 0 - ShiftLeft(Signed, 1, w - 1)) == MinOf(Signed, w)
    ensures Wrap(Signed, ShiftLeft(Signed, 1, w - 1) - 1) == MaxOf(Signed, w)
  {
    var M := NativeModulus;
    var h := ShiftLeft(Signed, 1, w - 1);
    var p := Pow2(w - 1);
    assert Congruent(h, 1 * p, M);
    assert InNative(Signed, -p) && InNative(Signed, p - 1) by {
      Pow2Monotone(w - 1, 63);
      Pow2Of63And64();
    }
    assert Wrap(Signed, 0 - h) == -p by {
      CongruentNegate(h, p, M);
      CongruentSymmetric(0 - h, -p, M);
      WrapUnique(Signed, 0 - h, -p);
    }
    assert Wrap(Signed, h - 1) == p - 1 by {
      CongruentAdd(h, p, -1, M);
      CongruentSymmetric(h - 1, p - 1, M);
      WrapUnique(Signed, h - 1, p - 1);
    }
  }

  lemma InitUnsignedBound(w: int)
    requires 1 <= w <= 64
    ensures Wrap(Unsigned, ShiftLeft(Unsigned, 1, w) - 1) == MaxOf(Unsigned, w)
  {
    var M := NativeModulus;
    var u := ShiftLeft(Unsigned, 1, w);
    var m := Pow2(w) - 1;
    assert Congruent(u, 1 * Pow2(w), M);
    assert InNative(Unsigned, m) by {
      Pow2Monotone(w, 64);
      Pow2Of63And64();
    }
    CongruentAdd(u, Pow2(w), -1, M);
    CongruentSymmetric(u - 1, m, M);
    WrapUnique(Unsigned, u - 1, m);
  }

  /** The Int64 masks: `(1 << w) &- 1` and `1 << (w - 1)`. */
  lemma InitSignedMasks(w: int)
    requires 1 <= w <= 64
    ensures Wrap(Signed, ShiftLeft(Signed, 1, w) - 1) == (if w < 64 then Pow2(w) - 1 else -1)
    ensures ShiftLeft(Signed, 1, w - 1) == (if w < 64 then Pow2(w - 1) else I64Min)
  {
    var m := if w < 64 then Pow2(w) - 1 else -1;
    var b := if w < 64 then Pow2(w - 1) else I64Min;
    NarrowMasks(w, m, b);
    InitFullMask(w, m);
    InitSignBitMask(w, b);
  }

  lemma InitFullMask(w: int, m: int)
    requires 1 <= w <= 64 && InNative(Signed, m) && Congruent(m, Pow2(w) - 1, NativeModulus)
    ensures Wrap(Signed, ShiftLeft(Signed, 1, w) - 1) == m
  {
    var M := NativeModulus;
    var f := ShiftLeft(Signed, 1, w);
    assert Congruent(f, 1 * Pow2(w), M);
    CongruentAdd(f, Pow2(w), -1, M);
    CongruentTransitive(f - 1, Pow2(w) - 1, m, M) by {
      CongruentSymmetric(m, Pow2(w) - 1, M);
    }
    CongruentSymmetric(f - 1, m, M);
    WrapUnique(Signed, f - 1, m);
  }

  lemma InitSignBitMask(w: int, b: int)
    requires 1 <= w <= 64 && InNative(Signed, b) && Congruent(b, Pow2(w - 1), NativeModulus)
    ensures ShiftLeft(Signed, 1, w - 1) == b
  {
    var M := NativeModulus;
    var h := ShiftLeft(Signed, 1, w - 1);
    assert Congruent(h, 1 * Pow2(w - 1), M);
    CongruentTransitive(h, Pow2(w - 1), b, M) by {
      CongruentSymmetric(b, Pow2(w - 1), M);
    }
    CongruentInWindow(h, b, I64Min, M);
  }

  /** The closed-form Int64 masks are native values carrying the patterns
      2^w-1 and 2^(w-1). */
  lemma NarrowMasks(w: int, m: int, b: int)
    requires 1 <= w <= 64
    requires m == (if w < 64 then Pow2(w) - 1 else -1)
    requires b == (if w < 64 then Pow2(w - 1) else I64Min)
    ensures InNative(Signed, m) && InNative(Signed, b)
    ensures Congruent(m, Pow2(w) - 1, NativeModulus) && Congruent(b, Pow2(w - 1), NativeModulus)
  {
    var M := NativeModulus;
    Pow2Of63And64();
    if w < 64 {
      Pow2Monotone(w, 63);
      Pow2Monotone(w - 1, 62);
      assert Congruent(m, m, M) && Congruent(b, b, M);
    } else {
      assert Pow2(w) - 1 == m + 1 * M;
      CongruentShift(m, 1, M);
      CongruentSymmetric(m + 1 * M, m, M);
      assert Pow2(w - 1) == b + 1 * M;
      CongruentShift(b, 1, M);
      CongruentSymmetric(b + 1 * M, b, M);
    }
  }

  /** The stored masks are the bit patterns 2^w-1 and 2^(w-1), the two signed
      ones read as Int64 values and the unsigned one as a UInt64 value. */
  lemma MaskPatterns(c: CustomInteger)
    requires c.Valid()
    ensures c.masks.signed == Wrap(Signed, Pow2(c.bitWidth) - 1)
    ensures c.masks.signedBit == Wrap(Signed, Pow2(c.bitWidth - 1))
    ensures c.masks.unsigned == Wrap(Unsigned, Pow2(c.bitWidth) - 1)
  {
    var w := c.bitWidth;
    NarrowMasks(w, c.masks.signed, c.masks.signedBit);
    WrapUnique(Signed, Pow2(w) - 1, c.masks.signed);
    WrapUnique(Signed, Pow2(w - 1), c.masks.signedBit);
    assert InNative(Unsigned, c.masks.unsigned) by {
      Pow2Monotone(w, 64);
      Pow2Of63And64();
    }
    WrapIdentity(Unsigned, c.masks.unsigned);
  }

  /** The sign-bit mask tests bit w-1: set exactly for the negative values of the width. */
  lemma SignBitTest(c: CustomInteger, value: int)
    requires c.Valid() && InNative(Signed, value)
    ensures And(value, c.masks.signedBit) != 0 <==> value / Pow2(c.bitWidth - 1) % 2 == 1
    ensures Fits(Signed, c.bitWidth, value) ==> (And(value, c.masks.signedBit) != 0 <==> value < 0)
  {
    var w := c.bitWidth;
    if w < 64 {
      SignBitNarrow(w, value, c.masks.signedBit);
    } else {
      assert w - 1 == 63;
      SignBitWide(value);
    }
  }

  lemma SignBitNarrow(w: int, value: int, bit: int)
    requires 1 <= w && bit == Pow2(w - 1)
    ensures And(value, bit) != 0 <==> value / bit % 2 == 1
    ensures Fits(Signed, w, value) ==> (And(value, bit) != 0 <==> value < 0)
  {
    AndBit(value, w - 1);
    OneStepBelow(value, bit);
  }

  lemma SignBitWide(value: int)
    requires InNative(Signed, value)
    ensures And(value, I64Min) != 0 <==> value / Pow2(63) % 2 == 1
    ensures And(value, I64Min) != 0 <==> value < 0
  {
    var p := Pow2(63);
    Pow2Of63And64();
    var q := value / p;
    assert And(value, -p) == p * q by {
      AndNegPow2(value, 63);
    }
    OneStepBelow(value, p);
    if value < 0 {
      assert q == -1;
    } else {
      assert q == 0;
    }
  }

  /** A value in [-p, p) has floor quotient -1 or 0 by p. */
  lemma OneStepBelow(x: int, p: int)
    requires p > 0
    ensures -p <= x < p ==> (x / p == -1 <==> x < 0) && (x / p == 0 <==> x >= 0)
  {
    if -p <= x < 0 {
      DivModUnique(x, p, -1, x + p);
    } else if 0 <= x < p {
      DivModUnique(x, p, 0, x);
    }
  }

  /** Facts the initializer's ranges imply: sMax + 1 == -sMin,
      uMax == sMax - sMin, and both ranges hold 2^w values. */
  lemma RangeFacts(c: CustomInteger)
    requires c.Valid()
    ensures c.ranges.signed.upperBound + 1 == -c.ranges.signed.lowerBound
    ensures c.ranges.unsigned.upperBound == c.ranges.signed.upperBound - c.ranges.signed.lowerBound
    ensures c.ranges.signed.upperBound - c.ranges.signed.lowerBound + 1 == Pow2(c.bitWidth)
    ensures c.ranges.unsigned.upperBound - c.ranges.unsigned.lowerBound + 1 == Pow2(c.bitWidth)
  {
    Pow2Add(1, c.bitWidth - 1);
  }

  /** The stored bounds and masks at 64 bits: Int64.min...Int64.max,
      0...UInt64.max, and the masks -1, Int64.min and UInt64.max. */
  lemma InitWidest()
    ensures Init(0).None? && Init(65).None?
    ensures Init(64).Some? && Init(64).value.masks == Masks(-1, I64Min, U64Max)
    ensures Init(64).value.ranges == Ranges(ClosedRange(I64Min, I64Max), ClosedRange(0, U64Max))
  {
    Pow2Of63And64();
  }

  /** The range and sign checks quoted for width 8. */
  lemma InitWidth8()
    ensures Init(8).Some? && Init(8).value.IsInRange(Signed, -1)
    ensures !Init(8).value.IsInRange(Signed, -256) && !Init(8).value.IsInRange(Unsigned, 256)
    ensures Init(8).value.IsSigned(Signed, -1) && !Init(8).value.IsSigned(Unsigned, 255)
  {
    assert Pow2(7) == 128;
    assert Pow2(8) == 256;
  }

  /** The bounds of the ranges as powers of two, all of them native values. */
  lemma Bounds(c: CustomInteger)
    requires c.Valid()
    ensures var h := Pow2(c.bitWidth - 1);
      c.ranges.signed.lowerBound == -h && c.ranges.signed.upperBound == h - 1
      && c.ranges.unsigned.lowerBound == 0 && c.ranges.unsigned.upperBound == 2 * h - 1
      && Pow2(c.bitWidth) == 2 * h && 1 <= h <= -I64Min
  {
    Pow2Add(1, c.bitWidth - 1);
    Pow2Monotone(c.bitWidth - 1, 63);
    Pow2Of63And64();
  }
}
