/** The inlinable helpers: sign predicates that repeat the descriptor's,
    the trailing-zero count with its zero case, and the two truncations
    that bring a native value back into the width. */
module Inlinable {
  import opened Math
  import opened Bits
  import opened Native
  import opened Descriptor

  /** `isNegative`: the sign-bit test of `isSigned`, under the name that says what it means. */
  function IsNegative(c: CustomInteger, k: Kind, value: int): (b: bool)
    requires c.Valid() && InNative(k, value)
    ensures k == Unsigned ==> !b
    ensures k == Signed && c.IsInRange(k, value) ==> (b <==> value < 0)
    ensures b == c.IsSigned(k, value)
  {
    k == Signed && (SignBitTest(c, value); And(value, c.masks.signedBit) != 0)
  }

  /** `isSignOpposite`: a signed kind with exactly one operand negative. */
  function IsSignOpposite(c: CustomInteger, k: Kind, lhs: int, rhs: int): (b: bool)
    ensures k == Unsigned ==> !b
    ensures b <==> k == Signed && (lhs < 0) != (rhs < 0)
    ensures b == c.IsOppositeSigns(k, lhs, rhs)
  {
    XorSign(lhs, rhs);
    k == Signed && Xor(lhs, rhs) < 0
  }

  /** `isSignSame`: an unsigned kind, or both operands on the same side of zero. */
  function IsSignSame(c: CustomInteger, k: Kind, lhs: int, rhs: int): (b: bool)
    ensures k == Unsigned ==> b
    ensures b <==> !IsSignOpposite(c, k, lhs, rhs)
    ensures b == c.IsSameSigns(k, lhs, rhs)
  {
    XorSign(lhs, rhs);
    k != Signed || Xor(lhs, rhs) >= 0
  }

  /** `trailingZeroBitCount` of a non-zero native value: zero bits below the lowest one bit. */
  function NativeTrailingZeros(v: int): nat
    requires v != 0
    decreases Abs(v)
  {
    if v % 2 == 1 then 0 else NativeTrailingZeros(v / 2) + 1
  }

  /** The count is the exponent of a power of two that divides the value
      and leaves an odd quotient. */
  lemma {:induction false} TrailingZerosDivide(v: int)
    requires v != 0
    ensures var n := NativeTrailingZeros(v); v % Pow2(n) == 0 && v / Pow2(n) % 2 == 1
    decreases Abs(v)
  {
    if v % 2 == 0 {
      var n := NativeTrailingZeros(v / 2);
      TrailingZerosDivide(v / 2);
      DivDiv(v, 2, Pow2(n));
    }
  }

  /** No higher power of two divides the value. */
  lemma TrailingZerosMaximal(v: int, j: nat)
    requires v != 0 && j > NativeTrailingZeros(v)
    ensures v % Pow2(j) != 0
  {
    var n := NativeTrailingZeros(v);
    assert v % Pow2(n + 1) != 0 by {
      TrailingZerosDivide(v);
      NextBitSet(v, n);
    }
    NotMultipleAbove(v, n + 1, j);
  }

  /** If 2^i does not divide v, no higher power of two does. */
  lemma NotMultipleAbove(v: int, i: nat, j: nat)
    requires i <= j && v % Pow2(i) != 0
    ensures v % Pow2(j) != 0
  {
    Pow2Add(i, j - i);
    ModCoarse(v, Pow2(i), Pow2(j - i));
  }

  /** Bit n set and the bits below clear leave remainder 2^n modulo 2^(n+1). */
  lemma NextBitSet(v: int, n: nat)
    requires v % Pow2(n) == 0 && v / Pow2(n) % 2 == 1
    ensures v % Pow2(n + 1) == Pow2(n)
  {
    var P := Pow2(n);
    DivDiv(v, P, 2);
    assert Pow2(n + 1) == P * 2;
  }

  /** The count is determined by its defining property. */
  lemma TrailingZerosUnique(v: int, n: nat)
    requires v != 0 && v % Pow2(n) == 0 && v / Pow2(n) % 2 == 1
    ensures NativeTrailingZeros(v) == n
  {
    var t := NativeTrailingZeros(v);
    if t < n {
      TrailingZerosMaximal(v, n);
    } else if t > n {
      assert v % Pow2(n + 1) != 0 by {
        NextBitSet(v, n);
      }
      NotMultipleAbove(v, n + 1, t);
      TrailingZerosDivide(v);
    }
  }

  /** A non-zero multiple of 2^n has magnitude at least 2^n. */
  lemma MultipleAtLeast(v: int, n: nat)
    requires v != 0 && v % Pow2(n) == 0
    ensures Pow2(n) <= v || Pow2(n) <= -v
  {
    var P := Pow2(n);
    var q := v / P;
    assert v == q * P;
    MulAtLeast(q, P);
    MulAtLeast(-q, P);
  }

  /** A non-zero value of the width has fewer than w trailing zeros. */
  lemma TrailingZerosBelowWidth(k: Kind, w: nat, v: int)
    requires 1 <= w && v != 0
    ensures Fits(k, w, v) ==> NativeTrailingZeros(v) < w
  {
    if Fits(k, w, v) {
      var n := NativeTrailingZeros(v);
      assert Pow2(n) <= v || Pow2(n) <= -v by {
        TrailingZerosDivide(v);
        MultipleAtLeast(v, n);
      }
      Pow2Add(1, w - 1);
      if n >= w {
        Pow2Monotone(w, n);
      }
    }
  }

  /** `trailingZeroBitCount`: the width itself for zero, otherwise the
      native count. */
  function TrailingZeroBitCount(c: CustomInteger, k: Kind, value: int): (n: int)
    requires c.Valid() && InNative(k, value)
    ensures value == 0 ==> n == c.bitWidth
    ensures value != 0 ==> n >= 0 && value % Pow2(n) == 0 && value / Pow2(n) % 2 == 1
    ensures c.IsInRange(k, value) ==> 0 <= n <= c.bitWidth && (n == c.bitWidth <==> value == 0)
  {
    if value == 0 then
      c.bitWidth
    else
      var n := NativeTrailingZeros(value);
      TrailingZerosDivide(value);
      TrailingZerosBelowWidth(k, c.bitWidth, value);
      n
  }

  /** 2^n and -2^n have n trailing zeros. */
  lemma PowerTrailingZeros(n: nat)
    ensures NativeTrailingZeros(Pow2(n)) == n
    ensures NativeTrailingZeros(-Pow2(n)) == n
  {
    var P := Pow2(n);
    assert P % P == 0 && P / P % 2 == 1 by {
      DivModUnique(P, P, 1, 0);
    }
    TrailingZerosUnique(P, n);
    var v := -P;
    assert v % P == 0 && v / P % 2 == 1 by {
      DivModUnique(v, P, -1, 0);
    }
    TrailingZerosUnique(v, n);
  }

  /** A power of two 2^s of the width has s trailing zeros. */
  lemma TrailingZerosOfPow2(c: CustomInteger, s: nat)
    requires c.Valid() && s < c.bitWidth
    ensures InNative(Unsigned, Pow2(s)) && TrailingZeroBitCount(c, Unsigned, Pow2(s)) == s
  {
    Pow2Monotone(s, 63);
    Pow2Of63And64();
    PowerTrailingZeros(s);
  }

  /** The signed minimum -2^(w-1) has w-1 trailing zeros. */
  lemma TrailingZerosOfMin(c: CustomInteger)
    requires c.Valid()
    ensures InNative(Signed, c.ranges.signed.lowerBound)
    ensures TrailingZeroBitCount(c, Signed, c.ranges.signed.lowerBound) == c.bitWidth - 1
  {
    Pow2Monotone(c.bitWidth - 1, 63);
    Pow2Of63And64();
    PowerTrailingZeros(c.bitWidth - 1);
  }

  /** The unsigned maximum 2^w-1 is odd: no trailing zeros. */
  lemma TrailingZerosOfMax(c: CustomInteger)
    requires c.Valid()
    ensures InNative(Unsigned, c.ranges.unsigned.upperBound)
    ensures TrailingZeroBitCount(c, Unsigned, c.ranges.unsigned.upperBound) == 0
  {
    var m := Pow2(c.bitWidth) - 1;
    assert InNative(Unsigned, m) by {
      Pow2Monotone(c.bitWidth, 64);
      Pow2Of63And64();
    }
    assert m == 2 * (Pow2(c.bitWidth - 1) - 1) + 1;
    DivModUnique(m, 2, Pow2(c.bitWidth - 1) - 1, 1);
    TrailingZerosUnique(m, 0);
  }

  /** `toSignedBitWidth`: keep the low w bits, flip the sign bit and take it
      away again, which sign-extends bit w-1. */
  function ToSignedBitWidth(c: CustomInteger, x: int): (r: int)
    requires c.Valid() && InNative(Signed, x)
    ensures Fits(Signed, c.bitWidth, r)
    ensures Congruent(r, x, Pow2(c.bitWidth))
    ensures r == WrapTo(Signed, c.bitWidth, x)
  {
    ToSignedMasks(c, x);
    Wrap(Signed, Xor(And(x, c.masks.signed), c.masks.signedBit) - c.masks.signedBit)
  }

  lemma ToSignedMasks(c: CustomInteger, x: int)
    requires c.Valid() && InNative(Signed, x)
    ensures var r := Wrap(Signed, Xor(And(x, c.masks.signed), c.masks.signedBit) - c.masks.signedBit);
      r == WrapTo(Signed, c.bitWidth, x)
  {
    if c.bitWidth < 64 {
      ToSignedNarrow(c.bitWidth, x, c.masks.signed, c.masks.signedBit);
    } else {
      ToSignedWide(x, c.masks.signed, c.masks.signedBit);
    }
  }

  /** Below 64 bits: the low bits u of x become u or u - 2^w, whichever lies in range. */
  lemma ToSignedNarrow(w: nat, x: int, mask: int, signBit: int)
    requires 1 <= w < 64 && mask == Pow2(w) - 1 && signBit == Pow2(w - 1)
    ensures Wrap(Signed, Xor(And(x, mask), signBit) - signBit) == WrapTo(Signed, w, x)
  {
    var m := Pow2(w);
    var u := And(x, mask);
    assert u == x % m by {
      AndLowMask(x, w);
    }
    var y := Xor(u, signBit) - signBit;
    assert Fits(Signed, w, y) && Congruent(y, u, m) by {
      FlipSignBit(w, u);
    }
    assert Congruent(y, x, m) by {
      ModCongruent(x, m);
      CongruentTransitive(y, u, x, m);
    }
    assert Wrap(Signed, y) == y by {
      FitsNative(Signed, w, y);
      WrapIdentity(Signed, y);
    }
    WrapToUnique(Signed, w, x, y);
  }

  /** For 0 <= u < 2^w, flipping bit w-1 and subtracting it reads u as a
      w-bit two's-complement pattern. */
  lemma FlipSignBit(w: nat, u: int)
    requires 1 <= w && 0 <= u < Pow2(w)
    ensures var y := Xor(u, Pow2(w - 1)) - Pow2(w - 1);
      Fits(Signed, w, y) && Congruent(y, u, Pow2(w))
  {
    var p := Pow2(w - 1);
    var m := Pow2(w);
    assert m == 2 * p by {
      Pow2Add(1, w - 1);
    }
    var a := And(u, p);
    assert Xor(u, p) - p == u - 2 * a - p + p by {
      XorAsAnd(u, p);
    }
    assert a == (if u < p then 0 else p) by {
      SignBitOf(w, u, p);
    }
    if u < p {
      assert Congruent(u, u, m);
    } else {
      assert u - 2 * a == u + (-1) * m;
      CongruentShift(u, -1, m);
    }
  }

  /** Bit w-1 of a value below 2^w is set exactly in the upper half. */
  lemma SignBitOf(w: nat, u: int, p: int)
    requires 1 <= w && p == Pow2(w - 1) && 0 <= u < 2 * p
    ensures And(u, p) == (if u < p then 0 else p)
  {
    if u < p {
      assert u / p == 0 by {
        DivModUnique(u, p, 0, u);
      }
    } else {
      assert u / p == 1 by {
        DivModUnique(u, p, 1, u - p);
      }
    }
    AndBit(u, w - 1);
  }

  /** At 64 bits: masking with -1 keeps x, and flipping and removing Int64.min gives x back. */
  lemma ToSignedWide(x: int, mask: int, signBit: int)
    requires InNative(Signed, x) && mask == -1 && signBit == I64Min
    ensures Wrap(Signed, Xor(And(x, mask), signBit) - signBit) == WrapTo(Signed, 64, x)
  {
    var p := Pow2(63);
    var M := NativeModulus;
    assert M == 2 * p && p == -I64Min by {
      Pow2Of63And64();
    }
    assert And(x, -1) == x;
    var y := Xor(x, -p) + p;
    assert y == x - 2 * And(x, -p) by {
      XorAsAnd(x, -p);
    }
    var q := x / p;
    assert And(x, -p) == p * q by {
      AndNegPow2(x, 63);
    }
    OneStepBelow(x, p);
    assert Congruent(x, y, M) by {
      if x >= 0 {
        assert y == x;
      } else {
        assert y == x + 1 * M;
        CongruentShift(x, 1, M);
        CongruentSymmetric(y, x, M);
      }
    }
    WrapUnique(Signed, y, x);
    NativeIsWidth64(Signed, x);
    WrapToFits(Signed, 64, x);
  }

  /** `toUnsignedBitWidth`: keep the low w bits. */
  function ToUnsignedBitWidth(c: CustomInteger, x: int): (r: int)
    requires c.Valid() && InNative(Unsigned, x)
    ensures Fits(Unsigned, c.bitWidth, r)
    ensures r == x % Pow2(c.bitWidth)
    ensures r == WrapTo(Unsigned, c.bitWidth, x)
  {
    AndLowMask(x, c.bitWidth);
    And(x, c.masks.unsigned)
  }

  /** Both truncations leave a value of the width unchanged. */
  lemma TruncationIdentity(c: CustomInteger, x: int)
    requires c.Valid()
    ensures InNative(Signed, x) && Fits(Signed, c.bitWidth, x) ==> ToSignedBitWidth(c, x) == x
    ensures InNative(Unsigned, x) && Fits(Unsigned, c.bitWidth, x) ==> ToUnsignedBitWidth(c, x) == x
  {
    if Fits(Signed, c.bitWidth, x) {
      WrapToFits(Signed, c.bitWidth, x);
    }
    if Fits(Unsigned, c.bitWidth, x) {
      WrapToFits(Unsigned, c.bitWidth, x);
    }
  }

  /** Truncating twice is truncating once. */
  lemma TruncationIdempotent(c: CustomInteger, x: int)
    requires c.Valid()
    ensures InNative(Signed, x) ==>
      var r := ToSignedBitWidth(c, x); InNative(Signed, r) && ToSignedBitWidth(c, r) == r
    ensures InNative(Unsigned, x) ==>
      var r := ToUnsignedBitWidth(c, x); InNative(Unsigned, r) && ToUnsignedBitWidth(c, r) == r
  {
    if InNative(Signed, x) {
      var r := ToSignedBitWidth(c, x);
      FitsNative(Signed, c.bitWidth, r);
      TruncationIdentity(c, r);
    }
    if InNative(Unsigned, x) {
      var r := ToUnsignedBitWidth(c, x);
      FitsNative(Unsigned, c.bitWidth, r);
      TruncationIdentity(c, r);
    }
  }

  /** `toSignedBitWidth` reads only the low w bits of its input, whatever
      the sign of the native value. */
  lemma ToSignedLowBits(c: CustomInteger, x: int, y: int)
    requires c.Valid() && InNative(Signed, x) && InNative(Signed, y)
    requires x % Pow2(c.bitWidth) == y % Pow2(c.bitWidth)
    ensures ToSignedBitWidth(c, x) == ToSignedBitWidth(c, y)
  {
    CongruentMod(x, y, Pow2(c.bitWidth));
    WrapToCongruent(Signed, c.bitWidth, x, y);
  }
}
