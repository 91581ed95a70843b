/** The two 64-bit native types a CustomInteger value travels in (`Int64`
    for signed widths, `UInt64` for unsigned ones) and the Swift operators
    the library applies to them: wrapping arithmetic, shifts and division
    that truncates toward zero. */
module Native {
  import opened Math

  /** `T.isSigned` for the operand type: Signed is Int64, Unsigned is UInt64. */
  datatype Kind = Signed | Unsigned

  const I64Min: int := -0x8000_0000_0000_0000
  const I64Max: int := 0x7fff_ffff_ffff_ffff
  const U64Max: int := 0xffff_ffff_ffff_ffff

  /** The value set of the native type of kind k. */
  predicate InNative(k: Kind, x: int)
  {
    match k
    case Signed => I64Min <= x <= I64Max
    case Unsigned => 0 <= x <= U64Max
  }

  /** Least value of a w-bit integer of kind k. */
  function MinOf(k: Kind, w: nat): int
    requires w >= 1
  {
    if k == Signed then -Pow2(w - 1) else 0
  }

  /** Greatest value of a w-bit integer of kind k. */
  function MaxOf(k: Kind, w: nat): int
    requires w >= 1
  {
    if k == Signed then Pow2(w - 1) - 1 else Pow2(w) - 1
  }

  /** x is representable as a w-bit integer of kind k. */
  predicate Fits(k: Kind, w: nat, x: int)
    requires w >= 1
  {
    MinOf(k, w) <= x <= MaxOf(k, w)
  }

  /** The w-bit integer of kind k whose bit pattern is the low w bits of x. */
  function WrapTo(k: Kind, w: nat, x: int): (r: int)
    requires w >= 1
    ensures Fits(k, w, r)
    ensures Congruent(r, x, Pow2(w))
  {
    Pow2Add(1, w - 1);
    var h := Pow2(w - 1);
    if k == Signed then
      ModCongruent(x + h, Pow2(w));
      (x + h) % Pow2(w) - h
    else
      ModCongruent(x, Pow2(w));
      x % Pow2(w)
  }

  /** A w-bit value congruent to x is the truncation of x. */
  lemma WrapToUnique(k: Kind, w: nat, x: int, y: int)
    requires w >= 1 && Fits(k, w, y) && Congruent(y, x, Pow2(w))
    ensures y == WrapTo(k, w, x)
  {
    Pow2Add(1, w - 1);
    var r := WrapTo(k, w, x);
    CongruentSymmetric(r, x, Pow2(w));
    CongruentTransitive(y, x, r, Pow2(w));
    CongruentInWindow(y, r, MinOf(k, w), Pow2(w));
  }

  /** Truncation sees only the residue of its input modulo 2^w. */
  lemma WrapToCongruent(k: Kind, w: nat, x: int, y: int)
    requires w >= 1 && Congruent(x, y, Pow2(w))
    ensures WrapTo(k, w, x) == WrapTo(k, w, y)
  {
    var r := WrapTo(k, w, y);
    CongruentTransitive(r, y, x, Pow2(w)) by {
      CongruentSymmetric(x, y, Pow2(w));
    }
    WrapToUnique(k, w, x, r);
  }

  /** Truncation leaves a value that already fits unchanged. */
  lemma WrapToFits(k: Kind, w: nat, x: int)
    requires w >= 1 && Fits(k, w, x)
    ensures WrapTo(k, w, x) == x
  {
    assert Congruent(x, x, Pow2(w));
    WrapToUnique(k, w, x, x);
  }

  /** 2^64: the number of values of each native type. */
  const NativeModulus: int := 0x1_0000_0000_0000_0000

  /** The result of Swift's wrapping operators `&+`, `&-` and `&*` applied to
      native operands whose exact result is x. */
  function Wrap(k: Kind, x: int): (r: int)
    ensures InNative(k, r)
    ensures Congruent(r, x, NativeModulus)
  {
    match k
    case Signed =>
      ModCongruent(x - I64Min, NativeModulus);
      (x - I64Min) % NativeModulus + I64Min
    case Unsigned =>
      ModCongruent(x, NativeModulus);
      x % NativeModulus
  }

  /** A native value congruent to x modulo 2^64 is the wrapped x. */
  lemma WrapUnique(k: Kind, x: int, y: int)
    requires InNative(k, y) && Congruent(y, x, NativeModulus)
    ensures y == Wrap(k, x)
  {
    var r := Wrap(k, x);
    CongruentSymmetric(r, x, NativeModulus);
    CongruentTransitive(y, x, r, NativeModulus);
    CongruentInWindow(y, r, if k == Signed then I64Min else 0, NativeModulus);
  }

  /** Wrapping leaves a native value unchanged. */
  lemma WrapIdentity(k: Kind, x: int)
    requires InNative(k, x)
    ensures Wrap(k, x) == x
  {
    assert Congruent(x, x, NativeModulus);
    WrapUnique(k, x, x);
  }

  /** The native types are the 64-bit instances of the w-bit ones. */
  lemma NativeIsWidth64(k: Kind, x: int)
    ensures Pow2(64) == NativeModulus && Pow2(63) == -I64Min
    ensures InNative(k, x) <==> Fits(k, 64, x)
    ensures Wrap(k, x) == WrapTo(k, 64, x)
  {
    Pow2Of63And64();
    WrapToUnique(k, 64, x, Wrap(k, x));
  }

  /** Wrapping to 64 bits first changes nothing for a width of at most 64. */
  lemma WrapToNarrower(k: Kind, k': Kind, w: nat, x: int)
    requires 1 <= w <= 64
    ensures WrapTo(k, w, Wrap(k', x)) == WrapTo(k, w, x)
  {
    Pow2Add(w, 64 - w);
    Pow2Of63And64();
    CongruentCoarser(Wrap(k', x), x, Pow2(w), Pow2(64 - w));
    WrapToCongruent(k, w, Wrap(k', x), x);
  }

  /** A w-bit value, w <= 64, is also a native value of the same kind. */
  lemma FitsNative(k: Kind, w: nat, x: int)
    requires 1 <= w <= 64 && Fits(k, w, x)
    ensures InNative(k, x)
  {
    Pow2Monotone(w, 64);
    Pow2Monotone(w - 1, 63);
    Pow2Of63And64();
  }

  /** `x << n` on a native value for a shift count n >= 0: bits pushed past
      bit 63 are lost, and a count of 64 or more leaves 0. */
  function ShiftLeft(k: Kind, x: int, n: nat): (r: int)
    ensures InNative(k, r)
    ensures Congruent(r, x * Pow2(n), NativeModulus)
  {
    if n >= 64 then
      ShiftedOut(x, n);
      0
    else
      Wrap(k, x * Pow2(n))
  }

  /** Shifting by 64 or more moves every bit past bit 63. */
  lemma ShiftedOut(x: int, n: nat)
    requires n >= 64
    ensures Congruent(0, x * Pow2(n), NativeModulus)
  {
    var c := x * Pow2(n - 64);
    assert x * Pow2(n) == c * Pow2(64) by {
      MulPow2Split(x, 64, n - 64);
    }
    Pow2Of63And64();
    MultipleCongruentZero(c, NativeModulus);
  }

  /** `x >> n` on a native value for n >= 0: the arithmetic shift, which
      floors; a count of 64 or more leaves 0 or -1, as the floor does. */
  function ShiftRight(x: int, n: nat): int
  {
    x / Pow2(n)
  }

  function Abs(x: int): nat
  {
    if x < 0 then -x else x
  }

  /** Swift's `a / b`: the quotient truncated toward zero. */
  function TruncDiv(a: int, b: int): (q: int)
    requires b != 0
    ensures Abs(a - b * q) < Abs(b)
    ensures a - b * q == 0 || (a - b * q < 0 <==> a < 0)
  {
    var m := Abs(a) / Abs(b);
    TruncatedQuotient(a, b, m);
    if (a < 0) == (b < 0) then m else -m
  }

  /** The magnitude quotient with the sign of a * b leaves a remainder
      smaller than the divisor, carrying the sign of the dividend. */
  lemma TruncatedQuotient(a: int, b: int, m: int)
    requires b != 0 && m == Abs(a) / Abs(b)
    ensures var q := if (a < 0) == (b < 0) then m else -m;
      Abs(a - b * q) < Abs(b) && (a - b * q == 0 || (a - b * q < 0 <==> a < 0))
  {
    var B := Abs(b);
    var s := Abs(a) % B;
    assert Abs(a) == m * B + s;
    if a >= 0 && b > 0 {
      assert a - b * m == s;
    } else if a < 0 && b < 0 {
      assert b * m == -(B * m);
      assert a - b * m == -s;
    } else if a >= 0 {
      assert b * -m == B * m;
      assert a - b * -m == s;
    } else {
      assert b * -m == -(B * m);
      assert a - b * -m == -s;
    }
  }

  /** Swift's `a % b`: what is left after the truncated quotient, carrying
      the sign of the dividend. */
  function TruncRem(a: int, b: int): (r: int)
    requires b != 0
    ensures Abs(r) < Abs(b)
    ensures r == 0 || (r < 0 <==> a < 0)
    ensures a == b * TruncDiv(a, b) + r
  {
    a - b * TruncDiv(a, b)
  }

  /** Swift's `/` and `%` trap when the quotient does not fit: Int64.min / -1. */
  predicate DivisionTraps(k: Kind, a: int, b: int)
  {
    k == Signed && a == I64Min && b == -1
  }

  /** Away from that trap, a native quotient is a native value. */
  lemma TruncDivNative(k: Kind, a: int, b: int)
    requires InNative(k, a) && InNative(k, b) && b != 0 && !DivisionTraps(k, a, b)
    ensures InNative(k, TruncDiv(a, b)) && InNative(k, TruncRem(a, b))
  {
    var m := Abs(a) / Abs(b);
    var q := TruncDiv(a, b);
    assert (a < 0) == (b < 0) ==> q == m;
    assert (a < 0) != (b < 0) ==> q == -m;
    DivAtMost(Abs(a), Abs(b));
    assert a == I64Min && Abs(b) == 1 && k == Signed ==> b == 1;
  }

  /** The truncated quotient in terms of the floor quotient of the magnitudes. */
  lemma TruncDivSigns(a: int, b: int)
    requires b != 0
    ensures a >= 0 && b > 0 ==> TruncDiv(a, b) == a / b
    ensures a >= 0 && b < 0 ==> TruncDiv(a, b) == -(a / -b)
    ensures a < 0 && b > 0 ==> TruncDiv(a, b) == -(-a / b)
    ensures a < 0 && b < 0 ==> TruncDiv(a, b) == -a / -b
  {
  }

  /** Dividing by 1 or -1 keeps or negates the dividend. */
  lemma TruncDivByUnit(a: int, b: int)
    requires b == 1 || b == -1
    ensures TruncDiv(a, b) == a * b
  {
    DivModUnique(Abs(a), 1, Abs(a), 0);
  }

  /** Any divisor other than 1 and -1 shrinks a non-zero dividend. */
  lemma TruncDivShrinks(a: int, b: int)
    requires Abs(b) >= 2 && a != 0
    ensures Abs(TruncDiv(a, b)) < Abs(a)
  {
    DivAtMost(Abs(a), Abs(b));
  }

  /** The truncated remainder lies between 0 and the dividend. */
  lemma TruncRemBetween(a: int, b: int)
    requires b != 0
    ensures a >= 0 ==> 0 <= TruncRem(a, b) <= a
    ensures a < 0 ==> a <= TruncRem(a, b) <= 0
    ensures Abs(b) == 1 ==> TruncRem(a, b) == 0
  {
    var m := Abs(a) / Abs(b);
    var B := Abs(b);
    var r := TruncRem(a, b);
    assert Abs(a) == m * B + Abs(a) % B;
    MulAtLeast(m, B);
    assert Abs(r) == Abs(a) - m * B by {
      TruncatedQuotient(a, b, m);
      if (a < 0) == (b < 0) {
        assert b * m == (if a < 0 then -(m * B) else m * B);
      } else {
        assert b * -m == (if a < 0 then -(m * B) else m * B);
      }
    }
    if B == 1 {
      DivModUnique(Abs(a), 1, Abs(a), 0);
    }
  }
}
