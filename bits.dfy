/** Bitwise operators on the two's-complement pattern of an unbounded
    integer: a non-negative number has infinitely many leading zeros and a
    negative one infinitely many leading ones. On values of a 64-bit native
    type these agree with Swift's `&`, `|`, `^` and `~`, because sign
    extension commutes with every bitwise operator. */
module Bits {
  import opened Math

  /** `~a`: every bit flipped. */
  function Not(a: int): int
  {
    -a - 1
  }

  /** Distance from the two fixed points 0 and -1 of halving. */
  function Size(a: int): nat
  {
    if a >= 0 then a else -a - 1
  }

  /** Lowest bit of `a` as 0 or 1. */
  function Low(a: int): int
  {
    a % 2
  }

  function And(a: int, b: int): int
    decreases Size(a)
  {
    if a == 0 || b == 0 then 0
    else if a == -1 then b
    else if b == -1 then a
    else 2 * And(a / 2, b / 2) + (if Low(a) == 1 && Low(b) == 1 then 1 else 0)
  }

  function Or(a: int, b: int): int
    decreases Size(a)
  {
    if a == 0 then b
    else if b == 0 then a
    else if a == -1 || b == -1 then -1
    else 2 * Or(a / 2, b / 2) + (if Low(a) == 1 || Low(b) == 1 then 1 else 0)
  }

  function Xor(a: int, b: int): int
    decreases Size(a)
  {
    if a == 0 then b
    else if b == 0 then a
    else if a == -1 then Not(b)
    else if b == -1 then Not(a)
    else 2 * Xor(a / 2, b / 2) + (if Low(a) != Low(b) then 1 else 0)
  }

  /** `a & b` is built from the bits of `a/2 & b/2` and the two lowest bits,
      also where the definition stops early at 0 or -1. */
  lemma AndStep(a: int, b: int)
    ensures And(a, b) == 2 * And(a / 2, b / 2) + (if Low(a) == 1 && Low(b) == 1 then 1 else 0)
  {
    if a == 0 || b == 0 {
    } else if a == -1 {
      assert And(-1, b / 2) == b / 2;
    } else if b == -1 {
      assert And(a / 2, -1) == a / 2;
    }
  }

  lemma XorStep(a: int, b: int)
    ensures Xor(a, b) == 2 * Xor(a / 2, b / 2) + (if Low(a) != Low(b) then 1 else 0)
  {
    if a == 0 {
      assert Xor(0, b / 2) == b / 2;
    } else if b == 0 {
      assert Xor(a / 2, 0) == a / 2;
    } else if a == -1 {
      assert Xor(-1, b / 2) == Not(b / 2);
    } else if b == -1 {
      assert Xor(a / 2, -1) == Not(a / 2);
    }
  }

  /** `a ^ b` is the sum with the common bits counted out twice. */
  lemma {:induction false} XorAsAnd(a: int, b: int)
    ensures Xor(a, b) == a + b - 2 * And(a, b)
    decreases Size(a)
  {
    if a == 0 || a == -1 || b == 0 || b == -1 {
      AndStep(a, b);
      XorStep(a, b);
      assert And(-1, b) == b;
      assert And(a, -1) == a;
    } else {
      XorAsAnd(a / 2, b / 2);
    }
  }

  /** `a | b` is the sum with the common bits counted once. */
  lemma {:induction false} OrAsAnd(a: int, b: int)
    ensures Or(a, b) == a + b - And(a, b)
    decreases Size(a)
  {
    if a == 0 || a == -1 || b == 0 || b == -1 {
      assert And(-1, b) == b;
      assert And(a, -1) == a;
    } else {
      OrAsAnd(a / 2, b / 2);
    }
  }

  /** The sign of `a & b`: negative exactly when both operands are. */
  lemma {:induction false} AndSign(a: int, b: int)
    ensures And(a, b) < 0 <==> a < 0 && b < 0
    decreases Size(a)
  {
    if a == 0 || a == -1 || b == 0 || b == -1 {
      assert And(-1, b) == b;
      assert And(a, -1) == a;
    } else {
      AndSign(a / 2, b / 2);
    }
  }

  /** The sign of `a ^ b`: negative exactly when the signs differ. */
  lemma {:induction false} XorSign(a: int, b: int)
    ensures Xor(a, b) < 0 <==> (a < 0) != (b < 0)
    decreases Size(a)
  {
    if a == 0 || a == -1 || b == 0 || b == -1 {
    } else {
      XorSign(a / 2, b / 2);
    }
  }

  /** The sign of `a | b`: negative when either operand is, zero only when both are. */
  lemma {:induction false} OrSign(a: int, b: int)
    ensures Or(a, b) < 0 <==> a < 0 || b < 0
    ensures Or(a, b) == 0 <==> a == 0 && b == 0
    decreases Size(a)
  {
    if a == 0 || a == -1 || b == 0 || b == -1 {
    } else {
      OrSign(a / 2, b / 2);
    }
  }

  /** The arithmetic step shared by the mask lemmas below. */
  lemma Double(p: int, q: int)
    ensures 2 * (p * q) == (2 * p) * q
  {
  }

  /** Masking with the low k ones keeps the value modulo 2^k. */
  lemma {:induction false} AndLowMask(x: int, k: nat)
    ensures And(x, Pow2(k) - 1) == x % Pow2(k)
    decreases k
  {
    if k == 0 {
      assert And(x, 0) == 0;
    } else {
      var p := Pow2(k - 1);
      assert Pow2(k) == 2 * p;
      assert And(x, 2 * p - 1) == 2 * And(x / 2, p - 1) + x % 2 by {
        AndStep(x, 2 * p - 1);
        assert (2 * p - 1) / 2 == p - 1 && Low(2 * p - 1) == 1;
      }
      AndLowMask(x / 2, k - 1);
      DivDiv(x, 2, p);
    }
  }

  /** Masking with the single bit 2^k extracts bit k in place. */
  lemma {:induction false} AndPow2(x: int, k: nat)
    ensures And(x, Pow2(k)) == Pow2(k) * (x / Pow2(k) % 2)
    decreases k
  {
    if k == 0 {
      AndStep(x, 1);
      assert And(x / 2, 0) == 0;
    } else {
      var p := Pow2(k - 1);
      assert Pow2(k) == 2 * p;
      assert And(x, 2 * p) == 2 * And(x / 2, p) by {
        AndStep(x, 2 * p);
        assert (2 * p) / 2 == p && Low(2 * p) == 0;
      }
      AndPow2(x / 2, k - 1);
      DivDiv(x, 2, p);
      Double(p, x / 2 / p % 2);
    }
  }

  /** The two outcomes of masking with 2^k: 0 when bit k is clear, 2^k when it is set. */
  lemma AndBit(x: int, k: nat)
    ensures x / Pow2(k) % 2 == 0 ==> And(x, Pow2(k)) == 0
    ensures x / Pow2(k) % 2 == 1 ==> And(x, Pow2(k)) == Pow2(k)
  {
    AndPow2(x, k);
  }

  /** Masking with -2^k (ones from bit k upwards) clears the low k bits. */
  lemma {:induction false} AndNegPow2(x: int, k: nat)
    ensures And(x, -Pow2(k)) == Pow2(k) * (x / Pow2(k))
    decreases k
  {
    if k == 0 {
      assert And(x, -1) == x;
    } else {
      var p := Pow2(k - 1);
      var q := x / 2 / p;
      assert Pow2(k) == 2 * p;
      assert And(x, -2 * p) == 2 * And(x / 2, -p) by {
        AndStep(x, -2 * p);
        assert (-2 * p) / 2 == -p && Low(-2 * p) == 0;
      }
      assert And(x / 2, -p) == p * q by {
        AndNegPow2(x / 2, k - 1);
      }
      assert x / Pow2(k) == q by {
        DivDiv(x, 2, p);
      }
      Double(p, q);
    }
  }
}
