/** Integer facts the width arithmetic rests on: powers, Euclidean division
    and congruences. Dafny's `/` and `%` are Euclidean; for a positive
    divisor they are floor division and a non-negative remainder. */
module Math {

  function Pow(b: int, n: nat): (r: int)
    ensures b > 0 ==> r > 0
  {
    if n == 0 then 1 else b * Pow(b, n - 1)
  }

  function Pow2(n: nat): (r: int)
    ensures r > 0
  {
    if n == 0 then 1 else 2 * Pow2(n - 1)
  }

  lemma {:induction false} Pow2Add(a: nat, b: nat)
    ensures Pow2(a + b) == Pow2(a) * Pow2(b)
  {
    if a > 0 {
      Pow2Add(a - 1, b);
    }
  }

  lemma Pow2Monotone(a: nat, b: nat)
    requires a <= b
    ensures Pow2(a) <= Pow2(b)
  {
    Pow2Add(a, b - a);
  }

  lemma {:induction false} Pow2IsPow(n: nat)
    ensures Pow2(n) == Pow(2, n)
  {
    if n > 0 {
      Pow2IsPow(n - 1);
    }
  }

  lemma {:induction false} Pow2Nibbles(i: nat)
    ensures Pow2(4 * i) == Pow(16, i)
  {
    if i > 0 {
      Pow2Nibbles(i - 1);
      Pow2Add(4, 4 * (i - 1));
    }
  }

  /** The powers of two the 64-bit natives are built from. */
  lemma Pow2Of63And64()
    ensures Pow2(63) == 0x8000_0000_0000_0000
    ensures Pow2(64) == 0x1_0000_0000_0000_0000
  {
    assert Pow2(8) == 0x100;
    Pow2Add(8, 8);
    Pow2Add(16, 16);
    Pow2Add(32, 31);
    Pow2Add(32, 32);
  }

  /** Euclidean division is determined by its defining equation. */
  lemma DivModUnique(x: int, d: int, q: int, r: int)
    requires d > 0 && 0 <= r < d && x == q * d + r
    ensures x / d == q && x % d == r
  {
    var q', r' := x / d, x % d;
    assert (q' - q) * d == r - r';
    MulAtLeast(q' - q, d);
    MulAtLeast(q - q', d);
  }

  lemma DivDiv(x: int, a: int, b: int)
    requires a > 0 && b > 0
    ensures x / a / b == x / (a * b)
    ensures x % (a * b) == (x / a % b) * a + x % a
  {
    var q1, r1 := x / a, x % a;
    var q2, r2 := q1 / b, q1 % b;
    assert x == q1 * a + r1;
    assert q1 == q2 * b + r2;
    assert x == q2 * (a * b) + (r2 * a + r1) by {
      Regroup(q2, b, r2, a);
    }
    assert 0 <= r2 * a + r1 < a * b by {
      MulAtLeast(r2, a);
      MulAtLeast(b - 1 - r2, a);
      Regroup(1, b - 1 - r2, r2, a);
    }
    DivModUnique(x, a * b, q2, r2 * a + r1);
  }

  /** Distributing a multiplier over a quotient-and-remainder pair. */
  lemma Regroup(q: int, b: int, r: int, a: int)
    ensures (q * b + r) * a == q * (a * b) + r * a
  {
  }

  lemma ModOfMod(x: int, a: int, b: int)
    requires a > 0 && b > 0
    ensures x % (a * b) % a == x % a
  {
    DivDiv(x, a, b);
    DivModUnique(x % (a * b), a, x / a % b, x % a);
  }

  /** Adding a multiple of the divisor changes the quotient by that multiple only. */
  lemma DivAddMultiple(x: int, c: int, d: int)
    requires d > 0
    ensures (x + c * d) / d == x / d + c
    ensures (x + c * d) % d == x % d
  {
    DivModUnique(x + c * d, d, x / d + c, x % d);
  }

  /** x and y are congruent modulo m. */
  predicate Congruent(x: int, y: int, m: int)
    requires m > 0
  {
    (x - y) % m == 0
  }

  lemma CongruentMod(x: int, y: int, m: int)
    requires m > 0
    ensures Congruent(x, y, m) <==> x % m == y % m
  {
    DivModUnique(x, m, x / m, x % m);
    DivModUnique(y, m, y / m, y % m);
    if x % m == y % m {
      DivModUnique(x - y, m, x / m - y / m, 0);
    } else {
      var c := (x - y) / m;
      assert (x - y) % m == 0 ==> x == y + c * m;
      DivAddMultiple(y, c, m);
    }
  }

  /** Congruence modulo a*b implies congruence modulo a. */
  lemma CongruentCoarser(x: int, y: int, a: int, b: int)
    requires a > 0 && b > 0 && Congruent(x, y, a * b)
    ensures Congruent(x, y, a)
  {
    CongruentMod(x, y, a * b);
    ModOfMod(x, a, b);
    ModOfMod(y, a, b);
    CongruentMod(x, y, a);
  }

  /** For b > 0: a > m / b (floor) exactly when a * b > m. */
  lemma MulAboveQuotient(a: int, b: int, m: int)
    requires b > 0
    ensures a > m / b <==> a * b > m
  {
    var q, r := m / b, m % b;
    assert m == q * b + r;
    if a > q {
      assert a * b >= (q + 1) * b;
    } else {
      assert a * b <= q * b;
    }
  }

  /** A positive multiplier scales a positive multiplicand up. */
  lemma MulAtLeast(k: int, d: int)
    requires d >= 0
    ensures k >= 1 ==> k * d >= d
    ensures k >= 0 ==> k * d >= 0
  {
  }

  lemma MulPositive(a: int, b: int)
    requires a > 0 && b > 0
    ensures a * b > 0 && a * b >= a && a * b >= b
  {
  }

  lemma DivLess(x: int, d: int)
    requires x > 0 && d >= 2
    ensures 0 <= x / d < x
  {
    var q := x / d;
    assert x == q * d + x % d;
    MulAtLeast(q, d - 1);
    assert q * d == q * (d - 1) + q;
  }

  /** Reducing modulo m keeps the residue class. */
  lemma ModCongruent(x: int, m: int)
    requires m > 0
    ensures Congruent(x % m, x, m)
  {
    assert x % m - x == -(x / m) * m;
    DivAddMultiple(0, -(x / m), m);
  }

  lemma CongruentTransitive(x: int, y: int, z: int, m: int)
    requires m > 0 && Congruent(x, y, m) && Congruent(y, z, m)
    ensures Congruent(x, z, m)
  {
    CongruentMod(x, y, m);
    CongruentMod(y, z, m);
    CongruentMod(x, z, m);
  }

  lemma CongruentSymmetric(x: int, y: int, m: int)
    requires m > 0 && Congruent(x, y, m)
    ensures Congruent(y, x, m)
  {
    CongruentMod(x, y, m);
    CongruentMod(y, x, m);
  }

  /** Two congruent values in one window of width m are equal. */
  lemma CongruentInWindow(x: int, y: int, lo: int, m: int)
    requires m > 0 && lo <= x < lo + m && lo <= y < lo + m && Congruent(x, y, m)
    ensures x == y
  {
    var c := (x - y) / m;
    assert x - y == c * m;
    MulAtLeast(c, m);
    MulAtLeast(-c, m);
  }

  /** Dividing a natural number by a positive one does not increase it. */
  lemma DivAtMost(x: int, d: int)
    requires x >= 0 && d >= 1
    ensures 0 <= x / d <= x
    ensures d >= 2 && x > 0 ==> x / d < x
  {
    var q := x / d;
    assert x == q * d + x % d;
    MulAtLeast(-q, d);
    MulAtLeast(q, d - 1);
    assert q * d == q * (d - 1) + q;
  }

  /** Scaling by a power of two: x * 2^(a+b) == (x * 2^b) * 2^a. */
  lemma MulPow2Split(x: int, a: nat, b: nat)
    ensures x * Pow2(a + b) == (x * Pow2(b)) * Pow2(a)
  {
    Pow2Add(a, b);
    var p, q := Pow2(a), Pow2(b);
    assert x * (p * q) == (x * q) * p;
  }

  /** A multiple of m is congruent to 0 modulo m. */
  lemma MultipleCongruentZero(c: int, m: int)
    requires m > 0
    ensures Congruent(0, c * m, m)
  {
    DivAddMultiple(0, -c, m);
    assert 0 - c * m == -c * m;
  }

  /** Adding a multiple of m stays in the residue class. */
  lemma CongruentShift(x: int, c: int, m: int)
    requires m > 0
    ensures Congruent(x + c * m, x, m)
  {
    MultipleCongruentZero(c, m);
    assert x + c * m - x == -(0 - c * m);
    CongruentNegate(0, c * m, m);
  }

  /** Negation respects congruence. */
  lemma CongruentNegate(x: int, y: int, m: int)
    requires m > 0 && Congruent(x, y, m)
    ensures Congruent(-x, -y, m)
  {
    var c := (x - y) / m;
    assert x - y == c * m;
    assert -x - -y == -c * m;
    DivAddMultiple(0, -c, m);
  }

  /** Adding the same amount on both sides respects congruence. */
  lemma CongruentAdd(x: int, y: int, c: int, m: int)
    requires m > 0 && Congruent(x, y, m)
    ensures Congruent(x + c, y + c, m)
  {
    assert (x + c) - (y + c) == x - y;
  }

  /** A multiple of a * b is a multiple of a. */
  lemma ModCoarse(v: int, a: int, b: int)
    requires a > 0 && b > 0
    ensures v % (a * b) == 0 ==> v % a == 0
  {
    ModOfMod(v, a, b);
    DivModUnique(0, a, 0, 0);
  }

  /** Scaling by a positive factor preserves strict order. */
  lemma MulCompare(x: int, y: int, b: int)
    requires b > 0
    ensures x * b < y * b <==> x < y
  {
    assert y * b - x * b == (y - x) * b;
    if x < y {
      MulPositive(y - x, b);
    } else {
      MulAtLeast(x - y, b);
    }
  }

  /** The floor quotient by p is 0 exactly on [0, p) and -1 exactly on [-p, 0). */
  lemma FloorQuotientSmall(x: int, p: int)
    requires p > 0
    ensures x >= 0 ==> (x / p == 0 <==> x < p)
    ensures x < 0 ==> (x / p == -1 <==> x >= -p)
  {
    var q, r := x / p, x % p;
    assert x == q * p + r;
    if x >= 0 && x < p {
      DivModUnique(x, p, 0, x);
    } else if x >= p {
      MulAtLeast(-q, p);
    } else if x < 0 && x >= -p {
      DivModUnique(x, p, -1, x + p);
    } else if x < -p {
      assert q != -1;
    }
  }
}
