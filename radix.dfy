/** The radix formatter: an in-range value of a CustomInteger written in a
    radix from 2 to 36. Radix 2 and 16 print the w-bit two's-complement
    pattern, every other radix the magnitude; a negative value is prefixed
    with '-' in every radix, and digits are grouped with '_' from the right,
    by 4 for radix 2 and 16 and by 3 otherwise. */
module RadixFormat {
  import opened Math
  import opened Bits
  import opened Native
  import opened Descriptor

  /** What `radix(value:radix:)` returns: the digits, or one of the two
      messages it gives instead of digits. */
  datatype Formatted = Text(text: string) | ValueOutOfRange | InvalidRadix

  /** The digit lookup table. */
  const Digits: string := "0123456789abcdefghijklmnopqrstuvwxyz"

  /** `digits[d]`, the digit character of value d, computed from the
      character codes; `DigitTable` shows it is entry d of the table. */
  function DigitChar(d: int): (ch: char)
    requires 0 <= d < 36
    ensures ch != '_' && ch != '-'
  {
    if d < 10 then ('0' as int + d) as char else ('a' as int + d - 10) as char
  }

  /** The table holds the ten decimal digits followed by the 26 lower-case letters. */
  lemma DigitTable(d: int)
    requires 0 <= d < 36
    ensures Digits[d] == DigitChar(d)
  {
  }

  /** The value of a digit character of the table, 36 for any other character. */
  function DigitValue(ch: char): (d: int)
    ensures 0 <= d <= 36
  {
    if '0' <= ch <= '9' then ch as int - '0' as int
    else if 'a' <= ch <= 'z' then ch as int - 'a' as int + 10
    else 36
  }

  /** Reading a table character back gives its index. */
  lemma DigitValueOfDigit(d: int)
    requires 0 <= d < 36
    ensures DigitValue(DigitChar(d)) == d
  {
  }

  // ------------------------------------------------------------ reference

  /** Digit i of x in base b: the coefficient of b^i. */
  function DigitAt(x: int, b: int, i: nat): (d: int)
    requires 2 <= b <= 36
    ensures 0 <= d < b
  {
    x / Pow(b, i) % b
  }

  /** The n lowest digits of x in base b, most significant first. */
  function DigitText(x: int, b: int, n: nat): (s: string)
    requires 2 <= b <= 36
    ensures |s| == n
  {
    if n == 0 then [] else [DigitChar(DigitAt(x, b, n - 1))] + DigitText(x, b, n - 1)
  }

  /** Character j of the text is digit n-1-j: the text is most significant first. */
  lemma {:induction false} DigitTextAt(x: int, b: int, n: nat, j: nat)
    requires 2 <= b <= 36 && j < n
    ensures DigitText(x, b, n)[j] == DigitChar(DigitAt(x, b, n - 1 - j))
    decreases n
  {
    if j > 0 {
      DigitTextAt(x, b, n - 1, j - 1);
    }
  }

  /** The characters of cs, each followed by '_' when the number of
      characters after it is a positive multiple of g. */
  function Grouped(cs: string, g: nat): string
    requires g > 0
  {
    if |cs| == 0 then []
    else [cs[0]] + (if (|cs| - 1) % g == 0 && |cs| - 1 != 0 then "_" else "") + Grouped(cs[1..], g)
  }

  /** The characters of s other than '_'. */
  function Ungrouped(s: string): string
  {
    if |s| == 0 then []
    else (if s[0] == '_' then "" else [s[0]]) + Ungrouped(s[1..])
  }

  /** Reading a digit string in a radix, most significant digit first. */
  function ReadDigits(s: string, radix: int): int
  {
    if |s| == 0 then 0 else ReadDigits(s[..|s| - 1], radix) * radix + DigitValue(s[|s| - 1])
  }

  /** The number of digits of x in base b, with at least one digit for 0. */
  function DigitCount(x: int, b: int): (n: nat)
    requires x >= 0 && b >= 2
    ensures n >= 1
    decreases x
  {
    if x < b then 1 else DivLess(x, b); 1 + DigitCount(x / b, b)
  }

  /** `s.reversed()`: the characters of s from last to first. */
  function Reversed(s: string): (r: string)
    ensures |r| == |s|
  {
    if |s| == 0 then [] else Reversed(s[1..]) + [s[0]]
  }

  /** Reversing a concatenation reverses the order of the parts. */
  lemma {:induction false} ReversedConcat(a: string, b: string)
    ensures Reversed(a + b) == Reversed(b) + Reversed(a)
    decreases |a|
  {
    if |a| == 0 {
      assert a + b == b;
    } else {
      assert (a + b)[1..] == a[1..] + b;
      ReversedConcat(a[1..], b);
    }
  }

  /** Reversing twice gives the string back. */
  lemma {:induction false} ReversedReversed(s: string)
    ensures Reversed(Reversed(s)) == s
    decreases |s|
  {
    if |s| > 0 {
      ReversedConcat(Reversed(s[1..]), [s[0]]);
      ReversedReversed(s[1..]);
      assert Reversed([s[0]]) == [s[0]] by {
        assert [s[0]][1..] == [];
      }
      assert s == [s[0]] + s[1..];
    }
  }

  // ------------------------------------------------------- the formatter

  /** `ceil(w / log2(16))`: the hexadecimal digits a w-bit pattern takes. */
  function HexDigits(w: int): nat
    requires w >= 1
  {
    (w + 3) / 4
  }

  /** The w-bit two's-complement pattern of a value, as an unsigned number. */
  function Pattern(c: CustomInteger, value: int): (u: int)
    requires c.Valid()
    ensures 0 <= u < Pow2(c.bitWidth)
    ensures Congruent(u, value, Pow2(c.bitWidth))
  {
    ModCongruent(value, Pow2(c.bitWidth));
    value % Pow2(c.bitWidth)
  }

  /** The number the digits spell: the w-bit pattern in radix 2 and 16,
      where a two's-complement text is wanted, the magnitude otherwise. */
  function Printed(c: CustomInteger, value: int, radix: int): (x: int)
    requires c.Valid()
    ensures x >= 0
  {
    if radix == 2 || radix == 16 then Pattern(c, value) else Abs(value)
  }

  /** How many digits are written: all w bits in radix 2, ceil(w/4)
      nibbles in radix 16, the digits of the magnitude otherwise. */
  function DigitsWritten(c: CustomInteger, value: int, radix: int): (n: nat)
    requires c.Valid() && 2 <= radix <= 36
    ensures n >= 1
  {
    if radix == 2 then c.bitWidth
    else if radix == 16 then HexDigits(c.bitWidth)
    else DigitCount(Abs(value), radix)
  }

  /** `separatorGroup`: digits per group between separators. */
  function GroupSize(radix: int): (g: nat)
    ensures g == 3 || g == 4
  {
    if radix == 2 || radix == 16 then 4 else 3
  }

  /** The digits part of the output, without the sign. */
  function Body(c: CustomInteger, value: int, radix: int): string
    requires c.Valid() && 2 <= radix <= 36
  {
    Grouped(DigitText(Printed(c, value, radix), radix, DigitsWritten(c, value, radix)), GroupSize(radix))
  }

  /** The specification of `radix(value:radix:)`: the range is checked
      before the radix, and a negative value gets a '-' in front of the
      digits in every radix. */
  function Format(c: CustomInteger, k: Kind, value: int, radix: int): (r: Formatted)
    requires c.Valid()
    ensures r == ValueOutOfRange <==> !Fits(k, c.bitWidth, value)
    ensures r == InvalidRadix <==> Fits(k, c.bitWidth, value) && !(2 <= radix <= 36)
  {
    if !c.IsInRange(k, value) then ValueOutOfRange
    else if !(2 <= radix <= 36) then InvalidRadix
    else Text((if value < 0 then "-" else "") + Body(c, value, radix))
  }

  // ------------------------------------------------- grouping properties

  /** Removing the separators gives back the digits. */
  lemma {:induction false} UngroupedGrouped(cs: string, g: nat)
    requires g > 0 && forall i :: 0 <= i < |cs| ==> cs[i] != '_'
    ensures Ungrouped(Grouped(cs, g)) == cs
    decreases |cs|
  {
    if |cs| > 0 {
      var sep: string := if (|cs| - 1) % g == 0 && |cs| - 1 != 0 then "_" else "";
      var rest := Grouped(cs[1..], g);
      UngroupedGrouped(cs[1..], g);
      assert ([cs[0]] + sep + rest)[1..] == sep + rest;
      if sep == "_" {
        assert ("_" + rest)[1..] == rest;
      }
    }
  }

  /** One separator for every g digits but the leading group, never at
      either end, and nothing but the digits and '_'. */
  lemma {:induction false} GroupedShape(cs: string, g: nat)
    requires g > 0 && |cs| >= 1
    ensures var s := Grouped(cs, g);
      |s| == |cs| + (|cs| - 1) / g
      && s[0] == cs[0] && s[|s| - 1] == cs[|cs| - 1]
      && forall i :: 0 <= i < |s| ==> s[i] == '_' || s[i] in cs
    decreases |cs|
  {
    var s := Grouped(cs, g);
    if |cs| == 1 {
      assert Grouped(cs[1..], g) == [];
      assert s == [cs[0]];
    } else {
      var m := |cs| - 1;
      var sep: string := if m % g == 0 then "_" else "";
      var rest := Grouped(cs[1..], g);
      GroupedShape(cs[1..], g);
      assert s == [cs[0]] + sep + rest;
      assert m / g == (m - 1) / g + (if m % g == 0 then 1 else 0) by {
        SuccessorQuotient(m - 1, g);
      }
      forall i | 0 <= i < |s|
        ensures s[i] == '_' || s[i] in cs
      {
        if i >= 1 + |sep| {
          assert s[i] == rest[i - 1 - |sep|];
          assert forall ch :: ch in cs[1..] ==> ch in cs;
        }
      }
    }
  }

  /** (x + 1) / g steps up by one exactly when x + 1 is a multiple of g. */
  lemma SuccessorQuotient(x: int, g: int)
    requires x >= 0 && g > 0
    ensures (x + 1) / g == x / g + (if (x + 1) % g == 0 then 1 else 0)
  {
    var q, r := x / g, x % g;
    assert x == q * g + r;
    if r == g - 1 {
      DivModUnique(x + 1, g, q + 1, 0);
    } else {
      DivModUnique(x + 1, g, q, r + 1);
    }
  }

  // --------------------------------------------------- digit properties

  /** Dropping the last digit leaves the digits of x / b. */
  lemma DigitTextStep(x: int, b: int, n: nat)
    requires 2 <= b <= 36 && n >= 1
    ensures DigitText(x, b, n)[..n - 1] == DigitText(x / b, b, n - 1)
    ensures DigitText(x, b, n)[n - 1] == DigitChar(x % b)
  {
    var s, t := DigitText(x, b, n), DigitText(x / b, b, n - 1);
    forall j | 0 <= j < n - 1
      ensures s[j] == t[j]
    {
      var e := n - 2 - j;
      assert DigitAt(x, b, e + 1) == DigitAt(x / b, b, e) by {
        DivDiv(x, b, Pow(b, e));
      }
      DigitTextAt(x, b, n, j);
      DigitTextAt(x / b, b, n - 1, j);
    }
    assert DigitAt(x, b, 0) == x % b by {
      DivModUnique(x, 1, x, 0);
    }
    DigitTextAt(x, b, n, n - 1);
  }

  /** Reading the n lowest digits of x back gives x modulo b^n. */
  lemma {:induction false} ReadDigitText(x: int, b: int, n: nat)
    requires 2 <= b <= 36
    ensures ReadDigits(DigitText(x, b, n), b) == x % Pow(b, n)
    decreases n
  {
    if n == 0 {
      DivModUnique(x, 1, x, 0);
    } else {
      var s, p := DigitText(x, b, n), Pow(b, n - 1);
      assert ReadDigits(s[..n - 1], b) == x / b % p by {
        DigitTextStep(x, b, n);
        ReadDigitText(x / b, b, n - 1);
      }
      assert DigitValue(s[n - 1]) == x % b by {
        DigitTextStep(x, b, n);
        DigitValueOfDigit(x % b);
      }
      assert ReadDigits(s, b) == (x / b % p) * b + x % b;
      assert Pow(b, n) == b * p;
      DivDiv(x, b, p);
    }
  }

  /** The digits of x are exactly the digits it has: x / b^m is non-zero
      for every m from 1 below the count and zero from the count on. */
  lemma {:induction false} DigitCountBound(x: int, b: int, m: nat)
    requires x >= 0 && b >= 2 && m >= 1
    ensures x / Pow(b, m) > 0 <==> m < DigitCount(x, b)
    decreases x
  {
    DivDiv(x, b, Pow(b, m - 1));
    if x < b {
      DivModUnique(x, b, 0, x);
      DivModUnique(0, Pow(b, m - 1), 0, 0);
    } else {
      DivLess(x, b);
      assert x / b >= 1 by {
        DivAddMultiple(x - b, 1, b);
      }
      if m == 1 {
        DivModUnique(x / b, 1, x / b, 0);
      } else {
        DigitCountBound(x / b, b, m - 1);
      }
    }
  }

  /** x has fewer digits than b^count. */
  lemma DigitCountFits(x: int, b: int)
    requires x >= 0 && 2 <= b <= 36
    ensures x < Pow(b, DigitCount(x, b))
  {
    var n := DigitCount(x, b);
    var p := Pow(b, n);
    DigitCountBound(x, b, n);
    if x >= p {
      DivAddMultiple(x - p, 1, p);
    }
  }

  /** A non-zero x has no leading zero: its top digit lies in 1..b-1. */
  lemma LeadingDigit(x: int, b: int)
    requires x > 0 && 2 <= b <= 36
    ensures DigitAt(x, b, DigitCount(x, b) - 1) != 0
  {
    var top := x / Pow(b, DigitCount(x, b) - 1);
    TopQuotient(x, b);
    DivModUnique(top, b, 0, top);
  }

  /** Dividing x by the weight of its top digit leaves that digit alone. */
  lemma TopQuotient(x: int, b: int)
    requires x > 0 && 2 <= b <= 36
    ensures 0 < x / Pow(b, DigitCount(x, b) - 1) < b
  {
    var n := DigitCount(x, b);
    var p := Pow(b, n - 1);
    var top := x / p;
    assert top > 0 by {
      if n > 1 {
        DigitCountBound(x, b, n - 1);
      } else {
        DivModUnique(x, 1, x, 0);
      }
    }
    assert top / b == 0 by {
      assert Pow(b, n) == p * b;
      DivDiv(x, p, b);
      DigitCountBound(x, b, n);
      DivAtMost(x, p * b);
    }
    assert top < b by {
      FloorQuotientSmall(top, b);
    }
  }

  // ------------------------------------------------------ bit windows

  /** Values with the same low w bits agree on every window of b bits
      starting at bit j that stays below w. */
  lemma LowBitsAgree(x: int, y: int, w: nat, j: nat, b: nat)
    requires j + b <= w && x % Pow2(w) == y % Pow2(w)
    ensures x / Pow2(j) % Pow2(b) == y / Pow2(j) % Pow2(b)
  {
    var P, Q := Pow2(j), Pow2(w - j);
    Pow2Add(j, w - j);
    DivDiv(x, P, Q);
    DivDiv(y, P, Q);
    var v := x % Pow2(w);
    DivModUnique(v, P, x / P % Q, x % P);
    DivModUnique(v, P, y / P % Q, y % P);
    Pow2Add(b, w - j - b);
    ModOfMod(x / P, Pow2(b), Pow2(w - j - b));
    ModOfMod(y / P, Pow2(b), Pow2(w - j - b));
  }

  /** The masked value the formatter reads its bits from: the pattern
      itself, except at 64 bits where a signed value is masked with -1
      and keeps its sign; its low w bits are the pattern's either way. */
  lemma MaskedPattern(c: CustomInteger, k: Kind, value: int)
    requires c.Valid() && Fits(k, c.bitWidth, value)
    ensures var masked := And(value, if k == Signed then c.masks.signed else c.masks.unsigned);
      masked % Pow2(c.bitWidth) == Pattern(c, value)
      && (masked == Pattern(c, value) || c.bitWidth == 64)
  {
    var w := c.bitWidth;
    var u := Pattern(c, value);
    DivModUnique(u, Pow2(w), 0, u);
    if k == Unsigned || w < 64 {
      AndLowMask(value, w);
    } else {
      AndNegPow2(value, 0);
      assert Pow2(0) == 1;
    }
  }

  /** Bit i of the masked value, as the binary loop tests it, is the
      character for bit i of the w-bit pattern. */
  lemma BinaryDigit(masked: int, w: nat, i: nat)
    requires i < w
    ensures (if And(ShiftRight(masked, i), 1) == 1 then '1' else '0')
      == DigitText(masked % Pow2(w), 2, w)[w - 1 - i]
  {
    DigitTextAt(masked % Pow2(w), 2, w, w - 1 - i);
    var u := masked % Pow2(w);
    DivModUnique(u, Pow2(w), 0, u);
    LowBitsAgree(masked, u, w, i, 1);
    assert Pow2(1) == 2;
    AndLowMask(ShiftRight(masked, i), 1);
    Pow2IsPow(i);
  }

  /** Nibble i of the masked value, as the hexadecimal loop reads it. */
  lemma HexDigit(masked: int, w: nat, i: nat)
    requires 1 <= w <= 64 && i < HexDigits(w)
    requires masked == masked % Pow2(w) || w == 64
    ensures And(ShiftRight(masked, i * 4), 15) == DigitAt(masked % Pow2(w), 16, i)
  {
    var u := masked % Pow2(w);
    assert Pow2(4) == 16;
    AndLowMask(ShiftRight(masked, i * 4), 4);
    Pow2Nibbles(i);
    if masked != u {
      DivModUnique(u, Pow2(w), 0, u);
      LowBitsAgree(masked, u, w, i * 4, 4);
    }
  }

  // ------------------------------------------------------------ loops

  /** The radix-2 case: bit w-1 down to bit 0, '_' after each bit whose
      index is a positive multiple of 4. */
  method BinaryText(w: int, maskedValue: int) returns (result: string)
    requires 1 <= w <= 64
    ensures result == Grouped(DigitText(maskedValue % Pow2(w), 2, w), 4)
  {
    ghost var cs := DigitText(maskedValue % Pow2(w), 2, w);
    result := [];
    var i := w;
    while i > 0
      invariant 0 <= i <= w
      invariant result + Grouped(cs[w - i..], 4) == Grouped(cs, 4)
    {
      i := i - 1;
      ghost var before := result;
      var bit := if And(ShiftRight(maskedValue, i), 1) == 1 then '1' else '0';
      assert bit == cs[w - 1 - i] by {
        BinaryDigit(maskedValue, w, i);
      }
      result := result + [bit];
      if i % 4 == 0 && i != 0 {
        result := result + ['_'];
      }
      EmitStep(before, result, cs, 4, w - 1 - i);
    }
  }

  /** The radix-16 case: ceil(w/4) nibbles from the top, '_' after each
      nibble whose index is a positive multiple of 4. */
  method HexText(w: int, maskedValue: int) returns (result: string)
    requires 1 <= w <= 64
    requires maskedValue == maskedValue % Pow2(w) || w == 64
    ensures result == Grouped(DigitText(maskedValue % Pow2(w), 16, HexDigits(w)), 4)
  {
    // ceil(w / log2(16)) digits; a nibble mask of 15 and a shift of 4 per digit
    var minCharacters := HexDigits(w);
    ghost var cs := DigitText(maskedValue % Pow2(w), 16, minCharacters);
    result := [];
    var i := minCharacters;
    while i > 0
      invariant 0 <= i <= minCharacters
      invariant result + Grouped(cs[minCharacters - i..], 4) == Grouped(cs, 4)
    {
      i := i - 1;
      ghost var before := result;
      var digit := HexCharAt(maskedValue, w, i);
      result := result + [digit];
      if i % 4 == 0 && i != 0 {
        result := result + ['_'];
      }
      EmitStep(before, result, cs, 4, minCharacters - 1 - i);
    }
  }

  /** `digits[(maskedValue >> (i * shiftAmount)) & nibble]` with a shift
      of 4 and a nibble mask of 15: the character for hexadecimal digit i
      of the pattern, which is character ceil(w/4)-1-i of its text. */
  method HexCharAt(maskedValue: int, w: int, i: nat) returns (ch: char)
    requires 1 <= w <= 64 && i < HexDigits(w)
    requires maskedValue == maskedValue % Pow2(w) || w == 64
    ensures ch == DigitText(maskedValue % Pow2(w), 16, HexDigits(w))[HexDigits(w) - 1 - i]
  {
    var nibble := And(ShiftRight(maskedValue, i * 4), 15);
    HexDigit(maskedValue, w, i);
    ch := DigitChar(nibble);
    DigitTextAt(maskedValue % Pow2(w), 16, HexDigits(w), HexDigits(w) - 1 - i);
  }

  /** One turn of the emitting loops: after the output for the characters
      before index j, appending character j and the separator that follows
      it leaves the grouping of the characters after it to go. */
  lemma EmitStep(before: string, after: string, cs: string, g: nat, j: nat)
    requires g > 0 && j < |cs|
    requires before + Grouped(cs[j..], g) == Grouped(cs, g)
    requires after == before + [cs[j]] + (if (|cs| - 1 - j) % g == 0 && |cs| - 1 - j != 0 then "_" else "")
    ensures after + Grouped(cs[j + 1..], g) == Grouped(cs, g)
  {
    var sep: string := if (|cs| - 1 - j) % g == 0 && |cs| - 1 - j != 0 then "_" else "";
    var rest := Grouped(cs[j + 1..], g);
    assert Grouped(cs[j..], g) == [cs[j]] + sep + rest by {
      assert cs[j..][1..] == cs[j + 1..];
      assert cs[j..][0] == cs[j];
    }
    calc {
      after + rest;
      before + [cs[j]] + sep + rest;
      before + ([cs[j]] + sep + rest);
    }
  }

  /** The loop of the general branch builds the grouped digits backwards:
      one more digit at the top of the text appends, to the reversed
      grouping, the separator that falls after it and then the digit. */
  lemma ReversedGroupedStep(x: int, b: int, n: nat)
    requires 2 <= b <= 36
    ensures Reversed(Grouped(DigitText(x, b, n + 1), 3))
      == Reversed(Grouped(DigitText(x, b, n), 3)) + (if n > 0 && n % 3 == 0 then "_" else "")
        + [DigitChar(DigitAt(x, b, n))]
  {
    var ch, t := DigitChar(DigitAt(x, b, n)), DigitText(x, b, n);
    var sep: string := if n > 0 && n % 3 == 0 then "_" else "";
    assert DigitText(x, b, n + 1) == [ch] + t;
    assert ([ch] + t)[1..] == t;
    assert Grouped([ch] + t, 3) == [ch] + (sep + Grouped(t, 3));
    ReversedConcat([ch], sep + Grouped(t, 3));
    ReversedConcat(sep, Grouped(t, 3));
    assert Reversed(sep) == sep by {
      if sep == "_" {
        assert sep[1..] == [];
      }
    }
    assert Reversed([ch]) == [ch] by {
      assert [ch][1..] == [];
    }
  }

  /** One turn of the general loop on the quotient: its remainder is the
      next digit, and dividing it leaves the quotient for the next turn,
      which is zero exactly when every digit has been taken. */
  lemma QuotientStep(x: int, b: int, n: nat, q: int)
    requires x >= 0 && 2 <= b <= 36 && q == x / Pow(b, n)
    ensures q % b == DigitAt(x, b, n)
    ensures q / b == x / Pow(b, n + 1)
    ensures q / b > 0 <==> n + 1 < DigitCount(x, b)
    ensures q >= 0 && (q > 0 ==> q / b < q)
  {
    DivDiv(x, Pow(b, n), b);
    DigitCountBound(x, b, n + 1);
    DivAtMost(x, Pow(b, n));
    DivAtMost(q, b);
  }

  /** The general case: the magnitude's digits from the least significant
      one up, with '_' before every digit whose count of earlier digits is
      a positive multiple of 3, for at least one digit; then reversed. */
  method MagnitudeText(magnitude: int, radix: int) returns (result: string)
    requires magnitude >= 0 && 2 <= radix <= 36
    ensures result == Grouped(DigitText(magnitude, radix, DigitCount(magnitude, radix)), 3)
  {
    var absValue := magnitude;
    var digitCount := 0;
    result := [];
    while digitCount == 0 || absValue > 0
      invariant 0 <= digitCount <= DigitCount(magnitude, radix)
      invariant absValue == magnitude / Pow(radix, digitCount)
      invariant digitCount > 0 ==> (absValue > 0 <==> digitCount < DigitCount(magnitude, radix))
      invariant result == Reversed(Grouped(DigitText(magnitude, radix, digitCount), 3))
      decreases absValue + (if digitCount == 0 then 1 else 0)
    {
      QuotientStep(magnitude, radix, digitCount, absValue);
      ReversedGroupedStep(magnitude, radix, digitCount);
      if digitCount > 0 && digitCount % 3 == 0 {
        result := result + ['_'];
      }
      var digit := absValue % radix;
      result := result + [DigitChar(digit)];
      absValue := absValue / radix;
      digitCount := digitCount + 1;
    }
    ReversedReversed(Grouped(DigitText(magnitude, radix, digitCount), 3));
    result := Reversed(result);
  }

  /** `radix(value:radix:)`: the range guard, the radix guard, the digits
      and the sign in front. */
  method Radix(c: CustomInteger, k: Kind, value: int, radix: int) returns (r: Formatted)
    requires c.Valid() && InNative(k, value)
    ensures r == Format(c, k, value, radix)
  {
    if !c.IsInRange(k, value) {
      return ValueOutOfRange;
    }
    if !(2 <= radix <= 36) {
      return InvalidRadix;
    }
    var result := RadixDigits(c, k, value, radix);
    r := Text(if value < 0 then "-" + result else result);
  }

  /** The masked value and the branch on the radix: the digits of the
      output for an in-range value and a valid radix. */
  method RadixDigits(c: CustomInteger, k: Kind, value: int, radix: int) returns (result: string)
    requires c.Valid() && Fits(k, c.bitWidth, value) && 2 <= radix <= 36
    ensures result == Body(c, value, radix)
  {
    var maskedValue := And(value, if k == Signed then c.masks.signed else c.masks.unsigned);
    MaskedPattern(c, k, value);
    if radix == 2 {
      result := BinaryText(c.bitWidth, maskedValue);
    } else if radix == 16 {
      result := HexText(c.bitWidth, maskedValue);
    } else {
      result := MagnitudeText(Abs(value), radix);
    }
  }

  // ------------------------------------------------ formatter properties

  /** Every character of a digit text is a digit of the base, never a
      separator or a sign. */
  lemma DigitTextChars(x: int, b: int, n: nat)
    requires 2 <= b <= 36
    ensures forall i :: 0 <= i < n ==> DigitValue(DigitText(x, b, n)[i]) < b
    ensures forall i :: 0 <= i < n ==> DigitText(x, b, n)[i] != '_' && DigitText(x, b, n)[i] != '-'
  {
    forall i | 0 <= i < n
      ensures DigitValue(DigitText(x, b, n)[i]) < b
    {
      DigitTextAt(x, b, n, i);
      DigitValueOfDigit(DigitAt(x, b, n - 1 - i));
    }
    forall i | 0 <= i < n
      ensures DigitText(x, b, n)[i] != '_' && DigitText(x, b, n)[i] != '-'
    {
      DigitTextAt(x, b, n, i);
    }
  }

  /** A character whose value is below 36 is the table entry of that value. */
  lemma DigitValueInTable(ch: char)
    requires DigitValue(ch) < 36
    ensures Digits[DigitValue(ch)] == ch
  {
    DigitTable(DigitValue(ch));
  }

  /** The grouped digits of x: n digits of base b and (n-1)/g separators,
      with a digit at either end. */
  lemma GroupedDigits(x: int, b: int, n: nat, g: nat)
    requires 2 <= b <= 36 && n >= 1 && g > 0
    ensures var s := Grouped(DigitText(x, b, n), g);
      |s| == n + (n - 1) / g
      && s[0] != '_' && s[0] != '-' && s[|s| - 1] != '_'
      && forall i :: 0 <= i < |s| ==> s[i] == '_' || DigitValue(s[i]) < b
  {
    var cs := DigitText(x, b, n);
    var s := Grouped(cs, g);
    GroupedShape(cs, g);
    DigitTextChars(x, b, n);
    forall i | 0 <= i < |s|
      ensures s[i] == '_' || DigitValue(s[i]) < b
    {
      if s[i] != '_' {
        var j :| 0 <= j < n && cs[j] == s[i];
      }
    }
  }

  /** The shape of a formatted value: a '-' exactly for a negative value,
      then n digits of the radix with a '_' between groups of g counted
      from the right, so that neither end of the digits is a '_'. Radix 2
      writes all w bits, radix 16 ceil(w/4) digits, any other radix the
      digits of the magnitude. */
  lemma FormatShape(c: CustomInteger, k: Kind, value: int, radix: int)
    requires c.Valid() && Fits(k, c.bitWidth, value) && 2 <= radix <= 36
    ensures Format(c, k, value, radix).Text?
    ensures var t := Format(c, k, value, radix).text;
      var n, g := DigitsWritten(c, value, radix), GroupSize(radix);
      var sign := if value < 0 then 1 else 0;
      |t| == sign + n + (n - 1) / g
      && (t[0] == '-' <==> value < 0)
      && t[sign] != '_' && t[|t| - 1] != '_'
      && forall i :: sign <= i < |t| ==> t[i] == '_' || DigitValue(t[i]) < radix
  {
    var body := Body(c, value, radix);
    GroupedDigits(Printed(c, value, radix), radix, DigitsWritten(c, value, radix), GroupSize(radix));
    var t := Format(c, k, value, radix).text;
    var sign := if value < 0 then 1 else 0;
    assert t == (if value < 0 then "-" else "") + body;
    assert forall i :: sign <= i < |t| ==> t[i] == body[i - sign];
  }

  /** In the radices that print the magnitude, the leading digit is '0'
      only for the value 0, which prints as "0". */
  lemma FormatLeadingDigit(c: CustomInteger, k: Kind, value: int, radix: int)
    requires c.Valid() && Fits(k, c.bitWidth, value) && 2 <= radix <= 36
    requires radix != 2 && radix != 16
    ensures var t := Format(c, k, value, radix).text;
      var sign := if value < 0 then 1 else 0;
      (value == 0 <==> t == "0") && (value != 0 ==> sign < |t| && t[sign] != '0')
  {
    var x, n := Abs(value), DigitCount(Abs(value), radix);
    var body := Body(c, value, radix);
    assert body == Grouped(DigitText(x, radix, n), 3);
    var t := Format(c, k, value, radix).text;
    assert t == (if value < 0 then "-" else "") + body;
    if value == 0 {
      ZeroText(radix);
    } else {
      assert body[0] != '0' by {
        GroupedShape(DigitText(x, radix, n), 3);
        DigitTextAt(x, radix, n, 0);
        LeadingDigit(x, radix);
        DigitValueOfDigit(DigitAt(x, radix, n - 1));
      }
      assert t[if value < 0 then 1 else 0] == body[0];
    }
  }

  /** Zero has one digit, and its text is "0". */
  lemma ZeroText(radix: int)
    requires 2 <= radix <= 36
    ensures Grouped(DigitText(0, radix, DigitCount(0, radix)), 3) == "0"
  {
    var cs := DigitText(0, radix, 1);
    assert cs == [DigitChar(0)];
    assert Grouped(cs[1..], 3) == [];
  }

  /** Reading the digits back, separators dropped, gives the w-bit pattern
      in radix 2 and 16 and the magnitude in every other radix. */
  lemma FormatReadBack(c: CustomInteger, k: Kind, value: int, radix: int)
    requires c.Valid() && Fits(k, c.bitWidth, value) && 2 <= radix <= 36
    ensures var t := Format(c, k, value, radix).text;
      ReadDigits(Ungrouped(if value < 0 then t[1..] else t), radix)
        == if radix == 2 || radix == 16 then Pattern(c, value) else Abs(value)
  {
    var w := c.bitWidth;
    var n, g := DigitsWritten(c, value, radix), GroupSize(radix);
    var x := Printed(c, value, radix);
    var cs := DigitText(x, radix, n);
    assert Body(c, value, radix) == Grouped(cs, g);
    var t := Format(c, k, value, radix).text;
    assert (if value < 0 then t[1..] else t) == Grouped(cs, g);
    DigitTextChars(x, radix, n);
    UngroupedGrouped(cs, g);
    ReadDigitText(x, radix, n);
    if radix == 2 {
      Pow2IsPow(w);
      DivModUnique(x, Pow(2, w), 0, x);
    } else if radix == 16 {
      Pow2Nibbles(n);
      Pow2Monotone(w, 4 * n);
      DivModUnique(x, Pow(16, n), 0, x);
    } else {
      DigitCountFits(x, radix);
      DivModUnique(x, Pow(radix, n), 0, x);
    }
  }

  /** Reading a formatted value back: the digits, the pattern taken as a
      w-bit integer of the kind in radix 2 and 16, the sign applied in
      the other radices. */
  function Unformat(c: CustomInteger, k: Kind, t: string, radix: int): int
    requires c.Valid()
  {
    var negative := |t| > 0 && t[0] == '-';
    var n := ReadDigits(Ungrouped(if negative then t[1..] else t), radix);
    if radix == 2 || radix == 16 then WrapTo(k, c.bitWidth, n)
    else if negative then -n else n
  }

  /** The formatter loses nothing: an in-range value is read back from its
      text in every valid radix. */
  lemma FormatUnformat(c: CustomInteger, k: Kind, value: int, radix: int)
    requires c.Valid() && Fits(k, c.bitWidth, value) && 2 <= radix <= 36
    ensures Unformat(c, k, Format(c, k, value, radix).text, radix) == value
  {
    var w := c.bitWidth;
    FormatShape(c, k, value, radix);
    FormatReadBack(c, k, value, radix);
    if radix == 2 || radix == 16 {
      CongruentSymmetric(Pattern(c, value), value, Pow2(w));
      WrapToUnique(k, w, Pattern(c, value), value);
    }
  }

  /** Hence two in-range values with the same text are equal. */
  lemma FormatInjective(c: CustomInteger, k: Kind, v1: int, v2: int, radix: int)
    requires c.Valid() && Fits(k, c.bitWidth, v1) && Fits(k, c.bitWidth, v2) && 2 <= radix <= 36
    requires Format(c, k, v1, radix) == Format(c, k, v2, radix)
    ensures v1 == v2
  {
    FormatUnformat(c, k, v1, radix);
    FormatUnformat(c, k, v2, radix);
  }

  // ----------------------------------------------------------- examples

  /** -1 at width 4 in binary: every bit of the pattern set. */
  lemma ExampleMinusOneBinary(c: CustomInteger)
    requires c.Valid() && c.bitWidth == 4
    ensures Format(c, Signed, -1, 2) == Text("-1111")
  {
    assert Pow2(4) == 16;
    assert Pattern(c, -1) == 15;
    assert DigitText(15, 2, 4) == "1111";
  }

  /** -1 at width 4 in hexadecimal: one digit. */
  lemma ExampleMinusOneHex(c: CustomInteger)
    requires c.Valid() && c.bitWidth == 4
    ensures Format(c, Signed, -1, 16) == Text("-f")
  {
    assert Pow2(4) == 16;
    assert Pattern(c, -1) == 15;
    assert DigitText(15, 16, 1) == "f";
  }

  /** The largest 8-bit value in decimal: three digits, one group. */
  lemma ExampleDecimal(c: CustomInteger)
    requires c.Valid() && c.bitWidth == 8
    ensures Format(c, Signed, 127, 10) == Text("127")
  {
    assert Pow2(7) == 128;
    assert DigitCount(127, 10) == 3 by {
      assert DigitCount(1, 10) == 1;
      assert DigitCount(12, 10) == 2;
    }
    assert DigitText(127, 10, 3) == "127";
  }
}
