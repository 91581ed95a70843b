# CustomInteger in Dafny

CustomInteger emulates integers of any width from 1 to 64 bits, both
two's-complement and unsigned, on top of the native `Int64` and `UInt64`
types. This project models its core and proves what the code promises.

- **Width descriptor.** `init?(for:)` checks the width and stores the signed
  and unsigned ranges and three masks. Range and sign predicates sit beside it.
- **Inlinable helpers.** These are the truncations `toSignedBitWidth` and
  `toUnsignedBitWidth`, `trailingZeroBitCount`, and the sign predicates.
- **Overflow-reporting arithmetic**, in two families:
  - the `(partialValue, overflow)` operations for `<<`, `+`, `-`, `*`, `/`
    and `%`;
  - the older operations that return a flag only, or an untruncated sum.
- **The radix formatter** `radix(value:radix:)`.

An operand is an `int` tagged with a `Kind`. `Signed` stands for `Int64` and
`Unsigned` for `UInt64`, Swift's `T.isSigned`. `InNative` says the value lies
in the native type. `Fits(k, w, x)` says x is a w-bit value of kind k.

Swift's operators are written out:

- `&+`, `&-` and `&*` become `Native.Wrap`, a reduction modulo 2^64.
- `<<` becomes `Native.ShiftLeft`, where bits pushed past bit 63 are lost.
- `>>` becomes floor division by a power of two.
- `/` and `%` become `Native.TruncDiv` and `Native.TruncRem`, which truncate
  toward zero.
- `&`, `|`, `^` and `~` become the infinite two's-complement operations of
  module `Bits`.

`Native.WrapTo(k, w, x)` is the reference truncation: the w-bit value of kind
k congruent to x modulo 2^w. The truncation helpers and the `partialValue`s
are proved equal to it.

The descriptor and the arithmetic are pure in the source: guard chains and
expressions over `let`s. They are modelled as functions, with lemmas relating
them to the exact results. The formatter appends to a character buffer in
loops, so it is modelled as methods:

- `RadixFormat.BinaryText` and `RadixFormat.HexText` are the two `for` loops.
- `RadixFormat.MagnitudeText` is the `repeat … while` loop with its reversal.
- `RadixFormat.Radix` is the whole function.

`RadixFormat.Radix` is proved equal to the specification function
`RadixFormat.Format`. The loops are proved equal to the parts `Format` is
built from: `BinaryText`, `HexText` and `MagnitudeText` to grouped digit
texts, and `RadixDigits` to `RadixFormat.Body`. Shape, alphabet, read-back
and injectivity are then proved about `Format`. `Format` is a function, so the same value and radix
always give the same text.

Modules, one per file:

- `Math` (math.dfy) holds powers, division and congruence facts.
- `Bits` (bits.dfy) holds the bitwise operations.
- `Native` (native.dfy) holds the native types and Swift's operators.
- `Descriptor` (custom_integer.dfy) holds the width descriptor.
- `Inlinable` (inlinable.dfy) holds the inlinable helpers.
- `Arithmetic` (arithmetic.dfy) holds the reporting operations.
- `LegacyMethods` (legacy.dfy) holds the older operations.
- `RadixFormat` (radix.dfy) holds the formatter.

The unsigned additions return 0 on overflow, as the code does. Below 64 bits
this differs from the sum wrapped to the width; at 64 bits the two agree.

Where the code and its tests disagree, the model follows the code:

- Results are truncated to the width, where some overflow tests expect the
  native wrapped value.
- The remainder of sMin by -1 is modelled as written, and listed under
  Findings.

## Model

| member | source | states |
|---|---|---|
| Native.Wrap | Sources/CustomInteger/CustomInteger.swift:61-69 | `&+`, `&-` and `&*`: the result is a native value congruent to the exact one modulo 2^64 |
| Native.ShiftLeft | Sources/CustomInteger/CustomInteger.swift:61-69 | `x << n` for n >= 0: a native value congruent to x * 2^n modulo 2^64: bits pushed past bit 63 are lost |
| Native.TruncDiv | Sources/CustomInteger/CustomInteger_Method_Arithmatic.swift:281 | Swift's `/`: the remainder it leaves is smaller than the divisor in magnitude and is zero or has the dividend's sign |
| Native.TruncRem | Sources/CustomInteger/CustomInteger_Method_Arithmatic.swift:301 | Swift's `%`: below the divisor in magnitude, zero or of the dividend's sign, and `a == b * (a / b) + a % b` |
| Native.TruncDivSigns | Sources/CustomInteger/CustomInteger_Method_Arithmatic.swift:281 | the truncated quotient in each sign case, as the floor quotient of the magnitudes with the product's sign |
| Native.TruncDivNative | Sources/CustomInteger/CustomInteger_Method_Arithmatic.swift:277-281 | away from Int64.min / -1, a quotient and remainder of native values are native values |
| Native.WrapToNarrower | Sources/CustomInteger/CustomInteger_Method_Inlinable.swift:62-72 | truncating a 64-bit wrapped result to w bits equals truncating the exact result |
| Descriptor.Init | Sources/CustomInteger/CustomInteger.swift:50-71 | creation succeeds exactly for 1 <= bits <= 64, and the descriptor it builds from the wrapping shifts has the closed-form ranges and masks |
| Descriptor.InitShifts | Sources/CustomInteger/CustomInteger.swift:60-70 | each shifted-and-wrapped bound and mask expression of the initializer equals its closed form, including at 64 bits |
| Descriptor.MaskPatterns | Sources/CustomInteger/CustomInteger.swift:66-70 | the signed and unsigned masks are the pattern 2^w-1 and the sign-bit mask is 2^(w-1), each as its native type stores it |
| Descriptor.RangeFacts | Sources/CustomInteger/CustomInteger.swift:60-63 | sMax + 1 == -sMin, uMax == sMax - sMin, and each range holds exactly 2^w values |
| Descriptor.Bounds | Sources/CustomInteger/CustomInteger.swift:60-63 | the bounds are -2^(w-1), 2^(w-1)-1 and 2^w-1, all native values |
| Descriptor.InitWidest | Sources/CustomInteger/CustomInteger.swift:53-70 | widths 0 and 65 are refused; at 64 bits the ranges are Int64.min...Int64.max and 0...UInt64.max and the masks are -1, Int64.min and UInt64.max |
| Descriptor.InitWidth8 | Tests/CustomIntegerTests/CustomInteger_Tests.swift:30-36 | at width 8, -1 is in the signed range, -256 and 256 are out of range, -1 is signed and 255 unsigned is not |
| Descriptor.CustomInteger.IsInRange | Sources/CustomInteger/CustomInteger.swift:76-80 | true exactly when the value is a w-bit value of its kind |
| Descriptor.CustomInteger.IsSigned | Sources/CustomInteger/CustomInteger.swift:83-85 | false for the unsigned kind; for the signed kind it tests bit w-1, which for an in-range value means value < 0 |
| Descriptor.SignBitTest | Sources/CustomInteger/CustomInteger.swift:84 | `value & masks.signedBit != 0` tests bit w-1, and for a signed value of the width it means value < 0 |
| Descriptor.CustomInteger.IsOppositeSigns | Sources/CustomInteger/CustomInteger.swift:88-90 | true exactly for a signed kind with one operand negative and the other not |
| Descriptor.CustomInteger.IsSameSigns | Sources/CustomInteger/CustomInteger.swift:93-95 | the negation of IsOppositeSigns: always true for the unsigned kind |
| Inlinable.IsNegative | Sources/CustomInteger/CustomInteger_Method_Inlinable.swift:33-35 | false for unsigned, value < 0 for an in-range signed value, and equal to the descriptor's IsSigned |
| Inlinable.IsSignOpposite | Sources/CustomInteger/CustomInteger_Method_Inlinable.swift:40-42 | false for unsigned; exactly one operand negative for signed; equal to IsOppositeSigns |
| Inlinable.IsSignSame | Sources/CustomInteger/CustomInteger_Method_Inlinable.swift:47-49 | true for unsigned; the negation of IsSignOpposite; equal to IsSameSigns |
| Inlinable.TrailingZeroBitCount | Sources/CustomInteger/CustomInteger_Method_Inlinable.swift:54-56 | the width for 0; otherwise n with 2^n dividing the value and bit n set; for an in-range value 0 <= n <= w, with n == w only for 0 |
| Inlinable.TrailingZerosDivide | Sources/CustomInteger/CustomInteger_Method_Inlinable.swift:55 | the native count n of a non-zero value: 2^n divides it and bit n is set |
| Inlinable.TrailingZerosMaximal | Sources/CustomInteger/CustomInteger_Method_Inlinable.swift:55 | no higher power of two divides the value |
| Inlinable.TrailingZerosUnique | Sources/CustomInteger/CustomInteger_Method_Inlinable.swift:55 | the count is the only n with 2^n dividing the value and bit n set |
| Inlinable.TrailingZerosBelowWidth | Sources/CustomInteger/CustomInteger_Method_Inlinable.swift:55 | a non-zero value of the width has fewer than w trailing zeros |
| Inlinable.PowerTrailingZeros | Tests/CustomIntegerTests/CustomInteger_ZeroBitCount_Tests.swift:43-54 | 2^n and -2^n have n trailing zeros |
| Inlinable.TrailingZerosOfPow2 | Tests/CustomIntegerTests/CustomInteger_ZeroBitCount_Tests.swift:43-54 | `1 << s` below the width has s trailing zeros |
| Inlinable.TrailingZerosOfMin | Tests/CustomIntegerTests/CustomInteger_ZeroBitCount_Tests.swift:67-80 | sMin has w-1 trailing zeros |
| Inlinable.TrailingZerosOfMax | Tests/CustomIntegerTests/CustomInteger_ZeroBitCount_Tests.swift:67-80 | uMax has no trailing zeros |
| Inlinable.ToSignedBitWidth | Sources/CustomInteger/CustomInteger_Method_Inlinable.swift:62-64 | the result is a signed w-bit value congruent to the input modulo 2^w, i.e. the low w bits read as two's complement |
| Inlinable.ToSignedMasks | Sources/CustomInteger/CustomInteger_Method_Inlinable.swift:63 | mask, flip the sign bit, subtract it (wrapping) equals the reference truncation, at every width including 64 |
| Inlinable.ToSignedNarrow | Sources/CustomInteger/CustomInteger_Method_Inlinable.swift:63 | below 64 bits the mask-xor-subtract expression gives the reference truncation |
| Inlinable.ToSignedWide | Sources/CustomInteger/CustomInteger_Method_Inlinable.swift:63 | at 64 bits, with masks -1 and Int64.min, the expression gives the input back |
| Inlinable.FlipSignBit | Sources/CustomInteger/CustomInteger_Method_Inlinable.swift:63 | for 0 <= u < 2^w, flipping bit w-1 and subtracting 2^(w-1) reads u as a signed w-bit value |
| Inlinable.ToUnsignedBitWidth | Sources/CustomInteger/CustomInteger_Method_Inlinable.swift:70-72 | the result lies in [0, uMax] and is the input modulo 2^w |
| Inlinable.TruncationIdentity | Sources/CustomInteger/CustomInteger_Method_Inlinable.swift:62-72 | both truncations leave a value of the width unchanged |
| Inlinable.TruncationIdempotent | Sources/CustomInteger/CustomInteger_Method_Inlinable.swift:62-72 | truncating twice is truncating once |
| Inlinable.ToSignedLowBits | Sources/CustomInteger/CustomInteger_Method_Inlinable.swift:63 | inputs with the same low w bits truncate to the same value, whatever their sign |
| Arithmetic.ShiftLeftReportingOverflow | Sources/CustomInteger/CustomInteger_Method_Arithmatic.swift:23-52 | the partial value is native; a zero value or a zero shift gives (lhs, false) |
| Arithmetic.ShiftLeftTrivial | Sources/CustomInteger/CustomInteger_Method_Arithmatic.swift:26-27 | `lhs << rhs` is lhs itself when either is zero |
| Arithmetic.ShiftedPastWidth | Sources/CustomInteger/CustomInteger_Method_Arithmatic.swift:31-33 | a non-zero value shifted by w or more truncates to 0 and is out of range, so (0, true) is exact |
| Arithmetic.ShiftLeftExact | Sources/CustomInteger/CustomInteger_Method_Arithmatic.swift:23-52 | for a value of the width and any shift >= 0: the partial value is value * 2^shift truncated, and overflow holds iff that product leaves the range |
| Arithmetic.ShiftLeftWithinWidth | Sources/CustomInteger/CustomInteger_Method_Arithmatic.swift:35-51 | the same for a non-zero value and 0 < shift < w, the case the bit tests handle |
| Arithmetic.ShiftSignedWithinWidth | Sources/CustomInteger/CustomInteger_Method_Arithmatic.swift:39 | `lhs >> (w-1-rhs)` differs from the sign fill exactly when lhs * 2^rhs leaves the signed range |
| Arithmetic.ShiftUnsignedWithinWidth | Sources/CustomInteger/CustomInteger_Method_Arithmatic.swift:47 | `lhs >> (w-rhs)` is non-zero exactly when lhs * 2^rhs exceeds uMax |
| Arithmetic.AddingReportingOverflow | Sources/CustomInteger/CustomInteger_Method_Arithmatic.swift:107-149 | a signed partial value is the truncated sum; an unsigned one is 0 on overflow and the truncated sum otherwise |
| Arithmetic.AddingSignedOverflow | Sources/CustomInteger/CustomInteger_Method_Arithmatic.swift:115-132 | operands of opposite signs never overflow |
| Arithmetic.AddingSignedCase | Sources/CustomInteger/CustomInteger_Method_Arithmatic.swift:125-131 | in each same-sign case the signed test is the comparison with the unwrapped bound sMax - rhs or sMin - rhs |
| Arithmetic.AddingSignedExact | Sources/CustomInteger/CustomInteger_Method_Arithmatic.swift:115-135 | for operands of the width the signed test holds iff the sum leaves the range |
| Arithmetic.AddingUnsignedFlag | Sources/CustomInteger/CustomInteger_Method_Arithmatic.swift:142-143 | `rhs > uMax &- lhs` holds iff the sum exceeds uMax |
| Arithmetic.AddingExact | Sources/CustomInteger/CustomInteger_Method_Arithmatic.swift:107-149 | for operands of the width: overflow iff the sum leaves the range, and without overflow the partial value is the sum |
| Arithmetic.SubtractingReportingOverflow | Sources/CustomInteger/CustomInteger_Method_Arithmatic.swift:152-195 | the partial value is the truncated difference; unsigned overflow iff lhs < rhs |
| Arithmetic.SubtractingSignedOverflow | Sources/CustomInteger/CustomInteger_Method_Arithmatic.swift:160-180 | operands of the same sign never overflow |
| Arithmetic.SubtractingSignedCase | Sources/CustomInteger/CustomInteger_Method_Arithmatic.swift:170-176 | in each opposite-sign case the signed test is the comparison with the unwrapped bound sMax + rhs or sMin + rhs |
| Arithmetic.SubtractingSignedExact | Sources/CustomInteger/CustomInteger_Method_Arithmatic.swift:160-180 | for operands of the width the signed test holds iff the difference leaves the range, except for 0 - sMin |
| Arithmetic.SubtractingExact | Sources/CustomInteger/CustomInteger_Method_Arithmatic.swift:152-195 | for operands of the width: overflow iff the difference leaves the range and is not 0 - sMin; an in-range difference is returned unchanged |
| Arithmetic.SubtractingZeroMinusMin | Sources/CustomInteger/CustomInteger_Method_Arithmatic.swift:165-180 | 0 - sMin is reported as (sMin, false), although -sMin is out of range |
| Arithmetic.MinNegated | Sources/CustomInteger/CustomInteger_Method_Arithmatic.swift:156 | -sMin is out of range and truncates back to sMin |
| Arithmetic.SubtractingCorrected | Sources/CustomInteger/CustomInteger_Method_Arithmatic.swift:152-195 | the subtraction with 0 - sMin flagged: the partial value is still the truncated difference |
| Arithmetic.SubtractingCorrectedExact | Sources/CustomInteger/CustomInteger_Method_Arithmatic.swift:71-80 | the corrected flag holds iff the difference leaves the range, as the table for `-` intends |
| Arithmetic.MultipliedReportingOverflow | Sources/CustomInteger/CustomInteger_Method_Arithmatic.swift:198-266 | the partial value is the truncated product; a zero operand never overflows |
| Arithmetic.MultipliedUnsignedExact | Sources/CustomInteger/CustomInteger_Method_Arithmatic.swift:254-263 | the unsigned flag holds iff the product exceeds uMax |
| Arithmetic.MultipliedSignedOverflow | Sources/CustomInteger/CustomInteger_Method_Arithmatic.swift:217-248 | the signed decision for non-zero operands; for operands of opposite signs it is the as-written opposite-signs test alone |
| Arithmetic.OppositeSignsAsWritten | Sources/CustomInteger/CustomInteger_Method_Arithmatic.swift:243-248 | the opposite-signs test as written: a negative lhs is flagged only when the product is below sMin, and a positive lhs only when it is not |
| Arithmetic.MultipliedSameSignsExact | Sources/CustomInteger/CustomInteger_Method_Arithmatic.swift:217-234 | for signed operands of the width with the same sign, the flag (including sMin * -1) holds iff the product leaves the range |
| Arithmetic.OppositeSignsMisreported | Sources/CustomInteger/CustomInteger_Method_Arithmatic.swift:243-248 | at width 8, 3 * -2 == -6 is flagged and -2 * 66 == -132 is not |
| Arithmetic.MultipliedCorrected | Sources/CustomInteger/CustomInteger_Method_Arithmatic.swift:198-266 | the multiplication with the opposite-signs test of the table: the partial value is still the truncated product |
| Arithmetic.OppositeSignsExact | Sources/CustomInteger/CustomInteger_Method_Arithmatic.swift:90-91 | comparisons equivalent to the table's opposite-signs rows, against sMin divided by the positive operand, hold iff the product is below sMin |
| Arithmetic.MultipliedCorrectedExact | Sources/CustomInteger/CustomInteger_Method_Arithmatic.swift:84-95 | the corrected flag holds iff the product leaves the range, and without overflow the partial value is the product |
| Arithmetic.DividedReportingOverflow | Sources/CustomInteger/CustomInteger_Method_Arithmatic.swift:269-286 | a zero divisor gives (0, true); otherwise the partial value is the truncated quotient of the kind |
| Arithmetic.Truncated | Sources/CustomInteger/CustomInteger_Method_Arithmatic.swift:281-285 | `toSignedBitWidth` or `toUnsignedBitWidth` after the kind: the reference truncation |
| Arithmetic.QuotientFits | Sources/CustomInteger/CustomInteger_Method_Arithmatic.swift:277-281 | a quotient of values of the width fits, except sMin / -1 |
| Arithmetic.DividedExact | Sources/CustomInteger/CustomInteger_Method_Arithmatic.swift:269-286 | for operands of the width: overflow iff the divisor is 0 or the quotient leaves the range, i.e. exactly the table's two rows; otherwise the partial value is the quotient |
| Arithmetic.RemainderReportingOverflow | Sources/CustomInteger/CustomInteger_Method_Arithmatic.swift:289-306 | a zero divisor gives (0, true); away from sMin % -1 the result is the truncated remainder with no overflow |
| Arithmetic.RemainderOfMinByMinusOne | Sources/CustomInteger/CustomInteger_Method_Arithmatic.swift:297-298 | sMin % -1 is reported as (sMin, true), although the remainder is 0 |
| Arithmetic.RemainderCorrected | Sources/CustomInteger/CustomInteger_Method_Arithmatic.swift:289-306 | the remainder with sMin % -1 giving (0, true): for a non-zero divisor the partial value is the truncated remainder |
| Arithmetic.RemainderCorrectedExact | Sources/CustomInteger/CustomInteger_Method_Arithmatic.swift:97-103 | overflow iff the table's two rows apply; for any non-zero divisor the partial value is the remainder itself |
| LegacyMethods.LeftShiftReportingOverflow | Sources/CustomInteger/CustomInteger_Methods.swift:23-34 | false for a zero value or a shift <= 0; true for a negative value and any positive shift |
| LegacyMethods.NegativeShiftedRight | Sources/CustomInteger/CustomInteger_Methods.swift:33 | `value >> n` of a negative value stays negative |
| LegacyMethods.LeftShiftExact | Sources/CustomInteger/CustomInteger_Methods.swift:23-34 | for a non-negative value of the width, the flag holds iff value * 2^shift leaves the range |
| LegacyMethods.LeftShiftOfNegative | Sources/CustomInteger/CustomInteger_Methods.swift:33 | a documented difference from the reporting shift: the "bitwise overflow" test flags any bit above the kept ones, so from width 2 on -1 << 1 is flagged although -2 fits |
| LegacyMethods.LeftShiftAgainstReporting | Sources/CustomInteger/CustomInteger_Method_Arithmatic.swift:35-42 | for values of the width, the legacy flag equals `shiftLeftReportingOverflow`'s flag when value >= 0, and for a negative value with a positive shift the two differ exactly when value * 2^shift fits |
| LegacyMethods.AddingReportOverflow | Sources/CustomInteger/CustomInteger_Methods.swift:89-124 | the partial value is the native wrapped sum, not truncated to the width, and 0 on unsigned overflow |
| LegacyMethods.AddingReportSignedOverflow | Sources/CustomInteger/CustomInteger_Methods.swift:95-109 | operands of opposite signs never overflow |
| LegacyMethods.LegacyAddingCase | Sources/CustomInteger/CustomInteger_Methods.swift:100-107 | in each same-sign case the test is the comparison with the unwrapped bound |
| LegacyMethods.LegacyAddingSignedExact | Sources/CustomInteger/CustomInteger_Methods.swift:95-112 | for signed operands of the width the test holds iff the sum leaves the range |
| LegacyMethods.AddingReportSignedExact | Sources/CustomInteger/CustomInteger_Methods.swift:90-112 | signed: overflow iff the sum leaves the range, the sum itself without overflow, and the same flag as `addingReportingOverflow` |
| LegacyMethods.AddingReportUnsignedExact | Sources/CustomInteger/CustomInteger_Methods.swift:113-122 | unsigned: the same three facts |
| LegacyMethods.AddingReportExact | Sources/CustomInteger/CustomInteger_Methods.swift:89-124 | for operands of the width: overflow iff the sum leaves the range, the sum itself without overflow, and the same flag as `addingReportingOverflow` |
| LegacyMethods.SubtractionReportOverflow | Sources/CustomInteger/CustomInteger_Methods.swift:127-151 | unsigned: true iff lhs < rhs; signed operands of the same sign: false |
| LegacyMethods.LegacySubtractingSignedFlag | Sources/CustomInteger/CustomInteger_Methods.swift:129-146 | without the `rhs != 0` guard the signed test still equals the reporting subtraction's test |
| LegacyMethods.SubtractionReportExact | Sources/CustomInteger/CustomInteger_Methods.swift:127-151 | for operands of the width: the reporting subtraction's flag, i.e. true iff the difference leaves the range, except 0 - sMin |
| LegacyMethods.SubtractionReportCorrected | Sources/CustomInteger/CustomInteger_Methods.swift:127-151 | 0 - sMin is flagged |
| LegacyMethods.SubtractionReportCorrectedExact | Sources/CustomInteger/CustomInteger_Methods.swift:126 | for operands of the width the corrected flag holds iff the difference leaves the range |
| LegacyMethods.MultiplicationReportOverflow | Sources/CustomInteger/CustomInteger_Methods.swift:154-185 | it traps (None) exactly at 64 bits for a positive lhs and rhs == -1; a zero operand gives false |
| LegacyMethods.LegacyOppositeSignsCore | Sources/CustomInteger/CustomInteger_Methods.swift:170-174 | the opposite-signs comparisons with sMin / rhs hold iff the product is below sMin |
| LegacyMethods.MultiplicationReportExact | Sources/CustomInteger/CustomInteger_Methods.swift:154-185 | where it does not trap, the flag holds iff the product of operands of the width leaves the range |
| LegacyMethods.MultiplicationTrapsAtWidest | Sources/CustomInteger/CustomInteger_Methods.swift:172 | at 64 bits, 1 * -1 traps (sMin / -1) although -1 fits |
| LegacyMethods.MultiplicationReportCorrected | Sources/CustomInteger/CustomInteger_Methods.swift:154-185 | the trapping comparison replaced by the reporting multiplication's corrected test; a zero operand gives false |
| LegacyMethods.MultiplicationReportCorrectedExact | Sources/CustomInteger/CustomInteger_Methods.swift:153 | for operands of the width the corrected flag holds iff the product leaves the range |
| LegacyMethods.DivisionReportOverflow | Sources/CustomInteger/CustomInteger_Methods.swift:188-205 | true for a zero divisor; for a dividend of the width and a non-zero divisor, true iff the truncated quotient leaves the range |
| LegacyMethods.DivisionReportExact | Sources/CustomInteger/CustomInteger_Methods.swift:188-205 | for operands of the width: the reporting division's flag, true iff the divisor is 0 or the quotient leaves the range |
| LegacyMethods.RemainderReportOverflow | Sources/CustomInteger/CustomInteger_Methods.swift:208-223 | true for a zero divisor; for a dividend of the width and a non-zero divisor, true iff the quotient the remainder rests on leaves the range |
| LegacyMethods.RemainderReportExact | Sources/CustomInteger/CustomInteger_Methods.swift:208-223 | for operands of the width: the reporting remainder's flag, true iff the divisor is 0 or the quotient leaves the range |
| RadixFormat.DigitChar | Sources/CustomInteger/CustomInteger_Strings.swift:93 | a digit character is never `_` or `-` |
| RadixFormat.DigitTable | Sources/CustomInteger/CustomInteger_Strings.swift:93 | entry d of the table is the character computed for d |
| RadixFormat.DigitValue | Sources/CustomInteger/CustomInteger_Strings.swift:93 | reading a character gives a digit value from 0 to 35, or 36 for a non-digit |
| RadixFormat.DigitValueOfDigit | Sources/CustomInteger/CustomInteger_Strings.swift:93 | reading the character of d gives d back |
| RadixFormat.DigitValueInTable | Sources/CustomInteger/CustomInteger_Strings.swift:93 | a character with value below 36 is the table entry of that value |
| RadixFormat.DigitAt | Sources/CustomInteger/CustomInteger_Strings.swift:131-134 | digit i of x in base b lies in [0, b) |
| RadixFormat.DigitText | Sources/CustomInteger/CustomInteger_Strings.swift:102-141 | the reference digit text has exactly n characters |
| RadixFormat.DigitTextAt | Sources/CustomInteger/CustomInteger_Strings.swift:102-141 | character j of the text is digit n-1-j: most significant first |
| RadixFormat.DigitTextStep | Sources/CustomInteger/CustomInteger_Strings.swift:131-134 | dropping the last digit leaves the digits of x / b, and the last is x % b |
| RadixFormat.DigitTextChars | Sources/CustomInteger/CustomInteger_Strings.swift:93 | every character of a digit text is a digit below the base, never `_` or `-` |
| RadixFormat.ReadDigitText | Sources/CustomInteger/CustomInteger_Strings.swift:102-141 | reading the n lowest digits back gives x modulo b^n |
| RadixFormat.DigitCount | Sources/CustomInteger/CustomInteger_Strings.swift:129-139 | the number of digits is at least 1, for 0 too |
| RadixFormat.DigitCountBound | Sources/CustomInteger/CustomInteger_Strings.swift:139 | x / b^m is non-zero exactly for 1 <= m below the digit count, so the loop stops after the last digit |
| RadixFormat.DigitCountFits | Sources/CustomInteger/CustomInteger_Strings.swift:129-139 | x is below b to the power of its digit count |
| RadixFormat.TopQuotient | Sources/CustomInteger/CustomInteger_Strings.swift:129-139 | x divided by the weight of its top digit lies in [1, b) |
| RadixFormat.LeadingDigit | Sources/CustomInteger/CustomInteger_Strings.swift:129-139 | a non-zero x has a non-zero top digit |
| RadixFormat.GroupedShape | Sources/CustomInteger/CustomInteger_Strings.swift:105-108 | grouping adds (n-1)/g separators, keeps the first and last character, and adds nothing but `_` |
| RadixFormat.GroupedDigits | Sources/CustomInteger/CustomInteger_Strings.swift:102-141 | grouped digits: length n + (n-1)/g, a digit at either end, and only `_` or digits of the base |
| RadixFormat.UngroupedGrouped | Sources/CustomInteger/CustomInteger_Strings.swift:105-108 | removing the separators gives the digits back |
| RadixFormat.Reversed | Sources/CustomInteger/CustomInteger_Strings.swift:140 | `result.reversed()` keeps the length |
| RadixFormat.ReversedConcat | Sources/CustomInteger/CustomInteger_Strings.swift:140 | reversing a concatenation swaps and reverses the parts |
| RadixFormat.ReversedReversed | Sources/CustomInteger/CustomInteger_Strings.swift:140 | reversing twice gives the string back |
| RadixFormat.Pattern | Sources/CustomInteger/CustomInteger_Strings.swift:78 | the w-bit pattern lies in [0, 2^w) and is congruent to the value modulo 2^w |
| RadixFormat.MaskedPattern | Sources/CustomInteger/CustomInteger_Strings.swift:78 | the masked value's low w bits are the pattern; it is the pattern itself except for a signed value at 64 bits |
| RadixFormat.Printed | Sources/CustomInteger/CustomInteger_Strings.swift:97-127 | the number the digits spell is never negative |
| RadixFormat.DigitsWritten | Sources/CustomInteger/CustomInteger_Strings.swift:82-83 | at least one digit is written |
| RadixFormat.GroupSize | Sources/CustomInteger/CustomInteger_Strings.swift:84 | groups have 4 digits in radix 2 and 16 and 3 otherwise |
| RadixFormat.Format | Sources/CustomInteger/CustomInteger_Strings.swift:65-145 | out of range iff the value does not fit; invalid radix iff it fits and the radix is outside 2...36 |
| RadixFormat.LowBitsAgree | Sources/CustomInteger/CustomInteger_Strings.swift:78 | values with the same low w bits agree on every bit window below w |
| RadixFormat.BinaryDigit | Sources/CustomInteger/CustomInteger_Strings.swift:105 | `(maskedValue >> i) & 1 == 1` picks the character of bit i of the pattern, character w-1-i of its text |
| RadixFormat.HexDigit | Sources/CustomInteger/CustomInteger_Strings.swift:117 | `(maskedValue >> 4i) & 15` is hexadecimal digit i of the pattern |
| RadixFormat.EmitStep | Sources/CustomInteger/CustomInteger_Strings.swift:104-109 | one turn of an emitting loop: a character and the separator after it extend the grouped prefix by one character |
| RadixFormat.BinaryText | Sources/CustomInteger/CustomInteger_Strings.swift:102-109 | the binary loop produces the w bits of the pattern, grouped by 4 |
| RadixFormat.HexCharAt | Sources/CustomInteger/CustomInteger_Strings.swift:115-117 | the looked-up character for nibble i is character ceil(w/4)-1-i of the pattern's hexadecimal text |
| RadixFormat.HexText | Sources/CustomInteger/CustomInteger_Strings.swift:111-121 | the hexadecimal loop produces the ceil(w/4) digits of the pattern, grouped by 4 |
| RadixFormat.ReversedGroupedStep | Sources/CustomInteger/CustomInteger_Strings.swift:129-136 | a digit added at the top appends its separator and itself to the reversed grouped text |
| RadixFormat.QuotientStep | Sources/CustomInteger/CustomInteger_Strings.swift:133-138 | `absValue % radix` is the next digit and `absValue / radix` the next quotient, zero exactly after the last digit |
| RadixFormat.MagnitudeText | Sources/CustomInteger/CustomInteger_Strings.swift:123-141 | the repeat-while loop and the reversal produce the digits of the magnitude, grouped by 3 |
| RadixFormat.RadixDigits | Sources/CustomInteger/CustomInteger_Strings.swift:78-141 | the masked value and the switch on the radix produce the specified digits |
| RadixFormat.Radix | Sources/CustomInteger/CustomInteger_Strings.swift:65-145 | the whole formatter returns `Format` for every in-range or out-of-range value and every radix |
| RadixFormat.FormatShape | Sources/CustomInteger/CustomInteger_Strings.swift:102-144 | the text has a `-` exactly for a negative value, then w, ceil(w/4) or digit-count digits of the radix grouped by 4, 4 or 3, with no `_` at either end |
| RadixFormat.FormatLeadingDigit | Sources/CustomInteger/CustomInteger_Strings.swift:123-141 | outside radix 2 and 16, the text is "0" iff the value is 0, and otherwise its first digit is not `0` |
| RadixFormat.ZeroText | Sources/CustomInteger/CustomInteger_Strings.swift:129-139 | 0 is written as one digit "0" |
| RadixFormat.FormatReadBack | Sources/CustomInteger/CustomInteger_Strings.swift:102-141 | reading the digits back without the sign and separators gives the w-bit pattern in radix 2 and 16 and the magnitude otherwise |
| RadixFormat.FormatUnformat | Sources/CustomInteger/CustomInteger_Strings.swift:65-145 | an in-range value is recovered from its text in every valid radix |
| RadixFormat.FormatInjective | Sources/CustomInteger/CustomInteger_Strings.swift:65-145 | two in-range values with the same text are equal |
| RadixFormat.ExampleMinusOneBinary | Tests/CustomIntegerTests/CustomInteger_Tests.swift:133 | width 4, -1 in radix 2 is "-1111" |
| RadixFormat.ExampleMinusOneHex | Tests/CustomIntegerTests/CustomInteger_Tests.swift:134 | width 4, -1 in radix 16 is "-f" |
| RadixFormat.ExampleDecimal | Tests/CustomIntegerTests/CustomInteger_Tests.swift:77 | width 8, 127 in radix 10 is "127" |

## Left out

- Generic `T`: every operation takes the kind instead of a `BinaryInteger` type and works on `Int64`/`UInt64` values. The conversions `T(...)`, `Int(value)` and `UInt(value)` that would trap for narrower or wider types are not modelled.
- Arithmetic.ShiftLeftReportingOverflow: requires a shift count >= 0. Swift's smart shift for negative counts (a right shift) is not modelled.
- Arithmetic.DividedReportingOverflow: requires that Swift's own `/` does not trap. That excludes only Int64.min / -1 below 64 bits, an out-of-range dividend. The same holds for Arithmetic.RemainderReportingOverflow.
- LegacyMethods.MultiplicationReportOverflow: the Swift trap is modelled as `None`, not as a crash.
- The error catalogue in CustomInteger_Error.swift is not part of this model. The formatter's two messages are the tags `ValueOutOfRange` and `InvalidRadix`, not their text.
- The buffer preallocation of the formatter uses floating-point `log2`/`ceil` and `reserveCapacity`. It does not affect the output and is left out. The hexadecimal digit count is `RadixFormat.HexDigits`, (w+3)/4, and the nibble shift is 4.
- RadixFormat.RadixDigits: the masking and the switch on the radix are a method of their own, called by `RadixFormat.Radix` after the two guards, not inline in it.
- The output is a `string` built by sequence concatenation. In-place appends to a reserved buffer are not modelled.
- RadixFormat.ExampleDecimal: the longer texts in the tests ("-1101_0110", "32_767", "-ca_000") are not stated as examples. Their evaluation is too costly for the verifier. `RadixFormat.FormatShape` and `RadixFormat.FormatReadBack` state the general facts they illustrate.
- The duplicate `isInRange` of CustomInteger_Method_Inlinable.swift:24 is the descriptor's `IsInRange`, modelled once.
- Benchmarks and test scaffolding are not modelled. The formatter tests call the formatter `radixString`; three of its expected strings are stated as example lemmas about `radix(value:radix:)`.

## Findings

| source | as written | input that shows it | evidently intended | confidence | as-written member | corrected member |
|---|---|---|---|---|---|---|
| Sources/CustomInteger/CustomInteger_Method_Arithmatic.swift:243-248 | the opposite-signs test uses bit tricks and compares `rhs > sMin / lhs` | width 8: 3 * -2 reports overflow; -2 * 66 == -132 does not | overflow iff the product is below sMin, as the table at lines 90-91 says | high (not executed) | Arithmetic.OppositeSignsMisreported | Arithmetic.MultipliedCorrectedExact |
| Sources/CustomInteger/CustomInteger_Method_Arithmatic.swift:165-180 | a zero lhs passes every guard with no overflow | 0 - sMin: the result is sMin, overflow false | overflow, since -sMin > sMax | high (not executed) | Arithmetic.SubtractingZeroMinusMin | Arithmetic.SubtractingCorrectedExact |
| Sources/CustomInteger/CustomInteger_Method_Arithmatic.swift:297-298 | sMin % -1 returns (sMin, true) | sMin % -1 for any width | (0, true): the remainder is 0, as Tests/CustomIntegerTests/CustomInteger_Overflow_Tests.swift:454 expects | medium (not executed) | Arithmetic.RemainderOfMinByMinusOne | Arithmetic.RemainderCorrectedExact |
| Sources/CustomInteger/CustomInteger_Methods.swift:129-146 | a zero lhs passes every guard with no overflow | 0 - sMin reports false | true, since -sMin > sMax | high (not executed) | LegacyMethods.SubtractionReportExact | LegacyMethods.SubtractionReportCorrectedExact |
| Sources/CustomInteger/CustomInteger_Methods.swift:172 | `ranges.signed.lowerBound / rhs` with rhs == -1 | width 64: 1 * -1 computes Int64.min / -1 and traps | false, since -1 fits | high (not executed) | LegacyMethods.MultiplicationTrapsAtWidest | LegacyMethods.MultiplicationReportCorrectedExact |
