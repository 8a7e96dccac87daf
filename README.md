# Infinite-precision calculator: arbitrary-precision integer and decimal arithmetic

This project models the arithmetic core of a Java calculator for numbers of
unbounded size. It covers three classes:

- `arbitraryarithmetic.AInteger` is a signed integer. It is kept as a sign
  flag plus a list of base-10000 limbs, least-significant first.
- `arbitraryarithmetic.AFloat` is a signed decimal. It is kept as a
  non-negative `AInteger` called `unscaled`, a `scale` (the number of digits
  right of the point) and a sign bit. Its value is ±unscaled × 10^-scale.
- The early draft `AInteger` (src/AInteger.java) stores base-10 digits. Only
  its parser, `stripZeros` and constructors exist.

Module layout:

- `Base` holds powers, positional value and the `Result`/`Error` types.
- `DecimalText` holds decimal digit strings.
- `LimbArith` holds the limb algorithms of AInteger on `seq<int>`: compare,
  add, subtract, schoolbook multiply, long division.
- `AIntegers` holds the `AInteger` class, the parse specification and the
  `toString` format.
- `FloatFormat` holds AFloat's text side: the string constructor and
  `toString`/`trimFraction`.
- `AFloats` holds the `AFloat` class.
- `DraftAInteger` holds the draft class.

How the model is stated:

- The limb value is `Val(limbs) = Σ limbs[i]·10000^i`.
- A decimal's value is stated with integers. `ScaledTo(k)` is the value
  × 10^k, defined for every k at or above the scale.
- Exceptions become `Result` values. `Err(IllegalArgument)` stands for
  IllegalArgumentException, including its subclass NumberFormatException.
  `Err(DivisionByZero)` stands for ArithmeticException.
- Operations that return fresh objects are methods returning new objects.
  `stripZeros` is a method that modifies its object.

## Model

| member | source | states |
|---|---|---|
| AIntegers.ParseSpec | src/arbitraryarithmetic/AInteger.java:23-40 | Fails exactly for the empty string or a non-digit after the optional '-'. Otherwise the limbs are in range, their value is the decimal value of the digits, they are canonical when there is a digit, and the sign is set exactly for '-' when the list is not [0]; "-" alone gives the empty list |
| AIntegers.DashParse | src/arbitraryarithmetic/AInteger.java:23-40 | "-" alone parses to an empty limb list with the sign set, and that object prints "0" |
| AIntegers.ChunksVal | src/arbitraryarithmetic/AInteger.java:32-37 | The 4-digit groups read from the least-significant end have the value of the digit string |
| AIntegers.ReadChunks | src/arbitraryarithmetic/AInteger.java:32-37 | The constructor's backwards loop produces exactly the group list `Chunks` of the digits |
| AIntegers.AInteger.Parse | src/arbitraryarithmetic/AInteger.java:23-40 | The string constructor and `parse` fail when `ParseSpec` fails, with IllegalArgument; otherwise they return a fresh object holding `ParseSpec`'s fields |
| AIntegers.AInteger.constructor | src/arbitraryarithmetic/AInteger.java:18-20 | The default object is the single limb 0, not negative |
| AIntegers.AInteger.FromInt | src/arbitraryarithmetic/AInteger.java:43-55 | For an int other than Integer.MIN_VALUE: canonical limbs whose value is abs(n), negative exactly when n < 0 |
| LimbArith.IntToLimbs | src/arbitraryarithmetic/AInteger.java:47-54 | The `% 10000` / `/ 10000` loop yields canonical limbs of the number |
| AIntegers.AInteger.Copy | src/arbitraryarithmetic/AInteger.java:58-61 | The copy has the same limbs and the same sign |
| LimbArith.StripLimbs | src/arbitraryarithmetic/AInteger.java:71-73 | The loop removes exactly the most-significant zero limbs above a single limb (`Stripped`) |
| LimbArith.StrippedLimbs | src/arbitraryarithmetic/AInteger.java:69-77 | Stripping keeps limbs in range and keeps the value; on a non-empty list it gives canonical form |
| Base.Stripped | src/arbitraryarithmetic/AInteger.java:71-73 | The result is a prefix of the list, non-empty for a non-empty list, with no most-significant zero unless it is a single digit, and only zeros were removed |
| Base.StrippedVal | src/arbitraryarithmetic/AInteger.java:69-77 | Stripping keeps the value in every base |
| Base.StrippedIdempotent | src/arbitraryarithmetic/AInteger.java:69-77 | Stripping twice is stripping once |
| AIntegers.AInteger.StripZeros | src/arbitraryarithmetic/AInteger.java:69-77 | The limbs become the stripped limbs, and the sign is cleared exactly when the result is the lone 0 |
| LimbArith.CanonicalZero | src/arbitraryarithmetic/AInteger.java:75-76 | In canonical form the value is 0 exactly when the limbs are [0], so the zero test of `stripZeros` and `divide` is a value test |
| LimbArith.CanonicalUnique | src/arbitraryarithmetic/AInteger.java:69-77 | Two canonical limb lists with the same value are equal |
| LimbArith.CompareAbsolute | src/arbitraryarithmetic/AInteger.java:80-93 | For canonical operands, the result is the sign of Val(a) − Val(b) |
| LimbArith.CompareByLength | src/arbitraryarithmetic/AInteger.java:82-83 | For canonical operands, more limbs means a larger magnitude |
| LimbArith.CompareAtLimb | src/arbitraryarithmetic/AInteger.java:87-91 | For equal-length limb lists, the most-significant differing limb decides |
| LimbArith.AddAbsolute | src/arbitraryarithmetic/AInteger.java:96-111 | Limbs in range whose value is Val(a) + Val(b), at most one limb longer than the longer operand, and canonical for canonical operands; the carry stays 0 or 1 (loop invariant) |
| LimbArith.AddColumn | src/arbitraryarithmetic/AInteger.java:101-108 | One column keeps the running equation: written limbs plus carry × 10000^i equal the low parts of a and b |
| LimbArith.SubAbsolute | src/arbitraryarithmetic/AInteger.java:114-135 | Given Val(a) ≥ Val(b): limbs in range whose value is the difference, no longer than a, stripped, canonical when a is non-empty; the borrow stays 0 or 1 (loop invariant) |
| LimbArith.NoFinalBorrow | src/arbitraryarithmetic/AInteger.java:119-131 | When Val(a) ≥ Val(b), no borrow is left after the last limb |
| LimbArith.SubColumn | src/arbitraryarithmetic/AInteger.java:120-130 | One column of the borrow loop keeps the running difference equation |
| AIntegers.AInteger.Add | src/arbitraryarithmetic/AInteger.java:138-157 | For canonical operands: canonical limbs whose signed value is the exact sum; a nonzero result is negative exactly when the sum is; a zero result keeps this operand's sign ("-0") |
| AIntegers.AInteger.Subtract | src/arbitraryarithmetic/AInteger.java:160-183 | For canonical operands: the exact difference, with the same sign rules as `add` (a zero result keeps this operand's sign) |
| LimbArith.MultiplyLimbs | src/arbitraryarithmetic/AInteger.java:186-205 | Limbs in range whose value is Val(a) × Val(b), no longer than the buffer of len(a)+len(b), canonical once stripped |
| LimbArith.MultiplyRow | src/arbitraryarithmetic/AInteger.java:194-201 | The inner loop adds a[i] × b × 10000^i into the buffer and keeps every limb in range |
| LimbArith.ProductFitsBuffer | src/arbitraryarithmetic/AInteger.java:194-200 | A carry remaining after b is used up is written at an index i+j below len(a)+len(b) |
| LimbArith.MulColumn | src/arbitraryarithmetic/AInteger.java:195-200 | One inner step keeps the running product equation |
| AIntegers.AInteger.Multiply | src/arbitraryarithmetic/AInteger.java:186-206 | The signed value is the exact product; the result is negative exactly when the product is nonzero and the signs differ |
| LimbArith.QuotientDigit | src/arbitraryarithmetic/AInteger.java:238-248 | The binary search returns the largest d in [0, 9999] with divisor × d ≤ current |
| LimbArith.BringDown | src/arbitraryarithmetic/AInteger.java:232-253 | One pass of long division keeps the remainder in [0, divisor) and keeps remainder + divisor × quotient equal to the limbs brought down so far |
| LimbArith.LongDivide | src/arbitraryarithmetic/AInteger.java:227-259 | The quotient limbs, reversed to least-significant first, have value Val(a) / Val(b), and are canonical for non-empty a |
| LimbArith.ReverseSnocVal | src/arbitraryarithmetic/AInteger.java:249-256 | Appending a most-significant-first quotient digit shifts the reversed quotient up one limb |
| AIntegers.AInteger.Divide | src/arbitraryarithmetic/AInteger.java:210-264 | DivisionByZero exactly when the divisor is 0; otherwise canonical limbs with value floor(abs(a) / abs(b)), negative exactly when nonzero and the signs differ (zero when abs(a) < abs(b)) |
| AIntegers.FormatDigits | src/arbitraryarithmetic/AInteger.java:276-279 | The printed digits have the value of the limbs; there is no leading '0' for a canonical nonzero value |
| AIntegers.PrintLimbs | src/arbitraryarithmetic/AInteger.java:275-279 | The printing loop produces exactly `FormatDigits` of the limbs: the top limb unpadded, then each lower limb padded to four digits |
| AIntegers.AInteger.ToString | src/arbitraryarithmetic/AInteger.java:268-282 | The text is `Format`: "0" for an empty list, else an optional '-', the top limb unpadded, then every lower limb padded to 4 digits |
| AIntegers.ChunksOfFormat | src/arbitraryarithmetic/AInteger.java:276-279 | Reading back the printed digits in groups of 4 gives back the same limbs |
| AIntegers.FormatParseRoundTrip | src/arbitraryarithmetic/AInteger.java:23-282 | Parsing the output of a canonical value gives back the same limbs and sign, except that "-0" reads back as 0 |
| AIntegers.AInteger.Size | src/arbitraryarithmetic/AInteger.java:287-289 | The limb count bounds the value: below 10000^n, and at least 10000^(n-1) for canonical limbs with n ≥ 2 |
| FloatFormat.IndexOf | src/arbitraryarithmetic/AFloat.java:43 | The position of the first '.' at or after the start, or -1 when there is none |
| FloatFormat.ParseFloatSpec | src/arbitraryarithmetic/AFloat.java:34-70 | Fails for the empty string; every failure is IllegalArgument; the limbs are in range; the sign is only ever set for a leading '-' and never on the non-negative zero |
| FloatFormat.ParseFloatParts | src/arbitraryarithmetic/AFloat.java:42-69 | For decimal text: canonical non-negative unscaled value equal to the stripped integer part followed by the stripped fraction, scale the stripped fraction length, no trailing zero while scale > 0, and negative exactly for '-' with a nonzero value |
| FloatFormat.ParseFloatMeaning | src/arbitraryarithmetic/AFloat.java:34-70 | For decimal text: the unscaled value shifted by the dropped zeros is the integer digits followed by the fraction digits as written, so parsing keeps the value; the scale is minimal and -0 becomes 0 |
| FloatFormat.ParseFloatRejects | src/arbitraryarithmetic/AFloat.java:62-67 | A character other than a digit, '.' or '-' after the sign makes the string constructor throw IllegalArgumentException |
| FloatFormat.FracPartVal | src/arbitraryarithmetic/AFloat.java:54-59 | Dropping trailing fraction zeros changes the value only by the dropped power of ten, and leaves no trailing '0' |
| FloatFormat.PrintsZeroIff | src/arbitraryarithmetic/AFloat.java:68 | The test `size() == 1 && toString().equals("0")` holds exactly for the non-negative single zero limb |
| FloatFormat.DashTexts | src/arbitraryarithmetic/AFloat.java:33-70 | "-" reads as a valid zero at scale 0 (the empty integer part becomes "0" and the -0 test clears the sign); "--" hands "-" to the AInteger parse and keeps its empty, negative `unscaled` |
| FloatFormat.ParseExample | src/arbitraryarithmetic/AFloat.java:33-70 | "1.2300" parses to unscaled 123 at scale 2 |
| AFloats.ParsedFields | src/arbitraryarithmetic/AFloat.java:60-69 | The fields are those of the AInteger parse of the combined digits, with scale the fraction length and the -0 test applied |
| AFloats.AFloat.SplitParts | src/arbitraryarithmetic/AFloat.java:38-59 | The sign is consumed, the text is split at the first '.', missing parts become "0", and the zeros are stripped exactly as `IntPart`/`FracPart` state |
| AFloats.AFloat.Parse | src/arbitraryarithmetic/AFloat.java:34-89 | The string constructor and `parse` fail exactly when `ParseFloatSpec` fails, with IllegalArgument; otherwise the fields are `ParseFloatSpec`'s |
| AFloats.AFloat.PrintsAsZero | src/arbitraryarithmetic/AFloat.java:68 | The zero test is true exactly for the non-negative single limb 0 |
| AFloats.AFloat.constructor | src/arbitraryarithmetic/AFloat.java:27-31 | 0.0: unscaled [0], not negative, scale 0 |
| AFloats.AFloat.FromInt | src/arbitraryarithmetic/AFloat.java:73-77 | For an int other than Integer.MIN_VALUE: scale 0 and signed unscaled value n, valid and in normal form |
| AFloats.AFloat.Copy | src/arbitraryarithmetic/AFloat.java:80-84 | A new unscaled AInteger with the same limbs and sign, the same scale and sign bit |
| AFloats.SmallPower | src/arbitraryarithmetic/AFloat.java:102 | `(int) Math.pow(10, r)` for r < 4 is 10^r |
| AFloats.AFloat.Pow10 | src/arbitraryarithmetic/AFloat.java:92-105 | A canonical non-negative AInteger of value 10^n for n > 0 and 1 for n ≤ 0; the loop keeps res = 10000^i |
| AFloats.AFloat.ShiftScale | src/arbitraryarithmetic/AFloat.java:108-115 | The copy has scale + n; its magnitude is multiplied by 10^n for n > 0 and unchanged otherwise; for n ≥ 0 the value is unchanged |
| AFloats.AFloat.Aligned | src/arbitraryarithmetic/AFloat.java:121-122 | The magnitude moved to the common scale: Val = magnitude × 10^(common − scale) |
| AFloats.AFloat.CompareAbs | src/arbitraryarithmetic/AFloat.java:118-124 | The sign of abs(a) − abs(b), compared at the larger scale |
| AFloats.AFloat.DivMod10 | src/arbitraryarithmetic/AFloat.java:210-224 | Canonical non-negative q and r with Val(q) = Val(num) / 10 and Val(r) = Val(num) % 10; the loop keeps 10 × (quotient of the higher limbs) + rem equal to their value |
| AFloats.LastDigit | src/arbitraryarithmetic/AFloat.java:194 | The last decimal digit of the magnitude is that of the lowest limb, so `value.get(0) % 10` is the divisibility test |
| AFloats.AFloat.StripZeros | src/arbitraryarithmetic/AFloat.java:190-207 | Stays valid, reaches normal form (scale 0 or no trailing decimal zero, no -0), never raises the scale, keeps the value (magnitude × 10^dropped is the old magnitude), and clears the sign exactly when the value is 0 |
| AFloats.NormalMagnitudes | src/arbitraryarithmetic/AFloat.java:190-207 | Two normalised magnitudes that denote the same value at a common scale have the same scale and magnitude |
| AFloats.NormalFormUnique | src/arbitraryarithmetic/AFloat.java:190-207 | Two valid normalised AFloats with the same value have the same fields, so they print the same text |
| AFloats.AddSigns | src/arbitraryarithmetic/AFloat.java:134-146 | The three sign branches of `add` give the exact signed sum |
| AFloats.AFloat.SignedSum | src/arbitraryarithmetic/AFloat.java:132-146 | The aligned magnitudes combined by the three branches: a canonical non-negative magnitude whose signed value is the signed sum |
| AFloats.AFloat.Add | src/arbitraryarithmetic/AFloat.java:126-153 | Valid and in normal form, at a scale no greater than max(s1, s2), and its value is exactly the sum |
| AFloats.AFloat.Subtract | src/arbitraryarithmetic/AFloat.java:155-160 | Valid and in normal form, and its value is exactly the difference; the operand is copied, not changed |
| AFloats.SignedProduct | src/arbitraryarithmetic/AFloat.java:164-166 | An XOR sign on the product of magnitudes is the product of the signed magnitudes |
| AFloats.AFloat.Multiply | src/arbitraryarithmetic/AFloat.java:162-169 | Valid and in normal form, and its value is exactly the product, at a scale no greater than s1 + s2 |
| AFloats.SignedQuotient | src/arbitraryarithmetic/AFloat.java:178-184 | An XOR sign on the floor quotient of magnitudes is Java's truncating division of the signed values |
| AFloats.AFloat.ScaledQuotient | src/arbitraryarithmetic/AFloat.java:178-179 | Val = floor(magnitude × 10^n / divisor) |
| AFloats.AFloat.Divide | src/arbitraryarithmetic/AFloat.java:171-187 | DivisionByZero exactly when the divisor's magnitude is 0; otherwise valid and normal at a scale ≤ s1 + 30, with value × 10^(s1+30) equal to (a × 10^(s1+30)) / b truncated toward zero |
| FloatFormat.TrimFraction | src/arbitraryarithmetic/AFloat.java:251-264 | Everything before the first '.' is kept, then the kept fraction after a '.', or nothing when no fraction digit is kept (see `KeptFractionMeaning`) |
| FloatFormat.KeptFractionMeaning | src/arbitraryarithmetic/AFloat.java:258-262 | The kept fraction is the longest prefix of the first 30 fraction digits that does not end in '0' |
| FloatFormat.FractionTruncation | src/arbitraryarithmetic/AFloat.java:258-260 | The kept fraction at 30 digits is the fraction's value truncated at the 30th digit, never rounded |
| FloatFormat.Layout | src/arbitraryarithmetic/AFloat.java:228-248 | The three layouts of toString (see `LayoutShape`) |
| FloatFormat.LayoutShape | src/arbitraryarithmetic/AFloat.java:227-264 | The printed text is the sign, the integer digits with no leading zero, then '.' and the kept fraction when it is not empty. Read at 30 fractional digits it is the value truncated toward zero |
| FloatFormat.PrintParse | src/arbitraryarithmetic/AFloat.java:34-264 | Parsing what `toString` prints gives the value truncated at 30 fractional digits; the sign survives exactly for a nonzero result, so "-0" reads back as 0 |
| FloatFormat.PaddedPastFraction | src/arbitraryarithmetic/AFloat.java:230-262 | A negative value whose digits sit 30 or more places after the point (all 30 kept fraction digits zero) prints as "-0" |
| FloatFormat.NegativeZeroText | src/arbitraryarithmetic/AFloat.java:230-262 | Concretely, unscaled 1 at scale 31 with the sign set prints as "-0" |
| AFloats.AFloat.AppendZeros | src/arbitraryarithmetic/AFloat.java:235-236 | The padding loop appends exactly n zeros |
| AFloats.AFloat.PaddedFraction | src/arbitraryarithmetic/AFloat.java:230-238 | The scale ≥ digits branch prints `Layout` |
| AFloats.AFloat.LayOut | src/arbitraryarithmetic/AFloat.java:229-247 | The three branches after the digits are printed give `Layout` |
| AFloats.AFloat.ToString | src/arbitraryarithmetic/AFloat.java:227-248 | The text is `FloatText` of the fields, i.e. the layout of `LayoutShape` |
| DraftAInteger.DigitsOf | src/AInteger.java:43-46 | One digit value per character, least-significant first |
| DraftAInteger.DigitsOfVal | src/AInteger.java:43-46 | Σ digits[i]·10^i equals the decimal value of the text |
| DraftAInteger.ParseDraftMeaning | src/AInteger.java:28-50 | The empty string gives [0], not negative. Otherwise parsing fails, with IllegalArgument, exactly when a character after the optional '-' is not a digit. On success the digits are in range with the text's value and no most-significant zero except a lone 0, and the result is negative exactly for '-' with a value other than the lone 0 |
| DraftAInteger.ReadDigits | src/AInteger.java:43-48 | The digit loop succeeds exactly when every character is a digit, and then yields the digits least significant first (`DigitsOf`) |
| DraftAInteger.AInteger.Parse | src/AInteger.java:15-50 | The string constructor and `parse` fail exactly when `ParseDraft` does; otherwise they give a fresh object with `ParseDraft`'s fields; the loop reads the digits from the end |
| DraftAInteger.AInteger.StripZeros | src/AInteger.java:52-60 | The digits become the stripped digits, and the sign is cleared exactly when they are the lone 0 |
| DraftAInteger.AInteger.constructor | src/AInteger.java:9-13 | The single digit 0, not negative |
| DraftAInteger.AInteger.Copy | src/AInteger.java:19-22 | The same digits and sign, in storage of its own (a sequence value) |

## Left out

- src/MyInfArith.java is not part of this model. It handles command-line dispatch, printing and turning exceptions into messages.
- run_project.py is not part of this model. It is the build and run driver: it invokes `ant` and checks results with Python.
- `null` strings are not modelled: Dafny strings cannot be null. The empty-string branch of the same tests is modelled.
- `Integer.parseInt` quirks are not modelled. The AInteger parse accepts exactly an optional '-' followed by ASCII digits, and everything else is `Err(IllegalArgument)`. A chunk such as "-5" or "+5", which parseInt would accept inside texts like "--5", is modelled as an error.
- `Character.isDigit` accepts non-ASCII Unicode digits in the draft parser. The model accepts only '0'..'9'.
- `Math.pow(10, r)` in `pow10` is floating point. For r in 0..3 it is exact, and it is modelled as the integer `SmallPower(r)`.
- `String.format("%04d")` and the `replaceFirst` regexes are modelled as the digit-string functions they compute: `Pad4`, `StripLeadingZeros` and `StripTrailingZeros`.
- 32-bit `int` overflow is not modelled; scales and lengths are unbounded integers.
- AIntegers.AInteger.FromInt: excludes Integer.MIN_VALUE. There `Math.abs` stays negative and the constructor builds an empty limb list.
- AFloats.AFloat.FromInt: excludes Integer.MIN_VALUE, for the same reason.
- AFloats.AFloat.Add, Subtract, Multiply, Divide, CompareAbs, ShiftScale and StripZeros require `Valid()`: a canonical, non-negative `unscaled` and a scale ≥ 0. Every constructor gives that for well-formed decimal text (`ParseFloatParts`). Arithmetic on the objects that texts such as "--5" or "--" produce (a negative or empty `unscaled`) is not covered (`FloatFormat.DashTexts`).
- AIntegers.AInteger.Add, Subtract and Divide require canonical operands. Every constructor gives them, except the text "-", which gives an empty, negative limb list (`AIntegers.DashParse`), and the excluded Integer.MIN_VALUE. Every operation then keeps them canonical. Arithmetic on a "-" parse is not covered: in the source, "-" + "-" gives an empty, negative list that prints "0". `compareAbsolute`'s length-first rule and `divide`'s zero test are only correct for canonical operands.
- AIntegers.AInteger.Multiply requires at least one limb between the two operands. Two empty limb lists (two "-" parses) are not covered.
- AFloats.AFloat.ShiftScale: the value is stated unchanged only for n ≥ 0. For n < 0, `pow10` returns 1, so the magnitude stays and only the scale drops. The contract states that behaviour but nothing about the value.
- The code is organised differently in places. Some inline code is split out as helper methods that compute the same thing: `SignedSum`, `Normalised`, `Aligned`, `ScaledQuotient`, `SplitParts`, `WithParsedInteger`, `LayOut`, `PaddedFraction`, `AppendZeros`, `ReadChunks`, `PrintLimbs`, `ReadDigits`, `StripLimbs`, `BringDown`. The limb algorithms of AInteger work on limb sequences, not on the `ArrayList` of a fresh object.
- `result.value.clear()` and the other list mutations of fresh, unshared objects are modelled as assignments of whole sequences. No aliasing between objects is modelled.
- Exceptions are modelled as `Result` values (`Err(IllegalArgument)`, `Err(DivisionByZero)`) returned instead of thrown; exception messages are not modelled.
- The running time of the binary search and the schoolbook algorithms is not modelled; only their results and termination are.

## Where the code and its description differ

The model follows the code:

- `add`/`subtract` of AInteger set the sign after the magnitude is computed. So (-5) + 5 and (-5) - (-5) give a zero that keeps `isNegative` and prints "-0" (`AIntegers.AInteger.Add`).
- AFloat's `toString` does not suppress the sign when the printed value is zero. A negative value whose first 30 fractional digits are zero prints "-0" (`FloatFormat.NegativeZeroText`).
- The AFloat string constructor accepts a leading '+'. The model refuses every other character outside digits, '.' and a leading sign, through the AInteger parse of the combined digits (`FloatFormat.ParseFloatRejects`). The source lets more through, because `Integer.parseInt` reads each four-character chunk: a '+' at the start of a chunk ("1.+234" reads as 1.0234), a '-' at the start of a chunk other than the first ("1.-234" gives the limbs [-234, 1] and reads as 0.9766), and non-ASCII decimal digits.
- The draft AInteger reads the empty string as 0 instead of failing.
