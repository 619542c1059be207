# SuperLong in Dafny

This project models `SuperLong`, a signed arbitrary-precision integer in C++.

**Representation.** A value is a `Sign` (`Positive` or `Negative`) and a vector of `uint8_t` limbs, least significant first. A limb is one base-256 digit.

**The library's operations.** It builds values from a decimal string, an `int64_t` or nothing. It adds, subtracts, multiplies, divides and takes remainders. It compares, negates, asks for the sign, asks whether the value is zero, and prints in decimal.

**How the model is built.**
- A value is the datatype `SuperLong(sign, digits)`.
- What a value denotes is `ToInt`: the sign applied to `Val(digits)`, where `Val(ds)` is the sum of `ds[i] * 256^i`.
- The members that change an object in place become methods of a class (`SuperLongVar`). Those members are the constructors, `initFromUint64`, `removeLeadingZeros` and `negate`.
- Every loop of the source is a `Compute…` method, proved equal to a recursive function.
- The other functions and the lemmas use those recursive functions.

**The model follows the code as written, defects included.**
- `addAbs` and `subtractAbs` start from a default-constructed result, which already holds one zero limb. They append to it, so every sum and difference comes out 256 times too large.
- `subtractAbs` stores a difference in an unsigned 32-bit integer, so it never sees a negative difference and never borrows.
- `subtract` always makes the result Negative when the signs agree and |a| < |b|.
- `negate` flips the sign of zero.
- `multiply_simple` multiplies by 256^|a| times the sum of a's limbs, not by a.
- `multiply_karatsuba` never terminates once both operands have 32 limbs or more.
- `toString` prints every value of 10 or more with a trailing '0'.
- `divide_quo_rem` does not satisfy a == b * q + r, because the remainder it brings down and the products it compares go through the scaled `add` and `multiply_simple`. For example, 11 divided by 10 misses it.
- `divide_quo_rem` gives a zero remainder of a Negative dividend the sign Negative: (-1) % 1 is a Negative `[0]`.

Module `Corrected` gives the intended version of each defective operation, and proves the intended property about it (see "## Findings"). Module `CorrectedDivision` exhibits the two division defects, then defines the same long division over the fixed `add`, `subtract` and `multiply` and proves it is truncated division.

**The earlier version.** The repository also keeps an earlier version of the class: the top-level `superlong.hpp` and `superlong-construct.cpp`. Module `Early` models its parser, its default constructor and its inline `removeLeadingZeros`.

**Modules.**
- `Limbs`: `Val`, powers of 256, and lemmas on limb sequences.
- `Representation`: the value type, `Trim` (the effect of `removeLeadingZeros`), canonical form, `negate`.
- `Construct`: the constructors, `initFromUint64`, the string parser, and the class `SuperLongVar`.
- `Side`: the copy of `removeLeadingZeros` in `src/superlong-side.cpp`.
- `Additive`: `abscmp`, `addAbs`, `subtractAbs`, `add`, `subtract`.
- `Compare`: the six comparison operators.
- `Multiplicative`: `multi256n`, `divid256n`, `multiply_simple`, `multiply_karatsuba`, `multiply`.
- `Division`: `divide_quo_rem` and `/`, `%`.
- `Conversion`: `toString`.
- `Early`: the earlier class.
- `Corrected`: the intended behaviour.
- `CorrectedDivision`: the division defects and the intended `divide_quo_rem`.

## Model

| member | source | states |
|---|---|---|
| Limbs.Pow256 | src/superlong.hpp:8 | a power of the limb base 256 is at least 1 |
| Limbs.Zeros | src/superlong-multiplicative.cpp:46-48 | the run of zero limbs pushed before a partial product has the requested length |
| Limbs.Drop | src/superlong-multiplicative.cpp:29 | erasing the first i limbs leaves \|s\|-i limbs (none when i exceeds the length) |
| Limbs.Take | src/superlong-multiplicative.cpp:53 | the first n limbs, or all of them when there are fewer |
| Limbs.ValRest | src/superlong.hpp:54 | a limb vector's value is its low limb plus 256 times the value of the rest |
| Limbs.PowSucc | src/superlong.hpp:8 | 256^(n+1) = 256 * 256^n |
| Limbs.PowAdd | src/superlong-multiplicative.cpp:90 | 256^(m+n) = 256^m * 256^n |
| Limbs.PowMonotone | src/superlong.hpp:8 | powers of 256 grow with the exponent |
| Limbs.ValAppend | src/superlong.hpp:54 | appending limbs b to a adds 256^\|a\| times Val(b) |
| Limbs.ValSnoc | src/superlong-additive.cpp:42 | pushing one limb d adds d * 256^\|s\| |
| Limbs.ValSingle | src/superlong-construct.cpp:11 | a one-limb vector denotes that limb |
| Limbs.ValBound | src/superlong.hpp:54 | n limbs denote less than 256^n |
| Limbs.ValTopNonZero | src/superlong.hpp:54 | a non-zero top limb puts the value at 256^(n-1) or more |
| Limbs.ValZeros | src/superlong-multiplicative.cpp:46-48 | zero limbs denote 0 |
| Limbs.ValShift | src/superlong-multiplicative.cpp:14 | prefixing n zero limbs multiplies by 256^n |
| Limbs.ValPadded | src/superlong-additive.cpp:7-9 | zero limbs at the top do not change the value |
| Limbs.ValZeroIff | src/superlong-additive.cpp:7-12 | the value is 0 exactly when every limb is 0 |
| Limbs.ValTake | src/superlong-multiplicative.cpp:79-84 | splitting at limb n: Val = Val(low n limbs) + 256^n * Val(the rest) |
| Limbs.DropStep | src/superlong-additive.cpp:62 | the limb read at position i, or 0 past the end |
| Limbs.ValDropLow | src/superlong-multiplicative.cpp:29 | erasing the low `shift` limbs divides the value by 256^shift, rounding down |
| Limbs.Reverse | src/superlong-multiplicative.cpp:148 | `std::reverse`: same length, element i is element \|s\|-1-i of the input |
| Representation.Wrap32 | src/superlong.hpp:9 | uint32_t arithmetic is taken modulo 2^32 |
| Representation.Negated | src/superlong-construct.cpp:138-140 | `negate` keeps the limbs and always flips the sign |
| Representation.IsZero | src/superlong-construct.cpp:143-145 | `isZero` (one limb holding 0) implies the magnitude is 0 |
| Representation.IsNegative | src/superlong-construct.cpp:148-150 | `isNegative` holds exactly when `isPositive` does not, and then the value is at most 0 |
| Representation.IsPositive | src/superlong-construct.cpp:153-155 | `isPositive` implies the value is at least 0 |
| Representation.Trim | src/superlong-additive.cpp:6-13 | `removeLeadingZeros` keeps a prefix of the limbs and the magnitude; the sign is kept unless the result is the Positive zero |
| Representation.TrimDigits | src/superlong-additive.cpp:7-9 | popping top zeros leaves a prefix of the input, no longer than it |
| Representation.TrimCanonical | src/superlong-additive.cpp:6-13 | after `removeLeadingZeros` on a non-empty vector the value is canonical (no top zero, zero is Positive), the magnitude is kept, and a non-zero result keeps its sign |
| Representation.TrimKeepsLowLimbs | src/superlong-additive.cpp:7-9 | trimming keeps every limb below the top non-zero limb |
| Representation.TrimIdempotent | src/superlong-additive.cpp:6-13 | running `removeLeadingZeros` twice is the same as once |
| Representation.TrimCanonicalFixed | src/superlong-additive.cpp:6-13 | a canonical value is unchanged by `removeLeadingZeros` |
| Representation.NormalisedNonZero | src/superlong-construct.cpp:143-145 | a normalised limb vector that is not `isZero` denotes a positive magnitude |
| Representation.NegatedZero | src/superlong-construct.cpp:138-145 | negating zero gives a value that is still `isZero` but `isNegative` and not `isPositive` |
| Construct.LimbsOf | src/superlong-construct.cpp:93-96 | the limbs the `initFromUint64` loop pushes; their value and top limb are stated by `Construct.LimbsOfEncodes` |
| Construct.LimbsOfEncodes | src/superlong-construct.cpp:93-96 | the digits the `initFromUint64` loop pushes encode num |
| Construct.LimbsOfUnique | src/superlong-construct.cpp:93-96 | a limb vector without a top zero is the one that loop pushes for its value |
| Construct.InitLimbs | src/superlong-construct.cpp:88-97 | `initFromUint64` pushes normalised limbs, and exactly `[0]` when num is 0 |
| Construct.InitLimbsEncodes | src/superlong-construct.cpp:88-97 | `initFromUint64` pushes a normalised vector denoting num, `[0]` for 0 |
| Construct.NormalisedUnique | src/superlong-construct.cpp:88-97 | every normalised vector is what `initFromUint64` pushes for its value |
| Construct.CanonicalUnique | src/superlong-compare.cpp:4-12 | two canonical values denoting the same integer are equal |
| Construct.FromInt64 | src/superlong-construct.cpp:100-113 | the `int64_t` constructor gives normalised limbs and is Negative exactly for num < 0 |
| Construct.FromInt64Exact | src/superlong-construct.cpp:100-113 | the `int64_t` constructor, INT64_MIN included, builds a canonical value denoting num |
| Construct.FromInt64Small | src/superlong-construct.cpp:106-111 | a number 0..255 becomes one Positive limb |
| Construct.DigitChar | src/superlong-construct.cpp:75 | '0' + d is a digit character whose value is d |
| Construct.DecSnoc | src/superlong-construct.cpp:73 | appending a digit multiplies the decimal value by 10 and adds the digit |
| Construct.PassStep | src/superlong-construct.cpp:73-77 | one inner step keeps the running remainder below 256 |
| Construct.PassPrefix | src/superlong-construct.cpp:72-78 | after any prefix of the inner loop the remainder is below 256 |
| Construct.PassStepDivides | src/superlong-construct.cpp:73-77 | each inner step emits a decimal digit and keeps the invariant `10*D + d = 256*Q + rem` |
| Construct.PassDivides | src/superlong-construct.cpp:72-78 | the inner loop over a prefix divides its decimal value by 256: quotient string times 256 plus the remainder |
| Construct.Pass | src/superlong-construct.cpp:69-78 | one pass: remainder below 256, all-digit quotient, one character shorter than its input |
| Construct.ParseLimbs | src/superlong-construct.cpp:68-82 | the outer loop pushes one limb per digit of the string |
| Construct.ParseLimbsEncode | src/superlong-construct.cpp:68-82 | the outer loop's limbs, one per pass, encode the decimal value of the digit string |
| Construct.SignLength | src/superlong-construct.cpp:40-49 | a leading '-' or '+' is skipped, at most one character |
| Construct.ParseErrors | src/superlong-construct.cpp:36-60 | the string constructor fails exactly for the empty string, a lone sign, and a non-digit after the sign, each with its own error |
| Construct.Parse | src/superlong-construct.cpp:35-85 | every value the string constructor accepts is canonical (no top zero limb, zero Positive) |
| Construct.ParseExact | src/superlong-construct.cpp:35-85 | a well-formed decimal string parses to a canonical value denoting its decimal value (leading zeros allowed) |
| Construct.ParseLeadingZeros | src/superlong-construct.cpp:68-84 | "00123" parses to the single limb 123 |
| Construct.ParseZeros | src/superlong-construct.cpp:62-66 | "0", "-0", "000", "-000" all parse to the Positive zero |
| Construct.DecZeros | src/superlong-construct.cpp:62-66 | a string of '0's is all digits and has value 0 |
| Construct.ParseCanonicalOf | src/superlong-construct.cpp:35-113 | parsing a decimal string gives the same value as the `int64_t` constructor on the same number |
| Construct.ComputeParse | src/superlong-construct.cpp:35-85 | the string constructor's code, with its validation loop and outer loop, computes Parse |
| Construct.ComputeParseLimbs | src/superlong-construct.cpp:68-82 | the outer division loop computes ParseLimbs |
| Construct.ComputePass | src/superlong-construct.cpp:69-78 | the inner loop computes Pass |
| Construct.SuperLongVar.constructor | src/superlong-construct.cpp:11 | the default constructor holds the Positive zero `[0]` |
| Construct.SuperLongVar.OfInt64 | src/superlong-construct.cpp:100-113 | the `int64_t` constructor holds FromInt64(num) |
| Construct.SuperLongVar.InitFromUint64 | src/superlong-construct.cpp:88-97 | appends the normalised base-256 limbs of num to the existing digits and leaves the sign |
| Construct.SuperLongVar.RemoveLeadingZeros | src/superlong-additive.cpp:6-13 | the object's new value is Trim of its old value |
| Construct.SuperLongVar.Negate | src/superlong-construct.cpp:138-140 | the object's new value is the old one with the sign flipped |
| Side.RemoveLeadingZeros | src/superlong-side.cpp:3-10 | the second definition has the same effect, Trim of the old value |
| Additive.CmpBelow | src/superlong-additive.cpp:20-24 | the top-down scan of the first i limbs answers -1, 0 or 1 |
| Additive.CmpBelowZero | src/superlong-additive.cpp:20-25 | the scan answers 0 exactly when the first i limbs agree |
| Additive.AbsCmp | src/superlong-additive.cpp:16-26 | `abscmp` answers -1, 0 or 1 |
| Additive.CmpBelowAntisymmetric | src/superlong-additive.cpp:20-24 | swapping the operands negates the scan's answer |
| Additive.AbsCmpAntisymmetric | src/superlong-additive.cpp:16-26 | abscmp(a, b) = -abscmp(b, a) |
| Additive.TopLimbDecides | src/superlong-additive.cpp:21-22 | for equal-length vectors, a smaller top limb means a smaller value |
| Additive.CmpBelowByValue | src/superlong-additive.cpp:20-24 | the scan is the sign of the difference of the prefixes' values |
| Additive.AbsCmpByValue | src/superlong-additive.cpp:16-26 | on normalised vectors `abscmp` is the sign of Val(a) - Val(b) |
| Additive.ComputeAbsCmp | src/superlong-additive.cpp:16-26 | the loop computes AbsCmp |
| Additive.AddLoop | src/superlong-additive.cpp:36-47 | the limbs of the add loop; what they encode is stated by `Additive.AddLoopEncodes` |
| Additive.AddLoopEncodes | src/superlong-additive.cpp:36-47 | the limbs the add loop pushes, carry limb included, encode Val(a) + Val(b) + carry |
| Additive.AddLoopSymmetric | src/superlong-additive.cpp:36-47 | the add loop pushes the same limbs with its operands swapped |
| Additive.AddAbs | src/superlong-additive.cpp:29-51 | `addAbs` returns a canonical Positive value |
| Additive.AddAbsScaled | src/superlong-additive.cpp:29-51 | as written, `addAbs` denotes 256 * (Val(a) + Val(b)), because of the seed limb |
| Additive.AddLoopStep | src/superlong-additive.cpp:37-43 | one iteration pushes sum % 256 and carries sum / 256 |
| Additive.ComputeAddAbs | src/superlong-additive.cpp:29-51 | the function's code computes AddAbs |
| Additive.AddLimbsLoop | src/superlong-additive.cpp:36-47 | the loop's pushed limbs plus the final carry limb are AddLoop, with a carry of at most 1 |
| Additive.SubLoop | src/superlong-additive.cpp:60-73 | the subtract loop pushes one limb per limb of a |
| Additive.Wrap32LowByte | src/superlong-additive.cpp:64-67 | the uint32 wrap of a difference keeps its low byte |
| Additive.SubLoopLimbs | src/superlong-additive.cpp:61-67 | limb i of the result is (a[i] - b[i]) mod 256, with no borrow from below |
| Additive.SubLoopNoBorrow | src/superlong-additive.cpp:60-73 | when no limb of b exceeds the limb of a, the loop computes Val(a) - Val(b) |
| Additive.SubtractAbs | src/superlong-additive.cpp:54-77 | `subtractAbs` returns a canonical Positive value |
| Additive.SubtractAbsScaled | src/superlong-additive.cpp:54-77 | as written, the result denotes 256 times the value of the borrow-free loop's limbs |
| Additive.SubtractAbsNoBorrow | src/superlong-additive.cpp:54-77 | when no borrow would have been needed: 256 * (Val(a) - Val(b)) |
| Additive.ComputeSubtractAbs | src/superlong-additive.cpp:54-77 | the function's code computes SubtractAbs |
| Additive.SubLoopStep | src/superlong-additive.cpp:61-67 | one iteration pushes the low byte of the 32-bit wrapped difference a[i] - b[i] and leaves the rest of the loop to position i + 1 |
| Additive.SubLimbsLoop | src/superlong-additive.cpp:60-73 | the loop pushes SubLoop(a, b); the dead `diff < 0` branch is never taken |
| Additive.Add | src/superlong-additive.cpp:80-103 | `add` returns normalised limbs; cmp == 0 gives the default zero |
| Additive.Subtract | src/superlong-additive.cpp:106-131 | `subtract` returns normalised limbs; cmp == 0 gives the default zero |
| Additive.Plus | src/superlong.hpp:25 | `operator+` forwards to `add` |
| Additive.Minus | src/superlong.hpp:26 | `operator-` forwards to `subtract` |
| Additive.AddCommutes | src/superlong-additive.cpp:80-103 | add(a, b) = add(b, a), including the sign each branch picks |
| Additive.CancelToZero | src/superlong-additive.cpp:87-90 | x + (-x) and x - x are the default zero |
| Additive.AddSameSignScaled | src/superlong-additive.cpp:81-84 | for operands of one sign the sum denotes 256 * (a + b) |
| Additive.SubtractOppositeSignScaled | src/superlong-additive.cpp:108-111 | for operands of opposite signs the difference denotes 256 * (a - b) |
| Additive.SubtractSmallerIsNegative | src/superlong-additive.cpp:125-128 | same signs with |a| < |b| always gives a Negative result, whatever the signs |
| Additive.AddOppositeSignNoBorrow | src/superlong-additive.cpp:92-100 | opposite signs, when no borrow is needed: the sum denotes 256 * (a + b) |
| Additive.AdditiveExamples | src/superlong-additive.cpp:80-131 | as written, 100 + 200 denotes 76800 and (-100) - (-300) is negative |
| Additive.SubtractAbsExample | src/superlong-additive.cpp:60-73 | as written, \|-300\| - \|-100\| denotes 256 * 456: the limbs [44, 1] less [100] give [200, 1] with no borrow, where the borrowing answer is 200 |
| Compare.Eq | src/superlong-compare.cpp:4-12 | `==` holds exactly when sign and limbs are equal |
| Compare.CanonicalOrder | src/superlong-additive.cpp:16-26 | on canonical values `abscmp` orders by magnitude, and a canonical Negative value is non-zero |
| Compare.Less | src/superlong-compare.cpp:15-27 | on canonical values `<` is integer <, in both directions |
| Compare.EqByValue | src/superlong-compare.cpp:4-12 | canonical values with equal integers are `==` |
| Compare.LessEq | src/superlong-compare.cpp:30-32 | on canonical values `<=` is integer <= |
| Compare.Greater | src/superlong-compare.cpp:35-37 | on canonical values `>` is integer > |
| Compare.GreaterEq | src/superlong-compare.cpp:40-42 | on canonical values `>=` is integer >= |
| Compare.NotEq | src/superlong-compare.cpp:45-47 | `!=` is the negation of structural equality |
| Compare.Trichotomy | src/superlong-compare.cpp:4-47 | for every pair of values, the Negative zero included, exactly one of <, ==, > holds |
| Compare.LessIrreflexive | src/superlong-compare.cpp:15-27 | no value is `<` itself |
| Compare.NegativeZeroBelowZero | src/superlong-compare.cpp:4-27 | a negated zero is `<` the zero and `!=` it |
| Multiplicative.Multi256n | src/superlong-multiplicative.cpp:7-17 | `multi256n` keeps the sign and returns x unchanged when shift is 0 or x is zero; otherwise it multiplies the magnitude by 256^shift, and a positive shift adds that many limbs |
| Multiplicative.Divid256n | src/superlong-multiplicative.cpp:20-33 | `divid256n` returns zero or shift 0 unchanged; otherwise a canonical value denoting Val / 256^shift rounded down, keeping the sign unless it is zero, with at most \|x\| - shift limbs when shift is below the length |
| Multiplicative.MulLimb | src/superlong-multiplicative.cpp:51-63 | the limbs of one partial product; what they encode is stated by `Multiplicative.MulLimbEncodes` |
| Multiplicative.MulLimbEncodes | src/superlong-multiplicative.cpp:51-63 | the limbs of one partial product encode d * Val(b) + carry |
| Multiplicative.PartialProduct | src/superlong-multiplicative.cpp:43-64 | temp is Positive and denotes 256^i * a[i] * Val(b) |
| Multiplicative.MultiplySimple | src/superlong-multiplicative.cpp:36-71 | `multiply_simple` returns a Positive value with normalised limbs |
| Multiplicative.MultiplySimpleFold | src/superlong-multiplicative.cpp:42-67 | the fold of partial products; its sign and value are stated by `Multiplicative.MultiplySimplePositive` and `Multiplicative.MultiplySimpleFoldValue` |
| Multiplicative.MultiplySimplePositive | src/superlong-multiplicative.cpp:42-67 | every intermediate result of the fold is Positive |
| Multiplicative.MultiplySimpleFoldValue | src/superlong-multiplicative.cpp:42-67 | after n rows the result denotes 256^n * (a[0]+...+a[n-1]) * Val(b) |
| Multiplicative.MultiplySimpleValue | src/superlong-multiplicative.cpp:36-71 | as written, `multiply_simple` denotes 256^\|a\| * (sum of a's limbs) * Val(b) |
| Multiplicative.ComputePartialProduct | src/superlong-multiplicative.cpp:43-64 | the zero-padding loop, the limb loop and the carry loop compute PartialProduct |
| Multiplicative.PushZeros | src/superlong-multiplicative.cpp:46-48 | the padding loop pushes i zero limbs |
| Multiplicative.MulLimbLoop | src/superlong-multiplicative.cpp:51-59 | the limb loop's pushed limbs plus the limbs of its final carry are MulLimb |
| Multiplicative.MulLimbStep | src/superlong-multiplicative.cpp:55-58 | each product plus carry fits, and its carry is below 256 |
| Multiplicative.PushCarry | src/superlong-multiplicative.cpp:60-63 | the carry loop appends the base-256 limbs of the carry |
| Multiplicative.ComputeMultiplySimple | src/superlong-multiplicative.cpp:36-71 | the function's code computes MultiplySimple |
| Multiplicative.KaratsubaSplit | src/superlong-multiplicative.cpp:79-84 | the split keeps the signs of x and y, and `a` and `c` are never shorter than x and y |
| Multiplicative.MultiplyKaratsuba | src/superlong-multiplicative.cpp:74-91 | returns exactly when an operand has under 32 limbs, and then gives `multiply_simple`; otherwise it does not return |
| Multiplicative.KaratsubaOperandsGrow | src/superlong-multiplicative.cpp:79-88 | with 32 or more limbs each, the operands `a` and `c` of the call on line 88 are longer than x and y and again past the threshold; since a call returns only after its line-88 call returns, no call of the recursive branch returns (`Diverges` is the model's name for that outcome) |
| Multiplicative.Multiply | src/superlong-multiplicative.cpp:94-101 | `multiply` returns when `multiply_karatsuba` does; its limbs are `multiply_simple`'s; it is Positive exactly when the signs agree, and zero is Positive |
| Multiplicative.Times | src/superlong-multiplicative.cpp:159-161 | `operator*` is `multiply` |
| Multiplicative.TimesInt64 | src/superlong-multiplicative.cpp:171-173 | `operator*(int64_t)` multiplies by the `int64_t` constructor's value |
| Multiplicative.MultiplyValue | src/superlong-multiplicative.cpp:94-101 | the signed result is ±256^\|a\| * (sum of a's limbs) * Val(b) |
| Multiplicative.MultiplyExample | src/superlong-multiplicative.cpp:94-101 | 12 * 3 denotes 9216 as written |
| Division.SearchDigit | src/superlong-multiplicative.cpp:126-141 | the binary search answers a digit 0..255 |
| Division.SearchDigitInvariant | src/superlong-multiplicative.cpp:130-141 | when the test holds exactly on 1..k and the loop state brackets k (best <= k, and k is best or within low..high), the search returns k |
| Division.LastFit | src/superlong-multiplicative.cpp:126-141 | the last digit up to n at which the test holds, or 0: it is at most n and the test holds there |
| Division.LastFitIsCut | src/superlong-multiplicative.cpp:130-141 | a monotone test holds on 1..n exactly at the digits up to its last fitting digit |
| Division.SearchDigitFindsLargest | src/superlong-multiplicative.cpp:126-141 | for a monotone test the search returns the largest fitting digit, or 0 when none fits |
| Division.SearchDigitAnswer | src/superlong-multiplicative.cpp:130-141 | for any test, a non-zero answer is a digit at which the test held |
| Division.Product | src/superlong-multiplicative.cpp:133 | `divisor * mid` has normalised limbs |
| Division.ProductValue | src/superlong-multiplicative.cpp:133 | `divisor * mid` denotes 256^\|divisor\| * (sum of divisor's limbs) * mid |
| Division.FitTable | src/superlong-multiplicative.cpp:133-135 | the table of `abscmp(product, remainder) <= 0` tests has one entry per digit 0..255 |
| Division.FitTableAt | src/superlong-multiplicative.cpp:133-135 | entry m of the table is the test for digit m |
| Division.FitsIff | src/superlong-multiplicative.cpp:133-135 | the test holds exactly when the product's value is at most the remainder's |
| Division.FitsMonotone | src/superlong-multiplicative.cpp:130-141 | the test is monotone in the digit, so the binary search is sound |
| Division.BringDown | src/superlong-multiplicative.cpp:123 | `remainder.multi256n(1) + SuperLong(limb)` has normalised limbs |
| Division.DivStep | src/superlong-multiplicative.cpp:123-146 | one iteration appends exactly one digit to the collected quotient |
| Division.LongDivision | src/superlong-multiplicative.cpp:122-147 | after k iterations k digits have been collected |
| Division.DivideQuoRem | src/superlong-multiplicative.cpp:104-156 | `divide_quo_rem` fails exactly when the divisor is `isZero` |
| Division.Quotient | src/superlong-multiplicative.cpp:163-165 | `/` fails exactly on a zero divisor, otherwise it is the first half of `divide_quo_rem` |
| Division.Remainder | src/superlong-multiplicative.cpp:167-169 | `%` fails exactly on a zero divisor, otherwise it is the second half |
| Division.QuotientInt64 | src/superlong-multiplicative.cpp:175-177 | `/ int64_t` fails exactly when n is 0 |
| Division.RemainderInt64 | src/superlong-multiplicative.cpp:179-181 | `% int64_t` fails exactly when n is 0 |
| Division.DivideEdgeCases | src/superlong-multiplicative.cpp:105-110 | division by zero is the error, and zero divided by any non-zero value is (0, 0) |
| Division.DivideSmallDividend | src/superlong-multiplicative.cpp:115-117 | a smaller dividend gives (0, a), with a's sign kept |
| Division.DivideSigns | src/superlong-multiplicative.cpp:119-155 | on the long path the quotient is Positive exactly when the signs agree, the remainder takes a's sign, both are normalised, and the quotient is no longer than a |
| Division.BringDownNormalised | src/superlong-multiplicative.cpp:122-147 | the running remainder stays normalised through the loop |
| Division.DivStepDigit | src/superlong-multiplicative.cpp:123-145 | each collected digit is the largest m whose product fits under the brought-down remainder, or 0 when none fits |
| Division.SearchedDigitLargest | src/superlong-multiplicative.cpp:125-141 | the searched digit fits, and no larger digit fits |
| Division.NoDigitFits | src/superlong-multiplicative.cpp:144-145 | when the remainder is below the divisor no digit's product fits |
| Division.ProductExceedsDivisor | src/superlong-multiplicative.cpp:133 | every product with a digit 1..255 exceeds the divisor |
| Division.FindDigit | src/superlong-multiplicative.cpp:126-141 | the search loop computes SearchDigit on the fit table |
| Division.ComputeDivStep | src/superlong-multiplicative.cpp:123-146 | the loop body computes DivStep |
| Division.ComputeLongDivision | src/superlong-multiplicative.cpp:122-147 | the loop computes LongDivision over all of the dividend |
| Division.ComputeDivideQuoRem | src/superlong-multiplicative.cpp:104-156 | the function's code computes DivideQuoRem, error case included |
| Conversion.Ten | src/superlong-construct.cpp:126 | `SuperLong(10LL)` is the one Positive limb 10 |
| Conversion.SeededLowLimb | src/superlong-additive.cpp:30-48 | trimming a vector seeded with a zero limb keeps that zero low limb |
| Conversion.AddLowLimb | src/superlong-additive.cpp:80-103 | every result of `add` has low limb 0 |
| Conversion.SubtractLowLimb | src/superlong-additive.cpp:106-131 | every result of `subtract` has low limb 0 |
| Conversion.LongDivisionLowLimb | src/superlong-multiplicative.cpp:143 | after one or more iterations the running remainder's low limb is 0 |
| Conversion.LongDivisionFirstDigit | src/superlong-multiplicative.cpp:122-147 | the first collected digit does not depend on later iterations |
| Conversion.BringDownFirst | src/superlong-multiplicative.cpp:123 | bringing the top limb into the default zero denotes 256 * top |
| Conversion.ProductTen | src/superlong-multiplicative.cpp:133 | 10 * m denotes 2560 * m as written |
| Conversion.FirstDigitBelowTop | src/superlong-multiplicative.cpp:122-141 | dividing by ten, the first collected digit is below the dividend's top limb |
| Conversion.TopLimbBounds | src/superlong.hpp:54 | the top limb brackets the value between 256^(n-1) * top and 256^(n-1) * (top+1) |
| Conversion.TopLimbDecidesBelow | src/superlong.hpp:54 | of two vectors of the same length, the one with the smaller top limb is smaller |
| Conversion.DivTenLong | src/superlong-multiplicative.cpp:122-147 | a value of 10 or more divided by ten takes the long path: the trimmed reversed digits and the trimmed remainder made Positive |
| Conversion.QuotientTopBelow | src/superlong-multiplicative.cpp:122-148 | the last collected digit, the top after reversing, is below the dividend's top limb |
| Conversion.ReversedBelow | src/superlong-multiplicative.cpp:148 | reversed digits that end below the top limb denote less than the dividend |
| Conversion.ReversedQuotientBelow | src/superlong-multiplicative.cpp:148-150 | the reversed quotient denotes less than the dividend |
| Conversion.DivTenLongFacts | src/superlong-multiplicative.cpp:119-155 | the long path by ten: a normalised Positive quotient smaller than the dividend, and a remainder with low limb 0 |
| Conversion.DivTenFacts | src/superlong-construct.cpp:126 | `divide_quo_rem(temp, 10)` succeeds with a smaller quotient; below 10 it gives (0, temp), and from 10 on the remainder's low limb is 0 |
| Conversion.DivTen | src/superlong-construct.cpp:126-127 | one turn of the loop strictly shrinks temp, which makes the loop terminate |
| Conversion.ComputeToString | src/superlong-construct.cpp:116-135 | the function's code computes ToString |
| Conversion.ComputePushedChars | src/superlong-construct.cpp:125-129 | the loop computes PushedChars |
| Conversion.PushedChars | src/superlong-construct.cpp:125-129 | the loop pushes no character exactly when temp is zero |
| Conversion.ToString | src/superlong-construct.cpp:116-135 | `toString` is non-empty, and starts with '-' for a Negative non-zero value |
| Conversion.ComputeDivTen | src/superlong-construct.cpp:126-127 | one call of the division computes DivTen |
| Conversion.SmallIsOneLimb | src/superlong.hpp:54 | a normalised vector below 256 is one limb holding that value |
| Conversion.LongIsLarge | src/superlong.hpp:54 | a normalised vector of two or more limbs denotes 256 or more |
| Conversion.LimbCharDigit | src/superlong-construct.cpp:128 | `remainder.digits[0] + '0'` for a digit 0..9 is that digit's character |
| Conversion.PushedCharIsDigit | src/superlong-construct.cpp:128 | each pushed character is a decimal digit |
| Conversion.PushedStep | src/superlong-construct.cpp:125-129 | the pushed characters are this turn's digit followed by the rest of the loop's |
| Conversion.PushedDigits | src/superlong-construct.cpp:125-129 | the loop pushes only decimal digits |
| Conversion.AllDigitsCons | src/superlong-construct.cpp:128 | a digit prepended to a digit string is a digit string |
| Conversion.PushedFirstZero | src/superlong-construct.cpp:125-129 | from 10 on, the first pushed character is '0' |
| Conversion.ReverseSnoc | src/superlong-construct.cpp:133 | reversing p + [c] gives c then the reverse of p |
| Conversion.ReverseDigits | src/superlong-construct.cpp:133 | reversing keeps a digit string a digit string |
| Conversion.ToStringShape | src/superlong-construct.cpp:116-135 | the output is non-empty, starts with '-' exactly for a Negative non-zero value, is otherwise all digits, and is well-formed for the parser |
| Conversion.ToStringEndsInZero | src/superlong-construct.cpp:125-133 | as written, every value of 10 or more prints with a trailing '0' |
| Conversion.ToStringSmall | src/superlong-construct.cpp:116-135 | a value 1..9 prints as its digit, with '-' when Negative |
| Early.EarlyPassStep | superlong-construct.cpp:39-45 | the earlier inner step keeps the `uint8_t` carry below 256 |
| Early.EarlyPassPrefix | superlong-construct.cpp:38-46 | after any prefix of the earlier inner loop the carry is below 256 |
| Early.EarlyPassStepDivides | superlong-construct.cpp:39-45 | each earlier step keeps `10*D + d = 256*Q + carry` and skips only leading zero quotient digits |
| Early.EarlyPassDivides | superlong-construct.cpp:38-46 | the earlier inner loop over a prefix divides by 256 with a quotient string without a leading zero |
| Early.EarlyPass | superlong-construct.cpp:35-46 | one earlier pass: carry below 256, a digit quotient without a leading zero |
| Early.DecLeadingDigit | superlong-construct.cpp:43 | a digit string with a non-zero first digit has a positive value |
| Early.EarlyLimbs | superlong-construct.cpp:34-49 | the earlier outer loop pushes at most one limb per character, and none exactly for the empty digit string |
| Early.EarlyLimbsEncode | superlong-construct.cpp:34-49 | for every non-empty digit string, leading zeros included, the earlier outer loop pushes a normalised vector encoding the decimal value |
| Early.EarlyLimbsExact | superlong-construct.cpp:34-49 | for every non-empty digit string, leading zeros included, those limbs are the `initFromUint64` limbs of its value |
| Early.EarlyParse | superlong-construct.cpp:11-49 | the earlier constructor fails exactly on the empty string, and a non-empty digit part gives at least one limb |
| Early.EarlyParseResult | superlong-construct.cpp:11-49 | the sign is Negative after '-' unless the digits are exactly "0"; a lone sign gives no limbs; otherwise the limbs are those `initFromUint64` gives for the decimal value |
| Early.EarlyNegativeZero | superlong-construct.cpp:17-49 | "-00" is accepted and gives the Negative zero `[0]` |
| Early.EarlySignOnly | superlong-construct.cpp:26-34 | a lone sign is accepted: the result has no limbs and is not `isZero` |
| Early.ComputeEarlyParse | superlong-construct.cpp:11-49 | the earlier constructor's code computes EarlyParse |
| Early.ComputeEarlyLimbs | superlong-construct.cpp:34-49 | the earlier outer loop computes EarlyLimbs |
| Early.ComputeEarlyPass | superlong-construct.cpp:35-46 | the earlier inner loop computes EarlyPass |
| Early.EarlySuperLong.constructor | superlong.hpp:31 | the earlier default value is Positive with no limbs at all |
| Early.EarlySuperLong.RemoveLeadingZeros | superlong.hpp:16-23 | the inline `removeLeadingZeros` makes the new value Trim of the old |
| Early.EarlySuperLong.IsZeroLimbs | superlong.hpp:52 | `isZero` agrees with the model's zero test on the object's value |
| Early.EarlySuperLong.IsNegativeSign | superlong.hpp:53 | `isNegative` agrees with the model's sign test |
| Early.EarlySuperLong.IsPositiveSign | superlong.hpp:54 | `isPositive` agrees with the model's sign test |
| Early.DefaultNotZero | superlong.hpp:31 | a default-constructed earlier value is not `isZero` |
| Corrected.FixedAddAbs | src/superlong-additive.cpp:29-51 | the intended `addAbs`: canonical, Positive, denoting Val(a) + Val(b) |
| Corrected.BorrowLoop | src/superlong-additive.cpp:60-73 | the subtract loop with a real borrow: one limb per limb of the longer operand |
| Corrected.BorrowLoopEncodes | src/superlong-additive.cpp:60-73 | the borrowing loop encodes Val(a) - Val(b) - borrow |
| Corrected.BorrowLoopCovered | src/superlong-additive.cpp:60-73 | when Val(a) >= Val(b) the loop ends with no borrow and computes Val(a) - Val(b) |
| Corrected.FixedSubtractAbs | src/superlong-additive.cpp:54-77 | the intended `subtractAbs`: canonical, Positive, and Val(a) - Val(b) when \|a\| >= \|b\| |
| Corrected.FixedAdd | src/superlong-additive.cpp:80-103 | the intended `add` returns normalised limbs, and Positive operands give their exact sum |
| Corrected.FixedSubtract | src/superlong-additive.cpp:106-131 | the intended `subtract` returns normalised limbs |
| Corrected.PositiveNotZero | src/superlong-construct.cpp:143-145 | a canonical value with a positive magnitude is not `isZero` |
| Corrected.SignedMagnitude | src/superlong-additive.cpp:83 | giving a canonical magnitude a sign gives the signed integer |
| Corrected.LargerMagnitude | src/superlong-additive.cpp:92-95 | when abscmp(a, b) > 0 the fixed `subtractAbs` gives the positive difference |
| Corrected.CanonicalNegative | src/superlong-additive.cpp:6-13 | a canonical Negative value has a positive magnitude |
| Corrected.EqualMagnitudes | src/superlong-additive.cpp:89-90 | abscmp 0 means equal magnitudes, and the default zero denotes 0 |
| Corrected.FixedAddValue | src/superlong-additive.cpp:80-103 | on normalised operands the fixed `add` denotes a + b, and canonical operands give a canonical sum |
| Corrected.FixedSubtractValue | src/superlong-additive.cpp:106-131 | on canonical operands the fixed `subtract` is canonical and denotes a - b |
| Corrected.FixedSubtractIsAddNegated | src/superlong-additive.cpp:107 | the fixed subtract is add with b negated: a - (-b) = a + b |
| Corrected.SubtractIsNotAddNegated | src/superlong-additive.cpp:125-128 | as written, (-1) - (-3) differs from (-1) + 3 |
| Corrected.FixedMultiplySimpleFold | src/superlong-multiplicative.cpp:42-67 | the fixed fold is Positive, canonical, and denotes Val(a's first n limbs) * Val(b) |
| Corrected.FixedFoldStep | src/superlong-multiplicative.cpp:66 | adding the next partial product extends the fold by one limb of a |
| Corrected.FixedMultiplySimple | src/superlong-multiplicative.cpp:36-71 | the intended `multiply_simple`: Positive, canonical, denoting Val(a) * Val(b) |
| Corrected.FixedMultiplyExample | src/superlong-multiplicative.cpp:36-71 | the fixed 12 * 3 denotes 36 |
| Corrected.LowHalf | src/superlong-multiplicative.cpp:81 | the low m limbs, trimmed: canonical, Positive, at most m limbs |
| Corrected.HighHalf | src/superlong-multiplicative.cpp:81-84 | the upper limbs, trimmed: canonical, Positive, and x = high * 256^m + low |
| Corrected.HighHalfIsShift | src/superlong-multiplicative.cpp:20-33 | the upper half is `divid256n(m)` |
| Corrected.HalfValues | src/superlong-multiplicative.cpp:81-84 | the halves denote the values of the two slices of x's limbs |
| Corrected.CanonicalNonNegative | src/superlong-multiplicative.cpp:96-99 | a canonical Positive value denotes its magnitude |
| Corrected.ShiftCanonical | src/superlong-multiplicative.cpp:7-17 | `multi256n` keeps a canonical value canonical and multiplies it by 256^k |
| Corrected.RecombineValue | src/superlong-multiplicative.cpp:90 | on canonical non-negative parts, z2*256^2m + (z1-z2-z0)*256^m + z0 is computed exactly |
| Corrected.MiddleValue | src/superlong-multiplicative.cpp:90 | z1 - z2 - z0 is canonical and denotes that difference |
| Corrected.ShiftedSum | src/superlong-multiplicative.cpp:90 | the sum of the two shifted terms is canonical and exact |
| Corrected.HalvesShorter | src/superlong-multiplicative.cpp:79-87 | with the fixed split, high + low is shorter than x: the recursion on a + b terminates |
| Corrected.KaratsubaMul | src/superlong-multiplicative.cpp:86-90 | Karatsuba's identity: the recombination of the three products is vx * vy |
| Corrected.KaratsubaCombine | src/superlong-multiplicative.cpp:90 | the recombination built from the split values equals the full product |
| Corrected.RecombineExact | src/superlong-multiplicative.cpp:90 | when the target product is non-negative the recombined value is canonical, Positive, and denotes it |
| Corrected.KaratsubaParts | src/superlong-multiplicative.cpp:81-90 | from the split and the three recursive products, the recombination formula gives Val(x) * Val(y) |
| Corrected.KaratsubaStep | src/superlong-multiplicative.cpp:81-90 | one Karatsuba level returns a canonical Positive value denoting Val(x) * Val(y) |
| Corrected.SimpleProduct | src/superlong-multiplicative.cpp:75-77 | below the threshold, the fixed `multiply_simple` gives a canonical Positive value denoting Val(x) * Val(y) |
| Corrected.SplitOperand | src/superlong-multiplicative.cpp:79-87 | the fixed split of one operand: high, low and high + low are canonical, Positive and shorter than x, with x = high * 256^m + low |
| Corrected.FixedKaratsuba | src/superlong-multiplicative.cpp:74-91 | the intended `multiply_karatsuba` terminates and returns a canonical Positive value denoting Val(x) * Val(y) |
| Corrected.MagnitudeZero | src/superlong-multiplicative.cpp:97-99 | a canonical product is `isZero` exactly when its magnitude is 0 |
| Corrected.FixedMultiply | src/superlong-multiplicative.cpp:94-101 | the intended `multiply`: canonical and denoting a * b |
| Corrected.SignedProduct | src/superlong-multiplicative.cpp:96-99 | the sign rule of `multiply` applied to a canonical magnitude gives the signed product |
| Corrected.FixedNegated | src/superlong-construct.cpp:138-140 | the intended `negate` keeps the limbs, denotes -x, and keeps canonical values canonical |
| Corrected.Decimal | src/superlong-construct.cpp:125-133 | the decimal digits of n, most significant first, without a leading zero, with value n |
| Corrected.FixedToString | src/superlong-construct.cpp:116-135 | the intended `toString`: non-empty and ending in the last decimal digit of the magnitude |
| Corrected.FixedToStringRoundTrip | src/superlong-construct.cpp:35-135 | parsing what the fixed `toString` prints gives back the same canonical value |
| Corrected.ToStringEleven | src/superlong-construct.cpp:116-135 | the fixed `toString` prints 11 as "11" |
| CorrectedDivision.DivideElevenByTen | src/superlong-multiplicative.cpp:104-156 | as written, 11 divided by 10 succeeds, but 10 * q + r is not 11 |
| CorrectedDivision.NotEleven | src/superlong-multiplicative.cpp:119-155 | no 10 * q with q below 11 plus a multiple of 256 is 11 |
| CorrectedDivision.NegativeZeroRemainder | src/superlong-multiplicative.cpp:151-154 | as written, (-1) divided by 1 gives the quotient -1 and the remainder `Negated(Zero())`, a Negative zero |
| CorrectedDivision.MinusOneLongDivision | src/superlong-multiplicative.cpp:122-147 | as written, the loop over the limb 1 with divisor 1 collects the digit 1 and leaves the remainder `[0]` |
| CorrectedDivision.MinusOneStep | src/superlong-multiplicative.cpp:123-146 | as written, that one turn brings down 256, takes the digit 1 and subtracts the product 256 |
| CorrectedDivision.MinusOneDigit | src/superlong-multiplicative.cpp:125-142 | as written, the search on the brought-down 256 with divisor 1 picks the digit 1 |
| CorrectedDivision.BringDownOne | src/superlong-multiplicative.cpp:123 | as written, bringing the limb 1 into the default zero gives a Positive value denoting 256 |
| CorrectedDivision.ProductOfOne | src/superlong-multiplicative.cpp:133 | as written, `divisor * mid` with divisor 1 denotes 256 * mid |
| CorrectedDivision.FixedProduct | src/superlong-multiplicative.cpp:133 | `divisor * mid` by the fixed `multiply`: canonical and denoting divisor * mid |
| CorrectedDivision.FixedFitTable | src/superlong-multiplicative.cpp:133-135 | the fixed `abscmp(product, remainder) <= 0` tests form a table with one entry per digit 0..255 |
| CorrectedDivision.FixedFitTableAt | src/superlong-multiplicative.cpp:133-135 | entry m of the table is the fixed test for digit m |
| CorrectedDivision.FixedFitsIff | src/superlong-multiplicative.cpp:133-135 | the fixed test holds exactly when divisor * m is at most the remainder |
| CorrectedDivision.AbsCmpAtLeast | src/superlong-multiplicative.cpp:130-135 | on normalised vectors `abscmp(x, y) >= 0` exactly when Val(x) >= Val(y) |
| CorrectedDivision.AbsCmpAtMost | src/superlong-multiplicative.cpp:130-135 | on normalised vectors `abscmp(x, y) <= 0` exactly when Val(x) <= Val(y) |
| CorrectedDivision.ProductNonNegative | src/superlong-multiplicative.cpp:133 | the exact product of a Positive divisor and a digit is Positive with magnitude divisor * m |
| CorrectedDivision.FixedFitsMonotone | src/superlong-multiplicative.cpp:130-141 | the fixed test is monotone in the digit, so the binary search is sound |
| CorrectedDivision.FixedDigitBounds | src/superlong-multiplicative.cpp:125-141 | when divisor <= rem < 256 * divisor the search answers a d in 1..255 with divisor * d <= rem < divisor * (d + 1) |
| CorrectedDivision.FixedBringDown | src/superlong-multiplicative.cpp:123 | the fixed bring-down has normalised limbs |
| CorrectedDivision.FixedBringDownValue | src/superlong-multiplicative.cpp:123 | the fixed bring-down of a canonical Positive remainder is canonical, Positive and denotes 256 * rem + limb |
| CorrectedDivision.FixedDivStep | src/superlong-multiplicative.cpp:123-146 | one fixed turn appends exactly one digit to the collected quotient |
| CorrectedDivision.FixedDivStepValue | src/superlong-multiplicative.cpp:123-146 | one fixed turn divides 256 * rem + limb: the new digit d and remainder rem' satisfy 256 * rem + limb == divisor * d + rem', with rem' canonical, Positive and below the divisor |
| CorrectedDivision.TurnValue | src/superlong-multiplicative.cpp:125-146 | a remainder below 256 * divisor is left canonical, Positive and below the divisor, having lost exactly digit * divisor |
| CorrectedDivision.DigitTurn | src/superlong-multiplicative.cpp:125-143 | when divisor <= rem < 256 * divisor, subtracting the searched digit's product leaves a canonical Positive value below the divisor, and rem == divisor * digit + left |
| CorrectedDivision.FixedLongDivision | src/superlong-multiplicative.cpp:122-147 | after k fixed turns k digits have been collected |
| CorrectedDivision.ValCons | src/superlong-multiplicative.cpp:148 | a limb prepended to a vector adds it as the lowest limb |
| CorrectedDivision.ValReverseSnoc | src/superlong-multiplicative.cpp:148 | in the reversed quotient each new digit is the lowest limb: Val(reverse(q + [d])) == d + 256 * Val(reverse(q)) |
| CorrectedDivision.ValSuffix | src/superlong-multiplicative.cpp:122-123 | the top k limbs denote the next limb plus 256 times the top k - 1 limbs |
| CorrectedDivision.DivisionArith | src/superlong-multiplicative.cpp:122-146 | one turn's equation extends whole == v * q + rem to the next limb |
| CorrectedDivision.LongStart | src/superlong-multiplicative.cpp:119-122 | before the loop, no digits and the default zero divide the empty prefix |
| CorrectedDivision.LongStep | src/superlong-multiplicative.cpp:122-146 | one fixed turn keeps the loop invariant |
| CorrectedDivision.LongTurn | src/superlong-multiplicative.cpp:122-146 | the arithmetic of one turn extends the division from the top k - 1 limbs to the top k |
| CorrectedDivision.FixedLongDivisionValue | src/superlong-multiplicative.cpp:122-147 | after k fixed turns the reversed digits q and the remainder r satisfy top-k-limbs == divisor * q + r, with r canonical, Positive and below the divisor |
| CorrectedDivision.FixedDivideQuoRem | src/superlong-multiplicative.cpp:104-156 | the fixed `divide_quo_rem` fails exactly on a zero divisor |
| CorrectedDivision.SignedDivisionArith | src/superlong-multiplicative.cpp:153-154 | the sign rules turn \|a\| == \|b\| * q + r into a == b * q' + r' |
| CorrectedDivision.FinishDivisionValue | src/superlong-multiplicative.cpp:148-155 | reversing, trimming and signing a loop state that divides \|a\| by \|b\| gives canonical q and r with a == b * q + r, \|r\| < \|b\|, and r zero or of a's sign |
| CorrectedDivision.FixedLongQuoRem | src/superlong-multiplicative.cpp:119-155 | on the long path (\|a\| >= \|b\|) the fixed division gives canonical q and r with a == b * q + r, \|r\| < \|b\|, and r zero or of a's sign |
| CorrectedDivision.FixedDivideValue | src/superlong-multiplicative.cpp:104-156 | the fixed `divide_quo_rem` is truncated division: it fails exactly on a zero divisor, and otherwise gives canonical q and r (a zero r is Positive) with a == b * q + r, \|r\| < \|b\|, and r of a's sign or zero |

## Left out

- The test driver (`tests/test_superlong.cpp`) and all console output are not part of this model. Some of its lines show up only as expectations the as-written code does not meet (see "## Findings").
- The copy and move constructors and the copy and move assignments (src/superlong-construct.cpp:13-33) are not modelled separately. On values they are the identity, and a `SuperLong` datatype value is copied by value.
- `reserve` calls (src/superlong-additive.cpp:34, :58 and src/superlong-multiplicative.cpp:13, :40): they change capacity, not contents.
- `operator+(int64_t)` and `operator-(int64_t)` (src/superlong.hpp:31-32), and the definitions of `operator+`/`operator-` on two values: their definitions are not among the source files. The model assumes they forward to `add`/`subtract` with `SuperLong(other)`, the way `operator*` and the others do.
- Exceptions (`std::invalid_argument`) are modelled as the `Failure` case of a `Result`.
- Multiplicative.MultiplyKaratsuba: the recursive branch (32 limbs or more) does not terminate, so it is modelled as the result `Diverges` rather than as a computation. Stack exhaustion is not modelled.
- Conversion.ToString requires normalised limbs. A value with top zero limbs cannot be built by the modelled operations, and printing one is not modelled.
- Early.EarlyParse requires `EarlyInput`: no character after the sign lies outside '0'..'9'. The earlier parser has no validation. On a non-digit its `uint8_t` arithmetic depends on `char` signedness, and a character such as '/' can keep the outer loop running for ever.
- The earlier class's other operators (superlong.hpp:25-28, 40-50) are only declared there, so they are not part of this model.
- The earlier parser's `digit_quo + '0'` is an `int` pushed into a `std::string`. The model keeps it as a character, because it is always below 10.
- In `src/`, `removeLeadingZeros` is defined both in src/superlong-additive.cpp:6-13 and in src/superlong-side.cpp:3-10, which would clash at link time. The model keeps both; the two definitions have the same effect.
- Corrected.FixedKaratsuba: its product is stated with the repeated-addition function `Mul`, which `Corrected.MulIsProduct` proves equal to `*`. The shape of the recursion is the fixed one (high half `divid256n(m)`, low half the first m limbs), not the source's `multi256n` call.
- Corrected.FixedToString: its ensures gives the last printed digit; the full contents are stated by `Corrected.FixedToStringRoundTrip` through the parser.
- Compare.Less, Compare.LessEq, Compare.Greater, Compare.GreaterEq: the agreement with integer order is stated for canonical values only. For a negated zero the operators order by sign, as `Compare.NegativeZeroBelowZero` shows.

## Findings

| source | as written | input that shows it | evidently intended | confidence | as-written member | corrected member |
|---|---|---|---|---|---|---|
| src/superlong-additive.cpp:30 | `addAbs` appends to a default-constructed result that already holds the limb 0, so the sum is 256 times too large | 100 + 200 gives a value denoting 76800 | the result starts with no limbs and denotes Val(a) + Val(b) | not executed | Additive.AddAbsScaled, Additive.AdditiveExamples | Corrected.FixedAddAbs, Corrected.FixedAddValue |
| src/superlong-additive.cpp:64-72 | the difference is a `uint32_t`, so `diff >= 0` always holds and no borrow is ever taken (and the result is also seeded with 0, as in `addAbs`) | \|-300\| - \|-100\|: limbs [44,1] - [100] give [200,1] (456, then scaled by 256), not 200 | borrow 1 when a limb difference is negative, starting from no limbs | not executed | Additive.SubtractAbsScaled, Additive.SubtractAbsExample | Corrected.FixedSubtractAbs, Corrected.FixedSubtractValue |
| src/superlong-additive.cpp:125-128 | when \|a\| < \|b\| and the signs agree, the Positive result of `subtractAbs` is negated, so it is always Negative | (-1) - (-3) comes out Negative, where 2 was meant | the result takes the sign opposite to a's | not executed | Additive.SubtractSmallerIsNegative, Corrected.SubtractIsNotAddNegated | Corrected.FixedSubtract, Corrected.FixedSubtractIsAddNegated |
| src/superlong-multiplicative.cpp:43-66 | the result and each partial product `temp` are cleared to no limbs, but every row is added with `add`, whose `addAbs` appends to a seed limb 0 and so scales each sum by 256; hence the product is 256^\|a\| * (sum of a's limbs) * Val(b) | 12 * 3 denotes 9216 | the product Val(a) * Val(b) | not executed | Multiplicative.MultiplySimpleValue, Multiplicative.MultiplyExample | Corrected.FixedMultiplySimple, Corrected.FixedMultiplyExample |
| src/superlong-multiplicative.cpp:81-88 | the high half is built with `multi256n` (a shift left) of x, not `divid256n`, so with 32 or more limbs each the recursion on (a, c) has longer operands and never ends | both operands of 32 limbs each | high half = x / 256^m, low half = x mod 256^m | not executed | Multiplicative.KaratsubaOperandsGrow | Corrected.FixedKaratsuba, Corrected.FixedMultiply |
| src/superlong-construct.cpp:138-140 | `negate` flips the sign of zero too, giving a Negative zero that `==` and `<` tell apart from 0 | `SuperLong(0LL).negate()` | zero stays Positive | not executed | Representation.NegatedZero, Compare.NegativeZeroBelowZero | Corrected.FixedNegated |
| src/superlong-construct.cpp:125-129 | the remainders of the scaled division have low limb 0, so every value of 10 or more prints with a trailing '0' | 11 prints with a last character '0' | print the decimal digits of the magnitude | not executed | Conversion.ToStringEndsInZero | Corrected.FixedToString, Corrected.FixedToStringRoundTrip, Corrected.ToStringEleven |
| src/superlong-multiplicative.cpp:123-143 | the remainder is brought down with the scaled `add`, and the digit search compares it with products from the scaled `multiply_simple`, so q and r do not satisfy a == b * q + r | 11 divided by 10: 10 * q + r is not 11 | truncated division: a == b * q + r with \|r\| < \|b\| | not executed | CorrectedDivision.DivideElevenByTen | CorrectedDivision.FixedDivideQuoRem, CorrectedDivision.FixedDivideValue |
| src/superlong-multiplicative.cpp:151-153 | the trimmed remainder takes a's sign even when it is zero, which gives a Negative zero | (-1) % 1 is a Negative `[0]` | a zero remainder stays the Positive zero | not executed | CorrectedDivision.NegativeZeroRemainder | CorrectedDivision.FixedDivideQuoRem, CorrectedDivision.FixedDivideValue |
