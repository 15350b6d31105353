# Rational, modelled in Dafny

This project models the `Rational` class of the node-ts_example repository. The class is a
numerator/denominator pair. It has a constructor that rejects a zero denominator, and
operations to reduce the fraction (`normalize`), to ask whether it is whole (`isWhole`,
`isDecimal`), to compare two fractions, and to parse a fraction from character arrays or
from a `"numerator/denominator"` string.

The repository has two variants of the class, and they behave differently, so the model
keeps them apart:

- **`RootRational`** models `Rational.ts` and `Rational.js`, its compiled JavaScript, which
  runs the same code line for line.
  - Its private `gcd` is Euclid's algorithm on JavaScript's truncating `%`, with no absolute
    value. The divisor it returns can therefore be negative.
  - `normalize` divides both fields by that divisor. It then replaces the numerator by its
    remainder modulo the new denominator. So 4/8 becomes 1/2, but 8/4 becomes 0/1.
  - Because `equals` compares normalized pairs, some fractions that differ by a whole number
    compare equal: 1/2 and 3/2 do, and every whole number equals every other. Others do
    not: -1/2 normalizes to 1/-2, so it does not equal 1/2.
- **`SrcRational`** models `src/class/Rational.ts`.
  - Its `greatestCommonDivisor` returns `Math.abs(a)` at the base case, so it is never
    negative.
  - `normalize` makes the denominator positive but leaves the numerator's sign alone. So
    4/-8 becomes 1/2, while -1/-2 becomes -1/2.
  - It adds `toString`, and an `_equals(numerator, denominator)` beside `equals(r)`.

Every operation is pure: no method changes a field. The model is therefore a `datatype` per
variant with module-level functions, and a function for each method.
- The constructor's `throw` becomes `Err(ZeroDenominator)`.
- A `parseInt` that would give `NaN` becomes `Err(NotANumber)`, via `Option`.

Helper modules:
- `Outcomes` holds these result types.
- `JsNumbers` holds JavaScript's truncating remainder `JsRem` and exact division
  `ExactDiv`, plus the divisibility and greatest-common-divisor theory that both variants
  rely on.
- `JsText` models the string built-ins the class calls:
  - `parseInt` (decimal);
  - `split` on a one-character separator;
  - `join`;
  - the template-literal rendering of an integer.

Where the class's intent and its code differ, the model follows the code:
- The comment at `Rational.ts:43` says the reduced numerator is "no longer divisible by the
  denominator". The code instead takes a remainder, which discards the whole part. The
  model keeps the remainder. It proves the intended bound (`NormalizeSpec`), and it proves
  that the whole part is lost for some inputs (`DemoNormalizeWhole`, `NormalizeWhole`,
  `EqualsIgnoresWholePart`) but not for others (`EqualsKeepsSomeWholeParts`).
- `parseRationalString("6/9/2")` ignores the third piece rather than rejecting the input
  (`ParseRationalStringExtraPieces`).
- A string with no `/` has an `undefined` denominator, which `parseInt` turns into `NaN`.
  The model gives `Err(NotANumber)` rather than a Rational holding `NaN`.
- Constructing with a `NaN` denominator does not throw in JavaScript, because `NaN === 0`
  is false. A zero denominator throws even when the numerator is `NaN`. `FromParsed` keeps
  this order.

## Model

| member | source | states |
|---|---|---|
| RootRational.New | Rational.ts:19-25 | fails with ZeroDenominator exactly when the denominator is 0; otherwise stores both values unchanged |
| RootRational.Gcd | Rational.ts:84-89 | the absolute value of the result is the greatest common divisor of a and b (every common divisor divides it); the result is 0 only for gcd(0, 0) |
| RootRational.GcdHomogeneous | Rational.js:69-74 | gcd(k*a, k*b) = k*gcd(a, b) for every nonzero k, sign included, so the sign of the result is not normalized |
| RootRational.GcdKeepsSign | Rational.ts:84-89 | gcd(-4, 8) = -4 while gcd(4, -8) = 4: the sign follows the last nonzero remainder |
| RootRational.Normalize | Rational.ts:38-45 | never throws: the reduced denominator is nonzero |
| RootRational.NormalizeSpec | Rational.ts:38-45 | the new denominator times gcd is the old denominator; the new numerator is smaller than the denominator in absolute value; the pair is in lowest terms; the input minus the result times gcd is a multiple of the denominator; the numerator's sign follows the signs of the input and of gcd |
| RootRational.NormalizeProper | Rational.js:31-37 | for a proper fraction (abs numerator < abs denominator) normalize keeps the value |
| RootRational.GcdOfMultiple | Rational.ts:84-89 | when the denominator divides the numerator, gcd returns the denominator itself, sign included |
| RootRational.NormalizeWhole | Rational.ts:38-45 | every whole number normalizes to exactly 0/1 |
| RootRational.NormalizeScaled | Rational.ts:38-45 | multiplying both fields by the same nonzero factor leaves the normalized pair unchanged |
| RootRational.NormalizeIdempotent | Rational.ts:38-45 | normalizing twice equals normalizing once, even with the remainder step and a negative gcd |
| RootRational.NormalizeNegativeDenominator | Rational.ts:38-45 | -4/8 normalizes to 1/-2: the sign of gcd can leave the denominator negative |
| RootRational.IsWhole | Rational.ts:48-50 | true exactly when the denominator divides the numerator |
| RootRational.IsDecimal | Rational.ts:53-55 | true exactly when isWhole is false, that is when the denominator does not divide the numerator |
| RootRational.Equals | Rational.ts:58-63 | fails with ZeroDenominator exactly when the other denominator is 0; fractions of equal value compare equal |
| RootRational.EqualValuesNormalizeAlike | Rational.js:47-52 | fractions with equal cross products have identical normalized pairs |
| RootRational.EqualsRational | Rational.ts:66-68 | is equals applied to the other's fields, and is true exactly when the normalized pairs are identical |
| RootRational.EqualsIgnoresWholePart | Rational.ts:58-63 | the converse of value equality fails: 2/1 equals 4/1 and 1/2 equals 3/2 |
| RootRational.EqualsKeepsSomeWholeParts | Rational.ts:58-63 | -1/2 and 1/2, which differ by 1, do not compare equal, because gcd(-1, 2) = -1 turns -1/2 into 1/-2 |
| RootRational.EqualsOwnNormalize | Rational.ts:58-68 | every Rational equals its own normalized form |
| RootRational.EqualsRationalReflexive | Rational.ts:66-68 | every Rational equals itself |
| RootRational.EqualsRationalSymmetric | Rational.ts:66-68 | x equals y exactly when y equals x |
| RootRational.EqualsRationalTransitive | Rational.ts:66-68 | equality is transitive |
| RootRational.FromParsed | Rational.ts:80 | a denominator of 0 throws even beside a NaN numerator; otherwise any NaN gives NotANumber; otherwise the constructor's result |
| RootRational.ParseRational | Rational.ts:71-75 | succeeds exactly when both joined arrays parse and the denominator is not 0; the fields are the parsed values |
| RootRational.ParseRationalDigits | Rational.js:58-62 | arrays of digit strings give the decimal values of the joined numerals |
| RootRational.ParseRationalString | Rational.ts:78-81 | text without '/' is NotANumber; on success the fields are the parsed first and second pieces |
| RootRational.ParseRationalStringPieces | Rational.js:64-67 | "n/d" parses n and d as they stand, without reducing them |
| RootRational.ParseRationalStringExtraPieces | Rational.ts:79 | pieces after the second '/' are ignored |
| RootRational.DemoNormalize | Rational.ts:93-97 | 4/8 normalizes to 1/2 |
| RootRational.DemoNormalizeWhole | Rational.ts:38-45 | 8/4 normalizes to 0/1, not 2/1 |
| RootRational.DemoIsWhole | Rational.js:83-86 | 4/8 is not whole and is a decimal |
| RootRational.DemoEquals | Rational.ts:105-106 | 4/8 equals 2/4 |
| RootRational.DemoParse | Rational.ts:108-110 | "6/9" parses to the unreduced 6/9 |
| SrcRational.New | src/class/Rational.ts:11-17 | fails with ZeroDenominator exactly when the denominator is 0; otherwise stores both values unchanged |
| SrcRational.GreatestCommonDivisor | src/class/Rational.ts:85-87 | the result is the non-negative greatest common divisor (every common divisor divides it); 0 only for (0, 0) |
| SrcRational.GcdBaseCase | src/class/Rational.ts:86 | gcd(a, 0) = abs(a), and the result is positive once b is nonzero |
| SrcRational.GcdSymmetric | src/class/Rational.ts:85-87 | the result does not depend on the order of the arguments |
| SrcRational.GcdGreatest | src/class/Rational.ts:85-87 | no common divisor is larger in absolute value than the result |
| SrcRational.Normalize | src/class/Rational.ts:30-36 | the resulting denominator is positive |
| SrcRational.NormalizeSpec | src/class/Rational.ts:30-36 | the numerator times gcd is the old numerator; the denominator times gcd is the old denominator's absolute value; the pair is in lowest terms |
| SrcRational.NormalizeIdempotent | src/class/Rational.ts:30-36 | normalizing twice equals normalizing once |
| SrcRational.NormalizePreservesValue | src/class/Rational.ts:30-36 | with a positive denominator the value is kept |
| SrcRational.NormalizeNegatesValue | src/class/Rational.ts:35 | with a negative denominator the value is negated, since only the denominator's sign is dropped |
| SrcRational.NormalizeExamples | src/class/Rational.ts:30-36 | 4/-8 normalizes to 1/2 and 6/9 to 2/3 |
| SrcRational.IsWhole | src/class/Rational.ts:39-41 | true exactly when the denominator is nonzero and divides the numerator |
| SrcRational.IsDecimal | src/class/Rational.ts:44-46 | true exactly when the denominator is 0 or does not divide the numerator |
| SrcRational.Equals | src/class/Rational.ts:57-62 | true exactly when x.numerator*abs(y.denominator) = y.numerator*abs(x.denominator) |
| SrcRational.NormalizedAlikeIff | src/class/Rational.ts:57-62 | normalized pairs are identical exactly when those cross products agree, in both directions |
| SrcRational.EqualsReflexive | src/class/Rational.ts:57-62 | every Rational equals itself |
| SrcRational.EqualsSymmetric | src/class/Rational.ts:57-62 | x equals y exactly when y equals x |
| SrcRational.EqualsTransitive | src/class/Rational.ts:57-62 | equality is transitive |
| SrcRational.EqualsOwnNormalize | src/class/Rational.ts:57-62 | every Rational equals its own normalized form |
| SrcRational.EqualsSignExamples | src/class/Rational.ts:57-62 | 4/-8 equals 1/2 and 4/8 equals 2/4, but 1/2 does not equal -1/-2 |
| SrcRational.EqualsPair | src/class/Rational.ts:49-54 | fails with ZeroDenominator exactly when the denominator is 0; otherwise agrees with equals on the Rational built from the pair |
| SrcRational.FromParsed | src/class/Rational.ts:76 | a denominator of 0 throws even beside a NaN numerator; otherwise any NaN gives NotANumber; otherwise the constructor's result |
| SrcRational.ParseRational | src/class/Rational.ts:65-69 | succeeds exactly when both joined arrays parse and the denominator is not 0; the fields are the parsed values |
| SrcRational.ParseRationalDigits | src/class/Rational.ts:65-69 | arrays of digit strings give the decimal values of the joined numerals |
| SrcRational.ParseRationalString | src/class/Rational.ts:72-77 | text without '/' is NotANumber; on success the fields are the parsed first and second pieces |
| SrcRational.ParseRationalStringPieces | src/class/Rational.ts:72-77 | "n/d" parses n and d as they stand, without reducing them |
| SrcRational.ParseRationalStringExtraPieces | src/class/Rational.ts:73 | pieces after the second '/' are ignored |
| SrcRational.ToString | src/class/Rational.ts:80-82 | splitting the output at '/' gives exactly the rendered numerator and denominator |
| SrcRational.ParseToString | src/class/Rational.ts:72-82 | parsing the output of toString gives back the same Rational |
| SrcRational.ParseExample | src/class/Rational.ts:72-77 | "6/9" parses to the unreduced 6/9 |
| SrcRational.ParseExtraPieceExample | src/class/Rational.ts:73-76 | "6/9/2" parses to 6/9 |
| SrcRational.ParseNoSlashExample | src/class/Rational.ts:73-75 | "6" is not a number: the missing second piece parses to NaN |
| SrcRational.ParseNoDigitsExample | src/class/Rational.ts:74-75 | "a/b" is not a number |
| SrcRational.ParseZeroExample | src/class/Rational.ts:76 | "6/0" throws like the constructor |
| JsNumbers.JsRem | Rational.ts:44 | the remainder is smaller in absolute value than the divisor and takes the sign of the dividend |
| JsNumbers.JsRemDivision | Rational.ts:88 | the dividend minus the remainder is a multiple of the divisor |
| JsNumbers.GcdStep | Rational.ts:88 | (a, b) and (b, a % b) have the same common divisors and the same gcd |
| JsNumbers.ExactDiv | Rational.ts:40-41 | dividing by a divisor gives the quotient q with n = d*q |
| JsNumbers.ReducedCoprime | Rational.ts:39-41 | dividing both numbers by their gcd leaves a pair whose gcd is 1 |
| JsNumbers.LowestTermsUnique | Rational.ts:58-63 | two pairs in lowest terms with equal cross products are equal up to a common sign |
| JsNumbers.Abs | src/class/Rational.ts:86 | `Math.abs`: a non-negative result equal to x or -x |
| JsText.ParseIntDigits | Rational.ts:72-73 | `parseInt` of a non-empty all-digit string is its decimal value |
| JsText.ParseIntNegative | src/class/Rational.ts:74-75 | `parseInt` of a minus sign followed by digits is the negated decimal value |
| JsText.ParseIntPositive | src/class/Rational.ts:66-67 | `parseInt` of a plus sign followed by digits is the decimal value |
| JsText.ParseIntStops | Rational.ts:80 | `parseInt` of an optional sign ("", "-" or "+") and digits followed by text that starts with a non-digit ignores that text: the result is that of the sign and digits alone |
| JsText.ParseIntSignNaN | src/class/Rational.ts:74-75 | `parseInt` of a sign followed by no digit ("-", "-x", "+/") is NaN |
| JsText.ParseIntNaN | Rational.ts:80 | `parseInt` of text that starts with neither a sign nor a digit is NaN |
| JsText.Join | Rational.ts:72-73 | `join` of no pieces is the empty string and of one piece is that piece; all-digit pieces with an all-digit separator (here `''`) join to all digits |
| JsText.JoinAppend | Rational.ts:72-73 | `join` builds left to right: appending a piece appends the separator and then the piece |
| JsText.NatToString | src/class/Rational.ts:81 | a non-negative integer renders as a non-empty digit string with its decimal value and no leading zero |
| JsText.IntToString | src/class/Rational.ts:81 | `${n}`: a leading '-' exactly when n < 0, then the magnitude in decimal with no leading zero, and no '/' anywhere |
| JsText.Split | Rational.ts:79 | at least one piece, and no piece contains the separator |
| JsText.JoinSplit | Rational.ts:79 | joining the pieces of a split with the separator restores the string |
| JsText.ParseIntOfIntToString | src/class/Rational.ts:74-81 | parsing the decimal rendering of an integer gives the integer back |

## Left out

- Floating point. JavaScript numbers are IEEE-754 doubles; the model uses unbounded
  integers. It does not model non-integral fields, rounding above 2^53, `Infinity`,
  or `-0`. The values `-0` and `0` compare equal under `===`, and both render as "0".
- SrcRational.ParseToString: the round trip holds in JavaScript only while both fields are
  below 1e21 in absolute value. From 1e21 on, `${n}` uses exponent notation ("1e+21"),
  which `parseInt` reads back as 1. `JsText.IntToString` always renders plain decimal
  digits.
- Fields that hold `NaN`. In JavaScript, `new Rational(1, NaN)` succeeds. The model gives
  `Err(NotANumber)` instead of building a Rational whose arithmetic is `NaN`.
- `parseInt` is modelled only for an optional sign followed by decimal digits, with
  trailing text ignored. It does not skip leading whitespace. It does not read the `0x`
  prefix, which the root class's `parseInt` (called with no radix) would accept.
- The getters `getNumerator` and `getDenominator` are field selectors of the datatype.
- The console output at the end of `Rational.ts` and `Rational.js` is not modelled. Its
  values are proved as the `Demo` lemmas.
- The text of the thrown error messages is not modelled. Only which error occurs is.
- The public, assignable fields of the src class are not modelled as mutable. Nothing in
  the class assigns them after construction. `SrcRational.IsWhole` and
  `SrcRational.IsDecimal` still handle a zero denominator as the code does.
- `src/class/human.ts` is not part of this model.
- RootRational.Equals: the contract gives one direction only, that equal values compare
  equal. The converse is false for this code, as `EqualsIgnoresWholePart` shows.
  `EqualsRational` gives the exact condition.
