/** The exported `Rational` class of src/class/Rational.ts.

    Like the root class it stores an unreduced numerator/denominator pair,
    but its `greatestCommonDivisor` returns `Math.abs(a)` at the base case, so
    the divisor is never negative, and its `normalize` makes the denominator
    positive without changing the sign of the numerator: 4/-8 normalizes to
    1/2. It also renders itself as "numerator/denominator". The model keeps
    these behaviours as written. */
module SrcRational {
  import opened Outcomes
  import opened JsNumbers
  import opened JsText

  /** The two public fields; the getters return them. */
  datatype Rational = Rational(numerator: int, denominator: int)

  /** What the constructor guarantees of every Rational it builds. */
  predicate Valid(x: Rational) {
    x.denominator != 0
  }

  /** `new Rational(numerator, denominator)`: throws "Denominator cannot be
      zero." on a zero denominator, otherwise stores both values unchanged. */
  function New(numerator: int, denominator: int): (r: Result<Rational>)
    ensures r.Err? <==> denominator == 0
    ensures r.Err? ==> r.error == ZeroDenominator
    ensures r.Ok? ==> Valid(r.value)
    ensures r.Ok? ==> r.value.numerator == numerator && r.value.denominator == denominator
  {
    if denominator == 0 then Err(ZeroDenominator) else Ok(Rational(numerator, denominator))
  }

  /** `greatestCommonDivisor(a, b)`: |a| when b is zero, otherwise recurse on
      (b, a % b). The result is the non-negative greatest common divisor. */
  function GreatestCommonDivisor(a: int, b: int): (g: int)
    ensures IsGcd(g, a, b)
    ensures g == 0 <==> a == 0 && b == 0
    decreases Abs(b)
  {
    if b == 0 then
      GcdBase(a);
      Abs(a)
    else
      GcdStep(a, b);
      var g := GreatestCommonDivisor(b, JsRem(a, b));
      IsGcdZero(g, a, b);
      g
  }

  /** `normalize()`: divide both fields by the greatest common divisor and
      drop the sign of the denominator (but not of the numerator). */
  function Normalize(x: Rational): (r: Rational)
    requires Valid(x)
    ensures r.denominator > 0
  {
    var g := GreatestCommonDivisor(x.numerator, x.denominator);
    ReducedCoprime(x.numerator, x.denominator, g);
    var n := ExactDiv(x.numerator, g);
    var d := ExactDiv(x.denominator, g);
    Rational(n, if d > 0 then d else -d)
  }

  /** `isWhole()`: the denominator is nonzero and divides the numerator. The
      fields are public in this class, so the zero check is not redundant. */
  function IsWhole(x: Rational): (w: bool)
    ensures w <==> x.denominator != 0 && Divides(x.denominator, x.numerator)
  {
    x.denominator != 0 && (JsRemZero(x.numerator, x.denominator); JsRem(x.numerator, x.denominator) == 0)
  }

  /** `isDecimal()`: the negation of `isWhole()`. */
  function IsDecimal(x: Rational): (d: bool)
    ensures d <==> x.denominator == 0 || !Divides(x.denominator, x.numerator)
  {
    !IsWhole(x)
  }

  /** `equals(r)`: compares the normalized pairs field by field. That is the
      same as comparing the cross products of the numerators with the
      absolute values of the denominators. */
  function Equals(x: Rational, y: Rational): (e: bool)
    requires Valid(x) && Valid(y)
    ensures e <==> x.numerator * Abs(y.denominator) == y.numerator * Abs(x.denominator)
  {
    var a := Normalize(x);
    var b := Normalize(y);
    NormalizedAlikeIff(x, y);
    a.numerator == b.numerator && a.denominator == b.denominator
  }

  /** `_equals(numerator, denominator)`: builds the other Rational (which
      throws on a zero denominator), then compares as `equals` does. */
  function EqualsPair(x: Rational, numerator: int, denominator: int): (r: Result<bool>)
    requires Valid(x)
    ensures r.Err? <==> denominator == 0
    ensures r.Err? ==> r.error == ZeroDenominator
    ensures r.Ok? ==> r.value == Equals(x, Rational(numerator, denominator))
  {
    match New(numerator, denominator)
    case Err(e) => Err(e)
    case Ok(other) =>
      var a := Normalize(x);
      var b := Normalize(other);
      Ok(a.numerator == b.numerator && a.denominator == b.denominator)
  }

  /** Both parsers end in `new Rational(parseInt(..), parseInt(..))`. A zero
      denominator throws even when the numerator is NaN; any other NaN is
      reported as `NotANumber`. */
  function FromParsed(numerator: Option<int>, denominator: Option<int>): (r: Result<Rational>)
    ensures r.Err? && r.error == ZeroDenominator <==> denominator == Some(0)
    ensures r.Ok? <==> numerator.Some? && denominator.Some? && denominator.value != 0
    ensures r.Ok? ==> r == New(numerator.value, denominator.value)
  {
    if denominator == Some(0) then Err(ZeroDenominator)
    else if numerator.None? || denominator.None? then Err(NotANumber)
    else New(numerator.value, denominator.value)
  }

  /** `parseRational(chars1, chars2)`: join each array and parse it in base 10. */
  function ParseRational(chars1: seq<string>, chars2: seq<string>): (r: Result<Rational>)
    ensures r.Ok? <==> ParseInt(Join(chars1, "")).Some? && ParseInt(Join(chars2, "")).Some?
                       && ParseInt(Join(chars2, "")) != Some(0)
    ensures r.Ok? ==> Valid(r.value)
    ensures r.Ok? ==> ParseInt(Join(chars1, "")) == Some(r.value.numerator)
    ensures r.Ok? ==> ParseInt(Join(chars2, "")) == Some(r.value.denominator)
  {
    FromParsed(ParseInt(Join(chars1, "")), ParseInt(Join(chars2, "")))
  }

  /** `_parseRational(str)`: the first '/'-separated piece is the numerator,
      the second the denominator; a missing second piece is `undefined`,
      which `parseInt` turns into NaN. */
  function ParseRationalString(str: string): (r: Result<Rational>)
    ensures '/' !in str ==> r == Err(NotANumber)
    ensures r.Ok? ==> Valid(r.value) && |Split(str, '/')| >= 2
    ensures r.Ok? ==> ParseInt(Split(str, '/')[0]) == Some(r.value.numerator)
    ensures r.Ok? ==> ParseInt(Split(str, '/')[1]) == Some(r.value.denominator)
  {
    var pieces := Split(str, '/');
    assert '/' !in str ==> pieces == [str] by {
      if '/' !in str { SplitNone(str, '/'); }
    }
    FromParsed(ParseInt(pieces[0]), if |pieces| >= 2 then ParseInt(pieces[1]) else None)
  }

  /** `toString()`: the stored, unnormalized fields around a '/'. */
  function ToString(x: Rational): (s: string)
    ensures Split(s, '/') == [IntToString(x.numerator), IntToString(x.denominator)]
  {
    var s := IntToString(x.numerator) + "/" + IntToString(x.denominator);
    assert s == IntToString(x.numerator) + ['/'] + IntToString(x.denominator);
    SplitCons(IntToString(x.numerator), '/', IntToString(x.denominator));
    SplitNone(IntToString(x.denominator), '/');
    s
  }

  // ---------------------------------------------------------------------
  // greatestCommonDivisor

  /** gcd(a, 0) = |a|, and the result is positive once b is nonzero. */
  lemma GcdBaseCase(a: int, b: int)
    ensures GreatestCommonDivisor(a, 0) == Abs(a)
    ensures b != 0 ==> GreatestCommonDivisor(a, b) > 0
  {
  }

  /** The result does not depend on the order of the arguments. */
  lemma GcdSymmetric(a: int, b: int)
    ensures GreatestCommonDivisor(a, b) == GreatestCommonDivisor(b, a)
  {
    var g, h := GreatestCommonDivisor(a, b), GreatestCommonDivisor(b, a);
    IsGcdSwap(h, b, a);
    IsGcdUnique(g, h, a, b);
  }

  /** No common divisor is larger than the result. */
  lemma GcdGreatest(a: int, b: int, c: int)
    requires a != 0 || b != 0
    requires Divides(c, a) && Divides(c, b)
    ensures Abs(c) <= GreatestCommonDivisor(a, b)
  {
    IsGcdGreatest(GreatestCommonDivisor(a, b), a, b, c);
  }

  // ---------------------------------------------------------------------
  // normalize

  /** The intermediate values of `normalize`: the divisor and the two exact
      quotients by it. */
  lemma NormalizeSteps(x: Rational) returns (g: int, n: int, d: int)
    requires Valid(x)
    ensures g == GreatestCommonDivisor(x.numerator, x.denominator) && g > 0 && d != 0
    ensures x.numerator == g * n && x.denominator == g * d
    ensures IsGcd(1, n, Abs(d))
    ensures Normalize(x) == Rational(n, Abs(d))
  {
    g := GreatestCommonDivisor(x.numerator, x.denominator);
    ReducedCoprime(x.numerator, x.denominator, g);
    n := ExactDiv(x.numerator, g);
    d := ExactDiv(x.denominator, g);
    IsGcdAbs(1, n, d);
  }

  /** Dividing by a positive factor keeps the signs of both parts. */
  lemma PositiveFactor(num: int, den: int, g: int, n: int, d: int)
    requires g > 0 && num == g * n && den == g * d
    ensures n * g == num && Abs(d) * g == Abs(den)
    ensures (den > 0 <==> d > 0) && (den < 0 <==> d < 0)
    ensures num * Abs(d) == (if d > 0 then n * den else -(n * den))
  {
    MulSwap(g, n, d);
    if d < 0 {
      assert g * (-d) == -(g * d);
      assert (g * n) * (-d) == -((g * n) * d);
    } else if d > 0 {
      assert g * d > 0;
    }
  }

  /** What `normalize` returns: a positive denominator, both fields divided
      by the greatest common divisor (the denominator's sign dropped), and a
      pair in lowest terms. */
  lemma NormalizeSpec(x: Rational)
    requires Valid(x)
    ensures var r, g := Normalize(x), GreatestCommonDivisor(x.numerator, x.denominator);
      && r.denominator > 0
      && r.numerator * g == x.numerator
      && r.denominator * g == Abs(x.denominator)
      && IsGcd(1, r.numerator, r.denominator)
  {
    var g, n, d := NormalizeSteps(x);
    PositiveFactor(x.numerator, x.denominator, g, n, d);
  }

  /** Normalizing twice is the same as normalizing once. */
  lemma NormalizeIdempotent(x: Rational)
    requires Valid(x)
    ensures Normalize(Normalize(x)) == Normalize(x)
  {
    var r := Normalize(x);
    NormalizeSpec(x);
    var g, n, d := NormalizeSteps(r);
    IsGcdUnique(g, 1, r.numerator, r.denominator);
  }

  /** With a positive denominator, `normalize` preserves the value. */
  lemma NormalizePreservesValue(x: Rational)
    requires x.denominator > 0
    ensures x.numerator * Normalize(x).denominator == Normalize(x).numerator * x.denominator
  {
    var g, n, d := NormalizeSteps(x);
    PositiveFactor(x.numerator, x.denominator, g, n, d);
  }

  /** With a negative denominator, `normalize` negates the value: only the
      denominator's sign is dropped. */
  lemma NormalizeNegatesValue(x: Rational)
    requires x.denominator < 0
    ensures x.numerator * Normalize(x).denominator == -(Normalize(x).numerator * x.denominator)
  {
    var g, n, d := NormalizeSteps(x);
    PositiveFactor(x.numerator, x.denominator, g, n, d);
  }

  /** 4/-8 normalizes to 1/2; 6/9 to 2/3. */
  lemma NormalizeExamples()
    ensures Normalize(Rational(4, -8)) == Rational(1, 2)
    ensures Normalize(Rational(6, 9)) == Rational(2, 3)
  {
    assert JsRem(4, -8) == 4 && JsRem(-8, 4) == 0;
    assert GreatestCommonDivisor(4, -8) == 4;
    assert JsRem(6, 9) == 6 && JsRem(9, 6) == 3 && JsRem(6, 3) == 0;
    assert GreatestCommonDivisor(6, 9) == 3;
  }

  // ---------------------------------------------------------------------
  // equals

  /** Two normalized pairs agree exactly when the cross products of the
      numerators with the absolute denominators agree. */
  lemma NormalizedAlikeIff(x: Rational, y: Rational)
    requires Valid(x) && Valid(y)
    ensures Normalize(x) == Normalize(y) <==> x.numerator * Abs(y.denominator) == y.numerator * Abs(x.denominator)
  {
    var g1, a, b := NormalizeSteps(x);
    var g2, c, d := NormalizeSteps(y);
    AbsMul(g1, b);
    AbsMul(g2, d);
    CrossCancel(x.numerator, Abs(x.denominator), y.numerator, Abs(y.denominator), g1, a, Abs(b), g2, c, Abs(d));
    if a * Abs(d) == c * Abs(b) {
      LowestTermsUnique(a, Abs(b), c, Abs(d));
    }
  }

  lemma EqualsReflexive(x: Rational)
    requires Valid(x)
    ensures Equals(x, x)
  {
  }

  lemma EqualsSymmetric(x: Rational, y: Rational)
    requires Valid(x) && Valid(y)
    ensures Equals(x, y) == Equals(y, x)
  {
  }

  /** Every Rational equals its own normalized form. */
  lemma EqualsOwnNormalize(x: Rational)
    requires Valid(x)
    ensures Valid(Normalize(x)) && Equals(x, Normalize(x))
  {
    NormalizeIdempotent(x);
  }

  lemma EqualsTransitive(x: Rational, y: Rational, z: Rational)
    requires Valid(x) && Valid(y) && Valid(z)
    requires Equals(x, y) && Equals(y, z)
    ensures Equals(x, z)
  {
    NormalizedAlikeIff(x, y);
    NormalizedAlikeIff(y, z);
    NormalizedAlikeIff(x, z);
  }

  /** Because the numerator's sign is kept, 4/-8 equals 1/2 while the equal
      values 1/2 and -1/-2 do not compare equal. */
  lemma EqualsSignExamples()
    ensures Equals(Rational(4, -8), Rational(1, 2))
    ensures !Equals(Rational(1, 2), Rational(-1, -2))
    ensures Equals(Rational(4, 8), Rational(2, 4))
  {
  }

  // ---------------------------------------------------------------------
  // parsing and printing

  /** A string with one '/' parses its two pieces as they stand: they are
      not trimmed or reduced. */
  lemma ParseRationalStringPieces(numeral: string, denominator: string)
    requires '/' !in numeral && '/' !in denominator
    ensures ParseRationalString(numeral + "/" + denominator) == FromParsed(ParseInt(numeral), ParseInt(denominator))
  {
    var s := numeral + "/" + denominator;
    assert s == numeral + ['/'] + denominator;
    SplitCons(numeral, '/', denominator);
    SplitNone(denominator, '/');
    assert Split(s, '/') == [numeral, denominator];
  }

  /** Pieces after the second '/' are ignored. */
  lemma ParseRationalStringExtraPieces(numeral: string, denominator: string, rest: string)
    requires '/' !in numeral && '/' !in denominator
    ensures ParseRationalString(numeral + "/" + denominator + "/" + rest) == FromParsed(ParseInt(numeral), ParseInt(denominator))
  {
    var s := numeral + "/" + denominator + "/" + rest;
    assert s == numeral + ['/'] + (denominator + ['/'] + rest);
    SplitCons(numeral, '/', denominator + ['/'] + rest);
    SplitCons(denominator, '/', rest);
    assert Split(s, '/')[..2] == [numeral, denominator];
  }

  /** Printing and parsing back restores the stored fields. */
  lemma ParseToString(x: Rational)
    requires Valid(x)
    ensures ParseRationalString(ToString(x)) == Ok(x)
  {
    ParseIntOfIntToString(x.numerator);
    ParseIntOfIntToString(x.denominator);
  }

  /** Arrays of digit strings parse to the values of the joined numerals. */
  lemma ParseRationalDigits(chars1: seq<string>, chars2: seq<string>)
    requires forall k :: 0 <= k < |chars1| ==> AllDigits(chars1[k])
    requires forall k :: 0 <= k < |chars2| ==> AllDigits(chars2[k])
    requires |Join(chars1, "")| > 0 && |Join(chars2, "")| > 0
    ensures ParseRational(chars1, chars2) == New(DecimalValue(Join(chars1, "")), DecimalValue(Join(chars2, "")))
  {
    ParseIntDigits(Join(chars1, ""));
    ParseIntDigits(Join(chars2, ""));
  }

  /** "6/9" parses to the unreduced 6/9. */
  lemma ParseExample()
    ensures ParseRationalString("6/9") == Ok(Rational(6, 9))
  {
    assert "6/9" == "6" + ['/'] + "9";
    SplitCons("6", '/', "9");
    SplitNone("9", '/');
    ParseIntDigits("6");
    ParseIntDigits("9");
    assert DecimalValue("6") == 6 && DecimalValue("9") == 9;
  }

  /** A third piece is ignored: "6/9/2" also parses to 6/9. */
  lemma ParseExtraPieceExample()
    ensures ParseRationalString("6/9/2") == Ok(Rational(6, 9))
  {
    assert "6/9/2" == "6" + "/" + "9" + "/" + "2";
    ParseRationalStringExtraPieces("6", "9", "2");
    ParseIntDigits("6");
    ParseIntDigits("9");
    assert DecimalValue("6") == 6 && DecimalValue("9") == 9;
  }

  /** Text without a '/' is not a number. */
  lemma ParseNoSlashExample()
    ensures ParseRationalString("6") == Err(NotANumber)
  {
    SplitNone("6", '/');
  }

  /** Pieces without digits are not a number. */
  lemma ParseNoDigitsExample()
    ensures ParseRationalString("a/b") == Err(NotANumber)
  {
    assert "a/b" == "a" + ['/'] + "b";
    SplitCons("a", '/', "b");
    SplitNone("b", '/');
    assert ParseInt("a") == None;
  }

  /** A zero denominator throws, as the constructor does. */
  lemma ParseZeroExample()
    ensures ParseRationalString("6/0") == Err(ZeroDenominator)
  {
    assert "6/0" == "6" + ['/'] + "0";
    SplitCons("6", '/', "0");
    SplitNone("0", '/');
    ParseIntDigits("0");
    assert DecimalValue("0") == 0;
  }
}
