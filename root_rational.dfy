/** The `Rational` class of the repository root (Rational.ts and the
    JavaScript it compiles to, Rational.js, which behave identically).

    A Rational is an immutable numerator/denominator pair. Its `gcd` is
    Euclid's algorithm without an absolute value, so the divisor it returns
    may be negative, and `normalize` divides by that divisor and then keeps
    only the truncating remainder of the numerator: 8/4 normalizes to 0/1.
    As a consequence `equals` identifies some fractions that differ by a
    whole number (1/2 and 3/2, but not -1/2 and 1/2). The model keeps these
    behaviours as written. */
module RootRational {
  import opened Outcomes
  import opened JsNumbers
  import opened JsText

  /** The two fields the constructor stores; the getters return them. */
  datatype Rational = Rational(numerator: int, denominator: int)

  /** What the constructor guarantees of every Rational it builds. */
  predicate Valid(x: Rational) {
    x.denominator != 0
  }

  /** `new Rational(numerator, denominator)`: throws on a zero denominator,
      otherwise stores both values unchanged. */
  function New(numerator: int, denominator: int): (r: Result<Rational>)
    ensures r.Err? <==> denominator == 0
    ensures r.Err? ==> r.error == ZeroDenominator
    ensures r.Ok? ==> Valid(r.value)
    ensures r.Ok? ==> r.value.numerator == numerator && r.value.denominator == denominator
  {
    if denominator == 0 then Err(ZeroDenominator) else Ok(Rational(numerator, denominator))
  }

  /** The private `gcd(a, b)`: Euclid's algorithm on the truncating
      remainder. Its absolute value is the greatest common divisor, but its
      sign is whatever the last nonzero remainder had. */
  function Gcd(a: int, b: int): (g: int)
    ensures IsGcd(Abs(g), a, b)
    ensures g == 0 <==> a == 0 && b == 0
    decreases Abs(b)
  {
    if b == 0 then
      GcdBase(a);
      a
    else
      GcdStep(a, b);
      var g := Gcd(b, JsRem(a, b));
      IsGcdZero(Abs(g), a, b);
      g
  }

  /** `normalize()`: divide both fields by `gcd`, then replace the numerator
      by its truncating remainder modulo the new denominator. It never throws:
      the new denominator is never zero. */
  function Normalize(x: Rational): (r: Rational)
    requires Valid(x)
    ensures Valid(r)
  {
    var g := Gcd(x.numerator, x.denominator);
    ReducedCoprime(x.numerator, x.denominator, g);
    var n := ExactDiv(x.numerator, g);
    var d := ExactDiv(x.denominator, g);
    Rational(JsRem(n, d), d)
  }

  /** `isWhole()`: the numerator's remainder by the denominator is zero. */
  function IsWhole(x: Rational): (w: bool)
    requires Valid(x)
    ensures w <==> Divides(x.denominator, x.numerator)
  {
    JsRemZero(x.numerator, x.denominator);
    JsRem(x.numerator, x.denominator) == 0
  }

  /** `isDecimal()`: the numerator's remainder by the denominator is not zero. */
  function IsDecimal(x: Rational): (d: bool)
    requires Valid(x)
    ensures d <==> !IsWhole(x)
    ensures d <==> !Divides(x.denominator, x.numerator)
  {
    JsRemZero(x.numerator, x.denominator);
    JsRem(x.numerator, x.denominator) != 0
  }

  /** `equals(numerator, denominator)`: builds the other Rational (which
      throws on a zero denominator) and compares the normalized pairs field
      by field. */
  function Equals(x: Rational, numerator: int, denominator: int): (r: Result<bool>)
    requires Valid(x)
    ensures r.Err? <==> denominator == 0
    ensures r.Err? ==> r.error == ZeroDenominator
    ensures r.Ok? && x.numerator * denominator == numerator * x.denominator ==> r.value
  {
    match New(numerator, denominator)
    case Err(e) => Err(e)
    case Ok(other) =>
      var a := Normalize(x);
      var b := Normalize(other);
      assert x.numerator * denominator == numerator * x.denominator ==> a == b by {
        if x.numerator * denominator == numerator * x.denominator {
          EqualValuesNormalizeAlike(x, other);
        }
      }
      Ok(a.numerator == b.numerator && a.denominator == b.denominator)
  }

  /** `equalsRational(r)`: `equals` applied to the fields of `r`. */
  function EqualsRational(x: Rational, y: Rational): (e: bool)
    requires Valid(x) && Valid(y)
    ensures Equals(x, y.numerator, y.denominator) == Ok(e)
    ensures e <==> Normalize(x) == Normalize(y)
  {
    Equals(x, y.numerator, y.denominator).value
  }

  /** Both parsers end in `new Rational(parseInt(..), parseInt(..))`. A zero
      denominator throws even when the numerator is NaN; any other NaN is
      reported as `NotANumber`. */
  function FromParsed(numerator: Option<int>, denominator: Option<int>): (r: Result<Rational>)
    ensures r.Err? && r.error == ZeroDenominator <==> denominator == Some(0)
    ensures r.Ok? <==> numerator.Some? && denominator.Some? && denominator.value != 0
    ensures r.Ok? ==> r == New(numerator.value, denominator.value)
  {
    if denominator == Some(0) then Err(ZeroDenominator)
    else if numerator.None? || denominator.None? then Err(NotANumber)
    else New(numerator.value, denominator.value)
  }

  /** `parseRational(charsNumerator, charsDenominator)`: join each array and
      parse it as an integer. */
  function ParseRational(charsNumerator: seq<string>, charsDenominator: seq<string>): (r: Result<Rational>)
    ensures r.Ok? <==> ParseInt(Join(charsNumerator, "")).Some? && ParseInt(Join(charsDenominator, "")).Some?
                       && ParseInt(Join(charsDenominator, "")) != Some(0)
    ensures r.Ok? ==> Valid(r.value)
    ensures r.Ok? ==> ParseInt(Join(charsNumerator, "")) == Some(r.value.numerator)
    ensures r.Ok? ==> ParseInt(Join(charsDenominator, "")) == Some(r.value.denominator)
  {
    FromParsed(ParseInt(Join(charsNumerator, "")), ParseInt(Join(charsDenominator, "")))
  }

  /** `parseRationalString(s)`: the first '/'-separated piece is the
      numerator, the second the denominator; a missing second piece is
      `undefined`, which `parseInt` turns into NaN. */
  function ParseRationalString(s: string): (r: Result<Rational>)
    ensures '/' !in s ==> r == Err(NotANumber)
    ensures r.Ok? ==> Valid(r.value) && |Split(s, '/')| >= 2
    ensures r.Ok? ==> ParseInt(Split(s, '/')[0]) == Some(r.value.numerator)
    ensures r.Ok? ==> ParseInt(Split(s, '/')[1]) == Some(r.value.denominator)
  {
    var pieces := Split(s, '/');
    assert '/' !in s ==> pieces == [s] by {
      if '/' !in s { SplitNone(s, '/'); }
    }
    FromParsed(ParseInt(pieces[0]), if |pieces| >= 2 then ParseInt(pieces[1]) else None)
  }

  // ---------------------------------------------------------------------
  // gcd

  /** Scaling both arguments scales the result, sign included:
      gcd(k*a, k*b) = k * gcd(a, b). */
  lemma {:induction false} GcdHomogeneous(a: int, b: int, k: int)
    requires k != 0
    ensures Gcd(k * a, k * b) == k * Gcd(a, b)
    decreases Abs(b)
  {
    if b == 0 {
      assert k * b == 0;
    } else {
      JsRemScale(a, b, k);
      GcdHomogeneous(b, JsRem(a, b), k);
    }
  }

  /** The sign of the result is not normalized. */
  lemma GcdKeepsSign()
    ensures Gcd(-4, 8) == -4
    ensures Gcd(4, 8) == 4
    ensures Gcd(4, -8) == 4
  {
    assert JsRem(-4, 8) == -4 && JsRem(8, -4) == 0;
    assert JsRem(4, 8) == 4 && JsRem(8, 4) == 0;
    assert JsRem(4, -8) == 4 && JsRem(-8, 4) == 0;
  }

  // ---------------------------------------------------------------------
  // normalize

  /** What `normalize` returns: the denominator is the old one divided by
      `gcd` (a divisor whose absolute value is the greatest common divisor);
      the numerator is smaller than the denominator in absolute value, as the
      comment at Rational.ts:43 intends; the pair is in lowest terms; it
      differs from the input by a whole number; and its sign is that of the
      numerator divided by `gcd`. */
  lemma NormalizeSpec(x: Rational)
    requires Valid(x)
    ensures var r, g := Normalize(x), Gcd(x.numerator, x.denominator);
      && IsGcd(Abs(g), x.numerator, x.denominator)
      && r.denominator * g == x.denominator
      && Abs(r.numerator) < Abs(r.denominator)
      && IsGcd(1, r.numerator, r.denominator)
      && Divides(x.denominator, x.numerator - r.numerator * g)
      && (r.numerator > 0 ==> (x.numerator > 0 <==> g > 0))
      && (r.numerator < 0 ==> (x.numerator > 0 <==> g < 0))
  {
    var g, n, d := NormalizeSteps(x);
    NormalizedParts(x.numerator, x.denominator, g, n, d);
    assert d * g == x.denominator;
  }

  lemma NormalizedParts(num: int, den: int, g: int, n: int, d: int)
    requires den != 0 && g != 0 && num == g * n && den == g * d
    requires IsGcd(1, n, d)
    ensures d != 0
    ensures IsGcd(1, JsRem(n, d), d)
    ensures Divides(den, num - JsRem(n, d) * g)
    ensures JsRem(n, d) > 0 ==> (num > 0 <==> g > 0)
    ensures JsRem(n, d) < 0 ==> (num > 0 <==> g < 0)
  {
    var rem := JsRem(n, d);
    GcdStep(n, d);
    IsGcdSwap(1, rem, d);
    JsRemDivision(n, d);
    DividesScale(d, n - rem, g);
    assert (n - rem) * g == num - rem * g;
    assert d * g == den;
    if n > 0 {
      assert (g > 0 ==> g * n > 0) && (g < 0 ==> g * n < 0);
    } else if n < 0 {
      assert (g > 0 ==> g * n < 0) && (g < 0 ==> (-g) * (-n) > 0);
    }
  }

  /** The intermediate values of `normalize`: the divisor `gcd` returns and
      the two exact quotients by it. */
  lemma NormalizeSteps(x: Rational) returns (g: int, n: int, d: int)
    requires Valid(x)
    ensures g == Gcd(x.numerator, x.denominator) && g != 0 && d != 0
    ensures x.numerator == g * n && x.denominator == g * d
    ensures IsGcd(1, n, d)
    ensures Normalize(x) == Rational(JsRem(n, d), d)
  {
    g := Gcd(x.numerator, x.denominator);
    ReducedCoprime(x.numerator, x.denominator, g);
    n := ExactDiv(x.numerator, g);
    d := ExactDiv(x.denominator, g);
  }

  /** `normalize` preserves the value of a proper fraction. */
  lemma NormalizeProper(x: Rational)
    requires Valid(x) && Abs(x.numerator) < Abs(x.denominator)
    ensures x.numerator * Normalize(x).denominator == Normalize(x).numerator * x.denominator
  {
    var g, n, d := NormalizeSteps(x);
    ScaledDown(x.numerator, x.denominator, g, n, d);
    JsRemSmall(n, d);
  }

  lemma ScaledDown(num: int, den: int, g: int, n: int, d: int)
    requires g != 0 && num == g * n && den == g * d && Abs(num) < Abs(den)
    ensures Abs(n) < Abs(d)
    ensures num * d == n * den
  {
    AbsMul(g, n);
    AbsMul(g, d);
    if Abs(n) >= Abs(d) {
      MulMonotone(Abs(g), Abs(d), Abs(n));
    }
    MulSwap(g, n, d);
  }

  /** When the denominator divides the numerator, `gcd` returns the
      denominator itself, sign included. */
  lemma GcdOfMultiple(a: int, b: int)
    requires b != 0 && Divides(b, a)
    ensures Gcd(a, b) == b
  {
    JsRemZero(a, b);
    assert Gcd(b, 0) == b;
  }

  /** Every whole number normalizes to 0/1. */
  lemma NormalizeWhole(x: Rational)
    requires Valid(x) && IsWhole(x)
    ensures Normalize(x) == Rational(0, 1)
  {
    GcdOfMultiple(x.numerator, x.denominator);
    var g, n, d := NormalizeSteps(x);
    assert d * g == 1 * g;
    MulCancel(d, 1, g);
    JsRemZero(n, 1);
    DividesOne(n);
  }

  /** Normalizing twice is the same as normalizing once: the first result
      is in lowest terms with `gcd` exactly 1, and its numerator is already
      smaller than its denominator. */
  lemma NormalizeIdempotent(x: Rational)
    requires Valid(x)
    ensures Normalize(Normalize(x)) == Normalize(x)
  {
    var g, n, d := NormalizeSteps(x);
    GcdHomogeneous(n, d, g);
    assert Gcd(n, d) * g == 1 * g;
    MulCancel(Gcd(n, d), 1, g);
    var r := Normalize(x);
    var rem := JsRem(n, d);
    JsRemSmall(rem, d);
    assert Gcd(rem, d) == Gcd(d, rem) == Gcd(n, d);
    var g2, n2, d2 := NormalizeSteps(r);
    assert g2 == 1;
    assert n2 == rem && d2 == d;
  }

  /** The sign of the divisor shows in the result: -4/8 normalizes to 1/-2,
      with a negative denominator. */
  lemma NormalizeNegativeDenominator()
    ensures Normalize(Rational(-4, 8)) == Rational(1, -2)
  {
    assert JsRem(-4, 8) == -4 && JsRem(8, -4) == 0;
    assert Gcd(-4, 8) == -4;
    assert JsRem(1, -2) == 1;
  }

  /** Multiplying both fields by the same nonzero factor does not change the
      normalized pair. */
  lemma NormalizeScaled(a: int, b: int, k: int)
    requires b != 0 && k != 0
    ensures k * b != 0
    ensures Normalize(Rational(k * a, k * b)) == Normalize(Rational(a, b))
  {
    var h, n, d := NormalizeSteps(Rational(a, b));
    GcdHomogeneous(a, b, k);
    var h', n', d' := NormalizeSteps(Rational(k * a, k * b));
    CommonFactor(k, h, a, n, n');
    CommonFactor(k, h, b, d, d');
  }

  lemma CommonFactor(k: int, h: int, a: int, n: int, n': int)
    requires k != 0 && h != 0 && a == h * n && k * a == (k * h) * n'
    ensures n' == n
  {
    assert k * a == (k * h) * n;
    assert n' * (k * h) == n * (k * h);
    MulCancel(n', n, k * h);
  }

  // ---------------------------------------------------------------------
  // equals

  /** Fractions of equal value have equal normalized pairs. */
  lemma EqualValuesNormalizeAlike(x: Rational, y: Rational)
    requires Valid(x) && Valid(y)
    requires x.numerator * y.denominator == y.numerator * x.denominator
    ensures Normalize(x) == Normalize(y)
  {
    var g1, a, b := NormalizeSteps(x);
    var g2, c, d := NormalizeSteps(y);
    CrossCancel(x.numerator, x.denominator, y.numerator, y.denominator, g1, a, b, g2, c, d);
    LowestTermsUnique(a, b, c, d);
    var s := SignedFactor(y.numerator, y.denominator, g2, a, b, c, d);
    ScaledAlike(x, g1, a, b);
    ScaledAlike(y, s, a, b);
  }

  lemma SignedFactor(num: int, den: int, g: int, a: int, b: int, c: int, d: int) returns (s: int)
    requires g != 0 && b != 0 && num == g * c && den == g * d
    requires (c == a && d == b) || (c == -a && d == -b)
    ensures s != 0 && num == s * a && den == s * b
  {
    if d == b {
      s := g;
    } else {
      s := -g;
      assert g * (-a) == (-g) * a;
      assert g * (-b) == (-g) * b;
    }
  }

  lemma ScaledAlike(x: Rational, k: int, a: int, b: int)
    requires k != 0 && b != 0 && x.numerator == k * a && x.denominator == k * b
    ensures Valid(x) && Normalize(x) == Normalize(Rational(a, b))
  {
    NormalizeScaled(a, b, k);
  }

  /** The converse fails: some fractions that differ by a whole number
      compare equal (all whole numbers do, by `NormalizeWhole`). */
  lemma EqualsIgnoresWholePart()
    ensures EqualsRational(Rational(2, 1), Rational(4, 1))
    ensures EqualsRational(Rational(1, 2), Rational(3, 2))
  {
    assert Gcd(2, 1) == 1 && Gcd(4, 1) == 1;
    assert Gcd(1, 2) == 1 && Gcd(3, 2) == 1 by {
      assert JsRem(1, 2) == 1 && JsRem(2, 1) == 0;
      assert JsRem(3, 2) == 1;
    }
    assert Normalize(Rational(2, 1)) == Rational(0, 1);
    assert Normalize(Rational(4, 1)) == Rational(0, 1);
    assert Normalize(Rational(1, 2)) == Rational(1, 2);
    assert Normalize(Rational(3, 2)) == Rational(1, 2);
  }

  /** Every Rational equals its own normalized form. */
  lemma EqualsOwnNormalize(x: Rational)
    requires Valid(x)
    ensures EqualsRational(x, Normalize(x))
  {
    NormalizeIdempotent(x);
  }

  /** Not every whole-number difference is lost: -1/2 normalizes to 1/-2
      because `gcd(-1, 2)` is -1, so it does not equal 1/2. */
  lemma EqualsKeepsSomeWholeParts()
    ensures !EqualsRational(Rational(-1, 2), Rational(1, 2))
  {
    assert JsRem(-1, 2) == -1 && JsRem(2, -1) == 0;
    assert Gcd(-1, 2) == -1;
    assert JsRem(1, 2) == 1 && JsRem(2, 1) == 0;
    assert Gcd(1, 2) == 1;
    assert Normalize(Rational(-1, 2)) == Rational(1, -2);
  }

  lemma EqualsRationalReflexive(x: Rational)
    requires Valid(x)
    ensures EqualsRational(x, x)
  {
  }

  lemma EqualsRationalSymmetric(x: Rational, y: Rational)
    requires Valid(x) && Valid(y)
    ensures EqualsRational(x, y) == EqualsRational(y, x)
  {
  }

  lemma EqualsRationalTransitive(x: Rational, y: Rational, z: Rational)
    requires Valid(x) && Valid(y) && Valid(z)
    requires EqualsRational(x, y) && EqualsRational(y, z)
    ensures EqualsRational(x, z)
  {
  }

  // ---------------------------------------------------------------------
  // parsing

  /** A string with one '/' parses its two pieces as they stand: they are
      not trimmed or reduced. */
  lemma ParseRationalStringPieces(numeral: string, denominator: string)
    requires '/' !in numeral && '/' !in denominator
    ensures ParseRationalString(numeral + "/" + denominator) == FromParsed(ParseInt(numeral), ParseInt(denominator))
  {
    var s := numeral + "/" + denominator;
    assert s == numeral + ['/'] + denominator;
    SplitCons(numeral, '/', denominator);
    SplitNone(denominator, '/');
    assert Split(s, '/') == [numeral, denominator];
  }

  /** Pieces after the second '/' are ignored. */
  lemma ParseRationalStringExtraPieces(numeral: string, denominator: string, rest: string)
    requires '/' !in numeral && '/' !in denominator
    ensures ParseRationalString(numeral + "/" + denominator + "/" + rest) == FromParsed(ParseInt(numeral), ParseInt(denominator))
  {
    var s := numeral + "/" + denominator + "/" + rest;
    assert s == numeral + ['/'] + (denominator + ['/'] + rest);
    SplitCons(numeral, '/', denominator + ['/'] + rest);
    SplitCons(denominator, '/', rest);
    assert Split(s, '/')[..2] == [numeral, denominator];
  }

  /** Arrays of digit strings parse to the values of the joined numerals. */
  lemma ParseRationalDigits(charsNumerator: seq<string>, charsDenominator: seq<string>)
    requires forall k :: 0 <= k < |charsNumerator| ==> AllDigits(charsNumerator[k])
    requires forall k :: 0 <= k < |charsDenominator| ==> AllDigits(charsDenominator[k])
    requires |Join(charsNumerator, "")| > 0 && |Join(charsDenominator, "")| > 0
    ensures ParseRational(charsNumerator, charsDenominator)
         == New(DecimalValue(Join(charsNumerator, "")), DecimalValue(Join(charsDenominator, "")))
  {
    ParseIntDigits(Join(charsNumerator, ""));
    ParseIntDigits(Join(charsDenominator, ""));
  }

  // ---------------------------------------------------------------------
  // the demonstration values at the end of Rational.ts and Rational.js

  /** new Rational(4, 8).normalize() is 1/2. */
  lemma DemoNormalize()
    ensures Normalize(Rational(4, 8)) == Rational(1, 2)
  {
    assert JsRem(4, 8) == 4 && JsRem(8, 4) == 0;
    assert Gcd(4, 8) == 4;
  }

  /** new Rational(8, 4).normalize() is 0/1, not 2/1. */
  lemma DemoNormalizeWhole()
    ensures Normalize(Rational(8, 4)) == Rational(0, 1)
  {
    assert JsRem(8, 4) == 0;
    assert Gcd(8, 4) == 4;
    assert JsRem(2, 1) == 0;
  }

  /** 4/8 is not whole and is a decimal. */
  lemma DemoIsWhole()
    ensures !IsWhole(Rational(4, 8)) && IsDecimal(Rational(4, 8))
  {
    assert JsRem(4, 8) == 4;
  }

  /** 4/8 equals 2/4. */
  lemma DemoEquals()
    ensures EqualsRational(Rational(4, 8), Rational(2, 4))
  {
    DemoNormalize();
    assert JsRem(2, 4) == 2 && JsRem(4, 2) == 0;
    assert Gcd(2, 4) == 2;
    assert Normalize(Rational(2, 4)) == Rational(1, 2);
  }

  /** parseRationalString("6/9") is the unreduced 6/9. */
  lemma DemoParse()
    ensures ParseRationalString("6/9") == Ok(Rational(6, 9))
  {
    assert "6/9" == "6" + ['/'] + "9";
    SplitCons("6", '/', "9");
    SplitNone("9", '/');
    ParseIntDigits("6");
    ParseIntDigits("9");
    assert DecimalValue("6") == 6 && DecimalValue("9") == 9;
  }
}
