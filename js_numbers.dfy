/** Integer arithmetic as the Rational classes use it: JavaScript's `%`
    (truncating remainder), exact `/`, and the divisibility and
    greatest-common-divisor facts that normalization relies on.
    Numbers are unbounded integers; IEEE-754 effects are not modelled. */
module JsNumbers {

  function Abs(x: int): (r: nat)
    ensures r == x || r == -x
  {
    if x < 0 then -x else x
  }

  /** JavaScript's `a % b` on integral operands: the remainder of division
      truncated toward zero, which takes the sign of the dividend. */
  function JsRem(a: int, b: int): (r: int)
    requires b != 0
    ensures Abs(r) < Abs(b)
    ensures a >= 0 ==> r >= 0
    ensures a <= 0 ==> r <= 0
  {
    if a >= 0 then Abs(a) % Abs(b) else -(Abs(a) % Abs(b))
  }

  /** `d` divides `n`: n == d * k for some integer k (so 0 divides only 0). */
  predicate Divides(d: int, n: int) {
    if d == 0 then n == 0 else Abs(n) % Abs(d) == 0
  }

  /** JavaScript's `n / d` when the quotient is an integer. */
  function ExactDiv(n: int, d: int): (q: int)
    requires Divides(d, n)
    ensures n == d * q
  {
    if d == 0 then 0
    else
      var q := Abs(n) / Abs(d);
      assert Abs(n) == Abs(d) * q;
      if (n < 0) == (d < 0) then q else -q
  }

  /** `g` is the greatest common divisor of `a` and `b`: a non-negative common
      divisor that every common divisor divides. */
  ghost predicate IsGcd(g: int, a: int, b: int) {
    && g >= 0
    && Divides(g, a)
    && Divides(g, b)
    && forall c :: Divides(c, a) && Divides(c, b) ==> Divides(c, g)
  }

  // ---------------------------------------------------------------------
  // Euclidean division facts

  lemma ModUnique(x: int, m: int, q: int, r: int)
    requires m > 0 && x == m * q + r && 0 <= r < m
    ensures x / m == q && x % m == r
  {
    var q0, r0 := x / m, x % m;
    assert m * (q - q0) == r0 - r;
    if q > q0 {
      MulAtLeast(m, q - q0);
    } else if q < q0 {
      MulAtLeast(m, q0 - q);
    }
  }

  lemma MulAtLeast(m: int, k: int)
    requires m > 0 && k >= 1
    ensures m * k >= m
  {
    assert m * k == m * (k - 1) + m;
  }

  lemma MulMonotone(m: int, x: int, y: int)
    requires m >= 0 && x <= y
    ensures m * x <= m * y
  {
    assert m * y - m * x == m * (y - x);
  }

  /** (g * n) * d == n * (g * d). */
  lemma MulSwap(g: int, n: int, d: int)
    ensures (g * n) * d == n * (g * d)
  {
  }

  lemma AbsMul(a: int, b: int)
    ensures Abs(a * b) == Abs(a) * Abs(b)
  {
    if a < 0 && b < 0 {
      assert a * b == (-a) * (-b);
    } else if a < 0 {
      assert -(a * b) == (-a) * b;
    } else if b < 0 {
      assert -(a * b) == a * (-b);
    }
  }

  lemma MulCancel(x: int, y: int, m: int)
    requires m != 0 && x * m == y * m
    ensures x == y
  {
    assert (x - y) * m == 0;
    if x != y {
      AbsMul(x - y, m);
      MulAtLeast(Abs(m), Abs(x - y));
    }
  }

  /** Cross products of two fractions are equal exactly when the cross
      products of their reductions are. */
  lemma CrossCancel(n1: int, d1: int, n2: int, d2: int, g1: int, a: int, b: int, g2: int, c: int, d: int)
    requires g1 != 0 && g2 != 0
    requires n1 == g1 * a && d1 == g1 * b && n2 == g2 * c && d2 == g2 * d
    ensures n1 * d2 == n2 * d1 <==> a * d == c * b
  {
    assert n1 * d2 == (a * d) * (g1 * g2);
    assert n2 * d1 == (c * b) * (g1 * g2);
    if n1 * d2 == n2 * d1 {
      MulCancel(a * d, c * b, g1 * g2);
    }
  }

  // ---------------------------------------------------------------------
  // Divisibility

  lemma DividesIntro(d: int, k: int)
    ensures Divides(d, d * k)
  {
    if d != 0 {
      AbsMul(d, k);
      ModUnique(Abs(d) * Abs(k), Abs(d), Abs(k), 0);
    }
  }

  lemma DividesOne(n: int)
    ensures Divides(1, n) && Divides(-1, n)
  {
    DividesIntro(1, n);
    DividesIntro(-1, -n);
  }

  /** Divisibility ignores signs. */
  lemma DividesSigns(d: int, n: int)
    ensures Divides(d, n) == Divides(-d, n) == Divides(d, -n) == Divides(Abs(d), n)
  {
  }

  lemma DividesTrans(a: int, b: int, c: int)
    requires Divides(a, b) && Divides(b, c)
    ensures Divides(a, c)
  {
    var s := ExactDiv(b, a);
    var t := ExactDiv(c, b);
    assert c == a * (s * t);
    DividesIntro(a, s * t);
  }

  lemma DividesLinear(d: int, x: int, y: int, k: int)
    requires Divides(d, x) && Divides(d, y)
    ensures Divides(d, x + y * k) && Divides(d, x - y * k)
  {
    var s := ExactDiv(x, d);
    var t := ExactDiv(y, d);
    Distrib(d, s, t, k);
    DividesIntro(d, s + t * k);
    DividesIntro(d, s - t * k);
  }

  lemma Distrib(d: int, s: int, t: int, k: int)
    ensures d * s + (d * t) * k == d * (s + t * k)
    ensures d * s - (d * t) * k == d * (s - t * k)
  {
  }

  lemma DividesScale(c: int, x: int, k: int)
    requires Divides(c, x)
    ensures Divides(c * k, x * k)
  {
    var s := ExactDiv(x, c);
    assert x * k == (c * k) * s;
    DividesIntro(c * k, s);
  }

  /** A nonzero multiple is at least as large as the divisor. */
  lemma DividesBound(d: int, n: int)
    requires Divides(d, n) && n != 0
    ensures d != 0 && Abs(d) <= Abs(n)
  {
    var s := ExactDiv(n, d);
    AbsMul(d, s);
    MulAtLeast(Abs(d), Abs(s));
  }

  lemma DividesAntisymmetric(a: int, b: int)
    requires Divides(a, b) && Divides(b, a)
    ensures Abs(a) == Abs(b)
  {
    if a != 0 && b != 0 {
      DividesBound(a, b);
      DividesBound(b, a);
    }
  }

  // ---------------------------------------------------------------------
  // The truncating remainder

  /** `a % b` leaves a remainder that differs from `a` by a multiple of `b`. */
  lemma JsRemDivision(a: int, b: int)
    requires b != 0
    ensures Divides(b, a - JsRem(a, b))
  {
    var q := Abs(a) / Abs(b);
    var m := Abs(a) % Abs(b);
    assert Abs(a) == Abs(b) * q + m;
    if a >= 0 {
      assert a - JsRem(a, b) == Abs(b) * q;
    } else {
      assert a - JsRem(a, b) == Abs(b) * (-q);
    }
    DividesIntro(Abs(b), if a >= 0 then q else -q);
    DividesSigns(b, a - JsRem(a, b));
  }

  /** The remainder is zero exactly when the divisor divides the dividend. */
  lemma JsRemZero(a: int, b: int)
    requires b != 0
    ensures JsRem(a, b) == 0 <==> Divides(b, a)
  {
  }

  /** A dividend smaller than the divisor is its own remainder. */
  lemma JsRemSmall(a: int, b: int)
    requires b != 0 && Abs(a) < Abs(b)
    ensures JsRem(a, b) == a
  {
    ModUnique(Abs(a), Abs(b), 0, Abs(a));
  }

  lemma ModScale(x: nat, y: nat, m: nat)
    requires y > 0 && m > 0
    ensures m * y > 0 && (m * x) % (m * y) == m * (x % y)
  {
    var q, r := x / y, x % y;
    assert m * x == (m * y) * q + m * r;
    assert m * r < m * y by {
      assert m * y - m * r == m * (y - r);
      MulAtLeast(m, y - r);
    }
    ModUnique(m * x, m * y, q, m * r);
  }

  /** Scaling both operands scales the truncating remainder (truncation is
      unaffected by the common factor, whatever its sign). */
  lemma JsRemScale(a: int, b: int, k: int)
    requires b != 0 && k != 0
    ensures k * b != 0 && JsRem(k * a, k * b) == k * JsRem(a, b)
  {
    AbsMul(k, b);
    AbsMul(k, a);
    ModScale(Abs(a), Abs(b), Abs(k));
    var m := Abs(a) % Abs(b);
    assert Abs(k * a) % Abs(k * b) == Abs(k) * m;
    if a == 0 {
      assert k * a == 0;
    } else {
      assert (k * a > 0) == ((k > 0) == (a > 0)) by {
        if k > 0 && a < 0 { assert k * (-a) > 0; }
        if k < 0 && a > 0 { assert (-k) * a > 0; }
        if k < 0 && a < 0 { assert (-k) * (-a) > 0; }
      }
      assert JsRem(a, b) == if a > 0 then m else -m;
      assert JsRem(k * a, k * b) == if k * a > 0 then Abs(k) * m else -(Abs(k) * m);
    }
  }

  // ---------------------------------------------------------------------
  // Greatest common divisors

  lemma IsGcdSwap(g: int, a: int, b: int)
    ensures IsGcd(g, a, b) <==> IsGcd(g, b, a)
  {
  }

  /** The greatest common divisor ignores the sign of its arguments. */
  lemma IsGcdAbs(g: int, a: int, b: int)
    ensures IsGcd(g, a, b) <==> IsGcd(g, a, Abs(b))
  {
    forall c ensures Divides(c, b) <==> Divides(c, Abs(b)) {
      DividesSigns(c, b);
    }
  }

  /** There is at most one greatest common divisor. */
  lemma {:induction false} IsGcdUnique(g1: int, g2: int, a: int, b: int)
    requires IsGcd(g1, a, b) && IsGcd(g2, a, b)
    ensures g1 == g2
  {
    DividesAntisymmetric(g1, g2);
  }

  /** The greatest common divisor is the largest common divisor. */
  lemma IsGcdGreatest(g: int, a: int, b: int, c: int)
    requires IsGcd(g, a, b) && (a != 0 || b != 0)
    requires Divides(c, a) && Divides(c, b)
    ensures g > 0 && Abs(c) <= g
  {
    DividesBound(c, g);
  }

  /** The greatest common divisor is zero only for the pair (0, 0). */
  lemma IsGcdZero(g: int, a: int, b: int)
    requires IsGcd(g, a, b)
    ensures g == 0 <==> a == 0 && b == 0
  {
    if a == 0 && b == 0 {
      assert Divides(0, a) && Divides(0, b);
    }
  }

  /** gcd(a, 0) = |a|: Euclid's base case. */
  lemma GcdBase(a: int)
    ensures IsGcd(Abs(a), a, 0)
  {
    DividesIntro(Abs(a), 0);
    DividesSigns(a, a);
    DividesIntro(a, 1);
    forall c | Divides(c, a) && Divides(c, 0)
      ensures Divides(c, Abs(a))
    {
      DividesSigns(c, a);
    }
  }

  /** Euclid's step: (a, b) and (b, a % b) have the same common divisors,
      hence the same greatest common divisor. */
  lemma GcdStep(a: int, b: int)
    requires b != 0
    ensures forall c :: Divides(c, a) && Divides(c, b) <==> Divides(c, b) && Divides(c, JsRem(a, b))
    ensures forall g :: IsGcd(g, a, b) <==> IsGcd(g, b, JsRem(a, b))
  {
    var r := JsRem(a, b);
    JsRemDivision(a, b);
    var q := ExactDiv(a - r, b);
    assert r == a - b * q;
    assert a == r + b * q;
    forall c | Divides(c, a) && Divides(c, b)
      ensures Divides(c, r)
    {
      DividesLinear(c, a, b, q);
    }
    forall c | Divides(c, b) && Divides(c, r)
      ensures Divides(c, a)
    {
      DividesLinear(c, r, b, q);
    }
  }

  /** Scaling both arguments scales their greatest common divisor:
      gcd(k*a, k*b) = |k| * gcd(a, b). */
  lemma {:induction false} GcdScale(g: int, a: int, b: int, k: int)
    requires IsGcd(g, a, b)
    ensures IsGcd(Abs(k) * g, k * a, k * b)
    decreases Abs(b)
  {
    if k == 0 {
      assert k * a == 0 && k * b == 0 && Abs(k) * g == 0;
    } else if b == 0 {
      GcdBase(a);
      IsGcdUnique(g, Abs(a), a, 0);
      assert k * b == 0;
      AbsMul(k, a);
      GcdBase(k * a);
    } else {
      var r := JsRem(a, b);
      GcdStep(a, b);
      GcdScale(g, b, r, k);
      JsRemScale(a, b, k);
      GcdStep(k * a, k * b);
    }
  }

  /** Euclid's lemma: a divisor of c*a that is coprime to a divides c. */
  lemma CoprimeDivides(a: int, b: int, c: int)
    requires IsGcd(1, a, b) && Divides(b, c * a)
    ensures Divides(b, c)
  {
    GcdScale(1, a, b, c);
    DividesIntro(b, c);
    assert b * c == c * b;
    assert Divides(b, Abs(c) * 1);
    DividesSigns(c, c);
    DividesIntro(Abs(c), if c < 0 then -1 else 1);
    DividesTrans(b, Abs(c), c);
  }

  /** Only 1 and -1 multiply a nonzero g into a divisor of g. */
  lemma UnitFactor(c: int, g: int)
    requires g != 0 && Divides(c * g, g)
    ensures c == 1 || c == -1
  {
    DividesBound(c * g, g);
    AbsMul(c, g);
    if Abs(c) > 1 {
      assert Abs(g) * Abs(c) - Abs(g) == Abs(g) * (Abs(c) - 1);
      MulAtLeast(Abs(g), Abs(c) - 1);
    }
  }

  /** Dividing a pair by (plus or minus) its greatest common divisor leaves a
      pair in lowest terms. */
  lemma ReducedCoprime(a: int, b: int, g: int)
    requires g != 0 && IsGcd(Abs(g), a, b)
    ensures Divides(g, a) && Divides(g, b)
    ensures IsGcd(1, ExactDiv(a, g), ExactDiv(b, g))
  {
    DividesSigns(g, a);
    DividesSigns(g, b);
    var a', b' := ExactDiv(a, g), ExactDiv(b, g);
    DividesOne(a');
    DividesOne(b');
    DividesOne(1);
    forall c | Divides(c, a') && Divides(c, b')
      ensures Divides(c, 1)
    {
      DividesScale(c, a', g);
      DividesScale(c, b', g);
      assert a' * g == a && b' * g == b;
      assert Divides(c * g, Abs(g));
      DividesSigns(c * g, g);
      UnitFactor(c, g);
    }
  }

  /** When a/b = c/d with a/b in lowest terms, b divides d. */
  lemma CrossDivides(a: int, b: int, c: int, d: int)
    requires IsGcd(1, a, b) && a * d == c * b
    ensures Divides(b, d)
  {
    DividesIntro(b, c);
    assert b * c == d * a;
    CoprimeDivides(a, b, d);
  }

  /** Two pairs in lowest terms that denote the same fraction are equal up to
      a common sign. */
  lemma LowestTermsUnique(a: int, b: int, c: int, d: int)
    requires b != 0 && d != 0
    requires IsGcd(1, a, b) && IsGcd(1, c, d)
    requires a * d == c * b
    ensures (c == a && d == b) || (c == -a && d == -b)
  {
    CrossDivides(a, b, c, d);
    CrossDivides(c, d, a, b);
    DividesAntisymmetric(b, d);
    if d == b {
      MulCancel(a, c, b);
    } else {
      assert d == -b;
      assert (-a) * b == c * b;
      MulCancel(-a, c, b);
    }
  }
}
