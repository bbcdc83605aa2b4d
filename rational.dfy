/**
  Exact rational arithmetic with the contract of Python's `fractions.Fraction`:
  every value is kept in lowest terms with a positive denominator, and a zero
  denominator raises `ZeroDivisionError`.
 */
module Rational {

  /** Outcome of a Python expression that may raise `ZeroDivisionError`. */
  datatype Outcome<T> = Value(value: T) | ZeroDivisionError

  function Abs(x: int): nat { if x < 0 then -x else x }

  /** Greatest common divisor, by Euclid's algorithm. */
  function Gcd(a: nat, b: nat): nat
    decreases b
  {
    if b == 0 then a else Gcd(b, a % b)
  }

  /** Gcd(a, b) divides both a and b; the quotients are returned as witnesses. */
  lemma {:induction false} GcdDivides(a: nat, b: nat) returns (ka: nat, kb: nat)
    ensures a == Gcd(a, b) * ka && b == Gcd(a, b) * kb
    decreases b
  {
    if b == 0 {
      ka, kb := 1, 0;
    } else {
      var q, r := a / b, a % b;
      var kb', kr := GcdDivides(b, r);
      var g := Gcd(b, r);
      assert g == Gcd(a, b);
      ka, kb := kb' * q + kr, kb';
      calc {
        a;
        b * q + r;
        (g * kb') * q + g * kr;
        g * (kb' * q + kr);
      }
    }
  }

  /** Bezout's identity: Gcd(a, b) is an integer combination of a and b. */
  lemma {:induction false} Bezout(a: nat, b: nat) returns (x: int, y: int)
    ensures a * x + b * y == Gcd(a, b)
    decreases b
  {
    if b == 0 {
      x, y := 1, 0;
    } else {
      var q, r := a / b, a % b;
      var x', y' := Bezout(b, r);
      assert b * x' + r * y' == Gcd(a, b);
      x, y := y', x' - q * y';
      calc {
        a * x + b * y;
        a * y' + b * (x' - q * y');
        a * y' + b * x' - (b * q) * y';
        b * x' + (a - b * q) * y';
        b * x' + r * y';
      }
    }
  }

  lemma GcdPositive(a: nat, b: nat)
    requires a > 0 || b > 0
    ensures Gcd(a, b) > 0
  {
    var ka, kb := GcdDivides(a, b);
  }

  /** A natural number with an integer multiple equal to 1 is 1. */
  lemma UnitFactor(g: nat, m: int)
    requires g * m == 1
    ensures g == 1
  {
  }

  /** If some integer combination of a and b is 1, they are coprime. */
  lemma CoprimeFromBezout(a: nat, b: nat, x: int, y: int)
    requires a * x + b * y == 1
    ensures Gcd(a, b) == 1
  {
    var ka, kb := GcdDivides(a, b);
    var g := Gcd(a, b);
    calc {
      1;
      a * x + b * y;
      (g * ka) * x + (g * kb) * y;
      g * (ka * x + kb * y);
    }
    UnitFactor(g, ka * x + kb * y);
  }

  /** Exact division: a multiple of g divided by g gives the other factor back. */
  lemma ExactDiv(x: int, g: int, k: int)
    requires g > 0 && x == g * k
    ensures x / g == k
  {
    var q, r := x / g, x % g;
    assert x == g * q + r;
    assert g * (k - q) == r;
    ZeroFromBounds(g, k - q);
  }

  lemma ZeroFromBounds(g: int, m: int)
    requires g > 0 && 0 <= g * m < g
    ensures m == 0
  {
  }

  /** A Python `Fraction` value. */
  datatype Fraction = Fraction(numerator: int, denominator: int) {
    /** The invariant every `Fraction` object keeps: lowest terms, positive denominator. */
    predicate Valid() {
      denominator > 0 && Gcd(Abs(numerator), denominator) == 1
    }
  }

  /** n/d and n'/d' denote the same rational number (for non-zero denominators). */
  predicate SameValue(n: int, d: int, n': int, d': int) {
    n * d' == n' * d
  }

  /** The reduction `Fraction(a, b)` performs: divide by the gcd, move the sign to the numerator. */
  function Normalize(a: int, b: int): Fraction
    requires b != 0
  {
    GcdPositive(Abs(a), Abs(b));
    var g := Gcd(Abs(a), Abs(b));
    if b < 0 then Fraction(-(a / g), -(b / g)) else Fraction(a / g, b / g)
  }

  /** `Normalize(a, b)` is a valid fraction equal to a/b whose denominator is at most |b|. */
  lemma NormalizeCorrect(a: int, b: int)
    requires b != 0
    ensures Normalize(a, b).Valid()
    ensures SameValue(Normalize(a, b).numerator, Normalize(a, b).denominator, a, b)
    ensures Normalize(a, b).denominator <= Abs(b)
  {
    GcdPositive(Abs(a), Abs(b));
    var g := Gcd(Abs(a), Abs(b));
    var ka, kb := GcdDivides(Abs(a), Abs(b));
    var x, y := Bezout(Abs(a), Abs(b));
    SignedQuotient(a, g, ka);
    SignedQuotient(b, g, kb);
    var f := Normalize(a, b);
    assert Abs(f.numerator) == ka && f.denominator == kb;
    ScaledCombination(g, ka, kb, x, y);
    CoprimeFromBezout(ka, kb, x, y);
    CrossMultiply(a, b, g, a / g, b / g);
    FactorBound(g, kb);
  }

  lemma FactorBound(g: int, k: int)
    requires g > 0 && k >= 0
    ensures k <= g * k
  {
  }

  /** Dividing a by a positive divisor g of |a| keeps the sign of a. */
  lemma SignedQuotient(a: int, g: nat, k: nat)
    requires g > 0 && Abs(a) == g * k
    ensures a / g == (if a < 0 then -(k as int) else k as int)
    ensures a == g * (a / g)
  {
    if a < 0 {
      assert a == g * -(k as int);
      ExactDiv(a, g, -(k as int));
    } else {
      ExactDiv(a, g, k);
    }
  }

  lemma CrossMultiply(a: int, b: int, g: int, qa: int, qb: int)
    requires a == g * qa && b == g * qb
    ensures qa * b == a * qb && -qa * b == a * -qb
  {
  }

  lemma ScaledCombination(g: int, ka: int, kb: int, x: int, y: int)
    requires g > 0 && (g * ka) * x + (g * kb) * y == g
    ensures ka * x + kb * y == 1
  {
    assert g * (ka * x + kb * y) == g * 1;
  }

  /** d1 divides d2 given coprimality with n1 and the cross-multiplication identity. */
  lemma DivisorFromCoprime(n1: int, d1: nat, n2: int, d2: nat) returns (k: int)
    requires Gcd(Abs(n1), d1) == 1
    requires Abs(n1) * d2 == Abs(n2) * d1
    ensures d2 == d1 * k
  {
    var x, y := Bezout(Abs(n1), d1);
    k := Abs(n2) * x + d2 * y;
    LinearCombo(Abs(n1), d1, Abs(n2), d2, x, y);
  }

  lemma LinearCombo(a1: int, d1: int, a2: int, d2: int, x: int, y: int)
    requires a1 * x + d1 * y == 1
    requires a1 * d2 == a2 * d1
    ensures d2 == d1 * (a2 * x + d2 * y)
  {
    calc {
      d2;
      d2 * (a1 * x + d1 * y);
      (a1 * d2) * x + d1 * (d2 * y);
      (a2 * d1) * x + d1 * (d2 * y);
      d1 * (a2 * x + d2 * y);
    }
  }

  /** Lowest terms with a positive denominator is a canonical form: two valid
      fractions with the same value are equal. */
  lemma CanonicalForm(f1: Fraction, f2: Fraction)
    requires f1.Valid() && f2.Valid()
    requires SameValue(f1.numerator, f1.denominator, f2.numerator, f2.denominator)
    ensures f1 == f2
  {
    var n1, d1, n2, d2 := f1.numerator, f1.denominator, f2.numerator, f2.denominator;
    assert Abs(n1) * d2 == Abs(n2) * d1 by {
      AbsMul(n1, d2);
      AbsMul(n2, d1);
    }
    var k1 := DivisorFromCoprime(n1, d1, n2, d2);
    var k2 := DivisorFromCoprime(n2, d2, n1, d1);
    MutualDivisors(d1, d2, k1, k2);
    Cancel(n1, n2, d1);
  }

  /** Two positive numbers that divide each other are equal. */
  lemma MutualDivisors(d1: int, d2: int, k1: int, k2: int)
    requires d1 > 0 && d2 > 0
    requires d2 == d1 * k1 && d1 == d2 * k2
    ensures d1 == d2
  {
    assert k1 > 0;
    assert d1 * (k1 * k2) == d1 * 1;
    assert k1 * k2 == 1;
  }

  lemma Cancel(n1: int, n2: int, d: int)
    requires d > 0 && n1 * d == n2 * d
    ensures n1 == n2
  {
  }

  lemma AbsMul(n: int, d: nat)
    ensures Abs(n * d) == Abs(n) * d
  {
  }

  /** `Fraction(a, b)`: raises `ZeroDivisionError` when b is 0. */
  function Make(a: int, b: int): Outcome<Fraction>
  {
    if b == 0 then ZeroDivisionError else Value(Normalize(a, b))
  }

  function Sub(x: Fraction, y: Fraction): Fraction
    requires x.Valid() && y.Valid()
  {
    Normalize(x.numerator * y.denominator - y.numerator * x.denominator, x.denominator * y.denominator)
  }

  function Add(x: Fraction, y: Fraction): Fraction
    requires x.Valid() && y.Valid()
  {
    Normalize(x.numerator * y.denominator + y.numerator * x.denominator, x.denominator * y.denominator)
  }

  function Mul(x: Fraction, y: Fraction): Fraction
    requires x.Valid() && y.Valid()
  {
    Normalize(x.numerator * y.numerator, x.denominator * y.denominator)
  }

  /** `x / y`: raises `ZeroDivisionError` when y is zero. */
  function Div(x: Fraction, y: Fraction): Outcome<Fraction>
    requires x.Valid() && y.Valid()
  {
    if y.numerator == 0 then ZeroDivisionError
    else Value(Normalize(x.numerator * y.denominator, x.denominator * y.numerator))
  }

  /** SameValue is transitive through a non-zero middle denominator. */
  lemma SameValueTrans(n1: int, d1: int, n2: int, d2: int, n3: int, d3: int)
    requires d2 != 0
    requires SameValue(n1, d1, n2, d2) && SameValue(n2, d2, n3, d3)
    ensures SameValue(n1, d1, n3, d3)
  {
    calc {
      (n1 * d3) * d2;
      (n1 * d2) * d3;
      (n2 * d1) * d3;
      (n2 * d3) * d1;
      (n3 * d2) * d1;
      (n3 * d1) * d2;
    }
  }

  /** a/b + s*(c/d) for s = 1 or -1, computed on representatives xn/xd of a/b and yn/yd of c/d. */
  lemma SumValue(s: int, a: int, b: int, c: int, d: int, xn: int, xd: int, yn: int, yd: int)
    requires xn * b == a * xd && yn * d == c * yd
    ensures SameValue(xn * yd + s * (yn * xd), xd * yd, a * d + s * (c * b), b * d)
  {
    var X, Y, Z := xn * yd, yn * xd, b * d;
    calc {
      X * Z;
      { Swap4(xn, yd, b, d); }
      (xn * b) * (yd * d);
      (a * xd) * (yd * d);
      { Swap4(a, xd, yd, d); }
      (a * yd) * (xd * d);
      { Swap4(a, d, xd, yd); Swap4(a, yd, xd, d); }
      (a * d) * (xd * yd);
    }
    calc {
      Y * Z;
      { Swap4(yn, xd, d, b); }
      (yn * d) * (xd * b);
      (c * yd) * (xd * b);
      { Swap4(c, yd, b, xd); }
      (c * b) * (yd * xd);
    }
    assert (X + s * Y) * Z == X * Z + s * (Y * Z);
    assert (a * d + s * (c * b)) * (xd * yd) == (a * d) * (xd * yd) + s * ((c * b) * (xd * yd));
  }

  lemma Swap4(p: int, q: int, r: int, t: int)
    ensures (p * q) * (r * t) == (p * r) * (q * t)
    ensures (p * q) * (r * t) == (p * t) * (r * q)
  {
  }

  /** The product of the representatives has the value of the product. */
  lemma ProductValue(a: int, b: int, c: int, d: int, xn: int, xd: int, yn: int, yd: int)
    requires xn * b == a * xd && yn * d == c * yd
    ensures SameValue(xn * yn, xd * yd, a * c, b * d)
  {
    calc {
      (xn * yn) * (b * d);
      (xn * b) * (yn * d);
      (a * xd) * (c * yd);
      (a * c) * (xd * yd);
    }
  }

  /** Reducing an unreduced pair whose value is that of another pair gives that pair's reduction. */
  lemma NormalizeSameValue(n: int, d: int, n': int, d': int)
    requires d != 0 && d' != 0 && SameValue(n, d, n', d')
    ensures Normalize(n, d) == Normalize(n', d')
  {
    NormalizeCorrect(n, d);
    NormalizeCorrect(n', d');
    var f, f' := Normalize(n, d), Normalize(n', d');
    SameValueTrans(f.numerator, f.denominator, n, d, n', d');
    SameValueTrans(f.numerator, f.denominator, n', d', f'.numerator, f'.denominator);
    CanonicalForm(f, f');
  }

  /** `Fraction(a, b) - Fraction(c, d)` is the reduction of (a*d - c*b)/(b*d). */
  lemma SubCorrect(a: int, b: int, c: int, d: int)
    requires b != 0 && d != 0
    ensures Normalize(a, b).Valid() && Normalize(c, d).Valid()
    ensures Sub(Normalize(a, b), Normalize(c, d)) == Normalize(a * d - c * b, b * d)
    ensures Sub(Normalize(a, b), Normalize(c, d)).Valid()
  {
    NormalizeCorrect(a, b);
    NormalizeCorrect(c, d);
    var x, y := Normalize(a, b), Normalize(c, d);
    SumValue(-1, a, b, c, d, x.numerator, x.denominator, y.numerator, y.denominator);
    NormalizeSameValue(x.numerator * y.denominator - y.numerator * x.denominator, x.denominator * y.denominator,
                       a * d - c * b, b * d);
    NormalizeCorrect(a * d - c * b, b * d);
  }

  /** `Fraction(a, b) + Fraction(c, d)` is the reduction of (a*d + c*b)/(b*d). */
  lemma AddCorrect(a: int, b: int, c: int, d: int)
    requires b != 0 && d != 0
    ensures Normalize(a, b).Valid() && Normalize(c, d).Valid()
    ensures Add(Normalize(a, b), Normalize(c, d)) == Normalize(a * d + c * b, b * d)
    ensures Add(Normalize(a, b), Normalize(c, d)).Valid()
  {
    NormalizeCorrect(a, b);
    NormalizeCorrect(c, d);
    var x, y := Normalize(a, b), Normalize(c, d);
    SumValue(1, a, b, c, d, x.numerator, x.denominator, y.numerator, y.denominator);
    NormalizeSameValue(x.numerator * y.denominator + y.numerator * x.denominator, x.denominator * y.denominator,
                       a * d + c * b, b * d);
    NormalizeCorrect(a * d + c * b, b * d);
  }

  /** `Fraction(a, b) * Fraction(c, d)` is the reduction of (a*c)/(b*d). */
  lemma MulCorrect(a: int, b: int, c: int, d: int)
    requires b != 0 && d != 0
    ensures Normalize(a, b).Valid() && Normalize(c, d).Valid()
    ensures Mul(Normalize(a, b), Normalize(c, d)) == Normalize(a * c, b * d)
    ensures Mul(Normalize(a, b), Normalize(c, d)).Valid()
  {
    NormalizeCorrect(a, b);
    NormalizeCorrect(c, d);
    var x, y := Normalize(a, b), Normalize(c, d);
    ProductValue(a, b, c, d, x.numerator, x.denominator, y.numerator, y.denominator);
    NormalizeSameValue(x.numerator * y.numerator, x.denominator * y.denominator, a * c, b * d);
    NormalizeCorrect(a * c, b * d);
  }

  /** `Fraction(a, b) / Fraction(c, d)` raises exactly when c is 0, and is otherwise
      the reduction of (a*d)/(b*c). */
  lemma DivCorrect(a: int, b: int, c: int, d: int)
    requires b != 0 && d != 0
    ensures Normalize(a, b).Valid() && Normalize(c, d).Valid()
    ensures Div(Normalize(a, b), Normalize(c, d)).ZeroDivisionError? <==> c == 0
    ensures c != 0 ==> Div(Normalize(a, b), Normalize(c, d)) == Value(Normalize(a * d, b * c))
    ensures c != 0 ==> Div(Normalize(a, b), Normalize(c, d)).value.Valid()
  {
    NormalizeCorrect(a, b);
    NormalizeCorrect(c, d);
    var x, y := Normalize(a, b), Normalize(c, d);
    assert y.numerator == 0 <==> c == 0 by {
      assert y.numerator * d == c * y.denominator;
    }
    if c != 0 {
      // x / y is x * (yd / yn), and yd/yn represents d/c
      ProductValue(a, b, d, c, x.numerator, x.denominator, y.denominator, y.numerator);
      NormalizeSameValue(x.numerator * y.denominator, x.denominator * y.numerator, a * d, b * c);
      NormalizeCorrect(a * d, b * c);
    }
  }
}
