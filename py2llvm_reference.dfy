/**
  The integer reference functions that the code-generation tests of
  test/py2llvm.py compare compiled code against: trial-division primality,
  and rational arithmetic encoded as `numerator*1000 + denominator`.
 */
module Py2llvmReference {
  import opened Rational

  /** `not x % d` in Python, for a positive divisor. */
  predicate Divides(d: int, x: int)
    requires d > 0
  {
    x % d == 0
  }

  /** The mathematical notion: an integer at least 2 with no divisor strictly between 1 and itself. */
  ghost predicate Prime(x: int) {
    x >= 2 && forall d :: 2 <= d < x ==> !Divides(d, x)
  }

  /** No trial divisor d >= 2 with d*d <= x divides x. */
  ghost predicate NoSmallDivisor(x: int) {
    forall d :: 2 <= d && d * d <= x ==> !Divides(d, x)
  }

  /** `is_prime(x)`: trial division from 2 while d*d <= x. For x < 4 the loop does
      not run, so 0, 1 and every negative number are reported prime. */
  method IsPrime(x: int) returns (r: bool)
    ensures r <==> NoSmallDivisor(x)
    ensures r <==> (x < 2 || Prime(x))
  {
    var d := 2;
    while d * d <= x
      invariant 2 <= d
      invariant forall e :: 2 <= e < d ==> !Divides(e, x)
      decreases x - d
    {
      SquareAtLeast(d);
      if x % d == 0 {
        assert Divides(d, x);
        assert !NoSmallDivisor(x);
        assert d < x && !Prime(x);
        return false;
      }
      d := d + 1;
    }
    assert NoSmallDivisor(x) by {
      forall e | 2 <= e && e * e <= x
        ensures !Divides(e, x)
      {
        if e >= d {
          SquareMono(d, e);
        }
      }
    }
    forall e | 2 <= e < x
      ensures !Divides(e, x)
    {
      if Divides(e, x) {
        var f := SmallDivisor(x, e);
      }
    }
    return true;
  }

  lemma SquareAtLeast(d: int)
    requires d >= 2
    ensures d * d >= 2 * d
  {
  }

  lemma SquareMono(d: int, e: int)
    requires 0 <= d <= e
    ensures d * d <= e * e
  {
    assert d * d <= d * e <= e * e;
  }

  /** A divisor e of x with 2 <= e < x yields a divisor f >= 2 with f*f <= x: the
      smaller of e and x/e. */
  lemma SmallDivisor(x: int, e: int) returns (f: int)
    requires 2 <= e < x && Divides(e, x)
    ensures 2 <= f && f * f <= x && Divides(f, x)
  {
    var k := x / e;
    assert x == e * k;
    QuotientAtLeastTwo(x, e, k);
    MultipleDivides(x, k, e);
    if e <= k {
      FactorLe(e, e, k);
      f := e;
    } else {
      FactorLe(k, k, e);
      f := k;
    }
  }

  lemma QuotientAtLeastTwo(x: int, e: int, k: int)
    requires 2 <= e < x && x == e * k
    ensures k >= 2
  {
  }

  lemma MultipleDivides(x: int, k: int, e: int)
    requires k > 0 && x == e * k
    ensures Divides(k, x)
  {
    ExactDiv(x, k, e);
    assert x == k * (x / k) + x % k;
  }

  lemma FactorLe(a: int, b: int, c: int)
    requires a >= 0 && b <= c
    ensures a * b <= a * c
  {
  }

  /** The harness's encoding of a fraction as one integer: `numerator*1000 + denominator`. */
  function Encode(f: Fraction): int {
    f.numerator * 1000 + f.denominator
  }

  /** Splits an encoding back into numerator and denominator. */
  function Decode(v: int): Fraction {
    Fraction(v / 1000, v % 1000)
  }

  /** The encoding keeps numerator and denominator apart as long as the
      denominator lies strictly between 0 and 1000. */
  lemma DecodeEncode(f: Fraction)
    requires 0 < f.denominator < 1000
    ensures Decode(Encode(f)) == f
  {
    var v := Encode(f);
    assert v == 1000 * f.numerator + f.denominator;
    assert v / 1000 == f.numerator && v % 1000 == f.denominator;
  }

  /** On such denominators, equal encodings mean equal fractions. */
  lemma EncodeInjective(f: Fraction, g: Fraction)
    requires 0 < f.denominator < 1000 && 0 < g.denominator < 1000
    requires Encode(f) == Encode(g)
    ensures f == g
  {
    DecodeEncode(f);
    DecodeEncode(g);
  }

  /** `simplify_encode(a, b)`: `Fraction(a, b)` encoded. */
  function SimplifyEncode(a: int, b: int): (r: Outcome<int>)
    ensures r.ZeroDivisionError? <==> b == 0
  {
    match Make(a, b)
    case Value(f) => Value(Encode(f))
    case ZeroDivisionError => ZeroDivisionError
  }

  /** For positive a and b the encoding is (a/g)*1000 + b/g with g = gcd(a, b),
      and a/g, b/g are coprime. */
  lemma SimplifyEncodeByGcd(a: int, b: int)
    requires a > 0 && b > 0
    ensures Gcd(a, b) > 0 && a / Gcd(a, b) > 0 && b / Gcd(a, b) > 0
    ensures SimplifyEncode(a, b) == Value((a / Gcd(a, b)) * 1000 + b / Gcd(a, b))
    ensures Gcd(a / Gcd(a, b), b / Gcd(a, b)) == 1
  {
    GcdPositive(a, b);
    NormalizeCorrect(a, b);
    var g := Gcd(a, b);
    assert Abs(a) == a && Abs(b) == b;
    var f := Normalize(a, b);
    assert f == Fraction(a / g, b / g);
    var ka, kb := GcdDivides(a, b);
    ExactDiv(a, g, ka);
    assert Abs(f.numerator) == a / g;
  }

  /** Whenever |b| < 1000 the encoding decodes to `Fraction(a, b)`: lowest terms,
      positive denominator, value a/b. */
  lemma SimplifyEncodeDecodes(a: int, b: int)
    requires b != 0 && Abs(b) < 1000
    ensures SimplifyEncode(a, b).Value?
    ensures Decode(SimplifyEncode(a, b).value) == Normalize(a, b)
    ensures Normalize(a, b).Valid()
    ensures SameValue(Normalize(a, b).numerator, Normalize(a, b).denominator, a, b)
  {
    NormalizeCorrect(a, b);
    DecodeEncode(Normalize(a, b));
  }

  /** test_frac_simplify's range: a, b in [5, 20) give a denominator of at most 19. */
  lemma SimplifyEncodeTestRange(a: int, b: int)
    requires 5 <= a < 20 && 5 <= b < 20
    ensures SimplifyEncode(a, b).Value?
    ensures 1 <= Normalize(a, b).denominator <= 19
    ensures Decode(SimplifyEncode(a, b).value) == Normalize(a, b)
  {
    SimplifyEncodeDecodes(a, b);
    NormalizeCorrect(a, b);
  }

  /** The fraction `arith_encode` computes before encoding it: op 1 subtracts,
      op 2 adds, op 3 multiplies and every other op divides. */
  function ArithFraction(op: int, a: int, b: int, c: int, d: int): (r: Outcome<Fraction>)
    ensures r.ZeroDivisionError? <==> (b == 0 || d == 0 || (op !in {1, 2, 3} && c == 0))
    ensures r.Value? ==> r.value.Valid()
  {
    if b == 0 || d == 0 then ZeroDivisionError
    else
      NormalizeCorrect(a, b);
      NormalizeCorrect(c, d);
      SubCorrect(a, b, c, d);
      AddCorrect(a, b, c, d);
      MulCorrect(a, b, c, d);
      DivCorrect(a, b, c, d);
      var x, y := Normalize(a, b), Normalize(c, d);
      if op == 1 then Value(Sub(x, y))
      else if op == 2 then Value(Add(x, y))
      else if op == 3 then Value(Mul(x, y))
      else Div(x, y)
  }

  /** `arith_encode(op, a, b, c, d)`. */
  function ArithEncode(op: int, a: int, b: int, c: int, d: int): (r: Outcome<int>)
    ensures r.ZeroDivisionError? <==> (b == 0 || d == 0 || (op !in {1, 2, 3} && c == 0))
  {
    match ArithFraction(op, a, b, c, d)
    case Value(f) => Value(Encode(f))
    case ZeroDivisionError => ZeroDivisionError
  }

  /** What each op computes, in terms of the unreduced operands. */
  lemma ArithFractionDispatch(op: int, a: int, b: int, c: int, d: int)
    requires b != 0 && d != 0
    ensures op == 1 ==> ArithFraction(op, a, b, c, d) == Value(Normalize(a * d - c * b, b * d))
    ensures op == 2 ==> ArithFraction(op, a, b, c, d) == Value(Normalize(a * d + c * b, b * d))
    ensures op == 3 ==> ArithFraction(op, a, b, c, d) == Value(Normalize(a * c, b * d))
    ensures op !in {1, 2, 3} && c != 0 ==> ArithFraction(op, a, b, c, d) == Value(Normalize(a * d, b * c))
  {
    SubCorrect(a, b, c, d);
    AddCorrect(a, b, c, d);
    MulCorrect(a, b, c, d);
    DivCorrect(a, b, c, d);
  }

  /** test_frac_add passes op 0, which divides; test_frac_mul passes op 2, which
      adds; test_frac_div passes op 3, which multiplies; only test_frac_sub (op 1)
      exercises the operation it is named after. Together the four still cover
      all four operations. */
  lemma TestOpsMeaning(a: int, b: int, c: int, d: int)
    requires 5 <= a < 10 && 5 <= b < 10 && 5 <= c < 10 && 5 <= d < 10
    ensures ArithFraction(0, a, b, c, d) == Value(Normalize(a * d, b * c))
    ensures ArithFraction(1, a, b, c, d) == Value(Normalize(a * d - c * b, b * d))
    ensures ArithFraction(2, a, b, c, d) == Value(Normalize(a * d + c * b, b * d))
    ensures ArithFraction(3, a, b, c, d) == Value(Normalize(a * c, b * d))
  {
    ArithFractionDispatch(0, a, b, c, d);
    ArithFractionDispatch(1, a, b, c, d);
    ArithFractionDispatch(2, a, b, c, d);
    ArithFractionDispatch(3, a, b, c, d);
  }

  /** On the inputs a = b = c = d = 5, `arith_encode(0, ...)` is 1001 (5/5 divided
      by 5/5), not the 2001 that adding the two fractions would give. */
  lemma TestFracAddDivides()
    ensures ArithEncode(0, 5, 5, 5, 5) == Value(1001)
    ensures Encode(Normalize(5 * 5 + 5 * 5, 5 * 5)) == 2001
  {
    ArithFractionDispatch(0, 5, 5, 5, 5);
    NormalizeOf(25, 25, 25, 1, 1);
    NormalizeOf(50, 25, 25, 2, 1);
  }

  /** The reduction of g*n / g*d, given that g is their gcd. */
  lemma NormalizeOf(a: int, b: int, g: nat, n: int, d: nat)
    requires b > 0 && g > 0 && a == g * n && b == g * d
    requires Gcd(Abs(a), b) == g
    ensures Normalize(a, b) == Fraction(n, d)
  {
    ExactDiv(a, g, n);
    ExactDiv(b, g, d);
  }

  /** A product of two factors in [5, 10) lies in [25, 81]. */
  lemma ProductInTestRange(x: int, y: int)
    requires 5 <= x < 10 && 5 <= y < 10
    ensures 25 <= x * y <= 81
  {
    FactorLe(x, y, 9);
    FactorLe(9, x, 9);
    FactorLe(x, 5, y);
    FactorLe(5, 5, x);
  }

  /** Reducing n/m with 0 < m <= 81 gives a denominator in [1, 81], which the
      encoding carries without loss. */
  lemma SmallDenominator(n: int, m: int)
    requires 0 < m <= 81
    ensures 1 <= Normalize(n, m).denominator <= 81
    ensures Decode(Encode(Normalize(n, m))) == Normalize(n, m)
  {
    NormalizeCorrect(n, m);
    DecodeEncode(Normalize(n, m));
  }

  /** In the tests' range [5, 10) every op produces a fraction whose denominator is
      positive and at most 81 (< 1000), so the encoding decodes to it. */
  lemma ArithTestRange(op: int, a: int, b: int, c: int, d: int)
    requires 5 <= a < 10 && 5 <= b < 10 && 5 <= c < 10 && 5 <= d < 10
    ensures ArithFraction(op, a, b, c, d).Value?
    ensures 1 <= ArithFraction(op, a, b, c, d).value.denominator <= 81
    ensures ArithEncode(op, a, b, c, d).Value?
    ensures Decode(ArithEncode(op, a, b, c, d).value) == ArithFraction(op, a, b, c, d).value
  {
    ArithFractionDispatch(op, a, b, c, d);
    ProductInTestRange(b, d);
    ProductInTestRange(b, c);
    if op == 1 {
      SmallDenominator(a * d - c * b, b * d);
    } else if op == 2 {
      SmallDenominator(a * d + c * b, b * d);
    } else if op == 3 {
      SmallDenominator(a * c, b * d);
    } else {
      SmallDenominator(a * d, b * c);
    }
  }
}
