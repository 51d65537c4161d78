/** Compile-time rationals in the manner of std::ratio (section [ratio.ratio] of
    ISO/IEC 14882): a ratio is always stored reduced by the gcd of its arguments, with a
    positive denominator; a zero denominator is ill-formed. The library uses these both for
    dimensions and for scales. */
module Ratios {
  import opened Wrappers

  function Abs(x: int): nat { if x < 0 then -x else x }

  function Sign(x: int): int { if x < 0 then -1 else if x == 0 then 0 else 1 }

  /** Greatest common divisor by Euclid's algorithm; Gcd(0, 0) == 0. */
  function Gcd(a: nat, b: nat): nat
    decreases b
  {
    if b == 0 then a else Gcd(b, a % b)
  }

  /** The template arguments of std::ratio<N, D>, not yet reduced. */
  datatype Fraction = Fraction(num: int, den: int)

  /** The form in which std::ratio exposes `num` and `den`. */
  predicate IsReduced(f: Fraction) {
    f.den > 0 && Gcd(Abs(f.num), f.den) == 1
  }

  type Ratio = f: Fraction | IsReduced(f) witness Fraction(1, 1)

  /** std::ratio<1, 1> */
  const One: Ratio := Fraction(1, 1)

  /** The number a fraction denotes. */
  function Value(f: Fraction): real
    requires f.den != 0
  {
    f.num as real / f.den as real
  }

  // ---------------------------------------------------------------------------
  // Integer division facts

  lemma MulLeq(x: int, y: int, b: int)
    requires x <= y && b > 0
    ensures x * b <= y * b
  {
    assert y * b - x * b == (y - x) * b;
  }

  lemma DivModUnique(a: int, b: int, q: int, r: int)
    requires b > 0 && a == q * b + r && 0 <= r < b
    ensures a / b == q && a % b == r
  {
    var q0, r0 := a / b, a % b;
    assert a == q0 * b + r0;
    if q > q0 {
      MulLeq(q0 + 1, q, b);
      assert false;
    } else if q < q0 {
      MulLeq(q + 1, q0, b);
      assert false;
    }
  }

  lemma MulDivExact(g: int, k: int)
    requires g > 0
    ensures (g * k) / g == k && (g * k) % g == 0
  {
    DivModUnique(g * k, g, k, 0);
  }

  // ---------------------------------------------------------------------------
  // Gcd facts

  lemma {:induction false} GcdPositive(a: nat, b: nat)
    requires a > 0 || b > 0
    ensures Gcd(a, b) > 0
    decreases b
  {
    if b != 0 {
      GcdPositive(b, a % b);
    }
  }

  lemma {:induction false} GcdDivides(a: nat, b: nat)
    requires a > 0 || b > 0
    ensures Gcd(a, b) > 0 && a % Gcd(a, b) == 0 && b % Gcd(a, b) == 0
    decreases b
  {
    GcdPositive(a, b);
    var g := Gcd(a, b);
    if b == 0 {
      MulDivExact(a, 1);
      MulDivExact(a, 0);
    } else {
      GcdDivides(b, a % b);
      DividesCombination(a, b, g);
    }
  }

  /** A common divisor of b and a % b divides a. */
  lemma DividesCombination(a: nat, b: nat, g: nat)
    requires b > 0 && g > 0 && b % g == 0 && (a % b) % g == 0
    ensures a % g == 0
  {
    var kb, kr, q := b / g, (a % b) / g, a / b;
    assert a == g * (q * kb + kr) by {
      assert b == g * kb;
      assert a % b == g * kr;
      assert a == q * b + a % b;
      assert q * b == g * (q * kb);
    }
    MulDivExact(g, q * kb + kr);
  }

  /** Scaling both arguments scales the gcd. */
  lemma {:induction false} GcdScale(a: nat, b: nat, k: nat)
    requires k > 0
    ensures Gcd(a * k, b * k) == Gcd(a, b) * k
    decreases b
  {
    if b != 0 {
      var q, r := a / b, a % b;
      assert a == q * b + r;
      assert a * k == q * (b * k) + r * k;
      MulLeq(r + 1, b, k);
      DivModUnique(a * k, b * k, q, r * k);
      GcdScale(b, r, k);
    }
  }

  // ---------------------------------------------------------------------------
  // Reduction

  lemma ReduceFacts(n: int, d: int)
    requires d != 0
    ensures var g := Gcd(Abs(n), Abs(d));
            && g > 0
            && Abs(n) == g * (Abs(n) / g)
            && Abs(d) == g * (Abs(d) / g)
            && Abs(d) / g > 0
            && Gcd(Abs(n) / g, Abs(d) / g) == 1
  {
    var a, b := Abs(n), Abs(d);
    GcdDivides(a, b);
    var g := Gcd(a, b);
    var p, q := a / g, b / g;
    assert a == g * p;
    assert b == g * q;
    if q <= 0 {
      MulLeq(q, 0, g);
      assert false;
    }
    GcdScale(p, q, g);
    assert p * g == a && q * g == b;
    assert Gcd(p, q) * g == 1 * g;
    if Gcd(p, q) > 1 {
      MulLeq(2, Gcd(p, q), g);
      assert false;
    }
    GcdPositive(p, q);
  }

  /** std::ratio<N, D>::num and ::den: the fraction reduced, the sign carried by the
      numerator. */
  function Reduce(n: int, d: int): Ratio
    requires d != 0
  {
    ReduceFacts(n, d);
    var g := Gcd(Abs(n), Abs(d));
    var p, q := Abs(n) / g, Abs(d) / g;
    AbsSigned(Sign(n) * Sign(d), p);
    Fraction(Sign(n) * Sign(d) * p, q)
  }

  lemma AbsSigned(s: int, p: int)
    requires p >= 0 && (s == 1 || s == -1 || (s == 0 && p == 0))
    ensures Abs(s * p) == p
  {
  }

  /** The reduced fraction is cross-equal to N/D. */
  lemma ReduceCrossEqual(n: int, d: int)
    requires d != 0
    ensures Reduce(n, d).num * d == n * Reduce(n, d).den
  {
    ReduceFacts(n, d);
    var g := Gcd(Abs(n), Abs(d));
    ReduceCross(n, d, g, Abs(n) / g, Abs(d) / g);
  }

  lemma ReduceCross(n: int, d: int, g: int, p: int, q: int)
    requires Abs(n) == g * p && Abs(d) == g * q
    ensures (Sign(n) * Sign(d) * p) * d == n * q
  {
    assert p * (g * q) == (g * p) * q;
    if n < 0 && d < 0 {
      assert (Sign(n) * Sign(d) * p) * d == p * d;
    } else if n < 0 {
      assert (Sign(n) * Sign(d) * p) * d == -(p * d);
    } else if d < 0 {
      assert (Sign(n) * Sign(d) * p) * d == -(p * d) || n == 0;
    }
  }

  /** std::ratio<N, D> as a template argument list: ill-formed when D is zero. */
  function Make(n: int, d: int): (r: Option<Ratio>)
    ensures r.None? <==> d == 0
  {
    if d == 0 then None else Some(Reduce(n, d))
  }

  lemma {:induction false} ReduceNegate(n: int, d: int)
    requires d != 0
    ensures Reduce(-n, -d) == Reduce(n, d)
  {
    assert Abs(-n) == Abs(n) && Abs(-d) == Abs(d);
    assert Sign(-n) * Sign(-d) == Sign(n) * Sign(d);
  }

  /** Multiplying numerator and denominator by the same non-zero factor does not change the
      reduced ratio. */
  lemma ReduceScale(n: int, d: int, k: int)
    requires d != 0 && k != 0
    ensures Reduce(n * k, d * k) == Reduce(n, d)
  {
    if k < 0 {
      assert n * k == -(n * -k) && d * k == -(d * -k);
      ReduceNegate(n * -k, d * -k);
      ReduceScalePositive(n, d, -k);
    } else {
      ReduceScalePositive(n, d, k);
    }
  }

  lemma MulPositive(n: int, k: int)
    requires k > 0
    ensures Abs(n * k) == Abs(n) * k && Sign(n * k) == Sign(n)
  {
    if n < 0 {
      MulLeq(n, -1, k);
      assert n * k == -(Abs(n) * k);
    } else if n > 0 {
      MulLeq(1, n, k);
    }
  }

  lemma ReduceScalePositive(n: int, d: int, k: int)
    requires d != 0 && k > 0
    ensures Reduce(n * k, d * k) == Reduce(n, d)
  {
    var a, b := Abs(n), Abs(d);
    MulPositive(n, k);
    MulPositive(d, k);
    ReduceFacts(n, d);
    var g := Gcd(a, b);
    GcdScale(a, b, k);
    var p, q := a / g, b / g;
    assert (a * k) / (g * k) == p by {
      ScaleProduct(a, g, p, k);
      MulDivExact(g * k, p);
    }
    assert (b * k) / (g * k) == q by {
      ScaleProduct(b, g, q, k);
      MulDivExact(g * k, q);
    }
    ReduceUnfold(n * k, d * k);
    ReduceUnfold(n, d);
  }

  lemma ScaleProduct(a: int, g: int, p: int, k: int)
    requires a == g * p
    ensures a * k == (g * k) * p
  {
  }

  lemma ReduceUnfold(n: int, d: int)
    requires d != 0
    ensures var g := Gcd(Abs(n), Abs(d));
            g > 0 && Reduce(n, d) == Fraction(Sign(n) * Sign(d) * (Abs(n) / g), Abs(d) / g)
  {
    ReduceFacts(n, d);
  }

  /** Two fractions denoting the same number reduce to the same ratio: the reduced form is
      canonical. */
  lemma ReduceCanonical(n1: int, d1: int, n2: int, d2: int)
    requires d1 != 0 && d2 != 0 && n1 * d2 == n2 * d1
    ensures Reduce(n1, d1) == Reduce(n2, d2)
  {
    ReduceScale(n1, d1, d2);
    ReduceScale(n2, d2, d1);
    assert d1 * d2 == d2 * d1;
  }

  /** Reducing a ratio that is already reduced gives it back. */
  lemma ReduceReduced(r: Ratio)
    ensures Reduce(r.num, r.den) == r
  {
    var g := Gcd(Abs(r.num), r.den);
    assert g == 1;
    assert Abs(r.num) / 1 == Abs(r.num) && r.den / 1 == r.den;
    assert Sign(r.den) == 1;
    assert Sign(r.num) * Abs(r.num) == r.num;
  }

  /** Reduced ratios are equal exactly when they denote the same number, so std::ratio_equal
      (which compares num and den) is equality of values. */
  lemma EqualIffSameValue(a: Ratio, b: Ratio)
    ensures a == b <==> a.num * b.den == b.num * a.den
  {
    if a.num * b.den == b.num * a.den {
      ReduceReduced(a);
      ReduceReduced(b);
      ReduceCanonical(a.num, a.den, b.num, b.den);
    }
  }

  lemma EqualIffSameReal(a: Ratio, b: Ratio)
    ensures a == b <==> Value(a) == Value(b)
  {
    EqualIffSameValue(a, b);
    CrossReal(a.num, a.den, b.num, b.den);
  }

  /** Cross-multiplication in the integers is equality of quotients in the reals. */
  lemma CrossReal(n1: int, d1: int, n2: int, d2: int)
    requires d1 != 0 && d2 != 0
    ensures n1 * d2 == n2 * d1 <==> n1 as real / d1 as real == n2 as real / d2 as real
  {
    var x1, y1, x2, y2 := n1 as real, d1 as real, n2 as real, d2 as real;
    assert (n1 * d2) as real == x1 * y2;
    assert (n2 * d1) as real == x2 * y1;
    if x1 / y1 == x2 / y2 {
      assert x1 == (x1 / y1) * y1;
      assert x2 == (x2 / y2) * y2;
      assert x1 * y2 == (x1 / y1) * y1 * y2;
      assert x2 * y1 == (x2 / y2) * y2 * y1;
    }
  }

  lemma ReduceValue(n: int, d: int)
    requires d != 0
    ensures Value(Reduce(n, d)) == n as real / d as real
  {
    var r := Reduce(n, d);
    ReduceCrossEqual(n, d);
    CrossReal(r.num, r.den, n, d);
  }

  // ---------------------------------------------------------------------------
  // Arithmetic ([ratio.arithmetic]) and comparison ([ratio.comparison])

  lemma FracMul(x1: real, y1: real, x2: real, y2: real)
    requires y1 != 0.0 && y2 != 0.0
    ensures (x1 * x2) / (y1 * y2) == (x1 / y1) * (x2 / y2)
  {
  }

  lemma CastMul(a: int, b: int)
    ensures (a * b) as real == a as real * b as real
  {
  }

  /** The fraction N/D with N = n1 * n2 and D = d1 * d2 denotes the product. */
  lemma ProductValue(n1: int, d1: int, n2: int, d2: int)
    requires d1 != 0 && d2 != 0
    ensures d1 * d2 != 0
    ensures (n1 * n2) as real / (d1 * d2) as real == (n1 as real / d1 as real) * (n2 as real / d2 as real)
  {
    CastMul(n1, n2);
    CastMul(d1, d2);
    FracMul(n1 as real, d1 as real, n2 as real, d2 as real);
  }

  /** std::ratio_multiply<R1, R2>. */
  function Multiply(a: Ratio, b: Ratio): Ratio {
    Reduce(a.num * b.num, a.den * b.den)
  }

  /** The product ratio denotes the product of the numbers. */
  lemma MultiplyValue(a: Ratio, b: Ratio)
    ensures Value(Multiply(a, b)) == Value(a) * Value(b)
  {
    ProductValue(a.num, a.den, b.num, b.den);
    ReduceValue(a.num * b.num, a.den * b.den);
  }

  /** std::ratio_divide<R1, R2>: ill-formed when R2 is zero. */
  function Divide(a: Ratio, b: Ratio): (r: Option<Ratio>)
    ensures r.None? <==> b.num == 0
  {
    if b.num == 0 then None
    else
      assert a.den * b.num != 0;
      Some(Reduce(a.num * b.den, a.den * b.num))
  }

  /** The quotient ratio times the divisor denotes the dividend. */
  lemma DivideValue(a: Ratio, b: Ratio)
    requires b.num != 0
    ensures Value(Divide(a, b).value) * Value(b) == Value(a)
  {
    QuotientRatio(a, b);
  }

  /** A non-zero ratio divided by itself is 1/1. */
  lemma DivideSelf(a: Ratio)
    requires a.num != 0
    ensures Divide(a, a) == Some(One)
  {
    assert a.num * a.den == a.den * a.num;
    ReduceCanonical(a.num * a.den, a.den * a.num, 1, 1);
    ReduceReduced(One);
  }

  lemma QuotientRatio(a: Ratio, b: Ratio)
    requires b.num != 0
    ensures a.den * b.num != 0
    ensures Value(Reduce(a.num * b.den, a.den * b.num)) * Value(b) == Value(a)
  {
    hide Gcd, Reduce;
    ProductValue(a.num, a.den, b.den, b.num);
    var r := Reduce(a.num * b.den, a.den * b.num);
    ReduceValue(a.num * b.den, a.den * b.num);
    assert Value(r) == Value(a) * (b.den as real / b.num as real);
    QuotientValue(a.num, a.den, b.num, b.den);
  }

  lemma QuotientValue(n1: int, d1: int, n2: int, d2: int)
    requires d1 != 0 && n2 != 0 && d2 != 0
    ensures (n1 as real / d1 as real) * (d2 as real / n2 as real) * (n2 as real / d2 as real)
            == n1 as real / d1 as real
  {
    var v, x, y := n1 as real / d1 as real, n2 as real, d2 as real;
    assert x != 0.0 && y != 0.0;
    ReciprocalProduct(x, y);
    assert v * (y / x) * (x / y) == v * ((y / x) * (x / y));
    assert v * (y / x) * (x / y) == v;
    assert (n1 as real / d1 as real) * (d2 as real / n2 as real) * (n2 as real / d2 as real) == v;
  }

  lemma ReciprocalProduct(x: real, y: real)
    requires x != 0.0 && y != 0.0
    ensures (y / x) * (x / y) == 1.0
  {
    var p, q := y / x, x / y;
    assert p * x == y;
    assert q * y == x;
    assert (p * q) * (x * y) == (p * x) * (q * y);
    assert (p * q - 1.0) * (x * y) == 0.0;
    assert x * y != 0.0;
  }

  /** std::ratio_divide<std::ratio<1, 1>, R>. */
  function Invert(a: Ratio): (r: Option<Ratio>)
    ensures r.None? <==> a.num == 0
    ensures r.Some? ==> Multiply(a, r.value) == One
  {
    var r := Divide(One, a);
    if r.Some? then
      assert Value(Multiply(a, r.value)) == Value(One) by {
        MultiplyValue(a, r.value);
        DivideValue(One, a);
      }
      EqualIffSameReal(Multiply(a, r.value), One);
      r
    else r
  }

  /** std::ratio_equal<R1, R2>: both members equal. */
  predicate RatioEqual(a: Fraction, b: Fraction) {
    a.num == b.num && a.den == b.den
  }

  // ---------------------------------------------------------------------------
  // Laws

  lemma MultiplyCommutative(a: Ratio, b: Ratio)
    ensures Multiply(a, b) == Multiply(b, a)
  {
    MultiplyValue(a, b);
    MultiplyValue(b, a);
    EqualIffSameReal(Multiply(a, b), Multiply(b, a));
  }

  lemma MultiplyAssociative(a: Ratio, b: Ratio, c: Ratio)
    ensures Multiply(Multiply(a, b), c) == Multiply(a, Multiply(b, c))
  {
    hide Gcd, Reduce;
    MultiplyValue(a, b);
    MultiplyValue(Multiply(a, b), c);
    MultiplyValue(b, c);
    MultiplyValue(a, Multiply(b, c));
    assert Value(Multiply(Multiply(a, b), c)) == Value(a) * Value(b) * Value(c);
    EqualIffSameReal(Multiply(Multiply(a, b), c), Multiply(a, Multiply(b, c)));
  }

  lemma MultiplyOne(a: Ratio)
    ensures Multiply(a, One) == a && Multiply(One, a) == a
  {
    MultiplyValue(a, One);
    MultiplyValue(One, a);
    EqualIffSameReal(Multiply(a, One), a);
    EqualIffSameReal(Multiply(One, a), a);
  }

  lemma InverseUnique(x: real, z: real, y: real)
    requires x * y == 1.0 && z * y == 1.0
    ensures x == z
  {
    assert x == x * (z * y);
    assert z == z * (x * y);
  }

  lemma InvertValue(a: Ratio)
    requires a.num != 0
    ensures Invert(a).Some? && Invert(a).value.num != 0
    ensures Value(a) * Value(Invert(a).value) == 1.0
  {
    hide Gcd, Reduce;
    var i := Invert(a).value;
    assert Multiply(a, i) == One;
    MultiplyValue(a, i);
    assert Value(One) == 1.0;
  }

  /** Inverting twice gives the ratio back. */
  lemma InvertInvolution(a: Ratio)
    requires a.num != 0
    ensures Invert(a).Some? && Invert(Invert(a).value) == Some(a)
  {
    hide Gcd, Reduce;
    InvertValue(a);
    var i := Invert(a).value;
    InvertValue(i);
    var ii := Invert(i).value;
    InverseUnique(Value(ii), Value(a), Value(i));
    EqualIffSameReal(ii, a);
  }
}
