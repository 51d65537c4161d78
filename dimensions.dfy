/** The dimension encoding: a dimension is a product of the base types' primes and their
    inverses, so a dimension minted on another prime p (a SpecifiedUnit on
    std::ratio<p, 1>) can never be equivalent to one built from the six base units.
    The argument is by unique factorisation: no ratio built from the base primes has p in
    its numerator or its denominator. */
module Dimensions {
  import opened Wrappers
  import opened Ratios
  import opened Numerics
  import opened Units

  /** p divides neither the numerator nor the denominator of r. */
  predicate FreeOf(p: nat, r: Ratio)
    requires p > 1
  {
    Abs(r.num) % p != 0 && r.den % p != 0
  }

  // ---------------------------------------------------------------------------
  // Euclid's lemma

  /** A prime dividing a * b with 0 < a < p divides b: descend on a through p % a. */
  lemma {:induction false} EuclidBelow(p: nat, a: nat, b: nat, m: int)
    requires IsPrime(p) && 0 < a < p && a * b == m * p
    ensures b % p == 0
    decreases a
  {
    if a == 1 {
      assert b == p * m;
      MulDivExact(p, m);
    } else {
      var q, r := p / a, p % a;
      assert p == q * a + r;
      assert r != 0;
      calc {
        r * b;
        (p - q * a) * b;
        p * b - q * (a * b);
        p * b - q * (m * p);
        (b - q * m) * p;
      }
      EuclidBelow(p, r, b, b - q * m);
    }
  }

  /** Euclid's lemma: a prime dividing a product divides one of its factors. */
  lemma Euclid(p: nat, a: nat, b: nat)
    requires IsPrime(p) && (a * b) % p == 0
    ensures a % p == 0 || b % p == 0
  {
    if a % p != 0 {
      var q, r := a / p, a % p;
      var m := (a * b) / p;
      assert a * b == m * p;
      assert a == q * p + r;
      calc {
        r * b;
        (a - q * p) * b;
        a * b - q * p * b;
        m * p - (q * b) * p;
        (m - q * b) * p;
      }
      EuclidBelow(p, r, b, m - q * b);
    }
  }

  // ---------------------------------------------------------------------------
  // Helpers on divisibility

  lemma AbsProduct(x: int, y: int)
    ensures Abs(x * y) == Abs(x) * Abs(y)
  {
  }

  /** A multiple of a multiple of p is a multiple of p. */
  lemma MultipleOfMultiple(p: nat, g: nat, k: nat)
    requires p > 0 && k % p == 0
    ensures (g * k) % p == 0
  {
    var j := k / p;
    assert k == p * j;
    assert g * k == p * (g * j);
    MulDivExact(p, g * j);
  }

  /** A product of two numbers that p does not divide is not divisible by p. */
  lemma ProductFree(p: nat, x: int, y: int)
    requires IsPrime(p) && Abs(x) % p != 0 && Abs(y) % p != 0
    ensures Abs(x * y) % p != 0
  {
    AbsProduct(x, y);
    if Abs(x * y) % p == 0 {
      Euclid(p, Abs(x), Abs(y));
    }
  }

  /** Reduction only removes factors: whatever p does not divide before, it does not divide
      after. */
  lemma ReduceFree(p: nat, n: int, d: int)
    requires p > 1 && d != 0 && Abs(n) % p != 0 && Abs(d) % p != 0
    ensures FreeOf(p, Reduce(n, d))
  {
    ReduceFacts(n, d);
    var r := Reduce(n, d);
    var g := Gcd(Abs(n), Abs(d));
    AbsSigned(Sign(n) * Sign(d), Abs(n) / g);
    assert Abs(r.num) == Abs(n) / g && r.den == Abs(d) / g;
    if Abs(r.num) % p == 0 {
      MultipleOfMultiple(p, g, Abs(r.num));
    }
    if r.den % p == 0 {
      MultipleOfMultiple(p, g, r.den);
    }
  }

  // ---------------------------------------------------------------------------
  // Closure of the dimension algebra

  /** std::ratio_multiply keeps p out of both members. */
  lemma FreeOfMultiply(p: nat, a: Ratio, b: Ratio)
    requires IsPrime(p) && FreeOf(p, a) && FreeOf(p, b)
    ensures FreeOf(p, Multiply(a, b))
  {
    hide Gcd;
    ProductFree(p, a.num, b.num);
    ProductFree(p, a.den, b.den);
    ReduceFree(p, a.num * b.num, a.den * b.den);
  }

  /** std::ratio_divide, and so UnitInverse, keeps p out of both members. */
  lemma FreeOfDivide(p: nat, a: Ratio, b: Ratio)
    requires IsPrime(p) && FreeOf(p, a) && FreeOf(p, b) && b.num != 0
    ensures FreeOf(p, Divide(a, b).value)
  {
    hide Gcd;
    ProductFree(p, a.num, b.den);
    ProductFree(p, a.den, b.num);
    ReduceFree(p, a.num * b.den, a.den * b.num);
  }

  /** RecursiveRatioMultiply over ratios free of p is free of p. */
  lemma {:induction false} FreeOfProduct(p: nat, rs: seq<Ratio>)
    requires IsPrime(p) && forall i :: 0 <= i < |rs| ==> FreeOf(p, rs[i])
    ensures FreeOf(p, RatioProduct(rs))
  {
    if rs == [] {
      assert RatioProduct(rs) == One;
    } else {
      FreeOfProduct(p, rs[1..]);
      FreeOfMultiply(p, rs[0], RatioProduct(rs[1..]));
    }
  }

  /** A base type's prime, and its inverse, are free of every other prime. */
  lemma BaseFree(p: nat, t: BaseType)
    requires IsPrime(p) && Prime(t) != p
    ensures FreeOf(p, BaseUnit(t, Floating).dim)
    ensures FreeOf(p, Invert(BaseUnit(t, Floating).dim).value)
  {
    PrimesArePrime(t);
    var d := BaseUnit(t, Floating).dim;
    assert Abs(d.num) % p != 0 by {
      if p < Prime(t) {
        assert 1 < p < Prime(t);
      }
    }
    FreeOfDivide(p, One, d);
  }

  /** A dimension of the base-unit algebra: a base type's prime or its inverse. */
  predicate BaseFactor(d: Ratio) {
    exists t: BaseType :: d == BaseUnit(t, Floating).dim || d == Invert(BaseUnit(t, Floating).dim).value
  }

  /** std::ratio<p, 1> is already in lowest terms. */
  lemma WholeReduced(p: nat)
    requires p > 0
    ensures Reduce(p, 1) == Fraction(p, 1)
  {
    assert Gcd(p, 1) == Gcd(1, 0);
    ReduceReduced(Fraction(p, 1));
  }

  /** Custom-dimension isolation: a SpecifiedUnit on a prime p other than the six base primes
      is never equivalent to a MultiUnit of base units and their inverses, whatever the
      scales and value types involved. */
  lemma CustomDimensionIsolated(p: nat, r: Fraction, k: NumKind, ts: seq<Descriptor>)
    requires IsPrime(p) && forall t: BaseType :: Prime(t) != p
    requires r.den != 0
    requires |ts| > 0 && forall i :: 0 <= i < |ts| ==> BaseFactor(ts[i].dim)
    ensures SpecifiedUnit(Fraction(p, 1), r, k).Ok? && MultiUnit(ts).Ok?
    ensures !Equivalent(SpecifiedUnit(Fraction(p, 1), r, k).value, MultiUnit(ts).value)
  {
    hide Gcd, Reduce;
    var ds := Dims(ts);
    forall i | 0 <= i < |ds| ensures FreeOf(p, ds[i]) {
      var t: BaseType :| ts[i].dim == BaseUnit(t, Floating).dim || ts[i].dim == Invert(BaseUnit(t, Floating).dim).value;
      BaseFree(p, t);
    }
    FreeOfProduct(p, ds);
    var custom := SpecifiedUnit(Fraction(p, 1), r, k).value;
    WholeReduced(p);
    assert custom.dim == Fraction(p, 1);
    MulDivExact(p, 1);
    assert !FreeOf(p, custom.dim);
  }

  /** In particular a custom dimension is never equivalent to one of the six base units. */
  lemma CustomNotBase(p: nat, r: Fraction, k: NumKind, t: BaseType, k2: NumKind)
    requires IsPrime(p) && forall s: BaseType :: Prime(s) != p
    requires r.den != 0
    ensures SpecifiedUnit(Fraction(p, 1), r, k).Ok?
    ensures !Equivalent(SpecifiedUnit(Fraction(p, 1), r, k).value, BaseUnit(t, k2))
  {
    var b := BaseUnit(t, k2);
    assert b.dim == BaseUnit(t, Floating).dim;
    assert BaseFactor(b.dim);
    CustomDimensionIsolated(p, r, k, [b]);
    MultiUnitSingle(b);
  }
}
