/** The values a unit holds: an arithmetic type that is either integral or floating, with
    C++'s usual arithmetic conversions (an int combined with an int stays int, anything
    combined with a double is a double), integer division truncating toward zero and
    static_cast from floating to integral discarding the fraction. Floating values are
    exact reals here. */
module Numerics {
  import opened Ratios

  datatype NumKind = Integral | Floating

  datatype Num = Int(i: int) | Real(r: real)

  function KindOf(n: Num): NumKind {
    if n.Int? then Integral else Floating
  }

  function ToReal(n: Num): real {
    match n
    case Int(i) => i as real
    case Real(r) => r
  }

  /** std::common_type of two arithmetic types, on kinds. */
  function Common(a: NumKind, b: NumKind): NumKind
  {
    if a == Integral && b == Integral then Integral else Floating
  }

  /** std::common_type over a pack does not depend on the order or the grouping of the
      types: it is commutative and associative, an integral type leaves the other type as
      it is, and a floating type absorbs every other. */
  lemma CommonLaws(a: NumKind, b: NumKind, c: NumKind)
    ensures Common(a, b) == Common(b, a)
    ensures Common(Common(a, b), c) == Common(a, Common(b, c))
    ensures Common(Integral, a) == a && Common(a, Floating) == Floating
  {
  }

  /** `a + b` */
  function Add(a: Num, b: Num): (r: Num)
    ensures KindOf(r) == Common(KindOf(a), KindOf(b))
    ensures ToReal(r) == ToReal(a) + ToReal(b)
  {
    if a.Int? && b.Int? then Int(a.i + b.i) else Real(ToReal(a) + ToReal(b))
  }

  /** `a - b` */
  function Sub(a: Num, b: Num): (r: Num)
    ensures KindOf(r) == Common(KindOf(a), KindOf(b))
    ensures ToReal(r) == ToReal(a) - ToReal(b)
  {
    if a.Int? && b.Int? then Int(a.i - b.i) else Real(ToReal(a) - ToReal(b))
  }

  /** `a * b` */
  function Mul(a: Num, b: Num): (r: Num)
    ensures KindOf(r) == Common(KindOf(a), KindOf(b))
    ensures ToReal(r) == ToReal(a) * ToReal(b)
  {
    if a.Int? && b.Int? then Int(a.i * b.i) else Real(ToReal(a) * ToReal(b))
  }

  /** Integer `a / b`: the algebraic quotient with its fractional part discarded. */
  function TruncDiv(a: int, b: int): (q: int)
    requires b != 0
    ensures Abs(q) * Abs(b) <= Abs(a) < (Abs(q) + 1) * Abs(b)
    ensures q == 0 || Sign(q) == Sign(a) * Sign(b)
  {
    TruncDivFacts(a, b);
    Sign(a) * Sign(b) * (Abs(a) / Abs(b))
  }

  lemma TruncDivFacts(a: int, b: int)
    requires b != 0
    ensures var m := Abs(a) / Abs(b);
            && m * Abs(b) <= Abs(a) < (m + 1) * Abs(b)
            && Abs(Sign(a) * Sign(b) * m) == m
            && (m == 0 || Sign(Sign(a) * Sign(b) * m) == Sign(a) * Sign(b))
  {
    var m, c := Abs(a) / Abs(b), Abs(b);
    assert Abs(a) == m * c + Abs(a) % c;
    assert (m + 1) * c == m * c + c;
    assert m >= 0;
    if a == 0 {
      assert Sign(a) * Sign(b) * m == 0;
    } else if Sign(a) * Sign(b) == 1 {
      assert Sign(a) * Sign(b) * m == m;
    } else {
      assert Sign(a) * Sign(b) == -1;
      assert Sign(a) * Sign(b) * m == -m;
    }
  }

  /** `a / b`; a zero divisor is undefined behaviour for integers and leaves the reals
      (an infinity) for doubles, so it is excluded. */
  function Div(a: Num, b: Num): (r: Num)
    requires ToReal(b) != 0.0
    ensures KindOf(r) == Common(KindOf(a), KindOf(b))
    ensures r.Real? ==> ToReal(r) * ToReal(b) == ToReal(a)
    ensures a.Int? && b.Int? ==> r == Int(TruncDiv(a.i, b.i))
  {
    if a.Int? && b.Int? then Int(TruncDiv(a.i, b.i)) else Real(ToReal(a) / ToReal(b))
  }

  /** static_cast from a floating value to an integral one: toward zero. */
  function Trunc(x: real): (n: int)
    ensures Abs(n) as real <= (if x < 0.0 then -x else x) < Abs(n) as real + 1.0
    ensures n == 0 || (n < 0 <==> x < 0.0)
  {
    if x >= 0.0 then x.Floor else -((-x).Floor)
  }

  /** Converting a value to an arithmetic type of the given kind (static_cast, or an
      implicit conversion to a return type). */
  function Cast(n: Num, k: NumKind): (r: Num)
    ensures KindOf(r) == k
    ensures KindOf(n) == k ==> r == n
    ensures n.Int? ==> ToReal(r) == ToReal(n)
    ensures n.Real? && k == Integral ==> r == Int(Trunc(n.r))
  {
    match k
    case Integral => if n.Int? then n else Int(Trunc(n.r))
    case Floating => Real(ToReal(n))
  }
}
