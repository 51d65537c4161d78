/** The arithmetic operators on values of unit type (units.h and units_17.h): each builds
    the descriptor of its result type from its operands' descriptors and computes the
    value member. */
module Operators {
  import opened Wrappers
  import opened Ratios
  import opened Numerics
  import opened Units

  /** (x * y) * (p * q) == (x * p) * (y * q) over the reals. */
  lemma Rearrange(x: real, y: real, p: real, q: real)
    ensures (x * y) * (p * q) == (x * p) * (y * q)
  {
  }

  // ---------------------------------------------------------------------------
  // Multiplication and division

  /** unit * unit: MultiUnit<T1, T2>{t1.value * t2.value}. */
  function Times(a: Quantity, b: Quantity): (r: Quantity)
    ensures r.unit.dim == Multiply(a.unit.dim, b.unit.dim)
    ensures r.unit.ratio == Multiply(a.unit.ratio, b.unit.ratio)
    ensures r.unit.kind == Common(a.unit.kind, b.unit.kind)
    ensures BaseValue(r) == BaseValue(a) * BaseValue(b)
  {
    MultiUnitPair(a.unit, b.unit);
    TimesBase(a, b);
    var r: Quantity := Instance(MultiUnit([a.unit, b.unit]).value, Mul(a.value, b.value));
    r
  }

  lemma TimesBase(a: Quantity, b: Quantity)
    ensures MultiUnit([a.unit, b.unit]).Ok?
    ensures BaseValue(Instance(MultiUnit([a.unit, b.unit]).value, Mul(a.value, b.value))) ==
            BaseValue(a) * BaseValue(b)
  {
    hide Gcd, Reduce;
    MultiUnitPair(a.unit, b.unit);
    MultiplyValue(a.unit.ratio, b.unit.ratio);
    ProductAmount(ToReal(a.value), ToReal(b.value), Value(a.unit.ratio), Value(b.unit.ratio),
                  ToReal(Mul(a.value, b.value)), Value(Multiply(a.unit.ratio, b.unit.ratio)));
  }

  /** The amount of a product is the product of the amounts. */
  lemma ProductAmount(x: real, y: real, p: real, q: real, m: real, s: real)
    requires m == x * y && s == p * q
    ensures m * s == (x * p) * (y * q)
  {
    Rearrange(x, y, p, q);
  }

  /** scalar * unit and unit * scalar: SpecifiedUnit<T::base_type, T::ratio,
      decltype(t.value * v)>{t.value * v}. */
  function Scale(t: Quantity, v: Num): (r: Quantity)
    ensures r.unit == Descriptor(t.unit.dim, t.unit.ratio, Common(t.unit.kind, KindOf(v)))
    ensures ToReal(r.value) == ToReal(t.value) * ToReal(v)
    ensures BaseValue(r) == BaseValue(t) * ToReal(v)
  {
    SpecifiedUnitOf(t.unit, Common(t.unit.kind, KindOf(v)));
    var r: Quantity := Instance(SpecifiedUnit(t.unit.dim, t.unit.ratio, Common(t.unit.kind, KindOf(v))).value,
                                Mul(t.value, v));
    r
  }

  /** unit / scalar: SpecifiedUnit<T::base_type, T::ratio, decltype(t.value / v)>{t.value / v};
      a zero divisor is left out. */
  function DivideByScalar(t: Quantity, v: Num): (r: Quantity)
    requires ToReal(v) != 0.0
    ensures r.unit == Descriptor(t.unit.dim, t.unit.ratio, Common(t.unit.kind, KindOf(v)))
    ensures r.value.Real? ==> BaseValue(r) * ToReal(v) == BaseValue(t)
    ensures t.value.Int? && v.Int? ==> r.value == Int(TruncDiv(t.value.i, v.i))
  {
    SpecifiedUnitOf(t.unit, Common(t.unit.kind, KindOf(v)));
    var r: Quantity := Instance(SpecifiedUnit(t.unit.dim, t.unit.ratio, Common(t.unit.kind, KindOf(v))).value,
                                Div(t.value, v));
    assert r.value.Real? ==> BaseValue(r) * ToReal(v) == BaseValue(t) by {
      var x, p, y := ToReal(r.value), Value(t.unit.ratio), ToReal(v);
      assert x * p * y == (x * y) * p;
    }
    r
  }

  /** unit / unit: MultiUnit<T1, UnitInverse<T2>>{t1.value / t2.value}; ill-formed when T2's
      dimension or ratio is zero, and a zero divisor value is left out. */
  function Over(a: Quantity, b: Quantity): (r: Result<Quantity>)
    requires ToReal(b.value) != 0.0
    ensures r.Ok? <==> b.unit.dim.num != 0 && b.unit.ratio.num != 0
    ensures r.Err? ==> r.error == ZeroDenominator
    ensures r.Ok? ==> Multiply(r.value.unit.dim, b.unit.dim) == a.unit.dim
    ensures r.Ok? ==> Multiply(r.value.unit.ratio, b.unit.ratio) == a.unit.ratio
    ensures r.Ok? ==> r.value.unit.kind == Common(a.unit.kind, b.unit.kind)
    ensures r.Ok? && a.value.Int? && b.value.Int? ==> r.value.value == Int(TruncDiv(a.value.i, b.value.i))
  {
    match UnitInverse(b.unit)
    case Err(e) => Err(e)
    case Ok(inv) =>
      MultiUnitPair(a.unit, inv);
      var r: Quantity := Instance(MultiUnit([a.unit, inv]).value, Div(a.value, b.value));
      CancelInverse(a.unit.dim, b.unit.dim, inv.dim);
      CancelInverse(a.unit.ratio, b.unit.ratio, inv.ratio);
      Ok(r)
  }

  /** With a floating result, the quotient times the divisor is the dividend, in base units. */
  lemma OverAmount(a: Quantity, b: Quantity)
    requires ToReal(b.value) != 0.0 && Over(a, b).Ok? && Over(a, b).value.value.Real?
    ensures BaseValue(Over(a, b).value) * BaseValue(b) == BaseValue(a)
  {
    hide Gcd, Reduce;
    var r := Over(a, b).value;
    MultiplyValue(r.unit.ratio, b.unit.ratio);
    QuotientAmount(ToReal(r.value), ToReal(b.value), Value(r.unit.ratio), Value(b.unit.ratio),
                   ToReal(a.value), Value(a.unit.ratio));
  }

  /** (x * p) * (y * q) == z * s when x * y == z and p * q == s. */
  lemma QuotientAmount(x: real, y: real, p: real, q: real, z: real, s: real)
    requires x * y == z && p * q == s
    ensures (x * p) * (y * q) == z * s
  {
    Rearrange(x, y, p, q);
  }

  /** Multiplying by x and then by x's inverse gives the ratio back. */
  lemma CancelInverse(a: Ratio, x: Ratio, inv: Ratio)
    requires Multiply(x, inv) == One
    ensures Multiply(Multiply(a, inv), x) == a
  {
    MultiplyAssociative(a, inv, x);
    MultiplyCommutative(inv, x);
    MultiplyOne(a);
  }

  /** scalar / unit: UnitInverse<SpecifiedUnit<T::base_type, T::ratio,
      decltype(v / t.value)>>{v / t.value}. */
  function ScalarOver(s: Num, t: Quantity): (r: Result<Quantity>)
    requires ToReal(t.value) != 0.0
    ensures r.Ok? <==> t.unit.dim.num != 0 && t.unit.ratio.num != 0
    ensures r.Err? ==> r.error == ZeroDenominator
    ensures r.Ok? ==> Multiply(t.unit.dim, r.value.unit.dim) == One
    ensures r.Ok? ==> Multiply(t.unit.ratio, r.value.unit.ratio) == One
    ensures r.Ok? ==> r.value.unit.kind == Common(KindOf(s), t.unit.kind)
    ensures r.Ok? && s.Int? && t.value.Int? ==> r.value.value == Int(TruncDiv(s.i, t.value.i))
  {
    SpecifiedUnitOf(t.unit, Common(KindOf(s), t.unit.kind));
    var spec := SpecifiedUnit(t.unit.dim, t.unit.ratio, Common(KindOf(s), t.unit.kind)).value;
    match UnitInverse(spec)
    case Err(e) => Err(e)
    case Ok(inv) =>
      var r: Quantity := Instance(inv, Div(s, t.value));
      Ok(r)
  }

  /** With a floating result, the result times the unit's value is the scalar, in base
      units. */
  lemma ScalarOverAmount(s: Num, t: Quantity)
    requires ToReal(t.value) != 0.0 && ScalarOver(s, t).Ok? && ScalarOver(s, t).value.value.Real?
    ensures BaseValue(ScalarOver(s, t).value) * BaseValue(t) == ToReal(s)
  {
    hide Gcd, Reduce;
    var r := ScalarOver(s, t).value;
    MultiplyValue(t.unit.ratio, r.unit.ratio);
    assert Value(Multiply(t.unit.ratio, r.unit.ratio)) == 1.0;
    QuotientAmount(ToReal(r.value), ToReal(t.value), Value(r.unit.ratio), Value(t.unit.ratio),
                   ToReal(s), 1.0);
  }

  // ---------------------------------------------------------------------------
  // Addition and subtraction

  /** The ret_type of + and -: SpecifiedUnit<T1::base_type, T1::ratio, N>, where N is the
      type of t1.value + t2.value when std::ratio_divide<T2::ratio, T1::ratio> is whole and
      double otherwise. Ill-formed unless the dimensions are equivalent, and when T1's ratio
      is zero. */
  function SumUnit(a: Descriptor, b: Descriptor): (r: Result<Descriptor>)
    ensures r.Ok? <==> Equivalent(a, b) && a.ratio.num != 0
    ensures !Equivalent(a, b) ==> r == Err(DimensionMismatch)
    ensures r.Err? && Equivalent(a, b) ==> r.error == ZeroDenominator
    ensures r.Ok? ==> r.value.dim == a.dim && r.value.ratio == a.ratio
    ensures r.Ok? ==> (r.value.kind == Integral <==>
                       a.kind == Integral && b.kind == Integral && Divide(b.ratio, a.ratio).value.den == 1)
  {
    if !RatioEqual(a.dim, b.dim) then Err(DimensionMismatch)
    else match Divide(b.ratio, a.ratio)
      case None => Err(ZeroDenominator)
      case Some(f) =>
        var kind := if f.den == 1 then Common(a.kind, b.kind) else Floating;
        SpecifiedUnitOf(a, kind);
        SpecifiedUnit(a.dim, a.ratio, kind)
  }

  /** ret_type{t2}: the right operand converted into the result unit, which never fails once
      the result unit exists, and keeps its physical amount. */
  lemma AlignRight(a: Quantity, b: Quantity)
    requires SumUnit(a.unit, b.unit).Ok?
    ensures Convert(b, SumUnit(a.unit, b.unit).value).Ok?
    ensures BaseValue(Convert(b, SumUnit(a.unit, b.unit).value).value) == BaseValue(b)
    ensures KindOf(Convert(b, SumUnit(a.unit, b.unit).value).value.value) == SumUnit(a.unit, b.unit).value.kind
  {
    hide Gcd, Reduce;
    ConvertPreserves(b, SumUnit(a.unit, b.unit).value);
  }

  /** operator+: ret_type{t1.value + ret_type{t2}.value}. */
  function Plus(a: Quantity, b: Quantity): (r: Result<Quantity>)
    ensures r.Ok? <==> Equivalent(a.unit, b.unit) && a.unit.ratio.num != 0
    ensures !Equivalent(a.unit, b.unit) ==> r == Err(DimensionMismatch)
    ensures r.Err? && Equivalent(a.unit, b.unit) ==> r.error == ZeroDenominator
    ensures r.Ok? ==> r.value.unit == SumUnit(a.unit, b.unit).value
  {
    match SumUnit(a.unit, b.unit)
    case Err(e) => Err(e)
    case Ok(ret) =>
      AlignRight(a, b);
      var c := Convert(b, ret).value;
      var r: Quantity := Instance(ret, Add(a.value, c.value));
      Ok(r)
  }

  /** operator-: ret_type{t1.value - ret_type{t2}.value}. */
  function Minus(a: Quantity, b: Quantity): (r: Result<Quantity>)
    ensures r.Ok? <==> Equivalent(a.unit, b.unit) && a.unit.ratio.num != 0
    ensures !Equivalent(a.unit, b.unit) ==> r == Err(DimensionMismatch)
    ensures r.Err? && Equivalent(a.unit, b.unit) ==> r.error == ZeroDenominator
    ensures r.Ok? ==> r.value.unit == SumUnit(a.unit, b.unit).value
  {
    match SumUnit(a.unit, b.unit)
    case Err(e) => Err(e)
    case Ok(ret) =>
      AlignRight(a, b);
      var c := Convert(b, ret).value;
      var r: Quantity := Instance(ret, Sub(a.value, c.value));
      Ok(r)
  }

  /** operator+ as written: ret_type{t2} is a BraceInit into the SpecifiedUnit ret_type, so
      it compiles only when T2 is that very SpecifiedUnit (`operandIsResult`), and then the
      values are added as they are. Never true for Unit, UnitRatio, MultiUnit or UnitInverse
      operands, so Meter{5} + Meter{5} is rejected too. */
  function PlusAsWritten(a: Quantity, b: Quantity, operandIsResult: bool): (r: Result<Quantity>)
    requires operandIsResult ==> SumUnit(a.unit, b.unit) == Ok(b.unit)
    ensures r.Ok? <==> Plus(a, b).Ok? && operandIsResult
    ensures r.Ok? ==> r == Plus(a, b)
    ensures Plus(a, b).Err? ==> r == Plus(a, b)
    ensures Plus(a, b).Ok? && !operandIsResult ==> r == Err(AmbiguousInit)
  {
    match SumUnit(a.unit, b.unit)
    case Err(e) => Err(e)
    case Ok(ret) =>
      match BraceInit(b, ret, operandIsResult)
      case Err(e) => Err(e)
      case Ok(c) =>
        var r: Quantity := Instance(ret, Add(a.value, c.value));
        Ok(r)
  }

  /** operator- as written: the same BraceInit as PlusAsWritten, then the difference. */
  function MinusAsWritten(a: Quantity, b: Quantity, operandIsResult: bool): (r: Result<Quantity>)
    requires operandIsResult ==> SumUnit(a.unit, b.unit) == Ok(b.unit)
    ensures r.Ok? <==> Minus(a, b).Ok? && operandIsResult
    ensures r.Ok? ==> r == Minus(a, b)
    ensures Minus(a, b).Err? ==> r == Minus(a, b)
    ensures Minus(a, b).Ok? && !operandIsResult ==> r == Err(AmbiguousInit)
  {
    match SumUnit(a.unit, b.unit)
    case Err(e) => Err(e)
    case Ok(ret) =>
      match BraceInit(b, ret, operandIsResult)
      case Err(e) => Err(e)
      case Ok(c) =>
        var r: Quantity := Instance(ret, Sub(a.value, c.value));
        Ok(r)
  }

  /** The physical amount of t1 + t2 is the sum of the operands' amounts. */
  lemma PlusAmount(a: Quantity, b: Quantity)
    requires Plus(a, b).Ok?
    ensures BaseValue(Plus(a, b).value) == BaseValue(a) + BaseValue(b)
  {
    hide Gcd, Reduce;
    AlignRight(a, b);
    var ret := SumUnit(a.unit, b.unit).value;
    var c := Convert(b, ret).value;
    SumAmount(ToReal(a.value), ToReal(c.value), Value(ret.ratio));
  }

  /** The physical amount of t1 - t2 is the difference of the operands' amounts. */
  lemma MinusAmount(a: Quantity, b: Quantity)
    requires Minus(a, b).Ok?
    ensures BaseValue(Minus(a, b).value) == BaseValue(a) - BaseValue(b)
  {
    hide Gcd, Reduce;
    AlignRight(a, b);
    var ret := SumUnit(a.unit, b.unit).value;
    var c := Convert(b, ret).value;
    SumAmount(ToReal(a.value), ToReal(c.value), Value(ret.ratio));
  }

  lemma SumAmount(x: real, y: real, s: real)
    ensures (x + y) * s == x * s + y * s && (x - y) * s == x * s - y * s
  {
  }

  // ---------------------------------------------------------------------------
  // Laws

  /** t1 * t2 and t2 * t1 are the same quantity. */
  lemma TimesCommutative(a: Quantity, b: Quantity)
    ensures Times(a, b) == Times(b, a)
  {
    MultiUnitCommutative(a.unit, b.unit);
  }

  /** Adding two values of one unit adds the value members, with no conversion step. */
  lemma PlusSameUnit(a: Quantity, b: Quantity)
    requires a.unit == b.unit && a.unit.ratio.num != 0
    ensures Plus(a, b) == Ok(Instance(a.unit, Add(a.value, b.value)))
  {
    ConvertIdentity(b);
  }

  /** t - t has no physical amount left. */
  lemma MinusSelf(a: Quantity)
    requires a.unit.ratio.num != 0
    ensures Minus(a, a) == Ok(Instance(a.unit, Sub(a.value, a.value)))
    ensures BaseValue(Minus(a, a).value) == 0.0
  {
    ConvertIdentity(a);
    MinusAmount(a, a);
  }

  /** t / t is dimensionless with ratio 1/1. */
  lemma OverSelf(a: Quantity)
    requires ToReal(a.value) != 0.0 && a.unit.dim.num != 0 && a.unit.ratio.num != 0
    ensures Over(a, a).Ok?
    ensures Over(a, a).value.unit.dim == One && Over(a, a).value.unit.ratio == One
  {
    var inv := UnitInverse(a.unit).value;
    MultiWithInverse(a.unit);
    MultiUnitPair(a.unit, inv);
  }
}
