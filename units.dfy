/** The unit algebra shared by units.h (C++20 concepts) and units_17.h (C++17 traits):
    every unit type carries a descriptor (base_type, ratio, the type of value); the unit
    templates compute new descriptors from old ones, and AbstractUnit::convert moves a value
    between two units of the same dimension. */
module Units {
  import opened Wrappers
  import opened Ratios
  import opened Numerics

  /** enum class BaseTypes: the six reserved base dimensions, each a distinct prime. */
  datatype BaseType = Mass | Length | Time | Temperature | Current | LuminousIntensity

  function Prime(t: BaseType): nat {
    match t
    case Mass => 2
    case Length => 3
    case Time => 5
    case Temperature => 7
    case Current => 11
    case LuminousIntensity => 13
  }

  predicate IsPrime(p: nat) {
    p > 1 && forall k :: 1 < k < p ==> p % k != 0
  }

  /** base_type (the dimension), ratio (the scale against the dimension's 1/1 unit) and the
      kind of the value member. */
  datatype Descriptor = Descriptor(dim: Ratio, ratio: Ratio, kind: NumKind)

  /** EquivalentBaseType / has_equivalent_base_type: std::ratio_equal of the base types. */
  predicate Equivalent(a: Descriptor, b: Descriptor) {
    RatioEqual(a.dim, b.dim)
  }

  // ---------------------------------------------------------------------------
  // RecursiveRatioMultiply

  /** The product of the numbers a list of ratios denote. */
  function ValueProduct(rs: seq<Ratio>): real {
    if rs == [] then 1.0 else Value(rs[0]) * ValueProduct(rs[1..])
  }

  /** RecursiveRatioMultiply<Rs...>::ratio: a right fold of std::ratio_multiply ending in
      std::ratio<1, 1>. */
  function RatioProduct(rs: seq<Ratio>): Ratio {
    if rs == [] then One else Multiply(rs[0], RatioProduct(rs[1..]))
  }

  /** The fold denotes the product of the numbers its ratios denote. */
  lemma {:induction false} RatioProductValue(rs: seq<Ratio>)
    ensures Value(RatioProduct(rs)) == ValueProduct(rs)
  {
    hide Gcd, Reduce;
    if rs != [] {
      RatioProductValue(rs[1..]);
      MultiplyValue(rs[0], RatioProduct(rs[1..]));
    }
  }

  /** Folding a concatenation multiplies the two folds. */
  lemma {:induction false} RatioProductAppend(a: seq<Ratio>, b: seq<Ratio>)
    ensures RatioProduct(a + b) == Multiply(RatioProduct(a), RatioProduct(b))
  {
    if a == [] {
      assert a + b == b;
      MultiplyOne(RatioProduct(b));
    } else {
      assert (a + b)[1..] == a[1..] + b;
      RatioProductAppend(a[1..], b);
      MultiplyAssociative(a[0], RatioProduct(a[1..]), RatioProduct(b));
    }
  }

  function Dims(ts: seq<Descriptor>): (ds: seq<Ratio>)
    ensures |ds| == |ts| && forall i :: 0 <= i < |ts| ==> ds[i] == ts[i].dim
  {
    seq(|ts|, i requires 0 <= i < |ts| => ts[i].dim)
  }

  function Scales(ts: seq<Descriptor>): (rs: seq<Ratio>)
    ensures |rs| == |ts| && forall i :: 0 <= i < |ts| ==> rs[i] == ts[i].ratio
  {
    seq(|ts|, i requires 0 <= i < |ts| => ts[i].ratio)
  }

  /** std::common_type_t<decltype(Ts::value)...>, on kinds; it names no type for an empty
      pack. */
  function CommonKind(ts: seq<Descriptor>): (k: NumKind)
    requires |ts| > 0
    ensures k == Integral <==> forall i :: 0 <= i < |ts| ==> ts[i].kind == Integral
  {
    if |ts| == 1 then ts[0].kind else Common(CommonKind(ts[..|ts| - 1]), ts[|ts| - 1].kind)
  }

  // ---------------------------------------------------------------------------
  // Unit constructors

  /** Unit<Type, Numeric>: the base unit of a reserved dimension. */
  function BaseUnit(t: BaseType, kind: NumKind): Descriptor {
    Descriptor(Fraction(Prime(t), 1), One, kind)
  }

  /** UnitRatio<T, R>: T's dimension and value type, scaled by R. */
  function UnitRatio(t: Descriptor, r: Ratio): (d: Descriptor)
    ensures Equivalent(d, t) && d.kind == t.kind
  {
    Descriptor(t.dim, Multiply(r, t.ratio), t.kind)
  }

  /** A UnitRatio<T, R> is R times as large as T. */
  lemma UnitRatioValue(t: Descriptor, r: Ratio)
    ensures Value(UnitRatio(t, r).ratio) == Value(r) * Value(t.ratio)
  {
    MultiplyValue(r, t.ratio);
  }

  /** MultiUnit<Ts...>: the product of the constituents' dimensions and of their ratios, with
      the common type of their values. */
  function MultiUnit(ts: seq<Descriptor>): (r: Result<Descriptor>)
    ensures r.Ok? <==> |ts| > 0
    ensures r.Err? ==> r.error == EmptyPack
    ensures r.Ok? ==> (r.value.kind == Integral <==> forall i :: 0 <= i < |ts| ==> ts[i].kind == Integral)
  {
    if ts == [] then Err(EmptyPack)
    else Ok(Descriptor(RatioProduct(Dims(ts)), RatioProduct(Scales(ts)), CommonKind(ts)))
  }

  /** A MultiUnit's dimension and ratio denote the products of its constituents'. */
  lemma MultiUnitValue(ts: seq<Descriptor>)
    requires |ts| > 0
    ensures Value(MultiUnit(ts).value.dim) == ValueProduct(Dims(ts))
    ensures Value(MultiUnit(ts).value.ratio) == ValueProduct(Scales(ts))
  {
    RatioProductValue(Dims(ts));
    RatioProductValue(Scales(ts));
  }

  /** SpecifiedUnit<BaseType, Ratio, Numeric>: a descriptor given directly by two
      std::ratio argument lists. */
  function SpecifiedUnit(dim: Fraction, ratio: Fraction, kind: NumKind): (r: Result<Descriptor>)
    ensures r.Ok? <==> dim.den != 0 && ratio.den != 0
    ensures r.Err? ==> r.error == ZeroDenominator
    ensures r.Ok? ==> Value(r.value.dim) == Value(dim) && Value(r.value.ratio) == Value(ratio)
    ensures r.Ok? ==> r.value.kind == kind
  {
    match (Make(dim.num, dim.den), Make(ratio.num, ratio.den))
    case (Some(d), Some(s)) =>
      ReduceValue(dim.num, dim.den);
      ReduceValue(ratio.num, ratio.den);
      Ok(Descriptor(d, s, kind))
    case _ => Err(ZeroDenominator)
  }

  /** UnitInverse<T>: std::ratio_divide<std::ratio<1, 1>, .> of T's dimension and ratio,
      ill-formed when either is zero. */
  function UnitInverse(t: Descriptor): (r: Result<Descriptor>)
    ensures r.Ok? <==> t.dim.num != 0 && t.ratio.num != 0
    ensures r.Err? ==> r.error == ZeroDenominator
    ensures r.Ok? ==> Multiply(t.dim, r.value.dim) == One && Multiply(t.ratio, r.value.ratio) == One
    ensures r.Ok? ==> r.value.kind == t.kind
  {
    match (Invert(t.dim), Invert(t.ratio))
    case (Some(d), Some(s)) => Ok(Descriptor(d, s, t.kind))
    case _ => Err(ZeroDenominator)
  }

  // ---------------------------------------------------------------------------
  // Values of unit type

  /** An object of a unit type: its descriptor and its value member. */
  datatype Instance = Instance(unit: Descriptor, value: Num)

  /** The value member always has the unit's Numeric type. */
  type Quantity = q: Instance | KindOf(q.value) == q.unit.kind
    witness Instance(Descriptor(One, One, Integral), Int(0))

  /** The physical amount a value denotes, measured in the 1/1 unit of its dimension. */
  function BaseValue(q: Instance): real {
    ToReal(q.value) * Value(q.unit.ratio)
  }

  /** The conversion factor std::ratio<From::num * To::den, From::den * To::num> is
      std::ratio_divide of the two ratios; it is whole exactly when From::num * To::den is a
      multiple of From::den * To::num. */
  lemma FactorWhole(from: Ratio, to: Ratio)
    requires to.num != 0
    ensures from.den * to.num != 0
    ensures Divide(from, to).value.den == 1 <==>
            (from.num * to.den) % Abs(from.den * to.num) == 0
  {
    QuotientRatio(from, to);
    WholeFactor(from.num * to.den, from.den * to.num);
  }

  /** A reduced fraction is whole exactly when its denominator divides its numerator. */
  lemma WholeFactor(n: int, d: int)
    requires d != 0
    ensures Reduce(n, d).den == 1 <==> n % Abs(d) == 0
  {
    if Reduce(n, d).den == 1 {
      WholeFromDenOne(n, d);
    }
    if n % Abs(d) == 0 {
      DenOneFromWhole(n, d);
    }
  }

  lemma WholeFromDenOne(n: int, d: int)
    requires d != 0 && Reduce(n, d).den == 1
    ensures n % Abs(d) == 0
  {
    var f := Reduce(n, d);
    ReduceCrossEqual(n, d);
    assert n == f.num * d;
    assert n == (f.num * Sign(d)) * Abs(d);
    MulDivExact(Abs(d), f.num * Sign(d));
  }

  lemma DenOneFromWhole(n: int, d: int)
    requires d != 0 && n % Abs(d) == 0
    ensures Reduce(n, d).den == 1
  {
    var k := n / Abs(d);
    assert n == k * Abs(d);
    assert n * 1 == (k * Sign(d)) * d;
    ReduceCanonical(n, d, k * Sign(d), 1);
    ReduceDenOne(k * Sign(d));
  }

  lemma ReduceDenOne(x: int)
    ensures Reduce(x, 1).den == 1
  {
    assert Gcd(Abs(x), 1) == 1 by {
      assert Gcd(Abs(x), 1) == Gcd(1, 0);
    }
    ReduceUnfold(x, 1);
  }

  /** AbstractUnit::convert<To, From> between units: rejected unless the dimensions are
      equivalent; the integer path when To is integral and the factor is whole, the floating
      path (a double factor) otherwise, which an integral To cannot receive. */
  function Convert(q: Quantity, to: Descriptor): (r: Result<Quantity>)
    ensures r.Ok? <==> Equivalent(q.unit, to) && to.ratio.num != 0 &&
                       (to.kind == Integral ==> Divide(q.unit.ratio, to.ratio).value.den == 1)
    ensures !Equivalent(q.unit, to) ==> r == Err(DimensionMismatch)
    ensures r.Ok? ==> r.value.unit == to
    ensures r.Ok? && to.kind == Integral ==>
              r.value.value == WholeScale(q.value, Divide(q.unit.ratio, to.ratio).value.num)
  {
    if !RatioEqual(q.unit.dim, to.dim) then Err(DimensionMismatch)
    else match Divide(q.unit.ratio, to.ratio)
      case None => Err(ZeroDenominator)
      case Some(f) =>
        if to.kind == Integral && f.den == 1 then
          var c: Quantity := Instance(to, WholeScale(q.value, f.num));
          Ok(c)
        else if to.kind == Integral then Err(Narrowing)
        else
          var c: Quantity := Instance(to, Real(ToReal(q.value) * Value(f)));
          Ok(c)
  }

  /** A conversion keeps the physical amount, except where an integral target truncates a
      floating value. */
  lemma ConvertPreserves(q: Quantity, to: Descriptor)
    requires Convert(q, to).Ok? && (q.value.Int? || to.kind == Floating)
    ensures BaseValue(Convert(q, to).value) == BaseValue(q)
  {
    hide Gcd, Reduce;
    var f := Divide(q.unit.ratio, to.ratio).value;
    DivideValue(q.unit.ratio, to.ratio);
    if to.kind == Integral {
      WholePathPreserves(q, to, f);
    } else {
      RealPathPreserves(q, to, f);
    }
  }

  /** static_cast<integral>(value * n). */
  function WholeScale(v: Num, n: int): (r: Num)
    ensures r.Int?
    ensures v.Int? ==> r == Int(v.i * n)
    ensures v.Real? ==> r == Int(Trunc(v.r * n as real))
  {
    Cast(Mul(v, Int(n)), Integral)
  }

  /** Multiplying by a whole factor keeps the physical amount. */
  lemma WholePathPreserves(q: Instance, to: Descriptor, f: Ratio)
    requires Value(f) * Value(to.ratio) == Value(q.unit.ratio)
    requires q.value.Int? && f.den == 1
    ensures BaseValue(Instance(to, Int(q.value.i * f.num))) == BaseValue(q)
  {
    WholeAmount(q.value.i, f, to.ratio, q.unit.ratio);
  }

  lemma WholeAmount(x: int, f: Ratio, t: Ratio, s: Ratio)
    requires f.den == 1 && Value(f) * Value(t) == Value(s)
    ensures (x * f.num) as real * Value(t) == x as real * Value(s)
  {
    WholeValue(f);
    CastMul(x, f.num);
    ScaledAmount(x as real, Value(f), Value(t), Value(s));
  }

  lemma WholeValue(f: Fraction)
    requires f.den == 1
    ensures Value(f) == f.num as real
  {
  }

  /** Multiplying by the factor as a number keeps the physical amount. */
  lemma RealPathPreserves(q: Instance, to: Descriptor, f: Ratio)
    requires Value(f) * Value(to.ratio) == Value(q.unit.ratio)
    ensures BaseValue(Instance(to, Real(ToReal(q.value) * Value(f)))) == BaseValue(q)
  {
    ScaledAmount(ToReal(q.value), Value(f), Value(to.ratio), Value(q.unit.ratio));
  }

  lemma ScaledAmount(x: real, f: real, t: real, s: real)
    requires f * t == s
    ensures (x * f) * t == x * s
  {
  }

  /** The other AbstractUnit::convert: a unit whose ratio is exactly 1/1 passes its value
      to a plain arithmetic type, whatever its dimension. */
  function ToNumber(q: Quantity, kind: NumKind): (r: Result<Num>)
    ensures r.Ok? <==> q.unit.ratio == One
    ensures r.Err? ==> r.error == NotUnitRatio
    ensures r.Ok? ==> KindOf(r.value) == kind
    ensures r.Ok? && q.unit.kind == kind ==> r.value == q.value
    ensures r.Ok? && q.value.Int? ==> ToReal(r.value) == ToReal(q.value) == BaseValue(q)
    ensures r.Ok? && q.value.Real? && kind == Integral ==> r.value == Int(Trunc(q.value.r))
  {
    if RatioEqual(q.unit.ratio, One) then Ok(Cast(q.value, kind)) else Err(NotUnitRatio)
  }

  // ---------------------------------------------------------------------------
  // Affine units

  /** UnitOffset<T, Offset, Numeric>: a value on a scale shifted by Offset from unit T. It
      is not itself a unit; it only converts out, to units equivalent to T. */
  datatype OffsetUnit = OffsetUnit(base: Descriptor, offset: Ratio, kind: NumKind)

  /** UnitOffset::operator To: To{T{value + offset}}, with the offset a double. */
  function ConvertOffset(u: OffsetUnit, value: Num, to: Descriptor): (r: Result<Quantity>)
    ensures r.Ok? <==> Equivalent(u.base, to) && u.base.kind == Floating && to.ratio.num != 0 &&
                       (to.kind == Integral ==> Divide(u.base.ratio, to.ratio).value.den == 1)
    ensures !Equivalent(u.base, to) ==> r == Err(DimensionMismatch)
    ensures r.Ok? ==> r.value.unit == to
    ensures r.Ok? && to.kind == Floating ==>
              BaseValue(r.value) == (ToReal(value) + Value(u.offset)) * Value(u.base.ratio)
    ensures r.Ok? && to.kind == Integral ==>
              r.value.value == WholeScale(Real(ToReal(value) + Value(u.offset)),
                                          Divide(u.base.ratio, to.ratio).value.num)
  {
    if !RatioEqual(u.base.dim, to.dim) then Err(DimensionMismatch)
    else if u.base.kind == Integral then Err(Narrowing)
    else
      var shifted: Quantity := Instance(u.base, Real(ToReal(value) + Value(u.offset)));
      assert Convert(shifted, to).Ok? && to.kind == Floating ==>
               BaseValue(Convert(shifted, to).value) == BaseValue(shifted) by {
        if Convert(shifted, to).Ok? && to.kind == Floating {
          ConvertPreserves(shifted, to);
        }
      }
      Convert(shifted, to)
  }

  /** X{u}, direct-list-initialising the unit class X from an object u of a unit class, as
      the conversions of units.h:127, 132, 163, 206 and 214 write it. When u's class is X
      itself the copy is taken. Otherwise two constructors are viable and neither is better:
      X's move constructor, reached through u's operator X(), and the inherited explicit
      AbstractUnit(Numeric), reached through u's operator Numeric(). Two different
      conversion functions make the two user-defined conversions indistinguishable, so the
      call is ambiguous. `sameClass` says whether u's class is X; a descriptor cannot tell
      Meter from SpecifiedUnit<std::ratio<3, 1>>, so the caller says it. */
  function BraceInit(q: Quantity, to: Descriptor, sameClass: bool): (r: Result<Quantity>)
    requires sameClass ==> q.unit == to
    ensures r.Ok? <==> sameClass
    ensures r.Err? ==> r.error == AmbiguousInit
    ensures r.Ok? && to.ratio.num != 0 ==> Convert(q, to) == r
  {
    if sameClass then
      if to.ratio.num != 0 then ConvertIdentity(q); Ok(q) else Ok(q)
    else Err(AmbiguousInit)
  }

  /** UnitOffset::operator To as written: To{T{value + offset}}. The outer initialisation is a
      BraceInit from a T object, so it compiles only when To is T itself (`toIsBase`), and
      then gives the shifted value in T. */
  function ConvertOffsetAsWritten(u: OffsetUnit, value: Num, to: Descriptor, toIsBase: bool): (r: Result<Quantity>)
    requires toIsBase ==> to == u.base
    ensures r.Ok? <==> Equivalent(u.base, to) && u.base.kind == Floating && toIsBase
    ensures !Equivalent(u.base, to) ==> r == Err(DimensionMismatch)
    ensures r.Ok? ==> r.value.unit == to
    ensures r.Ok? && to.ratio.num != 0 ==> r == ConvertOffset(u, value, to)
    ensures ConvertOffset(u, value, to).Ok? && !toIsBase ==> r == Err(AmbiguousInit)
  {
    if !RatioEqual(u.base.dim, to.dim) then Err(DimensionMismatch)
    else if u.base.kind == Integral then Err(Narrowing)
    else
      var shifted: Quantity := Instance(u.base, Real(ToReal(value) + Value(u.offset)));
      BraceInit(shifted, to, toIsBase)
  }

  // ---------------------------------------------------------------------------
  // Laws

  /** The six base units have ratio 1/1 and pairwise different prime dimensions. */
  lemma BaseUnitsDistinct(s: BaseType, t: BaseType, k1: NumKind, k2: NumKind)
    ensures BaseUnit(s, k1).ratio == One && IsPrime(Prime(s))
    ensures Equivalent(BaseUnit(s, k1), BaseUnit(t, k2)) <==> s == t
  {
    PrimesArePrime(s);
  }

  lemma PrimesArePrime(t: BaseType)
    ensures IsPrime(Prime(t))
  {
    var p := Prime(t);
    forall k | 1 < k < p ensures p % k != 0 {
      assert k in {2, 3, 4, 5, 6, 7, 8, 9, 10, 11, 12};
    }
  }

  /** Scaling a scaled unit is scaling once by the product: UnitRatio<UnitRatio<T, R1>, R2>
      has the descriptor of UnitRatio<T, R2 * R1>. */
  lemma UnitRatioNested(t: Descriptor, r1: Ratio, r2: Ratio)
    ensures UnitRatio(UnitRatio(t, r1), r2) == UnitRatio(t, Multiply(r2, r1))
  {
    MultiplyAssociative(r2, r1, t.ratio);
  }

  /** UnitRatio<T, 1/1> is T. */
  lemma UnitRatioOne(t: Descriptor)
    ensures UnitRatio(t, One) == t
  {
    MultiplyOne(t.ratio);
  }

  /** MultiUnit of a concatenation is the MultiUnit of the two MultiUnits. */
  lemma MultiUnitFlatten(xs: seq<Descriptor>, ys: seq<Descriptor>)
    requires |xs| > 0 && |ys| > 0
    ensures MultiUnit(xs + ys) == MultiUnit([MultiUnit(xs).value, MultiUnit(ys).value])
  {
    var a, b := MultiUnit(xs).value, MultiUnit(ys).value;
    assert Dims(xs + ys) == Dims(xs) + Dims(ys);
    assert Scales(xs + ys) == Scales(xs) + Scales(ys);
    RatioProductAppend(Dims(xs), Dims(ys));
    RatioProductAppend(Scales(xs), Scales(ys));
    assert Dims([a, b]) == [a.dim, b.dim];
    assert Scales([a, b]) == [a.ratio, b.ratio];
    PairProduct(a.dim, b.dim);
    PairProduct(a.ratio, b.ratio);
    CommonKindAppend(xs, ys);
    assert CommonKind([a, b]) == Common(a.kind, b.kind);
  }

  lemma CommonKindAppend(xs: seq<Descriptor>, ys: seq<Descriptor>)
    requires |xs| > 0 && |ys| > 0
    ensures CommonKind(xs + ys) == Common(CommonKind(xs), CommonKind(ys))
  {
    if CommonKind(xs + ys) == Integral {
      forall i | 0 <= i < |xs| ensures xs[i].kind == Integral {
        assert (xs + ys)[i] == xs[i];
      }
      forall i | 0 <= i < |ys| ensures ys[i].kind == Integral {
        assert (xs + ys)[|xs| + i] == ys[i];
      }
    }
  }

  lemma PairProduct(x: Ratio, y: Ratio)
    ensures RatioProduct([x, y]) == Multiply(x, y)
  {
    assert [x, y][1..] == [y];
    assert [y][1..] == [];
    assert RatioProduct([y]) == Multiply(y, One);
    MultiplyOne(y);
    assert RatioProduct([x, y]) == Multiply(x, RatioProduct([y]));
  }

  /** MultiUnit<T1, T2> has dimension T1.dim * T2.dim, ratio T1.ratio * T2.ratio and the
      common type of the two values. */
  lemma MultiUnitPair(a: Descriptor, b: Descriptor)
    ensures MultiUnit([a, b]) ==
            Ok(Descriptor(Multiply(a.dim, b.dim), Multiply(a.ratio, b.ratio), Common(a.kind, b.kind)))
  {
    assert Dims([a, b]) == [a.dim, b.dim];
    assert Scales([a, b]) == [a.ratio, b.ratio];
    PairProduct(a.dim, b.dim);
    PairProduct(a.ratio, b.ratio);
    assert [a, b][..1] == [a];
  }

  /** MultiUnit<T> is T. */
  lemma MultiUnitSingle(t: Descriptor)
    ensures MultiUnit([t]) == Ok(t)
  {
    hide Gcd, Reduce;
    assert Dims([t]) == [t.dim] && Scales([t]) == [t.ratio];
    assert [t.dim][1..] == [] && [t.ratio][1..] == [];
    assert RatioProduct([t.dim]) == Multiply(t.dim, One);
    assert RatioProduct([t.ratio]) == Multiply(t.ratio, One);
    MultiplyOne(t.dim);
    MultiplyOne(t.ratio);
  }

  /** MultiUnit<T, Ts...> is MultiUnit<T, MultiUnit<Ts...>>: the fold taken one factor at a
      time. */
  lemma MultiUnitCons(t: Descriptor, ts: seq<Descriptor>)
    requires |ts| > 0
    ensures MultiUnit([t] + ts) == MultiUnit([t, MultiUnit(ts).value])
  {
    MultiUnitFlatten([t], ts);
    MultiUnitSingle(t);
  }

  /** The order of a MultiUnit's constituents does not matter. */
  lemma MultiUnitCommutative(a: Descriptor, b: Descriptor)
    ensures MultiUnit([a, b]) == MultiUnit([b, a])
  {
    MultiUnitPair(a, b);
    MultiUnitPair(b, a);
    MultiplyCommutative(a.dim, b.dim);
    MultiplyCommutative(a.ratio, b.ratio);
  }

  /** UnitInverse<UnitInverse<T>> has T's descriptor. */
  lemma InverseInvolution(t: Descriptor)
    requires t.dim.num != 0 && t.ratio.num != 0
    ensures UnitInverse(t).Ok? && UnitInverse(UnitInverse(t).value) == Ok(t)
  {
    InvertInvolution(t.dim);
    InvertInvolution(t.ratio);
  }

  /** MultiUnit<T, UnitInverse<T>> is dimensionless with ratio 1/1. */
  lemma MultiWithInverse(t: Descriptor)
    requires t.dim.num != 0 && t.ratio.num != 0
    ensures MultiUnit([t, UnitInverse(t).value]).value.dim == One
    ensures MultiUnit([t, UnitInverse(t).value]).value.ratio == One
  {
    MultiUnitPair(t, UnitInverse(t).value);
  }

  /** NumericUnit<T, Numeric>: respecifying an existing unit's base_type and ratio gives its
      descriptor back, with the new value type. */
  lemma SpecifiedUnitOf(t: Descriptor, kind: NumKind)
    ensures SpecifiedUnit(t.dim, t.ratio, kind) == Ok(Descriptor(t.dim, t.ratio, kind))
  {
    ReduceReduced(t.dim);
    ReduceReduced(t.ratio);
  }

  /** Converting a quantity into its own unit gives it back. */
  lemma ConvertIdentity(q: Quantity)
    requires q.unit.ratio.num != 0
    ensures Convert(q, q.unit) == Ok(q)
  {
    DivideSelf(q.unit.ratio);
  }

  /** Between floating units of one dimension, converting there and back is the identity. */
  lemma ConvertRoundTrip(q: Quantity, to: Descriptor)
    requires Equivalent(q.unit, to) && q.unit.ratio.num != 0 && to.ratio.num != 0
    requires q.unit.kind == Floating && to.kind == Floating
    ensures Convert(q, to).Ok?
    ensures Convert(Convert(q, to).value, q.unit) == Ok(q)
  {
    hide Gcd, Reduce;
    var there := Convert(q, to).value;
    ConvertPreserves(q, to);
    var back := Convert(there, q.unit).value;
    ConvertPreserves(there, q.unit);
    SameBaseValue(back, q);
  }

  /** Two floating quantities of one non-zero unit with the same physical amount are equal. */
  lemma SameBaseValue(a: Quantity, b: Quantity)
    requires a.unit == b.unit && a.unit.kind == Floating && a.unit.ratio.num != 0
    requires BaseValue(a) == BaseValue(b)
    ensures a == b
  {
    var s := Value(a.unit.ratio);
    assert s != 0.0;
    assert ToReal(a.value) * s == ToReal(b.value) * s;
    assert (ToReal(a.value) - ToReal(b.value)) * s == 0.0;
  }

  /** Converting in two steps between floating units is converting once. */
  lemma ConvertTransitive(q: Quantity, v: Descriptor, w: Descriptor)
    requires Equivalent(q.unit, v) && Equivalent(v, w)
    requires v.ratio.num != 0 && w.ratio.num != 0
    requires v.kind == Floating && w.kind == Floating
    ensures Convert(q, v).Ok? && Convert(q, w).Ok?
    ensures Convert(Convert(q, v).value, w) == Convert(q, w)
  {
    hide Gcd, Reduce;
    var direct := Convert(q, w).value;
    ConvertPreserves(q, w);
    var once := Convert(q, v).value;
    ConvertPreserves(q, v);
    var twice := Convert(once, w).value;
    ConvertPreserves(once, w);
    SameBaseValue(direct, twice);
  }

  /** Converting a scaled floating unit to its base multiplies the value by the scale. */
  lemma ScaledToBase(t: Descriptor, r: Ratio, x: real)
    requires t.kind == Floating && t.ratio.num != 0
    ensures Convert(Instance(UnitRatio(t, r), Real(x)), t).Ok?
    ensures Convert(Instance(UnitRatio(t, r), Real(x)), t).value == Instance(t, Real(x * Value(r)))
  {
    var q: Quantity := Instance(UnitRatio(t, r), Real(x));
    hide Gcd, Reduce;
    var c := Convert(q, t).value;
    ConvertPreserves(q, t);
    var e: Quantity := Instance(t, Real(x * Value(r)));
    UnitRatioValue(t, r);
    ScaledAmount(x, Value(r), Value(t.ratio), Value(UnitRatio(t, r).ratio));
    SameBaseValue(c, e);
  }
}
