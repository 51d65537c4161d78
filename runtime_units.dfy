/** RuntimeUnit<Type, ID, Numeric>: a unit whose ratio is not a template argument but a
    pair of public static intmax_t members, one pair per (Type, ID), that start at 1/1, may
    be specialised once with UNIT_SET_RATIO and may be assigned at will. The class below holds those statics for every (Type, ID);
    a RuntimeUnit object itself is only its value member. Numeric is its default, double. */
module RuntimeUnits {
  import opened Wrappers
  import opened Ratios
  import opened Numerics
  import opened Units

  /** The template arguments that select one RuntimeUnit type. */
  datatype RuntimeKey = RuntimeKey(base: BaseType, id: int)

  /** RuntimeUnit<Type, ID>::base_type: std::ratio<(int) Type, 1>. */
  function RuntimeDim(k: RuntimeKey): (d: Ratio)
    ensures d == BaseUnit(k.base, Floating).dim
  {
    Fraction(Prime(k.base), 1)
  }

  /** The static ratio members of every RuntimeUnit type. */
  class RuntimeRatios {
    /** The types given an explicit specialisation of num and den by UNIT_SET_RATIO. */
    var specialised: set<RuntimeKey>
    /** num and den as they stand, raw: nothing reduces them or validates the denominator.
        A key that is absent keeps the in-class initialisers 1 and 1. */
    var current: map<RuntimeKey, Fraction>

    /** Every specialised type has its values recorded. */
    predicate Valid()
      reads this
    {
      specialised <= current.Keys
    }

    /** Before any UNIT_SET_RATIO or assignment every RuntimeUnit has ratio 1/1. */
    constructor()
      ensures Valid()
      ensures specialised == {} && current == map[]
      ensures forall k :: RatioOf(k) == Fraction(1, 1)
    {
      specialised := {};
      current := map[];
    }

    /** RuntimeUnit<Type, ID>::ratio::num and ::den as they stand. */
    function RatioOf(k: RuntimeKey): Fraction
      reads this
    {
      if k in current then current[k] else Fraction(1, 1)
    }

    /** UNIT_SET_RATIO(RuntimeUnit<Type, ID>, n, d): an explicit specialisation of the two
        statics, which gives them their initial values. A second one for the same type
        redefines them and is rejected; every other RuntimeUnit keeps its ratio. */
    method SetRatio(k: RuntimeKey, n: int, d: int) returns (ok: bool)
      requires Valid()
      modifies this
      ensures Valid()
      ensures ok <==> k !in old(specialised)
      ensures ok ==> specialised == old(specialised) + {k} && current == old(current)[k := Fraction(n, d)]
      ensures !ok ==> specialised == old(specialised) && current == old(current)
      ensures ok ==> RatioOf(k) == Fraction(n, d)
      ensures forall j :: j != k ==> RatioOf(j) == old(RatioOf(j))
    {
      if k in specialised {
        ok := false;
      } else {
        specialised := specialised + {k};
        current := current[k := Fraction(n, d)];
        ok := true;
      }
    }

    /** RuntimeUnit<Type, ID>::ratio::num = n: the statics are public and not const, so a
        program may assign them at any time and as often as it likes. den is kept, and so is
        every other type's ratio. */
    method AssignNum(k: RuntimeKey, n: int)
      requires Valid()
      modifies this
      ensures Valid()
      ensures specialised == old(specialised)
      ensures current == old(current)[k := Fraction(n, old(RatioOf(k)).den)]
      ensures RatioOf(k) == Fraction(n, old(RatioOf(k)).den)
      ensures forall j :: j != k ==> RatioOf(j) == old(RatioOf(j))
    {
      current := current[k := Fraction(n, RatioOf(k).den)];
    }

    /** RuntimeUnit<Type, ID>::ratio::den = d, likewise; nothing rejects d == 0 here. */
    method AssignDen(k: RuntimeKey, d: int)
      requires Valid()
      modifies this
      ensures Valid()
      ensures specialised == old(specialised)
      ensures current == old(current)[k := Fraction(old(RatioOf(k)).num, d)]
      ensures RatioOf(k) == Fraction(old(RatioOf(k)).num, d)
      ensures forall j :: j != k ==> RatioOf(j) == old(RatioOf(j))
    {
      current := current[k := Fraction(RatioOf(k).num, d)];
    }

    /** The amount in the base unit Unit<Type> that a RuntimeUnit value stands for:
        value * num / den, the expression operator T() hands to Unit<Type>. */
    function ToBase(k: RuntimeKey, value: real): (b: real)
      reads this
      requires RatioOf(k).den != 0
      ensures b * RatioOf(k).den as real == value * RatioOf(k).num as real
    {
      value * RatioOf(k).num as real / RatioOf(k).den as real
    }

    /** The value a RuntimeUnit takes for an amount in the base unit: base / num * den, the
        expression of the converting constructor. */
    function FromBase(k: RuntimeKey, base: real): (v: real)
      reads this
      requires RatioOf(k).num != 0
      ensures v * RatioOf(k).num as real == base * RatioOf(k).den as real
    {
      base / RatioOf(k).num as real * RatioOf(k).den as real
    }

    /** explicit RuntimeUnit(T other): T is converted into Unit<Type> (a double unit of
        ratio 1/1), and the amount becomes this unit's value. Rejected unless T has this
        unit's dimension. */
    function FromUnit(k: RuntimeKey, other: Quantity): (r: Result<real>)
      reads this
      requires RatioOf(k).num != 0
      ensures r.Ok? <==> other.unit.dim == RuntimeDim(k)
      ensures r.Err? ==> r.error == DimensionMismatch
      ensures r.Ok? && RatioOf(k).den != 0 ==> ToBase(k, r.value) == BaseValue(other)
    {
      var base := BaseUnit(k.base, Floating);
      match Convert(other, base)
      case Err(e) => Err(e)
      case Ok(b) =>
        ConvertPreserves(other, base);
        BaseValueOfBase(b);
        var v := FromBase(k, b.value.r);
        assert RatioOf(k).den != 0 ==> ToBase(k, v) == b.value.r by {
          if RatioOf(k).den != 0 {
            ToBaseFromBase(k, b.value.r);
          }
        }
        Ok(v)
    }

    /** operator T(): T{Unit<Type>{value * num / den}}, the base amount converted into T.
        Rejected unless T has this unit's dimension (and whenever convert rejects). */
    function ToUnit(k: RuntimeKey, value: real, to: Descriptor): (r: Result<Quantity>)
      reads this
      requires RatioOf(k).den != 0
      ensures !Equivalent(BaseUnit(k.base, Floating), to) ==> r == Err(DimensionMismatch)
      ensures r.Ok? <==> to.dim == RuntimeDim(k) && to.ratio.num != 0 &&
                         (to.kind == Integral ==> Divide(One, to.ratio).value.den == 1)
      ensures r.Ok? ==> r.value.unit == to
      ensures r.Ok? && to.kind == Floating ==> BaseValue(r.value) == ToBase(k, value)
      ensures r.Ok? && to.kind == Integral ==>
                r.value.value == WholeScale(Real(ToBase(k, value)), Divide(One, to.ratio).value.num)
    {
      var b: Quantity := Instance(BaseUnit(k.base, Floating), Real(ToBase(k, value)));
      assert Convert(b, to).Ok? && to.kind == Floating ==> BaseValue(Convert(b, to).value) == ToBase(k, value) by {
        if Convert(b, to).Ok? && to.kind == Floating {
          ConvertPreserves(b, to);
          BaseValueOfBase(b);
        }
      }
      Convert(b, to)
    }

    /** explicit RuntimeUnit(T other) as written: Unit<Type>{other} is a BraceInit from a T
        object, so it compiles only when T is Unit<Type> itself (`isBase`), and the value
        is then taken from other's value directly. */
    function FromUnitAsWritten(k: RuntimeKey, other: Quantity, isBase: bool): (r: Result<real>)
      reads this
      requires RatioOf(k).num != 0
      requires isBase ==> other.unit == BaseUnit(k.base, Floating)
      ensures r.Ok? <==> isBase
      ensures r.Err? ==> r.error == AmbiguousInit
      ensures r.Ok? ==> r == FromUnit(k, other)
    {
      var base := BaseUnit(k.base, Floating);
      match BraceInit(other, base, isBase)
      case Err(e) => Err(e)
      case Ok(b) => Ok(FromBase(k, b.value.r))
    }

    /** operator T() as written: T{Unit<Type>{...}} is a BraceInit from a Unit<Type> object,
        so it compiles only when T is Unit<Type> itself (`isBase`). */
    function ToUnitAsWritten(k: RuntimeKey, value: real, to: Descriptor, isBase: bool): (r: Result<Quantity>)
      reads this
      requires RatioOf(k).den != 0
      requires isBase ==> to == BaseUnit(k.base, Floating)
      ensures r.Ok? <==> isBase
      ensures r.Err? ==> r.error == AmbiguousInit
      ensures r.Ok? ==> r == ToUnit(k, value, to)
    {
      var b: Quantity := Instance(BaseUnit(k.base, Floating), Real(ToBase(k, value)));
      BraceInit(b, to, isBase)
    }

    /** Setting out and coming back: a value converted to its base amount and back is
        unchanged, and so is an amount converted to a value and back. */
    lemma ToBaseFromBase(k: RuntimeKey, x: real)
      requires RatioOf(k).num != 0 && RatioOf(k).den != 0
      ensures FromBase(k, ToBase(k, x)) == x
      ensures ToBase(k, FromBase(k, x)) == x
    {
      var n, d := RatioOf(k).num as real, RatioOf(k).den as real;
      var b := ToBase(k, x);
      var v := FromBase(k, b);
      assert b * d == x * n;
      assert v * n == b * d;
      assert (v - x) * n == 0.0;
      var w := FromBase(k, x);
      var c := ToBase(k, w);
      assert w * n == x * d;
      assert c * d == w * n;
      assert (c - x) * d == 0.0;
    }

    /** A RuntimeUnit whose ratio was never set nor assigned behaves as its base unit. */
    lemma DefaultIsBase(k: RuntimeKey, x: real)
      requires k !in current
      ensures ToBase(k, x) == x && FromBase(k, x) == x
    {
    }
  }

  /** In Unit<Type> the value is the amount. */
  lemma BaseValueOfBase(q: Instance)
    requires q.unit.ratio == One
    ensures BaseValue(q) == ToReal(q.value)
  {
  }

  /** A RuntimeUnit round trip through another unit of its dimension: the value taken from
      a floating unit gives, converted back, the same physical amount. */
  lemma ThroughUnit(rs: RuntimeRatios, k: RuntimeKey, x: real, to: Descriptor)
    requires rs.RatioOf(k).num != 0 && rs.RatioOf(k).den != 0
    requires to.dim == RuntimeDim(k) && to.ratio.num != 0 && to.kind == Floating
    ensures rs.ToUnit(k, x, to).Ok?
    ensures rs.FromUnit(k, rs.ToUnit(k, x, to).value) == Ok(x)
  {
    var q := rs.ToUnit(k, x, to).value;
    var r := rs.FromUnit(k, q);
    assert rs.ToBase(k, r.value) == rs.ToBase(k, x);
    rs.ToBaseFromBase(k, x);
    rs.ToBaseFromBase(k, r.value);
  }

  /** The round trip of ThroughUnit as written: it compiles only through Unit<Type> itself,
      and there it gives the value back; through any other unit T of the dimension the
      intended conversion exists but the written one is rejected. */
  lemma ThroughUnitAsWritten(rs: RuntimeRatios, k: RuntimeKey, x: real, to: Descriptor)
    requires rs.RatioOf(k).num != 0 && rs.RatioOf(k).den != 0
    requires to.dim == RuntimeDim(k) && to.ratio.num != 0 && to.kind == Floating
    ensures rs.ToUnitAsWritten(k, x, BaseUnit(k.base, Floating), true).Ok?
    ensures rs.FromUnitAsWritten(k, rs.ToUnitAsWritten(k, x, BaseUnit(k.base, Floating), true).value, true) == Ok(x)
    ensures rs.ToUnit(k, x, to).Ok? && rs.ToUnitAsWritten(k, x, to, false) == Err(AmbiguousInit)
  {
    var base := BaseUnit(k.base, Floating);
    var q := rs.ToUnitAsWritten(k, x, base, true).value;
    assert q.unit == base;
    ThroughUnit(rs, k, x, base);
  }
}
