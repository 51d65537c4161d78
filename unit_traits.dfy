/** The compile-time tests on types: units.h states them as the concepts RatioType,
    UnitType and EquivalentBaseType, units_17.h as the traits is_ratio, is_unit and
    has_equivalent_base_type. A C++ type enters here only through the members these tests
    look at, recorded in a TypeShape. */
module UnitTraits {
  import opened Wrappers
  import opened Ratios
  import opened Numerics
  import opened Units

  /** A static data member such as `num`: missing, of a type that converts to intmax_t
      (with the value it converts to), or of some other type. */
  datatype Member = Missing | Convertible(v: int) | NotConvertible

  /** The member `value`: missing, of an arithmetic type (integral or floating), or of some
      other type. */
  datatype ValueMember = NoValue | Arithmetic(kind: NumKind) | NotArithmetic

  /** What the traits can see of a type: its members num and den, its member types
      base_type and ratio (when it has them), and its member value. */
  datatype TypeShape = TypeShape(num: Member, den: Member, baseType: Option<TypeShape>,
                                 ratio: Option<TypeShape>, value: ValueMember)

  /** RatioType<T> / is_ratio<T>: T::num and T::den exist and convert to intmax_t. */
  predicate IsRatio(t: TypeShape) {
    t.num.Convertible? && t.den.Convertible?
  }

  /** UnitType<T> / is_unit<T>: base_type and ratio are ratio types and value is
      arithmetic. */
  predicate IsUnit(t: TypeShape) {
    && t.baseType.Some? && IsRatio(t.baseType.value)
    && t.ratio.Some? && IsRatio(t.ratio.value)
    && t.value.Arithmetic?
  }

  /** std::ratio_equal on two ratio types: equal num and equal den. */
  predicate RatioMembersEqual(a: TypeShape, b: TypeShape)
    requires IsRatio(a) && IsRatio(b)
  {
    a.num.v == b.num.v && a.den.v == b.den.v
  }

  /** EquivalentBaseType<T1, T2> / has_equivalent_base_type<T1, T2>: both are units and
      their base types are ratio_equal; false (not ill-formed) otherwise. */
  predicate HasEquivalentBaseType(a: TypeShape, b: TypeShape) {
    IsUnit(a) && IsUnit(b) && RatioMembersEqual(a.baseType.value, b.baseType.value)
  }

  /** The shape of std::ratio<N, D> (already reduced). */
  function RatioShape(r: Fraction): (t: TypeShape)
    ensures IsRatio(t) && !IsUnit(t)
  {
    TypeShape(Convertible(r.num), Convertible(r.den), None, None, NoValue)
  }

  /** The shape of a unit type with the given descriptor. */
  function ShapeOf(d: Descriptor): (t: TypeShape)
    ensures IsUnit(t) && !IsRatio(t)
    ensures t.value == Arithmetic(d.kind)
  {
    TypeShape(Missing, Missing, Some(RatioShape(d.dim)), Some(RatioShape(d.ratio)), Arithmetic(d.kind))
  }

  // ---------------------------------------------------------------------------
  // Laws

  /** is_ratio holds exactly when both members convert to intmax_t; a missing member or
      one of another type makes it false. */
  lemma IsRatioExactly(t: TypeShape)
    ensures IsRatio(t) <==> (t.num != Missing && t.num != NotConvertible &&
                             t.den != Missing && t.den != NotConvertible)
  {
  }

  /** On unit types the trait is the descriptors' equivalence. */
  lemma EquivalentOnShapes(a: Descriptor, b: Descriptor)
    ensures HasEquivalentBaseType(ShapeOf(a), ShapeOf(b)) <==> Equivalent(a, b)
  {
  }

  /** If either argument is not a unit, has_equivalent_base_type is false, in both argument
      orders. */
  lemma NonUnitNeverEquivalent(a: TypeShape, b: TypeShape)
    requires !IsUnit(a)
    ensures !HasEquivalentBaseType(a, b) && !HasEquivalentBaseType(b, a)
  {
  }

  /** The trait is symmetric and transitive on units, and reflexive on every unit. */
  lemma EquivalenceLaws(a: TypeShape, b: TypeShape, c: TypeShape)
    ensures IsUnit(a) ==> HasEquivalentBaseType(a, a)
    ensures HasEquivalentBaseType(a, b) ==> HasEquivalentBaseType(b, a)
    ensures HasEquivalentBaseType(a, b) && HasEquivalentBaseType(b, c) ==> HasEquivalentBaseType(a, c)
  {
  }

  /** A value whose member is not arithmetic (or missing) is not a unit, whatever its
      base_type and ratio. */
  lemma ValueMustBeArithmetic(t: TypeShape)
    requires !t.value.Arithmetic?
    ensures !IsUnit(t)
  {
  }
}
