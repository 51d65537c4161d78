/** Outcomes of the unit algebra. Every error corresponds to a C++ program that the
    compiler rejects: in the library these are static failures, here they are values. */
module Wrappers {

  datatype Option<+T> = None | Some(value: T)

  /** Why a unit expression or operation is rejected. */
  datatype Error =
    | DimensionMismatch   // EquivalentBaseType / has_equivalent_base_type is false
    | ZeroDenominator     // a std::ratio whose denominator would be zero
    | EmptyPack           // MultiUnit<> : std::common_type_t<> names no type
    | Narrowing           // brace-initialising an integral value from a double
    | NotUnitRatio        // passthrough to a plain number from a ratio other than 1/1
    | InvalidCast         // const_cast to a type that is neither a pointer nor a reference
    | AmbiguousInit       // X{u} for an object u of another unit class: two constructors tie

  datatype Result<+T> = Ok(value: T) | Err(error: Error)
}
