# UnitMaker in Dafny

UnitMaker is a header-only C++ library of physical units. A unit is a type with three
things:

- a *base type*: a `std::ratio` that encodes the dimension as a product of primes, with
  mass 2, length 3, time 5, temperature 7, current 11 and luminous intensity 13;
- a *ratio*: the unit's scale against the 1/1 unit of that dimension;
- a `value` member of some arithmetic type.

Conversion between two units of equal base type happens implicitly. The rules are:

- a whole conversion factor into an integral target is applied exactly;
- any other factor is applied in floating point;
- a conversion that would narrow is rejected.

The arithmetic operators build new unit types out of their operands. A `RuntimeUnit`'s
ratio lives in two public, non-const static members: `UNIT_SET_RATIO` gives them their
initial values, at most once per type, and a program may assign them at any time after
that. `si_units.h` is a catalogue of
SI, FPS and other units that are built from the six base units.

This project models that library on exact values:

- A unit *type* is a `Descriptor`: a dimension ratio, a scale ratio, and a `NumKind`
  (integral or floating) that stands for the value member's type.
- A `std::ratio` is a reduced `Fraction`. Reduction, multiplication and division follow
  the standard's definitions of `std::ratio`, `std::ratio_multiply` and
  `std::ratio_divide`.
- A value is a `Num`: an exact integer or an exact real.
- A program that the C++ compiler would reject becomes an `Err`:
  - `DimensionMismatch` for a failed `EquivalentBaseType`;
  - `ZeroDenominator` for a ratio with a zero denominator;
  - `EmptyPack` for an empty `MultiUnit`;
  - `Narrowing` for a narrowing brace-initialisation;
  - `NotUnitRatio` for the passthrough conversion of a scaled unit;
  - `InvalidCast` for a `const_cast` to a class type;
  - `AmbiguousInit` for brace-initialising a unit from an object of another unit class
    (see "## Findings").
- `BaseValue` gives the physical amount a value stands for, measured in the 1/1 unit of its
  dimension. Most properties are stated through it.

Files:

- `wrappers.dfy`: `Option`, `Result` and the error kinds.
- `ratios.dfy`: `std::ratio` arithmetic, with canonical reduction and equality.
- `numerics.dfy`: the value member's arithmetic. It covers the usual arithmetic
  conversions, division that truncates toward zero, and `static_cast` to an integer.
- `units.dfy`: unit descriptors, `RecursiveRatioMultiply`, `Unit`, `UnitRatio`,
  `MultiUnit`, `SpecifiedUnit`, `NumericUnit`, `UnitInverse`, `UnitOffset`, and
  `AbstractUnit`'s two `convert` overloads.
- `operators.dfy`: `*`, `/`, `+` and `-` on units and scalars.
- `unit_traits.dfy`: the concepts of `units.h` and the equivalent traits of `units_17.h`.
- `runtime_units.dfy`: `RuntimeUnit`. Its static ratio members form a class holding the
  set of types that `UNIT_SET_RATIO` specialised and a map of the current `num`/`den`
  pairs, which `UNIT_SET_RATIO` and plain assignments update.
- `dimensions.dfy`: the prime encoding of dimensions. Through Euclid's lemma it proves that
  a dimension built on a prime other than the six base primes is never equivalent to a
  product of base units and their inverses.
- `si_units.dfy`: the unit catalogue as an expression datatype, with a `Describe` function
  that evaluates an expression to its descriptor. It also proves facts about particular
  units: newton, pound-force, pascal, atmosphere, minute/hour/day, joule/watt, Celsius and
  Fahrenheit.

`units_17.h` is the C++17 rendering of `units.h`: SFINAE traits instead of concepts, with
the same types, conversion and operators. The model covers both, and each row below cites
the file whose text states the behaviour most directly.

The two sources differ in one place, and the catalogue's factors are worth spelling out:

- The `units_17.h` passthrough conversion (`units_17.h:82-86`) returns `double` rather
  than `To`. The value then reaches `To` through an implicit conversion, so the result
  equals the one from `units.h`. `Units.ToNumber` models both.
- The code's factors give 1 lbf = 14.5939 · 0.3048 N = 4.44822072 N, so 100 N is about
  22.4809 lbf (`SiUnits.PoundInNewtons`).

## Model

| member | source | states |
|---|---|---|
| Ratios.Reduce | units.h:60 | the reduced form of `std::ratio<N, D>`: numerator and denominator divided by their gcd, with the sign on the numerator; its value is `Ratios.ReduceValue`, its canonicity `Ratios.ReduceCanonical` |
| Ratios.Multiply | units.h:45 | `std::ratio_multiply`: the reduced product; its value is `Ratios.MultiplyValue` |
| Ratios.RatioEqual | units.h:30 | `std::ratio_equal`: equal numerators and equal denominators; on reduced ratios it is `Ratios.EqualIffSameReal` |
| Ratios.Make | units.h:60 | `std::ratio<N, D>` is ill-formed exactly when D is 0; otherwise it is a ratio in lowest terms |
| Ratios.ReduceCanonical | units.h:60 | two numerator/denominator pairs with equal cross products reduce to the same `std::ratio` |
| Ratios.EqualIffSameReal | units.h:30 | `std::ratio_equal` of two reduced ratios holds exactly when they denote the same number |
| Ratios.ReduceValue | units.h:60 | reducing N/D keeps the number N/D |
| Ratios.MultiplyValue | units.h:45 | `std::ratio_multiply` denotes the product of its operands |
| Ratios.Divide | units.h:146-147 | `std::ratio_divide` is ill-formed exactly when the divisor's numerator is 0 |
| Ratios.DivideValue | units.h:146-147 | the quotient times the divisor is the dividend |
| Ratios.DivideSelf | units.h:60 | the conversion factor between a unit and itself is 1/1 |
| Ratios.Invert | units.h:147 | 1/R exists exactly when R's numerator is non-zero, and R times 1/R is 1/1 |
| Ratios.InvertValue | units.h:147 | 1/R denotes the reciprocal of R and is itself invertible |
| Ratios.InvertInvolution | units.h:146-147 | inverting twice gives back the ratio |
| Ratios.MultiplyCommutative | units.h:43-51 | the order of the factors in a ratio product does not matter |
| Ratios.MultiplyAssociative | units.h:43-51 | the grouping of the factors in a ratio product does not matter |
| Ratios.MultiplyOne | units.h:48-51 | the fold's terminating 1/1 is neutral on both sides |
| Numerics.CommonLaws | units.h:102 | `std::common_type` of the value types is commutative and associative, so the order of a `MultiUnit`'s factors does not change its value type; an integral type is neutral and a floating type absorbs |
| Numerics.Add | units.h:206 | the sum has the common kind and denotes the exact sum |
| Numerics.Sub | units.h:214 | the difference has the common kind and denotes the exact difference |
| Numerics.Mul | units.h:169 | the product has the common kind and denotes the exact product |
| Numerics.TruncDiv | units.h:198 | integer division truncates toward zero: the magnitude is bounded by the exact quotient, and the sign is the product of the signs |
| Numerics.Div | units.h:197-198 | floating division gives the exact quotient, and two integers divide by truncation |
| Numerics.Trunc | units.h:62 | `static_cast` to an integer drops the fraction toward zero |
| Numerics.Cast | units.h:69-73 | conversion to another arithmetic type keeps integers exactly, keeps a value of the same kind unchanged, and truncates a floating value into an integer |
| Units.RatioProduct | units.h:43-51 | `RecursiveRatioMultiply`: a right fold of `std::ratio_multiply` ending in 1/1; its value is `Units.RatioProductValue` |
| Units.BaseUnit | units.h:85-91 | `Unit<Type, Numeric>`: dimension the base type's prime, scale 1/1; `Units.BaseUnitsDistinct` states what it promises |
| Units.Equivalent | units.h:26-30 | `EquivalentBaseType` on two unit descriptors: `ratio_equal` of the dimensions |
| Units.BaseValue | units.h:57-67 | the physical amount a value stands for, value times scale; `Units.ConvertPreserves` shows conversion keeps it |
| Units.RatioProductValue | units.h:43-51 | `RecursiveRatioMultiply` denotes the product of the numbers of its ratios |
| Units.RatioProductAppend | units.h:43-51 | the fold over a concatenated pack is the product of the two folds |
| Units.CommonKind | units.h:102 | a `MultiUnit`'s value type is integral exactly when every factor's is |
| Units.UnitRatio | units.h:93-99 | `UnitRatio<T, R>` keeps T's dimension and value type |
| Units.UnitRatioValue | units.h:98 | `UnitRatio<T, R>`'s scale is R times T's scale |
| Units.MultiUnit | units.h:101-107 | a `MultiUnit` exists exactly when its pack is non-empty; its value type is integral exactly when all factors' are |
| Units.MultiUnitValue | units.h:105-106 | the dimension and the scale are the products of the factors' dimensions and scales |
| Units.SpecifiedUnit | units.h:109-115 | a `SpecifiedUnit` exists exactly when both ratios have non-zero denominators; it denotes the given dimension, scale and value type |
| Units.UnitInverse | units.h:142-148 | `UnitInverse<T>` exists exactly when T's dimension and scale are non-zero; each ratio times T's is 1/1; the value type is kept |
| Units.FactorWhole | units.h:60-61 | the conversion factor is whole exactly when From::num·To::den is a multiple of From::den·To::num |
| Units.Convert | units.h:57-67 | conversion succeeds exactly when the dimensions agree, the target scale is non-zero, and an integral target gets a whole factor; a mismatch is rejected; the result has the target unit; an integral result is the value times the factor, truncated |
| Units.ConvertPreserves | units.h:57-67 | apart from truncating a floating value into an integral unit, conversion keeps the physical amount |
| Units.WholeScale | units.h:62 | the whole-factor path multiplies an integer exactly and truncates a floating value |
| Units.ToNumber | units.h:69-73 | a unit converts to a plain number exactly when its scale is 1/1; the number is the value, cast to the target kind: unchanged for the same kind, exact for an integer, truncated toward zero for a floating value into an integral type |
| Units.BraceInit | units.h:206 | brace-initialising a unit from an object of a unit class succeeds exactly when the object is of that class, and then agrees with `Convert`; otherwise the call is ambiguous |
| Units.ConvertOffsetAsWritten | units.h:159-164 | as written, an offset value converts only into its own base unit T, and there it agrees with `ConvertOffset`; wherever `ConvertOffset` succeeds into another class, the written conversion is ambiguous |
| Units.ConvertOffset | units.h:159-164 | an offset value converts exactly when the dimensions agree, the offset base is floating, and the target admits the factor; a floating target receives the amount of (value + offset) in the base unit, and an integral target the shifted value times the whole factor, truncated |
| Units.BaseUnitsDistinct | units.h:85-91 | every base unit has scale 1/1 and a prime dimension; two base units are equivalent exactly when their base types are equal |
| Units.PrimesArePrime | units.h:32-34 | every base type's code is prime |
| Units.UnitRatioNested | units.h:93-99 | scaling by R1 and then by R2 is scaling by R2·R1 |
| Units.UnitRatioOne | units.h:98 | scaling by 1/1 gives back the unit |
| Units.MultiUnitFlatten | units.h:101-107 | a `MultiUnit` of a concatenated pack equals the `MultiUnit` of the two partial `MultiUnit`s |
| Units.CommonKindAppend | units.h:102 | the common value type of a concatenated pack is the common type of the two parts |
| Units.MultiUnitPair | units.h:101-107 | a two-factor `MultiUnit` multiplies the dimensions and the scales and takes the common value type |
| Units.MultiUnitSingle | units.h:101-107 | a one-factor `MultiUnit` is its factor |
| Units.MultiUnitCons | units.h:101-107 | a `MultiUnit` of T followed by a pack equals T times the `MultiUnit` of the pack |
| Units.MultiUnitCommutative | units.h:101-107 | a two-factor `MultiUnit` does not depend on the order of its factors |
| Units.InverseInvolution | units.h:142-148 | the inverse of an inverse unit is the unit |
| Units.MultiWithInverse | units.h:142-148 | a unit times its inverse is dimensionless with scale 1/1 |
| Units.SpecifiedUnitOf | units.h:117-118 | `NumericUnit<T, N>` has T's dimension and scale, with value type N |
| Units.ConvertIdentity | units.h:57-67 | converting a value into its own unit gives the same value |
| Units.ConvertRoundTrip | units.h:57-67 | between floating units, converting there and back gives the same value |
| Units.ConvertTransitive | units.h:57-67 | between floating units, converting through an intermediate unit equals converting directly |
| Units.ScaledToBase | units.h:93-99 | a value x in `UnitRatio<T, R>` converts into T as x·R |
| Operators.Times | units.h:167-170 | the product of two units multiplies the dimensions, the scales and the amounts, with the common value type |
| Operators.Scale | units.h:172-182 | a unit times a scalar keeps the dimension and scale; its value and its amount are multiplied by the scalar |
| Operators.DivideByScalar | units.h:195-199 | a unit divided by a scalar keeps the dimension and scale; a floating result times the scalar is the amount; integer operands divide by truncation |
| Operators.Over | units.h:184-187 | the quotient exists exactly when the divisor's dimension and scale are non-zero; its dimension and scale times the divisor's give the dividend's; integer operands divide by truncation |
| Operators.OverAmount | units.h:184-187 | a floating quotient's amount times the divisor's amount is the dividend's amount |
| Operators.ScalarOver | units.h:189-193 | a scalar over a unit has the unit's inverse dimension and scale; integer operands divide by truncation |
| Operators.ScalarOverAmount | units.h:189-193 | a floating result's amount times the unit's amount is the scalar |
| Operators.SumUnit | units.h:204-205 | the result type of `+` and `-` exists exactly when the dimensions agree and the left scale is non-zero; it has the left unit's dimension and scale; its value is integral exactly when both are and the right-to-left factor is whole |
| Operators.AlignRight | units.h:206 | the right operand converts into the result type, keeping its amount and taking the result's kind |
| Operators.Plus | units.h:201-207 | `+` is accepted exactly when the dimensions agree and the left scale is non-zero; the result is in the left unit's dimension and scale |
| Operators.Minus | units.h:209-215 | `-` is accepted under the same rule as `+`; the result is in the left unit's dimension and scale |
| Operators.PlusAsWritten | units.h:201-207 | as written, `+` compiles exactly when the intended `+` does and the right operand is already of the result's `SpecifiedUnit` class, and then gives the same result; otherwise `ret_type{t2}` is ambiguous |
| Operators.MinusAsWritten | units.h:209-215 | as written, `-` compiles under the same rule as `PlusAsWritten` and then agrees with the intended `-` |
| Operators.PlusAmount | units.h:201-207 | the sum's amount is the sum of the operands' amounts |
| Operators.MinusAmount | units.h:209-215 | the difference's amount is the difference of the operands' amounts |
| Operators.TimesCommutative | units.h:167-170 | the product of two units does not depend on their order |
| Operators.PlusSameUnit | units.h:201-207 | two values of the same unit add within that unit |
| Operators.MinusSelf | units.h:209-215 | a value minus itself stays in its unit and has amount zero |
| Operators.OverSelf | units.h:184-187 | a unit divided by itself is dimensionless with scale 1/1 |
| UnitTraits.IsRatio | units.h:14-18 | `RatioType`: `num` and `den` exist and convert to `intmax_t` |
| UnitTraits.IsUnit | units.h:20-24 | `UnitType`: `base_type` and `ratio` are ratio types and `value` is arithmetic |
| UnitTraits.HasEquivalentBaseType | units.h:26-30 | `EquivalentBaseType`: both are units and their base types are `ratio_equal` |
| UnitTraits.RatioShape | units_17.h:14-22 | a `std::ratio` satisfies `is_ratio` and not `is_unit` |
| UnitTraits.ShapeOf | units_17.h:24-32 | every unit type satisfies `is_unit` (its value member is arithmetic) and not `is_ratio` |
| UnitTraits.IsRatioExactly | units_17.h:14-22 | `is_ratio` holds exactly when `num` and `den` both exist and convert to `intmax_t` |
| UnitTraits.EquivalentOnShapes | units_17.h:34-42 | on unit types, `has_equivalent_base_type` holds exactly when the base types are `ratio_equal` |
| UnitTraits.NonUnitNeverEquivalent | units.h:26-30 | if either argument is not a unit, `EquivalentBaseType` is false in both orders |
| UnitTraits.EquivalenceLaws | units.h:26-30 | `EquivalentBaseType` is reflexive on units, symmetric and transitive |
| UnitTraits.ValueMustBeArithmetic | units.h:20-24 | a type whose `value` is missing or not arithmetic is not a unit |
| RuntimeUnits.RuntimeDim | units.h:135 | a `RuntimeUnit`'s base type is its base unit's |
| RuntimeUnits.RuntimeRatios.constructor | units.h:136-139 | before any `UNIT_SET_RATIO` or assignment, no ratio is specialised and every `RuntimeUnit` has the in-class ratio 1/1 |
| RuntimeUnits.RuntimeRatios.SetRatio | units.h:8 | `UNIT_SET_RATIO` succeeds exactly once per type, since a second explicit specialisation redefines the statics; it records the type as specialised and sets its pair raw, and every other type keeps its ratio |
| RuntimeUnits.RuntimeRatios.AssignNum | units.h:136-138 | assigning `ratio::num` always succeeds, however often it is done; it replaces the numerator, keeps the denominator, and leaves every other type's ratio and the set of specialised types as they were |
| RuntimeUnits.RuntimeRatios.AssignDen | units.h:136-139 | assigning `ratio::den` likewise replaces only the denominator, zero included |
| RuntimeUnits.RuntimeRatios.ToBase | units.h:132 | the base amount times `den` is the value times `num` |
| RuntimeUnits.RuntimeRatios.FromBase | units.h:127 | the value times `num` is the base amount times `den` |
| RuntimeUnits.RuntimeRatios.FromUnit | units.h:125-127 | construction from another unit is accepted exactly when its dimension matches; the stored value stands for the other value's amount |
| RuntimeUnits.RuntimeRatios.ToUnit | units.h:129-133 | conversion out is accepted exactly when the target's dimension matches and the target admits the factor; a floating target receives the value's base amount, and an integral target the base amount times the whole factor, truncated |
| RuntimeUnits.RuntimeRatios.ToBaseFromBase | units.h:125-133 | the value-to-amount and amount-to-value conversions are inverse to each other |
| RuntimeUnits.RuntimeRatios.DefaultIsBase | units.h:136-139 | a `RuntimeUnit` whose ratio was never set nor assigned behaves as its base unit |
| RuntimeUnits.RuntimeRatios.FromUnitAsWritten | units.h:125-127 | as written, construction from a unit compiles only when that unit is `Unit<Type>` itself, and then agrees with `FromUnit`; from any other class it is ambiguous |
| RuntimeUnits.RuntimeRatios.ToUnitAsWritten | units.h:129-133 | as written, conversion out compiles only into `Unit<Type>` itself, and then agrees with `ToUnit`; into any other class it is ambiguous |
| RuntimeUnits.ThroughUnit | units.h:125-133 | a `RuntimeUnit` value converted out to a floating unit and back is unchanged |
| RuntimeUnits.ThroughUnitAsWritten | units.h:125-133 | as written, the round trip compiles through `Unit<Type>` and gives the value back; through any other unit of the dimension the intended conversion exists but the written one is ambiguous |
| SiUnits.Describe | si_units.h:10-95 | evaluates a catalogue unit to its descriptor, through `Unit`, `UnitRatio`, `MultiUnit` and `UnitInverse`; a rejected factor rejects the whole unit (`SiUnits.ProductDescribed` and the catalogue lemmas state the results) |
| SiUnits.ProductDescribed | si_units.h:19-34 | a `MultiUnit` alias describes the `MultiUnit` of its factors' descriptors |
| SiUnits.ScaledDescribed | si_units.h:37-45 | a `UnitRatio` alias describes its base scaled by the reduced ratio |
| SiUnits.InverseDescribed | si_units.h:18 | a `UnitInverse` alias describes the inverse of its operand |
| SiUnits.DescribeOffset | si_units.h:66-67 | an offset unit exists exactly when its base and offset do; it keeps its base and the offset's value |
| SiUnits.GetConversionFactor | si_units.h:97-100 | the factor is a value of `MultiUnit<T1, Per<T2>>`; ill-formed pieces are reported, and a non-floating value type is rejected |
| SiUnits.BaseUnitsCatalogue | si_units.h:10-15 | the six SI base units have dimensions 2, 3, 5, 7, 11 and 13, scale 1/1, and `double` values |
| SiUnits.HertzDescriptor | si_units.h:18 | hertz has dimension 1/5 and scale 1/1 |
| SiUnits.NewtonDescriptor | si_units.h:19 | newton has dimension 6/25 (kg·m/s²) and scale 1/1 |
| SiUnits.PoundDescriptor | si_units.h:53 | pound-force has the newton's dimension and scale 14.5939 · 0.3048 |
| SiUnits.PoundInNewtons | si_units.h:52-53 | x pound-force converts to x · 4.44822072 newtons |
| SiUnits.PascalDescriptor | si_units.h:20 | pascal has dimension 2/75 and scale 1/1 |
| SiUnits.AtmosphereInPascals | si_units.h:60 | the atmosphere-to-pascal factor is the whole number 101325; x atm is x · 101325 Pa, and an integral pascal target gets that product truncated |
| SiUnits.MinuteHourDay | si_units.h:37-39 | minute, hour and day are time units of scale 60, 3600 and 86400 |
| SiUnits.JouleWatt | si_units.h:21-22 | joule is newton times metre (dimension 18/25), and watt is joule times hertz (dimension 18/125) |
| SiUnits.RankineDescriptor | si_units.h:65 | rankine is a temperature unit of scale 5/9 |
| SiUnits.CelsiusToKelvin | si_units.h:66 | x °C converts to x + 273.15 K, so 0 °C is 273.15 K |
| SiUnits.FahrenheitToKelvin | si_units.h:65-67 | x °F has the amount of x + 459.67 degrees Rankine, and 32 °F is 273.15 K |
| SiUnits.MeterPlusFoot | si_units.h:48 | 5 m + 5 ft is a metre value of 5 + 5 · 0.3048 |
| SiUnits.MeterPlusFootAsWritten | units.h:206 | as written, `Meter{5} + Foot{5}`, `Meter{5} - Foot{5}` and even `Meter{5} + Meter{5}` are ambiguous, while the intended results exist |
| SiUnits.OffsetConversionsAsWritten | units.h:163 | as written, Celsius converts to Kelvin (x + 273.15) and Fahrenheit to Rankine, but `Fahrenheit{32}` to Kelvin, whose intended value is 273.15, is ambiguous |
| SiUnits.SquareDescribed | si_units.h:70-71 | `Square<T>` squares T's dimension and scale and keeps its value type |
| SiUnits.PerDescribed | si_units.h:76-77 | `Per<T>` is `UnitInverse<T>`, and its ratios times T's give 1/1 |
| SiUnits.KiloDescribed | si_units.h:88-89 | `Kilo<T>` is T with a scale 1000 times larger |
| SiUnits.GetConversionFactorAsWritten | si_units.h:97-100 | as written, every `getConversionFactor` whose `MultiUnit` is well formed is rejected at the `const_cast` |
| SiUnits.ConversionFactorCastRejected | si_units.h:97-100 | `getConversionFactor<Foot, Meter>(0.3048)` is rejected as written, while the intended function gives 0.3048 |
| Dimensions.ReduceFree | units.h:45 | reducing a ratio never introduces a prime factor into its numerator or denominator |
| Dimensions.FreeOfMultiply | units.h:45 | `std::ratio_multiply` of two ratios free of a prime p is free of p |
| Dimensions.FreeOfDivide | units.h:146 | `std::ratio_divide` of two ratios free of a prime p is free of p |
| Dimensions.FreeOfProduct | units.h:43-51 | `RecursiveRatioMultiply` of ratios free of a prime p is free of p |
| Dimensions.BaseFree | units.h:32-34 | a base type's prime and its inverse are free of every other prime |
| Dimensions.CustomDimensionIsolated | units.h:109-115 | a `SpecifiedUnit` whose base type is a prime p other than 2, 3, 5, 7, 11, 13 exists and is never dimension-equivalent to a `MultiUnit` of base units and their inverses |
| Dimensions.CustomNotBase | units.h:26-34 | such a custom unit is never dimension-equivalent to any of the six base units |
| SiUnits.ConversionFactorOf | si_units.h:97-100 | for equivalent T1 and T2, the factor exists exactly when the common value type is floating; it is dimensionless with scale T1/T2 |

## Left out

- Floating-point rounding: every `double` is an exact real. The floating factor `1.0 * num / den` is taken to be exact, so `SiUnits.PoundInNewtons` and the other numeric facts hold for reals, not for IEEE doubles.
- `intmax_t` overflow: ratio numerators and denominators and integral values are unbounded. Overflow in `std::ratio` arithmetic is a compile error in C++, and overflow in an integral value is undefined behaviour.
- The C++ type machinery: a value type is only integral or floating. `std::common_type` is the two-valued `Numerics.Common`; `float`, `long double`, `bool`, `char` and the width of each integer type are not distinguished.
- `RuntimeRatio` (`units.h:36-41`) is declared but used nowhere in `units.h`, `units_17.h` or `si_units.h`, so nothing in it is modelled.
- The `UnitOffset` conversion operator of `units_17.h:183-187` is declared as `operator T()` but converts into `To`, which cannot be deduced there, so the operator can never be used. Only the `units.h` operator is modelled (`Units.ConvertOffset`).
- `SiUnits.GetConversionFactor` models the evident intent of `getConversionFactor` (si_units.h:99): a `const_cast` to the class type `const MultiUnit<…>`, which is neither a pointer nor a reference, is not a conversion `const_cast` may perform, so the function as written does not compile for any well-formed pair (see "## Findings"). Constness of the result is not modelled.
- Concurrency: unsynchronised writes to a `RuntimeUnit`'s static members are not modelled. `RuntimeUnits.RuntimeRatios.SetRatio`, `AssignNum` and `AssignDen` are single sequential updates.
- `RuntimeUnits.RuntimeRatios.SetRatio`: an explicit specialisation that follows a use of the statics is ill-formed with no diagnostic required. The model does not track uses, so it accepts such a specialisation; it also treats the specialisation as an update at a point in the program, where C++ gives it static initialisation.
- `Units.ConvertOffset`, `Operators.Plus`, `Operators.Minus`, `RuntimeUnits.RuntimeRatios.FromUnit`, `RuntimeUnits.RuntimeRatios.ToUnit`: these model the evident intent, a conversion of the operand into the target unit. As written, each brace-initialises a unit from an object of another unit class, which is ambiguous (see "## Findings"); the `AsWritten` members model that.
- `Operators.AlignRight`, `Operators.PlusAmount`, `Operators.MinusAmount`, `Operators.PlusSameUnit`, `Operators.MinusSelf`: stated about the intended `Operators.Plus` and `Operators.Minus`. As written they hold only where the right operand is already of the result's `SpecifiedUnit` class (`Operators.PlusAsWritten`).
- `RuntimeUnits.ThroughUnit`: stated about the intended conversions. As written the round trip compiles only through `Unit<Type>` (`RuntimeUnits.ThroughUnitAsWritten`).
- `SiUnits.FahrenheitToKelvin`: the Kelvin half states the intended conversion. As written, `Fahrenheit` converts only to `Rankine` (`SiUnits.OffsetConversionsAsWritten`).
- `SiUnits.MeterPlusFoot`: states the intended sum. As written the sum is ambiguous (`SiUnits.MeterPlusFootAsWritten`).
- `Units.BraceInit`: the ambiguity is taken from the overload rules, not from a compiler; which class an object has is a parameter, because a descriptor does not record it.
- `RuntimeUnits.RuntimeRatios.FromUnit`, `RuntimeUnits.RuntimeRatios.ToUnit`: only the default `double` value type of `RuntimeUnit` is modelled.
- `RuntimeUnits.RuntimeRatios.ToBase`, `RuntimeUnits.RuntimeRatios.FromBase`: a zero `den` or `num` set through `UNIT_SET_RATIO` makes the C++ divide by zero. The model requires the divisor to be non-zero instead of modelling the infinity or undefined behaviour.
- A `RuntimeUnit` as a factor of `MultiUnit`, `UnitRatio` or `UnitInverse`: its ratio is not a constant expression, so such a type cannot be formed. Only its own constructor and conversion operator are modelled.
- `Numerics.Div`, `Operators.DivideByScalar`, `Operators.Over`, `Operators.ScalarOver`: a zero divisor value is excluded by a precondition. It is undefined behaviour for integers and an infinity or NaN for doubles, neither of which has an exact value.
- `Operators.Over`, `Operators.ScalarOver`: the relation between the result's amount and the operands' is stated in `Operators.OverAmount` and `Operators.ScalarOverAmount`, and only for a floating result. A truncated integer quotient keeps no exact amount relation.
- `Units.ConvertPreserves`: a floating value converted into an integral unit is truncated, so its amount is not preserved. That path is characterised by `Units.Convert`'s `WholeScale` clause instead.
- `UnitOffset` converts only outward. It is not a unit (it has no `base_type` or `ratio`), so nothing converts into it, and the model has no round trip for it.
- `RecursiveRatioMultiply` with an empty pack is the 1/1 ratio (`Units.RatioProduct` of the empty sequence). `MultiUnit<>` is still rejected (`EmptyPack`), because `std::common_type_t` of an empty pack has no type.
- Named catalogue units without an individual lemma, such as farad, tesla, henry, lux, gray, mph and PSI: `SiUnits.Describe` defines them all, and `SiUnits.ProductDescribed`, `SiUnits.ScaledDescribed` and `SiUnits.InverseDescribed` give their descriptors from their factors. Not every one has its concrete dimension and scale proved.

## Findings

| source | as written | input that shows it | evidently intended | confidence | as-written member | corrected member |
|---|---|---|---|---|---|---|
| si_units.h:97-100 | `getConversionFactor` returns `const_cast<const MultiUnit<T1, Per<T2>>>(MultiUnit<T1, Per<T2>>{factor})`; `const_cast` accepts only pointer, reference and pointer-to-member target types, so each instantiation is ill-formed | `getConversionFactor<Foot, Meter>(0.3048)` (`SiUnits.ConversionFactorCastRejected`) | return the `MultiUnit<T1, Per<T2>>{factor}` value, dimensionless with scale T1/T2 | high, from the language rules for `const_cast`; not executed | SiUnits.GetConversionFactorAsWritten | SiUnits.GetConversionFactor |
| units.h:201-207 | `+` returns `ret_type{t1.value + ret_type{t2}.value}`, and `ret_type{t2}` brace-initialises a `SpecifiedUnit` from a T2 object: the move constructor (through T2's `operator ret_type()`) and the inherited `explicit AbstractUnit(Numeric)` (through `operator Numeric()`) use different conversion functions, so neither is better | `Meter{5} + Foot{5}`, and `Meter{5} + Meter{5}` (`SiUnits.MeterPlusFootAsWritten`) | convert t2 into `ret_type` and add (`Units.Convert`) | plausible, from the overload rules for list-initialisation and for ranking user-defined conversions; not executed | Operators.PlusAsWritten | Operators.Plus |
| units.h:209-215 | `-` uses the same `ret_type{t2}` | `Meter{5} - Foot{5}` (`SiUnits.MeterPlusFootAsWritten`) | convert t2 into `ret_type` and subtract | plausible, same rules; not executed | Operators.MinusAsWritten | Operators.Minus |
| units.h:159-164 | `UnitOffset::operator To` returns `To{T{value + offset}}`, a brace-initialisation of `To` from a T object | `Fahrenheit{32}` to `Kelvin` (`SiUnits.OffsetConversionsAsWritten`) | convert the shifted T value into `To` | plausible, same rules; not executed | Units.ConvertOffsetAsWritten | Units.ConvertOffset |
| units.h:125-127 | `RuntimeUnit(T other)` brace-initialises `Unit<Type>` from `other` | a `RuntimeUnit<LENGTH, 0>` constructed from a `Foot` (`RuntimeUnits.RuntimeRatios.FromUnitAsWritten`) | convert `other` into `Unit<Type>` | plausible, same rules; not executed | RuntimeUnits.RuntimeRatios.FromUnitAsWritten | RuntimeUnits.RuntimeRatios.FromUnit |
| units.h:129-133 | `RuntimeUnit::operator T()` returns `T{Unit<Type>{…}}`, a brace-initialisation of T from a `Unit<Type>` object | a `RuntimeUnit<LENGTH, 0>` to `Foot` (`RuntimeUnits.ThroughUnitAsWritten`) | convert the base amount into T | plausible, same rules; not executed | RuntimeUnits.RuntimeRatios.ToUnitAsWritten | RuntimeUnits.RuntimeRatios.ToUnit |
