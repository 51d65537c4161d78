/** si_units.h: a catalogue of unit types, every one an alias built from the templates of
    units.h. An alias is written here as a UnitExpr, the template expression it stands for,
    and Describe instantiates it: the descriptor the compiler would compute, or the reason
    the instantiation is ill-formed. */
module SiUnits {
  import opened Wrappers
  import opened Ratios
  import opened Numerics
  import opened Units
  import opened Operators

  /** A unit type written with the templates of units.h. */
  datatype UnitExpr =
    | UnitOf(base: BaseType, kind: NumKind)                   // Unit<Type, Numeric>
    | Scaled(of: UnitExpr, scale: Fraction)                   // UnitRatio<T, std::ratio<N, D>>
    | Product(factors: seq<UnitExpr>)                         // MultiUnit<Ts...>
    | Inverse(of: UnitExpr)                                   // UnitInverse<T>
    | Specified(dim: Fraction, ratio: Fraction, kind: NumKind) // SpecifiedUnit<B, R, Numeric>

  /** The descriptor of an instantiated unit type, or why it is ill-formed (the first
      ill-formed argument of a MultiUnit decides). */
  function Describe(e: UnitExpr): (r: Result<Descriptor>)
    decreases e
  {
    match e
    case UnitOf(b, k) => Ok(BaseUnit(b, k))
    case Scaled(t, f) =>
      (match (Describe(t), Make(f.num, f.den))
       case (Err(err), _) => Err(err)
       case (Ok(d), None) => Err(ZeroDenominator)
       case (Ok(d), Some(s)) => Ok(UnitRatio(d, s)))
    case Product(fs) =>
      var rs := seq(|fs|, i requires 0 <= i < |fs| => Describe(fs[i]));
      (match FirstError(rs)
       case Some(err) => Err(err)
       case None => MultiUnit(seq(|rs|, i requires 0 <= i < |rs| => rs[i].value)))
    case Inverse(t) =>
      (match Describe(t)
       case Err(err) => Err(err)
       case Ok(d) => UnitInverse(d))
    case Specified(d, s, k) => SpecifiedUnit(d, s, k)
  }

  /** The error of the first failed instantiation in a list, if any. */
  function FirstError(rs: seq<Result<Descriptor>>): (r: Option<Error>)
    ensures r.None? <==> forall i :: 0 <= i < |rs| ==> rs[i].Ok?
    ensures r.Some? ==> exists i :: 0 <= i < |rs| && rs[i] == Err(r.value)
  {
    if rs == [] then None
    else if rs[0].Err? then Some(rs[0].error)
    else
      var r := FirstError(rs[1..]);
      assert forall i :: 1 <= i < |rs| ==> rs[i] == rs[1..][i - 1];
      r
  }

  // ---------------------------------------------------------------------------
  // Instantiating the templates

  /** A MultiUnit of well-formed factors is the MultiUnit of their descriptors.
      Stated as a lemma so that proofs that hide Describe can still take this one step. */
  lemma ProductDescribed(fs: seq<UnitExpr>, ds: seq<Descriptor>)
    requires |fs| == |ds| && forall i :: 0 <= i < |fs| ==> Describe(fs[i]) == Ok(ds[i])
    ensures Describe(Product(fs)) == MultiUnit(ds)
  {
    var rs := seq(|fs|, i requires 0 <= i < |fs| => Describe(fs[i]));
    assert FirstError(rs).None?;
    assert seq(|rs|, i requires 0 <= i < |rs| => rs[i].value) == ds;
  }

  /** UnitRatio<T, std::ratio<N, D>> with D != 0 scales T by the reduced N/D.
      Stated as a lemma so that proofs that hide Describe can still take this one step. */
  lemma ScaledDescribed(t: UnitExpr, d: Descriptor, f: Fraction)
    requires Describe(t) == Ok(d) && f.den != 0
    ensures Describe(Scaled(t, f)) == Ok(UnitRatio(d, Reduce(f.num, f.den)))
  {
  }

  /** UnitInverse<T> of a well-formed T is the inverse of T's descriptor.
      Stated as a lemma so that proofs that hide Describe can still take this one step. */
  lemma InverseDescribed(t: UnitExpr, d: Descriptor)
    requires Describe(t) == Ok(d)
    ensures Describe(Inverse(t)) == UnitInverse(d)
  {
  }

  // ---------------------------------------------------------------------------
  // The catalogue: base units

  const Kilogram := UnitOf(Mass, Floating)
  const Meter := UnitOf(Length, Floating)
  const Second := UnitOf(Time, Floating)
  const Kelvin := UnitOf(Temperature, Floating)
  const Ampere := UnitOf(Current, Floating)
  const Candela := UnitOf(LuminousIntensity, Floating)

  // Standard SI units
  const Hertz := Inverse(Second)
  const Newton := Product([Kilogram, Meter, Hertz, Hertz])
  const Pascal := Product([Kilogram, Inverse(Meter), Hertz, Hertz])
  const Joule := Product([Newton, Meter])
  const Watt := Product([Joule, Hertz])
  const Coulomb := Product([Second, Ampere])
  const Volt := Product([Watt, Inverse(Ampere)])
  const Farad := Product([Coulomb, Inverse(Volt)])
  const Ohm := Product([Volt, Inverse(Ampere)])
  const Siemens := Inverse(Ohm)
  const Weber := Product([Volt, Second])
  const Tesla := Product([Weber, Inverse(Meter), Inverse(Meter)])
  const Henry := Product([Weber, Inverse(Ampere)])
  const Lux := Product([Candela, Inverse(Meter), Inverse(Meter)])
  const Becquerel := Hertz
  const Gray := Product([Joule, Inverse(Kilogram)])
  const Sievert := Gray

  // "Nonstandard" SI units
  const Minute := Scaled(Second, Fraction(60, 1))
  const Hour := Scaled(Minute, Fraction(60, 1))
  const Day := Scaled(Hour, Fraction(24, 1))
  const AstronomicalUnit := Scaled(Meter, Fraction(149597870700, 1))
  const Hectare := Scaled(Product([Meter, Meter]), Fraction(10000, 1))
  const Liter := Scaled(Product([Meter, Meter, Meter]), Fraction(1, 1000))
  const Litre := Liter
  const Tonne := Scaled(Kilogram, Fraction(1000, 1))
  const MetricTon := Tonne

  // FPS units in terms of SI units
  const Foot := Scaled(Meter, Fraction(3048, 10000))
  const Yard := Scaled(Foot, Fraction(3, 1))
  const Mile := Scaled(Foot, Fraction(5280, 1))
  const Inch := Scaled(Foot, Fraction(1, 12))
  const Slug := Scaled(Kilogram, Fraction(145939, 10000))
  const Pound := Product([Slug, Foot, Hertz, Hertz])
  const Kip := Kilo(Pound)
  const FootPound := Product([Foot, Pound])
  const PSI := Product([Pound, Inverse(Inch), Inverse(Inch)])

  // Other units
  const Gram := Milli(Kilogram)
  const Atmosphere := Scaled(Pascal, Fraction(101325, 1))
  const Torr := Scaled(Atmosphere, Fraction(1, 760))
  const MmHg := Torr
  const Mps := Product([Meter, Hertz])
  const Mph := Product([Mile, Inverse(Hour)])
  const Rankine := Scaled(Kelvin, Fraction(10, 18))

  /** UnitOffset<T, std::ratio<N, D>> (Numeric double): not itself a unit type. */
  datatype OffsetExpr = OffsetExpr(of: UnitExpr, offset: Fraction)

  /** The instantiated UnitOffset, or why it is ill-formed. */
  function DescribeOffset(e: OffsetExpr): (r: Result<OffsetUnit>)
    ensures r.Ok? <==> Describe(e.of).Ok? && e.offset.den != 0
    ensures r.Ok? ==> r.value.base == Describe(e.of).value && r.value.kind == Floating
    ensures r.Ok? ==> Value(r.value.offset) == Value(e.offset)
  {
    var (t, offset) := (e.of, e.offset);
    match (Describe(t), Make(offset.num, offset.den))
    case (Err(err), _) => Err(err)
    case (Ok(d), None) => Err(ZeroDenominator)
    case (Ok(d), Some(o)) =>
      ReduceValue(offset.num, offset.den);
      Ok(OffsetUnit(d, o, Floating))
  }

  const Celsius := OffsetExpr(Kelvin, Fraction(27315, 100))
  const Fahrenheit := OffsetExpr(Rankine, Fraction(45967, 100))

  // Helpful templates
  function Square(t: UnitExpr): UnitExpr { Product([t, t]) }
  function Cubic(t: UnitExpr): UnitExpr { Product([t, t, t]) }
  function Quartic(t: UnitExpr): UnitExpr { Product([t, t, t, t]) }
  function Per(t: UnitExpr): UnitExpr { Inverse(t) }
  function Milli(t: UnitExpr): UnitExpr { Scaled(t, Fraction(1, 1000)) }
  function Centi(t: UnitExpr): UnitExpr { Scaled(t, Fraction(1, 100)) }
  function Deci(t: UnitExpr): UnitExpr { Scaled(t, Fraction(1, 10)) }
  function Deca(t: UnitExpr): UnitExpr { Scaled(t, Fraction(10, 1)) }
  function Hecto(t: UnitExpr): UnitExpr { Scaled(t, Fraction(100, 1)) }
  function Kilo(t: UnitExpr): UnitExpr { Scaled(t, Fraction(1000, 1)) }
  function Mega(t: UnitExpr): UnitExpr { Scaled(t, Fraction(1000000, 1)) }
  function Giga(t: UnitExpr): UnitExpr { Scaled(t, Fraction(1000000000, 1)) }
  function Tera(t: UnitExpr): UnitExpr { Scaled(t, Fraction(1000000000000, 1)) }

  /** getConversionFactor<T1, T2>(factor) as evidently intended: a MultiUnit<T1, Per<T2>>
      holding factor. Its value type is the common type of T1's and T2's, and
      brace-initialising an integral one from a double is a narrowing error. */
  function GetConversionFactor(t1: UnitExpr, t2: UnitExpr, factor: real): (r: Result<Quantity>)
    ensures Describe(Product([t1, Per(t2)])).Err? ==> r == Err(Describe(Product([t1, Per(t2)])).error)
    ensures r.Ok? <==> Describe(Product([t1, Per(t2)])).Ok? &&
                       Describe(Product([t1, Per(t2)])).value.kind == Floating
    ensures r.Ok? ==> r.value == Instance(Describe(Product([t1, Per(t2)])).value, Real(factor))
  {
    match Describe(Product([t1, Per(t2)]))
    case Err(e) => Err(e)
    case Ok(d) =>
      if d.kind == Integral then Err(Narrowing)
      else
        var q: Quantity := Instance(d, Real(factor));
        Ok(q)
  }

  /** getConversionFactor<T1, T2>(factor) as written: the MultiUnit<T1, Per<T2>> value is
      passed through const_cast to a const class type. A const_cast may only name a pointer,
      a reference or a pointer to member, so every instantiation whose MultiUnit is well
      formed is rejected at that cast. */
  function GetConversionFactorAsWritten(t1: UnitExpr, t2: UnitExpr, factor: real): (r: Result<Quantity>)
    ensures r.Err?
    ensures Describe(Product([t1, Per(t2)])).Err? ==> r == Err(Describe(Product([t1, Per(t2)])).error)
    ensures Describe(Product([t1, Per(t2)])).Ok? ==> r == Err(InvalidCast)
  {
    match Describe(Product([t1, Per(t2)]))
    case Err(e) => Err(e)
    case Ok(_) => Err(InvalidCast)
  }

  // ---------------------------------------------------------------------------
  // Arithmetic on concrete ratios

  /** The reduced fractions the catalogue's facts are stated with. */
  lemma Reduced()
    ensures IsReduced(Fraction(1, 5)) && IsReduced(Fraction(1, 25)) && IsReduced(Fraction(3, 25))
    ensures IsReduced(Fraction(6, 25)) && IsReduced(Fraction(5, 9)) && IsReduced(Fraction(5, 1))
    ensures IsReduced(Fraction(60, 1)) && IsReduced(Fraction(3600, 1)) && IsReduced(Fraction(24, 1))
    ensures IsReduced(Fraction(86400, 1)) && IsReduced(Fraction(101325, 1))
    ensures IsReduced(Fraction(1000, 1)) && IsReduced(Fraction(1, 3)) && IsReduced(Fraction(1, 75))
    ensures IsReduced(Fraction(2, 75)) && IsReduced(Fraction(18, 25)) && IsReduced(Fraction(18, 125))
    ensures IsReduced(Fraction(2, 1)) && IsReduced(Fraction(3, 1))
  {
  }

  /** A product of ratios is identified by the number it denotes. */
  lemma MultiplyTo(x: Ratio, y: Ratio, z: Ratio)
    requires Value(x) * Value(y) == Value(z)
    ensures Multiply(x, y) == z
  {
    hide Gcd, Reduce;
    MultiplyValue(x, y);
    EqualIffSameReal(Multiply(x, y), z);
  }

  /** So is an inverse. */
  lemma InvertTo(x: Ratio, y: Ratio)
    requires x.num != 0 && Value(x) * Value(y) == 1.0
    ensures Invert(x) == Some(y)
  {
    hide Gcd, Reduce;
    InvertValue(x);
    InverseUnique(Value(Invert(x).value), Value(y), Value(x));
    EqualIffSameReal(Invert(x).value, y);
  }

  /** So is a quotient. */
  lemma DivideTo(x: Ratio, y: Ratio, z: Ratio)
    requires y.num != 0 && Value(z) * Value(y) == Value(x)
    ensures Divide(x, y) == Some(z)
  {
    hide Gcd, Reduce;
    DivideValue(x, y);
    var q := Divide(x, y).value;
    assert Value(y) != 0.0;
    assert (Value(q) - Value(z)) * Value(y) == 0.0;
    EqualIffSameReal(q, z);
  }

  /** A reduced std::ratio argument is taken as it is. */
  lemma MakeReduced(r: Ratio)
    ensures Make(r.num, r.den) == Some(r)
  {
    ReduceReduced(r);
  }

  /** MultiUnit<A, B, C> and MultiUnit<A, B, C, D> as nested products. */
  lemma MultiUnit3(a: Descriptor, b: Descriptor, c: Descriptor)
    ensures MultiUnit([a, b, c]) ==
            Ok(Descriptor(Multiply(a.dim, Multiply(b.dim, c.dim)), Multiply(a.ratio, Multiply(b.ratio, c.ratio)),
                          Common(a.kind, Common(b.kind, c.kind))))
  {
    hide Gcd, Reduce;
    assert [a, b, c] == [a] + [b, c];
    MultiUnitCons(a, [b, c]);
    MultiUnitPair(b, c);
    MultiUnitPair(a, MultiUnit([b, c]).value);
  }

  lemma MultiUnit4(a: Descriptor, b: Descriptor, c: Descriptor, d: Descriptor)
    ensures MultiUnit([a, b, c, d]) ==
            Ok(Descriptor(Multiply(a.dim, Multiply(b.dim, Multiply(c.dim, d.dim))),
                          Multiply(a.ratio, Multiply(b.ratio, Multiply(c.ratio, d.ratio))),
                          Common(a.kind, Common(b.kind, Common(c.kind, d.kind)))))
  {
    hide Gcd, Reduce;
    assert [a, b, c, d] == [a] + [b, c, d];
    MultiUnitCons(a, [b, c, d]);
    MultiUnit3(b, c, d);
    MultiUnitPair(a, MultiUnit([b, c, d]).value);
  }

  // ---------------------------------------------------------------------------
  // Facts about the catalogue

  /** Unit<Type>: dimension the prime of Type, ratio 1/1; six pairwise different
      dimensions. */
  lemma BaseUnitsCatalogue()
    ensures Describe(Kilogram) == Ok(Descriptor(Fraction(2, 1), One, Floating))
    ensures Describe(Meter) == Ok(Descriptor(Fraction(3, 1), One, Floating))
    ensures Describe(Second) == Ok(Descriptor(Fraction(5, 1), One, Floating))
    ensures Describe(Kelvin) == Ok(Descriptor(Fraction(7, 1), One, Floating))
    ensures Describe(Ampere) == Ok(Descriptor(Fraction(11, 1), One, Floating))
    ensures Describe(Candela) == Ok(Descriptor(Fraction(13, 1), One, Floating))
  {
  }

  /** Hertz = UnitInverse<Second>: dimension 1/5, ratio 1/1. */
  lemma HertzDescriptor()
    ensures Describe(Hertz) == Ok(Descriptor(Fraction(1, 5), One, Floating))
  {
    Reduced();
    hide Gcd, Reduce;
    InvertTo(Fraction(5, 1), Fraction(1, 5));
    DivideSelf(One);
  }

  /** mass * length / time^2, as the fold of MultiUnit computes it. */
  lemma ForceDimension()
    ensures Multiply(Fraction(2, 1), Multiply(Fraction(3, 1), Multiply(Fraction(1, 5), Fraction(1, 5)))) ==
            Fraction(6, 25)
  {
    Reduced();
    hide Gcd, Reduce;
    MultiplyTo(Fraction(1, 5), Fraction(1, 5), Fraction(1, 25));
    MultiplyTo(Fraction(3, 1), Fraction(1, 25), Fraction(3, 25));
    MultiplyTo(Fraction(2, 1), Fraction(3, 25), Fraction(6, 25));
  }

  /** Newton = MultiUnit<Kilogram, Meter, Hertz, Hertz>: dimension (2 * 3) / 5^2, ratio 1/1. */
  lemma NewtonDescriptor()
    ensures Describe(Newton) == Ok(Descriptor(Fraction(6, 25), One, Floating))
  {
    Reduced();
    HertzDescriptor();
    BaseUnitsCatalogue();
    hide Gcd, Reduce, Describe;
    var h := Descriptor(Fraction(1, 5), One, Floating);
    var kg, m := BaseUnit(Mass, Floating), BaseUnit(Length, Floating);
    ProductDescribed([Kilogram, Meter, Hertz, Hertz], [kg, m, h, h]);
    MultiUnit4(kg, m, h, h);
    ForceDimension();
    MultiplyOne(One);
  }

  /** UnitRatio<T, std::ratio<N, D>> denotes N/D times T. */
  lemma ScaledValue(t: UnitExpr, d: Descriptor, f: Fraction)
    requires Describe(t) == Ok(d) && f.den != 0
    ensures Describe(Scaled(t, f)).Ok?
    ensures Describe(Scaled(t, f)).value.dim == d.dim && Describe(Scaled(t, f)).value.kind == d.kind
    ensures Value(Describe(Scaled(t, f)).value.ratio) == (f.num as real / f.den as real) * Value(d.ratio)
  {
    hide Gcd, Reduce;
    ScaledDescribed(t, d, f);
    UnitRatioValue(d, Reduce(f.num, f.den));
    ReduceValue(f.num, f.den);
  }

  /** Pound = MultiUnit<Slug, Foot, Hertz, Hertz> has Newton's dimension and is
      (145939/10000) * (3048/10000) newtons. */
  lemma PoundDescriptor()
    ensures Describe(Pound).Ok?
    ensures Describe(Pound).value.dim == Fraction(6, 25) && Describe(Pound).value.kind == Floating
    ensures Value(Describe(Pound).value.ratio) == (145939.0 / 10000.0) * (3048.0 / 10000.0)
  {
    Reduced();
    HertzDescriptor();
    BaseUnitsCatalogue();
    hide Gcd, Reduce, Describe;
    var h := Descriptor(Fraction(1, 5), One, Floating);
    ScaledValue(Kilogram, BaseUnit(Mass, Floating), Fraction(145939, 10000));
    ScaledValue(Meter, BaseUnit(Length, Floating), Fraction(3048, 10000));
    var slug, foot := Describe(Slug).value, Describe(Foot).value;
    ProductDescribed([Slug, Foot, Hertz, Hertz], [slug, foot, h, h]);
    MultiUnit4(slug, foot, h, h);
    ForceDimension();
    TwoScales(slug.ratio, foot.ratio);
  }

  /** The ratio of a four-factor MultiUnit whose last two factors have ratio 1/1. */
  lemma TwoScales(x: Ratio, y: Ratio)
    ensures Value(Multiply(x, Multiply(y, Multiply(One, One)))) == Value(x) * Value(y)
  {
    hide Gcd, Reduce;
    MultiplyOne(One);
    MultiplyOne(y);
    MultiplyValue(x, y);
  }

  /** Newton and Pound share a dimension, so a pound-force converts into newtons: x lbf is
      x * 4.44822072 N. */
  lemma PoundInNewtons(pound: Descriptor, newton: Descriptor, x: real)
    requires Describe(Pound) == Ok(pound) && Describe(Newton) == Ok(newton)
    ensures Equivalent(pound, newton) && pound.kind == Floating
    ensures Convert(Instance(pound, Real(x)), newton) == Ok(Instance(newton, Real(x * 4.44822072)))
  {
    NewtonDescriptor();
    PoundDescriptor();
    hide Gcd, Reduce, Describe;
    var q: Quantity := Instance(pound, Real(x));
    assert Convert(q, newton).Ok?;
    ConvertPreserves(q, newton);
    var c := Convert(q, newton).value;
    assert Value(pound.ratio) == 4.44822072;
    assert BaseValue(q) == x * 4.44822072;
    InUnitRatio(c);
  }

  /** In a unit of ratio 1/1 a floating value is its amount. */
  lemma InUnitRatio(q: Quantity)
    requires q.unit.ratio == One && q.unit.kind == Floating
    ensures q.value == Real(BaseValue(q))
  {
  }

  /** Pascal = MultiUnit<Kilogram, UnitInverse<Meter>, Hertz, Hertz>: dimension
      2 / (3 * 5^2), ratio 1/1. */
  lemma PascalDescriptor()
    ensures Describe(Pascal) == Ok(Descriptor(Fraction(2, 75), One, Floating))
  {
    Reduced();
    HertzDescriptor();
    BaseUnitsCatalogue();
    hide Gcd, Reduce, Describe;
    var h := Descriptor(Fraction(1, 5), One, Floating);
    var kg, m := BaseUnit(Mass, Floating), BaseUnit(Length, Floating);
    var perMeter := Descriptor(Fraction(1, 3), One, Floating);
    InverseDescribed(Meter, m);
    InvertTo(Fraction(3, 1), Fraction(1, 3));
    DivideSelf(One);
    ProductDescribed([Kilogram, Inverse(Meter), Hertz, Hertz], [kg, perMeter, h, h]);
    MultiUnit4(kg, perMeter, h, h);
    MultiplyTo(Fraction(1, 5), Fraction(1, 5), Fraction(1, 25));
    MultiplyTo(Fraction(1, 3), Fraction(1, 25), Fraction(1, 75));
    MultiplyTo(Fraction(2, 1), Fraction(1, 75), Fraction(2, 75));
    MultiplyOne(One);
  }

  /** Atmosphere = UnitRatio<Pascal, std::ratio<101325, 1>>: the conversion factor into
      Pascal is the whole 101325/1, so a double atmosphere value is multiplied by 101325,
      and a Pascal unit with an integral value type takes the exact integer path. */
  lemma AtmosphereInPascals(atm: Descriptor, pascal: Descriptor, x: real)
    requires Describe(Atmosphere) == Ok(atm) && Describe(Pascal) == Ok(pascal)
    ensures Equivalent(atm, pascal) && atm.kind == Floating
    ensures Divide(atm.ratio, pascal.ratio) == Some(Fraction(101325, 1))
    ensures Convert(Instance(atm, Real(x)), pascal) == Ok(Instance(pascal, Real(x * 101325.0)))
    ensures Convert(Instance(atm, Real(x)), Descriptor(pascal.dim, pascal.ratio, Integral)) ==
            Ok(Instance(Descriptor(pascal.dim, pascal.ratio, Integral), Int(Trunc(x * 101325.0))))
  {
    Reduced();
    PascalDescriptor();
    hide Gcd, Reduce, Describe;
    ScaledValue(Pascal, pascal, Fraction(101325, 1));
    assert Value(atm.ratio) == 101325.0;
    DivideTo(atm.ratio, One, Fraction(101325, 1));
    var q: Quantity := Instance(atm, Real(x));
    assert Convert(q, pascal).Ok?;
    ConvertPreserves(q, pascal);
    InUnitRatio(Convert(q, pascal).value);
  }

  /** Minute, Hour and Day: 60, 60 * 60 and 24 * 60 * 60 seconds. */
  lemma MinuteHourDay()
    ensures Describe(Minute) == Ok(Descriptor(Fraction(5, 1), Fraction(60, 1), Floating))
    ensures Describe(Hour) == Ok(Descriptor(Fraction(5, 1), Fraction(3600, 1), Floating))
    ensures Describe(Day) == Ok(Descriptor(Fraction(5, 1), Fraction(86400, 1), Floating))
  {
    Reduced();
    BaseUnitsCatalogue();
    hide Gcd, Reduce;
    var s := BaseUnit(Time, Floating);
    ScaledDescribed(Second, s, Fraction(60, 1));
    ReduceReduced(Fraction(60, 1));
    MultiplyOne(Fraction(60, 1));
    var minute := Descriptor(Fraction(5, 1), Fraction(60, 1), Floating);
    ScaledDescribed(Minute, minute, Fraction(60, 1));
    MultiplyTo(Fraction(60, 1), Fraction(60, 1), Fraction(3600, 1));
    var hour := Descriptor(Fraction(5, 1), Fraction(3600, 1), Floating);
    ScaledDescribed(Hour, hour, Fraction(24, 1));
    ReduceReduced(Fraction(24, 1));
    MultiplyTo(Fraction(24, 1), Fraction(3600, 1), Fraction(86400, 1));
  }

  /** Joule = MultiUnit<Newton, Meter> and Watt = MultiUnit<Joule, Hertz>: their dimensions
      are the products of their factors' dimensions. */
  lemma JouleWatt(newton: Descriptor, joule: Descriptor, watt: Descriptor, hertz: Descriptor)
    requires Describe(Newton) == Ok(newton) && Describe(Joule) == Ok(joule)
    requires Describe(Watt) == Ok(watt) && Describe(Hertz) == Ok(hertz)
    ensures joule.dim == Multiply(newton.dim, BaseUnit(Length, Floating).dim)
    ensures watt.dim == Multiply(joule.dim, hertz.dim)
    ensures joule.dim == Fraction(18, 25) && watt.dim == Fraction(18, 125)
  {
    Reduced();
    NewtonDescriptor();
    HertzDescriptor();
    BaseUnitsCatalogue();
    hide Gcd, Reduce, Describe;
    var m := BaseUnit(Length, Floating);
    ProductDescribed([Newton, Meter], [newton, m]);
    MultiUnitPair(newton, m);
    ProductDescribed([Joule, Hertz], [joule, hertz]);
    MultiUnitPair(joule, hertz);
    MultiplyTo(Fraction(6, 25), Fraction(3, 1), Fraction(18, 25));
    MultiplyTo(Fraction(18, 25), Fraction(1, 5), Fraction(18, 125));
  }

  /** Rankine = UnitRatio<Kelvin, std::ratio<10, 18>>: 5/9 of a kelvin. */
  lemma RankineDescriptor()
    ensures Describe(Rankine) == Ok(Descriptor(Fraction(7, 1), Fraction(5, 9), Floating))
  {
    Reduced();
    BaseUnitsCatalogue();
    hide Gcd, Reduce;
    ScaledDescribed(Kelvin, BaseUnit(Temperature, Floating), Fraction(10, 18));
    assert 10 * 9 == 5 * 18;
    ReduceCanonical(10, 18, 5, 9);
    ReduceReduced(Fraction(5, 9));
    MultiplyOne(Fraction(5, 9));
  }

  /** Celsius = UnitOffset<Kelvin, std::ratio<27315, 100>>: Celsius{0} is 273.15 K, and
      Celsius{x} is x + 273.15 K. */
  lemma CelsiusToKelvin(celsius: OffsetUnit, kelvin: Descriptor, x: real)
    requires DescribeOffset(Celsius) == Ok(celsius) && Describe(Kelvin) == Ok(kelvin)
    ensures ConvertOffset(celsius, Real(x), kelvin) == Ok(Instance(kelvin, Real(x + 273.15)))
    ensures ConvertOffset(celsius, Real(0.0), kelvin) == Ok(Instance(kelvin, Real(273.15)))
  {
    BaseUnitsCatalogue();
    hide Gcd, Reduce, Describe;
    assert Value(celsius.offset) == 273.15;
    var r := ConvertOffset(celsius, Real(x), kelvin);
    assert r.Ok?;
    InUnitRatio(r.value);
  }

  /** Fahrenheit = UnitOffset<Rankine, std::ratio<45967, 100>>: Fahrenheit{x} is
      x + 459.67 degrees Rankine, and Fahrenheit{32} is 273.15 K. */
  lemma FahrenheitToKelvin(fahrenheit: OffsetUnit, rankine: Descriptor, kelvin: Descriptor, x: real)
    requires DescribeOffset(Fahrenheit) == Ok(fahrenheit)
    requires Describe(Rankine) == Ok(rankine) && Describe(Kelvin) == Ok(kelvin)
    ensures ConvertOffset(fahrenheit, Real(x), rankine).Ok?
    ensures BaseValue(ConvertOffset(fahrenheit, Real(x), rankine).value) ==
            BaseValue(Instance(rankine, Real(x + 459.67)))
    ensures ConvertOffset(fahrenheit, Real(32.0), kelvin) == Ok(Instance(kelvin, Real(273.15)))
  {
    BaseUnitsCatalogue();
    RankineDescriptor();
    hide Gcd, Reduce, Describe;
    assert Value(fahrenheit.offset) == 459.67;
    assert Value(rankine.ratio) == 5.0 / 9.0;
    var r := ConvertOffset(fahrenheit, Real(32.0), kelvin);
    assert r.Ok?;
    assert BaseValue(r.value) == (32.0 + 459.67) * (5.0 / 9.0);
    InUnitRatio(r.value);
  }

  /** Meter{5} + Foot{5}: the foot operand is converted into meters, and the sum is
      5 + 5 * 0.3048 meters. */
  lemma MeterPlusFoot(meter: Descriptor, foot: Descriptor)
    requires Describe(Meter) == Ok(meter) && Describe(Foot) == Ok(foot)
    ensures Plus(Instance(meter, Real(5.0)), Instance(foot, Real(5.0))) ==
            Ok(Instance(meter, Real(5.0 + 5.0 * 0.3048)))
  {
    BaseUnitsCatalogue();
    hide Gcd, Reduce, Describe;
    ScaledValue(Meter, meter, Fraction(3048, 10000));
    var a: Quantity := Instance(meter, Real(5.0));
    var b: Quantity := Instance(foot, Real(5.0));
    ReduceReduced(One);
    assert Divide(foot.ratio, meter.ratio).Some?;
    assert SumUnit(meter, foot) == Ok(meter);
    PlusAmount(a, b);
    InUnitRatio(Plus(a, b).value);
  }

  /** Meter{5} + Foot{5} as written: ret_type is SpecifiedUnit<std::ratio<3, 1>>, and
      brace-initialising it from a Foot, a UnitRatio, is ambiguous. So are Meter{5} - Foot{5}
      and Meter{5} + Meter{5}: a Meter is a Unit, not that SpecifiedUnit. The intended
      results all exist. */
  lemma MeterPlusFootAsWritten(meter: Descriptor, foot: Descriptor)
    requires Describe(Meter) == Ok(meter) && Describe(Foot) == Ok(foot)
    ensures Plus(Instance(meter, Real(5.0)), Instance(foot, Real(5.0))).Ok?
    ensures PlusAsWritten(Instance(meter, Real(5.0)), Instance(foot, Real(5.0)), false) == Err(AmbiguousInit)
    ensures Plus(Instance(meter, Real(5.0)), Instance(meter, Real(5.0))).Ok?
    ensures PlusAsWritten(Instance(meter, Real(5.0)), Instance(meter, Real(5.0)), false) == Err(AmbiguousInit)
    ensures Minus(Instance(meter, Real(5.0)), Instance(foot, Real(5.0))).Ok?
    ensures MinusAsWritten(Instance(meter, Real(5.0)), Instance(foot, Real(5.0)), false) == Err(AmbiguousInit)
  {
    MeterPlusFoot(meter, foot);
    BaseUnitsCatalogue();
    hide Gcd, Reduce, Describe;
    assert meter.ratio.num != 0;
    PlusSameUnit(Instance(meter, Real(5.0)), Instance(meter, Real(5.0)));
  }

  /** The temperature conversions as written: To{T{value + offset}} compiles when To is T,
      so Celsius to Kelvin and Fahrenheit to Rankine go through, but Fahrenheit{32} to
      Kelvin initialises a Kelvin from a Rankine object and is ambiguous. */
  lemma OffsetConversionsAsWritten(celsius: OffsetUnit, fahrenheit: OffsetUnit, rankine: Descriptor,
                                   kelvin: Descriptor, x: real)
    requires DescribeOffset(Celsius) == Ok(celsius) && DescribeOffset(Fahrenheit) == Ok(fahrenheit)
    requires Describe(Rankine) == Ok(rankine) && Describe(Kelvin) == Ok(kelvin)
    ensures ConvertOffsetAsWritten(celsius, Real(x), kelvin, true) == Ok(Instance(kelvin, Real(x + 273.15)))
    ensures ConvertOffsetAsWritten(fahrenheit, Real(x), rankine, true) == ConvertOffset(fahrenheit, Real(x), rankine)
    ensures ConvertOffsetAsWritten(fahrenheit, Real(x), rankine, true).Ok?
    ensures ConvertOffset(fahrenheit, Real(32.0), kelvin).Ok?
    ensures ConvertOffsetAsWritten(fahrenheit, Real(32.0), kelvin, false) == Err(AmbiguousInit)
  {
    CelsiusToKelvin(celsius, kelvin, x);
    FahrenheitToKelvin(fahrenheit, rankine, kelvin, x);
    BaseUnitsCatalogue();
    RankineDescriptor();
    hide Gcd, Reduce, Describe;
    assert celsius.base == kelvin && fahrenheit.base == rankine;
    assert kelvin.ratio.num != 0 && rankine.ratio.num != 0;
  }

  // ---------------------------------------------------------------------------
  // The helpful templates

  /** Square<T>: dimension and ratio squared, T's value type. */
  lemma SquareDescribed(t: UnitExpr, d: Descriptor)
    requires Describe(t) == Ok(d)
    ensures Describe(Square(t)) == Ok(Descriptor(Multiply(d.dim, d.dim), Multiply(d.ratio, d.ratio), d.kind))
  {
    hide Gcd, Reduce;
    ProductDescribed([t, t], [d, d]);
    MultiUnitPair(d, d);
  }

  /** Per<T> is UnitInverse<T>: multiplied with T it leaves dimension and ratio 1/1. */
  lemma PerDescribed(t: UnitExpr, d: Descriptor)
    requires Describe(t) == Ok(d) && d.dim.num != 0 && d.ratio.num != 0
    ensures Describe(Per(t)) == UnitInverse(d) && Describe(Per(t)).Ok?
    ensures Multiply(d.dim, Describe(Per(t)).value.dim) == One
    ensures Multiply(d.ratio, Describe(Per(t)).value.ratio) == One
  {
    InverseDescribed(t, d);
  }

  /** Kilo<T>: T's dimension and value type, 1000 times T's ratio. */
  lemma KiloDescribed(t: UnitExpr, d: Descriptor)
    requires Describe(t) == Ok(d)
    ensures Describe(Kilo(t)) == Ok(UnitRatio(d, Fraction(1000, 1)))
    ensures Value(Describe(Kilo(t)).value.ratio) == 1000.0 * Value(d.ratio)
  {
    Reduced();
    hide Gcd, Reduce;
    ScaledDescribed(t, d, Fraction(1000, 1));
    ReduceReduced(Fraction(1000, 1));
    UnitRatioValue(d, Fraction(1000, 1));
  }

  /** getConversionFactor<T1, T2>(f) between units of one dimension is dimensionless, its
      ratio is T1's divided by T2's, and it holds f when the value type is double. */
  lemma ConversionFactorOf(t1: UnitExpr, t2: UnitExpr, d1: Descriptor, d2: Descriptor, f: real)
    requires Describe(t1) == Ok(d1) && Describe(t2) == Ok(d2)
    requires Equivalent(d1, d2) && d2.dim.num != 0 && d2.ratio.num != 0
    ensures GetConversionFactor(t1, t2, f).Ok? <==> Common(d1.kind, d2.kind) == Floating
    ensures GetConversionFactor(t1, t2, f).Ok? ==>
              GetConversionFactor(t1, t2, f).value.unit.dim == One &&
              Multiply(GetConversionFactor(t1, t2, f).value.unit.ratio, d2.ratio) == d1.ratio &&
              GetConversionFactor(t1, t2, f).value.value == Real(f)
  {
    hide Gcd, Reduce;
    var inv := UnitInverse(d2).value;
    InverseDescribed(t2, d2);
    ProductDescribed([t1, Per(t2)], [d1, inv]);
    MultiUnitPair(d1, inv);
    CancelInverse(d1.ratio, d2.ratio, inv.ratio);
    assert d1.dim == d2.dim;
    MultiplyCommutative(d2.dim, inv.dim);
  }

  /** The call getConversionFactor<Foot, Meter>(0.3048): as written it does not compile,
      while the intended function gives the dimensionless factor of scale Foot/Meter. */
  lemma ConversionFactorCastRejected(foot: Descriptor, meter: Descriptor)
    requires Describe(Foot) == Ok(foot) && Describe(Meter) == Ok(meter)
    ensures GetConversionFactorAsWritten(Foot, Meter, 0.3048) == Err(InvalidCast)
    ensures GetConversionFactor(Foot, Meter, 0.3048).Ok?
    ensures GetConversionFactor(Foot, Meter, 0.3048).value.value == Real(0.3048)
  {
    BaseUnitsCatalogue();
    hide Gcd, Reduce, Describe;
    ScaledValue(Meter, meter, Fraction(3048, 10000));
    ConversionFactorOf(Foot, Meter, foot, meter, 0.3048);
    InverseDescribed(Meter, meter);
    ProductDescribed([Foot, Per(Meter)], [foot, UnitInverse(meter).value]);
  }
}
