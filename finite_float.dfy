/** The finite floating-point wrapper (`Float32` / `Float64`, one generic model over a `Format`):
    construction by classification, the sign algebra, negation, addition, subtraction and
    multiplication on top of a given primitive result, comparison, hashing and parsing. */
module FiniteFloats {
  import opened Core
  import opened Primitive
  import opened TextSign

  /** What the wrapper may hold: never NaN, never infinite, never subnormal, and zero only as +0.0. */
  predicate Storable(p: Prim)
    ensures Storable(p) ==> !p.NaN? && !p.Inf? && !p.Subnormal?
    ensures Storable(p) && p.Zero? ==> !p.neg
    ensures p.Normal? ==> Storable(p)
  {
    p.Normal? || p == Zero(false)
  }

  type FiniteFloat = p: Prim | Storable(p) witness Zero(false)

  /** `NanError`: conversion from NaN. */
  datatype NanError = NanError

  /** The kind carried by the primitive parser's `ParseFloatError`. */
  datatype ParseFloatError = Empty | Invalid

  /** `ZERO` (also `Default::default()`). */
  const ZERO: FiniteFloat := Zero(false)

  /** `MAX`: the positive value with the largest magnitude field. */
  function Max(f: Format): (r: FiniteFloat)
    ensures CompareToZero(r) == Greater && r.mag == f.maxMagnitude
  {
    Normal(false, f.maxMagnitude)
  }

  /** `MIN`: the negative value with the largest magnitude field, `-MAX`. */
  function Min(f: Format): (r: FiniteFloat)
    ensures r == Negate(Max(f))
  {
    Normal(true, f.maxMagnitude)
  }

  /** `MIN_POSITIVE`: the positive normal value with the smallest magnitude field. */
  function MinPositive(f: Format): (r: FiniteFloat)
    ensures CompareToZero(r) == Greater && r.mag == f.minPositiveMagnitude
  {
    Normal(false, f.minPositiveMagnitude)
  }

  /** `MAX_NEGATIVE`: `-MIN_POSITIVE`, the negative value closest to zero. */
  function MaxNegative(f: Format): (r: FiniteFloat)
    ensures r == Negate(MinPositive(f))
  {
    Normal(true, f.minPositiveMagnitude)
  }

  /** `from_primitive_with_underflow_sign`: the one place values are made. `underflowSign` is
      what the oracle answers, consulted only when `val` is zero: the sign the exact value had
      before it rounded to zero. The result always has the true sign; a normal value is kept;
      zero is kept only when the true value was zero; everything else goes to the nearest
      extreme of its sign. */
  function FromPrimitiveWithUnderflowSign(f: Format, val: Prim, underflowSign: Ordering): (r: FiniteFloat)
    requires !val.NaN?
    ensures CompareToZero(r) == if val.Zero? then underflowSign else CompareToZero(val)
    ensures r == ZERO <==> val.Zero? && underflowSign == Equal
    ensures val.Normal? ==> r == val
    ensures r.Normal? && !val.Normal? ==>
              r.mag == if val.Inf? then f.maxMagnitude else f.minPositiveMagnitude
  {
    match val
    case Inf(_) => if CompareToZero(val) == Greater then Max(f) else Min(f)
    case Zero(_) => (
      match underflowSign
      case Less => MaxNegative(f)
      case Equal => ZERO
      case Greater => MinPositive(f))
    case Subnormal(_, _) => if CompareToZero(val) == Greater then MinPositive(f) else MaxNegative(f)
    case Normal(_, _) => val
  }

  /** `from_primitive`: construction where a zero is truly zero. The sign is kept exactly, and
      zero of either sign becomes `ZERO`. */
  function FromPrimitive(f: Format, val: Prim): (r: FiniteFloat)
    requires !val.NaN?
    ensures CompareToZero(r) == CompareToZero(val)
    ensures val.Zero? ==> r == ZERO
  {
    FromPrimitiveWithUnderflowSign(f, val, Equal)
  }

  /** `new`: fails exactly on NaN. */
  function New(f: Format, val: Prim): (r: Option<FiniteFloat>)
    ensures r.None? <==> val.NaN?
    ensures r.Some? ==> CompareToZero(r.value) == CompareToZero(val)
    ensures r.Some? && val.Zero? ==> r.value == ZERO
    ensures r.Some? && val.Normal? ==> r.value == val
    ensures r.Some? ==> r.value == FromPrimitive(f, val)
  {
    if val.NaN? then None else Some(FromPrimitive(f, val))
  }

  /** `TryFrom<f32/f64>::try_from`: `new`, with `NanError` in place of `None`. */
  function TryFrom(f: Format, val: Prim): (r: Result<FiniteFloat, NanError>)
    ensures r.Err? <==> val.NaN?
    ensures r.Ok? ==> New(f, val) == Some(r.value)
  {
    match New(f, val)
    case Some(x) => Ok(x)
    case None => Err(NanError)
  }

  /** The numeric value a stored value stands for, up to the monotone encoding of magnitudes by
      their magnitude fields: 0 for `ZERO`, otherwise the signed magnitude field. */
  function Value(x: FiniteFloat): int
  {
    if x.Zero? then 0 else if x.neg then 0 - x.mag else x.mag as int
  }

  /** `Ord::cmp`: the primitive comparison, which never meets NaN here. A stored `Normal` is
      compared as a nonzero value even if its magnitude field were 0, which no IEEE-754 normal
      value has; on magnitudes within the format's range it is the numeric order (see
      `FiniteFloatProperties.CompareIsNumeric`). */
  function Compare(x: FiniteFloat, y: FiniteFloat): (r: Ordering)
    ensures r == Equal <==> x == y
    ensures r == Equal <==> Equals(x, y)
  {
    if x.Zero? && y.Zero? then Equal
    else if x.Zero? then Reverse(CompareToZero(y))
    else if y.Zero? then CompareToZero(x)
    else if x.neg != y.neg then CompareToZero(x)
    else if x.mag == y.mag then Equal
    else if (x.mag < y.mag) == x.neg then Greater
    else Less
  }

  /** `sign`: the comparison with `ZERO`. */
  function Sign(x: FiniteFloat): (r: Ordering)
    ensures r == Equal <==> x == ZERO
    ensures r == Less <==> x.Normal? && x.neg
    ensures r == Greater <==> x.Normal? && !x.neg
  {
    Compare(x, ZERO)
  }

  /** `multiply_signs`: the sign of a product from the signs of its factors. */
  function MultiplySigns(lhs: Ordering, rhs: Ordering): (r: Ordering)
    ensures r == Equal <==> lhs == Equal || rhs == Equal
    ensures r == Greater <==> lhs == rhs && lhs != Equal
    ensures r == Less <==> {lhs, rhs} == {Less, Greater}
  {
    match lhs
    case Less => Reverse(rhs)
    case Equal => Equal
    case Greater => rhs
  }

  /** `Neg::neg`: construction from the primitive negation. Zero stays `ZERO` (never -0.0);
      any other value becomes the stored value of the opposite sign and the same magnitude. */
  function Neg(f: Format, x: FiniteFloat): (r: FiniteFloat)
    ensures Sign(r) == Reverse(Sign(x))
    ensures x == ZERO ==> r == ZERO
    ensures x != ZERO ==> r.Normal? && r.neg != x.neg && r.mag == x.mag
  {
    FromPrimitive(f, Negate(x))
  }

  /** `Add::add`, given the primitive sum `sum` of the two operands (never NaN for finite
      operands). A zero sum is taken as a true zero. */
  function Add(f: Format, x: FiniteFloat, y: FiniteFloat, sum: Prim): (r: FiniteFloat)
    requires !sum.NaN?
    ensures CompareToZero(r) == CompareToZero(sum)
    ensures sum.Zero? ==> r == ZERO
    ensures sum.Normal? ==> r == sum
    ensures sum.Inf? ==> r == if sum.neg then Min(f) else Max(f)
    ensures sum.Subnormal? ==> r == if sum.neg then MaxNegative(f) else MinPositive(f)
  {
    FromPrimitive(f, sum)
  }

  /** `Sub::sub`, given the primitive difference `difference` of the two operands. */
  function Sub(f: Format, x: FiniteFloat, y: FiniteFloat, difference: Prim): (r: FiniteFloat)
    requires !difference.NaN?
    ensures CompareToZero(r) == CompareToZero(difference)
    ensures difference.Zero? ==> r == ZERO
    ensures difference.Normal? ==> r == difference
    ensures difference.Inf? ==> r == if difference.neg then Min(f) else Max(f)
    ensures difference.Subnormal? ==> r == if difference.neg then MaxNegative(f) else MinPositive(f)
  {
    FromPrimitive(f, difference)
  }

  /** `Mul::mul`, given the primitive product `product` of the two operands. A zero product
      takes its true sign from the signs of the operands. */
  function Mul(f: Format, x: FiniteFloat, y: FiniteFloat, product: Prim): (r: FiniteFloat)
    requires !product.NaN?
    ensures product.Zero? ==> Sign(r) == MultiplySigns(Sign(x), Sign(y))
    ensures !product.Zero? ==> CompareToZero(r) == CompareToZero(product)
  {
    FromPrimitiveWithUnderflowSign(f, product, MultiplySigns(Sign(x), Sign(y)))
  }

  /** `Hash::hash` feeds the bit pattern of the stored value to the hasher. */
  function Hash(f: Format, x: FiniteFloat): (h: nat)
    ensures x == ZERO ==> h == 0
    ensures x != ZERO ==> h == (if x.neg then f.signBit else 0) + x.mag
  {
    ToBits(f, x)
  }

  /** `FromStr::from_str`, given what the primitive parser returned for `s`. A parser error is
      passed on, a NaN becomes an `Invalid` error, and a zero takes its true sign from the text. */
  function FromStr(f: Format, s: string, baseParsed: Result<Prim, ParseFloatError>): (r: Result<FiniteFloat, ParseFloatError>)
    ensures r.Err? <==> baseParsed.Err? || baseParsed.value.NaN?
    ensures baseParsed.Err? ==> r == Err(baseParsed.error)
    ensures baseParsed.Ok? && baseParsed.value.NaN? ==> r == Err(Invalid)
    ensures r.Ok? ==>
      CompareToZero(r.value) == if baseParsed.value.Zero? then TinyFloatSign(s) else CompareToZero(baseParsed.value)
    ensures r.Ok? ==> r.value == FromPrimitiveWithUnderflowSign(f, baseParsed.value, TinyFloatSign(s))
  {
    match baseParsed
    case Err(e) => Err(e)
    case Ok(val) =>
      if val.NaN? then Err(Invalid)
      else Ok(FromPrimitiveWithUnderflowSign(f, val, TinyFloatSign(s)))
  }
}
