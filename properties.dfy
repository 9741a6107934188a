/** What the wrapper promises, stated over the model: saturation and the canonical zero, the
    total order and the hash that agrees with it, the sign algebra of multiplication, negation,
    and the sign recovered from text. */
module FiniteFloatProperties {
  import opened Core
  import opened Primitive
  import opened TextSign
  import opened FiniteFloats

  /** Construction saturates: infinities go to `MAX` / `MIN`, subnormals to the normal value of
      the same sign closest to zero, a normal value is kept, and a zero of either sign is `ZERO`. */
  lemma ConstructionSaturates(f: Format, n: bool, m: nat)
    ensures FromPrimitive(f, Inf(false)) == Max(f) && FromPrimitive(f, Inf(true)) == Min(f)
    ensures FromPrimitive(f, Subnormal(false, m)) == MinPositive(f)
    ensures FromPrimitive(f, Subnormal(true, m)) == MaxNegative(f)
    ensures FromPrimitive(f, Normal(n, m)) == Normal(n, m)
    ensures FromPrimitive(f, Zero(n)) == ZERO
  {
  }

  /** For a zero, only the oracle decides, never the zero's own sign bit. */
  lemma ZeroFollowsOracle(f: Format, n: bool, underflowSign: Ordering)
    ensures FromPrimitiveWithUnderflowSign(f, Zero(n), underflowSign)
         == FromPrimitiveWithUnderflowSign(f, Zero(!n), underflowSign)
    ensures FromPrimitiveWithUnderflowSign(f, Zero(n), underflowSign)
         == match underflowSign
            case Less => MaxNegative(f)
            case Equal => ZERO
            case Greater => MinPositive(f)
  {
  }

  /** `new(-0.0)` is `ZERO`, whose bit pattern has the sign bit clear. */
  lemma NewNegativeZero(f: Format)
    ensures New(f, Zero(true)) == Some(ZERO)
    ensures ToBits(f, ZERO) == 0
  {
  }

  /** A stored value is a fixed point of construction: reconstructing it changes nothing, and a
      nonzero one is kept whatever the oracle says. Hence construction is idempotent. */
  lemma ConstructionFixesStoredValues(f: Format, x: FiniteFloat, val: Prim, underflowSign: Ordering)
    requires !val.NaN?
    ensures FromPrimitive(f, x) == x
    ensures x != ZERO ==> FromPrimitiveWithUnderflowSign(f, x, underflowSign) == x
    ensures FromPrimitive(f, FromPrimitive(f, val)) == FromPrimitive(f, val)
  {
  }

  /** A normal value whose magnitude lies between the format's smallest and largest normal
      magnitudes. */
  predicate InRange(f: Format, p: Prim)
  {
    p.Normal? ==> f.minPositiveMagnitude <= p.mag <= f.maxMagnitude
  }

  /** Construction from an in-range primitive gives an in-range value, and every in-range stored
      value lies in `[MIN, MAX]` and, unless it is `ZERO`, outside `(MAX_NEGATIVE, MIN_POSITIVE)`. */
  lemma ConstructionStaysInRange(f: Format, val: Prim, underflowSign: Ordering)
    requires ValidFormat(f) && !val.NaN? && InRange(f, val)
    ensures InRange(f, FromPrimitiveWithUnderflowSign(f, val, underflowSign))
  {
  }

  lemma StoredValueBounds(f: Format, x: FiniteFloat)
    requires ValidFormat(f) && InRange(f, x)
    ensures Compare(Min(f), x) != Greater && Compare(x, Max(f)) != Greater
    ensures x != ZERO ==> Compare(x, MaxNegative(f)) != Greater || Compare(MinPositive(f), x) != Greater
  {
  }

  /** `cmp` is a total order: swapping the operands reverses the result, and it is transitive. */
  lemma CompareAntisymmetric(x: FiniteFloat, y: FiniteFloat)
    ensures Compare(y, x) == Reverse(Compare(x, y))
  {
  }

  lemma CompareTransitive(x: FiniteFloat, y: FiniteFloat, z: FiniteFloat)
    requires Compare(x, y) != Greater && Compare(y, z) != Greater
    ensures Compare(x, z) != Greater
  {
  }

  /** The reason for the canonical zero: values that are `==` have the same bit pattern, so they
      hash alike. (For raw primitives this fails on +0.0 and -0.0, see
      `Primitive.SignedZerosEqualButBitsDiffer`.) */
  lemma HashConsistentWithEq(f: Format, x: FiniteFloat, y: FiniteFloat)
    ensures Equals(x, y) ==> Hash(f, x) == Hash(f, y)
    ensures Compare(x, y) == Equal ==> Hash(f, x) == Hash(f, y)
  {
  }

  /** The sign is the primitive comparison with zero. */
  lemma SignIsCompareToZero(x: FiniteFloat)
    ensures Sign(x) == CompareToZero(x)
  {
  }

  /** `multiply_signs` is the sign of a product: it agrees with integer multiplication. */
  lemma MultiplySignsMatchesIntegers(a: int, b: int)
    ensures SignOfInt(a * b) == MultiplySigns(SignOfInt(a), SignOfInt(b))
  {
    if a > 0 && b > 0 {
      assert a * b > 0;
    } else if a < 0 && b < 0 {
      assert a * b == (-a) * (-b);
      assert (-a) * (-b) > 0;
    } else if a > 0 && b < 0 {
      assert a * b == -(a * (-b));
      assert a * (-b) > 0;
    } else if a < 0 && b > 0 {
      assert a * b == -((-a) * b);
      assert (-a) * b > 0;
    }
  }

  lemma MultiplySignsAlgebra(a: Ordering, b: Ordering, c: Ordering)
    ensures MultiplySigns(a, b) == MultiplySigns(b, a)
    ensures MultiplySigns(MultiplySigns(a, b), c) == MultiplySigns(a, MultiplySigns(b, c))
    ensures MultiplySigns(Greater, a) == a && MultiplySigns(Less, a) == Reverse(a)
  {
  }

  /** A product that rounded to zero becomes `MIN_POSITIVE` for operands of one sign,
      `MAX_NEGATIVE` for operands of opposite signs, and `ZERO` only when an operand is `ZERO`. */
  lemma MulUnderflow(f: Format, x: FiniteFloat, y: FiniteFloat, product: Prim)
    requires product.Zero?
    ensures Mul(f, x, y, product) ==
      if x == ZERO || y == ZERO then ZERO
      else if x.neg == y.neg then MinPositive(f)
      else MaxNegative(f)
  {
  }

  /** IEEE-754 multiplication of finite values: never NaN, zero when an operand is zero, and
      otherwise with the sign bit the exclusive or of the operands' sign bits. */
  predicate ProductSignRule(x: FiniteFloat, y: FiniteFloat, product: Prim)
  {
    && !product.NaN?
    && (x == ZERO || y == ZERO ==> product.Zero?)
    && (!product.Zero? ==> product.neg == (x.neg != y.neg))
  }

  /** With such a product, the stored product always has the sign of the exact product. */
  lemma MulHasSignOfExactProduct(f: Format, x: FiniteFloat, y: FiniteFloat, product: Prim)
    requires ProductSignRule(x, y, product)
    ensures Sign(Mul(f, x, y, product)) == MultiplySigns(Sign(x), Sign(y))
  {
  }

  /** `x * y` and `y * x` agree when the primitive products do. */
  lemma MulCommutes(f: Format, x: FiniteFloat, y: FiniteFloat, product: Prim)
    requires !product.NaN?
    ensures Mul(f, x, y, product) == Mul(f, y, x, product)
  {
    MultiplySignsAlgebra(Sign(x), Sign(y), Greater);
  }

  /** Unlike a product, a sum or difference that is zero is always `ZERO`; overflow saturates. */
  lemma AddSubSaturate(f: Format, x: FiniteFloat, y: FiniteFloat, n: bool)
    ensures Add(f, x, y, Zero(n)) == ZERO && Sub(f, x, y, Zero(n)) == ZERO
    ensures Add(f, Max(f), Max(f), Inf(false)) == Max(f) && Add(f, Min(f), Min(f), Inf(true)) == Min(f)
    ensures Sub(f, Max(f), Min(f), Inf(false)) == Max(f) && Sub(f, Min(f), Max(f), Inf(true)) == Min(f)
  {
  }

  /** Negation is its own inverse and reverses the order. */
  lemma NegInvolutive(f: Format, x: FiniteFloat)
    ensures Neg(f, Neg(f, x)) == x
  {
  }

  lemma NegReversesOrder(f: Format, x: FiniteFloat, y: FiniteFloat)
    ensures Compare(Neg(f, x), Neg(f, y)) == Reverse(Compare(x, y))
  {
  }

  lemma NegOfConstants(f: Format)
    ensures Neg(f, ZERO) == ZERO && ToBits(f, Neg(f, ZERO)) == 0
    ensures Neg(f, Max(f)) == Min(f) && Neg(f, MinPositive(f)) == MaxNegative(f)
  {
  }

  /** Parsing a decimal literal that the primitive parser rounded to zero: the result is `ZERO`
      when every significand digit is 0, and otherwise the value closest to zero with the sign
      written in front. */
  lemma FromStrDecimalUnderflow(f: Format, sign: string, intDigits: string, point: bool,
                                fracDigits: string, rest: string, n: bool)
    requires sign == "" || sign == "+" || sign == "-"
    requires forall c :: c in intDigits ==> IsDigit(c)
    requires forall c :: c in fracDigits ==> IsDigit(c)
    requires rest == [] || !(IsScanned(rest[0]) || IsDigit(rest[0]))
    ensures FromStr(f, sign + intDigits + (if point then "." else "") + fracDigits + rest, Ok(Zero(n)))
         == Ok(if NoNonzeroDigit(intDigits + fracDigits) then ZERO
               else if sign == "-" then MaxNegative(f) else MinPositive(f))
  {
    DecimalLiteralSign(sign, intDigits, point, fracDigits, rest);
  }

  /** The parses the crate's test suite checks that end in an underflow, a NaN or an error,
      given the primitive parser's result for each text. */
  lemma FromStrUnderflowExamples(f: Format)
    ensures FromStr(f, "-0.0e-10000", Ok(Zero(true))) == Ok(ZERO)
    ensures FromStr(f, "-0.0000090e-10000", Ok(Zero(true))) == Ok(MaxNegative(f))
    ensures FromStr(f, "1.00e-10000", Ok(Zero(false))) == Ok(MinPositive(f))
    ensures FromStr(f, "NaN", Ok(NaN)) == Err(Invalid)
    ensures FromStr(f, "foo", Err(Invalid)) == Err(Invalid)
  {
    NegativeZeroLiteralExample();
    NegativeTinyLiteralExample();
    PositiveTinyLiteralExample();
  }

  /** The other parses the crate's test suite checks: a normal value is kept, overflow and the
      infinities saturate, and a subnormal goes to the normal extreme of its sign. "1e-40" is
      subnormal in binary32 and "1e-310" in binary64; each line holds for whichever format the
      primitive parser returns a subnormal in. */
  lemma FromStrSaturationExamples(f: Format, m: nat, n: nat)
    ensures FromStr(f, "3.14", Ok(Normal(false, m))) == Ok(Normal(false, m))
    ensures FromStr(f, "1e1000", Ok(Inf(false))) == Ok(Max(f))
    ensures FromStr(f, "-1e1000", Ok(Inf(true))) == Ok(Min(f))
    ensures FromStr(f, "inf", Ok(Inf(false))) == Ok(Max(f))
    ensures FromStr(f, "-inf", Ok(Inf(true))) == Ok(Min(f))
    ensures FromStr(f, "1e-40", Ok(Subnormal(false, n))) == Ok(MinPositive(f))
    ensures FromStr(f, "-1e-40", Ok(Subnormal(true, n))) == Ok(MaxNegative(f))
    ensures FromStr(f, "1e-310", Ok(Subnormal(false, n))) == Ok(MinPositive(f))
    ensures FromStr(f, "-1e-310", Ok(Subnormal(true, n))) == Ok(MaxNegative(f))
  {
  }

  /** `new` on the classes the crate's test suite checks: NaN fails, infinities and subnormals
      saturate, a normal value is kept and both zeros give `ZERO`. */
  lemma NewExamples(f: Format, m: nat, n: bool)
    ensures New(f, NaN) == None && TryFrom(f, NaN) == Err(NanError)
    ensures New(f, Inf(false)) == Some(Max(f)) && New(f, Inf(true)) == Some(Min(f))
    ensures New(f, Subnormal(false, m)) == Some(MinPositive(f))
    ensures New(f, Subnormal(true, m)) == Some(MaxNegative(f))
    ensures New(f, Normal(n, m)) == Some(Normal(n, m)) && TryFrom(f, Normal(n, m)) == Ok(Normal(n, m))
    ensures New(f, Zero(n)) == Some(ZERO)
  {
  }

  /** `cmp` is the numeric order on values whose magnitudes lie in the format's range. */
  lemma CompareIsNumeric(f: Format, x: FiniteFloat, y: FiniteFloat)
    requires ValidFormat(f) && InRange(f, x) && InRange(f, y)
    ensures Compare(x, y) == SignOfInt(Value(x) - Value(y))
  {
  }

  /** The named constants in order: `MIN <= MAX_NEGATIVE < ZERO < MIN_POSITIVE <= MAX`, with
      `MIN == -MAX`, `MAX_NEGATIVE == -MIN_POSITIVE`, and `ZERO`'s sign bit clear. */
  lemma ConstantsOrdered(f: Format)
    requires ValidFormat(f)
    ensures Compare(Min(f), MaxNegative(f)) != Greater
    ensures Compare(MaxNegative(f), ZERO) == Less && Compare(ZERO, MinPositive(f)) == Less
    ensures Compare(MinPositive(f), Max(f)) != Greater
    ensures Neg(f, Max(f)) == Min(f) && Neg(f, MinPositive(f)) == MaxNegative(f)
    ensures ToBits(f, ZERO) == 0
  {
  }
}
