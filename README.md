# finite-float, modelled in Dafny

`finite_float` provides `Float32` and `Float64`, wrappers around `f32` and `f64` that never hold
NaN or an infinity, store zero only as +0.0, and never hold a subnormal magnitude. Every value other than the named constants (`ZERO`, `EPSILON`, `MIN`,
`MAX`, `MIN_POSITIVE`, `MAX_NEGATIVE`, which are written out directly, and `Default`, which is
`ZERO`) is made by one classification function, `from_primitive_with_underflow_sign`; the
constants are fixed points of it (`ConstructionFixesStoredValues`). It saturates
infinities to `MAX` / `MIN` and subnormals to `MIN_POSITIVE` / `MAX_NEGATIVE`. For a primitive
zero it asks an oracle for the sign the exact value had before rounding. Multiplication answers
that question from the operands' signs (`multiply_signs`). Parsing answers it from the text
(`parse_sign_of_tiny_float`). Addition and subtraction always answer "zero".

This project models those decisions, with no floating-point arithmetic:

- `core.dfy` (module `Core`): `Ordering`, `Option`, `Result`.
- `primitive.dfy` (module `Primitive`): a primitive value by class:
  `NaN | Inf(neg) | Zero(neg) | Subnormal(neg, mag) | Normal(neg, mag)`. `mag` is the magnitude
  field of the bit pattern. It also holds the primitive comparison with zero, `==`, unary `-`
  and `to_bits`. A `Format` holds the width-specific constants: the sign bit and the magnitude
  fields of `MAX` and `MIN_POSITIVE`. `Binary32` and `Binary64` stand for `f32` and `f64`. The
  two `impl_finite_float!` instantiations are therefore one model with a `Format` parameter.
- `tiny_float_sign.dfy` (module `TextSign`): `parse_sign_of_tiny_float`. It is a method with the
  loop of the Rust function, including the early return and the `break`. It is proved equal to the recursive
  specification `TinyFloatSign`, and lemmas characterise that specification.
- `finite_float.dfy` (module `FiniteFloats`): the stored type `FiniteFloat`. It is a subset
  type of `Prim`: `Normal` values, or `Zero(false)` only. The module also has the constants,
  construction, `new`, `try_from`, `cmp`, `sign`, `multiply_signs`, `neg`, `add`, `sub`, `mul`,
  `hash` and `from_str`.
- `properties.dfy` (module `FiniteFloatProperties`): lemmas relating these operations.

Modelling choices:

- The oracle is an `Ordering` argument, evaluated eagerly. Every oracle in the source is free
  of side effects, so this gives the same result as calling it lazily.
- The primitive result of an arithmetic operation is an input whose class is given. This covers
  the sum in `add`, the difference in `sub` and the product in `mul`. So is the result of the
  primitive parser in `from_str`.
- The text scan works on characters, not UTF-8 bytes. Every byte the loop acts on is ASCII. A
  non-ASCII character starts with a byte of 0x80 or more, which takes the `_ => break` arm, so
  the two scans agree.
- The scan follows the loop, not the comment at src/lib.rs:300. It accepts `-`, `+`, `0` and
  `.` in any order and any number. A `+` after a `-` does not make the sign positive again
  (`LooseSignExamples`). On literals of the shape the comment describes, the loop and the
  comment agree (`DecimalLiteralSign`). Texts where they differ, such as `0-5`, are rejected by
  the primitive parser before the oracle is asked.

## Model

| member | source | states |
|---|---|---|
| `Primitive.CompareToZero` | src/lib.rs:144-159 | `val > 0.0` and the comparison with zero: zero of either sign compares Equal, and otherwise the sign bit decides |
| `Primitive.Negate` | src/lib.rs:243 | primitive `-` flips the sign bit and keeps the class and the magnitude |
| `Primitive.Equals` | src/lib.rs:89 | the derived `PartialEq` on the primitive: both zeros are equal, any other value equals only itself, and equal values have the same sign |
| `Primitive.ToBits` | src/lib.rs:200 | `to_bits`: a negative value has the sign bit set; a zero's pattern is 0 exactly when its sign is positive |
| `Primitive.FormatsValid` | src/lib.rs:295-296 | the `f32` and `f64` instantiations are well-formed formats |
| `Core.Reverse` | src/lib.rs:316 | `Ordering::reverse` keeps Equal and swaps Less and Greater |
| `Primitive.SignedZerosEqualButBitsDiffer` | src/lib.rs:194-201 | for raw primitives, +0.0 == -0.0 but their bit patterns differ, so hashing raw bits would break Eq/Hash consistency |
| `TextSign.ScanSign` | src/lib.rs:301-310 | what the scan yields from any point: Equal, Less, or the running sign |
| `TextSign.ParseSignOfTinyFloat` | src/lib.rs:299-311 | the byte loop, with its early return and `break`, computes exactly `TinyFloatSign(s)` |
| `TextSign.TinyFloatSignNonzero` | src/lib.rs:301-306 | when the scan reaches a nonzero digit after only `-+0.` characters, the result is Less iff a `-` came before it, else Greater |
| `TextSign.TinyFloatSignEqual` | src/lib.rs:302-310 | the result is Equal iff no nonzero digit is reached after only `-+0.` characters |
| `TextSign.TinyFloatSignIgnoresSuffix` | src/lib.rs:307 | everything after the first character the scan stops at (e.g. an exponent) is irrelevant |
| `TextSign.DecimalLiteralSign` | src/lib.rs:300 | on `[+-]? Digit* ('.' Digit*)?` followed by an exponent or the end: Equal iff all digits are 0, else the written sign |
| `TextSign.NegativeZeroLiteralExample` | tests/tests.rs:191-192 | "-0.0e-10000" has sign Equal |
| `TextSign.NegativeTinyLiteralExample` | tests/tests.rs:209-216 | "-0.0000090e-10000" has sign Less |
| `TextSign.PositiveTinyLiteralExample` | tests/tests.rs:201-208 | "1.00e-10000" has sign Greater |
| `TextSign.LooseSignExamples` | src/lib.rs:304-305 | a `+` after `-` keeps the sign negative; a `-` after a `0` still counts |
| `FiniteFloats.Storable` | src/lib.rs:90 | the stored value is never NaN, infinite or subnormal, and a stored zero has its sign bit clear |
| `FiniteFloats.Max` | src/lib.rs:106 | `MAX` is positive with the largest magnitude field |
| `FiniteFloats.Min` | src/lib.rs:103 | `MIN` is `-MAX` |
| `FiniteFloats.MinPositive` | src/lib.rs:109 | `MIN_POSITIVE` is positive with the smallest normal magnitude field |
| `FiniteFloats.MaxNegative` | src/lib.rs:112 | `MAX_NEGATIVE` is `-MIN_POSITIVE` |
| `FiniteFloats.FromPrimitiveWithUnderflowSign` | src/lib.rs:137-164 | the result has the true sign (the oracle's for a zero input, the input's otherwise); it is ZERO iff the input is zero and the oracle says Equal; a normal input is kept; anything else becomes the extreme of its sign, MAX's magnitude for an infinity and MIN_POSITIVE's otherwise |
| `FiniteFloats.FromPrimitive` | src/lib.rs:166-169 | construction keeps the sign exactly and maps a zero of either sign to ZERO |
| `FiniteFloats.New` | src/lib.rs:117-124 | None iff the input is NaN; otherwise the value is `from_primitive(v)`: the sign is kept, zero becomes ZERO, and a normal value is kept |
| `FiniteFloats.TryFrom` | src/lib.rs:214-217 | `Err(NanError)` iff the input is NaN; otherwise the same value as `new` |
| `FiniteFloats.Compare` | src/lib.rs:180-185 | the order is Equal exactly on identical stored values, which is also exactly primitive `==`; `CompareIsNumeric` ties Less and Greater to the numeric order |
| `FiniteFloats.Sign` | src/lib.rs:171-174 | Equal iff ZERO, Less iff negative, Greater iff positive |
| `FiniteFloats.MultiplySigns` | src/lib.rs:313-320 | Equal iff either sign is Equal; Greater iff both are the same nonzero sign; Less iff one is Less and the other Greater |
| `FiniteFloats.Neg` | src/lib.rs:241-244 | the sign is reversed; ZERO stays ZERO; any other value keeps its magnitude and flips its sign |
| `FiniteFloats.Add` | src/lib.rs:259-263 | a normal sum is kept, an infinite sum saturates to MAX / MIN, a subnormal sum becomes MIN_POSITIVE / MAX_NEGATIVE, and a zero sum gives ZERO |
| `FiniteFloats.Sub` | src/lib.rs:271-275 | a normal difference is kept, an infinite one saturates to MAX / MIN, a subnormal one becomes MIN_POSITIVE / MAX_NEGATIVE, and a zero one gives ZERO |
| `FiniteFloats.Mul` | src/lib.rs:283-288 | a zero product gets the sign `multiply_signs` gives the operands' signs; any other product keeps its own sign |
| `FiniteFloats.Hash` | src/lib.rs:195-202 | the hash input is the stored bit pattern; ZERO's is 0, with the sign bit clear |
| `FiniteFloats.FromStr` | src/lib.rs:228-235 | fails iff the primitive parse fails (error forwarded) or yields NaN (`Invalid`); otherwise the value is construction of the parsed value with the text's sign as oracle, so its sign is the text's for a zero and the parsed value's otherwise |
| `FiniteFloatProperties.ConstructionSaturates` | src/lib.rs:141-163 | +inf gives MAX, -inf gives MIN, subnormals give MIN_POSITIVE / MAX_NEGATIVE, normals are kept, and zeros of both signs give ZERO |
| `FiniteFloatProperties.ZeroFollowsOracle` | src/lib.rs:150-154 | for a zero only the oracle decides (Less, Equal, Greater give MAX_NEGATIVE, ZERO, MIN_POSITIVE); the zero's sign bit is ignored |
| `FiniteFloatProperties.NewNegativeZero` | tests/tests.rs:49-54 | `new(-0.0)` is ZERO with the sign bit clear |
| `FiniteFloatProperties.ConstructionFixesStoredValues` | src/lib.rs:162 | construction is the identity on stored values (whatever the oracle, for nonzero ones) and is idempotent |
| `FiniteFloatProperties.ConstructionStaysInRange` | src/lib.rs:141-163 | an in-range input gives an in-range stored value |
| `FiniteFloatProperties.StoredValueBounds` | src/lib.rs:102-112 | an in-range stored value lies in [MIN, MAX] and, unless ZERO, not strictly between MAX_NEGATIVE and MIN_POSITIVE |
| `FiniteFloatProperties.CompareIsNumeric` | src/lib.rs:180-185 | on in-range values, `cmp` is the sign of the difference of the numeric values |
| `FiniteFloatProperties.ConstantsOrdered` | src/lib.rs:96-112 | `MIN <= MAX_NEGATIVE < ZERO < MIN_POSITIVE <= MAX`, `-MAX == MIN`, `-MIN_POSITIVE == MAX_NEGATIVE`, and ZERO's bit pattern is 0 |
| `FiniteFloatProperties.NewExamples` | tests/tests.rs:33-72 | `new` fails on NaN, saturates infinities and subnormals, keeps normal values and maps both zeros to ZERO; `try_from` agrees |
| `FiniteFloatProperties.CompareAntisymmetric` | src/lib.rs:179-185 | swapping the operands of `cmp` reverses the result |
| `FiniteFloatProperties.CompareTransitive` | src/lib.rs:179-185 | `cmp` is transitive |
| `FiniteFloatProperties.HashConsistentWithEq` | src/lib.rs:194-201 | stored values that are `==` hash alike |
| `FiniteFloatProperties.SignIsCompareToZero` | src/lib.rs:172-174 | `sign` agrees with the primitive comparison with zero |
| `FiniteFloatProperties.MultiplySignsMatchesIntegers` | src/lib.rs:313-320 | `multiply_signs` of two integers' signs is the sign of their product |
| `FiniteFloatProperties.MultiplySignsAlgebra` | src/lib.rs:313-320 | `multiply_signs` is commutative and associative, Greater is neutral, and Less reverses |
| `FiniteFloatProperties.MulUnderflow` | src/lib.rs:284-288 | a zero product gives MIN_POSITIVE for same-sign operands, MAX_NEGATIVE for opposite signs, and ZERO iff an operand is ZERO |
| `FiniteFloatProperties.MulHasSignOfExactProduct` | src/lib.rs:284-288 | with an IEEE-754 product, the stored product has the sign of the exact product |
| `FiniteFloatProperties.MulCommutes` | src/lib.rs:284-288 | `x * y == y * x` when the primitive products agree |
| `FiniteFloatProperties.AddSubSaturate` | tests/tests.rs:261-326 | a zero sum or difference is ZERO; MAX+MAX, MIN+MIN, MAX-MIN and MIN-MAX saturate |
| `FiniteFloatProperties.NegInvolutive` | src/lib.rs:242-244 | `-(-x) == x` |
| `FiniteFloatProperties.NegReversesOrder` | src/lib.rs:242-244 | negation reverses `cmp` |
| `FiniteFloatProperties.NegOfConstants` | tests/tests.rs:220-229 | `-ZERO` is ZERO with the sign bit clear; `-MAX == MIN`; `-MIN_POSITIVE == MAX_NEGATIVE` |
| `FiniteFloatProperties.FromStrDecimalUnderflow` | src/lib.rs:228-235 | a decimal literal that parsed to zero gives ZERO iff its digits are all 0, else MAX_NEGATIVE / MIN_POSITIVE by its written sign |
| `FiniteFloatProperties.FromStrUnderflowExamples` | tests/tests.rs:157-216 | the three literals that parse to zero give ZERO, MAX_NEGATIVE and MIN_POSITIVE; "NaN" and "foo" fail |
| `FiniteFloatProperties.FromStrSaturationExamples` | tests/tests.rs:166-198 | "3.14" is kept; "1e1000", "inf" and their negatives saturate to MAX / MIN; "1e-40" (binary32), "1e-310" (binary64) and their negatives give MIN_POSITIVE / MAX_NEGATIVE |

## Left out

- IEEE-754 arithmetic: the primitive `+`, `-` and `*` at src/lib.rs:262, 274, 286 are numerics. The primitive result is an input whose class is given.
- Add, Sub: the claim in the comments at src/lib.rs:261 and 273, that a sum or difference is zero only when the operands cancel, is a floating-point fact. The model does not state it.
- The primitive parser `f32::from_str` / `f64::from_str` is a library call. `FromStr` takes its result as an input.
- Formatting (`Debug`, `Display`, `LowerExp`, `UpperExp`, and `NanError`'s `Display`): these only hand the stored value to the standard library's formatter.
- The `Hasher` plumbing. `Hash` stops at the bit pattern that is fed to the hasher.
- The by-reference operator variants and the `*_assign` wrappers (src/lib.rs:41-84, 247-254): they call the by-value operation and store its result.
- `get`, `From<Float> for f32/f64` and `Default`: they return the stored value or `ZERO`. The stored type is a subset of `Prim`, so `get` is the identity.
- The concrete values of `EPSILON`, `MANTISSA_DIGITS` and the other format constants. Only the magnitude fields of `MAX` and `MIN_POSITIVE` and the sign bit appear, in `Format`.
- `ZERO` is a constant, so it carries no contract of its own; `ConstantsOrdered` and `NewNegativeZero` state its properties.
- `FiniteFloat` admits `Normal` with a magnitude field of 0, which no IEEE-754 normal value has. `Compare` treats such a value as nonzero, so `CompareIsNumeric` requires magnitudes within the format's range.
- The order of magnitudes is taken to be the order of their magnitude fields, which holds for IEEE-754 values of one sign. `Compare` is only defined on stored values, where there are no infinities or subnormals.
- The panic on `unreachable!()` for NaN in `from_primitive_with_underflow_sign` is a precondition: no caller passes NaN.
