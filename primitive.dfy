/** The primitive IEEE-754 binary floating-point type (`f32` or `f64`) that the wrapper stores,
    reduced to what the wrapper's decisions look at: the class `classify()` reports, the sign bit,
    and for finite nonzero values the magnitude field. No arithmetic is modelled here. */
module Primitive {
  import opened Core

  /** A primitive value by its class. `mag` is the magnitude part of the bit pattern (the exponent
      and significand fields, without the sign bit); for values of one sign it orders like the
      magnitude itself. */
  datatype Prim =
    | NaN
    | Inf(neg: bool)
    | Zero(neg: bool)
    | Subnormal(neg: bool, mag: nat)
    | Normal(neg: bool, mag: nat)

  /** The width-specific constants of one binary format: the value of the sign bit, and the
      magnitude fields of the largest finite value (`MAX`) and of the smallest positive normal
      value (`MIN_POSITIVE`). The infinity's magnitude field is the one just above `MAX`'s. */
  datatype Format = Format(signBit: nat, maxMagnitude: nat, minPositiveMagnitude: nat)

  /** `f32` (binary32). */
  const Binary32: Format := Format(0x8000_0000, 0x7F7F_FFFF, 0x0080_0000)

  /** `f64` (binary64). */
  const Binary64: Format := Format(0x8000_0000_0000_0000, 0x7FEF_FFFF_FFFF_FFFF, 0x0010_0000_0000_0000)

  predicate ValidFormat(f: Format)
  {
    0 < f.minPositiveMagnitude <= f.maxMagnitude && f.maxMagnitude + 1 < f.signBit
  }

  /** Both instantiations are well-formed formats. */
  lemma FormatsValid()
    ensures ValidFormat(Binary32) && ValidFormat(Binary64)
  {
  }

  /** `val.partial_cmp(&0.0)` for a value that is not NaN: zeros of both signs compare Equal. */
  function CompareToZero(p: Prim): (r: Ordering)
    requires !p.NaN?
    ensures (r == Equal) == p.Zero?
    ensures r == Less ==> p.neg
    ensures r == Greater ==> !p.neg
  {
    if p.Zero? then Equal else if p.neg then Less else Greater
  }

  /** Primitive `==` between two values that are not NaN: IEEE-754 makes +0.0 equal to -0.0 and
      every other pair equal exactly when the bit patterns agree. */
  predicate Equals(a: Prim, b: Prim)
    requires !a.NaN? && !b.NaN?
    ensures Equals(a, b) ==> CompareToZero(a) == CompareToZero(b)
    ensures a.Zero? && b.Zero? ==> Equals(a, b)
    ensures !a.Zero? ==> (Equals(a, b) <==> a == b)
  {
    (a.Zero? && b.Zero?) || a == b
  }

  /** Primitive unary `-`: flips the sign bit, exactly, whatever the class. */
  function Negate(p: Prim): (r: Prim)
    requires !p.NaN?
    ensures !r.NaN? && r.neg != p.neg
    ensures r.Inf? == p.Inf? && r.Zero? == p.Zero? && r.Subnormal? == p.Subnormal? && r.Normal? == p.Normal?
    ensures (r.Subnormal? || r.Normal?) ==> r.mag == p.mag
  {
    match p
    case Inf(n) => Inf(!n)
    case Zero(n) => Zero(!n)
    case Subnormal(n, m) => Subnormal(!n, m)
    case Normal(n, m) => Normal(!n, m)
  }

  /** `to_bits()` for a value that is not NaN: the sign bit plus the magnitude field. */
  function ToBits(f: Format, p: Prim): (r: nat)
    requires !p.NaN?
    ensures p.neg ==> r >= f.signBit
    ensures p.Zero? ==> (r == 0 <==> !p.neg || f.signBit == 0)
  {
    (if p.neg then f.signBit else 0) +
    match p
    case Inf(_) => f.maxMagnitude + 1
    case Zero(_) => 0
    case Subnormal(_, m) => m
    case Normal(_, m) => m
  }

  /** The hazard the wrapper exists to remove: +0.0 and -0.0 are `==` but their bit patterns,
      and therefore their hashes, differ. */
  lemma SignedZerosEqualButBitsDiffer(f: Format)
    requires ValidFormat(f)
    ensures Equals(Zero(false), Zero(true))
    ensures ToBits(f, Zero(false)) != ToBits(f, Zero(true))
  {
  }
}
