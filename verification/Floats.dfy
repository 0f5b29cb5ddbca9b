/**
  Binary floating point as in section 3.4 of IEEE 754-2008, bit pattern by bit
  pattern. A pattern is a sign and a magnitude field (exponent and fraction bits
  read as one number). The number a finite pattern stands for is counted in units
  of 2^-1074, the smallest positive binary64 number, so that every finite
  binary32 and binary64 number is a natural number of units and no real
  arithmetic is needed.
*/
module Floats {
  import opened Words

  /** fraction: bits of the fraction field; unit: smallest positive number is
      2^unit units; infinity: the magnitude pattern of infinity. */
  datatype Format = Format(fraction: nat, unit: nat, infinity: nat)

  const INFINITY64 := 0x7ff0_0000_0000_0000
  const INFINITY32 := 0x7f80_0000
  const BINARY64 := Format(52, 0, INFINITY64)
  const BINARY32 := Format(23, 925, INFINITY32)

  type magnitude64 = m: nat | m < 0x8000_0000_0000_0000
  type magnitude32 = m: nat | m < 0x8000_0000

  datatype Double = Double(neg: bool, mag: magnitude64)
  datatype Float = Float(neg: bool, mag: magnitude32)

  // -- Patterns and their numbers ----------------------------------------------

  function Exponent(f: Format, p: nat): nat { Quotient(p, Pow2(f.fraction)) }

  function Fraction(f: Format, p: nat): (m: nat)
    ensures m < Pow2(f.fraction)
  {
    p % Pow2(f.fraction)
  }

  function Significand(f: Format, p: nat): nat {
    if Exponent(f, p) == 0 then Fraction(f, p) else Pow2(f.fraction) + Fraction(f, p)
  }

  function Scale(f: Format, p: nat): nat {
    var e := Exponent(f, p);
    if e == 0 then f.unit else f.unit + e - 1
  }

  /** The number, in units of 2^-1074, of the finite magnitude pattern p. */
  function Number(f: Format, p: nat): nat {
    Significand(f, p) * Pow2(Scale(f, p))
  }

  function Log2(n: nat): (k: nat)
    requires n > 0
    ensures Pow2(k) <= n < Pow2(k + 1)
  {
    if n == 1 then 0 else 1 + Log2(n / 2)
  }

  /** The exponent of the last place kept when n units are rounded to format f. */
  function LastPlace(f: Format, n: nat): (s: nat)
    ensures s >= f.unit
  {
    if n < Pow2(f.fraction + f.unit) then f.unit
    else
      Log2AtLeast(n, f.fraction + f.unit);
      Log2(n) - f.fraction
  }

  /** Rounds n units to the nearest magnitude pattern, ties to even, overflow to infinity. */
  function Round(f: Format, n: nat): (p: nat)
    ensures p <= f.infinity
  {
    var s := LastPlace(f, n);
    var p := Truncate(f, n, s);
    var q := if RoundsUp(n % Pow2(s), Pow2(s), p) then p + 1 else p;
    if q >= f.infinity then f.infinity else q
  }

  /** The pattern left when the digits of n below 2^s are dropped. */
  function Truncate(f: Format, n: nat, s: nat): nat
    requires s >= f.unit
  {
    Times(s - f.unit, Pow2(f.fraction)) + Quotient(n, Pow2(s))
  }

  predicate RoundsUp(rest: nat, place: nat, p: nat) {
    2 * rest > place || (2 * rest == place && p % 2 == 1)
  }

  function Times(a: nat, b: nat): nat { a * b }

  lemma {:induction false} Log2AtLeast(n: nat, k: nat)
    requires n > 0 && n >= Pow2(k)
    ensures Log2(n) >= k
  {
    var l := Log2(n);
    if l < k {
      Pow2Monotone(l + 1, k);
    }
  }

  lemma {:induction false} Log2Is(n: nat, k: nat)
    requires Pow2(k) <= n < 2 * Pow2(k)
    ensures n > 0 && Log2(n) == k
  {
    Log2AtLeast(n, k);
    var l := Log2(n);
    if l > k {
      Pow2Monotone(k + 1, l);
    }
  }

  lemma {:induction false} MulLess(a: int, b: int, k: int)
    requires a < b && k > 0
    ensures a * k < b * k
  {}

  /** n = sig * 2^s with sig the kept digits means that nothing is rounded off. */
  lemma {:induction false} LastPlaceOf(f: Format, sig: nat, s: nat)
    requires s >= f.unit
    requires sig < 2 * Pow2(f.fraction)
    requires s == f.unit || sig >= Pow2(f.fraction)
    ensures LastPlace(f, sig * Pow2(s)) == s
  {
    var b, t := Pow2(f.fraction), Pow2(s);
    var n := sig * t;
    Pow2Add(f.fraction, s);
    assert Pow2(f.fraction + s) == b * t;
    if sig < b {
      MulLess(sig, b, t);
    } else {
      ScaledBounds(sig, b, t);
      Pow2Monotone(f.fraction + f.unit, f.fraction + s);
      Log2Is(n, f.fraction + s);
    }
  }

  lemma {:induction false} ScaledBounds(sig: nat, b: nat, t: nat)
    requires b <= sig < 2 * b && t > 0
    ensures b * t <= sig * t < 2 * (b * t)
  {}

  lemma {:induction false} UnscaledBounds(sig: nat, b: nat, t: nat)
    requires t > 0
    ensures sig * t < b * t ==> sig < b
    ensures b * t <= sig * t ==> b <= sig
    ensures sig * t < 2 * (b * t) ==> sig < 2 * b
  {}

  /** Rounding the number of a finite pattern gives the pattern back, so patterns
      and their numbers correspond one to one. */
  lemma {:induction false} RoundNumber(f: Format, p: nat)
    requires p < f.infinity
    ensures Round(f, Number(f, p)) == p
  {
    var sig, s := Significand(f, p), Scale(f, p);
    SignificandBounds(f, p);
    LastPlaceOf(f, sig, s);
    DivModUnique(sig, Pow2(s), 0);
    assert Number(f, p) / Pow2(s) == sig && Number(f, p) % Pow2(s) == 0;
  }

  lemma {:induction false} SignificandBounds(f: Format, p: nat)
    ensures var b := Pow2(f.fraction); var sig, s := Significand(f, p), Scale(f, p);
      && s >= f.unit
      && sig < 2 * b
      && (s == f.unit || sig >= b)
      && p == Times(s - f.unit, b) + sig
  {}

  lemma Fields(f: Format, p: nat)
    ensures p == Times(Exponent(f, p), Pow2(f.fraction)) + Fraction(f, p)
  {
    hide Pow2;
  }

  lemma FieldsOf(f: Format, e: nat, m: nat)
    requires m < Pow2(f.fraction)
    ensures var p := Times(e, Pow2(f.fraction)) + m; Exponent(f, p) == e && Fraction(f, p) == m
  {
    hide Pow2;
    DivModUnique(e, Pow2(f.fraction), m);
  }

  lemma TimesLess(e: nat, b: nat)
    ensures e > 0 ==> Times(e, b) == Times(e - 1, b) + b
    ensures Times(0, b) == 0
  {}

  lemma {:induction false} SignificandOf(f: Format, k: nat, sig: nat)
    requires var b := Pow2(f.fraction); sig < 2 * b && (k == 0 || sig >= b)
    ensures var p := Times(k, Pow2(f.fraction)) + sig; Significand(f, p) == sig && Scale(f, p) == f.unit + k
  {
    var b := Pow2(f.fraction);
    hide Exponent, Fraction, Pow2;
    TimesLess(k + 1, b);
    if sig < b {
      FieldsOf(f, 0, sig);
    } else {
      FieldsOf(f, k + 1, sig - b);
    }
  }

  lemma {:induction false} KeptDigits(f: Format, n: nat)
    requires n % Pow2(LastPlace(f, n)) == 0
    ensures var b, s := Pow2(f.fraction), LastPlace(f, n); var sig := n / Pow2(s);
      && n == sig * Pow2(s)
      && sig < 2 * b
      && (s == f.unit || sig >= b)
  {
    hide Pow2;
    var b := Pow2(f.fraction);
    var s := LastPlace(f, n);
    var t := Pow2(s);
    var sig := n / t;
    assert n == sig * t;
    Pow2Add(f.fraction, s);
    assert Pow2(f.fraction + s) == b * t;
    UnscaledBounds(sig, b, t);
  }

  /** Conversely a number whose dropped digits are all zero is rounded to a
      pattern of exactly that number. */
  lemma {:induction false} NumberRound(f: Format, n: nat)
    requires n % Pow2(LastPlace(f, n)) == 0
    requires Round(f, n) < f.infinity
    ensures Number(f, Round(f, n)) == n
  {
    var s := LastPlace(f, n);
    KeptDigits(f, n);
    SignificandOf(f, s - f.unit, n / Pow2(s));
    assert Round(f, n) == Truncate(f, n, s);
  }

  // -- binary64 and binary32 values ----------------------------------------------

  predicate IsNaN(d: Double) { d.mag > INFINITY64 }
  predicate IsFinite(d: Double) { d.mag < INFINITY64 }
  predicate IsFiniteSingle(b: Float) { b.mag < INFINITY32 }

  /** The magnitude of a finite value, in units of 2^-1074. */
  function Units(d: Double): nat { Number(BINARY64, d.mag) }
  function UnitsSingle(b: Float): nat { Number(BINARY32, b.mag) }

  /** The number one in units of 2^-1074. */
  function One(): nat { Pow2(1074) }

  /** Numeric equality, as the == of the language: no NaN equals anything and the
      two zeros are equal. */
  predicate SameNumber(d: Double, e: Double) {
    !IsNaN(d) && !IsNaN(e) && (d == e || (d.mag == 0 && e.mag == 0))
  }

  /** The conversion from double to float: round to nearest, ties to even. */
  function Narrow(d: Double): Float {
    if IsNaN(d) then Float(d.neg, INFINITY32 + 0x40_0000)
    else if !IsFinite(d) then Float(d.neg, INFINITY32)
    else Float(d.neg, Round(BINARY32, Units(d)))
  }

  /** The conversion from float to double, which is exact (see WidenExact). */
  function Widen(b: Float): Double {
    if b.mag > INFINITY32 then Double(b.neg, INFINITY64 + (b.mag - INFINITY32) * 0x2000_0000)
    else if b.mag == INFINITY32 then Double(b.neg, INFINITY64)
    else Double(b.neg, Round(BINARY64, UnitsSingle(b)))
  }

  /** The test floor(x) == x, which an infinity passes and a NaN does not. */
  predicate IsIntegral(d: Double) {
    !IsNaN(d) && (IsFinite(d) ==> Units(d) % One() == 0)
  }

  /** The test (double)(float)x == x. */
  predicate FitsFloat(d: Double) { SameNumber(Widen(Narrow(d)), d) }

  /** The integer part: what a conversion to an integer type keeps. */
  function Whole(d: Double): int {
    var n := if IsFinite(d) then Quotient(Units(d), One()) else 0;
    if d.neg then -n else n
  }

  /** An integral double whose value an int64 can hold, or any double that is not
      integral: the inputs for which the conversions of the encoder are defined. */
  predicate Convertible(d: Double) {
    IsIntegral(d) ==> IsFinite(d) && -0x8000_0000_0000_0000 <= Whole(d) < 0x8000_0000_0000_0000
  }

  function Abs(x: int): nat { if x < 0 then -x else x }

  function FromInteger(x: int): Double { Double(x < 0, Round(BINARY64, Abs(x) * One())) }
  function FromIntegerSingle(x: int): Float { Float(x < 0, Round(BINARY32, Abs(x) * One())) }

  /** The same number with the sign of zero forgotten. */
  function PositiveZero(d: Double): Double { if d.mag == 0 then Double(false, 0) else d }

  // -- What narrowing keeps ------------------------------------------------------

  /** The 32-bit test of the encoder succeeds exactly when some finite binary32
      value is the same number; then narrowing finds it. */
  lemma FitsFloatExactly(d: Double)
    requires IsFinite(d)
    ensures FitsFloat(d) <==> exists b: Float :: IsFiniteSingle(b) && b.neg == d.neg && UnitsSingle(b) == Units(d)
    ensures FitsFloat(d) ==> IsFiniteSingle(Narrow(d)) && UnitsSingle(Narrow(d)) == Units(d) && Widen(Narrow(d)) == d
  {
    if b: Float :| IsFiniteSingle(b) && b.neg == d.neg && UnitsSingle(b) == Units(d) {
      RoundNumber(BINARY32, b.mag);
      RoundNumber(BINARY64, d.mag);
    }
    if FitsFloat(d) {
      var b := Narrow(d);
      assert IsFiniteSingle(b);
      WidenExact(b);
      RoundNumber(BINARY64, d.mag);
      ZeroUnits(BINARY64);
    }
  }

  lemma ZeroUnits(f: Format)
    ensures Number(f, 0) == 0
  {
    FieldsOf(f, 0, 0);
  }

  lemma Pow2Values()
    ensures Pow2(23) == 0x80_0000
    ensures Pow2(24) == 0x100_0000
    ensures Pow2(52) == 0x10_0000_0000_0000
  {
    assert Pow2(4) == 0x10;
    assert Pow2(8) == 0x100 by { Pow2Add(4, 4); }
    assert Pow2(12) == 0x1000 by { Pow2Add(8, 4); }
    assert Pow2(24) == 0x100_0000 by { Pow2Add(12, 12); }
    assert Pow2(48) == 0x1_0000_0000_0000 by { Pow2Add(24, 24); }
    assert Pow2(52) == 0x10_0000_0000_0000 by { Pow2Add(48, 4); }
  }

  lemma {:induction false} LastPlaceBelow(f: Format, n: nat, k: nat, s: nat)
    requires n < Pow2(k + s) && k <= f.fraction + 1 && f.unit <= s
    ensures LastPlace(f, n) <= s
  {
    if n >= Pow2(f.fraction + f.unit) {
      if Log2(n) >= k + s {
        Pow2Monotone(k + s, Log2(n));
      }
    }
  }

  lemma {:induction false} DivisibleBelow(sig: nat, s: nat, p: nat)
    requires p <= s
    ensures (sig * Pow2(s)) % Pow2(p) == 0
  {
    Pow2Add(s - p, p);
    MulRegroup(sig, Pow2(s - p), Pow2(p));
    DivModUnique(sig * Pow2(s - p), Pow2(p), 0);
  }

  /** A number with at most 24 significant bits, the lowest at place s, has no digit
      below the last place of binary64. */
  lemma {:induction false} FewDigits(sig: nat, s: nat)
    requires sig < Pow2(24)
    ensures var n := sig * Pow2(s); LastPlace(BINARY64, n) <= s && n % Pow2(LastPlace(BINARY64, n)) == 0
  {
    hide Pow2, LastPlace;
    var n := sig * Pow2(s);
    assert n < Pow2(24 + s) by {
      Pow2Add(24, s);
      MulLess(sig, Pow2(24), Pow2(s));
    }
    LastPlaceBelow(BINARY64, n, 24, s);
    DivisibleBelow(sig, s, LastPlace(BINARY64, n));
  }

  lemma {:induction false} PatternBound(n: nat, k: nat)
    requires LastPlace(BINARY64, n) <= k <= 2000
    requires n % Pow2(LastPlace(BINARY64, n)) == 0
    ensures Round(BINARY64, n) < INFINITY64
  {
    var s := LastPlace(BINARY64, n);
    KeptDigits(BINARY64, n);
    Pow2Values();
    TimesAtMost(s, 2000, Pow2(52));
    assert Truncate(BINARY64, n, s) == Times(s, Pow2(52)) + n / Pow2(s);
  }

  lemma TimesAtMost(a: nat, k: nat, b: nat)
    requires a <= k
    ensures Times(a, b) <= Times(k, b)
  {}

  /** Every finite binary32 value is a binary64 value. */
  lemma {:induction false} WidenExact(b: Float)
    requires IsFiniteSingle(b)
    ensures IsFinite(Widen(b)) && Units(Widen(b)) == UnitsSingle(b) && Widen(b).neg == b.neg
  {
    var sig, s := Significand(BINARY32, b.mag), Scale(BINARY32, b.mag);
    SignificandBounds(BINARY32, b.mag);
    Pow2Values();
    FewDigits(sig, s);
    assert s <= 1178;
    PatternBound(UnitsSingle(b), s);
    NumberRound(BINARY64, UnitsSingle(b));
  }

  lemma ExactQuotient(u: nat, o: nat)
    requires o > 0 && u % o == 0
    ensures (u / o) * o == u
    ensures u == 0 <==> u / o == 0
  {}

  lemma {:induction false} WholeUnits(d: Double)
    requires IsFinite(d) && IsIntegral(d)
    ensures Abs(Whole(d)) * One() == Units(d)
    ensures Whole(d) < 0 <==> d.neg && Units(d) != 0
  {
    ExactQuotient(Units(d), One());
  }

  lemma {:induction false} UnitsZero(d: Double)
    requires IsFinite(d)
    ensures Round(BINARY64, Units(d)) == d.mag
    ensures Units(d) == 0 <==> d.mag == 0
  {
    RoundNumber(BINARY64, d.mag);
    ZeroUnits(BINARY64);
    RoundNumber(BINARY64, 0);
  }

  lemma {:induction false} FromUnits(x: int, d: Double)
    requires IsFinite(d) && Abs(x) * One() == Units(d)
    requires x < 0 <==> d.neg && Units(d) != 0
    ensures FromInteger(x) == PositiveZero(d)
  {
    UnitsZero(d);
    var y := FromInteger(x);
    assert y.mag == Round(BINARY64, Units(d));
  }

  lemma {:induction false} FromUnitsSingle(x: int, d: Double)
    requires IsFinite(d) && Abs(x) * One() == Units(d)
    requires x < 0 <==> d.neg && Units(d) != 0
    ensures FromIntegerSingle(x) == Narrow(PositiveZero(d))
  {
    UnitsZero(d);
    ZeroUnits(BINARY64);
    var y := FromIntegerSingle(x);
    assert y.mag == Round(BINARY32, Units(d));
    assert Units(PositiveZero(d)) == Units(d);
  }

  /** An integral double read back from its integer is the same number. */
  lemma {:induction false} WholeExact(d: Double)
    requires IsFinite(d) && IsIntegral(d)
    ensures Abs(Whole(d)) * One() == Units(d)
    ensures FromInteger(Whole(d)) == PositiveZero(d)
    ensures FromIntegerSingle(Whole(d)) == Narrow(PositiveZero(d))
  {
    WholeUnits(d);
    FromUnits(Whole(d), d);
    FromUnitsSingle(Whole(d), d);
  }

  lemma ZeroIsIntegral(d: Double)
    ensures d.mag == 0 ==> IsIntegral(d)
  {
    if d.mag == 0 {
      ZeroUnits(BINARY64);
      hide One, Number;
      DivModUnique(0, One(), 0);
    }
  }

  /** Whatever way a convertible double travels, what comes back is the same double,
      except that a zero has lost its sign. */
  lemma {:induction false} ReadBackDouble(d: Double)
    requires Convertible(d)
    ensures IsIntegral(d) ==> FromInteger(Whole(d)) == PositiveZero(d)
    ensures IsIntegral(d) ==> FromIntegerSingle(Whole(d)) == Narrow(PositiveZero(d))
    ensures !IsIntegral(d) ==> PositiveZero(d) == d
  {
    ZeroIsIntegral(d);
    hide IsIntegral, FromInteger, FromIntegerSingle, Whole, Narrow;
    if IsIntegral(d) {
      WholeExact(d);
    }
  }
}
