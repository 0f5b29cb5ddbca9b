/**
  What the conversions between number types give for every number, also where they lose
  something: to nearest from a double to a float and from an integer to either, and
  towards zero from a double to an integer.
*/
module Conversions {
  import opened Words
  import opened Floats
  import opened Rounding
  import Compact

  // -- To nearest --------------------------------------------------------------------------

  /** No pattern p of the format is closer to n units than pattern r, and of two equally
      close ones r is even. */
  ghost predicate IsNearest(f: Format, r: nat, n: nat) {
    forall p: nat ::
      && Distance(Number(f, r), n) <= Distance(Number(f, p), n)
      && (p != r && Distance(Number(f, r), n) == Distance(Number(f, p), n) ==> r % 2 == 0)
  }

  lemma {:induction false} RoundIsNearest(f: Format, n: nat)
    requires Round(f, n) < f.infinity
    ensures IsNearest(f, Round(f, n), n)
  {
    hide Round, Number;
    forall p: nat
      ensures Distance(Number(f, Round(f, n)), n) <= Distance(Number(f, p), n)
      ensures p != Round(f, n) && Distance(Number(f, Round(f, n)), n) == Distance(Number(f, p), n) ==>
        Round(f, n) % 2 == 0
    {
      RoundNearest(f, n, p);
    }
  }

  /** Narrowing a finite double keeps the sign and gives the nearest float, or infinity
      exactly from half a place beyond the largest finite float on. */
  lemma NarrowNearest(d: Double)
    requires IsFinite(d)
    ensures Narrow(d).neg == d.neg && Narrow(d).mag <= INFINITY32
    ensures IsFiniteSingle(Narrow(d)) ==> IsNearest(BINARY32, Narrow(d).mag, Units(d))
    ensures IsFiniteSingle(Narrow(d)) <==>
            2 * Units(d) < Number(BINARY32, INFINITY32 - 1) + Number(BINARY32, INFINITY32)
  {
    hide Round, Number;
    RoundOverflow(BINARY32, Units(d));
    if IsFiniteSingle(Narrow(d)) {
      RoundIsNearest(BINARY32, Units(d));
    }
  }

  /** Infinities and NaNs stay what they are, and keep their sign, both ways. */
  lemma SpecialsStay(d: Double, b: Float)
    ensures d.mag == INFINITY64 ==> Narrow(d) == Float(d.neg, INFINITY32)
    ensures IsNaN(d) ==> Narrow(d).mag > INFINITY32 && Narrow(d).neg == d.neg
    ensures b.mag == INFINITY32 ==> Widen(b) == Double(b.neg, INFINITY64)
    ensures b.mag > INFINITY32 ==> IsNaN(Widen(b)) && Widen(b).neg == b.neg
  {}

  /** 2^63 is finite in both formats, and not the largest number. */
  lemma {:induction false} TwoTo63Fits()
    ensures Number(BINARY64, 0x43e0_0000_0000_0000) == 0x8000_0000_0000_0000 * One()
    ensures Number(BINARY32, 0x5f00_0000) == 0x8000_0000_0000_0000 * One()
  {
    Pow2Values();
    Compact.Pow2Of63();
    hide Pow2, Number;
    Compact.PowerPattern(BINARY64, 0x43e);
    Compact.PowerPattern(BINARY32, 0xbe);
    Pow2Add(63, 1074);
  }

  lemma {:induction false} BelowLargest(f: Format, p: nat, n: nat)
    requires p + 1 < f.infinity && f.infinity % 2 == 0 && n <= Number(f, p)
    ensures Round(f, n) < f.infinity
  {
    hide Round, Number;
    RoundOverflow(f, n);
    NumberOrdered(f, p, f.infinity - 1);
    NumberOrdered(f, p, f.infinity);
    RoundAtMost(f, n);
  }

  lemma RoundAtMost(f: Format, n: nat)
    ensures Round(f, n) <= f.infinity
  {}

  lemma {:induction false} AtMostTwoTo63(x: int64, o: nat)
    ensures Abs(x) * o <= 0x8000_0000_0000_0000 * o
  {
    MulRest(0x8000_0000_0000_0000 - Abs(x), o);
  }

  lemma MulRest(k: nat, o: nat)
    ensures k * o >= 0
  {}

  /** An integer becomes the nearest double and the nearest float, with its sign. */
  lemma {:induction false} FromIntegerNearest(x: int64)
    ensures var d := FromInteger(x);
      IsFinite(d) && d.neg == (x < 0) && IsNearest(BINARY64, d.mag, Abs(x) * One())
    ensures var b := FromIntegerSingle(x);
      IsFiniteSingle(b) && b.neg == (x < 0) && IsNearest(BINARY32, b.mag, Abs(x) * One())
  {
    hide Round, Number, One, IsNearest;
    TwoTo63Fits();
    var n := Abs(x) * One();
    AtMostTwoTo63(x, One());
    BelowLargest(BINARY64, 0x43e0_0000_0000_0000, n);
    BelowLargest(BINARY32, 0x5f00_0000, n);
    RoundIsNearest(BINARY64, n);
    RoundIsNearest(BINARY32, n);
  }

  // -- Towards zero --------------------------------------------------------------------------

  /** t is x without its fraction. */
  predicate Truncates(x: Double, t: int) {
    && IsFinite(x) && Abs(t) * One() <= Units(x) < (Abs(t) + 1) * One()
    && (t < 0 ==> x.neg) && (t > 0 ==> !x.neg)
  }

  lemma OnePositive()
    ensures One() >= 1
  {}

  lemma QuotientBounds(u: nat, o: nat)
    requires o > 0
    ensures Quotient(u, o) * o <= u < (Quotient(u, o) + 1) * o
  {}

  /** There is exactly one such integer. */
  lemma {:induction false} WholeTruncates(x: Double, t: int)
    requires IsFinite(x)
    ensures Truncates(x, t) <==> t == Whole(x)
  {
    hide One, Units, Quotient;
    OnePositive();
    QuotientBounds(Units(x), One());
    if Truncates(x, t) {
      SameQuotient(Abs(t), Quotient(Units(x), One()), Units(x), One());
    }
  }

  lemma {:induction false} SameQuotient(a: nat, b: nat, u: nat, o: nat)
    requires o > 0 && a * o <= u < (a + 1) * o && b * o <= u < (b + 1) * o
    ensures a == b
  {
    QuotientUnique(a, u - a * o, b, u - b * o, o);
  }

  /** The test for an integral number: some integer is the same number, or the double is
      infinite. A NaN is not. */
  lemma {:induction false} IntegralExactly(x: Double)
    ensures IsFinite(x) ==>
      (IsIntegral(x) <==> exists i: int :: Abs(i) * One() == Units(x) && (i < 0 <==> x.neg && Units(x) != 0))
    ensures x.mag == INFINITY64 ==> IsIntegral(x)
    ensures IsNaN(x) ==> !IsIntegral(x)
  {
    if IsFinite(x) {
      hide IsIntegral, One, Units, Whole;
      if IsIntegral(x) {
        WholeUnits(x);
      }
      if i: int :| Abs(i) * One() == Units(x) && (i < 0 <==> x.neg && Units(x) != 0) {
        Compact.IntegerOfUnits(i, x);
      }
    }
  }

  /** Which doubles can be converted to int64 where the encoder does so: all that are not
      integral, and the integral ones for which some int64 is the same number. */
  lemma ConvertibleExactly(x: Double)
    ensures !IsIntegral(x) ==> Convertible(x)
    ensures IsIntegral(x) ==>
      (Convertible(x) <==> IsFinite(x) && exists i: int64 :: Truncates(x, i))
  {
    hide IsIntegral, Units, One, Whole, Truncates;
    if IsIntegral(x) && IsFinite(x) {
      WholeTruncates(x, Whole(x));
      if Convertible(x) {
        assert Truncates(x, Whole(x));
      }
      if i: int64 :| Truncates(x, i) {
        WholeTruncates(x, i);
      }
    }
  }
}
