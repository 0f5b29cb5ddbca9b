/**
  Numbers are meant to travel in the shortest form that loses nothing. That is so
  except for the integral values beyond 32 bits that a binary32 holds: they travel
  as a nine-byte integer although the five-byte float form says the same number.
*/
module Compact {
  import opened Words
  import opened Floats
  import opened Wire
  import opened Decoder
  import opened Tokens

  /** The token says the same number as x. */
  predicate Says(t: Token, x: Double) {
    (t.Integer? && IsFinite(x) && Abs(t.i) * One() == Units(x) && (t.i < 0 <==> x.neg && Units(x) != 0)) ||
    (t.Real? && SameNumber(t.d, x))
  }

  /** No bytes that say the same number are shorter than those of the writer. */
  ghost predicate IsShortest(x: Double) {
    forall d: seq<byte>, at: nat :: Says(TokenAt(d, at, 0).token, x) ==> |DoubleBytes(x)| <= TokenAt(d, at, 0).next - at
  }

  predicate LongForItsFloat(x: Double) { IsIntegral(x) && FitsFloat(x) && !Fits32(Whole(x)) }

  lemma {:induction false} IntegerOfUnits(i: int, x: Double)
    requires IsFinite(x) && Abs(i) * One() == Units(x) && (i < 0 <==> x.neg && Units(x) != 0)
    ensures IsIntegral(x) && Whole(x) == i
  {
    DivModUnique(Abs(i), One(), 0);
  }

  lemma BytesOfForm(x: Double)
    requires Convertible(x)
    ensures IsIntegral(x) ==> DoubleBytes(x) == IntegerBytes(Whole(x))
    ensures !IsIntegral(x) ==> |DoubleBytes(x)| == if FitsFloat(x) then 5 else 9
  {
    if IsIntegral(x) {
      SignedOfUnsigned(Whole(x), WORD);
    }
    hide FitsFloat, IsIntegral, Whole;
  }

  lemma IntegerSize(i: int64)
    ensures |IntegerBytes(i)| <= 9 && (Fits32(i) ==> |IntegerBytes(i)| <= 5) && (!Fits32(i) ==> |IntegerBytes(i)| == 9)
  {}

  /** A five-byte float token holds a value that narrowing keeps. */
  lemma FloatTokenFits(b: Float, x: Double)
    requires SameNumber(Widen(b), x)
    ensures FitsFloat(x) || !IsFinite(x)
  {
    if IsFinite(x) {
      assert IsFiniteSingle(b);
      WidenExact(b);
      FitsWhenSame(b, x);
    }
  }

  lemma FitsWhenSame(b: Float, x: Double)
    requires IsFinite(x) && IsFiniteSingle(b) && SameNumber(Widen(b), x)
    requires Units(Widen(b)) == UnitsSingle(b) && Widen(b).neg == b.neg
    ensures FitsFloat(x)
  {
    hide FitsFloat, Widen, UnitsSingle;
    if Widen(b) == x {
      FitsFloatExactly(x);
    } else {
      ZeroFits(x.neg);
    }
  }

  lemma ZeroFits(neg: bool)
    ensures FitsFloat(Double(neg, 0))
  {
    ZeroUnits(BINARY64);
    ZeroUnits(BINARY32);
    hide FitsFloat, Number;
    assert UnitsSingle(Float(neg, 0)) == Units(Double(neg, 0));
    FitsFloatExactly(Double(neg, 0));
  }

  lemma FloatTokenSize(d: seq<byte>, at: nat)
    requires TokenAt(d, at, 0).token.Real?
    ensures at < |d| && d[at] in {0x41, 0x42}
    ensures TokenAt(d, at, 0).next - at == if d[at] == 0x42 then 5 else 9
    ensures d[at] == 0x42 ==> at + 5 <= |d| && TokenAt(d, at, 0).token.d == Widen(FloatAt(d, at + 1))
  {
    hide Widen;
  }

  lemma ShortestReal(x: Double, d: seq<byte>, at: nat)
    requires Convertible(x) && IsFinite(x) && !LongForItsFloat(x)
    requires TokenAt(d, at, 0).token.Real? && SameNumber(TokenAt(d, at, 0).token.d, x)
    ensures |DoubleBytes(x)| <= TokenAt(d, at, 0).next - at
  {
    hide TokenAt, DoubleBytes, Widen, FitsFloat, IsIntegral, Whole, SameNumber, IntegerBytes, Fits32;
    BytesOfForm(x);
    FloatTokenSize(d, at);
    if IsIntegral(x) {
      IntegerSize(Whole(x));
    }
    if d[at] == 0x42 {
      FloatTokenFits(FloatAt(d, at + 1), x);
    }
  }

  lemma ShortestInteger(x: Double, d: seq<byte>, at: nat)
    requires Convertible(x) && TokenAt(d, at, 0).token.Integer? && Says(TokenAt(d, at, 0).token, x)
    ensures |DoubleBytes(x)| <= TokenAt(d, at, 0).next - at
  {
    hide TokenAt, DoubleBytes, IsIntegral, Whole, IntegerBytes;
    var t := TokenAt(d, at, 0);
    IntegerOfUnits(t.token.i, x);
    BytesOfForm(x);
    ShortestForm(d, at, 0);
  }

  lemma FloatToken(d: seq<byte>, at: nat, b: Float)
    requires at + 5 <= |d| && d[at] == 0x42 && FloatAt(d, at + 1) == b
    ensures TokenAt(d, at, 0) == Scan(Real(Widen(b)), at + 5)
  {
    hide Widen, FloatAt;
  }

  /** The float form of a value that narrowing keeps. */
  lemma FloatFormSays(x: Double)
    requires FitsFloat(x) && IsFinite(x)
    ensures var e := [0x42 as byte] + BigEndian(FloatBits(Narrow(x)), 4);
      TokenAt(e, 0, 0).token.Real? && SameNumber(TokenAt(e, 0, 0).token.d, x) && TokenAt(e, 0, 0).next == 5
  {
    hide Narrow, Widen, TokenAt, FitsFloat, FloatAt;
    var e := [0x42 as byte] + BigEndian(FloatBits(Narrow(x)), 4);
    assert Holds(e, 0, e);
    FloatFieldRead(e, 0, Narrow(x));
    FloatToken(e, 0, Narrow(x));
    FitsFloatExactly(x);
  }

  /** The writer's form of a finite number is the shortest exactly when the number is
      not one of those. */
  lemma {:induction false} ShortestExactly(x: Double)
    requires IsFinite(x) && Convertible(x)
    ensures IsShortest(x) <==> !LongForItsFloat(x)
  {
    hide TokenAt, DoubleBytes, Narrow, FitsFloat, IsIntegral, Whole, SameNumber, IntegerBytes, Fits32;
    if LongForItsFloat(x) {
      var e := [0x42 as byte] + BigEndian(FloatBits(Narrow(x)), 4);
      FloatFormSays(x);
      BytesOfForm(x);
      IntegerSize(Whole(x));
      assert Says(TokenAt(e, 0, 0).token, x);
    } else {
      forall d: seq<byte>, at: nat | Says(TokenAt(d, at, 0).token, x)
        ensures |DoubleBytes(x)| <= TokenAt(d, at, 0).next - at
      {
        if TokenAt(d, at, 0).token.Integer? {
          ShortestInteger(x, d, at);
        } else {
          ShortestReal(x, d, at);
        }
      }
    }
  }

  /** A pattern with an empty fraction is a power of two. */
  lemma {:induction false} PowerPattern(f: Format, e: nat)
    requires e >= 1
    ensures Number(f, Times(e, Pow2(f.fraction))) == Pow2(f.fraction + (f.unit + e - 1))
  {
    FieldsOf(f, e, 0);
    hide Pow2, Exponent, Fraction;
    Pow2Add(f.fraction, f.unit + e - 1);
  }

  lemma Pow2Of32()
    ensures Pow2(32) == 0x1_0000_0000
  {
    Pow2Values();
    assert Pow2(8) == 0x100;
    Pow2Add(24, 8);
  }

  lemma {:induction false} UnitsOfTwoTo32()
    ensures Number(BINARY64, 0x41f0_0000_0000_0000) == 0x1_0000_0000 * One()
    ensures Number(BINARY32, 0x4f80_0000) == 0x1_0000_0000 * One()
  {
    Pow2Values();
    Pow2Of32();
    hide Pow2, Number;
    PowerPattern(BINARY64, 0x41f);
    PowerPattern(BINARY32, 0x9f);
    Pow2Add(32, 1074);
  }

  /** 2^32 is such a number. */
  lemma {:induction false} TwoTo32()
    ensures var x := Double(false, 0x41f0_0000_0000_0000); Whole(x) == 0x1_0000_0000 && LongForItsFloat(x)
  {
    hide Pow2, Number, FitsFloat, IsIntegral, Whole, One;
    var x := Double(false, 0x41f0_0000_0000_0000);
    var b := Float(false, 0x4f80_0000);
    UnitsOfTwoTo32();
    assert UnitsSingle(b) == Units(x);
    IntegerOfUnits(0x1_0000_0000, x);
    FitsFloatExactly(x);
  }

  // -- What the integer form can say ------------------------------------------------------

  /** The form that an integral number takes can say it exactly if it is convertible. */
  lemma IntegerFormExactly(x: Double)
    requires IsIntegral(x)
    ensures (exists i: int64 :: Says(Integer(i), x)) <==> Convertible(x)
  {
    hide IsIntegral, Units, One, Whole;
    if Convertible(x) {
      hide Convertible;
      ConvertibleFinite(x);
      WholeUnits(x);
      assert Says(Integer(Whole(x)), x);
    }
    if i: int64 :| Says(Integer(i), x) {
      IntegerOfUnits(i, x);
    }
  }

  lemma ConvertibleFinite(x: Double)
    requires Convertible(x) && IsIntegral(x)
    ensures IsFinite(x) && -0x8000_0000_0000_0000 <= Whole(x) < 0x8000_0000_0000_0000
  {}

  lemma Pow2Of63()
    ensures Pow2(63) == 0x8000_0000_0000_0000
  {
    Pow2Of32();
    Pow2Values();
    assert Pow2(31) == 0x8000_0000;
    Pow2Add(32, 31);
  }

  /** 2^63 is an integral number that is not. */
  lemma {:induction false} TwoTo63()
    ensures var x := Double(false, 0x43e0_0000_0000_0000);
      IsIntegral(x) && Whole(x) == 0x8000_0000_0000_0000 && !Convertible(x)
  {
    hide Pow2, Number, IsIntegral, Whole, One;
    var x := Double(false, 0x43e0_0000_0000_0000);
    UnitsOfTwoTo63();
    IntegerOfUnits(0x8000_0000_0000_0000, x);
  }

  lemma {:induction false} UnitsOfTwoTo63()
    ensures Number(BINARY64, 0x43e0_0000_0000_0000) == 0x8000_0000_0000_0000 * One()
  {
    Pow2Values();
    Pow2Of63();
    hide Pow2, Number;
    PowerPattern(BINARY64, 0x43e);
    Pow2Add(63, 1074);
  }
}
