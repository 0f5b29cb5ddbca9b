/**
  What one token becomes: as a field of the decoder, and as an argument of the reader of
  pickled formats. Said for every letter and every token, by ranges, congruences, nearest
  numbers and the strings in the bytes.
*/
module Arguments {
  import opened Options
  import opened Words
  import opened Floats
  import opened Wire
  import opened Decoder
  import opened Tokens
  import opened Conversions
  import opened Stdarg
  import FmtParser
  import opened PicklePrint

  // -- The letters -------------------------------------------------------------------------

  /** All letters there are: the writer knows all but G. */
  lemma LettersExactly(c: char)
    ensures Measures(c) <==> c in {'b', 'B', 'w', 'W', 'd', 'D', 'q', 'Q', 'f', 'F', 'G', 's'}
    ensures Encodes(c) <==> Measures(c) && c != 'G'
  {}

  /** Every value of the C type that a letter fetches can be passed for it. */
  lemma AllPassed(i: int32, u: uint32, l: int64, ul: uint64, x: Double, s: seq<byte>)
    ensures forall c :: c in {'b', 'w', 'd'} ==> Matches(c, Int32(i))
    ensures forall c :: c in {'B', 'W', 'D'} ==> Matches(c, UInt32(u))
    ensures Matches('q', Int64(l)) && Matches('Q', UInt64(ul))
    ensures Convertible(x) ==> Matches('f', Float64(x)) && Matches('F', Float64(x)) && Matches('G', LongDouble(x))
    ensures NoNul(s) ==> Matches('s', Text(s))
  {}

  /** The number of values of an integer field, and whether half of them are negative. */
  function Modulus(c: char): nat {
    match c
    case 'b' | 'B' => 0x100
    case 'w' | 'W' => 0x1_0000
    case 'd' | 'D' => 0x1_0000_0000
    case _ => 0x1_0000_0000_0000_0000
  }

  predicate IsWhole(c: char) { c in {'b', 'B', 'w', 'W', 'd', 'D', 'q', 'Q'} }
  predicate IsNegatable(c: char) { c in {'b', 'w', 'd', 'q'} }

  predicate InField(c: char, n: int) {
    if IsNegatable(c) then -(Modulus(c) / 2) <= n < Modulus(c) / 2 else 0 <= n < Modulus(c)
  }

  lemma {:induction false} Congruent(n: int, x: int, modulus: nat)
    requires modulus > 0 && n % modulus == x % modulus
    ensures (n - x) % modulus == 0
  {
    var k := n / modulus - x / modulus;
    assert n - x == k * modulus;
    DivModUnique(k, modulus, 0);
  }

  /** Two numbers of one field that are congruent are the same. */
  lemma {:induction false} OnlyOne(c: char, n: int, t: int)
    requires InField(c, n) && InField(c, t) && (n - t) % Modulus(c) == 0
    ensures n == t
  {
    var k := (n - t) / Modulus(c);
    assert n - t == k * Modulus(c);
    if k > 0 {
      MulAtLeast(k, Modulus(c));
    } else if k < 0 {
      MulAtLeast(-k, Modulus(c));
    }
  }

  lemma CastCongruent(c: char, x: int)
    requires IsWhole(c)
    ensures InField(c, Cast(c, x)) && (Cast(c, x) - x) % Modulus(c) == 0
  {
    ModTwice(x, Modulus(c));
    Congruent(Cast(c, x), x, Modulus(c));
  }

  lemma ModTwice(x: int, modulus: nat)
    requires modulus > 0
    ensures (x % modulus) % modulus == x % modulus
  {
    DivModUnique(0, modulus, x % modulus);
  }

  // -- Fields ------------------------------------------------------------------------------

  /** An integer is stored congruent to itself in the range of the letter. */
  lemma StoredInteger(c: char, i: int64, d: seq<byte>)
    requires IsWhole(c)
    ensures var f := Stored(c, Integer(i), d);
      f.Some? && f.value.Fixed? && InField(c, f.value.n) && (f.value.n - i) % Modulus(c) == 0
  {
    hide Cast, InField, Modulus;
    CastCongruent(c, i);
  }

  /** Of a number the fraction is dropped first. If the rest is in the range of the letter
      it is stored; outside of that C leaves the conversion undefined. */
  lemma StoredReal(c: char, x: Double, t: int, d: seq<byte>)
    requires IsWhole(c) && Truncates(x, t)
    ensures var f := Stored(c, Real(x), d);
      && f.Some? && f.value.Fixed? && InField(c, f.value.n) && (f.value.n - t) % Modulus(c) == 0
      && (InField(c, t) ==> f.value.n == t)
  {
    hide Cast, InField, Modulus, Truncates, Whole;
    Finite(x, t);
    WholeTruncates(x, t);
    CastCongruent(c, t);
    if InField(c, t) {
      OnlyOne(c, Cast(c, t), t);
    }
  }

  lemma Finite(x: Double, t: int)
    requires Truncates(x, t)
    ensures IsFinite(x)
  {}

  /** The float nearest to a number, and infinity for what is beyond all floats. */
  lemma StoredFloat(x: Double, d: seq<byte>) returns (g: Float)
    ensures Stored('f', Real(x), d) == Some(Single(g)) && g.neg == x.neg
    ensures IsNaN(x) <==> g.mag > INFINITY32
    ensures IsFiniteSingle(g) <==>
            IsFinite(x) && 2 * Units(x) < Number(BINARY32, INFINITY32 - 1) + Number(BINARY32, INFINITY32)
    ensures IsFiniteSingle(g) ==> IsNearest(BINARY32, g.mag, Units(x))
  {
    hide Narrow, Number, IsNearest, Widen;
    g := Narrow(x);
    SpecialsStay(x, g);
    if IsFinite(x) {
      NarrowNearest(x);
    }
  }

  /** An integer for a letter of a floating type: the nearest float or double. */
  lemma StoredFromInteger(i: int64, d: seq<byte>) returns (g: Float, y: Double)
    ensures Stored('f', Integer(i), d) == Some(Single(g)) && g.neg == (i < 0) && IsFiniteSingle(g)
    ensures Stored('F', Integer(i), d) == Some(Wide(y)) && y.neg == (i < 0) && IsFinite(y)
    ensures IsNearest(BINARY32, g.mag, Abs(i) * One()) && IsNearest(BINARY64, y.mag, Abs(i) * One())
  {
    hide IsNearest, One, FromInteger, FromIntegerSingle;
    FromIntegerNearest(i);
    g, y := FromIntegerSingle(i), FromInteger(i);
  }

  /** A double for F is stored bit by bit. */
  lemma StoredDouble(x: Double, d: seq<byte>)
    ensures Stored('F', Real(x), d) == Some(Wide(x))
  {}

  /** The C string at a place is the one that ends at the first NUL, or at the end. */
  lemma {:induction false} CStringExactly(d: seq<byte>, at: nat, s: seq<byte>)
    requires at <= |d|
    ensures s == CStringAt(d, at) <==>
            NoNul(s) && Holds(d, at, s) && (at + |s| == |d| || d[at + |s|] == 0)
    decreases |d| - at
  {
    if at < |d| && d[at] != 0 {
      if s != [] {
        CStringExactly(d, at + 1, s[1..]);
        HoldsRest(d, at, s);
        assert s == [s[0]] + s[1..];
      }
    } else {
      assert Holds(d, at, []);
      if s != [] && Holds(d, at, s) {
        assert d[at] == d[at..at + |s|][0];
      }
    }
  }

  lemma HoldsRest(d: seq<byte>, at: nat, s: seq<byte>)
    requires at < |d| && s != []
    ensures Holds(d, at, s) <==> d[at] == s[0] && Holds(d, at + 1, s[1..])
    ensures NoNul(s) <==> s[0] != 0 && NoNul(s[1..])
  {
    if Holds(d, at, s) {
      assert d[at..at + |s|][1..] == d[at + 1..at + |s|];
    }
    if d[at] == s[0] && Holds(d, at + 1, s[1..]) {
      assert d[at..at + |s|] == [d[at]] + d[at + 1..at + |s|];
    }
    assert forall i :: 1 <= i < |s| ==> s[i] == s[1..][i - 1];
  }

  lemma StoredText(start: nat, n: nat, d: seq<byte>)
    ensures Stored('s', Utf8String(start, n), d) == Some(Chars(CStringAt(d, start)))
  {}

  /** Nothing else is stored. */
  lemma StoredOnly(c: char, t: Token, d: seq<byte>)
    ensures Stored(c, t, d).Some? <==>
            if c == 's' then t.Utf8String? else (IsWhole(c) || c in {'f', 'F'}) && (t.Integer? || t.Real?)
  {}

  // -- Arguments ---------------------------------------------------------------------------

  /** The integer an argument is, as its type has it. */
  predicate IsArgument(c: char, a: Arg, n: int) {
    match c
    case 'b' | 'w' | 'd' => a.Int32? && a.i == n
    case 'B' | 'W' | 'D' => a.UInt32? && a.u == n
    case 'q' => a.Int64? && a.l == n
    case 'Q' => a.UInt64? && a.ul == n
    case _ => false
  }

  /** Arguments below int are passed as int: the letter whose range counts. */
  function Promoted(c: char): char {
    match c
    case 'b' | 'w' => 'd'
    case 'B' | 'W' => 'D'
    case _ => c
  }

  lemma {:induction false} BuiltCast(c: char, x: int, t: Token, d: seq<byte>)
    requires IsWhole(c) && ((t.Integer? && t.i == x) || (t.Real? && Whole(t.d) == x))
    ensures Built(c, t, d).Some? && IsArgument(c, Built(c, t, d).value, Cast(Promoted(c), x))
  {
    hide Whole;
    if t.Integer? && c == 'q' {
      SignedOfUnsigned(x, WORD);
    }
  }

  lemma BuiltInteger(c: char, i: int64, d: seq<byte>) returns (n: int)
    requires IsWhole(c)
    ensures Built(c, Integer(i), d).Some? && IsArgument(c, Built(c, Integer(i), d).value, n)
    ensures InField(Promoted(c), n) && (n - i) % Modulus(Promoted(c)) == 0
  {
    hide Cast, InField, Modulus;
    n := Cast(Promoted(c), i);
    BuiltCast(c, i, Integer(i), d);
    CastCongruent(Promoted(c), i);
  }

  lemma BuiltReal(c: char, x: Double, t: int, d: seq<byte>) returns (n: int)
    requires IsWhole(c) && Truncates(x, t)
    ensures Built(c, Real(x), d).Some? && IsArgument(c, Built(c, Real(x), d).value, n)
    ensures InField(Promoted(c), n) && (n - t) % Modulus(Promoted(c)) == 0
    ensures InField(Promoted(c), t) ==> n == t
  {
    hide Cast, InField, Modulus, Truncates, Whole;
    Finite(x, t);
    WholeTruncates(x, t);
    n := Cast(Promoted(c), t);
    BuiltCast(c, t, Real(x), d);
    CastCongruent(Promoted(c), t);
    if InField(Promoted(c), t) {
      OnlyOne(Promoted(c), n, t);
    }
  }

  /** Numbers for the floating types: a double as it is, an integer as the nearest one. */
  lemma BuiltDouble(c: char, x: Double, i: int64, d: seq<byte>) returns (y: Double)
    requires c in {'f', 'F', 'G'}
    ensures Built(c, Real(x), d) == Some(if c == 'G' then LongDouble(x) else Float64(x))
    ensures Built(c, Integer(i), d) == Some(if c == 'G' then LongDouble(y) else Float64(y))
    ensures IsFinite(y) && y.neg == (i < 0) && IsNearest(BINARY64, y.mag, Abs(i) * One())
  {
    hide IsNearest, One, FromInteger;
    FromIntegerNearest(i);
    y := FromInteger(i);
    BuiltNumbers(c, x, i, d);
  }

  lemma BuiltNumbers(c: char, x: Double, i: int64, d: seq<byte>)
    requires c in {'f', 'F', 'G'}
    ensures Built(c, Real(x), d) == Some(if c == 'G' then LongDouble(x) else Float64(x))
    ensures Built(c, Integer(i), d) == Some(if c == 'G' then LongDouble(FromInteger(i)) else Float64(FromInteger(i)))
  {
    hide FromInteger, CStringAt, Whole;
  }

  /** Strings of both kinds are passed by their place, and a null as the text "(NULL)". */
  lemma BuiltText(s: seq<byte>, start: nat, n: nat, d: seq<byte>)
    requires NoNul(s) && Holds(d, start, s) && (start + |s| == |d| || d[start + |s|] == 0)
    ensures Built('s', Utf8String(start, n), d) == Some(Text(s))
    ensures Built('s', BinaryString(start, n), d) == Some(Text(s))
    ensures Built('s', Null, d) == Some(Text([0x28, 0x4e, 0x55, 0x4c, 0x4c, 0x29]))
  {
    hide FromInteger, Whole, SignedWrap, CStringAt;
    CStringExactly(d, start, s);
  }

  /** The format "%s" with the byte string "a", as the extension writes it. */
  lemma BytesArgument(unset: nat)
    ensures var fmt: seq<byte> := ['%' as byte, 's' as byte];
      PickleToVa([0x82] + fmt + [0, 0xa1, 0x61], 0, unset) == Unpickled(Some((fmt, [Text([0x61])])), 6)
  {
    hide TokenAt, CStringAt, Built;
    var fmt: seq<byte> := ['%' as byte, 's' as byte];
    var d := [0x82] + fmt + [0, 0xa1, 0x61];
    assert d == Utf8Bytes(fmt) + BinaryBytes([0x61]);
    assert Holds(d, 0, Utf8Bytes(fmt) + BinaryBytes([0x61]));
    HoldsParts(d, 0, Utf8Bytes(fmt), BinaryBytes([0x61]));
    FormatRead(fmt, d, 0, unset);
    BinaryRead(d, 4, [0x61], unset);
    assert TokenAt(d, 4, unset) == Scan(BinaryString(5, 1), 6);
    BuiltText([0x61], 5, 1, d);
    FmtParser.Two(FmtParser.START, '%' as byte, 's' as byte);
    assert FmtParser.Parse(fmt) == ['s'];
    BuildNothing([], d, 6, unset);
    assert ['s'][1..] == [] && [Text([0x61])] + [] == [Text([0x61])];
    BuildStep(['s'], d, 4, 6, unset, Text([0x61]), ArgList(true, [], 6));
    assert BuildArgs(['s'], d, 4, unset) == ArgList(true, [Text([0x61])], 6);
    var t := TokenAt(d, 0, unset);
    assert t.token.Utf8String? && CStringAt(d, t.token.start) == fmt && t.next == 4;
    hide BuildArgs, FmtParser.Types;
  }

  /** Nothing else becomes an argument. */
  lemma BuiltOnly(c: char, t: Token, d: seq<byte>)
    ensures Built(c, t, d).Some? <==>
            if c == 's' then t.Utf8String? || t.BinaryString? || t.Null?
            else (IsWhole(c) || c in {'f', 'F', 'G'}) && (t.Integer? || t.Real?)
  {
    hide FromInteger, CStringAt, Whole, SignedWrap;
  }
}
