/**
  Encoding and decoding driven by a string of type letters. A variable argument
  list is a sequence of typed values; the fields a decoder writes through its
  output pointers are a sequence in the same order, and a returned string pointer
  is the string it points at.
*/
module Stdarg {
  import opened Options
  import opened Words
  import opened Floats
  import opened Buffers
  import opened Wire
  import opened Decoder
  import opened Encoder
  import opened Tokens
  import Length

  /** Arguments as the caller passes them, after the default promotions. A long
      double is given by the double it is converted to. */
  datatype Arg =
    | Int32(i: int32)
    | UInt32(u: uint32)
    | Int64(l: int64)
    | UInt64(ul: uint64)
    | Float64(d: Double)
    | LongDouble(x: Double)
    | Text(s: seq<byte>)

  datatype Field =
    | Fixed(n: int)
    | Single(f: Float)
    | Wide(d: Double)
    | Chars(s: seq<byte>)

  predicate NoNul(s: seq<byte>) { forall i :: 0 <= i < |s| ==> s[i] != 0 }

  predicate FetchesInt32(c: char) { c == 'b' || c == 'w' || c == 'd' }
  predicate FetchesUInt32(c: char) { c == 'B' || c == 'W' || c == 'D' }
  predicate FetchesInteger(c: char) { FetchesInt32(c) || FetchesUInt32(c) || c == 'q' || c == 'Q' }
  predicate FetchesDouble(c: char) { c == 'f' || c == 'F' }

  /** The letters the writer knows; the measuring pass also knows G. */
  predicate Encodes(c: char) { FetchesInteger(c) || FetchesDouble(c) || c == 's' }
  predicate Measures(c: char) { Encodes(c) || c == 'G' }

  /** The argument has the type that letter c fetches. */
  predicate Matches(c: char, a: Arg) {
    match a
    case Int32(_) => FetchesInt32(c)
    case UInt32(_) => FetchesUInt32(c)
    case Int64(_) => c == 'q'
    case UInt64(_) => c == 'Q'
    case Float64(d) => FetchesDouble(c) && Convertible(d)
    case LongDouble(x) => c == 'G' && Convertible(x)
    case Text(s) => c == 's' && NoNul(s)
  }

  /** Arguments of the right types are there for all letters up to an unknown one;
      further arguments are ignored. */
  predicate WellTyped(types: string, args: seq<Arg>) {
    types == [] || !Measures(types[0]) ||
    (args != [] && Matches(types[0], args[0]) && WellTyped(types[1..], args[1..]))
  }

  // -- One argument ------------------------------------------------------------------

  function ArgLength(a: Arg): nat {
    match a
    case Int32(i) => Length.Integer(i)
    case UInt32(u) => Length.Integer(u)
    case Int64(l) => Length.Integer(l)
    case UInt64(ul) => Length.Integer(SignedWrap(ul, WORD))
    case Float64(d) => Length.Real(d)
    case LongDouble(x) => Length.Real(x)
    case Text(s) => Length.Utf8String(|s|)
  }

  /** The writer has no case for a long double. */
  function ArgBytes(a: Arg): seq<byte> {
    match a
    case LongDouble(_) => []
    case Int32(i) => IntegerBytes(i)
    case UInt32(u) => IntegerBytes(u)
    case Int64(l) => IntegerBytes(l)
    case UInt64(ul) => IntegerBytes(SignedWrap(ul, WORD))
    case Float64(d) => DoubleBytes(d)
    case Text(s) => Utf8Bytes(s)
  }

  predicate TextFits(a: Arg) { a.Text? ==> |a.s| < 0x1_0000_0000 }

  lemma ArgMeasured(a: Arg)
    requires !a.LongDouble?
    ensures |ArgBytes(a)| <= ArgLength(a)
    ensures |ArgBytes(a)| == ArgLength(a) <==> TextFits(a)
  {}

  // -- All arguments -----------------------------------------------------------------

  /** None stands for the result -1. (Missing arguments, which WellTyped rules out,
      are treated like an unknown letter throughout.) */
  function MeasureArgs(types: string, args: seq<Arg>): Option<nat> {
    if types == [] then Some(0)
    else if !Measures(types[0]) || args == [] then None
    else
      var rest := MeasureArgs(types[1..], args[1..]);
      if rest.None? then None else Some(ArgLength(args[0]) + rest.value)
  }

  /** Not ok stands for the result -1; what was written up to then stays. */
  datatype Written = Written(ok: bool, bytes: seq<byte>)

  function EncodeArgs(types: string, args: seq<Arg>): Written {
    if types == [] then Written(true, [])
    else if !Encodes(types[0]) || args == [] then Written(false, [])
    else
      var rest := EncodeArgs(types[1..], args[1..]);
      Written(rest.ok, ArgBytes(args[0]) + rest.bytes)
  }

  /** Every argument that is used and is a string has a size below 2^32. */
  predicate TextsFit(types: string, args: seq<Arg>) {
    types == [] || !Measures(types[0]) || args == [] || (TextFits(args[0]) && TextsFit(types[1..], args[1..]))
  }

  /** The measuring pass accepts exactly the letters of the writer and G. */
  lemma {:induction false} Accepted(types: string, args: seq<Arg>)
    requires WellTyped(types, args)
    ensures MeasureArgs(types, args).Some? <==> forall i :: 0 <= i < |types| ==> Measures(types[i])
    ensures EncodeArgs(types, args).ok <==> forall i :: 0 <= i < |types| ==> Encodes(types[i])
  {
    if types == [] {
    } else if Measures(types[0]) {
      hide ArgBytes, ArgLength, Matches;
      Accepted(types[1..], args[1..]);
      assert forall i :: 1 <= i < |types| ==> types[i] == types[1..][i - 1];
    }
  }

  /** What is written are the arguments in front of the first letter the writer does not
      know. */
  lemma {:induction false} WrittenUpTo(types: string, args: seq<Arg>, n: nat)
    requires WellTyped(types, args) && n <= |types| && (forall i :: 0 <= i < n ==> Encodes(types[i]))
    requires n < |types| ==> !Encodes(types[n])
    ensures n <= |args|
    ensures EncodeArgs(types, args) == Written(n == |types|, EncodeArgs(types[..n], args[..n]).bytes)
    decreases |types|
  {
    hide Encodes, ArgBytes, Matches;
    LettersMeasured(types);
    if n > 0 {
      assert forall i :: 0 <= i < n - 1 ==> types[1..][i] == types[i + 1];
      WrittenUpTo(types[1..], args[1..], n - 1);
      assert types[..n][1..] == types[1..][..n - 1] && args[..n][1..] == args[1..][..n - 1];
    }
  }

  lemma LettersMeasured(types: string)
    ensures forall i :: 0 <= i < |types| && Encodes(types[i]) ==> Measures(types[i])
  {}

  /** What is measured is never too little, and it is exactly what is written when
      and only when no letter is G and every string size fits 32 bits. */
  lemma {:induction false} ArgsMeasured(types: string, args: seq<Arg>)
    requires WellTyped(types, args) && MeasureArgs(types, args).Some?
    ensures |EncodeArgs(types, args).bytes| <= MeasureArgs(types, args).value
    ensures |EncodeArgs(types, args).bytes| == MeasureArgs(types, args).value <==>
            EncodeArgs(types, args).ok && TextsFit(types, args)
  {
    if types == [] {
    } else if types[0] == 'G' {
      assert ArgLength(args[0]) > 0;
    } else {
      hide ArgBytes, ArgLength;
      ArgMeasured(args[0]);
      ArgsMeasured(types[1..], args[1..]);
    }
  }

  // -- Decoding ------------------------------------------------------------------------

  /** The C string that begins at position at. */
  function CStringAt(d: seq<byte>, at: nat): (s: seq<byte>)
    ensures NoNul(s)
    decreases |d| - at
  {
    if at >= |d| || d[at] == 0 then [] else [d[at]] + CStringAt(d, at + 1)
  }

  lemma {:induction false} CStringRead(d: seq<byte>, at: nat, s: seq<byte>)
    requires NoNul(s) && Holds(d, at, s + [0])
    ensures CStringAt(d, at) == s
    decreases s
  {
    assert forall i :: 0 <= i <= |s| ==> d[at + i] == (s + [0])[i];
    if s == [] {
    } else {
      assert Holds(d, at + 1, s[1..] + [0]);
      CStringRead(d, at + 1, s[1..]);
    }
  }

  /** The conversion of an assignment to the fixed-width field of letter c. */
  function Cast(c: char, x: int): int {
    match c
    case 'b' => SignedWrap(x, 0x100)
    case 'B' => x % 0x100
    case 'w' => SignedWrap(x, 0x1_0000)
    case 'W' => x % 0x1_0000
    case 'd' => SignedWrap(x, 0x1_0000_0000)
    case 'D' => x % 0x1_0000_0000
    case 'q' => SignedWrap(x, WORD)
    case _ => x % WORD
  }

  /** What one token is stored as; None stands for a token of the wrong type or an
      unknown letter. */
  function Stored(c: char, t: Token, d: seq<byte>): Option<Field> {
    if FetchesInteger(c) then
      match t
      case Integer(i) => Some(Fixed(Cast(c, i)))
      case Real(x) => Some(Fixed(Cast(c, Whole(x))))
      case _ => None
    else if c == 'f' then
      match t
      case Integer(i) => Some(Single(FromIntegerSingle(i)))
      case Real(x) => Some(Single(Narrow(x)))
      case _ => None
    else if c == 'F' then
      match t
      case Integer(i) => Some(Wide(FromInteger(i)))
      case Real(x) => Some(Wide(x))
      case _ => None
    else if c == 's' then
      match t
      case Utf8String(start, _) => Some(Chars(CStringAt(d, start)))
      case _ => None
    else None
  }

  datatype Fetched = Fetched(ok: bool, fields: seq<Field>, next: nat)

  function DecodeArgs(types: string, d: seq<byte>, at: nat, unset: nat): Fetched
    decreases |types|
  {
    if types == [] then Fetched(true, [], at)
    else
      var t := TokenAt(d, at, unset);
      var f := Stored(types[0], t.token, d);
      if f.None? then Fetched(false, [], t.next)
      else
        var rest := DecodeArgs(types[1..], d, t.next, unset);
        Fetched(rest.ok, [f.value] + rest.fields, rest.next)
  }

  // -- Round trip ------------------------------------------------------------------------

  /** The field an argument arrives in: an integer at the width of its letter, a
      number without the sign of zero, a string cut to 32 bits of size. */
  function Arrives(c: char, a: Arg): Field {
    match a
    case LongDouble(x) => Wide(x)
    case Int32(i) => Fixed(Cast(c, i))
    case UInt32(u) => Fixed(Cast(c, u))
    case Int64(l) => Fixed(l)
    case UInt64(ul) => Fixed(ul)
    case Float64(d) => if c == 'f' then Single(Narrow(PositiveZero(d))) else Wide(PositiveZero(d))
    case Text(s) => Chars(s[..Cut(|s|)])
  }

  function ArriveAll(types: string, args: seq<Arg>): (r: seq<Field>)
    ensures |args| >= |types| ==> |r| == |types|
  {
    if types == [] || args == [] then [] else [Arrives(types[0], args[0])] + ArriveAll(types[1..], args[1..])
  }

  lemma DoubleArrives(c: char, x: Double, d: seq<byte>)
    requires FetchesDouble(c) && Convertible(x)
    ensures Stored(c, DoubleToken(x), d) == Some(Arrives(c, Float64(x)))
  {
    hide Convertible, Narrow, FromInteger, FromIntegerSingle, Whole, IsIntegral, PositiveZero;
    ReadBackDouble(x);
  }

  lemma UnsignedCast(x: uint64)
    ensures SignedWrap(x, WORD) % WORD == x
  {
    DivModUnique(0, WORD, x);
  }

  lemma ArgRead(c: char, a: Arg, d: seq<byte>, at: nat, unset: nat)
    requires Encodes(c) && Matches(c, a) && Holds(d, at, ArgBytes(a))
    ensures var t := TokenAt(d, at, unset);
      t.next == at + |ArgBytes(a)| && Stored(c, t.token, d) == Some(Arrives(c, a))
  {
    hide TokenAt, IntegerBytes, DoubleBytes, Narrow, FromInteger, FromIntegerSingle, Convertible, Whole, IsIntegral,
         PositiveZero, CompoundBytes, CStringAt;
    match a
    case Int32(i) => IntegerRead(d, at, i, unset);
    case UInt32(u) => IntegerRead(d, at, u, unset);
    case Int64(l) => IntegerRead(d, at, l, unset); SignedOfUnsigned(l, WORD);
    case UInt64(ul) => IntegerRead(d, at, SignedWrap(ul, WORD), unset); UnsignedCast(ul);
    case Float64(x) => DoubleRead(d, at, x, unset); DoubleArrives(c, x, d);
    case Text(s) => TextArrives(s, d, at, unset);
  }

  lemma TextArrives(s: seq<byte>, d: seq<byte>, at: nat, unset: nat)
    requires NoNul(s) && Holds(d, at, Utf8Bytes(s))
    ensures var t := TokenAt(d, at, unset);
      && t.token.Utf8String? && t.next == at + |Utf8Bytes(s)|
      && CStringAt(d, t.token.start) == s[..Cut(|s|)]
  {
    hide TokenAt;
    Utf8Read(d, at, s, unset);
    CStringRead(d, TokenAt(d, at, unset).token.start, s[..Cut(|s|)]);
  }

  lemma NoFields(types: string, d: seq<byte>, at: nat, unset: nat)
    requires types == []
    ensures DecodeArgs(types, d, at, unset) == Fetched(true, [], at)
  {}

  lemma FetchStep(types: string, d: seq<byte>, at: nat, mid: nat, unset: nat, f: Field, rest: Fetched)
    requires types != []
    requires TokenAt(d, at, unset).next == mid && Stored(types[0], TokenAt(d, at, unset).token, d) == Some(f)
    requires rest == DecodeArgs(types[1..], d, mid, unset)
    ensures DecodeArgs(types, d, at, unset) == Fetched(rest.ok, [f] + rest.fields, rest.next)
  {
    hide TokenAt, Stored;
  }

  lemma ArgsParts(types: string, args: seq<Arg>, d: seq<byte>, at: nat)
    requires types != [] && args != [] && Encodes(types[0])
    requires Holds(d, at, EncodeArgs(types, args).bytes)
    ensures var rest := EncodeArgs(types[1..], args[1..]).bytes;
      && Holds(d, at, ArgBytes(args[0]))
      && Holds(d, at + |ArgBytes(args[0])|, rest)
      && |EncodeArgs(types, args).bytes| == |ArgBytes(args[0])| + |rest|
  {
    hide ArgBytes, Holds;
    HoldsParts(d, at, ArgBytes(args[0]), EncodeArgs(types[1..], args[1..]).bytes);
  }

  /** Encoding and then decoding with the same letters succeeds, consumes exactly
      what was written and delivers every argument. */
  lemma {:induction false} ArgsRoundTrip(types: string, args: seq<Arg>, d: seq<byte>, at: nat, unset: nat)
    requires WellTyped(types, args) && forall i :: 0 <= i < |types| ==> Encodes(types[i])
    requires Holds(d, at, EncodeArgs(types, args).bytes)
    ensures DecodeArgs(types, d, at, unset)
         == Fetched(true, ArriveAll(types, args), at + |EncodeArgs(types, args).bytes|)
    decreases |types|
  {
    hide ArgBytes, Stored, Arrives, TokenAt, EncodeArgs, DecodeArgs, Matches, Holds;
    if types == [] {
      NoArgs(types, args);
      NoFields(types, d, at, unset);
    } else {
      ArgsParts(types, args, d, at);
      var mid := at + |ArgBytes(args[0])|;
      ArgRead(types[0], args[0], d, at, unset);
      ArgsRoundTrip(types[1..], args[1..], d, mid, unset);
      FetchStep(types, d, at, mid, unset, Arrives(types[0], args[0]), DecodeArgs(types[1..], d, mid, unset));
    }
  }

  /** The range of the fields of letter c. */
  predicate InRange(c: char, x: int) {
    match c
    case 'b' => -0x80 <= x < 0x80
    case 'B' => 0 <= x < 0x100
    case 'w' => -0x8000 <= x < 0x8000
    case 'W' => 0 <= x < 0x1_0000
    case _ => true
  }

  /** The field holds the argument: a float field holds the double it widens to. */
  predicate Delivers(f: Field, a: Arg) {
    match f
    case Fixed(n) =>
      (a.Int32? && a.i == n) || (a.UInt32? && a.u == n) || (a.Int64? && a.l == n) || (a.UInt64? && a.ul == n)
    case Single(g) => a == Float64(Widen(g))
    case Wide(d) => a == Float64(d) || a == LongDouble(d)
    case Chars(s) => a == Text(s)
  }

  /** An integer in the range of its letter, a number other than the negative zero which
      the conversion to float and back keeps if its letter asks for a float, a string
      whose size fits 32 bits. */
  predicate Kept(c: char, a: Arg) {
    match a
    case Int32(i) => InRange(c, i)
    case UInt32(u) => InRange(c, u)
    case Float64(d) => d != Double(true, 0) && (c == 'f' ==> Widen(Narrow(d)) == d)
    case Text(s) => |s| < 0x1_0000_0000
    case _ => true
  }

  /** For numbers that is the caller's test (double)(float)x == x. */
  lemma KeptNumber(x: Double)
    requires !IsNaN(x)
    ensures Kept('f', Float64(x)) <==> x != Double(true, 0) && FitsFloat(x)
  {
    hide Round, Units;
  }

  lemma DeliversExactly(c: char, a: Arg)
    requires Encodes(c) && Matches(c, a)
    ensures Delivers(Arrives(c, a), a) <==> Kept(c, a)
  {
    hide Round, Units, Convertible, SignedWrap;
    if a.Int32? {
      SignedCast(c, a.i);
    }
  }

  lemma {:induction false} EnoughArgs(types: string, args: seq<Arg>)
    requires WellTyped(types, args) && forall i :: 0 <= i < |types| ==> Measures(types[i])
    ensures |args| >= |types|
  {
    hide Measures, Matches;
    if types != [] {
      EnoughArgs(types[1..], args[1..]);
    }
  }

  lemma {:induction false} AllDelivered(types: string, args: seq<Arg>)
    requires WellTyped(types, args) && forall i :: 0 <= i < |types| ==> Encodes(types[i])
    ensures |args| >= |types| == |ArriveAll(types, args)|
    ensures (forall i :: 0 <= i < |types| ==> Delivers(ArriveAll(types, args)[i], args[i])) <==>
            forall i :: 0 <= i < |types| ==> Kept(types[i], args[i])
  {
    hide Arrives, Delivers, Kept, Matches, Encodes;
    EnoughArgs(types, args);
    if types != [] {
      DeliversExactly(types[0], args[0]);
      var rest := ArriveAll(types[1..], args[1..]);
      AllDelivered(types[1..], args[1..]);
      assert forall i :: 1 <= i < |types| ==>
        types[i] == types[1..][i - 1] && args[i] == args[1..][i - 1] && ArriveAll(types, args)[i] == rest[i - 1];
      assert forall i :: 0 <= i < |rest| ==>
        types[1..][i] == types[i + 1] && args[1..][i] == args[i + 1] && rest[i] == ArriveAll(types, args)[i + 1];
    }
  }

  /** Decoding with the same letters always fills all fields, and they hold the same
      arguments exactly when every one of them is kept. */
  lemma ArgsRoundTripExactly(types: string, args: seq<Arg>, d: seq<byte>, at: nat, unset: nat)
    requires WellTyped(types, args) && forall i :: 0 <= i < |types| ==> Encodes(types[i])
    requires Holds(d, at, EncodeArgs(types, args).bytes)
    ensures var r := DecodeArgs(types, d, at, unset);
      && r.ok && |args| >= |types| == |r.fields| && r.next == at + |EncodeArgs(types, args).bytes|
      && ((forall i :: 0 <= i < |types| ==> Delivers(r.fields[i], args[i])) <==>
          forall i :: 0 <= i < |types| ==> Kept(types[i], args[i]))
  {
    hide DecodeArgs, EncodeArgs, ArriveAll, Delivers, WellTyped, Encodes, Kept, Holds;
    ArgsRoundTrip(types, args, d, at, unset);
    AllDelivered(types, args);
  }

  /** The smallest positive double passed for the letter f arrives as zero. */
  lemma SmallDouble(unset: nat)
    ensures var args := [Float64(Double(false, 1))]; var r := EncodeArgs(['f'], args);
      && WellTyped(['f'], args) && r.ok
      && DecodeArgs(['f'], r.bytes, 0, unset) == Fetched(true, [Single(Float(false, 0))], |r.bytes|)
  {
    hide TokenAt, DoubleBytes, DecodeArgs, Narrow, Convertible;
    var types, args := ['f'], [Float64(Double(false, 1))];
    assert types[1..] == [] && args[1..] == [];
    SmallestNumber();
    assert WellTyped(types, args) && EncodeArgs(types, args).ok;
    assert ArriveAll(types, args) == [Single(Float(false, 0))];
    var d := EncodeArgs(types, args).bytes;
    assert Holds(d, 0, d);
    ArgsRoundTrip(types, args, d, 0, unset);
  }

  lemma SmallestNumber()
    ensures Convertible(Double(false, 1)) && Narrow(Double(false, 1)) == Float(false, 0)
  {
    hide Pow2, Number;
    SmallestUnits(BINARY64);
    PowZero();
    Pow2Grows(925);
    Pow2Grows(1074);
    assert Units(Double(false, 1)) == 1;
    RoundSmall();
    DivModUnique(0, One(), 1);
  }

  lemma PowZero()
    ensures Pow2(0) == 1
  {}

  lemma {:induction false} Pow2Grows(k: nat)
    requires k >= 2
    ensures Pow2(k) > 2
  {
    Pow2Monotone(2, k);
  }

  /** The pattern 1 is the smallest positive number of its format. */
  lemma SmallestUnits(f: Format)
    requires f.fraction >= 2
    ensures Number(f, 1) == Pow2(f.unit)
  {
    Pow2Grows(f.fraction);
    hide Pow2, Significand, Scale;
    SignificandOf(f, 0, 1);
    assert Times(0, Pow2(f.fraction)) + 1 == 1;
  }

  lemma RoundSmall()
    ensures Round(BINARY32, 1) == 0
  {
    Pow2Grows(925);
    Pow2Grows(948);
    hide Pow2;
    DivModUnique(0, Pow2(925), 1);
    assert LastPlace(BINARY32, 1) == 925;
    assert Truncate(BINARY32, 1, 925) == 0;
  }

  /** 200 passed for the letter b arrives as -56, although it is sent as 200. */
  lemma WideByte(unset: nat)
    ensures EncodeArgs(['b'], [Int32(200)]) == Written(true, [0x45, 0, 200])
    ensures DecodeArgs(['b'], [0x45, 0, 200], 0, unset) == Fetched(true, [Fixed(-56)], 3)
  {
    hide TokenAt;
    var types, args, d: seq<byte> := ['b'], [Int32(200)], [0x45, 0, 200];
    assert types[1..] == [] && args[1..] == [];
    assert BigEndian(200, 1) == [200] && BigEndian(200, 2) == [0, 200];
    assert IntegerBytes(200) == d;
    assert EncodeArgs(types, args) == Written(true, d);
    assert Holds(d, 0, d);
    ArgsRoundTrip(types, args, d, 0, unset);
    assert ArriveAll(types, args) == [Fixed(-56)];
  }

  /** A long double is measured but never written. */
  lemma LongDoubleUnwritten(x: Double)
    requires Convertible(x)
    ensures MeasureArgs(['G'], [LongDouble(x)]) == Some(Length.Real(x)) && Length.Real(x) > 0
    ensures EncodeArgs(['G'], [LongDouble(x)]) == Written(false, [])
  {
    hide Length.Real, Convertible, DoubleBytes;
    var types, args := ['G'], [LongDouble(x)];
    assert types[1..] == [] && args[1..] == [];
    assert MeasureArgs([], []) == Some(0) && Length.Real(x) > 0;
  }

  // -- Which messages a string of letters takes --------------------------------------------

  /** A letter takes numbers in either form, or a UTF-8 string. */
  predicate Takes(c: char, t: Token) {
    if c == 's' then t.Utf8String?
    else (FetchesInteger(c) || FetchesDouble(c)) && (t.Integer? || t.Real?)
  }

  lemma StoredTakes(c: char, t: Token, d: seq<byte>)
    ensures Stored(c, t, d).Some? <==> Takes(c, t)
  {}

  /** Decoding arbitrary bytes succeeds exactly if every letter takes its token. Else it
      ends behind the first token that is not taken, with the fields before it stored. */
  lemma {:induction false} DecodesExactly(types: string, d: seq<byte>, at: nat, unset: nat)
    ensures var r := DecodeArgs(types, d, at, unset); var n := |r.fields|;
      && (r.ok <==> forall i :: 0 <= i < |types| ==> Takes(types[i], Nth(d, at, i, unset)))
      && n <= |types| && (r.ok <==> n == |types|)
      && (forall i :: 0 <= i < n ==>
            && Takes(types[i], Nth(d, at, i, unset))
            && Stored(types[i], Nth(d, at, i, unset), d) == Some(r.fields[i]))
      && (n < |types| ==> !Takes(types[n], Nth(d, at, n, unset)))
      && r.next == Place(d, at, if r.ok then n else n + 1, unset)
    decreases |types|
  {
    hide TokenAt, Stored, Takes;
    if types != [] {
      var t := TokenAt(d, at, unset);
      assert t.token == Nth(d, at, 0, unset);
      StoredTakes(types[0], t.token, d);
      if Takes(types[0], t.token) {
        var rest := types[1..];
        DecodesExactly(rest, d, t.next, unset);
        assert forall i :: 0 <= i < |rest| ==>
          rest[i] == types[i + 1] && Nth(d, t.next, i, unset) == Nth(d, at, i + 1, unset);
        assert forall i :: 1 <= i < |types| ==>
          types[i] == rest[i - 1] && Nth(d, t.next, i - 1, unset) == Nth(d, at, i, unset);
      }
    }
  }

  /** An integral number is stored alike in whichever of the two forms it arrives. */
  lemma StoredAlike(c: char, x: Double, d: seq<byte>)
    requires Convertible(x) && IsIntegral(x)
    ensures FetchesInteger(c) ==> Stored(c, Real(x), d) == Stored(c, Integer(Whole(x)), d)
    ensures FetchesDouble(c) && x != Double(true, 0) ==> Stored(c, Real(x), d) == Stored(c, Integer(Whole(x)), d)
  {
    hide Convertible, Narrow, FromInteger, FromIntegerSingle, Whole, IsIntegral, Cast;
    ReadBackDouble(x);
    ConvertibleWhole(x);
  }

  lemma ConvertibleWhole(x: Double)
    requires Convertible(x) && IsIntegral(x)
    ensures -0x8000_0000_0000_0000 <= Whole(x) < 0x8000_0000_0000_0000
  {}

  lemma SignedCast(c: char, i: int32)
    requires FetchesInt32(c)
    ensures Cast(c, i) == i <==> InRange(c, i)
  {
    if c == 'b' && InRange(c, i) { SignedOfUnsigned(i, 0x100); }
    if c == 'w' && InRange(c, i) { SignedOfUnsigned(i, 0x1_0000); }
    if c == 'd' { SignedOfUnsigned(i, 0x1_0000_0000); }
  }

  // -- The three functions as written --------------------------------------------------

  method VLength(types: string, args: seq<Arg>) returns (r: Option<nat>)
    requires WellTyped(types, args)
    ensures r == MeasureArgs(types, args)
  {
    hide ArgLength, Matches;
    var size, i := 0, 0;
    while i < |types|
      invariant 0 <= i <= |types| && i <= |args| && size >= 0
      invariant WellTyped(types[i..], args[i..])
      invariant MeasureArgs(types, args) == Plus(size, MeasureArgs(types[i..], args[i..]))
    {
      assert types[i..][1..] == types[i + 1..];
      if !Measures(types[i]) {
        return None;
      }
      assert args[i..][1..] == args[i + 1..];
      size := size + ArgLength(args[i]);
      i := i + 1;
    }
    return Some(size);
  }

  function Plus(n: nat, r: Option<nat>): Option<nat> {
    if r.None? then None else Some(n + r.value)
  }

  /** Writes one argument. */
  method EncodeArg(b: Buffer, a: Arg)
    requires !a.LongDouble? && (a.Float64? ==> Convertible(a.d))
    requires b.offset + |ArgBytes(a)| <= b.data.Length
    modifies b`offset, b.data
    ensures Wrote(b, ArgBytes(a))
  {
    match a
    case Int32(i) => EncodeInteger(b, i);
    case UInt32(u) => EncodeInteger(b, u);
    case Int64(l) => EncodeInteger(b, l);
    case UInt64(ul) => EncodeInteger(b, SignedWrap(ul, WORD));
    case Float64(d) => EncodeReal(b, d);
    case Text(s) => EncodeUtf8String(b, s);
  }

  method VEncode(b: Buffer, types: string, args: seq<Arg>) returns (ok: bool)
    requires WellTyped(types, args)
    requires b.offset + |EncodeArgs(types, args).bytes| <= b.data.Length
    modifies b`offset, b.data
    ensures ok == EncodeArgs(types, args).ok
    ensures Wrote(b, EncodeArgs(types, args).bytes)
  {
    hide WellTyped, EncodeArgs, ArgBytes, Patched, Matches, Encodes, Convertible, WrittenBehind;
    ghost var before, at, done := b.data[..], b.offset, [];
    ghost var all := EncodeArgs(types, args);
    PatchedNothing(before, at);
    NothingWritten(all);
    var i := 0;
    while i < |types|
      invariant 0 <= i <= |types| && i <= |args|
      invariant WellTyped(types[i..], args[i..])
      invariant b.data == old(b.data) && b.size == old(b.size)
      invariant all == WrittenBehind(done, EncodeArgs(types[i..], args[i..]))
      invariant |done| <= |all.bytes| && at + |all.bytes| <= |before| == b.data.Length && b.offset == at + |done|
      invariant b.data[..] == Patched(before, at, done)
    {
      NextArg(types, args, i);
      if !Encodes(types[i]) {
        AllWritten(done, false);
        return false;
      }
      CanWrite(types[i], args[i]);
      WrittenOne(done, args[i], EncodeArgs(types[i + 1..], args[i + 1..]));
      EncodeArg(b, args[i]);
      PatchedTwice(before, at, done, ArgBytes(args[i]));
      done := done + ArgBytes(args[i]);
      i := i + 1;
    }
    NoArgs(types[i..], args[i..]);
    AllWritten(done, true);
    return true;
  }

  /** One step of the loop: an argument is fetched, or the letter is unknown. */
  lemma NextArg(types: string, args: seq<Arg>, i: nat)
    requires i < |types| && i <= |args| && WellTyped(types[i..], args[i..])
    ensures !Encodes(types[i]) ==> EncodeArgs(types[i..], args[i..]) == Written(false, [])
    ensures Encodes(types[i]) ==>
      && i < |args| && Matches(types[i], args[i]) && !args[i].LongDouble?
      && WellTyped(types[i + 1..], args[i + 1..])
      && var rest := EncodeArgs(types[i + 1..], args[i + 1..]);
         EncodeArgs(types[i..], args[i..]) == Written(rest.ok, ArgBytes(args[i]) + rest.bytes)
  {}

  lemma NoArgs(types: string, args: seq<Arg>)
    requires types == []
    ensures WellTyped(types, args) && EncodeArgs(types, args) == Written(true, [])
  {}

  function WrittenBehind(done: seq<byte>, r: Written): Written { Written(r.ok, done + r.bytes) }

  lemma CanWrite(c: char, a: Arg)
    requires Encodes(c) && Matches(c, a)
    ensures !a.LongDouble? && (a.Float64? ==> Convertible(a.d))
  {}

  lemma NothingWritten(r: Written)
    ensures r == WrittenBehind([], r)
  {}

  lemma WrittenOne(done: seq<byte>, a: Arg, r: Written)
    ensures var all := WrittenBehind(done, Written(r.ok, ArgBytes(a) + r.bytes));
      all == WrittenBehind(done + ArgBytes(a), r) && |done| + |ArgBytes(a)| <= |all.bytes|
  {
    hide ArgBytes;
    assert done + (ArgBytes(a) + r.bytes) == done + ArgBytes(a) + r.bytes;
  }

  lemma AllWritten(done: seq<byte>, ok: bool)
    ensures WrittenBehind(done, Written(ok, [])) == Written(ok, done)
  {
    assert done + [] == done;
  }

  method VDecode(b: Buffer, types: string, unset: nat) returns (ok: bool, fields: seq<Field>)
    requires b.Readable()
    modifies b`offset
    ensures Fetched(ok, fields, b.offset) == DecodeArgs(types, b.Input(), old(b.offset), unset)
  {
    hide Stored;
    ghost var d, at := b.Input(), b.offset;
    fields := [];
    var i := 0;
    FetchedNothing(DecodeArgs(types, d, at, unset));
    while i < |types|
      invariant 0 <= i <= |types| && b.Input() == d
      invariant DecodeArgs(types, d, at, unset) == FetchedBehind(fields, DecodeArgs(types[i..], d, b.offset, unset))
    {
      assert types[i..][1..] == types[i + 1..];
      hide TokenAt;
      var token := DecodeToken(b, unset);
      var f := Stored(types[i], token, b.data[..b.size]);
      if f.None? {
        assert fields + [] == fields;
        return false, fields;
      }
      FetchedOne(fields, f.value, DecodeArgs(types[i + 1..], d, b.offset, unset));
      fields := fields + [f.value];
      i := i + 1;
    }
    assert fields + [] == fields;
    return true, fields;
  }

  function FetchedBehind(fields: seq<Field>, r: Fetched): Fetched {
    Fetched(r.ok, fields + r.fields, r.next)
  }

  lemma FetchedNothing(r: Fetched)
    ensures FetchedBehind([], r) == r
  {
    assert [] + r.fields == r.fields;
  }

  lemma FetchedOne(fields: seq<Field>, f: Field, r: Fetched)
    ensures FetchedBehind(fields, FetchedBehind([f], r)) == FetchedBehind(fields + [f], r)
  {
    assert fields + ([f] + r.fields) == fields + [f] + r.fields;
  }
}
