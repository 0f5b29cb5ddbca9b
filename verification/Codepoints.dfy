/**
  The table of control bytes, as the format is documented, for arbitrary bytes: what the
  tokenizer returns for each of the 256, and where it leaves the cursor.
*/
module Codepoints {
  import opened Words
  import opened Floats
  import opened Wire
  import opened Decoder
  import opened Tokens

  /** The number that the bytes are in base 256, most significant byte first. */
  function Value(s: seq<byte>): nat {
    if s == [] then 0 else s[0] * Pow256(|s| - 1) + Value(s[1..])
  }

  lemma {:induction false} ValueAppended(s: seq<byte>, b: byte)
    ensures Value(s + [b]) == 256 * Value(s) + b
  {
    if s == [] {
      assert s + [b] == [b] && [b][1..] == [];
    } else {
      assert (s + [b])[1..] == s[1..] + [b];
      ValueAppended(s[1..], b);
      MulRegroup(s[0], 256, Pow256(|s| - 1));
    }
  }

  /** The load of the missing library gives just that. */
  lemma {:induction false} UnsignedIsValue(s: seq<byte>)
    ensures Unsigned(s) == Value(s)
    decreases |s|
  {
    if s != [] {
      UnsignedIsValue(s[..|s| - 1]);
      ValueAppended(s[..|s| - 1], s[|s| - 1]);
      assert s[..|s| - 1] + [s[|s| - 1]] == s;
    }
  }

  /** The sign is the top bit of the first byte. */
  lemma {:induction false} TopBit(s: seq<byte>)
    requires |s| == 4 || |s| == 8
    ensures |s| == 4 ==> Value(s) < 0x1_0000_0000 && (Value(s) >= 0x8000_0000 <==> s[0] >= 0x80)
    ensures |s| == 8 ==> Value(s) < 0x1_0000_0000_0000_0000 && (Value(s) >= 0x8000_0000_0000_0000 <==> s[0] >= 0x80)
  {
    UnsignedIsValue(s);
    UnsignedBounds(s);
    UnsignedIsValue(s[1..]);
    UnsignedBound(s[1..]);
    Pow256Steps();
  }

  lemma Pow256Steps()
    ensures Pow256(3) == 0x100_0000 && Pow256(7) == 0x100_0000_0000_0000
  {
    Pow256Values();
  }

  /** A field of n bytes behind the control byte: the cursor moves behind it, or stays
      in front of it with an error. */
  ghost predicate Field(d: seq<byte>, at: nat, n: nat, t: Scan, says: (seq<byte>, Token) -> bool) {
    if at + 1 + n > |d| then t == Scan(Error, at + 1)
    else t.next == at + 1 + n && says(d[at + 1..at + 1 + n], t.token)
  }

  /** Two's complement. */
  predicate SaysInteger(s: seq<byte>, t: Token) {
    && t.Integer?
    && (|s| == 2 ==> -0x8000 <= t.i < 0x8000 && (t.i - Value(s)) % 0x1_0000 == 0)
    && (|s| == 4 ==> -0x8000_0000 <= t.i < 0x8000_0000 && (t.i - Value(s)) % 0x1_0000_0000 == 0)
    && (|s| == 8 ==> (t.i - Value(s)) % 0x1_0000_0000_0000_0000 == 0)
  }

  /** A sign bit and 63 bits of exponent and fraction. */
  predicate SaysDouble(s: seq<byte>, t: Token) {
    && t.Real? && |s| == 8
    && t.d.neg == (s[0] >= 0x80) && t.d.mag == Value(s) % 0x8000_0000_0000_0000
  }

  /** The same with 31 bits, widened. */
  ghost predicate SaysFloat(s: seq<byte>, t: Token) {
    && t.Real? && |s| == 4
    && exists b: Float :: t.d == Widen(b) && b.neg == (s[0] >= 0x80) && b.mag == Value(s) % 0x8000_0000
  }

  lemma {:induction false} IntegerSaid(s: seq<byte>, modulus: nat, n: nat)
    requires |s| == n && n in {2, 4, 8} && modulus == Pow256(n)
    ensures modulus % 2 == 0 && (SignedWrap(Unsigned(s), modulus) - Value(s)) % modulus == 0
  {
    Pow256Values();
    UnsignedIsValue(s);
    var x := Value(s);
    var y := SignedWrap(x, modulus);
    var k := y / modulus - x / modulus;
    assert y - x == k * modulus;
    DivModUnique(k, modulus, 0);
  }

  lemma {:induction false} DoubleSaid(s: seq<byte>)
    requires |s| == 8
    ensures Unsigned(s) < WORD && SaysDouble(s, Real(DoubleOfBits(Unsigned(s))))
  {
    UnsignedIsValue(s);
    TopBit(s);
  }

  lemma {:induction false} FloatSaid(s: seq<byte>)
    requires |s| == 4
    ensures Unsigned(s) < 0x1_0000_0000 && SaysFloat(s, Real(Widen(FloatOfBits(Unsigned(s)))))
  {
    UnsignedIsValue(s);
    TopBit(s);
    hide Widen;
    var b := FloatOfBits(Unsigned(s));
    assert b.neg == (s[0] >= 0x80) && b.mag == Value(s) % 0x8000_0000;
  }

  /** Numbers and null: 0VVVVVVV without the six codes from 0x40 on. */
  lemma NumberCodes(d: seq<byte>, at: nat, unset: nat)
    requires at < |d| && d[at] < 0x80
    ensures var c: int := d[at]; var t := TokenAt(d, at, unset);
      && (c < 0x40 ==> t == Scan(Integer(c), at + 1))
      && (c > 0x45 ==> t == Scan(Integer(c - 0x80), at + 1))
      && (c == 0x45 ==> Field(d, at, 2, t, SaysInteger))
      && (c == 0x44 ==> Field(d, at, 4, t, SaysInteger))
      && (c == 0x43 ==> Field(d, at, 8, t, SaysInteger))
      && (c == 0x42 ==> Field(d, at, 4, t, SaysFloat))
      && (c == 0x41 ==> Field(d, at, 8, t, SaysDouble))
      && (c == 0x40 ==> t == Scan(Null, at + 1))
  {
    hide Widen, Value, Unsigned, SaysFloat, SaysDouble, SignedWrap, FloatOfBits, DoubleOfBits;
    var c := d[at];
    var n := FieldWidth(c);
    Pow256Values();
    if at + 1 + n <= |d| {
      var s := d[at + 1..at + 1 + n];
      if 0x43 <= c <= 0x45 {
        IntegerSaid(s, Pow256(n), n);
      } else if c == 0x42 {
        FloatSaid(s);
      } else if c == 0x41 {
        DoubleSaid(s);
      }
    }
  }

  /** Strings, lists and dictionaries: the low five bits are the count, or 0x1d, 0x1e and
      0x1f announce one of 8, 16 and 32 bits. */
  function CountIn(d: seq<byte>, at: nat): nat
    requires at < |d| && d[at] >= 0x80 && at + 1 + FieldWidth(d[at]) <= |d|
  {
    if d[at] % 0x20 < 0x1d then d[at] % 0x20 else Value(d[at + 1..at + 1 + FieldWidth(d[at])])
  }

  lemma CountFound(d: seq<byte>, at: nat)
    requires at < |d| && d[at] >= 0x80
    ensures var h := at + 1 + FieldWidth(d[at]);
      CountAt(d, at + 1, d[at]) == if h > |d| then CutOff(at + 1) else Count(CountIn(d, at), h)
  {
    var h := at + 1 + FieldWidth(d[at]);
    if h <= |d| {
      UnsignedIsValue(d[at + 1..h]);
    }
  }

  /** The top three bits tell which. A string's body must end inside the bytes, and a text
      is followed by a NUL. The size of a string that is cut off is not set, and the cursor
      goes as far as that number says if it is inside the bytes. */
  lemma CountedCodes(d: seq<byte>, at: nat, unset: nat)
    requires at < |d| && d[at] >= 0x80
    ensures var c := d[at]; var t := TokenAt(d, at, unset); var h := at + 1 + FieldWidth(c);
      if h > |d| then
        var skipped := (at + 1 + unset) % WORD;
        var behind := (at + 1 + unset + if c < 0xa0 then 1 else 0) % WORD;
        t == Scan(Error, if c >= 0xc0 || skipped > |d| then at + 1 else behind)
      else
        var n := CountIn(d, at);
        if c >= 0xe0 then t == Scan(Dictionary(n), h)
        else if c >= 0xc0 then t == Scan(List(n), h)
        else if h + n > |d| then t == Scan(Error, h)
        else if c >= 0xa0 then t == Scan(BinaryString(h, n), h + n)
        else t == Scan(Utf8String(h, n), h + n + 1)
  {
    CountFound(d, at);
    hide CountAt, CountIn, FieldWidth;
  }

  /** The width of the count's field by the control byte, as documented. */
  lemma CountWidths(c: byte)
    requires c >= 0x80
    ensures FieldWidth(c) == match c % 0x20 case 0x1d => 1 case 0x1e => 2 case 0x1f => 4 case _ => 0
  {}

  /** Every double behind 0x41 is read bit by bit, also those the writer sends in another
      form. */
  lemma AnyDoubleRead(d: seq<byte>, at: nat, x: Double, unset: nat)
    requires Holds(d, at, [0x41] + BigEndian(DoubleBits(x), 8))
    ensures TokenAt(d, at, unset) == Scan(Real(x), at + 9)
  {
    DoubleFieldRead(d, at, x);
  }

  lemma AnyFloatRead(d: seq<byte>, at: nat, b: Float, unset: nat)
    requires Holds(d, at, [0x42] + BigEndian(FloatBits(b), 4))
    ensures TokenAt(d, at, unset) == Scan(Real(Widen(b)), at + 5)
  {
    FloatFieldRead(d, at, b);
    hide Widen;
  }
}
