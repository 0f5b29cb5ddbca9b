/**
  What the tokenizer promises: it reads back every form the writers produce, it
  never leaves the readable bytes, it always moves on, and no bytes say the same
  thing in less space than the writers use.
*/
module Tokens {
  import opened Words
  import opened Floats
  import opened Wire
  import opened Decoder

  /** The bytes s stand at position at of d, whatever stands around them. */
  predicate Holds(d: seq<byte>, at: nat, s: seq<byte>) {
    at + |s| <= |d| && d[at..at + |s|] == s
  }

  lemma HoldsAnywhere(before: seq<byte>, s: seq<byte>, behind: seq<byte>)
    ensures Holds(before + s + behind, |before|, s)
  {}

  lemma HoldsParts(d: seq<byte>, at: nat, s: seq<byte>, t: seq<byte>)
    requires Holds(d, at, s + t)
    ensures Holds(d, at, s) && Holds(d, at + |s|, t)
  {
    var w := d[at..at + |s + t|];
    assert d[at..at + |s|] == w[..|s|];
    assert d[at + |s|..at + |s| + |t|] == w[|s|..];
  }

  // -- Reading back what the writers write ---------------------------------------

  lemma FieldRead(d: seq<byte>, at: nat, control: byte, x: int, n: nat)
    requires Holds(d, at, [control] + BigEndian(x, n))
    ensures at + 1 + n <= |d| && d[at] == control && UnsignedAt(d, at + 1, n) == Unsigned(BigEndian(x, n))
  {
    HoldsParts(d, at, [control], BigEndian(x, n));
    assert d[at] == d[at..at + 1][0];
  }

  lemma IntegerFieldRead(d: seq<byte>, at: nat, control: byte, x: int, n: nat, unset: nat)
    requires (control, n) in {(0x43, 8), (0x44, 4), (0x45, 2)}
    requires -(Pow256(n) / 2) <= x < Pow256(n) / 2
    requires Holds(d, at, [control] + BigEndian(x, n))
    ensures TokenAt(d, at, unset) == Scan(Integer(x), at + 1 + n)
  {
    Pow256Values();
    FieldRead(d, at, control, x, n);
    SignedRoundTrip(x, n, Pow256(n));
  }

  lemma IntegerRead(d: seq<byte>, at: nat, x: int64, unset: nat)
    requires Holds(d, at, IntegerBytes(x))
    ensures TokenAt(d, at, unset) == Scan(Integer(x), at + |IntegerBytes(x)|)
  {
    Pow256Values();
    if FitsInline(x) {
      assert d[at] == d[at..at + 1][0];
    } else {
      hide TokenAt;
      if Fits16(x) {
        IntegerFieldRead(d, at, 0x45, x, 2, unset);
      } else if Fits32(x) {
        IntegerFieldRead(d, at, 0x44, x, 4, unset);
      } else {
        IntegerFieldRead(d, at, 0x43, x, 8, unset);
      }
    }
  }

  /** The token a double turns into: narrowing to an integer or a float loses
      nothing, and a float comes back bit by bit. */
  function DoubleToken(d: Double): Token
    requires Convertible(d)
  {
    if IsIntegral(d) then Integer(Whole(d)) else Real(d)
  }

  lemma DoubleBitsInverse(d: Double)
    ensures DoubleOfBits(DoubleBits(d)) == d
  {}

  lemma FloatBitsInverse(b: Float)
    ensures FloatOfBits(FloatBits(b)) == b
  {}

  lemma FloatFieldRead(d: seq<byte>, at: nat, b: Float)
    requires Holds(d, at, [0x42] + BigEndian(FloatBits(b), 4))
    ensures at + 5 <= |d| && d[at] == 0x42 && FloatAt(d, at + 1) == b
  {
    FieldRead(d, at, 0x42, FloatBits(b), 4);
    Pow256Values();
    UnsignedRoundTrip(FloatBits(b), 4);
    FloatBitsInverse(b);
  }

  lemma DoubleFieldRead(d: seq<byte>, at: nat, x: Double)
    requires Holds(d, at, [0x41] + BigEndian(DoubleBits(x), 8))
    ensures at + 9 <= |d| && d[at] == 0x41 && DoubleAt(d, at + 1) == x
  {
    FieldRead(d, at, 0x41, DoubleBits(x), 8);
    Pow256Values();
    UnsignedRoundTrip(DoubleBits(x), 8);
    DoubleBitsInverse(x);
  }

  lemma DoubleRead(d: seq<byte>, at: nat, x: Double, unset: nat)
    requires Convertible(x) && Holds(d, at, DoubleBytes(x))
    ensures TokenAt(d, at, unset) == Scan(DoubleToken(x), at + |DoubleBytes(x)|)
  {
    if IsIntegral(x) {
      SignedOfUnsigned(Whole(x), 0x1_0000_0000_0000_0000);
      IntegerRead(d, at, Whole(x), unset);
    } else if FitsFloat(x) {
      FloatFieldRead(d, at, Narrow(x));
      NarrowedBack(x);
    } else {
      DoubleFieldRead(d, at, x);
    }
  }

  lemma NarrowedBack(x: Double)
    requires FitsFloat(x) && !IsIntegral(x)
    ensures Widen(Narrow(x)) == x
  {
    FitsFloatExactly(x);
  }

  lemma NullRead(d: seq<byte>, at: nat, unset: nat)
    requires Holds(d, at, [NULL_BYTE])
    ensures TokenAt(d, at, unset) == Scan(Null, at + 1)
  {
    assert d[at] == d[at..at + 1][0];
  }

  lemma CountFieldRead(d: seq<byte>, at: nat, control: byte, n: nat, width: nat)
    requires width in {1, 2, 4} && n < Pow256(width)
    requires control % 0x20 == (if width == 4 then 0x1f else if width == 2 then 0x1e else 0x1d)
    requires Holds(d, at, [control] + BigEndian(n, width))
    ensures at < |d| && d[at] == control && CountAt(d, at + 1, control) == Count(n, at + 1 + width)
  {
    FieldRead(d, at, control, n, width);
    UnsignedRoundTrip(n, width);
  }

  lemma CountRead(d: seq<byte>, at: nat, tag: byte, n: uint32)
    requires tag in {UTF8_TAG, BINARY_TAG, LIST_TAG, DICTIONARY_TAG}
    requires Holds(d, at, CompoundBytes(tag, n))
    ensures at < |d| && tag <= d[at] < tag + 0x20
    ensures CountAt(d, at + 1, d[at]) == Count(n, at + |CompoundBytes(tag, n)|)
  {
    Pow256Values();
    if n <= 0x1c {
      assert d[at] == d[at..at + 1][0];
    } else if n < 0x100 {
      CountFieldRead(d, at, tag + 0x1d, n, 1);
    } else if n < 0x1_0000 {
      CountFieldRead(d, at, tag + 0x1e, n, 2);
    } else {
      CountFieldRead(d, at, tag + 0x1f, n, 4);
    }
  }

  lemma ListRead(d: seq<byte>, at: nat, n: uint32, unset: nat)
    requires Holds(d, at, CompoundBytes(LIST_TAG, n))
    ensures TokenAt(d, at, unset) == Scan(List(n), at + |CompoundBytes(LIST_TAG, n)|)
  {
    CountRead(d, at, LIST_TAG, n);
  }

  lemma DictionaryRead(d: seq<byte>, at: nat, n: uint32, unset: nat)
    requires Holds(d, at, CompoundBytes(DICTIONARY_TAG, n))
    ensures TokenAt(d, at, unset) == Scan(Dictionary(n), at + |CompoundBytes(DICTIONARY_TAG, n)|)
  {
    CountRead(d, at, DICTIONARY_TAG, n);
  }

  /** A string comes back as the place of its first Cut(|s|) bytes. */
  lemma Utf8Read(d: seq<byte>, at: nat, s: seq<byte>, unset: nat)
    requires Holds(d, at, Utf8Bytes(s))
    ensures var t := TokenAt(d, at, unset); var n := Cut(|s|);
      && t.token == Utf8String(at + |CompoundBytes(UTF8_TAG, n)|, n)
      && t.next == at + |Utf8Bytes(s)|
      && Holds(d, t.token.start, s[..n] + [0])
  {
    var n := Cut(|s|);
    assert Utf8Bytes(s) == CompoundBytes(UTF8_TAG, n) + (s[..n] + [0]);
    HoldsParts(d, at, CompoundBytes(UTF8_TAG, n), s[..n] + [0]);
    CountRead(d, at, UTF8_TAG, n);
  }

  lemma BinaryRead(d: seq<byte>, at: nat, s: seq<byte>, unset: nat)
    requires Holds(d, at, BinaryBytes(s))
    ensures var t := TokenAt(d, at, unset); var n := Cut(|s|);
      && t.token == BinaryString(at + |CompoundBytes(BINARY_TAG, n)|, n)
      && t.next == at + |BinaryBytes(s)|
      && Holds(d, t.token.start, s[..n])
  {
    var n := Cut(|s|);
    HoldsParts(d, at, CompoundBytes(BINARY_TAG, n), s[..n]);
    CountRead(d, at, BINARY_TAG, n);
  }

  // -- Narrowing -------------------------------------------------------------------

  /** The double encoder loses nothing and picks the four-byte form exactly when the
      value is not integral and some binary32 value is the same number. */
  lemma NarrowingKeepsNumber(d: seq<byte>, at: nat, x: Double, unset: nat)
    requires IsFinite(x) && Convertible(x) && Holds(d, at, DoubleBytes(x))
    ensures var t := TokenAt(d, at, unset).token;
      && (t.Integer? ==> Abs(t.i) * One() == Units(x) && (t.i < 0 <==> x.neg && Units(x) != 0))
      && (t.Real? ==> t.d == x)
      && (t.Integer? || t.Real?)
    ensures d[at] == 0x42 <==>
            !IsIntegral(x) && exists b: Float :: IsFiniteSingle(b) && b.neg == x.neg && UnitsSingle(b) == Units(x)
  {
    DoubleRead(d, at, x, unset);
    FitsFloatExactly(x);
    assert d[at] == d[at..at + |DoubleBytes(x)|][0];
    if IsIntegral(x) {
      WholeUnits(x);
    }
  }

  // -- Bounds and progress -----------------------------------------------------------

  /** A string header at position at whose length field is cut off by the end. */
  predicate SizeCutOff(d: seq<byte>, at: nat) {
    at < |d| && 0x80 <= d[at] < 0xc0 && CountAt(d, at + 1, d[at]).CutOff?
  }

  predicate InBounds(d: seq<byte>, t: Token) {
    match t
    case Utf8String(start, size) => start + size <= |d|
    case BinaryString(start, size) => start + size <= |d|
    case _ => true
  }

  /** The end is reported exactly past the end; everything else moves the cursor on,
      at most one past the readable bytes (the unchecked NUL), and string data lies
      inside. A cut-off size is an error whatever the unset number is. */
  lemma TokenBounds(d: seq<byte>, at: nat, unset: nat)
    ensures var t := TokenAt(d, at, unset);
      && (t.token.End? <==> at >= |d|)
      && (t.token.End? ==> t.next == at)
      && (SizeCutOff(d, at) ==> t.token.Error?)
      && (!t.token.End? && !SizeCutOff(d, at) ==> at < t.next <= |d| + 1)
      && (t.next == |d| + 1 && at < |d| && !SizeCutOff(d, at) ==> t.token.Utf8String?)
      && InBounds(d, t.token)
  {}

  /** The width of the field behind control byte c. */
  function FieldWidth(c: byte): nat {
    if c >= 0x80 && c % 0x20 == 0x1f then 4
    else if c >= 0x80 && c % 0x20 == 0x1e then 2
    else if c >= 0x80 && c % 0x20 == 0x1d then 1
    else if c == 0x41 || c == 0x43 then 8
    else if c == 0x42 || c == 0x44 then 4
    else if c == 0x45 then 2
    else 0
  }

  /** An error is reported exactly when the field or the body of a string does not end
      inside the readable bytes; a NUL may be missing. */
  lemma ErrorExactly(d: seq<byte>, at: nat, unset: nat)
    requires at < |d|
    ensures var c := d[at]; var body := at + 1 + FieldWidth(c);
      TokenAt(d, at, unset).token.Error? <==>
        || body > |d|
        || (0x80 <= c < 0xc0 && body + (if body == at + 1 then c % 0x20 else Unsigned(d[at + 1..body])) > |d|)
  {}

  /** Every scan of a run that goes on, past errors too, until the end of the bytes
      or a cut-off size. */
  function Run(d: seq<byte>, at: nat, unset: nat): (r: seq<Scan>)
    ensures |r| <= if at < |d| then |d| - at else 0
    ensures forall i :: 0 <= i < |r| ==>
      && at < r[i].next <= |d| + 1
      && !r[i].token.End?
      && InBounds(d, r[i].token)
    ensures forall i, j :: 0 <= i < j < |r| ==> r[i].next < r[j].next
    decreases if at < |d| then |d| - at else 0
  {
    if at >= |d| || SizeCutOff(d, at) then []
    else
      TokenBounds(d, at, unset);
      var t := TokenAt(d, at, unset);
      [t] + Run(d, t.next, unset)
  }

  /** The place of token number i of a run that begins at position at. */
  function Place(d: seq<byte>, at: nat, i: nat, unset: nat): nat
    decreases i
  {
    if i == 0 then at else Place(d, TokenAt(d, at, unset).next, i - 1, unset)
  }

  /** A run is all the tokens from its place on, up to the end of the bytes or to a cut-off
      size. */
  lemma {:induction false} RunExactly(d: seq<byte>, at: nat, unset: nat)
    ensures var r := Run(d, at, unset); var end := Place(d, at, |r|, unset);
      && (forall i :: 0 <= i < |r| ==> r[i] == TokenAt(d, Place(d, at, i, unset), unset))
      && (forall i :: 0 <= i < |r| ==> Place(d, at, i, unset) < |d| && !SizeCutOff(d, Place(d, at, i, unset)))
      && (end >= |d| || SizeCutOff(d, end))
    decreases if at < |d| then |d| - at else 0
  {
    hide TokenAt, SizeCutOff;
    if at < |d| && !SizeCutOff(d, at) {
      TokenBounds(d, at, unset);
      var next := TokenAt(d, at, unset).next;
      RunExactly(d, next, unset);
      var rest := Run(d, next, unset);
      assert Run(d, at, unset) == [TokenAt(d, at, unset)] + rest;
      assert forall i :: 1 <= i <= |rest| + 1 ==> Place(d, at, i, unset) == Place(d, next, i - 1, unset);
    }
  }

  function Nth(d: seq<byte>, at: nat, i: nat, unset: nat): Token {
    TokenAt(d, Place(d, at, i, unset), unset).token
  }

  // -- Shortest form -----------------------------------------------------------------

  /** Whatever the tokenizer makes of the bytes, the writers need no more bytes for
      the same integer, count or string. */
  lemma ShortestForm(d: seq<byte>, at: nat, unset: nat)
    ensures var t := TokenAt(d, at, unset); Shortest(d, t.token, t.next - at)
  {
    if at < |d| {
      if d[at] < 0x80 {
        ShortestNumber(d, at + 1, d[at]);
      } else {
        ShortestCount(d, at + 1, d[at]);
      }
    }
  }

  /** The writers need at most n bytes for what token t says. */
  predicate Shortest(d: seq<byte>, t: Token, n: int) {
    match t
    case Integer(i) => |IntegerBytes(i)| <= n
    case List(k) => k < 0x1_0000_0000 && |CompoundBytes(LIST_TAG, k)| <= n
    case Dictionary(k) => k < 0x1_0000_0000 && |CompoundBytes(DICTIONARY_TAG, k)| <= n
    case Utf8String(start, k) => k < 0x1_0000_0000 && start + k <= |d| && |Utf8Bytes(d[start..start + k])| <= n
    case BinaryString(start, k) => k < 0x1_0000_0000 && start + k <= |d| && |BinaryBytes(d[start..start + k])| <= n
    case _ => true
  }

  lemma ShortestNumber(d: seq<byte>, at: nat, c: byte)
    requires c < 0x80
    ensures var t := NumberAt(d, at, c); t.token.Integer? ==> |IntegerBytes(t.token.i)| <= 1 + t.next - at
  {
    Pow256Values();
  }

  lemma ShortestCount(d: seq<byte>, at: nat, c: byte)
    requires at <= |d|
    ensures var r := CountAt(d, at, c); r.Count? ==>
      && |CompoundBytes(UTF8_TAG, r.n)| <= 1 + r.next - at
      && |CompoundBytes(BINARY_TAG, r.n)| <= 1 + r.next - at
      && |CompoundBytes(LIST_TAG, r.n)| <= 1 + r.next - at
      && |CompoundBytes(DICTIONARY_TAG, r.n)| <= 1 + r.next - at
  {
    if at + 1 <= |d| { UnsignedBounds(d[at..at + 1]); }
    if at + 2 <= |d| { UnsignedBounds(d[at..at + 2]); }
    if at + 4 <= |d| { UnsignedBounds(d[at..at + 4]); }
  }
}
