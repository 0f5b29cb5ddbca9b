/**
  The tokenizer: one bounds-checked step of a cursor over a byte buffer.

  A string whose length field is cut off leaves its size unset before the size is
  used once more. The model passes that unset number in as a parameter, so every
  statement holds whatever it happens to be.
*/
module Decoder {
  import opened Words
  import opened Floats
  import opened Buffers
  import opened Wire

  /** String data is given by its place in the buffer. */
  datatype Token =
    | End
    | Error
    | Null
    | Integer(i: int64)
    | Real(d: Double)
    | Utf8String(start: nat, size: nat)
    | BinaryString(start: nat, size: nat)
    | List(count: nat)
    | Dictionary(count: nat)

  datatype Scan = Scan(token: Token, next: nat)

  /** A count and the cursor behind it, or the report that the field was cut off. */
  datatype Count = Count(n: nat, next: nat) | CutOff(next: nat)

  /** Seven bits, two's complement. */
  function SignExtend7(c: byte): (x: int)
    requires c < 0x80
    ensures -64 <= x < 64
  {
    if c < 0x40 then c else c - 0x80
  }

  function UnsignedAt(d: seq<byte>, at: nat, n: nat): nat
    requires at + n <= |d|
  {
    Unsigned(d[at..at + n])
  }

  function SignedAt(d: seq<byte>, at: nat, n: nat): (x: int)
    requires at + n <= |d| && n in {2, 4, 8}
    ensures -(Pow256(n) / 2) <= x < Pow256(n) / 2
  {
    Pow256Values();
    SignedWrap(UnsignedAt(d, at, n), Pow256(n))
  }

  function DoubleAt(d: seq<byte>, at: nat): Double
    requires at + 8 <= |d|
  {
    UnsignedBounds(d[at..at + 8]);
    DoubleOfBits(UnsignedAt(d, at, 8))
  }

  function FloatAt(d: seq<byte>, at: nat): Float
    requires at + 4 <= |d|
  {
    UnsignedBounds(d[at..at + 4]);
    FloatOfBits(UnsignedAt(d, at, 4))
  }

  /** The number, or the null, introduced by control byte c; at is the place behind c. */
  function NumberAt(d: seq<byte>, at: nat, c: byte): Scan
    requires c < 0x80
  {
    Pow256Values();
    if c == 0x40 then Scan(Null, at)
    else if c == 0x41 then if at + 8 > |d| then Scan(Error, at) else Scan(Real(DoubleAt(d, at)), at + 8)
    else if c == 0x42 then if at + 4 > |d| then Scan(Error, at) else Scan(Real(Widen(FloatAt(d, at))), at + 4)
    else if c == 0x43 then if at + 8 > |d| then Scan(Error, at) else Scan(Integer(SignedAt(d, at, 8)), at + 8)
    else if c == 0x44 then if at + 4 > |d| then Scan(Error, at) else Scan(Integer(SignedAt(d, at, 4)), at + 4)
    else if c == 0x45 then if at + 2 > |d| then Scan(Error, at) else Scan(Integer(SignedAt(d, at, 2)), at + 2)
    else Scan(Integer(SignExtend7(c)), at)
  }

  /** The count of the string or container introduced by control byte c. */
  function CountAt(d: seq<byte>, at: nat, c: byte): (r: Count)
    ensures r.next >= at
    ensures r.Count? && at <= |d| ==> r.n < 0x1_0000_0000 && r.next <= |d|
  {
    var k := c % 0x20;
    var n := if k == 0x1f then 4 else if k == 0x1e then 2 else if k == 0x1d then 1 else 0;
    if n == 0 then Count(k, at)
    else if at + n > |d| then CutOff(at)
    else
      UnsignedBounds(d[at..at + n]);
      Count(UnsignedAt(d, at, n), at + n)
  }

  /** What one call of the tokenizer returns and where it leaves the cursor. */
  function TokenAt(d: seq<byte>, at: nat, unset: nat): Scan {
    if at + 1 > |d| then Scan(End, at)
    else if d[at] < 0x80 then NumberAt(d, at + 1, d[at])
    else
      var c := CountAt(d, at + 1, d[at]);
      if d[at] < 0xc0 then StringAt(d, c, d[at] < 0xa0, unset)
      else if c.CutOff? then Scan(Error, c.next)
      else if d[at] < 0xe0 then Scan(List(c.n), c.next)
      else Scan(Dictionary(c.n), c.next)
  }

  /** A UTF-8 string is followed by a NUL, which is skipped unchecked. */
  function StringAt(d: seq<byte>, c: Count, utf8: bool, unset: nat): Scan {
    var nul := if utf8 then 1 else 0;
    match c
    case CutOff(next) =>
      if (next + unset) % WORD > |d| then Scan(Error, next) else Scan(Error, (next + unset + nul) % WORD)
    case Count(n, next) =>
      if next + n > |d| then Scan(Error, next)
      else Scan(if utf8 then Utf8String(next, n) else BinaryString(next, n), next + n + nul)
  }

  // -- The tokenizer as written --------------------------------------------------

  method DecodeNumber(b: Buffer, c: byte) returns (token: Token)
    requires b.Readable() && c < 0x80
    modifies b`offset
    ensures Scan(token, b.offset) == NumberAt(b.Input(), old(b.offset), c)
  {
    Pow256Values();
    ghost var d := b.Input();
    if c == 0x40 {
      token := Null;
    } else if 0x41 <= c <= 0x45 {
      var width := if c == 0x41 || c == 0x43 then 8 else if c == 0x45 then 2 else 4;
      if b.offset + width > b.size {
        return Error;
      }
      var field := b.data[b.offset..b.offset + width];
      assert field == d[b.offset..b.offset + width];
      UnsignedBounds(field);
      if c == 0x41 {
        token := Real(DoubleOfBits(Unsigned(field)));
      } else if c == 0x42 {
        token := Real(Widen(FloatOfBits(Unsigned(field))));
      } else {
        token := Integer(SignedWrap(Unsigned(field), Pow256(width)));
      }
      b.offset := b.offset + width;
    } else {
      token := Integer(SignExtend7(c));
    }
  }

  method DecodeCount(b: Buffer, c: byte) returns (cutOff: bool, n: nat)
    requires b.Readable()
    modifies b`offset
    ensures CountAt(b.Input(), old(b.offset), c) == if cutOff then CutOff(b.offset) else Count(n, b.offset)
  {
    var width := match c % 0x20 case 0x1f => 4 case 0x1e => 2 case 0x1d => 1 case _ => 0;
    if width == 0 {
      return false, c % 0x20;
    }
    if b.offset + width > b.size {
      return true, 0;
    }
    var field := b.data[b.offset..b.offset + width];
    assert field == b.Input()[b.offset..b.offset + width];
    n := Unsigned(field);
    cutOff := false;
    b.offset := b.offset + width;
  }

  /** The body of a string: n is the unset number when the length field was cut off. */
  method DecodeString(b: Buffer, cutOff: bool, n: nat, utf8: bool) returns (token: Token)
    requires b.Readable()
    requires !cutOff ==> n < 0x1_0000_0000 && b.offset <= b.size
    modifies b`offset
    ensures Scan(token, b.offset) ==
            StringAt(b.Input(), if cutOff then CutOff(old(b.offset)) else Count(n, old(b.offset)), utf8, n)
  {
    var nul := if utf8 then 1 else 0;
    if !cutOff {
      DivModUnique(0, WORD, b.offset + n);
      DivModUnique(0, WORD, b.offset + n + nul);
    }
    if (b.offset + n) % WORD > b.size {
      return Error;
    }
    token := if cutOff then Error else if utf8 then Utf8String(b.offset, n) else BinaryString(b.offset, n);
    b.offset := (b.offset + n + nul) % WORD;
  }

  method DecodeToken(b: Buffer, unset: nat) returns (token: Token)
    requires b.Readable()
    modifies b`offset
    ensures Scan(token, b.offset) == TokenAt(b.Input(), old(b.offset), unset)
  {
    if b.offset + 1 > b.size {
      return End;
    }
    var c := b.data[b.offset];
    assert c == b.Input()[b.offset];
    b.offset := b.offset + 1;
    if c < 0x80 {
      token := DecodeNumber(b, c);
      return;
    }
    var cutOff, n := DecodeCount(b, c);
    if c < 0xa0 {
      token := DecodeString(b, cutOff, if cutOff then unset else n, true);
    } else if c < 0xc0 {
      token := DecodeString(b, cutOff, if cutOff then unset else n, false);
    } else if cutOff {
      token := Error;
    } else {
      token := if c < 0xe0 then List(n) else Dictionary(n);
    }
  }
}
