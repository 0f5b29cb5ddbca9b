/**
  The writers. None of them checks bounds: the caller provides the room the sizing
  pass asked for.
*/
module Encoder {
  import opened Words
  import opened Floats
  import opened Buffers
  import opened Wire
  import Length

  /** A control byte followed by an n-byte big-endian field. */
  method EncodeField(b: Buffer, control: byte, x: int, n: nat)
    requires b.offset + 1 + n <= b.data.Length
    modifies b`offset, b.data
    ensures Wrote(b, [control] + BigEndian(x, n))
  {
    ghost var before := b.data[..];
    b.data[b.offset] := control;
    assert b.data[..] == Patched(before, b.offset, [control]);
    SetBigEndian(b.data, b.offset + 1, x, n);
    PatchedTwice(before, b.offset, [control], BigEndian(x, n));
    b.offset := b.offset + n + 1;
  }

  method EncodeByte(b: Buffer, c: byte)
    requires b.offset < b.data.Length
    modifies b`offset, b.data
    ensures Wrote(b, [c])
  {
    b.data[b.offset] := c;
    b.offset := b.offset + 1;
  }

  method EncodeInteger(b: Buffer, x: int64)
    requires b.offset + Length.Integer(x) <= b.data.Length
    modifies b`offset, b.data
    ensures Wrote(b, IntegerBytes(x))
  {
    if x > 0x7fff_ffff {
      EncodeField(b, 0x43, x, 8);
    } else if x > 0x7fff {
      EncodeField(b, 0x44, x, 4);
    } else if x > 63 {
      EncodeField(b, 0x45, x, 2);
    } else if x >= -58 {
      EncodeByte(b, x % 128);
    } else if x >= -0x8000 {
      EncodeField(b, 0x45, x, 2);
    } else if x >= -0x8000_0000 {
      EncodeField(b, 0x44, x, 4);
    } else {
      EncodeField(b, 0x43, x, 8);
    }
  }

  method EncodeReal(b: Buffer, d: Double)
    requires Convertible(d)
    requires b.offset + Length.Real(d) <= b.data.Length
    modifies b`offset, b.data
    ensures Wrote(b, DoubleBytes(d))
  {
    var y := Narrow(d);
    if IsIntegral(d) {
      WrapInRange(Whole(d));
      EncodeInteger(b, Whole(d));
    } else if SameNumber(Widen(y), d) {
      EncodeField(b, 0x42, FloatBits(y), 4);
    } else {
      EncodeField(b, 0x41, DoubleBits(d), 8);
    }
  }

  lemma WrapInRange(x: int64)
    ensures SignedWrap(x, 0x1_0000_0000_0000_0000) == x
  {
    SignedOfUnsigned(x, 0x1_0000_0000_0000_0000);
  }

  method EncodeNull(b: Buffer)
    requires b.offset + Length.Null() <= b.data.Length
    modifies b`offset, b.data
    ensures Wrote(b, [NULL_BYTE])
  {
    EncodeByte(b, 0x40);
  }

  method EncodeCompound(b: Buffer, tag: byte, x: uint32)
    requires tag % 32 == 0
    requires b.offset + |CompoundBytes(tag, x)| <= b.data.Length
    modifies b`offset, b.data
    ensures Wrote(b, CompoundBytes(tag, x))
  {
    hide BigEndian, Patched;
    if x > 0xffff {
      EncodeField(b, tag + 0x1f, x, 4);
    } else if x > 0xff {
      EncodeField(b, tag + 0x1e, x, 2);
    } else if x > 0x1c {
      EncodeField(b, tag + 0x1d, x, 1);
    } else {
      EncodeByte(b, tag + x);
    }
  }

  method EncodeString(b: Buffer, tag: byte, s: seq<byte>, size: uint32)
    requires tag % 32 == 0 && size <= |s|
    requires b.offset + |CompoundBytes(tag, size)| + size <= b.data.Length
    modifies b`offset, b.data
    ensures Wrote(b, CompoundBytes(tag, size) + s[..size])
  {
    ghost var before, at := b.data[..], b.offset;
    EncodeCompound(b, tag, size);
    CopyBytes(b.data, b.offset, s[..size]);
    PatchedTwice(before, at, CompoundBytes(tag, size), s[..size]);
    b.offset := b.offset + size;
  }

  method EncodeUtf8String(b: Buffer, s: seq<byte>)
    requires b.offset + |Utf8Bytes(s)| <= b.data.Length
    modifies b`offset, b.data
    ensures Wrote(b, Utf8Bytes(s))
  {
    ghost var before, at := b.data[..], b.offset;
    EncodeString(b, UTF8_TAG, s, Cut(|s|));
    PatchedTwice(before, at, StringBytes(UTF8_TAG, s), [0]);
    EncodeByte(b, 0);
  }

  method EncodeBinaryString(b: Buffer, s: seq<byte>)
    requires b.offset + |BinaryBytes(s)| <= b.data.Length
    modifies b`offset, b.data
    ensures Wrote(b, BinaryBytes(s))
  {
    EncodeString(b, BINARY_TAG, s, Cut(|s|));
  }

  method EncodeList(b: Buffer, n: nat)
    requires b.offset + |CompoundBytes(LIST_TAG, Cut(n))| <= b.data.Length
    modifies b`offset, b.data
    ensures Wrote(b, CompoundBytes(LIST_TAG, Cut(n)))
  {
    EncodeCompound(b, LIST_TAG, Cut(n));
  }

  method EncodeDictionary(b: Buffer, n: nat)
    requires b.offset + |CompoundBytes(DICTIONARY_TAG, Cut(n))| <= b.data.Length
    modifies b`offset, b.data
    ensures Wrote(b, CompoundBytes(DICTIONARY_TAG, Cut(n)))
  {
    EncodeCompound(b, DICTIONARY_TAG, Cut(n));
  }
}
