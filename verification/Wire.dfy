/**
  The pickle wire format as bytes: the form every writer must produce. A number
  takes the first form it fits, a container or string header the shortest count.
*/
module Wire {
  import opened Words
  import opened Floats

  predicate FitsInline(x: int) { -58 <= x < 64 }
  predicate Fits16(x: int) { -0x8000 <= x < 0x8000 }
  predicate Fits32(x: int) { -0x8000_0000 <= x < 0x8000_0000 }

  function IntegerBytes(x: int64): (s: seq<byte>)
    ensures |s| >= 1
  {
    if FitsInline(x) then [x % 128]
    else if Fits16(x) then [0x45] + BigEndian(x, 2)
    else if Fits32(x) then [0x44] + BigEndian(x, 4)
    else [0x43] + BigEndian(x, 8)
  }

  function DoubleBits(d: Double): (n: uint64) {
    (if d.neg then 0x8000_0000_0000_0000 else 0) + d.mag
  }

  function DoubleOfBits(n: uint64): (d: Double)
    ensures DoubleBits(d) == n
  {
    if n >= 0x8000_0000_0000_0000 then Double(true, n - 0x8000_0000_0000_0000) else Double(false, n)
  }

  function FloatBits(b: Float): (n: uint32) {
    (if b.neg then 0x8000_0000 else 0) + b.mag
  }

  function FloatOfBits(n: uint32): (b: Float)
    ensures FloatBits(b) == n
  {
    if n >= 0x8000_0000 then Float(true, n - 0x8000_0000) else Float(false, n)
  }

  /** An integral value travels as an integer, any other in the narrowest exact form. */
  function DoubleBytes(d: Double): (s: seq<byte>)
    ensures |s| >= 1
  {
    if IsIntegral(d) then IntegerBytes(SignedWrap(Whole(d), 0x1_0000_0000_0000_0000))
    else if FitsFloat(d) then [0x42] + BigEndian(FloatBits(Narrow(d)), 4)
    else [0x41] + BigEndian(DoubleBits(d), 8)
  }

  const NULL_BYTE: byte := 0x40

  /** The tags of strings and containers; a count up to 28 shares the tag's byte. */
  const UTF8_TAG: byte := 0x80
  const BINARY_TAG: byte := 0xa0
  const LIST_TAG: byte := 0xc0
  const DICTIONARY_TAG: byte := 0xe0

  function CompoundBytes(tag: byte, n: uint32): (s: seq<byte>)
    requires tag % 32 == 0
    ensures |s| >= 1
  {
    if n <= 0x1c then [tag + n]
    else if n < 0x100 then [tag + 0x1d] + BigEndian(n, 1)
    else if n < 0x1_0000 then [tag + 0x1e] + BigEndian(n, 2)
    else [tag + 0x1f] + BigEndian(n, 4)
  }

  /** A size as the writers see it: cut down to 32 bits. */
  function Cut(n: nat): (m: uint32)
    ensures n < 0x1_0000_0000 ==> m == n
  {
    n % 0x1_0000_0000
  }

  function StringBytes(tag: byte, s: seq<byte>): seq<byte>
    requires tag % 32 == 0
  {
    CompoundBytes(tag, Cut(|s|)) + s[..Cut(|s|)]
  }

  function Utf8Bytes(s: seq<byte>): seq<byte> { StringBytes(UTF8_TAG, s) + [0] }
  function BinaryBytes(s: seq<byte>): seq<byte> { StringBytes(BINARY_TAG, s) }
}
