/**
  The sizing pass: how many bytes each writer will produce. Sizes are measured at
  full width, while the writers cut them down to 32 bits; the two lemmas say for
  exactly which sizes the passes agree.
*/
module Length {
  import opened Words
  import opened Floats
  import opened Wire

  function Integer(x: int64): (n: nat)
    ensures n == |IntegerBytes(x)|
  {
    if x > 0x7fff_ffff then 9
    else if x > 0x7fff then 5
    else if x > 63 then 3
    else if x >= -58 then 1
    else if x >= -0x8000 then 3
    else if x >= -0x8000_0000 then 5
    else 9
  }

  function Real(d: Double): (n: nat)
    ensures n == |DoubleBytes(d)|
  {
    if IsIntegral(d) then Integer(SignedWrap(Whole(d), 0x1_0000_0000_0000_0000))
    else if FitsFloat(d) then 5
    else 9
  }

  function Null(): (n: nat)
    ensures n == |[NULL_BYTE]|
  {
    1
  }

  function Compound(n: nat): nat {
    if n > 0xffff then 5
    else if n > 0xff then 3
    else if n > 0x1c then 2
    else 1
  }

  function String(n: nat): nat { Compound(n) + n }

  function Utf8String(n: nat): nat { String(n) + 1 }

  function BinaryString(n: nat): nat { String(n) }

  /** A header is measured right for all counts below 2^32, and above that only
      when the 32 bits kept still need the widest form. */
  lemma CompoundMeasured(tag: byte, n: nat)
    requires tag % 32 == 0
    ensures |CompoundBytes(tag, Cut(n))| <= Compound(n)
    ensures Compound(n) == |CompoundBytes(tag, Cut(n))| <==> n < 0x1_0000_0000 || Cut(n) > 0xffff
    ensures n >= 0x1_0000_0000 ==> Compound(n) == 5
  {}

  /** A string is measured right exactly when its size fits 32 bits; it is never
      measured short. */
  lemma StringMeasured(tag: byte, s: seq<byte>)
    requires tag % 32 == 0
    ensures |StringBytes(tag, s)| <= String(|s|)
    ensures String(|s|) == |StringBytes(tag, s)| <==> |s| < 0x1_0000_0000
    ensures |s| >= 0x1_0000_0000 ==> String(|s|) == 5 + |s|
  {}
}
