/**
  Machine words: bytes, two's complement integers and big-endian byte strings.
  These give the assumed primitives of the missing utility library their plain
  meaning: a big-endian store keeps the value modulo 256^n, a load inverts it.
*/
module Words {

  type byte = x: int | 0 <= x < 256
  type int16 = x: int | -0x8000 <= x < 0x8000
  type int32 = x: int | -0x8000_0000 <= x < 0x8000_0000
  type uint32 = x: int | 0 <= x < 0x1_0000_0000
  type int64 = x: int | -0x8000_0000_0000_0000 <= x < 0x8000_0000_0000_0000
  type uint64 = x: int | 0 <= x < 0x1_0000_0000_0000_0000

  /** The number of values of a 64-bit word. */
  const WORD := 0x1_0000_0000_0000_0000

  function Max(a: int, b: int): int { if a < b then b else a }

  /** Quotient and remainder are unique; division facts follow from it. */
  lemma QuotientUnique(a: int, r: int, q: int, s: int, b: int)
    requires 0 <= r < b && 0 <= s < b
    requires a * b + r == q * b + s
    ensures a == q && r == s
  {
    assert (q - a) * b == r - s;
    if q - a >= 1 {
      MulAtLeast(q - a, b);
    } else if a - q >= 1 {
      MulAtLeast(a - q, b);
    }
  }

  lemma MulAtLeast(k: int, b: int)
    requires k >= 1 && b >= 0
    ensures k * b >= b
  {
    assert k * b == (k - 1) * b + b;
  }

  lemma DivModUnique(a: int, b: int, r: int)
    requires 0 <= r < b
    ensures (a * b + r) / b == a && (a * b + r) % b == r
  {
    var n := a * b + r;
    var q, s := n / b, n % b;
    assert n == q * b + s;
    QuotientUnique(a, r, q, s, b);
  }

  /** Division of natural numbers is natural. */
  function Quotient(n: nat, b: nat): (q: nat)
    requires b > 0
    ensures q * b <= n && n == q * b + n % b
  {
    n / b
  }

  function Pow2(n: nat): (p: nat)
    ensures p >= 1
  {
    if n == 0 then 1 else 2 * Pow2(n - 1)
  }

  lemma {:induction false} Pow2Add(a: nat, b: nat)
    ensures Pow2(a + b) == Pow2(a) * Pow2(b)
  {
    if a == 0 {
    } else {
      Pow2Add(a - 1, b);
      assert 2 * (Pow2(a - 1) * Pow2(b)) == (2 * Pow2(a - 1)) * Pow2(b);
    }
  }

  lemma {:induction false} Pow2Monotone(a: nat, b: nat)
    requires a <= b
    ensures Pow2(a) <= Pow2(b)
    decreases b
  {
    if a < b {
      Pow2Monotone(a, b - 1);
    }
  }

  function Pow256(n: nat): (p: nat)
    ensures p >= 1
  {
    if n == 0 then 1 else 256 * Pow256(n - 1)
  }

  /** The two's complement reading of x in a word with the given number of values. */
  function SignedWrap(x: int, modulus: nat): (y: int)
    requires modulus > 0 && modulus % 2 == 0
    ensures -(modulus / 2) <= y < modulus / 2
    ensures y % modulus == x % modulus
  {
    var u := x % modulus;
    if u >= modulus / 2 then
      DivModUnique(-1, modulus, u);
      DivModUnique(0, modulus, u);
      u - modulus
    else
      DivModUnique(0, modulus, u);
      u
  }

  /** The n low-order bytes of x, most significant byte first. */
  function BigEndian(x: int, n: nat): (s: seq<byte>)
    ensures |s| == n
    decreases n
  {
    if n == 0 then [] else BigEndian(x / 256, n - 1) + [x % 256]
  }

  /** The unsigned number whose big-endian bytes are s. */
  function Unsigned(s: seq<byte>): nat {
    if s == [] then 0 else Unsigned(s[..|s| - 1]) * 256 + s[|s| - 1]
  }

  lemma ModStep(x: int, k: int)
    requires k > 0
    ensures x % (256 * k) == (x / 256 % k) * 256 + x % 256
  {
    var h, l := x / 256, x % 256;
    var a, b := h / k, h % k;
    assert h == a * k + b;
    assert x == 256 * (a * k + b) + l;
    MulRegroup(256, a, k);
    DivModUnique(a, 256 * k, 256 * b + l);
  }

  lemma MulRegroup(x: int, y: int, z: int)
    ensures x * (y * z) == y * (x * z)
    ensures x * (y * z) == (x * y) * z
  {}

  lemma {:induction false} UnsignedOfBigEndian(x: int, n: nat)
    ensures Unsigned(BigEndian(x, n)) == x % Pow256(n)
    decreases n
  {
    if n == 0 {
    } else {
      var s := BigEndian(x, n);
      assert s[..n - 1] == BigEndian(x / 256, n - 1);
      UnsignedOfBigEndian(x / 256, n - 1);
      ModStep(x, Pow256(n - 1));
    }
  }

  lemma Pow256Values()
    ensures Pow256(1) == 0x100
    ensures Pow256(2) == 0x1_0000
    ensures Pow256(4) == 0x1_0000_0000
    ensures Pow256(8) == 0x1_0000_0000_0000_0000
  {}

  lemma SignedOfUnsigned(x: int, modulus: int)
    requires modulus > 0 && modulus % 2 == 0
    requires -(modulus / 2) <= x < modulus / 2
    ensures SignedWrap(x % modulus, modulus) == x
  {
    if x < 0 {
      DivModUnique(-1, modulus, x + modulus);
      DivModUnique(0, modulus, x + modulus);
    } else {
      DivModUnique(0, modulus, x);
    }
  }

  /** A load inverts a store for every unsigned value the word can hold. */
  lemma UnsignedRoundTrip(x: nat, n: nat)
    requires x < Pow256(n)
    ensures Unsigned(BigEndian(x, n)) == x
  {}

  /** A load inverts a store for every signed value the word can hold. */
  lemma SignedRoundTrip(x: int, n: nat, modulus: int)
    requires modulus == Pow256(n) && modulus % 2 == 0
    requires -(modulus / 2) <= x < modulus / 2
    ensures SignedWrap(Unsigned(BigEndian(x, n)), modulus) == x
  {
    UnsignedOfBigEndian(x, n);
    SignedOfUnsigned(x, modulus);
  }

  lemma {:induction false} UnsignedBound(s: seq<byte>)
    ensures Unsigned(s) < Pow256(|s|)
  {
    if s == [] {
    } else {
      UnsignedBound(s[..|s| - 1]);
    }
  }

  /** The four widths the format uses. */
  lemma UnsignedBounds(s: seq<byte>)
    ensures |s| == 1 ==> Unsigned(s) < 0x100
    ensures |s| == 2 ==> Unsigned(s) < 0x1_0000
    ensures |s| == 4 ==> Unsigned(s) < 0x1_0000_0000
    ensures |s| == 8 ==> Unsigned(s) < 0x1_0000_0000_0000_0000
  {
    UnsignedBound(s);
    Pow256Values();
  }
}
