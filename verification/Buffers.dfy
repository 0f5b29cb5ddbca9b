/**
  The byte buffer that writers fill and readers consume, and the two primitives
  that store bytes into it.
*/
module Buffers {
  import opened Words

  /** data: the storage; offset: the cursor; size: the readable part of data. */
  class Buffer {
    var data: array<byte>
    var offset: nat
    var size: nat

    constructor (data: array<byte>, size: nat)
      ensures this.data == data && this.offset == 0 && this.size == size
    {
      this.data, this.offset, this.size := data, 0, size;
    }

    /** The readable part lies inside the storage, and the storage is no larger
        than any object can be, so that cursor arithmetic on well-formed input
        does not wrap around. */
    ghost predicate Readable()
      reads this
    {
      size <= data.Length < 0x8000_0000_0000_0000
    }

    ghost function Input(): seq<byte>
      reads this, data
      requires Readable()
    {
      data[..size]
    }
  }

  /** d with the bytes from position at on replaced by s, everything else kept. */
  function Patched(d: seq<byte>, at: nat, s: seq<byte>): (r: seq<byte>)
    requires at + |s| <= |d|
    ensures |r| == |d|
    ensures r[at..at + |s|] == s && r[..at] == d[..at] && r[at + |s|..] == d[at + |s|..]
  {
    d[..at] + s + d[at + |s|..]
  }

  lemma PatchedTwice(d: seq<byte>, at: nat, s: seq<byte>, t: seq<byte>)
    requires at + |s| + |t| <= |d|
    ensures Patched(Patched(d, at, s), at + |s|, t) == Patched(d, at, s + t)
  {}

  lemma PatchedNothing(d: seq<byte>, at: nat)
    requires at <= |d|
    ensures Patched(d, at, []) == d
  {}

  /** What a writer does: it puts s at the cursor, moves the cursor past it and
      leaves every other byte alone. */
  twostate predicate Wrote(b: Buffer, s: seq<byte>)
    reads b, b.data
  {
    && b.data == old(b.data) && b.size == old(b.size)
    && old(b.offset) + |s| <= b.data.Length
    && b.offset == old(b.offset) + |s|
    && b.data[..] == Patched(old(b.data[..]), old(b.offset), s)
  }

  /** Stores the n low-order bytes of x, most significant first. */
  method SetBigEndian(data: array<byte>, at: nat, x: int, n: nat)
    requires at + n <= data.Length
    modifies data
    ensures data[..] == Patched(old(data[..]), at, BigEndian(x, n))
  {
    var i, rest := n, x;
    while i > 0
      invariant 0 <= i <= n
      invariant BigEndian(x, n) == BigEndian(rest, i) + data[at + i..at + n]
      invariant data[..at] == old(data[..at]) && data[at + n..] == old(data[at + n..])
    {
      i := i - 1;
      data[at + i] := rest % 256;
      rest := rest / 256;
      assert data[at + i..at + n] == [data[at + i]] + data[at + i + 1..at + n];
    }
    assert data[..] == data[..at] + data[at..at + n] + data[at + n..];
  }

  method CopyBytes(data: array<byte>, at: nat, s: seq<byte>)
    requires at + |s| <= data.Length
    modifies data
    ensures data[..] == Patched(old(data[..]), at, s)
  {
    forall i | 0 <= i < |s| {
      data[at + i] := s[i];
    }
  }
}
