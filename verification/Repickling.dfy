/**
  Whatever the reader makes of arbitrary bytes can be pickled again, unless it holds an
  end pointer or a float whose conversion is undefined. Reading that pickle gives the
  first result with its integral floats as integers, and so the same if there are none.
*/
module Repickling {
  import opened Options
  import opened Words
  import opened Floats
  import opened Wire
  import opened Decoder
  import opened Tokens
  import opened Values
  import opened Trees
  import Bounds
  import Codepoints
  import Compact

  /** Among the trees that a reader can produce: other objects, and sizes beyond 32 bits,
      never come out. */
  predicate Plain(v: Value) { Fits(v) && !v.ByteArray? && !v.Set? && !v.Foreign? }

  /** The tree is read back with this node unchanged. */
  predicate Settled(v: Value) { v.Real? ==> !IsIntegral(v.d) }

  // -- What the reader produces --------------------------------------------------------

  ghost predicate PlainAll(vs: seq<Value>) { forall i :: 0 <= i < |vs| ==> Everywhere(Plain, vs[i]) }

  ghost predicate PlainPairs(ps: seq<Pair>) { forall i :: 0 <= i < |ps| ==> EverywhereInPair(Plain, ps[i]) }

  lemma PlainContainer(v: Value)
    requires Plain(v) && (v.Sequence? ==> PlainAll(v.items)) && (v.Dict? ==> PlainPairs(v.pairs))
    ensures Everywhere(Plain, v)
  {
    hide EverywhereInPair;
  }

  lemma PlainCons(v: Value, vs: seq<Value>)
    requires Everywhere(Plain, v) && PlainAll(vs)
    ensures PlainAll([v] + vs)
  {
    hide Everywhere;
  }

  lemma PlainPairsCons(k: Value, v: Value, ps: seq<Pair>)
    requires Everywhere(Plain, k) && Everywhere(Plain, v) && PlainPairs(ps)
    ensures PlainPairs([Pair(k, v)] + ps)
  {
    hide Everywhere;
  }

  lemma {:induction false} ReadPlain(d: seq<byte>, at: nat, unset: nat)
    ensures var r := DecodeValue(d, at, unset); r.value.Some? ==> Everywhere(Plain, r.value.value)
    decreases Left(d, at), 0, 0
  {
    hide TokenAt, DecodeItems, DecodePairs, IntegerBytes, CompoundBytes, Utf8Bytes, BinaryBytes, PlainAll, PlainPairs,
         Everywhere;
    TokenBounds(d, at, unset);
    ShortestForm(d, at, unset);
    var t := TokenAt(d, at, unset);
    if t.token.List? {
      ReadPlainItems(d, t.next, t.token.count, unset);
    } else if t.token.Dictionary? {
      ReadPlainPairs(d, t.next, t.token.count, unset);
    }
    var r := DecodeValue(d, at, unset);
    if r.value.Some? {
      PlainContainer(r.value.value);
    }
  }

  lemma {:induction false} ReadPlainItems(d: seq<byte>, at: nat, n: nat, unset: nat)
    ensures var r := DecodeItems(d, at, n, unset); r.items.Some? ==> PlainAll(r.items.value)
    decreases Left(d, at), 1, n
  {
    hide DecodeValue, Everywhere, PlainAll;
    if n == 0 {
      NothingPlain();
    } else {
      var v := DecodeValue(d, at, unset);
      ReadPlain(d, at, unset);
      if v.value.Some? {
        ReadPlainItems(d, v.next, n - 1, unset);
        var r := DecodeItems(d, v.next, n - 1, unset);
        if r.items.Some? {
          PlainCons(v.value.value, r.items.value);
        }
      }
    }
  }

  lemma NothingPlain()
    ensures PlainAll([]) && PlainPairs([])
  {}

  lemma {:induction false} ReadPlainPairs(d: seq<byte>, at: nat, n: nat, unset: nat)
    ensures var r := DecodePairs(d, at, n, unset); r.pairs.Some? ==> PlainPairs(r.pairs.value)
    decreases Left(d, at), 1, n
  {
    hide DecodeValue, Everywhere, PlainPairs;
    if n == 0 {
      NothingPlain();
    } else {
      var k := DecodeValue(d, at, unset);
      ReadPlain(d, at, unset);
      if k.value.Some? {
        var v := DecodeValue(d, k.next, unset);
        ReadPlain(d, k.next, unset);
        if v.value.Some? {
          ReadPlainPairs(d, v.next, n - 1, unset);
          var r := DecodePairs(d, v.next, n - 1, unset);
          if r.pairs.Some? {
            PlainPairsCons(k.value.value, v.value.value, r.pairs.value);
          }
        }
      }
    }
  }

  // -- Such trees in normal form -------------------------------------------------------

  /** What follows at every node follows everywhere. */
  lemma {:induction false} Weaken(p: Value -> bool, q: Value -> bool, v: Value)
    requires Everywhere(p, v) && forall x :: p(x) ==> q(x)
    ensures Everywhere(q, v)
    decreases v, 1
  {
    match v
    case Dict(pairs) =>
      forall i | 0 <= i < |pairs| ensures EverywhereInPair(q, pairs[i]) { WeakenInPair(p, q, pairs[i]); }
    case Sequence(items) =>
      forall i | 0 <= i < |items| ensures Everywhere(q, items[i]) { Weaken(p, q, items[i]); }
    case Set(items) =>
      forall i | 0 <= i < |items| ensures Everywhere(q, items[i]) { Weaken(p, q, items[i]); }
    case _ =>
  }

  lemma {:induction false} WeakenInPair(p: Value -> bool, q: Value -> bool, x: Pair)
    requires EverywhereInPair(p, x) && forall x :: p(x) ==> q(x)
    ensures EverywhereInPair(q, x)
    decreases x, 0
  {
    Weaken(p, q, x.key);
    Weaken(p, q, x.value);
  }

  lemma {:induction false} SettledExactly(v: Value)
    requires Everywhere(Plain, v)
    ensures Normal(v) == v <==> Everywhere(Settled, v)
    decreases v, 2
  {
    hide IsIntegral;
    match v
    case Dict(pairs) => SettledPairs(pairs);
    case Sequence(items) => SettledAll(items);
    case _ =>
  }

  lemma {:induction false} SettledAll(vs: seq<Value>)
    requires forall i :: 0 <= i < |vs| ==> Everywhere(Plain, vs[i])
    ensures NormalAll(vs) == vs <==> forall i :: 0 <= i < |vs| ==> Everywhere(Settled, vs[i])
    decreases vs, 1
  {
    hide Normal, Everywhere;
    if vs != [] {
      SettledExactly(vs[0]);
      SettledAll(vs[1..]);
      assert NormalAll(vs)[0] == Normal(vs[0]) && NormalAll(vs)[1..] == NormalAll(vs[1..]);
      assert vs == [vs[0]] + vs[1..];
      assert forall i :: 1 <= i < |vs| ==> vs[i] == vs[1..][i - 1];
    }
  }

  lemma {:induction false} SettledPairs(ps: seq<Pair>)
    requires forall i :: 0 <= i < |ps| ==> EverywhereInPair(Plain, ps[i])
    ensures NormalPairs(ps) == ps <==> forall i :: 0 <= i < |ps| ==> EverywhereInPair(Settled, ps[i])
    decreases ps, 1
  {
    hide NormalPair, EverywhereInPair;
    if ps != [] {
      SettledPair(ps[0]);
      SettledPairs(ps[1..]);
      assert NormalPairs(ps)[0] == NormalPair(ps[0]) && NormalPairs(ps)[1..] == NormalPairs(ps[1..]);
      assert ps == [ps[0]] + ps[1..];
      assert forall i :: 1 <= i < |ps| ==> ps[i] == ps[1..][i - 1];
    }
  }

  lemma {:induction false} SettledPair(p: Pair)
    requires EverywhereInPair(Plain, p)
    ensures NormalPair(p) == p <==> EverywhereInPair(Settled, p)
    decreases p, 0
  {
    hide Normal, Everywhere;
    SettledExactly(p.key);
    SettledExactly(p.value);
  }

  // -- Pickled again -------------------------------------------------------------------

  /** What was read from anywhere in any bytes, if it can be pickled, is read back from its
      pickle up to integral floats, and as it is exactly if it has none. */
  lemma Repickled(d: seq<byte>, at: nat, w: Value, unset: nat)
    requires DecodeValue(d, at, unset).value == Some(w) && Everywhere(Known, w)
    ensures DecodeValue(Encode(w), 0, unset) == Decoded(Some(Normal(w)), |Encode(w)|)
    ensures DecodeValue(Encode(w), 0, unset).value == Some(w) <==> Everywhere(Settled, w)
  {
    hide DecodeValue, Encode, Normal, Everywhere;
    ReadPlain(d, at, unset);
    Weaken(Plain, Fits, w);
    RoundTrip(Encode(w), 0, w, unset);
    SettledExactly(w);
  }

  /** Pickled again it takes no more bytes than it was read from, unless it has a NaN that
      binary32 can hold or comes back changed. */
  lemma NotLonger(d: seq<byte>, at: nat, w: Value, unset: nat)
    requires DecodeValue(d, at, unset).value == Some(w) && Everywhere(Known, w)
    requires Everywhere(Settled, w) && Everywhere(Bounds.Sharp, w)
    ensures |Encode(w)| <= DecodeValue(d, at, unset).next - at
  {
    hide DecodeValue, Encode, Normal, Everywhere;
    ReadPlain(d, at, unset);
    SettledExactly(w);
    Bounds.ShortestTree(d, at, w, unset);
    Bounds.TightSize(w);
  }

  /** Every number behind 0x41 or 0x42 is read as a float, also one the writer would send as
      an integer. */
  lemma AnyFloatRead(d: seq<byte>, at: nat, x: Double, b: Float, unset: nat)
    ensures Holds(d, at, [0x41] + BigEndian(DoubleBits(x), 8)) ==>
      DecodeValue(d, at, unset) == Decoded(Some(Value.Real(x)), at + 9)
    ensures Holds(d, at, [0x42] + BigEndian(FloatBits(b), 4)) ==>
      DecodeValue(d, at, unset) == Decoded(Some(Value.Real(Widen(b))), at + 5)
  {
    hide TokenAt, Widen, Holds;
    if Holds(d, at, [0x41] + BigEndian(DoubleBits(x), 8)) {
      Codepoints.AnyDoubleRead(d, at, x, unset);
    }
    if Holds(d, at, [0x42] + BigEndian(FloatBits(b), 4)) {
      Codepoints.AnyFloatRead(d, at, b, unset);
    }
  }

  /** A float that is read but cannot be pickled again: 2^63. */
  lemma ReadTwoTo63(unset: nat)
    ensures var x := Double(false, 0x43e0_0000_0000_0000);
      var d := [0x41] + BigEndian(DoubleBits(x), 8);
      DecodeValue(d, 0, unset) == Decoded(Some(Value.Real(x)), 9) && !Known(Value.Real(x))
  {
    hide Convertible, IsIntegral, Whole;
    var x := Double(false, 0x43e0_0000_0000_0000);
    var d := [0x41 as byte] + BigEndian(DoubleBits(x), 8);
    assert Holds(d, 0, d);
    DoubleFieldRead(d, 0, x);
    Compact.TwoTo63();
  }
}
