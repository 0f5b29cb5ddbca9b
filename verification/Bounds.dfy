/**
  Reading arbitrary bytes: the reader's calls nest no deeper than there are bytes,
  the tree that comes out is no deeper than the bytes it was read from, and the
  writers would have used no more bytes for it, up to NaNs.
*/
module Bounds {
  import opened Options
  import opened Words
  import opened Floats
  import opened Wire
  import opened Decoder
  import opened Tokens
  import opened Values
  import opened Trees

  // -- The shortest bytes of a tree ----------------------------------------------------

  /** A NaN that some binary32 NaN is widened to. The writer sends it in 9 bytes, since
      it never compares equal to itself; the reader takes 5 bytes as well. */
  predicate NarrowNaN(x: Double) { IsNaN(x) && (x.mag - INFINITY64) % 0x2000_0000 == 0 }

  predicate Sharp(v: Value) { v.Real? ==> !NarrowNaN(v.d) }

  function NarrowedNaN(x: Double): (b: Float)
    requires NarrowNaN(x)
    ensures Widen(b) == x
  {
    Float(x.neg, INFINITY32 + (x.mag - INFINITY64) / 0x2000_0000)
  }

  function TightReal(x: Double): (s: seq<byte>)
    ensures |DoubleBytes(x)| == |s| + if NarrowNaN(x) then 4 else 0
  {
    NarrowNaNBytes(x);
    if NarrowNaN(x) then [0x42] + BigEndian(FloatBits(NarrowedNaN(x)), 4) else DoubleBytes(x)
  }

  lemma NarrowNaNBytes(x: Double)
    ensures IsNaN(x) ==> |DoubleBytes(x)| == 9
  {
    hide Widen, Narrow, IntegerBytes;
  }

  /** The bytes the writer would produce if it sent every number in its narrowest form. */
  function Tight(v: Value): seq<byte>
    decreases v, 1
  {
    match v
    case Real(x) => TightReal(x)
    case Dict(pairs) => CompoundBytes(DICTIONARY_TAG, Cut(|pairs|)) + TightPairs(pairs)
    case Sequence(items) => CompoundBytes(LIST_TAG, Cut(|items|)) + TightAll(items)
    case Set(items) => CompoundBytes(LIST_TAG, Cut(|items|)) + TightAll(items)
    case _ => Encode(v)
  }

  function TightAll(vs: seq<Value>): seq<byte>
    decreases vs, 0
  {
    if vs == [] then [] else Tight(vs[0]) + TightAll(vs[1..])
  }

  function TightPairs(ps: seq<Pair>): seq<byte>
    decreases ps, 0
  {
    if ps == [] then [] else TightPair(ps[0]) + TightPairs(ps[1..])
  }

  function TightPair(p: Pair): seq<byte>
    decreases p, 0
  {
    Tight(p.key) + Tight(p.value)
  }

  // -- They are read back as the tree ----------------------------------------------------

  lemma TightLeafRead(d: seq<byte>, at: nat, v: Value, unset: nat)
    requires !IsContainer(v) && Known(v) && Fits(v) && Holds(d, at, Tight(v))
    ensures DecodeValue(d, at, unset) == Decoded(Some(Normal(v)), at + |Tight(v)|)
  {
    hide DoubleBytes, NarrowNaN;
    if v.Real? && NarrowNaN(v.d) {
      NarrowNaNRead(d, at, v.d, unset);
    } else {
      hide DecodeValue, Known, Normal, Holds, Encode;
      LeafRead(d, at, v, unset);
    }
  }

  lemma NarrowNaNRead(d: seq<byte>, at: nat, x: Double, unset: nat)
    requires NarrowNaN(x) && Holds(d, at, TightReal(x))
    ensures DecodeValue(d, at, unset) == Decoded(Some(Normal(Value.Real(x))), at + |TightReal(x)|)
  {
    hide Widen, DoubleBytes;
    FloatFieldRead(d, at, NarrowedNaN(x));
  }

  lemma {:induction false} TightRead(d: seq<byte>, at: nat, v: Value, unset: nat)
    requires Everywhere(Known, v) && Everywhere(Fits, v) && Holds(d, at, Tight(v))
    ensures DecodeValue(d, at, unset) == Decoded(Some(Normal(v)), at + |Tight(v)|)
    decreases v, 2
  {
    match v
    case Dict(pairs) => TightDictRead(d, at, pairs, unset);
    case Sequence(items) => TightListRead(d, at, items, unset);
    case Set(items) => TightListRead(d, at, items, unset);
    case _ => TightLeafRead(d, at, v, unset);
  }

  lemma {:induction false} TightListRead(d: seq<byte>, at: nat, vs: seq<Value>, unset: nat)
    requires |vs| < 0x1_0000_0000 && forall i :: 0 <= i < |vs| ==> Everywhere(Known, vs[i]) && Everywhere(Fits, vs[i])
    requires Holds(d, at, CompoundBytes(LIST_TAG, Cut(|vs|)) + TightAll(vs))
    ensures DecodeValue(d, at, unset) == Decoded(Some(Sequence(NormalAll(vs))),
                                                 at + |CompoundBytes(LIST_TAG, Cut(|vs|)) + TightAll(vs)|)
    decreases vs, 1
  {
    hide DecodeValue, TightAll, DecodeItems, DecodePairs, Everywhere, TokenAt, CompoundBytes, NormalAll, Holds;
    var h := CompoundBytes(LIST_TAG, |vs|);
    HoldsParts(d, at, h, TightAll(vs));
    ListRead(d, at, |vs|, unset);
    ListUnfold(d, at, |vs|, at + |h|, unset);
    TightItemsRead(d, at + |h|, vs, unset);
  }

  lemma {:induction false} TightDictRead(d: seq<byte>, at: nat, ps: seq<Pair>, unset: nat)
    requires |ps| < 0x1_0000_0000
    requires forall i :: 0 <= i < |ps| ==> EverywhereInPair(Known, ps[i]) && EverywhereInPair(Fits, ps[i])
    requires Holds(d, at, CompoundBytes(DICTIONARY_TAG, Cut(|ps|)) + TightPairs(ps))
    ensures DecodeValue(d, at, unset) == Decoded(Some(Dict(NormalPairs(ps))),
                                                 at + |CompoundBytes(DICTIONARY_TAG, Cut(|ps|)) + TightPairs(ps)|)
    decreases ps, 1
  {
    hide DecodeValue, TightPairs, DecodeItems, DecodePairs, EverywhereInPair, TokenAt, CompoundBytes, NormalPairs,
         Holds;
    var h := CompoundBytes(DICTIONARY_TAG, |ps|);
    HoldsParts(d, at, h, TightPairs(ps));
    DictionaryRead(d, at, |ps|, unset);
    DictUnfold(d, at, |ps|, at + |h|, unset);
    TightPairsRead(d, at + |h|, ps, unset);
  }

  lemma {:induction false} TightItemsRead(d: seq<byte>, at: nat, vs: seq<Value>, unset: nat)
    requires forall i :: 0 <= i < |vs| ==> Everywhere(Known, vs[i]) && Everywhere(Fits, vs[i])
    requires Holds(d, at, TightAll(vs))
    ensures DecodeItems(d, at, |vs|, unset) == DecodedItems(Some(NormalAll(vs)), at + |TightAll(vs)|)
    decreases vs, 0
  {
    hide Tight, DecodeValue, Normal, Everywhere, Holds;
    if vs != [] {
      HoldsParts(d, at, Tight(vs[0]), TightAll(vs[1..]));
      var mid := at + |Tight(vs[0])|;
      TightRead(d, at, vs[0], unset);
      TightItemsRead(d, mid, vs[1..], unset);
      ItemsStep(d, at, mid, at + |TightAll(vs)|, |vs| - 1, unset, Normal(vs[0]), NormalAll(vs[1..]));
    }
  }

  lemma {:induction false} TightPairsRead(d: seq<byte>, at: nat, ps: seq<Pair>, unset: nat)
    requires forall i :: 0 <= i < |ps| ==> EverywhereInPair(Known, ps[i]) && EverywhereInPair(Fits, ps[i])
    requires Holds(d, at, TightPairs(ps))
    ensures DecodePairs(d, at, |ps|, unset) == DecodedPairs(Some(NormalPairs(ps)), at + |TightPairs(ps)|)
    decreases ps, 0
  {
    hide TightPair, DecodeValue, NormalPair, Normal, EverywhereInPair, Holds;
    if ps != [] {
      HoldsParts(d, at, TightPair(ps[0]), TightPairs(ps[1..]));
      var mid, behind := at + |Tight(ps[0].key)|, at + |TightPair(ps[0])|;
      TightPairRead(d, at, ps[0], unset);
      TightPairsRead(d, behind, ps[1..], unset);
      PairsStep(d, at, mid, behind, at + |TightPairs(ps)|, |ps| - 1, unset,
                Normal(ps[0].key), Normal(ps[0].value), NormalPairs(ps[1..]));
    }
  }

  lemma {:induction false} TightPairRead(d: seq<byte>, at: nat, p: Pair, unset: nat)
    requires EverywhereInPair(Known, p) && EverywhereInPair(Fits, p) && Holds(d, at, TightPair(p))
    ensures var mid := at + |Tight(p.key)|;
      && NormalPair(p) == Pair(Normal(p.key), Normal(p.value))
      && DecodeValue(d, at, unset) == Decoded(Some(Normal(p.key)), mid)
      && DecodeValue(d, mid, unset) == Decoded(Some(Normal(p.value)), at + |TightPair(p)|)
    decreases p, 0
  {
    hide Tight, DecodeValue, Normal, Everywhere, Holds;
    HoldsParts(d, at, Tight(p.key), Tight(p.value));
    TightRead(d, at, p.key, unset);
    TightRead(d, at + |Tight(p.key)|, p.value, unset);
  }

  // -- No others are shorter ---------------------------------------------------------------

  lemma WidenedFits(b: Float)
    requires !IsNaN(Widen(b)) && !IsIntegral(Widen(b))
    ensures FitsFloat(Widen(b))
  {
    assert IsFiniteSingle(b);
    WidenExact(b);
    hide FitsFloat, Widen, Units, UnitsSingle, IsIntegral;
    FitsFloatExactly(Widen(b));
  }

  lemma WidenedNaN(b: Float)
    requires IsNaN(Widen(b))
    ensures NarrowNaN(Widen(b))
  {
    if b.mag < INFINITY32 {
      assert IsFiniteSingle(b);
      WidenExact(b);
      assert false;
    }
  }

  lemma RealBytesSize(x: Double)
    requires !IsIntegral(x)
    ensures |DoubleBytes(x)| == if FitsFloat(x) then 5 else 9
  {
    hide FitsFloat, IsIntegral;
  }

  lemma RealShortest(d: seq<byte>, at: nat, x: Double, unset: nat)
    requires TokenAt(d, at, unset).token == Token.Real(x) && !IsIntegral(x)
    ensures |TightReal(x)| <= TokenAt(d, at, unset).next - at
  {
    hide FitsFloat, IsIntegral, IsNaN, DoubleBytes, Widen, NarrowNaN, TightReal;
    RealBytesSize(x);
    if d[at] == 0x42 {
      var b := FloatAt(d, at + 1);
      if IsNaN(x) { WidenedNaN(b); NarrowNaNBytes(x); } else { WidenedFits(b); }
    }
  }

  lemma LeafShortest(d: seq<byte>, at: nat, v: Value, unset: nat)
    requires !IsContainer(v) && Known(v)
    requires DecodeValue(d, at, unset).value == Some(Normal(v))
    ensures |Tight(v)| <= DecodeValue(d, at, unset).next - at
  {
    hide TokenAt, DoubleBytes, TightReal, IntegerBytes, CompoundBytes;
    TokenBounds(d, at, unset);
    ShortestForm(d, at, unset);
    if v.Real? {
      if IsIntegral(v.d) {
        IntegralBytes(v.d);
      } else {
        RealShortest(d, at, v.d, unset);
      }
    }
  }

  lemma IntegralBytes(x: Double)
    requires IsIntegral(x)
    ensures DoubleBytes(x) == IntegerBytes(SignedWrap(Whole(x), WORD))
  {}

  /** No byte string that is read as what v is read back as is shorter than the
      tight bytes of v. */
  lemma {:induction false} ShortestTree(d: seq<byte>, at: nat, v: Value, unset: nat)
    requires Everywhere(Known, v)
    requires DecodeValue(d, at, unset).value == Some(Normal(v))
    ensures |Tight(v)| <= DecodeValue(d, at, unset).next - at
    decreases v, 2
  {
    match v
    case Dict(pairs) => ShortestDict(d, at, pairs, unset);
    case Sequence(items) => ShortestList(d, at, items, unset);
    case Set(items) => ShortestList(d, at, items, unset);
    case _ => LeafShortest(d, at, v, unset);
  }

  lemma {:induction false} ShortestList(d: seq<byte>, at: nat, vs: seq<Value>, unset: nat)
    requires forall i :: 0 <= i < |vs| ==> Everywhere(Known, vs[i])
    requires DecodeValue(d, at, unset).value == Some(Sequence(NormalAll(vs)))
    ensures |CompoundBytes(LIST_TAG, Cut(|vs|))| + |TightAll(vs)| <= DecodeValue(d, at, unset).next - at
    decreases vs, 1
  {
    hide TokenAt, CompoundBytes, TightAll, NormalAll, DecodeItems, DecodePairs, Everywhere;
    var t := TokenAt(d, at, unset);
    TokenBounds(d, at, unset);
    ShortestForm(d, at, unset);
    assert t.token == List(|vs|);
    ShortestItems(d, t.next, vs, unset);
  }

  lemma {:induction false} ShortestDict(d: seq<byte>, at: nat, ps: seq<Pair>, unset: nat)
    requires forall i :: 0 <= i < |ps| ==> EverywhereInPair(Known, ps[i])
    requires DecodeValue(d, at, unset).value == Some(Dict(NormalPairs(ps)))
    ensures |CompoundBytes(DICTIONARY_TAG, Cut(|ps|))| + |TightPairs(ps)| <= DecodeValue(d, at, unset).next - at
    decreases ps, 1
  {
    hide TokenAt, CompoundBytes, TightPairs, NormalPairs, DecodeItems, DecodePairs, EverywhereInPair;
    var t := TokenAt(d, at, unset);
    TokenBounds(d, at, unset);
    ShortestForm(d, at, unset);
    assert t.token == Dictionary(|ps|);
    ShortestPairs(d, t.next, ps, unset);
  }

  lemma {:induction false} ShortestItems(d: seq<byte>, at: nat, vs: seq<Value>, unset: nat)
    requires forall i :: 0 <= i < |vs| ==> Everywhere(Known, vs[i])
    requires DecodeItems(d, at, |vs|, unset).items == Some(NormalAll(vs))
    ensures |TightAll(vs)| <= DecodeItems(d, at, |vs|, unset).next - at
    decreases vs, 0
  {
    hide DecodeValue, Tight, Normal, Everywhere;
    if vs == [] {
    } else {
      var v := DecodeValue(d, at, unset);
      TailItems(d, at, |vs|, unset, NormalAll(vs));
      assert NormalAll(vs)[1..] == NormalAll(vs[1..]);
      ShortestTree(d, at, vs[0], unset);
      ShortestItems(d, v.next, vs[1..], unset);
    }
  }

  lemma {:induction false} ShortestPairs(d: seq<byte>, at: nat, ps: seq<Pair>, unset: nat)
    requires forall i :: 0 <= i < |ps| ==> EverywhereInPair(Known, ps[i])
    requires DecodePairs(d, at, |ps|, unset).pairs == Some(NormalPairs(ps))
    ensures |TightPairs(ps)| <= DecodePairs(d, at, |ps|, unset).next - at
    decreases ps, 0
  {
    hide DecodeValue, Tight, Normal, Everywhere, TightPair, EverywhereInPair;
    if ps == [] {
    } else {
      var k := DecodeValue(d, at, unset);
      var v := DecodeValue(d, k.next, unset);
      TailPairs(d, at, |ps|, unset, NormalPairs(ps));
      assert NormalPairs(ps)[1..] == NormalPairs(ps[1..]);
      ShortestPair(d, at, ps[0], unset);
      ShortestPairs(d, v.next, ps[1..], unset);
    }
  }

  lemma {:induction false} ShortestPair(d: seq<byte>, at: nat, p: Pair, unset: nat)
    requires EverywhereInPair(Known, p)
    requires DecodeValue(d, at, unset).value == Some(Normal(p.key))
    requires DecodeValue(d, DecodeValue(d, at, unset).next, unset).value == Some(Normal(p.value))
    ensures |TightPair(p)| <= DecodeValue(d, DecodeValue(d, at, unset).next, unset).next - at
    decreases p, 0
  {
    hide DecodeValue, Tight, Normal, Everywhere;
    ShortestTree(d, at, p.key, unset);
    ShortestTree(d, DecodeValue(d, at, unset).next, p.value, unset);
  }

  // -- The writer's bytes --------------------------------------------------------------------

  /** The writer's bytes are as short as that exactly without such a NaN. */
  lemma {:induction false} TightSize(v: Value)
    ensures |Tight(v)| <= |Encode(v)|
    ensures |Tight(v)| == |Encode(v)| <==> Everywhere(Sharp, v)
    decreases v, 2
  {
    hide NarrowNaN, CompoundBytes, DoubleBytes, TightReal;
    match v
    case Dict(pairs) => TightPairsSize(pairs);
    case Sequence(items) => TightAllSize(items);
    case Set(items) => TightAllSize(items);
    case _ =>
  }

  lemma {:induction false} TightAllSize(vs: seq<Value>)
    ensures |TightAll(vs)| <= |EncodeAll(vs)|
    ensures |TightAll(vs)| == |EncodeAll(vs)| <==> forall i :: 0 <= i < |vs| ==> Everywhere(Sharp, vs[i])
    decreases vs, 1
  {
    hide Tight, Encode, Everywhere;
    if vs != [] {
      TightSize(vs[0]);
      TightAllSize(vs[1..]);
      assert forall i :: 1 <= i < |vs| ==> vs[i] == vs[1..][i - 1];
    }
  }

  lemma {:induction false} TightPairsSize(ps: seq<Pair>)
    ensures |TightPairs(ps)| <= |EncodePairs(ps)|
    ensures |TightPairs(ps)| == |EncodePairs(ps)| <==> forall i :: 0 <= i < |ps| ==> EverywhereInPair(Sharp, ps[i])
    decreases ps, 1
  {
    hide TightPair, EncodePair, EverywhereInPair;
    if ps != [] {
      TightPairSize(ps[0]);
      TightPairsSize(ps[1..]);
      assert forall i :: 1 <= i < |ps| ==> ps[i] == ps[1..][i - 1];
    }
  }

  lemma {:induction false} TightPairSize(p: Pair)
    ensures |TightPair(p)| <= |EncodePair(p)|
    ensures |TightPair(p)| == |EncodePair(p)| <==> EverywhereInPair(Sharp, p)
    decreases p, 0
  {
    hide Tight, Encode, Everywhere;
    TightSize(p.key);
    TightSize(p.value);
  }

  /** Reading always consumes at least n bytes to get what v is read back as. */
  ghost predicate Takes(v: Value, n: nat) {
    forall d: seq<byte>, at: nat, unset: nat | DecodeValue(d, at, unset).value == Some(Normal(v)) ::
      n <= DecodeValue(d, at, unset).next - at
  }

  /** The writer's bytes are the shortest that are read back as the tree exactly when no
      number in it is a NaN that binary32 can hold. */
  lemma ShortestTreeExactly(v: Value)
    requires Everywhere(Known, v) && Everywhere(Fits, v)
    ensures Takes(v, |Encode(v)|) <==> Everywhere(Sharp, v)
  {
    hide DecodeValue, Everywhere, Tight, Encode, Normal;
    TightSize(v);
    forall d: seq<byte>, at: nat, unset: nat | DecodeValue(d, at, unset).value == Some(Normal(v))
      ensures |Tight(v)| <= DecodeValue(d, at, unset).next - at
    {
      ShortestTree(d, at, v, unset);
    }
    TightRead(Tight(v), 0, v, 0);
  }

  // -- Depth -----------------------------------------------------------------------------

  function Depth(v: Value): nat
    decreases v, 1
  {
    match v
    case Dict(pairs) => 1 + DepthPairs(pairs)
    case Sequence(items) => 1 + DepthAll(items)
    case Set(items) => 1 + DepthAll(items)
    case EndPointer => 0
    case _ => 1
  }

  function DepthAll(vs: seq<Value>): nat
    decreases vs, 0
  {
    if vs == [] then 0 else Max(Depth(vs[0]), DepthAll(vs[1..]))
  }

  function DepthPairs(ps: seq<Pair>): nat
    decreases ps, 0
  {
    if ps == [] then 0 else Max(DepthPair(ps[0]), DepthPairs(ps[1..]))
  }

  function DepthPair(p: Pair): nat
    decreases p, 0
  {
    Max(Depth(p.key), Depth(p.value))
  }

  /** A container is one deeper than the deepest of its parts. */
  lemma {:induction false} DepthAtLeast(vs: seq<Value>, i: nat)
    requires i < |vs|
    ensures Depth(vs[i]) < Depth(Sequence(vs)) && Depth(vs[i]) < Depth(Set(vs))
  {
    hide Depth;
    DepthOfAll(vs, i);
    DepthOfContainers(vs, []);
  }

  lemma {:induction false} DepthOfAll(vs: seq<Value>, i: nat)
    requires i < |vs|
    ensures Depth(vs[i]) <= DepthAll(vs)
  {
    hide Depth;
    if i > 0 {
      DepthOfAll(vs[1..], i - 1);
    }
  }

  lemma DepthOfContainers(vs: seq<Value>, ps: seq<Pair>)
    ensures Depth(Sequence(vs)) == Depth(Set(vs)) == 1 + DepthAll(vs) && Depth(Dict(ps)) == 1 + DepthPairs(ps)
  {
    hide DepthAll, DepthPairs;
  }

  lemma {:induction false} DepthOfPairsAtLeast(ps: seq<Pair>, i: nat)
    requires i < |ps|
    ensures Depth(ps[i].key) < Depth(Dict(ps)) && Depth(ps[i].value) < Depth(Dict(ps))
    decreases |ps|
  {
    hide Depth;
    DepthOfContainers([], ps);
    if i > 0 {
      DepthOfContainers([], ps[1..]);
      DepthOfPairsAtLeast(ps[1..], i - 1);
    }
  }

  /** The tree is no deeper than the number of bytes consumed. */
  lemma {:induction false} DepthBound(d: seq<byte>, at: nat, unset: nat)
    ensures var r := DecodeValue(d, at, unset); r.value.Some? ==> Depth(r.value.value) <= r.next - at
    decreases Left(d, at), 0, 0
  {
    hide TokenAt, DecodeItems, DecodePairs, DepthAll, DepthPairs;
    TokenBounds(d, at, unset);
    var t := TokenAt(d, at, unset);
    match t.token
    case List(n) => DepthItemsBound(d, t.next, n, unset);
    case Dictionary(n) => DepthPairsBound(d, t.next, n, unset);
    case _ =>
  }

  lemma {:induction false} DepthItemsBound(d: seq<byte>, at: nat, n: nat, unset: nat)
    ensures var r := DecodeItems(d, at, n, unset); r.items.Some? ==> DepthAll(r.items.value) <= r.next - at
    decreases Left(d, at), 1, n
  {
    hide DecodeValue, Depth;
    if n > 0 {
      var v := DecodeValue(d, at, unset);
      DepthBound(d, at, unset);
      if v.value.Some? {
        var r := DecodeItems(d, v.next, n - 1, unset);
        DepthItemsBound(d, v.next, n - 1, unset);
        if r.items.Some? {
          assert ([v.value.value] + r.items.value)[1..] == r.items.value;
        }
      }
    }
  }

  lemma {:induction false} DepthPairsBound(d: seq<byte>, at: nat, n: nat, unset: nat)
    ensures var r := DecodePairs(d, at, n, unset); r.pairs.Some? ==> DepthPairs(r.pairs.value) <= r.next - at
    decreases Left(d, at), 1, n
  {
    hide DecodeValue, Depth;
    if n > 0 {
      var k := DecodeValue(d, at, unset);
      DepthBound(d, at, unset);
      if k.value.Some? {
        var v := DecodeValue(d, k.next, unset);
        DepthBound(d, k.next, unset);
        if v.value.Some? {
          var r := DecodePairs(d, v.next, n - 1, unset);
          DepthPairsBound(d, v.next, n - 1, unset);
          if r.pairs.Some? {
            assert ([Pair(k.value.value, v.value.value)] + r.pairs.value)[1..] == r.pairs.value;
          }
        }
      }
    }
  }

  // -- Recursion ---------------------------------------------------------------------------

  /** How many calls of the reader are open at once, at most, while it reads whatever
      stands at position at, up to an error if there is one. */
  function Nest(d: seq<byte>, at: nat, unset: nat): nat
    decreases Left(d, at), 0, 0
  {
    TokenBounds(d, at, unset);
    var t := TokenAt(d, at, unset);
    match t.token
    case List(n) => 1 + NestItems(d, t.next, n, unset)
    case Dictionary(n) => 1 + NestPairs(d, t.next, n, unset)
    case _ => 1
  }

  function NestItems(d: seq<byte>, at: nat, n: nat, unset: nat): nat
    decreases Left(d, at), 1, n
  {
    if n == 0 then 0
    else
      var v := DecodeValue(d, at, unset);
      Max(Nest(d, at, unset), if v.value.None? then 0 else NestItems(d, v.next, n - 1, unset))
  }

  function NestPairs(d: seq<byte>, at: nat, n: nat, unset: nat): nat
    decreases Left(d, at), 1, n
  {
    if n == 0 then 0
    else
      var k := DecodeValue(d, at, unset);
      if k.value.None? then Nest(d, at, unset)
      else
        var v := DecodeValue(d, k.next, unset);
        Max(Max(Nest(d, at, unset), Nest(d, k.next, unset)),
            if v.value.None? then 0 else NestPairs(d, v.next, n - 1, unset))
  }

  /** The recursion of the reader is bounded by the bytes that are left, whatever they
      are and however the reading ends. */
  lemma {:induction false} NestBound(d: seq<byte>, at: nat, unset: nat)
    ensures Nest(d, at, unset) <= Left(d, at) + 1
    decreases Left(d, at), 0, 0
  {
    hide TokenAt, NestItems, NestPairs;
    TokenBounds(d, at, unset);
    var t := TokenAt(d, at, unset);
    match t.token
    case List(n) => NestItemsBound(d, t.next, n, unset);
    case Dictionary(n) => NestPairsBound(d, t.next, n, unset);
    case _ =>
  }

  lemma {:induction false} NestItemsBound(d: seq<byte>, at: nat, n: nat, unset: nat)
    ensures NestItems(d, at, n, unset) <= Left(d, at) + 1
    decreases Left(d, at), 1, n
  {
    hide DecodeValue, Nest;
    if n > 0 {
      var v := DecodeValue(d, at, unset);
      NestBound(d, at, unset);
      if v.value.Some? {
        NestItemsBound(d, v.next, n - 1, unset);
      }
    }
  }

  lemma {:induction false} NestPairsBound(d: seq<byte>, at: nat, n: nat, unset: nat)
    ensures NestPairs(d, at, n, unset) <= Left(d, at) + 1
    decreases Left(d, at), 1, n
  {
    hide DecodeValue, Nest;
    if n > 0 {
      var k := DecodeValue(d, at, unset);
      NestBound(d, at, unset);
      if k.value.Some? {
        var v := DecodeValue(d, k.next, unset);
        NestBound(d, k.next, unset);
        if v.value.Some? {
          NestPairsBound(d, v.next, n - 1, unset);
        }
      }
    }
  }

  /** The bound is reached: every byte opens a list of one item. */
  lemma {:induction false} NestReached(d: seq<byte>, at: nat, unset: nat)
    requires at <= |d| && forall i :: at <= i < |d| ==> d[i] == 0xc1
    ensures Nest(d, at, unset) == Left(d, at) + 1
    decreases |d| - at
  {
    hide DecodeValue, NestItems, NestPairs;
    if at < |d| {
      NestReached(d, at + 1, unset);
      NestOne(d, at + 1, unset);
    }
  }

  lemma NestOne(d: seq<byte>, at: nat, unset: nat)
    ensures NestItems(d, at, 1, unset) == Nest(d, at, unset)
  {
    hide DecodeValue, Nest;
    assert DecodeValue(d, at, unset).value.Some? ==> NestItems(d, DecodeValue(d, at, unset).next, 0, unset) == 0;
  }
}
