/**
  Consequences for whole messages: when the two passes agree, that encodings are
  prefix free and canonical, and that a concatenation is split into its parts.
*/
module Framing {
  import opened Options
  import opened Words
  import opened Wire
  import opened Tokens
  import opened Values
  import opened Trees
  import Floats
  import Length

  // -- The sizing pass agrees with the writer ----------------------------------------

  /** What the sizing pass adds up for a tree. */
  function Measure(v: Value): nat
    decreases v, 1
  {
    match v
    case ByteArray(s) => Length.BinaryString(|s|)
    case Bytes(s) => Length.BinaryString(|s|)
    case Unicode(s) => Length.Utf8String(|s|)
    case Int(i) => Length.Integer(i)
    case Real(d) => Length.Real(d)
    case Nothing => Length.Null()
    case Dict(pairs) => Length.Compound(|pairs|) + MeasurePairs(pairs)
    case Sequence(items) => Length.Compound(|items|) + MeasureAll(items)
    case Set(items) => Length.Compound(|items|) + MeasureAll(items)
    case Foreign => 0
    case EndPointer => 0
  }

  function MeasureAll(vs: seq<Value>): nat
    decreases vs, 0
  {
    if vs == [] then 0 else Measure(vs[0]) + MeasureAll(vs[1..])
  }

  function MeasurePairs(ps: seq<Pair>): nat
    decreases ps, 0
  {
    if ps == [] then 0 else MeasurePair(ps[0]) + MeasurePairs(ps[1..])
  }

  function MeasurePair(p: Pair): nat
    decreases p, 0
  {
    Measure(p.key) + Measure(p.value)
  }

  lemma LeafMeasured(v: Value)
    requires !IsContainer(v)
    ensures |Encode(v)| <= Measure(v)
    ensures |Encode(v)| == Measure(v) <==> SizesAgree(v)
  {
    match v
    case ByteArray(s) => Length.StringMeasured(BINARY_TAG, s);
    case Bytes(s) => Length.StringMeasured(BINARY_TAG, s);
    case Unicode(s) => Length.StringMeasured(UTF8_TAG, s);
    case _ =>
  }

  /** The writer never needs more room than was measured, and it fills that room
      exactly when the sizes agree at every node. */
  lemma {:induction false} Measured(v: Value)
    ensures |Encode(v)| <= Measure(v)
    ensures |Encode(v)| == Measure(v) <==> Everywhere(SizesAgree, v)
    decreases v, 2
  {
    hide CompoundBytes, Length.Compound, EncodeAll, EncodePairs, MeasureAll, MeasurePairs;
    hide Utf8Bytes, BinaryBytes, IntegerBytes, DoubleBytes, Length.Utf8String, Length.BinaryString;
    match v
    case Dict(pairs) => Length.CompoundMeasured(DICTIONARY_TAG, |pairs|); MeasuredPairs(pairs);
    case Sequence(items) => Length.CompoundMeasured(LIST_TAG, |items|); MeasuredAll(items);
    case Set(items) => Length.CompoundMeasured(LIST_TAG, |items|); MeasuredAll(items);
    case _ => LeafMeasured(v);
  }

  lemma {:induction false} MeasuredAll(vs: seq<Value>)
    ensures |EncodeAll(vs)| <= MeasureAll(vs)
    ensures |EncodeAll(vs)| == MeasureAll(vs) <==> forall i :: 0 <= i < |vs| ==> Everywhere(SizesAgree, vs[i])
    decreases vs, 0
  {
    hide Encode, Measure, Everywhere;
    if vs == [] {
    } else {
      Measured(vs[0]);
      MeasuredAll(vs[1..]);
      AllCons(vs);
    }
  }

  /** Sizes that fit agree. */
  lemma {:induction false} FittingAgrees(v: Value)
    requires Everywhere(Fits, v)
    ensures Everywhere(SizesAgree, v)
    decreases v, 1
  {
    match v
    case Dict(pairs) =>
      forall i | 0 <= i < |pairs| ensures EverywhereInPair(SizesAgree, pairs[i]) { FittingPairAgrees(pairs[i]); }
    case Sequence(items) =>
      forall i | 0 <= i < |items| ensures Everywhere(SizesAgree, items[i]) { FittingAgrees(items[i]); }
    case Set(items) =>
      forall i | 0 <= i < |items| ensures Everywhere(SizesAgree, items[i]) { FittingAgrees(items[i]); }
    case _ =>
  }

  lemma {:induction false} FittingPairAgrees(p: Pair)
    requires EverywhereInPair(Fits, p)
    ensures EverywhereInPair(SizesAgree, p)
    decreases p, 0
  {
    FittingAgrees(p.key);
    FittingAgrees(p.value);
  }

  lemma AllCons(vs: seq<Value>)
    requires vs != []
    ensures (forall i :: 0 <= i < |vs| ==> Everywhere(SizesAgree, vs[i])) <==>
            Everywhere(SizesAgree, vs[0]) && forall i :: 0 <= i < |vs[1..]| ==> Everywhere(SizesAgree, vs[1..][i])
  {
    hide Everywhere;
    forall i | 1 <= i < |vs|
      ensures vs[i] == vs[1..][i - 1]
    {}
  }

  lemma {:induction false} MeasuredPairs(ps: seq<Pair>)
    ensures |EncodePairs(ps)| <= MeasurePairs(ps)
    ensures |EncodePairs(ps)| == MeasurePairs(ps) <==> forall i :: 0 <= i < |ps| ==> EverywhereInPair(SizesAgree, ps[i])
    decreases ps, 0
  {
    hide EncodePair, MeasurePair, EverywhereInPair;
    if ps == [] {
    } else {
      MeasuredPair(ps[0]);
      MeasuredPairs(ps[1..]);
      forall i | 1 <= i < |ps|
        ensures ps[i] == ps[1..][i - 1]
      {}
    }
  }

  lemma {:induction false} MeasuredPair(p: Pair)
    ensures |EncodePair(p)| <= MeasurePair(p)
    ensures |EncodePair(p)| == MeasurePair(p) <==> EverywhereInPair(SizesAgree, p)
    decreases p, 0
  {
    hide Encode, Measure, Everywhere;
    Measured(p.key);
    Measured(p.value);
  }

  // -- Canonical and prefix free -----------------------------------------------------

  /** The normal form has the same bytes. */
  lemma {:induction false} EncodeNormal(v: Value)
    requires Everywhere(Known, v)
    ensures Encode(Normal(v)) == Encode(v)
    decreases v, 1
  {
    match v
    case Dict(pairs) => EncodeNormalPairs(pairs);
    case Sequence(items) => EncodeNormalAll(items);
    case Set(items) => EncodeNormalAll(items);
    case _ =>
  }

  lemma {:induction false} EncodeNormalAll(vs: seq<Value>)
    requires forall i :: 0 <= i < |vs| ==> Everywhere(Known, vs[i])
    ensures EncodeAll(NormalAll(vs)) == EncodeAll(vs)
    decreases vs, 0
  {
    hide Encode, Normal, Everywhere;
    if vs == [] {
    } else {
      EncodeNormal(vs[0]);
      EncodeNormalAll(vs[1..]);
      assert NormalAll(vs)[1..] == NormalAll(vs[1..]);
    }
  }

  lemma {:induction false} EncodeNormalPairs(ps: seq<Pair>)
    requires forall i :: 0 <= i < |ps| ==> EverywhereInPair(Known, ps[i])
    ensures EncodePairs(NormalPairs(ps)) == EncodePairs(ps)
    decreases ps, 0
  {
    hide Encode, Normal, Everywhere;
    if ps == [] {
    } else {
      EncodeNormalPair(ps[0]);
      EncodeNormalPairs(ps[1..]);
      assert NormalPairs(ps)[1..] == NormalPairs(ps[1..]);
    }
  }

  lemma {:induction false} EncodeNormalPair(p: Pair)
    requires EverywhereInPair(Known, p)
    ensures EncodePair(NormalPair(p)) == EncodePair(p)
    decreases p, 0
  {
    hide Encode, Normal, Everywhere;
    EncodeNormal(p.key);
    EncodeNormal(p.value);
  }

  /** If the bytes of one tree begin the bytes of another, the two are the same
      tree up to normal form and the bytes are the same. */
  lemma {:induction false} PrefixFree(v: Value, w: Value)
    requires Everywhere(Known, v) && Everywhere(Fits, v)
    requires Everywhere(Known, w) && Everywhere(Fits, w)
    requires Encode(v) <= Encode(w)
    ensures Normal(v) == Normal(w) && Encode(v) == Encode(w)
  {
    hide Encode, Normal, DecodeValue, Everywhere;
    RoundTrip(Encode(w), 0, v, 0);
    RoundTrip(Encode(w), 0, w, 0);
  }

  /** Trees have the same bytes exactly when they have the same normal form. */
  lemma {:induction false} SameBytesSameTree(v: Value, w: Value)
    requires Everywhere(Known, v) && Everywhere(Fits, v)
    requires Everywhere(Known, w) && Everywhere(Fits, w)
    ensures Encode(v) == Encode(w) <==> Normal(v) == Normal(w)
  {
    hide Encode, Normal, Everywhere;
    EncodeNormal(v);
    EncodeNormal(w);
    if Encode(v) == Encode(w) {
      PrefixFree(v, w);
    }
  }

  // -- A concatenation is split into its parts ----------------------------------------

  lemma AllStep(d: seq<byte>, at: nat, mid: nat, end: nat, unset: nat, v: Value, vs: seq<Value>)
    requires DecodeValue(d, at, unset) == Decoded(Some(v), mid) && !v.EndPointer?
    requires DecodeAll(d, mid, unset) == DecodedItems(Some(vs), end)
    ensures DecodeAll(d, at, unset) == DecodedItems(Some([v] + vs), end)
  {
    hide DecodeValue;
  }

  lemma AtEnd(d: seq<byte>, unset: nat)
    ensures DecodeAll(d, |d|, unset) == DecodedItems(Some([]), |d|)
  {
    hide DecodeItems, DecodePairs;
  }

  /** Every concatenation of trees whose sizes fit is split into exactly their
      normal forms, and the end is met exactly at its end. */
  lemma {:induction false} Split(d: seq<byte>, at: nat, vs: seq<Value>, unset: nat)
    requires forall i :: 0 <= i < |vs| ==> Everywhere(Known, vs[i]) && Everywhere(Fits, vs[i])
    requires at <= |d| && d[at..] == EncodeAll(vs)
    ensures DecodeAll(d, at, unset) == DecodedItems(Some(NormalAll(vs)), |d|)
    decreases vs
  {
    hide Encode, DecodeValue, Normal, Everywhere, DecodeAll;
    if vs == [] {
      AtEnd(d, unset);
    } else {
      AllParts(d, at, vs);
      var mid := at + |Encode(vs[0])|;
      RoundTrip(d, at, vs[0], unset);
      Split(d, mid, vs[1..], unset);
      NormalIsNoEnd(vs[0]);
      AllStep(d, at, mid, |d|, unset, Normal(vs[0]), NormalAll(vs[1..]));
    }
  }

  lemma NormalIsNoEnd(v: Value)
    requires Everywhere(Known, v)
    ensures !Normal(v).EndPointer?
  {}

  lemma TailAll(d: seq<byte>, at: nat, unset: nat, vs: seq<Value>)
    requires vs != []
    ensures DecodeAll(d, at, unset).items == Some(vs) ==>
      var v := DecodeValue(d, at, unset);
      v.value == Some(vs[0]) && DecodeAll(d, v.next, unset).items == Some(vs[1..])
  {}

  /** A message is read back exactly when every size in every tree fits. */
  lemma {:induction false} SplitExactly(d: seq<byte>, at: nat, vs: seq<Value>, unset: nat)
    requires forall i :: 0 <= i < |vs| ==> Everywhere(Known, vs[i])
    requires at <= |d| && d[at..] == EncodeAll(vs)
    ensures DecodeAll(d, at, unset).items == Some(NormalAll(vs)) <==>
            forall i :: 0 <= i < |vs| ==> Everywhere(Fits, vs[i])
    decreases vs
  {
    hide Encode, DecodeValue, Normal, Everywhere, DecodeAll;
    if forall i :: 0 <= i < |vs| ==> Everywhere(Fits, vs[i]) {
      Split(d, at, vs, unset);
    } else {
      AllParts(d, at, vs);
      TailAll(d, at, unset, NormalAll(vs));
      assert NormalAll(vs)[1..] == NormalAll(vs[1..]);
      RoundTripExactly(d, at, vs[0], unset);
      if Everywhere(Fits, vs[0]) {
        SplitExactly(d, at + |Encode(vs[0])|, vs[1..], unset);
      }
    }
  }

  /** The law of the module: for all argument tuples of supported objects the bytes
      are exactly as many as measured and are read back as the normal forms. */
  lemma Restored(args: seq<Value>, unset: nat)
    requires forall i :: 0 <= i < |args| ==> Everywhere(Known, args[i]) && Everywhere(Fits, args[i])
    ensures |EncodeAll(args)| == MeasureAll(args)
    ensures DecodeAll(EncodeAll(args), 0, unset) == DecodedItems(Some(NormalAll(args)), MeasureAll(args))
  {
    hide Everywhere, EncodeAll, MeasureAll, DecodeAll;
    forall i | 0 <= i < |args|
      ensures Everywhere(SizesAgree, args[i])
    {
      FittingAgrees(args[i]);
    }
    MeasuredAll(args);
    assert EncodeAll(args)[0..] == EncodeAll(args);
    Split(EncodeAll(args), 0, args, unset);
  }

  // -- The kinds of objects ------------------------------------------------------------

  /** What each kind is read back as. */
  lemma NormalByKind(s: seq<byte>, i: int64, x: Floats.Double, vs: seq<Value>, ps: seq<Pair>, k: nat)
    requires Floats.Convertible(x)
    ensures Normal(ByteArray(s)) == Normal(Bytes(s)) == Bytes(s) && Normal(Unicode(s)) == Unicode(s)
    ensures Normal(Int(i)) == Int(i) && Normal(Nothing) == Nothing
    ensures Normal(Real(x)) == if Floats.IsIntegral(x) then Int(Floats.Whole(x)) else Real(x)
    ensures Normal(Sequence(vs)).Sequence? && Normal(Set(vs)) == Normal(Sequence(vs)) && Normal(Dict(ps)).Dict?
    ensures |Normal(Sequence(vs)).items| == |vs| && |Normal(Dict(ps)).pairs| == |ps|
    ensures k < |vs| ==> Normal(Sequence(vs)).items[k] == Normal(vs[k])
    ensures k < |ps| ==> Normal(Dict(ps)).pairs[k] == Pair(Normal(ps[k].key), Normal(ps[k].value))
  {
    hide Floats.IsIntegral, Floats.Whole, NormalAll, NormalPairs, Floats.Convertible;
    WholeInRange(x);
    if k < |vs| {
      NormalAt(vs, k);
    }
    if k < |ps| {
      NormalPairAt(ps, k);
    }
  }

  /** The first byte tells the kinds apart, and byte arrays, sets and integral floats are
      sent as what they are read back as. */
  lemma KindOnTheWire(v: Value)
    requires Known(v)
    ensures Encode(v) != [] && var c := Encode(v)[0];
      match v
      case ByteArray(s) => Encode(v) == Encode(Bytes(s))
      case Bytes(_) => 0xa0 <= c < 0xc0
      case Unicode(_) => 0x80 <= c < 0xa0
      case Int(_) => c < 0x80 && c !in {0x40, 0x41, 0x42}
      case Real(x) => if Floats.IsIntegral(x) then Encode(v) == Encode(Normal(v)) else c in {0x41, 0x42}
      case Nothing => Encode(v) == [0x40]
      case Dict(_) => c >= 0xe0
      case Sequence(_) => 0xc0 <= c < 0xe0
      case Set(items) => Encode(v) == Encode(Sequence(items))
      case _ => false
  {
    hide EncodeAll, EncodePairs, Floats.IsIntegral, Floats.Whole, Floats.FitsFloat, Floats.Convertible;
    if v.Real? {
      WholeInRange(v.d);
    }
  }

  /** A byte string of 2^32 bytes is measured in full, is sent as the empty one, and is
      read back as that. */
  lemma FourGigabytes(s: seq<byte>, unset: nat)
    requires |s| == 0x1_0000_0000
    ensures Measure(Bytes(s)) == 0x1_0000_0005 && Encode(Bytes(s)) == [BINARY_TAG]
    ensures DecodeValue([BINARY_TAG], 0, unset) == Decoded(Some(Bytes([])), 1)
  {
    assert Holds([BINARY_TAG], 0, Encode(Bytes([])));
    RoundTrip([BINARY_TAG], 0, Bytes([]), unset);
  }
}
