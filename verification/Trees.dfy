/**
  The tree codec as a whole: reading undoes writing, at any place in any bytes,
  exactly for the trees whose sizes fit 32 bits.
*/
module Trees {
  import opened Options
  import opened Words
  import opened Floats
  import opened Wire
  import opened Decoder
  import opened Tokens
  import opened Values

  // -- Reading undoes writing --------------------------------------------------------

  /** One more item in front of items that are read already. */
  lemma ItemsStep(d: seq<byte>, at: nat, mid: nat, end: nat, n: nat, unset: nat, v: Value, vs: seq<Value>)
    requires DecodeValue(d, at, unset) == Decoded(Some(v), mid)
    requires DecodeItems(d, mid, n, unset) == DecodedItems(Some(vs), end)
    ensures DecodeItems(d, at, n + 1, unset) == DecodedItems(Some([v] + vs), end)
  {}

  lemma PairsStep(d: seq<byte>, at: nat, mid: nat, behind: nat, end: nat, n: nat, unset: nat,
                  k: Value, v: Value, ps: seq<Pair>)
    requires DecodeValue(d, at, unset) == Decoded(Some(k), mid)
    requires DecodeValue(d, mid, unset) == Decoded(Some(v), behind)
    requires DecodePairs(d, behind, n, unset) == DecodedPairs(Some(ps), end)
    ensures DecodePairs(d, at, n + 1, unset) == DecodedPairs(Some([Pair(k, v)] + ps), end)
  {}

  lemma AllParts(d: seq<byte>, at: nat, vs: seq<Value>)
    requires vs != [] && Holds(d, at, EncodeAll(vs))
    ensures Holds(d, at, Encode(vs[0])) && Holds(d, at + |Encode(vs[0])|, EncodeAll(vs[1..]))
    ensures |EncodeAll(vs)| == |Encode(vs[0])| + |EncodeAll(vs[1..])|
  {
    hide Encode, Holds;
    HoldsParts(d, at, Encode(vs[0]), EncodeAll(vs[1..]));
  }

  lemma PairsParts(d: seq<byte>, at: nat, ps: seq<Pair>)
    requires ps != [] && Holds(d, at, EncodePairs(ps))
    ensures Holds(d, at, Encode(ps[0].key)) && Holds(d, at + |Encode(ps[0].key)|, Encode(ps[0].value))
    ensures Holds(d, at + |EncodePair(ps[0])|, EncodePairs(ps[1..]))
    ensures |EncodePair(ps[0])| == |Encode(ps[0].key)| + |Encode(ps[0].value)|
    ensures |EncodePairs(ps)| == |EncodePair(ps[0])| + |EncodePairs(ps[1..])|
  {
    hide Encode, Holds;
    HoldsParts(d, at, EncodePair(ps[0]), EncodePairs(ps[1..]));
    HoldsParts(d, at, Encode(ps[0].key), Encode(ps[0].value));
  }

  lemma LeafRead(d: seq<byte>, at: nat, v: Value, unset: nat)
    requires !IsContainer(v) && Known(v) && Fits(v) && Holds(d, at, Encode(v))
    ensures DecodeValue(d, at, unset) == Decoded(Some(Normal(v)), at + |Encode(v)|)
  {
    hide TokenAt;
    match v
    case ByteArray(s) => BytesRead(d, at, s, unset);
    case Bytes(s) => BytesRead(d, at, s, unset);
    case Unicode(s) => TextRead(d, at, s, unset);
    case Int(i) => IntegerRead(d, at, i, unset);
    case Real(x) => RealRead(d, at, x, unset);
    case Nothing => NullRead(d, at, unset);
  }

  lemma BytesRead(d: seq<byte>, at: nat, s: seq<byte>, unset: nat)
    requires |s| < 0x1_0000_0000 && Holds(d, at, BinaryBytes(s))
    ensures DecodeValue(d, at, unset) == Decoded(Some(Bytes(s)), at + |BinaryBytes(s)|)
  {
    hide TokenAt;
    BinaryRead(d, at, s, unset);
    assert s[..|s|] == s;
  }

  lemma RealRead(d: seq<byte>, at: nat, x: Double, unset: nat)
    requires Convertible(x) && Holds(d, at, DoubleBytes(x))
    ensures DecodeValue(d, at, unset) == Decoded(Some(Normal(Value.Real(x))), at + |DoubleBytes(x)|)
  {
    hide TokenAt;
    DoubleRead(d, at, x, unset);
    WholeInRange(x);
  }

  lemma WholeInRange(x: Double)
    requires Convertible(x)
    ensures IsIntegral(x) ==> SignedWrap(Whole(x), WORD) == Whole(x)
  {
    if IsIntegral(x) {
      SignedOfUnsigned(Whole(x), WORD);
    }
  }

  lemma TextRead(d: seq<byte>, at: nat, s: seq<byte>, unset: nat)
    requires |s| < 0x1_0000_0000 && Holds(d, at, Utf8Bytes(s))
    ensures var t := TokenAt(d, at, unset);
      && t.token == Utf8String(at + |CompoundBytes(UTF8_TAG, |s|)|, |s|)
      && t.next == at + |Utf8Bytes(s)|
      && Holds(d, t.token.start, s + [0]) && Holds(d, t.token.start, s)
  {
    hide TokenAt;
    Utf8Read(d, at, s, unset);
    assert s[..|s|] == s;
    HoldsParts(d, TokenAt(d, at, unset).token.start, s, [0]);
  }

  lemma ListUnfold(d: seq<byte>, at: nat, n: nat, h: nat, unset: nat)
    requires TokenAt(d, at, unset) == Scan(List(n), h)
    ensures var r := DecodeItems(d, h, n, unset);
      DecodeValue(d, at, unset) == Decoded(if r.items.Some? then Some(Sequence(r.items.value)) else None, r.next)
  {}

  lemma DictUnfold(d: seq<byte>, at: nat, n: nat, h: nat, unset: nat)
    requires TokenAt(d, at, unset) == Scan(Dictionary(n), h)
    ensures var r := DecodePairs(d, h, n, unset);
      DecodeValue(d, at, unset) == Decoded(if r.pairs.Some? then Some(Dict(r.pairs.value)) else None, r.next)
  {}

  /** The header of a list is read and the items behind it follow. */
  lemma ListParts(d: seq<byte>, at: nat, vs: seq<Value>, n: uint32, h: nat, unset: nat)
    requires n == Cut(|vs|) && h == at + |CompoundBytes(LIST_TAG, n)|
    requires Holds(d, at, CompoundBytes(LIST_TAG, n) + EncodeAll(vs))
    ensures Holds(d, h, EncodeAll(vs))
    ensures var r := DecodeItems(d, h, n, unset);
      DecodeValue(d, at, unset) == Decoded(if r.items.Some? then Some(Sequence(r.items.value)) else None, r.next)
  {
    hide TokenAt, DecodeValue, EncodeAll;
    HoldsParts(d, at, CompoundBytes(LIST_TAG, n), EncodeAll(vs));
    ListRead(d, at, n, unset);
    ListUnfold(d, at, n, h, unset);
  }

  lemma DictParts(d: seq<byte>, at: nat, ps: seq<Pair>, n: uint32, h: nat, unset: nat)
    requires n == Cut(|ps|) && h == at + |CompoundBytes(DICTIONARY_TAG, n)|
    requires Holds(d, at, CompoundBytes(DICTIONARY_TAG, n) + EncodePairs(ps))
    ensures Holds(d, h, EncodePairs(ps))
    ensures var r := DecodePairs(d, h, n, unset);
      DecodeValue(d, at, unset) == Decoded(if r.pairs.Some? then Some(Dict(r.pairs.value)) else None, r.next)
  {
    hide TokenAt, DecodeValue, EncodePairs;
    HoldsParts(d, at, CompoundBytes(DICTIONARY_TAG, n), EncodePairs(ps));
    DictionaryRead(d, at, n, unset);
    DictUnfold(d, at, n, h, unset);
  }

  /** A tree whose sizes fit is read back as its normal form, with the cursor right
      behind it, wherever it stands and whatever follows. */
  lemma {:induction false} RoundTrip(d: seq<byte>, at: nat, v: Value, unset: nat)
    requires Everywhere(Known, v) && Everywhere(Fits, v) && Holds(d, at, Encode(v))
    ensures DecodeValue(d, at, unset) == Decoded(Some(Normal(v)), at + |Encode(v)|)
    decreases v, 2
  {
    match v
    case Dict(pairs) => RoundTripDict(d, at, pairs, unset);
    case Sequence(items) => RoundTripList(d, at, items, unset);
    case Set(items) => RoundTripList(d, at, items, unset);
    case _ => LeafRead(d, at, v, unset);
  }

  lemma {:induction false} RoundTripList(d: seq<byte>, at: nat, vs: seq<Value>, unset: nat)
    requires |vs| < 0x1_0000_0000 && forall i :: 0 <= i < |vs| ==> Everywhere(Known, vs[i]) && Everywhere(Fits, vs[i])
    requires Holds(d, at, CompoundBytes(LIST_TAG, Cut(|vs|)) + EncodeAll(vs))
    ensures DecodeValue(d, at, unset) == Decoded(Some(Sequence(NormalAll(vs))),
                                                 at + |CompoundBytes(LIST_TAG, Cut(|vs|))| + |EncodeAll(vs)|)
    decreases vs, 1
  {
    hide DecodeValue, EncodeAll, EncodePairs, DecodeItems, DecodePairs, Everywhere;
    var h := at + |CompoundBytes(LIST_TAG, Cut(|vs|))|;
    ListParts(d, at, vs, Cut(|vs|), h, unset);
    RoundTripItems(d, h, vs, unset);
  }

  lemma {:induction false} RoundTripDict(d: seq<byte>, at: nat, ps: seq<Pair>, unset: nat)
    requires |ps| < 0x1_0000_0000
    requires forall i :: 0 <= i < |ps| ==> EverywhereInPair(Known, ps[i]) && EverywhereInPair(Fits, ps[i])
    requires Holds(d, at, CompoundBytes(DICTIONARY_TAG, Cut(|ps|)) + EncodePairs(ps))
    ensures DecodeValue(d, at, unset) == Decoded(Some(Dict(NormalPairs(ps))),
                                                 at + |CompoundBytes(DICTIONARY_TAG, Cut(|ps|))| + |EncodePairs(ps)|)
    decreases ps, 1
  {
    hide DecodeValue, EncodeAll, EncodePairs, DecodeItems, DecodePairs, Everywhere;
    var h := at + |CompoundBytes(DICTIONARY_TAG, Cut(|ps|))|;
    DictParts(d, at, ps, Cut(|ps|), h, unset);
    RoundTripPairs(d, h, ps, unset);
  }

  lemma {:induction false} RoundTripItems(d: seq<byte>, at: nat, vs: seq<Value>, unset: nat)
    requires forall i :: 0 <= i < |vs| ==> Everywhere(Known, vs[i]) && Everywhere(Fits, vs[i])
    requires Holds(d, at, EncodeAll(vs))
    ensures DecodeItems(d, at, |vs|, unset) == DecodedItems(Some(NormalAll(vs)), at + |EncodeAll(vs)|)
    decreases vs, 0
  {
    hide Encode, DecodeValue, Normal, Everywhere;
    if vs == [] {
    } else {
      AllParts(d, at, vs);
      var mid := at + |Encode(vs[0])|;
      RoundTrip(d, at, vs[0], unset);
      RoundTripItems(d, mid, vs[1..], unset);
      ItemsStep(d, at, mid, at + |EncodeAll(vs)|, |vs| - 1, unset, Normal(vs[0]), NormalAll(vs[1..]));
    }
  }

  lemma {:induction false} RoundTripPairs(d: seq<byte>, at: nat, ps: seq<Pair>, unset: nat)
    requires forall i :: 0 <= i < |ps| ==> EverywhereInPair(Known, ps[i]) && EverywhereInPair(Fits, ps[i])
    requires Holds(d, at, EncodePairs(ps))
    ensures DecodePairs(d, at, |ps|, unset) == DecodedPairs(Some(NormalPairs(ps)), at + |EncodePairs(ps)|)
    decreases ps, 0
  {
    hide Encode, DecodeValue, Normal, Everywhere;
    if ps == [] {
    } else {
      PairsParts(d, at, ps);
      var mid := at + |Encode(ps[0].key)|;
      var behind := at + |EncodePair(ps[0])|;
      RoundTripPair(d, at, mid, ps[0], unset);
      RoundTripPairs(d, behind, ps[1..], unset);
      PairsStep(d, at, mid, behind, at + |EncodePairs(ps)|, |ps| - 1, unset,
                Normal(ps[0].key), Normal(ps[0].value), NormalPairs(ps[1..]));
    }
  }

  lemma {:induction false} RoundTripPair(d: seq<byte>, at: nat, mid: nat, p: Pair, unset: nat)
    requires EverywhereInPair(Known, p) && EverywhereInPair(Fits, p)
    requires Holds(d, at, Encode(p.key)) && mid == at + |Encode(p.key)| && Holds(d, mid, Encode(p.value))
    ensures DecodeValue(d, at, unset) == Decoded(Some(Normal(p.key)), mid)
    ensures DecodeValue(d, mid, unset) == Decoded(Some(Normal(p.value)), mid + |Encode(p.value)|)
    decreases p, 0
  {
    hide Encode, DecodeValue, Normal, Everywhere;
    RoundTrip(d, at, p.key, unset);
    RoundTrip(d, mid, p.value, unset);
  }

  // -- and only then ---------------------------------------------------------------

  lemma LeafMisread(d: seq<byte>, at: nat, v: Value, unset: nat)
    requires !IsContainer(v) && !Fits(v) && Holds(d, at, Encode(v))
    ensures DecodeValue(d, at, unset).value != Some(Normal(v))
  {
    hide TokenAt;
    match v
    case ByteArray(s) => BinaryRead(d, at, s, unset);
    case Bytes(s) => BinaryRead(d, at, s, unset);
    case Unicode(s) => Utf8Read(d, at, s, unset);
  }

  /** A tree with a size of 2^32 or more anywhere is not read back: its header says
      a smaller size, and what is left over is taken for the siblings. */
  lemma {:induction false} Misread(d: seq<byte>, at: nat, v: Value, unset: nat)
    requires Everywhere(Known, v) && !Everywhere(Fits, v) && Holds(d, at, Encode(v))
    ensures DecodeValue(d, at, unset).value != Some(Normal(v))
    decreases v, 2
  {
    match v
    case Dict(pairs) => MisreadDict(d, at, pairs, unset);
    case Sequence(items) => MisreadList(d, at, items, unset);
    case Set(items) => MisreadList(d, at, items, unset);
    case _ => LeafMisread(d, at, v, unset);
  }

  lemma {:induction false} MisreadList(d: seq<byte>, at: nat, vs: seq<Value>, unset: nat)
    requires forall i :: 0 <= i < |vs| ==> Everywhere(Known, vs[i])
    requires |vs| < 0x1_0000_0000 ==> exists i :: 0 <= i < |vs| && !Everywhere(Fits, vs[i])
    requires Holds(d, at, CompoundBytes(LIST_TAG, Cut(|vs|)) + EncodeAll(vs))
    ensures DecodeValue(d, at, unset).value != Some(Sequence(NormalAll(vs)))
    decreases vs, 1
  {
    hide DecodeValue, EncodeAll, EncodePairs, DecodeItems, DecodePairs, Everywhere;
    var h := at + |CompoundBytes(LIST_TAG, Cut(|vs|))|;
    ListParts(d, at, vs, Cut(|vs|), h, unset);
    if |vs| < 0x1_0000_0000 {
      MisreadItems(d, h, vs, unset);
    }
  }

  lemma {:induction false} MisreadDict(d: seq<byte>, at: nat, ps: seq<Pair>, unset: nat)
    requires forall i :: 0 <= i < |ps| ==> EverywhereInPair(Known, ps[i])
    requires |ps| < 0x1_0000_0000 ==> exists i :: 0 <= i < |ps| && !EverywhereInPair(Fits, ps[i])
    requires Holds(d, at, CompoundBytes(DICTIONARY_TAG, Cut(|ps|)) + EncodePairs(ps))
    ensures DecodeValue(d, at, unset).value != Some(Dict(NormalPairs(ps)))
    decreases ps, 1
  {
    hide DecodeValue, EncodeAll, EncodePairs, DecodeItems, DecodePairs, Everywhere;
    var h := at + |CompoundBytes(DICTIONARY_TAG, Cut(|ps|))|;
    DictParts(d, at, ps, Cut(|ps|), h, unset);
    if |ps| < 0x1_0000_0000 {
      MisreadPairs(d, h, ps, unset);
    }
  }

  lemma {:induction false} MisreadItems(d: seq<byte>, at: nat, vs: seq<Value>, unset: nat)
    requires forall i :: 0 <= i < |vs| ==> Everywhere(Known, vs[i])
    requires exists i :: 0 <= i < |vs| && !Everywhere(Fits, vs[i])
    requires Holds(d, at, EncodeAll(vs))
    ensures DecodeItems(d, at, |vs|, unset).items != Some(NormalAll(vs))
    decreases vs, 0
  {
    hide Encode, DecodeValue, Normal, Everywhere;
    AllParts(d, at, vs);
    var v := DecodeValue(d, at, unset);
    if Everywhere(Fits, vs[0]) {
      RoundTrip(d, at, vs[0], unset);
      MisreadItems(d, v.next, vs[1..], unset);
      TailItems(d, at, |vs|, unset, NormalAll(vs));
    } else {
      Misread(d, at, vs[0], unset);
      TailItems(d, at, |vs|, unset, NormalAll(vs));
    }
  }

  /** Items that are read are the first item and then the others. */
  lemma TailItems(d: seq<byte>, at: nat, n: nat, unset: nat, vs: seq<Value>)
    requires n > 0 && |vs| == n
    ensures DecodeItems(d, at, n, unset).items == Some(vs) ==>
      var v := DecodeValue(d, at, unset);
      v.value == Some(vs[0]) && DecodeItems(d, v.next, n - 1, unset).items == Some(vs[1..])
  {}

  lemma TailPairs(d: seq<byte>, at: nat, n: nat, unset: nat, ps: seq<Pair>)
    requires n > 0 && |ps| == n
    ensures DecodePairs(d, at, n, unset).pairs == Some(ps) ==>
      var k := DecodeValue(d, at, unset); var v := DecodeValue(d, k.next, unset);
      && k.value == Some(ps[0].key) && v.value == Some(ps[0].value)
      && DecodePairs(d, v.next, n - 1, unset).pairs == Some(ps[1..])
  {}

  lemma {:induction false} MisreadPairs(d: seq<byte>, at: nat, ps: seq<Pair>, unset: nat)
    requires forall i :: 0 <= i < |ps| ==> EverywhereInPair(Known, ps[i])
    requires exists i :: 0 <= i < |ps| && !EverywhereInPair(Fits, ps[i])
    requires Holds(d, at, EncodePairs(ps))
    ensures DecodePairs(d, at, |ps|, unset).pairs != Some(NormalPairs(ps))
    decreases ps, 0
  {
    hide Encode, DecodeValue, Normal, Everywhere;
    PairsParts(d, at, ps);
    TailPairs(d, at, |ps|, unset, NormalPairs(ps));
    var mid := at + |Encode(ps[0].key)|;
    if EverywhereInPair(Fits, ps[0]) {
      RoundTripPair(d, at, mid, ps[0], unset);
      MisreadPairs(d, at + |EncodePair(ps[0])|, ps[1..], unset);
    } else {
      MisreadPair(d, at, mid, ps[0], unset);
    }
  }

  lemma {:induction false} MisreadPair(d: seq<byte>, at: nat, mid: nat, p: Pair, unset: nat)
    requires EverywhereInPair(Known, p) && !EverywhereInPair(Fits, p)
    requires Holds(d, at, Encode(p.key)) && mid == at + |Encode(p.key)| && Holds(d, mid, Encode(p.value))
    ensures var k := DecodeValue(d, at, unset);
      k.value != Some(Normal(p.key)) || DecodeValue(d, k.next, unset).value != Some(Normal(p.value))
    decreases p, 0
  {
    hide Encode, DecodeValue, Normal, Everywhere;
    if Everywhere(Fits, p.key) {
      RoundTrip(d, at, p.key, unset);
      Misread(d, mid, p.value, unset);
    } else {
      Misread(d, at, p.key, unset);
    }
  }

  /** The law of the codec: what is written is read back, up to normal form, exactly
      when every size in the tree fits 32 bits. */
  lemma {:induction false} RoundTripExactly(d: seq<byte>, at: nat, v: Value, unset: nat)
    requires Everywhere(Known, v) && Holds(d, at, Encode(v))
    ensures Everywhere(Fits, v) <==> DecodeValue(d, at, unset) == Decoded(Some(Normal(v)), at + |Encode(v)|)
    ensures Everywhere(Fits, v) <==> DecodeValue(d, at, unset).value == Some(Normal(v))
  {
    if Everywhere(Fits, v) {
      RoundTrip(d, at, v, unset);
    } else {
      Misread(d, at, v, unset);
    }
  }
}
