/**
  Cut-off messages: for every tree or message and every number of bytes that are
  left of it, whether the reader reports an error, and what it makes of the bytes
  otherwise. Only a cut inside a header, a number or a string is reported. A cut
  between two items fills the container with end pointers, a cut between two
  arguments gives a shorter message, and the NUL behind a text is not missed. For a
  dictionary this describes the reader's loop only: PyDict_SetItem is not defined for
  end pointers (Dictionaries.CutDefined says when it gets one).
*/
module Truncation {
  import opened Options
  import opened Words
  import opened Wire
  import opened Decoder
  import opened Tokens
  import opened Values
  import opened Trees
  import opened Framing
  import Floats

  // -- Where the cut falls -----------------------------------------------------------------

  /** The bytes of a header or a leaf that the reader insists on: all but the NUL. */
  function Needed(v: Value): nat {
    match v
    case Unicode(s) => |CompoundBytes(UTF8_TAG, Cut(|s|))| + Cut(|s|)
    case Dict(pairs) => |CompoundBytes(DICTIONARY_TAG, Cut(|pairs|))|
    case Sequence(items) => |CompoundBytes(LIST_TAG, Cut(|items|))|
    case Set(items) => |CompoundBytes(LIST_TAG, Cut(|items|))|
    case _ => |Encode(v)|
  }

  /** The k-th byte boundary of the tree's encoding lies inside a header field, a number
      or the body of a string. */
  predicate Torn(v: Value, k: nat)
    decreases v, 1
  {
    0 < k < Needed(v) ||
    (k >= Needed(v) &&
     match v
     case Dict(pairs) => TornPairs(pairs, k - Needed(v))
     case Sequence(items) => TornAll(items, k - Needed(v))
     case Set(items) => TornAll(items, k - Needed(v))
     case _ => false)
  }

  predicate TornAll(vs: seq<Value>, k: nat)
    decreases vs, 0
  {
    vs != [] &&
    if k < |Encode(vs[0])| then Torn(vs[0], k) else TornAll(vs[1..], k - |Encode(vs[0])|)
  }

  predicate TornPairs(ps: seq<Pair>, k: nat)
    decreases ps, 0
  {
    ps != [] &&
    if k < |EncodePair(ps[0])| then TornPair(ps[0], k) else TornPairs(ps[1..], k - |EncodePair(ps[0])|)
  }

  predicate TornPair(p: Pair, k: nat)
    decreases p, 0
  {
    if k < |Encode(p.key)| then Torn(p.key, k) else Torn(p.value, k - |Encode(p.key)|)
  }

  /** What is read when the cut tears nothing: an end pointer for everything behind it. */
  function Cropped(v: Value, k: nat): Value
    decreases v, 1
  {
    if k == 0 then EndPointer
    else
      var rest := if k < Needed(v) then 0 else k - Needed(v);
      match v
      case Dict(pairs) => Dict(CroppedPairs(pairs, rest))
      case Sequence(items) => Sequence(CroppedAll(items, rest))
      case Set(items) => Sequence(CroppedAll(items, rest))
      case _ => Normal(v)
  }

  function CroppedAll(vs: seq<Value>, k: nat): (r: seq<Value>)
    ensures |r| == |vs|
    decreases vs, 0
  {
    if vs == [] then []
    else if k < |Encode(vs[0])| then [Cropped(vs[0], k)] + Ends(|vs| - 1)
    else [Normal(vs[0])] + CroppedAll(vs[1..], k - |Encode(vs[0])|)
  }

  function CroppedPairs(ps: seq<Pair>, k: nat): (r: seq<Pair>)
    ensures |r| == |ps|
    decreases ps, 0
  {
    if ps == [] then []
    else if k < |EncodePair(ps[0])| then [CroppedPair(ps[0], k)] + EndPairs(|ps| - 1)
    else [NormalPair(ps[0])] + CroppedPairs(ps[1..], k - |EncodePair(ps[0])|)
  }

  function CroppedPair(p: Pair, k: nat): Pair
    decreases p, 0
  {
    if k < |Encode(p.key)| then Pair(Cropped(p.key, k), EndPointer)
    else Pair(Normal(p.key), Cropped(p.value, k - |Encode(p.key)|))
  }

  function Ends(n: nat): (r: seq<Value>)
    ensures |r| == n
  {
    if n == 0 then [] else [EndPointer] + Ends(n - 1)
  }

  function EndPairs(n: nat): (r: seq<Pair>)
    ensures |r| == n
  {
    if n == 0 then [] else [Pair(EndPointer, EndPointer)] + EndPairs(n - 1)
  }

  // -- Behind the end ------------------------------------------------------------------------

  lemma {:induction false} ItemsPastEnd(d: seq<byte>, at: nat, n: nat, unset: nat)
    requires at >= |d|
    ensures DecodeItems(d, at, n, unset) == DecodedItems(Some(Ends(n)), at)
    decreases n
  {
    hide DecodePairs;
    if n > 0 {
      ItemsPastEnd(d, at, n - 1, unset);
    }
  }

  lemma {:induction false} PairsPastEnd(d: seq<byte>, at: nat, n: nat, unset: nat)
    requires at >= |d|
    ensures DecodePairs(d, at, n, unset) == DecodedPairs(Some(EndPairs(n)), at)
    decreases n
  {
    hide DecodeItems;
    if n > 0 {
      PairsPastEnd(d, at, n - 1, unset);
    }
  }

  lemma ValuePastEnd(d: seq<byte>, at: nat, unset: nat)
    requires at >= |d|
    ensures DecodeValue(d, at, unset) == Decoded(Some(EndPointer), at)
  {
    hide DecodeItems, DecodePairs;
  }

  // -- Headers and leaves ----------------------------------------------------------------------

  /** From position at on, d consists of the first k bytes of s. */
  predicate Remains(d: seq<byte>, at: nat, s: seq<byte>, k: nat) {
    k <= |s| && at + k == |d| && d[at..] == s[..k]
  }

  /** What is left of a concatenation: part of its first half, or that and part of the
      second. */
  lemma LeftParts(d: seq<byte>, at: nat, s: seq<byte>, t: seq<byte>, k: nat)
    requires Remains(d, at, s + t, k)
    ensures k <= |s| ==> Remains(d, at, s, k)
    ensures k >= |s| ==> Holds(d, at, s) && Remains(d, at + |s|, t, k - |s|)
  {
    var w := d[at..];
    if k <= |s| {
      assert (s + t)[..k] == s[..k];
    }
    if k >= |s| {
      assert w[..|s|] == s && w[|s|..] == t[..k - |s|];
      assert w[..|s|] == d[at..at + |s|] && w[|s|..] == d[at + |s|..];
    }
  }

  lemma FirstByte(d: seq<byte>, at: nat, s: seq<byte>, k: nat)
    requires Remains(d, at, s, k) && 0 < k
    ensures at < |d| && d[at] == s[0]
  {
    assert d[at] == d[at..][0];
  }

  lemma IntegerWidth(x: int64)
    ensures IntegerBytes(x)[0] < 0x80 && |IntegerBytes(x)| == 1 + FieldWidth(IntegerBytes(x)[0])
  {}

  lemma CompoundWidth(tag: byte, n: uint32)
    requires tag in {UTF8_TAG, BINARY_TAG, LIST_TAG, DICTIONARY_TAG}
    ensures |CompoundBytes(tag, n)| == 1 + FieldWidth(CompoundBytes(tag, n)[0])
    ensures tag <= CompoundBytes(tag, n)[0] < tag + 0x20
  {
    hide BigEndian;
  }

  /** A header cut inside is an error, whatever stands behind it in the message. */
  lemma HeaderTorn(d: seq<byte>, at: nat, c: byte, unset: nat)
    requires at < |d| < at + 1 + FieldWidth(c) && d[at] == c
    ensures DecodeValue(d, at, unset).value == None
  {
    hide TokenAt, DecodeItems, DecodePairs, FieldWidth;
    ErrorExactly(d, at, unset);
  }

  lemma NumberLeft(d: seq<byte>, at: nat, s: seq<byte>, k: nat, unset: nat)
    requires |s| > 0 && |s| == 1 + FieldWidth(s[0]) && Remains(d, at, s, k) && 0 < k < |s|
    ensures DecodeValue(d, at, unset).value == None
  {
    hide FieldWidth, DecodeValue;
    FirstByte(d, at, s, k);
    HeaderTorn(d, at, s[0], unset);
  }

  lemma DoubleWidth(x: Floats.Double)
    ensures DoubleBytes(x)[0] < 0x80 && |DoubleBytes(x)| == 1 + FieldWidth(DoubleBytes(x)[0])
  {
    hide Floats.IsIntegral, Floats.FitsFloat, IntegerBytes, FieldWidth;
    if Floats.IsIntegral(x) {
      IntegerWidth(SignedWrap(Floats.Whole(x), WORD));
    } else {
      FloatWidths();
    }
  }

  lemma FloatWidths()
    ensures FieldWidth(0x41) == 8 && FieldWidth(0x42) == 4
  {}

  /** A string of which the header, or the header and part of the body, is left. */
  lemma StringLeft(d: seq<byte>, at: nat, tag: byte, n: uint32, body: seq<byte>, k: nat, unset: nat)
    requires tag == UTF8_TAG || tag == BINARY_TAG
    requires n <= |body| && Remains(d, at, CompoundBytes(tag, n) + body, k) && 0 < k < |CompoundBytes(tag, n)| + n
    ensures DecodeValue(d, at, unset).value == None
  {
    hide CompoundBytes, FieldWidth, CountAt, DecodeValue;
    var s := CompoundBytes(tag, n);
    LeftParts(d, at, s, body, k);
    CompoundWidth(tag, n);
    if k < |s| {
      NumberLeft(d, at, s, k, unset);
    } else {
      CountRead(d, at, tag, n);
      BodyTorn(d, at, n, at + |s|, unset);
    }
  }

  lemma BodyTorn(d: seq<byte>, at: nat, n: nat, next: nat, unset: nat)
    requires at < |d| && 0x80 <= d[at] < 0xc0
    requires CountAt(d, at + 1, d[at]) == Count(n, next) && next + n > |d|
    ensures DecodeValue(d, at, unset).value == None
  {
    hide CountAt;
  }

  /** A text without its NUL is read as the text. */
  lemma TextLeft(d: seq<byte>, at: nat, s: seq<byte>, unset: nat)
    requires |s| < 0x1_0000_0000 && Remains(d, at, Utf8Bytes(s), |Utf8Bytes(s)| - 1)
    ensures DecodeValue(d, at, unset) == Decoded(Some(Unicode(s)), |d| + 1)
  {
    hide CompoundBytes, CountAt;
    var h := CompoundBytes(UTF8_TAG, |s|);
    assert s[..|s|] == s;
    assert Utf8Bytes(s) == h + (s + [0]);
    LeftParts(d, at, h, s + [0], |h| + |s|);
    CountRead(d, at, UTF8_TAG, |s|);
    assert d[at + |h|..at + |h| + |s|] == d[at + |h|..];
    assert (s + [0])[..|s|] == s;
  }

  lemma {:induction false} NotEmpty(v: Value)
    requires Known(v)
    ensures 0 < Needed(v) <= |Encode(v)|
    ensures !IsContainer(v) && !v.Unicode? ==> Needed(v) == |Encode(v)|
    ensures v.Unicode? ==> Needed(v) == |Encode(v)| - 1
  {
    hide CompoundBytes, IntegerBytes, DoubleBytes, EncodeAll, EncodePairs;
  }

  lemma LeafLeft(d: seq<byte>, at: nat, v: Value, k: nat, unset: nat)
    requires !IsContainer(v) && Known(v) && Fits(v) && Remains(d, at, Encode(v), k) && 0 < k < Needed(v)
    ensures DecodeValue(d, at, unset).value == None
  {
    hide DecodeValue, IntegerBytes, DoubleBytes, CompoundBytes, FieldWidth, Remains;
    match v
    case ByteArray(s) => assert s[..|s|] == s; StringLeft(d, at, BINARY_TAG, |s|, s, k, unset);
    case Bytes(s) => assert s[..|s|] == s; StringLeft(d, at, BINARY_TAG, |s|, s, k, unset);
    case Unicode(s) => UnicodeLeft(d, at, s, k, unset);
    case Int(i) => IntegerWidth(i); NumberLeft(d, at, IntegerBytes(i), k, unset);
    case Real(x) => DoubleWidth(x); NumberLeft(d, at, DoubleBytes(x), k, unset);
    case _ =>
  }

  lemma UnicodeLeft(d: seq<byte>, at: nat, s: seq<byte>, k: nat, unset: nat)
    requires |s| < 0x1_0000_0000 && Remains(d, at, Utf8Bytes(s), k) && 0 < k < |Utf8Bytes(s)| - 1
    ensures DecodeValue(d, at, unset).value == None
  {
    hide DecodeValue, CompoundBytes, Remains;
    assert s[..|s|] == s;
    assert Utf8Bytes(s) == CompoundBytes(UTF8_TAG, |s|) + (s + [0]);
    StringLeft(d, at, UTF8_TAG, |s|, s + [0], k, unset);
  }

  // -- The reading of what is left ---------------------------------------------------------

  /** What the reader makes of a tree of which the last bytes are missing: an error if
      the cut tears something, else the cropped tree, and nothing is left to read. */
  ghost predicate ReadsCut(d: seq<byte>, at: nat, v: Value, k: nat, unset: nat) {
    var r := DecodeValue(d, at, unset);
    r.value == (if Torn(v, k) then None else Some(Cropped(v, k))) && (r.value.Some? ==> r.next >= |d|)
  }

  lemma {:induction false} CutReading(d: seq<byte>, at: nat, v: Value, k: nat, unset: nat)
    requires Everywhere(Known, v) && Everywhere(Fits, v)
    requires Remains(d, at, Encode(v), k) && k < |Encode(v)|
    ensures ReadsCut(d, at, v, k, unset)
    decreases v, 2
  {
    if k == 0 {
      NothingLeft(d, at, v, unset);
    } else {
      match v
      case Dict(pairs) => CutDict(d, at, v, pairs, k, unset);
      case Sequence(items) => CutList(d, at, v, items, k, unset);
      case Set(items) => CutList(d, at, v, items, k, unset);
      case _ => CutLeaf(d, at, v, k, unset);
    }
  }

  lemma NothingLeft(d: seq<byte>, at: nat, v: Value, unset: nat)
    requires Known(v) && at >= |d|
    ensures ReadsCut(d, at, v, 0, unset)
  {
    hide DecodeValue, Encode, TornAll, TornPairs, Needed, Known;
    NotEmpty(v);
    ValuePastEnd(d, at, unset);
  }

  lemma CutLeaf(d: seq<byte>, at: nat, v: Value, k: nat, unset: nat)
    requires !IsContainer(v) && Known(v) && Fits(v)
    requires Remains(d, at, Encode(v), k) && 0 < k < |Encode(v)|
    ensures ReadsCut(d, at, v, k, unset)
  {
    hide DecodeValue, Encode, Needed, Known, Remains;
    NotEmpty(v);
    if k < Needed(v) {
      LeafLeft(d, at, v, k, unset);
    } else {
      UnicodeWithoutNul(d, at, v, k, unset);
    }
  }

  lemma UnicodeWithoutNul(d: seq<byte>, at: nat, v: Value, k: nat, unset: nat)
    requires v.Unicode? && Fits(v) && Remains(d, at, Encode(v), k) && k == |Encode(v)| - 1
    ensures DecodeValue(d, at, unset) == Decoded(Some(Normal(v)), |d| + 1)
  {
    hide DecodeValue, Remains, CompoundBytes;
    TextLeft(d, at, v.utf8, unset);
  }

  lemma {:induction false} CutList(d: seq<byte>, at: nat, v: Value, vs: seq<Value>, k: nat, unset: nat)
    requires v == Sequence(vs) || v == Set(vs)
    requires |vs| < 0x1_0000_0000
    requires forall i :: 0 <= i < |vs| ==> Everywhere(Known, vs[i]) && Everywhere(Fits, vs[i])
    requires Remains(d, at, Encode(v), k) && 0 < k < |Encode(v)|
    ensures ReadsCut(d, at, v, k, unset)
    decreases vs, 1
  {
    hide DecodeValue, Remains, CompoundBytes, EncodeAll, Everywhere, TornAll, CroppedAll, FieldWidth, DecodeItems,
         TokenAt;
    var h := CompoundBytes(LIST_TAG, |vs|);
    LeftParts(d, at, h, EncodeAll(vs), k);
    CompoundWidth(LIST_TAG, |vs|);
    if k < |h| {
      NumberLeft(d, at, h, k, unset);
    } else {
      ListRead(d, at, |vs|, unset);
      ListUnfold(d, at, |vs|, at + |h|, unset);
      CutItems(d, at + |h|, vs, k - |h|, unset);
    }
  }

  lemma {:induction false} CutDict(d: seq<byte>, at: nat, v: Value, ps: seq<Pair>, k: nat, unset: nat)
    requires v == Dict(ps) && |ps| < 0x1_0000_0000
    requires forall i :: 0 <= i < |ps| ==> EverywhereInPair(Known, ps[i]) && EverywhereInPair(Fits, ps[i])
    requires Remains(d, at, Encode(v), k) && 0 < k < |Encode(v)|
    ensures ReadsCut(d, at, v, k, unset)
    decreases ps, 1
  {
    hide DecodeValue, Remains, CompoundBytes, EncodePairs, EverywhereInPair, TornPairs, CroppedPairs, FieldWidth,
         DecodePairs, TokenAt;
    var h := CompoundBytes(DICTIONARY_TAG, |ps|);
    LeftParts(d, at, h, EncodePairs(ps), k);
    CompoundWidth(DICTIONARY_TAG, |ps|);
    if k < |h| {
      NumberLeft(d, at, h, k, unset);
    } else {
      DictionaryRead(d, at, |ps|, unset);
      DictUnfold(d, at, |ps|, at + |h|, unset);
      CutPairs(d, at + |h|, ps, k - |h|, unset);
    }
  }

  ghost predicate ItemsReadCut(d: seq<byte>, at: nat, vs: seq<Value>, k: nat, unset: nat) {
    var r := DecodeItems(d, at, |vs|, unset);
    r.items == (if TornAll(vs, k) then None else Some(CroppedAll(vs, k))) && (r.items.Some? ==> r.next >= |d|)
  }

  lemma ItemsFail(d: seq<byte>, at: nat, n: nat, unset: nat)
    requires n > 0
    ensures DecodeValue(d, at, unset).value.None? ==> DecodeItems(d, at, n, unset).items.None?
    ensures var v := DecodeValue(d, at, unset);
      v.value.Some? && DecodeItems(d, v.next, n - 1, unset).items.None? ==> DecodeItems(d, at, n, unset).items.None?
  {
    hide DecodeValue;
  }

  lemma {:induction false} CutItems(d: seq<byte>, at: nat, vs: seq<Value>, k: nat, unset: nat)
    requires forall i :: 0 <= i < |vs| ==> Everywhere(Known, vs[i]) && Everywhere(Fits, vs[i])
    requires Remains(d, at, EncodeAll(vs), k)
    ensures ItemsReadCut(d, at, vs, k, unset)
    decreases vs, 0
  {
    hide DecodeValue, DecodeItems, Encode, Normal, Everywhere, Torn, Cropped, Remains;
    if vs == [] {
      NothingToRead(d, at, k, unset);
    } else {
      LeftParts(d, at, Encode(vs[0]), EncodeAll(vs[1..]), k);
      ItemsFail(d, at, |vs|, unset);
      var n := |vs| - 1;
      if k < |Encode(vs[0])| {
        CutReading(d, at, vs[0], k, unset);
        if !Torn(vs[0], k) {
          var next := DecodeValue(d, at, unset).next;
          ItemsPastEnd(d, next, n, unset);
          ItemsStep(d, at, next, next, n, unset, Cropped(vs[0], k), Ends(n));
        }
      } else {
        var mid := at + |Encode(vs[0])|;
        RoundTrip(d, at, vs[0], unset);
        CutItems(d, mid, vs[1..], k - |Encode(vs[0])|, unset);
        var r := DecodeItems(d, mid, n, unset);
        if r.items.Some? {
          ItemsStep(d, at, mid, r.next, n, unset, Normal(vs[0]), r.items.value);
        }
      }
    }
  }

  lemma NothingToRead(d: seq<byte>, at: nat, k: nat, unset: nat)
    requires Remains(d, at, [], k)
    ensures ItemsReadCut(d, at, [], k, unset) && PairsReadCut(d, at, [], k, unset)
  {
    hide DecodeValue;
  }

  ghost predicate PairsReadCut(d: seq<byte>, at: nat, ps: seq<Pair>, k: nat, unset: nat) {
    var r := DecodePairs(d, at, |ps|, unset);
    r.pairs == (if TornPairs(ps, k) then None else Some(CroppedPairs(ps, k))) && (r.pairs.Some? ==> r.next >= |d|)
  }

  /** One pair of which the last bytes are missing. */
  ghost predicate PairReadsCut(d: seq<byte>, at: nat, p: Pair, k: nat, unset: nat) {
    var a := DecodeValue(d, at, unset);
    var b := DecodeValue(d, a.next, unset);
    if TornPair(p, k) then a.value.None? || b.value.None?
    else a.value == Some(CroppedPair(p, k).key) && b.value == Some(CroppedPair(p, k).value) && b.next >= |d|
  }

  lemma {:induction false} CutPair(d: seq<byte>, at: nat, p: Pair, k: nat, unset: nat)
    requires EverywhereInPair(Known, p) && EverywhereInPair(Fits, p)
    requires Remains(d, at, EncodePair(p), k) && k < |EncodePair(p)|
    ensures PairReadsCut(d, at, p, k, unset)
    decreases p, 0
  {
    hide DecodeValue, Encode, Normal, Everywhere, Torn, Cropped, Remains;
    LeftParts(d, at, Encode(p.key), Encode(p.value), k);
    if k < |Encode(p.key)| {
      CutReading(d, at, p.key, k, unset);
      if !Torn(p.key, k) {
        ValuePastEnd(d, DecodeValue(d, at, unset).next, unset);
      }
    } else {
      RoundTrip(d, at, p.key, unset);
      CutReading(d, at + |Encode(p.key)|, p.value, k - |Encode(p.key)|, unset);
    }
  }

  lemma PairsFail(d: seq<byte>, at: nat, n: nat, unset: nat)
    requires n > 0
    ensures var a := DecodeValue(d, at, unset); var b := DecodeValue(d, a.next, unset);
      && (a.value.None? || b.value.None? ==> DecodePairs(d, at, n, unset).pairs.None?)
      && (a.value.Some? && b.value.Some? && DecodePairs(d, b.next, n - 1, unset).pairs.None? ==>
            DecodePairs(d, at, n, unset).pairs.None?)
  {
    hide DecodeValue;
  }

  lemma {:induction false} CutPairs(d: seq<byte>, at: nat, ps: seq<Pair>, k: nat, unset: nat)
    requires forall i :: 0 <= i < |ps| ==> EverywhereInPair(Known, ps[i]) && EverywhereInPair(Fits, ps[i])
    requires Remains(d, at, EncodePairs(ps), k)
    ensures PairsReadCut(d, at, ps, k, unset)
    decreases ps, 0
  {
    hide DecodeValue, DecodePairs, Encode, EncodePair, Normal, EverywhereInPair, TornPair, CroppedPair, Remains;
    if ps == [] {
      NothingToRead(d, at, k, unset);
    } else {
      LeftParts(d, at, EncodePair(ps[0]), EncodePairs(ps[1..]), k);
      PairsFail(d, at, |ps|, unset);
      var n := |ps| - 1;
      if k < |EncodePair(ps[0])| {
        CutPair(d, at, ps[0], k, unset);
        if !TornPair(ps[0], k) {
          var a := DecodeValue(d, at, unset);
          var b := DecodeValue(d, a.next, unset);
          PairsPastEnd(d, b.next, n, unset);
          PairsStep(d, at, a.next, b.next, b.next, n, unset, a.value.value, b.value.value, EndPairs(n));
        }
      } else {
        WholePair(d, at, ps[0], unset);
        var behind := at + |EncodePair(ps[0])|;
        CutPairs(d, behind, ps[1..], k - |EncodePair(ps[0])|, unset);
        var r := DecodePairs(d, behind, n, unset);
        if r.pairs.Some? {
          PairsStep(d, at, at + |Encode(ps[0].key)|, behind, r.next, n, unset,
                    Normal(ps[0].key), Normal(ps[0].value), r.pairs.value);
        }
      }
    }
  }

  lemma WholePair(d: seq<byte>, at: nat, p: Pair, unset: nat)
    requires EverywhereInPair(Known, p) && EverywhereInPair(Fits, p) && Holds(d, at, EncodePair(p))
    ensures var mid := at + |Encode(p.key)|;
      && DecodeValue(d, at, unset) == Decoded(Some(Normal(p.key)), mid)
      && DecodeValue(d, mid, unset) == Decoded(Some(Normal(p.value)), at + |EncodePair(p)|)
  {
    hide DecodeValue, Encode, Normal, Everywhere, Holds;
    HoldsParts(d, at, Encode(p.key), Encode(p.value));
    RoundTripPair(d, at, at + |Encode(p.key)|, p, unset);
  }

  // -- Messages ------------------------------------------------------------------------------

  /** The arguments that are read from a message cut where it tears nothing: those in
      front of the cut, and the one the cut falls into. */
  function CroppedMessage(vs: seq<Value>, k: nat): seq<Value>
    decreases |vs|
  {
    if vs == [] || k == 0 then []
    else if k < |Encode(vs[0])| then [Cropped(vs[0], k)]
    else [Normal(vs[0])] + CroppedMessage(vs[1..], k - |Encode(vs[0])|)
  }

  lemma AllFail(d: seq<byte>, at: nat, unset: nat)
    ensures DecodeValue(d, at, unset).value.None? ==> DecodeAll(d, at, unset).items.None?
    ensures var v := DecodeValue(d, at, unset);
      v.value.Some? && !v.value.value.EndPointer? && DecodeAll(d, v.next, unset).items.None? ==>
        DecodeAll(d, at, unset).items.None?
  {
    hide DecodeValue;
  }

  lemma AllPastEnd(d: seq<byte>, at: nat, unset: nat)
    requires at >= |d|
    ensures DecodeAll(d, at, unset) == DecodedItems(Some([]), at)
  {
    hide DecodeValue;
    ValuePastEnd(d, at, unset);
  }

  lemma CroppedIsNoEnd(v: Value, k: nat)
    requires Known(v) && k > 0
    ensures !Cropped(v, k).EndPointer?
  {
    hide CroppedAll, CroppedPairs, Needed;
  }

  /** What the reader makes of a message of which the last bytes are missing. */
  lemma {:induction false} CutMessage(d: seq<byte>, at: nat, vs: seq<Value>, k: nat, unset: nat)
    requires forall i :: 0 <= i < |vs| ==> Everywhere(Known, vs[i]) && Everywhere(Fits, vs[i])
    requires Remains(d, at, EncodeAll(vs), k)
    ensures DecodeAll(d, at, unset).items == if TornAll(vs, k) then None else Some(CroppedMessage(vs, k))
    decreases |vs|
  {
    hide DecodeValue, DecodeAll, Encode, Normal, Everywhere, Torn, Cropped, Remains, Known;
    if vs == [] {
      RemainsNothing(d, at, k);
      AllPastEnd(d, at, unset);
    } else {
      LeftParts(d, at, Encode(vs[0]), EncodeAll(vs[1..]), k);
      assert Known(vs[0]) by { Root(vs[0]); }
      AllFail(d, at, unset);
      if k < |Encode(vs[0])| {
        CutReading(d, at, vs[0], k, unset);
        CutFirst(d, at, vs[0], k, unset);
      } else {
        NotEmpty(vs[0]);
        var mid := at + |Encode(vs[0])|;
        RoundTrip(d, at, vs[0], unset);
        CutMessage(d, mid, vs[1..], k - |Encode(vs[0])|, unset);
        NormalIsNoEnd(vs[0]);
        var r := DecodeAll(d, mid, unset);
        if r.items.Some? {
          AllStep(d, at, mid, r.next, unset, Normal(vs[0]), r.items.value);
        }
      }
    }
  }

  lemma Root(v: Value)
    requires Everywhere(Known, v)
    ensures Known(v)
  {}

  lemma RemainsNothing(d: seq<byte>, at: nat, k: nat)
    requires Remains(d, at, [], k)
    ensures k == 0 && at == |d|
  {}

  /** The argument the cut falls into is the last one. */
  lemma CutFirst(d: seq<byte>, at: nat, v: Value, k: nat, unset: nat)
    requires Known(v) && ReadsCut(d, at, v, k, unset) && Remains(d, at, Encode(v), k)
    ensures DecodeAll(d, at, unset).items
         == if Torn(v, k) then None else if k == 0 then Some([]) else Some([Cropped(v, k)])
  {
    hide DecodeValue, DecodeAll, Torn, Cropped, Known;
    AllFail(d, at, unset);
    if k == 0 {
      NothingLeft(d, at, v, unset);
      AllPastEnd(d, at, unset);
    } else if !Torn(v, k) {
      var next := DecodeValue(d, at, unset).next;
      CroppedIsNoEnd(v, k);
      AllPastEnd(d, next, unset);
      AllStep(d, at, next, next, unset, Cropped(v, k), []);
      assert [Cropped(v, k)] + [] == [Cropped(v, k)];
    }
  }

  lemma Prefix(s: seq<byte>, k: nat)
    requires k <= |s|
    ensures Remains(s[..k], 0, s, k)
  {}

  /** A cut-off tree is reported as an error exactly when the cut tears a header, a
      number or the body of a string. */
  lemma CutReported(v: Value, k: nat, unset: nat)
    requires Everywhere(Known, v) && Everywhere(Fits, v) && k < |Encode(v)|
    ensures DecodeValue(Encode(v)[..k], 0, unset).value.None? <==> Torn(v, k)
    ensures !Torn(v, k) ==> DecodeValue(Encode(v)[..k], 0, unset).value == Some(Cropped(v, k))
  {
    hide DecodeValue, Encode, Everywhere, Torn, Cropped, Remains;
    Prefix(Encode(v), k);
    CutReading(Encode(v)[..k], 0, v, k, unset);
  }

  /** The same for a whole message. */
  lemma CutMessageReported(vs: seq<Value>, k: nat, unset: nat)
    requires forall i :: 0 <= i < |vs| ==> Everywhere(Known, vs[i]) && Everywhere(Fits, vs[i])
    requires k <= |EncodeAll(vs)|
    ensures DecodeAll(EncodeAll(vs)[..k], 0, unset).items.None? <==> TornAll(vs, k)
    ensures !TornAll(vs, k) ==> DecodeAll(EncodeAll(vs)[..k], 0, unset).items == Some(CroppedMessage(vs, k))
  {
    hide DecodeAll, EncodeAll, Everywhere, TornAll, CroppedMessage, Remains;
    Prefix(EncodeAll(vs), k);
    CutMessage(EncodeAll(vs)[..k], 0, vs, k, unset);
  }

  // -- Cuts that nobody sees -------------------------------------------------------------------

  /** The last byte of the tree's encoding is the NUL behind a text. */
  predicate EndsInText(v: Value)
    decreases v, 1
  {
    match v
    case Unicode(_) => true
    case Sequence(items) => ItemsEndInText(items)
    case Set(items) => ItemsEndInText(items)
    case Dict(pairs) => PairsEndInText(pairs)
    case _ => false
  }

  predicate ItemsEndInText(vs: seq<Value>)
    decreases vs, 0
  {
    vs != [] && if |vs| == 1 then EndsInText(vs[0]) else ItemsEndInText(vs[1..])
  }

  predicate PairsEndInText(ps: seq<Pair>)
    decreases ps, 0
  {
    ps != [] && if |ps| == 1 then PairEndsInText(ps[0]) else PairsEndInText(ps[1..])
  }

  predicate PairEndsInText(p: Pair)
    decreases p, 0
  {
    EndsInText(p.value)
  }

  predicate Intact(v: Value, k: nat) { !Torn(v, k) && Cropped(v, k) == Normal(v) }

  lemma {:induction false} IntactExactly(v: Value, k: nat)
    requires Everywhere(Known, v) && k < |Encode(v)|
    ensures Intact(v, k) <==> k == |Encode(v)| - 1 && EndsInText(v)
    decreases v, 2
  {
    match v
    case Dict(pairs) => IntactDict(pairs, k);
    case Sequence(items) => IntactList(v, items, k);
    case Set(items) => IntactList(v, items, k);
    case _ => IntactLeaf(v, k);
  }

  lemma IntactLeaf(v: Value, k: nat)
    requires !IsContainer(v) && Known(v) && k < |Encode(v)|
    ensures Intact(v, k) <==> k == |Encode(v)| - 1 && EndsInText(v)
  {
    hide Encode, Known, Needed, Normal;
    NotEmpty(v);
    NormalIsNoEnd(v);
  }

  lemma {:induction false} IntactList(v: Value, vs: seq<Value>, k: nat)
    requires v == Sequence(vs) || v == Set(vs)
    requires (forall i :: 0 <= i < |vs| ==> Everywhere(Known, vs[i])) && k < |Encode(v)|
    ensures Intact(v, k) <==> k == |Encode(v)| - 1 && EndsInText(v)
    decreases vs, 1
  {
    hide CompoundBytes, Everywhere, EncodeAll, TornAll, CroppedAll, NormalAll;
    RestNotEmpty(vs);
    if k >= Needed(v) {
      IntactItems(vs, k - Needed(v));
    }
  }

  lemma {:induction false} IntactDict(ps: seq<Pair>, k: nat)
    requires (forall i :: 0 <= i < |ps| ==> EverywhereInPair(Known, ps[i])) && k < |Encode(Dict(ps))|
    ensures Intact(Dict(ps), k) <==> k == |Encode(Dict(ps))| - 1 && EndsInText(Dict(ps))
    decreases ps, 1
  {
    hide CompoundBytes, EverywhereInPair, EncodePairs, TornPairs, CroppedPairs, NormalPairs;
    RestOfPairsNotEmpty(ps);
    if k >= Needed(Dict(ps)) {
      IntactPairs(ps, k - Needed(Dict(ps)));
    }
  }

  lemma {:induction false} IntactItems(vs: seq<Value>, k: nat)
    requires forall i :: 0 <= i < |vs| ==> Everywhere(Known, vs[i])
    requires k < |EncodeAll(vs)|
    ensures !TornAll(vs, k) && CroppedAll(vs, k) == NormalAll(vs) <==> k == |EncodeAll(vs)| - 1 && ItemsEndInText(vs)
    decreases vs, 0
  {
    hide Encode, Normal, Everywhere, Torn, Cropped, EndsInText, Known;
    var rest := vs[1..];
    assert NormalAll(vs)[0] == Normal(vs[0]) && NormalAll(vs)[1..] == NormalAll(rest);
    RestNotEmpty(rest);
    if k < |Encode(vs[0])| {
      IntactExactly(vs[0], k);
      assert CroppedAll(vs, k)[0] == Cropped(vs[0], k) && CroppedAll(vs, k)[1..] == Ends(|rest|);
      EndsAreNotNormal(rest);
    } else {
      IntactItems(rest, k - |Encode(vs[0])|);
      assert CroppedAll(vs, k)[0] == Normal(vs[0]);
      assert CroppedAll(vs, k)[1..] == CroppedAll(rest, k - |Encode(vs[0])|);
    }
  }

  lemma RestNotEmpty(vs: seq<Value>)
    requires forall i :: 0 <= i < |vs| ==> Everywhere(Known, vs[i])
    ensures vs != [] ==> EncodeAll(vs) != []
  {
    hide Encode, Everywhere, Known;
    if vs != [] {
      Root(vs[0]);
      NotEmpty(vs[0]);
    }
  }

  lemma EndsAreNotNormal(vs: seq<Value>)
    requires forall i :: 0 <= i < |vs| ==> Everywhere(Known, vs[i])
    ensures Ends(|vs|) == NormalAll(vs) <==> vs == []
  {
    hide Normal, Everywhere;
    if vs != [] {
      NormalIsNoEnd(vs[0]);
      assert Ends(|vs|)[0] == EndPointer && NormalAll(vs)[0] == Normal(vs[0]);
    }
  }

  lemma {:induction false} IntactPairs(ps: seq<Pair>, k: nat)
    requires forall i :: 0 <= i < |ps| ==> EverywhereInPair(Known, ps[i])
    requires k < |EncodePairs(ps)|
    ensures !TornPairs(ps, k) && CroppedPairs(ps, k) == NormalPairs(ps) <==>
            k == |EncodePairs(ps)| - 1 && PairsEndInText(ps)
    decreases ps, 0
  {
    hide EncodePair, NormalPair, EverywhereInPair, TornPair, CroppedPair, PairEndsInText;
    var rest := ps[1..];
    assert NormalPairs(ps)[0] == NormalPair(ps[0]) && NormalPairs(ps)[1..] == NormalPairs(rest);
    RestOfPairsNotEmpty(rest);
    if k < |EncodePair(ps[0])| {
      IntactPair(ps[0], k);
      assert CroppedPairs(ps, k)[0] == CroppedPair(ps[0], k) && CroppedPairs(ps, k)[1..] == EndPairs(|rest|);
      EndPairsAreNotNormal(rest);
    } else {
      IntactPairs(rest, k - |EncodePair(ps[0])|);
      assert CroppedPairs(ps, k)[0] == NormalPair(ps[0]);
      assert CroppedPairs(ps, k)[1..] == CroppedPairs(rest, k - |EncodePair(ps[0])|);
    }
  }

  lemma RestOfPairsNotEmpty(ps: seq<Pair>)
    requires forall i :: 0 <= i < |ps| ==> EverywhereInPair(Known, ps[i])
    ensures ps != [] ==> EncodePairs(ps) != []
  {
    hide Encode, Everywhere, Known;
    if ps != [] {
      Root(ps[0].key);
      NotEmpty(ps[0].key);
    }
  }

  lemma EndPairsAreNotNormal(ps: seq<Pair>)
    requires forall i :: 0 <= i < |ps| ==> EverywhereInPair(Known, ps[i])
    ensures EndPairs(|ps|) == NormalPairs(ps) <==> ps == []
  {
    hide Normal, Everywhere;
    if ps != [] {
      NormalIsNoEnd(ps[0].key);
      assert EndPairs(|ps|)[0].key == EndPointer && NormalPairs(ps)[0].key == Normal(ps[0].key);
    }
  }

  lemma {:induction false} IntactPair(p: Pair, k: nat)
    requires EverywhereInPair(Known, p) && k < |EncodePair(p)|
    ensures !TornPair(p, k) && CroppedPair(p, k) == NormalPair(p) <==>
            k == |EncodePair(p)| - 1 && PairEndsInText(p)
    decreases p, 0
  {
    hide Encode, Normal, Everywhere, Torn, Cropped, EndsInText, Known;
    Root(p.value);
    NotEmpty(p.value);
    NormalIsNoEnd(p.value);
    if k >= |Encode(p.key)| {
      IntactExactly(p.value, k - |Encode(p.key)|);
    }
  }

  /** A cut-off tree is still read as the whole tree exactly when one byte is missing and
      that byte is the NUL behind a text. */
  lemma CutUnnoticed(v: Value, k: nat, unset: nat)
    requires Everywhere(Known, v) && Everywhere(Fits, v) && k < |Encode(v)|
    ensures DecodeValue(Encode(v)[..k], 0, unset).value == Some(Normal(v)) <==>
            k == |Encode(v)| - 1 && EndsInText(v)
  {
    hide DecodeValue, Encode, Everywhere, Torn, Cropped, Normal, EndsInText;
    CutReported(v, k, unset);
    IntactExactly(v, k);
  }

  /** A list of two numbers cut between them is read, without an error, as a list that
      ends in an end pointer; the message of the two numbers as the first one alone. */
  lemma CutBetweenItems(unset: nat)
    ensures Encode(Sequence([Int(1), Int(2)])) == [0xc2, 1, 2]
    ensures DecodeValue([0xc2, 1], 0, unset).value == Some(Sequence([Int(1), EndPointer]))
    ensures EncodeAll([Int(1), Int(2)]) == [1, 2] && DecodeAll([1], 0, unset).items == Some([Int(1)])
  {
    var one, two := Int(1), Int(2);
    var vs := [one, two];
    var v := Sequence(vs);
    assert Encode(one) == [1] && Encode(two) == [2];
    assert vs[1..] == [two] && [two][1..] == [];
    assert EncodeAll([two]) == [2];
    assert EncodeAll(vs) == [1, 2];
    assert Encode(v) == [0xc2, 1, 2];
    assert [0xc2 as byte, 1, 2][..2] == [0xc2, 1] && [1 as byte, 2][..1] == [1];
    CutReported(v, 2, unset);
    CutMessageReported(vs, 1, unset);
    CroppedTwo();
  }

  lemma CroppedTwo()
    ensures var vs := [Int(1), Int(2)];
      && !Torn(Sequence(vs), 2) && Cropped(Sequence(vs), 2) == Sequence([Int(1), EndPointer])
      && !TornAll(vs, 1) && CroppedMessage(vs, 1) == [Int(1)]
  {
    var one, two := Int(1), Int(2);
    var vs := [one, two];
    assert vs[1..] == [two];
    assert CroppedAll([two], 0) == [EndPointer];
    assert CroppedAll(vs, 1) == [one, EndPointer];
    assert CroppedMessage([two], 0) == [];
  }
}
