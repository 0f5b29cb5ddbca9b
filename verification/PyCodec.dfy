/**
  The Python extension's codec as written: three recursive passes over value trees
  and the drivers for argument tuples.
*/
module PyCodec {
  import opened Options
  import opened Words
  import opened Buffers
  import opened Wire
  import opened Decoder
  import opened Encoder
  import opened Values
  import opened Framing
  import opened Bounds
  import Tokens
  import Length

  ghost predicate AllDefined(vs: seq<Value>) { forall i :: 0 <= i < |vs| ==> Everywhere(Defined, vs[i]) }

  // -- Sizing --------------------------------------------------------------------------

  /** None stands for the result -1. */
  method LengthRecurse(v: Value) returns (r: Option<nat>)
    requires Everywhere(Defined, v)
    ensures r == if Refused(v) then None else Some(Measure(v))
    decreases v, 1
  {
    hide IntegerBytes, DoubleBytes, AnyRefused, AnyPairRefused, MeasureAll, MeasurePairs;
    match v
    case ByteArray(s) => r := Some(Length.BinaryString(|s|));
    case Bytes(s) => r := Some(Length.BinaryString(|s|));
    case Unicode(s) => r := Some(Length.Utf8String(|s|));
    case Int(i) => r := Some(Length.Integer(i));
    case Real(d) => r := Some(Length.Real(d));
    case Nothing => r := Some(Length.Null());
    case Dict(pairs) => r := LengthPairs(pairs);
    case Sequence(items) => r := LengthItems(items);
    case Set(items) => r := LengthItems(items);
    case Foreign => r := None;
    case EndPointer => r := None;
  }

  method LengthItems(items: seq<Value>) returns (r: Option<nat>)
    requires AllDefined(items)
    ensures r == if AnyRefused(items) then None else Some(Length.Compound(|items|) + MeasureAll(items))
    decreases items, 0
  {
    hide Everywhere, Refused, Measure, Length.Compound;
    var length := Length.Compound(|items|);
    for i := 0 to |items|
      invariant !AnyRefused(items[..i])
      invariant length + MeasureAll(items[i..]) == Length.Compound(|items|) + MeasureAll(items)
    {
      assert items[i..][1..] == items[i + 1..];
      var n := LengthRecurse(items[i]);
      if n == None {
        return None;
      }
      length := length + n.value;
    }
    assert items[..|items|] == items;
    return Some(length);
  }

  method LengthPairs(pairs: seq<Pair>) returns (r: Option<nat>)
    requires forall i :: 0 <= i < |pairs| ==> EverywhereInPair(Defined, pairs[i])
    ensures r == if AnyPairRefused(pairs) then None else Some(Length.Compound(|pairs|) + MeasurePairs(pairs))
    decreases pairs, 0
  {
    hide Everywhere, Refused, Measure, Length.Compound;
    var length := Length.Compound(|pairs|);
    for i := 0 to |pairs|
      invariant forall j :: 0 <= j < i ==> !RefusedInPair(pairs[j])
      invariant length + MeasurePairs(pairs[i..]) == Length.Compound(|pairs|) + MeasurePairs(pairs)
    {
      assert pairs[i..][1..] == pairs[i + 1..];
      var p := pairs[i];
      assert p.key < p && p.value < p;
      var k := LengthRecurse(p.key);
      if k == None {
        return None;
      }
      length := length + k.value;
      var n := LengthRecurse(p.value);
      if n == None {
        return None;
      }
      length := length + n.value;
    }
    return Some(length);
  }

  // -- Writing -------------------------------------------------------------------------

  /** An unsupported object is reported but writes nothing. */
  method EncodeRecurse(b: Buffer, v: Value)
    requires Everywhere(Defined, v)
    requires b.offset + |Encode(v)| <= b.data.Length
    modifies b`offset, b.data
    ensures Wrote(b, Encode(v))
    decreases v, 1
  {
    match v
    case ByteArray(s) => EncodeBinaryString(b, s);
    case Bytes(s) => EncodeBinaryString(b, s);
    case Unicode(s) => EncodeUtf8String(b, s);
    case Int(i) => EncodeInteger(b, i);
    case Real(d) => EncodeReal(b, d);
    case Nothing => EncodeNull(b);
    case Dict(pairs) => EncodeDictionaryOf(b, pairs);
    case Sequence(items) => EncodeListOf(b, items);
    case Set(items) => EncodeListOf(b, items);
    case Foreign => PatchedNothing(b.data[..], b.offset);
    case EndPointer => PatchedNothing(b.data[..], b.offset);
  }

  method EncodeListOf(b: Buffer, items: seq<Value>)
    requires AllDefined(items)
    requires b.offset + |CompoundBytes(LIST_TAG, Cut(|items|))| + |EncodeAll(items)| <= b.data.Length
    modifies b`offset, b.data
    ensures Wrote(b, CompoundBytes(LIST_TAG, Cut(|items|)) + EncodeAll(items))
    decreases items, 0
  {
    hide Everywhere, Encode, EncodeAll, CompoundBytes, Patched;
    ghost var before, at := b.data[..], b.offset;
    ghost var all := CompoundBytes(LIST_TAG, Cut(|items|)) + EncodeAll(items);
    EncodeList(b, |items|);
    ghost var done := CompoundBytes(LIST_TAG, Cut(|items|));
    assert items[0..] == items;
    for i := 0 to |items|
      invariant b.data == old(b.data) && b.size == old(b.size)
      invariant all == done + EncodeAll(items[i..])
      invariant at + |all| <= |before| == b.data.Length && b.offset == at + |done|
      invariant b.data[..] == Patched(before, at, done)
    {
      OneMore(done, items, i);
      EncodeRecurse(b, items[i]);
      PatchedTwice(before, at, done, Encode(items[i]));
      done := done + Encode(items[i]);
    }
    NoMore(done, items);
  }

  lemma OneMore(done: seq<byte>, vs: seq<Value>, i: nat)
    requires i < |vs|
    ensures done + EncodeAll(vs[i..]) == done + Encode(vs[i]) + EncodeAll(vs[i + 1..])
  {
    hide Encode;
    assert vs[i..][1..] == vs[i + 1..];
  }

  lemma NoMore(done: seq<byte>, vs: seq<Value>)
    ensures done + EncodeAll(vs[|vs|..]) == done
  {}

  method EncodeDictionaryOf(b: Buffer, pairs: seq<Pair>)
    requires forall i :: 0 <= i < |pairs| ==> EverywhereInPair(Defined, pairs[i])
    requires b.offset + |CompoundBytes(DICTIONARY_TAG, Cut(|pairs|))| + |EncodePairs(pairs)| <= b.data.Length
    modifies b`offset, b.data
    ensures Wrote(b, CompoundBytes(DICTIONARY_TAG, Cut(|pairs|)) + EncodePairs(pairs))
    decreases pairs, 0
  {
    hide EverywhereInPair, EncodePair, CompoundBytes, Patched;
    ghost var before, at := b.data[..], b.offset;
    ghost var all := CompoundBytes(DICTIONARY_TAG, Cut(|pairs|)) + EncodePairs(pairs);
    EncodeDictionary(b, |pairs|);
    ghost var done := CompoundBytes(DICTIONARY_TAG, Cut(|pairs|));
    for i := 0 to |pairs|
      invariant b.data == old(b.data) && b.size == old(b.size)
      invariant all == done + EncodePairs(pairs[i..])
      invariant at + |all| <= |before| == b.data.Length && b.offset == at + |done|
      invariant b.data[..] == Patched(before, at, done)
    {
      assert pairs[i..][1..] == pairs[i + 1..];
      assert all == done + EncodePair(pairs[i]) + EncodePairs(pairs[i + 1..]);
      EncodeKeyAndValue(b, pairs[i]);
      PatchedTwice(before, at, done, EncodePair(pairs[i]));
      done := done + EncodePair(pairs[i]);
    }
  }

  method EncodeKeyAndValue(b: Buffer, p: Pair)
    requires EverywhereInPair(Defined, p)
    requires b.offset + |EncodePair(p)| <= b.data.Length
    modifies b`offset, b.data
    ensures Wrote(b, EncodePair(p))
    decreases p, 0
  {
    hide Everywhere, Encode, Patched;
    ghost var before, at := b.data[..], b.offset;
    EncodeRecurse(b, p.key);
    EncodeRecurse(b, p.value);
    PatchedTwice(before, at, Encode(p.key), Encode(p.value));
  }

  // -- Reading -------------------------------------------------------------------------

  /** None stands for the result NULL. At most room many calls are ever open at once: each
      leaves one less to those inside it. */
  method DecodeRecurse(b: Buffer, unset: nat, ghost room: nat) returns (r: Option<Value>)
    requires b.Readable() && Nest(b.Input(), b.offset, unset) <= room
    modifies b`offset
    ensures Decoded(r, b.offset) == DecodeValue(b.Input(), old(b.offset), unset)
    decreases room, 0
  {
    ghost var d := b.Input();
    Tokens.TokenBounds(d, b.offset, unset);
    hide TokenAt, DecodeItems, DecodePairs, NestItems, NestPairs;
    var token := DecodeToken(b, unset);
    match token
    case End => r := Some(EndPointer);
    case Error => r := None;
    case Null => r := Some(Nothing);
    case Integer(i) => r := Some(Int(i));
    case Real(x) => r := Some(Value.Real(x));
    case Utf8String(start, n) => r := Some(Unicode(b.data[..b.size][start..start + n]));
    case BinaryString(start, n) => r := Some(Bytes(b.data[..b.size][start..start + n]));
    case List(n) =>
      var items := DecodeListOf(b, n, unset, room - 1);
      r := if items.Some? then Some(Sequence(items.value)) else None;
    case Dictionary(n) =>
      var pairs := DecodeDictionaryOf(b, n, unset, room - 1);
      r := if pairs.Some? then Some(Dict(pairs.value)) else None;
  }

  method DecodeListOf(b: Buffer, n: nat, unset: nat, ghost room: nat) returns (r: Option<seq<Value>>)
    requires b.Readable() && NestItems(b.Input(), b.offset, n, unset) <= room
    modifies b`offset
    ensures DecodedItems(r, b.offset) == DecodeItems(b.Input(), old(b.offset), n, unset)
    decreases room, 1
  {
    hide DecodeValue, Nest;
    ghost var d, at := b.Input(), b.offset;
    var list: seq<Value> := [];
    InFrontItems(DecodeItems(d, at, n, unset));
    for i := 0 to n
      invariant b.Input() == d && b.offset >= at && NestItems(d, b.offset, n - i, unset) <= room
      invariant DecodeItems(d, at, n, unset) == ItemsBehind(list, DecodeItems(d, b.offset, n - i, unset))
    {
      var v := DecodeRecurse(b, unset, room);
      if v == None {
        return None;
      }
      MoveItem(list, v.value, DecodeItems(d, b.offset, n - i - 1, unset));
      list := list + [v.value];
    }
    assert list + [] == list;
    return Some(list);
  }

  /** The items that are in the list already, with those still to be read behind. */
  function ItemsBehind(list: seq<Value>, r: DecodedItems): DecodedItems {
    DecodedItems(if r.items.Some? then Some(list + r.items.value) else None, r.next)
  }

  lemma InFrontItems(r: DecodedItems)
    ensures ItemsBehind([], r) == r
  {
    if r.items.Some? {
      assert [] + r.items.value == r.items.value;
    }
  }

  lemma MoveItem(list: seq<Value>, v: Value, r: DecodedItems)
    ensures ItemsBehind(list, ItemsBehind([v], r)) == ItemsBehind(list + [v], r)
  {
    if r.items.Some? {
      assert list + ([v] + r.items.value) == list + [v] + r.items.value;
    }
  }

  method DecodeDictionaryOf(b: Buffer, n: nat, unset: nat, ghost room: nat) returns (r: Option<seq<Pair>>)
    requires b.Readable() && NestPairs(b.Input(), b.offset, n, unset) <= room
    modifies b`offset
    ensures DecodedPairs(r, b.offset) == DecodePairs(b.Input(), old(b.offset), n, unset)
    decreases room, 1
  {
    hide DecodeValue, Nest;
    ghost var d, at := b.Input(), b.offset;
    var dictionary: seq<Pair> := [];
    InFrontPairs(DecodePairs(d, at, n, unset));
    for i := 0 to n
      invariant b.Input() == d && b.offset >= at && NestPairs(d, b.offset, n - i, unset) <= room
      invariant DecodePairs(d, at, n, unset) == PairsBehind(dictionary, DecodePairs(d, b.offset, n - i, unset))
    {
      var k := DecodeRecurse(b, unset, room);
      if k == None {
        return None;
      }
      var v := DecodeRecurse(b, unset, room);
      if v == None {
        return None;
      }
      MovePair(dictionary, Pair(k.value, v.value), DecodePairs(d, b.offset, n - i - 1, unset));
      dictionary := dictionary + [Pair(k.value, v.value)];
    }
    assert dictionary + [] == dictionary;
    return Some(dictionary);
  }

  function PairsBehind(list: seq<Pair>, r: DecodedPairs): DecodedPairs {
    DecodedPairs(if r.pairs.Some? then Some(list + r.pairs.value) else None, r.next)
  }

  lemma InFrontPairs(r: DecodedPairs)
    ensures PairsBehind([], r) == r
  {
    if r.pairs.Some? {
      assert [] + r.pairs.value == r.pairs.value;
    }
  }

  lemma MovePair(list: seq<Pair>, p: Pair, r: DecodedPairs)
    ensures PairsBehind(list, PairsBehind([p], r)) == PairsBehind(list + [p], r)
  {
    if r.pairs.Some? {
      assert list + ([p] + r.pairs.value) == list + [p] + r.pairs.value;
    }
  }

  // -- Argument tuples -----------------------------------------------------------------

  method LengthTuple(args: seq<Value>) returns (r: Option<nat>)
    requires AllDefined(args)
    ensures r == if AnyRefused(args) then None else Some(MeasureAll(args))
  {
    hide Everywhere, Refused, Measure;
    var length := 0;
    for i := 0 to |args|
      invariant !AnyRefused(args[..i])
      invariant length + MeasureAll(args[i..]) == MeasureAll(args)
    {
      assert args[i..][1..] == args[i + 1..];
      var n := LengthRecurse(args[i]);
      if n == None {
        return None;
      }
      length := length + n.value;
    }
    assert args[..|args|] == args;
    return Some(length);
  }

  method EncodeTuple(b: Buffer, args: seq<Value>)
    requires AllDefined(args)
    requires b.offset + |EncodeAll(args)| <= b.data.Length
    modifies b`offset, b.data
    ensures Wrote(b, EncodeAll(args))
  {
    hide Everywhere, Encode, EncodeAll, Patched;
    ghost var before, at, done := b.data[..], b.offset, [];
    PatchedNothing(before, at);
    assert args[0..] == args && [] + EncodeAll(args) == EncodeAll(args);
    for i := 0 to |args|
      invariant b.data == old(b.data) && b.size == old(b.size)
      invariant EncodeAll(args) == done + EncodeAll(args[i..])
      invariant at + |EncodeAll(args)| <= |before| == b.data.Length && b.offset == at + |done|
      invariant b.data[..] == Patched(before, at, done)
    {
      OneMore(done, args, i);
      EncodeRecurse(b, args[i]);
      PatchedTwice(before, at, done, Encode(args[i]));
      done := done + Encode(args[i]);
    }
    NoMore(done, args);
  }

  method DecodeTuple(b: Buffer, unset: nat) returns (r: Option<seq<Value>>)
    requires b.Readable()
    modifies b`offset
    ensures DecodedItems(r, b.offset) == DecodeAll(b.Input(), old(b.offset), unset)
  {
    hide DecodeValue, Nest;
    ghost var d, at := b.Input(), b.offset;
    var list: seq<Value> := [];
    InFrontItems(DecodeAll(d, at, unset));
    while true
      invariant b.Input() == d && b.offset >= at
      invariant DecodeAll(d, at, unset) == ItemsBehind(list, DecodeAll(d, b.offset, unset))
      decreases Left(d, b.offset)
    {
      NestBound(d, b.offset, unset);
      var v := DecodeRecurse(b, unset, Left(d, b.offset) + 1);
      if v == None {
        return None;
      }
      if v.value.EndPointer? {
        assert list + [] == list;
        return Some(list);
      }
      MoveItem(list, v.value, DecodeAll(d, b.offset, unset));
      list := list + [v.value];
    }
  }

  // -- The two functions of the module ---------------------------------------------------

  /** Measures, allocates without initializing, and fills. The result is the bytes of
      the arguments exactly when the two passes agree on every size. */
  method PyEncode(args: seq<Value>) returns (r: Option<seq<byte>>)
    requires AllDefined(args)
    ensures r.Some? <==> forall i :: 0 <= i < |args| ==> !Refused(args[i])
    ensures r.Some? ==> |r.value| == MeasureAll(args) && EncodeAll(args) <= r.value
    ensures r.Some? ==>
      (r.value == EncodeAll(args) <==> forall i :: 0 <= i < |args| ==> Everywhere(SizesAgree, args[i]))
  {
    hide Everywhere, Refused, MeasureAll, EncodeAll;
    var length := LengthTuple(args);
    if length == None {
      return None;
    }
    MeasuredAll(args);
    var bytes := new byte[length.value];
    var b := new Buffer(bytes, 0);
    EncodeTuple(b, args);
    return Some(bytes[..]);
  }

  /** A single object comes out by itself, any other number as a tuple. So the bytes of an
      argument tuple give its normal form back, unwrapped if it has one argument. */
  method PyDecode(s: seq<byte>, unset: nat) returns (r: Option<Value>)
    requires |s| < 0x8000_0000_0000_0000
    ensures var all := DecodeAll(s, 0, unset).items;
      && (all.None? ==> r == None)
      && (all.Some? && |all.value| == 1 ==> r == Some(all.value[0]))
      && (all.Some? && |all.value| != 1 ==> r == Some(Sequence(all.value)))
    ensures forall args | Restorable(args) && s == EncodeAll(args) ::
      r == Some(if |args| == 1 then Normal(args[0]) else Sequence(NormalAll(args)))
  {
    hide DecodeAll, Restorable, Normal, Encode;
    forall args | Restorable(args) && s == EncodeAll(args)
      ensures DecodeAll(s, 0, unset).items == Some(NormalAll(args))
    {
      ReadBack(args, s, unset);
    }
    var data := new byte[|s|](i requires 0 <= i < |s| => s[i]);
    assert data[..] == s;
    var b := new Buffer(data, |s|);
    assert b.Input() == s;
    var list := DecodeTuple(b, unset);
    if list == None {
      return None;
    }
    if |list.value| == 1 {
      return Some(list.value[0]);
    }
    return Some(Sequence(list.value));
  }

  /** Arguments that are accepted, whose conversions are defined, and whose sizes fit. */
  ghost predicate Restorable(args: seq<Value>) {
    forall i :: 0 <= i < |args| ==> Everywhere(Known, args[i]) && Everywhere(Fits, args[i])
  }

  lemma ReadBack(args: seq<Value>, s: seq<byte>, unset: nat)
    requires Restorable(args) && s == EncodeAll(args)
    ensures DecodeAll(s, 0, unset).items == Some(NormalAll(args))
  {
    hide DecodeAll, Everywhere, EncodeAll, NormalAll;
    assert Tokens.Holds(s, 0, EncodeAll(args));
    AtEnd(s, unset);
    Split(s, 0, args, unset);
  }
}
