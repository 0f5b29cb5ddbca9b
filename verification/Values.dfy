/**
  Python value trees, the bytes they are pickled to, and the reader of such bytes.
  A unicode object is given by its UTF-8 bytes, a dictionary by its pairs in
  iteration order.
*/
module Values {
  import opened Options
  import opened Words
  import opened Floats
  import opened Wire
  import opened Decoder
  import opened Tokens

  datatype Pair = Pair(key: Value, value: Value)

  /** EndPointer is the pointer -1 with which the reader reports the end; Foreign is
      any object the codec does not know, a long integer for example. */
  datatype Value =
    | ByteArray(bytes: seq<byte>)
    | Bytes(bytes: seq<byte>)
    | Unicode(utf8: seq<byte>)
    | Int(i: int64)
    | Real(d: Double)
    | Nothing
    | Dict(pairs: seq<Pair>)
    | Sequence(items: seq<Value>)
    | Set(items: seq<Value>)
    | Foreign
    | EndPointer

  // -- Bytes of a tree -----------------------------------------------------------

  function Encode(v: Value): seq<byte>
    decreases v, 1
  {
    match v
    case ByteArray(s) => BinaryBytes(s)
    case Bytes(s) => BinaryBytes(s)
    case Unicode(s) => Utf8Bytes(s)
    case Int(i) => IntegerBytes(i)
    case Real(d) => DoubleBytes(d)
    case Nothing => [NULL_BYTE]
    case Dict(pairs) => CompoundBytes(DICTIONARY_TAG, Cut(|pairs|)) + EncodePairs(pairs)
    case Sequence(items) => CompoundBytes(LIST_TAG, Cut(|items|)) + EncodeAll(items)
    case Set(items) => CompoundBytes(LIST_TAG, Cut(|items|)) + EncodeAll(items)
    case Foreign => []
    case EndPointer => []
  }

  function EncodeAll(vs: seq<Value>): seq<byte>
    decreases vs, 0
  {
    if vs == [] then [] else Encode(vs[0]) + EncodeAll(vs[1..])
  }

  function EncodePairs(ps: seq<Pair>): seq<byte>
    decreases ps, 0
  {
    if ps == [] then [] else EncodePair(ps[0]) + EncodePairs(ps[1..])
  }

  function EncodePair(p: Pair): seq<byte>
    decreases p, 0
  {
    Encode(p.key) + Encode(p.value)
  }

  // -- Reading a tree ------------------------------------------------------------

  /** No value means an error; then next is where the failing token left the cursor. */
  datatype Decoded = Decoded(value: Option<Value>, next: nat)
  datatype DecodedItems = DecodedItems(items: Option<seq<Value>>, next: nat)
  datatype DecodedPairs = DecodedPairs(pairs: Option<seq<Pair>>, next: nat)

  function Left(d: seq<byte>, at: nat): nat { if at < |d| then |d| - at else 0 }

  /** Reads one tree. Past the end it gives the end pointer, also for the items of a
      container, whose loop still runs its full count. */
  function DecodeValue(d: seq<byte>, at: nat, unset: nat): (r: Decoded)
    ensures r.value.Some? ==> r.next >= at && (r.value == Some(EndPointer) <==> at >= |d|)
    ensures r.value.Some? && at < |d| ==> at < r.next <= |d| + 1
    decreases Left(d, at), 0, 0
  {
    TokenBounds(d, at, unset);
    var t := TokenAt(d, at, unset);
    match t.token
    case End => Decoded(Some(EndPointer), t.next)
    case Error => Decoded(None, t.next)
    case Null => Decoded(Some(Nothing), t.next)
    case Integer(i) => Decoded(Some(Int(i)), t.next)
    case Real(x) => Decoded(Some(Value.Real(x)), t.next)
    case Utf8String(start, n) => Decoded(Some(Unicode(d[start..start + n])), t.next)
    case BinaryString(start, n) => Decoded(Some(Bytes(d[start..start + n])), t.next)
    case List(n) =>
      var r := DecodeItems(d, t.next, n, unset);
      Decoded(if r.items.Some? then Some(Sequence(r.items.value)) else None, r.next)
    case Dictionary(n) =>
      var r := DecodePairs(d, t.next, n, unset);
      Decoded(if r.pairs.Some? then Some(Dict(r.pairs.value)) else None, r.next)
  }

  function DecodeItems(d: seq<byte>, at: nat, n: nat, unset: nat): (r: DecodedItems)
    ensures r.items.Some? ==> r.next >= at && |r.items.value| == n
    ensures r.items.Some? && at <= |d| + 1 ==> r.next <= |d| + 1
    decreases Left(d, at), 1, n
  {
    if n == 0 then DecodedItems(Some([]), at)
    else
      var v := DecodeValue(d, at, unset);
      if v.value.None? then DecodedItems(None, v.next)
      else
        var r := DecodeItems(d, v.next, n - 1, unset);
        DecodedItems(if r.items.Some? then Some([v.value.value] + r.items.value) else None, r.next)
  }

  function DecodePairs(d: seq<byte>, at: nat, n: nat, unset: nat): (r: DecodedPairs)
    ensures r.pairs.Some? ==> r.next >= at && |r.pairs.value| == n
    ensures r.pairs.Some? && at <= |d| + 1 ==> r.next <= |d| + 1
    decreases Left(d, at), 1, n
  {
    if n == 0 then DecodedPairs(Some([]), at)
    else
      var k := DecodeValue(d, at, unset);
      if k.value.None? then DecodedPairs(None, k.next)
      else
        var v := DecodeValue(d, k.next, unset);
        if v.value.None? then DecodedPairs(None, v.next)
        else
          var r := DecodePairs(d, v.next, n - 1, unset);
          var p := Pair(k.value.value, v.value.value);
          DecodedPairs(if r.pairs.Some? then Some([p] + r.pairs.value) else None, r.next)
  }

  /** Reads trees until the end of the bytes. */
  function DecodeAll(d: seq<byte>, at: nat, unset: nat): (r: DecodedItems)
    ensures r.items.Some? ==> r.next >= at && r.next >= |d|
    decreases Left(d, at)
  {
    var v := DecodeValue(d, at, unset);
    if v.value.None? then DecodedItems(None, v.next)
    else if v.value == Some(EndPointer) then DecodedItems(Some([]), v.next)
    else
      var r := DecodeAll(d, v.next, unset);
      DecodedItems(if r.items.Some? then Some([v.value.value] + r.items.value) else None, r.next)
  }

  // -- What is asked of a tree -----------------------------------------------------

  /** p holds at every node of the tree. */
  ghost predicate Everywhere(p: Value -> bool, v: Value)
    decreases v, 1
  {
    p(v) &&
    match v
    case Dict(pairs) => forall i :: 0 <= i < |pairs| ==> EverywhereInPair(p, pairs[i])
    case Sequence(items) => forall i :: 0 <= i < |items| ==> Everywhere(p, items[i])
    case Set(items) => forall i :: 0 <= i < |items| ==> Everywhere(p, items[i])
    case _ => true
  }

  ghost predicate EverywhereInPair(p: Value -> bool, q: Pair)
    decreases q, 0
  {
    Everywhere(p, q.key) && Everywhere(p, q.value)
  }

  /** The number of bytes of a string, of items or of pairs. */
  function Size(v: Value): nat {
    match v
    case ByteArray(s) => |s|
    case Bytes(s) => |s|
    case Unicode(s) => |s|
    case Dict(pairs) => |pairs|
    case Sequence(items) => |items|
    case Set(items) => |items|
    case _ => 0
  }

  predicate IsContainer(v: Value) { v.Dict? || v.Sequence? || v.Set? }

  /** An object of a type the codec knows. */
  predicate Supported(v: Value) { !v.Foreign? && !v.EndPointer? }

  /** A float whose conversion to an integer, if it comes to that, is defined. */
  predicate Defined(v: Value) { v.Real? ==> Convertible(v.d) }

  predicate Known(v: Value) { Supported(v) && Defined(v) }

  /** Somewhere in the tree is an object that no type test of the codec accepts. */
  ghost predicate Refused(v: Value)
    decreases v, 1
  {
    match v
    case Foreign => true
    case EndPointer => true
    case Dict(pairs) => AnyPairRefused(pairs)
    case Sequence(items) => AnyRefused(items)
    case Set(items) => AnyRefused(items)
    case _ => false
  }

  ghost predicate AnyRefused(vs: seq<Value>)
    decreases vs, 0
  {
    exists i :: 0 <= i < |vs| && Refused(vs[i])
  }

  ghost predicate AnyPairRefused(ps: seq<Pair>)
    decreases ps, 0
  {
    exists i :: 0 <= i < |ps| && RefusedInPair(ps[i])
  }

  ghost predicate RefusedInPair(p: Pair)
    decreases p, 0
  {
    Refused(p.key) || Refused(p.value)
  }

  /** The kinds of objects one by one: byte arrays, strings, numbers and None are accepted,
      containers if all in them is. */
  lemma RefusedByKind(s: seq<byte>, i: int64, d: Double, vs: seq<Value>, ps: seq<Pair>)
    ensures !Refused(ByteArray(s)) && !Refused(Bytes(s)) && !Refused(Unicode(s))
    ensures !Refused(Int(i)) && !Refused(Value.Real(d)) && !Refused(Nothing)
    ensures !Refused(Sequence(vs)) <==> forall k :: 0 <= k < |vs| ==> !Refused(vs[k])
    ensures !Refused(Set(vs)) <==> forall k :: 0 <= k < |vs| ==> !Refused(vs[k])
    ensures !Refused(Dict(ps)) <==> forall k :: 0 <= k < |ps| ==> !Refused(ps[k].key) && !Refused(ps[k].value)
    ensures Refused(Foreign) && Refused(EndPointer)
  {
    RefusedContainers(vs, ps);
  }

  lemma RefusedContainers(vs: seq<Value>, ps: seq<Pair>)
    ensures !Refused(Dict(ps)) <==> forall k :: 0 <= k < |ps| ==> !Refused(ps[k].key) && !Refused(ps[k].value)
  {
    if k :| 0 <= k < |ps| && (Refused(ps[k].key) || Refused(ps[k].value)) {
      assert RefusedInPair(ps[k]);
    }
    if Refused(Dict(ps)) {
      assert AnyPairRefused(ps);
      var k :| 0 <= k < |ps| && RefusedInPair(ps[k]);
      assert Refused(ps[k].key) || Refused(ps[k].value);
    }
  }

  lemma {:induction false} SupportedEverywhere(v: Value)
    ensures Everywhere(Supported, v) <==> !Refused(v)
    decreases v, 1
  {
    match v
    case Dict(pairs) =>
      forall i | 0 <= i < |pairs| { SupportedInPair(pairs[i]); }
    case Sequence(items) =>
      forall i | 0 <= i < |items| { SupportedEverywhere(items[i]); }
    case Set(items) =>
      forall i | 0 <= i < |items| { SupportedEverywhere(items[i]); }
    case _ =>
  }

  lemma {:induction false} SupportedInPair(p: Pair)
    ensures EverywhereInPair(Supported, p) <==> !RefusedInPair(p)
    decreases p, 0
  {
    SupportedEverywhere(p.key);
    SupportedEverywhere(p.value);
  }

  lemma {:induction false} KnownEverywhere(v: Value)
    ensures Everywhere(Known, v) <==> Everywhere(Supported, v) && Everywhere(Defined, v)
    decreases v, 1
  {
    match v
    case Dict(pairs) =>
      forall i | 0 <= i < |pairs| { KnownInPair(pairs[i]); }
    case Sequence(items) =>
      forall i | 0 <= i < |items| { KnownEverywhere(items[i]); }
    case Set(items) =>
      forall i | 0 <= i < |items| { KnownEverywhere(items[i]); }
    case _ =>
  }

  lemma {:induction false} KnownInPair(p: Pair)
    ensures EverywhereInPair(Known, p) <==> EverywhereInPair(Supported, p) && EverywhereInPair(Defined, p)
    decreases p, 0
  {
    KnownEverywhere(p.key);
    KnownEverywhere(p.value);
  }

  predicate Fits(v: Value) { Size(v) < 0x1_0000_0000 }

  /** The sizing pass and the writer agree on this node. */
  predicate SizesAgree(v: Value) {
    Fits(v) || (IsContainer(v) && Cut(Size(v)) > 0xffff)
  }

  // -- Normal form -------------------------------------------------------------------

  /** What a tree is read back as: byte arrays as byte strings, sets and tuples as
      lists, integral floats as integers. */
  function Normal(v: Value): Value
    decreases v, 1
  {
    match v
    case ByteArray(s) => Bytes(s)
    case Real(d) => if IsIntegral(d) then Int(SignedWrap(Whole(d), WORD)) else v
    case Dict(pairs) => Dict(NormalPairs(pairs))
    case Sequence(items) => Sequence(NormalAll(items))
    case Set(items) => Sequence(NormalAll(items))
    case _ => v
  }

  function NormalAll(vs: seq<Value>): (r: seq<Value>)
    ensures |r| == |vs|
    decreases vs, 0
  {
    if vs == [] then [] else [Normal(vs[0])] + NormalAll(vs[1..])
  }

  function NormalPairs(ps: seq<Pair>): (r: seq<Pair>)
    ensures |r| == |ps|
    decreases ps, 0
  {
    if ps == [] then [] else [NormalPair(ps[0])] + NormalPairs(ps[1..])
  }

  function NormalPair(p: Pair): Pair
    decreases p, 0
  {
    Pair(Normal(p.key), Normal(p.value))
  }

  /** Whether a tree is accepted depends on its normal form only. */
  lemma {:induction false} RefusedByNormal(v: Value)
    ensures Refused(v) <==> Refused(Normal(v))
    decreases v, 2
  {
    hide AnyRefused, AnyPairRefused, IsIntegral;
    match v
    case Dict(pairs) => RefusedPairsByNormal(pairs);
    case Sequence(items) => RefusedAllByNormal(items);
    case Set(items) => RefusedAllByNormal(items);
    case _ =>
  }

  lemma {:induction false} RefusedAllByNormal(vs: seq<Value>)
    ensures AnyRefused(vs) <==> AnyRefused(NormalAll(vs))
    decreases vs, 1
  {
    hide Normal, Refused;
    forall i | 0 <= i < |vs|
      ensures NormalAll(vs)[i] == Normal(vs[i]) && (Refused(vs[i]) <==> Refused(NormalAll(vs)[i]))
    {
      NormalAt(vs, i);
      RefusedByNormal(vs[i]);
    }
    if i :| 0 <= i < |vs| && Refused(vs[i]) {
      assert Refused(NormalAll(vs)[i]);
    }
    if i :| 0 <= i < |vs| && Refused(NormalAll(vs)[i]) {
      assert Refused(vs[i]);
    }
  }

  lemma {:induction false} NormalAt(vs: seq<Value>, i: nat)
    requires i < |vs|
    ensures NormalAll(vs)[i] == Normal(vs[i])
  {
    hide Normal;
    if i > 0 {
      NormalAt(vs[1..], i - 1);
    }
  }

  lemma {:induction false} RefusedPairsByNormal(ps: seq<Pair>)
    ensures AnyPairRefused(ps) <==> AnyPairRefused(NormalPairs(ps))
    decreases ps, 1
  {
    hide NormalPair, RefusedInPair;
    forall i | 0 <= i < |ps|
      ensures NormalPairs(ps)[i] == NormalPair(ps[i]) && (RefusedInPair(ps[i]) <==> RefusedInPair(NormalPairs(ps)[i]))
    {
      NormalPairAt(ps, i);
      RefusedPairByNormal(ps[i]);
    }
    if i :| 0 <= i < |ps| && RefusedInPair(ps[i]) {
      assert RefusedInPair(NormalPairs(ps)[i]);
    }
    if i :| 0 <= i < |ps| && RefusedInPair(NormalPairs(ps)[i]) {
      assert RefusedInPair(ps[i]);
    }
  }

  lemma {:induction false} NormalPairAt(ps: seq<Pair>, i: nat)
    requires i < |ps|
    ensures NormalPairs(ps)[i] == NormalPair(ps[i])
  {
    hide NormalPair;
    if i > 0 {
      NormalPairAt(ps[1..], i - 1);
    }
  }

  lemma {:induction false} RefusedPairByNormal(p: Pair)
    ensures RefusedInPair(p) <==> RefusedInPair(NormalPair(p))
    decreases p, 0
  {
    hide Normal, Refused;
    RefusedByNormal(p.key);
    RefusedByNormal(p.value);
  }
}
