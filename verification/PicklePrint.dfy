/**
  Pickling a printf format with its arguments, and turning the pickle back into a
  format and an argument list. The reader derives the argument types anew from the
  format it has read.
*/
module PicklePrint {
  import opened Options
  import opened Words
  import opened Floats
  import opened Buffers
  import opened Wire
  import opened Decoder
  import opened Encoder
  import opened Tokens
  import opened Stdarg
  import opened FmtParser
  import Length

  /** The letters the parser emits are all known to the measuring pass, and none is NUL. */
  lemma {:induction false} LettersKnown(s: State, fmt: seq<byte>)
    ensures forall i :: 0 <= i < |Types(s, fmt)| ==> Measures(Types(s, fmt)[i])
    decreases fmt
  {
    if fmt == [] {
    } else {
      hide Measures;
      var c := fmt[0] as char;
      LettersKnown(Step(s, c), fmt[1..]);
      if s.format && IsConversion(c) {
        LetterKnown(s, c);
      }
    }
  }

  lemma LetterKnown(s: State, c: char)
    requires IsConversion(c)
    ensures Measures(Letter(s, c))
  {}

  // -- Writing -----------------------------------------------------------------------

  function Pickled(types: string, fmt: seq<byte>, args: seq<Arg>): seq<byte> {
    Utf8Bytes(fmt) + EncodeArgs(types, args).bytes
  }

  /** The size asked for; an error of the measuring pass counts as -1. */
  function PickledLength(types: string, fmt: seq<byte>, args: seq<Arg>): nat {
    var n := MeasureArgs(types, args);
    Length.Utf8String(|fmt|) + if n.Some? then n.value else -1
  }

  method VPprintfLen(types: string, fmt: seq<byte>, args: seq<Arg>) returns (n: nat)
    requires WellTyped(types, args)
    ensures n == PickledLength(types, fmt, args)
  {
    n := Length.Utf8String(|fmt|);
    var m := VLength(types, args);
    n := n + if m.Some? then m.value else -1;
  }

  method VPprintf(b: Buffer, types: string, fmt: seq<byte>, args: seq<Arg>)
    requires WellTyped(types, args)
    requires b.offset + |Pickled(types, fmt, args)| <= b.data.Length
    modifies b`offset, b.data
    ensures Wrote(b, Pickled(types, fmt, args))
  {
    hide Utf8Bytes, EncodeArgs, Patched, WellTyped;
    ghost var before, at := b.data[..], b.offset;
    EncodeUtf8String(b, fmt);
    var ok := VEncode(b, types, args);
    PatchedTwice(before, at, Utf8Bytes(fmt), EncodeArgs(types, args).bytes);
  }

  /** The pickle never needs more than the size asked for. It fills it exactly when
      the format asks for no long double and no size reaches 2^32. */
  lemma PickledMeasured(fmt: seq<byte>, args: seq<Arg>)
    requires WellTyped(Parse(fmt), args)
    ensures |Pickled(Parse(fmt), fmt, args)| <= PickledLength(Parse(fmt), fmt, args)
    ensures |Pickled(Parse(fmt), fmt, args)| == PickledLength(Parse(fmt), fmt, args) <==>
            'G' !in Parse(fmt) && |fmt| < 0x1_0000_0000 && TextsFit(Parse(fmt), args)
  {
    hide EncodeArgs, MeasureArgs, TextsFit, WellTyped, Types, StringBytes;
    var types := Parse(fmt);
    LettersKnown(START, fmt);
    Accepted(types, args);
    ArgsMeasured(types, args);
    Length.StringMeasured(UTF8_TAG, fmt);
    NoLongDouble(types);
  }

  lemma NoLongDouble(types: string)
    requires forall i :: 0 <= i < |types| ==> Measures(types[i])
    ensures 'G' !in types <==> forall i :: 0 <= i < |types| ==> Encodes(types[i])
  {}

  /** Parses, measures, allocates and fills. */
  method VApprintf(fmt: seq<byte>, args: seq<Arg>) returns (b: Buffer)
    requires NoNul(fmt) && WellTyped(Parse(fmt), args)
    ensures fresh(b) && fresh(b.data)
    ensures b.size == b.data.Length == PickledLength(Parse(fmt), fmt, args)
    ensures b.offset == |Pickled(Parse(fmt), fmt, args)| <= b.size
    ensures b.data[..b.offset] == Pickled(Parse(fmt), fmt, args)
  {
    hide Utf8Bytes, EncodeArgs, MeasureArgs, Types, WellTyped, PickledLength, Pickled;
    var cells := new char[Percents(fmt) + 1];
    CellsSuffice(fmt);
    FmtParse(cells, fmt);
    var types := ReadTypes(cells, fmt);
    var n := VPprintfLen(types, fmt, args);
    PickledMeasured(fmt, args);
    var data := new byte[n];
    b := new Buffer(data, n);
    VPprintf(b, types, fmt, args);
  }

  /** The letters up to the terminator, as the loops over them see them. */
  method ReadTypes(cells: array<char>, ghost fmt: seq<byte>) returns (types: string)
    requires |Parse(fmt)| < cells.Length && cells[..|Parse(fmt)| + 1] == Parse(fmt) + ['\0']
    ensures types == Parse(fmt)
  {
    LettersKnown(START, fmt);
    hide Types, Measures;
    ghost var all := Parse(fmt);
    assert forall i :: 0 <= i < |all| ==> cells[i] == (all + ['\0'])[i];
    assert cells[|all|] == (all + ['\0'])[|all|];
    types := [];
    var i := 0;
    NulNotKnown();
    while cells[i] != '\0'
      invariant 0 <= i <= |all| && types == all[..i]
      decreases |all| - i
    {
      types := types + [cells[i]];
      i := i + 1;
    }
  }

  lemma NulNotKnown()
    ensures !Measures('\0')
  {}

  // -- Reading -----------------------------------------------------------------------

  const NULL_TEXT: seq<byte> :=
    ['(' as byte, 'N' as byte, 'U' as byte, 'L' as byte, 'L' as byte, ')' as byte]

  /** The argument built for letter c from a token; None for a token of the wrong type. */
  function Built(c: char, t: Token, d: seq<byte>): Option<Arg> {
    if FetchesInt32(c) then
      match t
      case Integer(i) => Some(Int32(SignedWrap(i, 0x1_0000_0000)))
      case Real(x) => Some(Int32(SignedWrap(Whole(x), 0x1_0000_0000)))
      case _ => None
    else if FetchesUInt32(c) then
      match t
      case Integer(i) => Some(UInt32(i % 0x1_0000_0000))
      case Real(x) => Some(UInt32(Whole(x) % 0x1_0000_0000))
      case _ => None
    else if c == 'q' then
      match t
      case Integer(i) => Some(Int64(i))
      case Real(x) => Some(Int64(SignedWrap(Whole(x), WORD)))
      case _ => None
    else if c == 'Q' then
      match t
      case Integer(i) => Some(UInt64(i % WORD))
      case Real(x) => Some(UInt64(Whole(x) % WORD))
      case _ => None
    else if FetchesDouble(c) then
      match t
      case Integer(i) => Some(Float64(FromInteger(i)))
      case Real(x) => Some(Float64(x))
      case _ => None
    else if c == 'G' then
      match t
      case Integer(i) => Some(LongDouble(FromInteger(i)))
      case Real(x) => Some(LongDouble(x))
      case _ => None
    else if c == 's' then
      match t
      case Utf8String(start, _) => Some(Text(CStringAt(d, start)))
      case BinaryString(start, _) => Some(Text(CStringAt(d, start)))
      case Null => Some(Text(NULL_TEXT))
      case _ => None
    else None
  }

  datatype ArgList = ArgList(ok: bool, args: seq<Arg>, next: nat)

  function BuildArgs(types: string, d: seq<byte>, at: nat, unset: nat): ArgList
    decreases |types|
  {
    if types == [] then ArgList(true, [], at)
    else
      var t := TokenAt(d, at, unset);
      var a := Built(types[0], t.token, d);
      if a.None? then ArgList(false, [], t.next)
      else
        var rest := BuildArgs(types[1..], d, t.next, unset);
        ArgList(rest.ok, [a.value] + rest.args, rest.next)
  }

  /** None stands for the result NULL. */
  datatype Unpickled = Unpickled(message: Option<(seq<byte>, seq<Arg>)>, next: nat)

  function PickleToVa(d: seq<byte>, at: nat, unset: nat): Unpickled {
    var t := TokenAt(d, at, unset);
    if !t.token.Utf8String? then Unpickled(None, t.next)
    else
      var fmt := CStringAt(d, t.token.start);
      var r := BuildArgs(Parse(fmt), d, t.next, unset);
      Unpickled(if r.ok then Some((fmt, r.args)) else None, r.next)
  }

  /** The reader as written, with one cell more for the letters than it provides
      (see FmtParser.CellsOfTheReader for when its own cells suffice). */
  method ReadPickle(b: Buffer, unset: nat) returns (message: Option<(seq<byte>, seq<Arg>)>)
    requires b.Readable()
    modifies b`offset
    ensures Unpickled(message, b.offset) == PickleToVa(b.Input(), old(b.offset), unset)
  {
    hide TokenAt, BuildArgs, Built, Types;
    ghost var d, at := b.Input(), b.offset;
    var token := DecodeToken(b, unset);
    if !token.Utf8String? {
      return None;
    }
    var fmt := CStringAt(b.data[..b.size], token.start);
    var cells := new char[Percents(fmt) + 1];
    CellsSuffice(fmt);
    FmtParse(cells, fmt);
    var types := ReadTypes(cells, fmt);
    var ok, args := ReadArgs(b, types, unset);
    return if ok then Some((fmt, args)) else None;
  }

  method ReadArgs(b: Buffer, types: string, unset: nat) returns (ok: bool, args: seq<Arg>)
    requires b.Readable()
    modifies b`offset
    ensures ArgList(ok, args, b.offset) == BuildArgs(types, b.Input(), old(b.offset), unset)
  {
    hide Built, TokenAt;
    ghost var d, at := b.Input(), b.offset;
    args := [];
    BuiltNothing(BuildArgs(types, d, at, unset));
    for i := 0 to |types|
      invariant b.Input() == d
      invariant BuildArgs(types, d, at, unset) == BuiltBehind(args, BuildArgs(types[i..], d, b.offset, unset))
    {
      assert types[i..][1..] == types[i + 1..];
      var token := DecodeToken(b, unset);
      var a := Built(types[i], token, b.data[..b.size]);
      if a.None? {
        assert args + [] == args;
        return false, args;
      }
      BuiltOne(args, a.value, BuildArgs(types[i + 1..], d, b.offset, unset));
      args := args + [a.value];
    }
    assert args + [] == args;
    return true, args;
  }

  function BuiltBehind(args: seq<Arg>, r: ArgList): ArgList { ArgList(r.ok, args + r.args, r.next) }

  lemma BuiltNothing(r: ArgList)
    ensures BuiltBehind([], r) == r
  {
    assert [] + r.args == r.args;
  }

  lemma BuiltOne(args: seq<Arg>, a: Arg, r: ArgList)
    ensures BuiltBehind(args, BuiltBehind([a], r)) == BuiltBehind(args + [a], r)
  {
    assert args + ([a] + r.args) == args + [a] + r.args;
  }

  // -- The pipeline is the identity --------------------------------------------------

  /** The argument that comes out at the other end. */
  function Returned(a: Arg): Arg {
    match a
    case Float64(d) => Float64(PositiveZero(d))
    case Text(s) => Text(s[..Cut(|s|)])
    case _ => a
  }

  function ReturnedAll(types: string, args: seq<Arg>): seq<Arg> {
    if types == [] || args == [] then [] else [Returned(args[0])] + ReturnedAll(types[1..], args[1..])
  }

  lemma DoubleBuilt(c: char, x: Double, d: seq<byte>)
    requires FetchesDouble(c) && Convertible(x)
    ensures Built(c, DoubleToken(x), d) == Some(Float64(PositiveZero(x)))
  {
    hide Convertible, FromInteger, Whole, IsIntegral, PositiveZero;
    ReadBackDouble(x);
  }

  lemma ArgReturned(c: char, a: Arg, d: seq<byte>, at: nat, unset: nat)
    requires Encodes(c) && Matches(c, a) && Holds(d, at, ArgBytes(a))
    ensures var t := TokenAt(d, at, unset);
      t.next == at + |ArgBytes(a)| && Built(c, t.token, d) == Some(Returned(a))
  {
    hide TokenAt, IntegerBytes, DoubleBytes, FromInteger, Convertible, Whole, IsIntegral, PositiveZero, CompoundBytes,
         CStringAt;
    match a
    case Int32(i) => IntegerRead(d, at, i, unset); SignedOfUnsigned(i, 0x1_0000_0000);
    case UInt32(u) => IntegerRead(d, at, u, unset);
    case Int64(l) => IntegerRead(d, at, l, unset);
    case UInt64(ul) => IntegerRead(d, at, SignedWrap(ul, WORD), unset); UnsignedCast(ul);
    case Float64(x) => DoubleRead(d, at, x, unset); DoubleBuilt(c, x, d);
    case Text(s) => TextArrives(s, d, at, unset);
  }

  lemma BuildStep(types: string, d: seq<byte>, at: nat, mid: nat, unset: nat, a: Arg, rest: ArgList)
    requires types != []
    requires TokenAt(d, at, unset).next == mid && Built(types[0], TokenAt(d, at, unset).token, d) == Some(a)
    requires rest == BuildArgs(types[1..], d, mid, unset)
    ensures BuildArgs(types, d, at, unset) == ArgList(rest.ok, [a] + rest.args, rest.next)
  {
    hide TokenAt, Built;
  }

  lemma BuildNothing(types: string, d: seq<byte>, at: nat, unset: nat)
    requires types == []
    ensures BuildArgs(types, d, at, unset) == ArgList(true, [], at)
  {}

  lemma {:induction false} ArgsReturned(types: string, args: seq<Arg>, d: seq<byte>, at: nat, unset: nat)
    requires WellTyped(types, args) && forall i :: 0 <= i < |types| ==> Encodes(types[i])
    requires Holds(d, at, EncodeArgs(types, args).bytes)
    ensures BuildArgs(types, d, at, unset)
         == ArgList(true, ReturnedAll(types, args), at + |EncodeArgs(types, args).bytes|)
    decreases |types|
  {
    hide ArgBytes, Built, Returned, TokenAt, EncodeArgs, BuildArgs, Matches, Holds;
    if types == [] {
      NoArgs(types, args);
      BuildNothing(types, d, at, unset);
    } else {
      ArgsParts(types, args, d, at);
      var mid := at + |ArgBytes(args[0])|;
      ArgReturned(types[0], args[0], d, at, unset);
      ArgsReturned(types[1..], args[1..], d, mid, unset);
      BuildStep(types, d, at, mid, unset, Returned(args[0]), BuildArgs(types[1..], d, mid, unset));
    }
  }

  /** Reading what was pickled gives the same format and the arguments it uses, in
      order, and ends exactly behind the pickle; so the reader derives exactly the
      types the writer used. */
  lemma PipelineIdentity(fmt: seq<byte>, args: seq<Arg>, d: seq<byte>, at: nat, unset: nat)
    requires NoNul(fmt) && |fmt| < 0x1_0000_0000
    requires WellTyped(Parse(fmt), args) && 'G' !in Parse(fmt)
    requires Holds(d, at, Pickled(Parse(fmt), fmt, args))
    ensures PickleToVa(d, at, unset)
         == Unpickled(Some((fmt, ReturnedAll(Parse(fmt), args))), at + |Pickled(Parse(fmt), fmt, args)|)
  {
    hide Holds, Utf8Bytes, EncodeArgs, BuildArgs, TokenAt, Types, WellTyped, ReturnedAll, CStringAt, NoNul;
    var types := Parse(fmt);
    HoldsParts(d, at, Utf8Bytes(fmt), EncodeArgs(types, args).bytes);
    FormatRead(fmt, d, at, unset);
    LettersKnown(START, fmt);
    NoLongDouble(types);
    ArgsReturned(types, args, d, at + |Utf8Bytes(fmt)|, unset);
  }

  lemma FormatRead(fmt: seq<byte>, d: seq<byte>, at: nat, unset: nat)
    requires NoNul(fmt) && |fmt| < 0x1_0000_0000 && Holds(d, at, Utf8Bytes(fmt))
    ensures var t := TokenAt(d, at, unset);
      t.token.Utf8String? && CStringAt(d, t.token.start) == fmt && t.next == at + |Utf8Bytes(fmt)|
  {
    hide TokenAt;
    Utf8Read(d, at, fmt, unset);
    assert fmt[..|fmt|] == fmt;
    CStringRead(d, TokenAt(d, at, unset).token.start, fmt);
  }

  /** Which arguments come back unchanged: all but the negative zero, which loses
      its sign, and strings whose size does not fit 32 bits. */
  predicate Unchanged(a: Arg) { TextFits(a) && a != Float64(Double(true, 0)) }

  lemma {:induction false} ReturnedUnchanged(types: string, args: seq<Arg>)
    requires |args| >= |types|
    ensures |ReturnedAll(types, args)| == |types|
    ensures ReturnedAll(types, args) == args[..|types|] <==> forall i :: 0 <= i < |types| ==> Unchanged(args[i])
  {
    hide Returned, Unchanged;
    if types == [] {
    } else {
      OneUnchanged(args[0]);
      ReturnedUnchanged(types[1..], args[1..]);
      var r := ReturnedAll(types[1..], args[1..]);
      assert args[..|types|] == [args[0]] + args[1..][..|types| - 1];
      assert ([Returned(args[0])] + r)[1..] == r;
      assert args[..|types|][1..] == args[1..][..|types| - 1];
      assert forall i :: 1 <= i < |types| ==> args[i] == args[1..][i - 1];
    }
  }

  lemma OneUnchanged(a: Arg)
    ensures Returned(a) == a <==> Unchanged(a)
  {}

  /** Format and arguments come back exactly when the size of the format fits 32 bits and
      every argument that is used is unchanged. */
  lemma PipelineExactly(fmt: seq<byte>, args: seq<Arg>, d: seq<byte>, at: nat, unset: nat)
    requires NoNul(fmt) && WellTyped(Parse(fmt), args) && 'G' !in Parse(fmt)
    requires Holds(d, at, Pickled(Parse(fmt), fmt, args))
    ensures |args| >= |Parse(fmt)|
    ensures PickleToVa(d, at, unset).message == Some((fmt, args[..|Parse(fmt)|])) <==>
            |fmt| < 0x1_0000_0000 && forall i :: 0 <= i < |Parse(fmt)| ==> Unchanged(args[i])
  {
    hide Holds, Types, WellTyped, ReturnedAll, PickleToVa, Pickled, Unchanged, Measures;
    LettersKnown(START, fmt);
    EnoughArgs(Parse(fmt), args);
    if |fmt| < 0x1_0000_0000 {
      PipelineIdentity(fmt, args, d, at, unset);
      ReturnedUnchanged(Parse(fmt), args);
    } else {
      FormatCut(fmt, args, d, at, unset);
    }
  }

  /** The size of a longer format is cut to 32 bits, and so is what is read of it. */
  lemma FormatCut(fmt: seq<byte>, args: seq<Arg>, d: seq<byte>, at: nat, unset: nat)
    requires NoNul(fmt) && |fmt| >= 0x1_0000_0000 && Holds(d, at, Pickled(Parse(fmt), fmt, args))
    ensures var r := PickleToVa(d, at, unset); r.message.Some? ==> |r.message.value.0| == Cut(|fmt|) < |fmt|
  {
    hide Holds, Utf8Bytes, EncodeArgs, BuildArgs, TokenAt, Types, CStringAt;
    HoldsParts(d, at, Utf8Bytes(fmt), EncodeArgs(Parse(fmt), args).bytes);
    TextArrives(fmt, d, at, unset);
  }

  /** The negative zero loses its sign. */
  lemma NegativeZero(unset: nat)
    ensures var fmt: seq<byte> := ['%' as byte, 'f' as byte];
      var zero := [Float64(Double(true, 0))];
      && WellTyped(Parse(fmt), zero)
      && PickleToVa(Pickled(Parse(fmt), fmt, zero), 0, unset).message == Some((fmt, [Float64(Double(false, 0))]))
  {
    hide PickleToVa, Pickled, Convertible;
    var fmt: seq<byte> := ['%' as byte, 'f' as byte];
    var args := [Float64(Double(true, 0))];
    Two(START, '%' as byte, 'f' as byte);
    assert Parse(fmt) == ['F'];
    ZeroConvertible();
    hide Types;
    assert ['F'][1..] == [] && args[1..] == [];
    assert WellTyped(['F'], args) && ReturnedAll(['F'], args) == [Float64(Double(false, 0))];
    assert Parse(fmt) == Types(START, fmt) == ['F'];
    var d := Pickled(['F'], fmt, args);
    assert Holds(d, 0, d);
    PipelineIdentity(fmt, args, d, 0, unset);
  }

  lemma ZeroConvertible()
    ensures Convertible(Double(true, 0))
  {
    ZeroUnits(BINARY64);
  }

  // -- Which messages the reader takes -------------------------------------------------------

  /** Beyond what the decoder of fields takes: a long double, and for a string a byte
      string or a null. */
  predicate TakesHere(c: char, t: Token) {
    Takes(c, t) || (c == 'G' && (t.Integer? || t.Real?)) || (c == 's' && (t.BinaryString? || t.Null?))
  }

  lemma BuiltTakes(c: char, t: Token, d: seq<byte>)
    ensures Built(c, t, d).Some? <==> TakesHere(c, t)
  {}

  lemma {:induction false} BuildsExactly(types: string, d: seq<byte>, at: nat, unset: nat)
    ensures var r := BuildArgs(types, d, at, unset); var n := |r.args|;
      && (r.ok <==> forall i :: 0 <= i < |types| ==> TakesHere(types[i], Nth(d, at, i, unset)))
      && n <= |types| && (r.ok <==> n == |types|)
      && (forall i :: 0 <= i < n ==>
            && TakesHere(types[i], Nth(d, at, i, unset))
            && Built(types[i], Nth(d, at, i, unset), d) == Some(r.args[i]))
      && (n < |types| ==> !TakesHere(types[n], Nth(d, at, n, unset)))
      && r.next == Place(d, at, if r.ok then n else n + 1, unset)
    decreases |types|
  {
    hide TokenAt, Built, TakesHere;
    if types != [] {
      var t := TokenAt(d, at, unset);
      assert t.token == Nth(d, at, 0, unset);
      BuiltTakes(types[0], t.token, d);
      if TakesHere(types[0], t.token) {
        var rest := types[1..];
        BuildsExactly(rest, d, t.next, unset);
        assert forall i :: 0 <= i < |rest| ==>
          rest[i] == types[i + 1] && Nth(d, t.next, i, unset) == Nth(d, at, i + 1, unset);
        assert forall i :: 1 <= i < |types| ==>
          types[i] == rest[i - 1] && Nth(d, t.next, i - 1, unset) == Nth(d, at, i, unset);
      }
    }
  }

  /** Letter number n is the first that does not take the token at its place behind the
      format. */
  predicate StopsAt(types: string, d: seq<byte>, at: nat, n: nat, unset: nat)
    requires n < |types|
  {
    && !TakesHere(types[n], Nth(d, at, n + 1, unset))
    && forall i :: 0 <= i < n ==> TakesHere(types[i], Nth(d, at, i + 1, unset))
  }

  /** Arbitrary bytes give a message exactly if a text comes first and every letter its
      format has takes the token at its place; the arguments are those tokens. */
  lemma UnpickledExactly(d: seq<byte>, at: nat, unset: nat)
    ensures var r := PickleToVa(d, at, unset); var t := Nth(d, at, 0, unset);
      && (r.message.Some? ==> t.Utf8String? && r.message.value.0 == CStringAt(d, t.start))
      && (r.message.Some? <==> t.Utf8String? && var types := Parse(CStringAt(d, t.start));
            forall i :: 0 <= i < |types| ==> TakesHere(types[i], Nth(d, at, i + 1, unset)))
      && (r.message.Some? ==> var types := Parse(r.message.value.0);
            && |r.message.value.1| == |types|
            && r.next == Place(d, at, |types| + 1, unset)
            && forall i :: 0 <= i < |types| ==>
                 Built(types[i], Nth(d, at, i + 1, unset), d) == Some(r.message.value.1[i]))
      && (!t.Utf8String? ==> r.next == Place(d, at, 1, unset))
      && (r.message.None? && t.Utf8String? ==> var types := Parse(CStringAt(d, t.start));
            exists n: nat :: n < |types| && StopsAt(types, d, at, n, unset) && r.next == Place(d, at, n + 2, unset))
  {
    hide TokenAt, Built, TakesHere, CStringAt, Types, BuildArgs;
    var t := TokenAt(d, at, unset);
    if t.token.Utf8String? {
      var types := Parse(CStringAt(d, t.token.start));
      BuildsExactly(types, d, t.next, unset);
      assert forall i :: 0 <= i < |types| ==> Nth(d, t.next, i, unset) == Nth(d, at, i + 1, unset);
      var n := |BuildArgs(types, d, t.next, unset).args|;
      if n < |types| {
        assert StopsAt(types, d, at, n, unset);
        assert Place(d, t.next, n + 1, unset) == Place(d, at, n + 2, unset);
      }
    }
  }

  /** An integral number is taken alike in whichever of the two forms it arrives. */
  lemma BuiltAlike(c: char, x: Double, d: seq<byte>)
    requires Convertible(x) && IsIntegral(x)
    ensures FetchesInteger(c) ==> Built(c, Real(x), d) == Built(c, Integer(Whole(x)), d)
    ensures FetchesDouble(c) && x != Double(true, 0) ==> Built(c, Real(x), d) == Built(c, Integer(Whole(x)), d)
  {
    hide Convertible, FromInteger, Whole, IsIntegral, Built;
    ConvertibleWhole(x);
    if FetchesInteger(c) {
      IntegerBuiltAlike(c, x, Whole(x), d);
    }
    if FetchesDouble(c) {
      ReadBackDouble(x);
      DoubleBuiltAlike(c, x, Whole(x), d);
    }
  }

  lemma IntegerBuiltAlike(c: char, x: Double, i: int64, d: seq<byte>)
    requires FetchesInteger(c) && i == Whole(x)
    ensures Built(c, Real(x), d) == Built(c, Integer(i), d)
  {
    SignedOfUnsigned(i, WORD);
    hide Whole;
  }

  lemma DoubleBuiltAlike(c: char, x: Double, i: int64, d: seq<byte>)
    requires FetchesDouble(c) && FromInteger(i) == PositiveZero(x)
    ensures x != Double(true, 0) ==> Built(c, Real(x), d) == Built(c, Integer(i), d)
  {
    hide FromInteger;
  }
}
