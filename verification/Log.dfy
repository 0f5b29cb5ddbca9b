/**
  The log record: written by a client into one packet of the ring buffer, read by
  the log daemon. The ring buffer is reduced to its answer, a packet of the size
  asked for or none; time and thread information are parameters.
*/
module Log {
  import opened Options
  import opened Words
  import opened Buffers
  import opened Wire
  import opened Tokens
  import opened Stdarg
  import opened FmtParser
  import opened PicklePrint

  datatype Header = Header(
    timestamp: int64, user: int64, session: int64, transaction: int64, service: seq<byte>,
    severity: int64, filename: seq<byte>, lineno: int64)

  const MESSAGE_TYPE: int64 := 0
  const HEADER_TYPES: string := ['q', 'q', 'q', 'q', 'q', 's', 'q', 's', 'q']

  function HeaderArgs(h: Header): (args: seq<Arg>)
    ensures |args| == |HEADER_TYPES|
  {
    [Int64(MESSAGE_TYPE), Int64(h.timestamp), Int64(h.user), Int64(h.session), Int64(h.transaction), Text(h.service),
     Int64(h.severity), Text(h.filename), Int64(h.lineno)]
  }

  /** The strings of the header are C strings. */
  predicate ValidHeader(h: Header) { NoNul(h.service) && NoNul(h.filename) }

  predicate HeaderFits(h: Header) { |h.service| < 0x1_0000_0000 && |h.filename| < 0x1_0000_0000 }

  lemma {:induction false} TypedByIndex(types: string, args: seq<Arg>)
    requires |args| >= |types|
    requires forall i :: 0 <= i < |types| ==> Encodes(types[i]) && Matches(types[i], args[i])
    ensures WellTyped(types, args)
    ensures TextsFit(types, args) <==> forall i :: 0 <= i < |types| ==> TextFits(args[i])
    ensures |ArriveAll(types, args)| == |types|
    ensures forall i :: 0 <= i < |types| ==> ArriveAll(types, args)[i] == Arrives(types[i], args[i])
  {
    hide Encodes, Matches, TextFits, Arrives;
    if types != [] {
      TypedByIndex(types[1..], args[1..]);
      assert forall i :: 1 <= i < |types| ==> types[i] == types[1..][i - 1] && args[i] == args[1..][i - 1];
    }
  }

  lemma HeaderMatches(h: Header)
    requires ValidHeader(h)
    ensures forall i :: 0 <= i < |HEADER_TYPES| ==>
      Encodes(HEADER_TYPES[i]) && Matches(HEADER_TYPES[i], HeaderArgs(h)[i])
  {}

  lemma HeaderTyped(h: Header)
    requires ValidHeader(h)
    ensures WellTyped(HEADER_TYPES, HeaderArgs(h))
    ensures TextsFit(HEADER_TYPES, HeaderArgs(h)) <==> HeaderFits(h)
    ensures forall i :: 0 <= i < |HEADER_TYPES| ==> Encodes(HEADER_TYPES[i])
  {
    hide WellTyped, TextsFit, Encodes, Matches;
    HeaderMatches(h);
    var args := HeaderArgs(h);
    TypedByIndex(HEADER_TYPES, args);
    assert TextFits(args[5]) <==> |h.service| < 0x1_0000_0000;
    assert TextFits(args[7]) <==> |h.filename| < 0x1_0000_0000;
  }

  // -- Writing -----------------------------------------------------------------------

  function Record(h: Header, fmt: seq<byte>, args: seq<Arg>): seq<byte> {
    EncodeArgs(HEADER_TYPES, HeaderArgs(h)).bytes + Pickled(Parse(fmt), fmt, args)
  }

  function RecordLength(h: Header, fmt: seq<byte>, args: seq<Arg>): nat {
    var n := MeasureArgs(HEADER_TYPES, HeaderArgs(h));
    (if n.Some? then n.value else 0) + PickledLength(Parse(fmt), fmt, args)
  }

  function Concat(parts: seq<seq<byte>>): seq<byte> {
    if parts == [] then [] else parts[0] + Concat(parts[1..])
  }

  function Parts(args: seq<Arg>): (parts: seq<seq<byte>>)
    ensures |parts| == |args| && forall i :: 0 <= i < |args| ==> parts[i] == ArgBytes(args[i])
  {
    seq(|args|, i requires 0 <= i < |args| => ArgBytes(args[i]))
  }

  lemma {:induction false} EncodedParts(types: string, args: seq<Arg>, tail: seq<byte>)
    requires |types| == |args| && forall i :: 0 <= i < |types| ==> Encodes(types[i])
    ensures EncodeArgs(types, args).bytes + tail == Concat(Parts(args) + [tail])
    decreases |types|
  {
    hide Encodes, ArgBytes;
    var parts := Parts(args) + [tail];
    if types == [] {
      assert parts == [tail] && [tail][1..] == [] && [] + tail == tail + [] == tail;
    } else {
      EncodedParts(types[1..], args[1..], tail);
      assert parts[1..] == Parts(args[1..]) + [tail];
      assert parts[0] == ArgBytes(args[0]);
      var rest := EncodeArgs(types[1..], args[1..]).bytes;
      assert ArgBytes(args[0]) + rest + tail == ArgBytes(args[0]) + (rest + tail);
    }
  }

  /** A record is the type zero, the fields of the header in their order, and the pickled
      message. */
  lemma RecordBytes(h: Header, fmt: seq<byte>, args: seq<Arg>)
    ensures var types := Parse(fmt);
      Record(h, fmt, args) == Concat(
        [[0], IntegerBytes(h.timestamp), IntegerBytes(h.user), IntegerBytes(h.session), IntegerBytes(h.transaction),
         Utf8Bytes(h.service), IntegerBytes(h.severity), Utf8Bytes(h.filename), IntegerBytes(h.lineno),
         Utf8Bytes(fmt) + EncodeArgs(types, args).bytes])
  {
    hide EncodeArgs, Utf8Bytes, Types, Concat;
    var tail := Pickled(Parse(fmt), fmt, args);
    EncodedParts(HEADER_TYPES, HeaderArgs(h), tail);
    PartsOfHeader(h);
    assert Parts(HeaderArgs(h)) + [tail] ==
      [[0], IntegerBytes(h.timestamp), IntegerBytes(h.user), IntegerBytes(h.session), IntegerBytes(h.transaction),
       Utf8Bytes(h.service), IntegerBytes(h.severity), Utf8Bytes(h.filename), IntegerBytes(h.lineno), tail];
  }

  lemma PartsOfHeader(h: Header)
    ensures Parts(HeaderArgs(h)) ==
      [[0], IntegerBytes(h.timestamp), IntegerBytes(h.user), IntegerBytes(h.session), IntegerBytes(h.transaction),
       Utf8Bytes(h.service), IntegerBytes(h.severity), Utf8Bytes(h.filename), IntegerBytes(h.lineno)]
  {
    hide Utf8Bytes;
    assert IntegerBytes(0) == [0];
  }

  /** The record never needs more than was asked for, and it fills its packet exactly
      when no long double is asked for and every size fits. */
  lemma RecordMeasured(h: Header, fmt: seq<byte>, args: seq<Arg>)
    requires ValidHeader(h) && WellTyped(Parse(fmt), args)
    ensures MeasureArgs(HEADER_TYPES, HeaderArgs(h)).Some? && EncodeArgs(HEADER_TYPES, HeaderArgs(h)).ok
    ensures |Record(h, fmt, args)| <= RecordLength(h, fmt, args)
    ensures |Record(h, fmt, args)| == RecordLength(h, fmt, args) <==>
            HeaderFits(h) && 'G' !in Parse(fmt) && |fmt| < 0x1_0000_0000 && TextsFit(Parse(fmt), args)
  {
    HeaderTyped(h);
    hide WellTyped, TextsFit, MeasureArgs, EncodeArgs, HeaderArgs, Types, Pickled, PickledLength, HeaderFits;
    Accepted(HEADER_TYPES, HeaderArgs(h));
    ArgsMeasured(HEADER_TYPES, HeaderArgs(h));
    PickledMeasured(fmt, args);
  }

  /** Measures, asks the ring buffer for a packet, and fills it in place. Without a
      packet nothing is logged. */
  method VMessage(h: Header, fmt: seq<byte>, args: seq<Arg>, granted: bool) returns (packet: array?<byte>)
    requires ValidHeader(h) && NoNul(fmt) && WellTyped(Parse(fmt), args)
    ensures packet != null <==> granted
    ensures packet != null ==>
      && fresh(packet) && packet.Length == RecordLength(h, fmt, args)
      && Record(h, fmt, args) <= packet[..]
      && (packet[..] == Record(h, fmt, args) <==>
          HeaderFits(h) && 'G' !in Parse(fmt) && |fmt| < 0x1_0000_0000 && TextsFit(Parse(fmt), args))
  {
    HeaderTyped(h);
    RecordMeasured(h, fmt, args);
    hide WellTyped, TextsFit, MeasureArgs, EncodeArgs, HeaderArgs, Types, Pickled, PickledLength, HeaderFits, Patched;
    var cells := new char[Percents(fmt) + 1];
    CellsSuffice(fmt);
    FmtParse(cells, fmt);
    var types := ReadTypes(cells, fmt);
    var n := VLength(HEADER_TYPES, HeaderArgs(h));
    var m := VPprintfLen(types, fmt, args);
    var size := n.value + m;
    if !granted {
      return null;
    }
    var data := new byte[size];
    var b := new Buffer(data, size);
    ghost var before := data[..];
    var ok := VEncode(b, HEADER_TYPES, HeaderArgs(h));
    VPprintf(b, types, fmt, args);
    PatchedTwice(before, 0, EncodeArgs(HEADER_TYPES, HeaderArgs(h)).bytes, Pickled(types, fmt, args));
    PatchedAtStart(before, Record(h, fmt, args));
    return data;
  }

  lemma PatchedAtStart(d: seq<byte>, s: seq<byte>)
    requires |s| <= |d|
    ensures s <= Patched(d, 0, s) && |Patched(d, 0, s)| == |d|
  {}

  // -- Reading -----------------------------------------------------------------------

  /** What the daemon makes of one packet: the header fields that were decoded, and
      the message if its type is known and it unpickles. */
  datatype Entry = Entry(fields: seq<Field>, message: Option<(seq<byte>, seq<Arg>)>, next: nat)

  /** The type of the message; the daemon's variable keeps its stale value when the
      decoder stops before it. */
  function TypeIn(fields: seq<Field>, stale: int64): int {
    if fields != [] && fields[0].Fixed? then fields[0].n else stale
  }

  /** The cast to an enumeration keeps 32 bits of the type. */
  function EntryOf(d: seq<byte>, at: nat, unset: nat, stale: int64): Entry {
    var h := DecodeArgs(HEADER_TYPES, d, at, unset);
    if TypeIn(h.fields, stale) % 0x1_0000_0000 == MESSAGE_TYPE then
      var m := PickleToVa(d, h.next, unset);
      Entry(h.fields, m.message, m.next)
    else
      Entry(h.fields, None, h.next)
  }

  /** The type that was read, or the stale one when nothing was, decides by its low 32 bits
      whether there is a message at all. */
  lemma TypeDecides(d: seq<byte>, at: nat, unset: nat, stale: int64, n: int)
    requires var f := DecodeArgs(HEADER_TYPES, d, at, unset).fields; if f == [] then n == stale else f[0] == Fixed(n)
    ensures var e := EntryOf(d, at, unset, stale); var h := DecodeArgs(HEADER_TYPES, d, at, unset);
      && e.fields == h.fields
      && (n % 0x1_0000_0000 != 0 ==> e.message == None && e.next == h.next)
      && (n % 0x1_0000_0000 == 0 ==> Unpickled(e.message, e.next) == PickleToVa(d, h.next, unset))
  {
    hide DecodeArgs, PickleToVa;
  }

  /** The decoding half of the daemon's loop; the result of the header decoder is not
      looked at. */
  method Iteration(b: Buffer, unset: nat, stale: int64) returns (entry: Entry)
    requires b.Readable()
    modifies b`offset
    ensures entry == EntryOf(b.Input(), old(b.offset), unset, stale) && entry.next == b.offset
  {
    hide DecodeArgs, PickleToVa;
    var ok, fields := VDecode(b, HEADER_TYPES, unset);
    if TypeIn(fields, stale) % 0x1_0000_0000 == MESSAGE_TYPE {
      var message := ReadPickle(b, unset);
      entry := Entry(fields, message, b.offset);
    } else {
      entry := Entry(fields, None, b.offset);
    }
  }

  /** The header as the daemon's nine fields. */
  function HeaderFields(h: Header): seq<Field> {
    [Fixed(MESSAGE_TYPE), Fixed(h.timestamp), Fixed(h.user), Fixed(h.session), Fixed(h.transaction), Chars(h.service),
     Fixed(h.severity), Chars(h.filename), Fixed(h.lineno)]
  }

  lemma HeaderArrives(h: Header)
    requires ValidHeader(h)
    ensures var r := ArriveAll(HEADER_TYPES, HeaderArgs(h));
      |r| == |HEADER_TYPES| && r[0] == Fixed(MESSAGE_TYPE) && (r == HeaderFields(h) <==> HeaderFits(h))
  {
    hide ArriveAll, WellTyped, TextsFit, Cast, Encodes, Matches;
    HeaderMatches(h);
    TypedByIndex(HEADER_TYPES, HeaderArgs(h));
    var r := ArriveAll(HEADER_TYPES, HeaderArgs(h));
    CutString(h.service);
    CutString(h.filename);
    assert r[5] == HeaderFields(h)[5] <==> |h.service| < 0x1_0000_0000;
    assert r[7] == HeaderFields(h)[7] <==> |h.filename| < 0x1_0000_0000;
  }

  lemma CutString(s: seq<byte>)
    ensures s[..Cut(|s|)] == s <==> |s| < 0x1_0000_0000
  {}

  /** A record handed over is recovered: all nine header fields, the format and the
      arguments it uses, and the cursor ends exactly at the end of the record. */
  lemma HandOver(h: Header, fmt: seq<byte>, args: seq<Arg>, d: seq<byte>, at: nat, unset: nat, stale: int64)
    requires ValidHeader(h) && HeaderFits(h)
    requires NoNul(fmt) && |fmt| < 0x1_0000_0000
    requires WellTyped(Parse(fmt), args) && 'G' !in Parse(fmt)
    requires Holds(d, at, Record(h, fmt, args))
    ensures EntryOf(d, at, unset, stale)
         == Entry(HeaderFields(h), Some((fmt, ReturnedAll(Parse(fmt), args))), at + |Record(h, fmt, args)|)
  {
    hide WellTyped, TextsFit, MeasureArgs, EncodeArgs, HeaderArgs, Types, Pickled, HeaderFits, Holds, DecodeArgs,
         PickleToVa, ArriveAll, ReturnedAll, EntryOf, Encodes;
    HeaderTyped(h);
    HeaderArrives(h);
    var header := EncodeArgs(HEADER_TYPES, HeaderArgs(h)).bytes;
    HoldsParts(d, at, header, Pickled(Parse(fmt), fmt, args));
    ArgsRoundTrip(HEADER_TYPES, HeaderArgs(h), d, at, unset);
    PipelineIdentity(fmt, args, d, at + |header|, unset);
    EntryRead(HeaderFields(h), d, at, at + |header|, unset, stale);
  }

  lemma EntryRead(fields: seq<Field>, d: seq<byte>, at: nat, mid: nat, unset: nat, stale: int64)
    requires DecodeArgs(HEADER_TYPES, d, at, unset) == Fetched(true, fields, mid)
    requires fields != [] && fields[0] == Fixed(MESSAGE_TYPE)
    ensures var m := PickleToVa(d, mid, unset); EntryOf(d, at, unset, stale) == Entry(fields, m.message, m.next)
  {
    hide DecodeArgs, PickleToVa;
  }

  /** The same header, format and arguments come out exactly when every size of header and
      format fits 32 bits and every argument that is used is unchanged. */
  lemma HandOverExactly(h: Header, fmt: seq<byte>, args: seq<Arg>, d: seq<byte>, at: nat, unset: nat, stale: int64)
    requires ValidHeader(h) && NoNul(fmt) && WellTyped(Parse(fmt), args) && 'G' !in Parse(fmt)
    requires Holds(d, at, Record(h, fmt, args))
    ensures |args| >= |Parse(fmt)|
    ensures var e := EntryOf(d, at, unset, stale);
      e.fields == HeaderFields(h) && e.message == Some((fmt, args[..|Parse(fmt)|])) <==>
      HeaderFits(h) && |fmt| < 0x1_0000_0000 && forall i :: 0 <= i < |Parse(fmt)| ==> Unchanged(args[i])
  {
    hide WellTyped, TextsFit, EncodeArgs, HeaderArgs, HeaderFields, Types, Pickled, HeaderFits, Holds, DecodeArgs,
         PickleToVa, ArriveAll, EntryOf, Encodes, Unchanged;
    HeaderTyped(h);
    HeaderArrives(h);
    var header := EncodeArgs(HEADER_TYPES, HeaderArgs(h)).bytes;
    var mid := at + |header|;
    HoldsParts(d, at, header, Pickled(Parse(fmt), fmt, args));
    ArgsRoundTrip(HEADER_TYPES, HeaderArgs(h), d, at, unset);
    EntryRead(ArriveAll(HEADER_TYPES, HeaderArgs(h)), d, at, mid, unset, stale);
    PipelineExactly(fmt, args, d, mid, unset);
  }
}
