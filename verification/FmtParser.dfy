/**
  The state machine that turns a printf format string into type letters, and the
  grammar of the formats it understands. int has 4 bytes, long and long long 8.
*/
module FmtParser {
  import opened Words

  // -- The state machine -------------------------------------------------------------

  /** Inside a directive or not, and the two modifier counters, which are unsigned
      machine integers. */
  datatype State = State(format: bool, l: uint32, h: uint32)

  const START := State(false, 0, 0)

  function Next(n: uint32): uint32 { (n + 1) % 0x1_0000_0000 }

  function ParseInt(h: uint32, l: uint32, unsigned: bool): char {
    var size := if h == 2 then 1 else if h == 1 then 2 else if l == 1 then 8 else if l == 2 then 8 else 4;
    match size
    case 1 => if unsigned then 'B' else 'b'
    case 2 => if unsigned then 'W' else 'w'
    case 4 => if unsigned then 'D' else 'd'
    case _ => if unsigned then 'Q' else 'q'
  }

  function ParseChar(l: uint32): char { if l == 1 then 'W' else 'B' }

  function ParseFloat(l: uint32): char { if l == 2 then 'G' else 'F' }

  predicate IsSigned(c: char) { c == 'i' || c == 'd' || c == 'o' }
  predicate IsUnsigned(c: char) { c == 'u' || c == 'x' || c == 'X' }
  predicate IsFloat(c: char) { c == 'f' || c == 'F' || c == 'e' || c == 'E' }
  predicate IsConversion(c: char) { c == 's' || c == 'c' || IsSigned(c) || IsUnsigned(c) || IsFloat(c) }

  /** The letter that conversion c emits. */
  function Letter(s: State, c: char): char
    requires IsConversion(c)
  {
    if c == 's' then 's'
    else if c == 'c' then ParseChar(s.l)
    else if IsFloat(c) then ParseFloat(s.l)
    else ParseInt(s.h, s.l, IsUnsigned(c))
  }

  /** One character: the state after it. */
  function Step(s: State, c: char): State {
    if !s.format then State(c == '%', 0, 0)
    else if c == '%' || IsConversion(c) then s.(format := false)
    else if c == 'l' then s.(l := Next(s.l))
    else if c == 'h' then s.(h := Next(s.h))
    else if c == 'j' || c == 't' || c == 'z' || c == 'q' || c == 'L' then s.(l := 2)
    else s
  }

  /** One character: the letters it emits. */
  function Emit(s: State, c: char): string {
    if s.format && IsConversion(c) then [Letter(s, c)] else ""
  }

  function Types(s: State, fmt: seq<byte>): string
    decreases fmt
  {
    if fmt == [] then "" else Emit(s, fmt[0] as char) + Types(Step(s, fmt[0] as char), fmt[1..])
  }

  function After(s: State, fmt: seq<byte>): State
    decreases fmt
  {
    if fmt == [] then s else After(Step(s, fmt[0] as char), fmt[1..])
  }

  /** The type letters of a format string. */
  function Parse(fmt: seq<byte>): string { Types(START, fmt) }

  /** The parser as written: it stores the letters and a terminating NUL into cells
      the caller has provided. */
  method FmtParse(types: array<char>, fmt: seq<byte>)
    requires |Parse(fmt)| < types.Length
    modifies types
    ensures types[..|Parse(fmt)| + 1] == Parse(fmt) + ['\0']
    ensures types[|Parse(fmt)| + 1..] == old(types[|Parse(fmt)| + 1..])
  {
    hide Types;
    var format, l: uint32, h: uint32 := false, 0, 0;
    var out := 0;
    for i := 0 to |fmt|
      invariant 0 <= out <= |Parse(fmt)|
      invariant types[..out] + Types(State(format, l, h), fmt[i..]) == Parse(fmt)
      invariant forall k :: out <= k < types.Length ==> types[k] == old(types[k])
    {
      var c := fmt[i] as char;
      ghost var s := State(format, l, h);
      ghost var before := types[..out];
      NextCharacter(s, fmt, i, before);
      if !format {
        format, l, h := c == '%', 0, 0;
      } else if c == '%' {
        format := false;
      } else if IsConversion(c) {
        format := false;
        types[out] :=
          if c == 's' then 's'
          else if c == 'c' then ParseChar(l)
          else if IsFloat(c) then ParseFloat(l)
          else ParseInt(h, l, IsUnsigned(c));
        out := out + 1;
      } else {
        match c
        case 'l' => l := Next(l);
        case 'h' => h := Next(h);
        case 'j' => l := 2;
        case 't' => l := 2;
        case 'z' => l := 2;
        case 'q' => l := 2;
        case 'L' => l := 2;
        case _ =>
      }
      assert State(format, l, h) == Step(s, c);
      assert types[..out] == before + Emit(s, c);
      assert types[..out] + Types(Step(s, c), fmt[i + 1..]) == Parse(fmt);
    }
    NoCharacters(State(format, l, h), fmt[|fmt|..]);
    assert types[..out] == Parse(fmt);
    types[out] := '\0';
    assert types[..out + 1] == Parse(fmt) + ['\0'];
  }

  lemma NextCharacter(s: State, fmt: seq<byte>, i: nat, before: string)
    requires i < |fmt|
    ensures before + Types(s, fmt[i..])
         == before + Emit(s, fmt[i] as char) + Types(Step(s, fmt[i] as char), fmt[i + 1..])
  {}

  lemma NoCharacters(s: State, fmt: seq<byte>)
    requires fmt == []
    ensures Types(s, fmt) == "" && After(s, fmt) == s
  {}

  // -- Runs over a concatenation -------------------------------------------------------

  lemma {:induction false} Concatenated(s: State, a: seq<byte>, b: seq<byte>)
    ensures After(s, a + b) == After(After(s, a), b)
    ensures Types(s, a + b) == Types(s, a) + Types(After(s, a), b)
    decreases a
  {
    if a == [] {
      assert a + b == b;
    } else {
      assert (a + b)[1..] == a[1..] + b;
      Concatenated(Step(s, a[0] as char), a[1..], b);
    }
  }

  /** Outside a directive the counters do not matter. */
  lemma {:induction false} Outside(s: State, fmt: seq<byte>)
    requires !s.format
    ensures Types(s, fmt) == Parse(fmt)
    ensures After(s, fmt).format == After(START, fmt).format
    decreases fmt
  {}

  /** Parsing distributes over concatenation at the boundaries of directives. */
  lemma ParseConcatenated(a: seq<byte>, b: seq<byte>)
    requires !After(START, a).format
    ensures Parse(a + b) == Parse(a) + Parse(b)
    ensures After(START, a + b).format == After(START, b).format
  {
    Concatenated(START, a, b);
    Outside(After(START, a), b);
  }

  lemma One(s: State, c: byte)
    ensures Types(s, [c]) == Emit(s, c as char) && After(s, [c]) == Step(s, c as char)
  {}

  lemma Two(s: State, a: byte, b: byte)
    ensures Types(s, [a, b]) == Emit(s, a as char) + Emit(Step(s, a as char), b as char)
    ensures After(s, [a, b]) == Step(Step(s, a as char), b as char)
  {
    assert [a] + [b] == [a, b];
    Concatenated(s, [a], [b]);
    One(s, a);
    One(Step(s, a as char), b);
  }

  // -- Percent signs ---------------------------------------------------------------------

  function Percents(fmt: seq<byte>): nat {
    if fmt == [] then 0 else (if fmt[0] as char == '%' then 1 else 0) + Percents(fmt[1..])
  }

  /** How many directives end in a second percent sign. */
  function Escapes(s: State, fmt: seq<byte>): nat
    decreases fmt
  {
    if fmt == [] then 0
    else (if s.format && fmt[0] as char == '%' then 1 else 0) + Escapes(Step(s, fmt[0] as char), fmt[1..])
  }

  function Open(s: State): nat { if s.format then 1 else 0 }

  /** After any characters the percent signs read are those of the letters emitted,
      two for every escape, and one for a directive that is still open. */
  lemma {:induction false} PercentsConserved(s: State, fmt: seq<byte>)
    ensures Open(s) + Percents(fmt) == |Types(s, fmt)| + 2 * Escapes(s, fmt) + Open(After(s, fmt))
    decreases fmt
  {
    if fmt == [] {
    } else {
      PercentsConserved(Step(s, fmt[0] as char), fmt[1..]);
    }
  }

  /** One cell more than there are percent signs always holds the letters and their
      terminator. */
  lemma CellsSuffice(fmt: seq<byte>)
    ensures |Parse(fmt)| + 1 <= Percents(fmt) + 1
  {
    PercentsConserved(START, fmt);
  }

  /** As many cells as percent signs, which is what the reader of pickled messages
      provides, suffice exactly when the format has an escape or ends inside a
      directive. */
  lemma CellsOfTheReader(fmt: seq<byte>)
    ensures |Parse(fmt)| + 1 <= Percents(fmt) <==> Escapes(START, fmt) > 0 || After(START, fmt).format
  {
    PercentsConserved(START, fmt);
  }

  /** A plain conversion is one cell short there. */
  lemma CellsOfTheReaderShort()
    ensures var fmt := ['%' as byte, 'i' as byte]; |Parse(fmt)| + 1 > Percents(fmt)
  {
    Two(START, '%' as byte, 'i' as byte);
    PercentsConserved(START, ['%' as byte, 'i' as byte]);
    assert Escapes(START, ['%' as byte, 'i' as byte]) == 0 by {
      assert ['%' as byte, 'i' as byte][1..] == ['i' as byte];
      assert ['i' as byte][1..] == [];
      assert Escapes(Step(START, '%'), ['i' as byte]) == 0;
    }
  }

  // -- Conversions and modifiers as C has them -------------------------------------------

  datatype Kind =
    | StringOf
    | CharacterOf
    | SignedI | SignedD | SignedO
    | UnsignedU | UnsignedX | UnsignedBigX
    | DoubleF | DoubleBigF | DoubleE | DoubleBigE

  function KindSpelling(k: Kind): byte {
    match k
    case StringOf => 's' as byte
    case CharacterOf => 'c' as byte
    case SignedI => 'i' as byte
    case SignedD => 'd' as byte
    case SignedO => 'o' as byte
    case UnsignedU => 'u' as byte
    case UnsignedX => 'x' as byte
    case UnsignedBigX => 'X' as byte
    case DoubleF => 'f' as byte
    case DoubleBigF => 'F' as byte
    case DoubleE => 'e' as byte
    case DoubleBigE => 'E' as byte
  }

  /** The letter for an integer of w bytes, as the type letters are documented. */
  function IntegerLetter(w: nat, unsigned: bool): char {
    if unsigned then (if w == 1 then 'B' else if w == 2 then 'W' else if w == 4 then 'D' else 'Q')
    else if w == 1 then 'b' else if w == 2 then 'w' else if w == 4 then 'd' else 'q'
  }

  /** The letter of a conversion whose modifiers have selected an integer of w bytes, a
      wide character or a long double; o counts as signed and a wide character as an
      unsigned word. */
  function KindLetter(k: Kind, w: nat, wide: bool, long: bool): char {
    match k
    case StringOf => 's'
    case CharacterOf => if wide then 'W' else 'B'
    case SignedI | SignedD | SignedO => IntegerLetter(w, false)
    case UnsignedU | UnsignedX | UnsignedBigX => IntegerLetter(w, true)
    case DoubleF | DoubleBigF | DoubleE | DoubleBigE => if long then 'G' else 'F'
  }

  /** The number of bytes that h many h and a length of l select. */
  function CountedWidth(h: nat, l: nat): nat {
    if h == 2 then 1 else if h == 1 then 2 else if l == 1 || l == 2 then 8 else 4
  }

  lemma ConversionsSpelled(c: byte)
    ensures IsConversion(c as char) <==> exists k :: KindSpelling(k) == c
    ensures forall k :: KindSpelling(k) != '%' as byte
  {
    if c as char == 's' { assert KindSpelling(StringOf) == c; }
    if c as char == 'c' { assert KindSpelling(CharacterOf) == c; }
    if c as char == 'i' { assert KindSpelling(SignedI) == c; }
    if c as char == 'd' { assert KindSpelling(SignedD) == c; }
    if c as char == 'o' { assert KindSpelling(SignedO) == c; }
    if c as char == 'u' { assert KindSpelling(UnsignedU) == c; }
    if c as char == 'x' { assert KindSpelling(UnsignedX) == c; }
    if c as char == 'X' { assert KindSpelling(UnsignedBigX) == c; }
    if c as char == 'f' { assert KindSpelling(DoubleF) == c; }
    if c as char == 'F' { assert KindSpelling(DoubleBigF) == c; }
    if c as char == 'e' { assert KindSpelling(DoubleE) == c; }
    if c as char == 'E' { assert KindSpelling(DoubleBigE) == c; }
  }

  lemma LetterOfKind(k: Kind, s: State)
    ensures var c := KindSpelling(k) as char;
      IsConversion(c) && Letter(s, c) == KindLetter(k, CountedWidth(s.h, s.l), s.l == 1, s.l == 2)
  {}

  // -- Any format at all -------------------------------------------------------------------

  /** A format falls into text, directives that end in a conversion or a second percent
      sign, and possibly one that does not end. The body of a directive is what stands
      between, whatever it is. */
  datatype Piece = Verbatim(text: seq<byte>) | Escape(body: seq<byte>) | Argument(body: seq<byte>, kind: Kind)

  ghost predicate Inert(body: seq<byte>) {
    forall i :: 0 <= i < |body| ==> body[i] != '%' as byte && forall k :: KindSpelling(k) != body[i]
  }

  ghost predicate IsPiece(x: Piece) {
    match x
    case Verbatim(text) => '%' as byte !in text
    case Escape(body) => Inert(body)
    case Argument(body, _) => Inert(body)
  }

  function PieceBytes(x: Piece): seq<byte> {
    match x
    case Verbatim(text) => text
    case Escape(body) => ['%' as byte] + body + ['%' as byte]
    case Argument(body, kind) => ['%' as byte] + body + [KindSpelling(kind)]
  }

  /** How many h stand in a body. */
  function CountH(body: seq<byte>): nat {
    if body == [] then 0 else CountH(body[..|body| - 1]) + if body[|body| - 1] == 'h' as byte then 1 else 0
  }

  /** One for every l, counted from two behind any of the other length modifiers. */
  function CountL(body: seq<byte>): nat {
    if body == [] then 0
    else
      var before, c := CountL(body[..|body| - 1]), body[|body| - 1] as char;
      if c == 'l' then before + 1 else if c in {'j', 't', 'z', 'q', 'L'} then 2 else before
  }

  /** The counters are machine integers. */
  function PieceType(x: Piece): string {
    match x
    case Verbatim(_) => ""
    case Escape(_) => ""
    case Argument(body, kind) =>
      var h, l := CountH(body) % 0x1_0000_0000, CountL(body) % 0x1_0000_0000;
      [KindLetter(kind, CountedWidth(h, l), l == 1, l == 2)]
  }

  function AllBytes(xs: seq<Piece>): seq<byte> {
    if xs == [] then [] else PieceBytes(xs[0]) + AllBytes(xs[1..])
  }

  function AllTypes(xs: seq<Piece>): string {
    if xs == [] then "" else PieceType(xs[0]) + AllTypes(xs[1..])
  }

  function Counters(body: seq<byte>): State {
    State(true, CountL(body) % 0x1_0000_0000, CountH(body) % 0x1_0000_0000)
  }

  lemma {:induction false} BodyCounted(body: seq<byte>)
    requires Inert(body)
    ensures Types(State(true, 0, 0), body) == "" && After(State(true, 0, 0), body) == Counters(body)
    decreases |body|
  {
    var s := State(true, 0, 0);
    hide Types, After, Step, Emit, CountH, CountL, IsConversion, KindSpelling;
    if body == [] {
      NothingCounted();
      NoCharacters(s, body);
    } else {
      var n := |body| - 1;
      BodyCounted(body[..n]);
      Concatenated(s, body[..n], [body[n]]);
      assert body[..n] + [body[n]] == body;
      One(Counters(body[..n]), body[n]);
      ConversionsSpelled(body[n]);
      CharacterCounted(body);
    }
  }

  lemma NothingCounted()
    ensures CountH([]) == 0 && CountL([]) == 0
  {}

  lemma CharacterCounted(body: seq<byte>)
    requires body != [] && body[|body| - 1] != '%' as byte && !IsConversion(body[|body| - 1] as char)
    ensures var n := |body| - 1; var s, c := Counters(body[..n]), body[n] as char;
      Step(s, c) == Counters(body) && Emit(s, c) == ""
  {
    var n := |body| - 1;
    AddOne(CountL(body[..n]));
    AddOne(CountH(body[..n]));
  }

  lemma AddOne(n: nat)
    ensures Next(n % 0x1_0000_0000) == (n + 1) % 0x1_0000_0000
  {}

  /** Opening percent sign and body of a directive. */
  lemma Opened(body: seq<byte>)
    requires Inert(body)
    ensures Types(START, ['%' as byte] + body) == "" && After(START, ['%' as byte] + body) == Counters(body)
  {
    hide Types, After;
    One(START, '%' as byte);
    Concatenated(START, ['%' as byte], body);
    BodyCounted(body);
  }

  lemma {:induction false} PieceParsed(x: Piece)
    requires IsPiece(x)
    ensures Parse(PieceBytes(x)) == PieceType(x) && !After(START, PieceBytes(x)).format
  {
    hide Types, After, Inert, Letter, KindLetter;
    match x
    case Verbatim(text) => LiteralSkipped(text);
    case Escape(body) =>
      Opened(body);
      Concatenated(START, ['%' as byte] + body, ['%' as byte]);
      One(Counters(body), '%' as byte);
    case Argument(body, kind) =>
      Opened(body);
      Concatenated(START, ['%' as byte] + body, [KindSpelling(kind)]);
      One(Counters(body), KindSpelling(kind));
      LetterOfKind(kind, Counters(body));
  }

  lemma {:induction false} PiecesParsed(xs: seq<Piece>)
    requires forall i :: 0 <= i < |xs| ==> IsPiece(xs[i])
    ensures Parse(AllBytes(xs)) == AllTypes(xs) && !After(START, AllBytes(xs)).format
  {
    hide IsPiece, PieceType, PieceBytes;
    if xs != [] {
      PieceParsed(xs[0]);
      PiecesParsed(xs[1..]);
      ParseConcatenated(PieceBytes(xs[0]), AllBytes(xs[1..]));
    }
  }

  /** A directive at the end of a format that does not end itself, or nothing. */
  ghost predicate IsOpen(tail: seq<byte>) {
    tail == [] || (tail[0] == '%' as byte && Inert(tail[1..]))
  }

  lemma OpenParsed(tail: seq<byte>)
    requires IsOpen(tail)
    ensures Parse(tail) == ""
  {
    if tail != [] {
      assert tail == ['%' as byte] + tail[1..];
      Opened(tail[1..]);
    }
  }

  /** The first character of a directive's rest that ends it. */
  lemma {:induction false} BodyEnds(s: seq<byte>) returns (n: nat)
    ensures n <= |s| && Inert(s[..n])
    ensures n < |s| ==> s[n] == '%' as byte || exists k :: KindSpelling(k) == s[n]
  {
    n := 0;
    while n < |s| && s[n] != '%' as byte && !(exists k :: KindSpelling(k) == s[n])
      invariant n <= |s| && Inert(s[..n])
    {
      n := n + 1;
    }
  }

  /** What a format begins with: an open directive that is all of it, or a piece. */
  lemma FirstPiece(fmt: seq<byte>) returns (open: bool, x: Piece, n: nat)
    requires fmt != []
    ensures open ==> IsOpen(fmt)
    ensures !open ==> 0 < n <= |fmt| && IsPiece(x) && fmt[..n] == PieceBytes(x)
  {
    hide Inert, KindSpelling;
    open, x, n := false, Verbatim([fmt[0]]), 1;
    if fmt[0] == '%' as byte {
      var m := BodyEnds(fmt[1..]);
      var body := fmt[1..][..m];
      if m == |fmt| - 1 {
        assert fmt[1..] == body;
        open := true;
      } else {
        n := m + 2;
        assert fmt[..n] == ['%' as byte] + body + [fmt[m + 1]];
        if fmt[m + 1] == '%' as byte {
          x := Escape(body);
        } else {
          var k :| KindSpelling(k) == fmt[m + 1];
          x := Argument(body, k);
        }
      }
    }
  }

  lemma MorePieces(x: Piece, rest: seq<Piece>, tail: seq<byte>)
    ensures AllBytes([x] + rest) + tail == PieceBytes(x) + (AllBytes(rest) + tail)
    ensures AllTypes([x] + rest) == PieceType(x) + AllTypes(rest)
  {
    hide PieceBytes, PieceType;
    assert ([x] + rest)[1..] == rest;
  }

  /** Every format is a list of pieces, possibly with an open directive behind it, and its
      letters are those of the pieces. */
  lemma {:induction false} AnyFormatParsed(fmt: seq<byte>) returns (xs: seq<Piece>, tail: seq<byte>)
    ensures fmt == AllBytes(xs) + tail && IsOpen(tail) && forall i :: 0 <= i < |xs| ==> IsPiece(xs[i])
    ensures Parse(fmt) == AllTypes(xs)
    decreases |fmt|
  {
    hide Types, After, PieceType, PieceBytes, IsPiece, IsOpen, AllBytes, AllTypes;
    xs, tail := [], fmt;
    NoPieces();
    if fmt == [] {
      NoCharacters(START, fmt);
    } else {
      var open, x, n := FirstPiece(fmt);
      if open {
        OpenParsed(fmt);
      } else {
        var rest;
        rest, tail := AnyFormatParsed(fmt[n..]);
        PieceParsed(x);
        ParseConcatenated(fmt[..n], fmt[n..]);
        MorePieces(x, rest, tail);
        assert fmt == fmt[..n] + fmt[n..];
        xs := [x] + rest;
      }
    }
  }

  lemma NoPieces()
    ensures IsOpen([]) && AllTypes([]) == "" && forall fmt: seq<byte> :: AllBytes([]) + fmt == fmt
  {}

  // -- The grammar -----------------------------------------------------------------------

  datatype Modifier = Plain | HH | H | L | LL | J | T | Z | Q | BigL

  /** padding: flags, width and precision. */
  datatype Directive =
    | Literal(text: seq<byte>)
    | Percent
    | Conversion(padding: seq<byte>, modifier: Modifier, kind: Kind)

  function Spelling(m: Modifier): seq<byte> {
    match m
    case Plain => []
    case HH => ['h' as byte, 'h' as byte]
    case H => ['h' as byte]
    case L => ['l' as byte]
    case LL => ['l' as byte, 'l' as byte]
    case J => ['j' as byte]
    case T => ['t' as byte]
    case Z => ['z' as byte]
    case Q => ['q' as byte]
    case BigL => ['L' as byte]
  }

  predicate IsPadding(c: byte) {
    var k := c as char;
    k == '-' || k == '+' || k == ' ' || k == '#' || k == '.' || '0' <= k <= '9'
  }

  /** The modifiers C gives a meaning for a conversion, except for wide strings. */
  predicate ModifierAllowed(m: Modifier, k: Kind) {
    match k
    case StringOf => m == Plain
    case CharacterOf => m == Plain || m == L
    case DoubleF | DoubleBigF | DoubleE | DoubleBigE => m == Plain || m == L || m == BigL
    case _ => m != BigL
  }

  predicate WellFormed(x: Directive) {
    match x
    case Literal(text) => forall i :: 0 <= i < |text| ==> text[i] != '%' as byte
    case Percent => true
    case Conversion(padding, m, k) =>
      && ModifierAllowed(m, k)
      && forall i :: 0 <= i < |padding| ==> IsPadding(padding[i])
  }

  function Render(x: Directive): seq<byte>
    requires WellFormed(x)
  {
    match x
    case Literal(text) => text
    case Percent => ['%' as byte, '%' as byte]
    case Conversion(padding, m, k) => ['%' as byte] + padding + Spelling(m) + [KindSpelling(k)]
  }

  /** The number of bytes of the integer type that modifier m selects. */
  function Width(m: Modifier): nat {
    match m
    case HH => 1
    case H => 2
    case Plain => 4
    case _ => 8
  }

  /** The argument type of a directive, by its meaning in C, as a letter. */
  function TypeOf(x: Directive): string
    requires WellFormed(x)
  {
    match x
    case Literal(_) => ""
    case Percent => ""
    case Conversion(_, m, k) => [KindLetter(k, Width(m), m == L, m == BigL)]
  }

  function RenderAll(xs: seq<Directive>): seq<byte>
    requires forall i :: 0 <= i < |xs| ==> WellFormed(xs[i])
  {
    if xs == [] then [] else Render(xs[0]) + RenderAll(xs[1..])
  }

  function TypeOfAll(xs: seq<Directive>): string
    requires forall i :: 0 <= i < |xs| ==> WellFormed(xs[i])
  {
    if xs == [] then "" else TypeOf(xs[0]) + TypeOfAll(xs[1..])
  }

  lemma {:induction false} LiteralSkipped(text: seq<byte>)
    requires forall i :: 0 <= i < |text| ==> text[i] != '%' as byte
    ensures Parse(text) == "" && !After(START, text).format
  {
    if text == [] {
    } else {
      LiteralSkipped(text[1..]);
      assert Step(START, text[0] as char) == START;
    }
  }

  lemma {:induction false} PaddingSkipped(s: State, padding: seq<byte>)
    requires s.format && forall i :: 0 <= i < |padding| ==> IsPadding(padding[i])
    ensures Types(s, padding) == "" && After(s, padding) == s
    decreases padding
  {
    if padding == [] {
    } else {
      assert Step(s, padding[0] as char) == s;
      PaddingSkipped(s, padding[1..]);
    }
  }

  function Counted(m: Modifier): State {
    match m
    case Plain => State(true, 0, 0)
    case HH => State(true, 0, 2)
    case H => State(true, 0, 1)
    case L => State(true, 1, 0)
    case _ => State(true, 2, 0)
  }

  lemma ModifierCounted(m: Modifier)
    ensures Types(State(true, 0, 0), Spelling(m)) == "" && After(State(true, 0, 0), Spelling(m)) == Counted(m)
  {
    hide Types, After;
    var s := State(true, 0, 0);
    match m
    case Plain => NoCharacters(s, []);
    case HH => Two(s, 'h' as byte, 'h' as byte);
    case LL => Two(s, 'l' as byte, 'l' as byte);
    case _ => assert Spelling(m) == [Spelling(m)[0]]; One(s, Spelling(m)[0]);
  }

  lemma LetterByMeaning(m: Modifier, k: Kind)
    requires ModifierAllowed(m, k)
    ensures var s := Counted(m);
      KindLetter(k, CountedWidth(s.h, s.l), s.l == 1, s.l == 2) == KindLetter(k, Width(m), m == L, m == BigL)
  {}

  lemma DirectiveParsed(x: Directive)
    requires WellFormed(x)
    ensures Parse(Render(x)) == TypeOf(x) && !After(START, Render(x)).format
  {
    match x
    case Literal(text) => LiteralSkipped(text);
    case Percent => Two(START, '%' as byte, '%' as byte);
    case Conversion(padding, m, k) => ConversionParsed(padding, m, k);
  }

  lemma ConversionParsed(padding: seq<byte>, m: Modifier, k: Kind)
    requires WellFormed(Conversion(padding, m, k))
    ensures var fmt := Render(Conversion(padding, m, k));
      Parse(fmt) == TypeOf(Conversion(padding, m, k)) && !After(START, fmt).format
  {
    hide Types, After, Letter, Spelling, IsPadding, ModifierAllowed, KindLetter;
    var s := State(true, 0, 0);
    One(START, '%' as byte);
    Concatenated(START, ['%' as byte], padding);
    PaddingSkipped(s, padding);
    Concatenated(START, ['%' as byte] + padding, Spelling(m));
    ModifierCounted(m);
    Concatenated(START, ['%' as byte] + padding + Spelling(m), [KindSpelling(k)]);
    One(Counted(m), KindSpelling(k));
    LetterOfKind(k, Counted(m));
    LetterByMeaning(m, k);
  }

  /** Parsing the text of any list of directives gives exactly the argument types of
      the list. */
  lemma {:induction false} GrammarParsed(xs: seq<Directive>)
    requires forall i :: 0 <= i < |xs| ==> WellFormed(xs[i])
    ensures Parse(RenderAll(xs)) == TypeOfAll(xs) && !After(START, RenderAll(xs)).format
  {
    if xs == [] {
    } else {
      DirectiveParsed(xs[0]);
      GrammarParsed(xs[1..]);
      ParseConcatenated(Render(xs[0]), RenderAll(xs[1..]));
    }
  }
}
