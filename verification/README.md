# libtvnet in Dafny

A model of three parts of libtvnet and proofs about them.

* **The pickle codec.** `Wire` is the format byte by byte, `Length` the sizing pass,
  `Encoder` the writers over a preallocated buffer, `Decoder` the bounds-checked
  tokenizer, `Codepoints` its table of control bytes, `Tokens` what one token promises. `Values` defines Python value trees with
  their bytes and their reader; `Trees` and `Framing` prove the laws of whole trees and
  messages, `Bounds` what holds on arbitrary bytes, `Repickling` that what they give can
  be pickled again, `Truncation` and `Dictionaries` what becomes of cut-off ones; `PyCodec` is the extension's code. `Stdarg` is the codec driven by type letters.
* **The printf pipeline.** `FmtParser` is the format state machine and its grammar,
  `PicklePrint` pickles a format with its arguments and reads both back, `Arguments` says
  what each token becomes as a field or an argument, `Log` is the log
  record from `tvnl_vmessage` to the daemon.
* **The cluster id generator.** `Cuid` runs any number of threads, one atomic step at a
  time, under any clock, and also as methods over one shared object. `CuidRuns`,
  `CuidWrap` and `CuidLimits` say exactly how far its promises reach.

`Words` (bytes, two's complement, big-endian), `Floats`, `Rounding` and `Conversions`
(binary32 and binary64 as in section 3.4 of IEEE 754-2008), `Buffers` and `Options` carry the rest.

Code that changes things in place is written as methods over `Buffers.Buffer`, an array
or `Cuid.SharedState`. Each is proved equal to a specification function on sequences
(`Decoder.TokenAt`, `Values.DecodeValue`, `Stdarg.EncodeArgs`, `Cuid.Execute`, ...), and
the laws are lemmas about those functions.

## Reading the statements

* `Wrote(b, s)`: the buffer got exactly the bytes `s` at its cursor, the cursor moved
  behind them, and every other byte is as before.
* `Holds(d, at, s)`: the bytes `s` stand at position `at` of `d`, whatever surrounds them.
* `Everywhere(p, v)`: `p` holds at every node of the tree `v`. `Known`: a supported object
  whose float, if integral, an int64 can hold (outside of that the conversion in the
  encoder is undefined). `Fits`: a size below 2^32.
* `unset` is the uninitialized size that the tokenizer uses once more after a cut-off
  string length. It is a parameter, so every statement holds for all of its values.
* `InBudget`: the largest start value or candidate of a run plus one time step for every
  fallback add is below 2^63 (`Cuid.BudgetOfSchedule`).
* A finite float is counted in units of 2^-1074 (`Floats.Units`), exactly.

## Main results

* Reading undoes writing, for trees (`Trees.RoundTripExactly`), messages
  (`Framing.SplitExactly`), typed arguments (`Stdarg.ArgsRoundTripExactly`), formats with
  arguments (`PicklePrint.PipelineExactly`) and log records (`Log.HandOverExactly`), and
  writing again undoes reading (`Repickling.Repickled`).
* The sizing pass and the writer agree (`Framing.Measured`, `Stdarg.ArgsMeasured`,
  `PicklePrint.PickledMeasured`, `Log.RecordMeasured`).
* Which objects are accepted depends on their normal form (`Values.RefusedByNormal`).
* What arbitrary and cut-off bytes give: `Codepoints.NumberCodes`,
  `Codepoints.CountedCodes`, `Tokens.RunExactly`, `Stdarg.DecodesExactly`,
  `PicklePrint.UnpickledExactly`, `Bounds.NestBound`, `Truncation.CutMessageReported`,
  `Dictionaries.CutMessageDefined`.
* The form is the shortest (`Compact.ShortestExactly`, `Bounds.ShortestTreeExactly`) and
  loses nothing (`Floats.FitsFloatExactly`); what is converted on reading is the nearest
  float, the truncated integer, or congruent (`Arguments.StoredFloat`,
  `Arguments.StoredReal`, `Arguments.BuiltReal`, `Conversions.FromIntegerNearest`).
* The parser gives the types C has for its grammar (`FmtParser.GrammarParsed`) and is
  known on every format (`FmtParser.AnyFormatParsed`).
* Ids are unique, ordered and carry their node (`Cuid.Invariant`, `Cuid.ClusterUnique`,
  `Cuid.NodeBitsExactly`, `CuidLimits.UniqueExactly`, `CuidLimits.OrderExactly`).

## What turned out not to hold

| expectation | where it fails | exact condition |
|---|---|---|
| the two passes agree on every size | a string of 2^32 bytes, sent as the empty one (`Framing.FourGigabytes`); a long double, measured but not written (`Stdarg.LongDoubleUnwritten`) | `Framing.Measured`, `Stdarg.ArgsMeasured`, `PicklePrint.PickledMeasured`, `Log.RecordMeasured` |
| every tree is read back | that string (`Framing.FourGigabytes`) | `Trees.RoundTripExactly`, `Framing.SplitExactly` |
| a number travels in its shortest lossless form | 2^32 (`Compact.TwoTo32`) | `Compact.ShortestExactly` |
| no bytes for the same tree are shorter | a NaN that binary32 can hold, sent in 9 bytes (`Bounds.NarrowNaNBytes`) and read from 5 too (`Bounds.NarrowNaNRead`) | `Bounds.ShortestTreeExactly` |
| a cut-off message is noticed | `[1, 2]` cut between its items reads as a list with an end pointer, the arguments `1, 2` as `1` (`Truncation.CutBetweenItems`); a NUL behind a text is not missed | `Truncation.CutReported`, `Truncation.CutMessageReported`; read as the whole tree: `Truncation.CutUnnoticed` |
| what is not noticed is at least defined | a dictionary cut in front of a value (`Dictionaries.CutDictionary`) | `Dictionaries.CutDefined`, `Dictionaries.CutMessageDefined` |
| what was read can be pickled again | a float token of 2^63 (`Repickling.ReadTwoTo63`), an end pointer | `Repickling.Repickled` |
| every finite double can be sent | 2^63 (`Compact.TwoTo63`): an integral double outside int64, whose conversion in the encoder is undefined (tvnet/pickle_encoder.h:62-63) | `Compact.IntegerFormExactly` |
| every argument comes back | the negative zero (`PicklePrint.NegativeZero`), an integer wider than its letter (`Stdarg.WideByte`), a double that the letter f makes zero (`Stdarg.SmallDouble`) | `PicklePrint.PipelineExactly`, `Stdarg.ArgsRoundTripExactly`, `Log.HandOverExactly` |
| the reader's cells hold the type letters | `"%i"` (`FmtParser.CellsOfTheReaderShort`) | `FmtParser.CellsOfTheReader` |
| every cluster id carries its node | a clock before the epoch (`Cuid.NegativeClock`) | `Cuid.NodeBitsExactly` |
| the ids of different machines differ | clocks before the epoch | `CuidLimits.ApartExactly` |
| the ids of one machine differ and are ordered | the clock at its largest reading and one add, which wraps around (`CuidLimits.EqualIds`) | `CuidLimits.UniqueExactly`, `CuidLimits.OrderExactly` |

Where text and code of the repository disagree the model follows the code: the control
byte of a 32-bit integer is 0x44 (README:37 prints the bits of 0x40), inline integers
stop at -58 (README:35 says 16 values are missing), and `o` counts as a signed
conversion (tvnet/fmt_parser.c:86).

## Model

| member | source | states |
|---|---|---|
| Length.Integer | tvnet/pickle_length.h:24-41 | the measured size is the number of bytes of the first form, from inline to 64 bits, that holds the integer |
| Length.Real | tvnet/pickle_length.h:43-59 | the measured size is that of the narrowest lossless form of the double |
| Length.CompoundMeasured | tvnet/pickle_length.h:66-77 | a header is never measured short, and right exactly for counts below 2^32 or whose 32 kept bits still need the widest form |
| Length.StringMeasured | tvnet/pickle_length.h:79-93 | a string is never measured short, and right exactly below 2^32 |
| Encoder.EncodeInteger | tvnet/pickle_encoder.h:38-55 | writes the shortest fitting form at the cursor and nothing else |
| Encoder.EncodeReal | tvnet/pickle_encoder.h:57-73 | writes an integral double as an integer, another as float if that loses nothing, else as double |
| Encoder.EncodeNull | tvnet/pickle_encoder.h:75-78 | writes the null byte at the cursor and nothing else |
| Encoder.EncodeCompound | tvnet/pickle_encoder.h:80-91 | writes tag and count in the shortest header at the cursor and nothing else |
| Encoder.EncodeString | tvnet/pickle_encoder.h:93-99 | writes header and string at the cursor and nothing else |
| Encoder.EncodeUtf8String | tvnet/pickle_encoder.h:101-111 | the same, and the NUL behind a text |
| Encoder.EncodeBinaryString | tvnet/pickle_encoder.h:113-116 | the same for bytes, without a NUL |
| Encoder.EncodeList | tvnet/pickle_encoder.h:118-121 | writes the list header with the count cut to 32 bits |
| Encoder.EncodeDictionary | tvnet/pickle_encoder.h:123-126 | writes the dictionary header with the count cut to 32 bits |
| Decoder.DecodeNumber | tvnet/pickle_decoder.h:73-102 | token and cursor are those of the format, an error when the field passes the end |
| Decoder.DecodeCount | tvnet/pickle_decoder.h:104-124 | the count and the cursor behind it, or that the field is cut off |
| Decoder.DecodeString | tvnet/pickle_decoder.h:141-154 | a string inside the bounds, with its NUL skipped unchecked, or an error, also for an unset size |
| Decoder.DecodeToken | tvnet/pickle_decoder.h:126-164 | one token and the cursor behind it; past the end the end token |
| Tokens.IntegerRead | tvnet/pickle_encoder.h:38-55 | what the integer writer produces is read back as that integer, for every int64 and whatever follows |
| Tokens.DoubleRead | tvnet/pickle_encoder.h:57-73 | a double is read back as its integer if integral, else bit by bit |
| Tokens.NarrowingKeepsNumber | tvnet/pickle_encoder.h:57-73 | a finite double is read back as the same number, and takes the 4-byte form exactly when it is not integral and some binary32 value is the same number |
| Tokens.NullRead | tvnet/pickle_decoder.h:77-80 | the null byte is read back as null |
| Tokens.ListRead | tvnet/pickle_decoder.h:104-157 | a list header is read back with its count |
| Tokens.DictionaryRead | tvnet/pickle_decoder.h:158-160 | a dictionary header is read back with its count |
| Tokens.Utf8Read | tvnet/pickle_decoder.h:141-147 | a text is read back as the place of its bytes, with the NUL behind them, and the cursor behind that |
| Tokens.BinaryRead | tvnet/pickle_decoder.h:148-154 | a byte string is read back as the place of its bytes |
| Tokens.TokenBounds | tvnet/pickle_decoder.h:49-71 | end exactly past the end; anything else moves on by at least one byte and at most one past the end, and only a text does that; string data lies inside; a cut-off size is an error |
| Tokens.ErrorExactly | tvnet/pickle_decoder.h:49-71 | an error exactly when the field of the control byte or the body of a string does not end inside the bytes; a missing NUL is none |
| Tokens.Run | tvnet/pickle_decoder.h:126-164 | on arbitrary bytes a run has at most as many tokens as bytes, with increasing cursors and all data in bounds |
| Tokens.RunExactly | tvnet/pickle_decoder.h:126-164 | it is all the tokens from place to place, up to the end or a cut-off size |
| Tokens.ShortestForm | tvnet/pickle_decoder.h:73-164 | no bytes that give the same integer, count or string are fewer than those of the writer |
| Tokens.HoldsAnywhere | tvnet/pickle_decoder.h:126-164 | whatever stands around it, a form can be at any place |
| Codepoints.UnsignedIsValue | tvnet/pickle_decoder.h:56-71 | fields have their most significant byte first |
| Codepoints.NumberCodes | README:35-41 | what each control byte below 0x80 is on arbitrary bytes: the 7-bit integers, the fields with their values, null, and an error for a field that is cut off |
| Codepoints.CountedCodes | README:43-61 | the same for strings, lists and dictionaries: count, place of the body, cursor behind it, and every error with the cursor it leaves |
| Codepoints.CountWidths | README:43-61 | 0x1d, 0x1e and 0x1f in the low five bits announce counts of 8, 16 and 32 bits |
| Codepoints.AnyDoubleRead | tvnet/pickle_decoder.h:81-83 | every double behind 0x41 is read bit by bit, also one the writer sends in another form |
| Codepoints.AnyFloatRead | tvnet/pickle_decoder.h:84-86 | every float behind 0x42 is read as its widened value |
| Floats.FitsFloatExactly | tvnet/pickle_encoder.h:66-67 | the test `(double)y == x` succeeds exactly when a finite binary32 value is the same number; narrowing finds it and widening gives all bits back |
| Floats.WholeExact | tvnet/pickle_encoder.h:62-63 | an integral double converted to an integer and back is the same number, also through float |
| Floats.WidenExact | tvnet/pickle_decoder.h:84-86 | every finite binary32 value is widened to the same number |
| Rounding.RoundNearest | tvnet/pickle_encoder.h:59 | the conversion to float is to nearest, ties to even: no pattern is closer |
| Rounding.RoundOverflow | tvnet/pickle_encoder.h:59 | it overflows to infinity exactly from half a place beyond the largest finite pattern on |
| Conversions.NarrowNearest | tvnet/pickle_encoder.h:59 | narrowing any finite double keeps the sign and gives the nearest float, ties to even, or infinity exactly from half a place beyond the largest float on |
| Conversions.SpecialsStay | tvnet/pickle_decoder.h:84-86 | infinities and NaNs stay what they are both ways |
| Conversions.FromIntegerNearest | tvnet/pickle_stdarg_decoder.c:119-134 | an int64 becomes the nearest float and the nearest double, ties to even |
| Conversions.WholeTruncates | tvnet/pickle_stdarg_decoder.c:55-118 | a double becomes the one integer that is it without its fraction |
| Conversions.IntegralExactly | tvnet/pickle_encoder.h:62 | `floor(x) == x` holds exactly when some integer is the same number, or for an infinity |
| Conversions.ConvertibleExactly | tvnet/pickle_encoder.h:62-63 | the conversion to int64 is asked of integral doubles only, and is defined exactly when some int64 is the number |
| Compact.ShortestExactly | README:29-33 | a finite double takes the shortest form that says the same number, except exactly the binary32-exact integers beyond 32 bits |
| Compact.TwoTo32 | README:29-33 | 2^32 is such an exception |
| Compact.IntegerFormExactly | tvnet/pickle_encoder.h:62-63 | some int64 says the same number as an integral double exactly when its conversion is defined |
| Compact.TwoTo63 | tvnet/pickle_encoder.h:62-63 | for 2^63 it is not |
| PyCodec.LengthRecurse | pyext/tvnetmodule.c:13-98 | -1 exactly for a tree with an object no type test accepts, else the measure of the tree |
| Values.RefusedByKind | pyext/tvnetmodule.c:13-98 | kind by kind, which objects are accepted |
| Values.RefusedByNormal | pyext/tvnetmodule.c:13-98 | a tree is accepted exactly when its normal form is |
| Values.SupportedEverywhere | pyext/tvnetmodule.c:13-98 | it is accepted exactly when every node is of a supported kind |
| PyCodec.EncodeRecurse | pyext/tvnetmodule.c:100-167 | writes exactly the bytes of the tree at the cursor and leaves all others |
| PyCodec.DecodeRecurse | pyext/tvnetmodule.c:169-224 | terminates on all bytes with the tree, end or error of the format and the cursor behind it, with no more calls open at once than `Bounds.Nest` says |
| PyCodec.LengthTuple | pyext/tvnetmodule.c:227-248 | the sum of the measures, -1 for an unsupported argument |
| PyCodec.EncodeTuple | pyext/tvnetmodule.c:250-259 | writes the concatenation of the arguments and leaves all other bytes |
| PyCodec.DecodeTuple | pyext/tvnetmodule.c:261-278 | all trees up to the end, nothing after an error |
| PyCodec.PyEncode | pyext/tvnetmodule.c:293-312 | refuses exactly arguments with an object no type test accepts; the allocation is never overrun, and is exactly filled exactly when the sizes agree at every node |
| PyCodec.PyDecode | pyext/tvnetmodule.c:314-346 | the trees of the message, a single one by itself, others as a tuple; the bytes of any arguments whose sizes fit give the normal form of the one argument, or the tuple of their normal forms |
| Framing.Measured | pyext/tvnetmodule.c:13-167 | a tree never needs more than measured, and exactly that exactly when the sizes agree at every node |
| Trees.RoundTrip | pyext/tvnetmodule.c:100-224 | a tree at any offset is read back as its normal form with the cursor right behind it, whatever follows |
| Trees.RoundTripExactly | pyext/tvnetmodule.c:100-224 | that happens exactly when every size in the tree is below 2^32 |
| Framing.EncodeNormal | pyext/tvnetmodule.c:100-167 | the normal form has the same bytes as the tree |
| Framing.NormalByKind | pyext/tvnetmodule.c:169-224 | kind by kind, what an object is read back as |
| Framing.KindOnTheWire | pyext/tvnetmodule.c:100-167 | the first byte tells the kind; byte arrays, sets and integral floats are sent as byte strings, lists and integers |
| Framing.PrefixFree | pyext/tvnetmodule.c:100-224 | when one encoding begins another, both trees have the same normal form and the same bytes |
| Framing.SameBytesSameTree | pyext/tvnetmodule.c:100-224 | same bytes exactly for the same normal form |
| Framing.Split | pyext/tvnetmodule.c:250-278 | every concatenation is split into its parts and the end is met at its end |
| Framing.SplitExactly | pyext/tvnetmodule.c:250-278 | that happens exactly when all sizes are below 2^32 |
| Framing.Restored | pyext/tvnetmodule.c:293-346 | the bytes of an argument tuple are as many as measured and are read back as the normal forms |
| Framing.FourGigabytes | tvnet/pickle_encoder.h:93-116 | a byte string of 2^32 bytes is measured in full, but written and read back as the empty one |
| Bounds.ShortestTree | pyext/tvnetmodule.c:100-224 | bytes read back as the same tree are never fewer than the tight bytes of the tree, which spend 5 on a NaN that binary32 can hold |
| Bounds.TightRead | pyext/tvnetmodule.c:169-224 | the tight bytes are read back as the tree, at any place |
| Bounds.ShortestTreeExactly | pyext/tvnetmodule.c:100-224 | the writer's bytes are the shortest that are read back as the tree exactly when no number in it is such a NaN |
| Bounds.DepthBound | pyext/tvnetmodule.c:169-224 | the tree read from arbitrary bytes is no deeper than the bytes consumed |
| Bounds.DepthAtLeast | pyext/tvnetmodule.c:169-224 | a list is deeper than each of its items |
| Bounds.DepthOfPairsAtLeast | pyext/tvnetmodule.c:169-224 | a dictionary is deeper than each of its keys and values |
| Bounds.NestBound | pyext/tvnetmodule.c:169-224 | on arbitrary bytes, also those that end in an error, the calls of the reader nest at most one deeper than there are bytes left |
| Bounds.NestReached | pyext/tvnetmodule.c:198-203 | bytes that all open a list of one item reach that bound |
| Truncation.CutReported | pyext/tvnetmodule.c:169-224 | a tree cut off anywhere is an error exactly when the cut tears a header, a number or a string body; else it reads as the tree with end pointers for all that is behind the cut |
| Truncation.CutMessageReported | pyext/tvnetmodule.c:261-278 | the same for a message, which loses the arguments behind the cut |
| Truncation.CutUnnoticed | tvnet/pickle_decoder.h:141-147 | a cut-off encoding is read as the whole tree exactly when only the NUL of a final text is missing |
| Truncation.CutBetweenItems | pyext/tvnetmodule.c:198-203 | a list of two cut between its items, and a message of two arguments cut between them, are read without an error |
| Dictionaries.CutDefined | pyext/tvnetmodule.c:204-218 | no end pointer becomes a key or value of a dictionary exactly when the cut leaves no pair of a dictionary incomplete |
| Dictionaries.CutMessageDefined | pyext/tvnetmodule.c:204-218 | the same for messages |
| Dictionaries.CutDictionary | pyext/tvnetmodule.c:204-218 | the dictionary of 1 to 2 cut in front of the 2 is such a cut |
| Repickling.ReadPlain | pyext/tvnetmodule.c:169-224 | whatever is read from arbitrary bytes has sizes below 2^32 and only objects the writer knows or end pointers |
| Repickling.Repickled | pyext/tvnetmodule.c:100-224 | pickled again it is read back with integral floats as integers, and the same exactly if it has none |
| Repickling.NotLonger | pyext/tvnetmodule.c:100-224 | and then takes no more bytes than it was read from, up to NaNs that binary32 can hold |
| Repickling.AnyFloatRead | pyext/tvnetmodule.c:189-190 | every number in a float form is read as a float |
| Repickling.ReadTwoTo63 | tvnet/pickle_decoder.h:81-83 | 2^63 is read but cannot be pickled again |
| Stdarg.VLength | tvnet/pickle_stdarg_encoder.c:46-75 | the sum of the measured arguments, -1 at an unknown letter |
| Stdarg.VEncode | tvnet/pickle_stdarg_encoder.c:77-104 | writes the arguments up to an unknown letter and reports whether there was one |
| Stdarg.VDecode | tvnet/pickle_stdarg_decoder.c:34-148 | stores one field per letter up to the first token of a wrong type |
| Stdarg.Accepted | tvnet/pickle_stdarg_encoder.c:46-104 | measuring knows exactly one letter more than writing, G |
| Stdarg.WrittenUpTo | tvnet/pickle_stdarg_encoder.c:77-104 | what is written are the arguments in front of the first unknown letter |
| Arguments.LettersExactly | tvnet/pickle_stdarg_encoder.c:46-104 | which letters there are |
| Arguments.AllPassed | tvnet/pickle_stdarg_encoder.c:46-104 | every value of its C type can be passed for a letter |
| Stdarg.ArgsMeasured | tvnet/pickle_stdarg_encoder.c:46-104 | never measured short, and right exactly without G and with string sizes below 2^32 |
| Stdarg.ArgsRoundTrip | tvnet/pickle_stdarg_decoder.c:34-148 | encoding then decoding with the same letters succeeds, consumes exactly what was written, and stores every argument at the width of its letter |
| Stdarg.ArgsRoundTripExactly | tvnet/pickle_stdarg_decoder.c:34-148 | all fields are filled, and they hold the same arguments exactly when integers are in range, no number is -0, the doubles for the letter f survive the conversion to float and back, and strings fit |
| Stdarg.KeptNumber | tvnet/pickle_stdarg_decoder.c:119-125 | for a number that is the test `(double)(float)x == x` |
| Stdarg.SmallDouble | tvnet/pickle_stdarg_decoder.c:119-125 | the smallest positive double passed for f arrives as zero |
| Stdarg.WideByte | tvnet/pickle_stdarg_decoder.c:54-60 | 200 passed for a byte arrives as -56 |
| Stdarg.LongDoubleUnwritten | tvnet/pickle_stdarg_encoder.c:46-104 | a long double is measured but not written |
| Stdarg.DecodesExactly | tvnet/pickle_stdarg_decoder.c:34-148 | on arbitrary bytes decoding succeeds exactly if every letter takes the token at its place; else it ends behind the first that is not taken, with the fields before it stored |
| Arguments.StoredInteger | tvnet/pickle_stdarg_decoder.c:55-118 | an integer is stored congruent to itself in the range of its letter |
| Arguments.StoredReal | tvnet/pickle_stdarg_decoder.c:55-118 | of a number the fraction is dropped; the rest is stored as it is if in range |
| Arguments.StoredFloat | tvnet/pickle_stdarg_decoder.c:119-125 | the letter f stores the nearest float, infinity beyond all floats, a NaN for a NaN |
| Arguments.StoredFromInteger | tvnet/pickle_stdarg_decoder.c:119-134 | an integer is stored as the nearest float or double |
| Arguments.StoredDouble | tvnet/pickle_stdarg_decoder.c:127-133 | the letter F stores a double bit by bit |
| Arguments.StoredText | tvnet/pickle_stdarg_decoder.c:135-141 | the letter s stores the string at the place of the text's body |
| Arguments.CStringExactly | tvnet/pickle_stdarg_decoder.c:135-141 | the string a stored pointer points at ends at the first NUL, or with the bytes |
| Arguments.StoredOnly | tvnet/pickle_stdarg_decoder.c:54-145 | letter by letter, which tokens are stored at all |
| Stdarg.StoredAlike | tvnet/pickle_stdarg_decoder.c:55-134 | an integral number is stored alike from an integer and from a float token |
| FmtParser.FmtParse | tvnet/fmt_parser.c:68-111 | fills the cells with exactly the type letters and a NUL and leaves the cells behind |
| FmtParser.ParseConcatenated | tvnet/fmt_parser.c:68-111 | parsing distributes over concatenation at directive boundaries |
| FmtParser.AnyFormatParsed | tvnet/fmt_parser.c:68-111 | every format is text, escapes and conversions with any characters between, and its letters are given by the conversion, the count of h and the length modifiers |
| FmtParser.GrammarParsed | tvnet/fmt_parser.c:19-111 | the text of any list of directives, conversions and modifiers as C has them, gives exactly the list's argument types |
| FmtParser.PercentsConserved | tvnet/fmt_parser.c:75-109 | percent signs read are letters emitted, twice the escapes, and one for an open directive |
| FmtParser.CellsSuffice | tvnet/log.c:27 | one cell more than percent signs holds letters and terminator |
| FmtParser.CellsOfTheReader | tvnet/pickle_print.c:93 | as many cells as percent signs suffice exactly with an escape or an unfinished directive |
| FmtParser.CellsOfTheReaderShort | tvnet/pickle_print.c:93 | for a plain conversion they do not |
| PicklePrint.VPprintfLen | tvnet/pickle_print.c:26-34 | the size of the format and the arguments |
| PicklePrint.VPprintf | tvnet/pickle_print.c:36-40 | writes exactly format and arguments at the cursor |
| PicklePrint.VApprintf | tvnet/pickle_print.c:42-61 | a fresh buffer of the measured size that begins with the pickle |
| PicklePrint.PickledMeasured | tvnet/pickle_print.c:42-61 | never too small, and exactly filled exactly without a long double and with sizes below 2^32 |
| PicklePrint.ReadPickle | tvnet/pickle_print.c:74-162 | format and arguments read from arbitrary bytes, NULL for a token of a wrong type |
| PicklePrint.PipelineIdentity | tvnet/pickle_print.c:42-162 | reading a pickle gives the same format and the arguments in order and ends right behind it |
| PicklePrint.PipelineExactly | tvnet/pickle_print.c:42-162 | format and arguments are unchanged exactly when the format is below 2^32 bytes, no number is -0 and strings fit |
| PicklePrint.NegativeZero | tvnet/pickle_print.c:42-162 | -0 comes back as +0 |
| PicklePrint.UnpickledExactly | tvnet/pickle_print.c:74-162 | arbitrary bytes give a message exactly if a text comes first and every letter of that format takes the token at its place; else reading ends behind the first token that is not taken |
| Arguments.BuiltInteger | tvnet/pickle_print.c:100-131 | an integer becomes the argument congruent to it in the promoted type of its letter |
| Arguments.BuiltReal | tvnet/pickle_print.c:100-131 | of a number the fraction is dropped; the rest is passed as it is if in range |
| Arguments.BuiltDouble | tvnet/pickle_print.c:132-147 | a double is passed as it is, an integer as the nearest double |
| Arguments.BuiltText | tvnet/pickle_print.c:148-155 | a text or a byte string is passed up to its NUL, a null as "(NULL)" |
| Arguments.BuiltOnly | tvnet/pickle_print.c:100-159 | letter by letter, which tokens become arguments at all |
| Arguments.BytesArgument | tvnet/pickle_print.c:148-155 | "%s" with a byte string gives that string |
| PicklePrint.BuiltAlike | tvnet/pickle_print.c:100-147 | an integral number is taken alike from an integer and from a float token |
| Log.VMessage | tvnet/log.c:22-76 | without a packet nothing; else a packet of the measured size, exactly filled exactly without a long double and with sizes below 2^32 |
| Log.RecordMeasured | tvnet/log.c:37-72 | the record never needs more than measured, and when it needs exactly that |
| Log.RecordBytes | tvnet/log.c:60-72 | a record is the byte 0, the header fields in their order, the format and the arguments |
| Log.TypeDecides | tvlogd/loop.c:152-159 | the low 32 bits of the type, or of the stale one, decide whether there is a message |
| Log.Iteration | tvlogd/loop.c:111-155 | header fields and message of a packet, the message only for the known type |
| Log.HandOver | tvlogd/loop.c:111-155 | the daemon recovers all nine header fields, the format and the arguments, and ends at the end of the record |
| Log.HandOverExactly | tvlogd/loop.c:111-155 | header, format and arguments come out unchanged exactly when the sizes of header and format fit and every argument is one that the pipeline leaves unchanged |
| Cuid.DriftBound | tvnet/cuid.h:39-54 | at every reachable state the shared word is at most the largest candidate plus a time step per fallback add |
| Cuid.BudgetOfSchedule | tvnet/cuid.h:45-54 | the budget of a run is the largest start value or candidate plus a time step per fallback add of its schedule |
| Cuid.Undisturbed | tvnet/cuid.h:45-51 | a call without interference stores the clock's id if it is new and returns it, and otherwise reaches the fallback with the word untouched |
| Cuid.Invariant | tvnet/cuid.h:47-54 | in every run each result is the value its call stored; while nothing wraps around stores strictly increase |
| Cuid.Unique | tvnet/cuid.h:37-55 | no two calls return the same id, in any interleaving within the budget |
| Cuid.RealTimeOrder | tvnet/cuid.h:37-55 | within the budget a call that returned before another began got the smaller id |
| Cuid.NodeBitsKept | tvnet/cuid.h:45-54 | every id carries the node bits when the word starts with them, or at zero under clocks that are not negative, also when an add wraps around |
| Cuid.NodeBitsExactly | tvnet/cuid.h:45-54 | from zero, all ids of all runs carry the node exactly when the clock cannot be negative or the node is zero |
| Cuid.NegativeClock | tvnet/cuid.h:45-54 | a run with a clock before the epoch whose id lacks the node |
| Cuid.ClusterUnique | README:8-10 | under clocks that are not negative the ids of different machines always differ, and those of one machine within its budget |
| CuidWrap.RoundKept | tvnet/cuid.h:45-54 | from a start value ahead of every clock only adds store until the word wraps around; after that stores increase anew, within bounds |
| CuidLimits.UniqueExactly | tvnet/cuid.h:37-55 | for every start value, largest clock reading and number of adds, whether all runs have distinct ids: if the clock's largest id is ahead of the start value, exactly while that id plus a time step for every add is below 2^63; else exactly up to the adds that lead around the word and back to an id |
| CuidLimits.OrderExactly | tvnet/cuid.h:37-55 | likewise for the real-time order of the ids, which ends with the first add that wraps around, unless no id was returned before it |
| CuidLimits.EqualIds | tvnet/cuid.h:37-55 | a run with a single add that returns the same id twice |
| CuidLimits.ApartExactly | README:8-10 | the ids of two machines differ in all runs exactly when their clocks cannot be negative |
| Cuid.WaitFree | README:12-14 | a call that has not ended has taken at most five steps of its own, however many others take |
| Cuid.AlwaysAStep | README:12-14 | a thread in a call can always step, and only its own steps change its place |
| Cuid.FreeToMove | tvnet/cuid.h:37-55 | what a thread can do depends on its own place only, and outside of a call it can begin one |
| Cuid.SharedState.CompareAndSwap | tvnet/cuid.h:49 | stores exactly if the word is as expected |
| Cuid.SharedState.AddRead | tvnet/cuid.h:54 | adds with wrap-around and returns the new value |
| Cuid.SharedState.Next | tvnet/cuid.h:37-55 | without interference the clock's id if it is new, else the next time step |
| Cuid.Interleave | tvnet/cuid.h:37-55 | threads run over the shared word give the ids of the model, pairwise distinct within the budget |

## Left out

- Tokens.DoubleRead: for `Convertible` doubles only, since C leaves the conversion of the others undefined.
- PicklePrint.PipelineExactly: without the letter G, for which the writer has no case.
- PicklePrint.PipelineIdentity: likewise, and for formats below 2^32 bytes; of longer ones only what the cut size leaves is read (`PicklePrint.FormatCut`).
- PicklePrint.ReadPickle: provides one cell more for the letters than the code does; `FmtParser.CellsOfTheReader` says when the code's own cells suffice.
- Stdarg.VDecode: a float token too large for an integer field is undefined in C; the model wraps it around.
- tvutils (ring buffer, clock, atomics, byte order): not part of the repository; assumed primitives with their plain meaning. The ring buffer is an answer, the clock a parameter.
- Truncation.CutReported: of a dictionary cut between or inside its pairs it describes the reader's loop only; PyDict_SetItem is undefined for the end pointers it then gets (pyext/tvnetmodule.c:213), which `Dictionaries.CutDefined` shows to be the case exactly if a pair is left incomplete.
- Truncation.CutMessageReported: likewise, with `Dictionaries.CutMessageDefined`.
- A dictionary is an ordered list of pairs: equal or unhashable keys, which Python merges or refuses when reading, are not modelled.
- Unicode objects stand for their UTF-8 bytes; reading does not refuse ill-formed UTF-8.
- Reading past `size` for the terminator of a C string without one; the model's strings stop there.
- Failing allocations, reference counts and exceptions of the Python API.
- Long doubles are given by the double they convert to; signalling NaNs are not made quiet.
- The text the `vprintf` family makes of format and arguments, and the daemon's severity names and log lines.
- int of 4, long and long long of 8 bytes are assumed; the conversions a, g, p, n and `*` are skipped by the parser and stay outside the grammar, as does `ls`.
- Shared-memory attach, TIPC node lookup, sockets, option parsing: system calls.
