# SwampSat II telemetry decoder, modelled in Dafny

This project models the decoding engine of the SwampSat II ground-station
library (`lib/swampsat2.py`):

- **Input cleaning.** `ParseDownlink._cleaninput` and `_validatehex` lower-case
  a downlinked hex string, strip whitespace and the delimiter, and validate
  it. They then cut it into two-character byte tokens.
- **Byte cursor.** `ParseDownlink._parsebinary` reads little-endian values
  off the front of the token list and pops them in place. A value is
  unsigned, two's-complement signed, a bit list, or an IEEE 754
  single/double.
- **Schema decoders.** `_eps`, `_battery`, `_vutrx` (with its `getkbits8`),
  `_stx` and `_ants` each turn a section of the beacon into an ordered
  dictionary of named readings.
- **Dispatcher.** `ParseDownlink._parse` recognises the acknowledgement
  message. It cuts a flight-mode 1 (163 tokens) or flight-mode 2 (185 tokens)
  beacon into subsystem sections and compiles one record under the header
  `timestamp`, `msgtype`, `messagenum`, `messagetotal`. It also keeps the
  `_errmsg` / `compileddata` attributes of the `ParseDownlink` object.
- **Float reconstruction.** `hextofloat` and `hextodouble` rebuild an
  IEEE 754 binary32/binary64 value by hand (section 3.4 of IEEE 754-2008).
  The sign, exponent and fraction fields are read from the hex text. The
  model uses exact reals and, like the code, applies one formula to every
  exponent.
- **Image reassembly.** `_readimage`, with `_swaphex` and `_unique2`, takes
  image data packets of at least 512 hex characters and reads their two
  little-endian headers (declared total and packet id, both 248 times too
  large). It keeps the packets that agree with the modal total, sorts and
  de-duplicates them, fills the gaps with filler blocks and decodes the hex.
- **Capture-log readers.** `_readputtylog` and `_readkss` turn the decoded
  lines of a capture file into hex packets.

## How the model is laid out

| file | module | what |
|---|---|---|
| `wrappers.dfy` | `Wrappers` | `Option`, `Result` and the Python exception classes the code raises |
| `py_text.dfy` | `PyText` | the string builtins used: `lower`, `strip`, `replace`, `find`, slicing with negative indices, `join` |
| `py_int.dfy` | `PyInt` | `int(s, 16)`, `int(s, 2)`, `bin()`, zero padding, powers of two |
| `py_order.dfy` | `PyOrder` | Python's order on `(int, str)` tuples, and `sorted` |
| `normaliser.dfy` | `Normaliser` | `_cleaninput`, `_validatehex` |
| `byte_cursor.dfy` | `ByteCursor`, `ByteCursorFacts` | `_parsebinary` as a class `Cursor` whose token list each `Read` pops, and what a read means on byte tokens |
| `schemas.dfy` | `Schemas` | `getkbits8`, and the five decoders as layouts (lists of field, flag and register steps) run by `Decode` on one cursor |
| `schema_facts.dfy` | `SchemaFacts` | widths of the layouts, the fixed-offset reading of a layout, and `getkbits8` inside and outside one byte |
| `ordered_dict.dfy` | `OrderedDict` | item assignment and `update` of `collections.OrderedDict` |
| `parse_downlink.dfy` | `Dispatcher` | `_parse`, and the class `ParseDownlink` with its two attributes |
| `ieee754.dfy` | `Ieee754`, `Ieee754Facts` | `hextofloat`, `hextodouble` and the field reading of their result |
| `hex_codec.dfy` | `HexCodec` | `binascii.hexlify`/`unhexlify`, `_swaphex`, `bytes.fromhex` |
| `image.dfy` | `ImageAssembly` | `_readimage`, `_unique2` |
| `log_readers.dfy` | `LogReaders` | `_readputtylog`, `_readkss` |

Byte tokens are kept as strings, not bytes, because cleaning does not
guarantee byte tokens. An odd-length input leaves a one-character last
token. A multi-character delimiter is removed only as a whole, yet each of
its characters passes validation, so such a character can survive inside a
token. The cursor therefore parses the joined tokens with a model of
`int(_, 16)`. The theorems in `ByteCursorFacts` and `SchemaFacts` then say
what a read means when every token is two lower-case hex digits.

The schema decoders are given as data: each is a layout of steps in the
order the code performs its reads. `Schemas.Decode` runs a layout on one
`Cursor` object, one step at a time. `SchemaFacts.RunMatchesReference` proves
that this equals reading each field at its fixed byte offset. The
dispatcher is stated over a `Catalogue` of five layouts; `SwampSat2` is the
one the code uses. So the dispatcher's theorems need only the layout widths
(`Dispatcher.Shaped`) and not the field lists.

Image headers are kept as the raw integers. The code divides both by 248 as
floats. A raw header is below 2^32, so the quotient is below 2^25, and two
distinct quotients, or a quotient and an integer, differ by at least 1/248.
That gap is far wider than the rounding of a double at that size. So every
comparison the code makes between those floats gives the same answer as the
matching comparison of raw integers:

- equality with the mode;
- `0 <= id <= total`;
- `id % 1 == 0`, that is, raw id a multiple of 248;
- `ceil(total)`, that is, the ceiling of raw / 248;
- `nummissing < totalpackets`, that is, `248 * nummissing < raw total`.

Two behaviours of the image reader follow from the order of its steps:

- **Duplicate ids.** The `(id, payload)` tuples are sorted at line 751,
  before `_unique2` keeps the first of each id. So a repeated id keeps the
  lexicographically smallest payload text, whatever the order of arrival
  (`ImageAssembly.DedupSorted`, `ImageAssembly.ImageBlocks`).
- **Missing count.** `nummissing` at line 758 counts only the indices below
  the number of distinct ids that are absent, not every filled index. With
  no packet retained, the count is 0 and an image made only of filler is
  written (`ImageAssembly.NoneRetainedWritten`).

## Model

| member | source | states |
|---|---|---|
| Normaliser.ValidateHex | lib/swampsat2.py:243-246 | true exactly when some character is neither a lower-case hex digit nor a character of the lowered delimiter |
| Normaliser.CleanInput | lib/swampsat2.py:226-240 | an empty cleaned string gives `([], "String is empty")`; one with an inadmissible character gives `([], "Invalid character found in string")`; otherwise no message, and tokens that join back to the cleaned string: ceil(n/2) of them, all of two characters but a last one of `2 - n % 2` |
| Normaliser.ChunksConcat | lib/swampsat2.py:240 | joining the two-character slices gives back the string they were cut from |
| Normaliser.ChunksOfPairs | lib/swampsat2.py:240 | cutting a join of two-character pieces gives the same pieces back (the inverse direction) |
| Normaliser.ChunksShape | lib/swampsat2.py:240 | the slices of a non-empty string: ceil(n/2) of them, every one of two characters except a one-character last one when n is odd |
| Normaliser.CleanInputSignalsFailure | lib/swampsat2.py:226-240 | the token list is empty if and only if an error message is returned |
| Normaliser.TokensAdmissible | lib/swampsat2.py:236-240 | every character of every token passes `_validatehex`; when the cleaned string is all hex digits and of even length, every token is a byte |
| Normaliser.DelimiterCharacterSurvives | lib/swampsat2.py:229-246 | with delimiter `",,"`, the input `"a,b"` is accepted as tokens `["a,", "b"]`: a single delimiter character passes validation and survives into a token |
| ByteCursor.Cursor.constructor | lib/swampsat2.py:249 | the cursor holds the caller's token list |
| ByteCursor.Cursor.Read | lib/swampsat2.py:249-339 | the value returned and the new token list are those of `ReadSpec` on the old list: `None` and no change for an unknown type name, IndexError and no change with too few tokens, otherwise the first n tokens popped and their reversed join interpreted |
| ByteCursor.Decode | lib/swampsat2.py:256-339 | the conversion of the joined digits, with the float conversions done by their loops, equals `Interpret` |
| ByteCursorFacts.LittleEndian | lib/swampsat2.py:251 | the little-endian number of n byte tokens is below 2^(8n) |
| ByteCursorFacts.ReversedJoin | lib/swampsat2.py:254-256 | the tokens joined in reverse order are hex, and `int(_, 16)` of that join is the little-endian number of the tokens |
| ByteCursorFacts.KindsUsed | lib/swampsat2.py:252-339 | the type names the read lemmas cover select their branches: `uint8`/`uint16` the unsigned 1/2-byte, `int8`/`int16` the signed 1/2-byte, `bool` the `numbytes`-byte bit list and `single` the binary32 branch |
| ByteCursorFacts.UnsignedRead | lib/swampsat2.py:253-269 | an unsigned read of n byte tokens yields their little-endian number and leaves exactly the tokens after the first n |
| ByteCursorFacts.SignedRead | lib/swampsat2.py:270-298 | a signed read is the two's complement of the little-endian number: in [-2^(8n-1), 2^(8n-1)), congruent to it mod 2^(8n), negative exactly when it is at least 2^(8n-1); exactly n tokens popped |
| ByteCursorFacts.TwosComplementRange | lib/swampsat2.py:274-297 | the sign fold gives a value in the signed range that is the number or the number minus 2^(8n), negative iff the number is at least 2^(8n-1) |
| ByteCursorFacts.BitsRead | lib/swampsat2.py:323-331 | a `bool` read of n byte tokens yields exactly 8n bits, element j being bit j of the little-endian number, and pops n tokens |
| ByteCursorFacts.MsbBits | lib/swampsat2.py:328-331 | the zero-padded binary digits of v, reversed, are the bits of v least significant first |
| ByteCursorFacts.SingleRead | lib/swampsat2.py:332-335 | a `single` read of four byte tokens is `hextofloat` with `swap=True` on the tokens in arrival order, and pops four |
| ByteCursorFacts.ShortRead | lib/swampsat2.py:254-255 | with fewer tokens than the type takes, IndexError and the list unchanged |
| ByteCursorFacts.UnknownKindRead | lib/swampsat2.py:252-339 | the result is `None` exactly for a type name no branch tests, and then the list is unchanged |
| ByteCursorFacts.UnparsedRead | lib/swampsat2.py:254-256 | a join `int(_, 16)` refuses raises ValueError after the tokens were popped |
| ByteCursorFacts.DelimiterInTokenFails | lib/swampsat2.py:257-260 | a `uint16` read of `["1,", "00"]` raises ValueError and leaves the list empty |
| Schemas.ReadStep | lib/swampsat2.py:346-509 | one step on the cursor: its entries and the tokens left are those of `StepSpec` on the old list |
| Schemas.Decode | lib/swampsat2.py:342-538 | a schema decoder on one cursor returns `Run` of its layout on the old token list: the entries of every step in order, or the first exception |
| SchemaFacts.GetKBits8Field | lib/swampsat2.py:444-451 | for a byte and a field with p + k <= 8, `getkbits8(num, k, p)` is the k bits of num from bit p |
| SchemaFacts.PartsOfRegister | lib/swampsat2.py:457-468 | cutting a one-byte register into fields gives each field's bits, transformed, and never raises |
| SchemaFacts.TemperatureOfByte | lib/swampsat2.py:482-497 | on a reading below 256, the stx temperature call `getkbits8(n, 12, 4)` yields the top four bits of the byte |
| SchemaFacts.TemperatureFromEleven | lib/swampsat2.py:482-497 | from 2048 up, `getkbits8(n, 12, 4)` slices nothing and raises ValueError |
| SchemaFacts.TemperatureOfFourHundred | lib/swampsat2.py:482-497 | `getkbits8(400, 12, 4)` is 4, whereas bits 4..15 of 400 are 25 |
| SchemaFacts.TemperatureOfMinusThirtyTwo | lib/swampsat2.py:482-497 | a negative reading keeps the `b` of `-0b`: `getkbits8(-32, 12, 4)` is 2 |
| SchemaFacts.StepMatches | lib/swampsat2.py:346-536 | a safe step on byte tokens never raises, pops exactly its width and yields the entries read at offset 0 |
| SchemaFacts.RunMatchesReference | lib/swampsat2.py:342-538 | a layout of safe steps on enough byte tokens never raises and yields exactly the reading of each field at its fixed offset |
| SchemaFacts.ReferenceKeys | lib/swampsat2.py:342-538 | the keys come out exactly in the order the layout declares them |
| SchemaFacts.EpsShape | lib/swampsat2.py:346-414 | `_eps` reads 116 bytes, and every read in it is safe |
| SchemaFacts.BatteryShape | lib/swampsat2.py:423-436 | `_battery` reads 15 bytes, all safely |
| SchemaFacts.VutrxShape | lib/swampsat2.py:454-474 | `_vutrx` reads 28 bytes, all safely |
| SchemaFacts.StxShape | lib/swampsat2.py:492-509 | `_stx` reads 21 bytes; all its reads are safe except the two temperature registers |
| SchemaFacts.StxTemperaturesShape | lib/swampsat2.py:496-497 | the temperature steps read two bytes each and are not safe: a 16-bit value is cut as if it were one byte |
| SchemaFacts.AntsShape | lib/swampsat2.py:518-536 | `_ants` reads 4 bytes, all safely |
| OrderedDict.KeyIndex | lib/swampsat2.py:346 | the position of a key is its first entry, and absent keys have none |
| OrderedDict.Get | lib/swampsat2.py:346 | a subscript succeeds exactly for a key the dictionary holds |
| OrderedDict.AssignGet | lib/swampsat2.py:346 | after `d[k] = v`, `d[k]` is v and every other key reads as before |
| OrderedDict.AssignKeys | lib/swampsat2.py:346 | assignment keeps the keys in place and appends a missing key at the end |
| OrderedDict.UpdateKeySet | lib/swampsat2.py:155-158 | after `update`, the keys are those of both dictionaries and no others |
| OrderedDict.UpdateDistinct | lib/swampsat2.py:155-158 | `update` keeps keys unique |
| OrderedDict.UpdateFresh | lib/swampsat2.py:155-158 | with no shared or repeated keys, `update` appends the other dictionary's entries in order |
| OrderedDict.UpdateAllKeySet | lib/swampsat2.py:208-212 | a run of updates ends with the keys of the dictionary and of every update, and no others |
| OrderedDict.UpdateAllGrows | lib/swampsat2.py:208-212 | a run of updates never removes an entry |
| Dispatcher.ParseDownlink.Init | lib/swampsat2.py:49-50 | a new object has no error message and an empty record |
| Dispatcher.ParseDownlink.Create | lib/swampsat2.py:46-51 | `__init__` yields a fresh object holding the message and record `_parse` computes, or lets a decoder's exception escape |
| Dispatcher.ParseDownlink.ParseOnce | lib/swampsat2.py:54-56 | `parse` returns the record a new object compiles |
| Dispatcher.ParseDownlink.Parse | lib/swampsat2.py:94-223 | `_parse` sets the two attributes to the outcome `ParseSpec` gives for the old ones, and returns the record; when a decoder raises, the attributes are unchanged |
| Dispatcher.FirstBeacon | lib/swampsat2.py:124-158 | the flight mode 1 branch: the four sections cut at 116, 15, 28 and the rest, decoded and compiled under message type 3 |
| Dispatcher.SecondBeacon | lib/swampsat2.py:161-212 | the flight mode 2 branch: the five sections cut at 116, 15, 28, 4 and the rest, decoded and compiled under message type 4 |
| Dispatcher.CompileFour | lib/swampsat2.py:140-158 | the four decoders in order, then the header updated with each result |
| Dispatcher.CompileFive | lib/swampsat2.py:197-212 | the five decoders in order, the stx one last, then the header updated with each result |
| Dispatcher.DecodeFour | lib/swampsat2.py:197-200 | the eps, battery, vutrx and ants decoders in order; the first exception escapes |
| Dispatcher.DecodeSection | lib/swampsat2.py:197-201 | one decoder on a new cursor over its section returns the layout's `Run` |
| Dispatcher.DecodeSections | lib/swampsat2.py:140-144 | when every decoder succeeds, there is one result per section |
| Dispatcher.Cut | lib/swampsat2.py:127-139 | one section per cut length plus one for the rest |
| Dispatcher.DecodeAppend | lib/swampsat2.py:197-201 | decoding two runs of sections is decoding the first, then the second |
| Dispatcher.FirstFailure | lib/swampsat2.py:197-201 | decoding stops at the first section whose decoder raises, with that exception |
| Dispatcher.AllDecoded | lib/swampsat2.py:197-201 | when every decoder succeeds, the results come back in order |
| Dispatcher.AckPairsSpellMessage | lib/swampsat2.py:109-121 | the 44 marker pairs are the lower-case hex codes of the 44 characters of the greeting |
| Dispatcher.AckRecordEntries | lib/swampsat2.py:116-121 | the acknowledgement record holds timestamp, msgtype 0, messagenum 1, messagetotal 1 and the greeting, in that order |
| Dispatcher.HeaderEntries | lib/swampsat2.py:145-149 | a beacon record starts with timestamp, msgtype, messagenum 2 and messagetotal 2 |
| Dispatcher.HeaderKeys | lib/swampsat2.py:145-149 | the header carries exactly its four keys |
| Dispatcher.CutJoin | lib/swampsat2.py:127-139 | the sections join back into the token list |
| Dispatcher.CutLengths | lib/swampsat2.py:127-139 | on a long enough list, each section has its cut length and the last holds the rest |
| Dispatcher.SecondCut | lib/swampsat2.py:164-195 | the flight mode 2 cut is the flight mode 1 cut of the first 163 tokens, then the stx section |
| Dispatcher.SwampSat2Shaped | lib/swampsat2.py:99 | the eps, battery, vutrx and ants layouts read exactly 116, 15, 28 and 4 tokens, and the stx layout reads one token less than its 22; the stx layout has steps that can raise |
| Dispatcher.FirstBeaconFits | lib/swampsat2.py:124-140 | the sections of a 163-token beacon of byte tokens have exactly their layouts' widths |
| Dispatcher.SecondBeaconFits | lib/swampsat2.py:161-195 | the first four sections of a 185-token beacon fit their layouts exactly; the stx section is one token longer than its layout reads, so its last byte is never read |
| Dispatcher.RejectedInput | lib/swampsat2.py:102-106 | an input that cleans to nothing, or holds an inadmissible character, leaves that message and an empty record, whatever the object held before |
| Dispatcher.AcknowledgementFirst | lib/swampsat2.py:109-121 | a clean input containing the marker anywhere in its joined text, at any length and alignment, compiles to the acknowledgement record |
| Dispatcher.OtherLength | lib/swampsat2.py:214-221 | a clean input without the marker, of any length but 163 and 185 tokens, gives "Not a valid SS2 beacon" and an empty record |
| Dispatcher.FirstBeaconParses | lib/swampsat2.py:124-158 | a 163-token beacon of byte tokens without the marker never raises; its record is the message type 3 header updated with the eps, battery, vutrx and ants readings at their fixed offsets |
| Dispatcher.SecondBeaconParses | lib/swampsat2.py:161-212 | a 185-token beacon of byte tokens without the marker raises exactly when the stx decoder raises; otherwise its record is the message type 4 header updated with the five readings |
| Dispatcher.FirstBeaconKeys | lib/swampsat2.py:124-158 | that record has the four header keys and every name of the four layouts, and no other key |
| Dispatcher.ParseSettles | lib/swampsat2.py:94-223 | after any `_parse`, the message is empty exactly when the record is not; an error already held stays; only the three known messages arise; an exception comes only from the two beacon lengths |
| Ieee754.Digits | lib/swampsat2.py:541-550 | a non-`str` raises TypeError; a character after the optional `0x` outside lower-case hex raises ValueError; otherwise the digits are non-empty lower-case hex |
| Ieee754.SumFraction | lib/swampsat2.py:558-562 | the loop computes 1 plus 2^-(k+1) for every set fraction bit k |
| Ieee754.DigitsOf | lib/swampsat2.py:543-550 | prefixing, validation and group swap step by step equal `Digits` |
| Ieee754.ReconstructValue | lib/swampsat2.py:552-564 | the shared body, including the OverflowError of its final product, equals `Reconstruct` |
| Ieee754.HexToFloat | lib/swampsat2.py:541-564 | `hextofloat` returns `Reconstruct` for binary32 |
| Ieee754.HexToDouble | lib/swampsat2.py:567-590 | `hextodouble` returns `Reconstruct` for binary64, OverflowError included |
| Ieee754Facts.PatternValue | lib/swampsat2.py:552-564 | for a pattern of at most `width` bits the value is (-1)^s · 2^(e - bias) · (1 + frac / 2^m), with s the top bit, e the next 8 or 11 bits and frac the low 23 or 52; OverflowError exactly when e - bias reaches 1024 with a non-zero frac |
| Ieee754Facts.ReconstructFields | lib/swampsat2.py:541-590 | for at most width/4 lower-case hex digits without swap, the result is that field formula on their value, or OverflowError when e - bias reaches 1024 with a non-zero frac |
| Ieee754Facts.ReconstructFails | lib/swampsat2.py:543-590 | the call raises if and only if the argument is not a `str`, has nothing to parse, has a character outside lower-case hex, or its pattern overflows the final product; TypeError exactly for a non-`str`, OverflowError exactly for the overflowing pattern, and never OverflowError from `hextofloat` |
| Ieee754Facts.SingleNeverOverflows | lib/swampsat2.py:557-564 | `hextofloat`'s exponent reaches at most 255 - 127, so its product never overflows, whatever the length of the argument |
| Ieee754Facts.DoubleOverflows | lib/swampsat2.py:578-590 | `hextodouble` of a 64-bit pattern raises OverflowError exactly for the all-ones exponent with a non-zero fraction |
| Ieee754Facts.DoubleNaNRaises | lib/swampsat2.py:590 | `hextodouble('7ff8000000000000')` raises OverflowError: `2 ** 1024` is an integer too large for a float, and `mval` is the float 1.5 |
| Ieee754Facts.DoubleInfinityPattern | lib/swampsat2.py:590 | `hextodouble('7ff0000000000000')` does not raise: with no fraction bit `mval` stays the integer 1 |
| PyInt.BinValuePositive | lib/swampsat2.py:556-562 | a binary numeral is non-zero exactly when it has a `1` digit, that is, exactly when the fraction loop makes `mval` a float |
| Ieee754Facts.SwapReversesBytes | lib/swampsat2.py:549-550 | `swap=True` on byte tokens in wire order equals no swap on the tokens reversed |
| Ieee754Facts.FieldsCompose | lib/swampsat2.py:556-558 | sign, exponent and fraction placed in their bit positions are read back by the field functions |
| Ieee754Facts.SingleOne | lib/swampsat2.py:541-564 | `hextofloat('3f800000')` is 1 |
| Ieee754Facts.SinglePi | lib/swampsat2.py:541-564 | `hextofloat('40490fdb')` is 13176795 / 4194304 |
| Ieee754Facts.SingleMinusOne | lib/swampsat2.py:541-564 | `hextofloat('bf800000')` is -1 |
| Ieee754Facts.SingleZeroPattern | lib/swampsat2.py:556-564 | the all-zero pattern is not special-cased: it gives 2^-127, not 0 |
| Ieee754Facts.DoubleOne | lib/swampsat2.py:567-590 | `hextodouble('3ff0000000000000')` is 1 |
| Ieee754Facts.UpperCaseRefused | lib/swampsat2.py:547-548 | upper-case digits raise ValueError |
| PyInt.ParseInt16 | lib/swampsat2.py:256 | `int(s, 16)` accepts exactly an optional `0x`/`0X` prefix and a non-empty run of hex digits of either case, and yields their value |
| PyOrder.SortSorted | lib/swampsat2.py:751 | `sorted` yields an ordered permutation of the tuples |
| HexCodec.Hexlify | lib/swampsat2.py:713 | two lower-case hex digits per byte |
| HexCodec.Unhexlify | lib/swampsat2.py:713 | a successful decode has half as many bytes as characters |
| HexCodec.UnhexlifyOk | lib/swampsat2.py:713 | `unhexlify` succeeds exactly on text of even length made of hex digits of either case |
| HexCodec.UnhexlifyHexlify | lib/swampsat2.py:713 | hexlify then unhexlify gives the bytes back |
| HexCodec.HexlifyUnhexlify | lib/swampsat2.py:713 | unhexlify then hexlify gives the text back, lower-cased |
| HexCodec.SwapHex | lib/swampsat2.py:711-713 | `_swaphex` keeps the length and yields lower-case hex |
| HexCodec.SwapHexTwice | lib/swampsat2.py:711-713 | swapping twice gives the text back, lower-cased |
| HexCodec.SwapHexValue | lib/swampsat2.py:711-713 | `int(_swaphex(h), 16)` is the little-endian number of the bytes of h |
| HexCodec.FromHexUnhexlify | lib/swampsat2.py:768 | on text without whitespace, `bytes.fromhex` agrees with `unhexlify` |
| HexCodec.FromHexOdd | lib/swampsat2.py:768 | on odd-length text without whitespace, `bytes.fromhex` raises ValueError |
| HexCodec.UnhexlifyAppend | lib/swampsat2.py:768 | even-length pieces decode one after the other |
| ImageAssembly.Long | lib/swampsat2.py:728 | the kept packets are cut to 512 characters; none is kept exactly when every packet is shorter than 512 |
| ImageAssembly.Frames | lib/swampsat2.py:729-731 | when no header raises, there is one frame per packet, each that packet's headers and payload |
| ImageAssembly.FramesFail | lib/swampsat2.py:729-730 | reading the headers raises exactly when some packet's header does |
| ImageAssembly.ReadFrameHeaders | lib/swampsat2.py:729-731 | a packet's headers are the little-endian numbers of its first and second four bytes; they raise exactly when those are not sixteen hex digits |
| ImageAssembly.HeaderBytes | lib/swampsat2.py:711-713 | an eight-character header parses exactly when it is hex, to its little-endian number |
| ImageAssembly.ModeIndex | lib/swampsat2.py:737 | `mode` finds a value that no value outnumbers, occurring before every other value with the same count |
| ImageAssembly.Retain | lib/swampsat2.py:740-745 | a packet is kept exactly when its total is the mode and its raw id is a multiple of 248 between 0 and the total |
| ImageAssembly.Unique2 | lib/swampsat2.py:716-725 | `_unique2` raises IOError on lists of different lengths and otherwise returns `Dedup` |
| ImageAssembly.DedupKeepsFirst | lib/swampsat2.py:716-725 | `_unique2` keeps each value of the first list exactly once, every value, each with the partner of its first occurrence |
| ImageAssembly.DedupPrefix | lib/swampsat2.py:720-724 | `_unique2` only appends: its result on a prefix of the lists is a prefix of its result, so values come in the order of their first occurrence |
| ImageAssembly.IdsAscending | lib/swampsat2.py:751-752 | the ids of the sorted tuples ascend, so they are `packetids.sort()` |
| ImageAssembly.DedupSorted | lib/swampsat2.py:751-755 | after sorting and `_unique2`, the ids ascend strictly, every id stays, and each keeps the smallest payload paired with it |
| ImageAssembly.ChosenKeepsLeast | lib/swampsat2.py:740-755 | the chosen ids and payloads keep the least payload of each id of the retained packets |
| ImageAssembly.ChosenFromPackets | lib/swampsat2.py:740-755 | every chosen id comes from a retained packet with that id and payload |
| ImageAssembly.ChosenCovers | lib/swampsat2.py:740-755 | every retained packet's id is chosen |
| ImageAssembly.ChosenLeast | lib/swampsat2.py:751-755 | a chosen payload is no greater than the payload of any retained packet with the same id |
| ImageAssembly.ChosenPicks | lib/swampsat2.py:740-755 | the filters, sort and `_unique2` pick ascending ids of retained packets, all of them, each with its smallest payload |
| ImageAssembly.ChosenNoneIff | lib/swampsat2.py:740-755 | no id is chosen exactly when no packet passes the filters |
| ImageAssembly.MissingIds | lib/swampsat2.py:758 | the missing ids are exactly the i below the number of ids that are not ids |
| ImageAssembly.NothingMissingIff | lib/swampsat2.py:758-759 | over ascending non-negative ids, nothing is missing exactly when the ids are 0, 1, ..., n-1 |
| ImageAssembly.Fill | lib/swampsat2.py:765 | the comprehension that pops `imdata` from the front equals `FillFrom` |
| ImageAssembly.FillBlocks | lib/swampsat2.py:765 | with ascending ids paired with payloads, filling never pops an empty list, and block i is the payload of id i or the filler block |
| ImageAssembly.BlockWithinTotal | lib/swampsat2.py:744-765 | a block index below ceil(total / 248) is an id the id filter admits |
| ImageAssembly.BlockAt | lib/swampsat2.py:765 | one block of the image is the picked payload of its id, or filler when no picked packet has that id |
| ImageAssembly.ImageBlocks | lib/swampsat2.py:737-765 | the image text is ceil(T) blocks; block i is the smallest payload among retained packets with id i, or `filler * 248` when there is none |
| ImageAssembly.NoneRetainedWritten | lib/swampsat2.py:758-776 | when no packet passes the filters the image is all filler, nothing is counted missing, and it is written exactly when the modal total is positive |
| ImageAssembly.BlocksDecode | lib/swampsat2.py:768 | blocks of 496 hex digits decode to 248 bytes each, block k at bytes 248k to 248(k+1) |
| ImageAssembly.BlocksHex | lib/swampsat2.py:765-768 | with a hex filler and hex payloads, every block is 496 hex digits |
| ImageAssembly.ImageBytes | lib/swampsat2.py:737-768 | with a two-digit hex filler and 496-digit hex payloads, the image is built without error, 248 · ceil(T) bytes long, slice i decoding block i |
| ImageAssembly.Reassemble | lib/swampsat2.py:737-776 | once there is a packet, a successful call yields an assembly: the missing count, the bytes and whether they are written |
| ImageAssembly.NoFramesWhenShort | lib/swampsat2.py:728-734 | the call returns False without building anything exactly when no packet has 512 characters |
| ImageAssembly.ReadImage | lib/swampsat2.py:706-776 | the steps as written, including `_unique2` and the popping fill loop, equal `ReadImageSpec` |
| LogReaders.CleanLineNoBreaks | lib/swampsat2.py:697 | a cleaned line holds no space, tab, carriage return or line feed |
| LogReaders.ReadPuttyLog | lib/swampsat2.py:668-703 | the loop over the lines returns `PuttyPackets` |
| LogReaders.PuttyPacketsAppend | lib/swampsat2.py:684-701 | the packets of a file are those of its first part followed by those of the rest |
| LogReaders.PuttyPacketsIff | lib/swampsat2.py:684-701 | a text is returned exactly when some decodable line cleans to it and it is non-empty and all `0-9a-f` |
| LogReaders.PuttyPacketsHex | lib/swampsat2.py:700-701 | every packet returned is non-empty lower-case hex |
| LogReaders.MatchAt | lib/swampsat2.py:640 | a match starting at p is one to three digits then `>`, greedy; none exists when none is found |
| LogReaders.SearchFrom | lib/swampsat2.py:640 | `re.search('[\d]{1,3}>', _)` finds the leftmost marker and returns where it ends; none when there is no marker |
| LogReaders.KssPackets | lib/swampsat2.py:659-663 | one output packet per finished packet of the line loop |
| LogReaders.ReadKss | lib/swampsat2.py:593-665 | the loop with its `packet` state and the two comprehensions return `KssPackets` |
| LogReaders.OpenPacketIsRun | lib/swampsat2.py:615-657 | the packet being collected is the joined text of the trailing run of marker lines, and every finished packet is non-empty |
| LogReaders.BreakEmitsRun | lib/swampsat2.py:618-657 | a line without a marker (undecodable or unmatched) finishes the open run as a packet unless it is empty, and opens none |
| LogReaders.MarkerExtends | lib/swampsat2.py:643-646 | a marker line appends the text after its marker to the open packet and finishes none |
| LogReaders.UnwrapWrapped | lib/swampsat2.py:660 | `c000` + x + `c0` is trimmed back to x |
| LogReaders.UnwrapUnwrapped | lib/swampsat2.py:660 | a packet without both `c000` in front and `c0` at the end is left as it is |
| LogReaders.AfterCallsignShape | lib/swampsat2.py:663 | with the call sign present, the result is the text after its first occurrence up to the next occurrence or the end, with no occurrence inside |
| LogReaders.AfterCallsignAbsent | lib/swampsat2.py:663 | a packet without the call sign is returned as it is |

## Left out

- The command line: `main`, docopt handling and log-path construction; they are argument and file-system plumbing.
- `record`, `display`, `parserecord` and `get`: file output, printing and an accessor, with no decoding logic.
- The timestamp: `datetime.now().strftime(...)` is wall-clock time, so it is a `now` parameter of the dispatcher.
- File reading in the log readers: `os.path.normcase`, `open`, `splitlines` and UTF-8 decoding are outside the model. A reader is given its lines already decoded, each `Decoded(text)` or `Undecodable`.
- The image file write in `_readimage`: the model returns the bytes and a `written` flag instead.
- The `print` of the missing count and of the error message: the count is part of the result, the message an attribute.
- The scale and offset arithmetic of the schema decoders (`* 14.662757`, `- 273.15`, `* 3 / 4096`, ...): it is done in exact reals (`value * s + o`), not Python floats.
- `hextofloat` and `hextodouble` are modelled with exact reals. Python float rounding (of `mval` beyond 52 fraction bits, of a subnormal product, or of a product rounded up to infinity) and the int-or-float type of the result are not modelled. The one exception the arithmetic raises, OverflowError when an integer `2 ** k` with `k >= 1024` meets a float `mval`, is modelled.
- `str.lower()` is modelled on ASCII letters only.
- `\d` in the `_readkss` pattern is modelled as the ASCII digits, whereas Python also matches other Unicode decimal digits.
- `int(_, 16)` is modelled without the sign, surrounding-whitespace and underscore forms Python also accepts. The joined tokens of a cleaned beacon never contain whitespace, but a delimiter character that survives cleaning could be `+`, `-` or `_`.
- `statistics.mode` is modelled as "the first of the most common values", as in Python 3.8 and later. Earlier versions raise `StatisticsError` on a tie.
- The call-sign search in `_readkss`: the pattern is a plain hex literal, so it is modelled as a substring search.
- Exceptions are modelled by their class only. Which of two failing header reads raises first is not modelled; both raise ValueError.
- The affine scale of a field is not inverted by any lemma: the model states each decoded field as `raw * s + o` over exact reals, so the inverse is plain arithmetic.
- `setup.py`: packaging metadata only.
