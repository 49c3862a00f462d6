# Verified model of protowire-python

A Dafny model of the four places in protowire-python that do real work, with proofs of what they promise.
`dafny verify dfyconfig.toml` checks all of it.

**The envelope codec** (`src/protowire/envelope.py`) is a protobuf wire codec for four message types:
`Envelope`, `AppError`, `FieldError` and the metadata map entry. Encoders append to a `bytearray`, decoders
walk an index over `bytes`.

- `Results`, `Bits`: outcomes, and Python's bitwise operators on unbounded two's-complement integers.
- `Varints`, `Utf8`, `Utf8Laws`, `Wire`: varints, `str`, and the format of one message level. A byte string is a list of
  records (number, wire type, payload); a decode loop is given by a `Schema` - which fields it knows, the
  fresh value, the effect of one record - and decoding is a fold of that effect over the records.
- `WireLaws`: what holds of every loop whose schema ignores unknown fields and lets fields with different
  numbers commute. `Messages` gives the four schemas; `EnvelopeLaws` shows that they are lawful.
- `EnvelopeAccepts`: exactly which byte strings each decoder accepts, truncated ones included. `EnvelopeFields`:
  what each field of a decoded message holds.
- `EnvelopeMerge`, `EnvelopeMinimal`, `EnvelopeNormal`: round trip with its exact domain, concatenation as
  merge, length-minimality, idempotent normalisation. `OrderedDict` is the metadata `dict`.
- `WireMethods`, `Codec`: the helpers as loops over a mutable `ByteArray` and the message classes with their
  `Encode` and `Decode`, each proved equal to those functions on every input. `EnvelopeExamples` pins field
  numbers to the byte strings of the tests and shows inputs at which a promise fails, `Zigzag` covers the two
  zig-zag helpers.

**The import walk** (`src/protowire/_schema.py`) and its consumer (`BuildSchema`, `SbeCodec::Create` in
`src/_protowire/module.cc`): `SchemaWalk` and `SchemaMethods`. The order is a topological closure, it grows
incrementally, imports come out as they are listed, it costs one call per import edge, and C++ rebuilds from
it the very files that were walked.

**Row rendering** (`bind_row`, `_cell_to_pxf` in `src/protowire/pxf.py`): `PxfRow` and `Base64`, read back by a
small line reader.

**The depth limit** (`PxfMarshal` in `src/_protowire/module.cc`): `MarshalDepth`.

Conventions. Integers on the Python side are unbounded; 64-bit masking and the 2^70 bound of the ten-byte varint
are written out. Limits that reach C++ are 32-bit `int`s (`Cpp`). All errors of the codec are one `ValueError`;
UnicodeEncodeError and UnicodeDecodeError are subclasses of it. A `str` is a sequence of code points that may
hold lone surrogates, which the encoder refuses.
"Below 2^70" is the exact domain of the length prefix; no real buffer comes near it. A proof hides the
definitions it does not need, which keeps verification quick.

Where the code and its prose differ, the code is modelled:

- The module docstring (`src/protowire/envelope.py:5`) and a test docstring (`tests/test_envelope.py:142`) speak of
  zig-zag for signed integers; the status is written as a plain sign-extended varint (lines 305-308).
- `_enc_zigzag64` binds `&` before `^` and so misses zig-zag by 2^64 below zero (`Zigzag.EncZigzagExact`); nothing
  in the envelope calls it.
- Truncated input is not always refused: a known length-delimited field and a skipped fixed-width one are
  clipped at the end of the buffer, and the message is accepted when what is left of the payload will do
  (`EnvelopeAccepts.EnvelopeAcceptsIff` and `CutShortAtEveryLevel` say exactly when, for every level;
  `EnvelopeExamples.TruncationGoesUnnoticed` and `ShortFixedGoesUnnoticed` are inputs).
- A status varint of 2^64 + 2^63 or more decodes to a number past the int64 range, which the encoder writes but
  cannot get back (`EnvelopeNormal.StatusPastInt64Iff`, `EnvelopeNormal.NormalisationIsIdempotentIff`;
  `EnvelopeExamples.StatusDoesNotSettle` is an input).
- `PxfMarshal` promises that the parse leaves the verdict to the encoder. Its `depth + 1` overflows at the largest
  `int`, which is undefined in C++; with the wrap-around taken here the limit turns negative and shallow messages
  are refused (`MarshalDepth.OverflowRefusesShallow`). The promise holds for exactly the limits below it
  (`MarshalDepth.EncoderDecidesIff`).

## Model

| member | source | states |
|---|---|---|
| Varints.EncMeans | src/protowire/envelope.py:20-24 | an encoding is the number's groups of seven bits, low group first, each but the last with the continuation bit, and the last not zero unless it is alone |
| Varints.Dec | src/protowire/envelope.py:84-98 | a successful read uses between one and the allowed number of bytes, all of them in the buffer; its value is below 128 to the power of that number, and no shorter byte string than the encoder's carries it |
| Varints.DecMeans | src/protowire/envelope.py:84-98 | its value is the number that the groups it uses stand for |
| Varints.Varint | src/protowire/envelope.py:84-98 | the ten-byte read: at most 2^70 - 1, never shorter than the encoding of what it yields |
| Varints.DecEnc | src/protowire/envelope.py:20-24 | decoding an encoding with anything behind it gives the number back and stops right after it, if and only if the number fits the groups allowed |
| Varints.VarintInContext | src/protowire/envelope.py:84-98 | the same between any prefix and any suffix: the value comes back exactly when it is below 2^70, otherwise the read is refused |
| Varints.DecLocal | src/protowire/envelope.py:84-98 | a successful read depends on the bytes it uses and on no others |
| Varints.DecSucceedsIff | src/protowire/envelope.py:84-98 | a read succeeds exactly when a byte without continuation bit comes in time, and uses the bytes up to that one |
| Varints.VarintSucceedsIff | src/protowire/envelope.py:89-98 | success if and only if one of the next ten bytes is below 0x80 (truncation and overflow are the two other outcomes) |
| Varints.EncLength | src/protowire/envelope.py:20-24 | n bytes suffice exactly for the numbers below 128^n |
| Varints.EncMonotone | src/protowire/envelope.py:20-24 | larger numbers never have shorter encodings |
| Varints.NegativeTakesTenBytes | src/protowire/envelope.py:61-67 | a sign-extended negative status takes exactly ten bytes |
| Varints.PrefixFree | src/protowire/envelope.py:20-24 | no encoding is a prefix of another one |
| Bits.AndMask | src/protowire/envelope.py:22-24 | Python's `&` with n ones is reduction modulo 2^n, for negative numbers too |
| Bits.OrDisjoint | src/protowire/envelope.py:93 | Python's `|=` of groups without common bits is addition |
| Bits.XorMaskNegative | src/protowire/envelope.py:28 | flipping the low n bits of a negative n-bit number leaves all its sign bits set |
| WireMethods.EncVarint | src/protowire/envelope.py:20-24 | the loop appends exactly the encoding and touches nothing before it |
| WireMethods.EncTag | src/protowire/envelope.py:31-32 | appends the varint of eight times the field number plus the wire type |
| WireMethods.EncString | src/protowire/envelope.py:35-41 | appends tag, length and UTF-8 form of a non-empty string, nothing for an empty one, and raises exactly when the text holds a code point from 0xD800 to 0xDFFF |
| WireMethods.EncBytes | src/protowire/envelope.py:44-49 | appends tag, length and payload for a non-empty payload, nothing for an empty one |
| WireMethods.EncRepeatedString | src/protowire/envelope.py:52-58 | appends one record per element, empty elements included, in order; raises exactly when an element holds a code point from 0xD800 to 0xDFFF |
| WireMethods.EncInt32 | src/protowire/envelope.py:61-67 | appends nothing for 0, otherwise the tag and the number as a varint, a negative one reduced modulo 2^64 |
| WireMethods.EncSubmessage | src/protowire/envelope.py:78-81 | appends tag, length and payload, also for an empty payload |
| WireMethods.DecVarint | src/protowire/envelope.py:84-98 | the loop computes the specified read at any index, terminates, reads in bounds and moves the index forward |
| WireMethods.DecTag | src/protowire/envelope.py:105-107 | number and wire type of the tag at the index |
| WireMethods.DecString | src/protowire/envelope.py:110-113 | the text of the chunk at the index, clipped at the end of the buffer as Python's slice clips; refused exactly when the length is unreadable or the bytes are not in the grammar of section 4 of RFC 3629 |
| WireMethods.DecBytes | src/protowire/envelope.py:116-119 | the payload of the chunk at the index, clipped likewise |
| WireMethods.SkipField | src/protowire/envelope.py:129-142 | behind an unknown field the loop goes on eight or four bytes further for a fixed-width one, there or not, and behind the varint or the chunk for the others; a chunk that does not fit and every other wire type are refused |
| Utf8.DecodeFirstUnits | src/protowire/envelope.py:113 | the bytes of a scalar value, whatever follows, are read as that scalar value |
| Utf8.UnitsDecodeFirst | src/protowire/envelope.py:113 | what is read as a code point is a scalar value, from exactly its bytes |
| Utf8.DecodeEncode | src/protowire/envelope.py:38 | strict UTF-8: decoding inverts encoding on every text that the encoder takes |
| Utf8.EncodeDecode | src/protowire/envelope.py:113 | every byte string that decodes is the encoding of the text it decodes to, and that text is encodable |
| Utf8Laws.EncodeOkIff | src/protowire/envelope.py:38 | a text is encoded exactly when no code point of it lies in 0xD800 to 0xDFFF, and the bytes are in the grammar of RFC 3629 |
| Utf8Laws.DecodeOkIff | src/protowire/envelope.py:113 | bytes are decoded exactly when they split into the byte ranges of section 4 of RFC 3629 |
| Utf8Laws.CharIff | src/protowire/envelope.py:38 | the characters of that grammar are the bytes of the code points that are not surrogates |
| Utf8Laws.UnitsIncreasing | src/protowire/envelope.py:38 | a larger code point has bytes that come later in byte order, so no other assignment of bytes is possible |
| Wire.Next | src/protowire/envelope.py:105-142 | every field read moves forward; only a length-delimited or fixed-width one can end past the input |
| Wire.NextByWire | src/protowire/envelope.py:105-142 | what the bytes behind a tag are taken for by each of the eight wire types, in bytes: eight, four, a whole varint, a clipped chunk, or refusal |
| Wire.NextSer | src/protowire/envelope.py:31-81 | a written record is read back, whatever follows, exactly when its payload is small enough for the ten-byte varint |
| Wire.NextExtends | src/protowire/envelope.py:105-142 | a field that fits is read the same whatever follows it |
| Wire.NextTruncated | src/protowire/envelope.py:105-142 | and whatever is cut off behind it |
| Wire.NextBounds | src/protowire/envelope.py:105-142 | the canonical form of a record is no longer than the bytes it was read from, overlong varints and clipped payloads included; its payload is below 2^70 |
| Wire.ParseSerialize | src/protowire/envelope.py:303-334 | the records of a written message are the records written; one oversized record makes the message unreadable |
| Wire.RunIsFold | src/protowire/envelope.py:320-334 | the interleaved decode loop accepts and computes exactly what splitting into records first and folding over them afterwards does |
| Wire.RunConcat | src/protowire/envelope.py:320-334 | decoding whole fields followed by anything is decoding them one after the other |
| WireLaws.SwapFields | src/protowire/envelope.py:320-334 | for any lawful loop: swapping neighbouring fields with different numbers changes neither value nor rejection |
| WireLaws.FoldOrder | src/protowire/envelope.py:320-334 | for any lawful loop: two record lists that agree number by number fold alike, errors included |
| WireLaws.FieldOrderIrrelevant | src/protowire/envelope.py:320-334 | the same on bytes |
| WireLaws.ForwardCompatible | src/protowire/envelope.py:129-142 | for any lawful loop: unknown fields may be inserted at any field boundary, in front of arbitrary bytes |
| WireLaws.AcceptedIffSplits | src/protowire/envelope.py:112-141 | exactly which inputs split into records: whole fields, save that the last may be cut short if it is a known length-delimited one or a skipped fixed-width one |
| EnvelopeAccepts.RunAcceptsIff | src/protowire/envelope.py:320-334 | for a loop whose steps accept by the record alone: exactly which inputs it accepts, payloads included |
| EnvelopeAccepts.CutShortUnnoticedIff | src/protowire/envelope.py:112-141 | for such a loop: a last field cut short goes unnoticed if and only if its kind is tolerated and the clipped payload is admissible |
| EnvelopeAccepts.EntryAcceptsIff | src/protowire/envelope.py:243-252 | exactly which byte strings decode as a map entry |
| EnvelopeAccepts.FieldErrorAcceptsIff | src/protowire/envelope.py:163-181 | exactly which byte strings `FieldError.decode` accepts |
| EnvelopeAccepts.AppErrorAcceptsIff | src/protowire/envelope.py:223-256 | exactly which byte strings `AppError.decode` accepts, nested messages included |
| EnvelopeAccepts.EnvelopeAcceptsIff | src/protowire/envelope.py:315-334 | exactly which byte strings `Envelope.decode` accepts, nested messages included |
| EnvelopeAccepts.LastChunkIff | src/protowire/envelope.py:110-138 | by field number, for each of the four decoders: when a length-delimited field at the end, whole or clipped, is accepted |
| EnvelopeAccepts.LastNumberAccepted | src/protowire/envelope.py:84-132 | a whole varint field at the end is accepted by all four decoders, whatever its number and value |
| EnvelopeAccepts.LastFixedUnnoticed | src/protowire/envelope.py:129-142 | a fixed-width field at the end, whole or not, changes nothing for any of the four decoders |
| EnvelopeAccepts.UnreadableRefused | src/protowire/envelope.py:84-142 | no whole tag, varint or length, a group or an unassigned wire type: refused by all four decoders |
| EnvelopeAccepts.CutShortAtEveryLevel | src/protowire/envelope.py:110-142 | exactly which fields that the input ends in each of the four decoders lets pass, by wire type, field number and what is there of the payload |
| EnvelopeExamples.TruncationGoesUnnoticed | src/protowire/envelope.py:110-113 | an input that announces five bytes and has one is accepted |
| EnvelopeExamples.TruncationIsRefused | src/protowire/envelope.py:110-113 | the same cut through a UTF-8 sequence splits into records but is refused |
| EnvelopeExamples.ShortFixedGoesUnnoticed | src/protowire/envelope.py:133-134 | a fixed64 field with one byte of payload is accepted without a trace |
| EnvelopeExamples.FixedIsSkipped | src/protowire/envelope.py:140-141 | a fixed32 field is skipped by four bytes, and the field behind it is read |
| EnvelopeExamples.EmptyTextWins | src/protowire/envelope.py:325-326 | an empty transport error behind a non-empty one is the one that counts |
| WireLaws.RunPreserves | src/protowire/envelope.py:320-334 | an invariant kept by every record is kept by every input |
| WireLaws.RunGrows | src/protowire/envelope.py:320-334 | if no record adds more to a value's size than its canonical length, no input adds more than its own length |
| EnvelopeLaws.EntryLawful | src/protowire/envelope.py:245-252 | the map-entry loop ignores unknown fields, and its fields do not interfere |
| EnvelopeLaws.FieldErrorLawful | src/protowire/envelope.py:168-180 | the same for FieldError |
| EnvelopeLaws.AppErrorLawful | src/protowire/envelope.py:228-255 | the same for AppError |
| EnvelopeLaws.EnvelopeLawful | src/protowire/envelope.py:320-333 | the same for Envelope |
| EnvelopeLaws.SwapAtEveryLevel | src/protowire/envelope.py:164-334 | field-order independence of all four decode loops, for one swap |
| EnvelopeLaws.ReorderAtEveryLevel | src/protowire/envelope.py:164-334 | field-order independence of all four decode loops, for every rearrangement that keeps the order within each number |
| EnvelopeLaws.ForwardCompatibleAtEveryLevel | src/protowire/envelope.py:164-334 | unknown numbers, and known numbers with another wire type, are skipped without a trace by all four decode loops |
| EnvelopeFields.FoldEntry | src/protowire/envelope.py:246-250 | over any records and from any state: key and value are the texts of the last records of their number |
| EnvelopeFields.FoldFieldError | src/protowire/envelope.py:168-180 | the same for FieldError: of each scalar the last record counts, an empty one included; args gain the texts of all their records in order |
| EnvelopeFields.FoldAppError | src/protowire/envelope.py:228-255 | the same for AppError: last scalars, args and details of all their records in order, metadata updated by the entries of its records in order |
| EnvelopeFields.FoldEnvelope | src/protowire/envelope.py:320-333 | the same for Envelope: last status, sign-extended, last transport error, last data, last error as a whole |
| EnvelopeFields.DecodedEntry | src/protowire/envelope.py:243-253 | so a decoded map entry holds those texts |
| EnvelopeFields.DecodedFieldError | src/protowire/envelope.py:163-181 | so `FieldError.decode` yields exactly that, from empty fields |
| EnvelopeFields.DecodedAppError | src/protowire/envelope.py:223-256 | so does `AppError.decode` |
| EnvelopeFields.DecodedEnvelope | src/protowire/envelope.py:315-334 | so does `Envelope.decode` |
| Messages.EntryPieces | src/protowire/envelope.py:217-219 | a map entry is written as key 1, then value 2 |
| Messages.FieldErrorPieces | src/protowire/envelope.py:155-161 | a FieldError is written field by field, numbers 1 to 4 in order |
| Messages.AppErrorPieces | src/protowire/envelope.py:208-221 | an AppError is written field by field, numbers 1 to 5 in order |
| Messages.EnvelopePieces | src/protowire/envelope.py:303-313 | an Envelope is written field by field, numbers 1 to 4 in order |
| Codec.FieldError.Encode | src/protowire/envelope.py:155-161 | writes the specified bytes, or raises exactly when a text cannot be encoded |
| Codec.FieldError.Decode | src/protowire/envelope.py:163-181 | terminates on every input with the specified value in a fresh object, or raises exactly when the specification rejects |
| Codec.FieldError.DecodeField | src/protowire/envelope.py:168-180 | one turn: the remaining input decodes from the new state as it did from the old one |
| Codec.AppError.Encode | src/protowire/envelope.py:208-221 | writes the specified bytes, details and map entries in order, or raises exactly when a text cannot be encoded |
| Codec.AppError.EncodeDetails | src/protowire/envelope.py:213-214 | the loop over details |
| Codec.AppError.EncodeMetadata | src/protowire/envelope.py:216-220 | the loop over the dict, one submessage per entry |
| Codec.AppError.Decode | src/protowire/envelope.py:223-256 | terminates on every input with the specified value in fresh objects, details included, or raises exactly when the specification rejects |
| Codec.AppError.DecodeField | src/protowire/envelope.py:228-255 | one turn of that loop |
| Codec.AppError.DecodeEntry | src/protowire/envelope.py:243-252 | the nested loop over a map entry |
| Codec.Envelope.Encode | src/protowire/envelope.py:303-313 | writes the specified bytes; a present error is written even when empty |
| Codec.Envelope.Decode | src/protowire/envelope.py:315-334 | terminates on every input with the specified value in fresh objects, error and details included, or raises exactly when the specification rejects |
| Codec.Envelope.DecodeField | src/protowire/envelope.py:320-333 | one turn of that loop; field 4 replaces the whole error |
| EnvelopeMerge.EntryRoundTrip | src/protowire/envelope.py:216-253 | a map entry reads back, empty key or value included, exactly when its texts are below 2^70 bytes |
| EnvelopeMerge.FieldErrorRoundTrip | src/protowire/envelope.py:155-181 | a FieldError reads back exactly when its texts are below 2^70 bytes; otherwise the bytes are refused |
| EnvelopeMerge.AppErrorRoundTrip | src/protowire/envelope.py:208-256 | an AppError reads back - empty args, order of details, order of metadata - exactly when its parts are below 2^70 bytes |
| EnvelopeMerge.RoundTripIff | src/protowire/envelope.py:303-334 | decode inverts encode for exactly the envelopes with an int64 status and parts below 2^70 bytes, the present-but-empty error included |
| EnvelopeMerge.RunEnvelope | src/protowire/envelope.py:303-334 | what decoding an encoding does behind any earlier state, for every status |
| EnvelopeMerge.StatusBackIsIdentityIff | src/protowire/envelope.py:61-67 | the status survives masking and sign extension exactly in the int64 range |
| EnvelopeMerge.ConcatenationIsMerge | src/protowire/envelope.py:303-334 | decoding two encodings one behind the other merges them: non-default scalars of the second win, its error is taken whole if it has one |
| EnvelopeMerge.FieldErrorConcatenationIsMerge | src/protowire/envelope.py:155-181 | the same for FieldError: args are appended |
| EnvelopeMerge.AppErrorConcatenationIsMerge | src/protowire/envelope.py:208-256 | the same for AppError: args and details are appended, metadata is updated key by key |
| EnvelopeMerge.MergeFieldErrorAssociative | src/protowire/envelope.py:168-180 | that merge is associative |
| EnvelopeMerge.MergeAppErrorAssociative | src/protowire/envelope.py:228-255 | that merge is associative, order of metadata included |
| EnvelopeMerge.MergeEnvelopeAssociative | src/protowire/envelope.py:320-333 | that merge is associative |
| OrderedDict.SetShape | src/protowire/envelope.py:253 | assigning to a dict replaces in place or appends at the end |
| OrderedDict.SetKeepsDict | src/protowire/envelope.py:253 | and keeps the keys distinct |
| OrderedDict.UpdateKeepsDict | src/protowire/envelope.py:253 | so does a whole update |
| OrderedDict.UpdateEmpty | src/protowire/envelope.py:216-253 | rebuilding a dict entry by entry gives it back, in insertion order |
| OrderedDict.UpdateSet | src/protowire/envelope.py:253 | updating by a dict after an assignment equals the assignment after the update, positions included |
| OrderedDict.UpdateAssociative | src/protowire/envelope.py:253 | key-by-key update is associative, positions included |
| OrderedDict.GetUpdate | src/protowire/envelope.py:253 | after an update the later dict's value wins, other keys keep theirs |
| EnvelopeMinimal.EntryShrinks | src/protowire/envelope.py:216-253 | a decoded map entry is written in no more bytes than it was read from |
| EnvelopeMinimal.FieldErrorShrinks | src/protowire/envelope.py:155-181 | so is a decoded FieldError |
| EnvelopeMinimal.AppErrorShrinks | src/protowire/envelope.py:208-256 | so is a decoded AppError, repeated keys and nested length prefixes included |
| EnvelopeMinimal.EncodeIsShortest | src/protowire/envelope.py:303-334 | so is a decoded envelope: for every accepted input the re-encoding is no longer |
| EnvelopeMinimal.MetaSize | src/protowire/envelope.py:216-253 | assigning a map entry costs at most that entry; a replaced one gives its bytes back |
| EnvelopeNormal.ShortestInput | src/protowire/envelope.py:303-334 | of all inputs that decode to an envelope that can make the round trip, the encoder writes a shortest one |
| EnvelopeNormal.EnvelopeDecodesNormal | src/protowire/envelope.py:315-334 | every decoded envelope is encodable, has distinct metadata keys, parts below 2^70 bytes and a status of at least -2^63 |
| EnvelopeNormal.AppErrorDecodesNormal | src/protowire/envelope.py:223-256 | the same for every decoded AppError |
| EnvelopeNormal.NormalisationIsIdempotentIff | src/protowire/envelope.py:303-334 | decode, encode, decode gives the first result again if and only if the decoded status is below 2^63 |
| EnvelopeNormal.StatusPastInt64Iff | src/protowire/envelope.py:122-126 | the last status varint wins, and the status passes 2^63 exactly when that varint is at least 2^64 + 2^63 |
| EnvelopeExamples.StatusDoesNotSettle | src/protowire/envelope.py:122-126 | an input whose decoded status is 2^63 and comes back as -2^63 once written and read again |
| Zigzag.DecMeans | src/protowire/envelope.py:101-102 | the decoder halves even numbers and sends odd ones to -1, -2, ... |
| Zigzag.DecInvertsStandard | src/protowire/envelope.py:101-102 | the decoder inverts standard zig-zag on every integer |
| Zigzag.EncZigzagMeans | src/protowire/envelope.py:27-28 | on every integer the encoder flips the 64 bits from bit 63 up into the double of the number |
| Zigzag.EncZigzagExact | src/protowire/envelope.py:27-28 | the encoder gives standard zig-zag for 0 <= v < 2^63 and is 2^64 too small below zero |
| Zigzag.EncSint32 | src/protowire/envelope.py:70-75 | appends nothing for 0, otherwise the tag and what the encoder makes of the number, as a varint |
| Zigzag.SintRoundTripIff | src/protowire/envelope.py:70-75 | over int64, the number in the field written reads back exactly when it is at least -64 |
| SchemaWalk.WalkKeeps | src/protowire/_schema.py:53-59 | a walk from a dependency-closed order only appends, appends files reached from the root and no higher than it, and keeps the order topological |
| SchemaWalk.OrderIsClosure | src/protowire/_schema.py:48-62 | the order lists exactly the files reached from the roots, each once, each after all the files it imports |
| SchemaWalk.WalkIncremental | src/protowire/_schema.py:53-59 | walking on from a dependency-closed order appends the from-scratch order minus the files that are there |
| SchemaWalk.WalkAllIncremental | src/protowire/_schema.py:56-62 | the same for a list of roots |
| SchemaWalk.OrderExtends | src/protowire/_schema.py:61-62 | more roots extend the order by their own closure minus what is there |
| SchemaWalk.ImportsFirst | src/protowire/_schema.py:53-59 | the order of one file is that of its imports, in the order in which it lists them, and then the file |
| SchemaWalk.LeavesInOrder | src/protowire/_schema.py:53-59 | a file that imports a and then b, which import nothing, comes out as a, b, file |
| SchemaWalk.OrderOfOrder | src/protowire/_schema.py:48-62 | feeding an order back as roots reproduces it |
| SchemaWalk.OneRoot | src/protowire/_schema.py:17-34 | the two entry points agree on one root |
| SchemaMethods.Walker.Visit | src/protowire/_schema.py:53-59 | the recursive closure computes the walk of all imports in the order listed, terminates on the import height, makes one call per import edge of the files it adds plus its own, and passes the test once per file it adds |
| SchemaMethods.FdsForFiles | src/protowire/_schema.py:48-69 | emits one proto per file of the order, each with the name of its file and the names of its imports in order; calls equal roots plus import edges of the closure, bodies run once per file |
| SchemaMethods.FdsForDescriptor | src/protowire/_schema.py:17-41 | emits the same as the other entry point does for the descriptor's file alone |
| SchemaMethods.BuildSchema | src/_protowire/module.cc:54-72 | the loop succeeds exactly for the lists that can be built one behind the other, with one file per proto in order and a pool that holds them and their imports |
| SchemaMethods.BuildSucceedsIff | src/_protowire/module.cc:62-69 | a list of protos builds exactly when each one repeats an earlier one or has a new name, imports that came before and none twice; the files built are described by the very protos given, the pool holds exactly them, and imports are files of the pool |
| SchemaMethods.WalkedSetBuilds | src/_protowire/module.cc:54-72 | what the walk emits always builds, and what is built is the very closure that was walked |
| SchemaMethods.Create | src/_protowire/module.cc:422-447 | succeeds exactly for limits that are not negative, a list that builds and names that are in it; the files selected bear the names asked for in order, and no names select all files |
| SchemaMethods.CodecSelectsItsFiles | src/_protowire/module.cc:434-447 | with the walk's output every requested name is found, and the selected files are the ones asked for, in order |
| SchemaMethods.NewCodec | src/protowire/sbe.py:85-102 | a codec is made for exactly the files given; no files, or a negative limit, are refused |
| PxfRow.BindRow | src/protowire/pxf.py:584-592 | the loop renders the body of the row, absent cells skipped; it raises exactly on a length mismatch or a present cell of unknown kind |
| PxfRow.BodyOkIff | src/protowire/pxf.py:588-622 | a row is rendered exactly when every present cell is of a known kind |
| PxfRow.BodyConcat | src/protowire/pxf.py:588-592 | columns are rendered one behind the other, each on its own |
| PxfRow.BodyOfOne | src/protowire/pxf.py:592-622 | the text of one column for each kind of cell, and none for an absent cell |
| PxfRow.EscapeOne | src/protowire/pxf.py:612 | a backslash, a quote and a line feed are each written as two characters, others as they are |
| PxfRow.EscapeConcat | src/protowire/pxf.py:612 | a text is escaped piece by piece: no replacement acts across a seam |
| PxfRow.EscapeIsPerCharacter | src/protowire/pxf.py:608-613 | the three whole-string replacements, in their order, equal one replacement per character |
| PxfRow.EscapeHasNoLineFeed | src/protowire/pxf.py:609-613 | an escaped string holds no raw line feed |
| PxfRow.ReadStringEscape | src/protowire/pxf.py:608-613 | scanning from behind the opening quote stops at the closing quote and nowhere before, and unescapes to the original |
| PxfRow.ReadBackCell | src/protowire/pxf.py:604-622 | a rendered cell is one line and reads back as the string, the bytes or the word it stands for |
| PxfRow.RowReadsBackIff | src/protowire/pxf.py:584-592 | whenever the kinds are known, a body is rendered, and it reads back column by column, absent cells leaving no trace, exactly when the raw texts hold no line feed and do not start like a literal |
| PxfRow.WordsArePlain | src/protowire/pxf.py:604-622 | the reader never takes for a word what could be a literal or more than a line |
| Base64.DecodeEncode | src/protowire/pxf.py:619 | base64 text decodes to the bytes it was made from |
| Base64.EncodePlain | src/protowire/pxf.py:619 | base64 text holds neither a quote nor a line feed |
| Base64.GroupMeans | src/protowire/pxf.py:619 | the characters of a group are the base 64 digits of its 24 bits, high bits first, padded as section 4 of RFC 4648 says |
| Base64.Alphabet | src/protowire/pxf.py:619 | the digits are those of table 1 of RFC 4648 |
| Base64.EncodeConcat | src/protowire/pxf.py:619 | groups of three bytes are encoded one behind the other |
| MarshalDepth.ParsesIff | src/_protowire/module.cc:396-400 | a budget refuses exactly the submessages that nest deeper |
| MarshalDepth.ParsesFieldsIff | src/_protowire/module.cc:396-400 | at the root: a message without submessages is read at any limit, others exactly down to the limit |
| MarshalDepth.PbWithinPxf | src/_protowire/module.cc:391-395 | the bytes nest at most one level deeper than the PXF, for every message tree |
| MarshalDepth.PxfMarshal | src/_protowire/module.cc:382-413 | every verdict by depth and 32-bit limit; below the largest `int` a message is written exactly when its PXF form nests no deeper than the limit given, or than 100 when that is 0 |
| MarshalDepth.EncoderDecidesIff | src/_protowire/module.cc:391-398 | the parse never refuses a message that the encoder would write, if and only if the limit is below the largest `int` |
| MarshalDepth.OverflowRefusesShallow | src/_protowire/module.cc:396-398 | at the largest `int` the increment wraps and a message of PXF depth 1 is refused |
| MarshalDepth.ExtraLevelIsNeeded | src/_protowire/module.cc:391-398 | the bound is met at every depth: with the limit itself the parse would refuse a message the encoder writes |
| MarshalDepth.ChainDepths | tests/test_pxf_marshal_depth.py:88-99 | a repeated field costs two PXF levels an element and one in the bytes, a map value two in both |
| MarshalDepth.LeafDepths | src/_protowire/module.cc:391-395 | what a field without blocks in it costs in the two forms; a literal is a level in the bytes alone |
| MarshalDepth.NodeDepths | src/_protowire/module.cc:391-395 | what a submessage costs in the two forms, by the kind of field it stands in |
| MarshalDepth.DepthsJoin | src/_protowire/module.cc:391-395 | several fields, or several elements, nest as deep as the deepest |
| MarshalDepth.MapChainAtDefault | tests/test_pxf_marshal_depth.py:94-99 | the default limits are 100 for the text and 101 for the parse, which takes fifty nested map values and refuses more |

## Left out

- Error messages: every rejection is the same `ValueError`, so which of two faults is reported first is not modelled.
- `decode` in the three classes runs its loop body in a method `DecodeField`, and the loop over a map entry, which
  stands inline in `AppError.decode`, is the method `DecodeEntry`; the steps and their order are the source's.
- `out.metadata` and the dicts of the walk as hash tables: the metadata dict is its list of entries in insertion
  order, a field that is reassigned; comparing dicts without their order is weaker than what is proved.
- SchemaMethods.BuildFile: looks at names and imports only; protobuf's validation of what a file declares is
  foreign code.
- A Python limit outside 32 bits: the conversion to `int` refuses it before the modelled code runs. Messages and
  file sets of 2 GiB and more, whose size does not fit the `int` it is cast to, are not modelled.
- Serialization of the FileDescriptorSet, protobuf's descriptor pool and messages, nanobind: foreign code. A file
  set is the list of its file protos, of which only name and imports are modelled.
- Import cycles and two files with one name: protobuf rules them out. A file descriptor is an inductive value, and
  the walk's theorems take a set of files closed under import in which names are unique, the build's also that no
  file lists an import twice, which protobuf refuses as well.
- The PXF lexer, parser and encoder, the dataset reader, the SBE codec: they live in protowire-cpp. `unmarshal`,
  to which `bind_row` hands the body, is not part of this model; a small line reader stands in for it.
- PxfRow.RowReadsBackIff: null, true and false read back as the words they are written as, because an ident cell
  with that text is written the same way; columns are taken to be identifiers, as the dataset reader yields them.
- protobuf groups and unknown fields in the depth model; maps and lists of scalars count as non-empty.
- Builders, queries, aliases, `validate_descriptor`, `Result` accessors, scripts and build files: one line each.
