# Hessian2 codec in Dafny

This project models the core of a C++ codec for the Hessian2 binary
serialisation protocol and proves properties of it. Each part of the wire
grammar appears twice:
- a pure function that gives the exact bytes an encoder writes, or what a
  decoder yields for a given input and how many bytes it consumes;
- the encoder and decoder themselves, as methods on the session objects that
  write to a byte sink or read from a byte source.

Each method is proved against its function. Each function is then tied to
its partner by round-trip and shape lemmas.

The modules follow the source files:

- `Bytes` (bytes.dfy): bytes, two's-complement narrowing to a width, and the
  big- and little-endian images of an integer.
- `Writer` (writer.dfy): the append-only `StringWriter` sink (`writer.hpp`,
  `string_writer.hpp`).
- `Reader` (reader.dfy): the `StringReader` source. It is a buffer and a read
  position. A read that finds too few bytes fails, yields zero and does not
  move.
- `Codec` (codec.dfy): the `Decoder` and `Encoder` session classes
  (`codec.hpp`). It covers their reference tables, their lookups, the sizes
  narrowed to 16 bits, and the error texts.
- `CodecFraming` (codec_framing.dfy): the list, map and class-instance
  begin/end tags (`codec.cc`).
- `NumberCodec` (number_codec.dfy): `LeftShift` and the int32 and int64
  compact forms, plus the narrow-type encoders (`number_codec.hpp`).
- `BoolCodec`, `ByteCodec`, `DateCodec`: the bool, binary and date codecs.
  - A date is a count of some `std::chrono` unit.
  - `duration_cast` truncates toward zero.
- `Object` (object.dfy): the decoded value model (`object.hpp`).
  - It is a closed sum of object kinds with the source's directional `equal`
    and its size-based `hash`.
  - The hash primitives are parameters.
  - A reference is an index into the arena of objects built before it.
- `Utf8`, `Utf8Scan` (utf8.dfy, utf8_scan.dfy): the UTF-8 part of
  `string_codec.cc`. This covers:
  - the lead-byte length table;
  - the character-counting scan that records where each 32768-character
    chunk ends;
  - the rewrite of four-byte characters into two three-byte surrogates.
- `StringCodec`, `StringCodecImpl` (string_codec.dfy, string_methods.dfy):
  the chunked string grammar, `finalReadUtf8String`, the mutually recursive
  chunk decoder, and the string encoder.

## Model

| member | source | states |
|---|---|---|
| Bytes.FromBEOfBE | hessian2/string_writer_unittests.cc:159-293 | Reading back the big-endian image of any integer gives that integer reduced to the width (two's complement for negatives). |
| Bytes.SignedFromBE | hessian2/string_writer_unittests.cc:214-239 | A signed value in range survives writing big-endian and reading back as signed. |
| Bytes.BEOfUnsigned | hessian2/string_writer_unittests.cc:163-164 | A signed value and the unsigned value with the same bit pattern write identical bytes. |
| Bytes.LEIsReversedBE | hessian2/string_writer_unittests.cc:77-102 | The little-endian image of a value is the reverse of its big-endian image. |
| Writer.StringWriter.constructor | hessian2/string_writer.hpp:10 | The sink starts as the referenced string. |
| Writer.StringWriter.RawWrite | hessian2/string_writer.hpp:12-15 | Appends exactly the first `size` bytes of the source and changes nothing else. |
| Writer.StringWriter.RawWriteView | hessian2/string_writer.hpp:16-18 | Appends exactly the bytes of the view. |
| Writer.StringWriter.WriteByte | hessian2/writer.hpp:15-20 | Appends one byte, the value reduced modulo 256. |
| Writer.StringWriter.Write | hessian2/writer.hpp:22-27 | Appends the width bytes of the value in the byte order asked for. |
| Writer.StringWriter.WriteLE | hessian2/writer.hpp:29-32 | Appends the value's bytes, least significant first. |
| Writer.StringWriter.WriteBE | hessian2/writer.hpp:34-36 | Appends the value's bytes, most significant first. |
| Writer.SignedByteImages | hessian2/string_writer_unittests.cc:10-20 | The bytes -128, -1, 0, 1 and 127 are written as 80 FF 00 01 7F. |
| Writer.Int16MinImage | hessian2/string_writer_unittests.cc:159-165 | int16 min and uint16 32768 are both 80 00 big-endian; int16 min is 00 80 little-endian. |
| Writer.Int32Images | hessian2/string_writer_unittests.cc:214-239 | Example int32 images in both byte orders, including -1 as FF FF FF FF. |
| Reader.StringReader.constructor | hessian2/string_reader.hpp:10 | A reader starts at offset 0 of its buffer. |
| Reader.StringReader.ByteAvailable | hessian2/string_reader.hpp:15-20 | The bytes available are exactly the unread rest of the buffer: its length (line 20) less the read offset. `ByteAvailable` itself belongs to the `Reader` base class, whose behaviour is assumed (see "Left out"). |
| Reader.StringReader.Read | hessian2/basic_codec/byte_codec.hpp:36 | Reading a byte succeeds iff one is available. It then yields that byte and advances by one; otherwise it yields 0 and does not move. |
| Reader.StringReader.ReadBE | hessian2/basic_codec/byte_codec.hpp:70 | Reading a big-endian unsigned value succeeds iff enough bytes are available; it yields their value and advances past them. |
| Reader.StringReader.ReadSignedBE | hessian2/basic_codec/date_codec.hpp:24-25 | As `ReadBE`, with the value read as two's complement. |
| Reader.StringReader.ReadNBytes | hessian2/string_reader.hpp:13-19 | Copies exactly the next `len` bytes and leaves the rest unread. |
| Codec.DecodeErrorText | hessian2/codec.hpp:94-104 | Only NO_ERROR has the empty text, and no error text starts with a position. |
| Codec.ErrorMessage | hessian2/codec.hpp:71-76 | As written, the message carries the "pos:" prefix exactly when the error position is 0. |
| Codec.ErrorMessageIntended | hessian2/codec.hpp:71-76 | The corrected message carries the prefix exactly when the position is not 0, and always ends with the error text. |
| Codec.ErrorMessagePositionInverted | hessian2/codec.hpp:71-76 | Shows the inversion: an error at position 7 has no position, while no error at position 0 gets "pos: 0, ". The corrected message does the reverse. |
| Codec.IndexOf | hessian2/codec.hpp:147-154 | Finds the first stored definition equal to the argument, or reports that none is equal. |
| Codec.Lookup | hessian2/codec.hpp:139-145 | A table lookup gives -1 for a missing key and the stored index (narrowed to int16) for a present one; a non-negative result is always a stored index. |
| Codec.Decoder.constructor | hessian2/codec.hpp:57-58 | A new decoder reads its input from offset 0, with empty tables and no error. |
| Codec.Decoder.FromReader | hessian2/codec.hpp:59 | A decoder over a given reader starts with empty tables and no error. |
| Codec.Decoder.GetTypeRefSize | hessian2/codec.hpp:68 | The type table size is narrowed to 16 bits, and is exact below 65536. |
| Codec.Decoder.GetDefRefSize | hessian2/codec.hpp:69 | The definition table size is narrowed to 16 bits, and is exact below 65536. |
| Codec.Decoder.GetErrorMessage | hessian2/codec.hpp:71-76 | The decoder's message has the position prefix exactly when its error position is 0 (as written). |
| Codec.Encoder.constructor | hessian2/codec.hpp:114-115 | A new encoder writes to its output, with empty tables and no error. |
| Codec.Encoder.FromWriter | hessian2/codec.hpp:116 | An encoder over a given writer starts with empty tables and no error. |
| Codec.Encoder.GetTypeRefSize | hessian2/codec.hpp:135 | The type table size is narrowed to 16 bits, and is exact below 65536. |
| Codec.Encoder.GetDefRefSize | hessian2/codec.hpp:136 | The definition table size is narrowed to 16 bits, and is exact below 65536. |
| Codec.Encoder.GetValueRefSize | hessian2/codec.hpp:137 | The value table size is narrowed to 16 bits, and is exact below 65536. |
| Codec.Encoder.GetTypeRef | hessian2/codec.hpp:139-145 | -1 for a type name never stored; otherwise its stored index. |
| Codec.Encoder.GetDefRef | hessian2/codec.hpp:147-154 | The loop returns -1 when no stored definition is equal, and otherwise the index of the first equal one (narrowed to int16). It changes no state. It is callable whenever the 16-bit counter cannot wrap: fewer than 65536 definitions, or an equal one below index 65536. |
| Codec.Encoder.GetValueRef | hessian2/codec.hpp:156-162 | Matches by object identity only: -1 for an object never stored, otherwise its stored index. |
| Codec.Encoder.GetErrorMessage | hessian2/codec.hpp:165-178 | The encoder's only error code has the empty message. |
| Codec.DefRefFoundIffEarly | hessian2/codec.hpp:147-154 | A definition gets a non-negative reference exactly when it is stored within the first 32768 entries. |
| CodecFraming.Narrow32 | hessian2/codec.cc:26-28 | A list length below 2^31 is passed to the int32 encoder unchanged; a larger one wraps to a negative int32. |
| CodecFraming.BeginTagsIdentifyFrame | hessian2/codec.cc:8-45 | The first byte of each begin form names the container it opens, and the end tag opens none. |
| CodecFraming.FixedListLengthRoundTrip | hessian2/codec.cc:14-29 | Reading a fixed-list header after its type reference gives back the length: exact below 2^31, and carried in the tag for at most 7 elements. The type reference is present exactly for a non-empty type. |
| CodecFraming.MapBeginForm | hessian2/codec.cc:35-43 | A map header is 'H' alone iff the type is empty; otherwise it is 'M' followed by the type reference. |
| CodecFraming.EncodeVarListBegin | hessian2/codec.cc:8-10 | Writes exactly 0x57, whatever the type. |
| CodecFraming.EncodeVarListEnd | hessian2/codec.cc:12 | Writes exactly 'Z'. |
| CodecFraming.EncodeFixedListBegin | hessian2/codec.cc:14-29 | Writes the compact tag or 'V', then the type reference if the type is not empty, then the int32 length for more than 7 elements. |
| CodecFraming.EncodeMapBegin | hessian2/codec.cc:35-43 | Writes 'H' for an untyped map, or 'M' and the type reference. |
| CodecFraming.EncodeMapEnd | hessian2/codec.cc:45 | Writes exactly 'Z'. |
| CodecFraming.EncodeClassInstanceBegin | hessian2/codec.cc:47-49 | Writes only the encoded definition. |
| NumberCodec.LeftShift | hessian2/basic_codec/number_codec.hpp:10-19 | The shifted value always fits the target width. |
| NumberCodec.LeftShiftIsMultiplication | hessian2/basic_codec/number_codec.hpp:10-19 | For negative and non-negative operands alike, the shift is multiplication by a power of two whenever the product fits. |
| NumberCodec.LeftShiftOfMinimum | hessian2/basic_codec/number_codec.hpp:10-19 | For -128 the int8 negation wraps, so a 16-bit shift gives +2^23 instead of -2^23. |
| NumberCodec.Int32Forms | hessian2/basic_codec/number_codec.hpp:216-238 | The int32 form is chosen by range ([-16,47], [-2048,2047], [-262144,262143], else 'I'), and the lead byte announces the form's length. |
| NumberCodec.Int32DecodingShape | hessian2/basic_codec/number_codec.hpp:150-209 | int32 decoding succeeds exactly when the lead byte starts a form that is fully present. It then consumes that form and yields an int32; otherwise it yields null. |
| NumberCodec.Int32RoundTrip | hessian2/basic_codec/number_codec.hpp:150-238 | Every int32 decodes back from its encoding, whatever follows, and decoding stops at its end. |
| NumberCodec.EncodeInt32 | hessian2/basic_codec/number_codec.hpp:216-238 | Appends exactly the int32 form of the value and returns true. |
| NumberCodec.DecodeInt32 | hessian2/basic_codec/number_codec.hpp:150-209 | Yields what int32 decoding of the unread input gives and advances past exactly the bytes it consumes. |
| NumberCodec.Int64Forms | hessian2/basic_codec/number_codec.hpp:344-373 | The int64 form is chosen by range ([-8,15], [-2048,2047], [-262144,262143], int32, else 'L'), and the lead byte announces the form's length. |
| NumberCodec.Int64DecodingShape | hessian2/basic_codec/number_codec.hpp:250-336 | int64 decoding succeeds exactly when the lead byte starts a form that is fully present. It then consumes that form and yields an int64; otherwise it yields null. |
| NumberCodec.Int64RoundTrip | hessian2/basic_codec/number_codec.hpp:250-373 | Every int64 decodes back from its encoding, whatever follows, and decoding stops at its end. |
| NumberCodec.EncodeInt64 | hessian2/basic_codec/number_codec.hpp:344-373 | Appends exactly the int64 form of the value and returns true. |
| NumberCodec.DecodeInt64 | hessian2/basic_codec/number_codec.hpp:250-336 | Yields what int64 decoding of the unread input gives and advances past exactly the bytes it consumes. |
| NumberCodec.EncodeInt8 | hessian2/basic_codec/number_codec.hpp:375-378 | An int8 is written exactly as its int32 value. |
| NumberCodec.EncodeInt16 | hessian2/basic_codec/number_codec.hpp:380-383 | An int16 is written exactly as its int32 value. |
| NumberCodec.EncodeUint8 | hessian2/basic_codec/number_codec.hpp:385-388 | A uint8 is written exactly as its int32 value. |
| NumberCodec.EncodeUint16 | hessian2/basic_codec/number_codec.hpp:390-393 | A uint16 is written exactly as its int32 value. |
| NumberCodec.EncodeUint32 | hessian2/basic_codec/number_codec.hpp:395-398 | A uint32 is written exactly as its int64 value. |
| NumberCodec.IntegerFormExamples | hessian2/basic_codec/number_codec.hpp:216-238 | Boundary examples of each form, among them 10 as 0x9a and 0x40000 as the int64 0x59 form. |
| BoolCodec.BoolRoundTrip | hessian2/basic_codec/bool_codec.hpp:16-41 | A bool is one byte and decodes back to itself. |
| BoolCodec.BoolDecodingShape | hessian2/basic_codec/bool_codec.hpp:16-26 | Decoding succeeds exactly on 'F' or 'T', and that byte is the encoding of the result. |
| BoolCodec.DecodeBool | hessian2/basic_codec/bool_codec.hpp:16-27 | Yields the bool the lead byte names. On any other byte it yields null and records UNEXPECTED_TYPE at the offset after it; on success it leaves the error fields alone. |
| BoolCodec.EncodeBool | hessian2/basic_codec/bool_codec.hpp:32-41 | Appends 'T' for true and 'F' for false, and returns true. |
| ByteCodec.DecodeBytes | hessian2/basic_codec/byte_codec.hpp:35-85 | Binary decoding never reads past the input. |
| ByteCodec.ReadBytesShape | hessian2/basic_codec/byte_codec.hpp:128-143 | A zero-length chunk succeeds at once. A chunk longer than the input fails. Otherwise the chunk's bytes are appended, and the read ends if it is the last chunk. |
| ByteCodec.EmptyChunkEndsData | hessian2/basic_codec/byte_codec.hpp:76-82 | A non-final chunk of length 0 ends decoding successfully after its 3 bytes. |
| ByteCodec.UnknownLeadFails | hessian2/basic_codec/byte_codec.hpp:83-84 | Any lead byte outside the binary forms fails after one byte. |
| ByteCodec.BinaryForms | hessian2/basic_codec/byte_codec.hpp:95-124 | Fewer than 16 bytes get one lead byte 0x20+size, and up to 1023 get a 0x34-0x37 header. Longer data starts with a 0x41 chunk, and exactly 1024 bytes are a single 0x42 chunk. |
| ByteCodec.LastChunkNotEmpty | hessian2/basic_codec/byte_codec.hpp:109-124 | Chunked data ends with one 0x42 chunk of 1 to 1024 bytes. |
| ByteCodec.BinaryRoundTrip | hessian2/basic_codec/byte_codec.hpp:26-126 | Every byte sequence decodes back from its encoding, whatever follows, and decoding stops at its end. |
| ByteCodec.ChunksRoundTrip | hessian2/basic_codec/byte_codec.hpp:109-124 | The chunked form of any non-empty data decodes back to the data. |
| ByteCodec.DecodeBytesWithReader | hessian2/basic_codec/byte_codec.hpp:35-85 | Succeeds, appends and advances exactly as binary decoding of the unread input says. |
| ByteCodec.ReadBytes | hessian2/basic_codec/byte_codec.hpp:128-143 | Succeeds, appends and advances exactly as the chunk read says. Earlier output is kept. |
| ByteCodec.DecodeBinary | hessian2/basic_codec/byte_codec.hpp:26-33 | Yields the decoded bytes, or null when binary decoding fails. |
| ByteCodec.WriteChunk | hessian2/basic_codec/byte_codec.hpp:111-115 | Appends a chunk: its tag, its 16-bit length and its bytes. |
| ByteCodec.EncodeBinary | hessian2/basic_codec/byte_codec.hpp:92-126 | The loop appends exactly the binary form of the data and returns true. |
| DateCodec.TruncDivBounds | hessian2/basic_codec/date_codec.hpp:41-44 | C++ division truncates toward zero, and it is exact iff the remainder is 0. |
| DateCodec.CastThroughMilliseconds | hessian2/basic_codec/date_codec.hpp:41-44 | Casting a count to milliseconds is exact, and casting it back gives the count. |
| DateCodec.MinuteCasts | hessian2/basic_codec/date_codec.hpp:24-31 | Milliseconds cast to minutes truncate toward zero; minutes cast to milliseconds multiply by 60000. |
| DateCodec.DateForms | hessian2/basic_codec/date_codec.hpp:41-51 | The minutes form is written exactly when the value is a whole number of minutes, so always for minutes, hours, days and weeks. The form is 5 or 9 bytes. |
| DateCodec.DateBytesAgree | hessian2/basic_codec/date_codec.hpp:45-47 | The form as written and the intended form differ exactly when a whole number of minutes does not fit in int32. |
| DateCodec.DateDecodingShape | hessian2/basic_codec/date_codec.hpp:18-33 | Decoding succeeds exactly on 0x4b with 4 more bytes or 0x4a with 8 more, and never reads past the form. |
| DateCodec.MillisecondsFormRead | hessian2/basic_codec/date_codec.hpp:30-31 | The milliseconds form reads back its int64 count. |
| DateCodec.MinutesFormRead | hessian2/basic_codec/date_codec.hpp:24-25 | The minutes form reads back its count narrowed to int32. |
| DateCodec.DateRoundTrip | hessian2/basic_codec/date_codec.hpp:16-51 | As written, a date decodes back to itself in its own unit whenever a whole number of minutes fits in int32. |
| DateCodec.DateRoundTripIntended | hessian2/basic_codec/date_codec.hpp:16-51 | With the corrected choice, every date whose milliseconds fit in int64 decodes back to itself. |
| DateCodec.MinutesOverflow | hessian2/basic_codec/date_codec.hpp:45-47 | As written, 2^31 minutes is encoded in the minutes form and decodes as -2^31. |
| DateCodec.HoursOverflow | hessian2/basic_codec/date_codec.hpp:45-47 | As written, `writeDate` for 35791395 hours, 2147483700 whole minutes, takes the minutes form 4b 80 00 00 34, which reads back as -35791393 hours. |
| DateCodec.MinutesOverflowIntended | hessian2/basic_codec/date_codec.hpp:45-47 | With the correction, 2^31 minutes takes the milliseconds form and decodes back. |
| DateCodec.DecodeDate | hessian2/basic_codec/date_codec.hpp:16-34 | Yields what date decoding of the unread input gives, in the unit asked for, and advances past exactly the bytes it consumes. |
| DateCodec.WriteDate | hessian2/basic_codec/date_codec.hpp:37-52 | Appends exactly the date form chosen for the value. |
| DateCodec.EncodeMinutes | hessian2/basic_codec/date_codec.cc:51-56 | Appends 0x4b and the count as int32 (the minutes form) and returns true. |
| DateCodec.EncodeMilliseconds | hessian2/basic_codec/date_codec.cc:58-68 | Takes the minutes form for whole minutes and 0x4a with the int64 count otherwise; returns true. |
| DateCodec.EncodeDate | hessian2/basic_codec/date_codec.cc:70-102 | Every other unit writes the date form of its value and returns true. |
| Object.Find | hessian2/object.hpp:146-148 | A map lookup finds the first entry whose key equals the probe, or reports that no key does. |
| Object.EqualLeafKinds | hessian2/object.hpp:296-364 | Objects of different types are never equal. For null, the scalars, binary, string and references, `equal` holds exactly between identical values; references are identical when they share a target. |
| Object.RefHashIsTargetHash | hessian2/object.hpp:365 | A reference hashes as its target. |
| Object.DefinitionEqualityAndHash | hessian2/object.hpp:50-77 | Definitions are equal iff their type and field names are; equal definitions hash alike. |
| Object.ClassInstanceEquality | hessian2/object.hpp:102-117 | Class instances are equal iff their definitions are equal, their data have the same length, and their fields are pairwise equal. |
| Object.EqualImpliesSameHash | hessian2/object.hpp:118-123 | Except for typed maps, equal objects hash alike. This covers lists, maps, class instances and references. |
| Object.ListGet | hessian2/object.hpp:571-576 | `get` finds an element exactly for an index below the size, and that element is the one at the index. |
| Object.EmplaceBack | hessian2/object.hpp:561-564 | Appending keeps a list a list of the same kind and type. |
| Object.SetType | hessian2/object.hpp:629 | Setting the type of a typed list gives it that type. |
| Object.EmplaceBackThenGet | hessian2/object.hpp:611-627 | After appending, the new element is at the old size, earlier elements are unchanged, and the next index is still absent. |
| Object.SetTypeKeepsElements | hessian2/object.hpp:629 | Setting the type leaves every element in place. |
| Object.MapEmplace | hessian2/object.hpp:660-663 | Emplacing keeps a map a map of the same kind. |
| Object.MapGetFindsStringKey | hessian2/object.hpp:763-770 | `get` by name finds a value exactly when some entry has that string key, and that entry holds the value found. |
| Object.EmplaceThenGet | hessian2/object.hpp:753-779 | Emplacing under a new string key makes `get` find the value. An existing key keeps its old value. |
| Object.UntypedMapEqualIgnoresOrder | hessian2/object.hpp:712-733 | Untyped-map equality does not depend on the order of either map's entries. |
| Object.TypedMapEqualIsOneSided | hessian2/object.hpp:136-157 | As written, a typed map with one more entry equals the smaller map but not the reverse, and the two hash differently. |
| Object.TypedMapEqualIntended | hessian2/object.hpp:136-157 | Typed-map equality with the sizes of both maps compared implies equality as written. |
| Object.TypedMapIntendedKeepsHash | hessian2/object.hpp:645-649 | With the sizes compared, equal typed maps hash alike, and the one-sided example is no longer equal. |
| Object.TypedMapSameHash | hessian2/object.hpp:645-649 | Typed maps of the same type and size hash alike, whatever their entries. |
| Object.TypedMapSameHashNotEqual | hessian2/object_unittests.cc:300-348 | Two one-entry typed maps whose values differ hash alike but are not equal. |
| Object.UntypedListExample | hessian2/object_unittests.cc:199-237 | A list equals a list with the same elements and hashes like it; a shorter list is not equal. |
| Object.ClassInstanceExample | hessian2/object_unittests.cc:349-376 | Instances of one definition are equal; a different type name makes them unequal. |
| Utf8.CharLengthTable | hessian2/basic_codec/string_codec.cc:27-29 | The table entry at `code >> 3` is the character length of the lead byte: 1, 2, 3 or 4, and 0 for an invalid lead. |
| Utf8.LooseCount | hessian2/basic_codec/string_codec.cc:146-165 | The loose count never counts more characters than bytes. It reaches at least the end of the bytes given, counts at least one character when there are bytes, and fails on an invalid lead byte. |
| Utf8.SurrogateLeads | hessian2/basic_codec/string_codec.cc:108-126 | Both halves of a surrogate pair are three-byte characters. |
| Utf8.SurrogatesInverse | hessian2/basic_codec/string_codec.cc:96-126 | The code point is recovered from the six bytes its surrogate pair is written as. |
| Utf8.RewriteCopies | hessian2/basic_codec/string_codec.cc:128-134 | Text without four-byte characters is copied unchanged. |
| Utf8.RewrittenLength | hessian2/basic_codec/string_codec.cc:85-135 | The rewritten text is two bytes longer per four-byte character. |
| Utf8.RewrittenCount | hessian2/basic_codec/string_codec.cc:120-126 | The rewritten text has no four-byte characters and one more character per four-byte character of the input. |
| Utf8.StaticPairRepeats | hessian2/basic_codec/string_codec.cc:108-110 | With the pair computed once and kept, a second different astral character is written as the first one's surrogates. |
| Utf8Scan.ChunkEndsShape | hessian2/basic_codec/string_codec.cc:36-80 | The recorded chunk ends increase strictly. There is one per started chunk of 32768 characters, and the last is the end of the text. |
| Utf8Scan.Utf8StringLength | hessian2/basic_codec/string_codec.cc:36-80 | The scan loop returns -1 exactly for text with an invalid lead byte or a cut-off character. Otherwise it returns the character count, the chunk ends and the four-byte character offsets. |
| Utf8Scan.RewriteUtf8 | hessian2/basic_codec/string_codec.cc:85-135 | The loop produces the rewrite of the text, or "" when a four-byte character is outside U+10000 to U+10FFFF. |
| Utf8Scan.Utf8LengthLoose | hessian2/basic_codec/string_codec.cc:146-165 | The loop returns -1 exactly on an invalid lead byte. Otherwise it returns the loose character count and the bytes those characters span. |
| StringCodec.FinalReadExact | hessian2/basic_codec/string_codec.cc:169-206 | Reading `length` characters succeeds iff the input starts with that many whole characters with valid lead bytes. It then yields and consumes exactly their bytes. |
| StringCodec.FinalReadStep | hessian2/basic_codec/string_codec.cc:180-204 | Each round lowers the characters still missing by between 1 and all of them. |
| StringCodec.UnknownLeadFails | hessian2/basic_codec/string_codec.cc:285 | Any lead byte outside the string headers fails after one byte. |
| StringCodec.EmptyChunkContinues | hessian2/basic_codec/string_codec.cc:276-300 | An empty non-final chunk is skipped and decoding goes on with the next header. |
| StringCodec.FinalHeaderRead | hessian2/basic_codec/string_codec.cc:211-275 | Every final-chunk header the encoder writes is decoded as a final chunk of that many characters. |
| StringCodec.StringViewValid | hessian2/basic_codec/string_codec.cc:323-349 | The text that is chunked has valid lead bytes and no four-byte characters. It has one more character and two more bytes per four-byte character of the input. |
| StringCodec.StringBytes | hessian2/basic_codec/string_codec.cc:318-392 | The corrected encoding, with line 374 (and 384, 390) fixed so the last chunk holds all remaining bytes of the chunked text. It fails exactly on invalid text or an astral character out of range. |
| StringCodec.StringBytesAsWritten | hessian2/basic_codec/string_codec.cc:370-391 | As written, encoding fails on exactly the same inputs as the corrected encoding. |
| StringCodec.ChunksAsWrittenAgree | hessian2/basic_codec/string_codec.cc:355-391 | When the caller's string is the chunked text, the chunks as written are the intended ones. |
| StringCodec.AsWrittenWithoutFours | hessian2/basic_codec/string_codec.cc:318-392 | For text without four-byte characters, the encoding as written is the corrected one. |
| StringCodec.ChunksRoundTrip | hessian2/basic_codec/string_codec.cc:211-300 | The chunks of any valid text decode back to it, whatever follows, and decoding stops at their end. |
| StringCodec.AsWrittenRoundTrip | hessian2/basic_codec/string_codec.cc:211-392 | What the encoder writes as the code stands decodes back to the input itself, whatever follows, for input without four-byte characters. |
| StringCodec.StringRoundTrip | hessian2/basic_codec/string_codec.cc:211-392 | Whatever an encoding succeeds on decodes back to the chunked text: the input itself, or its rewrite when it has four-byte characters. |
| StringCodec.SlicedLastChunk | hessian2/basic_codec/string_codec.cc:374 | As written, one astral character has its last chunk cut to 4 of its 6 bytes, and the output does not decode. The corrected output decodes to the surrogates. |
| StringCodec.EmptyStringBytes | hessian2/basic_codec/string_codec.cc:364-368 | The empty string is the single byte 0x00. |
| StringCodec.FinalHeaderBounds | hessian2/basic_codec/string_codec.cc:370-391 | The header boundaries: 31 in one byte, 32 and 1023 with 0x30-0x33, 1024 and 32768 with 'S'. |
| StringCodec.FullChunkIsLast | hessian2/basic_codec/string_codec.cc:355-391 | 32768 characters are one 'S' chunk. |
| StringCodec.OneOverFullChunk | hessian2/basic_codec/string_codec.cc:355-391 | 32769 characters are a 0x52 chunk of 32768 and a one-character final chunk 0x01. |
| StringCodecImpl.FinalReadUtf8 | hessian2/basic_codec/string_codec.cc:169-206 | The read loop appends what `FinalRead` yields and consumes its bytes; it fails exactly when `FinalRead` does. |
| StringCodecImpl.DecodeStringWithReader | hessian2/basic_codec/string_codec.cc:211-286 | Succeeds, appends and advances exactly as string decoding of the unread input says. |
| StringCodecImpl.ReadChunkString | hessian2/basic_codec/string_codec.cc:288-300 | Reads the chunk's characters, then the next chunk unless this one is last, as the chunk read says. |
| StringCodecImpl.DecodeString | hessian2/basic_codec/string_codec.cc:304-311 | Yields the decoded string, or null when string decoding fails, and advances past what it consumes. |
| StringCodecImpl.WriteChunks | hessian2/basic_codec/string_codec.cc:353-391 | The chunk loop appends exactly the chunks as written, using the chunk ends the scan recorded: the last chunk is cut to the caller's byte size less the offset reached. |
| StringCodecImpl.EncodeString | hessian2/basic_codec/string_codec.cc:318-392 | Returns true exactly when the text can be encoded, and then appends the encoding as written; on false it writes nothing. Without four-byte characters that is the corrected encoding, which decodes back (`StringCodec.AsWrittenRoundTrip`). |

## Left out

- Double codec (`number_codec.hpp` double part) and `DoubleObject`: floating point, which has no faithful model here.
- Concrete hash values: `std::hash` and `Utils::hashCombine` are parameters of the model (the `Hashers` record). Every property holds for any choice of them.
- `BinaryObject::hash` caches its first result in a process-wide `static`. The model hashes each object on its own.
- `toDebugString`, `asType`, the iterators and the `to*`/`toMutable*` accessors: formatting and casts with no codec behaviour.
- The object mutators `emplace_back`, `emplace`, `setType` and `set*` are modelled as functions that return the updated value. Update in place and aliasing through shared object pointers are not captured.
- The `Reader` base class (`reader.hpp`) is not part of this model. Its reads are assumed to behave as `Reader.StringReader` does: a short read yields 0 and does not move.
- `from_hessian`/`to_hessian` dispatch, the generic `Object` codec, and the type-reference and definition encoders (`type_ref_codec.hpp`, `def_ref_codec.hpp`) are not part of this model. Where the framing calls them, the bytes they write are a parameter, and their table updates are not modelled.
- `encodeFixedListEnd` and `encodeClassInstanceEnd` write nothing and change nothing, so they have no model.
- Object.Find: `unordered_map::find` first picks a bucket by `ObjectHasher` and only then compares keys with `equal`. The model searches all entries in order. For typed-map keys, which can be `equal` without hashing alike (`Object.TypedMapEqualIsOneSided`), the model can find an entry the source would miss; this affects `Object.MapGet`, `Object.MapEmplace` and map equality.
- UTF-8 continuation bytes are not validated, because the source checks only lead bytes. The model claims validity by lead bytes only.
- `encode<std::string>` forwards to `encode<absl::string_view>` and is modelled by `StringCodecImpl.EncodeString`.
- Utf8.RewrittenFrom: the source keeps the surrogate pair of the first astral character in a `static` and reuses it. The model computes the pair per character, and `Utf8.StaticPairRepeats` shows the difference.
- StringCodecImpl.EncodeString: the recount of the chunked text, which cannot fail, is kept as a branch. A case of `StringCodec.Chunks` that valid text cannot reach yields an empty chunk.
- StringCodecImpl.WriteChunks: `str_offset` is a `uint32_t` in the source, so a chunk offset of 2^32 or more would be truncated. The model keeps offsets unbounded and does not capture that.
- StringCodec.ChunksAsWrittenAgree, StringCodec.AsWrittenWithoutFours and StringCodec.AsWrittenRoundTrip assume an input shorter than 2^64 bytes, as any `size_t` size is.
- The helpers `StringCodecImpl.ReadRound`, `WriteNonFinalChunk`, `WriteFinalHeader` and `WriteLastChunk` name inline steps of the source. The chunk lemmas are stated for any chunk size; the encoder uses 32768.
- StringCodecImpl.DecodeStringWithReader: on failure, the bytes already appended to the output are not specified. (`ByteCodec.DecodeBytesWithReader` specifies them in every case.)
- NumberCodec.LeftShiftIsMultiplication excludes -128, for which the int8 negation wraps (`NumberCodec.LeftShiftOfMinimum`). The decoders never pass -128.
- CodecFraming.Narrow32: a list length of 2^31 or more is written as a negative int32, as the implicit conversion does. Its read-back is stated as that negative value.
- Codec.Encoder.GetDefRef requires fewer than 65536 stored definitions, or an equal definition stored below index 65536. Otherwise the source's 16-bit loop counter wraps and the loop never ends.
- Date durations are unbounded integers. The int64 overflow of `count * period` in `duration_cast` is not modelled: the round-trip lemmas require the milliseconds to fit in int64. Months and years use the Gregorian average periods of `std::chrono`.

## Findings

| source | as written | input that shows it | evidently intended | confidence | as-written member | corrected member |
|---|---|---|---|---|---|---|
| hessian2/basic_codec/string_codec.cc:374 | The last chunk is `data_view.substr(str_offset, data.size() - str_offset)`, measured with the caller's string, not the rewritten view (also lines 384 and 390) | The one astral character F0 9F 98 80 is written as 02 ED A0 BD ED, four of its six rewritten bytes, which does not decode | The last chunk holds all remaining bytes of the rewritten view | not executed | StringCodec.SlicedLastChunk | StringCodec.StringRoundTrip |
| hessian2/object.hpp:141-142 | The typed-map size check compares the other map's size with itself | A typed map with one entry equals an empty map of the same type, but not the reverse | Both sizes are compared, so equality is symmetric in size and equal maps hash alike | not executed | Object.TypedMapEqualIsOneSided | Object.TypedMapIntendedKeepsHash |
| hessian2/codec.hpp:71-76 | The "pos:" prefix is added when `error_pos_` is 0 | An UNEXPECTED_TYPE error at position 7 gives "Unexpected type"; no error at position 0 gives "pos: 0, " | The prefix appears when there is a position | not executed | Codec.ErrorMessagePositionInverted | Codec.ErrorMessageIntended |
| hessian2/basic_codec/date_codec.hpp:45-47 | The minutes form is chosen for any whole number of minutes, then narrowed to int32 | 35791395 hours (2147483700 minutes) are written as 4b 80 00 00 34 and decode as -35791393 hours | The minutes form only when the minutes fit in int32, else the milliseconds form | not executed | DateCodec.HoursOverflow | DateCodec.DateRoundTripIntended |
| hessian2/basic_codec/string_codec.cc:108-110 | The surrogate pair is a `static`, computed for the first astral character only | F0 9F 98 80 F0 9F 98 81 is rewritten as the surrogates of U+1F600 twice | Each astral character gets its own pair | not executed | Utf8.StaticPairRepeats | Utf8Scan.RewriteUtf8 |
