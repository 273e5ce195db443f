# GHDF version 1 in Dafny

GHDF is a binary document format from the GHDF-Java library. A document is a
*compound*: a map from non-zero `int` ids to values. A value is a scalar of one
of thirteen kinds, an array of one of those kinds, or a nested compound. A
document starts with a 16-byte signature and a version. Each entry is written
as a varint id, a one-byte type tag and a payload.

The project models the four pieces of the version-1 implementation:

- `type_tags.dfy` (`TypeTags`): the 26 `GHDFType` constants. Each byte is a kind
  code 1..13, with bit 7 set on the array twins. This file also holds
  `ByteToEnum`, `GetByteData`, `GetOnlyType` and `IsArray`.
- `compounds.dfy` (`Compounds`):
  - the `Value` and `Doc` datatypes;
  - type inference from a value's shape (`GHDFEntry`);
  - `VerifyID`;
  - the class `GHDFCompound`, whose `entries` map is updated in place by
    `SetEntry`, `RemoveEntry` and `Clear` and read by the accessors.
- `writer.dfy` (`WriterV1`):
  - reference functions (`Varint`, `EncodeFixed`, `EncodeCompound`,
    `EncodeEntry`, `Document`, …) stating the bytes each `Write*` emits;
  - methods with the source's loops (`Write7BitEncodedInt`, the array writers
    over an `array<byte>` buffer, the `WriteCompound` loop, `Write`), each
    proved equal to its reference function;
  - `ChangeExtensionToGHDF`.
- `reader.dfy` (`ReaderV1`):
  - a `ByteBuffer` class with a position that every `get` advances;
  - the `Read*` methods with their loops;
  - one parse function per method (`ParseVarint`, `ParseCompound`,
    `ParseEntry`, `ParseDocument`, …) that states what the method returns and
    where it leaves the position.

The properties are proved in three modules:

- `roundtrip.dfy` (`RoundTrip`): every payload the writer emits is read back by
  the reader its tag selects. `ReadCompound` over `WriteCompound`'s bytes returns
  the same map and consumes exactly those bytes.
- `truncation.dfy` (`Truncation`): the reader looks at no byte past where a read
  stops. So every proper prefix of an accepted document fails with the
  underflow, and appended bytes fail with the trailing-data error.
- `findings.dfy` (`Findings`): the two places where the writer and the reader
  disagree, each as written and corrected.

`bytes.dfy` holds two's-complement views, little-endian words and bit
arithmetic. `wrappers.dfy` holds `Option`, `Result` and `Outcome`.
`ghdf_constants.dfy` holds the signature, the version and the extension.
`compounds.dfy` also declares `MAX_LENGTH`, the largest Java length.

Modelling choices:

- Java's fixed-width integers are subset types of `int`: `int8` … `int64`,
  `uint32`, `uint64` and `byte`.
- A float or double is its IEEE bit pattern.
- A string is its UTF-8 bytes.
- Shifts and masks are written arithmetically. The reader's `int` accumulator
  keeps Java's `% 32` shift masking and 32-bit wrap-around.
- The writer goes through a `HashMap`, whose iteration order is not specified.
  The model fixes ascending id order (`SortedIds`).
- The writer sizes the buffer of a short, int, long, float or double array as
  the `int` product `width * length`, which wraps past 2^31 - 1. The model
  keeps the wrap (`BufferSize`). It also keeps the two unchecked exceptions
  that follow, as errors that `WriteCompound`'s catch does not wrap.

The writer and the reader disagree on the version. `VerifyVersion` reads a
4-byte little-endian `int` (GHDFReaderVersion1.java:299). `WriteMetadata`
writes the one-byte varint 0x01 (GHDFWriterVersion1.java:127). The model
follows the code on both sides; see Findings.

## Model

| member | source | states |
|---|---|---|
| TypeTags.GetByteData | src/sus/keiger/ghdf/GHDFType.java:5-30 | every constant's byte has a kind code 1..13 in its low seven bits, and bit 7 is set exactly on the array constants |
| TypeTags.ByteToEnum | src/sus/keiger/ghdf/GHDFType.java:49-90 | a byte is accepted exactly when its low seven bits are 1..13, whether bit 7 is set or not; the constant returned has that byte; any other byte fails with the invalid-type error carrying the byte |
| TypeTags.ArraySwitch | src/sus/keiger/ghdf/GHDFType.java:51-71 | the array switch defines codes 1..13 and only those, each as an array constant with that kind code |
| TypeTags.ScalarSwitch | src/sus/keiger/ghdf/GHDFType.java:73-89 | the scalar switch defines codes 1..13 and only those, each as a scalar constant with that kind code |
| TypeTags.GetOnlyType | src/sus/keiger/ghdf/GHDFType.java:94-97 | the kind code, 1..13, shared by a scalar and its array twin |
| TypeTags.IsArray | src/sus/keiger/ghdf/GHDFType.java:99-102 | true exactly for the array constants |
| TypeTags.ByteToEnumRoundTrip | src/sus/keiger/ghdf/GHDFType.java:42-45 | decoding a constant's byte gives back the constant, for all 26 |
| TypeTags.GetByteDataInjective | src/sus/keiger/ghdf/GHDFType.java:5-30 | no two constants share a byte |
| TypeTags.ByteToEnumParts | src/sus/keiger/ghdf/GHDFType.java:49-90 | a decoded byte gives an array constant exactly when bit 7 is set, and its kind code is the low seven bits |
| TypeTags.SignedTwinKind | src/sus/keiger/ghdf/GHDFType.java:5-30 | the signed twin of a constant is never unsigned, is an array exactly when the constant is, and has the next kind code when the constant is unsigned |
| Compounds.InferType | src/sus/keiger/ghdf/GHDFCompound.java:125-204 | the `instanceof` chain never yields an unsigned kind, and yields an array kind exactly for array-shaped values |
| Compounds.VerifyID | src/sus/keiger/ghdf/GHDFCompound.java:107-113 | passes exactly for a non-zero id and fails with the id-zero error otherwise |
| Compounds.GHDFCompound.constructor | src/sus/keiger/ghdf/GHDFCompound.java:8 | a new compound is empty |
| Compounds.GHDFCompound.GetIDs | src/sus/keiger/ghdf/GHDFCompound.java:59-62 | exactly the stored ids |
| Compounds.GHDFCompound.Size | src/sus/keiger/ghdf/GHDFCompound.java:69-72 | the number of distinct stored ids |
| Compounds.GHDFCompound.GetTypeOfEntry | src/sus/keiger/ghdf/GHDFCompound.java:49-57 | present exactly for a stored id, giving that value's inferred type; no id check, so id 0 gives none rather than an error |
| Compounds.GHDFCompound.Lookup | src/sus/keiger/ghdf/GHDFCompound.java:77-105 | id 0 fails; a stored id gives its value whatever type is expected; a missing id fails only for a mandatory lookup with an expected type, and otherwise gives the default |
| Compounds.GHDFCompound.GetEntry | src/sus/keiger/ghdf/GHDFCompound.java:24-27 | fails exactly on id 0; otherwise the value stored under the id, or none when the id is not stored; a value found has the stored type |
| Compounds.GHDFCompound.GetOrElse | src/sus/keiger/ghdf/GHDFCompound.java:29-32 | fails exactly on id 0; a missing id gives the default, and a stored id gives its value |
| Compounds.GHDFCompound.GetVerifiedEntry | src/sus/keiger/ghdf/GHDFCompound.java:34-37 | fails exactly on id 0 or a missing id with an expected type; otherwise agrees with `GetEntry`, without comparing types |
| Compounds.GHDFCompound.GetVerifiedOptionalEntry | src/sus/keiger/ghdf/GHDFCompound.java:39-42 | agrees with `GetEntry` on every id: the expected type is never compared |
| Compounds.GHDFCompound.SetEntry | src/sus/keiger/ghdf/GHDFCompound.java:12-16 | id 0 fails and changes nothing; otherwise the id maps to the value with its inferred type, replacing any earlier entry, and every other id reads as before |
| Compounds.GHDFCompound.RemoveEntry | src/sus/keiger/ghdf/GHDFCompound.java:18-22 | id 0 fails and changes nothing; otherwise the id reads as absent, the size drops by one only if it was present, and every other id reads as before |
| Compounds.GHDFCompound.Clear | src/sus/keiger/ghdf/GHDFCompound.java:44-47 | no entries remain: size 0 and no ids |
| WriterV1.Write7BitEncodedInt | src/sus/keiger/ghdf/GHDFWriterVersion1.java:130-139 | the do-while loop emits the varint of the value's unsigned 64-bit view |
| WriterV1.VarintShape | src/sus/keiger/ghdf/GHDFWriterVersion1.java:130-139 | every byte but the last has bit 7 set and the last has it clear; the single byte 0x00 is exactly the encoding of 0 |
| WriterV1.VarintGroups | src/sus/keiger/ghdf/GHDFWriterVersion1.java:130-139 | the 7-bit groups, least significant first, give the value back |
| WriterV1.VarintLength | src/sus/keiger/ghdf/GHDFWriterVersion1.java:132-138 | a value takes at most k bytes exactly when it is below 128^k |
| WriterV1.VarintOfInt32Length | src/sus/keiger/ghdf/GHDFWriterVersion1.java:132-138 | a non-negative `int` takes 1 to 5 bytes; a negative one takes 10, because of sign extension to 64 bits and `>>>` |
| WriterV1.EncodeFixedRoundTrip | src/sus/keiger/ghdf/GHDFWriterVersion1.java:141-169 | a scalar's little-endian bytes give the scalar back |
| WriterV1.EncodeBoolean | src/sus/keiger/ghdf/GHDFWriterVersion1.java:171-174 | one byte, 1 for true and 0 for false |
| WriterV1.EncodeWords | src/sus/keiger/ghdf/GHDFWriterVersion1.java:216-269 | a fixed-width array's elements take exactly width times count bytes |
| WriterV1.EncodeBooleans | src/sus/keiger/ghdf/GHDFWriterVersion1.java:271-280 | one byte per boolean |
| WriterV1.SortedIds | src/sus/keiger/ghdf/GHDFWriterVersion1.java:189-194 | the ids enumerated hold exactly the key set, with as many elements as there are keys |
| WriterV1.SortedIdsAscending | src/sus/keiger/ghdf/GHDFWriterVersion1.java:189-194 | the enumeration is strictly ascending, so each id is written exactly once |
| WriterV1.Metadata | src/sus/keiger/ghdf/GHDFWriterVersion1.java:124-128 | the header is the 16 signature bytes and then the single byte 0x01 |
| WriterV1.Document | src/sus/keiger/ghdf/GHDFWriterVersion1.java:83-93 | a written document starts with that header |
| WriterV1.WriteMetadata | src/sus/keiger/ghdf/GHDFWriterVersion1.java:124-128 | emits the header |
| WriterV1.PutWords | src/sus/keiger/ghdf/GHDFWriterVersion1.java:216-269 | the `ByteBuffer` put loop over a fresh buffer of the given size succeeds exactly when the elements fit it, leaving their little-endian bytes in order at its start, and otherwise throws the buffer overflow |
| WriterV1.WriteFixedArray | src/sus/keiger/ghdf/GHDFWriterVersion1.java:216-269 | a fixed-width array is written as `EncodeWordArray` states: the negative-size error when the `int` product wraps negative, the overflow when it wraps below the elements' size, otherwise its count's varint and its elements' bytes |
| WriterV1.BufferSizeWraps | src/sus/keiger/ghdf/GHDFWriterVersion1.java:96-99 | the `int` buffer size `width * length` is exact while the product is at most 2^31 - 1, and past that is negative or smaller than the product |
| WriterV1.WordArrayOk | src/sus/keiger/ghdf/GHDFWriterVersion1.java:216-269 | a fixed-width array is written exactly when its elements fill at most 2^31 - 1 bytes, and then as its count before its words; otherwise with an error that `WriteCompound`'s catch does not wrap |
| WriterV1.IntArrayOverflows | src/sus/keiger/ghdf/GHDFWriterVersion1.java:227-236 | an int array of 2^29 elements fails with the negative size -2^31, and one of 2^30 elements with the buffer overflow |
| WriterV1.WriteByteArray | src/sus/keiger/ghdf/GHDFWriterVersion1.java:210-214 | a byte array is its count's varint, then its bytes |
| WriterV1.WriteBooleanArray | src/sus/keiger/ghdf/GHDFWriterVersion1.java:271-280 | a boolean array is its count's varint, then one 0/1 byte per element |
| WriterV1.WriteString | src/sus/keiger/ghdf/GHDFWriterVersion1.java:176-181 | a string is its byte length's varint, then its bytes |
| WriterV1.WriteStringArray | src/sus/keiger/ghdf/GHDFWriterVersion1.java:282-289 | a string array is its count's varint, then each string's encoding |
| WriterV1.WriteCompound | src/sus/keiger/ghdf/GHDFWriterVersion1.java:183-203 | the loop emits the entry count's varint and then each entry once; it reports a `GHDFWriteException` of an entry with the entry's id and lets other errors through |
| WriterV1.WriteEntry | src/sus/keiger/ghdf/GHDFWriterVersion1.java:309-333 | id 0 fails before any byte; a value whose shape does not match the type fails the cast; otherwise the id's varint, the tag byte, then the payload |
| WriterV1.EncodeEntryShape | src/sus/keiger/ghdf/GHDFWriterVersion1.java:309-327 | an entry with a non-zero id and a matching type is its id's varint, then its tag byte, then its payload |
| WriterV1.WritePayload | src/sus/keiger/ghdf/GHDFWriterVersion1.java:21-67 | the dispatch table's writer for the value's kind |
| WriterV1.WriteScalarPayload | src/sus/keiger/ghdf/GHDFWriterVersion1.java:141-181 | the scalar writers |
| WriterV1.WriteArrayPayload | src/sus/keiger/ghdf/GHDFWriterVersion1.java:210-298 | the array writers |
| WriterV1.WriteCompoundArray | src/sus/keiger/ghdf/GHDFWriterVersion1.java:291-298 | a compound array is its count's varint, then each compound's encoding |
| WriterV1.Write | src/sus/keiger/ghdf/GHDFWriterVersion1.java:83-93 | succeeds exactly when the document encodes, giving the header then the body; on failure only the header has been written |
| WriterV1.EncodeCompoundSucceeds | src/sus/keiger/ghdf/GHDFWriterVersion1.java:116-122 | a compound encodes exactly when no nested compound holds id 0 and every short, int, long, float and double array in it fills at most 2^31 - 1 bytes |
| WriterV1.EncodeValueSucceeds | src/sus/keiger/ghdf/GHDFWriterVersion1.java:309-333 | a value encodes exactly when no compound inside it holds id 0 and every fixed-width array inside it fits its `int`-sized buffer |
| WriterV1.FlatValueSucceeds | src/sus/keiger/ghdf/GHDFWriterVersion1.java:216-269 | a value holding no compound encodes exactly when its buffer, if it is a fixed-width array, fits an `int` |
| WriterV1.LastIndexOf | src/sus/keiger/ghdf/GHDFWriterVersion1.java:103 | the position of the last occurrence of a character, or -1 when there is none |
| WriterV1.ChangeExtensionToGHDF | src/sus/keiger/ghdf/GHDFWriterVersion1.java:101-114 | the result ends in ".ghdf"; a path that already does is unchanged; a path with no '.' gets ".ghdf" appended; otherwise everything from the last '.' is replaced |
| WriterV1.ChangeExtensionIdempotent | src/sus/keiger/ghdf/GHDFWriterVersion1.java:101-114 | applying it twice is applying it once |
| ReaderV1.GetByte | src/sus/keiger/ghdf/GHDFReaderVersion1.java:100-103 | `get()` succeeds exactly when a byte remains, and underflows otherwise |
| ReaderV1.GetScalar | src/sus/keiger/ghdf/GHDFReaderVersion1.java:105-128 | a fixed-width read succeeds exactly when width bytes remain and gives a value of that width |
| ReaderV1.VarintEnd | src/sus/keiger/ghdf/GHDFReaderVersion1.java:307-320 | the do-while stops just after the first byte with bit 7 clear, and underflows exactly when there is none |
| ReaderV1.ParseVarint | src/sus/keiger/ghdf/GHDFReaderVersion1.java:307-320 | succeeds exactly when the varint is terminated, ending after its last byte; otherwise underflows |
| ReaderV1.ParseBoolean | src/sus/keiger/ghdf/GHDFReaderVersion1.java:130-145 | accepts exactly the bytes 0 and 1, as false and true; any other byte fails with the invalid-boolean error |
| ReaderV1.ParseString | src/sus/keiger/ghdf/GHDFReaderVersion1.java:147-158 | a negative decoded length fails, and exactly that gives the too-long error |
| ReaderV1.ParseArrayLength | src/sus/keiger/ghdf/GHDFReaderVersion1.java:269-277 | a negative decoded count fails, and exactly that gives the too-long error; an accepted count fits a Java array |
| ReaderV1.ParseWords | src/sus/keiger/ghdf/GHDFReaderVersion1.java:181-234 | exactly count elements are read, and only an underflow can fail the loop |
| ReaderV1.WordsFit | src/sus/keiger/ghdf/GHDFReaderVersion1.java:181-234 | every element read fits the element width |
| ReaderV1.ParseBooleans | src/sus/keiger/ghdf/GHDFReaderVersion1.java:236-245 | exactly count booleans are read |
| ReaderV1.ParseStrings | src/sus/keiger/ghdf/GHDFReaderVersion1.java:247-256 | exactly count strings are read |
| ReaderV1.ParseCompound | src/sus/keiger/ghdf/GHDFReaderVersion1.java:160-171 | a compound read never holds id 0 |
| ReaderV1.ParseEntries | src/sus/keiger/ghdf/GHDFReaderVersion1.java:164-168 | the entry loop only adds ids, never 0 |
| ReaderV1.ParseEntry | src/sus/keiger/ghdf/GHDFReaderVersion1.java:322-351 | an accepted entry has a non-zero id |
| ReaderV1.ParsePayloadKind | src/sus/keiger/ghdf/GHDFReaderVersion1.java:350 | a value read under a tag has the signed twin of that tag as its inferred type, so stored kinds are always signed |
| ReaderV1.ParseByteArray | src/sus/keiger/ghdf/GHDFReaderVersion1.java:173-179 | a byte array read has the signed byte-array kind |
| ReaderV1.ParseSignature | src/sus/keiger/ghdf/GHDFReaderVersion1.java:287-295 | accepts exactly the 16 signature bytes; fewer than 16 bytes underflow, and 16 other bytes fail with the not-GHDF error |
| ReaderV1.ParseVersion | src/sus/keiger/ghdf/GHDFReaderVersion1.java:297-305 | accepts exactly a 4-byte little-endian 1; fewer bytes underflow; any other 4-byte value fails with the unsupported-version error carrying that value as a signed `int` |
| ReaderV1.ParseDocument | src/sus/keiger/ghdf/GHDFReaderVersion1.java:73-96 | an accepted document is the root compound read at offset 20, ending exactly at the last byte, and holds no id 0 |
| ReaderV1.EntryRejected | src/sus/keiger/ghdf/GHDFReaderVersion1.java:322-351 | id 0 is rejected before the tag; a tag `ByteToEnum` rejects gives the invalid-type error with id and tag; a value reader's error is reported with the id |
| ReaderV1.LaterEntryWins | src/sus/keiger/ghdf/GHDFReaderVersion1.java:164-168 | of two entries with the same id, the later one's value is kept |
| ReaderV1.EntriesAtMost | src/sus/keiger/ghdf/GHDFReaderVersion1.java:164-168 | the entry loop adds at most count entries to those already held, and none for a count of 0 or less |
| ReaderV1.BadBooleanRejected | src/sus/keiger/ghdf/GHDFReaderVersion1.java:236-245 | in a boolean array, the first byte other than 0 or 1 fails the read with the invalid-boolean error |
| ReaderV1.ByteBuffer.Wrap | src/sus/keiger/ghdf/GHDFReaderVersion1.java:75 | the buffer holds the bytes at position 0 |
| ReaderV1.ByteBuffer.Remaining | src/sus/keiger/ghdf/GHDFReaderVersion1.java:90 | the bytes after the position |
| ReaderV1.ByteBuffer.Get | src/sus/keiger/ghdf/GHDFReaderVersion1.java:100-103 | returns the byte at the position and advances by one, or underflows and stays put |
| ReaderV1.ByteBuffer.GetArray | src/sus/keiger/ghdf/GHDFReaderVersion1.java:177 | returns the next n bytes and advances past them, or underflows and stays put |
| ReaderV1.ByteBuffer.GetWord | src/sus/keiger/ghdf/GHDFReaderVersion1.java:105-128 | returns the little-endian word at the position and advances past it, or underflows and stays put |
| ReaderV1.Read7BitEncodedInt | src/sus/keiger/ghdf/GHDFReaderVersion1.java:307-320 | the do-while loop returns what `ParseVarint` reads and leaves the position after it |
| ReaderV1.ReadByte | src/sus/keiger/ghdf/GHDFReaderVersion1.java:100-103 | returns what `ParseInt8` reads |
| ReaderV1.ReadShort | src/sus/keiger/ghdf/GHDFReaderVersion1.java:105-108 | returns what `ParseInt16` reads |
| ReaderV1.ReadInt | src/sus/keiger/ghdf/GHDFReaderVersion1.java:110-113 | returns what `ParseInt32` reads |
| ReaderV1.ReadLong | src/sus/keiger/ghdf/GHDFReaderVersion1.java:115-118 | returns what `ParseInt64` reads |
| ReaderV1.ReadFloat | src/sus/keiger/ghdf/GHDFReaderVersion1.java:120-123 | returns what `ParseFloat` reads |
| ReaderV1.ReadDouble | src/sus/keiger/ghdf/GHDFReaderVersion1.java:125-128 | returns what `ParseDouble` reads |
| ReaderV1.ReadBoolean | src/sus/keiger/ghdf/GHDFReaderVersion1.java:130-145 | returns what `ParseBoolean` reads |
| ReaderV1.ReadString | src/sus/keiger/ghdf/GHDFReaderVersion1.java:147-158 | returns what `ParseString` reads |
| ReaderV1.GetArrayLength | src/sus/keiger/ghdf/GHDFReaderVersion1.java:269-277 | returns what `ParseArrayLength` reads |
| ReaderV1.ReadByteArray | src/sus/keiger/ghdf/GHDFReaderVersion1.java:173-179 | returns exactly the bytes `ParseByteArray` reads |
| ReaderV1.ReadWords | src/sus/keiger/ghdf/GHDFReaderVersion1.java:181-234 | the for-loop reads what `ParseWords` reads, each element fitting its width |
| ReaderV1.ReadWordArray | src/sus/keiger/ghdf/GHDFReaderVersion1.java:181-234 | the length, then as many words of the given width as `ParseWords` reads, each fitting that width, or the error of either |
| ReaderV1.ReadShortArray | src/sus/keiger/ghdf/GHDFReaderVersion1.java:181-190 | returns what `ParseShortArray` reads |
| ReaderV1.ReadIntArray | src/sus/keiger/ghdf/GHDFReaderVersion1.java:192-201 | returns what `ParseIntArray` reads |
| ReaderV1.ReadLongArray | src/sus/keiger/ghdf/GHDFReaderVersion1.java:203-212 | returns what `ParseLongArray` reads |
| ReaderV1.ReadFloatArray | src/sus/keiger/ghdf/GHDFReaderVersion1.java:214-223 | returns what `ParseFloatArray` reads |
| ReaderV1.ReadDoubleArray | src/sus/keiger/ghdf/GHDFReaderVersion1.java:225-234 | returns what `ParseDoubleArray` reads |
| ReaderV1.ReadBooleanArray | src/sus/keiger/ghdf/GHDFReaderVersion1.java:236-245 | the length, then as many booleans as `ParseBooleans` reads, or the error of either |
| ReaderV1.ReadBooleans | src/sus/keiger/ghdf/GHDFReaderVersion1.java:236-245 | the for-loop reads what `ParseBooleans` reads |
| ReaderV1.ReadStringArray | src/sus/keiger/ghdf/GHDFReaderVersion1.java:247-256 | the length, then as many strings as `ParseStrings` reads, or the error of either |
| ReaderV1.ReadStrings | src/sus/keiger/ghdf/GHDFReaderVersion1.java:247-256 | the for-loop reads what `ParseStrings` reads |
| ReaderV1.ReadCompoundArray | src/sus/keiger/ghdf/GHDFReaderVersion1.java:258-267 | the length, then as many compounds as `ParseDocs` reads, or the error of either |
| ReaderV1.ReadDoc | src/sus/keiger/ghdf/GHDFReaderVersion1.java:264 | one element of a compound array: the compound `ParseCompound` reads, or its error |
| ReaderV1.ReadDocs | src/sus/keiger/ghdf/GHDFReaderVersion1.java:258-267 | the for-loop reads what `ParseDocs` reads |
| ReaderV1.ReadCompound | src/sus/keiger/ghdf/GHDFReaderVersion1.java:160-171 | a fresh compound holding exactly the entries `ParseCompound` reads, or that parse's error |
| ReaderV1.ReadEntries | src/sus/keiger/ghdf/GHDFReaderVersion1.java:164-168 | the loop leaves in the compound exactly the map `ParseEntries` builds |
| ReaderV1.ReadEntry | src/sus/keiger/ghdf/GHDFReaderVersion1.java:322-351 | the entry `ParseEntry` reads is stored with `SetEntry`, and nothing changes on an error |
| ReaderV1.ReadPayload | src/sus/keiger/ghdf/GHDFReaderVersion1.java:22-50 | the read-method table's reader for the tag |
| ReaderV1.VerifySignature | src/sus/keiger/ghdf/GHDFReaderVersion1.java:287-295 | passes or fails as `ParseSignature` does |
| ReaderV1.VerifyVersion | src/sus/keiger/ghdf/GHDFReaderVersion1.java:297-305 | passes or fails as `ParseVersion` does |
| ReaderV1.Read | src/sus/keiger/ghdf/GHDFReaderVersion1.java:73-96 | a fresh compound holding exactly what `ParseDocument` accepts, or its error |
| RoundTrip.VarintRoundTrip | src/sus/keiger/ghdf/GHDFReaderVersion1.java:307-320 | `Read7BitEncodedInt` inverts the encoder on every 32-bit pattern and consumes exactly its bytes |
| RoundTrip.LengthRoundTrip | src/sus/keiger/ghdf/GHDFReaderVersion1.java:269-277 | a length the writer emits is read back as itself by the varint and the array-length readers |
| RoundTrip.FixedRead | src/sus/keiger/ghdf/GHDFReaderVersion1.java:100-128 | a fixed-width value written is read back as itself |
| RoundTrip.BooleanRead | src/sus/keiger/ghdf/GHDFReaderVersion1.java:130-145 | a boolean written is read back as itself |
| RoundTrip.StringRead | src/sus/keiger/ghdf/GHDFReaderVersion1.java:147-158 | a string written is read back as its bytes, consuming exactly its encoding |
| RoundTrip.WordsRead | src/sus/keiger/ghdf/GHDFReaderVersion1.java:181-234 | the elements of a fixed-width array are read back in order |
| RoundTrip.BooleansRead | src/sus/keiger/ghdf/GHDFReaderVersion1.java:236-245 | the elements of a boolean array are read back in order |
| RoundTrip.StringsRead | src/sus/keiger/ghdf/GHDFReaderVersion1.java:247-256 | the strings of a string array are read back in order |
| RoundTrip.JavaBytesRoundTrip | src/sus/keiger/ghdf/GHDFReaderVersion1.java:173-179 | the bytes of a byte array read back as the same Java bytes |
| RoundTrip.ScalarRoundTrip | src/sus/keiger/ghdf/GHDFReaderVersion1.java:100-158 | every scalar payload is read back as the same value by the reader of its kind |
| RoundTrip.ArrayRoundTrip | src/sus/keiger/ghdf/GHDFReaderVersion1.java:173-256 | every array payload is read back as the same value by the reader of its kind |
| RoundTrip.CompoundArrayRead | src/sus/keiger/ghdf/GHDFReaderVersion1.java:258-267 | a compound array is read back as the same compounds |
| RoundTrip.MergeContents | src/sus/keiger/ghdf/GHDFReaderVersion1.java:164-168 | the entry loop's map holds exactly the earlier entries and the entries read, the later winning |
| RoundTrip.MergeAll | src/sus/keiger/ghdf/GHDFReaderVersion1.java:160-171 | reading every entry of a compound into an empty one gives back its map |
| RoundTrip.IdRoundTrip | src/sus/keiger/ghdf/GHDFReaderVersion1.java:322-326 | a positive id written is read back as itself |
| RoundTrip.EntryRoundTrip | src/sus/keiger/ghdf/GHDFReaderVersion1.java:322-351 | an entry written is read back with the same id and value, consuming exactly its bytes |
| RoundTrip.EntriesRoundTrip | src/sus/keiger/ghdf/GHDFReaderVersion1.java:164-168 | a run of entries written is read back into the map |
| RoundTrip.CompoundRoundTrip | src/sus/keiger/ghdf/GHDFReaderVersion1.java:160-171 | `ReadCompound` over `WriteCompound`'s bytes gives back the same map and consumes exactly those bytes, for a compound with positive ids |
| RoundTrip.DocsRoundTrip | src/sus/keiger/ghdf/GHDFReaderVersion1.java:258-267 | the compounds of a compound array are read back in order |
| RoundTrip.PayloadRoundTrip | src/sus/keiger/ghdf/GHDFWriterVersion1.java:309-333 | every payload the writer emits is read back as the same value by the reader its tag selects |
| RoundTrip.BodyRoundTrip | src/sus/keiger/ghdf/GHDFWriterVersion1.java:183-203 | for a compound with positive ids, Java-sized contents and every array buffer within an `int`, the writer succeeds, and the reader returns the same compound from exactly its bytes |
| Truncation.CompoundFrame | src/sus/keiger/ghdf/GHDFReaderVersion1.java:160-171 | a compound read gives the same on any input agreeing below its end, and underflows on one that ends first |
| Truncation.DocumentFrame | src/sus/keiger/ghdf/GHDFReaderVersion1.java:73-96 | an input agreeing with an accepted one reads each of signature, version and root compound alike, or underflows where it ends first |
| Truncation.PrefixIncomplete | src/sus/keiger/ghdf/GHDFReaderVersion1.java:84-88 | every proper prefix of an accepted input fails with the underflow |
| Truncation.TrailingRejected | src/sus/keiger/ghdf/GHDFReaderVersion1.java:90-93 | an accepted input followed by any bytes fails with the trailing-data error |
| Findings.DocumentUnreadable | src/sus/keiger/ghdf/GHDFWriterVersion1.java:127 | no document the writer emits is accepted by the reader: an empty compound underflows, and otherwise the version read is not 1 |
| Findings.VersionClash | src/sus/keiger/ghdf/GHDFReaderVersion1.java:299 | behind the one-byte version, a non-zero count spoils the 4-byte version |
| Findings.CorrectedHeader | src/sus/keiger/ghdf/GHDFReaderVersion1.java:287-305 | the header the reader accepts: the signature, then 1 as a 4-byte little-endian `int` |
| Findings.CorrectedDocument | src/sus/keiger/ghdf/GHDFWriterVersion1.java:83-93 | the written document with that header, the same body behind it |
| Findings.CorrectedDocumentRoundTrip | src/sus/keiger/ghdf/GHDFReaderVersion1.java:73-96 | a corrected document is read back whole as the same compound |
| Findings.NegativeIdMisread | src/sus/keiger/ghdf/GHDFReaderVersion1.java:307-320 | the ten bytes the writer emits for id -9 are consumed but not read back as -9 |
| Findings.SixthGroupSetsBit3 | src/sus/keiger/ghdf/GHDFReaderVersion1.java:315 | the sixth group's shift of 35 wraps to 3, so an odd sixth byte sets bit 3 of the result |
| Findings.MinusNineBytes | src/sus/keiger/ghdf/GHDFWriterVersion1.java:130-139 | the writer emits -9 as ten bytes, through its 64-bit unsigned view |
| Findings.IdVarint | src/sus/keiger/ghdf/GHDFWriterVersion1.java:130-139 | an id as the reader expects it: at most five bytes, equal to the writer's for a non-negative id |
| Findings.CorrectedIdRoundTrip | src/sus/keiger/ghdf/GHDFReaderVersion1.java:307-320 | every id, negative ones included, is read back from its corrected bytes |

## Left out

- File and stream plumbing is not modelled: `Write(compound, String)`, `Read(String)`, the file streams, closing them, `readAllBytes` and `ByteArrayOutputStream.writeTo`. The writer produces a byte sequence and the reader consumes one.
- `GHDFCompound.GetValues` is not modelled. It returns the values in `HashMap` order, which is not specified.
- The `HashMap` iteration order of `GetIDs` in `WriteCompound` is fixed to ascending ids (`WriterV1.SortedIds`). Any duplicate-free order gives the same bytes up to the order of entries.
- `GHDFEncodedInteger`, `WriteEncodedInteger` and `WriteEncodedIntegerArray` are left out. Their kind has no constant in `GHDFType`, `GHDFCompound` rejects the value, and the reader never produces one. Its wire form is `Write7BitEncodedInt`, which is modelled.
- A `null` value, and the `instanceof` rejection of a Java object of an unsupported class, are not modelled. `Value` is a closed datatype with one variant per supported shape.
- Floats and doubles are their 32- and 64-bit patterns; IEEE semantics are not modelled.
- Strings are their UTF-8 bytes; the `StandardCharsets` conversion is not modelled.
- Exception messages are not modelled. Each error is a distinct kind of `ReadError`, `WriteError` or `EntryError` carrying the ids, bytes and values the message reports.
- The dispatch `HashMap`s filled by the writer's and the reader's constructors are not modelled as tables. `WritePayload` and `ReadPayload` dispatch on the kind directly.
- The reader's buffer position after an error is stated only for the primitive reads. After an error the composite reads promise the error and not the position, because the source throws and discards the buffer.
- The test program, `IGHDFReader`/`IGHDFWriter` (interfaces and the version factory) and `GHDF.java` are not part of this model. The constants of `GHDF.java` are copied in `GhdfConstants`.
- RoundTrip.CompoundRoundTrip: requires positive ids and Java-sized contents (every length below 2^31). A negative id does not read back; that is a finding below. A length of 2^31 or more does not fit a Java array.
- WriterV1.WriteCompound: requires every length to fit a Java array (`SizedDoc`), as in Java, where no larger array or string exists.
- RoundTrip.BodyRoundTrip: covers only documents whose fixed-width arrays fit their `int`-sized buffers (`BuffersFit`); the others are not written at all (`WriterV1.EncodeCompoundSucceeds`).
- Compounds.GHDFCompound.SetEntry, Compounds.GHDFCompound.GetEntry, WriterV1.WriteCompound: a nested compound is held by value (`Doc`), a snapshot of its map when it was stored. Java stores a reference. So a later change to a child compound, one child shared by two parents, and a compound that contains itself are not captured. A compound that contains itself makes Java's `WriteCompound` recurse until `StackOverflowError`.
- JVM resource failures are not modelled. The reader allocates `new T[Length]` (GHDFReaderVersion1.java:155-261) before reading a string's bytes or an array's elements. A huge length prefix can therefore throw `OutOfMemoryError` where the model reports the underflow. Deep nesting can run the reader and the writer out of stack (`StackOverflowError`). A body of more than 2^31 - 1 bytes overflows the `ByteArrayOutputStream` of `Write`. The model has unbounded memory and stack.
- WriterV1.WriteCompound: the loop variable is a `long` that is passed to `GetEntry(int)` and `GetTypeOfEntry(int)` (GHDFWriterVersion1.java:191-194). Java does not convert `long` to `int` implicitly, so this line does not compile as written. The model looks the entry up under the 32-bit id itself. The ids come from `GetIDs`, so the widening to `long` and back loses nothing.

## Findings

| source | as written | input that shows it | evidently intended | confidence | as-written member | corrected member |
|---|---|---|---|---|---|---|
| src/sus/keiger/ghdf/GHDFWriterVersion1.java:127 | `WriteMetadata` writes the version with `Write7BitEncodedInt` (one byte 0x01); `VerifyVersion` (GHDFReaderVersion1.java:299) reads it with `getInt()`, four bytes | any document; e.g. the empty compound gives 18 bytes, and the reader underflows on the version | the version written as a 4-byte little-endian `int`, so that `Read(Write(c))` gives back `c` | not executed | Findings.DocumentUnreadable | Findings.CorrectedDocumentRoundTrip |
| src/sus/keiger/ghdf/GHDFWriterVersion1.java:130-139 | the id is written through its 64-bit unsigned view, so a negative id takes ten bytes; the reader's `int` accumulator (GHDFReaderVersion1.java:307-320) shifts the sixth group by 35 mod 32 = 3 | id -9, written as F7 FF FF FF FF FF FF FF FF 01, reads back with bit 3 set, not as -9 | an id encoded through its 32-bit pattern (at most five bytes), which the reader inverts for every `int` | not executed | Findings.NegativeIdMisread | Findings.CorrectedIdRoundTrip |
