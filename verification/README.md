# Hanami message codec, modelled in Dafny

This project models the binary message codec of libKitsunemimiHanamiCommon: the
`HanamiMessage` base class with its writers and readers, the protocol sniff
`isHanamiProtocol`, and the one concrete message, `ErrorLog_Message`
(`include/libKitsunemimiHanamiCommon/messages.h`, `src/messages.cpp`).

A message is a 16-byte `MessageHeader` followed by entries. The header holds the
"hanami" ident in bytes 0..6, the message type in byte 6, one padding byte and
the total size as a `uint64_t` in bytes 8..16. Each entry is a 16-byte `Entry`
descriptor (type tag in byte 0, seven padding bytes, payload size in bytes 8..16)
followed by its payload. An `ErrorLog_Message` has type 255 and five string
entries, always in the order userUuid, component, errorMsg, context, values.

Modules, one per part of the source:

- `Wrappers`: `Option`.
- `Bytes`: bytes, `uint64_t` values and their little-endian and big-endian
  readings. It also has 64-bit wrapping addition and multiplication, and
  `Overwrite`, a model of `memcpy` into a buffer.
- `Layout`: the `EntryType` tags and the `Entry` and `MessageHeader` records,
  with their 16-byte encodings.
- `Sniff`: `isHanamiProtocol`, with the host byte order as a parameter.
- `Writers`: `initBlob` and the four `append*` writers. Each is a pure function
  that returns the new buffer and the byte count the source returns.
- `Readers`: `initRead` and the four `read*` readers. Each threads the cursor
  `m_pos` and hands back its output parameter, because the source leaves that
  parameter untouched on failure and when the size field is 0.
- `RoundTrips`: each writer paired with its reader.
- `ErrorLog`: `ErrorLog_Message`, meaning its constructor, `createBlob`, `read`,
  and what they promise together.

Buffers are `seq<byte>`. The source reinterprets memory in host byte order.
This model fixes that order to little-endian for every `uint64_t` field: the
header's size, each entry's size and `readUint`'s value. That is a choice of
the model, not something the source guarantees. The sniff is the exception:
it is stated for both byte orders.
The cursor is a `uint64_t`, so its advance wraps modulo 2^64, as in the source.

The readers take no buffer length and check no bounds. Each reader's
precondition names exactly the bytes it dereferences:

- the tag byte;
- on a matching tag, the descriptor;
- for `readUint`, 8 payload bytes when the size field is non-zero;
- for `readString`, the payload.

`ErrorLog.Read` composes readers whose bounds depend on the data. So instead of
a precondition it returns `OutOfRange` wherever the source would read past the
data. `OutOfRange` is a model addition, not a result of the source. The data
given to `Read` is the `dataSize` bytes the caller passes.

## Model

| member | source | states |
|---|---|---|
| Bytes.EncodeU64 | src/messages.cpp:56 | a `uint64_t` stored into memory takes 8 bytes whose little-endian reading is the value |
| Bytes.DecodeU64 | src/messages.cpp:226 | any 8 bytes read as a `uint64_t` give the value whose stored bytes are those 8 |
| Bytes.U64RoundTrip | include/libKitsunemimiHanamiCommon/messages.h:66 | the 8 bytes stored for a `uint64_t` size field decode to the value stored |
| Bytes.Overwrite | src/messages.cpp:106 | a `memcpy` of `src` at `at` leaves `src` in that range and every other byte as it was |
| Layout.TypeOfCode | include/libKitsunemimiHanamiCommon/messages.h:42-52 | a tag byte names an entry type exactly when it is below 8, and the named type's code is that byte |
| Layout.TypeCodesDistinct | include/libKitsunemimiHanamiCommon/messages.h:42-52 | distinct entry types have distinct tags, and every tag decodes back to its type |
| Layout.ValSizeAtDecodes | src/messages.cpp:224 | the size a reader sees at a position is the size field of the entry decoded there |
| Layout.EncodeEntry | include/libKitsunemimiHanamiCommon/messages.h:54-59 | an entry takes 16 bytes: tag at 0, padding at 1..8, size at 8..16 |
| Layout.DecodeEntry | include/libKitsunemimiHanamiCommon/messages.h:54-59 | any 16 bytes read as an entry re-encode to the same 16 bytes |
| Layout.EntryRoundTrip | include/libKitsunemimiHanamiCommon/messages.h:54-59 | decoding an encoded entry gives the entry back |
| Layout.EncodeHeader | include/libKitsunemimiHanamiCommon/messages.h:61-67 | a header takes 16 bytes: ident at 0..6, type at 6, padding at 7, size at 8..16 |
| Layout.DecodeHeader | include/libKitsunemimiHanamiCommon/messages.h:61-67 | any 16 bytes read as a header re-encode to the same 16 bytes |
| Layout.HeaderRoundTrip | include/libKitsunemimiHanamiCommon/messages.h:61-67 | decoding an encoded header gives the header back |
| Sniff.ShortBufferRejected | include/libKitsunemimiHanamiCommon/messages.h:105-107 | fewer than 16 bytes are never taken for a Hanami message, on either byte order |
| Sniff.IsHanamiProtocol | include/libKitsunemimiHanamiCommon/messages.h:102-111 | the sniff holds exactly when there are at least 16 bytes and, on a big-endian host, bytes 0..6 are "hanami"; on a little-endian host, bytes 2..8 are "imanah" |
| Sniff.MaskedWordMatches | include/libKitsunemimiHanamiCommon/messages.h:109-110 | the masked word equals `0x68616e616d690000` exactly when the six bytes the mask keeps spell the ident in load order |
| Sniff.DefaultHeaderSniff | include/libKitsunemimiHanamiCommon/messages.h:61-67 | a default-initialised header, whatever follows it, passes the intended sniff and the big-endian word compare and fails the little-endian one |
| Sniff.SniffReadsFirstWordOnly | include/libKitsunemimiHanamiCommon/messages.h:109-110 | two buffers of at least 16 bytes that agree on bytes 0..8 get the same verdict, whatever their size fields |
| Sniff.SniffIgnoresMaskedBytes | include/libKitsunemimiHanamiCommon/messages.h:110 | the two bytes the mask clears (0..2 little-endian, 6..8 big-endian) never change the verdict |
| Sniff.LittleEndianSniffRejectsHeaders | include/libKitsunemimiHanamiCommon/messages.h:103-111 | on a little-endian host no encoded header with the "hanami" ident passes the sniff, whatever follows it |
| Sniff.IsHanamiProtocolExact | include/libKitsunemimiHanamiCommon/messages.h:63 | the intended sniff: at least 16 bytes, the first six being "hanami" |
| Sniff.ExactSniffAcceptsHeaders | include/libKitsunemimiHanamiCommon/messages.h:61-67 | the intended sniff accepts an encoded header, whatever follows, exactly when its ident is "hanami" |
| Sniff.ExactSniffIsBigEndianSniff | include/libKitsunemimiHanamiCommon/messages.h:109-110 | the intended sniff agrees with the word compare on a big-endian host |
| Writers.Flatten | src/messages.cpp:163 | the float values laid end to end, 4 bytes each, value `k` at bytes 4k..4k+4 |
| Writers.InitBlob | src/messages.cpp:51-59 | returns 16, the header then decodes to the given type and total size, and bytes 0..6, 7 and everything outside the header are unchanged |
| Writers.WriteEntry | src/messages.cpp:96-111 | the common entry writer: tag at 0, size at 8..16 and payload at 16; the padding and every other byte are unchanged |
| Writers.AppendUint | src/messages.cpp:70-85 | returns 24; tag 2, size 8, and the value's 8 bytes as payload, which decode to the value; padding and other bytes unchanged |
| Writers.AppendString | src/messages.cpp:96-111 | returns 16 plus the string's length; tag 5, size the length, the string's bytes as payload; padding and other bytes unchanged |
| Writers.AppendData | src/messages.cpp:122-139 | returns 16 plus the data's length; tag 6, size the length, the bytes as payload; padding and other bytes unchanged |
| Writers.AppendFloatList | src/messages.cpp:151-168 | returns 16 plus 4 per value; tag 7, size the number of values (not bytes), the values' bytes as payload; padding and other bytes unchanged |
| Writers.EntryAtFrame | src/messages.cpp:96-111 | an entry stays in place under any change that keeps its bytes |
| Writers.ValSizeOfEntry | src/messages.cpp:101 | the size field a writer stored reads back as the value stored |
| Readers.InitRead | src/messages.cpp:179-200 | accepts exactly when there are at least 16 bytes, the header's size equals the number of bytes and its type is the instance's; then the cursor is 16, otherwise unchanged |
| Readers.ReadUint | src/messages.cpp:211-231 | on another tag: false, cursor and output unchanged; on UINT64: true, cursor advanced by 16 plus the size field, output the 8 bytes after the descriptor when that size is non-zero, else unchanged |
| Readers.ReadString | src/messages.cpp:242-262 | on another tag: false, cursor and output unchanged; on STRING: true, cursor advanced by 16 plus the size, output the `size` bytes after the descriptor when the size is non-zero, else unchanged |
| Readers.ReadBinary | src/messages.cpp:273-296 | on another tag: false, nothing changed; on BYTE: true, cursor advanced by 16 plus the size, and a view of the payload when the size is non-zero |
| Readers.ReadFloatList | src/messages.cpp:308-331 | on another tag: false, nothing changed; on FLOAT32_LIST: true, cursor advanced by 16 plus 4 per value (64-bit product), and a view of the values and their number when non-zero |
| Readers.ReadFloatListInBounds | src/messages.cpp:320-328 | a float list inside the buffer moves the cursor past exactly its 16 + 4n bytes |
| Readers.DefaultEntryRejected | include/libKitsunemimiHanamiCommon/messages.h:54-59 | a default-initialised entry (tag UNDEFINED) makes each of the four readers return false and leave cursor and output alone |
| Readers.DefaultHeaderRejected | src/messages.cpp:179-200 | `initRead` rejects a default-initialised header whatever follows it, since its size field 0 never equals a length of at least 16, and leaves the cursor alone |
| Readers.InitReadIgnoresIdent | src/messages.cpp:179-200 | `initRead` never looks at the ident bytes or the header padding |
| Readers.ReadStringIgnoresPadding | src/messages.cpp:242-262 | the padding bytes of an entry never change what `readString` does |
| RoundTrips.InitReadAcceptsInitBlob | src/messages.cpp:179-200 | a header written by `initBlob` with the true total size passes `initRead` and moves the cursor to 16 |
| RoundTrips.UintRoundTrip | src/messages.cpp:211-231 | reading an entry `appendUint` wrote gives the value back and moves 24 bytes on |
| RoundTrips.StringRoundTrip | src/messages.cpp:242-262 | reading an entry `appendString` wrote gives the string back (the old output for an empty one) and moves past it |
| RoundTrips.BinaryRoundTrip | src/messages.cpp:273-296 | reading an entry `appendData` wrote gives a view of exactly the bytes written |
| RoundTrips.FloatListRoundTrip | src/messages.cpp:308-331 | reading an entry `appendFloatList` wrote gives a view of exactly the values written, and their number |
| RoundTrips.AppendUintThenRead | src/messages.cpp:211-231 | `readUint` right after `appendUint` at the same offset gives the value back and moves 24 bytes on |
| RoundTrips.AppendStringThenRead | src/messages.cpp:242-262 | `readString` right after `appendString` gives the string back (the old output for an empty one) and moves past the entry |
| RoundTrips.AppendDataThenRead | src/messages.cpp:273-296 | `readBinary` right after `appendData` of a non-empty payload gives a view of exactly those bytes and moves past the entry |
| RoundTrips.AppendFloatListThenRead | src/messages.cpp:308-331 | `readFloatList` right after `appendFloatList` of a non-empty list gives a view of exactly those values, and their number, and moves past the entry |
| ErrorLog.NewErrorLogMessage | src/messages.cpp:338-341 | a new instance has type 255, cursor 0 and all five strings empty |
| ErrorLog.TotalMsgSize | src/messages.cpp:392-398 | the total size is the room for the header and one string entry per field, in field order |
| ErrorLog.LengthsFitWithinEntries | src/messages.cpp:392-398 | when the total size fits in 64 bits, so does every string's length |
| ErrorLog.AppendStrings | src/messages.cpp:404-410 | one `appendString` per field from the given offset: returns the entries' total size, leaves an entry per string in order, changes no byte outside them, and inside them changes no entry's padding |
| ErrorLog.CreateBlob | src/messages.cpp:390-415 | too small a buffer gets 0 and is left alone; otherwise returns the total size, which is also the header's size field, with the type byte set, one entry per field in order, and bytes 0..6, 7, every entry's padding and all past the message unchanged |
| ErrorLog.Read | src/messages.cpp:357-380 | a failed `initRead` gives false and leaves the instance alone; success implies a header that passes `initRead`; the type never changes |
| ErrorLog.ReadStrings | src/messages.cpp:363-377 | the chained `readString` calls keep one output per field; what the outputs hold is stated by ReadStringsOfEntries and ReadStringsSound |
| ErrorLog.ReadStringsCursor | src/messages.cpp:363-377 | the chained reads only move the cursor forward, and never past the end of the data |
| ErrorLog.ReadStringsSound | src/messages.cpp:363-377 | when the reads succeed, the data holds one string entry per field from the start position, each field gets its entry's string (or keeps its value for an empty one) and the cursor is just past the last entry |
| ErrorLog.ReadSuccessMeansEntries | src/messages.cpp:357-380 | `read` returns true only on a header that passes `initRead` followed by five string entries; the fields then hold those strings and the cursor is just past the fifth |
| ErrorLog.ReadSucceedsIff | src/messages.cpp:357-380 | `read` returns true exactly when the header passes `initRead` and five string entries follow it |
| ErrorLog.CreateBlobKeepsEntryPadding | src/messages.cpp:404-410 | each of the seven padding bytes of every entry keeps the value the buffer held |
| ErrorLog.TrailingBytesAccepted | src/messages.cpp:375-379 | a complete message followed by extra bytes that its size field counts is still accepted, each field read as from the message alone, with the cursor short of the end |
| ErrorLog.ReadExact | src/messages.cpp:357-380 | the corrected `read`: on success the cursor has reached the end of the data, and the type never changes |
| ErrorLog.ReadExactIff | src/messages.cpp:357-380 | the corrected `read` succeeds exactly on a header that passes `initRead` followed by five string entries that end where the data ends |
| ErrorLog.ReadExactBlob | src/messages.cpp:357-380 | on a complete message the corrected `read` gives the same result as `read` |
| ErrorLog.ReadExactRejectsTrailingBytes | src/messages.cpp:375-379 | the corrected `read` rejects a complete message followed by extra bytes that its size field counts |
| ErrorLog.ReadStringsOfEntries | src/messages.cpp:363-377 | string entries laid end to end read back in order, each into its field, with the cursor just past the last |
| ErrorLog.ReadStringsStopAt | src/messages.cpp:363-377 | after some good entries, a non-STRING tag makes the reads fail there: the cursor stays on it, earlier fields are filled, later ones are untouched |
| ErrorLog.ReadStringsStopAtBadTag | src/messages.cpp:363-377 | changing entry `j`'s tag to anything but STRING stops the reads at entry `j` |
| ErrorLog.BlobLayout | src/messages.cpp:390-415 | the bytes `createBlob` reports form a complete message: header with the true size and the type, then one string entry per field |
| ErrorLog.ReadBlob | src/messages.cpp:357-380 | any instance of the right type reading a complete message succeeds; each field gets the string sent, or keeps its value for an empty one; the cursor ends at the size |
| ErrorLog.ReadCreateBlob | src/messages.cpp:357-380 | the same for the bytes `createBlob` produced, for any receiving instance of the same type |
| ErrorLog.FreshReadCreateBlob | src/messages.cpp:357-380 | a freshly constructed instance reading `createBlob`'s output becomes the message sent, empty strings included, with the cursor at the end |
| ErrorLog.TruncatedBlobRejected | src/messages.cpp:359-361 | every strict prefix of a complete message is rejected and the instance is left alone |
| ErrorLog.OtherTypeRejected | src/messages.cpp:359-361 | an instance of another type rejects a complete message and is left alone |
| ErrorLog.CorruptTagRejected | src/messages.cpp:363-377 | a message whose `j`-th tag is changed to anything but 5 is rejected: the earlier fields are filled, the later ones kept, and the cursor stays on entry `j` |
| ErrorLog.EmptyMessageBlob | tests/unit_tests/main.cpp:7-11 | a default instance's blob is 96 bytes and reads back into the same instance, with the cursor at 96 |
| ErrorLog.SampleMessage | src/messages.cpp:392-398 | the message "a1b2", "core", "oops", "{}", "[]" has total size 112 |
| ErrorLog.SampleMessageBlob | src/messages.cpp:390-415 | its blob is 112 bytes, reads back as the message on a fresh instance, and every strict prefix is rejected |
| ErrorLog.SampleMessageTooBig | src/messages.cpp:400-402 | a 111-byte buffer gets 0 and is left alone |
| ErrorLog.LittleEndianSniffRejectsBlobs | include/libKitsunemimiHanamiCommon/messages.h:103-111 | on a little-endian host the sniff rejects every ErrorLog message `createBlob` produces |
| ErrorLog.BigEndianSniffSeesStaleIdent | src/messages.cpp:51-59 | on a big-endian host the sniff accepts a `createBlob` output exactly when the buffer already started with "hanami" |
| ErrorLog.IdentKeepsBlob | src/messages.cpp:51-59 | writing the ident over a complete message keeps it complete |
| ErrorLog.CreateBlobWithIdent | src/messages.cpp:51-59 | the corrected writer: as `createBlob`, and the output also starts with "hanami", so the intended sniff accepts it |
| ErrorLog.CreateBlobWithIdentRoundTrip | src/messages.cpp:357-415 | the corrected writer's output passes the big-endian sniff and reads back on a fresh instance as the message sent |

## Left out

- Configuration, argument parsing and logging (`config.h`, `src/config.cpp`, `generic_main.h`): I/O and bootstrap code.
- UUID generation (`uuid.h`): a foreign, nondeterministic library call.
- Timestamp formatting (`functions.h`): depends on the C library and the time zone.
- `enums.h`, `structs.h`, `component_support.h`: constants and plain records with no operations.
- Float semantics: a float is its four raw bytes (`Float32Bits`), and nothing does arithmetic on it.
- Pointer aliasing and the lifetime of the zero-copy views: a view is only an (offset, size) pair into the input.
- The runtime `assert(pos == totalMsgSize)` in `createBlob` is a proved postcondition (`ErrorLog.CreateBlob`), not a check.
- ErrorLog.CreateBlob: requires the total size to fit in 64 bits. The source computes it in a `uint64_t`, where it could wrap; strings that long cannot exist in memory.
- ErrorLog.CreateBlob: `bufferSize` is the length of the buffer; the source trusts the caller's number.
- ErrorLog.Read: `OutOfRange` stands for the inputs on which the source reads past the data, an undefined behaviour it has no result for. The data is exactly the `dataSize` bytes passed, even when the caller's memory goes on.
- Sniff.IsHanamiProtocol: the 64-bit mask is written arithmetically, as the word minus its 16 low-order bits.
- Writers.WriteEntry: a payload is copied only when its size field is non-zero; every writer passes an empty payload exactly then, so the model copies unconditionally.
- Big-endian hosts: there the size fields and `readUint`'s value are stored big-endian. Only the sniff is modelled for that byte order. ErrorLog.BigEndianSniffSeesStaleIdent and ErrorLog.CreateBlobWithIdentRoundTrip pair the big-endian sniff with little-endian size fields. That is sound only because the sniff reads bytes 0..8 alone, and neither the ident nor the type byte depends on byte order.
- Writers.AppendFloatList: does not model the 64-bit wrap of `numberOfValues * sizeof(float)` (src/messages.cpp:163-164). The values come as a sequence, and a list whose byte length wraps would have to be longer than memory.
- ErrorLog.ReadStrings: its own contract states only that there is one output per field. What the outputs hold is proved in ErrorLog.ReadStringsOfEntries, ErrorLog.ReadStringsStopAt and ErrorLog.ReadStringsSound, to keep the recursive definition cheap to unfold.
- The writers do not check that the buffer has room. Their preconditions require the room the source assumes the caller made.

## Findings

| source | as written | input that shows it | evidently intended | confidence | as-written member | corrected member |
|---|---|---|---|---|---|---|
| include/libKitsunemimiHanamiCommon/messages.h:109-110 | loads bytes 0..8 as one host-order word and compares the masked word with `0x68616e616d690000` | on a little-endian host, any header with the "hanami" ident, such as `68 61 6e 61 6d 69 ff 00` followed by a size, is rejected; only bytes 2..8 = "imanah" pass | accept exactly when bytes 0..6 are "hanami", as the header layout at messages.h:63 puts them | high; not executed | Sniff.LittleEndianSniffRejectsHeaders | Sniff.IsHanamiProtocolExact |
| src/messages.cpp:53-56 | `initBlob` reinterprets the buffer as a header and sets only the type and size, so the default ident initialiser never runs | `createBlob` of a default `ErrorLog_Message` into a zeroed 96-byte buffer leaves bytes 0..6 zero, and the output carries no "hanami" ident | the header starts with "hanami", as its declaration at messages.h:63 says | high; not executed | ErrorLog.BigEndianSniffSeesStaleIdent | ErrorLog.CreateBlobWithIdent |
| src/messages.cpp:375-379 | after the fifth `readString`, `read` returns true without comparing the cursor `m_pos` with `dataSize`, although `initRead` checked the header's size against `dataSize` | a complete message followed by one byte, with the size field raised by one to count it: `read` returns true and the cursor stops one byte short of the end | a message ends exactly where its size says: bytes that no entry accounts for make it broken | medium; not executed | ErrorLog.TrailingBytesAccepted | ErrorLog.ReadExact |
