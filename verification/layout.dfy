/**
  The two fixed 16-byte records of the Hanami wire format and the closed set
  of entry type tags.

  MessageHeader: bytes 0..6 protocol ident, byte 6 message type, byte 7
  padding, bytes 8..16 total message size.
  Entry:         byte 0 entry type tag, bytes 1..8 padding, bytes 8..16 the
  payload size (bytes, or element count for a float list).
 */
module Layout {
  import opened Wrappers
  import opened Bytes

  const HEADER_SIZE: nat := 16
  const ENTRY_SIZE: nat := 16

  /** 'h', 'a', 'n', 'a', 'm', 'i' */
  const PROTOCOL_IDENT: seq<byte> := [0x68, 0x61, 0x6e, 0x61, 0x6d, 0x69]

  datatype EntryType =
    | UndefinedEntry
    | Int64Entry
    | Uint64Entry
    | Float64Entry
    | BoolEntry
    | StringEntry
    | ByteEntry
    | Float32ListEntry

  /** The tag byte written for each entry type. */
  function TypeCode(t: EntryType): byte
  {
    match t
    case UndefinedEntry => 0
    case Int64Entry => 1
    case Uint64Entry => 2
    case Float64Entry => 3
    case BoolEntry => 4
    case StringEntry => 5
    case ByteEntry => 6
    case Float32ListEntry => 7
  }

  /** The entry type a tag byte names, if any. */
  function TypeOfCode(b: byte): (r: Option<EntryType>)
    ensures r.Some? <==> b < 8
    ensures r.Some? ==> TypeCode(r.value) == b
  {
    if b == 0 then Some(UndefinedEntry)
    else if b == 1 then Some(Int64Entry)
    else if b == 2 then Some(Uint64Entry)
    else if b == 3 then Some(Float64Entry)
    else if b == 4 then Some(BoolEntry)
    else if b == 5 then Some(StringEntry)
    else if b == 6 then Some(ByteEntry)
    else if b == 7 then Some(Float32ListEntry)
    else None
  }

  /** Distinct entry types have distinct tags, so a reader can tell them apart by one byte. */
  lemma TypeCodesDistinct(s: EntryType, t: EntryType)
    ensures TypeCode(s) == TypeCode(t) <==> s == t
    ensures TypeOfCode(TypeCode(t)) == Some(t)
  {
  }

  const UINT64_TAG: byte := TypeCode(Uint64Entry)
  const STRING_TAG: byte := TypeCode(StringEntry)
  const BYTE_TAG: byte := TypeCode(ByteEntry)
  const FLOAT32_LIST_TAG: byte := TypeCode(Float32ListEntry)

  datatype Entry = Entry(entryType: byte, padding: seq<byte>, valSize: u64)

  datatype MessageHeader = MessageHeader(
    protocolIdent: seq<byte>,
    messageType: byte,
    padding: byte,
    messageSize: u64)

  predicate WellSizedEntry(e: Entry)
  {
    |e.padding| == 7
  }

  predicate WellSizedHeader(h: MessageHeader)
  {
    |h.protocolIdent| == 6
  }

  /**
    A default-initialised `Entry`: the member initialisers give type UNDEFINED
    and size 0; the padding has none, so it is whatever the memory held.
   */
  function DefaultEntry(padding: seq<byte>): (e: Entry)
    requires |padding| == 7
    ensures WellSizedEntry(e)
    ensures TypeOfCode(e.entryType) == Some(UndefinedEntry) && e.valSize == 0
  {
    Entry(0, padding, 0)
  }

  /**
    A default-initialised `MessageHeader`: the member initialisers give the
    "hanami" ident, type 0 and size 0; the padding byte has none.
   */
  function DefaultHeader(padding: byte): (h: MessageHeader)
    ensures WellSizedHeader(h)
    ensures h.protocolIdent == PROTOCOL_IDENT && h.messageType == 0 && h.messageSize == 0
  {
    MessageHeader(PROTOCOL_IDENT, 0, padding, 0)
  }

  /** The 16 bytes an `Entry` occupies in memory. */
  function EncodeEntry(e: Entry): (r: seq<byte>)
    requires WellSizedEntry(e)
    ensures |r| == ENTRY_SIZE
    ensures r[0] == e.entryType && r[1..8] == e.padding
    ensures FromLE(r[8..16]) == e.valSize
  {
    var r := [e.entryType] + e.padding + EncodeU64(e.valSize);
    assert r[8..16] == EncodeU64(e.valSize);
    r
  }

  /** The `Entry` that the first 16 bytes of `s` hold. */
  function DecodeEntry(s: seq<byte>): (e: Entry)
    requires |s| >= ENTRY_SIZE
    ensures WellSizedEntry(e)
    ensures EncodeEntry(e) == s[..ENTRY_SIZE]
  {
    var e := Entry(s[0], s[1..8], DecodeU64(s[8..16]));
    assert EncodeEntry(e) == [s[0]] + s[1..8] + s[8..16];
    e
  }

  /** The 16 bytes a `MessageHeader` occupies in memory. */
  function EncodeHeader(h: MessageHeader): (r: seq<byte>)
    requires WellSizedHeader(h)
    ensures |r| == HEADER_SIZE
    ensures r[..6] == h.protocolIdent && r[6] == h.messageType && r[7] == h.padding
    ensures FromLE(r[8..16]) == h.messageSize
  {
    var r := h.protocolIdent + [h.messageType, h.padding] + EncodeU64(h.messageSize);
    assert r[8..16] == EncodeU64(h.messageSize);
    r
  }

  /** The `MessageHeader` that the first 16 bytes of `s` hold. */
  function DecodeHeader(s: seq<byte>): (h: MessageHeader)
    requires |s| >= HEADER_SIZE
    ensures WellSizedHeader(h)
    ensures EncodeHeader(h) == s[..HEADER_SIZE]
  {
    var h := MessageHeader(s[..6], s[6], s[7], DecodeU64(s[8..16]));
    assert EncodeHeader(h) == s[..6] + [s[6], s[7]] + s[8..16];
    h
  }

  lemma EntryRoundTrip(e: Entry)
    requires WellSizedEntry(e)
    ensures DecodeEntry(EncodeEntry(e)) == e
  {
    var r := EncodeEntry(e);
    assert r[8..16] == EncodeU64(e.valSize);
    U64RoundTrip(e.valSize);
  }

  lemma HeaderRoundTrip(h: MessageHeader)
    requires WellSizedHeader(h)
    ensures DecodeHeader(EncodeHeader(h)) == h
  {
    var r := EncodeHeader(h);
    assert r[8..16] == EncodeU64(h.messageSize);
    U64RoundTrip(h.messageSize);
  }

  /** The payload size recorded in the entry descriptor at `pos`: bytes 8..16 of it. */
  function ValSizeAt(data: seq<byte>, pos: nat): (n: u64)
    requires pos + ENTRY_SIZE <= |data|
    ensures n == FromLE(data[pos + 8..pos + 16])
  {
    DecodeU64(data[pos + 8..pos + 16])
  }

  /** The size field at `pos` is that of the entry decoded there. */
  lemma ValSizeAtDecodes(data: seq<byte>, pos: nat)
    requires pos + ENTRY_SIZE <= |data|
    ensures ValSizeAt(data, pos) == DecodeEntry(data[pos..]).valSize
  {
    assert data[pos..][8..16] == data[pos + 8..pos + 16];
  }
}
