/**
  Each writer paired with its reader: what an `append*` call leaves in a
  buffer, the matching `read*` call gives back, and the cursor lands just past
  the entry.
 */
module RoundTrips {
  import opened Bytes
  import opened Layout
  import opened Writers
  import opened Readers

  /** A header written by `initBlob` with the true total size passes `initRead`. */
  lemma InitReadAcceptsInitBlob(buf: seq<byte>, messageType: byte, pos: u64)
    requires HEADER_SIZE <= |buf| < U64_LIMIT
    ensures InitRead(InitBlob(buf, 0, messageType, |buf|).buf, messageType, pos) == Outcome(true, HEADER_SIZE, ())
  {
    assert InitBlob(buf, 0, messageType, |buf|).buf[0..] == InitBlob(buf, 0, messageType, |buf|).buf;
  }

  /** Reading an entry `appendUint` wrote yields its value and moves 24 bytes on. */
  lemma UintRoundTrip(data: seq<byte>, at: u64, val: u64, output: u64)
    requires EntryAt(data, at, UINT64_TAG, 8, EncodeU64(val))
    requires |data| < U64_LIMIT
    ensures UintReadable(data, at)
    ensures ReadUint(data, at, output) == Outcome(true, at + 24, val)
  {
    ValSizeOfEntry(data, at, UINT64_TAG, 8, EncodeU64(val));
    U64RoundTrip(val);
  }

  /**
    Reading an entry `appendString` wrote yields the string and moves past it;
    an empty string leaves the output as it was.
   */
  lemma StringRoundTrip(data: seq<byte>, at: u64, val: seq<byte>, output: seq<byte>)
    requires |val| < U64_LIMIT
    requires EntryAt(data, at, STRING_TAG, |val|, val)
    requires |data| < U64_LIMIT
    ensures StringReadable(data, at)
    ensures ReadString(data, at, output) == Outcome(true, at + ENTRY_SIZE + |val|, if |val| > 0 then val else output)
  {
    ValSizeOfEntry(data, at, STRING_TAG, |val|, val);
  }

  /** Reading an entry `appendData` wrote yields a view of exactly the bytes written. */
  lemma BinaryRoundTrip(data: seq<byte>, at: u64, bytes: seq<byte>, output: View)
    requires |bytes| < U64_LIMIT
    requires EntryAt(data, at, BYTE_TAG, |bytes|, bytes)
    requires |data| < U64_LIMIT
    ensures DescriptorReadable(data, at, BYTE_TAG)
    ensures ReadBinary(data, at, output)
         == Outcome(true, at + ENTRY_SIZE + |bytes|, if |bytes| > 0 then View(at + ENTRY_SIZE, |bytes|) else output)
    ensures |bytes| > 0 ==> BinaryPayload(data, View(at + ENTRY_SIZE, |bytes|)) == bytes
  {
    ValSizeOfEntry(data, at, BYTE_TAG, |bytes|, bytes);
  }

  /** Reading an entry `appendFloatList` wrote yields a view of the values and their number. */
  lemma FloatListRoundTrip(data: seq<byte>, at: u64, values: seq<Float32Bits>, output: View)
    requires |values| < U64_LIMIT
    requires EntryAt(data, at, FLOAT32_LIST_TAG, |values|, Flatten(values))
    requires |data| < U64_LIMIT
    ensures DescriptorReadable(data, at, FLOAT32_LIST_TAG)
    ensures at + ENTRY_SIZE + 4 * |values| < U64_LIMIT
    ensures ReadFloatList(data, at, output)
         == Outcome(true, at + ENTRY_SIZE + 4 * |values|, if |values| > 0 then View(at + ENTRY_SIZE, |values|) else output)
    ensures |values| > 0 ==> FloatPayload(data, View(at + ENTRY_SIZE, |values|)) == Flatten(values)
  {
    ValSizeOfEntry(data, at, FLOAT32_LIST_TAG, |values|, Flatten(values));
    ReadFloatListInBounds(data, at, |values|, output);
  }

  /** `appendUint` then `readUint` at the same offset: the value comes back and the cursor moves 24 bytes. */
  lemma AppendUintThenRead(buf: seq<byte>, at: u64, val: u64, output: u64)
    requires at + ENTRY_SIZE + 8 <= |buf| < U64_LIMIT
    ensures ReadUint(AppendUint(buf, at, val).buf, at, output) == Outcome(true, at + 24, val)
  {
    UintRoundTrip(AppendUint(buf, at, val).buf, at, val, output);
  }

  /** `appendString` then `readString` at the same offset: the string comes back, an empty one keeps the old output. */
  lemma AppendStringThenRead(buf: seq<byte>, at: u64, val: seq<byte>, output: seq<byte>)
    requires at + ENTRY_SIZE + |val| <= |buf| < U64_LIMIT
    ensures ReadString(AppendString(buf, at, val).buf, at, output)
         == Outcome(true, at + ENTRY_SIZE + |val|, if |val| > 0 then val else output)
  {
    StringRoundTrip(AppendString(buf, at, val).buf, at, val, output);
  }

  /** `appendData` then `readBinary` at the same offset: a view of exactly the bytes written. */
  lemma AppendDataThenRead(buf: seq<byte>, at: u64, bytes: seq<byte>, output: View)
    requires at + ENTRY_SIZE + |bytes| <= |buf| < U64_LIMIT
    requires |bytes| > 0
    ensures var data := AppendData(buf, at, bytes).buf;
      && ReadBinary(data, at, output) == Outcome(true, at + ENTRY_SIZE + |bytes|, View(at + ENTRY_SIZE, |bytes|))
      && BinaryPayload(data, View(at + ENTRY_SIZE, |bytes|)) == bytes
  {
    BinaryRoundTrip(AppendData(buf, at, bytes).buf, at, bytes, output);
  }

  /** `appendFloatList` then `readFloatList` at the same offset: a view of exactly the values written. */
  lemma AppendFloatListThenRead(buf: seq<byte>, at: u64, values: seq<Float32Bits>, output: View)
    requires at + ENTRY_SIZE + 4 * |values| <= |buf| < U64_LIMIT
    requires |values| > 0
    ensures var data := AppendFloatList(buf, at, values).buf;
      && ReadFloatList(data, at, output) == Outcome(true, at + ENTRY_SIZE + 4 * |values|, View(at + ENTRY_SIZE, |values|))
      && FloatPayload(data, View(at + ENTRY_SIZE, |values|)) == Flatten(values)
  {
    FloatListRoundTrip(AppendFloatList(buf, at, values).buf, at, values, output);
  }
}
