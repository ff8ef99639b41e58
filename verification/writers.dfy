/**
  The writing half of `HanamiMessage`: `initBlob` and the four `append*`
  operations. Each writes into a caller-supplied buffer at a given offset
  (the source passes `&result[pos]`), without any bounds check, and returns
  the number of bytes it accounts for. Here a writer returns the new buffer
  together with that count; its precondition is the room the source assumes
  the caller has made.
 */
module Writers {
  import opened Bytes
  import opened Layout

  /** A buffer after a write, and the byte count the writer returned. */
  datatype Written = Written(buf: seq<byte>, size: nat)

  /** A 32-bit float, carried as its four raw bytes: the codec never interprets them. */
  type Float32Bits = s: seq<byte> | |s| == 4 witness [0, 0, 0, 0]

  /** The values' bytes laid end to end, as `memcpy` copies a `float` array. */
  function Flatten(values: seq<Float32Bits>): (r: seq<byte>)
    ensures |r| == 4 * |values|
    ensures forall k | 0 <= k < |values| :: r[4 * k..4 * k + 4] == values[k]
  {
    var r := seq(4 * |values|, i requires 0 <= i < 4 * |values| => values[i / 4][i % 4]);
    assert forall k | 0 <= k < |values| :: r[4 * k..4 * k + 4] == values[k] by {
      forall k | 0 <= k < |values|
        ensures r[4 * k..4 * k + 4] == values[k]
      {
        assert forall j | 0 <= j < 4 :: r[4 * k + j] == values[k][j];
      }
    }
    r
  }

  /** The bytes of the header at `at` that `initBlob` assigns: the type byte and the size field. */
  predicate HeaderWritten(at: nat, i: nat)
  {
    i == at + 6 || at + 8 <= i < at + HEADER_SIZE
  }

  /** The bytes an entry writer assigns: the tag byte, the size field and the payload. */
  predicate EntryWritten(at: nat, payloadLength: nat, i: nat)
  {
    i == at || at + 8 <= i < at + ENTRY_SIZE + payloadLength
  }

  /**
    The buffer holds, at `at`, an entry descriptor with tag `tag` and size
    field `valSize`, followed by `payload`. The padding bytes 1..8 are not
    constrained.
   */
  predicate EntryAt(data: seq<byte>, at: nat, tag: byte, valSize: u64, payload: seq<byte>)
  {
    && at + ENTRY_SIZE + |payload| <= |data|
    && data[at] == tag
    && FromLE(data[at + 8..at + 16]) == valSize
    && data[at + ENTRY_SIZE..at + ENTRY_SIZE + |payload|] == payload
  }

  /**
    `initBlob`: fills in the type byte and the total message size of the
    header at `at`, and returns the header size. The ident bytes 0..6 and the
    padding byte 7 are left as they were: the default member initialiser of
    the header does not run when memory is reinterpreted as a header.
   */
  function InitBlob(buf: seq<byte>, at: nat, messageType: byte, totalMsgSize: u64): (w: Written)
    requires at + HEADER_SIZE <= |buf|
    ensures |w.buf| == |buf| && w.size == HEADER_SIZE
    ensures DecodeHeader(w.buf[at..]).messageType == messageType
    ensures DecodeHeader(w.buf[at..]).messageSize == totalMsgSize
    ensures forall i | 0 <= i < |buf| && !HeaderWritten(at, i) :: w.buf[i] == buf[i]
  {
    var b1 := Overwrite(buf, at + 6, [messageType]);
    var b2 := Overwrite(b1, at + 8, EncodeU64(totalMsgSize));
    assert b2[at..][8..16] == EncodeU64(totalMsgSize);
    U64RoundTrip(totalMsgSize);
    Written(b2, HEADER_SIZE)
  }

  /**
    The common shape of the four entry writers: tag at `at`, `valSize` at
    `at + 8`, then `payload` at `at + 16`; the result counts descriptor and
    payload. A writer copies its payload only when `valSize > 0`; every writer
    below passes an empty payload exactly when `valSize` is 0, so copying an
    empty payload unconditionally is the same thing.
   */
  function WriteEntry(buf: seq<byte>, at: nat, tag: byte, valSize: u64, payload: seq<byte>): (w: Written)
    requires at + ENTRY_SIZE + |payload| <= |buf|
    ensures |w.buf| == |buf| && w.size == ENTRY_SIZE + |payload|
    ensures EntryAt(w.buf, at, tag, valSize, payload)
    ensures forall i | 0 <= i < |buf| && !EntryWritten(at, |payload|, i) :: w.buf[i] == buf[i]
  {
    var b1 := Overwrite(buf, at, [tag]);
    var b2 := Overwrite(b1, at + 8, EncodeU64(valSize));
    var b3 := Overwrite(b2, at + ENTRY_SIZE, payload);
    assert b3[at + 8..at + 16] == b2[at + 8..at + 16];
    Written(b3, ENTRY_SIZE + |payload|)
  }

  /** `appendUint`: a 24-byte entry, tag UINT64, size 8, the value's 8 bytes as payload. */
  function AppendUint(buf: seq<byte>, at: nat, val: u64): (w: Written)
    requires at + ENTRY_SIZE + 8 <= |buf|
    ensures |w.buf| == |buf| && w.size == 24
    ensures EntryAt(w.buf, at, UINT64_TAG, 8, EncodeU64(val))
    ensures DecodeU64(w.buf[at + 16..at + 24]) == val
    ensures forall i | 0 <= i < |buf| && !EntryWritten(at, 8, i) :: w.buf[i] == buf[i]
  {
    U64RoundTrip(val);
    WriteEntry(buf, at, UINT64_TAG, 8, EncodeU64(val))
  }

  /** `appendString`: tag STRING, size the string's byte length, the bytes without terminator. */
  function AppendString(buf: seq<byte>, at: nat, val: seq<byte>): (w: Written)
    requires |val| < U64_LIMIT
    requires at + ENTRY_SIZE + |val| <= |buf|
    ensures |w.buf| == |buf| && w.size == ENTRY_SIZE + |val|
    ensures EntryAt(w.buf, at, STRING_TAG, |val|, val)
    ensures forall i | 0 <= i < |buf| && !EntryWritten(at, |val|, i) :: w.buf[i] == buf[i]
  {
    WriteEntry(buf, at, STRING_TAG, |val|, val)
  }

  /** `appendData`: tag BYTE, size the number of bytes, a raw copy of them. */
  function AppendData(buf: seq<byte>, at: nat, data: seq<byte>): (w: Written)
    requires |data| < U64_LIMIT
    requires at + ENTRY_SIZE + |data| <= |buf|
    ensures |w.buf| == |buf| && w.size == ENTRY_SIZE + |data|
    ensures EntryAt(w.buf, at, BYTE_TAG, |data|, data)
    ensures forall i | 0 <= i < |buf| && !EntryWritten(at, |data|, i) :: w.buf[i] == buf[i]
  {
    WriteEntry(buf, at, BYTE_TAG, |data|, data)
  }

  /**
    `appendFloatList`: tag FLOAT32_LIST; the size field holds the number of
    values, not the number of bytes; the payload is 4 bytes per value.
   */
  function AppendFloatList(buf: seq<byte>, at: nat, values: seq<Float32Bits>): (w: Written)
    requires |values| < U64_LIMIT
    requires at + ENTRY_SIZE + 4 * |values| <= |buf|
    ensures |w.buf| == |buf| && w.size == ENTRY_SIZE + 4 * |values|
    ensures EntryAt(w.buf, at, FLOAT32_LIST_TAG, |values|, Flatten(values))
    ensures forall i | 0 <= i < |buf| && !EntryWritten(at, 4 * |values|, i) :: w.buf[i] == buf[i]
  {
    WriteEntry(buf, at, FLOAT32_LIST_TAG, |values|, Flatten(values))
  }

  /** An entry survives any change to the buffer that keeps its bytes and the buffer's length. */
  lemma EntryAtFrame(a: seq<byte>, b: seq<byte>, at: nat, tag: byte, valSize: u64, payload: seq<byte>)
    requires EntryAt(a, at, tag, valSize, payload)
    requires |b| == |a|
    requires forall i | at <= i < at + ENTRY_SIZE + |payload| :: b[i] == a[i]
    ensures EntryAt(b, at, tag, valSize, payload)
  {
    assert b[at + 8..at + 16] == a[at + 8..at + 16];
    assert b[at + ENTRY_SIZE..at + ENTRY_SIZE + |payload|] == a[at + ENTRY_SIZE..at + ENTRY_SIZE + |payload|];
  }

  /** An entry survives cutting the buffer anywhere after its payload. */
  lemma EntryAtPrefix(a: seq<byte>, n: nat, at: nat, tag: byte, valSize: u64, payload: seq<byte>)
    requires EntryAt(a, at, tag, valSize, payload)
    requires at + ENTRY_SIZE + |payload| <= n <= |a|
    ensures EntryAt(a[..n], at, tag, valSize, payload)
  {
    assert a[..n][at + 8..at + 16] == a[at + 8..at + 16];
    assert a[..n][at + ENTRY_SIZE..at + ENTRY_SIZE + |payload|] == a[at + ENTRY_SIZE..at + ENTRY_SIZE + |payload|];
  }

  /** The size field of an entry a writer left at `at` reads back as the value written. */
  lemma ValSizeOfEntry(data: seq<byte>, at: nat, tag: byte, valSize: u64, payload: seq<byte>)
    requires EntryAt(data, at, tag, valSize, payload)
    ensures ValSizeAt(data, at) == valSize
  {
    var s := data[at + 8..at + 16];
    FromLEInjective(EncodeU64(valSize), s);
    U64RoundTrip(valSize);
  }
}
