/**
  The reading half of `HanamiMessage`: `initRead` and the four `read*`
  operations. They share the instance's cursor `m_pos`, which is threaded
  through here as `pos` and returned in `Outcome.pos`. Outputs are passed in
  and handed back, because the source leaves them untouched on a type
  mismatch and also when the entry's size field is 0.

  None of the readers takes the length of the buffer or checks a bound: the
  precondition of each names exactly the bytes it dereferences. The cursor
  is a `uint64_t`, so its advance wraps modulo 2^64.
 */
module Readers {
  import opened Bytes
  import opened Layout

  datatype Outcome<T> = Outcome(ok: bool, pos: u64, output: T)

  /**
    A zero-copy view into the input: the offset the returned pointer designates
    and the size written beside it (a byte count for `readBinary`, an element
    count for `readFloatList`).
   */
  datatype View = View(start: u64, size: u64)

  /** The bytes a `readBinary` view designates. */
  function BinaryPayload(data: seq<byte>, v: View): (r: seq<byte>)
    requires v.start + v.size <= |data|
    ensures |r| == v.size
  {
    data[v.start..v.start + v.size]
  }

  /** The bytes a `readFloatList` view designates: 4 per value. */
  function FloatPayload(data: seq<byte>, v: View): (r: seq<byte>)
    requires v.start + 4 * v.size <= |data|
    ensures |r| == 4 * v.size
  {
    data[v.start..v.start + 4 * v.size]
  }

  /**
    `initRead`: accepts when there is room for a header, the header's size
    field equals the number of bytes supplied and its type byte is the
    message's own type; then the cursor moves to the first entry. The ident
    bytes are never looked at.
   */
  function InitRead(data: seq<byte>, messageType: byte, pos: u64): (r: Outcome<()>)
    requires |data| < U64_LIMIT
    ensures r.ok <==>
      && |data| >= HEADER_SIZE
      && DecodeHeader(data).messageSize == |data|
      && DecodeHeader(data).messageType == messageType
    ensures r.pos == (if r.ok then HEADER_SIZE else pos)
  {
    if |data| < HEADER_SIZE then Outcome(false, pos, ())
    else if DecodeU64(data[8..16]) != |data| then Outcome(false, pos, ())
    else if data[6] != messageType then Outcome(false, pos, ())
    else Outcome(true, HEADER_SIZE, ())
  }

  /**
    The tag byte at `pos` is there, and so is the descriptor when the tag is
    `tag`. The buffer, like any in a 64-bit address space, has fewer than 2^64
    bytes.
   */
  predicate DescriptorReadable(data: seq<byte>, pos: nat, tag: byte)
  {
    && |data| < U64_LIMIT
    && pos < |data|
    && (data[pos] == tag ==> pos + ENTRY_SIZE <= |data|)
  }

  /** What `readUint` dereferences: the tag, and on a match the descriptor and 8 payload bytes. */
  predicate UintReadable(data: seq<byte>, pos: nat)
  {
    && DescriptorReadable(data, pos, UINT64_TAG)
    && (data[pos] == UINT64_TAG && ValSizeAt(data, pos) > 0 ==> pos + ENTRY_SIZE + 8 <= |data|)
  }

  /** What `readString` dereferences: the tag, and on a match the descriptor and the payload. */
  predicate StringReadable(data: seq<byte>, pos: nat)
  {
    && DescriptorReadable(data, pos, STRING_TAG)
    && (data[pos] == STRING_TAG ==> pos + ENTRY_SIZE + ValSizeAt(data, pos) <= |data|)
  }

  /**
    `readUint`: on a UINT64 tag, reads 8 bytes as the value when the size field
    is non-zero, and advances the cursor past the descriptor and by the size
    field, whatever that says.
   */
  function ReadUint(data: seq<byte>, pos: u64, output: u64): (r: Outcome<u64>)
    requires UintReadable(data, pos)
    ensures data[pos] != UINT64_TAG ==> r == Outcome(false, pos, output)
    ensures data[pos] == UINT64_TAG ==>
      var n := ValSizeAt(data, pos);
      && r.ok
      && r.pos == AddU64(AddU64(pos, ENTRY_SIZE), n)
      && r.output == (if n > 0 then DecodeU64(data[pos + 16..pos + 24]) else output)
  {
    if data[pos] != UINT64_TAG then Outcome(false, pos, output)
    else
      var valSize := ValSizeAt(data, pos);
      var p := AddU64(pos, ENTRY_SIZE);
      if valSize > 0 then Outcome(true, AddU64(p, valSize), DecodeU64(data[p..p + 8]))
      else Outcome(true, p, output)
  }

  /**
    `readString`: on a STRING tag, copies out as many bytes as the size field
    says (when that is non-zero) and advances the cursor past them.
   */
  function ReadString(data: seq<byte>, pos: u64, output: seq<byte>): (r: Outcome<seq<byte>>)
    requires StringReadable(data, pos)
    ensures data[pos] != STRING_TAG ==> r == Outcome(false, pos, output)
    ensures data[pos] == STRING_TAG ==>
      var n := ValSizeAt(data, pos);
      && r.ok
      && r.pos == AddU64(AddU64(pos, ENTRY_SIZE), n)
      && r.output == (if n > 0 then data[pos + 16..pos + 16 + n] else output)
  {
    if data[pos] != STRING_TAG then Outcome(false, pos, output)
    else
      var valSize := ValSizeAt(data, pos);
      var p := AddU64(pos, ENTRY_SIZE);
      if valSize > 0 then Outcome(true, AddU64(p, valSize), data[p..p + valSize])
      else Outcome(true, p, output)
  }

  /**
    `readBinary`: on a BYTE tag, returns a view of the payload without copying
    it (when the size field is non-zero) and advances the cursor past it.
   */
  function ReadBinary(data: seq<byte>, pos: u64, output: View): (r: Outcome<View>)
    requires DescriptorReadable(data, pos, BYTE_TAG)
    ensures data[pos] != BYTE_TAG ==> r == Outcome(false, pos, output)
    ensures data[pos] == BYTE_TAG ==>
      var n := ValSizeAt(data, pos);
      && r.ok
      && r.pos == AddU64(AddU64(pos, ENTRY_SIZE), n)
      && r.output == (if n > 0 then View(AddU64(pos, ENTRY_SIZE), n) else output)
  {
    if data[pos] != BYTE_TAG then Outcome(false, pos, output)
    else
      var valSize := ValSizeAt(data, pos);
      var p := AddU64(pos, ENTRY_SIZE);
      if valSize > 0 then Outcome(true, AddU64(p, valSize), View(p, valSize))
      else Outcome(true, p, output)
  }

  /**
    `readFloatList`: on a FLOAT32_LIST tag, returns a view of the values and
    their number (when that is non-zero) and advances the cursor by 4 bytes
    per value; the product is taken in 64 bits.
   */
  function ReadFloatList(data: seq<byte>, pos: u64, output: View): (r: Outcome<View>)
    requires DescriptorReadable(data, pos, FLOAT32_LIST_TAG)
    ensures data[pos] != FLOAT32_LIST_TAG ==> r == Outcome(false, pos, output)
    ensures data[pos] == FLOAT32_LIST_TAG ==>
      var n := ValSizeAt(data, pos);
      && r.ok
      && r.pos == AddU64(AddU64(pos, ENTRY_SIZE), MulU64(n, 4))
      && r.output == (if n > 0 then View(AddU64(pos, ENTRY_SIZE), n) else output)
  {
    if data[pos] != FLOAT32_LIST_TAG then Outcome(false, pos, output)
    else
      var valSize := ValSizeAt(data, pos);
      var p := AddU64(pos, ENTRY_SIZE);
      if valSize > 0 then Outcome(true, AddU64(p, MulU64(valSize, 4)), View(p, valSize))
      else Outcome(true, p, output)
  }

  /**
    A float-list descriptor whose values lie inside the buffer: the cursor
    moves past them without wrapping.
   */
  lemma ReadFloatListInBounds(data: seq<byte>, at: u64, n: u64, output: View)
    requires |data| < U64_LIMIT
    requires at + ENTRY_SIZE + 4 * n <= |data|
    requires data[at] == FLOAT32_LIST_TAG && ValSizeAt(data, at) == n
    ensures DescriptorReadable(data, at, FLOAT32_LIST_TAG)
    ensures ReadFloatList(data, at, output)
         == Outcome(true, at + ENTRY_SIZE + 4 * n, if n > 0 then View(at + ENTRY_SIZE, n) else output)
  {
    assert MulU64(n, 4) == 4 * n;
  }

  /** `initRead` never looks at the ident bytes 0..6 or the padding byte 7. */
  lemma InitReadIgnoresIdent(a: seq<byte>, b: seq<byte>, messageType: byte, pos: u64)
    requires |a| == |b| < U64_LIMIT
    requires forall i | 0 <= i < |a| && (i == 6 || 8 <= i < HEADER_SIZE) :: a[i] == b[i]
    ensures InitRead(a, messageType, pos) == InitRead(b, messageType, pos)
  {
    if |a| >= HEADER_SIZE {
      assert a[8..16] == b[8..16];
    }
  }

  /** The padding bytes 1..8 of an entry never influence `readString`. */
  lemma ReadStringIgnoresPadding(a: seq<byte>, b: seq<byte>, pos: u64, output: seq<byte>)
    requires StringReadable(a, pos)
    requires |a| == |b|
    requires forall i | 0 <= i < |a| && !(pos < i < pos + 8) :: a[i] == b[i]
    ensures StringReadable(b, pos)
    ensures ReadString(a, pos, output) == ReadString(b, pos, output)
  {
    if a[pos] == STRING_TAG {
      assert a[pos + 8..pos + 16] == b[pos + 8..pos + 16];
      var n := ValSizeAt(a, pos);
      assert a[pos + 16..pos + 16 + n] == b[pos + 16..pos + 16 + n];
    }
  }

  /**
    A default-initialised entry is tagged UNDEFINED, none of the four kinds the
    readers take: each of them fails on it and leaves cursor and output alone.
   */
  lemma DefaultEntryRejected(data: seq<byte>, at: u64, padding: seq<byte>, n: u64, s: seq<byte>, v: View)
    requires |padding| == 7
    requires at + ENTRY_SIZE <= |data| < U64_LIMIT
    requires data[at..at + ENTRY_SIZE] == EncodeEntry(DefaultEntry(padding))
    ensures UintReadable(data, at) && StringReadable(data, at)
    ensures DescriptorReadable(data, at, BYTE_TAG) && DescriptorReadable(data, at, FLOAT32_LIST_TAG)
    ensures ReadUint(data, at, n) == Outcome(false, at, n)
    ensures ReadString(data, at, s) == Outcome(false, at, s)
    ensures ReadBinary(data, at, v) == Outcome(false, at, v)
    ensures ReadFloatList(data, at, v) == Outcome(false, at, v)
  {
    assert data[at] == data[at..at + ENTRY_SIZE][0];
  }

  /**
    `initRead` rejects a default-initialised header, whatever follows it: its
    size field is 0, never the length of a buffer that holds a header.
   */
  lemma DefaultHeaderRejected(padding: byte, rest: seq<byte>, messageType: byte, pos: u64)
    requires HEADER_SIZE + |rest| < U64_LIMIT
    ensures InitRead(EncodeHeader(DefaultHeader(padding)) + rest, messageType, pos) == Outcome(false, pos, ())
  {
    var h := DefaultHeader(padding);
    var data := EncodeHeader(h) + rest;
    assert data[..HEADER_SIZE] == EncodeHeader(h);
    HeaderRoundTrip(h);
  }
}
