/**
  `ErrorLog_Message`: the one concrete Hanami message. Its kind byte is 255
  and it carries five strings, always in the order userUuid, component,
  errorMsg, context, values. `createBlob` writes a header and one string
  entry per field in that order; `read` checks the header and reads the
  string entries back in the same order into the instance's fields.

  Both walk the ordered field list (`Fields`), one `appendString` or
  `readString` per field, which is what the five hand-written calls of the
  source do.
 */
module ErrorLog {
  import opened Bytes
  import opened Layout
  import opened Writers
  import opened Readers
  import opened RoundTrips
  import opened Sniff

  /** The kind byte an `ErrorLog_Message` sets in its constructor. */
  const ERROR_LOG_TYPE: byte := 255

  /** An instance: the base class state (`m_type`, `m_pos`) and the five fields. */
  datatype ErrorLogMessage = ErrorLogMessage(
    messageType: byte,
    pos: u64,
    userUuid: seq<byte>,
    component: seq<byte>,
    errorMsg: seq<byte>,
    context: seq<byte>,
    values: seq<byte>)

  /** The fields in the order they are written and read. */
  function Fields(m: ErrorLogMessage): (fs: seq<seq<byte>>)
    ensures |fs| == 5
  {
    [m.userUuid, m.component, m.errorMsg, m.context, m.values]
  }

  /** The instance with its fields replaced, in field order, by `fs`. */
  function WithFields(m: ErrorLogMessage, fs: seq<seq<byte>>): (m': ErrorLogMessage)
    requires |fs| == 5
    ensures Fields(m') == fs
    ensures m'.messageType == m.messageType && m'.pos == m.pos
  {
    m.(userUuid := fs[0], component := fs[1], errorMsg := fs[2], context := fs[3], values := fs[4])
  }

  /**
    A freshly constructed instance: the base class starts with type and
    cursor 0, the constructor sets the type to 255, every field is empty.
   */
  function NewErrorLogMessage(): (m: ErrorLogMessage)
    ensures m.messageType == ERROR_LOG_TYPE && m.pos == 0
    ensures forall k | 0 <= k < 5 :: Fields(m)[k] == []
  {
    ErrorLogMessage(ERROR_LOG_TYPE, 0, [], [], [], [], [])
  }

  /** Every string of `vals` has a length a `uint64_t` can hold. */
  predicate LengthsFit(vals: seq<seq<byte>>)
  {
    |vals| == 0 || (|vals[0]| < U64_LIMIT && LengthsFit(vals[1..]))
  }

  /** Bytes taken by one string entry per element of `vals`. */
  function EntriesSize(vals: seq<seq<byte>>): nat
  {
    if |vals| == 0 then 0 else ENTRY_SIZE + |vals[0]| + EntriesSize(vals[1..])
  }

  /** Strings whose entries fit in a 64-bit size have lengths that fit too. */
  lemma {:induction false} LengthsFitWithinEntries(vals: seq<seq<byte>>)
    requires EntriesSize(vals) < U64_LIMIT
    ensures LengthsFit(vals)
  {
    if |vals| > 0 {
      LengthsFitWithinEntries(vals[1..]);
    }
  }

  /** The offset of entry `j` when entries for `vals` are laid end to end from `at`. */
  lemma {:induction false} EntriesSizeSplit(vals: seq<seq<byte>>, j: nat)
    requires j < |vals|
    ensures EntriesSize(vals) == EntriesSize(vals[..j]) + ENTRY_SIZE + |vals[j]| + EntriesSize(vals[j + 1..])
  {
    if j > 0 {
      EntriesSizeSplit(vals[1..], j - 1);
      assert vals[..j][1..] == vals[1..][..j - 1];
      assert vals[1..][j..] == vals[j + 1..];
    } else {
      assert vals[1..] == vals[j + 1..];
    }
  }

  /**
    `createBlob`'s `totalMsgSize`: the header, five entry descriptors and the
    five strings' bytes. It is the room one string entry per field takes
    after the header.
   */
  function TotalMsgSize(m: ErrorLogMessage): (n: nat)
    ensures n == HEADER_SIZE + EntriesSize(Fields(m))
  {
    var fs := Fields(m);
    assert fs[1..] == [m.component, m.errorMsg, m.context, m.values];
    assert fs[1..][1..] == [m.errorMsg, m.context, m.values];
    assert fs[1..][1..][1..] == [m.context, m.values];
    assert fs[1..][1..][1..][1..] == [m.values];
    assert fs[1..][1..][1..][1..][1..] == [];
    assert EntriesSize(fs[1..][1..][1..][1..]) == ENTRY_SIZE + |m.values|;
    assert EntriesSize(fs[1..][1..][1..]) == 2 * ENTRY_SIZE + |m.context| + |m.values|;
    assert EntriesSize(fs[1..][1..]) == 3 * ENTRY_SIZE + |m.errorMsg| + |m.context| + |m.values|;
    HEADER_SIZE + 5 * ENTRY_SIZE
      + |m.userUuid| + |m.component| + |m.errorMsg| + |m.context| + |m.values|
  }

  /** One string entry per element of `vals`, laid end to end from `at`. */
  predicate StringEntriesAt(data: seq<byte>, at: nat, vals: seq<seq<byte>>)
    decreases |vals|
  {
    if |vals| == 0 then at <= |data|
    else
      (&& |vals[0]| < U64_LIMIT
       && EntryAt(data, at, STRING_TAG, |vals[0]|, vals[0])
       && StringEntriesAt(data, at + ENTRY_SIZE + |vals[0]|, vals[1..]))
  }

  lemma {:induction false} StringEntriesInside(data: seq<byte>, at: nat, vals: seq<seq<byte>>)
    requires StringEntriesAt(data, at, vals)
    ensures at + EntriesSize(vals) <= |data|
    decreases |vals|
  {
    if |vals| > 0 {
      StringEntriesInside(data, at + ENTRY_SIZE + |vals[0]|, vals[1..]);
    }
  }

  /** Entries survive any change that keeps their bytes and the buffer's length. */
  lemma {:induction false} StringEntriesFrame(a: seq<byte>, b: seq<byte>, at: nat, vals: seq<seq<byte>>)
    requires StringEntriesAt(a, at, vals)
    requires |b| == |a|
    requires forall i | at <= i < at + EntriesSize(vals) && i < |a| :: b[i] == a[i]
    ensures StringEntriesAt(b, at, vals)
    decreases |vals|
  {
    if |vals| > 0 {
      EntryAtFrame(a, b, at, STRING_TAG, |vals[0]|, vals[0]);
      StringEntriesFrame(a, b, at + ENTRY_SIZE + |vals[0]|, vals[1..]);
    }
  }

  /** Entries survive cutting the buffer anywhere after the last of them. */
  lemma {:induction false} StringEntriesPrefix(a: seq<byte>, n: nat, at: nat, vals: seq<seq<byte>>)
    requires StringEntriesAt(a, at, vals)
    requires at + EntriesSize(vals) <= n <= |a|
    ensures StringEntriesAt(a[..n], at, vals)
    decreases |vals|
  {
    if |vals| > 0 {
      EntryAtPrefix(a, n, at, STRING_TAG, |vals[0]|, vals[0]);
      StringEntriesPrefix(a, n, at + ENTRY_SIZE + |vals[0]|, vals[1..]);
    }
  }

  /**
    The bytes a run of string entries for `vals` from `at` assigns: each
    entry's tag, size field and payload. The entries' padding is not among them.
   */
  predicate StringEntriesWritten(at: nat, vals: seq<seq<byte>>, i: nat)
    decreases |vals|
  {
    && |vals| > 0
    && (EntryWritten(at, |vals[0]|, i) || StringEntriesWritten(at + ENTRY_SIZE + |vals[0]|, vals[1..], i))
  }

  /** A run of entries assigns bytes only inside its own extent. */
  lemma {:induction false} StringEntriesWrittenInside(at: nat, vals: seq<seq<byte>>, i: nat)
    requires StringEntriesWritten(at, vals, i)
    ensures at <= i < at + EntriesSize(vals)
    decreases |vals|
  {
    if !EntryWritten(at, |vals[0]|, i) {
      StringEntriesWrittenInside(at + ENTRY_SIZE + |vals[0]|, vals[1..], i);
    }
  }

  /** Byte `k` of entry `j`'s padding (1 <= k < 8) is assigned by no entry of the run. */
  lemma {:induction false} EntryPaddingNotWritten(at: nat, vals: seq<seq<byte>>, j: nat, k: nat)
    requires j < |vals| && 1 <= k < 8
    ensures !StringEntriesWritten(at, vals, at + EntriesSize(vals[..j]) + k)
    decreases j
  {
    var i := at + EntriesSize(vals[..j]) + k;
    if StringEntriesWritten(at + ENTRY_SIZE + |vals[0]|, vals[1..], i) {
      if j == 0 {
        StringEntriesWrittenInside(at + ENTRY_SIZE + |vals[0]|, vals[1..], i);
      } else {
        assert vals[..j][1..] == vals[1..][..j - 1];
        EntryPaddingNotWritten(at + ENTRY_SIZE + |vals[0]|, vals[1..], j - 1, k);
      }
    }
  }

  /**
    `appendString` once per element of `vals`, each at the offset the previous
    one returned; the result is the total byte count. Nothing outside the
    entries changes, and inside them the padding bytes keep their values too.
   */
  function AppendStrings(buf: seq<byte>, at: nat, vals: seq<seq<byte>>): (w: Written)
    requires LengthsFit(vals)
    requires at + EntriesSize(vals) <= |buf|
    ensures |w.buf| == |buf| && w.size == EntriesSize(vals)
    ensures StringEntriesAt(w.buf, at, vals)
    ensures forall i | 0 <= i < |buf| && !(at <= i < at + EntriesSize(vals)) :: w.buf[i] == buf[i]
    ensures forall i | 0 <= i < |buf| && !StringEntriesWritten(at, vals, i) :: w.buf[i] == buf[i]
    decreases |vals|
  {
    if |vals| == 0 then Written(buf, 0)
    else
      var w1 := AppendString(buf, at, vals[0]);
      var w2 := AppendStrings(w1.buf, at + w1.size, vals[1..]);
      AppendStringsJoin(buf, at, vals, w1, w2);
      Written(w2.buf, w1.size + w2.size)
  }

  /** The first entry written, then the rest after it: together a run of entries for `vals`. */
  lemma AppendStringsJoin(buf: seq<byte>, at: nat, vals: seq<seq<byte>>, w1: Written, w2: Written)
    requires |vals| > 0 && |vals[0]| < U64_LIMIT
    requires |w1.buf| == |buf| && w1.size == ENTRY_SIZE + |vals[0]|
    requires EntryAt(w1.buf, at, STRING_TAG, |vals[0]|, vals[0])
    requires forall i | 0 <= i < |buf| && !EntryWritten(at, |vals[0]|, i) :: w1.buf[i] == buf[i]
    requires |w2.buf| == |buf| && StringEntriesAt(w2.buf, at + w1.size, vals[1..])
    requires forall i | 0 <= i < |buf| && !(at + w1.size <= i < at + w1.size + EntriesSize(vals[1..])) :: w2.buf[i] == w1.buf[i]
    requires forall i | 0 <= i < |buf| && !StringEntriesWritten(at + w1.size, vals[1..], i) :: w2.buf[i] == w1.buf[i]
    ensures StringEntriesAt(w2.buf, at, vals)
    ensures forall i | 0 <= i < |buf| && !(at <= i < at + EntriesSize(vals)) :: w2.buf[i] == buf[i]
    ensures forall i | 0 <= i < |buf| && !StringEntriesWritten(at, vals, i) :: w2.buf[i] == buf[i]
  {
    EntryAtFrame(w1.buf, w2.buf, at, STRING_TAG, |vals[0]|, vals[0]);
    forall i | 0 <= i < |buf| && !(at <= i < at + EntriesSize(vals)) ensures w2.buf[i] == buf[i] {
      assert !EntryWritten(at, |vals[0]|, i);
    }
  }

  /**
    `createBlob`: 0 and an untouched buffer when the buffer is too small for
    the message; otherwise the header and the five string entries, and the
    returned count is the total size, which is also the size recorded in the
    header (the source's closing `assert`). The ident bytes, the header
    padding and the entries' padding keep whatever the buffer held, and so
    does everything past the message.
   */
  function CreateBlob(m: ErrorLogMessage, buf: seq<byte>): (w: Written)
    requires TotalMsgSize(m) < U64_LIMIT
    ensures |w.buf| == |buf|
    ensures |buf| < TotalMsgSize(m) ==> w == Written(buf, 0)
    ensures |buf| >= TotalMsgSize(m) ==>
      && w.size == TotalMsgSize(m)
      && DecodeHeader(w.buf).messageSize == w.size
      && DecodeHeader(w.buf).messageType == m.messageType
      && w.buf[..6] == buf[..6] && w.buf[7] == buf[7]
      && StringEntriesAt(w.buf, HEADER_SIZE, Fields(m))
      && w.buf[w.size..] == buf[w.size..]
      && (forall i | 0 <= i < |buf| && !HeaderWritten(0, i) && !StringEntriesWritten(HEADER_SIZE, Fields(m), i)
            :: w.buf[i] == buf[i])
  {
    var total := TotalMsgSize(m);
    if |buf| < total then Written(buf, 0)
    else
      var fs := Fields(m);
      LengthsFitWithinEntries(fs);
      var h := InitBlob(buf, 0, m.messageType, total);
      var e := AppendStrings(h.buf, h.size, fs);
      CreateBlobJoin(m, buf, h.buf, e.buf);
      Written(e.buf, h.size + e.size)
  }

  /**
    `createBlob` leaves the seven padding bytes of every entry as the buffer
    held them: they go out with whatever was there.
   */
  lemma CreateBlobKeepsEntryPadding(m: ErrorLogMessage, buf: seq<byte>, j: nat, k: nat)
    requires TotalMsgSize(m) < U64_LIMIT
    requires |buf| >= TotalMsgSize(m)
    requires j < 5 && 1 <= k < 8
    ensures HEADER_SIZE + EntriesSize(Fields(m)[..j]) + k < |buf|
    ensures CreateBlob(m, buf).buf[HEADER_SIZE + EntriesSize(Fields(m)[..j]) + k]
         == buf[HEADER_SIZE + EntriesSize(Fields(m)[..j]) + k]
  {
    EntriesSizeSplit(Fields(m), j);
    EntryPaddingKept(buf, CreateBlob(m, buf).buf, Fields(m), j, k);
  }

  /** A frame that spares every byte no entry assigns keeps each entry's padding. */
  lemma EntryPaddingKept(buf: seq<byte>, wbuf: seq<byte>, vals: seq<seq<byte>>, j: nat, k: nat)
    requires |wbuf| == |buf|
    requires j < |vals| && 1 <= k < 8
    requires HEADER_SIZE + EntriesSize(vals[..j]) + k < |buf|
    requires forall i | 0 <= i < |buf| && !HeaderWritten(0, i) && !StringEntriesWritten(HEADER_SIZE, vals, i)
               :: wbuf[i] == buf[i]
    ensures wbuf[HEADER_SIZE + EntriesSize(vals[..j]) + k] == buf[HEADER_SIZE + EntriesSize(vals[..j]) + k]
  {
    EntryPaddingNotWritten(HEADER_SIZE, vals, j, k);
  }

  /** The header `initBlob` wrote, then the entries after it: together the blob `createBlob` promises. */
  lemma CreateBlobJoin(m: ErrorLogMessage, buf: seq<byte>, hbuf: seq<byte>, ebuf: seq<byte>)
    requires |buf| >= TotalMsgSize(m)
    requires |hbuf| == |buf| && |ebuf| == |buf|
    requires DecodeHeader(hbuf[0..]).messageType == m.messageType
    requires DecodeHeader(hbuf[0..]).messageSize == TotalMsgSize(m)
    requires forall i | 0 <= i < |buf| && !HeaderWritten(0, i) :: hbuf[i] == buf[i]
    requires StringEntriesAt(ebuf, HEADER_SIZE, Fields(m))
    requires forall i | 0 <= i < |buf| && !(HEADER_SIZE <= i < HEADER_SIZE + EntriesSize(Fields(m))) :: ebuf[i] == hbuf[i]
    requires forall i | 0 <= i < |buf| && !StringEntriesWritten(HEADER_SIZE, Fields(m), i) :: ebuf[i] == hbuf[i]
    ensures DecodeHeader(ebuf).messageSize == TotalMsgSize(m)
    ensures DecodeHeader(ebuf).messageType == m.messageType
    ensures ebuf[..6] == buf[..6] && ebuf[7] == buf[7]
    ensures ebuf[TotalMsgSize(m)..] == buf[TotalMsgSize(m)..]
    ensures forall i | 0 <= i < |buf| && !HeaderWritten(0, i) && !StringEntriesWritten(HEADER_SIZE, Fields(m), i)
              :: ebuf[i] == buf[i]
  {
    assert hbuf[0..] == hbuf;
    assert ebuf[..HEADER_SIZE] == hbuf[..HEADER_SIZE];
    assert ebuf[..6] == buf[..6] by {
      assert forall i | 0 <= i < 6 :: !HeaderWritten(0, i);
    }
  }

  /** What `read` leaves in the string fields: the string read, or the old value if it was empty. */
  function Received(read: seq<seq<byte>>, prior: seq<seq<byte>>): (r: seq<seq<byte>>)
    requires |read| == |prior|
    ensures |r| == |read|
  {
    seq(|read|, k requires 0 <= k < |read| => if |read[k]| > 0 then read[k] else prior[k])
  }

  lemma ReceivedCons(read: seq<seq<byte>>, prior: seq<seq<byte>>)
    requires |read| == |prior| > 0
    ensures Received(read, prior)
         == [if |read[0]| > 0 then read[0] else prior[0]] + Received(read[1..], prior[1..])
  {
  }

  datatype FieldsRead =
    | FieldsRead(ok: bool, pos: u64, outs: seq<seq<byte>>)
    | FieldsOutOfRange

  /**
    `readString` once per element of `outs`, in order, threading the cursor
    and stopping at the first failure; the outputs read so far stay written.
    `FieldsOutOfRange` marks an input on which the source would read past the
    end of the data; it is not a result of the source.
   */
  function ReadStrings(data: seq<byte>, pos: u64, outs: seq<seq<byte>>): (r: FieldsRead)
    ensures r.FieldsRead? ==> |r.outs| == |outs|
    decreases |outs|, 1
  {
    if |outs| == 0 then FieldsRead(true, pos, [])
    else if !StringReadable(data, pos) then FieldsOutOfRange
    else ReadRest(data, pos, ReadString(data, pos, outs[0]), outs)
  }

  /** After `readString` into the first output: stop on failure, otherwise read the rest after it. */
  function ReadRest(data: seq<byte>, pos: u64, first: Outcome<seq<byte>>, outs: seq<seq<byte>>): (r: FieldsRead)
    requires |outs| > 0
    ensures r.FieldsRead? ==> |r.outs| == |outs|
    decreases |outs|, 0
  {
    if !first.ok then FieldsRead(false, pos, outs)
    else Prepend(first.output, ReadStrings(data, first.pos, outs[1..]))
  }

  /** The cursor only moves forward, and never past the end of the data. */
  lemma {:induction false} ReadStringsCursor(data: seq<byte>, pos: u64, outs: seq<seq<byte>>)
    requires pos <= |data| < U64_LIMIT
    ensures var r := ReadStrings(data, pos, outs);
      r.FieldsRead? ==> pos <= r.pos <= |data|
    decreases |outs|
  {
    if |outs| > 0 && StringReadable(data, pos) {
      var first := ReadString(data, pos, outs[0]);
      if first.ok {
        assert first.pos == pos + ENTRY_SIZE + ValSizeAt(data, pos) <= |data|;
        ReadStringsCursor(data, first.pos, outs[1..]);
        assert ReadStrings(data, pos, outs) == Prepend(first.output, ReadStrings(data, first.pos, outs[1..]));
      }
    }
  }

  /** The reads after a successful first one, with its output in front. */
  function Prepend(first: seq<byte>, rest: FieldsRead): (r: FieldsRead)
    ensures r.FieldsRead? <==> rest.FieldsRead?
    ensures r.FieldsRead? ==> r.ok == rest.ok && r.pos == rest.pos && r.outs == [first] + rest.outs
  {
    match rest
    case FieldsOutOfRange => FieldsOutOfRange
    case FieldsRead(ok, p, outs) => FieldsRead(ok, p, [first] + outs)
  }

  /**
    The outcome of `read`: whether it returned true, and the instance after
    the call. `OutOfRange` is not a result of the source: it marks inputs on
    which the source's unchecked readers would dereference past the data.
   */
  datatype ReadOutcome =
    | Finished(ok: bool, msg: ErrorLogMessage)
    | OutOfRange

  /**
    `read`: `initRead` against the instance's own type, then `readString`
    into each field in order. A failure leaves the fields already read
    overwritten and the cursor on the entry that failed.
   */
  function Read(m: ErrorLogMessage, data: seq<byte>): (r: ReadOutcome)
    requires |data| < U64_LIMIT
    ensures !InitRead(data, m.messageType, m.pos).ok ==> r == Finished(false, m)
    ensures r.Finished? && r.ok ==>
      && |data| >= HEADER_SIZE
      && DecodeHeader(data).messageSize == |data|
      && DecodeHeader(data).messageType == m.messageType
    ensures r.Finished? ==> r.msg.messageType == m.messageType
  {
    var init := InitRead(data, m.messageType, m.pos);
    if !init.ok then Finished(false, m)
    else match ReadStrings(data, init.pos, Fields(m))
      case FieldsOutOfRange => OutOfRange
      case FieldsRead(ok, p, outs) => Finished(ok, WithFields(m, outs).(pos := p))
  }

  /** One step of `ReadStrings` over a string entry: its string is read and the rest continue after it. */
  lemma ReadStringsStep(data: seq<byte>, at: u64, v: seq<byte>, outs: seq<seq<byte>>)
    requires |data| < U64_LIMIT
    requires |v| < U64_LIMIT && EntryAt(data, at, STRING_TAG, |v|, v)
    requires |outs| > 0
    ensures at + ENTRY_SIZE + |v| < U64_LIMIT
    ensures ReadStrings(data, at, outs)
         == Prepend(if |v| > 0 then v else outs[0], ReadStrings(data, at + ENTRY_SIZE + |v|, outs[1..]))
  {
    StringRoundTrip(data, at, v, outs[0]);
    var first := ReadString(data, at, outs[0]);
    assert first == Outcome(true, at + ENTRY_SIZE + |v|, if |v| > 0 then v else outs[0]);
    assert ReadStrings(data, at, outs) == ReadRest(data, at, first, outs);
  }

  /** Entries laid out for `vals` read back, in order, as `vals`, ending just past the last. */
  lemma {:induction false} ReadStringsOfEntries(data: seq<byte>, at: u64, vals: seq<seq<byte>>, outs: seq<seq<byte>>)
    requires |data| < U64_LIMIT
    requires StringEntriesAt(data, at, vals)
    requires |outs| == |vals|
    ensures at + EntriesSize(vals) <= |data|
    ensures ReadStrings(data, at, outs) == FieldsRead(true, at + EntriesSize(vals), Received(vals, outs))
    decreases |vals|
  {
    StringEntriesInside(data, at, vals);
    if |vals| > 0 {
      var next := at + ENTRY_SIZE + |vals[0]|;
      ReadStringsOfEntries(data, next, vals[1..], outs[1..]);
      ReadStringsCons(data, at, vals, outs, next + EntriesSize(vals[1..]));
    }
  }

  /**
    The step of `ReadStringsOfEntries`: a string entry for `vals[0]` in front
    of entries that read back as `vals[1..]` reads back as `vals`.
   */
  lemma ReadStringsCons(data: seq<byte>, at: u64, vals: seq<seq<byte>>, outs: seq<seq<byte>>, stop: u64)
    requires |data| < U64_LIMIT
    requires |vals| == |outs| > 0
    requires |vals[0]| < U64_LIMIT && EntryAt(data, at, STRING_TAG, |vals[0]|, vals[0])
    requires ReadStrings(data, at + ENTRY_SIZE + |vals[0]|, outs[1..]) == FieldsRead(true, stop, Received(vals[1..], outs[1..]))
    ensures ReadStrings(data, at, outs) == FieldsRead(true, stop, Received(vals, outs))
  {
    ReadStringsStep(data, at, vals[0], outs);
    ReceivedCons(vals, outs);
  }

  /** The first `j` of a run of entries are a run of entries themselves. */
  lemma {:induction false} StringEntriesTake(data: seq<byte>, at: nat, vals: seq<seq<byte>>, j: nat)
    requires StringEntriesAt(data, at, vals)
    requires j <= |vals|
    ensures StringEntriesAt(data, at, vals[..j])
    decreases j
  {
    if j > 0 {
      StringEntriesTake(data, at + ENTRY_SIZE + |vals[0]|, vals[1..], j - 1);
      assert vals[..j][1..] == vals[1..][..j - 1];
    }
  }

  /**
    After entries for `vals`, a byte that is not the STRING tag stops the
    reads there: the call fails with the cursor on that byte, the outputs for
    `vals` are written and the rest are left as they were.
   */
  lemma {:induction false} ReadStringsStopAt(data: seq<byte>, at: u64, vals: seq<seq<byte>>, outs: seq<seq<byte>>)
    requires |data| < U64_LIMIT
    requires StringEntriesAt(data, at, vals)
    requires |vals| < |outs|
    requires at + EntriesSize(vals) < |data| && data[at + EntriesSize(vals)] != STRING_TAG
    ensures ReadStrings(data, at, outs)
         == FieldsRead(false, at + EntriesSize(vals), Received(vals, outs[..|vals|]) + outs[|vals|..])
    decreases |vals|
  {
    var n := |vals|;
    if n == 0 {
      assert ReadString(data, at, outs[0]) == Outcome(false, at, outs[0]);
      assert Received(vals, outs[..0]) == [];
      assert outs[0..] == outs;
    } else {
      var next := at + ENTRY_SIZE + |vals[0]|;
      StringEntriesInside(data, at, vals);
      ReadStringsStopAt(data, next, vals[1..], outs[1..]);
      ReadStringsStopStep(data, at, vals, outs, at + EntriesSize(vals));
    }
  }

  /** The step of `ReadStringsStopAt`: one more entry in front of a run that stops. */
  lemma ReadStringsStopStep(data: seq<byte>, at: u64, vals: seq<seq<byte>>, outs: seq<seq<byte>>, stop: u64)
    requires |data| < U64_LIMIT
    requires 0 < |vals| < |outs|
    requires |vals[0]| < U64_LIMIT && EntryAt(data, at, STRING_TAG, |vals[0]|, vals[0])
    requires at + ENTRY_SIZE + |vals[0]| < U64_LIMIT
    requires ReadStrings(data, at + ENTRY_SIZE + |vals[0]|, outs[1..])
          == FieldsRead(false, stop, Received(vals[1..], outs[1..][..|vals| - 1]) + outs[1..][|vals| - 1..])
    ensures ReadStrings(data, at, outs) == FieldsRead(false, stop, Received(vals, outs[..|vals|]) + outs[|vals|..])
  {
    ReadStringsStep(data, at, vals[0], outs);
    ReceivedSplice(vals, outs);
  }

  /** `Received` over a run cut after its first element, with the untouched tail kept. */
  lemma ReceivedSplice(vals: seq<seq<byte>>, outs: seq<seq<byte>>)
    requires 0 < |vals| < |outs|
    ensures [if |vals[0]| > 0 then vals[0] else outs[0]]
            + (Received(vals[1..], outs[1..][..|vals| - 1]) + outs[1..][|vals| - 1..])
         == Received(vals, outs[..|vals|]) + outs[|vals|..]
  {
    var n := |vals|;
    ReceivedCons(vals, outs[..n]);
    assert outs[..n][1..] == outs[1..][..n - 1];
    assert outs[1..][n - 1..] == outs[n..];
  }

  /**
    With the tag byte of entry `j` changed to anything but STRING, the reads
    stop at entry `j`: the call fails with the cursor on that entry, and only
    the outputs before it are written.
   */
  lemma ReadStringsStopAtBadTag(
    data: seq<byte>, at: u64, vals: seq<seq<byte>>, outs: seq<seq<byte>>, j: nat, tag: byte)
    requires |data| < U64_LIMIT
    requires StringEntriesAt(data, at, vals)
    requires |outs| == |vals| && j < |vals|
    requires tag != STRING_TAG
    ensures at + EntriesSize(vals[..j]) < |data|
    ensures ReadStrings(data[at + EntriesSize(vals[..j]) := tag], at, outs)
         == FieldsRead(false, at + EntriesSize(vals[..j]), Received(vals[..j], outs[..j]) + outs[j..])
  {
    var p := at + EntriesSize(vals[..j]);
    BadTagKeepsEarlierEntries(data, at, vals, j, tag);
    assert |vals[..j]| == j;
    ReadStringsStopAt(data[p := tag], at, vals[..j], outs);
  }

  /** Changing the tag byte of entry `j` leaves the entries before it in place. */
  lemma BadTagKeepsEarlierEntries(data: seq<byte>, at: nat, vals: seq<seq<byte>>, j: nat, tag: byte)
    requires StringEntriesAt(data, at, vals)
    requires j < |vals|
    ensures at + EntriesSize(vals[..j]) < |data|
    ensures StringEntriesAt(data[at + EntriesSize(vals[..j]) := tag], at, vals[..j])
  {
    StringEntriesInside(data, at, vals);
    EntriesSizeSplit(vals, j);
    var p := at + EntriesSize(vals[..j]);
    StringEntriesTake(data, at, vals, j);
    StringEntriesFrame(data, data[p := tag], at, vals[..j]);
  }

  /**
    The bytes of a complete ErrorLog message for `m`: a header whose size field
    is the number of bytes and whose type is the message's, followed by one
    string entry per field, in order, and nothing after.
   */
  predicate IsBlob(blob: seq<byte>, m: ErrorLogMessage)
  {
    && |blob| == TotalMsgSize(m)
    && DecodeHeader(blob).messageSize == |blob|
    && DecodeHeader(blob).messageType == m.messageType
    && StringEntriesAt(blob, HEADER_SIZE, Fields(m))
  }

  /** The bytes `createBlob` reports are a complete message for `m`. */
  lemma BlobLayout(m: ErrorLogMessage, buf: seq<byte>)
    requires TotalMsgSize(m) < U64_LIMIT
    requires |buf| >= TotalMsgSize(m)
    ensures var w := CreateBlob(m, buf); IsBlob(w.buf[..w.size], m)
  {
    var w := CreateBlob(m, buf);
    HeaderOfPrefix(w.buf, w.size);
    StringEntriesPrefix(w.buf, w.size, HEADER_SIZE, Fields(m));
  }

  /** A prefix that keeps the first 16 bytes keeps the header. */
  lemma HeaderOfPrefix(s: seq<byte>, n: nat)
    requires HEADER_SIZE <= n <= |s|
    ensures DecodeHeader(s[..n]) == DecodeHeader(s)
  {
    assert s[..n][..HEADER_SIZE] == s[..HEADER_SIZE];
    HeaderRoundTrip(DecodeHeader(s[..n]));
    HeaderRoundTrip(DecodeHeader(s));
  }

  /**
    `read` of a complete message by an instance of the same type: it succeeds,
    every field holds the string sent (an empty string leaves the field as it
    was, because `readString` skips the copy), and the cursor ends past the
    last byte.
   */
  lemma ReadBlob(blob: seq<byte>, m: ErrorLogMessage, receiver: ErrorLogMessage)
    requires |blob| < U64_LIMIT && IsBlob(blob, m)
    requires receiver.messageType == m.messageType
    ensures Read(receiver, blob)
         == Finished(true, WithFields(receiver, Received(Fields(m), Fields(receiver))).(pos := |blob|))
  {
    assert InitRead(blob, receiver.messageType, receiver.pos) == Outcome(true, HEADER_SIZE, ());
    ReadStringsOfEntries(blob, HEADER_SIZE, Fields(m), Fields(receiver));
  }

  /** `read` of what `createBlob` produced, by an instance of the same type (see `ReadBlob`). */
  lemma ReadCreateBlob(m: ErrorLogMessage, buf: seq<byte>, receiver: ErrorLogMessage)
    requires TotalMsgSize(m) < U64_LIMIT
    requires |buf| >= TotalMsgSize(m)
    requires receiver.messageType == m.messageType
    ensures var w := CreateBlob(m, buf);
      Read(receiver, w.buf[..w.size])
        == Finished(true, WithFields(receiver, Received(Fields(m), Fields(receiver))).(pos := TotalMsgSize(m)))
  {
    var w := CreateBlob(m, buf);
    BlobLayout(m, buf);
    ReadBlob(w.buf[..w.size], m, receiver);
  }

  /**
    A freshly constructed `ErrorLog_Message` reading what `createBlob` wrote
    ends up equal to the message written, with the cursor at the end.
   */
  lemma FreshReadCreateBlob(m: ErrorLogMessage, buf: seq<byte>)
    requires TotalMsgSize(m) < U64_LIMIT
    requires |buf| >= TotalMsgSize(m)
    requires m.messageType == ERROR_LOG_TYPE
    ensures var w := CreateBlob(m, buf);
      Read(NewErrorLogMessage(), w.buf[..w.size]) == Finished(true, m.(pos := TotalMsgSize(m)))
  {
    var blank := NewErrorLogMessage();
    ReadCreateBlob(m, buf, blank);
    assert Received(Fields(m), Fields(blank)) == Fields(m);
  }

  /** Any strict prefix of a complete message is rejected, and the instance is left as it was. */
  lemma TruncatedBlobRejected(blob: seq<byte>, m: ErrorLogMessage, receiver: ErrorLogMessage, n: nat)
    requires |blob| < U64_LIMIT && IsBlob(blob, m)
    requires n < |blob|
    ensures Read(receiver, blob[..n]) == Finished(false, receiver)
  {
    if n >= HEADER_SIZE {
      assert blob[..n][8..16] == blob[8..16];
    }
  }

  /** A message of one kind is rejected by an instance of another, which is left as it was. */
  lemma OtherTypeRejected(blob: seq<byte>, m: ErrorLogMessage, receiver: ErrorLogMessage)
    requires |blob| < U64_LIMIT && IsBlob(blob, m)
    requires receiver.messageType != m.messageType
    ensures Read(receiver, blob) == Finished(false, receiver)
  {
  }

  /**
    A message whose `j`-th entry has its tag byte changed to anything but
    STRING is rejected: the fields before it are overwritten, the rest are
    left, and the cursor stays on the corrupted entry.
   */
  lemma CorruptTagRejected(blob: seq<byte>, m: ErrorLogMessage, receiver: ErrorLogMessage, j: nat, tag: byte)
    requires |blob| < U64_LIMIT && IsBlob(blob, m)
    requires receiver.messageType == m.messageType
    requires j < 5 && tag != STRING_TAG
    ensures HEADER_SIZE + EntriesSize(Fields(m)[..j]) < |blob|
    ensures var p := HEADER_SIZE + EntriesSize(Fields(m)[..j]);
      var fs := Received(Fields(m)[..j], Fields(receiver)[..j]) + Fields(receiver)[j..];
      Read(receiver, blob[p := tag]) == Finished(false, WithFields(receiver, fs).(pos := p))
  {
    ReadStringsStopAtBadTag(blob, HEADER_SIZE, Fields(m), Fields(receiver), j, tag);
    var p := HEADER_SIZE + EntriesSize(Fields(m)[..j]);
    InitReadIgnoresPayload(blob, p, tag, receiver.messageType, receiver.pos);
    ReadAfterInitRead(receiver, blob[p := tag], false, p, Received(Fields(m)[..j], Fields(receiver)[..j]) + Fields(receiver)[j..]);
  }

  /** A byte changed past the header leaves `initRead` as it was. */
  lemma InitReadIgnoresPayload(data: seq<byte>, p: nat, x: byte, messageType: byte, pos: u64)
    requires HEADER_SIZE <= p < |data| < U64_LIMIT
    ensures InitRead(data[p := x], messageType, pos) == InitRead(data, messageType, pos)
  {
    InitReadIgnoresIdent(data, data[p := x], messageType, pos);
  }

  /** After a successful `initRead`, `read` finishes as the string reads from the first entry do. */
  lemma ReadAfterInitRead(m: ErrorLogMessage, data: seq<byte>, ok: bool, stop: u64, outs: seq<seq<byte>>)
    requires |data| < U64_LIMIT && InitRead(data, m.messageType, m.pos).ok
    requires ReadStrings(data, HEADER_SIZE, Fields(m)) == FieldsRead(ok, stop, outs)
    ensures Read(m, data) == Finished(ok, WithFields(m, outs).(pos := stop))
  {
  }

  /**
    When the reads from `pos` all succeed, the first of them found a string
    entry at `pos`, and the rest succeed from just past it.
   */
  lemma ReadStringsFirstEntry(data: seq<byte>, pos: u64, outs: seq<seq<byte>>)
    requires |outs| > 0
    requires ReadStrings(data, pos, outs).FieldsRead? && ReadStrings(data, pos, outs).ok
    ensures StringReadable(data, pos) && data[pos] == STRING_TAG
    ensures var n := ValSizeAt(data, pos);
      && pos + ENTRY_SIZE + n <= |data|
      && EntryAt(data, pos, STRING_TAG, n, data[pos + ENTRY_SIZE..pos + ENTRY_SIZE + n])
      && ReadStrings(data, pos + ENTRY_SIZE + n, outs[1..]).FieldsRead?
      && ReadStrings(data, pos + ENTRY_SIZE + n, outs[1..]).ok
  {
    assert StringReadable(data, pos);
    var first := ReadString(data, pos, outs[0]);
    assert first.ok && first.pos == pos + ENTRY_SIZE + ValSizeAt(data, pos);
    assert ReadStrings(data, pos, outs) == Prepend(first.output, ReadStrings(data, first.pos, outs[1..]));
  }

  /**
    The strings of up to `k` string entries laid end to end from `pos`, as far
    as their descriptors and payloads lie inside the data.
   */
  ghost function StringsAt(data: seq<byte>, pos: nat, k: nat): seq<seq<byte>>
    decreases k
  {
    if k == 0 || pos + ENTRY_SIZE > |data| then []
    else
      var n := ValSizeAt(data, pos);
      if pos + ENTRY_SIZE + n > |data| then []
      else [data[pos + ENTRY_SIZE..pos + ENTRY_SIZE + n]] + StringsAt(data, pos + ENTRY_SIZE + n, k - 1)
  }

  /** The strings of entries from `pos` on: the one there, then those after it. */
  lemma StringsAtCons(data: seq<byte>, pos: nat, next: nat, outs: seq<seq<byte>>)
    requires |outs| > 0 && pos + ENTRY_SIZE <= |data|
    requires next == pos + ENTRY_SIZE + ValSizeAt(data, pos) <= |data|
    ensures StringsAt(data, pos, |outs|) == [data[pos + ENTRY_SIZE..next]] + StringsAt(data, next, |outs[1..]|)
  {
    assert |outs[1..]| == |outs| - 1;
  }

  /**
    The reads from `pos` into `outs` succeed over string entries for `vals`:
    each output holds its entry's string, or keeps its value for an empty one,
    and the cursor ends just past the last entry.
   */
  ghost predicate ReadAsEntries(data: seq<byte>, pos: u64, outs: seq<seq<byte>>, vals: seq<seq<byte>>)
    requires |data| < U64_LIMIT
  {
    && |vals| == |outs|
    && StringEntriesAt(data, pos, vals)
    && pos + EntriesSize(vals) <= |data|
    && ReadStrings(data, pos, outs) == FieldsRead(true, pos + EntriesSize(vals), Received(vals, outs))
  }

  /** The inductive step of `ReadStringsSound`, for the string entry at `pos`. */
  lemma ReadStringsSoundJoin(data: seq<byte>, pos: u64, outs: seq<seq<byte>>, next: u64, rest: seq<seq<byte>>)
    requires |data| < U64_LIMIT && |outs| > 0
    requires StringReadable(data, pos) && data[pos] == STRING_TAG
    requires next == pos + ENTRY_SIZE + ValSizeAt(data, pos) <= |data|
    requires EntryAt(data, pos, STRING_TAG, ValSizeAt(data, pos), data[pos + ENTRY_SIZE..next])
    requires ReadAsEntries(data, next, outs[1..], rest)
    ensures ReadAsEntries(data, pos, outs, [data[pos + ENTRY_SIZE..next]] + rest)
  {
    var v := data[pos + ENTRY_SIZE..next];
    StringEntriesCons(data, pos, v, rest);
    ReadStringsConsAt(data, pos, outs, next, rest, next + EntriesSize(rest));
  }

  /**
    A string entry at `pos` in front of reads that succeed with outputs
    `rest`: the reads from `pos` succeed too, with its string in front.
   */
  lemma ReadStringsConsAt(data: seq<byte>, pos: u64, outs: seq<seq<byte>>, next: u64, rest: seq<seq<byte>>, stop: u64)
    requires |outs| > 0 && |rest| == |outs[1..]|
    requires StringReadable(data, pos) && data[pos] == STRING_TAG
    requires next == pos + ENTRY_SIZE + ValSizeAt(data, pos) <= |data|
    requires ReadStrings(data, next, outs[1..]) == FieldsRead(true, stop, Received(rest, outs[1..]))
    ensures ReadStrings(data, pos, outs) == FieldsRead(true, stop, Received([data[pos + ENTRY_SIZE..next]] + rest, outs))
  {
    ReadStringsStepAt(data, pos, outs);
    var vals := [data[pos + ENTRY_SIZE..next]] + rest;
    assert vals[1..] == rest;
    ReceivedCons(vals, outs);
  }

  /** `ReadStringsStep` for the entry a reader finds at `pos`, its size as the size field gives it. */
  lemma ReadStringsStepAt(data: seq<byte>, pos: u64, outs: seq<seq<byte>>)
    requires |outs| > 0
    requires StringReadable(data, pos) && data[pos] == STRING_TAG
    ensures var next := pos + ENTRY_SIZE + ValSizeAt(data, pos);
      var v := data[pos + ENTRY_SIZE..next];
      ReadStrings(data, pos, outs) == Prepend(if |v| > 0 then v else outs[0], ReadStrings(data, next, outs[1..]))
  {
    var first := ReadString(data, pos, outs[0]);
    assert ReadStrings(data, pos, outs) == ReadRest(data, pos, first, outs);
  }

  /** One string entry `v` in front of a run: together a run one longer. */
  lemma StringEntriesCons(data: seq<byte>, pos: nat, v: seq<byte>, rest: seq<seq<byte>>)
    requires |v| < U64_LIMIT && EntryAt(data, pos, STRING_TAG, |v|, v)
    requires StringEntriesAt(data, pos + ENTRY_SIZE + |v|, rest)
    ensures StringEntriesAt(data, pos, [v] + rest)
    ensures EntriesSize([v] + rest) == ENTRY_SIZE + |v| + EntriesSize(rest)
  {
    assert ([v] + rest)[1..] == rest;
  }

  /**
    The converse of `ReadStringsOfEntries`: when every read succeeds, the data
    held one string entry per output from `pos` on, the outputs are what those
    entries carry, and the cursor ends just past the last.
   */
  lemma {:induction false} ReadStringsSound(data: seq<byte>, pos: u64, outs: seq<seq<byte>>)
    requires pos <= |data| < U64_LIMIT
    requires ReadStrings(data, pos, outs).FieldsRead? && ReadStrings(data, pos, outs).ok
    ensures ReadAsEntries(data, pos, outs, StringsAt(data, pos, |outs|))
    decreases |outs|
  {
    if |outs| > 0 {
      ReadStringsFirstEntry(data, pos, outs);
      ReadStringsSound(data, pos + ENTRY_SIZE + ValSizeAt(data, pos), outs[1..]);
      ReadStringsSoundStep(data, pos, outs);
    }
  }

  /** The inductive step of `ReadStringsSound`: its conclusion for the reads after the first entry gives it for all. */
  lemma ReadStringsSoundStep(data: seq<byte>, pos: u64, outs: seq<seq<byte>>)
    requires pos <= |data| < U64_LIMIT && |outs| > 0
    requires ReadStrings(data, pos, outs).FieldsRead? && ReadStrings(data, pos, outs).ok
    requires pos + ENTRY_SIZE <= |data| && pos + ENTRY_SIZE + ValSizeAt(data, pos) <= |data|
    requires var next := pos + ENTRY_SIZE + ValSizeAt(data, pos);
      ReadAsEntries(data, next, outs[1..], StringsAt(data, next, |outs[1..]|))
    ensures ReadAsEntries(data, pos, outs, StringsAt(data, pos, |outs|))
  {
    ReadStringsFirstEntry(data, pos, outs);
    var next := pos + ENTRY_SIZE + ValSizeAt(data, pos);
    var rest := StringsAt(data, next, |outs[1..]|);
    StringsAtCons(data, pos, next, outs);
    ReadStringsSoundJoin(data, pos, outs, next, rest);
  }

  /**
    `read` returns true only on a header that passes `initRead` followed by
    five string entries, whose strings `StringsAt` collects: each field then
    holds its entry's string, or keeps its value for an empty one, and the
    cursor is just past the fifth entry.
   */
  lemma ReadSuccessMeansEntries(m: ErrorLogMessage, data: seq<byte>)
    requires |data| < U64_LIMIT
    requires Read(m, data).Finished? && Read(m, data).ok
    ensures InitRead(data, m.messageType, m.pos).ok
    ensures var vals := StringsAt(data, HEADER_SIZE, 5);
      && |vals| == 5
      && StringEntriesAt(data, HEADER_SIZE, vals)
      && HEADER_SIZE + EntriesSize(vals) <= |data|
      && Read(m, data) == Finished(true, WithFields(m, Received(vals, Fields(m))).(pos := HEADER_SIZE + EntriesSize(vals)))
  {
    ReadStringsSound(data, HEADER_SIZE, Fields(m));
    var vals := StringsAt(data, HEADER_SIZE, 5);
    ReadAfterInitRead(m, data, true, HEADER_SIZE + EntriesSize(vals), Received(vals, Fields(m)));
  }

  /**
    `read` returns true exactly when the header passes `initRead` and five
    string entries follow it: the source's "false, if message is broken", in
    both directions.
   */
  lemma ReadSucceedsIff(m: ErrorLogMessage, data: seq<byte>)
    requires |data| < U64_LIMIT
    ensures (Read(m, data).Finished? && Read(m, data).ok)
        <==> && InitRead(data, m.messageType, m.pos).ok
             && exists vals :: |vals| == 5 && StringEntriesAt(data, HEADER_SIZE, vals)
  {
    if Read(m, data).Finished? && Read(m, data).ok {
      ReadSuccessMeansEntries(m, data);
    } else if InitRead(data, m.messageType, m.pos).ok && exists vals :: |vals| == 5 && StringEntriesAt(data, HEADER_SIZE, vals) {
      var vals :| |vals| == 5 && StringEntriesAt(data, HEADER_SIZE, vals);
      ReadStringsOfEntries(data, HEADER_SIZE, vals, Fields(m));
    }
  }

  /** Entries survive appending bytes after the buffer. */
  lemma {:induction false} StringEntriesAppend(a: seq<byte>, t: seq<byte>, at: nat, vals: seq<seq<byte>>)
    requires StringEntriesAt(a, at, vals)
    ensures StringEntriesAt(a + t, at, vals)
    decreases |vals|
  {
    if |vals| > 0 {
      var v := vals[0];
      assert (a + t)[at + 8..at + 16] == a[at + 8..at + 16];
      assert (a + t)[at + ENTRY_SIZE..at + ENTRY_SIZE + |v|] == a[at + ENTRY_SIZE..at + ENTRY_SIZE + |v|];
      StringEntriesAppend(a, t, at + ENTRY_SIZE + |v|, vals[1..]);
    }
  }

  /**
    A complete message followed by `tail`, with the header's size field
    counting the tail: the bytes a sender produces when its size is too large.
   */
  function WithTrailingBytes(blob: seq<byte>, tail: seq<byte>): (data: seq<byte>)
    requires HEADER_SIZE <= |blob| && |blob| + |tail| < U64_LIMIT
    ensures |data| == |blob| + |tail|
    ensures DecodeHeader(data).messageSize == |data|
    ensures data[6] == blob[6] && data[HEADER_SIZE..] == blob[HEADER_SIZE..] + tail
  {
    var data := Overwrite(blob, 8, EncodeU64(|blob| + |tail|)) + tail;
    assert data[8..16] == EncodeU64(|blob| + |tail|);
    U64RoundTrip(|blob| + |tail|);
    data
  }

  /**
    `read` never compares the cursor with the data size after the fifth entry:
    a complete message with bytes after it, which its size field counts, is
    still accepted, every field is read as from the message alone, and the
    cursor stops short of the end.
   */
  lemma TrailingBytesAccepted(blob: seq<byte>, m: ErrorLogMessage, receiver: ErrorLogMessage, tail: seq<byte>)
    requires |blob| + |tail| < U64_LIMIT && IsBlob(blob, m)
    requires receiver.messageType == m.messageType
    requires |tail| > 0
    ensures var data := WithTrailingBytes(blob, tail);
      && Read(receiver, data) == Finished(true, WithFields(receiver, Received(Fields(m), Fields(receiver))).(pos := |blob|))
      && |blob| < |data|
  {
    var data := WithTrailingBytes(blob, tail);
    var b := Overwrite(blob, 8, EncodeU64(|blob| + |tail|));
    StringEntriesFrame(blob, b, HEADER_SIZE, Fields(m));
    StringEntriesAppend(b, tail, HEADER_SIZE, Fields(m));
    assert data == b + tail;
    assert InitRead(data, receiver.messageType, receiver.pos).ok;
    ReadStringsOfEntries(data, HEADER_SIZE, Fields(m), Fields(receiver));
    ReadAfterInitRead(receiver, data, true, |blob|, Received(Fields(m), Fields(receiver)));
  }

  /**
    `read` as the size check of `initRead` intends it: after the fifth entry
    the cursor must have reached the end of the data, so bytes that no entry
    accounts for make the message broken. On success the whole data is read.
   */
  function ReadExact(m: ErrorLogMessage, data: seq<byte>): (r: ReadOutcome)
    requires |data| < U64_LIMIT
    ensures r.Finished? ==> r.msg.messageType == m.messageType
    ensures r.Finished? && r.ok ==> r.msg.pos == |data|
  {
    match Read(m, data)
    case OutOfRange => OutOfRange
    case Finished(ok, m') => Finished(ok && m'.pos == |data|, m')
  }

  /**
    The corrected `read` succeeds exactly on a header that passes `initRead`
    followed by five string entries that end where the data ends.
   */
  lemma ReadExactIff(m: ErrorLogMessage, data: seq<byte>)
    requires |data| < U64_LIMIT
    ensures (ReadExact(m, data).Finished? && ReadExact(m, data).ok)
        <==> && InitRead(data, m.messageType, m.pos).ok
             && exists vals :: && |vals| == 5
                               && StringEntriesAt(data, HEADER_SIZE, vals)
                               && HEADER_SIZE + EntriesSize(vals) == |data|
  {
    if ReadExact(m, data).Finished? && ReadExact(m, data).ok {
      ReadSuccessMeansEntries(m, data);
      var vals := StringsAt(data, HEADER_SIZE, 5);
      assert StringEntriesAt(data, HEADER_SIZE, vals) && HEADER_SIZE + EntriesSize(vals) == |data|;
    } else if && InitRead(data, m.messageType, m.pos).ok
              && exists vals :: && |vals| == 5
                                && StringEntriesAt(data, HEADER_SIZE, vals)
                                && HEADER_SIZE + EntriesSize(vals) == |data| {
      var vals :| && |vals| == 5
                  && StringEntriesAt(data, HEADER_SIZE, vals)
                  && HEADER_SIZE + EntriesSize(vals) == |data|;
      ReadStringsOfEntries(data, HEADER_SIZE, vals, Fields(m));
    }
  }

  /** On a complete message the corrected `read` agrees with `read`. */
  lemma ReadExactBlob(blob: seq<byte>, m: ErrorLogMessage, receiver: ErrorLogMessage)
    requires |blob| < U64_LIMIT && IsBlob(blob, m)
    requires receiver.messageType == m.messageType
    ensures ReadExact(receiver, blob) == Read(receiver, blob)
  {
    ReadBlob(blob, m, receiver);
  }

  /** The corrected `read` rejects a complete message with bytes after it. */
  lemma ReadExactRejectsTrailingBytes(blob: seq<byte>, m: ErrorLogMessage, receiver: ErrorLogMessage, tail: seq<byte>)
    requires |blob| + |tail| < U64_LIMIT && IsBlob(blob, m)
    requires receiver.messageType == m.messageType
    requires |tail| > 0
    ensures var data := WithTrailingBytes(blob, tail);
      ReadExact(receiver, data).Finished? && !ReadExact(receiver, data).ok
  {
    TrailingBytesAccepted(blob, m, receiver, tail);
  }

  /**
    The message the unit test sends: a default-constructed instance, all five
    strings empty. Its blob is 96 bytes, a header and five bare descriptors,
    and the same instance reads it back unchanged but for the cursor.
   */
  lemma EmptyMessageBlob(buf: seq<byte>)
    requires |buf| >= 96
    ensures TotalMsgSize(NewErrorLogMessage()) == 96
    ensures var w := CreateBlob(NewErrorLogMessage(), buf);
      && w.size == 96
      && Read(NewErrorLogMessage(), w.buf[..w.size]) == Finished(true, NewErrorLogMessage().(pos := 96))
  {
    FreshReadCreateBlob(NewErrorLogMessage(), buf);
  }

  /** A message with the strings "a1b2", "core", "oops", "{}" and "[]", as bytes. */
  function SampleMessage(): (m: ErrorLogMessage)
    ensures m.messageType == ERROR_LOG_TYPE
    ensures TotalMsgSize(m) == 112
  {
    ErrorLogMessage(ERROR_LOG_TYPE, 0,
      [0x61, 0x31, 0x62, 0x32],
      [0x63, 0x6f, 0x72, 0x65],
      [0x6f, 0x6f, 0x70, 0x73],
      [0x7b, 0x7d],
      [0x5b, 0x5d])
  }

  /**
    The sample message takes 112 bytes: 16 for the header, 80 for five
    descriptors and 16 for the strings. In a large enough buffer its blob
    reads back, on a fresh instance, as the message, and every strict prefix
    of it is rejected.
   */
  lemma SampleMessageBlob(buf: seq<byte>, n: nat)
    requires |buf| >= 112 && n < 112
    ensures var w := CreateBlob(SampleMessage(), buf);
      && w.size == 112
      && Read(NewErrorLogMessage(), w.buf[..w.size]) == Finished(true, SampleMessage().(pos := 112))
      && Read(NewErrorLogMessage(), w.buf[..w.size][..n]) == Finished(false, NewErrorLogMessage())
  {
    var m := SampleMessage();
    var w := CreateBlob(m, buf);
    FreshReadCreateBlob(m, buf);
    BlobLayout(m, buf);
    TruncatedBlobRejected(w.buf[..w.size], m, NewErrorLogMessage(), n);
  }

  /** A buffer one byte short of the sample message gets nothing written. */
  lemma SampleMessageTooBig(buf: seq<byte>)
    requires |buf| == 111
    ensures CreateBlob(SampleMessage(), buf) == Written(buf, 0)
  {
  }

  /**
    On a little-endian host the protocol sniff rejects every ErrorLog message
    `createBlob` produces: the sniff wants byte 6 to be 'a', and there
    `initBlob` puts the type byte 255.
   */
  lemma LittleEndianSniffRejectsBlobs(m: ErrorLogMessage, buf: seq<byte>)
    requires TotalMsgSize(m) < U64_LIMIT
    requires |buf| >= TotalMsgSize(m)
    requires m.messageType == ERROR_LOG_TYPE
    ensures var w := CreateBlob(m, buf); !IsHanamiProtocol(w.buf[..w.size], LittleEndian)
  {
    var w := CreateBlob(m, buf);
    var blob := w.buf[..w.size];
    BlobLayout(m, buf);
    assert blob[6] == DecodeHeader(blob).messageType;
    assert blob[2..8][4] == blob[6];
  }

  /**
    On a big-endian host the sniff's verdict on a `createBlob` output depends
    only on what the buffer held before: `createBlob` never writes the ident.
   */
  lemma BigEndianSniffSeesStaleIdent(m: ErrorLogMessage, buf: seq<byte>)
    requires TotalMsgSize(m) < U64_LIMIT
    requires |buf| >= TotalMsgSize(m)
    ensures var w := CreateBlob(m, buf);
      IsHanamiProtocol(w.buf[..w.size], BigEndian) <==> buf[..6] == PROTOCOL_IDENT
  {
    var w := CreateBlob(m, buf);
    var blob := w.buf[..w.size];
    assert blob[..6] == w.buf[..6];
  }

  /** Writing the "hanami" ident over the first bytes of a complete message keeps it complete. */
  lemma IdentKeepsBlob(full: seq<byte>, n: nat, m: ErrorLogMessage)
    requires n <= |full| && IsBlob(full[..n], m)
    ensures IsBlob(Overwrite(full, 0, PROTOCOL_IDENT)[..n], m)
    ensures Overwrite(full, 0, PROTOCOL_IDENT)[..6] == PROTOCOL_IDENT
  {
    var a := full[..n];
    var b := Overwrite(full, 0, PROTOCOL_IDENT)[..n];
    assert forall i | 6 <= i < HEADER_SIZE && i != 7 :: b[i] == a[i];
    assert b[6] == a[6] && b[8..16] == a[8..16];
    assert forall i | HEADER_SIZE <= i < |a| :: b[i] == a[i];
    StringEntriesFrame(a, b, HEADER_SIZE, Fields(m));
  }

  /**
    `createBlob` as the header layout intends it: it also writes the "hanami"
    ident, so the message it produces is recognised by its ident whatever the
    buffer held before, and still reads back as `createBlob`'s does.
   */
  function CreateBlobWithIdent(m: ErrorLogMessage, buf: seq<byte>): (w: Written)
    requires TotalMsgSize(m) < U64_LIMIT
    ensures |w.buf| == |buf|
    ensures |buf| < TotalMsgSize(m) ==> w == Written(buf, 0)
    ensures |buf| >= TotalMsgSize(m) ==>
      && w.size == TotalMsgSize(m)
      && IsBlob(w.buf[..w.size], m)
      && IsHanamiProtocolExact(w.buf[..w.size])
  {
    var w := CreateBlob(m, buf);
    if |buf| < TotalMsgSize(m) then w
    else
      BlobLayout(m, buf);
      IdentKeepsBlob(w.buf, w.size, m);
      var b := Overwrite(w.buf, 0, PROTOCOL_IDENT);
      assert b[..w.size][..6] == b[..6];
      Written(b, w.size)
  }

  /**
    The corrected writer's output passes the byte-order independent sniff and
    the big-endian word compare, and a fresh instance reads it back as the
    message written.
   */
  lemma CreateBlobWithIdentRoundTrip(m: ErrorLogMessage, buf: seq<byte>)
    requires TotalMsgSize(m) < U64_LIMIT
    requires |buf| >= TotalMsgSize(m)
    requires m.messageType == ERROR_LOG_TYPE
    ensures var w := CreateBlobWithIdent(m, buf);
      && IsHanamiProtocol(w.buf[..w.size], BigEndian)
      && Read(NewErrorLogMessage(), w.buf[..w.size]) == Finished(true, m.(pos := TotalMsgSize(m)))
  {
    var w := CreateBlobWithIdent(m, buf);
    var blank := NewErrorLogMessage();
    ExactSniffIsBigEndianSniff(w.buf[..w.size]);
    ReadBlob(w.buf[..w.size], m, blank);
    assert Received(Fields(m), Fields(blank)) == Fields(m);
  }
}
