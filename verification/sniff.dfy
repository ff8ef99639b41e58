/**
  The protocol sniff `isHanamiProtocol`: a cheap test whether a buffer opens
  with a Hanami message header.

  The source loads the first 8 bytes as one `uint64_t` in host byte order,
  clears its 16 low-order bits with the mask `0xFFFFFFFFFFFF0000` and compares
  the rest against `0x68616e616d690000`. The host byte order is a parameter
  here; the mask is written arithmetically (`w - w % 0x10000` is `w` with its
  16 low-order bits cleared).
 */
module Sniff {
  import opened Bytes
  import opened Layout

  datatype ByteOrder = LittleEndian | BigEndian

  /** The masked word the sniff compares against: "hanami" in the six high-order bytes. */
  const HANAMI_WORD: nat := 0x68616e616d690000

  /** "hanami" as it must appear in bytes 2..8 for a little-endian load to match: "imanah". */
  const REVERSED_IDENT: seq<byte> := [0x69, 0x6d, 0x61, 0x6e, 0x61, 0x68]

  /** The 64-bit word `*(const uint64_t*) data` on a host of byte order `order`. */
  function LoadWord(data: seq<byte>, order: ByteOrder): (w: nat)
    requires |data| >= 8
    ensures w < U64_LIMIT
  {
    FromLEBound(data[..8]);
    U64LimitIsPow256();
    if order == LittleEndian then FromLE(data[..8])
    else
      BigEndianBound(data[..8]);
      FromBE(data[..8])
  }

  /** `w & 0xFFFFFFFFFFFF0000` for a 64-bit word `w`. */
  function MaskIdent(w: nat): nat
  {
    w - w % 0x10000
  }

  /**
    Whether the bytes look like the start of a Hanami message (messages.h,
    isHanamiProtocol). Under a big-endian load it accepts exactly the buffers
    whose bytes 0..6 are "hanami"; under a little-endian load exactly those
    whose bytes 2..8 are "imanah": the mask drops bytes 0 and 1, and the ident
    appears reversed and shifted against the header layout.
   */
  function IsHanamiProtocol(data: seq<byte>, order: ByteOrder): (r: bool)
    ensures r <==> && |data| >= HEADER_SIZE
                   && (order == BigEndian ==> data[..6] == PROTOCOL_IDENT)
                   && (order == LittleEndian ==> data[2..8] == REVERSED_IDENT)
  {
    if |data| < HEADER_SIZE then false
    else
      MaskedWordMatches(data, order);
      MaskIdent(LoadWord(data, order)) == HANAMI_WORD
  }

  /** The byte positions of the loaded word that the mask clears. */
  predicate MaskedPosition(order: ByteOrder, i: nat)
  {
    if order == LittleEndian then i < 2 else 6 <= i < 8
  }

  lemma {:induction false} BigEndianBound(s: seq<byte>)
    ensures FromBE(s) < Pow256(|s|)
  {
    if |s| > 0 {
      BigEndianBound(s[..|s| - 1]);
    }
  }

  lemma BigEndianIdentValue()
    ensures FromBE(PROTOCOL_IDENT) == 0x68616e616d69
  {
    var s := PROTOCOL_IDENT;
    assert FromBE(s[..1]) == 0x68 by { assert s[..1][..0] == []; }
    assert FromBE(s[..2]) == 0x6861 by { assert s[..2][..1] == s[..1]; }
    assert FromBE(s[..3]) == 0x68616e by { assert s[..3][..2] == s[..2]; }
    assert FromBE(s[..4]) == 0x68616e61 by { assert s[..4][..3] == s[..3]; }
    assert FromBE(s[..5]) == 0x68616e616d by { assert s[..5][..4] == s[..4]; }
    assert s[..6][..5] == s[..5] && s[..6] == s;
  }

  lemma LittleEndianIdentValue()
    ensures FromLE(REVERSED_IDENT) == 0x68616e616d69
  {
    var s := REVERSED_IDENT;
    assert s[1..] == [0x6d, 0x61, 0x6e, 0x61, 0x68];
    assert s[1..][1..] == [0x61, 0x6e, 0x61, 0x68];
    assert s[1..][1..][1..] == [0x6e, 0x61, 0x68];
    assert s[1..][1..][1..][1..] == [0x61, 0x68];
    assert s[1..][1..][1..][1..][1..] == [0x68];
  }

  /** Clearing the 16 low-order bits of a word leaves its part above them. */
  lemma MaskSplit(hi: nat, lo: nat)
    requires lo < 0x10000
    ensures MaskIdent(0x10000 * hi + lo) == 0x10000 * hi
  {
  }

  /** With the mask applied, only the six high-order bytes of the word are left. */
  lemma MaskedBigEndianWord(d: seq<byte>)
    requires |d| == 8
    ensures MaskIdent(FromBE(d)) == FromBE(d[..6]) * 0x10000
  {
    assert d[..7][..6] == d[..6];
    assert d[..8] == d;
    var hi := FromBE(d[..6]);
    var lo := 256 * (d[6] as int) + d[7];
    assert FromBE(d[..7]) == 256 * hi + d[6];
    assert FromBE(d) == 256 * FromBE(d[..7]) + d[7];
    assert FromBE(d) == 0x10000 * hi + lo;
    MaskSplit(hi, lo);
  }

  lemma MaskedLittleEndianWord(d: seq<byte>)
    requires |d| == 8
    ensures MaskIdent(FromLE(d)) == FromLE(d[2..]) * 0x10000
  {
    assert d[1..][1..] == d[2..];
    var hi := FromLE(d[2..]);
    var lo := (d[0] as int) + 256 * (d[1] as int);
    assert FromLE(d[1..]) == d[1] + 256 * hi;
    assert FromLE(d) == 0x10000 * hi + lo;
    MaskSplit(hi, lo);
  }

  /** The masked word matches exactly when the six bytes the mask keeps spell the ident in load order. */
  lemma MaskedWordMatches(data: seq<byte>, order: ByteOrder)
    requires |data| >= 8
    ensures MaskIdent(LoadWord(data, order)) == HANAMI_WORD
        <==> if order == BigEndian then data[..6] == PROTOCOL_IDENT else data[2..8] == REVERSED_IDENT
  {
    var d := data[..8];
    if order == BigEndian {
      assert d[..6] == data[..6];
      MaskedBigEndianWord(d);
      BigEndianIdentValue();
      if data[..6] != PROTOCOL_IDENT && FromBE(data[..6]) == 0x68616e616d69 {
        FromBEInjective(data[..6], PROTOCOL_IDENT);
      }
    } else {
      assert d[2..] == data[2..8];
      MaskedLittleEndianWord(d);
      LittleEndianIdentValue();
      if data[2..8] != REVERSED_IDENT && FromLE(data[2..8]) == 0x68616e616d69 {
        FromLEInjective(data[2..8], REVERSED_IDENT);
      }
    }
  }

  /** A buffer shorter than a header is never taken for a Hanami message. */
  lemma ShortBufferRejected(data: seq<byte>, order: ByteOrder)
    requires |data| < HEADER_SIZE
    ensures !IsHanamiProtocol(data, order)
  {
  }

  /** The sniff reads only the first word: bytes 8.. (the message size among them) never matter. */
  lemma SniffReadsFirstWordOnly(a: seq<byte>, b: seq<byte>, order: ByteOrder)
    requires |a| >= HEADER_SIZE && |b| >= HEADER_SIZE
    requires a[..8] == b[..8]
    ensures IsHanamiProtocol(a, order) == IsHanamiProtocol(b, order)
  {
  }

  /** The two bytes the mask clears never change the verdict. */
  lemma SniffIgnoresMaskedBytes(a: seq<byte>, b: seq<byte>, order: ByteOrder)
    requires |a| == |b|
    requires forall i | 0 <= i < 8 && i < |a| && !MaskedPosition(order, i) :: a[i] == b[i]
    ensures IsHanamiProtocol(a, order) == IsHanamiProtocol(b, order)
  {
    if |a| >= HEADER_SIZE {
      if order == BigEndian {
        assert a[..6] == b[..6];
      } else {
        assert a[2..8] == b[2..8];
      }
    }
  }

  /**
    On a little-endian host the sniff rejects every encoded header that carries
    the "hanami" ident, whatever its type and size.
   */
  lemma LittleEndianSniffRejectsHeaders(h: MessageHeader, rest: seq<byte>)
    requires WellSizedHeader(h) && h.protocolIdent == PROTOCOL_IDENT
    ensures !IsHanamiProtocol(EncodeHeader(h) + rest, LittleEndian)
  {
    var data := EncodeHeader(h) + rest;
    assert data[2] == 0x6e;
  }

  /**
    The sniff as the header layout intends it: bytes 0..6 hold "hanami",
    compared byte by byte so that it does not depend on the host byte order.
   */
  function IsHanamiProtocolExact(data: seq<byte>): (r: bool)
    ensures r ==> |data| >= HEADER_SIZE
  {
    |data| >= HEADER_SIZE && data[..6] == PROTOCOL_IDENT
  }

  /** The exact sniff accepts every encoded header with the "hanami" ident. */
  lemma ExactSniffAcceptsHeaders(h: MessageHeader, rest: seq<byte>)
    requires WellSizedHeader(h)
    ensures IsHanamiProtocolExact(EncodeHeader(h) + rest) <==> h.protocolIdent == PROTOCOL_IDENT
  {
    assert (EncodeHeader(h) + rest)[..6] == EncodeHeader(h)[..6];
  }

  /** The exact sniff is what the word compare computes on a big-endian host. */
  lemma ExactSniffIsBigEndianSniff(data: seq<byte>)
    ensures IsHanamiProtocolExact(data) == IsHanamiProtocol(data, BigEndian)
  {
  }

  /**
    A default-initialised header carries the "hanami" ident: the intended sniff
    and the big-endian word compare accept it, whatever follows, and the
    little-endian word compare rejects it.
   */
  lemma DefaultHeaderSniff(padding: byte, rest: seq<byte>)
    ensures var data := EncodeHeader(DefaultHeader(padding)) + rest;
      && IsHanamiProtocolExact(data)
      && IsHanamiProtocol(data, BigEndian)
      && !IsHanamiProtocol(data, LittleEndian)
  {
    ExactSniffAcceptsHeaders(DefaultHeader(padding), rest);
    LittleEndianSniffRejectsHeaders(DefaultHeader(padding), rest);
  }
}
