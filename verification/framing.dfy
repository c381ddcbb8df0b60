/**
 * The frame layout and the byte-stream side of decoding, on values.
 *
 *   offset 0               preamble 0x55
 *   offsets 1, 2           payload length (SizeField)
 *   offsets 3 .. 3+n       payload, n bytes
 *   offsets 3+n, 4+n       CRC16 of the payload, high byte first
 *
 * `Received` is the buffer after `Read` has taken bytes from an input
 * sequence; the packet class proves its `Read` against it.
 */
module Framing {
  import opened Octets
  import SizeField
  import opened Checksum

  const PREAMBLE: byte := 0x55
  const PRE_SIZE: nat := 1
  const LENGTH_FIELD_SIZE: nat := 2
  const FCS_SIZE: nat := 2
  const MAX_PAYLOAD_SIZE: nat := 0xFFFF
  const OVERHEAD_SIZE: nat := PRE_SIZE + LENGTH_FIELD_SIZE + FCS_SIZE
  const MAX_PACKET_SIZE: nat := OVERHEAD_SIZE + MAX_PAYLOAD_SIZE
  const LENGTH_OFFSET: nat := PRE_SIZE
  const PAYLOAD_OFFSET: nat := PRE_SIZE + LENGTH_FIELD_SIZE

  /** The complete frame carrying `payload`, as it goes on the wire. */
  function Frame(payload: seq<byte>, crc16: Crc16, bigEndian: bool): (f: seq<byte>)
    requires |payload| <= MAX_PAYLOAD_SIZE
    ensures |f| == OVERHEAD_SIZE + |payload| <= MAX_PACKET_SIZE
    ensures f[0] == PREAMBLE
    ensures SizeField.Decode(f[LENGTH_OFFSET..PAYLOAD_OFFSET], bigEndian) == |payload|
    ensures f[PAYLOAD_OFFSET..PAYLOAD_OFFSET + |payload|] == payload
    ensures f[PAYLOAD_OFFSET + |payload|..] == FcsBytes(crc16(payload))
  {
    SizeField.EncodeThenDecode(|payload|, bigEndian);
    var f := [PREAMBLE] + SizeField.Encode(|payload|, bigEndian) + payload + FcsBytes(crc16(payload));
    assert f[LENGTH_OFFSET..PAYLOAD_OFFSET] == SizeField.Encode(|payload|, bigEndian);
    f
  }

  /** The buffer after `PayloadUpdated(n)`: the length field set to `n`,
      then the checksum of the `n` payload bytes stored right after them. */
  function Encoded(buffer: seq<byte>, n: nat, crc16: Crc16, bigEndian: bool): (r: seq<byte>)
    requires |buffer| == MAX_PACKET_SIZE && n <= MAX_PAYLOAD_SIZE
    ensures |r| == |buffer|
  {
    var payload := buffer[PAYLOAD_OFFSET..PAYLOAD_OFFSET + n];
    Splice(Splice(buffer, LENGTH_OFFSET, SizeField.Encode(n, bigEndian)), PAYLOAD_OFFSET + n, FcsBytes(crc16(payload)))
  }

  /**
   * `PayloadUpdated` with a length the field cannot hold, as written: the
   * field keeps only the low 16 bits of `n`, while the FCS slot moves to
   * `3 + n`, so its two bytes do not both fit in the buffer. For `n ==
   * 65536` the field reads back 0 and the second FCS byte goes to offset
   * 65540, one past the last byte of the buffer.
   */
  lemma {:induction false} OversizedPayloadUpdate(n: uint32, bigEndian: bool)
    requires MAX_PAYLOAD_SIZE < n
    ensures SizeField.Decode(SizeField.Encode(n, bigEndian), bigEndian) == n % 0x1_0000 < n
    ensures MAX_PACKET_SIZE < PAYLOAD_OFFSET + n + FCS_SIZE
    ensures n == 0x1_0000 ==> SizeField.Decode(SizeField.Encode(n, bigEndian), bigEndian) == 0 &&
                              PAYLOAD_OFFSET + n + 1 == MAX_PACKET_SIZE
  {
    SizeField.EncodeThenDecode(n, bigEndian);
  }

  /** What `Encoded` leaves in the header: the preamble byte is unchanged
      and the length field holds `n`, so it decodes to `n`. */
  lemma {:induction false} EncodedHeader(buffer: seq<byte>, n: nat, crc16: Crc16, bigEndian: bool)
    requires |buffer| == MAX_PACKET_SIZE && n <= MAX_PAYLOAD_SIZE
    ensures var r := Encoded(buffer, n, crc16, bigEndian);
            r[0] == buffer[0] &&
            r[LENGTH_OFFSET..PAYLOAD_OFFSET] == SizeField.Encode(n, bigEndian) &&
            SizeField.Decode(r[LENGTH_OFFSET..PAYLOAD_OFFSET], bigEndian) == n
  {
    var payload := buffer[PAYLOAD_OFFSET..PAYLOAD_OFFSET + n];
    var field := SizeField.Encode(n, bigEndian);
    var fcs := FcsBytes(crc16(payload));
    var sized := Splice(buffer, LENGTH_OFFSET, field);
    var r := Encoded(buffer, n, crc16, bigEndian);
    assert r == Splice(sized, PAYLOAD_OFFSET + n, fcs);
    assert r[0] == buffer[0] by {
      SpliceAt(buffer, LENGTH_OFFSET, field);
      SpliceAt(sized, PAYLOAD_OFFSET + n, fcs);
    }
    assert r[LENGTH_OFFSET..PAYLOAD_OFFSET] == field by {
      SpliceSliceInside(buffer, LENGTH_OFFSET, field, LENGTH_OFFSET, PAYLOAD_OFFSET);
      SpliceSliceOutside(sized, PAYLOAD_OFFSET + n, fcs, LENGTH_OFFSET, PAYLOAD_OFFSET);
    }
    assert SizeField.Decode(field, bigEndian) == n by {
      SizeField.EncodeThenDecode(n, bigEndian);
      SizeField.FitsField(n);
    }
  }

  /** What `Encoded` leaves after the header: the `n` payload bytes are
      untouched and followed by their checksum, high byte first, and
      everything after the FCS slot is unchanged. */
  lemma {:induction false} EncodedBody(buffer: seq<byte>, n: nat, crc16: Crc16, bigEndian: bool)
    requires |buffer| == MAX_PACKET_SIZE && n <= MAX_PAYLOAD_SIZE
    ensures var r := Encoded(buffer, n, crc16, bigEndian);
            r[PAYLOAD_OFFSET..PAYLOAD_OFFSET + n] == buffer[PAYLOAD_OFFSET..PAYLOAD_OFFSET + n] &&
            r[PAYLOAD_OFFSET + n..OVERHEAD_SIZE + n] == FcsBytes(crc16(buffer[PAYLOAD_OFFSET..PAYLOAD_OFFSET + n])) &&
            r[OVERHEAD_SIZE + n..] == buffer[OVERHEAD_SIZE + n..]
  {
    var payload := buffer[PAYLOAD_OFFSET..PAYLOAD_OFFSET + n];
    var field := SizeField.Encode(n, bigEndian);
    var fcs := FcsBytes(crc16(payload));
    var sized := Splice(buffer, LENGTH_OFFSET, field);
    var r := Encoded(buffer, n, crc16, bigEndian);
    assert r == Splice(sized, PAYLOAD_OFFSET + n, fcs);
    assert r[PAYLOAD_OFFSET..PAYLOAD_OFFSET + n] == payload by {
      SpliceSliceOutside(buffer, LENGTH_OFFSET, field, PAYLOAD_OFFSET, PAYLOAD_OFFSET + n);
      SpliceSliceOutside(sized, PAYLOAD_OFFSET + n, fcs, PAYLOAD_OFFSET, PAYLOAD_OFFSET + n);
    }
    assert r[PAYLOAD_OFFSET + n..OVERHEAD_SIZE + n] == fcs by {
      SpliceSliceInside(sized, PAYLOAD_OFFSET + n, fcs, PAYLOAD_OFFSET + n, OVERHEAD_SIZE + n);
    }
    assert r[OVERHEAD_SIZE + n..] == buffer[OVERHEAD_SIZE + n..] by {
      SpliceSliceOutside(buffer, LENGTH_OFFSET, field, OVERHEAD_SIZE + n, |buffer|);
      SpliceSliceOutside(sized, PAYLOAD_OFFSET + n, fcs, OVERHEAD_SIZE + n, |buffer|);
    }
  }

  /** A buffer that starts with the preamble starts, after `Encoded`, with
      the whole frame carrying its `n` payload bytes. */
  lemma {:induction false} EncodedFrame(buffer: seq<byte>, n: nat, crc16: Crc16, bigEndian: bool)
    requires |buffer| == MAX_PACKET_SIZE && n <= MAX_PAYLOAD_SIZE
    requires buffer[0] == PREAMBLE
    ensures Encoded(buffer, n, crc16, bigEndian)[..OVERHEAD_SIZE + n]
            == Frame(buffer[PAYLOAD_OFFSET..PAYLOAD_OFFSET + n], crc16, bigEndian)
  {
    var r := Encoded(buffer, n, crc16, bigEndian);
    EncodedHeader(buffer, n, crc16, bigEndian);
    EncodedBody(buffer, n, crc16, bigEndian);
    assert r[..OVERHEAD_SIZE + n] == [r[0]] + r[LENGTH_OFFSET..PAYLOAD_OFFSET] + r[PAYLOAD_OFFSET..PAYLOAD_OFFSET + n]
                                     + r[PAYLOAD_OFFSET + n..OVERHEAD_SIZE + n];
  }

  /** The header `SetPayload` leaves after storing the length `c` and then
      the `c` bytes of `data`: the preamble byte is unchanged and the
      length field decodes to `c`. */
  lemma {:induction false} FilledHeader(buffer: seq<byte>, c: nat, data: seq<byte>, bigEndian: bool)
    requires |buffer| == MAX_PACKET_SIZE && c <= MAX_PAYLOAD_SIZE && |data| == c
    ensures var r := Splice(Splice(buffer, LENGTH_OFFSET, SizeField.Encode(c, bigEndian)), PAYLOAD_OFFSET, data);
            r[0] == buffer[0] &&
            SizeField.Decode(r[LENGTH_OFFSET..PAYLOAD_OFFSET], bigEndian) == c
  {
    var field := SizeField.Encode(c, bigEndian);
    var sized := Splice(buffer, LENGTH_OFFSET, field);
    var r := Splice(sized, PAYLOAD_OFFSET, data);
    assert r[..PAYLOAD_OFFSET] == [buffer[0]] + field by {
      SpliceSliceOutside(buffer, LENGTH_OFFSET, field, 0, LENGTH_OFFSET);
      SpliceSliceInside(buffer, LENGTH_OFFSET, field, LENGTH_OFFSET, PAYLOAD_OFFSET);
      SpliceSliceOutside(sized, PAYLOAD_OFFSET, data, 0, PAYLOAD_OFFSET);
      assert sized[..PAYLOAD_OFFSET] == sized[..LENGTH_OFFSET] + sized[LENGTH_OFFSET..PAYLOAD_OFFSET];
    }
    assert r[0] == buffer[0] && r[LENGTH_OFFSET..PAYLOAD_OFFSET] == field by {
      assert r[0] == r[..PAYLOAD_OFFSET][0];
      assert r[LENGTH_OFFSET..PAYLOAD_OFFSET] == r[..PAYLOAD_OFFSET][LENGTH_OFFSET..];
    }
    assert SizeField.Decode(field, bigEndian) == c by {
      SizeField.EncodeThenDecode(c, bigEndian);
      SizeField.FitsField(c);
    }
  }

  /** All that `SetPayload` leaves in the buffer: the header of
      `FilledHeader`, then the payload slot holding `data`. */
  lemma {:induction false} FilledFields(buffer: seq<byte>, c: nat, data: seq<byte>, bigEndian: bool)
    requires |buffer| == MAX_PACKET_SIZE && c <= MAX_PAYLOAD_SIZE && |data| == c
    ensures var r := Splice(Splice(buffer, LENGTH_OFFSET, SizeField.Encode(c, bigEndian)), PAYLOAD_OFFSET, data);
            r[0] == buffer[0] &&
            SizeField.Decode(r[LENGTH_OFFSET..PAYLOAD_OFFSET], bigEndian) == c &&
            r[PAYLOAD_OFFSET..PAYLOAD_OFFSET + c] == data
  {
    FilledHeader(buffer, c, data, bigEndian);
    var sized := Splice(buffer, LENGTH_OFFSET, SizeField.Encode(c, bigEndian));
    SpliceSliceInside(sized, PAYLOAD_OFFSET, data, PAYLOAD_OFFSET, PAYLOAD_OFFSET + c);
  }

  /** With a CRC that has a zero residue, the frame `Encoded` leaves
      passes the check `PacketIsOk` makes: the checksum of the payload and
      the FCS after it is zero. */
  lemma {:induction false} EncodedPassesCheck(buffer: seq<byte>, n: nat, crc16: Crc16, bigEndian: bool)
    requires |buffer| == MAX_PACKET_SIZE && n <= MAX_PAYLOAD_SIZE
    requires HasZeroResidue(crc16)
    ensures crc16(Encoded(buffer, n, crc16, bigEndian)[PAYLOAD_OFFSET..OVERHEAD_SIZE + n]) == 0
  {
    var r := Encoded(buffer, n, crc16, bigEndian);
    var payload := buffer[PAYLOAD_OFFSET..PAYLOAD_OFFSET + n];
    EncodedBody(buffer, n, crc16, bigEndian);
    assert r[PAYLOAD_OFFSET..OVERHEAD_SIZE + n] == payload + FcsBytes(crc16(payload));
    assert Residue(crc16, payload) == 0;
  }

  /** Where the stream's `WaitFor` stops: the first preamble byte, or
      `|input|` when there is none. */
  function PreambleIndex(input: seq<byte>): (i: nat)
    ensures i <= |input|
    ensures i < |input| ==> input[i] == PREAMBLE
  {
    if input == [] then 0
    else if input[0] == PREAMBLE then 0
    else 1 + PreambleIndex(input[1..])
  }

  /** No byte before the stopping point is a preamble byte, so the scan
      runs to the end exactly when the input holds none. */
  lemma {:induction false} PreambleIndexFirst(input: seq<byte>)
    ensures forall j :: 0 <= j < PreambleIndex(input) ==> input[j] != PREAMBLE
    ensures PreambleIndex(input) == |input| <==> PREAMBLE !in input
  {
    if input != [] && input[0] != PREAMBLE {
      PreambleIndexFirst(input[1..]);
      assert input == [input[0]] + input[1..];
      forall j | 0 < j < PreambleIndex(input) ensures input[j] != PREAMBLE {
        assert input[j] == input[1..][j - 1];
      }
    }
  }

  /** How far `Read` gets on a finite input. */
  datatype Scan =
    | NoPreamble                          // no 0x55 at all
    | HeaderCut(start: nat)               // preamble found, length field incomplete
    | BodyCut(start: nat, size: uint16)   // length read, payload and FCS incomplete
    | Complete(start: nat, size: uint16)  // whole frame input[start .. start + 5 + size]

  function ScanFrame(input: seq<byte>, bigEndian: bool): (s: Scan)
    ensures !s.NoPreamble? ==> s.start < |input|
    ensures s.BodyCut? || s.Complete? ==> s.start + PAYLOAD_OFFSET <= |input|
    ensures s.Complete? ==> s.start + OVERHEAD_SIZE + s.size <= |input|
  {
    var start := PreambleIndex(input);
    if start == |input| then NoPreamble
    else if |input| - start < PAYLOAD_OFFSET then HeaderCut(start)
    else
      var size := SizeField.Decode(input[start + LENGTH_OFFSET..start + PAYLOAD_OFFSET], bigEndian);
      if |input| - start - PAYLOAD_OFFSET < size + FCS_SIZE then BodyCut(start, size)
      else Complete(start, size)
  }

  /** A frame starts at the first preamble byte of the input; there is
      none exactly when the input holds no preamble byte. */
  lemma {:induction false} ScanFrameStart(input: seq<byte>, bigEndian: bool)
    ensures var s := ScanFrame(input, bigEndian);
            (s.NoPreamble? <==> PREAMBLE !in input) &&
            (!s.NoPreamble? ==>
               input[s.start] == PREAMBLE && forall j :: 0 <= j < s.start ==> input[j] != PREAMBLE)
  {
    PreambleIndexFirst(input);
  }

  /** The header is cut when the input ends within the three bytes from the
      preamble on; otherwise the size is the decoded length field, and the
      frame is complete exactly when the input holds its payload and FCS. */
  lemma {:induction false} ScanFrameSize(input: seq<byte>, bigEndian: bool)
    ensures var s := ScanFrame(input, bigEndian);
            (s.HeaderCut? <==> !s.NoPreamble? && |input| < s.start + PAYLOAD_OFFSET) &&
            ((s.BodyCut? || s.Complete?) ==>
               s.size == SizeField.Decode(input[s.start + LENGTH_OFFSET..s.start + PAYLOAD_OFFSET], bigEndian)) &&
            (s.Complete? <==> (s.BodyCut? || s.Complete?) && s.start + OVERHEAD_SIZE + s.size <= |input|)
  {
  }

  /**
   * The packet buffer after `Read` consumed `input`: the preamble byte, the
   * length field and the payload-plus-FCS run are each stored only once
   * the input holds all of their bytes; everything after them is untouched.
   */
  function Received(buffer: seq<byte>, input: seq<byte>, bigEndian: bool): (r: seq<byte>)
    requires |buffer| == MAX_PACKET_SIZE
    ensures |r| == |buffer|
    ensures ScanFrame(input, bigEndian).NoPreamble? ==> r == buffer
  {
    match ScanFrame(input, bigEndian)
    case NoPreamble => buffer
    case HeaderCut(start) => Splice(buffer, 0, input[start..start + PRE_SIZE])
    case BodyCut(start, _) => Splice(buffer, 0, input[start..start + PAYLOAD_OFFSET])
    case Complete(start, size) => Splice(buffer, 0, input[start..start + OVERHEAD_SIZE + size])
  }

  /** The input ends within the header: only the preamble byte is stored. */
  lemma {:induction false} ReceivedHeaderCut(buffer: seq<byte>, input: seq<byte>, bigEndian: bool, start: nat)
    requires |buffer| == MAX_PACKET_SIZE
    requires start == PreambleIndex(input) < |input| < start + PAYLOAD_OFFSET
    ensures ScanFrame(input, bigEndian) == HeaderCut(start)
    ensures Received(buffer, input, bigEndian) == Splice(buffer, 0, input[start..start + PRE_SIZE])
  {
  }

  /** The input ends within the payload or FCS: the preamble and the length
      field are stored. */
  lemma {:induction false} ReceivedBodyCut(buffer: seq<byte>, input: seq<byte>, bigEndian: bool, start: nat, size: nat)
    requires |buffer| == MAX_PACKET_SIZE
    requires start == PreambleIndex(input) && start + PAYLOAD_OFFSET <= |input|
    requires size == SizeField.Decode(input[start + LENGTH_OFFSET..start + PAYLOAD_OFFSET], bigEndian)
    requires |input| < start + OVERHEAD_SIZE + size
    ensures ScanFrame(input, bigEndian) == BodyCut(start, size)
    ensures Received(buffer, input, bigEndian) == Splice(buffer, 0, input[start..start + PAYLOAD_OFFSET])
  {
  }

  /** The input holds the whole frame: all of it is stored. */
  lemma {:induction false} ReceivedComplete(buffer: seq<byte>, input: seq<byte>, bigEndian: bool, start: nat, size: nat)
    requires |buffer| == MAX_PACKET_SIZE
    requires start == PreambleIndex(input) && start + PAYLOAD_OFFSET <= |input|
    requires size == SizeField.Decode(input[start + LENGTH_OFFSET..start + PAYLOAD_OFFSET], bigEndian)
    requires start + OVERHEAD_SIZE + size <= |input|
    ensures ScanFrame(input, bigEndian) == Complete(start, size)
    ensures Received(buffer, input, bigEndian) == Splice(buffer, 0, input[start..start + OVERHEAD_SIZE + size])
  {
    assert ScanFrame(input, bigEndian) == Complete(start, size);
  }

  /** The same complete frame stored the way `Read` stores it, in three
      writes: the preamble byte, the length field, then payload and FCS. */
  lemma {:induction false} ReceivedInThreeWrites(buffer: seq<byte>, preamble: seq<byte>, header: seq<byte>,
                                                 filled: seq<byte>, input: seq<byte>, bigEndian: bool,
                                                 start: nat, size: nat)
    requires |buffer| == MAX_PACKET_SIZE
    requires start == PreambleIndex(input) && start + PAYLOAD_OFFSET <= |input|
    requires size == SizeField.Decode(input[start + LENGTH_OFFSET..start + PAYLOAD_OFFSET], bigEndian)
    requires start + OVERHEAD_SIZE + size <= |input|
    requires preamble == Splice(buffer, 0, input[start..start + PRE_SIZE])
    requires header == Splice(preamble, LENGTH_OFFSET, input[start + LENGTH_OFFSET..start + PAYLOAD_OFFSET])
    requires filled == Splice(header, PAYLOAD_OFFSET, input[start + PAYLOAD_OFFSET..start + OVERHEAD_SIZE + size])
    ensures ScanFrame(input, bigEndian) == Complete(start, size)
    ensures filled == Received(buffer, input, bigEndian)
  {
    assert filled == Splice(buffer, 0, input[start..start + OVERHEAD_SIZE + size]) by {
      SpliceExtendTwice(buffer, input, start, LENGTH_OFFSET, PAYLOAD_OFFSET, OVERHEAD_SIZE + size);
    }
    ReceivedComplete(buffer, input, bigEndian, start, size);
  }

  /**
   * After a complete read the buffer starts with the frame found in the
   * input, and is unchanged after it; its length field and payload are
   * those of that frame.
   */
  lemma {:induction false} ReceivedFields(buffer: seq<byte>, input: seq<byte>, bigEndian: bool)
    requires |buffer| == MAX_PACKET_SIZE
    requires ScanFrame(input, bigEndian).Complete?
    ensures var s := ScanFrame(input, bigEndian);
            var r := Received(buffer, input, bigEndian);
            r[..OVERHEAD_SIZE + s.size] == input[s.start..s.start + OVERHEAD_SIZE + s.size] &&
            r[OVERHEAD_SIZE + s.size..] == buffer[OVERHEAD_SIZE + s.size..] &&
            SizeField.Decode(r[LENGTH_OFFSET..PAYLOAD_OFFSET], bigEndian) == s.size &&
            r[PAYLOAD_OFFSET..PAYLOAD_OFFSET + s.size] == input[s.start + PAYLOAD_OFFSET..s.start + PAYLOAD_OFFSET + s.size]
  {
    var s := ScanFrame(input, bigEndian);
    var start, size := s.start, s.size;
    var frame := input[start..start + OVERHEAD_SIZE + size];
    var r := Received(buffer, input, bigEndian);
    assert r == Splice(buffer, 0, frame);
    assert r[..OVERHEAD_SIZE + size] == frame && r[OVERHEAD_SIZE + size..] == buffer[OVERHEAD_SIZE + size..] by {
      SplicedFrame(buffer, input, start, size);
    }
    assert SizeField.Decode(r[LENGTH_OFFSET..PAYLOAD_OFFSET], bigEndian) == size by {
      SplicedFrame(buffer, input, start, size);
      ScanFrameSize(input, bigEndian);
    }
    assert r[PAYLOAD_OFFSET..PAYLOAD_OFFSET + size] == input[start + PAYLOAD_OFFSET..start + PAYLOAD_OFFSET + size] by {
      SplicedFrame(buffer, input, start, size);
    }
  }

  /** The fields of a buffer whose first bytes were overwritten with the
      frame at `input[start..]`. */
  lemma {:induction false} SplicedFrame(buffer: seq<byte>, input: seq<byte>, start: nat, size: nat)
    requires |buffer| == MAX_PACKET_SIZE && size <= MAX_PAYLOAD_SIZE
    requires start + OVERHEAD_SIZE + size <= |input|
    ensures var r := Splice(buffer, 0, input[start..start + OVERHEAD_SIZE + size]);
            r[..OVERHEAD_SIZE + size] == input[start..start + OVERHEAD_SIZE + size] &&
            r[OVERHEAD_SIZE + size..] == buffer[OVERHEAD_SIZE + size..] &&
            r[LENGTH_OFFSET..PAYLOAD_OFFSET] == input[start + LENGTH_OFFSET..start + PAYLOAD_OFFSET] &&
            r[PAYLOAD_OFFSET..PAYLOAD_OFFSET + size] == input[start + PAYLOAD_OFFSET..start + PAYLOAD_OFFSET + size]
  {
    var k := OVERHEAD_SIZE + size;
    var r := Splice(buffer, 0, input[start..start + k]);
    assert r[..k] == input[start..start + k] by {
      SplicePrefixSlice(buffer, input, start, k, 0, k);
    }
    assert r[k..] == buffer[k..] by {
      SpliceSliceOutside(buffer, 0, input[start..start + k], k, |buffer|);
    }
    assert r[LENGTH_OFFSET..PAYLOAD_OFFSET] == input[start + LENGTH_OFFSET..start + PAYLOAD_OFFSET] by {
      SplicePrefixSlice(buffer, input, start, k, LENGTH_OFFSET, PAYLOAD_OFFSET);
    }
    assert r[PAYLOAD_OFFSET..PAYLOAD_OFFSET + size] == input[start + PAYLOAD_OFFSET..start + PAYLOAD_OFFSET + size] by {
      SplicePrefixSlice(buffer, input, start, k, PAYLOAD_OFFSET, PAYLOAD_OFFSET + size);
    }
  }

  /** Frame size computed from the 2-byte length field of `raw`. */
  function FrameLength(raw: seq<byte>, bigEndian: bool): (n: nat)
    requires |raw| >= PAYLOAD_OFFSET
    ensures OVERHEAD_SIZE <= n <= MAX_PACKET_SIZE
    ensures n - OVERHEAD_SIZE == SizeField.Decode(raw[LENGTH_OFFSET..PAYLOAD_OFFSET], bigEndian)
  {
    OVERHEAD_SIZE + SizeField.Decode(raw[LENGTH_OFFSET..PAYLOAD_OFFSET], bigEndian)
  }

  /** Byte count `CopyFromRawBuffer` copies: it takes the length from the
      single byte at offset `PRE_SIZE`, then adds the overhead. */
  function RawCopyLength(raw: seq<byte>): (n: nat)
    requires |raw| > PRE_SIZE
    ensures OVERHEAD_SIZE <= n <= OVERHEAD_SIZE + 0xFF
    ensures n - OVERHEAD_SIZE == raw[PRE_SIZE]
  {
    raw[PRE_SIZE] + OVERHEAD_SIZE
  }

  /**
   * Resynchronisation and decode round trip: garbage without a preamble
   * byte, then a frame, then anything: `Read` skips the garbage, reports
   * the frame complete, and the buffer starts with exactly that frame.
   */
  lemma {:induction false} ReadFindsFrame(buffer: seq<byte>, garbage: seq<byte>, payload: seq<byte>,
                                          rest: seq<byte>, crc16: Crc16, bigEndian: bool)
    requires |buffer| == MAX_PACKET_SIZE
    requires PREAMBLE !in garbage
    requires |payload| <= MAX_PAYLOAD_SIZE
    ensures var input := garbage + Frame(payload, crc16, bigEndian) + rest;
            ScanFrame(input, bigEndian) == Complete(|garbage|, |payload|) &&
            Received(buffer, input, bigEndian)[..OVERHEAD_SIZE + |payload|] == Frame(payload, crc16, bigEndian)
  {
    var f := Frame(payload, crc16, bigEndian);
    var input := garbage + f + rest;
    var start, k := |garbage|, OVERHEAD_SIZE + |payload|;
    assert PreambleIndex(input) == start by {
      assert input[start] == f[0] == PREAMBLE;
      assert forall j :: 0 <= j < start ==> input[j] == garbage[j];
      PreambleIndexFirst(input);
    }
    assert input[start..start + k] == f;
    assert input[start + LENGTH_OFFSET..start + PAYLOAD_OFFSET] == f[LENGTH_OFFSET..PAYLOAD_OFFSET] by {
      SliceOfSlice(input, start, start + k, LENGTH_OFFSET, PAYLOAD_OFFSET);
    }
    assert ScanFrame(input, bigEndian) == Complete(start, |payload|);
    assert Received(buffer, input, bigEndian)[..k] == f by {
      ReceivedFields(buffer, input, bigEndian);
    }
  }

  /**
   * Parity between the two ingestion paths: on an in-memory frame, a raw
   * copy that reads the full 2-byte length field leaves the buffer exactly
   * as `Read` does when fed the same bytes.
   */
  lemma {:induction false} ReadMatchesFrameCopy(buffer: seq<byte>, raw: seq<byte>, bigEndian: bool)
    requires |buffer| == MAX_PACKET_SIZE
    requires |raw| >= PAYLOAD_OFFSET && raw[0] == PREAMBLE
    requires FrameLength(raw, bigEndian) <= |raw|
    ensures Received(buffer, raw, bigEndian) == Splice(buffer, 0, raw[..FrameLength(raw, bigEndian)])
  {
    assert PreambleIndex(raw) == 0;
  }

  /**
   * The single-byte length read of `CopyFromRawBuffer` against the length
   * of a real frame: it reads the low byte in the `_bigEndian` order of
   * this model and the high byte in the other, so it copies the whole
   * frame only for payloads under 256 bytes, respectively empty payloads.
   */
  lemma {:induction false} RawCopyLengthOfFrame(payload: seq<byte>, crc16: Crc16, bigEndian: bool)
    requires |payload| <= MAX_PAYLOAD_SIZE
    ensures var f := Frame(payload, crc16, bigEndian);
            RawCopyLength(f) == OVERHEAD_SIZE + if bigEndian then |payload| % 0x100 else |payload| / 0x100
    ensures var f := Frame(payload, crc16, bigEndian);
            RawCopyLength(f) == FrameLength(f, bigEndian) <==> if bigEndian then |payload| < 0x100 else |payload| == 0
  {
    var f := Frame(payload, crc16, bigEndian);
    assert f[PRE_SIZE] == SizeField.Encode(|payload|, bigEndian)[0];
  }
}
