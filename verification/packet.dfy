/**
 * `VariableLength2BPacket`: one frame held in a single buffer that is
 * allocated once, at the largest frame size, and reused for every encode
 * and decode. The `_fcs` pointer of the source is `fcsOffset`, an offset
 * into that buffer; the `_pre`, `_payloadSize` and `_payload` pointers
 * never move and are the constants 0, `LENGTH_OFFSET` and `PAYLOAD_OFFSET`.
 */
module Packet {
  import opened Octets
  import SizeField
  import opened Checksum
  import opened Framing

  /**
   * `copySize` of `GetPayload`: `psize < size ? psize : size` mixes a
   * `uint32_t` with an `int`, so both are compared (and the result taken)
   * as `uint32_t`, and a negative `size` stands for a value above every
   * payload size.
   */
  function CopyCount(psize: uint16, size: int32): (count: uint32)
    ensures count <= psize
    ensures 0 <= size ==> count <= size && (count == psize || count == size)
    ensures size < 0 ==> count == psize
  {
    var usize: uint32 := if size < 0 then size + 0x1_0000_0000 else size;
    if psize < usize then psize else usize
  }

  class VariableLength2BPacket {
    /** The frame buffer; never reallocated. */
    const buf: array<byte>
    /** Byte order of the length field (set outside this class in the source). */
    const bigEndian: bool
    /** Offset of the FCS slot; the source's `_fcs`. */
    var fcsOffset: nat

    ghost predicate Valid()
      reads this
    {
      buf.Length == MAX_PACKET_SIZE &&
      PAYLOAD_OFFSET <= fcsOffset <= PAYLOAD_OFFSET + MAX_PAYLOAD_SIZE
    }

    /** The constructor and `_Init`: allocate `_maxPacketSize` bytes, write
        the preamble and a zero length, and put the FCS slot right after
        the (empty) payload. */
    constructor (bigEndian: bool)
      ensures Valid() && fresh(buf)
      ensures this.bigEndian == bigEndian
      ensures buf.Length == OVERHEAD_SIZE + MAX_PAYLOAD_SIZE == 5 + 65535
      ensures buf[0] == PREAMBLE && GetPayloadSize() == 0 && fcsOffset == PAYLOAD_OFFSET
    {
      this.bigEndian := bigEndian;
      buf := new byte[MAX_PACKET_SIZE];
      fcsOffset := PAYLOAD_OFFSET;
      new;
      Init();
    }

    method Init()
      requires Valid()
      modifies this, buf
      ensures Valid()
      ensures buf[..] == Splice(Splice(old(buf[..]), 0, [PREAMBLE]), LENGTH_OFFSET, SizeField.Encode(0, bigEndian))
      ensures buf[0] == PREAMBLE && GetPayloadSize() == 0 && fcsOffset == PAYLOAD_OFFSET
    {
      Write(0, [PREAMBLE]);
      SetPayloadSizeField(0);
      fcsOffset := PAYLOAD_OFFSET + GetPayloadSize();
    }

    /** Copy `bytes` into the buffer at `at` (the source's `memcpy` and
        byte stores). */
    method Write(at: nat, bytes: seq<byte>)
      requires at + |bytes| <= buf.Length
      modifies buf
      ensures buf[..] == Splice(old(buf[..]), at, bytes)
    {
      forall i | 0 <= i < |bytes| {
        buf[at + i] := bytes[i];
      }
      SpliceAt(old(buf[..]), at, bytes);
    }

    /** `_GetPayloadSize` and `GetPayloadSize`: the decoded length field,
        the one length whose encoding is the field as it stands. Whatever
        the field holds, the payload and the FCS slot after it fit the
        buffer. */
    function GetPayloadSize(): (n: uint16)
      requires buf.Length == MAX_PACKET_SIZE
      reads buf
      ensures SizeField.Encode(n, bigEndian) == buf[LENGTH_OFFSET..PAYLOAD_OFFSET]
      ensures n <= MAX_PAYLOAD_SIZE
      ensures PAYLOAD_OFFSET + n + FCS_SIZE <= buf.Length
    {
      SizeField.DecodeThenEncode(buf[LENGTH_OFFSET..PAYLOAD_OFFSET], bigEndian);
      SizeField.Decode(buf[LENGTH_OFFSET..PAYLOAD_OFFSET], bigEndian)
    }

    /** The payload bytes the length field currently covers. */
    function Payload(): (p: seq<byte>)
      requires buf.Length == MAX_PACKET_SIZE
      reads buf
      ensures |p| == GetPayloadSize()
    {
      buf[PAYLOAD_OFFSET..PAYLOAD_OFFSET + GetPayloadSize()]
    }

    /** The two bytes after the payload, where a received FCS sits. */
    function Fcs(): (fcs: seq<byte>)
      requires buf.Length == MAX_PACKET_SIZE
      reads buf
      ensures |fcs| == FCS_SIZE
    {
      buf[PAYLOAD_OFFSET + GetPayloadSize()..PAYLOAD_OFFSET + GetPayloadSize() + FCS_SIZE]
    }

    /** `GetPacketSize`: overhead plus payload, never more than the buffer. */
    function GetPacketSize(): (n: int)
      requires buf.Length == MAX_PACKET_SIZE
      reads buf
      ensures n == OVERHEAD_SIZE + |Payload()|
      ensures OVERHEAD_SIZE <= n <= buf.Length
    {
      OVERHEAD_SIZE + GetPayloadSize()
    }

    /** `_CheckFCS` and `PacketIsOk`: the checksum over the payload followed
        by the received FCS is zero. */
    function PacketIsOk(crc16: Crc16): (ok: bool)
      requires buf.Length == MAX_PACKET_SIZE
      reads buf
      ensures ok <==> crc16(Payload() + Fcs()) == 0
    {
      var psize := GetPayloadSize();
      assert buf[PAYLOAD_OFFSET..PAYLOAD_OFFSET + psize + FCS_SIZE] == Payload() + Fcs();
      crc16(buf[PAYLOAD_OFFSET..PAYLOAD_OFFSET + psize + FCS_SIZE]) == 0
    }

    /** `_SetPayloadSizeField`: only the two length bytes change, and they
        decode to `n` truncated to 16 bits. */
    method SetPayloadSizeField(n: uint32)
      requires Valid()
      modifies buf
      ensures buf[..] == Splice(old(buf[..]), LENGTH_OFFSET, SizeField.Encode(n, bigEndian))
      ensures !bigEndian ==> buf[1] == (n / 0x100) % 0x100 && buf[2] == n % 0x100
      ensures GetPayloadSize() == n % 0x1_0000
    {
      var field := SizeField.Encode(n, bigEndian);
      Write(LENGTH_OFFSET, field);
      assert buf[LENGTH_OFFSET..PAYLOAD_OFFSET] == field;
      SizeField.EncodeThenDecode(n, bigEndian);
    }

    /** `SetPayload`: clamp the size to `MAX_PAYLOAD_SIZE`, write the length
        field and the payload, move the FCS slot. The FCS bytes themselves
        are not written. */
    method SetPayload(data: seq<byte>, size: uint32) returns (copySize: uint32)
      requires Valid()
      requires |data| >= if size < MAX_PAYLOAD_SIZE then size else MAX_PAYLOAD_SIZE
      modifies this, buf
      ensures Valid()
      ensures copySize <= MAX_PAYLOAD_SIZE && copySize <= size
      ensures copySize == size || copySize == MAX_PAYLOAD_SIZE
      ensures buf[..] == Splice(Splice(old(buf[..]), LENGTH_OFFSET, SizeField.Encode(copySize, bigEndian)),
                                PAYLOAD_OFFSET, data[..copySize])
      ensures GetPayloadSize() == copySize && Payload() == data[..copySize]
      ensures fcsOffset == PAYLOAD_OFFSET + copySize
      ensures buf[0] == old(buf[0])
    {
      copySize := if MAX_PAYLOAD_SIZE < size then MAX_PAYLOAD_SIZE else size;
      SetPayloadSizeField(copySize);
      Write(PAYLOAD_OFFSET, data[..copySize]);
      fcsOffset := PAYLOAD_OFFSET + copySize;
      assert GetPayloadSize() == copySize && Payload() == data[..copySize] && buf[0] == old(buf[0]) by {
        FilledFields(old(buf[..]), copySize, data[..copySize], bigEndian);
      }
    }

    /** `UpdateFCS`: checksum the payload the length field covers and store
        it, high byte first, at the FCS slot; nothing else changes. */
    method UpdateFCS(crc16: Crc16)
      requires Valid()
      modifies buf
      ensures buf[..] == Splice(old(buf[..]), fcsOffset, FcsBytes(crc16(old(Payload()))))
      ensures GetPayloadSize() == old(GetPayloadSize())
      ensures fcsOffset == PAYLOAD_OFFSET + GetPayloadSize() ==>
                Payload() == old(Payload()) && Fcs() == FcsBytes(crc16(Payload()))
    {
      var psize := GetPayloadSize();
      var crc := crc16(buf[PAYLOAD_OFFSET..PAYLOAD_OFFSET + psize]);
      Write(fcsOffset, FcsBytes(crc));
      assert buf[LENGTH_OFFSET..PAYLOAD_OFFSET] == old(buf[LENGTH_OFFSET..PAYLOAD_OFFSET]);
    }

    /** `PayloadUpdated`: after the caller wrote `n` payload bytes into the
        buffer, set the length field, move the FCS slot and fill it. The
        buffer then begins with the frame that carries those bytes. */
    method PayloadUpdated(n: uint32, crc16: Crc16)
      requires Valid()
      requires n <= MAX_PAYLOAD_SIZE
      modifies this, buf
      ensures Valid()
      ensures buf[..] == Encoded(old(buf[..]), n, crc16, bigEndian)
      ensures fcsOffset == PAYLOAD_OFFSET + n
      ensures GetPayloadSize() == n && Payload() == old(buf[PAYLOAD_OFFSET..PAYLOAD_OFFSET + n])
      ensures Fcs() == FcsBytes(crc16(Payload()))
    {
      ghost var before := buf[..];
      ghost var payload := before[PAYLOAD_OFFSET..PAYLOAD_OFFSET + n];
      SetPayloadSizeField(n);
      fcsOffset := PAYLOAD_OFFSET + n;
      ghost var sized := buf[..];
      assert sized[PAYLOAD_OFFSET..PAYLOAD_OFFSET + n] == payload by {
        SpliceSliceOutside(before, LENGTH_OFFSET, SizeField.Encode(n, bigEndian), PAYLOAD_OFFSET, PAYLOAD_OFFSET + n);
      }
      assert GetPayloadSize() == n by {
        SizeField.FitsField(n);
      }
      assert Payload() == payload;
      UpdateFCS(crc16);
      assert buf[..] == Encoded(before, n, crc16, bigEndian);
    }

    /** `GetPayload`: copy the first `CopyCount(payload size, size)` payload
        bytes to the caller's array; the rest of it is untouched. */
    method GetPayload(copy: array<byte>, size: int32)
      requires Valid()
      requires copy != buf
      requires CopyCount(GetPayloadSize(), size) <= copy.Length
      modifies copy
      ensures copy[..] == Splice(old(copy[..]), 0, Payload()[..CopyCount(GetPayloadSize(), size)])
    {
      var psize := GetPayloadSize();
      var copySize := CopyCount(psize, size);
      forall i | 0 <= i < copySize {
        copy[i] := buf[PAYLOAD_OFFSET + i];
      }
    }

    /** `Read`: wait for the preamble, read the 2-byte length field, then
        read the payload and FCS it announces. The FCS slot offset is left
        where it was. */
    method Read(input: seq<byte>) returns (outcome: Scan)
      requires Valid()
      modifies buf
      ensures outcome == ScanFrame(input, bigEndian)
      ensures buf[..] == Received(old(buf[..]), input, bigEndian)
    {
      ghost var before := buf[..];
      var start := PreambleIndex(input);
      if start == |input| {
        assert ScanFrame(input, bigEndian) == NoPreamble;
        return NoPreamble;
      }
      Write(0, input[start..start + PRE_SIZE]);
      if |input| - start < PAYLOAD_OFFSET {
        ReceivedHeaderCut(before, input, bigEndian, start);
        return HeaderCut(start);
      }
      ghost var preamble := buf[..];
      Write(LENGTH_OFFSET, input[start + LENGTH_OFFSET..start + PAYLOAD_OFFSET]);
      assert buf[LENGTH_OFFSET..PAYLOAD_OFFSET] == input[start + LENGTH_OFFSET..start + PAYLOAD_OFFSET] by {
        SpliceSliceInside(preamble, LENGTH_OFFSET, input[start + LENGTH_OFFSET..start + PAYLOAD_OFFSET],
                          LENGTH_OFFSET, PAYLOAD_OFFSET);
      }
      var size := GetPayloadSize();
      if |input| - start - PAYLOAD_OFFSET < size + FCS_SIZE {
        assert buf[..] == Splice(before, 0, input[start..start + PAYLOAD_OFFSET]) by {
          SpliceExtend(before, input, start, LENGTH_OFFSET, PAYLOAD_OFFSET);
        }
        ReceivedBodyCut(before, input, bigEndian, start, size);
        return BodyCut(start, size);
      }
      ghost var header := buf[..];
      Write(PAYLOAD_OFFSET, input[start + PAYLOAD_OFFSET..start + OVERHEAD_SIZE + size]);
      ReceivedInThreeWrites(before, preamble, header, buf[..], input, bigEndian, start, size);
      return Complete(start, size);
    }

    /** `CopyFromRawBuffer` as written: the length is the one byte at offset
        `PRE_SIZE` of `raw`, and that many bytes plus the overhead are
        copied to the start of the buffer. The FCS slot offset is left where
        it was. */
    method CopyFromRawBuffer(raw: seq<byte>)
      requires Valid()
      requires |raw| > PRE_SIZE && RawCopyLength(raw) <= |raw|
      modifies buf
      ensures buf[..] == Splice(old(buf[..]), 0, raw[..RawCopyLength(raw)])
      ensures GetPayloadSize() == SizeField.Decode(raw[LENGTH_OFFSET..PAYLOAD_OFFSET], bigEndian)
    {
      var payloadSize := raw[PRE_SIZE];
      Write(0, raw[..payloadSize + OVERHEAD_SIZE]);
      assert buf[LENGTH_OFFSET..PAYLOAD_OFFSET] == raw[LENGTH_OFFSET..PAYLOAD_OFFSET];
    }

    /** `CopyFromRawBuffer` with the length taken from the whole 2-byte
        field in the packet's byte order: it copies exactly one frame, the
        same bytes `Read` stores when given `raw` as its input. */
    method CopyFromRawFrame(raw: seq<byte>)
      requires Valid()
      requires |raw| >= PAYLOAD_OFFSET && FrameLength(raw, bigEndian) <= |raw|
      modifies buf
      ensures buf[..] == Splice(old(buf[..]), 0, raw[..FrameLength(raw, bigEndian)])
      ensures raw[0] == PREAMBLE ==> buf[..] == Received(old(buf[..]), raw, bigEndian)
      ensures GetPayloadSize() == FrameLength(raw, bigEndian) - OVERHEAD_SIZE
      ensures Payload() == raw[PAYLOAD_OFFSET..FrameLength(raw, bigEndian) - FCS_SIZE]
    {
      ghost var before := buf[..];
      var packetSize := FrameLength(raw, bigEndian);
      Write(0, raw[..packetSize]);
      assert buf[LENGTH_OFFSET..PAYLOAD_OFFSET] == raw[LENGTH_OFFSET..PAYLOAD_OFFSET];
      assert Payload() == raw[PAYLOAD_OFFSET..packetSize - FCS_SIZE] by {
        SplicedFrame(before, raw, 0, packetSize - OVERHEAD_SIZE);
      }
      if raw[0] == PREAMBLE {
        ReadMatchesFrameCopy(old(buf[..]), raw, bigEndian);
      }
    }
  }
}
