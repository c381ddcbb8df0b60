# VariableLength2BPacket in Dafny

A model of the `VariableLength2BPacket` framing codec of `dccomms_packets`.
It models one packet object, which holds its frame in one fixed buffer:

- offset 0: the preamble byte `0x55`;
- offsets 1 and 2: the payload length;
- from offset 3: the payload;
- after the payload: a 2-byte CRC16 frame check sequence (FCS), high byte first.

The model is the class `Packet.VariableLength2BPacket`.

- Its `buf` is an `array<byte>` of `5 + 65535` bytes. It is allocated once by the constructor and never replaced.
- `bigEndian` selects the byte order of the length field.
- `fcsOffset` stands for the `_fcs` pointer.

Each method that changes the buffer states its whole new buffer as a function of the old one. These functions are:

- `Octets.Splice`: overwrite a run of bytes, leave the rest;
- `Framing.Encoded`: what `PayloadUpdated` leaves;
- `Framing.Received`: what `Read` leaves after taking bytes from an input.

Lemmas about those functions state what the source promises: the field round trips, that only the named bytes change, that the buffer starts with a complete frame, and resynchronisation on the preamble.

Modules:

- `Octets`: byte and integer widths; `Splice` and its slice lemmas.
- `SizeField`: the 2-byte length field.
  - `Encode` is `_SetPayloadSizeField`.
  - `Decode` is the corrected `_GetPayloadSize`.
  - `DecodeAsWritten` is `_GetPayloadSize` as written, with the missing `return result` added, on a little-endian host.
- `Checksum`: the FCS bytes. The CRC16 routine itself is a parameter.
- `Framing`: the frame layout, the frame that encoding produces, and the byte-stream side of `Read` as functions on sequences.
- `Packet`: the class, with one method or function per operation of the source.

The model fixes three things the source leaves open:

- The host byte order is little-endian. The `_bigEndian` branch stores and loads the length as a native `uint16_t`, so on this model's host it puts the low byte first. The other branch writes the high byte first.
- `Checksum::crc16` is not part of this model. Every operation that uses it takes a function `crc16: seq<byte> -> uint16` as a parameter, so no polynomial is fixed.
- `Read` takes bytes from a finite input sequence. It skips to the first `0x55` and stores it, then takes the 2 length bytes, then takes `size + 2` bytes. A stage whose bytes the input does not hold writes nothing, and the outcome (`Framing.Scan`) says how far it got.

## Model

| member | source | states |
|---|---|---|
| `Packet.VariableLength2BPacket.constructor` | src/VariableLength2BPacket.cpp:5-12 | a fresh buffer of `5 + 65535` bytes (overhead = preamble + 2 + FCS 2, maximum payload 65535); after `_Init` it holds the preamble, a zero length, and the FCS slot at offset 3 |
| `Packet.VariableLength2BPacket.Init` | src/VariableLength2BPacket.cpp:14-21 | writes `0x55` at offset 0 and a zero length field and nothing else; afterwards the length decodes to 0 and the FCS offset is the payload offset 3 |
| `Packet.VariableLength2BPacket.SetPayloadSizeField` | src/VariableLength2BPacket.cpp:43-50 | only bytes 1 and 2 change; in the non-`_bigEndian` order byte 1 is `n >> 8` and byte 2 is `n & 0xff`; the field then decodes to `n` mod 65536 |
| `Packet.VariableLength2BPacket.GetPayloadSize` | src/VariableLength2BPacket.cpp:30-32 | the decoded length is the one value whose encoding is the length field as it stands; it is at most 65535, and any value it can take leaves room for the payload and both FCS bytes inside the buffer |
| `Packet.VariableLength2BPacket.GetPacketSize` | src/VariableLength2BPacket.cpp:34-36 | overhead 5 plus the payload size, and never more than the buffer length |
| `Packet.VariableLength2BPacket.PacketIsOk` | src/VariableLength2BPacket.cpp:88-93 | true exactly when the CRC16 of the payload followed by the 2 received FCS bytes is zero |
| `Packet.VariableLength2BPacket.SetPayload` | src/VariableLength2BPacket.cpp:73-79 | returns `min(size, 65535)`; the buffer gets the length field for that count and `data[..count]` at offset 3 and nothing else; the FCS offset becomes `3 + count`; the preamble is unchanged; no FCS bytes are written |
| `Packet.VariableLength2BPacket.UpdateFCS` | src/VariableLength2BPacket.cpp:81-86 | writes `crc >> 8`, `crc & 0xff` of the payload's checksum at the FCS offset and changes nothing else; when the offset is right after the payload, the payload is kept and the FCS slot holds its checksum |
| `Packet.VariableLength2BPacket.PayloadUpdated` | src/VariableLength2BPacket.cpp:61-65 | for `n` at most 65535 (see Findings): the buffer becomes `Encoded(old buffer, n)` and the FCS offset `3 + n`; the length then decodes to `n`, the payload bytes are the ones the buffer already held, and the two bytes after them are their CRC, high byte first (`Framing.EncodedFrame` and `Framing.EncodedPassesCheck` state what that buffer is) |
| `Packet.VariableLength2BPacket.GetPayload` | src/VariableLength2BPacket.cpp:67-71 | copies the first `CopyCount(payload size, size)` payload bytes to the front of `copy`; the rest of `copy` is unchanged |
| `Packet.CopyCount` | src/VariableLength2BPacket.cpp:68-69 | the unsigned `psize < size ? psize : size`: the minimum of the two for a non-negative `size`, the whole payload size for a negative one |
| `Packet.VariableLength2BPacket.Read` | src/VariableLength2BPacket.cpp:38-42 | the outcome is `ScanFrame(input)` and the new buffer is `Received(old buffer, input)`; the FCS offset is not moved |
| `Packet.VariableLength2BPacket.CopyFromRawBuffer` | src/VariableLength2BPacket.cpp:23-26 | as written: copies `raw[1] + 5` bytes of `raw` to the start of the buffer and nothing else; needs `raw` to hold that many bytes |
| `Packet.VariableLength2BPacket.CopyFromRawFrame` | src/VariableLength2BPacket.cpp:23-26 | with the 2-byte field: copies exactly one frame; for a raw frame that starts with the preamble the buffer ends up as `Read` leaves it; the length and payload are those of `raw` |
| `SizeField.NativeLoad` | src/VariableLength2BPacket.cpp:55 | the native `uint16_t` load on a little-endian host is the inverse of the native store: storing the loaded value low byte first gives back the same two bytes |
| `SizeField.Encode` | src/VariableLength2BPacket.cpp:43-50 | two bytes; the `_bigEndian` branch holds `n` truncated to 16 bits natively; the other branch holds `(n >> 8) & 0xff`, then `n & 0xff` |
| `SizeField.Decode` | src/VariableLength2BPacket.cpp:52-59 | the `_GetPayloadSize` that returns its result, with the byte swap kept to 16 bits: low byte first on the `_bigEndian` branch, high byte first otherwise |
| `SizeField.DecodeAsWritten` | src/VariableLength2BPacket.cpp:57 | the promoted-`int` swap as written: a value below 2^24 that exceeds `Decode` by 65536 times byte 2 on the non-`_bigEndian` branch |
| `SizeField.EncodeThenDecode` | src/VariableLength2BPacket.cpp:43-59 | length-field round trip on both branches: decoding what `_SetPayloadSizeField(n)` stored gives `n` mod 65536 |
| `SizeField.DecodeThenEncode` | src/VariableLength2BPacket.cpp:43-59 | the converse: re-encoding a decoded field gives the same two bytes |
| `SizeField.Encode300` | src/VariableLength2BPacket.cpp:44-49 | 300 is stored as `01 2C` high byte first and as `2C 01` on the native little-endian branch; both decode to 300 |
| `SizeField.DecodeAsWrittenAfterEncode` | src/VariableLength2BPacket.cpp:57 | the as-written decoder round-trips exactly when the order is `_bigEndian` or the low byte of the length is zero |
| `SizeField.DecodeAsWrittenCounterexample` | src/VariableLength2BPacket.cpp:57 | length 1 is stored as `00 01` and read back as 65537 |
| `Checksum.FcsBytes` | src/VariableLength2BPacket.cpp:84-85 | the two FCS bytes, high byte first, read back big-endian as the CRC |
| `Framing.Frame` | src/VariableLength2BPacket.cpp:61-65 | the wire frame for a payload: preamble, a length field that decodes to the payload size, the payload, its big-endian CRC; 5 + payload bytes |
| `Framing.Encoded` | src/VariableLength2BPacket.cpp:61-65 | the buffer after `PayloadUpdated`: same length as before |
| `Framing.OversizedPayloadUpdate` | src/VariableLength2BPacket.cpp:61-65 | as written, for `n` above 65535: the field reads back `n` mod 65536, less than `n`, while the FCS slot at `3 + n` ends past the buffer; for `n = 65536` the field reads 0 and the second FCS byte would be at offset 65540 |
| `Framing.EncodedHeader` | src/VariableLength2BPacket.cpp:61-62 | after `PayloadUpdated(n)` the preamble byte is unchanged and the length field is the encoding of `n`, so it decodes to `n` |
| `Framing.EncodedBody` | src/VariableLength2BPacket.cpp:63-65 | after `PayloadUpdated(n)` the `n` payload bytes are untouched, bytes `3+n` and `4+n` are their CRC high and low bytes, and everything after the FCS slot is unchanged |
| `Framing.EncodedFrame` | src/VariableLength2BPacket.cpp:61-65 | a buffer starting with the preamble starts, after `PayloadUpdated(n)`, with exactly the frame of its `n` payload bytes |
| `Framing.EncodedPassesCheck` | src/VariableLength2BPacket.cpp:88-93 | for a CRC with a zero residue, the frame `PayloadUpdated` leaves passes the `_CheckFCS` test: the CRC of its payload followed by its FCS is zero |
| `Framing.FilledHeader` | src/VariableLength2BPacket.cpp:74-76 | the header half of `Framing.FilledFields`: after `SetPayload` stores the count and the data, the preamble byte is unchanged and the length field decodes to the count |
| `Framing.FilledFields` | src/VariableLength2BPacket.cpp:74-76 | after `SetPayload` stores the count `c` and `c` data bytes, the preamble byte is unchanged, the length field decodes to `c` and the `c` bytes from offset 3 are the data |
| `Framing.PreambleIndex` | src/VariableLength2BPacket.cpp:39 | where the wait for the preamble stops: at a `0x55`, or at the end of the input |
| `Framing.PreambleIndexFirst` | src/VariableLength2BPacket.cpp:39 | no byte before that point is `0x55`, so the stop is the first preamble byte, and the scan runs to the end exactly when the input holds none |
| `Framing.ScanFrame` | src/VariableLength2BPacket.cpp:38-42 | how far `Read` gets; every stage it reports complete lies inside the input |
| `Framing.ScanFrameStart` | src/VariableLength2BPacket.cpp:39 | a frame starts at the first preamble byte; no preamble is reported exactly when the input holds none |
| `Framing.ScanFrameSize` | src/VariableLength2BPacket.cpp:40-41 | the header is cut exactly when fewer than 3 bytes follow the preamble. Otherwise the size is the decoded length field. The frame is complete exactly when the input also holds the payload and FCS |
| `Framing.Received` | src/VariableLength2BPacket.cpp:38-42 | the buffer after `Read`: same length; unchanged when the input has no preamble |
| `Framing.ReceivedHeaderCut` | src/VariableLength2BPacket.cpp:39-40 | input ending less than 3 bytes after the preamble: the outcome is a cut header and only the preamble byte is stored |
| `Framing.ReceivedBodyCut` | src/VariableLength2BPacket.cpp:40-41 | input ending before the payload and FCS the length field announces: the outcome is a cut body of that size and only the preamble and length field are stored |
| `Framing.ReceivedComplete` | src/VariableLength2BPacket.cpp:39-41 | input holding the whole frame: the outcome is complete with the decoded size and the frame's `5 + size` bytes are stored at the start of the buffer |
| `Framing.ReceivedInThreeWrites` | src/VariableLength2BPacket.cpp:39-41 | storing the preamble byte, then the length field, then the payload and FCS, in three writes, leaves the buffer `Received` describes for a complete frame |
| `Framing.ReceivedFields` | src/VariableLength2BPacket.cpp:38-42 | after a complete read, the buffer starts with the frame's bytes and is unchanged after them. Its length field decodes to the frame's size and its payload is the frame's payload |
| `Framing.ReadFindsFrame` | src/VariableLength2BPacket.cpp:38-42 | resynchronisation and decode round trip: after garbage without `0x55`, a frame followed by anything is found complete at the right place with the right size, and the buffer then starts with exactly that frame |
| `Framing.FrameLength` | src/VariableLength2BPacket.cpp:24-25 | the frame size given by a 2-byte length field: 5 plus the decoded length, at most the buffer size |
| `Framing.RawCopyLength` | src/VariableLength2BPacket.cpp:24-25 | the byte count `CopyFromRawBuffer` copies: 5 plus the single byte at offset 1, so at most 260 |
| `Framing.ReadMatchesFrameCopy` | src/VariableLength2BPacket.cpp:23-26 | on an in-memory frame starting with the preamble, copying `FrameLength` bytes leaves the buffer exactly as `Read` does |
| `Framing.RawCopyLengthOfFrame` | src/VariableLength2BPacket.cpp:24 | on a real frame, the single-byte read sees the low byte of the length (`_bigEndian`) or the high byte (otherwise). It copies the whole frame only when the payload is under 256 bytes, or empty, respectively |

## Left out

- `Checksum::crc16` (lines 83 and 90) is not part of this model. It is the parameter `crc16`, and nothing is assumed about its algebra. That an encoded frame passes `PacketIsOk` is proved (`Framing.EncodedPassesCheck`) only for a `crc16` with a zero residue, which is a stated hypothesis.
- Blocking stream I/O (lines 39-41): `Stream::WaitFor` and `Stream::Read` are not part of this model. `Read` consumes a finite input sequence; waiting, stream closure and partial reads across calls are not modelled.
- Host byte order: the native `uint16_t` store and load of the `_bigEndian` branch (lines 45, 55, and the load inside line 57) are modelled for a little-endian host only.
- `_AllocBuffer` and `GetBuffer` (lines 10, 15) are base-class helpers that are not part of this model. The constructor allocates the array itself.
- `GetPayloadBuffer` (line 28) hands out a raw pointer into the buffer, and writes through it are not modelled as an operation. `PayloadUpdated` takes whatever payload bytes the buffer already holds.
- `CLASS_LOADER_REGISTER_CLASS` (line 95) and the class-loader include (line 1): plugin-registration plumbing.
- The declaration of `_bigEndian` and `PRE_SIZE` is in a header that is not part of this model. `bigEndian` is fixed by the constructor; `PRE_SIZE` is 1, as offset arithmetic at line 17 requires.
- Packet.VariableLength2BPacket.Read: like the source, it does not move the FCS offset, so after a read `fcsOffset` keeps its old value. A later `UpdateFCS` therefore writes where the previous payload ended.
- Packet.VariableLength2BPacket.CopyFromRawBuffer: as in the source, the FCS offset is not moved.
- Packet.VariableLength2BPacket.GetPayload: requires `copy` to be a different array from the packet buffer. An overlapping `memcpy` is undefined behaviour in the source.
- Packet.VariableLength2BPacket.PayloadUpdated: requires `n <= 65535`. The source does not check it. For a larger `n` it stores `n` mod 65536 in the field and moves `_fcs` to `_payload + n`, so `UpdateFCS` then writes past the end of the 65540-byte buffer: for `n = 65536` the second FCS byte lands at offset 65540. That path is stated by `Framing.OversizedPayloadUpdate` (see Findings) and not modelled as a buffer write.
- Packet.VariableLength2BPacket.SetPayload: as in the source, it only moves the FCS offset and leaves the FCS bytes as they were, although a finished frame needs them. Only `PayloadUpdated` writes them.

## Findings

| source | as written | input that shows it | evidently intended | confidence | as-written member | corrected member |
|---|---|---|---|---|---|---|
| src/VariableLength2BPacket.cpp:57 | The `uint16_t` field is promoted to `int` before `<< 8`, so the swapped value keeps bits 16-23 and is not a 16-bit length. (The function also lacks `return result`.) | non-`_bigEndian`, `_SetPayloadSizeField(1)` stores `00 01`, which reads back as 65537 | a 16-bit byte swap, so that reading back the field gives the length that was written | not executed | `SizeField.DecodeAsWrittenCounterexample` | `SizeField.EncodeThenDecode` |
| src/VariableLength2BPacket.cpp:24 | the length is read from the single byte at offset 1 of a 2-byte field | a frame with a 300-byte payload: the byte read is `0x01` (non-`_bigEndian`) or `0x2C` (`_bigEndian`), so 6 or 49 bytes are copied instead of 305 | use the whole 2-byte length field in the packet's byte order, and copy exactly one frame | not executed | `Framing.RawCopyLengthOfFrame` | `Framing.ReadMatchesFrameCopy` |
| src/VariableLength2BPacket.cpp:61-65 | `PayloadUpdated` accepts any `uint32_t` length: it stores it truncated to 16 bits but moves the FCS slot by the full length, and `UpdateFCS` (lines 84-85) writes there | `PayloadUpdated(65536)`: the field reads back 0, and the FCS bytes go to offsets 65539 and 65540 of a 65540-byte buffer | a length of at most 65535, the most the payload buffer holds, so that the field decodes to `n` and the FCS slot lies inside the buffer | not executed | `Framing.OversizedPayloadUpdate` | `Packet.VariableLength2BPacket.PayloadUpdated` |
