/**
 * The frame check sequence. The CRC16 routine itself is not part of this
 * model: every operation that needs it takes it as a parameter `crc16`,
 * so no polynomial is fixed and nothing is assumed about its algebra
 * except where a lemma states so in its `requires`.
 */
module Checksum {
  import opened Octets

  /** A 16-bit checksum over a byte range. */
  type Crc16 = seq<byte> -> uint16

  /** The FCS slot as `UpdateFCS` fills it: `crc >> 8`, then `crc & 0xff`. */
  function FcsBytes(crc: uint16): (fcs: seq<byte>)
    ensures |fcs| == 2
    ensures 0x100 * (fcs[0] as int) + fcs[1] == crc
  {
    [crc / 0x100, crc % 0x100]
  }

  /**
   * The property a CRC has and `_CheckFCS` relies on: the checksum of any
   * data followed by its own big-endian checksum is zero.
   */
  ghost predicate HasZeroResidue(crc16: Crc16)
  {
    forall data: seq<byte> :: Residue(crc16, data) == 0
  }

  /** The checksum of `data` followed by its own FCS bytes. */
  ghost function Residue(crc16: Crc16, data: seq<byte>): uint16
  {
    crc16(data + FcsBytes(crc16(data)))
  }
}
