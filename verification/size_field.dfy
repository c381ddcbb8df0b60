/**
 * The 2-byte payload-length field at offsets 1 and 2 of a frame.
 *
 * The `_bigEndian` branch of the source stores and loads the field as one
 * native `uint16_t`; this model fixes the host byte order to little-endian,
 * so that branch puts the low byte first. The other branch writes the high
 * byte first with two explicit byte stores and decodes with a byte swap of
 * the native load.
 */
module SizeField {
  import opened Octets

  /** The native 16-bit load of `field` on a little-endian host: the
      native store of the value it returns puts back the same two bytes,
      low byte first. */
  function NativeLoad(field: seq<byte>): (v: uint16)
    requires |field| == 2
    ensures [v % 0x100, v / 0x100] == field
  {
    ByteSplit(field[1], field[0]);
    field[0] as int + 0x100 * (field[1] as int)
  }

  /**
   * The two bytes `_SetPayloadSizeField(n)` stores. With `bigEndian` the
   * value is truncated to `uint16_t` and stored natively; otherwise
   * `(uint8_t)(n >> 8)` goes first and `(uint8_t)(n & 0xff)` second.
   */
  function Encode(n: uint32, bigEndian: bool): (field: seq<byte>)
    ensures |field| == 2
    ensures bigEndian ==> NativeLoad(field) == n % 0x1_0000
    ensures !bigEndian ==> field[0] == (n / 0x100) % 0x100 && field[1] == n % 0x100
  {
    var lo, hi := n % 0x100, (n / 0x100) % 0x100;
    DivModSplit(n);
    if bigEndian then [lo, hi] else [hi, lo]
  }

  /**
   * `_GetPayloadSize` with the value returned on both branches and the
   * byte swap of the second branch kept to 16 bits, so that every field
   * decodes to a valid `uint16_t` length: the 16-bit `v << 8` keeps only
   * the low byte of `v`, moved up.
   */
  function Decode(field: seq<byte>, bigEndian: bool): (n: uint16)
    requires |field| == 2
    ensures bigEndian ==> n == field[0] + 0x100 * (field[1] as int)
    ensures !bigEndian ==> n == 0x100 * (field[0] as int) + field[1]
  {
    var v := NativeLoad(field);
    ByteSplit(field[1], field[0]);
    if bigEndian then v else 0x100 * (v % 0x100) + v / 0x100
  }

  /**
   * `_GetPayloadSize` as written (with the missing `return result` added):
   * in `((*_payloadSize) << 8) | ((*_payloadSize) >> 8)` the `uint16_t`
   * operand is promoted to `int`, so the left shift keeps bits 16..23 and
   * the result is a 24-bit value. The two shifted halves never share a bit,
   * so the `|` is computed as a sum.
   */
  function DecodeAsWritten(field: seq<byte>, bigEndian: bool): (n: uint32)
    requires |field| == 2
    ensures n < 0x100_0000
    ensures bigEndian ==> n == Decode(field, true)
    ensures !bigEndian ==> n == Decode(field, false) + 0x1_0000 * (field[1] as int)
  {
    var v := NativeLoad(field);
    if bigEndian then v else v * 0x100 + v / 0x100
  }

  /** Length-field round trip on both branches: decoding what was written
      gives back the value, truncated to the 16 bits the field holds. */
  lemma {:induction false} EncodeThenDecode(n: uint32, bigEndian: bool)
    ensures Decode(Encode(n, bigEndian), bigEndian) == n % 0x1_0000
  {
    var field := Encode(n, bigEndian);
    if !bigEndian {
      assert 0x100 * ((n / 0x100) % 0x100) + n % 0x100 == n % 0x1_0000 by {
        DivModSplit(n);
      }
    }
  }

  /** The other direction: a field is determined by the length it decodes to. */
  lemma {:induction false} DecodeThenEncode(field: seq<byte>, bigEndian: bool)
    requires |field| == 2
    ensures Encode(Decode(field, bigEndian), bigEndian) == field
  {
    var n := Decode(field, bigEndian);
    var back := Encode(n, bigEndian);
    if bigEndian {
      ByteSplit(field[1], field[0]);
      ByteSplit(back[1], back[0]);
      assert NativeLoad(back) == NativeLoad(field);
    } else {
      ByteSplit(field[0], field[1]);
    }
    assert back[0] == field[0] && back[1] == field[1];
  }

  /** Writing 300 in each byte order, on the little-endian host of this model. */
  lemma Encode300()
    ensures Encode(300, false) == [0x01, 0x2C] && Decode([0x01, 0x2C], false) == 300
    ensures Encode(300, true) == [0x2C, 0x01] && Decode([0x2C, 0x01], true) == 300
  {
  }

  /** The as-written decoder round-trips on the `_bigEndian` branch only;
      on the other branch it is off by 65536 times the low byte of the length. */
  lemma {:induction false} DecodeAsWrittenAfterEncode(n: uint16, bigEndian: bool)
    ensures bigEndian ==> DecodeAsWritten(Encode(n, bigEndian), bigEndian) == n
    ensures !bigEndian ==> DecodeAsWritten(Encode(n, bigEndian), bigEndian) == n + 0x1_0000 * (n % 0x100)
    ensures DecodeAsWritten(Encode(n, bigEndian), bigEndian) == n <==> bigEndian || n % 0x100 == 0
  {
    EncodeThenDecode(n, bigEndian);
  }

  /** The smallest length the as-written decoder gets wrong: 1 is stored as
      [0x00, 0x01] and read back as 65537. */
  lemma DecodeAsWrittenCounterexample()
    ensures Encode(1, false) == [0x00, 0x01]
    ensures DecodeAsWritten(Encode(1, false), false) == 0x1_0001
  {
  }

  /** A length that fits the field is not changed by the 16-bit truncation. */
  lemma FitsField(n: int)
    requires 0 <= n < 0x1_0000
    ensures n % 0x1_0000 == n
  {
  }

  lemma ByteSplit(hi: byte, lo: byte)
    ensures (0x100 * (hi as int) + lo) / 0x100 == hi && (0x100 * (hi as int) + lo) % 0x100 == lo
  {
  }

  lemma DivModSplit(n: uint32)
    ensures 0x100 * ((n / 0x100) % 0x100) + n % 0x100 == n % 0x1_0000
  {
    var q := n / 0x1_0000;
    var r := n % 0x1_0000;
    assert n == 0x1_0000 * q + r;
    assert n / 0x100 == 0x100 * q + r / 0x100;
    assert n % 0x100 == r % 0x100;
  }
}
