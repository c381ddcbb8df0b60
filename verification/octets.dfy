/**
 * Fixed-width unsigned integers as used by the packet code, and the one
 * operation every store into the packet buffer is an instance of: overwrite
 * a run of bytes at an offset and leave the rest alone (`memcpy`, a byte
 * store, a native 16-bit store).
 */
module Octets {

  type byte = x: int | 0 <= x < 0x100
  type uint16 = x: int | 0 <= x < 0x1_0000
  type uint32 = x: int | 0 <= x < 0x1_0000_0000
  type int32 = x: int | -0x8000_0000 <= x < 0x8000_0000

  /** `buffer` with `bytes` written over it starting at offset `at`. */
  function Splice(buffer: seq<byte>, at: nat, bytes: seq<byte>): (r: seq<byte>)
    requires at + |bytes| <= |buffer|
    ensures |r| == |buffer|
  {
    buffer[..at] + bytes + buffer[at + |bytes|..]
  }

  /** Byte by byte: the written run holds `bytes`, every other offset keeps
      its old value. */
  lemma SpliceAt(buffer: seq<byte>, at: nat, bytes: seq<byte>)
    requires at + |bytes| <= |buffer|
    ensures forall i :: 0 <= i < |buffer| ==>
              Splice(buffer, at, bytes)[i] == if at <= i < at + |bytes| then bytes[i - at] else buffer[i]
  {
  }

  /** Two writes that follow each other are one write of the concatenation. */
  lemma SpliceAdjacent(buffer: seq<byte>, at: nat, x: seq<byte>, y: seq<byte>)
    requires at + |x| + |y| <= |buffer|
    ensures Splice(Splice(buffer, at, x), at + |x|, y) == Splice(buffer, at, x + y)
  {
    var lhs, rhs := Splice(Splice(buffer, at, x), at + |x|, y), Splice(buffer, at, x + y);
    SpliceAt(buffer, at, x);
    SpliceAt(Splice(buffer, at, x), at + |x|, y);
    SpliceAt(buffer, at, x + y);
    forall i | 0 <= i < |buffer| ensures lhs[i] == rhs[i] {
      if at <= i < at + |x| {
        assert (x + y)[i - at] == x[i - at];
      } else if at + |x| <= i < at + |x| + |y| {
        assert (x + y)[i - at] == y[i - at - |x|];
      }
    }
  }

  /** A slice inside the written run holds the written bytes. */
  lemma SpliceSliceInside(buffer: seq<byte>, at: nat, bytes: seq<byte>, lo: nat, hi: nat)
    requires at + |bytes| <= |buffer| && at <= lo <= hi <= at + |bytes|
    ensures Splice(buffer, at, bytes)[lo..hi] == bytes[lo - at..hi - at]
  {
    SpliceAt(buffer, at, bytes);
  }

  /** A slice outside the written run keeps the old bytes. */
  lemma SpliceSliceOutside(buffer: seq<byte>, at: nat, bytes: seq<byte>, lo: nat, hi: nat)
    requires at + |bytes| <= |buffer| && lo <= hi <= |buffer|
    requires hi <= at || at + |bytes| <= lo
    ensures Splice(buffer, at, bytes)[lo..hi] == buffer[lo..hi]
  {
    SpliceAt(buffer, at, bytes);
  }

  /** Writing `input[start..start + lo]` at offset 0 and then the next
      `hi - lo` input bytes right after it is one write of
      `input[start..start + hi]`. */
  lemma SpliceExtend(buffer: seq<byte>, input: seq<byte>, start: nat, lo: nat, hi: nat)
    requires lo <= hi <= |buffer| && start + hi <= |input|
    ensures Splice(Splice(buffer, 0, input[start..start + lo]), lo, input[start + lo..start + hi])
            == Splice(buffer, 0, input[start..start + hi])
  {
    SpliceAdjacent(buffer, 0, input[start..start + lo], input[start + lo..start + hi]);
    assert input[start..start + lo] + input[start + lo..start + hi] == input[start..start + hi];
  }

  /** Three adjacent runs of `input` written one after the other leave what
      one write of the whole run leaves. */
  lemma SpliceExtendTwice(buffer: seq<byte>, input: seq<byte>, start: nat, a: nat, b: nat, c: nat)
    requires a <= b <= c <= |buffer| && start + c <= |input|
    ensures Splice(Splice(Splice(buffer, 0, input[start..start + a]), a, input[start + a..start + b]),
                   b, input[start + b..start + c])
            == Splice(buffer, 0, input[start..start + c])
  {
    assert Splice(Splice(buffer, 0, input[start..start + a]), a, input[start + a..start + b])
           == Splice(buffer, 0, input[start..start + b]) by {
      SpliceExtend(buffer, input, start, a, b);
    }
    SpliceExtend(buffer, input, start, b, c);
  }

  /** After `input[start..start + k]` was written at offset 0, a slice of
      the buffer within the first `k` bytes is the matching input slice. */
  lemma SplicePrefixSlice(buffer: seq<byte>, input: seq<byte>, start: nat, k: nat, lo: nat, hi: nat)
    requires k <= |buffer| && start + k <= |input| && lo <= hi <= k
    ensures Splice(buffer, 0, input[start..start + k])[lo..hi] == input[start + lo..start + hi]
  {
    SpliceSliceInside(buffer, 0, input[start..start + k], lo, hi);
    SliceOfSlice(input, start, start + k, lo, hi);
  }

  /** A slice of a slice is a slice of the original. */
  lemma SliceOfSlice(s: seq<byte>, a: nat, b: nat, c: nat, d: nat)
    requires a <= b <= |s| && c <= d <= b - a
    ensures s[a..b][c..d] == s[a + c..a + d]
  {
    forall i | 0 <= i < d - c ensures s[a..b][c..d][i] == s[a + c..a + d][i] {
      assert s[a..b][c..d][i] == s[a..b][c + i] == s[a + c + i];
    }
  }
}
