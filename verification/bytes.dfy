/** Unsigned bytes and 32-bit words, and the little-endian order of their bytes. */
module Bytes {

  const WORD := 0x1_0000_0000

  type Byte = n: int | 0 <= n < 256
  type uint32 = n: int | 0 <= n < WORD

  /** A byte of which single bits matter. */
  type Octet = bv8

  function EncodeWord(w: uint32): (bytes: seq<Byte>)
    ensures |bytes| == 4
  {
    [w % 256, w / 0x100 % 256, w / 0x1_0000 % 256, w / 0x100_0000 % 256]
  }

  function DecodeWord(b: seq<Byte>): uint32
    requires |b| == 4
  {
    b[0] as int + 0x100 * b[1] as int + 0x1_0000 * b[2] as int + 0x100_0000 * b[3] as int
  }

  lemma WordRoundTrip(w: uint32)
    ensures DecodeWord(EncodeWord(w)) == w
  {
    ShiftTwice(w);
    var w1 := w / 0x100;
    var w2 := w1 / 0x100;
    assert w == w % 256 + 0x100 * w1 && w1 == w1 % 256 + 0x100 * w2 && w2 == w2 % 256 + 0x100 * (w2 / 0x100);
  }

  lemma BytesRoundTrip(b: seq<Byte>)
    requires |b| == 4
    ensures EncodeWord(DecodeWord(b)) == b
  {
    var upper := b[2] as int + 0x100 * b[3] as int;
    ByteSplits(b[0], b[1] as int + 0x100 * upper);
    ByteSplits(b[1], upper);
    ByteSplits(b[2], b[3]);
    ShiftTwice(DecodeWord(b));
  }

  lemma ByteSplits(low: Byte, high: nat)
    ensures (low + 0x100 * high) % 256 == low && (low + 0x100 * high) / 0x100 == high
  {
  }

  lemma ShiftTwice(w: nat)
    ensures w / 0x1_0000 == w / 0x100 / 0x100 && w / 0x100_0000 == w / 0x100 / 0x100 / 0x100
  {
  }
}
