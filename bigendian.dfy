/** Fixed-width integers and the big-endian (network order) byte layout that
    QDataStream uses once its byte order is set to BigEndian. */
module BigEndian {

  type uint8 = x: int | 0 <= x < 0x100
  type uint16 = x: int | 0 <= x < 0x1_0000
  type int32 = x: int | -0x8000_0000 <= x < 0x8000_0000

  /** Two's-complement reinterpretation of a signed 32-bit value as unsigned. */
  function ToUnsigned32(x: int32): (u: nat)
    ensures u < 0x1_0000_0000
    ensures x >= 0 ==> u == x
    ensures x < 0 ==> u == x + 0x1_0000_0000
  {
    if x < 0 then x + 0x1_0000_0000 else x
  }

  /** The two bytes written by `stream << quint16`, most significant first. */
  function EncodeU16(x: uint16): (r: seq<uint8>)
    ensures |r| == 2
    ensures DecodeU16(r) == x
  {
    [x / 0x100, x % 0x100]
  }

  /** The value read by `stream >> quint16` from two bytes. */
  function DecodeU16(b: seq<uint8>): (x: uint16)
    requires |b| == 2
    ensures x / 0x100 == b[0] && x % 0x100 == b[1]
  {
    (b[0] as int) * 0x100 + (b[1] as int)
  }

  /** The four bytes written by `stream << qint32`: the two's-complement
      pattern, most significant byte first. */
  function EncodeI32(x: int32): (r: seq<uint8>)
    ensures |r| == 4
    ensures DecodeI32(r) == x
  {
    var u := ToUnsigned32(x);
    EncodeU16(u / 0x1_0000) + EncodeU16(u % 0x1_0000)
  }

  /** The value read by `stream >> qint32` from four bytes. */
  function DecodeI32(b: seq<uint8>): (x: int32)
    requires |b| == 4
    ensures ToUnsigned32(x) == DecodeU16(b[0..2]) * 0x1_0000 + DecodeU16(b[2..4])
  {
    var u := DecodeU16(b[0..2]) * 0x1_0000 + DecodeU16(b[2..4]);
    if u >= 0x8000_0000 then u - 0x1_0000_0000 else u
  }

  /** Every two bytes are the encoding of the value they decode to. */
  lemma EncodeDecodeU16(b: seq<uint8>)
    requires |b| == 2
    ensures EncodeU16(DecodeU16(b)) == b
  {
  }

  /** Every four bytes are the encoding of the value they decode to, so the
      32-bit encoding is a bijection between int32 and four-byte strings. */
  lemma EncodeDecodeI32(b: seq<uint8>)
    requires |b| == 4
    ensures EncodeI32(DecodeI32(b)) == b
  {
    var x := DecodeI32(b);
    var u := ToUnsigned32(x);
    assert u / 0x1_0000 == DecodeU16(b[0..2]);
    assert u % 0x1_0000 == DecodeU16(b[2..4]);
    EncodeDecodeU16(b[0..2]);
    EncodeDecodeU16(b[2..4]);
    assert b == b[0..2] + b[2..4];
  }

  /** The concatenated big-endian encodings of a list of int32 values, as a
      sequence of `stream << qint32` writes produces them. */
  function EncodeInts(xs: seq<int32>): (r: seq<uint8>)
    ensures |r| == 4 * |xs|
  {
    if xs == [] then [] else EncodeI32(xs[0]) + EncodeInts(xs[1..])
  }

  /** The k-th four-byte group of EncodeInts(xs) decodes to xs[k]. */
  lemma {:induction false} EncodeIntsAt(xs: seq<int32>, k: nat)
    requires k < |xs|
    ensures EncodeInts(xs)[4 * k .. 4 * k + 4] == EncodeI32(xs[k])
    ensures DecodeI32(EncodeInts(xs)[4 * k .. 4 * k + 4]) == xs[k]
  {
    var e := EncodeInts(xs);
    assert e == EncodeI32(xs[0]) + EncodeInts(xs[1..]);
    if k > 0 {
      EncodeIntsAt(xs[1..], k - 1);
      assert e[4 * k .. 4 * k + 4] == EncodeInts(xs[1..])[4 * (k - 1) .. 4 * (k - 1) + 4];
    }
  }
}
