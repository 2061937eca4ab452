/**
 * Bytes, 32-bit words and the `bytes::Bytes` buffer read through the
 * `bytes::Buf` trait. An `f32` is modelled by its 32-bit pattern; its
 * IEEE 754 binary32 meaning is left abstract.
 */
module Bytes {

  /** A `u8`. */
  type Byte = x: int | 0 <= x < 256

  /** A 32-bit unsigned word. */
  type Word32 = x: int | 0 <= x < 0x1_0000_0000

  /** An `f32`, known only by its bit pattern. */
  datatype F32 = F32(bits: Word32)

  /** The word whose most significant byte is `b[0]` (network byte order). */
  function BigEndianWord(b: seq<Byte>): (w: Word32)
    requires |b| == 4
  {
    ((b[0] as int * 256 + b[1]) * 256 + b[2]) * 256 + b[3]
  }

  /** The four bytes of `w`, most significant first. */
  function WordBytes(w: Word32): (b: seq<Byte>)
    ensures |b| == 4
    ensures BigEndianWord(b) == w
  {
    var q1 := w / 256;
    var q2 := q1 / 256;
    var q3 := q2 / 256;
    [q3, q2 % 256, q1 % 256, w % 256]
  }

  lemma DivModByte(q: nat, r: Byte)
    ensures (q * 256 + r) / 256 == q && (q * 256 + r) % 256 == r
  {
  }

  /** Splitting a word built from four bytes gives those bytes back. */
  lemma BigEndianWordBytes(b: seq<Byte>)
    requires |b| == 4
    ensures WordBytes(BigEndianWord(b)) == b
    ensures BigEndianWord(b) == b[0] as int * 0x100_0000 + b[1] as int * 0x1_0000 + b[2] as int * 0x100 + b[3]
  {
    DivModByte((b[0] as int * 256 + b[1]) * 256 + b[2], b[3]);
    DivModByte(b[0] as int * 256 + b[1], b[2]);
    DivModByte(b[0], b[1]);
  }

  /** Two byte quadruples give the same word only if they are equal. */
  lemma BigEndianWordInjective(a: seq<Byte>, b: seq<Byte>)
    requires |a| == 4 && |b| == 4
    requires BigEndianWord(a) == BigEndianWord(b)
    ensures a == b
  {
    BigEndianWordBytes(a);
    BigEndianWordBytes(b);
  }

  /**
   * A `Bytes` value being consumed with `Buf::get_*`: `rest` is what has
   * not been read yet; each call takes its bytes from the front.
   */
  class Buf {
    var rest: seq<Byte>

    constructor (bytes: seq<Byte>)
      ensures rest == bytes
    {
      rest := bytes;
    }

    /** `Buf::get_f32`: reads a big-endian `f32`; panics when fewer than four bytes remain. */
    method GetF32() returns (v: F32)
      requires |rest| >= 4
      modifies this
      ensures v.bits == BigEndianWord(old(rest)[..4])
      ensures rest == old(rest)[4..]
    {
      v := F32(BigEndianWord(rest[..4]));
      rest := rest[4..];
    }

    /** `Buf::get_u8`: reads one byte; panics when no byte remains. */
    method GetU8() returns (b: Byte)
      requires |rest| >= 1
      modifies this
      ensures b == old(rest)[0]
      ensures rest == old(rest)[1..]
    {
      b := rest[0];
      rest := rest[1..];
    }
  }
}
