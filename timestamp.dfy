/**
 * The two 4-byte timestamp encodings of the a_bogus signer: `_put_int64`, a
 * plain big-endian truncation to 32 bits, and `_put_ts3`, which spreads the
 * low 16 bits over four bytes through the masks 0xAA and 0x55 and sets one
 * marker bit in every byte.
 *
 * A millisecond clock reading is kept as its low 64 bits (`Millis`); both
 * encoders look at no more than the low 32 bits, so nothing observable is lost.
 */
module Timestamp {
  import opened Bytes

  /** The low 64 bits of a Python integer clock reading. */
  type Millis = bv64

  /** `n` reduced to its low 64 bits, which is what Python's `&` and `>>` see of them. */
  function ToMillis(n: int): (m: Millis)
  {
    (n % 0x1_0000_0000_0000_0000) as Millis
  }

  /** `_put_int64`: the bytes `(v >> 24) & 0xFF`, `(v >> 16) & 0xFF`, `(v >> 8) & 0xFF`, `v & 0xFF`. */
  function PutInt64(v: Millis): (r: seq<Byte>)
    ensures |r| == 4
  {
    [((v >> 24) & 0xFF) as Byte, ((v >> 16) & 0xFF) as Byte, ((v >> 8) & 0xFF) as Byte, (v & 0xFF) as Byte]
  }

  /** The unsigned big-endian value of four bytes. */
  function BigEndian32(r: seq<Byte>): (v: Millis)
    requires |r| == 4
    ensures v <= 0xFFFF_FFFF
  {
    ((r[0] as Millis) << 24) | ((r[1] as Millis) << 16) | ((r[2] as Millis) << 8) | (r[3] as Millis)
  }

  /** Read back big-endian, the four bytes are the value modulo 2^32: the higher bits are dropped. */
  lemma PutInt64Value(v: Millis)
    ensures BigEndian32(PutInt64(v)) == v & 0xFFFF_FFFF
  {
  }

  /** Encoding inverts reading four bytes big-endian, so no two 32-bit values share an encoding. */
  lemma PutInt64OfBigEndian(r: seq<Byte>)
    requires |r| == 4
    ensures PutInt64(BigEndian32(r)) == r
  {
  }

  /** Only the value modulo 2^32 reaches the output bytes. */
  lemma PutInt64Low32(v: Millis)
    ensures PutInt64(v) == PutInt64(v & 0xFFFF_FFFF)
  {
  }

  /**
   * `_put_ts3`: with `lo = ts & 255` and `hi = (ts >> 8) & 255`, the bytes
   * `(lo & 0xAA) | 1`, `(lo & 0x55) | 2`, `(hi & 0xAA) | 64`, `(hi & 0x55) | 2`.
   */
  function PutTs3(ts: Millis): (r: seq<Byte>)
    ensures |r| == 4
  {
    var lo, hi := (ts & 0xFF) as Byte, ((ts >> 8) & 0xFF) as Byte;
    [(lo & 0xAA) | 1, (lo & 0x55) | 2, (hi & 0xAA) | 64, (hi & 0x55) | 2]
  }

  /** Each byte of `_put_ts3` carries its marker bit: bit 0, bit 1, bit 6 and bit 1. */
  lemma PutTs3Markers(ts: Millis)
    ensures PutTs3(ts)[0] & 1 == 1
    ensures PutTs3(ts)[1] & 2 == 2
    ensures PutTs3(ts)[2] & 64 == 64
    ensures PutTs3(ts)[3] & 2 == 2
  {
  }

  /** The masks lose nothing: recombining the halves gives `ts & 0xFF` and `(ts >> 8) & 0xFF`. */
  lemma PutTs3Recover(ts: Millis)
    ensures (PutTs3(ts)[0] & 0xAA) | (PutTs3(ts)[1] & 0x55) == (ts & 0xFF) as Byte
    ensures (PutTs3(ts)[2] & 0xAA) | (PutTs3(ts)[3] & 0x55) == ((ts >> 8) & 0xFF) as Byte
  {
  }

  /** Reads the 16-bit timestamp back from a `_put_ts3` prefix. */
  function ReadTs3(r: seq<Byte>): (t: Millis)
    requires |r| == 4
    ensures t <= 0xFFFF
  {
    ((((r[2] & 0xAA) | (r[3] & 0x55)) as Millis) << 8) | (((r[0] & 0xAA) | (r[1] & 0x55)) as Millis)
  }

  /** `ReadTs3` inverts `_put_ts3` on the low 16 bits of the timestamp. */
  lemma PutTs3RoundTrip(ts: Millis)
    ensures ReadTs3(PutTs3(ts)) == ts & 0xFFFF
  {
  }

  /** The output depends only on `ts mod 65536`. */
  lemma PutTs3Low16(ts: Millis)
    ensures PutTs3(ts) == PutTs3(ts & 0xFFFF)
  {
  }

  /** Two timestamps give the same `_put_ts3` bytes exactly when they agree modulo 65536. */
  lemma PutTs3Injective(a: Millis, b: Millis)
    ensures PutTs3(a) == PutTs3(b) <==> a & 0xFFFF == b & 0xFFFF
  {
    if PutTs3(a) == PutTs3(b) {
      calc {
        a & 0xFFFF;
        { PutTs3RoundTrip(a); }
        ReadTs3(PutTs3(a));
        ReadTs3(PutTs3(b));
        { PutTs3RoundTrip(b); }
        b & 0xFFFF;
      }
    }
    if a & 0xFFFF == b & 0xFFFF {
      PutTs3Low16(a);
      PutTs3Low16(b);
    }
  }
}
