/**
 * Machine-level values shared by the sender and the receiver: bytes, the
 * JVM's 32-bit `Int`, an optional value, and the 4-byte big-endian integer
 * that prefixes every frame on the wire.
 */
module Bytes {

  /** One octet of a byte stream. */
  type byte = b: int | 0 <= b < 0x100

  /** The JVM's signed 32-bit `Int` (Kotlin `Int`, Java `int`). */
  type int32 = x: int | -0x8000_0000 <= x < 0x8000_0000

  datatype Option<T> = None | Some(value: T)

  const TwoTo32: int := 0x1_0000_0000

  /**
   * `struct.unpack('>I', b)`: the four bytes read as an unsigned big-endian
   * integer.
   */
  function ReadBigEndian32(b: seq<byte>): (n: nat)
    requires |b| == 4
    ensures n < TwoTo32
  {
    (b[0] as int) * 0x100_0000 + (b[1] as int) * 0x1_0000 + (b[2] as int) * 0x100 + b[3]
  }

  /** The four bytes of an unsigned 32-bit value, most significant first. */
  function BigEndian32(n: nat): (b: seq<byte>)
    requires n < TwoTo32
    ensures |b| == 4
    ensures ReadBigEndian32(b) == n
  {
    var b0, r0 := n / 0x100_0000, n % 0x100_0000;
    var b1, r1 := r0 / 0x1_0000, r0 % 0x1_0000;
    var b2, b3 := r1 / 0x100, r1 % 0x100;
    [b0, b1, b2, b3]
  }

  /**
   * `ByteBuffer.allocate(4).putInt(v).array()`: the two's-complement bytes of
   * a JVM `Int`, most significant first (a `ByteBuffer` is big-endian unless
   * told otherwise).
   */
  function PutInt(v: int32): (b: seq<byte>)
    ensures |b| == 4
    ensures ReadBigEndian32(b) == (if v < 0 then v + TwoTo32 else v)
  {
    BigEndian32(if v < 0 then v + TwoTo32 else v)
  }

  /** Four bytes are determined by the integer they denote. */
  lemma ReadBigEndian32Injective(a: seq<byte>, b: seq<byte>)
    requires |a| == 4 && |b| == 4
    requires ReadBigEndian32(a) == ReadBigEndian32(b)
    ensures a == b
  {
    var n := ReadBigEndian32(a);
    assert a[0] == n / 0x100_0000 == b[0];
    assert (a[1] as int) * 0x1_0000 + (a[2] as int) * 0x100 + a[3] == n % 0x100_0000
        == (b[1] as int) * 0x1_0000 + (b[2] as int) * 0x100 + b[3];
    var m := n % 0x100_0000;
    assert a[1] == m / 0x1_0000 == b[1];
    assert (a[2] as int) * 0x100 + a[3] == m % 0x1_0000 == (b[2] as int) * 0x100 + b[3];
    var k := m % 0x1_0000;
    assert a[2] == k / 0x100 == b[2];
    assert a[3] == k % 0x100 == b[3];
  }

  /** Decoding then encoding four bytes gives them back. */
  lemma BigEndian32OfRead(b: seq<byte>)
    requires |b| == 4
    ensures BigEndian32(ReadBigEndian32(b)) == b
  {
    ReadBigEndian32Injective(BigEndian32(ReadBigEndian32(b)), b);
  }

  /** Regrouping a concatenation, stated once so that proofs can name it. */
  lemma AppendAssociative<T>(a: seq<T>, b: seq<T>, c: seq<T>)
    ensures (a + b) + c == a + (b + c)
  {
  }
}
