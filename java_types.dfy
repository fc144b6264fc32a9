/**
 * The fixed-width Java primitives the store works with (byte, int, long), their
 * narrowing conversions, and the big-endian layout that ByteBuffer.putLong and
 * ByteBuffer.getLong use for a long.
 */
module JavaTypes {

  /** A Java `byte`: signed, two's complement. */
  type Byte = b: int | -128 <= b < 128

  /** A Java `int`. */
  type Int32 = x: int | -0x8000_0000 <= x < 0x8000_0000

  /** A Java `long`. */
  type Int64 = x: int | -0x8000_0000_0000_0000 <= x < 0x8000_0000_0000_0000

  type Bytes = seq<Byte>

  /** `Byte.MIN_VALUE` */
  const BYTE_MIN: int := -128

  /** `Integer.MAX_VALUE` */
  const INT_MAX: int := 0x7fff_ffff

  /** The runtime exceptions and checked failures the modelled code can raise. */
  datatype Fault =
    | BufferUnderflow     // java.nio.BufferUnderflowException
    | NegativeArraySize   // java.lang.NegativeArraySizeException
    | NullPointer         // java.lang.NullPointerException
    | IllegalState        // java.lang.IllegalStateException
    | IllegalArgument     // java.lang.IllegalArgumentException (and NumberFormatException)
    | NoSuchElement       // java.util.NoSuchElementException (NoSuchElementLite)
    | NotPresent          // the IOException "value is not present"
    | PeerUnreachable     // HttpException, PoolException or InterruptedException from a peer call
    | PeerIO              // an IOException from a peer call, such as a SocketTimeoutException

  /** The faults that are `java.io.IOException`s. */
  predicate IsIOException(f: Fault) {
    f == NotPresent || f == PeerIO
  }

  /** The narrowing conversion `(byte) x`: keeps the low eight bits. */
  function ToByte(x: int): (b: Byte)
    ensures (x - b) % 256 == 0
  {
    (x + 128) % 256 - 128
  }

  /** The value of a byte read as unsigned, as a bytewise comparator reads it. */
  function Unsigned(b: Byte): (u: nat)
    ensures u < 256 && (u - b) % 256 == 0
  {
    if b < 0 then b + 256 else b
  }

  lemma ToByteOfUnsigned(b: Byte)
    ensures ToByte(Unsigned(b)) == b
  {
  }

  lemma UnsignedOfToByte(u: nat)
    requires u < 256
    ensures Unsigned(ToByte(u)) == u
  {
  }

  function Pow256(n: nat): (p: nat)
    ensures p >= 1
  {
    if n == 0 then 1 else 256 * Pow256(n - 1)
  }

  lemma Pow256Eight()
    ensures Pow256(8) == 0x1_0000_0000_0000_0000
  {
    assert Pow256(1) == 0x100;
    assert Pow256(2) == 0x1_0000;
    assert Pow256(3) == 0x100_0000;
    assert Pow256(4) == 0x1_0000_0000;
    assert Pow256(5) == 0x100_0000_0000;
    assert Pow256(6) == 0x1_0000_0000_0000;
    assert Pow256(7) == 0x100_0000_0000_0000;
  }

  /** The n low-order bytes of u, most significant first, each stored as a signed byte. */
  function BigEndian(u: nat, n: nat): (s: Bytes)
    ensures |s| == n
  {
    if n == 0 then [] else BigEndian(u / 256, n - 1) + [ToByte(u % 256)]
  }

  /** The unsigned number a big-endian byte sequence denotes. */
  function FromBigEndian(s: Bytes): (u: nat)
    ensures u < Pow256(|s|)
  {
    if s == [] then 0 else FromBigEndian(s[..|s| - 1]) * 256 + Unsigned(s[|s| - 1])
  }

  lemma {:induction false} FromBigEndianOfBigEndian(u: nat, n: nat)
    requires u < Pow256(n)
    ensures FromBigEndian(BigEndian(u, n)) == u
  {
    if n > 0 {
      var s := BigEndian(u, n);
      assert s[..n - 1] == BigEndian(u / 256, n - 1);
      FromBigEndianOfBigEndian(u / 256, n - 1);
      UnsignedOfToByte(u % 256);
    }
  }

  lemma {:induction false} BigEndianOfFromBigEndian(s: Bytes)
    ensures BigEndian(FromBigEndian(s), |s|) == s
  {
    if s != [] {
      var init, last := s[..|s| - 1], s[|s| - 1];
      var u := FromBigEndian(s);
      assert u / 256 == FromBigEndian(init) && u % 256 == Unsigned(last);
      BigEndianOfFromBigEndian(init);
      ToByteOfUnsigned(last);
      assert s == init + [last];
    }
  }

  /** `ByteBuffer.putLong`: eight bytes, big-endian, two's complement. */
  function PutLong(t: Int64): (s: Bytes)
    ensures |s| == 8
  {
    BigEndian(if t < 0 then t + 0x1_0000_0000_0000_0000 else t, 8)
  }

  /** `ByteBuffer.getLong` on exactly eight bytes. */
  function GetLong(s: Bytes): Int64
    requires |s| == 8
  {
    Pow256Eight();
    var u := FromBigEndian(s);
    if u >= 0x8000_0000_0000_0000 then u - 0x1_0000_0000_0000_0000 else u
  }

  lemma GetLongOfPutLong(t: Int64)
    ensures GetLong(PutLong(t)) == t
  {
    Pow256Eight();
    FromBigEndianOfBigEndian(if t < 0 then t + 0x1_0000_0000_0000_0000 else t, 8);
  }

  lemma PutLongOfGetLong(s: Bytes)
    requires |s| == 8
    ensures PutLong(GetLong(s)) == s
  {
    Pow256Eight();
    BigEndianOfFromBigEndian(s);
  }

  /** A positive multiple of n is at least n. */
  lemma MulAtLeast(k: int, n: int)
    requires k >= 1 && n > 0
    ensures k * n >= n
  {
    var m := k - 1;
    assert k * n == m * n + n;
    assert m * n >= 0;
  }

  /** Euclidean division is unique: a quotient and remainder in range are `/` and `%`. */
  lemma DivModUnique(a: int, n: int, q: int, r: int)
    requires n > 0 && a == q * n + r && 0 <= r < n
    ensures a % n == r && a / n == q
  {
    var q0, r0 := a / n, a % n;
    assert a == q0 * n + r0;
    assert (q - q0) * n == r0 - r;
    if q - q0 >= 1 {
      MulAtLeast(q - q0, n);
    } else if q0 - q >= 1 {
      MulAtLeast(q0 - q, n);
    }
  }
}
