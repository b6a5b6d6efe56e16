/** Fixed-width unsigned integers and the two byte orders of a TIFF stream.
    The decoders follow Go's `binary.ByteOrder`: `Uint16` reads the first two
    bytes of its argument and `Uint32` the first four; extra bytes are ignored. */
module ByteOrders {

  type byte = x: int | 0 <= x < 0x100
  type uint16 = x: int | 0 <= x < 0x1_0000
  type uint32 = x: int | 0 <= x < 0x1_0000_0000
  type int64 = x: int | -0x8000_0000_0000_0000 <= x < 0x8000_0000_0000_0000

  const TwoTo32: int := 0x1_0000_0000
  const TwoTo64: int := 0x1_0000_0000_0000_0000

  /** Go's two's-complement truncation of a mathematical integer to uint32. */
  function WrapUint32(x: nat): (r: uint32)
    ensures x < TwoTo32 ==> r == x
    ensures x >= TwoTo32 ==> r < x
    ensures (x - r) % TwoTo32 == 0
  {
    x % TwoTo32
  }

  /** Go's two's-complement truncation of a mathematical integer to int64. */
  function WrapInt64(x: int): (r: int64)
    ensures -TwoTo64 / 2 <= x < TwoTo64 / 2 ==> r == x
    ensures (x - r) % TwoTo64 == 0
  {
    (x + TwoTo64 / 2) % TwoTo64 - TwoTo64 / 2
  }

  /** The byte order of one decode session (the TIFF header's "II" or "MM"). */
  datatype ByteOrder = BigEndian | LittleEndian {
    function Flip(): ByteOrder {
      if BigEndian? then LittleEndian else BigEndian
    }
  }

  /** The value of four bytes, most significant first. */
  function Be32(a: byte, b: byte, c: byte, d: byte): (r: uint32)
  {
    ((a as int * 0x100 + b) * 0x100 + c) * 0x100 + d
  }

  function Uint16(order: ByteOrder, b: seq<byte>): (r: uint16)
    requires |b| >= 2
  {
    match order
    case BigEndian => b[0] as int * 0x100 + b[1]
    case LittleEndian => b[1] as int * 0x100 + b[0]
  }

  function Uint32(order: ByteOrder, b: seq<byte>): (r: uint32)
    requires |b| >= 4
  {
    match order
    case BigEndian => Be32(b[0], b[1], b[2], b[3])
    case LittleEndian => Be32(b[3], b[2], b[1], b[0])
  }

  /** The encoder partner of `Uint16` (Go's `PutUint16`). */
  function PutUint16(order: ByteOrder, v: uint16): (r: seq<byte>)
    ensures |r| == 2
  {
    match order
    case BigEndian => [v / 0x100, v % 0x100]
    case LittleEndian => [v % 0x100, v / 0x100]
  }

  /** The encoder partner of `Uint32` (Go's `PutUint32`). */
  function PutUint32(order: ByteOrder, v: uint32): (r: seq<byte>)
    ensures |r| == 4
  {
    var be := [v / 0x100 / 0x100 / 0x100, v / 0x100 / 0x100 % 0x100, v / 0x100 % 0x100, v % 0x100];
    match order
    case BigEndian => be
    case LittleEndian => [be[3], be[2], be[1], be[0]]
  }

  predicate IsPalindrome(s: seq<byte>) {
    forall i :: 0 <= i < |s| ==> s[i] == s[|s| - 1 - i]
  }

  lemma Uint16RoundTrip(order: ByteOrder, v: uint16)
    ensures Uint16(order, PutUint16(order, v)) == v
  {
  }

  lemma Uint16Canonical(order: ByteOrder, b: seq<byte>)
    requires |b| >= 2
    ensures PutUint16(order, Uint16(order, b)) == b[..2]
  {
  }

  /** Euclidean division by 256 is determined by quotient and remainder. */
  lemma DivMod256(x: int, q: int, r: int)
    requires 0 <= r < 0x100 && x == q * 0x100 + r
    ensures x / 0x100 == q && x % 0x100 == r
  {
  }

  lemma Be32Split(v: uint32)
    ensures Be32(v / 0x100 / 0x100 / 0x100, v / 0x100 / 0x100 % 0x100, v / 0x100 % 0x100, v % 0x100) == v
  {
    var q1 := v / 0x100;
    var q2 := q1 / 0x100;
    assert v == q1 * 0x100 + v % 0x100;
    assert q1 == q2 * 0x100 + q1 % 0x100;
    assert q2 == q2 / 0x100 * 0x100 + q2 % 0x100;
  }

  lemma Be32Digits(a: byte, b: byte, c: byte, d: byte)
    ensures Be32(a, b, c, d) / 0x100 / 0x100 / 0x100 == a
    ensures Be32(a, b, c, d) / 0x100 / 0x100 % 0x100 == b
    ensures Be32(a, b, c, d) / 0x100 % 0x100 == c
    ensures Be32(a, b, c, d) % 0x100 == d
  {
    var ab := a as int * 0x100 + b;
    var abc := ab * 0x100 + c;
    DivMod256(Be32(a, b, c, d), abc, d);
    DivMod256(abc, ab, c);
    DivMod256(ab, a, b);
  }

  lemma Uint32RoundTrip(order: ByteOrder, v: uint32)
    ensures Uint32(order, PutUint32(order, v)) == v
  {
    Be32Split(v);
  }

  lemma Uint32Canonical(order: ByteOrder, b: seq<byte>)
    requires |b| >= 4
    ensures PutUint32(order, Uint32(order, b)) == b[..4]
  {
    match order
    case BigEndian => Be32Digits(b[0], b[1], b[2], b[3]);
    case LittleEndian => Be32Digits(b[3], b[2], b[1], b[0]);
  }

  /** Decoding a 16-bit value with the other byte order gives it back exactly
      when its two encoded bytes are the same. */
  lemma Uint16FlipIffPalindrome(order: ByteOrder, v: uint16)
    ensures Uint16(order.Flip(), PutUint16(order, v)) == v <==> IsPalindrome(PutUint16(order, v))
  {
    var b := PutUint16(order, v);
    if Uint16(order.Flip(), b) == v {
      Uint16Canonical(order, b);
      Uint16RoundTrip(order, v);
    }
  }

  /** Decoding a 32-bit value with the other byte order gives it back exactly
      when its four encoded bytes read the same in both directions. */
  lemma Uint32FlipIffPalindrome(order: ByteOrder, v: uint32)
    ensures Uint32(order.Flip(), PutUint32(order, v)) == v <==> IsPalindrome(PutUint32(order, v))
  {
    var b := PutUint32(order, v);
    Be32Split(v);
    if Uint32(order.Flip(), b) == v {
      Be32Digits(b[0], b[1], b[2], b[3]);
      Be32Digits(b[3], b[2], b[1], b[0]);
      assert IsPalindrome(b);
    }
  }
}
