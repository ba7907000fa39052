/**
 * Machine integers and their memory images.
 *
 * uHAL copies 32-bit and 16-bit values into byte buffers with `memcpy`, so
 * the bytes that land in a buffer are the host's memory image of the value.
 * The model takes the host to be little-endian (the x86 machines uHAL runs
 * on); `htonl`/`htons` then swap the byte order, so that the image of a
 * converted value is the value in network (big-endian) order.
 */
module Words {

  type byte = x: int | 0 <= x < 0x100
  type uint16 = x: int | 0 <= x < 0x1_0000
  type uint32 = x: int | 0 <= x < 0x1_0000_0000
  type int32 = x: int | -0x8000_0000 <= x < 0x8000_0000

  /** The host memory image of a 32-bit word (least significant byte first). */
  function WordBytes(w: uint32): (r: seq<byte>)
    ensures |r| == 4
  {
    [w % 0x100, (w / 0x100) % 0x100, (w / 0x1_0000) % 0x100, w / 0x100_0000]
  }

  /** The 32-bit word whose host image starts at `s[i]`: `*(uint32_t*)(s + i)`. */
  function WordAt(s: seq<byte>, i: nat): uint32
    requires i + 4 <= |s|
  {
    s[i] as int + 0x100 * s[i + 1] as int + 0x1_0000 * s[i + 2] as int + 0x100_0000 * s[i + 3] as int
  }

  /** The host memory image of a 16-bit value. */
  function HalfBytes(h: uint16): (r: seq<byte>)
    ensures |r| == 2
  {
    [h % 0x100, h / 0x100]
  }

  /** The 16-bit value whose host image starts at `s[i]`: `*(uint16_t*)(s + i)`. */
  function HalfAt(s: seq<byte>, i: nat): uint16
    requires i + 2 <= |s|
  {
    s[i] as int + 0x100 * s[i + 1] as int
  }

  /** A 32-bit value in network byte order (most significant byte first). */
  function BigEndian32(x: uint32): (r: seq<byte>)
    ensures |r| == 4
  {
    [x / 0x100_0000, (x / 0x1_0000) % 0x100, (x / 0x100) % 0x100, x % 0x100]
  }

  /** A 16-bit value in network byte order. */
  function BigEndian16(x: uint16): (r: seq<byte>)
    ensures |r| == 2
  {
    [x / 0x100, x % 0x100]
  }

  /** `htonl` on a little-endian host: the word whose image is the network-order bytes. */
  function Htonl(x: uint32): uint32 {
    WordAt(BigEndian32(x), 0)
  }

  /** `htons` on a little-endian host. */
  function Htons(x: uint16): uint16 {
    HalfAt(BigEndian16(x), 0)
  }

  /** `static_cast<uint32_t>` of a signed word: two's complement. */
  function ToUnsigned(x: int32): (r: uint32)
    ensures x >= 0 ==> r == x
    ensures x < 0 ==> r == x + 0x1_0000_0000
  {
    if x < 0 then x + 0x1_0000_0000 else x
  }

  /** The low 32 bits, as unsigned arithmetic on `uint32_t` keeps them. */
  function Wrap32(x: int): (r: uint32)
    ensures 0 <= x < 0x1_0000_0000 ==> r == x
  {
    x % 0x1_0000_0000
  }

  /** Reading back a written word gives the word. */
  lemma WordRoundTrip(w: uint32)
    ensures WordAt(WordBytes(w), 0) == w
  {
    var q1 := w / 0x100;
    var q2 := q1 / 0x100;
    var q3 := q2 / 0x100;
    DivModOf(w, 0x1_0000, q2, w % 0x100 + 0x100 * (q1 % 0x100));
    DivModOf(w, 0x100_0000, q3, w % 0x100 + 0x100 * (q1 % 0x100) + 0x1_0000 * (q2 % 0x100));
    var b := WordBytes(w);
    assert b[0] == w % 0x100 && b[1] == q1 % 0x100 && b[2] == q2 % 0x100 && b[3] == q3;
  }

  /** Quotient and remainder are determined by any decomposition with the remainder in range. */
  lemma DivModOf(x: int, d: int, q: int, r: int)
    requires 0 < d && 0 <= r < d && x == d * q + r
    ensures x / d == q && x % d == r
  {
    var q', r' := x / d, x % d;
    if q' < q {
      MulMonotone(d, q' + 1, q);
    } else if q < q' {
      MulMonotone(d, q + 1, q');
    }
  }

  lemma MulMonotone(d: nat, a: int, b: int)
    requires a <= b
    ensures d * a <= d * b
  {
    assert d * b - d * a == d * (b - a);
  }

  /** Writing back a read word gives the bytes it was read from. */
  lemma WordBytesOfWordAt(s: seq<byte>, i: nat)
    requires i + 4 <= |s|
    ensures WordBytes(WordAt(s, i)) == s[i..i + 4]
  {
    var b0, b1, b2, b3 := s[i] as int, s[i + 1] as int, s[i + 2] as int, s[i + 3] as int;
    var w := WordAt(s, i) as int;
    assert w == b0 + 0x100 * (b1 + 0x100 * (b2 + 0x100 * b3));
    DigitSplit(b0, b1 + 0x100 * (b2 + 0x100 * b3));
    DigitSplit(b1, b2 + 0x100 * b3);
    DigitSplit(b2, b3);
    assert w / 0x1_0000 == (w / 0x100) / 0x100;
    assert w / 0x100_0000 == ((w / 0x100) / 0x100) / 0x100;
  }

  /** Splitting off the lowest base-256 digit. */
  lemma DigitSplit(d: int, q: int)
    requires 0 <= d < 0x100 && 0 <= q
    ensures (d + 0x100 * q) % 0x100 == d && (d + 0x100 * q) / 0x100 == q
  {
  }

  /** Writing back a read 16-bit value gives the bytes it was read from. */
  lemma HalfBytesOfHalfAt(s: seq<byte>, i: nat)
    requires i + 2 <= |s|
    ensures HalfBytes(HalfAt(s, i)) == s[i..i + 2]
  {
    DigitSplit(s[i], s[i + 1]);
  }

  lemma HalfRoundTrip(h: uint16)
    ensures HalfAt(HalfBytes(h), 0) == h
  {
  }

  /** The image of `htonl(x)` is `x` in network byte order. */
  lemma HtonlImage(x: uint32)
    ensures WordBytes(Htonl(x)) == BigEndian32(x)
  {
    WordBytesOfWordAt(BigEndian32(x), 0);
  }

  /** The image of `htons(x)` is `x` in network byte order. */
  lemma HtonsImage(x: uint16)
    ensures HalfBytes(Htons(x)) == BigEndian16(x)
  {
  }

  /** Converting twice restores the value (`ntohl` is `htonl`). */
  lemma HtonlInvolution(x: uint32)
    ensures Htonl(Htonl(x)) == x
  {
    var y := Htonl(x);
    HtonlImage(x);
    var b := WordBytes(y);
    assert BigEndian32(y) == [b[3], b[2], b[1], b[0]];
    assert BigEndian32(y) == WordBytes(x);
    WordRoundTrip(x);
  }
}
