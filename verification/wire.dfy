/**
 Byte-level vocabulary shared by the Modbus layer and the two sensor
 decoders: 16- and 32-bit unsigned quantities, big- and little-endian
 packing, the 16-bit signed reinterpretation, exact fixed-point values and
 the view of a receive buffer after a shorter payload was copied into it.
 */
module Wire {

  /** One octet on the wire, as an unsigned number (LtByte). */
  type Byte = x: int | 0 <= x < 0x100

  type U16 = x: int | 0 <= x < 0x1_0000
  type U32 = x: int | 0 <= x < 0x1_0000_0000

  /** A byte converted to its 8-bit pattern and back is itself. */
  lemma ByteBits(b: Byte)
    ensures (b as bv8) as int == b
  {
    PatternModulo(b);
    ByteModulo(b);
  }

  /** The 8-bit pattern of a number stands for the number modulo 256. */
  lemma PatternModulo(b: Byte)
    ensures (b as bv8) as int == b % 0x100
  {
  }

  lemma ByteModulo(b: Byte)
    ensures b % 0x100 == b
  {
  }

  /** `v >> 8` of an LtU16. */
  function HighByte(v: U16): Byte {
    v / 256
  }

  /** `v & 0xFF` of an LtU16. */
  function LowByte(v: U16): Byte {
    v % 256
  }

  /** The two bytes of `v`, most significant first, as Modbus registers travel. */
  function BigEndian(v: U16): (r: seq<Byte>)
    ensures |r| == 2
  {
    [HighByte(v), LowByte(v)]
  }

  /** `hi*256 + lo`: a register read from two big-endian bytes. */
  function FromBigEndian(hi: Byte, lo: Byte): (v: U16)
    ensures v / 256 == hi && v % 256 == lo
  {
    hi * 256 + lo
  }

  lemma BigEndianRoundTrip(v: U16)
    ensures FromBigEndian(BigEndian(v)[0], BigEndian(v)[1]) == v
  {
  }

  /** `b0 + (b1 << 8)`: a 16-bit field sent least significant byte first. */
  function LittleEndian16(b0: Byte, b1: Byte): (v: U16)
    ensures v % 256 == b0 && v / 256 == b1
  {
    b0 + b1 * 256
  }

  /** `b0 + (b1 << 8) + (b2 << 16) + (b3 << 24)`: a 32-bit field sent least significant byte first. */
  function LittleEndian32(b0: Byte, b1: Byte, b2: Byte, b3: Byte): (v: U32)
    ensures v % 0x1_0000 == LittleEndian16(b0, b1) && v / 0x1_0000 == LittleEndian16(b2, b3)
  {
    var lo, hi := LittleEndian16(b0, b1), LittleEndian16(b2, b3);
    HalvesOfWord(lo, hi);
    lo + hi * 0x1_0000
  }

  lemma HalvesOfWord(lo: U16, hi: U16)
    ensures (lo + hi * 0x1_0000) % 0x1_0000 == lo
    ensures (lo + hi * 0x1_0000) / 0x1_0000 == hi
  {
    var w := lo + hi * 0x1_0000;
    assert w == hi * 0x1_0000 + lo;
  }

  /** The two bytes of `v`, least significant first. */
  function LittleEndianBytes16(v: U16): (r: seq<Byte>)
    ensures |r| == 2
  {
    [LowByte(v), HighByte(v)]
  }

  /** The four bytes of `v`, least significant first. */
  function LittleEndianBytes32(v: U32): (r: seq<Byte>)
    ensures |r| == 4
  {
    LittleEndianBytes16(v % 0x1_0000) + LittleEndianBytes16(v / 0x1_0000)
  }

  /** Two bytes joined low byte first split back into the same two bytes. */
  lemma LittleEndianBytes16Inverse(b0: Byte, b1: Byte)
    ensures LittleEndianBytes16(LittleEndian16(b0, b1)) == [b0, b1]
  {
  }

  /** Four bytes joined low byte first split back into the same four bytes. */
  lemma LittleEndianBytes32Inverse(b0: Byte, b1: Byte, b2: Byte, b3: Byte)
    ensures LittleEndianBytes32(LittleEndian32(b0, b1, b2, b3)) == [b0, b1, b2, b3]
  {
    LittleEndianBytes16Inverse(b0, b1);
    LittleEndianBytes16Inverse(b2, b3);
  }

  lemma LittleEndian16RoundTrip(v: U16)
    ensures LittleEndian16(LittleEndianBytes16(v)[0], LittleEndianBytes16(v)[1]) == v
  {
  }

  lemma LittleEndian32RoundTrip(w: U32)
    ensures var b := LittleEndianBytes32(w); LittleEndian32(b[0], b[1], b[2], b[3]) == w
  {
    LittleEndian16RoundTrip(w % 0x1_0000);
    LittleEndian16RoundTrip(w / 0x1_0000);
  }

  /** `(Lt16)v`: the 16-bit pattern of `v` read as a two's-complement number. */
  function Signed16(v: U16): (s: int)
    ensures -0x8000 <= s < 0x8000
    ensures (s - v) % 0x1_0000 == 0
  {
    if v < 0x8000 then v else v - 0x1_0000
  }

  /** The 16-bit pattern that stores the signed number `s`. */
  function Unsigned16(s: int): (v: U16)
    requires -0x8000 <= s < 0x8000
  {
    if s < 0 then s + 0x1_0000 else s
  }

  lemma SignedRoundTrip(v: U16, s: int)
    requires -0x8000 <= s < 0x8000
    ensures Unsigned16(Signed16(v)) == v
    ensures Signed16(Unsigned16(s)) == s
  {
  }

  /**
   An exact quantity `raw / scale`. The source divides by a float constant
   (`/256.f`, `/1000.f`, ...); the model keeps numerator and divisor.
   */
  datatype Fixed = Fixed(raw: int, scale: nat) {
    function Value(): real
      requires scale > 0
    {
      raw as real / scale as real
    }
  }

  /**
   The contents of a buffer of `|prior|` bytes after `payload` was copied
   to its start: bytes past the payload keep whatever the buffer held before.
   */
  function Overlay(payload: seq<Byte>, prior: seq<Byte>): (r: seq<Byte>)
    requires |payload| <= |prior|
    ensures |r| == |prior|
    ensures forall i :: 0 <= i < |payload| ==> r[i] == payload[i]
    ensures forall i :: |payload| <= i < |prior| ==> r[i] == prior[i]
  {
    payload + prior[|payload|..]
  }

  function Min(a: int, b: int): (m: int)
    ensures m <= a && m <= b && (m == a || m == b)
  {
    if a < b then a else b
  }
}
