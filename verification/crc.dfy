/**
 The Modbus CRC-16 (Modbus.cpp, CRC16), as described in section 6.2.2 of
 the Modbus over Serial Line Specification V1.02: two 256-entry tables
 indexed by the running low byte XOR the next data byte, seed 0xFFFF.

 The frame-level definitions (`Checkword`, `Append`, `Matches`) use the
 bitwise reflected CRC with polynomial 0xA001. The module proves that the
 tables are the byte-at-a-time rendering of that algorithm, so the
 table-driven loop of the source computes the same value on every input,
 and that appending the CRC and checking it are inverse to each other.
 */
module Crc {
  import opened Wire

  /**
   CRC_HI of the source, sixteen entries to a row in the source's order.
   Despite its name, its entry is folded into the LOW byte of the CRC.
   */
  const TableHi: seq<seq<bv8>> := [
    [0x00, 0xC1, 0x81, 0x40, 0x01, 0xC0, 0x80, 0x41, 0x01, 0xC0, 0x80, 0x41, 0x00, 0xC1, 0x81, 0x40],
    [0x01, 0xC0, 0x80, 0x41, 0x00, 0xC1, 0x81, 0x40, 0x00, 0xC1, 0x81, 0x40, 0x01, 0xC0, 0x80, 0x41],
    [0x01, 0xC0, 0x80, 0x41, 0x00, 0xC1, 0x81, 0x40, 0x00, 0xC1, 0x81, 0x40, 0x01, 0xC0, 0x80, 0x41],
    [0x00, 0xC1, 0x81, 0x40, 0x01, 0xC0, 0x80, 0x41, 0x01, 0xC0, 0x80, 0x41, 0x00, 0xC1, 0x81, 0x40],
    [0x01, 0xC0, 0x80, 0x41, 0x00, 0xC1, 0x81, 0x40, 0x00, 0xC1, 0x81, 0x40, 0x01, 0xC0, 0x80, 0x41],
    [0x00, 0xC1, 0x81, 0x40, 0x01, 0xC0, 0x80, 0x41, 0x01, 0xC0, 0x80, 0x41, 0x00, 0xC1, 0x81, 0x40],
    [0x00, 0xC1, 0x81, 0x40, 0x01, 0xC0, 0x80, 0x41, 0x01, 0xC0, 0x80, 0x41, 0x00, 0xC1, 0x81, 0x40],
    [0x01, 0xC0, 0x80, 0x41, 0x00, 0xC1, 0x81, 0x40, 0x00, 0xC1, 0x81, 0x40, 0x01, 0xC0, 0x80, 0x41],
    [0x01, 0xC0, 0x80, 0x41, 0x00, 0xC1, 0x81, 0x40, 0x00, 0xC1, 0x81, 0x40, 0x01, 0xC0, 0x80, 0x41],
    [0x00, 0xC1, 0x81, 0x40, 0x01, 0xC0, 0x80, 0x41, 0x01, 0xC0, 0x80, 0x41, 0x00, 0xC1, 0x81, 0x40],
    [0x00, 0xC1, 0x81, 0x40, 0x01, 0xC0, 0x80, 0x41, 0x01, 0xC0, 0x80, 0x41, 0x00, 0xC1, 0x81, 0x40],
    [0x01, 0xC0, 0x80, 0x41, 0x00, 0xC1, 0x81, 0x40, 0x00, 0xC1, 0x81, 0x40, 0x01, 0xC0, 0x80, 0x41],
    [0x00, 0xC1, 0x81, 0x40, 0x01, 0xC0, 0x80, 0x41, 0x01, 0xC0, 0x80, 0x41, 0x00, 0xC1, 0x81, 0x40],
    [0x01, 0xC0, 0x80, 0x41, 0x00, 0xC1, 0x81, 0x40, 0x00, 0xC1, 0x81, 0x40, 0x01, 0xC0, 0x80, 0x41],
    [0x01, 0xC0, 0x80, 0x41, 0x00, 0xC1, 0x81, 0x40, 0x00, 0xC1, 0x81, 0x40, 0x01, 0xC0, 0x80, 0x41],
    [0x00, 0xC1, 0x81, 0x40, 0x01, 0xC0, 0x80, 0x41, 0x01, 0xC0, 0x80, 0x41, 0x00, 0xC1, 0x81, 0x40]
  ]

  /** CRC_LO of the source: its entry becomes the new HIGH byte of the CRC. */
  const TableLo: seq<seq<bv8>> := [
    [0x00, 0xC0, 0xC1, 0x01, 0xC3, 0x03, 0x02, 0xC2, 0xC6, 0x06, 0x07, 0xC7, 0x05, 0xC5, 0xC4, 0x04],
    [0xCC, 0x0C, 0x0D, 0xCD, 0x0F, 0xCF, 0xCE, 0x0E, 0x0A, 0xCA, 0xCB, 0x0B, 0xC9, 0x09, 0x08, 0xC8],
    [0xD8, 0x18, 0x19, 0xD9, 0x1B, 0xDB, 0xDA, 0x1A, 0x1E, 0xDE, 0xDF, 0x1F, 0xDD, 0x1D, 0x1C, 0xDC],
    [0x14, 0xD4, 0xD5, 0x15, 0xD7, 0x17, 0x16, 0xD6, 0xD2, 0x12, 0x13, 0xD3, 0x11, 0xD1, 0xD0, 0x10],
    [0xF0, 0x30, 0x31, 0xF1, 0x33, 0xF3, 0xF2, 0x32, 0x36, 0xF6, 0xF7, 0x37, 0xF5, 0x35, 0x34, 0xF4],
    [0x3C, 0xFC, 0xFD, 0x3D, 0xFF, 0x3F, 0x3E, 0xFE, 0xFA, 0x3A, 0x3B, 0xFB, 0x39, 0xF9, 0xF8, 0x38],
    [0x28, 0xE8, 0xE9, 0x29, 0xEB, 0x2B, 0x2A, 0xEA, 0xEE, 0x2E, 0x2F, 0xEF, 0x2D, 0xED, 0xEC, 0x2C],
    [0xE4, 0x24, 0x25, 0xE5, 0x27, 0xE7, 0xE6, 0x26, 0x22, 0xE2, 0xE3, 0x23, 0xE1, 0x21, 0x20, 0xE0],
    [0xA0, 0x60, 0x61, 0xA1, 0x63, 0xA3, 0xA2, 0x62, 0x66, 0xA6, 0xA7, 0x67, 0xA5, 0x65, 0x64, 0xA4],
    [0x6C, 0xAC, 0xAD, 0x6D, 0xAF, 0x6F, 0x6E, 0xAE, 0xAA, 0x6A, 0x6B, 0xAB, 0x69, 0xA9, 0xA8, 0x68],
    [0x78, 0xB8, 0xB9, 0x79, 0xBB, 0x7B, 0x7A, 0xBA, 0xBE, 0x7E, 0x7F, 0xBF, 0x7D, 0xBD, 0xBC, 0x7C],
    [0xB4, 0x74, 0x75, 0xB5, 0x77, 0xB7, 0xB6, 0x76, 0x72, 0xB2, 0xB3, 0x73, 0xB1, 0x71, 0x70, 0xB0],
    [0x50, 0x90, 0x91, 0x51, 0x93, 0x53, 0x52, 0x92, 0x96, 0x56, 0x57, 0x97, 0x55, 0x95, 0x94, 0x54],
    [0x9C, 0x5C, 0x5D, 0x9D, 0x5F, 0x9F, 0x9E, 0x5E, 0x5A, 0x9A, 0x9B, 0x5B, 0x99, 0x59, 0x58, 0x98],
    [0x88, 0x48, 0x49, 0x89, 0x4B, 0x8B, 0x8A, 0x4A, 0x4E, 0x8E, 0x8F, 0x4F, 0x8D, 0x4D, 0x4C, 0x8C],
    [0x44, 0x84, 0x85, 0x45, 0x87, 0x47, 0x46, 0x86, 0x82, 0x42, 0x43, 0x83, 0x41, 0x81, 0x80, 0x40]
  ]

  /** `CRC_HI[index]`. */
  function HiEntry(index: bv8): bv8 {
    assert |TableHi| == 16 && |TableHi[(index >> 4) as int]| == 16;
    TableHi[(index >> 4) as int][(index & 0xF) as int]
  }

  /** `CRC_LO[index]`. */
  function LoEntry(index: bv8): bv8 {
    assert |TableLo| == 16 && |TableLo[(index >> 4) as int]| == 16;
    TableLo[(index >> 4) as int][(index & 0xF) as int]
  }

  /** The running CRC as the source keeps it: `lCRCLo` and `lCRCHi`. */
  datatype Crc16 = Crc16(lo: bv8, hi: bv8)

  /** Both bytes start at 0xFF. */
  const Seed := Crc16(0xFF, 0xFF)

  /** A data byte as the 8-bit value the source XORs into the running CRC. */
  function Bits(b: Byte): bv8 {
    b as bv8
  }

  /** One iteration of the source's loop for data byte `b`. */
  function Update(c: Crc16, b: Byte): Crc16 {
    var index := c.lo ^ Bits(b);
    Crc16(c.hi ^ HiEntry(index), LoEntry(index))
  }

  /** The table-driven CRC of `data`, folding `Update` over the bytes from first to last. */
  function Compute(data: seq<Byte>): Crc16
    decreases |data|
  {
    if |data| == 0 then Seed else Update(Compute(data[..|data| - 1]), data[|data| - 1])
  }

  /** Extending the input by one byte adds one `Update`. */
  lemma ComputeStep(data: seq<Byte>, i: nat)
    requires i < |data|
    ensures Compute(data[..i + 1]) == Update(Compute(data[..i]), data[i])
  {
    assert data[..i + 1][..i] == data[..i];
  }

  // Reference definition: the bitwise algorithm the tables pre-compute.

  /**
   One step of the bitwise algorithm: shift right one bit and, when the bit
   shifted out was 1, XOR in the reflected polynomial 0xA001.
   */
  function Step(c: bv16): bv16 {
    (c >> 1) ^ ((c & 1) * 0xA001)
  }

  /** `n` steps of the bitwise algorithm. */
  function Shift(c: bv16, n: nat): bv16
    decreases n
  {
    if n == 0 then c else Step(Shift(c, n - 1))
  }

  /** The eight steps that consume one data byte. */
  function ShiftByte(c: bv16): bv16 {
    Shift(c, 8)
  }

  /** The bitwise CRC-16 of `data`: seed 0xFFFF, each byte XORed into the low byte, then shifted. */
  function Reflected(data: seq<Byte>): bv16
    decreases |data|
  {
    if |data| == 0 then 0xFFFF
    else ShiftByte(Reflected(data[..|data| - 1]) ^ (Bits(data[|data| - 1]) as bv16))
  }

  /** The two bytes of the running CRC as one 16-bit value. */
  function Value(c: Crc16): bv16 {
    ((c.hi as bv16) << 8) | (c.lo as bv16)
  }

  /** A 16-bit value as it goes on the wire: low byte first. */
  function WireBytes(v: bv16): (r: seq<Byte>)
    ensures |r| == 2
  {
    [(v & 0xFF) as int, (v >> 8) as int]
  }

  /** The two check bytes of `data`, low byte first. */
  function Checkword(data: seq<Byte>): (r: seq<Byte>)
    ensures |r| == 2
  {
    WireBytes(Reflected(data))
  }

  /** `data` followed by its CRC, as a frame goes on the wire. */
  function Append(data: seq<Byte>): (r: seq<Byte>)
    ensures |r| == |data| + 2 && r[..|data|] == data && r[|data|..] == Checkword(data)
  {
    data + Checkword(data)
  }

  /** The last two bytes of `frame` are the CRC of the bytes before them. */
  predicate Matches(frame: seq<Byte>)
    requires |frame| >= 2
  {
    frame[|frame| - 2..] == Checkword(frame[..|frame| - 2])
  }

  /** Checking accepts exactly the byte strings that appending produces. */
  lemma MatchesIffAppended(frame: seq<Byte>)
    requires |frame| >= 2
    ensures Matches(frame) <==> frame == Append(frame[..|frame| - 2])
  {
    var data := frame[..|frame| - 2];
    assert frame == data + frame[|frame| - 2..];
  }

  /** Generate then check always succeeds. */
  lemma AppendThenMatch(data: seq<Byte>)
    ensures Matches(Append(data))
  {
    assert Append(data)[..|data|] == data;
  }

  /** The bytes of the running CRC, low byte first, are the wire bytes of its value. */
  lemma ValueBytes(c: Crc16)
    ensures WireBytes(Value(c)) == [c.lo as int, c.hi as int]
  {
    ValueHalves(c.lo, c.hi);
    Widen(c.lo);
    Widen(c.hi);
  }

  /** The two halves of the value of a running CRC are its two bytes. */
  lemma ValueHalves(lo: bv8, hi: bv8)
    ensures Value(Crc16(lo, hi)) & 0xFF == lo as bv16
    ensures Value(Crc16(lo, hi)) >> 8 == hi as bv16
  {
  }

  /** Widening a byte to 16 bits keeps its numeric value. */
  lemma Widen(x: bv8)
    ensures (x as bv16) as int == x as int
  {
  }

  /** The bytes the table-driven loop leaves in `lCRCLo` and `lCRCHi` are the check bytes. */
  lemma ComputedCheckword(data: seq<Byte>)
    ensures Checkword(data) == [Compute(data).lo as int, Compute(data).hi as int]
  {
    ComputeIsReflected(data);
    ValueBytes(Compute(data));
  }

  /** Checking the first `length + 2` bytes of a buffer compares the two bytes after the data. */
  lemma MatchesPrefix(buffer: seq<Byte>, length: nat)
    requires length + 2 <= |buffer|
    ensures Matches(buffer[..length + 2]) <==> [buffer[length], buffer[length + 1]] == Checkword(buffer[..length])
  {
    var frame := buffer[..length + 2];
    assert frame[..length] == buffer[..length];
    assert frame[length..] == [buffer[length], buffer[length + 1]];
  }

  /**
   CRC16(aBuffer, aLength, aCheck). In check mode the result says whether
   the two bytes after the first `length` hold their CRC, low byte first;
   otherwise those two bytes are overwritten with it and the result is true.
   */
  method Checksum(buffer: seq<Byte>, length: nat, check: bool) returns (ok: bool, out: seq<Byte>)
    requires length < 0x100 && length + 2 <= |buffer|
    ensures check ==> out == buffer && (ok <==> Matches(buffer[..length + 2]))
    ensures !check ==> ok && out == Append(buffer[..length]) + buffer[length + 2..]
  {
    var crc := Seed;
    var i := 0;
    while i < length
      invariant i <= length
      invariant crc == Compute(buffer[..i])
    {
      ComputeStep(buffer, i);
      crc := Update(crc, buffer[i]);
      i := i + 1;
    }
    var lo, hi := crc.lo, crc.hi;
    ComputedCheckword(buffer[..length]);
    MatchesPrefix(buffer, length);
    if check {
      ok := buffer[length] == lo as int && buffer[length + 1] == hi as int;
      out := buffer;
    } else {
      out := buffer[..length] + [lo as int, hi as int] + buffer[length + 2..];
      ok := true;
    }
  }

  /** The two table entries at `x` are the low and high byte of `ShiftByte(x)`. */
  predicate EntryMatches(x: bv8) {
    var t := ShiftByte(x as bv16);
    HiEntry(x) == (t & 0xFF) as bv8 && LoEntry(x) == (t >> 8) as bv8
  }

  lemma TableRow0(x: bv8)
    requires 0x00 <= x <= 0x0F
    ensures EntryMatches(x)
  {
    if x == 0x00 {} else if x == 0x01 {} else if x == 0x02 {} else if x == 0x03 {} else if x == 0x04 {} else if x == 0x05 {} else if x == 0x06 {} else if x == 0x07 {} else if x == 0x08 {} else if x == 0x09 {} else if x == 0x0A {} else if x == 0x0B {} else if x == 0x0C {} else if x == 0x0D {} else if x == 0x0E {}
  }

  lemma TableRow1(x: bv8)
    requires 0x10 <= x <= 0x1F
    ensures EntryMatches(x)
  {
    if x == 0x10 {} else if x == 0x11 {} else if x == 0x12 {} else if x == 0x13 {} else if x == 0x14 {} else if x == 0x15 {} else if x == 0x16 {} else if x == 0x17 {} else if x == 0x18 {} else if x == 0x19 {} else if x == 0x1A {} else if x == 0x1B {} else if x == 0x1C {} else if x == 0x1D {} else if x == 0x1E {}
  }

  lemma TableRow2(x: bv8)
    requires 0x20 <= x <= 0x2F
    ensures EntryMatches(x)
  {
    if x == 0x20 {} else if x == 0x21 {} else if x == 0x22 {} else if x == 0x23 {} else if x == 0x24 {} else if x == 0x25 {} else if x == 0x26 {} else if x == 0x27 {} else if x == 0x28 {} else if x == 0x29 {} else if x == 0x2A {} else if x == 0x2B {} else if x == 0x2C {} else if x == 0x2D {} else if x == 0x2E {}
  }

  lemma TableRow3(x: bv8)
    requires 0x30 <= x <= 0x3F
    ensures EntryMatches(x)
  {
    if x == 0x30 {} else if x == 0x31 {} else if x == 0x32 {} else if x == 0x33 {} else if x == 0x34 {} else if x == 0x35 {} else if x == 0x36 {} else if x == 0x37 {} else if x == 0x38 {} else if x == 0x39 {} else if x == 0x3A {} else if x == 0x3B {} else if x == 0x3C {} else if x == 0x3D {} else if x == 0x3E {}
  }

  lemma TableRow4(x: bv8)
    requires 0x40 <= x <= 0x4F
    ensures EntryMatches(x)
  {
    if x == 0x40 {} else if x == 0x41 {} else if x == 0x42 {} else if x == 0x43 {} else if x == 0x44 {} else if x == 0x45 {} else if x == 0x46 {} else if x == 0x47 {} else if x == 0x48 {} else if x == 0x49 {} else if x == 0x4A {} else if x == 0x4B {} else if x == 0x4C {} else if x == 0x4D {} else if x == 0x4E {}
  }

  lemma TableRow5(x: bv8)
    requires 0x50 <= x <= 0x5F
    ensures EntryMatches(x)
  {
    if x == 0x50 {} else if x == 0x51 {} else if x == 0x52 {} else if x == 0x53 {} else if x == 0x54 {} else if x == 0x55 {} else if x == 0x56 {} else if x == 0x57 {} else if x == 0x58 {} else if x == 0x59 {} else if x == 0x5A {} else if x == 0x5B {} else if x == 0x5C {} else if x == 0x5D {} else if x == 0x5E {}
  }

  lemma TableRow6(x: bv8)
    requires 0x60 <= x <= 0x6F
    ensures EntryMatches(x)
  {
    if x == 0x60 {} else if x == 0x61 {} else if x == 0x62 {} else if x == 0x63 {} else if x == 0x64 {} else if x == 0x65 {} else if x == 0x66 {} else if x == 0x67 {} else if x == 0x68 {} else if x == 0x69 {} else if x == 0x6A {} else if x == 0x6B {} else if x == 0x6C {} else if x == 0x6D {} else if x == 0x6E {}
  }

  lemma TableRow7(x: bv8)
    requires 0x70 <= x <= 0x7F
    ensures EntryMatches(x)
  {
    if x == 0x70 {} else if x == 0x71 {} else if x == 0x72 {} else if x == 0x73 {} else if x == 0x74 {} else if x == 0x75 {} else if x == 0x76 {} else if x == 0x77 {} else if x == 0x78 {} else if x == 0x79 {} else if x == 0x7A {} else if x == 0x7B {} else if x == 0x7C {} else if x == 0x7D {} else if x == 0x7E {}
  }

  lemma TableRow8(x: bv8)
    requires 0x80 <= x <= 0x8F
    ensures EntryMatches(x)
  {
    if x == 0x80 {} else if x == 0x81 {} else if x == 0x82 {} else if x == 0x83 {} else if x == 0x84 {} else if x == 0x85 {} else if x == 0x86 {} else if x == 0x87 {} else if x == 0x88 {} else if x == 0x89 {} else if x == 0x8A {} else if x == 0x8B {} else if x == 0x8C {} else if x == 0x8D {} else if x == 0x8E {}
  }

  lemma TableRow9(x: bv8)
    requires 0x90 <= x <= 0x9F
    ensures EntryMatches(x)
  {
    if x == 0x90 {} else if x == 0x91 {} else if x == 0x92 {} else if x == 0x93 {} else if x == 0x94 {} else if x == 0x95 {} else if x == 0x96 {} else if x == 0x97 {} else if x == 0x98 {} else if x == 0x99 {} else if x == 0x9A {} else if x == 0x9B {} else if x == 0x9C {} else if x == 0x9D {} else if x == 0x9E {}
  }

  lemma TableRowA(x: bv8)
    requires 0xA0 <= x <= 0xAF
    ensures EntryMatches(x)
  {
    if x == 0xA0 {} else if x == 0xA1 {} else if x == 0xA2 {} else if x == 0xA3 {} else if x == 0xA4 {} else if x == 0xA5 {} else if x == 0xA6 {} else if x == 0xA7 {} else if x == 0xA8 {} else if x == 0xA9 {} else if x == 0xAA {} else if x == 0xAB {} else if x == 0xAC {} else if x == 0xAD {} else if x == 0xAE {}
  }

  lemma TableRowB(x: bv8)
    requires 0xB0 <= x <= 0xBF
    ensures EntryMatches(x)
  {
    if x == 0xB0 {} else if x == 0xB1 {} else if x == 0xB2 {} else if x == 0xB3 {} else if x == 0xB4 {} else if x == 0xB5 {} else if x == 0xB6 {} else if x == 0xB7 {} else if x == 0xB8 {} else if x == 0xB9 {} else if x == 0xBA {} else if x == 0xBB {} else if x == 0xBC {} else if x == 0xBD {} else if x == 0xBE {}
  }

  lemma TableRowC(x: bv8)
    requires 0xC0 <= x <= 0xCF
    ensures EntryMatches(x)
  {
    if x == 0xC0 {} else if x == 0xC1 {} else if x == 0xC2 {} else if x == 0xC3 {} else if x == 0xC4 {} else if x == 0xC5 {} else if x == 0xC6 {} else if x == 0xC7 {} else if x == 0xC8 {} else if x == 0xC9 {} else if x == 0xCA {} else if x == 0xCB {} else if x == 0xCC {} else if x == 0xCD {} else if x == 0xCE {}
  }

  lemma TableRowD(x: bv8)
    requires 0xD0 <= x <= 0xDF
    ensures EntryMatches(x)
  {
    if x == 0xD0 {} else if x == 0xD1 {} else if x == 0xD2 {} else if x == 0xD3 {} else if x == 0xD4 {} else if x == 0xD5 {} else if x == 0xD6 {} else if x == 0xD7 {} else if x == 0xD8 {} else if x == 0xD9 {} else if x == 0xDA {} else if x == 0xDB {} else if x == 0xDC {} else if x == 0xDD {} else if x == 0xDE {}
  }

  lemma TableRowE(x: bv8)
    requires 0xE0 <= x <= 0xEF
    ensures EntryMatches(x)
  {
    if x == 0xE0 {} else if x == 0xE1 {} else if x == 0xE2 {} else if x == 0xE3 {} else if x == 0xE4 {} else if x == 0xE5 {} else if x == 0xE6 {} else if x == 0xE7 {} else if x == 0xE8 {} else if x == 0xE9 {} else if x == 0xEA {} else if x == 0xEB {} else if x == 0xEC {} else if x == 0xED {} else if x == 0xEE {}
  }

  lemma TableRowF(x: bv8)
    requires 0xF0 <= x <= 0xFF
    ensures EntryMatches(x)
  {
    if x == 0xF0 {} else if x == 0xF1 {} else if x == 0xF2 {} else if x == 0xF3 {} else if x == 0xF4 {} else if x == 0xF5 {} else if x == 0xF6 {} else if x == 0xF7 {} else if x == 0xF8 {} else if x == 0xF9 {} else if x == 0xFA {} else if x == 0xFB {} else if x == 0xFC {} else if x == 0xFD {} else if x == 0xFE {}
  }

  /** Every entry of both tables is the bitwise algorithm applied to its index. */
  lemma TablesArePolynomial(x: bv8)
    ensures EntryMatches(x)
  {
    if x <= 0x0F { TableRow0(x); }
    else if x <= 0x1F { TableRow1(x); }
    else if x <= 0x2F { TableRow2(x); }
    else if x <= 0x3F { TableRow3(x); }
    else if x <= 0x4F { TableRow4(x); }
    else if x <= 0x5F { TableRow5(x); }
    else if x <= 0x6F { TableRow6(x); }
    else if x <= 0x7F { TableRow7(x); }
    else if x <= 0x8F { TableRow8(x); }
    else if x <= 0x9F { TableRow9(x); }
    else if x <= 0xAF { TableRowA(x); }
    else if x <= 0xBF { TableRowB(x); }
    else if x <= 0xCF { TableRowC(x); }
    else if x <= 0xDF { TableRowD(x); }
    else if x <= 0xEF { TableRowE(x); }
    else { TableRowF(x); }
  }

  /**
   The eight steps written out as one expression. It computes the same value
   as `ShiftByte`, but without the step count, so the split below can name
   each intermediate value; `ShiftByte` stays recursive so that `Reflected`
   reads as the algorithm is usually described.
   */
  function Unrolled(c: bv16): bv16 {
    Step(Step(Step(Step(Step(Step(Step(Step(c))))))))
  }

  lemma ShiftByteIsUnrolled(c: bv16)
    ensures ShiftByte(c) == Unrolled(c)
  {
    assert Shift(c, 1) == Step(c);
    assert Shift(c, 2) == Step(Shift(c, 1));
    assert Shift(c, 3) == Step(Shift(c, 2));
    assert Shift(c, 4) == Step(Shift(c, 3));
    assert Shift(c, 5) == Step(Shift(c, 4));
    assert Shift(c, 6) == Step(Shift(c, 5));
    assert Shift(c, 7) == Step(Shift(c, 6));
  }

  /**
   A step on `h ^ l` with `h` even: `h` is only shifted, and the polynomial
   goes in exactly when it goes in for `l` alone.
   */
  lemma StepPastEven(h: bv16, l: bv16)
    requires h & 1 == 0
    ensures Step(h ^ l) == (h >> 1) ^ Step(l)
  {
  }

  /** The high byte of a 16-bit value is only shifted down: the polynomial never applies to it. */
  lemma ShiftByteSplit(c: bv16, l: bv16)
    requires l == c & 0xFF
    ensures ShiftByte(c) == (c >> 8) ^ ShiftByte(l)
  {
    ShiftByteIsUnrolled(c);
    ShiftByteIsUnrolled(l);
    UnrolledSplit(c, l);
  }

  /** The split on the written-out steps: each step moves the high part down one bit past the even value. */
  lemma UnrolledSplit(c: bv16, l: bv16)
    requires l == c & 0xFF
    ensures Unrolled(c) == (c >> 8) ^ Unrolled(l)
  {
    var h := c & 0xFF00;
    assert c == h ^ l;
    StepPastEven(h, l);
    StepPastEven(h >> 1, Step(l));
    StepPastEven(h >> 2, Step(Step(l)));
    StepPastEven(h >> 3, Step(Step(Step(l))));
    StepPastEven(h >> 4, Step(Step(Step(Step(l)))));
    StepPastEven(h >> 5, Step(Step(Step(Step(Step(l))))));
    StepPastEven(h >> 6, Step(Step(Step(Step(Step(Step(l)))))));
    StepPastEven(h >> 7, Step(Step(Step(Step(Step(Step(Step(l))))))));
  }

  /** Splitting a 16-bit value into the two bytes the tables produce and XORing `hi` into the low one. */
  lemma Recombine(hi: bv8, s: bv16)
    ensures Value(Crc16(hi ^ (s & 0xFF) as bv8, (s >> 8) as bv8)) == (hi as bv16) ^ s
  {
  }

  /** The low and high byte of the running value after the data byte is XORed in. */
  lemma XorIntoLow(lo: bv8, hi: bv8, b: bv8)
    ensures (Value(Crc16(lo, hi)) ^ (b as bv16)) & 0xFF == (lo ^ b) as bv16
    ensures (Value(Crc16(lo, hi)) ^ (b as bv16)) >> 8 == hi as bv16
  {
  }

  /**
   The algebra behind one table step, without the tables: if `e` is the
   eight-step shift of the low byte after the data byte is XORed in, then
   the CRC whose low byte is hi XOR e's low byte and whose high byte is e's
   high byte is the eight-step shift of the whole value.
   */
  lemma CombineEntries(c: Crc16, bx: bv8, e: bv16)
    requires e == ShiftByte((c.lo ^ bx) as bv16)
    ensures Value(Crc16(c.hi ^ (e & 0xFF) as bv8, (e >> 8) as bv8)) == ShiftByte(Value(c) ^ (bx as bv16))
  {
    var v := Value(c) ^ (bx as bv16);
    XorIntoLow(c.lo, c.hi, bx);
    ShiftByteSplit(v, (c.lo ^ bx) as bv16);
    CombineValues(c, bx, e, ShiftByte(v));
  }

  /** The same algebra once the split is known: only XORs and byte extraction are left. */
  lemma CombineValues(c: Crc16, bx: bv8, e: bv16, s: bv16)
    requires s == ((Value(c) ^ (bx as bv16)) >> 8) ^ e
    ensures Value(Crc16(c.hi ^ (e & 0xFF) as bv8, (e >> 8) as bv8)) == s
  {
  }

  /** A table step, read through `EntryMatches`: the two entries are the two bytes of the shifted index. */
  lemma UpdateByEntries(c: Crc16, b: Byte)
    ensures var e := ShiftByte((c.lo ^ Bits(b)) as bv16);
            Update(c, b) == Crc16(c.hi ^ (e & 0xFF) as bv8, (e >> 8) as bv8)
  {
    TablesArePolynomial(c.lo ^ Bits(b));
  }

  /** The same step, as the 16-bit value the two bytes stand for. */
  lemma UpdateValueByEntries(c: Crc16, b: Byte)
    ensures var e := ShiftByte((c.lo ^ Bits(b)) as bv16);
            Value(Update(c, b)) == Value(Crc16(c.hi ^ (e & 0xFF) as bv8, (e >> 8) as bv8))
  {
    var e := ShiftByte((c.lo ^ Bits(b)) as bv16);
    var w := Crc16(c.hi ^ (e & 0xFF) as bv8, (e >> 8) as bv8);
    UpdateByEntries(c, b);
    SameValue(Update(c, b), w);
  }

  /** Equal CRC registers stand for the same 16-bit value. */
  lemma SameValue(u: Crc16, w: Crc16)
    requires u == w
    ensures Value(u) == Value(w)
  {
  }

  /** One table step is eight bitwise steps. */
  lemma UpdateIsShiftByte(c: Crc16, b: Byte)
    ensures Value(Update(c, b)) == ShiftByte(Value(c) ^ (Bits(b) as bv16))
  {
    UpdateValueByEntries(c, b);
    CombineEntries(c, Bits(b), ShiftByte((c.lo ^ Bits(b)) as bv16));
  }

  /** The table-driven CRC equals the bitwise CRC on every input. */
  lemma {:induction false} ComputeIsReflected(data: seq<Byte>)
    ensures Value(Compute(data)) == Reflected(data)
    decreases |data|
  {
    if |data| > 0 {
      ComputeIsReflected(data[..|data| - 1]);
      UpdateIsShiftByte(Compute(data[..|data| - 1]), data[|data| - 1]);
    }
  }

  // Error detection: the CRC tells apart any two inputs that differ in one byte.

  /** The polynomial has its top bit set, so a step shows the bit it shifted out: no two values step alike. */
  lemma StepInjective(x: bv16, y: bv16)
    requires Step(x) == Step(y)
    ensures x == y
  {
  }

  /** Eight steps lose nothing either. */
  lemma ShiftByteInjective(x: bv16, y: bv16)
    requires ShiftByte(x) == ShiftByte(y)
    ensures x == y
  {
    ShiftByteIsUnrolled(x);
    ShiftByteIsUnrolled(y);
    StepInjective(Step(Step(Step(Step(Step(Step(Step(x))))))), Step(Step(Step(Step(Step(Step(Step(y))))))));
    StepInjective(Step(Step(Step(Step(Step(Step(x)))))), Step(Step(Step(Step(Step(Step(y)))))));
    StepInjective(Step(Step(Step(Step(Step(x))))), Step(Step(Step(Step(Step(y))))));
    StepInjective(Step(Step(Step(Step(x)))), Step(Step(Step(Step(y)))));
    StepInjective(Step(Step(Step(x))), Step(Step(Step(y))));
    StepInjective(Step(Step(x)), Step(Step(y)));
    StepInjective(Step(x), Step(y));
    StepInjective(x, y);
  }

  /** XORing two different bytes into the same running value gives different values. */
  lemma XorDistinct(r: bv16, x: Byte, y: Byte)
    requires x != y
    ensures r ^ (Bits(x) as bv16) != r ^ (Bits(y) as bv16)
  {
    BitsValue(x);
    BitsValue(y);
    if r ^ (Bits(x) as bv16) == r ^ (Bits(y) as bv16) {
      XorCancel(r, Bits(x), Bits(y));
    }
  }

  /** A byte's bit pattern has the byte's value. */
  lemma BitsValue(b: Byte)
    ensures Bits(b) as int == b
  {
    ByteBits(b);
  }

  lemma XorCancel(r: bv16, p: bv8, q: bv8)
    requires r ^ (p as bv16) == r ^ (q as bv16)
    ensures p == q
  {
  }

  /** Two different running values stay different after the same byte. */
  lemma SameByteKeepsDistinct(r: bv16, q: bv16, x: Byte)
    requires r != q
    ensures ShiftByte(r ^ (Bits(x) as bv16)) != ShiftByte(q ^ (Bits(x) as bv16))
  {
    if ShiftByte(r ^ (Bits(x) as bv16)) == ShiftByte(q ^ (Bits(x) as bv16)) {
      ShiftByteInjective(r ^ (Bits(x) as bv16), q ^ (Bits(x) as bv16));
    }
  }

  /** One running value gives different results after two different bytes. */
  lemma DistinctBytesDiffer(r: bv16, x: Byte, y: Byte)
    requires x != y
    ensures ShiftByte(r ^ (Bits(x) as bv16)) != ShiftByte(r ^ (Bits(y) as bv16))
  {
    XorDistinct(r, x, y);
    if ShiftByte(r ^ (Bits(x) as bv16)) == ShiftByte(r ^ (Bits(y) as bv16)) {
      ShiftByteInjective(r ^ (Bits(x) as bv16), r ^ (Bits(y) as bv16));
    }
  }

  /** The last step of `Reflected`, with the prefix's CRC given a name. */
  lemma ReflectedLast(a: seq<Byte>, r: bv16, x: Byte)
    requires |a| > 0 && r == Reflected(a[..|a| - 1]) && x == a[|a| - 1]
    ensures Reflected(a) == ShiftByte(r ^ (Bits(x) as bv16))
  {
  }

  /** Strings that agree up to a different last byte have different CRCs. */
  lemma DifferentLastByte(a: seq<Byte>, b: seq<Byte>)
    requires |a| == |b| > 0 && a[..|a| - 1] == b[..|b| - 1] && a[|a| - 1] != b[|b| - 1]
    ensures Reflected(a) != Reflected(b)
  {
    var r := Reflected(a[..|a| - 1]);
    ReflectedLast(a, r, a[|a| - 1]);
    ReflectedLast(b, r, b[|b| - 1]);
    DistinctBytesDiffer(r, a[|a| - 1], b[|b| - 1]);
  }

  /** Strings with different CRCs keep them different when both end in the same byte. */
  lemma SameLastByte(a: seq<Byte>, b: seq<Byte>)
    requires |a| == |b| > 0 && a[|a| - 1] == b[|b| - 1]
    requires Reflected(a[..|a| - 1]) != Reflected(b[..|b| - 1])
    ensures Reflected(a) != Reflected(b)
  {
    var r, q, x := Reflected(a[..|a| - 1]), Reflected(b[..|b| - 1]), a[|a| - 1];
    ReflectedLast(a, r, x);
    ReflectedLast(b, q, x);
    SameByteKeepsDistinct(r, q, x);
  }

  /** Two byte strings of the same length that differ in exactly one byte have different CRCs. */
  lemma {:induction false} DetectsOneByteChange(a: seq<Byte>, b: seq<Byte>, i: nat)
    requires |a| == |b| && i < |a| && a[i] != b[i]
    requires forall j :: 0 <= j < |a| && j != i ==> a[j] == b[j]
    ensures Reflected(a) != Reflected(b)
    decreases |a|
  {
    var n := |a|;
    var a', b' := a[..n - 1], b[..n - 1];
    if i == n - 1 {
      assert a' == b' by {
        forall j | 0 <= j < n - 1 ensures a'[j] == b'[j] {
          assert a[j] == b[j];
        }
      }
      DifferentLastByte(a, b);
    } else {
      assert a[n - 1] == b[n - 1];
      forall j | 0 <= j < n - 1 && j != i ensures a'[j] == b'[j] {
        assert a[j] == b[j];
      }
      DetectsOneByteChange(a', b', i);
      SameLastByte(a, b);
    }
  }


  /** Different CRC values give different check bytes. */
  lemma WireBytesInjective(u: bv16, v: bv16)
    requires WireBytes(u) == WireBytes(v)
    ensures u == v
  {
    assert (u & 0xFF) as int == (v & 0xFF) as int && (u >> 8) as int == (v >> 8) as int;
    assert u == ((u >> 8) << 8) | (u & 0xFF);
    assert v == ((v >> 8) << 8) | (v & 0xFF);
  }

  /**
   A frame that passes the check fails it once any one byte is changed,
   whether the byte is in the data or in the check bytes.
   */
  lemma CheckDetectsOneByteChange(f: seq<Byte>, g: seq<Byte>, i: nat)
    requires |f| == |g| >= 2 && i < |f| && f[i] != g[i]
    requires forall j :: 0 <= j < |f| && j != i ==> f[j] == g[j]
    requires Matches(f)
    ensures !Matches(g)
  {
    var n := |f|;
    if i < n - 2 {
      DetectsOneByteChange(f[..n - 2], g[..n - 2], i);
      assert g[n - 2..] == f[n - 2..];
      if Checkword(f[..n - 2]) == Checkword(g[..n - 2]) {
        WireBytesInjective(Reflected(f[..n - 2]), Reflected(g[..n - 2]));
      }
    } else {
      assert f[..n - 2] == g[..n - 2];
      assert f[n - 2..][i - (n - 2)] != g[n - 2..][i - (n - 2)];
    }
  }

  /** The worked example of the Modbus serial-line specification: the CRC of 02 07 is 0x1241. */
  lemma KnownVector()
    ensures Compute([0x02, 0x07]) == Crc16(0x41, 0x12)
  {
    assert [0x02, 0x07][..1] == [0x02];
    assert Bits(0x02) == 0x02 && Bits(0x07) == 0x07;
  }

  /** The same example on the wire: the frame 02 07 is followed by 41 12. */
  lemma KnownFrame()
    ensures Append([0x02, 0x07]) == [0x02, 0x07, 0x41, 0x12]
  {
    KnownVector();
    ComputedCheckword([0x02, 0x07]);
  }
}
