/** Bit reversal of 8-, 16-, 32- and 64-bit unsigned integers, after
    cpp/patterns_and_practics/bit_reverse/bitreverse.cpp: a mask-and-shift
    network (shift_bitreverse), the same network whose last stages are replaced
    by a byte swap (bswap_bitreverse), and a byte-table lookup applied to the
    bytes of the value in reverse order (lookup_table_bitreverse).
    The bytes of a value are laid out little-endian (byte 0 is the least
    significant); the lookup algorithm gives the same result on either layout. */
module BitReverse {

  // ---------------------------------------------------------------------------
  // Bits and bytes of a value. A bit position is itself a bit-vector, so that
  // the solver reasons about shifts without integer conversions.

  predicate Bit8(v: bv8, i: bv8) requires i < 8 { (v >> i) & 1 == 1 }
  predicate Bit16(v: bv16, i: bv16) requires i < 16 { (v >> i) & 1 == 1 }
  predicate Bit32(v: bv32, i: bv32) requires i < 32 { (v >> i) & 1 == 1 }
  predicate Bit64(v: bv64, i: bv64) requires i < 64 { (v >> i) & 1 == 1 }

  /** The bytes of a value, least significant first. */
  function Bytes16(v: bv16): (b: seq<bv8>)
    ensures |b| == 2
  {
    [(v & 0xFF) as bv8, (v >> 8) as bv8]
  }

  function Bytes32(v: bv32): (b: seq<bv8>)
    ensures |b| == 4
  {
    [(v & 0xFF) as bv8, ((v >> 8) & 0xFF) as bv8, ((v >> 16) & 0xFF) as bv8, (v >> 24) as bv8]
  }

  function Bytes64(v: bv64): (b: seq<bv8>)
    ensures |b| == 8
  {
    Bytes32((v & 0xFFFF_FFFF) as bv32) + Bytes32((v >> 32) as bv32)
  }

  /** The value whose bytes, least significant first, are b. */
  function Value16(b: seq<bv8>): (v: bv16)
    requires |b| == 2
    ensures Bytes16(v) == b
  {
    (b[0] as bv16) | ((b[1] as bv16) << 8)
  }

  function Value32(b: seq<bv8>): (v: bv32)
    requires |b| == 4
    ensures Bytes32(v) == b
  {
    (b[0] as bv32) | ((b[1] as bv32) << 8) | ((b[2] as bv32) << 16) | ((b[3] as bv32) << 24)
  }

  function Value64(b: seq<bv8>): (v: bv64)
    requires |b| == 8
    ensures Bytes64(v) == b
  {
    var lo, hi := Value32(b[..4]), Value32(b[4..]);
    assert b == b[..4] + b[4..];
    (lo as bv64) | ((hi as bv64) << 32)
  }

  lemma Bytes16RoundTrip(v: bv16)
    ensures Value16(Bytes16(v)) == v
  {
  }

  lemma Bytes32RoundTrip(v: bv32)
    ensures Value32(Bytes32(v)) == v
  {
  }

  lemma Bytes64RoundTrip(v: bv64)
    ensures Value64(Bytes64(v)) == v
  {
  }

  // ---------------------------------------------------------------------------
  // The compiler builtins the source calls: __builtin_bswap16/32/64 reverse the
  // order of the bytes; __builtin_bitreverse16 moves bit i to bit 15 - i.

  function ByteSwap16(v: bv16): (r: bv16)
    ensures Bytes16(r) == [Bytes16(v)[1], Bytes16(v)[0]]
  {
    var b := Bytes16(v);
    Value16([b[1], b[0]])
  }

  function ByteSwap32(v: bv32): (r: bv32)
    ensures var b := Bytes32(v); Bytes32(r) == [b[3], b[2], b[1], b[0]]
  {
    var b := Bytes32(v);
    Value32([b[3], b[2], b[1], b[0]])
  }

  function ByteSwap64(v: bv64): (r: bv64)
    ensures var b := Bytes64(v); Bytes64(r) == [b[7], b[6], b[5], b[4], b[3], b[2], b[1], b[0]]
  {
    var b := Bytes64(v);
    Value64([b[7], b[6], b[5], b[4], b[3], b[2], b[1], b[0]])
  }

  /** Bit reversal written out one bit at a time: bit i of v lands on bit 15 - i. */
  function BuiltinBitreverse16(v: bv16): bv16 {
    ((v & 0x0001) << 15) | ((v & 0x0002) << 13) | ((v & 0x0004) << 11) | ((v & 0x0008) << 9) |
    ((v & 0x0010) << 7) | ((v & 0x0020) << 5) | ((v & 0x0040) << 3) | ((v & 0x0080) << 1) |
    ((v & 0x0100) >> 1) | ((v & 0x0200) >> 3) | ((v & 0x0400) >> 5) | ((v & 0x0800) >> 7) |
    ((v & 0x1000) >> 9) | ((v & 0x2000) >> 11) | ((v & 0x4000) >> 13) | ((v & 0x8000) >> 15)
  }

  // ---------------------------------------------------------------------------
  // shift_bitreverse: swap adjacent bits, then adjacent pairs, nibbles, bytes, ...

  function ShiftBitreverse8(v0: bv8): bv8 {
    var v1 := ((v0 >> 1) & 0x55) | ((v0 & 0x55) << 1);
    var v2 := ((v1 >> 2) & 0x33) | ((v1 & 0x33) << 2);
    (v2 >> 4) | (v2 << 4)
  }

  function ShiftBitreverse16(v0: bv16): bv16 {
    var v1 := ((v0 >> 1) & 0x5555) | ((v0 & 0x5555) << 1);
    var v2 := ((v1 >> 2) & 0x3333) | ((v1 & 0x3333) << 2);
    var v3 := ((v2 >> 4) & 0x0F0F) | ((v2 & 0x0F0F) << 4);
    (v3 >> 8) | (v3 << 8)
  }

  function ShiftBitreverse32(v0: bv32): bv32 {
    var v1 := ((v0 >> 1) & 0x55555555) | ((v0 & 0x55555555) << 1);
    var v2 := ((v1 >> 2) & 0x33333333) | ((v1 & 0x33333333) << 2);
    var v3 := ((v2 >> 4) & 0x0F0F0F0F) | ((v2 & 0x0F0F0F0F) << 4);
    var v4 := ((v3 >> 8) & 0x00FF00FF) | ((v3 & 0x00FF00FF) << 8);
    (v4 >> 16) | (v4 << 16)
  }

  function ShiftBitreverse64(v0: bv64): bv64 {
    var v1 := ((v0 >> 1) & 0x5555555555555555) | ((v0 & 0x5555555555555555) << 1);
    var v2 := ((v1 >> 2) & 0x3333333333333333) | ((v1 & 0x3333333333333333) << 2);
    var v3 := ((v2 >> 4) & 0x0F0F0F0F0F0F0F0F) | ((v2 & 0x0F0F0F0F0F0F0F0F) << 4);
    var v4 := ((v3 >> 8) & 0x00FF00FF00FF00FF) | ((v3 & 0x00FF00FF00FF00FF) << 8);
    var v5 := ((v4 >> 16) & 0x0000FFFF0000FFFF) | ((v4 & 0x0000FFFF0000FFFF) << 16);
    (v5 >> 32) | (v5 << 32)
  }

  lemma ShiftBitreverse8MovesBits(v: bv8, i: bv8)
    requires i < 8
    ensures Bit8(ShiftBitreverse8(v), 7 - i) == Bit8(v, i)
  {
  }

  lemma ShiftBitreverse16MovesBits(v: bv16, i: bv16)
    requires i < 16
    ensures Bit16(ShiftBitreverse16(v), 15 - i) == Bit16(v, i)
  {
  }

  lemma ShiftBitreverse32MovesBits(v: bv32, i: bv32)
    requires i < 32
    ensures Bit32(ShiftBitreverse32(v), 31 - i) == Bit32(v, i)
  {
  }

  lemma ShiftBitreverse64MovesBits(v: bv64, i: bv64)
    requires i < 64
    ensures Bit64(ShiftBitreverse64(v), 63 - i) == Bit64(v, i)
  {
  }

  lemma ShiftBitreverse8Involution(v: bv8)
    ensures ShiftBitreverse8(ShiftBitreverse8(v)) == v
  {
  }

  lemma ShiftBitreverse16Involution(v: bv16)
    ensures ShiftBitreverse16(ShiftBitreverse16(v)) == v
  {
  }

  lemma ShiftBitreverse32Involution(v: bv32)
    ensures ShiftBitreverse32(ShiftBitreverse32(v)) == v
  {
  }

  lemma ShiftBitreverse64Involution(v: bv64)
    ensures ShiftBitreverse64(ShiftBitreverse64(v)) == v
  {
  }

  lemma BuiltinBitreverse16AgreesWithShift(v: bv16)
    ensures BuiltinBitreverse16(v) == ShiftBitreverse16(v)
  {
  }

  // ---------------------------------------------------------------------------
  // bswap_bitreverse: the first three stages of the network, then a byte swap.

  function BswapBitreverse16(v0: bv16): bv16 {
    var v1 := ((v0 >> 1) & 0x5555) | ((v0 & 0x5555) << 1);
    var v2 := ((v1 >> 2) & 0x3333) | ((v1 & 0x3333) << 2);
    var v3 := ((v2 >> 4) & 0x0F0F) | ((v2 & 0x0F0F) << 4);
    ByteSwap16(v3)
  }

  function BswapBitreverse32(v0: bv32): bv32 {
    var v1 := ((v0 >> 1) & 0x55555555) | ((v0 & 0x55555555) << 1);
    var v2 := ((v1 >> 2) & 0x33333333) | ((v1 & 0x33333333) << 2);
    var v3 := ((v2 >> 4) & 0x0F0F0F0F) | ((v2 & 0x0F0F0F0F) << 4);
    ByteSwap32(v3)
  }

  function BswapBitreverse64(v0: bv64): bv64 {
    var v1 := ((v0 >> 1) & 0x5555555555555555) | ((v0 & 0x5555555555555555) << 1);
    var v2 := ((v1 >> 2) & 0x3333333333333333) | ((v1 & 0x3333333333333333) << 2);
    var v3 := ((v2 >> 4) & 0x0F0F0F0F0F0F0F0F) | ((v2 & 0x0F0F0F0F0F0F0F0F) << 4);
    ByteSwap64(v3)
  }

  lemma BswapBitreverse16AgreesWithShift(v: bv16)
    ensures BswapBitreverse16(v) == ShiftBitreverse16(v)
  {
  }

  lemma BswapBitreverse32AgreesWithShift(v: bv32)
    ensures BswapBitreverse32(v) == ShiftBitreverse32(v)
  {
  }

  lemma BswapBitreverse64AgreesWithShift(v: bv64)
    ensures BswapBitreverse64(v) == ShiftBitreverse64(v)
  {
  }

  // ---------------------------------------------------------------------------
  // reverse<T>::byte_table and reverse_byte.

  /**
   * The 256 entries of byte_table, kept as its 16 rows of 16: entry b of the
   * table is ByteTableRows[b >> 4][b & 15]. Entry b holds the bit reversal of b.
   */
  const ByteTableRows: seq<seq<bv8>> := [
    [0x00, 0x80, 0x40, 0xC0, 0x20, 0xA0, 0x60, 0xE0, 0x10, 0x90, 0x50, 0xD0, 0x30, 0xB0, 0x70, 0xF0],
    [0x08, 0x88, 0x48, 0xC8, 0x28, 0xA8, 0x68, 0xE8, 0x18, 0x98, 0x58, 0xD8, 0x38, 0xB8, 0x78, 0xF8],
    [0x04, 0x84, 0x44, 0xC4, 0x24, 0xA4, 0x64, 0xE4, 0x14, 0x94, 0x54, 0xD4, 0x34, 0xB4, 0x74, 0xF4],
    [0x0C, 0x8C, 0x4C, 0xCC, 0x2C, 0xAC, 0x6C, 0xEC, 0x1C, 0x9C, 0x5C, 0xDC, 0x3C, 0xBC, 0x7C, 0xFC],
    [0x02, 0x82, 0x42, 0xC2, 0x22, 0xA2, 0x62, 0xE2, 0x12, 0x92, 0x52, 0xD2, 0x32, 0xB2, 0x72, 0xF2],
    [0x0A, 0x8A, 0x4A, 0xCA, 0x2A, 0xAA, 0x6A, 0xEA, 0x1A, 0x9A, 0x5A, 0xDA, 0x3A, 0xBA, 0x7A, 0xFA],
    [0x06, 0x86, 0x46, 0xC6, 0x26, 0xA6, 0x66, 0xE6, 0x16, 0x96, 0x56, 0xD6, 0x36, 0xB6, 0x76, 0xF6],
    [0x0E, 0x8E, 0x4E, 0xCE, 0x2E, 0xAE, 0x6E, 0xEE, 0x1E, 0x9E, 0x5E, 0xDE, 0x3E, 0xBE, 0x7E, 0xFE],
    [0x01, 0x81, 0x41, 0xC1, 0x21, 0xA1, 0x61, 0xE1, 0x11, 0x91, 0x51, 0xD1, 0x31, 0xB1, 0x71, 0xF1],
    [0x09, 0x89, 0x49, 0xC9, 0x29, 0xA9, 0x69, 0xE9, 0x19, 0x99, 0x59, 0xD9, 0x39, 0xB9, 0x79, 0xF9],
    [0x05, 0x85, 0x45, 0xC5, 0x25, 0xA5, 0x65, 0xE5, 0x15, 0x95, 0x55, 0xD5, 0x35, 0xB5, 0x75, 0xF5],
    [0x0D, 0x8D, 0x4D, 0xCD, 0x2D, 0xAD, 0x6D, 0xED, 0x1D, 0x9D, 0x5D, 0xDD, 0x3D, 0xBD, 0x7D, 0xFD],
    [0x03, 0x83, 0x43, 0xC3, 0x23, 0xA3, 0x63, 0xE3, 0x13, 0x93, 0x53, 0xD3, 0x33, 0xB3, 0x73, 0xF3],
    [0x0B, 0x8B, 0x4B, 0xCB, 0x2B, 0xAB, 0x6B, 0xEB, 0x1B, 0x9B, 0x5B, 0xDB, 0x3B, 0xBB, 0x7B, 0xFB],
    [0x07, 0x87, 0x47, 0xC7, 0x27, 0xA7, 0x67, 0xE7, 0x17, 0x97, 0x57, 0xD7, 0x37, 0xB7, 0x77, 0xF7],
    [0x0F, 0x8F, 0x4F, 0xCF, 0x2F, 0xAF, 0x6F, 0xEF, 0x1F, 0x9F, 0x5F, 0xDF, 0x3F, 0xBF, 0x7F, 0xFF]
  ]

  /** byte_table[b]. */
  function ByteTableAt(b: bv8): bv8 {
    ByteTableRows[(b >> 4) as int][(b & 15) as int]
  }

  // The table lemma is split into one lemma per row to keep each proof small.

  lemma ByteTableRow0(b: bv8)
    requires b >> 4 == 0
    ensures ByteTableAt(b) == ShiftBitreverse8(b)
  {
    if b == 0x00 {}
    else if b == 0x01 {}
    else if b == 0x02 {}
    else if b == 0x03 {}
    else if b == 0x04 {}
    else if b == 0x05 {}
    else if b == 0x06 {}
    else if b == 0x07 {}
    else if b == 0x08 {}
    else if b == 0x09 {}
    else if b == 0x0A {}
    else if b == 0x0B {}
    else if b == 0x0C {}
    else if b == 0x0D {}
    else if b == 0x0E {}
    else {}
  }

  lemma ByteTableRow1(b: bv8)
    requires b >> 4 == 1
    ensures ByteTableAt(b) == ShiftBitreverse8(b)
  {
    if b == 0x10 {}
    else if b == 0x11 {}
    else if b == 0x12 {}
    else if b == 0x13 {}
    else if b == 0x14 {}
    else if b == 0x15 {}
    else if b == 0x16 {}
    else if b == 0x17 {}
    else if b == 0x18 {}
    else if b == 0x19 {}
    else if b == 0x1A {}
    else if b == 0x1B {}
    else if b == 0x1C {}
    else if b == 0x1D {}
    else if b == 0x1E {}
    else {}
  }

  lemma ByteTableRow2(b: bv8)
    requires b >> 4 == 2
    ensures ByteTableAt(b) == ShiftBitreverse8(b)
  {
    if b == 0x20 {}
    else if b == 0x21 {}
    else if b == 0x22 {}
    else if b == 0x23 {}
    else if b == 0x24 {}
    else if b == 0x25 {}
    else if b == 0x26 {}
    else if b == 0x27 {}
    else if b == 0x28 {}
    else if b == 0x29 {}
    else if b == 0x2A {}
    else if b == 0x2B {}
    else if b == 0x2C {}
    else if b == 0x2D {}
    else if b == 0x2E {}
    else {}
  }

  lemma ByteTableRow3(b: bv8)
    requires b >> 4 == 3
    ensures ByteTableAt(b) == ShiftBitreverse8(b)
  {
    if b == 0x30 {}
    else if b == 0x31 {}
    else if b == 0x32 {}
    else if b == 0x33 {}
    else if b == 0x34 {}
    else if b == 0x35 {}
    else if b == 0x36 {}
    else if b == 0x37 {}
    else if b == 0x38 {}
    else if b == 0x39 {}
    else if b == 0x3A {}
    else if b == 0x3B {}
    else if b == 0x3C {}
    else if b == 0x3D {}
    else if b == 0x3E {}
    else {}
  }

  lemma ByteTableRow4(b: bv8)
    requires b >> 4 == 4
    ensures ByteTableAt(b) == ShiftBitreverse8(b)
  {
    if b == 0x40 {}
    else if b == 0x41 {}
    else if b == 0x42 {}
    else if b == 0x43 {}
    else if b == 0x44 {}
    else if b == 0x45 {}
    else if b == 0x46 {}
    else if b == 0x47 {}
    else if b == 0x48 {}
    else if b == 0x49 {}
    else if b == 0x4A {}
    else if b == 0x4B {}
    else if b == 0x4C {}
    else if b == 0x4D {}
    else if b == 0x4E {}
    else {}
  }

  lemma ByteTableRow5(b: bv8)
    requires b >> 4 == 5
    ensures ByteTableAt(b) == ShiftBitreverse8(b)
  {
    if b == 0x50 {}
    else if b == 0x51 {}
    else if b == 0x52 {}
    else if b == 0x53 {}
    else if b == 0x54 {}
    else if b == 0x55 {}
    else if b == 0x56 {}
    else if b == 0x57 {}
    else if b == 0x58 {}
    else if b == 0x59 {}
    else if b == 0x5A {}
    else if b == 0x5B {}
    else if b == 0x5C {}
    else if b == 0x5D {}
    else if b == 0x5E {}
    else {}
  }

  lemma ByteTableRow6(b: bv8)
    requires b >> 4 == 6
    ensures ByteTableAt(b) == ShiftBitreverse8(b)
  {
    if b == 0x60 {}
    else if b == 0x61 {}
    else if b == 0x62 {}
    else if b == 0x63 {}
    else if b == 0x64 {}
    else if b == 0x65 {}
    else if b == 0x66 {}
    else if b == 0x67 {}
    else if b == 0x68 {}
    else if b == 0x69 {}
    else if b == 0x6A {}
    else if b == 0x6B {}
    else if b == 0x6C {}
    else if b == 0x6D {}
    else if b == 0x6E {}
    else {}
  }

  lemma ByteTableRow7(b: bv8)
    requires b >> 4 == 7
    ensures ByteTableAt(b) == ShiftBitreverse8(b)
  {
    if b == 0x70 {}
    else if b == 0x71 {}
    else if b == 0x72 {}
    else if b == 0x73 {}
    else if b == 0x74 {}
    else if b == 0x75 {}
    else if b == 0x76 {}
    else if b == 0x77 {}
    else if b == 0x78 {}
    else if b == 0x79 {}
    else if b == 0x7A {}
    else if b == 0x7B {}
    else if b == 0x7C {}
    else if b == 0x7D {}
    else if b == 0x7E {}
    else {}
  }

  lemma ByteTableRow8(b: bv8)
    requires b >> 4 == 8
    ensures ByteTableAt(b) == ShiftBitreverse8(b)
  {
    if b == 0x80 {}
    else if b == 0x81 {}
    else if b == 0x82 {}
    else if b == 0x83 {}
    else if b == 0x84 {}
    else if b == 0x85 {}
    else if b == 0x86 {}
    else if b == 0x87 {}
    else if b == 0x88 {}
    else if b == 0x89 {}
    else if b == 0x8A {}
    else if b == 0x8B {}
    else if b == 0x8C {}
    else if b == 0x8D {}
    else if b == 0x8E {}
    else {}
  }

  lemma ByteTableRow9(b: bv8)
    requires b >> 4 == 9
    ensures ByteTableAt(b) == ShiftBitreverse8(b)
  {
    if b == 0x90 {}
    else if b == 0x91 {}
    else if b == 0x92 {}
    else if b == 0x93 {}
    else if b == 0x94 {}
    else if b == 0x95 {}
    else if b == 0x96 {}
    else if b == 0x97 {}
    else if b == 0x98 {}
    else if b == 0x99 {}
    else if b == 0x9A {}
    else if b == 0x9B {}
    else if b == 0x9C {}
    else if b == 0x9D {}
    else if b == 0x9E {}
    else {}
  }

  lemma ByteTableRow10(b: bv8)
    requires b >> 4 == 10
    ensures ByteTableAt(b) == ShiftBitreverse8(b)
  {
    if b == 0xA0 {}
    else if b == 0xA1 {}
    else if b == 0xA2 {}
    else if b == 0xA3 {}
    else if b == 0xA4 {}
    else if b == 0xA5 {}
    else if b == 0xA6 {}
    else if b == 0xA7 {}
    else if b == 0xA8 {}
    else if b == 0xA9 {}
    else if b == 0xAA {}
    else if b == 0xAB {}
    else if b == 0xAC {}
    else if b == 0xAD {}
    else if b == 0xAE {}
    else {}
  }

  lemma ByteTableRow11(b: bv8)
    requires b >> 4 == 11
    ensures ByteTableAt(b) == ShiftBitreverse8(b)
  {
    if b == 0xB0 {}
    else if b == 0xB1 {}
    else if b == 0xB2 {}
    else if b == 0xB3 {}
    else if b == 0xB4 {}
    else if b == 0xB5 {}
    else if b == 0xB6 {}
    else if b == 0xB7 {}
    else if b == 0xB8 {}
    else if b == 0xB9 {}
    else if b == 0xBA {}
    else if b == 0xBB {}
    else if b == 0xBC {}
    else if b == 0xBD {}
    else if b == 0xBE {}
    else {}
  }

  lemma ByteTableRow12(b: bv8)
    requires b >> 4 == 12
    ensures ByteTableAt(b) == ShiftBitreverse8(b)
  {
    if b == 0xC0 {}
    else if b == 0xC1 {}
    else if b == 0xC2 {}
    else if b == 0xC3 {}
    else if b == 0xC4 {}
    else if b == 0xC5 {}
    else if b == 0xC6 {}
    else if b == 0xC7 {}
    else if b == 0xC8 {}
    else if b == 0xC9 {}
    else if b == 0xCA {}
    else if b == 0xCB {}
    else if b == 0xCC {}
    else if b == 0xCD {}
    else if b == 0xCE {}
    else {}
  }

  lemma ByteTableRow13(b: bv8)
    requires b >> 4 == 13
    ensures ByteTableAt(b) == ShiftBitreverse8(b)
  {
    if b == 0xD0 {}
    else if b == 0xD1 {}
    else if b == 0xD2 {}
    else if b == 0xD3 {}
    else if b == 0xD4 {}
    else if b == 0xD5 {}
    else if b == 0xD6 {}
    else if b == 0xD7 {}
    else if b == 0xD8 {}
    else if b == 0xD9 {}
    else if b == 0xDA {}
    else if b == 0xDB {}
    else if b == 0xDC {}
    else if b == 0xDD {}
    else if b == 0xDE {}
    else {}
  }

  lemma ByteTableRow14(b: bv8)
    requires b >> 4 == 14
    ensures ByteTableAt(b) == ShiftBitreverse8(b)
  {
    if b == 0xE0 {}
    else if b == 0xE1 {}
    else if b == 0xE2 {}
    else if b == 0xE3 {}
    else if b == 0xE4 {}
    else if b == 0xE5 {}
    else if b == 0xE6 {}
    else if b == 0xE7 {}
    else if b == 0xE8 {}
    else if b == 0xE9 {}
    else if b == 0xEA {}
    else if b == 0xEB {}
    else if b == 0xEC {}
    else if b == 0xED {}
    else if b == 0xEE {}
    else {}
  }

  lemma ByteTableRow15(b: bv8)
    requires b >> 4 == 15
    ensures ByteTableAt(b) == ShiftBitreverse8(b)
  {
    if b == 0xF0 {}
    else if b == 0xF1 {}
    else if b == 0xF2 {}
    else if b == 0xF3 {}
    else if b == 0xF4 {}
    else if b == 0xF5 {}
    else if b == 0xF6 {}
    else if b == 0xF7 {}
    else if b == 0xF8 {}
    else if b == 0xF9 {}
    else if b == 0xFA {}
    else if b == 0xFB {}
    else if b == 0xFC {}
    else if b == 0xFD {}
    else if b == 0xFE {}
    else {}
  }

  /** Every entry of the table is the 8-bit reversal of its index. */
  lemma ByteTableReverses(b: bv8)
    ensures ByteTableAt(b) == ShiftBitreverse8(b)
  {
    match b >> 4
    case 0 => ByteTableRow0(b);
    case 1 => ByteTableRow1(b);
    case 2 => ByteTableRow2(b);
    case 3 => ByteTableRow3(b);
    case 4 => ByteTableRow4(b);
    case 5 => ByteTableRow5(b);
    case 6 => ByteTableRow6(b);
    case 7 => ByteTableRow7(b);
    case 8 => ByteTableRow8(b);
    case 9 => ByteTableRow9(b);
    case 10 => ByteTableRow10(b);
    case 11 => ByteTableRow11(b);
    case 12 => ByteTableRow12(b);
    case 13 => ByteTableRow13(b);
    case 14 => ByteTableRow14(b);
    case 15 => ByteTableRow15(b);
  }

  /** reverse_byte: one table lookup. */
  function ReverseByte(src: bv8): (r: bv8)
    ensures r == ShiftBitreverse8(src)
  {
    ByteTableReverses(src);
    ByteTableAt(src)
  }

  // ---------------------------------------------------------------------------
  // lookup_table_bitreverse<T>: byte i of the result is the reversed byte
  // sizeof(T) - 1 - i of the source.

  method LookupTableBitreverseBytes(original: seq<bv8>) returns (reversed: seq<bv8>)
    ensures |reversed| == |original|
    ensures forall i | 0 <= i < |original| :: reversed[i] == ReverseByte(original[|original| - 1 - i])
  {
    var n := |original|;
    var dst := new bv8[n];
    var i := n - 1;
    while i >= 0
      invariant -1 <= i < n
      invariant forall j | i < j < n :: dst[j] == ReverseByte(original[n - 1 - j])
    {
      dst[i] := ReverseByte(original[n - i - 1]);
      i := i - 1;
    }
    reversed := dst[..];
  }

  method LookupTableBitreverse8(src: bv8) returns (dst: bv8)
    ensures dst == ShiftBitreverse8(src)
  {
    var r := LookupTableBitreverseBytes([src]);
    dst := r[0];
  }

  method LookupTableBitreverse16(src: bv16) returns (dst: bv16)
    ensures dst == ShiftBitreverse16(src)
  {
    var r := LookupTableBitreverseBytes(Bytes16(src));
    dst := Value16(r);
  }

  method LookupTableBitreverse32(src: bv32) returns (dst: bv32)
    ensures dst == ShiftBitreverse32(src)
  {
    var r := LookupTableBitreverseBytes(Bytes32(src));
    dst := Value32(r);
  }

  method LookupTableBitreverse64(src: bv64) returns (dst: bv64)
    ensures dst == ShiftBitreverse64(src)
  {
    var r := LookupTableBitreverseBytes(Bytes64(src));
    dst := Value64(r);
  }

  // ---------------------------------------------------------------------------
  // The driver: 199 as a uint16_t passes through the four reversals in turn.

  method ReverseFourTimes() returns (before: bv16, after: bv16)
    ensures before == 199 && after == before
  {
    before := 199;
    var i := before;
    i := BuiltinBitreverse16(i);
    i := LookupTableBitreverse16(i);
    i := ShiftBitreverse16(i);
    i := BswapBitreverse16(i);
    BuiltinBitreverse16AgreesWithShift(before);
    BswapBitreverse16AgreesWithShift(i);
    after := i;
  }
}
