/**
 The two-table CRC-16 of the TCP packet trailer (cam-app/src/TcpRecv.cpp, cam-app/src/TcpRecv.h)
 against the bit-by-bit definition of section 6.2.2 of the MODBUS over Serial Line Specification
 and Implementation Guide V1.02, and the error patterns the check is certain to notice.

 Facts about single shifts are stated without functions, so that each one is a small
 bit-vector problem; the inductions over steps, bits and bytes use them by name.
 */
module Crc16 {

  // ----- The bit-by-bit definition -----

  const INITIAL: bv16 := 0xFFFF

  /** One shift of the register: the bit that falls out decides about the polynomial. */
  function BitStep(r: bv16): bv16 {
    if r & 1 == 1 then (r >> 1) ^ 0xA001 else r >> 1
  }

  function EightSteps(r: bv16): bv16 {
    BitStep(BitStep(BitStep(BitStep(BitStep(BitStep(BitStep(BitStep(r))))))))
  }

  function ByteStep(r: bv16, b: bv8): bv16 {
    EightSteps(r ^ (b as bv16))
  }

  /** The register after all bytes of `data`, starting from `r`. */
  function Register(r: bv16, data: seq<bv8>): bv16
    decreases |data|
  {
    if data == [] then r else Register(ByteStep(r, data[0]), data[1..])
  }

  function Word(hi: bv8, lo: bv8): bv16 {
    ((hi as bv16) << 8) | (lo as bv16)
  }

  function LowByte(r: bv16): bv8 {
    (r & 0xFF) as bv8
  }

  function HighByte(r: bv16): bv8 {
    (r >> 8) as bv8
  }

  /** The packet carries the register with its low byte first. */
  function Checksum(data: seq<bv8>): bv16 {
    var r := Register(INITIAL, data);
    Word(LowByte(r), HighByte(r))
  }

  // ----- The tables, sixteen entries a row -----

  function Pick(c: bv8, v0: bv8, v1: bv8, v2: bv8, v3: bv8, v4: bv8, v5: bv8, v6: bv8, v7: bv8,
                v8: bv8, v9: bv8, v10: bv8, v11: bv8, v12: bv8, v13: bv8, v14: bv8, v15: bv8): bv8
  {
    match c
    case 0 => v0
    case 1 => v1
    case 2 => v2
    case 3 => v3
    case 4 => v4
    case 5 => v5
    case 6 => v6
    case 7 => v7
    case 8 => v8
    case 9 => v9
    case 10 => v10
    case 11 => v11
    case 12 => v12
    case 13 => v13
    case 14 => v14
    case _ => v15
  }

  function AuchCrcHi(i: bv8): bv8 {
    var c := i & 0xF;
    match i >> 4
    case 0x0 => Pick(c, 0x00, 0xC1, 0x81, 0x40, 0x01, 0xC0, 0x80, 0x41, 0x01, 0xC0, 0x80, 0x41, 0x00, 0xC1, 0x81, 0x40)
    case 0x1 => Pick(c, 0x01, 0xC0, 0x80, 0x41, 0x00, 0xC1, 0x81, 0x40, 0x00, 0xC1, 0x81, 0x40, 0x01, 0xC0, 0x80, 0x41)
    case 0x2 => Pick(c, 0x01, 0xC0, 0x80, 0x41, 0x00, 0xC1, 0x81, 0x40, 0x00, 0xC1, 0x81, 0x40, 0x01, 0xC0, 0x80, 0x41)
    case 0x3 => Pick(c, 0x00, 0xC1, 0x81, 0x40, 0x01, 0xC0, 0x80, 0x41, 0x01, 0xC0, 0x80, 0x41, 0x00, 0xC1, 0x81, 0x40)
    case 0x4 => Pick(c, 0x01, 0xC0, 0x80, 0x41, 0x00, 0xC1, 0x81, 0x40, 0x00, 0xC1, 0x81, 0x40, 0x01, 0xC0, 0x80, 0x41)
    case 0x5 => Pick(c, 0x00, 0xC1, 0x81, 0x40, 0x01, 0xC0, 0x80, 0x41, 0x01, 0xC0, 0x80, 0x41, 0x00, 0xC1, 0x81, 0x40)
    case 0x6 => Pick(c, 0x00, 0xC1, 0x81, 0x40, 0x01, 0xC0, 0x80, 0x41, 0x01, 0xC0, 0x80, 0x41, 0x00, 0xC1, 0x81, 0x40)
    case 0x7 => Pick(c, 0x01, 0xC0, 0x80, 0x41, 0x00, 0xC1, 0x81, 0x40, 0x00, 0xC1, 0x81, 0x40, 0x01, 0xC0, 0x80, 0x41)
    case 0x8 => Pick(c, 0x01, 0xC0, 0x80, 0x41, 0x00, 0xC1, 0x81, 0x40, 0x00, 0xC1, 0x81, 0x40, 0x01, 0xC0, 0x80, 0x41)
    case 0x9 => Pick(c, 0x00, 0xC1, 0x81, 0x40, 0x01, 0xC0, 0x80, 0x41, 0x01, 0xC0, 0x80, 0x41, 0x00, 0xC1, 0x81, 0x40)
    case 0xA => Pick(c, 0x00, 0xC1, 0x81, 0x40, 0x01, 0xC0, 0x80, 0x41, 0x01, 0xC0, 0x80, 0x41, 0x00, 0xC1, 0x81, 0x40)
    case 0xB => Pick(c, 0x01, 0xC0, 0x80, 0x41, 0x00, 0xC1, 0x81, 0x40, 0x00, 0xC1, 0x81, 0x40, 0x01, 0xC0, 0x80, 0x41)
    case 0xC => Pick(c, 0x00, 0xC1, 0x81, 0x40, 0x01, 0xC0, 0x80, 0x41, 0x01, 0xC0, 0x80, 0x41, 0x00, 0xC1, 0x81, 0x40)
    case 0xD => Pick(c, 0x01, 0xC0, 0x80, 0x41, 0x00, 0xC1, 0x81, 0x40, 0x00, 0xC1, 0x81, 0x40, 0x01, 0xC0, 0x80, 0x41)
    case 0xE => Pick(c, 0x01, 0xC0, 0x80, 0x41, 0x00, 0xC1, 0x81, 0x40, 0x00, 0xC1, 0x81, 0x40, 0x01, 0xC0, 0x80, 0x41)
    case _   => Pick(c, 0x00, 0xC1, 0x81, 0x40, 0x01, 0xC0, 0x80, 0x41, 0x01, 0xC0, 0x80, 0x41, 0x00, 0xC1, 0x81, 0x40)
  }

  function AuchCrcLo(i: bv8): bv8 {
    var c := i & 0xF;
    match i >> 4
    case 0x0 => Pick(c, 0x00, 0xC0, 0xC1, 0x01, 0xC3, 0x03, 0x02, 0xC2, 0xC6, 0x06, 0x07, 0xC7, 0x05, 0xC5, 0xC4, 0x04)
    case 0x1 => Pick(c, 0xCC, 0x0C, 0x0D, 0xCD, 0x0F, 0xCF, 0xCE, 0x0E, 0x0A, 0xCA, 0xCB, 0x0B, 0xC9, 0x09, 0x08, 0xC8)
    case 0x2 => Pick(c, 0xD8, 0x18, 0x19, 0xD9, 0x1B, 0xDB, 0xDA, 0x1A, 0x1E, 0xDE, 0xDF, 0x1F, 0xDD, 0x1D, 0x1C, 0xDC)
    case 0x3 => Pick(c, 0x14, 0xD4, 0xD5, 0x15, 0xD7, 0x17, 0x16, 0xD6, 0xD2, 0x12, 0x13, 0xD3, 0x11, 0xD1, 0xD0, 0x10)
    case 0x4 => Pick(c, 0xF0, 0x30, 0x31, 0xF1, 0x33, 0xF3, 0xF2, 0x32, 0x36, 0xF6, 0xF7, 0x37, 0xF5, 0x35, 0x34, 0xF4)
    case 0x5 => Pick(c, 0x3C, 0xFC, 0xFD, 0x3D, 0xFF, 0x3F, 0x3E, 0xFE, 0xFA, 0x3A, 0x3B, 0xFB, 0x39, 0xF9, 0xF8, 0x38)
    case 0x6 => Pick(c, 0x28, 0xE8, 0xE9, 0x29, 0xEB, 0x2B, 0x2A, 0xEA, 0xEE, 0x2E, 0x2F, 0xEF, 0x2D, 0xED, 0xEC, 0x2C)
    case 0x7 => Pick(c, 0xE4, 0x24, 0x25, 0xE5, 0x27, 0xE7, 0xE6, 0x26, 0x22, 0xE2, 0xE3, 0x23, 0xE1, 0x21, 0x20, 0xE0)
    case 0x8 => Pick(c, 0xA0, 0x60, 0x61, 0xA1, 0x63, 0xA3, 0xA2, 0x62, 0x66, 0xA6, 0xA7, 0x67, 0xA5, 0x65, 0x64, 0xA4)
    case 0x9 => Pick(c, 0x6C, 0xAC, 0xAD, 0x6D, 0xAF, 0x6F, 0x6E, 0xAE, 0xAA, 0x6A, 0x6B, 0xAB, 0x69, 0xA9, 0xA8, 0x68)
    case 0xA => Pick(c, 0x78, 0xB8, 0xB9, 0x79, 0xBB, 0x7B, 0x7A, 0xBA, 0xBE, 0x7E, 0x7F, 0xBF, 0x7D, 0xBD, 0xBC, 0x7C)
    case 0xB => Pick(c, 0xB4, 0x74, 0x75, 0xB5, 0x77, 0xB7, 0xB6, 0x76, 0x72, 0xB2, 0xB3, 0x73, 0xB1, 0x71, 0x70, 0xB0)
    case 0xC => Pick(c, 0x50, 0x90, 0x91, 0x51, 0x93, 0x53, 0x52, 0x92, 0x96, 0x56, 0x57, 0x97, 0x55, 0x95, 0x94, 0x54)
    case 0xD => Pick(c, 0x9C, 0x5C, 0x5D, 0x9D, 0x5F, 0x9F, 0x9E, 0x5E, 0x5A, 0x9A, 0x9B, 0x5B, 0x99, 0x59, 0x58, 0x98)
    case 0xE => Pick(c, 0x88, 0x48, 0x49, 0x89, 0x4B, 0x8B, 0x8A, 0x4A, 0x4E, 0x8E, 0x8F, 0x4F, 0x8D, 0x4D, 0x4C, 0x8C)
    case _   => Pick(c, 0x44, 0x84, 0x85, 0x45, 0x87, 0x47, 0x46, 0x86, 0x82, 0x42, 0x43, 0x83, 0x41, 0x81, 0x80, 0x40)
  }

  /** 1 when an odd number of bits is set. */
  function BitParity(b: bv8): bv8 {
    var x := b ^ (b >> 4);
    var y := x ^ (x >> 2);
    (y ^ (y >> 1)) & 1
  }

  /** Eight shifts of a byte have a closed form; each table row is compared with it. */
  predicate IsEntry(i: bv8, hi: bv8, lo: bv8) {
    && hi == (i << 6) ^ (i << 7) ^ BitParity(i)
    && lo == (i >> 2) ^ (i >> 1) ^ (if BitParity(i) == 1 then 0xC0 else 0)
  }

  /** A row by its sixteen low nibbles; every case is a matter of constants. */
  lemma TableRow0(i: bv8, c: bv8)
    requires i == 0x00 | c && c < 16
    ensures IsEntry(i, AuchCrcHi(i), AuchCrcLo(i))
  {
    match c { case 0 => case 1 => case 2 => case 3 => case 4 => case 5 => case 6 => case 7 =>
              case 8 => case 9 => case 10 => case 11 => case 12 => case 13 => case 14 => case _ => }
  }

  lemma TableRow1(i: bv8, c: bv8)
    requires i == 0x10 | c && c < 16
    ensures IsEntry(i, AuchCrcHi(i), AuchCrcLo(i))
  {
    match c { case 0 => case 1 => case 2 => case 3 => case 4 => case 5 => case 6 => case 7 =>
              case 8 => case 9 => case 10 => case 11 => case 12 => case 13 => case 14 => case _ => }
  }

  lemma TableRow2(i: bv8, c: bv8)
    requires i == 0x20 | c && c < 16
    ensures IsEntry(i, AuchCrcHi(i), AuchCrcLo(i))
  {
    match c { case 0 => case 1 => case 2 => case 3 => case 4 => case 5 => case 6 => case 7 =>
              case 8 => case 9 => case 10 => case 11 => case 12 => case 13 => case 14 => case _ => }
  }

  lemma TableRow3(i: bv8, c: bv8)
    requires i == 0x30 | c && c < 16
    ensures IsEntry(i, AuchCrcHi(i), AuchCrcLo(i))
  {
    match c { case 0 => case 1 => case 2 => case 3 => case 4 => case 5 => case 6 => case 7 =>
              case 8 => case 9 => case 10 => case 11 => case 12 => case 13 => case 14 => case _ => }
  }

  lemma TableRow4(i: bv8, c: bv8)
    requires i == 0x40 | c && c < 16
    ensures IsEntry(i, AuchCrcHi(i), AuchCrcLo(i))
  {
    match c { case 0 => case 1 => case 2 => case 3 => case 4 => case 5 => case 6 => case 7 =>
              case 8 => case 9 => case 10 => case 11 => case 12 => case 13 => case 14 => case _ => }
  }

  lemma TableRow5(i: bv8, c: bv8)
    requires i == 0x50 | c && c < 16
    ensures IsEntry(i, AuchCrcHi(i), AuchCrcLo(i))
  {
    match c { case 0 => case 1 => case 2 => case 3 => case 4 => case 5 => case 6 => case 7 =>
              case 8 => case 9 => case 10 => case 11 => case 12 => case 13 => case 14 => case _ => }
  }

  lemma TableRow6(i: bv8, c: bv8)
    requires i == 0x60 | c && c < 16
    ensures IsEntry(i, AuchCrcHi(i), AuchCrcLo(i))
  {
    match c { case 0 => case 1 => case 2 => case 3 => case 4 => case 5 => case 6 => case 7 =>
              case 8 => case 9 => case 10 => case 11 => case 12 => case 13 => case 14 => case _ => }
  }

  lemma TableRow7(i: bv8, c: bv8)
    requires i == 0x70 | c && c < 16
    ensures IsEntry(i, AuchCrcHi(i), AuchCrcLo(i))
  {
    match c { case 0 => case 1 => case 2 => case 3 => case 4 => case 5 => case 6 => case 7 =>
              case 8 => case 9 => case 10 => case 11 => case 12 => case 13 => case 14 => case _ => }
  }

  lemma TableRow8(i: bv8, c: bv8)
    requires i == 0x80 | c && c < 16
    ensures IsEntry(i, AuchCrcHi(i), AuchCrcLo(i))
  {
    match c { case 0 => case 1 => case 2 => case 3 => case 4 => case 5 => case 6 => case 7 =>
              case 8 => case 9 => case 10 => case 11 => case 12 => case 13 => case 14 => case _ => }
  }

  lemma TableRow9(i: bv8, c: bv8)
    requires i == 0x90 | c && c < 16
    ensures IsEntry(i, AuchCrcHi(i), AuchCrcLo(i))
  {
    match c { case 0 => case 1 => case 2 => case 3 => case 4 => case 5 => case 6 => case 7 =>
              case 8 => case 9 => case 10 => case 11 => case 12 => case 13 => case 14 => case _ => }
  }

  lemma TableRowA(i: bv8, c: bv8)
    requires i == 0xA0 | c && c < 16
    ensures IsEntry(i, AuchCrcHi(i), AuchCrcLo(i))
  {
    match c { case 0 => case 1 => case 2 => case 3 => case 4 => case 5 => case 6 => case 7 =>
              case 8 => case 9 => case 10 => case 11 => case 12 => case 13 => case 14 => case _ => }
  }

  lemma TableRowB(i: bv8, c: bv8)
    requires i == 0xB0 | c && c < 16
    ensures IsEntry(i, AuchCrcHi(i), AuchCrcLo(i))
  {
    match c { case 0 => case 1 => case 2 => case 3 => case 4 => case 5 => case 6 => case 7 =>
              case 8 => case 9 => case 10 => case 11 => case 12 => case 13 => case 14 => case _ => }
  }

  lemma TableRowC(i: bv8, c: bv8)
    requires i == 0xC0 | c && c < 16
    ensures IsEntry(i, AuchCrcHi(i), AuchCrcLo(i))
  {
    match c { case 0 => case 1 => case 2 => case 3 => case 4 => case 5 => case 6 => case 7 =>
              case 8 => case 9 => case 10 => case 11 => case 12 => case 13 => case 14 => case _ => }
  }

  lemma TableRowD(i: bv8, c: bv8)
    requires i == 0xD0 | c && c < 16
    ensures IsEntry(i, AuchCrcHi(i), AuchCrcLo(i))
  {
    match c { case 0 => case 1 => case 2 => case 3 => case 4 => case 5 => case 6 => case 7 =>
              case 8 => case 9 => case 10 => case 11 => case 12 => case 13 => case 14 => case _ => }
  }

  lemma TableRowE(i: bv8, c: bv8)
    requires i == 0xE0 | c && c < 16
    ensures IsEntry(i, AuchCrcHi(i), AuchCrcLo(i))
  {
    match c { case 0 => case 1 => case 2 => case 3 => case 4 => case 5 => case 6 => case 7 =>
              case 8 => case 9 => case 10 => case 11 => case 12 => case 13 => case 14 => case _ => }
  }

  lemma TableRowF(i: bv8, c: bv8)
    requires i == 0xF0 | c && c < 16
    ensures IsEntry(i, AuchCrcHi(i), AuchCrcLo(i))
  {
    match c { case 0 => case 1 => case 2 => case 3 => case 4 => case 5 => case 6 => case 7 =>
              case 8 => case 9 => case 10 => case 11 => case 12 => case 13 => case 14 => case _ => }
  }

  lemma Nibbles(i: bv8, h: bv8, c: bv8)
    requires h == i >> 4 && c == i & 0xF
    ensures i == (h << 4) | c && c < 16
  {
  }

  lemma TableEntry(i: bv8, hi: bv8, lo: bv8)
    requires hi == AuchCrcHi(i) && lo == AuchCrcLo(i)
    ensures IsEntry(i, hi, lo)
  {
    var h, c := i >> 4, i & 0xF;
    Nibbles(i, h, c);
    match h {
      case 0x0 => TableRow0(i, c);
      case 0x1 => TableRow1(i, c);
      case 0x2 => TableRow2(i, c);
      case 0x3 => TableRow3(i, c);
      case 0x4 => TableRow4(i, c);
      case 0x5 => TableRow5(i, c);
      case 0x6 => TableRow6(i, c);
      case 0x7 => TableRow7(i, c);
      case 0x8 => TableRow8(i, c);
      case 0x9 => TableRow9(i, c);
      case 0xA => TableRowA(i, c);
      case 0xB => TableRowB(i, c);
      case 0xC => TableRowC(i, c);
      case 0xD => TableRowD(i, c);
      case 0xE => TableRowE(i, c);
      case _   => TableRowF(i, c);
    }
  }

  lemma ClosedForm(i: bv8, hi: bv8, lo: bv8, x: bv16, y: bv16)
    requires IsEntry(i, hi, lo) && x == i as bv16 && y == Word(lo, hi)
    ensures y == EightSteps(x)
  {
  }

  /** Entry i of the two tables is the register value that i turns into after eight shifts. */
  lemma TablesAreEightSteps(i: bv8, hi: bv8, lo: bv8, x: bv16, y: bv16)
    requires hi == AuchCrcHi(i) && lo == AuchCrcLo(i) && x == i as bv16 && y == Word(lo, hi)
    ensures y == EightSteps(x)
  {
    TableEntry(i, hi, lo);
    ClosedForm(i, hi, lo, x, y);
  }

  lemma Halves(hi: bv8, lo: bv8, b: bv8, u: bv8, w: bv16, x: bv16)
    requires u == hi ^ b && w == Word(lo, hi) && x == w ^ (b as bv16)
    ensures x >> 8 == lo as bv16 && x & 0xFF == u as bv16
  {
  }

  /** In a whole register, the upper byte only moves down while the lower one is worked off. */
  lemma RegisterClosedForm(i: bv8, hi: bv8, lo: bv8, x: bv16, y: bv16)
    requires IsEntry(i, hi, lo) && x & 0xFF == i as bv16 && y == Word(lo, hi)
    ensures EightSteps(x) == (x >> 8) ^ y
  {
    if BitParity(i) == 1 {
    } else {
    }
  }

  lemma TableSteps(u: bv8, tableHi: bv8, tableLo: bv8, x: bv16, z: bv16)
    requires tableHi == AuchCrcHi(u) && tableLo == AuchCrcLo(u)
    requires x & 0xFF == u as bv16 && z == Word(tableLo, tableHi)
    ensures EightSteps(x) == (x >> 8) ^ z
  {
    TableEntry(u, tableHi, tableLo);
    RegisterClosedForm(u, tableHi, tableLo, x, z);
  }

  lemma XorLowByte(hi: bv8, lo: bv8, x: bv8, newLo: bv8, y: bv16, z: bv16)
    requires newLo == x ^ lo && y == Word(hi, newLo) && z == Word(hi, lo)
    ensures y == (x as bv16) ^ z
  {
  }

  /** One table round is one byte of the bit-by-bit definition, with the halves kept apart. */
  lemma TableRound(hi: bv8, lo: bv8, b: bv8, u: bv8, tableHi: bv8, tableLo: bv8, newHi: bv8,
                   w: bv16, x: bv16, y: bv16, z: bv16, e: bv16)
    requires u == hi ^ b && newHi == lo ^ tableHi && w == Word(lo, hi) && x == w ^ (b as bv16)
    requires y == Word(tableLo, newHi) && z == Word(tableLo, tableHi) && e == (x >> 8) ^ z
    ensures y == e
  {
    Halves(hi, lo, b, u, w, x);
    XorLowByte(tableLo, tableHi, lo, newHi, y, z);
  }

  lemma NextByte(data: seq<bv8>, i: nat, w: bv16, x: bv16, y: bv16)
    requires i < |data| && x == w ^ (data[i] as bv16) && y == EightSteps(x)
    ensures Register(w, data[i..]) == Register(y, data[i + 1..])
  {
    assert data[i..][1..] == data[i + 1..];
  }

  lemma Iteration(data: seq<bv8>, i: nat, hi: bv8, lo: bv8, b: bv8, u: bv8, newHi: bv8, newLo: bv8, target: bv16)
    requires i < |data| && b == data[i] && u == hi ^ b
    requires newHi == lo ^ AuchCrcHi(u) && newLo == AuchCrcLo(u)
    requires target == Register(Word(lo, hi), data[i..])
    ensures target == Register(Word(newLo, newHi), data[i + 1..])
  {
    var tableHi := AuchCrcHi(u);
    var w, y, z := Word(lo, hi), Word(newLo, newHi), Word(newLo, tableHi);
    var x := w ^ (b as bv16);
    Halves(hi, lo, b, u, w, x);
    TableSteps(u, tableHi, newLo, x, z);
    TableRound(hi, lo, b, u, tableHi, newLo, newHi, w, x, y, z, EightSteps(x));
    NextByte(data, i, w, x, y);
  }

  lemma SwapHalves(hi: bv8, lo: bv8, r: bv16)
    requires r == ((lo as bv16) << 8) | (hi as bv16)
    ensures (r & 0xFF) as bv8 == hi && (r >> 8) as bv8 == lo
  {
  }

  lemma ChecksumOf(data: seq<bv8>, r: bv16)
    requires r == Register(INITIAL, data)
    ensures Checksum(data) == Word((r & 0xFF) as bv8, (r >> 8) as bv8)
  {
  }

  lemma Finish(data: seq<bv8>, hi: bv8, lo: bv8, target: bv16)
    requires target == Register(INITIAL, data) && target == Word(lo, hi)
    ensures Word(hi, lo) == Checksum(data)
  {
    SwapHalves(hi, lo, target);
    ChecksumOf(data, target);
  }

  method NCrc16(updata: array<bv8>, len: nat) returns (crc: bv16)
    requires len <= updata.Length
    ensures crc == Checksum(updata[..len])
  {
    var uchCRCHi: bv8 := 0xFF;
    var uchCRCLo: bv8 := 0xFF;
    var i := 0;
    ghost var data := updata[..len];
    ghost var target := Register(INITIAL, data);
    while i < len
      invariant 0 <= i <= len
      invariant target == Register(Word(uchCRCLo, uchCRCHi), data[i..])
    {
      var byte := updata[i];
      var uindex := uchCRCHi ^ byte;
      var newHi := uchCRCLo ^ AuchCrcHi(uindex);
      var newLo := AuchCrcLo(uindex);
      Iteration(data, i, uchCRCHi, uchCRCLo, byte, uindex, newHi, newLo, target);
      uchCRCHi, uchCRCLo := newHi, newLo;
      i := i + 1;
    }
    Finish(data, uchCRCHi, uchCRCLo, target);
    return Word(uchCRCHi, uchCRCLo);
  }

  // ----- Single shifts -----

  lemma LastBit(r: bv16)
    ensures r & 1 == 0 || r & 1 == 1
  {
  }

  lemma SplitOdd(r: bv16, p: bv16)
    requires r & 1 == 1 && p & 1 == 0
    ensures (r ^ p) & 1 == 1
    ensures ((r ^ p) >> 1) ^ 0xA001 == ((r >> 1) ^ 0xA001) ^ (p >> 1)
  {
  }

  lemma SplitEven(r: bv16, p: bv16)
    requires r & 1 == 0 && p & 1 == 0
    ensures (r ^ p) & 1 == 0
    ensures (r ^ p) >> 1 == (r >> 1) ^ (p >> 1)
  {
  }

  lemma FlipOdd(r: bv16, p: bv16)
    requires r & 1 == 1 && p & 1 == 1
    ensures (r ^ p) & 1 == 0 && (r ^ 1) & 1 == 0
    ensures (r ^ p) >> 1 == ((r ^ 1) >> 1) ^ (p >> 1)
  {
  }

  lemma FlipEven(r: bv16, p: bv16)
    requires r & 1 == 0 && p & 1 == 1
    ensures (r ^ p) & 1 == 1 && (r ^ 1) & 1 == 1
    ensures ((r ^ p) >> 1) ^ 0xA001 == (((r ^ 1) >> 1) ^ 0xA001) ^ (p >> 1)
  {
  }

  lemma StepEvenPattern(r: bv16, p: bv16)
    requires p & 1 == 0
    ensures BitStep(r ^ p) == BitStep(r) ^ (p >> 1)
  {
    LastBit(r);
    if r & 1 == 1 {
      SplitOdd(r, p);
    } else {
      SplitEven(r, p);
    }
  }

  lemma StepOddPattern(r: bv16, p: bv16)
    requires p & 1 == 1
    ensures BitStep(r ^ p) == BitStep(r ^ 1) ^ (p >> 1)
  {
    LastBit(r);
    if r & 1 == 1 {
      FlipOdd(r, p);
    } else {
      FlipEven(r, p);
    }
  }

  lemma BitStepInjective(r: bv16, s: bv16)
    requires BitStep(r) == BitStep(s)
    ensures r == s
  {
  }

  lemma XorZero(r: bv16)
    ensures r ^ 0 == r
  {
  }

  lemma XorInjectiveRight(r: bv16, p: bv16, q: bv16)
    requires r ^ p == r ^ q
    ensures p == q
  {
  }

  // ----- The register as a consumer of bits -----

  function FeedBit(r: bv16, bit: bool): bv16 {
    if bit then BitStep(r ^ 1) else BitStep(r)
  }

  function Feed(r: bv16, bits: seq<bool>): bv16
    decreases |bits|
  {
    if bits == [] then r else Feed(FeedBit(r, bits[0]), bits[1..])
  }

  /** The n low bits of `p`, in the order they enter the register. */
  function LowBits(p: bv16, n: nat): (bits: seq<bool>)
    ensures |bits| == n
    decreases n
  {
    if n == 0 then [] else [p & 1 == 1] + LowBits(p >> 1, n - 1)
  }

  function ByteBits(b: bv8): (bits: seq<bool>)
    ensures |bits| == 8
  {
    LowBits(b as bv16, 8)
  }

  function Expand(f: bv8 -> seq<bool>, data: seq<bv8>): seq<bool> {
    if data == [] then [] else f(data[0]) + Expand(f, data[1..])
  }

  /** A message as the string of bits that enters the register. */
  function Bits(data: seq<bv8>): seq<bool> {
    Expand(ByteBits, data)
  }

  lemma {:induction false} ExpandAppend(f: bv8 -> seq<bool>, a: seq<bv8>, b: seq<bv8>)
    ensures Expand(f, a + b) == Expand(f, a) + Expand(f, b)
  {
    if a == [] {
      assert a + b == b;
    } else {
      assert (a + b)[1..] == a[1..] + b;
      ExpandAppend(f, a[1..], b);
    }
  }

  lemma {:induction false} BitsLength(data: seq<bv8>)
    ensures |Bits(data)| == 8 * |data|
  {
    if data != [] {
      BitsLength(data[1..]);
    }
  }

  /** `p` has no bit set above its n low ones. */
  predicate Fits(p: bv16, n: nat)
    decreases n
  {
    if n == 0 then p == 0 else Fits(p >> 1, n - 1)
  }

  lemma FeedOne(r: bv16, p: bv16)
    ensures BitStep(r ^ p) == FeedBit(r, p & 1 == 1) ^ (p >> 1)
  {
    if p & 1 == 1 {
      StepOddPattern(r, p);
    } else {
      LastBit(p);
      StepEvenPattern(r, p);
    }
  }

  function Steps(r: bv16, n: nat): bv16
    decreases n
  {
    if n == 0 then r else Steps(BitStep(r), n - 1)
  }

  lemma EightIsSteps(r: bv16)
    ensures Steps(r, 8) == EightSteps(r)
  {
  }

  /** Feeding bits one by one equals placing them all in the register first and then shifting. */
  lemma {:induction false} FeedPacked(r: bv16, p: bv16, n: nat)
    requires Fits(p, n)
    ensures Feed(r, LowBits(p, n)) == Steps(r ^ p, n)
    decreases n
  {
    if n == 0 {
      XorZero(r);
    } else {
      FeedOne(r, p);
      FeedPacked(FeedBit(r, p & 1 == 1), p >> 1, n - 1);
    }
  }

  lemma {:induction false} FeedAppend(r: bv16, a: seq<bool>, b: seq<bool>)
    ensures Feed(r, a + b) == Feed(Feed(r, a), b)
    decreases |a|
  {
    if a == [] {
      assert a + b == b;
    } else {
      assert (a + b)[1..] == a[1..] + b;
      FeedAppend(FeedBit(r, a[0]), a[1..], b);
    }
  }

  lemma ByteFits(b: bv8)
    ensures Fits(b as bv16, 8)
  {
  }

  lemma ByteStepIsFeed(r: bv16, b: bv8)
    ensures ByteStep(r, b) == Feed(r, LowBits(b as bv16, 8))
  {
    ByteFits(b);
    FeedPacked(r, b as bv16, 8);
    EightIsSteps(r ^ (b as bv16));
  }

  /** Bytes or bits: the register is the same. */
  lemma {:induction false} RegisterIsFeed(r: bv16, data: seq<bv8>)
    ensures Register(r, data) == Feed(r, Bits(data))
    decreases |data|
  {
    if data != [] {
      ByteStepIsFeed(r, data[0]);
      FeedAppend(r, LowBits(data[0] as bv16, 8), Bits(data[1..]));
      RegisterIsFeed(ByteStep(r, data[0]), data[1..]);
    }
  }

  // ----- Bursts -----

  lemma FlipInjective(r: bv16, s: bv16, r1: bv16, s1: bv16)
    requires r1 == r ^ 1 && s1 == s ^ 1
    requires BitStep(r1) == BitStep(s1)
    ensures r == s
  {
  }

  lemma FeedBitInjective(r: bv16, s: bv16, bit: bool)
    requires FeedBit(r, bit) == FeedBit(s, bit)
    ensures r == s
  {
    if bit {
      FlipInjective(r, s, r ^ 1, s ^ 1);
    } else {
      BitStepInjective(r, s);
    }
  }

  /** Once two registers differ, equal bits keep them apart. */
  lemma {:induction false} FeedKeepsApart(r: bv16, s: bv16, bits: seq<bool>)
    requires Feed(r, bits) == Feed(s, bits)
    ensures r == s
    decreases |bits|
  {
    if bits != [] {
      FeedKeepsApart(FeedBit(r, bits[0]), FeedBit(s, bits[0]), bits[1..]);
      FeedBitInjective(r, s, bits[0]);
    }
  }

  lemma {:induction false} StepsInjective(r: bv16, s: bv16, n: nat)
    requires Steps(r, n) == Steps(s, n)
    ensures r == s
    decreases n
  {
    if n > 0 {
      StepsInjective(BitStep(r), BitStep(s), n - 1);
      BitStepInjective(r, s);
    }
  }

  lemma PushBit(q: bv16, bit: bool) returns (p: bv16)
    requires q & 0x8000 == 0
    ensures p >> 1 == q && (p & 1 == 1) == bit
  {
    p := if bit then (q << 1) | 1 else q << 1;
  }

  lemma {:induction false} ZeroFits(m: nat)
    ensures Fits(0, m)
  {
    if m > 0 {
      ZeroFits(m - 1);
    }
  }

  lemma {:induction false} FitsMore(p: bv16, n: nat, m: nat)
    requires Fits(p, n) && n <= m
    ensures Fits(p, m)
    decreases m
  {
    if n == 0 {
      ZeroFits(m);
    } else {
      FitsMore(p >> 1, n - 1, m - 1);
    }
  }

  lemma TopBitClear15(p: bv16)
    requires Fits(p, 15)
    ensures p & 0x8000 == 0
  {
  }

  lemma TopBitClear(p: bv16, n: nat)
    requires n <= 15 && Fits(p, n)
    ensures p & 0x8000 == 0
  {
    FitsMore(p, n, 15);
    TopBitClear15(p);
  }

  lemma BitsUnfold(p: bv16, q: bv16, bit: bool, n: nat)
    requires n > 0 && p >> 1 == q && (p & 1 == 1) == bit
    ensures LowBits(p, n) == [bit] + LowBits(q, n - 1)
    ensures Fits(p, n) == Fits(q, n - 1)
  {
  }

  lemma PushFront(tail: seq<bool>, bit: bool, q: bv16) returns (p: bv16)
    requires |tail| <= 15 && Fits(q, |tail|) && LowBits(q, |tail|) == tail
    ensures Fits(p, |tail| + 1) && LowBits(p, |tail| + 1) == [bit] + tail
  {
    TopBitClear(q, |tail|);
    p := PushBit(q, bit);
    BitsUnfold(p, q, bit, |tail| + 1);
  }

  /** Any up to sixteen bits are the low bits of a register value. */
  lemma {:induction false} Pack(bits: seq<bool>) returns (p: bv16)
    requires |bits| <= 16
    ensures Fits(p, |bits|) && LowBits(p, |bits|) == bits
  {
    if bits == [] {
      p := 0;
    } else {
      var q := Pack(bits[1..]);
      p := PushFront(bits[1..], bits[0], q);
      assert bits == [bits[0]] + bits[1..];
    }
  }

  /** From the same register, up to sixteen bits can be told apart by the register they lead to. */
  lemma WindowInjective(r: bv16, x: seq<bool>, y: seq<bool>)
    requires |x| == |y| <= 16 && Feed(r, x) == Feed(r, y)
    ensures x == y
  {
    var n := |x|;
    var p := Pack(x);
    var q := Pack(y);
    FeedPacked(r, p, n);
    FeedPacked(r, q, n);
    StepsInjective(r ^ p, r ^ q, n);
    XorInjectiveRight(r, p, q);
  }

  /** The bit strings have one length and agree outside the sixteen bits that start at k. */
  ghost predicate AgreeOutside(a: seq<bool>, b: seq<bool>, k: nat) {
    && |a| == |b|
    && forall i :: 0 <= i < |a| && !(k <= i < k + 16) ==> a[i] == b[i]
  }

  lemma FeedThree(r: bv16, a: seq<bool>, b: seq<bool>, c: seq<bool>)
    ensures Feed(r, a + b + c) == Feed(Feed(Feed(r, a), b), c)
  {
    FeedAppend(r, a + b, c);
    FeedAppend(r, a, b);
  }

  lemma CutBits(a: seq<bool>, b: seq<bool>, k: nat) returns (s: nat, e: nat)
    requires AgreeOutside(a, b, k)
    ensures s <= e <= |a| && e - s <= 16 && a[..s] == b[..s] && a[e..] == b[e..]
  {
    s := if k <= |a| then k else |a|;
    e := if k + 16 <= |a| then k + 16 else |a|;
  }

  lemma FeedParts(r: bv16, a: seq<bool>, s: nat, e: nat)
    requires s <= e <= |a|
    ensures Feed(r, a) == Feed(Feed(Feed(r, a[..s]), a[s..e]), a[e..])
  {
    FeedThree(r, a[..s], a[s..e], a[e..]);
    assert a == a[..s] + a[s..e] + a[e..];
  }

  lemma FeedBurst(r: bv16, a: seq<bool>, b: seq<bool>, k: nat)
    requires AgreeOutside(a, b, k) && Feed(r, a) == Feed(r, b)
    ensures a == b
  {
    var s, e := CutBits(a, b, k);
    var r1 := Feed(r, a[..s]);
    FeedParts(r, a, s, e);
    FeedParts(r, b, s, e);
    FeedKeepsApart(Feed(r1, a[s..e]), Feed(r1, b[s..e]), a[e..]);
    WindowInjective(r1, a[s..e], b[s..e]);
    assert a == a[..s] + a[s..e] + a[e..] && b == b[..s] + b[s..e] + b[e..];
  }

  lemma HalvesDetermine(p: bv16, q: bv16, h: bv16, bit: bool)
    requires p >> 1 == h && q >> 1 == h && (p & 1 == 1) == bit && (q & 1 == 1) == bit
    ensures p == q
  {
  }

  lemma {:induction false} LowBitsInjective(p: bv16, q: bv16, n: nat)
    requires Fits(p, n) && Fits(q, n) && LowBits(p, n) == LowBits(q, n)
    ensures p == q
    decreases n
  {
    if n > 0 {
      var p1, q1, a, b := p >> 1, q >> 1, p & 1 == 1, q & 1 == 1;
      BitsUnfold(p, p1, a, n);
      BitsUnfold(q, q1, b, n);
      assert ([a] + LowBits(p1, n - 1))[1..] == LowBits(p1, n - 1);
      assert ([b] + LowBits(q1, n - 1))[1..] == LowBits(q1, n - 1);
      LowBitsInjective(p1, q1, n - 1);
      HalvesDetermine(p, q, p1, a);
    }
  }

  lemma ByteBitsInjective(a: bv8, b: bv8)
    requires LowBits(a as bv16, 8) == LowBits(b as bv16, 8)
    ensures a == b
  {
    ByteFits(a);
    ByteFits(b);
    LowBitsInjective(a as bv16, b as bv16, 8);
    assert (a as bv16) as bv8 == a && (b as bv16) as bv8 == b;
  }

  lemma BitsOfFirst(a: seq<bv8>)
    requires a != []
    ensures LowBits(a[0] as bv16, 8) == Bits(a)[..8]
    ensures Bits(a[1..]) == Bits(a)[8..]
  {
  }

  lemma {:induction false} BitsInjective(a: seq<bv8>, b: seq<bv8>)
    requires Bits(a) == Bits(b)
    ensures a == b
  {
    if a != [] && b != [] {
      BitsOfFirst(a);
      BitsOfFirst(b);
      ByteBitsInjective(a[0], b[0]);
      BitsInjective(a[1..], b[1..]);
      SameFirstAndRest(a, b);
    }
  }

  lemma SameFirstAndRest(a: seq<bv8>, b: seq<bv8>)
    requires a != [] && b != [] && a[0] == b[0] && a[1..] == b[1..]
    ensures a == b
  {
    assert a == [a[0]] + a[1..] && b == [b[0]] + b[1..];
  }

  lemma SwapInjective(r: bv16, s: bv16)
    requires Word((r & 0xFF) as bv8, (r >> 8) as bv8) == Word((s & 0xFF) as bv8, (s >> 8) as bv8)
    ensures r == s
  {
  }

  lemma EqualChecksums(a: seq<bv8>, b: seq<bv8>)
    requires Checksum(a) == Checksum(b)
    ensures Feed(INITIAL, Bits(a)) == Feed(INITIAL, Bits(b))
  {
    var r, s := Register(INITIAL, a), Register(INITIAL, b);
    ChecksumOf(a, r);
    ChecksumOf(b, s);
    SwapInjective(r, s);
    RegisterIsFeed(INITIAL, a);
    RegisterIsFeed(INITIAL, b);
  }

  /**
   Two different messages of one length that agree outside sixteen consecutive bits, wherever
   those are, have different checksums: one wrong byte and two adjacent wrong bytes included.
   */
  lemma BurstChangesChecksum(a: seq<bv8>, b: seq<bv8>, k: nat)
    requires a != b && AgreeOutside(Bits(a), Bits(b), k)
    ensures Checksum(a) != Checksum(b)
  {
    if Checksum(a) == Checksum(b) {
      EqualChecksums(a, b);
      FeedBurst(INITIAL, Bits(a), Bits(b), k);
      BitsInjective(a, b);
    }
  }

  lemma BitsOfParts(a: seq<bv8>, p: seq<bv8>, m: seq<bv8>, s: seq<bv8>)
    requires a == p + m + s
    ensures Bits(a) == Bits(p) + Bits(m) + Bits(s)
    ensures |Bits(p)| == 8 * |p| && |Bits(m)| == 8 * |m|
  {
    ExpandAppend(ByteBits, p + m, s);
    ExpandAppend(ByteBits, p, m);
    BitsLength(p);
    BitsLength(m);
  }

  lemma PartsAgree(a: seq<bool>, b: seq<bool>, p: seq<bool>, x: seq<bool>, y: seq<bool>, s: seq<bool>, k: nat)
    requires a == p + x + s && b == p + y + s && |p| == k && |x| == |y| <= 16
    ensures AgreeOutside(a, b, k)
  {
  }

  /** One wrong byte, or two wrong bytes next to each other, always change the checksum. */
  lemma AdjacentBytesChangeChecksum(a: seq<bv8>, b: seq<bv8>, i: nat)
    requires |a| == |b| && i < |a| && a[..i] == b[..i]
    requires i + 2 <= |a| ==> a[i + 2..] == b[i + 2..]
    requires a != b
    ensures Checksum(a) != Checksum(b)
  {
    var e := if i + 2 <= |a| then i + 2 else |a|;
    var p, x, y, s := a[..i], a[i..e], b[i..e], a[e..];
    assert a == p + x + s && b == p + y + s;
    BitsOfParts(a, p, x, s);
    BitsOfParts(b, p, y, s);
    PartsAgree(Bits(a), Bits(b), Bits(p), Bits(x), Bits(y), Bits(s), 8 * i);
    BurstChangesChecksum(a, b, 8 * i);
  }

  // ----- Odd numbers of wrong bits -----

  /** Whether an odd number of the n low bits is set. */
  function Odd(r: bv16, n: nat): bool
    decreases n
  {
    if n == 0 then false else (r & 1 == 1) != Odd(r >> 1, n - 1)
  }

  function OddOnes(bits: seq<bool>): bool {
    if bits == [] then false else bits[0] != OddOnes(bits[1..])
  }

  lemma OddUnfold(r: bv16, s: bv16, n: nat)
    requires n > 0 && s == r >> 1
    ensures Odd(r, n) == ((r & 1 == 1) != Odd(s, n - 1))
  {
  }

  lemma XorParts(x: bv16, y: bv16, z: bv16)
    requires z == x ^ y
    ensures z >> 1 == (x >> 1) ^ (y >> 1)
    ensures (z & 1 == 1) == ((x & 1 == 1) != (y & 1 == 1))
  {
  }

  lemma OddXorStep(x: bv16, y: bv16, z: bv16, x1: bv16, y1: bv16, z1: bv16, n: nat)
    requires n > 0 && x1 == x >> 1 && y1 == y >> 1 && z1 == z >> 1
    requires (z & 1 == 1) == ((x & 1 == 1) != (y & 1 == 1))
    requires Odd(z1, n - 1) == (Odd(x1, n - 1) != Odd(y1, n - 1))
    ensures Odd(z, n) == (Odd(x, n) != Odd(y, n))
  {
    OddUnfold(x, x1, n);
    OddUnfold(y, y1, n);
    OddUnfold(z, z1, n);
  }

  lemma {:induction false} OddXor(x: bv16, y: bv16, z: bv16, n: nat)
    requires z == x ^ y
    ensures Odd(z, n) == (Odd(x, n) != Odd(y, n))
    decreases n
  {
    if n > 0 {
      XorParts(x, y, z);
      var x1, y1, z1 := x >> 1, y >> 1, z >> 1;
      OddXor(x1, y1, z1, n - 1);
      OddXorStep(x, y, z, x1, y1, z1, n);
    }
  }

  lemma {:induction false} OddZero(n: nat)
    ensures !Odd(0, n)
    decreases n
  {
    if n > 0 {
      OddUnfold(0, 0, n);
      OddZero(n - 1);
    }
  }

  lemma OddOne()
    ensures Odd(1, 16)
  {
    OddUnfold(1, 0, 16);
    OddZero(15);
  }

  lemma OddPolynomial()
    ensures Odd(0xA001, 16)
  {
  }

  lemma {:induction false} OddTop(r: bv16, n: nat)
    requires Fits(r, n)
    ensures Odd(r, n + 1) == Odd(r, n)
    decreases n
  {
    if n == 0 {
      OddZero(1);
    } else {
      OddTop(r >> 1, n - 1);
    }
  }

  lemma HalfFits(r: bv16, s: bv16)
    requires s == r >> 1
    ensures Fits(s, 15)
  {
  }

  lemma BitStepOdd(r: bv16, s: bv16, t: bv16, odd: bool)
    requires s == r >> 1 && t == s ^ 0xA001
    requires Odd(s, 16) == odd && Odd(t, 16) == !odd && Odd(r, 16) == ((r & 1 == 1) != odd)
    ensures Odd(BitStep(r), 16) == Odd(r, 16)
  {
    if r & 1 == 1 {
      assert BitStep(r) == t;
    } else {
      assert BitStep(r) == s;
    }
  }

  /** The polynomial has three terms below the one that falls out, so a shift keeps the parity. */
  lemma BitStepKeepsParity(r: bv16)
    ensures Odd(BitStep(r), 16) == Odd(r, 16)
  {
    var s := r >> 1;
    var t := s ^ 0xA001;
    OddUnfold(r, s, 16);
    HalfFits(r, s);
    OddTop(s, 15);
    OddPolynomial();
    OddXor(s, 0xA001, t, 16);
    BitStepOdd(r, s, t, Odd(s, 15));
  }

  lemma FeedBitParity(r: bv16, f: bv16, s: bv16, bit: bool)
    requires f == FeedBit(r, bit) && s == r ^ 1
    ensures Odd(f, 16) == (Odd(r, 16) != bit)
  {
    if bit {
      OddOne();
      OddXor(r, 1, s, 16);
      BitStepKeepsParity(s);
    } else {
      BitStepKeepsParity(r);
    }
  }

  lemma {:induction false} FeedParity(r: bv16, bits: seq<bool>)
    ensures Odd(Feed(r, bits), 16) == (Odd(r, 16) != OddOnes(bits))
    decreases |bits|
  {
    if bits != [] {
      var f := FeedBit(r, bits[0]);
      FeedBitParity(r, f, r ^ 1, bits[0]);
      FeedParity(f, bits[1..]);
    }
  }

  /** In how many positions two bit strings of one length differ. */
  function Distance(a: seq<bool>, b: seq<bool>): nat
    requires |a| == |b|
  {
    if a == [] then 0 else (if a[0] != b[0] then 1 else 0) + Distance(a[1..], b[1..])
  }

  lemma {:induction false} OddDistance(a: seq<bool>, b: seq<bool>)
    requires |a| == |b|
    ensures (Distance(a, b) % 2 == 1) == (OddOnes(a) != OddOnes(b))
  {
    if a != [] {
      OddDistance(a[1..], b[1..]);
    }
  }

  /** Any odd number of wrong bits, anywhere in the message, changes the checksum. */
  lemma OddErrorsChangeChecksum(a: seq<bv8>, b: seq<bv8>)
    requires |Bits(a)| == |Bits(b)| && Distance(Bits(a), Bits(b)) % 2 == 1
    ensures Checksum(a) != Checksum(b)
  {
    if Checksum(a) == Checksum(b) {
      EqualChecksums(a, b);
      FeedParity(INITIAL, Bits(a));
      FeedParity(INITIAL, Bits(b));
      OddDistance(Bits(a), Bits(b));
    }
  }

  // ----- The residue -----

  lemma {:induction false} RegisterAppend(r: bv16, a: seq<bv8>, b: seq<bv8>)
    ensures Register(r, a + b) == Register(Register(r, a), b)
    decreases |a|
  {
    if a == [] {
      assert a + b == b;
    } else {
      assert (a + b)[1..] == a[1..] + b;
      RegisterAppend(ByteStep(r, a[0]), a[1..], b);
    }
  }

  lemma HighByteShiftsDown(p: bv16, c: bv8)
    requires p == (c as bv16) << 8
    ensures EightSteps(p) == c as bv16
  {
  }

  lemma ZeroShiftsToZero()
    ensures EightSteps(0) == 0
  {
  }

  lemma EightStepsInjective(r: bv16, s: bv16)
    requires EightSteps(r) == EightSteps(s)
    ensures r == s
  {
    EightIsSteps(r);
    EightIsSteps(s);
    StepsInjective(r, s, 8);
  }

  lemma XorCancels(x: bv16, e: bv16, c: bv16)
    requires x == e ^ c
    ensures x == 0 <==> e == c
  {
  }

  lemma TwoCheckBytes(r: bv16, c1: bv8, c2: bv8, x: bv16, p: bv16)
    requires x == r ^ (c1 as bv16) && p == (c2 as bv16) << 8
    ensures x == p <==> c1 == (r & 0xFF) as bv8 && c2 == (r >> 8) as bv8
  {
  }

  /** Feeding two more bytes empties the register exactly when they are the register's own halves. */
  lemma Residue(r: bv16, c1: bv8, c2: bv8, x: bv16, e: bv16, y: bv16, p: bv16)
    requires x == r ^ (c1 as bv16) && e == EightSteps(x)
    requires y == e ^ (c2 as bv16) && p == (c2 as bv16) << 8
    ensures EightSteps(y) == 0 <==> c1 == (r & 0xFF) as bv8 && c2 == (r >> 8) as bv8
  {
    ZeroShiftsToZero();
    HighByteShiftsDown(p, c2);
    XorCancels(y, e, c2 as bv16);
    TwoCheckBytes(r, c1, c2, x, p);
    if EightSteps(y) == 0 {
      EightStepsInjective(y, 0);
    }
    if e == c2 as bv16 {
      EightStepsInjective(x, p);
    }
  }

  lemma WordsEqual(c1: bv8, c2: bv8, r: bv16)
    ensures Word(c1, c2) == Word((r & 0xFF) as bv8, (r >> 8) as bv8)
            <==> c1 == (r & 0xFF) as bv8 && c2 == (r >> 8) as bv8
  {
  }

  /** The two check bytes of a packet match exactly when the register over data and check is empty. */
  lemma CheckMatchesIffResidueZero(data: seq<bv8>, c1: bv8, c2: bv8)
    ensures Word(c1, c2) == Checksum(data) <==> Register(INITIAL, data + [c1, c2]) == 0
  {
    var r := Register(INITIAL, data);
    var x := r ^ (c1 as bv16);
    var e := EightSteps(x);
    var y := e ^ (c2 as bv16);
    RegisterAppend(INITIAL, data, [c1, c2]);
    TwoBytes(r, c1, c2, x, e, y);
    Residue(r, c1, c2, x, e, y, (c2 as bv16) << 8);
    ChecksumOf(data, r);
    WordsEqual(c1, c2, r);
  }

  lemma TwoBytes(r: bv16, c1: bv8, c2: bv8, x: bv16, e: bv16, y: bv16)
    requires x == r ^ (c1 as bv16) && e == EightSteps(x) && y == e ^ (c2 as bv16)
    ensures Register(r, [c1, c2]) == EightSteps(y)
  {
    assert [c1, c2][1..] == [c2];
    assert Register(e, [c2]) == EightSteps(y);
  }

  // ----- A known value -----

  lemma Digits()
    ensures ByteStep(0xFFFF, 0x31) == 0x947E
    ensures ByteStep(0x947E, 0x32) == 0xF595
    ensures ByteStep(0xF595, 0x33) == 0x7A75
    ensures ByteStep(0x7A75, 0x34) == 0x30BA
    ensures ByteStep(0x30BA, 0x35) == 0xA471
    ensures ByteStep(0xA471, 0x36) == 0x32E4
    ensures ByteStep(0x32E4, 0x37) == 0x9D73
    ensures ByteStep(0x9D73, 0x38) == 0x37DD
    ensures ByteStep(0x37DD, 0x39) == 0x4B37
  {
  }

  lemma ThreeBytes(r0: bv16, b0: bv8, r1: bv16, b1: bv8, r2: bv16, b2: bv8, r3: bv16)
    requires ByteStep(r0, b0) == r1 && ByteStep(r1, b1) == r2 && ByteStep(r2, b2) == r3
    ensures Register(r0, [b0, b1, b2]) == r3
  {
    assert [b0, b1, b2][1..] == [b1, b2] && [b1, b2][1..] == [b2] && [b2][1..] == [];
    assert Register(r2, [b2]) == r3;
  }

  /** The check value of this CRC, for the digits 1 to 9: 0x4B37, which the packet carries low byte first. */
  lemma CheckValue()
    ensures Checksum([0x31, 0x32, 0x33] + ([0x34, 0x35, 0x36] + [0x37, 0x38, 0x39])) == 0x374B
    ensures Checksum([]) == 0xFFFF
  {
    Digits();
    ThreeBytes(0xFFFF, 0x31, 0x947E, 0x32, 0xF595, 0x33, 0x7A75);
    ThreeBytes(0x7A75, 0x34, 0x30BA, 0x35, 0xA471, 0x36, 0x32E4);
    ThreeBytes(0x32E4, 0x37, 0x9D73, 0x38, 0x37DD, 0x39, 0x4B37);
    RegisterAppend(0xFFFF, [0x31, 0x32, 0x33], [0x34, 0x35, 0x36] + [0x37, 0x38, 0x39]);
    RegisterAppend(0x7A75, [0x34, 0x35, 0x36], [0x37, 0x38, 0x39]);
    ChecksumOf([0x31, 0x32, 0x33] + ([0x34, 0x35, 0x36] + [0x37, 0x38, 0x39]), 0x4B37);
  }
}
