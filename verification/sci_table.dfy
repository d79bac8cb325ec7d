/** The table that inverts the bytes of a card of inverse convention (smartcard/sci_drv.c). */
module SciTable {
  import opened Bytes

  /** The rows of byte_invert: the one for a high nibble has an entry for each low nibble. */
  function Row(high: Nibble): (row: seq<int>)
    ensures |row| == 16
  {
    match high
    case 0 => [0xFF, 0x7F, 0xBF, 0x3F, 0xDF, 0x5F, 0x9F, 0x1F, 0xEF, 0x6F, 0xAF, 0x2F, 0xCF, 0x4F, 0x8F, 0x0F]
    case 1 => [0xF7, 0x77, 0xB7, 0x37, 0xD7, 0x57, 0x97, 0x17, 0xE7, 0x67, 0xA7, 0x27, 0xC7, 0x47, 0x87, 0x07]
    case 2 => [0xFB, 0x7B, 0xBB, 0x3B, 0xDB, 0x5B, 0x9B, 0x1B, 0xEB, 0x6B, 0xAB, 0x2B, 0xCB, 0x4B, 0x8B, 0x0B]
    case 3 => [0xF3, 0x73, 0xB3, 0x33, 0xD3, 0x53, 0x93, 0x13, 0xE3, 0x63, 0xA3, 0x23, 0xC3, 0x43, 0x83, 0x03]
    case 4 => [0xFD, 0x7D, 0xBD, 0x3D, 0xDD, 0x5D, 0x9D, 0x1D, 0xED, 0x6D, 0xAD, 0x2D, 0xCD, 0x4D, 0x8D, 0x0D]
    case 5 => [0xF5, 0x75, 0xB5, 0x35, 0xD5, 0x55, 0x95, 0x15, 0xE5, 0x65, 0xA5, 0x25, 0xC5, 0x45, 0x85, 0x05]
    case 6 => [0xF9, 0x79, 0xB9, 0x39, 0xD9, 0x59, 0x99, 0x19, 0xE9, 0x69, 0xA9, 0x29, 0xC9, 0x49, 0x89, 0x09]
    case 7 => [0xF1, 0x71, 0xB1, 0x31, 0xD1, 0x51, 0x91, 0x11, 0xE1, 0x61, 0xA1, 0x21, 0xC1, 0x41, 0x81, 0x01]
    case 8 => [0xFE, 0x7E, 0xBE, 0x3E, 0xDE, 0x5E, 0x9E, 0x1E, 0xEE, 0x6E, 0xAE, 0x2E, 0xCE, 0x4E, 0x8E, 0x0E]
    case 9 => [0xF6, 0x76, 0xB6, 0x36, 0xD6, 0x56, 0x96, 0x16, 0xE6, 0x66, 0xA6, 0x26, 0xC6, 0x46, 0x86, 0x06]
    case 10 => [0xFA, 0x7A, 0xBA, 0x3A, 0xDA, 0x5A, 0x9A, 0x1A, 0xEA, 0x6A, 0xAA, 0x2A, 0xCA, 0x4A, 0x8A, 0x0A]
    case 11 => [0xF2, 0x72, 0xB2, 0x32, 0xD2, 0x52, 0x92, 0x12, 0xE2, 0x62, 0xA2, 0x22, 0xC2, 0x42, 0x82, 0x02]
    case 12 => [0xFC, 0x7C, 0xBC, 0x3C, 0xDC, 0x5C, 0x9C, 0x1C, 0xEC, 0x6C, 0xAC, 0x2C, 0xCC, 0x4C, 0x8C, 0x0C]
    case 13 => [0xF4, 0x74, 0xB4, 0x34, 0xD4, 0x54, 0x94, 0x14, 0xE4, 0x64, 0xA4, 0x24, 0xC4, 0x44, 0x84, 0x04]
    case 14 => [0xF8, 0x78, 0xB8, 0x38, 0xD8, 0x58, 0x98, 0x18, 0xE8, 0x68, 0xA8, 0x28, 0xC8, 0x48, 0x88, 0x08]
    case _ => [0xF0, 0x70, 0xB0, 0x30, 0xD0, 0x50, 0x90, 0x10, 0xE0, 0x60, 0xA0, 0x20, 0xC0, 0x40, 0x80, 0x00]
  }

  /** byte_invert[b] */
  function ByteInvert(b: Byte): int {
    Row(b / 16)[b % 16]
  }

  /** The table reverses and complements every byte. */
  lemma TableInverts(b: Byte)
    ensures ByteInvert(b) == Inverted(b)
  {
    RowInverts(b / 16, b % 16);
  }

  lemma RowInverts(high: Nibble, low: Nibble)
    ensures Row(high)[low] == 16 * (15 - Reversed(low)) + (15 - Reversed(high))
  {
    if high < 8 { LowerRow(high); } else { UpperRow(high); }
    if low < 8 { LowerEntry(low, Complement(high)); } else { UpperEntry(low, Complement(high)); }
    ComplementIs(high);
    ComplementIs(low);
  }

  function Complement(n: Nibble): int {
    if n < 8 then
      if n < 4 then if n == 0 then 15 else if n == 1 then 7 else if n == 2 then 11 else 3
      else if n == 4 then 13 else if n == 5 then 5 else if n == 6 then 9 else 1
    else
      if n < 12 then if n == 8 then 14 else if n == 9 then 6 else if n == 10 then 10 else 2
      else if n == 12 then 12 else if n == 13 then 4 else if n == 14 then 8 else 0
  }

  lemma ComplementIs(n: Nibble)
    ensures 15 - Reversed(n) == Complement(n)
  {
    var low, high := n % 4, n / 4;
    if high == 0 {
      if low == 0 {} else if low == 1 {} else if low == 2 {} else {}
    } else if high == 1 {
      if low == 0 {} else if low == 1 {} else if low == 2 {} else {}
    } else if high == 2 {
      if low == 0 {} else if low == 1 {} else if low == 2 {} else {}
    } else {
      if low == 0 {} else if low == 1 {} else if low == 2 {} else {}
    }
  }

  /** Every row is the same column of high nibbles, around the row's own low nibble. */
  function Column(c: int): (column: seq<int>)
    ensures |column| == 16
  {
    [0xF0 + c, 0x70 + c, 0xB0 + c, 0x30 + c, 0xD0 + c, 0x50 + c, 0x90 + c, 0x10 + c,
     0xE0 + c, 0x60 + c, 0xA0 + c, 0x20 + c, 0xC0 + c, 0x40 + c, 0x80 + c, c]
  }

  lemma LowerEntry(n: Nibble, c: int)
    requires n < 8
    ensures Column(c)[n] == 16 * Complement(n) + c
  {
    if n == 0 {} else if n == 1 {} else if n == 2 {} else if n == 3 {}
    else if n == 4 {} else if n == 5 {} else if n == 6 {} else {}
  }

  lemma UpperEntry(n: Nibble, c: int)
    requires n >= 8
    ensures Column(c)[n] == 16 * Complement(n) + c
  {
    if n == 8 {} else if n == 9 {} else if n == 10 {} else if n == 11 {}
    else if n == 12 {} else if n == 13 {} else if n == 14 {} else {}
  }

  lemma LowerRow(n: Nibble)
    requires n < 8
    ensures Row(n) == Column(Complement(n))
  {
    if n == 0 {} else if n == 1 {} else if n == 2 {} else if n == 3 {}
    else if n == 4 {} else if n == 5 {} else if n == 6 {} else {}
  }

  lemma UpperRow(n: Nibble)
    requires n >= 8
    ensures Row(n) == Column(Complement(n))
  {
    if n == 8 {} else if n == 9 {} else if n == 10 {} else if n == 11 {}
    else if n == 12 {} else if n == 13 {} else if n == 14 {} else {}
  }
}
