// The feedback table of crc32.c and the register step it tabulates.
module Crc32Table {

  // The generator of clause 3.2.9 of IEEE 802.3, lowest bit = coefficient of x^31.
  const POLY: bv32 := 0xEDB88320

  predicate Odd(c: bv32) { c & 1 == 1 }

  function Xor(a: bv32, b: bv32): bv32 { a ^ b }

  // One shift/xor step of the hardware register.
  function Shift(c: bv32): bv32 {
    if Odd(c) then Xor(c >> 1, POLY) else c >> 1
  }

  // Eight of them: what the table holds for each value of the low byte.
  function Shift8(c: bv32): bv32 {
    Shift(Shift(Shift(Shift(Shift(Shift(Shift(Shift(c))))))))
  }

  // The 256 entries, sixteen to a row.
  const ROW_0: seq<bv32> := [
    0x00000000, 0x77073096, 0xee0e612c, 0x990951ba, 0x076dc419, 0x706af48f, 0xe963a535, 0x9e6495a3,
    0x0edb8832, 0x79dcb8a4, 0xe0d5e91e, 0x97d2d988, 0x09b64c2b, 0x7eb17cbd, 0xe7b82d07, 0x90bf1d91
  ]

  const ROW_1: seq<bv32> := [
    0x1db71064, 0x6ab020f2, 0xf3b97148, 0x84be41de, 0x1adad47d, 0x6ddde4eb, 0xf4d4b551, 0x83d385c7,
    0x136c9856, 0x646ba8c0, 0xfd62f97a, 0x8a65c9ec, 0x14015c4f, 0x63066cd9, 0xfa0f3d63, 0x8d080df5
  ]

  const ROW_2: seq<bv32> := [
    0x3b6e20c8, 0x4c69105e, 0xd56041e4, 0xa2677172, 0x3c03e4d1, 0x4b04d447, 0xd20d85fd, 0xa50ab56b,
    0x35b5a8fa, 0x42b2986c, 0xdbbbc9d6, 0xacbcf940, 0x32d86ce3, 0x45df5c75, 0xdcd60dcf, 0xabd13d59
  ]

  const ROW_3: seq<bv32> := [
    0x26d930ac, 0x51de003a, 0xc8d75180, 0xbfd06116, 0x21b4f4b5, 0x56b3c423, 0xcfba9599, 0xb8bda50f,
    0x2802b89e, 0x5f058808, 0xc60cd9b2, 0xb10be924, 0x2f6f7c87, 0x58684c11, 0xc1611dab, 0xb6662d3d
  ]

  const ROW_4: seq<bv32> := [
    0x76dc4190, 0x01db7106, 0x98d220bc, 0xefd5102a, 0x71b18589, 0x06b6b51f, 0x9fbfe4a5, 0xe8b8d433,
    0x7807c9a2, 0x0f00f934, 0x9609a88e, 0xe10e9818, 0x7f6a0dbb, 0x086d3d2d, 0x91646c97, 0xe6635c01
  ]

  const ROW_5: seq<bv32> := [
    0x6b6b51f4, 0x1c6c6162, 0x856530d8, 0xf262004e, 0x6c0695ed, 0x1b01a57b, 0x8208f4c1, 0xf50fc457,
    0x65b0d9c6, 0x12b7e950, 0x8bbeb8ea, 0xfcb9887c, 0x62dd1ddf, 0x15da2d49, 0x8cd37cf3, 0xfbd44c65
  ]

  const ROW_6: seq<bv32> := [
    0x4db26158, 0x3ab551ce, 0xa3bc0074, 0xd4bb30e2, 0x4adfa541, 0x3dd895d7, 0xa4d1c46d, 0xd3d6f4fb,
    0x4369e96a, 0x346ed9fc, 0xad678846, 0xda60b8d0, 0x44042d73, 0x33031de5, 0xaa0a4c5f, 0xdd0d7cc9
  ]

  const ROW_7: seq<bv32> := [
    0x5005713c, 0x270241aa, 0xbe0b1010, 0xc90c2086, 0x5768b525, 0x206f85b3, 0xb966d409, 0xce61e49f,
    0x5edef90e, 0x29d9c998, 0xb0d09822, 0xc7d7a8b4, 0x59b33d17, 0x2eb40d81, 0xb7bd5c3b, 0xc0ba6cad
  ]

  const ROW_8: seq<bv32> := [
    0xedb88320, 0x9abfb3b6, 0x03b6e20c, 0x74b1d29a, 0xead54739, 0x9dd277af, 0x04db2615, 0x73dc1683,
    0xe3630b12, 0x94643b84, 0x0d6d6a3e, 0x7a6a5aa8, 0xe40ecf0b, 0x9309ff9d, 0x0a00ae27, 0x7d079eb1
  ]

  const ROW_9: seq<bv32> := [
    0xf00f9344, 0x8708a3d2, 0x1e01f268, 0x6906c2fe, 0xf762575d, 0x806567cb, 0x196c3671, 0x6e6b06e7,
    0xfed41b76, 0x89d32be0, 0x10da7a5a, 0x67dd4acc, 0xf9b9df6f, 0x8ebeeff9, 0x17b7be43, 0x60b08ed5
  ]

  const ROW_A: seq<bv32> := [
    0xd6d6a3e8, 0xa1d1937e, 0x38d8c2c4, 0x4fdff252, 0xd1bb67f1, 0xa6bc5767, 0x3fb506dd, 0x48b2364b,
    0xd80d2bda, 0xaf0a1b4c, 0x36034af6, 0x41047a60, 0xdf60efc3, 0xa867df55, 0x316e8eef, 0x4669be79
  ]

  const ROW_B: seq<bv32> := [
    0xcb61b38c, 0xbc66831a, 0x256fd2a0, 0x5268e236, 0xcc0c7795, 0xbb0b4703, 0x220216b9, 0x5505262f,
    0xc5ba3bbe, 0xb2bd0b28, 0x2bb45a92, 0x5cb36a04, 0xc2d7ffa7, 0xb5d0cf31, 0x2cd99e8b, 0x5bdeae1d
  ]

  const ROW_C: seq<bv32> := [
    0x9b64c2b0, 0xec63f226, 0x756aa39c, 0x026d930a, 0x9c0906a9, 0xeb0e363f, 0x72076785, 0x05005713,
    0x95bf4a82, 0xe2b87a14, 0x7bb12bae, 0x0cb61b38, 0x92d28e9b, 0xe5d5be0d, 0x7cdcefb7, 0x0bdbdf21
  ]

  const ROW_D: seq<bv32> := [
    0x86d3d2d4, 0xf1d4e242, 0x68ddb3f8, 0x1fda836e, 0x81be16cd, 0xf6b9265b, 0x6fb077e1, 0x18b74777,
    0x88085ae6, 0xff0f6a70, 0x66063bca, 0x11010b5c, 0x8f659eff, 0xf862ae69, 0x616bffd3, 0x166ccf45
  ]

  const ROW_E: seq<bv32> := [
    0xa00ae278, 0xd70dd2ee, 0x4e048354, 0x3903b3c2, 0xa7672661, 0xd06016f7, 0x4969474d, 0x3e6e77db,
    0xaed16a4a, 0xd9d65adc, 0x40df0b66, 0x37d83bf0, 0xa9bcae53, 0xdebb9ec5, 0x47b2cf7f, 0x30b5ffe9
  ]

  const ROW_F: seq<bv32> := [
    0xbdbdf21c, 0xcabac28a, 0x53b39330, 0x24b4a3a6, 0xbad03605, 0xcdd70693, 0x54de5729, 0x23d967bf,
    0xb3667a2e, 0xc4614ab8, 0x5d681b02, 0x2a6f2b94, 0xb40bbe37, 0xc30c8ea1, 0x5a05df1b, 0x2d02ef8d
  ]

  const TABLE: seq<seq<bv32>> := [
    ROW_0, ROW_1, ROW_2, ROW_3, ROW_4, ROW_5, ROW_6, ROW_7,
    ROW_8, ROW_9, ROW_A, ROW_B, ROW_C, ROW_D, ROW_E, ROW_F
  ]

  // Entry i of the flat table: row i / 16, column i % 16.
  function Entry(i: bv32): bv32
    requires i < 0x100
  {
    EntryExists(i);
    TABLE[(i >> 4) as int][(i & 0xF) as int]
  }

  // ---------- every entry is eight shift/xor steps of its index ----------

  ghost predicate ShiftsAt(row: seq<bv32>, base: bv32, k: bv32)
    requires k < 16
  {
    |row| == 16 && row[k as int] == Shift8(base | k)
  }

  lemma Row0Shifts(k: bv32)
    requires k < 16
    ensures ShiftsAt(ROW_0, 0x00, k)
  {}

  lemma Row1Shifts(k: bv32)
    requires k < 16
    ensures ShiftsAt(ROW_1, 0x10, k)
  {}

  lemma Row2Shifts(k: bv32)
    requires k < 16
    ensures ShiftsAt(ROW_2, 0x20, k)
  {}

  lemma Row3Shifts(k: bv32)
    requires k < 16
    ensures ShiftsAt(ROW_3, 0x30, k)
  {}

  lemma Row4Shifts(k: bv32)
    requires k < 16
    ensures ShiftsAt(ROW_4, 0x40, k)
  {}

  lemma Row5Shifts(k: bv32)
    requires k < 16
    ensures ShiftsAt(ROW_5, 0x50, k)
  {}

  lemma Row6Shifts(k: bv32)
    requires k < 16
    ensures ShiftsAt(ROW_6, 0x60, k)
  {}

  lemma Row7Shifts(k: bv32)
    requires k < 16
    ensures ShiftsAt(ROW_7, 0x70, k)
  {}

  lemma Row8Shifts(k: bv32)
    requires k < 16
    ensures ShiftsAt(ROW_8, 0x80, k)
  {}

  lemma Row9Shifts(k: bv32)
    requires k < 16
    ensures ShiftsAt(ROW_9, 0x90, k)
  {}

  lemma RowAShifts(k: bv32)
    requires k < 16
    ensures ShiftsAt(ROW_A, 0xA0, k)
  {}

  lemma RowBShifts(k: bv32)
    requires k < 16
    ensures ShiftsAt(ROW_B, 0xB0, k)
  {}

  lemma RowCShifts(k: bv32)
    requires k < 16
    ensures ShiftsAt(ROW_C, 0xC0, k)
  {}

  lemma RowDShifts(k: bv32)
    requires k < 16
    ensures ShiftsAt(ROW_D, 0xD0, k)
  {}

  lemma RowEShifts(k: bv32)
    requires k < 16
    ensures ShiftsAt(ROW_E, 0xE0, k)
  {}

  lemma RowFShifts(k: bv32)
    requires k < 16
    ensures ShiftsAt(ROW_F, 0xF0, k)
  {}

  lemma FirstRows(r: bv32, k: bv32)
    requires r < 4 && k < 16
    ensures |TABLE| == 16 && ShiftsAt(TABLE[r as int], r << 4, k)
  {
    if r == 0 {
      Row0Shifts(k);
    } else if r == 1 {
      Row1Shifts(k);
    } else if r == 2 {
      Row2Shifts(k);
    } else {
      Row3Shifts(k);
    }
  }

  lemma SecondRows(r: bv32, k: bv32)
    requires 4 <= r < 8 && k < 16
    ensures |TABLE| == 16 && ShiftsAt(TABLE[r as int], r << 4, k)
  {
    if r == 4 {
      Row4Shifts(k);
    } else if r == 5 {
      Row5Shifts(k);
    } else if r == 6 {
      Row6Shifts(k);
    } else {
      Row7Shifts(k);
    }
  }

  lemma ThirdRows(r: bv32, k: bv32)
    requires 8 <= r < 12 && k < 16
    ensures |TABLE| == 16 && ShiftsAt(TABLE[r as int], r << 4, k)
  {
    if r == 8 {
      Row8Shifts(k);
    } else if r == 9 {
      Row9Shifts(k);
    } else if r == 10 {
      RowAShifts(k);
    } else {
      RowBShifts(k);
    }
  }

  lemma LastRows(r: bv32, k: bv32)
    requires 12 <= r < 16 && k < 16
    ensures |TABLE| == 16 && ShiftsAt(TABLE[r as int], r << 4, k)
  {
    if r == 12 {
      RowCShifts(k);
    } else if r == 13 {
      RowDShifts(k);
    } else if r == 14 {
      RowEShifts(k);
    } else {
      RowFShifts(k);
    }
  }

  lemma EveryRow(r: bv32, k: bv32)
    requires r < 16 && k < 16
    ensures |TABLE| == 16 && ShiftsAt(TABLE[r as int], r << 4, k)
  {
    if r < 4 {
      FirstRows(r, k);
    } else if r < 8 {
      SecondRows(r, k);
    } else if r < 12 {
      ThirdRows(r, k);
    } else {
      LastRows(r, k);
    }
  }

  lemma Nibbles(i: bv32)
    requires i < 0x100
    ensures i >> 4 < 16 && i & 0xF < 16 && i == ((i >> 4) << 4) | (i & 0xF)
  {}

  lemma EntryExists(i: bv32)
    requires i < 0x100
    ensures i >> 4 < 16 && |TABLE| == 16
    ensures i & 0xF < 16 && |TABLE[(i >> 4) as int]| == 16
  {
    Nibbles(i);
    EveryRow(i >> 4, i & 0xF);
  }

  lemma EntryIsShift8(i: bv32)
    requires i < 0x100
    ensures Entry(i) == Shift8(i)
  {
    Nibbles(i);
    EveryRow(i >> 4, i & 0xF);
  }
}
