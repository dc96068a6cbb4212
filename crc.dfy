/** The CRC-32 that `zlib.crc32` computes: the ISO/IEC 3309 / ITU-T V.42
    checksum, polynomial 0x04C11DB7 processed bit-reflected (0xEDB88320),
    register preset to 0xFFFFFFFF and complemented at the end. */
module Crc {
  import opened Bytes

  const POLY_REFLECTED: bv32 := 0xEDB8_8320
  /** Bits shifted through the register per input byte. */
  const BYTE_BITS: nat := 8

  /** `k` rounds of the bitwise shift-register update. */
  function Shift(reg: bv32, k: nat): bv32
    decreases k
  {
    if k == 0 then reg
    else Shift(if reg & 1 == 1 then (reg >> 1) ^ POLY_REFLECTED else reg >> 1, k - 1)
  }

  function UpdateByte(reg: bv32, b: Byte): bv32 {
    Shift(reg ^ (b as bv32), BYTE_BITS)
  }

  /** The register after feeding `data`, byte by byte, from `reg`. */
  function Update(reg: bv32, data: seq<Byte>): bv32
    decreases |data|
  {
    if |data| == 0 then reg else Update(UpdateByte(reg, data[0]), data[1..])
  }

  function Crc32(data: seq<Byte>): bv32 {
    Update(0xFFFF_FFFF, data) ^ 0xFFFF_FFFF
  }

  /** The standard check value of this CRC: the nine ASCII digits "123456789"
      give 0xCBF43926. */
  lemma CheckValue()
    ensures Crc32([0x31, 0x32, 0x33, 0x34, 0x35, 0x36, 0x37, 0x38, 0x39]) == 0xCBF4_3926
  {
    var s: seq<Byte> := [0x31, 0x32, 0x33, 0x34, 0x35, 0x36, 0x37, 0x38, 0x39];
    assert UpdateByte(0xFFFF_FFFF, 0x31) == 0x7C23_1048;
    assert UpdateByte(0x7C23_1048, 0x32) == 0xB0AC_BB32;
    assert UpdateByte(0xB0AC_BB32, 0x33) == 0x77B7_9C2D;
    assert UpdateByte(0x77B7_9C2D, 0x34) == 0x641C_1F5C;
    assert UpdateByte(0x641C_1F5C, 0x35) == 0x340A_C5E3;
    assert UpdateByte(0x340A_C5E3, 0x36) == 0xF68D_2C9E;
    assert UpdateByte(0xF68D_2C9E, 0x37) == 0xAFFC_9660;
    assert UpdateByte(0xAFFC_9660, 0x38) == 0x651F_2550;
    assert UpdateByte(0x651F_2550, 0x39) == 0x340B_C6D9;
    assert Update(0x340B_C6D9, s[9..]) == 0x340B_C6D9;
    assert Update(0x651F_2550, s[8..]) == 0x340B_C6D9;
    assert Update(0xAFFC_9660, s[7..]) == 0x340B_C6D9;
    assert Update(0xF68D_2C9E, s[6..]) == 0x340B_C6D9;
    assert Update(0x340A_C5E3, s[5..]) == 0x340B_C6D9;
    assert Update(0x641C_1F5C, s[4..]) == 0x340B_C6D9;
    assert Update(0x77B7_9C2D, s[3..]) == 0x340B_C6D9;
    assert Update(0xB0AC_BB32, s[2..]) == 0x340B_C6D9;
    assert Update(0x7C23_1048, s[1..]) == 0x340B_C6D9;
  }
}
