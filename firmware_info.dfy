/** The "firmware info" message: a fixed big-endian struct per target that
    tells the bootloader the image length, its CRC and where it goes in
    flash. */
module FirmwareInfo {
  import opened Bytes
  import opened Crc
  import opened Frame

  /** Where the application image goes, past the bootloader. */
  const APP_FLASH_OFFSET: bv32 := 0x0002_0000

  /** The four geometry words of the GNSS receiver's info struct. */
  const GNSS_BASE_ADDRESS: bv32 := 0x1000_0000
  const GNSS_WORD2: bv32 := 0x0000_0400
  const GNSS_WORD3: bv32 := 0x0018_0000
  const GNSS_WORD4: bv32 := 0x0008_0000

  const INFO_FLAGS: Byte := 0x01

  /** Largest image whose length fits the u32 length field. */
  const MAX_IMAGE: nat := 0x1_0000_0000

  /** The image CRC the bootloader expects: CRC-32 of the little-endian
      length followed by the image, not of the image alone. */
  function FirmwareCrc(image: seq<Byte>): bv32
    requires |image| < MAX_IMAGE
  {
    Crc32(U32LE(|image| as bv32) + image)
  }

  /** `struct.pack('>IIIB3x', len, crc, APP_FLASH_OFFSET, 0x01)`. */
  function AppInfoPayload(image: seq<Byte>): (r: seq<Byte>)
    requires |image| < MAX_IMAGE
    ensures |r| == 16
    ensures ReadU32BE(r[0..4]) == |image| as bv32
    ensures ReadU32BE(r[4..8]) == FirmwareCrc(image)
    ensures ReadU32BE(r[8..12]) == APP_FLASH_OFFSET
    ensures r[12..] == [INFO_FLAGS, 0, 0, 0]
  {
    var r := U32BE(|image| as bv32) + U32BE(FirmwareCrc(image)) + U32BE(APP_FLASH_OFFSET) + [INFO_FLAGS, 0, 0, 0];
    assert r[0..4] == U32BE(|image| as bv32);
    assert r[4..8] == U32BE(FirmwareCrc(image));
    assert r[8..12] == U32BE(APP_FLASH_OFFSET);
    r
  }

  /** `struct.pack('>IIIIIIBBB5x', len, crc, 0x10000000, 0x400, 0x180000,
      0x80000, 0x01, 0x00, 0x00)`. */
  function GnssInfoPayload(image: seq<Byte>): (r: seq<Byte>)
    requires |image| < MAX_IMAGE
    ensures |r| == 32
    ensures ReadU32BE(r[0..4]) == |image| as bv32
    ensures ReadU32BE(r[4..8]) == FirmwareCrc(image)
    ensures ReadU32BE(r[8..12]) == GNSS_BASE_ADDRESS
    ensures ReadU32BE(r[12..16]) == GNSS_WORD2
    ensures ReadU32BE(r[16..20]) == GNSS_WORD3
    ensures ReadU32BE(r[20..24]) == GNSS_WORD4
    ensures r[24..] == [INFO_FLAGS, 0, 0, 0, 0, 0, 0, 0]
  {
    var r := U32BE(|image| as bv32) + U32BE(FirmwareCrc(image))
      + U32BE(GNSS_BASE_ADDRESS) + U32BE(GNSS_WORD2) + U32BE(GNSS_WORD3) + U32BE(GNSS_WORD4)
      + [INFO_FLAGS, 0, 0] + [0, 0, 0, 0, 0];
    assert r[0..4] == U32BE(|image| as bv32);
    assert r[4..8] == U32BE(FirmwareCrc(image));
    assert r[8..12] == U32BE(GNSS_BASE_ADDRESS);
    assert r[12..16] == U32BE(GNSS_WORD2);
    assert r[16..20] == U32BE(GNSS_WORD3);
    assert r[20..24] == U32BE(GNSS_WORD4);
    r
  }

  /** `encode_app_info`: the application's info struct as a class-0x02
      firmware-info frame. */
  function EncodeAppInfo(image: seq<Byte>): (r: seq<Byte>)
    requires |image| < MAX_IMAGE
    ensures |r| == 16 + OVERHEAD
    ensures r[1] == CLASS_APP && r[2] == MSG_FIRMWARE_INFO && r[5..21] == AppInfoPayload(image)
  {
    EncodeMessage(CLASS_APP, MSG_FIRMWARE_INFO, AppInfoPayload(image))
  }

  /** `encode_gnss_info`: the GNSS receiver's info struct as a class-0x01
      firmware-info frame. */
  function EncodeGnssInfo(image: seq<Byte>): (r: seq<Byte>)
    requires |image| < MAX_IMAGE
    ensures |r| == 32 + OVERHEAD
    ensures r[1] == CLASS_GNSS && r[2] == MSG_FIRMWARE_INFO && r[5..37] == GnssInfoPayload(image)
  {
    EncodeMessage(CLASS_GNSS, MSG_FIRMWARE_INFO, GnssInfoPayload(image))
  }

  /** The image CRC of the three-byte image 01 02 03 is zlib's CRC-32 of
      03 00 00 00 01 02 03, which is 0x06799CEC. */
  lemma FirmwareCrcGolden()
    ensures FirmwareCrc([0x01, 0x02, 0x03]) == 0x0679_9CEC
  {
    var image: seq<Byte> := [0x01, 0x02, 0x03];
    var s: seq<Byte> := [0x03, 0x00, 0x00, 0x00, 0x01, 0x02, 0x03];
    assert |image| as bv32 == 3;
    assert U32LE(3) == [0x03, 0x00, 0x00, 0x00];
    assert U32LE(|image| as bv32) + image == s;
    assert Crc32(s) == 0x0679_9CEC by {
      CrcGoldenSteps(s);
    }
  }

  lemma CrcGoldenSteps(s: seq<Byte>)
    requires s == [0x03, 0x00, 0x00, 0x00, 0x01, 0x02, 0x03]
    ensures Crc32(s) == 0x0679_9CEC
  {
    assert UpdateByte(0xFFFF_FFFF, 0x03) == 0xB4F4_41C8;
    assert UpdateByte(0xB4F4_41C8, 0x00) == 0x950B_BEC3;
    assert UpdateByte(0x950B_BEC3, 0x00) == 0x02F8_98B4;
    assert UpdateByte(0x02F8_98B4, 0x00) == 0xCC0E_8F0D;
    assert UpdateByte(0xCC0E_8F0D, 0x01) == 0x097A_42A4;
    assert UpdateByte(0x097A_42A4, 0x02) == 0x3FBC_7C9F;
    assert UpdateByte(0x3FBC_7C9F, 0x03) == 0xF986_6313;
    assert Update(0xF986_6313, s[7..]) == 0xF986_6313;
    assert Update(0x3FBC_7C9F, s[6..]) == 0xF986_6313;
    assert Update(0x097A_42A4, s[5..]) == 0xF986_6313;
    assert Update(0xCC0E_8F0D, s[4..]) == 0xF986_6313;
    assert Update(0x02F8_98B4, s[3..]) == 0xF986_6313;
    assert Update(0x950B_BEC3, s[2..]) == 0xF986_6313;
    assert Update(0xB4F4_41C8, s[1..]) == 0xF986_6313;
  }

  /** The length and CRC fields of the image 01 02 03. */
  lemma ImageFieldsGolden()
    ensures U32BE(|[0x01, 0x02, 0x03]| as bv32) == [0x00, 0x00, 0x00, 0x03]
    ensures U32BE(FirmwareCrc([0x01, 0x02, 0x03])) == [0x06, 0x79, 0x9C, 0xEC]
  {
    FirmwareCrcGolden();
  }

  /** The big-endian bytes of the application's flash offset. */
  lemma AppOffsetGolden()
    ensures U32BE(APP_FLASH_OFFSET) == [0x00, 0x02, 0x00, 0x00]
  {
  }

  /** The big-endian bytes of the four GNSS geometry words. */
  lemma GnssWordsGolden()
    ensures U32BE(GNSS_BASE_ADDRESS) == [0x10, 0x00, 0x00, 0x00]
    ensures U32BE(GNSS_WORD2) == [0x00, 0x00, 0x04, 0x00]
    ensures U32BE(GNSS_WORD3) == [0x00, 0x18, 0x00, 0x00]
    ensures U32BE(GNSS_WORD4) == [0x00, 0x08, 0x00, 0x00]
  {
  }

  /** Golden application payload for the image 01 02 03, byte for byte. */
  lemma AppInfoGolden()
    ensures AppInfoPayload([0x01, 0x02, 0x03]) ==
      [0x00, 0x00, 0x00, 0x03, 0x06, 0x79, 0x9C, 0xEC,
       0x00, 0x02, 0x00, 0x00, 0x01, 0x00, 0x00, 0x00]
  {
    ImageFieldsGolden();
    AppOffsetGolden();
  }

  /** Golden GNSS payload for the image 01 02 03, byte for byte. */
  lemma GnssInfoGolden()
    ensures GnssInfoPayload([0x01, 0x02, 0x03]) ==
      [0x00, 0x00, 0x00, 0x03, 0x06, 0x79, 0x9C, 0xEC,
       0x10, 0x00, 0x00, 0x00, 0x00, 0x00, 0x04, 0x00,
       0x00, 0x18, 0x00, 0x00, 0x00, 0x08, 0x00, 0x00,
       0x01, 0x00, 0x00, 0x00, 0x00, 0x00, 0x00, 0x00]
  {
    ImageFieldsGolden();
    GnssWordsGolden();
  }
}
