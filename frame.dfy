/** The bootloader frame: `0xAA, class, message, u16-BE payload length,
    payload, u32-BE CRC-32 of class..payload, 0x55`. */
module Frame {
  import opened Bytes
  import opened Crc

  const HEADER: Byte := 0xAA
  const TAIL: Byte := 0x55

  const CLASS_GNSS: Byte := 0x01
  const CLASS_APP: Byte := 0x02

  const MSG_FIRMWARE_ADDRESS: Byte := 0x01
  const MSG_FIRMWARE_INFO: Byte := 0x02
  const MSG_START_UPGRADE: Byte := 0x03
  const MSG_SEND_FIRMWARE: Byte := 0x04

  /** Bytes a frame adds around its payload. */
  const OVERHEAD: nat := 10

  /** Builds the outbound frame. The length field is a `struct.pack('>H')`,
      so the payload must be shorter than 65536 bytes. */
  function EncodeMessage(classId: Byte, msgId: Byte, payload: seq<Byte>): (r: seq<Byte>)
    requires |payload| < 0x1_0000
    ensures |r| == |payload| + OVERHEAD
    ensures r[0] == HEADER && r[1] == classId && r[2] == msgId && r[|r| - 1] == TAIL
    ensures r[5..5 + |payload|] == payload
  {
    var data := [classId, msgId] + U16BE(|payload| as bv16) + payload;
    var frame := [HEADER] + data + U32BE(Crc32(data)) + [TAIL];
    assert frame[5..5 + |payload|] == payload;
    frame
  }

  /** The frame read back field by field: header, class id, message id, the
      big-endian length, the payload, the big-endian CRC-32 of everything
      from the class id to the end of the payload, and the tail. */
  lemma EncodeMessageLayout(classId: Byte, msgId: Byte, payload: seq<Byte>)
    requires |payload| < 0x1_0000
    ensures var r := EncodeMessage(classId, msgId, payload);
      && |r| == |payload| + OVERHEAD
      && r[0] == HEADER && r[1] == classId && r[2] == msgId
      && ReadU16BE(r[3..5]) == |payload| as bv16
      && r[5..5 + |payload|] == payload
      && ReadU32BE(r[5 + |payload|..9 + |payload|]) == Crc32(r[1..5 + |payload|])
      && r[|r| - 1] == TAIL
  {
    var len := U16BE(|payload| as bv16);
    var data := [classId, msgId] + len + payload;
    var crc := U32BE(Crc32(data));
    var frame := [HEADER] + data + crc + [TAIL];
    assert frame[1..5 + |payload|] == data;
    assert frame[3..5] == len;
    assert frame[5 + |payload|..9 + |payload|] == crc;
  }
}
