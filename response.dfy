/** The bootloader's 14-byte reply and the checks `get_response` makes on it:
    three leading bytes, u16-BE payload size (always 4), class id, message id,
    u16-BE response code, u32-BE CRC-32 of bytes 1..8, one trailing byte. */
module Response {
  import opened Bytes
  import opened Crc
  import opened Frame
  import opened Transport

  /** `struct.calcsize('>BBBHBBHIB')`. */
  const RESPONSE_SIZE: nat := 14
  const RESPONSE_PAYLOAD_SIZE: bv16 := 4

  /** Why a reply was refused, or that it was accepted. The first failing
      check, in the order `get_response` makes them, decides. */
  datatype Verdict =
    | Accepted
    | Timeout
    | BadSize(size: bv16)
    | BadClass(classId: Byte)
    | BadMessageId(msgId: Byte)
    | BadCrc(calculated: bv32, received: bv32)
    | Rejected(code: bv16)

  /** The checks on the bytes `read(14)` returned (so at most 14 of them). */
  function CheckResponse(data: seq<Byte>, classId: Byte, msgId: Byte): (v: Verdict)
    requires |data| <= RESPONSE_SIZE
    ensures |data| < RESPONSE_SIZE ==> v == Timeout
  {
    if |data| < RESPONSE_SIZE then Timeout
    else
      var size := ReadU16BE(data[3..5]);
      var code := ReadU16BE(data[7..9]);
      var crc := ReadU32BE(data[9..13]);
      var calculated := Crc32(data[1..9]);
      if size != RESPONSE_PAYLOAD_SIZE then BadSize(size)
      else if data[5] != classId then BadClass(data[5])
      else if data[6] != msgId then BadMessageId(data[6])
      else if crc != calculated then BadCrc(calculated, crc)
      else if code != 0 then Rejected(code)
      else Accepted
  }

  /** A reply is accepted exactly when it is 14 bytes long, announces a
      4-byte payload, names the expected class and message ids, carries the
      CRC-32 of bytes 1..8 in bytes 9..12 and a zero response code. The CRC
      is checked before the code: a reply reported as rejected by the device
      had a good CRC and a non-zero code. */
  lemma CheckResponseSpec(data: seq<Byte>, classId: Byte, msgId: Byte)
    requires |data| <= RESPONSE_SIZE
    ensures CheckResponse(data, classId, msgId) == Accepted <==>
      && |data| == RESPONSE_SIZE
      && ReadU16BE(data[3..5]) == RESPONSE_PAYLOAD_SIZE
      && data[5] == classId
      && data[6] == msgId
      && ReadU32BE(data[9..13]) == Crc32(data[1..9])
      && ReadU16BE(data[7..9]) == 0
    ensures CheckResponse(data, classId, msgId).Rejected? ==>
      ReadU32BE(data[9..13]) == Crc32(data[1..9]) && CheckResponse(data, classId, msgId).code != 0
  {
  }

  /** A reply built with the outbound frame encoder: payload class id,
      message id and response code. */
  function ResponseFrame(classId: Byte, msgId: Byte, code: bv16): seq<Byte> {
    EncodeMessage(classId, msgId, [classId, msgId] + U16BE(code))
  }

  /** A reply built by the encoder is 14 bytes long and is accepted exactly
      for the command it answers when its code is 0; a non-zero code is
      reported as such, and a reply to another command is refused on its
      class or message id. */
  lemma ResponseRoundTrip(classId: Byte, msgId: Byte, code: bv16, expectClass: Byte, expectMsg: Byte)
    ensures |ResponseFrame(classId, msgId, code)| == RESPONSE_SIZE
    ensures CheckResponse(ResponseFrame(classId, msgId, code), expectClass, expectMsg) ==
      if expectClass != classId then BadClass(classId)
      else if expectMsg != msgId then BadMessageId(msgId)
      else if code == 0 then Accepted
      else Rejected(code)
  {
    var payload := [classId, msgId] + U16BE(code);
    var r := ResponseFrame(classId, msgId, code);
    EncodeMessageLayout(classId, msgId, payload);
    assert r[5..9] == payload;
    assert r[7..9] == U16BE(code) by { assert r[7..9] == r[5..9][2..]; }
  }

  /** `get_response`: read one reply and check it against the command just
      sent. */
  method GetResponse(port: SerialPort, classId: Byte, msgId: Byte) returns (ok: bool)
    modifies port
    ensures var (data, rest) := Next(old(port.replies), RESPONSE_SIZE);
      && ok == (CheckResponse(data, classId, msgId) == Accepted)
      && port.replies == rest
    ensures port.written == old(port.written)
  {
    var data := port.Read(RESPONSE_SIZE);
    ok := CheckResponse(data, classId, msgId) == Accepted;
  }
}
