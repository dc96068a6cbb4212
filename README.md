# LG69T bootloader upgrade protocol, modelled in Dafny

This project models the serial bootloader protocol that the LG69T
firmware tool (`lg69t/firmware_tool.py`) uses to load a new application
or GNSS image into the receiver. It covers:

- the outbound frame: `0xAA`, class id, message id, u16 big-endian
  payload length, payload, u32 big-endian CRC-32 of class id through
  payload, `0x55`;
- the checks on the bootloader's fixed 14-byte reply (`get_response`);
- the two firmware-info structures;
- the `synchronize` handshake;
- the chunked transfer of `send_firmware`;
- the step sequence of `Upgrade`;
- the decision rule of `send_reboot`: the first command response decides.

The device is replaced by a script. `Transport.SerialPort` holds the
results its reads will return, in order, and it logs every buffer
written. Each operation that loops or talks to the port is a method.
Each method is proved against a function that states what the operation
does on any script: `Sync.SyncLoop`, `Transfer.Transfer` and
`Sequencing.UpgradeSession`. The lemmas are stated about those functions.

Facts proved about the model:

- the layouts of the frames and info structures;
- that the reply checker accepts exactly the well-formed, matching,
  CRC-correct, zero-code reply;
- that every reply the frame encoder builds round-trips through that
  checker;
- how the handshake succeeds and fails: it succeeds at the first window
  equal to response word 1 followed by response word 2, whatever noise
  came before and however many reads timed out before or inside response
  word 1 (the window is kept across passes, and each timeout costs one
  more sync word 1), and it times out when no window ever equals response
  word 1. A short answer to sync word 2
  leaves a window shorter than four bytes, and that window never grows
  back, so the rest of that `synchronize` call cannot succeed.
- that the transfer splits the image and writes a prefix of its frames,
  stopping right after the first rejected response;
- for the upgrade session:
  - where each gate stops it;
  - that every frame carries the right class and message ids;
  - that it completes exactly when every response is accepted.

CRC-32 (the zlib/IEEE polynomial, reflected, initial value and final XOR
`0xFFFFFFFF`) is defined bit by bit. Its standard check value for
"123456789" is proved.

The frame adds 10 bytes to its payload: 1 header, 1 class, 1 message,
2 length, 4 CRC and 1 tail.

## Model

| member | source | states |
|---|---|---|
| Bytes.U16BE | lg69t/firmware_tool.py:129 | the `>H` packing is two bytes that read back as the same 16-bit value |
| Bytes.U32BE | lg69t/firmware_tool.py:130 | the `>I` packing is four bytes that read back as the same 32-bit value |
| Bytes.U32LE | lg69t/firmware_tool.py:136 | the `<I` packing is four bytes whose reversal reads back big-endian as the same value |
| Crc.Crc32 | lg69t/firmware_tool.py:130 | zlib's CRC-32, bit by bit; its check value is stated by `Crc.CheckValue` and its use in frames by `Frame.EncodeMessageLayout` |
| Crc.CheckValue | lg69t/firmware_tool.py:130 | the CRC-32 used for frames and images gives zlib's check value 0xCBF43926 on "123456789" |
| Frame.EncodeMessage | lg69t/firmware_tool.py:128-131 | a frame is the payload plus 10 bytes: header 0xAA, class id, message id, the payload at offset 5, tail 0x55 |
| Frame.EncodeMessageLayout | lg69t/firmware_tool.py:128-131 | every field read back: the big-endian length field equals the payload length and the CRC field equals the CRC-32 of bytes 1 through the payload's end |
| Response.CheckResponse | lg69t/firmware_tool.py:91-94 | fewer than 14 bytes read is a timeout |
| Response.CheckResponseSpec | lg69t/firmware_tool.py:86-125 | a reply is accepted if and only if it has 14 bytes, size field 4, the expected class and message ids, CRC field equal to the CRC-32 of bytes 1..8, and code 0; a reply rejected for its code had a good CRC |
| Response.ResponseRoundTrip | lg69t/firmware_tool.py:96-125 | a reply built by the frame encoder is 14 bytes long and is accepted for the command it answers exactly when its code is 0; otherwise it is refused on the class id, the message id or the code, in that order |
| Response.GetResponse | lg69t/firmware_tool.py:86-125 | one `read(14)` is consumed, nothing is written, and the result is true exactly when the checker accepts what was read |
| FirmwareInfo.FirmwareCrc | lg69t/firmware_tool.py:136 | the CRC-32 of the little-endian image length followed by the image; its value on a sample image is stated by `FirmwareInfo.FirmwareCrcGolden` |
| FirmwareInfo.AppInfoPayload | lg69t/firmware_tool.py:135-138 | 16 bytes: the image length, the image CRC (CRC-32 of the little-endian length then the image), flash offset 0x20000, flag 0x01 and three zero pad bytes |
| FirmwareInfo.GnssInfoPayload | lg69t/firmware_tool.py:143-146 | 32 bytes: length, image CRC, the four geometry words 0x10000000, 0x400, 0x180000, 0x80000, flag bytes 01 00 00 and five zero pad bytes |
| FirmwareInfo.EncodeAppInfo | lg69t/firmware_tool.py:134-139 | a 26-byte frame of class 0x02, message 0x02, carrying the application info payload |
| FirmwareInfo.EncodeGnssInfo | lg69t/firmware_tool.py:142-147 | a 42-byte frame of class 0x01, message 0x02, carrying the GNSS info payload |
| FirmwareInfo.FirmwareCrcGolden | lg69t/firmware_tool.py:136 | the image CRC of image 01 02 03 is 0x06799CEC, i.e. the CRC covers the length prefix |
| FirmwareInfo.ImageFieldsGolden | lg69t/firmware_tool.py:136-138 | the length and CRC fields of image 01 02 03, byte for byte |
| FirmwareInfo.AppOffsetGolden | lg69t/firmware_tool.py:36 | the application flash offset 0x20000 as big-endian bytes |
| FirmwareInfo.GnssWordsGolden | lg69t/firmware_tool.py:146 | the four GNSS geometry words as big-endian bytes |
| FirmwareInfo.AppInfoGolden | lg69t/firmware_tool.py:134-139 | the whole application payload for image 01 02 03, byte for byte |
| FirmwareInfo.GnssInfoGolden | lg69t/firmware_tool.py:142-147 | the whole GNSS payload for image 01 02 03, byte for byte |
| Sync.WireBytes | lg69t/firmware_tool.py:18-25 | the sync and response words go on the wire little-endian, as the listed bytes |
| Transport.Next | lg69t/firmware_tool.py:91 | a `read(n)` returns at most `n` bytes: the next scripted result cut to `n`, or nothing (a timeout) once the script is exhausted |
| Sync.SyncLoop | lg69t/firmware_tool.py:72-74 | the outer loop of `synchronize`, one pass per round: write sync word 1 and read one byte; `Sync.Synchronize` is proved equal to it, and `Sync.SyncShape`, `Sync.HandshakeAfterNoise` and `Sync.NoResponseWordNeverSyncs` state its behaviour |
| Sync.ScanLoop | lg69t/firmware_tool.py:75-82 | the inner loop: each byte read slides into the window, and a window equal to response word 1 starts the second exchange; `Sync.SlideToResponseWord1` and `Sync.LoopNeverSyncs` state its behaviour |
| Sync.SecondExchange | lg69t/firmware_tool.py:78-81 | after sync word 2, `read(4)` must return response word 2, or what it returned becomes the window; `Sync.WrongSecondWordFails` and `Sync.ShortSecondReadFails` state its failures |
| Sync.Synchronize | lg69t/firmware_tool.py:68-83 | the method's result, the reads it consumed and the buffers it wrote are those of the handshake function on the same script |
| Sync.LoopNeverSyncs | lg69t/firmware_tool.py:72-83 | once the window is short or no window the pending bytes slide through equals response word 1, the call fails and writes sync word 1 once per remaining pass and nothing else |
| Sync.ShortWindowNeverSyncs | lg69t/firmware_tool.py:76-79 | a window shorter than four bytes dooms the rest of the call |
| Sync.NoResponseWordNeverSyncs | lg69t/firmware_tool.py:68-83 | when no window that the line's bytes slide through equals response word 1, the call times out, having written only sync word 1, once per pass |
| Sync.HeaderFreeBytesNeverMatch | lg69t/firmware_tool.py:75-77 | bytes free of 0xAA, the last byte of response word 1, never complete it |
| Sync.RepeatedHeaderByteNeverSyncs | lg69t/firmware_tool.py:68-83 | a line repeating 0xAA, one byte per read, never syncs |
| Sync.SlideToResponseWord1 | lg69t/firmware_tool.py:75-78 | sliding bytes into the window, sync word 2 is written at the first window equal to response word 1 and not before |
| Sync.HandshakeAfterNoise | lg69t/firmware_tool.py:68-83 | noise through which no window equals response word 1, then response word 1 byte by byte, then response word 2: success in the first pass, writing sync word 1 then sync word 2 and leaving what followed unread |
| Sync.HeaderByteInNoise | lg69t/firmware_tool.py:68-83 | noise holding the header byte 0xAA before response word 1 still gives a successful handshake |
| Sync.HandshakeFromStart | lg69t/firmware_tool.py:68-83 | from the initial zero window, response word 1 then response word 2 is a successful handshake |
| Sync.SyncThroughReads | lg69t/firmware_tool.py:69-82 | reads of at most one byte, any of which may time out, whose bytes complete response word 1 only with the last one, then response word 2: success in the pass after the last timeout, having written sync word 1 once per pass (timeouts + 1 times) and then sync word 2, leaving what followed unread; the window carries over from pass to pass |
| Sync.ScanThroughReads | lg69t/firmware_tool.py:73-80 | the inner loop's part of the same handshake: a timed-out read hands over to the next pass, a byte before the last shifts the window without completing response word 1, and the last byte triggers sync word 2 |
| Sync.CompletesAfterTimeout | lg69t/firmware_tool.py:69-73 | a timed-out read leaves the window as it was, so the bytes still to come complete response word 1 exactly as before |
| Sync.CompletesAfterByte | lg69t/firmware_tool.py:74-75 | a byte that is not the last one shifts the window to a value other than response word 1, and the remaining reads complete it from the shifted window |
| Sync.ResponseWord2Accepted | lg69t/firmware_tool.py:78-80 | response word 2 in one four-byte read ends the handshake successfully, leaving the later replies unread |
| Sync.SilenceThenHandshake | lg69t/firmware_tool.py:68-83 | `k` timed-out reads, then noise through which no window equals response word 1, then response word 1 byte by byte and response word 2: with more than `k` rounds, success after `k + 1` sync words 1 and one sync word 2 |
| Sync.SplitResponseWord1 | lg69t/firmware_tool.py:69-82 | response word 1 split by a timed-out read after its second byte still completes in the second pass, writing sync word 1 twice then sync word 2 |
| Sync.WrongSecondWordFails | lg69t/firmware_tool.py:78-83 | a wrong or missing answer to sync word 2 with nothing after it fails the call |
| Sync.ShortSecondReadFails | lg69t/firmware_tool.py:79-83 | an answer to sync word 2 shorter than four bytes fails the call whatever the device sends afterwards |
| Sync.SyncShape | lg69t/firmware_tool.py:68-83 | every write is a sync word and only unread results are left; on success the last read began with response word 2, and the writes start with sync word 1 and end with sync word 2 |
| Transfer.NumChunksSpec | lg69t/firmware_tool.py:153-160 | chunk i exists exactly when it starts inside the image |
| Transfer.NumChunksBound | lg69t/firmware_tool.py:154-155 | an image within the transfer bound has at most 2^32 chunks, so every sequence number fits `>I` |
| Transfer.ChunkAt | lg69t/firmware_tool.py:155 | a chunk is at most 5120 bytes |
| Transfer.ChunksSplitImage | lg69t/firmware_tool.py:153-160 | the chunks are non-empty, all but the last are full, and concatenated they are the image |
| Transfer.SendFirmwareFrame | lg69t/firmware_tool.py:154-155 | a send-firmware frame is 14 bytes longer than its chunk and carries the class id and message 0x04 |
| Transfer.SendFirmwareFrameLayout | lg69t/firmware_tool.py:154-155 | its payload is the big-endian sequence number followed by the chunk |
| Transfer.ChunkFrames | lg69t/firmware_tool.py:153-161 | one frame per chunk |
| Transfer.ChunkFramesLayout | lg69t/firmware_tool.py:154-161 | frame i carries class id, message 0x04, sequence number i and chunk i |
| Transfer.SendFrames | lg69t/firmware_tool.py:153-161 | the loop over the frames, one response per frame, stopping at the first rejection: it writes a prefix of the frames, and all of them when it succeeds; `Transfer.SendFramesClosed` gives its closed form |
| Transfer.Transfer | lg69t/firmware_tool.py:150-165 | what `send_firmware` does on a script: the chunk frames sent against the verdicts on the pending reads; `Transfer.TransferOkIff`, `Transfer.StopsAtFirstRejection` and `Transfer.TransferWritesPrefix` state its behaviour |
| Transfer.LoopStep | lg69t/firmware_tool.py:153-161 | one pass of the loop: the frame it builds from the rest of the image is frame i of the transfer, and the loop either stops as the transfer does or continues on the remaining frames |
| Transfer.SendFirmware | lg69t/firmware_tool.py:150-165 | the method's result, reads consumed and buffers written are those of the transfer function on the same script |
| Transfer.SendFramesClosed | lg69t/firmware_tool.py:153-161 | the loop writes the frames up to and including the first rejected one, consumes one read per frame written, and succeeds exactly when none is rejected |
| Transfer.AllAcceptedSendsEveryChunk | lg69t/firmware_tool.py:150-165 | every response accepted: every frame is written in order and the call returns true |
| Transfer.StopsAtFirstRejection | lg69t/firmware_tool.py:156-159 | the first rejection at chunk k: exactly frames 0..k are written and the call returns false |
| Transfer.TransferOkIff | lg69t/firmware_tool.py:150-165 | the transfer succeeds if and only if every chunk's response is accepted |
| Transfer.EmptyImage | lg69t/firmware_tool.py:153-165 | an empty image writes nothing, reads nothing and succeeds |
| Transfer.TransferWritesPrefix | lg69t/firmware_tool.py:150-165 | whatever the responses, the writes are a prefix of the image's frames, one read per frame, and all of them on success |
| Transfer.TransferFailureWrites | lg69t/firmware_tool.py:156-159 | a failed transfer wrote at least one frame, and exactly the frames up to and including the first chunk whose response was rejected, the last of them being that chunk's frame |
| Reboot.FirstCommandResponse | lg69t/firmware_tool.py:58-64 | the verdict of the first command response among the messages, if any; stated by `Reboot.NoVerdictIff`, `Reboot.FirstResponseDecides` and `Reboot.VerdictOfAppend` |
| Reboot.RebootAcknowledged | lg69t/firmware_tool.py:45-65 | the reboot succeeds exactly when the first command response received says OK; `Reboot.SendReboot` is proved equal to it |
| Reboot.NoVerdictIff | lg69t/firmware_tool.py:58-64 | no verdict exactly when no command response arrived |
| Reboot.FirstResponseDecides | lg69t/firmware_tool.py:58-64 | the first command response's code decides the verdict |
| Reboot.VerdictOfAppend | lg69t/firmware_tool.py:52-65 | messages after a verdict are ignored; without one the later messages decide |
| Reboot.SendReboot | lg69t/firmware_tool.py:45-65 | true exactly when the first command response among all decoded messages says OK |
| Reboot.PollDecides | lg69t/firmware_tool.py:57-64 | a command response in a poll, with none before it, decides the whole run |
| Reboot.PollPasses | lg69t/firmware_tool.py:52-58 | a poll with no command response leaves the run undecided |
| Reboot.LaterPollsIgnored | lg69t/firmware_tool.py:58-64 | polls after the decisive one do not change the outcome |
| Reboot.RejectionIsFinal | lg69t/firmware_tool.py:59-64 | a rejecting response fails the reboot even if an OK follows it |
| Sequencing.CommandFrames | lg69t/firmware_tool.py:199-216 | three commands are sent after the handshake |
| Sequencing.Steps | lg69t/firmware_tool.py:181-221 | the step sequence given how each part went: reboot gate, handshake gate, then the frames each answered by one response; `UpgradeFacts.SessionGates`, `UpgradeFacts.SessionStopsAtFirstRejection` and `UpgradeFacts.AllAcceptedCompletes` state its behaviour |
| Sequencing.UpgradeSession | lg69t/firmware_tool.py:173-237 | the whole session on a script, as `Sequencing.Steps` over the handshake's run, the session's frames and the verdicts on the reads after the handshake; `Sequencing.Upgrade` is proved equal to it |
| Sequencing.AfterHandshake | lg69t/firmware_tool.py:192-199 | past the reboot and the handshake, the session is the frame exchange preceded by the handshake's writes |
| Sequencing.ExchangeStep | lg69t/firmware_tool.py:199-218 | writing the next frame and reading one response either continues the exchange with the remaining frames or ends the session at this frame's step |
| Sequencing.SendCommand | lg69t/firmware_tool.py:199-201 | the frame is written, one read is consumed, and the result is the verdict on that read |
| Sequencing.Command | lg69t/firmware_tool.py:199-218 | one command: accepted, the rest of the session is the remaining exchange; rejected, the session failed at this step with exactly what has been written and read |
| Sequencing.VerdictsOfTransfer | lg69t/firmware_tool.py:157 | from the fourth frame on, a response is checked as the transfer checks it |
| Sequencing.ExchangeDone | lg69t/firmware_tool.py:220-237 | the exchange of the chunk frames ends the session as the transfer ends |
| Sequencing.SendData | lg69t/firmware_tool.py:220-221 | the session completes exactly when the transfer succeeds, with the transfer's writes and reads |
| Sequencing.Commands | lg69t/firmware_tool.py:198-221 | the three commands then the transfer: true exactly when the session completes, with the session's writes and reads |
| Sequencing.Upgrade | lg69t/firmware_tool.py:173-237 | true exactly when the session completes; the reads consumed and buffers written are the session's, whatever the final probe reports |
| UpgradeFacts.ExchangeClosed | lg69t/firmware_tool.py:198-221 | the exchange writes the frames up to the first rejected one, reads one response per frame and fails at that frame's step |
| UpgradeFacts.SessionGates | lg69t/firmware_tool.py:181-194 | the session fails at the reboot exactly when the requested reboot was not acknowledged, having written no bootloader frame and consumed no scripted read; it fails at the handshake exactly when that fails, having written only sync words |
| UpgradeFacts.SessionStopsAtFirstRejection | lg69t/firmware_tool.py:198-221 | past the handshake the session writes a prefix of its frames, one read per frame, every earlier response accepted; it completes if and only if every response is accepted, and otherwise fails at the step of the frame whose response was rejected |
| UpgradeFacts.AllAcceptedCompletes | lg69t/firmware_tool.py:198-237 | every response accepted: the session completes having written the handshake and then every frame |
| UpgradeFacts.CommandPayloads | lg69t/firmware_tool.py:199-216 | the address command carries four zero bytes, the info command the target's info struct, the start command nothing |
| UpgradeFacts.CommandFramesTagged | lg69t/firmware_tool.py:175-217 | each command carries the target's class id and its own message id |
| UpgradeFacts.SessionFramesTagged | lg69t/firmware_tool.py:175-221 | every frame after the handshake carries the target's class id and the message id its response must echo |
| UpgradeFacts.ResponseFrameAccepted | lg69t/firmware_tool.py:201 | a zero-code reply built by the encoder for the step's class and message ids is accepted at that step |

## Left out

- The serial link is a script of read results. Each `read(n)` takes
  one scripted result and cuts it to `n` bytes. Bytes that a real port
  would keep buffered past that cut are not modelled, and an exhausted
  script reads as timeouts.
- Wall-clock deadlines are replaced by counts. `synchronize` gets a
  number of outer passes (`rounds`), since its deadline is checked only
  by the outer loop. A line that keeps delivering bytes with no read ever
  timing out therefore keeps the inner loop going past the deadline
  without bound, and a finite script cannot show that unbounded case.
  `send_reboot` gets the sequence of
  decoded-message batches its polling loop saw before the deadline.
- `send_reboot`: building and encoding the FusionEngine reset request
  and decoding replies belong to the FusionEngine client library, which
  is not part of this model. The reset request's writes, the `flush` and
  the `read_all` calls are therefore not on the modelled port. Its
  decision rule is modelled on the decoded messages.
- The reboot flag argument and the final no-op probe after a completed
  upgrade have no effect on the result: the probe's outcome is only
  reported.
- `print_bytes`, `extract_fw_files`, the command-line `main`, progress
  and status printing, `input()` prompts and `sys.exit` are not modelled.
  The same goes for opening and closing the serial port and its baud rate
  and timeout settings.
- The image is a parameter. `bin_file.read()` is not modelled. Upgrade
  computes the three command frames before the address command goes
  out, where the source builds the info frame after the address response.
  The frames are pure values, so what is written and in which order are
  unchanged.
- Sequencing.Upgrade: the source returns `None` after a failed transfer.
  The model returns false, which is how callers treat it.
- `struct.pack` range errors become preconditions:
  - a frame payload must be shorter than 65536 bytes;
  - the image must be shorter than 2^32 bytes;
  - a transfer must have at most 2^32 chunks.
- The `Stage` labels of a failed session are a model addition that
  records which step failed. The source only prints it.
