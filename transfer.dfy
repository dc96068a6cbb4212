/** The firmware transfer of `send_firmware`: the image goes out in chunks of
    at most 5120 bytes, each in a send-firmware frame whose payload is the
    chunk's u32 big-endian sequence number followed by the chunk, and each
    chunk must be acknowledged before the next is sent. */
module Transfer {
  import opened Bytes
  import opened Frame
  import opened Response
  import opened Transport

  const PACKET_SIZE: nat := 5120

  /** Sequence numbers are packed with `struct.pack('>I')`, so a transfer
      has at most 2^32 chunks. */
  const MAX_CHUNKS: nat := 0x1_0000_0000
  const MAX_TRANSFER: nat := PACKET_SIZE * MAX_CHUNKS

  /** The number of chunks of an image of `len` bytes: ceil(len / 5120). */
  function NumChunks(len: nat): nat {
    (len + PACKET_SIZE - 1) / PACKET_SIZE
  }

  /** Chunk `i` exists exactly when it starts inside the image. */
  lemma NumChunksSpec(len: nat, i: nat)
    ensures i < NumChunks(len) <==> PACKET_SIZE * i < len
  {
    var n := NumChunks(len);
    assert n * PACKET_SIZE <= len + PACKET_SIZE - 1 < (n + 1) * PACKET_SIZE;
    if i < n {
      assert PACKET_SIZE * i <= PACKET_SIZE * n - PACKET_SIZE;
    } else {
      assert PACKET_SIZE * i >= PACKET_SIZE * n;
    }
  }

  lemma NumChunksBound(len: nat)
    requires len <= MAX_TRANSFER
    ensures NumChunks(len) <= MAX_CHUNKS
  {
    if NumChunks(len) > MAX_CHUNKS {
      NumChunksSpec(len, MAX_CHUNKS);
    }
  }

  /** Chunk `i` of an image: `image[5120*i : 5120*(i+1)]`, Python slice
      semantics (cut at the end of the image). */
  function ChunkAt(image: seq<Byte>, i: nat): (r: seq<Byte>)
    ensures |r| <= PACKET_SIZE
  {
    image[Min(PACKET_SIZE * i, |image|)..Min(PACKET_SIZE * (i + 1), |image|)]
  }

  function Chunks(image: seq<Byte>): seq<seq<Byte>> {
    seq(NumChunks(|image|), i requires 0 <= i => ChunkAt(image, i))
  }

  function Concat(parts: seq<seq<Byte>>): seq<Byte> {
    if parts == [] then [] else parts[0] + Concat(parts[1..])
  }

  /** The chunks split the image: every chunk holds bytes, all but the last
      are full, and put back together they are the image. */
  lemma ChunksSplitImage(image: seq<Byte>)
    ensures |Chunks(image)| == NumChunks(|image|)
    ensures forall i :: 0 <= i < |Chunks(image)| ==> 0 < |Chunks(image)[i]| <= PACKET_SIZE
    ensures forall i :: 0 <= i < |Chunks(image)| - 1 ==> |Chunks(image)[i]| == PACKET_SIZE
    ensures Concat(Chunks(image)) == image
  {
    var cs := Chunks(image);
    forall i | 0 <= i < |cs| ensures 0 < |cs[i]| <= PACKET_SIZE {
      NumChunksSpec(|image|, i);
    }
    forall i | 0 <= i < |cs| - 1 ensures |cs[i]| == PACKET_SIZE {
      NumChunksSpec(|image|, i + 1);
    }
    ChunksFrom(image, 0);
    assert cs[0..] == cs;
  }

  lemma {:induction false} ChunksFrom(image: seq<Byte>, s: nat)
    requires s <= NumChunks(|image|)
    ensures Concat(Chunks(image)[s..]) == image[Min(PACKET_SIZE * s, |image|)..]
    decreases NumChunks(|image|) - s
  {
    var cs := Chunks(image);
    if s == NumChunks(|image|) {
      NumChunksSpec(|image|, s);
      assert cs[s..] == [];
    } else {
      ChunksFrom(image, s + 1);
      assert cs[s..][1..] == cs[s + 1..];
      NumChunksSpec(|image|, s);
    }
  }

  /** The frame that carries chunk `seqNo`. */
  function SendFirmwareFrame(classId: Byte, seqNo: nat, chunk: seq<Byte>): (r: seq<Byte>)
    requires seqNo < MAX_CHUNKS && |chunk| <= PACKET_SIZE
    ensures |r| == |chunk| + 4 + OVERHEAD
    ensures r[1] == classId && r[2] == MSG_SEND_FIRMWARE
  {
    EncodeMessage(classId, MSG_SEND_FIRMWARE, U32BE(seqNo as bv32) + chunk)
  }

  /** The payload of a send-firmware frame: the big-endian sequence number,
      then the chunk. */
  lemma SendFirmwareFrameLayout(classId: Byte, seqNo: nat, chunk: seq<Byte>)
    requires seqNo < MAX_CHUNKS && |chunk| <= PACKET_SIZE
    ensures var r := SendFirmwareFrame(classId, seqNo, chunk);
      ReadU32BE(r[5..9]) == seqNo as bv32 && r[9..9 + |chunk|] == chunk
  {
    var payload := U32BE(seqNo as bv32) + chunk;
    var r := EncodeMessage(classId, MSG_SEND_FIRMWARE, payload);
    assert r[5..9] == r[5..5 + |payload|][..4] == payload[..4];
    assert r[9..9 + |chunk|] == r[5..5 + |payload|][4..] == payload[4..];
  }

  /** Every frame a complete transfer writes, in order. */
  function ChunkFrames(classId: Byte, image: seq<Byte>): (r: seq<seq<Byte>>)
    requires |image| <= MAX_TRANSFER
    ensures |r| == NumChunks(|image|)
  {
    NumChunksBound(|image|);
    seq(NumChunks(|image|), i requires 0 <= i < NumChunks(|image|) => SendFirmwareFrame(classId, i, ChunkAt(image, i)))
  }

  /** Frame `i` of a transfer carries the target's class id, the
      send-firmware message id, sequence number `i` and chunk `i`, and is 14
      bytes longer than the chunk. */
  lemma ChunkFramesLayout(classId: Byte, image: seq<Byte>, i: nat)
    requires |image| <= MAX_TRANSFER && i < NumChunks(|image|)
    ensures var r := ChunkFrames(classId, image)[i];
      && |r| == |ChunkAt(image, i)| + 4 + OVERHEAD
      && r[1] == classId && r[2] == MSG_SEND_FIRMWARE
      && ReadU32BE(r[5..9]) == i as bv32
      && r[9..9 + |ChunkAt(image, i)|] == ChunkAt(image, i)
  {
    NumChunksBound(|image|);
    SendFirmwareFrameLayout(classId, i, ChunkAt(image, i));
  }

  /** For each pending read result, cut to the 14 bytes `read(14)` takes,
      whether it is accepted as the response to a send-firmware frame. A
      read past the end of the script times out and is never accepted. */
  function Acks(replies: seq<seq<Byte>>, classId: Byte): (r: seq<bool>)
    ensures |r| == |replies|
  {
    seq(|replies|, i requires 0 <= i < |replies| =>
      CheckResponse(Take(replies[i], RESPONSE_SIZE), classId, MSG_SEND_FIRMWARE) == Accepted)
  }

  /** The response to frame `i` is accepted, when each earlier frame's
      response took one read. */
  predicate Acked(replies: seq<seq<Byte>>, classId: Byte, i: nat) {
    i < |replies| && Acks(replies, classId)[i]
  }

  /** Reading one response takes the first acknowledgement off the front. */
  lemma AcksFront(replies: seq<seq<Byte>>, classId: Byte)
    ensures var (response, rest) := Next(replies, RESPONSE_SIZE);
      && (CheckResponse(response, classId, MSG_SEND_FIRMWARE) == Accepted <==> Acked(replies, classId, 0))
      && rest == Drop(replies, 1)
      && (replies != [] ==> Acks(rest, classId) == Acks(replies, classId)[1..])
  {
  }

  lemma DropDrop(replies: seq<seq<Byte>>, j: nat, k: nat)
    ensures Drop(Drop(replies, j), k) == Drop(replies, j + k)
  {
  }

  /** The first of the first `n` frames whose response is not accepted, or
      `n` when all of them are. */
  function FirstRejected(acks: seq<bool>, n: nat): (r: nat)
    ensures r <= n
    decreases n
  {
    if n == 0 || acks == [] || !acks[0] then 0
    else 1 + FirstRejected(acks[1..], n - 1)
  }

  lemma {:induction false} FirstRejectedSpec(acks: seq<bool>, n: nat)
    ensures FirstRejected(acks, n) <= |acks|
    ensures forall i :: 0 <= i < FirstRejected(acks, n) ==> acks[i]
    ensures FirstRejected(acks, n) < n ==> !(FirstRejected(acks, n) < |acks| && acks[FirstRejected(acks, n)])
    decreases n
  {
    if n > 0 && acks != [] && acks[0] {
      var tail := acks[1..];
      FirstRejectedSpec(tail, n - 1);
      forall i | 0 < i < FirstRejected(acks, n) ensures acks[i] {
        assert tail[i - 1] == acks[i];
      }
    }
  }

  /** The loop of `send_firmware` over the frames still to send: write the
      next one and read its response (`acks[0]` says whether it is
      accepted, a missing entry is a timeout); stop at the first rejection. */
  function SendFrames(frames: seq<seq<Byte>>, acks: seq<bool>, replies: seq<seq<Byte>>): (r: Run)
    ensures |r.writes| <= |frames| && r.writes == frames[..|r.writes|]
    ensures r.ok ==> r.writes == frames
    decreases |frames|
  {
    if frames == [] then Run(true, replies, [])
    else if acks == [] || !acks[0] then Run(false, Drop(replies, 1), [frames[0]])
    else AfterWrite(frames[0], SendFrames(frames[1..], acks[1..], Drop(replies, 1)))
  }

  /** What `send_firmware` does from a pending script `replies`. */
  function Transfer(classId: Byte, image: seq<Byte>, replies: seq<seq<Byte>>): Run
    requires |image| <= MAX_TRANSFER
  {
    SendFrames(ChunkFrames(classId, image), Acks(replies, classId), replies)
  }

  /** One pass of the loop of `send_firmware` once `sent` chunks are gone:
      the frame it builds from the front of what is left of the image is
      frame `sent`; after writing it and reading one response, the loop
      either stops having done all the transfer does, or goes on as the rest
      of the frames do. */
  lemma {:induction false} LoopStep(classId: Byte, image: seq<Byte>, sent: nat, replies: seq<seq<Byte>>,
                                    written: seq<seq<Byte>>, written0: seq<seq<Byte>>, goal: Run)
    requires |image| <= MAX_TRANSFER && PACKET_SIZE * sent < |image|
    requires Leads(written, SendFrames(ChunkFrames(classId, image)[sent..], Acks(replies, classId), replies), written0, goal)
    ensures sent < MAX_CHUNKS && sent < NumChunks(|image|)
    ensures var remaining := image[PACKET_SIZE * sent..];
      var chunk := Take(remaining, PACKET_SIZE);
      var data := EncodeMessage(classId, MSG_SEND_FIRMWARE, U32BE(sent as bv32) + chunk);
      var (response, rest) := Next(replies, RESPONSE_SIZE);
      && remaining[|chunk|..] == image[Min(PACKET_SIZE * (sent + 1), |image|)..]
      && (CheckResponse(response, classId, MSG_SEND_FIRMWARE) != Accepted ==>
            !goal.ok && rest == goal.replies && written + [data] == written0 + goal.writes)
      && (CheckResponse(response, classId, MSG_SEND_FIRMWARE) == Accepted ==>
            Leads(written + [data], SendFrames(ChunkFrames(classId, image)[sent + 1..], Acks(rest, classId), rest), written0, goal))
  {
    NumChunksSpec(|image|, sent);
    NumChunksBound(|image|);
    var frames := ChunkFrames(classId, image);
    var chunk := Take(image[PACKET_SIZE * sent..], PACKET_SIZE);
    assert chunk == ChunkAt(image, sent);
    var data := frames[sent];
    assert frames[sent..][0] == data && frames[sent..][1..] == frames[sent + 1..];
    var (response, rest) := Next(replies, RESPONSE_SIZE);
    AcksFront(replies, classId);
    if CheckResponse(response, classId, MSG_SEND_FIRMWARE) != Accepted {
      LeadsAfterWrite(written, data, Run(false, rest, []), written0, goal);
      LeadsDone(written + [data], Run(false, rest, []), written0, goal);
    } else {
      LeadsAfterWrite(written, data, SendFrames(frames[sent + 1..], Acks(rest, classId), rest), written0, goal);
    }
  }

  /** `send_firmware`. */
  method SendFirmware(port: SerialPort, classId: Byte, image: seq<Byte>) returns (ok: bool)
    requires |image| <= MAX_TRANSFER
    modifies port
    ensures var o := Transfer(classId, image, old(port.replies));
      ok == o.ok && port.replies == o.replies && port.written == old(port.written) + o.writes
  {
    ghost var written0 := port.written;
    ghost var frames := ChunkFrames(classId, image);
    ghost var goal := Transfer(classId, image, port.replies);
    assert frames[0..] == frames;
    var sequenceNum: nat := 0;
    var remaining := image;
    while |remaining| > 0
      invariant remaining == image[Min(PACKET_SIZE * sequenceNum, |image|)..]
      invariant sequenceNum <= |frames|
      invariant Leads(port.written, SendFrames(frames[sequenceNum..], Acks(port.replies, classId), port.replies), written0, goal)
      decreases |remaining|
    {
      LoopStep(classId, image, sequenceNum, port.replies, port.written, written0, goal);
      var chunk := Take(remaining, PACKET_SIZE);
      var data := EncodeMessage(classId, MSG_SEND_FIRMWARE, U32BE(sequenceNum as bv32) + chunk);
      port.Write(data);
      var accepted := GetResponse(port, classId, MSG_SEND_FIRMWARE);
      if !accepted {
        return false;
      }
      remaining := remaining[|chunk|..];
      sequenceNum := sequenceNum + 1;
    }
    NumChunksSpec(|image|, sequenceNum);
    assert frames[sequenceNum..] == [];
    LeadsDone(port.written, SendFrames([], Acks(port.replies, classId), port.replies), written0, goal);
    return true;
  }

  /** The loop in closed form: it writes the frames up to and including the
      first rejected one (all of them when none is rejected), consumes one
      response per frame written, and succeeds exactly when no frame is
      rejected. */
  lemma {:induction false} SendFramesClosed(frames: seq<seq<Byte>>, acks: seq<bool>, replies: seq<seq<Byte>>)
    ensures var n := |frames|;
      var f := FirstRejected(acks, n);
      var k := if f == n then n else f + 1;
      SendFrames(frames, acks, replies) == Run(f == n, Drop(replies, k), frames[..k])
    decreases |frames|
  {
    if frames != [] {
      if acks != [] && acks[0] {
        var n1 := |frames| - 1;
        var f1 := FirstRejected(acks[1..], n1);
        var k1 := if f1 == n1 then n1 else f1 + 1;
        SendFramesClosed(frames[1..], acks[1..], Drop(replies, 1));
        assert SendFrames(frames, acks, replies) == AfterWrite(frames[0], SendFrames(frames[1..], acks[1..], Drop(replies, 1)));
        assert FirstRejected(acks, |frames|) == 1 + f1;
        DropDrop(replies, 1, k1);
        assert frames[..1 + k1] == [frames[0]] + frames[1..][..k1];
      } else {
        assert SendFrames(frames, acks, replies) == Run(false, Drop(replies, 1), [frames[0]]);
        assert FirstRejected(acks, |frames|) == 0;
        assert frames[..1] == [frames[0]];
      }
    }
  }

  /** All responses accepted: one frame per chunk, every frame of the image
      written in order, and the call returns true. */
  lemma AllAcceptedSendsEveryChunk(classId: Byte, image: seq<Byte>, replies: seq<seq<Byte>>)
    requires |image| <= MAX_TRANSFER
    requires forall i :: 0 <= i < NumChunks(|image|) ==> Acked(replies, classId, i)
    ensures Transfer(classId, image, replies).ok
    ensures Transfer(classId, image, replies).writes == ChunkFrames(classId, image)
    ensures |Transfer(classId, image, replies).writes| == NumChunks(|image|)
  {
    var frames := ChunkFrames(classId, image);
    var acks := Acks(replies, classId);
    SendFramesClosed(frames, acks, replies);
    FirstRejectedSpec(acks, |frames|);
    var f := FirstRejected(acks, |frames|);
    assert f < |frames| ==> Acked(replies, classId, f);
    assert frames[..|frames|] == frames;
  }

  /** The response to chunk `k` is the first one rejected: exactly the frames
      of chunks 0..k were written, and the call returns false. */
  lemma StopsAtFirstRejection(classId: Byte, image: seq<Byte>, replies: seq<seq<Byte>>, k: nat)
    requires |image| <= MAX_TRANSFER && k < NumChunks(|image|)
    requires forall i :: 0 <= i < k ==> Acked(replies, classId, i)
    requires !Acked(replies, classId, k)
    ensures !Transfer(classId, image, replies).ok
    ensures Transfer(classId, image, replies).writes == ChunkFrames(classId, image)[..k + 1]
    ensures |Transfer(classId, image, replies).writes| == k + 1
  {
    var frames := ChunkFrames(classId, image);
    var acks := Acks(replies, classId);
    SendFramesClosed(frames, acks, replies);
    FirstRejectedSpec(acks, |frames|);
    var f := FirstRejected(acks, |frames|);
    assert f < k ==> Acked(replies, classId, f);
  }

  /** The transfer succeeds exactly when every chunk is acknowledged. */
  lemma TransferOkIff(classId: Byte, image: seq<Byte>, replies: seq<seq<Byte>>)
    requires |image| <= MAX_TRANSFER
    ensures Transfer(classId, image, replies).ok <==>
      forall i :: 0 <= i < NumChunks(|image|) ==> Acked(replies, classId, i)
  {
    var frames := ChunkFrames(classId, image);
    var acks := Acks(replies, classId);
    SendFramesClosed(frames, acks, replies);
    FirstRejectedSpec(acks, |frames|);
    var f := FirstRejected(acks, |frames|);
    if f < |frames| {
      assert !Acked(replies, classId, f);
    }
  }

  /** An empty image writes nothing, reads nothing and succeeds. */
  lemma EmptyImage(classId: Byte, replies: seq<seq<Byte>>)
    ensures ChunkFrames(classId, []) == []
    ensures Transfer(classId, [], replies) == Run(true, replies, [])
  {
    assert NumChunks(0) == 0;
  }

  /** Whatever the responses, the frames written are the first frames of the
      image, in order, one response is read per frame, and a successful
      transfer wrote all of them. */
  lemma TransferWritesPrefix(classId: Byte, image: seq<Byte>, replies: seq<seq<Byte>>)
    requires |image| <= MAX_TRANSFER
    ensures var o := Transfer(classId, image, replies);
      && |o.writes| <= NumChunks(|image|)
      && o.writes == ChunkFrames(classId, image)[..|o.writes|]
      && o.replies == Drop(replies, |o.writes|)
      && (o.ok ==> |o.writes| == NumChunks(|image|))
  {
    SendFramesClosed(ChunkFrames(classId, image), Acks(replies, classId), replies);
  }

  /** A failed transfer wrote at least one frame, and the last frame it
      wrote is the one for the first chunk whose response was rejected. */
  lemma TransferFailureWrites(classId: Byte, image: seq<Byte>, replies: seq<seq<Byte>>)
    requires |image| <= MAX_TRANSFER
    requires !Transfer(classId, image, replies).ok
    ensures |Transfer(classId, image, replies).writes| >= 1
    ensures var f := FirstRejected(Acks(replies, classId), NumChunks(|image|));
      && f < NumChunks(|image|) && !Acked(replies, classId, f)
      && |Transfer(classId, image, replies).writes| == f + 1
      && Transfer(classId, image, replies).writes[f] == ChunkFrames(classId, image)[f]
  {
    SendFramesClosed(ChunkFrames(classId, image), Acks(replies, classId), replies);
    FirstRejectedSpec(Acks(replies, classId), NumChunks(|image|));
  }
}
