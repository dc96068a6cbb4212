/** The step sequence of `Upgrade`: optional reboot request, handshake, the
    three commands (firmware address, firmware info, start upgrade), each
    answered by one response, then the chunked transfer. Any failure ends the
    session before the next frame is written. */
module Sequencing {
  import opened Bytes
  import opened Frame
  import opened Response
  import opened Transport
  import opened FirmwareInfo
  import opened Sync
  import opened Transfer
  import opened Reboot

  /** Which processor is upgraded: the application or the GNSS receiver. */
  datatype Target = Application | Gnss

  function ClassId(target: Target): Byte {
    match target
    case Application => CLASS_APP
    case Gnss => CLASS_GNSS
  }

  /** The firmware-address command always carries four zero bytes. */
  const ADDRESS_PAYLOAD: seq<Byte> := [0, 0, 0, 0]

  function AddressFrame(target: Target): seq<Byte> {
    EncodeMessage(ClassId(target), MSG_FIRMWARE_ADDRESS, ADDRESS_PAYLOAD)
  }

  function InfoFrame(target: Target, image: seq<Byte>): seq<Byte>
    requires |image| < MAX_IMAGE
  {
    match target
    case Application => EncodeAppInfo(image)
    case Gnss => EncodeGnssInfo(image)
  }

  function StartFrame(target: Target): seq<Byte> {
    EncodeMessage(ClassId(target), MSG_START_UPGRADE, [])
  }

  /** The three commands sent after the handshake, in order. */
  function CommandFrames(target: Target, image: seq<Byte>): (r: seq<seq<Byte>>)
    requires |image| < MAX_IMAGE
    ensures |r| == 3
  {
    [AddressFrame(target), InfoFrame(target, image), StartFrame(target)]
  }

  /** Every frame the session sends after the handshake: the commands, then
      the image's chunk frames. */
  function SessionFrames(target: Target, image: seq<Byte>): seq<seq<Byte>>
    requires |image| < MAX_IMAGE
  {
    CommandFrames(target, image) + ChunkFrames(ClassId(target), image)
  }

  /** The message id of the `k`-th frame sent after the handshake, which its
      response must echo. */
  function StepMessage(k: nat): Byte {
    if k == 0 then MSG_FIRMWARE_ADDRESS
    else if k == 1 then MSG_FIRMWARE_INFO
    else if k == 2 then MSG_START_UPGRADE
    else MSG_SEND_FIRMWARE
  }

  /** The steps of an upgrade, in the order they run. */
  datatype Stage = Rebooting | Synchronizing | SendingAddress | SendingInfo | StartingUpgrade | SendingData

  /** The step that sends the `n`-th frame after the handshake (counting from
      one). */
  function StageOf(n: nat): Stage {
    if n <= 1 then SendingAddress
    else if n == 2 then SendingInfo
    else if n == 3 then StartingUpgrade
    else SendingData
  }

  datatype Outcome = Completed | FailedAt(stage: Stage)

  /** How a session ends, the read results it left unread and the frames it
      wrote, in order. */
  datatype Session = Session(outcome: Outcome, replies: seq<seq<Byte>>, writes: seq<seq<Byte>>)

  /** For each pending read result, cut to the 14 bytes `read(14)` takes,
      whether it is accepted as the response to the frame sent `step + i`-th
      after the handshake. */
  function Verdicts(replies: seq<seq<Byte>>, classId: Byte, step: nat): (r: seq<bool>)
    ensures |r| == |replies|
  {
    seq(|replies|, i requires 0 <= i < |replies| =>
      CheckResponse(Take(replies[i], RESPONSE_SIZE), classId, StepMessage(step + i)) == Accepted)
  }

  /** Sending `frames` one at a time, each answered by one response, after
      `sent` frames already went out: the session ends at the step whose
      response was rejected, or completes. */
  function Exchange(frames: seq<seq<Byte>>, acks: seq<bool>, replies: seq<seq<Byte>>, sent: nat): Session {
    var o := SendFrames(frames, acks, replies);
    Session(if o.ok then Completed else FailedAt(StageOf(sent + |o.writes|)), o.replies, o.writes)
  }

  /** The step sequence of `Upgrade`, given how its parts went: whether the
      reboot request (if any) was acknowledged, the handshake's run from the
      pending `replies`, the frames sent after it and the verdicts on their
      responses. Each step runs only if the one before it succeeded. */
  function Steps(rebooted: bool, replies: seq<seq<Byte>>, sync: Run, frames: seq<seq<Byte>>, acks: seq<bool>): Session {
    if !rebooted then Session(FailedAt(Rebooting), replies, [])
    else if !sync.ok then Session(FailedAt(Synchronizing), sync.replies, sync.writes)
    else
      var commands := Exchange(frames, acks, sync.replies, 0);
      commands.(writes := sync.writes + commands.writes)
  }

  /** The whole session on the scripted replies. `rebootPolls` is what the
      reboot request's polling loop decoded; `rounds` is how many handshake
      passes fit before its deadline. */
  function UpgradeSession(target: Target, image: seq<Byte>, shouldReboot: bool,
                          rebootPolls: seq<seq<Message>>, rounds: nat, replies: seq<seq<Byte>>): Session
    requires |image| < MAX_IMAGE
  {
    var sync := SyncLoop(INITIAL_WINDOW, replies, rounds);
    Steps(!shouldReboot || RebootAcknowledged(rebootPolls), replies, sync,
      SessionFrames(target, image), Verdicts(sync.replies, ClassId(target), 0))
  }

  /** Counterpart of `Transport.Leads` for sessions: what has been written,
      followed by what `rest` still writes, is what `goal` writes. */
  ghost predicate Ahead(written: seq<seq<Byte>>, rest: Session, written0: seq<seq<Byte>>, goal: Session) {
    rest.outcome == goal.outcome && rest.replies == goal.replies && written + rest.writes == written0 + goal.writes
  }

  /** Past the reboot request and the handshake, the session is the exchange
      of the frames, preceded by the handshake's writes. */
  lemma AfterHandshake(replies: seq<seq<Byte>>, sync: Run, frames: seq<seq<Byte>>, acks: seq<bool>,
                       written0: seq<seq<Byte>>)
    requires sync.ok
    ensures Ahead(written0 + sync.writes, Exchange(frames, acks, sync.replies, 0), written0,
      Steps(true, replies, sync, frames, acks))
  {
    var commands := Exchange(frames, acks, sync.replies, 0);
    assert (written0 + sync.writes) + commands.writes == written0 + (sync.writes + commands.writes);
  }

  /** One step of the exchange: write the next frame, read one response;
      accepted, the exchange goes on with the remaining frames, otherwise the
      session ends at this step. */
  lemma ExchangeStep(frames: seq<seq<Byte>>, replies: seq<seq<Byte>>, classId: Byte, sent: nat,
                     accepted: bool, written: seq<seq<Byte>>, written0: seq<seq<Byte>>, goal: Session)
    requires frames != []
    requires Ahead(written, Exchange(frames, Verdicts(replies, classId, sent), replies, sent), written0, goal)
    requires accepted == (replies != [] && Verdicts(replies, classId, sent)[0])
    ensures accepted ==> Ahead(written + [frames[0]],
      Exchange(frames[1..], Verdicts(Drop(replies, 1), classId, sent + 1), Drop(replies, 1), sent + 1), written0, goal)
    ensures !accepted ==>
      goal.outcome == FailedAt(StageOf(sent + 1)) && goal.replies == Drop(replies, 1)
      && written + [frames[0]] == written0 + goal.writes
  {
    var acks := Verdicts(replies, classId, sent);
    if accepted {
      var o := SendFrames(frames[1..], acks[1..], Drop(replies, 1));
      assert SendFrames(frames, acks, replies) == AfterWrite(frames[0], o);
      assert written + ([frames[0]] + o.writes) == (written + [frames[0]]) + o.writes;
      VerdictsRest(replies, classId, sent);
    } else {
      assert SendFrames(frames, acks, replies) == Run(false, Drop(replies, 1), [frames[0]]);
    }
  }

  /** The verdicts after the first read result are those of the remaining
      results, one step further on. */
  lemma VerdictsRest(replies: seq<seq<Byte>>, classId: Byte, sent: nat)
    requires replies != []
    ensures Verdicts(Drop(replies, 1), classId, sent + 1) == Verdicts(replies, classId, sent)[1..]
  {
    assert Drop(replies, 1) == replies[1..];
  }

  /** Writing one command frame and reading its response: whether it was
      accepted is the verdict on the first pending read result. */
  method SendCommand(port: SerialPort, frame: seq<Byte>, classId: Byte, step: nat) returns (accepted: bool)
    modifies port
    ensures port.written == old(port.written) + [frame]
    ensures port.replies == Drop(old(port.replies), 1)
    ensures accepted == (old(port.replies) != [] && Verdicts(old(port.replies), classId, step)[0])
  {
    port.Write(frame);
    accepted := GetResponse(port, classId, StepMessage(step));
  }

  /** With `written` on the wire and `replies` pending, the rest of the
      session `goal` is the exchange of `frames`, the first of which is the
      one sent `sent + 1`-th after the handshake. */
  ghost predicate Resumes(written: seq<seq<Byte>>, replies: seq<seq<Byte>>, frames: seq<seq<Byte>>, classId: Byte,
                          sent: nat, written0: seq<seq<Byte>>, goal: Session) {
    Ahead(written, Exchange(frames, Verdicts(replies, classId, sent), replies, sent), written0, goal)
  }

  /** One command of the session: `frame`, the next of `frames`, is written
      and its response read. Accepted, the rest of the session is the
      exchange of the remaining frames; rejected, the session ends here. */
  method Command(port: SerialPort, frame: seq<Byte>, ghost frames: seq<seq<Byte>>, classId: Byte, sent: nat,
                 ghost written0: seq<seq<Byte>>, ghost goal: Session) returns (accepted: bool)
    requires frames != [] && frames[0] == frame
    requires Resumes(port.written, port.replies, frames, classId, sent, written0, goal)
    modifies port
    ensures accepted ==> Resumes(port.written, port.replies, frames[1..], classId, sent + 1, written0, goal)
    ensures !accepted ==>
      && goal.outcome == FailedAt(StageOf(sent + 1))
      && port.replies == goal.replies
      && port.written == written0 + goal.writes
  {
    ghost var replies := port.replies;
    ghost var written := port.written;
    accepted := SendCommand(port, frame, classId, sent);
    ExchangeStep(frames, replies, classId, sent, accepted, written, written0, goal);
  }

  /** From the fourth frame on, responses are checked as the transfer
      checks them. */
  lemma VerdictsOfTransfer(replies: seq<seq<Byte>>, classId: Byte)
    ensures Verdicts(replies, classId, 3) == Acks(replies, classId)
  {
  }

  /** The transfer ends the session. */
  lemma ExchangeDone(classId: Byte, image: seq<Byte>, replies: seq<seq<Byte>>,
                     written: seq<seq<Byte>>, written0: seq<seq<Byte>>, goal: Session)
    requires |image| <= MAX_TRANSFER
    requires Ahead(written, Exchange(ChunkFrames(classId, image), Acks(replies, classId), replies, 3), written0, goal)
    ensures var data := Transfer.Transfer(classId, image, replies);
      && (goal.outcome == Completed <==> data.ok)
      && goal.replies == data.replies
      && written + data.writes == written0 + goal.writes
  {
  }

  /** The last step of the session: the image is sent chunk by chunk, and
      the session completes exactly when every chunk is acknowledged. */
  method SendData(port: SerialPort, classId: Byte, image: seq<Byte>, ghost written0: seq<seq<Byte>>, ghost goal: Session)
    returns (ok: bool)
    requires |image| <= MAX_TRANSFER
    requires Resumes(port.written, port.replies, ChunkFrames(classId, image), classId, 3, written0, goal)
    modifies port
    ensures ok == (goal.outcome == Completed)
    ensures port.replies == goal.replies && port.written == written0 + goal.writes
  {
    ghost var replies, written := port.replies, port.written;
    VerdictsOfTransfer(replies, classId);
    ok := SendFirmware(port, classId, image);
    ExchangeDone(classId, image, replies, written, written0, goal);
  }

  /** The part of `Upgrade` after the handshake: the three commands, each
      answered by one response, then the transfer. `goal` is the session the
      frames already written (`written0` before the handshake) belong to. */
  method Commands(port: SerialPort, classId: Byte, image: seq<Byte>, address: seq<Byte>, info: seq<Byte>,
                  start: seq<Byte>, ghost frames: seq<seq<Byte>>, ghost written0: seq<seq<Byte>>, ghost goal: Session)
    returns (ok: bool)
    requires |image| <= MAX_TRANSFER
    requires frames == [address, info, start] + ChunkFrames(classId, image)
    requires Resumes(port.written, port.replies, frames, classId, 0, written0, goal)
    modifies port
    ensures ok == (goal.outcome == Completed)
    ensures port.replies == goal.replies && port.written == written0 + goal.writes
  {
    var accepted := Command(port, address, frames, classId, 0, written0, goal);
    if !accepted {
      return false;
    }
    accepted := Command(port, info, frames[1..], classId, 1, written0, goal);
    if !accepted {
      return false;
    }
    accepted := Command(port, start, frames[2..], classId, 2, written0, goal);
    if !accepted {
      return false;
    }
    assert frames[2..][1..] == ChunkFrames(classId, image);
    ok := SendData(port, classId, image, written0, goal);
  }

  /** `Upgrade`: true exactly when the session completes. After a completed
      transfer the probe for the restarted software (`probePolls`) is only
      reported, so it cannot change the result; a failed transfer returns
      false. */
  method Upgrade(port: SerialPort, target: Target, image: seq<Byte>, shouldReboot: bool,
                 rebootPolls: seq<seq<Message>>, probePolls: seq<seq<Message>>, rounds: nat)
    returns (ok: bool)
    requires |image| < MAX_IMAGE
    modifies port
    ensures var s := UpgradeSession(target, image, shouldReboot, rebootPolls, rounds, old(port.replies));
      && ok == (s.outcome == Completed)
      && port.replies == s.replies
      && port.written == old(port.written) + s.writes
  {
    ghost var goal := UpgradeSession(target, image, shouldReboot, rebootPolls, rounds, port.replies);
    ghost var written0 := port.written;
    var classId := ClassId(target);
    if shouldReboot {
      var rebooted := SendReboot(rebootPolls);
      if !rebooted {
        return false;
      }
    }
    var synced := Synchronize(port, rounds);
    if !synced {
      return false;
    }
    ghost var sync := SyncLoop(INITIAL_WINDOW, old(port.replies), rounds);
    AfterHandshake(old(port.replies), sync, SessionFrames(target, image), Verdicts(sync.replies, classId, 0), written0);
    ok := Commands(port, classId, image, AddressFrame(target), InfoFrame(target, image), StartFrame(target),
      SessionFrames(target, image), written0, goal);
    if ok && shouldReboot {
      // A no-op reset request waits for the new software to answer; its
      // outcome is only reported.
      var started := SendReboot(probePolls);
    }
  }
}
