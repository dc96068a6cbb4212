/** What an upgrade session does, whatever the device answers: the gates
    before the first frame, the order and tagging of the frames, and where a
    rejected response ends the session. The general facts are stated over
    `Steps`, of which `UpgradeSession` is one instance. */
module UpgradeFacts {
  import opened Bytes
  import opened Frame
  import opened Response
  import opened Transport
  import opened FirmwareInfo
  import opened Sync
  import opened Transfer
  import opened Reboot
  import opened Sequencing

  /** The response to the `i`-th frame after the handshake is accepted. */
  predicate AcceptedAt(acks: seq<bool>, i: int) {
    0 <= i < |acks| && acks[i]
  }

  /** The exchange in closed form: it writes the frames up to and including
      the first one whose response is rejected, reads one response per frame
      written, and fails at the step of that frame. */
  lemma ExchangeClosed(frames: seq<seq<Byte>>, acks: seq<bool>, replies: seq<seq<Byte>>, sent: nat)
    ensures var n := |frames|;
      var f := FirstRejected(acks, n);
      var k := if f == n then n else f + 1;
      var e := Exchange(frames, acks, replies, sent);
      && e.writes == frames[..k]
      && e.replies == Drop(replies, k)
      && (e.outcome == Completed <==> f == n)
      && (f < n ==> e.outcome == FailedAt(StageOf(sent + f + 1)))
  {
    SendFramesClosed(frames, acks, replies);
  }

  /** The reboot request and the handshake gate everything else: a failed
      reboot request touches nothing on the port, and a failed handshake has
      written nothing but sync words and read nothing past the handshake. */
  lemma SessionGates(rebooted: bool, replies: seq<seq<Byte>>, rounds: nat, frames: seq<seq<Byte>>, acks: seq<bool>)
    ensures var sync := SyncLoop(INITIAL_WINDOW, replies, rounds);
      var s := Steps(rebooted, replies, sync, frames, acks);
      && (s.outcome == FailedAt(Rebooting) <==> !rebooted)
      && (s.outcome == FailedAt(Rebooting) ==> s.writes == [] && s.replies == replies)
      && (s.outcome == FailedAt(Synchronizing) <==> rebooted && !sync.ok)
      && (s.outcome == FailedAt(Synchronizing) ==> SyncWordsOnly(s.writes) && SuffixOf(s.replies, replies))
  {
    SyncShape(INITIAL_WINDOW, replies, rounds);
  }

  /** Past the handshake, the session writes a prefix of the frames, one
      response read per frame, and stops right after the first frame whose
      response is rejected, failing at that frame's step; it completes
      exactly when every response is accepted, having written every frame. */
  lemma SessionStopsAtFirstRejection(replies: seq<seq<Byte>>, sync: Run, frames: seq<seq<Byte>>, acks: seq<bool>)
    requires sync.ok && frames != []
    ensures var s := Steps(true, replies, sync, frames, acks);
      var k := |s.writes| - |sync.writes|;
      && 1 <= k <= |frames|
      && s.writes == sync.writes + frames[..k]
      && s.replies == Drop(sync.replies, k)
      && (s.outcome == Completed <==> forall i :: 0 <= i < |frames| ==> AcceptedAt(acks, i))
      && (s.outcome == Completed ==> k == |frames|)
      && (s.outcome != Completed ==> s.outcome == FailedAt(StageOf(k)) && !AcceptedAt(acks, k - 1))
    ensures var s := Steps(true, replies, sync, frames, acks);
      forall i :: 0 <= i < |s.writes| - |sync.writes| - 1 ==> AcceptedAt(acks, i)
  {
    var n := |frames|;
    ExchangeClosed(frames, acks, sync.replies, 0);
    FirstRejectedSpec(acks, n);
    var f := FirstRejected(acks, n);
    if f < n {
      assert !AcceptedAt(acks, f);
    }
  }

  /** Every response accepted: the session completes, having written the
      handshake's words and then every frame, one response read per frame. */
  lemma AllAcceptedCompletes(replies: seq<seq<Byte>>, sync: Run, frames: seq<seq<Byte>>, acks: seq<bool>)
    requires sync.ok
    requires forall i :: 0 <= i < |frames| ==> AcceptedAt(acks, i)
    ensures Steps(true, replies, sync, frames, acks) ==
      Session(Completed, Drop(sync.replies, |frames|), sync.writes + frames)
  {
    var n := |frames|;
    ExchangeClosed(frames, acks, sync.replies, 0);
    FirstRejectedSpec(acks, n);
    var f := FirstRejected(acks, n);
    assert f < n ==> AcceptedAt(acks, f);
    assert frames[..n] == frames;
  }

  /** The payloads of the three commands: four zero bytes for the
      firmware address, the target's info struct, nothing for the start
      command. */
  lemma CommandPayloads(target: Target, image: seq<Byte>)
    requires |image| < MAX_IMAGE
    ensures var frames := CommandFrames(target, image);
      && |frames[0]| == 4 + OVERHEAD && frames[0][5..9] == ADDRESS_PAYLOAD
      && (target == Application ==> |frames[1]| == 16 + OVERHEAD && frames[1][5..21] == AppInfoPayload(image))
      && (target == Gnss ==> |frames[1]| == 32 + OVERHEAD && frames[1][5..37] == GnssInfoPayload(image))
      && |frames[2]| == OVERHEAD
  {
  }

  /** Each command carries the target's class id and its own message id. */
  lemma CommandFramesTagged(target: Target, image: seq<Byte>)
    requires |image| < MAX_IMAGE
    ensures var frames := CommandFrames(target, image);
      forall i :: 0 <= i < 3 ==>
        |frames[i]| >= OVERHEAD && frames[i][1] == ClassId(target) && frames[i][2] == StepMessage(i)
  {
    var frames := CommandFrames(target, image);
    var info := InfoFrame(target, image);
    assert frames[1] == info;
    assert |info| >= OVERHEAD && info[1] == ClassId(target) && info[2] == MSG_FIRMWARE_INFO by {
      match target
      case Application =>
      case Gnss =>
    }
  }

  /** Every frame sent after the handshake, the commands and then the
      image's chunks, carries the target's class id and the message id its
      response must echo. */
  lemma SessionFramesTagged(target: Target, image: seq<Byte>)
    requires |image| < MAX_IMAGE
    ensures var frames := SessionFrames(target, image);
      && |frames| == 3 + NumChunks(|image|)
      && forall i :: 0 <= i < |frames| ==>
           |frames[i]| >= OVERHEAD && frames[i][1] == ClassId(target) && frames[i][2] == StepMessage(i)
  {
    var commands := CommandFrames(target, image);
    var chunks := ChunkFrames(ClassId(target), image);
    var frames := commands + chunks;
    CommandFramesTagged(target, image);
    forall i | 0 <= i < |frames|
      ensures |frames[i]| >= OVERHEAD && frames[i][1] == ClassId(target) && frames[i][2] == StepMessage(i)
    {
      if i < 3 {
        assert frames[i] == commands[i];
      } else {
        assert frames[i] == chunks[i - 3];
        ChunkFramesLayout(ClassId(target), image, i - 3);
      }
    }
  }

  /** A response built by the encoder for the frame sent `step + i`-th
      after the handshake, with code 0, is accepted. */
  lemma ResponseFrameAccepted(replies: seq<seq<Byte>>, classId: Byte, step: nat, i: nat)
    requires i < |replies| && replies[i] == ResponseFrame(classId, StepMessage(step + i), 0)
    ensures Verdicts(replies, classId, step)[i]
  {
    ResponseRoundTrip(classId, StepMessage(step + i), 0, classId, StepMessage(step + i));
    assert replies[i][..|replies[i]|] == replies[i];
  }
}
