/** The decision rule of `send_reboot`: the reset request is repeated while
    the device's replies are polled, and the first command response among the
    decoded messages decides the outcome. Encoding the request and decoding
    the replies belong to the FusionEngine client library and are not part of
    this model; each poll is given as the messages the decoder returned. */
module Reboot {
  datatype Option<T> = None | Some(value: T)

  /** A message as decoded from the device: a command response, which carries
      whether its response code is OK, or any other message type. */
  datatype Message = CommandResponse(accepted: bool) | OtherMessage

  /** All decoded messages of a sequence of polls, in arrival order. */
  function Flatten(polls: seq<seq<Message>>): (r: seq<Message>)
  {
    if polls == [] then [] else polls[0] + Flatten(polls[1..])
  }

  lemma {:induction false} FlattenAppend(a: seq<seq<Message>>, b: seq<seq<Message>>)
    ensures Flatten(a + b) == Flatten(a) + Flatten(b)
    decreases |a|
  {
    if a == [] {
      assert a + b == b;
    } else {
      assert (a + b)[1..] == a[1..] + b;
      FlattenAppend(a[1..], b);
    }
  }

  /** The verdict of the first command response, if any arrived. */
  function FirstCommandResponse(msgs: seq<Message>): Option<bool>
  {
    if msgs == [] then None
    else match msgs[0]
      case CommandResponse(accepted) => Some(accepted)
      case OtherMessage => FirstCommandResponse(msgs[1..])
  }

  /** No verdict exactly when no command response is among the messages. */
  lemma {:induction false} NoVerdictIff(msgs: seq<Message>)
    ensures FirstCommandResponse(msgs) == None <==>
      forall i :: 0 <= i < |msgs| ==> !msgs[i].CommandResponse?
  {
    if msgs != [] {
      NoVerdictIff(msgs[1..]);
      if !msgs[0].CommandResponse? {
        forall i | 0 < i < |msgs| ensures msgs[i] == msgs[1..][i - 1] { }
      }
    }
  }

  /** The command response at index `i`, with none before it, decides. */
  lemma {:induction false} FirstResponseDecides(msgs: seq<Message>, i: nat)
    requires i < |msgs| && msgs[i].CommandResponse?
    requires forall j :: 0 <= j < i ==> !msgs[j].CommandResponse?
    ensures FirstCommandResponse(msgs) == Some(msgs[i].accepted)
    decreases i
  {
    if i > 0 {
      assert !msgs[0].CommandResponse?;
      forall j | 0 <= j < i - 1 ensures !msgs[1..][j].CommandResponse? {
        assert msgs[1..][j] == msgs[j + 1];
      }
      FirstResponseDecides(msgs[1..], i - 1);
    }
  }

  /** Messages after a verdict are never looked at; without a verdict the
      later messages decide. */
  lemma {:induction false} VerdictOfAppend(a: seq<Message>, b: seq<Message>)
    ensures FirstCommandResponse(a + b) ==
      if FirstCommandResponse(a).Some? then FirstCommandResponse(a) else FirstCommandResponse(b)
    decreases |a|
  {
    if a == [] {
      assert a + b == b;
    } else {
      assert (a + b)[0] == a[0];
      assert (a + b)[1..] == a[1..] + b;
      VerdictOfAppend(a[1..], b);
    }
  }

  /** The reboot succeeds exactly when the first command response received
      in time says OK; a rejecting response or none at all is a failure. */
  predicate RebootAcknowledged(polls: seq<seq<Message>>) {
    FirstCommandResponse(Flatten(polls)) == Some(true)
  }

  /** `send_reboot`: `polls` holds what each pass of the polling loop decoded
      before the deadline. */
  method SendReboot(polls: seq<seq<Message>>) returns (ok: bool)
    ensures ok == RebootAcknowledged(polls)
  {
    var p := 0;
    while p < |polls|
      invariant p <= |polls|
      invariant FirstCommandResponse(Flatten(polls[..p])) == None
    {
      var messages := polls[p];
      var j := 0;
      assert Flatten(polls[..p]) + messages[..j] == Flatten(polls[..p]);
      while j < |messages|
        invariant j <= |messages|
        invariant FirstCommandResponse(Flatten(polls[..p]) + messages[..j]) == None
      {
        if messages[j].CommandResponse? {
          PollDecides(polls, p, j);
          return messages[j].accepted;
        }
        VerdictOfAppend(Flatten(polls[..p]) + messages[..j], [messages[j]]);
        assert [messages[j]][1..] == [];
        assert Flatten(polls[..p]) + messages[..j + 1] == (Flatten(polls[..p]) + messages[..j]) + [messages[j]];
        j := j + 1;
      }
      PollPasses(polls, p);
      p := p + 1;
    }
    assert polls[..p] == polls;
    ok := false;
  }

  /** A command response at `polls[p][j]`, with no verdict before it, decides
      the whole run. */
  lemma PollDecides(polls: seq<seq<Message>>, p: nat, j: nat)
    requires p < |polls| && j < |polls[p]| && polls[p][j].CommandResponse?
    requires FirstCommandResponse(Flatten(polls[..p]) + polls[p][..j]) == None
    ensures FirstCommandResponse(Flatten(polls)) == Some(polls[p][j].accepted)
  {
    var before := Flatten(polls[..p]) + polls[p][..j];
    var after := polls[p][j..] + Flatten(polls[p + 1..]);
    assert polls == polls[..p] + [polls[p]] + polls[p + 1..];
    FlattenAppend(polls[..p] + [polls[p]], polls[p + 1..]);
    FlattenAppend(polls[..p], [polls[p]]);
    assert Flatten([polls[p]]) == polls[p] + Flatten([]);
    assert polls[p] == polls[p][..j] + polls[p][j..];
    assert Flatten(polls) == before + after;
    VerdictOfAppend(before, after);
    assert after[0] == polls[p][j];
  }

  /** A poll with no command response leaves the run undecided. */
  lemma PollPasses(polls: seq<seq<Message>>, p: nat)
    requires p < |polls|
    requires FirstCommandResponse(Flatten(polls[..p]) + polls[p][..|polls[p]|]) == None
    ensures FirstCommandResponse(Flatten(polls[..p + 1])) == None
  {
    assert polls[..p + 1] == polls[..p] + [polls[p]];
    FlattenAppend(polls[..p], [polls[p]]);
    assert Flatten([polls[p]]) == polls[p] + Flatten([]);
    assert Flatten([polls[p]]) == polls[p];
    assert polls[p][..|polls[p]|] == polls[p];
  }

  /** Polls after the decisive one do not change the outcome. */
  lemma LaterPollsIgnored(polls: seq<seq<Message>>, later: seq<seq<Message>>)
    requires FirstCommandResponse(Flatten(polls)).Some?
    ensures RebootAcknowledged(polls + later) == RebootAcknowledged(polls)
  {
    FlattenAppend(polls, later);
    VerdictOfAppend(Flatten(polls), Flatten(later));
  }

  /** A rejecting response fails the reboot even if an OK follows it. */
  lemma RejectionIsFinal(before: seq<seq<Message>>, after: seq<seq<Message>>)
    requires FirstCommandResponse(Flatten(before)) == None
    ensures !RebootAcknowledged(before + [[CommandResponse(false)]] + after)
  {
    FlattenAppend(before + [[CommandResponse(false)]], after);
    FlattenAppend(before, [[CommandResponse(false)]]);
    assert Flatten([[CommandResponse(false)]]) == [CommandResponse(false)] + Flatten([]);
    assert Flatten([[CommandResponse(false)]]) == [CommandResponse(false)];
    assert FirstCommandResponse([CommandResponse(false)]) == Some(false);
    VerdictOfAppend(Flatten(before), [CommandResponse(false)]);
    VerdictOfAppend(Flatten(before) + [CommandResponse(false)], Flatten(after));
  }
}
