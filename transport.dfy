/** The serial link, as a script. The bootloader session only ever writes
    whole buffers and reads up to `n` bytes with a timeout; the model replaces
    the device by the sequence of results its reads will return, in order. */
module Transport {
  import opened Bytes

  /** The result of one `read(n)` on a port whose pending read results are
      `replies`, and the results left afterwards. A scripted result is cut to
      `n` bytes; an empty result stands for a timeout; once the script is
      exhausted every read times out. */
  function Next(replies: seq<seq<Byte>>, n: nat): (r: (seq<Byte>, seq<seq<Byte>>))
    ensures |r.0| <= n
    ensures replies == [] ==> r == ([], [])
    ensures replies != [] ==> r.0 == Take(replies[0], n) && r.1 == replies[1..]
  {
    if replies == [] then ([], []) else (Take(replies[0], n), replies[1..])
  }

  /** The results left after `k` reads. */
  function Drop(replies: seq<seq<Byte>>, k: nat): seq<seq<Byte>> {
    replies[Min(k, |replies|)..]
  }

  /** How a protocol step that talks over the port ends: its result, the
      read results it left unread and what it wrote, in order. */
  datatype Run = Run(ok: bool, replies: seq<seq<Byte>>, writes: seq<seq<Byte>>)

  function AfterWrite(data: seq<Byte>, r: Run): Run {
    r.(writes := [data] + r.writes)
  }

  /** The rest of a step, from a point where `written` has been written,
      ends as `goal` does for a step that started with `written0` written:
      the loop invariant of every method proved against a `Run`. */
  ghost predicate Leads(written: seq<seq<Byte>>, rest: Run, written0: seq<seq<Byte>>, goal: Run) {
    rest.ok == goal.ok && rest.replies == goal.replies && written + rest.writes == written0 + goal.writes
  }

  /** Writing the first buffer of the rest of a step keeps the invariant. */
  lemma LeadsAfterWrite(written: seq<seq<Byte>>, data: seq<Byte>, rest: Run, written0: seq<seq<Byte>>, goal: Run)
    requires Leads(written, AfterWrite(data, rest), written0, goal)
    ensures Leads(written + [data], rest, written0, goal)
  {
    assert (written + [data]) + rest.writes == written + ([data] + rest.writes);
  }

  /** A step whose rest writes nothing has reached its goal. */
  lemma LeadsDone(written: seq<seq<Byte>>, rest: Run, written0: seq<seq<Byte>>, goal: Run)
    requires Leads(written, rest, written0, goal) && rest.writes == []
    ensures rest.ok == goal.ok && rest.replies == goal.replies && written == written0 + goal.writes
  {
    assert written + rest.writes == written;
  }

  class SerialPort {
    /** What the next reads will return, one entry per read call. */
    var replies: seq<seq<Byte>>
    /** Every buffer written so far, in order. */
    var written: seq<seq<Byte>>

    constructor (script: seq<seq<Byte>>)
      ensures replies == script && written == []
    {
      replies := script;
      written := [];
    }

    method Write(data: seq<Byte>)
      modifies this
      ensures written == old(written) + [data]
      ensures replies == old(replies)
    {
      written := written + [data];
    }

    /** `read(n)`: at most `n` bytes, fewer on a timeout. */
    method Read(n: nat) returns (data: seq<Byte>)
      modifies this
      ensures (data, replies) == Next(old(replies), n)
      ensures written == old(written)
    {
      var r := Next(replies, n);
      data, replies := r.0, r.1;
    }
  }
}
