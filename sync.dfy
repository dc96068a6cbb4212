/** The bootloader's two-step synchronization handshake, as `synchronize`
    runs it: keep writing sync word 1 while sliding every inbound byte into a
    4-byte window; when the window holds response word 1, write sync word 2
    and read four bytes, which must be response word 2. */
module Sync {
  import opened Bytes
  import opened Transport

  const SYNC_WORD1: bv32 := 0x514C_1309
  const RSP_WORD1: bv32 := 0xAAFC_3A4D
  const SYNC_WORD2: bv32 := 0x1203_A504
  const RSP_WORD2: bv32 := 0x55FD_5BA0

  /** The words go on the wire little-endian (`struct.pack('<I')`). */
  const SYNC1: seq<Byte> := U32LE(SYNC_WORD1)
  const RSP1: seq<Byte> := U32LE(RSP_WORD1)
  const SYNC2: seq<Byte> := U32LE(SYNC_WORD2)
  const RSP2: seq<Byte> := U32LE(RSP_WORD2)

  /** The window a call starts with: four zero bytes. */
  const INITIAL_WINDOW: seq<Byte> := [0, 0, 0, 0]

  lemma WireBytes()
    ensures SYNC1 == [0x09, 0x13, 0x4C, 0x51]
    ensures RSP1 == [0x4D, 0x3A, 0xFC, 0xAA]
    ensures SYNC2 == [0x04, 0xA5, 0x03, 0x12]
    ensures RSP2 == [0xA0, 0x5B, 0xFD, 0x55]
  {
  }

  /** `resp_data[1:] + c`; the slice of an empty window is empty. */
  function Shift(window: seq<Byte>, c: seq<Byte>): seq<Byte> {
    (if |window| == 0 then [] else window[1..]) + c
  }

  /** The outer loop, at its test, with `rounds` passes left before the
      deadline: write sync word 1 and read one byte. */
  function SyncLoop(window: seq<Byte>, replies: seq<seq<Byte>>, rounds: nat): Run
    requires |window| <= 4
    decreases rounds, 0, 0, 0
  {
    if rounds == 0 then Run(false, replies, [])
    else
      var (c, rest) := Next(replies, 1);
      AfterWrite(SYNC1, ScanLoop(window, c, rest, rounds - 1))
  }

  /** The inner loop, at its test, with `c` just read: an empty `c` (a
      timeout) goes back to the outer loop; a byte slides into the window. */
  function ScanLoop(window: seq<Byte>, c: seq<Byte>, replies: seq<seq<Byte>>, rounds: nat): Run
    requires |window| <= 4 && |c| <= 1
    decreases rounds, 1, |replies| + |c|, 0
  {
    if |c| == 0 then SyncLoop(window, replies, rounds)
    else
      var w := Shift(window, c);
      if w == RSP1 then AfterWrite(SYNC2, SecondExchange(replies, rounds))
      else
        var (c', rest) := Next(replies, 1);
        ScanLoop(w, c', rest, rounds)
  }

  /** Sync word 2 has just been written: `read(4)` must return response
      word 2; otherwise what it returned becomes the window. */
  function SecondExchange(replies: seq<seq<Byte>>, rounds: nat): Run
    decreases rounds, 1, |replies|, 1
  {
    var (r, rest) := Next(replies, 4);
    if |r| == 4 && r == RSP2 then Run(true, rest, [])
    else
      var (c, rest') := Next(rest, 1);
      ScanLoop(r, c, rest', rounds)
  }

  /** `synchronize`; `rounds` is how many passes of the outer loop fit
      before the deadline. */
  method Synchronize(port: SerialPort, rounds: nat) returns (ok: bool)
    modifies port
    ensures var o := SyncLoop(INITIAL_WINDOW, old(port.replies), rounds);
      ok == o.ok && port.replies == o.replies && port.written == old(port.written) + o.writes
  {
    ghost var written0 := port.written;
    ghost var goal := SyncLoop(INITIAL_WINDOW, port.replies, rounds);
    var window := INITIAL_WINDOW;
    var left := rounds;
    while left > 0
      invariant |window| <= 4
      invariant Leads(port.written, SyncLoop(window, port.replies, left), written0, goal)
      decreases left
    {
      left := left - 1;
      port.Write(SYNC1);
      var c := port.Read(1);
      while |c| > 0
        invariant |window| <= 4 && |c| <= 1
        invariant Leads(port.written, ScanLoop(window, c, port.replies, left), written0, goal)
        decreases |port.replies| + |c|
      {
        ghost var before := port.replies;
        window := Shift(window, c);
        if window == RSP1 {
          port.Write(SYNC2);
          window := port.Read(4);
          if |window| == 4 && window == RSP2 {
            assert SecondExchange(before, left) == Run(true, port.replies, []);
            return true;
          }
          c := port.Read(1);
          assert SecondExchange(before, left) == ScanLoop(window, c, port.replies, left);
        } else {
          c := port.Read(1);
        }
      }
    }
    return false;
  }

  /** Each byte of `s` arriving as its own one-byte read. */
  function Singles(s: seq<Byte>): (r: seq<seq<Byte>>)
    ensures |r| == |s| && forall i :: 0 <= i < |s| ==> r[i] == [s[i]]
  {
    seq(|s|, i requires 0 <= i < |s| => [s[i]])
  }

  /** Sync word 1 written `n` times and nothing else. */
  function SyncWord1Only(n: nat): (r: seq<seq<Byte>>)
    ensures |r| == n && forall i :: 0 <= i < n ==> r[i] == SYNC1
  {
    seq(n, _ => SYNC1)
  }

  /** The window after `i` more bytes have slid into a full window, when
      `ws` is that window followed by the bytes. */
  function WindowAt(ws: seq<Byte>, i: nat): (r: seq<Byte>)
    requires i + 4 <= |ws|
    ensures |r| == 4
  {
    ws[i..i + 4]
  }

  /** The bytes the scan slides into the window while it reads one byte at a
      time: the first byte of each pending read result, where an empty
      result (a timeout) contributes none. */
  function Firsts(pending: seq<seq<Byte>>): (r: seq<Byte>)
    ensures |r| <= |pending|
  {
    if pending == [] then [] else Take(pending[0], 1) + Firsts(pending[1..])
  }

  /** The bytes still to come are those of the read result `c` just taken,
      then those of the rest. */
  lemma FirstsCons(c: seq<Byte>, pending: seq<seq<Byte>>)
    requires |c| <= 1
    ensures Firsts([c] + pending) == c + Firsts(pending)
  {
    assert ([c] + pending)[1..] == pending;
  }

  /** Reading one byte does not change which bytes are still to come. */
  lemma FirstsNext(pending: seq<seq<Byte>>)
    ensures var (c, rest) := Next(pending, 1); Firsts([c] + rest) == Firsts(pending)
  {
    var (c, rest) := Next(pending, 1);
    FirstsCons(c, rest);
    if pending != [] {
      assert Take(pending[0], 1) == c;
    }
  }

  /** No window can ever equal response word 1 from here on: either the
      window is shorter than four bytes (it never grows back), or none of the
      windows the bytes still to come slide through is response word 1. */
  ghost predicate Quiet(window: seq<Byte>, pending: seq<seq<Byte>>) {
    || |window| < 4
    || (&& |window| == 4
        && forall i :: 1 <= i <= |Firsts(pending)| ==> WindowAt(window + Firsts(pending), i) != RSP1)
  }

  /** From a quiet state the handshake never succeeds: every remaining pass
      writes sync word 1, once, and sync word 2 is never written. */
  lemma {:induction false} LoopNeverSyncs(window: seq<Byte>, replies: seq<seq<Byte>>, rounds: nat)
    requires |window| <= 4 && Quiet(window, replies)
    ensures !SyncLoop(window, replies, rounds).ok
    ensures SyncLoop(window, replies, rounds).writes == SyncWord1Only(rounds)
    decreases rounds, 0, 0, 0
  {
    if rounds > 0 {
      var (c, rest) := Next(replies, 1);
      FirstsNext(replies);
      ScanNeverSyncs(window, c, rest, rounds - 1);
      assert [SYNC1] + SyncWord1Only(rounds - 1) == SyncWord1Only(rounds);
    }
  }

  lemma {:induction false} ScanNeverSyncs(window: seq<Byte>, c: seq<Byte>, replies: seq<seq<Byte>>, rounds: nat)
    requires |window| <= 4 && |c| <= 1 && Quiet(window, [c] + replies)
    ensures !ScanLoop(window, c, replies, rounds).ok
    ensures ScanLoop(window, c, replies, rounds).writes == SyncWord1Only(rounds)
    decreases rounds, 1, |replies| + |c|, 0
  {
    if |c| == 0 {
      QuietAfterTimeout(window, replies);
      LoopNeverSyncs(window, replies, rounds);
    } else {
      var (c', rest) := Next(replies, 1);
      QuietAfterByte(window, c, replies);
      ScanNeverSyncs(Shift(window, c), c', rest, rounds);
    }
  }

  /** A timed-out read leaves the state quiet. */
  lemma QuietAfterTimeout(window: seq<Byte>, replies: seq<seq<Byte>>)
    requires Quiet(window, [[]] + replies)
    ensures Quiet(window, replies)
  {
    FirstsCons([], replies);
    assert [] + Firsts(replies) == Firsts(replies);
  }

  /** In a quiet state, sliding in the byte just read does not complete
      response word 1, and the state after the next read is quiet again. */
  lemma QuietAfterByte(window: seq<Byte>, c: seq<Byte>, replies: seq<seq<Byte>>)
    requires |window| <= 4 && |c| == 1 && Quiet(window, [c] + replies)
    ensures Shift(window, c) != RSP1
    ensures var (c', rest) := Next(replies, 1); Quiet(Shift(window, c), [c'] + rest)
  {
    FirstsCons(c, replies);
    FirstsNext(replies);
    if |window| == 4 {
      assert Shift(window, c) == window[1..] + c;
      SlideAvoids(window, c, Firsts(replies), RSP1);
    }
  }

  /** Sliding one byte into a full window moves along the same windows. */
  lemma SlideAvoids(window: seq<Byte>, c: seq<Byte>, bytes: seq<Byte>, word: seq<Byte>)
    requires |window| == 4 && |c| == 1
    requires forall i :: 1 <= i <= |c + bytes| ==> WindowAt(window + (c + bytes), i) != word
    ensures window[1..] + c != word
    ensures forall i :: 1 <= i <= |bytes| ==> WindowAt((window[1..] + c) + bytes, i) != word
  {
    var all := window + (c + bytes);
    var w := window[1..] + c;
    assert w == WindowAt(all, 1);
    assert w + bytes == all[1..];
    forall i | 1 <= i <= |bytes| ensures WindowAt(w + bytes, i) != word {
      assert WindowAt(w + bytes, i) == WindowAt(all, i + 1);
    }
  }

  /** The quirk of `synchronize`: a window shorter than four bytes, left by
      a short `read(4)` in the second exchange, stays short for the rest of
      the call, so the call fails whatever the device sends afterwards. */
  lemma ShortWindowNeverSyncs(window: seq<Byte>, replies: seq<seq<Byte>>, rounds: nat)
    requires |window| < 4
    ensures !SyncLoop(window, replies, rounds).ok
    ensures SyncLoop(window, replies, rounds).writes == SyncWord1Only(rounds)
  {
    LoopNeverSyncs(window, replies, rounds);
  }

  /** When no window the line's bytes slide through is response word 1, the
      call times out having written only sync word 1, once per pass. */
  lemma NoResponseWordNeverSyncs(replies: seq<seq<Byte>>, rounds: nat)
    requires forall i :: 1 <= i <= |Firsts(replies)| ==> WindowAt(INITIAL_WINDOW + Firsts(replies), i) != RSP1
    ensures !SyncLoop(INITIAL_WINDOW, replies, rounds).ok
    ensures SyncLoop(INITIAL_WINDOW, replies, rounds).writes == SyncWord1Only(rounds)
  {
    LoopNeverSyncs(INITIAL_WINDOW, replies, rounds);
  }

  /** A line that sends its bytes one read at a time slides exactly those
      bytes into the window. */
  lemma {:induction false} FirstsOfSingles(s: seq<Byte>)
    ensures Firsts(Singles(s)) == s
    decreases |s|
  {
    if s != [] {
      assert Singles(s)[1..] == Singles(s[1..]);
      assert Take([s[0]], 1) == [s[0]];
      FirstsOfSingles(s[1..]);
      assert [s[0]] + s[1..] == s;
    }
  }

  /** A line repeating the header byte 0xAA, one byte per read, never
      completes response word 1: the call times out. */
  lemma RepeatedHeaderByteNeverSyncs(n: nat, rounds: nat)
    ensures var line := Singles(seq(n, _ => 0xAA));
      && !SyncLoop(INITIAL_WINDOW, line, rounds).ok
      && SyncLoop(INITIAL_WINDOW, line, rounds).writes == SyncWord1Only(rounds)
  {
    var bytes: seq<Byte> := seq(n, _ => 0xAA);
    FirstsOfSingles(bytes);
    WireBytes();
    var all := INITIAL_WINDOW + bytes;
    forall i | 1 <= i <= |bytes| ensures WindowAt(all, i) != RSP1 {
      assert WindowAt(all, i)[0] == all[i];
      assert all[i] == 0 || all[i] == 0xAA;
    }
    NoResponseWordNeverSyncs(Singles(bytes), rounds);
  }

  /** Response word 1 ends in 0xAA: bytes free of 0xAA never complete it. */
  lemma HeaderFreeBytesNeverMatch(window: seq<Byte>, noise: seq<Byte>)
    requires |window| == 4
    requires forall i :: 0 <= i < |noise| ==> noise[i] != 0xAA
    ensures forall i :: 1 <= i <= |noise| ==> WindowAt(window + noise, i) != RSP1
  {
    WireBytes();
    forall i | 1 <= i <= |noise| ensures WindowAt(window + noise, i) != RSP1 {
      assert WindowAt(window + noise, i)[3] == noise[i - 1];
    }
  }

  /** Sliding the bytes of `s` one at a time into a full window: when the
      last of them is the first to complete response word 1, sync word 2 is
      written right then and the second exchange reads what follows. */
  lemma {:induction false} SlideToResponseWord1(window: seq<Byte>, s: seq<Byte>, tail: seq<seq<Byte>>, rounds: nat)
    requires |window| == 4 && |s| >= 1
    requires (window + s)[|s|..] == RSP1
    requires forall i :: 1 <= i < |s| ==> WindowAt(window + s, i) != RSP1
    ensures ScanLoop(window, [s[0]], Singles(s[1..]) + tail, rounds) == AfterWrite(SYNC2, SecondExchange(tail, rounds))
    decreases |s|
  {
    var w := Shift(window, [s[0]]);
    assert w == window[1..] + [s[0]];
    if |s| == 1 {
      assert w == (window + s)[|s|..];
      assert Singles(s[1..]) + tail == tail;
    } else {
      assert w == WindowAt(window + s, 1);
      NextSingle(s[1..], tail);
      assert s[1..][1..] == s[2..];
      assert w + s[1..] == (window + s)[1..];
      forall i | 1 <= i < |s[1..]| ensures WindowAt(w + s[1..], i) != RSP1 {
        assert WindowAt(w + s[1..], i) == WindowAt(window + s, i + 1);
      }
      SlideToResponseWord1(w, s[1..], tail, rounds);
    }
  }

  /** Reading one byte from a run of one-byte results. */
  lemma NextSingle(s: seq<Byte>, tail: seq<seq<Byte>>)
    requires |s| >= 1
    ensures Next(Singles(s) + tail, 1) == ([s[0]], Singles(s[1..]) + tail)
  {
    var pending := Singles(s) + tail;
    assert pending[0] == [s[0]];
    assert pending[1..] == Singles(s[1..]) + tail;
    assert Take([s[0]], 1) == [s[0]];
  }

  /** Response word 1 does not overlap itself: once the bytes before it
      never completed it, no window reaching into it does either. */
  lemma FirstResponseWord1(window: seq<Byte>, noise: seq<Byte>)
    requires |window| == 4
    requires forall i :: 1 <= i <= |noise| ==> WindowAt(window + noise, i) != RSP1
    ensures forall i :: 1 <= i < |noise + RSP1| ==> WindowAt(window + (noise + RSP1), i) != RSP1
  {
    WireBytes();
    var all := window + (noise + RSP1);
    forall i | 1 <= i < |noise + RSP1| ensures WindowAt(all, i) != RSP1 {
      if i <= |noise| {
        assert WindowAt(all, i) == WindowAt(window + noise, i);
      } else {
        assert WindowAt(all, i)[3] == RSP1[i - |noise| - 1];
      }
    }
  }

  /** Leading noise in which response word 1 never shows up, then response
      word 1 byte by byte, then response word 2 in one read: the handshake
      succeeds within the first pass, having written sync word 1 and sync
      word 2, and leaves exactly what followed unread. */
  lemma HandshakeAfterNoise(window: seq<Byte>, noise: seq<Byte>, rest: seq<seq<Byte>>, rounds: nat)
    requires |window| == 4 && rounds >= 1
    requires forall i :: 1 <= i <= |noise| ==> WindowAt(window + noise, i) != RSP1
    ensures SyncLoop(window, Singles(noise + RSP1) + [RSP2] + rest, rounds) == Run(true, rest, [SYNC1, SYNC2])
  {
    var s := noise + RSP1;
    var tail := [RSP2] + rest;
    assert Singles(s) + tail == Singles(noise + RSP1) + [RSP2] + rest;
    assert (window + s)[|s|..] == RSP1;
    FirstResponseWord1(window, noise);
    NextSingle(s, tail);
    SlideToResponseWord1(window, s, tail, rounds - 1);
    WireBytes();
    assert Take(RSP2, 4) == RSP2;
    assert tail[1..] == rest;
    assert SecondExchange(tail, rounds - 1) == Run(true, rest, []);
  }

  /** Noise holding the header byte 0xAA does not stop the handshake as
      long as it does not itself complete response word 1. */
  lemma HeaderByteInNoise(rest: seq<seq<Byte>>, rounds: nat)
    requires rounds >= 1
    ensures SyncLoop(INITIAL_WINDOW, Singles([0xAA, 0x00] + RSP1) + [RSP2] + rest, rounds) == Run(true, rest, [SYNC1, SYNC2])
  {
    var noise: seq<Byte> := [0xAA, 0x00];
    WireBytes();
    assert WindowAt(INITIAL_WINDOW + noise, 1) == [0, 0, 0, 0xAA];
    assert WindowAt(INITIAL_WINDOW + noise, 2) == [0, 0, 0xAA, 0];
    HandshakeAfterNoise(INITIAL_WINDOW, noise, rest, rounds);
  }

  /** From the initial window: response word 1 then response word 2 is a
      successful handshake. */
  lemma HandshakeFromStart(rest: seq<seq<Byte>>, rounds: nat)
    requires rounds >= 1
    ensures SyncLoop(INITIAL_WINDOW, Singles(RSP1) + [RSP2] + rest, rounds) == Run(true, rest, [SYNC1, SYNC2])
  {
    HandshakeAfterNoise(INITIAL_WINDOW, [], rest, rounds);
    assert [] + RSP1 == RSP1;
  }

  /** How many of the reads timed out. */
  function Timeouts(results: seq<seq<Byte>>): (r: nat)
    ensures r <= |results|
  {
    if results == [] then 0 else (if results[0] == [] then 1 else 0) + Timeouts(results[1..])
  }

  /** Each read of the scan returns at most one byte. */
  ghost predicate ByteReads(results: seq<seq<Byte>>) {
    forall k :: 0 <= k < |results| ==> |results[k]| <= 1
  }

  /** Read results of at most one byte, some of which may time out, whose bytes slide through
      no window equal to response word 1 until the very last byte, read
      last, completes it. */
  ghost predicate CompletesResponseWord1(window: seq<Byte>, results: seq<seq<Byte>>) {
    && |window| == 4 && ByteReads(results)
    && results != [] && |results[|results| - 1]| == 1
    && (window + Firsts(results))[|Firsts(results)|..] == RSP1
    && forall i :: 1 <= i < |Firsts(results)| ==> WindowAt(window + Firsts(results), i) != RSP1
  }

  lemma {:induction false} FirstsOfLastByte(results: seq<seq<Byte>>)
    requires ByteReads(results) && results != [] && |results[|results| - 1]| == 1
    ensures |Firsts(results)| >= 1
    decreases |results|
  {
    if |results| == 1 {
      assert Take(results[0], 1) == results[0];
    } else {
      var tail := results[1..];
      assert tail[|tail| - 1] == results[|results| - 1];
      assert ByteReads(tail) by {
        forall k | 0 <= k < |tail| ensures |tail[k]| <= 1 {
          assert tail[k] == results[k + 1];
        }
      }
      FirstsOfLastByte(tail);
    }
  }

  /** The general successful handshake: the outer loop reads one-byte
      results, any of which may time out and end a pass; the window is kept
      across passes, so response word 1 may be split by timeouts. The call
      succeeds in the pass after the last timeout, having written sync word
      1 once per pass, then sync word 2, and leaves what follows response
      word 2 unread. */
  lemma {:induction false} SyncThroughReads(window: seq<Byte>, results: seq<seq<Byte>>, rest: seq<seq<Byte>>, rounds: nat)
    requires CompletesResponseWord1(window, results) && rounds > Timeouts(results)
    ensures SyncLoop(window, results + [RSP2] + rest, rounds)
         == Run(true, rest, SyncWord1Only(Timeouts(results) + 1) + [SYNC2])
    decreases |results|, 0
  {
    var pending := results + [RSP2] + rest;
    assert pending[0] == results[0];
    assert pending[1..] == results[1..] + [RSP2] + rest;
    assert Take(results[0], 1) == results[0];
    assert [results[0]] + results[1..] == results;
    ScanThroughReads(window, results[0], results[1..], rest, rounds - 1);
    var t := Timeouts(results);
    assert [SYNC1] + (SyncWord1Only(t) + [SYNC2]) == SyncWord1Only(t + 1) + [SYNC2];
  }

  /** The inner loop's share of `SyncThroughReads`, with the read result
      `c` just taken. */
  lemma {:induction false} ScanThroughReads(window: seq<Byte>, c: seq<Byte>, results: seq<seq<Byte>>,
                                            rest: seq<seq<Byte>>, rounds: nat)
    requires CompletesResponseWord1(window, [c] + results) && rounds >= Timeouts([c] + results)
    ensures ScanLoop(window, c, results + [RSP2] + rest, rounds)
         == Run(true, rest, SyncWord1Only(Timeouts([c] + results)) + [SYNC2])
    decreases |results|, 1
  {
    assert ([c] + results)[0] == c && ([c] + results)[1..] == results;
    if |c| == 0 {
      CompletesAfterTimeout(window, results);
      SyncThroughReads(window, results, rest, rounds);
    } else if results == [] {
      CompletedByLastByte(window, c);
      ResponseWord2Accepted(rest, rounds);
      assert results + [RSP2] + rest == [RSP2] + rest;
    } else {
      CompletesAfterByte(window, c, results);
      var pending := results + [RSP2] + rest;
      assert pending[0] == results[0] && pending[1..] == results[1..] + [RSP2] + rest;
      assert Take(results[0], 1) == results[0];
      assert [results[0]] + results[1..] == results;
      ScanThroughReads(Shift(window, c), results[0], results[1..], rest, rounds);
    }
  }

  /** A timed-out read changes neither the window nor what is still to
      come. */
  lemma CompletesAfterTimeout(window: seq<Byte>, results: seq<seq<Byte>>)
    requires CompletesResponseWord1(window, [[]] + results)
    ensures CompletesResponseWord1(window, results)
  {
    var all := [[]] + results;
    assert all[1..] == results;
    FirstsCons([], results);
    assert Firsts(all) == Firsts(results);
    assert results[|results| - 1] == all[|all| - 1];
    forall k | 0 <= k < |results| ensures |results[k]| <= 1 {
      assert results[k] == all[k + 1];
    }
  }

  /** The byte read last is the one that completes response word 1. */
  lemma CompletedByLastByte(window: seq<Byte>, c: seq<Byte>)
    requires CompletesResponseWord1(window, [c]) && |c| == 1
    ensures Shift(window, c) == RSP1
  {
    FirstsCons(c, []);
    assert c + Firsts([]) == c;
    assert Shift(window, c) == (window + c)[|c|..];
  }

  /** A byte before the last one does not complete response word 1 and
      leaves the rest of the reads to complete it from the shifted window. */
  lemma CompletesAfterByte(window: seq<Byte>, c: seq<Byte>, results: seq<seq<Byte>>)
    requires CompletesResponseWord1(window, [c] + results) && |c| == 1 && results != []
    ensures Shift(window, c) != RSP1
    ensures CompletesResponseWord1(Shift(window, c), results)
  {
    var all := [c] + results;
    assert all[1..] == results;
    FirstsCons(c, results);
    assert results[|results| - 1] == all[|all| - 1];
    forall k | 0 <= k < |results| ensures |results[k]| <= 1 {
      assert results[k] == all[k + 1];
    }
    FirstsOfLastByte(results);
    var bytes := Firsts(results);
    var line := window + (c + bytes);
    var w := Shift(window, c);
    assert w == WindowAt(line, 1);
    assert w + bytes == line[1..];
    forall i | 1 <= i < |bytes| ensures WindowAt(w + bytes, i) != RSP1 {
      assert WindowAt(w + bytes, i) == WindowAt(line, i + 1);
    }
    assert (w + bytes)[|bytes|..] == line[|c + bytes|..];
  }

  /** Response word 2 in one read ends the handshake successfully. */
  lemma ResponseWord2Accepted(rest: seq<seq<Byte>>, rounds: nat)
    ensures SecondExchange([RSP2] + rest, rounds) == Run(true, rest, [])
  {
    WireBytes();
    assert Take(RSP2, 4) == RSP2;
    assert ([RSP2] + rest)[1..] == rest;
  }

  /** `k` reads that time out. */
  function Silence(k: nat): (r: seq<seq<Byte>>)
    ensures |r| == k && forall i :: 0 <= i < k ==> r[i] == []
  {
    seq(k, _ => [])
  }

  lemma {:induction false} FirstsAppend(a: seq<seq<Byte>>, b: seq<seq<Byte>>)
    ensures Firsts(a + b) == Firsts(a) + Firsts(b)
    ensures Timeouts(a + b) == Timeouts(a) + Timeouts(b)
    decreases |a|
  {
    if a == [] {
      assert a + b == b;
    } else {
      assert (a + b)[0] == a[0] && (a + b)[1..] == a[1..] + b;
      FirstsAppend(a[1..], b);
    }
  }

  lemma {:induction false} SilenceCounts(k: nat)
    ensures Firsts(Silence(k)) == [] && Timeouts(Silence(k)) == k
    decreases k
  {
    if k > 0 {
      assert Silence(k)[1..] == Silence(k - 1);
      SilenceCounts(k - 1);
    }
  }

  lemma {:induction false} SinglesNeverTimeOut(s: seq<Byte>)
    ensures Timeouts(Singles(s)) == 0
    decreases |s|
  {
    if s != [] {
      assert Singles(s)[1..] == Singles(s[1..]);
      SinglesNeverTimeOut(s[1..]);
    }
  }

  lemma SinglesAreByteReads(s: seq<Byte>)
    ensures ByteReads(Singles(s))
  {
  }

  /** A silent line first (`k` reads time out, as while the device is still
      rebooting), then noise in which response word 1 never shows up, then
      the handshake: the call succeeds in pass `k + 1`, having written sync
      word 1 once per pass and then sync word 2. */
  lemma SilenceThenHandshake(window: seq<Byte>, k: nat, noise: seq<Byte>, rest: seq<seq<Byte>>, rounds: nat)
    requires |window| == 4 && rounds > k
    requires forall i :: 1 <= i <= |noise| ==> WindowAt(window + noise, i) != RSP1
    ensures SyncLoop(window, Silence(k) + Singles(noise + RSP1) + [RSP2] + rest, rounds)
         == Run(true, rest, SyncWord1Only(k + 1) + [SYNC2])
  {
    var s := noise + RSP1;
    var results := Silence(k) + Singles(s);
    FirstsAppend(Silence(k), Singles(s));
    SilenceCounts(k);
    FirstsOfSingles(s);
    SinglesNeverTimeOut(s);
    assert Firsts(results) == s;
    WireBytes();
    assert ByteReads(results) by {
      SinglesAreByteReads(s);
      forall j | 0 <= j < |results| ensures |results[j]| <= 1 {
        if j >= k {
          assert results[j] == Singles(s)[j - k];
        }
      }
    }
    assert results[|results| - 1] == Singles(s)[|s| - 1];
    assert (window + s)[|s|..] == RSP1;
    FirstResponseWord1(window, noise);
    SyncThroughReads(window, results, rest, rounds);
  }

  /** The window is kept across passes: response word 1 split by a
      timed-out read still completes in the second pass. */
  lemma SplitResponseWord1(rest: seq<seq<Byte>>)
    ensures SyncLoop(INITIAL_WINDOW, Singles([0x4D, 0x3A]) + [[]] + Singles([0xFC, 0xAA]) + [RSP2] + rest, 2)
         == Run(true, rest, [SYNC1, SYNC1, SYNC2])
  {
    var a: seq<Byte> := [0x4D, 0x3A];
    var b: seq<Byte> := [0xFC, 0xAA];
    var results := Singles(a) + [[]] + Singles(b);
    FirstsAppend(Singles(a) + [[]], Singles(b));
    FirstsAppend(Singles(a), [[]]);
    FirstsOfSingles(a);
    FirstsOfSingles(b);
    SinglesNeverTimeOut(a);
    SinglesNeverTimeOut(b);
    assert Firsts([[]]) == [] && Timeouts([[]]) == 1;
    WireBytes();
    assert Firsts(results) == RSP1;
    assert Timeouts(results) == 1;
    assert ByteReads(results) by {
      SinglesAreByteReads(a);
      SinglesAreByteReads(b);
      forall j | 0 <= j < |results| ensures |results[j]| <= 1 {
        if j < 2 {
          assert results[j] == Singles(a)[j];
        } else if j > 2 {
          assert results[j] == Singles(b)[j - 3];
        }
      }
    }
    assert results[4] == Singles(b)[1];
    var line := INITIAL_WINDOW + RSP1;
    assert line[4..] == RSP1;
    assert WindowAt(line, 1) == [0, 0, 0, 0x4D];
    assert WindowAt(line, 2) == [0, 0, 0x4D, 0x3A];
    assert WindowAt(line, 3) == [0, 0x4D, 0x3A, 0xFC];
    SyncThroughReads(INITIAL_WINDOW, results, rest, 2);
    assert SyncWord1Only(2) + [SYNC2] == [SYNC1, SYNC1, SYNC2];
  }

  /** A wrong or timed-out answer to sync word 2, with nothing after it:
      the handshake fails. */
  lemma WrongSecondWordFails(window: seq<Byte>, r: seq<Byte>, rounds: nat)
    requires |window| == 4 && |r| <= 4 && r != RSP2 && rounds >= 1
    ensures !SyncLoop(window, Singles(RSP1) + [r], rounds).ok
    ensures SyncLoop(window, Singles(RSP1) + [r], rounds).writes == [SYNC1, SYNC2] + SyncWord1Only(rounds - 1)
  {
    WireBytes();
    assert (window + RSP1)[|RSP1|..] == RSP1;
    NextSingle(RSP1, [r]);
    SlideToResponseWord1(window, RSP1, [r], rounds - 1);
    assert Take(r, 4) == r;
    assert Next([r], 4) == (r, []);
    LoopNeverSyncs(r, [], rounds - 1);
    assert SecondExchange([r], rounds - 1) == SyncLoop(r, [], rounds - 1);
  }

  /** A short answer to sync word 2 poisons the rest of the call: even a
      complete handshake afterwards is not recognised. */
  lemma ShortSecondReadFails(window: seq<Byte>, r: seq<Byte>, rest: seq<seq<Byte>>, rounds: nat)
    requires |window| == 4 && |r| < 4 && rounds >= 1
    ensures !SyncLoop(window, Singles(RSP1) + [r] + rest, rounds).ok
    ensures SyncLoop(window, Singles(RSP1) + [r] + rest, rounds).writes == [SYNC1, SYNC2] + SyncWord1Only(rounds - 1)
  {
    WireBytes();
    var tail := [r] + rest;
    assert Singles(RSP1) + tail == Singles(RSP1) + [r] + rest;
    assert (window + RSP1)[|RSP1|..] == RSP1;
    NextSingle(RSP1, tail);
    SlideToResponseWord1(window, RSP1, tail, rounds - 1);
    assert Take(r, 4) == r;
    assert Next(tail, 4) == (r, rest);
    var (c, rest') := Next(rest, 1);
    ScanNeverSyncs(r, c, rest', rounds - 1);
    assert SecondExchange(tail, rounds - 1) == ScanLoop(r, c, rest', rounds - 1);
  }

  ghost predicate SyncWordsOnly(writes: seq<seq<Byte>>) {
    forall i :: 0 <= i < |writes| ==> writes[i] == SYNC1 || writes[i] == SYNC2
  }

  /** `after` is what is left of `replies` once some reads have been made. */
  ghost predicate SuffixOf(after: seq<seq<Byte>>, replies: seq<seq<Byte>>) {
    |after| <= |replies| && after == replies[|replies| - |after|..]
  }

  /** The last read made between `replies` and `after` began with response
      word 2. */
  ghost predicate EndedOnResponseWord2(replies: seq<seq<Byte>>, after: seq<seq<Byte>>) {
    |after| < |replies| && Take(replies[|replies| - |after| - 1], 4) == RSP2
  }

  lemma SuffixChain(a: seq<seq<Byte>>, b: seq<seq<Byte>>, c: seq<seq<Byte>>)
    requires SuffixOf(b, a) && SuffixOf(c, b)
    ensures SuffixOf(c, a)
    ensures EndedOnResponseWord2(b, c) ==> EndedOnResponseWord2(a, c)
  {
    if |c| < |b| {
      assert b[|b| - |c| - 1] == a[|a| - |c| - 1];
    }
  }

  /** Writing a sync word in front of a run's writes. */
  lemma PrependSyncWord(w: seq<Byte>, ws: seq<seq<Byte>>)
    requires SyncWordsOnly(ws) && (w == SYNC1 || w == SYNC2)
    ensures SyncWordsOnly([w] + ws)
    ensures ws != [] ==> ([w] + ws)[|ws|] == ws[|ws| - 1]
  {
    var all := [w] + ws;
    forall i | 0 <= i < |all| ensures all[i] == SYNC1 || all[i] == SYNC2 {
      if i > 0 {
        assert all[i] == ws[i - 1];
      }
    }
  }

  /** A run preceded by one more read and one more write keeps its shape. */
  lemma PrependShape(replies: seq<seq<Byte>>, rest: seq<seq<Byte>>, w: seq<Byte>, o: Run)
    requires SuffixOf(rest, replies) && RunShape(rest, o)
    requires w == SYNC1 || w == SYNC2
    requires o.ok && o.writes == [] ==> w == SYNC2
    ensures RunShape(replies, AfterWrite(w, o))
  {
    SuffixChain(replies, rest, o.replies);
    PrependSyncWord(w, o.writes);
  }

  lemma NextSuffix(replies: seq<seq<Byte>>, n: nat)
    ensures SuffixOf(Next(replies, n).1, replies)
    ensures replies != [] ==> |Next(replies, n).1| == |replies| - 1
  {
  }

  /** What every run of the handshake, and every tail of one, does: it
      writes nothing but the two sync words, consumes read results only from
      the front, and, when it succeeds, its last read began with response
      word 2 and its last write (if any) was sync word 2. */
  ghost predicate RunShape(replies: seq<seq<Byte>>, o: Run) {
    && SyncWordsOnly(o.writes)
    && SuffixOf(o.replies, replies)
    && (o.ok ==> EndedOnResponseWord2(replies, o.replies) && (o.writes == [] || o.writes[|o.writes| - 1] == SYNC2))
  }

  /** A whole call: every write is a sync word; it succeeds only when the
      last read it made began with response word 2, right after it wrote
      sync word 2, and only after writing sync word 1 at least once. */
  lemma SyncShape(window: seq<Byte>, replies: seq<seq<Byte>>, rounds: nat)
    requires |window| <= 4
    ensures var o := SyncLoop(window, replies, rounds);
      && SyncWordsOnly(o.writes)
      && SuffixOf(o.replies, replies)
      && (o.ok ==> && EndedOnResponseWord2(replies, o.replies)
                   && |o.writes| >= 2 && o.writes[0] == SYNC1 && o.writes[|o.writes| - 1] == SYNC2)
  {
    SyncLoopShape(window, replies, rounds);
  }

  lemma {:induction false} SyncLoopShape(window: seq<Byte>, replies: seq<seq<Byte>>, rounds: nat)
    requires |window| <= 4
    ensures RunShape(replies, SyncLoop(window, replies, rounds))
    ensures SyncLoop(window, replies, rounds).ok ==> |SyncLoop(window, replies, rounds).writes| >= 2
    ensures rounds > 0 ==> SyncLoop(window, replies, rounds).writes[0] == SYNC1
    decreases rounds, 0, 0, 0
  {
    if rounds > 0 {
      var (c, rest) := Next(replies, 1);
      NextSuffix(replies, 1);
      ScanLoopShape(window, c, rest, rounds - 1);
      var o := ScanLoop(window, c, rest, rounds - 1);
      assert SyncLoop(window, replies, rounds) == AfterWrite(SYNC1, o);
      PrependShape(replies, rest, SYNC1, o);
    } else {
      assert SyncLoop(window, replies, rounds) == Run(false, replies, []);
      assert replies[0..] == replies;
    }
  }

  lemma {:induction false} ScanLoopShape(window: seq<Byte>, c: seq<Byte>, replies: seq<seq<Byte>>, rounds: nat)
    requires |window| <= 4 && |c| <= 1
    ensures RunShape(replies, ScanLoop(window, c, replies, rounds))
    ensures ScanLoop(window, c, replies, rounds).ok ==> |ScanLoop(window, c, replies, rounds).writes| >= 1
    decreases rounds, 1, |replies| + |c|, 0
  {
    if |c| == 0 {
      SyncLoopShape(window, replies, rounds);
    } else {
      var w := Shift(window, c);
      if w == RSP1 {
        SecondExchangeShape(replies, rounds);
        PrependSyncWord(SYNC2, SecondExchange(replies, rounds).writes);
      } else {
        var (c', rest) := Next(replies, 1);
        NextSuffix(replies, 1);
        ScanLoopShape(w, c', rest, rounds);
        SuffixChain(replies, rest, ScanLoop(w, c', rest, rounds).replies);
      }
    }
  }

  lemma {:induction false} SecondExchangeShape(replies: seq<seq<Byte>>, rounds: nat)
    ensures RunShape(replies, SecondExchange(replies, rounds))
    decreases rounds, 1, |replies|, 1
  {
    var (r, rest) := Next(replies, 4);
    NextSuffix(replies, 4);
    if |r| == 4 && r == RSP2 {
      assert replies != [] && |replies| - |rest| - 1 == 0;
      assert SecondExchange(replies, rounds) == Run(true, rest, []);
    } else {
      var (c, rest') := Next(rest, 1);
      NextSuffix(rest, 1);
      ScanLoopShape(r, c, rest', rounds);
      var o := ScanLoop(r, c, rest', rounds);
      assert SecondExchange(replies, rounds) == o;
      SuffixChain(rest, rest', o.replies);
      SuffixChain(replies, rest, o.replies);
    }
  }
}
