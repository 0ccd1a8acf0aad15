/** The serial transport and its receive-side packet framer.

    Time is a natural number of milliseconds; 0 is the "never received"
    sentinel of the last-receive field. One iteration of the polling loop
    is specified by the pure function `Advance`, a finite run of the loop
    by `Run`; the class `SerialPort` holds the fields updated in place and
    its methods are proved against those functions. */
module SerialComm {
  import opened Common

  // Status texts returned to the window.
  const OpenSucceeded: string := "串口打开成功"
  const OpenFailedPrefix: string := "串口打开失败: "
  const CloseSucceeded: string := "串口关闭成功"
  const PortNotOpen: string := "串口未打开"
  const SentPrefix: string := "发送成功: "
  const SentSuffix: string := "字节"
  const SendFailedPrefix: string := "发送失败: "

  /** Defaults of a new transport object: 1000 ms read timeout and 10 ms
      packet timeout. */
  const DefaultReadTimeout: nat := 1000
  const DefaultPacketTimeout: nat := 10

  // ---------------------------------------------------------------------
  // The framer as a function
  // ---------------------------------------------------------------------

  /** What one poll of the driver yields: nothing waiting, the bytes that
      were waiting, or an exception raised by the driver, after which the
      handle is either still open or found closed. */
  datatype Poll = Idle | Chunk(bytes: seq<Byte>) | ReadError(portStillOpen: bool)

  /** One iteration of the polling loop at a given instant. */
  datatype Tick = Tick(now: nat, poll: Poll)

  function BytesRead(poll: Poll): seq<Byte>
  {
    if poll.Chunk? then poll.bytes else []
  }

  /** The framer's fields: the accumulator, the last receive instant
      (0 = unset) and the packet timeout. */
  datatype Framer = Framer(packet: seq<Byte>, lastReceive: nat, packetTimeout: nat)

  /** The accumulated packet is due: something was received, the silence
      since then is STRICTLY longer than the packet timeout, and the
      accumulator holds bytes. */
  predicate PacketDue(f: Framer, now: nat): (due: bool)
    ensures due ==> f.packet != [] && f.lastReceive > 0
    ensures due <==> f.packet != [] && f.lastReceive > 0 && now > f.lastReceive + f.packetTimeout
  {
    f.lastReceive > 0 && now - f.lastReceive > f.packetTimeout && f.packet != []
  }

  /** Silence only grows: a packet due at `now` is still due later. */
  lemma PacketDueStaysDue(f: Framer, now: nat, later: nat)
    requires PacketDue(f, now) && now <= later
    ensures PacketDue(f, later)
  {
  }

  /** The outcome of one iteration: the new framer, the packet emitted (if
      any), and whether the loop found the port closed. */
  datatype StepOut = StepOut(framer: Framer, emitted: Option<seq<Byte>>, closesPort: bool)

  function Emits(o: StepOut): seq<seq<Byte>>
  {
    if o.emitted.Some? then [o.emitted.value] else []
  }

  function EmittedBytes(o: StepOut): seq<Byte>
  {
    if o.emitted.Some? then o.emitted.value else []
  }

  lemma ConcatEmits(o: StepOut)
    ensures Concat(Emits(o)) == EmittedBytes(o)
  {
    if o.emitted.Some? {
      ConcatCons(o.emitted.value, []);
    }
  }

  /** One pass of the body of the read loop. */
  function Advance(f: Framer, now: nat, poll: Poll): (r: StepOut)
    // a packet leaves exactly when data or silence meets a due packet
    ensures r.emitted.Some? <==> !poll.ReadError? && PacketDue(f, now)
    // only a chunk moves the last receive instant, and it moves it to now
    ensures r.framer.lastReceive == if poll.Chunk? then now else f.lastReceive
    ensures r.framer.packetTimeout == f.packetTimeout
    // a driver error leaves the framer alone; the loop ends iff the port is gone
    ensures poll.ReadError? ==> r.framer == f
    ensures r.closesPort <==> poll == ReadError(false)
  {
    match poll
    case Chunk(data) =>
      if PacketDue(f, now) then StepOut(Framer(data, now, f.packetTimeout), Some(f.packet), false)
      else StepOut(Framer(f.packet + data, now, f.packetTimeout), None, false)
    case Idle =>
      if PacketDue(f, now) then StepOut(f.(packet := []), Some(f.packet), false)
      else StepOut(f, None, false)
    case ReadError(stillOpen) =>
      StepOut(f, None, !stillOpen)
  }

  /** What one pass does to the bytes: a packet that leaves is the whole
      old accumulator and is never empty; a chunk that does not close a
      packet is appended to the accumulator, one that does starts the next
      packet; a silence that closes a packet empties the accumulator; and
      no byte is lost, duplicated or reordered. */
  lemma AdvanceBytes(f: Framer, now: nat, poll: Poll)
    ensures var r := Advance(f, now, poll);
            && (r.emitted.Some? ==> r.emitted.value == f.packet && r.emitted.value != [])
            && (poll.Chunk? && !PacketDue(f, now) ==> r.framer.packet == f.packet + poll.bytes)
            && (poll.Chunk? && PacketDue(f, now) ==> r.framer.packet == poll.bytes)
            && (poll.Idle? && PacketDue(f, now) ==> r.framer.packet == [])
            && EmittedBytes(r) + r.framer.packet == f.packet + BytesRead(poll)
  {
    if poll.Idle? && !PacketDue(f, now) {
      assert f.packet + [] == f.packet;
    }
  }

  /** The outcome of running the loop over a finite trace of iterations. */
  datatype RunOut = RunOut(framer: Framer, packets: seq<seq<Byte>>, closed: bool)

  /** The read loop over `ticks`; it stops early at an iteration that finds
      the port closed. */
  function Run(f: Framer, ticks: seq<Tick>): RunOut
    decreases |ticks|
  {
    if ticks == [] then RunOut(f, [], false)
    else
      var o := Advance(f, ticks[0].now, ticks[0].poll);
      if o.closesPort then RunOut(o.framer, Emits(o), true)
      else
        var rest := Run(o.framer, ticks[1..]);
        RunOut(rest.framer, Emits(o) + rest.packets, rest.closed)
  }

  /** Each iteration emits at most one packet, and only an iteration can
      find the port closed. */
  lemma {:induction false} RunPacketsPerIteration(f: Framer, ticks: seq<Tick>)
    ensures |Run(f, ticks).packets| <= |ticks|
    ensures Run(f, ticks).closed ==> ticks != []
    decreases |ticks|
  {
    if ticks != [] {
      RunPacketsPerIteration(Advance(f, ticks[0].now, ticks[0].poll).framer, ticks[1..]);
    }
  }

  /** The bytes the loop reads from `ticks` before it stops. */
  function Received(ticks: seq<Tick>): seq<Byte>
    decreases |ticks|
  {
    if ticks == [] then []
    else if ticks[0].poll == ReadError(false) then []
    else BytesRead(ticks[0].poll) + Received(ticks[1..])
  }

  /** A run preceded by packets already emitted. */
  function Then(done: seq<seq<Byte>>, r: RunOut): RunOut
  {
    RunOut(r.framer, done + r.packets, r.closed)
  }

  /** One unfolding of `Run` and `Received` at position `i` of a trace. */
  lemma RunAt(f: Framer, ticks: seq<Tick>, i: nat)
    requires i < |ticks|
    ensures var o := Advance(f, ticks[i].now, ticks[i].poll);
            if o.closesPort then
              Run(f, ticks[i..]) == RunOut(f, [], true) && Received(ticks[i..]) == []
            else
              && Run(f, ticks[i..]) == Then(Emits(o), Run(o.framer, ticks[i + 1..]))
              && Received(ticks[i..]) == BytesRead(ticks[i].poll) + Received(ticks[i + 1..])
  {
    assert ticks[i..][0] == ticks[i];
    assert ticks[i..][1..] == ticks[i + 1..];
  }

  /** What the read loop knows after one more iteration, when `target` is
      the run of the whole trace and `done` the packets emitted so far. */
  lemma LoopStep(f: Framer, ticks: seq<Tick>, i: nat, done: seq<seq<Byte>>, target: RunOut,
                 total: seq<Byte>, received: seq<Byte>)
    requires i < |ticks|
    requires target == Then(done, Run(f, ticks[i..]))
    requires total == received + Received(ticks[i..])
    ensures var o := Advance(f, ticks[i].now, ticks[i].poll);
            if o.closesPort then
              target == RunOut(o.framer, done + Emits(o), true) && total == received + BytesRead(ticks[i].poll)
            else
              && target == Then(done + Emits(o), Run(o.framer, ticks[i + 1..]))
              && total == (received + BytesRead(ticks[i].poll)) + Received(ticks[i + 1..])
  {
    RunAt(f, ticks, i);
    var o := Advance(f, ticks[i].now, ticks[i].poll);
    if !o.closesPort {
      var rest := Run(o.framer, ticks[i + 1..]);
      assert done + (Emits(o) + rest.packets) == (done + Emits(o)) + rest.packets;
      assert received + (BytesRead(ticks[i].poll) + Received(ticks[i + 1..]))
             == (received + BytesRead(ticks[i].poll)) + Received(ticks[i + 1..]);
    } else {
      assert Emits(o) == [] && BytesRead(ticks[i].poll) == [];
    }
  }

  /** Byte conservation over a run: the emitted packets followed by the
      accumulator are exactly the old accumulator followed by every byte
      read. */
  lemma {:induction false} RunConservesBytes(f: Framer, ticks: seq<Tick>)
    ensures Concat(Run(f, ticks).packets) + Run(f, ticks).framer.packet == f.packet + Received(ticks)
    decreases |ticks|
  {
    if ticks == [] {
      assert Concat([]) == [];
    } else {
      var o := Advance(f, ticks[0].now, ticks[0].poll);
      if !o.closesPort {
        var rest := Run(o.framer, ticks[1..]);
        RunConservesBytes(o.framer, ticks[1..]);
        ConcatEmits(o);
        ConcatChain(Emits(o), rest.packets, o.framer.packet, rest.framer.packet,
                    f.packet, BytesRead(ticks[0].poll), Received(ticks[1..]));
      } else {
        assert Concat([]) == [];
      }
    }
  }

  /** The algebra of one conservation step, kept apart from the framer. */
  lemma ConcatChain(e: seq<seq<Byte>>, rest: seq<seq<Byte>>, p: seq<Byte>, q: seq<Byte>,
                    f: seq<Byte>, b: seq<Byte>, tail: seq<Byte>)
    requires Concat(e) + p == f + b
    requires Concat(rest) + q == p + tail
    ensures Concat(e + rest) + q == f + (b + tail)
  {
    ConcatAppend(e, rest);
    calc {
      Concat(e + rest) + q;
      Concat(e) + (Concat(rest) + q);
      (Concat(e) + p) + tail;
      f + (b + tail);
    }
  }

  /** Every packet a run emits is non-empty, and the run never changes the
      packet timeout. */
  lemma {:induction false} RunPacketsNonEmpty(f: Framer, ticks: seq<Tick>)
    ensures forall i :: 0 <= i < |Run(f, ticks).packets| ==> Run(f, ticks).packets[i] != []
    ensures Run(f, ticks).framer.packetTimeout == f.packetTimeout
    decreases |ticks|
  {
    if ticks != [] {
      var o := Advance(f, ticks[0].now, ticks[0].poll);
      if !o.closesPort {
        RunPacketsNonEmpty(o.framer, ticks[1..]);
      }
    }
  }

  /** One unfolding of `Run` at an iteration that does not close the port. */
  lemma RunUnfold(f: Framer, ticks: seq<Tick>)
    requires ticks != []
    ensures var o := Advance(f, ticks[0].now, ticks[0].poll);
            !o.closesPort ==> Run(f, ticks) == Then(Emits(o), Run(o.framer, ticks[1..]))
  {
  }

  /** The first iteration of a run that does not find the port closed,
      unfolded both in the run over `a` and in the run over `a + b`. */
  lemma RunAppendStep(f: Framer, a: seq<Tick>, b: seq<Tick>)
    requires a != [] && !Run(f, a).closed
    ensures var o := Advance(f, a[0].now, a[0].poll);
            && !Run(o.framer, a[1..]).closed
            && Run(f, a) == Then(Emits(o), Run(o.framer, a[1..]))
            && Run(f, a + b) == Then(Emits(o), Run(o.framer, a[1..] + b))
  {
    assert (a + b)[0] == a[0] && (a + b)[1..] == a[1..] + b;
    RunUnfold(f, a);
    RunUnfold(f, a + b);
  }

  /** A run over `a` that does not find the port closed, followed by a run
      over `b` from where it ended, is the run over `a + b`. */
  lemma {:induction false} RunAppend(f: Framer, a: seq<Tick>, b: seq<Tick>)
    requires !Run(f, a).closed
    ensures Run(f, a + b) == Then(Run(f, a).packets, Run(Run(f, a).framer, b))
    decreases |a|
  {
    if a == [] {
      assert a + b == b;
    } else {
      var g := Advance(f, a[0].now, a[0].poll).framer;
      var out := Emits(Advance(f, a[0].now, a[0].poll));
      RunAppendStep(f, a, b);
      RunAppend(g, a[1..], b);
      var left := Run(g, a[1..]);
      var right := Run(left.framer, b);
      assert out + (left.packets + right.packets) == (out + left.packets) + right.packets;
    }
  }

  /** The instant of the last chunk in `ticks`, or `last` when there is
      none: what the last receive field holds after them. */
  function LastChunkTime(last: nat, ticks: seq<Tick>): nat
    decreases |ticks|
  {
    if ticks == [] then last
    else LastChunkTime(if ticks[0].poll.Chunk? then ticks[0].now else last, ticks[1..])
  }

  predicate HasChunk(ticks: seq<Tick>)
    decreases |ticks|
  {
    ticks != [] && (ticks[0].poll.Chunk? || HasChunk(ticks[1..]))
  }

  /** No iteration of `ticks` meets a driver error or finds a packet due. */
  predicate Quiet(f: Framer, ticks: seq<Tick>)
    decreases |ticks|
  {
    || ticks == []
    || (&& !ticks[0].poll.ReadError?
        && !PacketDue(f, ticks[0].now)
        && Quiet(Advance(f, ticks[0].now, ticks[0].poll).framer, ticks[1..]))
  }

  /** A burst in terms of time: chunks, and polls that found no data, each
      no later than the packet timeout after the last chunk before it.
      When the accumulator starts empty, the polls up to and including the
      first chunk may come at any time. */
  predicate Burst(f: Framer, ticks: seq<Tick>)
  {
    forall i :: 0 <= i < |ticks| ==>
      && !ticks[i].poll.ReadError?
      && (|| (f.packet == [] && !HasChunk(ticks[..i]))
          || ticks[i].now <= LastChunkTime(f.lastReceive, ticks[..i]) + f.packetTimeout)
  }

  /** In a burst no poll finds a packet due. */
  lemma {:induction false} BurstIsQuiet(f: Framer, ticks: seq<Tick>)
    requires Burst(f, ticks)
    ensures Quiet(f, ticks)
    decreases |ticks|
  {
    if ticks != [] {
      var t, tail := ticks[0], ticks[1..];
      assert ticks[..0] == [];
      assert !PacketDue(f, t.now);
      var o := Advance(f, t.now, t.poll);
      assert o.framer.lastReceive == if t.poll.Chunk? then t.now else f.lastReceive;
      assert t.poll.Idle? ==> o.framer == f;
      forall i | 0 <= i < |tail|
        ensures && !tail[i].poll.ReadError?
                && (|| (o.framer.packet == [] && !HasChunk(tail[..i]))
                    || tail[i].now <= LastChunkTime(o.framer.lastReceive, tail[..i]) + o.framer.packetTimeout)
      {
        var pre := ticks[..i + 1];
        assert pre[0] == t && pre[1..] == tail[..i];
        assert tail[i] == ticks[i + 1];
        assert HasChunk(pre) == (t.poll.Chunk? || HasChunk(tail[..i]));
        assert LastChunkTime(f.lastReceive, pre) == LastChunkTime(o.framer.lastReceive, tail[..i]);
      }
      BurstIsQuiet(o.framer, tail);
    }
  }

  /** A quiet stretch emits nothing and leaves all its bytes in the
      accumulator, stamped with the instant of its last chunk. */
  lemma {:induction false} BurstAccumulates(f: Framer, ticks: seq<Tick>)
    requires Quiet(f, ticks)
    ensures var r := Run(f, ticks);
            && r.packets == [] && !r.closed
            && r.framer.packet == f.packet + Received(ticks)
            && r.framer.packetTimeout == f.packetTimeout
            && r.framer.lastReceive == LastChunkTime(f.lastReceive, ticks)
    decreases |ticks|
  {
    if ticks == [] {
      assert f.packet + [] == f.packet;
    } else {
      var t, tail := ticks[0], ticks[1..];
      var o := Advance(f, t.now, t.poll);
      assert && o.emitted == None && !o.closesPort
             && o.framer.packet == f.packet + BytesRead(t.poll)
             && o.framer.packetTimeout == f.packetTimeout
             && o.framer.lastReceive == if t.poll.Chunk? then t.now else f.lastReceive by {
        AdvanceBytes(f, t.now, t.poll);
      }
      assert Run(f, ticks) == Then([], Run(o.framer, tail)) by {
        RunUnfold(f, ticks);
      }
      assert Received(ticks) == BytesRead(t.poll) + Received(tail);
      BurstAccumulates(o.framer, tail);
      assert (f.packet + BytesRead(t.poll)) + Received(tail) == f.packet + (BytesRead(t.poll) + Received(tail));
    }
  }

  /** A poll that finds no data and a packet due emits the accumulator and
      empties it. */
  lemma SilenceCloses(f: Framer, now: nat)
    requires PacketDue(f, now)
    ensures Run(f, [Tick(now, Idle)]) == RunOut(f.(packet := []), [f.packet], false)
  {
    assert [Tick(now, Idle)][1..] == [];
  }

  /** A quiet stretch followed by a poll more than the packet timeout after
      its last chunk comes out as exactly one packet holding the
      accumulator and every byte of the stretch. */
  lemma BurstThenSilenceIsOnePacket(f: Framer, ticks: seq<Tick>, quiet: nat)
    requires Quiet(f, ticks)
    requires LastChunkTime(f.lastReceive, ticks) > 0
    requires f.packet + Received(ticks) != []
    requires quiet > LastChunkTime(f.lastReceive, ticks) + f.packetTimeout
    ensures var r := Run(f, ticks + [Tick(quiet, Idle)]);
            && r.packets == [f.packet + Received(ticks)] && !r.closed
            && r.framer.packet == []
            && r.framer.lastReceive == LastChunkTime(f.lastReceive, ticks)
            && r.framer.packetTimeout == f.packetTimeout
  {
    BurstAccumulates(f, ticks);
    RunAppend(f, ticks, [Tick(quiet, Idle)]);
    var g := Run(f, ticks).framer;
    SilenceCloses(g, quiet);
    assert [] + [g.packet] == [g.packet];
  }

  /** A burst closed by a poll at instant `close`. */
  datatype Segment = Segment(burst: seq<Tick>, close: nat)

  function SegmentTicks(s: Segment): seq<Tick>
  {
    s.burst + [Tick(s.close, Idle)]
  }

  function Flatten(segs: seq<Segment>): seq<Tick>
    decreases |segs|
  {
    if segs == [] then [] else SegmentTicks(segs[0]) + Flatten(segs[1..])
  }

  /** Each segment is a quiet stretch holding bytes, closed by a poll more
      than the packet timeout after its last chunk. */
  predicate ClosedBursts(f: Framer, segs: seq<Segment>)
    decreases |segs|
  {
    || segs == []
    || (var s := segs[0];
        var last := LastChunkTime(f.lastReceive, s.burst);
        && Quiet(f, s.burst)
        && last > 0
        && f.packet + Received(s.burst) != []
        && s.close > last + f.packetTimeout
        && ClosedBursts(Run(f, SegmentTicks(s)).framer, segs[1..]))
  }

  /** The packet each segment should give: the accumulator at its start
      followed by the bytes of its burst. */
  function BurstPackets(f: Framer, segs: seq<Segment>): seq<seq<Byte>>
    decreases |segs|
  {
    if segs == [] then []
    else [f.packet + Received(segs[0].burst)] + BurstPackets(Run(f, SegmentTicks(segs[0])).framer, segs[1..])
  }

  /** One packet per closed burst: the run over the segments emits exactly
      one packet for each of them, in order, holding that burst's bytes,
      and never finds the port closed. */
  lemma {:induction false} ClosedBurstsArePackets(f: Framer, segs: seq<Segment>)
    requires ClosedBursts(f, segs)
    ensures Run(f, Flatten(segs)).packets == BurstPackets(f, segs)
    ensures |Run(f, Flatten(segs)).packets| == |segs|
    ensures !Run(f, Flatten(segs)).closed
    decreases |segs|
  {
    if segs != [] {
      var s := segs[0];
      var st := SegmentTicks(s);
      BurstThenSilenceIsOnePacket(f, s.burst, s.close);
      RunAppend(f, st, Flatten(segs[1..]));
      ClosedBurstsArePackets(Run(f, st).framer, segs[1..]);
    }
  }

  /** A poll that finds no data and no packet due changes nothing. */
  lemma IdleNoop(f: Framer, now: nat, rest: seq<Tick>)
    requires !PacketDue(f, now)
    ensures Run(f, [Tick(now, Idle)] + rest) == Run(f, rest)
  {
    var ticks := [Tick(now, Idle)] + rest;
    assert ticks[0] == Tick(now, Idle) && ticks[1..] == rest;
    assert Advance(f, now, Idle).framer == f;
  }

  /** One chunk that does not close a packet, then a long enough silence,
      gives exactly one packet holding the accumulator and the chunk. */
  lemma OneChunkThenSilence(f: Framer, now: nat, data: seq<Byte>, quiet: nat)
    requires !PacketDue(f, now) && now > 0
    requires f.packet + data != []
    requires quiet > now + f.packetTimeout
    ensures Run(f, [Tick(now, Chunk(data)), Tick(quiet, Idle)]).packets == [f.packet + data]
  {
    var ticks := [Tick(now, Chunk(data))];
    assert ticks[1..] == [];
    assert Received(ticks) == data;
    assert LastChunkTime(f.lastReceive, ticks) == now;
    BurstThenSilenceIsOnePacket(f, ticks, quiet);
    assert ticks + [Tick(quiet, Idle)] == [Tick(now, Chunk(data)), Tick(quiet, Idle)];
  }

  /** Polls that find no data inside and after a burst do not split it:
      "HI" at 1000 ms and "YOU" at 1005 ms, polled at 1001, 1010 and 1014 ms
      with nothing read, give the single packet "HIYOU" at the poll of
      1016 ms. */
  lemma IdlePollsKeepOnePacket()
    ensures Run(Framer([], 0, DefaultPacketTimeout),
                [Tick(1000, Chunk([0x48, 0x49])), Tick(1001, Idle),
                 Tick(1005, Chunk([0x59, 0x4F, 0x55])), Tick(1010, Idle),
                 Tick(1014, Idle), Tick(1016, Idle)]).packets
            == [[0x48, 0x49, 0x59, 0x4F, 0x55]]
  {
    var f0 := Framer([], 0, DefaultPacketTimeout);
    var hi: seq<Byte> := [0x48, 0x49];
    var you: seq<Byte> := [0x59, 0x4F, 0x55];
    var burst := [Tick(1000, Chunk(hi)), Tick(1001, Idle), Tick(1005, Chunk(you)),
                  Tick(1010, Idle), Tick(1014, Idle)];
    var f1 := Advance(f0, 1000, Chunk(hi)).framer;
    assert f1 == Framer(hi, 1000, DefaultPacketTimeout);
    var f3 := Advance(f1, 1005, Chunk(you)).framer;
    assert f3 == Framer(hi + you, 1005, DefaultPacketTimeout);
    var b1 := burst[1..];
    var b2 := b1[1..];
    var b3 := b2[1..];
    var b4 := b3[1..];
    assert b4[1..] == [];
    assert Quiet(f3, b4) && Received(b4) == [] && LastChunkTime(1005, b4) == 1005;
    assert Quiet(f3, b3) && Received(b3) == [] && LastChunkTime(1005, b3) == 1005;
    assert Quiet(f1, b2) && Received(b2) == you && LastChunkTime(1000, b2) == 1005;
    assert Quiet(f1, b1) && Received(b1) == you && LastChunkTime(1000, b1) == 1005;
    assert Quiet(f0, burst) && Received(burst) == hi + you && LastChunkTime(0, burst) == 1005;
    BurstThenSilenceIsOnePacket(f0, burst, 1016);
    assert f0.packet + (hi + you) == [0x48, 0x49, 0x59, 0x4F, 0x55];
    assert burst + [Tick(1016, Idle)]
        == [Tick(1000, Chunk(hi)), Tick(1001, Idle), Tick(1005, Chunk(you)),
            Tick(1010, Idle), Tick(1014, Idle), Tick(1016, Idle)];
  }

  /** Two chunks separated by more than the packet timeout, then silence:
      two packets in order. */
  lemma TwoBurstsTwoPackets()
    ensures Run(Framer([], 0, DefaultPacketTimeout),
                [Tick(1000, Chunk([0x48, 0x49])),
                 Tick(1050, Chunk([0x59, 0x4F, 0x55])),
                 Tick(1100, Idle)]).packets
            == [[0x48, 0x49], [0x59, 0x4F, 0x55]]
  {
    var f0 := Framer([], 0, DefaultPacketTimeout);
    var hi: seq<Byte> := [0x48, 0x49];
    var you: seq<Byte> := [0x59, 0x4F, 0x55];
    var ticks := [Tick(1000, Chunk(hi)), Tick(1050, Chunk(you)), Tick(1100, Idle)];
    var o1 := Advance(f0, 1000, Chunk(hi));
    assert o1.framer == Framer(hi, 1000, DefaultPacketTimeout) && o1.emitted == None;
    var o2 := Advance(o1.framer, 1050, Chunk(you));
    assert o2.framer == Framer(you, 1050, DefaultPacketTimeout) && o2.emitted == Some(hi);
    var o3 := Advance(o2.framer, 1100, Idle);
    assert o3.emitted == Some(you);
    assert ticks[1..][1..] == [Tick(1100, Idle)];
  }

  // ---------------------------------------------------------------------
  // Hex send: strip spaces, then bytes.fromhex
  // ---------------------------------------------------------------------

  /** ASCII whitespace as the fromhex parser skips it: space, and tab,
      line feed, vertical tab, form feed, carriage return. */
  predicate IsAsciiSpace(c: char)
  {
    c == ' ' || '\t' <= c <= '\r'
  }

  /** The value of a hex digit of either case, or 16 for any other
      character. */
  function DigitValue(c: char): (v: nat)
    ensures v <= 16
  {
    if '0' <= c <= '9' then c as int - '0' as int
    else if 'a' <= c <= 'f' then c as int - 'a' as int + 10
    else if 'A' <= c <= 'F' then c as int - 'A' as int + 10
    else 16
  }

  predicate IsHexDigit(c: char)
  {
    DigitValue(c) < 16
  }

  /** `s.replace(" ", "")`: removes every space and only spaces. */
  function StripSpaces(s: string): (r: string)
    ensures ' ' !in r
    ensures |r| <= |s|
    decreases |s|
  {
    if s == [] then []
    else (if s[0] == ' ' then [] else [s[0]]) + StripSpaces(s[1..])
  }

  lemma {:induction false} StripSpacesAppend(a: string, b: string)
    ensures StripSpaces(a + b) == StripSpaces(a) + StripSpaces(b)
    decreases |a|
  {
    if a == [] {
      assert a + b == b;
    } else {
      var head := if a[0] == ' ' then [] else [a[0]];
      var rest := a[1..];
      var ab := a + b;
      assert ab[0] == a[0];
      assert ab[1..] == rest + b;
      StripSpacesAppend(rest, b);
      var x, y := StripSpaces(rest), StripSpaces(b);
      assert StripSpaces(ab) == head + StripSpaces(rest + b);
      assert StripSpaces(a) == head + x;
      assert head + (x + y) == (head + x) + y;
    }
  }

  /** `bytes.fromhex(s)`: pairs of hex digits, with ASCII whitespace allowed
      between pairs (never inside one); None where it raises ValueError. */
  function FromHex(s: string): (r: Option<seq<Byte>>)
    // two characters at least go into each byte
    ensures r.Some? ==> 2 * |r.value| <= |s|
    decreases |s|
  {
    if s == [] then Some([])
    else if IsAsciiSpace(s[0]) then FromHex(s[1..])
    else if |s| == 1 || !IsHexDigit(s[0]) || !IsHexDigit(s[1]) then None
    else
      match FromHex(s[2..])
      case None => None
      case Some(rest) => Some([16 * DigitValue(s[0]) + DigitValue(s[1])] + rest)
  }

  /** On input without whitespace, a success decodes pair i into byte i. */
  lemma {:induction false} FromHexDecodes(s: string)
    requires forall i :: 0 <= i < |s| ==> !IsAsciiSpace(s[i])
    requires FromHex(s).Some?
    ensures var r := FromHex(s).value;
            && 2 * |r| == |s|
            && forall i :: 0 <= i < |r| ==> r[i] == 16 * DigitValue(s[2 * i]) + DigitValue(s[2 * i + 1])
    decreases |s|
  {
    if s != [] {
      var t := s[2..];
      assert forall i :: 0 <= i < |t| ==> t[i] == s[i + 2];
      FromHexDecodes(t);
      var r, rest := FromHex(s).value, FromHex(t).value;
      assert r == [16 * DigitValue(s[0]) + DigitValue(s[1])] + rest;
      forall i | 1 <= i < |r|
        ensures r[i] == 16 * DigitValue(s[2 * i]) + DigitValue(s[2 * i + 1])
      {
        assert r[i] == rest[i - 1];
        assert t[2 * (i - 1)] == s[2 * i] && t[2 * (i - 1) + 1] == s[2 * i + 1];
      }
    }
  }

  /** Without whitespace, fromhex accepts exactly the even-length strings
      of hex digits. */
  lemma {:induction false} FromHexAccepts(s: string)
    requires forall i :: 0 <= i < |s| ==> !IsAsciiSpace(s[i])
    ensures FromHex(s).Some? <==> |s| % 2 == 0 && forall i :: 0 <= i < |s| ==> IsHexDigit(s[i])
    decreases |s|
  {
    if |s| >= 2 {
      var t := s[2..];
      assert forall i :: 0 <= i < |t| ==> t[i] == s[i + 2];
      FromHexAccepts(t);
      if IsHexDigit(s[0]) && IsHexDigit(s[1]) && (forall i :: 0 <= i < |t| ==> IsHexDigit(t[i])) {
        assert forall i :: 0 <= i < |s| ==> IsHexDigit(s[i]) by {
          forall i | 0 <= i < |s| ensures IsHexDigit(s[i]) {
            if i >= 2 { assert s[i] == t[i - 2]; }
          }
        }
      }
    }
  }

  /** The bytes a hex-mode send writes, or None when the send fails. */
  function HexPayload(data: string): (r: Option<seq<Byte>>)
    ensures r.Some? ==> 2 * |r.value| <= |data|
    ensures data == [] ==> r == Some([])
  {
    FromHex(StripSpaces(data))
  }

  /** A hex send without tabs or line breaks is accepted exactly when the
      text without its spaces is an even number of hex digits. */
  lemma HexPayloadAccepts(data: string)
    requires forall i :: 0 <= i < |data| ==> data[i] == ' ' || !IsAsciiSpace(data[i])
    ensures var h := StripSpaces(data);
            HexPayload(data).Some? <==> |h| % 2 == 0 && forall i :: 0 <= i < |h| ==> IsHexDigit(h[i])
  {
    StripSpacesNoSpace(data);
    FromHexAccepts(StripSpaces(data));
  }

  lemma {:induction false} StripSpacesNoSpace(data: string)
    requires forall i :: 0 <= i < |data| ==> data[i] == ' ' || !IsAsciiSpace(data[i])
    ensures forall i :: 0 <= i < |StripSpaces(data)| ==> !IsAsciiSpace(StripSpaces(data)[i])
    decreases |data|
  {
    if data != [] {
      var t := data[1..];
      assert forall i :: 0 <= i < |t| ==> t[i] == data[i + 1];
      StripSpacesNoSpace(t);
    }
  }

  lemma {:induction false} StripSpacesNoop(s: string)
    requires ' ' !in s
    ensures StripSpaces(s) == s
    decreases |s|
  {
    if s != [] {
      assert s[0] in s;
      assert ' ' !in s[1..];
      StripSpacesNoop(s[1..]);
    }
  }

  /** `"a b"` loses its one space. */
  lemma StripOneSpace(a: string, b: string)
    requires ' ' !in a && ' ' !in b
    ensures StripSpaces(a + " " + b) == a + b
  {
    StripSpacesAppend(a + " ", b);
    StripSpacesAppend(a, " ");
    StripSpacesNoop(a);
    StripSpacesNoop(b);
    assert StripSpaces(" ") == [];
    assert StripSpaces(a + " ") == a;
  }

  /** Four hex digits decode to two bytes. */
  lemma DecodesFourDigits(h: string)
    requires |h| == 4 && forall i :: 0 <= i < 4 ==> IsHexDigit(h[i])
    ensures FromHex(h) == Some([16 * DigitValue(h[0]) + DigitValue(h[1]),
                                16 * DigitValue(h[2]) + DigitValue(h[3])])
  {
    FromHexAccepts(h);
    assert FromHex(h).Some?;
    FromHexDecodes(h);
    var r := FromHex(h).value;
    assert |r| == 2;
    assert r[0] == 16 * DigitValue(h[0]) + DigitValue(h[1]);
    assert r[1] == 16 * DigitValue(h[2]) + DigitValue(h[3]);
    assert r == [16 * DigitValue(h[0]) + DigitValue(h[1]), 16 * DigitValue(h[2]) + DigitValue(h[3])];
  }

  lemma HexPayloadExampleAccepted()
    ensures HexPayload("a1 b2") == Some([0xA1, 0xB2])
  {
    StripOneSpace("a1", "b2");
    assert "a1" + " " + "b2" == "a1 b2";
    assert "a1" + "b2" == "a1b2";
    DecodesFourDigits("a1b2");
  }

  lemma HexPayloadExampleOddLength()
    ensures HexPayload("a1b") == None
  {
    StripSpacesNoop("a1b");
    FromHexAccepts("a1b");
  }

  lemma HexPayloadExampleNotHex()
    ensures HexPayload("a1 zz") == None
  {
    StripOneSpace("a1", "zz");
    assert "a1" + " " + "zz" == "a1 zz";
    assert "a1" + "zz" == "a1zz";
    assert !IsHexDigit("a1zz"[2]);
    FromHexAccepts("a1zz");
  }

  /** The bytes a send writes, in hex or text mode (`encode` stands for
      UTF-8 encoding), or None when the conversion raises. */
  function Payload(data: string, isHex: bool, encode: string -> seq<Byte>): (r: Option<seq<Byte>>)
    ensures r.None? ==> isHex
    ensures isHex && r.Some? ==> 2 * |r.value| <= |data|
  {
    if isHex then HexPayload(data) else Some(encode(data))
  }

  function SentMessage(count: nat): string
  {
    SentPrefix + DecimalString(count) + SentSuffix
  }

  /** Emitting the accumulator and starting over with `next` keeps the
      emitted packets followed by the accumulator equal to what was read. */
  lemma EmitKeepsConservation(emitted: seq<seq<Byte>>, packet: seq<Byte>, received: seq<Byte>, next: seq<Byte>)
    requires Concat(emitted) + packet == received
    ensures Concat(emitted + [packet]) + next == received + next
  {
    ConcatAppend(emitted, [packet]);
    ConcatCons(packet, []);
  }

  /** The framer's invariant over the history since open: the emitted
      packets followed by the accumulator are every byte read, and no
      emitted packet is empty. */
  ghost predicate FramerInvariant(emitted: seq<seq<Byte>>, packet: seq<Byte>, received: seq<Byte>)
  {
    && Concat(emitted) + packet == received
    && forall i :: 0 <= i < |emitted| ==> emitted[i] != []
  }

  /** Emitting a non-empty accumulator and starting over with `next`
      keeps the invariant. */
  lemma EmitKeepsInvariant(emitted: seq<seq<Byte>>, packet: seq<Byte>, received: seq<Byte>, next: seq<Byte>)
    requires FramerInvariant(emitted, packet, received) && packet != []
    ensures FramerInvariant(emitted + [packet], next, received + next)
  {
    EmitKeepsConservation(emitted, packet, received, next);
    var e := emitted + [packet];
    forall i | 0 <= i < |e|
      ensures e[i] != []
    {
      if i < |emitted| {
        assert e[i] == emitted[i];
      }
    }
  }

  /** Appending `next` to the accumulator keeps the invariant. */
  lemma AppendKeepsInvariant(emitted: seq<seq<Byte>>, packet: seq<Byte>, received: seq<Byte>, next: seq<Byte>)
    requires FramerInvariant(emitted, packet, received)
    ensures FramerInvariant(emitted, packet + next, received + next)
  {
    assert Concat(emitted) + (packet + next) == (Concat(emitted) + packet) + next;
  }

  // ---------------------------------------------------------------------
  // The transport object
  // ---------------------------------------------------------------------

  class SerialPort {
    var isOpen: bool
    /** A driver handle exists. Closing keeps the handle object; only
        `isOpen` is cleared. */
    var hasHandle: bool
    var readTimeout: nat
    var packetTimeout: nat
    /** The read timeout currently configured on the driver handle. */
    var handleTimeout: nat
    var lastReceiveTime: nat
    var currentPacket: seq<Byte>

    /** Every byte read since the port was last opened. */
    ghost var received: seq<Byte>
    /** Every packet emitted since the port was last opened, in order. */
    ghost var emitted: seq<seq<Byte>>
    /** Every buffer handed to the driver's write, in order. */
    ghost var written: seq<seq<Byte>>

    ghost predicate Valid()
      reads this`isOpen, this`hasHandle, this`emitted, this`currentPacket, this`received
    {
      && (isOpen ==> hasHandle)
      && FramerInvariant(emitted, currentPacket, received)
    }

    /** The framer part of the state. */
    function Framing(): Framer
      reads this`currentPacket, this`lastReceiveTime, this`packetTimeout
    {
      Framer(currentPacket, lastReceiveTime, packetTimeout)
    }

    constructor ()
      ensures Valid()
      ensures !isOpen && !hasHandle
      ensures readTimeout == DefaultReadTimeout && packetTimeout == DefaultPacketTimeout
      ensures lastReceiveTime == 0 && currentPacket == []
      ensures received == [] && emitted == [] && written == []
    {
      isOpen, hasHandle := false, false;
      readTimeout, packetTimeout, handleTimeout := DefaultReadTimeout, DefaultPacketTimeout, 0;
      lastReceiveTime, currentPacket := 0, [];
      received, emitted, written := [], [], [];
    }

    /** Opens the driver with read timeout `timeout`; `failure` is the text
        of the exception the driver raised, if it raised one. The read
        timeout field is assigned before the driver is called. */
    method OpenPort(timeout: nat, failure: Option<string>) returns (ok: bool, msg: string)
      requires Valid()
      modifies this
      ensures Valid()
      ensures ok <==> failure.None?
      ensures readTimeout == timeout
      ensures packetTimeout == old(packetTimeout) && written == old(written)
      ensures ok ==> && msg == OpenSucceeded
                     && isOpen && hasHandle && handleTimeout == timeout
                     && currentPacket == [] && lastReceiveTime == 0
                     && received == [] && emitted == []
      ensures !ok ==> && msg == OpenFailedPrefix + failure.value
                      && isOpen == old(isOpen) && hasHandle == old(hasHandle)
                      && handleTimeout == old(handleTimeout)
                      && Framing() == old(Framing())
                      && received == old(received) && emitted == old(emitted)
    {
      readTimeout := timeout;
      if failure.Some? {
        ok, msg := false, OpenFailedPrefix + failure.value;
        return;
      }
      hasHandle, handleTimeout := true, timeout;
      isOpen := true;
      currentPacket, lastReceiveTime := [], 0;
      received, emitted := [], [];
      ok, msg := true, OpenSucceeded;
    }

    /** One iteration of the body of the read loop at instant `now`. */
    method Step(now: nat, poll: Poll) returns (packet: Option<seq<Byte>>)
      requires Valid()
      modifies this`isOpen, this`lastReceiveTime, this`currentPacket, this`received, this`emitted
      ensures Valid()
      ensures var o := Advance(old(Framing()), now, poll);
              && Framing() == o.framer
              && packet == o.emitted
              && isOpen == (old(isOpen) && !o.closesPort)
              && emitted == old(emitted) + Emits(o)
      ensures received == old(received) + BytesRead(poll)
    {
      match poll {
        case ReadError(stillOpen) =>
          if !stillOpen {
            isOpen := false;
          }
          packet := None;
        case Chunk(data) =>
          packet := TakeChunk(now, data);
        case Idle =>
          packet := CheckSilence(now);
      }
    }

    /** The branch of the loop body where the driver had bytes waiting:
        either they close the accumulated packet and start the next one,
        or they are appended to it. */
    method TakeChunk(now: nat, data: seq<Byte>) returns (packet: Option<seq<Byte>>)
      requires Valid()
      modifies this`lastReceiveTime, this`currentPacket, this`received, this`emitted
      ensures Valid()
      ensures PacketDue(old(Framing()), now) ==>
                && packet == Some(old(currentPacket))
                && emitted == old(emitted) + [old(currentPacket)]
                && currentPacket == data
      ensures !PacketDue(old(Framing()), now) ==>
                && packet == None
                && emitted == old(emitted)
                && currentPacket == old(currentPacket) + data
      ensures lastReceiveTime == now && received == old(received) + data
    {
      if lastReceiveTime > 0 && now - lastReceiveTime > packetTimeout && currentPacket != [] {
        EmitKeepsInvariant(emitted, currentPacket, received, data);
        packet := Some(currentPacket);
        emitted := emitted + [currentPacket];
        currentPacket := data;
      } else {
        AppendKeepsInvariant(emitted, currentPacket, received, data);
        packet := None;
        currentPacket := currentPacket + data;
      }
      lastReceiveTime := now;
      received := received + data;
    }

    /** The branch of the loop body where no byte was waiting: a due
        packet is emitted and the accumulator emptied. */
    method CheckSilence(now: nat) returns (packet: Option<seq<Byte>>)
      requires Valid()
      modifies this`currentPacket, this`emitted
      ensures Valid()
      ensures PacketDue(old(Framing()), now) ==>
                && packet == Some(old(currentPacket))
                && emitted == old(emitted) + [old(currentPacket)]
                && currentPacket == []
      ensures !PacketDue(old(Framing()), now) ==>
                packet == None && emitted == old(emitted) && currentPacket == old(currentPacket)
    {
      if currentPacket != [] && lastReceiveTime > 0 && now - lastReceiveTime > packetTimeout {
        EmitKeepsInvariant(emitted, currentPacket, received, []);
        assert received + [] == received;
        packet := Some(currentPacket);
        emitted := emitted + [currentPacket];
        currentPacket := [];
      } else {
        packet := None;
      }
    }

    /** The read loop over a finite trace of iterations: it runs while there
        are iterations left and the port is open. Its thread is started only
        by a successful open, so the port is open when it begins. */
    method ReadLoop(ticks: seq<Tick>) returns (packets: seq<seq<Byte>>)
      requires Valid() && isOpen
      modifies this`isOpen, this`lastReceiveTime, this`currentPacket, this`received, this`emitted
      ensures Valid()
      ensures var r := Run(old(Framing()), ticks);
              && Framing() == r.framer && packets == r.packets && isOpen == !r.closed
      ensures emitted == old(emitted) + packets
      ensures received == old(received) + Received(ticks)
    {
      packets := [];
      var i := 0;
      ghost var target := Run(Framing(), ticks);
      ghost var total := received + Received(ticks);
      assert ticks[0..] == ticks;
      while i < |ticks| && isOpen
        invariant 0 <= i <= |ticks|
        invariant Valid()
        invariant emitted == old(emitted) + packets
        invariant isOpen ==>
                    target == Then(packets, Run(Framing(), ticks[i..])) && total == received + Received(ticks[i..])
        invariant !isOpen ==> target == RunOut(Framing(), packets, true) && total == received
        decreases |ticks| - i
      {
        ghost var o := Advance(Framing(), ticks[i].now, ticks[i].poll);
        ghost var done := packets;
        ghost var rcv := received;
        LoopStep(Framing(), ticks, i, packets, target, total, received);
        var p := Step(ticks[i].now, ticks[i].poll);
        if p.Some? {
          packets := packets + [p.value];
        }
        assert packets == done + Emits(o);
        assert emitted == old(emitted) + packets;
        assert Framing() == o.framer && received == rcv + BytesRead(ticks[i].poll);
        i := i + 1;
      }
    }

    /** Replaces both timeouts; the driver handle takes the new read timeout
        only while the port is open. Framer contents are not touched. */
    method SetTimeouts(newReadTimeout: nat, newPacketTimeout: nat)
      requires Valid()
      modifies this`readTimeout, this`packetTimeout, this`handleTimeout
      ensures Valid()
      ensures readTimeout == newReadTimeout && packetTimeout == newPacketTimeout
      ensures handleTimeout == if hasHandle && isOpen then newReadTimeout else old(handleTimeout)
      ensures Framing() == old(Framing()).(packetTimeout := newPacketTimeout)
    {
      readTimeout := newReadTimeout;
      packetTimeout := newPacketTimeout;
      if hasHandle && isOpen {
        handleTimeout := newReadTimeout;
      }
    }

    /** Closes an open port. The accumulator is neither emitted nor cleared. */
    method ClosePort() returns (ok: bool, msg: string)
      requires Valid()
      modifies this`isOpen
      ensures Valid()
      ensures ok <==> old(isOpen) && hasHandle
      ensures ok ==> msg == CloseSucceeded && !isOpen
      ensures !ok ==> msg == PortNotOpen && isOpen == old(isOpen)
    {
      if isOpen && hasHandle {
        isOpen := false;
        ok, msg := true, CloseSucceeded;
      } else {
        ok, msg := false, PortNotOpen;
      }
    }

    /** Sends `data` as hex or as text (`encode` stands for UTF-8 encoding).
        `fromHexFailure` is the text of the ValueError fromhex raises and
        `writeFailure` the text of the exception the driver's write raises,
        if it raises one. */
    method SendData(data: string, isHex: bool, encode: string -> seq<Byte>,
                    fromHexFailure: string, writeFailure: Option<string>)
      returns (ok: bool, msg: string)
      requires Valid()
      modifies this`written
      ensures Valid()
      ensures !(isOpen && hasHandle) ==> !ok && msg == PortNotOpen && written == old(written)
      ensures isOpen && hasHandle ==>
                match Payload(data, isHex, encode)
                case None =>
                  !ok && msg == SendFailedPrefix + fromHexFailure && written == old(written)
                case Some(bytes) =>
                  if writeFailure.None? then
                    ok && msg == SentMessage(|bytes|) && written == old(written) + [bytes]
                  else
                    !ok && msg == SendFailedPrefix + writeFailure.value && written == old(written)
    {
      if !isOpen || !hasHandle {
        return false, PortNotOpen;
      }
      var bytes: seq<Byte>;
      if isHex {
        var hexData := StripSpaces(data);
        var decoded := FromHex(hexData);
        if decoded.None? {
          return false, SendFailedPrefix + fromHexFailure;
        }
        bytes := decoded.value;
      } else {
        bytes := encode(data);
      }
      if writeFailure.Some? {
        return false, SendFailedPrefix + writeFailure.value;
      }
      written := written + [bytes];
      ok, msg := true, SentMessage(|bytes|);
    }
  }
}
