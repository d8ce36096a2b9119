/**
 * Runs from the very start of a connection (src/protocols/h2/connection.cpp): exactly which cuts of the
 * client's bytes lead through the handshake to the client's frames.
 */
module HandshakeRuns {
  import opened Options
  import opened Bits
  import opened Huffman
  import opened Frames
  import opened HpackParser
  import opened Reassembly
  import opened Http2
  import opened FrameRuns

  // ----- How many bytes a history accounts for -----

  function EventBytes(e: Event): nat {
    match e
    case Preface => |HTTP2_CLIENT_PREFACE|
    case Handshake(f) => |PackedFrame(f)|
    case Refused(f) => |PackedFrame(f)|
    case Got(f) => |PackedFrame(f)|
    case HeadersDone(_, _) => 0
    case Emitted(_) => 0
  }

  function TotalBytes(events: seq<Event>): nat {
    if events == [] then 0 else EventBytes(events[0]) + TotalBytes(events[1..])
  }

  lemma {:induction false} TotalConcat(a: seq<Event>, b: seq<Event>)
    ensures TotalBytes(a + b) == TotalBytes(a) + TotalBytes(b)
  {
    hide EventBytes;
    if a == [] {
      assert a + b == b;
    } else {
      ConsConcat(a, b);
      TotalConcat(a[1..], b);
    }
  }

  lemma FrameEvents(f: Frame, events: seq<Event>)
    requires events != [] && (events[0] == Got(f) || events[0] == Handshake(f) || events[0] == Refused(f))
    requires forall i :: 1 <= i < |events| ==> events[i].HeadersDone? || events[i].Emitted?
    ensures TotalBytes(events) == |PackedFrame(f)|
  {
    hide PackedFrame;
    SilentEvents(events[1..]);
  }

  lemma {:induction false} SilentEvents(events: seq<Event>)
    requires forall i :: 0 <= i < |events| ==> events[i].HeadersDone? || events[i].Emitted?
    ensures TotalBytes(events) == 0
  {
    if events != [] { SilentEvents(events[1..]); }
  }

  /** A complete frame is accounted for. */
  lemma FrameActBytes(t: Table, c: Conn, f: Frame)
    ensures TotalBytes(FrameAct(t, c, f).events) == |PackedFrame(f)|
  {
    if c.phase == Idle { FrameStepEvents(t, c, f); }
    hide FrameStep, PackedFrame;
    FrameEvents(f, FrameAct(t, c, f).events);
  }

  lemma FrameStepEvents(t: Table, c: Conn, f: Frame)
    ensures var events := FrameStep(t, c, f, 0).events;
            && events != [] && events[0] == Got(f)
            && forall i :: 1 <= i < |events| ==> events[i].HeadersDone? || events[i].Emitted?
  {
    hide ParsedFrame, RequestOf, StreamOf, PackedFrame;
  }

  lemma {:induction false} FramesRunBytes(t: Table, handler: Handler, c: Conn, frames: seq<Frame>)
    requires FramesRun(t, handler, c, frames).alive
    ensures TotalBytes(FramesRun(t, handler, c, frames).events) == |Wire(frames)|
    decreases |frames|
  {
    hide FrameAct, Handled, PackedFrame;
    if frames != [] {
      var p := FrameAct(t, c, frames[0]);
      FrameActBytes(t, c, frames[0]);
      FramesRunBytes(t, handler, p.conn, frames[1..]);
      TotalConcat(p.events, FramesRun(t, handler, p.conn, frames[1..]).events);
    }
  }

  function Kept(c: Conn): nat {
    |PartialBytes(c.unfinished)|
  }

  /** A call accounts for no more than it consumes, and past the preface, without a read error, for all of it. */
  lemma ProcessBytes(t: Table, c: Conn, packet: seq<uint8>)
    requires Partial(c.unfinished)
    ensures var p := ProcessStep(t, c, packet);
            && TotalBytes(p.events) + Kept(p.conn) <= p.consumed + Kept(c)
            && p.consumed <= |packet|
  {
    hide PartialBytes, PackedFrame;
    var p := ProcessStep(t, c, packet);
    if packet == [] {
    } else if c.phase == ClientPreface {
      if p.events != [] { assert TotalBytes([Preface]) == |HTTP2_CLIENT_PREFACE| by { assert [Preface][1..] == []; } }
    } else if PastPreface(c) {
      var r := ReadStep(c.unfinished, packet);
      ProcessPast(t, c, packet);
      ReadStepConserves(c.unfinished, packet);
      KeptFrame(r);
      hide ReadStep, ProcessStep, FrameAct;
      if r.result.Complete? {
        var c' := c.(unfinished := None);
        FrameActKeeps(t, c', r.result.frame);
        FrameActBytes(t, c', r.result.frame);
      }
    }
  }

  lemma KeptFrame(r: Read)
    ensures PartialBytes(None) == []
    ensures r.result.Complete? ==> PartialBytes(Some(r.result.frame)) == PackedFrame(r.result.frame)
  {
  }

  // ----- Runs that account for every byte -----

  /** What a run has accounted for, out of `n` bytes. */
  predicate Within(c: Conn, n: nat, h: History) {
    TotalBytes(h.events) + Kept(h.conn) <= n + Kept(c)
  }

  /** Nothing was dropped. */
  predicate Exact(c: Conn, n: nat, h: History) {
    h.alive && TotalBytes(h.events) + Kept(h.conn) == n + Kept(c)
  }

  lemma {:induction false} PacketWithin(t: Table, handler: Handler, c: Conn, packet: seq<uint8>)
    requires Partial(c.unfinished)
    ensures Within(c, |packet|, PacketRun(t, handler, c, packet))
    decreases |packet|
  {
    PacketRunOnce(t, handler, c, packet);
    ProcessBytes(t, c, packet);
    var p := ProcessStep(t, c, packet);
    var outcome := Handled(handler, p);
    assert outcome.Returns? ==> outcome == p.outcome;
    hide ProcessStep, PacketRun, Handled, PartialBytes;
    if outcome.Returns? && packet != [] {
      var rest := packet[p.consumed..];
      PacketWithin(t, handler, p.conn, rest);
      TotalConcat(p.events, PacketRun(t, handler, p.conn, rest).events);
    }
  }

  lemma {:induction false} PacketsWithin(t: Table, handler: Handler, c: Conn, packets: seq<seq<uint8>>)
    requires Partial(c.unfinished)
    ensures Within(c, |Concat(packets)|, PacketsRun(t, handler, c, packets))
    decreases |packets|
  {
    hide PacketRun, PartialBytes;
    if packets != [] {
      var first := PacketRun(t, handler, c, packets[0]);
      PacketsRunOnce(t, handler, c, packets);
      PacketWithin(t, handler, c, packets[0]);
      hide PacketsRun;
      if first.alive {
        PacketsWithin(t, handler, first.conn, packets[1..]);
        TotalConcat(first.events, PacketsRun(t, handler, first.conn, packets[1..]).events);
      }
    }
  }

  /** One call, with what is left of the packet: what it has accounted for, and whether the loop goes on. */
  lemma CallBytes(t: Table, handler: Handler, c: Conn, packet: seq<uint8>)
    requires PastPreface(c) && Partial(c.unfinished) && packet != []
    ensures var r, p, h := ReadStep(c.unfinished, packet), ProcessStep(t, c, packet), PacketRun(t, handler, c, packet);
            && (r.result.Failed? && r.result != Failed(InsufficientData) ==> !Exact(c, |packet|, h))
            && (r.result.Complete? || r.result == Failed(InsufficientData) ==>
                  && PastPreface(p.conn) && p.conn.unfinished == r.unfinished && p.consumed == r.consumed
                  && TotalBytes(p.events) + Kept(p.conn) == p.consumed + Kept(c)
                  && if Handled(handler, p).Returns? then
                       var rest := PacketRun(t, handler, p.conn, packet[r.consumed..]);
                       h == rest.(events := p.events + rest.events)
                     else h.events == p.events && h.conn.unfinished == r.unfinished && PastPreface(h.conn))
  {
    PacketRunOnce(t, handler, c, packet);
    ProcessPast(t, c, packet);
    ReadStepConserves(c.unfinished, packet);
    var r, p := ReadStep(c.unfinished, packet), ProcessStep(t, c, packet);
    KeptFrame(r);
    if r.result.Complete? {
      FrameActKeeps(t, c.(unfinished := None), r.result.frame);
      FrameActBytes(t, c.(unfinished := None), r.result.frame);
    }
    assert Handled(handler, p).Returns? ==> Handled(handler, p) == p.outcome;
    assert !p.outcome.Returns? ==> Handled(handler, p) == p.outcome;
    hide ReadStep, ProcessStep, PacketRun, Handled, PartialBytes, FrameAct, PackedFrame;
    assert TotalBytes([]) == 0;
  }

  /** If no byte of a packet was dropped, it was read without error. */
  lemma {:induction false} ExactPacketReads(t: Table, handler: Handler, c: Conn, packet: seq<uint8>)
    requires PastPreface(c) && Partial(c.unfinished)
    requires Exact(c, |packet|, PacketRun(t, handler, c, packet))
    ensures var h, r := PacketRun(t, handler, c, packet), ReadPacket(c.unfinished, packet);
            r.ok && PastPreface(h.conn) && h.conn.unfinished == r.unfinished
    decreases |packet|
  {
    if packet == [] {
      EmptyPacket(t, handler, c);
    } else {
      CallBytes(t, handler, c, packet);
      ReadPacketOnce(c.unfinished, packet);
      var r, p := ReadStep(c.unfinished, packet), ProcessStep(t, c, packet);
      assert 0 < r.consumed <= |packet| && (r.result == Failed(InsufficientData) ==> r.consumed == |packet|);
      assert r.result.Complete? ==> r.unfinished == None;
      hide ReadStep, ProcessStep, PacketRun, ReadPacket, Handled, PartialBytes, PastPreface;
      var rest := packet[r.consumed..];
      NoPacket(r.unfinished);
      if Handled(handler, p).Returns? {
        PacketWithin(t, handler, p.conn, rest);
        TotalConcat(p.events, PacketRun(t, handler, p.conn, rest).events);
        ExactPacketReads(t, handler, p.conn, rest);
        assert r.result == Failed(InsufficientData) ==> rest == [];
      } else {
        assert rest == [];
      }
    }
  }

  lemma NoPacket(u: Option<Frame>)
    requires Partial(u)
    ensures ReadPacket(u, []) == Run([], u, true)
  {
  }

  lemma {:induction false} ExactPacketsRead(t: Table, handler: Handler, c: Conn, packets: seq<seq<uint8>>)
    requires PastPreface(c) && Partial(c.unfinished)
    requires Exact(c, |Concat(packets)|, PacketsRun(t, handler, c, packets))
    ensures ReadPackets(c.unfinished, packets).ok
    decreases |packets|
  {
    hide PacketRun, PartialBytes, ReadPacket;
    if packets != [] {
      var first, rest := PacketRun(t, handler, c, packets[0]), packets[1..];
      PacketsRunOnce(t, handler, c, packets);
      ReadPacketsOnce(c.unfinished, packets);
      PacketWithin(t, handler, c, packets[0]);
      hide PacketsRun, ReadPackets, PastPreface;
      assert first.alive;
      PacketsWithin(t, handler, first.conn, rest);
      TotalConcat(first.events, PacketsRun(t, handler, first.conn, rest).events);
      ExactPacketReads(t, handler, c, packets[0]);
      ExactPacketsRead(t, handler, first.conn, rest);
    }
  }

  // ----- From the first byte -----

  /**
   * The first packet with anything in it holds the whole preface, and no packet from there on starts or
   * ends inside a frame header.
   */
  predicate PrefaceIsWhole(frames: seq<Frame>, packets: seq<seq<uint8>>) {
    packets != []
    && if packets[0] == [] then PrefaceIsWhole(frames, packets[1..])
       else
         var size := |HTTP2_CLIENT_PREFACE|;
         |packets[0]| >= size && NoHeaderIsCut(frames, 0, [packets[0][size..]] + packets[1..])
  }

  function Waiting(c: Conn): Conn {
    c.(phase := WaitClientSettings)
  }

  /** A packet that starts with the preface does what its rest does to a connection that has seen it. */
  lemma PrefaceSeen(t: Table, handler: Handler, c: Conn, packets: seq<seq<uint8>>)
    requires c.phase == ClientPreface && c.unfinished == None
    requires packets != [] && HTTP2_CLIENT_PREFACE <= packets[0]
    ensures var later := [packets[0][|HTTP2_CLIENT_PREFACE|..]] + packets[1..];
            var h := PacketsRun(t, handler, Waiting(c), later);
            PacketsRun(t, handler, c, packets) == h.(events := [Preface] + h.events)
  {
    var size, packet := |HTTP2_CLIENT_PREFACE|, packets[0];
    var later := [packet[size..]] + packets[1..];
    var p := Processed(Waiting(c), Returns(Settings), size, [Preface]);
    assert ProcessStep(t, c, packet) == p;
    PacketRunOnce(t, handler, c, packet);
    assert Handled(handler, p) == Returns(Settings);
    PacketsRunOnce(t, handler, c, packets);
    PacketsRunOnce(t, handler, Waiting(c), later);
    assert later[0] == packet[size..] && later[1..] == packets[1..];
    hide ProcessStep, PacketRun, PacketsRun;
    var first := PacketRun(t, handler, Waiting(c), packet[size..]);
    if first.alive { Associate([Preface], first.events, PacketsRun(t, handler, first.conn, packets[1..]).events); }
  }

  /** A first packet without the whole preface is dropped. */
  lemma PrefaceMissed(t: Table, handler: Handler, c: Conn, packets: seq<seq<uint8>>)
    requires c.phase == ClientPreface && c.unfinished == None
    requires packets != [] && packets[0] != [] && !(HTTP2_CLIENT_PREFACE <= packets[0])
    ensures !Exact(c, |Concat(packets)|, PacketsRun(t, handler, c, packets))
  {
    var c' := c.(closed := true);
    assert ProcessStep(t, c, packets[0]) == Processed(c, Throws, 0, []);
    PacketRunOnce(t, handler, c, packets[0]);
    PacketsRunOnce(t, handler, c, packets);
    PacketsWithin(t, handler, c', packets[1..]);
    hide ProcessStep, PacketRun, PacketsRun, PartialBytes;
    var rest := PacketsRun(t, handler, c', packets[1..]);
    assert [] + rest.events == rest.events;
  }

  lemma NothingInPacket(t: Table, handler: Handler, c: Conn, packets: seq<seq<uint8>>)
    requires Partial(c.unfinished) && packets != [] && packets[0] == []
    ensures PacketsRun(t, handler, c, packets) == PacketsRun(t, handler, c, packets[1..])
    ensures Concat(packets) == Concat(packets[1..])
  {
    EmptyPacket(t, handler, c);
    PacketsRunOnce(t, handler, c, packets);
    hide PacketRun, PacketsRun;
    var rest := PacketsRun(t, handler, c, packets[1..]);
    assert [] + rest.events == rest.events;
  }

  ghost predicate IsClientSettings(s: Frame) {
    WholeFrame(s) && s.kind == SETTINGS && s.length % 6 == 0
  }

  /** A connection that has answered the client's SETTINGS. */
  function HandShaken(hasZero: bool): Conn {
    Sent(Initial(hasZero), EMPTY_SETTINGS).(phase := Idle)
  }

  /** The run that is meant to be: the handshake, then each frame in turn. */
  ghost function MeantRun(t: Table, handler: Handler, hasZero: bool, s: Frame, frames: seq<Frame>): History {
    var g := FramesRun(t, handler, HandShaken(hasZero), frames);
    g.(events := [Preface] + ([Handshake(s)] + g.events))
  }

  lemma SettingsFirst(t: Table, handler: Handler, hasZero: bool, s: Frame, frames: seq<Frame>)
    requires IsClientSettings(s)
    ensures var g := FramesRun(t, handler, HandShaken(hasZero), frames);
            FramesRun(t, handler, Waiting(Initial(hasZero)), [s] + frames) == g.(events := [Handshake(s)] + g.events)
  {
    hide PackedFrame, FrameStep;
    var c := Waiting(Initial(hasZero));
    assert FrameAct(t, c, s) == Processed(HandShaken(hasZero), Returns(Settings), 0, [Handshake(s)]);
    FramesRunOnce(t, handler, c, s, frames);
    hide FramesRun;
  }

  /** What follows the preface, cut into packets. */
  lemma AfterPreface(t: Table, handler: Handler, hasZero: bool, s: Frame, frames: seq<Frame>, later: seq<seq<uint8>>)
    requires IsClientSettings(s) && AllWholeFrames(frames) && Concat(later) == Wire([s] + frames)
    requires FramesRun(t, handler, HandShaken(hasZero), frames).alive
    ensures var h, g := PacketsRun(t, handler, Waiting(Initial(hasZero)), later),
                        FramesRun(t, handler, HandShaken(hasZero), frames);
            && (NoHeaderIsCut([s] + frames, 0, later) ==> h == g.(events := [Handshake(s)] + g.events))
            && (h == g.(events := [Handshake(s)] + g.events) ==> NoHeaderIsCut([s] + frames, 0, later))
  {
    var all, c := [s] + frames, Waiting(Initial(hasZero));
    assert AllWholeFrames(all);
    ReassemblyIsExact(all, later);
    PacketsAreTheirFrames(t, handler, c, later);
    assert c.(unfinished := None) == c;
    SettingsFirst(t, handler, hasZero, s, frames);
    RunStaysPastPreface(t, handler, c, all);
    hide ReadPackets, PacketsRun, NoHeaderIsCut, Wire, Concat, AllWholeFrames;
    var h, g := PacketsRun(t, handler, c, later), FramesRun(t, handler, c, all);
    FramesRunBytes(t, handler, c, all);
    hide FramesRun;
    if h == g {
      assert Exact(c, |Concat(later)|, h);
      ExactPacketsRead(t, handler, c, later);
    }
  }

  /**
   * The client's preface, its SETTINGS and its frames, cut into packets: the run is the handshake and then
   * each frame in turn, if and only if the first packet with anything in it holds the whole preface and no
   * packet boundary after that lies inside a frame header.
   */
  lemma {:induction false} RunFromTheStart(t: Table, handler: Handler, hasZero: bool, s: Frame, frames: seq<Frame>,
                                           packets: seq<seq<uint8>>)
    requires IsClientSettings(s) && AllWholeFrames(frames)
    requires FramesRun(t, handler, HandShaken(hasZero), frames).alive
    requires Concat(packets) == HTTP2_CLIENT_PREFACE + Wire([s] + frames)
    ensures PacketsRun(t, handler, Initial(hasZero), packets) == MeantRun(t, handler, hasZero, s, frames)
            <==> PrefaceIsWhole([s] + frames, packets)
    decreases |packets|
  {
    var c, size := Initial(hasZero), |HTTP2_CLIENT_PREFACE|;
    hide FramesRun, Wire, AllWholeFrames, NoHeaderIsCut, PacketsRun, HandShaken;
    assert packets != [] && Concat(packets) == packets[0] + Concat(packets[1..]);
    if packets[0] == [] {
      NothingInPacket(t, handler, c, packets);
      RunFromTheStart(t, handler, hasZero, s, frames, packets[1..]);
    } else if HTTP2_CLIENT_PREFACE <= packets[0] {
      var later := [packets[0][size..]] + packets[1..];
      RestAfterPreface(packets[0], Concat(packets[1..]), Wire([s] + frames));
      assert later[1..] == packets[1..];
      assert Concat(later) == packets[0][size..] + Concat(packets[1..]);
      hide Concat;
      PrefaceSeen(t, handler, c, packets);
      AfterPreface(t, handler, hasZero, s, frames, later);
      SamePrefix(PacketsRun(t, handler, Waiting(c), later).events,
                 [Handshake(s)] + FramesRun(t, handler, HandShaken(hasZero), frames).events);
    } else {
      LongPacket(packets[0], Concat(packets[1..]), Wire([s] + frames));
      PrefaceMissed(t, handler, c, packets);
      MeantRunIsExact(t, handler, hasZero, s, frames);
      hide Concat;
    }
  }

  lemma SamePrefix(a: seq<Event>, b: seq<Event>)
    ensures [Preface] + a == [Preface] + b <==> a == b
  {
    assert ([Preface] + a)[1..] == a && ([Preface] + b)[1..] == b;
  }

  lemma RestAfterPreface(packet: seq<uint8>, rest: seq<uint8>, wire: seq<uint8>)
    requires packet + rest == HTTP2_CLIENT_PREFACE + wire && HTTP2_CLIENT_PREFACE <= packet
    ensures packet[|HTTP2_CLIENT_PREFACE|..] + rest == wire
  {
    var n := |HTTP2_CLIENT_PREFACE|;
    assert (packet + rest)[n..] == packet[n..] + rest;
    assert (HTTP2_CLIENT_PREFACE + wire)[n..] == wire;
  }

  /** A long enough packet starts with the preface that its bytes start with. */
  lemma LongPacket(packet: seq<uint8>, rest: seq<uint8>, wire: seq<uint8>)
    requires packet + rest == HTTP2_CLIENT_PREFACE + wire
    ensures |packet| >= |HTTP2_CLIENT_PREFACE| ==> HTTP2_CLIENT_PREFACE <= packet
  {
    var n := |HTTP2_CLIENT_PREFACE|;
    if |packet| >= n {
      assert packet[..n] == (packet + rest)[..n] == (HTTP2_CLIENT_PREFACE + wire)[..n] == HTTP2_CLIENT_PREFACE;
    }
  }

  lemma MeantRunIsExact(t: Table, handler: Handler, hasZero: bool, s: Frame, frames: seq<Frame>)
    requires IsClientSettings(s) && FramesRun(t, handler, HandShaken(hasZero), frames).alive
    ensures Exact(Initial(hasZero), |HTTP2_CLIENT_PREFACE + Wire([s] + frames)|,
                  MeantRun(t, handler, hasZero, s, frames))
  {
    var c := Waiting(Initial(hasZero));
    SettingsFirst(t, handler, hasZero, s, frames);
    RunStaysPastPreface(t, handler, c, [s] + frames);
    FramesRunBytes(t, handler, c, [s] + frames);
    var g := FramesRun(t, handler, c, [s] + frames);
    hide FramesRun, Wire, PackedFrame;
    TotalConcat([Preface], g.events);
    assert TotalBytes([Preface]) == |HTTP2_CLIENT_PREFACE| by { assert [Preface][1..] == []; }
  }
}
