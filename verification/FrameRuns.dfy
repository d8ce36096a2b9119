/**
 * Past the preface, a connection does with packets what it would do with the frames in them, one after
 * another: the packet loop refines a loop over frames.  And exactly when a run from the very start comes
 * to the handshake and then to the frames.
 */
module FrameRuns {
  import opened Options
  import opened Bits
  import opened Huffman
  import opened Frames
  import opened HpackParser
  import opened Reassembly
  import opened Http2

  predicate PastPreface(c: Conn) {
    c.phase == WaitClientSettings || c.phase == Idle
  }

  /** A complete frame, in either phase. */
  ghost function FrameAct(t: Table, c: Conn, f: Frame): Processed {
    if c.phase == Idle then FrameStep(t, c, f, 0) else HandshakeStep(c, f, 0)
  }

  /** Frames one after another; `alive` as long as every one of them returns and its request is handled. */
  ghost function FramesRun(t: Table, handler: Handler, c: Conn, frames: seq<Frame>): History
    decreases |frames|
  {
    if frames == [] then History(c, [], true)
    else
      var p := FrameAct(t, c, frames[0]);
      if !Handled(handler, p).Returns? then History(p.conn, p.events, false)
      else
        var rest := FramesRun(t, handler, p.conn, frames[1..]);
        rest.(events := p.events + rest.events)
  }

  lemma FramesRunOnce(t: Table, handler: Handler, c: Conn, f: Frame, frames: seq<Frame>)
    ensures var p := FrameAct(t, c, f);
            FramesRun(t, handler, c, [f] + frames) ==
            if !Handled(handler, p).Returns? then History(p.conn, p.events, false)
            else
              var rest := FramesRun(t, handler, p.conn, frames);
              rest.(events := p.events + rest.events)
  {
    hide FrameAct, Handled;
    assert ([f] + frames)[0] == f && ([f] + frames)[1..] == frames;
  }

  lemma {:induction false} FramesRunConcat(t: Table, handler: Handler, c: Conn, a: seq<Frame>, b: seq<Frame>)
    ensures var g := FramesRun(t, handler, c, a);
            FramesRun(t, handler, c, a + b) ==
            if !g.alive then g
            else
              var rest := FramesRun(t, handler, g.conn, b);
              rest.(events := g.events + rest.events)
    decreases |a|
  {
    hide FrameAct, Handled;
    if a == [] {
      assert a + b == b;
      var rest := FramesRun(t, handler, c, b);
      assert [] + rest.events == rest.events;
    } else {
      var p := FrameAct(t, c, a[0]);
      assert a == [a[0]] + a[1..] && a + b == [a[0]] + (a[1..] + b);
      FramesRunOnce(t, handler, c, a[0], a[1..]);
      FramesRunOnce(t, handler, c, a[0], a[1..] + b);
      hide FramesRun;
      if Handled(handler, p).Returns? {
        FramesRunConcat(t, handler, p.conn, a[1..], b);
        var g := FramesRun(t, handler, p.conn, a[1..]);
        if g.alive { Associate(p.events, g.events, FramesRun(t, handler, g.conn, b).events); }
      }
    }
  }

  lemma FrameStepAnywhere(t: Table, c: Conn, f: Frame, consumed: nat)
    ensures FrameStep(t, c, f, consumed) == FrameStep(t, c, f, 0).(consumed := consumed)
  {
    hide ParsedFrame, RequestOf, StreamOf, PackedFrame;
  }

  lemma FrameActKeeps(t: Table, c: Conn, f: Frame)
    requires PastPreface(c)
    ensures var p := FrameAct(t, c, f);
            PastPreface(p.conn) && p.conn.unfinished == c.unfinished && p.outcome != Returns(Eof)
  {
    FrameStepKeeps(t, c, f, 0);
    hide FrameStep, PackedFrame;
  }

  lemma {:induction false} RunStaysPastPreface(t: Table, handler: Handler, c: Conn, frames: seq<Frame>)
    requires PastPreface(c)
    ensures var g := FramesRun(t, handler, c, frames); PastPreface(g.conn) && g.conn.unfinished == c.unfinished
    decreases |frames|
  {
    hide FrameAct, Handled, PastPreface;
    if frames != [] {
      FrameActKeeps(t, c, frames[0]);
      RunStaysPastPreface(t, handler, FrameAct(t, c, frames[0]).conn, frames[1..]);
    }
  }

  /** One call of `process` on a connection past its preface. */
  lemma ProcessPast(t: Table, c: Conn, packet: seq<uint8>)
    requires PastPreface(c) && Partial(c.unfinished) && packet != []
    ensures var r := ReadStep(c.unfinished, packet);
            var p := ProcessStep(t, c, packet);
            && (r.result.Complete? ==>
                  p == FrameAct(t, c.(unfinished := None), r.result.frame).(consumed := r.consumed)
                  && p.outcome != Returns(Eof))
            && (r.result == Failed(InsufficientData) ==>
                  p == Processed(c.(unfinished := r.unfinished), Returns(MoreInput), r.consumed, []))
            && (r.result.Failed? && r.result != Failed(InsufficientData) ==>
                  p.events == [] && p.conn.unfinished == None && PastPreface(p.conn)
                  && (p.outcome.Throws? || p.outcome.Exits?))
  {
    var r := ReadStep(c.unfinished, packet);
    if r.result.Complete? {
      var c' := c.(unfinished := None);
      FrameActKeeps(t, c', r.result.frame);
      FrameStepAnywhere(t, c', r.result.frame, r.consumed);
    }
    hide ReadStep, FrameStep, PackedFrame;
  }

  lemma PacketRunOnce(t: Table, handler: Handler, c: Conn, packet: seq<uint8>)
    requires Partial(c.unfinished)
    ensures var p := ProcessStep(t, c, packet);
            var outcome := Handled(handler, p);
            && (p.outcome == Returns(Eof) <==> packet == [])
            && (outcome == Returns(Eof) <==> p.outcome == Returns(Eof))
            && (outcome.Returns? && outcome != Returns(Eof) ==>
                  var rest := PacketRun(t, handler, p.conn, packet[p.consumed..]);
                  PacketRun(t, handler, c, packet) == rest.(events := p.events + rest.events))
            && (!outcome.Returns? || outcome == Returns(Eof) ==>
                  PacketRun(t, handler, c, packet)
                  == History(if outcome.Throws? then p.conn.(closed := true) else p.conn, p.events,
                             outcome.Returns? || outcome.Throws? || outcome.Drops?))
  {
    hide ProcessStep;
  }

  lemma EmptyPacket(t: Table, handler: Handler, c: Conn)
    requires Partial(c.unfinished)
    ensures PacketRun(t, handler, c, []) == History(c, [], true)
  {
    assert ProcessStep(t, c, []) == Processed(c, Returns(Eof), 0, []);
    PacketRunOnce(t, handler, c, []);
    hide ProcessStep, PacketRun;
  }

  /** What a packet does, told by the frames in it. */
  ghost predicate DoesItsFrames(t: Table, handler: Handler, c: Conn, packet: seq<uint8>)
    requires Partial(c.unfinished)
  {
    var r := ReadPacket(c.unfinished, packet);
    var g := FramesRun(t, handler, c.(unfinished := None), r.frames);
    r.ok && g.alive ==> PacketRun(t, handler, c, packet) == g.(conn := g.conn.(unfinished := r.unfinished))
  }

  lemma {:induction false} PacketIsItsFrames(t: Table, handler: Handler, c: Conn, packet: seq<uint8>)
    requires PastPreface(c) && Partial(c.unfinished)
    ensures DoesItsFrames(t, handler, c, packet)
    decreases |packet|
  {
    if packet == [] {
      EmptyPacket(t, handler, c);
      hide FrameAct;
      assert c.(unfinished := None).(unfinished := c.unfinished) == c;
    } else {
      ReadPacketOnce(c.unfinished, packet);
      var r := ReadStep(c.unfinished, packet);
      hide ReadStep, ReadPacket, PacketRun, PastPreface;
      if r.result.Complete? {
        FrameInPacket(t, handler, c, packet, r);
      } else if r.result == Failed(InsufficientData) {
        PartInPacket(t, handler, c, packet, r);
      }
    }
  }

  lemma FrameInPacket(t: Table, handler: Handler, c: Conn, packet: seq<uint8>, r: Read)
    requires PastPreface(c) && Partial(c.unfinished) && packet != []
    requires r == ReadStep(c.unfinished, packet) && r.result.Complete?
    ensures DoesItsFrames(t, handler, c, packet)
    decreases |packet|, 0
  {
    PacketRunOnce(t, handler, c, packet);
    ProcessPast(t, c, packet);
    ReadPacketOnce(c.unfinished, packet);
    var f, c' := r.result.frame, c.(unfinished := None);
    FrameActKeeps(t, c', f);
    var p := FrameAct(t, c', f);
    assert 0 < r.consumed <= |packet|;
    HandledAnywhere(handler, p, r.consumed);
    hide ReadStep, ProcessStep, ReadPacket, PacketRun, FrameAct, Handled, PastPreface;
    var rest := packet[r.consumed..];
    FramesRunOnce(t, handler, c', f, ReadPacket(None, rest).frames);
    if Handled(handler, p).Returns? {
      PacketIsItsFrames(t, handler, p.conn, rest);
      assert p.conn.(unfinished := None) == p.conn;
    }
  }

  lemma HandledAnywhere(handler: Handler, p: Processed, consumed: nat)
    ensures Handled(handler, p.(consumed := consumed)) == Handled(handler, p)
    ensures Handled(handler, p).Returns? ==> Handled(handler, p) == p.outcome
  {
  }

  lemma PartInPacket(t: Table, handler: Handler, c: Conn, packet: seq<uint8>, r: Read)
    requires PastPreface(c) && Partial(c.unfinished) && packet != []
    requires r == ReadStep(c.unfinished, packet) && r.result == Failed(InsufficientData)
    ensures DoesItsFrames(t, handler, c, packet)
  {
    PacketRunOnce(t, handler, c, packet);
    ProcessPast(t, c, packet);
    ReadPacketOnce(c.unfinished, packet);
    var c' := c.(unfinished := r.unfinished);
    assert packet[r.consumed..] == [];
    EmptyPacket(t, handler, c');
    hide ReadStep, ProcessStep, ReadPacket, PacketRun, FrameAct;
    assert FramesRun(t, handler, c.(unfinished := None), []) == History(c.(unfinished := None), [], true);
  }

  /**
   * Past the preface, as long as the packets read without error and every frame returns, processing the
   * packets is processing the frames in them.
   */
  lemma {:induction false} PacketsAreTheirFrames(t: Table, handler: Handler, c: Conn, packets: seq<seq<uint8>>)
    requires PastPreface(c) && Partial(c.unfinished)
    ensures var r := ReadPackets(c.unfinished, packets);
            var g := FramesRun(t, handler, c.(unfinished := None), r.frames);
            r.ok && g.alive ==> PacketsRun(t, handler, c, packets) == g.(conn := g.conn.(unfinished := r.unfinished))
    decreases |packets|
  {
    hide ReadPacket, PacketRun;
    var c' := c.(unfinished := None);
    if packets == [] {
      hide FrameAct;
      assert c'.(unfinished := c.unfinished) == c;
    } else {
      var rest := packets[1..];
      ReadPacketsOnce(c.unfinished, packets);
      PacketsRunOnce(t, handler, c, packets);
      PacketIsItsFrames(t, handler, c, packets[0]);
      var first := ReadPacket(c.unfinished, packets[0]);
      if first.ok {
        var later := ReadPackets(first.unfinished, rest);
        FramesRunConcat(t, handler, c', first.frames, later.frames);
        RunStaysPastPreface(t, handler, c', first.frames);
        hide FramesRun, ReadPackets, PacketsRun;
        var g := FramesRun(t, handler, c', first.frames);
        if g.alive {
          PacketsAreTheirFrames(t, handler, g.conn.(unfinished := first.unfinished), rest);
          assert g.conn.(unfinished := first.unfinished).(unfinished := None) == g.conn;
        }
      }
    }
  }

  lemma PacketsRunOnce(t: Table, handler: Handler, c: Conn, packets: seq<seq<uint8>>)
    requires Partial(c.unfinished) && packets != []
    ensures var first := PacketRun(t, handler, c, packets[0]);
            PacketsRun(t, handler, c, packets) ==
            if !first.alive then first
            else
              var rest := PacketsRun(t, handler, first.conn, packets[1..]);
              rest.(events := first.events + rest.events)
  {
    hide PacketRun;
  }

  /** So such a connection cannot tell two such ways of cutting the same bytes apart. */
  lemma ConnectionIgnoresCuts(t: Table, handler: Handler, c: Conn, packets: seq<seq<uint8>>, packets': seq<seq<uint8>>)
    requires PastPreface(c) && c.unfinished == None && Concat(packets) == Concat(packets')
    requires ReadPackets(None, packets).ok && ReadPackets(None, packets').ok
    requires FramesRun(t, handler, c, ReadPackets(None, packets).frames).alive
    ensures PacketsRun(t, handler, c, packets) == PacketsRun(t, handler, c, packets')
  {
    CutsDoNotMatter(packets, packets');
    assert c.(unfinished := None) == c;
    PacketsAreTheirFrames(t, handler, c, packets);
    PacketsAreTheirFrames(t, handler, c, packets');
    hide ReadPackets, PacketsRun, FramesRun;
  }
}
