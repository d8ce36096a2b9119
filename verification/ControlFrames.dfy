/**
 * What each kind of frame does to a connection past its handshake, by its number and its flags, and what the
 * connection answers, byte for byte (`process` in src/protocols/h2/connection.cpp).
 */
module ControlFrames {
  import opened Options
  import opened Bits
  import opened Huffman
  import opened VariableInteger
  import opened Frames
  import opened HpackStatics
  import opened HpackParser
  import opened HpackGrammar
  import opened Reassembly
  import opened Http2
  import opened FrameRuns
  import opened HandshakeRuns
  import opened Requests
  import Writers

  /**
   * The bytes that answer a frame: SETTINGS that are no acknowledgement are acknowledged, and PING is answered
   * on its stream with eight zero bytes.
   */
  function AnswerTo(f: Frame): seq<uint8> {
    var id := f.streamId;
    if f.kind == 0x4 && f.flags % 2 == 0 then [0x00, 0x00, 0x00, 0x04, 0x01, 0x00, 0x00, 0x00, 0x00]
    else if f.kind == 0x6 then
      [0x00, 0x00, 0x08, 0x06, 0x01, id / 0x100_0000 % 0x100, id / 0x1_0000 % 0x100, id / 0x100 % 0x100, id % 0x100]
      + [0x00, 0x00, 0x00, 0x00, 0x00, 0x00, 0x00, 0x00]
    else []
  }

  function AnswersTo(frames: seq<Frame>): seq<uint8> {
    if frames == [] then [] else AnswerTo(frames[0]) + AnswersTo(frames[1..])
  }

  lemma ControlBytes(f: Frame)
    ensures PackedFrame(EMPTY_SETTINGS) == [0x00, 0x00, 0x00, 0x04, 0x00, 0x00, 0x00, 0x00, 0x00]
    ensures f.kind == 0x4 && f.flags % 2 == 0 ==> PackedFrame(SETTINGS_ACK) == AnswerTo(f)
    ensures f.kind == 0x6 ==> PackedFrame(PingAck(f.streamId)) == AnswerTo(f)
  {
    HeaderBytes(EMPTY_SETTINGS);
    HeaderBytes(SETTINGS_ACK);
    HeaderBytes(PingAck(f.streamId));
    hide PackedHeader;
    assert PackedFrame(EMPTY_SETTINGS) == PackedHeader(EMPTY_SETTINGS);
    assert PackedFrame(SETTINGS_ACK) == PackedHeader(SETTINGS_ACK);
    assert PingAck(f.streamId).data == [0, 0, 0, 0, 0, 0, 0, 0];
  }

  // ----- One frame, by its kind -----

  ghost predicate SameStreams(c: Conn, c': Conn) {
    forall id: uint32 :: StreamOf(c', id) == StreamOf(c, id)
  }

  ghost predicate OtherStreamsSame(c: Conn, c': Conn, except: uint32) {
    forall id: uint32 :: id != except ==> StreamOf(c', id) == StreamOf(c, id)
  }

  /** Any frame but DATA, HEADERS and CONTINUATION: the call returns, and has done nothing but answer. */
  lemma ControlFrameOnlyAnswers(t: Table, c: Conn, f: Frame, consumed: nat)
    requires f.kind !in {0x0, 0x1, 0x9}
    ensures var p := FrameStep(t, c, f, consumed);
            && p.outcome == Returns(if f.kind in {0x4, 0x6, 0x8} then Settings else MoreInput)
            && p.consumed == consumed && p.events == [Got(f)]
            && p.conn.wire == c.wire + AnswerTo(f)
            && p.conn == c.(streams := p.conn.streams, wire := p.conn.wire) && SameStreams(c, p.conn)
  {
    ControlBytes(f);
    FlagBits(f.flags);
    hide PackedFrame, HasFlag, AnswerTo, RequestOf;
    NoAnswer(f);
    assert c.wire + [] == c.wire;
  }

  lemma NoAnswer(f: Frame)
    ensures f.kind != 0x6 && (f.kind != 0x4 || f.flags % 2 == 1) ==> AnswerTo(f) == []
  {
  }

  /** What is left of a stream that has made a request. */
  ghost predicate MadeRequest(c: Conn, p: Processed, id: uint32, headers: seq<Header>, data: seq<uint8>, before: seq<Event>) {
    && p.outcome == Returns(NewRequest) && p.conn.handled == c.handled + 1
    && |p.events| == |before| + 1 && p.events[..|before|] == before && p.events[|before|].Emitted?
    && var r := p.events[|before|].request;
    && IsMadeOf(r, id, headers, data)
    && StreamOf(p.conn, id) == Stream(id, headers, if r.Request? then [] else data)
  }

  /** DATA add to their stream, and with flag 0x1 make its request; nothing else changes. */
  lemma DataFrameAdds(t: Table, c: Conn, f: Frame, consumed: nat)
    requires f.kind == 0x0
    ensures var p, s := FrameStep(t, c, f, consumed), StreamOf(c, f.streamId);
            && p.consumed == consumed && OtherStreamsSame(c, p.conn, f.streamId)
            && p.conn == c.(streams := p.conn.streams, handled := p.conn.handled)
            && (f.flags % 2 == 0 ==>
                  && p.outcome == Returns(MoreInput) && p.events == [Got(f)] && p.conn.handled == c.handled
                  && StreamOf(p.conn, f.streamId) == Stream(f.streamId, s.headers, s.data + f.data))
            && (f.flags % 2 == 1 ==>
                  MadeRequest(c, p, f.streamId, s.headers, s.data + f.data, [Got(f)]))
  {
    FlagBits(f.flags);
    var s := StreamOf(c, f.streamId);
    var s' := s.(data := s.data + f.data);
    var done := WithStream(WithStream(c, s), s');
    hide PackedFrame, HasFlag, ParsedFrame, EmitRequest, MadeRequest;
    assert done.streams == c.streams[f.streamId := s'];
    OneStreamReplaced(c, done, s');
    if f.flags % 2 == 1 { EmitMakes(c, done, s', consumed, [Got(f)]); }
  }

  /** What a frame does whose block is not finished. */
  ghost predicate Unfinished(c: Conn, f: Frame, r: Parsed, p: Processed) {
    && p.events == [Got(f)] && SameStreams(c, p.conn)
    && p.conn == c.(streams := p.conn.streams, hpack := r.d, closed := c.closed || r.status in {UnknownHeader, Invalid})
    && (r.status == More ==> p.outcome == Returns(MoreInput))
    && (r.status == UnknownHeader || r.status == Invalid ==> p.outcome == Returns(InvalidInput))
    && (r.status.Raises? ==> p.outcome == if r.status.fault == InvalidArgument then Throws else Dies(r.status.fault))
    && (r.status.More? || r.status.UnknownHeader? || r.status.Invalid? || r.status.Raises?)
  }

  /** What a frame does whose block is finished. */
  ghost predicate Finishes(c: Conn, f: Frame, headers: seq<Header>, p: Processed) {
    var id, s := f.streamId, StreamOf(c, f.streamId);
    var events := [Got(f), HeadersDone(id, headers)];
    && OtherStreamsSame(c, p.conn, id)
    && p.conn == c.(streams := p.conn.streams, handled := p.conn.handled, hpack := p.conn.hpack)
    && (f.flags % 2 == 0 ==>
          && p.outcome == Returns(MoreInput) && p.conn.handled == c.handled && p.events == events
          && StreamOf(p.conn, id) == Stream(id, headers, s.data))
    && (f.flags % 2 == 1 ==> MadeRequest(c, p, id, headers, s.data, events))
  }

  lemma UnfinishedBlock(t: Table, c: Conn, f: Frame, consumed: nat)
    requires (f.kind == 0x1 || f.kind == 0x9) && ParsedFrame(t, c.hpack, f).status != Done
    ensures Unfinished(c, f, ParsedFrame(t, c.hpack, f), FrameStep(t, c, f, consumed))
  {
    FrameEnds(t, c.hpack, f);
    hide PackedFrame, HasFlag, RequestOf, ParsedFrame, EmitRequest;
  }

  lemma FinishedBlock(t: Table, c: Conn, f: Frame, consumed: nat)
    requires (f.kind == 0x1 || f.kind == 0x9) && ParsedFrame(t, c.hpack, f).status == Done
    ensures var r, p := ParsedFrame(t, c.hpack, f), FrameStep(t, c, f, consumed);
            Finishes(c, f, r.d.decoded, p) && p.conn.hpack == r.d.(decoded := [])
  {
    BlockStep(t, c, f, consumed);
    FlagBits(f.flags);
    var r, s, id := ParsedFrame(t, c.hpack, f), StreamOf(c, f.streamId), f.streamId;
    var listed := s.(headers := r.d.decoded);
    var done := WithStream(c.(hpack := r.d.(decoded := [])), listed);
    var events := [Got(f), HeadersDone(id, r.d.decoded)];
    hide FrameStep, HasFlag, ParsedFrame, EmitRequest, MadeRequest;
    OneStreamReplaced(c, done, listed);
    if f.flags % 2 == 1 { EmitMakes(c, done, listed, consumed, events); }
  }

  lemma OneStreamReplaced(c: Conn, done: Conn, s: Stream)
    requires done.streams == c.streams[s.streamId := s]
    ensures OtherStreamsSame(c, done, s.streamId) && StreamOf(done, s.streamId) == s
    ensures StreamOf(c, s.streamId).streamId == s.streamId
  {
  }

  lemma EmitMakes(c: Conn, done: Conn, s: Stream, consumed: nat, before: seq<Event>)
    requires done.streams == c.streams[s.streamId := s] && done.handled == c.handled
    ensures var p := EmitRequest(done, s, consumed, before);
            && MadeRequest(c, p, s.streamId, s.headers, s.data, before) && OtherStreamsSame(c, p.conn, s.streamId)
            && p.conn == done.(streams := p.conn.streams, handled := p.conn.handled) && p.consumed == consumed
  {
    RequestIsMadeOf(s);
    hide RequestOf, IsMadeOf;
    assert (before + [Emitted(RequestOf(s))])[..|before|] == before;
  }

  /**
   * HEADERS and CONTINUATION hand their fragment to the parser and never write.  A finished list replaces the
   * stream's headers, and with flag 0x1 makes its request; an invalid block or an unknown index closes the
   * connection; a missing string raises an exception; anything else that the parser meets is fatal.
   */
  lemma HeadersFrameParses(t: Table, c: Conn, f: Frame, consumed: nat)
    requires f.kind == 0x1 || f.kind == 0x9
    ensures var p, r := FrameStep(t, c, f, consumed), ParsedFrame(t, c.hpack, f);
            && p.consumed == consumed && p.conn.wire == c.wire
            && if r.status == Done then Finishes(c, f, r.d.decoded, p) && p.conn.hpack == r.d.(decoded := [])
               else Unfinished(c, f, r, p)
  {
    FrameStepKeeps(t, c, f, consumed);
    hide FrameStep, ParsedFrame, MadeRequest, SameStreams, OtherStreamsSame, StreamOf;
    if ParsedFrame(t, c.hpack, f).status == Done {
      FinishedBlock(t, c, f, consumed);
    } else {
      UnfinishedBlock(t, c, f, consumed);
    }
  }

  // ----- Everything a connection writes -----

  /** What is written on account of an event: the server's empty SETTINGS, or the answer to a frame. */
  function WrittenFor(e: Event): seq<uint8> {
    match e
    case Handshake(_) => [0x00, 0x00, 0x00, 0x04, 0x00, 0x00, 0x00, 0x00, 0x00]
    case Got(f) => AnswerTo(f)
    case _ => []
  }

  function WrittenForAll(events: seq<Event>): seq<uint8> {
    if events == [] then [] else WrittenFor(events[0]) + WrittenForAll(events[1..])
  }

  lemma {:induction false} WrittenConcat(a: seq<Event>, b: seq<Event>)
    ensures WrittenForAll(a + b) == WrittenForAll(a) + WrittenForAll(b)
  {
    hide WrittenFor;
    if a == [] {
      assert a + b == b;
    } else {
      ConsConcat(a, b);
      WrittenConcat(a[1..], b);
      Associate(WrittenFor(a[0]), WrittenForAll(a[1..]), WrittenForAll(b));
    }
  }

  lemma {:induction false} NothingWrittenFor(events: seq<Event>)
    requires forall i :: 0 <= i < |events| ==> !events[i].Handshake? && !events[i].Got?
    ensures WrittenForAll(events) == []
  {
    hide AnswerTo;
    if events != [] { NothingWrittenFor(events[1..]); }
  }

  lemma FirstIsAnswered(f: Frame, events: seq<Event>)
    requires events != [] && events[0] == Got(f)
    requires forall i :: 1 <= i < |events| ==> events[i].HeadersDone? || events[i].Emitted?
    ensures WrittenForAll(events) == AnswerTo(f)
  {
    hide AnswerTo;
    NothingWrittenFor(events[1..]);
    assert AnswerTo(f) + [] == AnswerTo(f);
  }

  lemma FrameStepAnswers(t: Table, c: Conn, f: Frame, consumed: nat)
    ensures var p := FrameStep(t, c, f, consumed);
            p.conn.wire == c.wire + AnswerTo(f) && WrittenForAll(p.events) == AnswerTo(f)
  {
    FrameStepEvents(t, c, f);
    FrameStepAnywhere(t, c, f, consumed);
    NoAnswer(f);
    assert c.wire + [] == c.wire;
    if f.kind == 0x0 {
      DataFrameAdds(t, c, f, consumed);
    } else if f.kind == 0x1 || f.kind == 0x9 {
      HeadersFrameParses(t, c, f, consumed);
    } else {
      ControlFrameOnlyAnswers(t, c, f, consumed);
    }
    hide *;
    FirstIsAnswered(f, FrameStep(t, c, f, consumed).events);
  }

  lemma ProcessAnswers(t: Table, c: Conn, data: seq<uint8>)
    requires Partial(c.unfinished)
    ensures var p := ProcessStep(t, c, data); p.conn.wire == c.wire + WrittenForAll(p.events)
  {
    NothingWrittenFor([]);
    NothingWrittenFor([Preface]);
    assert c.wire + [] == c.wire;
    if data != [] && PastPreface(c) {
      ActAnswers(t, c, data);
    } else {
      hide ReadStep, FrameStep, PackedFrame, AnswerTo, WrittenForAll;
    }
  }

  lemma ActAnswers(t: Table, c: Conn, data: seq<uint8>)
    requires Partial(c.unfinished) && data != [] && PastPreface(c)
    ensures var p := ProcessStep(t, c, data); p.conn.wire == c.wire + WrittenForAll(p.events)
  {
    ProcessPast(t, c, data);
    NothingWrittenFor([]);
    assert c.wire + [] == c.wire;
    var r := ReadStep(c.unfinished, data);
    if r.result.Complete? {
      FrameActAnswers(t, c.(unfinished := None), r.result.frame);
      hide ReadStep, ProcessStep, FrameAct, WrittenForAll;
    } else {
      hide ReadStep, FrameStep, PackedFrame, AnswerTo, WrittenForAll;
    }
  }

  lemma FrameActAnswers(t: Table, c: Conn, f: Frame)
    ensures var p := FrameAct(t, c, f); p.conn.wire == c.wire + WrittenForAll(p.events)
  {
    if c.phase == Idle {
      FrameStepAnswers(t, c, f, 0);
      hide FrameStep, AnswerTo, WrittenForAll;
    } else {
      ControlBytes(f);
      HandshakeIsWritten(f);
      assert c.wire + [] == c.wire;
      hide FrameStep, PackedFrame, AnswerTo, WrittenForAll;
    }
  }

  lemma HandshakeIsWritten(f: Frame)
    ensures WrittenForAll([Handshake(f)]) == [0x00, 0x00, 0x00, 0x04, 0x00, 0x00, 0x00, 0x00, 0x00]
    ensures WrittenForAll([Refused(f)]) == []
  {
    hide AnswerTo;
    assert [Handshake(f)][1..] == [] && [Refused(f)][1..] == [];
  }

  lemma {:induction false} PacketAnswers(t: Table, handler: Handler, c: Conn, packet: seq<uint8>)
    requires Partial(c.unfinished)
    ensures var h := PacketRun(t, handler, c, packet); h.conn.wire == c.wire + WrittenForAll(h.events)
    decreases |packet|
  {
    PacketRunOnce(t, handler, c, packet);
    ProcessAnswers(t, c, packet);
    var p := ProcessStep(t, c, packet);
    var outcome := Handled(handler, p);
    assert outcome.Returns? ==> outcome == p.outcome;
    hide ProcessStep, PacketRun, Handled, WrittenForAll;
    if outcome.Returns? && packet != [] {
      var rest := packet[p.consumed..];
      PacketAnswers(t, handler, p.conn, rest);
      var later := PacketRun(t, handler, p.conn, rest).events;
      WrittenConcat(p.events, later);
      Associate(c.wire, WrittenForAll(p.events), WrittenForAll(later));
    }
  }

  lemma {:induction false} PacketsAnswer(t: Table, handler: Handler, c: Conn, packets: seq<seq<uint8>>)
    requires Partial(c.unfinished)
    ensures var h := PacketsRun(t, handler, c, packets); h.conn.wire == c.wire + WrittenForAll(h.events)
    decreases |packets|
  {
    hide PacketRun;
    if packets == [] {
      assert c.wire + [] == c.wire;
    } else {
      PacketAnswers(t, handler, c, packets[0]);
      PacketsRunOnce(t, handler, c, packets);
      hide PacketsRun, WrittenForAll;
      var first := PacketRun(t, handler, c, packets[0]);
      if first.alive {
        PacketsAnswer(t, handler, first.conn, packets[1..]);
        var later := PacketsRun(t, handler, first.conn, packets[1..]).events;
        WrittenConcat(first.events, later);
        Associate(c.wire, WrittenForAll(first.events), WrittenForAll(later));
      }
    }
  }

  /**
   * In every run, however it ends, what the reader has written is the empty SETTINGS of its handshake and then
   * one answer for each frame it got that asks for one, in order, and nothing else.
   */
  lemma EveryRunAnswers(t: Table, handler: Handler, hasZero: bool, packets: seq<seq<uint8>>)
    ensures var h := PacketsRun(t, handler, Initial(hasZero), packets); h.conn.wire == WrittenForAll(h.events)
  {
    PacketsAnswer(t, handler, Initial(hasZero), packets);
    hide PacketsRun, WrittenForAll;
    var h := PacketsRun(t, handler, Initial(hasZero), packets);
    assert [] + WrittenForAll(h.events) == WrittenForAll(h.events);
  }

  /** Each answer is one whole control frame: what the reader writes while it holds the connection's lock. */
  lemma AnswersAreControlFrames(f: Frame)
    ensures AnswerTo(f) == [] || exists g :: Writers.IsControl(g) && PackedFrame(g) == AnswerTo(f)
  {
    ControlBytes(f);
    NoAnswer(f);
    hide PackedFrame, AnswerTo;
    assert Writers.IsControl(SETTINGS_ACK) && Writers.IsControl(PingAck(f.streamId));
  }

  /** Over frames that all return, the answers are those to the frames. */
  lemma {:induction false} FramesAreAnswered(t: Table, handler: Handler, c: Conn, frames: seq<Frame>)
    requires c.phase == Idle && FramesRun(t, handler, c, frames).alive
    ensures FramesRun(t, handler, c, frames).conn.wire == c.wire + AnswersTo(frames)
    decreases |frames|
  {
    hide AnswerTo, Handled, FrameStep;
    if frames == [] {
      assert c.wire + [] == c.wire;
    } else {
      var f, p := frames[0], FrameAct(t, c, frames[0]);
      FrameStepAnswers(t, c, f, 0);
      FrameStepKeeps(t, c, f, 0);
      FramesAreAnswered(t, handler, p.conn, frames[1..]);
      Associate(c.wire, AnswerTo(f), AnswersTo(frames[1..]));
    }
  }

  /**
   * From the first byte: with the preface whole in one packet and no frame header cut, the server writes its
   * empty SETTINGS and one answer for each SETTINGS without flag 0x1 and for each PING.
   */
  lemma ServerWrites(t: Table, handler: Handler, hasZero: bool, s: Frame, frames: seq<Frame>, packets: seq<seq<uint8>>)
    requires IsClientSettings(s) && AllWholeFrames(frames)
    requires FramesRun(t, handler, HandShaken(hasZero), frames).alive
    requires Concat(packets) == HTTP2_CLIENT_PREFACE + Wire([s] + frames) && PrefaceIsWhole([s] + frames, packets)
    ensures PacketsRun(t, handler, Initial(hasZero), packets).conn.wire
            == [0x00, 0x00, 0x00, 0x04, 0x00, 0x00, 0x00, 0x00, 0x00] + AnswersTo(frames)
  {
    RunFromTheStart(t, handler, hasZero, s, frames, packets);
    FramesAreAnswered(t, handler, HandShaken(hasZero), frames);
    ControlBytes(s);
    hide PacketsRun, FramesRun, AnswersTo, PackedFrame, PrefaceIsWhole, AllWholeFrames, Wire, Concat;
    assert [] + PackedFrame(EMPTY_SETTINGS) == PackedFrame(EMPTY_SETTINGS);
  }

  // ----- Blocks that are refused -----

  /** Once closed, always closed. */
  lemma ClosedStays(t: Table, c: Conn, data: seq<uint8>)
    requires Partial(c.unfinished) && c.closed
    ensures ProcessStep(t, c, data).conn.closed
  {
    var r := ReadStep(c.unfinished, data);
    if r.result.Complete? { FrameStepClosed(t, c.(unfinished := r.unfinished), r.result.frame, r.consumed); }
    hide ReadStep, FrameStep, PackedFrame;
  }

  lemma FrameStepClosed(t: Table, c: Conn, f: Frame, consumed: nat)
    ensures c.closed ==> FrameStep(t, c, f, consumed).conn.closed
    ensures FrameStep(t, c, f, consumed).conn.closed && !c.closed ==>
              (f.kind == 0x1 || f.kind == 0x9) && FrameStep(t, c, f, consumed).outcome == Returns(InvalidInput)
  {
    if f.kind == 0x0 {
      DataFrameAdds(t, c, f, consumed);
    } else if f.kind == 0x1 || f.kind == 0x9 {
      HeadersFrameParses(t, c, f, consumed);
    } else {
      ControlFrameOnlyAnswers(t, c, f, consumed);
    }
    hide FrameStep, ParsedFrame, MadeRequest, SameStreams, OtherStreamsSame, StreamOf, AnswerTo;
  }

  lemma {:induction false} ClosedThroughPacket(t: Table, handler: Handler, c: Conn, packet: seq<uint8>)
    requires Partial(c.unfinished) && c.closed
    ensures PacketRun(t, handler, c, packet).conn.closed
    decreases |packet|
  {
    PacketRunOnce(t, handler, c, packet);
    ClosedStays(t, c, packet);
    var p := ProcessStep(t, c, packet);
    assert Handled(handler, p).Returns? ==> Handled(handler, p) == p.outcome;
    hide ProcessStep, PacketRun, Handled;
    if Handled(handler, p).Returns? && packet != [] { ClosedThroughPacket(t, handler, p.conn, packet[p.consumed..]); }
  }

  /** The block of `f`: some whole representations that the parser takes, and then `tail`. */
  ghost predicate BlockWith(t: Table, c: Conn, f: Frame, reps: seq<Representation>, tail: seq<uint8>) {
    && (f.kind == 0x1 || f.kind == 0x9) && AllWhole(reps) && BlockMeaning(t, c.hpack, reps).status.Done?
    && StripHeaders(f) == Block(BlockBytes(reps) + tail)
  }

  /**
   * A block that ends inside a literal field.  Inside a string, or behind an index that neither table has, it
   * closes the connection and the call returns; where a whole string is missing the call throws.
   */
  lemma CutFieldCloses(t: Table, c: Conn, f: Frame, consumed: nat, reps: seq<Representation>, rep: Representation, k: nat)
    requires Whole(rep) && rep.Field? && 0 < k < |Bytes(rep)| && BlockWith(t, c, f, reps, Bytes(rep)[..k])
    ensures var p, d := FrameStep(t, c, f, consumed), BlockMeaning(t, c.hpack, reps).d;
            var unknown := Lookup(d, CutIndex(rep.index, k)).None?;
            var missing := k <= |rep.index| || k == |rep.index| + |KeyBytes(rep.key)|;
            && p.events == [Got(f)] && p.conn.hpack == d
            && if unknown || !missing then p.conn.closed && p.outcome == Returns(InvalidInput)
               else p.conn.closed == c.closed && p.outcome == Throws
  {
    CutFieldIsRefused(t, BlockMeaning(t, c.hpack, reps).d, rep, k);
    BlockRefused(t, c, f, consumed, reps, Bytes(rep)[..k]);
    hide *;
  }

  lemma BlockRefused(t: Table, c: Conn, f: Frame, consumed: nat, reps: seq<Representation>, tail: seq<uint8>)
    requires tail != [] && BlockWith(t, c, f, reps, tail) && Step(t, BlockMeaning(t, c.hpack, reps).d, tail).Stop?
    ensures var p, d := FrameStep(t, c, f, consumed), BlockMeaning(t, c.hpack, reps).d;
            Unfinished(c, f, Parsed(d, Step(t, d, tail).status), p)
  {
    var d := BlockMeaning(t, c.hpack, reps).d;
    StepStops(t, d, tail);
    hide Step, AllWhole, BlockMeaning, BlockBytes;
    BlockStops(t, c.hpack, reps, tail, Step(t, d, tail).status);
    assert ParsedFrame(t, c.hpack, f) == Parsed(d, Step(t, d, tail).status);
    hide ParsedFrame, FrameStep, Unfinished;
    UnfinishedBlock(t, c, f, consumed);
  }

  /** A block that names an index that neither table has closes the connection. */
  lemma UnknownIndexCloses(t: Table, c: Conn, f: Frame, consumed: nat, reps: seq<Representation>, rep: Representation,
                           tail: seq<uint8>)
    requires Whole(rep) && BlockWith(t, c, f, reps, Bytes(rep) + tail)
    requires Meaning(t, BlockMeaning(t, c.hpack, reps).d, rep).None?
    ensures var p := FrameStep(t, c, f, consumed);
            p.conn.closed && p.outcome == Returns(InvalidInput) && p.events == [Got(f)]
  {
    StepFollowsGrammar(t, BlockMeaning(t, c.hpack, reps).d, rep, tail);
    hide Step, Meaning, Whole, BlockWith, BlockMeaning, FrameStep, StreamOf;
    BlockRefused(t, c, f, consumed, reps, Bytes(rep) + tail);
  }

  /** Either way the connection is closed by the end of the packet. */
  lemma CutFieldClosesInPacket(t: Table, handler: Handler, c: Conn, packet: seq<uint8>, reps: seq<Representation>,
                               rep: Representation, k: nat)
    requires Partial(c.unfinished) && c.phase == Idle && packet != []
    requires ReadStep(c.unfinished, packet).result.Complete?
    requires Whole(rep) && rep.Field? && 0 < k < |Bytes(rep)|
    requires BlockWith(t, c, ReadStep(c.unfinished, packet).result.frame, reps, Bytes(rep)[..k])
    ensures PacketRun(t, handler, c, packet).conn.closed
  {
    var r := ReadStep(c.unfinished, packet);
    var c' := c.(unfinished := None);
    assert BlockWith(t, c', r.result.frame, reps, Bytes(rep)[..k]);
    ProcessPast(t, c, packet);
    assert FrameAct(t, c', r.result.frame) == FrameStep(t, c', r.result.frame, 0);
    hide *;
    CutFieldCloses(t, c', r.result.frame, 0, reps, rep, k);
    PacketRunOnce(t, handler, c, packet);
    var p := ProcessStep(t, c, packet);
    HandledIs(handler, p);
    if p.conn.closed { ClosedThroughPacket(t, handler, p.conn, packet[p.consumed..]); }
  }

  lemma HandledIs(handler: Handler, p: Processed)
    ensures p.outcome != Returns(NewRequest) ==> Handled(handler, p) == p.outcome
  {
  }

  /** A HEADERS frame of three bytes that announces a key of five closes the connection. */
  lemma CutKeyCloses(t: Table, c: Conn, consumed: nat)
    ensures var p := FrameStep(t, c, Frame(3, 0x1, 0x5, 1, [0x00, 0x05, 0x61]), consumed);
            p.conn.closed && p.outcome == Returns(InvalidInput)
  {
    var f := Frame(3, 0x1, 0x5, 1, [0x00, 0x05, 0x61]);
    var five := CodedString([0x05], [0x61, 0x61, 0x61, 0x61, 0x61]);
    var rep := Field([0x00], Some(five), five);
    assert WholeString(five) && WholeInt(4, [0x00]) && IntOf(4, [0x00]) == 0;
    assert Bytes(rep)[..3] == f.data && |Bytes(rep)| == 13;
    StrippedPayload(f);
    assert BlockBytes([]) + f.data == f.data;
    assert BlockWith(t, c, f, [], Bytes(rep)[..3]);
    assert CutIndex([0x00], 3) == 0;
    LookupIs(c.hpack, 0);
    hide FrameStep, Lookup, StripHeaders;
    CutFieldCloses(t, c, f, consumed, [], rep, 3);
  }

  // ----- Payloads that are fatal -----

  /**
   * A fragment that is empty once pad length, priority and padding are off trips an assert, and a payload too
   * short for its priority raises a value that nothing catches: the process dies, and nothing was changed.
   */
  lemma EmptyFragmentDies(t: Table, c: Conn, f: Frame, consumed: nat)
    requires f.kind == 0x1 || f.kind == 0x9
    ensures var p := FrameStep(t, c, f, consumed);
            && (StripHeaders(f) == AssertFails ==> p.outcome == Dies(AssertionFailed) && p.conn.hpack == c.hpack)
            && (StripHeaders(f) == Malformed ==> p.outcome == Dies(MalformedFrame) && p.conn.hpack == c.hpack)
            && (f.flags / 8 % 2 == 0 && f.flags / 32 % 2 == 0 && f.data == [] ==> p.outcome == Dies(AssertionFailed))
            && (f.flags / 8 % 2 == 0 && f.flags / 32 % 2 == 1 && |f.data| < 4 ==> p.outcome == Dies(MalformedFrame))
  {
    FrameEnds(t, c.hpack, f);
    StrippedPayload(f);
    if !StripHeaders(f).Block? {
      UnfinishedBlock(t, c, f, consumed);
    }
    hide FrameStep, ParsedBlock, StripHeaders, SameStreams;
  }
}
