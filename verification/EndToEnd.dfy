/**
 * From the responses that handlers write, concurrently, to the streams of a peer that reads them.
 *
 * The peer runs this same protocol code past its handshake: frames are reassembled from packets, header
 * blocks are parsed and kept with their stream, and the DATA of each stream gather in it.
 */
module EndToEnd {
  import opened Options
  import opened Bits
  import opened Huffman
  import opened Frames
  import opened HpackStatics
  import opened HpackParser
  import opened HpackGrammar
  import opened HpackSerializer
  import opened HpackRoundTrip
  import opened Reassembly
  import opened Http2
  import opened FrameRuns
  import opened Responses
  import opened Writers

  // ----- What the peer makes of frames -----

  /** The header lists finished on stream `id`, in order. */
  ghost function HeadersOn(events: seq<Event>, id: uint32): seq<seq<Header>> {
    if events == [] then []
    else
      var e := events[0];
      (if e.HeadersDone? && e.streamId == id then [e.headers] else []) + HeadersOn(events[1..], id)
  }

  /** The requests made of stream `id`, in order. */
  ghost function RequestsOn(events: seq<Event>, id: uint32): seq<Request> {
    if events == [] then []
    else
      var e := events[0];
      (if e.Emitted? && e.request.streamId == id then [e.request] else []) + RequestsOn(events[1..], id)
  }

  lemma {:induction false} ObservedConcat(a: seq<Event>, b: seq<Event>, id: uint32)
    ensures HeadersOn(a + b, id) == HeadersOn(a, id) + HeadersOn(b, id)
    ensures RequestsOn(a + b, id) == RequestsOn(a, id) + RequestsOn(b, id)
  {
    if a == [] {
      assert a + b == b;
    } else {
      var e := a[0];
      ConsConcat(a, b);
      ObservedConcat(a[1..], b, id);
      Associate(if e.HeadersDone? && e.streamId == id then [e.headers] else [], HeadersOn(a[1..], id), HeadersOn(b, id));
      Associate(if e.Emitted? && e.request.streamId == id then [e.request] else [],
                RequestsOn(a[1..], id), RequestsOn(b, id));
    }
  }

  /** `f` is the frame of a header list that survives for a reader whose map has key 0 or not. */
  ghost predicate Announces(t: Table, readerZero: bool, f: Frame, senderZero: bool, list: seq<Header>, ws: seq<Where>) {
    && Addressable(t) && Intact(t, senderZero, list, ws) && list != [] && AllSurvive(senderZero, readerZero, list)
    && f == SentFrame(t, list, ws, f.streamId)
  }

  ghost predicate Acceptable(t: Table, readerZero: bool, f: Frame) {
    || IsControl(f)
    || f.kind == DATA
    || (f.kind == HEADERS && exists senderZero, list, ws :: Announces(t, readerZero, f, senderZero, list, ws))
  }

  ghost predicate AllAcceptable(t: Table, readerZero: bool, frames: seq<Frame>) {
    forall f :: f in frames ==> Acceptable(t, readerZero, f)
  }

  /** The headers in a frame, which do not depend on the dynamic table. */
  ghost function HeadersIn(t: Table, readerZero: bool, f: Frame): seq<Header> {
    ParsedFrame(t, Decoder([], [], readerZero), f).d.decoded
  }

  /** A stream once a frame with content has come on it. */
  ghost function Received(t: Table, readerZero: bool, s: Stream, f: Frame): Stream {
    if f.kind == HEADERS then s.(headers := HeadersIn(t, readerZero, f))
    else
      var s' := s.(data := s.data + f.data);
      if HasFlag(f.flags, END_STREAM) then Finished(s') else s'
  }

  /** The request that a frame makes, if it does. */
  ghost function RequestBy(s: Stream, f: Frame): seq<Request> {
    if f.kind == DATA && HasFlag(f.flags, END_STREAM) then [RequestOf(s.(data := s.data + f.data))] else []
  }

  ghost function ReceivedAll(t: Table, readerZero: bool, s: Stream, frames: seq<Frame>): Stream
    decreases |frames|
  {
    if frames == [] then s else ReceivedAll(t, readerZero, Received(t, readerZero, s, frames[0]), frames[1..])
  }

  ghost function RequestsBy(t: Table, readerZero: bool, s: Stream, frames: seq<Frame>): seq<Request>
    decreases |frames|
  {
    if frames == [] then []
    else RequestBy(s, frames[0]) + RequestsBy(t, readerZero, Received(t, readerZero, s, frames[0]), frames[1..])
  }

  ghost function HeaderLists(t: Table, readerZero: bool, frames: seq<Frame>): seq<seq<Header>> {
    if frames == [] then []
    else (if frames[0].kind == HEADERS then [HeadersIn(t, readerZero, frames[0])] else [])
         + HeaderLists(t, readerZero, frames[1..])
  }

  /** A connection ready for the next frame, whose map has key 0 if `readerZero` says so. */
  ghost predicate Ready(c: Conn, readerZero: bool) {
    c.phase == Idle && c.hpack.decoded == [] && (readerZero ==> c.hpack.hasZero)
  }

  /** Handlers that do not fail. */
  ghost predicate Willing(handler: Handler) {
    forall n :: handler(n) == Answered
  }

  lemma AnnouncedHeaders(t: Table, readerZero: bool, d: Decoder, f: Frame, senderZero: bool, list: seq<Header>,
                         ws: seq<Where>)
    requires Announces(t, readerZero, f, senderZero, list, ws) && (readerZero ==> d.hasZero)
    ensures HeadersIn(t, readerZero, f) == Norms(list)
    ensures ParsedFrame(t, d, f) == Parsed(AfterReading(senderZero, d, list), Done)
    ensures !HasFlag(f.flags, END_STREAM) && f.kind == HEADERS
  {
    hide ParsedFrame, Norms, Entering, AllWritten, BlockBytes, Intact, AllSurvive, Addressable, HasFlag;
    if d.hasZero { ZeroOnlyHelps(senderZero, readerZero, list); }
    SurvivingHeadersAreReadBack(t, senderZero, d, list, ws, f.streamId);
    SurvivingHeadersAreReadBack(t, senderZero, Decoder([], [], readerZero), list, ws, f.streamId);
    assert [] + Norms(list) == Norms(list);
    HeadersDoNotEndStream();
  }

  lemma HeadersDoNotEndStream()
    ensures !HasFlag(0x4, END_STREAM)
  {
  }

  lemma TwoEvents(e: Event, e': Event, id: uint32)
    ensures HeadersOn([e, e'], id) == HeadersOn([e], id) + HeadersOn([e'], id)
    ensures RequestsOn([e, e'], id) == RequestsOn([e], id) + RequestsOn([e'], id)
    ensures HeadersOn([e], id) == if e.HeadersDone? && e.streamId == id then [e.headers] else []
    ensures RequestsOn([e], id) == if e.Emitted? && e.request.streamId == id then [e.request] else []
    ensures HeadersOn([e'], id) == if e'.HeadersDone? && e'.streamId == id then [e'.headers] else []
    ensures RequestsOn([e'], id) == if e'.Emitted? && e'.request.streamId == id then [e'.request] else []
  {
    assert [e, e'] == [e] + [e'];
    ObservedConcat([e], [e'], id);
    assert [e][1..] == [] && [e'][1..] == [];
  }

  /** What a step has delivered to stream `id`. */
  ghost predicate Delivers(t: Table, readerZero: bool, c: Conn, f: Frame, id: uint32, p: Processed) {
    var mine := IsContent(f) && f.streamId == id;
    var s := StreamOf(c, id);
    && p.outcome.Returns? && Ready(p.conn, readerZero)
    && StreamOf(p.conn, id) == (if mine then Received(t, readerZero, s, f) else s)
    && HeadersOn(p.events, id) == (if mine && f.kind == HEADERS then [HeadersIn(t, readerZero, f)] else [])
    && RequestsOn(p.events, id) == (if mine then RequestBy(s, f) else [])
  }

  /** One step delivers the content of its frame to the frame's stream, and nothing to any other. */
  lemma StepDelivers(t: Table, readerZero: bool, c: Conn, f: Frame, id: uint32)
    requires Acceptable(t, readerZero, f) && Ready(c, readerZero)
    ensures Delivers(t, readerZero, c, f, id, FrameAct(t, c, f))
  {
    hide FrameStep, Delivers;
    if f.kind == HEADERS {
      HeadersStepDelivers(t, readerZero, c, f, id);
    } else if f.kind == DATA {
      DataStepDelivers(t, readerZero, c, f, id);
    } else {
      ControlStepDelivers(t, readerZero, c, f, id);
    }
  }

  lemma HeadersStepDelivers(t: Table, readerZero: bool, c: Conn, f: Frame, id: uint32)
    requires Acceptable(t, readerZero, f) && Ready(c, readerZero) && f.kind == HEADERS
    ensures Delivers(t, readerZero, c, f, id, FrameStep(t, c, f, 0))
  {
    hide Delivers, FrameStep, Announces, Ready;
    var senderZero, list, ws :| Announces(t, readerZero, f, senderZero, list, ws);
    AnnouncedStepDelivers(t, readerZero, c, f, id, senderZero, list, ws);
  }

  lemma AnnouncedStepDelivers(t: Table, readerZero: bool, c: Conn, f: Frame, id: uint32, senderZero: bool,
                              list: seq<Header>, ws: seq<Where>)
    requires Announces(t, readerZero, f, senderZero, list, ws) && Ready(c, readerZero)
    ensures Delivers(t, readerZero, c, f, id, FrameStep(t, c, f, 0))
  {
    hide *;
    var d := AnnouncedStep(t, readerZero, c, f, senderZero, list, ws);
    var s := StreamOf(c, f.streamId).(headers := Norms(list));
    StreamsAfter(c.(hpack := d), s, id);
    StreamsAfter(c, s, f.streamId);
    SameStreams(c, c.(hpack := d), id);
    TwoEvents(Got(f), HeadersDone(f.streamId, Norms(list)), id);
    DeliversHeaders(t, readerZero, c, f, id, FrameStep(t, c, f, 0), list);
  }

  lemma AnnouncedStep(t: Table, readerZero: bool, c: Conn, f: Frame, senderZero: bool, list: seq<Header>, ws: seq<Where>)
    returns (d: Decoder)
    requires Announces(t, readerZero, f, senderZero, list, ws) && Ready(c, readerZero)
    ensures f.kind == HEADERS && HeadersIn(t, readerZero, f) == Norms(list)
    ensures Ready(FrameStep(t, c, f, 0).conn, readerZero)
    ensures FrameStep(t, c, f, 0)
            == Processed(WithStream(c.(hpack := d), StreamOf(c, f.streamId).(headers := Norms(list))),
                         Returns(MoreInput), 0, [Got(f), HeadersDone(f.streamId, Norms(list))])
  {
    AnnouncedHeaders(t, readerZero, c.hpack, f, senderZero, list, ws);
    BlockStep(t, c, f, 0);
    hide ParsedFrame, Announces, HeadersIn, Norms, Entering, HasFlag, FrameStep, StreamOf, WithStream, EmitRequest;
    assert [] + Norms(list) == Norms(list);
    d := AfterReading(senderZero, c.hpack, list).(decoded := []);
    StreamsAfter(c.(hpack := d), StreamOf(c, f.streamId).(headers := Norms(list)), 0);
  }

  lemma DeliversHeaders(t: Table, readerZero: bool, c: Conn, f: Frame, id: uint32, p: Processed, list: seq<Header>)
    requires f.kind == HEADERS && HeadersIn(t, readerZero, f) == Norms(list)
    requires p.outcome.Returns? && Ready(p.conn, readerZero)
    requires StreamOf(p.conn, id)
             == if f.streamId == id then StreamOf(c, id).(headers := Norms(list)) else StreamOf(c, id)
    requires HeadersOn(p.events, id) == (if f.streamId == id then [Norms(list)] else []) && RequestsOn(p.events, id) == []
    ensures Delivers(t, readerZero, c, f, id, p)
  {
    hide HeadersIn, Norms, StreamOf, HeadersOn, RequestsOn, Ready, RequestOf, Finished;
  }

  /** A connection whose stream `s` has been replaced. */
  lemma StreamsAfter(c: Conn, s: Stream, id: uint32)
    ensures StreamOf(WithStream(c, s), id) == if s.streamId == id then s else StreamOf(c, id)
    ensures WithStream(c, s).hpack == c.hpack && WithStream(c, s).phase == c.phase
    ensures StreamOf(c, id).streamId == id
  {
  }

  lemma SameStreams(c: Conn, c': Conn, id: uint32)
    requires c.streams == c'.streams
    ensures StreamOf(c, id) == StreamOf(c', id)
  {
  }

  lemma DataStepDelivers(t: Table, readerZero: bool, c: Conn, f: Frame, id: uint32)
    requires Ready(c, readerZero) && f.kind == DATA
    ensures Delivers(t, readerZero, c, f, id, FrameStep(t, c, f, 0))
  {
    hide ParsedFrame, HasFlag, HeadersOn, RequestsOn, HeadersIn;
    var s := StreamOf(c, f.streamId);
    var s' := s.(data := s.data + f.data);
    RequestIsOn(s');
    hide RequestOf;
    TwoEvents(Got(f), Emitted(RequestOf(s')), id);
    assert [Got(f)] + [Emitted(RequestOf(s'))] == [Got(f), Emitted(RequestOf(s'))];
  }

  lemma RequestIsOn(s: Stream)
    ensures RequestOf(s).streamId == s.streamId
  {
  }

  lemma ControlStepDelivers(t: Table, readerZero: bool, c: Conn, f: Frame, id: uint32)
    requires IsControl(f) && Ready(c, readerZero)
    ensures Delivers(t, readerZero, c, f, id, FrameStep(t, c, f, 0))
  {
    hide PackedFrame, HasFlag, HeadersOn, RequestsOn, RequestOf, HeadersIn;
    TwoEvents(Got(f), Got(f), id);
  }

  lemma {:induction false} OnStreamCons(f: Frame, frames: seq<Frame>, id: uint32)
    ensures OnStream([f] + frames, id) == (if IsContent(f) && f.streamId == id then [f] else []) + OnStream(frames, id)
  {
    if frames == [] {
      assert [f] + frames == [] + [f];
      OnStreamMore([], f, id);
    } else {
      var init, last := frames[..|frames| - 1], frames[|frames| - 1];
      assert [f] + frames == ([f] + init) + [last] && frames == init + [last];
      OnStreamMore([f] + init, last, id);
      OnStreamMore(init, last, id);
      OnStreamCons(f, init, id);
    }
  }

  lemma ReceivedCons(t: Table, readerZero: bool, s: Stream, f: Frame, frames: seq<Frame>)
    ensures var s' := Received(t, readerZero, s, f);
            && ReceivedAll(t, readerZero, s, [f] + frames) == ReceivedAll(t, readerZero, s', frames)
            && RequestsBy(t, readerZero, s, [f] + frames) == RequestBy(s, f) + RequestsBy(t, readerZero, s', frames)
    ensures HeaderLists(t, readerZero, [f] + frames)
            == (if f.kind == HEADERS then [HeadersIn(t, readerZero, f)] else []) + HeaderLists(t, readerZero, frames)
  {
    hide HeadersIn, Received, RequestBy;
    assert ([f] + frames)[1..] == frames;
  }

  /** What a run has delivered to stream `id`. */
  ghost predicate RunDelivers(t: Table, readerZero: bool, c: Conn, frames: seq<Frame>, id: uint32, h: History) {
    var mine, s := OnStream(frames, id), StreamOf(c, id);
    && h.alive
    && StreamOf(h.conn, id) == ReceivedAll(t, readerZero, s, mine)
    && HeadersOn(h.events, id) == HeaderLists(t, readerZero, mine)
    && RequestsOn(h.events, id) == RequestsBy(t, readerZero, s, mine)
  }

  /** Whatever lies between, each stream receives the content of its own frames, in order, and of no other. */
  lemma {:induction false} FramesAreDelivered(t: Table, handler: Handler, readerZero: bool, c: Conn, frames: seq<Frame>,
                                              id: uint32)
    requires AllAcceptable(t, readerZero, frames) && Ready(c, readerZero) && Willing(handler)
    ensures RunDelivers(t, readerZero, c, frames, id, FramesRun(t, handler, c, frames))
    decreases |frames|
  {
    hide FrameAct, HeadersIn, Acceptable, Received, RequestBy, Ready;
    if frames != [] {
      var f, rest := frames[0], frames[1..];
      assert f in frames && frames == [f] + rest;
      StepDelivers(t, readerZero, c, f, id);
      var p := FrameAct(t, c, f);
      assert Handled(handler, p).Returns?;
      FramesRunOnce(t, handler, c, f, rest);
      hide FramesRun, StreamOf, Handled;
      hide RunDelivers, Delivers;
      FramesAreDelivered(t, handler, readerZero, p.conn, rest, id);
      OneMoreDelivered(t, readerZero, c, f, rest, id, p, FramesRun(t, handler, p.conn, rest));
    }
  }

  lemma OneMoreDelivered(t: Table, readerZero: bool, c: Conn, f: Frame, rest: seq<Frame>, id: uint32, p: Processed,
                         g: History)
    requires Delivers(t, readerZero, c, f, id, p) && RunDelivers(t, readerZero, p.conn, rest, id, g)
    ensures RunDelivers(t, readerZero, c, [f] + rest, id, g.(events := p.events + g.events))
  {
    hide HeadersIn, Received, RequestBy, StreamOf, Ready, HeaderLists, HeadersOn, RequestsOn, OnStream, ReceivedAll,
         RequestsBy;
    ObservedConcat(p.events, g.events, id);
    OnStreamCons(f, rest, id);
    var later := OnStream(rest, id);
    ReceivedCons(t, readerZero, StreamOf(c, id), f, later);
    assert [] + later == later;
  }

  // ----- Whole responses -----

  /** What a handler was asked to send; `ws` are the serializer's choices, `senderZero` its map's key 0 then. */
  datatype Reply = Reply(streamId: uint32, senderZero: bool, list: seq<Header>, ws: seq<Where>, buffers: seq<Buffer>)

  /** The reply can be sent: its headers survive and fit a frame, and its buffers come to an end. */
  ghost predicate Deliverable(t: Table, readerZero: bool, a: Reply) {
    && Addressable(t) && Intact(t, a.senderZero, a.list, a.ws)
    && a.list != [] && AllSurvive(a.senderZero, readerZero, a.list)
    && |BlockBytes(AllWritten(t, a.list, a.ws))| <= MAX_FRAME_SIZE
    && Ends(a.buffers)
  }

  ghost function FramesOfReply(t: Table, a: Reply): seq<Frame>
    requires Addressable(t) && |a.ws| == |a.list| && Ends(a.buffers)
  {
    ResponseFrames(t, a.list, a.ws, a.buffers, a.streamId)
  }

  lemma ReplyIsSendable(t: Table, readerZero: bool, a: Reply)
    requires Deliverable(t, readerZero, a)
    ensures OnOwnStream(FramesOfReply(t, a), a.streamId) && AllAcceptable(t, readerZero, FramesOfReply(t, a))
  {
    BodyIsConserved(a.buffers, a.streamId);
    HeadIsSendable(t, readerZero, a);
    hide SentFrame, BodyFrames, Deliverable, Acceptable, WholeFrame, IsContent, IsSlice, Content, Payloads, EndsAt;
    var head, body := SentFrame(t, a.list, a.ws, a.streamId), BodyFrames(a.buffers, a.streamId);
    forall f | f in body ensures WholeFrame(f) && IsContent(f) && f.streamId == a.streamId && Acceptable(t, readerZero, f) {
      SliceIsSendable(t, readerZero, f, a.streamId);
    }
    assert FramesOfReply(t, a) == [head] + body;
  }

  lemma HeadIsSendable(t: Table, readerZero: bool, a: Reply)
    requires Deliverable(t, readerZero, a)
    ensures var f := SentFrame(t, a.list, a.ws, a.streamId);
            WholeFrame(f) && IsContent(f) && f.streamId == a.streamId && Acceptable(t, readerZero, f)
  {
    hide BlockBytes, AllWritten, AllSurvive, Addressable, Ends, Sendable, Canonical;
    assert Announces(t, readerZero, SentFrame(t, a.list, a.ws, a.streamId), a.senderZero, a.list, a.ws);
    hide Announces;
  }

  lemma SliceIsSendable(t: Table, readerZero: bool, f: Frame, id: uint32)
    requires IsSlice(f, id)
    ensures WholeFrame(f) && IsContent(f) && f.streamId == id && Acceptable(t, readerZero, f)
  {
    hide Announces;
  }

  /** Whether a stream with these headers is taken for a request that takes the stream's data. */
  predicate Asks(headers: seq<Header>) {
    FindHeader(headers, Text(":path")).Some? && FindHeader(headers, Text(":method")).Some?
  }

  /** The whole of a reply has come on a stream that was `before`. */
  ghost predicate ArrivedWhole(before: Stream, after: Stream, requests: seq<Request>, a: Reply)
    requires Ends(a.buffers)
  {
    var headers, body := Norms(a.list), before.data + Content(a.buffers);
    var full := Stream(before.streamId, headers, body);
    var ended := LastBuffer(a.buffers).data != [];
    && after.headers == headers
    && after.data == (if ended && Asks(headers) then [] else body)
    && requests == (if ended then [RequestOf(full)] else [])
    && (ended && Asks(headers) ==> RequestOf(full).Request? && RequestOf(full).body == body)
  }

  /** The first `sent` frames of a reply have come. */
  ghost predicate ArrivedSoFar(t: Table, a: Reply, sent: nat, before: Stream, after: Stream, requests: seq<Request>,
                               lists: seq<seq<Header>>)
    requires Addressable(t) && |a.ws| == |a.list| && Ends(a.buffers)
  {
    && lists == (if sent == 0 then [] else [Norms(a.list)])
    && (sent == 0 ==> after == before && requests == [])
    && (0 < sent < |FramesOfReply(t, a)| ==>
          after.headers == Norms(a.list) && requests == []
          && before.data <= after.data <= before.data + Content(a.buffers))
    && (sent == |FramesOfReply(t, a)| ==> ArrivedWhole(before, after, requests, a))
  }

  lemma FinishedIs(s: Stream)
    ensures RequestOf(s).Request? <==> Asks(s.headers)
    ensures RequestOf(s).Request? ==> RequestOf(s).body == s.data
    ensures Finished(s) == if Asks(s.headers) then s.(data := []) else s
  {
    hide HeaderMap, FindHeader;
  }

  /** DATA frames that do not end the stream add their payloads. */
  lemma {:induction false} SlicesAdd(t: Table, readerZero: bool, s: Stream, frames: seq<Frame>)
    requires forall f :: f in frames ==> f.kind == DATA && !HasFlag(f.flags, END_STREAM)
    ensures ReceivedAll(t, readerZero, s, frames) == s.(data := s.data + Payloads(frames))
    ensures RequestsBy(t, readerZero, s, frames) == [] && HeaderLists(t, readerZero, frames) == []
    decreases |frames|
  {
    hide HasFlag, HeadersIn, RequestOf, Finished;
    if frames == [] {
      assert s.data + [] == s.data;
    } else {
      var f, rest := frames[0], frames[1..];
      assert f in frames && frames == [f] + rest;
      ReceivedCons(t, readerZero, s, f, rest);
      SlicesAdd(t, readerZero, s.(data := s.data + f.data), rest);
      Associate(s.data, f.data, Payloads(rest));
      hide ReceivedAll, RequestsBy, HeaderLists;
    }
  }

  lemma {:induction false} ReceivedConcat(t: Table, readerZero: bool, s: Stream, a: seq<Frame>, b: seq<Frame>)
    ensures var s' := ReceivedAll(t, readerZero, s, a);
            && ReceivedAll(t, readerZero, s, a + b) == ReceivedAll(t, readerZero, s', b)
            && RequestsBy(t, readerZero, s, a + b) == RequestsBy(t, readerZero, s, a) + RequestsBy(t, readerZero, s', b)
    ensures HeaderLists(t, readerZero, a + b) == HeaderLists(t, readerZero, a) + HeaderLists(t, readerZero, b)
    decreases |a|
  {
    hide Received, RequestBy, HeadersIn;
    if a == [] {
      assert a + b == b;
    } else {
      var f, rest := a[0], a[1..];
      var s' := Received(t, readerZero, s, f);
      assert a == [f] + rest && a + b == [f] + (rest + b);
      ReceivedCons(t, readerZero, s, f, rest);
      ReceivedCons(t, readerZero, s, f, rest + b);
      ReceivedConcat(t, readerZero, s', rest, b);
      hide ReceivedAll, RequestsBy, HeaderLists;
      Associate(RequestBy(s, f), RequestsBy(t, readerZero, s', rest),
                RequestsBy(t, readerZero, ReceivedAll(t, readerZero, s', rest), b));
      Associate(if f.kind == HEADERS then [HeadersIn(t, readerZero, f)] else [], HeaderLists(t, readerZero, rest),
                HeaderLists(t, readerZero, b));
    }
  }

  /** Before the last frame, and up to it if that is not marked, no frame ends the stream. */
  lemma PlainSlices(body: seq<Frame>, n: nat, id: uint32, marked: bool)
    requires AllSlices(body, id) && EndsAt(body, marked) && n <= |body| && (marked ==> n < |body|)
    ensures forall f :: f in body[..n] ==> f.kind == DATA && !HasFlag(f.flags, END_STREAM)
  {
    hide HasFlag;
    forall f | f in body[..n] ensures f.kind == DATA && !HasFlag(f.flags, END_STREAM) {
      var i :| 0 <= i < n && body[i] == f;
      assert f in body;
    }
  }

  /** A whole body: its last frame ends the stream, or none does. */
  lemma BodyAdds(t: Table, readerZero: bool, s: Stream, body: seq<Frame>, id: uint32, marked: bool)
    requires AllSlices(body, id) && EndsAt(body, marked) && (marked ==> body != [])
    ensures var s' := s.(data := s.data + Payloads(body));
            && ReceivedAll(t, readerZero, s, body) == (if marked then Finished(s') else s')
            && RequestsBy(t, readerZero, s, body) == (if marked then [RequestOf(s')] else [])
            && HeaderLists(t, readerZero, body) == []
  {
    hide HasFlag, RequestOf, Finished, HeadersIn;
    if marked {
      var n := |body| - 1;
      var init, last := body[..n], body[n];
      assert body == init + [last] && last in body;
      PlainSlices(body, n, id, marked);
      SlicesAdd(t, readerZero, s, init);
      ReceivedConcat(t, readerZero, s, init, [last]);
      PayloadsConcat(init, [last]);
      LastFrame(t, readerZero, s.(data := s.data + Payloads(init)), last);
      Associate(s.data, Payloads(init), last.data);
      hide ReceivedAll, RequestsBy, HeaderLists, Payloads;
    } else {
      PlainSlices(body, |body|, id, marked);
      assert body[..|body|] == body;
      SlicesAdd(t, readerZero, s, body);
    }
  }

  lemma LastFrame(t: Table, readerZero: bool, s: Stream, last: Frame)
    requires last.kind == DATA && HasFlag(last.flags, END_STREAM)
    ensures var s' := s.(data := s.data + last.data);
            && ReceivedAll(t, readerZero, s, [last]) == Finished(s')
            && RequestsBy(t, readerZero, s, [last]) == [RequestOf(s')]
            && HeaderLists(t, readerZero, [last]) == [] && Payloads([last]) == last.data
  {
    hide HasFlag, RequestOf, Finished, HeadersIn;
    assert [last] == [last] + [];
    ReceivedCons(t, readerZero, s, last, []);
    assert Payloads([last]) == last.data + Payloads([]);
  }

  /** What the first `sent` frames of a reply do to a stream. */
  lemma ReplyIsReceived(t: Table, readerZero: bool, a: Reply, sent: nat, before: Stream)
    requires Deliverable(t, readerZero, a) && sent <= |FramesOfReply(t, a)|
    ensures var frames := FramesOfReply(t, a)[..sent];
            ArrivedSoFar(t, a, sent, before, ReceivedAll(t, readerZero, before, frames),
                         RequestsBy(t, readerZero, before, frames), HeaderLists(t, readerZero, frames))
  {
    var all := FramesOfReply(t, a);
    if sent == 0 {
      assert all[..0] == [];
      hide FramesOfReply, Norms, Content;
      assert |all| > 0 by { FramesOfReplyAre(t, a); }
    } else {
      hide *;
      BegunReplyIsReceived(t, readerZero, a, sent, before);
    }
  }

  lemma BegunReplyIsReceived(t: Table, readerZero: bool, a: Reply, sent: nat, before: Stream)
    requires Deliverable(t, readerZero, a) && 0 < sent <= |FramesOfReply(t, a)|
    ensures var frames := FramesOfReply(t, a)[..sent];
            ArrivedSoFar(t, a, sent, before, ReceivedAll(t, readerZero, before, frames),
                         RequestsBy(t, readerZero, before, frames), HeaderLists(t, readerZero, frames))
  {
    hide *;
    DeliverableIs(t, readerZero, a);
    var head, body := SentFrame(t, a.list, a.ws, a.streamId), BodyFrames(a.buffers, a.streamId);
    FramesOfReplyAre(t, a);
    var n := sent - 1;
    var part, headed, frames := body[..n], before.(headers := Norms(a.list)), FramesOfReply(t, a)[..sent];
    assert frames == [head] + part;
    HeadIsReceived(t, readerZero, before, head, part, a.senderZero, a.list, a.ws);
    BodyIsReceived(t, readerZero, a, headed, n);
    var after, requests := ReceivedAll(t, readerZero, headed, part), RequestsBy(t, readerZero, headed, part);
    if n == |body| { ArrivedFrom(before, headed, after, requests, a); }
    assert HeaderLists(t, readerZero, frames) == [Norms(a.list)];
    BegunIsSoFar(t, a, sent, before, after, requests);
  }

  lemma BegunIsSoFar(t: Table, a: Reply, sent: nat, before: Stream, after: Stream, requests: seq<Request>)
    requires Addressable(t) && |a.ws| == |a.list| && Ends(a.buffers) && sent > 0
    requires sent < |FramesOfReply(t, a)| ==>
               after.headers == Norms(a.list) && requests == []
               && before.data <= after.data <= before.data + Content(a.buffers)
    requires sent == |FramesOfReply(t, a)| ==> ArrivedWhole(before, after, requests, a)
    ensures ArrivedSoFar(t, a, sent, before, after, requests, [Norms(a.list)])
  {
    hide FramesOfReply, Addressable, Ends, Norms, Content, ArrivedWhole;
  }

  lemma DeliverableIs(t: Table, readerZero: bool, a: Reply)
    requires Deliverable(t, readerZero, a)
    ensures Addressable(t) && |a.ws| == |a.list| && Ends(a.buffers)
    ensures Announces(t, readerZero, SentFrame(t, a.list, a.ws, a.streamId), a.senderZero, a.list, a.ws)
  {
    hide BlockBytes, AllWritten, AllSurvive, Addressable, Ends, Sendable, Canonical;
  }

  /** What the first `n` frames of a body do to a stream that has the headers. */
  lemma BodyIsReceived(t: Table, readerZero: bool, a: Reply, headed: Stream, n: nat)
    requires Ends(a.buffers) && headed.headers == Norms(a.list) && n <= |BodyFrames(a.buffers, a.streamId)|
    ensures var body := BodyFrames(a.buffers, a.streamId);
            var after, requests := ReceivedAll(t, readerZero, headed, body[..n]), RequestsBy(t, readerZero, headed, body[..n]);
            && HeaderLists(t, readerZero, body[..n]) == []
            && (n < |body| ==>
                  && after.headers == headed.headers && requests == []
                  && headed.data <= after.data <= headed.data + Content(a.buffers))
            && (n == |body| ==> ArrivedWhole(headed, after, requests, a))
  {
    var body := BodyFrames(a.buffers, a.streamId);
    BodyIsConserved(a.buffers, a.streamId);
    BodyNotEmpty(a.buffers, a.streamId);
    hide BodyFrames, IsSlice, ReceivedAll, RequestsBy, HeaderLists, Norms, Content, RequestOf, FindHeader, ArrivedWhole,
         Payloads;
    if n == |body| {
      assert body[..n] == body;
      WholeBodyIsReceived(t, readerZero, a, headed, body);
    } else {
      PartOfBodyIsReceived(t, readerZero, headed, body, n, a.streamId, LastBuffer(a.buffers).data != []);
    }
  }

  /** The headers that a stream had before do not matter. */
  lemma ArrivedFrom(before: Stream, headed: Stream, after: Stream, requests: seq<Request>, a: Reply)
    requires Ends(a.buffers) && headed == before.(headers := headed.headers) && ArrivedWhole(headed, after, requests, a)
    ensures ArrivedWhole(before, after, requests, a)
  {
    hide Norms, Content, RequestOf, Asks, LastBuffer;
  }

  lemma HeadIsReceived(t: Table, readerZero: bool, before: Stream, head: Frame, part: seq<Frame>, senderZero: bool,
                       list: seq<Header>, ws: seq<Where>)
    requires Announces(t, readerZero, head, senderZero, list, ws)
    ensures var headed, frames := before.(headers := Norms(list)), [head] + part;
            && ReceivedAll(t, readerZero, before, frames) == ReceivedAll(t, readerZero, headed, part)
            && RequestsBy(t, readerZero, before, frames) == RequestsBy(t, readerZero, headed, part)
            && HeaderLists(t, readerZero, frames) == [Norms(list)] + HeaderLists(t, readerZero, part)
  {
    AnnouncedHeaders(t, readerZero, Decoder([], [], readerZero), head, senderZero, list, ws);
    hide Announces, HeadersIn, Norms, ReceivedAll, RequestsBy, HeaderLists;
    ReceivedCons(t, readerZero, before, head, part);
    assert RequestBy(before, head) == [];
    assert [] + RequestsBy(t, readerZero, before.(headers := Norms(list)), part)
           == RequestsBy(t, readerZero, before.(headers := Norms(list)), part);
  }

  lemma FramesOfReplyAre(t: Table, a: Reply)
    requires Addressable(t) && |a.ws| == |a.list| && Ends(a.buffers)
    ensures FramesOfReply(t, a) == [SentFrame(t, a.list, a.ws, a.streamId)] + BodyFrames(a.buffers, a.streamId)
  {
    hide Addressable, SentFrame, BodyFrames, Ends;
  }

  lemma WholeBodyIsReceived(t: Table, readerZero: bool, a: Reply, headed: Stream, body: seq<Frame>)
    requires Ends(a.buffers) && headed.headers == Norms(a.list)
    requires AllSlices(body, a.streamId) && EndsAt(body, LastBuffer(a.buffers).data != [])
    requires Payloads(body) == Content(a.buffers) && (LastBuffer(a.buffers).data != [] ==> body != [])
    ensures ArrivedWhole(headed, ReceivedAll(t, readerZero, headed, body), RequestsBy(t, readerZero, headed, body), a)
    ensures HeaderLists(t, readerZero, body) == []
  {
    BodyAdds(t, readerZero, headed, body, a.streamId, LastBuffer(a.buffers).data != []);
    var full := headed.(data := headed.data + Content(a.buffers));
    FinishedIs(full);
    hide Content, Norms, ReceivedAll, RequestsBy, HeaderLists, RequestOf, Asks, Finished, LastBuffer;
    assert full == Stream(headed.streamId, Norms(a.list), headed.data + Content(a.buffers));
  }

  lemma PartOfBodyIsReceived(t: Table, readerZero: bool, headed: Stream, body: seq<Frame>, n: nat, id: uint32, marked: bool)
    requires AllSlices(body, id) && EndsAt(body, marked) && n < |body|
    ensures var after := ReceivedAll(t, readerZero, headed, body[..n]);
            && after.headers == headed.headers && headed.data <= after.data <= headed.data + Payloads(body)
            && RequestsBy(t, readerZero, headed, body[..n]) == [] && HeaderLists(t, readerZero, body[..n]) == []
  {
    hide HasFlag;
    var part, rest := body[..n], body[n..];
    assert body == part + rest;
    PlainSlices(body, n, id, marked);
    SlicesAdd(t, readerZero, headed, part);
    PayloadsConcat(part, rest);
    Associate(headed.data, Payloads(part), Payloads(rest));
  }

  /** A peer past its handshake, between frames. */
  ghost predicate Listening(c: Conn, readerZero: bool) {
    c.unfinished == None && Ready(c, readerZero)
  }

  /** Whole frames that a peer accepts, cut into packets anywhere but inside a frame header. */
  lemma PacketsAreDelivered(t: Table, handler: Handler, readerZero: bool, c: Conn, frames: seq<Frame>,
                            packets: seq<seq<uint8>>, id: uint32)
    requires Listening(c, readerZero) && Willing(handler)
    requires AllWholeFrames(frames) && AllAcceptable(t, readerZero, frames)
    requires Concat(packets) == Wire(frames) && NoHeaderIsCut(frames, 0, packets)
    ensures RunDelivers(t, readerZero, c, frames, id, PacketsRun(t, handler, c, packets))
  {
    hide AllAcceptable, AllWholeFrames, PacketsRun, ReadPackets, NoHeaderIsCut, Wire, Concat, FramesRun, HeaderLists,
         HeadersOn, RequestsOn, ReceivedAll, RequestsBy, OnStream, Willing;
    ReassemblyIsExact(frames, packets);
    FramesAreDelivered(t, handler, readerZero, c, frames, id);
    PacketsAreTheirFrames(t, handler, c, packets);
    assert c.(unfinished := None) == c;
    var g := FramesRun(t, handler, c, frames);
    RunStaysPastPreface(t, handler, c, frames);
    assert g.conn.(unfinished := None) == g.conn;
  }

  /**
   * One response: whatever its buffers and the serializer's choices, and however its bytes are cut into
   * packets outside frame headers, the peer's stream gets the normalised headers once and exactly the body.
   */
  lemma ResponseArrives(t: Table, handler: Handler, readerZero: bool, c: Conn, a: Reply, packets: seq<seq<uint8>>)
    requires Deliverable(t, readerZero, a) && Listening(c, readerZero) && Willing(handler)
    requires Concat(packets) == Wire(FramesOfReply(t, a)) && NoHeaderIsCut(FramesOfReply(t, a), 0, packets)
    ensures var h, id := PacketsRun(t, handler, c, packets), a.streamId;
            && h.alive
            && HeadersOn(h.events, id) == [Norms(a.list)]
            && ArrivedWhole(StreamOf(c, id), StreamOf(h.conn, id), RequestsOn(h.events, id), a)
  {
    var frames := FramesOfReply(t, a);
    ReplyIsSendable(t, readerZero, a);
    assert AllWholeFrames(frames);
    assert frames != [] && frames[..|frames|] == frames;
    hide Deliverable, FramesOfReply, PacketsRun, NoHeaderIsCut, Wire, Concat, HeaderLists, HeadersOn, RequestsOn,
         AllAcceptable, Listening, Willing, ArrivedWhole, StreamOf, ReceivedAll, RequestsBy;
    PacketsAreDelivered(t, handler, readerZero, c, frames, packets, a.streamId);
    AllOnStream(frames, a.streamId);
    ReplyIsReceived(t, readerZero, a, |frames|, StreamOf(c, a.streamId));
  }

  lemma {:induction false} AllOnStream(frames: seq<Frame>, id: uint32)
    requires OnOwnStream(frames, id)
    ensures OnStream(frames, id) == frames
  {
    hide WholeFrame;
    if frames != [] {
      var init, last := frames[..|frames| - 1], frames[|frames| - 1];
      assert last in frames;
      AllOnStream(init, id);
      assert frames == init + [last];
    }
  }

  /** Response `i` of the system is being written for reply `i`. */
  ghost predicate Answers(t: Table, readerZero: bool, s: System, replies: seq<Reply>) {
    && |replies| == |s.responses|
    && forall i :: 0 <= i < |replies| ==>
         && Deliverable(t, readerZero, replies[i])
         && s.responses[i].streamId == replies[i].streamId
         && s.responses[i].frames == FramesOfReply(t, replies[i])
  }

  /**
   * Concurrent responses, end to end.  In any reachable state of the writers in which the lock is free
   * and no two responses answer the same stream, cut the wire into packets anywhere but inside a frame
   * header: the peer's stream of each response is as it was before the response has begun, then has the
   * normalised headers, once, and a front part of the body, which is the whole body once all is sent.
   */
  lemma EveryResponseArrives(t: Table, handler: Handler, readerZero: bool, actions: seq<Action>, replies: seq<Reply>,
                             c: Conn, packets: seq<seq<uint8>>, i: nat)
    requires Possible(START, actions)
    requires var s := After(START, actions);
             s.owner == None && Answers(t, readerZero, s, replies) && DistinctStreams(s)
    requires Listening(c, readerZero) && Willing(handler) && i < |replies|
    requires var s := After(START, actions);
             Concat(packets) == s.wire && NoHeaderIsCut(FramesOf(s.log), 0, packets)
    ensures var h, a := PacketsRun(t, handler, c, packets), replies[i];
            var id := a.streamId;
            && h.alive && Addressable(t) && |a.ws| == |a.list| && Ends(a.buffers)
            && ArrivedSoFar(t, a, After(START, actions).responses[i].sent, StreamOf(c, id), StreamOf(h.conn, id),
                            RequestsOn(h.events, id), HeadersOn(h.events, id))
  {
    WireIsWholeFrames(actions);
    ResponsesAreNotMixed(actions, i);
    EveryRunKeepsInv(actions);
    hide After, Possible;
    var s, a := After(START, actions), replies[i];
    LogIsAcceptable(t, readerZero, s, replies);
    assert Deliverable(t, readerZero, a);
    hide FramesOfReply, PacketsRun, NoHeaderIsCut, Wire, Concat, HeaderLists, HeadersOn, RequestsOn, AllAcceptable,
         AllWholeFrames, OnStream, Writers.Inv, Listening, Willing, StreamOf, ReceivedAll, RequestsBy, ArrivedSoFar,
         BlockBytes, AllWritten, AllSurvive, Addressable, Intact;
    PacketsAreDelivered(t, handler, readerZero, c, FramesOf(s.log), packets, a.streamId);
    ReplyIsReceived(t, readerZero, a, s.responses[i].sent, StreamOf(c, a.streamId));
  }

  // ----- The status and the headers of a response -----

  /** The stream has the status in decimal, and behind it the headers in the form in which a peer sees them. */
  ghost predicate HasResponse(s: Stream, status: nat, headers: seq<Header>) {
    && s.headers != [] && s.headers[0].key == Text(":status") && Writes(s.headers[0].value, status)
    && s.headers[1..] == Norms(headers)
  }

  lemma StatusIsKept(list: seq<Header>, status: nat, headers: seq<Header>)
    requires IsListOf(list, status, headers)
    ensures Norms(list) == [list[0]] + Norms(headers)
  {
    var h := list[0];
    StatusIsStatic();
    hide StaticEntry, Text, Writes, Norm;
    NormGoesBySpelling(h);
    assert Respells(h.key, StaticEntry(8).key);
    assert Norm(h) == h;
  }

  lemma StatusIsStatic()
    ensures StaticEntry(8).key == Text(":status")
  {
  }

  lemma ListIsResponse(s: Stream, list: seq<Header>, status: nat, headers: seq<Header>)
    requires IsListOf(list, status, headers) && s.headers == Norms(list)
    ensures HasResponse(s, status, headers)
  {
    StatusIsKept(list, status, headers);
    hide Norms, Writes, Text;
  }

  /**
   * What `Respond` has written for a status and headers, once it has come: the peer's stream has a `:status`
   * that reads as that status, then the headers, and the body.
   */
  lemma ResponseIsReadBack(t: Table, handler: Handler, readerZero: bool, c: Conn, a: Reply, packets: seq<seq<uint8>>,
                           status: nat, headers: seq<Header>)
    requires Deliverable(t, readerZero, a) && Listening(c, readerZero) && Willing(handler)
    requires a.list == ResponseHeaders(status, headers)
    requires Concat(packets) == Wire(FramesOfReply(t, a)) && NoHeaderIsCut(FramesOfReply(t, a), 0, packets)
    ensures var h, id := PacketsRun(t, handler, c, packets), a.streamId;
            var after := StreamOf(h.conn, id);
            && h.alive && HasResponse(after, status, headers) && |HeadersOn(h.events, id)| == 1
            && (LastBuffer(a.buffers).data == [] || !Asks(after.headers) ==>
                  after.data == StreamOf(c, id).data + Content(a.buffers))
  {
    var after := StreamOf(PacketsRun(t, handler, c, packets).conn, a.streamId);
    hide Deliverable, FramesOfReply, PacketsRun, NoHeaderIsCut, Wire, Concat, HeadersOn, RequestsOn, Listening, Willing,
         StreamOf, HasResponse, ResponseHeaders, Asks, Content, LastBuffer, Norms, RequestOf;
    ResponseArrives(t, handler, readerZero, c, a, packets);
    ResponseHeadersAre(status, headers);
    ListIsResponse(after, a.list, status, headers);
  }

  /** The same of each of many concurrent responses that has begun. */
  lemma EveryResponseIsReadBack(t: Table, handler: Handler, readerZero: bool, actions: seq<Action>, replies: seq<Reply>,
                                c: Conn, packets: seq<seq<uint8>>, i: nat, status: nat, headers: seq<Header>)
    requires Possible(START, actions)
    requires var s := After(START, actions);
             s.owner == None && Answers(t, readerZero, s, replies) && DistinctStreams(s)
    requires Listening(c, readerZero) && Willing(handler) && i < |replies|
    requires var s := After(START, actions);
             Concat(packets) == s.wire && NoHeaderIsCut(FramesOf(s.log), 0, packets)
    requires replies[i].list == ResponseHeaders(status, headers) && After(START, actions).responses[i].sent > 0
    ensures var h, id := PacketsRun(t, handler, c, packets), replies[i].streamId;
            h.alive && HasResponse(StreamOf(h.conn, id), status, headers) && |HeadersOn(h.events, id)| == 1
  {
    EveryResponseArrives(t, handler, readerZero, actions, replies, c, packets, i);
    ResponsesAreNotMixed(actions, i);
    ResponseHeadersAre(status, headers);
    var h, a := PacketsRun(t, handler, c, packets), replies[i];
    var sent, before, after := After(START, actions).responses[i].sent, StreamOf(c, a.streamId), StreamOf(h.conn, a.streamId);
    hide Possible, After, Answers, PacketsRun, NoHeaderIsCut, Wire, Concat, HeadersOn, RequestsOn, Listening, Willing,
         StreamOf, HasResponse, ResponseHeaders, Asks, Content, LastBuffer, Norms, RequestOf;
    SentHeaders(t, a, sent, before, after, RequestsOn(h.events, a.streamId), HeadersOn(h.events, a.streamId));
    ListIsResponse(after, a.list, status, headers);
  }

  lemma SentHeaders(t: Table, a: Reply, sent: nat, before: Stream, after: Stream, requests: seq<Request>,
                    lists: seq<seq<Header>>)
    requires Addressable(t) && |a.ws| == |a.list| && Ends(a.buffers) && 0 < sent <= |FramesOfReply(t, a)|
    requires ArrivedSoFar(t, a, sent, before, after, requests, lists)
    ensures after.headers == Norms(a.list) && |lists| == 1
  {
    hide FramesOfReply, Norms, Content, RequestOf, Asks;
  }

  lemma LogIsAcceptable(t: Table, readerZero: bool, s: System, replies: seq<Reply>)
    requires Inv(s) && Answers(t, readerZero, s, replies)
    ensures AllAcceptable(t, readerZero, FramesOf(s.log))
  {
    hide Acceptable, Deliverable, FramesOfReply, OnOwnStream, WireIsWhole, Exclusive;
    forall k | 0 <= k < |s.log| ensures Acceptable(t, readerZero, s.log[k].frame) {
      var e := s.log[k];
      if e.thread.Reader? {
        ControlIsAcceptable(t, readerZero, e.frame);
      } else {
        var i := e.thread.index;
        InWritten(s.log, k);
        assert InOrder(s.responses[i], WrittenBy(s.log, Writers.Handler(i)));
        ReplyIsSendable(t, readerZero, replies[i]);
        assert e.frame in s.responses[i].frames;
      }
    }
    LoggedFrames(s.log, t, readerZero);
  }

  lemma ControlIsAcceptable(t: Table, readerZero: bool, f: Frame)
    requires IsControl(f)
    ensures Acceptable(t, readerZero, f)
  {
  }

  lemma {:induction false} InWritten(log: seq<Logged>, k: nat)
    requires k < |log|
    ensures log[k].frame in WrittenBy(log, log[k].thread)
  {
    if k < |log| - 1 {
      InWritten(log[..|log| - 1], k);
    }
  }

  lemma {:induction false} LoggedFrames(log: seq<Logged>, t: Table, readerZero: bool)
    requires forall k :: 0 <= k < |log| ==> Acceptable(t, readerZero, log[k].frame)
    ensures AllAcceptable(t, readerZero, FramesOf(log))
  {
    hide Acceptable;
    if log != [] { LoggedFrames(log[..|log| - 1], t, readerZero); }
  }
}
