/**
 * The HTTP/2 connection object (connection<h2::protocol> in include/protocols/h2/connection.hpp and
 * src/protocols/h2/connection.cpp) and the read loop of src/https.cpp, proved to do what Http2 says.
 */
module Connection {
  import opened Options
  import opened Bits
  import opened Huffman
  import opened Frames
  import opened HpackStatics
  import opened HpackParser
  import opened Reassembly
  import opened Uri
  import opened Http2

  class Connection {
    var phase: Phase
    var unfinished: Option<Frame>
    var streams: map<uint32, Stream>
    var wire: seq<uint8>
    var closed: bool
    var request: Option<Request>
    var handled: nat
    const rx: Parser

    constructor (statics: StaticTable, decoder: Huffman)
      requires decoder.Valid()
      ensures Valid() && fresh(rx) && rx.statics == statics && rx.decoder == decoder
      ensures State() == Initial(statics.hasZero)
    {
      phase, unfinished, streams, wire, closed, request := ClientPreface, None, map[], [], false, None;
      handled := 0;
      rx := new Parser(statics, decoder);
    }

    ghost predicate Valid()
      reads this, rx, rx.decoder
    {
      rx.Valid() && Partial(unfinished)
    }

    /** The decoded bytes still in the parser are its own; the rest of the state is here. */
    ghost function State(): (c: Conn)
      reads this, rx, rx.statics
      ensures c.unfinished == unfinished
    {
      Conn(phase, unfinished, streams, rx.State(), wire, closed, handled)
    }

    method ReadFrame(pos: nat, data: seq<uint8>) returns (r: ReadResult, pos': nat)
      requires Valid() && pos <= |data|
      modifies this`unfinished
      ensures Valid() && pos <= pos'
      ensures ReadStep(old(unfinished), data[pos..]) == Read(r, unfinished, pos' - pos)
    {
      pos' := pos;
      var frame;
      if unfinished.Some? {
        frame := unfinished.value;
      } else {
        if |data| - pos < HTTP2_FRAME_SIZE {
          return Failed(BadHeader), pos;
        }
        var ok;
        ok, frame := Unpack(Frame(0, 0, 0, 0, []), data[pos..pos + HTTP2_FRAME_SIZE]);
        assert data[pos..][..HTTP2_FRAME_SIZE] == data[pos..pos + HTTP2_FRAME_SIZE];
        HeaderPrefix(data[pos..]);
        if frame.length > MAX_FRAME_SIZE {
          return Failed(TooBig), pos;
        }
        pos' := pos' + HTTP2_FRAME_SIZE;
      }
      var remaining := |data| - pos';
      var n := Min(remaining, frame.length - |frame.data|);
      SliceOfRest(data, pos, pos' - pos, n);
      hide PackedHeader, UnpackedHeader;
      frame := frame.(data := frame.data + data[pos'..pos' + n]);
      pos' := pos' + n;
      if |frame.data| < frame.length {
        unfinished := Some(frame);
        return Failed(InsufficientData), pos';
      }
      unfinished := None;
      r := Complete(frame);
    }

    /** Both writes of a frame happen while the connection is locked. */
    method Write(f: Frame)
      modifies this`wire
      ensures wire == old(wire) + PackedFrame(f)
    {
      var data := new uint8[HTTP2_FRAME_SIZE](_ => 0);
      var ok := Pack(f, data);
      assert data[..] == PackedHeader(f);
      Associate(wire, data[..], f.data);
      wire := wire + data[..];
      wire := wire + f.data;
    }

    method Terminate()
      modifies this`closed
      ensures State() == old(State()).(closed := true)
    {
      closed := true;
    }

    method GetHeader(headers: seq<Header>, key: seq<uint8>) returns (value: Option<seq<uint8>>)
      ensures value == FindHeader(headers, key)
    {
      var i := 0;
      while i < |headers|
        invariant i <= |headers| && FindHeader(headers, key) == FindHeader(headers[i..], key)
      {
        if headers[i].key == key {
          return Some(headers[i].value);
        }
        assert headers[i..][1..] == headers[i + 1..];
        i := i + 1;
      }
      value := None;
    }

    method MakeRequest(s: Stream) returns (r: Request)
      ensures r == RequestOf(s)
    {
      var path := GetHeader(s.headers, Text(":path"));
      var name := GetHeader(s.headers, Text(":method"));
      if path.None? || name.None? {
        return Failure(s.streamId);
      }
      var headers: map<seq<uint8>, seq<uint8>> := map[];
      for i := 0 to |s.headers|
        invariant headers == HeaderMap(s.headers[..i])
      {
        assert s.headers[..i + 1][..i] == s.headers[..i];
        headers := headers[s.headers[i].key := s.headers[i].value];
      }
      assert s.headers[..|s.headers|] == s.headers;
      var target := UriDecode(path.value);
      var query := ParseQuery(target);
      var mark := FindByte(target, QUESTION);
      r := Request(s.streamId, target[..mark], query, MethodNamed(name.value), headers, s.data);
    }

    /** Makes the request of a stream; a proper request takes the stream's data. */
    method FinishStream(id: uint32)
      requires id in streams && streams[id].streamId == id
      modifies this`request, this`streams, this`handled
      ensures handled == old(handled) + 1
      ensures request == Some(RequestOf(old(streams[id])))
      ensures streams == old(streams)[id := Finished(old(streams[id]))]
    {
      var s := streams[id];
      var r := MakeRequest(s);
      request := Some(r);
      handled := handled + 1;
      if r.Request? {
        streams := streams[id := s.(data := [])];
      }
    }

    method Process(pos: nat, packet: seq<uint8>) returns (outcome: Outcome, pos': nat, ghost events: seq<Event>)
      requires Valid() && pos <= |packet|
      modifies this, rx, rx.statics
      ensures Valid() && pos <= pos'
      ensures StepAt(rx.decoder.encodings, old(State()), packet, pos) == Processed(State(), outcome, pos' - pos, events)
      ensures outcome == Returns(NewRequest) ==> events != [] && request.Some? && events[|events| - 1] == Emitted(request.value)
    {
      hide Parser.Valid, ReadStep, FrameStep, HandshakeStep, PackedFrame;
      events := [];
      pos' := pos;
      if pos >= |packet| {
        return Returns(Eof), pos, [];
      }
      match phase {
        case ClientPreface =>
          var size := |HTTP2_CLIENT_PREFACE|;
          assert packet[pos..][..Min(size, |packet| - pos)] == packet[pos..pos + Min(size, |packet| - pos)];
          if |packet| - pos >= size && packet[pos..pos + size] == HTTP2_CLIENT_PREFACE {
            phase := WaitClientSettings;
            return Returns(Settings), pos + size, [Preface];
          }
          return Throws, pos, [];
        case WaitClientSettings =>
          var r;
          r, pos' := ReadFrame(pos, packet);
          match r {
            case Failed(InsufficientData) => return Returns(MoreInput), pos', [];
            case Failed(_) => return Throws, pos', [];
            case Complete(f) => outcome, events := ProcessHandshake(f, pos' - pos);
          }
        case Idle =>
          var r;
          r, pos' := ReadFrame(pos, packet);
          match r {
            case Failed(InsufficientData) => return Returns(MoreInput), pos', [];
            case Failed(_) =>
              Terminate();
              return Exits, pos', [];
            case Complete(f) => outcome, events := ProcessFrame(f, pos' - pos);
          }
        case _ => return Exits, pos, [];
      }
    }

    method ProcessHandshake(f: Frame, ghost consumed: nat) returns (outcome: Outcome, ghost events: seq<Event>)
      requires Valid()
      modifies this
      ensures Valid()
      ensures HandshakeStep(old(State()), f, consumed) == Processed(State(), outcome, consumed, events)
      ensures outcome != Returns(NewRequest)
    {
      if f.kind != SETTINGS {
        return Throws, [Refused(f)];
      }
      if f.length % 6 != 0 {
        Terminate();
        return Returns(InvalidInput), [Refused(f)];
      }
      Write(EMPTY_SETTINGS);
      phase := Idle;
      return Returns(Settings), [Handshake(f)];
    }

    /** A complete frame on a connection past its handshake. */
    method ProcessFrame(f: Frame, ghost consumed: nat) returns (outcome: Outcome, ghost events: seq<Event>)
      requires Valid()
      modifies this, rx, rx.statics
      ensures Valid()
      ensures FrameStep(rx.decoder.encodings, old(State()), f, consumed) == Processed(State(), outcome, consumed, events)
      ensures outcome == Returns(NewRequest) ==> events != [] && request.Some? && events[|events| - 1] == Emitted(request.value)
    {
      hide Parser.Valid, HeadersStep, RequestOf, PackedFrame;
      var id := f.streamId;
      // operator[] provisions a stream that is not there yet.
      var s := if id in streams then streams[id] else Stream(0, [], []);
      streams := streams[id := s.(streamId := id)];
      events := [Got(f)];
      if f.kind == SETTINGS {
        if !HasFlag(f.flags, ACK) {
          Write(SETTINGS_ACK);
        }
        outcome := Returns(Settings);
      } else if f.kind == PING {
        Write(PingAck(id));
        outcome := Returns(Settings);
      } else if f.kind == WINDOW_UPDATE {
        outcome := Returns(Settings);
      } else if f.kind == HEADERS || f.kind == CONTINUATION {
        outcome, events := ProcessHeaders(f, consumed);
      } else if f.kind == DATA {
        // The source's test for a stream that does not exist can never succeed.
        if id !in streams {
          assert false;
        }
        var stream := streams[id];
        streams := streams[id := stream.(data := stream.data + f.data)];
        if HasFlag(f.flags, END_STREAM) {
          FinishStream(id);
          events := [Got(f)] + [Emitted(request.value)];
          outcome := Returns(NewRequest);
        } else {
          outcome := Returns(MoreInput);
        }
      } else {
        outcome := Returns(MoreInput);
      }
    }

    method ProcessHeaders(f: Frame, ghost consumed: nat) returns (outcome: Outcome, ghost events: seq<Event>)
      requires Valid() && f.streamId in streams && streams[f.streamId].streamId == f.streamId
      modifies this, rx, rx.statics
      ensures Valid()
      ensures HeadersStep(rx.decoder.encodings, old(State()), old(streams[f.streamId]), f, consumed)
              == Processed(State(), outcome, consumed, events)
      ensures outcome == Returns(NewRequest) ==> events != [] && request.Some? && events[|events| - 1] == Emitted(request.value)
    {
      events := [Got(f)];
      var status := rx.Parse(f);
      match status {
        case UnknownHeader =>
          Terminate();
          outcome := Returns(InvalidInput);
        case Invalid =>
          Terminate();
          outcome := Returns(InvalidInput);
        case SizeUpdate =>
          Write(SETTINGS_ACK);
          outcome := Returns(MoreInput);
        case More => outcome := Returns(MoreInput);
        case Raises(fault) => outcome := if fault == InvalidArgument then Throws else Dies(fault);
        case Done =>
          var id := f.streamId;
          var headers := rx.Result();
          streams := streams[id := streams[id].(headers := headers)];
          events := [Got(f), HeadersDone(id, headers)];
          if HasFlag(f.flags, END_STREAM) {
            FinishStream(id);
            events := events + [Emitted(request.value)];
            outcome := Returns(NewRequest);
          } else {
            outcome := Returns(MoreInput);
          }
      }
    }

    /**
     * The read loop over one packet.  It hands each request to the user's handler, and ends with the
     * cursor at the end of the packet unless an exception or a handler's layer error drops the rest, or
     * the process is gone.
     */
    method OnRead(handler: Handler, packet: seq<uint8>)
      returns (requests: seq<Request>, alive: bool, ghost events: seq<Event>)
      requires Valid()
      modifies this, rx, rx.statics
      ensures Valid()
      ensures PacketRun(rx.decoder.encodings, handler, old(State()), packet) == History(State(), events, alive)
      ensures requests == RequestsIn(events)
    {
      ghost var t, c := rx.decoder.encodings, State();
      hide Parser.Valid, State, StepAt, PacketRun, RequestsIn, RunFrom, AnswerOutcome;
      requests, events := [], [];
      var pos := 0;
      NothingYet(t, handler, c, packet);
      while true
        invariant Valid() && pos <= |packet| && t == rx.decoder.encodings
        invariant requests == RequestsIn(events)
        invariant PacketRun(t, handler, c, packet) == RunFrom(t, handler, State(), packet, pos, events)
        decreases |packet| - pos
      {
        ghost var now, start := State(), pos;
        var outcome;
        ghost var more;
        outcome, pos, more := Process(pos, packet);
        ghost var p := Processed(State(), outcome, pos - start, more);
        NextCall(t, handler, now, packet, start, events, p, pos);
        events := events + more;
        if outcome == Returns(NewRequest) {
          requests := requests + [request.value];
          outcome := Answering(handler);
        }
        if !GoesOn(outcome) {
          if outcome.Throws? {
            Terminate();
          }
          return requests, outcome.Returns? || outcome.Throws? || outcome.Drops?, events;
        }
      }
    }

    /** The handler of the request just made. */
    method Answering(handler: Handler) returns (outcome: Outcome)
      ensures outcome == AnswerOutcome(handler(handled))
    {
      match handler(handled) {
        case Answered => outcome := Returns(NewRequest);
        case LayerError => outcome := Drops;
        case Exception => outcome := Throws;
        case Uncaught => outcome := Exits;
      }
    }
  }

  lemma SliceOfRest(data: seq<uint8>, pos: nat, start: nat, n: nat)
    requires pos + start + n <= |data|
    ensures data[pos..][start..start + n] == data[pos + start..pos + start + n]
  {
  }

  lemma HeaderPrefix(data: seq<uint8>)
    requires |data| >= HTTP2_FRAME_SIZE
    ensures UnpackedHeader(data[..HTTP2_FRAME_SIZE]) == UnpackedHeader(data)
  {
    assert data[..9][..3] == data[..3] && data[..9][5..9] == data[5..9];
  }

  ghost function RequestsIn(events: seq<Event>): seq<Request> {
    if events == [] then []
    else (if events[0].Emitted? then [events[0].request] else []) + RequestsIn(events[1..])
  }

  lemma {:induction false} RequestsInConcat(a: seq<Event>, b: seq<Event>)
    ensures RequestsIn(a + b) == RequestsIn(a) + RequestsIn(b)
  {
    if a == [] {
      assert a + b == b;
    } else {
      ConsConcat(a, b);
      RequestsInConcat(a[1..], b);
      Associate(if a[0].Emitted? then [a[0].request] else [], RequestsIn(a[1..]), RequestsIn(b));
    }
  }

  ghost function AfterEvents(before: seq<Event>, h: History): History {
    h.(events := before + h.events)
  }

  /** The whole of a run that has come to position `pos` with `before` behind it. */
  ghost function RunFrom(t: Table, handler: Handler, c: Conn, packet: seq<uint8>, pos: nat, before: seq<Event>): History
    requires Partial(c.unfinished) && pos <= |packet|
  {
    AfterEvents(before, PacketRun(t, handler, c, packet[pos..]))
  }

  lemma NothingYet(t: Table, handler: Handler, c: Conn, packet: seq<uint8>)
    requires Partial(c.unfinished)
    ensures RunFrom(t, handler, c, packet, 0, []) == PacketRun(t, handler, c, packet) && RequestsIn([]) == []
  {
    hide PacketRun;
    assert packet[0..] == packet;
    var h := PacketRun(t, handler, c, packet);
    assert [] + h.events == h.events;
  }

  /** What `process` does with the cursor at `pos`. */
  ghost function StepAt(t: Table, c: Conn, packet: seq<uint8>, pos: nat): (p: Processed)
    requires Partial(c.unfinished) && pos <= |packet|
    ensures pos + p.consumed <= |packet| && Partial(p.conn.unfinished)
    ensures GoesOn(p.outcome) ==> 0 < p.consumed
    ensures p.outcome == Returns(Eof) <==> pos == |packet|
  {
    ProcessStep(t, c, packet[pos..])
  }

  lemma NextCall(t: Table, handler: Handler, c: Conn, packet: seq<uint8>, pos: nat, before: seq<Event>,
                 p: Processed, pos': nat)
    requires Partial(c.unfinished) && pos <= |packet| && p == StepAt(t, c, packet, pos) && pos' == pos + p.consumed
    ensures RequestsIn(before + p.events) == RequestsIn(before) + LastRequest(p)
    ensures GoesOn(Handled(handler, p)) ==> GoesOn(p.outcome)
    ensures RunFrom(t, handler, c, packet, pos, before)
            == if GoesOn(Handled(handler, p)) then RunFrom(t, handler, p.conn, packet, pos', before + p.events)
               else EndOfRun(p.conn, Handled(handler, p), before + p.events)
  {
    assert GoesOn(Handled(handler, p)) ==> GoesOn(p.outcome);
    hide ProcessStep, PacketRun, RequestsIn, AfterEvents, Handled;
    StepInRun(t, handler, c, packet[pos..], before);
    OneRequestAtMost(t, c, packet[pos..]);
    RequestsInConcat(before, p.events);
    assert packet[pos..][p.consumed..] == packet[pos'..];
  }

  predicate GoesOn(outcome: Outcome) {
    outcome.Returns? && outcome.result != Eof
  }

  ghost function EndOfRun(c: Conn, outcome: Outcome, events: seq<Event>): History {
    History(if outcome.Throws? then c.(closed := true) else c, events,
            outcome.Returns? || outcome.Throws? || outcome.Drops?)
  }

  ghost function LastRequest(p: Processed): seq<Request> {
    var n := |p.events|;
    if p.outcome == Returns(NewRequest) && n > 0 && p.events[n - 1].Emitted? then [p.events[n - 1].request] else []
  }

  lemma StepInRun(t: Table, handler: Handler, c: Conn, data: seq<uint8>, before: seq<Event>)
    requires Partial(c.unfinished)
    ensures var p := ProcessStep(t, c, data);
            var outcome := Handled(handler, p);
            && (GoesOn(outcome) ==> GoesOn(p.outcome))
            && AfterEvents(before, PacketRun(t, handler, c, data)) ==
               if GoesOn(outcome) then
                 AfterEvents(before + p.events, PacketRun(t, handler, p.conn, data[p.consumed..]))
               else EndOfRun(p.conn, outcome, before + p.events)
  {
    hide ProcessStep;
    var p := ProcessStep(t, c, data);
    var outcome := Handled(handler, p);
    assert GoesOn(outcome) ==> GoesOn(p.outcome);
    hide Handled;
    if GoesOn(outcome) {
      Associate(before, p.events, PacketRun(t, handler, p.conn, data[p.consumed..]).events);
    }
  }

  /** A call emits a request as its last event, or none. */
  ghost predicate RequestAtEnd(p: Processed) {
    var n := |p.events|;
    if p.outcome == Returns(NewRequest) then
      n > 0 && p.events[n - 1].Emitted? && forall i :: 0 <= i < n - 1 ==> !p.events[i].Emitted?
    else forall i :: 0 <= i < n ==> !p.events[i].Emitted?
  }

  lemma HeadersStepRequests(t: Table, c: Conn, s: Stream, f: Frame, consumed: nat)
    ensures RequestAtEnd(HeadersStep(t, c, s, f, consumed))
  {
    hide ParsedFrame, RequestOf, PackedFrame;
  }

  lemma FrameStepRequests(t: Table, c: Conn, f: Frame, consumed: nat)
    ensures RequestAtEnd(FrameStep(t, c, f, consumed))
  {
    var s := StreamOf(c, f.streamId);
    HeadersStepRequests(t, WithStream(c, s), s, f, consumed);
    hide HeadersStep, RequestOf, PackedFrame;
  }

  lemma OneRequestAtMost(t: Table, c: Conn, data: seq<uint8>)
    requires Partial(c.unfinished)
    ensures var p := ProcessStep(t, c, data); RequestsIn(p.events) == LastRequest(p)
  {
    ProcessRequests(t, c, data);
    hide ProcessStep, RequestsIn;
    var p := ProcessStep(t, c, data);
    var n := |p.events|;
    if p.outcome == Returns(NewRequest) {
      var before := p.events[..n - 1];
      assert p.events == before + [p.events[n - 1]];
      NoRequests(before);
      RequestsInConcat(before, [p.events[n - 1]]);
      OneRequest(p.events[n - 1].request);
    } else {
      NoRequests(p.events);
    }
  }

  lemma ProcessRequests(t: Table, c: Conn, data: seq<uint8>)
    requires Partial(c.unfinished)
    ensures RequestAtEnd(ProcessStep(t, c, data))
  {
    hide FrameStep, PackedFrame;
    var r := ReadStep(c.unfinished, data);
    if r.result.Complete? { FrameStepRequests(t, c.(unfinished := r.unfinished), r.result.frame, r.consumed); }
    hide ReadStep;
  }

  lemma {:induction false} NoRequests(events: seq<Event>)
    requires forall i :: 0 <= i < |events| ==> !events[i].Emitted?
    ensures RequestsIn(events) == []
  {
    if events != [] { NoRequests(events[1..]); }
  }

  lemma OneRequest(r: Request)
    ensures RequestsIn([Emitted(r)]) == [r]
  {
    assert [Emitted(r)][1..] == [];
  }
}
