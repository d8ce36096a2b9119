/**
 * What an HTTP/2 connection does with the bytes it receives (connection<h2::protocol>::process and
 * finish_stream in src/protocols/h2/connection.cpp), as functions of the connection's state.
 */
module Http2 {
  import opened Options
  import opened Bits
  import opened Huffman
  import opened Frames
  import opened HpackStatics
  import opened HpackParser
  import opened Reassembly
  import opened Uri

  const HTTP2_CLIENT_PREFACE: seq<uint8> := Text("PRI * HTTP/2.0\r\n\r\nSM\r\n\r\n")

  datatype Phase = ClientPreface | WaitClientSettings | Idle | Open | RsvLocal | HcRemote

  datatype Stream = Stream(streamId: uint32, headers: seq<Header>, data: seq<uint8>)

  datatype Method = Unset | Get | Head | Post | Put | Delete | Connect | Options | Trace | Patch

  /** `Failure` is the request for "/error" that stands for a stream without path or method. */
  datatype Request =
    | Request(streamId: uint32, path: seq<uint8>, query: QueryResult, method_: Method,
              headers: map<seq<uint8>, seq<uint8>>, body: seq<uint8>)
    | Failure(streamId: uint32)

  /** `handled` counts the requests made, which the source does not. */
  datatype Conn = Conn(phase: Phase, unfinished: Option<Frame>, streams: map<uint32, Stream>, hpack: Decoder,
                       wire: seq<uint8>, closed: bool, handled: nat)

  datatype Result = NewRequest | Settings | InvalidInput | Eof | MoreInput

  /**
   * A call returns, throws a std::exception, raises an error that is caught silently, exits the process,
   * or dies of a fault nothing catches.
   */
  datatype Outcome = Returns(result: Result) | Throws | Drops | Exits | Dies(fault: Fault)

  /** How the user's handler of a request ends: well, with a layer error, a std::exception, or something else. */
  datatype Answer = Answered | LayerError | Exception | Uncaught

  /** The user's handlers: how the n-th request of a connection ends. */
  type Handler = nat -> Answer

  /** What a call did that an observer can name. */
  datatype Event =
    | Preface
    | Handshake(frame: Frame)
    | Refused(frame: Frame)
    | Got(frame: Frame)
    | HeadersDone(streamId: uint32, headers: seq<Header>)
    | Emitted(request: Request)

  datatype Processed = Processed(conn: Conn, outcome: Outcome, consumed: nat, events: seq<Event>)

  const EMPTY_SETTINGS := Frame(0, SETTINGS, 0, 0, [])
  const SETTINGS_ACK := Frame(0, SETTINGS, 1, 0, [])

  function PingAck(streamId: uint32): Frame {
    Frame(8, PING, 1, streamId, seq(8, _ => 0))
  }

  function Initial(hasZero: bool): Conn {
    Conn(ClientPreface, None, map[], Decoder([], [], hasZero), [], false, 0)
  }

  // ----- finish_stream -----

  function FindHeader(headers: seq<Header>, key: seq<uint8>): Option<seq<uint8>> {
    if headers == [] then None
    else if headers[0].key == key then Some(headers[0].value)
    else FindHeader(headers[1..], key)
  }

  /** Later headers overwrite earlier ones with the same key. */
  function HeaderMap(headers: seq<Header>): map<seq<uint8>, seq<uint8>> {
    if headers == [] then map[]
    else
      var last := headers[|headers| - 1];
      HeaderMap(headers[..|headers| - 1])[last.key := last.value]
  }

  /** `:path` and `:method` are taken from the first header with that key. */
  lemma {:induction false} FindHeaderIsFirst(headers: seq<Header>, key: seq<uint8>)
    ensures FindHeader(headers, key).None? <==> forall i :: 0 <= i < |headers| ==> headers[i].key != key
    ensures FindHeader(headers, key).Some? ==>
              exists i :: 0 <= i < |headers| && headers[i] == Header(key, FindHeader(headers, key).value)
                       && forall j :: 0 <= j < i ==> headers[j].key != key
  {
    if headers != [] && headers[0].key != key {
      FindHeaderIsFirst(headers[1..], key);
      assert forall i :: 0 <= i < |headers| - 1 ==> headers[1..][i] == headers[i + 1];
      if FindHeader(headers, key).Some? {
        var i :| 0 <= i < |headers| - 1 && headers[1..][i] == Header(key, FindHeader(headers, key).value)
                 && forall j :: 0 <= j < i ==> headers[1..][j].key != key;
        assert headers[i + 1] == Header(key, FindHeader(headers, key).value);
        forall j | 0 <= j < i + 1 ensures headers[j].key != key {
          if j > 0 { assert headers[j] == headers[1..][j - 1]; }
        }
      }
    }
  }

  /** The map of a request holds the last header with each key, which may be another `:path`. */
  lemma {:induction false} HeaderMapIsLast(headers: seq<Header>, key: seq<uint8>)
    ensures key in HeaderMap(headers) <==> exists i :: 0 <= i < |headers| && headers[i].key == key
    ensures key in HeaderMap(headers) ==>
              exists i :: 0 <= i < |headers| && headers[i] == Header(key, HeaderMap(headers)[key])
                       && forall j :: i < j < |headers| ==> headers[j].key != key
  {
    if headers != [] {
      var n := |headers| - 1;
      HeaderMapIsLast(headers[..n], key);
      if headers[n].key == key {
        assert headers[n] == Header(key, HeaderMap(headers)[key]);
      } else {
        assert forall i :: 0 <= i < n ==> headers[..n][i] == headers[i];
      }
    }
  }

  function MethodNamed(name: seq<uint8>): Method {
    if name == Text("GET") then Get
    else if name == Text("HEAD") then Head
    else if name == Text("POST") then Post
    else if name == Text("PUT") then Put
    else if name == Text("DELETE") then Delete
    else if name == Text("CONNECT") then Connect
    else if name == Text("OPTIONS") then Options
    else if name == Text("TRACE") then Trace
    else if name == Text("PATCH") then Patch
    else Unset
  }

  function RequestOf(s: Stream): Request {
    var path, name := FindHeader(s.headers, Text(":path")), FindHeader(s.headers, Text(":method"));
    if path.None? || name.None? then Failure(s.streamId)
    else
      var target := UriDecoded(path.value);
      Request(s.streamId, target[..Find(target, QUESTION)], QueryParsed(target), MethodNamed(name.value),
              HeaderMap(s.headers), s.data)
  }

  /** The request takes the stream's data; a failure leaves them. */
  function Finished(s: Stream): Stream {
    if RequestOf(s).Request? then s.(data := []) else s
  }

  function StreamOf(c: Conn, id: uint32): Stream {
    if id in c.streams then c.streams[id].(streamId := id) else Stream(id, [], [])
  }

  // ----- process -----

  function Sent(c: Conn, f: Frame): Conn {
    c.(wire := c.wire + PackedFrame(f))
  }

  function WithStream(c: Conn, s: Stream): Conn {
    c.(streams := c.streams[s.streamId := s])
  }

  function EmitRequest(c: Conn, s: Stream, consumed: nat, events: seq<Event>): Processed {
    Processed(WithStream(c, Finished(s)).(handled := c.handled + 1), Returns(NewRequest), consumed, events + [Emitted(RequestOf(s))])
  }

  /** A complete HEADERS or CONTINUATION frame on stream `s`. */
  ghost function HeadersStep(t: Table, c: Conn, s: Stream, f: Frame, consumed: nat): Processed {
    var r := ParsedFrame(t, c.hpack, f);
    var c' := c.(hpack := r.d);
    match r.status
    case UnknownHeader => Processed(c'.(closed := true), Returns(InvalidInput), consumed, [Got(f)])
    case Invalid => Processed(c'.(closed := true), Returns(InvalidInput), consumed, [Got(f)])
    case SizeUpdate => Processed(Sent(c', SETTINGS_ACK), Returns(MoreInput), consumed, [Got(f)])
    case More => Processed(c', Returns(MoreInput), consumed, [Got(f)])
    case Raises(fault) =>
      Processed(c', if fault == InvalidArgument then Throws else Dies(fault), consumed, [Got(f)])
    case Done =>
      var s' := s.(headers := r.d.decoded);
      var c'' := WithStream(c'.(hpack := r.d.(decoded := [])), s');
      var events := [Got(f), HeadersDone(s.streamId, s'.headers)];
      if HasFlag(f.flags, END_STREAM) then EmitRequest(c'', s', consumed, events)
      else Processed(c'', Returns(MoreInput), consumed, events)
  }

  /** A complete frame on a connection past its handshake. */
  ghost function FrameStep(t: Table, c: Conn, f: Frame, consumed: nat): Processed {
    var s := StreamOf(c, f.streamId);
    var c' := WithStream(c, s);
    if f.kind == SETTINGS then
      Processed(if HasFlag(f.flags, ACK) then c' else Sent(c', SETTINGS_ACK), Returns(Settings), consumed, [Got(f)])
    else if f.kind == PING then Processed(Sent(c', PingAck(f.streamId)), Returns(Settings), consumed, [Got(f)])
    else if f.kind == WINDOW_UPDATE then Processed(c', Returns(Settings), consumed, [Got(f)])
    else if f.kind == HEADERS || f.kind == CONTINUATION then HeadersStep(t, c', s, f, consumed)
    else if f.kind == DATA then
      var s' := s.(data := s.data + f.data);
      if HasFlag(f.flags, END_STREAM) then EmitRequest(WithStream(c', s'), s', consumed, [Got(f)])
      else Processed(WithStream(c', s'), Returns(MoreInput), consumed, [Got(f)])
    else Processed(c', Returns(MoreInput), consumed, [Got(f)])
  }

  /** A complete frame in answer to the preface. */
  function HandshakeStep(c: Conn, f: Frame, consumed: nat): Processed {
    if f.kind != SETTINGS then Processed(c, Throws, consumed, [Refused(f)])
    else if f.length % 6 != 0 then Processed(c.(closed := true), Returns(InvalidInput), consumed, [Refused(f)])
    else Processed(Sent(c, EMPTY_SETTINGS).(phase := Idle), Returns(Settings), consumed, [Handshake(f)])
  }

  /** What a HEADERS or CONTINUATION frame does when its block raises no error. */
  lemma BlockStep(t: Table, c: Conn, f: Frame, consumed: nat)
    requires f.kind == HEADERS || f.kind == CONTINUATION
    ensures var r, s, p := ParsedFrame(t, c.hpack, f), StreamOf(c, f.streamId), FrameStep(t, c, f, consumed);
            var listed := s.(headers := r.d.decoded);
            var done := WithStream(c.(hpack := r.d.(decoded := [])), listed);
            var events := [Got(f), HeadersDone(f.streamId, r.d.decoded)];
            && (r.status.More? ==>
                  p == Processed(WithStream(c.(hpack := r.d), s), Returns(MoreInput), consumed, [Got(f)]))
            && (r.status.Done? && !HasFlag(f.flags, END_STREAM) ==>
                  p == Processed(done, Returns(MoreInput), consumed, events))
            && (r.status.Done? && HasFlag(f.flags, END_STREAM) ==> p == EmitRequest(done, listed, consumed, events))
  {
    hide ParsedFrame, RequestOf, HasFlag, EmitRequest, PackedFrame;
    var r, s := ParsedFrame(t, c.hpack, f), StreamOf(c, f.streamId);
    var listed := s.(headers := r.d.decoded);
    assert c.streams[s.streamId := s][s.streamId := listed] == c.streams[s.streamId := listed];
  }

  ghost function ProcessStep(t: Table, c: Conn, data: seq<uint8>): (p: Processed)
    requires Partial(c.unfinished)
    ensures p.consumed <= |data| && Partial(p.conn.unfinished)
    ensures p.outcome.Returns? && data != [] ==> 0 < p.consumed
    ensures p.outcome == Returns(Eof) <==> data == []
  {
    if data == [] then Processed(c, Returns(Eof), 0, [])
    else if c.phase == ClientPreface then
      if HTTP2_CLIENT_PREFACE <= data then
        Processed(c.(phase := WaitClientSettings), Returns(Settings), |HTTP2_CLIENT_PREFACE|, [Preface])
      else Processed(c, Throws, 0, [])
    else if c.phase == WaitClientSettings || c.phase == Idle then
      var r := ReadStep(c.unfinished, data);
      var c' := c.(unfinished := r.unfinished);
      match r.result
      case Failed(InsufficientData) => Processed(c', Returns(MoreInput), r.consumed, [])
      case Failed(_) =>
        if c.phase == Idle then Processed(c'.(closed := true), Exits, r.consumed, [])
        else Processed(c', Throws, r.consumed, [])
      case Complete(f) =>
        if c.phase == Idle then
          FrameStepKeeps(t, c', f, r.consumed);
          FrameStep(t, c', f, r.consumed)
        else HandshakeStep(c', f, r.consumed)
    else Processed(c, Exits, 0, [])
  }

  lemma FrameStepKeeps(t: Table, c: Conn, f: Frame, consumed: nat)
    ensures var p := FrameStep(t, c, f, consumed);
            && p.consumed == consumed && p.conn.unfinished == c.unfinished && p.conn.phase == c.phase
            && p.outcome != Returns(Eof)
  {
    hide ParsedFrame, RequestOf, StreamOf, PackedFrame;
  }

  // ----- Packets -----

  /** What a run has come to; it ends when the process exits or dies. */
  datatype History = History(conn: Conn, events: seq<Event>, alive: bool)

  function AnswerOutcome(answer: Answer): Outcome {
    match answer
    case Answered => Returns(NewRequest)
    case LayerError => Drops
    case Exception => Throws
    case Uncaught => Exits
  }

  /** The outcome of a call and of handling the request it may have made. */
  function Handled(handler: Handler, p: Processed): Outcome {
    if p.outcome == Returns(NewRequest) then AnswerOutcome(handler(p.conn.handled)) else p.outcome
  }

  /**
   * The read loop over one packet.  An exception, from the protocol or from a handler, drops the rest of
   * the packet and closes the connection; a layer error from a handler only drops the rest.
   */
  ghost function PacketRun(t: Table, handler: Handler, c: Conn, packet: seq<uint8>): (h: History)
    requires Partial(c.unfinished)
    ensures Partial(h.conn.unfinished)
    decreases |packet|
  {
    var p := ProcessStep(t, c, packet);
    match Handled(handler, p)
    case Returns(Eof) => History(p.conn, p.events, true)
    case Returns(_) =>
      var rest := PacketRun(t, handler, p.conn, packet[p.consumed..]);
      rest.(events := p.events + rest.events)
    case Throws => History(p.conn.(closed := true), p.events, true)
    case Drops => History(p.conn, p.events, true)
    case Exits => History(p.conn, p.events, false)
    case Dies(_) => History(p.conn, p.events, false)
  }

  ghost function PacketsRun(t: Table, handler: Handler, c: Conn, packets: seq<seq<uint8>>): (h: History)
    requires Partial(c.unfinished)
    ensures Partial(h.conn.unfinished)
    decreases |packets|
  {
    if packets == [] then History(c, [], true)
    else
      var first := PacketRun(t, handler, c, packets[0]);
      if !first.alive then first
      else
        var rest := PacketsRun(t, handler, first.conn, packets[1..]);
        rest.(events := first.events + rest.events)
  }
}
