/**
 * The read loop (`on_read` in src/https.cpp) over the calls of `process`: how each way in which a call or a
 * handler can end decides what becomes of the packet and of the connection.
 */
module ReadLoop {
  import opened Options
  import opened Bits
  import opened Huffman
  import opened Frames
  import opened HpackParser
  import opened Reassembly
  import opened Http2
  import opened FrameRuns
  import opened Connection
  import opened ControlFrames

  // ----- One turn of the loop -----

  /** The loop goes on with the rest of the packet. */
  ghost predicate GoesOnWith(t: Table, handler: Handler, packet: seq<uint8>, p: Processed, h: History)
    requires Partial(p.conn.unfinished) && p.consumed <= |packet|
  {
    var rest := PacketRun(t, handler, p.conn, packet[p.consumed..]);
    h == rest.(events := p.events + rest.events)
  }

  /**
   * Any result but a request and the end lets the loop go on.  An exception closes the connection and drops
   * the rest of the packet; an exit or a fault ends the process.
   */
  lemma CallDecides(t: Table, handler: Handler, c: Conn, packet: seq<uint8>)
    requires Partial(c.unfinished)
    ensures var p, h := ProcessStep(t, c, packet), PacketRun(t, handler, c, packet);
            && (packet == [] ==> h == History(c, [], true))
            && (packet != [] && p.outcome.Returns? && p.outcome.result != NewRequest ==>
                  GoesOnWith(t, handler, packet, p, h))
            && (p.outcome.Throws? ==> h == History(p.conn.(closed := true), p.events, true))
            && (p.outcome.Exits? || p.outcome.Dies? ==> h == History(p.conn, p.events, false))
            && !p.outcome.Drops?
  {
    NeverDrops(t, c, packet);
    if packet == [] { EmptyPacket(t, handler, c); }
    hide ProcessStep;
  }

  /** Only a handler's layer error is dropped in silence. */
  lemma NeverDrops(t: Table, c: Conn, packet: seq<uint8>)
    requires Partial(c.unfinished)
    ensures !ProcessStep(t, c, packet).outcome.Drops?
  {
    var r := ReadStep(c.unfinished, packet);
    if r.result.Complete? { FrameNeverDrops(t, c.(unfinished := r.unfinished), r.result.frame, r.consumed); }
    hide ReadStep, FrameStep, PackedFrame;
  }

  lemma FrameNeverDrops(t: Table, c: Conn, f: Frame, consumed: nat)
    ensures !FrameStep(t, c, f, consumed).outcome.Drops?
  {
    hide ParsedFrame, RequestOf, StreamOf, PackedFrame, HasFlag;
  }

  /**
   * A request is handed to the handler, and how that ends decides: well, and the loop goes on; with a layer
   * error, and only the rest of the packet is dropped; with another exception, and the connection is closed
   * as well; and if nothing catches it, the process ends.
   */
  lemma HandlerDecides(t: Table, handler: Handler, c: Conn, packet: seq<uint8>)
    requires Partial(c.unfinished) && ProcessStep(t, c, packet).outcome == Returns(NewRequest)
    ensures var p, h := ProcessStep(t, c, packet), PacketRun(t, handler, c, packet);
            var answer := handler(p.conn.handled);
            && (answer == Answered ==> GoesOnWith(t, handler, packet, p, h))
            && (answer == LayerError ==> h == History(p.conn, p.events, true))
            && (answer == Exception ==> h == History(p.conn.(closed := true), p.events, true))
            && (answer == Uncaught ==> h == History(p.conn, p.events, false))
  {
    hide ProcessStep;
  }

  /** How many requests events tell of. */
  function Made(events: seq<Event>): nat {
    if events == [] then 0 else (if events[0].Emitted? then 1 else 0) + Made(events[1..])
  }

  lemma {:induction false} MadeConcat(a: seq<Event>, b: seq<Event>)
    ensures Made(a + b) == Made(a) + Made(b)
  {
    if a == [] {
      assert a + b == b;
    } else {
      ConsConcat(a, b);
      MadeConcat(a[1..], b);
    }
  }

  lemma {:induction false} NoneMade(events: seq<Event>)
    ensures Made(events) == 0 <==> forall i :: 0 <= i < |events| ==> !events[i].Emitted?
  {
    if events != [] { NoneMade(events[1..]); }
  }

  /** A call makes one request, as its last event, or none; a request counts, and leaves the connection open. */
  lemma CallMakesOne(t: Table, c: Conn, packet: seq<uint8>)
    requires Partial(c.unfinished)
    ensures var p := ProcessStep(t, c, packet);
            && p.conn.handled == c.handled + Made(p.events)
            && (p.outcome == Returns(NewRequest) <==> Made(p.events) == 1)
            && (p.outcome != Returns(NewRequest) <==> Made(p.events) == 0)
            && (Made(p.events) == 1 ==>
                  && p.events[|p.events| - 1].Emitted? && c.phase == p.conn.phase == Idle
                  && p.conn.closed == c.closed && p.conn.unfinished.None?)
  {
    ProcessRequests(t, c, packet);
    CallCounts(t, c, packet);
    hide ProcessStep, Made;
    var p := ProcessStep(t, c, packet);
    if p.outcome == Returns(NewRequest) { LastMakesOne(p.events); } else { NoneMade(p.events); }
  }

  lemma LastMakesOne(events: seq<Event>)
    requires events != [] && events[|events| - 1].Emitted?
    requires forall i :: 0 <= i < |events| - 1 ==> !events[i].Emitted?
    ensures Made(events) == 1
  {
    var before, last := events[..|events| - 1], [events[|events| - 1]];
    assert events == before + last;
    NoneMade(before);
    MadeConcat(before, last);
    assert last[1..] == [];
    assert Made(last) == 1 + Made([]);
  }

  lemma CallCounts(t: Table, c: Conn, packet: seq<uint8>)
    requires Partial(c.unfinished)
    ensures var p := ProcessStep(t, c, packet);
            if p.outcome == Returns(NewRequest) then
              && p.conn.handled == c.handled + 1 && c.phase == p.conn.phase == Idle
              && p.conn.closed == c.closed && p.conn.unfinished.None?
            else p.conn.handled == c.handled
  {
    var r := ReadStep(c.unfinished, packet);
    if r.result.Complete? {
      var c' := c.(unfinished := r.unfinished);
      FrameStepKeeps(t, c', r.result.frame, r.consumed);
      FrameStepCounts(t, c', r.result.frame, r.consumed);
    }
    hide ReadStep, FrameStep, PackedFrame;
  }

  lemma FrameStepCounts(t: Table, c: Conn, f: Frame, consumed: nat)
    ensures var p := FrameStep(t, c, f, consumed);
            if p.outcome == Returns(NewRequest) then p.conn.handled == c.handled + 1 && p.conn.closed == c.closed
            else p.conn.handled == c.handled
  {
    FrameStepClosed(t, c, f, consumed);
    hide ParsedFrame, RequestOf, StreamOf, PackedFrame, HasFlag;
  }

  // ----- A call reads no further than its frame -----

  lemma ReadIsLocal(u: Option<Frame>, data: seq<uint8>, rest: seq<uint8>)
    requires Partial(u) && ReadStep(u, data).result.Complete?
    ensures ReadStep(u, data + rest) == ReadStep(u, data)
  {
    if u.Some? {
      FillIsLocal(u.value, data, rest, 0);
    } else {
      HeaderPrefix(data);
      HeaderPrefix(data + rest);
      assert (data + rest)[..HTTP2_FRAME_SIZE] == data[..HTTP2_FRAME_SIZE];
      hide UnpackedHeader;
      FillIsLocal(UnpackedHeader(data), data, rest, HTTP2_FRAME_SIZE);
    }
  }

  lemma FillIsLocal(f: Frame, data: seq<uint8>, rest: seq<uint8>, pos: nat)
    requires |f.data| <= f.length <= MAX_FRAME_SIZE && pos <= |data| && Fill(f, data, pos).result.Complete?
    ensures Fill(f, data + rest, pos) == Fill(f, data, pos)
  {
    var n := f.length - |f.data|;
    assert (data + rest)[pos..pos + n] == data[pos..pos + n];
  }

  /** A call with something to tell of does the same with more data behind it. */
  lemma CallIsLocal(t: Table, c: Conn, data: seq<uint8>, rest: seq<uint8>)
    requires Partial(c.unfinished) && ProcessStep(t, c, data).events != []
    ensures ProcessStep(t, c, data + rest) == ProcessStep(t, c, data)
  {
    var r := ReadStep(c.unfinished, data);
    if PastPreface(c) && r.result.Complete? { ReadIsLocal(c.unfinished, data, rest); }
    hide ReadStep, FrameStep, HandshakeStep;
  }

  /** A call with nothing to tell of: it fails, or it has used up the packet and keeps part of a frame. */
  lemma SilentCall(t: Table, c: Conn, packet: seq<uint8>)
    requires Partial(c.unfinished) && packet != [] && ProcessStep(t, c, packet).events == []
    ensures var p := ProcessStep(t, c, packet);
            || p.outcome.Throws? || p.outcome.Exits?
            || (p.outcome == Returns(MoreInput) && p.consumed == |packet| && p.conn.unfinished.Some?)
    ensures c.phase == Idle ==> !ProcessStep(t, c, packet).outcome.Throws?
  {
    var r := ReadStep(c.unfinished, packet);
    if PastPreface(c) && r.result.Complete? {
      var c' := c.(unfinished := r.unfinished);
      if c.phase == Idle { HeardFrame(t, c', r.result.frame, r.consumed); }
    }
    hide ReadStep, FrameStep, PackedFrame;
  }

  lemma HeardFrame(t: Table, c: Conn, f: Frame, consumed: nat)
    ensures FrameStep(t, c, f, consumed).events != []
  {
    hide ParsedFrame, RequestOf, StreamOf, PackedFrame, HasFlag;
  }

  // ----- Requests of a packet, and how they are answered -----

  /** The same handlers, but the n-th request is answered well. */
  function AnsweringWell(handler: Handler, n: nat): Handler {
    (m: nat) => if m == n then Answered else handler(m)
  }

  /** The run has just made its n-th request, with nothing behind it. */
  ghost predicate EndsWithRequest(g: History, n: nat) {
    && g.alive && g.conn.handled == n && g.conn.unfinished.None?
    && g.events != [] && g.events[|g.events| - 1].Emitted?
  }

  /** What a run that ends with request `n` comes to by the answer to it; `later` is what would follow. */
  ghost predicate EndsAsAnswered(answer: Answer, g: History, later: History, h: History) {
    match answer
    case Answered => h == later.(events := g.events + later.events)
    case LayerError => h == g
    case Exception => h == g.(conn := g.conn.(closed := true))
    case Uncaught => h == g.(alive := false)
  }

  lemma {:induction false} RunCounts(t: Table, handler: Handler, c: Conn, packet: seq<uint8>)
    requires Partial(c.unfinished)
    ensures var h := PacketRun(t, handler, c, packet); h.conn.handled == c.handled + Made(h.events)
    decreases |packet|
  {
    PacketRunOnce(t, handler, c, packet);
    CallMakesOne(t, c, packet);
    var p := ProcessStep(t, c, packet);
    assert Handled(handler, p).Returns? ==> Handled(handler, p) == p.outcome;
    hide ProcessStep, PacketRun, Handled, Made;
    if Handled(handler, p).Returns? && packet != [] {
      RunCounts(t, handler, p.conn, packet[p.consumed..]);
      MadeConcat(p.events, PacketRun(t, handler, p.conn, packet[p.consumed..]).events);
    }
  }

  lemma LastOfConcat(a: seq<Event>, b: seq<Event>)
    requires a + b != []
    ensures (a + b)[|a + b| - 1] == if b == [] then a[|a| - 1] else b[|b| - 1]
  {
  }

  lemma LastIsMade(events: seq<Event>)
    requires events != [] && events[|events| - 1].Emitted?
    ensures Made(events) > 0
  {
    NoneMade(events);
  }

  /** The call that makes request `n`, when nothing is behind it. */
  lemma LastRequest(t: Table, handler: Handler, c: Conn, front: seq<uint8>, n: nat)
    requires Partial(c.unfinished) && ProcessStep(t, c, front).outcome == Returns(NewRequest)
    requires ProcessStep(t, c, front).conn.handled == n
    requires EndsWithRequest(PacketRun(t, AnsweringWell(handler, n), c, front), n)
    ensures var p := ProcessStep(t, c, front);
            p.consumed == |front| && PacketRun(t, AnsweringWell(handler, n), c, front) == History(p.conn, p.events, true)
  {
    var good, p := AnsweringWell(handler, n), ProcessStep(t, c, front);
    HandlerDecides(t, good, c, front);
    CallMakesOne(t, c, front);
    var rest := front[p.consumed..];
    RunCounts(t, good, p.conn, rest);
    var later := PacketRun(t, good, p.conn, rest);
    hide ProcessStep, PacketRun, AnsweringWell;
    if later.events != [] {
      LastOfConcat(p.events, later.events);
      LastIsMade(later.events);
      assert false;
    }
    if rest != [] {
      PacketRunOnce(t, good, p.conn, rest);
      hide Handled;
      SilentRun(t, good, p.conn, rest);
      assert false;
    }
    CallDecides(t, good, p.conn, rest);
    assert p.events + [] == p.events;
  }

  /** A run over some bytes that tells of nothing leaves part of a frame or ends the process. */
  lemma SilentRun(t: Table, handler: Handler, c: Conn, packet: seq<uint8>)
    requires Partial(c.unfinished) && packet != [] && c.phase == Idle && PacketRun(t, handler, c, packet).events == []
    ensures var h := PacketRun(t, handler, c, packet); h.alive ==> h.conn.unfinished.Some?
  {
    var p := ProcessStep(t, c, packet);
    PacketRunOnce(t, handler, c, packet);
    hide ProcessStep, PacketRun;
    assert p.events == [];
    SilentCall(t, c, packet);
    if p.outcome.Returns? {
      assert packet[p.consumed..] == [];
      CallDecides(t, handler, p.conn, []);
    }
  }

  /**
   * Take any front of a packet whose run ends with the n-th request of the connection, answered well.  With any
   * bytes behind it, that request decides: answered well, the rest is processed; with a layer error the run
   * ends there, the connection as the request left it; with another exception that connection is closed; and
   * with an uncaught one the process ends.
   */
  lemma {:induction false} AnswerDecides(t: Table, handler: Handler, c: Conn, front: seq<uint8>, rest: seq<uint8>, n: nat)
    requires Partial(c.unfinished) && EndsWithRequest(PacketRun(t, AnsweringWell(handler, n), c, front), n)
    ensures var g := PacketRun(t, AnsweringWell(handler, n), c, front);
            EndsAsAnswered(handler(n), g, PacketRun(t, handler, g.conn, rest), PacketRun(t, handler, c, front + rest))
    decreases |front|
  {
    hide *;
    var good, p := AnsweringWell(handler, n), ProcessStep(t, c, front);
    if p.outcome == Returns(NewRequest) && p.conn.handled == n {
      LastAnswer(t, handler, c, front, rest, n);
    } else {
      OneMoreBehind(t, handler, c, front, n);
      var later := front[p.consumed..];
      AnswerDecides(t, handler, p.conn, later, rest, n);
      FrontGoesOn(t, handler, c, front, rest, n);
      var g2 := PacketRun(t, good, p.conn, later);
      GoesOnIs(t, good, front, p, PacketRun(t, good, c, front));
      EndsLater(handler(n), p.events, g2, PacketRun(t, handler, g2.conn, rest), PacketRun(t, handler, p.conn, later + rest));
    }
  }

  /** The request that decides comes with the first call. */
  lemma LastAnswer(t: Table, handler: Handler, c: Conn, front: seq<uint8>, rest: seq<uint8>, n: nat)
    requires Partial(c.unfinished) && ProcessStep(t, c, front).outcome == Returns(NewRequest)
    requires ProcessStep(t, c, front).conn.handled == n
    requires EndsWithRequest(PacketRun(t, AnsweringWell(handler, n), c, front), n)
    ensures var g := PacketRun(t, AnsweringWell(handler, n), c, front);
            EndsAsAnswered(handler(n), g, PacketRun(t, handler, g.conn, rest), PacketRun(t, handler, c, front + rest))
  {
    LastRequest(t, handler, c, front, n);
    NotSilent(t, AnsweringWell(handler, n), c, front, n);
    CallIsLocal(t, c, front, rest);
    HandlerDecides(t, handler, c, front + rest);
    hide ProcessStep, PacketRun, AnsweringWell, EndsWithRequest;
    assert (front + rest)[|front|..] == rest;
  }

  lemma FrontGoesOn(t: Table, handler: Handler, c: Conn, front: seq<uint8>, rest: seq<uint8>, n: nat)
    requires Partial(c.unfinished) && EndsWithRequest(PacketRun(t, AnsweringWell(handler, n), c, front), n)
    requires !(ProcessStep(t, c, front).outcome == Returns(NewRequest) && ProcessStep(t, c, front).conn.handled == n)
    ensures var p := ProcessStep(t, c, front);
            var later := PacketRun(t, handler, p.conn, front[p.consumed..] + rest);
            PacketRun(t, handler, c, front + rest) == later.(events := p.events + later.events)
  {
    hide *;
    var p, whole := ProcessStep(t, c, front), front + rest;
    OneMoreBehind(t, handler, c, front, n);
    NotSilent(t, AnsweringWell(handler, n), c, front, n);
    CallIsLocal(t, c, front, rest);
    CallDecides(t, handler, c, whole);
    if p.outcome == Returns(NewRequest) { HandlerDecides(t, handler, c, whole); }
    GoesOnIs(t, handler, whole, p, PacketRun(t, handler, c, whole));
    DropOfConcat(front, rest, p.consumed);
  }

  lemma DropOfConcat(a: seq<uint8>, b: seq<uint8>, n: nat)
    requires n <= |a|
    ensures (a + b)[n..] == a[n..] + b
  {
  }

  lemma GoesOnIs(t: Table, handler: Handler, packet: seq<uint8>, p: Processed, h: History)
    requires Partial(p.conn.unfinished) && p.consumed <= |packet| && GoesOnWith(t, handler, packet, p, h)
    ensures var rest := PacketRun(t, handler, p.conn, packet[p.consumed..]); h == rest.(events := p.events + rest.events)
  {
    hide PacketRun;
  }

  lemma EndsLater(answer: Answer, before: seq<Event>, g: History, later: History, h: History)
    requires EndsAsAnswered(answer, g, later, h)
    ensures EndsAsAnswered(answer, g.(events := before + g.events), later, h.(events := before + h.events))
  {
    Associate(before, g.events, later.events);
  }

  lemma GoodAnswers(handler: Handler, n: nat)
    ensures AnsweringWell(handler, n)(n) == Answered
    ensures forall m: nat :: m != n ==> AnsweringWell(handler, n)(m) == handler(m)
  {
  }

  /** The first call of such a run has something to tell of. */
  lemma NotSilent(t: Table, handler: Handler, c: Conn, front: seq<uint8>, n: nat)
    requires Partial(c.unfinished) && EndsWithRequest(PacketRun(t, handler, c, front), n)
    ensures front != [] && ProcessStep(t, c, front).events != []
  {
    CallDecides(t, handler, c, front);
    var p := ProcessStep(t, c, front);
    CallMakesOne(t, c, front);
    hide ProcessStep, PacketRun;
    if front != [] && p.events == [] {
      SilentCall(t, c, front);
      assert Made([]) == 0;
      if p.outcome.Returns? {
        assert front[p.consumed..] == [];
        CallDecides(t, handler, p.conn, []);
      }
      assert false;
    }
  }

  /** Unless the first call makes request `n`, the run goes on to it. */
  lemma OneMoreBehind(t: Table, handler: Handler, c: Conn, front: seq<uint8>, n: nat)
    requires Partial(c.unfinished) && EndsWithRequest(PacketRun(t, AnsweringWell(handler, n), c, front), n)
    requires !(ProcessStep(t, c, front).outcome == Returns(NewRequest) && ProcessStep(t, c, front).conn.handled == n)
    ensures var good, p := AnsweringWell(handler, n), ProcessStep(t, c, front);
            && p.outcome.Returns? && 0 < p.consumed <= |front|
            && (p.outcome == Returns(NewRequest) ==> handler(p.conn.handled) == Answered)
            && EndsWithRequest(PacketRun(t, good, p.conn, front[p.consumed..]), n)
            && GoesOnWith(t, good, front, p, PacketRun(t, good, c, front))
  {
    hide *;
    var good, p := AnsweringWell(handler, n), ProcessStep(t, c, front);
    MustGoOn(t, handler, c, front, n);
    var g, rest := PacketRun(t, good, c, front), front[p.consumed..];
    GoesOnIs(t, good, front, p, g);
    RunCounts(t, good, p.conn, rest);
    CallMakesOne(t, c, front);
    RestEnds(p, PacketRun(t, good, p.conn, rest), n);
  }

  lemma MustGoOn(t: Table, handler: Handler, c: Conn, front: seq<uint8>, n: nat)
    requires Partial(c.unfinished) && EndsWithRequest(PacketRun(t, AnsweringWell(handler, n), c, front), n)
    requires !(ProcessStep(t, c, front).outcome == Returns(NewRequest) && ProcessStep(t, c, front).conn.handled == n)
    ensures var good, p := AnsweringWell(handler, n), ProcessStep(t, c, front);
            && p.outcome.Returns? && 0 < p.consumed <= |front|
            && (p.outcome == Returns(NewRequest) ==> handler(p.conn.handled) == Answered)
            && GoesOnWith(t, good, front, p, PacketRun(t, good, c, front))
  {
    var good, p := AnsweringWell(handler, n), ProcessStep(t, c, front);
    NotSilent(t, good, c, front, n);
    assert p.outcome.Returns? ==> 0 < p.consumed <= |front|;
    hide *;
    GoodAnswers(handler, n);
    CallMakesOne(t, c, front);
    CallDecides(t, good, c, front);
    var g := PacketRun(t, good, c, front);
    EndedWith(g, n);
    if p.outcome == Returns(NewRequest) {
      HandlerDecides(t, good, c, front);
      if good(p.conn.handled) != Answered { assert false; }
    } else if !p.outcome.Returns? {
      LastIsMade(p.events);
      assert false;
    }
  }

  lemma EndedWith(g: History, n: nat)
    requires EndsWithRequest(g, n)
    ensures g.alive && g.conn.handled == n && g.events != [] && g.events[|g.events| - 1].Emitted?
  {
  }

  /** What lies behind a call, when the whole ends with request `n` and the call is not the one to make it. */
  lemma RestEnds(p: Processed, g: History, n: nat)
    requires EndsWithRequest(g.(events := p.events + g.events), n) && g.conn.handled == p.conn.handled + Made(g.events)
    requires Made(p.events) == 0 || p.conn.handled != n
    ensures EndsWithRequest(g, n)
  {
    LastOfConcat(p.events, g.events);
    assert Made([]) == 0;
    hide Made;
    if g.events == [] {
      LastIsMade(p.events);
      assert false;
    }
  }

  lemma FirstPacket(t: Table, handler: Handler, c: Conn, packet: seq<uint8>, more: seq<seq<uint8>>)
    requires Partial(c.unfinished)
    ensures var first := PacketRun(t, handler, c, packet);
            PacketsRun(t, handler, c, [packet] + more) ==
            if !first.alive then first
            else
              var rest := PacketsRun(t, handler, first.conn, more);
              rest.(events := first.events + rest.events)
  {
    PacketsRunOnce(t, handler, c, [packet] + more);
    hide PacketsRun, PacketRun;
    assert ([packet] + more)[1..] == more;
  }

  /** Unless the process has ended, what follows is done from where that request left the connection. */
  lemma AnswerDecidesWhatFollows(t: Table, handler: Handler, c: Conn, front: seq<uint8>, rest: seq<uint8>, n: nat,
                                 more: seq<seq<uint8>>)
    requires Partial(c.unfinished) && EndsWithRequest(PacketRun(t, AnsweringWell(handler, n), c, front), n)
    ensures var g := PacketRun(t, AnsweringWell(handler, n), c, front);
            var h := PacketsRun(t, handler, c, [front + rest] + more);
            if handler(n) == Uncaught then h == g.(alive := false)
            else
              var later := if handler(n) == Answered then PacketsRun(t, handler, g.conn, [rest] + more)
                           else if handler(n) == LayerError then PacketsRun(t, handler, g.conn, more)
                           else PacketsRun(t, handler, g.conn.(closed := true), more);
              h == later.(events := g.events + later.events)
  {
    AnswerDecides(t, handler, c, front, rest, n);
    FirstPacket(t, handler, c, front + rest, more);
    var g := PacketRun(t, AnsweringWell(handler, n), c, front);
    FirstPacket(t, handler, g.conn, rest, more);
    hide PacketRun, PacketsRun, AnsweringWell;
    if handler(n) == Answered {
      var next := PacketRun(t, handler, g.conn, rest);
      if next.alive { Associate(g.events, next.events, PacketsRun(t, handler, next.conn, more).events); }
    }
  }

  // ----- Every failing answer is of this kind -----

  lemma ReadIsLocalInFront(u: Option<Frame>, data: seq<uint8>, m: nat)
    requires Partial(u) && ReadStep(u, data).result.Complete? && ReadStep(u, data).consumed <= m <= |data|
    ensures ReadStep(u, data[..m]) == ReadStep(u, data)
  {
    if u.Some? {
      FillIsLocalInFront(u.value, data, m, 0);
    } else {
      HeaderPrefix(data);
      HeaderPrefix(data[..m]);
      assert data[..m][..HTTP2_FRAME_SIZE] == data[..HTTP2_FRAME_SIZE];
      hide UnpackedHeader;
      FillIsLocalInFront(UnpackedHeader(data), data, m, HTTP2_FRAME_SIZE);
    }
  }

  lemma FillIsLocalInFront(f: Frame, data: seq<uint8>, m: nat, pos: nat)
    requires |f.data| <= f.length <= MAX_FRAME_SIZE && pos <= |data| && Fill(f, data, pos).result.Complete?
    requires Fill(f, data, pos).consumed <= m <= |data|
    ensures Fill(f, data[..m], pos) == Fill(f, data, pos)
  {
    var n := f.length - |f.data|;
    assert data[..m][pos..pos + n] == data[pos..pos + n];
  }

  /** A call with something to tell of does the same when the packet is cut off behind what it reads. */
  lemma CallIsLocalInFront(t: Table, c: Conn, data: seq<uint8>, m: nat)
    requires Partial(c.unfinished) && ProcessStep(t, c, data).events != []
    requires ProcessStep(t, c, data).consumed <= m <= |data|
    ensures ProcessStep(t, c, data[..m]) == ProcessStep(t, c, data)
  {
    var r := ReadStep(c.unfinished, data);
    if PastPreface(c) && r.result.Complete? {
      var c' := c.(unfinished := r.unfinished);
      if c.phase == Idle { FrameStepKeeps(t, c', r.result.frame, r.consumed); }
      ReadIsLocalInFront(c.unfinished, data, m);
    } else if c.phase == ClientPreface {
      assert data[..m][..|HTTP2_CLIENT_PREFACE|] == data[..|HTTP2_CLIENT_PREFACE|];
    }
    hide ReadStep, FrameStep, HandshakeStep;
  }

  /** The last request of a run over a packet, when it was not answered well. */
  ghost predicate EndedBy(t: Table, handler: Handler, c: Conn, packet: seq<uint8>, at: nat)
    requires Partial(c.unfinished) && at <= |packet|
  {
    var h := PacketRun(t, handler, c, packet);
    var n := h.conn.handled;
    var g := PacketRun(t, AnsweringWell(handler, n), c, packet[..at]);
    && EndsWithRequest(g, n) && EndsAsAnswered(handler(n), g, g, h)
    && forall m :: c.handled < m < n ==> handler(m) == Answered
  }

  /**
   * In any run over a packet that makes a request, all requests but the last were answered well; and if the
   * last was not, then the run ended with it, as if the packet had stopped there.
   */
  lemma {:induction false} FailingAnswerEnds(t: Table, handler: Handler, c: Conn, packet: seq<uint8>) returns (at: nat)
    requires Partial(c.unfinished)
    requires var n := PacketRun(t, handler, c, packet).conn.handled; n > c.handled && handler(n) != Answered
    ensures at <= |packet| && EndedBy(t, handler, c, packet, at)
    decreases |packet|
  {
    hide *;
    var h, p := PacketRun(t, handler, c, packet), ProcessStep(t, c, packet);
    CallDecides(t, handler, c, packet);
    CallMakesOne(t, c, packet);
    if p.outcome == Returns(NewRequest) && handler(p.conn.handled) != Answered {
      at := p.consumed;
      EndedAtOnce(t, handler, c, packet);
    } else {
      FailsLater(t, handler, c, packet);
      GoesOnIs(t, handler, packet, p, h);
      var rest := packet[p.consumed..];
      var later := FailingAnswerEnds(t, handler, p.conn, rest);
      at := p.consumed + later;
      EndedLater(t, handler, c, packet, p, rest, later, at);
    }
  }

  lemma EndedAtOnce(t: Table, handler: Handler, c: Conn, packet: seq<uint8>)
    requires Partial(c.unfinished)
    requires var p := ProcessStep(t, c, packet); p.outcome == Returns(NewRequest) && handler(p.conn.handled) != Answered
    ensures EndedBy(t, handler, c, packet, ProcessStep(t, c, packet).consumed)
  {
    var p := ProcessStep(t, c, packet);
    var n, front := p.conn.handled, packet[..p.consumed];
    var good := AnsweringWell(handler, n);
    CallMakesOne(t, c, packet);
    CallIsLocalInFront(t, c, packet, p.consumed);
    HandlerDecides(t, handler, c, packet);
    HandlerDecides(t, good, c, front);
    GoodAnswers(handler, n);
    CallDecides(t, good, p.conn, []);
    hide ProcessStep, PacketRun, AnsweringWell, Made;
    assert front[p.consumed..] == [];
    assert p.events + [] == p.events;
  }

  /** The run goes on behind a call that is not the one to fail. */
  lemma FailsLater(t: Table, handler: Handler, c: Conn, packet: seq<uint8>)
    requires Partial(c.unfinished)
    requires var n := PacketRun(t, handler, c, packet).conn.handled; n > c.handled && handler(n) != Answered
    requires var p := ProcessStep(t, c, packet); p.outcome == Returns(NewRequest) ==> handler(p.conn.handled) == Answered
    ensures var p, h := ProcessStep(t, c, packet), PacketRun(t, handler, c, packet);
            && packet != [] && p.outcome.Returns? && 0 < p.consumed <= |packet| && p.events != []
            && GoesOnWith(t, handler, packet, p, h) && h.conn.handled > p.conn.handled
  {
    var p, h := ProcessStep(t, c, packet), PacketRun(t, handler, c, packet);
    CallDecides(t, handler, c, packet);
    CallMakesOne(t, c, packet);
    if p.outcome == Returns(NewRequest) { HandlerDecides(t, handler, c, packet); }
    assert p.outcome.Returns? && packet != [] ==> 0 < p.consumed;
    assert Made([]) == 0;
    hide ProcessStep, PacketRun, Made;
    assert packet != [] && p.outcome.Returns?;
    RunCounts(t, handler, p.conn, packet[p.consumed..]);
    if p.events == [] {
      SilentCall(t, c, packet);
      assert packet[p.consumed..] == [];
      CallDecides(t, handler, p.conn, []);
      assert false;
    }
  }

  lemma EndsBehind(before: seq<Event>, answer: Answer, n: nat, g: History, h: History, g': History, h': History)
    requires EndsWithRequest(g, n) && EndsAsAnswered(answer, g, g, h) && answer != Answered
    requires g' == g.(events := before + g.events) && h' == h.(events := before + h.events)
    ensures EndsWithRequest(g', n) && EndsAsAnswered(answer, g', g', h')
  {
    LastOfConcat(before, g.events);
  }

  lemma EndedLater(t: Table, handler: Handler, c: Conn, packet: seq<uint8>, p: Processed, rest: seq<uint8>, later: nat,
                   at: nat)
    requires Partial(c.unfinished) && p == ProcessStep(t, c, packet) && packet != [] && p.events != []
    requires p.outcome.Returns? && 0 < p.consumed <= |packet| && rest == packet[p.consumed..] && at == p.consumed + later
    requires p.outcome == Returns(NewRequest) ==> handler(p.conn.handled) == Answered
    requires PacketRun(t, handler, c, packet).conn.handled > p.conn.handled
    requires GoesOnWith(t, handler, packet, p, PacketRun(t, handler, c, packet))
    requires later <= |rest| && EndedBy(t, handler, p.conn, rest, later)
    requires handler(PacketRun(t, handler, c, packet).conn.handled) != Answered
    ensures at <= |packet| && EndedBy(t, handler, c, packet, at)
  {
    hide *;
    var h := PacketRun(t, handler, c, packet);
    var n := h.conn.handled;
    GoesOnIs(t, handler, packet, p, h);
    EndedByIs(t, handler, p.conn, rest, later);
    CallMakesOne(t, c, packet);
    FrontOfFront(t, handler, c, packet, n, at);
    SliceOfSlice(packet, p.consumed, later, at);
    var good := AnsweringWell(handler, n);
    var g2, g := PacketRun(t, good, p.conn, rest[..later]), PacketRun(t, good, c, packet[..at]);
    EndsBehind(p.events, handler(n), n, g2, PacketRun(t, handler, p.conn, rest), g, h);
    OneMoreAnswered(handler, c.handled, p.conn.handled, n);
    EndedByIs(t, handler, c, packet, at);
  }

  lemma OneMoreAnswered(handler: Handler, before: nat, now: nat, n: nat)
    requires before <= now <= before + 1 && (now == before + 1 ==> handler(now) == Answered)
    requires forall m :: now < m < n ==> handler(m) == Answered
    ensures forall m :: before < m < n ==> handler(m) == Answered
  {
  }

  lemma EndedByIs(t: Table, handler: Handler, c: Conn, packet: seq<uint8>, at: nat)
    requires Partial(c.unfinished) && at <= |packet|
    ensures var h := PacketRun(t, handler, c, packet);
            var n := h.conn.handled;
            var g := PacketRun(t, AnsweringWell(handler, n), c, packet[..at]);
            EndedBy(t, handler, c, packet, at) <==>
              && EndsWithRequest(g, n) && EndsAsAnswered(handler(n), g, g, h)
              && forall m :: c.handled < m < n ==> handler(m) == Answered
  {
    hide PacketRun, AnsweringWell, EndsWithRequest, EndsAsAnswered;
  }

  lemma SliceOfSlice(s: seq<uint8>, i: nat, at: nat, m: nat)
    requires i + at <= |s| && m == i + at
    ensures s[..m][i..] == s[i..][..at]
  {
  }

  /** Cut off behind its first call, a packet is still begun by that call. */
  lemma FrontOfFront(t: Table, handler: Handler, c: Conn, packet: seq<uint8>, n: nat, m: nat)
    requires Partial(c.unfinished) && packet != []
    requires var p := ProcessStep(t, c, packet);
             && p.outcome.Returns? && 0 < p.consumed <= m <= |packet| && p.events != []
             && (p.outcome == Returns(NewRequest) ==> handler(p.conn.handled) == Answered && p.conn.handled != n)
    ensures var good, p := AnsweringWell(handler, n), ProcessStep(t, c, packet);
            var rest := PacketRun(t, good, p.conn, packet[..m][p.consumed..]);
            PacketRun(t, good, c, packet[..m]) == rest.(events := p.events + rest.events)
  {
    var good, p, front := AnsweringWell(handler, n), ProcessStep(t, c, packet), packet[..m];
    CallIsLocalInFront(t, c, packet, m);
    GoodAnswers(handler, n);
    CallDecides(t, good, c, front);
    if p.outcome == Returns(NewRequest) { HandlerDecides(t, good, c, front); }
    hide ProcessStep, PacketRun, AnsweringWell;
  }

  // ----- How a connection begins, and how reading fails -----

  /** The 24 bytes of section 3.5 of RFC 7540: "PRI * HTTP/2.0", two line ends, "SM", two line ends. */
  lemma PrefaceBytes()
    ensures HTTP2_CLIENT_PREFACE
            == [0x50, 0x52, 0x49, 0x20, 0x2A, 0x20, 0x48, 0x54, 0x54, 0x50, 0x2F, 0x32, 0x2E, 0x30, 0x0D, 0x0A, 0x0D, 0x0A]
               + [0x53, 0x4D, 0x0D, 0x0A, 0x0D, 0x0A]
  {
    var s := "PRI * HTTP/2.0\r\n\r\nSM\r\n\r\n";
    assert s[0] == 'P' && s[1] == 'R' && s[2] == 'I' && s[3] == ' ' && s[4] == '*' && s[5] == ' ';
    assert s[6] == 'H' && s[7] == 'T' && s[8] == 'T' && s[9] == 'P' && s[10] == '/' && s[11] == '2';
    assert s[12] == '.' && s[13] == '0' && s[14] == '\r' && s[15] == '\n' && s[16] == '\r' && s[17] == '\n';
    assert s[18] == 'S' && s[19] == 'M' && s[20] == '\r' && s[21] == '\n' && s[22] == '\r' && s[23] == '\n';
  }

  /** The preface is taken off; anything else drops the packet and closes the connection. */
  lemma PrefaceDecides(t: Table, handler: Handler, c: Conn, packet: seq<uint8>)
    requires Partial(c.unfinished) && c.phase == ClientPreface && packet != []
    ensures |HTTP2_CLIENT_PREFACE| == 24
    ensures var h := PacketRun(t, handler, c, packet);
            if HTTP2_CLIENT_PREFACE <= packet then
              var rest := PacketRun(t, handler, c.(phase := WaitClientSettings), packet[24..]);
              h == rest.(events := [Preface] + rest.events)
            else h == History(c.(closed := true), [], true)
  {
    PrefaceBytes();
    CallDecides(t, handler, c, packet);
    var p := if HTTP2_CLIENT_PREFACE <= packet then Processed(c.(phase := WaitClientSettings), Returns(Settings), 24, [Preface])
             else Processed(c, Throws, 0, []);
    assert ProcessStep(t, c, packet) == p;
    hide ProcessStep, PacketRun;
  }

  /**
   * After the preface the first frame must be SETTINGS, or the packet is dropped and the connection closed, as
   * it is when no header can be read.  SETTINGS of a length that six does not divide close the connection, which
   * reads on.  Others are answered with empty SETTINGS.
   */
  lemma FirstFrameDecides(t: Table, handler: Handler, c: Conn, packet: seq<uint8>)
    requires Partial(c.unfinished) && c.phase == WaitClientSettings && packet != []
    ensures var r, h := ReadStep(c.unfinished, packet), PacketRun(t, handler, c, packet);
            var now := c.(unfinished := None);
            && (r.result == Failed(BadHeader) || r.result == Failed(TooBig) ==> h == History(now.(closed := true), [], true))
            && (r.result == Failed(InsufficientData) ==> h == History(c.(unfinished := r.unfinished), [], true))
            && (r.result.Complete? ==>
                  var f, rest := r.result.frame, packet[r.consumed..];
                  if f.kind != 0x4 then h == History(now.(closed := true), [Refused(f)], true)
                  else if f.length % 6 != 0 then
                    var later := PacketRun(t, handler, now.(closed := true), rest);
                    h == later.(events := [Refused(f)] + later.events)
                  else
                    var wire := c.wire + [0x00, 0x00, 0x00, 0x04, 0x00, 0x00, 0x00, 0x00, 0x00];
                    var later := PacketRun(t, handler, now.(phase := Idle, wire := wire), rest);
                    h == later.(events := [Handshake(f)] + later.events))
  {
    var r, p := ReadStep(c.unfinished, packet), ProcessStep(t, c, packet);
    CallDecides(t, handler, c, packet);
    CallDecides(t, handler, p.conn, []);
    ReadFailsExactly(c.unfinished, packet);
    WaitingCall(t, c, packet);
    hide ReadStep, ProcessStep, PacketRun;
    if r.result == Failed(InsufficientData) {
      assert packet[r.consumed..] == [];
    }
  }

  lemma WaitingCall(t: Table, c: Conn, packet: seq<uint8>)
    requires Partial(c.unfinished) && c.phase == WaitClientSettings && packet != []
    ensures var r, p := ReadStep(c.unfinished, packet), ProcessStep(t, c, packet);
            var now := c.(unfinished := r.unfinished);
            match r.result
            case Failed(InsufficientData) => p == Processed(now, Returns(MoreInput), |packet|, []) && r.consumed == |packet|
            case Failed(_) => p == Processed(now, Throws, r.consumed, [])
            case Complete(f) =>
              var wire := c.wire + [0x00, 0x00, 0x00, 0x04, 0x00, 0x00, 0x00, 0x00, 0x00];
              p == if f.kind != 0x4 then Processed(now, Throws, r.consumed, [Refused(f)])
                   else if f.length % 6 != 0 then
                     Processed(now.(closed := true), Returns(InvalidInput), r.consumed, [Refused(f)])
                   else Processed(now.(phase := Idle, wire := wire), Returns(Settings), r.consumed, [Handshake(f)])
  {
    ControlBytes(EMPTY_SETTINGS);
    hide ReadStep, PackedFrame;
  }

  /**
   * Later, a header that cannot be read ends the process with the connection closed, part of a frame is kept
   * for the next packet, and a whole frame does what its kind says.
   */
  lemma LaterReadDecides(t: Table, handler: Handler, c: Conn, packet: seq<uint8>)
    requires Partial(c.unfinished) && c.phase == Idle && packet != []
    ensures var r, h := ReadStep(c.unfinished, packet), PacketRun(t, handler, c, packet);
            && (r.result == Failed(BadHeader) || r.result == Failed(TooBig) ==> h == History(c.(closed := true), [], false))
            && (r.result == Failed(InsufficientData) ==> h == History(c.(unfinished := r.unfinished), [], true))
            && (r.result.Complete? ==>
                  ProcessStep(t, c, packet) == FrameStep(t, c.(unfinished := None), r.result.frame, r.consumed))
  {
    var r, p := ReadStep(c.unfinished, packet), ProcessStep(t, c, packet);
    CallDecides(t, handler, c, packet);
    CallDecides(t, handler, p.conn, []);
    ReadFailsExactly(c.unfinished, packet);
    IdleCall(t, c, packet);
    hide ReadStep, ProcessStep, PacketRun, FrameStep;
    if r.result == Failed(InsufficientData) {
      assert packet[r.consumed..] == [];
    }
  }

  lemma IdleCall(t: Table, c: Conn, packet: seq<uint8>)
    requires Partial(c.unfinished) && c.phase == Idle && packet != []
    ensures var r, p := ReadStep(c.unfinished, packet), ProcessStep(t, c, packet);
            var now := c.(unfinished := r.unfinished);
            match r.result
            case Failed(InsufficientData) => p == Processed(now, Returns(MoreInput), |packet|, []) && r.consumed == |packet|
            case Failed(_) => p == Processed(now.(closed := true), Exits, r.consumed, [])
            case Complete(f) => p == FrameStep(t, now, f, r.consumed) && r.unfinished.None?
  {
    hide ReadStep, FrameStep;
  }
}
