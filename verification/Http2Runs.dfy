/**
 * Safety of whole runs of an HTTP/2 connection: the order of the handshake, and the isolation of
 * streams from one another.
 */
module Http2Runs {
  import opened Options
  import opened Bits
  import opened Huffman
  import opened Frames
  import opened HpackStatics
  import opened HpackParser
  import opened Reassembly
  import opened Http2
  import opened HeaderLists

  // ----- Stream isolation -----

  /** The DATA payloads received on stream `id` since its last proper request, in order. */
  ghost function Pending(events: seq<Event>, id: uint32): seq<uint8> {
    if events == [] then []
    else PendingAfter(Pending(events[..|events| - 1], id), events[|events| - 1], id)
  }

  function PendingAfter(before: seq<uint8>, e: Event, id: uint32): seq<uint8> {
    if e.Got? && e.frame.kind == DATA && e.frame.streamId == id then before + e.frame.data
    else if e.Emitted? && e.request.Request? && e.request.streamId == id then []
    else before
  }

  /** The header list most recently completed on stream `id`. */
  ghost function LastHeaders(events: seq<Event>, id: uint32): seq<Header> {
    if events == [] then []
    else
      var e := events[|events| - 1];
      if e.HeadersDone? && e.streamId == id then e.headers else LastHeaders(events[..|events| - 1], id)
  }

  /** What a stream's own events make of it. */
  ghost function Replayed(events: seq<Event>, id: uint32): Stream {
    Stream(id, LastHeaders(events, id), Pending(events, id))
  }

  /** What each stream holds is what has arrived on it, whatever has arrived on the others. */
  ghost predicate HoldsOwnEvents(c: Conn, events: seq<Event>) {
    forall id: uint32 :: StreamOf(c, id) == Replayed(events, id)
  }

  predicate IsOn(e: Event, id: uint32) {
    (e.Got? && e.frame.streamId == id) || (e.HeadersDone? && e.streamId == id)
  }

  /**
   * A request comes right after something on its own stream, and is made of the list last finished there
   * and of that stream's own DATA.
   */
  ghost predicate EmittedWell(events: seq<Event>, i: nat)
    requires i < |events| && events[i].Emitted?
  {
    var r := events[i].request;
    0 < i && IsOn(events[i - 1], r.streamId) && r == RequestOf(Replayed(events[..i], r.streamId))
  }

  ghost predicate RequestsAreIsolated(events: seq<Event>) {
    forall i :: 0 <= i < |events| && events[i].Emitted? ==> EmittedWell(events, i)
  }

  lemma ReplayedAfterOne(events: seq<Event>, e: Event, id: uint32)
    ensures var s := Replayed(events, id);
            Replayed(events + [e], id) ==
            s.(headers := if e.HeadersDone? && e.streamId == id then e.headers else s.headers,
               data := PendingAfter(s.data, e, id))
  {
    assert (events + [e])[..|events|] == events;
  }

  lemma IsolatedAfterOne(events: seq<Event>, e: Event)
    requires RequestsAreIsolated(events)
    requires e.Emitted? ==>
               var r := e.request;
               events != [] && IsOn(events[|events| - 1], r.streamId) && r == RequestOf(Replayed(events, r.streamId))
    ensures RequestsAreIsolated(events + [e])
  {
    hide RequestOf, Replayed;
    var all := events + [e];
    forall i | 0 <= i < |all| && all[i].Emitted? ensures EmittedWell(all, i) {
      assert all[..i] == if i < |events| then events[..i] else events;
      if i < |events| { assert EmittedWell(events, i); }
    }
  }

  /** The invariant of the isolation argument. */
  ghost predicate Isolated(c: Conn, events: seq<Event>) {
    HoldsOwnEvents(c, events) && RequestsAreIsolated(events)
  }

  /** An event other than a request, which changes at most the stream it is on. */
  lemma IsolatedAfterEvent(c: Conn, c': Conn, events: seq<Event>, e: Event, id: uint32)
    requires Isolated(c, events) && !e.Emitted?
    requires forall other: uint32 :: other != id ==> StreamOf(c', other) == StreamOf(c, other)
    requires e.Got? ==> e.frame.streamId == id
    requires e.HeadersDone? ==> e.streamId == id
    requires var s := StreamOf(c, id);
             StreamOf(c', id) == s.(headers := if e.HeadersDone? then e.headers else s.headers,
                                    data := if e.Got? && e.frame.kind == DATA then s.data + e.frame.data else s.data)
    ensures Isolated(c', events + [e])
  {
    hide StreamOf, Replayed;
    IsolatedAfterOne(events, e);
    forall other: uint32 ensures StreamOf(c', other) == Replayed(events + [e], other) {
      ReplayedAfterOne(events, e, other);
    }
  }

  lemma IsolatedAfterEmit(c: Conn, events: seq<Event>, s: Stream)
    requires Isolated(c, events) && s == StreamOf(c, s.streamId)
    requires events != [] && IsOn(events[|events| - 1], s.streamId)
    ensures Isolated(WithStream(c, Finished(s)).(handled := c.handled + 1), events + [Emitted(RequestOf(s))])
  {
    var r := RequestOf(s);
    assert r.streamId == s.streamId;
    hide RequestOf;
    assert s == Replayed(events, s.streamId);
    IsolatedAfterOne(events, Emitted(r));
    var c' := WithStream(c, Finished(s)).(handled := c.handled + 1);
    forall id: uint32 ensures StreamOf(c', id) == Replayed(events + [Emitted(r)], id) {
      ReplayedAfterOne(events, Emitted(r), id);
    }
  }

  lemma FrameStepIsolates(t: Table, c: Conn, f: Frame, consumed: nat, events: seq<Event>)
    requires Isolated(c, events)
    ensures var p := FrameStep(t, c, f, consumed); Isolated(p.conn, events + p.events)
  {
    var id := f.streamId;
    var s := StreamOf(c, id);
    var c' := WithStream(c, s);
    hide ParsedFrame, Isolated, RequestOf, PackedFrame;
    if f.kind == HEADERS || f.kind == CONTINUATION {
      IsolatedAfterEvent(c, c', events, Got(f), id);
      HeadersStepIsolates(t, c', s, f, consumed, events);
    } else if f.kind == DATA {
      var s' := s.(data := s.data + f.data);
      var c'' := WithStream(c', s');
      IsolatedAfterEvent(c, c'', events, Got(f), id);
      IsolatedAfterEmit(c'', events + [Got(f)], s');
      Associate(events, [Got(f)], [Emitted(RequestOf(s'))]);
    } else {
      IsolatedAfterEvent(c, FrameStep(t, c, f, consumed).conn, events, Got(f), id);
    }
  }

  lemma HeadersStepIsolates(t: Table, c: Conn, s: Stream, f: Frame, consumed: nat, events: seq<Event>)
    requires Isolated(c, events + [Got(f)])
    requires s == StreamOf(c, f.streamId)
    ensures var p := HeadersStep(t, c, s, f, consumed); Isolated(p.conn, events + p.events)
  {
    hide ParsedFrame, Isolated, RequestOf, PackedFrame;
    var r := ParsedFrame(t, c.hpack, f);
    var got, id := events + [Got(f)], f.streamId;
    if r.status.Done? {
      var s' := s.(headers := r.d.decoded);
      var c'' := WithStream(c.(hpack := r.d.(decoded := [])), s');
      var e := HeadersDone(id, s'.headers);
      IsolatedAfterEvent(c, c'', got, e, id);
      IsolatedAfterEmit(c'', got + [e], s');
      assert got + [e] == events + [Got(f), e];
      Associate(events, [Got(f), e], [Emitted(RequestOf(s'))]);
    } else {
      IsolationIgnores(c, HeadersStep(t, c, s, f, consumed).conn, got);
    }
  }

  lemma IsolatedAfterOther(c: Conn, c': Conn, events: seq<Event>, e: Event)
    requires Isolated(c, events) && c'.streams == c.streams && !e.Got? && !e.HeadersDone? && !e.Emitted?
    ensures Isolated(c', events + [e])
  {
    assert forall id: uint32 :: StreamOf(c', id) == StreamOf(c, id);
    hide Isolated;
    IsolatedAfterEvent(c, c', events, e, 0);
  }

  lemma ProcessIsolates(t: Table, c: Conn, data: seq<uint8>, events: seq<Event>)
    requires Partial(c.unfinished) && Isolated(c, events)
    ensures var p := ProcessStep(t, c, data); Isolated(p.conn, events + p.events)
  {
    var p := ProcessStep(t, c, data);
    assert events + [] == events;
    if p.events != [] && data != [] && c.phase == ClientPreface {
      IsolatedAfterOther(c, p.conn, events, Preface);
    } else if data != [] && (c.phase == WaitClientSettings || c.phase == Idle) {
      var r := ReadStep(c.unfinished, data);
      var c' := c.(unfinished := r.unfinished);
      assert Isolated(c', events);
      hide ReadStep, Isolated, FrameStep, PackedFrame;
      if r.result.Complete? {
        if c.phase == Idle {
          FrameStepIsolates(t, c', r.result.frame, r.consumed, events);
        } else {
          IsolatedAfterOther(c', p.conn, events, p.events[0]);
        }
      } else {
        IsolationIgnores(c', p.conn, events);
      }
    }
  }

  lemma IsolationIgnores(c: Conn, c': Conn, events: seq<Event>)
    requires Isolated(c, events) && c'.streams == c.streams
    ensures Isolated(c', events)
  {
    assert forall id: uint32 :: StreamOf(c', id) == StreamOf(c, id);
  }

  lemma ProcessGathers(t: Table, hasZero: bool, c: Conn, data: seq<uint8>, events: seq<Event>)
    requires Partial(c.unfinished) && Gathering(t, hasZero, c, events)
    ensures var p := ProcessStep(t, c, data); Gathering(t, hasZero, p.conn, events + p.events)
  {
    hide Gathering, ReadStep, FrameStep, PackedFrame;
    var p := ProcessStep(t, c, data);
    assert events + [] == events;
    if data != [] && c.phase == Idle && ReadStep(c.unfinished, data).result.Complete? {
      var r := ReadStep(c.unfinished, data);
      var c' := c.(unfinished := r.unfinished);
      GatheringSame(t, hasZero, c, c', events);
      FrameStepGathers(t, hasZero, c', r.result.frame, r.consumed, events);
    } else if p.events == [] {
      GatheringSame(t, hasZero, c, p.conn, events);
    } else {
      GatheringIgnores(t, hasZero, c, p.conn, events, p.events[0]);
    }
  }

  // ----- The handshake -----

  function Rank(phase: Phase): nat {
    match phase
    case ClientPreface => 0
    case WaitClientSettings => 1
    case Idle => 2
    case _ => 3
  }

  /** The event at `i` is the client's acceptable SETTINGS frame, after the preface and before all else. */
  ghost predicate HandshakeAt(events: seq<Event>, i: nat) {
    && 0 < i < |events| && events[0] == Preface
    && events[i].Handshake? && events[i].frame.kind == SETTINGS && events[i].frame.length % 6 == 0
    && forall j :: 0 < j < i ==> events[j].Refused?
  }

  ghost predicate ShookHands(c: Conn, events: seq<Event>) {
    match c.phase
    case ClientPreface => events == [] && c.wire == []
    case WaitClientSettings =>
      events != [] && events[0] == Preface && c.wire == [] && forall j :: 0 < j < |events| ==> events[j].Refused?
    case Idle => PackedFrame(EMPTY_SETTINGS) <= c.wire && exists i :: HandshakeAt(events, i)
    case _ => false
  }

  lemma StillAt(events: seq<Event>, more: seq<Event>, i: nat)
    requires HandshakeAt(events, i)
    ensures HandshakeAt(events + more, i)
  {
  }

  lemma FrameStepWrites(t: Table, c: Conn, f: Frame, consumed: nat)
    ensures c.wire <= FrameStep(t, c, f, consumed).conn.wire
  {
    hide ParsedFrame, RequestOf, PackedFrame;
  }

  /** What a step does to the handshake. */
  ghost predicate GoesOnShaking(c: Conn, p: Processed, events: seq<Event>) {
    && ShookHands(p.conn, events + p.events) && c.wire <= p.conn.wire
    && Rank(c.phase) <= Rank(p.conn.phase) <= Rank(c.phase) + 1
  }

  lemma ProcessShakesHands(t: Table, c: Conn, data: seq<uint8>, events: seq<Event>)
    requires Partial(c.unfinished) && ShookHands(c, events)
    ensures GoesOnShaking(c, ProcessStep(t, c, data), events)
  {
    assert events + [] == events;
    if data != [] && c.phase == WaitClientSettings {
      FirstFrameShakesHands(t, c, data, events);
    } else if data != [] && c.phase == Idle {
      LaterFrameKeepsHandshake(t, c, data, events);
    }
  }

  lemma FirstFrameShakesHands(t: Table, c: Conn, data: seq<uint8>, events: seq<Event>)
    requires Partial(c.unfinished) && ShookHands(c, events) && data != [] && c.phase == WaitClientSettings
    ensures GoesOnShaking(c, ProcessStep(t, c, data), events)
  {
    hide ReadStep, PackedFrame;
    assert events + [] == events;
    var p := ProcessStep(t, c, data);
    var all := events + p.events;
    if p.conn.phase == Idle { assert HandshakeAt(all, |events|); }
  }

  lemma LaterFrameKeepsHandshake(t: Table, c: Conn, data: seq<uint8>, events: seq<Event>)
    requires Partial(c.unfinished) && ShookHands(c, events) && data != [] && c.phase == Idle
    ensures GoesOnShaking(c, ProcessStep(t, c, data), events)
  {
    var r, p := ReadStep(c.unfinished, data), ProcessStep(t, c, data);
    var i :| HandshakeAt(events, i);
    StillAt(events, p.events, i);
    if r.result.Complete? {
      var c' := c.(unfinished := r.unfinished);
      FrameStepKeeps(t, c', r.result.frame, r.consumed);
      FrameStepWrites(t, c', r.result.frame, r.consumed);
    }
    hide ReadStep, FrameStep, PackedFrame, HandshakeAt;
  }

  // ----- Whole runs -----

  ghost predicate Inv(t: Table, hasZero: bool, c: Conn, events: seq<Event>) {
    Isolated(c, events) && ShookHands(c, events) && Gathering(t, hasZero, c, events)
  }

  lemma InvIgnoresClosing(t: Table, hasZero: bool, c: Conn, events: seq<Event>)
    requires Inv(t, hasZero, c, events)
    ensures Inv(t, hasZero, c.(closed := true), events)
  {
    IsolationIgnores(c, c.(closed := true), events);
  }

  lemma {:induction false} PacketKeepsInv(t: Table, handler: Handler, hasZero: bool, c: Conn, packet: seq<uint8>, events: seq<Event>)
    requires Partial(c.unfinished) && Inv(t, hasZero, c, events)
    ensures var h := PacketRun(t, handler, c, packet);
            && Inv(t, hasZero, h.conn, events + h.events) && c.wire <= h.conn.wire && Rank(c.phase) <= Rank(h.conn.phase)
    decreases |packet|
  {
    ProcessIsolates(t, c, packet, events);
    ProcessShakesHands(t, c, packet, events);
    ProcessGathers(t, hasZero, c, packet, events);
    hide ProcessStep, Isolated, ShookHands, Gathering;
    var p := ProcessStep(t, c, packet);
    assert Inv(t, hasZero, p.conn, events + p.events);
    hide Inv;
    var outcome := Handled(handler, p);
    hide Handled;
    if outcome.Returns? && outcome != Returns(Eof) {
      var rest := packet[p.consumed..];
      PacketKeepsInv(t, handler, hasZero, p.conn, rest, events + p.events);
      Associate(events, p.events, PacketRun(t, handler, p.conn, rest).events);
    } else if outcome.Throws? {
      InvIgnoresClosing(t, hasZero, p.conn, events + p.events);
    }
  }

  lemma {:induction false} PacketsKeepInv(t: Table, handler: Handler, hasZero: bool, c: Conn, packets: seq<seq<uint8>>, events: seq<Event>)
    requires Partial(c.unfinished) && Inv(t, hasZero, c, events)
    ensures var h := PacketsRun(t, handler, c, packets);
            && Inv(t, hasZero, h.conn, events + h.events) && c.wire <= h.conn.wire && Rank(c.phase) <= Rank(h.conn.phase)
    decreases |packets|
  {
    hide PacketRun, Inv;
    if packets == [] {
      assert events + [] == events;
    } else {
      PacketKeepsInv(t, handler, hasZero, c, packets[0], events);
      var first := PacketRun(t, handler, c, packets[0]);
      if first.alive {
        PacketsKeepInv(t, handler, hasZero, first.conn, packets[1..], events + first.events);
        Associate(events, first.events, PacketsRun(t, handler, first.conn, packets[1..]).events);
      }
    }
  }

  /** The invariant holds in every reachable state. */
  lemma EveryRunKeepsInv(t: Table, handler: Handler, hasZero: bool, packets: seq<seq<uint8>>)
    ensures var h := PacketsRun(t, handler, Initial(hasZero), packets); Inv(t, hasZero, h.conn, h.events)
  {
    var c := Initial(hasZero);
    assert forall id: uint32 :: StreamOf(c, id) == Replayed([], id);
    assert Gathering(t, hasZero, c, []);
    assert Inv(t, hasZero, c, []);
    PacketsKeepInv(t, handler, hasZero, c, packets, []);
    hide PacketsRun;
    var h := PacketsRun(t, handler, c, packets);
    assert [] + h.events == h.events;
  }

  /**
   * In every run, each request follows a frame on its own stream and is made of the header list last
   * finished on that stream and of exactly the DATA received on it since the stream's previous request,
   * whatever other streams interleave.  What is in the list is told by `ListsAreOwnExactly`.
   */
  lemma StreamsAreIsolated(t: Table, handler: Handler, hasZero: bool, packets: seq<seq<uint8>>)
    ensures var h := PacketsRun(t, handler, Initial(hasZero), packets);
            && RequestsAreIsolated(h.events)
            && forall id: uint32 :: StreamOf(h.conn, id) == Replayed(h.events, id)
  {
    EveryRunKeepsInv(t, handler, hasZero, packets);
    hide PacketsRun, ShookHands, Gathering;
  }

  /** Where the header list last finished on stream `id` was finished. */
  ghost function ListedAt(events: seq<Event>, id: uint32): (j: Option<nat>)
    ensures j.Some? ==>
              j.value < |events| && events[j.value].HeadersDone? && events[j.value].streamId == id
              && events[j.value].headers == LastHeaders(events, id)
    ensures j.None? ==> LastHeaders(events, id) == []
  {
    if events == [] then None
    else
      var n := |events| - 1;
      if events[n].HeadersDone? && events[n].streamId == id then Some(n) else ListedAt(events[..n], id)
  }

  /**
   * At any point of any run, the header list of a stream is what all HEADERS and CONTINUATION frames
   * contributed from the finished list before it to its own end, refused blocks included.  It is the
   * stream's own exactly when none of those frames that contributed anything was on another stream.
   */
  lemma ListsAreOwnExactly(t: Table, handler: Handler, hasZero: bool, packets: seq<seq<uint8>>, i: nat, id: uint32)
    requires i <= |PacketsRun(t, handler, Initial(hasZero), packets).events|
    ensures var events := PacketsRun(t, handler, Initial(hasZero), packets).events[..i];
            match ListedAt(events, id)
            case None => LastHeaders(events, id) == []
            case Some(j) =>
              var pieces := Pieces(t, hasZero, events[..j]);
              && pieces != [] && pieces[|pieces| - 1].streamId == id
              && LastHeaders(events, id) == AllHeaders(pieces)
              && (LastHeaders(events, id) == OwnHeaders(pieces, id) <==>
                  forall k :: 0 <= k < |pieces| && pieces[k].streamId != id ==> pieces[k].headers == [])
  {
    EveryRunKeepsInv(t, handler, hasZero, packets);
    hide PacketsRun, ShookHands, Isolated, AllHeaders, OwnHeaders;
    var all := PacketsRun(t, handler, Initial(hasZero), packets).events;
    var events := all[..i];
    match ListedAt(events, id)
    case None =>
    case Some(j) =>
      assert ListIsGathered(t, hasZero, all, j);
      assert all[..j] == events[..j];
      GatheredIsOwn(Pieces(t, hasZero, events[..j]), id);
      assert events[..j][..j - 1] == events[..j - 1];
  }

  /**
   * In every run, nothing is written and no request is made before the whole preface and an acceptable
   * SETTINGS frame have arrived; the first thing written is an empty SETTINGS frame; and the connection
   * is only ever in the three phases of the handshake.
   */
  lemma HandshakeComesFirst(t: Table, handler: Handler, hasZero: bool, packets: seq<seq<uint8>>)
    ensures var h := PacketsRun(t, handler, Initial(hasZero), packets);
            && Rank(h.conn.phase) <= 2
            && (h.conn.wire != [] ==> PackedFrame(EMPTY_SETTINGS) <= h.conn.wire)
            && (h.conn.wire != [] <==> exists i: nat :: HandshakeAt(h.events, i))
            && (forall k :: 0 <= k < |h.events| && (h.events[k].Emitted? || h.events[k].Got?) ==>
                  exists i: nat :: i < k && HandshakeAt(h.events, i))
  {
    EveryRunKeepsInv(t, handler, hasZero, packets);
    hide PacketsRun, Isolated, Gathering;
    var h := PacketsRun(t, handler, Initial(hasZero), packets);
    forall k | 0 <= k < |h.events| && (h.events[k].Emitted? || h.events[k].Got?)
      ensures exists i: nat :: i < k && HandshakeAt(h.events, i)
    {
      assert h.conn.phase == Idle;
      var i: nat :| HandshakeAt(h.events, i);
      assert i < k;
    }
  }

  /** Later packets never take the connection back to an earlier phase, nor unwrite anything. */
  lemma PhasesOnlyAdvance(t: Table, handler: Handler, hasZero: bool, packets: seq<seq<uint8>>, more: seq<seq<uint8>>)
    ensures var h, h' := PacketsRun(t, handler, Initial(hasZero), packets), PacketsRun(t, handler, Initial(hasZero), packets + more);
            Rank(h.conn.phase) <= Rank(h'.conn.phase) && h.conn.wire <= h'.conn.wire && h.events <= h'.events
  {
    RunContinues(t, handler, Initial(hasZero), packets, more);
    EveryRunKeepsInv(t, handler, hasZero, packets);
    hide PacketsRun, Inv;
    var h := PacketsRun(t, handler, Initial(hasZero), packets);
    if h.alive { PacketsKeepInv(t, handler, hasZero, h.conn, more, h.events); }
  }

  lemma {:induction false} RunContinues(t: Table, handler: Handler, c: Conn, packets: seq<seq<uint8>>, more: seq<seq<uint8>>)
    requires Partial(c.unfinished)
    ensures var h := PacketsRun(t, handler, c, packets);
            PacketsRun(t, handler, c, packets + more) ==
            if !h.alive then h
            else
              var rest := PacketsRun(t, handler, h.conn, more);
              rest.(events := h.events + rest.events)
    decreases |packets|
  {
    hide PacketRun;
    if packets == [] {
      assert packets + more == more;
      var rest := PacketsRun(t, handler, c, more);
      assert [] + rest.events == rest.events;
    } else {
      assert (packets + more)[0] == packets[0] && (packets + more)[1..] == packets[1..] + more;
      var first := PacketRun(t, handler, c, packets[0]);
      if first.alive {
        RunContinues(t, handler, first.conn, packets[1..], more);
        var h := PacketsRun(t, handler, first.conn, packets[1..]);
        if h.alive { Associate(first.events, h.events, PacketsRun(t, handler, h.conn, more).events); }
      }
    }
  }
}
