/**
 * Several handlers and the reader writing to one HTTP/2 connection, interleaved step by step
 * (src/https.cpp; `process` and `write` in src/protocols/h2/connection.cpp).
 *
 * A frame goes out in two writes, header and payload.  Each thread writes only while it holds the
 * connection's lock: a handler takes the lock afresh for every frame, the reader holds it for a whole
 * call of `process`, which may write any number of control frames.
 */
module Writers {
  import opened Options
  import opened Bits
  import opened Frames
  import opened Reassembly

  datatype Thread = Reader | Handler(index: nat)

  /** Where a thread stands; a handler that has written its frame can only drop the lock. */
  datatype Place = Outside | Inside | HalfWritten(frame: Frame) | Wrote

  /** One response being written: all its frames, and how many are out. */
  datatype Response = Response(streamId: uint32, frames: seq<Frame>, sent: nat, place: Place)

  datatype Logged = Logged(thread: Thread, frame: Frame)

  /** `log` is what has been written, frame by frame, and by whom. */
  datatype System = System(owner: Option<Thread>, reader: Place, responses: seq<Response>, wire: seq<uint8>,
                           log: seq<Logged>)

  datatype Action =
    | Start(streamId: uint32, frames: seq<Frame>)
    | Lock(thread: Thread)
    | PutHeader(thread: Thread, frame: Frame)
    | PutData(thread: Thread)
    | Unlock(thread: Thread)

  const START := System(None, Outside, [], [], [])

  predicate IsControl(f: Frame) {
    WholeFrame(f) && (f.kind == SETTINGS || f.kind == PING)
  }

  predicate IsContent(f: Frame) {
    f.kind == HEADERS || f.kind == DATA
  }

  /** The frames a handler sends: whole ones, with content, on its own stream. */
  ghost predicate OnOwnStream(frames: seq<Frame>, id: uint32) {
    forall f :: f in frames ==> WholeFrame(f) && IsContent(f) && f.streamId == id
  }

  predicate Exists(s: System, th: Thread) {
    th.Handler? ==> th.index < |s.responses|
  }

  function PlaceOf(s: System, th: Thread): Place
    requires Exists(s, th)
  {
    if th.Reader? then s.reader else s.responses[th.index].place
  }

  function At(s: System, th: Thread, place: Place): System
    requires Exists(s, th)
  {
    if th.Reader? then s.(reader := place)
    else s.(responses := s.responses[th.index := s.responses[th.index].(place := place)])
  }

  // ----- The steps -----

  ghost predicate Enabled(s: System, a: Action) {
    match a
    case Start(id, frames) => OnOwnStream(frames, id)
    case Lock(th) =>
      && Exists(s, th) && s.owner == None && PlaceOf(s, th) == Outside
      && (th.Handler? ==> s.responses[th.index].sent < |s.responses[th.index].frames|)
    case PutHeader(th, f) =>
      && Exists(s, th) && PlaceOf(s, th) == Inside
      && if th.Reader? then IsControl(f)
         else
           var r := s.responses[th.index];
           r.sent < |r.frames| && f == r.frames[r.sent]
    case PutData(th) => Exists(s, th) && PlaceOf(s, th).HalfWritten?
    case Unlock(th) => Exists(s, th) && PlaceOf(s, th) == if th.Reader? then Inside else Wrote
  }

  ghost function Act(s: System, a: Action): System
    requires Enabled(s, a)
  {
    match a
    case Start(id, frames) => s.(responses := s.responses + [Response(id, frames, 0, Outside)])
    case Lock(th) => At(s, th, Inside).(owner := Some(th))
    case PutHeader(th, f) => At(s, th, HalfWritten(f)).(wire := s.wire + PackedHeader(f))
    case PutData(th) =>
      var f := PlaceOf(s, th).frame;
      var s' := Advanced(At(s, th, if th.Reader? then Inside else Wrote), th);
      s'.(wire := s.wire + f.data, log := s.log + [Logged(th, f)])
    case Unlock(th) => At(s, th, Outside).(owner := None)
  }

  function Advanced(s: System, th: Thread): System
    requires Exists(s, th)
  {
    if th.Reader? then s
    else
      var r := s.responses[th.index];
      s.(responses := s.responses[th.index := r.(sent := r.sent + 1)])
  }

  ghost predicate Possible(s: System, actions: seq<Action>)
    decreases |actions|
  {
    actions != [] ==> Enabled(s, actions[0]) && Possible(Act(s, actions[0]), actions[1..])
  }

  /** The state after a run. */
  ghost function After(s: System, actions: seq<Action>): System
    requires Possible(s, actions)
    decreases |actions|
  {
    if actions == [] then s else After(Act(s, actions[0]), actions[1..])
  }

  // ----- What every run keeps -----

  function FramesOf(log: seq<Logged>): (frames: seq<Frame>)
    ensures |frames| == |log|
  {
    if log == [] then [] else FramesOf(log[..|log| - 1]) + [log[|log| - 1].frame]
  }

  function WrittenBy(log: seq<Logged>, th: Thread): seq<Frame> {
    if log == [] then []
    else
      var last := log[|log| - 1];
      WrittenBy(log[..|log| - 1], th) + if last.thread == th then [last.frame] else []
  }

  /** The frames with content on one stream. */
  function OnStream(frames: seq<Frame>, id: uint32): seq<Frame> {
    if frames == [] then []
    else
      var last := frames[|frames| - 1];
      OnStream(frames[..|frames| - 1], id) + if IsContent(last) && last.streamId == id then [last] else []
  }

  /** The header that the owner of the lock has written ahead of its payload. */
  function Ahead(s: System): seq<uint8> {
    if s.owner.Some? && Exists(s, s.owner.value) && PlaceOf(s, s.owner.value).HalfWritten?
    then PackedHeader(PlaceOf(s, s.owner.value).frame)
    else []
  }

  /** Only the owner of the lock is anywhere but outside. */
  ghost predicate Exclusive(s: System) {
    && (s.owner.Some? ==> Exists(s, s.owner.value) && PlaceOf(s, s.owner.value) != Outside)
    && forall th :: Exists(s, th) && PlaceOf(s, th) != Outside ==> s.owner == Some(th)
  }

  /** What a response has sent is what the log has of it, and what it is sending comes next. */
  ghost predicate InOrder(r: Response, written: seq<Frame>) {
    && OnOwnStream(r.frames, r.streamId)
    && r.sent <= |r.frames| && written == r.frames[..r.sent]
    && (r.place == Inside ==> r.sent < |r.frames|)
    && (r.place.HalfWritten? ==> r.sent < |r.frames| && r.place.frame == r.frames[r.sent])
  }

  ghost predicate AllInOrder(s: System) {
    forall i :: 0 <= i < |s.responses| ==> InOrder(s.responses[i], WrittenBy(s.log, Handler(i)))
  }

  ghost predicate LogIsOrderly(s: System) {
    forall k :: 0 <= k < |s.log| ==>
      && Exists(s, s.log[k].thread)
      && WholeFrame(s.log[k].frame)
      && if s.log[k].thread.Reader? then IsControl(s.log[k].frame)
         else IsContent(s.log[k].frame) && s.log[k].frame.streamId == s.responses[s.log[k].thread.index].streamId
  }

  ghost predicate ReaderIsOrderly(s: System) {
    && s.reader != Wrote
    && (s.reader.HalfWritten? ==> IsControl(s.reader.frame))
  }

  ghost predicate WireIsWhole(s: System) {
    s.wire == Wire(FramesOf(s.log)) + Ahead(s)
  }

  ghost predicate Inv(s: System) {
    Exclusive(s) && AllInOrder(s) && LogIsOrderly(s) && ReaderIsOrderly(s) && WireIsWhole(s)
  }

  lemma WrittenByMore(log: seq<Logged>, e: Logged, th: Thread)
    ensures WrittenBy(log + [e], th) == WrittenBy(log, th) + if e.thread == th then [e.frame] else []
    ensures FramesOf(log + [e]) == FramesOf(log) + [e.frame]
  {
    assert (log + [e])[..|log|] == log;
  }

  lemma OnStreamMore(frames: seq<Frame>, f: Frame, id: uint32)
    ensures OnStream(frames + [f], id) == OnStream(frames, id) + if IsContent(f) && f.streamId == id then [f] else []
  {
    assert (frames + [f])[..|frames|] == frames;
  }

  lemma StartKeepsInv(s: System, id: uint32, frames: seq<Frame>)
    requires Inv(s) && OnOwnStream(frames, id)
    ensures Inv(Act(s, Start(id, frames)))
  {
    hide OnOwnStream, WholeFrame, IsContent, IsControl, Wire, PackedHeader;
    var s' := Act(s, Start(id, frames));
    NeverWritten(s, |s.responses|);
    assert forall th :: Exists(s, th) ==> Exists(s', th) && PlaceOf(s', th) == PlaceOf(s, th);
    assert Ahead(s') == Ahead(s);
  }

  /** A thread that is not there yet has written nothing. */
  lemma NeverWritten(s: System, n: nat)
    requires LogIsOrderly(s) && n >= |s.responses|
    ensures WrittenBy(s.log, Handler(n)) == []
  {
    NothingBy(s.log, Handler(n));
  }

  lemma {:induction false} NothingBy(log: seq<Logged>, th: Thread)
    requires forall k :: 0 <= k < |log| ==> log[k].thread != th
    ensures WrittenBy(log, th) == []
  {
    if log != [] { NothingBy(log[..|log| - 1], th); }
  }

  /** Moving to another place changes nothing that has been written. */
  lemma MoveKeeps(s: System, th: Thread, place: Place, owner: Option<Thread>)
    requires Inv(s) && Exists(s, th)
    requires s.owner == None || s.owner == Some(th)
    requires owner == if place == Outside then None else Some(th)
    requires place.HalfWritten? ==>
               if th.Reader? then IsControl(place.frame)
               else var r := s.responses[th.index]; r.sent < |r.frames| && place.frame == r.frames[r.sent]
    requires if th.Reader? then place != Wrote
             else place == Inside ==> s.responses[th.index].sent < |s.responses[th.index].frames|
    ensures var s' := At(s, th, place).(owner := owner);
            Exclusive(s') && AllInOrder(s') && LogIsOrderly(s') && ReaderIsOrderly(s')
  {
    hide OnOwnStream, WholeFrame, IsContent, IsControl, WireIsWhole, WrittenBy;
    var s' := At(s, th, place).(owner := owner);
    assert forall other :: Exists(s, other) <==> Exists(s', other);
    assert forall other :: Exists(s, other) && other != th ==> PlaceOf(s', other) == PlaceOf(s, other);
  }

  lemma LockKeepsInv(s: System, th: Thread)
    requires Inv(s) && Enabled(s, Lock(th))
    ensures Inv(Act(s, Lock(th)))
  {
    MoveKeeps(s, th, Inside, Some(th));
  }

  lemma UnlockKeepsInv(s: System, th: Thread)
    requires Inv(s) && Enabled(s, Unlock(th))
    ensures Inv(Act(s, Unlock(th)))
  {
    assert s.owner == Some(th);
    MoveKeeps(s, th, Outside, None);
  }

  lemma PutHeaderKeepsInv(s: System, th: Thread, f: Frame)
    requires Inv(s) && Enabled(s, PutHeader(th, f))
    ensures Inv(Act(s, PutHeader(th, f)))
  {
    assert s.owner == Some(th);
    MoveKeeps(s, th, HalfWritten(f), Some(th));
    hide OnOwnStream, WholeFrame, IsContent, IsControl, Wire, FramesOf, PackedHeader;
    var frames := FramesOf(s.log);
    assert Wire(frames) + [] == Wire(frames);
  }

  lemma PutDataKeepsInv(s: System, th: Thread)
    requires Inv(s) && Enabled(s, PutData(th))
    ensures Inv(Act(s, PutData(th)))
  {
    PutDataKeepsExclusive(s, th);
    PutDataKeepsWire(s, th);
    PutDataKeepsOrder(s, th);
    hide AllInOrder, LogIsOrderly, ReaderIsOrderly, WireIsWhole, Exclusive, Act;
  }

  lemma PutDataKeepsExclusive(s: System, th: Thread)
    requires Inv(s) && Enabled(s, PutData(th))
    ensures var s' := Act(s, PutData(th)); Exclusive(s') && ReaderIsOrderly(s')
  {
    hide AllInOrder, LogIsOrderly, WireIsWhole, IsControl;
    var s' := Act(s, PutData(th));
    assert s.owner == Some(th);
    assert forall other :: Exists(s, other) <==> Exists(s', other);
    assert forall other :: Exists(s, other) && other != th ==> PlaceOf(s', other) == PlaceOf(s, other);
  }

  lemma PutDataKeepsWire(s: System, th: Thread)
    requires Inv(s) && Enabled(s, PutData(th))
    ensures WireIsWhole(Act(s, PutData(th)))
  {
    var f := PlaceOf(s, th).frame;
    assert s.owner == Some(th);
    assert s.wire == Wire(FramesOf(s.log)) + PackedHeader(f);
    WireOfOneMore(FramesOf(s.log), f);
    WrittenByMore(s.log, Logged(th, f), th);
    hide Wire, FramesOf, PackedHeader, WrittenBy, AllInOrder, LogIsOrderly;
    assert Ahead(Act(s, PutData(th))) == [];
  }

  lemma PutDataKeepsOrder(s: System, th: Thread)
    requires Inv(s) && Enabled(s, PutData(th))
    ensures var s' := Act(s, PutData(th)); AllInOrder(s') && LogIsOrderly(s')
  {
    hide OnOwnStream, WholeFrame, IsContent, IsControl, WrittenBy, WireIsWhole, Exclusive;
    var s', f := Act(s, PutData(th)), PlaceOf(s, th).frame;
    forall i | 0 <= i < |s'.responses| ensures InOrder(s'.responses[i], WrittenBy(s'.log, Handler(i))) {
      WrittenByMore(s.log, Logged(th, f), Handler(i));
      assert InOrder(s.responses[i], WrittenBy(s.log, Handler(i)));
      if th == Handler(i) {
        var r := s.responses[i];
        assert r.frames[..r.sent + 1] == r.frames[..r.sent] + [f];
      }
    }
    if th.Handler? {
      assert InOrder(s.responses[th.index], WrittenBy(s.log, th));
      FrameIsOwn(s.responses[th.index]);
    } else {
      ControlIsWhole(f);
    }
  }

  lemma FrameIsOwn(r: Response)
    requires OnOwnStream(r.frames, r.streamId) && r.sent < |r.frames|
    ensures var f := r.frames[r.sent]; WholeFrame(f) && IsContent(f) && f.streamId == r.streamId
  {
  }

  lemma ControlIsWhole(f: Frame)
    requires IsControl(f)
    ensures WholeFrame(f)
  {
  }

  lemma WireOfOneMore(frames: seq<Frame>, f: Frame)
    ensures Wire(frames + [f]) == (Wire(frames) + PackedHeader(f)) + f.data
    ensures Wire(frames + [f]) + [] == Wire(frames + [f])
  {
    hide PackedHeader;
    WireConcat(frames, [f]);
    assert Wire([f]) == PackedFrame(f) + Wire([]);
    assert Wire([f]) == PackedFrame(f);
    Associate(Wire(frames), PackedHeader(f), f.data);
  }

  lemma StepKeepsInv(s: System, a: Action)
    requires Inv(s) && Enabled(s, a)
    ensures Inv(Act(s, a))
  {
    hide Inv, Act;
    match a
    case Start(id, frames) => StartKeepsInv(s, id, frames);
    case Lock(th) => LockKeepsInv(s, th);
    case PutHeader(th, f) => PutHeaderKeepsInv(s, th, f);
    case PutData(th) => PutDataKeepsInv(s, th);
    case Unlock(th) => UnlockKeepsInv(s, th);
  }

  lemma {:induction false} RunKeepsInv(s: System, actions: seq<Action>)
    requires Inv(s) && Possible(s, actions)
    ensures Inv(After(s, actions))
    decreases |actions|
  {
    hide Inv, Enabled, Act;
    if actions != [] {
      StepKeepsInv(s, actions[0]);
      RunKeepsInv(Act(s, actions[0]), actions[1..]);
    }
  }

  lemma EveryRunKeepsInv(actions: seq<Action>)
    requires Possible(START, actions)
    ensures Inv(After(START, actions))
  {
    assert Inv(START);
    RunKeepsInv(START, actions);
  }

  /**
   * In every reachable state the wire is a sequence of whole frames, followed by at most the header of
   * the one frame being written; and the frames of each response are there in order, each once, as far
   * as that response has come.
   */
  lemma WireIsWholeFrames(actions: seq<Action>)
    requires Possible(START, actions)
    ensures var s := After(START, actions);
            && s.wire == Wire(FramesOf(s.log)) + Ahead(s)
            && (s.owner == None ==> s.wire == Wire(FramesOf(s.log)))
            && AllWholeFrames(FramesOf(s.log))
            && forall i :: 0 <= i < |s.responses| ==>
                 s.responses[i].sent <= |s.responses[i].frames|
                 && WrittenBy(s.log, Handler(i)) == s.responses[i].frames[..s.responses[i].sent]
  {
    EveryRunKeepsInv(actions);
    hide After, Possible;
    var s := After(START, actions);
    assert AllInOrder(s);
    FramesAreWhole(s.log);
    if s.owner == None { assert Wire(FramesOf(s.log)) + [] == Wire(FramesOf(s.log)); }
  }

  lemma {:induction false} FramesAreWhole(log: seq<Logged>)
    requires forall k :: 0 <= k < |log| ==> WholeFrame(log[k].frame)
    ensures AllWholeFrames(FramesOf(log))
  {
    hide WholeFrame;
    if log != [] { FramesAreWhole(log[..|log| - 1]); }
  }

  /** While a response is incomplete or somebody holds the lock, a thread can go on. */
  lemma NobodyIsStuck(actions: seq<Action>, i: nat)
    requires Possible(START, actions)
    requires var s := After(START, actions);
             s.owner.Some? || (i < |s.responses| && s.responses[i].sent < |s.responses[i].frames|)
    ensures exists a: Action :: !a.Start? && Enabled(After(START, actions), a)
  {
    EveryRunKeepsInv(actions);
    hide After, Possible, WrittenBy, WireIsWhole, LogIsOrderly;
    var s := After(START, actions);
    if s.owner == None {
      assert PlaceOf(s, Handler(i)) == Outside;
      assert Enabled(s, Lock(Handler(i)));
    } else {
      var th := s.owner.value;
      if th.Handler? { assert InOrder(s.responses[th.index], WrittenBy(s.log, th)); }
      match PlaceOf(s, th)
      case Inside =>
        if th.Reader? {
          assert Enabled(s, Unlock(th));
        } else {
          assert Enabled(s, PutHeader(th, s.responses[th.index].frames[s.responses[th.index].sent]));
        }
      case HalfWritten(_) => assert Enabled(s, PutData(th));
      case Wrote => assert Enabled(s, Unlock(th));
    }
  }

  /**
   * Nobody is kept from the lock but by its owner: while it is free the reader may take it and so may every
   * handler with frames left.  The reader that has it may write any control frame or let go of it, and new
   * responses may begin at any time.
   */
  lemma NobodyIsLockedOut(actions: seq<Action>)
    requires Possible(START, actions)
    ensures var s := After(START, actions);
            && (s.owner == None ==>
                  && Enabled(s, Lock(Reader))
                  && forall i :: 0 <= i < |s.responses| && s.responses[i].sent < |s.responses[i].frames| ==>
                       Enabled(s, Lock(Handler(i))))
            && (s.owner == Some(Reader) && s.reader == Inside ==>
                  && Enabled(s, Unlock(Reader))
                  && forall f :: WholeFrame(f) && (f.kind == 0x4 || f.kind == 0x6) ==> Enabled(s, PutHeader(Reader, f)))
            && forall id, frames :: OnOwnStream(frames, id) ==> Enabled(s, Start(id, frames))
  {
    EveryRunKeepsInv(actions);
    hide After, Possible, WrittenBy, WireIsWhole, LogIsOrderly, AllInOrder;
    var s := After(START, actions);
    if s.owner == None {
      assert PlaceOf(s, Reader) == Outside;
      forall i | 0 <= i < |s.responses| && s.responses[i].sent < |s.responses[i].frames| ensures Enabled(s, Lock(Handler(i))) {
        assert PlaceOf(s, Handler(i)) == Outside;
      }
    }
  }

  /** Every response answers a stream of its own. */
  ghost predicate DistinctStreams(s: System) {
    forall i, j :: 0 <= i < j < |s.responses| ==> s.responses[i].streamId != s.responses[j].streamId
  }

  /**
   * In every reachable state in which no two responses answer the same stream, the HEADERS and DATA
   * frames on the stream of a response are exactly what that response has sent: nothing lost, mixed in
   * or repeated, whatever the interleaving.
   */
  lemma ResponsesAreNotMixed(actions: seq<Action>, i: nat)
    requires Possible(START, actions)
    requires i < |After(START, actions).responses| && DistinctStreams(After(START, actions))
    ensures var s := After(START, actions);
            var r := s.responses[i];
            r.sent <= |r.frames| && OnStream(FramesOf(s.log), r.streamId) == r.frames[..r.sent]
  {
    EveryRunKeepsInv(actions);
    hide After, Possible;
    var s := After(START, actions);
    assert InOrder(s.responses[i], WrittenBy(s.log, Handler(i)));
    StreamIsThread(s, s.log, i);
  }

  lemma {:induction false} StreamIsThread(s: System, log: seq<Logged>, i: nat)
    requires LogIsOrderly(s.(log := log)) && i < |s.responses| && DistinctStreams(s)
    ensures OnStream(FramesOf(log), s.responses[i].streamId) == WrittenBy(log, Handler(i))
  {
    hide WholeFrame;
    if log != [] {
      var before, last := log[..|log| - 1], log[|log| - 1];
      StreamIsThread(s, before, i);
      OnStreamMore(FramesOf(before), last.frame, s.responses[i].streamId);
    }
  }
}
