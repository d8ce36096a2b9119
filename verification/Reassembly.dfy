/**
 * Reassembly of frames from packets (connection<h2::protocol>::read_frame in
 * src/protocols/h2/connection.cpp).
 *
 * A frame whose payload is incomplete is kept between packets; a frame header must arrive whole.
 */
module Reassembly {
  import opened Options
  import opened Bits
  import opened Frames

  datatype FrameState = InsufficientData | BadHeader | TooBig

  datatype ReadResult = Complete(frame: Frame) | Failed(state: FrameState)

  /** One call: its result, the frame left unfinished, and how far the cursor has moved. */
  datatype Read = Read(result: ReadResult, unfinished: Option<Frame>, consumed: nat)

  predicate Partial(u: Option<Frame>) {
    u.Some? ==> |u.value.data| < u.value.length <= MAX_FRAME_SIZE
  }

  predicate WholeFrame(f: Frame) {
    |f.data| == f.length <= MAX_FRAME_SIZE
  }

  ghost predicate AllWholeFrames(frames: seq<Frame>) {
    forall f :: f in frames ==> WholeFrame(f)
  }

  function Min(a: nat, b: nat): nat {
    if a < b then a else b
  }

  /** Appends to the payload of `f` what it still lacks, from position `pos` of the data. */
  function Fill(f: Frame, data: seq<uint8>, pos: nat): (r: Read)
    requires |f.data| <= f.length <= MAX_FRAME_SIZE && pos <= |data|
    ensures pos <= r.consumed <= |data| && Partial(r.unfinished)
    ensures r.result.Complete? ==> WholeFrame(r.result.frame) && r.unfinished.None?
  {
    var n := Min(|data| - pos, f.length - |f.data|);
    var g := f.(data := f.data + data[pos..pos + n]);
    if |g.data| < g.length then Read(Failed(InsufficientData), Some(g), pos + n)
    else Read(Complete(g), None, pos + n)
  }

  function ReadStep(u: Option<Frame>, data: seq<uint8>): (r: Read)
    requires Partial(u)
    ensures r.consumed <= |data| && Partial(r.unfinished)
    ensures r.result.Complete? ==> WholeFrame(r.result.frame) && r.unfinished.None?
    ensures r.result == Failed(InsufficientData) ==> r.unfinished.Some? && r.consumed == |data|
    ensures data != [] && (r.result.Complete? || r.result == Failed(InsufficientData)) ==> 0 < r.consumed
  {
    if u.Some? then Fill(u.value, data, 0)
    else if |data| < HTTP2_FRAME_SIZE then Read(Failed(BadHeader), None, 0)
    else
      var f := UnpackedHeader(data);
      if f.length > MAX_FRAME_SIZE then Read(Failed(TooBig), None, 0)
      else Fill(f, data, HTTP2_FRAME_SIZE)
  }

  // ----- Packets -----

  /** What a run of reads has produced; `ok` is false once a header was cut or too big a frame announced. */
  datatype Run = Run(frames: seq<Frame>, unfinished: Option<Frame>, ok: bool)

  function ReadPacket(u: Option<Frame>, packet: seq<uint8>): (r: Run)
    requires Partial(u)
    ensures Partial(r.unfinished)
    ensures AllWholeFrames(r.frames)
    decreases |packet|
  {
    if packet == [] then Run([], u, true)
    else
      var r := ReadStep(u, packet);
      match r.result
      case Complete(f) =>
        var rest := ReadPacket(None, packet[r.consumed..]);
        rest.(frames := [f] + rest.frames)
      case Failed(state) => Run([], r.unfinished, state == InsufficientData)
  }

  function ReadPackets(u: Option<Frame>, packets: seq<seq<uint8>>): (r: Run)
    requires Partial(u)
    ensures Partial(r.unfinished)
    ensures AllWholeFrames(r.frames)
    decreases |packets|
  {
    if packets == [] then Run([], u, true)
    else
      var first := ReadPacket(u, packets[0]);
      if !first.ok then first
      else
        var rest := ReadPackets(first.unfinished, packets[1..]);
        rest.(frames := first.frames + rest.frames)
  }

  function PackedFrame(f: Frame): (bytes: seq<uint8>)
    ensures |bytes| == HTTP2_FRAME_SIZE + |f.data|
  {
    PackedHeader(f) + f.data
  }

  function Wire(frames: seq<Frame>): seq<uint8> {
    if frames == [] then [] else PackedFrame(frames[0]) + Wire(frames[1..])
  }

  function PartialBytes(u: Option<Frame>): seq<uint8> {
    if u.None? then [] else PackedFrame(u.value)
  }

  function Concat(packets: seq<seq<uint8>>): seq<uint8> {
    if packets == [] then [] else packets[0] + Concat(packets[1..])
  }

  // ----- Conservation -----

  lemma {:induction false} WireConcat(a: seq<Frame>, b: seq<Frame>)
    ensures Wire(a + b) == Wire(a) + Wire(b)
  {
    hide PackedFrame;
    if a == [] {
      assert a + b == b;
    } else {
      ConsConcat(a, b);
      WireConcat(a[1..], b);
      Associate(PackedFrame(a[0]), Wire(a[1..]), Wire(b));
    }
  }

  /** A successful read moves its bytes from the data to the frame, or to the unfinished frame. */
  lemma ReadStepConserves(u: Option<Frame>, data: seq<uint8>)
    requires Partial(u)
    ensures var r := ReadStep(u, data);
            r.result.Complete? || r.result == Failed(InsufficientData) ==>
              PartialBytes(u) + data[..r.consumed]
              == PartialBytes(if r.result.Complete? then Some(r.result.frame) else r.unfinished)
  {
    if u.Some? {
      FillConserves(u.value, data, 0);
    } else if |data| >= HTTP2_FRAME_SIZE {
      var f := UnpackedHeader(data);
      HeaderIsPacked(data);
      hide PackedHeader, UnpackedHeader;
      if f.length <= MAX_FRAME_SIZE { FillConserves(f, data, HTTP2_FRAME_SIZE); }
    }
  }

  /**
   * A read fails exactly if a new frame's header is not all there or announces more than 4 MiB; it then
   * takes nothing.
   */
  lemma ReadFailsExactly(u: Option<Frame>, data: seq<uint8>)
    requires Partial(u)
    ensures var r := ReadStep(u, data);
            && (r.result == Failed(BadHeader) <==> u.None? && |data| < 9)
            && (r.result == Failed(TooBig) <==>
                u.None? && |data| >= 9 && 0x1_0000 * (data[0] as int) + 0x100 * (data[1] as int) + data[2] > 0x40_0000)
            && (r.result == Failed(BadHeader) || r.result == Failed(TooBig) ==> r.unfinished.None? && r.consumed == 0)
  {
    if u.None? && |data| >= 9 { BigEndianBytes3(data[..3]); }
    hide FromBigEndian;
  }

  lemma FillConserves(f: Frame, data: seq<uint8>, pos: nat)
    requires |f.data| <= f.length <= MAX_FRAME_SIZE && pos <= |data|
    ensures var r := Fill(f, data, pos);
            PackedFrame(f) + data[pos..r.consumed]
            == PackedFrame(if r.result.Complete? then r.result.frame else r.unfinished.value)
    ensures var r := Fill(f, data, pos);
            f.data == [] && pos == HTTP2_FRAME_SIZE && PackedHeader(f) == data[..pos] ==>
              data[..r.consumed] == PackedFrame(if r.result.Complete? then r.result.frame else r.unfinished.value)
  {
    var r := Fill(f, data, pos);
    var g := if r.result.Complete? then r.result.frame else r.unfinished.value;
    assert PackedHeader(g) == PackedHeader(f);
    hide PackedHeader;
    Associate(PackedHeader(f), f.data, data[pos..r.consumed]);
    if f.data == [] && pos == HTTP2_FRAME_SIZE && PackedHeader(f) == data[..pos] {
      assert data[..r.consumed] == data[..pos] + data[pos..r.consumed];
    }
  }

  lemma FrameConserves(before: seq<uint8>, packet: seq<uint8>, n: nat, f: Frame, frames: seq<Frame>, after: seq<uint8>)
    requires n <= |packet| && before + packet[..n] == PackedFrame(f) && packet[n..] == Wire(frames) + after
    ensures before + packet == Wire([f] + frames) + after
  {
    hide PackedFrame;
    assert packet == packet[..n] + packet[n..];
    Associate(before, packet[..n], packet[n..]);
    assert ([f] + frames)[1..] == frames;
    Associate(PackedFrame(f), Wire(frames), after);
  }

  lemma {:induction false} ReadPacketConserves(u: Option<Frame>, packet: seq<uint8>)
    requires Partial(u)
    ensures var r := ReadPacket(u, packet);
            r.ok ==> PartialBytes(u) + packet == Wire(r.frames) + PartialBytes(r.unfinished)
    decreases |packet|
  {
    if packet != [] {
      var r := ReadStep(u, packet);
      ReadStepConserves(u, packet);
      hide ReadStep, PackedFrame;
      if r.result.Complete? {
        var rest := packet[r.consumed..];
        ReadPacketConserves(None, rest);
        var later := ReadPacket(None, rest);
        assert PartialBytes(None) + rest == rest;
        if later.ok {
          FrameConserves(PartialBytes(u), packet, r.consumed, r.result.frame, later.frames, PartialBytes(later.unfinished));
        }
      } else if r.result == Failed(InsufficientData) {
        assert packet[..r.consumed] == packet;
        assert Wire([]) + PartialBytes(r.unfinished) == PartialBytes(r.unfinished);
      }
    } else {
      assert PartialBytes(u) + packet == PartialBytes(u);
      assert Wire([]) + PartialBytes(u) == PartialBytes(u);
    }
  }

  /**
   * Nothing is lost or invented: after any successful reads, the bytes received are the frames emitted
   * followed by the header and the data of the unfinished frame.
   */
  lemma {:induction false} ReadingConserves(u: Option<Frame>, packets: seq<seq<uint8>>)
    requires Partial(u)
    ensures var r := ReadPackets(u, packets);
            r.ok ==> PartialBytes(u) + Concat(packets) == Wire(r.frames) + PartialBytes(r.unfinished)
    decreases |packets|
  {
    hide ReadPacket, PartialBytes;
    if packets == [] {
      assert PartialBytes(u) + [] == PartialBytes(u);
      assert Wire([]) + PartialBytes(u) == PartialBytes(u);
    } else {
      var first, rest := ReadPacket(u, packets[0]), packets[1..];
      ReadPacketConserves(u, packets[0]);
      if first.ok {
        ReadingConserves(first.unfinished, rest);
        var later := ReadPackets(first.unfinished, rest);
        WireConcat(first.frames, later.frames);
        Associate(PartialBytes(u), packets[0], Concat(rest));
        Associate(Wire(first.frames), PartialBytes(first.unfinished), Concat(rest));
        Associate(Wire(first.frames), Wire(later.frames), PartialBytes(later.unfinished));
      }
    }
  }

  // ----- Independence of the cuts -----

  /** The header tells where a frame ends, so a byte stream splits into frames in one way only. */
  lemma {:induction false} SplitIsUnique(a: seq<Frame>, u: Option<Frame>, b: seq<Frame>, v: Option<Frame>)
    requires AllWholeFrames(a) && Partial(u)
    requires AllWholeFrames(b) && Partial(v)
    requires Wire(a) + PartialBytes(u) == Wire(b) + PartialBytes(v)
    ensures a == b && u == v
  {
    if a == [] && b == [] {
      assert Wire(a) + PartialBytes(u) == PartialBytes(u) && Wire(b) + PartialBytes(v) == PartialBytes(v);
      if u.Some? && v.Some? { SameBytesSameFrame(u.value, v.value, [], []); }
    } else if a == [] {
      assert Wire(a) + PartialBytes(u) == PartialBytes(u);
      FirstFrame(b, PartialBytes(v));
      PartialIsNoFrame(u, b[0], Wire(b[1..]) + PartialBytes(v));
    } else if b == [] {
      assert Wire(b) + PartialBytes(v) == PartialBytes(v);
      FirstFrame(a, PartialBytes(u));
      PartialIsNoFrame(v, a[0], Wire(a[1..]) + PartialBytes(u));
    } else {
      FirstFrame(a, PartialBytes(u));
      FirstFrame(b, PartialBytes(v));
      assert WholeFrame(a[0]) && WholeFrame(b[0]);
      SameBytesSameFrame(a[0], b[0], Wire(a[1..]) + PartialBytes(u), Wire(b[1..]) + PartialBytes(v));
      SplitIsUnique(a[1..], u, b[1..], v);
      assert a == [a[0]] + a[1..] && b == [b[0]] + b[1..];
    }
  }

  lemma FirstFrame(a: seq<Frame>, tail: seq<uint8>)
    requires a != []
    ensures Wire(a) + tail == PackedFrame(a[0]) + (Wire(a[1..]) + tail)
  {
    hide PackedFrame;
    Associate(PackedFrame(a[0]), Wire(a[1..]), tail);
  }

  lemma SameHeader(f: Frame, g: Frame, x: seq<uint8>, y: seq<uint8>)
    requires PackedFrame(f) + x == PackedFrame(g) + y && f.length < 0x100_0000 && g.length < 0x100_0000
    ensures f.(data := []) == g.(data := []) && f.data + x == g.data + y
  {
    hide PackedHeader, UnpackedHeader;
    Associate(PackedHeader(f), f.data, x);
    Associate(PackedHeader(g), g.data, y);
    var s := PackedHeader(f) + (f.data + x);
    assert s[..HTTP2_FRAME_SIZE] == PackedHeader(f) == PackedHeader(g);
    assert s[HTTP2_FRAME_SIZE..] == f.data + x == g.data + y;
    HeaderRoundTrip(f, f.data + x);
    HeaderRoundTrip(g, g.data + y);
  }

  lemma SameBytesSameFrame(f: Frame, g: Frame, x: seq<uint8>, y: seq<uint8>)
    requires PackedFrame(f) + x == PackedFrame(g) + y && f.length < 0x100_0000 && g.length < 0x100_0000
    requires (WholeFrame(f) && WholeFrame(g)) || (x == [] && y == [])
    ensures f == g && x == y
  {
    SameHeader(f, g, x, y);
    hide PackedFrame;
    assert (f.data + x)[..|f.data|] == f.data && (g.data + y)[..|g.data|] == g.data;
    assert (f.data + x)[|f.data|..] == x && (g.data + y)[|g.data|..] == y;
  }

  lemma PartialIsNoFrame(u: Option<Frame>, g: Frame, y: seq<uint8>)
    requires Partial(u) && WholeFrame(g)
    ensures PartialBytes(u) != PackedFrame(g) + y
  {
    if PartialBytes(u) == PackedFrame(g) + y {
      assert u.Some?;
      assert PackedFrame(u.value) + [] == PackedFrame(u.value);
      SameHeader(u.value, g, [], y);
    }
  }

  /** Two ways of cutting the same bytes into packets, if both are read without error, give the same frames. */
  lemma CutsDoNotMatter(packets: seq<seq<uint8>>, packets': seq<seq<uint8>>)
    requires Concat(packets) == Concat(packets')
    requires ReadPackets(None, packets).ok && ReadPackets(None, packets').ok
    ensures ReadPackets(None, packets) == ReadPackets(None, packets')
  {
    hide ReadPackets, Concat;
    ReadingConserves(None, packets);
    ReadingConserves(None, packets');
    var r, r' := ReadPackets(None, packets), ReadPackets(None, packets');
    SplitIsUnique(r.frames, r.unfinished, r'.frames, r'.unfinished);
  }

  // ----- Exactly which cuts are read -----

  /** Whether byte `c` of the frames' wire lies strictly inside one of the nine-byte headers. */
  predicate InsideHeader(frames: seq<Frame>, c: nat) {
    frames != []
    && (0 < c < HTTP2_FRAME_SIZE
        || (c >= |PackedFrame(frames[0])| && InsideHeader(frames[1..], c - |PackedFrame(frames[0])|)))
  }

  /** None of the packets, the first of which starts at byte `c`, starts or ends inside a header. */
  predicate NoHeaderIsCut(frames: seq<Frame>, c: nat, packets: seq<seq<uint8>>)
    decreases |packets|
  {
    && !InsideHeader(frames, c)
    && (packets != [] ==> NoHeaderIsCut(frames, c + |packets[0]|, packets[1..]))
  }

  /** The reader stands inside the payload of the first frame, or at a frame boundary. */
  ghost predicate StandsIn(frames: seq<Frame>, u: Option<Frame>) {
    u.Some? ==>
      && frames != [] && |u.value.data| < |frames[0].data|
      && u.value == frames[0].(data := frames[0].data[..|u.value.data|])
  }

  lemma InsideFirstFrame(frames: seq<Frame>, c: nat)
    requires frames != []
    ensures c < |PackedFrame(frames[0])| ==> (InsideHeader(frames, c) <==> 0 < c < HTTP2_FRAME_SIZE)
    ensures forall later: nat :: c == |PackedFrame(frames[0])| + later ==>
              InsideHeader(frames, c) == InsideHeader(frames[1..], later)
  {
  }

  lemma CutsFrom(frames: seq<Frame>, c: nat, packets: seq<seq<uint8>>)
    ensures NoHeaderIsCut(frames, c, packets) ==> !InsideHeader(frames, c)
    ensures packets != [] ==>
              (NoHeaderIsCut(frames, c, packets) <==>
               !InsideHeader(frames, c) && NoHeaderIsCut(frames, c + |packets[0]|, packets[1..]))
  {
    hide InsideHeader;
  }

  lemma NotInsideHeader(frames: seq<Frame>, u: Option<Frame>)
    requires StandsIn(frames, u)
    ensures !InsideHeader(frames, |PartialBytes(u)|)
  {
  }

  /** Cutting the first frame off the front of a packet. */
  lemma CutFirst(a: seq<uint8>, packet: seq<uint8>, tail: seq<uint8>, first: seq<uint8>, later: seq<uint8>)
    requires a + (packet + tail) == first + later && |a| <= |first| <= |a| + |packet|
    ensures packet[|first| - |a|..] + tail == later
  {
    var n := |first| - |a|;
    assert (a + (packet + tail))[|first|..] == packet[n..] + tail;
    assert (first + later)[|first|..] == later;
  }

  lemma LaterAreWhole(frames: seq<Frame>, j: nat)
    requires AllWholeFrames(frames) && j <= |frames|
    ensures AllWholeFrames(frames[j..])
  {
  }

  lemma TakeMore(frames: seq<Frame>, i: nat)
    requires frames != [] && i < |frames|
    ensures frames[..i + 1] == [frames[0]] + frames[1..][..i] && frames[i + 1..] == frames[1..][i..]
    ensures Wire(frames[..i + 1]) == PackedFrame(frames[0]) + Wire(frames[1..][..i])
  {
    hide PackedFrame;
    assert frames[..i + 1][1..] == frames[1..][..i];
  }

  /** One read, from where the reader stands. */
  lemma ReadStepFrom(frames: seq<Frame>, u: Option<Frame>, packet: seq<uint8>, tail: seq<uint8>)
    requires AllWholeFrames(frames) && StandsIn(frames, u) && Partial(u) && packet != []
    requires PartialBytes(u) + (packet + tail) == Wire(frames)
    ensures frames != []
    ensures var f, c := frames[0], |PartialBytes(u)|;
            var end := c + |packet|;
            ReadStep(u, packet) ==
            if end < HTTP2_FRAME_SIZE then Read(Failed(BadHeader), None, 0)
            else if end < |PackedFrame(f)| then
              Read(Failed(InsufficientData), Some(f.(data := f.data[..end - HTTP2_FRAME_SIZE])), |packet|)
            else Read(Complete(f), None, |PackedFrame(f)| - c)
  {
    assert |Wire(frames)| > 0;
    var f, n, s := frames[0], |packet|, Wire(frames);
    assert f in frames;
    assert s == PackedFrame(f) + Wire(frames[1..]);
    hide Wire, PackedHeader, UnpackedHeader, AllWholeFrames;
    if u.Some? {
      var k := |u.value.data|;
      assert packet[0..] == packet == s[HTTP2_FRAME_SIZE + k..HTTP2_FRAME_SIZE + k + n];
      FillFrom(f, packet, k, 0, s);
    } else if n >= HTTP2_FRAME_SIZE {
      assert packet == s[..n];
      var rest := s[HTTP2_FRAME_SIZE..n];
      assert s[..HTTP2_FRAME_SIZE] == PackedHeader(f);
      assert packet == PackedHeader(f) + rest;
      HeaderRoundTrip(f, rest);
      assert f.data[..0] == [];
      FillFrom(f, packet, 0, HTTP2_FRAME_SIZE, s);
    }
  }

  /** Filling a payload of which `k` bytes are there, when the data continue the frame's wire. */
  lemma FillFrom(f: Frame, data: seq<uint8>, k: nat, pos: nat, s: seq<uint8>)
    requires WholeFrame(f) && k <= |f.data| && pos <= |data| && PackedFrame(f) <= s
    requires HTTP2_FRAME_SIZE + k + (|data| - pos) <= |s|
    requires data[pos..] == s[HTTP2_FRAME_SIZE + k..HTTP2_FRAME_SIZE + k + (|data| - pos)]
    ensures var m := k + (|data| - pos);
            Fill(f.(data := f.data[..k]), data, pos) ==
            if m < |f.data| then Read(Failed(InsufficientData), Some(f.(data := f.data[..m])), |data|)
            else Read(Complete(f), None, pos + (|f.data| - k))
  {
    var n := Min(|data| - pos, |f.data| - k);
    assert s[HTTP2_FRAME_SIZE..HTTP2_FRAME_SIZE + |f.data|] == f.data;
    assert data[pos..pos + n] == data[pos..][..n] == s[HTTP2_FRAME_SIZE + k..HTTP2_FRAME_SIZE + k + n];
    assert data[pos..pos + n] == f.data[k..k + n];
    assert f.data[..k] + f.data[k..k + n] == f.data[..k + n];
    assert f.data[..|f.data|] == f.data;
  }

  /** A run over `bytes` bytes has emitted the first `j` frames and stands in the next. */
  ghost predicate Reached(frames: seq<Frame>, bytes: nat, r: Run, j: nat) {
    && j <= |frames| && r.frames == frames[..j]
    && bytes == |Wire(frames[..j])| + |PartialBytes(r.unfinished)|
    && StandsIn(frames[j..], r.unfinished)
  }

  lemma ReachedNow(frames: seq<Frame>, u: Option<Frame>)
    requires StandsIn(frames, u)
    ensures Reached(frames, |PartialBytes(u)|, Run([], u, true), 0)
  {
    assert frames[0..] == frames && Wire(frames[..0]) == [];
  }

  lemma ReachedLater(frames: seq<Frame>, bytes: nat, r: Run, i: nat, end: nat)
    requires frames != [] && Reached(frames[1..], bytes, r, i) && end == |PackedFrame(frames[0])| + bytes
    ensures Reached(frames, end, r.(frames := [frames[0]] + r.frames), i + 1)
  {
    hide PackedFrame, StandsIn;
    TakeMore(frames, i);
  }

  /** A packet, from where the reader stands to position `end` of the wire. */
  lemma {:induction false} ReadPacketFrom(frames: seq<Frame>, u: Option<Frame>, packet: seq<uint8>, tail: seq<uint8>,
                                          end: nat) returns (j: nat)
    requires AllWholeFrames(frames) && StandsIn(frames, u) && Partial(u)
    requires PartialBytes(u) + (packet + tail) == Wire(frames) && end == |PartialBytes(u)| + |packet|
    ensures var r := ReadPacket(u, packet);
            && (r.ok <==> !InsideHeader(frames, end))
            && (r.ok ==> Reached(frames, end, r, j))
    decreases |packet|
  {
    if packet != [] { SomeFrame(frames, PartialBytes(u), packet, tail); }
    hide AllWholeFrames, Reached, Wire, PackedFrame, StandsIn, PartialBytes, ReadPacket;
    if packet == [] || end < |PackedFrame(frames[0])| {
      j := 0;
      ReadPartOfFrame(frames, u, packet, tail, end);
    } else {
      var f, r := frames[0], ReadStep(u, packet);
      ReadStepFrom(frames, u, packet, tail);
      InsideFirstFrame(frames, end);
      ReadPacketOnce(u, packet);
      hide ReadStep, InsideHeader;
      WireFirst(frames);
      CutFirst(PartialBytes(u), packet, tail, PackedFrame(f), Wire(frames[1..]));
      LaterAreWhole(frames, 1);
      var rest, later := packet[r.consumed..], end - |PackedFrame(f)|;
      NoneStands(frames[1..], rest + tail);
      j := ReadPacketFrom(frames[1..], None, rest, tail, later);
      var run := ReadPacket(None, rest);
      if run.ok { ReachedLater(frames, later, run, j, end); }
      j := j + 1;
    }
  }

  lemma SomeFrame(frames: seq<Frame>, before: seq<uint8>, packet: seq<uint8>, tail: seq<uint8>)
    requires packet != [] && before + (packet + tail) == Wire(frames)
    ensures frames != []
  {
  }

  /** A packet that does not complete the first frame. */
  lemma ReadPartOfFrame(frames: seq<Frame>, u: Option<Frame>, packet: seq<uint8>, tail: seq<uint8>, end: nat)
    requires AllWholeFrames(frames) && StandsIn(frames, u) && Partial(u)
    requires PartialBytes(u) + (packet + tail) == Wire(frames) && end == |PartialBytes(u)| + |packet|
    requires packet == [] || (frames != [] && end < |PackedFrame(frames[0])|)
    ensures var r := ReadPacket(u, packet);
            && (r.ok <==> !InsideHeader(frames, end))
            && (r.ok ==> Reached(frames, end, r, 0))
  {
    hide AllWholeFrames, Reached, Wire, PackedFrame, StandsIn, PartialBytes;
    if packet == [] {
      NotInsideHeader(frames, u);
      ReachedNow(frames, u);
    } else {
      ReadStepFrom(frames, u, packet, tail);
      ReadPacketOnce(u, packet);
      var r := ReadStep(u, packet);
      InsideFirstFrame(frames, end);
      hide ReadStep, ReadPacket, InsideHeader;
      if r.result == Failed(InsufficientData) {
        PartialStands(frames, end - HTTP2_FRAME_SIZE);
        ReachedNow(frames, r.unfinished);
      }
    }
  }

  lemma ReadPacketOnce(u: Option<Frame>, packet: seq<uint8>)
    requires Partial(u) && packet != []
    ensures var r := ReadStep(u, packet);
            ReadPacket(u, packet) ==
            match r.result
            case Complete(f) =>
              var rest := ReadPacket(None, packet[r.consumed..]);
              rest.(frames := [f] + rest.frames)
            case Failed(state) => Run([], r.unfinished, state == InsufficientData)
  {
    hide ReadStep;
  }

  lemma ReadPacketsOnce(u: Option<Frame>, packets: seq<seq<uint8>>)
    requires Partial(u) && packets != []
    ensures var first := ReadPacket(u, packets[0]);
            ReadPackets(u, packets) ==
            if !first.ok then first
            else
              var rest := ReadPackets(first.unfinished, packets[1..]);
              rest.(frames := first.frames + rest.frames)
  {
    hide ReadPacket;
  }

  lemma PartialStands(frames: seq<Frame>, n: nat)
    requires frames != [] && n < |frames[0].data|
    ensures var u := Some(frames[0].(data := frames[0].data[..n]));
            StandsIn(frames, u) && |PartialBytes(u)| == HTTP2_FRAME_SIZE + n
  {
  }

  lemma WireFirst(frames: seq<Frame>)
    requires frames != []
    ensures Wire(frames) == PackedFrame(frames[0]) + Wire(frames[1..])
  {
  }

  lemma NoneStands(frames: seq<Frame>, bytes: seq<uint8>)
    ensures StandsIn(frames, None) && PartialBytes(None) + bytes == bytes
  {
  }

  lemma {:induction false} InsideLaterHeader(frames: seq<Frame>, j: nat, c: nat)
    requires j <= |frames| && |Wire(frames[..j])| <= c
    ensures InsideHeader(frames, c) == InsideHeader(frames[j..], c - |Wire(frames[..j])|)
  {
    if j == 0 {
      assert frames[0..] == frames && frames[..0] == [];
    } else {
      assert frames[..j][1..] == frames[1..][..j - 1] && frames[j..] == frames[1..][j - 1..];
      InsideLaterHeader(frames[1..], j - 1, c - |PackedFrame(frames[0])|);
    }
  }

  lemma {:induction false} CutsShift(frames: seq<Frame>, j: nat, c: nat, later: nat, packets: seq<seq<uint8>>)
    requires j <= |frames| && c == |Wire(frames[..j])| + later
    ensures NoHeaderIsCut(frames, c, packets) == NoHeaderIsCut(frames[j..], later, packets)
    decreases |packets|
  {
    hide InsideHeader, Wire;
    InsideLaterHeader(frames, j, c);
    if packets != [] { CutsShift(frames, j, c + |packets[0]|, later + |packets[0]|, packets[1..]); }
  }

  /** Packets, from where the reader stands at position `start` of the wire. */
  lemma {:induction false} ReadPacketsFrom(frames: seq<Frame>, u: Option<Frame>, packets: seq<seq<uint8>>, start: nat)
    requires AllWholeFrames(frames) && StandsIn(frames, u) && Partial(u)
    requires PartialBytes(u) + Concat(packets) == Wire(frames) && start == |PartialBytes(u)|
    ensures var r := ReadPackets(u, packets);
            && (r.ok <==> NoHeaderIsCut(frames, start, packets))
            && (r.ok ==> r.frames == frames && r.unfinished == None)
    decreases |packets|
  {
    hide *;
    NotInsideHeader(frames, u);
    CutsFrom(frames, start, packets);
    if packets == [] {
      NoMorePackets(frames, u);
    } else {
      var packet, rest := packets[0], packets[1..];
      var end := start + |packet|;
      ConcatFirst(packets);
      ReadPacketsOnce(u, packets);
      var j := ReadPacketFrom(frames, u, packet, Concat(rest), end);
      var r := ReadPacket(u, packet);
      CutsFrom(frames, end, rest);
      if r.ok {
        ReachedIs(frames, end, r, j);
        ReadPacketConserves(u, packet);
        RestOfWire(frames, j, PartialBytes(u), packet, Concat(rest), PartialBytes(r.unfinished));
        LaterAreWhole(frames, j);
        var next := |PartialBytes(r.unfinished)|;
        CutsShift(frames, j, end, next, rest);
        ReadPacketsFrom(frames[j..], r.unfinished, rest, next);
        assert frames[..j] + frames[j..] == frames;
      }
    }
  }

  lemma ConcatFirst(packets: seq<seq<uint8>>)
    requires packets != []
    ensures Concat(packets) == packets[0] + Concat(packets[1..])
  {
  }

  lemma ReachedIs(frames: seq<Frame>, bytes: nat, r: Run, j: nat)
    requires Reached(frames, bytes, r, j)
    ensures j <= |frames| && r.frames == frames[..j] && StandsIn(frames[j..], r.unfinished)
    ensures bytes == |Wire(frames[..j])| + |PartialBytes(r.unfinished)|
  {
    hide StandsIn, Wire, PartialBytes;
  }

  lemma NoMorePackets(frames: seq<Frame>, u: Option<Frame>)
    requires StandsIn(frames, u) && Partial(u) && PartialBytes(u) + Concat([]) == Wire(frames)
    ensures NoHeaderIsCut(frames, |PartialBytes(u)|, [])
    ensures ReadPackets(u, []) == Run([], u, true) && frames == [] && u == None
  {
    assert PartialBytes(u) + [] == PartialBytes(u);
    CutsEnd(frames, u);
    AtTheEnd(frames, u);
    hide Wire, StandsIn;
  }

  lemma CutsEnd(frames: seq<Frame>, u: Option<Frame>)
    requires StandsIn(frames, u)
    ensures NoHeaderIsCut(frames, |PartialBytes(u)|, [])
  {
    NotInsideHeader(frames, u);
  }

  /** What is left of the wire once `j` frames and the bytes `after` of the next have been read. */
  lemma RestOfWire(frames: seq<Frame>, j: nat, before: seq<uint8>, packet: seq<uint8>, rest: seq<uint8>, after: seq<uint8>)
    requires j <= |frames| && before + (packet + rest) == Wire(frames)
    requires before + packet == Wire(frames[..j]) + after
    ensures after + rest == Wire(frames[j..])
  {
    hide Wire;
    WireConcat(frames[..j], frames[j..]);
    assert frames[..j] + frames[j..] == frames;
    var first := Wire(frames[..j]);
    Associate(before, packet, rest);
    Associate(first, after, rest);
    assert (first + (after + rest))[|first|..] == after + rest;
    assert (first + Wire(frames[j..]))[|first|..] == Wire(frames[j..]);
  }

  lemma AtTheEnd(frames: seq<Frame>, u: Option<Frame>)
    requires StandsIn(frames, u) && PartialBytes(u) == Wire(frames)
    ensures frames == [] && u == None
  {
  }

  /**
   * However the wire of whole frames is cut into packets, exactly those frames come out, in order and
   * with nothing left over, if and only if no packet boundary lies strictly inside a frame header.
   */
  lemma ReassemblyIsExact(frames: seq<Frame>, packets: seq<seq<uint8>>)
    requires AllWholeFrames(frames) && Concat(packets) == Wire(frames)
    ensures var r := ReadPackets(None, packets);
            && (r.ok <==> NoHeaderIsCut(frames, 0, packets))
            && (r.ok <==> r == Run(frames, None, true))
  {
    NoneStands(frames, Concat(packets));
    ReadPacketsFrom(frames, None, packets, 0);
  }
}
