/**
 * Writing a response to an HTTP/2 stream (the handler's callback in src/https.cpp): a HEADERS frame,
 * then the buffers of the body, each sliced into DATA frames.
 */
module Responses {
  import opened Bits
  import opened Huffman
  import opened Frames
  import opened HpackStatics
  import opened HpackGrammar
  import opened HpackSerializer
  import opened HpackRoundTrip
  import opened Reassembly
  import opened Connection

  const SLICE_SIZE := 16384

  datatype Buffer = Buffer(data: seq<uint8>, last: bool)

  // ----- What is written -----

  function Slice(b: Buffer, offset: nat, id: uint32): Frame
    requires offset < |b.data|
  {
    var n := Min(SLICE_SIZE, |b.data| - offset);
    Frame(n, DATA, if offset + n >= |b.data| && b.last then 1 else 0, id, b.data[offset..offset + n])
  }

  function SlicesFrom(b: Buffer, offset: nat, id: uint32): seq<Frame>
    requires offset <= |b.data|
    decreases |b.data| - offset
  {
    if offset == |b.data| then []
    else
      var f := Slice(b, offset, id);
      [f] + SlicesFrom(b, offset + |f.data|, id)
  }

  /** The user's stream of buffers comes to a last one; what may follow it is never looked at. */
  predicate Ends(buffers: seq<Buffer>) {
    buffers != [] && (buffers[0].last || Ends(buffers[1..]))
  }

  function LastBuffer(buffers: seq<Buffer>): (b: Buffer)
    requires Ends(buffers)
    ensures b.last && b in buffers
  {
    if buffers[0].last then buffers[0] else LastBuffer(buffers[1..])
  }

  /** The body: the data of the buffers up to the first that is last. */
  function Content(buffers: seq<Buffer>): seq<uint8>
    requires Ends(buffers)
  {
    buffers[0].data + if buffers[0].last then [] else Content(buffers[1..])
  }

  function BodyFrames(buffers: seq<Buffer>, id: uint32): seq<Frame>
    requires Ends(buffers)
  {
    SlicesFrom(buffers[0], 0, id) + if buffers[0].last then [] else BodyFrames(buffers[1..], id)
  }

  function Decimal(n: nat): seq<uint8> {
    (if n < 10 then [] else Decimal(n / 10)) + [0x30 + n % 10]
  }

  /** The number that decimal digits stand for, read from the left. */
  function DecimalValue(digits: seq<uint8>): int {
    if digits == [] then 0 else 10 * DecimalValue(digits[..|digits| - 1]) + digits[|digits| - 1] - 0x30
  }

  /** Decimal digits for `n`, the first of which is no zero unless it is the only one. */
  ghost predicate Writes(digits: seq<uint8>, n: nat) {
    && digits != [] && (forall b :: b in digits ==> 0x30 <= b <= 0x39)
    && DecimalValue(digits) == n && (digits[0] == 0x30 ==> |digits| == 1)
  }

  lemma OneDigit(b: uint8)
    requires 0x30 <= b <= 0x39
    ensures Writes([b], b - 0x30)
  {
    ValueOfOne([b]);
  }

  lemma ValueOfOne(digits: seq<uint8>)
    requires |digits| == 1
    ensures DecimalValue(digits) == (digits[0] as int) - 0x30
  {
    assert digits[..0] == [];
  }

  lemma OneMoreDigit(digits: seq<uint8>, n: nat, b: uint8)
    requires Writes(digits, n) && n > 0 && 0x30 <= b <= 0x39
    ensures Writes(digits + [b], 10 * n + b - 0x30)
  {
    var all := digits + [b];
    assert all[..|all| - 1] == digits && all[0] == digits[0];
    if |digits| == 1 { ValueOfOne(digits); }
  }

  lemma {:induction false} DecimalWrites(n: nat)
    ensures Writes(Decimal(n), n)
  {
    hide Writes;
    if n < 10 {
      OneDigit(0x30 + n);
      assert Decimal(n) == [0x30 + n];
    } else {
      DecimalWrites(n / 10);
      OneMoreDigit(Decimal(n / 10), n / 10, 0x30 + n % 10);
    }
  }

  function ResponseHeaders(status: nat, headers: seq<Header>): (list: seq<Header>)
    ensures list != []
  {
    [Header(Text(":status"), Decimal(status))] + headers
  }

  /** The list of a response: its status in decimal, and then its headers in order. */
  ghost predicate IsListOf(list: seq<Header>, status: nat, headers: seq<Header>) {
    && |list| == |headers| + 1
    && list[0].key == Text(":status") && Writes(list[0].value, status)
    && list[1..] == headers
  }

  lemma ResponseHeadersAre(status: nat, headers: seq<Header>)
    ensures IsListOf(ResponseHeaders(status, headers), status, headers)
  {
    DecimalWrites(status);
    hide Decimal, Writes, Text;
  }

  /** All the frames of a response. */
  ghost function ResponseFrames(t: Table, list: seq<Header>, ws: seq<Where>, buffers: seq<Buffer>, id: uint32): seq<Frame>
    requires Addressable(t) && |ws| == |list| && Ends(buffers)
  {
    [SentFrame(t, list, ws, id)] + BodyFrames(buffers, id)
  }

  // ----- The methods -----

  method SendSlices(sock: Connection, b: Buffer, id: uint32)
    modifies sock`wire
    ensures sock.wire == old(sock.wire) + Wire(SlicesFrom(b, 0, id))
  {
    hide PackedFrame, Wire;
    var offset := 0;
    while offset < |b.data|
      invariant offset <= |b.data|
      invariant old(sock.wire) + Wire(SlicesFrom(b, 0, id)) == sock.wire + Wire(SlicesFrom(b, offset, id))
    {
      var sliceSize := Min(SLICE_SIZE, |b.data| - offset);
      var flags := if offset + sliceSize >= |b.data| && b.last then 1 else 0;
      var frame := Frame(sliceSize, DATA, flags, id, b.data[offset..offset + sliceSize]);
      NextSlice(sock.wire, b, offset, id);
      // The connection is locked for each frame.
      sock.Write(frame);
      offset := offset + sliceSize;
    }
    NoMoreSlices(sock.wire, b, id);
  }

  lemma NextSlice(before: seq<uint8>, b: Buffer, offset: nat, id: uint32)
    requires offset < |b.data|
    ensures var f := Slice(b, offset, id);
            before + Wire(SlicesFrom(b, offset, id))
            == before + PackedFrame(f) + Wire(SlicesFrom(b, offset + |f.data|, id))
  {
    hide PackedFrame;
    var f := Slice(b, offset, id);
    var rest := SlicesFrom(b, offset + |f.data|, id);
    assert ([f] + rest)[1..] == rest;
    Associate(before, PackedFrame(f), Wire(rest));
  }

  lemma NoMoreSlices(before: seq<uint8>, b: Buffer, id: uint32)
    ensures before + Wire(SlicesFrom(b, |b.data|, id)) == before
  {
  }

  /** Sends buffers until one is last. */
  method SendBody(sock: Connection, buffers: seq<Buffer>, id: uint32)
    requires Ends(buffers)
    modifies sock`wire
    ensures sock.wire == old(sock.wire) + Wire(BodyFrames(buffers, id))
  {
    hide Wire, SlicesFrom, BodyFrames;
    var i := 0;
    var buf := buffers[0];
    assert buffers[0..] == buffers;
    NextBuffer(old(sock.wire), buffers, id);
    SendSlices(sock, buf, id);
    while !buf.last
      invariant i < |buffers| && buf == buffers[i] && Ends(buffers[i..])
      invariant old(sock.wire) + Wire(BodyFrames(buffers, id))
                == sock.wire + Wire(if buf.last then [] else BodyFrames(buffers[i + 1..], id))
      decreases |buffers| - i
    {
      assert buffers[i..][1..] == buffers[i + 1..];
      i := i + 1;
      buf := buffers[i];
      NextBuffer(sock.wire, buffers[i..], id);
      assert buffers[i..][1..] == buffers[i + 1..];
      SendSlices(sock, buf, id);
    }
    assert sock.wire + Wire([]) == sock.wire by { NoBytes(); }
  }

  lemma NoBytes()
    ensures Wire([]) == []
  {
  }

  lemma NextBuffer(before: seq<uint8>, buffers: seq<Buffer>, id: uint32)
    requires Ends(buffers)
    ensures before + Wire(BodyFrames(buffers, id))
            == before + Wire(SlicesFrom(buffers[0], 0, id))
               + Wire(if buffers[0].last then [] else BodyFrames(buffers[1..], id))
  {
    hide Wire, SlicesFrom;
    var first, rest := SlicesFrom(buffers[0], 0, id), if buffers[0].last then [] else BodyFrames(buffers[1..], id);
    WireConcat(first, rest);
    Associate(before, Wire(first), Wire(rest));
  }

  /**
   * The callback that answers stream `id`.  `buffers` are those the user will have put on the response's
   * channel; serialising and finishing the header list counts as one step.
   */
  method Respond(sock: Connection, tx: Serializer, status: nat, headers: seq<Header>, buffers: seq<Buffer>,
                 id: uint32, order: seq<nat>) returns (ghost ws: seq<Where>)
    requires tx.Valid() && tx.payload == [] && Ends(buffers)
    requires forall i :: i in order <==> IsStaticKey(tx.statics.hasZero, i)
    modifies sock`wire, tx
    ensures tx.payload == [] && AllChosen(tx.statics.hasZero, ResponseHeaders(status, headers), ws)
    ensures IsListOf(ResponseHeaders(status, headers), status, headers)
    ensures var frames := ResponseFrames(tx.decoder.encodings, ResponseHeaders(status, headers), ws, buffers, id);
            sock.wire == old(sock.wire) + Wire(frames)
  {
    ghost var t := tx.decoder.encodings;
    assert Addressable(t);
    hide Addressable, BlockBytes, AllWritten, Chooses, IsStaticKey, PackedFrame, Wire, BodyFrames, Serializer.Valid;
    var list := ResponseHeaders(status, headers);
    ResponseHeadersAre(status, headers);
    hide ResponseHeaders, IsListOf;
    ws := tx.Serialize(list, order);
    assert [] + BlockBytes(AllWritten(t, list, ws)) == BlockBytes(AllWritten(t, list, ws));
    var preload := tx.Finish(id);
    FirstOfResponse(sock.wire, preload, BodyFrames(buffers, id));
    sock.Write(preload);
    SendBody(sock, buffers, id);
  }

  lemma FirstOfResponse(before: seq<uint8>, f: Frame, rest: seq<Frame>)
    ensures before + Wire([f] + rest) == before + PackedFrame(f) + Wire(rest)
  {
    hide PackedFrame;
    assert ([f] + rest)[1..] == rest;
    Associate(before, PackedFrame(f), Wire(rest));
  }

  // ----- Conservation -----

  /** The payloads of the DATA frames, in order. */
  function Payloads(frames: seq<Frame>): seq<uint8> {
    if frames == [] then []
    else (if frames[0].kind == DATA then frames[0].data else []) + Payloads(frames[1..])
  }

  lemma {:induction false} PayloadsConcat(a: seq<Frame>, b: seq<Frame>)
    ensures Payloads(a + b) == Payloads(a) + Payloads(b)
  {
    if a == [] {
      assert a + b == b;
    } else {
      ConsConcat(a, b);
      PayloadsConcat(a[1..], b);
      Associate(if a[0].kind == DATA then a[0].data else [], Payloads(a[1..]), Payloads(b));
    }
  }

  /** A DATA frame that a peer accepts: not empty, no longer than a slice, of the length it says. */
  predicate IsSlice(f: Frame, id: uint32) {
    f.kind == DATA && f.streamId == id && 0 < |f.data| == f.length <= 16384
  }

  /** The flag ends the stream on the last frame, when `marked`, and on no other. */
  ghost predicate EndsAt(frames: seq<Frame>, marked: bool) {
    forall i :: 0 <= i < |frames| ==> (HasFlag(frames[i].flags, END_STREAM) <==> marked && i == |frames| - 1)
  }

  ghost predicate AllSlices(frames: seq<Frame>, id: uint32) {
    forall f :: f in frames ==> IsSlice(f, id)
  }

  lemma FlagValues()
    ensures HasFlag(1, END_STREAM) && !HasFlag(0, END_STREAM)
  {
  }

  lemma {:induction false} SlicesConserve(b: Buffer, offset: nat, id: uint32)
    requires offset <= |b.data|
    ensures var frames := SlicesFrom(b, offset, id);
            && Payloads(frames) == b.data[offset..]
            && AllSlices(frames, id) && EndsAt(frames, b.last)
            && (frames == [] <==> offset == |b.data|)
    decreases |b.data| - offset
  {
    FlagValues();
    hide HasFlag;
    if offset < |b.data| {
      var f := Slice(b, offset, id);
      var next := offset + |f.data|;
      SlicesConserve(b, next, id);
      var rest := SlicesFrom(b, next, id);
      assert ([f] + rest)[1..] == rest;
      assert b.data[offset..] == f.data + b.data[next..];
    }
  }

  /** The k-th slice of a buffer holds the k-th 16384 bytes, or what is left of them. */
  lemma {:induction false} SliceAt(b: Buffer, offset: nat, id: uint32, k: nat)
    requires offset <= |b.data|
    ensures var frames := SlicesFrom(b, offset, id);
            && (k < |frames| <==> offset + 16384 * k < |b.data|)
            && (k < |frames| ==>
                  var start := offset + 16384 * k;
                  frames[k].data == b.data[start..Min(start + 16384, |b.data|)])
    decreases k
  {
    if offset < |b.data| && k > 0 {
      var f := Slice(b, offset, id);
      SliceAt(b, offset + |f.data|, id, k - 1);
    }
  }

  /**
   * Whatever the buffers, the frames of a body carry exactly the bytes of the buffers up to the last,
   * each frame is a proper slice, and END_STREAM is on exactly the final frame if the last buffer is
   * not empty, and on none if it is.
   */
  lemma {:induction false} BodyIsConserved(buffers: seq<Buffer>, id: uint32)
    requires Ends(buffers)
    ensures var frames := BodyFrames(buffers, id);
            && Payloads(frames) == Content(buffers)
            && AllSlices(frames, id) && EndsAt(frames, LastBuffer(buffers).data != [])
  {
    var b := buffers[0];
    var first := SlicesFrom(b, 0, id);
    SlicesConserve(b, 0, id);
    assert b.data[0..] == b.data;
    hide SlicesFrom, HasFlag, IsSlice;
    if b.last {
      assert first + [] == first;
    } else {
      var rest := BodyFrames(buffers[1..], id);
      BodyIsConserved(buffers[1..], id);
      PayloadsConcat(first, rest);
      BodyNotEmpty(buffers[1..], id);
      EndsAtConcat(first, rest, LastBuffer(buffers).data != []);
    }
  }

  lemma EndsAtConcat(a: seq<Frame>, b: seq<Frame>, marked: bool)
    requires EndsAt(a, false) && EndsAt(b, marked) && (marked ==> b != [])
    ensures EndsAt(a + b, marked)
  {
    hide HasFlag;
  }

  /** An unfinished stream at the peer: the frames of a body end it if and only if its last buffer is not empty. */
  lemma EndOfStreamIsSent(buffers: seq<Buffer>, id: uint32)
    requires Ends(buffers)
    ensures (exists f :: f in BodyFrames(buffers, id) && HasFlag(f.flags, END_STREAM)) <==> LastBuffer(buffers).data != []
  {
    hide HasFlag;
    BodyIsConserved(buffers, id);
    BodyNotEmpty(buffers, id);
    var frames := BodyFrames(buffers, id);
    if LastBuffer(buffers).data != [] {
      assert frames[|frames| - 1] in frames;
    }
  }

  lemma {:induction false} BodyNotEmpty(buffers: seq<Buffer>, id: uint32)
    requires Ends(buffers)
    ensures LastBuffer(buffers).data != [] ==> BodyFrames(buffers, id) != []
  {
    if !buffers[0].last { BodyNotEmpty(buffers[1..], id); }
  }
}
