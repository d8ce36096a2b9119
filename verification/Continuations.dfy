/**
 * Header blocks cut into HEADERS and CONTINUATION frames, at the connection
 * (src/protocols/h2/connection.cpp; sections 4.3 and 6.10 of RFC 7540).
 *
 * The code takes END_STREAM on the first frame for the end of the block, so a block may be cut exactly if
 * its first frame does not end the stream.
 */
module Continuations {
  import opened Options
  import opened Bits
  import opened Huffman
  import opened Frames
  import opened HpackStatics
  import opened HpackParser
  import opened HpackGrammar
  import opened Reassembly
  import opened Http2
  import opened HeaderLists

  /** `f1` and `f2` carry the two parts of a block that `f` carries uncut; the stream ends as it would uncut. */
  ghost predicate Cut(f1: Frame, f2: Frame, f: Frame, part: seq<uint8>, rest: seq<uint8>) {
    && HasBlock(Got(f1)) && HasBlock(Got(f2)) && HasBlock(Got(f))
    && f1.streamId == f2.streamId == f.streamId
    && StripHeaders(f1) == Block(part) && StripHeaders(f2) == Block(rest) && StripHeaders(f) == Block(part + rest)
    && !HasFlag(f1.flags, END_HEADERS) && HasFlag(f2.flags, END_HEADERS) == HasFlag(f.flags, END_HEADERS)
    && (HasFlag(f.flags, END_STREAM) <==> HasFlag(f1.flags, END_STREAM) || HasFlag(f2.flags, END_STREAM))
  }

  /** Two steps come to the same as one: connection, outcome, header lists and requests. */
  ghost predicate SameAs(p1: Processed, p2: Processed, p: Processed) {
    && p1.outcome.Returns? && p2.conn == p.conn && p2.outcome == p.outcome
    && p1.events != [] && p2.events != [] && p.events != [] && p1.events[1..] + p2.events[1..] == p.events[1..]
  }

  /** A block that goes on in a later frame is treated as if it came uncut, unless its first frame ends the stream. */
  lemma CutBlockIsWhole(t: Table, c: Conn, reps: seq<Representation>, rest: seq<uint8>, f1: Frame, f2: Frame, f: Frame)
    requires AllWhole(reps) && BlockMeaning(t, c.hpack, reps).status.Done?
    requires Cut(f1, f2, f, BlockBytes(reps), rest) && !HasFlag(f1.flags, END_STREAM)
    ensures var p1 := FrameStep(t, c, f1, 0);
            SameAs(p1, FrameStep(t, p1.conn, f2, 0), FrameStep(t, c, f, 0))
  {
    hide *;
    CutIs(f1, f2, f, BlockBytes(reps), rest);
    FragmentsCompose(t, c.hpack, reps, rest, f1, f2, f);
    var s := StreamOf(c, f.streamId);
    var c1 := FirstPart(t, c, f1);
    BlockFrame(t, c1, f2);
    BlockFrame(t, c, f);
    SameBlockSameStep(t, WithStream(c1, s), WithStream(c, s), s, f2, f);
    JustGot(FrameStep(t, c, f1, 0), FrameStep(t, c1, f2, 0), FrameStep(t, c, f, 0), f1);
  }

  lemma CutIs(f1: Frame, f2: Frame, f: Frame, part: seq<uint8>, rest: seq<uint8>)
    requires Cut(f1, f2, f, part, rest)
    ensures HasBlock(Got(f1)) && HasBlock(Got(f2)) && HasBlock(Got(f)) && f1.streamId == f2.streamId == f.streamId
    ensures StripHeaders(f1) == Block(part) && StripHeaders(f2) == Block(rest) && StripHeaders(f) == Block(part + rest)
    ensures !HasFlag(f1.flags, END_STREAM) ==>
              && !EndsBlock(f1) && EndsBlock(f) == EndsBlock(f2)
              && HasFlag(f.flags, END_STREAM) == HasFlag(f2.flags, END_STREAM)
    ensures HasFlag(f2.flags, END_HEADERS) ==> EndsBlock(f) && EndsBlock(f2)
  {
    hide StripHeaders, HasFlag, HasBlock;
  }

  /** A first part only reads: what it leaves differs from the connection before in its parser alone. */
  lemma FirstPart(t: Table, c: Conn, f: Frame) returns (c': Conn)
    requires HasBlock(Got(f)) && ParsedFrame(t, c.hpack, f).status == More
    ensures FrameStep(t, c, f, 0) == Processed(c', Returns(MoreInput), 0, [Got(f)])
    ensures var s := StreamOf(c, f.streamId);
            && c'.hpack == ParsedFrame(t, c.hpack, f).d && StreamOf(c', f.streamId) == s
            && WithStream(c', s).(hpack := c.hpack) == WithStream(c, s)
            && WithStream(c', s).hpack == c'.hpack && WithStream(c, s).hpack == c.hpack
  {
    BlockStep(t, c, f, 0);
    hide ParsedFrame, FrameStep;
    var s := StreamOf(c, f.streamId);
    c' := WithStream(c.(hpack := ParsedFrame(t, c.hpack, f).d), s);
    assert WithStream(c', s).streams == WithStream(c, s).streams;
  }

  lemma JustGot(p1: Processed, p2: Processed, p: Processed, f: Frame)
    requires p1.events == [Got(f)] && p1.outcome.Returns? && p2.conn == p.conn && p2.outcome == p.outcome
    requires p2.events != [] && p.events != [] && p2.events[1..] == p.events[1..]
    ensures SameAs(p1, p2, p)
  {
    assert [Got(f)][1..] + p2.events[1..] == p2.events[1..];
  }

  lemma BlockFrame(t: Table, c: Conn, f: Frame)
    requires HasBlock(Got(f))
    ensures var s := StreamOf(c, f.streamId); FrameStep(t, c, f, 0) == HeadersStep(t, WithStream(c, s), s, f, 0)
  {
    hide HeadersStep, StreamOf;
  }

  /** Connections that differ in the parser only, and frames that are parsed to the same. */
  lemma SameBlockSameStep(t: Table, c: Conn, c': Conn, s: Stream, f: Frame, f': Frame)
    requires c.(hpack := c'.hpack) == c' && ParsedFrame(t, c.hpack, f) == ParsedFrame(t, c'.hpack, f')
    requires HasFlag(f.flags, END_STREAM) == HasFlag(f'.flags, END_STREAM)
    ensures var p, p' := HeadersStep(t, c, s, f, 0), HeadersStep(t, c', s, f', 0);
            && p.conn == p'.conn && p.outcome == p'.outcome
            && p.events != [] && p'.events != [] && p.events[1..] == p'.events[1..]
  {
    hide ParsedFrame, HasFlag, RequestOf, PackedFrame;
  }

  /**
   * So a block whose last part ends it may be cut between representations exactly if the first frame does
   * not carry END_STREAM.
   */
  lemma CutBlockIsWholeExactly(t: Table, c: Conn, reps: seq<Representation>, rest: seq<uint8>,
                               f1: Frame, f2: Frame, f: Frame)
    requires AllWhole(reps) && BlockMeaning(t, c.hpack, reps).status.Done?
    requires Cut(f1, f2, f, BlockBytes(reps), rest) && HasFlag(f2.flags, END_HEADERS)
    ensures var p1 := FrameStep(t, c, f1, 0);
            SameAs(p1, FrameStep(t, p1.conn, f2, 0), FrameStep(t, c, f, 0)) <==> !HasFlag(f1.flags, END_STREAM)
  {
    if HasFlag(f1.flags, END_STREAM) {
      FragmentsCompose(t, c.hpack, reps, rest, f1, f2, f);
      BlockStep(t, c, f1, 0);
      hide ParsedFrame, StripHeaders, HasFlag, RequestOf, PackedFrame, FrameStep, StreamOf;
      var r1, p1 := ParsedFrame(t, c.hpack, f1), FrameStep(t, c, f1, 0);
      assert p1.conn.hpack == Blank(r1.d) && |p1.events| == 3;
      FrameIgnoresDecoded(t, r1.d, f2);
      EventCount(t, p1.conn, f2);
      EventCount(t, c, f);
    } else {
      CutBlockIsWhole(t, c, reps, rest, f1, f2, f);
    }
  }

  /** How many events a header block makes. */
  lemma EventCount(t: Table, c: Conn, f: Frame)
    requires HasBlock(Got(f))
    ensures |FrameStep(t, c, f, 0).events|
            == if !ParsedFrame(t, c.hpack, f).status.Done? then 1 else if HasFlag(f.flags, END_STREAM) then 3 else 2
  {
    BlockFrame(t, c, f);
    hide ParsedFrame, HasFlag, RequestOf, PackedFrame, FrameStep;
  }

  /**
   * A request without body whose header block is cut, with END_STREAM where section 6.2 of RFC 7540 puts
   * it: the first part alone is taken for the request, which fails for want of a path, and the second
   * makes none.
   */
  lemma CutRequestIsLost(t: Table, hasZero: bool)
    ensures var c := Initial(hasZero).(phase := Idle);
            var f1, f2 := Frame(1, HEADERS, 1, 1, [0x82]), Frame(1, CONTINUATION, 4, 1, [0x84]);
            var p1 := FrameStep(t, c, f1, 10);
            var p2 := FrameStep(t, p1.conn, f2, 10);
            && p1.events == [Got(f1), HeadersDone(1, [Header(Text(":method"), Text("GET"))]), Emitted(Failure(1))]
            && p2.events == [Got(f2), HeadersDone(1, [Header(Text(":path"), Text("/"))])]
  {
    var c := Initial(hasZero).(phase := Idle);
    var f1, f2 := Frame(1, HEADERS, 1, 1, [0x82]), Frame(1, CONTINUATION, 4, 1, [0x84]);
    StaticTwoAndFour();
    var get, path := StaticEntry(2), StaticEntry(4);
    assert [] + [get] == [get] && [] + [path] == [path];
    NoPath(get);
    hide FrameStep, StaticEntry, RequestOf;
    OneIndexedStep(t, c, f1, 2);
    OneIndexedStep(t, FrameStep(t, c, f1, 10).conn, f2, 4);
  }

  lemma NoPath(get: Header)
    requires get == Header(Text(":method"), Text("GET"))
    ensures RequestOf(Stream(1, [get], [])) == Failure(1)
  {
    assert Text(":path")[1] != Text(":method")[1];
    assert [get][1..] == [];
    assert FindHeader([get], Text(":path")) == None;
  }
}
