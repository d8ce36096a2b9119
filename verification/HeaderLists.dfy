/**
 * Where the header lists of a connection come from (src/protocols/h2/connection.cpp and hpack.cpp).
 *
 * Decoded headers gather in the connection's one parser, not in a stream, and only a finished block
 * takes them out.  So a list holds what every HEADERS and CONTINUATION frame since the last finished
 * block has contributed, on whatever stream, and also when its block was refused.
 */
module HeaderLists {
  import opened Options
  import opened Bits
  import opened Huffman
  import opened VariableInteger
  import opened Frames
  import opened HpackStatics
  import opened HpackParser
  import opened HpackGrammar
  import opened Uri
  import opened Http2

  /** What one frame has added to the decoded headers. */
  datatype Piece = Piece(streamId: uint32, headers: seq<Header>)

  predicate HasBlock(e: Event) {
    e.Got? && (e.frame.kind == HEADERS || e.frame.kind == CONTINUATION)
  }

  /** The parser's tables after a history, told by its frames. */
  ghost function TablesAfter(t: Table, hasZero: bool, events: seq<Event>): Decoder {
    if events == [] then Decoder([], [], hasZero)
    else
      var before, e := TablesAfter(t, hasZero, events[..|events| - 1]), events[|events| - 1];
      if HasBlock(e) then Blank(ParsedFrame(t, Blank(before), e.frame).d) else before
  }

  /** The pieces since the last finished block. */
  ghost function Pieces(t: Table, hasZero: bool, events: seq<Event>): seq<Piece> {
    if events == [] then []
    else
      var init, e := events[..|events| - 1], events[|events| - 1];
      var before := Pieces(t, hasZero, init);
      if HasBlock(e) then
        before + [Piece(e.frame.streamId, ParsedFrame(t, Blank(TablesAfter(t, hasZero, init)), e.frame).d.decoded)]
      else if e.HeadersDone? then []
      else before
  }

  function AllHeaders(pieces: seq<Piece>): seq<Header> {
    if pieces == [] then [] else AllHeaders(pieces[..|pieces| - 1]) + pieces[|pieces| - 1].headers
  }

  /** The headers that came on stream `id`. */
  function OwnHeaders(pieces: seq<Piece>, id: uint32): seq<Header> {
    if pieces == [] then []
    else
      var last := pieces[|pieces| - 1];
      OwnHeaders(pieces[..|pieces| - 1], id) + if last.streamId == id then last.headers else []
  }

  lemma AfterOne(t: Table, hasZero: bool, events: seq<Event>, e: Event)
    ensures HasBlock(e) ==>
              var r := ParsedFrame(t, Blank(TablesAfter(t, hasZero, events)), e.frame);
              && TablesAfter(t, hasZero, events + [e]) == Blank(r.d)
              && Pieces(t, hasZero, events + [e]) == Pieces(t, hasZero, events) + [Piece(e.frame.streamId, r.d.decoded)]
    ensures !HasBlock(e) ==> TablesAfter(t, hasZero, events + [e]) == TablesAfter(t, hasZero, events)
    ensures !HasBlock(e) ==> Pieces(t, hasZero, events + [e]) == if e.HeadersDone? then [] else Pieces(t, hasZero, events)
  {
    hide ParsedFrame;
    assert (events + [e])[..|events|] == events;
  }

  lemma AllHeadersMore(pieces: seq<Piece>, p: Piece)
    ensures AllHeaders(pieces + [p]) == AllHeaders(pieces) + p.headers
  {
    assert (pieces + [p])[..|pieces|] == pieces;
  }

  /** A finished list: everything contributed since the last one, ending with a frame on its own stream. */
  ghost predicate ListIsGathered(t: Table, hasZero: bool, events: seq<Event>, i: nat)
    requires i < |events| && events[i].HeadersDone?
  {
    && 0 < i && HasBlock(events[i - 1]) && events[i - 1].frame.streamId == events[i].streamId
    && events[i].headers == AllHeaders(Pieces(t, hasZero, events[..i]))
  }

  ghost predicate ListsAreGathered(t: Table, hasZero: bool, events: seq<Event>) {
    forall i :: 0 <= i < |events| && events[i].HeadersDone? ==> ListIsGathered(t, hasZero, events, i)
  }

  /** The invariant: the parser holds its tables and the pieces not yet taken out. */
  ghost predicate Gathering(t: Table, hasZero: bool, c: Conn, events: seq<Event>) {
    && c.hpack == TablesAfter(t, hasZero, events).(decoded := AllHeaders(Pieces(t, hasZero, events)))
    && ListsAreGathered(t, hasZero, events)
  }

  lemma GatheredAfterOne(t: Table, hasZero: bool, events: seq<Event>, e: Event)
    requires ListsAreGathered(t, hasZero, events)
    requires e.HeadersDone? ==>
               && events != [] && HasBlock(events[|events| - 1])
               && events[|events| - 1].frame.streamId == e.streamId
               && e.headers == AllHeaders(Pieces(t, hasZero, events))
    ensures ListsAreGathered(t, hasZero, events + [e])
  {
    hide Pieces, AllHeaders;
    var all := events + [e];
    forall i | 0 <= i < |all| && all[i].HeadersDone? ensures ListIsGathered(t, hasZero, all, i) {
      assert all[..i] == if i < |events| then events[..i] else events;
      if i < |events| { assert ListIsGathered(t, hasZero, events, i); }
    }
  }

  /** An event that brings no block and finishes none. */
  lemma GatheringIgnores(t: Table, hasZero: bool, c: Conn, c': Conn, events: seq<Event>, e: Event)
    requires Gathering(t, hasZero, c, events) && c'.hpack == c.hpack && !HasBlock(e) && !e.HeadersDone?
    ensures Gathering(t, hasZero, c', events + [e])
  {
    hide TablesAfter, Pieces, AllHeaders, ListsAreGathered;
    AfterOne(t, hasZero, events, e);
    GatheredAfterOne(t, hasZero, events, e);
  }

  /** A block, finished or not, adds its piece. */
  lemma GatheringBlock(t: Table, hasZero: bool, c: Conn, c': Conn, events: seq<Event>, f: Frame)
    requires Gathering(t, hasZero, c, events) && HasBlock(Got(f)) && c'.hpack == ParsedFrame(t, c.hpack, f).d
    ensures Gathering(t, hasZero, c', events + [Got(f)])
  {
    hide TablesAfter, Pieces, AllHeaders, ListsAreGathered, ParsedFrame;
    var e := Got(f);
    AfterOne(t, hasZero, events, e);
    GatheredAfterOne(t, hasZero, events, e);
    FrameIgnoresDecoded(t, c.hpack, f);
    var d := TablesAfter(t, hasZero, events);
    assert Blank(c.hpack) == Blank(d);
    AllHeadersMore(Pieces(t, hasZero, events), Piece(f.streamId, ParsedFrame(t, Blank(d), f).d.decoded));
  }

  /** A finished block takes out the pieces. */
  lemma GatheringDone(t: Table, hasZero: bool, c: Conn, c': Conn, events: seq<Event>, id: uint32)
    requires Gathering(t, hasZero, c, events) && c'.hpack == Blank(c.hpack)
    requires events != [] && HasBlock(events[|events| - 1]) && events[|events| - 1].frame.streamId == id
    ensures Gathering(t, hasZero, c', events + [HeadersDone(id, c.hpack.decoded)])
  {
    hide TablesAfter, Pieces, ListsAreGathered;
    var e := HeadersDone(id, c.hpack.decoded);
    AfterOne(t, hasZero, events, e);
    GatheredAfterOne(t, hasZero, events, e);
  }

  lemma FrameStepGathers(t: Table, hasZero: bool, c: Conn, f: Frame, consumed: nat, events: seq<Event>)
    requires Gathering(t, hasZero, c, events)
    ensures var p := FrameStep(t, c, f, consumed); Gathering(t, hasZero, p.conn, events + p.events)
  {
    var p := FrameStep(t, c, f, consumed);
    hide Gathering;
    if HasBlock(Got(f)) {
      var s := StreamOf(c, f.streamId);
      assert Gathering(t, hasZero, WithStream(c, s), events) by { GatheringSame(t, hasZero, c, WithStream(c, s), events); }
      HeadersStepGathers(t, hasZero, WithStream(c, s), s, f, consumed, events);
    } else {
      OtherStepGathers(t, hasZero, c, f, consumed, events);
    }
  }

  lemma GatheringSame(t: Table, hasZero: bool, c: Conn, c': Conn, events: seq<Event>)
    requires Gathering(t, hasZero, c, events) && c'.hpack == c.hpack
    ensures Gathering(t, hasZero, c', events)
  {
  }

  lemma OtherStepGathers(t: Table, hasZero: bool, c: Conn, f: Frame, consumed: nat, events: seq<Event>)
    requires Gathering(t, hasZero, c, events) && !HasBlock(Got(f))
    ensures var p := FrameStep(t, c, f, consumed); Gathering(t, hasZero, p.conn, events + p.events)
  {
    hide Gathering, ParsedFrame, RequestOf, StreamOf;
    var p := FrameStep(t, c, f, consumed);
    GatheringIgnores(t, hasZero, c, p.conn, events, Got(f));
    if p.events != [Got(f)] {
      var e := p.events[1];
      GatheringIgnores(t, hasZero, p.conn, p.conn, events + [Got(f)], e);
      assert p.events == [Got(f)] + [e];
      Associate(events, [Got(f)], [e]);
    }
  }

  lemma HeadersStepGathers(t: Table, hasZero: bool, c: Conn, s: Stream, f: Frame, consumed: nat, events: seq<Event>)
    requires Gathering(t, hasZero, c, events) && HasBlock(Got(f)) && s.streamId == f.streamId
    ensures var p := HeadersStep(t, c, s, f, consumed); Gathering(t, hasZero, p.conn, events + p.events)
  {
    hide Gathering, ParsedFrame, RequestOf;
    var r, p := ParsedFrame(t, c.hpack, f), HeadersStep(t, c, s, f, consumed);
    var read, got := c.(hpack := r.d), events + [Got(f)];
    GatheringBlock(t, hasZero, c, read, events, f);
    if r.status.Done? {
      var e := HeadersDone(s.streamId, r.d.decoded);
      GatheringDone(t, hasZero, read, p.conn, got, s.streamId);
      if |p.events| == 3 {
        GatheringIgnores(t, hasZero, p.conn, p.conn, got + [e], p.events[2]);
        assert events + p.events == (got + [e]) + [p.events[2]];
      } else {
        assert events + p.events == got + [e];
      }
    } else {
      GatheringSame(t, hasZero, read, p.conn, got);
    }
  }

  // ----- Whose headers a list holds -----

  lemma {:induction false} OwnIsNoMore(pieces: seq<Piece>, id: uint32)
    ensures |OwnHeaders(pieces, id)| <= |AllHeaders(pieces)|
    ensures |OwnHeaders(pieces, id)| == |AllHeaders(pieces)| <==>
            forall k :: 0 <= k < |pieces| && pieces[k].streamId != id ==> pieces[k].headers == []
  {
    if pieces != [] {
      OwnIsNoMore(pieces[..|pieces| - 1], id);
      assert forall k :: 0 <= k < |pieces| - 1 ==> pieces[..|pieces| - 1][k] == pieces[k];
    }
  }

  /** The headers gathered are a stream's own exactly when no frame on another stream has contributed any. */
  lemma {:induction false} GatheredIsOwn(pieces: seq<Piece>, id: uint32)
    ensures AllHeaders(pieces) == OwnHeaders(pieces, id) <==>
            forall k :: 0 <= k < |pieces| && pieces[k].streamId != id ==> pieces[k].headers == []
  {
    OwnIsNoMore(pieces, id);
    if forall k :: 0 <= k < |pieces| && pieces[k].streamId != id ==> pieces[k].headers == [] {
      OthersAddNothing(pieces, id);
    }
  }

  lemma {:induction false} OthersAddNothing(pieces: seq<Piece>, id: uint32)
    requires forall k :: 0 <= k < |pieces| && pieces[k].streamId != id ==> pieces[k].headers == []
    ensures AllHeaders(pieces) == OwnHeaders(pieces, id)
  {
    if pieces != [] {
      OthersAddNothing(pieces[..|pieces| - 1], id);
    }
  }

  // ----- A list that holds another stream's header -----

  /** A frame whose block is one indexed static header. */
  lemma OneIndexed(t: Table, d: Decoder, f: Frame, index: uint8)
    requires 0 < index <= 60 && f.data == [0x80 + index] && (f.flags == 0 || f.flags == 1 || f.flags == 4 || f.flags == 5)
    ensures ParsedFrame(t, d, f)
            == Parsed(d.(decoded := d.decoded + [StaticEntry(index)]), if f.flags == 0 then More else Done)
  {
    FlagsOfFive();
    hide StaticEntry, HasFlag;
    var p := f.data;
    assert StripHeaders(f) == Block(p) by { assert p[0..1] == p; }
    assert DecodedInt(7, p) == Value(index, 1);
    hide DecodedInt;
    var d' := d.(decoded := d.decoded + [StaticEntry(index)]);
    assert Step(t, d, p) == Next(d', 1);
    hide Step;
    assert p[1..] == [];
    assert ParsedBlock(t, d', []) == Parsed(d', Done);
  }

  lemma FlagsOfFive()
    ensures HasFlag(5, END_STREAM) && HasFlag(5, END_HEADERS) && !HasFlag(5, PADDED) && !HasFlag(5, PRIORITY)
    ensures HasFlag(1, END_STREAM) && !HasFlag(1, END_HEADERS) && !HasFlag(1, PADDED) && !HasFlag(1, PRIORITY)
    ensures !HasFlag(4, END_STREAM) && HasFlag(4, END_HEADERS) && !HasFlag(4, PADDED) && !HasFlag(4, PRIORITY)
    ensures !HasFlag(0, END_STREAM) && !HasFlag(0, END_HEADERS) && !HasFlag(0, PADDED) && !HasFlag(0, PRIORITY)
  {
    assert Shr(5, 2) == Shr(2, 1) == 1 && Shr(4, 2) == Shr(2, 1) == 1 && Shr(1, 2) == Shr(0, 1) == 0;
    assert Shr(0, 2) == Shr(0, 1) == 0 && Shr(0, 3) == Shr(0, 2) == 0 && Shr(0, 5) == Shr(0, 4) == Shr(0, 3) == 0;
    assert Shr(5, 3) == Shr(2, 2) == 0 && Shr(4, 3) == Shr(2, 2) == 0 && Shr(1, 3) == Shr(0, 2) == 0;
    assert Shr(5, 5) == Shr(2, 4) == Shr(1, 3) == 0 && Shr(4, 5) == Shr(2, 4) == 0 && Shr(1, 5) == Shr(0, 4) == 0;
  }

  lemma StaticTwoAndFour()
    ensures StaticEntry(2) == Header(Text(":method"), Text("GET")) && StaticEntry(4) == Header(Text(":path"), Text("/"))
  {
  }

  lemma GetOfSlash(get: Header, path: Header)
    requires get == Header(Text(":method"), Text("GET")) && path == Header(Text(":path"), Text("/"))
    ensures var r := RequestOf(Stream(3, [get, path], [])); r.Request? && r.method_ == Get
  {
    hide UriDecoded, QueryParsed, HeaderMap, Find;
    assert Text(":path")[1] != Text(":method")[1];
    var list := [get, path];
    assert list[1..] == [path] && [path][0] == path;
    assert FindHeader(list, Text(":method")) == Some(get.value);
    assert FindHeader(list, Text(":path")) == FindHeader([path], Text(":path")) == Some(path.value);
  }

  /** A frame of one indexed static header, on a connection between header lists or not. */
  lemma OneIndexedStep(t: Table, c: Conn, f: Frame, index: uint8)
    requires 0 < index <= 60 && f.data == [0x80 + index] && (f.flags == 0 || f.flags == 1 || f.flags == 4 || f.flags == 5)
    requires f.kind == HEADERS || f.kind == CONTINUATION
    ensures var s := StreamOf(c, f.streamId);
            var list := c.hpack.decoded + [StaticEntry(index)];
            var listed := s.(headers := list);
            var done := WithStream(c.(hpack := Blank(c.hpack)), listed);
            FrameStep(t, c, f, 10) ==
            if f.flags == 0 then
              Processed(WithStream(c.(hpack := c.hpack.(decoded := list)), s), Returns(MoreInput), 10, [Got(f)])
            else if f.flags == 4 then
              Processed(done, Returns(MoreInput), 10, [Got(f), HeadersDone(f.streamId, list)])
            else EmitRequest(done, listed, 10, [Got(f), HeadersDone(f.streamId, list)])
  {
    OneIndexed(t, c.hpack, f, index);
    BlockStep(t, c, f, 10);
    FlagsOfFive();
    hide ParsedFrame, FrameStep, HasFlag, StaticEntry, RequestOf, EmitRequest;
  }

  /**
   * Headers do cross streams: a block that stream 1 does not finish is finished by stream 3, whose
   * request then carries the method that stream 1 has sent.
   */
  lemma HeadersCrossStreams(t: Table, hasZero: bool)
    ensures var c := Initial(hasZero).(phase := Idle);
            var f, g := Frame(1, HEADERS, 0, 1, [0x82]), Frame(1, HEADERS, 5, 3, [0x84]);
            var p := FrameStep(t, c, f, 10);
            var q := FrameStep(t, p.conn, g, 10);
            var list := [Header(Text(":method"), Text("GET")), Header(Text(":path"), Text("/"))];
            && p.events == [Got(f)]
            && q.events == [Got(g), HeadersDone(3, list), Emitted(RequestOf(Stream(3, list, [])))]
            && RequestOf(Stream(3, list, [])).Request? && RequestOf(Stream(3, list, [])).method_ == Get
  {
    var c := Initial(hasZero).(phase := Idle);
    var f, g := Frame(1, HEADERS, 0, 1, [0x82]), Frame(1, HEADERS, 5, 3, [0x84]);
    StaticTwoAndFour();
    var get, path := StaticEntry(2), StaticEntry(4);
    assert [] + [get] == [get] && [get] + [path] == [get, path];
    hide FrameStep, StaticEntry, RequestOf;
    OneIndexedStep(t, c, f, 2);
    var p := FrameStep(t, c, f, 10);
    OneIndexedStep(t, p.conn, g, 4);
    GetOfSlash(get, path);
  }
}
