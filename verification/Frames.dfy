/**
 * HTTP/2 frames: the nine-byte header (include/protocols/h2.hpp; section 4.1 of RFC 7540) and the
 * payload of HEADERS frames (src/protocols/h2/headers.cpp; section 6.2 of RFC 7540).
 */
module Frames {
  import opened Bits

  const MAX_FRAME_SIZE := 0x40_0000
  const HTTP2_FRAME_SIZE := 9

  // Frame types
  const DATA: uint8 := 0x0
  const HEADERS: uint8 := 0x1
  const SETTINGS: uint8 := 0x4
  const PING: uint8 := 0x6
  const WINDOW_UPDATE: uint8 := 0x8
  const CONTINUATION: uint8 := 0x9

  // Positions of the flag bits
  const END_STREAM := 0
  const ACK := 0
  const END_HEADERS := 2
  const PADDED := 3
  const PRIORITY := 5

  datatype Frame = Frame(length: uint32, kind: uint8, flags: uint8, streamId: uint32, data: seq<uint8>)

  predicate HasFlag(flags: uint8, position: nat) {
    Shr(flags, position) % 2 == 1
  }

  /** Which bit of the flags is which: 0x1 ends the stream or acknowledges, 0x4 ends the headers, and so on. */
  lemma FlagBits(flags: uint8)
    ensures HasFlag(flags, END_STREAM) <==> flags % 2 == 1
    ensures HasFlag(flags, ACK) <==> flags % 2 == 1
    ensures HasFlag(flags, END_HEADERS) <==> flags / 4 % 2 == 1
    ensures HasFlag(flags, PADDED) <==> flags / 8 % 2 == 1
    ensures HasFlag(flags, PRIORITY) <==> flags / 32 % 2 == 1
  {
    assert Shr(flags, 2) == Shr(flags / 2, 1) == flags / 4;
    assert Shr(flags, 3) == Shr(flags / 2, 2) == Shr(flags / 4, 1) == flags / 8;
    assert Shr(flags, 5) == Shr(flags / 2, 4) == Shr(flags / 4, 3) == Shr(flags / 8, 2) == Shr(flags / 16, 1);
  }

  // ----- The frame header -----

  /** The `n` low bytes of a number, most significant first. */
  function ToBigEndian(value: nat, n: nat): (bytes: seq<uint8>)
    ensures |bytes| == n
  {
    if n == 0 then [] else ToBigEndian(value / 0x100, n - 1) + [value % 0x100]
  }

  function FromBigEndian(bytes: seq<uint8>): nat {
    if bytes == [] then 0 else 0x100 * FromBigEndian(bytes[..|bytes| - 1]) + bytes[|bytes| - 1]
  }

  function PackedHeader(f: Frame): (bytes: seq<uint8>)
    ensures |bytes| == HTTP2_FRAME_SIZE
  {
    ToBigEndian(f.length, 3) + [f.kind, f.flags] + ToBigEndian(f.streamId, 4)
  }

  function UnpackedHeader(bytes: seq<uint8>): (f: Frame)
    requires |bytes| >= HTTP2_FRAME_SIZE
    ensures f.length < 0x100_0000 && f.data == []
  {
    FromBigEndianBound(bytes[..3]);
    FromBigEndianBound(bytes[5..9]);
    Frame(FromBigEndian(bytes[..3]), bytes[3], bytes[4], FromBigEndian(bytes[5..9]), [])
  }

  lemma FromBigEndianBound(bytes: seq<uint8>)
    ensures |bytes| == 3 ==> FromBigEndian(bytes) < 0x100_0000
    ensures |bytes| == 4 ==> FromBigEndian(bytes) < 0x1_0000_0000
  {
    hide FromBigEndian;
    if |bytes| == 3 { BigEndianBytes3(bytes); }
    if |bytes| == 4 { BigEndianBytes4(bytes); }
  }

  lemma BigEndianBytes3(b: seq<uint8>)
    requires |b| == 3
    ensures FromBigEndian(b) == 0x1_0000 * (b[0] as int) + 0x100 * (b[1] as int) + b[2]
  {
    assert FromBigEndian(b[..2]) == 0x100 * FromBigEndian(b[..1]) + b[1] by { assert b[..2][..1] == b[..1]; }
    assert FromBigEndian(b[..1]) == b[0];
  }

  lemma BigEndianBytes4(b: seq<uint8>)
    requires |b| == 4
    ensures FromBigEndian(b)
            == 0x100_0000 * (b[0] as int) + 0x1_0000 * (b[1] as int) + 0x100 * (b[2] as int) + b[3]
  {
    BigEndianBytes3(b[..3]);
  }

  lemma {:induction false} ToBigEndianBytes(value: nat)
    ensures ToBigEndian(value, 3) == [value / 0x1_0000 % 0x100, value / 0x100 % 0x100, value % 0x100]
    ensures ToBigEndian(value, 4) == [value / 0x100_0000 % 0x100] + ToBigEndian(value, 3)
  {
    assert value / 0x100 / 0x100 == value / 0x1_0000;
    assert value / 0x1_0000 / 0x100 == value / 0x100_0000;
    assert ToBigEndian(value / 0x1_0000, 1) == [value / 0x1_0000 % 0x100];
    assert ToBigEndian(value / 0x100, 2) == [value / 0x1_0000 % 0x100, value / 0x100 % 0x100];
    assert ToBigEndian(value / 0x1_0000, 2) == [value / 0x100_0000 % 0x100, value / 0x1_0000 % 0x100];
    assert ToBigEndian(value / 0x100, 3) == ToBigEndian(value / 0x1_0000, 2) + [value / 0x100 % 0x100];
  }

  /** The nine bytes of a header: length, type, flags, stream identifier (section 4.1 of RFC 7540). */
  lemma HeaderBytes(f: Frame)
    ensures var n, id := f.length, f.streamId;
            PackedHeader(f) == [n / 0x1_0000 % 0x100, n / 0x100 % 0x100, n % 0x100, f.kind, f.flags,
                                id / 0x100_0000 % 0x100, id / 0x1_0000 % 0x100, id / 0x100 % 0x100, id % 0x100]
  {
    ToBigEndianBytes(f.length);
    ToBigEndianBytes(f.streamId);
    hide ToBigEndian;
  }

  lemma Digits(value: nat)
    ensures value % 0x100_0000
            == 0x1_0000 * (value / 0x1_0000 % 0x100) + 0x100 * (value / 0x100 % 0x100) + value % 0x100
    ensures value < 0x1_0000_0000 ==> value == 0x100_0000 * (value / 0x100_0000 % 0x100) + value % 0x100_0000
  {
    var q := value / 0x100;
    var q' := q / 0x100;
    assert value / 0x1_0000 == q' && value / 0x100_0000 == q' / 0x100;
  }

  lemma {:induction false} BigEndianRoundTrip(value: nat)
    ensures FromBigEndian(ToBigEndian(value, 3)) == value % 0x100_0000
    ensures value < 0x1_0000_0000 ==> FromBigEndian(ToBigEndian(value, 4)) == value
  {
    hide ToBigEndian, FromBigEndian;
    Digits(value);
    ToBigEndianBytes(value);
    BigEndianBytes3(ToBigEndian(value, 3));
    BigEndianBytes4(ToBigEndian(value, 4));
  }

  lemma {:induction false} BytesAreBigEndian(b: seq<uint8>)
    ensures ToBigEndian(FromBigEndian(b), |b|) == b
  {
    if b != [] {
      var init, last := b[..|b| - 1], b[|b| - 1];
      var value := FromBigEndian(b);
      assert value / 0x100 == FromBigEndian(init) && value % 0x100 == last;
      BytesAreBigEndian(init);
      assert b == init + [last];
    }
  }

  /** Writes the header at the front of the caller's buffer, unless that is too small. */
  method Pack(f: Frame, buffer: array<uint8>) returns (ok: bool)
    modifies buffer
    ensures ok == (buffer.Length >= HTTP2_FRAME_SIZE)
    ensures buffer[..] == if ok then PackedHeader(f) + old(buffer[HTTP2_FRAME_SIZE..]) else old(buffer[..])
  {
    if buffer.Length < HTTP2_FRAME_SIZE {
      return false;
    }
    hide ToBigEndian;
    ToBigEndianBytes(f.length);
    ToBigEndianBytes(f.streamId);
    buffer[0] := f.length / 0x1_0000 % 0x100;
    buffer[1] := f.length / 0x100 % 0x100;
    buffer[2] := f.length % 0x100;
    buffer[3] := f.kind;
    buffer[4] := f.flags;
    buffer[5] := f.streamId / 0x100_0000 % 0x100;
    buffer[6] := f.streamId / 0x1_0000 % 0x100;
    buffer[7] := f.streamId / 0x100 % 0x100;
    buffer[8] := f.streamId % 0x100;
    ok := true;
  }

  /** Overwrites the header fields of `f`, unless the buffer is too small. */
  method Unpack(f: Frame, buffer: seq<uint8>) returns (ok: bool, g: Frame)
    ensures ok == (|buffer| >= HTTP2_FRAME_SIZE)
    ensures g == if ok then UnpackedHeader(buffer).(data := f.data) else f
  {
    if |buffer| < HTTP2_FRAME_SIZE {
      return false, f;
    }
    BigEndianBytes3(buffer[..3]);
    BigEndianBytes4(buffer[5..9]);
    hide FromBigEndian;
    var length: int := 0x1_0000 * (buffer[0] as int) + 0x100 * (buffer[1] as int) + buffer[2];
    g := f.(length := length);
    g := g.(kind := buffer[3], flags := buffer[4]);
    var id: int := 0x100_0000 * (buffer[5] as int) + 0x1_0000 * (buffer[6] as int) + 0x100 * (buffer[7] as int) + buffer[8];
    g := g.(streamId := id);
    ok := true;
  }

  /** A header survives packing exactly when its length fits the 24 bits of the wire format. */
  lemma HeaderRoundTrip(f: Frame, tail: seq<uint8>)
    ensures UnpackedHeader(PackedHeader(f) + tail) == f.(length := f.length % 0x100_0000, data := [])
    ensures UnpackedHeader(PackedHeader(f) + tail) == f.(data := []) <==> f.length < 0x100_0000
  {
    var b := PackedHeader(f) + tail;
    assert b[..3] == ToBigEndian(f.length, 3) && b[5..9] == ToBigEndian(f.streamId, 4);
    BigEndianRoundTrip(f.length);
    BigEndianRoundTrip(f.streamId);
  }

  lemma HeaderIsPacked(bytes: seq<uint8>)
    requires |bytes| >= HTTP2_FRAME_SIZE
    ensures PackedHeader(UnpackedHeader(bytes)) == bytes[..HTTP2_FRAME_SIZE]
  {
    BytesAreBigEndian(bytes[..3]);
    BytesAreBigEndian(bytes[5..9]);
    assert bytes[..9] == bytes[..3] + [bytes[3], bytes[4]] + bytes[5..9];
  }

  // ----- The payload of a HEADERS frame -----

  /**
   * `Malformed` is the frame_state that the constructor throws.  `AssertFails` is its assert, which a
   * fragment trips that is empty once pad length, priority and padding are taken off; reads past the
   * end of a shorter payload come before that same assert and cannot change that it fails.
   */
  datatype HeaderBlock = Block(data: seq<uint8>) | Malformed | AssertFails

  function StripHeaders(f: Frame): HeaderBlock {
    var padded := HasFlag(f.flags, PADDED);
    var start := if padded then 1 else 0;
    var padLength := if padded && f.data != [] then f.data[0] else 0;
    if HasFlag(f.flags, PRIORITY) && |f.data| - start < 4 then Malformed
    else
      var pos := if HasFlag(f.flags, PRIORITY) then start + 5 else start;
      if |f.data| - pos > padLength then Block(f.data[pos..|f.data| - padLength]) else AssertFails
  }

  method HeadersPayload(f: Frame) returns (r: HeaderBlock)
    ensures r == StripHeaders(f)
  {
    var pos, padLength := 0, 0;
    if HasFlag(f.flags, PADDED) {
      // Reading the pad length of an empty payload yields some byte; 0 stands for it.
      padLength := if f.data != [] then f.data[0] else 0;
      pos := pos + 1;
    }
    if HasFlag(f.flags, PRIORITY) {
      if |f.data| - pos < 4 {
        return Malformed;
      }
      pos := pos + 4;  // stream dependency
      pos := pos + 1;  // weight
    }
    if !(|f.data| - pos > padLength) {
      return AssertFails;
    }
    r := Block(f.data[pos..|f.data| - padLength]);
  }

  /** What each of the four layouts leaves, by the flags 0x8 (padded) and 0x20 (priority). */
  lemma StrippedPayload(f: Frame)
    ensures f.flags / 8 % 2 == 0 && f.flags / 32 % 2 == 0 ==>
              StripHeaders(f) == if |f.data| > 0 then Block(f.data) else AssertFails
    ensures f.flags / 8 % 2 == 1 && f.flags / 32 % 2 == 0 ==>
              StripHeaders(f) ==
              if f.data != [] && |f.data| - 1 > f.data[0] then Block(f.data[1..|f.data| - f.data[0]]) else AssertFails
    ensures f.flags / 8 % 2 == 0 && f.flags / 32 % 2 == 1 ==>
              StripHeaders(f) == if |f.data| < 4 then Malformed else if |f.data| > 5 then Block(f.data[5..]) else AssertFails
    ensures f.flags / 8 % 2 == 1 && f.flags / 32 % 2 == 1 ==>
              StripHeaders(f) == if |f.data| < 5 then Malformed
                                 else if |f.data| - 6 > f.data[0] then Block(f.data[6..|f.data| - f.data[0]])
                                 else AssertFails
  {
    FlagBits(f.flags);
    hide HasFlag;
    assert f.data[0..|f.data|] == f.data;
    if |f.data| > 5 { assert f.data[5..|f.data|] == f.data[5..]; }
  }

  /** Lays out a HEADERS payload as section 6.2 of RFC 7540 draws it. */
  function LayOut(fragment: seq<uint8>, padding: seq<uint8>, padded: bool, priority: seq<uint8>): seq<uint8>
    requires |padding| < 0x100
  {
    (if padded then [|padding|] else []) + priority + fragment + (if padded then padding else [])
  }

  /** Whatever optional fields surround it, the fragment is recovered, unless it is empty. */
  lemma FragmentIsRecovered(f: Frame, fragment: seq<uint8>, padding: seq<uint8>, priority: seq<uint8>)
    requires |padding| < 0x100 && |priority| == (if HasFlag(f.flags, PRIORITY) then 5 else 0)
    requires f.data == LayOut(fragment, padding, HasFlag(f.flags, PADDED), priority)
    ensures StripHeaders(f) == if fragment == [] then AssertFails else Block(fragment)
  {
    var padded := HasFlag(f.flags, PADDED);
    var start := if padded then 1 else 0;
    assert padded ==> f.data[0] == |padding|;
    var pos := start + |priority|;
    assert f.data[pos..pos + |fragment|] == fragment;
  }
}
