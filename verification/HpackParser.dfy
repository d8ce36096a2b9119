/**
 * The HPACK parser (parser<h2::hpack> in src/protocols/h2/hpack.cpp; RFC 7541).
 *
 * `Step` says what one representation of a header block does, `ParsedFrame` what a whole frame does;
 * the class `Parser` has the source's fields, cursor and loop, and is proved to do just that.  All of
 * it holds for any table `t` of string codes.
 */
module HpackParser {
  import opened Options
  import opened Bits
  import opened Huffman
  import opened VariableInteger
  import opened Frames
  import opened HpackStatics

  /** What ends a parse other than an h2::hpack::error value. */
  datatype Fault = InvalidArgument | MalformedFrame | AssertionFailed | UndefinedShift

  datatype Status = Done | More | UnknownHeader | SizeUpdate | Invalid | Raises(fault: Fault)

  /** The dynamic table, newest entry first; the headers decoded so far; the static map's key 0. */
  datatype Decoder = Decoder(table: seq<Header>, decoded: seq<Header>, hasZero: bool)

  datatype Parsed = Parsed(d: Decoder, status: Status)

  datatype StepResult = Next(d: Decoder, length: nat) | Stop(status: Status)

  datatype StringResult = Str(text: seq<uint8>, length: nat) | NoStr(status: Status)

  // ----- What parsing means -----

  /** The bounds check is `<` against the size of the static map, in 32-bit unsigned arithmetic. */
  function Lookup(d: Decoder, index: uint32): Option<Header> {
    if index < StaticSize(d.hasZero) then Some(StaticEntry(index))
    else
      var k := (index - StaticSize(d.hasZero) - 1) % 0x1_0000_0000;
      if k < |d.table| then Some(d.table[k]) else None
  }

  ghost function ParsedString(t: Table, p: seq<uint8>): (r: StringResult)
    ensures r.Str? ==> 1 <= r.length <= |p|
    ensures r.NoStr? ==> r.status != Done
  {
    match DecodedInt(7, p)
    case NoData => NoStr(Raises(InvalidArgument))
    case ShiftTooFar => NoStr(Raises(UndefinedShift))
    case Value(length, n) =>
      if n + length > |p| then NoStr(Invalid)
      else
        var raw := p[n..n + length];
        Str(if p[0] >= 0x80 then Decoded(t, raw) else raw, n + length)
  }

  /** A literal with an N-bit key index; only the indexing form enters the dynamic table. */
  ghost function LiteralStep(t: Table, d: Decoder, p: seq<uint8>, N: nat, insert: bool): (r: StepResult)
    requires p != [] && 4 <= N <= 7
    ensures r.Next? ==> 1 <= r.length <= |p|
  {
    match DecodedInt(N, p)
    case NoData => Stop(Raises(InvalidArgument))
    case ShiftTooFar => Stop(Raises(UndefinedShift))
    case Value(index, n) =>
      if index == 0 then
        match ParsedString(t, p[n..])
        case NoStr(status) => Stop(status)
        case Str(key, k) => ValueStep(t, d, p, key, n + k, insert)
      else
        match Lookup(d, index)
        case None => Stop(UnknownHeader)
        case Some(h) => ValueStep(t, d, p, h.key, n, insert)
  }

  ghost function ValueStep(t: Table, d: Decoder, p: seq<uint8>, key: seq<uint8>, n: nat, insert: bool): (r: StepResult)
    requires 1 <= n <= |p|
    ensures r.Next? ==> n < r.length <= |p|
  {
    match ParsedString(t, p[n..])
    case NoStr(status) => Stop(status)
    case Str(value, k) =>
      var h := Header(key, value);
      Next(d.(decoded := d.decoded + [h], table := if insert then [h] + d.table else d.table), n + k)
  }

  /** One representation, chosen by the high bits of its first byte. */
  ghost function Step(t: Table, d: Decoder, p: seq<uint8>): (r: StepResult)
    requires p != []
    ensures r.Next? ==> 1 <= r.length <= |p|
  {
    if p[0] >= 0x80 then
      match DecodedInt(7, p)
      case NoData => Stop(Raises(InvalidArgument))
      case ShiftTooFar => Stop(Raises(UndefinedShift))
      case Value(index, n) =>
        match Lookup(d, index)
        case None => Stop(UnknownHeader)
        case Some(h) => Next(d.(decoded := d.decoded + [h], hasZero := d.hasZero || index == 0), n)
    else if p[0] >= 0x40 then LiteralStep(t, d, p, 6, true)
    else if p[0] >= 0x20 then
      match DecodedInt(5, p)
      case NoData => Stop(Raises(InvalidArgument))
      case ShiftTooFar => Stop(Raises(UndefinedShift))
      case Value(size, n) => Next(d.(table := if size < |d.table| then d.table[..size] else d.table), n)
    else LiteralStep(t, d, p, 4, false)
  }

  ghost function ParsedBlock(t: Table, d: Decoder, p: seq<uint8>): Parsed
    decreases |p|
  {
    if p == [] then Parsed(d, Done)
    else
      match Step(t, d, p)
      case Stop(status) => Parsed(d, status)
      case Next(d', n) => ParsedBlock(t, d', p[n..])
  }

  predicate EndsBlock(f: Frame) {
    HasFlag(f.flags, END_HEADERS) || HasFlag(f.flags, END_STREAM)
  }

  ghost function ParsedFrame(t: Table, d: Decoder, f: Frame): Parsed {
    match StripHeaders(f)
    case Malformed => Parsed(d, Raises(MalformedFrame))
    case AssertFails => Parsed(d, Raises(AssertionFailed))
    case Block(p) =>
      var r := ParsedBlock(t, d, p);
      if r.status.Done? && !EndsBlock(f) then r.(status := More) else r
  }

  // ----- The class -----

  class Parser {
    var headerMap: seq<Header>
    var decoded: seq<Header>
    const statics: StaticTable
    const decoder: Huffman

    constructor (statics: StaticTable, decoder: Huffman)
      ensures this.statics == statics && this.decoder == decoder
      ensures State() == Decoder([], [], statics.hasZero)
    {
      headerMap, decoded := [], [];
      this.statics, this.decoder := statics, decoder;
    }

    ghost predicate Valid()
      reads decoder
    {
      decoder.Valid()
    }

    ghost function State(): Decoder
      reads this, statics
    {
      Decoder(headerMap, decoded, statics.hasZero)
    }

    /** Reading the static map through operator[] inserts the missing key 0. */
    method HeaderByIndex(index: uint32) returns (h: Option<Header>)
      modifies statics
      ensures h == old(Lookup(State(), index))
      ensures State() == old(State()).(hasZero := old(statics.hasZero) || index == 0)
    {
      if index < StaticSize(statics.hasZero) {
        if index == 0 {
          statics.hasZero := true;
        }
        return Some(StaticEntry(index));
      }
      var k: uint32 := index - StaticSize(statics.hasZero);
      k := (k - 1) % 0x1_0000_0000;
      if k < |headerMap| {
        return Some(headerMap[k]);
      }
      h := None;
    }

    /** Reads a string at `pos`; the new cursor is `pos + r.length`. */
    method ParseString(pos: nat, payload: seq<uint8>) returns (r: StringResult)
      requires Valid() && pos <= |payload|
      ensures r == ParsedString(decoder.encodings, payload[pos..])
    {
      var rest := payload[pos..];
      var length := Decode(7, rest);
      match length {
        case NoData => return NoStr(Raises(InvalidArgument));
        case ShiftTooFar => return NoStr(Raises(UndefinedShift));
        case Value(size, n) =>
          if pos + n + size > |payload| {
            return NoStr(Invalid);
          }
          var raw := payload[pos + n..pos + n + size];
          assert raw == rest[n..n + size];
          if rest[0] >= 0x80 {
            raw := decoder.Decode(raw);
          }
          r := Str(raw, n + size);
      }
    }

    method ParseLiteral(pos: nat, payload: seq<uint8>, N: nat, insert: bool)
      returns (status: Status, pos': nat)
      requires Valid() && pos < |payload| && 4 <= N <= 7
      modifies this, statics
      ensures match LiteralStep(decoder.encodings, old(State()), payload[pos..], N, insert)
              case Next(d, n) => status == Done && State() == d && pos' == pos + n
              case Stop(s) => status == s != Done && State() == old(State())
    {
      hide Valid, ParsedString, DecodedInt, Lookup;
      ghost var t, d, p := decoder.encodings, State(), payload[pos..];
      pos' := pos;
      var index := Decode(N, payload[pos..]);
      match index {
        case NoData => return Raises(InvalidArgument), pos;
        case ShiftTooFar => return Raises(UndefinedShift), pos;
        case Value(i, n) =>
          pos' := pos + n;
          assert p[n..] == payload[pos'..];
          var key;
          if i == 0 {
            var s := ParseString(pos', payload);
            if s.NoStr? {
              return s.status, pos;
            }
            key, pos' := s.text, pos' + s.length;
          } else {
            var h := HeaderByIndex(i);
            if h.None? {
              return UnknownHeader, pos;
            }
            key := h.value.key;
          }
          ghost var m := pos' - pos;
          assert p[m..] == payload[pos'..];
          assert LiteralStep(t, d, p, N, insert) == ValueStep(t, d, p, key, m, insert);
          status, pos' := ParseValue(key, pos', payload, insert, d, pos);
      }
    }

    /** Reads the value of a literal whose key is known, and stores the header. */
    method ParseValue(key: seq<uint8>, pos: nat, payload: seq<uint8>, insert: bool, ghost d: Decoder, ghost start: nat)
      returns (status: Status, pos': nat)
      requires Valid() && d == State() && start < pos <= |payload|
      modifies this
      ensures match ValueStep(decoder.encodings, d, payload[start..], key, pos - start, insert)
              case Next(d', n) => status == Done && State() == d' && pos' == start + n
              case Stop(s) => status == s != Done && State() == d
    {
      hide Valid, DecodedInt;
      assert payload[start..][pos - start..] == payload[pos..];
      pos' := pos;
      var s := ParseString(pos, payload);
      if s.NoStr? {
        return s.status, pos;
      }
      pos' := pos + s.length;
      decoded := decoded + [Header(key, s.text)];
      if insert {
        headerMap := [Header(key, s.text)] + headerMap;
      }
      status := Done;
    }

    method Parse(frame: Frame) returns (status: Status)
      requires Valid()
      modifies this, statics
      ensures Parsed(State(), status) == ParsedFrame(decoder.encodings, old(State()), frame)
    {
      hide Valid, Step, StripHeaders, HasFlag;
      var block := HeadersPayload(frame);
      match block {
        case Malformed => return Raises(MalformedFrame);
        case AssertFails => return Raises(AssertionFailed);
        case Block(payload) =>
          ghost var t, d := decoder.encodings, State();
          var pos := 0;
          assert payload[0..] == payload;
          while pos != |payload|
            invariant pos <= |payload|
            invariant ParsedBlock(t, State(), payload[pos..]) == ParsedBlock(t, d, payload)
            decreases |payload| - pos
          {
            var begin := pos;
            status, pos := ParseOne(pos, payload);
            if status != Done {
              return status;
            }
            // The source's guard against a cursor that does not move can never hold.
            if pos == begin {
              assert false;
            }
            assert payload[begin..][pos - begin..] == payload[pos..];
          }
          status := if EndsBlock(frame) then Done else More;
      }
    }

    /** The body of the loop in `Parse`. */
    method ParseOne(pos: nat, payload: seq<uint8>) returns (status: Status, pos': nat)
      requires Valid() && pos < |payload|
      modifies this, statics
      ensures match Step(decoder.encodings, old(State()), payload[pos..])
              case Next(d, n) => status == Done && State() == d && pos' == pos + n
              case Stop(s) => status == s != Done && State() == old(State())
    {
      pos' := pos;
      var start := payload[pos];
      if start >= 0x80 {
        var index := Decode(7, payload[pos..]);
        match index {
          case NoData => status := Raises(InvalidArgument);
          case ShiftTooFar => status := Raises(UndefinedShift);
          case Value(i, n) =>
            pos' := pos + n;
            var h := HeaderByIndex(i);
            if h.None? {
              return UnknownHeader, pos;
            }
            decoded := decoded + [h.value];
            status := Done;
        }
      } else if start >= 0x40 {
        status, pos' := ParseLiteral(pos, payload, 6, true);
      } else if start >= 0x20 {
        var size := Decode(5, payload[pos..]);
        match size {
          case NoData => status := Raises(InvalidArgument);
          case ShiftTooFar => status := Raises(UndefinedShift);
          case Value(limit, n) =>
            pos' := pos + n;
            ghost var table := headerMap;
            while limit < |headerMap|
              invariant headerMap == if |headerMap| < |table| then table[..|headerMap|] else table
              invariant limit <= |headerMap| || headerMap == table
              invariant State() == old(State()).(table := headerMap)
            {
              headerMap := headerMap[..|headerMap| - 1];
            }
            status := Done;
        }
      } else {
        status, pos' := ParseLiteral(pos, payload, 4, false);
      }
    }

    /** Moves the decoded headers out, which leaves none behind. */
    method Result() returns (headers: seq<Header>)
      modifies this
      ensures headers == old(decoded)
      ensures State() == old(State()).(decoded := [])
    {
      headers := decoded;
      decoded := [];
    }
  }
}
