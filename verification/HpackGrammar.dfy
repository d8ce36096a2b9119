/**
 * Header blocks by their grammar (section 6 of RFC 7541), as a reference for the parser: what whole
 * representations mean, how fragments compose, and what the dynamic table remembers.
 */
module HpackGrammar {
  import opened Options
  import opened Bits
  import opened Huffman
  import opened VariableInteger
  import opened Frames
  import opened HpackStatics
  import opened HpackParser

  datatype CodedString = CodedString(length: seq<uint8>, octets: seq<uint8>)

  datatype Representation =
    | Indexed(index: seq<uint8>)
    | Field(index: seq<uint8>, key: Option<CodedString>, value: CodedString)
    | Resize(size: seq<uint8>)

  function IntOf(N: nat, e: seq<uint8>): uint32
    requires 4 <= N <= 7
  {
    var r := DecodedInt(N, e);
    if r.Value? then r.value else 0
  }

  ghost predicate WholeString(s: CodedString) {
    WholeInt(7, s.length) && IntOf(7, s.length) == |s.octets|
  }

  function StringBytes(s: CodedString): seq<uint8> {
    s.length + s.octets
  }

  ghost function StringText(t: Table, s: CodedString): seq<uint8>
    requires WholeString(s)
  {
    if s.length[0] >= 0x80 then Decoded(t, s.octets) else s.octets
  }

  /** The prefix size of a literal field: with or without incremental indexing. */
  function FieldPrefix(index: seq<uint8>): nat {
    if index != [] && index[0] >= 0x40 then 6 else 4
  }

  ghost predicate Whole(rep: Representation) {
    match rep
    case Indexed(e) => WholeInt(7, e) && e[0] >= 0x80
    case Field(e, key, value) =>
      && WholeInt(FieldPrefix(e), e) && (e[0] < 0x20 || 0x40 <= e[0] < 0x80)
      && (key.Some? <==> IntOf(FieldPrefix(e), e) == 0)
      && (key.Some? ==> WholeString(key.value))
      && WholeString(value)
    case Resize(e) => WholeInt(5, e) && 0x20 <= e[0] < 0x40
  }

  function KeyBytes(key: Option<CodedString>): seq<uint8> {
    if key.Some? then StringBytes(key.value) else []
  }

  function Bytes(rep: Representation): seq<uint8> {
    match rep
    case Indexed(e) => e
    case Field(e, key, value) => e + (KeyBytes(key) + StringBytes(value))
    case Resize(e) => e
  }

  /** The effect of a representation; None when it names an index that neither table has. */
  ghost function Meaning(t: Table, d: Decoder, rep: Representation): Option<Decoder>
    requires Whole(rep)
  {
    match rep
    case Indexed(e) =>
      (match Lookup(d, IntOf(7, e))
       case None => None
       case Some(h) => Some(d.(decoded := d.decoded + [h], hasZero := d.hasZero || IntOf(7, e) == 0)))
    case Field(e, None, value) =>
      (match Lookup(d, IntOf(FieldPrefix(e), e))
       case None => None
       case Some(h) => Some(WithHeader(d, Header(h.key, StringText(t, value)), e[0] >= 0x40)))
    case Field(e, Some(key), value) =>
      Some(WithHeader(d, Header(StringText(t, key), StringText(t, value)), e[0] >= 0x40))
    case Resize(e) =>
      Some(d.(table := if IntOf(5, e) < |d.table| then d.table[..IntOf(5, e)] else d.table))
  }

  function WithHeader(d: Decoder, h: Header, insert: bool): Decoder {
    d.(decoded := d.decoded + [h], table := if insert then [h] + d.table else d.table)
  }

  // ----- The parser follows the grammar -----

  lemma ReadWholeString(t: Table, s: CodedString, tail: seq<uint8>)
    requires WholeString(s)
    ensures ParsedString(t, StringBytes(s) + tail) == Str(StringText(t, s), |StringBytes(s)|)
  {
    var p := StringBytes(s) + tail;
    assert p == s.length + (s.octets + tail);
    WholeIntIsLocal(7, s.length, s.octets + tail);
    hide DecodedInt, WholeInt;
    assert p[|s.length|..|s.length| + |s.octets|] == s.octets;
    assert p[0] == s.length[0];
  }

  lemma ReadValue(t: Table, d: Decoder, p: seq<uint8>, key: seq<uint8>, n: nat, insert: bool,
                  value: CodedString, tail: seq<uint8>)
    requires WholeString(value) && 1 <= n <= |p| && p[n..] == StringBytes(value) + tail
    ensures ValueStep(t, d, p, key, n, insert)
            == Next(WithHeader(d, Header(key, StringText(t, value)), insert), n + |StringBytes(value)|)
  {
    ReadWholeString(t, value, tail);
  }

  lemma ReadField(t: Table, d: Decoder, e: seq<uint8>, key: Option<CodedString>, value: CodedString, tail: seq<uint8>)
    requires Whole(Field(e, key, value))
    ensures var rep := Field(e, key, value);
            LiteralStep(t, d, Bytes(rep) + tail, FieldPrefix(e), e[0] >= 0x40)
            == match Meaning(t, d, rep) case Some(d') => Next(d', |Bytes(rep)|) case None => Stop(UnknownHeader)
  {
    var rest := KeyBytes(key) + StringBytes(value) + tail;
    var p := e + rest;
    assert Bytes(Field(e, key, value)) + tail == p;
    WholeIntIsLocal(FieldPrefix(e), e, rest);
    ReadFieldAfterIndex(t, d, p, |e|, FieldPrefix(e), e[0] >= 0x40, IntOf(FieldPrefix(e), e), key, value, tail);
    hide LiteralStep, ParsedString, ValueStep;
  }

  lemma ReadFieldAfterIndex(t: Table, d: Decoder, p: seq<uint8>, n: nat, N: nat, insert: bool, index: uint32,
                            key: Option<CodedString>, value: CodedString, tail: seq<uint8>)
    requires p != [] && 4 <= N <= 7 && DecodedInt(N, p) == Value(index, n)
    requires p[n..] == KeyBytes(key) + StringBytes(value) + tail
    requires (key.Some? <==> index == 0) && (key.Some? ==> WholeString(key.value)) && WholeString(value)
    ensures var length := n + |KeyBytes(key)| + |StringBytes(value)|;
            LiteralStep(t, d, p, N, insert) ==
            match key
            case Some(k) => Next(WithHeader(d, Header(StringText(t, k), StringText(t, value)), insert), length)
            case None =>
              match Lookup(d, index)
              case None => Stop(UnknownHeader)
              case Some(h) => Next(WithHeader(d, Header(h.key, StringText(t, value)), insert), length)
  {
    hide DecodedInt, WholeString, LiteralStep, StringBytes, ValueStep, ParsedString, Lookup, StringText, WithHeader;
    LiteralWithIndex(t, d, p, N, insert, index, n);
    if key.Some? {
      ReadKeyAndValue(t, d, p, n, insert, key.value, value, tail);
    } else {
      assert p[n..] == StringBytes(value) + tail;
      var h := Lookup(d, index);
      if h.Some? { ReadValue(t, d, p, h.value.key, n, insert, value, tail); }
    }
  }

  /** A literal whose index has been read. */
  lemma LiteralWithIndex(t: Table, d: Decoder, p: seq<uint8>, N: nat, insert: bool, index: uint32, n: nat)
    requires p != [] && 4 <= N <= 7 && DecodedInt(N, p) == Value(index, n)
    ensures LiteralStep(t, d, p, N, insert) ==
            if index == 0 then
              match ParsedString(t, p[n..])
              case NoStr(status) => Stop(status)
              case Str(key, k) => ValueStep(t, d, p, key, n + k, insert)
            else
              match Lookup(d, index)
              case None => Stop(UnknownHeader)
              case Some(h) => ValueStep(t, d, p, h.key, n, insert)
  {
    hide DecodedInt, ParsedString, ValueStep, Lookup;
  }

  lemma ReadKeyAndValue(t: Table, d: Decoder, p: seq<uint8>, n: nat, insert: bool,
                        key: CodedString, value: CodedString, tail: seq<uint8>)
    requires WholeString(key) && WholeString(value)
    requires 1 <= n <= |p| && p[n..] == StringBytes(key) + StringBytes(value) + tail
    ensures ParsedString(t, p[n..]) == Str(StringText(t, key), |StringBytes(key)|)
    ensures var m := n + |StringBytes(key)|;
            m <= |p| && ValueStep(t, d, p, StringText(t, key), m, insert)
            == Next(WithHeader(d, Header(StringText(t, key), StringText(t, value)), insert), m + |StringBytes(value)|)
  {
    hide WholeString, StringBytes, ParsedString, ValueStep, StringText;
    var rest := StringBytes(value) + tail;
    assert p[n..] == StringBytes(key) + rest;
    ReadWholeString(t, key, rest);
    var m := n + |StringBytes(key)|;
    assert p[m..] == p[n..][|StringBytes(key)|..] == rest;
    ReadValue(t, d, p, StringText(t, key), m, insert, value, tail);
  }

  /** A whole representation is read as the grammar says, whatever follows it. */
  lemma StepFollowsGrammar(t: Table, d: Decoder, rep: Representation, tail: seq<uint8>)
    requires Whole(rep)
    ensures Bytes(rep) != []
    ensures Step(t, d, Bytes(rep) + tail)
            == match Meaning(t, d, rep) case Some(d') => Next(d', |Bytes(rep)|) case None => Stop(UnknownHeader)
  {
    match rep
    case Indexed(e) => WholeIntIsLocal(7, e, tail);
    case Resize(e) => WholeIntIsLocal(5, e, tail);
    case Field(e, key, value) =>
      ReadField(t, d, e, key, value, tail);
      assert (Bytes(rep) + tail)[0] == e[0];
  }

  function BlockBytes(reps: seq<Representation>): seq<uint8> {
    if reps == [] then [] else Bytes(reps[0]) + BlockBytes(reps[1..])
  }

  ghost predicate AllWhole(reps: seq<Representation>) {
    forall rep :: rep in reps ==> Whole(rep)
  }

  ghost function BlockMeaning(t: Table, d: Decoder, reps: seq<Representation>): Parsed
    requires AllWhole(reps)
    decreases |reps|
  {
    if reps == [] then Parsed(d, Done)
    else
      match Meaning(t, d, reps[0])
      case None => Parsed(d, UnknownHeader)
      case Some(d') => BlockMeaning(t, d', reps[1..])
  }

  lemma {:induction false} ParserFollowsGrammar(t: Table, d: Decoder, reps: seq<Representation>, tail: seq<uint8>)
    requires AllWhole(reps)
    ensures var m := BlockMeaning(t, d, reps);
            ParsedBlock(t, d, BlockBytes(reps) + tail) == if m.status.Done? then ParsedBlock(t, m.d, tail) else m
    decreases |reps|
  {
    var p := BlockBytes(reps) + tail;
    if reps == [] {
      assert p == tail;
    } else {
      assert reps[0] in reps;
      var rest := BlockBytes(reps[1..]) + tail;
      assert p == Bytes(reps[0]) + rest;
      hide Step, Meaning, Bytes;
      StepFollowsGrammar(t, d, reps[0], rest);
      assert p[|Bytes(reps[0])|..] == rest;
      var m := Meaning(t, d, reps[0]);
      if m.Some? { ParserFollowsGrammar(t, m.value, reps[1..], tail); }
    }
  }

  // ----- Fragments -----

  /**
   * A header block cut between representations, with the pieces sent as HEADERS and CONTINUATION, is
   * parsed as the uncut block is (section 4.3 of RFC 7540).
   */
  lemma FragmentsCompose(t: Table, d: Decoder, reps: seq<Representation>, rest: seq<uint8>, f1: Frame, f2: Frame, f: Frame)
    requires AllWhole(reps) && BlockMeaning(t, d, reps).status.Done?
    requires StripHeaders(f1) == Block(BlockBytes(reps))
    requires StripHeaders(f2) == Block(rest)
    requires StripHeaders(f) == Block(BlockBytes(reps) + rest) && EndsBlock(f) == EndsBlock(f2)
    ensures ParsedFrame(t, d, f1).status == if EndsBlock(f1) then Done else More
    ensures ParsedFrame(t, ParsedFrame(t, d, f1).d, f2) == ParsedFrame(t, d, f)
  {
    hide StripHeaders, EndsBlock;
    assert BlockBytes(reps) + [] == BlockBytes(reps);
    ParserFollowsGrammar(t, d, reps, []);
    ParserFollowsGrammar(t, d, reps, rest);
  }

  /** An integer that is cut off keeps a nonzero value and uses up all that is there. */
  lemma CutInt(N: nat, e: seq<uint8>, k: nat)
    requires 4 <= N <= 7 && WholeInt(N, e) && 0 < k < |e|
    ensures var r := DecodedInt(N, e[..k]); r.Value? && r.value > 0 && r.length == k
  {
    var g := e[1..k];
    assert e[..k][1..] == g;
    Pow2Values();
    ReadCutGroups(g, Limit(N), 0, 1);
  }

  lemma {:induction false} ReadCutGroups(g: seq<uint8>, value: uint32, shift: nat, length: nat)
    requires forall i :: 0 <= i < |g| ==> g[i] >= 128
    requires 0 < value < 128 + Pow2(shift) && shift + 7 * |g| <= 28
    ensures var r := ReadGroups(g, value, shift, length); r.Value? && r.value >= value && r.length == length + |g|
  {
    if g != [] {
      var sum := CutGroup(g, value, shift, length);
      hide Pow2, ReadGroups;
      ReadCutGroups(g[1..], sum, shift + 7, length + 1);
    }
  }

  /** One continued group, which never overflows here. */
  lemma CutGroup(g: seq<uint8>, value: uint32, shift: nat, length: nat) returns (sum: uint32)
    requires g != [] && g[0] >= 128 && 0 < value < 128 + Pow2(shift) && shift + 7 <= 28
    ensures value <= sum < 128 + Pow2(shift + 7)
    ensures ReadGroups(g, value, shift, length) == ReadGroups(g[1..], sum, shift + 7, length + 1)
  {
    hide *;
    var more := Shl(g[0] % 128, shift);
    GroupBound(g[0] % 128, shift);
    Pow2Monotone(shift + 7, 30);
    Pow2Values();
    sum := value + more;
    OneGroup(g, value, shift, length, sum);
  }

  lemma OneGroup(g: seq<uint8>, value: uint32, shift: nat, length: nat, sum: uint32)
    requires g != [] && g[0] >= 128 && shift < 32 && sum == value + Shl(g[0] % 128, shift)
    ensures ReadGroups(g, value, shift, length) == ReadGroups(g[1..], sum, shift + 7, length + 1)
  {
    hide Shl;
  }

  lemma GroupBound(a: nat, shift: nat)
    requires a < 128
    ensures Shl(a, shift) + Pow2(shift) <= Pow2(shift + 7)
  {
    ShiftMonotone(a, 127, shift);
    ShiftPow2(7, shift);
    ShlAdd(127, 1, shift);
    ShiftPow2(0, shift);
    Pow2Values();
  }

  /** A string that is cut off is refused, and one of which nothing is there raises an exception. */
  lemma CutString(t: Table, s: CodedString, k: nat)
    requires WholeString(s) && k < |StringBytes(s)|
    ensures ParsedString(t, StringBytes(s)[..k]) == NoStr(if k == 0 then Raises(InvalidArgument) else Invalid)
  {
    var p := StringBytes(s)[..k];
    if 0 < k < |s.length| {
      assert p == s.length[..k];
      CutInt(7, s.length, k);
    } else if k > 0 {
      assert p == s.length + s.octets[..k - |s.length|];
      WholeIntIsLocal(7, s.length, s.octets[..k - |s.length|]);
    }
  }

  /** The index that the parser reads of a field cut off after `k` bytes. */
  function CutIndex(e: seq<uint8>, k: nat): uint32 {
    IntOf(FieldPrefix(e), if k < |e| then e[..k] else e)
  }

  /**
   * A block that ends inside a literal field is always an error: the parser does not wait for the
   * rest.  An index that neither table has is found out first; where a whole string is missing an exception
   * is raised, and where a string is cut the block is invalid.
   */
  lemma CutFieldIsRefused(t: Table, d: Decoder, rep: Representation, k: nat)
    requires Whole(rep) && rep.Field? && 0 < k < |Bytes(rep)|
    ensures Step(t, d, Bytes(rep)[..k])
            == Stop(if Lookup(d, CutIndex(rep.index, k)).None? then UnknownHeader
                    else if k <= |rep.index| || k == |rep.index| + |KeyBytes(rep.key)| then Raises(InvalidArgument)
                    else Invalid)
  {
    hide *;
    var Field(e, key, value) := rep;
    var p, strings := Bytes(rep)[..k], KeyBytes(key) + StringBytes(value);
    FieldIs(rep);
    TakeOfConcat(e, strings, k);
    FieldIsLiteral(t, d, p, e);
    if k < |e| {
      CutInIndex(t, d, e, k, e[0] >= 0x40);
    } else {
      CutAfterIndex(t, d, e, key, value, k - |e|, e[0] >= 0x40);
    }
    CutIndexIs(e, k);
  }

  lemma CutIndexIs(e: seq<uint8>, k: nat)
    ensures CutIndex(e, k) == IntOf(FieldPrefix(e), if k < |e| then e[..k] else e)
  {
    hide IntOf, FieldPrefix;
  }

  lemma FieldIs(rep: Representation)
    requires Whole(rep) && rep.Field?
    ensures var Field(e, key, value) := rep;
            && e != [] && WholeInt(FieldPrefix(e), e) && (e[0] < 0x20 || 0x40 <= e[0] < 0x80)
            && (key.Some? <==> IntOf(FieldPrefix(e), e) == 0) && (key.Some? ==> WholeString(key.value))
            && WholeString(value) && Bytes(rep) == e + (KeyBytes(key) + StringBytes(value))
  {
    hide IntOf, FieldPrefix, WholeString, StringBytes, KeyBytes;
  }

  lemma FieldIsLiteral(t: Table, d: Decoder, p: seq<uint8>, e: seq<uint8>)
    requires p != [] && e != [] && p[0] == e[0] && (e[0] < 0x20 || 0x40 <= e[0] < 0x80)
    ensures Step(t, d, p) == LiteralStep(t, d, p, FieldPrefix(e), e[0] >= 0x40)
  {
    hide LiteralStep;
  }

  lemma TakeOfConcat(a: seq<uint8>, b: seq<uint8>, k: nat)
    requires k <= |a + b|
    ensures (a + b)[..k] == if k < |a| then a[..k] else a + b[..k - |a|]
  {
  }

  lemma CutAfterIndex(t: Table, d: Decoder, e: seq<uint8>, key: Option<CodedString>, value: CodedString, k: nat, insert: bool)
    requires WholeInt(FieldPrefix(e), e) && (key.Some? <==> IntOf(FieldPrefix(e), e) == 0)
    requires WholeString(value) && (key.Some? ==> WholeString(key.value))
    requires k < |KeyBytes(key) + StringBytes(value)|
    ensures LiteralStep(t, d, e + (KeyBytes(key) + StringBytes(value))[..k], FieldPrefix(e), insert)
            == Stop(if Lookup(d, IntOf(FieldPrefix(e), e)).None? then UnknownHeader
                    else if k == 0 || k == |KeyBytes(key)| then Raises(InvalidArgument)
                    else Invalid)
  {
    IndexZeroIsThere(d);
    hide WholeInt, WholeString, LiteralStep, ValueStep, ParsedString, StringBytes, KeyBytes, Lookup;
    var rest := (KeyBytes(key) + StringBytes(value))[..k];
    var p := e + rest;
    WholeIntIsLocal(FieldPrefix(e), e, rest);
    assert p[|e|..] == rest;
    LiteralWithIndex(t, d, p, FieldPrefix(e), insert, IntOf(FieldPrefix(e), e), |e|);
    CutStrings(t, d, p, |e|, key, value, k, insert);
  }

  lemma IndexZeroIsThere(d: Decoder)
    ensures Lookup(d, 0).Some?
  {
  }

  lemma CutInIndex(t: Table, d: Decoder, e: seq<uint8>, k: nat, insert: bool)
    requires 0 < k < |e| && WholeInt(FieldPrefix(e), e)
    ensures LiteralStep(t, d, e[..k], FieldPrefix(e), insert)
            == Stop(if Lookup(d, IntOf(FieldPrefix(e), e[..k])).None? then UnknownHeader else Raises(InvalidArgument))
  {
    CutInt(FieldPrefix(e), e, k);
    hide WholeInt, Lookup;
    assert e[..k][k..] == [];
  }

  lemma CutStrings(t: Table, d: Decoder, p: seq<uint8>, n: nat, key: Option<CodedString>, value: CodedString, k: nat, insert: bool)
    requires 1 <= n <= |p| && WholeString(value) && (key.Some? ==> WholeString(key.value))
    requires k < |KeyBytes(key) + StringBytes(value)| && p[n..] == (KeyBytes(key) + StringBytes(value))[..k]
    ensures var status := if k == 0 || k == |KeyBytes(key)| then Raises(InvalidArgument) else Invalid;
            && (key.None? ==> forall text :: ValueStep(t, d, p, text, n, insert) == Stop(status))
            && (key.Some? ==>
                  match ParsedString(t, p[n..])
                  case NoStr(s) => s == status
                  case Str(text, m) => ValueStep(t, d, p, text, n + m, insert) == Stop(status))
  {
    hide DecodedInt, WholeInt;
    if key.None? {
      assert p[n..] == StringBytes(value)[..k];
      CutString(t, value, k);
    } else {
      var whole := StringBytes(key.value);
      if k < |whole| {
        assert p[n..] == whole[..k];
        CutString(t, key.value, k);
      } else {
        var part := StringBytes(value)[..k - |whole|];
        assert p[n..] == whole + part;
        ReadWholeString(t, key.value, part);
        assert p[n + |whole|..] == p[n..][|whole|..] == part;
        CutString(t, value, k - |whole|);
        assert |whole| > 0;
      }
    }
  }

  /** Whole representations and then one that stops the parser: the block stops there. */
  lemma BlockStops(t: Table, d: Decoder, reps: seq<Representation>, tail: seq<uint8>, status: Status)
    requires AllWhole(reps) && BlockMeaning(t, d, reps).status.Done?
    requires tail != [] && Step(t, BlockMeaning(t, d, reps).d, tail) == Stop(status)
    ensures ParsedBlock(t, d, BlockBytes(reps) + tail) == Parsed(BlockMeaning(t, d, reps).d, status)
  {
    ParserFollowsGrammar(t, d, reps, tail);
    hide Step, BlockMeaning, BlockBytes, AllWhole;
  }

  // ----- What the indices and updates mean -----

  /** Which header an index names: in the static map below its size, then, from one past it, in the table. */
  lemma LookupIs(d: Decoder, index: uint32)
    ensures index == 0 ==> Lookup(d, index) == Some(Header([], []))
    ensures 1 <= index <= 60 || (index == 61 && d.hasZero) ==> Lookup(d, index) == Some(StaticEntry(index))
    ensures !d.hasZero && index >= 62 ==>
              Lookup(d, index) == if index - 62 < |d.table| then Some(d.table[index - 62]) else None
    ensures d.hasZero && index >= 63 ==>
              Lookup(d, index) == if index - 63 < |d.table| then Some(d.table[index - 63]) else None
    ensures index == (if d.hasZero then 62 else 61) && |d.table| <= 0xFFFF_FFFF ==> Lookup(d, index) == None
  {
    ZeroIsEmpty();
    hide StaticEntry;
  }

  lemma ZeroIsEmpty()
    ensures StaticEntry(0) == Header([], [])
  {
  }

  /** A size update leaves as many of the newest entries as it names, and nothing else changes. */
  lemma ResizeKeepsNewest(t: Table, d: Decoder, e: seq<uint8>, tail: seq<uint8>)
    requires Whole(Resize(e))
    ensures var s := Step(t, d, e + tail);
            && s.Next? && s.length == |e| && s.d.decoded == d.decoded && s.d.hasZero == d.hasZero
            && s.d.table <= d.table
            && |s.d.table| == if IntOf(5, e) < |d.table| then IntOf(5, e) else |d.table|
  {
    StepFollowsGrammar(t, d, Resize(e), tail);
    hide Step;
  }

  // ----- How a step can stop -----

  /** A string is refused as invalid, or raises an exception, or meets an undefined shift. */
  lemma StringStops(t: Table, p: seq<uint8>)
    ensures var r := ParsedString(t, p);
            r.NoStr? ==> r.status in {Invalid, Raises(InvalidArgument), Raises(UndefinedShift)}
  {
    hide DecodedInt;
  }

  /** The parser never asks for an acknowledgement of a size update, whose status is commented out. */
  lemma StepStops(t: Table, d: Decoder, p: seq<uint8>)
    requires p != []
    ensures var s := Step(t, d, p);
            s.Stop? ==> s.status in {UnknownHeader, Invalid, Raises(InvalidArgument), Raises(UndefinedShift)}
  {
    hide DecodedInt, ParsedString, StaticEntry, LiteralStep, Lookup;
    if p[0] < 0x80 && p[0] >= 0x40 { LiteralStops(t, d, p, 6, true); }
    if p[0] < 0x20 { LiteralStops(t, d, p, 4, false); }
  }

  lemma LiteralStops(t: Table, d: Decoder, p: seq<uint8>, N: nat, insert: bool)
    requires p != [] && 4 <= N <= 7
    ensures var s := LiteralStep(t, d, p, N, insert);
            s.Stop? ==> s.status in {UnknownHeader, Invalid, Raises(InvalidArgument), Raises(UndefinedShift)}
  {
    hide DecodedInt, ParsedString, Lookup;
    forall n: nat | n <= |p| { StringStops(t, p[n..]); }
  }

  /** The prefix of the integer that a representation starts with. */
  function PrefixOf(first: uint8): nat {
    if first >= 0x80 then 7 else if first >= 0x40 then 6 else if first >= 0x20 then 5 else 4
  }

  /** An integer with more than five groups is undefined behaviour, at the front of any representation and of a string. */
  lemma LongIntIsUndefined(t: Table, d: Decoder, p: seq<uint8>)
    requires |p| >= 7 && forall i :: 1 <= i <= 5 ==> p[i] >= 128
    ensures p[0] % (Limit(PrefixOf(p[0])) + 1) == Limit(PrefixOf(p[0])) ==> Step(t, d, p) == Stop(Raises(UndefinedShift))
    ensures p[0] % 128 == 127 ==> ParsedString(t, p) == NoStr(Raises(UndefinedShift))
  {
    if p[0] % 128 == 127 { SixthGroup(7, p); }
    var N := PrefixOf(p[0]);
    if p[0] % (Limit(N) + 1) == Limit(N) { SixthGroup(N, p); }
    hide DecodedInt, ValueStep, Lookup;
  }

  lemma {:induction false} BlockEnds(t: Table, d: Decoder, p: seq<uint8>)
    ensures ParsedBlock(t, d, p).status
            in {Done, UnknownHeader, Invalid, Raises(InvalidArgument), Raises(UndefinedShift)}
    decreases |p|
  {
    hide Step;
    if p != [] {
      StepStops(t, d, p);
      var s := Step(t, d, p);
      if s.Next? { BlockEnds(t, s.d, p[s.length..]); }
    }
  }

  /** A frame is done exactly if its block is and a flag of 0x4 or 0x1 ends it. */
  lemma FrameEnds(t: Table, d: Decoder, f: Frame)
    ensures var r := ParsedFrame(t, d, f);
            && r.status != SizeUpdate
            && (r.status == More ==> StripHeaders(f).Block? && f.flags % 2 == 0 && f.flags / 4 % 2 == 0)
            && (r.status == Done ==> StripHeaders(f).Block? && (f.flags % 2 == 1 || f.flags / 4 % 2 == 1))
            && (r.status == Raises(MalformedFrame) <==> StripHeaders(f) == Malformed)
            && (r.status == Raises(AssertionFailed) <==> StripHeaders(f) == AssertFails)
  {
    FlagBits(f.flags);
    if StripHeaders(f).Block? { BlockEnds(t, d, StripHeaders(f).data); }
    hide ParsedBlock, StripHeaders, HasFlag;
  }

  // ----- What the decoder keeps -----

  /** Decoded headers are only ever appended. */
  lemma {:induction false} DecodedGrows(t: Table, d: Decoder, p: seq<uint8>)
    ensures d.decoded <= ParsedBlock(t, d, p).d.decoded
    decreases |p|
  {
    if p != [] {
      var s := Step(t, d, p);
      if s.Next? {
        StepAppends(t, d, p);
        DecodedGrows(t, s.d, p[s.length..]);
      }
    }
  }

  /** A parser that has handed out its decoded headers. */
  function Blank(d: Decoder): Decoder {
    d.(decoded := [])
  }

  function Behind(before: seq<Header>, d: Decoder): Decoder {
    d.(decoded := before + d.decoded)
  }

  /** What a block decodes to does not depend on the headers decoded before it. */
  lemma {:induction false} BlockIgnoresDecoded(t: Table, d: Decoder, p: seq<uint8>)
    ensures var r := ParsedBlock(t, Blank(d), p);
            ParsedBlock(t, d, p) == Parsed(Behind(d.decoded, r.d), r.status)
    decreases |p|
  {
    if p == [] {
      assert d.decoded + [] == d.decoded;
    } else {
      StepIgnoresDecoded(t, d, p);
      hide Step;
      var s := Step(t, Blank(d), p);
      if s.Next? {
        var d' := Behind(d.decoded, s.d);
        var rest := p[s.length..];
        BlockIgnoresDecoded(t, d', rest);
        BlockIgnoresDecoded(t, s.d, rest);
        assert Blank(d') == Blank(s.d);
        Associate(d.decoded, s.d.decoded, ParsedBlock(t, Blank(s.d), rest).d.decoded);
      } else {
        assert d.decoded + [] == d.decoded;
      }
    }
  }

  lemma StepIgnoresDecoded(t: Table, d: Decoder, p: seq<uint8>)
    requires p != []
    ensures match Step(t, Blank(d), p)
            case Stop(status) => Step(t, d, p) == Stop(status)
            case Next(d', n) => Step(t, d, p) == Next(Behind(d.decoded, d'), n)
  {
    hide DecodedInt, ParsedString, StaticEntry, LiteralStep;
    if p[0] >= 0x80 {
      assert forall h: Header :: d.decoded + ([] + [h]) == d.decoded + [h];
    } else if p[0] >= 0x40 {
      LiteralIgnoresDecoded(t, d, p, 6, true);
    } else if p[0] < 0x20 {
      LiteralIgnoresDecoded(t, d, p, 4, false);
    }
    assert d.decoded + [] == d.decoded;
  }

  lemma LiteralIgnoresDecoded(t: Table, d: Decoder, p: seq<uint8>, N: nat, insert: bool)
    requires p != [] && 4 <= N <= 7
    ensures match LiteralStep(t, Blank(d), p, N, insert)
            case Stop(status) => LiteralStep(t, d, p, N, insert) == Stop(status)
            case Next(d', n) => LiteralStep(t, d, p, N, insert) == Next(Behind(d.decoded, d'), n)
  {
    hide DecodedInt, ParsedString, StaticEntry, ValueStep;
    var length := DecodedInt(N, p);
    if length.Value? {
      if length.value == 0 {
        var s := ParsedString(t, p[length.length..]);
        if s.Str? { ValueIgnoresDecoded(t, d, p, s.text, length.length + s.length, insert); }
      } else {
        var h := Lookup(d, length.value);
        if h.Some? { ValueIgnoresDecoded(t, d, p, h.value.key, length.length, insert); }
      }
    }
  }

  lemma ValueIgnoresDecoded(t: Table, d: Decoder, p: seq<uint8>, key: seq<uint8>, n: nat, insert: bool)
    requires 1 <= n <= |p|
    ensures match ValueStep(t, Blank(d), p, key, n, insert)
            case Stop(status) => ValueStep(t, d, p, key, n, insert) == Stop(status)
            case Next(d', m) => ValueStep(t, d, p, key, n, insert) == Next(Behind(d.decoded, d'), m)
  {
    hide ParsedString;
    assert forall h: Header :: d.decoded + ([] + [h]) == d.decoded + [h];
  }

  lemma FrameIgnoresDecoded(t: Table, d: Decoder, f: Frame)
    ensures var r := ParsedFrame(t, Blank(d), f);
            ParsedFrame(t, d, f) == Parsed(Behind(d.decoded, r.d), r.status)
  {
    hide ParsedBlock;
    assert d.decoded + [] == d.decoded;
    match StripHeaders(f)
    case Block(p) => BlockIgnoresDecoded(t, d, p);
    case Malformed =>
    case AssertFails =>
  }

  lemma StepAppends(t: Table, d: Decoder, p: seq<uint8>)
    requires p != [] && Step(t, d, p).Next?
    ensures d.decoded <= Step(t, d, p).d.decoded
    ensures Inserts(p) ==> var d' := Step(t, d, p).d; d'.decoded != [] && d'.table == [d'.decoded[|d'.decoded| - 1]] + d.table
    ensures !Inserts(p) ==> Step(t, d, p).d.table <= d.table
  {
    hide DecodedInt, ParsedString, Lookup;
  }

  /** The first byte says whether a representation enters its header into the dynamic table. */
  predicate Inserts(p: seq<uint8>)
    requires p != []
  {
    0x40 <= p[0] < 0x80
  }

  /** The headers that a block enters into the dynamic table, newest first. */
  ghost function Insertions(t: Table, d: Decoder, p: seq<uint8>): seq<Header>
    decreases |p|
  {
    if p == [] then []
    else
      match Step(t, d, p)
      case Stop(_) => []
      case Next(d', n) =>
        Insertions(t, d', p[n..]) + (if Inserts(p) && d'.decoded != [] then [d'.decoded[|d'.decoded| - 1]] else [])
  }

  lemma {:induction false} TableIsLogPrefix(t: Table, d: Decoder, p: seq<uint8>, log: seq<Header>)
    requires d.table <= log
    ensures ParsedBlock(t, d, p).d.table <= Insertions(t, d, p) + log
    decreases |p|
  {
    hide Step, Inserts;
    if p != [] {
      var s := Step(t, d, p);
      if s.Next? {
        StepAppends(t, d, p);
        var entered := if Inserts(p) then [s.d.decoded[|s.d.decoded| - 1]] else [];
        assert s.d.table <= entered + log;
        TableIsLogPrefix(t, s.d, p[s.length..], entered + log);
        var later := Insertions(t, s.d, p[s.length..]);
        Associate(later, entered, log);
      }
    }
  }

  /** A connection parses one block after another and takes the headers out in between. */
  ghost function AfterBlocks(t: Table, d: Decoder, blocks: seq<seq<uint8>>): Decoder
    decreases |blocks|
  {
    if blocks == [] then d
    else AfterBlocks(t, ParsedBlock(t, d, blocks[0]).d.(decoded := []), blocks[1..])
  }

  ghost function InsertionLog(t: Table, d: Decoder, blocks: seq<seq<uint8>>): seq<Header>
    decreases |blocks|
  {
    if blocks == [] then []
    else InsertionLog(t, ParsedBlock(t, d, blocks[0]).d.(decoded := []), blocks[1..]) + Insertions(t, d, blocks[0])
  }

  /**
   * However many blocks were parsed, the table is the newest part of the log of insertions, so the
   * k-th index past the static table names the k-th newest insertion or nothing at all.
   */
  lemma {:induction false} TableRefinesLog(t: Table, d: Decoder, blocks: seq<seq<uint8>>, log: seq<Header>)
    requires d.table <= log
    ensures AfterBlocks(t, d, blocks).table <= InsertionLog(t, d, blocks) + log
    decreases |blocks|
  {
    hide ParsedBlock, Insertions;
    if blocks != [] {
      var d' := ParsedBlock(t, d, blocks[0]).d.(decoded := []);
      var entered := Insertions(t, d, blocks[0]);
      TableIsLogPrefix(t, d, blocks[0], log);
      TableRefinesLog(t, d', blocks[1..], entered + log);
      var later := InsertionLog(t, d', blocks[1..]);
      assert later + (entered + log) == (later + entered) + log;
    }
  }

  lemma IndexNamesLogEntry(t: Table, blocks: seq<seq<uint8>>, hasZero: bool, k: nat)
    requires k + 63 < 0x1_0000_0000
    ensures var start := Decoder([], [], hasZero);
            var d := AfterBlocks(t, start, blocks);
            var log := InsertionLog(t, start, blocks);
            && |d.table| <= |log|
            && Lookup(d, StaticSize(d.hasZero) + 1 + k) == if k < |d.table| then Some(log[k]) else None
  {
    hide AfterBlocks, InsertionLog, StaticEntry;
    var start := Decoder([], [], hasZero);
    TableRefinesLog(t, start, blocks, []);
    var d, log := AfterBlocks(t, start, blocks), InsertionLog(t, start, blocks);
    assert log + [] == log;
    assert d.table <= log;
  }
}
