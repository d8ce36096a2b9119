/**
 * The HPACK serializer (serializer<h2::hpack> in src/protocols/h2/hpack.cpp), and exactly when the
 * parser reads back what it writes.
 */
module HpackSerializer {
  import opened Options
  import opened Bits
  import opened Huffman
  import opened VariableInteger
  import opened Frames
  import opened HpackStatics
  import opened HpackGrammar

  function Lower(b: uint8): uint8 {
    if 0x41 <= b <= 0x5A then b + 0x20 else b
  }

  function ToLower(s: seq<uint8>): (r: seq<uint8>)
    ensures |r| == |s|
  {
    seq(|s|, i requires 0 <= i < |s| => Lower(s[i]))
  }

  datatype Where = FullyIndexed(index: nat) | KeyIndexed(index: nat) | NotIndexed

  ghost predicate KeyAt(hasZero: bool, index: nat, h: Header) {
    IsStaticKey(hasZero, index) && StaticEntry(index).key == ToLower(h.key)
  }

  ghost predicate EntryAt(hasZero: bool, index: nat, h: Header) {
    KeyAt(hasZero, index, h) && StaticEntry(index).value == h.value
  }

  /** What a search of the static map may answer, in whatever order it visits the entries. */
  ghost predicate Chooses(hasZero: bool, h: Header, w: Where) {
    match w
    case FullyIndexed(i) => EntryAt(hasZero, i, h)
    case KeyIndexed(i) => KeyAt(hasZero, i, h) && forall j :: !EntryAt(hasZero, j, h)
    case NotIndexed => forall j :: !KeyAt(hasZero, j, h)
  }

  ghost predicate AllChosen(hasZero: bool, list: seq<Header>, ws: seq<Where>) {
    |ws| == |list| && forall i :: 0 <= i < |list| ==> Chooses(hasZero, list[i], ws[i])
  }

  // ----- What is written -----

  function FlaggedInt(N: nat, value: uint32, flags: uint8): (bytes: seq<uint8>)
    requires 4 <= N <= 7 && flags as int + Limit(N) < 0x100
    ensures bytes != []
  {
    var e := EncodedInt(N, value);
    var first: int := flags + e[0];
    [first] + e[1..]
  }

  ghost function Coded(t: Table, text: seq<uint8>): CodedString
    requires Addressable(t)
  {
    var octets := Encoded(t, text);
    CodedString(FlaggedInt(7, |octets| % 0x1_0000_0000, 0x80), octets)
  }

  ghost function Written(t: Table, h: Header, w: Where): Representation
    requires Addressable(t)
  {
    match w
    case FullyIndexed(i) => Indexed(FlaggedInt(7, i % 0x1_0000_0000, 0x80))
    case KeyIndexed(i) => Field(FlaggedInt(6, i % 0x1_0000_0000, 0x40), None, Coded(t, h.value))
    case NotIndexed => Field([0], Some(Coded(t, h.key)), Coded(t, h.value))
  }

  ghost function AllWritten(t: Table, list: seq<Header>, ws: seq<Where>): (reps: seq<Representation>)
    requires Addressable(t) && |ws| == |list|
    ensures |reps| == |list|
  {
    if list == [] then [] else [Written(t, list[0], ws[0])] + AllWritten(t, list[1..], ws[1..])
  }

  function FinishedFrame(payload: seq<uint8>, streamId: uint32): Frame {
    Frame(|payload| % 0x1_0000_0000, HEADERS, 0x4, streamId, payload)
  }

  // ----- The class -----

  lemma {:induction false} WrittenSnoc(t: Table, list: seq<Header>, ws: seq<Where>, h: Header, w: Where)
    requires Addressable(t) && |ws| == |list|
    ensures BlockBytes(AllWritten(t, list + [h], ws + [w]))
            == BlockBytes(AllWritten(t, list, ws)) + Bytes(Written(t, h, w))
  {
    hide Written, Bytes;
    if list == [] {
      assert list + [h] == [h] && ws + [w] == [w];
      assert AllWritten(t, [h], [w]) == [Written(t, h, w)] + AllWritten(t, [], []);
      assert BlockBytes([Written(t, h, w)]) == Bytes(Written(t, h, w)) + BlockBytes([]);
    } else {
      assert (list + [h])[1..] == list[1..] + [h] && (ws + [w])[1..] == ws[1..] + [w];
      WrittenSnoc(t, list[1..], ws[1..], h, w);
      var first, rest := Written(t, list[0], ws[0]), AllWritten(t, list[1..] + [h], ws[1..] + [w]);
      assert AllWritten(t, list + [h], ws + [w]) == [first] + rest;
      assert ([first] + rest)[1..] == rest;
      assert ([first] + AllWritten(t, list[1..], ws[1..]))[1..] == AllWritten(t, list[1..], ws[1..]);
    }
  }

  lemma NextWritten(t: Table, hasZero: bool, before: seq<uint8>, list: seq<Header>, n: nat, ws: seq<Where>, w: Where)
    requires Addressable(t) && n < |list|
    requires AllChosen(hasZero, list[..n], ws) && Chooses(hasZero, list[n], w)
    ensures AllChosen(hasZero, list[..n + 1], ws + [w])
    ensures before + BlockBytes(AllWritten(t, list[..n + 1], ws + [w]))
            == before + BlockBytes(AllWritten(t, list[..n], ws)) + Bytes(Written(t, list[n], w))
  {
    hide Addressable, Chooses, Written, Bytes, AllWritten, BlockBytes;
    assert list[..n + 1] == list[..n] + [list[n]];
    WrittenSnoc(t, list[..n], ws, list[n], w);
    Associate(before, BlockBytes(AllWritten(t, list[..n], ws)), Bytes(Written(t, list[n], w)));
  }

  /** An integer with flag bits ORed into its first byte; masking that byte to its N bits changes nothing. */
  method EncodeFlagged(N: nat, value: uint32, flags: uint8) returns (wire: seq<uint8>)
    requires 4 <= N <= 7 && flags as int + Limit(N) < 0x100
    ensures wire == FlaggedInt(N, value, flags)
  {
    hide EncodedInt;
    var e := Encode(N, value);
    var first: int := flags + e[0] % (Limit(N) + 1);
    assert first == flags + e[0];
    wire := [first] + e[1..];
  }

  class Serializer {
    var payload: seq<uint8>
    const statics: StaticTable
    const decoder: Huffman

    constructor (statics: StaticTable, decoder: Huffman)
      ensures this.statics == statics && this.decoder == decoder && payload == []
    {
      payload := [];
      this.statics, this.decoder := statics, decoder;
    }

    ghost predicate Valid()
      reads decoder
    {
      decoder.Consistent() && Addressable(decoder.encodings)
    }

    /** `order` is the unspecified order in which iteration visits the keys of the static map. */
    method SearchIndex(h: Header, order: seq<nat>) returns (w: Where)
      requires forall i :: i in order <==> IsStaticKey(statics.hasZero, i)
      ensures Chooses(statics.hasZero, h, w)
    {
      var key := ToLower(h.key);
      var bestIndex: int := -1;
      hide StaticEntry, ToLower;
      for n := 0 to |order|
        invariant bestIndex == -1 || (bestIndex >= 0 && KeyAt(statics.hasZero, bestIndex, h))
        invariant bestIndex == -1 ==> forall m :: 0 <= m < n ==> !KeyAt(statics.hasZero, order[m], h)
        invariant forall m :: 0 <= m < n ==> !EntryAt(statics.hasZero, order[m], h)
      {
        var entry := StaticEntry(order[n]);
        if entry.key == key && entry.value == h.value {
          return FullyIndexed(order[n]);
        } else if entry.key == key && entry.value != h.value {
          bestIndex := order[n];
        }
      }
      w := if bestIndex != -1 then KeyIndexed(bestIndex) else NotIndexed;
    }

    /** Appends the Huffman-coded text with its flagged length. */
    method PutString(text: seq<uint8>)
      requires Valid()
      modifies this
      ensures payload == old(payload) + StringBytes(Coded(decoder.encodings, text))
    {
      hide Huffman.Consistent, Addressable, Encoded, FlaggedInt;
      var huffman := decoder.Encode(text);
      var wire := EncodeFlagged(7, |huffman| % 0x1_0000_0000, 0x80);
      Associate(payload, wire, huffman);
      payload := payload + wire;
      payload := payload + huffman;
    }

    method Serialize(list: seq<Header>, order: seq<nat>) returns (ghost ws: seq<Where>)
      requires Valid()
      requires forall i :: i in order <==> IsStaticKey(statics.hasZero, i)
      modifies this
      ensures AllChosen(statics.hasZero, list, ws)
      ensures payload == old(payload) + BlockBytes(AllWritten(decoder.encodings, list, ws))
    {
      ghost var t, before := decoder.encodings, payload;
      assert BlockBytes(AllWritten(t, list[..0], [])) == [];
      assert Addressable(t) && AllChosen(statics.hasZero, list[..0], []);
      hide Valid, AllChosen, Addressable, Written, Bytes, AllWritten, BlockBytes, IsStaticKey;
      ws := [];
      for n := 0 to |list|
        invariant |ws| == n && AllChosen(statics.hasZero, list[..n], ws)
        invariant payload == before + BlockBytes(AllWritten(t, list[..n], ws))
      {
        var w := SearchIndex(list[n], order);
        NextWritten(t, statics.hasZero, before, list, n, ws, w);
        PutHeader(list[n], w);
        ws := ws + [w];
      }
      assert list[..|list|] == list;
    }

    /** The body of the loop in `Serialize`. */
    method PutHeader(h: Header, w: Where)
      requires Valid()
      modifies this
      ensures payload == old(payload) + Bytes(Written(decoder.encodings, h, w))
    {
      assert Addressable(decoder.encodings);
      hide Valid, Addressable, Coded, StringBytes, FlaggedInt;
      match w {
        case FullyIndexed(i) =>
          var wire := EncodeFlagged(7, i % 0x1_0000_0000, 0x80);
          payload := payload + wire;
        case KeyIndexed(i) =>
          var wire := EncodeFlagged(6, i % 0x1_0000_0000, 0x40);
          PutField(wire, None, h.value);
        case NotIndexed =>
          PutField([0], Some(h.key), h.value);
      }
    }

    /** The first bytes of a literal, then its key unless that is indexed, then its value. */
    method PutField(wire: seq<uint8>, key: Option<seq<uint8>>, value: seq<uint8>)
      requires Valid()
      modifies this
      ensures var t := decoder.encodings;
              var codedKey := if key.Some? then Some(Coded(t, key.value)) else None;
              payload == old(payload) + Bytes(Field(wire, codedKey, Coded(t, value)))
    {
      ghost var t, before := decoder.encodings, payload;
      assert Addressable(t);
      hide Valid, Addressable, Coded, StringBytes;
      payload := payload + wire;
      ghost var keyBytes: seq<uint8> := [];
      if key.Some? {
        PutString(key.value);
        keyBytes := StringBytes(Coded(t, key.value));
      }
      assert payload == (before + wire) + keyBytes;
      ghost var valueBytes := StringBytes(Coded(t, value));
      Associate(before, wire, keyBytes);
      Associate(before, wire + keyBytes, valueBytes);
      Associate(wire, keyBytes, valueBytes);
      PutString(value);
    }

    /** Moves the payload into a HEADERS frame, which leaves the serializer empty. */
    method Finish(streamId: uint32) returns (f: Frame)
      modifies this
      ensures f == FinishedFrame(old(payload), streamId) && payload == []
    {
      f := Frame(|payload| % 0x1_0000_0000, HEADERS, 0x4, streamId, payload);
      payload := [];
    }
  }

  /**
   * The bytes: an index in one byte under 0x80, a key index in one byte under 0x40, or a zero byte and the
   * key; and strings always Huffman-coded, their lengths under the flag 0x80.
   */
  lemma WrittenBytes(t: Table, h: Header, w: Where)
    requires Addressable(t) && (!w.NotIndexed? ==> w.index <= 61)
    ensures match w
            case FullyIndexed(i) => Bytes(Written(t, h, w)) == [0x80 + i]
            case KeyIndexed(i) => Bytes(Written(t, h, w)) == [0x40 + i] + StringBytes(Coded(t, h.value))
            case NotIndexed =>
              Bytes(Written(t, h, w)) == [0] + (StringBytes(Coded(t, h.key)) + StringBytes(Coded(t, h.value)))
  {
    hide Addressable, Coded, StringBytes;
    match w
    case FullyIndexed(i) => OneByteInt(7, i, 0x80);
    case KeyIndexed(i) =>
      OneByteInt(6, i, 0x40);
      assert [] + StringBytes(Coded(t, h.value)) == StringBytes(Coded(t, h.value));
    case NotIndexed =>
  }

  lemma OneByteInt(N: nat, value: uint32, flags: uint8)
    requires 6 <= N <= 7 && value <= 61 && flags as int + Limit(N) < 0x100
    ensures FlaggedInt(N, value, flags) == [flags + value]
  {
    EncodedIntIs(N, value);
  }

  lemma StringIsWritten(t: Table, text: seq<uint8>)
    requires Addressable(t)
    ensures |Encoded(t, text)| < 127 ==>
              StringBytes(Coded(t, text)) == [0x80 + |Encoded(t, text)|] + Encoded(t, text)
    ensures 127 <= |Encoded(t, text)| < 0x1_0000_0000 ==>
              var e := EncodedInt(7, |Encoded(t, text)|);
              StringBytes(Coded(t, text)) == ([0xFF] + e[1..]) + Encoded(t, text)
  {
    hide Addressable, Encoded;
    var n := |Encoded(t, text)|;
    if n < 0x1_0000_0000 { EncodedIntIs(7, n); }
  }

  // ----- What is read back -----

  ghost predicate HasStaticKey(h: Header) {
    exists i :: 1 <= i <= 61 && KeyAt(false, i, h)
  }

  ghost predicate IsStaticEntry(h: Header) {
    exists i :: 1 <= i <= 61 && EntryAt(false, i, h)
  }

  /** The header as the peer sees it: the key is lower-cased just when it is found in the static table. */
  ghost function Norm(h: Header): Header {
    if HasStaticKey(h) then Header(ToLower(h.key), h.value) else h
  }

  /** Headers sent with an indexed key enter the peer's dynamic table. */
  ghost predicate EntersTable(h: Header) {
    HasStaticKey(h) && !IsStaticEntry(h)
  }

  ghost function Norms(list: seq<Header>): (r: seq<Header>)
    ensures |r| == |list|
  {
    if list == [] then [] else [Norm(list[0])] + Norms(list[1..])
  }

  /** The headers of `list` that enter the table, newest first. */
  ghost function Entering(list: seq<Header>): seq<Header> {
    if list == [] then []
    else Entering(list[1..]) + (if EntersTable(list[0]) then [Norm(list[0])] else [])
  }

  /**
   * The headers that survive, when the sender's static map has key 0 or not, and the reader's likewise.
   * Once the sender has it, an empty key with a value is sent with key index 0, which announces a literal
   * key.  As long as the reader has 61 entries, index 61 is out of its range: no `www-authenticate`.
   */
  ghost predicate Survives(senderZero: bool, readerZero: bool, h: Header) {
    !(senderZero && h.key == [] && h.value != []) && (readerZero || ToLower(h.key) != WWW_AUTHENTICATE)
  }

  /** The empty header is sent as index 0 by a sender that has it, and gives the reader key 0 as well. */
  predicate GivesZero(senderZero: bool, h: Header) {
    senderZero && h == Header([], [])
  }

  ghost predicate AllSurvive(senderZero: bool, readerZero: bool, list: seq<Header>)
    decreases |list|
  {
    list == []
    || (Survives(senderZero, readerZero, list[0])
        && AllSurvive(senderZero, readerZero || GivesZero(senderZero, list[0]), list[1..]))
  }

  /** A reader that has key 0 reads all that one without it does. */
  lemma {:induction false} ZeroOnlyHelps(senderZero: bool, readerZero: bool, list: seq<Header>)
    requires AllSurvive(senderZero, readerZero, list)
    ensures AllSurvive(senderZero, true, list)
    decreases |list|
  {
    if list != [] { ZeroOnlyHelps(senderZero, readerZero || GivesZero(senderZero, list[0]), list[1..]); }
  }

  /**
   * A list survives whatever the two maps have exactly if it has no `www-authenticate` and no empty key
   * with a value.
   */
  lemma SurvivesEveryView(list: seq<Header>)
    ensures AllSurvive(true, false, list) && AllSurvive(false, false, list)
            <==> forall h :: h in list ==> Survives(true, false, h)
    ensures (forall h :: h in list ==> Survives(true, false, h)) ==>
              forall senderZero, readerZero :: AllSurvive(senderZero, readerZero, list)
  {
    if forall h :: h in list ==> Survives(true, false, h) {
      forall senderZero, readerZero ensures AllSurvive(senderZero, readerZero, list) {
        PlainListSurvives(senderZero, readerZero, list);
      }
    } else {
      var h :| h in list && !Survives(true, false, h);
      hide ToLower;
      if AllSurvive(true, false, list) { SurvivorsAreChecked(true, false, list, h); }
      if AllSurvive(false, false, list) { SurvivorsAreChecked(false, false, list, h); }
    }
  }

  lemma {:induction false} PlainListSurvives(senderZero: bool, readerZero: bool, list: seq<Header>)
    requires forall h :: h in list ==> Survives(true, false, h)
    ensures AllSurvive(senderZero, readerZero, list)
    decreases |list|
  {
    hide ToLower;
    if list != [] {
      assert list[0] in list;
      PlainListSurvives(senderZero, readerZero || GivesZero(senderZero, list[0]), list[1..]);
    }
  }

  lemma {:induction false} SurvivorsAreChecked(senderZero: bool, readerZero: bool, list: seq<Header>, h: Header)
    requires AllSurvive(senderZero, readerZero, list) && h in list
    ensures Survives(senderZero, readerZero || (senderZero && Header([], []) in list), h)
    decreases |list|
  {
    hide ToLower;
    if h != list[0] {
      assert list == [list[0]] + list[1..];
      SurvivorsAreChecked(senderZero, readerZero || GivesZero(senderZero, list[0]), list[1..], h);
    }
  }

  /** Lengths go on the wire as 32-bit integers. */
  ghost predicate Sendable(t: Table, list: seq<Header>)
    requires Addressable(t)
  {
    forall h :: h in list ==> |Encoded(t, h.key)| < 0x1_0000_0000 && |Encoded(t, h.value)| < 0x1_0000_0000
  }

  lemma FlaggedIntIsWhole(N: nat, value: uint32, flags: uint8)
    requires 4 <= N <= 7 && flags as int + Limit(N) < 0x100 && flags % (Limit(N) + 1) == 0
    ensures var e := FlaggedInt(N, value, flags);
            WholeInt(N, e) && IntOf(N, e) == value && flags <= e[0] <= flags + Limit(N)
  {
    EncodedIsWhole(N, value, flags);
    IntRoundTrip(N, value, flags, []);
    var e := FlaggedInt(N, value, flags);
    assert e + [] == e;
  }

  lemma CanonicalIsAddressable(t: Table)
    requires Canonical(t)
    ensures Addressable(t)
  {
  }

  lemma CodedIsWhole(t: Table, text: seq<uint8>)
    requires Canonical(t) && |Encoded(t, text)| < 0x1_0000_0000
    ensures WholeString(Coded(t, text)) && StringText(t, Coded(t, text)) == text
  {
    hide Canonical, Encoded, Decoded, WholeInt, DecodedInt, FlaggedInt;
    assert Addressable(t) by { CanonicalIsAddressable(t); }
    RoundTrip(t, text);
    FlaggedIntIsWhole(7, |Encoded(t, text)|, 0x80);
  }

  /** A choice that names a static entry names one with the right key, inside the reader's table. */
  lemma ChosenEntry(senderZero: bool, readerZero: bool, h: Header, w: Where)
    requires Chooses(senderZero, h, w) && Survives(senderZero, readerZero, h)
    ensures w.FullyIndexed? ==> w.index < StaticSize(readerZero) && StaticEntry(w.index) == Norm(h)
    ensures w == FullyIndexed(0) <==> GivesZero(senderZero, h)
    ensures w.KeyIndexed? ==> 0 < w.index < StaticSize(readerZero) && StaticEntry(w.index).key == Norm(h).key
    ensures w.KeyIndexed? <==> EntersTable(h)
    ensures w.NotIndexed? ==> Norm(h) == h
    ensures Norm(h).value == h.value
  {
    assert StaticEntry(0) == Header([], []);
    StaticKeys(0);
    if !w.NotIndexed? { StaticKeys(w.index); }
    hide StaticEntry;
    assert forall j :: KeyAt(false, j, h) ==> KeyAt(senderZero, j, h);
    assert forall j :: EntryAt(false, j, h) ==> EntryAt(senderZero, j, h);
    assert GivesZero(senderZero, h) ==> EntryAt(senderZero, 0, h);
    match w
    case FullyIndexed(i) =>
      if i > 0 { assert EntryAt(false, i, h) && KeyAt(false, i, h); } else { EmptyKeyIsNotStatic(h); }
    case KeyIndexed(i) =>
      assert i == 0 ==> EntryAt(senderZero, i, h);
      assert KeyAt(false, i, h);
    case NotIndexed =>
  }

  // ----- Spellings -----

  /** `s` is `small`, but for some letters that are capitals. */
  predicate Respells(s: seq<uint8>, small: seq<uint8>) {
    && |s| == |small|
    && forall k :: 0 <= k < |s| ==> s[k] == small[k] || (0x41 <= s[k] <= 0x5A && small[k] == (s[k] as int) + 0x20)
  }

  /** Lower-casing leaves no byte of 0x41 to 0x5A; it adds 0x20 to those and keeps all others. */
  lemma ToLowerIs(s: seq<uint8>, k: nat)
    requires k < |s|
    ensures !(0x41 <= ToLower(s)[k] <= 0x5A)
    ensures ToLower(s)[k] as int == if 0x41 <= s[k] <= 0x5A then (s[k] as int) + 0x20 else s[k]
  {
  }

  lemma ToLowerSpells(s: seq<uint8>, small: seq<uint8>)
    requires forall b :: b in small ==> !IsCapital(b)
    ensures ToLower(s) == small <==> Respells(s, small)
  {
    if Respells(s, small) {
      forall k | 0 <= k < |s| ensures ToLower(s)[k] == small[k] {
        ToLowerIs(s, k);
        assert small[k] in small;
      }
    }
    if ToLower(s) == small {
      forall k | 0 <= k < |s| ensures s[k] == small[k] || (0x41 <= s[k] <= 0x5A && small[k] == (s[k] as int) + 0x20) {
        ToLowerIs(s, k);
      }
    }
  }

  /** What the search looks for, in terms of the spelling of keys. */
  lemma KeyAtIs(hasZero: bool, index: nat, h: Header)
    ensures KeyAt(hasZero, index, h) <==>
              || (1 <= index <= 61 && Respells(h.key, StaticEntry(index).key))
              || (index == 0 && hasZero && h.key == [])
  {
    if 1 <= index <= 61 {
      KeysAreSmall(index);
      hide StaticEntry, ToLower;
      ToLowerSpells(h.key, StaticEntry(index).key);
    } else if index == 0 {
      StaticKeys(0);
      hide StaticEntry;
    }
  }

  /**
   * A header is found if and only if its key respells a key of the table, or is empty and key 0 is there;
   * what is found has that key, and the header's value if any such entry does.
   */
  lemma SearchGoesBySpelling(hasZero: bool, h: Header, w: Where)
    requires Chooses(hasZero, h, w)
    ensures w.NotIndexed? <==>
              !(hasZero && h.key == []) && forall i :: 1 <= i <= 61 ==> !Respells(h.key, StaticEntry(i).key)
    ensures !w.NotIndexed? ==>
              || (1 <= w.index <= 61 && Respells(h.key, StaticEntry(w.index).key))
              || (w.index == 0 && hasZero && h.key == [])
    ensures w.FullyIndexed? ==> StaticEntry(w.index).value == h.value
    ensures w.KeyIndexed? ==>
              && !(hasZero && h == Header([], []))
              && forall i :: 1 <= i <= 61 && Respells(h.key, StaticEntry(i).key) ==> StaticEntry(i).value != h.value
  {
    forall i: nat ensures KeyAt(hasZero, i, h) <==>
                            || (1 <= i <= 61 && Respells(h.key, StaticEntry(i).key))
                            || (i == 0 && hasZero && h.key == [])
    {
      KeyAtIs(hasZero, i, h);
    }
    assert StaticEntry(0) == Header([], []);
    hide StaticEntry, KeyAt, Respells;
    assert w.NotIndexed? ==> !KeyAt(hasZero, 0, h);
    if w.KeyIndexed? {
      assert !EntryAt(hasZero, 0, h);
      forall i | 1 <= i <= 61 && Respells(h.key, StaticEntry(i).key) ensures StaticEntry(i).value != h.value {
        assert !EntryAt(hasZero, i, h);
      }
    }
  }

  /** The peer sees a key of the table as the table spells it, and any other key as it was given. */
  lemma NormGoesBySpelling(h: Header)
    ensures Norm(h).value == h.value
    ensures forall i :: 1 <= i <= 61 && Respells(h.key, StaticEntry(i).key) ==> Norm(h).key == StaticEntry(i).key
    ensures (forall i :: 1 <= i <= 61 ==> !Respells(h.key, StaticEntry(i).key)) ==> Norm(h) == h
  {
    forall i: nat ensures KeyAt(false, i, h) <==> 1 <= i <= 61 && Respells(h.key, StaticEntry(i).key) {
      KeyAtIs(false, i, h);
    }
    hide StaticEntry, Respells, ToLower;
  }

  /** "Content-Type" is found as "content-type". */
  lemma ContentTypeIsFound(hasZero: bool, h: Header, w: Where)
    requires h.key == Text("Content-Type") && Chooses(hasZero, h, w)
    ensures !w.NotIndexed? && StaticEntry(w.index).key == Text("content-type") == Norm(h).key
  {
    ContentTypeRespells();
    SearchGoesBySpelling(hasZero, h, w);
    NormGoesBySpelling(h);
    if w.index > 0 { SpellingIsUnique(h.key, StaticEntry(w.index).key, StaticEntry(31).key, w.index, 31); }
    hide StaticEntry, Respells, Text;
  }

  lemma ContentTypeRespells()
    ensures Text("Content-Type") != [] && StaticEntry(31).key == Text("content-type")
    ensures Respells(Text("Content-Type"), StaticEntry(31).key)
  {
    assert "Content-Type"[0] == 'C' && "content-type"[0] == 'c';
    assert "Content-Type"[8] == 'T' && "content-type"[8] == 't';
    assert "Content-Type"[1..8] == "content-type"[1..8] && "Content-Type"[9..] == "content-type"[9..];
    var a, b := "Content-Type", "content-type";
    forall k | 0 <= k < 12 && k != 0 && k != 8 ensures a[k] == b[k] {
      if k < 8 { assert a[1..8][k - 1] == b[1..8][k - 1]; } else { assert a[9..][k - 9] == b[9..][k - 9]; }
    }
  }

  /** No two keys of the table are spelled alike. */
  lemma SpellingIsUnique(s: seq<uint8>, a: seq<uint8>, b: seq<uint8>, i: nat, j: nat)
    requires 1 <= i <= 61 && 1 <= j <= 61 && a == StaticEntry(i).key && b == StaticEntry(j).key
    requires Respells(s, a) && Respells(s, b)
    ensures a == b
  {
    KeysAreSmall(i);
    KeysAreSmall(j);
    hide StaticEntry;
    ToLowerSpells(s, a);
    ToLowerSpells(s, b);
  }

  lemma EmptyKeyIsNotStatic(h: Header)
    requires h.key == []
    ensures !HasStaticKey(h)
  {
    forall i | 1 <= i <= 61 ensures !KeyAt(false, i, h) {
      StaticKeys(i);
    }
  }
}
