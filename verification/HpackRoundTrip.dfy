/**
 * What the HPACK parser reads back from the HPACK serializer: for any earlier state of the parser and
 * any choices of the search, exactly the headers that `Survives` describes come back, in the form
 * `Norm` gives them.
 */
module HpackRoundTrip {
  import opened Options
  import opened Bits
  import opened Huffman
  import opened VariableInteger
  import opened Frames
  import opened HpackStatics
  import opened HpackParser
  import opened HpackGrammar
  import opened HpackSerializer

  /** The parser's state once `list` has been read; the sender's map has key 0 or not. */
  ghost function AfterReading(senderZero: bool, d: Decoder, list: seq<Header>): Decoder {
    Decoder(Entering(list) + d.table, d.decoded + Norms(list), d.hasZero || (senderZero && Header([], []) in list))
  }

  /** The sender's choices for a list that fits the wire. */
  ghost predicate Intact(t: Table, senderZero: bool, list: seq<Header>, ws: seq<Where>) {
    Canonical(t) && AllChosen(senderZero, list, ws) && Sendable(t, list)
  }

  /** One header read in its normal form. */
  ghost function WithNorm(senderZero: bool, d: Decoder, h: Header): Decoder {
    WithHeader(d, Norm(h), EntersTable(h)).(hasZero := d.hasZero || GivesZero(senderZero, h))
  }

  lemma AfterReadingOne(senderZero: bool, d: Decoder, h: Header)
    ensures AfterReading(senderZero, d, [h]) == WithNorm(senderZero, d, h)
  {
    hide Norm, EntersTable;
    assert Norms([h]) == [Norm(h)] + Norms([]);
    assert Entering([h]) == Entering([]) + (if EntersTable(h) then [Norm(h)] else []);
  }

  lemma IndexedMeansNorm(t: Table, senderZero: bool, d: Decoder, h: Header, i: nat)
    requires Chooses(senderZero, h, FullyIndexed(i)) && Survives(senderZero, d.hasZero, h)
    ensures var rep := Indexed(FlaggedInt(7, i % 0x1_0000_0000, 0x80));
            Whole(rep) && Meaning(t, d, rep) == Some(WithNorm(senderZero, d, h))
  {
    hide Chooses, Survives, EntersTable, Norm, WholeInt, DecodedInt, FlaggedInt, StaticEntry, GivesZero;
    ChosenEntry(senderZero, d.hasZero, h, FullyIndexed(i));
    FlaggedIntIsWhole(7, i, 0x80);
  }

  lemma KeyIndexedMeansNorm(t: Table, senderZero: bool, d: Decoder, h: Header, i: nat)
    requires Canonical(t) && Addressable(t) && |Encoded(t, h.value)| < 0x1_0000_0000
    requires Chooses(senderZero, h, KeyIndexed(i)) && Survives(senderZero, d.hasZero, h)
    ensures var rep := Field(FlaggedInt(6, i % 0x1_0000_0000, 0x40), None, Coded(t, h.value));
            Whole(rep) && Meaning(t, d, rep) == Some(WithNorm(senderZero, d, h))
  {
    hide Canonical, Addressable, Chooses, Survives, EntersTable, Norm, Encoded, WholeInt, DecodedInt, FlaggedInt,
         StaticEntry, Coded, WholeString, StringText, GivesZero;
    ChosenEntry(senderZero, d.hasZero, h, KeyIndexed(i));
    FlaggedIntIsWhole(6, i, 0x40);
    CodedIsWhole(t, h.value);
  }

  lemma LiteralMeansNorm(t: Table, senderZero: bool, d: Decoder, h: Header)
    requires Canonical(t) && Addressable(t) && |Encoded(t, h.key)| < 0x1_0000_0000 && |Encoded(t, h.value)| < 0x1_0000_0000
    requires Chooses(senderZero, h, NotIndexed) && Survives(senderZero, d.hasZero, h)
    ensures var rep := Field([0], Some(Coded(t, h.key)), Coded(t, h.value));
            Whole(rep) && Meaning(t, d, rep) == Some(WithNorm(senderZero, d, h))
  {
    hide Canonical, Addressable, Chooses, Survives, EntersTable, Norm, Encoded, WholeInt, DecodedInt, Coded,
         WholeString, StringText, GivesZero;
    ChosenEntry(senderZero, d.hasZero, h, NotIndexed);
    ZeroIsWhole();
    CodedIsWhole(t, h.key);
    CodedIsWhole(t, h.value);
  }

  lemma ZeroIsWhole()
    ensures WholeInt(4, [0]) && IntOf(4, [0]) == 0
  {
  }

  /** One header: what is written is a whole representation that means the normalised header. */
  lemma WrittenMeansNorm(t: Table, senderZero: bool, d: Decoder, h: Header, w: Where)
    requires Canonical(t) && Sendable(t, [h])
    requires Chooses(senderZero, h, w) && Survives(senderZero, d.hasZero, h)
    ensures Whole(Written(t, h, w))
    ensures Meaning(t, d, Written(t, h, w)) == Some(AfterReading(senderZero, d, [h]))
  {
    CanonicalIsAddressable(t);
    assert h in [h];
    AfterReadingOne(senderZero, d, h);
    hide Canonical, Addressable, Chooses, Survives, WithNorm, Encoded, Meaning, Whole, FlaggedInt, Coded, AfterReading;
    match w
    case FullyIndexed(i) => IndexedMeansNorm(t, senderZero, d, h, i);
    case KeyIndexed(i) => KeyIndexedMeansNorm(t, senderZero, d, h, i);
    case NotIndexed => LiteralMeansNorm(t, senderZero, d, h);
  }

  lemma {:induction false} AllWrittenMeanNorms(t: Table, senderZero: bool, d: Decoder, list: seq<Header>, ws: seq<Where>)
    requires Intact(t, senderZero, list, ws) && AllSurvive(senderZero, d.hasZero, list)
    ensures Addressable(t) && AllWhole(AllWritten(t, list, ws))
    ensures BlockMeaning(t, d, AllWritten(t, list, ws)) == Parsed(AfterReading(senderZero, d, list), Done)
    decreases |list|
  {
    CanonicalIsAddressable(t);
    if list == [] {
      assert AfterReading(senderZero, d, []) == d;
    } else {
      var h, rest := list[0], list[1..];
      assert h in list && Chooses(senderZero, h, ws[0]);
      assert Sendable(t, [h]) && Sendable(t, rest);
      hide Canonical, Addressable, Written, Meaning, Whole, Chooses, Survives, Norm, EntersTable, Encoded;
      WrittenMeansNorm(t, senderZero, d, h, ws[0]);
      var reps := AllWritten(t, list, ws);
      assert reps[0] == Written(t, h, ws[0]) && reps[1..] == AllWritten(t, rest, ws[1..]);
      var d' := AfterReading(senderZero, d, [h]);
      assert d'.hasZero == (d.hasZero || GivesZero(senderZero, h)) && list == [h] + rest;
      assert Intact(t, senderZero, rest, ws[1..]) && AllSurvive(senderZero, d'.hasZero, rest);
      hide AfterReading, AllWritten, Intact, AllSurvive, Sendable;
      AllWrittenMeanNorms(t, senderZero, d', rest, ws[1..]);
      AfterReadingMore(senderZero, d, h, rest);
      assert AllWhole(reps);
    }
  }

  lemma AfterReadingMore(senderZero: bool, d: Decoder, h: Header, rest: seq<Header>)
    ensures AfterReading(senderZero, AfterReading(senderZero, d, [h]), rest) == AfterReading(senderZero, d, [h] + rest)
  {
    hide Norm, EntersTable;
    var list := [h] + rest;
    assert list[0] == h && list[1..] == rest;
    assert Norms([h]) == [Norm(h)] + Norms([]);
    var one := if EntersTable(h) then [Norm(h)] else [];
    assert Entering([h]) == Entering([]) + one;
    assert (d.decoded + [Norm(h)]) + Norms(rest) == d.decoded + ([Norm(h)] + Norms(rest));
    assert Entering(rest) + (one + d.table) == (Entering(rest) + one) + d.table;
  }

  /** The frame that `serialize` and `finish` make of a list. */
  ghost function SentFrame(t: Table, list: seq<Header>, ws: seq<Where>, streamId: uint32): Frame
    requires Addressable(t) && |ws| == |list|
  {
    FinishedFrame(BlockBytes(AllWritten(t, list, ws)), streamId)
  }

  lemma FinishedFrameIsBlock(payload: seq<uint8>, streamId: uint32)
    requires payload != []
    ensures var f := FinishedFrame(payload, streamId); StripHeaders(f) == Block(payload) && EndsBlock(f)
  {
    assert Shr(0x4, PADDED) == 0 && Shr(0x4, PRIORITY) == 0 && Shr(0x4, END_HEADERS) == 1 by {
      assert Shr(0x4, 1) == 2 && Shr(0x4, 2) == 1 && Shr(0x4, 3) == 0;
      assert Shr(0x4, 5) == Shr(1, 3) == Shr(0, 2) == 0;
    }
  }

  /**
   * Every list of surviving headers is read back whole, whatever the maps of sender and reader have, and
   * nothing else changes.
   */
  lemma SurvivingHeadersAreReadBack(t: Table, senderZero: bool, d: Decoder, list: seq<Header>, ws: seq<Where>,
                                    streamId: uint32)
    requires Intact(t, senderZero, list, ws) && list != [] && AllSurvive(senderZero, d.hasZero, list)
    ensures Addressable(t)
    ensures ParsedFrame(t, d, SentFrame(t, list, ws, streamId)) == Parsed(AfterReading(senderZero, d, list), Done)
  {
    hide AfterReading, Canonical, Written, Addressable, Whole, Meaning, Bytes, StripHeaders, EndsBlock, AllSurvive;
    AllWrittenMeanNorms(t, senderZero, d, list, ws);
    var reps := AllWritten(t, list, ws);
    assert reps[0] in reps;
    WholeIsNotEmpty(reps[0]);
    var p := BlockBytes(reps);
    assert p + [] == p;
    ParserFollowsGrammar(t, d, reps, []);
    FinishedFrameIsBlock(p, streamId);
  }

  /**
   * One header of such a list, by its spelling: a key of the static table comes back as the table spells
   * it, however it was spelled; every other key and every value come back as they were.
   */
  lemma HeaderComesBackAs(t: Table, senderZero: bool, d: Decoder, list: seq<Header>, ws: seq<Where>, streamId: uint32,
                          k: nat)
    requires Intact(t, senderZero, list, ws) && AllSurvive(senderZero, d.hasZero, list) && k < |list|
    ensures Addressable(t)
    ensures var r := ParsedFrame(t, d, SentFrame(t, list, ws, streamId));
            && r.status == Done && |r.d.decoded| == |d.decoded| + |list|
            && var h := r.d.decoded[|d.decoded| + k];
            && h.value == list[k].value
            && (forall i :: 1 <= i <= 61 && Respells(list[k].key, StaticEntry(i).key) ==> h.key == StaticEntry(i).key)
            && ((forall i :: 1 <= i <= 61 ==> !Respells(list[k].key, StaticEntry(i).key)) ==> h.key == list[k].key)
  {
    SurvivingHeadersAreReadBack(t, senderZero, d, list, ws, streamId);
    NormsAt(list, k);
    NormGoesBySpelling(list[k]);
    hide Intact, AllSurvive, Addressable, Entering, Norms, Norm, ParsedFrame, SentFrame, Respells, StaticEntry;
  }

  lemma WholeIsNotEmpty(rep: Representation)
    requires Whole(rep)
    ensures Bytes(rep) != []
  {
  }

  // ----- Headers that do not survive -----

  /** While the reader's map has 61 entries, `www-authenticate` comes with an index that is refused. */
  lemma RefusedIndex(t: Table, senderZero: bool, d: Decoder, h: Header, w: Where, tail: seq<uint8>)
    requires Canonical(t) && Addressable(t) && !d.hasZero && |d.table| < 0x1_0000_0000 - 1
    requires Chooses(senderZero, h, w) && ToLower(h.key) == WWW_AUTHENTICATE && |Encoded(t, h.value)| < 0x1_0000_0000
    ensures Bytes(Written(t, h, w)) != []
    ensures Step(t, d, Bytes(Written(t, h, w)) + tail) == Stop(UnknownHeader)
  {
    hide Canonical, Addressable, Chooses, Survives, Encoded, WholeInt, DecodedInt, FlaggedInt, Coded, WholeString,
         StaticEntry, Step;
    RefusedChoice(senderZero, h, w);
    hide ToLower;
    assert Lookup(d, 61) == None;
    var rep := Written(t, h, w);
    assert Whole(rep) && Meaning(t, d, rep) == None by {
      hide Lookup;
      if w.FullyIndexed? {
        FlaggedIntIsWhole(7, 61, 0x80);
      } else {
        FlaggedIntIsWhole(6, 61, 0x40);
        CodedIsWhole(t, h.value);
      }
    }
    hide Written, Whole, Meaning, Bytes;
    StepFollowsGrammar(t, d, rep, tail);
  }

  lemma RefusedChoice(senderZero: bool, h: Header, w: Where)
    requires Chooses(senderZero, h, w) && ToLower(h.key) == WWW_AUTHENTICATE
    ensures !w.NotIndexed? && w.index == 61
  {
    StaticKeys(61);
    assert KeyAt(senderZero, 61, h);
    if !w.NotIndexed? { StaticKeys(w.index); }
  }

  /** Once key 0 is in the sender's map, an empty key is sent as index 0, and the value is read as the key. */
  lemma MisreadKey(t: Table, d: Decoder, h: Header, w: Where, tail: seq<uint8>)
    requires Canonical(t) && Addressable(t)
    requires Chooses(true, h, w) && h.key == [] && h.value != [] && |Encoded(t, h.value)| < 0x1_0000_0000
    ensures Bytes(Written(t, h, w)) != []
    ensures match Step(t, d, Bytes(Written(t, h, w)) + tail)
            case Stop(status) => status != Done
            case Next(d', n) =>
              |d'.decoded| == |d.decoded| + 1 && d'.decoded[|d.decoded|].key == h.value
  {
    hide Canonical, Addressable, Chooses, Survives, Encoded, WholeInt, Coded, WholeString, StaticEntry;
    MisreadChoice(h, w);
    CodedIsWhole(t, h.value);
    var s := Coded(t, h.value);
    var rest := StringBytes(s) + tail;
    var p := [0x40] + rest;
    WrittenWithKeyZero(t, h);
    Associate([0x40], StringBytes(s), tail);
    assert Bytes(Written(t, h, w)) + tail == p;
    hide Written, Bytes, FlaggedInt, StringBytes, ParsedString;
    assert p[1..] == rest;
    assert Step(t, d, p) == LiteralStep(t, d, p, 6, true) && DecodedInt(6, p) == Value(0, 1) by {
      hide LiteralStep;
    }
    hide Step, DecodedInt;
    LiteralWithIndex(t, d, p, 6, true, 0, 1);
    ReadWholeString(t, s, tail);
  }

  lemma WrittenWithKeyZero(t: Table, h: Header)
    requires Addressable(t)
    ensures Bytes(Written(t, h, KeyIndexed(0))) == [0x40] + StringBytes(Coded(t, h.value))
  {
    hide Addressable, Coded, StringBytes;
    assert FlaggedInt(6, 0, 0x40) == [0x40];
    assert [] + StringBytes(Coded(t, h.value)) == StringBytes(Coded(t, h.value));
  }

  lemma MisreadChoice(h: Header, w: Where)
    requires Chooses(true, h, w) && h.key == [] && h.value != []
    ensures w == KeyIndexed(0)
  {
    assert StaticEntry(0) == Header([], []);
    assert KeyAt(true, 0, h);
    if !w.NotIndexed? { StaticKeys(w.index); }
  }

  /** A header that does not survive spoils the block: an error, or a wrong header in its place. */
  lemma LostHeaderIsNoticed(t: Table, senderZero: bool, d: Decoder, h: Header, w: Where, tail: seq<uint8>)
    requires Canonical(t) && Sendable(t, [h])
    requires Chooses(senderZero, h, w) && !Survives(senderZero, d.hasZero, h) && |d.table| < 0x1_0000_0000 - 1
    ensures Addressable(t) && Bytes(Written(t, h, w)) != []
    ensures var r := ParsedBlock(t, d, Bytes(Written(t, h, w)) + tail);
            r.status.Done? ==> |r.d.decoded| > |d.decoded| && r.d.decoded[|d.decoded|] != Norm(h)
  {
    CanonicalIsAddressable(t);
    assert h in [h];
    var misread := senderZero && h.key == [] && h.value != [];
    if misread { EmptyKeyIsNotStatic(h); }
    assert misread ==> Norm(h) == h;
    hide Canonical, Addressable, Norm, Chooses, ToLower, Written, Bytes, Step;
    var p := Bytes(Written(t, h, w)) + tail;
    if misread {
      MisreadKey(t, d, h, w, tail);
      var s := Step(t, d, p);
      if s.Next? { DecodedGrows(t, s.d, p[s.length..]); }
    } else {
      RefusedIndex(t, senderZero, d, h, w, tail);
    }
  }

  /**
   * Whatever the maps of sender and reader have, the round trip holds exactly for the lists whose headers
   * all survive.  (The bound on the table only says that its indices fit the 32 bits that the parser
   * computes them in.)
   */
  lemma HpackRoundTrip(t: Table, senderZero: bool, d: Decoder, list: seq<Header>, ws: seq<Where>, streamId: uint32)
    requires Intact(t, senderZero, list, ws) && list != [] && |d.table| + |list| < 0x1_0000_0000 - 1
    ensures Addressable(t)
    ensures var r, survive := ParsedFrame(t, d, SentFrame(t, list, ws, streamId)), AllSurvive(senderZero, d.hasZero, list);
            && (survive <==> r == Parsed(AfterReading(senderZero, d, list), Done))
            && (survive <==> r.status.Done? && r.d.decoded == d.decoded + Norms(list))
  {
    CanonicalIsAddressable(t);
    if AllSurvive(senderZero, d.hasZero, list) {
      SurvivingHeadersAreReadBack(t, senderZero, d, list, ws, streamId);
    } else {
      var k := FirstLost(senderZero, d.hasZero, list);
      LostListIsNoticed(t, senderZero, d, list, ws, k);
      assert BlockBytes(AllWritten(t, list, ws)) != [];
      FinishedFrameIsBlock(BlockBytes(AllWritten(t, list, ws)), streamId);
    }
  }

  lemma {:induction false} FirstLost(senderZero: bool, readerZero: bool, list: seq<Header>) returns (k: nat)
    requires !AllSurvive(senderZero, readerZero, list)
    ensures k < |list| && AllSurvive(senderZero, readerZero, list[..k])
    ensures !Survives(senderZero, readerZero || (senderZero && Header([], []) in list[..k]), list[k])
    decreases |list|
  {
    hide Survives;
    if !Survives(senderZero, readerZero, list[0]) {
      k := 0;
    } else {
      var rest := list[1..];
      k := FirstLost(senderZero, readerZero || GivesZero(senderZero, list[0]), rest);
      k := k + 1;
      assert list[..k] == [list[0]] + rest[..k - 1];
      assert list[..k][1..] == rest[..k - 1];
    }
  }

  lemma LostListIsNoticed(t: Table, senderZero: bool, d: Decoder, list: seq<Header>, ws: seq<Where>, k: nat)
    requires Intact(t, senderZero, list, ws) && |d.table| + |list| < 0x1_0000_0000 - 1
    requires k < |list| && AllSurvive(senderZero, d.hasZero, list[..k])
    requires !Survives(senderZero, d.hasZero || (senderZero && Header([], []) in list[..k]), list[k])
    ensures Addressable(t) && BlockBytes(AllWritten(t, list, ws)) != []
    ensures var r := ParsedBlock(t, d, BlockBytes(AllWritten(t, list, ws)));
            r.status.Done? ==> r.d.decoded != d.decoded + Norms(list)
  {
    hide *;
    IntactParts(t, senderZero, list, ws, k);
    BeforeLost(senderZero, d, list, k);
    var h, w, d' := list[k], ws[k], AfterReading(senderZero, d, list[..k]);
    var n := |d'.decoded|;
    SplitBlock(t, list, ws, k);
    var tail := BlockBytes(AllWritten(t, list[k + 1..], ws[k + 1..]));
    ReadUpTo(t, senderZero, d, list[..k], ws[..k], Bytes(Written(t, h, w)) + tail);
    LostHeaderIsNoticed(t, senderZero, d', h, w, tail);
    var r := ParsedBlock(t, d', Bytes(Written(t, h, w)) + tail);
    if r.status.Done? { NotTheNorms(d.decoded, list, k, r.d.decoded, n); }
  }

  lemma IntactParts(t: Table, senderZero: bool, list: seq<Header>, ws: seq<Where>, k: nat)
    requires Intact(t, senderZero, list, ws) && k < |list|
    ensures |ws| == |list| && Canonical(t) && Addressable(t) && Chooses(senderZero, list[k], ws[k])
    ensures Sendable(t, [list[k]]) && Intact(t, senderZero, list[..k], ws[..k])
  {
    CanonicalIsAddressable(t);
    hide Canonical, Addressable, Chooses, Encoded;
    assert list[k] in list;
  }

  lemma BeforeLost(senderZero: bool, d: Decoder, list: seq<Header>, k: nat)
    requires k < |list| && |d.table| + |list| < 0x1_0000_0000 - 1
    ensures var d' := AfterReading(senderZero, d, list[..k]);
            && |d'.decoded| == |d.decoded| + k && |d'.table| < 0x1_0000_0000 - 1
            && d'.hasZero == (d.hasZero || (senderZero && Header([], []) in list[..k]))
  {
    EnteringBound(list[..k]);
    hide Norms, Entering;
  }

  /** The surviving front of a list is read, and parsing goes on behind it. */
  lemma ReadUpTo(t: Table, senderZero: bool, d: Decoder, list: seq<Header>, ws: seq<Where>, tail: seq<uint8>)
    requires Intact(t, senderZero, list, ws) && AllSurvive(senderZero, d.hasZero, list)
    ensures Addressable(t)
    ensures ParsedBlock(t, d, BlockBytes(AllWritten(t, list, ws)) + tail)
            == ParsedBlock(t, AfterReading(senderZero, d, list), tail)
  {
    AllWrittenMeanNorms(t, senderZero, d, list, ws);
    hide AfterReading, Intact, AllSurvive, AllWritten, Addressable, AllWhole;
    ParserFollowsGrammar(t, d, AllWritten(t, list, ws), tail);
  }

  lemma NotTheNorms(before: seq<Header>, list: seq<Header>, k: nat, got: seq<Header>, n: nat)
    requires k < |list| && n == |before| + k && n < |got| && got[n] != Norm(list[k])
    ensures got != before + Norms(list)
  {
    hide Norm;
    NormsAt(list, k);
  }

  lemma {:induction false} EnteringBound(list: seq<Header>)
    ensures |Entering(list)| <= |list|
  {
    if list != [] { EnteringBound(list[1..]); }
  }

  lemma {:induction false} NormsAt(list: seq<Header>, k: nat)
    requires k < |list|
    ensures Norms(list)[k] == Norm(list[k])
  {
    if k > 0 { NormsAt(list[1..], k - 1); }
  }

  lemma {:induction false} SplitBlock(t: Table, list: seq<Header>, ws: seq<Where>, k: nat)
    requires Addressable(t) && |ws| == |list| && k < |list|
    ensures BlockBytes(AllWritten(t, list, ws))
            == BlockBytes(AllWritten(t, list[..k], ws[..k]))
               + (Bytes(Written(t, list[k], ws[k])) + BlockBytes(AllWritten(t, list[k + 1..], ws[k + 1..])))
  {
    hide Addressable, Written, Bytes;
    BlockCons(t, list, ws);
    if k == 0 {
      assert AllWritten(t, list[..0], ws[..0]) == [];
    } else {
      BlockCons(t, list[..k], ws[..k]);
      assert list[..k][1..] == list[1..][..k - 1] && ws[..k][1..] == ws[1..][..k - 1];
      SplitBlock(t, list[1..], ws[1..], k - 1);
      assert list[1..][k..] == list[k + 1..] && ws[1..][k..] == ws[k + 1..];
      Associate(Bytes(Written(t, list[0], ws[0])), BlockBytes(AllWritten(t, list[1..][..k - 1], ws[1..][..k - 1])),
                Bytes(Written(t, list[k], ws[k])) + BlockBytes(AllWritten(t, list[k + 1..], ws[k + 1..])));
    }
  }

  lemma BlockCons(t: Table, list: seq<Header>, ws: seq<Where>)
    requires Addressable(t) && |ws| == |list| && list != []
    ensures BlockBytes(AllWritten(t, list, ws))
            == Bytes(Written(t, list[0], ws[0])) + BlockBytes(AllWritten(t, list[1..], ws[1..]))
  {
    hide Addressable, Written, Bytes;
    var reps := AllWritten(t, list, ws);
    assert reps[0] == Written(t, list[0], ws[0]) && reps[1..] == AllWritten(t, list[1..], ws[1..]);
  }
}
