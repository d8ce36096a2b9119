/**
 * Percent decoding and query strings: uri_decode in src/protocols/h2/connection.cpp, and
 * decode_uri_component and parser<query_parameters> in src/http/parser.cpp (section 2.1 of RFC 3986).
 */
module Uri {
  import opened Bits
  import opened Options

  const PERCENT: uint8 := 0x25
  const PLUS: uint8 := 0x2B
  const SPACE: uint8 := 0x20
  const AMPERSAND: uint8 := 0x26
  const EQUALS: uint8 := 0x3D
  const QUESTION: uint8 := 0x3F

  predicate IsHex(b: uint8) {
    0x30 <= b <= 0x39 || 0x41 <= b <= 0x46 || 0x61 <= b <= 0x66
  }

  function HexValue(b: uint8): (v: uint8)
    requires IsHex(b)
    ensures v < 16
  {
    if b <= 0x39 then b - 0x30 else if b <= 0x46 then b - 0x37 else b - 0x57
  }

  function HexByte(high: uint8, low: uint8): uint8
    requires IsHex(high) && IsHex(low)
  {
    var v: int := 16 * (HexValue(high) as int) + HexValue(low);
    v
  }

  /** A percent sign with two hex digits stands at the front. */
  predicate EscapeAt(s: seq<uint8>) {
    |s| > 2 && s[0] == PERCENT && IsHex(s[1]) && IsHex(s[2])
  }

  // ----- uri_decode -----

  function UriDecoded(s: seq<uint8>): seq<uint8> {
    if s == [] then []
    else if EscapeAt(s) then [HexByte(s[1], s[2])] + UriDecoded(s[3..])
    else [if s[0] == PLUS then SPACE else s[0]] + UriDecoded(s[1..])
  }

  method UriDecode(encoded: seq<uint8>) returns (decoded: seq<uint8>)
    ensures decoded == UriDecoded(encoded)
  {
    decoded := [];
    var i := 0;
    while i < |encoded|
      invariant i <= |encoded|
      invariant decoded + UriDecoded(encoded[i..]) == UriDecoded(encoded)
    {
      ghost var start, rest, before := i, encoded[i..], decoded;
      if encoded[i] == PERCENT {
        if i + 2 < |encoded| && IsHex(encoded[i + 1]) && IsHex(encoded[i + 2]) {
          decoded := decoded + [HexByte(encoded[i + 1], encoded[i + 2])];
          i := i + 2;
        } else {
          decoded := decoded + [encoded[i]];
        }
      } else if encoded[i] == PLUS {
        decoded := decoded + [SPACE];
      } else {
        decoded := decoded + [encoded[i]];
      }
      i := i + 1;
      NextDecoded(rest);
      hide UriDecoded;
      assert encoded[i..] == rest[i - start..];
      Associate(before, [decoded[|decoded| - 1]], UriDecoded(encoded[i..]));
    }
  }

  lemma NextDecoded(s: seq<uint8>)
    requires s != []
    ensures UriDecoded(s) == if EscapeAt(s) then [HexByte(s[1], s[2])] + UriDecoded(s[3..])
                             else [if s[0] == PLUS then SPACE else s[0]] + UriDecoded(s[1..])
  {
  }

  // ----- decode_uri_component -----

  /** None stands for what sscanf makes of a percent sign that is not followed by two hex digits. */
  function ComponentDecoded(s: seq<uint8>): Option<seq<uint8>> {
    if s == [] then Some([])
    else if s[0] == PERCENT then
      if !EscapeAt(s) then None
      else Prefixed([HexByte(s[1], s[2])], ComponentDecoded(s[3..]))
    else Prefixed([s[0]], ComponentDecoded(s[1..]))
  }

  method DecodeUriComponent(encoded: seq<uint8>) returns (r: Option<seq<uint8>>)
    ensures r == ComponentDecoded(encoded)
  {
    var decoded: seq<uint8>, i := [], 0;
    assert encoded[0..] == encoded;
    PrefixedByNothing(ComponentDecoded(encoded));
    while i < |encoded|
      invariant i <= |encoded|
      invariant ComponentDecoded(encoded) == Prefixed(decoded, ComponentDecoded(encoded[i..]))
    {
      ghost var start, rest, before := i, encoded[i..], decoded;
      if encoded[i] == PERCENT {
        if !(i + 2 < |encoded| && IsHex(encoded[i + 1]) && IsHex(encoded[i + 2])) {
          return None;
        }
        decoded := decoded + [HexByte(encoded[i + 1], encoded[i + 2])];
        i := i + 3;
      } else {
        decoded := decoded + [encoded[i]];
        i := i + 1;
      }
      assert encoded[i..] == rest[i - start..];
      PrefixedTwice(before, decoded[|decoded| - 1], ComponentDecoded(encoded[i..]));
    }
    assert encoded[i..] == [] && decoded + [] == decoded;
    r := Some(decoded);
  }

  function Prefixed(before: seq<uint8>, rest: Option<seq<uint8>>): Option<seq<uint8>> {
    match rest case None => None case Some(s) => Some(before + s)
  }

  lemma PrefixedByNothing(rest: Option<seq<uint8>>)
    ensures Prefixed([], rest) == rest
  {
    if rest.Some? { assert [] + rest.value == rest.value; }
  }

  lemma PrefixedTwice(before: seq<uint8>, b: uint8, rest: Option<seq<uint8>>)
    ensures Prefixed(before, Prefixed([b], rest)) == Prefixed(before + [b], rest)
  {
    if rest.Some? { assert before + ([b] + rest.value) == (before + [b]) + rest.value; }
  }

  /** Every percent sign is followed by two hex digits. */
  predicate WellEscaped(s: seq<uint8>) {
    forall i :: 0 <= i < |s| && s[i] == PERCENT ==> i + 2 < |s| && IsHex(s[i + 1]) && IsHex(s[i + 2])
  }

  lemma {:induction false} WellEscapedDecodes(s: seq<uint8>)
    ensures ComponentDecoded(s).Some? <==> WellEscaped(s)
  {
    if s != [] {
      if s[0] == PERCENT {
        if EscapeAt(s) {
          WellEscapedDecodes(s[3..]);
          assert WellEscaped(s) ==> WellEscaped(s[3..]);
          assert WellEscaped(s[3..]) ==> WellEscaped(s) by { WellEscapedBefore(s, 3); }
        }
      } else {
        WellEscapedDecodes(s[1..]);
        assert WellEscaped(s) ==> WellEscaped(s[1..]);
        assert WellEscaped(s[1..]) ==> WellEscaped(s) by { WellEscapedBefore(s, 1); }
      }
    }
  }

  lemma WellEscapedBefore(s: seq<uint8>, n: nat)
    requires n <= |s| && ((n == 1 && s[0] != PERCENT) || (n == 3 && EscapeAt(s)))
    ensures WellEscaped(s[n..]) ==> WellEscaped(s)
  {
    if WellEscaped(s[n..]) {
      forall i | 0 <= i < |s| && s[i] == PERCENT ensures i + 2 < |s| && IsHex(s[i + 1]) && IsHex(s[i + 2]) {
        if i >= n { assert s[n..][i - n] == PERCENT; }
      }
    }
  }

  /** Where every percent sign has its two hex digits, the two decoders agree exactly without a plus sign. */
  lemma {:induction false} DecodersAgree(s: seq<uint8>)
    requires WellEscaped(s)
    ensures ComponentDecoded(s).Some?
    ensures ComponentDecoded(s).value == UriDecoded(s) <==> PLUS !in s
    ensures |ComponentDecoded(s).value| == |UriDecoded(s)|
  {
    WellEscapedDecodes(s);
    if s != [] {
      var n := if s[0] == PERCENT then 3 else 1;
      WellEscapedDecodes(s[n..]);
      DecodersAgree(s[n..]);
      assert s == s[..n] + s[n..];
      assert s[0] == PERCENT ==> PLUS !in s[..n];
      assert PLUS in s <==> PLUS in s[..n] || PLUS in s[n..];
      var c, u := ComponentDecoded(s).value, UriDecoded(s);
      assert c[1..] == ComponentDecoded(s[n..]).value && u[1..] == UriDecoded(s[n..]);
      assert c == [c[0]] + c[1..] && u == [u[0]] + u[1..];
    }
  }

  // ----- parser<query_parameters> -----

  /** The position of the first `b`, or the length. */
  function Find(s: seq<uint8>, b: uint8): (i: nat)
    ensures i <= |s| && b !in s[..i] && (i < |s| ==> s[i] == b)
  {
    if s == [] || s[0] == b then 0
    else
      var i := 1 + Find(s[1..], b);
      assert s[..i] == [s[0]] + s[1..][..i - 1];
      i
  }

  lemma FindIs(s: seq<uint8>, b: uint8, i: nat)
    requires i <= |s| && b !in s[..i] && (i < |s| ==> s[i] == b)
    ensures Find(s, b) == i
  {
    var j := Find(s, b);
    assert forall k :: 0 <= k < j ==> s[..j][k] == s[k];
    assert forall k :: 0 <= k < i ==> s[..i][k] == s[k];
  }

  method FindByte(s: seq<uint8>, b: uint8) returns (i: nat)
    ensures i == Find(s, b)
  {
    i := 0;
    while i < |s| && s[i] != b
      invariant i <= |s| && b !in s[..i]
    {
      i := i + 1;
    }
    FindIs(s, b, i);
  }

  type Pairs = seq<(seq<uint8>, seq<uint8>)>

  function PairOf(item: seq<uint8>): Option<(seq<uint8>, seq<uint8>)> {
    var i := Find(item, EQUALS);
    var key, value := ComponentDecoded(item[..i]), ComponentDecoded(if i < |item| then item[i + 1..] else []);
    if key.Some? && value.Some? then Some((key.value, value.value)) else None
  }

  function Before(done: Pairs, rest: Option<Pairs>): Option<Pairs> {
    match rest case None => None case Some(pairs) => Some(done + pairs)
  }

  /** The parameters between ampersands; a last empty one is dropped.  None: some escape is malformed. */
  function QueryPairs(s: seq<uint8>): Option<Pairs>
    decreases |s|
  {
    if s == [] then Some([])
    else
      var i := Find(s, AMPERSAND);
      match PairOf(s[..i])
      case None => None
      case Some(first) => Before([first], QueryPairs(if i < |s| then s[i + 1..] else []))
  }

  datatype QueryResult = NoQuery | Query(pairs: Option<Pairs>)

  function QueryParsed(s: seq<uint8>): QueryResult {
    var i := Find(s, QUESTION);
    if i == |s| then NoQuery else Query(QueryPairs(s[i + 1..]))
  }

  method ParseQuery(s: seq<uint8>) returns (r: QueryResult)
    ensures r == QueryParsed(s)
  {
    var current := FindByte(s, QUESTION);
    if current == |s| {
      return NoQuery;
    }
    current := current + 1;
    var pairs: Pairs := [];
    ghost var all := QueryPairs(s[current..]);
    BeforeNothing(all);
    assert QueryPairs([]) == Some([]);
    while current < |s|
      invariant current <= |s|
      invariant Before(pairs, QueryPairs(s[current..])) == all
    {
      ghost var rest := s[current..];
      hide QueryPairs, PairOf, Find, Before;
      var i := FindByte(s[current..], AMPERSAND);
      SliceOfDrop(s, current, i);
      var pair := ParsePair(s[current..current + i]);
      QueryPairsOnce(rest);
      if pair.None? {
        return Query(None);
      }
      current := if current + i < |s| then current + i + 1 else |s|;
      BeforeTwice(pairs, pair.value, QueryPairs(s[current..]));
      pairs := pairs + [pair.value];
    }
    assert s[current..] == [] && pairs + [] == pairs;
    r := Query(Some(pairs));
  }

  lemma SliceOfDrop(s: seq<uint8>, start: nat, i: nat)
    requires start + i <= |s|
    ensures s[start..][..i] == s[start..start + i]
    ensures start + i < |s| ==> s[start..][i + 1..] == s[start + i + 1..]
    ensures s[|s|..] == []
  {
  }

  /** The body of the loop over parameters. */
  method ParsePair(param: seq<uint8>) returns (pair: Option<(seq<uint8>, seq<uint8>)>)
    ensures pair == PairOf(param)
  {
    var equal := FindByte(param, EQUALS);
    if equal == |param| {
      var key := DecodeUriComponent(param);
      assert param[..equal] == param;
      return if key.Some? then Some((key.value, [])) else None;
    }
    var key := DecodeUriComponent(param[..equal]);
    var value := DecodeUriComponent(param[equal + 1..]);
    pair := if key.Some? && value.Some? then Some((key.value, value.value)) else None;
  }

  lemma QueryPairsOnce(s: seq<uint8>)
    requires s != []
    ensures var i := Find(s, AMPERSAND);
            QueryPairs(s) ==
            match PairOf(s[..i])
            case None => None
            case Some(first) => Before([first], QueryPairs(if i < |s| then s[i + 1..] else []))
  {
    hide PairOf, Find;
  }

  lemma BeforeNothing(rest: Option<Pairs>)
    ensures Before([], rest) == rest
  {
    if rest.Some? { assert [] + rest.value == rest.value; }
  }

  lemma BeforeTwice(done: Pairs, p: (seq<uint8>, seq<uint8>), rest: Option<Pairs>)
    ensures Before(done, Before([p], rest)) == Before(done + [p], rest)
  {
    if rest.Some? { Associate(done, [p], rest.value); }
  }

  // ----- Round trip -----

  /** A byte as it stands, or as an escape. */
  datatype Piece = Plain(byte: uint8) | Escape(high: uint8, low: uint8)

  predicate PieceOk(p: Piece, inKey: bool) {
    match p
    case Plain(b) => b != PERCENT && b != AMPERSAND && (inKey ==> b != EQUALS)
    case Escape(high, low) => IsHex(high) && IsHex(low)
  }

  predicate TextOk(text: seq<Piece>, inKey: bool) {
    forall p :: p in text ==> PieceOk(p, inKey)
  }

  function PieceValue(p: Piece): uint8
    requires PieceOk(p, false)
  {
    match p case Plain(b) => b case Escape(high, low) => HexByte(high, low)
  }

  function PieceBytes(p: Piece): seq<uint8> {
    match p case Plain(b) => [b] case Escape(h, l) => [PERCENT, h, l]
  }

  function Rendered(text: seq<Piece>): seq<uint8> {
    if text == [] then [] else PieceBytes(text[0]) + Rendered(text[1..])
  }

  function ValueOf(text: seq<Piece>): seq<uint8>
    requires TextOk(text, false)
  {
    if text == [] then [] else [PieceValue(text[0])] + ValueOf(text[1..])
  }

  type Texts = seq<(seq<Piece>, seq<Piece>)>

  predicate TextsOk(query: Texts) {
    forall kv :: kv in query ==> TextOk(kv.0, true) && TextOk(kv.1, false)
  }

  lemma KeyTextOk(text: seq<Piece>)
    requires TextOk(text, true)
    ensures TextOk(text, false)
  {
  }

  function PairsOf(query: Texts): Pairs
    requires TextsOk(query)
  {
    if query == [] then []
    else
      assert query[0] in query;
      KeyTextOk(query[0].0);
      [(ValueOf(query[0].0), ValueOf(query[0].1))] + PairsOf(query[1..])
  }

  function Joined(parts: Pairs): seq<uint8> {
    if parts == [] then []
    else
      parts[0].0 + [EQUALS] + parts[0].1 + (if |parts| == 1 then [] else [AMPERSAND] + Joined(parts[1..]))
  }

  function RenderedParts(query: Texts): Pairs {
    if query == [] then [] else [(Rendered(query[0].0), Rendered(query[0].1))] + RenderedParts(query[1..])
  }

  lemma {:induction false} RenderedDecodes(text: seq<Piece>, inKey: bool)
    requires TextOk(text, inKey)
    ensures TextOk(text, false)
    ensures ComponentDecoded(Rendered(text)) == Some(ValueOf(text))
    ensures AMPERSAND !in Rendered(text) && (inKey ==> EQUALS !in Rendered(text))
  {
    if text != [] {
      assert text[0] in text;
      RenderedDecodes(text[1..], inKey);
      var rest, s := Rendered(text[1..]), Rendered(text);
      match text[0]
      case Plain(b) => assert s[0] == b && s[1..] == rest;
      case Escape(h, l) => assert s[0] == PERCENT && s[1] == h && s[2] == l && s[3..] == rest;
    }
  }

  /** The first parameter of a joined query, when nothing in it stands in the way. */
  lemma FirstPair(key: seq<uint8>, value: seq<uint8>, tail: seq<uint8>)
    requires AMPERSAND !in key && EQUALS !in key && AMPERSAND !in value
    requires tail == [] || tail[0] == AMPERSAND
    ensures var s := key + [EQUALS] + value + tail;
            var i := Find(s, AMPERSAND);
            && i == |key| + 1 + |value| && s[..i] == key + [EQUALS] + value
            && (if i < |s| then s[i + 1..] == tail[1..] else tail == [])
            && Find(s[..i], EQUALS) == |key| && s[..i][..|key|] == key && s[..i][|key| + 1..] == value
  {
    var item := key + [EQUALS] + value;
    var s := item + tail;
    assert s[..|item|] == item;
    FindIs(s, AMPERSAND, |item|);
    assert item[..|key|] == key && item[|key| + 1..] == value;
    FindIs(item, EQUALS, |key|);
    if tail != [] { assert s[|item| + 1..] == tail[1..]; }
  }

  function AfterAmpersand(tail: seq<uint8>): seq<uint8> {
    if tail == [] then [] else tail[1..]
  }

  lemma FirstPairDecodes(key: seq<uint8>, value: seq<uint8>, tail: seq<uint8>, k: seq<uint8>, v: seq<uint8>)
    requires AMPERSAND !in key && EQUALS !in key && AMPERSAND !in value
    requires tail == [] || tail[0] == AMPERSAND
    requires ComponentDecoded(key) == Some(k) && ComponentDecoded(value) == Some(v)
    ensures QueryPairs(key + [EQUALS] + value + tail) == Before([(k, v)], QueryPairs(AfterAmpersand(tail)))
  {
    hide ComponentDecoded, Find, QueryPairs;
    FirstPair(key, value, tail);
    var s := key + [EQUALS] + value + tail;
    assert PairOf(s[..Find(s, AMPERSAND)]) == Some((k, v));
    QueryPairsOnce(s);
  }

  lemma {:induction false} JoinedParses(query: Texts)
    requires TextsOk(query)
    ensures QueryPairs(Joined(RenderedParts(query))) == Some(PairsOf(query))
  {
    if query != [] {
      var (k, v) := query[0];
      assert query[0] in query;
      RenderedDecodes(k, true);
      RenderedDecodes(v, false);
      var parts, later := RenderedParts(query), RenderedParts(query[1..]);
      var tail := if |query| == 1 then [] else [AMPERSAND] + Joined(later);
      JoinedParses(query[1..]);
      RenderedCount(query[1..]);
      assert parts[0] == (Rendered(k), Rendered(v)) && parts[1..] == later && |parts| == |query|;
      hide Rendered, ComponentDecoded, ValueOf, Find, TextOk, QueryPairs, RenderedParts;
      FirstPairDecodes(Rendered(k), Rendered(v), tail, ValueOf(k), ValueOf(v));
      assert Joined(parts) == Rendered(k) + [EQUALS] + Rendered(v) + tail;
      assert |query| == 1 ==> later == [];
      assert AfterAmpersand(tail) == Joined(later);
    }
  }

  lemma {:induction false} RenderedCount(query: Texts)
    ensures |RenderedParts(query)| == |query|
  {
    if query != [] { RenderedCount(query[1..]); }
  }

  /** Any non-empty list of pairs, percent-encoded in any way, is parsed back exactly. */
  lemma {:induction false} QueryRoundTrip(path: seq<uint8>, query: Texts)
    requires TextsOk(query) && QUESTION !in path
    ensures QueryParsed(path + [QUESTION] + Joined(RenderedParts(query))) == Query(Some(PairsOf(query)))
  {
    var s := path + [QUESTION] + Joined(RenderedParts(query));
    assert s[..|path|] == path;
    FindIs(s, QUESTION, |path|);
    assert s[|path| + 1..] == Joined(RenderedParts(query));
    JoinedParses(query);
  }

  // ----- A query in the path of an HTTP/2 request, which is decoded twice -----

  /** What the first decoding, of the whole path, makes of a text. */
  function Shown(text: seq<Piece>): seq<uint8> {
    UriDecoded(Rendered(text))
  }

  function ShownParts(query: Texts): Pairs {
    if query == [] then [] else [(Shown(query[0].0), Shown(query[0].1))] + ShownParts(query[1..])
  }

  /** Nothing in the text reads differently the second time, and no plus sign was read as a space. */
  predicate ReadsTheSame(text: seq<Piece>, inKey: bool)
    requires TextOk(text, false)
  {
    && Plain(PLUS) !in text
    && PERCENT !in ValueOf(text) && AMPERSAND !in ValueOf(text) && (inKey ==> EQUALS !in ValueOf(text))
  }

  ghost predicate AllReadTheSame(query: Texts)
    requires TextsOk(query)
  {
    forall kv :: kv in query ==> (KeyTextOk(kv.0); ReadsTheSame(kv.0, true)) && ReadsTheSame(kv.1, false)
  }

  function PieceShown(p: Piece): uint8
    requires PieceOk(p, false)
  {
    if p == Plain(PLUS) then SPACE else PieceValue(p)
  }

  lemma {:induction false} RenderedOnce(text: seq<Piece>, inKey: bool)
    requires TextOk(text, inKey) && text != []
    ensures TextOk(text, false) && TextOk(text[1..], inKey)
    ensures Rendered(text) == PieceBytes(text[0]) + Rendered(text[1..])
    ensures Shown(text) == [PieceShown(text[0])] + Shown(text[1..])
  {
    assert text[0] in text;
    DecodeOnePiece(text[0], Rendered(text[1..]));
  }

  lemma {:induction false} RenderedIsDecodedApart(text: seq<Piece>, inKey: bool, rest: seq<uint8>)
    requires TextOk(text, inKey)
    ensures UriDecoded(Rendered(text) + rest) == Shown(text) + UriDecoded(rest)
  {
    if text == [] {
      assert Rendered(text) + rest == rest;
    } else {
      RenderedOnce(text, inKey);
      RenderedIsDecodedApart(text[1..], inKey, rest);
      var p, later := text[0], Rendered(text[1..]);
      DecodeOnePiece(p, later + rest);
      hide TextOk, Rendered, Shown, UriDecoded;
      Associate(PieceBytes(p), later, rest);
      Associate([PieceShown(p)], Shown(text[1..]), UriDecoded(rest));
    }
  }

  lemma {:induction false} ShownUnlessPlus(text: seq<Piece>, inKey: bool)
    requires TextOk(text, inKey)
    ensures TextOk(text, false)
    ensures |Shown(text)| == |ValueOf(text)| && (Shown(text) == ValueOf(text) <==> Plain(PLUS) !in text)
  {
    if text != [] {
      RenderedOnce(text, inKey);
      ShownUnlessPlus(text[1..], inKey);
      hide TextOk, Shown;
      assert text == [text[0]] + text[1..];
      assert Shown(text)[1..] == Shown(text[1..]) && ValueOf(text)[1..] == ValueOf(text[1..]);
      assert ValueOf(text) == [PieceValue(text[0])] + ValueOf(text[1..]);
    }
  }

  lemma DecodeOnePiece(p: Piece, rest: seq<uint8>)
    requires PieceOk(p, false)
    ensures UriDecoded(PieceBytes(p) + rest) == [PieceShown(p)] + UriDecoded(rest)
  {
    match p
    case Plain(b) => assert ([b] + rest)[1..] == rest;
    case Escape(h, l) => assert ([PERCENT, h, l] + rest)[3..] == rest;
  }

  lemma {:induction false} JoinedIsDecodedApart(query: Texts)
    requires TextsOk(query)
    ensures UriDecoded(Joined(RenderedParts(query))) == Joined(ShownParts(query))
    ensures |RenderedParts(query)| == |ShownParts(query)| == |query|
  {
    if query != [] {
      var (k, v) := query[0];
      assert query[0] in query;
      JoinedIsDecodedApart(query[1..]);
      var later, shown := RenderedParts(query[1..]), ShownParts(query[1..]);
      var tail := if |query| == 1 then [] else [AMPERSAND] + Joined(later);
      var shownTail := if |query| == 1 then [] else [AMPERSAND] + Joined(shown);
      if |query| > 1 { DecodeOther(AMPERSAND, Joined(later)); }
      assert RenderedParts(query)[1..] == later && ShownParts(query)[1..] == shown;
      hide Rendered, Shown, Joined, TextOk, UriDecoded, RenderedParts, ShownParts;
      assert UriDecoded(tail) == shownTail by { NothingDecoded(); }
      RenderedIsDecodedApart(v, false, tail);
      DecodeOther(EQUALS, Rendered(v) + tail);
      RenderedIsDecodedApart(k, true, [EQUALS] + (Rendered(v) + tail));
      JoinedOnce(RenderedParts(query));
      JoinedOnce(ShownParts(query));
      FirstParts(query);
    }
  }

  lemma NothingDecoded()
    ensures UriDecoded([]) == []
  {
  }

  lemma FirstParts(query: Texts)
    requires query != []
    ensures RenderedParts(query) == [(Rendered(query[0].0), Rendered(query[0].1))] + RenderedParts(query[1..])
    ensures ShownParts(query) == [(Shown(query[0].0), Shown(query[0].1))] + ShownParts(query[1..])
  {
    hide Shown, Rendered;
  }

  lemma JoinedOnce(parts: Pairs)
    requires parts != []
    ensures Joined(parts)
            == parts[0].0 + ([EQUALS] + (parts[0].1 + (if |parts| == 1 then [] else [AMPERSAND] + Joined(parts[1..]))))
  {
    var tail := if |parts| == 1 then [] else [AMPERSAND] + Joined(parts[1..]);
    Associate(parts[0].0, [EQUALS], parts[0].1);
    Associate(parts[0].0, [EQUALS] + parts[0].1, tail);
    Associate([EQUALS], parts[0].1, tail);
  }

  lemma DecodeOther(b: uint8, rest: seq<uint8>)
    requires b != PERCENT && b != PLUS
    ensures UriDecoded([b] + rest) == [b] + UriDecoded(rest)
  {
    assert ([b] + rest)[1..] == rest;
  }

  /** Decoding keeps the length just when there is nothing to decode. */
  lemma {:induction false} DecodingShrinks(s: seq<uint8>)
    ensures ComponentDecoded(s).Some? ==> |ComponentDecoded(s).value| <= |s|
    ensures PERCENT !in s ==> ComponentDecoded(s) == Some(s)
    ensures PERCENT in s && ComponentDecoded(s).Some? ==> |ComponentDecoded(s).value| < |s|
  {
    if s != [] {
      var n := if s[0] == PERCENT then 3 else 1;
      if n <= |s| {
        DecodingShrinks(s[n..]);
        assert s == s[..n] + s[n..];
        assert s[0] != PERCENT ==> s == [s[0]] + s[1..];
      }
    }
  }

  /** The first parameter comes back only if nothing in it stands in the way. */
  lemma {:induction false} FirstPairExactly(key: seq<uint8>, value: seq<uint8>, tail: seq<uint8>, k: seq<uint8>, v: seq<uint8>, rest: Pairs)
    requires |k| == |key| && |v| == |value| && (tail == [] || tail[0] == AMPERSAND)
    ensures QueryPairs(key + [EQUALS] + value + tail) == Some([(k, v)] + rest) <==>
              && AMPERSAND !in key && EQUALS !in key && AMPERSAND !in value && PERCENT !in key && PERCENT !in value
              && key == k && value == v && QueryPairs(AfterAmpersand(tail)) == Some(rest)
  {
    hide QueryPairs, Find, ComponentDecoded, PairOf;
    var s := key + [EQUALS] + value + tail;
    assert s != [];
    var i := Find(s, AMPERSAND);
    QueryPairsOnce(s);
    var later := QueryPairs(if i < |s| then s[i + 1..] else []);
    BeforeExactly((k, v), rest, PairOf(s[..i]), later);
    if AMPERSAND in key || EQUALS in key {
      ShortKey(key, [EQUALS] + value + tail);
      assert s == key + ([EQUALS] + value + tail);
    } else if AMPERSAND in value {
      ShortValue(key, value, tail);
    } else {
      FirstPair(key, value, tail);
      CleanPair(s[..i], key, value);
    }
  }

  lemma {:induction false} CleanPair(item: seq<uint8>, key: seq<uint8>, value: seq<uint8>)
    requires Find(item, EQUALS) == |key| < |item| && item[..|key|] == key && item[|key| + 1..] == value
    ensures forall k, v :: |k| == |key| && |v| == |value| ==>
              (PairOf(item) == Some((k, v)) <==> PERCENT !in key && PERCENT !in value && key == k && value == v)
  {
    hide ComponentDecoded, Find;
    DecodingShrinks(key);
    DecodingShrinks(value);
  }

  lemma BeforeExactly(p: (seq<uint8>, seq<uint8>), rest: Pairs, first: Option<(seq<uint8>, seq<uint8>)>, later: Option<Pairs>)
    ensures (match first case None => None case Some(q) => Before([q], later)) == Some([p] + rest)
            <==> first == Some(p) && later == Some(rest)
  {
    if first.Some? && later.Some? {
      assert ([first.value] + later.value)[0] == first.value && ([first.value] + later.value)[1..] == later.value;
      assert ([p] + rest)[0] == p && ([p] + rest)[1..] == rest;
    }
  }

  lemma FindBounds(s: seq<uint8>, b: uint8, n: nat)
    requires n <= |s| && b in s[..n]
    ensures Find(s, b) < n
  {
    var j := Find(s, b);
    var k :| 0 <= k < n && s[..n][k] == b;
    assert s[k] == b;
    assert forall m :: 0 <= m < j ==> s[..j][m] == s[m];
  }

  lemma ShortKey(key: seq<uint8>, after: seq<uint8>)
    requires AMPERSAND in key || EQUALS in key
    ensures var s := key + after;
            var p := PairOf(s[..Find(s, AMPERSAND)]);
            p.Some? ==> |p.value.0| < |key|
  {
    var s := key + after;
    assert s[..|key|] == key;
    var i := Find(s, AMPERSAND);
    var item := s[..i];
    if AMPERSAND in key {
      FindBounds(s, AMPERSAND, |key|);
    } else {
      assert i >= |key| by { assert forall j :: 0 <= j < |key| ==> s[j] == key[j]; }
      assert item[..|key|] == key;
      FindBounds(item, EQUALS, |key|);
    }
    DecodingShrinks(item[..Find(item, EQUALS)]);
  }

  lemma ShortValue(key: seq<uint8>, value: seq<uint8>, tail: seq<uint8>)
    requires AMPERSAND !in key && EQUALS !in key && AMPERSAND in value
    ensures var s := key + [EQUALS] + value + tail;
            var p := PairOf(s[..Find(s, AMPERSAND)]);
            p.Some? ==> |p.value.1| < |value|
  {
    assert value[..|value|] == value;
    FindBounds(value, AMPERSAND, |value|);
    var n := Find(value, AMPERSAND);
    var part, after := value[..n], value[n..] + tail;
    assert value == part + value[n..];
    assert key + [EQUALS] + part + after == key + [EQUALS] + value + tail;
    assert after[0] == AMPERSAND;
    hide Find, ComponentDecoded;
    FirstPair(key, part, after);
    DecodingShrinks(part);
  }

  lemma {:induction false} DecodedTwiceExactly(query: Texts)
    requires TextsOk(query)
    ensures QueryPairs(Joined(ShownParts(query))) == Some(PairsOf(query)) <==> AllReadTheSame(query)
  {
    if query != [] {
      var (k, v) := query[0];
      assert query[0] in query;
      ShownUnlessPlus(k, true);
      ShownUnlessPlus(v, false);
      DecodedTwiceExactly(query[1..]);
      assert forall kv :: kv in query <==> kv == query[0] || kv in query[1..];
      var parts, later := ShownParts(query), ShownParts(query[1..]);
      var tail := if |query| == 1 then [] else [AMPERSAND] + Joined(later);
      JoinedIsDecodedApart(query);
      assert parts[0] == (Shown(k), Shown(v)) && parts[1..] == later;
      assert |query| == 1 ==> later == [];
      hide Shown, ValueOf, QueryPairs, ShownParts, Rendered, TextOk;
      assert Joined(parts) == Shown(k) + [EQUALS] + Shown(v) + tail;
      assert AfterAmpersand(tail) == Joined(later);
      FirstPairExactly(Shown(k), Shown(v), tail, ValueOf(k), ValueOf(v), PairsOf(query[1..]));
    }
  }

  /** A question mark is no part of an escape, so what stands before it is decoded by itself. */
  lemma {:induction false} DecodedUpToQuestion(path: seq<uint8>, rest: seq<uint8>)
    ensures UriDecoded(path + ([QUESTION] + rest)) == UriDecoded(path) + ([QUESTION] + UriDecoded(rest))
  {
    var tail := [QUESTION] + rest;
    if path == [] {
      assert path + tail == tail;
      DecodeOther(QUESTION, rest);
    } else {
      var n := if EscapeAt(path) then 3 else 1;
      var whole := path + tail;
      assert whole[n..] == path[n..] + tail;
      assert EscapeAt(whole) <==> EscapeAt(path);
      DecodedUpToQuestion(path[n..], rest);
      var first := if EscapeAt(path) then HexByte(path[1], path[2]) else if path[0] == PLUS then SPACE else path[0];
      assert UriDecoded(whole) == [first] + UriDecoded(whole[n..]) && UriDecoded(path) == [first] + UriDecoded(path[n..]);
      Associate([first], UriDecoded(path[n..]), [QUESTION] + UriDecoded(rest));
    }
  }

  /**
   * A percent-encoded target of an HTTP/2 request is decoded as a whole; then its path is cut off at the
   * first question mark, and the rest is decoded again by the query parser.  Path and query come back
   * exactly when the decoded path has no question mark, keys and values have no percent sign and no
   * ampersand, keys have no equals sign, and no plus sign was sent unescaped in the query.
   */
  lemma Http2QueryIsExact(path: seq<uint8>, query: Texts)
    requires TextsOk(query) && QUESTION !in path
    ensures var target := UriDecoded(path + ([QUESTION] + Joined(RenderedParts(query))));
            && (QUESTION !in UriDecoded(path) ==>
                  (QueryParsed(target) == Query(Some(PairsOf(query))) <==> AllReadTheSame(query)))
            && (target[..Find(target, QUESTION)] == UriDecoded(path) && QueryParsed(target) == Query(Some(PairsOf(query)))
                <==> QUESTION !in UriDecoded(path) && AllReadTheSame(query))
  {
    var joined, shown, before := Joined(RenderedParts(query)), Joined(ShownParts(query)), UriDecoded(path);
    DecodedUpToQuestion(path, joined);
    JoinedIsDecodedApart(query);
    var s := before + ([QUESTION] + shown);
    assert s[..|before|] == before && s[|before|] == QUESTION;
    hide UriDecoded, QueryPairs, ShownParts, RenderedParts, PairsOf, TextsOk, AllReadTheSame;
    if QUESTION in before {
      var i :| 0 <= i < |before| && before[i] == QUESTION;
      assert s[i] == QUESTION;
      FindAtMost(s, QUESTION, i);
      assert |s[..Find(s, QUESTION)]| < |before|;
    } else {
      FindIs(s, QUESTION, |before|);
      assert s[|before| + 1..] == shown;
      DecodedTwiceExactly(query);
    }
  }

  lemma {:induction false} FindAtMost(s: seq<uint8>, b: uint8, i: nat)
    requires i < |s| && s[i] == b
    ensures Find(s, b) <= i
  {
    if s[0] != b { FindAtMost(s[1..], b, i - 1); }
  }

  /** An escaped question mark in the path is taken for the start of the query. */
  lemma EscapedQuestionMark()
    ensures var target := UriDecoded([0x2F, PERCENT, 0x33, 0x46] + ([QUESTION] + [0x6B, EQUALS, 0x76]));  // "/%3F?k=v"
            target[..Find(target, QUESTION)] == [0x2F]
            && QueryParsed(target) == Query(Some([([QUESTION, 0x6B], [0x76])]))
  {
    var path := [0x2F, PERCENT, 0x33, 0x46];
    var pair := [0x6B, EQUALS, 0x76];
    assert path == [0x2F] + [PERCENT, 0x33, 0x46] && [PERCENT, 0x33, 0x46][3..] == [];
    DecodeOther(0x2F, [PERCENT, 0x33, 0x46]);
    assert HexByte(0x33, 0x46) == QUESTION;
    assert UriDecoded([PERCENT, 0x33, 0x46]) == [QUESTION] + UriDecoded([]);
    PlainIsKept(pair);
    DecodedUpToQuestion(path, pair);
    var target := [0x2F, QUESTION] + ([QUESTION] + pair);
    FindIs(target, QUESTION, 1);
    var item := [QUESTION, 0x6B, EQUALS, 0x76];
    assert target[2..] == item;
    hide UriDecoded;
    OnePairParsed(item);
  }

  lemma OnePairParsed(item: seq<uint8>)
    requires item == [QUESTION, 0x6B, EQUALS, 0x76]
    ensures QueryPairs(item) == Some([([QUESTION, 0x6B], [0x76])])
  {
    assert AMPERSAND !in item;
    FindIs(item, AMPERSAND, 4);
    FindIs(item, EQUALS, 2);
    assert item[..4] == item && item[..2] == [QUESTION, 0x6B] && item[3..] == [0x76];
    PlainIsKept([QUESTION, 0x6B]);
    PlainIsKept([0x76]);
    var pair := ([QUESTION, 0x6B], [0x76]);
    assert PairOf(item) == Some(pair);
    QueryPairsOnce(item);
    assert QueryPairs([]) == Some([]) && [pair] + [] == [pair];
  }

  lemma {:induction false} PlainIsKept(s: seq<uint8>)
    requires PERCENT !in s && PLUS !in s
    ensures UriDecoded(s) == s && ComponentDecoded(s) == Some(s)
  {
    if s != [] {
      assert s[0] in s && s == [s[0]] + s[1..];
      PlainIsKept(s[1..]);
    }
  }
}
