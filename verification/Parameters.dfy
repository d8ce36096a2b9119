/**
 * Targets as they may come from anywhere (src/protocols/h2/connection.cpp, src/http/parser.cpp): percent
 * signs that escape nothing, and parameters without an equals sign.
 */
module Parameters {
  import opened Bits
  import opened Options
  import opened Uri

  // ----- Percent signs and plus signs -----

  /** Digits, and letters in either case. */
  lemma HexDigits(b: uint8)
    ensures 0x30 <= b <= 0x39 ==> IsHex(b) && HexValue(b) == b - 0x30
    ensures 0x41 <= b <= 0x46 ==> IsHex(b) && HexValue(b) == b - 0x41 + 10
    ensures 0x61 <= b <= 0x66 ==> IsHex(b) && HexValue(b) == b - 0x61 + 10
    ensures IsHex(b) ==> 0x30 <= b <= 0x39 || 0x41 <= b <= 0x46 || 0x61 <= b <= 0x66
  {
  }

  /** No escape reaches over a byte that is no hex digit. */
  lemma {:induction false} DecodesApart(a: seq<uint8>, rest: seq<uint8>)
    requires rest != [] ==> !IsHex(rest[0])
    ensures UriDecoded(a + rest) == UriDecoded(a) + UriDecoded(rest)
  {
    if a == [] {
      assert a + rest == rest;
      assert [] + UriDecoded(rest) == UriDecoded(rest);
    } else {
      var whole, n := a + rest, if EscapeAt(a) then 3 else 1;
      assert EscapeAt(whole) <==> EscapeAt(a) by {
        assert forall k :: 0 <= k < |a| ==> whole[k] == a[k];
        assert |a| < |whole| ==> whole[|a|] == rest[0];
      }
      assert whole[n..] == a[n..] + rest;
      DecodesApart(a[n..], rest);
      NextDecoded(a);
      NextDecoded(whole);
      hide UriDecoded;
      var first := if EscapeAt(a) then HexByte(a[1], a[2]) else if a[0] == PLUS then SPACE else a[0];
      Associate([first], UriDecoded(a[n..]), UriDecoded(rest));
    }
  }

  /**
   * A percent sign anywhere, whatever is before it and behind it: with two hex digits it stands for their
   * byte, and without them it stays.
   */
  lemma PercentAnywhere(before: seq<uint8>, rest: seq<uint8>)
    ensures UriDecoded(before + ([0x25] + rest)) == UriDecoded(before) +
              if |rest| >= 2 && IsHex(rest[0]) && IsHex(rest[1]) then [HexByte(rest[0], rest[1])] + UriDecoded(rest[2..])
              else [0x25] + UriDecoded(rest)
  {
    var s := [0x25] + rest;
    DecodesApart(before, s);
    NextDecoded(s);
    hide UriDecoded;
    assert s[1..] == rest;
    if |rest| >= 2 { assert s[1] == rest[0] && s[2] == rest[1] && s[3..] == rest[2..]; }
  }

  /** Two hex digits are one byte. */
  lemma HexByteIs(high: uint8, low: uint8)
    requires IsHex(high) && IsHex(low)
    ensures HexByte(high, low) as int == 16 * (HexValue(high) as int) + HexValue(low)
  {
  }

  /** A plus sign is a space, and any other byte that is neither percent sign nor hex digit is itself. */
  lemma OtherByteAnywhere(before: seq<uint8>, b: uint8, rest: seq<uint8>)
    requires b != 0x25 && !IsHex(b)
    ensures UriDecoded(before + ([b] + rest)) == UriDecoded(before) + ([if b == 0x2B then 0x20 else b] + UriDecoded(rest))
  {
    var s := [b] + rest;
    DecodesApart(before, s);
    NextDecoded(s);
    hide UriDecoded;
    assert s[1..] == rest;
  }

  /** "100%" is kept, and so is the percent sign of "a%2" and "%zz". */
  lemma StrayPercentSigns()
    ensures UriDecoded([0x31, 0x30, 0x30, 0x25]) == [0x31, 0x30, 0x30, 0x25]
    ensures UriDecoded([0x61, 0x25, 0x32]) == [0x61, 0x25, 0x32]
    ensures UriDecoded([0x25, 0x7A, 0x7A]) == [0x25, 0x7A, 0x7A]
  {
    PercentAnywhere([0x31, 0x30, 0x30], []);
    PercentAnywhere([0x61], [0x32]);
    PercentAnywhere([], [0x7A, 0x7A]);
    PlainIsKept([0x31, 0x30, 0x30]);
    PlainIsKept([0x61]);
    PlainIsKept([0x32]);
    PlainIsKept([0x7A, 0x7A]);
    PlainIsKept([]);
    hide UriDecoded;
    assert [0x31, 0x30, 0x30] + ([0x25] + []) == [0x31, 0x30, 0x30, 0x25];
    assert [0x61] + ([0x25] + [0x32]) == [0x61, 0x25, 0x32];
    assert [] + ([0x25] + [0x7A, 0x7A]) == [0x25, 0x7A, 0x7A];
  }

  // ----- Which query strings are parsed at all -----

  lemma EscapedApart(a: seq<uint8>, b: uint8, rest: seq<uint8>)
    requires b != PERCENT && !IsHex(b)
    ensures WellEscaped(a + ([b] + rest)) <==> WellEscaped(a) && WellEscaped(rest)
  {
    var s, n := a + ([b] + rest), |a| + 1;
    assert forall i :: 0 <= i < |a| ==> s[i] == a[i];
    assert s[|a|] == b;
    assert forall i :: 0 <= i < |rest| ==> s[n + i] == rest[i];
    if WellEscaped(s) {
      forall i | 0 <= i < |a| && a[i] == PERCENT ensures i + 2 < |a| && IsHex(a[i + 1]) && IsHex(a[i + 2]) {
        assert s[i] == PERCENT;
        assert IsHex(s[i + 1]) && IsHex(s[i + 2]);
      }
      forall i | 0 <= i < |rest| && rest[i] == PERCENT ensures i + 2 < |rest| && IsHex(rest[i + 1]) && IsHex(rest[i + 2]) {
        assert s[n + i] == PERCENT;
        assert s[n + i + 1] == rest[i + 1] && s[n + i + 2] == rest[i + 2];
      }
    }
    if WellEscaped(a) && WellEscaped(rest) {
      forall i | 0 <= i < |s| && s[i] == PERCENT ensures i + 2 < |s| && IsHex(s[i + 1]) && IsHex(s[i + 2]) {
        if i < |a| {
          assert a[i] == PERCENT;
        } else {
          assert rest[i - n] == PERCENT;
          assert s[n + (i - n) + 1] == rest[i - n + 1] && s[n + (i - n) + 2] == rest[i - n + 2];
        }
      }
    }
  }

  lemma NothingIsWellEscaped()
    ensures WellEscaped([]) && QueryPairs([]) == Some([])
  {
  }

  lemma PairIsParsedExactly(item: seq<uint8>)
    ensures PairOf(item).Some? <==> WellEscaped(item)
  {
    var i := Find(item, EQUALS);
    var key, value := item[..i], if i < |item| then item[i + 1..] else [];
    WellEscapedDecodes(key);
    WellEscapedDecodes(value);
    if i < |item| {
      assert item == key + ([EQUALS] + value);
      EscapedApart(key, EQUALS, value);
    } else {
      assert key == item;
    }
    hide WellEscaped, ComponentDecoded, Find;
  }

  /** A query string is parsed if and only if every percent sign in it has its two hex digits. */
  lemma {:induction false} QueryIsParsedExactly(s: seq<uint8>)
    ensures QueryPairs(s).Some? <==> WellEscaped(s)
    decreases |s|
  {
    hide WellEscaped, QueryPairs, PairOf, Find, Before;
    NothingIsWellEscaped();
    if s != [] {
      var i := Find(s, AMPERSAND);
      var item, rest := s[..i], if i < |s| then s[i + 1..] else [];
      PairIsParsedExactly(item);
      QueryPairsOnce(s);
      QueryIsParsedExactly(rest);
      if PairOf(item).Some? { BeforeIsThere([PairOf(item).value], QueryPairs(rest)); }
      if i < |s| {
        assert s == item + ([AMPERSAND] + rest);
        EscapedApart(item, AMPERSAND, rest);
      } else {
        assert item == s;
      }
    }
  }

  lemma BeforeIsThere(done: Pairs, rest: Option<Pairs>)
    ensures Before(done, rest).Some? <==> rest.Some?
  {
  }

  // ----- Parameters with and without a value -----

  /** A parameter as it may be sent: a key alone, or a key and a value. */
  datatype Param = Bare(key: seq<Piece>) | Valued(key: seq<Piece>, value: seq<Piece>)

  predicate ParamOk(p: Param) {
    TextOk(p.key, true) && (p.Valued? ==> TextOk(p.value, false))
  }

  ghost predicate ParamsOk(params: seq<Param>) {
    forall p :: p in params ==> ParamOk(p)
  }

  function ParamBytes(p: Param): seq<uint8> {
    match p
    case Bare(key) => Rendered(key)
    case Valued(key, value) => Rendered(key) + [EQUALS] + Rendered(value)
  }

  function JoinedParams(params: seq<Param>): seq<uint8> {
    if params == [] then []
    else ParamBytes(params[0]) + if |params| == 1 then [] else [AMPERSAND] + JoinedParams(params[1..])
  }

  ghost function ParamPair(p: Param): (seq<uint8>, seq<uint8>)
    requires ParamOk(p)
  {
    KeyTextOk(p.key);
    (ValueOf(p.key), match p case Bare(_) => [] case Valued(_, value) => ValueOf(value))
  }

  /** A parameter with nothing in it counts, unless it comes last. */
  ghost function ParamPairs(params: seq<Param>): Pairs
    requires ParamsOk(params)
  {
    if params == [] || params == [Bare([])] then []
    else
      assert params[0] in params;
      [ParamPair(params[0])] + ParamPairs(params[1..])
  }

  lemma ParamIsParsed(p: Param)
    requires ParamOk(p)
    ensures PairOf(ParamBytes(p)) == Some(ParamPair(p)) && AMPERSAND !in ParamBytes(p)
  {
    var item := ParamBytes(p);
    RenderedDecodes(p.key, true);
    var key := Rendered(p.key);
    assert item[..|key|] == key;
    match p
    case Bare(_) =>
      FindIs(item, EQUALS, |item|);
      NothingIsDecoded();
    case Valued(_, value) =>
      RenderedDecodes(value, false);
      FindIs(item, EQUALS, |key|);
      assert item[|key| + 1..] == Rendered(value);
  }

  lemma NothingIsDecoded()
    ensures ComponentDecoded([]) == Some([])
  {
  }

  lemma FirstOfQuery(item: seq<uint8>, tail: seq<uint8>)
    requires AMPERSAND !in item && (tail == [] || tail[0] == AMPERSAND) && item + tail != []
    ensures QueryPairs(item + tail)
            == match PairOf(item) case None => None case Some(p) => Before([p], QueryPairs(AfterAmpersand(tail)))
  {
    var s := item + tail;
    assert s[..|item|] == item;
    FindIs(s, AMPERSAND, |item|);
    QueryPairsOnce(s);
    hide QueryPairs, PairOf, Find;
    if tail != [] { assert s[|item| + 1..] == tail[1..]; }
  }

  lemma EmptyParam(p: Param)
    requires ParamOk(p)
    ensures ParamBytes(p) == [] <==> p == Bare([])
  {
    if p.key != [] { assert PieceBytes(p.key[0]) != []; }
  }

  /** Any list of parameters, with or without values: a key alone gets the empty value. */
  lemma {:induction false} ParamsAreParsed(params: seq<Param>)
    requires ParamsOk(params)
    ensures QueryPairs(JoinedParams(params)) == Some(ParamPairs(params))
  {
    if params != [] {
      var p, rest := params[0], params[1..];
      assert p in params;
      EmptyParam(p);
      var tail := if |params| == 1 then [] else [AMPERSAND] + JoinedParams(rest);
      assert JoinedParams(params) == ParamBytes(p) + tail;
      if params == [Bare([])] {
        assert JoinedParams(params) == [];
      } else {
        ParamIsParsed(p);
        ParamsAreParsed(rest);
        assert |params| == 1 ==> params == [p] && rest == [];
        assert AfterAmpersand(tail) == JoinedParams(rest);
        hide QueryPairs, PairOf, ParamBytes, JoinedParams, ParamPair;
        FirstOfQuery(ParamBytes(p), tail);
      }
    }
  }

  lemma PairsOnce(p: Param, rest: seq<Param>)
    requires ParamsOk([p] + rest) && (rest != [] || p != Bare([]))
    ensures ParamOk(p) && ParamsOk(rest) && ParamPairs([p] + rest) == [ParamPair(p)] + ParamPairs(rest)
    ensures JoinedParams([p] + rest) == ParamBytes(p) + if rest == [] then [] else [AMPERSAND] + JoinedParams(rest)
  {
    hide ParamPair, ParamBytes, ParamOk;
    var params := [p] + rest;
    assert params[0] == p && params[1..] == rest && |params| == 1 + |rest|;
    assert p in params && forall q :: q in rest ==> q in params;
  }

  lemma OneParam(p: Param)
    requires ParamOk(p) && p != Bare([])
    ensures QueryPairs(ParamBytes(p)) == Some([ParamPair(p)])
  {
    hide QueryPairs, ParamPair, ParamBytes, ParamPairs, JoinedParams, ParamOk;
    var one := [p] + [];
    ParamsAreParsed(one);
    PairsOnce(p, []);
    NoParams();
    assert JoinedParams(one) == ParamBytes(p);
    assert [ParamPair(p)] + [] == [ParamPair(p)];
  }

  lemma TwoParams(p: Param, q: Param)
    requires ParamOk(p) && ParamOk(q) && q != Bare([])
    ensures QueryPairs(ParamBytes(p) + ([AMPERSAND] + ParamBytes(q))) == Some([ParamPair(p), ParamPair(q)])
  {
    hide QueryPairs, ParamPair, ParamBytes, ParamPairs, JoinedParams, ParamOk;
    var one, both := [q] + [], [p] + ([q] + []);
    ParamsAreParsed(both);
    PairsOnce(q, []);
    PairsOnce(p, one);
    NoParams();
    assert JoinedParams(one) == ParamBytes(q);
    assert [ParamPair(p)] + ([ParamPair(q)] + []) == [ParamPair(p), ParamPair(q)];
  }

  lemma NoParams()
    ensures ParamPairs([]) == []
  {
  }

  /** "?a=1&f": `a` is "1" and `f` is empty. */
  lemma FlagParameter()
    ensures QueryParsed([0x3F, 0x61, 0x3D, 0x31, 0x26, 0x66]) == Query(Some([([0x61], [0x31]), ([0x66], [])]))
  {
    PlainText(0x61);
    PlainText(0x31);
    PlainText(0x66);
    hide Rendered, ValueOf, TextOk, QueryPairs, Find;
    var p, q := Valued([Plain(0x61)], [Plain(0x31)]), Bare([Plain(0x66)]);
    TwoParams(p, q);
    var target: seq<uint8> := [0x3F, 0x61, 0x3D, 0x31, 0x26, 0x66];
    assert ParamBytes(p) + ([AMPERSAND] + ParamBytes(q)) == target[1..];
    FindIs(target, QUESTION, 0);
  }

  lemma PlainText(b: uint8)
    requires b != PERCENT && b != AMPERSAND && b != EQUALS
    ensures var text := [Plain(b)]; TextOk(text, true) && TextOk(text, false) && Rendered(text) == [b] && ValueOf(text) == [b]
  {
    var text := [Plain(b)];
    assert text[1..] == [];
    assert Rendered(text) == PieceBytes(text[0]) + Rendered([]);
  }
}
