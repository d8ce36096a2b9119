/**
 * What is in a request (`finish_stream` in src/protocols/h2/connection.cpp), said of the request itself and
 * of the headers and the data that it was made of, for every request of every run.
 */
module Requests {
  import opened Bits
  import opened Options
  import opened Huffman
  import opened HpackStatics
  import opened Uri
  import opened Parameters
  import opened Http2
  import opened Http2Runs

  // ----- What a request has to do with a header list -----

  predicate HasKey(headers: seq<Header>, key: seq<uint8>) {
    exists i :: 0 <= i < |headers| && headers[i].key == key
  }

  /** The value of the first header with the key. */
  predicate IsFirst(headers: seq<Header>, key: seq<uint8>, value: seq<uint8>) {
    exists i :: 0 <= i < |headers| && headers[i] == Header(key, value) && forall j :: 0 <= j < i ==> headers[j].key != key
  }

  /** The value of the last header with the key. */
  predicate IsLast(headers: seq<Header>, key: seq<uint8>, value: seq<uint8>) {
    exists i :: 0 <= i < |headers| && headers[i] == Header(key, value)
             && forall j :: i < j < |headers| ==> headers[j].key != key
  }

  /** Each of nine methods has its own name, and any other name leaves the method unset. */
  predicate NamedBy(m: Method, name: seq<uint8>) {
    && (m == Get <==> name == Text("GET"))
    && (m == Head <==> name == Text("HEAD"))
    && (m == Post <==> name == Text("POST"))
    && (m == Put <==> name == Text("PUT"))
    && (m == Delete <==> name == Text("DELETE"))
    && (m == Connect <==> name == Text("CONNECT"))
    && (m == Method.Options <==> name == Text("OPTIONS"))
    && (m == Trace <==> name == Text("TRACE"))
    && (m == Patch <==> name == Text("PATCH"))
  }

  /** The decoded target up to its first question mark, and the parameters behind that. */
  ghost predicate Targets(r: Request, target: seq<uint8>)
    requires r.Request?
  {
    var decoded := UriDecoded(target);
    && (0x3F !in decoded ==> r.path == decoded && r.query == NoQuery)
    && (0x3F in decoded ==>
          && |r.path| < |decoded| && 0x3F !in r.path
          && decoded == r.path + ([0x3F] + decoded[|r.path| + 1..])
          && r.query == Query(QueryPairs(decoded[|r.path| + 1..])))
  }

  /** A request for stream `id`, made of these headers and these data. */
  ghost predicate IsMadeOf(r: Request, id: uint32, headers: seq<Header>, data: seq<uint8>) {
    && r.streamId == id
    && (r.Request? <==> HasKey(headers, Text(":path")) && HasKey(headers, Text(":method")))
    && (r.Request? ==>
          && r.body == data
          && (forall key :: key in r.headers <==> HasKey(headers, key))
          && (forall key :: key in r.headers ==> IsLast(headers, key, r.headers[key]))
          && (forall name :: IsFirst(headers, Text(":method"), name) ==> NamedBy(r.method_, name))
          && (forall target :: IsFirst(headers, Text(":path"), target) ==> Targets(r, target)))
  }

  // ----- Every request is made so -----

  lemma FirstIsFound(headers: seq<Header>, key: seq<uint8>)
    ensures FindHeader(headers, key).Some? <==> HasKey(headers, key)
    ensures forall value :: IsFirst(headers, key, value) ==> FindHeader(headers, key) == Some(value)
  {
    FindHeaderIsFirst(headers, key);
    var found := FindHeader(headers, key);
    forall value | IsFirst(headers, key, value) ensures found == Some(value) {
      var i :| 0 <= i < |headers| && headers[i] == Header(key, value) && forall j :: 0 <= j < i ==> headers[j].key != key;
      assert headers[i].key == key;
      var k :| 0 <= k < |headers| && headers[k] == Header(key, found.value) && forall j :: 0 <= j < k ==> headers[j].key != key;
      assert !(i < k) && !(k < i);
    }
  }

  lemma MapIsLast(headers: seq<Header>, key: seq<uint8>)
    ensures key in HeaderMap(headers) <==> HasKey(headers, key)
    ensures key in HeaderMap(headers) ==> IsLast(headers, key, HeaderMap(headers)[key])
  {
    HeaderMapIsLast(headers, key);
    hide HeaderMap;
  }

  lemma MethodIsNamed(name: seq<uint8>)
    ensures NamedBy(MethodNamed(name), name)
  {
    MethodNamesDiffer();
    hide Text;
  }

  /** No two of the nine names are the same: they differ in length or in their first letters. */
  lemma MethodNamesDiffer()
    ensures Text("GET") != Text("PUT") && Text("HEAD") != Text("POST")
    ensures Text("TRACE") != Text("PATCH") && Text("CONNECT") != Text("OPTIONS")
  {
    assert Text("GET")[0] != Text("PUT")[0] && Text("HEAD")[0] != Text("POST")[0];
    assert Text("TRACE")[0] != Text("PATCH")[0] && Text("CONNECT")[0] != Text("OPTIONS")[0];
  }

  lemma CutTarget(decoded: seq<uint8>)
    ensures var i := Find(decoded, QUESTION);
            && (0x3F !in decoded <==> i == |decoded|) && decoded[..|decoded|] == decoded
            && (i < |decoded| ==> 0x3F !in decoded[..i] && decoded == decoded[..i] + ([0x3F] + decoded[i + 1..]))
  {
    assert QUESTION == 0x3F;
    hide *;
    var i := Find(decoded, QUESTION);
    if i < |decoded| {
      SplitAt(decoded, i);
    } else {
      WholeSlice(decoded);
    }
  }

  lemma SplitAt(s: seq<uint8>, i: nat)
    requires i < |s|
    ensures s == s[..i] + ([s[i]] + s[i + 1..]) && s[i] in s && s[..|s|] == s
  {
  }

  lemma WholeSlice(s: seq<uint8>)
    ensures s[..|s|] == s
  {
  }

  lemma TargetIsCut(r: Request, target: seq<uint8>)
    requires r.Request?
    requires var decoded := UriDecoded(target);
             r.path == decoded[..Find(decoded, QUESTION)] && r.query == QueryParsed(decoded)
    ensures Targets(r, target)
  {
    var decoded := UriDecoded(target);
    CutTarget(decoded);
    hide UriDecoded, QueryPairs, Find;
  }

  lemma RequestIsMadeOf(s: Stream)
    ensures IsMadeOf(RequestOf(s), s.streamId, s.headers, s.data)
  {
    var r, path, name := RequestOf(s), Text(":path"), Text(":method");
    FirstIsFound(s.headers, path);
    FirstIsFound(s.headers, name);
    forall key ensures key in HeaderMap(s.headers) <==> HasKey(s.headers, key)
    {
      MapIsLast(s.headers, key);
    }
    forall key | key in HeaderMap(s.headers) ensures IsLast(s.headers, key, HeaderMap(s.headers)[key]) {
      MapIsLast(s.headers, key);
    }
    if r.Request? {
      forall value | IsFirst(s.headers, name, value) ensures NamedBy(r.method_, value) {
        MethodIsNamed(value);
      }
      forall value | IsFirst(s.headers, path, value) ensures Targets(r, value) {
        TargetIsCut(r, value);
      }
    }
    hide HeaderMap, FindHeader, HasKey, IsFirst, IsLast, NamedBy, Targets, Text, MethodNamed, UriDecoded, QueryParsed;
  }

  /**
   * In every run, every request is made of the header list last finished on its stream and of the DATA that
   * have come on it since its previous request: it has their path, query, method, headers and body.
   */
  lemma EveryRequestIsMadeOf(t: Table, handler: Handler, hasZero: bool, packets: seq<seq<uint8>>, i: nat)
    requires i < |PacketsRun(t, handler, Initial(hasZero), packets).events|
    requires PacketsRun(t, handler, Initial(hasZero), packets).events[i].Emitted?
    ensures var events := PacketsRun(t, handler, Initial(hasZero), packets).events;
            var r := events[i].request;
            IsMadeOf(r, r.streamId, LastHeaders(events[..i], r.streamId), Pending(events[..i], r.streamId))
  {
    StreamsAreIsolated(t, handler, hasZero, packets);
    hide PacketsRun, IsMadeOf, RequestOf, StreamOf, LastHeaders, Pending, IsOn;
    var events := PacketsRun(t, handler, Initial(hasZero), packets).events;
    var id := events[i].request.streamId;
    assert EmittedWell(events, i);
    RequestIsMadeOf(Replayed(events[..i], id));
  }

  // ----- Path and query of a request -----

  /** For one target, path and query are determined. */
  lemma TargetIs(r: Request, target: seq<uint8>)
    requires r.Request? && Targets(r, target)
    ensures var decoded := UriDecoded(target);
            r.path == decoded[..Find(decoded, QUESTION)] && r.query == QueryParsed(decoded)
  {
    var decoded := UriDecoded(target);
    hide UriDecoded, QueryPairs;
    CutTarget(decoded);
    if 0x3F in decoded {
      assert decoded[..|r.path|] == r.path && decoded[|r.path|] == 0x3F;
      FindIs(decoded, QUESTION, |r.path|);
    }
  }

  /**
   * A request whose `:path` is a path and a percent-encoded query has exactly that path, decoded, and those
   * pairs, if and only if the decoded path has no question mark and nothing in the query reads differently
   * the second time it is decoded.
   */
  lemma RequestHasPathAndQuery(r: Request, id: uint32, headers: seq<Header>, data: seq<uint8>, path: seq<uint8>, query: Texts)
    requires IsMadeOf(r, id, headers, data) && r.Request? && TextsOk(query) && QUESTION !in path
    requires IsFirst(headers, Text(":path"), path + ([QUESTION] + Joined(RenderedParts(query))))
    ensures r.path == UriDecoded(path) && r.query == Query(Some(PairsOf(query)))
            <==> QUESTION !in UriDecoded(path) && AllReadTheSame(query)
  {
    var target := path + ([QUESTION] + Joined(RenderedParts(query)));
    assert Targets(r, target);
    hide IsMadeOf, Targets, IsFirst;
    TargetIs(r, target);
    Http2QueryIsExact(path, query);
    hide UriDecoded, Find, QueryParsed, PairsOf, AllReadTheSame, TextsOk, Joined, RenderedParts;
  }

  lemma ExampleTarget()
    ensures UriDecoded([0x2F, 0x61, 0x25, 0x32, 0x30, 0x62, 0x3F, 0x6B, 0x3D, 0x76])
            == [0x2F, 0x61, 0x20, 0x62, 0x3F, 0x6B, 0x3D, 0x76]
  {
    var rest: seq<uint8> := [0x32, 0x30, 0x62, 0x3F, 0x6B, 0x3D, 0x76];
    PercentAnywhere([0x2F, 0x61], rest);
    PlainIsKept([0x2F, 0x61]);
    PlainIsKept([0x62, 0x3F, 0x6B, 0x3D, 0x76]);
    HexDigits(0x32);
    HexDigits(0x30);
    HexByteIs(0x32, 0x30);
    hide *;
    ExampleBytes(rest);
  }

  lemma ExampleBytes(rest: seq<uint8>)
    requires rest == [0x32, 0x30, 0x62, 0x3F, 0x6B, 0x3D, 0x76]
    ensures rest[2..] == [0x62, 0x3F, 0x6B, 0x3D, 0x76]
    ensures [0x2F, 0x61] + ([0x25] + rest) == [0x2F, 0x61, 0x25, 0x32, 0x30, 0x62, 0x3F, 0x6B, 0x3D, 0x76]
    ensures [0x2F, 0x61] + ([0x20] + [0x62, 0x3F, 0x6B, 0x3D, 0x76]) == [0x2F, 0x61, 0x20, 0x62, 0x3F, 0x6B, 0x3D, 0x76]
  {
  }

  lemma ExampleQuery()
    ensures QueryPairs([0x6B, 0x3D, 0x76]) == Some([([0x6B], [0x76])])
  {
    OneParam(Valued([Plain(0x6B)], [Plain(0x76)]));
    PlainText(0x6B);
    PlainText(0x76);
    hide UriDecoded, QueryPairs, Rendered, ValueOf, TextOk;
    assert [0x6B] + [EQUALS] + [0x76] == [0x6B, 0x3D, 0x76];
  }

  lemma ExampleIsCut(r: Request)
    requires r.Request? && Targets(r, [0x2F, 0x61, 0x25, 0x32, 0x30, 0x62, 0x3F, 0x6B, 0x3D, 0x76])
    ensures r.path == [0x2F, 0x61, 0x20, 0x62] && r.query == Query(Some([([0x6B], [0x76])]))
  {
    hide UriDecoded, QueryPairs, QueryParsed, Targets, Find;
    ExampleTarget();
    ExampleQuery();
    TargetIs(r, [0x2F, 0x61, 0x25, 0x32, 0x30, 0x62, 0x3F, 0x6B, 0x3D, 0x76]);
    var target: seq<uint8> := [0x2F, 0x61, 0x20, 0x62, 0x3F, 0x6B, 0x3D, 0x76];
    assert target[..4] == [0x2F, 0x61, 0x20, 0x62] && target[5..] == [0x6B, 0x3D, 0x76];
    FindIs(target, QUESTION, 4);
    ParsedFrom(target, 4);
  }

  lemma ParsedFrom(target: seq<uint8>, i: nat)
    requires i < |target| && Find(target, QUESTION) == i
    ensures QueryParsed(target) == Query(QueryPairs(target[i + 1..]))
  {
    hide Find, QueryPairs;
  }

  /** "POST /a%20b?k=v": the path is "/a b", the query k=v. */
  lemma PostExample(r: Request, id: uint32, headers: seq<Header>, data: seq<uint8>)
    requires headers == [Header(Text(":method"), Text("POST")),
                         Header(Text(":path"), [0x2F, 0x61, 0x25, 0x32, 0x30, 0x62, 0x3F, 0x6B, 0x3D, 0x76])]
    requires IsMadeOf(r, id, headers, data)
    ensures r.Request? && r.path == [0x2F, 0x61, 0x20, 0x62] && r.method_ == Post && r.body == data
    ensures r.query == Query(Some([([0x6B], [0x76])]))
    ensures r.headers.Keys == {Text(":method"), Text(":path")} && r.headers[Text(":method")] == Text("POST")
  {
    PseudoHeadersDiffer();
    hide Text, NamedBy, Targets, HasKey, IsFirst, IsLast;
    TwoHeaders(headers, headers[0], headers[1]);
    ExampleIsCut(r);
    PostIsNamed(r.method_);
    assert forall key :: key in r.headers <==> key in {Text(":method"), Text(":path")};
  }

  lemma PseudoHeadersDiffer()
    ensures Text(":method") != Text(":path")
  {
    assert Text(":method")[1] != Text(":path")[1];
  }

  lemma PostIsNamed(m: Method)
    requires NamedBy(m, Text("POST"))
    ensures m == Post
  {
    hide Text;
  }

  lemma TwoHeaders(headers: seq<Header>, first: Header, second: Header)
    requires headers == [first, second] && first.key != second.key
    ensures IsFirst(headers, first.key, first.value) && IsFirst(headers, second.key, second.value)
    ensures forall key :: HasKey(headers, key) <==> key == first.key || key == second.key
    ensures forall value :: IsLast(headers, first.key, value) ==> value == first.value
  {
    assert headers[0] == first && headers[1] == second;
  }
}
