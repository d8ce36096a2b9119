/**
 * The static header table of HPACK (src/protocols/h2/hpack.cpp; Appendix A of RFC 7541).
 *
 * The table is one mutable map for the whole process.  Looking up index 0 inserts an empty header
 * under key 0, for good; `hasZero` says whether that has happened.
 */
module HpackStatics {
  import opened Bits

  datatype Header = Header(key: seq<uint8>, value: seq<uint8>)

  /** An ASCII literal as bytes. */
  function Text(s: string): (bytes: seq<uint8>)
    ensures |bytes| == |s|
  {
    seq(|s|, i requires 0 <= i < |s| => s[i] as int % 0x100)
  }

  class StaticTable {
    var hasZero: bool

    constructor ()
      ensures !hasZero
    {
      hasZero := false;
    }
  }

  function StaticSize(hasZero: bool): nat {
    if hasZero then 62 else 61
  }

  ghost predicate IsStaticKey(hasZero: bool, index: nat) {
    1 <= index <= 61 || (index == 0 && hasZero)
  }

  function StaticKey(index: nat): string {
    match index
    case 1 => ":authority"
    case 2 => ":method"
    case 3 => ":method"
    case 4 => ":path"
    case 5 => ":path"
    case 6 => ":scheme"
    case 7 => ":scheme"
    case 8 => ":status"
    case 9 => ":status"
    case 10 => ":status"
    case 11 => ":status"
    case 12 => ":status"
    case 13 => ":status"
    case 14 => ":status"
    case 15 => "accept-charset"
    case 16 => "accept-encoding"
    case 17 => "accept-language"
    case 18 => "accept-ranges"
    case 19 => "accept"
    case 20 => "access-control-allow-origin"
    case 21 => "age"
    case 22 => "allow"
    case 23 => "authorization"
    case 24 => "cache-control"
    case 25 => "content-disposition"
    case 26 => "content-encoding"
    case 27 => "content-language"
    case 28 => "content-length"
    case 29 => "content-location"
    case 30 => "content-range"
    case 31 => "content-type"
    case 32 => "cookie"
    case 33 => "date"
    case 34 => "etag"
    case 35 => "expect"
    case 36 => "expires"
    case 37 => "from"
    case 38 => "host"
    case 39 => "if-match"
    case 40 => "if-modified-since"
    case 41 => "if-none-match"
    case 42 => "if-range"
    case 43 => "if-unmodified-since"
    case 44 => "last-modified"
    case 45 => "link"
    case 46 => "location"
    case 47 => "max-forwards"
    case 48 => "proxy-authenticate"
    case 49 => "proxy-authorization"
    case 50 => "range"
    case 51 => "referer"
    case 52 => "refresh"
    case 53 => "retry-after"
    case 54 => "server"
    case 55 => "set-cookie"
    case 56 => "strict-transport-security"
    case 57 => "transfer-encoding"
    case 58 => "user-agent"
    case 59 => "vary"
    case 60 => "via"
    case 61 => "www-authenticate"
    case _ => ""
  }

  function StaticValue(index: nat): string {
    match index
    case 2 => "GET"
    case 3 => "POST"
    case 4 => "/"
    case 5 => "/index.html"
    case 6 => "http"
    case 7 => "https"
    case 8 => "200"
    case 9 => "204"
    case 10 => "206"
    case 11 => "304"
    case 12 => "400"
    case 13 => "404"
    case 14 => "500"
    case 16 => "gzip, deflate"
    case _ => ""
  }

  function StaticEntry(index: nat): Header {
    Header(Text(StaticKey(index)), Text(StaticValue(index)))
  }

  const WWW_AUTHENTICATE: seq<uint8> := Text("www-authenticate")

  lemma EarlyKeysStart(index: nat)
    requires 1 <= index <= 30
    ensures StaticKey(index) != [] && StaticKey(index)[0] as int < 0x77
  {
  }

  lemma LateKeysStart(index: nat)
    requires 31 <= index <= 60
    ensures StaticKey(index) != [] && StaticKey(index)[0] as int < 0x77
  {
  }

  lemma LastKeyStarts()
    ensures |WWW_AUTHENTICATE| > 0 && WWW_AUTHENTICATE[0] == 0x77
    ensures StaticEntry(61).key == WWW_AUTHENTICATE && StaticEntry(0).key == []
  {
  }

  /** The last entry is the only one with its key, and only key 0 has an empty key. */
  lemma StaticKeys(index: nat)
    requires index <= 61
    ensures StaticEntry(index).key == WWW_AUTHENTICATE <==> index == 61
    ensures StaticEntry(index).key == [] <==> index == 0
  {
    LastKeyStarts();
    if 1 <= index <= 30 { EarlyKeysStart(index); }
    if 31 <= index <= 60 { LateKeysStart(index); }
    hide StaticKey, StaticValue, WWW_AUTHENTICATE;
  }

  predicate IsCapital(b: uint8) {
    0x41 <= b <= 0x5A
  }

  predicate IsSmall(c: char) {
    c as int < 0x41 || 0x5A < c as int < 0x100
  }

  lemma FirstKeysAreSmall(index: nat)
    requires 1 <= index <= 19
    ensures forall c :: c in StaticKey(index) ==> IsSmall(c)
  {
  }

  lemma SecondKeysAreSmall(index: nat)
    requires 20 <= index <= 28
    ensures forall c :: c in StaticKey(index) ==> IsSmall(c)
  {
  }

  lemma ThirdKeysAreSmall(index: nat)
    requires 29 <= index <= 36
    ensures forall c :: c in StaticKey(index) ==> IsSmall(c)
  {
  }

  lemma FourthKeysAreSmall(index: nat)
    requires 37 <= index <= 43
    ensures forall c :: c in StaticKey(index) ==> IsSmall(c)
  {
  }

  lemma FifthKeysAreSmall(index: nat)
    requires 44 <= index <= 49
    ensures forall c :: c in StaticKey(index) ==> IsSmall(c)
  {
  }

  lemma SixthKeysAreSmall(index: nat)
    requires 50 <= index <= 55
    ensures forall c :: c in StaticKey(index) ==> IsSmall(c)
  {
  }

  lemma SeventhKeysAreSmall(index: nat)
    requires 56 <= index <= 61
    ensures forall c :: c in StaticKey(index) ==> IsSmall(c)
  {
  }

  lemma StaticKeyIsSmall(index: nat)
    requires 1 <= index <= 61
    ensures forall c :: c in StaticKey(index) ==> IsSmall(c)
  {
    hide StaticKey;
    if index < 20 { FirstKeysAreSmall(index);
    } else if index < 29 { SecondKeysAreSmall(index);
    } else if index < 37 { ThirdKeysAreSmall(index);
    } else if index < 44 { FourthKeysAreSmall(index);
    } else if index < 50 { FifthKeysAreSmall(index);
    } else if index < 56 { SixthKeysAreSmall(index);
    } else { SeventhKeysAreSmall(index); }
  }

  lemma SmallText(s: string)
    requires forall c :: c in s ==> IsSmall(c)
    ensures forall b :: b in Text(s) ==> !IsCapital(b)
  {
    forall k | 0 <= k < |s| ensures !IsCapital(Text(s)[k]) {
      assert s[k] in s;
    }
  }

  /** No key of the table has a capital letter. */
  lemma KeysAreSmall(index: nat)
    requires 1 <= index <= 61
    ensures forall b :: b in StaticEntry(index).key ==> !IsCapital(b)
  {
    StaticKeyIsSmall(index);
    SmallText(StaticKey(index));
    hide StaticKey, StaticValue, Text;
  }

  /** The literal's characters are its bytes. */
  lemma TextIs(s: string, i: nat)
    requires i < |s| && s[i] as int < 0x100
    ensures Text(s)[i] == s[i] as int
  {
  }

  // ----- The table against the standard -----

  // Appendix A of RFC 7541, sixteen headers or fewer at a time, in the order of their indices.

  const ENTRIES_1_TO_14: seq<(string, string)> := [
    (":authority", ""), (":method", "GET"), (":method", "POST"), (":path", "/"), (":path", "/index.html"),
    (":scheme", "http"), (":scheme", "https"), (":status", "200"), (":status", "204"), (":status", "206"),
    (":status", "304"), (":status", "400"), (":status", "404"), (":status", "500")
  ]

  const ENTRIES_15_TO_30: seq<(string, string)> := [
    ("accept-charset", ""), ("accept-encoding", "gzip, deflate"), ("accept-language", ""), ("accept-ranges", ""),
    ("accept", ""), ("access-control-allow-origin", ""), ("age", ""), ("allow", ""), ("authorization", ""),
    ("cache-control", ""), ("content-disposition", ""), ("content-encoding", ""), ("content-language", ""),
    ("content-length", ""), ("content-location", ""), ("content-range", "")
  ]

  const ENTRIES_31_TO_46: seq<(string, string)> := [
    ("content-type", ""), ("cookie", ""), ("date", ""), ("etag", ""), ("expect", ""), ("expires", ""),
    ("from", ""), ("host", ""), ("if-match", ""), ("if-modified-since", ""), ("if-none-match", ""),
    ("if-range", ""), ("if-unmodified-since", ""), ("last-modified", ""), ("link", ""), ("location", "")
  ]

  const ENTRIES_47_TO_61: seq<(string, string)> := [
    ("max-forwards", ""), ("proxy-authenticate", ""), ("proxy-authorization", ""), ("range", ""),
    ("referer", ""), ("refresh", ""), ("retry-after", ""), ("server", ""), ("set-cookie", ""),
    ("strict-transport-security", ""), ("transfer-encoding", ""), ("user-agent", ""), ("vary", ""), ("via", ""),
    ("www-authenticate", "")
  ]

  /** The header that the standard lists for an index. */
  function Listed(i: nat): (string, string)
    requires 1 <= i <= 61
  {
    if i < 15 then ENTRIES_1_TO_14[i - 1]
    else if i < 31 then ENTRIES_15_TO_30[i - 15]
    else if i < 47 then ENTRIES_31_TO_46[i - 31]
    else ENTRIES_47_TO_61[i - 47]
  }

  lemma FirstEntriesAreListed(i: nat)
    requires 1 <= i <= 14
    ensures ENTRIES_1_TO_14[i - 1] == (StaticKey(i), StaticValue(i))
  {
  }

  lemma SecondEntriesAreListed(i: nat)
    requires 15 <= i <= 30
    ensures ENTRIES_15_TO_30[i - 15] == (StaticKey(i), StaticValue(i))
  {
  }

  lemma ThirdEntriesAreListed(i: nat)
    requires 31 <= i <= 46
    ensures ENTRIES_31_TO_46[i - 31] == (StaticKey(i), StaticValue(i))
  {
  }

  lemma FourthEntriesAreListed(i: nat)
    requires 47 <= i <= 61
    ensures ENTRIES_47_TO_61[i - 47] == (StaticKey(i), StaticValue(i))
  {
  }

  lemma StaticEntryIsListed(i: nat)
    requires 1 <= i <= 61
    ensures StaticEntry(i) == Header(Text(Listed(i).0), Text(Listed(i).1))
  {
    if i < 15 { FirstEntriesAreListed(i);
    } else if i < 31 { SecondEntriesAreListed(i);
    } else if i < 47 { ThirdEntriesAreListed(i);
    } else { FourthEntriesAreListed(i); }
    hide StaticKey, StaticValue, Text;
  }
}
