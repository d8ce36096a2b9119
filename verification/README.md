# The HTTP/2 wire stack of rite, in Dafny

This project models how rite speaks HTTP/2: the Huffman coder and the HPACK codec, frames and their
reassembly from packets, the connection's state machine, and the handlers that write responses while
others do. Each layer is stated twice, as what bytes look like and as what they mean, and the statements
compose into one: what a handler sends is what a peer reads. A second, smaller model covers the server's
table of connections, its sentinels and the reference counts of plain HTTP.

Code that changes state is modelled by methods and classes with the source's fields and loops. Each is
proved to do what a specification function says, and the results below are proved about those functions.
Threads are modelled as interleaved steps, with every lock explicit.

| module | what it models |
|---|---|
| `Options`, `Bits` | a missing value; machine integers, bytes and bit strings |
| `Huffman`, `HuffmanTable` | the string coder for any code table; the table of the source |
| `VariableInteger` | HPACK integers |
| `Frames` | frame headers, and the payload of HEADERS frames |
| `HpackStatics`, `HpackParser`, `HpackGrammar` | the static table; the parser; its meaning on well-formed blocks, and the dynamic table as a log |
| `HpackSerializer`, `HpackRoundTrip` | the serializer; what the parser reads back from it |
| `Reassembly` | frames from packets |
| `Uri`, `Parameters` | percent decoding and query strings; stray percent signs, and parameters without values |
| `Http2`, `Http2Runs`, `Connection` | `process` as a function of the state; safety of all its runs; the connection object and read loop |
| `HeaderLists`, `Continuations` | where header lists come from; blocks cut into several frames |
| `Requests` | what every request has to do with the headers and data of its stream |
| `FrameRuns`, `HandshakeRuns` | the packet loop refines a loop over frames; runs from the first byte |
| `ControlFrames`, `ReadLoop` | what each kind of frame does, and every byte that is answered; how calls and handlers decide what becomes of packet and connection |
| `Responses`, `Writers`, `EndToEnd` | slicing of bodies; concurrent writers; delivery to a peer |
| `Slots`, `SlotRuns`, `PlainHttp` | slots, sentinels and reference counts; what tasks and unused connections come to; a plain HTTP connection |

## Main results

* A response of any headers that survive and any buffers, written while any number of other handlers and
  the reader write too, and cut into packets anywhere but inside a frame header, leaves the peer's stream
  with the normalised headers, finished once, and exactly the body (`EveryResponseArrives`): its status in
  decimal, then its headers (`EveryResponseIsReadBack`), each key of the static table as the table spells it
  and every other as it was given (`HeaderComesBackAs`).
* HPACK gives back a header list exactly when each of its headers survives, for any pair of static maps
  (`HpackRoundTrip`).
* Frames come out of packets exactly when no packet boundary cuts a frame header (`ReassemblyIsExact`), and
  a connection gets from its first byte to its frames exactly when, moreover, one packet holds the whole
  preface (`RunFromTheStart`).
* In every run each request has the path, query, method, headers and body that the header list and the DATA
  of its own stream say (`StreamsAreIsolated`, `EveryRequestIsMadeOf`); that header list
  is its own exactly when no other stream has contributed to it (`ListsAreOwnExactly`); and nothing happens
  before the handshake (`HandshakeComesFirst`).
* In every run, however it ends, the bytes written are the empty SETTINGS of the handshake and one answer for
  each frame that asks for one (`EveryRunAnswers`).
* How the n-th request of a connection is answered decides what becomes of its packet, of the connection and
  of the packets after it (`AnswerDecidesWhatFollows`); in any run over a packet all requests before the last
  were answered well (`FailingAnswerEnds`).
* A header block may be cut into HEADERS and CONTINUATION exactly when the first frame does not end the
  stream (`CutBlockIsWholeExactly`).
* In every interleaving a slot in use holds one living connection with one sentinel (`SlotsAreSafe`), and
  a plain HTTP connection's count is what is outstanding (`RefsAreConserved`); one that is closed or idle and
  unused can always be let go (`UnusedConnectionGoes`).

## Where the code does not do what one would expect

The model follows the code. Where that makes a property false, the exact condition is proved.

* `header_by_index` compares with `<` against a map of 61 entries (src/protocols/h2/hpack.cpp:136), so
  index 61 is refused although `search_index` emits it: `www-authenticate` does not survive. Looking up
  index 0 inserts an empty header into the static map for the whole process (at line 137), after which there
  are 62 entries: a reader accepts index 61, but a sender sends an empty key with a value so that it is read
  back wrong. `hasZero`, `senderZero` and `readerZero` are this fact; `Survives` is the condition, and
  `HpackRoundTrip` is an equivalence for any pair of maps.
* Decoded headers gather in the connection's one parser, not with a stream, and only a finished block takes
  them out (src/protocols/h2/hpack.cpp:36-91 and 154-157, src/protocols/h2/connection.cpp:203-210). So a list
  may hold headers that another stream has sent (`HeadersCrossStreams`, `ListsAreOwnExactly`).
* END_STREAM on a HEADERS frame is taken for the end of its block (src/protocols/h2/hpack.cpp:98), so a
  bodyless request whose block goes on in CONTINUATION frames is lost (`CutRequestIsLost`,
  `CutBlockIsWholeExactly`).
* The serializer lower-cases keys for the lookup only (src/protocols/h2/hpack.cpp:162 and 231), so a peer sees
  `Norm` of a header: its key is lower-cased just when the lower-cased key is in the static table
  (`NormGoesBySpelling`).
* The dynamic table is counted in entries, not octets, and insertion never evicts (src/protocols/h2/hpack.cpp:54
  and 58-75).
* A frame header, or the connection preface, that is split across two reads is an error and is not
  resumed (src/protocols/h2/connection.cpp:29 and 78; `ReassemblyIsExact`, `RunFromTheStart`).
* An integer that is cut off at the end of its block is accepted (include/protocols/h2/hpack.hpp:87-99;
  `CutInt`); a literal field that is cut off never is (`CutFieldIsRefused`), and closes the connection
  (`CutFieldClosesInPacket`).
* An empty header fragment trips an assert and a payload too short for its priority raises a value that
  nothing catches, so that either ends the process (src/protocols/h2/headers.cpp:36-50; `EmptyFragmentDies`).
* A last buffer of length 0 sends no frame, so the stream is never ended (src/https.cpp:103).
* `finish_stream` decodes the whole target before it looks for the query, whose parts are then decoded
  again (src/protocols/h2/connection.cpp:379-385). `Http2QueryIsExact` says exactly when path and query come
  back; an escaped question mark in the path is one case where they do not (`EscapedQuestionMark`).
* An entry for a stream is made before the test whether there is one
  (src/protocols/h2/connection.cpp:152 and 230), so the test never fires.

## Assumptions

* Serialising a header list and finishing its frame is one step: the serializer is shared by all handlers
  of a connection and not locked (src/https.cpp:83-84).
* The event loop's test of a slot and the `take` that follows are one step (include/server.hpp:168-176).
  That step may still come between a sentinel's test and its marking of the slot; what follows from it, and
  from its absence, is `CarelessEventDeletesInUse` and `CarefulRunsDeleteNothingInUse`.
* Plain HTTP handlers do not throw and are not given a thread pool, so a read task ends after its response.
  HTTP/2 handlers may fail in any way, except those of the peer in the delivery results (`Willing`).
* The static map is changed only by the connection that a run is about, not by others of the same process.
* One read task at a time works on an HTTP/2 connection, so its packets are processed in the order read.
* The user's stream of buffers comes to a last one; otherwise the source waits for it for ever.
* The peer of the delivery results runs the protocol code of this repository past its handshake. Its static
  map need not agree with the sender's, nor the sender's with itself from one reply to the next; headers
  survive for the map that the peer starts with.
* No two responses answer the same stream where a result says so (`DistinctStreams`).

## Model

| member | source | states |
|---|---|---|
| `Huffman.Huffman.constructor` | include/protocols/h2/huffman.hpp:19-29 | from any encoding map with distinct code values, the two reverse maps hold exactly its codes: each value its symbol and its length |
| `Huffman.Huffman.Encode` | include/protocols/h2/huffman.hpp:74-110 | the bit loop yields the bytes whose bits are the codes of the text, in order, filled up with one-bits |
| `Huffman.Huffman.Decode` | include/protocols/h2/huffman.hpp:31-72 | the bit walk with lookups by numeric value yields exactly the symbols that reading the bits code by code gives, on every input |
| `Huffman.Huffman.DecodeByte` | include/protocols/h2/huffman.hpp:47-68 | the eight turns for one byte continue the walk over the bits of that byte |
| `Huffman.Huffman.MinimumLength` | include/protocols/h2/huffman.hpp:36-41 | the length of a shortest code, unless there is none |
| `Huffman.RoundTrip` | include/protocols/h2/huffman.hpp:31-110 | decoding what was encoded gives back every byte string, padding included, for any canonical code |
| `Huffman.EncodedLength` | include/protocols/h2/huffman.hpp:74-110 | the encoding takes the summed code lengths over 8, rounded up |
| `Huffman.ResetOnlyAfterEos` | include/protocols/h2/huffman.hpp:46-68 | thirty-two bits pass without a symbol if and only if the first thirty after the boundary are all ones, for a canonical code that only lacks EOS |
| `Huffman.DecodeFromBoundary` | include/protocols/h2/huffman.hpp:46-68 | from a symbol boundary, on arbitrary bits, decoding either reads the one code found there or, after thirty ones, drops thirty-two bits |
| `HuffmanTable.HpackCodeIsCanonical` | src/protocols/h2/huffman.cpp:6-264 | the table is addressable by code value, prefix-free, and has no all-ones code |
| `HuffmanTable.HpackCodeIsComplete` | src/protocols/h2/huffman.cpp:6-264 | every thirty bits but thirty ones start with some code of the table |
| `HuffmanTable.LongerValuesAreGreater` | src/protocols/h2/huffman.cpp:6-264 | a longer code has a greater value than a shorter one, even once cut to its length |
| `HuffmanTable.DistinctValues` | src/protocols/h2/huffman.cpp:6-264 | two bytes with the same code value, whatever the lengths, are the same byte |
| `HuffmanTable.EqualLengthsAscend` | src/protocols/h2/huffman.cpp:6-264 | of two bytes with codes of one length the greater byte has the greater code, so that the lengths alone determine the code |
| `HuffmanTable.StatusExample` | include/protocols/h2/huffman.hpp:74-110 | "302" is encoded as the two bytes 64 02, as in section C.6.1 of RFC 7541 |
| `Bits.ByteBits` | include/protocols/h2/huffman.hpp:47-50 | the bits of a byte are read from the high one down |
| `HuffmanTable.HpackStringRoundTrip` | src/protocols/h2/huffman.cpp:6-264 | the round trip for the table in the source |
| `HuffmanTable.HpackResetOnlyAfterEos` | include/protocols/h2/huffman.hpp:63-67 | the reset in the source happens exactly after thirty one-bits |
| `VariableInteger.Encode` | include/protocols/h2/hpack.hpp:40-65 | the loop yields the prefix form of section 5.1 of RFC 7541 |
| `VariableInteger.Decode` | include/protocols/h2/hpack.hpp:69-101 | the loop reads the prefix form modulo 2^32, with the consumed length; empty data and a shift of 32 or more are outcomes of their own |
| `VariableInteger.IntRoundTrip` | include/protocols/h2/hpack.hpp:40-101 | for prefixes of 4 to 7 bits, every 32-bit value, any flag bits above the prefix and any bytes after it, decoding gives back value and length, at most six bytes |
| `VariableInteger.WholeIntIsLocal` | include/protocols/h2/hpack.hpp:69-101 | a terminated integer is read the same whatever follows it |
| `VariableInteger.EncodedIntIs` | include/protocols/h2/hpack.hpp:40-65 | the shortest form: the value alone if it is below the full prefix; else the full prefix and groups of seven bits, the least significant first, that add up to the rest, the high bit on all but the last |
| `VariableInteger.DecodedIntIs` | include/protocols/h2/hpack.hpp:69-101 | up to five groups are added to the full prefix modulo 2^32, ended by a group without high bit or by the end of the data; a sixth is an undefined shift |
| `Frames.Pack` | include/protocols/h2.hpp:31-50 | writes exactly the nine header bytes in place and leaves the rest of the buffer, or nothing if the buffer is too small |
| `Frames.Unpack` | include/protocols/h2.hpp:53-70 | overwrites the header fields from nine bytes and keeps the data, or changes nothing |
| `Frames.HeaderRoundTrip` | include/protocols/h2.hpp:31-70 | a header survives packing if and only if its length fits 24 bits; otherwise the length is cut |
| `Frames.HeaderIsPacked` | include/protocols/h2.hpp:31-70 | packing what was unpacked gives the nine bytes back |
| `Frames.HeaderBytes` | include/protocols/h2.hpp:31-50 | the nine bytes of every header, one by one |
| `Frames.FlagBits` | include/protocols/h2/headers.hpp:8-11 | the flags are the bits 0x1, 0x4, 0x8 and 0x20 of the flags byte |
| `Frames.HeadersPayload` | src/protocols/h2/headers.cpp:5-58 | strips pad length, priority and padding, throws on a short priority, and trips its assert on an empty fragment |
| `Frames.FragmentIsRecovered` | src/protocols/h2/headers.cpp:5-58 | for every layout of section 6.2 of RFC 7540 the fragment is recovered, unless it is empty |
| `Frames.StrippedPayload` | src/protocols/h2/headers.cpp:26-58 | for each combination of the flags 0x8 and 0x20, which bytes of any payload are left, when the payload is too short, and when the assert fails |
| `HpackStatics.StaticKeys` | src/protocols/h2/hpack.cpp:268-331 | index 61 alone has the key www-authenticate, and no entry but an inserted key 0 has an empty key |
| `HpackStatics.StaticEntryIsListed` | src/protocols/h2/hpack.cpp:268-331 | the 61 headers are those of Appendix A of RFC 7541, each at its index |
| `HpackStatics.KeysAreSmall` | src/protocols/h2/hpack.cpp:268-331 | no key of the table has a capital letter |
| `HpackStatics.StaticTable.constructor` | src/protocols/h2/hpack.cpp:268-331 | the static map starts without a key 0 |
| `HpackParser.Parser.constructor` | src/protocols/h2/hpack.cpp:132 | both tables start empty |
| `HpackParser.Parser.HeaderByIndex` | src/protocols/h2/hpack.cpp:134-152 | resolves an index against both tables as the code bounds it, in 32-bit arithmetic, and inserts key 0 into the static map on index 0 |
| `HpackParser.Parser.ParseString` | src/protocols/h2/hpack.cpp:104-130 | reads one string literal at the cursor, Huffman-coded or raw, or reports which error stops it |
| `HpackParser.Parser.ParseLiteral` | src/protocols/h2/hpack.cpp:40-56 | one literal field with its key, its value and, for the indexing form, its table entry; an error changes nothing |
| `HpackParser.Parser.ParseValue` | src/protocols/h2/hpack.cpp:51-54 | the value of a literal, and the header it completes; an error changes nothing |
| `HpackParser.Parser.ParseOne` | src/protocols/h2/hpack.cpp:24-97 | one turn of the loop does one representation and moves the cursor by its length |
| `HpackParser.Parser.Parse` | src/protocols/h2/hpack.cpp:16-102 | the loop over the payload leaves the state and returns the status of reading the block representation by representation |
| `HpackParser.Parser.Result` | src/protocols/h2/hpack.cpp:154-157 | hands out the decoded headers and leaves none |
| `HpackParser.Step` | src/protocols/h2/hpack.cpp:24-97 | every representation that raises no error takes at least one byte and stays inside the payload, so the no-progress guard never fires |
| `HpackGrammar.StepFollowsGrammar` | src/protocols/h2/hpack.cpp:24-97 | on a well-formed representation of section 6 of RFC 7541, whatever follows it, the parser does what the representation means and stops at its end |
| `HpackGrammar.ParserFollowsGrammar` | src/protocols/h2/hpack.cpp:16-102 | a block of well-formed representations is parsed to its meaning, and parsing goes on with the rest |
| `HpackGrammar.FragmentsCompose` | src/protocols/h2/hpack.cpp:16-102 | parsing two frames of a block cut between representations gives the headers, table and status of one frame with the whole block, whatever their flags |
| `HpackGrammar.BlockIgnoresDecoded` | src/protocols/h2/hpack.cpp:24-97 | what a block decodes to does not depend on the headers decoded before it |
| `Continuations.CutBlockIsWhole` | src/protocols/h2/connection.cpp:182-224 | at the connection, two such frames leave the same stream, tables, header list and request as one frame, if the first does not carry END_STREAM |
| `Continuations.CutBlockIsWholeExactly` | src/protocols/h2/connection.cpp:182-224 | when the second frame ends the block: if and only if the first does not carry END_STREAM |
| `Continuations.CutRequestIsLost` | src/protocols/h2/connection.cpp:207-223 | a bodyless request whose block is cut, with END_STREAM on its HEADERS frame, makes the failure request of its first part and no other |
| `HpackGrammar.CutInt` | include/protocols/h2/hpack.hpp:87-99 | an integer cut off anywhere behind its first byte is still accepted, with a nonzero value |
| `HpackGrammar.CutFieldIsRefused` | src/protocols/h2/hpack.cpp:24-130 | a literal field cut anywhere inside is never accepted: an index that neither table has is reported first; where a whole string is missing an exception is raised; a cut string is invalid |
| `HpackGrammar.DecodedGrows` | src/protocols/h2/hpack.cpp:24-97 | parsing only ever appends decoded headers, on any bytes |
| `HpackGrammar.TableIsLogPrefix` | src/protocols/h2/hpack.cpp:53-75 | over one block of any bytes the dynamic table stays a newest-first prefix of the log of insertions |
| `HpackGrammar.TableRefinesLog` | src/protocols/h2/hpack.cpp:53-75 | over any sequence of blocks the table is a prefix of the log: updates only drop the oldest |
| `HpackGrammar.IndexNamesLogEntry` | src/protocols/h2/hpack.cpp:134-152 | the k-th index past the static map (62+k, or 63+k once key 0 is in it) names the k-th newest insertion if that survives, and is rejected if not |
| `HpackGrammar.LookupIs` | src/protocols/h2/hpack.cpp:134-152 | which header each index names: 0 an empty one, the next ones the static entries, and from one past the size of the static map the entries of the dynamic table, newest first |
| `HpackGrammar.ResizeKeepsNewest` | src/protocols/h2/hpack.cpp:58-75 | a size update leaves as many of the newest entries as it names, or all, and changes nothing else |
| `HpackGrammar.BlockEnds` | src/protocols/h2/hpack.cpp:16-130 | on any bytes a block is read to its end, or ends in an unknown index, an invalid string, a missing string or an undefined shift; a size update is never reported |
| `HpackGrammar.FrameEnds` | src/protocols/h2/hpack.cpp:98 | a block that is read to its end is done exactly if flag 0x4 or 0x1 is set |
| `HpackGrammar.LongIntIsUndefined` | include/protocols/h2/hpack.hpp:87-99 | an index, size or string length of more than five groups is an undefined shift |
| `HpackSerializer.Serializer.constructor` | include/protocols/h2/hpack.hpp:136-139 | the payload starts empty |
| `HpackSerializer.Serializer.SearchIndex` | src/protocols/h2/hpack.cpp:159-175 | in whatever order the static map is visited: a full match if there is one, else a key match if there is one, else none |
| `HpackSerializer.ToLowerIs` | src/protocols/h2/hpack.cpp:10-14 | lower-casing adds 0x20 to the bytes 0x41 to 0x5A and changes no other |
| `HpackSerializer.SearchGoesBySpelling` | src/protocols/h2/hpack.cpp:159-175 | a header is found if and only if its key is, but for capitals, a key of the map; what is found has that key, and the value too if some entry with that key has it |
| `HpackSerializer.NormGoesBySpelling` | src/protocols/h2/hpack.cpp:162-170 | a key that is found is seen by the peer as the table spells it, any other as it was given |
| `HpackSerializer.ContentTypeIsFound` | src/protocols/h2/hpack.cpp:162-170 | Content-Type is found as content-type |
| `HpackSerializer.EncodeFlagged` | src/protocols/h2/hpack.cpp:191-202 | an encoded index or length with its flag bits in the first byte |
| `HpackSerializer.Serializer.PutString` | src/protocols/h2/hpack.cpp:206-222 | appends the flagged length and the Huffman-coded text |
| `HpackSerializer.Serializer.PutHeader` | src/protocols/h2/hpack.cpp:184-252 | appends one representation, chosen by where the header was found |
| `HpackSerializer.Serializer.PutField` | src/protocols/h2/hpack.cpp:196-251 | appends a literal with indexed or literal key |
| `HpackSerializer.Serializer.Serialize` | src/protocols/h2/hpack.cpp:177-253 | appends exactly one representation per header, in order |
| `HpackSerializer.WrittenBytes` | src/protocols/h2/hpack.cpp:184-252 | the bytes of each representation: one byte 0x80 plus the index, one byte 0x40 plus the key index and the value, or a zero byte, key and value |
| `HpackSerializer.StringIsWritten` | src/protocols/h2/hpack.cpp:206-222 | a string is its Huffman code behind the length of that with flag 0x80 |
| `HpackSerializer.Serializer.Finish` | src/protocols/h2/hpack.cpp:255-265 | moves the payload into a HEADERS frame with END_HEADERS |
| `HpackSerializer.ChosenEntry` | src/protocols/h2/hpack.cpp:134-175 | what the search finds in the sender's map is, for a header that survives, the entry that the reader will look up in its own |
| `HpackSerializer.SurvivesEveryView` | src/protocols/h2/hpack.cpp:134-175 | a list survives whatever the two maps have exactly if it has no www-authenticate and no empty key with a value |
| `HpackRoundTrip.SurvivingHeadersAreReadBack` | src/protocols/h2/hpack.cpp:16-265 | for every earlier decoder state, every choice of the search, and whatever the maps of sender and reader have, the frame of a list of surviving headers parses to exactly the normalised headers, and the table gains those with an indexed key, newest first |
| `HpackRoundTrip.HpackRoundTrip` | src/protocols/h2/hpack.cpp:16-265 | for any pair of maps, the round trip holds if and only if every header of the list survives |
| `HpackRoundTrip.HeaderComesBackAs` | src/protocols/h2/hpack.cpp:16-265 | each header of a list of surviving headers comes back with its value, and with its key as the static table spells it, or, if no static key is spelled so, as it was |
| `HpackRoundTrip.RefusedIndex` | src/protocols/h2/hpack.cpp:136 | www-authenticate is sent with index 61, which a reader without key 0 refuses, whatever the sender has |
| `HpackRoundTrip.MisreadKey` | src/protocols/h2/hpack.cpp:136-137 | once key 0 is in the sender's map, an empty key with a value is read back with the value as its key |
| `HpackRoundTrip.LostHeaderIsNoticed` | src/protocols/h2/hpack.cpp:134-175 | a header that does not survive ends in an error or in a different header |
| `Reassembly.ReadStep` | src/protocols/h2/connection.cpp:20-65 | a completed frame has exactly its announced length, at most 4 MiB; a read that lacks data uses up all there is; a read without error makes progress |
| `Reassembly.ReadPacket` | src/protocols/h2/connection.cpp:20-65 | every frame that a packet completes is whole, and what is left over is the front of one |
| `Reassembly.ReadStepConserves` | src/protocols/h2/connection.cpp:20-65 | one read moves its bytes, unchanged, into the frame or the unfinished frame |
| `Reassembly.ReadFailsExactly` | src/protocols/h2/connection.cpp:28-38 | a read fails if and only if, between frames, fewer than nine bytes are left or the header announces more than 4 MiB, and then takes nothing |
| `Reassembly.ReadingConserves` | src/protocols/h2/connection.cpp:20-65 | after any reads without error the bytes received are the frames emitted followed by the unfinished frame's header and data |
| `Reassembly.SplitIsUnique` | include/protocols/h2.hpp:31-70 | a byte stream splits into whole frames and an unfinished one in one way only |
| `Reassembly.CutsDoNotMatter` | src/protocols/h2/connection.cpp:20-65 | two ways of cutting the same bytes that are both read without error give the same frames and the same unfinished frame |
| `Reassembly.ReassemblyIsExact` | src/protocols/h2/connection.cpp:20-65 | the wire of whole frames is read back as exactly those frames if and only if no packet boundary lies inside a nine-byte header |
| `Uri.UriDecode` | src/protocols/h2/connection.cpp:289-316 | the loop decodes escapes, keeps malformed ones, and turns plus into space |
| `Uri.DecodeUriComponent` | src/http/parser.cpp:129-144 | the loop decodes escapes and leaves plus alone; an escape without two hex digits has no defined value |
| `Uri.WellEscapedDecodes` | src/http/parser.cpp:129-144 | decode_uri_component has a value exactly if every percent sign is followed by two hex digits |
| `Uri.DecodersAgree` | src/protocols/h2/connection.cpp:289-316 | where every percent sign is followed by two hex digits, the two decoders agree if and only if the string has no plus |
| `Uri.ParseQuery` | src/http/parser.cpp:100-127 | the loop over the text after the question mark yields the pair of each part, in order |
| `Uri.ParsePair` | src/http/parser.cpp:110-124 | one part is split at its first equals sign and decoded |
| `Uri.QueryRoundTrip` | src/http/parser.cpp:100-144 | rendered pairs, with any choice of what to escape, are parsed back exactly |
| `Uri.Http2QueryIsExact` | src/protocols/h2/connection.cpp:377-386 | behind finish_stream, which decodes the whole target first, path and pairs come back if and only if the decoded path has no question mark and each text also reads the same when decoded twice |
| `Uri.EscapedQuestionMark` | src/protocols/h2/connection.cpp:379-385 | the target /%3F?k=v has the path / and the key ?k |
| `Parameters.HexDigits` | src/protocols/h2/connection.cpp:296-299 | the digits 0 to 9, A to F and a to f have their values, and nothing else is a hex digit |
| `Parameters.PercentAnywhere` | src/protocols/h2/connection.cpp:293-305 | a percent sign anywhere in a target is replaced with its two hex digits by their byte, and without them is kept |
| `Parameters.OtherByteAnywhere` | src/protocols/h2/connection.cpp:306-312 | a plus sign anywhere becomes a space, and any other byte that is no hex digit is kept |
| `Parameters.StrayPercentSigns` | src/protocols/h2/connection.cpp:302-305 | 100%, a%2 and %zz are kept |
| `Parameters.QueryIsParsedExactly` | src/http/parser.cpp:100-144 | a query string is parsed if and only if every percent sign in it is followed by two hex digits |
| `Parameters.ParamsAreParsed` | src/http/parser.cpp:110-125 | any list of parameters with and without equals signs is parsed back in order, one without having the empty value; only a last empty one is dropped |
| `Parameters.FlagParameter` | src/http/parser.cpp:112-120 | ?a=1&f has a with 1 and f with the empty value |
| `Http2.FindHeaderIsFirst` | src/protocols/h2/connection.cpp:321-326 | of several :path or :method headers the first counts, and none is found exactly if there is none |
| `Http2.HeaderMapIsLast` | src/protocols/h2/connection.cpp:370-373 | the request's header map has exactly the keys received, each with its last value |
| `Http2.ProcessStep` | src/protocols/h2/connection.cpp:67-264 | each call that returns with data left moves the cursor forward and not past the end; it reports the end exactly when no data are left |
| `Http2Runs.StreamsAreIsolated` | src/protocols/h2/connection.cpp:152-245 | in every run each request is made, right after something on its own stream, of the header list last finished there and exactly the DATA received there since the stream's previous request, in order |
| `Requests.EveryRequestIsMadeOf` | src/protocols/h2/connection.cpp:319-393 | in every run each request, or failure, has what the list and the data of its stream say: body, exactly the keys received with their last values, the method that the first :method names or none, and the first :path decoded and cut at its question mark |
| `Requests.RequestHasPathAndQuery` | src/protocols/h2/connection.cpp:345-386 | a request whose first :path is a path and a percent-encoded query has that path and those pairs if and only if the decoded path has no question mark and nothing in the query reads differently when decoded twice |
| `Requests.PostExample` | src/protocols/h2/connection.cpp:345-392 | POST /a%20b?k=v: method, path, query, headers and body |
| `Http2Runs.ListsAreOwnExactly` | src/protocols/h2/connection.cpp:184-211 | at any point of any run, a stream's header list is what all HEADERS and CONTINUATION frames have contributed since the list finished before it, on any stream and in refused blocks too; it is the stream's own if and only if none of the contributing frames was on another stream |
| `HeaderLists.HeadersCrossStreams` | src/protocols/h2/connection.cpp:203-210 | a block left unfinished on stream 1 is finished by stream 3, whose request carries the method sent on stream 1 |
| `Http2Runs.HandshakeComesFirst` | src/protocols/h2/connection.cpp:75-142 | in every run nothing is written and nothing requested before the whole preface and a SETTINGS frame of length divisible by 6; the first thing written is the empty SETTINGS frame; the other states are never reached |
| `Http2Runs.PhasesOnlyAdvance` | src/protocols/h2/connection.cpp:75-142 | more packets never take the state back, and only append to what was written |
| `Http2Runs.EveryRunKeepsInv` | src/protocols/h2/connection.cpp:67-264 | the invariant behind these results holds in every reachable state |
| `ControlFrames.ControlFrameOnlyAnswers` | src/protocols/h2/connection.cpp:152-181 | a frame of any kind but DATA, HEADERS and CONTINUATION returns, and changes nothing but what is written: an acknowledgement for SETTINGS without flag 0x1, an answer for PING |
| `ControlFrames.DataFrameAdds` | src/protocols/h2/connection.cpp:228-246 | DATA are added to their stream, which with flag 0x1 makes its request; every other stream, the parser, the wire and whether the connection is closed stay the same |
| `ControlFrames.HeadersFrameParses` | src/protocols/h2/connection.cpp:182-227 | what becomes of the connection, of the stream and of every other stream for each way in which a header block can end |
| `ControlFrames.EveryRunAnswers` | src/protocols/h2/connection.cpp:129-176 | in every run, however it ends, the reader has written its empty SETTINGS and then, byte for byte and in order, one answer for each frame that asks for one, and nothing else |
| `ControlFrames.AnswersAreControlFrames` | src/protocols/h2/connection.cpp:154-176 | each answer is one whole SETTINGS or PING frame, as the reader among the concurrent writers writes them |
| `ControlFrames.FramesAreAnswered` | src/protocols/h2/connection.cpp:152-181 | over frames that all return, the bytes written are the answers to those frames |
| `ControlFrames.ServerWrites` | src/protocols/h2/connection.cpp:75-181 | the same from the first byte of a connection |
| `ControlFrames.CutFieldCloses` | src/protocols/h2/connection.cpp:188-198 | a block that ends inside a string, or behind an unknown index, closes the connection and returns; one that ends where a string is missing throws |
| `ControlFrames.CutFieldClosesInPacket` | src/https.cpp:142-145 | either way the connection is closed by the end of the packet |
| `ControlFrames.UnknownIndexCloses` | src/protocols/h2/connection.cpp:189-193 | a block that names an index that neither table has closes the connection |
| `ControlFrames.CutKeyCloses` | src/protocols/h2/connection.cpp:194-197 | the payload 00 05 61 closes the connection |
| `ControlFrames.EmptyFragmentDies` | src/protocols/h2/headers.cpp:34-50 | a fragment that is empty once it is stripped trips the assert, and one too short for its priority raises what nothing catches |
| `ReadLoop.CallDecides` | src/https.cpp:68-148 | what each result, exception and fault of a call makes of the rest of the packet and of the connection |
| `ReadLoop.HandlerDecides` | src/https.cpp:70-148 | what each way in which a handler ends makes of them |
| `ReadLoop.AnswerDecides` | src/https.cpp:68-148 | whatever packet it is in, the n-th request of a connection decides: answered well, the rest is processed; with a layer error the run ends there with the connection as the request left it; with another exception it is closed; uncaught, the process ends |
| `ReadLoop.AnswerDecidesWhatFollows` | src/https.cpp:43-154 | and what the packets after it are processed from |
| `ReadLoop.FailingAnswerEnds` | src/https.cpp:68-148 | in every run over a packet all requests but the last were answered well, and if the last was not, the run ended as if the packet had stopped behind it |
| `ReadLoop.PrefaceBytes` | src/protocols/h2/connection.cpp:17 | the 24 bytes of the preface |
| `ReadLoop.PrefaceDecides` | src/protocols/h2/connection.cpp:76-94 | a first packet without the whole preface is dropped and the connection closed |
| `ReadLoop.FirstFrameDecides` | src/protocols/h2/connection.cpp:95-141 | the first frame: read errors and other kinds close the connection and drop the packet, a wrong length closes it and reads on, and SETTINGS are answered with empty SETTINGS |
| `ReadLoop.LaterReadDecides` | src/protocols/h2/connection.cpp:142-150 | past the handshake a read error ends the process with the connection closed |
| `Connection.Connection.constructor` | include/protocols/h2/connection.hpp:62-68 | the state that every run starts from |
| `Connection.Connection.ReadFrame` | src/protocols/h2/connection.cpp:20-65 | the resumable reader takes one step of reassembly and moves the cursor by what it consumed |
| `Connection.Connection.Write` | src/protocols/h2/connection.cpp:266-274 | appends header and payload of a frame |
| `Connection.Connection.Terminate` | src/protocols/h2/connection.cpp:276-285 | closes the connection and changes nothing else |
| `Connection.Connection.GetHeader` | src/protocols/h2/connection.cpp:321-326 | the first header with a key |
| `Connection.Connection.MakeRequest` | src/protocols/h2/connection.cpp:319-393 | path, query, method, headers and body of the request, or the failure request when :path or :method is missing |
| `Connection.Connection.FinishStream` | src/protocols/h2/connection.cpp:319-393 | a proper request takes the stream's data, a failure leaves them |
| `Connection.Connection.Process` | src/protocols/h2/connection.cpp:67-264 | every branch of the state machine: state, outcome, cursor and what was emitted |
| `Connection.Connection.ProcessHandshake` | src/protocols/h2/connection.cpp:105-140 | the frame that answers the preface |
| `Connection.Connection.ProcessFrame` | src/protocols/h2/connection.cpp:152-255 | one complete frame; the test for a missing stream at line 230 never fires |
| `Connection.Connection.ProcessHeaders` | src/protocols/h2/connection.cpp:184-227 | a HEADERS or CONTINUATION frame, with each outcome of the parser |
| `Connection.Connection.Answering` | src/https.cpp:77 | how the handler of the request ends |
| `Connection.Connection.OnRead` | src/https.cpp:62-148 | the read loop over a packet terminates, hands exactly the requests emitted, in order, to the user's handler, and ends at the end of the packet unless an exception or a handler's layer error drops the rest |
| `FrameRuns.PacketsAreTheirFrames` | src/protocols/h2/connection.cpp:95-151 | past the preface, as long as packets read without error and frames return, processing packets is processing the frames in them one after another |
| `FrameRuns.ConnectionIgnoresCuts` | src/protocols/h2/connection.cpp:20-65 | so, past the preface, two such cuttings of the same bytes leave the same connection and emit the same events |
| `HandshakeRuns.RunFromTheStart` | src/protocols/h2/connection.cpp:74-151 | from the first byte: a client's preface, SETTINGS and frames, however cut, lead through the handshake to each frame in turn if and only if the first packet with anything in it holds the whole preface and no later boundary lies inside a frame header |
| `Responses.SendSlices` | src/https.cpp:100-132 | the slicing loop writes the slices of one buffer, frame by frame |
| `Responses.SendBody` | src/https.cpp:93-133 | buffers are sent until one is last |
| `Responses.Respond` | src/https.cpp:77-133 | a response is one HEADERS frame, of its status and headers, and then its DATA frames, appended to the wire |
| `Responses.DecimalWrites` | src/https.cpp:79 | the status is written in decimal digits that stand for it, read from the left, without a leading zero |
| `Responses.ResponseHeadersAre` | src/https.cpp:78-82 | the list sent is :status with those digits and then the response's headers, in order |
| `Responses.SlicesConserve` | src/https.cpp:100-132 | the slices of a buffer carry its bytes, none is empty or longer than 16384, and only the final one of a last buffer ends the stream |
| `Responses.SliceAt` | src/https.cpp:105-119 | the k-th slice is the k-th 16384 bytes or what is left of them, and there are no more |
| `Responses.BodyIsConserved` | src/https.cpp:93-133 | whatever the buffers, the DATA payloads concatenate to the buffers up to the last; each frame is a proper slice; END_STREAM is on exactly the final frame if the last buffer is not empty and on none otherwise |
| `Responses.EndOfStreamIsSent` | src/https.cpp:103-112 | END_STREAM is sent if and only if the last buffer is not empty |
| `Writers.EveryRunKeepsInv` | src/https.cpp:83-132 | mutual exclusion, order of each response and wholeness of the wire hold in every reachable state of the writers |
| `Writers.WireIsWholeFrames` | src/https.cpp:86-123 | in every interleaving the wire is whole frames and at most one header ahead of its payload, and each response's frames are in it in order, each once |
| `Writers.NobodyIsStuck` | src/https.cpp:86-123 | while a response is incomplete or the lock is held, some thread can go on |
| `Writers.NobodyIsLockedOut` | src/https.cpp:86-123 | in every reachable state, while the lock is free the reader and every handler with frames left may take it, the reader that has it may write any control frame or let go, and new responses may begin |
| `Writers.ResponsesAreNotMixed` | src/https.cpp:83-132 | the HEADERS and DATA frames on the wire for one stream are exactly what its response has sent, nothing lost, mixed in or repeated |
| `EndToEnd.FramesAreDelivered` | src/protocols/h2/connection.cpp:152-246 | whatever other frames lie between, the headers and data kept with each stream, and the requests made of it, are those of its own frames, in order |
| `EndToEnd.PacketsAreDelivered` | src/protocols/h2/connection.cpp:20-65 | the same from packets cut anywhere but inside a header |
| `EndToEnd.ResponseArrives` | src/https.cpp:77-133 | one response, cut into packets anywhere but inside a frame header, leaves the peer's stream with the normalised headers, finished once, and with exactly the concatenated buffers behind its earlier data; headers with both :path and :method make a request that takes those data as its body |
| `EndToEnd.EveryResponseArrives` | src/https.cpp:77-133 | the same for every response among any number written concurrently, in any interleaving and at any point where the lock is free: the stream is as it was before the response begins, holds the front of the body while it goes on, and all of it once all is sent |
| `EndToEnd.ResponseIsReadBack` | src/https.cpp:77-133 | what Respond has written for a status and headers leaves the peer's stream with a :status that reads as that status, then the headers as a peer sees them, and the body |
| `EndToEnd.EveryResponseIsReadBack` | src/https.cpp:77-133 | the same for each of many concurrent responses that has begun |
| `Slots.FirstMarked` | include/server.hpp:148-151 | the first free slot, with none free before it |
| `Slots.Server.constructor` | include/server.hpp:109 | all slots start out free |
| `Slots.Server.OnAccept` | include/server.hpp:141-161 | the search for a free slot, the new sentinel, and the deletion when the table is full |
| `Slots.Server.OnReadable` | include/server.hpp:167-178 | a dead slot is skipped; otherwise the reference is taken before the read task exists |
| `Slots.SlotsAreSafe` | include/server.hpp:148-205 | in every interleaving an unmarked slot holds an undeleted connection, in no other slot, with exactly one sentinel; no connection is deleted twice, and each one not yet deleted is still to be deleted by somebody |
| `Slots.AcceptOverwritesNothing` | include/server.hpp:148-157 | accepting changes no slot in use, and keeps the newcomer if and only if a slot is free |
| `Slots.StepKeepsSlots` | include/server.hpp:148-205 | every step keeps the invariant of the slot table |
| `Slots.StepKeepsRefs` | src/servers/http.cpp:12-58 | every step keeps the count equal to what is outstanding |
| `Slots.RefsAreConserved` | include/server.hpp:199-200 | in every interleaving the count is the unreleased read tasks plus the unfinished responses (plus a hand-over in progress), so the sentinel's test passes if and only if the connection is idle or closed and none is outstanding |
| `Slots.CarefulRunsDeleteNothingInUse` | include/server.hpp:167-205 | as long as the event loop takes no connection whose sentinel has passed its test, a deleted connection is used by nobody; only a task that has released it may still be about to close it |
| `Slots.CarelessEventDeletesInUse` | include/server.hpp:168-205 | an event between a sentinel's test and its marking of the slot leads to a deleted connection that the event loop holds |
| `Slots.DeletedBeforeClosed` | src/servers/http.cpp:16-20 | a run, careful all along, that deletes a connection between the release and the close of the task that found it dead |
| `SlotRuns.TaskComesTo` | src/servers/http.cpp:12-58 | a read task that gets nothing releases its connection and closes it; one that gets a request holds one more reference while it answers; and every one drops just its own in the end, and changes nothing else in the table |
| `SlotRuns.EventStartsTask` | include/server.hpp:167-178 | an event on a slot in use takes a reference and starts a read task; on a free slot it does nothing |
| `SlotRuns.NewcomerIsPlaced` | include/server.hpp:148-160 | a newcomer is open and unused, in the first free slot, with a sentinel that has yet to look |
| `SlotRuns.SentinelDecides` | include/server.hpp:193-205 | a sentinel goes on watching unless its connection is unused and idle or closed; then its own next steps free the slot and delete the connection |
| `SlotRuns.UnusedConnectionGoes` | include/server.hpp:186-206 | in every reachable state, from any slot whose connection is idle or closed with nothing outstanding, a few steps of one sentinel free the slot and delete the connection |
| `PlainHttp.Connection.constructor` | include/connection.hpp:37-45 | no references, not closed |
| `PlainHttp.Connection.Take` | include/connection.hpp:91-94 | adds one reference |
| `PlainHttp.Connection.Release` | include/connection.hpp:95-98 | drops one reference |
| `PlainHttp.Connection.Close` | include/connection.hpp:100-103 | closes, and changes nothing else |
| `PlainHttp.Connection.Write` | include/plain.hpp:15 | appends to what was sent |
| `PlainHttp.Connection.OnRead` | src/servers/http.cpp:12-58 | on every path a read task drops exactly the reference taken for it, closes exactly when nothing was read, and writes the headers and the body up to its last buffer if there is a request |
| `PlainHttp.Connection.WriteBody` | src/servers/http.cpp:40-48 | writes the buffers up to the last |

## Left out

- Sockets, epoll, TLS, ALPN, threads and condition variables: foreign calls. Reads are given byte strings, writes append to a byte string and do not fail, threads are interleaved steps.
- The HTTPS server's reference count: src/https.cpp:153 releases once for every turn of the read loop and again on the final read, so that count is not conserved.
- Unlocked races: between a sentinel's test and its marking of the slot, and on the shared serializer; see the assumptions.
- Clocks: whether a connection is idle is a parameter of the sentinel's step.
- Stream states, flow control, SETTINGS values, the data of a PING, stream dependency and weight: the code ignores them or never reads them back; PING is answered with eight zero bytes as in the source.
- Padding of DATA frames: the code does not strip it, and neither does the model.
- The failure request's fixed path and method: they are constants, so `Failure` holds only the stream.
- Fields `version_` and `client_` of a request, the order of an unordered map of headers, and log output.
- HPACK's maximum table size and the serializer's own table: the code never uses them.
- Undefined behaviour: a shift of 32 or more while decoding an integer is the outcome `UndefinedShift`; an escape that `sscanf` cannot read makes the decoded text `None`; the pad length of an empty padded payload stands for any byte.
- The EOS entry of the code table: its key 256 narrows to byte 0, which is already there, and the map keeps the first, so the table has 256 entries.
- HpackRoundTrip.HpackRoundTrip: coded strings shorter than 2^32 bytes and a table with fewer than 2^32 entries, since lengths and indices go on the wire as 32-bit integers.
- EndToEnd.EveryResponseArrives: header blocks of at most 4 MiB, which is the most that a peer's `read_frame` accepts, and states in which the lock is free.
- Http2Runs.ListsAreOwnExactly: that another connection of the same process looks up index 0 during the run, which changes the shared static map, is not modelled in runs; `HpackRoundTrip` and the delivery results allow any maps.
- HpackGrammar.CutFieldIsRefused: integers alone and table size updates are left out, because the code does accept those without their last bytes (`CutInt`).
- HTTP/1 request parsing, response serialization, endpoint matching, cookies, middleware and extensions: library-driven or shallow.
- The Odin module (metrics, HTML, CSS), session files and examples: user interface, floating point and file I/O.
