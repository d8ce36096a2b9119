/**
 * The Huffman code of HPACK (src/protocols/h2/huffman.cpp; Appendix B of RFC 7541), and the proof
 * that it has the structure the coder relies on.
 *
 * The source's list has a 257th entry for EOS, with key 256.  The map is keyed by `char`, so that key
 * narrows to 0, which is already present, and the entry is dropped.
 */
module HuffmanTable {
  import opened Bits
  import opened Huffman

  // ----- The table as listed: one function for each 16 bytes -----

  function Row0(k: nat): Code {
    match k
    case 0 => Code(0x1ff8, 13)  case 1 => Code(0x7fffd8, 23)  case 2 => Code(0xfffffe2, 28)  case 3 => Code(0xfffffe3, 28)
    case 4 => Code(0xfffffe4, 28)  case 5 => Code(0xfffffe5, 28)  case 6 => Code(0xfffffe6, 28)  case 7 => Code(0xfffffe7, 28)
    case 8 => Code(0xfffffe8, 28)  case 9 => Code(0xffffea, 24)  case 10 => Code(0x3ffffffc, 30)  case 11 => Code(0xfffffe9, 28)
    case 12 => Code(0xfffffea, 28)  case 13 => Code(0x3ffffffd, 30)  case 14 => Code(0xfffffeb, 28)  case _ => Code(0xfffffec, 28)
  }

  function Row1(k: nat): Code {
    match k
    case 0 => Code(0xfffffed, 28)  case 1 => Code(0xfffffee, 28)  case 2 => Code(0xfffffef, 28)  case 3 => Code(0xffffff0, 28)
    case 4 => Code(0xffffff1, 28)  case 5 => Code(0xffffff2, 28)  case 6 => Code(0x3ffffffe, 30)  case 7 => Code(0xffffff3, 28)
    case 8 => Code(0xffffff4, 28)  case 9 => Code(0xffffff5, 28)  case 10 => Code(0xffffff6, 28)  case 11 => Code(0xffffff7, 28)
    case 12 => Code(0xffffff8, 28)  case 13 => Code(0xffffff9, 28)  case 14 => Code(0xffffffa, 28)  case _ => Code(0xffffffb, 28)
  }

  function Row2(k: nat): Code {
    match k
    case 0 => Code(0x14, 6)  case 1 => Code(0x3f8, 10)  case 2 => Code(0x3f9, 10)  case 3 => Code(0xffa, 12)
    case 4 => Code(0x1ff9, 13)  case 5 => Code(0x15, 6)  case 6 => Code(0xf8, 8)  case 7 => Code(0x7fa, 11)
    case 8 => Code(0x3fa, 10)  case 9 => Code(0x3fb, 10)  case 10 => Code(0xf9, 8)  case 11 => Code(0x7fb, 11)
    case 12 => Code(0xfa, 8)  case 13 => Code(0x16, 6)  case 14 => Code(0x17, 6)  case _ => Code(0x18, 6)
  }

  function Row3(k: nat): Code {
    match k
    case 0 => Code(0x0, 5)  case 1 => Code(0x1, 5)  case 2 => Code(0x2, 5)  case 3 => Code(0x19, 6)
    case 4 => Code(0x1a, 6)  case 5 => Code(0x1b, 6)  case 6 => Code(0x1c, 6)  case 7 => Code(0x1d, 6)
    case 8 => Code(0x1e, 6)  case 9 => Code(0x1f, 6)  case 10 => Code(0x5c, 7)  case 11 => Code(0xfb, 8)
    case 12 => Code(0x7ffc, 15)  case 13 => Code(0x20, 6)  case 14 => Code(0xffb, 12)  case _ => Code(0x3fc, 10)
  }

  function Row4(k: nat): Code {
    match k
    case 0 => Code(0x1ffa, 13)  case 1 => Code(0x21, 6)  case 2 => Code(0x5d, 7)  case 3 => Code(0x5e, 7)
    case 4 => Code(0x5f, 7)  case 5 => Code(0x60, 7)  case 6 => Code(0x61, 7)  case 7 => Code(0x62, 7)
    case 8 => Code(0x63, 7)  case 9 => Code(0x64, 7)  case 10 => Code(0x65, 7)  case 11 => Code(0x66, 7)
    case 12 => Code(0x67, 7)  case 13 => Code(0x68, 7)  case 14 => Code(0x69, 7)  case _ => Code(0x6a, 7)
  }

  function Row5(k: nat): Code {
    match k
    case 0 => Code(0x6b, 7)  case 1 => Code(0x6c, 7)  case 2 => Code(0x6d, 7)  case 3 => Code(0x6e, 7)
    case 4 => Code(0x6f, 7)  case 5 => Code(0x70, 7)  case 6 => Code(0x71, 7)  case 7 => Code(0x72, 7)
    case 8 => Code(0xfc, 8)  case 9 => Code(0x73, 7)  case 10 => Code(0xfd, 8)  case 11 => Code(0x1ffb, 13)
    case 12 => Code(0x7fff0, 19)  case 13 => Code(0x1ffc, 13)  case 14 => Code(0x3ffc, 14)  case _ => Code(0x22, 6)
  }

  function Row6(k: nat): Code {
    match k
    case 0 => Code(0x7ffd, 15)  case 1 => Code(0x3, 5)  case 2 => Code(0x23, 6)  case 3 => Code(0x4, 5)
    case 4 => Code(0x24, 6)  case 5 => Code(0x5, 5)  case 6 => Code(0x25, 6)  case 7 => Code(0x26, 6)
    case 8 => Code(0x27, 6)  case 9 => Code(0x6, 5)  case 10 => Code(0x74, 7)  case 11 => Code(0x75, 7)
    case 12 => Code(0x28, 6)  case 13 => Code(0x29, 6)  case 14 => Code(0x2a, 6)  case _ => Code(0x7, 5)
  }

  function Row7(k: nat): Code {
    match k
    case 0 => Code(0x2b, 6)  case 1 => Code(0x76, 7)  case 2 => Code(0x2c, 6)  case 3 => Code(0x8, 5)
    case 4 => Code(0x9, 5)  case 5 => Code(0x2d, 6)  case 6 => Code(0x77, 7)  case 7 => Code(0x78, 7)
    case 8 => Code(0x79, 7)  case 9 => Code(0x7a, 7)  case 10 => Code(0x7b, 7)  case 11 => Code(0x7ffe, 15)
    case 12 => Code(0x7fc, 11)  case 13 => Code(0x3ffd, 14)  case 14 => Code(0x1ffd, 13)  case _ => Code(0xffffffc, 28)
  }

  function Row8(k: nat): Code {
    match k
    case 0 => Code(0xfffe6, 20)  case 1 => Code(0x3fffd2, 22)  case 2 => Code(0xfffe7, 20)  case 3 => Code(0xfffe8, 20)
    case 4 => Code(0x3fffd3, 22)  case 5 => Code(0x3fffd4, 22)  case 6 => Code(0x3fffd5, 22)  case 7 => Code(0x7fffd9, 23)
    case 8 => Code(0x3fffd6, 22)  case 9 => Code(0x7fffda, 23)  case 10 => Code(0x7fffdb, 23)  case 11 => Code(0x7fffdc, 23)
    case 12 => Code(0x7fffdd, 23)  case 13 => Code(0x7fffde, 23)  case 14 => Code(0xffffeb, 24)  case _ => Code(0x7fffdf, 23)
  }

  function Row9(k: nat): Code {
    match k
    case 0 => Code(0xffffec, 24)  case 1 => Code(0xffffed, 24)  case 2 => Code(0x3fffd7, 22)  case 3 => Code(0x7fffe0, 23)
    case 4 => Code(0xffffee, 24)  case 5 => Code(0x7fffe1, 23)  case 6 => Code(0x7fffe2, 23)  case 7 => Code(0x7fffe3, 23)
    case 8 => Code(0x7fffe4, 23)  case 9 => Code(0x1fffdc, 21)  case 10 => Code(0x3fffd8, 22)  case 11 => Code(0x7fffe5, 23)
    case 12 => Code(0x3fffd9, 22)  case 13 => Code(0x7fffe6, 23)  case 14 => Code(0x7fffe7, 23)  case _ => Code(0xffffef, 24)
  }

  function Row10(k: nat): Code {
    match k
    case 0 => Code(0x3fffda, 22)  case 1 => Code(0x1fffdd, 21)  case 2 => Code(0xfffe9, 20)  case 3 => Code(0x3fffdb, 22)
    case 4 => Code(0x3fffdc, 22)  case 5 => Code(0x7fffe8, 23)  case 6 => Code(0x7fffe9, 23)  case 7 => Code(0x1fffde, 21)
    case 8 => Code(0x7fffea, 23)  case 9 => Code(0x3fffdd, 22)  case 10 => Code(0x3fffde, 22)  case 11 => Code(0xfffff0, 24)
    case 12 => Code(0x1fffdf, 21)  case 13 => Code(0x3fffdf, 22)  case 14 => Code(0x7fffeb, 23)  case _ => Code(0x7fffec, 23)
  }

  function Row11(k: nat): Code {
    match k
    case 0 => Code(0x1fffe0, 21)  case 1 => Code(0x1fffe1, 21)  case 2 => Code(0x3fffe0, 22)  case 3 => Code(0x1fffe2, 21)
    case 4 => Code(0x7fffed, 23)  case 5 => Code(0x3fffe1, 22)  case 6 => Code(0x7fffee, 23)  case 7 => Code(0x7fffef, 23)
    case 8 => Code(0xfffea, 20)  case 9 => Code(0x3fffe2, 22)  case 10 => Code(0x3fffe3, 22)  case 11 => Code(0x3fffe4, 22)
    case 12 => Code(0x7ffff0, 23)  case 13 => Code(0x3fffe5, 22)  case 14 => Code(0x3fffe6, 22)  case _ => Code(0x7ffff1, 23)
  }

  function Row12(k: nat): Code {
    match k
    case 0 => Code(0x3ffffe0, 26)  case 1 => Code(0x3ffffe1, 26)  case 2 => Code(0xfffeb, 20)  case 3 => Code(0x7fff1, 19)
    case 4 => Code(0x3fffe7, 22)  case 5 => Code(0x7ffff2, 23)  case 6 => Code(0x3fffe8, 22)  case 7 => Code(0x1ffffec, 25)
    case 8 => Code(0x3ffffe2, 26)  case 9 => Code(0x3ffffe3, 26)  case 10 => Code(0x3ffffe4, 26)  case 11 => Code(0x7ffffde, 27)
    case 12 => Code(0x7ffffdf, 27)  case 13 => Code(0x3ffffe5, 26)  case 14 => Code(0xfffff1, 24)  case _ => Code(0x1ffffed, 25)
  }

  function Row13(k: nat): Code {
    match k
    case 0 => Code(0x7fff2, 19)  case 1 => Code(0x1fffe3, 21)  case 2 => Code(0x3ffffe6, 26)  case 3 => Code(0x7ffffe0, 27)
    case 4 => Code(0x7ffffe1, 27)  case 5 => Code(0x3ffffe7, 26)  case 6 => Code(0x7ffffe2, 27)  case 7 => Code(0xfffff2, 24)
    case 8 => Code(0x1fffe4, 21)  case 9 => Code(0x1fffe5, 21)  case 10 => Code(0x3ffffe8, 26)  case 11 => Code(0x3ffffe9, 26)
    case 12 => Code(0xffffffd, 28)  case 13 => Code(0x7ffffe3, 27)  case 14 => Code(0x7ffffe4, 27)  case _ => Code(0x7ffffe5, 27)
  }

  function Row14(k: nat): Code {
    match k
    case 0 => Code(0xfffec, 20)  case 1 => Code(0xfffff3, 24)  case 2 => Code(0xfffed, 20)  case 3 => Code(0x1fffe6, 21)
    case 4 => Code(0x3fffe9, 22)  case 5 => Code(0x1fffe7, 21)  case 6 => Code(0x1fffe8, 21)  case 7 => Code(0x7ffff3, 23)
    case 8 => Code(0x3fffea, 22)  case 9 => Code(0x3fffeb, 22)  case 10 => Code(0x1ffffee, 25)  case 11 => Code(0x1ffffef, 25)
    case 12 => Code(0xfffff4, 24)  case 13 => Code(0xfffff5, 24)  case 14 => Code(0x3ffffea, 26)  case _ => Code(0x7ffff4, 23)
  }

  function Row15(k: nat): Code {
    match k
    case 0 => Code(0x3ffffeb, 26)  case 1 => Code(0x7ffffe6, 27)  case 2 => Code(0x3ffffec, 26)  case 3 => Code(0x3ffffed, 26)
    case 4 => Code(0x7ffffe7, 27)  case 5 => Code(0x7ffffe8, 27)  case 6 => Code(0x7ffffe9, 27)  case 7 => Code(0x7ffffea, 27)
    case 8 => Code(0x7ffffeb, 27)  case 9 => Code(0xffffffe, 28)  case 10 => Code(0x7ffffec, 27)  case 11 => Code(0x7ffffed, 27)
    case 12 => Code(0x7ffffee, 27)  case 13 => Code(0x7ffffef, 27)  case 14 => Code(0x7fffff0, 27)  case _ => Code(0x3ffffee, 26)
  }

  function CodeOf(s: uint8): Code {
    var k := s % 16;
    match s / 16
    case 0 => Row0(k)
    case 1 => Row1(k)
    case 2 => Row2(k)
    case 3 => Row3(k)
    case 4 => Row4(k)
    case 5 => Row5(k)
    case 6 => Row6(k)
    case 7 => Row7(k)
    case 8 => Row8(k)
    case 9 => Row9(k)
    case 10 => Row10(k)
    case 11 => Row11(k)
    case 12 => Row12(k)
    case 13 => Row13(k)
    case 14 => Row14(k)
    case _ => Row15(k)
  }

  const HPACK_CODE: Table := map s: uint8 | 0 <= s < 256 :: CodeOf(s)

  // ----- The same codes in order: for each length, the symbols by increasing code -----

  function Symbols5(): seq<uint8> {
    [48, 49, 50, 97, 99, 101, 105, 111, 115, 116]
  }

  function Symbols6(): seq<uint8> {
    [32, 37, 45, 46, 47, 51, 52, 53, 54, 55, 56, 57, 61, 65, 95, 98, 100, 102, 103, 104,
     108, 109, 110, 112, 114, 117]
  }

  function Symbols7(): seq<uint8> {
    [58, 66, 67, 68, 69, 70, 71, 72, 73, 74, 75, 76, 77, 78, 79, 80, 81, 82, 83, 84,
     85, 86, 87, 89, 106, 107, 113, 118, 119, 120, 121, 122]
  }

  function Symbols8(): seq<uint8> {
    [38, 42, 44, 59, 88, 90]
  }

  function Symbols10(): seq<uint8> {
    [33, 34, 40, 41, 63]
  }

  function Symbols11(): seq<uint8> {
    [39, 43, 124]
  }

  function Symbols12(): seq<uint8> {
    [35, 62]
  }

  function Symbols13(): seq<uint8> {
    [0, 36, 64, 91, 93, 126]
  }

  function Symbols14(): seq<uint8> {
    [94, 125]
  }

  function Symbols15(): seq<uint8> {
    [60, 96, 123]
  }

  function Symbols19(): seq<uint8> {
    [92, 195, 208]
  }

  function Symbols20(): seq<uint8> {
    [128, 130, 131, 162, 184, 194, 224, 226]
  }

  function Symbols21(): seq<uint8> {
    [153, 161, 167, 172, 176, 177, 179, 209, 216, 217, 227, 229, 230]
  }

  function Symbols22(): seq<uint8> {
    [129, 132, 133, 134, 136, 146, 154, 156, 160, 163, 164, 169, 170, 173, 178, 181, 185, 186, 187, 189,
     190, 196, 198, 228, 232, 233]
  }

  function Symbols23(): seq<uint8> {
    [1, 135, 137, 138, 139, 140, 141, 143, 147, 149, 150, 151, 152, 155, 157, 158, 165, 166, 168, 174,
     175, 180, 182, 183, 188, 191, 197, 231, 239]
  }

  function Symbols24(): seq<uint8> {
    [9, 142, 144, 145, 148, 159, 171, 206, 215, 225, 236, 237]
  }

  function Symbols25(): seq<uint8> {
    [199, 207, 234, 235]
  }

  function Symbols26(): seq<uint8> {
    [192, 193, 200, 201, 202, 205, 210, 213, 218, 219, 238, 240, 242, 243, 255]
  }

  function Symbols27(): seq<uint8> {
    [203, 204, 211, 212, 214, 221, 222, 223, 241, 244, 245, 246, 247, 248, 250, 251, 252, 253, 254]
  }

  function Symbols28(): seq<uint8> {
    [2, 3, 4, 5, 6, 7, 8, 11, 12, 14, 15, 16, 17, 18, 19, 20, 21, 23, 24, 25,
     26, 27, 28, 29, 30, 31, 127, 220, 249]
  }

  function Symbols30(): seq<uint8> {
    [10, 13, 22]
  }

  function Count(length: nat): nat {
    match length
    case 5 => 10  case 6 => 26  case 7 => 32  case 8 => 6  case 10 => 5  case 11 => 3  case 12 => 2
    case 13 => 6  case 14 => 2  case 15 => 3  case 19 => 3  case 20 => 8  case 21 => 13  case 22 => 26
    case 23 => 29  case 24 => 12  case 25 => 4  case 26 => 15  case 27 => 19  case 28 => 29  case 30 => 3
    case _ => 0
  }

  function Symbols(length: nat): (s: seq<uint8>)
    ensures |s| == Count(length)
  {
    match length
    case 5 => Symbols5()
    case 6 => Symbols6()
    case 7 => Symbols7()
    case 8 => Symbols8()
    case 10 => Symbols10()
    case 11 => Symbols11()
    case 12 => Symbols12()
    case 13 => Symbols13()
    case 14 => Symbols14()
    case 15 => Symbols15()
    case 19 => Symbols19()
    case 20 => Symbols20()
    case 21 => Symbols21()
    case 22 => Symbols22()
    case 23 => Symbols23()
    case 24 => Symbols24()
    case 25 => Symbols25()
    case 26 => Symbols26()
    case 27 => Symbols27()
    case 28 => Symbols28()
    case 30 => Symbols30()
    case _ => []
  }

  /** The least code of each length. */
  function First(length: nat): nat {
    match length
    case 6 => 0x14
    case 7 => 0x5c
    case 8 => 0xf8
    case 9 => 0x1fc
    case 10 => 0x3f8
    case 11 => 0x7fa
    case 12 => 0xffa
    case 13 => 0x1ff8
    case 14 => 0x3ffc
    case 15 => 0x7ffc
    case 16 => 0xfffe
    case 17 => 0x1fffc
    case 18 => 0x3fff8
    case 19 => 0x7fff0
    case 20 => 0xfffe6
    case 21 => 0x1fffdc
    case 22 => 0x3fffd2
    case 23 => 0x7fffd8
    case 24 => 0xffffea
    case 25 => 0x1ffffec
    case 26 => 0x3ffffe0
    case 27 => 0x7ffffde
    case 28 => 0xfffffe2
    case 29 => 0x1ffffffe
    case 30 => 0x3ffffffc
    case _ => 0
  }

  function End(length: nat): nat {
    First(length) + Count(length)
  }

  // ----- The two listings agree -----

  /** The code of `s` stands at its place among the codes of its length. */
  ghost predicate Placed(s: uint8) {
    var c := CodeOf(s);
    && 5 <= c.length <= 30
    && First(c.length) <= c.value < End(c.length)
    && Symbols(c.length)[c.value - First(c.length)] == s
  }

  ghost predicate Listed(length: nat, k: nat)
    requires k < |Symbols(length)|
  {
    CodeOf(Symbols(length)[k]) == Code(First(length) + k, length)
  }

  lemma Listed5(k: nat)
    requires k < |Symbols(5)|
    ensures Listed(5, k)
  {
  }

  lemma Listed6A(k: nat)
    requires k < 6
    ensures Listed(6, k)
  {
  }

  lemma Listed6B(k: nat)
    requires 6 <= k < 12
    ensures Listed(6, k)
  {
  }

  lemma Listed6C(k: nat)
    requires 12 <= k < 18
    ensures Listed(6, k)
  {
  }

  lemma Listed6D(k: nat)
    requires 18 <= k < 24
    ensures Listed(6, k)
  {
  }

  lemma Listed6E(k: nat)
    requires 24 <= k < |Symbols(6)|
    ensures Listed(6, k)
  {
  }

  lemma Listed6(k: nat)
    requires k < |Symbols(6)|
    ensures Listed(6, k)
  {
    hide Listed;
    if k < 6 { Listed6A(k);
    } else if k < 12 { Listed6B(k);
    } else if k < 18 { Listed6C(k);
    } else if k < 24 { Listed6D(k);
    } else { Listed6E(k); }
  }

  lemma Listed7A(k: nat)
    requires k < 6
    ensures Listed(7, k)
  {
  }

  lemma Listed7B(k: nat)
    requires 6 <= k < 12
    ensures Listed(7, k)
  {
  }

  lemma Listed7C(k: nat)
    requires 12 <= k < 18
    ensures Listed(7, k)
  {
  }

  lemma Listed7D(k: nat)
    requires 18 <= k < 24
    ensures Listed(7, k)
  {
  }

  lemma Listed7E(k: nat)
    requires 24 <= k < 30
    ensures Listed(7, k)
  {
  }

  lemma Listed7F(k: nat)
    requires 30 <= k < |Symbols(7)|
    ensures Listed(7, k)
  {
  }

  lemma Listed7(k: nat)
    requires k < |Symbols(7)|
    ensures Listed(7, k)
  {
    hide Listed;
    if k < 6 { Listed7A(k);
    } else if k < 12 { Listed7B(k);
    } else if k < 18 { Listed7C(k);
    } else if k < 24 { Listed7D(k);
    } else if k < 30 { Listed7E(k);
    } else { Listed7F(k); }
  }

  lemma Listed8(k: nat)
    requires k < |Symbols(8)|
    ensures Listed(8, k)
  {
  }

  lemma Listed10(k: nat)
    requires k < |Symbols(10)|
    ensures Listed(10, k)
  {
  }

  lemma Listed11(k: nat)
    requires k < |Symbols(11)|
    ensures Listed(11, k)
  {
  }

  lemma Listed12(k: nat)
    requires k < |Symbols(12)|
    ensures Listed(12, k)
  {
  }

  lemma Listed13(k: nat)
    requires k < |Symbols(13)|
    ensures Listed(13, k)
  {
  }

  lemma Listed14(k: nat)
    requires k < |Symbols(14)|
    ensures Listed(14, k)
  {
  }

  lemma Listed15(k: nat)
    requires k < |Symbols(15)|
    ensures Listed(15, k)
  {
  }

  lemma Listed19(k: nat)
    requires k < |Symbols(19)|
    ensures Listed(19, k)
  {
  }

  lemma Listed20(k: nat)
    requires k < |Symbols(20)|
    ensures Listed(20, k)
  {
  }

  lemma Listed21A(k: nat)
    requires k < 5
    ensures Listed(21, k)
  {
  }

  lemma Listed21B(k: nat)
    requires 5 <= k < 10
    ensures Listed(21, k)
  {
  }

  lemma Listed21C(k: nat)
    requires 10 <= k < |Symbols(21)|
    ensures Listed(21, k)
  {
  }

  lemma Listed21(k: nat)
    requires k < |Symbols(21)|
    ensures Listed(21, k)
  {
    hide Listed;
    if k < 5 { Listed21A(k);
    } else if k < 10 { Listed21B(k);
    } else { Listed21C(k); }
  }

  lemma Listed22A(k: nat)
    requires k < 4
    ensures Listed(22, k)
  {
  }

  lemma Listed22B(k: nat)
    requires 4 <= k < 8
    ensures Listed(22, k)
  {
  }

  lemma Listed22C(k: nat)
    requires 8 <= k < 12
    ensures Listed(22, k)
  {
  }

  lemma Listed22D(k: nat)
    requires 12 <= k < 16
    ensures Listed(22, k)
  {
  }

  lemma Listed22E(k: nat)
    requires 16 <= k < 20
    ensures Listed(22, k)
  {
  }

  lemma Listed22F(k: nat)
    requires 20 <= k < 24
    ensures Listed(22, k)
  {
  }

  lemma Listed22G(k: nat)
    requires 24 <= k < |Symbols(22)|
    ensures Listed(22, k)
  {
  }

  lemma Listed22(k: nat)
    requires k < |Symbols(22)|
    ensures Listed(22, k)
  {
    hide Listed;
    if k < 4 { Listed22A(k);
    } else if k < 8 { Listed22B(k);
    } else if k < 12 { Listed22C(k);
    } else if k < 16 { Listed22D(k);
    } else if k < 20 { Listed22E(k);
    } else if k < 24 { Listed22F(k);
    } else { Listed22G(k); }
  }

  lemma Listed23A(k: nat)
    requires k < 4
    ensures Listed(23, k)
  {
  }

  lemma Listed23B(k: nat)
    requires 4 <= k < 8
    ensures Listed(23, k)
  {
  }

  lemma Listed23C(k: nat)
    requires 8 <= k < 12
    ensures Listed(23, k)
  {
  }

  lemma Listed23D(k: nat)
    requires 12 <= k < 16
    ensures Listed(23, k)
  {
  }

  lemma Listed23E(k: nat)
    requires 16 <= k < 20
    ensures Listed(23, k)
  {
  }

  lemma Listed23F(k: nat)
    requires 20 <= k < 24
    ensures Listed(23, k)
  {
  }

  lemma Listed23G(k: nat)
    requires 24 <= k < 28
    ensures Listed(23, k)
  {
  }

  lemma Listed23H(k: nat)
    requires 28 <= k < |Symbols(23)|
    ensures Listed(23, k)
  {
  }

  lemma Listed23(k: nat)
    requires k < |Symbols(23)|
    ensures Listed(23, k)
  {
    hide Listed;
    if k < 4 { Listed23A(k);
    } else if k < 8 { Listed23B(k);
    } else if k < 12 { Listed23C(k);
    } else if k < 16 { Listed23D(k);
    } else if k < 20 { Listed23E(k);
    } else if k < 24 { Listed23F(k);
    } else if k < 28 { Listed23G(k);
    } else { Listed23H(k); }
  }

  lemma Listed24A(k: nat)
    requires k < 6
    ensures Listed(24, k)
  {
  }

  lemma Listed24B(k: nat)
    requires 6 <= k < |Symbols(24)|
    ensures Listed(24, k)
  {
  }

  lemma Listed24(k: nat)
    requires k < |Symbols(24)|
    ensures Listed(24, k)
  {
    hide Listed;
    if k < 6 { Listed24A(k);
    } else { Listed24B(k); }
  }

  lemma Listed25(k: nat)
    requires k < |Symbols(25)|
    ensures Listed(25, k)
  {
  }

  lemma Listed26A(k: nat)
    requires k < 4
    ensures Listed(26, k)
  {
  }

  lemma Listed26B(k: nat)
    requires 4 <= k < 8
    ensures Listed(26, k)
  {
  }

  lemma Listed26C(k: nat)
    requires 8 <= k < 12
    ensures Listed(26, k)
  {
  }

  lemma Listed26D(k: nat)
    requires 12 <= k < |Symbols(26)|
    ensures Listed(26, k)
  {
  }

  lemma Listed26(k: nat)
    requires k < |Symbols(26)|
    ensures Listed(26, k)
  {
    hide Listed;
    if k < 4 { Listed26A(k);
    } else if k < 8 { Listed26B(k);
    } else if k < 12 { Listed26C(k);
    } else { Listed26D(k); }
  }

  lemma Listed27A(k: nat)
    requires k < 4
    ensures Listed(27, k)
  {
  }

  lemma Listed27B(k: nat)
    requires 4 <= k < 8
    ensures Listed(27, k)
  {
  }

  lemma Listed27C(k: nat)
    requires 8 <= k < 12
    ensures Listed(27, k)
  {
  }

  lemma Listed27D(k: nat)
    requires 12 <= k < 16
    ensures Listed(27, k)
  {
  }

  lemma Listed27E(k: nat)
    requires 16 <= k < |Symbols(27)|
    ensures Listed(27, k)
  {
  }

  lemma Listed27(k: nat)
    requires k < |Symbols(27)|
    ensures Listed(27, k)
  {
    hide Listed;
    if k < 4 { Listed27A(k);
    } else if k < 8 { Listed27B(k);
    } else if k < 12 { Listed27C(k);
    } else if k < 16 { Listed27D(k);
    } else { Listed27E(k); }
  }

  lemma Listed28A(k: nat)
    requires k < 4
    ensures Listed(28, k)
  {
  }

  lemma Listed28B(k: nat)
    requires 4 <= k < 8
    ensures Listed(28, k)
  {
  }

  lemma Listed28C(k: nat)
    requires 8 <= k < 12
    ensures Listed(28, k)
  {
  }

  lemma Listed28D(k: nat)
    requires 12 <= k < 16
    ensures Listed(28, k)
  {
  }

  lemma Listed28E(k: nat)
    requires 16 <= k < 20
    ensures Listed(28, k)
  {
  }

  lemma Listed28F(k: nat)
    requires 20 <= k < 24
    ensures Listed(28, k)
  {
  }

  lemma Listed28G(k: nat)
    requires 24 <= k < 28
    ensures Listed(28, k)
  {
  }

  lemma Listed28H(k: nat)
    requires 28 <= k < |Symbols(28)|
    ensures Listed(28, k)
  {
  }

  lemma Listed28(k: nat)
    requires k < |Symbols(28)|
    ensures Listed(28, k)
  {
    hide Listed;
    if k < 4 { Listed28A(k);
    } else if k < 8 { Listed28B(k);
    } else if k < 12 { Listed28C(k);
    } else if k < 16 { Listed28D(k);
    } else if k < 20 { Listed28E(k);
    } else if k < 24 { Listed28F(k);
    } else if k < 28 { Listed28G(k);
    } else { Listed28H(k); }
  }

  lemma Listed30(k: nat)
    requires k < |Symbols(30)|
    ensures Listed(30, k)
  {
  }

  lemma EverySlotListed(length: nat, k: nat)
    requires k < |Symbols(length)|
    ensures Listed(length, k)
  {
    hide Listed;
    match length
    case 5 => Listed5(k);
    case 6 => Listed6(k);
    case 7 => Listed7(k);
    case 8 => Listed8(k);
    case 10 => Listed10(k);
    case 11 => Listed11(k);
    case 12 => Listed12(k);
    case 13 => Listed13(k);
    case 14 => Listed14(k);
    case 15 => Listed15(k);
    case 19 => Listed19(k);
    case 20 => Listed20(k);
    case 21 => Listed21(k);
    case 22 => Listed22(k);
    case 23 => Listed23(k);
    case 24 => Listed24(k);
    case 25 => Listed25(k);
    case 26 => Listed26(k);
    case 27 => Listed27(k);
    case 28 => Listed28(k);
    case 30 => Listed30(k);
    case _ =>
  }

  // ----- Every byte is listed: the lists hold 256 different bytes -----

  ghost function SymbolSet(length: nat): set<uint8> {
    set s: uint8 | s in Symbols(length)
  }

  ghost function SymbolsUpTo(length: nat): set<uint8> {
    if length == 0 then {} else SymbolsUpTo(length - 1) + SymbolSet(length)
  }

  function CountUpTo(length: nat): nat {
    if length == 0 then 0 else CountUpTo(length - 1) + Count(length)
  }

  lemma ListedInOneSlot(a: nat, i: nat, b: nat, j: nat)
    requires i < |Symbols(a)| && j < |Symbols(b)| && Symbols(a)[i] == Symbols(b)[j]
    ensures a == b && i == j
  {
    hide CodeOf, Symbols, First, Count;
    EverySlotListed(a, i);
    EverySlotListed(b, j);
  }

  lemma {:induction false} DistinctCount(s: seq<uint8>)
    requires forall i, j :: 0 <= i < j < |s| ==> s[i] != s[j]
    ensures |set x: uint8 | x in s| == |s|
  {
    if s != [] {
      var init, last := s[..|s| - 1], s[|s| - 1];
      DistinctCount(init);
      assert (set x: uint8 | x in s) == (set x: uint8 | x in init) + {last};
    }
  }

  ghost predicate IsListedUpTo(s: uint8, length: nat) {
    exists a, i :: 0 <= a <= length && 0 <= i < |Symbols(a)| && Symbols(a)[i] == s
  }

  lemma SymbolSetCount(length: nat)
    ensures |SymbolSet(length)| == Count(length)
  {
    hide Symbols;
    forall i, j | 0 <= i < j < |Symbols(length)| ensures Symbols(length)[i] != Symbols(length)[j] {
      if Symbols(length)[i] == Symbols(length)[j] { ListedInOneSlot(length, i, length, j); }
    }
    DistinctCount(Symbols(length));
  }

  lemma NotListedAgain(s: uint8, length: nat)
    requires length > 0 && IsListedUpTo(s, length - 1)
    ensures s !in SymbolSet(length)
  {
    hide Symbols;
    var a, i :| 0 <= a <= length - 1 && 0 <= i < |Symbols(a)| && Symbols(a)[i] == s;
    forall j | 0 <= j < |Symbols(length)| ensures Symbols(length)[j] != s {
      if Symbols(length)[j] == s { ListedInOneSlot(a, i, length, j); }
    }
  }

  lemma ListedStays(s: uint8, length: nat)
    requires length > 0 && (IsListedUpTo(s, length - 1) || s in SymbolSet(length))
    ensures IsListedUpTo(s, length)
  {
    hide Symbols;
  }

  lemma {:induction false} SymbolsUpToCount(length: nat)
    ensures |SymbolsUpTo(length)| == CountUpTo(length)
    ensures forall s :: s in SymbolsUpTo(length) ==> IsListedUpTo(s, length)
  {
    hide Symbols, Count, SymbolSet, IsListedUpTo;
    if length > 0 {
      SymbolsUpToCount(length - 1);
      SymbolSetCount(length);
      forall s | s in SymbolsUpTo(length) ensures IsListedUpTo(s, length) {
        ListedStays(s, length);
      }
      forall s | s in SymbolsUpTo(length - 1) ensures s !in SymbolSet(length) {
        NotListedAgain(s, length);
      }
    }
  }

  lemma CountFive(n: nat)
    ensures CountUpTo(0) == 0
    ensures CountUpTo(n + 5)
            == CountUpTo(n) + Count(n + 1) + Count(n + 2) + Count(n + 3) + Count(n + 4) + Count(n + 5)
  {
    hide Count;
    assert CountUpTo(n + 2) == CountUpTo(n) + Count(n + 1) + Count(n + 2);
    assert CountUpTo(n + 4) == CountUpTo(n + 2) + Count(n + 3) + Count(n + 4);
  }

  lemma AllListed()
    ensures CountUpTo(30) == 256
  {
    hide CountUpTo;
    CountFive(0);
    CountFive(5);
    CountFive(10);
    CountFive(15);
    CountFive(20);
    CountFive(25);
  }

  ghost function Bytes(n: nat): (bytes: set<uint8>)
    requires n <= 256
    ensures |bytes| == n
    ensures forall s: uint8 :: s in bytes <==> s < n
  {
    if n == 0 then {} else Bytes(n - 1) + {n - 1}
  }

  lemma EveryByteListed(s: uint8)
    ensures s in SymbolsUpTo(30)
  {
    hide Symbols, SymbolsUpTo, CountUpTo, Bytes;
    SymbolsUpToCount(30);
    AllListed();
    if s !in SymbolsUpTo(30) {
      SubsetCount(SymbolsUpTo(30) + {s}, Bytes(256));
    }
  }

  lemma {:induction false} SubsetCount(a: set<uint8>, b: set<uint8>)
    requires a <= b
    ensures |a| <= |b|
    decreases |a|
  {
    if a != {} {
      var x :| x in a;
      SubsetCount(a - {x}, b - {x});
    }
  }

  lemma SlotOf(s: uint8) returns (a: nat, i: nat)
    ensures 5 <= a <= 30 && i < Count(a) && Symbols(a)[i] == s
  {
    hide Symbols, SymbolsUpTo, CountUpTo;
    EveryByteListed(s);
    SymbolsUpToCount(30);
    a, i :| 0 <= a <= 30 && 0 <= i < |Symbols(a)| && Symbols(a)[i] == s;
  }

  lemma EveryBytePlaced(s: uint8)
    ensures Placed(s)
  {
    hide Symbols, CodeOf, First, Count;
    var a, i := SlotOf(s);
    EverySlotListed(a, i);
  }

  // ----- The code is canonical -----

  /** Codes of one length follow on from the codes of the length before. */
  lemma FirstStep(length: nat)
    requires 5 <= length < 30
    ensures First(length + 1) == 2 * End(length)
  {
  }

  /** With EOS added, the codes of length 30 use up all that is left. */
  lemma LastCode()
    ensures End(30) == Pow2(30) - 1
  {
    Pow2Values();
  }

  /** Codes of greater length lie beyond every extension of a shorter code. */
  lemma {:induction false} LongerCodesLieBeyond(a: nat, b: nat)
    requires 5 <= a < b <= 30
    ensures Shl(End(a), b - a) <= First(b)
  {
    hide First, Count, Symbols;
    FirstStep(b - 1);
    if a < b - 1 { LongerCodesLieBeyond(a, b - 1); }
  }

  lemma {:induction false} EndBound(length: nat)
    requires 5 <= length <= 30
    ensures End(length) < Pow2(length)
  {
    hide First, Count, Symbols;
    LastCode();
    if length < 30 {
      LongerCodesLieBeyond(length, 30);
      ShiftPow2(length, 30 - length);
      if Pow2(length) <= End(length) { ShiftMonotone(Pow2(length), End(length), 30 - length); }
    }
  }

  lemma LongerValuesAreGreater(a: uint8, b: uint8)
    requires CodeOf(a).length < CodeOf(b).length
    ensures var n := CodeOf(b).length - CodeOf(a).length;
            CodeOf(a).value < CodeOf(b).value && CodeOf(a).value < Shr(CodeOf(b).value, n)
  {
    EveryBytePlaced(a);
    EveryBytePlaced(b);
    var ca, cb := CodeOf(a), CodeOf(b);
    hide CodeOf, First, Count, Symbols;
    LongerCodesLieBeyond(ca.length, cb.length);
    ShiftOrder(cb.value, End(ca.length), cb.length - ca.length);
  }

  lemma DistinctValues(a: uint8, b: uint8)
    requires CodeOf(a).value == CodeOf(b).value
    ensures a == b
  {
    hide CodeOf, First, Count, Symbols;
    EveryBytePlaced(a);
    EveryBytePlaced(b);
    if CodeOf(a).length < CodeOf(b).length {
      LongerValuesAreGreater(a, b);
    } else if CodeOf(b).length < CodeOf(a).length {
      LongerValuesAreGreater(b, a);
    }
  }

  // ----- Among codes of one length, the greater byte has the greater code -----

  lemma SymbolsOfFiveAscend(i: nat)
    requires i + 1 < |Symbols(5)|
    ensures Symbols(5)[i] < Symbols(5)[i + 1]
  {
  }

  lemma SymbolsOfSixAscend(i: nat)
    requires i + 1 < |Symbols(6)|
    ensures Symbols(6)[i] < Symbols(6)[i + 1]
  {
  }

  lemma ShortSymbolsAscend(length: nat, i: nat)
    requires length in {8, 10, 11, 12, 13, 14, 15} && i + 1 < |Symbols(length)|
    ensures Symbols(length)[i] < Symbols(length)[i + 1]
  {
  }

  lemma SymbolsOfSevenAscend(i: nat)
    requires i + 1 < |Symbols(7)|
    ensures Symbols(7)[i] < Symbols(7)[i + 1]
  {
  }

  lemma MiddleSymbolsAscend(length: nat, i: nat)
    requires length in {19, 20, 21} && i + 1 < |Symbols(length)|
    ensures Symbols(length)[i] < Symbols(length)[i + 1]
  {
  }

  lemma SymbolsOfTwentyTwoAscend(i: nat)
    requires i + 1 < |Symbols(22)|
    ensures Symbols(22)[i] < Symbols(22)[i + 1]
  {
  }

  lemma SymbolsOfTwentyThreeAscend(i: nat)
    requires i + 1 < |Symbols(23)|
    ensures Symbols(23)[i] < Symbols(23)[i + 1]
  {
  }

  lemma SymbolsOfTwentySixAscend(i: nat)
    requires i + 1 < |Symbols(26)|
    ensures Symbols(26)[i] < Symbols(26)[i + 1]
  {
  }

  lemma LongSymbolsAscend(length: nat, i: nat)
    requires length in {24, 25, 30} && i + 1 < |Symbols(length)|
    ensures Symbols(length)[i] < Symbols(length)[i + 1]
  {
  }

  lemma SymbolsOfTwentySevenAscend(i: nat)
    requires i + 1 < |Symbols(27)|
    ensures Symbols(27)[i] < Symbols(27)[i + 1]
  {
  }

  lemma SymbolsOfTwentyEightAscend(i: nat)
    requires i + 1 < |Symbols(28)|
    ensures Symbols(28)[i] < Symbols(28)[i + 1]
  {
  }

  lemma NextSymbolIsGreater(length: nat, i: nat)
    requires i + 1 < |Symbols(length)|
    ensures Symbols(length)[i] < Symbols(length)[i + 1]
  {
    LengthsInUse(length);
    hide Symbols;
    if length == 5 { SymbolsOfFiveAscend(i);
    } else if length == 6 { SymbolsOfSixAscend(i);
    } else if length == 7 { SymbolsOfSevenAscend(i);
    } else if length < 19 { ShortSymbolsAscend(length, i);
    } else if length < 22 { MiddleSymbolsAscend(length, i);
    } else if length == 22 { SymbolsOfTwentyTwoAscend(i);
    } else if length == 23 { SymbolsOfTwentyThreeAscend(i);
    } else if length == 26 { SymbolsOfTwentySixAscend(i);
    } else if length == 27 { SymbolsOfTwentySevenAscend(i);
    } else if length == 28 { SymbolsOfTwentyEightAscend(i);
    } else { LongSymbolsAscend(length, i); }
  }

  lemma LengthsInUse(length: nat)
    requires Symbols(length) != []
    ensures 5 <= length <= 30 && length !in {9, 16, 17, 18, 29}
  {
  }

  lemma {:induction false} LaterSymbolIsGreater(length: nat, i: nat, j: nat)
    requires i < j < |Symbols(length)|
    ensures Symbols(length)[i] < Symbols(length)[j]
    decreases j
  {
    hide Symbols;
    NextSymbolIsGreater(length, j - 1);
    if i < j - 1 { LaterSymbolIsGreater(length, i, j - 1); }
  }

  /**
   * Of two bytes with codes of one length the greater has the greater code.  So with `FirstStep` the code is
   * determined by its lengths alone.
   */
  lemma EqualLengthsAscend(a: uint8, b: uint8)
    requires CodeOf(a).length == CodeOf(b).length
    ensures a < b <==> CodeOf(a).value < CodeOf(b).value
  {
    hide CodeOf, First, Count, Symbols;
    EveryBytePlaced(a);
    EveryBytePlaced(b);
    var length := CodeOf(a).length;
    var i, j := CodeOf(a).value - First(length), CodeOf(b).value - First(length);
    if i < j { LaterSymbolIsGreater(length, i, j); }
    if j < i { LaterSymbolIsGreater(length, j, i); }
  }

  lemma NoCodeIsAPrefix(a: uint8, b: uint8)
    requires CodeBits(CodeOf(a)) <= CodeBits(CodeOf(b))
    ensures a == b
  {
    var ca, cb := CodeOf(a), CodeOf(b);
    hide CodeOf, First, Count, Symbols;
    EveryBytePlaced(a);
    EveryBytePlaced(b);
    var n := cb.length - ca.length;
    assert CodeBits(cb)[..ca.length] == CodeBits(ca);
    ToBitsPrefix(cb.value, cb.length, ca.length);
    EndBound(ca.length);
    EndBound(cb.length);
    ShiftPow2(ca.length, n);
    ShiftOrder(cb.value, Pow2(ca.length), n);
    FromBitsToBits(Shr(cb.value, n), ca.length);
    FromBitsToBits(ca.value, ca.length);
    assert ca.value == Shr(cb.value, n);
    if n > 0 {
      LongerValuesAreGreater(a, b);
    } else {
      DistinctValues(a, b);
    }
  }

  lemma NoCodeIsAllOnes(s: uint8)
    ensures CodeBits(CodeOf(s)) != Ones(CodeOf(s).length)
  {
    var c := CodeOf(s);
    hide CodeOf, First, Count, Symbols;
    EveryBytePlaced(s);
    EndBound(c.length);
    FromBitsToBits(c.value, c.length);
    FromOnes(c.length);
  }

  /** The table of the source satisfies everything the coder asks of its table. */
  lemma HpackCodeIsCanonical()
    ensures Canonical(HPACK_CODE)
  {
    var t := HPACK_CODE;
    assert forall s :: s in t ==> t[s] == CodeOf(s);
    hide CodeOf, First, Count, Symbols, CodeBits;
    forall s | s in t ensures 1 <= t[s].length <= 30 && t[s].value < Pow2(t[s].length) {
      EveryBytePlaced(s);
      EndBound(t[s].length);
    }
    forall a, b | a in t && b in t && t[a].value == t[b].value ensures a == b {
      DistinctValues(a, b);
    }
    forall a, b | a in t && b in t && CodeBits(t[a]) <= CodeBits(t[b]) ensures a == b {
      NoCodeIsAPrefix(a, b);
    }
    forall s | s in t ensures CodeBits(t[s]) != Ones(t[s].length) {
      NoCodeIsAllOnes(s);
    }
  }

  // ----- The code is complete up to EOS -----

  /** Among the lengths from `length` on, one has a code that begins the 30-bit number `value`. */
  lemma {:induction false} FindLength(value: nat, length: nat) returns (found: nat)
    requires 5 <= length <= 30 && Shl(First(length), 30 - length) <= value < Pow2(30) - 1
    ensures 5 <= found <= 30 && First(found) <= Shr(value, 30 - found) < End(found)
    decreases 30 - length
  {
    var room := 30 - length;
    ShiftOrder(value, First(length), room);
    ShiftOrder(value, End(length), room);
    hide *;
    if value < Shl(End(length), room) {
      found := length;
    } else {
      PastLength(value, length, room);
      found := FindLength(value, length + 1);
    }
  }

  /** A value past the codes of one length is among the longer ones, of which there are some. */
  lemma PastLength(value: nat, length: nat, room: nat)
    requires 5 <= length <= 30 && room == 30 - length && Shl(End(length), room) <= value < Pow2(30) - 1
    ensures length < 30 && Shl(First(length + 1), room - 1) <= value
  {
    hide First, Count;
    LastCode();
    if length < 30 {
      FirstStep(length);
      ShlTwice(End(length), room - 1);
    }
  }

  lemma {:induction false} ShlTwice(value: nat, n: nat)
    ensures Shl(2 * value, n) == Shl(value, n + 1)
  {
    if n > 0 { ShlTwice(value, n - 1); }
  }

  lemma {:induction false} ShlZero(n: nat)
    ensures Shl(0, n) == 0
  {
    if n > 0 { ShlZero(n - 1); }
  }

  lemma CodeInSlot(length: nat, k: nat)
    requires k < Count(length)
    ensures var s := Symbols(length)[k]; s in HPACK_CODE && HPACK_CODE[s] == Code(First(length) + k, length)
  {
    EverySlotListed(length, k);
  }

  /** Thirty bits that are not all ones begin with a code: with EOS the code fills its tree. */
  lemma ThirtyBitsStartWithCode(bits: seq<bit>)
    requires |bits| == 30 && bits != Ones(30)
    ensures StartsWithCode(HPACK_CODE, bits)
  {
    var value := FromBits(bits);
    NotAllOnes(bits);
    ToBitsFromBits(bits);
    FirstCode();
    hide First, Count, Symbols, CodeOf, FromBits, ToBits, Pow2, Shl, Shr, HPACK_CODE, StartsWithCode;
    var n := FindLength(value, 5);
    ToBitsPrefix(value, 30, n);
    var s := CodeBetween(n, Shr(value, 30 - n));
    StartsHere(s, bits, n);
  }

  lemma FirstCode()
    ensures Shl(First(5), 25) == 0
  {
    ShlZero(25);
  }

  lemma CodeBetween(length: nat, value: nat) returns (s: uint8)
    requires First(length) <= value < End(length) && value < 0x1_0000_0000
    ensures s in HPACK_CODE && HPACK_CODE[s] == Code(value, length)
  {
    hide First, Count, Symbols, HPACK_CODE;
    CodeInSlot(length, value - First(length));
    s := Symbols(length)[value - First(length)];
  }

  lemma StartsHere(s: uint8, bits: seq<bit>, n: nat)
    requires s in HPACK_CODE && n <= |bits| && CodeBits(HPACK_CODE[s]) == bits[..n]
    ensures StartsWithCode(HPACK_CODE, bits)
  {
    hide HPACK_CODE, ToBits;
  }

  lemma HpackCodeIsComplete()
    ensures Complete(HPACK_CODE)
  {
    forall bits: seq<bit> | |bits| == 30 && bits != Ones(30) ensures StartsWithCode(HPACK_CODE, bits) {
      ThirtyBitsStartWithCode(bits);
    }
  }

  // ----- What that gives for the coder of the source -----

  /** Strings of any bytes survive the source's encoder and decoder. */
  lemma HpackStringRoundTrip(text: seq<uint8>)
    ensures Canonical(HPACK_CODE) && Decoded(HPACK_CODE, Encoded(HPACK_CODE, text)) == text
  {
    HpackCodeIsCanonical();
    RoundTrip(HPACK_CODE, text);
  }

  /** The source's decoder drops 32 bits exactly where 30 ones, the EOS code, follow a symbol boundary. */
  lemma HpackResetOnlyAfterEos(bits: seq<bit>)
    requires |bits| == 32
    ensures Silent(HPACK_CODE, bits, 32) <==> bits[..30] == Ones(30)
  {
    HpackCodeIsCanonical();
    HpackCodeIsComplete();
    ResetOnlyAfterEos(HPACK_CODE, bits);
  }

  // ----- Two of the examples in sections C.4 and C.6 of RFC 7541 -----

  lemma FiveAndSixBits(v: nat)
    ensures ToBits(v, 5) == [v / 16 % 2, v / 8 % 2, v / 4 % 2, v / 2 % 2, v % 2]
    ensures ToBits(v, 6) == [v / 32 % 2, v / 16 % 2, v / 8 % 2, v / 4 % 2, v / 2 % 2, v % 2]
  {
    assert ToBits(v / 16, 1) == [v / 16 % 2] && ToBits(v / 32, 1) == [v / 32 % 2];
    assert ToBits(v / 8, 2) == [v / 16 % 2, v / 8 % 2] && ToBits(v / 16, 2) == [v / 32 % 2, v / 16 % 2];
    assert ToBits(v / 4, 3) == ToBits(v / 8, 2) + [v / 4 % 2] && ToBits(v / 8, 3) == ToBits(v / 16, 2) + [v / 8 % 2];
    assert ToBits(v / 2, 4) == ToBits(v / 4, 3) + [v / 2 % 2] && ToBits(v / 4, 4) == ToBits(v / 8, 3) + [v / 4 % 2];
    assert ToBits(v / 2, 5) == ToBits(v / 4, 4) + [v / 2 % 2];
  }

  lemma BitsOfNext(text: seq<uint8>)
    requires Addressable(HPACK_CODE) && text != []
    ensures EncodedBits(HPACK_CODE, text) == CodeBits(CodeOf(text[0])) + EncodedBits(HPACK_CODE, text[1..])
    ensures EncodedBits(HPACK_CODE, []) == []
  {
    hide CodeOf;
  }

  lemma BitsOfThree(a: uint8, b: uint8, c: uint8)
    requires Addressable(HPACK_CODE)
    ensures EncodedBits(HPACK_CODE, [a, b, c]) == CodeBits(CodeOf(a)) + (CodeBits(CodeOf(b)) + CodeBits(CodeOf(c)))
  {
    hide *;
    BitsOfNext([a, b, c]);
    BitsOfNext([b, c]);
    BitsOfNext([c]);
    assert [a, b, c][1..] == [b, c] && [b, c][1..] == [c] && [c][1..] == [];
    assert CodeBits(CodeOf(c)) + [] == CodeBits(CodeOf(c));
  }

  /** "302" */
  lemma StatusExample()
    ensures Addressable(HPACK_CODE) && Encoded(HPACK_CODE, [0x33, 0x30, 0x32]) == [0x64, 0x02]
  {
    hide *;
    CodeIsAddressable();
    StatusCodes();
    BitsOfThree(0x33, 0x30, 0x32);
    StatusBits();
    StatusBytes();
    var bits := EncodedBits(HPACK_CODE, [0x33, 0x30, 0x32]);
    PackedBytes(bits, [0x64, 0x02]);
    EncodedIs([0x33, 0x30, 0x32]);
  }

  lemma CodeIsAddressable()
    ensures Addressable(HPACK_CODE)
  {
    HpackCodeIsCanonical();
  }

  lemma EncodedIs(text: seq<uint8>)
    requires Addressable(HPACK_CODE)
    ensures Encoded(HPACK_CODE, text) == Packed(EncodedBits(HPACK_CODE, text))
  {
    hide HPACK_CODE, Packed, EncodedBits;
  }

  lemma StatusCodes()
    ensures CodeOf(0x33) == Code(0x19, 6) && CodeOf(0x30) == Code(0, 5) && CodeOf(0x32) == Code(2, 5)
  {
  }

  lemma ThreeCodeBits()
    ensures CodeBits(Code(0x19, 6)) == [0, 1, 1, 0, 0, 1]
    ensures CodeBits(Code(0, 5)) == [0, 0, 0, 0, 0] && CodeBits(Code(2, 5)) == [0, 0, 0, 1, 0]
  {
    FiveAndSixBits(0x19);
    FiveAndSixBits(0);
    FiveAndSixBits(2);
    hide ToBits;
  }

  lemma StatusBits()
    ensures CodeBits(Code(0x19, 6)) + (CodeBits(Code(0, 5)) + CodeBits(Code(2, 5)))
            == [0, 1, 1, 0, 0, 1, 0, 0, 0, 0, 0, 0, 0, 0, 1, 0]
  {
    hide *;
    ThreeCodeBits();
  }

  lemma StatusBytes()
    ensures UnpackBits([0x64, 0x02]) == [0, 1, 1, 0, 0, 1, 0, 0, 0, 0, 0, 0, 0, 0, 1, 0]
  {
    ByteBits(0x64);
    ByteBits(0x02);
    TwoBytes(0x64, 0x02);
    hide *;
  }

  lemma TwoBytes(a: uint8, b: uint8)
    ensures UnpackBits([a, b]) == ToBits(a, 8) + ToBits(b, 8)
  {
    hide ToBits;
    assert [a, b][1..] == [b];
    UnpackByte(b);
  }

  lemma PackedBytes(bits: seq<bit>, bytes: seq<uint8>)
    requires UnpackBits(bytes) == bits
    ensures Packed(bits) == bytes
  {
    hide Packed, UnpackBits;
    assert bits + Ones(0) == bits;
    PackedIsUnique(bits, bytes, 0);
  }
}
