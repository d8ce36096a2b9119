/**
 * The Huffman string coder of HPACK (include/protocols/h2/huffman.hpp).
 *
 * `Encoded` and `Decoded` say what the coder computes, over bit sequences.  The class `Huffman` has
 * the source's fields and bit loops; its methods are proved to compute those functions.
 */
module Huffman {
  import opened Bits

  datatype Code = Code(value: uint32, length: nat)

  type Table = map<uint8, Code>

  const SIZE_MAX: nat := 0xFFFF_FFFF_FFFF_FFFF

  function CodeBits(c: Code): (bits: seq<bit>)
    ensures |bits| == c.length
  {
    ToBits(c.value, c.length)
  }

  /** Every byte has a code, and no two bytes have codes with the same numeric value. */
  ghost predicate Addressable(t: Table) {
    && (forall s: uint8 :: s in t)
    && (forall a, b :: a in t && b in t && t[a].value == t[b].value ==> a == b)
  }

  /** Codes fit their lengths, and none is a prefix of another. */
  ghost predicate PrefixFree(t: Table) {
    && (forall s :: s in t ==> 1 <= t[s].length <= 30 && t[s].value < Pow2(t[s].length))
    && (forall a, b :: a in t && b in t && CodeBits(t[a]) <= CodeBits(t[b]) ==> a == b)
  }

  /**
   * What the coder needs of its table.  Lookups go by the numeric value of a code alone, so values
   * must differ across lengths; the padding of the last byte is all ones, so no code may be.
   */
  ghost predicate Canonical(t: Table) {
    && Addressable(t)
    && PrefixFree(t)
    && (forall s :: s in t ==> CodeBits(t[s]) != Ones(t[s].length))
  }

  ghost predicate StartsWithCode(t: Table, bits: seq<bit>) {
    exists s :: s in t && CodeBits(t[s]) <= bits
  }

  /** Every 30 bits except 30 ones start with some code: only the EOS code is missing. */
  ghost predicate Complete(t: Table) {
    forall bits: seq<bit> {:trigger StartsWithCode(t, bits)} ::
      |bits| == 30 && bits != Ones(30) ==> StartsWithCode(t, bits)
  }

  // ----- What encoding and decoding mean -----

  ghost function EncodedBits(t: Table, text: seq<uint8>): seq<bit>
    requires Addressable(t)
  {
    if text == [] then [] else CodeBits(t[text[0]]) + EncodedBits(t, text[1..])
  }

  /** The number of one-bits that fill the last byte. */
  function Padding(bits: nat): (n: nat)
    ensures n < 8 && (bits + n) % 8 == 0
  {
    (8 - bits % 8) % 8
  }

  /** Packs bits into bytes, filling the last byte with ones. */
  function Packed(bits: seq<bit>): (bytes: seq<uint8>) {
    if bits == [] then []
    else if |bits| < 8 then [ByteOf(bits + Ones(8 - |bits|))]
    else [ByteOf(bits[..8])] + Packed(bits[8..])
  }

  function ByteOf(bits: seq<bit>): (b: uint8)
    requires |bits| == 8
    ensures ToBits(b, 8) == bits
  {
    FromBitsBound(bits);
    assert Pow2(8) == 256;
    ToBitsFromBits(bits);
    FromBits(bits)
  }

  ghost function Encoded(t: Table, text: seq<uint8>): seq<uint8>
    requires Addressable(t)
  {
    Packed(EncodedBits(t, text))
  }

  ghost predicate IsCode(t: Table, bits: seq<bit>) {
    exists s :: s in t && CodeBits(t[s]) == bits
  }

  ghost function SymbolOf(t: Table, bits: seq<bit>): (s: uint8)
    requires IsCode(t, bits)
    ensures s in t && CodeBits(t[s]) == bits
  {
    var s :| s in t && CodeBits(t[s]) == bits;
    s
  }

  /**
   * The symbols read from `bits` when `pending` are the bits seen since the last symbol boundary.
   * Thirty-two bits without a symbol are dropped.
   */
  ghost function DecodeFrom(t: Table, pending: seq<bit>, bits: seq<bit>): seq<uint8>
    decreases |bits|
  {
    if bits == [] then []
    else
      var seen := pending + [bits[0]];
      if IsCode(t, seen) then [SymbolOf(t, seen)] + DecodeFrom(t, [], bits[1..])
      else DecodeFrom(t, if |seen| >= 32 then [] else seen, bits[1..])
  }

  ghost function Decoded(t: Table, data: seq<uint8>): seq<uint8> {
    DecodeFrom(t, [], UnpackBits(data))
  }

  // ----- Round trip -----

  lemma PackedSplit(bits: seq<bit>)
    ensures Packed([]) == [] && UnpackBits([]) == []
    ensures 0 < |bits| < 8 ==> Packed(bits) == [ByteOf(bits + Ones(8 - |bits|))]
    ensures |bits| >= 8 ==> Packed(bits) == [ByteOf(bits[..8])] + Packed(bits[8..])
  {
  }

  lemma {:induction false} UnpackPacked(bits: seq<bit>)
    ensures UnpackBits(Packed(bits)) == bits + Ones(Padding(|bits|))
  {
    PackedSplit(bits);
    hide Packed, UnpackBits, ToBits, FromBits;
    if bits == [] {
      assert bits + Ones(0) == [];
    } else if |bits| < 8 {
      UnpackByte(ByteOf(bits + Ones(8 - |bits|)));
    } else {
      var head, rest := bits[..8], bits[8..];
      UnpackPacked(rest);
      UnpackByte(ByteOf(head));
      UnpackConcat([ByteOf(head)], Packed(rest));
      assert Padding(|bits|) == Padding(|rest|);
      assert bits == head + rest;
    }
  }

  lemma CodeIsItsSymbol(t: Table, s: uint8)
    requires Canonical(t)
    ensures IsCode(t, CodeBits(t[s])) && SymbolOf(t, CodeBits(t[s])) == s
  {
  }

  lemma CodeLength(t: Table, s: uint8)
    requires Canonical(t)
    ensures s in t && 1 <= t[s].length <= 30
  {
  }

  /** A proper prefix of a code is not a code. */
  lemma PrefixIsNoCode(t: Table, s: uint8, bits: seq<bit>)
    requires Canonical(t) && bits < CodeBits(t[s])
    ensures !IsCode(t, bits)
  {
    forall a | a in t ensures CodeBits(t[a]) != bits {
      assert a == s || !(CodeBits(t[a]) <= CodeBits(t[s]));
    }
  }

  lemma OnesAreNoCode(t: Table, n: nat)
    requires Canonical(t)
    ensures !IsCode(t, Ones(n))
  {
    forall s | s in t ensures CodeBits(t[s]) != Ones(n) {
      assert n == t[s].length ==> CodeBits(t[s]) != Ones(t[s].length);
    }
  }

  /** Reading the rest of a code yields its symbol and goes on from a symbol boundary. */
  lemma {:induction false} DecodeCode(t: Table, s: uint8, k: nat, tail: seq<bit>)
    requires Canonical(t) && k < t[s].length
    ensures DecodeFrom(t, CodeBits(t[s])[..k], CodeBits(t[s])[k..] + tail) == [s] + DecodeFrom(t, [], tail)
    decreases t[s].length - k
  {
    var code := CodeBits(t[s]);
    var bits := code[k..] + tail;
    assert code[..k] + [bits[0]] == code[..k + 1];
    assert bits[1..] == code[k + 1..] + tail;
    if k + 1 == |code| {
      assert code[..k + 1] == code;
      CodeIsItsSymbol(t, s);
      assert bits[1..] == tail;
    } else {
      PrefixIsNoCode(t, s, code[..k + 1]);
      DecodeCode(t, s, k + 1, tail);
    }
  }

  /** Fewer than eight one-bits decode to nothing. */
  lemma {:induction false} DecodePadding(t: Table, seen: nat, rest: nat)
    requires Canonical(t) && seen + rest < 8
    ensures DecodeFrom(t, Ones(seen), Ones(rest)) == []
    decreases rest
  {
    if rest > 0 {
      assert Ones(seen) + [Ones(rest)[0]] == Ones(seen + 1);
      assert Ones(rest)[1..] == Ones(rest - 1);
      OnesAreNoCode(t, seen + 1);
      DecodePadding(t, seen + 1, rest - 1);
    }
  }

  lemma {:induction false} DecodeEncodedBits(t: Table, text: seq<uint8>, pad: nat)
    requires Canonical(t) && pad < 8
    ensures DecodeFrom(t, [], EncodedBits(t, text) + Ones(pad)) == text
  {
    if text == [] {
      assert EncodedBits(t, text) + Ones(pad) == Ones(pad);
      assert Ones(0) == [];
      DecodePadding(t, 0, pad);
    } else {
      var code, rest := CodeBits(t[text[0]]), EncodedBits(t, text[1..]);
      assert EncodedBits(t, text) + Ones(pad) == code[0..] + (rest + Ones(pad));
      assert code[..0] == [];
      DecodeCode(t, text[0], 0, rest + Ones(pad));
      DecodeEncodedBits(t, text[1..], pad);
    }
  }

  /** Every byte string survives encoding and decoding, padding included. */
  lemma RoundTrip(t: Table, text: seq<uint8>)
    requires Canonical(t)
    ensures Decoded(t, Encoded(t, text)) == text
  {
    var bits := EncodedBits(t, text);
    UnpackPacked(bits);
    DecodeEncodedBits(t, text, Padding(|bits|));
  }

  ghost function CodeLengths(t: Table, text: seq<uint8>): nat
    requires Addressable(t)
  {
    if text == [] then 0 else t[text[0]].length + CodeLengths(t, text[1..])
  }

  lemma {:induction false} EncodedBitsLength(t: Table, text: seq<uint8>)
    requires Addressable(t)
    ensures |EncodedBits(t, text)| == CodeLengths(t, text)
  {
    if text != [] { EncodedBitsLength(t, text[1..]); }
  }

  /** An encoded string takes the sum of its code lengths, rounded up to whole bytes. */
  lemma EncodedLength(t: Table, text: seq<uint8>)
    requires Addressable(t)
    ensures |Encoded(t, text)| == (CodeLengths(t, text) + 7) / 8
  {
    UnpackPacked(EncodedBits(t, text));
    EncodedBitsLength(t, text);
  }

  // ----- The 32-bit reset -----

  /** No symbol is found in the first `n` of `bits` when reading from a symbol boundary. */
  ghost predicate Silent(t: Table, bits: seq<bit>, n: nat)
    requires n <= |bits|
  {
    forall k :: 1 <= k <= n ==> !IsCode(t, bits[..k])
  }

  /**
   * From a symbol boundary, 32 bits pass without a symbol exactly when the first 30 are ones, which
   * is the EOS code.
   */
  lemma ResetOnlyAfterEos(t: Table, bits: seq<bit>)
    requires Canonical(t) && Complete(t) && |bits| == 32
    ensures Silent(t, bits, 32) <==> bits[..30] == Ones(30)
  {
    if bits[..30] == Ones(30) {
      forall k | 1 <= k <= 32 ensures !IsCode(t, bits[..k]) {
        if k <= 30 {
          assert bits[..k] == bits[..30][..k] == Ones(k);
          OnesAreNoCode(t, k);
        } else {
          forall s | s in t ensures CodeBits(t[s]) != bits[..k] {
            assert |CodeBits(t[s])| <= 30;
          }
        }
      }
    } else {
      var s := FirstCode(t, bits);
      assert IsCode(t, bits[..t[s].length]);
    }
  }

  /** In a complete table, bits that do not begin with 30 ones begin with a code. */
  lemma FirstCode(t: Table, bits: seq<bit>) returns (s: uint8)
    requires Canonical(t) && Complete(t) && |bits| >= 30 && bits[..30] != Ones(30)
    ensures s in t && 1 <= t[s].length <= 30 && CodeBits(t[s]) <= bits
  {
    hide Canonical;
    var head := bits[..30];
    assert StartsWithCode(t, head);
    s :| s in t && CodeBits(t[s]) <= head;
    CodeLength(t, s);
    assert head <= bits;
  }

  /** While nothing is found the pending bits grow; at 32 they are dropped. */
  lemma {:induction false} SilentBitsArePending(t: Table, bits: seq<bit>, n: nat)
    requires n <= |bits| && n <= 32 && Silent(t, bits, n)
    ensures DecodeFrom(t, [], bits) == DecodeFrom(t, if n == 32 then [] else bits[..n], bits[n..])
  {
    if n == 0 {
      assert bits[n..] == bits;
    } else {
      SilentBitsArePending(t, bits, n - 1);
      assert bits[..n - 1] + [bits[n - 1..][0]] == bits[..n];
      assert bits[n - 1..][1..] == bits[n..];
    }
  }

  /**
   * Decoding from a symbol boundary skips 32 bits in silence if they begin with 30 ones.  Otherwise
   * one of the first 30 prefixes is a code, and its symbol comes first.
   */
  lemma DecodeFromBoundary(t: Table, bits: seq<bit>)
    requires Canonical(t) && Complete(t) && |bits| >= 32
    ensures bits[..30] == Ones(30) ==> DecodeFrom(t, [], bits) == DecodeFrom(t, [], bits[32..])
    ensures bits[..30] != Ones(30) ==>
              exists s :: s in t && CodeBits(t[s]) <= bits
                       && DecodeFrom(t, [], bits) == [s] + DecodeFrom(t, [], bits[t[s].length..])
  {
    hide Canonical, Complete;
    if bits[..30] == Ones(30) {
      EosIsSkipped(t, bits);
    } else {
      var s := FirstCode(t, bits);
      DecodeFirst(t, s, bits);
    }
  }

  lemma DecodeFirst(t: Table, s: uint8, bits: seq<bit>)
    requires Canonical(t) && s in t && CodeBits(t[s]) <= bits
    ensures DecodeFrom(t, [], bits) == [s] + DecodeFrom(t, [], bits[t[s].length..])
  {
    var n := t[s].length;
    CodeLength(t, s);
    assert bits == CodeBits(t[s])[0..] + bits[n..];
    assert CodeBits(t[s])[..0] == [];
    DecodeCode(t, s, 0, bits[n..]);
  }

  lemma EosIsSkipped(t: Table, bits: seq<bit>)
    requires Canonical(t) && Complete(t) && |bits| >= 32 && bits[..30] == Ones(30)
    ensures DecodeFrom(t, [], bits) == DecodeFrom(t, [], bits[32..])
  {
    var head := bits[..32];
    assert head[..30] == bits[..30];
    ResetOnlyAfterEos(t, head);
    forall k | 1 <= k <= 32 ensures !IsCode(t, bits[..k]) {
      assert bits[..k] == head[..k];
    }
    SilentBitsArePending(t, bits, 32);
  }

  // ----- The class -----

  lemma {:induction false} EncodedBitsSnoc(t: Table, text: seq<uint8>, s: uint8)
    requires Addressable(t)
    ensures EncodedBits(t, text + [s]) == EncodedBits(t, text) + CodeBits(t[s])
  {
    if text == [] {
      assert text + [s] == [s];
      assert EncodedBits(t, [s]) == CodeBits(t[s]) + EncodedBits(t, []);
    } else {
      assert (text + [s])[0] == text[0] && (text + [s])[1..] == text[1..] + [s];
      EncodedBitsSnoc(t, text[1..], s);
    }
  }

  /** Bit `i` of a code, as a shift and a mask extract it. */
  function BitAt(c: Code, i: nat): (b: bit)
    requires i < c.length
    ensures b == CodeBits(c)[i]
  {
    ToBitsPrefix(c.value, c.length, i + 1);
    assert CodeBits(c)[i] == CodeBits(c)[..i + 1][i];
    Shr(c.value, c.length - 1 - i) % 2
  }

  /** The decoder's state: `output` and what is still to be read make up the whole result. */
  ghost predicate Reads(t: Table, output: seq<uint8>, pending: seq<bit>, rest: seq<bit>, all: seq<uint8>) {
    output + DecodeFrom(t, pending, rest) == all
  }

  lemma AllRead(t: Table, output: seq<uint8>, pending: seq<bit>, all: seq<uint8>)
    requires Reads(t, output, pending, [], all)
    ensures output == all
  {
  }

  lemma ReadBit(t: Table, output: seq<uint8>, pending: seq<bit>, rest: seq<bit>, all: seq<uint8>)
    requires rest != [] && Reads(t, output, pending, rest, all)
    ensures var seen := pending + [rest[0]];
            if IsCode(t, seen) then Reads(t, output + [SymbolOf(t, seen)], [], rest[1..], all)
            else Reads(t, output, if |seen| >= 32 then [] else seen, rest[1..], all)
  {
    var seen := pending + [rest[0]];
    if IsCode(t, seen) {
      var s, later := SymbolOf(t, seen), DecodeFrom(t, [], rest[1..]);
      assert output + ([s] + later) == (output + [s]) + later;
    }
  }

  /** Shifting a bit into the 32-bit code register loses nothing. */
  lemma ShiftIn(pending: seq<bit>, next: bit)
    requires |pending| < 32
    ensures 2 * FromBits(pending) + next == FromBits(pending + [next]) < 0x1_0000_0000
  {
    var seen := pending + [next];
    assert seen[..|seen| - 1] == pending;
    FromBitsBound(seen);
    Pow2Monotone(|seen|, 32);
    Pow2Values();
  }

  lemma ZeroIsEmpty()
    ensures FromBits([]) == 0
  {
  }

  lemma NextBit(bits: seq<bit>, i: nat, tail: seq<bit>)
    requires i < |bits|
    ensures (bits[i..] + tail)[0] == bits[i] && (bits[i..] + tail)[1..] == bits[i + 1..] + tail
  {
  }

  lemma UnpackFirst(data: seq<uint8>)
    requires data != []
    ensures UnpackBits(data) == ToBits(data[0], 8) + UnpackBits(data[1..])
  {
  }

  /** Equal-length bit sequences are equal as numbers only if they are equal. */
  lemma CodeMatches(c: Code, bits: seq<bit>)
    requires c.value < Pow2(c.length)
    ensures CodeBits(c) == bits <==> c.value == FromBits(bits) && c.length == |bits|
  {
    FromBitsToBits(c.value, c.length);
    if c.length == |bits| { ToBitsFromBits(bits); }
  }

  class Huffman {
    var encodings: Table
    var reverseMap: map<uint32, uint8>
    var codeLengths: map<uint32, nat>

    /** Both reverse maps hold, for each code value, the data of one symbol with that value. */
    ghost predicate Consistent()
      reads this
    {
      && codeLengths.Keys == reverseMap.Keys
      && (forall v :: v in reverseMap ==>
            reverseMap[v] in encodings && encodings[reverseMap[v]] == Code(v, codeLengths[v]))
      && (forall s :: s in encodings ==> encodings[s].value in reverseMap)
    }

    ghost predicate Valid()
      reads this
    {
      Consistent() && Canonical(encodings)
    }

    /** The order in which the entries of the map are visited is not specified. */
    constructor (table: Table)
      ensures encodings == table && Consistent()
    {
      var reverse: map<uint32, uint8>, lengths: map<uint32, nat> := map[], map[];
      var rest := table.Keys;
      while rest != {}
        invariant rest <= table.Keys
        invariant lengths.Keys == reverse.Keys
        invariant forall v :: v in reverse ==> reverse[v] in table && table[reverse[v]] == Code(v, lengths[v])
        invariant forall s :: s in table && s !in rest ==> table[s].value in reverse
        decreases |rest|
      {
        var s :| s in rest;
        reverse := reverse[table[s].value := s];
        lengths := lengths[table[s].value := table[s].length];
        rest := rest - {s};
      }
      encodings, reverseMap, codeLengths := table, reverse, lengths;
    }

    method Encode(input: seq<uint8>) returns (output: seq<uint8>)
      requires Consistent() && Addressable(encodings)
      ensures output == Encoded(encodings, input)
    {
      output := [];
      var bitPosition: nat, byte: uint8 := 0, 0;
      ghost var t := encodings;
      assert EncodedBits(t, input[..0]) == [];
      hide Holds, EncodedBits, UnpackBits, ToBits, Packed, Shl, Pow2, Consistent, Addressable;
      for k := 0 to |input|
        invariant bitPosition < 8
        invariant Holds(output, byte, bitPosition, EncodedBits(t, input[..k]))
      {
        LookupFindsLength(input[k]);
        var code := encodings[input[k]].value;
        var length := codeLengths[code];
        output, byte, bitPosition := PutCode(output, byte, bitPosition, Code(code, length), EncodedBits(t, input[..k]));
        assert input[..k + 1] == input[..k] + [input[k]];
        EncodedBitsSnoc(t, input[..k], input[k]);
      }
      assert input[..|input|] == input;
      output := PutRest(output, byte, bitPosition, EncodedBits(t, input));
    }

    /** The encoder's end: a byte that is not full is filled up with ones. */
    static method PutRest(before: seq<uint8>, byte: uint8, bitPosition: nat, ghost bits: seq<bit>)
      returns (output: seq<uint8>)
      requires Holds(before, byte, bitPosition, bits)
      ensures output == Packed(bits)
    {
      output := before;
      Flush(before, byte, bitPosition, bits);
      assert bitPosition < 8;
      hide Holds, Packed, Shl, Pow2;
      if bitPosition > 0 {
        var room := 8 - bitPosition;
        output := output + [Shl(byte, room) % 256 + (Pow2(room) - 1)];
      }
    }

    /** The encoder's inner loop: appends the bits of one code. */
    static method PutCode(before: seq<uint8>, byte0: uint8, position0: nat, c: Code, ghost bits: seq<bit>)
      returns (output: seq<uint8>, byte: uint8, bitPosition: nat)
      requires Holds(before, byte0, position0, bits)
      requires position0 < 8
      ensures bitPosition < 8
      ensures Holds(output, byte, bitPosition, bits + CodeBits(c))
    {
      hide Holds;
      output, byte, bitPosition := before, byte0, position0;
      ghost var code := CodeBits(c);
      assert bits + code[..0] == bits;
      for i := 0 to c.length
        invariant bitPosition < 8
        invariant Holds(output, byte, bitPosition, bits + code[..i])
      {
        var next := BitAt(c, i);
        assert bits + code[..i + 1] == bits + code[..i] + [next];
        PushBit(output, byte, bitPosition, bits + code[..i], next);
        byte := (2 * byte) % 256 + next;
        bitPosition := bitPosition + 1;
        if bitPosition == 8 {
          output := output + [byte];
          byte, bitPosition := 0, 0;
        }
      }
      assert code[..c.length] == code;
    }

    method Decode(data: seq<uint8>) returns (output: seq<uint8>)
      requires Valid()
      ensures output == Decoded(encodings, data)
    {
      ghost var t, all := encodings, Decoded(encodings, data);
      assert Reads(t, [], [], UnpackBits(data), all);
      hide Reads, Valid, Consistent, Decoded, DecodeFrom, ToBits;
      output := [];
      var minBitSize := MinimumLength();
      var code: uint32, bitsChecked: nat := 0, 0;
      ZeroIsEmpty();
      assert data[0..] == data;
      for p := 0 to |data|
        invariant bitsChecked < 32 && code < Pow2(bitsChecked)
        invariant Reads(t, output, ToBits(code, bitsChecked), UnpackBits(data[p..]), all)
      {
        UnpackFirst(data[p..]);
        assert data[p..][1..] == data[p + 1..];
        output, code, bitsChecked :=
          DecodeByte(data[p], minBitSize, output, code, bitsChecked, UnpackBits(data[p + 1..]), all);
      }
      assert data[|data|..] == [];
      AllRead(t, output, ToBits(code, bitsChecked), all);
    }

    /**
     * The decoder's inner loop: reads the bits of one byte, the high bit first.  `tail` are the bits of
     * the bytes after it, and `all` is what the whole text decodes to.
     */
    method DecodeByte(byte: uint8, minBitSize: nat, output0: seq<uint8>, code0: uint32, bitsChecked0: nat,
                      ghost tail: seq<bit>, ghost all: seq<uint8>)
      returns (output: seq<uint8>, code: uint32, bitsChecked: nat)
      requires Valid()
      requires forall v :: v in codeLengths ==> minBitSize <= codeLengths[v]
      requires bitsChecked0 < 32 && code0 < Pow2(bitsChecked0)
      requires Reads(encodings, output0, ToBits(code0, bitsChecked0), ToBits(byte, 8) + tail, all)
      ensures bitsChecked < 32 && code < Pow2(bitsChecked)
      ensures Reads(encodings, output, ToBits(code, bitsChecked), tail, all)
    {
      hide Reads, Valid, Consistent, FromBits, ToBits, Pow2;
      ghost var t, bits := encodings, CodeBits(Code(byte, 8));
      output, code, bitsChecked := output0, code0, bitsChecked0;
      ghost var pending := ToBits(code0, bitsChecked0);
      FromBitsToBits(code0, bitsChecked0);
      assert bits[0..] == bits == ToBits(byte, 8);
      ZeroIsEmpty();
      for i := 0 to 8
        invariant |pending| == bitsChecked < 32 && code == FromBits(pending)
        invariant Reads(t, output, pending, bits[i..] + tail, all)
      {
        var next := BitAt(Code(byte, 8), i);
        ghost var seen := pending + [next];
        NextBit(bits, i, tail);
        ReadBit(t, output, pending, bits[i..] + tail, all);
        ShiftIn(pending, next);
        LookupFindsCodes(seen);
        code := (2 * code + next) % 0x1_0000_0000;
        bitsChecked := bitsChecked + 1;
        pending := seen;
        if code in codeLengths && bitsChecked >= minBitSize {
          var length := codeLengths[code];
          if length == bitsChecked {
            output := output + [reverseMap[code]];
            code, bitsChecked, pending := 0, 0, [];
          }
        }
        if bitsChecked >= 32 {
          code, bitsChecked, pending := 0, 0, [];
        }
      }
      assert bits[8..] + tail == tail;
      ToBitsFromBits(pending);
      FromBitsBound(pending);
    }

    /** The least code length, or the largest size_t when the table is empty. */
    method MinimumLength() returns (least: nat)
      ensures forall v :: v in codeLengths ==> least <= codeLengths[v]
      ensures least == SIZE_MAX || exists v :: v in codeLengths && codeLengths[v] == least
    {
      least := SIZE_MAX;
      var rest := codeLengths.Keys;
      while rest != {}
        invariant rest <= codeLengths.Keys
        invariant forall v :: v in codeLengths && v !in rest ==> least <= codeLengths[v]
        invariant least == SIZE_MAX || exists v :: v in codeLengths && codeLengths[v] == least
        decreases |rest|
      {
        var v :| v in rest;
        if codeLengths[v] < least {
          least := codeLengths[v];
        }
        rest := rest - {v};
      }
    }

    lemma LookupFindsLength(s: uint8)
      requires Consistent() && Addressable(encodings)
      ensures s in encodings
      ensures var v := encodings[s].value; v in codeLengths && codeLengths[v] == encodings[s].length
    {
    }

    /** Looking a code up by value and comparing its length finds exactly the codes of the table. */
    lemma LookupFindsCodes(seen: seq<bit>)
      requires Valid()
      ensures IsCode(encodings, seen) <==>
                FromBits(seen) in codeLengths && codeLengths[FromBits(seen)] == |seen|
      ensures IsCode(encodings, seen) ==>
                FromBits(seen) in reverseMap && reverseMap[FromBits(seen)] == SymbolOf(encodings, seen)
    {
      var v := FromBits(seen);
      if IsCode(encodings, seen) {
        var s := SymbolOf(encodings, seen);
        CodeMatches(encodings[s], seen);
      }
      if v in codeLengths && codeLengths[v] == |seen| {
        var s := reverseMap[v];
        CodeMatches(encodings[s], seen);
        assert IsCode(encodings, seen);
      }
    }
  }

  /** The encoder's state: whole bytes and the low bits of the byte being filled. */
  ghost predicate Holds(output: seq<uint8>, byte: uint8, bitPosition: nat, bits: seq<bit>) {
    && bitPosition < 8
    && byte < Pow2(bitPosition)
    && UnpackBits(output) + ToBits(byte, bitPosition) == bits
  }

  lemma ShiftedByte(byte: uint8, n: nat, next: bit)
    requires n < 8 && byte < Pow2(n)
    ensures 2 * byte + next < Pow2(n + 1) && byte < 128
    ensures ToBits(2 * byte + next, n + 1) == ToBits(byte, n) + [next]
    ensures Pow2(0) == 1 && ToBits(0, 0) == []
  {
    Pow2Monotone(n, 7);
    Pow2Values();
  }

  lemma PushBit(output: seq<uint8>, byte: uint8, n: nat, bits: seq<bit>, next: bit)
    requires Holds(output, byte, n, bits)
    ensures 2 * byte < 256 && 2 * byte + next < 256
    ensures n < 7 ==> Holds(output, 2 * byte + next, n + 1, bits + [next])
    ensures n == 7 ==> Holds(output + [2 * byte + next], 0, 0, bits + [next])
  {
    ShiftedByte(byte, n, next);
    hide UnpackBits, ToBits, Pow2;
    if n == 7 {
      UnpackByte(2 * byte + next);
      UnpackConcat(output, [2 * byte + next]);
    }
  }

  lemma Flush(output: seq<uint8>, byte: uint8, n: nat, bits: seq<bit>)
    requires Holds(output, byte, n, bits)
    ensures n == 0 ==> output == Packed(bits)
    ensures n > 0 ==>
              var last := Shl(byte, 8 - n) + (Pow2(8 - n) - 1);
              last < 256 && output + [last] == Packed(bits)
  {
    if n == 0 {
      hide Packed;
      assert UnpackBits(output) == bits + Ones(0);
      PackedIsUnique(bits, output, 0);
    } else {
      hide Packed;
      var last := Shl(byte, 8 - n) + (Pow2(8 - n) - 1);
      FilledByte(byte, n, 8 - n);
      hide UnpackBits, ToBits, Shl, Pow2;
      UnpackByte(last);
      UnpackConcat(output, [last]);
      Associate(UnpackBits(output), ToBits(byte, n), Ones(8 - n));
      PackedIsUnique(bits, output + [last], 8 - n);
    }
  }

  lemma FilledByte(byte: uint8, n: nat, room: nat)
    requires n + room == 8 && byte < Pow2(n)
    ensures var last := Shl(byte, room) + (Pow2(room) - 1);
            last < 256 && ToBits(last, 8) == ToBits(byte, n) + Ones(room)
  {
    AppendOnes(byte, n, room);
    Pow2Values();
    hide ToBits, Shl, Pow2, Ones;
    assert n + room == 8;
  }

  lemma UnpackByte(b: uint8)
    ensures UnpackBits([b]) == ToBits(b, 8)
  {
    assert UnpackBits([b]) == ToBits(b, 8) + UnpackBits([b][1..]);
  }

  /** Whole bytes that hold `bits` and fewer than eight one-bits are the packed bits. */
  lemma PackedIsUnique(bits: seq<bit>, bytes: seq<uint8>, pad: nat)
    requires pad < 8 && UnpackBits(bytes) == bits + Ones(pad)
    ensures bytes == Packed(bits)
  {
    UnpackPacked(bits);
    hide Packed, UnpackBits;
    assert |bits| + pad == 8 * |bytes|;
    assert pad == Padding(|bits|);
    UnpackInjective(bytes, Packed(bits));
  }
}
