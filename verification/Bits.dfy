/** Machine integers, bytes, and the bit sequences that the Huffman coder packs into bytes. */
module Bits {

  type uint8 = x: int | 0 <= x < 0x100
  type uint32 = x: int | 0 <= x < 0x1_0000_0000
  type bit = x: int | 0 <= x < 2

  function Pow2(n: nat): (r: nat)
    ensures r >= 1
  {
    if n == 0 then 1 else 2 * Pow2(n - 1)
  }

  /** `value >> n` */
  function Shr(value: nat, n: nat): nat {
    if n == 0 then value else Shr(value / 2, n - 1)
  }

  /** `value << n`, before any truncation */
  function Shl(value: nat, n: nat): nat {
    if n == 0 then value else 2 * Shl(value, n - 1)
  }

  /** The `length` low bits of `value`, most significant first. */
  function ToBits(value: nat, length: nat): (bits: seq<bit>)
    ensures |bits| == length
  {
    if length == 0 then [] else ToBits(value / 2, length - 1) + [value % 2]
  }

  /** The number that a bit sequence denotes, most significant bit first. */
  function FromBits(bits: seq<bit>): nat {
    if bits == [] then 0 else 2 * FromBits(bits[..|bits| - 1]) + bits[|bits| - 1]
  }

  function Ones(n: nat): (bits: seq<bit>)
    ensures |bits| == n
    ensures forall i :: 0 <= i < n ==> bits[i] == 1
  {
    seq(n, _ => 1)
  }

  /** The bits of a byte string, each byte most significant bit first. */
  function UnpackBits(bytes: seq<uint8>): (bits: seq<bit>)
    ensures |bits| == 8 * |bytes|
  {
    if bytes == [] then [] else ToBits(bytes[0], 8) + UnpackBits(bytes[1..])
  }

  /** The high bit of a byte comes first. */
  lemma ByteBits(b: uint8)
    ensures ToBits(b, 8) == [b / 128 % 2, b / 64 % 2, b / 32 % 2, b / 16 % 2, b / 8 % 2, b / 4 % 2, b / 2 % 2, b % 2]
  {
    assert ToBits(b / 128, 1) == [b / 128 % 2];
    assert ToBits(b / 64, 2) == [b / 128 % 2, b / 64 % 2];
    assert ToBits(b / 32, 3) == ToBits(b / 64, 2) + [b / 32 % 2];
    assert ToBits(b / 16, 4) == ToBits(b / 32, 3) + [b / 16 % 2];
    assert ToBits(b / 8, 5) == ToBits(b / 16, 4) + [b / 8 % 2];
    assert ToBits(b / 4, 6) == ToBits(b / 8, 5) + [b / 4 % 2];
    assert ToBits(b / 2, 7) == ToBits(b / 4, 6) + [b / 2 % 2];
  }

  /** The bits of a byte string are those of its bytes, in order. */
  lemma {:induction false} BitsOfByte(bytes: seq<uint8>, i: nat)
    requires i < |bytes|
    ensures UnpackBits(bytes)[8 * i..8 * i + 8] == ToBits(bytes[i], 8)
  {
    hide ToBits;
    if i > 0 {
      BitsOfByte(bytes[1..], i - 1);
      var later := UnpackBits(bytes[1..]);
      assert UnpackBits(bytes)[8..] == later;
      assert UnpackBits(bytes)[8 * i..8 * i + 8] == later[8 * (i - 1)..8 * (i - 1) + 8];
    }
  }

  lemma {:induction false} Pow2Add(a: nat, b: nat)
    ensures Pow2(a + b) == Pow2(a) * Pow2(b)
  {
    if a > 0 {
      Pow2Add(a - 1, b);
      assert Pow2(a + b) == 2 * (Pow2(a - 1) * Pow2(b)) == (2 * Pow2(a - 1)) * Pow2(b);
    }
  }

  lemma Pow2Monotone(a: nat, b: nat)
    requires a <= b
    ensures Pow2(a) <= Pow2(b)
  {
    if a < b { Pow2Monotone(a, b - 1); }
  }

  lemma Pow2Order(a: nat, b: nat)
    ensures Pow2(a) < Pow2(b) ==> a < b
  {
    if b <= a { Pow2Monotone(b, a); }
  }

  lemma Pow2Values()
    ensures Pow2(7) == 0x80 && Pow2(8) == 0x100 && Pow2(30) == 0x4000_0000 && Pow2(32) == 0x1_0000_0000
  {
    assert Pow2(8) == 0x100;
    Pow2Add(8, 8);
    Pow2Add(16, 16);
    assert Pow2(32) == 2 * Pow2(31) == 4 * Pow2(30);
  }

  lemma FromBitsBound(bits: seq<bit>)
    ensures FromBits(bits) < Pow2(|bits|)
  {
  }

  lemma {:induction false} ToBitsFromBits(bits: seq<bit>)
    ensures ToBits(FromBits(bits), |bits|) == bits
  {
    if bits != [] {
      var init, last := bits[..|bits| - 1], bits[|bits| - 1];
      var value := FromBits(bits);
      assert value == 2 * FromBits(init) + last;
      assert value / 2 == FromBits(init) && value % 2 == last;
      ToBitsFromBits(init);
      assert bits == init + [last];
    }
  }

  lemma FromBitsToBits(value: nat, length: nat)
    requires value < Pow2(length)
    ensures FromBits(ToBits(value, length)) == value
  {
    if length > 0 {
      FromBitsToBits(value / 2, length - 1);
      var bits := ToBits(value, length);
      assert bits[..length - 1] == ToBits(value / 2, length - 1);
    }
  }

  /** Dropping the last bits of a code shifts its value right. */
  lemma {:induction false} ToBitsPrefix(value: nat, length: nat, k: nat)
    requires k <= length
    ensures ToBits(value, length)[..k] == ToBits(Shr(value, length - k), k)
  {
    if k < length {
      ToBitsPrefix(value / 2, length - 1, k);
      assert ToBits(value, length)[..k] == ToBits(value / 2, length - 1)[..k];
    } else {
      assert ToBits(value, length)[..k] == ToBits(value, length);
    }
  }

  lemma {:induction false} ShiftOrder(value: nat, least: nat, n: nat)
    ensures Shl(least, n) <= value <==> least <= Shr(value, n)
    ensures least <= Shl(least, n)
  {
    if n > 0 { ShiftOrder(value / 2, least, n - 1); }
  }

  lemma {:induction false} ShiftMonotone(a: nat, b: nat, n: nat)
    requires a <= b
    ensures Shl(a, n) <= Shl(b, n)
  {
    if n > 0 { ShiftMonotone(a, b, n - 1); }
  }

  lemma {:induction false} ShiftPow2(a: nat, n: nat)
    ensures Shl(Pow2(a), n) == Pow2(a + n)
  {
    if n > 0 { ShiftPow2(a, n - 1); }
  }

  lemma {:induction false} FromOnes(n: nat)
    ensures FromBits(Ones(n)) == Pow2(n) - 1
  {
    if n > 0 {
      assert Ones(n)[..n - 1] == Ones(n - 1);
      FromOnes(n - 1);
    }
  }

  lemma NotAllOnes(bits: seq<bit>)
    requires bits != Ones(|bits|)
    ensures FromBits(bits) < Pow2(|bits|) - 1
  {
    FromBitsBound(bits);
    FromOnes(|bits|);
    ToBitsFromBits(bits);
    ToBitsFromBits(Ones(|bits|));
  }

  /** Shifting left and filling the low bits with ones. */
  lemma {:induction false} AppendOnes(value: nat, length: nat, k: nat)
    requires value < Pow2(length)
    ensures Shl(value, k) + (Pow2(k) - 1) < Pow2(length + k)
    ensures ToBits(Shl(value, k) + (Pow2(k) - 1), length + k) == ToBits(value, length) + Ones(k)
  {
    if k == 0 {
      assert ToBits(value, length) + Ones(0) == ToBits(value, length);
    } else {
      var half := Shl(value, k - 1) + (Pow2(k - 1) - 1);
      assert Shl(value, k) + (Pow2(k) - 1) == 2 * half + 1;
      AppendOnes(value, length, k - 1);
      assert Ones(k) == Ones(k - 1) + [1];
    }
  }

  lemma UnpackConcat(a: seq<uint8>, b: seq<uint8>)
    ensures UnpackBits(a + b) == UnpackBits(a) + UnpackBits(b)
  {
    if a == [] {
      assert a + b == b;
    } else {
      assert (a + b)[1..] == a[1..] + b;
      UnpackConcat(a[1..], b);
    }
  }

  lemma UnpackInjective(a: seq<uint8>, b: seq<uint8>)
    requires UnpackBits(a) == UnpackBits(b)
    ensures a == b
  {
    if a != [] {
      assert |a| == |b|;
      assert UnpackBits(a)[..8] == ToBits(a[0], 8);
      assert UnpackBits(b)[..8] == ToBits(b[0], 8);
      assert UnpackBits(a)[8..] == UnpackBits(a[1..]);
      assert UnpackBits(b)[8..] == UnpackBits(b[1..]);
      assert a[0] < Pow2(8) && b[0] < Pow2(8);
      FromBitsToBits(a[0], 8);
      FromBitsToBits(b[0], 8);
      UnpackInjective(a[1..], b[1..]);
      assert a == [a[0]] + a[1..] && b == [b[0]] + b[1..];
    }
  }

  lemma Associate<T>(a: seq<T>, b: seq<T>, c: seq<T>)
    ensures (a + b) + c == a + (b + c)
  {
  }

  lemma ConsConcat<T>(a: seq<T>, b: seq<T>)
    requires a != []
    ensures (a + b)[0] == a[0] && (a + b)[1..] == a[1..] + b
  {
  }
}
