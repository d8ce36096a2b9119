/**
 * Integers with an N-bit prefix (variable_integer<N> in include/protocols/h2/hpack.hpp; section 5.1
 * of RFC 7541), in 32-bit unsigned arithmetic.
 */
module VariableInteger {
  import opened Bits

  /** `NoData` is the std::invalid_argument that the source throws; a shift by 32 or more is undefined. */
  datatype IntResult = Value(value: uint32, length: nat) | NoData | ShiftTooFar

  /** The largest value of an N-bit prefix, which announces that more bytes follow. */
  function Limit(N: nat): (r: nat)
    requires 4 <= N <= 7
    ensures 15 <= r <= 127
  {
    match N case 4 => 15 case 5 => 31 case 6 => 63 case _ => 127
  }

  /** Seven bits to a byte, least significant group first, the high bit set on all but the last. */
  function Groups(value: uint32): (bytes: seq<uint8>)
    ensures bytes != []
  {
    if value < 128 then [value] else [128 + value % 128] + Groups(value / 128)
  }

  function EncodedInt(N: nat, value: uint32): (bytes: seq<uint8>)
    requires 4 <= N <= 7
    ensures bytes != [] && bytes[0] <= Limit(N)
  {
    if value < Limit(N) then [value] else [Limit(N)] + Groups(value - Limit(N))
  }

  /** Adds groups from `data` to `value` until one without the high bit, or the end of the data. */
  function ReadGroups(data: seq<uint8>, value: uint32, shift: nat, length: nat): IntResult {
    if data == [] then Value(value, length)
    else if shift >= 32 then ShiftTooFar
    else
      var sum := (value + Shl(data[0] % 128, shift)) % 0x1_0000_0000;
      if data[0] < 128 then Value(sum, length + 1) else ReadGroups(data[1..], sum, shift + 7, length + 1)
  }

  function DecodedInt(N: nat, data: seq<uint8>): (r: IntResult)
    requires 4 <= N <= 7
    ensures r.Value? ==> 1 <= r.length <= |data|
  {
    if data == [] then NoData
    else
      var prefix := data[0] % (Limit(N) + 1);
      if prefix < Limit(N) then Value(prefix, 1)
      else
        ReadGroupsLength(data[1..], Limit(N), 0, 1);
        ReadGroups(data[1..], Limit(N), 0, 1)
  }

  lemma {:induction false} ReadGroupsLength(data: seq<uint8>, value: uint32, shift: nat, length: nat)
    ensures var r := ReadGroups(data, value, shift, length);
            r.Value? ==> length <= r.length <= length + |data|
  {
    if data != [] && shift < 32 {
      ReadGroupsLength(data[1..], (value + Shl(data[0] % 128, shift)) % 0x1_0000_0000, shift + 7, length + 1);
    }
  }

  lemma GroupsSplit(value: uint32)
    ensures Groups(value) == if value / 128 > 0 then [128 + value % 128] + Groups(value / 128) else [value % 128]
  {
  }

  method Encode(N: nat, number: uint32) returns (bytes: seq<uint8>)
    requires 4 <= N <= 7
    ensures bytes == EncodedInt(N, number)
  {
    if number < Limit(N) {
      return [number];
    }
    bytes := [Limit(N)];
    var value: uint32 := number - Limit(N);
    ghost var all := EncodedInt(N, number);
    hide Groups, EncodedInt;
    var more := true;  // the loop tests at its end
    while more
      invariant more ==> bytes + Groups(value) == all
      invariant !more ==> bytes == all
      decreases more, value
    {
      var quotient, remainder := value / 128, value % 128;
      GroupsSplit(value);
      var group := if quotient > 0 then 128 + remainder else remainder;
      assert quotient > 0 ==> (bytes + [group]) + Groups(quotient) == bytes + ([group] + Groups(quotient));
      bytes := bytes + [group];
      value := quotient;
      more := value > 0;
    }
  }

  method Decode(N: nat, data: seq<uint8>) returns (r: IntResult)
    requires 4 <= N <= 7
    ensures r == DecodedInt(N, data)
  {
    if data == [] {
      return NoData;
    }
    var prefix := data[0] % (Limit(N) + 1);
    if prefix < Limit(N) {
      return Value(prefix, 1);
    }
    var value: uint32, shift, bytes, i := Limit(N), 0, 1, 1;
    while i < |data|
      invariant 1 <= i == bytes <= |data|
      invariant ReadGroups(data[i..], value, shift, bytes) == DecodedInt(N, data)
    {
      if shift >= 32 {
        return ShiftTooFar;
      }
      var byte := data[i];
      assert data[i..][1..] == data[i + 1..];
      value := (value + Shl(byte % 128, shift)) % 0x1_0000_0000;
      shift, bytes, i := shift + 7, bytes + 1, i + 1;
      if byte < 128 {
        return Value(value, bytes);
      }
    }
    r := Value(value, bytes);
  }

  // ----- Round trip -----

  lemma {:induction false} ShlAdd(a: nat, b: nat, n: nat)
    ensures Shl(a + b, n) == Shl(a, n) + Shl(b, n)
  {
    if n > 0 { ShlAdd(a, b, n - 1); }
  }

  lemma {:induction false} ShlSeven(a: nat, n: nat)
    ensures Shl(128 * a, n) == Shl(a, n + 7)
  {
    if n == 0 {
      assert Shl(a, 1) == 2 * a;
      assert Shl(a, 3) == 8 * a;
      assert Shl(a, 5) == 32 * a;
    } else {
      ShlSeven(a, n - 1);
    }
  }

  /** What one group adds, and the room that is left for the groups above it. */
  lemma SplitGroup(q: uint32, value: uint32, shift: nat)
    requires shift == 0 || q >= 1
    requires value + Shl(q, shift) < 0x1_0000_0000
    ensures shift < 32
    ensures q < 128 ==> q % 128 == q
    ensures value + Shl(q, shift) == (value + Shl(q % 128, shift)) + Shl(q / 128, shift + 7)
    ensures value + Shl(q % 128, shift) < 0x1_0000_0000
  {
    ShlAdd(128 * (q / 128), q % 128, shift);
    ShlSeven(q / 128, shift);
    if shift > 0 {
      ShiftPow2(0, shift);
      ShiftMonotone(1, q, shift);
      Pow2Values();
      Pow2Order(shift, 32);
    }
  }

  lemma {:induction false} ReadWrittenGroups(q: uint32, tail: seq<uint8>, value: uint32, shift: nat, length: nat)
    requires shift == 0 || q >= 1
    requires value + Shl(q, shift) < 0x1_0000_0000
    ensures ReadGroups(Groups(q) + tail, value, shift, length)
            == Value(value + Shl(q, shift), length + |Groups(q)|)
  {
    hide Shl;
    SplitGroup(q, value, shift);
    var data := Groups(q) + tail;
    assert data[0] % 128 == q % 128;
    if q >= 128 {
      assert data[1..] == Groups(q / 128) + tail;
      ReadWrittenGroups(q / 128, tail, value + Shl(q % 128, shift), shift + 7, length + 1);
    }
  }

  lemma {:induction false} GroupCount(q: uint32, n: nat)
    requires q < Pow2(7 * n) && 1 <= n <= 5
    ensures |Groups(q)| <= n
  {
    if q >= 128 {
      assert Pow2(7 * n) == 128 * Pow2(7 * (n - 1)) by {
        assert 7 * n == 7 * (n - 1) + 7;
        Pow2Add(7, 7 * (n - 1));
        Pow2Values();
      }
      assert n > 1;
      GroupCount(q / 128, n - 1);
    }
  }

  lemma FlagsVanish(N: nat, flags: nat, first: nat)
    requires 4 <= N <= 7 && flags % (Limit(N) + 1) == 0 && first <= Limit(N)
    ensures (flags + first) % (Limit(N) + 1) == first
  {
    var m := Limit(N) + 1;
    assert m == 16 || m == 32 || m == 64 || m == 128;
  }

  /**
   * Any flag bits may be set above the prefix and any bytes may follow: decoding gives back the value
   * and the length of its encoding, which is at most six bytes.
   */
  lemma IntRoundTrip(N: nat, value: uint32, flags: nat, tail: seq<uint8>)
    requires 4 <= N <= 7 && flags % (Limit(N) + 1) == 0 && flags + EncodedInt(N, value)[0] < 256
    ensures var e := EncodedInt(N, value);
            && DecodedInt(N, [flags + e[0]] + e[1..] + tail) == Value(value, |e|)
            && |e| <= 6
  {
    var e := EncodedInt(N, value);
    var data := [flags + e[0]] + e[1..] + tail;
    FlagsVanish(N, flags, e[0]);
    if value >= Limit(N) {
      var q := value - Limit(N);
      assert data[1..] == Groups(q) + tail;
      ReadWrittenGroups(q, tail, Limit(N), 0, 1);
      Pow2Values();
      Pow2Monotone(32, 35);
      GroupCount(q, 5);
    }
  }

  // ----- The values of section 5.1 of RFC 7541 -----

  /** The value of groups of seven bits, the least significant group first. */
  function GroupSum(groups: seq<uint8>): nat {
    if groups == [] then 0 else groups[0] % 128 + 128 * GroupSum(groups[1..])
  }

  lemma PrefixLimits()
    ensures Limit(4) == 0xF && Limit(5) == 0x1F && Limit(6) == 0x3F && Limit(7) == 0x7F
  {
  }

  /**
   * The one shortest form: a value below the limit in the prefix alone; any other in the full prefix and
   * the groups of what it exceeds the limit by, all but the last with their high bit set.
   */
  lemma EncodedIntIs(N: nat, value: uint32)
    requires 4 <= N <= 7
    ensures value < Limit(N) ==> EncodedInt(N, value) == [value]
    ensures value >= Limit(N) ==>
              var e := EncodedInt(N, value);
              && |e| >= 2 && e[0] == Limit(N) && GroupSum(e[1..]) == value - Limit(N)
              && e[|e| - 1] < 128 && (|e| > 2 ==> e[|e| - 1] > 0) && forall i :: 1 <= i < |e| - 1 ==> e[i] >= 128
  {
    if value >= Limit(N) {
      var q := value - Limit(N);
      GroupsTerminate(q);
      GroupsAreShortest(q);
      assert EncodedInt(N, value)[1..] == Groups(q);
    }
  }

  lemma {:induction false} GroupsAreShortest(q: uint32)
    ensures var g := Groups(q); GroupSum(g) == q && (|g| > 1 ==> g[|g| - 1] > 0)
  {
    if q >= 128 {
      GroupsAreShortest(q / 128);
      var g := Groups(q / 128);
      assert ([128 + q % 128] + g)[1..] == g;
      assert |g| == 1 ==> g[0] == q / 128;
    } else {
      assert [q][1..] == [];
    }
  }

  /**
   * What is read: `k` groups follow the prefix, up to the first without its high bit or up to the end of
   * the data.  Five are added up modulo 2^32; for a sixth the shift is undefined.
   */
  lemma DecodedIntIs(N: nat, data: seq<uint8>, k: nat)
    requires 4 <= N <= 7 && k < |data| && data[0] % (Limit(N) + 1) == Limit(N)
    requires forall i :: 1 <= i < k ==> data[i] >= 128
    requires (k > 0 && data[k] < 128) || (k + 1 == |data| && (k > 0 ==> data[k] >= 128))
    ensures DecodedInt(N, data)
            == if k <= 5 then Value((Limit(N) + GroupSum(data[1..k + 1])) % 0x1_0000_0000, k + 1) else ShiftTooFar
  {
    var g := data[1..];
    ReadGroupsIs(g, Limit(N), 0, 1, k);
    assert data[1..k + 1] == g[..k];
    assert Shl(GroupSum(g[..k]), 0) == GroupSum(g[..k]);
  }

  /** Where the groups after a prefix end. */
  lemma LastGroup(data: seq<uint8>, n: nat) returns (k: nat)
    requires n < |data| && forall i :: 1 <= i < n ==> data[i] >= 128
    ensures n <= k < |data| && forall i :: 1 <= i < k ==> data[i] >= 128
    ensures (k > 0 && data[k] < 128) || (k + 1 == |data| && (k > 0 ==> data[k] >= 128))
    decreases |data| - n
  {
    if (n > 0 && data[n] < 128) || n + 1 == |data| {
      k := n;
    } else {
      k := LastGroup(data, n + 1);
    }
  }

  /** A full prefix with five continued groups behind it and a byte more: the shift is undefined. */
  lemma SixthGroup(N: nat, data: seq<uint8>)
    requires 4 <= N <= 7 && |data| >= 7 && data[0] % (Limit(N) + 1) == Limit(N)
    requires forall i :: 1 <= i <= 5 ==> data[i] >= 128
    ensures DecodedInt(N, data) == ShiftTooFar
  {
    var k := LastGroup(data, 6);
    DecodedIntIs(N, data, k);
  }

  lemma {:induction false} ReadGroupsIs(g: seq<uint8>, value: uint32, shift: nat, length: nat, k: nat)
    requires k <= |g| && (forall i :: 0 <= i < k - 1 ==> g[i] >= 128)
    requires (k > 0 && g[k - 1] < 128) || (k == |g| && (k > 0 ==> g[k - 1] >= 128))
    requires shift % 7 == 0 && shift <= 35
    ensures ReadGroups(g, value, shift, length)
            == if shift + 7 * k <= 35 then Value((value + Shl(GroupSum(g[..k]), shift)) % 0x1_0000_0000, length + k)
               else ShiftTooFar
    decreases k
  {
    hide Shl;
    if k == 0 {
      assert g[..0] == [];
      NoShift(shift);
    } else if shift < 32 {
      var low, rest := g[0] % 128, GroupSum(g[1..][..k - 1]);
      var part := Shl(low, shift);
      var sum := (value + part) % 0x1_0000_0000;
      assert g[..k][1..] == g[1..][..k - 1] && g[..k][0] == g[0];
      assert GroupSum(g[..k]) == low + 128 * rest;
      ShlAdd(low, 128 * rest, shift);
      ShlSeven(rest, shift);
      if g[0] < 128 {
        assert k == 1 && g[1..][..0] == [] && rest == 0;
      } else {
        ReadGroupsIs(g[1..], sum, shift + 7, length + 1, k - 1);
        SumOfSums(value + part, Shl(rest, shift + 7));
      }
    }
  }

  lemma {:induction false} NoShift(shift: nat)
    ensures Shl(0, shift) == 0
  {
    if shift > 0 { NoShift(shift - 1); }
  }

  lemma SumOfSums(a: nat, b: nat)
    ensures (a % 0x1_0000_0000 + b) % 0x1_0000_0000 == (a + b) % 0x1_0000_0000
  {
  }

  /** The examples of section C.1 of RFC 7541. */
  lemma IntegerExamples()
    ensures EncodedInt(5, 10) == [10] && EncodedInt(5, 1337) == [31, 154, 10]
  {
    assert Groups(10) == [10] && Groups(1306) == [154] + Groups(10);
  }

  // ----- Encodings other than the shortest -----

  /** A complete encoding of an integer: it ends at its own terminator and needs no undefined shift. */
  ghost predicate WholeInt(N: nat, e: seq<uint8>)
    requires 4 <= N <= 7
  {
    && e != []
    && if e[0] % (Limit(N) + 1) < Limit(N) then |e| == 1
       else 2 <= |e| <= 6 && e[|e| - 1] < 128 && forall i :: 1 <= i < |e| - 1 ==> e[i] >= 128
  }

  lemma {:induction false} ReadWholeGroups(e: seq<uint8>, tail: seq<uint8>, value: uint32, shift: nat, length: nat)
    requires e != [] && e[|e| - 1] < 128 && forall i :: 0 <= i < |e| - 1 ==> e[i] >= 128
    requires shift + 7 * |e| <= 35
    ensures ReadGroups(e + tail, value, shift, length) == ReadGroups(e, value, shift, length)
    ensures ReadGroups(e, value, shift, length).Value?
    ensures ReadGroups(e, value, shift, length).length == length + |e|
  {
    assert (e + tail)[1..] == e[1..] + tail;
    if |e| > 1 {
      ReadWholeGroups(e[1..], tail, (value + Shl(e[0] % 128, shift)) % 0x1_0000_0000, shift + 7, length + 1);
    }
  }

  /** A whole integer is read the same whatever follows it. */
  lemma WholeIntIsLocal(N: nat, e: seq<uint8>, tail: seq<uint8>)
    requires 4 <= N <= 7 && WholeInt(N, e)
    ensures DecodedInt(N, e).Value? && DecodedInt(N, e).length == |e|
    ensures DecodedInt(N, e + tail) == DecodedInt(N, e)
  {
    assert (e + tail)[0] == e[0];
    if |e| > 1 {
      assert (e + tail)[1..] == e[1..] + tail;
      ReadWholeGroups(e[1..], tail, Limit(N), 0, 1);
    }
  }

  /** The encoder writes whole integers. */
  lemma EncodedIsWhole(N: nat, value: uint32, flags: nat)
    requires 4 <= N <= 7 && flags % (Limit(N) + 1) == 0 && flags + EncodedInt(N, value)[0] < 256
    ensures var e := EncodedInt(N, value); WholeInt(N, [flags + e[0]] + e[1..])
  {
    var e := EncodedInt(N, value);
    IntRoundTrip(N, value, flags, []);
    assert (flags + e[0]) % (Limit(N) + 1) == e[0];
    if value >= Limit(N) { GroupsTerminate(value - Limit(N)); }
  }

  lemma {:induction false} GroupsTerminate(q: uint32)
    ensures var g := Groups(q); g[|g| - 1] < 128 && forall i :: 0 <= i < |g| - 1 ==> g[i] >= 128
  {
    if q >= 128 { GroupsTerminate(q / 128); }
  }
}
