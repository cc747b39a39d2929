/**
 * Vectors of bytes as sequences of bits, and what inet/common/MemoryOutputStream does when it puts bytes behind them.
 *
 * Bytes are numbers below 256; the bitwise operators of the source are those of module Words, and a
 * conversion to a byte is the remainder modulo 256.
 */
module ByteVectors {

  import opened Arithmetic
  import opened Words

  type byte = x: int | 0 <= x < 256

  function ToByte(x: int): byte { x % 256 }

  /** Bit `i` of a vector of bytes, of which the first is the most significant one of the first byte. */
  predicate BitAt(data: seq<byte>, i: nat)
    requires i < 8 * |data|
  {
    BitOf(data[i / 8], 7 - i % 8)
  }

  predicate Fits(data: seq<byte>, length: nat) { |data| == (length + 7) / 8 }

  function BitsIn(data: seq<byte>, length: nat): (bits: seq<bool>)
    requires length <= 8 * |data|
    ensures |bits| == length && forall i :: 0 <= i < length ==> bits[i] == BitAt(data, i)
  {
    seq(length, i requires 0 <= i < length => BitAt(data, i))
  }

  /** Behind the bits that are in use there are only zeros. */
  predicate IsPadded(data: seq<byte>, length: nat)
  {
    Fits(data, length) && forall i :: length <= i < 8 * |data| ==> !BitAt(data, i)
  }

  lemma ToByteBits(x: int, m: nat)
    ensures BitOf(ToByte(x), m) <==> m < 8 && BitOf(x, m)
  {
    assert Pow2(8) == 256;
    hide Pow2, BitOf;
    BitOfRemainder(x, 8, m);
  }

  lemma OrOfBytes(a: byte, b: byte)
    ensures 0 <= Or(a, b) < 256
  {
    assert Pow2(8) == 256;
    hide Pow2, Or;
    OrIsBounded(a, b, 8);
  }

  lemma {:induction false} OrIsBounded(a: nat, b: nat, n: nat)
    requires a < Pow2(n) && b < Pow2(n)
    ensures Or(a, b) < Pow2(n)
  {
    OrByHalves(a, b);
    if n > 0 {
      Pow2Next(n - 1);
      hide Pow2, Or;
      OrIsBounded(a / 2, b / 2, n - 1);
    } else {
      assert Or(0, 0) == 0;
    }
  }

  // ------------------------------------------------------------ writing

  /** A bit that has been set in the last byte, or left alone. */
  lemma BitIsWritten(data: seq<byte>, length: nat, value: bool)
    requires length < 8 * |data| && !BitAt(data, length) && |data| == length / 8 + 1
    requires forall i :: length <= i < 8 * |data| ==> !BitAt(data, i)
    ensures var old', k := data[length / 8], 7 - length % 8;
      0 <= Or(old', Pow2(k)) < 256
      && var next := if value then data[length / 8 := Or(old', Pow2(k))] else data;
        IsPadded(next, length + 1) && BitsIn(next, length + 1) == BitsIn(data, length) + [value]
  {
    var j, k := length / 8, 7 - length % 8;
    SmallPower(k);
    OrOfBytes(data[j], Pow2(k));
    var next: seq<byte> := if value then data[j := Or(data[j], Pow2(k))] else data;
    hide BitOf, Or, Pow2;
    forall i | 0 <= i < 8 * |data| ensures BitAt(next, i) <==> BitAt(data, i) || (value && i == length) {
      if i / 8 == j {
        BitOfOr(data[j], Pow2(k), 7 - i % 8);
        BitOfPow2(k, 7 - i % 8);
      }
    }
  }

  lemma SmallPower(k: nat)
    requires k < 8
    ensures Pow2(k) < 256
  {
    assert Pow2(7) == 128;
    hide Pow2;
    Pow2Grows(k, 7);
  }

  lemma ByteIsAppended(data: seq<byte>, length: nat, value: byte)
    requires IsPadded(data, length) && length % 8 == 0
    ensures length <= 8 * |data| && Fits(data + [value], length + 8) && IsPadded(data + [value], length + 8)
    ensures BitsIn(data + [value], length + 8) == BitsIn(data, length) + BitsOf(value, 8)
  {
    hide BitOf;
    var next := data + [value];
    forall i | 0 <= i < length + 8
      ensures BitsIn(next, length + 8)[i] == (BitsIn(data, length) + BitsOf(value, 8))[i]
    {
      assert i < length ==> next[i / 8] == data[i / 8];
    }
  }

  /** `(value & (0xFF << l2)) >> l2`, the part of a byte that goes into the last byte. */
  function HighBits(value: byte, l2: nat): (r: byte)
  {
    HighBitsFit(value, l2);
    And(value, 0xFF * Pow2(l2)) / Pow2(l2)
  }

  /** `(value & (0xFF >> l1)) << l1`, the part that goes into a new byte. */
  function LowBits(value: byte, l1: nat): byte
  {
    DivShrinks(0xFF, Pow2(l1));
    ToByte(And(value, 0xFF / Pow2(l1)) * Pow2(l1))
  }

  lemma HighBitsFit(value: byte, l2: nat)
    ensures 0 <= And(value, 0xFF * Pow2(l2)) / Pow2(l2) < 256
  {
    hide Pow2;
    AndIsBounded(value, 0xFF * Pow2(l2));
    DivShrinks(And(value, 0xFF * Pow2(l2)), Pow2(l2));
  }

  lemma {:induction false} AndIsBounded(a: nat, b: nat)
    ensures And(a, b) <= a
  {
    if a != 0 && b != 0 {
      AndIsBounded(a / 2, b / 2);
    }
  }

  /** The bits of the two parts that a byte is split into at `l1`. */
  lemma HighPart(value: byte, l2: nat, m: nat)
    requires l2 < 8
    ensures BitOf(HighBits(value, l2), m) <==> BitOf(value, m + l2)
  {
    assert Pow2(8) == 256;
    hide Pow2, BitOf, And;
    BitOfQuotient(And(value, 0xFF * Pow2(l2)), l2, m);
    BitOfAnd(value, 0xFF * Pow2(l2), m + l2);
    BitOfProduct(0xFF, l2, m + l2);
    BitOfMask(8, m);
    if m >= 8 { BitOfSmall(value, 8, m + l2); }
  }

  lemma LowPart(value: byte, l1: nat, m: nat)
    requires l1 < 8
    ensures BitOf(LowBits(value, l1), m) <==> l1 <= m < 8 && BitOf(value, m - l1)
  {
    assert Pow2(8) == 256;
    hide Pow2, BitOf, And;
    DivShrinks(0xFF, Pow2(l1));
    var low := And(value, 0xFF / Pow2(l1));
    ToByteBits(low * Pow2(l1), m);
    BitOfProduct(low, l1, m);
    if m >= l1 {
      BitOfAnd(value, 0xFF / Pow2(l1), m - l1);
      BitOfQuotient(0xFF, l1, m - l1);
      BitOfMask(8, m);
    }
  }

  /** What the code does with a byte off a byte boundary. */
  function SplitByte(data: seq<byte>, length: nat, value: byte): (next: seq<byte>)
    requires Fits(data, length) && length % 8 != 0
    ensures |next| == |data| + 1 && Fits(next, length + 8)
    ensures length <= 8 * |data| && length + 8 <= 8 * |next|
  {
    var l1, last := length % 8, data[|data| - 1];
    OrOfBytes(last, HighBits(value, 8 - l1));
    data[|data| - 1 := Or(last, HighBits(value, 8 - l1))] + [LowBits(value, l1)]
  }

  lemma SplitIsRight(data: seq<byte>, length: nat, value: byte)
    requires IsPadded(data, length) && length % 8 != 0 && (length % 4 == 0 || value == 0)
    ensures var next := SplitByte(data, length, value);
      && length <= 8 * |data| && |next| == |data| + 1 && IsPadded(next, length + 8)
      && BitsIn(next, length + 8) == BitsIn(data, length) + BitsOf(value, 8)
  {
    hide BitOf, SplitByte, SplitBit, BitAt;
    SplitBits(data, length, value);
    RightlyPlaced(data, length, value);
  }

  /** What `writeByte` does. */
  function WithByte(data: seq<byte>, length: nat, value: byte): (next: seq<byte>)
    requires Fits(data, length)
    ensures |next| == |data| + 1 && Fits(next, length + 8)
  {
    if length % 8 == 0 then data + [value] else SplitByte(data, length, value)
  }

  lemma NotEmpty(data: seq<byte>, length: nat)
    requires Fits(data, length) && length % 8 != 0
    ensures data != []
  {
  }

  lemma RightlyPlaced(data: seq<byte>, length: nat, value: byte)
    requires IsPadded(data, length) && length % 8 != 0 && (length % 4 == 0 || value == 0)
    ensures forall i :: 0 <= i < 8 * |data| + 8 ==> (SplitBit(data, length, value, i)
      <==> if i < length then BitAt(data, i) else i < length + 8 && BitsOf(value, 8)[i - length])
  {
    hide SplitBit;
    forall i | 0 <= i < 8 * |data| + 8
      ensures SplitBit(data, length, value, i)
        <==> if i < length then BitAt(data, i) else i < length + 8 && BitsOf(value, 8)[i - length]
    {
      BitIsRight(data, length, value, i);
    }
  }

  lemma BitIsRight(data: seq<byte>, length: nat, value: byte, i: nat)
    requires IsPadded(data, length) && length % 8 != 0 && (length % 4 == 0 || value == 0) && i < 8 * |data| + 8
    ensures SplitBit(data, length, value, i)
       <==> if i < length then BitAt(data, i) else i < length + 8 && BitsOf(value, 8)[i - length]
  {
    assert Pow2(8) == 256;
    hide BitOf, Pow2;
    if value == 0 {
      forall m: nat ensures !BitOf(value, m) { NoBitOfZero(m); }
    } else {
      forall m: nat | m >= 8 ensures !BitOf(value, m) { BitOfSmall(value, 8, m); }
      assert length % 8 == 4;
    }
  }

  /** Bit `j` of the eight new ones. */
  predicate PlacedBit(value: byte, l1: nat, j: nat)
    requires 0 < l1 < 8 && j < 8
  {
    if j < 8 - l1 then BitOf(value, 2 * (8 - l1) - 1 - j) else l1 <= 15 - l1 - j && BitOf(value, 15 - 2 * l1 - j)
  }

  /** What a bit of the stream is after a byte has been split: old bits, new bits, and what is behind them. */
  predicate SplitBit(data: seq<byte>, length: nat, value: byte, i: nat)
    requires IsPadded(data, length) && length % 8 != 0 && i < 8 * |data| + 8
  {
    var l1 := length % 8;
    if i < length - l1 then BitAt(data, i)
    else if i < length then BitAt(data, i) || BitOf(value, 15 - l1 - i % 8)
    else if i < length + 8 then PlacedBit(value, l1, i - length)
    else l1 <= 7 - i % 8 && BitOf(value, 7 - i % 8 - l1)
  }

  lemma SplitBits(data: seq<byte>, length: nat, value: byte)
    requires IsPadded(data, length) && length % 8 != 0
    ensures |SplitByte(data, length, value)| == |data| + 1
    ensures forall i :: 0 <= i < 8 * |data| + 8 ==> (BitAt(SplitByte(data, length, value), i) <==> SplitBit(data, length, value, i))
  {
    hide SplitByte, SplitBit;
    SplitParts(data, length, value);
    forall i | 0 <= i < 8 * |data| + 8 ensures BitAt(SplitByte(data, length, value), i) <==> SplitBit(data, length, value, i) {
      SplitBitAt(data, length, value, i);
    }
  }

  lemma SplitParts(data: seq<byte>, length: nat, value: byte)
    requires IsPadded(data, length) && length % 8 != 0
    ensures |SplitByte(data, length, value)| == |data| + 1
  {
  }

  lemma SplitBitAt(data: seq<byte>, length: nat, value: byte, i: nat)
    requires IsPadded(data, length) && length % 8 != 0 && i < 8 * |data| + 8
    ensures |SplitByte(data, length, value)| == |data| + 1
    ensures BitAt(SplitByte(data, length, value), i) <==> SplitBit(data, length, value, i)
  {
    var l1, m, last := length % 8, 7 - i % 8, data[|data| - 1];
    var high := HighBits(value, 8 - l1);
    OrOfBytes(last, high);
    HighPart(value, 8 - l1, m);
    LowPart(value, l1, m);
    BitOfOr(last, high, m);
    hide BitOf, HighBits, LowBits, Or;
    PartsInPlace(data, length, value, i, Or(last, high), LowBits(value, l1));
  }

  lemma PartsInPlace(data: seq<byte>, length: nat, value: byte, i: nat, first: byte, second: byte)
    requires IsPadded(data, length) && length % 8 != 0 && i < 8 * |data| + 8
    requires var l1, m := length % 8, 7 - i % 8;
      && (BitOf(first, m) <==> BitOf(data[|data| - 1], m) || BitOf(value, m + 8 - l1))
      && (BitOf(second, m) <==> l1 <= m < 8 && BitOf(value, m - l1))
    ensures BitAt(data[|data| - 1 := first] + [second], i) <==> SplitBit(data, length, value, i)
  {
    hide BitOf;
    var next := data[|data| - 1 := first] + [second];
    var k := i / 8;
    if k == |data| - 1 {
      assert next[k] == first;
      assert i >= length ==> !BitAt(data, i);
    } else if k == |data| {
      assert next[k] == second;
    } else {
      assert next[k] == data[k];
    }
  }

  function BytesBits(bytes: seq<byte>): (bits: seq<bool>)
    ensures |bits| == 8 * |bytes|
  {
    if bytes == [] then [] else BitsOf(bytes[0], 8) + BytesBits(bytes[1..])
  }

  lemma {:induction false} BytesAreAppended(data: seq<byte>, length: nat, bytes: seq<byte>)
    requires IsPadded(data, length) && length % 8 == 0
    ensures length <= 8 * |data| && IsPadded(data + bytes, length + 8 * |bytes|)
    ensures BitsIn(data + bytes, length + 8 * |bytes|) == BitsIn(data, length) + BytesBits(bytes)
    decreases |bytes|
  {
    hide BitAt, BitsOf;
    if bytes == [] {
      assert data + bytes == data;
    } else {
      var next := data + [bytes[0]];
      ByteIsAppended(data, length, bytes[0]);
      BytesAreAppended(next, length + 8, bytes[1..]);
      assert next + bytes[1..] == data + bytes;
      assert BitsIn(data, length) + BitsOf(bytes[0], 8) + BytesBits(bytes[1..]) == BitsIn(data, length) + BytesBits(bytes);
    }
  }

  // ------------------------------------------------------------ several bytes

  /** One byte after the other, each as `writeByte` puts it. */
  function WithBytes(data: seq<byte>, length: nat, bytes: seq<byte>): (next: seq<byte>)
    requires Fits(data, length)
    ensures |next| == |data| + |bytes| && Fits(next, length + 8 * |bytes|)
    decreases |bytes|
  {
    if bytes == [] then data else WithBytes(WithByte(data, length, bytes[0]), length + 8, bytes[1..])
  }

  lemma {:induction false} WithBytesAppended(data: seq<byte>, length: nat, bytes: seq<byte>, b: byte)
    requires Fits(data, length)
    ensures WithBytes(data, length, bytes + [b]) == WithByte(WithBytes(data, length, bytes), length + 8 * |bytes|, b)
    decreases |bytes|
  {
    hide WithByte, Fits;
    var more := bytes + [b];
    if bytes == [] {
      assert more[1..] == [];
    } else {
      assert more[1..] == bytes[1..] + [b];
      WithBytesAppended(WithByte(data, length, bytes[0]), length + 8, bytes[1..], b);
    }
  }

  predicate AllZero(bytes: seq<byte>) { forall k :: 0 <= k < |bytes| ==> bytes[k] == 0 }

  lemma ByteIsRight(data: seq<byte>, length: nat, value: byte)
    requires IsPadded(data, length) && (length % 4 == 0 || value == 0)
    ensures length <= 8 * |data| && IsPadded(WithByte(data, length, value), length + 8)
    ensures BitsIn(WithByte(data, length, value), length + 8) == BitsIn(data, length) + BitsOf(value, 8)
  {
    hide SplitByte, BitsIn, BitsOf;
    if length % 8 == 0 {
      ByteIsAppended(data, length, value);
    } else {
      SplitIsRight(data, length, value);
    }
  }

  lemma {:induction false} BytesAreRight(data: seq<byte>, length: nat, bytes: seq<byte>)
    requires IsPadded(data, length) && (length % 4 == 0 || AllZero(bytes))
    ensures length <= 8 * |data| && IsPadded(WithBytes(data, length, bytes), length + 8 * |bytes|)
    ensures BitsIn(WithBytes(data, length, bytes), length + 8 * |bytes|) == BitsIn(data, length) + BytesBits(bytes)
    decreases |bytes|
  {
    hide WithByte, BitAt, BitsOf;
    if bytes != [] {
      ByteIsRight(data, length, bytes[0]);
      BytesAreRight(WithByte(data, length, bytes[0]), length + 8, bytes[1..]);
      assert BitsIn(data, length) + BitsOf(bytes[0], 8) + BytesBits(bytes[1..]) == BitsIn(data, length) + BytesBits(bytes);
    }
  }

  /** Byte `k` behind the split: what is left of byte `k - 1`, and the first part of byte `k`. */
  function PlacedByte(last: byte, l1: nat, bytes: seq<byte>, k: nat): byte
    requires 0 < l1 < 8 && k <= |bytes| && bytes != []
  {
    var before := if k == 0 then last else LowBits(bytes[k - 1], l1);
    if k == |bytes| then before
    else
      OrOfBytes(before, HighBits(bytes[k], 8 - l1));
      Or(before, HighBits(bytes[k], 8 - l1))
  }

  /** All bytes but the last one stay as they are. */
  lemma {:induction false} OnlyLastIsTouched(data: seq<byte>, length: nat, bytes: seq<byte>, i: nat)
    requires Fits(data, length) && length % 8 != 0 && i + 1 < |data|
    ensures WithBytes(data, length, bytes)[i] == data[i]
    decreases |bytes|
  {
    if bytes != [] {
      FirstSplit(data, length, bytes);
      hide SplitByte, PlacedByte;
      var first := SplitByte(data, length, bytes[0]);
      OnlyLastIsTouched(first, length + 8, bytes[1..], i);
      assert first[i] == first[..|data| - 1][i];
    }
  }

  lemma {:induction false} SplitByteAt(data: seq<byte>, length: nat, bytes: seq<byte>, k: nat)
    requires Fits(data, length) && length % 8 != 0 && bytes != [] && k <= |bytes|
    ensures |data| >= 1 && WithBytes(data, length, bytes)[|data| - 1 + k] == PlacedByte(data[|data| - 1], length % 8, bytes, k)
    decreases |bytes|
  {
    FirstSplit(data, length, bytes);
    hide SplitByte, PlacedByte;
    var m, rest, first := |data| - 1, bytes[1..], SplitByte(data, length, bytes[0]);
    if rest != [] {
      if k == 0 {
        OnlyLastIsTouched(first, length + 8, rest, m);
      } else {
        SplitByteAt(first, length + 8, rest, k - 1);
        PlacedNext(data[m], length % 8, bytes, k);
      }
    }
  }

  lemma FirstSplit(data: seq<byte>, length: nat, bytes: seq<byte>)
    requires Fits(data, length) && length % 8 != 0 && bytes != []
    ensures var next := SplitByte(data, length, bytes[0]); var m := |data| - 1;
      && m >= 0 && next[..m] == data[..m] && next[m] == PlacedByte(data[m], length % 8, bytes, 0)
      && next[m + 1] == LowBits(bytes[0], length % 8) == PlacedByte(data[m], length % 8, bytes[..1], 1)
    ensures |bytes| == 1 ==> bytes[..1] == bytes
  {
    hide HighBits, LowBits, Or;
  }

  lemma PlacedNext(last: byte, l1: nat, bytes: seq<byte>, k: nat)
    requires 0 < l1 < 8 && 1 <= k <= |bytes| && bytes[1..] != []
    ensures PlacedByte(last, l1, bytes, k) == PlacedByte(LowBits(bytes[0], l1), l1, bytes[1..], k - 1)
  {
    hide HighBits, LowBits, Or;
  }

  lemma {:induction false} BytesBitsAt(bytes: seq<byte>, k: nat, j: nat)
    requires k < |bytes| && j < 8
    ensures BytesBits(bytes)[8 * k + j] == BitOf(bytes[k], 7 - j)
  {
    hide BitOf;
    if k > 0 {
      BytesBitsAt(bytes[1..], k - 1, j);
    }
  }

  // What the equality of written and expected bits says of two bytes in a row, and of the first and the last one.

  predicate JointAt(v: byte, w: byte, l1: nat, q: nat)
    requires 0 < l1 < 8 && q < 8
  {
    ((l1 <= q && BitOf(v, q - l1)) || BitOf(w, q + 8 - l1)) == if q < 8 - l1 then BitOf(w, q + l1) else BitOf(v, q - (8 - l1))
  }

  predicate BeginsAt(w: byte, l1: nat, q: nat)
    requires 0 < l1 < 8 && q < 8
  {
    q < 8 - l1 ==> BitOf(w, q + 8 - l1) == BitOf(w, q + l1)
  }

  predicate EndsAt(v: byte, l1: nat, q: nat)
    requires 0 < l1 < 8 && q < 8
  {
    8 - l1 <= q ==> (l1 <= q && BitOf(v, q - l1)) == BitOf(v, q - (8 - l1))
  }

  predicate Joint(v: byte, w: byte, l1: nat)
    requires 0 < l1 < 8
  {
    forall q {:trigger JointAt(v, w, l1, q)} :: 0 <= q < 8 ==> JointAt(v, w, l1, q)
  }

  predicate Begins(w: byte, l1: nat)
    requires 0 < l1 < 8
  {
    forall q {:trigger BeginsAt(w, l1, q)} :: 0 <= q < 8 ==> BeginsAt(w, l1, q)
  }

  predicate Ends(v: byte, l1: nat)
    requires 0 < l1 < 8
  {
    forall q {:trigger EndsAt(v, l1, q)} :: 0 <= q < 8 ==> EndsAt(v, l1, q)
  }

  predicate NoBits(v: byte, from: nat, to: nat) { forall q {:trigger BitOf(v, q)} :: from <= q < to ==> !BitOf(v, q) }

  lemma BeginsLow(w: byte, l1: nat)
    requires 0 < l1 < 4 && Begins(w, l1)
    ensures NoBits(w, l1, 8)
  {
    NoBitsAbove(w);
    hide BitOf;
    assert BeginsAt(w, l1, 0) && BeginsAt(w, l1, 1) && BeginsAt(w, l1, 2) && BeginsAt(w, l1, 3);
    assert BeginsAt(w, l1, 4) && BeginsAt(w, l1, 5) && BeginsAt(w, l1, 6) && BeginsAt(w, l1, 7);
  }

  lemma JointLow(v: byte, w: byte, l1: nat)
    requires 0 < l1 < 4 && Joint(v, w, l1) && NoBits(v, l1, 8)
    ensures NoBits(v, 0, 8) && NoBits(w, l1, 8)
  {
    NoBitsAbove(w);
    hide BitOf;
    assert JointAt(v, w, l1, 0) && JointAt(v, w, l1, 1) && JointAt(v, w, l1, 2) && JointAt(v, w, l1, 3);
    assert JointAt(v, w, l1, 4) && JointAt(v, w, l1, 5) && JointAt(v, w, l1, 6) && JointAt(v, w, l1, 7);
  }

  lemma EndsLow(v: byte, l1: nat)
    requires 0 < l1 < 4 && Ends(v, l1) && NoBits(v, l1, 8)
    ensures NoBits(v, 0, 8)
  {
    hide BitOf;
    assert EndsAt(v, l1, 4) && EndsAt(v, l1, 5) && EndsAt(v, l1, 6) && EndsAt(v, l1, 7);
  }

  lemma EndsHigh(v: byte, l1: nat)
    requires 4 < l1 < 8 && Ends(v, l1)
    ensures NoBits(v, 0, l1)
  {
    hide BitOf;
    assert EndsAt(v, l1, 0) && EndsAt(v, l1, 1) && EndsAt(v, l1, 2) && EndsAt(v, l1, 3);
    assert EndsAt(v, l1, 4) && EndsAt(v, l1, 5) && EndsAt(v, l1, 6) && EndsAt(v, l1, 7);
  }

  lemma JointHigh(v: byte, w: byte, l1: nat)
    requires 4 < l1 < 8 && Joint(v, w, l1) && NoBits(w, 0, l1)
    ensures NoBits(w, 0, 8) && NoBits(v, 0, l1)
  {
    NoBitsAbove(w);
    hide BitOf;
    assert JointAt(v, w, l1, 0) && JointAt(v, w, l1, 1) && JointAt(v, w, l1, 2) && JointAt(v, w, l1, 3);
    assert JointAt(v, w, l1, 4) && JointAt(v, w, l1, 5) && JointAt(v, w, l1, 6) && JointAt(v, w, l1, 7);
  }

  lemma BeginsHigh(w: byte, l1: nat)
    requires 4 < l1 < 8 && Begins(w, l1) && NoBits(w, 0, l1)
    ensures NoBits(w, 0, 8)
  {
    NoBitsAbove(w);
    hide BitOf;
    assert BeginsAt(w, l1, 0) && BeginsAt(w, l1, 1) && BeginsAt(w, l1, 2);
  }

  lemma NoBitsAbove(v: byte)
    ensures forall q: nat :: q >= 8 ==> !BitOf(v, q)
  {
    assert Pow2(8) == 256;
    hide BitOf, Pow2;
    forall q: nat | q >= 8 ensures !BitOf(v, q) { BitOfSmall(v, 8, q); }
  }

  lemma NoBitsIsZero(v: byte)
    requires NoBits(v, 0, 8)
    ensures v == 0
  {
    assert Pow2(8) == 256;
    hide BitOf, Pow2;
    forall m: nat ensures !BitOf(0, m) { NoBitOfZero(m); }
    assert BitsOf(v, 8) == BitsOf(0, 8);
    BitsOfIsInjective(v, 0, 8);
  }

  /** The equations for all bytes at once. */
  predicate Consistent(bytes: seq<byte>, l1: nat)
    requires 0 < l1 < 8
  {
    && (bytes != [] ==> Begins(bytes[0], l1) && Ends(bytes[|bytes| - 1], l1))
    && forall k :: 0 < k < |bytes| ==> Joint(bytes[k - 1], bytes[k], l1)
  }

  lemma {:induction false} ConsistentLow(bytes: seq<byte>, l1: nat, k: nat)
    requires 0 < l1 < 4 && Consistent(bytes, l1) && k < |bytes|
    ensures NoBits(bytes[k], l1, 8) && AllZero(bytes[..k])
  {
    hide Begins, Ends, Joint, NoBits;
    if k == 0 {
      BeginsLow(bytes[0], l1);
    } else {
      ConsistentLow(bytes, l1, k - 1);
      JointLow(bytes[k - 1], bytes[k], l1);
      NoBitsIsZero(bytes[k - 1]);
      assert bytes[..k] == bytes[..k - 1] + [bytes[k - 1]];
    }
  }

  lemma {:induction false} ConsistentHigh(bytes: seq<byte>, l1: nat, k: nat)
    requires 4 < l1 < 8 && Consistent(bytes, l1) && k < |bytes|
    ensures NoBits(bytes[k], 0, l1) && AllZero(bytes[k + 1..])
    decreases |bytes| - k
  {
    hide Begins, Ends, Joint, NoBits;
    if k == |bytes| - 1 {
      EndsHigh(bytes[k], l1);
    } else {
      ConsistentHigh(bytes, l1, k + 1);
      assert Joint(bytes[k + 1 - 1], bytes[k + 1], l1);
      JointHigh(bytes[k], bytes[k + 1], l1);
      NoBitsIsZero(bytes[k + 1]);
      assert bytes[k + 1..] == [bytes[k + 1]] + bytes[k + 2..];
    }
  }

  lemma ConsistentIsZero(bytes: seq<byte>, l1: nat)
    requires 0 < l1 < 8 && l1 != 4 && Consistent(bytes, l1)
    ensures AllZero(bytes)
  {
    hide Begins, Ends, Joint, NoBits;
    if bytes != [] {
      var n := |bytes| - 1;
      if l1 < 4 {
        ConsistentLow(bytes, l1, n);
        EndsLow(bytes[n], l1);
        NoBitsIsZero(bytes[n]);
        assert bytes == bytes[..n] + [bytes[n]];
      } else {
        ConsistentHigh(bytes, l1, 0);
        BeginsHigh(bytes[0], l1);
        NoBitsIsZero(bytes[0]);
        assert bytes == [bytes[0]] + bytes[1..];
      }
    }
  }

  lemma PlacedBitAt(last: byte, l1: nat, bytes: seq<byte>, k: nat, q: nat)
    requires 0 < l1 < 8 && k <= |bytes| && bytes != [] && q < 8
    ensures BitOf(PlacedByte(last, l1, bytes, k), q)
      <==> (if k == 0 then BitOf(last, q) else l1 <= q && BitOf(bytes[k - 1], q - l1)) || (k < |bytes| && BitOf(bytes[k], q + 8 - l1))
  {
    hide BitOf, HighBits, LowBits, Or;
    var before := if k == 0 then last else LowBits(bytes[k - 1], l1);
    if k > 0 { LowPart(bytes[k - 1], l1, q); }
    if k < |bytes| {
      HighPart(bytes[k], 8 - l1, q);
      BitOfOr(before, HighBits(bytes[k], 8 - l1), q);
    }
  }

  /** The bit that should stand in byte `k` behind the split. */
  lemma ExpectedBitAt(bytes: seq<byte>, l1: nat, k: nat, q: nat)
    requires 0 < l1 < 8 && q < 8 && k <= |bytes|
    ensures q < 8 - l1 && k < |bytes| ==> BytesBits(bytes)[8 * k + 7 - q - l1] == BitOf(bytes[k], q + l1)
    ensures q >= 8 - l1 && k > 0 ==> BytesBits(bytes)[8 * k + 7 - q - l1] == BitOf(bytes[k - 1], q - (8 - l1))
  {
    hide BitOf, BytesBits;
    if q < 8 - l1 {
      if k < |bytes| { BytesBitsAt(bytes, k, 7 - q - l1); }
    } else if k > 0 {
      BytesBitsAt(bytes, k - 1, 15 - q - l1);
    }
  }

  predicate WrittenRightly(data: seq<byte>, length: nat, bytes: seq<byte>)
    requires IsPadded(data, length)
  {
    BitsIn(WithBytes(data, length, bytes), length + 8 * |bytes|) == BitsIn(data, length) + BytesBits(bytes)
  }

  lemma WrittenBitAt(data: seq<byte>, length: nat, bytes: seq<byte>, k: nat, q: nat)
    requires IsPadded(data, length) && length % 8 != 0 && bytes != [] && WrittenRightly(data, length, bytes)
    requires k <= |bytes| && q < 8 && (if q < 8 - length % 8 then k < |bytes| else k > 0)
    ensures |data| >= 1
    ensures BitOf(PlacedByte(data[|data| - 1], length % 8, bytes, k), q)
      <==> if q < 8 - length % 8 then BitOf(bytes[k], q + length % 8) else BitOf(bytes[k - 1], q - (8 - length % 8))
  {
    hide BitOf, WithBytes, BytesBits, PlacedByte;
    var m, l1, next := |data| - 1, length % 8, WithBytes(data, length, bytes);
    SplitByteAt(data, length, bytes, k);
    ExpectedBitAt(bytes, l1, k, q);
    var i := 8 * (m + k) + 7 - q;
    assert i / 8 == m + k && 7 - i % 8 == q;
    assert BitAt(next, i) == BitOf(next[m + k], q);
    assert i - length == 8 * k + 7 - q - l1;
    assert BitsIn(next, length + 8 * |bytes|)[i] == BytesBits(bytes)[i - length];
  }

  lemma RightIsConsistent(data: seq<byte>, length: nat, bytes: seq<byte>)
    requires IsPadded(data, length) && length % 8 != 0 && bytes != [] && WrittenRightly(data, length, bytes)
    ensures Consistent(bytes, length % 8)
  {
    hide BitOf, PlacedByte, WrittenRightly;
    var l1, n, last := length % 8, |bytes|, data[|data| - 1];
    forall q | 0 <= q < 8 ensures BeginsAt(bytes[0], l1, q) {
      if q < 8 - l1 {
        WrittenBitAt(data, length, bytes, 0, q);
        PlacedBitAt(last, l1, bytes, 0, q);
        PaddingAt(data, length, q);
      }
    }
    var end := bytes[n - 1];
    forall q | 0 <= q < 8 ensures EndsAt(end, l1, q) {
      if 8 - l1 <= q {
        WrittenBitAt(data, length, bytes, n, q);
        PlacedBitAt(last, l1, bytes, n, q);
      }
    }
    forall k | 0 < k < n ensures Joint(bytes[k - 1], bytes[k], l1) {
      var v, w := bytes[k - 1], bytes[k];
      forall q | 0 <= q < 8 ensures JointAt(v, w, l1, q) {
        WrittenBitAt(data, length, bytes, k, q);
        PlacedBitAt(last, l1, bytes, k, q);
      }
    }
  }

  lemma PaddingAt(data: seq<byte>, length: nat, q: nat)
    requires IsPadded(data, length) && length % 8 != 0 && q < 8 - length % 8
    ensures |data| >= 1 && !BitOf(data[|data| - 1], q)
  {
    hide BitOf;
    var i := 8 * (|data| - 1) + 7 - q;
    assert i / 8 == |data| - 1 && 7 - i % 8 == q;
    assert !BitAt(data, i);
  }

  /** The bits of the bytes are appended if and only if they come to half a byte or a whole one, or the bytes are all zero. */
  lemma BytesAreWritten(data: seq<byte>, length: nat, bytes: seq<byte>)
    requires IsPadded(data, length)
    ensures WrittenRightly(data, length, bytes) <==> length % 4 == 0 || AllZero(bytes)
    ensures WrittenRightly(data, length, bytes) ==> IsPadded(WithBytes(data, length, bytes), length + 8 * |bytes|)
  {
    hide BitsIn, WithBytes, BytesBits, Consistent, AllZero;
    HalfOrWhole(length);
    NothingIsZero();
    if length % 4 == 0 || AllZero(bytes) {
      BytesAreRight(data, length, bytes);
    } else if WrittenRightly(data, length, bytes) {
      RightIsConsistent(data, length, bytes);
      ConsistentIsZero(bytes, length % 8);
    }
  }

  lemma NothingIsZero()
    ensures AllZero([])
  {
  }

  lemma HalfOrWhole(length: nat)
    ensures length % 4 == 0 <==> length % 8 == 0 || length % 8 == 4
  {
  }

  lemma ByteIsWritten(data: seq<byte>, length: nat, value: byte)
    requires IsPadded(data, length)
    ensures length <= 8 * |data|
    ensures length % 4 == 0 || value == 0 ==> IsPadded(WithByte(data, length, value), length + 8)
    ensures BitsIn(WithByte(data, length, value), length + 8) == BitsIn(data, length) + BitsOf(value, 8)
       <==> length % 4 == 0 || value == 0
  {
    hide BitsIn, BitsOf, WithByte, BitAt;
    BytesAreWritten(data, length, [value]);
    assert [value][1..] == [];
    assert WithBytes(data, length, [value]) == WithByte(data, length, value);
    assert BytesBits([value]) == BitsOf(value, 8) + [];
    assert AllZero([value]) <==> value == 0 by { assert [value][0] == value; }
  }
}
