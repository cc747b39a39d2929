/**
 * The bit streams in memory of inet/common/MemoryOutputStream and MemoryInputStream.
 *
 * Bytes are numbers below 256; the bitwise operators of the source are those of module Words, and a
 * conversion to a byte is the remainder modulo 256.  The meaning of a stream is its sequence of bits.
 */
module MemoryStreams {

  import opened Arithmetic
  import opened Words
  import opened ByteVectors
  import opened NBitMasks

  class MemoryOutputStream {
    var data: seq<byte>
    var length: nat

    ghost predicate Valid()
      reads this
    {
      Fits(data, length) && IsPadded(data, length)
    }

    ghost function Bits(): (bits: seq<bool>)
      reads this
      requires Valid()
      ensures |bits| == length
    {
      BitsIn(data, length)
    }

    constructor ()
      ensures Valid() && Bits() == []
    {
      data, length := [], 0;
    }

    predicate IsByteAligned()
      reads this
    {
      length % 8 == 0
    }

    method WriteBit(value: bool)
      requires Valid()
      modifies this
      ensures Valid() && Bits() == old(Bits()) + [value]
    {
      hide BitOf, Pow2, Or;
      ghost var bits := Bits();
      var byteIndex := length / 8;
      var bitIndex := length % 8;
      if bitIndex == 0 {
        ZeroByte(data, length);
        data := data + [0];
      }
      BitIsWritten(data, length, value);
      assert BitsIn(data, length) == bits;
      if value {
        data := data[byteIndex := Or(data[byteIndex], Pow2(7 - bitIndex))];
      }
      length := length + 1;
    }

    /**
     * Writes a byte.  Off a byte boundary the code splits the byte as if four bits were left in the last one:
     * the result is right in the middle of a byte, and elsewhere only for the byte 0.
     */
    method WriteByte(value: byte)
      requires Fits(data, length)
      modifies this
      ensures length == old(length) + 8 && data == WithByte(old(data), old(length), value)
      ensures old(Valid()) && (old(length) % 4 == 0 || value == 0) ==> Valid()
      ensures old(Valid()) ==> (Appended(BitsOf(value, 8), old(data), old(length)) <==> old(length) % 4 == 0 || value == 0)
    {
      hide BitOf, Or, BitsOf, BitsIn, IsPadded, HighBits, LowBits;
      if Valid() { ByteIsWritten(data, length, value); }
      if IsByteAligned() {
        data := data + [value];
      } else {
        var l1 := length % 8;
        var l2 := 8 - l1;
        NotEmpty(data, length);
        OrOfBytes(data[|data| - 1], HighBits(value, l2));
        data := data[|data| - 1 := Or(data[|data| - 1], HighBits(value, l2))];
        data := data + [LowBits(value, l1)];
      }
      length := length + 8;
    }

    /** The stream holds `bits` behind the bits it had. */
    ghost predicate Appended(bits: seq<bool>, was: seq<byte>, before: nat)
      reads this
    {
      length <= 8 * |data| && before <= 8 * |was| && BitsIn(data, length) == BitsIn(was, before) + bits
    }

    /** The big endian forms for 16, 24, 32, 48 and 64 bits: `n` bytes, the most significant one first. */
    method WriteUintBe(value: nat, n: nat)
      requires Fits(data, length)
      modifies this
      ensures length == old(length) + 8 * n && data == WithBytes(old(data), old(length), BeBytes(value, n))
      ensures old(Valid()) && (old(length) % 4 == 0 || value % Pow2(8 * n) == 0) ==> Valid()
      ensures old(Valid()) ==>
        (Appended(BitsOf(value, 8 * n), old(data), old(length)) <==> old(length) % 4 == 0 || value % Pow2(8 * n) == 0)
    {
      hide BitsOf, BitsIn, IsPadded, Shifted, WithByte, WithBytes, BeBytes, Pow2, AllZero;
      ghost var was, before, bytes := data, length, BeBytes(value, n);
      NoBytes(was, before, bytes);
      for i := n downto 0
        invariant Fits(data, length) && length == before + 8 * (n - i) && data == WithBytes(was, before, bytes[..n - i])
      {
        BeByteAt(value, n, n - i - 1);
        OneMoreByte(was, before, bytes, n - i - 1);
        WriteByte(ToByte(Shifted(value, i)));
      }
      assert bytes[..n] == bytes;
      BeBytesAre(value, n);
      if IsPadded(was, before) { BytesAreWritten(was, before, bytes); }
    }

    /** The little endian forms. */
    method WriteUintLe(value: nat, n: nat)
      requires Fits(data, length)
      modifies this
      ensures length == old(length) + 8 * n && data == WithBytes(old(data), old(length), LeBytes(value, n))
      ensures old(Valid()) && (old(length) % 4 == 0 || value % Pow2(8 * n) == 0) ==> Valid()
      ensures old(Valid()) ==>
        (Appended(LeBits(value, n), old(data), old(length)) <==> old(length) % 4 == 0 || value % Pow2(8 * n) == 0)
    {
      hide BitsOf, BitsIn, IsPadded, Shifted, WithByte, WithBytes, LeBits, Pow2, AllZero;
      ghost var was, before, bytes := data, length, LeBytes(value, n);
      NoBytes(was, before, bytes);
      for i := 0 to n
        invariant Fits(data, length) && length == before + 8 * i && data == WithBytes(was, before, bytes[..i])
      {
        OneMoreByte(was, before, bytes, i);
        WriteByte(ToByte(Shifted(value, i)));
      }
      assert bytes[..n] == bytes;
      LeBytesAre(value, n);
      if IsPadded(was, before) { BytesAreWritten(was, before, bytes); }
    }

    method WriteUint2(value: byte)
      requires Valid()
      modifies this
      ensures Valid() && Bits() == old(Bits()) + BitsOf(value, 2)
    {
      LowestBits(value);
      hide BitOf, And, BitsIn, IsPadded;
      WriteBit(And(value, 0x2) != 0);
      WriteBit(And(value, 0x1) != 0);
    }

    method WriteUint4(value: byte)
      requires Valid()
      modifies this
      ensures Valid() && Bits() == old(Bits()) + BitsOf(value, 4)
    {
      LowestBits(value);
      hide BitOf, And, BitsIn, IsPadded, BitsOf;
      ghost var bits, b := Bits(), BitsOf(value, 4);
      WriteBit(And(value, 0x8) != 0);
      assert Bits() == bits + b[..1];
      WriteBit(And(value, 0x4) != 0);
      assert Bits() == bits + b[..2];
      WriteBit(And(value, 0x2) != 0);
      assert Bits() == bits + b[..3];
      WriteBit(And(value, 0x1) != 0);
      assert b[..4] == b;
    }

    /** The mask begins as an `int`: up to 31 bits it is the right one, with 32 it is right for few values, and then undefined. */
    method WriteNBitsOfUint64Be(value: nat, n: nat) returns (ok: bool, ghost mask: nat)
      requires Valid()
      modifies this
      ensures Valid() && ok == (0 < n <= 64)
      ensures if ok then IsMask(n, mask) && Bits() == old(Bits()) + MaskedBits(value, mask, n) else Bits() == old(Bits())
      ensures ok && n <= 31 ==> Bits() == old(Bits()) + BitsOf(value, n)
      ensures n == 32 ==> (Bits() == old(Bits()) + BitsOf(value, n) <==> HasNoGap(value))
    {
      ok, mask := false, 0;
      if n == 0 || n > 64 {
        return;
      }
      hide BitsIn, BitsOf, IsPadded, IsMask, MaskedBits, HasNoGap;
      ghost var bits := Bits();
      var mul := FirstMask(n);
      WriteMasked(value, n, mul);
      FieldIsWritten(value, mul, n, bits);
      return true, mul;
    }

    method WriteMasked(value: nat, n: nat, mask: nat)
      requires Valid()
      modifies this
      ensures Valid() && Bits() == old(Bits()) + MaskedBits(value, mask, n)
    {
      hide BitOf, And, BitsIn, IsPadded, Pow2, After, MaskedBits;
      var mul := mask;
      AfterNext(mask, 0);
      ghost var bits, more := Bits(), MaskedBits(value, mask, n);
      for i := 0 to n
        invariant Valid() && Bits() == bits + more[..i] && mul == After(mask, i)
      {
        MaskedBitIs(value, mask, n, i);
        AfterNext(mask, i);
        WriteBit(And(value, mul) != 0);
        mul := mul / 2;
      }
      assert more[..n] == more;
    }

    method WriteBytes(bytes: seq<byte>)
      requires Valid() && IsByteAligned()
      modifies this
      ensures Valid() && Bits() == old(Bits()) + BytesBits(bytes)
    {
      BytesAreAppended(data, length, bytes);
      hide IsPadded;
      data := data + bytes;
      length := length + 8 * |bytes|;
    }

    method WriteString(s: seq<byte>)
      requires Valid() && IsByteAligned()
      modifies this
      ensures Valid() && Bits() == old(Bits()) + BytesBits(s) + BitsOf(0, 8)
    {
      hide BitsOf, BitsIn, IsPadded, BytesBits;
      WriteBytes(s);
      WriteByte(0);
    }

    method WriteBitRepeatedly(value: bool, count: nat)
      requires Valid()
      modifies this
      ensures Valid() && Bits() == old(Bits()) + seq(count, _ => value)
    {
      for i := 0 to count
        invariant Valid() && Bits() == old(Bits()) + seq(i, _ => value)
      {
        WriteBit(value);
      }
    }

    method WriteBits(bits: seq<bool>)
      requires Valid()
      modifies this
      ensures Valid() && Bits() == old(Bits()) + bits
    {
      for i := 0 to |bits|
        invariant Valid() && Bits() == old(Bits()) + bits[..i]
      {
        WriteBit(bits[i]);
      }
    }
  }

  // ------------------------------------------------------------ typed values as bits

  /** The bytes of a number, the least significant one first. */
  function LeBits(value: nat, n: nat): (bits: seq<bool>)
    ensures |bits| == 8 * n
  {
    if n == 0 then [] else LeBits(value, n - 1) + BitsOf(Shifted(value, n - 1), 8)
  }

  lemma LeTerm(x: nat, k: nat)
    ensures x * Pow2(k) >= 0
  {
    hide Pow2;
    MulMono(0, x, Pow2(k));
  }

  function LeNumber(bits: seq<bool>, n: nat): nat
    requires |bits| == 8 * n
  {
    if n == 0 then 0
    else
      LeTerm(NumberOf(bits[8 * (n - 1)..]), 8 * (n - 1));
      LeNumber(bits[..8 * (n - 1)], n - 1) + NumberOf(bits[8 * (n - 1)..]) * Pow2(8 * (n - 1))
  }

  lemma {:induction false} LeNumberOfLeBits(value: nat, n: nat)
    ensures LeNumber(LeBits(value, n), n) == value % Pow2(8 * n)
  {
    if n == 0 {
      assert Pow2(0) == 1;
    } else {
      var k := 8 * (n - 1);
      assert Pow2(8) == 256;
      Pow2Sum(k, 8);
      hide Pow2, NumberOf, BitsOf;
      LeNumberOfLeBits(value, n - 1);
      var bits := LeBits(value, n);
      assert bits[..k] == LeBits(value, n - 1) && bits[k..] == BitsOf(value / Pow2(k), 8);
      NumberOfBits(value / Pow2(k), 8);
      DivDiv(value, Pow2(k), 256);
    }
  }

  lemma BitsOfByte(x: int)
    ensures BitsOf(ToByte(x), 8) == BitsOf(x, 8)
  {
    hide BitOf;
    forall i | 0 <= i < 8 ensures BitsOf(ToByte(x), 8)[i] == BitsOf(x, 8)[i] { ToByteBits(x, 7 - i); }
  }

  /** A number without its lowest `i` bytes. */
  function Shifted(value: nat, i: nat): nat
  {
    DivShrinks(value, Pow2(8 * i));
    value / Pow2(8 * i)
  }

  /** The bytes of a number, the least significant one first, and the other way round. */
  function LeBytes(value: nat, n: nat): (bytes: seq<byte>)
    ensures |bytes| == n && forall i :: 0 <= i < n ==> bytes[i] == ToByte(Shifted(value, i))
  {
    seq(n, i requires 0 <= i < n => ToByte(Shifted(value, i)))
  }

  function BeBytes(value: nat, n: nat): (bytes: seq<byte>)
    ensures |bytes| == n
  {
    if n == 0 then [] else BeBytes(Shifted(value, 1), n - 1) + [ToByte(value)]
  }

  lemma NoBytes(data: seq<byte>, length: nat, bytes: seq<byte>)
    requires Fits(data, length)
    ensures WithBytes(data, length, bytes[..0]) == data
  {
  }

  lemma OneMoreByte(data: seq<byte>, length: nat, bytes: seq<byte>, i: nat)
    requires Fits(data, length) && i < |bytes|
    ensures WithBytes(data, length, bytes[..i + 1]) == WithByte(WithBytes(data, length, bytes[..i]), length + 8 * i, bytes[i])
  {
    WithBytesAppended(data, length, bytes[..i], bytes[i]);
    assert bytes[..i + 1] == bytes[..i] + [bytes[i]];
  }

  lemma ShiftedTwice(value: nat, i: nat)
    ensures Shifted(Shifted(value, 1), i) == Shifted(value, i + 1)
  {
    Pow2Sum(8, 8 * i);
    hide Pow2;
    DivDiv(value, Pow2(8), Pow2(8 * i));
  }

  lemma {:induction false} BeByteAt(value: nat, n: nat, i: nat)
    requires i < n
    ensures BeBytes(value, n)[i] == ToByte(Shifted(value, n - 1 - i))
  {
    if i == n - 1 {
      assert Pow2(0) == 1;
    } else {
      hide Shifted, ToByte;
      BeByteAt(Shifted(value, 1), n - 1, i);
      ShiftedTwice(value, n - 2 - i);
    }
  }

  lemma {:induction false} BytesBitsAppended(bytes: seq<byte>, b: byte)
    ensures BytesBits(bytes + [b]) == BytesBits(bytes) + BitsOf(b, 8)
  {
    hide BitsOf;
    if bytes == [] {
      assert [b][1..] == [];
    } else {
      assert (bytes + [b])[1..] == bytes[1..] + [b];
      BytesBitsAppended(bytes[1..], b);
    }
  }

  /** The bytes are the bits of the number, and all of them are zero only for its multiples beyond them. */
  lemma {:induction false} BeBytesAre(value: nat, n: nat)
    ensures BytesBits(BeBytes(value, n)) == BitsOf(value, 8 * n)
    ensures AllZero(BeBytes(value, n)) <==> value % Pow2(8 * n) == 0
  {
    if n == 0 {
      assert Pow2(0) == 1;
    } else {
      var front, b := BeBytes(Shifted(value, 1), n - 1), ToByte(value);
      assert Pow2(8) == 256;
      BytesBitsAppended(front, b);
      BitsOfByte(value);
      BitsOfSplit(value, 8 * n - 8, 8);
      Pow2Sum(8, 8 * n - 8);
      hide Pow2, BitsOf, BytesBits;
      BeBytesAre(Shifted(value, 1), n - 1);
      ZeroBySplit(value, 256, Pow2(8 * n - 8));
      AllZeroAppended(front, b);
    }
  }

  lemma AllZeroAppended(bytes: seq<byte>, b: byte)
    ensures AllZero(bytes + [b]) <==> AllZero(bytes) && b == 0
  {
    assert (bytes + [b])[|bytes|] == b;
    assert forall k :: 0 <= k < |bytes| ==> (bytes + [b])[k] == bytes[k];
  }

  /** A number is a multiple of a product if and only if its quotient by one factor is one of the other, without a rest. */
  lemma ZeroBySplit(x: nat, a: nat, b: nat)
    requires a > 0 && b > 0
    ensures a * b > 0 && (x % (a * b) == 0 <==> x % a == 0 && x / a % b == 0)
  {
    DivDiv(x, a, b);
    var k := x / a % b;
    DivDefinition(x / a, b);
    if k > 0 { MulAtLeast(k, a); }
  }

  lemma {:induction false} LeBytesAre(value: nat, n: nat)
    ensures BytesBits(LeBytes(value, n)) == LeBits(value, n)
    ensures AllZero(LeBytes(value, n)) <==> value % Pow2(8 * n) == 0
  {
    if n == 0 {
      assert Pow2(0) == 1;
    } else {
      var front, b := LeBytes(value, n - 1), ToByte(Shifted(value, n - 1));
      assert LeBytes(value, n) == front + [b];
      assert Pow2(8) == 256;
      BytesBitsAppended(front, b);
      BitsOfByte(Shifted(value, n - 1));
      Pow2Sum(8 * n - 8, 8);
      hide Pow2, BitsOf, BytesBits, LeBytes;
      LeBytesAre(value, n - 1);
      ZeroBySplit(value, Pow2(8 * n - 8), 256);
      AllZeroAppended(front, b);
    }
  }

  // ------------------------------------------------------------ reading

  class MemoryInputStream {
    const data: seq<byte>
    const length: nat
    var position: nat
    var isReadBeyondEnd: bool

    ghost predicate Valid()
      reads this
    {
      length <= 8 * |data| && position <= length
    }

    ghost function Bits(): (bits: seq<bool>)
      requires length <= 8 * |data|
      ensures |bits| == length
    {
      BitsIn(data, length)
    }

    constructor (data: seq<byte>, length: nat)
      requires length <= 8 * |data|
      ensures Valid() && this.data == data && this.length == length && position == 0 && !isReadBeyondEnd
    {
      this.data, this.length, position, isReadBeyondEnd := data, length, 0, false;
    }

    predicate IsByteAligned()
      reads this
    {
      position % 8 == 0
    }

    method ReadBit() returns (value: bool)
      requires Valid()
      modifies this
      ensures Valid() && position == Min(old(position) + 1, length)
      ensures isReadBeyondEnd == (old(isReadBeyondEnd) || old(position) + 1 > length)
      ensures value == (old(position) < length && Bits()[old(position)])
    {
      hide BitOf, And, Pow2;
      if position == length {
        isReadBeyondEnd := true;
        return false;
      }
      var i := position;
      var byteIndex := i / 8;
      var bitIndex := i % 8;
      position := position + 1;
      AndOfBit(data[byteIndex], 7 - bitIndex);
      return And(data[byteIndex], Pow2(7 - bitIndex)) != 0;
    }

    /** Reads a byte at any position; it is the byte that eight single bits would give. */
    method ReadByte() returns (value: byte)
      requires Valid()
      modifies this
      ensures Valid() && position == Min(old(position) + 8, length)
      ensures isReadBeyondEnd == (old(isReadBeyondEnd) || old(position) + 8 > length)
      ensures value == if old(position) + 8 > length then 0 else NumberOf(Bits()[old(position)..old(position) + 8])
    {
      hide NumberOf, Or, Pow2, BitsIn;
      if position + 8 > length {
        isReadBeyondEnd := true;
        position := length;
        return 0;
      }
      ByteIsRead(data, length, position);
      if IsByteAligned() {
        value := data[position / 8];
      } else {
        var l1 := position % 8;
        var l2 := 8 - l1;
        PairFits(data[(position - l1) / 8], data[(position + l2) / 8], l1);
        value := ToByte(data[(position - l1) / 8] * Pow2(l1));
        value := Or(value, data[(position + l2) / 8] / Pow2(l2));
      }
      position := position + 8;
    }

    method ReadUintBe(n: nat) returns (value: nat)
      requires Valid()
      modifies this
      ensures Valid() && position == Min(old(position) + 8 * n, length)
      ensures isReadBeyondEnd == (old(isReadBeyondEnd) || old(position) + 8 * n > length)
      ensures old(position) + 8 * n <= length ==> value == NumberOf(Bits()[old(position)..old(position) + 8 * n])
    {
      hide NumberOf, Or, Pow2, BitsIn;
      value := 0;
      ghost var from := position;
      NothingRead(Bits(), from, n);
      for i := n downto 0
        invariant Valid() && position == Min(from + 8 * (n - i), length)
        invariant isReadBeyondEnd == (old(isReadBeyondEnd) || from + 8 * (n - i) > length)
        invariant from + 8 * (n - i) <= length ==> value == NumberOf(Bits()[from..from + 8 * (n - i)]) * Pow2(8 * i)
      {
        ghost var to := from + 8 * (n - i) - 8;
        var b := ReadByte();
        if to + 8 <= length {
          LongerByte(Bits(), from, to);
          OrByteBelow(NumberOf(Bits()[from..to]), b, i);
        }
        ByteBelow(b, 8 * i);
        value := Or(value, b * Pow2(8 * i));
      }
      assert Pow2(0) == 1 by { Pow2Zero(); }
    }

    method ReadUintLe(n: nat) returns (value: nat)
      requires Valid()
      modifies this
      ensures Valid() && position == Min(old(position) + 8 * n, length)
      ensures isReadBeyondEnd == (old(isReadBeyondEnd) || old(position) + 8 * n > length)
      ensures old(position) + 8 * n <= length ==> value == LeNumber(Bits()[old(position)..old(position) + 8 * n], n)
    {
      hide NumberOf, LeNumber, Or, Pow2, BitsIn;
      value := 0;
      ghost var from := position;
      NothingReadLe(Bits(), from);
      for i := 0 to n
        invariant Valid() && position == Min(from + 8 * i, length)
        invariant isReadBeyondEnd == (old(isReadBeyondEnd) || from + 8 * i > length)
        invariant from + 8 * i <= length ==> value == LeNumber(Bits()[from..from + 8 * i], i)
      {
        var b := ReadByte();
        if from + 8 * i + 8 <= length {
          LongerLe(Bits(), from, i);
          LeNumberIsBounded(Bits()[from..from + 8 * i], i);
          OrByteAbove(value, b, i);
        }
        ByteBelow(b, 8 * i);
        value := Or(value, b * Pow2(8 * i));
      }
    }

    method ReadNBitsToUint64Be(n: nat) returns (ok: bool, value: nat, ghost mask: nat)
      requires Valid()
      modifies this
      ensures Valid() && ok == (0 < n <= 64) && position == if ok then Min(old(position) + n, length) else old(position)
      ensures isReadBeyondEnd == (old(isReadBeyondEnd) || (ok && old(position) + n > length))
      ensures ok && old(position) + n <= length ==>
        IsMask(n, mask) && value == Gathered(Bits()[old(position)..old(position) + n], mask)
      ensures ok && n <= 31 && old(position) + n <= length ==> value == NumberOf(Bits()[old(position)..old(position) + n])
      ensures n == 32 && old(position) + n <= length ==>
        (value == NumberOf(Bits()[old(position)..old(position) + n]) <==> AllClear(Bits()[old(position)..old(position) + n]))
    {
      ok, value, mask := false, 0, 0;
      if n == 0 || n > 64 {
        return;
      }
      hide NumberOf, BitsIn, IsMask, Gathered, AllClear;
      ghost var from := position;
      var mul := FirstMask(n);
      value := ReadMasked(n, mul);
      if from + n <= length { FieldIsRead(Bits()[from..from + n], mul); }
      return true, value, mul;
    }

    method ReadMasked(n: nat, mask: nat) returns (value: nat)
      requires Valid()
      modifies this
      ensures Valid() && position == Min(old(position) + n, length)
      ensures isReadBeyondEnd == (old(isReadBeyondEnd) || old(position) + n > length)
      ensures old(position) + n <= length ==> value == Gathered(Bits()[old(position)..old(position) + n], mask)
    {
      hide Or, Pow2, BitsIn, After, Gathered;
      value := 0;
      var mul := mask;
      AfterNext(mask, 0);
      ghost var from := position;
      NothingGathered(Bits(), from, mask);
      for i := 0 to n
        invariant Valid() && position == Min(from + i, length) && mul == After(mask, i)
        invariant isReadBeyondEnd == (old(isReadBeyondEnd) || from + i > length)
        invariant from + i <= length ==> value == Gathered(Bits()[from..from + i], mask)
      {
        var bit := ReadBit();
        AfterNext(mask, i);
        if from + i < length { OneMoreGathered(Bits(), from, i, mask); }
        if bit {
          value := Or(value, mul);
        }
        mul := mul / 2;
      }
    }

    method ReadUint4() returns (value: nat)
      requires Valid()
      modifies this
      ensures Valid() && position == Min(old(position) + 4, length)
      ensures isReadBeyondEnd == (old(isReadBeyondEnd) || old(position) + 4 > length)
      ensures old(position) + 4 <= length ==> value == NumberOf(Bits()[old(position)..old(position) + 4])
    {
      hide NumberOf, Or, Pow2, BitsIn, Partly;
      ghost var from, fits := position, position + 4 <= length;
      if fits {
        PartlySteps(Bits(), from, 4);
        FourSteps(Bits(), from);
      }
      value := 0;
      var b3 := ReadBit();
      if b3 { value := Or(value, 0x8); }
      assert fits ==> value == Partly(Bits(), from, 1, 4);
      var b2 := ReadBit();
      if b2 { value := Or(value, 0x4); }
      assert fits ==> value == Partly(Bits(), from, 2, 4);
      var b1 := ReadBit();
      if b1 { value := Or(value, 0x2); }
      assert fits ==> value == Partly(Bits(), from, 3, 4);
      var b0 := ReadBit();
      if b0 { value := Or(value, 0x1); }
    }

    method ReadUint2() returns (value: nat)
      requires Valid()
      modifies this
      ensures Valid() && position == Min(old(position) + 2, length)
      ensures isReadBeyondEnd == (old(isReadBeyondEnd) || old(position) + 2 > length)
      ensures old(position) + 2 <= length ==> value == NumberOf(Bits()[old(position)..old(position) + 2])
    {
      hide NumberOf, Or, Pow2, BitsIn, Partly;
      ghost var from, fits := position, position + 2 <= length;
      if fits {
        PartlySteps(Bits(), from, 2);
        TwoSteps(Bits(), from);
      }
      value := 0;
      var b1 := ReadBit();
      if b1 { value := Or(value, 0x2); }
      assert fits ==> value == Partly(Bits(), from, 1, 2);
      var b0 := ReadBit();
      if b0 { value := Or(value, 0x1); }
    }

    /** Reads bytes until a zero; a read beyond the end gives the zero that ends the loop there. */
    method ReadString() returns (s: seq<byte>)
      requires Valid()
      modifies this
      ensures Valid()
      ensures var scan := StringIn(Bits(), old(position));
        s == scan.text && position == scan.end && isReadBeyondEnd == (old(isReadBeyondEnd) || scan.beyond)
    {
      hide BitsIn, NumberOf;
      s := [];
      ghost var from, at := position, position;
      JoinedNothing(StringIn(Bits(), from));
      var b := ReadByte();
      while b != 0
        invariant Valid() && at <= length && StringIn(Bits(), from) == Joined(s, StringIn(Bits(), at))
        invariant position == Min(at + 8, length) && isReadBeyondEnd == (old(isReadBeyondEnd) || at + 8 > length)
        invariant b == if at + 8 > length then 0 else NumberOf(Bits()[at..at + 8])
        decreases length - at
      {
        JoinedNext(s, b, StringIn(Bits(), at + 8));
        s := s + [b];
        at := position;
        b := ReadByte();
      }
      assert s + [] == s;
    }
  }

  /** A number with one more byte below it, put together by `|=`. */
  lemma OrByteBelow(x: nat, b: byte, i: nat)
    ensures Or(x * Pow2(8 * (i + 1)), b * Pow2(8 * i)) == (x * 256 + b) * Pow2(8 * i)
  {
    Pow2Sum(8, 8 * i);
    assert Pow2(8) == 256;
    hide Pow2, Or;
    ByteBelow(b, 8 * i);
    DivUnique(x * Pow2(8 * (i + 1)), Pow2(8 * (i + 1)), x, 0);
    OrOfDisjoint(x * Pow2(8 * (i + 1)), b * Pow2(8 * i), 8 * (i + 1));
    MulDistr(x * 256, b, Pow2(8 * i));
    MulAssoc(x, 256, Pow2(8 * i));
  }

  lemma ByteBelow(b: byte, k: nat)
    ensures 0 <= b * Pow2(k) < Pow2(k + 8)
  {
    Pow2Sum(8, k);
    assert Pow2(8) == 256;
    hide Pow2;
    MulMono(0, b, Pow2(k));
    MulMono(b, 255, Pow2(k));
  }

  /** A number with one more byte above it. */
  lemma OrByteAbove(x: nat, b: byte, i: nat)
    requires x < Pow2(8 * i)
    ensures 0 <= b * Pow2(8 * i) && Or(x, b * Pow2(8 * i)) == x + b * Pow2(8 * i) < Pow2(8 * (i + 1))
  {
    Pow2Sum(8, 8 * i);
    assert Pow2(8) == 256;
    hide Pow2, Or;
    DivUnique(b * Pow2(8 * i), Pow2(8 * i), b, 0);
    MulMono(0, b, Pow2(8 * i));
    OrOfDisjoint(b * Pow2(8 * i), x, 8 * i);
    OrCommutes(x, b * Pow2(8 * i));
    MulMono(b + 1, 256, Pow2(8 * i));
    MulDistr(b, 1, Pow2(8 * i));
  }

  lemma OrBitBelow(x: nat, b: bool, k: nat)
    ensures (if b then Or(x * Pow2(k + 1), Pow2(k)) else x * Pow2(k + 1)) == (2 * x + if b then 1 else 0) * Pow2(k)
  {
    Pow2Next(k);
    hide Pow2, Or;
    DivUnique(x * Pow2(k + 1), Pow2(k + 1), x, 0);
    if b { OrOfDisjoint(x * Pow2(k + 1), Pow2(k), k + 1); }
    MulDistr(2 * x, if b then 1 else 0, Pow2(k));
    MulAssoc(x, 2, Pow2(k));
  }

  /** The number of a stretch of bits with the next `k` bits. */
  lemma LongerStretch(bits: seq<bool>, from: nat, to: nat, k: nat)
    requires from <= to && to + k <= |bits|
    ensures NumberOf(bits[from..to + k]) == NumberOf(bits[from..to]) * Pow2(k) + NumberOf(bits[to..to + k])
  {
    assert bits[from..to + k] == bits[from..to] + bits[to..to + k];
    NumberOfSum(bits[from..to], bits[to..to + k]);
  }

  lemma LongerByte(bits: seq<bool>, from: nat, to: nat)
    requires from <= to && to + 8 <= |bits|
    ensures NumberOf(bits[from..to + 8]) == NumberOf(bits[from..to]) * 256 + NumberOf(bits[to..to + 8])
  {
    assert Pow2(8) == 256;
    hide Pow2, NumberOf;
    LongerStretch(bits, from, to, 8);
  }

  lemma LongerBit(bits: seq<bool>, from: nat, to: nat)
    requires from <= to < |bits|
    ensures NumberOf(bits[from..to + 1]) == 2 * NumberOf(bits[from..to]) + if bits[to] then 1 else 0
  {
    assert bits[from..to + 1] == bits[from..to] + [bits[to]];
    NumberOfOneMore(bits[from..to], bits[to]);
  }

  lemma LongerLe(bits: seq<bool>, from: nat, i: nat)
    requires from + 8 * (i + 1) <= |bits|
    ensures LeNumber(bits[from..from + 8 * (i + 1)], i + 1)
         == LeNumber(bits[from..from + 8 * i], i) + NumberOf(bits[from + 8 * i..from + 8 * i + 8]) * Pow2(8 * i)
  {
    hide NumberOf, Pow2;
    var all := bits[from..from + 8 * (i + 1)];
    assert all[..8 * i] == bits[from..from + 8 * i] && all[8 * i..] == bits[from + 8 * i..from + 8 * i + 8];
  }

  lemma {:induction false} LeNumberIsBounded(bits: seq<bool>, n: nat)
    requires |bits| == 8 * n
    ensures LeNumber(bits, n) < Pow2(8 * n)
  {
    if n > 0 {
      var b := NumberOf(bits[8 * (n - 1)..]);
      assert Pow2(8) == 256;
      hide NumberOf, Pow2;
      LeNumberIsBounded(bits[..8 * (n - 1)], n - 1);
      OrByteAbove(LeNumber(bits[..8 * (n - 1)], n - 1), b, n - 1);
    }
  }

  lemma LowestBits(value: nat)
    ensures (And(value, 1) != 0) == BitOf(value, 0) && (And(value, 2) != 0) == BitOf(value, 1)
    ensures (And(value, 4) != 0) == BitOf(value, 2) && (And(value, 8) != 0) == BitOf(value, 3)
  {
    assert Pow2(0) == 1 && Pow2(1) == 2 && Pow2(2) == 4 && Pow2(3) == 8;
    hide Pow2, And, BitOf;
    AndOfBit(value, 0);
    AndOfBit(value, 1);
    AndOfBit(value, 2);
    AndOfBit(value, 3);
  }

  function Joined(s: seq<byte>, scan: StringScan): StringScan { scan.(text := s + scan.text) }

  lemma JoinedNothing(scan: StringScan)
    ensures Joined([], scan) == scan
  {
  }

  lemma JoinedNext(s: seq<byte>, b: byte, rest: StringScan)
    ensures Joined(s, rest.(text := [b] + rest.text)) == Joined(s + [b], rest)
  {
  }

  lemma Pow2Zero()
    ensures Pow2(0) == 1
  {
  }

  lemma NothingRead(bits: seq<bool>, from: nat, n: nat)
    requires from <= |bits|
    ensures NumberOf(bits[from..from]) * Pow2(8 * n) == 0
  {
  }

  /** The first `i` of `n` bits, at the place that they have in the number of all of them. */
  function Partly(bits: seq<bool>, from: nat, i: nat, n: nat): nat
    requires from + i <= |bits| && i <= n
  {
    NumberOf(bits[from..from + i]) * Pow2(n - i)
  }

  lemma PartlyBounds(bits: seq<bool>, from: nat, n: nat)
    requires from <= |bits|
    ensures Partly(bits, from, 0, n) == 0
    ensures from + n <= |bits| ==> Partly(bits, from, n, n) == NumberOf(bits[from..from + n])
  {
    assert Pow2(0) == 1;
  }

  lemma PartlyNext(bits: seq<bool>, from: nat, i: nat, n: nat)
    requires from + i < |bits| && i < n
    ensures Partly(bits, from, i + 1, n) == if bits[from + i] then Or(Partly(bits, from, i, n), Pow2(n - 1 - i)) else Partly(bits, from, i, n)
  {
    hide NumberOf, Or, Pow2;
    LongerBit(bits, from, from + i);
    OrBitBelow(NumberOf(bits[from..from + i]), bits[from + i], n - 1 - i);
  }

  lemma PartlyStep(bits: seq<bool>, from: nat, i: nat, n: nat, mask: nat)
    requires from + i < |bits| && i < n && mask == Pow2(n - 1 - i)
    ensures Partly(bits, from, i + 1, n) == if bits[from + i] then Or(Partly(bits, from, i, n), mask) else Partly(bits, from, i, n)
  {
    hide Partly, Or, Pow2;
    PartlyNext(bits, from, i, n);
  }

  lemma PartlySteps(bits: seq<bool>, from: nat, n: nat)
    requires from + n <= |bits|
    ensures Partly(bits, from, 0, n) == 0 && Partly(bits, from, n, n) == NumberOf(bits[from..from + n])
    ensures Pow2(0) == 1 && Pow2(1) == 2 && Pow2(2) == 4 && Pow2(3) == 8
  {
    PartlyBounds(bits, from, n);
  }

  lemma FourSteps(bits: seq<bool>, from: nat)
    requires from + 4 <= |bits|
    ensures Partly(bits, from, 1, 4) == if bits[from] then Or(Partly(bits, from, 0, 4), 8) else Partly(bits, from, 0, 4)
    ensures Partly(bits, from, 2, 4) == if bits[from + 1] then Or(Partly(bits, from, 1, 4), 4) else Partly(bits, from, 1, 4)
    ensures Partly(bits, from, 3, 4) == if bits[from + 2] then Or(Partly(bits, from, 2, 4), 2) else Partly(bits, from, 2, 4)
    ensures Partly(bits, from, 4, 4) == if bits[from + 3] then Or(Partly(bits, from, 3, 4), 1) else Partly(bits, from, 3, 4)
  {
    PartlySteps(bits, from, 0);
    hide Partly, Or, Pow2;
    PartlyStep(bits, from, 0, 4, 8);
    PartlyStep(bits, from, 1, 4, 4);
    PartlyStep(bits, from, 2, 4, 2);
    PartlyStep(bits, from, 3, 4, 1);
  }

  lemma TwoSteps(bits: seq<bool>, from: nat)
    requires from + 2 <= |bits|
    ensures Partly(bits, from, 1, 2) == if bits[from] then Or(Partly(bits, from, 0, 2), 2) else Partly(bits, from, 0, 2)
    ensures Partly(bits, from, 2, 2) == if bits[from + 1] then Or(Partly(bits, from, 1, 2), 1) else Partly(bits, from, 1, 2)
  {
    PartlySteps(bits, from, 0);
    hide Partly, Or, Pow2;
    PartlyStep(bits, from, 0, 2, 2);
    PartlyStep(bits, from, 1, 2, 1);
  }

  lemma NothingReadLe(bits: seq<bool>, from: nat)
    requires from <= |bits|
    ensures LeNumber(bits[from..from], 0) == 0
  {
  }

  function Min(a: int, b: int): int { if a <= b then a else b }

  /** The byte at a position, as the code puts it together. */
  function ByteAt(data: seq<byte>, position: nat): (value: byte)
    requires position + 8 <= 8 * |data|
  {
    var l1 := position % 8;
    if l1 == 0 then data[position / 8] else Pair(data[(position - l1) / 8], data[(position + 8 - l1) / 8], l1)
  }

  function Pair(a: byte, b: byte, l1: nat): (value: byte)
    requires 0 < l1 < 8
  {
    PairFits(a, b, l1);
    Or(ToByte(a * Pow2(l1)), b / Pow2(8 - l1))
  }

  lemma PairFits(a: byte, b: byte, l1: nat)
    requires 0 < l1 < 8
    ensures 0 <= b / Pow2(8 - l1) < 256 && 0 <= Or(ToByte(a * Pow2(l1)), b / Pow2(8 - l1)) < 256
  {
    hide Or, Pow2, ToByte;
    DivShrinks(b, Pow2(8 - l1));
    OrOfBytes(ToByte(a * Pow2(l1)), b / Pow2(8 - l1));
  }

  lemma BitOfPair(a: byte, b: byte, l1: nat, m: nat)
    requires 0 < l1 < 8 && m < 8
    ensures BitOf(Pair(a, b, l1), m) <==> if m >= l1 then BitOf(a, m - l1) else BitOf(b, m + 8 - l1)
  {
    assert Pow2(8) == 256;
    PairFits(a, b, l1);
    hide Or, Pow2, BitOf;
    var high, low := ToByte(a * Pow2(l1)), b / Pow2(8 - l1);
    BitOfOr(high, low, m);
    ToByteBits(a * Pow2(l1), m);
    BitOfProduct(a, l1, m);
    BitOfQuotient(b, 8 - l1, m);
    if m >= l1 { BitOfSmall(b, 8, m + 8 - l1); }
  }

  lemma ByteIsRead(data: seq<byte>, length: nat, position: nat)
    requires length <= 8 * |data| && position + 8 <= length
    ensures ByteAt(data, position) == NumberOf(BitsIn(data, length)[position..position + 8])
  {
    assert Pow2(8) == 256;
    hide BitOf, Pow2, Pair, NumberOf;
    var value, bits := ByteAt(data, position), BitsIn(data, length)[position..position + 8];
    forall j | 0 <= j < 8 ensures BitsOf(value, 8)[j] == bits[j] {
      BitOfByteAt(data, position, j);
    }
    assert BitsOf(value, 8) == bits;
    NumberOfItsBits(value, 8);
  }

  lemma BitOfByteAt(data: seq<byte>, position: nat, j: nat)
    requires position + 8 <= 8 * |data| && j < 8
    ensures BitOf(ByteAt(data, position), 7 - j) == BitAt(data, position + j)
  {
    hide BitOf, Pair;
    var l1 := position % 8;
    if l1 != 0 {
      BitOfPair(data[(position - l1) / 8], data[(position + 8 - l1) / 8], l1, 7 - j);
    }
  }

  // ------------------------------------------------------------ strings

  /** What is read up to a zero byte, or up to the end of the bits. */
  datatype StringScan = StringScan(text: seq<byte>, end: nat, beyond: bool)

  function StringIn(bits: seq<bool>, from: nat): (r: StringScan)
    requires from <= |bits|
    ensures from <= r.end <= |bits|
    decreases |bits| - from
  {
    if from + 8 > |bits| then StringScan([], |bits|, true)
    else
      var b := ByteOf(bits[from..from + 8]);
      if b == 0 then StringScan([], from + 8, false)
      else var rest := StringIn(bits, from + 8); StringScan([b] + rest.text, rest.end, rest.beyond)
  }

  function ByteOf(bits: seq<bool>): (b: byte)
    requires |bits| == 8
    ensures b == NumberOf(bits)
  {
    assert Pow2(8) == 256;
    NumberOf(bits)
  }

  /** A string that has been written with its terminator is what is read. */
  lemma {:induction false} StringIsRead(bits: seq<bool>, from: nat, s: seq<byte>)
    requires from + 8 * |s| + 8 <= |bits| && 0 !in s
    requires bits[from..from + 8 * |s| + 8] == BytesBits(s) + BitsOf(0, 8)
    ensures StringIn(bits, from) == StringScan(s, from + 8 * |s| + 8, false)
    decreases |s|
  {
    assert Pow2(8) == 256;
    hide Pow2, NumberOf, BitsOf;
    var all := bits[from..from + 8 * |s| + 8];
    if s == [] {
      assert all == BitsOf(0, 8);
      NumberOfItsBits(0, 8);
    } else {
      assert all[..8] == BitsOf(s[0], 8) == bits[from..from + 8];
      NumberOfItsBits(s[0], 8);
      assert bits[from + 8..from + 8 + 8 * |s[1..]| + 8] == all[8..] == BytesBits(s[1..]) + BitsOf(0, 8);
      assert s[0] in s;
      StringIsRead(bits, from + 8, s[1..]);
    }
  }

  lemma {:induction false} StringHasNoZero(bits: seq<bool>, from: nat)
    requires from <= |bits|
    ensures 0 !in StringIn(bits, from).text
    decreases |bits| - from
  {
    if from + 8 <= |bits| {
      StringHasNoZero(bits, from + 8);
    }
  }

  /** A string that has been written is read back if and only if it has no zero byte inside. */
  lemma StringRoundTrip(bits: seq<bool>, from: nat, s: seq<byte>)
    requires from + 8 * |s| + 8 <= |bits| && bits[from..from + 8 * |s| + 8] == BytesBits(s) + BitsOf(0, 8)
    ensures StringIn(bits, from).text == s <==> 0 !in s
  {
    hide StringIn, BytesBits, BitsOf;
    StringHasNoZero(bits, from);
    if 0 !in s {
      StringIsRead(bits, from, s);
    }
  }

  lemma ZeroByte(data: seq<byte>, length: nat)
    requires IsPadded(data, length) && length % 8 == 0
    ensures forall i :: length <= i < 8 * |data + [0]| ==> !BitAt(data + [0], i)
    ensures length <= 8 * |data| && BitsIn(data + [0], length) == BitsIn(data, length)
  {
    hide BitOf;
    var next := data + [0];
    forall i | length <= i < 8 * |next| ensures !BitAt(next, i) {
      NoBitOfZero(7 - i % 8);
    }
  }

  // ------------------------------------------------------------ writing and reading back

  datatype Kind = Bit | Uint2 | Uint4 | Byte | UintBe(n: nat) | UintLe(n: nat) | NBits(n: nat) | Chars

  datatype Field = Number(kind: Kind, value: nat) | Text(chars: seq<byte>)

  function KindOf(f: Field): Kind { if f.Text? then Chars else f.kind }

  function Width(kind: Kind): nat
  {
    match kind
    case Bit => 1
    case Uint2 => 2
    case Uint4 => 4
    case Byte => 8
    case UintBe(n) => 8 * n
    case UintLe(n) => 8 * n
    case NBits(n) => n
    case Chars => 0
  }

  function Encoded(f: Field): seq<bool>
  {
    match f
    case Text(chars) => BytesBits(chars) + BitsOf(0, 8)
    case Number(kind, value) => if kind.UintLe? then LeBits(value, kind.n) else BitsOf(value, Width(kind))
  }

  /** What can be written at a position: the value fits, bytes begin in the middle of a byte at least, and strings at a byte. */
  predicate CanBeWritten(f: Field, at: nat)
  {
    match f
    case Text(chars) => at % 8 == 0 && 0 !in chars
    case Number(kind, value) =>
      && !kind.Chars? && value < Pow2(Width(kind))
      && (kind.Byte? || kind.UintBe? || kind.UintLe? ==> at % 4 == 0)
      && (kind.NBits? ==> 1 <= kind.n <= 31)
  }

  function EncodedAll(fields: seq<Field>): seq<bool>
  {
    if fields == [] then [] else EncodedAll(fields[..|fields| - 1]) + Encoded(fields[|fields| - 1])
  }

  predicate AllCanBeWritten(fields: seq<Field>)
  {
    fields == [] || (AllCanBeWritten(fields[..|fields| - 1]) && CanBeWritten(fields[|fields| - 1], |EncodedAll(fields[..|fields| - 1])|))
  }

  method Write(out: MemoryOutputStream, f: Field)
    requires out.Valid() && CanBeWritten(f, out.length)
    modifies out
    ensures out.Valid() && out.Bits() == old(out.Bits()) + Encoded(f)
  {
    hide BitsOf, BitsIn, IsPadded, Pow2, LeBits, BytesBits;
    match f {
      case Text(chars) => {
        out.WriteString(chars);
      }
      case Number(kind, value) => {
        SmallPowers();
        match kind {
          case Bit => {
            OneBit(value);
            out.WriteBit(value != 0);
          }
          case Uint2 => { out.WriteUint2(value); }
          case Uint4 => { out.WriteUint4(value); }
          case Byte => { out.WriteByte(value); }
          case UintBe(n) => { out.WriteUintBe(value, n); }
          case UintLe(n) => { out.WriteUintLe(value, n); }
          case NBits(n) => { var _, _ := out.WriteNBitsOfUint64Be(value, n); }
        }
      }
    }
  }

  function Decoded(kind: Kind, bits: seq<bool>): nat
    requires |bits| == Width(kind)
  {
    if kind.UintLe? then LeNumber(bits, kind.n) else NumberOf(bits)
  }

  method ReadNumber(input: MemoryInputStream, kind: Kind) returns (value: nat)
    requires input.Valid() && !kind.Chars? && (kind.NBits? ==> 1 <= kind.n <= 31)
    requires input.position + Width(kind) <= input.length
    modifies input
    ensures input.Valid() && input.position == old(input.position) + Width(kind)
    ensures input.isReadBeyondEnd == old(input.isReadBeyondEnd)
    ensures value == Decoded(kind, input.Bits()[old(input.position)..old(input.position) + Width(kind)])
  {
    hide BitsIn, Pow2, LeNumber, NumberOf;
    match kind {
      case Bit => {
        ghost var at, bits := input.position, input.Bits();
        var b := input.ReadBit();
        value := if b then 1 else 0;
        NumberOfOneBit(b);
        OneBitStretch(bits, at);
        assert b == bits[at];
      }
      case Uint2 => { value := input.ReadUint2(); }
      case Uint4 => { value := input.ReadUint4(); }
      case Byte => { value := input.ReadByte(); }
      case UintBe(n) => { value := input.ReadUintBe(n); }
      case UintLe(n) => { value := input.ReadUintLe(n); }
      case NBits(n) => {
        var ok;
        ghost var mask;
        ok, value, mask := input.ReadNBitsToUint64Be(n);
      }
    }
  }

  lemma OneBitStretch(bits: seq<bool>, i: nat)
    requires i < |bits|
    ensures bits[i..i + 1] == [bits[i]]
  {
  }

  lemma NumberOfOneBit(b: bool)
    ensures NumberOf([b]) == if b then 1 else 0
  {
  }

  /** Reads a field of a kind; `f` is the field that is there. */
  method Read(input: MemoryInputStream, kind: Kind, ghost f: Field) returns (r: Field)
    requires input.Valid() && kind == KindOf(f) && exists at :: CanBeWritten(f, at)
    requires input.position + |Encoded(f)| <= input.length
    requires input.Bits()[input.position..input.position + |Encoded(f)|] == Encoded(f)
    modifies input
    ensures input.Valid() && r == f && input.position == old(input.position) + |Encoded(f)|
    ensures input.isReadBeyondEnd == old(input.isReadBeyondEnd)
  {
    NumberIsRead(f);
    hide Encoded, CanBeWritten, BitsIn, Decoded, StringIn, Width;
    if kind.Chars? {
      TextIsRead(input.Bits(), input.position, f);
      var s := input.ReadString();
      r := Text(s);
    } else {
      var value := ReadNumber(input, kind);
      r := Number(kind, value);
    }
  }

  lemma SmallPowers()
    ensures Pow2(1) == 2 && Pow2(2) == 4 && Pow2(4) == 16 && Pow2(8) == 256
  {
  }

  lemma OneBit(value: nat)
    ensures value < 2 ==> BitsOf(value, 1) == [value != 0]
  {
    BitZero(value);
    hide BitOf;
  }

  lemma NumberIsRead(f: Field)
    requires exists at :: CanBeWritten(f, at)
    ensures f.Text? || (!f.kind.Chars? && |Encoded(f)| == Width(f.kind) && (f.kind.NBits? ==> 1 <= f.kind.n <= 31))
    ensures f.Number? ==> f.value == Decoded(f.kind, Encoded(f))
  {
    if f.Number? {
      hide BitsOf, Pow2, LeNumber, NumberOf, LeBits;
      if f.kind.UintLe? {
        LeNumberOfLeBits(f.value, f.kind.n);
        DivUnique(f.value, Pow2(8 * f.kind.n), 0, f.value);
      } else {
        NumberOfItsBits(f.value, Width(f.kind));
      }
    }
  }

  lemma TextIsRead(bits: seq<bool>, from: nat, f: Field)
    requires f.Text? && (exists at :: CanBeWritten(f, at)) && from + |Encoded(f)| <= |bits|
    requires bits[from..from + |Encoded(f)|] == Encoded(f)
    ensures StringIn(bits, from) == StringScan(f.chars, from + |Encoded(f)|, false)
  {
    hide StringIn, BytesBits, BitsOf;
    StringIsRead(bits, from, f.chars);
  }

  lemma {:induction false} EncodedStretch(fields: seq<Field>, i: nat)
    requires i < |fields|
    ensures |EncodedAll(fields[..i])| + |Encoded(fields[i])| == |EncodedAll(fields[..i + 1])| <= |EncodedAll(fields)|
    ensures EncodedAll(fields)[|EncodedAll(fields[..i])|..|EncodedAll(fields[..i + 1])|] == Encoded(fields[i])
    decreases |fields|
  {
    hide Encoded;
    assert fields[..i + 1][..i] == fields[..i];
    var n := |fields| - 1;
    if i == n {
      assert fields[..i + 1] == fields;
    } else {
      var front := fields[..n];
      EncodedStretch(front, i);
      assert front[..i] == fields[..i] && front[..i + 1] == fields[..i + 1];
    }
  }

  lemma {:induction false} WritableAt(fields: seq<Field>, i: nat)
    requires i < |fields| && AllCanBeWritten(fields)
    ensures CanBeWritten(fields[i], |EncodedAll(fields[..i])|)
    decreases |fields|
  {
    hide CanBeWritten, Encoded, EncodedAll;
    var front := fields[..|fields| - 1];
    if i < |fields| - 1 {
      WritableAt(front, i);
      assert front[..i] == fields[..i];
    }
  }

  /** Any sequence of fields is read back from what has been written, up to the end and not beyond it. */
  method RoundTrip(fields: seq<Field>) returns (read: seq<Field>, input: MemoryInputStream)
    requires AllCanBeWritten(fields)
    ensures read == fields && input.Valid() && input.Bits() == EncodedAll(fields)
    ensures input.position == input.length && !input.isReadBeyondEnd
  {
    hide CanBeWritten, Encoded, EncodedAll, BitsIn, IsPadded;
    var out := new MemoryOutputStream();
    NothingEncoded();
    for i := 0 to |fields|
      invariant fresh(out) && out.Valid() && out.Bits() == EncodedAll(fields[..i])
    {
      WritableAt(fields, i);
      EncodedNext(fields, i);
      Write(out, fields[i]);
    }
    assert fields[..|fields|] == fields;
    PaddedIsLong(out.data, out.length);
    input := new MemoryInputStream(out.data, out.length);
    read := [];
    for i := 0 to |fields|
      invariant fresh(input) && input.Valid() && !input.isReadBeyondEnd && input.data == out.data && input.length == out.length
      invariant input.Bits() == EncodedAll(fields) && input.position == |EncodedAll(fields[..i])|
      invariant read == fields[..i]
    {
      WritableAt(fields, i);
      EncodedStretch(fields, i);
      var f := Read(input, KindOf(fields[i]), fields[i]);
      read := read + [f];
    }
  }

  lemma NothingEncoded()
    ensures EncodedAll([]) == []
  {
  }

  lemma EncodedNext(fields: seq<Field>, i: nat)
    requires i < |fields|
    ensures EncodedAll(fields[..i + 1]) == EncodedAll(fields[..i]) + Encoded(fields[i])
  {
    assert fields[..i + 1][..i] == fields[..i];
  }

  lemma PaddedIsLong(data: seq<byte>, length: nat)
    requires IsPadded(data, length)
    ensures length <= 8 * |data|
  {
  }
}
