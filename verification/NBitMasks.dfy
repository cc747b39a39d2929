/**
 * The masks of the fields of n bits in inet/common/MemoryOutputStream and MemoryInputStream.
 *
 * The mask of the first bit is `1 << (n - 1)`, shifted as a 32-bit `int` and then widened to 64 bits.  That is
 * the right one up to 31 bits; with 32 bits it is negative before it is widened, and beyond that the shift
 * has no defined value: any `int` may come out.
 */
module NBitMasks {

  import opened Arithmetic
  import opened Words

  predicate IsMask(n: nat, mask: nat)
  {
    if n == 0 then false
    else if n <= 31 then mask == Pow2(n - 1)
    else if n == 32 then mask == Widened()
    else mask < Pow2(31) || Widened() <= mask < Pow2(64)
  }

  /** The least `int` as a 64-bit number. */
  function Widened(): nat
  {
    assert (Pow2(33) - 1) * Pow2(31) >= 0 by { hide Pow2; MulMono(0, Pow2(33) - 1, Pow2(31)); }
    (Pow2(33) - 1) * Pow2(31)
  }

  lemma WidenedIs()
    ensures Widened() == Pow2(64) - Pow2(31)
  {
    hide Pow2;
    Pow2Sum(33, 31);
    MulDistr(Pow2(33), 1, Pow2(31));
  }

  /** `1 << (n - 1)`. */
  method FirstMask(n: nat) returns (mask: nat)
    requires 0 < n <= 64
    ensures IsMask(n, mask)
  {
    if n <= 31 {
      mask := Pow2(n - 1);
    } else if n == 32 {
      mask := Widened();
    } else {
      assert 0 < Pow2(31);
      assert IsMask(n, 0);
      mask :| IsMask(n, mask);
    }
  }

  lemma Shrinks(mask: nat, i: nat)
    ensures 0 <= mask / Pow2(i) <= mask
  {
    hide Pow2;
    DivShrinks(mask, Pow2(i));
  }

  /** The mask after `i` shifts to the right. */
  function After(mask: nat, i: nat): nat
  {
    Shrinks(mask, i);
    mask / Pow2(i)
  }

  lemma AfterNext(mask: nat, i: nat)
    ensures After(mask, 0) == mask && After(mask, i) / 2 == After(mask, i + 1)
  {
    assert Pow2(0) == 1;
    DivByNextPow2(mask, i);
  }

  /** The bits that the loop of the writer writes. */
  function MaskedBits(value: nat, mask: nat, n: nat): (bits: seq<bool>)
    ensures |bits| == n
  {
    seq(n, i requires 0 <= i < n => And(value, After(mask, i)) != 0)
  }

  /** The number that the loop of the reader gathers from bits. */
  function Gathered(bits: seq<bool>, mask: nat): nat
  {
    if bits == [] then 0
    else
      var front := Gathered(bits[..|bits| - 1], mask);
      if bits[|bits| - 1] then Or(front, After(mask, |bits| - 1)) else front
  }

  // ------------------------------------------------------------ bit by bit

  lemma {:induction false} NonzeroHasBit(x: nat) returns (k: nat)
    requires x != 0
    ensures BitOf(x, k)
  {
    if x % 2 == 1 {
      BitZero(x);
      k := 0;
    } else {
      k := NonzeroHasBit(x / 2);
      BitOfHalf(x, k + 1);
      k := k + 1;
    }
  }

  predicate Meets(value: nat, mask: nat, i: nat, k: nat) { BitOf(value, k) && BitOf(mask, k + i) }

  /** A masked bit is set if and only if some bit of the value meets one of the mask. */
  lemma MaskedBitAt(value: nat, mask: nat, n: nat, i: nat)
    requires i < n
    ensures MaskedBits(value, mask, n)[i] <==> exists k: nat :: Meets(value, mask, i, k)
  {
    hide BitOf, Pow2, And;
    var x := And(value, After(mask, i));
    if x != 0 {
      var k := NonzeroHasBit(x);
      BitOfAnd(value, After(mask, i), k);
      BitOfQuotient(mask, i, k);
      assert Meets(value, mask, i, k);
    }
    forall k: nat | Meets(value, mask, i, k) ensures x != 0 {
      BitOfAnd(value, After(mask, i), k);
      BitOfQuotient(mask, i, k);
      NoBitOfZero(k);
    }
  }

  predicate Contributes(bits: seq<bool>, mask: nat, k: nat, i: nat)
  {
    i < |bits| && bits[i] && BitOf(mask, k + i)
  }

  /** A bit of the gathered number is set if and only if some bit that was read meets one of the mask. */
  lemma {:induction false} GatheredBitAt(bits: seq<bool>, mask: nat, k: nat)
    ensures BitOf(Gathered(bits, mask), k) <==> exists i: nat :: Contributes(bits, mask, k, i)
  {
    hide BitOf, Pow2, Or;
    if bits == [] {
      NoBitOfZero(k);
    } else {
      var n := |bits| - 1;
      var front := bits[..n];
      GatheredBitAt(front, mask, k);
      if bits[n] {
        BitOfOr(Gathered(front, mask), After(mask, n), k);
        BitOfQuotient(mask, n, k);
      }
      forall i: nat | i < n ensures Contributes(bits, mask, k, i) == Contributes(front, mask, k, i) {}
      if bits[n] { assert Contributes(bits, mask, k, n) == BitOf(mask, k + n); }
    }
  }

  lemma {:induction false} NoBitsIsZero(x: nat)
    requires forall k: nat :: !BitOf(x, k)
    ensures x == 0
  {
    if x != 0 {
      var _ := NonzeroHasBit(x);
    }
  }

  lemma SmallByBits(x: nat, n: nat)
    requires forall k: nat :: k >= n ==> !BitOf(x, k)
    ensures x < Pow2(n)
  {
    hide BitOf, Pow2;
    forall k: nat ensures !BitOf(x / Pow2(n), k) { BitOfQuotient(x, n, k); }
    DivDefinition(x, Pow2(n));
    Shrinks(x, n);
    NoBitsIsZero(x / Pow2(n));
  }

  // ------------------------------------------------------------ up to 31 bits

  lemma NarrowIsWritten(value: nat, n: nat)
    requires n > 0
    ensures MaskedBits(value, Pow2(n - 1), n) == BitsOf(value, n)
  {
    hide BitOf, Pow2, MaskedBits;
    forall i | 0 <= i < n ensures MaskedBits(value, Pow2(n - 1), n)[i] == BitsOf(value, n)[i] {
      MaskedBitAt(value, Pow2(n - 1), n, i);
      forall k: nat ensures Meets(value, Pow2(n - 1), i, k) <==> k == n - 1 - i && BitOf(value, k) { BitOfPow2(n - 1, k + i); }
    }
  }

  lemma NarrowIsRead(bits: seq<bool>)
    requires bits != []
    ensures Gathered(bits, Pow2(|bits| - 1)) == NumberOf(bits)
  {
    hide BitOf, Pow2, Gathered, NumberOf;
    var n := |bits|;
    var x := Gathered(bits, Pow2(n - 1));
    forall k: nat ensures BitOf(x, k) <==> k < n && bits[n - 1 - k] {
      GatheredBitAt(bits, Pow2(n - 1), k);
      forall i: nat ensures Contributes(bits, Pow2(n - 1), k, i) <==> i < n && bits[i] && i == n - 1 - k {
        BitOfPow2(n - 1, k + i);
      }
    }
    SmallByBits(x, n);
    assert BitsOf(x, n) == bits;
    NumberOfItsBits(x, n);
  }

  // ------------------------------------------------------------ 32 bits

  lemma WideMaskBits(m: nat)
    ensures BitOf(Widened(), m) <==> 31 <= m < 64
  {
    hide Pow2, BitOf;
    BitOfProduct(Pow2(33) - 1, 31, m);
    if m >= 31 { BitOfMask(33, m - 31); }
  }

  /** Below a bit that is set all of the lowest 32 are set. */
  ghost predicate HasNoGap(value: nat)
  {
    forall j: nat, k: nat :: j < 32 && j < k < 64 && BitOf(value, k) ==> BitOf(value, j)
  }

  lemma WideBitAt(value: nat, i: nat)
    requires i < 32
    ensures MaskedBits(value, Widened(), 32)[i] <==> exists k: nat :: 31 - i <= k < 64 - i && BitOf(value, k)
  {
    hide BitOf, Pow2, MaskedBits, Widened;
    MaskedBitAt(value, Widened(), 32, i);
    forall k: nat ensures Meets(value, Widened(), i, k) <==> 31 - i <= k < 64 - i && BitOf(value, k) { WideMaskBits(k + i); }
  }

  /** A field of 32 bits is written rightly if and only if its value has no gap. */
  lemma WideIsWritten(value: nat)
    ensures MaskedBits(value, Widened(), 32) == BitsOf(value, 32) <==> HasNoGap(value)
  {
    hide BitOf, Pow2, MaskedBits, Widened;
    var bits, right := MaskedBits(value, Widened(), 32), BitsOf(value, 32);
    forall i | 0 <= i < 32 ensures bits[i] <==> exists k: nat :: 31 - i <= k < 64 - i && BitOf(value, k) { WideBitAt(value, i); }
    if HasNoGap(value) {
      forall i | 0 <= i < 32 ensures bits[i] == right[i] {
        assert right[i] == BitOf(value, 31 - i);
      }
    } else {
      var j: nat, k: nat :| j < 32 && j < k < 64 && BitOf(value, k) && !BitOf(value, j);
      var top := if k < 32 then k else 31;
      assert right[31 - j] == BitOf(value, j) && right[31 - top] == BitOf(value, top);
    }
  }

  /** A field of 32 bits is read rightly if and only if it is 0. */
  lemma WideIsRead(bits: seq<bool>)
    requires |bits| == 32
    ensures Gathered(bits, Widened()) == NumberOf(bits) <==> forall i :: 0 <= i < 32 ==> !bits[i]
  {
    hide BitOf, Pow2, Gathered, NumberOf, Widened;
    var mask := Widened();
    var x := Gathered(bits, mask);
    if i :| 0 <= i < 32 && bits[i] {
      GatheredBitAt(bits, mask, 32);
      WideMaskBits(32 + i);
      assert Contributes(bits, mask, 32, i);
      if x == NumberOf(bits) { BitOfSmall(x, 32, 32); }
    } else {
      forall k: nat ensures !BitOf(x, k) { GatheredBitAt(bits, mask, k); }
      NoBitsIsZero(x);
      assert bits == BitsOf(0, 32) by {
        forall i | 0 <= i < 32 ensures !BitsOf(0, 32)[i] { NoBitOfZero(31 - i); }
      }
      assert 0 < Pow2(32);
      NumberOfItsBits(0, 32);
    }
  }

  // ------------------------------------------------------------ more than 32 bits

  lemma UndefinedMaskBits(mask: nat, m: nat)
    requires mask < Pow2(31) || Widened() <= mask < Pow2(64)
    ensures 31 <= m < 64 ==> (BitOf(mask, m) <==> mask >= Pow2(31))
  {
    hide Pow2, BitOf;
    WidenedIs();
    Pow2Grows(32, 64);
    Pow2Next(31);
    if 31 <= m < 64 {
      if mask < Pow2(31) {
        BitOfSmall(mask, 31, m);
      } else {
        DivUnique(mask, Pow2(31), Pow2(33) - 1, mask - Widened());
        BitOfQuotient(mask, 31, m - 31);
        BitOfMask(33, m - 31);
      }
    }
  }

  /** Whatever the shift gives, some number is not written rightly in more than 32 bits. */
  lemma NoMaskWrites(n: nat, mask: nat) returns (value: nat)
    requires 32 < n <= 64 && IsMask(n, mask)
    ensures value < Pow2(64) && MaskedBits(value, mask, n) != BitsOf(value, n)
  {
    hide BitOf, MaskedBits, Pow2, Widened;
    var top := if mask < Pow2(31) then n - 1 else 31;
    value := Pow2(top);
    Pow2Grows(top, 63);
    Pow2Next(63);
    MaskedBitAt(value, mask, n, 0);
    forall k: nat ensures Meets(value, mask, 0, k) <==> k == top && BitOf(mask, top) { BitOfPow2(top, k); }
    assert Meets(value, mask, 0, top) == BitOf(mask, top);
    UndefinedMaskBits(mask, top);
    BitOfPow2(top, n - 1);
    assert BitsOf(value, n)[0] == BitOf(value, n - 1);
  }

  /** Nor is some field read rightly. */
  lemma NoMaskReads(n: nat, mask: nat) returns (bits: seq<bool>)
    requires 32 < n <= 64 && IsMask(n, mask)
    ensures |bits| == n && Gathered(bits, mask) != NumberOf(bits)
  {
    hide BitOf, Gathered, NumberOf, Pow2, Widened;
    bits := BitsOf(Pow2(n - 1), n);
    Pow2Next(n - 1);
    NumberOfItsBits(Pow2(n - 1), n);
    forall i: nat | i < n ensures bits[i] <==> i == 0 { BitOfPow2(n - 1, n - 1 - i); }
    GatheredBitAt(bits, mask, 31);
    GatheredBitAt(bits, mask, n - 1);
    BitOfPow2(n - 1, 31);
    BitOfPow2(n - 1, n - 1);
    UndefinedMaskBits(mask, 31);
    UndefinedMaskBits(mask, n - 1);
    forall k: nat, i: nat ensures Contributes(bits, mask, k, i) <==> i == 0 && BitOf(mask, k) {}
    assert Contributes(bits, mask, 31, 0) == BitOf(mask, 31) && Contributes(bits, mask, n - 1, 0) == BitOf(mask, n - 1);
  }

  // ------------------------------------------------------------ the loops

  predicate AllClear(bits: seq<bool>) { forall i :: 0 <= i < |bits| ==> !bits[i] }

  lemma MaskedBitIs(value: nat, mask: nat, n: nat, i: nat)
    requires i < n
    ensures MaskedBits(value, mask, n)[i] == (And(value, After(mask, i)) != 0)
  {
  }

  lemma NothingGathered(bits: seq<bool>, from: nat, mask: nat)
    requires from <= |bits|
    ensures Gathered(bits[from..from], mask) == 0
  {
    assert bits[from..from] == [];
  }

  lemma OneMoreGathered(bits: seq<bool>, from: nat, i: nat, mask: nat)
    requires from + i < |bits|
    ensures var before := Gathered(bits[from..from + i], mask);
      Gathered(bits[from..from + (i + 1)], mask) == if bits[from + i] then Or(before, After(mask, i)) else before
  {
    hide Or, After;
    var more := bits[from..from + (i + 1)];
    assert more[..i] == bits[from..from + i] && more[i] == bits[from + i];
  }

  lemma FieldIsWritten(value: nat, mask: nat, n: nat, before: seq<bool>)
    requires IsMask(n, mask)
    ensures n <= 31 ==> MaskedBits(value, mask, n) == BitsOf(value, n)
    ensures n == 32 ==> (before + MaskedBits(value, mask, n) == before + BitsOf(value, n) <==> HasNoGap(value))
  {
    hide Pow2, Widened, MaskedBits, BitsOf, HasNoGap;
    if n <= 31 {
      NarrowIsWritten(value, n);
    } else if n == 32 {
      WideIsWritten(value);
      assert (before + MaskedBits(value, mask, n))[|before|..] == MaskedBits(value, mask, n);
      assert (before + BitsOf(value, n))[|before|..] == BitsOf(value, n);
    }
  }

  lemma FieldIsRead(bits: seq<bool>, mask: nat)
    requires IsMask(|bits|, mask)
    ensures |bits| <= 31 ==> Gathered(bits, mask) == NumberOf(bits)
    ensures |bits| == 32 ==> (Gathered(bits, mask) == NumberOf(bits) <==> AllClear(bits))
  {
    hide Pow2, Widened, Gathered, NumberOf;
    if |bits| <= 31 {
      NarrowIsRead(bits);
    } else if |bits| == 32 {
      WideIsRead(bits);
    }
  }
}
