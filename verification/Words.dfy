/** Powers of two, and the bitwise operations of fixed-width words as arithmetic on natural numbers. */
module Words {

  import opened Arithmetic

  function Pow2(n: nat): (p: nat)
    ensures p >= 1
  {
    if n == 0 then 1 else 2 * Pow2(n - 1)
  }

  /** Bit `n` of a number; for a negative number, of its two's complement form. */
  predicate BitOf(x: int, n: nat) { x / Pow2(n) % 2 == 1 }

  function And(a: nat, b: nat): nat
  {
    if a == 0 || b == 0 then 0 else (if a % 2 == 1 && b % 2 == 1 then 1 else 0) + 2 * And(a / 2, b / 2)
  }

  function Or(a: nat, b: nat): nat
  {
    if a == 0 && b == 0 then 0 else (if a % 2 == 1 || b % 2 == 1 then 1 else 0) + 2 * Or(a / 2, b / 2)
  }

  // ------------------------------------------------------------ powers of two

  lemma {:induction false} Pow2Sum(a: nat, b: nat)
    ensures Pow2(a + b) == Pow2(a) * Pow2(b)
  {
    if a != 0 {
      Pow2Sum(a - 1, b);
      assert Pow2(a + b) == 2 * Pow2(a - 1 + b);
      assert 2 * (Pow2(a - 1) * Pow2(b)) == 2 * Pow2(a - 1) * Pow2(b);
    }
  }

  lemma Pow2Next(n: nat)
    ensures Pow2(n + 1) == 2 * Pow2(n)
  {
  }

  lemma {:induction false} Pow2Grows(a: nat, b: nat)
    requires a <= b
    ensures Pow2(a) <= Pow2(b)
  {
    if a < b {
      Pow2Grows(a, b - 1);
    }
  }

  /** Shifting by n + 1 is shifting by one, then by n. */
  lemma DivByNextPow2(x: int, n: nat)
    ensures x / Pow2(n + 1) == x / 2 / Pow2(n) == x / Pow2(n) / 2
    ensures x % Pow2(n + 1) == 2 * (x / 2 % Pow2(n)) + x % 2
    ensures x % Pow2(n + 1) == (if BitOf(x, n) then Pow2(n) else 0) + x % Pow2(n)
  {
    DivDiv(x, 2, Pow2(n));
    DivDiv(x, Pow2(n), 2);
    assert Pow2(n) * 2 == 2 * Pow2(n) == Pow2(n + 1);
  }

  lemma ModOfHalf(x: int, n: nat)
    requires n > 0
    ensures x % Pow2(n) == 2 * (x / 2 % Pow2(n - 1)) + x % 2
  {
    DivByNextPow2(x, n - 1);
  }

  lemma BitOfHalf(x: int, n: nat)
    requires n > 0
    ensures BitOf(x, n) == BitOf(x / 2, n - 1)
  {
    DivByNextPow2(x, n - 1);
  }

  lemma NoBitOfZero(m: nat)
    ensures !BitOf(0, m)
  {
    hide Pow2;
    DivUnique(0, Pow2(m), 0, 0);
  }

  lemma BitZero(x: int)
    ensures BitOf(x, 0) == (x % 2 == 1)
  {
  }

  // ------------------------------------------------------------ bitwise operations as arithmetic

  lemma {:induction false} OrOfDisjoint(a: nat, b: nat, k: nat)
    requires a % Pow2(k) == 0 && b < Pow2(k)
    ensures Or(a, b) == a + b
  {
    if k == 0 {
      OrZero(a);
    } else {
      DivByNextPow2(a, k - 1);
      OrOfDisjoint(a / 2, b / 2, k - 1);
    }
  }

  lemma {:induction false} OrZero(a: nat)
    ensures Or(a, 0) == a && Or(0, a) == a
  {
    if a != 0 {
      OrZero(a / 2);
    }
  }

  lemma {:induction false} OrCommutes(a: nat, b: nat)
    ensures Or(a, b) == Or(b, a)
  {
    if a != 0 || b != 0 {
      OrCommutes(a / 2, b / 2);
    }
  }

  lemma {:induction false} OrOfBit(a: nat, n: nat)
    ensures Or(a, Pow2(n)) == if BitOf(a, n) then a else a + Pow2(n)
  {
    if n == 0 {
      OrZero(a / 2);
    } else {
      Pow2Next(n - 1);
      hide Pow2, Or, BitOf;
      OrByHalves(a, 2 * Pow2(n - 1));
      BitOfHalf(a, n);
      OrOfBit(a / 2, n - 1);
    }
  }

  lemma {:induction false} AndOfBit(a: nat, n: nat)
    ensures And(a, Pow2(n)) == if BitOf(a, n) then Pow2(n) else 0
  {
    if n == 0 {
      assert And(a / 2, 0) == 0;
    } else if a != 0 {
      DivByNextPow2(a, n - 1);
      AndOfBit(a / 2, n - 1);
      assert Pow2(n) % 2 == 0 && Pow2(n) / 2 == Pow2(n - 1);
    } else {
      DivUnique(0, Pow2(n), 0, 0);
    }
  }

  /** The lowest `n` bits as a number. */
  function Low(x: int, n: nat): int { x % Pow2(n) }

  lemma LowOfHalf(x: int, n: nat)
    ensures n > 0 ==> Low(x, n) == 2 * Low(x / 2, n - 1) + x % 2
    ensures n == 0 ==> Low(x, n) == 0
  {
    if n > 0 {
      ModOfHalf(x, n);
    } else {
      DivUnique(x, Pow2(0), x, 0);
    }
  }

  lemma {:induction false} AndWithLowMask(a: nat, n: nat, mask: nat)
    requires mask == Pow2(n) - 1
    ensures And(a, mask) == Low(a, n)
  {
    LowOfHalf(a, n);
    AndByHalves(a, mask);
    if n > 0 {
      Pow2Next(n - 1);
      hide Pow2, And, Low;
      AndWithLowMask(a / 2, n - 1, mask / 2);
    }
  }

  /** Masking with the `n` low bits is the remainder modulo 2 to the n. */
  lemma AndOfLowMask(a: nat, n: nat)
    ensures And(a, Pow2(n) - 1) == a % Pow2(n)
  {
    AndWithLowMask(a, n, Pow2(n) - 1);
  }

  lemma AndOfAll(a: nat, k: nat)
    requires a < Pow2(k)
    ensures And(a, Pow2(k) - 1) == a
  {
    AndOfLowMask(a, k);
    DivUnique(a, Pow2(k), 0, a);
  }

  lemma AndByHalves(a: nat, b: nat)
    ensures And(a, b) == (if a % 2 == 1 && b % 2 == 1 then 1 else 0) + 2 * And(a / 2, b / 2)
  {
    assert a / 2 == 0 || b / 2 == 0 ==> And(a / 2, b / 2) == 0;
  }

  lemma {:induction false} AndWithHighMask(a: nat, n: nat, k: nat, mask: int)
    requires a < Pow2(k) && n <= k && mask == Pow2(k) - Pow2(n)
    ensures mask >= 0 && And(a, mask) == a - Low(a, n)
  {
    Pow2Grows(n, k);
    LowOfHalf(a, n);
    if n == 0 {
      assert Pow2(0) == 1;
      AndOfAll(a, k);
    } else {
      hide Pow2, And, Low;
      Pow2Next(n - 1);
      Pow2Next(k - 1);
      HalfOfMask(mask, Pow2(k - 1) - Pow2(n - 1), 0);
      HalfOfMask(a, a / 2, a % 2);
      AndByHalves(a, mask);
      AndWithHighMask(a / 2, n - 1, k - 1, mask / 2);
    }
  }

  /** Masking with the bits from `n` up to `k` drops the remainder modulo 2 to the n. */
  lemma AndOfHighMask(a: nat, n: nat, k: nat)
    requires a < Pow2(k) && n <= k
    ensures Pow2(n) <= Pow2(k) && And(a, Pow2(k) - Pow2(n)) == a - a % Pow2(n)
  {
    hide Pow2;
    AndWithHighMask(a, n, k, Pow2(k) - Pow2(n));
  }

  lemma AndWithAllButLowest(a: nat, k: nat, mask: int)
    requires a < Pow2(k) && k > 0 && mask == Pow2(k) - 2
    ensures mask >= 0 && And(a, mask) == a - a % 2
  {
    hide Pow2, And;
    Pow2Next(k - 1);
    HalfOfMask(mask, Pow2(k - 1) - 1, 0);
    HalfOfMask(a, a / 2, a % 2);
    AndByHalves(a, mask);
    AndOfAll(a / 2, k - 1);
  }

  lemma {:induction false} AndWithAllBut(a: nat, n: nat, k: nat, mask: int)
    requires a < Pow2(k) && n < k && mask == Pow2(k) - 1 - Pow2(n)
    ensures mask >= 0 && And(a, mask) == if BitOf(a, n) then a - Pow2(n) else a
  {
    if n == 0 {
      BitZero(a);
      assert Pow2(0) == 1;
      hide BitOf, Pow2, And;
      AndWithAllButLowest(a, k, mask);
    } else {
      hide BitOf, Pow2, And;
      Pow2Grows(n, k - 1);
      Pow2Next(k - 1);
      Pow2Next(n - 1);
      BitOfHalf(a, n);
      HalfOfMask(mask, Pow2(k - 1) - 1 - Pow2(n - 1), 1);
      HalfOfMask(a, a / 2, a % 2);
      AndByHalves(a, mask);
      AndWithAllBut(a / 2, n - 1, k - 1, mask / 2);
    }
  }

  lemma HalfOfMask(mask: int, half: int, bit: int)
    requires mask == 2 * half + bit && 0 <= bit <= 1
    ensures mask / 2 == half && mask % 2 == bit
  {
  }

  /** Masking with everything below `k` but bit `n` clears that bit. */
  lemma AndOfAllBut(a: nat, n: nat, k: nat)
    requires a < Pow2(k) && n < k
    ensures Pow2(n) < Pow2(k) && And(a, Pow2(k) - 1 - Pow2(n)) == if BitOf(a, n) then a - Pow2(n) else a
  {
    hide Pow2, BitOf, And;
    AndWithAllBut(a, n, k, Pow2(k) - 1 - Pow2(n));
  }

  // ------------------------------------------------------------ single bits

  lemma {:induction false} BitOfOr(a: nat, b: nat, m: nat)
    ensures BitOf(Or(a, b), m) <==> BitOf(a, m) || BitOf(b, m)
  {
    OrByHalves(a, b);
    hide Or, BitOf;
    if m == 0 {
      BitZero(a);
      BitZero(b);
      BitZero(Or(a, b));
    } else {
      BitOfHalf(a, m);
      BitOfHalf(b, m);
      BitOfHalf(Or(a, b), m);
      BitOfOr(a / 2, b / 2, m - 1);
    }
  }

  lemma OrByHalves(a: nat, b: nat)
    ensures Or(a, b) == (if a % 2 == 1 || b % 2 == 1 then 1 else 0) + 2 * Or(a / 2, b / 2)
  {
    assert Or(0, 0) == 0;
  }

  lemma {:induction false} BitOfAnd(a: nat, b: nat, m: nat)
    ensures BitOf(And(a, b), m) <==> BitOf(a, m) && BitOf(b, m)
  {
    AndByHalves(a, b);
    hide And, BitOf;
    if m == 0 {
      BitZero(a);
      BitZero(b);
      BitZero(And(a, b));
    } else {
      BitOfHalf(a, m);
      BitOfHalf(b, m);
      BitOfHalf(And(a, b), m);
      BitOfAnd(a / 2, b / 2, m - 1);
    }
  }

  lemma BitOfQuotient(x: int, k: nat, m: nat)
    ensures BitOf(x / Pow2(k), m) <==> BitOf(x, m + k)
  {
    hide Pow2;
    Pow2Sum(k, m);
    DivDiv(x, Pow2(k), Pow2(m));
  }

  lemma BitOfProduct(x: int, k: nat, m: nat)
    ensures BitOf(x * Pow2(k), m) <==> m >= k && BitOf(x, m - k)
  {
    if m >= k {
      hide Pow2;
      BitOfQuotient(x * Pow2(k), k, m - k);
      DivUnique(x * Pow2(k), Pow2(k), x, 0);
    } else {
      Pow2Sum(m, k - m);
      assert Pow2(k - m) == 2 * Pow2(k - m - 1);
      hide Pow2;
      EvenMultiple(x, Pow2(m), Pow2(k - m - 1));
      DivUnique(x * Pow2(k), Pow2(m), 2 * (x * Pow2(k - m - 1)), 0);
    }
  }

  lemma EvenMultiple(x: int, p: int, q: int)
    ensures x * (p * (2 * q)) == 2 * (x * q) * p
  {
    MulAssoc(2 * q, p, x);
    MulAssoc(2, q, x);
    assert p * (2 * q) == 2 * q * p;
    assert x * (2 * q * p) == 2 * q * p * x == 2 * q * x * p;
  }

  lemma BitOfRemainder(x: int, n: nat, m: nat)
    ensures BitOf(x % Pow2(n), m) <==> m < n && BitOf(x, m)
  {
    hide Pow2, BitOf;
    DivDefinition(x, Pow2(n));
    if m < n {
      BitOfSumAbove(x / Pow2(n), x % Pow2(n), n, m);
    } else {
      BitOfSmall(x % Pow2(n), n, m);
    }
  }

  lemma BitOfSmall(x: nat, n: nat, m: nat)
    requires x < Pow2(n) && m >= n
    ensures !BitOf(x, m)
  {
    hide Pow2;
    Pow2Grows(n, m);
    DivUnique(x, Pow2(m), 0, x);
  }

  /** Multiples of a power of two have no influence on the bits below it. */
  lemma BitOfSumAbove(q: int, r: nat, n: nat, m: nat)
    requires r < Pow2(n) && m < n
    ensures BitOf(q * Pow2(n) + r, m) <==> BitOf(r, m)
  {
    Pow2Sum(m, n - m);
    Pow2Next(n - m - 1);
    hide Pow2;
    HighPartIsEven(q, r, Pow2(m), Pow2(n - m - 1));
  }

  lemma HighPartIsEven(q: int, r: int, p: int, t: int)
    requires p > 0
    ensures (q * (p * (2 * t)) + r) / p % 2 == r / p % 2
  {
    EvenMultiple(q, p, t);
    DivDefinition(r, p);
    AddedMultiple(2 * (q * t), r, p, r / p, r % p);
  }

  lemma AddedMultiple(k: int, r: int, p: int, a: int, b: int)
    requires r == a * p + b && 0 <= b < p
    ensures (k * p + r) / p == k + a
  {
    MulDistr(k, a, p);
    DivUnique(k * p + r, p, k + a, b);
  }

  lemma BitOfPow2(n: nat, m: nat)
    ensures BitOf(Pow2(n), m) <==> m == n
  {
    BitOfProduct(1, n, m);
    if m >= n { BitOfOne(m - n); }
  }

  lemma BitOfOne(m: nat)
    ensures BitOf(1, m) <==> m == 0
  {
    if m > 0 {
      assert Pow2(m) == 2 * Pow2(m - 1);
      DivUnique(1, Pow2(m), 0, 1);
    }
  }

  lemma {:induction false} BitOfMask(n: nat, m: nat)
    ensures BitOf(Pow2(n) - 1, m) <==> m < n
  {
    if n == 0 {
      DivUnique(0, Pow2(m), 0, 0);
    } else if m == 0 {
      BitZero(Pow2(n) - 1);
    } else {
      BitOfHalf(Pow2(n) - 1, m);
      assert (Pow2(n) - 1) / 2 == Pow2(n - 1) - 1;
      BitOfMask(n - 1, m - 1);
    }
  }

  // ------------------------------------------------------------ numbers as sequences of bits

  /** The lowest `n` bits of a number, the most significant one first. */
  function BitsOf(x: int, n: nat): (s: seq<bool>)
    ensures |s| == n && forall i :: 0 <= i < n ==> s[i] == BitOf(x, n - 1 - i)
  {
    seq(n, i requires 0 <= i < n => BitOf(x, n - 1 - i))
  }

  lemma BitsOfSplit(x: int, a: nat, b: nat)
    ensures BitsOf(x, a + b) == BitsOf(x / Pow2(b), a) + BitsOf(x, b)
  {
    hide BitOf, Pow2;
    var low := x / Pow2(b);
    forall i | 0 <= i < a ensures BitsOf(low, a)[i] == BitsOf(x, a + b)[i] {
      BitOfQuotient(x, b, a - 1 - i);
    }
  }

  /** Numbers below 2 to the n are told apart by their n lowest bits. */
  lemma {:induction false} BitsOfIsInjective(x: nat, y: nat, n: nat)
    requires x < Pow2(n) && y < Pow2(n) && BitsOf(x, n) == BitsOf(y, n)
    ensures x == y
  {
    if n > 0 {
      BitsOfSplit(x, n - 1, 1);
      BitsOfSplit(y, n - 1, 1);
      assert Pow2(1) == 2;
      assert BitsOf(x, n)[..n - 1] == BitsOf(x / 2, n - 1) && BitsOf(y, n)[..n - 1] == BitsOf(y / 2, n - 1);
      BitsOfIsInjective(x / 2, y / 2, n - 1);
      assert BitsOf(x, n)[n - 1] == BitsOf(y, n)[n - 1];
      BitZero(x);
      BitZero(y);
    }
  }

  /** The number that a sequence of bits stands for. */
  function NumberOf(bits: seq<bool>): (x: nat)
    ensures x < Pow2(|bits|)
  {
    if bits == [] then 0
    else
      Pow2Next(|bits| - 1);
      2 * NumberOf(bits[..|bits| - 1]) + if bits[|bits| - 1] then 1 else 0
  }

  lemma {:induction false} NumberOfBits(x: int, n: nat)
    ensures NumberOf(BitsOf(x, n)) == x % Pow2(n)
    decreases n
  {
    if n == 0 {
      DivUnique(x, Pow2(0), x, 0);
    } else {
      var bits := BitsOf(x, n);
      BitsOfSplit(x, n - 1, 1);
      assert Pow2(1) == 2;
      assert bits[..n - 1] == BitsOf(x / 2, n - 1);
      NumberOfBits(x / 2, n - 1);
      ModOfHalf(x, n);
      assert bits[n - 1] == BitOf(x, 0);
      BitZero(x);
    }
  }

  lemma NumberOfItsBits(x: nat, n: nat)
    requires x < Pow2(n)
    ensures NumberOf(BitsOf(x, n)) == x
  {
    NumberOfBits(x, n);
    DivUnique(x, Pow2(n), 0, x);
  }

  lemma {:induction false} NumberOfSum(a: seq<bool>, b: seq<bool>)
    ensures NumberOf(a + b) == NumberOf(a) * Pow2(|b|) + NumberOf(b)
  {
    if b == [] {
      assert a + b == a && NumberOf(b) == 0 && Pow2(0) == 1;
    } else {
      var c, d := b[..|b| - 1], b[|b| - 1];
      hide NumberOf, Pow2;
      NumberOfSum(a, c);
      NumberOfOneMore(a + c, d);
      NumberOfOneMore(c, d);
      Pow2Next(|c|);
      assert |b| == |c| + 1;
      assert a + b == a + c + [d] && b == c + [d];
      OneMoreDigit(NumberOf(a), NumberOf(c), Pow2(|c|), Pow2(|b|));
    }
  }

  lemma OneMoreDigit(x: int, y: int, p: int, q: int)
    requires q == 2 * p
    ensures 2 * (x * p + y) == x * q + 2 * y
  {
    MulAssoc(x, 2, p);
  }

  lemma NumberOfOneMore(bits: seq<bool>, b: bool)
    ensures NumberOf(bits + [b]) == 2 * NumberOf(bits) + if b then 1 else 0
  {
    assert (bits + [b])[..|bits|] == bits;
  }
}
