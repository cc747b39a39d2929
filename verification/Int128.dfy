/**
 * The 128-bit signed integer of inet/common/Int128: two machine words in two's complement.
 *
 * The words are integers with their ranges; every operator of the source that can leave the range
 * of its word is followed by an explicit `Unsigned` or `Signed`.  What the words stand for is `Value`.
 */
module Int128s {

  import opened Arithmetic
  import opened Words
  import opened Options
  import opened Strings

  const WORD := 0x1_0000_0000_0000_0000
  const HALF_WORD := 0x8000_0000_0000_0000
  const FULL := 0x1_0000_0000_0000_0000_0000_0000_0000_0000
  const HALF := 0x8000_0000_0000_0000_0000_0000_0000_0000
  const UINT := 0x1_0000_0000
  const INT128_MIN := -HALF

  type uint64 = x: int | 0 <= x < WORD
  type int64 = x: int | -HALF_WORD <= x < HALF_WORD

  function Unsigned(x: int): uint64 { x % WORD }

  function Signed(x: int): int64 { (x + HALF_WORD) % WORD - HALF_WORD }

  /** The 128-bit number congruent to `x` modulo 2 to the 128. */
  function Wrap(x: int): int { (x + HALF) % FULL - HALF }

  predicate InRange(x: int) { -HALF <= x < HALF }

  function Abs(x: int): nat { if x < 0 then -x else x }

  // ------------------------------------------------------------ arithmetic modulo 2 to the 128

  lemma WrapUnique(x: int, y: int, k: int)
    requires x == y + k * FULL && InRange(y)
    ensures Wrap(x) == y
  {
    DivUnique(x + HALF, FULL, k, y + HALF);
  }

  lemma WrapIsCongruent(x: int) returns (k: int)
    ensures x == Wrap(x) + k * FULL && InRange(Wrap(x))
  {
    k := (x + HALF) / FULL;
  }

  lemma WrapOfWrapped(x: int, y: int)
    ensures Wrap(Wrap(x) + Wrap(y)) == Wrap(x + y) && Wrap(-Wrap(x)) == Wrap(-x)
  {
    var i := WrapIsCongruent(x);
    var j := WrapIsCongruent(y);
    var k := WrapIsCongruent(x + y);
    WrapUnique(Wrap(x) + Wrap(y), Wrap(x + y), k - i - j);
    var n := WrapIsCongruent(-x);
    WrapUnique(-Wrap(x), Wrap(-x), n + i);
  }

  lemma WrapOfMultiple(x: int, m: int)
    ensures Wrap(x + m * FULL) == Wrap(x)
  {
    var k := WrapIsCongruent(x);
    assert (k + m) * FULL == k * FULL + m * FULL;
    WrapUnique(x + m * FULL, Wrap(x), k + m);
  }

  lemma WrapProduct(x: int, m: int)
    ensures Wrap(Wrap(x) * m) == Wrap(x * m)
  {
    var k := WrapIsCongruent(x);
    assert x * m == Wrap(x) * m + (k * m) * FULL;
    WrapOfMultiple(Wrap(x) * m, k * m);
  }

  /** A high word may be wrapped before it is joined with the low word. */
  lemma Join(h: int, l: int)
    requires 0 <= l < WORD
    ensures Wrap(h * WORD + l) == Signed(h) * WORD + l
    ensures Signed(Unsigned(h)) == Signed(h)
  {
    var k := (h + HALF_WORD) / WORD;
    assert h == Signed(h) + k * WORD;
    WrapUnique(h * WORD + l, Signed(h) * WORD + l, k);
  }

  lemma Sixteen()
    ensures Pow2(4) == 16
  {
  }

  lemma PowersOfWords()
    ensures Pow2(64) == WORD && Pow2(128) == FULL && Pow2(127) == HALF
  {
    hide Pow2;
    Pow2Next(127);
    Sixteen();
    Pow2Sum(4, 4);
    Pow2Sum(8, 8);
    Pow2Sum(16, 16);
    Pow2Sum(32, 32);
    Pow2Sum(64, 64);
  }

  lemma PowersAround(n: nat)
    requires n <= 64
    ensures Pow2(n) * Pow2(64 - n) == WORD
  {
    Pow2Sum(n, 64 - n);
    PowersOfWords();
  }

  // ------------------------------------------------------------ bits of the two words

  lemma SameParity(h: int, m: int, k: int, x: int)
    requires m == 2 * k
    ensures (h * m + x) % 2 == x % 2
  {
    assert h * m == 2 * (h * k);
  }

  /** Adding whole words does not change the bits of the lowest word. */
  lemma BitOfLowWord(h: int, l: int, n: nat)
    requires 0 <= l < WORD && n < 64
    ensures BitOf(h * WORD + l, n) == BitOf(l, n)
  {
    assert Pow2(64 - n) == 2 * Pow2(63 - n);
    hide Pow2;
    PowersAround(n);
    ShiftedPair(h, l, Pow2(n), Pow2(64 - n), WORD);
    SameParity(h, Pow2(64 - n), Pow2(63 - n), l / Pow2(n));
  }

  lemma BitOfHighWord(h: int, l: int, n: nat)
    requires 0 <= l < WORD && n >= 64
    ensures BitOf(h * WORD + l, n) == BitOf(h, n - 64)
  {
    hide Pow2;
    ShiftedRightByWords(h, l, n);
  }

  lemma BitOfUnsigned(h: int, n: nat)
    requires n < 64
    ensures BitOf(Unsigned(h), n) == BitOf(h, n)
  {
    hide Pow2, BitOf;
    BitOfLowWord(h / WORD, Unsigned(h), n);
  }

  lemma BitBeyond(x: int, n: nat)
    requires n >= 127 && InRange(x)
    ensures BitOf(x, n) == (x < 0)
  {
    hide Pow2;
    ShiftedRightOut(x, n);
  }

  lemma BitIsPresent(l: nat, n: nat)
    requires BitOf(l, n)
    ensures l >= Pow2(n)
  {
    hide Pow2;
    if l < Pow2(n) {
      DivUnique(l, Pow2(n), 0, l);
    }
  }

  lemma BitIsAbsent(l: nat, n: nat)
    requires l < WORD && n < 64 && !BitOf(l, n)
    ensures l + Pow2(n) < WORD
  {
    assert Pow2(64 - n) == 2 * Pow2(63 - n);
    hide Pow2;
    PowersAround(n);
    DivDefinition(l, Pow2(n));
    RoomForBit(l, Pow2(n), Pow2(64 - n), Pow2(63 - n), l / Pow2(n), l % Pow2(n));
  }

  lemma RoomForBit(l: nat, p: nat, m: nat, k: nat, q: int, r: nat)
    requires l < WORD == p * m && m == 2 * k && l == q * p + r && r < p && q % 2 == 0
    ensures l + p < WORD
  {
    assert m * p == WORD;
    MulLess(q, m, p);
    MulMono(q, m - 2, p);
    MulDistr(m, 2, p);
  }

  // ------------------------------------------------------------ shifts

  lemma ShiftedLeftWithinWord(h: int, l: int, n: nat)
    requires 0 <= l < WORD && 0 < n < 64
    ensures (h * WORD + l) * Pow2(n) == (h * Pow2(n) + l / Pow2(64 - n)) * WORD + Unsigned(l * Pow2(n))
    ensures 0 <= l / Pow2(64 - n) < Pow2(n)
  {
    hide Pow2;
    PowersAround(n);
    ShiftedWord(l, Pow2(n), Pow2(64 - n), WORD);
    MulDistr(h * WORD, l, Pow2(n));
    MulAssoc(h, WORD, Pow2(n));
  }

  lemma ShiftedLeftByWords(h: int, l: int, n: nat)
    requires n >= 64
    ensures Wrap((h * WORD + l) * Pow2(n)) == Wrap(l * Pow2(n - 64) * WORD)
    ensures n >= 128 ==> Wrap((h * WORD + l) * Pow2(n)) == 0
  {
    hide Pow2;
    PowersOfWords();
    Pow2Sum(64, n - 64);
    var p := Pow2(n - 64);
    assert (h * WORD + l) * (WORD * p) == l * p * WORD + (h * p) * FULL;
    WrapOfMultiple(l * p * WORD, h * p);
    if n >= 128 {
      Pow2Sum(128, n - 128);
      assert (h * WORD + l) * (FULL * Pow2(n - 128)) == 0 + ((h * WORD + l) * Pow2(n - 128)) * FULL;
      WrapOfMultiple(0, (h * WORD + l) * Pow2(n - 128));
    }
  }

  lemma ShiftedRightWithinWord(h: int, l: int, n: nat)
    requires 0 <= l < WORD && 0 < n < 64
    ensures (h * WORD + l) / Pow2(n) == h / Pow2(n) * WORD + (h % Pow2(n) * Pow2(64 - n) + l / Pow2(n))
    ensures 0 <= l / Pow2(n) < Pow2(64 - n)
    ensures 0 <= h % Pow2(n) * Pow2(64 - n) <= WORD - Pow2(64 - n)
  {
    hide Pow2;
    PowersAround(n);
    ShiftedPair(h, l, Pow2(n), Pow2(64 - n), WORD);
  }

  lemma ShiftedRightByWords(h: int, l: int, n: nat)
    requires 0 <= l < WORD && n >= 64
    ensures (h * WORD + l) / Pow2(n) == h / Pow2(n - 64)
  {
    hide Pow2;
    PowersOfWords();
    Pow2Sum(64, n - 64);
    DivDiv(h * WORD + l, WORD, Pow2(n - 64));
    DivUnique(h * WORD + l, WORD, h, l);
  }

  lemma ShiftedRightOut(x: int, n: nat)
    requires InRange(x) && n >= 127
    ensures x / Pow2(n) == if x < 0 then -1 else 0
  {
    hide Pow2;
    PowersOfWords();
    Pow2Grows(127, n);
    DivUnique(x, Pow2(n), if x < 0 then -1 else 0, if x < 0 then x + Pow2(n) else x);
  }

  lemma SignedIsPeriodic(x: int, k: int)
    ensures Signed(x - k * WORD) == Signed(x)
  {
    DivUnique(x + HALF_WORD - k * WORD, WORD, (x + HALF_WORD) / WORD - k, (x + HALF_WORD) % WORD);
  }

  /** What a right shift moves from the high word to the low one. */
  lemma HighPartForLow(h: int, l: nat, n: nat)
    requires -HALF_WORD <= h < HALF_WORD && l < WORD && 0 < n < 64
    ensures And(Unsigned(h), Pow2(n) - 1) == h % Pow2(n)
    ensures 0 <= h % Pow2(n) * Pow2(64 - n) < WORD && 0 <= l / Pow2(n)
    ensures Or(l / Pow2(n), h % Pow2(n) * Pow2(64 - n)) == h % Pow2(n) * Pow2(64 - n) + l / Pow2(n) < WORD
  {
    hide Pow2, And, Or;
    ShiftedRightWithinWord(h, l, n);
    AndOfLowMask(Unsigned(h), n);
    PowersAround(n);
    var p, m := Pow2(n), Pow2(64 - n);
    ShiftedPair(h / WORD, Unsigned(h), p, m, WORD);
    DivUnique(h % p * m, m, h % p, 0);
    OrOfDisjoint(h % p * m, l / p, 64 - n);
    OrCommutes(l / p, h % p * m);
  }

  /** What a left shift moves from the low word to the high one. */
  lemma LowPartForHigh(h: int, l: nat, n: nat)
    requires -HALF_WORD <= h < HALF_WORD && l < WORD && 0 < n < 64
    ensures Pow2(64 - n) <= WORD && 0 <= l / Pow2(64 - n)
    ensures And(l, WORD - Pow2(64 - n)) / Pow2(64 - n) == l / Pow2(64 - n)
    ensures Signed(Or(Unsigned(Signed(h * Pow2(n))), l / Pow2(64 - n))) == Signed(h * Pow2(n) + l / Pow2(64 - n))
  {
    hide Pow2, And, Or;
    PowersAround(n);
    PowersOfWords();
    var p, m := Pow2(n), Pow2(64 - n);
    AndOfHighMask(l, 64 - n, 64);
    DivDefinition(l, m);
    DivUnique(l - l % m, m, l / m, 0);
    ShiftedWord(l, p, m, WORD);
    ShiftedUpIsMultiple(h, p, m, l / m);
    OrOfDisjoint(Unsigned(Signed(h * p)), l / m, n);
  }

  lemma ShiftedLeftBits(h: int64, l: uint64, n: nat)
    requires 0 < n < 64
    ensures 0 < Pow2(64 - n) <= WORD && 0 <= l / Pow2(64 - n)
    ensures Signed(Or(Unsigned(Signed(h * Pow2(n))), l / Pow2(64 - n))) * WORD + Unsigned(l * Pow2(n))
         == Wrap((h * WORD + l) * Pow2(n))
  {
    hide Pow2, And, Or, Wrap, Signed, Unsigned;
    ShiftedLeftWithinWord(h, l, n);
    LowPartForHigh(h, l, n);
    Join(h * Pow2(n) + l / Pow2(64 - n), Unsigned(l * Pow2(n)));
  }

  lemma ShiftedLeftWords(h: int64, l: uint64, n: nat)
    requires n >= 64
    ensures Signed(Unsigned(l * Pow2(n - 64))) * WORD == Wrap((h * WORD + l) * Pow2(n))
    ensures n >= 128 ==> Wrap((h * WORD + l) * Pow2(n)) == 0
  {
    hide Pow2, Wrap, Signed, Unsigned;
    ShiftedLeftByWords(h, l, n);
    Join(l * Pow2(n - 64), 0);
  }

  lemma ShiftedUpIsMultiple(h: int, p: nat, m: nat, c: nat)
    requires p > 0 && p * m == WORD
    ensures Unsigned(Signed(h * p)) % p == 0
    ensures Signed(Unsigned(Signed(h * p)) + c) == Signed(h * p + c)
  {
    var x := h * p;
    var u := Unsigned(Signed(x));
    var k := UnsignedIsCongruent(x);
    MulAssoc(k, m, p);
    assert m * p == WORD;
    MulDistr(h, k * m, p);
    DivUnique(u, p, h - k * m, 0);
    SignedIsPeriodic(x + c, k);
  }

  lemma UnsignedIsCongruent(x: int) returns (k: int)
    ensures x == Unsigned(Signed(x)) + k * WORD
  {
    k := (x - Unsigned(Signed(x))) / WORD;
  }

  lemma UnsignedOfWord(x: int)
    requires 0 <= x < WORD
    ensures Unsigned(x) == x
  {
  }

  lemma WrapOfSmall(x: int)
    requires InRange(x)
    ensures Wrap(x) == x
  {
  }

  lemma DivByOne(x: int)
    ensures x / Pow2(0) == x == x * Pow2(0)
    ensures InRange(x) ==> Wrap(x * Pow2(0)) == x
  {
    assert Pow2(0) == 1;
  }

  /** What setting or clearing bit `n` adds to a number. */
  function BitChange(was: bool, val: bool, n: nat): int
  {
    if val == was then 0 else if val then Pow2(n) else 0 - Pow2(n)
  }

  lemma WordWithBit(l: nat, n: nat, val: bool)
    requires l < WORD && n < 64
    ensures Pow2(n) < WORD
    ensures (if val then Or(l, Pow2(n)) else And(l, WORD - 1 - Pow2(n))) == l + BitChange(BitOf(l, n), val, n)
    ensures 0 <= l + BitChange(BitOf(l, n), val, n) < WORD
  {
    hide Pow2, And, Or, BitOf;
    PowersOfWords();
    Pow2Grows(n, 63);
    OrOfBit(l, n);
    AndOfAllBut(l, n, 64);
    if BitOf(l, n) {
      BitIsPresent(l, n);
    } else {
      BitIsAbsent(l, n);
    }
  }

  lemma LowWordWithBit(h: int64, l: uint64, n: nat, val: bool)
    requires n < 64
    ensures Pow2(n) < WORD
    ensures var word := if val then Or(l, Pow2(n)) else And(l, WORD - 1 - Pow2(n));
      0 <= word < WORD && h * WORD + word == Wrap(h * WORD + l + BitChange(BitOf(h * WORD + l, n), val, n))
  {
    hide Pow2, BitOf, BitChange, And, Or;
    WordWithBit(l, n, val);
    BitOfLowWord(h, l, n);
    Join(h, l + BitChange(BitOf(l, n), val, n));
  }

  lemma HighWordWithBit(h: int64, l: uint64, n: nat, val: bool)
    requires 64 <= n < 128
    ensures Pow2(n - 64) < WORD
    ensures var word := if val then Or(Unsigned(h), Pow2(n - 64)) else And(Unsigned(h), WORD - 1 - Pow2(n - 64));
      Signed(word) * WORD + l == Wrap(h * WORD + l + BitChange(BitOf(h * WORD + l, n), val, n))
  {
    hide Pow2, BitOf, And, Or;
    WordWithBit(Unsigned(h), n - 64, val);
    PowersOfWords();
    Pow2Sum(64, n - 64);
    BitOfHighWord(h, l, n);
    BitOfUnsigned(h, n - 64);
    var change := BitChange(BitOf(h, n - 64), val, n - 64);
    assert change * WORD == BitChange(BitOf(h, n - 64), val, n);
    assert Signed(Unsigned(h) + change) == Signed(h + change) by {
      assert Unsigned(h) == h - h / WORD * WORD;
      SignedIsPeriodic(h + change, h / WORD);
    }
    Join(h + change, l);
  }

  // ------------------------------------------------------------ sums of words

  /** Adding with a carry between the words. */
  lemma AddedWords(h: int, l: uint64, g: int, k: uint64)
    ensures (if Unsigned(l + k) < l then Signed(Signed(h + g) + 1) else Signed(h + g)) * WORD + Unsigned(l + k)
         == Wrap(h * WORD + l + (g * WORD + k))
  {
    var carry := if Unsigned(l + k) < l then 1 else 0;
    assert l + k == carry * WORD + Unsigned(l + k);
    Join(h + g + carry, Unsigned(l + k));
    SignedIsPeriodic(h + g + carry, (h + g + HALF_WORD) / WORD);
  }

  lemma NegatedWords(h: int64, l: uint64)
    ensures l == 0 ==> Signed(0 - h) * WORD == if h == -HALF_WORD then INT128_MIN else 0 - h * WORD
    ensures l != 0 ==> (-1 - h) * WORD + Unsigned(0 - l) == 0 - (h * WORD + l)
  {
  }

  lemma SubtractionByNegation(x: int, y: int)
    requires InRange(x) && InRange(y)
    ensures Wrap(x + if y == INT128_MIN then INT128_MIN else 0 - y) == Wrap(x - y)
  {
    if y == INT128_MIN {
      WrapOfMultiple(x + y, 1);
    }
  }

  // ------------------------------------------------------------ shift-and-add multiplication

  lemma NextQuotient(y: int, i: nat)
    ensures y / Pow2(i + 1) == y / Pow2(i) / 2
  {
    hide Pow2;
    DivByNextPow2(y, i);
  }

  lemma LowestBit(h: int, l: uint64, y: int, i: nat)
    requires h * WORD + l == y / Pow2(i)
    ensures And(l, 1) != 0 <==> BitOf(y, i)
    ensures y / Pow2(i) / Pow2(1) == y / Pow2(i + 1)
  {
    assert Pow2(0) == 1 && Pow2(1) == 2;
    hide Pow2, And;
    AndOfBit(l, 0);
    NextQuotient(y, i);
  }

  /** `x` times the lowest `i` bits of `y`. */
  function Partial(x: int, y: int, i: nat): int { x * (y - y / Pow2(i) * Pow2(i)) }

  lemma NoBitsYet(x: int, y: int)
    ensures Wrap(Partial(x, y, 0)) == 0 && y / Pow2(0) == y
  {
    assert Pow2(0) == 1;
    assert x * (y - y) == 0;
  }

  lemma OneMoreBit(x: int, y: int, i: nat)
    ensures Wrap(Partial(x, y, i + 1))
         == if BitOf(y, i) then Wrap(Wrap(Partial(x, y, i)) + Wrap(x * Pow2(i))) else Wrap(Partial(x, y, i))
  {
    assert Pow2(i + 1) == 2 * Pow2(i);
    hide Pow2;
    var p := Pow2(i);
    DivByNextPow2(y, i);
    var bit := if BitOf(y, i) then 1 else 0;
    BitAdded(x, y, y / p, y / Pow2(i + 1), bit, p);
    WrapOfWrapped(x * (y - y / p * p), x * p);
  }

  lemma BitAdded(x: int, y: int, t: int, u: int, bit: int, p: int)
    requires t == 2 * u + bit
    ensures x * (y - u * (2 * p)) == x * (y - t * p) + x * (bit * p)
  {
    MulDistr(2 * u, bit, p);
    MulAssoc(u, 2, p);
    MulDistr(y - t * p, bit * p, x);
    assert y - u * (2 * p) == (y - t * p) + bit * p;
  }

  lemma AllBits(x: int, y: int)
    ensures Wrap(Partial(x, y, 128)) == Wrap(x * y)
  {
    hide Pow2;
    PowersOfWords();
    var t := y / FULL;
    assert x * (y - t * FULL) == x * y + (-x * t) * FULL;
    WrapOfMultiple(x * y, -x * t);
  }

  // ------------------------------------------------------------ division

  /** Truncating division: the remainder has the sign of the dividend. */
  predicate Truncates(n: int, d: int, q: int, r: int)
  {
    n == q * d + r && Abs(r) < Abs(d) && (r < 0 ==> n < 0) && (r > 0 ==> n > 0)
  }

  /** Truncating division by a positive number, of a number that is not negative. */
  lemma TruncationOfNatural(n: nat, d: int, q: int, r: int)
    requires d > 0 && Truncates(n, d, q, r)
    ensures q == n / d && r == n % d
  {
    DivUnique(n, d, q, r);
  }

  lemma OnlyZeroIsSmall(k: int, d: int)
    requires Abs(k * d) < Abs(d)
    ensures k == 0
  {
    assert Abs(k) * Abs(d) == Abs(k * d);
    MulLess(Abs(k), 1, Abs(d));
  }

  /** Quotient and remainder of a truncating division are determined by dividend and divisor. */
  lemma TruncationIsUnique(n: int, d: int, q: int, r: int, q': int, r': int)
    requires Truncates(n, d, q, r) && Truncates(n, d, q', r')
    ensures q == q' && r == r'
  {
    MulDistr(q, q', d);
    OnlyZeroIsSmall(q - q', d);
  }

  /** All but the lowest `b` bits. */
  function Top(x: int, b: nat): int { x / Pow2(b) }

  /** One more bit of the dividend: the step from `b` to `b - 1` of the long division. */
  lemma NextBit(x: int, b: nat)
    requires b > 0
    ensures Top(x, b - 1) == 2 * Top(x, b) + if BitOf(x, b - 1) then 1 else 0
  {
    hide Pow2;
    DivByNextPow2(x, b - 1);
  }

  lemma QuotientFits(n: nat, d: nat, m: nat, r: nat, b: nat)
    requires d > 0 && Top(n, b) == m * d + r && n < HALF
    ensures 0 <= m * Pow2(b) <= n && r <= n
    ensures r >= d ==> (m + 1) * Pow2(b) <= n && b < 127
  {
    hide Pow2;
    var p := Pow2(b);
    DivDefinition(n, p);
    PartialProducts(n, d, m, r, p, n / p);
    if r >= d && b >= 127 {
      Pow2Grows(127, b);
      PowersOfWords();
    }
  }

  lemma PartialProducts(n: nat, d: nat, m: nat, r: nat, p: nat, k: nat)
    requires d > 0 && p > 0 && k == m * d + r && k * p <= n
    ensures 0 <= m * p <= n && r <= n
    ensures r >= d ==> p <= (m + 1) * p <= n
  {
    MulMono(1, d, m);
    MulMono(m, k, p);
    MulMono(1, p, k);
    MulMono(0, m, p);
    if r >= d {
      MulMono(m + 1, k, p);
      MulMono(1, m + 1, p);
    }
  }

  /** The remainder holds all but the lowest `left` bits of the dividend. */
  predicate Leading(n: int, d: int, r: int, left: nat)
  {
    r == Top(n, left) && r < 2 * d && (left == 128 ==> r == 0)
  }

  lemma LeadingStarts(n: int, d: int)
    requires 0 < d <= n < HALF
    ensures Leading(n, d, 0, 128)
  {
    hide Pow2;
    ShiftedRightOut(n, 128);
  }

  lemma LeadingShifts(n: int, d: int, r: int, left: nat)
    requires Leading(n, d, r, left) && 0 <= r < d <= n && left <= 128
    ensures left > 0 && Leading(n, d, 2 * r + if BitOf(n, left - 1) then 1 else 0, left - 1)
    ensures 2 * r + (if BitOf(n, left - 1) then 1 else 0) <= n
  {
    assert Pow2(0) == 1;
    hide Pow2;
    NextBit(n, left);
    DivShrinks(n, Pow2(left - 1));
  }

  lemma LowestBitIsFree(h: int, l: int, x: int)
    requires 0 <= l < WORD && h * WORD + l == Wrap(2 * x)
    ensures Or(l, 1) == l + 1 < WORD
  {
    DoubledIsEven(h, l, x);
    assert Pow2(1) == 2;
    hide Pow2, Or, Wrap;
    OrOfDisjoint(l, 1, 1);
  }

  lemma DoubledIsEven(h: int, l: int, x: int)
    requires 0 <= l < WORD && h * WORD + l == Wrap(2 * x)
    ensures l % 2 == 0
  {
  }

  lemma LeadingEnds(n: int, d: int, r: int, left: nat)
    requires Leading(n, d, r, left) && 0 < d <= r && left <= 128
    ensures left <= 127
  {
  }

  /** The state of the long division before bit `b`: `m` is the quotient of the bits seen so far. */
  predicate Dividing(n: int, d: int, m: int, q: int, r: int, b: int)
  {
    0 <= b <= 127 && m >= 0 && q == m * Pow2(b) && Top(n, b) == m * d + r && 0 <= r < 2 * d && (r >= d ==> m % 2 == 0)
  }

  lemma DivisionStarts(n: nat, d: nat, r: nat, b: nat)
    requires b <= 127 && Leading(n, d, r, b)
    ensures Dividing(n, d, 0, 0, r, b) && r <= n
  {
    DivShrinks(n, Pow2(b));
    assert 0 * d == 0 && 0 * Pow2(b) == 0;
  }

  lemma DivisionShifts(n: nat, d: nat, m: int, q: int, r: int, b: nat)
    requires Dividing(n, d, m, q, r, b) && n < HALF && r < d && b > 0
    ensures Dividing(n, d, 2 * m, q, 2 * r + if BitOf(n, b - 1) then 1 else 0, b - 1)
    ensures 2 * r + (if BitOf(n, b - 1) then 1 else 0) <= n
  {
    assert Pow2(b) == 2 * Pow2(b - 1);
    hide Pow2, BitOf, Top;
    NextBit(n, b);
    var bit := if BitOf(n, b - 1) then 1 else 0;
    Doubled(n, d, m, q, r, b, bit);
    QuotientFits(n, d, 2 * m, 2 * r + bit, b - 1);
  }

  lemma Doubled(n: nat, d: nat, m: int, q: int, r: int, b: nat, bit: int)
    requires Dividing(n, d, m, q, r, b) && r < d && b > 0 && 0 <= bit <= 1
    requires Pow2(b) == 2 * Pow2(b - 1) && Top(n, b - 1) == 2 * Top(n, b) + bit
    ensures Dividing(n, d, 2 * m, q, 2 * r + bit, b - 1)
  {
    MulAssoc(2, m, d);
    MulAssoc(m, 2, Pow2(b - 1));
    hide Pow2, Top;
  }

  lemma DivisionSubtracts(n: nat, d: nat, m: int, q: int, r: int, b: nat)
    requires Dividing(n, d, m, q, r, b) && n < HALF && r >= d > 0
    ensures Dividing(n, d, m + 1, q + Pow2(b), r - d, b) && q + Pow2(b) <= n && r - d <= n
    ensures Wrap(q + BitChange(BitOf(q, b), true, b)) == q + Pow2(b) && Wrap(r - d) == r - d
  {
    hide Pow2, Top;
    QuotientFits(n, d, m, r, b);
    MulDistr(m, 1, Pow2(b));
    MulDistr(m, 1, d);
    DivUnique(q, Pow2(b), m, 0);
  }

  lemma DivisionEnds(n: nat, d: nat, m: int, q: int, r: int)
    requires Dividing(n, d, m, q, r, 0)
    ensures n == q * d + r
  {
    DivByOne(n);
    DivByOne(m);
  }

  lemma OnlyRemainder(n: int, d: int)
    requires InRange(n) && InRange(d) && d != INT128_MIN && (n == INT128_MIN || Abs(n) < Abs(d))
    ensures Truncates(n, d, 0, n) <==> n != INT128_MIN
  {
  }

  lemma RemainderOf(n: int, d: int, q: int, r: int)
    ensures Truncates(n, d, q, r) ==> r == n - q * d
  {
  }

  lemma SignsCorrected(n: int, d: int, m: nat, e: nat, a: nat, b: nat, q: int, r: int)
    requires m == Abs(n) && e == Abs(d) && m == a * e + b && b < e
    requires q == (if (d < 0) != (n < 0) then 0 - a else a) && r == if n < 0 then 0 - b else b
    ensures Truncates(n, d, q, r)
  {
    assert q * d == if n < 0 then 0 - a * e else a * e;
  }

  /** Operator `<` on the words of two numbers. */
  predicate LessWords(h: int64, l: uint64, g: int64, k: uint64)
  {
    if h == g then
      if h < 0 then Signed(l) < Signed(k) else l < k
    else
      h < g
  }

  /** -2^64 is below -1, but the operator compares the low words of the two as signed ones. */
  lemma LessCanFail()
    ensures -1 * WORD + 0 < -1 * WORD + (WORD - 1) && !LessWords(-1, 0, -1, WORD - 1)
  {
  }

  /** Operator `<` on values. */
  predicate LessValues(x: int, y: int)
  {
    if x / WORD == y / WORD then
      if x / WORD < 0 then Signed(x % WORD) < Signed(y % WORD) else x % WORD < y % WORD
    else
      x / WORD < y / WORD
  }

  /** The state of the second loop of the division. */
  datatype Division = Division(r: int, q: int, b: nat)

  /** One turn of that loop, for any operands; none when it ends. */
  function Turn(dd: int, ds: int, s: Division): Option<Division>
  {
    if LessValues(s.r, ds) then
      if s.b == 0 then None else Some(Division(Wrap(2 * s.r) + (if BitOf(dd, s.b - 1) then 1 else 0), s.q, s.b - 1))
    else
      Some(Division(Wrap(s.r - ds), if s.b >= 128 then s.q else Wrap(s.q + BitChange(BitOf(s.q, s.b), true, s.b)), s.b))
  }

  function Turns(dd: int, ds: int, s: Division, n: nat): Option<Division>
  {
    if n == 0 then Some(s)
    else
      match Turns(dd, ds, s, n - 1)
      case None => None
      case Some(t) => Turn(dd, ds, t)
  }

  /**
   * With the least number as divisor neither the early return nor the first loop applies, and the second one never ends:
   * its remainder alternates between two values.
   */
  lemma {:induction false} LeastDivisorLoops(dd: int, n: nat)
    requires 0 <= dd < HALF || dd == INT128_MIN
    ensures !LessValues(dd, INT128_MIN) && !LessValues(0, INT128_MIN)
    ensures Turns(dd, INT128_MIN, Division(0, 0, 128), n) == Some(Division(if n % 2 == 0 then 0 else INT128_MIN, 0, 128))
  {
    hide Turn, LessValues;
    if n > 0 {
      LeastDivisorLoops(dd, n - 1);
      LeastDivisorTurn(dd, if (n - 1) % 2 == 0 then 0 else INT128_MIN);
    }
    NotLessThanLeast(dd);
    NotLessThanLeast(0);
  }

  lemma NotLessThanLeast(x: int)
    requires 0 <= x < HALF || x == INT128_MIN
    ensures !LessValues(x, INT128_MIN)
  {
  }

  lemma LeastDivisorTurn(dd: int, r: int)
    requires r == 0 || r == INT128_MIN
    ensures Turn(dd, INT128_MIN, Division(r, 0, 128)) == Some(Division(if r == 0 then INT128_MIN else 0, 0, 128))
  {
    NotLessThanLeast(r);
    hide LessValues;
  }

  /** For natural numbers a turn is what the invariant of the division expects. */
  lemma TurnOfNaturals(dd: int, d: nat, s: Division)
    requires InRange(d) && InRange(s.r) && s.r >= 0
    ensures LessValues(s.r, d) <==> s.r < d
  {
  }

  // ------------------------------------------------------------ text

  function CharAt(s: string, i: nat): char { if i < |s| then s[i] else '\0' }

  /** The characters of a buffer before the terminator. */
  function CString(buf: seq<char>): string
  {
    if buf == [] || buf[0] == '\0' then [] else [buf[0]] + CString(buf[1..])
  }

  function DigitChar(c: int): (d: char)
    requires 0 <= c <= 36
    ensures d != '\0'
  {
    (c + if c > 9 then 'A' as int - 10 else '0' as int) as char
  }

  /** The digits of a number in a radix, most significant first; none for zero. */
  function Digits(n: nat, radix: nat): (s: string)
    requires 2 <= radix <= 37
    ensures '\0' !in s
  {
    if n == 0 then []
    else
      assert n / radix < n by { QuotientShrinks(n, radix, n); }
      Digits(n / radix, radix) + [DigitChar(n % radix)]
  }

  /** What is printed for a magnitude; the least number has none and is printed as a zero. */
  function Magnitude(v: int, radix: nat): string
    requires 2 <= radix <= 37
  {
    if v < 0 then "0" else Digits(v, radix)
  }

  function Text(v: int, radix: nat): string
  {
    if v == 0 then "0"
    else if radix < 2 || radix > 37 then "(invalid radix)"
    else if v == INT128_MIN then "-0"
    else if v < 0 then "-" + Digits(-v, radix)
    else Digits(v, radix)
  }

  /** The digit that the parser sees in a character, or -1. */
  function DigitOf(c: char, radix: nat): (n: int)
    requires radix <= 37
    ensures -1 <= n <= 64
  {
    var x := c as int;
    if '0' as int <= x <= '9' as int && x < '0' as int + radix then x - '0' as int
    else if 'a' as int <= x <= 'a' as int + radix - 10 then x - 'a' as int + 10
    else if 'A' as int <= x <= 'A' as int + radix - 10 then x - 'A' as int + 10
    else -1
  }

  /** The number that the leading digits of a text denote, continuing from `acc`. */
  function Read(radix: nat, s: string, acc: int): int
    requires radix <= 37
    decreases |s|
  {
    if s == [] || DigitOf(s[0], radix) < 0 then acc else Read(radix, s[1..], acc * radix + DigitOf(s[0], radix))
  }

  function Unprefixed(s: string): int
  {
    if CharAt(s, 0) != '0' then Read(10, s, 0)
    else if CharAt(s, 1) != 'x' then Read(8, s[1..], 0)
    else Read(16, s[2..], 0)
  }

  /** The number the parser takes a text for. */
  function Meaning(s: string): int
  {
    if CharAt(s, 0) == '-' then -Unprefixed(s[1..]) else Unprefixed(s)
  }

  // ------------------------------------------------------------ the parser and positional notation

  /** The value of a digit in the usual sense; 36 for characters that are none. */
  function StandardDigit(c: char): (n: nat)
  {
    if '0' <= c <= '9' then c as int - '0' as int
    else if 'a' <= c <= 'z' then c as int - 'a' as int + 10
    else if 'A' <= c <= 'Z' then c as int - 'A' as int + 10
    else 36
  }

  predicate IsRadix(radix: nat) { radix == 8 || radix == 10 || radix == 16 }

  predicate IsProper(c: char, radix: nat) { StandardDigit(c) < radix }

  /** The parser takes the first letter behind the digits of radix 10 and 16 for a digit, too. */
  predicate IsExtra(c: char, radix: nat)
  {
    (radix == 10 && (c == 'a' || c == 'A')) || (radix == 16 && (c == 'g' || c == 'G'))
  }

  lemma DigitBeyondRadix(c: char, radix: nat)
    requires IsRadix(radix)
    ensures DigitOf(c, radix) >= radix <==> IsExtra(c, radix)
    ensures DigitOf(c, radix) == if IsProper(c, radix) then StandardDigit(c) else if IsExtra(c, radix) then radix else -1
  {
  }

  function Power(b: nat, n: nat): nat { if n == 0 then 1 else b * Power(b, n - 1) }

  /** How many proper digits a text begins with. */
  function ProperRun(radix: nat, s: string): (n: nat)
    ensures n <= |s| && (forall i :: 0 <= i < n ==> IsProper(s[i], radix)) && (n < |s| ==> !IsProper(s[n], radix))
  {
    if s == [] || !IsProper(s[0], radix) then 0 else 1 + ProperRun(radix, s[1..])
  }

  /** The value of digits in positional notation. */
  function Positional(radix: nat, digits: string): nat
  {
    if digits == [] then 0 else StandardDigit(digits[0]) * Power(radix, |digits| - 1) + Positional(radix, digits[1..])
  }

  /** The value of digits that continue a number. */
  function Continued(radix: nat, acc: nat, digits: string): nat { acc * Power(radix, |digits|) + Positional(radix, digits) }

  lemma ContinuedEnds(radix: nat, acc: nat, digits: string)
    ensures Continued(radix, acc, []) == acc && Continued(radix, 0, digits) == Positional(radix, digits)
  {
  }

  lemma ContinuedStep(radix: nat, acc: nat, digits: string)
    requires digits != []
    ensures Continued(radix, acc, digits) == Continued(radix, acc * radix + StandardDigit(digits[0]), digits[1..])
  {
    hide StandardDigit;
    var d, power := StandardDigit(digits[0]), Power(radix, |digits| - 1);
    MulDistr(acc * radix, d, power);
    MulAssoc(acc, radix, power);
  }

  /** What an extra digit makes of a number. */
  function WithExtra(v: nat, radix: nat): nat { v * radix + radix }

  /** The proper digits come in with their positional value; an extra digit behind them is read on. */
  lemma {:induction false} ReadsProperDigits(radix: nat, s: string, acc: nat)
    requires IsRadix(radix)
    ensures var n := ProperRun(radix, s); var v := Continued(radix, acc, s[..n]);
      Read(radix, s, acc) == if n < |s| && IsExtra(s[n], radix) then Read(radix, s[n + 1..], WithExtra(v, radix)) else v
  {
    hide DigitOf, StandardDigit, IsExtra, IsRadix, Continued;
    var n := ProperRun(radix, s);
    ContinuedEnds(radix, acc, []);
    if s != [] { DigitBeyondRadix(s[0], radix); }
    if n > 0 {
      var t := s[1..];
      ReadsProperDigits(radix, t, acc * radix + StandardDigit(s[0]));
      ContinuedStep(radix, acc, s[..n]);
      assert s[..n][1..] == t[..n - 1] && (n < |s| ==> t[n..] == s[n + 1..]);
    }
  }

  lemma {:induction false} ReadGrows(radix: nat, s: string, acc: nat)
    requires radix >= 1 && radix <= 37
    ensures Read(radix, s, acc) >= acc
  {
    hide DigitOf;
    if s != [] && DigitOf(s[0], radix) >= 0 {
      MulMono(1, radix, acc);
      ReadGrows(radix, s[1..], acc * radix + DigitOf(s[0], radix));
    }
  }

  /** The parser gives the digits at the front of a text their value if and only if no extra digit follows them. */
  lemma ReadIsPositional(radix: nat, s: string)
    requires IsRadix(radix)
    ensures var n := ProperRun(radix, s);
      Read(radix, s, 0) == Positional(radix, s[..n]) <==> !(n < |s| && IsExtra(s[n], radix))
  {
    hide Read, Positional, ProperRun, Continued, IsExtra, IsRadix, WithExtra;
    var n := ProperRun(radix, s);
    ReadsProperDigits(radix, s, 0);
    ContinuedEnds(radix, 0, s[..n]);
    if n < |s| { ReadsMore(radix, s[n + 1..], Positional(radix, s[..n])); }
  }

  lemma ReadsMore(radix: nat, s: string, v: nat)
    requires IsRadix(radix)
    ensures Read(radix, s, WithExtra(v, radix)) > v
  {
    hide Read;
    MulMono(1, radix, v);
    ReadGrows(radix, s, v * radix + radix);
  }

  datatype Numeral = Numeral(minus: bool, radix: nat, digits: string)

  /** Sign and radix of a text, and what follows them. */
  function NumeralOf(s: string): Numeral
  {
    var minus := CharAt(s, 0) == '-';
    var t := if minus then s[1..] else s;
    if CharAt(t, 0) != '0' then Numeral(minus, 10, t)
    else if CharAt(t, 1) != 'x' then Numeral(minus, 8, t[1..])
    else Numeral(minus, 16, t[2..])
  }

  function WithSign(minus: bool, n: int): int { if minus then -n else n }

  /** So a text has its usual value if and only if the digits after sign and prefix are not followed by an extra one. */
  lemma MeaningIsUsual(s: string)
    ensures var Numeral(minus, radix, digits) := NumeralOf(s); var n := ProperRun(radix, digits);
      Meaning(s) == WithSign(minus, Positional(radix, digits[..n])) <==> !(n < |digits| && IsExtra(digits[n], radix))
  {
    hide Read, Positional, ProperRun, IsExtra;
    var numeral := NumeralOf(s);
    ReadIsPositional(numeral.radix, numeral.digits);
  }

  /** Texts with such a digit. */
  lemma ExtraDigits()
    ensures Meaning("1a") == 20 && Meaning("a") == 10 && Meaning("0xg") == 16
  {
    assert "1a"[1..] == "a" && "a"[1..] == "" && "0xg"[2..] == "g" && "g"[1..] == "";
  }

  lemma ReadNothing()
    ensures Wrap(Meaning("")) == 0
  {
    assert Wrap(0) == 0;
  }

  /** One turn of the parser's loop, modulo 2 to the 128. */
  lemma ReadStep(radix: nat, s: string, i: nat, acc: int)
    requires radix <= 37 && i < |s| && InRange(acc)
    ensures DigitOf(s[i], radix) < 0 ==> Wrap(Read(radix, s[i..], acc)) == acc
    ensures DigitOf(s[i], radix) >= 0 ==>
      Wrap(Read(radix, s[i + 1..], Wrap(Wrap(acc * radix) + DigitOf(s[i], radix)))) == Wrap(Read(radix, s[i..], acc))
  {
    var n := DigitOf(s[i], radix);
    assert s[i..][0] == s[i] && s[i..][1..] == s[i + 1..];
    hide Wrap, DigitOf;
    WrapOfSmall(acc);
    WrapOfSmall(n);
    WrapOfWrapped(acc * radix, n);
    if n >= 0 {
      var next := Wrap(acc * radix) + n;
      WrapOfSmall(0);
      WrapOfWrapped(next, 0);
      ReadModulo(radix, s[i + 1..], Wrap(next), acc * radix + n);
    }
  }

  lemma ReadEnd(radix: nat, s: string, i: nat, acc: int)
    requires radix <= 37 && i == |s| && InRange(acc)
    ensures Wrap(Read(radix, s[i..], acc)) == acc
  {
    assert s[i..] == [];
  }

  lemma UnprefixedIs(s: string, minus: bool, radix: nat, i: nat)
    requires |s| > 0 && minus == (s[0] == '-') && i <= |s|
    requires var m := if minus then 1 else 0;
      if CharAt(s, m) != '0' then radix == 10 && i == m
      else if CharAt(s, m + 1) != 'x' then radix == 8 && i == m + 1
      else radix == 16 && i == m + 2
    ensures Meaning(s) == if minus then -Read(radix, s[i..], 0) else Read(radix, s[i..], 0)
  {
    hide Read;
    if minus {
      assert s[i..] == s[1..][i - 1..];
    }
  }

  lemma HalvedAtLeast(n: nat, d: nat, q: int, r: nat)
    requires d >= 2 && n == q * d + r && r < d
    ensures 0 <= 2 * q <= n
  {
    QuotientIsBounded(n, d, q, r);
    MulMono(2, d, q);
    assert d * q == q * d;
  }

  lemma QuotientShrinks(n: nat, radix: nat, k: nat)
    requires radix >= 2
    ensures n > 0 ==> n / radix < n
    ensures 0 < n < Pow2(k) ==> k > 0 && n / radix < Pow2(k - 1)
  {
    DivDefinition(n, radix);
    HalvedAtLeast(n, radix, n / radix, n % radix);
  }

  lemma {:induction false} CStringUpToNul(s: string)
    requires '\0' !in s
    ensures CString(s + ['\0']) == s
  {
    if s != [] {
      assert (s + ['\0'])[1..] == s[1..] + ['\0'];
      CStringUpToNul(s[1..]);
    }
  }

  lemma DigitsStep(n: nat, radix: nat, q: int, r: int)
    requires 2 <= radix <= 37 && n > 0 && Truncates(n, radix, q, r)
    ensures 0 <= r < radix && 0 <= 2 * q <= n && Digits(n, radix) == Digits(q, radix) + [DigitChar(r)]
  {
    TruncationOfNatural(n, radix, q, r);
    HalvedAtLeast(n, radix, q, r);
  }

  /** The state of the printing loop: `x` is what is left of `v`, `done` what stands in the buffer from `i`. */
  predicate Printing(v: int, radix: nat, x: int, i: nat, done: string)
    requires 2 <= radix <= 37
  {
    && 128 <= i <= 255 && x < Pow2(i - 128)
    && (x < 0 ==> x == v == INT128_MIN && i == 255 && done == "")
    && (x >= 0 ==> Magnitude(v, radix) == Digits(x, radix) + done)
  }

  lemma PrintingStarts(v: int, radix: nat)
    requires 2 <= radix <= 37 && InRange(v)
    ensures Printing(if v == INT128_MIN then v else Abs(v), radix, if v == INT128_MIN then v else Abs(v), 255, "")
  {
    hide Pow2, Digits;
    PowersOfWords();
    assert Digits(Abs(v), radix) + "" == Digits(Abs(v), radix);
  }

  lemma PrintingStep(v: int, radix: nat, x: int, q: int, r: int, i: nat, done: string)
    requires 2 <= radix <= 37 && Printing(v, radix, x, i, done) && x != 0
    requires Truncates(x, radix, q, r) <==> x != INT128_MIN
    requires x == INT128_MIN ==> q == 0 && r == INT128_MIN
    ensures i > 128 && q >= 0 && (x > 0 ==> q < x)
    ensures 0 <= r < radix || (r < 0 && r % UINT == 0)
    ensures Printing(v, radix, q, i - 1, [DigitChar(if r < 0 then 0 else r)] + done)
  {
    if i > 128 { Pow2Next(i - 129); }
    assert Pow2(0) == 1;
    assert Digits(0, radix) == "";
    hide Pow2, Truncates, Digits;
    if x >= 0 {
      DigitsStep(x, radix, q, r);
      assert Digits(x, radix) + done == Digits(q, radix) + ([DigitChar(r)] + done);
    } else {
      assert [DigitChar(0)] + done == "0";
    }
  }

  lemma PrintingEnds(n: int, v: int, radix: nat, i: nat, done: string)
    requires 2 <= radix <= 37 && InRange(n) && n != 0 && v == if n == INT128_MIN then n else Abs(n)
    requires Printing(v, radix, 0, i, done)
    ensures CString(done + ['\0']) == Text(n, radix) || n < 0
    ensures n < 0 ==> CString("-" + done + ['\0']) == Text(n, radix)
  {
    hide Pow2;
    assert Digits(0, radix) + done == done;
    CStringUpToNul(done);
    CStringUpToNul("-" + done);
  }

  /** Reading modulo 2 to the 128 may start from any accumulator that is the same modulo 2 to the 128. */
  lemma {:induction false} ReadModulo(radix: nat, s: string, a: int, b: int)
    requires radix <= 37 && Wrap(a) == Wrap(b)
    ensures Wrap(Read(radix, s, a)) == Wrap(Read(radix, s, b))
    decreases |s|
  {
    hide Wrap, DigitOf;
    if s != [] && DigitOf(s[0], radix) >= 0 {
      var n := DigitOf(s[0], radix);
      WrapProduct(a, radix);
      WrapProduct(b, radix);
      WrapOfWrapped(a * radix, n);
      WrapOfWrapped(b * radix, n);
      ReadModulo(radix, s[1..], a * radix + n, b * radix + n);
    }
  }

  class Int128 {
    var lo: uint64
    var hi: int64

    ghost function Value(): (v: int)
      reads this
      ensures InRange(v)
    {
      hi * WORD + lo
    }

    /** The constructors from 32-bit integers, signed and unsigned. */
    constructor FromInt(a: int)
      requires -0x8000_0000 <= a < UINT
      ensures Value() == a
    {
      lo := Unsigned(a);
      hi := if a < 0 then -1 else 0;
    }

    constructor Copy(a: Int128)
      ensures Value() == a.Value()
    {
      lo := a.lo;
      hi := a.hi;
    }

    constructor FromWords(l: uint64, h: int64)
      ensures lo == l && hi == h
    {
      lo := l;
      hi := h;
    }

    method Assign(other: Int128)
      modifies this
      ensures Value() == old(other.Value())
    {
      lo := other.lo;
      hi := other.hi;
    }

    /** Assignment from a signed word does not extend the sign, unlike construction from one. */
    method AssignInt64(a: int64)
      modifies this
      ensures Value() == a % WORD
      ensures Value() == a <==> a >= 0
    {
      lo := Unsigned(a);
      hi := 0;
    }

    predicate IsZero()
      reads this
      ensures IsZero() <==> Value() == 0
    {
      !(hi != 0 || lo != 0)
    }

    predicate Equals(b: Int128)
      reads this, b
      ensures Equals(b) <==> Value() == b.Value()
    {
      hi == b.hi && lo == b.lo
    }

    /** Operator `<`, see `LessIsOrder` for what it decides. */
    predicate Less(b: Int128)
      reads this, b
      ensures !(hi == b.hi < 0) ==> (Less(b) <==> Value() < b.Value())
    {
      LessWords(hi, lo, b.hi, b.lo)
    }

    /** The negative; the least number is its own. */
    method Negated() returns (r: Int128)
      ensures fresh(r) && r.Value() == if Value() == INT128_MIN then INT128_MIN else 0 - Value()
    {
      hide Signed, Unsigned;
      NegatedWords(hi, lo);
      if lo == 0 {
        r := new Int128.FromWords(0, Signed(0 - hi));
      } else {
        r := new Int128.FromWords(Unsigned(0 - lo), -1 - hi);
      }
    }

    /** The operand that the division and the printing work on: `x < 0 ? -x : x`. */
    method Absolute() returns (r: Int128)
      ensures fresh(r) && r.Value() == if Value() == INT128_MIN then INT128_MIN else Abs(Value())
    {
      hide Less;
      var zero := new Int128.FromInt(0);
      if this.Less(zero) { r := this.Negated(); } else { r := new Int128.Copy(this); }
    }

    method AddAssign(b: Int128)
      modifies this
      ensures Value() == Wrap(old(Value()) + old(b.Value()))
    {
      hide Wrap, Unsigned, Signed;
      AddedWords(hi, lo, b.hi, b.lo);
      var oldLo := lo;
      lo := Unsigned(lo + b.lo);
      hi := Signed(hi + b.hi);
      if lo < oldLo {
        hi := Signed(hi + 1);
      }
    }

    method SubAssign(b: Int128)
      modifies this
      ensures Value() == Wrap(old(Value()) - old(b.Value()))
    {
      hide Wrap;
      SubtractionByNegation(Value(), b.Value());
      var n := b.Negated();
      AddAssign(n);
    }

    predicate Bit(n: nat)
      reads this
      ensures Bit(n) == BitOf(Value(), n)
    {
      if n >= 128 then
        assert BitOf(Value(), n) == (hi < 0) by { BitBeyond(Value(), n); }
        hi < 0
      else if n < 64 then
        assert And(lo, Pow2(n)) != 0 <==> BitOf(Value(), n) by { AndOfBit(lo, n); BitOfLowWord(hi, lo, n); }
        And(lo, Pow2(n)) != 0
      else
        assert And(Unsigned(hi), Pow2(n - 64)) != 0 <==> BitOf(Value(), n) by {
          AndOfBit(Unsigned(hi), n - 64);
          BitOfUnsigned(hi, n - 64);
          BitOfHighWord(hi, lo, n);
        }
        And(Unsigned(hi), Pow2(n - 64)) != 0
    }

    method SetBit(n: nat, val: bool)
      modifies this
      ensures n >= 128 ==> Value() == old(Value())
      ensures n < 128 ==> Value() == Wrap(old(Value()) + BitChange(old(Bit(n)), val, n))
    {
      if n >= 128 {
        return;
      }
      hide Pow2, And, Or, BitOf, BitChange, Wrap, Signed, Unsigned;
      if n < 64 {
        LowWordWithBit(hi, lo, n, val);
        lo := if val then Or(lo, Pow2(n)) else And(lo, WORD - 1 - Pow2(n));
      } else {
        HighWordWithBit(hi, lo, n, val);
        var k := n - 64;
        hi := Signed(if val then Or(Unsigned(hi), Pow2(k)) else And(Unsigned(hi), WORD - 1 - Pow2(k)));
      }
    }

    method ShiftRightAssign(n: nat)
      modifies this
      ensures Value() == old(Value()) / Pow2(n)
    {
      hide Pow2, And, Or;
      if n >= 128 {
        ShiftedRightOut(Value(), n);
        hi := if hi < 0 then -1 else 0;
        lo := Unsigned(hi);
        return;
      }
      if n >= 64 {
        ShiftedRightByWords(hi, lo, n);
        DivShrinks(hi, Pow2(n - 64));
        lo := Unsigned(hi / Pow2(n - 64));
        hi := if hi < 0 then -1 else 0;
        return;
      }
      if n != 0 {
        hide Unsigned;
        ShiftedRightWithinWord(hi, lo, n);
        HighPartForLow(hi, lo, n);
        DivShrinks(hi, Pow2(n));
        lo := lo / Pow2(n);
        var mask := Pow2(n) - 1;
        UnsignedOfWord(And(Unsigned(hi), mask) * Pow2(64 - n));
        lo := Or(lo, Unsigned(And(Unsigned(hi), mask) * Pow2(64 - n)));
        hi := hi / Pow2(n);
      } else {
        DivByOne(Value());
      }
    }

    method ShiftLeftAssign(n: nat)
      modifies this
      ensures Value() == Wrap(old(Value()) * Pow2(n))
    {
      hide Pow2, And, Or, Wrap, Unsigned, Signed;
      if n >= 128 {
        ShiftedLeftWords(hi, lo, n);
        lo := 0;
        hi := 0;
        return;
      }
      if n >= 64 {
        ShiftedLeftWords(hi, lo, n);
        hi := Signed(Unsigned(lo * Pow2(n - 64)));
        lo := 0;
        return;
      }
      if n != 0 {
        ShiftedLeftBits(hi, lo, n);
        LowPartForHigh(hi, lo, n);
        hi := Signed(hi * Pow2(n));
        var mask := WORD - 1 - (Pow2(64 - n) - 1);
        hi := Signed(Or(Unsigned(hi), And(lo, mask) / Pow2(64 - n)));
        lo := Unsigned(lo * Pow2(n));
      } else {
        DivByOne(Value());
      }
    }

    method MulAssign(b: Int128)
      modifies this
      ensures Value() == Wrap(old(Value()) * old(b.Value()))
    {
      hide Pow2, BitOf, And, Wrap, Partial;
      WrapOfSmall(0);
      WrapOfSmall(Value());
      if b.IsZero() {
        lo, hi := 0, 0;
        return;
      }
      var one := new Int128.FromInt(1);
      if b.Equals(one) {
        return;
      }
      var a := new Int128.Copy(this);
      var t := new Int128.Copy(b);
      ghost var x, y := Value(), b.Value();
      lo, hi := 0, 0;
      NoBitsYet(x, y);
      for i := 0 to 128
        modifies this, t
        invariant a.Value() == x && t.Value() == y / Pow2(i)
        invariant Value() == Wrap(Partial(x, y, i))
      {
        LowestBit(t.hi, t.lo, y, i);
        OneMoreBit(x, y, i);
        if And(t.lo, 1) != 0 {
          var shifted := new Int128.Copy(a);
          shifted.ShiftLeftAssign(i);
          AddAssign(shifted);
        }
        t.ShiftRightAssign(1);
      }
      AllBits(x, y);
    }

    /** What the long division does to its remainder: `r <<= 1` and then `r.lo |= 1` if the bit is set. */
    method ShiftIn(bit: bool)
      modifies this
      ensures Value() == Wrap(2 * old(Value())) + if bit then 1 else 0
    {
      assert Pow2(1) == 2;
      hide Wrap, Pow2, Or;
      ghost var v := Value();
      ShiftLeftAssign(1);
      assert v * 2 == 2 * v;
      if bit {
        LowestBitIsFree(hi, lo, v);
        lo := Or(lo, 1);
      }
    }

    /** Division with remainder; it is wrong for exactly one dividend, the least number. */
    method Div(divisor: Int128, remainder: Int128) returns (quotient: Int128)
      requires divisor.Value() != 0 && divisor.Value() != INT128_MIN
      modifies remainder
      ensures fresh(quotient)
      ensures Truncates(old(Value()), old(divisor.Value()), quotient.Value(), remainder.Value()) <==> old(Value()) != INT128_MIN
      ensures old(Value()) == INT128_MIN ==> quotient.Value() == 0 && remainder.Value() == INT128_MIN
    {
      hide Less, Truncates, Pow2;
      var zero := new Int128.FromInt(0);
      var ds := divisor.Absolute();
      var dd := this.Absolute();
      ghost var n, d := Value(), divisor.Value();

      // the dividend is the smaller one: it is the remainder itself
      if dd.Less(ds) {
        OnlyRemainder(n, d);
        remainder.Assign(this);
        quotient := new Int128.FromInt(0);
        return;
      }
      assert n != INT128_MIN;
      ghost var m, e := dd.Value(), ds.Value();
      var q, r := DivideMagnitudes(dd, ds);
      ghost var a, rest := q.Value(), r.Value();

      // truncation: the quotient has the sign of the product, the remainder that of the dividend
      if divisor.Less(zero) != this.Less(zero) {
        q := q.Negated();
      }
      if this.Less(zero) {
        r := r.Negated();
      }
      SignsCorrected(n, d, m, e, a, rest, q.Value(), r.Value());
      remainder.Assign(r);
      quotient := q;
    }

    method DivAssign(b: Int128)
      requires b.Value() != 0 && b.Value() != INT128_MIN
      modifies this
      ensures old(Value()) != INT128_MIN ==> Truncates(old(Value()), old(b.Value()), Value(), old(Value()) - Value() * old(b.Value()))
    {
      hide Truncates;
      ghost var n, d := Value(), b.Value();
      var dummy := new Int128.FromInt(0);
      var q := this.Div(b, dummy);
      RemainderOf(n, d, q.Value(), dummy.Value());
      Assign(q);
    }

    /** The remainder is written over the dividend. */
    method ModAssign(b: Int128)
      requires b.Value() != 0 && b.Value() != INT128_MIN
      modifies this
      ensures old(Value()) != INT128_MIN ==> exists q :: Truncates(old(Value()), old(b.Value()), q, Value())
    {
      hide Truncates;
      var q := this.Div(b, this);
    }

    /** `Int128(sz)`: an optional minus, then digits in the radix that the prefix tells. */
    method Set(sz: string)
      modifies this
      ensures Value() == Wrap(Meaning(sz))
    {
      hide Read, Wrap, DigitOf;
      lo, hi := 0, 0;
      if |sz| == 0 {
        ReadNothing();
        return;
      }
      var radix, i, minus := 10, 0, false;
      if sz[i] == '-' {
        i := i + 1;
        minus := true;
      }
      if CharAt(sz, i) == '0' {
        radix := 8;
        i := i + 1;
        if CharAt(sz, i) == 'x' {
          radix := 16;
          i := i + 1;
        }
      }
      ghost var number := Read(radix, sz[i..], 0);
      UnprefixedIs(sz, minus, radix, i);
      while i < |sz|
        invariant i <= |sz| && Wrap(Read(radix, sz[i..], Value())) == Wrap(number)
        modifies this
      {
        ReadStep(radix, sz, i, Value());
        var n := DigitOf(sz[i], radix);
        if n < 0 {
          break;
        }
        var factor := new Int128.FromInt(radix);
        MulAssign(factor);
        var summand := new Int128.FromInt(n);
        AddAssign(summand);
        i := i + 1;
      }
      if i == |sz| { ReadEnd(radix, sz, i, Value()); }
      if minus {
        var zero := new Int128.FromInt(0);
        zero.SubAssign(this);
        WrapOfWrapped(number, 0);
        Assign(zero);
      }
    }

    method ToInt() returns (i: int)
      ensures 0 <= Value() < 0x8000_0000 ==> i == Value()
      ensures Value() % UINT == 0 ==> i == 0
    {
      i := (lo + 0x8000_0000) % UINT - 0x8000_0000;
    }

    /** The text of the number in a radix. */
    method Str(radix: nat) returns (s: string)
      ensures s == Text(Value(), radix)
    {
      if IsZero() {
        return "0";
      }
      if radix < 2 || radix > 37 {
        return "(invalid radix)";
      }
      hide Less, Printing, Truncates, Magnitude, Text, Digits, DigitChar, CString, Pow2, Wrap, Abs;
      var sz := new char[256](_ => '\0');
      var ii := this.Absolute();
      ghost var v := ii.Value();
      PrintingStarts(Value(), radix);
      var i := PrintDigits(sz, ii, radix);
      PrintingEnds(Value(), v, radix, i, sz[i..255]);
      var zero := new Int128.FromInt(0);
      if this.Less(zero) {
        i := PutBefore(sz, i, '-');
      }
      s := CString(sz[i..]);
    }
  }

  /** The digits from the last one on, into a buffer that is never filled. */
  method PrintDigits(sz: array<char>, number: Int128, radix: nat) returns (i: nat)
    requires sz.Length == 256 && sz[255] == '\0' && 2 <= radix <= 37 && Printing(number.Value(), radix, number.Value(), 255, "")
    modifies sz
    ensures 128 <= i <= 255 && sz[255] == '\0' && sz[i..] == sz[i..255] + ['\0']
    ensures Printing(number.Value(), radix, 0, i, sz[i..255])
  {
    hide Printing, Truncates, Magnitude, Digits, DigitChar, Pow2, Wrap, Abs;
    i := sz.Length - 1;
    var ii := number;
    var r := new Int128.FromInt(0);
    var aux := new Int128.FromInt(radix);
    ghost var v := ii.Value();
    assert sz[i..255] == "";
    while !ii.IsZero() && i != 0
      modifies sz, r
      invariant 128 <= i <= 255 && sz[255] == '\0'
      invariant Printing(v, radix, ii.Value(), i, sz[i..255]) && sz[i..] == sz[i..255] + ['\0']
      invariant r !in {ii, aux, number} && aux.Value() == radix
      decreases if ii.Value() < 0 then HALF else ii.Value()
    {
      ghost var x := ii.Value();
      ghost var done := sz[i..255];
      ii := ii.Div(aux, r);
      PrintingStep(v, radix, x, ii.Value(), r.Value(), i, done);
      var c := r.ToInt();
      i := PutBefore(sz, i, DigitChar(c));
    }
  }

  /** `sz[--i] = c` in a buffer of which the last character is the terminator. */
  method PutBefore(sz: array<char>, i: nat, c: char) returns (j: nat)
    requires sz.Length == 256 && 0 < i <= 255 && sz[255] == '\0'
    modifies sz
    ensures j == i - 1 && sz[255] == '\0'
    ensures sz[j..255] == [c] + old(sz[i..255]) && sz[j..] == sz[j..255] + ['\0']
  {
    j := i - 1;
    sz[j] := c;
  }

  /** The division proper, of positive numbers. */
  method DivideMagnitudes(dd: Int128, ds: Int128) returns (q: Int128, r: Int128)
    requires 0 < ds.Value() <= dd.Value()
    ensures fresh(q) && fresh(r) && dd.Value() == q.Value() * ds.Value() + r.Value()
    ensures 0 <= r.Value() < ds.Value() && 0 <= q.Value() <= dd.Value()
  {
    hide Leading;
    r := new Int128.FromInt(0);
    q := new Int128.FromInt(0);
    var b := LeadingBits(dd, ds, r);
    LongDivision(dd, ds, r, q, b);
  }

  /** The first loop of the division: bits of the dividend enter until the divisor fits. */
  method LeadingBits(dd: Int128, ds: Int128, r: Int128) returns (b: nat)
    requires 0 < ds.Value() <= dd.Value() && r.Value() == 0 && r != dd && r != ds
    modifies r
    ensures b <= 127 && Leading(dd.Value(), ds.Value(), r.Value(), b) && r.Value() >= ds.Value()
  {
    hide Pow2, BitOf, Leading, Int128.Less, Wrap;
    ghost var left := 128;
    b := 127;
    LeadingStarts(dd.Value(), ds.Value());
    while r.Less(ds)
      invariant 0 <= left <= 128 && b == (left - 1) % UINT
      invariant Leading(dd.Value(), ds.Value(), r.Value(), left) && 0 <= r.Value()
      decreases left
    {
      LeadingShifts(dd.Value(), ds.Value(), r.Value(), left);
      WrapOfSmall(2 * r.Value());
      r.ShiftIn(dd.Bit(b));
      b := (b - 1) % UINT;
      left := left - 1;
    }
    b := (b + 1) % UINT;
    LeadingEnds(dd.Value(), ds.Value(), r.Value(), left);
    assert b == left;
  }

  /** One turn of the second loop. */
  method DivisionTurn(dd: Int128, ds: Int128, r: Int128, q: Int128, b: nat) returns (more: bool, next: nat)
    requires r !in {dd, ds, q} && q !in {dd, ds}
    modifies r, q
    ensures match Turn(dd.Value(), ds.Value(), Division(old(r.Value()), old(q.Value()), b))
            case None => !more && r.Value() == old(r.Value()) && q.Value() == old(q.Value())
            case Some(s) => more && s == Division(r.Value(), q.Value(), next)
  {
    hide Wrap, BitChange, BitOf, LessValues, Int128.Less;
    LessOfValues(r, ds);
    if r.Less(ds) {
      if b == 0 {
        return false, UINT - 1;
      }
      r.ShiftIn(dd.Bit(b - 1));
      return true, b - 1;
    }
    r.SubAssign(ds);
    q.SetBit(b, true);
    return true, b;
  }

  lemma LessOfValues(a: Int128, b: Int128)
    ensures a.Less(b) <==> LessValues(a.Value(), b.Value())
  {
    hide Signed;
    DivUnique(a.Value(), WORD, a.hi, a.lo);
    DivUnique(b.Value(), WORD, b.hi, b.lo);
  }

  /** The second loop of the division: restore and subtract, bit by bit. */
  method LongDivision(dd: Int128, ds: Int128, r: Int128, q: Int128, start: nat)
    requires 0 < ds.Value() <= dd.Value() && start <= 127
    requires Leading(dd.Value(), ds.Value(), r.Value(), start) && r.Value() >= ds.Value()
    requires q.Value() == 0 && r !in {dd, ds, q} && q !in {dd, ds}
    modifies r, q
    ensures dd.Value() == q.Value() * ds.Value() + r.Value()
    ensures 0 <= r.Value() < ds.Value() && 0 <= q.Value() <= dd.Value()
  {
    hide Dividing, Leading, Pow2, Wrap, BitOf, BitChange, LessValues;
    var b := start;
    ghost var m := 0;
    ghost var n, d := dd.Value(), ds.Value();
    DivisionStarts(n, d, r.Value(), b);
    while true
      invariant Dividing(n, d, m, q.Value(), r.Value(), b)
      invariant 0 <= b <= 127 && 0 <= r.Value() <= n && 0 <= q.Value() <= n
      decreases b, r.Value()
    {
      ghost var s := Division(r.Value(), q.Value(), b);
      TurnOfNaturals(n, d, s);
      ghost var less := s.r < d;
      if less {
        if b > 0 {
          DivisionShifts(n, d, m, s.q, s.r, b);
          WrapOfSmall(2 * s.r);
        }
      } else {
        DivisionSubtracts(n, d, m, s.q, s.r, b);
      }
      var more;
      more, b := DivisionTurn(dd, ds, r, q, b);
      if !more {
        break;
      }
      m := if less then 2 * m else m + 1;
    }
    DivisionEnds(n, d, m, q.Value(), r.Value());
  }

  /** Operator `<` is the order of the values, except for two equal negative high words over low words of which one has its top bit set. */
  lemma LessIsOrder(a: Int128, b: Int128)
    ensures (a.Less(b) <==> a.Value() < b.Value()) <==> !(a.hi == b.hi < 0 && (a.lo < HALF_WORD) != (b.lo < HALF_WORD))
  {
  }

  /** Printing a number in decimal and parsing the text gives it back, for every number but the least. */
  lemma DecimalRoundTrip(v: int)
    requires InRange(v)
    ensures Wrap(Meaning(Text(v, 10))) == v <==> v != INT128_MIN
  {
    hide Wrap, Digits;
    WrapOfSmall(v);
    WrapOfSmall(0);
    if v == INT128_MIN {
      assert Text(v, 10)[1..] == "0";
      assert "0"[1..] == "";
    } else if v == 0 {
      assert Text(v, 10)[1..] == "";
    } else if v > 0 {
      DecimalDigits(v);
    } else {
      DecimalDigits(-v);
      assert Text(v, 10)[1..] == Digits(-v, 10);
    }
  }

  lemma DecimalDigits(v: nat)
    requires v > 0
    ensures Unprefixed(Digits(v, 10)) == v && CharAt(Digits(v, 10), 0) != '-'
  {
    hide Digits;
    FirstDigit(v, 10);
    DigitsRead(v, 10, []);
    assert Digits(v, 10) + [] == Digits(v, 10);
  }

  /** The prefixes make octal and hexadecimal texts readable too. */
  lemma PrefixedRoundTrip(v: int)
    requires InRange(v) && v > 0
    ensures Wrap(Meaning("0x" + Text(v, 16))) == v && Wrap(Meaning("0" + Text(v, 8))) == v
  {
    hide Digits, Read;
    var s, t := Digits(v, 16), Digits(v, 8);
    assert ("0x" + s)[2..] == s + [] && ("0" + t)[1..] == t + [];
    DigitsRead(v, 16, []);
    DigitsRead(v, 8, []);
    FirstDigit(v, 8);
    assert Read(16, [], v) == v == Read(8, [], v) by { ReadNone(v); }
  }

  lemma ReadNone(v: int)
    ensures Read(16, [], v) == v == Read(8, [], v)
  {
  }

  lemma {:induction false} DigitsRead(n: nat, radix: nat, rest: string)
    requires radix in {8, 10, 16}
    ensures Read(radix, Digits(n, radix) + rest, 0) == Read(radix, rest, n)
    decreases n
  {
    if n == 0 {
      assert Digits(n, radix) + rest == rest;
    } else {
      hide Digits, Read, DigitChar;
      var q, r := SplitLastDigit(n, radix);
      DigitsRead(q, radix, [DigitChar(r)] + rest);
      DigitRead(radix, q, r, rest);
      Assoc(Digits(q, radix), [DigitChar(r)], rest);
    }
  }

  lemma SplitLastDigit(n: nat, radix: nat) returns (q: nat, r: nat)
    requires 2 <= radix <= 37 && n > 0
    ensures n == q * radix + r && r < radix && q < n && Digits(n, radix) == Digits(q, radix) + [DigitChar(r)]
  {
    q, r := n / radix, n % radix;
    DivDefinition(n, radix);
    DigitsStep(n, radix, q, r);
  }

  lemma DigitRead(radix: nat, q: nat, r: nat, rest: string)
    requires radix in {8, 10, 16} && r < radix
    ensures Read(radix, [DigitChar(r)] + rest, q) == Read(radix, rest, q * radix + r)
  {
    assert ([DigitChar(r)] + rest)[1..] == rest;
  }

  /** The text is the usual notation of the number in every radix that is allowed: a sign, and digits without a leading zero. */
  lemma TextIsPositional(v: int, radix: nat)
    requires InRange(v) && v != 0 && v != INT128_MIN && 2 <= radix <= 37
    ensures var digits := if v < 0 then Text(v, radix)[1..] else Text(v, radix);
      && (v < 0 ==> Text(v, radix) == "-" + digits) && digits != [] && digits[0] != '0'
      && (forall i :: 0 <= i < |digits| ==> IsProper(digits[i], radix)) && Positional(radix, digits) == Abs(v)
  {
    hide Digits, Positional, IsProper;
    DigitsArePositional(Abs(v), radix);
    FirstDigit(Abs(v), radix);
    assert v < 0 ==> Text(v, radix)[1..] == Digits(-v, radix);
  }

  lemma {:induction false} DigitsArePositional(n: nat, radix: nat)
    requires 2 <= radix <= 37
    ensures Positional(radix, Digits(n, radix)) == n
    ensures forall i :: 0 <= i < |Digits(n, radix)| ==> IsProper(Digits(n, radix)[i], radix)
    decreases n
  {
    if n > 0 {
      hide Digits, Positional;
      var q, r := SplitLastDigit(n, radix);
      DigitsArePositional(q, radix);
      PositionalAppended(radix, Digits(q, radix), DigitChar(r));
    }
  }

  lemma {:induction false} PositionalAppended(radix: nat, s: string, c: char)
    ensures Positional(radix, s + [c]) == Positional(radix, s) * radix + StandardDigit(c)
  {
    if s == [] {
      assert s + [c] == [c] && Power(radix, 0) == 1;
    } else {
      hide StandardDigit;
      var d, power := StandardDigit(s[0]), Power(radix, |s| - 1);
      PositionalAppended(radix, s[1..], c);
      assert (s + [c])[1..] == s[1..] + [c];
      MulDistr(d * power, Positional(radix, s[1..]), radix);
      MulAssoc(d, radix, power);
    }
  }

  lemma {:induction false} FirstDigit(n: nat, radix: nat)
    requires 2 <= radix <= 37 && n > 0
    ensures Digits(n, radix) != [] && 0 < StandardDigit(Digits(n, radix)[0]) < radix
    decreases n
  {
    var q, r := SplitLastDigit(n, radix);
    if q > 0 {
      hide Digits;
      FirstDigit(q, radix);
    } else {
      assert Digits(0, radix) == "";
    }
  }
}
